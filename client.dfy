/**
 * The chat client's link to the directory server: the roster it last received,
 * the periodic keep-alive refresh, the friends list derived from the roster,
 * chat requests to peers and the exit message.
 */
module Client {
  import opened Wrappers
  import opened Tags
  import opened Encode
  import opened Decode
  import opened Peers
  import opened MainFrame
  import Server

  /** The value getAllUser leaves in clientList: null for a non-roster reply. */
  function RosterOf(r: RosterReply): Option<seq<PeerInfo>>
    requires !r.RosterFailure?
  {
    if r.Roster? then Some(r.peers) else None
  }

  /**
   * The friends list after updateFriendList ran over `ps`: the model is reset, then
   * every roster name other than `me` is added in roster order, skipping repeats.
   */
  function Friends(ps: seq<PeerInfo>, me: string): seq<string> {
    if |ps| == 0 then []
    else
      var f := Friends(ps[..|ps| - 1], me);
      var p := ps[|ps| - 1];
      if p.name != me then Added(f, p.name) else f
  }

  /** A null roster makes the loop throw right after the reset: the list stays empty. */
  function FriendsOf(list: Option<seq<PeerInfo>>, me: string): seq<string> {
    if list.Some? then Friends(list.value, me) else []
  }

  /** The friends list holds no duplicates. */
  lemma {:induction false} FriendsDistinct(ps: seq<PeerInfo>, me: string)
    ensures Distinct(Friends(ps, me))
  {
    if |ps| > 0 {
      FriendsDistinct(ps[..|ps| - 1], me);
      AddedKeepsDistinct(Friends(ps[..|ps| - 1], me), ps[|ps| - 1].name);
    }
  }

  /** A name is listed exactly when some roster peer has it and it is not the user's own. */
  lemma {:induction false} FriendsMembers(ps: seq<PeerInfo>, me: string, x: string)
    ensures x in Friends(ps, me) <==> x != me && exists p :: p in ps && p.name == x
  {
    if |ps| > 0 {
      var init := ps[..|ps| - 1];
      var last := ps[|ps| - 1];
      FriendsMembers(init, me, x);
      if x in Friends(init, me) {
        var p :| p in init && p.name == x;
        assert p in ps;
      }
      if last.name == x {
        assert last in ps;
      }
      if exists p :: p in ps && p.name == x {
        var p :| p in ps && p.name == x;
        var k :| 0 <= k < |ps| && ps[k] == p;
        if k < |ps| - 1 {
          assert init[k] == p;
        }
      }
    }
  }

  /** The user's own name never appears among the friends. */
  lemma SelfNeverListed(ps: seq<PeerInfo>, me: string)
    ensures me !in Friends(ps, me)
  {
    FriendsMembers(ps, me, me);
  }

  /** Roster names other than `me`, in roster order: the plain filter. */
  function OtherNames(ps: seq<PeerInfo>, me: string): seq<string> {
    if |ps| == 0 then []
    else
      var f := OtherNames(ps[..|ps| - 1], me);
      if ps[|ps| - 1].name != me then f + [ps[|ps| - 1].name] else f
  }

  /** A name no roster peer carries is not in the filter. */
  lemma {:induction false} OtherNamesAbsent(ps: seq<PeerInfo>, me: string, x: string)
    requires forall i :: 0 <= i < |ps| ==> ps[i].name != x
    ensures x !in OtherNames(ps, me)
  {
    if |ps| > 0 {
      OtherNamesAbsent(ps[..|ps| - 1], me, x);
    }
  }

  /** On a roster with distinct names (as the server keeps it) the friends are exactly the filter. */
  lemma {:induction false} FriendsInRosterOrder(ps: seq<PeerInfo>, me: string)
    requires Server.DistinctNames(ps)
    ensures Friends(ps, me) == OtherNames(ps, me)
  {
    if |ps| > 0 {
      var init := ps[..|ps| - 1];
      var last := ps[|ps| - 1];
      assert Server.DistinctNames(init);
      FriendsInRosterOrder(init, me);
      OtherNamesAbsent(init, me, last.name);
    }
  }

  /** How one round trip to the directory server went. */
  datatype Exchange =
    | Refused                   // connect failed: nothing was sent
    | Unanswered                // the request went out, reading the reply failed
    | Answered(reply: string)   // the server's reply text

  /** The client's observable state. */
  datatype ClientState = ClientState(clientList: Option<seq<PeerInfo>>, toServer: seq<string>,
                                     friends: seq<string>)

  /**
   * sendRequest: the keep-alive goes out once the connection stands; a reply that
   * getAllUser parses replaces clientList wholesale and rebuilds the friends list,
   * while a parse exception leaves both as they were.
   */
  function Refresh(s: ClientState, me: string, e: Exchange): ClientState {
    match e
    case Refused => s
    case Unanswered => s.(toServer := s.toServer + [SendRequest(me)])
    case Answered(m) =>
      var sent := s.toServer + [SendRequest(me)];
      var r := AllUsers(m);
      if r.RosterFailure? then s.(toServer := sent)
      else ClientState(RosterOf(r), sent, FriendsOf(RosterOf(r), me))
  }

  /** The refresh thread's iterations, one exchange each, each failure caught. */
  function RefreshAll(s: ClientState, me: string, es: seq<Exchange>): ClientState
    decreases |es|
  {
    if |es| == 0 then s else RefreshAll(Refresh(s, me, es[0]), me, es[1..])
  }

  /** Whether an exchange got the keep-alive out. */
  function Reached(e: Exchange): nat {
    if e.Refused? then 0 else 1
  }

  /** How many of the exchanges got the keep-alive out. */
  function ReachedCount(es: seq<Exchange>): nat {
    if |es| == 0 then 0 else ReachedCount(es[..|es| - 1]) + Reached(es[|es| - 1])
  }

  /** `n` copies of the RUNNING keep-alive. */
  function KeepAlives(me: string, n: nat): seq<string> {
    seq(n, _ => SendRequest(me))
  }

  /** The roster after the exchanges: that of the last reply getAllUser parsed, `list` if none did. */
  function LastRoster(list: Option<seq<PeerInfo>>, es: seq<Exchange>): Option<seq<PeerInfo>> {
    if |es| == 0 then list
    else
      var e := es[|es| - 1];
      if e.Answered? && !AllUsers(e.reply).RosterFailure? then RosterOf(AllUsers(e.reply))
      else LastRoster(list, es[..|es| - 1])
  }

  lemma {:induction false} RefreshAllSnoc(s: ClientState, me: string, es: seq<Exchange>, e: Exchange)
    ensures RefreshAll(s, me, es + [e]) == Refresh(RefreshAll(s, me, es), me, e)
    decreases |es|
  {
    if |es| == 0 {
      assert (es + [e])[1..] == [];
    } else {
      assert (es + [e])[1..] == es[1..] + [e];
      RefreshAllSnoc(Refresh(s, me, es[0]), me, es[1..], e);
    }
  }

  /**
   * Over any run of refreshes clientList is the last parsed reply's roster, and the
   * friends list stays the one derived from it.
   */
  lemma {:induction false} RefreshAllRoster(s: ClientState, me: string, es: seq<Exchange>)
    requires s.friends == FriendsOf(s.clientList, me)
    ensures RefreshAll(s, me, es).clientList == LastRoster(s.clientList, es)
    ensures RefreshAll(s, me, es).friends == FriendsOf(RefreshAll(s, me, es).clientList, me)
    decreases |es|
  {
    if |es| > 0 {
      var init := es[..|es| - 1];
      assert es == init + [es[|es| - 1]];
      RefreshAllRoster(s, me, init);
      RefreshAllSnoc(s, me, init, es[|es| - 1]);
    }
  }

  /** Over any run of refreshes only RUNNING keep-alives are sent, one per exchange that connected. */
  lemma {:induction false} RefreshAllSent(s: ClientState, me: string, es: seq<Exchange>)
    ensures RefreshAll(s, me, es).toServer == s.toServer + KeepAlives(me, ReachedCount(es))
    decreases |es|
  {
    if |es| > 0 {
      var init := es[..|es| - 1];
      var e := es[|es| - 1];
      assert es == init + [e];
      RefreshAllSent(s, me, init);
      RefreshAllSnoc(s, me, init, e);
      var n := ReachedCount(init);
      if !e.Refused? {
        assert KeepAlives(me, n) + [SendRequest(me)] == KeepAlives(me, n + 1);
      }
    }
  }

  class Client {
    const username: string
    const clientPort: int
    /** MainFrame's static list model. */
    const friends: FriendList
    /** null (None) after a reply that is no roster. */
    var clientList: Option<seq<PeerInfo>>
    var isRunning: bool
    /** Every message written to the directory server, in order. */
    var toServer: seq<string>
    /** Every chat request written to a peer, in order. */
    var toPeers: seq<string>
    /** The guests whose chat window was opened. */
    var chats: seq<string>

    function State(): ClientState
      reads this, friends
    {
      ClientState(clientList, toServer, friends.names)
    }

    /** The friends list is the one derived from the current roster. */
    predicate Valid()
      reads this, friends
    {
      friends.names == FriendsOf(clientList, username)
    }

    /**
     * The constructor with the roster already decoded from the registration reply;
     * the list refresh it starts is run at once.
     */
    constructor (username: string, clientPort: int, roster: Option<seq<PeerInfo>>, friends: FriendList)
      modifies friends
      ensures this.username == username && this.clientPort == clientPort && this.friends == friends
      ensures clientList == roster && isRunning
      ensures toServer == [] && toPeers == [] && chats == []
      ensures Valid()
    {
      this.username := username;
      this.clientPort := clientPort;
      this.friends := friends;
      clientList := roster;
      isRunning := true;
      toServer := [];
      toPeers := [];
      chats := [];
      new;
      UpdateFriendList();
    }

    /** updateFriendList: reset the model, then add every roster name but the user's own. */
    method UpdateFriendList()
      modifies friends
      ensures Valid()
    {
      friends.Reset();
      if clientList.None? {
        return;
      }
      var ps := clientList.value;
      var i := 0;
      while i < |ps|
        invariant 0 <= i <= |ps|
        invariant friends.names == Friends(ps[..i], username)
      {
        assert ps[..i + 1][..i] == ps[..i];
        if ps[i].name != username {
          friends.Add(ps[i].name);
        }
        i := i + 1;
      }
      assert ps[..|ps|] == ps;
    }

    /** sendRequest, with the server's side of the exchange given as `e`. */
    method SendRequest(e: Exchange)
      requires Valid()
      modifies this, friends
      ensures State() == Refresh(old(State()), username, e)
      ensures isRunning == old(isRunning) && toPeers == old(toPeers) && chats == old(chats)
      ensures Valid()
    {
      if e.Refused? {
        return;
      }
      toServer := toServer + [Encode.SendRequest(username)];
      if e.Unanswered? {
        return;
      }
      var r := AllUsers(e.reply);
      if r.RosterFailure? {
        return;
      }
      clientList := RosterOf(r);
      UpdateFriendList();
    }

    /** RequestThread.run: one refresh per exchange while isRunning, every exception swallowed. */
    method RequestLoop(es: seq<Exchange>)
      requires Valid()
      modifies this, friends
      ensures old(isRunning) ==> State() == RefreshAll(old(State()), username, es)
      ensures !old(isRunning) ==> State() == old(State())
      ensures isRunning == old(isRunning) && toPeers == old(toPeers) && chats == old(chats)
      ensures Valid()
    {
      var i := 0;
      while i < |es| && isRunning
        invariant 0 <= i <= |es|
        invariant isRunning == old(isRunning) && toPeers == old(toPeers) && chats == old(chats)
        invariant Valid()
        invariant isRunning ==> RefreshAll(old(State()), username, es) == RefreshAll(State(), username, es[i..])
        invariant !isRunning ==> State() == old(State())
      {
        assert es[i..][1..] == es[i + 1..];
        SendRequest(es[i]);
        i := i + 1;
      }
    }

    /**
     * startChat, once the socket to the peer stands: the request names the user, and
     * the chat window opens unless the peer answers CHAT_DENY.
     */
    method StartChat(guest: string, response: string) returns (accepted: bool)
      modifies this
      ensures accepted <==> response != ChatDeny
      ensures toPeers == old(toPeers) + [SendRequestChat(username)]
      ensures chats == old(chats) + (if accepted then [guest] else [])
      ensures clientList == old(clientList) && isRunning == old(isRunning) && toServer == old(toServer)
    {
      toPeers := toPeers + [SendRequestChat(username)];
      if response == ChatDeny {
        return false;
      }
      chats := chats + [guest];
      return true;
    }

    /** exit: stop the refresh loop, then send STOP if the server can be reached. */
    method Exit(reachable: bool)
      modifies this
      ensures !isRunning
      ensures toServer == old(toServer) + (if reachable then [Encode.Exit(username)] else [])
      ensures clientList == old(clientList) && toPeers == old(toPeers) && chats == old(chats)
    {
      isRunning := false;
      if reachable {
        toServer := toServer + [Encode.Exit(username)];
      }
    }
  }

  /**
   * Client construction from the registration reply: getAllUser throws on a roster
   * whose port does not parse, and then no client exists.
   */
  method Open(username: string, clientPort: int, raw: string, friends: FriendList) returns (c: Client?)
    modifies friends
    ensures c == null <==> AllUsers(raw).RosterFailure?
    ensures c != null ==> fresh(c) && c.friends == friends && c.username == username
    ensures c != null ==> c.clientList == RosterOf(AllUsers(raw)) && c.isRunning && c.toServer == []
    ensures c != null ==> c.Valid()
  {
    var r := AllUsers(raw);
    if r.RosterFailure? {
      return null;
    }
    c := new Client(username, clientPort, RosterOf(r), friends);
  }

  /** After exit the refresh loop sends nothing and changes nothing. */
  method ExitStopsRefreshing(c: Client, es: seq<Exchange>)
    requires c.Valid()
    modifies c, c.friends
    ensures !c.isRunning
    ensures c.toServer == old(c.toServer) + [Encode.Exit(c.username)]
    ensures c.clientList == old(c.clientList)
  {
    c.Exit(true);
    c.RequestLoop(es);
  }
}
