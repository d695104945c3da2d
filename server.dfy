/**
 * The directory server: the roster of registered peers, the SESSION_ACCEPT
 * reply that lists it, and the decision taken for each incoming message.
 */
module Server {
  import opened Wrappers
  import opened JavaText
  import opened Tags
  import opened Encode
  import opened Peers
  import opened Decode
  import opened DecodeRoundTrips

  /* --------------------------------- the roster reply --------------------------------- */

  /** One PEER element, in the order sendSessionAccept appends its pieces; the port is Integer.toString. */
  function EntryText(p: PeerInfo): string {
    PeerOpen + PeerNameOpen + p.name + PeerNameClose + IpOpen + p.host + IpClose
    + PortOpen + IntToString(p.port) + PortClose + PeerClose
  }

  /** The PEER elements of a roster, in roster order. */
  function EntriesText(ps: seq<PeerInfo>): string {
    if |ps| == 0 then "" else EntryText(ps[0]) + EntriesText(ps[1..])
  }

  /** The whole SESSION_ACCEPT reply for a roster. */
  function RosterText(ps: seq<PeerInfo>): string {
    SessionAcceptOpen + EntriesText(ps) + SessionAcceptClose
  }

  /** Appending a peer appends its element. */
  lemma {:induction false} EntriesTextSnoc(ps: seq<PeerInfo>, p: PeerInfo)
    ensures EntriesText(ps + [p]) == EntriesText(ps) + EntryText(p)
  {
    if |ps| == 0 {
      assert ps + [p] == [p];
      assert EntriesText([p][1..]) == "";
    } else {
      assert (ps + [p])[1..] == ps[1..] + [p];
      EntriesTextSnoc(ps[1..], p);
    }
  }

  /** The loop step of sendSessionAccept: the element of peer i follows those before it. */
  lemma EntryAppended(ps: seq<PeerInfo>, i: nat)
    requires i < |ps|
    ensures EntriesText(ps[..i]) + EntryText(ps[i]) == EntriesText(ps[..i + 1])
  {
    SnocSlice(ps, i);
    EntriesTextSnoc(ps[..i], ps[i]);
  }

  lemma SnocSlice<T>(ps: seq<T>, i: nat)
    requires i < |ps|
    ensures ps[..i + 1] == ps[..i] + [ps[i]]
  {
  }

  lemma Associate(a: string, b: string, c: string)
    ensures a + b + c == a + (b + c)
  {
  }

  /** An empty roster is the bare envelope. */
  lemma EmptyRosterText()
    ensures RosterText([]) == "<SESSION_ACCEPT></SESSION_ACCEPT>"
  {
  }

  /** The reply lists exactly |ps| PEER elements: its length is the sum of the elements' lengths. */
  lemma {:induction false} RosterTextLength(ps: seq<PeerInfo>)
    ensures |RosterText(ps)| == |SessionAcceptOpen| + |SessionAcceptClose| + EntriesLength(ps)
  {
    EntriesLengthSum(ps);
  }

  function EntriesLength(ps: seq<PeerInfo>): nat {
    if |ps| == 0 then 0 else |EntryText(ps[0])| + EntriesLength(ps[1..])
  }

  lemma {:induction false} EntriesLengthSum(ps: seq<PeerInfo>)
    ensures |EntriesText(ps)| == EntriesLength(ps)
  {
    if |ps| > 0 {
      EntriesLengthSum(ps[1..]);
    }
  }

  /** msg += piece, eleven times, appends one PEER element. */
  lemma AppendEntry(m: string, p: PeerInfo)
    ensures m + PeerOpen + PeerNameOpen + p.name + PeerNameClose + IpOpen + p.host + IpClose
      + PortOpen + IntToString(p.port) + PortClose + PeerClose == m + EntryText(p)
  {
    AppendEleven(m, PeerOpen, PeerNameOpen, p.name, PeerNameClose, IpOpen, p.host, IpClose,
      PortOpen, IntToString(p.port), PortClose, PeerClose);
  }

  lemma AppendEleven(m: string, a: string, b: string, c: string, d: string, e: string, f: string,
                     g: string, h: string, i: string, j: string, k: string)
    ensures m + a + b + c + d + e + f + g + h + i + j + k == m + (a + b + c + d + e + f + g + h + i + j + k)
  {
  }

  /* ---------------------------------- roster facts ---------------------------------- */

  /** Some roster peer carries the name. */
  predicate NameTaken(ps: seq<PeerInfo>, name: string) {
    exists i :: 0 <= i < |ps| && ps[i].name == name
  }

  /** No two roster peers share a name. */
  predicate DistinctNames(ps: seq<PeerInfo>) {
    forall i, j :: 0 <= i < j < |ps| ==> ps[i].name != ps[j].name
  }

  /** removeIf keeps the others in order, so distinct names stay distinct. */
  lemma {:induction false} RemoveNamedDistinct(ps: seq<PeerInfo>, name: string)
    requires DistinctNames(ps)
    ensures DistinctNames(RemoveNamed(ps, name))
    ensures !NameTaken(RemoveNamed(ps, name), name)
  {
    if |ps| > 0 {
      var rest := RemoveNamed(ps[1..], name);
      RemoveNamedDistinct(ps[1..], name);
      if ps[0].name != name {
        forall i | 0 <= i < |rest| ensures rest[i].name != ps[0].name {
          assert rest[i] in rest;
          var k :| 0 <= k < |ps[1..]| && ps[1..][k] == rest[i];
          assert ps[k + 1] == rest[i];
        }
        var r := [ps[0]] + rest;
        assert forall i :: 0 < i < |r| ==> r[i] == rest[i - 1];
      } else {
        assert RemoveNamed(ps, name) == rest;
      }
    }
  }

  /** The roster shrinks under removal exactly when someone carried the name. */
  lemma {:induction false} RemoveNamedShrinks(ps: seq<PeerInfo>, name: string)
    ensures |RemoveNamed(ps, name)| < |ps| <==> NameTaken(ps, name)
  {
    if |ps| > 0 {
      RemoveNamedShrinks(ps[1..], name);
      if NameTaken(ps[1..], name) {
        var k :| 0 <= k < |ps[1..]| && ps[1..][k].name == name;
        assert ps[k + 1].name == name;
      }
      if NameTaken(ps, name) && ps[0].name != name {
        var k :| 0 <= k < |ps| && ps[k].name == name;
        assert ps[1..][k - 1].name == name;
      }
    }
  }

  /** updatePeerOnline only ever removes. */
  lemma UpdateKeepsDistinct(ps: seq<PeerInfo>, msg: string)
    requires DistinctNames(ps)
    ensures DistinctNames(UpdatePeerOnline(ps, msg))
  {
    if IsKeepAlive(msg) && !Contains(msg, AliveMarker) {
      match FindGroup(msg, KillUser)
      case None =>
      case Some(g) =>
        TagPairsSafe();
        RemoveNamedDistinct(ps, Extract(g, PeerNameOpen, PeerNameClose));
    }
  }

  /* -------------------------------- one connection -------------------------------- */

  /** waitForConnection's verdict: go on, deny, or an exception from parseInt or the database. */
  datatype Outcome = Proceed | Denied | Failed

  /** The verdict with the roster and the isExit flag it leaves behind. */
  datatype Step = Step(outcome: Outcome, peers: seq<PeerInfo>, exit: bool)

  /**
   * waitForConnection on message `msg` from the address text `remote`; `dbOk`
   * says whether the INSERT of saveNewPeer goes through. Integer.parseInt runs
   * before the database is reached.
   */
  function Connect(peers: seq<PeerInfo>, exit: bool, msg: string, remote: string, dbOk: bool): Step {
    match GetUser(msg)
    case Some(user) => Admit(peers, exit, user, remote, dbOk)
    case None =>
      var after := UpdatePeerOnline(peers, msg);
      Step(Proceed, after, exit || |after| != |peers|)
  }

  /** The registration branch of waitForConnection, for the name and port text in `user`. */
  function Admit(peers: seq<PeerInfo>, exit: bool, user: seq<string>, remote: string, dbOk: bool): Step
    requires |user| == 2
  {
    if NameTaken(peers, user[0]) then Step(Denied, peers, exit)
    else
      match ParseInt(user[1])
      case None => Step(Failed, peers, exit)
      case Some(port) =>
        if dbOk then Step(Proceed, peers + [PeerInfo(user[0], remote, port)], exit)
        else Step(Failed, peers, exit)
  }

  /** What the turn writes back: the roster, the deny tag, nothing, or nothing because the loop died. */
  datatype Reply = SendRoster | SendDeny | NoReply | Crashed

  /** The text written on the connection, given the roster after the turn. */
  function Wire(r: Reply, peers: seq<PeerInfo>): Option<string> {
    match r
    case SendRoster => Some(RosterText(peers))
    case SendDeny => Some(SessionDeny)
    case _ => None
  }

  lemma WireOf(r: Reply, peers: seq<PeerInfo>, text: Option<string>)
    requires r == SendRoster ==> text == Some(RosterText(peers))
    requires r == SendDeny ==> text == Some(SessionDeny)
    requires r == NoReply || r == Crashed ==> text == None
    ensures text == Wire(r, peers)
  {
  }

  /** The roster, the isExit flag, whether the accept thread still runs, and the reply. */
  datatype Served = Served(peers: seq<PeerInfo>, exit: bool, listening: bool, reply: Reply)

  /**
   * One turn of WaitForConnect.run: the deny tag, the roster, or nothing when a
   * peer has just left; an exception leaves the loop, as the catch is outside it.
   */
  function Serve(peers: seq<PeerInfo>, exit: bool, msg: string, remote: string, dbOk: bool): Served {
    Respond(Connect(peers, exit, msg, remote, dbOk))
  }

  /** What the loop does with waitForConnection's verdict. */
  function Respond(st: Step): Served {
    match st.outcome
    case Failed => Served(st.peers, st.exit, false, Crashed)
    case Denied => Served(st.peers, st.exit, true, SendDeny)
    case Proceed =>
      if st.exit then Served(st.peers, false, true, NoReply)
      else Served(st.peers, st.exit, true, SendRoster)
  }

  /** An incoming connection: its message, its address text, and the database's answer. */
  datatype Incoming = Incoming(msg: string, remote: string, dbOk: bool)

  /** The state after a run of turns, with one reply per turn served. */
  datatype Trace = Trace(peers: seq<PeerInfo>, exit: bool, listening: bool, replies: seq<Reply>)

  /** The run loop over a sequence of connections, until one throws. */
  function ServeAll(peers: seq<PeerInfo>, exit: bool, conns: seq<Incoming>): Trace
    decreases |conns|
  {
    if |conns| == 0 then Trace(peers, exit, true, [])
    else
      var s := Serve(peers, exit, conns[0].msg, conns[0].remote, conns[0].dbOk);
      if !s.listening then Trace(s.peers, s.exit, false, [s.reply])
      else After([s.reply], ServeAll(s.peers, s.exit, conns[1..]))
  }

  /** Replies `rs` come before those of the trace `t`. */
  function After(rs: seq<Reply>, t: Trace): Trace {
    Trace(t.peers, t.exit, t.listening, rs + t.replies)
  }

  lemma AfterAfter(rs: seq<Reply>, qs: seq<Reply>, t: Trace)
    ensures After(rs, After(qs, t)) == After(rs + qs, t)
  {
    assert rs + (qs + t.replies) == rs + qs + t.replies;
  }

  /** The run loop's step: the turn for connection i, then the loop over the rest. */
  lemma ServeAllStep(peers: seq<PeerInfo>, exit: bool, conns: seq<Incoming>, i: nat)
    requires i < |conns|
    ensures var s := Serve(peers, exit, conns[i].msg, conns[i].remote, conns[i].dbOk);
      ServeAll(peers, exit, conns[i..]) ==
        if s.listening then After([s.reply], ServeAll(s.peers, s.exit, conns[i + 1..]))
        else Trace(s.peers, s.exit, false, [s.reply])
  {
    assert conns[i..][0] == conns[i] && conns[i..][1..] == conns[i + 1..];
  }

  /* ------------------------------ what one turn does ------------------------------ */

  /** A registration under an unseen name appends one peer at the end; the rest is untouched. */
  lemma RegisterAppends(peers: seq<PeerInfo>, n: string, p: string, remote: string, port: int)
    requires AllIn(n, NotAngle) && AllIn(n, Dot) && AllIn(p, Digit)
    requires !NameTaken(peers, n) && ParseInt(p) == Some(port)
    ensures var np := peers + [PeerInfo(n, remote, port)];
      Serve(peers, false, CreateAccount(n, p), remote, true) == Served(np, false, true, SendRoster)
  {
    DigitsNotAngle(p);
    GetUserOfCreateAccount(n, p);
  }

  /** A registration whose database insert fails, or whose port is no int, stops the server. */
  lemma RegisterFails(peers: seq<PeerInfo>, exit: bool, n: string, p: string, remote: string, dbOk: bool)
    requires AllIn(n, NotAngle) && AllIn(n, Dot) && AllIn(p, Digit) && !NameTaken(peers, n)
    requires ParseInt(p).None? || !dbOk
    ensures Serve(peers, exit, CreateAccount(n, p), remote, dbOk) == Served(peers, exit, false, Crashed)
  {
    DigitsNotAngle(p);
    GetUserOfCreateAccount(n, p);
  }

  /** A registration under a taken name is denied and changes nothing. */
  lemma RegisterDuplicateDenied(peers: seq<PeerInfo>, exit: bool, n: string, p: string, remote: string, dbOk: bool)
    requires AllIn(n, NotAngle) && AllIn(n, Dot) && AllIn(p, Digit) && NameTaken(peers, n)
    ensures Serve(peers, exit, CreateAccount(n, p), remote, dbOk) == Served(peers, exit, true, SendDeny)
  {
    DigitsNotAngle(p);
    GetUserOfCreateAccount(n, p);
  }

  lemma DigitsNotAngle(p: string)
    requires AllIn(p, Digit)
    ensures AllIn(p, NotAngle)
  {
    forall i | 0 <= i < |p| ensures InClass(p[i], NotAngle) {
      assert InClass(p[i], Digit);
    }
  }

  /** A keep-alive is no registration: its first tag is SESSION_KEEP_ALIVE, not SESSION_REQ. */
  lemma KeepAliveIsNoUser(n: string, w: string)
    ensures GetUser(KeepAlive(n, w)) == None
  {
    var s := KeepAlive(n, w);
    assert s[9] == 'K' && (SessionOpen + PeerNameOpen)[9] == 'R';
    assert s[..|SessionOpen + PeerNameOpen|][9] == s[9];
  }

  /** exit(n) removes every peer named n; no reply is written when one was there. */
  lemma ExitServed(peers: seq<PeerInfo>, n: string, remote: string, dbOk: bool)
    requires |n| > 0 && AllIn(n, NotAngle)
    ensures Serve(peers, false, Exit(n), remote, dbOk) ==
      if NameTaken(peers, n) then Served(RemoveNamed(peers, n), false, true, NoReply)
      else Served(peers, false, true, SendRoster)
  {
    KeepAliveStatusOnly(n);
    KeepAliveIsNoUser(n, ServerOffline);
    ExitRemovesPeer(peers, n);
    RemoveNamedShrinks(peers, n);
    if !NameTaken(peers, n) {
      RemoveNamedAbsent(peers, n);
    }
  }

  /** sendRequest(n), the RUNNING keep-alive, is answered with the whole roster. */
  lemma RunningServed(peers: seq<PeerInfo>, n: string, remote: string, dbOk: bool)
    ensures Serve(peers, false, SendRequest(n), remote, dbOk) == Served(peers, false, true, SendRoster)
  {
    KeepAliveStatusOnly(n);
    KeepAliveIsNoUser(n, ServerOnline);
    RunningKeepsPeers(peers, n);
  }

  /** Text that is neither a registration nor a keep-alive is answered with the whole roster. */
  lemma UnrecognizedServed(peers: seq<PeerInfo>, msg: string, remote: string, dbOk: bool)
    requires !IsCreateAccount(msg) && !IsKeepAlive(msg)
    ensures Serve(peers, false, msg, remote, dbOk) == Served(peers, false, true, SendRoster)
  {
  }

  /** Every turn that leaves the loop running also leaves isExit clear. */
  lemma ServeClearsExit(peers: seq<PeerInfo>, exit: bool, msg: string, remote: string, dbOk: bool)
    requires !exit
    ensures var s := Serve(peers, exit, msg, remote, dbOk); !s.exit
  {
    var st := Connect(peers, exit, msg, remote, dbOk);
    ConnectExit(peers, exit, msg, remote, dbOk);
    RespondExit(st);
  }

  /** Only a keep-alive turn can raise isExit. */
  lemma ConnectExit(peers: seq<PeerInfo>, exit: bool, msg: string, remote: string, dbOk: bool)
    ensures var st := Connect(peers, exit, msg, remote, dbOk); st.outcome != Proceed ==> st.exit == exit
  {
    if GetUser(msg).Some? {
      ConnectRegisters(peers, exit, msg, remote, dbOk, GetUser(msg).value);
    }
  }

  /** The loop clears isExit when it skips the reply. */
  lemma RespondExit(st: Step)
    ensures Respond(st).exit == (st.outcome != Proceed && st.exit)
  {
  }

  lemma RespondPeers(st: Step)
    ensures Respond(st).peers == st.peers
  {
  }

  /** One turn keeps the roster's names distinct. */
  lemma ServeKeepsDistinct(peers: seq<PeerInfo>, exit: bool, msg: string, remote: string, dbOk: bool)
    requires DistinctNames(peers)
    ensures DistinctNames(Serve(peers, exit, msg, remote, dbOk).peers)
  {
    if GetUser(msg).Some? {
      RegistrationKeepsDistinct(peers, exit, msg, remote, dbOk);
    } else {
      UpdateKeepsDistinct(peers, msg);
      KeepAliveTurnPeers(peers, exit, msg, remote, dbOk);
    }
  }

  /** A registration turn appends only under an unseen name. */
  lemma RegistrationKeepsDistinct(peers: seq<PeerInfo>, exit: bool, msg: string, remote: string, dbOk: bool)
    requires DistinctNames(peers) && GetUser(msg).Some?
    ensures DistinctNames(Serve(peers, exit, msg, remote, dbOk).peers)
  {
    var u := GetUser(msg).value;
    RegistrationTurnPeers(peers, exit, msg, remote, dbOk, u);
    var port := ParseInt(u[1]);
    if !NameTaken(peers, u[0]) && port.Some? && dbOk {
      AppendFresh(peers, PeerInfo(u[0], remote, port.value));
    }
  }

  /** A registration turn appends the new peer or leaves the roster as it was. */
  lemma RegistrationTurnPeers(peers: seq<PeerInfo>, exit: bool, msg: string, remote: string, dbOk: bool, u: seq<string>)
    requires GetUser(msg) == Some(u)
    ensures var port := ParseInt(u[1]);
      Serve(peers, exit, msg, remote, dbOk).peers ==
        if !NameTaken(peers, u[0]) && port.Some? && dbOk then peers + [PeerInfo(u[0], remote, port.value)] else peers
  {
    ConnectRegisters(peers, exit, msg, remote, dbOk, u);
    ServePeers(peers, exit, msg, remote, dbOk);
    AdmitPeers(peers, exit, u, remote, dbOk);
  }

  lemma ConnectRegisters(peers: seq<PeerInfo>, exit: bool, msg: string, remote: string, dbOk: bool, u: seq<string>)
    requires GetUser(msg) == Some(u)
    ensures Connect(peers, exit, msg, remote, dbOk) == Admit(peers, exit, u, remote, dbOk)
  {
  }

  /** The turn leaves the roster waitForConnection left. */
  lemma ServePeers(peers: seq<PeerInfo>, exit: bool, msg: string, remote: string, dbOk: bool)
    ensures Serve(peers, exit, msg, remote, dbOk).peers == Connect(peers, exit, msg, remote, dbOk).peers
  {
    RespondPeers(Connect(peers, exit, msg, remote, dbOk));
  }

  lemma AdmitPeers(peers: seq<PeerInfo>, exit: bool, u: seq<string>, remote: string, dbOk: bool)
    requires |u| == 2
    ensures var port := ParseInt(u[1]);
      Admit(peers, exit, u, remote, dbOk).peers ==
        if !NameTaken(peers, u[0]) && port.Some? && dbOk then peers + [PeerInfo(u[0], remote, port.value)] else peers
  {
  }

  /** Any other turn leaves the roster updatePeerOnline gives. */
  lemma KeepAliveTurnPeers(peers: seq<PeerInfo>, exit: bool, msg: string, remote: string, dbOk: bool)
    requires GetUser(msg).None?
    ensures Serve(peers, exit, msg, remote, dbOk).peers == UpdatePeerOnline(peers, msg)
  {
  }

  /** Appending a peer under an unseen name keeps the names distinct. */
  lemma AppendFresh(peers: seq<PeerInfo>, p: PeerInfo)
    requires DistinctNames(peers) && !NameTaken(peers, p.name)
    ensures DistinctNames(peers + [p])
  {
    var r := peers + [p];
    forall i, j | 0 <= i < j < |r| ensures r[i].name != r[j].name {
      if j == |peers| {
        assert r[i] == peers[i];
      }
    }
  }

  /** Roster names stay pairwise distinct across any sequence of connections. */
  lemma {:induction false} ServeAllKeepsDistinct(peers: seq<PeerInfo>, exit: bool, conns: seq<Incoming>)
    requires DistinctNames(peers)
    ensures DistinctNames(ServeAll(peers, exit, conns).peers)
    decreases |conns|
  {
    if |conns| > 0 {
      var c := conns[0];
      ServeKeepsDistinct(peers, exit, c.msg, c.remote, c.dbOk);
      var s := Serve(peers, exit, c.msg, c.remote, c.dbOk);
      if s.listening {
        ServeAllKeepsDistinct(s.peers, s.exit, conns[1..]);
      }
    }
  }

  /* --------------------------------- the server object --------------------------------- */

  class ServerCore {
    /** The roster, in registration order. */
    var dataPeer: seq<PeerInfo>
    var isStop: bool
    var isExit: bool
    /** The WaitForConnect thread is still inside its loop. */
    var listening: bool

    /** A new server starts with an empty roster and its accept thread running. */
    constructor()
      ensures dataPeer == [] && !isStop && !isExit && listening
    {
      dataPeer := [];
      isStop := false;
      isExit := false;
      listening := true;
    }

    /** sendSessionAccept: the roster reply, one PEER element per peer in roster order. */
    method SendSessionAccept() returns (msg: string)
      ensures msg == RosterText(dataPeer)
    {
      msg := SessionAcceptOpen;
      var size := |dataPeer|;
      var i := 0;
      while i < size
        invariant 0 <= i <= size
        invariant msg == SessionAcceptOpen + EntriesText(dataPeer[..i])
      {
        var peer := dataPeer[i];
        ghost var before := msg;
        msg := msg + PeerOpen;
        msg := msg + PeerNameOpen;
        msg := msg + peer.name;
        msg := msg + PeerNameClose;
        msg := msg + IpOpen;
        msg := msg + peer.host;
        msg := msg + IpClose;
        msg := msg + PortOpen;
        msg := msg + IntToString(peer.port);
        msg := msg + PortClose;
        msg := msg + PeerClose;
        AppendEntry(before, peer);
        EntryAppended(dataPeer, i);
        Associate(SessionAcceptOpen, EntriesText(dataPeer[..i]), EntryText(peer));
        i := i + 1;
      }
      assert dataPeer[..size] == dataPeer;
      msg := msg + SessionAcceptClose;
    }

    /** isExsistName: some roster peer carries the name. */
    method IsExsistName(name: string) returns (b: bool)
      ensures b <==> NameTaken(dataPeer, name)
    {
      var size := |dataPeer|;
      var i := 0;
      while i < size
        invariant 0 <= i <= size
        invariant forall k :: 0 <= k < i ==> dataPeer[k].name != name
      {
        if dataPeer[i].name == name {
          return true;
        }
        i := i + 1;
      }
      return false;
    }

    /** saveNewPeer: after the INSERT goes through, the new peer is appended; a failed INSERT throws first. */
    method SaveNewPeer(user: string, ip: string, port: int, dbOk: bool) returns (ok: bool)
      modifies this
      ensures ok == dbOk
      ensures dataPeer == if dbOk then old(dataPeer) + [PeerInfo(user, ip, port)] else old(dataPeer)
      ensures isStop == old(isStop) && isExit == old(isExit) && listening == old(listening)
    {
      if !dbOk {
        return false;
      }
      var newPeer := new Peer();
      newPeer.SetPeer(user, ip, port);
      dataPeer := dataPeer + [newPeer.Info()];
      return true;
    }

    /** waitForConnection for one accepted connection. */
    method WaitForConnection(msg: string, remote: string, dbOk: bool) returns (o: Outcome)
      modifies this
      ensures Step(o, dataPeer, isExit) == Connect(old(dataPeer), old(isExit), msg, remote, dbOk)
      ensures isStop == old(isStop) && listening == old(listening)
    {
      var getData := GetUser(msg);
      if getData.Some? {
        var taken := IsExsistName(getData.value[0]);
        if !taken {
          var port := ParseInt(getData.value[1]);
          if port.None? {
            return Failed;
          }
          var ok := SaveNewPeer(getData.value[0], remote, port.value, dbOk);
          if !ok {
            return Failed;
          }
        } else {
          return Denied;
        }
      } else {
        var size := |dataPeer|;
        dataPeer := UpdatePeerOnline(dataPeer, msg);
        if size != |dataPeer| {
          isExit := true;
        }
      }
      return Proceed;
    }

    /** One turn of WaitForConnect.run's loop. */
    method Handle(msg: string, remote: string, dbOk: bool) returns (reply: Reply, text: Option<string>)
      requires listening && !isStop
      modifies this
      ensures Served(dataPeer, isExit, listening, reply) == Serve(old(dataPeer), old(isExit), msg, remote, dbOk)
      ensures text == Wire(reply, dataPeer)
      ensures isStop == old(isStop)
    {
      var o := WaitForConnection(msg, remote, dbOk);
      text := None;
      if o == Failed {
        listening := false;
        reply := Crashed;
      } else if o == Proceed {
        if isExit {
          isExit := false;
          reply := NoReply;
        } else {
          var accept := SendSessionAccept();
          reply, text := SendRoster, Some(accept);
        }
      } else {
        reply, text := SendDeny, Some(SessionDeny);
      }
      WireOf(reply, dataPeer, text);
    }

    /** WaitForConnect.run: serve connections while not stopped, until one throws. */
    method Run(conns: seq<Incoming>) returns (replies: seq<Reply>)
      requires listening && !isStop
      modifies this
      ensures Trace(dataPeer, isExit, listening, replies) == ServeAll(old(dataPeer), old(isExit), conns)
      ensures isStop == old(isStop)
    {
      replies := [];
      var i := 0;
      while i < |conns| && listening
        invariant 0 <= i <= |conns| && !isStop
        invariant ServeAll(old(dataPeer), old(isExit), conns) ==
          After(replies, if listening then ServeAll(dataPeer, isExit, conns[i..]) else Trace(dataPeer, isExit, false, []))
      {
        ServeAllStep(dataPeer, isExit, conns, i);
        var r, _ := Handle(conns[i].msg, conns[i].remote, conns[i].dbOk);
        AfterAfter(replies, [r], if listening then ServeAll(dataPeer, isExit, conns[i + 1..]) else Trace(dataPeer, isExit, false, []));
        replies := replies + [r];
        i := i + 1;
      }
      if listening {
        assert conns[i..] == [];
      }
      assert replies + [] == replies;
    }

    /** stopserver: the accept loop ends at its next test. */
    method StopServer()
      modifies this
      ensures isStop && dataPeer == old(dataPeer) && isExit == old(isExit) && listening == old(listening)
    {
      isStop := true;
    }
  }
}
