/**
 * The client's main window, reduced to its state: the shared friends list model,
 * the peer lookup behind "connect", and the voice endpoint chosen for a friend.
 */
module MainFrame {
  import opened Wrappers
  import opened JavaText
  import opened Peers

  /** No name occurs twice. */
  predicate Distinct(ns: seq<string>) {
    forall i, j :: 0 <= i < j < |ns| ==> ns[i] != ns[j]
  }

  /** The list after updateFriendMainFrame(name): appended only when absent. */
  function Added(ns: seq<string>, name: string): seq<string> {
    if name in ns then ns else ns + [name]
  }

  /** Adding keeps the list free of duplicates and holds exactly the old names plus `name`. */
  lemma AddedKeepsDistinct(ns: seq<string>, name: string)
    requires Distinct(ns)
    ensures Distinct(Added(ns, name))
    ensures forall x :: x in Added(ns, name) <==> x in ns || x == name
    ensures |Added(ns, name)| == |ns| + (if name in ns then 0 else 1)
  {
    if name !in ns {
      var r := ns + [name];
      forall i, j | 0 <= i < j < |r|
        ensures r[i] != r[j]
      {
        if j == |ns| {
          assert r[i] == ns[i];
        }
      }
    }
  }

  /** Adding a name twice is the same as adding it once. */
  lemma AddedIdempotent(ns: seq<string>, name: string)
    ensures Added(Added(ns, name), name) == Added(ns, name)
  {
    if name !in ns {
      assert (ns + [name])[|ns|] == name;
    }
  }

  /** The static DefaultListModel of friend names shared by the main window and the client. */
  class FriendList {
    var names: seq<string>

    constructor()
      ensures names == []
    {
      names := [];
    }

    /** updateFriendMainFrame: add the name unless the model already contains it. */
    method Add(name: string)
      modifies this
      ensures names == Added(old(names), name)
      ensures Distinct(old(names)) ==> Distinct(names)
    {
      if Distinct(names) {
        AddedKeepsDistinct(names, name);
      }
      if name !in names {
        names := names + [name];
      }
    }

    /** resetList: clear the model. */
    method Reset()
      modifies this
      ensures names == []
    {
      names := [];
    }
  }

  /**
   * The index of the first peer called `name`, or |ps| when there is none:
   * what stream().filter(...).findFirst() picks.
   */
  function FirstIndex(ps: seq<PeerInfo>, name: string): (i: nat)
    ensures i <= |ps|
    ensures i < |ps| ==> ps[i].name == name
    ensures forall j :: 0 <= j < i ==> ps[j].name != name
  {
    if |ps| == 0 then 0
    else if ps[0].name == name then 0
    else 1 + FirstIndex(ps[1..], name)
  }

  /** findFirst().orElse(null) on the peers named `name`. */
  function FirstNamed(ps: seq<PeerInfo>, name: string): (r: Option<PeerInfo>) {
    var i := FirstIndex(ps, name);
    if i < |ps| then Some(ps[i]) else None
  }

  /** Any first match by name sits at FirstIndex. */
  lemma FirstMatchIsFirstIndex(ps: seq<PeerInfo>, name: string)
    ensures forall i :: 0 <= i < |ps| && ps[i].name == name && (forall j :: 0 <= j < i ==> ps[j].name != name) ==>
              i == FirstIndex(ps, name)
  {
  }

  /** The lookup fails exactly when nobody has the name, and otherwise returns the earliest match. */
  lemma FirstNamedSpec(ps: seq<PeerInfo>, name: string)
    ensures FirstNamed(ps, name).None? <==> forall p :: p in ps ==> p.name != name
    ensures FirstNamed(ps, name).Some? ==>
      exists i :: (0 <= i < |ps| && ps[i] == FirstNamed(ps, name).value && ps[i].name == name &&
                   forall j :: 0 <= j < i ==> ps[j].name != name)
  {
    var i := FirstIndex(ps, name);
    if i < |ps| {
      assert ps[i] in ps;
    } else {
      forall p | p in ps
        ensures p.name != name
      {
        var k :| 0 <= k < |ps| && ps[k] == p;
      }
    }
  }

  /** What connectChat does with the selected name. */
  datatype ChatOutcome =
    | SelfChat                                      // "Cannot chat with yourself!"
    | NullRoster                                    // clientList is null: the stream call throws
    | NotFound                                      // "Friend not found!"
    | Dial(host: string, port: int, guest: string)  // startChat(host, port, selectedName)

  /**
   * connectChat: the self-chat check comes before any lookup; then the first roster
   * peer with the selected name is dialled, and an unknown name dials nobody.
   */
  function ConnectChat(selected: string, me: string, roster: Option<seq<PeerInfo>>): (r: ChatOutcome)
    ensures selected == me ==> r == SelfChat
    ensures r == NotFound <==>
      selected != me && roster.Some? && forall p :: p in roster.value ==> p.name != selected
    ensures r.Dial? <==>
      selected != me && roster.Some? && exists p :: p in roster.value && p.name == selected
    ensures r.Dial? ==> r.guest == selected
    ensures r.Dial? ==>
              exists i :: (0 <= i < |roster.value| && roster.value[i] == PeerInfo(selected, r.host, r.port) &&
                           forall j :: 0 <= j < i ==> roster.value[j].name != selected)
  {
    if selected == me then SelfChat
    else match roster
      case None => NullRoster
      case Some(ps) =>
        FirstNamedSpec(ps, selected);
        match FirstNamed(ps, selected)
        case None => NotFound
        case Some(p) => Dial(p.host, p.port, selected)
  }

  /** The voice endpoint: address of the peer's host, the peer's chat port + 1, and its name. */
  datatype VoiceInfo = VoiceInfo(host: string, port: int, name: string)

  /**
   * updateVoiceInfo: the first peer with the name gives host and port + 1 (Java int
   * arithmetic). An unknown peer, or a host that `resolves` rejects (the caught
   * UnknownHostException), leaves the endpoint as it was.
   */
  function UpdateVoiceInfo(voice: Option<VoiceInfo>, roster: seq<PeerInfo>, name: string,
                           resolves: string -> bool): (r: Option<VoiceInfo>)
    ensures (forall p :: p in roster ==> p.name != name) ==> r == voice
    ensures r != voice ==>
              exists i :: (0 <= i < |roster| && roster[i].name == name &&
                           (forall j :: 0 <= j < i ==> roster[j].name != name) &&
                           resolves(roster[i].host) &&
                           r == Some(VoiceInfo(roster[i].host, Wrap32(roster[i].port + 1), name)))
  {
    FirstNamedSpec(roster, name);
    match FirstNamed(roster, name)
    case None => voice
    case Some(p) =>
      if resolves(p.host) then Some(VoiceInfo(p.host, Wrap32(p.port + 1), name)) else voice
  }

  /**
   * Whatever the endpoint was, the first peer with the name decides: its host and
   * port + 1 when the host resolves, the old endpoint when it does not.
   */
  lemma FirstMatchSetsVoice(voice: Option<VoiceInfo>, roster: seq<PeerInfo>, i: nat, resolves: string -> bool)
    requires i < |roster| && forall j :: 0 <= j < i ==> roster[j].name != roster[i].name
    ensures UpdateVoiceInfo(voice, roster, roster[i].name, resolves) ==
      if resolves(roster[i].host)
      then Some(VoiceInfo(roster[i].host, Wrap32(roster[i].port + 1), roster[i].name))
      else voice
  {
    FirstMatchIsFirstIndex(roster, roster[i].name);
  }

  /** For a peer on an ordinary port the voice port is exactly one above the chat port. */
  lemma VoicePortIsNext(voice: Option<VoiceInfo>, roster: seq<PeerInfo>, i: nat, resolves: string -> bool)
    requires i < |roster| && forall j :: 0 <= j < i ==> roster[j].name != roster[i].name
    requires resolves(roster[i].host) && 0 <= roster[i].port < IntMax
    ensures UpdateVoiceInfo(voice, roster, roster[i].name, resolves) ==
      Some(VoiceInfo(roster[i].host, roster[i].port + 1, roster[i].name))
  {
    FirstMatchSetsVoice(voice, roster, i, resolves);
  }
}
