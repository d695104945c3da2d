/**
 * getAllUser reads back the roster that sendSessionAccept writes: the names and
 * ports in roster order, with the hosts put through sanitizeIPAddress.
 */
module RosterRoundTrip {
  import opened Wrappers
  import opened JavaText
  import opened Tags
  import opened Peers
  import opened Decode
  import opened DecodeFacts
  import opened DecodeRoundTrips
  import opened Server

  /**
   * A peer whose entry the USERS pattern admits and findPeer reads back: a
   * non-empty name and host without `<`, `>` or line terminators, and a port
   * that Integer.toString writes with digits only and parseInt reads back.
   */
  predicate Listable(p: PeerInfo) {
    |p.name| > 0 && AllIn(p.name, NotAngle) && AllIn(p.name, Dot)
    && |p.host| > 0 && AllIn(p.host, NotAngle) && AllIn(p.host, Dot)
    && 0 <= p.port <= IntMax
  }

  /** The peer as the client rebuilds it from its entry. */
  function Received(p: PeerInfo): PeerInfo {
    PeerInfo(p.name, SanitizeIp(Some(p.host)), p.port)
  }

  function ReceivedAll(ps: seq<PeerInfo>): seq<PeerInfo> {
    if |ps| == 0 then [] else [Received(ps[0])] + ReceivedAll(ps[1..])
  }

  /** getAllUser(sendSessionAccept()) lists the roster's peers in order, hosts sanitized. */
  lemma AllUsersOfRosterText(ps: seq<PeerInfo>)
    requires forall i :: 0 <= i < |ps| ==> Listable(ps[i])
    ensures AllUsers(RosterText(ps)) == Roster(ReceivedAll(ps))
  {
    var s := RosterText(ps);
    var w := EntriesText(ps) + SessionAcceptClose;
    RosterIsUsers(ps);
    Associate(SessionAcceptOpen, EntriesText(ps), SessionAcceptClose);
    SkipEnvelope(s, w);
    assert s[|SessionAcceptOpen|..] == w;
    FindPeersOfEntries(s, |SessionAcceptOpen|, ps);
  }

  /** Every port is read back as it was sent; only the hosts are cleaned. */
  lemma ReceivedKeepsNamesAndPorts(ps: seq<PeerInfo>, i: nat)
    requires i < |ps|
    ensures |ReceivedAll(ps)| == |ps|
    ensures ReceivedAll(ps)[i] == PeerInfo(ps[i].name, SanitizeIp(Some(ps[i].host)), ps[i].port)
  {
    ReceivedAt(ps, i);
  }

  lemma {:induction false} ReceivedAt(ps: seq<PeerInfo>, i: nat)
    requires i < |ps|
    ensures |ReceivedAll(ps)| == |ps| && ReceivedAll(ps)[i] == Received(ps[i])
  {
    if i > 0 {
      ReceivedAt(ps[1..], i - 1);
    } else if |ps| > 1 {
      ReceivedAt(ps[1..], 0);
    }
  }

  /** The SESSION_DENY reply is no roster: getAllUser gives null. */
  lemma AllUsersOfDeny()
    ensures AllUsers(SessionDeny) == NoRoster
  {
  }

  /** An empty roster is read back as an empty list. */
  lemma AllUsersOfEmptyRoster()
    ensures AllUsers(RosterText([])) == Roster([])
  {
    AllUsersOfRosterText([]);
  }

  /* ---------------------------------- the USERS shape ---------------------------------- */

  lemma RosterIsUsers(ps: seq<PeerInfo>)
    requires forall i :: 0 <= i < |ps| ==> Listable(ps[i])
    ensures IsUsers(RosterText(ps))
  {
    WrappedParts(SessionAcceptOpen, EntriesText(ps), SessionAcceptClose);
    EntriesOfText(ps);
  }

  lemma {:induction false} EntriesOfText(ps: seq<PeerInfo>)
    requires forall i :: 0 <= i < |ps| ==> Listable(ps[i])
    ensures Entries(EntriesText(ps))
  {
    if |ps| > 0 {
      var e := EntryText(ps[0]);
      var rest := EntriesText(ps[1..]);
      var w := EntriesText(ps);
      EntryIsEntry(ps[0]);
      EntriesOfText(ps[1..]);
      assert w == e + rest;
      assert w[..|e|] == e && w[|e|..] == rest;
    }
  }

  /** One PEER element is one repetition of the USERS group. */
  lemma EntryIsEntry(p: PeerInfo)
    requires Listable(p)
    ensures IsEntry(EntryText(p))
  {
    var port := IntToString(p.port);
    assert port == DecimalOfNat(p.port);
    EntryParts(p);
    PartsSplit(p.name, p.host, port);
    var i := |EntryOpen| + |p.name|;
    var j := i + |NameToIp| + |p.host|;
    assert EntrySplit(EntryText(p), i, j);
  }

  /** The three fields between the four literals of an entry split it. */
  lemma PartsSplit(name: string, host: string, port: string)
    requires |name| > 0 && AllIn(name, Dot) && |host| > 0 && AllIn(host, Dot)
    requires |port| > 0 && AllIn(port, Digit)
    ensures var i := |EntryOpen| + |name|; var j := i + |NameToIp| + |host|;
            EntrySplit(EntryOpen + name + NameToIp + host + IpToPort + port + EntryClose, i, j)
  {
    var e := EntryOpen + name + NameToIp + host + IpToPort + port + EntryClose;
    assert e[0..|e|] == e;
    Layout7(e, 0, EntryOpen, name, NameToIp, host, IpToPort, port, EntryClose);
    var i := |EntryOpen| + |name|;
    var j := i + |NameToIp| + |host|;
    assert e[..|EntryOpen|] == e[0..|EntryOpen|];
    assert e[|e| - |EntryClose|..] == e[j + |IpToPort| + |port|..j + |IpToPort| + |port| + |EntryClose|];
  }

  /** EntryText regrouped around the fixed literals of the USERS group. */
  lemma EntryParts(p: PeerInfo)
    ensures EntryText(p) == EntryOpen + p.name + NameToIp + p.host + IpToPort + IntToString(p.port) + EntryClose
  {
    Regroup11Pairs(PeerOpen, PeerNameOpen, p.name, PeerNameClose, IpOpen, p.host, IpClose,
      PortOpen, IntToString(p.port), PortClose, PeerClose);
  }

  /* ------------------------------------ the find loop ------------------------------------ */

  /** No entry begins inside the opening SESSION_ACCEPT tag. */
  lemma SkipEnvelope(s: string, w: string)
    requires s == SessionAcceptOpen + w
    ensures FindPeers(s, 0) == FindPeers(s, |SessionAcceptOpen|)
  {
    RosterTagsWellFormed();
    assert StartsWith(EntryOpen, PeerOpen) by {
      assert EntryOpen[..|PeerOpen|] == PeerOpen;
    }
    TagBeforeTagged(SessionAcceptOpen, PeerOpen, EntryOpen);
    NoStartNoOccurrence(SessionAcceptOpen, w, EntryOpen);
    NoEntryBetween(s, 0, |SessionAcceptOpen|);
  }

  /** find skips the positions where no entry begins. */
  lemma NoEntryBetween(s: string, from: nat, to: nat)
    requires from <= to <= |s|
    requires forall k :: from <= k < to ==> !OccursAt(s, EntryOpen, k)
    ensures FindPeers(s, from) == FindPeers(s, to)
  {
    EntryFromSkips(s, from, to);
  }

  /** The entry search started anywhere in a stretch without an entry lands where it ends. */
  lemma {:induction false} EntryFromSkips(s: string, from: nat, to: nat)
    requires from <= to <= |s|
    requires forall k :: from <= k < to ==> !OccursAt(s, EntryOpen, k)
    ensures EntryFrom(s, from) == EntryFrom(s, to)
    decreases |s| - from
  {
    if from < to {
      assert EntryEndAt(s, from) == -1;
      EntryFromSkips(s, from + 1, to);
    }
  }

  /** After the last entry only the closing SESSION_ACCEPT tag is left, and find fails. */
  lemma NoEntryInClose(s: string, from: nat)
    requires from <= |s| && s[from..] == SessionAcceptClose
    ensures FindPeers(s, from) == Some([])
  {
    forall k: nat | from <= k ensures EntryEndAt(s, k) < 0 {
      if k == from {
        assert s[from..][1] == '/' != EntryOpen[1];
        assert k + |EntryOpen| <= |s| ==> s[k..k + |EntryOpen|][1] == '/';
      }
    }
  }

  /** The find loop over the entries from `from` on reads back each peer in turn. */
  lemma {:induction false} FindPeersOfEntries(s: string, from: nat, ps: seq<PeerInfo>)
    requires from <= |s| && s[from..] == EntriesText(ps) + SessionAcceptClose
    requires forall i :: 0 <= i < |ps| ==> Listable(ps[i])
    ensures FindPeers(s, from) == Some(ReceivedAll(ps))
    decreases |ps|
  {
    if |ps| == 0 {
      NoEntryInClose(s, from);
    } else {
      var tail := EntriesText(ps[1..]) + SessionAcceptClose;
      EntriesTail(s, from, ps);
      var next := FindPeersAtEntry(s, from, ps[0], tail);
      FindPeersOfEntries(s, next, ps[1..]);
      FindPeersCons(s, from, next, ps);
    }
  }

  /** The text after the first entry holds the other entries. */
  lemma EntriesTail(s: string, from: nat, ps: seq<PeerInfo>)
    requires |ps| > 0
    requires from <= |s| && s[from..] == EntriesText(ps) + SessionAcceptClose
    ensures s[from..] == EntryText(ps[0]) + (EntriesText(ps[1..]) + SessionAcceptClose)
  {
    Associate(EntryText(ps[0]), EntriesText(ps[1..]), SessionAcceptClose);
  }

  /** Reading back the first peer in front of the others. */
  lemma FindPeersCons(s: string, from: nat, next: nat, ps: seq<PeerInfo>)
    requires |ps| > 0 && next <= |s|
    requires FindPeers(s, from) == Prepend([Received(ps[0])], FindPeers(s, next))
    requires FindPeers(s, next) == Some(ReceivedAll(ps[1..]))
    ensures FindPeers(s, from) == Some(ReceivedAll(ps))
  {
  }

  /** One turn of the find loop at a PEER element. */
  lemma FindPeersAtEntry(s: string, from: nat, p: PeerInfo, tail: string) returns (next: nat)
    requires Listable(p) && from <= |s| && s[from..] == EntryText(p) + tail
    ensures next == from + |EntryText(p)| <= |s| && s[next..] == tail
    ensures FindPeers(s, from) == Prepend([Received(p)], FindPeers(s, next))
  {
    next := from + |EntryText(p)|;
    var e := EntryText(p);
    SuffixSplit(s, from, e, tail);
    EntryEndAtText(s, from, p);
    assert EntryFrom(s, from) == from;
    PeerOfEntryText(p);
    FindPeersStep(s, from);
  }

  /** findPeer's match at the start of a PEER element ends with it. */
  lemma EntryEndAtText(s: string, from: nat, p: PeerInfo)
    requires Listable(p)
    requires from + |EntryText(p)| <= |s| && s[from..from + |EntryText(p)|] == EntryText(p)
    ensures EntryEndAt(s, from) == from + |EntryText(p)|
  {
    EntryParts(p);
    EntryEndAtLayout(s, from, p.name, p.host, IntToString(p.port));
  }

  /** The same, for the seven pieces of a PEER element. */
  lemma EntryEndAtLayout(s: string, from: nat, name: string, host: string, port: string)
    requires AllIn(name, NotAngle) && AllIn(host, NotAngle) && AllIn(port, Digit)
    requires var t := EntryOpen + name + NameToIp + host + IpToPort + port + EntryClose;
      from + |t| <= |s| && s[from..from + |t|] == t
    ensures EntryEndAt(s, from) == from + |EntryOpen| + |name| + |NameToIp| + |host| + |IpToPort| + |port| + |EntryClose|
  {
    Layout7(s, from, EntryOpen, name, NameToIp, host, IpToPort, port, EntryClose);
    var a := from + |EntryOpen|;
    var j1 := a + |name|;
    var b := j1 + |NameToIp|;
    var j2 := b + |host|;
    var c := j2 + |IpToPort|;
    var j3 := c + |port|;
    FieldRun(s, a, j1, name, NotAngle, NameToIp);
    FieldRun(s, b, j2, host, NotAngle, IpToPort);
    FieldRun(s, c, j3, port, Digit, EntryClose);
    EntryEndAtRuns(s, from, j1, j2, j3);
  }

  /** findPeer's match, given where each of its runs ends. */
  lemma EntryEndAtRuns(s: string, from: nat, j1: nat, j2: nat, j3: nat)
    requires OccursAt(s, EntryOpen, from)
    requires RunEnd(s, from + |EntryOpen|, NotAngle) == j1 && OccursAt(s, NameToIp, j1)
    requires RunEnd(s, j1 + |NameToIp|, NotAngle) == j2 && OccursAt(s, IpToPort, j2)
    requires RunEnd(s, j2 + |IpToPort|, Digit) == j3 && OccursAt(s, EntryClose, j3)
    ensures EntryEndAt(s, from) == j3 + |EntryClose|
  {
    ChainRuns(s, from, EntryOpen, NameToIp, IpToPort, EntryClose, j1, j2, j3);
  }

  /** The chain ends after `c` when each run stops right at the next literal. */
  lemma ChainRuns(s: string, from: nat, o: string, m1: string, m2: string, c: string, j1: nat, j2: nat, j3: nat)
    requires OccursAt(s, o, from)
    requires RunEnd(s, from + |o|, NotAngle) == j1 && OccursAt(s, m1, j1)
    requires RunEnd(s, j1 + |m1|, NotAngle) == j2 && OccursAt(s, m2, j2)
    requires RunEnd(s, j2 + |m2|, Digit) == j3 && OccursAt(s, c, j3)
    ensures ChainEnd(s, from, o, m1, m2, c) == j3 + |c|
  {
    assert AfterHost(s, j2, m2, c) == j3 + |c|;
    assert AfterName(s, j1, m1, m2, c) == j3 + |c|;
  }

  /** A field of class `k` followed by a literal that starts with `<` is a whole run of `k`. */
  lemma FieldRun(s: string, a: nat, j: nat, v: string, k: CharClass, t: string)
    requires a <= j <= |s| && s[a..j] == v && AllIn(v, k) && k != Dot
    requires OccursAt(s, t, j) && |t| > 0 && t[0] == '<'
    ensures RunEnd(s, a, k) == j
  {
    assert s[j] == s[j..j + |t|][0];
    RunEndExact(s, a, j, k);
  }

  /* --------------------------------- one entry's fields --------------------------------- */

  /** The Peer built from one PEER element. */
  lemma PeerOfEntryText(p: PeerInfo)
    requires Listable(p)
    ensures PeerOfEntry(EntryText(p)) == Some(Received(p))
  {
    var port := IntToString(p.port);
    SessionTagsWellFormed();
    RosterTagsWellFormed();
    NameOfEntry(p);
    HostOfEntry(p);
    PortOfEntry(p);
    FreeText(p.name, PeerNameClose);
    NoStartNotContains(p.name, PeerNameClose);
    ExtractLone(PeerNameOpen, p.name, PeerNameClose);
    FreeText(p.host, IpClose);
    NoStartNotContains(p.host, IpClose);
    ExtractLone(IpOpen, p.host, IpClose);
    DigitsNotAngle(port);
    FreeText(port, PortClose);
    NoStartNotContains(port, PortClose);
    ExtractLone(PortOpen, port, PortClose);
    ParseIntToString(p.port);
  }

  /** The pieces every PEER element is made of hold no start of the field tags. */
  lemma EntryPiecesFree(p: PeerInfo, t: string)
    requires Listable(p) && |t| > 0 && t[0] == '<'
    ensures NoStart(p.name, t) && NoStart(p.host, t) && NoStart(IntToString(p.port), t)
  {
    FreeText(p.name, t);
    FreeText(p.host, t);
    DigitsNotAngle(IntToString(p.port));
    FreeText(IntToString(p.port), t);
  }

  lemma NameOfEntry(p: PeerInfo)
    requires Listable(p)
    ensures FindGroup(EntryText(p), FindName) == Some(PeerNameOpen + p.name + PeerNameClose)
  {
    var port := IntToString(p.port);
    var rest := IpOpen + p.host + IpClose + PortOpen + port + PortClose + PeerClose;
    SessionTagsWellFormed();
    RosterTagsWellFormed();
    Regroup11Name(PeerOpen, PeerNameOpen, p.name, PeerNameClose, IpOpen, p.host, IpClose,
      PortOpen, port, PortClose, PeerClose);
    DistinctTags(PeerOpen, PeerNameOpen);
    EntryPiecesFree(p, PeerNameClose);
    DistinctTags(IpOpen, PeerNameClose);
    DistinctTags(IpClose, PeerNameClose);
    DistinctTags(PortOpen, PeerNameClose);
    DistinctTags(PortClose, PeerNameClose);
    DistinctTags(PeerClose, PeerNameClose);
    NoStartSeven(IpOpen, p.host, IpClose, PortOpen, port, PortClose, PeerClose, PeerNameClose);
    TagTail(PeerNameClose, PeerNameClose);
    NoStartConcat(PeerNameClose[1..], rest, PeerNameClose);
    FindField(EntryText(p), PeerOpen, FindName, p.name, rest);
  }

  lemma HostOfEntry(p: PeerInfo)
    requires Listable(p)
    ensures FindGroup(EntryText(p), FindIp) == Some(IpOpen + p.host + IpClose)
  {
    var port := IntToString(p.port);
    var h := PeerOpen + PeerNameOpen + p.name + PeerNameClose;
    var rest := PortOpen + port + PortClose + PeerClose;
    SessionTagsWellFormed();
    RosterTagsWellFormed();
    Regroup11Host(PeerOpen, PeerNameOpen, p.name, PeerNameClose, IpOpen, p.host, IpClose,
      PortOpen, port, PortClose, PeerClose);
    EntryPiecesFree(p, IpOpen);
    DistinctTags(PeerOpen, IpOpen);
    DistinctTags(PeerNameOpen, IpOpen);
    DistinctTags(PeerNameClose, IpOpen);
    NoStartFour(PeerOpen, PeerNameOpen, p.name, PeerNameClose, IpOpen);
    EntryPiecesFree(p, IpClose);
    DistinctTags(PortOpen, IpClose);
    DistinctTags(PortClose, IpClose);
    DistinctTags(PeerClose, IpClose);
    NoStartFour(PortOpen, port, PortClose, PeerClose, IpClose);
    TagTail(IpClose, IpClose);
    NoStartConcat(IpClose[1..], rest, IpClose);
    FindField(EntryText(p), h, FindIp, p.host, rest);
  }

  lemma PortOfEntry(p: PeerInfo)
    requires Listable(p)
    ensures FindGroup(EntryText(p), FindPort) == Some(PortOpen + IntToString(p.port) + PortClose)
  {
    var port := IntToString(p.port);
    var h := PeerOpen + PeerNameOpen + p.name + PeerNameClose + IpOpen + p.host + IpClose;
    SessionTagsWellFormed();
    RosterTagsWellFormed();
    EntryPiecesFree(p, PortOpen);
    DistinctTags(PeerOpen, PortOpen);
    DistinctTags(PeerNameOpen, PortOpen);
    DistinctTags(PeerNameClose, PortOpen);
    DistinctTags(IpOpen, PortOpen);
    DistinctTags(IpClose, PortOpen);
    NoStartSeven(PeerOpen, PeerNameOpen, p.name, PeerNameClose, IpOpen, p.host, IpClose, PortOpen);
    FindField(EntryText(p), h, FindPort, port, PeerClose);
  }

  /* ----------------------------------- generic helpers ----------------------------------- */

  lemma NoStartSeven(a: string, b: string, c: string, d: string, e: string, f: string, g: string, t: string)
    requires NoStart(a, t) && NoStart(b, t) && NoStart(c, t) && NoStart(d, t)
    requires NoStart(e, t) && NoStart(f, t) && NoStart(g, t)
    ensures NoStart(a + b + c + d + e + f + g, t)
  {
    NoStartFour(a, b, c, d, t);
    NoStartConcat(a + b + c + d, e, t);
    NoStartConcat(a + b + c + d + e, f, t);
    NoStartConcat(a + b + c + d + e + f, g, t);
  }

  lemma Regroup11Name(a: string, b: string, c: string, d: string, e: string, f: string,
                      g: string, h: string, i: string, j: string, k: string)
    ensures a + b + c + d + e + f + g + h + i + j + k == a + b + c + d + (e + f + g + h + i + j + k)
  {
  }

  lemma Regroup11Host(a: string, b: string, c: string, d: string, e: string, f: string,
                      g: string, h: string, i: string, j: string, k: string)
    ensures a + b + c + d + e + f + g + h + i + j + k == (a + b + c + d) + e + f + g + (h + i + j + k)
  {
  }

  lemma Regroup11Pairs(a: string, b: string, c: string, d: string, e: string, f: string,
                       g: string, h: string, i: string, j: string, k: string)
    ensures a + b + c + d + e + f + g + h + i + j + k == (a + b) + c + (d + e) + f + (g + h) + i + (j + k)
  {
  }

  /** The front and the rest of a suffix. */
  lemma SuffixSplit(s: string, from: nat, a: string, b: string)
    requires from <= |s| && s[from..] == a + b
    ensures from + |a| <= |s| && s[from..from + |a|] == a && s[from + |a|..] == b
  {
    assert s[from..][..|a|] == a;
    assert s[from..][|a|..] == b;
  }

  /** Where the seven pieces of a text that occurs at `from` sit in `s`. */
  lemma Layout7(s: string, from: nat, a: string, x: string, b: string, y: string, c: string, z: string, d: string)
    requires var t := a + x + b + y + c + z + d; from + |t| <= |s| && s[from..from + |t|] == t
    ensures var i1 := from + |a|; var j1 := i1 + |x|; var i2 := j1 + |b|;
      var j2 := i2 + |y|; var i3 := j2 + |c|; var j3 := i3 + |z|;
      OccursAt(s, a, from) && s[i1..j1] == x && OccursAt(s, b, j1) && s[i2..j2] == y
      && OccursAt(s, c, j2) && s[i3..j3] == z && OccursAt(s, d, j3) && j3 + |d| == from + |a + x + b + y + c + z + d|
  {
    Peel(s, from, a + x + b + y + c + z, d);
    Peel(s, from, a + x + b + y + c, z);
    Peel(s, from, a + x + b + y, c);
    Peel(s, from, a + x + b, y);
    Peel(s, from, a + x, b);
    Peel(s, from, a, x);
  }

  /** A text `u + v` at `from`: `u` at `from` and `v` right after it. */
  lemma Peel(s: string, from: nat, u: string, v: string)
    requires from + |u + v| <= |s| && s[from..from + |u + v|] == u + v
    ensures s[from..from + |u|] == u && s[from + |u|..from + |u| + |v|] == v
  {
    assert s[from..from + |u|] == (u + v)[..|u|];
    assert s[from + |u|..from + |u| + |v|] == (u + v)[|u|..];
  }
}
