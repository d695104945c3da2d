/** What the decoders give back on what the builders produce. */
module DecodeRoundTrips {
  import opened Wrappers
  import opened JavaText
  import opened Tags
  import opened Encode
  import opened Decode
  import opened Peers
  import opened DecodeFacts

  /** `open + m + close` is wrapped by its two tags, with `m` in between. */
  lemma WrappedParts(open: string, m: string, close: string)
    ensures var s := open + m + close;
      |open| + |close| <= |s| && StartsWith(s, open) && EndsWith(s, close) && Between(s, open, close) == m
  {
    var s := open + m + close;
    assert s[..|open|] == open;
    assert s[|s| - |close|..] == close;
    assert s[|open|..|s| - |close|] == m;
  }

  /**
   * extractContent of an element that follows `x`, when no `open` and no `close`
   * can begin before the element and its content holds no closing tag.
   */
  lemma ExtractTagged(x: string, open: string, m: string, close: string, y: string)
    requires IsTag(close) && |open| > 0 && NoStart(x, open) && NoStart(x + open, close)
    requires !Contains(m, close)
    ensures ExtractContent(x + open + m + close + y, open, close) == Some(m)
  {
    var s := x + open + m + close + y;
    ContentSlice(x, open, m, close, y);
    FirstCloseAfter(x + open, m, close, y);
    FirstOfFive(x, open, m, close, y);
    ExtractAt(s, open, close, |x|, |x| + |open| + |m|);
  }

  /** extractContent of a lone element whose content holds no closing tag. */
  lemma ExtractLone(open: string, m: string, close: string)
    requires IsTag(open) && IsTag(close) && open != close && !Contains(m, close)
    ensures ExtractContent(open + m + close, open, close) == Some(m)
  {
    var s := open + m + close;
    DistinctTags(open, close);
    assert s + [] == s;
    assert IndexOf(s, close) == |open| + |m| by {
      FirstCloseAfter(open, m, close, []);
    }
    assert s[..|open|] == open;
    IndexOfIsFirst(s, open, 0);
    assert s[|open|..|open| + |m|] == m;
    ExtractAt(s, open, close, 0, |open| + |m|);
  }

  /**
   * getMessage gives back the text sendMessage wrapped exactly when that text has
   * no line terminator and no closing chat tag; it refuses the message only for
   * line terminators, and otherwise cuts the text at the first closing chat tag.
   */
  lemma GetMessageOfChatText(m: string)
    ensures GetMessage(ChatText(m)) == Some(m) <==> AllIn(m, Dot) && !Contains(m, ChatMsgClose)
    ensures GetMessage(ChatText(m)).None? <==> !AllIn(m, Dot)
  {
    var s := ChatText(m);
    WrappedParts(ChatMsgOpen, m, ChatMsgClose);
    if AllIn(m, Dot) && !Contains(m, ChatMsgClose) {
      RosterTagsWellFormed();
      ExtractLone(ChatMsgOpen, m, ChatMsgClose);
    }
  }

  /** Regrouping the eight pieces of a message around its middle. */
  lemma Regroup(a: string, b: string, c: string, d: string, e: string, f: string, g: string, h: string)
    ensures a + b + c + d + e + f + g + h == (a + b) + (c + d + e + f) + (g + h)
    ensures a + b + c + d + e + f + g + h == a + b + c + d + (e + f + g + h)
    ensures a + b + c + d + e + f + g + h == (a + b + c + d) + e + (f + g + h)
    ensures a + b + c + d + e + f + g + h == (a + b) + c + (d + e + f + g + h)
    ensures a + b + c + d + e + f + g + h == (a + b + c + d) + (e + f + g) + h
  {
  }

  /** No `t` can begin in a text made of four pieces that each admit none. */
  lemma NoStartFour(a: string, b: string, c: string, d: string, t: string)
    requires NoStart(a, t) && NoStart(b, t) && NoStart(c, t) && NoStart(d, t)
    ensures NoStart(a + b + c + d, t)
  {
    NoStartConcat(a, b, t);
    NoStartConcat(a + b, c, t);
    NoStartConcat(a + b + c, d, t);
  }

  /**
   * getEditPayload on what sendEdit builds: both texts come back when neither
   * holds a line terminator, and the message is refused otherwise. The old text
   * must be free of angle brackets and the new one of the closing NEW tag, as
   * extractContent stops at the first closing tag.
   */
  lemma GetEditOfSendEdit(o: string, n: string)
    requires AllIn(o, NotAngle) && !Contains(n, EditNewClose)
    ensures GetEditPayload(SendEdit(o, n))
      == if AllIn(o, Dot) && AllIn(n, Dot) then Some(EditPayload(o, n)) else None
  {
    EditShape(o, n);
    if AllIn(o, Dot) && AllIn(n, Dot) {
      EditOldText(o, n);
      EditNewText(o, n);
    }
  }

  /** sendEdit's output has the EDIT shape exactly when neither text holds a line terminator. */
  lemma EditShape(o: string, n: string)
    ensures IsEdit(SendEdit(o, n)) <==> AllIn(o, Dot) && AllIn(n, Dot)
  {
    var s := SendEdit(o, n);
    EditTagsWellFormed();
    var body := o + EditOldClose + EditNewOpen + n;
    Regroup(ChatEditOpen, EditOldOpen, o, EditOldClose, EditNewOpen, n, EditNewClose, ChatEditClose);
    assert s == (ChatEditOpen + EditOldOpen) + body + (EditNewClose + ChatEditClose);
    WrappedParts(ChatEditOpen + EditOldOpen, body, EditNewClose + ChatEditClose);
    assert AllIn(body, Dot) <==> AllIn(o, Dot) && AllIn(n, Dot) by {
      TagShape(EditOldClose);
      TagShape(EditNewOpen);
      AllInConcat(o, EditOldClose, Dot);
      AllInConcat(o + EditOldClose, EditNewOpen, Dot);
      AllInConcat(o + EditOldClose + EditNewOpen, n, Dot);
    }
    assert OccursAt(body, EditOldClose + EditNewOpen, |o|) by {
      assert body[|o|..|o| + |EditOldClose + EditNewOpen|] == EditOldClose + EditNewOpen;
    }
  }

  /** The OLD element of sendEdit's output holds the old text, when that has no angle bracket. */
  lemma EditOldText(o: string, n: string)
    requires AllIn(o, NotAngle)
    ensures ExtractContent(SendEdit(o, n), EditOldOpen, EditOldClose) == Some(o)
  {
    EditTagsWellFormed();
    Regroup(ChatEditOpen, EditOldOpen, o, EditOldClose, EditNewOpen, n, EditNewClose, ChatEditClose);
    DistinctTags(ChatEditOpen, EditOldOpen);
    DistinctTags(ChatEditOpen, EditOldClose);
    DistinctTags(EditOldOpen, EditOldClose);
    NoStartConcat(ChatEditOpen, EditOldOpen, EditOldClose);
    FreeText(o, EditOldClose);
    NoStartNotContains(o, EditOldClose);
    ExtractTagged(ChatEditOpen, EditOldOpen, o, EditOldClose, EditNewOpen + n + EditNewClose + ChatEditClose);
  }

  /** The NEW element of sendEdit's output holds the new text, when that has no closing NEW tag. */
  lemma EditNewText(o: string, n: string)
    requires AllIn(o, NotAngle) && !Contains(n, EditNewClose)
    ensures ExtractContent(SendEdit(o, n), EditNewOpen, EditNewClose) == Some(n)
  {
    var x := ChatEditOpen + EditOldOpen + o + EditOldClose;
    EditTagsWellFormed();
    DistinctTags(ChatEditOpen, EditNewOpen);
    DistinctTags(EditOldOpen, EditNewOpen);
    DistinctTags(EditOldClose, EditNewOpen);
    FreeText(o, EditNewOpen);
    NoStartFour(ChatEditOpen, EditOldOpen, o, EditOldClose, EditNewOpen);
    DistinctTags(ChatEditOpen, EditNewClose);
    DistinctTags(EditOldOpen, EditNewClose);
    DistinctTags(EditOldClose, EditNewClose);
    DistinctTags(EditNewOpen, EditNewClose);
    FreeText(o, EditNewClose);
    NoStartFour(ChatEditOpen, EditOldOpen, o, EditOldClose, EditNewClose);
    NoStartConcat(x, EditNewOpen, EditNewClose);
    ExtractTagged(x, EditNewOpen, n, EditNewClose, ChatEditClose);
  }

  /* ------------------------------- registrations ------------------------------- */

  /**
   * getUser on what getCreateAccount builds, for a name and a port text without
   * angle brackets: the two come back, in order, exactly when the name has no
   * line terminator and the port text is all digits.
   */
  lemma GetUserOfCreateAccount(n: string, p: string)
    requires AllIn(n, NotAngle) && AllIn(p, NotAngle)
    ensures GetUser(CreateAccount(n, p)) == if AllIn(n, Dot) && AllIn(p, Digit) then Some([n, p]) else None
  {
    CreateAccountShape(n, p);
    if AllIn(n, Dot) && AllIn(p, Dot) {
      SessionTagsWellFormed();
      UserNameField(n, p);
      FreeText(n, PeerNameClose);
      NoStartNotContains(n, PeerNameClose);
      ExtractLone(PeerNameOpen, n, PeerNameClose);
      if AllIn(p, Digit) {
        UserPortField(n, p);
        FreeText(p, PortClose);
        NoStartNotContains(p, PortClose);
        ExtractLone(PortOpen, p, PortClose);
      } else {
        UserPortMissing(n, p);
      }
    }
  }

  /** getCreateAccount's output has the CREATE_ACCOUNT shape exactly when neither field holds a line terminator. */
  lemma CreateAccountShape(n: string, p: string)
    ensures IsCreateAccount(CreateAccount(n, p)) <==> AllIn(n, Dot) && AllIn(p, Dot)
  {
    var s := CreateAccount(n, p);
    SessionTagsWellFormed();
    var body := n + PeerNameClose + PortOpen + p;
    Regroup(SessionOpen, PeerNameOpen, n, PeerNameClose, PortOpen, p, PortClose, SessionClose);
    assert s == (SessionOpen + PeerNameOpen) + body + (PortClose + SessionClose);
    WrappedParts(SessionOpen + PeerNameOpen, body, PortClose + SessionClose);
    assert AllIn(body, Dot) <==> AllIn(n, Dot) && AllIn(p, Dot) by {
      TagShape(PeerNameClose);
      TagShape(PortOpen);
      AllInConcat(n, PeerNameClose, Dot);
      AllInConcat(n + PeerNameClose, PortOpen, Dot);
      AllInConcat(n + PeerNameClose + PortOpen, p, Dot);
    }
    assert OccursAt(body, PeerNameClose + PortOpen, |n|) by {
      assert body[|n|..|n| + |PeerNameClose + PortOpen|] == PeerNameClose + PortOpen;
    }
  }

  /** findName's first match in a registration is the PEER_NAME element. */
  lemma UserNameField(n: string, p: string)
    requires AllIn(n, Dot) && AllIn(p, NotAngle)
    ensures FindGroup(CreateAccount(n, p), FindName) == Some(PeerNameOpen + n + PeerNameClose)
  {
    var rest := PortOpen + p + PortClose + SessionClose;
    SessionTagsWellFormed();
    Regroup(SessionOpen, PeerNameOpen, n, PeerNameClose, PortOpen, p, PortClose, SessionClose);
    DistinctTags(SessionOpen, PeerNameOpen);
    TagTail(PeerNameClose, PeerNameClose);
    DistinctTags(PortOpen, PeerNameClose);
    FreeText(p, PeerNameClose);
    DistinctTags(PortClose, PeerNameClose);
    DistinctTags(SessionClose, PeerNameClose);
    NoStartFour(PortOpen, p, PortClose, SessionClose, PeerNameClose);
    NoStartConcat(PeerNameClose[1..], rest, PeerNameClose);
    FindField(CreateAccount(n, p), SessionOpen, FindName, n, rest);
  }

  /** findPort's first match in a registration with a digits-only port is the PORT element. */
  lemma UserPortField(n: string, p: string)
    requires AllIn(n, NotAngle) && AllIn(p, Digit)
    ensures FindGroup(CreateAccount(n, p), FindPort) == Some(PortOpen + p + PortClose)
  {
    SessionTagsWellFormed();
    DistinctTags(SessionOpen, PortOpen);
    DistinctTags(PeerNameOpen, PortOpen);
    FreeText(n, PortOpen);
    DistinctTags(PeerNameClose, PortOpen);
    NoStartFour(SessionOpen, PeerNameOpen, n, PeerNameClose, PortOpen);
    FindField(CreateAccount(n, p), SessionOpen + PeerNameOpen + n + PeerNameClose, FindPort, p, SessionClose);
  }

  /** findPort finds nothing in a registration whose port text holds a non-digit. */
  lemma UserPortMissing(n: string, p: string)
    requires AllIn(n, NotAngle) && AllIn(p, NotAngle) && !AllIn(p, Digit)
    ensures FindGroup(CreateAccount(n, p), FindPort).None?
  {
    var s := CreateAccount(n, p);
    var i := |SessionOpen + PeerNameOpen + n + PeerNameClose|;
    PortOccursOnce(n, p);
    assert s[i + |PortOpen|..i + |PortOpen| + |p|] == p;
    SessionTagsWellFormed();
    NoMatchInFreeText(s, FindPort, i, p);
    NoFieldMatch(s, FindPort, i);
  }

  /** A registration whose fields have no angle brackets holds one PORT opening tag. */
  lemma PortOccursOnce(n: string, p: string)
    requires AllIn(n, NotAngle) && AllIn(p, NotAngle)
    ensures var i := |SessionOpen + PeerNameOpen + n + PeerNameClose|;
      forall q :: OccursAt(CreateAccount(n, p), PortOpen, q) <==> q == i
  {
    var x := SessionOpen + PeerNameOpen + n + PeerNameClose;
    var y := p + PortClose + SessionClose;
    Regroup(SessionOpen, PeerNameOpen, n, PeerNameClose, PortOpen, p, PortClose, SessionClose);
    assert CreateAccount(n, p) == x + PortOpen + y;
    PortAround(n, p);
    OnlyOccurrence(x, PortOpen, y);
  }

  /** Neither the text before a registration's PORT tag nor the text after its `<` can hold another. */
  lemma PortAround(n: string, p: string)
    requires AllIn(n, NotAngle) && AllIn(p, NotAngle)
    ensures NoStart(SessionOpen + PeerNameOpen + n + PeerNameClose, PortOpen)
    ensures NoStart(PortOpen[1..] + (p + PortClose + SessionClose), PortOpen)
  {
    SessionTagsWellFormed();
    DistinctTags(SessionOpen, PortOpen);
    DistinctTags(PeerNameOpen, PortOpen);
    FreeText(n, PortOpen);
    DistinctTags(PeerNameClose, PortOpen);
    NoStartFour(SessionOpen, PeerNameOpen, n, PeerNameClose, PortOpen);
    TagTail(PortOpen, PortOpen);
    FreeText(p, PortOpen);
    DistinctTags(PortClose, PortOpen);
    DistinctTags(SessionClose, PortOpen);
    NoStartConcat(p, PortClose, PortOpen);
    NoStartConcat(p + PortClose, SessionClose, PortOpen);
    NoStartConcat(PortOpen[1..], p + PortClose + SessionClose, PortOpen);
  }

  /**
   * No match begins at `i` when the text after `open` starts with a free text
   * that leaves the character class: the run stops inside it, where no `<` is.
   */
  lemma NoMatchInFreeText(s: string, pat: FieldPattern, i: nat, v: string)
    requires OccursAt(s, pat.open, i) && |pat.close| > 0 && pat.close[0] == '<'
    requires i + |pat.open| + |v| <= |s| && s[i + |pat.open|..i + |pat.open| + |v|] == v
    requires AllIn(v, NotAngle) && !AllIn(v, pat.chars)
    ensures MatchEndAt(s, pat, i) == -1
  {
    var a := i + |pat.open|;
    var hi := RunEnd(s, a, pat.chars);
    var d :| 0 <= d < |v| && !InClass(v[d], pat.chars);
    CharOfSlice(s, a, v, d);
    RunStops(s, a, a + d, pat.chars);
    forall q | a <= q <= hi ensures !OccursAt(s, pat.close, q) {
      CharOfSlice(s, a, v, q - a);
      assert InClass(v[q - a], NotAngle);
    }
    NoCloseInRun(s, pat, i);
  }

  lemma CharOfSlice(s: string, a: nat, v: string, k: nat)
    requires a + |v| <= |s| && s[a..a + |v|] == v && k < |v|
    ensures s[a + k] == v[k]
  {
    assert s[a..a + |v|][k] == s[a + k];
  }

  /** No match begins at `i` when no closing literal begins within the run after `open`. */
  lemma NoCloseInRun(s: string, pat: FieldPattern, i: nat)
    requires i + |pat.open| <= |s|
    requires var a := i + |pat.open|;
      forall q :: a <= q <= RunEnd(s, a, pat.chars) ==> !OccursAt(s, pat.close, q)
    ensures MatchEndAt(s, pat, i) == -1
  {
    var e := MatchEndAt(s, pat, i);
    if e != -1 {
      assert false;
    }
  }

  /** find fails when `open` occurs only at `i` and no match begins there. */
  lemma NoFieldMatch(s: string, pat: FieldPattern, i: nat)
    requires forall q :: OccursAt(s, pat.open, q) <==> q == i
    requires MatchEndAt(s, pat, i) == -1
    ensures FindGroup(s, pat).None?
  {
    assert FindFrom(s, pat, 0) == -1;
  }

  /* ------------------------------- chat requests ------------------------------- */

  /**
   * getNameRequestChat on what sendRequestChat builds: the name comes back
   * exactly when it holds no angle bracket, and the request is refused otherwise.
   */
  lemma GetNameOfSendRequestChat(n: string)
    ensures GetNameRequestChat(SendRequestChat(n)) == if AllIn(n, NotAngle) then Some(n) else None
  {
    var s := SendRequestChat(n);
    assert s == ChatRequestHead + n + ChatRequestTail;
    WrappedParts(ChatRequestHead, n, ChatRequestTail);
    if AllIn(n, NotAngle) {
      ChatRequestName(n);
    }
  }

  /** The name element of a chat request, when the name holds no angle bracket. */
  lemma ChatRequestName(n: string)
    requires AllIn(n, NotAngle)
    ensures ExtractContent(ChatRequestHead + n + ChatRequestTail, ChatRequestHead, ChatRequestTail) == Some(n)
  {
    SessionTagsWellFormed();
    RosterTagsWellFormed();
    assert StartsWith(ChatRequestTail, PeerNameClose) by {
      assert ChatRequestTail[..|PeerNameClose|] == PeerNameClose;
    }
    TagBeforeTagged(ChatReqOpen, PeerNameClose, ChatRequestTail);
    TagBeforeTagged(PeerNameOpen, PeerNameClose, ChatRequestTail);
    FreeText(n, ChatRequestTail);
    NoStartConcat(ChatReqOpen, PeerNameOpen, ChatRequestTail);
    ExtractGroup(ChatRequestHead, n, ChatRequestTail);
  }

  /* -------------------------------- keep-alives -------------------------------- */

  /** The name of a keep-alive sits between the REQUEST pattern's head and tail. */
  lemma KeepAliveLayout(n: string, w: string)
    ensures KeepAlive(n, w) == RequestHead + n + RequestTail(w)
    ensures KeepAlive(n, w) == KeepAliveOpen + PeerNameOpen + n + PeerNameClose + (StatusOpen + w + StatusClose + KeepAliveClose)
    ensures KeepAlive(n, w) == (KeepAliveOpen + PeerNameOpen + n + PeerNameClose) + StatusOpen + (w + StatusClose + KeepAliveClose)
  {
    Regroup(KeepAliveOpen, PeerNameOpen, n, PeerNameClose, StatusOpen, w, StatusClose, KeepAliveClose);
  }

  /** No text ends with both the RUNNING and the STOP tail: they differ in the last letter of the word. */
  lemma TailsDiffer(s: string)
    ensures !(EndsWith(s, RequestTail(ServerOnline)) && EndsWith(s, RequestTail(ServerOffline)))
  {
    var a, b := RequestTail(ServerOnline), RequestTail(ServerOffline);
    assert |a| == 57 && |b| == 54;
    assert a[26] == 'G' && b[23] == 'P';
    assert EndsWith(s, a) ==> s[|s| - 31] == a[26];
    assert EndsWith(s, b) ==> s[|s| - 31] == b[23];
  }

  /** A STOP keep-alive has the REQUEST shape exactly when its name is non-empty and free of angle brackets. */
  lemma ExitShape(n: string)
    ensures IsKeepAlive(Exit(n)) <==> |n| > 0 && AllIn(n, NotAngle)
  {
    KeepAliveStatusOnly(n);
    KeepAliveLayout(n, ServerOffline);
    WrappedParts(RequestHead, n, RequestTail(ServerOffline));
    TailsDiffer(Exit(n));
  }

  /** A STOP keep-alive whose name has no angle bracket does not hold the RUNNING status. */
  lemma ExitNotAlive(n: string)
    requires AllIn(n, NotAngle)
    ensures !Contains(Exit(n), AliveMarker)
  {
    var s := Exit(n);
    var x := KeepAliveOpen + PeerNameOpen + n + PeerNameClose;
    var z := ServerOffline + StatusClose + KeepAliveClose;
    KeepAliveStatusOnly(n);
    KeepAliveLayout(n, ServerOffline);
    StatusAround(n);
    OnlyOccurrence(x, StatusOpen, z);
    assert s == x + StatusOpen + z;
    assert s[|x| + 8] == z[0] == 'S';
    forall q | 0 <= q <= |s| - |AliveMarker| ensures !OccursAt(s, AliveMarker, q) {
      AliveAtStatus(s, q);
    }
  }

  /** The RUNNING marker begins with a STATUS tag followed by `R`. */
  lemma AliveAtStatus(s: string, q: int)
    ensures OccursAt(s, AliveMarker, q) ==> OccursAt(s, StatusOpen, q) && s[q + 8] == 'R'
  {
    if OccursAt(s, AliveMarker, q) {
      assert s[q..q + |StatusOpen|] == s[q..q + |AliveMarker|][..|StatusOpen|];
      assert s[q + 8] == AliveMarker[8];
    }
  }

  /** Only one STATUS opening tag in a STOP keep-alive whose name has no angle bracket. */
  lemma StatusAround(n: string)
    requires AllIn(n, NotAngle)
    ensures NoStart(KeepAliveOpen + PeerNameOpen + n + PeerNameClose, StatusOpen)
    ensures NoStart(StatusOpen[1..] + (ServerOffline + StatusClose + KeepAliveClose), StatusOpen)
  {
    SessionTagsWellFormed();
    StatusWordsDistinct();
    DistinctTags(KeepAliveOpen, StatusOpen);
    DistinctTags(PeerNameOpen, StatusOpen);
    FreeText(n, StatusOpen);
    DistinctTags(PeerNameClose, StatusOpen);
    NoStartFour(KeepAliveOpen, PeerNameOpen, n, PeerNameClose, StatusOpen);
    TagTail(StatusOpen, StatusOpen);
    FreeText(ServerOffline, StatusOpen);
    DistinctTags(StatusClose, StatusOpen);
    DistinctTags(KeepAliveClose, StatusOpen);
    NoStartConcat(ServerOffline, StatusClose, StatusOpen);
    NoStartConcat(ServerOffline + StatusClose, KeepAliveClose, StatusOpen);
    NoStartConcat(StatusOpen[1..], ServerOffline + StatusClose + KeepAliveClose, StatusOpen);
  }

  /** killUser's first match in a keep-alive is its PEER_NAME element. */
  lemma KeepAliveNameField(n: string, w: string)
    requires AllIn(n, NotAngle)
    ensures FindGroup(KeepAlive(n, w), KillUser) == Some(PeerNameOpen + n + PeerNameClose)
  {
    SessionTagsWellFormed();
    KeepAliveLayout(n, w);
    DistinctTags(KeepAliveOpen, PeerNameOpen);
    FindField(KeepAlive(n, w), KeepAliveOpen, KillUser, n, StatusOpen + w + StatusClose + KeepAliveClose);
  }

  /**
   * updatePeerOnline on what exit sends: every peer of that name leaves the
   * roster, when the name is non-empty and free of angle brackets; otherwise
   * the message has no REQUEST shape and the roster stays.
   */
  lemma ExitRemovesPeer(peers: seq<PeerInfo>, n: string)
    ensures UpdatePeerOnline(peers, Exit(n)) == if |n| > 0 && AllIn(n, NotAngle) then RemoveNamed(peers, n) else peers
  {
    ExitShape(n);
    if |n| > 0 && AllIn(n, NotAngle) {
      ExitNotAlive(n);
      KeepAliveStatusOnly(n);
      KeepAliveNameField(n, ServerOffline);
      SessionTagsWellFormed();
      FreeText(n, PeerNameClose);
      NoStartNotContains(n, PeerNameClose);
      ExtractLone(PeerNameOpen, n, PeerNameClose);
    }
  }

  /** updatePeerOnline on what sendRequest sends: the RUNNING status keeps the roster as it is. */
  lemma RunningKeepsPeers(peers: seq<PeerInfo>, n: string)
    ensures UpdatePeerOnline(peers, SendRequest(n)) == peers
  {
    var s := SendRequest(n);
    var x := KeepAliveOpen + PeerNameOpen + n + PeerNameClose;
    KeepAliveStatusOnly(n);
    Regroup(KeepAliveOpen, PeerNameOpen, n, PeerNameClose, StatusOpen, ServerOnline, StatusClose, KeepAliveClose);
    assert s == x + AliveMarker + KeepAliveClose;
    assert OccursAt(s, AliveMarker, |x|) by {
      assert s[|x|..|x| + |AliveMarker|] == AliveMarker;
    }
  }

  /** removeIf keeps the roster as it is when nobody has the name. */
  lemma {:induction false} RemoveNamedAbsent(peers: seq<PeerInfo>, name: string)
    requires forall i :: 0 <= i < |peers| ==> peers[i].name != name
    ensures RemoveNamed(peers, name) == peers
  {
    if |peers| > 0 {
      RemoveNamedAbsent(peers[1..], name);
      assert [peers[0]] + peers[1..] == peers;
    }
  }

  /** removeIf on a joined roster is removeIf on each part, in order. */
  lemma {:induction false} RemoveNamedConcat(a: seq<PeerInfo>, b: seq<PeerInfo>, name: string)
    ensures RemoveNamed(a + b, name) == RemoveNamed(a, name) + RemoveNamed(b, name)
  {
    if |a| == 0 {
      assert a + b == b;
    } else {
      assert (a + b)[1..] == a[1..] + b;
      RemoveNamedConcat(a[1..], b, name);
    }
  }

  /** A second STOP for the same name changes nothing. */
  lemma RemoveNamedIdempotent(peers: seq<PeerInfo>, name: string)
    ensures RemoveNamed(RemoveNamed(peers, name), name) == RemoveNamed(peers, name)
  {
    var r := RemoveNamed(peers, name);
    assert forall i :: 0 <= i < |r| ==> r[i] in r;
    RemoveNamedAbsent(r, name);
  }

  /* ------------------------------- file requests ------------------------------- */

  /** What sendFile builds has the FILE_NAME shape exactly when the name holds no line terminator. */
  lemma CheckFileOfSendFile(n: string)
    ensures CheckFile(SendFile(n)) <==> AllIn(n, Dot)
  {
    WrappedParts(FileReqOpen, n, FileReqClose);
  }

  /** No message is both a file request and a file feedback: the tags part at their tenth character. */
  lemma FileChecksExclusive(s: string)
    ensures !(CheckFile(s) && CheckFeedBack(s))
  {
    assert StartsWith(s, FileReqOpen) ==> s[9] == FileReqOpen[9] == '>';
    assert StartsWith(s, FileReqAckOpen) ==> s[9] == FileReqAckOpen[9] == '_';
  }

  /* ------------------------------- IP addresses ------------------------------- */

  /** Leading slashes in front of a text that does not start with one all go. */
  lemma {:induction false} DropSlashesPrefix(slashes: string, a: string)
    requires forall i :: 0 <= i < |slashes| ==> slashes[i] == '/'
    requires |a| > 0 ==> a[0] != '/'
    ensures DropLeadingSlashes(slashes + a) == a
    decreases |slashes|
  {
    if |slashes| > 0 {
      assert (slashes + a)[1..] == slashes[1..] + a;
      DropSlashesPrefix(slashes[1..], a);
    } else {
      assert slashes + a == a;
    }
  }

  /**
   * sanitizeIPAddress on an address written with leading slashes, as
   * InetAddress.toString gives it: the address itself, when it has no
   * surrounding blanks.
   */
  lemma SanitizeSlashedAddress(slashes: string, a: string)
    requires forall i :: 0 <= i < |slashes| ==> slashes[i] == '/'
    requires |a| > 0 ==> a[0] != '/' && a[0] > ' ' && a[|a| - 1] > ' '
    ensures SanitizeIp(Some(slashes + a)) == a
  {
    DropSlashesPrefix(slashes, a);
    assert TrimStart(a) == a;
    assert TrimEnd(a) == a;
  }
}
