/**
 * The message decoders. Each decoder first checks the whole message against a
 * fixed pattern (Matcher.matches), then pulls fields out either with a
 * Matcher.find of a smaller pattern or with extractContent (indexOf and substring).
 */
module Decode {
  import opened Wrappers
  import opened JavaText
  import opened Tags
  import opened Encode
  import opened Peers

  /* ------------------------------- extractContent ------------------------------- */

  /**
   * extractContent: "" when either tag is missing or the first `close` starts at
   * or before the first `open`; otherwise the text from the end of the first
   * `open` up to the first `close`. None is the StringIndexOutOfBoundsException
   * of substring, when that `close` starts inside the `open`.
   */
  function ExtractContent(src: string, open: string, close: string): (r: Option<string>)
    ensures !Contains(src, open) || !Contains(src, close) ==> r == Some("")
    ensures r.Some? && r.value != "" ==> Contains(src, open + r.value + close) && !Contains(r.value, close)
  {
    var start := IndexOf(src, open);
    var end := IndexOf(src, close);
    ContainsIffIndexOf(src, open);
    ContainsIffIndexOf(src, close);
    if start == -1 || end == -1 || end <= start then Some("")
    else if end < start + |open| then None
    else
      ContentBetween(src, open, close, start, end);
      Some(src[start + |open|..end])
  }

  /** The text between an occurrence of `open` and the first occurrence of `close` after it. */
  lemma ContentBetween(src: string, open: string, close: string, start: int, end: int)
    requires |close| > 0 && OccursAt(src, open, start) && OccursAt(src, close, end) && start + |open| <= end
    requires forall i :: 0 <= i < end ==> !OccursAt(src, close, i)
    ensures var m := src[start + |open|..end];
      OccursAt(src, open + m + close, start) && !Contains(m, close)
  {
    var m := src[start + |open|..end];
    assert src[start..end + |close|] == open + m + close;
    forall k | 0 <= k <= |m| - |close| ensures !OccursAt(m, close, k) {
      if OccursAt(m, close, k) {
        OccursInSlice(src, close, start + |open|, end, k);
      }
    }
  }

  /** When `close` cannot begin after the first character of `open`, it never starts inside an occurrence of `open`. */
  lemma NoCloseInsideOpen(src: string, open: string, close: string, start: int)
    requires |open| > 0 && NoStart(open[1..], close) && OccursAt(src, open, start)
    ensures forall q :: start < q < start + |open| ==> !OccursAt(src, close, q)
  {
    AroundOccurrence(src, open, start);
    var pre := src[..start + 1];
    var post := src[start + |open|..];
    assert src == pre + (open[1..] + post);
    OccursAfter(pre, open[1..] + post, close);
    NoStartNoOccurrence(open[1..], post, close);
  }

  /** When `close` cannot begin after the first character of `open`, extractContent never throws. */
  lemma ExtractNeverThrows(src: string, open: string, close: string)
    requires |open| > 0 && NoStart(open[1..], close)
    ensures ExtractContent(src, open, close).Some?
  {
    var start := IndexOf(src, open);
    var end := IndexOf(src, close);
    if start >= 0 && end > start {
      NoCloseInsideOpen(src, open, close, start);
      assert OccursAt(src, close, end);
    }
  }

  /** extractContent where `close` cannot begin inside `open`, as for every fixed tag pair. */
  function Extract(src: string, open: string, close: string): (r: string)
    requires |open| > 0 && NoStart(open[1..], close)
    ensures ExtractContent(src, open, close) == Some(r)
  {
    ExtractNeverThrows(src, open, close);
    ExtractContent(src, open, close).value
  }

  /**
   * The content of the first `open`, when `close` does not begin before the end
   * of the text that follows it.
   */
  lemma ExtractFirst(x: string, open: string, m: string, close: string, y: string)
    requires |open| > 0 && NoStart(x, open) && NoStart(x + open + m, close)
    ensures ExtractContent(x + open + m + close + y, open, close) == Some(m)
  {
    var s := x + open + m + close + y;
    ContentSlice(x, open, m, close, y);
    FirstOfFive(x, open, m, close, y);
    FirstOccurrence(x + open + m, close, y);
    ExtractAt(s, open, close, |x|, |x| + |open| + |m|);
  }

  /** extractContent once the first occurrences of both tags are known. */
  lemma ExtractAt(src: string, open: string, close: string, i: int, j: int)
    requires IndexOf(src, open) == i >= 0 && IndexOf(src, close) == j && i + |open| <= j && |open| > 0
    ensures ExtractContent(src, open, close) == Some(src[i + |open|..j])
  {
  }

  /** The fixed tag pairs handed to extractContent never make it throw. */
  lemma TagPairsSafe()
    ensures NoStart(PeerNameOpen[1..], PeerNameClose) && NoStart(PortOpen[1..], PortClose)
    ensures NoStart(IpOpen[1..], IpClose) && NoStart(ChatMsgOpen[1..], ChatMsgClose)
    ensures NoStart(EditOldOpen[1..], EditOldClose) && NoStart(EditNewOpen[1..], EditNewClose)
  {
    SessionTagsWellFormed();
    RosterTagsWellFormed();
    EditTagsWellFormed();
    TagTail(PeerNameOpen, PeerNameClose);
    TagTail(PortOpen, PortClose);
    TagTail(IpOpen, IpClose);
    TagTail(ChatMsgOpen, ChatMsgClose);
    TagTail(EditOldOpen, EditOldClose);
    TagTail(EditNewOpen, EditNewClose);
  }

  /** A name tag's closing tag cannot begin inside its opening tag. */
  lemma NamedTagsSafe(name: string)
    requires IsElementName(name)
    ensures NoStart(OpenTag(name)[1..], CloseTag(name))
  {
    assert OpenTag(name)[1..] == name + ">";
    NoStartAvoiding(name + ">", CloseTag(name));
  }

  /**
   * getBetweenTags: the content of the element called `name`. None (the
   * exception) is possible only for names holding a `<`.
   */
  function GetBetweenTags(src: string, name: string): (r: Option<string>)
    ensures IsElementName(name) ==> r.Some?
  {
    if IsElementName(name) then
      NamedTagsSafe(name);
      ExtractNeverThrows(src, OpenTag(name), CloseTag(name));
      ExtractContent(src, OpenTag(name), CloseTag(name))
    else ExtractContent(src, OpenTag(name), CloseTag(name))
  }

  /* ------------------------------- whole-message shapes ------------------------------- */

  /** The text `s` holds between a leading `open` and a trailing `close`. */
  function Between(s: string, open: string, close: string): string
    requires |open| + |close| <= |s|
  {
    s[|open|..|s| - |close|]
  }

  /** `s` matches `open.*close` (Matcher.matches). */
  predicate Wrapped(s: string, open: string, close: string) {
    |open| + |close| <= |s| && StartsWith(s, open) && EndsWith(s, close)
    && AllIn(Between(s, open, close), Dot)
  }

  /** `s` matches `open.*mid.*close`, where `mid` holds no line terminator. */
  predicate WrappedAround(s: string, open: string, mid: string, close: string) {
    Wrapped(s, open, close) && Contains(Between(s, open, close), mid)
  }

  /** `s` matches `open[^<>]*close`, or `open[^<>]+close` when `nonEmpty`. */
  predicate WrappedFree(s: string, open: string, close: string, nonEmpty: bool) {
    |open| + |close| <= |s| && StartsWith(s, open) && EndsWith(s, close)
    && AllIn(Between(s, open, close), NotAngle) && (nonEmpty ==> |open| + |close| < |s|)
  }

  /** CREATE_ACCOUNT */
  predicate IsCreateAccount(s: string) {
    WrappedAround(s, SessionOpen + PeerNameOpen, PeerNameClose + PortOpen, PortClose + SessionClose)
  }

  /** MESSAGE */
  predicate IsMessage(s: string) {
    Wrapped(s, ChatMsgOpen, ChatMsgClose)
  }

  /** isEdit (EDIT) */
  predicate IsEdit(s: string) {
    WrappedAround(s, ChatEditOpen + EditOldOpen, EditOldClose + EditNewOpen, EditNewClose + ChatEditClose)
  }

  /** checkFile (FILE_NAME) */
  predicate CheckFile(s: string) {
    Wrapped(s, FileReqOpen, FileReqClose)
  }

  /** checkFeedBack (FEEDBACK) */
  predicate CheckFeedBack(s: string) {
    Wrapped(s, FileReqAckOpen, FileReqAckClose)
  }

  const RequestHead: string := KeepAliveOpen + PeerNameOpen

  /** Everything of a keep-alive after the name, for one status word. */
  function RequestTail(status: string): string {
    PeerNameClose + StatusOpen + status + StatusClose + KeepAliveClose
  }

  /** REQUEST: a keep-alive for a non-empty `[^<>]` name with the RUNNING or the STOP status. */
  predicate IsKeepAlive(s: string) {
    WrappedFree(s, RequestHead, RequestTail(ServerOnline), true)
    || WrappedFree(s, RequestHead, RequestTail(ServerOffline), true)
  }

  const ChatRequestHead: string := ChatReqOpen + PeerNameOpen
  const ChatRequestTail: string := PeerNameClose + ChatReqClose

  /** The pattern of getNameRequestChat. */
  predicate IsChatRequest(s: string) {
    WrappedFree(s, ChatRequestHead, ChatRequestTail, false)
  }

  /**
   * Element names of the delete, typing and reaction messages. Their tag
   * constants are not defined in src/tags/Tags.java, so the model takes them
   * as parameters, each as an `<NAME>` / `</NAME>` pair.
   */
  datatype ExtensionTags = ExtensionTags(
    delete: string, deleteBody: string,
    typing: string, typingState: string,
    reaction: string, reactionTarget: string, reactionEmoji: string)

  predicate ValidExtension(x: ExtensionTags) {
    IsElementName(x.delete) && IsElementName(x.deleteBody) && IsElementName(x.typing)
    && IsElementName(x.typingState) && IsElementName(x.reaction)
    && IsElementName(x.reactionTarget) && IsElementName(x.reactionEmoji)
  }

  /** isDelete (DELETE) */
  predicate IsDelete(s: string, x: ExtensionTags) {
    Wrapped(s, OpenTag(x.delete) + OpenTag(x.deleteBody), CloseTag(x.deleteBody) + CloseTag(x.delete))
  }

  /** The typing message with state ON or OFF. */
  function TypingText(x: ExtensionTags, on: bool): string {
    OpenTag(x.typing) + OpenTag(x.typingState) + (if on then "ON" else "OFF")
    + CloseTag(x.typingState) + CloseTag(x.typing)
  }

  /** isTyping (TYPING): the pattern has no repetition, so it accepts exactly two strings. */
  predicate IsTyping(s: string, x: ExtensionTags) {
    s == TypingText(x, true) || s == TypingText(x, false)
  }

  /** `w` splits at `k` into `.*`, then `mid` ending at `k`, then `[^<>]+`. */
  predicate ReactionSplit(w: string, mid: string, k: int) {
    |mid| <= k < |w| && w[k - |mid|..k] == mid
    && AllIn(w[..k - |mid|], Dot) && AllIn(w[k..], NotAngle)
  }

  /** isReaction (REACTION) */
  predicate IsReaction(s: string, x: ExtensionTags) {
    var open := OpenTag(x.reaction) + OpenTag(x.reactionTarget);
    var close := CloseTag(x.reactionEmoji) + CloseTag(x.reaction);
    |open| + |close| <= |s| && StartsWith(s, open) && EndsWith(s, close)
    && var w := Between(s, open, close);
    exists k :: 0 <= k < |w| && ReactionSplit(w, CloseTag(x.reactionTarget) + OpenTag(x.reactionEmoji), k)
  }

  /* ---------------------------------- Matcher.find ---------------------------------- */

  /** A pattern `open k* close`, or `open k+ close` when `nonEmpty`. */
  datatype FieldPattern = FieldPattern(open: string, chars: CharClass, nonEmpty: bool, close: string)

  /** `s[i..e]` is a match of `p`. */
  predicate MatchSpan(s: string, p: FieldPattern, i: int, e: int) {
    0 <= i && i + |p.open| + |p.close| <= e <= |s|
    && OccursAt(s, p.open, i) && OccursAt(s, p.close, e - |p.close|)
    && AllIn(s[i + |p.open|..e - |p.close|], p.chars)
    && (p.nonEmpty ==> i + |p.open| < e - |p.close|)
  }

  /**
   * End of the match of `p` that begins at `i`, or -1 when none does. The
   * repetition is greedy, so the match is the longest one.
   */
  function MatchEndAt(s: string, p: FieldPattern, i: nat): (e: int)
    ensures e == -1 || MatchSpan(s, p, i, e)
    ensures forall f :: MatchSpan(s, p, i, f) ==> f <= e
  {
    if i + |p.open| > |s| || !OccursAt(s, p.open, i) then -1
    else
      var a := i + |p.open|;
      var hi := RunEnd(s, a, p.chars);
      var j := LastIndexIn(s, p.close, if p.nonEmpty then a + 1 else a, hi);
      LongestMatch(s, p, i);
      if j < 0 then -1
      else
        RunPrefix(s, a, j, hi, p.chars);
        j + |p.close|
  }

  /** Where the closing literal of any match beginning at `i` starts. */
  lemma LongestMatch(s: string, p: FieldPattern, i: nat)
    requires i + |p.open| <= |s|
    ensures var a := i + |p.open|;
      forall f :: MatchSpan(s, p, i, f) ==>
        (if p.nonEmpty then a + 1 else a) <= f - |p.close| <= RunEnd(s, a, p.chars)
  {
    forall f | MatchSpan(s, p, i, f)
      ensures f - |p.close| <= RunEnd(s, i + |p.open|, p.chars)
    {
      RunBound(s, i + |p.open|, f - |p.close|, p.chars);
    }
  }

  /** Matcher.find from `from`: the leftmost position where a match of `p` begins, or -1. */
  function FindFrom(s: string, p: FieldPattern, from: nat): (i: int)
    ensures i == -1 || (from <= i <= |s| && MatchEndAt(s, p, i) >= 0)
    ensures forall k: nat :: from <= k <= |s| && (i == -1 || k < i) ==> MatchEndAt(s, p, k) < 0
    decreases |s| + 1 - from
  {
    if from > |s| then -1
    else if MatchEndAt(s, p, from) >= 0 then from
    else FindFrom(s, p, from + 1)
  }

  /** Matcher.find then group(0): the text of the first match of `p`. */
  function FindGroup(s: string, p: FieldPattern): Option<string> {
    var i := FindFrom(s, p, 0);
    if i < 0 then None else Some(s[i..MatchEndAt(s, p, i)])
  }

  const FindName: FieldPattern := FieldPattern(PeerNameOpen, Dot, false, PeerNameClose)
  const FindPort: FieldPattern := FieldPattern(PortOpen, Digit, false, PortClose)
  const FindIp: FieldPattern := FieldPattern(IpOpen, Dot, true, IpClose)
  const KillUser: FieldPattern := FieldPattern(PeerNameOpen, NotAngle, false, PeerNameClose)

  /* ------------------------------------ getters ------------------------------------ */

  /**
   * getUser: for a registration, the name and the port text, in that order;
   * None (null) when the message is no registration or a field pattern finds nothing.
   */
  function GetUser(msg: string): (r: Option<seq<string>>)
    ensures r.Some? ==> IsCreateAccount(msg) && |r.value| == 2
  {
    if !IsCreateAccount(msg) then None
    else
      match FindGroup(msg, FindName)
      case None => None
      case Some(name) =>
        match FindGroup(msg, FindPort)
        case None => None
        case Some(port) =>
          TagPairsSafe();
          Some([Extract(name, PeerNameOpen, PeerNameClose), Extract(port, PortOpen, PortClose)])
  }

  /** getMessage: the chat text of a MESSAGE, or None (null). */
  function GetMessage(msg: string): (r: Option<string>)
    ensures r.Some? <==> IsMessage(msg)
  {
    if IsMessage(msg) then TagPairsSafe(); Some(Extract(msg, ChatMsgOpen, ChatMsgClose)) else None
  }

  datatype EditPayload = EditPayload(oldText: string, newText: string)
  datatype DeletePayload = DeletePayload(text: string)
  datatype TypingPayload = TypingPayload(on: bool)
  datatype ReactionPayload = ReactionPayload(target: string, emoji: string)

  /** getEditPayload */
  function GetEditPayload(msg: string): (r: Option<EditPayload>)
    ensures r.Some? <==> IsEdit(msg)
  {
    if !IsEdit(msg) then None
    else
      TagPairsSafe();
      Some(EditPayload(Extract(msg, EditOldOpen, EditOldClose), Extract(msg, EditNewOpen, EditNewClose)))
  }

  /** getDeletePayload */
  function GetDeletePayload(msg: string, x: ExtensionTags): (r: Option<DeletePayload>)
    requires ValidExtension(x)
    ensures r.Some? <==> IsDelete(msg, x)
  {
    if !IsDelete(msg, x) then None
    else
      NamedTagsSafe(x.deleteBody);
      Some(DeletePayload(Extract(msg, OpenTag(x.deleteBody), CloseTag(x.deleteBody))))
  }

  /** getTypingPayload: on is whether the state element holds exactly "ON". */
  function GetTypingPayload(msg: string, x: ExtensionTags): (r: Option<TypingPayload>)
    requires ValidExtension(x)
    ensures r.Some? <==> IsTyping(msg, x)
  {
    if !IsTyping(msg, x) then None
    else
      NamedTagsSafe(x.typingState);
      Some(TypingPayload(Extract(msg, OpenTag(x.typingState), CloseTag(x.typingState)) == "ON"))
  }

  /** getReactionPayload */
  function GetReactionPayload(msg: string, x: ExtensionTags): (r: Option<ReactionPayload>)
    requires ValidExtension(x)
    ensures r.Some? <==> IsReaction(msg, x)
  {
    if !IsReaction(msg, x) then None
    else
      NamedTagsSafe(x.reactionTarget);
      NamedTagsSafe(x.reactionEmoji);
      Some(ReactionPayload(
        Extract(msg, OpenTag(x.reactionTarget), CloseTag(x.reactionTarget)),
        Extract(msg, OpenTag(x.reactionEmoji), CloseTag(x.reactionEmoji))))
  }

  /** The opening half of a chat request cannot hold the start of its closing half. */
  lemma ChatRequestTagsSafe()
    ensures NoStart(ChatRequestHead[1..], ChatRequestTail)
  {
    SessionTagsWellFormed();
    RosterTagsWellFormed();
    assert ChatRequestHead[1..] == ChatReqOpen[1..] + PeerNameOpen;
    TagTail(ChatReqOpen, ChatRequestTail);
    OpenBeforeClose(PeerNameOpen, ChatRequestTail);
    NoStartConcat(ChatReqOpen[1..], PeerNameOpen, ChatRequestTail);
  }

  /** getNameRequestChat: the name in a chat request, or None (null). */
  function GetNameRequestChat(msg: string): (r: Option<string>)
    ensures r.Some? <==> IsChatRequest(msg)
  {
    if IsChatRequest(msg) then
      ChatRequestTagsSafe();
      Some(Extract(msg, ChatRequestHead, ChatRequestTail))
    else None
  }

  /** sanitizeIPAddress: null and "" give ""; otherwise the leading `/`s go, then surrounding blanks. */
  function SanitizeIp(ip: Option<string>): (r: string)
    ensures |r| > 0 ==> r[0] > ' ' && r[|r| - 1] > ' '
  {
    if ip.None? || ip.value == "" then "" else Trim(DropLeadingSlashes(ip.value))
  }

  /* ------------------------------- updatePeerOnline ------------------------------- */

  /** peerList.removeIf(p -> p.getName().equals(name)) */
  function RemoveNamed(peers: seq<PeerInfo>, name: string): (r: seq<PeerInfo>)
    ensures |r| <= |peers|
    ensures forall p :: p in r <==> p in peers && p.name != name
  {
    if |peers| == 0 then []
    else
      var rest := RemoveNamed(peers[1..], name);
      assert forall p :: p in peers <==> p == peers[0] || p in peers[1..];
      if peers[0].name == name then rest else [peers[0]] + rest
  }

  const AliveMarker: string := StatusOpen + ServerOnline + StatusClose

  /**
   * updatePeerOnline: a keep-alive without `<STATUS>RUNNING</STATUS>` removes
   * every peer named in its first `<PEER_NAME>[^<>]*</PEER_NAME>`; any other
   * message leaves the roster as it is.
   */
  function UpdatePeerOnline(peers: seq<PeerInfo>, msg: string): (r: seq<PeerInfo>)
    ensures r == peers || (IsKeepAlive(msg) && !Contains(msg, AliveMarker))
    ensures |r| <= |peers| && forall p :: p in r ==> p in peers
  {
    if !IsKeepAlive(msg) || Contains(msg, AliveMarker) then peers
    else
      match FindGroup(msg, KillUser)
      case None => peers
      case Some(g) =>
        TagPairsSafe();
        RemoveNamed(peers, Extract(g, PeerNameOpen, PeerNameClose))
  }

  /* ---------------------------------- getAllUser ---------------------------------- */

  const EntryOpen: string := PeerOpen + PeerNameOpen
  const NameToIp: string := PeerNameClose + IpOpen
  const IpToPort: string := IpClose + PortOpen
  const EntryClose: string := PortClose + PeerClose

  /** `e` is one repetition of the USERS group, with NameToIp at `i` and IpToPort at `j`. */
  predicate EntrySplit(e: string, i: int, j: int) {
    |EntryOpen| < i && i + |NameToIp| < j && j + |IpToPort| < |e| - |EntryClose|
    && StartsWith(e, EntryOpen) && EndsWith(e, EntryClose)
    && OccursAt(e, NameToIp, i) && OccursAt(e, IpToPort, j)
    && AllIn(e[|EntryOpen|..i], Dot) && AllIn(e[i + |NameToIp|..j], Dot)
    && AllIn(e[j + |IpToPort|..|e| - |EntryClose|], Digit)
  }

  predicate IsEntry(e: string) {
    exists i, j :: 0 <= i < |e| && 0 <= j < |e| && EntrySplit(e, i, j)
  }

  /** `w` is a sequence of entries. */
  predicate Entries(w: string)
    decreases |w|
  {
    |w| == 0 || exists k :: 0 < k <= |w| && IsEntry(w[..k]) && Entries(w[k..])
  }

  /** USERS */
  predicate IsUsers(s: string) {
    |SessionAcceptOpen| + |SessionAcceptClose| <= |s|
    && StartsWith(s, SessionAcceptOpen) && EndsWith(s, SessionAcceptClose)
    && Entries(Between(s, SessionAcceptOpen, SessionAcceptClose))
  }

  /**
   * End of the findPeer match that begins at `i`, or -1. Each field is the
   * longest run of its class: the literal after every field starts with `<`,
   * which no field admits, so backtracking cannot shorten a field.
   */
  function EntryEndAt(s: string, i: nat): (e: int)
    ensures e == -1 || i < e <= |s|
  {
    ChainEnd(s, i, EntryOpen, NameToIp, IpToPort, EntryClose)
  }

  /**
   * The findPeer pattern `o[^<>]*m1[^<>]*m2[0-9]*c` at `i`, one greedy run at a
   * time, with its four literals as parameters.
   */
  function ChainEnd(s: string, i: nat, o: string, m1: string, m2: string, c: string): (e: int)
    ensures e == -1 || i + |o| + |m1| + |m2| + |c| <= e <= |s|
  {
    if !OccursAt(s, o, i) then -1 else AfterName(s, RunEnd(s, i + |o|, NotAngle), m1, m2, c)
  }

  function AfterName(s: string, e1: nat, m1: string, m2: string, c: string): (e: int)
    requires e1 <= |s|
    ensures e == -1 || e1 + |m1| + |m2| + |c| <= e <= |s|
  {
    if !OccursAt(s, m1, e1) then -1 else AfterHost(s, RunEnd(s, e1 + |m1|, NotAngle), m2, c)
  }

  function AfterHost(s: string, e2: nat, m2: string, c: string): (e: int)
    requires e2 <= |s|
    ensures e == -1 || e2 + |m2| + |c| <= e <= |s|
  {
    if !OccursAt(s, m2, e2) then -1
    else
      var e3 := RunEnd(s, e2 + |m2|, Digit);
      if !OccursAt(s, c, e3) then -1 else e3 + |c|
  }

  /** findPeer's Matcher.find from `from`. */
  function EntryFrom(s: string, from: nat): (i: int)
    ensures i == -1 || (from <= i < |s| && EntryEndAt(s, i) > i)
    ensures forall k: nat :: from <= k && (i == -1 || k < i) ==> EntryEndAt(s, k) < 0
    decreases |s| - from
  {
    if from >= |s| then -1
    else if EntryEndAt(s, from) >= 0 then from
    else EntryFrom(s, from + 1)
  }

  /**
   * The Peer built from one findPeer match `g`: name and host default to "" and
   * the port to 0 when their field pattern finds nothing. None is the
   * NumberFormatException of Integer.parseInt on the port text.
   */
  function PeerOfEntry(g: string): Option<PeerInfo> {
    TagPairsSafe();
    var name := match FindGroup(g, FindName)
      case None => ""
      case Some(m) => Extract(m, PeerNameOpen, PeerNameClose);
    var host := match FindGroup(g, FindIp)
      case None => ""
      case Some(m) => SanitizeIp(Some(Extract(m, IpOpen, IpClose)));
    match FindGroup(g, FindPort)
    case None => Some(PeerInfo(name, host, 0))
    case Some(m) =>
      match ParseInt(Extract(m, PortOpen, PortClose))
      case None => None
      case Some(v) => Some(PeerInfo(name, host, v))
  }

  /** The peers of the findPeer matches from `from` on, in order; None if one of them throws. */
  function FindPeers(s: string, from: nat): Option<seq<PeerInfo>>
    decreases |s| - from
  {
    var i := EntryFrom(s, from);
    if i < 0 then Some([])
    else
      var e := EntryEndAt(s, i);
      match PeerOfEntry(s[i..e])
      case None => None
      case Some(p) =>
        match FindPeers(s, e)
        case None => None
        case Some(ps) => Some([p] + ps)
  }

  /** What getAllUser gives back: null, an exception, or the list. */
  datatype RosterReply = NoRoster | RosterFailure | Roster(peers: seq<PeerInfo>)

  /** getAllUser, as a function of the message. */
  function AllUsers(msg: string): RosterReply {
    if !IsUsers(msg) then NoRoster
    else
      match FindPeers(msg, 0)
      case None => RosterFailure
      case Some(ps) => Roster(ps)
  }

  function Prepend(users: seq<PeerInfo>, rest: Option<seq<PeerInfo>>): Option<seq<PeerInfo>> {
    match rest
    case None => None
    case Some(ps) => Some(users + ps)
  }

  lemma PrependNothing(rest: Option<seq<PeerInfo>>)
    ensures Prepend([], rest) == rest
  {
    if rest.Some? {
      assert [] + rest.value == rest.value;
    }
  }

  lemma PrependTwice(u: seq<PeerInfo>, v: seq<PeerInfo>, rest: Option<seq<PeerInfo>>)
    ensures Prepend(u, Prepend(v, rest)) == Prepend(u + v, rest)
  {
    if rest.Some? {
      assert u + (v + rest.value) == u + v + rest.value;
    }
  }

  /** One step of FindPeers: the peer of the next match, then the rest. */
  lemma FindPeersStep(s: string, from: nat)
    requires EntryFrom(s, from) >= 0
    requires var i := EntryFrom(s, from); PeerOfEntry(s[i..EntryEndAt(s, i)]).Some?
    ensures var i := EntryFrom(s, from); var e := EntryEndAt(s, i);
      FindPeers(s, from) == Prepend([PeerOfEntry(s[i..e]).value], FindPeers(s, e))
  {
  }

  /** getAllUser: the while(find.find()) loop adds one peer per findPeer match. */
  method GetAllUser(msg: string) returns (r: RosterReply)
    ensures r == AllUsers(msg)
  {
    if !IsUsers(msg) {
      return NoRoster;
    }
    var users: seq<PeerInfo> := [];
    var pos := 0;
    PrependNothing(FindPeers(msg, 0));
    while true
      invariant 0 <= pos <= |msg|
      invariant FindPeers(msg, 0) == Prepend(users, FindPeers(msg, pos))
      decreases |msg| - pos
    {
      var i := EntryFrom(msg, pos);
      if i < 0 {
        assert FindPeers(msg, pos) == Some([]);
        assert users + [] == users;
        return Roster(users);
      }
      var e := EntryEndAt(msg, i);
      var p := PeerOfEntry(msg[i..e]);
      if p.None? {
        assert FindPeers(msg, pos).None?;
        return RosterFailure;
      }
      FindPeersStep(msg, pos);
      PrependTwice(users, [p.value], FindPeers(msg, e));
      users := users + [p.value];
      pos := e;
    }
  }
}
