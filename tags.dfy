/** The protocol's markers: paired `<NAME>` / `</NAME>` tags, self-closing tags and words. */
module Tags {
  import opened JavaText

  /** Largest file the sender transfers, and the size of a default chunk buffer, in bytes. */
  const MaxMsgSize: int := 1024000

  // session registration
  const SessionOpen: string := "<SESSION_REQ>"
  const SessionClose: string := "</SESSION_REQ>"
  const PeerNameOpen: string := "<PEER_NAME>"
  const PeerNameClose: string := "</PEER_NAME>"
  const PortOpen: string := "<PORT>"
  const PortClose: string := "</PORT>"

  // keep-alive
  const KeepAliveOpen: string := "<SESSION_KEEP_ALIVE>"
  const KeepAliveClose: string := "</SESSION_KEEP_ALIVE>"
  const StatusOpen: string := "<STATUS>"
  const StatusClose: string := "</STATUS>"

  // server replies
  const SessionDeny: string := "<SESSION_DENY />"
  const SessionAcceptOpen: string := "<SESSION_ACCEPT>"
  const SessionAcceptClose: string := "</SESSION_ACCEPT>"

  // chat requests
  const ChatReqOpen: string := "<CHAT_REQ>"
  const ChatReqClose: string := "</CHAT_REQ>"
  const IpOpen: string := "<IP>"
  const IpClose: string := "</IP>"
  const ChatDeny: string := "<CHAT_DENY />"
  const ChatAccept: string := "<CHAT_ACCEPT />"

  // chat messages and roster entries
  const ChatMsgOpen: string := "<CHAT_MSG>"
  const ChatMsgClose: string := "</CHAT_MSG>"
  const PeerOpen: string := "<PEER>"
  const PeerClose: string := "</PEER>"

  // file transfer
  const FileReqOpen: string := "<FILE_REQ>"
  const FileReqClose: string := "</FILE_REQ>"
  const FileReqNoAck: string := "<FILE_REQ_NOACK />"
  const FileReqAckOpen: string := "<FILE_REQ_ACK>"
  const FileReqAckClose: string := "</FILE_REQ_ACK>"
  const FileDataBegin: string := "<FILE_DATA_BEGIN />"
  const FileDataOpen: string := "<FILE_DATA>"
  const FileDataClose: string := "</FILE_DATA>"
  const FileDataEnd: string := "<FILE_DATA_END />"
  const ChatClose: string := "<CHAT_CLOSE />"

  // accounts and server status words
  const RegisterWord: string := "REGISTER"
  const ServerOnline: string := "RUNNING"
  const ServerOffline: string := "STOP"

  // message edits
  const ChatEditOpen: string := "<CHAT_EDIT>"
  const ChatEditClose: string := "</CHAT_EDIT>"
  const EditOldOpen: string := "<OLD>"
  const EditOldClose: string := "</OLD>"
  const EditNewOpen: string := "<NEW>"
  const EditNewClose: string := "</NEW>"

  /** `close` is `open` with `/` inserted right after its first character, the `<`. */
  predicate ClosingPartner(open: string, close: string) {
    |open| > 0 && |close| == |open| + 1 && close[0] == open[0] && close[1] == '/'
    && forall i :: 1 <= i < |open| ==> close[i + 1] == open[i]
  }

  /** Opening tag of an element name. */
  function OpenTag(name: string): (t: string)
    ensures |t| == |name| + 2 && t[0] == '<' && t[|t| - 1] == '>' && t[1..|t| - 1] == name
  {
    "<" + name + ">"
  }

  /** Closing tag of an element name. */
  function CloseTag(name: string): (t: string)
    ensures |name| > 0 ==> ClosingPartner(OpenTag(name), t)
  {
    "</" + name + ">"
  }

  /** An element name that can stand between `<` and `>`. */
  predicate IsElementName(name: string) {
    |name| > 0 && AllIn(name, NotAngle) && AllIn(name, Dot)
  }

  /** The characters the protocol's tags are spelt with. */
  predicate TagChar(c: char) {
    'A' <= c <= 'Z' || c == '_' || c == '/' || c == ' '
  }

  /** `<`, then tag characters, then `>`. */
  predicate IsTag(t: string) {
    |t| >= 3 && t[0] == '<' && t[|t| - 1] == '>' && forall i :: 1 <= i < |t| - 1 ==> TagChar(t[i])
  }

  /** A tag has `<` only in front, and no line terminator. */
  lemma TagShape(t: string)
    requires IsTag(t)
    ensures AllIn(t, Dot)
    ensures forall i :: 1 <= i < |t| ==> t[i] != '<'
  {
  }

  /** Nothing starting with `<` can begin inside a tag after its first character. */
  lemma TagTail(a: string, t: string)
    requires IsTag(a) && |t| > 0 && t[0] == '<'
    ensures NoStart(a[1..], t)
  {
    NoStartAvoiding(a[1..], t);
  }

  /** Nothing starting with `<` can begin inside text without angle brackets. */
  lemma FreeText(x: string, t: string)
    requires AllIn(x, NotAngle) && |t| > 0 && t[0] == '<'
    ensures NoStart(x, t)
  {
    NoStartAvoiding(x, t);
  }

  /** Of two different tags, neither can begin inside the other. */
  lemma DistinctTags(a: string, b: string)
    requires IsTag(a) && IsTag(b) && a != b
    ensures NoStart(a, b)
  {
    CompatibleIff(a, b);
    if |a| < |b| {
      assert b[|a| - 1] != '>';
    } else if |b| < |a| {
      assert a[|b| - 1] != '>';
    }
    TagTail(a, b);
  }

  /**
   * An opening tag cannot begin inside text that starts with `</`, nor can
   * such text begin inside the tag.
   */
  lemma OpenBeforeClose(a: string, t: string)
    requires IsTag(a) && a[1] != '/' && |t| >= 2 && t[0] == '<' && t[1] == '/'
    ensures NoStart(a, t)
  {
    CompatibleIff(a, t);
    TagTail(a, t);
  }

  /** Session tags pair up. */
  lemma SessionTagsPaired()
    ensures ClosingPartner(SessionOpen, SessionClose)
    ensures ClosingPartner(PeerNameOpen, PeerNameClose)
    ensures ClosingPartner(PortOpen, PortClose)
    ensures ClosingPartner(SessionAcceptOpen, SessionAcceptClose)
  {
  }

  /** Keep-alive and roster-entry tags pair up. */
  lemma KeepAliveTagsPaired()
    ensures ClosingPartner(KeepAliveOpen, KeepAliveClose)
    ensures ClosingPartner(StatusOpen, StatusClose)
    ensures ClosingPartner(PeerOpen, PeerClose)
    ensures ClosingPartner(IpOpen, IpClose)
  {
  }

  /** Chat tags pair up. */
  lemma ChatTagsPaired()
    ensures ClosingPartner(ChatReqOpen, ChatReqClose)
    ensures ClosingPartner(ChatMsgOpen, ChatMsgClose)
    ensures ClosingPartner(ChatEditOpen, ChatEditClose)
    ensures ClosingPartner(EditOldOpen, EditOldClose)
    ensures ClosingPartner(EditNewOpen, EditNewClose)
  {
  }

  /** File-transfer tags pair up. */
  lemma FileTagsPaired()
    ensures ClosingPartner(FileReqOpen, FileReqClose)
    ensures ClosingPartner(FileReqAckOpen, FileReqAckClose)
    ensures ClosingPartner(FileDataOpen, FileDataClose)
  {
  }

  /** The receiver cuts a file request at 10 and 11 characters from its two ends. */
  lemma FileRequestTagLengths()
    ensures |FileReqOpen| == 10 && |FileReqClose| == 11
  {
  }

  /** At most 1000 chunks of 1024 bytes are sent. */
  lemma ChunkCountCeiling()
    ensures MaxMsgSize / 1024 == 1000
  {
  }

  /** A tag cannot begin inside a tag, nor inside text that starts with another tag. */
  lemma TagBeforeTagged(a: string, b: string, t: string)
    requires IsTag(a) && IsTag(b) && a != b && StartsWith(t, b)
    ensures NoStart(a, t)
  {
    DistinctTags(a, b);
    CompatibleIff(a, b);
    CompatibleIff(a, t);
    var k :| 0 <= k < |a| && k < |b| && a[k] != b[k];
    assert t[k] == b[k];
    TagTail(a, t);
  }

  /** The tags of registration and keep-alive messages are well formed. */
  lemma SessionTagsWellFormed()
    ensures IsTag(SessionOpen) && IsTag(SessionClose) && IsTag(PeerNameOpen) && IsTag(PeerNameClose)
    ensures IsTag(PortOpen) && IsTag(PortClose) && IsTag(KeepAliveOpen) && IsTag(KeepAliveClose)
    ensures IsTag(StatusOpen) && IsTag(StatusClose)
  {
    KeepAliveTagsWellFormed();
  }

  /** The tags of keep-alive messages are well formed. */
  lemma KeepAliveTagsWellFormed()
    ensures IsTag(KeepAliveOpen) && IsTag(KeepAliveClose) && IsTag(StatusOpen) && IsTag(StatusClose)
  {
  }

  /** The tags of rosters and chat messages are well formed. */
  lemma RosterTagsWellFormed()
    ensures IsTag(SessionAcceptOpen) && IsTag(SessionAcceptClose) && IsTag(PeerOpen) && IsTag(PeerClose)
    ensures IsTag(IpOpen) && IsTag(IpClose) && IsTag(ChatReqOpen) && IsTag(ChatReqClose)
    ensures IsTag(ChatMsgOpen) && IsTag(ChatMsgClose)
  {
  }

  /** The tags of edits and file requests are well formed. */
  lemma EditTagsWellFormed()
    ensures IsTag(ChatEditOpen) && IsTag(ChatEditClose) && IsTag(EditOldOpen) && IsTag(EditOldClose)
    ensures IsTag(EditNewOpen) && IsTag(EditNewClose) && IsTag(FileReqOpen) && IsTag(FileReqClose)
    ensures IsTag(FileReqAckOpen) && IsTag(FileReqAckClose)
  {
  }

  lemma StatusWordsDistinct()
    ensures ServerOnline != ServerOffline
    ensures AllIn(ServerOnline, NotAngle) && AllIn(ServerOffline, NotAngle)
  {
  }

  lemma FileDataTerminatorDistinct()
    ensures FileDataClose != FileDataBegin && FileDataClose != FileDataEnd
  {
  }
}
