/** The message builders: every protocol message is its fields wrapped in tag pairs. */
module Encode {
  import opened JavaText
  import opened Tags
  import opened Wrappers

  /** getCreateAccount: a registration carrying the user's name and listening port, in that order. */
  function CreateAccount(name: string, port: string): string {
    SessionOpen + PeerNameOpen + name + PeerNameClose + PortOpen + port + PortClose + SessionClose
  }

  /** The keep-alive layout shared by sendRequest and exit; only the status word differs. */
  function KeepAlive(name: string, status: string): string {
    KeepAliveOpen + PeerNameOpen + name + PeerNameClose + StatusOpen + status + StatusClose + KeepAliveClose
  }

  /** sendRequest: the periodic "still online" keep-alive. */
  function SendRequest(name: string): string {
    KeepAliveOpen + PeerNameOpen + name + PeerNameClose + StatusOpen + ServerOnline + StatusClose + KeepAliveClose
  }

  /** exit: the "going offline" keep-alive. */
  function Exit(name: string): string {
    KeepAliveOpen + PeerNameOpen + name + PeerNameClose + StatusOpen + ServerOffline + StatusClose + KeepAliveClose
  }

  /** getRegister: a `|`-separated record, with no angle-bracket tags at all. */
  function Register(username: string, password: string): string {
    RegisterWord + "|" + username + "|" + password
  }

  /** sendEdit: the old displayed text inside OLD, then the new text inside NEW. */
  function SendEdit(oldText: string, newText: string): string {
    ChatEditOpen + EditOldOpen + oldText + EditOldClose + EditNewOpen + newText + EditNewClose + ChatEditClose
  }

  /** sendRequestChat: asks the peer called `name` for a chat. */
  function SendRequestChat(name: string): string {
    ChatReqOpen + PeerNameOpen + name + PeerNameClose + ChatReqClose
  }

  /** sendFile: announces a file by name. */
  function SendFile(name: string): (r: string)
    ensures |r| == |name| + 21
    ensures r[10..|r| - 11] == name
  {
    FileReqOpen + name + FileReqClose
  }

  /** sendRequest and exit are the same keep-alive, with the RUNNING and STOP status words. */
  lemma KeepAliveStatusOnly(name: string)
    ensures SendRequest(name) == KeepAlive(name, ServerOnline)
    ensures Exit(name) == KeepAlive(name, ServerOffline)
    ensures SendRequest(name) != Exit(name)
  {
    var r := SendRequest(name);
    var e := Exit(name);
    var k := |KeepAliveOpen + PeerNameOpen + name + PeerNameClose + StatusOpen|;
    assert r[k] == 'R' && e[k] == 'S';
  }

  /** A registration record holds no angle bracket unless the user typed one. */
  lemma RegisterHasNoTags(username: string, password: string)
    requires AllIn(username, NotAngle) && AllIn(password, NotAngle)
    ensures AllIn(Register(username, password), NotAngle)
    ensures StartsWith(Register(username, password), RegisterWord + "|")
  {
    var r := Register(username, password);
    assert r[..|RegisterWord + "|"|] == RegisterWord + "|";
  }

  /** A chat message carrying the text `m`. */
  function ChatText(m: string): string {
    ChatMsgOpen + m + ChatMsgClose
  }

  /** A match of `[^<>]*[<>]` as its [start, end) span. */
  datatype Span = Span(start: nat, end: nat)

  /** Matcher.find of `[^<>]*[<>]` from `from`: the leftmost start whose greedy run is followed by `<` or `>`. */
  function FindDelimitedRun(m: string, from: nat): (r: Option<Span>)
    requires from <= |m|
    ensures r.Some? ==> from <= r.value.start < r.value.end <= |m|
    ensures r.Some? ==> r.value.end == RunEnd(m, r.value.start, NotAngle) + 1
    ensures r.None? ==> forall i :: from <= i <= |m| ==> RunEnd(m, i, NotAngle) == |m|
    decreases |m| - from
  {
    var e := RunEnd(m, from, NotAngle);
    if e < |m| then Some(Span(from, e + 1))
    else if from == |m| then None
    else
      var r := FindDelimitedRun(m, from + 1);
      r
  }

  /**
   * sendMessage: the delimiter-scanning loop copies every match and the text
   * between matches back into the result, so the wrapped body is the message itself.
   */
  method SendMessage(message: string) returns (r: string)
    ensures r == ChatText(message)
  {
    var result := "";
    var lastEnd := 0;
    var found := FindDelimitedRun(message, 0);
    while found.Some?
      invariant 0 <= lastEnd <= |message|
      invariant result == message[..lastEnd]
      invariant found.Some? ==> lastEnd <= found.value.start < found.value.end <= |message|
      decreases |message| - lastEnd
    {
      var span := found.value;
      result := result + message[lastEnd..span.start] + message[span.start..span.end];
      lastEnd := span.end;
      found := FindDelimitedRun(message, lastEnd);
    }
    result := result + message[lastEnd..];
    r := ChatMsgOpen + result + ChatMsgClose;
  }
}
