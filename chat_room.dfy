/**
 * The chat room thread of a one-to-one chat window: the dispatch loop over
 * what the peer sends, and the block-by-block file sender.
 */
module ChatRoom {
  import opened Wrappers
  import opened JavaText
  import opened Tags
  import opened Encode
  import opened Decode
  import opened DataFiles

  /** What one writeObject on the chat socket carries: a String, or a DataFile of `size` bytes. */
  datatype Packet = TextPacket(text: string) | BlockPacket(size: nat)

  /* ================================ sending a file ================================ */


  /** The block-count ceiling MAX_MSG_SIZE / 1024. */
  const MaxBlocks: nat := MaxMsgSize / 1024

  /** getData's sizeOfData: the file length in kilobytes, rounded up. */
  function BlockCount(len: nat): (n: nat)
    ensures len <= n * 1024
    ensures n > 0 ==> (n - 1) * 1024 < len
  {
    if len % 1024 == 0 then len / 1024 else len / 1024 + 1
  }

  /**
   * sizeOfData as getData computes it in Java: the remainder test on the length
   * cast to int, and the kilobyte count cast to int, plus one in int arithmetic.
   * A zero remainder means the same under Java's `%` and Dafny's.
   */
  function JavaBlockCount(len: nat): (n: int)
    ensures IsInt32(n)
  {
    var q := Wrap32(len / 1024);
    if Wrap32(len) % 1024 == 0 then q else Wrap32(q + 1)
  }

  /** Up to 2^41 - 1024 bytes the casts lose nothing: Java's sizeOfData is BlockCount. */
  lemma JavaBlockCountExact(len: nat)
    requires len <= IntMax * 1024
    ensures JavaBlockCount(len) == BlockCount(len)
  {
    var m := (Wrap32(len) - len) / 0x1_0000_0000;
    assert Wrap32(len) == len + (m * 0x40_0000) * 1024;
    ShiftKeepsRemainder(len, m * 0x40_0000);
  }

  lemma ShiftKeepsRemainder(a: int, m: int)
    ensures (a + m * 1024) % 1024 == a % 1024
  {
  }

  /** At 2^41 bytes the kilobyte count wraps to Integer.MIN_VALUE, which the 1000-block refusal lets through. */
  lemma JavaBlockCountWraps()
    ensures JavaBlockCount(0x200_0000_0000) == IntMin
    ensures BlockCount(0x200_0000_0000) > MaxBlocks
  {
  }

  /** Only an empty file has no block. */
  lemma BlockCountZero(len: nat)
    ensures BlockCount(len) == 0 <==> len == 0
  {
  }

  /** The bytes the last of two or more blocks is sent with: what is left after the full kilobytes. */
  function LastBlockBytes(len: nat): (b: nat)
    requires BlockCount(len) >= 2
  {
    len - (BlockCount(len) - 1) * 1024
  }

  /**
   * The length of the buffer block `k` (from 0) goes out in: the default
   * MAX_MSG_SIZE buffer, except that once block n-2 is sent the buffer is
   * replaced by one of the bytes left.
   */
  function BlockSize(len: nat, k: int): nat {
    var n := BlockCount(len);
    if 2 <= n && k == n - 1 then LastBlockBytes(len) else MaxMsgSize
  }

  /** The last buffer holds between 1 and 1024 bytes. */
  lemma LastBlockInRange(len: nat)
    requires BlockCount(len) >= 2
    ensures 1 <= BlockSize(len, BlockCount(len) - 1) <= 1024
    ensures BlockSize(len, BlockCount(len) - 1) == len - (BlockCount(len) - 1) * 1024
  {
  }

  /** The first `count` blocks of the file. */
  function Blocks(len: nat, count: nat): seq<Packet> {
    seq(count, k => BlockPacket(BlockSize(len, k)))
  }

  /** The progress bar settings after each of the first `count` of `n` blocks. */
  function Percentages(n: nat, count: nat): seq<int>
    requires n > 0
  {
    seq(count, k => (k + 1) * 100 / n)
  }

  /**
   * How sendFile ends: the file is over the ceiling; every block and the
   * terminator went out; the worker thread died dividing by a zero block
   * count; the send flag was down and the file empty, so the loop ends at once;
   * or the send flag was down and the busy-wait never sees it again.
   */
  datatype SendEnd = TooLarge | Complete | DivisionByZero | Idle | Stalled

  /** What sendFile puts on the socket and on the progress bar, and how it ends. */
  datatype Transfer = Transfer(packets: seq<Packet>, progress: seq<int>, end: SendEnd)

  /**
   * sendFile on a file of `len` bytes, with the worker run to completion
   * before the loop looks again; `ready` is continueSendFile on entry.
   */
  function TransferOf(len: nat, ready: bool): Transfer {
    var n := BlockCount(len);
    if n > MaxBlocks then Transfer([TextPacket(FileDataClose)], [], TooLarge)
    else if !ready then Transfer([], [0], if n == 0 then Idle else Stalled)
    else if n == 0 then Transfer([BlockPacket(MaxMsgSize)], [0], DivisionByZero)
    else Transfer(Blocks(len, n) + [TextPacket(FileDataClose)], [0] + Percentages(n, n), Complete)
  }

  /** A file over 1000 kilobytes gets only the terminator. */
  lemma TooLargeSendsNoBlock(len: nat, ready: bool)
    ensures BlockCount(len) > MaxBlocks <==> TransferOf(len, ready).end == TooLarge
    ensures BlockCount(len) > MaxBlocks ==> TransferOf(len, ready).packets == [TextPacket(FileDataClose)]
  {
  }

  /** A file within the ceiling goes out as exactly sizeOfData blocks, in order, then the terminator. */
  lemma CompleteTransfer(len: nat)
    requires 1 <= BlockCount(len) <= MaxBlocks
    ensures var t := TransferOf(len, true); var n := BlockCount(len);
      t.end == Complete && |t.packets| == n + 1
      && (forall k :: 0 <= k < n ==> t.packets[k] == BlockPacket(BlockSize(len, k)))
      && t.packets[n] == TextPacket(FileDataClose)
  {
  }

  /** The progress bar stays within 0..100, never moves back, and ends at 100 on a complete transfer. */
  lemma ProgressBounded(len: nat, ready: bool)
    ensures var p := TransferOf(len, ready).progress;
      (forall i :: 0 <= i < |p| ==> 0 <= p[i] <= 100)
      && (forall i, j :: 0 <= i <= j < |p| ==> p[i] <= p[j])
      && (TransferOf(len, ready).end == Complete ==> |p| > 0 && p[|p| - 1] == 100)
  {
    var n := BlockCount(len);
    if n <= MaxBlocks && ready && n > 0 {
      var q := Percentages(n, n);
      PercentagesRise(n);
      var p := [0] + q;
      assert p == TransferOf(len, ready).progress;
      forall i, j | 0 <= i <= j < |p| ensures p[i] <= p[j] {
        if 0 < i {
          assert p[i] == q[i - 1] && p[j] == q[j - 1];
        } else {
          assert p[j] == 0 || p[j] == q[j - 1];
        }
      }
    }
  }

  /** After block k of n the bar shows (k + 1) * 100 / n: from 0 up to 100, never back. */
  lemma PercentagesRise(n: nat)
    requires n > 0
    ensures var q := Percentages(n, n);
      (forall i :: 0 <= i < n ==> 0 <= q[i] <= 100)
      && (forall i, j :: 0 <= i <= j < n ==> q[i] <= q[j])
      && q[n - 1] == 100
  {
    var q := Percentages(n, n);
    forall i | 0 <= i < n ensures 0 <= q[i] <= 100 {
      PercentAt(n, i);
    }
    forall i, j | 0 <= i <= j < n ensures q[i] <= q[j] {
      PercentMonotone(n, i + 1, j + 1);
    }
    PercentAt(n, n - 1);
    WholeIsHundred(n);
  }

  lemma PercentAt(n: nat, k: nat)
    requires k < n
    ensures 0 <= (k + 1) * 100 / n <= 100
  {
    PercentMonotone(n, k + 1, n);
    WholeIsHundred(n);
  }

  lemma WholeIsHundred(n: nat)
    requires n > 0
    ensures n * 100 / n == 100
  {
  }

  lemma PercentMonotone(n: nat, a: nat, b: nat)
    requires 0 < n && a <= b
    ensures a * 100 / n <= b * 100 / n
  {
    MulMonotone(a, b, 100);
    DivMonotone(a * 100, b * 100, n);
  }

  lemma DivMonotone(x: nat, y: nat, n: nat)
    requires 0 < n && x <= y
    ensures x / n <= y / n
  {
    var qx, qy := x / n, y / n;
    if qx > qy {
      MulMonotone(qy + 1, qx, n);
      assert false;
    }
  }

  lemma {:induction false} MulMonotone(a: nat, b: nat, n: nat)
    requires a <= b
    ensures a * n <= b * n
    decreases b - a
  {
    if a < b {
      MulMonotone(a + 1, b, n);
      assert (a + 1) * n == a * n + n;
    }
  }

  /** FILE_DATA_CLOSE goes out exactly when the transfer is too large or complete, and only as the last packet. */
  lemma CloseOnlyAtEnd(len: nat, ready: bool)
    ensures var t := TransferOf(len, ready);
      (TextPacket(FileDataClose) in t.packets <==> t.end == TooLarge || t.end == Complete)
      && forall i :: 0 <= i < |t.packets| - 1 ==> t.packets[i].BlockPacket?
  {
    var t := TransferOf(len, ready);
    var n := BlockCount(len);
    if t.end == Complete {
      assert t.packets[n] == TextPacket(FileDataClose);
    }
  }

  /** An empty file gets one full-size block and never the terminator: 1 * 100 / 0 stops the worker. */
  lemma EmptyFileNeverCloses()
    ensures TransferOf(0, true).packets == [BlockPacket(MaxMsgSize)]
    ensures TextPacket(FileDataClose) !in TransferOf(0, true).packets
  {
  }

  /** The transfer the terminator evidently belongs to: the blocks, then FILE_DATA_CLOSE, for any length. */
  function IntendedTransfer(len: nat): seq<Packet> {
    var n := BlockCount(len);
    if n > MaxBlocks then [TextPacket(FileDataClose)] else Blocks(len, n) + [TextPacket(FileDataClose)]
  }

  /** Every intended transfer ends with the terminator, and it agrees with sendFile on every non-empty file. */
  lemma IntendedTransferCloses(len: nat)
    ensures |IntendedTransfer(len)| > 0 && IntendedTransfer(len)[|IntendedTransfer(len)| - 1] == TextPacket(FileDataClose)
    ensures len > 0 ==> IntendedTransfer(len) == TransferOf(len, true).packets
    ensures IntendedTransfer(0) == [TextPacket(FileDataClose)]
  {
    BlockCountZero(len);
  }

  /* ================================= the receiver ================================= */

  /** What readObject hands the dispatch loop: a String, a DataFile, or a failed read. */
  datatype Unit = Text(s: string) | Block(size: nat) | ReadFailure

  /** The FileOutputStream `out`: null, open on a path, or closed. */
  datatype Sink = NoSink | OpenSink(path: string) | ClosedSink(path: string)

  /** The voice target of the chat window: address text, port and name. */
  datatype VoicePeer = VoicePeer(host: string, port: int, name: string)

  /** What the window shows of the peer: a getMessage result (null as None), or a finished file. */
  datatype Notice = Shown(text: Option<string>) | FileArrived(name: string, kb: nat)

  /** The state the dispatch loop reads and writes. */
  datatype Room = Room(
    isStop: bool, isReceiveFile: bool, isSendFile: bool,
    finishReceive: bool, sizeReceive: nat, nameFileReceive: string,
    out: Sink, voice: Option<VoicePeer>, files: set<string>,
    sent: seq<Packet>, shown: seq<Notice>,
    resolves: string -> bool)

  /** The branch of the dispatch chain a String takes, tests in source order. */
  datatype Branch = AcceptBranch | CloseBranch | FileReqBranch | AckBranch | BeginBranch | EndBranch | MessageBranch

  function BranchOf(s: string): Branch {
    if StartsWith(s, SessionAcceptOpen) then AcceptBranch
    else if s == ChatClose then CloseBranch
    else if CheckFile(s) then FileReqBranch
    else if CheckFeedBack(s) then AckBranch
    else if s == FileDataBegin then BeginBranch
    else if s == FileDataClose then EndBranch
    else MessageBranch
  }

  /** The reply to a file request: Integer.toBinaryString of the port field, which stays 0. */
  const AckText: string := FileReqAckOpen + "0" + FileReqAckClose

  /** The file name of a file request: the text between the first 10 and the last 11 characters. */
  function RequestedName(s: string): (n: string)
    requires CheckFile(s)
  {
    s[10..|s| - 11]
  }

  /** sendMessage(String): the text goes out and it clears isReceiveFile. */
  function SendText(r: Room, t: string): (r': Room) {
    r.(sent := r.sent + [TextPacket(t)], isReceiveFile := false)
  }

  /** The catch block: the partial file goes only if it exists and the transfer had not finished. */
  function Recover(r: Room, dir: string): (r': Room) {
    var path := dir + r.nameFileReceive;
    if path in r.files && !r.finishReceive then r.(files := r.files - {path}) else r
  }

  /** One turn of the loop in ChatRoom.run. */
  function Dispatch(r: Room, dir: string, u: Unit): Room {
    match u
    case ReadFailure => Recover(r, dir)
    case Block(_) =>
      var r1 := r.(sizeReceive := r.sizeReceive + 1);
      if r.out.OpenSink? then r1 else Recover(r1, dir)
    case Text(s) => OnText(r, dir, s)
  }

  /** The chain of tests on a String the loop read. */
  function OnText(r: Room, dir: string, s: string): Room {
    match BranchOf(s)
    case AcceptBranch => AcceptStep(r, dir, s)
    case CloseBranch => SendText(r.(isStop := true), ChatClose)
    case FileReqBranch => FileRequestStep(r, dir, RequestedName(s))
    case AckBranch => SendText(r, FileDataBegin).(isSendFile := false)
    case BeginBranch => BeginStep(r, dir)
    case EndBranch => EndStep(r, dir)
    case MessageBranch => r.(shown := r.shown + [Shown(GetMessage(s))])
  }

  /** SESSION_ACCEPT: the voice target is the last peer of the roster, the catch block if a step threw. */
  function AcceptStep(r: Room, dir: string, s: string): Room {
    var scan := ScanVoice(s, r.resolves);
    var r1 := r.(voice := scan.found);
    if scan.failed then Recover(r1, dir) else r1
  }

  /** FILE_REQ: the name kept, `dir/name` created, the request flag set, and then cleared by the ACK. */
  function FileRequestStep(r: Room, dir: string, name: string): Room {
    var r1 := r.(isReceiveFile := true, nameFileReceive := name, files := r.files + {dir + "/" + name});
    SendText(r1, AckText)
  }

  /** FILE_DATA_BEGIN: a stream opened on `dir + name`, which creates that file. */
  function BeginStep(r: Room, dir: string): Room {
    var path := dir + r.nameFileReceive;
    r.(finishReceive := false, out := OpenSink(path), files := r.files + {path})
  }

  /** FILE_DATA_CLOSE: the arrival shown, the counter reset, the stream closed; a null stream throws. */
  function EndStep(r: Room, dir: string): Room {
    var r1 := r.(shown := r.shown + [FileArrived(r.nameFileReceive, r.sizeReceive)], sizeReceive := 0);
    match r.out
    case NoSink => Recover(r1, dir)
    case OpenSink(p) => r1.(out := ClosedSink(p), finishReceive := true)
    case ClosedSink(_) => r1.(finishReceive := true)
  }

  /** The loop from `r` over `us`, up to the unit that sets isStop. */
  function Listen(r: Room, dir: string, us: seq<Unit>): Room
    decreases |us|
  {
    if |us| == 0 || r.isStop then r else Listen(Dispatch(r, dir, us[0]), dir, us[1..])
  }

  /* -------------------------- the in-frame roster parse -------------------------- */

  /** What the SESSION_ACCEPT branch leaves: the last peer found, and whether a step threw. */
  datatype VoiceScan = VoiceScan(found: Option<VoicePeer>, failed: bool)

  /** `p.split(open)[1].split(close)[0]`; None where an index is out of bounds. */
  function Field(p: string, open: string, close: string): Option<string>
    requires |open| > 0 && |close| > 0
  {
    var a := Split(p, open);
    if |a| < 2 then None
    else
      var b := Split(a[1], close);
      if |b| == 0 then None else Some(b[0])
  }

  /**
   * The three fields of one piece, the address with every `/` removed and
   * trimmed; None where Java throws: a missing field, a port parseInt refuses,
   * or an address InetAddress.getByName cannot resolve.
   */
  function PeerOfPiece(p: string, resolves: string -> bool): (r: Option<VoicePeer>)
    ensures r.Some? ==> resolves(r.value.host) && IsInt32(r.value.port)
  {
    match (Field(p, PeerNameOpen, PeerNameClose), Field(p, IpOpen, IpClose), Field(p, PortOpen, PortClose))
    case (Some(name), Some(raw), Some(port)) =>
      (match ParseInt(port)
       case None => None
       case Some(v) =>
         var ip := Trim(RemoveChar(raw, '/'));
         if resolves(ip) then Some(VoicePeer(ip, v, name)) else None)
    case _ => None
  }

  /** A piece is read only if it contains all three opening tags. */
  predicate Candidate(p: string) {
    Contains(p, PeerNameOpen) && Contains(p, IpOpen) && Contains(p, PortOpen)
  }

  /** The for loop over the pieces, `found` the voiceInfo so far. */
  function ScanPieces(ps: seq<string>, found: Option<VoicePeer>, resolves: string -> bool): VoiceScan
    decreases |ps|
  {
    if |ps| == 0 then VoiceScan(found, false)
    else if !Candidate(ps[0]) then ScanPieces(ps[1..], found, resolves)
    else
      match PeerOfPiece(ps[0], resolves)
      case None => VoiceScan(found, true)
      case Some(v) => ScanPieces(ps[1..], Some(v), resolves)
  }

  /** voiceInfo is reset to null, then set by every well-formed PEER piece in turn. */
  function ScanVoice(s: string, resolves: string -> bool): VoiceScan {
    ScanPieces(Split(s, PeerOpen), None, resolves)
  }

  class ChatRoom {
    /** URL_DIR, the working directory. */
    const dir: string
    /** Whether InetAddress.getByName resolves an address: the name service, an oracle. */
    const resolves: string -> bool

    var isStop: bool
    var isSendFile: bool
    var isReceiveFile: bool

    var continueSendFile: bool
    var finishReceive: bool
    var sizeOfSend: nat
    var sizeOfData: nat
    var sizeFile: nat
    var sizeReceive: nat
    var nameFileReceive: string
    var dataFile: DataFile?

    var out: Sink
    var voice: Option<VoicePeer>
    /** The files that exist, as far as this window knows. */
    var files: set<string>
    var sent: seq<Packet>
    var shown: seq<Notice>
    var progress: seq<int>

    constructor(workDir: string, existing: set<string>, lookup: string -> bool)
      ensures dir == workDir && files == existing && resolves == lookup
      ensures !isStop && !isSendFile && !isReceiveFile && continueSendFile && !finishReceive
      ensures sizeOfSend == 0 && sizeOfData == 0 && sizeFile == 0 && sizeReceive == 0 && nameFileReceive == ""
      ensures dataFile == null && out == NoSink && voice == None && sent == [] && shown == [] && progress == []
    {
      dir := workDir;
      resolves := lookup;
      files := existing;
      isStop, isSendFile, isReceiveFile := false, false, false;
      continueSendFile, finishReceive := true, false;
      sizeOfSend, sizeOfData, sizeFile, sizeReceive := 0, 0, 0, 0;
      nameFileReceive := "";
      dataFile := null;
      out, voice := NoSink, None;
      sent, shown, progress := [], [], [];
    }

    /** The part of the state the dispatch loop works on. */
    function State(): Room
      reads this
    {
      Room(isStop, isReceiveFile, isSendFile, finishReceive, sizeReceive, nameFileReceive,
           out, voice, files, sent, shown, resolves)
    }

    /** Every field the dispatch loop does not touch, as it was. */
    twostate predicate SenderUnchanged()
      reads this
    {
      unchanged(this`continueSendFile, this`sizeOfSend, this`sizeOfData, this`sizeFile,
                this`dataFile, this`progress)
    }

    /** Every field of the dispatch loop except the flags and the packets a send touches, as it was. */
    twostate predicate ReceiverKept()
      reads this
    {
      unchanged(this`isStop, this`finishReceive, this`sizeReceive, this`nameFileReceive,
                this`out, this`voice, this`files, this`shown)
    }

    /** sendMessage(String): raw text on the socket; it clears isReceiveFile. */
    method SendMessage(t: string)
      modifies this
      ensures sent == old(sent) + [TextPacket(t)] && !isReceiveFile
      ensures isSendFile == old(isSendFile) && ReceiverKept()
      ensures SenderUnchanged()
    {
      sent := sent + [TextPacket(t)];
      isReceiveFile := false;
    }

    /** The catch block of run. */
    method Cleanup()
      modifies this
      ensures State() == Recover(old(State()), dir)
      ensures SenderUnchanged()
    {
      var path := dir + nameFileReceive;
      if path in files && !finishReceive {
        files := files - {path};
      }
    }

    /** The SESSION_ACCEPT branch: voiceInfo from the pieces between PEER tags. */
    method ReadVoice(s: string) returns (failed: bool)
      modifies this
      ensures var scan := ScanVoice(s, resolves);
        voice == scan.found && failed == scan.failed
      ensures State() == old(State()).(voice := voice)
      ensures SenderUnchanged()
    {
      var pieces := Split(s, PeerOpen);
      var found: Option<VoicePeer> := None;
      var i := 0;
      failed := false;
      while i < |pieces|
        invariant 0 <= i <= |pieces|
        invariant ScanPieces(pieces, None, resolves) == ScanPieces(pieces[i..], found, resolves)
      {
        var p := pieces[i];
        assert pieces[i..][1..] == pieces[i + 1..];
        if Candidate(p) {
          var v := PeerOfPiece(p, resolves);
          if v.None? {
            voice := found;
            failed := true;
            return;
          }
          found := v;
        }
        i := i + 1;
      }
      voice := found;
    }

    /** One turn of the loop in run, for the unit readObject returned. */
    method Receive(u: Unit)
      modifies this
      ensures State() == Dispatch(old(State()), dir, u)
      ensures SenderUnchanged()
    {
      match u
      case ReadFailure =>
        Cleanup();
      case Block(_) =>
        sizeReceive := sizeReceive + 1;
        if !out.OpenSink? {
          Cleanup();
        }
      case Text(msg) =>
        ReceiveText(msg);
    }

    /** The chain of tests on a String from readObject. */
    method ReceiveText(msg: string)
      modifies this
      ensures State() == OnText(old(State()), dir, msg)
      ensures SenderUnchanged()
    {
        if StartsWith(msg, SessionAcceptOpen) {
          OnAccept(msg);
        } else if msg == ChatClose {
          isStop := true;
          SendMessage(ChatClose);
        } else if CheckFile(msg) {
          OnFileRequest(msg);
        } else if CheckFeedBack(msg) {
          SendMessage(FileDataBegin);
          isSendFile := false;
        } else if msg == FileDataBegin {
          OnDataBegin();
        } else if msg == FileDataClose {
          OnDataClose();
        } else {
          shown := shown + [Shown(GetMessage(msg))];
        }
    }

    /** The SESSION_ACCEPT branch. */
    method OnAccept(msg: string)
      modifies this
      ensures State() == AcceptStep(old(State()), dir, msg)
      ensures SenderUnchanged()
    {
      var failed := ReadVoice(msg);
      if failed {
        Cleanup();
      }
    }

    /** The FILE_REQ branch: the name between the tags, the file created, the ACK sent. */
    method OnFileRequest(msg: string)
      requires CheckFile(msg)
      modifies this
      ensures State() == FileRequestStep(old(State()), dir, RequestedName(msg))
      ensures SenderUnchanged()
    {
      isReceiveFile := true;
      nameFileReceive := msg[10..|msg| - 11];
      files := files + {dir + "/" + nameFileReceive};
      SendMessage(FileReqAckOpen + "0" + FileReqAckClose);
    }

    /** The FILE_DATA_BEGIN branch. */
    method OnDataBegin()
      modifies this
      ensures State() == BeginStep(old(State()), dir)
      ensures SenderUnchanged()
    {
      finishReceive := false;
      out := OpenSink(dir + nameFileReceive);
      files := files + {dir + nameFileReceive};
    }

    /** The FILE_DATA_CLOSE branch. */
    method OnDataClose()
      modifies this
      ensures State() == EndStep(old(State()), dir)
      ensures SenderUnchanged()
    {
      shown := shown + [FileArrived(nameFileReceive, sizeReceive)];
      sizeReceive := 0;
      match out
      case NoSink =>
        Cleanup();
      case OpenSink(p) =>
        out := ClosedSink(p);
        finishReceive := true;
      case ClosedSink(_) =>
        finishReceive := true;
    }

    /** run: `while (!isStop)` over the units read, the last ones unread once CHAT_CLOSE sets isStop. */
    method Run(us: seq<Unit>)
      modifies this
      ensures State() == Listen(old(State()), dir, us)
      ensures SenderUnchanged()
    {
      var i := 0;
      while i < |us| && !isStop
        invariant 0 <= i <= |us|
        invariant Listen(old(State()), dir, us) == Listen(State(), dir, us[i..])
        invariant SenderUnchanged()
      {
        assert us[i..][1..] == us[i + 1..];
        Receive(us[i]);
        i := i + 1;
      }
    }

    /** The state of the sending loop for a file of `len` bytes, `sizeOfSend` blocks gone. */
    predicate Sending(len: nat)
      reads this, dataFile
    {
      sizeFile == len && sizeOfData == BlockCount(len) && 1 <= sizeOfData && sizeOfSend <= sizeOfData
      && (sizeOfSend < sizeOfData ==>
            dataFile != null && dataFile.data != null && dataFile.data.Length == BlockSize(len, sizeOfSend))
    }

    /**
     * The worker thread body of sendFile: one block out, the buffer for the
     * last block made, the progress bar set, and FILE_DATA_CLOSE after the last.
     */
    method SendNextBlock(ghost len: nat)
      requires Sending(len) && sizeOfSend < sizeOfData
      modifies this
      ensures Sending(len) && sizeOfSend == old(sizeOfSend) + 1
      ensures sent == old(sent) + [BlockPacket(BlockSize(len, old(sizeOfSend)))]
                     + (if sizeOfSend == sizeOfData then [TextPacket(FileDataClose)] else [])
      ensures progress == old(progress) + [sizeOfSend * 100 / sizeOfData]
      ensures continueSendFile
      ensures isReceiveFile == (old(isReceiveFile) && sizeOfSend < sizeOfData)
      ensures isSendFile == (old(isSendFile) && sizeOfSend < sizeOfData)
      ensures ReceiverKept()
    {
      var size := dataFile.GetSize();
      sent := sent + [BlockPacket(size)];
      sizeOfSend := sizeOfSend + 1;
      if sizeOfSend == sizeOfData - 1 {
        dataFile := new DataFile.OfSize(sizeFile - sizeOfSend * 1024);
      }
      progress := progress + [sizeOfSend * 100 / sizeOfData];
      if sizeOfSend >= sizeOfData {
        FinishSend();
      }
      continueSendFile := true;
    }

    /** The end of the last worker: FILE_DATA_CLOSE, sent with isSendFile raised and then lowered. */
    method FinishSend()
      modifies this
      ensures sent == old(sent) + [TextPacket(FileDataClose)] && !isReceiveFile && !isSendFile
      ensures ReceiverKept() && SenderUnchanged()
    {
      isSendFile := true;
      SendMessage(FileDataClose);
      isSendFile := false;
    }

    /** getData: the counters reset, a full default block, the block count rounded up. */
    method GetData(len: nat)
      modifies this
      ensures sizeOfSend == 0 && sizeFile == len && sizeOfData == BlockCount(len)
      ensures dataFile != null && dataFile.data != null && dataFile.data.Length == MaxMsgSize
      ensures continueSendFile == old(continueSendFile) && progress == old(progress)
      ensures ReceiverKept() && sent == old(sent)
      ensures isReceiveFile == old(isReceiveFile) && isSendFile == old(isSendFile)
    {
      sizeOfSend := 0;
      dataFile := new DataFile.Default();
      sizeFile := len;
      sizeOfData := if len % 1024 == 0 then len / 1024 else len / 1024 + 1;
    }

    /** The do-while loop of sendFile once the first worker may start, for a file of at least one block. */
    method SendBlocks(ghost len: nat)
      requires Sending(len) && sizeOfSend == 0 && continueSendFile
      modifies this
      ensures sizeOfSend == sizeOfData == old(sizeOfData) && sizeFile == len && continueSendFile
      ensures sent == old(sent) + Blocks(len, sizeOfData) + [TextPacket(FileDataClose)]
      ensures progress == old(progress) + Percentages(sizeOfData, sizeOfData)
      ensures !isReceiveFile && !isSendFile
      ensures ReceiverKept()
    {
      ghost var n := sizeOfData;
      while sizeOfSend < sizeOfData
        invariant Sending(len) && sizeOfData == n && continueSendFile
        invariant sent == old(sent) + Blocks(len, sizeOfSend) + (if sizeOfSend == n then [TextPacket(FileDataClose)] else [])
        invariant progress == old(progress) + Percentages(n, sizeOfSend)
        invariant isReceiveFile == (old(isReceiveFile) && sizeOfSend < n)
        invariant isSendFile == (old(isSendFile) && sizeOfSend < n)
        invariant ReceiverKept()
        decreases n - sizeOfSend
      {
        ghost var k := sizeOfSend;
        continueSendFile := false;
        SendNextBlock(len);
        assert Blocks(len, k) + [BlockPacket(BlockSize(len, k))] == Blocks(len, k + 1);
        assert Percentages(n, k) + [(k + 1) * 100 / n] == Percentages(n, k + 1);
      }
    }

    /**
     * sendFile on a file of `len` bytes: getData, the ceiling check, then the
     * do-while loop, each worker run to its end before the loop tests again.
     */
    method SendFile(len: nat) returns (end: SendEnd)
      modifies this
      ensures var t := TransferOf(len, old(continueSendFile));
        end == t.end && sent == old(sent) + t.packets && progress == old(progress) + t.progress
      ensures sizeFile == len && sizeOfData == BlockCount(len)
      ensures sizeOfSend == match end case DivisionByZero => 1 case Complete => sizeOfData case _ => 0
      ensures continueSendFile == (end != DivisionByZero && old(continueSendFile))
      ensures isReceiveFile == (old(isReceiveFile) && end != TooLarge && end != Complete)
      ensures isSendFile == (old(isSendFile) && end != TooLarge && end != Complete)
      ensures ReceiverKept()
    {
      GetData(len);
      if sizeOfData > MaxMsgSize / 1024 {
        SendMessage(FileDataClose);
        isSendFile := false;
        return TooLarge;
      }
      progress := progress + [0];
      if !continueSendFile {
        // the worker is never started: an empty file leaves the loop, any other spins on the flag
        return if sizeOfData == 0 then Idle else Stalled;
      }
      if sizeOfData == 0 {
        // the one pass of the do-while: the block goes out, then sizeOfSend * 100 / sizeOfData throws
        continueSendFile := false;
        var size := dataFile.GetSize();
        sent := sent + [BlockPacket(size)];
        sizeOfSend := sizeOfSend + 1;
        return DivisionByZero;
      }
      SendBlocks(len);
      return Complete;
    }
  }
}
