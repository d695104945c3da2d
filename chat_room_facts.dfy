/**
 * What the dispatch loop of a chat window does with the messages the other
 * window sends it: which branch each protocol message takes, the file
 * request handshake, a whole file transfer, a failed read, and the voice
 * target a roster reply leaves.
 */
module ChatRoomFacts {
  import opened Wrappers
  import opened JavaText
  import opened Tags
  import opened Encode
  import opened Decode
  import opened DecodeRoundTrips
  import opened Peers
  import opened Server
  import opened ChatRoom

  /* ------------------------------ the branch chain ------------------------------ */

  /** A file request whose name has no line terminator takes the FILE_REQ branch and yields that name. */
  lemma RequestBranch(n: string)
    requires AllIn(n, Dot)
    ensures BranchOf(SendFile(n)) == FileReqBranch && RequestedName(SendFile(n)) == n
  {
    var s := SendFile(n);
    CheckFileOfSendFile(n);
    assert s[1] == 'F' && SessionAcceptOpen[1] == 'S' && ChatClose[1] == 'C';
  }

  /** A request name with a line terminator fails the checkFile regex and is read as a chat message. */
  lemma UndottedRequestIsMessage(n: string)
    requires !AllIn(n, Dot)
    ensures BranchOf(SendFile(n)) == MessageBranch
  {
    var s := SendFile(n);
    CheckFileOfSendFile(n);
    assert s[1] == 'F' && SessionAcceptOpen[1] == 'S' && ChatClose[1] == 'C';
    assert s[9] == '>' && FileReqAckOpen[9] == '_';
    assert s[6] == 'R' && FileDataBegin[6] == 'D' && FileDataClose[1] == '/';
  }

  /** The reply to a file request takes the feedback branch. */
  lemma AckBranchTaken()
    ensures BranchOf(AckText) == AckBranch
  {
    var s := AckText;
    assert Between(s, FileReqAckOpen, FileReqAckClose) == "0";
    assert s[1] == 'F' && SessionAcceptOpen[1] == 'S' && ChatClose[1] == 'C';
    FileChecksExclusive(s);
  }

  /** The three fixed transfer and close messages each take their own branch. */
  lemma ControlBranches()
    ensures BranchOf(ChatClose) == CloseBranch
    ensures BranchOf(FileDataBegin) == BeginBranch
    ensures BranchOf(FileDataClose) == EndBranch
  {
    assert ChatClose[1] == 'C' && FileDataBegin[1] == 'F' && FileDataClose[1] == '/';
    assert FileReqOpen[6] == 'R' && FileDataBegin[6] == 'D';
    assert FileReqAckOpen[6] == 'R';
    assert !EndsWith(FileDataBegin, FileReqClose) && !EndsWith(FileDataBegin, FileReqAckClose);
  }

  /** A chat message is shown as getMessage reads it, and the text comes back whole when it is plain. */
  lemma ChatTextShown(r: Room, dir: string, m: string)
    ensures BranchOf(ChatText(m)) == MessageBranch
    ensures OnText(r, dir, ChatText(m)) == r.(shown := r.shown + [Shown(GetMessage(ChatText(m)))])
    ensures AllIn(m, Dot) && !Contains(m, ChatMsgClose) ==>
      OnText(r, dir, ChatText(m)).shown == r.shown + [Shown(Some(m))]
  {
    var s := ChatText(m);
    assert s[..|ChatMsgOpen|] == ChatMsgOpen;
    assert s[1] == 'C' && SessionAcceptOpen[1] == 'S' && FileReqOpen[1] == 'F' && FileReqAckOpen[1] == 'F';
    assert s[6] == 'M' && ChatClose[6] == 'C';
    assert FileDataBegin[1] == 'F' && FileDataClose[1] == '/';
    GetMessageOfChatText(m);
  }

  /** The server's roster reply takes the SESSION_ACCEPT branch. */
  lemma RosterBranch(ps: seq<PeerInfo>)
    ensures BranchOf(RosterText(ps)) == AcceptBranch
  {
    var s := RosterText(ps);
    assert s == SessionAcceptOpen + (EntriesText(ps) + SessionAcceptClose);
    assert s[..|SessionAcceptOpen|] == SessionAcceptOpen;
  }

  /* ------------------------------- the handshake ------------------------------- */

  /**
   * A file request records the name, creates `dir/name`, and answers with the
   * ACK; the request flag it raised is lowered again by that answer.
   */
  lemma FileRequestEffect(r: Room, dir: string, n: string)
    requires AllIn(n, Dot)
    ensures var r' := OnText(r, dir, SendFile(n));
      r'.nameFileReceive == n && r'.files == r.files + {dir + "/" + n}
      && r'.sent == r.sent + [TextPacket(AckText)] && !r'.isReceiveFile
      && r'.isStop == r.isStop && r'.isSendFile == r.isSendFile && r'.out == r.out
      && r'.finishReceive == r.finishReceive && r'.sizeReceive == r.sizeReceive && r'.shown == r.shown
  {
    RequestBranch(n);
  }

  /** The ACK makes the requester announce the data and lower its sending flag. */
  lemma AckEffect(r: Room, dir: string)
    ensures OnText(r, dir, AckText)
         == r.(sent := r.sent + [TextPacket(FileDataBegin)], isReceiveFile := false, isSendFile := false)
  {
    AckBranchTaken();
  }

  /* ------------------------------ the receive loop ------------------------------ */

  /** The loop over two runs of units is the loop over the first and then over the second. */
  lemma {:induction false} ListenAppend(r: Room, dir: string, a: seq<Unit>, b: seq<Unit>)
    ensures Listen(r, dir, a + b) == Listen(Listen(r, dir, a), dir, b)
    decreases |a|
  {
    if |a| == 0 {
      assert a + b == b;
    } else if r.isStop {
      assert Listen(r, dir, a) == r;
    } else {
      assert (a + b)[0] == a[0] && (a + b)[1..] == a[1..] + b;
      ListenAppend(Dispatch(r, dir, a[0]), dir, a[1..], b);
    }
  }

  /** CHAT_CLOSE is answered with CHAT_CLOSE and ends the loop: nothing after it is read. */
  lemma CloseStops(r: Room, dir: string, rest: seq<Unit>)
    requires !r.isStop
    ensures Listen(r, dir, [Text(ChatClose)] + rest)
         == r.(isStop := true, sent := r.sent + [TextPacket(ChatClose)], isReceiveFile := false)
  {
    ControlBranches();
    var us := [Text(ChatClose)] + rest;
    assert us[0] == Text(ChatClose);
    var r1 := Dispatch(r, dir, us[0]);
    assert r1.isStop;
    assert Listen(r, dir, us) == Listen(r1, dir, us[1..]);
  }

  predicate AllBlocks(bs: seq<Unit>) {
    forall i :: 0 <= i < |bs| ==> bs[i].Block?
  }

  /** While a stream is open every block adds one to the kilobyte count and nothing else. */
  lemma {:induction false} BlocksCounted(r: Room, dir: string, bs: seq<Unit>)
    requires AllBlocks(bs) && r.out.OpenSink? && !r.isStop
    ensures Listen(r, dir, bs) == r.(sizeReceive := r.sizeReceive + |bs|)
    decreases |bs|
  {
    if |bs| > 0 {
      var r1 := Dispatch(r, dir, bs[0]);
      assert bs[0].Block?;
      assert r1 == r.(sizeReceive := r.sizeReceive + 1);
      assert AllBlocks(bs[1..]) by {
        forall i | 0 <= i < |bs| - 1 ensures bs[1..][i].Block? {
          assert bs[1..][i] == bs[i + 1];
        }
      }
      BlocksCounted(r1, dir, bs[1..]);
    }
  }

  /** FILE_DATA_BEGIN is the begin step. */
  lemma DispatchBegin(r: Room, dir: string)
    ensures Dispatch(r, dir, Text(FileDataBegin)) == BeginStep(r, dir)
  {
    ControlBranches();
  }

  /** FILE_DATA_CLOSE is the end step. */
  lemma DispatchEnd(r: Room, dir: string)
    ensures Dispatch(r, dir, Text(FileDataClose)) == EndStep(r, dir)
  {
    ControlBranches();
  }

  /** FILE_DATA_BEGIN and the blocks after it: the stream is open and the blocks are counted. */
  lemma OpenedAndCounted(r: Room, dir: string, bs: seq<Unit>)
    requires AllBlocks(bs) && !r.isStop
    ensures Listen(r, dir, [Text(FileDataBegin)] + bs) == BeginStep(r, dir).(sizeReceive := r.sizeReceive + |bs|)
  {
    var r1 := BeginStep(r, dir);
    DispatchBegin(r, dir);
    ListenOne(r, dir, Text(FileDataBegin));
    ListenAppend(r, dir, [Text(FileDataBegin)], bs);
    BlocksCounted(r1, dir, bs);
  }

  /** The loop over a single unit is one dispatch. */
  lemma ListenOne(r: Room, dir: string, u: Unit)
    requires !r.isStop
    ensures Listen(r, dir, [u]) == Dispatch(r, dir, u)
  {
    assert [u][1..] == [];
  }

  /**
   * The window after a whole transfer of `k` blocks: the file `dir + name`
   * exists, the stream is closed, the transfer is marked finished, and the
   * arrival is shown with the block count; nothing was sent back.
   */
  function Received(r: Room, dir: string, k: nat): Room {
    var path := dir + r.nameFileReceive;
    r.(finishReceive := true, sizeReceive := 0, out := ClosedSink(path), files := r.files + {path},
       shown := r.shown + [FileArrived(r.nameFileReceive, r.sizeReceive + k)])
  }

  /** FILE_DATA_BEGIN, the blocks, FILE_DATA_CLOSE: the window has received the file. */
  lemma WholeFileReceived(r: Room, dir: string, bs: seq<Unit>)
    requires AllBlocks(bs) && !r.isStop
    ensures Listen(r, dir, [Text(FileDataBegin)] + bs + [Text(FileDataClose)]) == Received(r, dir, |bs|)
  {
    OpenedAndCounted(r, dir, bs);
    var r2 := BeginStep(r, dir).(sizeReceive := r.sizeReceive + |bs|);
    assert Listen(r, dir, [Text(FileDataBegin)] + bs) == r2;
    ListenAppend(r, dir, [Text(FileDataBegin)] + bs, [Text(FileDataClose)]);
    assert Listen(r, dir, [Text(FileDataBegin)] + bs + [Text(FileDataClose)]) == Listen(r2, dir, [Text(FileDataClose)]);
    ListenOne(r2, dir, Text(FileDataClose));
    DispatchEnd(r2, dir);
    assert Listen(r2, dir, [Text(FileDataClose)]) == EndStep(r2, dir);
    BeginThenEnd(r, dir, |bs|, r2);
  }

  /** The begin step, `k` counted blocks and the end step. */
  lemma BeginThenEnd(r: Room, dir: string, k: nat, r2: Room)
    requires r2 == BeginStep(r, dir).(sizeReceive := r.sizeReceive + k)
    ensures EndStep(r2, dir) == Received(r, dir, k)
  {
  }

  /** A read that fails once the transfer is finished deletes nothing. */
  lemma FinishedFileKept(r: Room, dir: string)
    requires r.finishReceive
    ensures Dispatch(r, dir, ReadFailure) == r
  {
  }

  /** A read that fails during a transfer deletes the partial file `dir + name`. */
  lemma PartialFileDeleted(r: Room, dir: string, bs: seq<Unit>)
    requires AllBlocks(bs) && !r.isStop
    ensures Listen(r, dir, [Text(FileDataBegin)] + bs + [ReadFailure]).files == r.files - {dir + r.nameFileReceive}
  {
    OpenedAndCounted(r, dir, bs);
    var r2 := BeginStep(r, dir).(sizeReceive := r.sizeReceive + |bs|);
    ListenAppend(r, dir, [Text(FileDataBegin)] + bs, [ReadFailure]);
    ListenOne(r2, dir, ReadFailure);
  }

  /* -------------------------- the request file left behind -------------------------- */

  /** The file a request creates and the file the stream writes are never the same path. */
  lemma RequestPathDiffers(dir: string, n: string)
    ensures dir + "/" + n != dir + n
  {
    assert |dir + "/" + n| == |dir + n| + 1;
  }

  /**
   * As written: a request, FILE_DATA_BEGIN and a failed read leave the empty
   * `dir/name` the request created, while the cleanup deletes `dir + name`.
   */
  lemma AbortLeavesRequestFile(r: Room, dir: string, n: string)
    requires AllIn(n, Dot) && !r.isStop
    ensures var r' := Listen(r, dir, [Text(SendFile(n)), Text(FileDataBegin), ReadFailure]);
      dir + "/" + n in r'.files && dir + n !in r'.files
  {
    var us := [Text(SendFile(n)), Text(FileDataBegin), ReadFailure];
    RequestBranch(n);
    RequestPathDiffers(dir, n);
    var r1 := Dispatch(r, dir, us[0]);
    assert r1 == FileRequestStep(r, dir, n);
    assert us[1..] == [Text(FileDataBegin)] + [] + [ReadFailure];
    PartialFileDeleted(r1, dir, []);
  }

  /** The request step with the path the stream and the cleanup use. */
  function IntendedRequestStep(r: Room, dir: string, name: string): Room {
    var r1 := r.(isReceiveFile := true, nameFileReceive := name, files := r.files + {dir + name});
    SendText(r1, AckText)
  }

  /** With one path, an aborted transfer leaves no file it created. */
  lemma IntendedAbortLeavesNothing(r: Room, dir: string, n: string)
    requires !r.isStop
    ensures var r1 := IntendedRequestStep(r, dir, n);
      Listen(r1, dir, [Text(FileDataBegin), ReadFailure]).files == r.files - {dir + n}
  {
    var r1 := IntendedRequestStep(r, dir, n);
    assert [Text(FileDataBegin), ReadFailure] == [Text(FileDataBegin)] + [] + [ReadFailure];
    PartialFileDeleted(r1, dir, []);
  }

  /* ------------------------------ the voice target ------------------------------ */

  /** Scanning two runs of pieces is scanning the first, then the second unless the first threw. */
  lemma {:induction false} ScanAppend(ps: seq<string>, qs: seq<string>, found: Option<VoicePeer>, resolves: string -> bool)
    ensures var a := ScanPieces(ps, found, resolves);
      ScanPieces(ps + qs, found, resolves) == if a.failed then a else ScanPieces(qs, a.found, resolves)
    decreases |ps|
  {
    if |ps| == 0 {
      assert ps + qs == qs;
    } else {
      assert (ps + qs)[0] == ps[0] && (ps + qs)[1..] == ps[1..] + qs;
      match PeerOfPiece(ps[0], resolves)
      case None =>
        if !Candidate(ps[0]) {
          ScanAppend(ps[1..], qs, found, resolves);
        }
      case Some(v) =>
        if Candidate(ps[0]) {
          ScanAppend(ps[1..], qs, Some(v), resolves);
        } else {
          ScanAppend(ps[1..], qs, found, resolves);
        }
    }
  }

  /** Every listed peer overwrites the one before: the last well-formed peer is the voice target. */
  lemma LastPeerWins(ps: seq<string>, p: string, found: Option<VoicePeer>, resolves: string -> bool)
    requires Candidate(p) && PeerOfPiece(p, resolves).Some? && !ScanPieces(ps, found, resolves).failed
    ensures ScanPieces(ps + [p], found, resolves) == VoiceScan(PeerOfPiece(p, resolves), false)
  {
    ScanAppend(ps, [p], found, resolves);
    assert [p][1..] == [];
  }

  /**
   * A piece that throws (a missing field, a bad port, an address that does not
   * resolve) ends the scan: the target stays the one before it, and the rest is not read.
   */
  lemma FailedPieceKeepsTarget(ps: seq<string>, p: string, qs: seq<string>, found: Option<VoicePeer>,
                               resolves: string -> bool)
    requires Candidate(p) && PeerOfPiece(p, resolves).None? && !ScanPieces(ps, found, resolves).failed
    ensures ScanPieces(ps + [p] + qs, found, resolves) == VoiceScan(ScanPieces(ps, found, resolves).found, true)
  {
    assert ps + [p] + qs == ps + ([p] + qs);
    ScanAppend(ps, [p] + qs, found, resolves);
  }

  /** The scan's address never holds a `/`: every slash is removed before trimming. */
  lemma {:induction false} ScanHostHasNoSlash(ps: seq<string>, found: Option<VoicePeer>, resolves: string -> bool)
    requires found.Some? ==> '/' !in found.value.host
    ensures var v := ScanPieces(ps, found, resolves).found; v.Some? ==> '/' !in v.value.host
    decreases |ps|
  {
    if |ps| > 0 {
      if Candidate(ps[0]) && PeerOfPiece(ps[0], resolves).Some? {
        var v := PeerOfPiece(ps[0], resolves).value;
        var raw := Field(ps[0], IpOpen, IpClose).value;
        assert '/' !in RemoveChar(raw, '/');
        TrimKeepsOut(RemoveChar(raw, '/'), '/');
        ScanHostHasNoSlash(ps[1..], Some(v), resolves);
      } else if !Candidate(ps[0]) {
        ScanHostHasNoSlash(ps[1..], found, resolves);
      }
    }
  }

  /** Trim returns a piece of its input, so it adds no character. */
  lemma TrimKeepsOut(s: string, c: char)
    requires c !in s
    ensures c !in Trim(s)
  {
    var i :| TrimmedAt(s, Trim(s), i);
    forall k | 0 <= k < |Trim(s)| ensures Trim(s)[k] != c {
      assert Trim(s)[k] == s[i + k];
    }
  }
}
