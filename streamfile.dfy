/** StreamFile and its read requests: a byte range of one torrent file is
    read piece by piece, each read putting a deadline on the piece it needs
    (or reading it when present) and a graded deadline on the pieces of a
    read-ahead range, which is released when an unfinished request goes
    away. Signals are direct calls here: the `received` handler is
    `BlockReceived`, the `cancelled` handler is `Release`, a piece
    request's `complete` handler is `Complete`. */
module StreamFile {
  import opened Common
  import opened PieceStore
  import FileReader

  const MIN_DEADLINE_TIME := 32
  const MAX_DEADLINE_TIME := 320
  /** The read-ahead buffer, in bytes (32 MiB). */
  const BUFFER_SIZE := 32 * 1024 * 1024

  /** The deadline of the piece being read: the time since the last block,
      as an int, clamped to [32, 320] milliseconds. */
  function DeadlineTime(elapsed: int): (d: int)
    ensures MIN_DEADLINE_TIME <= d <= MAX_DEADLINE_TIME
    ensures MIN_DEADLINE_TIME <= elapsed <= MAX_DEADLINE_TIME ==> d == elapsed
    ensures INT32_MIN <= elapsed < MIN_DEADLINE_TIME ==> d == MIN_DEADLINE_TIME
    ensures MAX_DEADLINE_TIME < elapsed <= INT32_MAX ==> d == MAX_DEADLINE_TIME
  {
    Min(Max(Narrow32(elapsed), MIN_DEADLINE_TIME), MAX_DEADLINE_TIME)
  }

  /** A range of pieces, both ends inclusive; -1 marks an unset end. */
  datatype PieceRange = PieceRange(start: int, end: int)

  const NoRange := PieceRange(-1, -1)

  /** The read-ahead range after piece `index`: the following pieces, as
      many as the buffer holds, and none past the file's last piece. */
  function AdvanceRange(index: int, pieceLength: int, lastPiece: int): (r: PieceRange)
    requires pieceLength > 0 && index < lastPiece
    ensures index < r.start <= r.end <= lastPiece
    ensures r.end - r.start + 1 <= CeilDiv(BUFFER_SIZE, pieceLength)
    ensures r.end == lastPiece || r.end - r.start + 1 == CeilDiv(BUFFER_SIZE, pieceLength)
  {
    PieceRange(index + 1, Min(index + CeilDiv(BUFFER_SIZE, pieceLength), lastPiece))
  }

  /** The deadlines the read-ahead loop sets for the pieces start..end: the
      i-th piece of the range (from i = 1) gets `deadline * (i + 1)` when it
      is missing, and present pieces get nothing. */
  function AdvanceDeadlines(have: set<int>, start: int, end: int, deadline: int): seq<PieceCall>
    decreases if end < start then 0 else end - start + 1
  {
    if end < start then []
    else AdvanceDeadlines(have, start, end - 1, deadline)
         + (if end in have then [] else [SetDeadline(end, deadline * (end - start + 2), false)])
  }

  /** Exactly the missing pieces of the range get a deadline, each the one
      its place in the range calls for, and none is critical. */
  lemma {:induction false} AdvanceDeadlinesExact(have: set<int>, start: int, end: int, deadline: int)
    ensures forall k :: 0 <= k < |AdvanceDeadlines(have, start, end, deadline)| ==>
      AdvanceDeadlines(have, start, end, deadline)[k].SetDeadline?
    ensures forall p, d, c :: SetDeadline(p, d, c) in AdvanceDeadlines(have, start, end, deadline) <==>
      (start <= p <= end && p !in have && d == deadline * (p - start + 2) && !c)
    decreases if end < start then 0 else end - start + 1
  {
    if end >= start {
      AdvanceDeadlinesExact(have, start, end - 1, deadline);
    }
  }

  /** Deadline calls on strictly increasing pieces with strictly
      increasing deadlines. */
  ghost predicate Increasing(calls: seq<PieceCall>)
  {
    forall i, j :: 0 <= i < j < |calls| ==>
      && calls[i].SetDeadline? && calls[j].SetDeadline?
      && calls[i].piece < calls[j].piece && calls[i].deadline < calls[j].deadline
  }

  /** Along the calls, pieces increase, and so do the deadlines when the
      base deadline is positive: the nearer a piece, the sooner it is
      due. */
  lemma {:induction false} AdvanceDeadlinesIncreasing(have: set<int>, start: int, end: int, deadline: int)
    requires deadline > 0
    ensures Increasing(AdvanceDeadlines(have, start, end, deadline))
    decreases if end < start then 0 else end - start + 1
  {
    if end >= start {
      var prefix := AdvanceDeadlines(have, start, end - 1, deadline);
      AdvanceDeadlinesIncreasing(have, start, end - 1, deadline);
      if end !in have {
        var call := SetDeadline(end, deadline * (end - start + 2), false);
        forall k | 0 <= k < |prefix|
          ensures prefix[k].SetDeadline? && prefix[k].piece < call.piece && prefix[k].deadline < call.deadline
        {
          PrefixBelow(have, start, end, deadline, k);
        }
        IncreasingSnoc(prefix, call);
        assert AdvanceDeadlines(have, start, end, deadline) == prefix + [call];
      } else {
        assert AdvanceDeadlines(have, start, end, deadline) == prefix by {
          assert prefix + [] == prefix;
        }
      }
    }
  }

  /** Every call for the pieces before `end` is for an earlier piece, due
      sooner than `end` would be. */
  lemma PrefixBelow(have: set<int>, start: int, end: int, deadline: int, k: int)
    requires deadline > 0 && start <= end
    requires 0 <= k < |AdvanceDeadlines(have, start, end - 1, deadline)|
    ensures var c := AdvanceDeadlines(have, start, end - 1, deadline)[k];
      c.SetDeadline? && c.piece < end && c.deadline < deadline * (end - start + 2)
  {
    var prefix := AdvanceDeadlines(have, start, end - 1, deadline);
    AdvanceDeadlinesExact(have, start, end - 1, deadline);
    var c := prefix[k];
    assert c == SetDeadline(c.piece, c.deadline, c.critical);
    assert c in prefix;
    MulStrict(c.piece - start + 2, end - start + 2, deadline);
  }

  lemma IncreasingSnoc(calls: seq<PieceCall>, call: PieceCall)
    requires Increasing(calls) && call.SetDeadline?
    requires forall k :: 0 <= k < |calls| ==>
      calls[k].SetDeadline? && calls[k].piece < call.piece && calls[k].deadline < call.deadline
    ensures Increasing(calls + [call])
  {
    var r := calls + [call];
    forall i, j | 0 <= i < j < |r|
      ensures r[i].SetDeadline? && r[j].SetDeadline? && r[i].piece < r[j].piece && r[i].deadline < r[j].deadline
    {
      assert r[i] == calls[i];
      if j < |calls| { assert r[j] == calls[j]; }
    }
  }

  /** The pieces start..end, in order. */
  function Span(start: int, end: int): (pieces: seq<int>)
    ensures |pieces| == if end < start then 0 else end - start + 1
    ensures forall k :: 0 <= k < |pieces| ==> pieces[k] == start + k
  {
    if end < start then [] else seq(end - start + 1, k => start + k)
  }

  /** What the `cancelled` handler resets: every piece of the recorded
      range, ends included, or nothing when the range was never set. */
  function ReleaseCalls(range: PieceRange): (calls: seq<PieceCall>)
  {
    if range.start == -1 || range.end == -1 then []
    else FileReader.ResetCalls(Span(range.start, range.end))
  }

  /** Releasing a recorded range resets each of its pieces exactly once, in
      order, and no other piece. */
  lemma ReleaseExact(range: PieceRange)
    requires range.start != -1 && range.end != -1 && range.start <= range.end
    ensures |ReleaseCalls(range)| == range.end - range.start + 1
    ensures forall k :: 0 <= k < |ReleaseCalls(range)| ==> ReleaseCalls(range)[k] == ResetDeadline(range.start + k)
    ensures forall p :: ResetDeadline(p) in ReleaseCalls(range) <==> range.start <= p <= range.end
  {
    var calls := ReleaseCalls(range);
    forall p | range.start <= p <= range.end ensures ResetDeadline(p) in calls {
      assert calls[p - range.start] == ResetDeadline(p);
    }
  }

  /** ReadRequestPrivate: where the next byte is read, how many are still
      wanted, whether a block awaits acknowledgement, the read-ahead range
      and the clock reading of the last block. The bytes handed over so far
      are kept as ghost state. */
  class ReadRequest {
    var position: nat
    var leftSize: nat
    var isBlockPending: bool
    var advanceRange: PieceRange
    var lastFeed: int
    ghost const initialPosition: nat
    ghost const maxSize: nat
    ghost var delivered: seq<byte>

    /** The counters move together: every byte handed over moves the
        position by one and shrinks what is left by one. */
    ghost predicate Valid()
      reads this
    {
      && position == initialPosition + |delivered|
      && leftSize + |delivered| == maxSize
    }

    constructor (initialPosition: nat, maxSize: nat, now: int)
      ensures Valid() && delivered == []
      ensures position == initialPosition && leftSize == maxSize
      ensures this.initialPosition == initialPosition && this.maxSize == maxSize
      ensures !isBlockPending && advanceRange == NoRange && lastFeed == now
    {
      position := initialPosition;
      leftSize := maxSize;
      isBlockPending := false;
      advanceRange := NoRange;
      lastFeed := now;
      this.initialPosition := initialPosition;
      this.maxSize := maxSize;
      delivered := [];
    }

    /** Hands over one block: the position moves past it, what is left
        shrinks by it, and the block is the last one exactly when nothing
        is left. */
    method Feed(data: seq<byte>, now: int) returns (isLastBlock: bool)
      requires Valid() && |data| <= leftSize && leftSize != 0
      modifies this
      ensures Valid()
      ensures position == old(position) + |data| && leftSize == old(leftSize) - |data|
      ensures position + leftSize == old(position) + old(leftSize)
      ensures isBlockPending && lastFeed == now && advanceRange == old(advanceRange)
      ensures delivered == old(delivered) + data
      ensures isLastBlock <==> leftSize == 0
    {
      position := position + |data|;
      leftSize := leftSize - |data|;
      isBlockPending := true;
      lastFeed := now;
      delivered := delivered + data;
      isLastBlock := leftSize == 0;
    }

    /** The consumer took the block; the next read may start. */
    method NotifyBlockReceived()
      requires isBlockPending
      modifies this`isBlockPending
      ensures !isBlockPending
    {
      isBlockPending := false;
    }

    /** A block was handed out and the consumer has not taken it yet. */
    function OutstandingRead(): (outstanding: bool)
      reads this
      ensures outstanding <==> isBlockPending
    {
      isBlockPending
    }
  }

  class StreamFile {
    const torrent: Torrent
    const fileIndex: int
    const size: nat
    const lastPiece: int
    const pieceLength: int

    ghost predicate Valid()
      reads this, torrent
    {
      && torrent.Valid()
      && 0 <= fileIndex < |torrent.files|
      && size == torrent.FileSize(fileIndex)
      && pieceLength == torrent.pieceLength
      && lastPiece == LastFilePiece(torrent, fileIndex)
    }

    constructor (fileIndex: int, torrent: Torrent)
      requires torrent.Valid() && 0 <= fileIndex < |torrent.files|
      ensures Valid() && this.torrent == torrent && this.fileIndex == fileIndex
    {
      this.torrent := torrent;
      this.fileIndex := fileIndex;
      size := torrent.FileSize(fileIndex);
      lastPiece := LastFilePiece(torrent, fileIndex);
      pieceLength := torrent.pieceLength;
    }

    /** Where the next read of `r` lies: up to a piece's worth of what is
        left, at the current position. */
    function NextRead(r: ReadRequest): PieceFileInfo
      reads this, torrent, r
      requires Valid()
    {
      torrent.MapFile(fileIndex, r.position, Min(r.leftSize, pieceLength))
    }

    /** The request made for the piece being read: a read if it is present,
        otherwise a critical deadline. */
    static function CurrentCall(have: set<int>, piece: int, deadline: int): PieceCall
    {
      if piece in have then ReadPiece(piece) else SetDeadline(piece, deadline, true)
    }

    /** The bytes handed over so far are the file's bytes from where the
        request started, as long as it started inside the torrent. */
    ghost predicate Exact(r: ReadRequest)
      reads this, torrent, r
      requires Valid()
    {
      var a := torrent.files[fileIndex].offset + r.initialPosition;
      a <= torrent.totalSize ==>
        && a + |r.delivered| <= torrent.totalSize
        && r.delivered == torrent.payload[a .. a + |r.delivered|]
    }

    /** read: a new request for `size` bytes at `position`, with its first
        read started at once (no time has passed since it was created). */
    method Read(position: nat, size: nat, now: int) returns (r: ReadRequest, info: Option<PieceFileInfo>)
      requires Valid()
      modifies torrent`log
      ensures fresh(r) && r.Valid() && Exact(r) && r.delivered == []
      ensures r.position == position && r.leftSize == size && !r.isBlockPending && r.lastFeed == now
      ensures size == 0 ==> info == None && torrent.log == old(torrent.log) && r.advanceRange == NoRange
      ensures size != 0 ==> ReadStarted(r, info, old(torrent.log), NoRange, MIN_DEADLINE_TIME)
    {
      r := new ReadRequest(position, size, now);
      info := DoRead(r, now);
    }

    /** The effect of doRead on a request with bytes left: the read of the
        piece under the position, the read-ahead deadlines when that piece
        is not the last, and the range then recorded for release. */
    ghost predicate ReadStarted(r: ReadRequest, info: Option<PieceFileInfo>, log0: seq<PieceCall>,
                                range0: PieceRange, deadline: int)
      reads this, torrent, r
      requires Valid()
    {
      var next := NextRead(r);
      var current := log0 + [CurrentCall(torrent.have, next.index, deadline)];
      && info == Some(next)
      && (next.index < lastPiece ==>
            var range := AdvanceRange(next.index, pieceLength, lastPiece);
            && r.advanceRange == range
            && torrent.log == current + AdvanceDeadlines(torrent.have, range.start, range.end, deadline))
      && (next.index >= lastPiece ==> r.advanceRange == range0 && torrent.log == current)
    }

    /** doRead: nothing once the request has all its bytes; otherwise the
        next piece read, with a deadline clamped from the time since the
        last block. */
    method DoRead(r: ReadRequest, now: int) returns (info: Option<PieceFileInfo>)
      requires Valid()
      modifies torrent`log, r`advanceRange
      ensures r.leftSize == 0 ==> info == None && torrent.log == old(torrent.log) && r.advanceRange == old(r.advanceRange)
      ensures r.leftSize != 0 ==>
        ReadStarted(r, info, old(torrent.log), old(r.advanceRange), DeadlineTime(now - r.lastFeed))
    {
      if r.leftSize == 0 {
        return None;
      }
      var deadline := DeadlineTime(now - r.lastFeed);
      var next := torrent.MapFile(fileIndex, r.position, Min(r.leftSize, pieceLength));
      if torrent.HavePiece(next.index) {
        torrent.ReadPiece(next.index);
      } else {
        torrent.SetPieceDeadline(next.index, deadline, true);
      }
      if next.index < lastPiece {
        var range := AdvanceRange(next.index, pieceLength, lastPiece);
        ScheduleAdvance(torrent, range.start, range.end, deadline);
        r.advanceRange := range;
      }
      info := Some(next);
    }

    /** The `received` handler: the block is acknowledged and the next read
        starts. */
    method BlockReceived(r: ReadRequest, now: int) returns (info: Option<PieceFileInfo>)
      requires Valid() && r.isBlockPending
      modifies torrent`log, r`advanceRange, r`isBlockPending
      ensures !r.isBlockPending
      ensures r.leftSize == 0 ==> info == None && torrent.log == old(torrent.log) && r.advanceRange == old(r.advanceRange)
      ensures r.leftSize != 0 ==>
        ReadStarted(r, info, old(torrent.log), old(r.advanceRange), DeadlineTime(now - r.lastFeed))
    {
      r.NotifyBlockReceived();
      info := DoRead(r, now);
    }

    /** A piece request's `complete` handler: the request is fed the part of
        the piece that was asked for, whatever bytes the engine returned.
        When everything fed so far was the file's own bytes and the engine
        hands over the piece's real bytes, that stays so. */
    method Complete(r: ReadRequest, info: PieceFileInfo, data: seq<byte>, now: int) returns (isLastBlock: bool)
      requires Valid() && r.Valid()
      requires r.leftSize != 0 && info == NextRead(r)
      modifies r
      ensures r.Valid()
      ensures r.delivered == old(r.delivered) + Mid(data, info.start, info.length)
      ensures r.position + r.leftSize == old(r.position) + old(r.leftSize)
      ensures r.isBlockPending && r.lastFeed == now && r.advanceRange == old(r.advanceRange)
      ensures isLastBlock <==> r.leftSize == 0
      ensures old(Exact(r)) && data == torrent.PieceBytes(info.index) ==> Exact(r)
    {
      var a := torrent.files[fileIndex].offset + r.initialPosition;
      var abs := torrent.files[fileIndex].offset + r.position;
      if abs < torrent.totalSize {
        FedBytes(torrent, fileIndex, r.position, r.leftSize);
      } else {
        PastEndFeedsNothing(torrent, fileIndex, r.position, r.leftSize);
      }
      ghost var before := r.delivered;
      var block := Mid(data, info.start, info.length);
      isLastBlock := r.Feed(block, now);
      if data == torrent.PieceBytes(info.index) && a <= torrent.totalSize && abs < torrent.totalSize {
        assert abs == a + |before|;
        assert torrent.payload[a .. abs] + torrent.payload[abs .. abs + |block|] == torrent.payload[a .. abs + |block|];
      }
    }

    /** The destructor and the `cancelled` handler: a request dropped before
        all its bytes arrived releases its read-ahead range. */
    method Release(r: ReadRequest)
      requires Valid()
      modifies torrent`log
      ensures torrent.log == old(torrent.log) + (if r.leftSize != 0 then ReleaseCalls(r.advanceRange) else [])
    {
      if r.leftSize != 0 {
        var range := r.advanceRange;
        if range.start != -1 && range.end != -1 {
          FileReader.ResetPieces(torrent, Span(range.start, range.end));
        }
      }
    }
  }

  /** The read-ahead loop of doRead. */
  method ScheduleAdvance(torrent: Torrent, start: int, end: int, deadline: int)
    modifies torrent`log
    ensures torrent.log == old(torrent.log) + AdvanceDeadlines(torrent.have, start, end, deadline)
  {
    var piece := start;
    while piece <= end
      invariant start <= piece && (piece <= end + 1 || piece == start)
      invariant torrent.log == old(torrent.log) + AdvanceDeadlines(torrent.have, start, piece - 1, deadline)
      decreases end - piece
    {
      if !torrent.HavePiece(piece) {
        torrent.SetPieceDeadline(piece, deadline * (piece - start + 2), false);
      }
      piece := piece + 1;
    }
  }

  /** The last piece of a file (TorrentInfo::filePieces(...).last()): the
      piece of its last byte, or the one before its first piece when the
      file is empty. */
  function LastFilePiece(t: Torrent, fileIndex: int): int
    requires t.pieceLength > 0 && 0 <= fileIndex < |t.files|
  {
    var f := t.files[fileIndex];
    if f.size == 0 then f.offset / t.pieceLength - 1
    else (f.offset + f.size - 1) / t.pieceLength
  }

  /** A non-empty file's last piece is the one its last byte maps to, which
      is a piece of the torrent and not before the file's first piece. */
  lemma LastPieceHoldsLastByte(t: Torrent, fileIndex: int)
    requires t.Valid() && 0 <= fileIndex < |t.files| && t.FileSize(fileIndex) > 0
    ensures LastFilePiece(t, fileIndex) == t.MapFile(fileIndex, t.FileSize(fileIndex) - 1, 1).index
    ensures t.MapFile(fileIndex, 0, 1).index <= LastFilePiece(t, fileIndex) < t.PieceCount()
  {
    var f := t.files[fileIndex];
    DivBelowCeil(f.offset + f.size - 1, t.totalSize, t.pieceLength);
    DivMonotone(f.offset, f.offset + f.size - 1, t.pieceLength);
    assert t.MapFile(fileIndex, 0, 1).index == f.offset / t.pieceLength;
  }

  /** A read inside the torrent is fed a non-empty block of at most what is
      left, and that block is the torrent's bytes at the read position. */
  lemma FedBytes(t: Torrent, fileIndex: int, position: nat, leftSize: nat)
    requires t.Valid() && 0 <= fileIndex < |t.files| && leftSize > 0
    requires t.files[fileIndex].offset + position < t.totalSize
    ensures var info := t.MapFile(fileIndex, position, Min(leftSize, t.pieceLength));
            var fed := Mid(t.PieceBytes(info.index), info.start, info.length);
            var abs := t.files[fileIndex].offset + position;
            && 0 < |fed| <= leftSize && abs + |fed| <= t.totalSize
            && fed == t.payload[abs .. abs + |fed|]
  {
    var abs := t.files[fileIndex].offset + position;
    var pl := t.pieceLength;
    var info := t.MapFile(fileIndex, position, Min(leftSize, pl));
    DivBounds(abs, pl);
    assert info.index == abs / pl && info.start == abs % pl;
    var piece := t.PieceBytes(info.index);
    var lo := info.index * pl;
    assert (info.index + 1) * pl == lo + pl;
    assert |piece| == Min(lo + pl, t.totalSize) - lo;
    var n := Min(info.length, |piece| - info.start);
    assert 0 < n;
    t.PieceSlice(abs, n);
  }

  /** A read at or past the torrent's end is fed nothing. */
  lemma PastEndFeedsNothing(t: Torrent, fileIndex: int, position: nat, leftSize: nat)
    requires t.Valid() && 0 <= fileIndex < |t.files|
    requires t.files[fileIndex].offset + position >= t.totalSize
    ensures var info := t.MapFile(fileIndex, position, Min(leftSize, t.pieceLength));
            info.start == 0 && Mid(t.PieceBytes(info.index), info.start, info.length) == []
  {
  }
}
