/** TorrentFileReader: feeds one byte range of a torrent file into a
    response body, one piece at a time, while keeping a window of pieces
    ahead of the reader on a download deadline. */
module FileReader {
  import opened Common
  import opened PieceStore
  import opened StreamingServer

  /** Bytes allowed to sit unsent in the socket before another piece read is
      started. */
  const MAX_OUTSTANDING_SIZE := 32 * 1024 * 1024
  /** The read-ahead buffer, in bytes. */
  const BUFFER_SIZE := 30 * 1024 * 1024
  const READ_DEADLINE := 500
  const END_PIECE_DEADLINE := 2000
  /** The downloader's rate floor, in bytes per second. */
  const MIN_DOWNLOAD_RATE := 512000

  /** pieceDownloadTimeMsec: the time one piece takes at the current rate,
      never assuming more than the floor rate. The product of the piece
      length and 1000 is an `int`, so it wraps for pieces of 2147484 bytes
      and more. The source computes the time and does not use it. */
  function PieceDownloadTimeMsec(pieceLength: int, downloadRate: int): (t: int)
    requires pieceLength > 0
    ensures pieceLength * 1000 <= INT32_MAX ==> 0 <= t <= pieceLength * 1000 / MIN_DOWNLOAD_RATE
    ensures -(INT32_MAX / MIN_DOWNLOAD_RATE) <= t <= INT32_MAX / MIN_DOWNLOAD_RATE
  {
    var rate := Max(downloadRate, MIN_DOWNLOAD_RATE);
    var product := Narrow32(pieceLength * 1000);
    WrappedTimeBounds(product, rate);
    TDiv(product, rate)
  }

  /** A quotient of an `int` by a rate at or above the floor rate. */
  lemma WrappedTimeBounds(product: int, rate: int)
    requires INT32_MIN <= product <= INT32_MAX && rate >= MIN_DOWNLOAD_RATE
    ensures product >= 0 ==> 0 <= TDiv(product, rate) <= product / MIN_DOWNLOAD_RATE
    ensures -(INT32_MAX / MIN_DOWNLOAD_RATE) <= TDiv(product, rate) <= INT32_MAX / MIN_DOWNLOAD_RATE
  {
    var magnitude: nat := if product >= 0 then product else -product;
    DivNonNegative(magnitude, rate);
    DivAntitone(magnitude, MIN_DOWNLOAD_RATE, rate);
    DivMonotone(magnitude, INT32_MAX + 1, MIN_DOWNLOAD_RATE);
    assert (INT32_MAX + 1) / MIN_DOWNLOAD_RATE == INT32_MAX / MIN_DOWNLOAD_RATE;
  }

  /** A 4 MiB piece overflows the product: its time comes out negative. */
  lemma LargePieceTimeWraps()
    ensures PieceDownloadTimeMsec(4 * 1024 * 1024, 0) == -196
  {
    assert Narrow32(4 * 1024 * 1024 * 1000) == -100663296;
  }

  lemma DivAntitone(a: nat, b: int, c: int)
    requires 0 < b <= c
    ensures a / c <= a / b
  {
    DivBounds(a, b);
    DivBounds(a, c);
    if a / c > a / b {
      MulMonotone(a / b + 1, a / c, b);
      MulMonotone(b, c, a / c);
    }
  }

  /** The read of the piece at the reader's position: served from disk when
      the piece is present, otherwise asked for with a critical deadline. */
  function ReadCall(have: set<int>, piece: int): PieceCall
  {
    if piece in have then PieceCall.ReadPiece(piece) else SetDeadline(piece, READ_DEADLINE, true)
  }

  /** The pieces prioritised ahead of the reader: scanning up from `from`
      (excluded: `last`), the first `cap` pieces that are missing. */
  function Window(have: set<int>, from: int, last: int, cap: int): seq<int>
    decreases last - from
  {
    if cap <= 0 || from >= last then []
    else if from in have then Window(have, from + 1, last, cap)
    else [from] + Window(have, from + 1, last, cap - 1)
  }

  /** The deadlines given to the window: the k-th missing piece gets
      1000 + 100 * (k + 2) milliseconds, so pieces further ahead are due
      later. */
  function AdvanceCalls(window: seq<int>): (calls: seq<PieceCall>)
    ensures |calls| == |window|
    ensures forall k :: 0 <= k < |calls| ==> calls[k] == SetDeadline(window[k], 1000 + 100 * (k + 2), false)
    ensures forall i, j :: 0 <= i < j < |calls| ==> 1000 < calls[i].deadline < calls[j].deadline
  {
    seq(|window|, k requires 0 <= k < |window| => SetDeadline(window[k], 1000 + 100 * (k + 2), false))
  }

  /** One more window piece adds one more deadline call at the end. */
  lemma AdvanceCallsSnoc(window: seq<int>, piece: int)
    ensures AdvanceCalls(window + [piece]) == AdvanceCalls(window) + [SetDeadline(piece, 1000 + 100 * (|window| + 2), false)]
  {
    var a, b := AdvanceCalls(window + [piece]), AdvanceCalls(window) + [SetDeadline(piece, 1000 + 100 * (|window| + 2), false)];
    forall k | 0 <= k < |a| ensures a[k] == b[k] {
      if k < |window| { assert (window + [piece])[k] == window[k]; }
    }
  }

  function ResetCalls(pieces: seq<int>): (calls: seq<PieceCall>)
    ensures |calls| == |pieces|
    ensures forall k :: 0 <= k < |calls| ==> calls[k] == ResetDeadline(pieces[k])
  {
    seq(|pieces|, k requires 0 <= k < |pieces| => ResetDeadline(pieces[k]))
  }

  /** The window holds at most `cap` pieces, each missing and in
      [from, last), in increasing order. */
  lemma {:induction false} WindowBounds(have: set<int>, from: int, last: int, cap: int)
    decreases last - from
    ensures var w := Window(have, from, last, cap);
      && |w| <= Max(cap, 0)
      && (forall k :: 0 <= k < |w| ==> from <= w[k] < last && w[k] !in have)
      && (forall i, j :: 0 <= i < j < |w| ==> w[i] < w[j])
  {
    if cap > 0 && from < last {
      WindowBounds(have, from + 1, last, if from in have then cap else cap - 1);
    }
  }

  /** The window skips no missing piece: every missing piece between `from`
      and its last element is in it, and when it is shorter than `cap`,
      every missing piece before `last` is. */
  lemma {:induction false} WindowComplete(have: set<int>, from: int, last: int, cap: int, p: int)
    requires from <= p < last && p !in have
    decreases last - from
    ensures var w := Window(have, from, last, cap);
      (|w| < cap || (|w| > 0 && p <= w[|w| - 1])) ==> p in w
  {
    var w := Window(have, from, last, cap);
    if cap > 0 && from < p {
      var cap' := if from in have then cap else cap - 1;
      WindowComplete(have, from + 1, last, cap', p);
      var w' := Window(have, from + 1, last, cap');
      if from !in have {
        assert w == [from] + w';
      }
    }
  }

  /** Splitting the scan at `piece`: the window from `from` is what was
      collected before it followed by the window from it with the rest of
      the room. */
  lemma {:induction false} WindowStep(have: set<int>, from: int, piece: int, last: int, cap: int, got: seq<int>)
    requires Window(have, from, last, cap) == got + Window(have, piece, last, cap - |got|)
    requires |got| < cap && piece < last
    ensures piece in have ==> Window(have, from, last, cap) == got + Window(have, piece + 1, last, cap - |got|)
    ensures piece !in have ==> Window(have, from, last, cap) == (got + [piece]) + Window(have, piece + 1, last, cap - |got + [piece]|)
  {
    if piece !in have {
      assert got + ([piece] + Window(have, piece + 1, last, cap - |got| - 1))
          == (got + [piece]) + Window(have, piece + 1, last, cap - |got| - 1);
    }
  }

  /** The scan of prioritizeAdvancePieces: pieces from `start` up to
      `last`, until `count` missing ones have a deadline. */
  method ScheduleWindow(torrent: Torrent, start: int, last: int, count: int) returns (window: seq<int>)
    modifies torrent`log
    ensures window == Window(torrent.have, start, last, count)
    ensures torrent.log == old(torrent.log) + AdvanceCalls(window)
  {
    window := [];
    var piece := start;
    while |window| < count && piece < last
      invariant start <= piece
      invariant Window(torrent.have, start, last, count) == window + Window(torrent.have, piece, last, count - |window|)
      invariant torrent.log == old(torrent.log) + AdvanceCalls(window)
      decreases last - piece
    {
      WindowStep(torrent.have, start, piece, last, count, window);
      if !torrent.HavePiece(piece) {
        torrent.SetPieceDeadline(piece, 1000 + 100 * (|window| + 2), false);
        AdvanceCallsSnoc(window, piece);
        window := window + [piece];
      }
      piece := piece + 1;
    }
    assert window + [] == window;
  }

  /** Resets the deadline of each piece, in order. */
  method ResetPieces(torrent: Torrent, pieces: seq<int>)
    modifies torrent`log
    ensures torrent.log == old(torrent.log) + ResetCalls(pieces)
  {
    var i := 0;
    while i < |pieces|
      invariant 0 <= i <= |pieces|
      invariant torrent.log == old(torrent.log) + ResetCalls(pieces[..i])
    {
      torrent.ResetPieceDeadline(pieces[i]);
      assert ResetCalls(pieces[..i + 1]) == ResetCalls(pieces[..i]) + [ResetDeadline(pieces[i])];
      i := i + 1;
    }
    assert pieces[..i] == pieces;
  }

  class TorrentFileReader {
    const torrent: Torrent
    const fileIndex: int
    const lastBytePos: int
    const lastPiece: int
    const sink: StreamResponse?
    var firstBytePos: int
    var currentPiece: PieceFileInfo
    var pendingEnqueue: bool
    var advancePieces: seq<int>
    /** Where the range started, and every byte handed to the sink since. */
    ghost const startBytePos: int
    ghost var delivered: seq<byte>

    ghost predicate Valid()
      reads this, sink
    {
      && torrent.Valid()
      && 0 <= fileIndex < |torrent.files|
      && 0 <= startBytePos <= firstBytePos <= lastBytePos + 1
      && lastPiece == torrent.MapFile(fileIndex, lastBytePos, 0).index
      && (sink != null ==> sink.maxSize == lastBytePos - firstBytePos + 1)
      && (currentPiece == NoPiece || currentPiece == Step())
    }

    /** The piece read that starts at the reader's position. */
    function Step(): PieceFileInfo
      reads this
      requires torrent.pieceLength > 0 && 0 <= fileIndex < |torrent.files|
    {
      torrent.MapFile(fileIndex, firstBytePos, Min(lastBytePos - firstBytePos + 1, torrent.pieceLength))
    }

    function AdvanceCount(): int
      requires torrent.pieceLength > 0
    {
      BUFFER_SIZE / torrent.pieceLength
    }

    /** The window ahead of the piece being read. */
    function Advance(): seq<int>
      reads this, torrent
      requires torrent.pieceLength > 0
    {
      Window(torrent.have, currentPiece.index + 1, lastPiece, AdvanceCount())
    }

    predicate CanEnqueue()
      reads this, sink, if sink == null then {} else {sink.sink}
    {
      sink != null && !sink.IsClosed() && pendingEnqueue
    }

    /** The bytes delivered so far are exactly the file's bytes from the
        start of the range to the reader's position. */
    ghost predicate Exact()
      reads this
      requires torrent.Valid() && 0 <= fileIndex < |torrent.files|
    {
      ExactAt(torrent, fileIndex, startBytePos, firstBytePos, delivered)
    }

    /** The bytes handed on for a file's range from `start` up to `first`
        are the file's own bytes there. */
    static ghost predicate ExactAt(t: Torrent, fileIndex: int, start: int, first: int, delivered: seq<byte>)
      requires t.Valid() && 0 <= fileIndex < |t.files|
    {
      var base := t.files[fileIndex].offset;
      && 0 <= base + start <= base + first <= t.totalSize
      && delivered == t.payload[base + start .. base + first]
    }

    /** The deadline asked for the file's last piece when the range reaches
        into it and the piece is missing. */
    function EndPieceCalls(): seq<PieceCall>
      reads this, torrent
      requires torrent.pieceLength > 0 && 0 <= fileIndex < |torrent.files|
    {
      if lastBytePos + torrent.pieceLength >= torrent.FileSize(fileIndex) && lastPiece !in torrent.have
      then [SetDeadline(lastPiece, END_PIECE_DEADLINE, false)]
      else []
    }

    /** The piece calls of the constructor: the first read when the socket
        is open and not backed up, the deadlines of the window ahead when it
        is open, and the last piece's deadline. */
    ghost function OpeningCalls(): seq<PieceCall>
      reads this, torrent, if sink == null then {} else {sink.sink}
      requires torrent.pieceLength > 0 && 0 <= fileIndex < |torrent.files|
    {
      var open := sink != null && !sink.IsClosed();
      (if open && sink.BytesToWrite() < MAX_OUTSTANDING_SIZE then [ReadCall(torrent.have, currentPiece.index)] else [])
      + (if open then AdvanceCalls(Advance()) else [])
      + EndPieceCalls()
    }

    /** The constructor's two cases of the log, as one. */
    lemma OpeningLog(before: seq<PieceCall>)
      requires torrent.pieceLength > 0 && 0 <= fileIndex < |torrent.files|
      requires sink != null && !sink.IsClosed() ==>
        torrent.log == before + (if sink.BytesToWrite() < MAX_OUTSTANDING_SIZE then [ReadCall(torrent.have, currentPiece.index)] else [])
                       + AdvanceCalls(Advance()) + EndPieceCalls()
      requires !(sink != null && !sink.IsClosed()) ==> torrent.log == before + EndPieceCalls()
      ensures torrent.log == before + OpeningCalls()
    {
      var open := sink != null && !sink.IsClosed();
      var first := if open && sink.BytesToWrite() < MAX_OUTSTANDING_SIZE then [ReadCall(torrent.have, currentPiece.index)] else [];
      var ahead := if open then AdvanceCalls(Advance()) else [];
      var last := EndPieceCalls();
      assert OpeningCalls() == first + ahead + last;
      if open {
        assert torrent.log == before + first + ahead + last;
      } else {
        assert first + ahead + last == last;
      }
      assert before + first + ahead + last == before + (first + ahead + last);
    }

    constructor (torrent: Torrent, fileIndex: int, firstBytePos: int, lastBytePos: int, sink: StreamResponse?)
      requires torrent.Valid() && 0 <= fileIndex < |torrent.files|
      requires 0 <= firstBytePos <= lastBytePos + 1
      requires sink != null ==> sink.maxSize == lastBytePos - firstBytePos + 1
      modifies torrent`log
      ensures Valid() && delivered == []
      ensures firstBytePos <= torrent.FileSize(fileIndex) ==> Exact()
      ensures this.torrent == torrent && this.fileIndex == fileIndex && this.sink == sink
      ensures this.firstBytePos == firstBytePos && this.lastBytePos == lastBytePos
      ensures sink != null && !sink.IsClosed() ==>
        var readNow := sink.BytesToWrite() < MAX_OUTSTANDING_SIZE;
        && currentPiece == (if readNow then Step() else NoPiece)
        && pendingEnqueue == !readNow
        && advancePieces == Advance() + [currentPiece.index]
        && torrent.log == old(torrent.log) + (if readNow then [ReadCall(torrent.have, currentPiece.index)] else [])
                          + AdvanceCalls(Advance()) + EndPieceCalls()
      ensures !(sink != null && !sink.IsClosed()) ==>
        currentPiece == NoPiece && pendingEnqueue && advancePieces == [] && torrent.log == old(torrent.log) + EndPieceCalls()
    {
      this.torrent := torrent;
      this.fileIndex := fileIndex;
      this.lastBytePos := lastBytePos;
      this.firstBytePos := firstBytePos;
      this.lastPiece := torrent.MapFile(fileIndex, lastBytePos, 0).index;
      this.sink := sink;
      startBytePos := firstBytePos;
      delivered := [];
      currentPiece := NoPiece;
      advancePieces := [];
      pendingEnqueue := true;
      new;
      TryEnqueueReadPiece();
      if lastBytePos + torrent.pieceLength >= torrent.FileSize(fileIndex) && !torrent.HavePiece(lastPiece) {
        torrent.SetPieceDeadline(lastPiece, END_PIECE_DEADLINE, false);
      }
    }

    /** Starts the read at the reader's position. */
    method ReadNextPiece()
      requires Valid()
      modifies this`currentPiece, this`pendingEnqueue, torrent`log
      ensures Valid()
      ensures currentPiece == Step() && !pendingEnqueue
      ensures torrent.log == old(torrent.log) + [ReadCall(torrent.have, Step().index)]
    {
      pendingEnqueue := false;
      currentPiece := torrent.MapFile(fileIndex, firstBytePos, Min(lastBytePos - firstBytePos + 1, torrent.pieceLength));
      if torrent.HavePiece(currentPiece.index) {
        torrent.ReadPiece(currentPiece.index);
      } else {
        torrent.SetPieceDeadline(currentPiece.index, READ_DEADLINE, true);
      }
    }

    /** Replaces the advance window: deadlines for the missing pieces ahead
        of the current one, then the current piece itself, then a reset of
        every piece the old window held. */
    method PrioritizeAdvancePieces()
      requires Valid()
      modifies this`advancePieces, torrent`log
      ensures Valid()
      ensures advancePieces == Advance() + [currentPiece.index]
      ensures torrent.log == old(torrent.log) + AdvanceCalls(Advance()) + ResetCalls(old(advancePieces))
    {
      var oldAdvancePieces := advancePieces;
      var window := ScheduleWindow(torrent, currentPiece.index + 1, lastPiece, BUFFER_SIZE / torrent.pieceLength);
      advancePieces := window + [currentPiece.index];
      ResetPieces(torrent, oldAdvancePieces);
    }

    /** Does nothing unless the body is open and a read is due; otherwise
        reads the next piece when the socket is not backed up, and in any
        case refreshes the advance window. */
    method TryEnqueueReadPiece()
      requires Valid()
      modifies this`currentPiece, this`pendingEnqueue, this`advancePieces, torrent`log
      ensures Valid()
      ensures !old(CanEnqueue()) ==>
        currentPiece == old(currentPiece) && pendingEnqueue == old(pendingEnqueue)
        && advancePieces == old(advancePieces) && torrent.log == old(torrent.log)
      ensures old(CanEnqueue()) ==>
        var readNow := sink.BytesToWrite() < MAX_OUTSTANDING_SIZE;
        && currentPiece == (if readNow then Step() else old(currentPiece))
        && pendingEnqueue == !readNow
        && advancePieces == Advance() + [currentPiece.index]
        && torrent.log == old(torrent.log) + (if readNow then [ReadCall(torrent.have, currentPiece.index)] else [])
                          + AdvanceCalls(Advance()) + ResetCalls(old(advancePieces))
    {
      if sink == null || sink.IsClosed() || !pendingEnqueue {
        return;
      }
      if sink.BytesToWrite() < MAX_OUTSTANDING_SIZE {
        ReadNextPiece();
      }
      PrioritizeAdvancePieces();
    }

    /** torrentReadPieceFinished: only the awaited piece of this torrent,
        with the body still open, is used. Its bytes from the current
        offset, at most the current length, go to the sink; the reader
        advances past them and asks for more unless it has reached the last
        byte. `completed` is the body's completion signal. */
    method HandleReadPiece(t: Torrent, pieceIndex: int, data: seq<byte>) returns (completed: bool)
      requires Valid()
      requires t == torrent && pieceIndex == currentPiece.index && sink != null && !sink.IsClosed()
               ==> 0 <= pieceIndex < torrent.PieceCount() && currentPiece.start < |data|
      modifies this`firstBytePos, this`currentPiece, this`pendingEnqueue, this`advancePieces, this`delivered, torrent`log
      modifies if sink == null then {} else {sink, sink.sink}
      ensures Valid()
      ensures !(old(t == torrent && pieceIndex == currentPiece.index && sink != null && !sink.IsClosed())) ==>
        && !completed && firstBytePos == old(firstBytePos) && currentPiece == old(currentPiece)
        && pendingEnqueue == old(pendingEnqueue) && advancePieces == old(advancePieces)
        && torrent.log == old(torrent.log) && delivered == old(delivered)
        && (sink != null ==> sink.maxSize == old(sink.maxSize) && sink.sink.written == old(sink.sink.written))
      ensures old(t == torrent && pieceIndex == currentPiece.index && sink != null && !sink.IsClosed()) ==>
        var n := Min(old(currentPiece.length), |data| - old(currentPiece.start));
        var bytes := data[old(currentPiece.start) .. old(currentPiece.start) + n];
        && 0 <= n
        && firstBytePos == old(firstBytePos) + n
        && delivered == old(delivered) + bytes
        && sink.sink.written == old(sink.sink.written) + bytes
        && (completed <==> sink.PendingSize() == 0)
        && (firstBytePos < lastBytePos && sink.BytesToWrite() < MAX_OUTSTANDING_SIZE ==>
              currentPiece == Step() && !pendingEnqueue && advancePieces == Advance() + [currentPiece.index]
              && torrent.log == old(torrent.log) + [ReadCall(torrent.have, currentPiece.index)]
                                + AdvanceCalls(Advance()) + ResetCalls(old(advancePieces)))
        && (firstBytePos < lastBytePos && sink.BytesToWrite() >= MAX_OUTSTANDING_SIZE ==>
              currentPiece == NoPiece && pendingEnqueue && advancePieces == Advance() + [NoPiece.index]
              && torrent.log == old(torrent.log) + AdvanceCalls(Advance()) + ResetCalls(old(advancePieces)))
        && (firstBytePos >= lastBytePos ==>
              currentPiece == NoPiece && !pendingEnqueue && advancePieces == old(advancePieces)
              && torrent.log == old(torrent.log))
      ensures (old(t == torrent && pieceIndex == currentPiece.index && sink != null && !sink.IsClosed())
               && firstBytePos == lastBytePos) ==> !pendingEnqueue && !completed && sink.PendingSize() == 1
      ensures (old(t == torrent && pieceIndex == currentPiece.index && sink != null && !sink.IsClosed())
               && old(Exact()) && data == torrent.PieceBytes(pieceIndex)) ==> Exact()
    {
      if t != torrent || pieceIndex != currentPiece.index || sink == null || sink.IsClosed() {
        return false;
      }
      completed := AcceptPiece(pieceIndex, data);
    }

    /** handleReadPiece past its guard: deliver the chunk, then ask for
        more. */
    method AcceptPiece(pieceIndex: int, data: seq<byte>) returns (completed: bool)
      requires Valid()
      requires 0 <= pieceIndex < torrent.PieceCount() && pieceIndex == currentPiece.index
      requires sink != null && !sink.IsClosed() && currentPiece.start < |data|
      modifies this`firstBytePos, this`currentPiece, this`pendingEnqueue, this`advancePieces, this`delivered, torrent`log
      modifies sink, sink.sink
      ensures Valid()
      ensures var n := Min(old(currentPiece.length), |data| - old(currentPiece.start));
        var bytes := data[old(currentPiece.start) .. old(currentPiece.start) + n];
        && 0 <= n
        && firstBytePos == old(firstBytePos) + n
        && delivered == old(delivered) + bytes
        && sink.sink.written == old(sink.sink.written) + bytes
        && (completed <==> sink.PendingSize() == 0)
        && (firstBytePos < lastBytePos && sink.BytesToWrite() < MAX_OUTSTANDING_SIZE ==>
              currentPiece == Step() && !pendingEnqueue && advancePieces == Advance() + [currentPiece.index]
              && torrent.log == old(torrent.log) + [ReadCall(torrent.have, currentPiece.index)]
                                + AdvanceCalls(Advance()) + ResetCalls(old(advancePieces)))
        && (firstBytePos < lastBytePos && sink.BytesToWrite() >= MAX_OUTSTANDING_SIZE ==>
              currentPiece == NoPiece && pendingEnqueue && advancePieces == Advance() + [NoPiece.index]
              && torrent.log == old(torrent.log) + AdvanceCalls(Advance()) + ResetCalls(old(advancePieces)))
        && (firstBytePos >= lastBytePos ==>
              currentPiece == NoPiece && !pendingEnqueue && advancePieces == old(advancePieces)
              && torrent.log == old(torrent.log))
      ensures firstBytePos == lastBytePos ==> !pendingEnqueue && !completed && sink.PendingSize() == 1
      ensures (old(Exact()) && data == torrent.PieceBytes(pieceIndex)) ==> Exact()
    {
      completed := Deliver(data, pieceIndex);
      TryEnqueueReadPiece();
    }

    /** How many bytes of a piece's data a read hands on: what was asked
        for, cut at the end of the data. */
    static function Chunk(data: seq<byte>, info: PieceFileInfo): int
    {
      Min(info.length, |data| - info.start)
    }

    /** The bytes a read hands on, appended to the payload read so far,
        are the payload up to the end of the read. */
    static lemma ReadExtendsExact(t: Torrent, fileIndex: int, start: int, first: int, last: int,
                                  delivered: seq<byte>, data: seq<byte>, info: PieceFileInfo)
      requires t.Valid() && 0 <= fileIndex < |t.files| && first <= last + 1
      requires ExactAt(t, fileIndex, start, first, delivered) && t.files[fileIndex].offset + first < t.totalSize
      requires info == t.MapFile(fileIndex, first, Min(last - first + 1, t.pieceLength))
      requires 0 <= info.index < t.PieceCount() && data == t.PieceBytes(info.index) && info.start < |data|
      ensures 0 <= info.start <= info.start + Chunk(data, info) <= |data|
      ensures ExactAt(t, fileIndex, start, first + Chunk(data, info),
                      delivered + data[info.start .. info.start + Chunk(data, info)])
    {
      var abs := t.files[fileIndex].offset + first;
      var n := Chunk(data, info);
      assert info.index * t.pieceLength + info.start == abs && 0 <= info.start < t.pieceLength;
      DivUnique(abs, t.pieceLength, info.index, info.start);
      t.PieceSlice(abs, n);
    }

    /** The write half of handleReadPiece: the chunk of the piece's data
        goes to the sink, and the position moves past it. When the data is
        the piece's real content, the bytes delivered stay exactly the
        file's bytes. */
    method Deliver(data: seq<byte>, ghost pieceIndex: int) returns (completed: bool)
      requires Valid()
      requires 0 <= pieceIndex < torrent.PieceCount() && pieceIndex == currentPiece.index
      requires sink != null && !sink.IsClosed() && currentPiece.start < |data|
      modifies this`firstBytePos, this`currentPiece, this`pendingEnqueue, this`delivered, sink, sink.sink
      ensures Valid()
      ensures 0 <= Chunk(data, old(currentPiece)) <= |data| - old(currentPiece.start)
      ensures firstBytePos == old(firstBytePos) + Chunk(data, old(currentPiece))
      ensures delivered == old(delivered) + data[old(currentPiece.start) .. old(currentPiece.start) + Chunk(data, old(currentPiece))]
      ensures sink.sink.written == old(sink.sink.written) + data[old(currentPiece.start) .. old(currentPiece.start) + Chunk(data, old(currentPiece))]
      ensures sink.sink.pendingWrite == old(sink.sink.pendingWrite) + Chunk(data, old(currentPiece))
      ensures sink.sink.isOpen
      ensures completed <==> sink.PendingSize() == 0
      ensures currentPiece == NoPiece && pendingEnqueue == (firstBytePos < lastBytePos)
      ensures (old(Exact()) && data == torrent.PieceBytes(pieceIndex)) ==> Exact()
    {
      ghost var abs := torrent.files[fileIndex].offset + firstBytePos;
      ghost var wasExact := Exact() && data == torrent.PieceBytes(pieceIndex);
      ghost var info, n := currentPiece, Chunk(data, currentPiece);
      ghost var nextFirst, nextDelivered := firstBytePos + n, delivered + data[info.start .. info.start + n];
      assert wasExact ==> ExactAt(torrent, fileIndex, startBytePos, nextFirst, nextDelivered) by {
        if wasExact {
          assert abs < torrent.totalSize && currentPiece == Step();
          ReadExtendsExact(torrent, fileIndex, startBytePos, firstBytePos, lastBytePos, delivered, data, info);
        }
      }
      completed := WriteChunk(data, pieceIndex);
      assert firstBytePos == nextFirst && delivered == nextDelivered;
    }

    /** Deliver without the ghost argument about the bytes delivered. */
    method WriteChunk(data: seq<byte>, ghost pieceIndex: int) returns (completed: bool)
      requires Valid()
      requires 0 <= pieceIndex < torrent.PieceCount() && pieceIndex == currentPiece.index
      requires sink != null && !sink.IsClosed() && currentPiece.start < |data|
      modifies this`firstBytePos, this`currentPiece, this`pendingEnqueue, this`delivered, sink, sink.sink
      ensures Valid()
      ensures 0 <= Chunk(data, old(currentPiece)) <= |data| - old(currentPiece.start)
      ensures firstBytePos == old(firstBytePos) + Chunk(data, old(currentPiece))
      ensures delivered == old(delivered) + data[old(currentPiece.start) .. old(currentPiece.start) + Chunk(data, old(currentPiece))]
      ensures sink.sink.written == old(sink.sink.written) + data[old(currentPiece.start) .. old(currentPiece.start) + Chunk(data, old(currentPiece))]
      ensures sink.sink.pendingWrite == old(sink.sink.pendingWrite) + Chunk(data, old(currentPiece))
      ensures sink.sink.isOpen
      ensures completed <==> sink.PendingSize() == 0
      ensures currentPiece == NoPiece && pendingEnqueue == (firstBytePos < lastBytePos)
    {
      ghost var abs := torrent.files[fileIndex].offset + firstBytePos;
      assert abs < torrent.totalSize && currentPiece == Step();
      assert currentPiece.length == Min(Min(lastBytePos - firstBytePos + 1, torrent.pieceLength), torrent.totalSize - abs);
      var start := currentPiece.start;
      var requiredSize := Chunk(data, currentPiece);
      var bytes := data[start .. start + requiredSize];
      assert 0 <= |bytes| == requiredSize <= lastBytePos - firstBytePos + 1 == sink.maxSize;
      completed := sink.Write(bytes);
      delivered := delivered + bytes;
      firstBytePos := firstBytePos + requiredSize;
      currentPiece := NoPiece;
      pendingEnqueue := firstBytePos < lastBytePos;
    }

    /** torrentReadPieceFailed: the body is closed. */
    method HandleReadPieceFailed()
      modifies if sink == null then {} else {sink.sink}
      ensures sink != null ==> sink.IsClosed() && sink.sink.written == old(sink.sink.written)
    {
      if sink != null {
        sink.Close();
      }
    }

    /** The destructor gives back every piece of the advance window. */
    method Destroy()
      modifies torrent`log
      ensures torrent.log == old(torrent.log) + ResetCalls(advancePieces)
    {
      ResetPieces(torrent, advancePieces);
    }
  }
}
