/** The slice of a BitTorrent torrent that streaming relies on: its piece
    geometry, which pieces are present, and the deadline/read requests made
    to the engine, recorded in order. The engine itself (libtorrent) is not
    part of this model; its file-to-piece mapping is written out here. */
module PieceStore {
  import opened Common

  /** Where a byte range of a file lies: piece, offset in it, and length. */
  datatype PieceFileInfo = PieceFileInfo(index: int, start: int, length: int)

  /** The "no piece" marker the reader uses between reads. */
  const NoPiece := PieceFileInfo(-1, -1, -1)

  /** A request made to the engine. */
  datatype PieceCall =
    | ReadPiece(piece: int)
    | SetDeadline(piece: int, deadline: int, critical: bool)
    | ResetDeadline(piece: int)

  /** One file of the torrent: its path, MIME type, and place in the
      torrent's byte stream. */
  datatype FileEntry = FileEntry(path: string, mimeType: string, offset: nat, size: nat)

  class Torrent {
    /** The torrent's id, as TorrentID::toString prints it. */
    const id: string
    const pieceLength: int
    const totalSize: nat
    const files: seq<FileEntry>
    /** The torrent's content, used only to state which bytes are served. */
    ghost const payload: seq<byte>
    var have: set<int>
    ghost var log: seq<PieceCall>

    ghost predicate Valid()
    {
      && pieceLength > 0
      && |payload| == totalSize
      && forall i :: 0 <= i < |files| ==> files[i].offset + files[i].size <= totalSize
    }

    constructor (id: string, pieceLength: int, totalSize: nat, files: seq<FileEntry>, ghost payload: seq<byte>, have: set<int>)
      requires pieceLength > 0 && |payload| == totalSize
      requires forall i :: 0 <= i < |files| ==> files[i].offset + files[i].size <= totalSize
      ensures Valid()
      ensures this.id == id && this.pieceLength == pieceLength && this.files == files
      ensures this.payload == payload && this.totalSize == totalSize && this.have == have && log == []
    {
      this.id := id;
      this.pieceLength := pieceLength;
      this.totalSize := totalSize;
      this.files := files;
      this.payload := payload;
      this.have := have;
      log := [];
    }

    function PieceCount(): nat
      requires pieceLength > 0
    {
      CeilDiv(totalSize, pieceLength)
    }

    function FileSize(fileIndex: int): nat
      requires 0 <= fileIndex < |files|
    {
      files[fileIndex].size
    }

    predicate HavePiece(piece: int)
      reads this
    {
      piece in have
    }

    /** libtorrent's file_storage::map_file: a position past the torrent's
        end maps to the one-past-last piece with nothing in it; otherwise to
        the piece holding the byte (C++ division) and a length clipped at the
        torrent's end. */
    function MapFile(fileIndex: int, offset: int, size: int): (r: PieceFileInfo)
      requires pieceLength > 0 && 0 <= fileIndex < |files|
      ensures var abs := files[fileIndex].offset + offset;
        && (abs >= totalSize ==> r == PieceFileInfo(PieceCount(), 0, 0))
        && (abs < totalSize ==> r.index * pieceLength + r.start == abs
                                && r.length == Min(size, totalSize - abs))
        && (0 <= abs < totalSize ==> 0 <= r.start < pieceLength && 0 <= r.index < PieceCount())
    {
      var abs := files[fileIndex].offset + offset;
      if abs >= totalSize then PieceFileInfo(PieceCount(), 0, 0)
      else
        var index, start := TDiv(abs, pieceLength), TMod(abs, pieceLength);
        assert 0 <= abs ==> 0 <= index < PieceCount() && 0 <= start < pieceLength by {
          if 0 <= abs { PieceOfPosition(abs, totalSize, pieceLength); }
        }
        PieceFileInfo(index, start, if abs + size > totalSize then totalSize - abs else size)
    }

    static lemma PieceOfPosition(abs: int, total: nat, pieceLength: int)
      requires 0 <= abs < total && pieceLength > 0
      ensures 0 <= TDiv(abs, pieceLength) < CeilDiv(total, pieceLength)
      ensures 0 <= TMod(abs, pieceLength) < pieceLength
    {
      DivNonNegative(abs, pieceLength);
      DivBelowCeil(abs, total, pieceLength);
    }

    /** The bytes the engine hands over for a piece: its slice of the
        payload, the last piece being short. */
    ghost function PieceBytes(piece: int): (data: seq<byte>)
      requires Valid()
    {
      if 0 <= piece && piece * pieceLength < totalSize
      then payload[piece * pieceLength .. Min((piece + 1) * pieceLength, totalSize)]
      else []
    }

    /** A stretch of a piece read at the offset MapFile gives is the same
        stretch of the payload. */
    lemma PieceSlice(abs: int, n: int)
      requires Valid() && 0 <= abs < totalSize
      requires 0 <= n <= |PieceBytes(abs / pieceLength)| - abs % pieceLength
      ensures abs + n <= totalSize
      ensures PieceBytes(abs / pieceLength)[abs % pieceLength .. abs % pieceLength + n] == payload[abs .. abs + n]
    {
      var p := abs / pieceLength;
      DivBounds(abs, pieceLength);
      var lo := p * pieceLength;
      assert (p + 1) * pieceLength == lo + pieceLength;
      var hi := Min(lo + pieceLength, totalSize);
      assert PieceBytes(p) == payload[lo .. hi];
      var s := abs % pieceLength;
      assert lo + s == abs;
      assert payload[lo .. hi][s .. s + n] == payload[abs .. abs + n];
    }

    method SetPieceDeadline(piece: int, deadline: int, critical: bool)
      modifies this`log
      ensures log == old(log) + [SetDeadline(piece, deadline, critical)]
    {
      log := log + [SetDeadline(piece, deadline, critical)];
    }

    method ResetPieceDeadline(piece: int)
      modifies this`log
      ensures log == old(log) + [ResetDeadline(piece)]
    {
      log := log + [ResetDeadline(piece)];
    }

    method ReadPiece(piece: int)
      modifies this`log
      ensures log == old(log) + [PieceCall.ReadPiece(piece)]
    {
      log := log + [PieceCall.ReadPiece(piece)];
    }
  }
}
