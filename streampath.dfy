/** Stream paths: "<torrent id>/<file index>/<encoded file name>", built
    for a file and resolved back to the torrent and file index. The id
    lookup (TorrentID::fromString followed by Session::getTorrent) is a
    finite map from id text to torrent. */
module StreamPath {
  import opened Common
  import opened PieceStore

  /** The suffix of a file still being downloaded. */
  const QB_EXT := ".!qB"

  /** The torrents the session knows, by id text. */
  type Session = map<string, Torrent>

  /** What breakPath resolves a path to. */
  datatype TorrentFile = TorrentFile(torrent: Torrent, fileIndex: int)

  /** The file's actual path without the incomplete-file suffix. */
  function DisplayName(path: string): (name: string)
    ensures EndsWithIgnoreCase(path, QB_EXT) ==> name + path[|path| - |QB_EXT|..] == path
    ensures !EndsWithIgnoreCase(path, QB_EXT) ==> name == path
  {
    if EndsWithIgnoreCase(path, QB_EXT) then path[..|path| - |QB_EXT|] else path
  }

  /** makePath: the torrent id, the file index and the percent-encoded name
      (`encode`: UTF-8 then percent-encoding), separated by slashes. */
  function MakePath(torrent: Torrent, fileIndex: int, encode: string -> string): (path: string)
    requires 0 <= fileIndex < |torrent.files|
    ensures |torrent.id| < |path| && path[..|torrent.id| + 1] == torrent.id + "/"
  {
    torrent.id + "/" + Number(fileIndex) + "/" + encode(DisplayName(torrent.files[fileIndex].path))
  }

  /** The scheme and authority of the local server on `port`. */
  function LocalHost(port: int): string
  {
    "http://localhost:" + Number(port)
  }

  /** streamURL: the path served by the local server on `port`. */
  function StreamUrl(port: int, torrent: Torrent, fileIndex: int, encode: string -> string): (url: string)
    requires 0 <= fileIndex < |torrent.files|
    ensures |LocalHost(port)| < |url| && url[..|LocalHost(port)|] == LocalHost(port)
    ensures url[|LocalHost(port)|..] == "/" + MakePath(torrent, fileIndex, encode)
  {
    LocalHost(port) + "/" + MakePath(torrent, fileIndex, encode)
  }

  /** A request for the path of a file's stream url, with its leading slash
      dropped as processRequest does, resolves to that torrent and file. */
  lemma StreamUrlResolves(port: int, torrent: Torrent, fileIndex: int, encode: string -> string, session: Session)
    requires 0 <= fileIndex < |torrent.files| && fileIndex <= INT32_MAX
    requires '/' !in torrent.id && torrent.id in session && session[torrent.id] == torrent
    ensures var url := StreamUrl(port, torrent, fileIndex, encode);
      BreakPath(MidTail(url[|LocalHost(port)|..], 1), session) == Some(TorrentFile(torrent, fileIndex))
  {
    var path := MakePath(torrent, fileIndex, encode);
    assert MidTail("/" + path, 1) == path;
    MakeBreakRoundTrip(torrent, fileIndex, encode, session);
  }

  /** breakPath. The id is the text before the first slash (the whole path
      when there is none); the index is the text between the next two
      slashes, read as a 32-bit integer. */
  function BreakPath(path: string, session: Session): (r: Option<TorrentFile>)
    ensures r.Some? ==>
      var idEnd := IndexOf(path, '/', 0);
      && idEnd >= 0
      && path[..idEnd] in session && r.value.torrent == session[path[..idEnd]]
      && IndexOf(path, '/', idEnd + 1) > idEnd
      && ToInt(path[idEnd + 1 .. IndexOf(path, '/', idEnd + 1)]) == Some(r.value.fileIndex)
  {
    var torrentIdEnd := IndexOf(path, '/', 0);
    var torrentId := Left(path, torrentIdEnd);
    if torrentId !in session then None
    else
      var fileIndexStart := torrentIdEnd + 1;
      var fileIndexEnd := IndexOf(path, '/', fileIndexStart);
      if fileIndexEnd == -1 then None
      else match ToInt(Mid(path, fileIndexStart, fileIndexEnd - fileIndexStart))
        case None => None
        case Some(fileIndex) =>
          Some(TorrentFile(session[torrentId], fileIndex))
  }

  /** A known id, a slash, a 32-bit number and another slash resolve to
      that torrent and index, whatever follows. */
  lemma BreakPathResolves(id: string, fileIndex: int, rest: string, session: Session)
    requires '/' !in id && id in session
    requires INT32_MIN <= fileIndex <= INT32_MAX
    ensures BreakPath(id + "/" + Number(fileIndex) + "/" + rest, session) == Some(TorrentFile(session[id], fileIndex))
  {
    var n := Number(fileIndex);
    var p := id + "/" + n + "/" + rest;
    assert IndexOf(p, '/', 0) == |id| && Left(p, |id|) == id by {
      SlashAfter([], id, n + "/" + rest);
      assert [] + id + "/" + (n + "/" + rest) == p;
    }
    assert IndexOf(p, '/', |id| + 1) == |id| + 1 + |n| && Mid(p, |id| + 1, |n|) == n by {
      SlashAfter(id + "/", n, rest);
    }
    assert ToInt(n) == Some(fileIndex) by {
      NumberRoundTrip(fileIndex, INT32_MIN, INT32_MAX);
    }
    BreakPathOf(p, session, |id|, |id| + 1 + |n|, fileIndex);
  }

  /** BreakPath once its two slashes are found. */
  lemma BreakPathOf(path: string, session: Session, idEnd: int, indexEnd: int, fileIndex: int)
    requires IndexOf(path, '/', 0) == idEnd && Left(path, idEnd) in session
    requires IndexOf(path, '/', idEnd + 1) == indexEnd != -1
    requires ToInt(Mid(path, idEnd + 1, indexEnd - idEnd - 1)) == Some(fileIndex)
    ensures BreakPath(path, session) == Some(TorrentFile(session[Left(path, idEnd)], fileIndex))
  {
  }

  /** After a prefix, the first slash of `a + "/" + b` is the one right
      after a slash-free `a`. */
  lemma SlashAfter(pre: string, a: string, b: string)
    requires '/' !in a
    ensures IndexOf(pre + a + "/" + b, '/', |pre|) == |pre| + |a|
    ensures (pre + a + "/" + b)[|pre| .. |pre| + |a|] == a
  {
    var p := pre + a + "/" + b;
    forall j | |pre| <= j < |pre| + |a| ensures p[j] != '/' {
      assert p[j] == a[j - |pre|];
    }
    IndexOfAt(p, '/', |pre|, |pre| + |a|);
  }

  /** makePath then breakPath gives back the torrent and the file index,
      for a torrent the session knows under its id. */
  lemma MakeBreakRoundTrip(torrent: Torrent, fileIndex: int, encode: string -> string, session: Session)
    requires 0 <= fileIndex < |torrent.files| && fileIndex <= INT32_MAX
    requires '/' !in torrent.id && torrent.id in session && session[torrent.id] == torrent
    ensures BreakPath(MakePath(torrent, fileIndex, encode), session) == Some(TorrentFile(torrent, fileIndex))
  {
    BreakPathResolves(torrent.id, fileIndex, encode(DisplayName(torrent.files[fileIndex].path)), session);
  }

  /** Without a slash after the id there is no file index. */
  lemma MissingIndexRejected(id: string, rest: string, session: Session)
    requires '/' !in id && '/' !in rest
    ensures BreakPath(id + "/" + rest, session) == None
  {
    var p := id + "/" + rest;
    forall j | 0 <= j < |id| ensures p[j] != '/' {
      assert p[j] == id[j];
    }
    IndexOfAt(p, '/', 0, |id|);
    forall j | |id| + 1 <= j < |p| ensures p[j] != '/' {
      assert p[j] == rest[j - |id| - 1];
    }
  }
}
