/** The request handler of the streaming server: resolves the path to a
    torrent file, answers HEAD with the file's headers and GET with a 206
    reply whose body a TorrentFileReader produces, and turns every HTTP
    error into a plain-text reply. */
module StreamingManager {
  import opened Common
  import opened Http
  import opened PieceStore
  import opened StreamingServer
  import opened StreamRange
  import opened StreamPath
  import opened FileReader

  const STATUS_OK := Status(200, "Ok")
  const STATUS_PARTIAL := Status(206, "Partial Content")
  const NOT_FOUND := Status(404, "Not Found")
  const METHOD_NOT_ALLOWED := Status(405, "Method Not Allowed")
  const INVALID_RANGE := Status(416, "Requested Range Not Satisfiable")

  /** What a request is answered with. */
  datatype Outcome =
    | ServeHead(file: TorrentFile)
    | ServeGet(file: TorrentFile, range: Range)
    | Fail(status: Status)

  /** doGET's range: the whole file without a Range header; otherwise the
      parsed header, rejected when it does not parse or is longer than the
      file. */
  function RequestedRange(headers: HeaderMap, fileSize: int): (r: Option<Range>)
    ensures Get(headers, HEADER_RANGE).None? ==> r == Some(Range(0, fileSize - 1))
    ensures Get(headers, HEADER_RANGE).Some? ==>
      (r.Some? <==> (ExtractRange(Get(headers, HEADER_RANGE).value, fileSize).Some?
                     && ExtractRange(Get(headers, HEADER_RANGE).value, fileSize).value.Size() <= fileSize))
    ensures r.Some? ==> r.value.Size() <= fileSize
    ensures r.Some? && Get(headers, HEADER_RANGE).Some? ==> 0 <= r.value.first <= r.value.last
  {
    match Get(headers, HEADER_RANGE)
    case None => Some(Range(0, fileSize - 1))
    case Some(value) =>
      match ExtractRange(value, fileSize)
      case None => None
      case Some(range) => if range.Size() > fileSize then None else Some(range)
  }

  /** processRequest's decision: an unresolvable path is 404, any method
      but HEAD and GET is 405, HEAD and GET are served, and a bad range is
      416. A HEAD or GET for a file index outside the torrent is 404. */
  function Dispatch(request: Request, session: Session): (o: Outcome)
    ensures o.Fail? ==> o.status in {NOT_FOUND, METHOD_NOT_ALLOWED, INVALID_RANGE}
    ensures o == Fail(NOT_FOUND) <==>
      (BreakPath(MidTail(request.path, 1), session).None?
       || ((request.verb == METHOD_HEAD || request.verb == METHOD_GET)
           && !(0 <= BreakPath(MidTail(request.path, 1), session).value.fileIndex
                  < |BreakPath(MidTail(request.path, 1), session).value.torrent.files|)))
    ensures o.ServeHead? <==> o != Fail(NOT_FOUND) && request.verb == METHOD_HEAD
    ensures o.ServeGet? ==> request.verb == METHOD_GET
    ensures o == Fail(METHOD_NOT_ALLOWED) <==>
      BreakPath(MidTail(request.path, 1), session).Some? && request.verb != METHOD_HEAD && request.verb != METHOD_GET
    ensures o.ServeHead? || o.ServeGet? ==>
      BreakPath(MidTail(request.path, 1), session) == Some(o.file)
      && 0 <= o.file.fileIndex < |o.file.torrent.files|
    ensures o.ServeGet? ==>
      RequestedRange(request.headers, o.file.torrent.FileSize(o.file.fileIndex)) == Some(o.range)
    ensures o == Fail(INVALID_RANGE) <==>
      o != Fail(NOT_FOUND) && request.verb == METHOD_GET
      && RequestedRange(request.headers, BreakPath(MidTail(request.path, 1), session).value.torrent
                          .FileSize(BreakPath(MidTail(request.path, 1), session).value.fileIndex)).None?
  {
    match BreakPath(MidTail(request.path, 1), session)
    case None => Fail(NOT_FOUND)
    case Some(file) =>
      if request.verb != METHOD_HEAD && request.verb != METHOD_GET then Fail(METHOD_NOT_ALLOWED)
      else if !(0 <= file.fileIndex < |file.torrent.files|) then Fail(NOT_FOUND)
      else if request.verb == METHOD_HEAD then ServeHead(file)
      else
        match RequestedRange(request.headers, file.torrent.FileSize(file.fileIndex))
        case None => Fail(INVALID_RANGE)
        case Some(range) => ServeGet(file, range)
  }

  /** doHEAD's headers. */
  function HeadHeaders(fileSize: int, mimeType: string): HeaderMap
  {
    var h1 := Insert([], "accept-ranges", "bytes");
    var h2 := Insert(h1, HEADER_CONNECTION, "close");
    var h3 := Insert(h2, HEADER_CONTENT_LENGTH, Number(fileSize));
    Insert(h3, HEADER_CONTENT_TYPE, mimeType)
  }

  /** doHEAD announces the whole file's length and closes the connection. */
  lemma HeadHeadersSpec(fileSize: int, mimeType: string)
    ensures Sorted(HeadHeaders(fileSize, mimeType))
    ensures Get(HeadHeaders(fileSize, mimeType), HEADER_CONTENT_LENGTH) == Some(Number(fileSize))
    ensures Get(HeadHeaders(fileSize, mimeType), HEADER_CONTENT_TYPE) == Some(mimeType)
    ensures Get(HeadHeaders(fileSize, mimeType), HEADER_CONNECTION) == Some("close")
    ensures Get(HeadHeaders(fileSize, mimeType), "accept-ranges") == Some("bytes")
    ensures CloseAfter(HeadHeaders(fileSize, mimeType))
  {
    var h1 := Insert([], "accept-ranges", "bytes");
    InsertSpec([], "accept-ranges", "bytes");
    var h2 := Insert(h1, HEADER_CONNECTION, "close");
    InsertSpec(h1, HEADER_CONNECTION, "close");
    var h3 := Insert(h2, HEADER_CONTENT_LENGTH, Number(fileSize));
    InsertSpec(h2, HEADER_CONTENT_LENGTH, Number(fileSize));
    InsertSpec(h3, HEADER_CONTENT_TYPE, mimeType);
    DistinctNames();
  }

  /** "bytes <first>-<last>/<file size>". */
  function ContentRange(range: Range, fileSize: int): string
  {
    "bytes " + Number(range.first) + "-" + Number(range.last) + "/" + Number(fileSize)
  }

  /** doGET's headers: the length of the range and where it lies. */
  function GetHeaders(range: Range, fileSize: int, mimeType: string): HeaderMap
  {
    var h1 := Insert([], "accept-ranges", "bytes");
    var h2 := Insert(h1, HEADER_CONTENT_LENGTH, Number(range.Size()));
    var h3 := Insert(h2, HEADER_CONTENT_TYPE, mimeType);
    Insert(h3, HEADER_CONTENT_RANGE, ContentRange(range, fileSize))
  }

  /** doGET announces the range's length and place and leaves the connection
      to close after the reply. */
  lemma GetHeadersSpec(range: Range, fileSize: int, mimeType: string)
    ensures Sorted(GetHeaders(range, fileSize, mimeType))
    ensures Get(GetHeaders(range, fileSize, mimeType), HEADER_CONTENT_LENGTH) == Some(Number(range.Size()))
    ensures Get(GetHeaders(range, fileSize, mimeType), HEADER_CONTENT_RANGE) == Some(ContentRange(range, fileSize))
    ensures Get(GetHeaders(range, fileSize, mimeType), HEADER_CONTENT_TYPE) == Some(mimeType)
    ensures Get(GetHeaders(range, fileSize, mimeType), HEADER_CONNECTION) == None
    ensures Get(GetHeaders(range, fileSize, mimeType), "accept-ranges") == Some("bytes")
    ensures CloseAfter(GetHeaders(range, fileSize, mimeType))
  {
    var h1 := Insert([], "accept-ranges", "bytes");
    InsertSpec([], "accept-ranges", "bytes");
    var h2 := Insert(h1, HEADER_CONTENT_LENGTH, Number(range.Size()));
    InsertSpec(h1, HEADER_CONTENT_LENGTH, Number(range.Size()));
    var h3 := Insert(h2, HEADER_CONTENT_TYPE, mimeType);
    InsertSpec(h2, HEADER_CONTENT_TYPE, mimeType);
    InsertSpec(h3, HEADER_CONTENT_RANGE, ContentRange(range, fileSize));
    DistinctNames();
    NamesCons(h1);
  }

  /** The headers of an error reply: plain text of the message's length. */
  function ErrorHeaders(contentLength: int): HeaderMap
  {
    var h1 := Insert([], HEADER_CONTENT_TYPE, CONTENT_TYPE_TXT);
    Insert(h1, HEADER_CONTENT_LENGTH, Number(contentLength))
  }

  /** An error reply is plain text of the message's length, and the
      connection closes after it. */
  lemma ErrorHeadersSpec(contentLength: int)
    ensures Sorted(ErrorHeaders(contentLength))
    ensures Get(ErrorHeaders(contentLength), HEADER_CONTENT_TYPE) == Some(CONTENT_TYPE_TXT)
    ensures Get(ErrorHeaders(contentLength), HEADER_CONTENT_LENGTH) == Some(Number(contentLength))
    ensures Get(ErrorHeaders(contentLength), HEADER_CONNECTION) == None
    ensures CloseAfter(ErrorHeaders(contentLength))
  {
    var h1 := Insert([], HEADER_CONTENT_TYPE, CONTENT_TYPE_TXT);
    InsertSpec([], HEADER_CONTENT_TYPE, CONTENT_TYPE_TXT);
    InsertSpec(h1, HEADER_CONTENT_LENGTH, Number(contentLength));
    DistinctNames();
    NamesCons(h1);
  }

  const HEADER_CONTENT_RANGE := "content-range"

  lemma DistinctNames()
    ensures HEADER_CONNECTION != HEADER_CONTENT_LENGTH && HEADER_CONNECTION != HEADER_CONTENT_TYPE
    ensures HEADER_CONNECTION != HEADER_CONTENT_RANGE && HEADER_CONNECTION != "accept-ranges"
    ensures HEADER_CONTENT_LENGTH != HEADER_CONTENT_TYPE && HEADER_CONTENT_LENGTH != HEADER_CONTENT_RANGE
    ensures HEADER_CONTENT_LENGTH != "accept-ranges" && HEADER_CONTENT_TYPE != HEADER_CONTENT_RANGE
    ensures "closed" != "keep-alive" && "close" != "keep-alive"
  {
    assert HEADER_CONNECTION[3] != HEADER_CONTENT_LENGTH[3];
    assert HEADER_CONNECTION[3] != HEADER_CONTENT_TYPE[3];
    assert HEADER_CONNECTION[3] != HEADER_CONTENT_RANGE[3];
    assert HEADER_CONTENT_LENGTH[8] != HEADER_CONTENT_TYPE[8];
    assert HEADER_CONTENT_LENGTH[8] != HEADER_CONTENT_RANGE[8];
    assert HEADER_CONTENT_TYPE[8] != HEADER_CONTENT_RANGE[8];
    assert HEADER_CONNECTION[0] != "accept-ranges"[0];
    assert HEADER_CONTENT_LENGTH[0] != "accept-ranges"[0];
  }

  /** The advertised content length reads back as the range size. */
  lemma ContentLengthRoundTrip(range: Range, fileSize: int, mimeType: string)
    requires 0 <= range.Size() <= INT64_MAX
    ensures ToLongLong(ValueOr(GetHeaders(range, fileSize, mimeType), HEADER_CONTENT_LENGTH, "")) == Some(range.Size())
  {
    GetHeadersSpec(range, fileSize, mimeType);
    NumberRoundTrip(range.Size(), INT64_MIN, INT64_MAX);
  }

  /** A range the client states explicitly within the file is served as
      exactly that range. */
  lemma ExplicitRangeServed(first: nat, last: nat, headers: HeaderMap, fileSize: int)
    requires first <= last < fileSize <= INT64_MAX
    requires Get(headers, HEADER_RANGE) == Some(RangeText(first, last))
    ensures RequestedRange(headers, fileSize) == Some(Range(first, last))
  {
    RangeRoundTrip(first, last, fileSize);
  }

  /** The quirk of doGET: a range ending past the end of the file is still
      served, as long as it is not longer than the file. */
  lemma PastEndRangeServed(first: nat, last: nat, headers: HeaderMap, fileSize: int)
    requires first <= last <= INT64_MAX && fileSize <= last && last - first + 1 <= fileSize
    requires Get(headers, HEADER_RANGE) == Some(RangeText(first, last))
    ensures RequestedRange(headers, fileSize) == Some(Range(first, last))
  {
    RangeRoundTrip(first, last, fileSize);
  }

  /** processRequest, with the error path of its catch block. The reply
      head goes to the request's socket; a GET body is left to the returned
      reader; `completed` says the reply is already whole. `errorMessage` is
      the UTF-8 message of each HTTP error. Every reply closes the
      connection after it; only a GET touches a torrent, and then only the
      served torrent's log of piece calls. */
  method ProcessRequest(request: StreamRequest, session: Session, date: string, errorMessage: Status -> seq<byte>)
    returns (reader: TorrentFileReader?, completed: bool)
    requires forall id :: id in session ==> session[id].Valid()
    modifies request, request.sink, session.Values`log
    ensures request.closeAfter && request.sink.isOpen == old(request.sink.isOpen)
    ensures forall t :: t in session.Values ==> t.have == old(t.have)
    ensures !Dispatch(request.request, session).ServeGet? ==>
      forall t :: t in session.Values ==> t.log == old(t.log)
    ensures Dispatch(request.request, session).Fail? ==>
      var status := Dispatch(request.request, session).status;
      && reader == null && completed
      && Sent(request.sink, old(request.sink.isOpen), old(request.sink.written), ErrorHead(status, |errorMessage(status)|, date) + errorMessage(status))
      && request.streamResponse == (if |errorMessage(status)| > 0 then null else old(request.streamResponse))
    ensures Dispatch(request.request, session).ServeHead? ==>
      && reader == null && completed
      && Sent(request.sink, old(request.sink.isOpen), old(request.sink.written), HeadWire(Dispatch(request.request, session).file, date))
      && request.streamResponse == old(request.streamResponse)
    ensures Dispatch(request.request, session).ServeGet? ==>
      var o := Dispatch(request.request, session);
      && reader != null && fresh(reader) && reader.Valid()
      && reader.torrent == o.file.torrent && reader.fileIndex == o.file.fileIndex
      && reader.firstBytePos == o.range.first && reader.lastBytePos == o.range.last
      && (reader.sink == null <==> o.range.Size() == 0)
      && (reader.sink != null ==> reader.sink.sink == request.sink)
      && request.streamResponse == (if reader.sink == null then old(request.streamResponse) else reader.sink)
      && completed == (o.range.Size() == 0)
      && Sent(request.sink, old(request.sink.isOpen), old(request.sink.written), GetWire(o.file, o.range, date))
      && (forall t :: t in session.Values && t != o.file.torrent ==> t.log == old(t.log))
      && o.file.torrent.log == old(o.file.torrent.log) + reader.OpeningCalls()
  {
    var outcome := Dispatch(request.request, session);
    reader, completed := Answer(request, outcome, session, date, errorMessage);
  }

  /** processRequest's reply once the outcome is known. */
  method Answer(request: StreamRequest, o: Outcome, session: Session, date: string, errorMessage: Status -> seq<byte>)
    returns (reader: TorrentFileReader?, completed: bool)
    requires o.ServeHead? || o.ServeGet? ==>
      o.file.torrent in session.Values && o.file.torrent.Valid() && 0 <= o.file.fileIndex < |o.file.torrent.files|
    requires o.ServeGet? ==> 0 <= o.range.first <= o.range.last + 1
    modifies request, request.sink, session.Values`log
    ensures request.closeAfter && request.sink.isOpen == old(request.sink.isOpen)
    ensures forall t :: t in session.Values ==> t.have == old(t.have)
    ensures !o.ServeGet? ==> forall t :: t in session.Values ==> t.log == old(t.log)
    ensures o.Fail? ==>
      && reader == null && completed
      && Sent(request.sink, old(request.sink.isOpen), old(request.sink.written), ErrorHead(o.status, |errorMessage(o.status)|, date) + errorMessage(o.status))
      && request.streamResponse == (if |errorMessage(o.status)| > 0 then null else old(request.streamResponse))
    ensures o.ServeHead? ==>
      && reader == null && completed
      && Sent(request.sink, old(request.sink.isOpen), old(request.sink.written), HeadWire(o.file, date))
      && request.streamResponse == old(request.streamResponse)
    ensures o.ServeGet? ==>
      && reader != null && fresh(reader) && reader.Valid()
      && reader.torrent == o.file.torrent && reader.fileIndex == o.file.fileIndex
      && reader.firstBytePos == o.range.first && reader.lastBytePos == o.range.last
      && (reader.sink == null <==> o.range.Size() == 0)
      && (reader.sink != null ==> reader.sink.sink == request.sink)
      && request.streamResponse == (if reader.sink == null then old(request.streamResponse) else reader.sink)
      && completed == (o.range.Size() == 0)
      && Sent(request.sink, old(request.sink.isOpen), old(request.sink.written), GetWire(o.file, o.range, date))
      && (forall t :: t in session.Values && t != o.file.torrent ==> t.log == old(t.log))
      && o.file.torrent.log == old(o.file.torrent.log) + reader.OpeningCalls()
  {
    match o {
      case Fail(status) =>
        RespondError(request, status, errorMessage(status), date);
        reader, completed := null, true;
      case ServeHead(file) =>
        completed := DoHead(request, file, date);
        reader := null;
      case ServeGet(file, range) =>
        reader, completed := DoGet(request, file, range, date);
    }
  }

  /** `bytes` went out on `sink` if it was open; nothing otherwise. */
  ghost predicate Sent(sink: Sink, wasOpen: bool, before: seq<byte>, bytes: seq<byte>)
    reads sink
  {
    sink.written == before + (if wasOpen then bytes else [])
  }

  /** The bytes of an error reply's head. */
  function ErrorHead(status: Status, contentLength: nat, date: string): seq<byte>
  {
    Latin1(ResponseHead(status, ErrorHeaders(contentLength), date, contentLength))
  }

  /** The bytes of doHEAD's reply. */
  function HeadWire(file: TorrentFile, date: string): seq<byte>
    requires 0 <= file.fileIndex < |file.torrent.files|
  {
    var t, fi := file.torrent, file.fileIndex;
    Latin1(ResponseHead(STATUS_OK, HeadHeaders(t.FileSize(fi), t.files[fi].mimeType), date, 0))
  }

  /** The bytes of doGET's head. */
  function GetWire(file: TorrentFile, range: Range, date: string): seq<byte>
    requires 0 <= file.fileIndex < |file.torrent.files|
  {
    var t, fi := file.torrent, file.fileIndex;
    Latin1(ResponseHead(STATUS_PARTIAL, GetHeaders(range, t.FileSize(fi), t.files[fi].mimeType), date, range.Size()))
  }

  /** The catch block: a plain-text reply carrying the error's message.
      Writing the whole message uses up the response, whose `completed`
      signal lets the request forget it. */
  method RespondError(request: StreamRequest, status: Status, content: seq<byte>, date: string)
    modifies request, request.sink
    ensures request.closeAfter && request.sink.isOpen == old(request.sink.isOpen)
    ensures request.streamResponse == if |content| > 0 then null else old(request.streamResponse)
    ensures Sent(request.sink, old(request.sink.isOpen), old(request.sink.written), ErrorHead(status, |content|, date) + content)
  {
    ghost var before, wasOpen := request.sink.written, request.sink.isOpen;
    ghost var head := ErrorHead(status, |content|, date);
    var response := SendErrorHead(request, status, |content|, date);
    ghost var mid := request.sink.written;
    if |content| > 0 {
      var done := response.Write(content);
      if done {
        var _ := request.ResponseCompleted();
      }
    }
    SentAppend(request.sink, wasOpen, before, mid, head, content);
  }

  /** Two parts sent one after the other are sent together. */
  lemma SentAppend(sink: Sink, wasOpen: bool, before: seq<byte>, mid: seq<byte>, a: seq<byte>, b: seq<byte>)
    requires mid == before + (if wasOpen then a else [])
    requires sink.written == mid + (if wasOpen then b else [])
    ensures Sent(sink, wasOpen, before, a + b)
  {
    if wasOpen {
      assert (before + a) + b == before + (a + b);
    }
  }

  method SendErrorHead(request: StreamRequest, status: Status, contentLength: nat, date: string)
    returns (response: StreamResponse?)
    modifies request, request.sink
    ensures request.sink.isOpen == old(request.sink.isOpen)
    ensures Sent(request.sink, old(request.sink.isOpen), old(request.sink.written), ErrorHead(status, contentLength, date))
    ensures request.closeAfter
    ensures contentLength != 0 ==> response != null && fresh(response) && response.sink == request.sink
                                   && response.maxSize == contentLength && request.streamResponse == response
    ensures contentLength == 0 ==> request.streamResponse == old(request.streamResponse)
  {
    assert CloseAfter(ErrorHeaders(contentLength)) by { ErrorHeadersSpec(contentLength); }
    var completed;
    response, completed := request.Send(status, ErrorHeaders(contentLength), contentLength, date);
  }

  /** doHEAD: the file's headers and no body. */
  method DoHead(request: StreamRequest, file: TorrentFile, date: string) returns (completed: bool)
    requires 0 <= file.fileIndex < |file.torrent.files|
    modifies request, request.sink
    ensures completed && request.closeAfter && request.sink.isOpen == old(request.sink.isOpen)
    ensures request.streamResponse == old(request.streamResponse)
    ensures Sent(request.sink, old(request.sink.isOpen), old(request.sink.written), HeadWire(file, date))
  {
    var t, fi := file.torrent, file.fileIndex;
    assert CloseAfter(HeadHeaders(t.FileSize(fi), t.files[fi].mimeType)) by {
      HeadHeadersSpec(t.FileSize(fi), t.files[fi].mimeType);
    }
    var _, done := request.Send(STATUS_OK, HeadHeaders(t.FileSize(fi), t.files[fi].mimeType), 0, date);
    completed := done;
  }

  /** doGET once the range is settled: the 206 head, then a reader for the
      body. */
  method DoGet(request: StreamRequest, file: TorrentFile, range: Range, date: string)
    returns (reader: TorrentFileReader, completed: bool)
    requires file.torrent.Valid() && 0 <= file.fileIndex < |file.torrent.files|
    requires 0 <= range.first <= range.last + 1
    modifies request, request.sink, file.torrent`log
    ensures request.closeAfter && request.sink.isOpen == old(request.sink.isOpen)
    ensures request.streamResponse == if reader.sink == null then old(request.streamResponse) else reader.sink
    ensures fresh(reader) && reader.Valid()
    ensures file.torrent.log == old(file.torrent.log) + reader.OpeningCalls()
    ensures reader.torrent == file.torrent && reader.fileIndex == file.fileIndex
    ensures reader.firstBytePos == range.first && reader.lastBytePos == range.last
    ensures reader.sink == null <==> range.Size() == 0
    ensures reader.sink != null ==> reader.sink.sink == request.sink
    ensures completed == (range.Size() == 0)
    ensures Sent(request.sink, old(request.sink.isOpen), old(request.sink.written), GetWire(file, range, date))
  {
    var response, done := SendPartialHead(request, file, range, date);
    ghost var before := file.torrent.log;
    reader := new TorrentFileReader(file.torrent, file.fileIndex, range.first, range.last, response);
    reader.OpeningLog(before);
    completed := done;
  }

  /** The 206 head of doGET, and the response object for a non-empty body. */
  method SendPartialHead(request: StreamRequest, file: TorrentFile, range: Range, date: string)
    returns (response: StreamResponse?, completed: bool)
    requires 0 <= file.fileIndex < |file.torrent.files|
    modifies request, request.sink
    ensures response == null <==> range.Size() == 0
    ensures response != null ==> fresh(response) && response.sink == request.sink && response.maxSize == range.Size()
    ensures completed == (range.Size() == 0)
    ensures request.closeAfter && request.sink.isOpen == old(request.sink.isOpen)
    ensures request.streamResponse == if response == null then old(request.streamResponse) else response
    ensures Sent(request.sink, old(request.sink.isOpen), old(request.sink.written), GetWire(file, range, date))
  {
    var t, fi := file.torrent, file.fileIndex;
    var headers := GetHeaders(range, t.FileSize(fi), t.files[fi].mimeType);
    assert CloseAfter(headers) by { GetHeadersSpec(range, t.FileSize(fi), t.files[fi].mimeType); }
    response, completed := request.Send(STATUS_PARTIAL, headers, range.Size(), date);
  }
}
