# qBittorrent torrent streaming, RSS image cache and log models in Dafny

This project models three parts of qBittorrent and proves properties of them.

**The torrent streaming subsystem** (`src/base/streaming`). A local HTTP server
hands a file of a torrent, while it downloads, to a media player:

- `StreamPath` builds and resolves the path `<torrent id>/<file index>/<name>`.
- `StreamRange` parses the `Range` header (the `bytes` unit of section 14.35
  of RFC 2616, single range only).
- `StreamingManager` dispatches a request. HEAD gets the file's headers, GET
  gets a 206 reply, and every HTTP error gets a plain-text reply.
- `FileReader` (TorrentFileReader) feeds the GET body piece by piece. It puts
  a critical deadline on the piece it needs and graded deadlines on a window
  of pieces ahead, and resets the old window each time it rebuilds it.
- `StreamFile` (StreamFile and ReadRequestPrivate) is the second reader. It is
  a position/left-size counter with a clamped deadline and a read-ahead piece
  range, which is released when an unfinished request is dropped.
- `StreamingServer` holds:
  - the byte budget of a response body;
  - the status and header serialisation and the `closeAfter` rule of `send`;
  - the receive-buffer loop of a connection, with the request parser as an
    oracle;
  - idle expiry;
  - the server's last-in-first-out queue of pending requests, which skips
    requests that have gone away.
- `PieceStore` is the torrent as the streaming code sees it:
  - the piece geometry and the file-to-piece mapping (libtorrent's
    `map_file`);
  - the set of pieces present;
  - a ghost log of every read, deadline and deadline reset asked of the
    engine, in order;
  - the torrent's bytes, as ghost state, used to state that the right bytes
    are served.
- `Http` is the header map. `Http::HeaderMap` is a `QMap`, so it is a list of
  headers kept sorted by name, with `QMap` insertion and lookup proved over
  it.

**The RSS article view's image cache** (`HtmlBrowser`). It is an LRU list of
entries plus a url-to-node map. Entries expire from the back of the list.
`loadResource` decides what to answer before any download starts.

**The execution log's list models** (`LogModel`). `BaseLogModel` is a window
over the logger's messages, newest first, with a memo of built rows.
`LogMessageModel` and `LogPeerModel` build the text and colour of a row.

Objects whose fields the source updates are classes, with the updates as
methods. Examples are the readers, the request, the response, the
connection, the server, the image cache and the log model. Under those
methods sit functions they are proved against: `Window`, `AdvanceDeadlines`,
`Frames`, `PopPending`, `Erase` and `Cleaned`. Clocks are explicit
millisecond arguments. Qt signals are direct calls or returned flags.
`Common` holds the Qt string and number helpers the code relies on:
`indexOf`, `left`, `mid`, `toInt`, `toLongLong`, `QString::number`,
`toLatin1`, and C++ truncating division.

## Model

| member | source | states |
|---|---|---|
| StreamRange.Range.Size | src/base/streaming/streamingmanager.cpp:68-71 | a range is non-empty exactly when first <= last; first + size == last + 1, so a one-position range has size 1 |
| StreamRange.ExtractRange | src/base/streaming/streamingmanager.cpp:74-110 | without '=' there is no range; any accepted value starts with "bytes=" and gives 0 <= first <= last with a positive size |
| StreamRange.RangeRoundTrip | src/base/streaming/streamingmanager.cpp:74-110 | "bytes=first-last" with first <= last is read back as exactly (first, last), whatever the file size |
| StreamRange.InvertedRejected | src/base/streaming/streamingmanager.cpp:106-107 | positions in the wrong order are rejected |
| StreamRange.OpenRangeToEnd | src/base/streaming/streamingmanager.cpp:100-109 | a missing or non-numeric last position becomes fileSize - 1, and the range is rejected when it would then start past that |
| StreamRange.OtherUnitRejected | src/base/streaming/streamingmanager.cpp:81-88 | any unit other than "bytes" is rejected |
| StreamRange.NoDashRejected | src/base/streaming/streamingmanager.cpp:90-92 | with no '-' after the unit there is no range |
| StreamRange.BadFirstRejected | src/base/streaming/streamingmanager.cpp:94-98 | a first position that is not a 64-bit integer is rejected |
| StreamPath.DisplayName | src/base/streaming/streamingmanager.cpp:18-20 | the ".!qB" suffix of an incomplete file is dropped (in any case) and nothing else changes |
| StreamPath.BreakPath | src/base/streaming/streamingmanager.cpp:34-62 | a resolved path has a known id before its first '/', a second '/', and a 32-bit integer between them that is the file index |
| StreamPath.BreakPathResolves | src/base/streaming/streamingmanager.cpp:34-62 | a known id, '/', a 32-bit number and '/' resolve to that torrent and index, whatever follows |
| StreamPath.MakeBreakRoundTrip | src/base/streaming/streamingmanager.cpp:16-62 | breakPath of makePath gives back the same torrent and file index |
| StreamPath.MakePath | src/base/streaming/streamingmanager.cpp:16-26 | the path starts with the torrent id and a slash; with MakeBreakRoundTrip, breakPath reads back the torrent and index |
| StreamPath.StreamUrl | src/base/streaming/streamingmanager.cpp:138-143 | the url is "http://localhost:<port>" followed by "/" and the file's path |
| StreamPath.StreamUrlResolves | src/base/streaming/streamingmanager.cpp:138-143 | the path of a file's stream url, with its leading slash dropped as processRequest does, resolves to that torrent and file index |
| StreamPath.MissingIndexRejected | src/base/streaming/streamingmanager.cpp:51-54 | without a second '/' the path resolves to nothing |
| FileReader.PieceDownloadTimeMsec | src/base/streaming/streamingmanager.cpp:112-116 | while the `int` product of piece length and 1000 does not overflow, the time is between 0 and what one piece takes at the 512000 B/s floor; with the product's wrap-around it always lies within ±4194 ms |
| FileReader.LargePieceTimeWraps | src/base/streaming/streamingmanager.cpp:115 | a 4 MiB piece overflows the `int` product, and its time comes out as -196 ms |
| FileReader.AdvanceCalls | src/base/streaming/streamingmanager.cpp:344-348 | the k-th window piece gets deadline 1000 + 100 * (k + 2), and the deadlines strictly increase along the window |
| FileReader.WindowBounds | src/base/streaming/streamingmanager.cpp:334-350 | the window holds at most `cap` pieces (30 MiB over the piece length in the caller), each missing, from the start piece up to before the last piece, in strictly increasing order |
| FileReader.WindowComplete | src/base/streaming/streamingmanager.cpp:339-350 | the window skips no missing piece: every missing piece up to its last element is in it, and all missing pieces before the last piece are in it when it is not full |
| FileReader.ScheduleWindow | src/base/streaming/streamingmanager.cpp:339-350 | the loop yields exactly the window and logs one deadline per window piece, in order |
| FileReader.ResetPieces | src/base/streaming/streamingmanager.cpp:354-357 | every piece of the list gets one deadline reset, in order |
| FileReader.TorrentFileReader.constructor | src/base/streaming/streamingmanager.cpp:246-268 | the reader starts at the first byte, runs one enqueue step, and puts a 2000 ms deadline on the file's last piece when the range reaches into it and the piece is missing |
| FileReader.TorrentFileReader.OpeningLog | src/base/streaming/streamingmanager.cpp:246-268 | the constructor's piece calls are its first read when the socket is open and not backed up, the deadlines of the window ahead when it is open, then the last piece's deadline |
| FileReader.TorrentFileReader.ReadNextPiece | src/base/streaming/streamingmanager.cpp:301-313 | the current piece is the mapping of min(last - first + 1, pieceLength) bytes at the position; a present piece is read, a missing one gets a critical 500 ms deadline |
| FileReader.TorrentFileReader.TryEnqueueReadPiece | src/base/streaming/streamingmanager.cpp:315-325 | nothing happens unless the sink is open and a read is due; a read starts only below 32 MiB of queued bytes; the window is rebuilt in either case |
| FileReader.TorrentFileReader.PrioritizeAdvancePieces | src/base/streaming/streamingmanager.cpp:327-358 | the new window is the missing pieces ahead followed by the current piece, and every piece of the old window is reset after the new deadlines |
| FileReader.TorrentFileReader.HandleReadPiece | src/base/streaming/streamingmanager.cpp:277-291 | another torrent, another piece or a closed sink changes nothing; otherwise exactly min(length, size - start) bytes from the piece offset go to the sink, the position moves by that much, and reading goes on only while first < last; when the engine hands over the real bytes, all bytes sent are the file's bytes from the range start |
| FileReader.TorrentFileReader.HandleReadPieceFailed | src/base/streaming/streamingmanager.cpp:293-299 | a failed read closes the body without writing |
| FileReader.TorrentFileReader.Destroy | src/base/streaming/streamingmanager.cpp:270-274 | the destructor resets every piece of the current window |
| StreamingManager.RequestedRange | src/base/streaming/streamingmanager.cpp:213-222 | no Range header gives (0, fileSize - 1); with one, a range exists exactly when the header parses and is not longer than the file |
| StreamingManager.Dispatch | src/base/streaming/streamingmanager.cpp:161-177 | an unresolvable path is 404; a resolved path with any method other than HEAD and GET is 405, whatever its file index; a HEAD or GET for a file index outside the torrent is 404, by the model's choice; otherwise HEAD is served, and GET is served or 416 for a bad range; a served file is the one breakPath resolved |
| StreamingManager.HeadHeadersSpec | src/base/streaming/streamingmanager.cpp:197-203 | the HEAD reply has content-length = the file size, the file's MIME type, "accept-ranges: bytes" and "connection: close", so the connection closes after it |
| StreamingManager.GetHeadersSpec | src/base/streaming/streamingmanager.cpp:225-235 | the 206 reply has content-length = range size, content-range = "bytes first-last/fileSize", the MIME type and "accept-ranges: bytes"; it has no connection header, so the connection closes after it |
| StreamingManager.ErrorHeadersSpec | src/base/streaming/streamingmanager.cpp:182-186 | an error reply is plain text whose content-length is the message's byte length, and the connection closes after it |
| StreamingManager.ContentLengthRoundTrip | src/base/streaming/streamingmanager.cpp:228 | the advertised content length reads back as the range size |
| StreamingManager.ExplicitRangeServed | src/base/streaming/streamingmanager.cpp:215-221 | an explicit range inside the file is served as exactly that range |
| StreamingManager.PastEndRangeServed | src/base/streaming/streamingmanager.cpp:218 | a range that ends past the end of the file is still served when it is no longer than the file |
| StreamingManager.ProcessRequest | src/base/streaming/streamingmanager.cpp:161-190 | exactly the reply of the dispatch outcome goes to the socket: error head plus message, HEAD head, or 206 head plus a reader set up on the range; every reply leaves the request set to close the connection and the socket's open flag as it was; the request's response is whatever that reply left; no torrent's piece set changes; error and HEAD replies leave every torrent's log alone, and a GET adds the reader's opening calls to the served torrent's log only |
| StreamingManager.Answer | src/base/streaming/streamingmanager.cpp:165-190 | the same reply, wire bytes and torrent effects for a given dispatch outcome |
| StreamingManager.RespondError | src/base/streaming/streamingmanager.cpp:178-190 | the error head, then the message bytes, are what is sent; the connection will close; a non-empty message uses up its response, which the request then forgets, and an empty one leaves the request's response as it was |
| StreamingManager.SendErrorHead | src/base/streaming/streamingmanager.cpp:182-186 | the error head is sent, the connection will close, and a non-empty message gets a fresh response with the message's length as budget, which becomes the request's response |
| StreamingManager.DoHead | src/base/streaming/streamingmanager.cpp:192-204 | the HEAD reply is sent with no body, the request completes at once, the connection will close, and the request's response is unchanged |
| StreamingManager.DoGet | src/base/streaming/streamingmanager.cpp:206-237 | the 206 head is sent, and a fresh reader on the range writes into the request's socket, through the request's new response; an empty range has no body, completes at once and leaves the response unchanged; the connection will close; only the torrent's log changes, by the reader's opening calls |
| StreamingManager.SendPartialHead | src/base/streaming/streamingmanager.cpp:225-232 | the 206 head is sent; a non-empty range gets a fresh response with its size as budget, which becomes the request's response; the connection will close |
| StreamingServer.StreamResponse.PendingSize | src/base/streaming/streamingserver.h:25 | the pending size is the remaining budget |
| StreamingServer.StreamResponse.IsCompleted | src/base/streaming/streamingserver.h:27 | a response is complete exactly when its pending size is 0 |
| StreamingServer.StreamResponse.IsClosed | src/base/streaming/streamingserver.h:29 | a response is closed exactly when its socket is |
| StreamingServer.StreamResponse.BytesToWrite | src/base/streaming/streamingserver.cpp:245-248 | the bytes still queued on the socket, never negative |
| StreamingServer.StreamResponse.Write | src/base/streaming/streamingserver.cpp:234-243 | the budget drops by the data's length and never below 0; completion is signalled exactly when the budget is used up; an open sink gets the data |
| StreamingServer.StreamResponse.Close | src/base/streaming/streamingserver.cpp:250-253 | the body is closed afterwards and nothing is written |
| StreamingServer.CloseAfter | src/base/streaming/streamingserver.cpp:271 | the connection stays open exactly when the connection header is "keep-alive"; a missing header means close |
| StreamingServer.BuildHead | src/base/streaming/streamingserver.cpp:273-289 | the head is the status line, one "name: value" line per header in name order with the Date header added, and a blank line when a body follows |
| StreamingServer.StreamRequest.constructor | src/base/streaming/streamingserver.h:60-61 | a new request has no response and closeAfter false |
| StreamingServer.StreamRequest.Send | src/base/streaming/streamingserver.cpp:267-309 | the Latin-1 head goes to an open socket; a non-zero content size gives a fresh response with that budget, zero gives null and immediate completion |
| StreamingServer.StreamRequest.ResponseCompleted | src/base/streaming/streamingserver.cpp:297-302 | the body's completion completes the request and forgets the response |
| StreamingServer.FramesShape | src/base/streaming/streamingserver.cpp:161-211 | a pass over the buffer ends empty, or keeps a non-empty tail that the parser found incomplete (within or over the limit) or bad |
| StreamingServer.StreamingConnection.FrameBuffered | src/base/streaming/streamingserver.cpp:161-211 | the loop makes one request per parsed frame, in order, and stops at the first frame that is not parsed |
| StreamingServer.StreamingConnection.ParseRequest | src/base/streaming/streamingserver.cpp:151-212 | the buffer keeps what the pass leaves; an over-limit incomplete frame gets 413 and a bad frame gets 400, each followed by a close; otherwise the socket is untouched |
| StreamingServer.StreamingConnection.FreeRequest | src/base/streaming/streamingserver.cpp:214-224 | the socket closes exactly when a request asked for it; the request is forgotten |
| StreamingServer.StreamingConnection.HasExpired | src/base/streaming/streamingserver.cpp:137-143 | a closed socket has expired; an open one with a request in progress or bytes queued has not; otherwise it has expired exactly when idle longer than the timeout |
| StreamingServer.StreamingConnection.BytesWritten | src/base/streaming/streamingserver.cpp:123-126 | written bytes restart the idle timer |
| StreamingServer.PopPendingSpec | src/base/streaming/streamingserver.cpp:68-81 | the request handed out is the most recently queued live one, and everything queued before it stays; null means every queued pointer was null |
| StreamingServer.Server.HasPendingRequest | src/base/streaming/streamingserver.cpp:83-86 | a request is pending exactly when the queue is not empty, null entries included |
| StreamingServer.Server.NextPendingRequest | src/base/streaming/streamingserver.cpp:68-81 | an empty queue gives null; otherwise the loop pops as PopPending does |
| StreamingServer.Server.Listen | src/base/streaming/streamingserver.cpp:36-66 | already listening on the requested port changes nothing; otherwise the server is (re)bound to the granted port or stops listening |
| StreamingServer.Server.QueueRequest | src/base/streaming/streamingserver.cpp:105-110 | a ready request joins the back of the queue |
| StreamingServer.Server.AddConnection | src/base/streaming/streamingserver.cpp:102-113 | a new connection joins the set |
| StreamingServer.Server.DropExpired | src/base/streaming/streamingserver.cpp:17-33 | the sweep drops exactly the connections that are closed or idle past 7 s with nothing queued and no request |
| Http.Get | src/base/streaming/streamingserver.cpp:271 | a lookup finds a value exactly when the name is a key, and that value is the key's |
| Http.InsertSpec | src/base/streaming/streamingserver.cpp:284 | map insertion keeps the names sorted, adds exactly the name, maps it to the new value, and leaves every other key's value alone |
| PieceStore.Torrent.MapFile | src/base/streaming/streamfile.cpp:163-164 | a file position maps to its piece and offset in it (C++ division), with the length clipped at the torrent's end; past the end gives the one-past-last piece and nothing |
| StreamFile.DeadlineTime | src/base/streaming/streamfile.cpp:162 | the deadline is always in [32, 320] ms, equals the elapsed time within that range, and is clamped outside it |
| StreamFile.AdvanceRange | src/base/streaming/streamfile.cpp:186-191 | the range starts right after the read piece and ends at the last piece or after ceil(32 MiB / pieceLength) pieces, whichever is first |
| StreamFile.AdvanceDeadlinesExact | src/base/streaming/streamfile.cpp:193-198 | every call sets a deadline; exactly the missing pieces p of the range get one, deadline * (p - start + 2), none critical |
| StreamFile.AdvanceDeadlinesIncreasing | src/base/streaming/streamfile.cpp:193-198 | along the calls both pieces and deadlines strictly increase |
| StreamFile.ScheduleAdvance | src/base/streaming/streamfile.cpp:193-198 | the loop logs exactly AdvanceDeadlines of the range |
| StreamFile.ReleaseExact | src/base/streaming/streamfile.cpp:141-148 | releasing a set range resets each of its pieces exactly once, in order, ends included, and no other piece |
| StreamFile.ReadRequest.constructor | src/base/streaming/streamfile.cpp:27-33 | a request starts at its position with all its bytes left, no block pending and no range |
| StreamFile.ReadRequest.Feed | src/base/streaming/streamfile.cpp:41-51 | position + left is unchanged, the block is pending, and it is the last block exactly when nothing is left |
| StreamFile.ReadRequest.OutstandingRead | src/base/streaming/streamfile.cpp:90-93 | a read is outstanding exactly while a block is pending |
| StreamFile.ReadRequest.NotifyBlockReceived | src/base/streaming/streamfile.cpp:95-100 | the pending flag is cleared |
| StreamFile.StreamFile.constructor | src/base/streaming/streamfile.cpp:102-113 | the file's size, last piece and piece length are taken from the torrent |
| StreamFile.StreamFile.Read | src/base/streaming/streamfile.cpp:135-152 | a new request is made and its first read starts at once with the minimum deadline; an empty request asks for nothing |
| StreamFile.StreamFile.DoRead | src/base/streaming/streamfile.cpp:154-201 | a finished request asks for nothing; otherwise the piece under the position is read or given the clamped critical deadline, and only a piece before the last one starts a read-ahead range, which is recorded |
| StreamFile.StreamFile.BlockReceived | src/base/streaming/streamfile.cpp:138-139 | an acknowledged block starts the next read |
| StreamFile.StreamFile.Complete | src/base/streaming/streamfile.cpp:173-178 | the request is fed exactly data.mid(start, length), whatever bytes the engine returned; when everything fed before was the file's bytes from its start and the engine returns the piece's real bytes, that still holds afterwards |
| StreamFile.StreamFile.Release | src/base/streaming/streamfile.cpp:35-39 | a request dropped with bytes left releases its recorded read-ahead range; a finished one releases nothing |
| StreamFile.LastPieceHoldsLastByte | src/base/streaming/streamfile.cpp:111 | a non-empty file's last piece is the piece of its last byte, not before its first piece and inside the torrent |
| StreamFile.FedBytes | src/base/streaming/streamfile.cpp:163-176 | a read inside the torrent is fed a non-empty block of at most what is left, which is the torrent's bytes at the read position |
| StreamFile.PastEndFeedsNothing | src/base/streaming/streamfile.cpp:163-176 | a read at or past the torrent's end is fed nothing |
| HtmlBrowser.EraseSpec | src/gui/rss/htmlbrowser.cpp:75-79 | erasing a url removes exactly that url, keeps every other url's image, and keeps urls distinct |
| HtmlBrowser.ReplaceLookup | src/gui/rss/htmlbrowser.cpp:73-88 | after a url's entry is replaced at the front, the url looks up the new image and every other url its old one |
| HtmlBrowser.CleanedSpec | src/gui/rss/htmlbrowser.cpp:111-121 | cleaning keeps a prefix of the list, drops only expired entries, and stops at an unexpired back entry |
| HtmlBrowser.ImageCache.constructor | src/gui/rss/htmlbrowser.cpp:66-71 | a new cache is empty |
| HtmlBrowser.ImageCache.Contains | src/gui/rss/htmlbrowser.cpp:105-108 | a url is contained exactly when an entry of the list holds it |
| HtmlBrowser.ImageCache.Insert | src/gui/rss/htmlbrowser.cpp:73-88 | the new entry is at the front, any earlier entry for the url is gone, the url looks up the new image, and other urls keep their images and order |
| HtmlBrowser.ImageCache.Value | src/gui/rss/htmlbrowser.cpp:90-103 | an unknown url gives the null image and changes nothing; a known one gives its image, and its entry moves to the front with its timer restarted while the others keep their order |
| HtmlBrowser.ImageCache.Clean | src/gui/rss/htmlbrowser.cpp:111-121 | the list becomes Cleaned of the old list, and the url map stays consistent with it |
| HtmlBrowser.WithScheme | src/gui/rss/htmlbrowser.cpp:151-153 | an empty scheme becomes "http"; authority, path, query and fragment are unchanged |
| HtmlBrowser.HtmlBrowser.LoadResource | src/gui/rss/htmlbrowser.cpp:147-179 | non-images go to the base loader; a GIF gets nothing; a cached image is answered before any download; otherwise nothing is answered and one download starts unless the url is being decoded or already downloading |
| LogModel.BaseLogModel.constructor | src/gui/log/logmodel.cpp:39-46 | the model starts with the logger's message count and its window at the first message id |
| LogModel.BaseLogModel.RowCount | src/gui/log/logmodel.cpp:48-53 | no rows before the window starts, otherwise one row per message of the window |
| LogModel.BaseLogModel.ColumnCount | src/gui/log/logmodel.cpp:55-58 | the model has one column |
| LogModel.BaseLogModel.Data | src/gui/log/logmodel.cpp:60-83 | an invalid index or an empty model gives nothing; otherwise the role's value of rowData of message msgCount - row + startIndex - 1, which the memo then holds |
| LogModel.BaseLogModel.AddNewMessage | src/gui/log/logmodel.cpp:85-101 | an unstarted window starts at the given id, and a started one keeps its start; the count grows by one unless the cap would be passed; the row count stays within MAX_LOG_MESSAGES; below the cap row 0 shows message start + old count, the one just past the old window, and every old row moves down by one; at the cap every row keeps its message |
| LogModel.BaseLogModel.Reset | src/gui/log/logmodel.cpp:103-109 | corrected: the start moves to the old start plus the old count, past every message the window showed, and the window has no rows |
| LogModel.BaseLogModel.ResetAsWritten | src/gui/log/logmodel.cpp:103-109 | as written: the start becomes the old count and the window has no rows |
| LogModel.SecondResetAsWritten | src/gui/log/logmodel.cpp:85-109 | three messages, a reset, messages 3 and 4, a second reset and message 5: with the reset as written, row 0 shows message 2 |
| LogModel.SecondReset | src/gui/log/logmodel.cpp:85-109 | the same steps with the corrected reset: row 0 shows message 5 |
| LogModel.RowWindow | src/gui/log/logmodel.cpp:65 | the rows show each message of the window exactly once, newest at row 0 |
| LogModel.TypeColor | src/gui/log/logmodel.cpp:130-151 | NORMAL is the palette's window text colour, INFO blue, WARNING orange, CRITICAL red; exactly the other types get no colour |
| LogModel.MessageItem | src/gui/log/logmodel.cpp:122-155 | a message row is "<time> - <message>", coloured exactly for a known type and then with that type's colour, with the type as user value |
| LogModel.PeerItem | src/gui/log/logmodel.cpp:168-178 | a peer row has only display text |
| LogModel.PeerTextShape | src/gui/log/logmodel.cpp:172-177 | a peer row is "<time> - <ip>" followed by " was blocked <reason>" exactly when the peer was blocked, and " was banned" otherwise |

## Findings

| source | as written | input that shows it | evidently intended | confidence | as-written member | corrected member |
|---|---|---|---|---|---|---|
| src/gui/log/logmodel.cpp:106 | reset sets the start of the window to the old message count, which is past the shown messages only while the start is 0 | a model over 3 messages; reset; messages 3 and 4; reset; message 5: the start goes to 2, not 5, and row 0 shows message 2, which the first reset had cleared | reset moves the start past the window: the start grows by the count | not executed; high | LogModel.BaseLogModel.ResetAsWritten, LogModel.SecondResetAsWritten | LogModel.BaseLogModel.Reset, LogModel.SecondReset |

## Left out

- Sockets, `QTcpServer`, timers and `QElapsedTimer` are not modelled as such. A socket is a `Sink`: an open flag, the bytes it accepted and the number still queued. Time is a millisecond argument.
- `Http::RequestParser::parse` and `MAX_CONTENT_SIZE * 1.1` are not modelled. The parser is an oracle argument, assumed to consume at least one byte per parsed frame, and the buffer limit is an argument.
- `toByteArray(Response)` is an argument. It serialises the 400 and 413 replies.
- The engine (libtorrent) is not modelled: swarm behaviour, `downloadPayloadRate`, and how piece data arrives. Requests to it are entries of a ghost log. The model writes out `map_file`. It writes out `TorrentInfo::filePieces(...).last()` as the piece of the file's last byte, or the piece before the first one for an empty file.
- The HTTP errors' messages are an argument; `httperror.h` is not part of this model. Their statuses are 404, 405 and 416.
- `TorrentID::fromString` with `Session::getTorrent` is one finite map from id text to torrent. Percent-encoding, `QMimeDatabase`, `httpDate()`, time formatting and `tr()` are arguments or stored values. Translation is not modelled: rows use the source's English text.
- `Common.IsSpace`, which `Trimmed` uses for `toInt` and `toLongLong`, accepts ASCII whitespace only: tab, line feed, vertical tab, form feed, carriage return and space. `QChar::isSpace` also accepts Unicode spaces such as U+0085, U+00A0, U+2000 to U+200A and U+3000. A number padded with those is rejected by the model and accepted by Qt.
- Log output is not modelled: the `LogMsg` calls of the streaming server's start (src/base/streaming/streamingserver.cpp:56, 62) and its `Logger::addMessage` calls for oversized and bad requests (:172, :186).
- Qt's case-insensitive suffix test (`Path::hasExtension`) compares ASCII letters only, and path normalisation is not modelled.
- Signals are direct calls or returned flags. The connections between objects are made by the caller. `deleteLater`, object parents and the `torrentAboutToBeRemoved` handler of doGET are not modelled. The StreamingConnection constructor's first `parseRequest` call is left to the caller.
- `StreamingServer.StreamingConnection.ParseRequest` frames the whole buffer before the caller handles any request. In the source, `emit readyRequest` is a direct connection: each request is answered, through `handleRequest` and `processRequest`, before the next frame is parsed. On pipelined input the order on the wire can differ. Example: a HEAD request followed by a malformed frame. The source answers the HEAD request and closes the socket, so no 400 goes out. The model writes the 400 and closes, and the HEAD reply that follows is refused.
- The server connections' `QPointer` requests becoming null is not modelled. The queue holds nullable references, and null entries stand for requests that have gone away.
- When breakPath yields a file index outside the torrent for a HEAD or GET request, `doHEAD` and `doGET` index the torrent's files with it in `fileSize` and `filePath`, outside their bounds. The model answers 404 in that case. Any other method gets 405 before the index is used, in the model as in the source.
- Four further behaviours of the source look unintended but are modelled as written, with no corrected variant and no Findings row, because the intended behaviour is not evident from the code. Each is stated in the contracts of the members named:
  - a reader stops after the byte before its last one: once the position equals `m_lastBytePos`, no further read is enqueued (src/base/streaming/streamingmanager.cpp:289; `FileReader.TorrentFileReader.HandleReadPiece`);
  - at `MAX_LOG_MESSAGES`, `addNewMessage` removes the row it just added, so the new message is not shown (src/gui/log/logmodel.cpp:94-99; `LogModel.BaseLogModel.AddNewMessage`);
  - `prioritizeAdvancePieces` resets every piece of the old window after setting the new one, including pieces that are in both (src/base/streaming/streamingmanager.cpp:352-357; `FileReader.TorrentFileReader.PrioritizeAdvancePieces`);
  - a completed read sets the current piece index to -1; when the socket is then backed up, no piece is read, the index stays -1, and the window is rebuilt from piece 0 (src/base/streaming/streamingmanager.cpp:321-335; `FileReader.TorrentFileReader.TryEnqueueReadPiece`).
- Integer widths are not modelled: `qint64` overflow in `Range::size` and `firstBytePos + pieceLength`, and `quint64` versus `int` in the StreamFile counters. Positions and sizes are unbounded integers. The exceptions that matter are modelled explicitly with `Narrow32`: the `int` cast of the elapsed time, and the `int` product `pieceLength() * 1000` in `pieceDownloadTimeMsec`. The 32-bit and 64-bit bounds of `toInt` and `toLongLong` are written out too.
- `std::ceil` of a double in StreamFile's read-ahead range is integer ceiling division.
- The image download path is not modelled: `resourceLoaded`, `handleProgressChanged`, `enqueueRefresh`, `asyncRead`, `asyncPeak`, the worker thread and image scaling. The decoding `queue` is only read.
- The eviction policy of the log model's `QCache` is not modelled: the memo only ever holds rows equal to `rowData`. The logger is a function from message id to row. `MAX_LOG_MESSAGES` comes from `logger.h`, which is not part of this model, and is taken as 20000. `columnCount` is the constant 1.
- The log model's constructor takes the declared initial start 0 from `logmodel.h`. From there the start never becomes -1, and the -1 branches of `rowCount` and `addNewMessage` are kept as written.
- StreamFile's `name` and `mimeType` accessors and TorrentFileReader's unused `pieceDownloadTime` local are not modelled.
- The `Range` header's lookup and `QMap` ordering compare characters by code point.
- `Common.Latin1`: its contract states only the length. The character mapping, where code points above 255 become '?', is in its body.
