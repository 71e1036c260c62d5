/** The HTTP framing layer of the streaming server: the byte budget of a
    response body, the status/header serialisation of a request's reply, the
    receive-buffer loop of a connection, idle expiry, and the server's
    pending-request queue. Sockets are byte sinks; clocks are explicit
    millisecond arguments; Qt signals are returned as flags. */
module StreamingServer {
  import opened Common
  import opened Http

  /** A socket or other QIODevice seen as a byte sink: whether it is open,
      every byte it accepted, and how many of them are still queued. */
  class Sink {
    var isOpen: bool
    var written: seq<byte>
    var pendingWrite: nat

    constructor ()
      ensures isOpen && written == [] && pendingWrite == 0
    {
      isOpen, written, pendingWrite := true, [], 0;
    }

    /** QIODevice::write: a closed device refuses the data. */
    method Write(data: seq<byte>)
      modifies this
      ensures isOpen == old(isOpen)
      ensures written == if old(isOpen) then old(written) + data else old(written)
      ensures pendingWrite == if old(isOpen) then old(pendingWrite) + |data| else old(pendingWrite)
    {
      if isOpen {
        written := written + data;
        pendingWrite := pendingWrite + |data|;
      }
    }

    /** The peer took `n` queued bytes (the bytesWritten notification). */
    method Drain(n: nat)
      modifies this
      ensures isOpen == old(isOpen) && written == old(written)
      ensures pendingWrite == if n <= old(pendingWrite) then old(pendingWrite) - n else 0
    {
      pendingWrite := if n <= pendingWrite then pendingWrite - n else 0;
    }

    /** Closing is idempotent: a second close changes nothing. */
    method Close()
      modifies this
      ensures !isOpen && written == old(written) && pendingWrite == old(pendingWrite)
    {
      isOpen := false;
    }
  }

  /** The body writer of one response, with the number of bytes it may still
      write. */
  class StreamResponse {
    const sink: Sink
    var maxSize: int

    constructor (sink: Sink, maxSize: int)
      ensures this.sink == sink && this.maxSize == maxSize
    {
      this.sink := sink;
      this.maxSize := maxSize;
    }

    /** The bytes the response may still write. */
    function PendingSize(): (size: int)
      reads this
      ensures size == maxSize
    {
      maxSize
    }

    /** The body is whole once the budget is spent. */
    function IsCompleted(): (done: bool)
      reads this
      ensures done <==> PendingSize() == 0
    {
      maxSize == 0
    }

    /** The response is closed exactly when its socket is. */
    function IsClosed(): (closed: bool)
      reads sink
      ensures closed <==> !sink.isOpen
    {
      !sink.isOpen
    }

    /** The bytes still queued on the socket, never negative. */
    function BytesToWrite(): (n: int)
      reads sink
      ensures n == sink.pendingWrite && n >= 0
    {
      sink.pendingWrite
    }

    /** Writes `data` and spends its length from the budget; the returned
        flag is the `completed` signal, raised exactly when the budget is
        used up. */
    method Write(data: seq<byte>) returns (completed: bool)
      requires |data| <= maxSize
      modifies this, sink
      ensures maxSize == old(maxSize) - |data| && PendingSize() >= 0
      ensures completed <==> IsCompleted()
      ensures sink.isOpen == old(sink.isOpen)
      ensures sink.written == if old(sink.isOpen) then old(sink.written) + data else old(sink.written)
      ensures sink.pendingWrite == if old(sink.isOpen) then old(sink.pendingWrite) + |data| else old(sink.pendingWrite)
    {
      maxSize := maxSize - |data|;
      sink.Write(data);
      completed := maxSize <= 0;
    }

    method Close()
      modifies sink
      ensures IsClosed() && sink.written == old(sink.written)
    {
      sink.Close();
    }
  }

  /** Whether the connection is closed after the response: only an explicit
      "connection: keep-alive" keeps it, and a missing header counts as
      "closed". */
  function CloseAfter(headers: HeaderMap): (close: bool)
    ensures !close <==> Get(headers, HEADER_CONNECTION) == Some("keep-alive")
  {
    ValueOr(headers, HEADER_CONNECTION, "closed") != "keep-alive"
  }

  /** The text `send` puts on the wire before any body: the status line, one
      line per header in map order (the Date header included), and the blank
      line when a body follows. */
  function ResponseHead(status: Status, headers: HeaderMap, date: string, contentSize: int): string
  {
    StatusLine(status) + HeaderLines(Insert(headers, HEADER_DATE, date))
      + (if contentSize != 0 then CRLF else "")
  }

  /** Builds the response head line by line, as `send` does. */
  method BuildHead(status: Status, headers: HeaderMap, date: string, contentSize: int) returns (buf: string)
    ensures buf == ResponseHead(status, headers, date, contentSize)
  {
    buf := StatusLine(status);
    var fields := Insert(headers, HEADER_DATE, date);
    var i := 0;
    while i < |fields|
      invariant 0 <= i <= |fields|
      invariant buf == StatusLine(status) + HeaderLines(fields[..i])
    {
      assert fields[..i + 1][..i] == fields[..i];
      buf := buf + HeaderLine(fields[i]);
      i := i + 1;
    }
    assert fields[..|fields|] == fields;
    if contentSize != 0 {
      buf := buf + CRLF;
    }
  }

  /** One parsed request on a connection, and the reply sent for it. */
  class StreamRequest {
    const sink: Sink
    const request: Request
    var closeAfter: bool
    var streamResponse: StreamResponse?

    constructor (request: Request, sink: Sink)
      ensures this.request == request && this.sink == sink
      ensures !closeAfter && streamResponse == null
    {
      this.request := request;
      this.sink := sink;
      closeAfter := false;
      streamResponse := null;
    }

    /** Writes the status line and headers; with a body to come it returns a
        response whose budget is `contentSize`, otherwise it raises
        `completed` at once and returns null. */
    method Send(status: Status, headers: HeaderMap, contentSize: int, date: string)
      returns (response: StreamResponse?, completed: bool)
      modifies this, sink
      ensures closeAfter == CloseAfter(headers)
      ensures sink.isOpen == old(sink.isOpen)
      ensures sink.written == if old(sink.isOpen)
                              then old(sink.written) + Latin1(ResponseHead(status, headers, date, contentSize))
                              else old(sink.written)
      ensures contentSize != 0 ==> response != null && fresh(response) && response.sink == sink
                                   && response.maxSize == contentSize && streamResponse == response && !completed
      ensures contentSize == 0 ==> response == null && streamResponse == old(streamResponse) && completed
    {
      closeAfter := ValueOr(headers, HEADER_CONNECTION, "closed") != "keep-alive";
      var buf := BuildHead(status, headers, date, contentSize);
      sink.Write(Latin1(buf));

      if contentSize != 0 {
        response := new StreamResponse(sink, contentSize);
        streamResponse := response;
        completed := false;
      } else {
        response := null;
        completed := true;
      }
    }

    /** The handler of the body's `completed` signal: forget the response
        and raise this request's own `completed`. */
    method ResponseCompleted() returns (completed: bool)
      modifies this
      ensures streamResponse == null && completed && closeAfter == old(closeAfter)
    {
      streamResponse := null;
      completed := true;
    }
  }

  // ------------------------------------------------------------ connection

  /** The outcome of Http::RequestParser::parse on the buffered bytes. */
  datatype ParseResult = Incomplete | BadRequest | Parsed(request: Request, frameSize: int)

  /** What the parser is relied on for: a parsed request consumed at least
      one byte (otherwise the receive loop would never end). */
  ghost predicate ParserConsumes(parse: seq<byte> -> ParseResult)
  {
    forall d :: parse(d).Parsed? ==> parse(d).frameSize > 0
  }

  /** How a receive-buffer pass ends. */
  datatype Verdict = Drained | Waiting | TooLarge | Malformed

  /** The requests a pass over `buffer` yields, what is left in the buffer,
      and how the pass ended. */
  datatype Framing = Framing(requests: seq<Request>, rest: seq<byte>, verdict: Verdict)

  /** The receive loop as a function: parse while bytes remain; an
      incomplete frame waits, unless the buffer exceeds `limit`; a bad frame
      stops the pass; a parsed frame is dropped from the front. */
  ghost function Frames(parse: seq<byte> -> ParseResult, buffer: seq<byte>, limit: int): Framing
    requires ParserConsumes(parse)
    decreases |buffer|
  {
    if |buffer| == 0 then Framing([], [], Drained)
    else match parse(buffer)
      case Incomplete => Framing([], buffer, if |buffer| > limit then TooLarge else Waiting)
      case BadRequest => Framing([], buffer, Malformed)
      case Parsed(req, n) => Continue([req], Frames(parse, MidTail(buffer, n), limit))
  }

  /** A pass ends with an empty buffer, or keeps a non-empty tail of it
      that the parser reported as incomplete (within or over the limit) or
      as bad. */
  lemma {:induction false} FramesShape(parse: seq<byte> -> ParseResult, buffer: seq<byte>, limit: int)
    requires ParserConsumes(parse)
    decreases |buffer|
    ensures var f := Frames(parse, buffer, limit);
      && (f.verdict == Drained ==> f.rest == [])
      && (f.verdict != Drained ==> 0 < |f.rest| <= |buffer| && f.rest == buffer[|buffer| - |f.rest|..])
      && (f.verdict == Waiting ==> parse(f.rest).Incomplete? && |f.rest| <= limit)
      && (f.verdict == TooLarge ==> parse(f.rest).Incomplete? && |f.rest| > limit)
      && (f.verdict == Malformed ==> parse(f.rest).BadRequest?)
  {
    if |buffer| > 0 && parse(buffer).Parsed? {
      var n := parse(buffer).frameSize;
      FramesShape(parse, MidTail(buffer, n), limit);
      SuffixOfSuffix(buffer, n, |Frames(parse, MidTail(buffer, n), limit).rest|);
    }
  }

  /** `f`, preceded by the requests already framed. */
  function Continue(done: seq<Request>, f: Framing): Framing
  {
    Framing(done + f.requests, f.rest, f.verdict)
  }

  lemma ContinueAssoc(done: seq<Request>, req: Request, f: Framing)
    ensures Continue(done, Continue([req], f)) == Continue(done + [req], f)
  {
    assert done + ([req] + f.requests) == (done + [req]) + f.requests;
  }

  /** One step of the receive loop: a parsed frame contributes its request
      and the pass continues on the remaining bytes. */
  lemma FramesParsed(parse: seq<byte> -> ParseResult, buffer: seq<byte>, limit: int)
    requires ParserConsumes(parse) && |buffer| > 0 && parse(buffer).Parsed?
    ensures Frames(parse, buffer, limit) == Continue([parse(buffer).request], Frames(parse, MidTail(buffer, parse(buffer).frameSize), limit))
  {
  }

  lemma SuffixOfSuffix<T>(s: seq<T>, n: nat, m: nat)
    requires m <= |MidTail(s, n)|
    ensures m <= |s| && MidTail(s, n)[|MidTail(s, n)| - m..] == s[|s| - m..]
  {
  }

  const BAD_REQUEST := Response(Status(400, "Bad Request"), [Header(HEADER_CONNECTION, "close")])
  const PAYLOAD_TOO_LARGE := Response(Status(413, "Payload Too Large"), [Header(HEADER_CONNECTION, "close")])

  /** Each request object carries the matching parsed request, answers on
      the connection's socket, and has not replied yet. */
  ghost predicate Announced(ready: seq<StreamRequest>, requests: seq<Request>, socket: Sink)
    reads ready
  {
    && |ready| == |requests|
    && forall k :: 0 <= k < |ready| ==>
         ready[k].request == requests[k] && ready[k].sink == socket
         && !ready[k].closeAfter && ready[k].streamResponse == null
  }

  class StreamingConnection {
    const socket: Sink
    var receivedData: seq<byte>
    var idleSince: int
    var request: StreamRequest?

    constructor (socket: Sink, now: int)
      ensures this.socket == socket && receivedData == [] && idleSince == now && request == null
    {
      this.socket := socket;
      receivedData := [];
      idleSince := now;
      request := null;
    }

    /** A connection may be dropped when its socket is closed, or when it has
        been idle longer than `timeout` with nothing queued and no request
        in progress. */
    function HasExpired(timeout: int, now: int): (expired: bool)
      reads this, socket
      ensures !socket.isOpen ==> expired
      ensures socket.isOpen && (request != null || socket.pendingWrite > 0) ==> !expired
      ensures socket.isOpen && request == null && socket.pendingWrite == 0 ==>
        (expired <==> now - idleSince > timeout)
    {
      !socket.isOpen || (now - idleSince > timeout && socket.pendingWrite == 0 && request == null)
    }

    /** bytesWritten on the socket restarts the idle timer. */
    method BytesWritten(now: int)
      modifies this
      ensures idleSince == now && receivedData == old(receivedData) && request == old(request)
    {
      idleSince := now;
    }

    /** Reads `incoming` into the buffer and runs the parser over it until the
        buffer is empty or a frame is incomplete or bad. Returns the requests
        it made, in order (each was announced by readyRequest); the last of
        them is the connection's current request. */
    method ParseRequest(incoming: seq<byte>, now: int, parse: seq<byte> -> ParseResult,
                        bufferLimit: int, encode: Response -> seq<byte>)
      returns (ready: seq<StreamRequest>)
      requires request == null
      requires ParserConsumes(parse)
      modifies this, socket
      ensures idleSince == now
      ensures receivedData == Frames(parse, old(receivedData) + incoming, bufferLimit).rest
      ensures Announced(ready, Frames(parse, old(receivedData) + incoming, bufferLimit).requests, socket)
      ensures forall k :: 0 <= k < |ready| ==> fresh(ready[k])
      ensures request == (if |ready| == 0 then null else ready[|ready| - 1])
      ensures Frames(parse, old(receivedData) + incoming, bufferLimit).verdict == TooLarge ==>
                !socket.isOpen && socket.written == old(socket.written) + (if old(socket.isOpen) then encode(PAYLOAD_TOO_LARGE) else [])
      ensures Frames(parse, old(receivedData) + incoming, bufferLimit).verdict == Malformed ==>
                !socket.isOpen && socket.written == old(socket.written) + (if old(socket.isOpen) then encode(BAD_REQUEST) else [])
      ensures Frames(parse, old(receivedData) + incoming, bufferLimit).verdict in {Drained, Waiting} ==>
                socket.isOpen == old(socket.isOpen) && socket.written == old(socket.written)
    {
      idleSince := now;
      receivedData := receivedData + incoming;
      ready := FrameBuffered(parse, bufferLimit);
      if |receivedData| > 0 {
        if parse(receivedData).BadRequest? {
          socket.Write(encode(BAD_REQUEST));
          socket.Close();
        } else if |receivedData| > bufferLimit {
          socket.Write(encode(PAYLOAD_TOO_LARGE));
          socket.Close();
        }
      }
      request := if |ready| == 0 then null else ready[|ready| - 1];
    }

    /** The parse loop proper: frames requests off the front of the buffer
        while the parser accepts them. */
    method FrameBuffered(parse: seq<byte> -> ParseResult, bufferLimit: int) returns (ready: seq<StreamRequest>)
      requires ParserConsumes(parse)
      modifies this`receivedData
      ensures Frames(parse, old(receivedData), bufferLimit) == Continue(Frames(parse, old(receivedData), bufferLimit).requests, Frames(parse, receivedData, bufferLimit))
      ensures Frames(parse, receivedData, bufferLimit).requests == []
      ensures Announced(ready, Frames(parse, old(receivedData), bufferLimit).requests, socket)
      ensures forall k :: 0 <= k < |ready| ==> fresh(ready[k])
      ensures |receivedData| > 0 ==> !parse(receivedData).Parsed?
    {
      ghost var all := receivedData;
      ghost var got: seq<Request> := [];
      ready := [];
      var stopped := false;
      while |receivedData| > 0 && !stopped
        invariant Frames(parse, all, bufferLimit) == Continue(got, Frames(parse, receivedData, bufferLimit))
        invariant stopped ==> |receivedData| > 0 && !parse(receivedData).Parsed?
        invariant Announced(ready, got, socket)
        invariant forall k :: 0 <= k < |ready| ==> fresh(ready[k])
        decreases |receivedData|, if stopped then 0 else 1
      {
        var result := parse(receivedData);
        match result {
          case Parsed(req, n) =>
            FramesParsed(parse, receivedData, bufferLimit);
            ContinueAssoc(got, req, Frames(parse, MidTail(receivedData, n), bufferLimit));
            var r := new StreamRequest(req, socket);
            ready := ready + [r];
            got := got + [req];
            receivedData := MidTail(receivedData, n);
          case _ =>
            stopped := true;
        }
      }
      assert got + [] == got;
    }

    /** Ends the current request: closes the socket when the reply asked for
        it, and forgets the request. Without a request it does nothing. */
    method FreeRequest()
      modifies this, socket
      ensures request == null
      ensures receivedData == old(receivedData) && idleSince == old(idleSince)
      ensures socket.isOpen == (old(socket.isOpen) && !(old(request) != null && old(request.closeAfter)))
      ensures socket.written == old(socket.written)
    {
      if request == null {
        return;
      }
      if request.closeAfter {
        socket.Close();
      }
      request := null;
    }
  }

  // ---------------------------------------------------------------- server

  /** The port the server asks for: 0, any free port. */
  const REQUESTED_PORT := 0

  /** The keep-alive window after which an idle connection is dropped. */
  const KEEP_ALIVE_DURATION := 7 * 1000

  /** nextPendingRequest as a function: pop from the back until a live
      request is popped or the queue is empty. */
  function PopPending(queue: seq<StreamRequest?>): (r: (StreamRequest?, seq<StreamRequest?>))
    requires |queue| > 0
    ensures |r.1| < |queue| && r.1 == queue[..|r.1|]
  {
    var last := queue[|queue| - 1];
    var rest := queue[..|queue| - 1];
    if last == null && |rest| > 0 then
      var r := PopPending(rest);
      assert rest[..|r.1|] == queue[..|r.1|];
      r
    else (last, rest)
  }

  /** The queue is a stack of weak pointers: the request handed out is the
      most recently queued live one, what stays is everything queued before
      it, and null means every queued pointer had gone null. */
  lemma {:induction false} PopPendingSpec(queue: seq<StreamRequest?>)
    requires |queue| > 0
    ensures var (r, rest) := PopPending(queue);
      && (r != null ==> |rest| < |queue| && queue[|rest|] == r
                        && forall k :: |rest| < k < |queue| ==> queue[k] == null)
      && (r == null ==> rest == [] && forall k :: 0 <= k < |queue| ==> queue[k] == null)
  {
    var last := queue[|queue| - 1];
    var rest := queue[..|queue| - 1];
    if last == null && |rest| > 0 {
      PopPendingSpec(rest);
      var (r, rest') := PopPending(rest);
      assert PopPending(queue) == (r, rest');
      if r == null {
        forall k | 0 <= k < |queue| ensures queue[k] == null {
          if k < |rest| { assert rest[k] == queue[k]; }
        }
      } else {
        assert rest[|rest'|] == queue[|rest'|];
        forall k | |rest'| < k < |queue| ensures queue[k] == null {
          if k < |rest| { assert rest[k] == queue[k]; }
        }
      }
    }
  }

  class Server {
    var listening: bool
    var port: int
    var pending: seq<StreamRequest?>
    var connections: set<StreamingConnection>

    constructor ()
      ensures !listening && port == 0 && pending == [] && connections == {}
    {
      listening, port, pending, connections := false, 0, [], {};
    }

    /** Whether a request is queued, a null one included. */
    function HasPendingRequest(): (has: bool)
      reads this
      ensures has <==> pending != []
    {
      |pending| > 0
    }

    /** Binds the listener. Already listening on the requested port means
        nothing to do; otherwise a listening server is closed first and then
        bound; `bound` is the port the system granted, or None on failure. */
    method Listen(bound: Option<int>)
      requires bound.Some? ==> bound.value > 0
      modifies this
      ensures pending == old(pending) && connections == old(connections)
      ensures old(listening) && old(port) == REQUESTED_PORT ==> listening && port == old(port)
      ensures !(old(listening) && old(port) == REQUESTED_PORT) ==>
                listening == bound.Some? && port == (if bound.Some? then bound.value else 0)
    {
      if listening {
        if port == REQUESTED_PORT {
          return;
        }
        listening, port := false, 0;
      }
      match bound {
        case Some(p) => listening, port := true, p;
        case None => listening, port := false, 0;
      }
    }

    /** readyRequest from a connection queues the request. */
    method QueueRequest(r: StreamRequest)
      modifies this
      ensures pending == old(pending) + [r] && connections == old(connections)
    {
      pending := pending + [r];
    }

    /** handleNewConnection: the new connection joins the set. */
    method AddConnection(c: StreamingConnection)
      modifies this
      ensures connections == old(connections) + {c} && pending == old(pending)
    {
      connections := connections + {c};
    }

    method NextPendingRequest() returns (r: StreamRequest?)
      modifies this
      ensures old(pending) == [] ==> r == null && pending == []
      ensures old(pending) != [] ==> (r, pending) == PopPending(old(pending))
      ensures connections == old(connections)
    {
      if |pending| == 0 {
        return null;
      }
      r := pending[|pending| - 1];
      pending := pending[..|pending| - 1];
      while r == null && |pending| > 0
        invariant connections == old(connections)
        invariant PopPending(old(pending)) == (if r == null && |pending| > 0 then PopPending(pending) else (r, pending))
        decreases |pending|
      {
        r := pending[|pending| - 1];
        pending := pending[..|pending| - 1];
      }
    }

    /** The periodic sweep: drops exactly the connections that have expired. */
    method DropExpired(now: int)
      modifies this
      ensures connections == set c | c in old(connections) && !c.HasExpired(KEEP_ALIVE_DURATION, now)
      ensures pending == old(pending) && listening == old(listening) && port == old(port)
    {
      connections := set c | c in connections && !c.HasExpired(KEEP_ALIVE_DURATION, now);
    }
  }
}
