/** HttpRequestParser::parseRequest and HttpServer::onMessage as the loops they are.

    The parser is an object with its status, request and counters; the connection keeps the bytes a packet left over,
    the requests collected from it and whether the parser was stopped. */
module RequestReceiver {
  import opened Bytes
  import opened Incremental
  import opened ByteQueue
  import opened RequestParser

  /** All rounds of one call of parseRequest: never More. */
  function ParseLoop(p: Parser, b: string): (r: Round)
    ensures !r.More?
    decreases |b|
  {
    var r := ParserRound(p, b);
    if r.More? then MoreConsumes(p, b); ParseLoop(r.p, r.rest) else r
  }

  lemma MoreConsumes(p: Parser, b: string)
    requires ParserRound(p, b).More?
    ensures |ParserRound(p, b).rest| < |b|
  {
    AnyRoundLocal(p, b, |b|);
  }

  /** The receive loop is: parse a request, take it, and go on. */
  lemma {:induction false} ParsedLoops(s: Session, b: string)
    ensures match ParseLoop(s.parser, b)
            case Wait(p, r) => Parsed(s, b) == Waiting(s.(parser := p), r)
            case Got(p, r) => Parsed(s, b) == Parsed(s.(parser := Reset(p), ready := s.ready + [p.req]), r)
            case Bad(code) => Parsed(s, b).Halted? && Parsed(s, b).state.refused == Some(code)
                              && Parsed(s, b).state.ready == s.ready
            case TooLong(code) => Parsed(s, b).OverLimit? && Parsed(s, b).state.refused == Some(code)
                                  && Parsed(s, b).state.ready == s.ready
    decreases |b|
  {
    hide ParserRound, Parsed;
    ParsedStep(s, b);
    if ParserRound(s.parser, b).More? {
      MoreConsumes(s.parser, b);
      ParsedLoops(s.(parser := ParserRound(s.parser, b).p), ParserRound(s.parser, b).rest);
    }
  }

  lemma {:induction false} GotConsumes(p: Parser, b: string)
    requires !p.status.GotAll? && (p.status.ExpectBody? ==> p.remain > 0)
    ensures ParseLoop(p, b).Got? ==> |ParseLoop(p, b).rest| < |b|
    ensures ParseLoop(p, b).Wait? ==> Sound(ParseLoop(p, b).p)
    decreases |b|
  {
    hide OnLine;
    if ParserRound(p, b).More? {
      MoreConsumes(p, b);
      var q, r := ParserRound(p, b).p, ParserRound(p, b).rest;
      SoundRound(p, b);
      if q.status.GotAll? {
      } else {
        GotConsumes(q, r);
      }
    }
  }

  /** What holds of the parser between two calls. */
  predicate Sound(p: Parser) {
    !p.status.GotAll? && (p.status.ExpectBody? ==> p.remain > 0)
  }

  lemma SoundRound(p: Parser, b: string)
    requires Sound(p)
    ensures ParserRound(p, b).More? ==> ParserRound(p, b).p.status.GotAll? || Sound(ParserRound(p, b).p)
  {
    hide Find;
    if p.status.ExpectHeaders? && Find(b, CRLF) >= 0 {
      SoundHeader(p, b[..Find(b, CRLF)]);
    }
  }

  lemma SoundHeader(p: Parser, line: string)
    requires p.status.ExpectHeaders?
    ensures OnHeaderLine(p, line).Next? ==> var q := OnHeaderLine(p, line).p; q.status.GotAll? || Sound(q)
  {
    hide AddHeader, StrToULL;
  }

  class HttpRequestParser {
    var status: Status
    var request: Request
    var remainContentLength: nat
    var currentChunkLength: nat
    var requestsCounter: nat
    var stopWorking: bool
    var continues: nat  // 100 responses written to the connection
    const maxBody: nat

    function Abs(): Parser
      reads this
    {
      Parser(status, request, remainContentLength, currentChunkLength, continues, maxBody)
    }

    constructor (maxBody: nat)
      ensures this.maxBody == maxBody && Abs() == FreshParser(maxBody) && requestsCounter == 0 && !stopWorking
    {
      this.maxBody := maxBody;
      status, request, remainContentLength, currentChunkLength := ExpectMethod, NEW_REQUEST, 0, 0;
      requestsCounter, stopWorking, continues := 0, false, 0;
    }

    method Reset()
      modifies this`status, this`remainContentLength, this`request
      ensures Abs() == RequestParser.Reset(old(Abs()))
    {
      remainContentLength, status, request := 0, ExpectMethod, NEW_REQUEST;
    }

    /** parseRequest(): rounds until the request is complete (1), incomplete (0) or refused (a negated status code). */
    method ParseRequest(buf: MsgBuffer) returns (res: int)
      modifies this, buf
      ensures stopWorking == old(stopWorking)
      ensures Did(ParseLoop(old(Abs()), old(buf.data)), buf, false, res)
      ensures requestsCounter == old(requestsCounter) + if res == 1 then 1 else 0
    {
      hide ParserRound;
      ghost var goal := ParseLoop(Abs(), buf.data);
      while true
        invariant ParseLoop(Abs(), buf.data) == goal
        invariant requestsCounter == old(requestsCounter) && stopWorking == old(stopWorking)
        decreases |buf.data|
      {
        ghost var p, b := Abs(), buf.data;
        if ParserRound(p, b).More? { MoreConsumes(p, b); }
        var more;
        more, res := OneRound(buf);
        if !more { return; }
      }
    }

    /** The outcome of a round is in the fields and the buffer. */
    ghost predicate Did(r: Round, buf: MsgBuffer, more: bool, res: int)
      reads this, buf
    {
      match r
      case More(q, rest) => more && Abs() == q && buf.data == rest
      case Wait(q, rest) => !more && res == 0 && Abs() == q && buf.data == rest
      case Got(q, rest) => !more && res == 1 && Abs() == q && buf.data == rest
      case Bad(code) => !more && res == 0 - code
      case TooLong(code) => !more && res == 0 - code
    }

    method OneRound(buf: MsgBuffer) returns (more: bool, res: int)
      modifies this, buf
      ensures Did(ParserRound(old(Abs()), old(buf.data)), buf, more, res)
      ensures requestsCounter == old(requestsCounter) + if !more && res == 1 then 1 else 0
      ensures stopWorking == old(stopWorking)
    {
      hide OnMethod, OnRequestLine, OnHeaderLine, OnChunkLen, Unchunked, Find;
      match status {
        case ExpectMethod => more, res := LineCase(buf);
        case ExpectRequestLine => more, res := LineCase(buf);
        case ExpectHeaders => more, res := LineCase(buf);
        case ExpectChunkLen => more, res := LineCase(buf);
        case ExpectBody => res := BodyCase(buf); more := false;
        case ExpectChunkBody => more, res := ChunkBodyCase(buf);
        case ExpectLastEmptyChunk => res := LastChunkCase(buf); more := false;
        case GotAll =>
          requestsCounter := requestsCounter + 1;
          more, res := false, 1;
      }
    }

    /** The four states that wait for a delimiter. */
    method LineCase(buf: MsgBuffer) returns (more: bool, res: int)
      requires ByLine(status)
      modifies this, buf
      ensures Did(LineRound(old(Abs()), old(buf.data)), buf, more, res) && (more || res <= 0)
      ensures requestsCounter == old(requestsCounter) && stopWorking == old(stopWorking)
    {
      hide OnLine, Find;
      var delimiter, limit := Delimiter(status), Limit(status);
      var code: int := LimitCode(status);
      var end := Find(buf.data, delimiter);
      if end < 0 {
        if |buf.data| >= limit { return false, 0 - code; }
        return false, 0;
      }
      res := ReadLine(buf.data[..end]);
      if res < 0 { return false, res; }
      buf.Retrieve(end + |delimiter|);
      more := true;
    }

    method ReadLine(line: string) returns (res: int)
      requires ByLine(status)
      modifies this
      ensures match OnLine(old(Abs()), line)
              case Next(q) => res == 0 && Abs() == q
              case Refused(code) => res == 0 - code
      ensures requestsCounter == old(requestsCounter) && stopWorking == old(stopWorking)
    {
      match status {
        case ExpectMethod => res := SetMethod(line);
        case ExpectRequestLine =>
          var r := ProcessRequestLine(request, line);
          if r.None? { return -400; }
          request, status, res := r.value, ExpectHeaders, 0;
        case ExpectHeaders => res := ReadHeader(line);
        case ExpectChunkLen => res := ReadChunkLen(line);
      }
    }

    method SetMethod(line: string) returns (res: int)
      modifies this`request, this`status
      ensures match OnMethod(old(Abs()), line)
              case Next(q) => res == 0 && Abs() == q
              case Refused(code) => res == 0 - code
    {
      hide MethodOf;
      var verb := MethodOf(line);
      if verb == Invalid { return -405; }
      request, status := request.(verb := verb), ExpectRequestLine;
      res := 0;
    }

    method ReadHeader(line: string) returns (res: int)
      modifies this`request, this`status, this`remainContentLength, this`continues
      ensures match OnHeaderLine(old(Abs()), line)
              case Next(q) => res == 0 && Abs() == q
              case Refused(code) => res == 0 - code
    {
      hide AddHeader, StrToULL, IndexOf;
      var colon := IndexOf(line, ':');
      if colon < |line| {
        request := AddHeader(request, line[..colon], line[colon + 1..]);
        return 0;
      }
      res := ReadLength();
      if res < 0 { return; }
      if remainContentLength > maxBody { return -413; }
      if request.expectation == "100-continue" && request.version.Http11? {
        if remainContentLength == 0 { return -400; }
        continues := continues + 1;
      } else if request.expectation != "" {
        return -417;
      }
    }

    method ReadLength() returns (res: int)
      modifies this`request, this`status, this`remainContentLength
      ensures match Delimit(old(Abs()))
              case Next(q) => res == 0 && Abs() == q
              case Refused(code) => res == 0 - code
    {
      hide StrToULL;
      var len := request.Header("content-length");
      if len != "" {
        var n := StrToULL(len, 10);
        if n.end == 0 || n.range { return -400; }
        remainContentLength := n.value;
        request := request.(contentLength := Some(remainContentLength));
        status := if remainContentLength == 0 then GotAll else ExpectBody;
      } else {
        var encode := request.Header("transfer-encoding");
        if encode == "" {
          status := GotAll;
        } else if encode == "chunked" {
          status := ExpectChunkLen;
        } else {
          return -501;
        }
      }
      res := 0;
    }

    method ReadChunkLen(line: string) returns (res: int)
      modifies this`currentChunkLength, this`status
      ensures match OnChunkLen(old(Abs()), line)
              case Next(q) => res == 0 && Abs() == q
              case Refused(code) => res == 0 - code
    {
      hide ChunkSize;
      currentChunkLength := ChunkSize(line);
      if currentChunkLength != 0 {
        if currentChunkLength + remainContentLength > maxBody { return -413; }
        status := ExpectChunkBody;
      } else {
        status := ExpectLastEmptyChunk;
      }
      res := 0;
    }

    method BodyCase(buf: MsgBuffer) returns (res: int)
      modifies this, buf
      ensures Did(BodyRound(old(Abs()), old(buf.data)), buf, false, res)
      ensures requestsCounter == old(requestsCounter) + if res == 1 then 1 else 0
      ensures stopWorking == old(stopWorking)
    {
      var n := if remainContentLength <= |buf.data| then remainContentLength else |buf.data|;
      assert buf.data[..|buf.data|] == buf.data && buf.data[0..] == buf.data;
      assert request.body + "" == request.body;
      if n > 0 {
        request := request.(body := request.body + buf.data[..n]);
        buf.Retrieve(n);
        remainContentLength := remainContentLength - n;
      }
      if remainContentLength == 0 {
        status := GotAll;
        requestsCounter := requestsCounter + 1;
        return 1;
      }
      res := 0;
    }

    method ChunkBodyCase(buf: MsgBuffer) returns (more: bool, res: int)
      modifies this, buf
      ensures Did(ChunkBodyRound(old(Abs()), old(buf.data)), buf, more, res) && (more || res <= 0)
      ensures requestsCounter == old(requestsCounter) && stopWorking == old(stopWorking)
    {
      if |buf.data| < currentChunkLength + 2 { return false, 0; }
      if buf.data[currentChunkLength] != '\r' || buf.data[currentChunkLength + 1] != '\n' { return false, -400; }
      request := request.(body := request.body + buf.data[..currentChunkLength]);
      buf.Retrieve(currentChunkLength + 2);
      remainContentLength := remainContentLength + currentChunkLength;
      currentChunkLength, status := 0, ExpectChunkLen;
      return true, 0;
    }

    method LastChunkCase(buf: MsgBuffer) returns (res: int)
      modifies this, buf
      ensures Did(LastChunkRound(old(Abs()), old(buf.data)), buf, false, res)
      ensures requestsCounter == old(requestsCounter) + if res == 1 then 1 else 0
      ensures stopWorking == old(stopWorking)
    {
      hide Decimal;
      if |buf.data| < 2 { return 0; }
      if buf.data[0] != '\r' || buf.data[1] != '\n' { return -400; }
      buf.Retrieve(2);
      request := request.(headers := request.headers["content-length" := Decimal(|request.body|)]
                                     - {"transfer-encoding"});
      status := GotAll;
      requestsCounter := requestsCounter + 1;
      res := 1;
    }
  }

  // ----- onMessage -----

  /** The server's side of a connection. */
  class Connection {
    const parser: HttpRequestParser
    const buf: MsgBuffer
    var requests: seq<Request>         // getRequestBuffer()
    var dispatched: seq<Request>       // handed to onRequests
    var batches: seq<seq<Request>>     // the same, call by call
    var refused: Option<Code>          // the error response written, after which the connection is shut down
    ghost var ready: seq<Request>      // every request read

    ghost predicate Valid()
      reads this, parser, buf
    {
      && parser.requestsCounter == |ready|
      && parser.stopWorking == refused.Some?
      && (!parser.stopWorking ==> Sound(parser.Abs()) && ready == dispatched + requests)
    }

    /** The object is in the state v of the specification; once stopped, the parser's fields are not used again. */
    ghost predicate Is(v: Server)
      reads this, parser, buf
    {
      && v.stopped == parser.stopWorking && v.dispatched == dispatched && v.rest == buf.data
      && v.session.ready == ready && v.session.refused == refused
      && (if v.stopped then buf.data == "" else v.session.parser == parser.Abs() && requests == [])
    }

    constructor (maxBody: nat)
      ensures Valid() && Is(Start(maxBody)) && fresh(parser) && fresh(buf)
    {
      parser := new HttpRequestParser(maxBody);
      buf := new MsgBuffer();
      requests, dispatched, batches, refused, ready := [], [], [], None, [];
    }

    method OnRequests()
      modifies this`dispatched, this`batches
      ensures dispatched == old(dispatched) + requests && batches == old(batches) + [requests]
    {
      dispatched, batches := dispatched + requests, batches + [requests];
    }

    /** One packet, never empty. */
    method OnMessage(packet: string, ghost v: Server)
      requires Valid() && Is(v) && packet != ""
      modifies this, parser, buf
      ensures Valid() && Is(RequestParser.OnMessage(v, packet))
    {
      hide Parsed, ParseLoop, ParserRound;
      buf.Append(packet);
      if parser.stopWorking {
        buf.Retrieve(|buf.data|);
        return;
      }
      var waits := ReadAll();
      if waits && requests != [] {
        OnRequests();
        requests := [];
      }
    }

    /** The loop: requests are collected until more data is needed or one is refused. */
    method ReadAll() returns (waits: bool)
      requires Valid() && !parser.stopWorking && buf.data != ""
      modifies parser, buf, this`requests, this`ready, this`refused
      ensures Valid() && waits == !parser.stopWorking
      ensures var f := Parsed(Session(old(parser.Abs()), old(ready), old(refused)), old(buf.data));
              if waits then f == Waiting(Session(parser.Abs(), ready, refused), buf.data)
              else !f.Waiting? && f.state.ready == ready && f.state.refused == refused && buf.data == ""
    {
      hide Parsed, ParseLoop, ParserRound;
      ghost var goal := Parsed(Session(parser.Abs(), ready, refused), buf.data);
      while buf.data != ""
        invariant Valid() && !parser.stopWorking && refused.None?
        invariant Parsed(Session(parser.Abs(), ready, refused), buf.data) == goal
        invariant buf.data == "" ==> parser.status.ExpectMethod?
        decreases |buf.data|
      {
        ParsedLoops(Session(parser.Abs(), ready, refused), buf.data);
        GotConsumes(parser.Abs(), buf.data);
        var parseRes := parser.ParseRequest(buf);
        if parseRes < 0 {
          refused := Some(0 - parseRes);
          buf.Retrieve(|buf.data|);
          parser.stopWorking := true;
          return false;
        }
        if parseRes == 0 {
          return true;
        }
        requests, ready := requests + [parser.request], ready + [parser.request];
        parser.Reset();
      }
      EmptyWaits(Session(parser.Abs(), ready, refused));
      return true;
    }
  }
}
