/** HttpResponseParser::parseResponse and HttpClientImpl::onRecvMessage as the loops they are.

    The parser is an object with its status, response and lengths; the receiver keeps the bytes a packet left over and
    hands each complete response to the request queue. */
module ResponseReceiver {
  import opened Bytes
  import opened Incremental
  import opened ByteQueue
  import opened Client
  import opened ClientObject
  import opened ResponseParser

  /** What one call of parseResponse returns; `shut` tells that it shut the connection down. */
  datatype Parsed =
    | Incomplete(p: Parser, rest: string, shut: bool)
    | Completed(p: Parser, rest: string, shut: bool)
    | Failed(shut: bool)

  function ParseLoop(p: Parser, b: string, shut: bool): Parsed
    decreases |b|
  {
    match ParserRound(p, b)
    case More(q, r, s) => MoreConsumes(p, b); ParseLoop(q, r, shut || s)
    case Wait(q, r) => Incomplete(q, r, shut)
    case Got(q, r, s) => Completed(q, r, shut || s)
    case Bad => Failed(shut)
  }

  lemma MoreConsumes(p: Parser, b: string)
    requires ParserRound(p, b).More?
    ensures |ParserRound(p, b).rest| < |b|
    ensures var q := ParserRound(p, b).p;
            q.forHead == p.forHead && !q.status.ExpectResponseLine? && !q.status.GotAll?
  {
    hide ProcessResponseLine, HeaderLine, ChunkLength;
    if p.status.ExpectHeaders? {
      HeaderLineKeeps(p, b[..Find(b, CRLF)]);
    }
  }

  lemma HeaderLineKeeps(p: Parser, line: string)
    ensures match HeaderLine(p, line)
            case BadLine => true
            case NextLine(q) => q.forHead == p.forHead && q.status == p.status
            case LastLine(q, _) => q.forHead == p.forHead && !q.status.ExpectResponseLine?
  {
    hide AddHeader, Frame, Find, LowerAll;
    FrameKeeps(p.resp, p.forHead);
  }

  lemma FrameKeeps(resp: Response, forHead: bool)
    ensures Frame(resp, forHead).Framed? ==> !Frame(resp, forHead).status.ExpectResponseLine?
  {
    hide StrToULL, LowerAll;
  }

  lemma GotMeansAll(p: Parser, b: string)
    ensures ParserRound(p, b).Got? ==> ParserRound(p, b).p.status.GotAll?
    ensures ParserRound(p, b).Wait? ==> ParserRound(p, b).p.status == p.status
  {
    hide ProcessResponseLine, HeaderLine, ChunkLength;
  }

  class HttpResponseParser {
    var status: Status
    var resp: Response
    var forHead: bool
    var left: nat
    var chunk: nat

    function Abs(): Parser
      reads this
    {
      Parser(status, resp, forHead, left, chunk)
    }

    constructor ()
      ensures Abs() == FRESH
    {
      status, resp, forHead, left, chunk := FRESH.status, FRESH.resp, FRESH.forHead, FRESH.left, FRESH.chunk;
    }

    method Reset()
      modifies this
      ensures Abs() == FRESH
    {
      status, resp, forHead, left, chunk := FRESH.status, FRESH.resp, FRESH.forHead, FRESH.left, FRESH.chunk;
    }

    method SetForHeadMethod()
      modifies this`forHead
      ensures Abs() == old(Abs()).(forHead := true)
    {
      forHead := true;
    }

    /** parseResponse(): rounds until the response is complete, incomplete or wrong. */
    method ParseResponse(buf: MsgBuffer) returns (ok: bool, shut: bool)
      requires !status.GotAll?
      modifies this, buf
      ensures match ParseLoop(old(Abs()), old(buf.data), false)
              case Incomplete(q, r, s) => ok && Abs() == q && buf.data == r && shut == s && !q.status.GotAll?
              case Completed(q, r, s) => ok && Abs() == q && buf.data == r && shut == s && q.status.GotAll?
              case Failed(s) => !ok && shut == s
    {
      hide ParserRound;
      ok, shut := true, false;
      var hasMore := true;
      while hasMore
        invariant if hasMore then
                    ok && !status.GotAll? &&
                    ParseLoop(Abs(), buf.data, shut) == ParseLoop(old(Abs()), old(buf.data), false)
                  else
                    match ParseLoop(old(Abs()), old(buf.data), false)
                    case Incomplete(q, r, s) => ok && Abs() == q && buf.data == r && shut == s && !q.status.GotAll?
                    case Completed(q, r, s) => ok && Abs() == q && buf.data == r && shut == s && q.status.GotAll?
                    case Failed(s) => !ok && shut == s
        decreases hasMore, |buf.data|
      {
        ghost var p, b := Abs(), buf.data;
        GotMeansAll(p, b);
        if ParserRound(p, b).More? { MoreConsumes(p, b); }
        var s;
        hasMore, ok, s := OneRound(buf);
        shut := shut || s;
      }
    }

    /** The outcome of a round is in the fields and the buffer. */
    ghost predicate Did(r: Round, buf: MsgBuffer, more: bool, ok: bool, shut: bool)
      reads this, buf
    {
      match r
      case More(q, rest, s) => more && ok && Abs() == q && buf.data == rest && shut == s
      case Wait(q, rest) => !more && ok && Abs() == q && buf.data == rest && !shut
      case Got(q, rest, s) => !more && ok && Abs() == q && buf.data == rest && shut == s
      case Bad => !more && !ok && !shut
    }

    method OneRound(buf: MsgBuffer) returns (more: bool, ok: bool, shut: bool)
      requires !status.GotAll?
      modifies this, buf
      ensures Did(ParserRound(old(Abs()), old(buf.data)), buf, more, ok, shut)
    {
      match status {
        case ExpectResponseLine => more, ok := LineCase(buf); shut := false;
        case ExpectHeaders => more, ok, shut := HeaderCase(buf);
        case ExpectBody => BodyCase(buf); more, ok, shut := false, true, false;
        case ExpectChunkLen => more, ok := ChunkLenCase(buf); shut := false;
        case ExpectChunkBody => more, ok := ChunkBodyCase(buf); shut := false;
        case ExpectLastEmptyChunk => LastChunkCase(buf); more, ok, shut := false, true, false;
        case ExpectClose =>
          resp := resp.(body := resp.body + buf.data);
          buf.Retrieve(|buf.data|);
          more, ok, shut := false, true, false;
      }
    }

    method LineCase(buf: MsgBuffer) returns (more: bool, ok: bool)
      modifies this, buf
      ensures Did(LineRound(old(Abs()), old(buf.data)), buf, more, ok, false)
    {
      hide ProcessResponseLine;
      var crlf := Find(buf.data, CRLF);
      if crlf < 0 { return false, true; }
      var r := ProcessResponseLine(resp, buf.data[..crlf]);
      if r.None? { return false, false; }
      resp := r.value;
      buf.Retrieve(crlf + 2);
      status := ExpectHeaders;
      return true, true;
    }

    method HeaderCase(buf: MsgBuffer) returns (more: bool, ok: bool, shut: bool)
      modifies this, buf
      ensures Did(HeaderRound(old(Abs()), old(buf.data)), buf, more, ok, shut)
    {
      hide HeaderLine;
      var crlf := Find(buf.data, CRLF);
      if crlf < 0 { return false, true, false; }
      more, ok, shut := HeaderFieldOrEnd(buf.data[..crlf]);
      if ok {
        buf.Retrieve(crlf + 2);
      }
    }

    method HeaderFieldOrEnd(line: string) returns (more: bool, ok: bool, shut: bool)
      modifies this
      ensures match HeaderLine(old(Abs()), line)
              case BadLine => !more && !ok && !shut
              case NextLine(q) => more && ok && !shut && Abs() == q
              case LastLine(q, s) => more == !q.status.GotAll? && ok && shut == s && Abs() == q
    {
      hide AddHeader, Frame, Find;
      var colon := Find(line, ":");
      if colon >= 0 {
        resp := AddHeader(resp, line[..colon], line[colon + 1..]);
        return true, true, false;
      }
      var framing := Frame(resp, forHead);
      if framing.BadLength? { return false, false, false; }
      status, left := framing.status, framing.left;
      return !status.GotAll?, true, framing.shut;
    }

    method BodyCase(buf: MsgBuffer)
      modifies this, buf
      ensures Did(BodyRound(old(Abs()), old(buf.data)), buf, false, true, false)
    {
      if buf.data == "" {
        if left == 0 {
          status := GotAll;
        }
        assert resp.body + "" == resp.body;
        return;
      }
      if left >= |buf.data| {
        left := left - |buf.data|;
        resp := resp.(body := resp.body + buf.data);
        assert buf.data[..|buf.data|] == buf.data;
        buf.Retrieve(|buf.data|);
      } else {
        resp := resp.(body := resp.body + buf.data[..left]);
        buf.Retrieve(left);
        left := 0;
      }
      if left == 0 {
        status := GotAll;
      }
    }

    method ChunkLenCase(buf: MsgBuffer) returns (more: bool, ok: bool)
      modifies this, buf
      ensures Did(ChunkLenRound(old(Abs()), old(buf.data)), buf, more, ok, false)
    {
      hide ChunkLength;
      var crlf := Find(buf.data, CRLF);
      if crlf < 0 { return false, true; }
      var parsed := ChunkLength(buf.data[..crlf]);
      if parsed.None? { return false, false; }
      chunk := parsed.value;
      status := if chunk != 0 then ExpectChunkBody else ExpectLastEmptyChunk;
      buf.Retrieve(crlf + 2);
      return true, true;
    }

    method ChunkBodyCase(buf: MsgBuffer) returns (more: bool, ok: bool)
      modifies this, buf
      ensures Did(ChunkBodyRound(old(Abs()), old(buf.data)), buf, more, ok, false)
    {
      if |buf.data| < chunk + 2 { return false, true; }
      if buf.data[chunk] == '\r' && buf.data[chunk + 1] == '\n' {
        resp := resp.(body := resp.body + buf.data[..chunk]);
        buf.Retrieve(chunk + 2);
        chunk := 0;
        status := ExpectChunkLen;
        return true, true;
      }
      buf.Retrieve(|buf.data|);
      return false, false;
    }

    method LastChunkCase(buf: MsgBuffer)
      modifies this, buf
      ensures Did(LastChunkRound(old(Abs()), old(buf.data)), buf, false, true, false)
    {
      hide Decimal;
      var crlf := Find(buf.data, CRLF);
      if crlf < 0 { return; }
      buf.Retrieve(crlf + 2);
      status := GotAll;
      resp := resp.(headers := resp.headers["content-length" := Decimal(|resp.body|)] - {"transfer-encoding"});
    }
  }

  // ----- onRecvMessage -----

  lemma ReceivedStep(s: Conn, b: string)
    ensures match Step(s, b)
            case Advance(t, r) => Received(s, b) == Received(t, r) &&
                                  (|r| < |b| || (|r| == |b| && Rank(t) < Rank(s)))
            case Pause(t, r) => Received(s, b) == Waiting(t, r)
            case Halt(t) => Received(s, b) == Halted(t)
            case Over(t) => Received(s, b) == OverLimit(t)
  {
    ReceiverCoherent();
    assert Progress(ReceiveMachine(), s, b);
  }

  lemma {:induction false} LoopKeepsShut(p: Parser, b: string, shut: bool)
    ensures shut ==> ParseLoop(p, b, shut).shut
    decreases |b|
  {
    hide ParserRound;
    if ParserRound(p, b).More? {
      MoreConsumes(p, b);
      LoopKeepsShut(ParserRound(p, b).p, ParserRound(p, b).rest, shut || ParserRound(p, b).shut);
    }
  }

  /** The receive loop is: parse a response, complete it, and go on. */
  lemma {:induction false} ReceivedParses(p: Parser, c: Client<Response>, b: string, shut: bool)
    requires c.inflight != [] && Aim(Conn(p, c)) == p && !(b == "" && p.status.ExpectResponseLine?)
    requires Shut(c, shut) == c
    ensures match ParseLoop(p, b, shut)
            case Incomplete(q, r, s) => Received(Conn(p, c), b) == Waiting(Conn(q, Shut(c, s)), r)
            case Completed(q, r, s) =>
              Received(Conn(p, c), b) == Received(Complete(q, Shut(c, s)), r) &&
              (|r| < |b| || (|r| == |b| && !p.status.ExpectResponseLine?))
            case Failed(s) => Received(Conn(p, c), b) == Halted(Conn(FRESH, OnError(Shut(c, s), BadResponse)))
    decreases |b|
  {
    hide ParserRound, HandleResponse, OnError, Received;
    ReceivedStep(Conn(p, c), b);
    match ParserRound(p, b) {
      case More(q, r, s) =>
        MoreConsumes(p, b);
        ReceivedParses(q, Shut(c, s), r, shut || s);
        LoopKeepsShut(q, r, shut || s);
      case _ =>
    }
  }

  /** Setting the HEAD flag first changes nothing. */
  lemma ReceivedAims(s: Conn, b: string)
    requires s.client.inflight != [] && b != ""
    ensures Received(s, b) == Received(Conn(Aim(s), s.client), b)
    ensures Aim(Conn(Aim(s), s.client)) == Aim(s)
  {
    hide ParserRound, HandleResponse, OnError, Received;
    ReceivedStep(s, b);
    ReceivedStep(Conn(Aim(s), s.client), b);
  }

  class Receiver {
    const client: HttpClientImpl<Response>
    const parser: HttpResponseParser
    const msg: MsgBuffer

    ghost predicate Valid()
      reads this, client, parser, msg
    {
      client.Valid() && !parser.status.GotAll?
    }

    ghost function Abs(): Conn
      reads this, client, parser
    {
      Conn(parser.Abs(), client.Abs())
    }

    constructor (client: HttpClientImpl<Response>)
      requires client.Valid()
      ensures Valid() && fresh(parser) && fresh(msg) && this.client == client
      ensures Abs() == Conn(FRESH, client.Abs()) && msg.data == ""
    {
      this.client := client;
      parser := new HttpResponseParser();
      msg := new MsgBuffer();
    }

    /** One packet, never empty: callbacks, queues, parser and buffer end up as the receive machine says. */
    method OnRecvMessage(packet: string)
      requires Valid() && packet != ""
      modifies client, parser, msg
      ensures Valid()
      ensures match Received(old(Abs()), old(msg.data) + packet)
              case Waiting(s, r) => Abs() == s && msg.data == r
              case Halted(s) => client.Abs() == s.client
              case OverLimit(_) => false
    {
      hide Received;
      msg.Append(packet);
      EverythingFits(Abs(), msg.data);
      ghost var goal := Received(Abs(), msg.data);
      while msg.data != ""
        invariant Valid() && Received(Abs(), msg.data) == goal
        invariant msg.data == "" ==> parser.status.ExpectResponseLine?
        decreases |msg.data|, Rank(Abs())
      {
        var done := OneResponse();
        if done { return; }
      }
      ReceivedEmpty(Abs());
    }

    /** One turn of the loop: the final result is reached, or one response was completed. */
    method OneResponse() returns (done: bool)
      requires Valid() && msg.data != "" && !Received(Abs(), msg.data).OverLimit?
      modifies client, parser, msg
      ensures Valid()
      ensures var f, size := Received(old(Abs()), old(msg.data)), old(|msg.data|);
              if done then
                match f
                case Waiting(s, r) => Abs() == s && msg.data == r
                case Halted(s) => client.Abs() == s.client
                case OverLimit(_) => false
              else
                && Received(Abs(), msg.data) == f && parser.status.ExpectResponseLine?
                && (|msg.data| < size || (|msg.data| == size && Rank(Abs()) < old(Rank(Abs()))))
    {
      hide Received, Complete, HandleResponse, OnError, ParseLoop;
      if client.pipeliningCallbacks == [] {
        ReceivedStep(Abs(), msg.data);
        ShutdownByUs();
        return true;
      }
      ReceivedAims(Abs(), msg.data);
      if client.pipeliningCallbacks[0] in client.heads {
        parser.SetForHeadMethod();
      }
      assert parser.Abs() == Aim(old(Abs()));
      done := ParseAndComplete();
    }

    method ParseAndComplete() returns (done: bool)
      requires Valid() && msg.data != "" && client.pipeliningCallbacks != [] && Aim(Abs()) == parser.Abs()
      modifies client, parser, msg
      ensures Valid()
      ensures var f, size := Received(old(Abs()), old(msg.data)), old(|msg.data|);
              if done then
                match f
                case Waiting(s, r) => Abs() == s && msg.data == r
                case Halted(s) => client.Abs() == s.client
                case OverLimit(_) => false
              else
                && Received(Abs(), msg.data) == f && parser.status.ExpectResponseLine?
                && (|msg.data| < size || (|msg.data| == size && Rank(Abs()) < old(Rank(Abs()))))
    {
      hide Received, HandleResponse, OnError, ParseLoop;
      ReceivedParses(parser.Abs(), client.Abs(), msg.data, false);
      var ok, shut := parser.ParseResponse(msg);
      if shut {
        ShutdownByUs();
      }
      if !ok {
        client.OnErrorReported(BadResponse);
        parser.Reset();
        return true;
      }
      if !parser.status.GotAll? {
        return true;
      }
      CompleteFront();
      return false;
    }

    /** connPtr->shutdown(). */
    method ShutdownByUs()
      requires client.Valid()
      modifies client`tcp
      ensures client.Valid() && client.Abs() == Shut(old(client.Abs()), true)
    {
      if client.tcp.Up? {
        client.tcp := Closing;
      }
    }

    /** The complete response is taken from the parser and given to the front request. */
    method CompleteFront()
      requires client.Valid() && client.pipeliningCallbacks != []
      modifies client, parser
      ensures Valid() && Abs() == Complete(old(parser.Abs()), old(client.Abs()))
    {
      hide HandleResponse;
      var resp := parser.resp;
      parser.Reset();
      client.HandleResponseInLoop(resp, resp.CloseConnection());
    }
  }

  lemma ReceivedEmpty(s: Conn)
    requires s.parser.status.ExpectResponseLine? || s.client.inflight == []
    ensures Received(s, "") == Waiting(s, "")
  {
    ReceivedStep(s, "");
  }
}
