/** The client's response parser (HttpResponseParser) inside the receive loop of HttpClientImpl: one round of
    parsing, completion through the request queue, and the proof that packets do not matter. */
module ResponseParser {
  import opened Bytes
  import opened Incremental
  import opened Client

  datatype Version = Unknown | Http10 | Http11

  datatype Response = Response(version: Version, code: int, headers: map<string, string>, cookies: seq<string>,
                               body: string)
  {
    function Header(name: string): string { if name in headers then headers[name] else "" }
    predicate CloseConnection() { version.Http10? }
  }

  datatype Status = ExpectResponseLine | ExpectHeaders | ExpectBody | ExpectChunkLen | ExpectChunkBody
                  | ExpectLastEmptyChunk | ExpectClose | GotAll

  datatype Parser = Parser(status: Status, resp: Response, forHead: bool, left: nat, chunk: nat)

  const FRESH: Parser := Parser(ExpectResponseLine, Response(Unknown, 0, map[], [], ""), false, 0, 0)

  // ----- lines -----

  /** `atoi` on the text between two blanks. */
  function Atoi(s: string): int {
    var t := TrimLeft(s);
    var sign := if t != "" && (t[0] == '-' || t[0] == '+') then 1 else 0;
    var run := DigitRun(t[sign..], 10);
    var v: int := Value(t[sign..][..run], 10);
    if sign == 1 && t[0] == '-' then 0 - v else v
  }

  function ProcessResponseLine(resp: Response, line: string): Option<Response> {
    var space := Find(line, " ");
    if space <= 0 || (line[space - 1] != '1' && line[space - 1] != '0') then None
    else
      var second := FindFrom(line, " ", space + 1);
      if second < 0 then None
      else Some(resp.(version := if line[space - 1] == '1' then Http11 else Http10,
                      code := Atoi(line[space + 1..second])))
  }

  function AddHeader(resp: Response, field: string, text: string): Response {
    var name, value := LowerAll(field), TrimRight(TrimLeft(text));
    if name == "set-cookie" then resp.(cookies := resp.cookies + [value])
    else resp.(headers := resp.headers[name := value])
  }

  /** What the empty line decides: a bad length, or how the body is delimited and whether to shut down. */
  datatype Framing = BadLength | Framed(status: Status, left: nat, shut: bool)

  function Frame(resp: Response, forHead: bool): Framing {
    var len := resp.Header("content-length");
    var n := StrToULL(len, 10);
    if len != "" && (n.end == 0 || n.range) then BadLength
    else
      var f :=
        if len != "" then Framed(ExpectBody, n.value, false)
        else if resp.Header("transfer-encoding") == "chunked" then Framed(ExpectChunkLen, 0, false)
        else if resp.code == 204 || (resp.code == 101 && LowerAll(resp.Header("upgrade")) == "websocket") then
          Framed(GotAll, 0, false)
        else Framed(ExpectClose, 0, true);
      if forHead then f.(status := GotAll, left := 0) else f
  }

  /** The chunk length of a chunk-size line, None for a bad one. */
  function ChunkLength(line: string): Option<nat> {
    var n := StrToULL(line, 16);
    if n.range || n.end == 0 || (n.end < |line| && line[n.end] != 0 as char && line[n.end] != ';') then None
    else Some(n.value)
  }

  // ----- one round of parseResponse -----

  /** More: another round. Wait: return, response incomplete. Got: return, response complete. Bad: return false.
      `shut` tells that the round shut the connection down for writing. */
  datatype Round =
    | More(p: Parser, rest: string, shut: bool)
    | Wait(p: Parser, rest: string)
    | Got(p: Parser, rest: string, shut: bool)
    | Bad

  function ParserRound(p: Parser, b: string): Round {
    match p.status
    case ExpectResponseLine => LineRound(p, b)
    case ExpectHeaders => HeaderRound(p, b)
    case ExpectBody => BodyRound(p, b)
    case ExpectChunkLen => ChunkLenRound(p, b)
    case ExpectChunkBody => ChunkBodyRound(p, b)
    case ExpectLastEmptyChunk => LastChunkRound(p, b)
    case ExpectClose => Wait(p.(resp := p.resp.(body := p.resp.body + b)), "")
    case GotAll => Wait(p, b)
  }

  function LineRound(p: Parser, b: string): Round {
    var pos := Find(b, CRLF);
    if pos < 0 then Wait(p, b)
    else
      match ProcessResponseLine(p.resp, b[..pos])
      case None => Bad
      case Some(r) => More(p.(status := ExpectHeaders, resp := r), b[pos + 2..], false)
  }

  function HeaderRound(p: Parser, b: string): Round {
    var pos := Find(b, CRLF);
    if pos < 0 then Wait(p, b)
    else
      match HeaderLine(p, b[..pos])
      case BadLine => Bad
      case NextLine(q) => More(q, b[pos + 2..], false)
      case LastLine(q, shut) => if q.status.GotAll? then Got(q, b[pos + 2..], shut) else More(q, b[pos + 2..], shut)
  }

  datatype LineResult = BadLine | NextLine(p: Parser) | LastLine(p: Parser, shut: bool)

  /** A header field, or the line without a colon that ends the header section. */
  function HeaderLine(p: Parser, line: string): LineResult {
    var colon := Find(line, ":");
    if colon >= 0 then NextLine(p.(resp := AddHeader(p.resp, line[..colon], line[colon + 1..])))
    else
      match Frame(p.resp, p.forHead)
      case BadLength => BadLine
      case Framed(status, left, shut) => LastLine(p.(status := status, left := left), shut)
  }

  function BodyRound(p: Parser, b: string): Round {
    if p.left > |b| then Wait(p.(resp := p.resp.(body := p.resp.body + b), left := p.left - |b|), "")
    else Got(p.(resp := p.resp.(body := p.resp.body + b[..p.left]), left := 0, status := GotAll), b[p.left..], false)
  }

  function ChunkLenRound(p: Parser, b: string): Round {
    var pos := Find(b, CRLF);
    if pos < 0 then Wait(p, b)
    else
      match ChunkLength(b[..pos])
      case None => Bad
      case Some(n) =>
        More(p.(chunk := n, status := if n != 0 then ExpectChunkBody else ExpectLastEmptyChunk), b[pos + 2..], false)
  }

  function ChunkBodyRound(p: Parser, b: string): Round {
    if |b| < p.chunk + 2 then Wait(p, b)
    else if b[p.chunk] == '\r' && b[p.chunk + 1] == '\n' then
      More(p.(resp := p.resp.(body := p.resp.body + b[..p.chunk]), chunk := 0, status := ExpectChunkLen),
           b[p.chunk + 2..], false)
    else Bad
  }

  function LastChunkRound(p: Parser, b: string): Round {
    var pos := Find(b, CRLF);
    if pos < 0 then Wait(p, b)
    else
      var r := p.resp.(headers := p.resp.headers["content-length" := Decimal(|p.resp.body|)] - {"transfer-encoding"});
      Got(p.(resp := r, status := GotAll), b[pos + 2..], false)
  }

  // ----- the receive loop of the client -----

  /** A connection of the client: parser and request queue. */
  datatype Conn = Conn(parser: Parser, client: Client<Response>)

  function Shut(c: Client<Response>, shut: bool): Client<Response> {
    if shut && c.Open() then c.(tcp := Closing) else c
  }

  /** setForHeadMethod when the front request is a HEAD request. */
  function Aim(s: Conn): Parser
    requires s.client.inflight != []
  {
    if s.client.inflight[0] in s.client.heads then s.parser.(forHead := true) else s.parser
  }

  function Complete(p: Parser, c: Client<Response>): Conn
    requires c.inflight != []
  {
    Conn(FRESH, HandleResponse(c, p.resp, p.resp.CloseConnection()))
  }

  /** One round of onRecvMessage and parseResponse together. */
  function Step(s: Conn, b: string): Outcome<Conn> {
    if b == "" && s.parser.status.ExpectResponseLine? then Pause(s, b)
    else if s.client.inflight == [] then
      if b == "" then Pause(s, b) else Halt(s.(client := Shut(s.client, true)))
    else
      match ParserRound(Aim(s), b)
      case More(p, rest, shut) => Advance(Conn(p, Shut(s.client, shut)), rest)
      case Wait(p, rest) => Pause(Conn(p, s.client), rest)
      case Got(p, rest, shut) => Advance(Complete(p, Shut(s.client, shut)), rest)
      case Bad => Halt(Conn(FRESH, OnError(s.client, BadResponse)))
  }

  function Rank(s: Conn): nat { if s.parser.status.ExpectResponseLine? then 0 else 1 }

  predicate NoLimit(s: Conn, b: string) { true }

  function ReceiveMachine(): Machine<Conn> { Machine(Step, Rank, NoLimit) }

  // ----- packets do not matter -----

  /** Later bytes leave a round as it is; a round that waits goes on as if nothing had been cut. */
  ghost predicate RoundStable(p: Parser, b: string, x: string) {
    match ParserRound(p, b)
    case More(q, r, shut) => ParserRound(p, b + x) == More(q, r + x, shut)
    case Got(q, r, shut) => ParserRound(p, b + x) == Got(q, r + x, shut)
    case Wait(q, r) => ParserRound(q, r + x) == ParserRound(p, b + x)
                       && (r == "" ==> b == "" || !q.status.ExpectResponseLine?)
    case Bad => ParserRound(p, b + x) == Bad
  }

  ghost predicate RoundLocal(p: Parser, b: string, n: nat)
    requires n <= |b|
  {
    match ParserRound(p, b)
    case More(q, r, shut) =>
      |r| < |b| && r == b[|b| - |r|..] && (|b| - |r| <= n ==> ParserRound(p, b[..n]) == More(q, b[|b| - |r|..n], shut))
    case Got(q, r, shut) =>
      |r| <= |b| && r == b[|b| - |r|..] && (|b| - |r| <= n ==> ParserRound(p, b[..n]) == Got(q, b[|b| - |r|..n], shut))
    case _ => true
  }

  /** A line found stays found, wherever the bytes behind it are cut. */
  lemma LineStays(b: string, x: string)
    requires Find(b, CRLF) >= 0
    ensures Find(b + x, CRLF) == Find(b, CRLF)
    ensures (b + x)[..Find(b, CRLF)] == b[..Find(b, CRLF)]
    ensures (b + x)[Find(b, CRLF) + 2..] == b[Find(b, CRLF) + 2..] + x
  {
    FindExtend(b, x, CRLF);
  }

  lemma LineCut(b: string, n: nat)
    requires 0 <= Find(b, CRLF) && Find(b, CRLF) + 2 <= n <= |b|
    ensures var f := Find(b, CRLF);
            Find(b[..n], CRLF) == f && b[..n][..f] == b[..f] && b[..n][f + 2..] == b[f + 2..n]
  {
    FindCut(b, CRLF, n);
  }

  lemma BodyStable(p: Parser, b: string, x: string)
    requires p.status.ExpectBody?
    ensures RoundStable(p, b, x)
  {
    if p.left <= |b| {
      assert (b + x)[..p.left] == b[..p.left] && (b + x)[p.left..] == b[p.left..] + x;
    } else {
      BodyGoesOn(p, b, x);
      assert "" + x == x;
    }
  }

  lemma BodyGoesOn(p: Parser, b: string, x: string)
    requires p.left > |b|
    ensures BodyRound(p.(resp := p.resp.(body := p.resp.body + b), left := p.left - |b|), x) == BodyRound(p, b + x)
  {
    var left := p.left - |b|;
    if left <= |x| {
      assert (b + x)[..p.left] == b + x[..left] && (b + x)[p.left..] == x[left..];
      assert (p.resp.body + b) + x[..left] == p.resp.body + (b + x[..left]);
    } else {
      assert (p.resp.body + b) + x == p.resp.body + (b + x);
    }
  }

  lemma ChunkBodyStable(p: Parser, b: string, x: string)
    requires p.status.ExpectChunkBody?
    ensures RoundStable(p, b, x)
  {
    if |b| >= p.chunk + 2 {
      assert (b + x)[..p.chunk] == b[..p.chunk] && (b + x)[p.chunk + 2..] == b[p.chunk + 2..] + x;
    }
  }

  lemma CloseStable(p: Parser, b: string, x: string)
    requires p.status.ExpectClose?
    ensures RoundStable(p, b, x)
  {
    assert (p.resp.body + b) + x == p.resp.body + (b + x);
    assert "" + x == x;
  }

  predicate ByLine(status: Status) {
    status.ExpectResponseLine? || status.ExpectHeaders? || status.ExpectChunkLen? || status.ExpectLastEmptyChunk?
  }

  lemma LineStable(p: Parser, b: string, x: string)
    requires ByLine(p.status)
    ensures RoundStable(p, b, x)
  {
    hide ProcessResponseLine, HeaderLine, ChunkLength, Decimal, Find;
    if Find(b, CRLF) >= 0 {
      LineStays(b, x);
    }
  }

  lemma LineLocal(p: Parser, b: string, n: nat)
    requires ByLine(p.status) && n <= |b|
    ensures RoundLocal(p, b, n)
  {
    hide ProcessResponseLine, HeaderLine, ChunkLength, Decimal, Find;
    if 0 <= Find(b, CRLF) && Find(b, CRLF) + 2 <= n {
      LineCut(b, n);
    }
  }

  lemma AnyRoundStable(p: Parser, b: string, x: string)
    ensures RoundStable(p, b, x)
  {
    match p.status
    case ExpectBody => BodyStable(p, b, x);
    case ExpectChunkBody => ChunkBodyStable(p, b, x);
    case ExpectClose => CloseStable(p, b, x);
    case GotAll =>
    case _ => LineStable(p, b, x);
  }

  lemma AnyRoundLocal(p: Parser, b: string, n: nat)
    requires n <= |b|
    ensures RoundLocal(p, b, n)
  {
    match p.status {
      case ExpectBody =>
        if p.left <= n {
          assert b[..n][..p.left] == b[..p.left] && b[..n][p.left..] == b[p.left..n];
        }
      case ExpectChunkBody =>
        if p.chunk + 2 <= n {
          assert b[..n][..p.chunk] == b[..p.chunk] && b[..n][p.chunk + 2..] == b[p.chunk + 2..n];
        }
      case ExpectClose =>
      case GotAll =>
      case _ => LineLocal(p, b, n);
    }
  }

  lemma RoundKeeps(p: Parser, b: string)
    ensures match ParserRound(p, b)
            case Wait(q, r) => q.status == p.status && q.forHead == p.forHead &&
                               (p.status.ExpectResponseLine? ==> q == p && r == b)
            case Got(q, r, _) => |r| == |b| ==> p.status.ExpectBody?
            case _ => true
  {
    hide ProcessResponseLine, HeaderLine, ChunkLength;
  }

  lemma StepStable(s: Conn, b: string, x: string)
    ensures Stable(ReceiveMachine(), s, b, x)
  {
    hide ParserRound, HandleResponse, OnError;
    if s.client.inflight != [] && !(b == "" && s.parser.status.ExpectResponseLine?) {
      var p := Aim(s);
      AnyRoundStable(p, b, x);
      RoundKeeps(p, b);
      if ParserRound(p, b).Wait? {
        var q, r := ParserRound(p, b).p, ParserRound(p, b).rest;
        assert Aim(Conn(q, s.client)) == q;
      }
    }
  }

  lemma StepProgress(s: Conn, b: string)
    ensures Progress(ReceiveMachine(), s, b)
  {
    hide ParserRound, HandleResponse, OnError, Shut;
    if s.client.inflight != [] {
      var p := Aim(s);
      AnyRoundLocal(p, b, |b|);
      RoundKeeps(p, b);
    }
  }

  lemma StepLocal(s: Conn, b: string, n: nat)
    requires 0 < n <= |b|
    ensures Local(ReceiveMachine(), s, b, n)
  {
    hide ParserRound, HandleResponse, OnError;
    if s.client.inflight != [] {
      AnyRoundLocal(Aim(s), b, n);
    }
  }

  lemma ReceiverCoherent()
    ensures Coherent(ReceiveMachine())
  {
    hide Step;
    forall s: Conn, b: string, x: string
      ensures Stable(ReceiveMachine(), s, b, x)
    {
      StepStable(s, b, x);
    }
    forall s: Conn, b: string
      ensures Progress(ReceiveMachine(), s, b)
    {
      StepProgress(s, b);
    }
    forall s: Conn, b: string, n: nat | 0 < n <= |b|
      ensures Local(ReceiveMachine(), s, b, n)
    {
      StepLocal(s, b, n);
    }
    forall s: Conn
      ensures !ReceiveMachine().step(s, "").Over?
    {
      NeverOver(s, "");
    }
  }

  lemma NeverOver(s: Conn, b: string)
    ensures !Step(s, b).Over?
  {
  }

  ghost function Received(s: Conn, b: string): Final<Conn> {
    ReceiverCoherent();
    Run(ReceiveMachine(), s, b)
  }

  ghost function ReceivedAll(f: Final<Conn>, packets: seq<string>): Final<Conn> {
    ReceiverCoherent();
    FeedAll(ReceiveMachine(), f, packets)
  }

  ghost predicate NothingTooLong(s: Conn, b: string) {
    ReceiverCoherent();
    Fits(ReceiveMachine(), s, b)
  }

  lemma {:induction false} EverythingFits(s: Conn, b: string)
    ensures NothingTooLong(s, b) && !Received(s, b).OverLimit?
    decreases |b|, Rank(s)
  {
    ReceiverCoherent();
    hide Step;
    assert Progress(ReceiveMachine(), s, b);
    NeverOver(s, b);
    match Step(s, b)
    case Advance(t, r) => EverythingFits(t, r);
    case _ =>
  }

  /** However the network cuts a stream of pipelined responses, the callbacks run so far, the queues, the parser and
      the verdict are those of the uncut stream. */
  lemma ReceiveFragmentation(s: Conn, rest: string, packets: seq<string>)
    requires packets != []
    ensures ReceivedAll(Waiting(s, rest), packets) == Received(s, rest + Concat(packets))
  {
    ReceiverCoherent();
    EverythingFits(s, rest + Concat(packets));
    FeedAllIsRun(ReceiveMachine(), Waiting(s, rest), packets);
  }

  /** The connection callback when the peer closes. */
  function OnClosed(s: Conn): Client<Response> {
    if s.parser.status.ExpectClose? && s.client.inflight != [] then ClosedWithResponse(s.client, s.parser.resp)
    else OnError(s.client, NetworkFailure)
  }

  /** A whole connection, packets and then the close, ends with the same callbacks run. */
  lemma ConnectionFragmentation(s: Conn, packets: seq<string>)
    requires packets != []
    ensures var f := ReceivedAll(Waiting(s, ""), packets);
            (f.Waiting? <==> Received(s, Concat(packets)).Waiting?) &&
            OnClosed(f.state) == OnClosed(Received(s, Concat(packets)).state)
  {
    ReceiveFragmentation(s, "", packets);
    assert "" + Concat(packets) == Concat(packets);
  }
}
