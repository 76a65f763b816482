/** The server's request parser (HttpRequestParser, requests read whole before they are handled) inside the receive
    loop of HttpServer, and the proof of how far packets matter. */
module RequestParser {
  import opened Bytes
  import opened Incremental
  import Http = ResponseParser

  datatype Method = Invalid | Get | Put | Post | Head | Copy | Move | Patch | Mkcol | Delete | Options | Propfind

  datatype Request = Request(verb: Method, path: string, query: string, version: Http.Version,
                             headers: map<string, string>, cookies: map<string, string>, expectation: string,
                             keepAlive: bool, contentLength: Option<nat>, body: string)
  {
    function Header(name: string): string { if name in headers then headers[name] else "" }
  }

  const NEW_REQUEST: Request := Request(Invalid, "", "", Http.Unknown, map[], map[], "", true, None, "")

  datatype Status = ExpectMethod | ExpectRequestLine | ExpectHeaders | ExpectBody | ExpectChunkLen | ExpectChunkBody
                  | ExpectLastEmptyChunk | GotAll

  /** `continues` counts the 100 responses written; `maxBody` is the configured limit on bodies. */
  datatype Parser = Parser(status: Status, req: Request, remain: nat, chunk: nat, continues: nat, maxBody: nat)

  function FreshParser(maxBody: nat): Parser { Parser(ExpectMethod, NEW_REQUEST, 0, 0, 0, maxBody) }

  // ----- lines -----

  function MethodOf(s: string): Method {
    match s
    case "GET" => Get
    case "PUT" => Put
    case "POST" => Post
    case "HEAD" => Head
    case "COPY" => Copy
    case "MOVE" => Move
    case "PATCH" => Patch
    case "MKCOL" => Mkcol
    case "DELETE" => Delete
    case "OPTIONS" => Options
    case "PROPFIND" => Propfind
    case _ => Invalid
  }

  /** std::find over a text: the index of the first `c`, or the length. */
  function IndexOf(s: string, c: char): (n: nat)
    ensures n <= |s| && (n < |s| ==> s[n] == c) && forall i | 0 <= i < n :: s[i] != c
  {
    if s == "" || s[0] == c then 0 else 1 + IndexOf(s[1..], c)
  }

  /** Where the path starts in the request target: behind a scheme and its authority, if there is one. */
  function PathStart(target: string): (n: nat)
    ensures n <= |target|
  {
    var slash := IndexOf(target, '/');
    if slash != 0 && slash + 1 < |target| && target[slash + 1] == '/' then
      slash + 2 + IndexOf(target[slash + 2..], '/')
    else slash
  }

  /** The path and the query of the request target. */
  function Locate(req: Request, target: string): Request {
    var slash := PathStart(target);
    var question := slash + IndexOf(target[slash..], '?');
    req.(path := if slash < |target| then target[slash..question] else "/",
         query := if question < |target| then target[question + 1..] else req.query)
  }

  /** processRequestLine, without the percent-decoding of the path. */
  function ProcessRequestLine(req: Request, line: string): Option<Request> {
    var space := IndexOf(line, ' ');
    if space == |line| then None
    else
      match VersionOf(line[space + 1..])
      case None => None
      case Some(v) =>
        var located := Locate(req, line[..space]);
        Some(located.(version := v, keepAlive := located.keepAlive && v.Http11?))
  }

  function VersionOf(s: string): Option<Http.Version> {
    if s == "HTTP/1.1" then Some(Http.Http11) else if s == "HTTP/1.0" then Some(Http.Http10) else None
  }

  function AddCookie(cookies: map<string, string>, text: string): map<string, string> {
    var equals := IndexOf(text, '=');
    if equals == |text| then cookies
    else cookies[TrimLeft(text[..equals]) := TrimLeft(text[equals + 1..])]
  }

  function AddCookies(cookies: map<string, string>, value: string): map<string, string>
    decreases |value|
  {
    var semicolon := IndexOf(value, ';');
    if semicolon < |value| then AddCookies(AddCookie(cookies, value[..semicolon]), value[semicolon + 1..])
    else AddCookie(cookies, value)
  }

  /** A header line; of two headers with one name the first is kept. */
  function AddHeader(req: Request, field: string, text: string): Request {
    var name, value := LowerAll(field), TrimRight(TrimLeft(text));
    if name == "cookie" then req.(cookies := AddCookies(req.cookies, value))
    else
      req.(expectation := if name == "expect" then value else req.expectation,
           keepAlive := if name != "connection" then req.keepAlive
                        else if req.version.Http11? then req.keepAlive && value != "close"
                        else req.keepAlive || value == "Keep-Alive" || value == "keep-alive",
           headers := if name in req.headers then req.headers else req.headers[name := value])
  }

  /** Status codes a request is refused with. */
  type Code = c: int | 400 <= c < 600 witness 400

  datatype LineResult = Next(p: Parser) | Refused(code: Code)

  /** How the empty line says the body is delimited. */
  function Delimit(p: Parser): LineResult {
    var len, encode := p.req.Header("content-length"), p.req.Header("transfer-encoding");
    if len != "" then
      var n := StrToULL(len, 10);
      if n.end == 0 || n.range then Refused(400)
      else Next(p.(remain := n.value, req := p.req.(contentLength := Some(n.value)),
                   status := if n.value == 0 then GotAll else ExpectBody))
    else if encode == "" then Next(p.(status := GotAll))
    else if encode == "chunked" then Next(p.(status := ExpectChunkLen))
    else Refused(501)
  }

  function EndOfHeaders(p: Parser): LineResult {
    var d := Delimit(p);
    if d.Refused? then d
    else if d.p.remain > p.maxBody then Refused(413)
    else if p.req.expectation == "100-continue" && p.req.version.Http11? then
      if d.p.remain == 0 then Refused(400) else Next(d.p.(continues := d.p.continues + 1))
    else if p.req.expectation != "" then Refused(417)
    else d
  }

  /** strtol on a chunk-size line, stored in a size_t. */
  function ChunkSize(line: string): nat {
    var n, digits := StrToULL(line, 16), TrimLeft(line);
    if digits != "" && digits[0] == '-' then
      if n.value == 0 then 0 else if n.range || n.value < 0x8000_0000_0000_0000 then 0x8000_0000_0000_0000 else n.value
    else if n.value > 0x7FFF_FFFF_FFFF_FFFF then 0x7FFF_FFFF_FFFF_FFFF
    else n.value
  }

  function OnMethod(p: Parser, line: string): LineResult {
    if MethodOf(line) == Invalid then Refused(405)
    else Next(p.(status := ExpectRequestLine, req := p.req.(verb := MethodOf(line))))
  }

  function OnRequestLine(p: Parser, line: string): LineResult {
    match ProcessRequestLine(p.req, line)
    case None => Refused(400)
    case Some(r) => Next(p.(status := ExpectHeaders, req := r))
  }

  function OnHeaderLine(p: Parser, line: string): LineResult {
    var colon := IndexOf(line, ':');
    if colon < |line| then Next(p.(req := AddHeader(p.req, line[..colon], line[colon + 1..])))
    else EndOfHeaders(p)
  }

  function OnChunkLen(p: Parser, line: string): LineResult {
    var n := ChunkSize(line);
    if n == 0 then Next(p.(chunk := 0, status := ExpectLastEmptyChunk))
    else if n + p.remain > p.maxBody then Refused(413)
    else Next(p.(chunk := n, status := ExpectChunkBody))
  }

  // ----- one round of parseRequest -----

  /** More: another round. Wait: return 0. Got: return 1. Bad and TooLong: return the negated status code. */
  datatype Round = More(p: Parser, rest: string) | Wait(p: Parser, rest: string) | Got(p: Parser, rest: string)
                 | Bad(code: Code) | TooLong(code: Code)

  predicate ByLine(status: Status) {
    status.ExpectMethod? || status.ExpectRequestLine? || status.ExpectHeaders? || status.ExpectChunkLen?
  }

  function Delimiter(status: Status): (d: string)
    ensures d != ""
  {
    if status.ExpectMethod? then " " else CRLF
  }

  /** From this many bytes on, an unfinished line is refused. */
  function Limit(status: Status): nat {
    if status.ExpectMethod? then 8 else if status.ExpectChunkLen? then 19 else 65536
  }

  function LimitCode(status: Status): Code { if status.ExpectRequestLine? then 414 else 400 }

  function OnLine(p: Parser, line: string): LineResult
    requires ByLine(p.status)
  {
    match p.status
    case ExpectMethod => OnMethod(p, line)
    case ExpectRequestLine => OnRequestLine(p, line)
    case ExpectHeaders => OnHeaderLine(p, line)
    case ExpectChunkLen => OnChunkLen(p, line)
  }

  function LineRound(p: Parser, b: string): Round
    requires ByLine(p.status)
  {
    var d := Delimiter(p.status);
    var pos := Find(b, d);
    if pos < 0 then if |b| >= Limit(p.status) then TooLong(LimitCode(p.status)) else Wait(p, b)
    else
      match OnLine(p, b[..pos])
      case Next(q) => More(q, b[pos + |d|..])
      case Refused(code) => Bad(code)
  }

  function BodyRound(p: Parser, b: string): Round {
    if |b| < p.remain then Wait(p.(req := p.req.(body := p.req.body + b), remain := p.remain - |b|), "")
    else Got(p.(req := p.req.(body := p.req.body + b[..p.remain]), remain := 0, status := GotAll), b[p.remain..])
  }

  function ChunkBodyRound(p: Parser, b: string): Round {
    if |b| < p.chunk + 2 then Wait(p, b)
    else if b[p.chunk] != '\r' || b[p.chunk + 1] != '\n' then Bad(400)
    else More(p.(req := p.req.(body := p.req.body + b[..p.chunk]), remain := p.remain + p.chunk, chunk := 0,
                 status := ExpectChunkLen), b[p.chunk + 2..])
  }

  function Unchunked(req: Request): Request {
    req.(headers := req.headers["content-length" := Decimal(|req.body|)] - {"transfer-encoding"})
  }

  function LastChunkRound(p: Parser, b: string): Round {
    if |b| < 2 then Wait(p, b)
    else if b[0] != '\r' || b[1] != '\n' then Bad(400)
    else Got(p.(req := Unchunked(p.req), status := GotAll), b[2..])
  }

  function ParserRound(p: Parser, b: string): Round {
    match p.status
    case ExpectBody => BodyRound(p, b)
    case ExpectChunkBody => ChunkBodyRound(p, b)
    case ExpectLastEmptyChunk => LastChunkRound(p, b)
    case GotAll => Got(p, b)
    case _ => LineRound(p, b)
  }

  /** The line in front ends early enough not to be refused, wherever it is cut. */
  predicate LineFits(p: Parser, b: string) {
    ByLine(p.status) ==> Find(b, Delimiter(p.status)) + |Delimiter(p.status)| <= Limit(p.status)
  }

  // ----- the receive loop of the server -----

  /** A connection as the parser sees it: the requests read so far and the code it was refused with. */
  datatype Session = Session(parser: Parser, ready: seq<Request>, refused: Option<Code>)

  function Reset(p: Parser): Parser { p.(status := ExpectMethod, req := NEW_REQUEST, remain := 0) }

  function Step(s: Session, b: string): Outcome<Session> {
    match ParserRound(s.parser, b)
    case More(p, r) => Advance(s.(parser := p), r)
    case Wait(p, r) => Pause(s.(parser := p), r)
    case Got(p, r) => Advance(s.(parser := Reset(p), ready := s.ready + [p.req]), r)
    case Bad(code) => Halt(s.(refused := Some(code)))
    case TooLong(code) => Over(s.(refused := Some(code)))
  }

  function Rank(s: Session): nat { if s.parser.status.ExpectMethod? then 0 else 1 }

  predicate SessionFits(s: Session, b: string) { LineFits(s.parser, b) }

  function RequestMachine(): Machine<Session> { Machine(Step, Rank, SessionFits) }

  function Opened(maxBody: nat): Session { Session(FreshParser(maxBody), [], None) }

  // ----- rounds and cuts -----

  ghost predicate RoundStable(p: Parser, b: string, x: string) {
    match ParserRound(p, b)
    case More(q, r) => ParserRound(p, b + x) == More(q, r + x)
    case Got(q, r) => ParserRound(p, b + x) == Got(q, r + x)
    case Wait(q, r) => ParserRound(q, r + x) == ParserRound(p, b + x) && LineFits(q, r + x) == LineFits(p, b + x)
                       && (q == p || !(ParserRound(p, b + x).Bad? || ParserRound(p, b + x).TooLong?))
    case Bad(code) => ParserRound(p, b + x) == Bad(code)
    case TooLong(code) => ParserRound(p, b + x) == TooLong(code) || !LineFits(p, b + x)
  }

  ghost predicate RoundLocal(p: Parser, b: string, n: nat)
    requires n <= |b|
  {
    match ParserRound(p, b)
    case More(q, r) =>
      |r| < |b| && r == b[|b| - |r|..] && (|b| - |r| <= n ==> ParserRound(p, b[..n]) == More(q, b[|b| - |r|..n]))
    case Got(q, r) =>
      |r| <= |b| && r == b[|b| - |r|..] && (|b| - |r| <= n ==> ParserRound(p, b[..n]) == Got(q, b[|b| - |r|..n]))
      && (|r| == |b| ==> !p.status.ExpectMethod?)
    case _ => true
  }

  lemma LineStays(b: string, x: string, d: string)
    requires Find(b, d) >= 0
    ensures Find(b + x, d) == Find(b, d)
    ensures (b + x)[..Find(b, d)] == b[..Find(b, d)]
    ensures (b + x)[Find(b, d) + |d|..] == b[Find(b, d) + |d|..] + x
  {
    FindExtend(b, x, d);
  }

  /** A line not yet found in b ends behind all of b but the last bytes of its delimiter. */
  lemma LineLater(b: string, x: string, d: string)
    requires d != "" && Find(b, d) < 0 && Find(b + x, d) >= 0
    ensures Find(b + x, d) + |d| > |b|
  {
    var f := Find(b + x, d);
    if f + |d| <= |b| {
      AtPrefix(b, x, d, f);
    }
  }

  lemma LineStable(p: Parser, b: string, x: string)
    requires ByLine(p.status)
    ensures RoundStable(p, b, x)
  {
    hide OnLine;
    var d := Delimiter(p.status);
    if Find(b, d) >= 0 {
      LineStays(b, x, d);
    } else if Find(b + x, d) >= 0 {
      LineLater(b, x, d);
    }
  }

  lemma LineLocal(p: Parser, b: string, n: nat)
    requires ByLine(p.status) && n <= |b|
    ensures RoundLocal(p, b, n)
  {
    hide OnLine;
    var d := Delimiter(p.status);
    var f := Find(b, d);
    if 0 <= f && f + |d| <= n {
      FindCut(b, d, n);
      assert b[..n][..f] == b[..f] && b[..n][f + |d|..] == b[f + |d|..n];
    }
  }

  lemma BodyStable(p: Parser, b: string, x: string)
    requires p.status.ExpectBody?
    ensures RoundStable(p, b, x)
  {
    if p.remain <= |b| {
      assert (b + x)[..p.remain] == b[..p.remain] && (b + x)[p.remain..] == b[p.remain..] + x;
    } else {
      BodyGoesOn(p, b, x);
      assert "" + x == x;
    }
  }

  lemma BodyGoesOn(p: Parser, b: string, x: string)
    requires p.remain > |b|
    ensures BodyRound(p.(req := p.req.(body := p.req.body + b), remain := p.remain - |b|), x) == BodyRound(p, b + x)
  {
    var left := p.remain - |b|;
    if left <= |x| {
      assert (b + x)[..p.remain] == b + x[..left] && (b + x)[p.remain..] == x[left..];
      assert (p.req.body + b) + x[..left] == p.req.body + (b + x[..left]);
    } else {
      assert (p.req.body + b) + x == p.req.body + (b + x);
    }
  }

  lemma ChunkBodyStable(p: Parser, b: string, x: string)
    requires p.status.ExpectChunkBody?
    ensures RoundStable(p, b, x)
  {
    if |b| >= p.chunk + 2 {
      assert (b + x)[..p.chunk] == b[..p.chunk] && (b + x)[p.chunk + 2..] == b[p.chunk + 2..] + x;
    }
  }

  lemma AnyRoundStable(p: Parser, b: string, x: string)
    ensures RoundStable(p, b, x)
  {
    match p.status
    case ExpectBody => BodyStable(p, b, x);
    case ExpectChunkBody => ChunkBodyStable(p, b, x);
    case ExpectLastEmptyChunk => LastChunkStable(p, b, x);
    case GotAll =>
    case _ => LineStable(p, b, x);
  }

  lemma LastChunkStable(p: Parser, b: string, x: string)
    requires p.status.ExpectLastEmptyChunk?
    ensures RoundStable(p, b, x)
  {
    hide Unchunked;
    if |b| >= 2 {
      assert (b + x)[2..] == b[2..] + x;
    }
  }

  lemma AnyRoundLocal(p: Parser, b: string, n: nat)
    requires n <= |b|
    ensures RoundLocal(p, b, n)
  {
    hide Unchunked;
    match p.status {
      case ExpectBody =>
        if p.remain <= n {
          assert b[..n][..p.remain] == b[..p.remain] && b[..n][p.remain..] == b[p.remain..n];
        }
      case ExpectChunkBody =>
        if p.chunk + 2 <= n {
          assert b[..n][..p.chunk] == b[..p.chunk] && b[..n][p.chunk + 2..] == b[p.chunk + 2..n];
        }
      case ExpectLastEmptyChunk =>
        if 2 <= n {
          assert b[..n][2..] == b[2..n];
        }
      case GotAll =>
      case _ => LineLocal(p, b, n);
    }
  }

  lemma StepStable(s: Session, b: string, x: string)
    ensures Stable(RequestMachine(), s, b, x)
  {
    hide ParserRound, LineFits;
    AnyRoundStable(s.parser, b, x);
  }

  lemma StepProgress(s: Session, b: string)
    ensures Progress(RequestMachine(), s, b)
  {
    hide ParserRound;
    AnyRoundLocal(s.parser, b, |b|);
  }

  lemma StepLocal(s: Session, b: string, n: nat)
    requires n <= |b|
    ensures match Step(s, b)
            case Advance(t, r) => |r| <= |b| && r == b[|b| - |r|..] &&
                                  (|b| - |r| <= n ==> Step(s, b[..n]) == Advance(t, b[|b| - |r|..n]))
            case _ => true
  {
    hide ParserRound;
    AnyRoundLocal(s.parser, b, n);
  }

  /** A line that does not fit is refused when all of it but its end has arrived. */
  lemma StepExposed(s: Session, b: string)
    ensures Exposed(RequestMachine(), s, b)
  {
    hide OnLine;
    if !LineFits(s.parser, b) {
      var d, limit := Delimiter(s.parser.status), Limit(s.parser.status);
      FindShort(b, d, limit);
      assert Step(s, b[..limit]).Over?;
    }
  }

  lemma NeverOver(s: Session)
    ensures !Step(s, "").Over?
  {
    hide OnLine;
  }

  lemma RequestsCoherent()
    ensures Coherent(RequestMachine())
  {
    hide Step, SessionFits;
    forall s: Session, b: string, x: string
      ensures Stable(RequestMachine(), s, b, x)
    {
      StepStable(s, b, x);
    }
    forall s: Session, b: string
      ensures Progress(RequestMachine(), s, b) && Exposed(RequestMachine(), s, b)
    {
      StepProgress(s, b);
      StepExposed(s, b);
    }
    forall s: Session, b: string, n: nat | 0 < n <= |b|
      ensures Local(RequestMachine(), s, b, n)
    {
      StepLocal(s, b, n);
    }
    forall s: Session
      ensures !RequestMachine().step(s, "").Over?
    {
      NeverOver(s);
    }
  }

  // ----- what the server does with the requests -----

  /** onMessage between two packets: `requests` handed to onRequests so far, in order. */
  datatype Server = Server(session: Session, rest: string, dispatched: seq<Request>, stopped: bool)

  ghost function Parsed(s: Session, b: string): Final<Session> {
    RequestsCoherent();
    Run(RequestMachine(), s, b)
  }

  ghost predicate LinesFit(s: Session, b: string) {
    RequestsCoherent();
    Fits(RequestMachine(), s, b)
  }

  /** One packet: the requests completed by it are dispatched together, but none when the packet also holds an error;
      after an error nothing is read any more. */
  ghost function OnMessage(v: Server, packet: string): Server {
    if v.stopped then v
    else
      match Parsed(v.session, v.rest + packet)
      case Waiting(s, r) => v.(session := s, rest := r, dispatched := s.ready)
      case f => v.(session := f.state, rest := "", stopped := true)
  }

  ghost function OnMessages(v: Server, packets: seq<string>): Server
    decreases |packets|
  {
    if packets == [] then v else OnMessages(OnMessage(v, packets[0]), packets[1..])
  }

  function Start(maxBody: nat): Server { Server(Opened(maxBody), "", [], false) }

  ghost function AsFinal(v: Server): Final<Session> {
    if !v.stopped then Waiting(v.session, v.rest) else Halted(v.session)
  }

  ghost function Fed(f: Final<Session>, packets: seq<string>): Final<Session> {
    RequestsCoherent();
    FeedAll(RequestMachine(), f, packets)
  }

  lemma ParsedStep(s: Session, b: string)
    ensures match Step(s, b)
            case Advance(t, r) => Parsed(s, b) == Parsed(t, r) &&
                                  (|r| < |b| || (|r| == |b| && Rank(t) < Rank(s)))
            case Pause(t, r) => Parsed(s, b) == Waiting(t, r)
            case Halt(t) => Parsed(s, b) == Halted(t)
            case Over(t) => Parsed(s, b) == OverLimit(t)
  {
    RequestsCoherent();
    hide Step;
    assert Progress(RequestMachine(), s, b);
  }

  lemma LinesFitStep(s: Session, b: string)
    ensures LinesFit(s, b) <==>
            SessionFits(s, b) &&
            match Step(s, b)
            case Advance(t, r) => LinesFit(t, r)
            case Over(_) => false
            case _ => true
  {
    RequestsCoherent();
    hide Step, SessionFits;
    assert Progress(RequestMachine(), s, b);
  }

  /** The server is the parser fed packet by packet. */
  lemma {:induction false} ServerFeeds(v: Server, packets: seq<string>)
    requires v.stopped ==> v.rest == ""
    requires !v.stopped ==> v.dispatched == v.session.ready
    ensures var f, w := Fed(AsFinal(v), packets), OnMessages(v, packets);
            w.session == f.state && w.stopped == !f.Waiting? && w.rest == (if f.Waiting? then f.rest else "") &&
            (f.Waiting? ==> w.dispatched == f.state.ready)
    decreases |packets|
  {
    RequestsCoherent();
    hide Step;
    if packets != [] {
      if v.stopped {
        FeedAllStopped(RequestMachine(), AsFinal(v), packets);
        ServerFeeds(v, packets[1..]);
        FeedAllStopped(RequestMachine(), AsFinal(v), packets[1..]);
      } else {
        var w := OnMessage(v, packets[0]);
        ServerFeeds(w, packets[1..]);
        var f := Feed(RequestMachine(), AsFinal(v), packets[0]);
        if !f.Waiting? {
          FeedAllStopped(RequestMachine(), f, packets[1..]);
          FeedAllStopped(RequestMachine(), AsFinal(w), packets[1..]);
        }
      }
    }
  }

  lemma FedIsParsed(s: Session, packets: seq<string>)
    requires packets != [] && LinesFit(s, Concat(packets))
    ensures Fed(Waiting(s, ""), packets) == Parsed(s, Concat(packets))
  {
    RequestsCoherent();
    hide Step, SessionFits;
    assert "" + Concat(packets) == Concat(packets);
    FeedAllIsRun(RequestMachine(), Waiting(s, ""), packets);
  }

  /** With lines that fit, packets change neither the requests read (first line, headers, cookies, body, count), nor
      the 100 responses written, nor whether and how the connection is refused. */
  lemma ParsedFragmentation(maxBody: nat, packets: seq<string>)
    requires packets != [] && LinesFit(Opened(maxBody), Concat(packets))
    ensures OnMessages(Start(maxBody), packets).session == Parsed(Opened(maxBody), Concat(packets)).state
    ensures OnMessages(Start(maxBody), packets).stopped == Parsed(Opened(maxBody), Concat(packets)).Halted?
  {
    hide Step, Parsed;
    ServerFeeds(Start(maxBody), packets);
    FedIsParsed(Opened(maxBody), packets);
    FitsNotOver(Opened(maxBody), Concat(packets));
  }

  lemma FitsNotOver(s: Session, b: string)
    requires LinesFit(s, b)
    ensures !Parsed(s, b).OverLimit?
  {
    RequestsCoherent();
    hide Step, SessionFits;
    assert b + "" == b;
    FitsSplit(RequestMachine(), s, b, "");
  }

  /** These packets leave the result of the parse what it is on the uncut input, and no limit is met. */
  ghost predicate CutUnseen(maxBody: nat, input: string, packets: seq<string>) {
    RequestsCoherent();
    Agrees(RequestMachine(), Opened(maxBody), input, packets)
  }

  /** Size limits apart, parsing is independent of packets for exactly the inputs whose lines fit. */
  lemma LineLimitsDecide(maxBody: nat, input: string)
    ensures LinesFit(Opened(maxBody), input) <==>
            (forall packets | packets != [] && Concat(packets) == input :: CutUnseen(maxBody, input, packets))
  {
    RequestsCoherent();
    hide Step, SessionFits;
    FragmentationInvariance(RequestMachine(), Opened(maxBody), input);
  }

  lemma CutUnseenIs(maxBody: nat, input: string, packets: seq<string>)
    ensures CutUnseen(maxBody, input, packets) <==>
            Fed(Waiting(Opened(maxBody), ""), packets) == Parsed(Opened(maxBody), input) &&
            !Parsed(Opened(maxBody), input).OverLimit?
  {
    RequestsCoherent();
    hide Step, SessionFits;
  }

  /** A method of more than seven bytes is refused when its blank comes late: every input that begins with PROPFIND can
      be cut so that it is refused, although uncut it is read. */
  lemma PropfindNeverFits(maxBody: nat, rest: string)
    ensures !LinesFit(Opened(maxBody), "PROPFIND " + rest)
    ensures OnMessages(Start(maxBody), [PROPFIND_NAME, " " + rest]).session.refused == Some(400)
  {
    hide Parsed, OnLine, OnMessages;
    var b := "PROPFIND " + rest;
    CharFound("", PROPFIND_NAME, ' ', rest);
    assert "" + (PROPFIND_NAME + " " + rest) == b;
    LinesFitStep(Opened(maxBody), b);
    assert b == PROPFIND_NAME + (" " + rest);
    NoBlank();
    LongMethodRefused(maxBody, PROPFIND_NAME, " " + rest);
  }

  /** A packet that ends a method of eight bytes or more in front of its blank. */
  lemma LongMethodRefused(maxBody: nat, name: string, rest: string)
    requires |name| >= 8 && Find(name, " ") < 0
    ensures OnMessages(Start(maxBody), [name, rest]).session.refused == Some(400)
  {
    hide Parsed, OnLine, Find;
    var packets := [name, rest];
    ParsedStep(Opened(maxBody), name);
    assert "" + name == name;
    var v := OnMessage(Start(maxBody), name);
    hide OnMessage;
    assert packets[1..] == [rest] && [rest][1..] == [];
    assert OnMessages(v, [rest]) == OnMessages(OnMessage(v, rest), []);
    StoppedStays(v, rest);
  }

  lemma StoppedStays(v: Server, packet: string)
    ensures v.stopped ==> OnMessage(v, packet) == v
  {
  }

  const PROPFIND_NAME: string := "PROPFIND"

  lemma NoBlank()
    ensures ' ' !in PROPFIND_NAME && Find(PROPFIND_NAME, " ") < 0
  {
    if Find(PROPFIND_NAME, " ") >= 0 {
      SingleAt(PROPFIND_NAME, ' ', Find(PROPFIND_NAME, " "));
    }
  }

  // ----- the limit on bodies -----

  /** What has been read of a body and what is announced stay within the limit. */
  predicate Bounded(p: Parser) {
    match p.status
    case ExpectBody => |p.req.body| + p.remain <= p.maxBody
    case ExpectChunkLen => |p.req.body| == p.remain <= p.maxBody
    case ExpectLastEmptyChunk => |p.req.body| <= p.maxBody
    case ExpectChunkBody => |p.req.body| == p.remain && p.remain + p.chunk <= p.maxBody
    case GotAll => |p.req.body| <= p.maxBody
    case _ => p.req.body == "" && p.remain == 0
  }

  predicate AllBounded(requests: seq<Request>, maxBody: nat) {
    forall i | 0 <= i < |requests| :: |requests[i].body| <= maxBody
  }

  predicate InBounds(s: Session) { Bounded(s.parser) && AllBounded(s.ready, s.parser.maxBody) }

  lemma OnLineBounded(p: Parser, line: string)
    requires ByLine(p.status) && Bounded(p) && OnLine(p, line).Next?
    ensures Bounded(OnLine(p, line).p) && OnLine(p, line).p.maxBody == p.maxBody
  {
    hide StrToULL, IndexOf, ProcessRequestLine, AddCookies, LowerAll, ChunkSize;
    if p.status.ExpectRequestLine? {
      RequestLineKeepsBody(p.req, line);
    }
  }

  lemma RequestLineKeepsBody(req: Request, line: string)
    ensures var r := ProcessRequestLine(req, line); r.Some? ==> r.value.body == req.body
  {
    hide IndexOf;
  }

  lemma StepBounded(s: Session, b: string)
    requires InBounds(s)
    ensures match Step(s, b)
            case Advance(t, _) => InBounds(t) && t.parser.maxBody == s.parser.maxBody
            case Pause(t, _) => InBounds(t) && t.parser.maxBody == s.parser.maxBody
            case Halt(t) => InBounds(t) && t.parser.maxBody == s.parser.maxBody
            case Over(t) => InBounds(t) && t.parser.maxBody == s.parser.maxBody
  {
    hide OnLine, Unchunked, Find;
    if ByLine(s.parser.status) {
      var pos := Find(b, Delimiter(s.parser.status));
      if pos >= 0 && OnLine(s.parser, b[..pos]).Next? {
        OnLineBounded(s.parser, b[..pos]);
      }
    }
    UnchunkedBody(s.parser.req);
  }

  lemma UnchunkedBody(req: Request)
    ensures Unchunked(req).body == req.body
  {
  }

  lemma {:induction false} ParsedBounded(s: Session, b: string)
    requires InBounds(s)
    ensures InBounds(Parsed(s, b).state) && Parsed(s, b).state.parser.maxBody == s.parser.maxBody
    decreases |b|, Rank(s)
  {
    hide Step, Parsed, InBounds;
    ParsedStep(s, b);
    StepBounded(s, b);
    match Step(s, b)
    case Advance(t, r) => ParsedBounded(t, r);
    case _ =>
  }

  /** Whatever arrives, in whatever packets: no request with a body over the limit is dispatched. */
  lemma {:induction false} DispatchedBounded(v: Server, packets: seq<string>)
    requires InBounds(v.session) && AllBounded(v.dispatched, v.session.parser.maxBody)
    ensures AllBounded(OnMessages(v, packets).dispatched, v.session.parser.maxBody)
    decreases |packets|
  {
    hide Parsed, InBounds;
    if packets != [] {
      var w := OnMessage(v, packets[0]);
      ParsedBounded(v.session, v.rest + packets[0]);
      BoundsReady(Parsed(v.session, v.rest + packets[0]).state);
      DispatchedBounded(w, packets[1..]);
    }
  }

  lemma BoundsReady(s: Session)
    ensures InBounds(s) ==> AllBounded(s.ready, s.parser.maxBody)
  {
  }

  /** On a connection from its start. */
  lemma NoLargeBody(maxBody: nat, packets: seq<string>, i: nat)
    requires i < |OnMessages(Start(maxBody), packets).dispatched|
    ensures |OnMessages(Start(maxBody), packets).dispatched[i].body| <= maxBody
  {
    hide OnMessages;
    DispatchedBounded(Start(maxBody), packets);
  }

  // ----- which requests are dispatched -----

  /** Packets make no difference to the requests dispatched. */
  ghost predicate DispatchSame(maxBody: nat, input: string) {
    forall packets | packets != [] && Concat(packets) == input ::
      OnMessages(Start(maxBody), packets).dispatched == OnMessage(Start(maxBody), input).dispatched
  }

  lemma {:induction false} ReadyGrows(s: Session, b: string)
    ensures s.ready <= Parsed(s, b).state.ready
    decreases |b|, Rank(s)
  {
    hide ParserRound, Parsed;
    ParsedStep(s, b);
    match Step(s, b)
    case Advance(t, r) => ReadyGrows(t, r);
    case _ =>
  }

  /** Up to the end of the first request completed, the parser waits with that request read. */
  lemma {:induction false} FirstCompleted(s: Session, b: string) returns (k: nat)
    requires s.ready == [] && Parsed(s, b).state.ready != []
    ensures k <= |b| && Parsed(s, b[..k]).Waiting? && Parsed(s, b[..k]).state.ready != []
    decreases |b|, Rank(s)
  {
    hide ParserRound, Parsed;
    ParsedStep(s, b);
    var t, r := Step(s, b).next, Step(s, b).rest;
    StepLocal(s, b, |b|);
    k := |b| - |r|;
    if t.ready == [] {
      var j := FirstCompleted(t, r);
      k := k + j;
      StepLocal(s, b, k);
      ParsedStep(s, b[..k]);
      assert b[|b| - |r|..k] == r[..j];
    } else {
      StepLocal(s, b, k);
      ParsedStep(s, b[..k]);
      assert b[k..k] == "";
      EmptyWaits(t);
    }
  }

  lemma EmptyWaits(t: Session)
    requires t.parser.status.ExpectMethod?
    ensures Parsed(t, "") == Waiting(t, "")
  {
    hide Parsed;
    ParsedStep(t, "");
  }

  /** No request is dispatched before the parser has read it. */
  lemma {:induction false} NoneDispatched(v: Server, packets: seq<string>)
    requires v.dispatched == [] && OnMessages(v, packets).session.ready == []
    ensures OnMessages(v, packets).dispatched == []
    decreases |packets|
  {
    hide Parsed;
    if packets != [] {
      var w := OnMessage(v, packets[0]);
      SessionGrows(w, packets[1..]);
      NoneDispatched(w, packets[1..]);
    }
  }

  lemma {:induction false} SessionGrows(v: Server, packets: seq<string>)
    ensures v.session.ready <= OnMessages(v, packets).session.ready
    decreases |packets|
  {
    hide Parsed;
    if packets != [] {
      ReadyGrows(v.session, v.rest + packets[0]);
      SessionGrows(OnMessage(v, packets[0]), packets[1..]);
    }
  }

  /** The requests dispatched do not depend on packets exactly when the uncut input parses without error or holds no
      complete request before the error: requests that arrive in one packet with a later error are dropped. */
  lemma DispatchFragmentation(maxBody: nat, input: string)
    requires LinesFit(Opened(maxBody), input)
    ensures DispatchSame(maxBody, input) <==>
            Parsed(Opened(maxBody), input).Waiting? || Parsed(Opened(maxBody), input).state.ready == []
  {
    hide Parsed, Step, LinesFit, OnMessage;
    var s, f := Opened(maxBody), Parsed(Opened(maxBody), input);
    OneMessage(maxBody, input);
    if f.Waiting? || f.state.ready == [] {
      forall packets | packets != [] && Concat(packets) == input
        ensures OnMessages(Start(maxBody), packets).dispatched == OnMessage(Start(maxBody), input).dispatched
      {
        ManyMessages(maxBody, packets);
      }
    } else {
      var k := FirstCompleted(s, input);
      EarlyDispatch(maxBody, input, k);
    }
  }

  lemma OneMessage(maxBody: nat, input: string)
    ensures var f := Parsed(Opened(maxBody), input);
            OnMessage(Start(maxBody), input).dispatched == if f.Waiting? then f.state.ready else []
    ensures var v := OnMessage(Start(maxBody), input); v.stopped || v.dispatched == v.session.ready
    ensures OnMessage(Start(maxBody), input).stopped <==> !Parsed(Opened(maxBody), input).Waiting?
  {
    hide Parsed;
    assert "" + input == input;
  }

  lemma ManyMessages(maxBody: nat, packets: seq<string>)
    requires packets != [] && LinesFit(Opened(maxBody), Concat(packets))
    requires var f := Parsed(Opened(maxBody), Concat(packets)); f.Waiting? || f.state.ready == []
    ensures var f := Parsed(Opened(maxBody), Concat(packets));
            OnMessages(Start(maxBody), packets).dispatched == if f.Waiting? then f.state.ready else []
  {
    hide Parsed, Step, LinesFit, OnMessage;
    ServerFeeds(Start(maxBody), packets);
    FedIsParsed(Opened(maxBody), packets);
    if !Parsed(Opened(maxBody), Concat(packets)).Waiting? {
      NoneDispatched(Start(maxBody), packets);
    }
  }

  /** A packet that ends behind the first request has it dispatched. */
  lemma EarlyDispatch(maxBody: nat, input: string, k: nat)
    requires k <= |input| && Parsed(Opened(maxBody), input[..k]).Waiting?
    requires Parsed(Opened(maxBody), input[..k]).state.ready != []
    requires OnMessage(Start(maxBody), input).dispatched == []
    ensures !DispatchSame(maxBody, input)
  {
    hide Parsed, Step, OnMessage;
    var packets := [input[..k], input[k..]];
    TwoPackets(input[..k], input[k..]);
    assert Concat(packets) == input;
    OneMessage(maxBody, input[..k]);
    var v := OnMessage(Start(maxBody), input[..k]);
    assert packets[1..] == [input[k..]];
    DispatchedStays(v, packets[1..]);
  }

  lemma TwoPackets(a: string, b: string)
    ensures Concat([a, b]) == a + b
  {
    assert [a, b][1..] == [b] && [b][1..] == [];
    assert Concat([b]) == b + "" == b;
  }

  lemma {:induction false} DispatchedStays(v: Server, packets: seq<string>)
    requires v.dispatched != [] && (v.stopped || v.dispatched == v.session.ready)
    ensures OnMessages(v, packets).dispatched != []
    decreases |packets|
  {
    hide Parsed;
    if packets != [] {
      if !v.stopped {
        ReadyGrows(v.session, v.rest + packets[0]);
      }
      DispatchedStays(OnMessage(v, packets[0]), packets[1..]);
    }
  }
}
