/** Requests as text, in the plain form of section 3 of RFC 7230, what they mean, and how the server reads the pieces
    of one: the request line, the header fields with their cookies, and the body. RequestStreams puts the pieces
    together. */
module RequestText {
  import opened Bytes
  import opened Incremental
  import opened RequestParser
  import Http = ResponseParser
  import Chunking

  datatype Field = Field(name: string, value: string)

  datatype Form = NoBody | Sized(data: string) | Chunked(chunks: seq<string>) | Coded(coding: string)

  /** `cookies` go in one Cookie field; `expects`, if not empty, in an Expect field. */
  datatype Message = Message(verb: Method, path: string, query: string, http11: bool, fields: seq<Field>,
                             cookies: seq<Field>, expects: string, form: Form)

  // ----- the text -----

  function MethodName(verb: Method): string {
    match verb
    case Invalid => ""
    case Get => "GET"
    case Put => "PUT"
    case Post => "POST"
    case Head => "HEAD"
    case Copy => "COPY"
    case Move => "MOVE"
    case Patch => "PATCH"
    case Mkcol => "MKCOL"
    case Delete => "DELETE"
    case Options => "OPTIONS"
    case Propfind => "PROPFIND"
  }

  function Target(m: Message): string { m.path + if m.query == "" then "" else "?" + m.query }

  function RequestLine(m: Message): string { Target(m) + " " + VersionText(m.http11) }

  function Line(f: Field): string { f.name + ":" + (" " + f.value) }

  function Lines(fields: seq<Field>): string {
    if fields == [] then "" else Line(fields[0]) + CRLF + Lines(fields[1..])
  }

  function Pair(c: Field): string { c.name + "=" + c.value }

  function CookieText(cookies: seq<Field>): string {
    if cookies == [] then "" else if |cookies| == 1 then Pair(cookies[0])
    else Pair(cookies[0]) + ";" + CookieText(cookies[1..])
  }

  function CookieField(cookies: seq<Field>): seq<Field> {
    if cookies == [] then [] else [Field(COOKIE_NAME, CookieText(cookies))]
  }

  function ExpectField(expects: string): seq<Field> {
    if expects == "" then [] else [Field(EXPECT_NAME, expects)]
  }

  /** The header field that says how the body is delimited. */
  function FormField(form: Form): seq<Field> {
    match form
    case NoBody => []
    case Sized(data) => [Field("content-length", Decimal(|data|))]
    case Chunked(_) => [Field("transfer-encoding", "chunked")]
    case Coded(coding) => [Field("transfer-encoding", coding)]
  }

  function Joined(chunks: seq<string>): string {
    if chunks == [] then "" else chunks[0] + Joined(chunks[1..])
  }

  function BodyOf(form: Form): string {
    match form
    case NoBody => ""
    case Sized(data) => data
    case Chunked(chunks) => Joined(chunks)
    case Coded(_) => ""
  }

  /** Chunks with their sizes in nine hexadecimal digits, and the last chunk. */
  function ChunksText(chunks: seq<string>): string {
    if chunks == [] then "0" + CRLF + CRLF
    else Chunking.Hex(|chunks[0]|, 9) + CRLF + (chunks[0] + CRLF + ChunksText(chunks[1..]))
  }

  function BodyText(form: Form): string {
    match form
    case NoBody => ""
    case Sized(data) => data
    case Chunked(chunks) => ChunksText(chunks)
    case Coded(_) => ""
  }

  function Text(m: Message): string {
    MethodName(m.verb) + " " +
    (RequestLine(m) + CRLF +
     (Lines(m.fields) +
      (Lines(CookieField(m.cookies)) +
       (Lines(ExpectField(m.expects)) + (Lines(FormField(m.form)) + (CRLF + BodyText(m.form)))))))
  }

  function Texts(ms: seq<Message>): string {
    if ms == [] then "" else Text(ms[0]) + Texts(ms[1..])
  }

  // ----- what is plain -----

  /** A field whose name says nothing about cookies, an expectation or the body. */
  predicate Ordinary(name: string) {
    name != "cookie" && name != "expect" && name != "content-length" && name != "transfer-encoding"
  }

  predicate Trimmed(value: string) {
    value == "" || (!IsSpace(value[0]) && !IsSpace(value[|value| - 1]))
  }

  predicate PlainField(f: Field) {
    ':' !in f.name && OneLine(Line(f)) && Trimmed(f.value)
  }

  predicate PlainCookie(c: Field) {
    && '=' !in c.name && ';' !in c.name && '\r' !in c.name && (c.name != "" ==> !IsSpace(c.name[0]))
    && ';' !in c.value && '\r' !in c.value && Trimmed(c.value)
  }

  predicate PlainValue(value: string) { Trimmed(value) && '\r' !in value }

  predicate Plain(m: Message) {
    && m.verb != Invalid
    && m.path != "" && m.path[0] == '/' && ' ' !in m.path && '?' !in m.path && '\r' !in m.path
    && ' ' !in m.query && '\r' !in m.query
    && (forall i | 0 <= i < |m.fields| :: PlainField(m.fields[i]) && Ordinary(LowerAll(m.fields[i].name)))
    && (forall i | 0 <= i < |m.cookies| :: PlainCookie(m.cookies[i]))
    && PlainValue(m.expects) && |BodyOf(m.form)| <= SIZE_MAX
    && (m.form.Coded? ==> m.form.coding != "" && m.form.coding != "chunked" && PlainValue(m.form.coding))
    && (m.form.Chunked? ==>
          forall i | 0 <= i < |m.form.chunks| :: 0 < |m.form.chunks[i]| < 0x10_0000_0000)
  }

  // ----- what is refused -----

  /** The status a request is refused with: 501 for a coding that is not known, 413 for a body over the limit, 400 for a
      100 response asked for without announcing a length, 417 for any other expectation. */
  function Refusal(m: Message, maxBody: nat): Option<Code> {
    var large := |BodyOf(m.form)| > maxBody;
    if m.form.Coded? then Some(501)
    else if m.form.Sized? && large then Some(413)
    else if m.expects == "100-continue" && m.http11 then
      if m.form.Sized? && m.form.data != "" then None else Some(400)
    else if m.expects != "" then Some(417)
    else if large then Some(413)
    else None
  }

  // ----- what is read -----

  /** Headers by lower-case name, the first of each name kept. */
  function Collected(fields: seq<Field>, headers: map<string, string>): map<string, string> {
    if fields == [] then headers
    else
      var name := LowerAll(fields[0].name);
      Collected(fields[1..], if name in headers then headers else headers[name := fields[0].value])
  }

  /** Cookies by name, the last of each name kept. */
  function Cookies(cookies: seq<Field>): map<string, string> {
    if cookies == [] then map[] else map[cookies[0].name := cookies[0].value] + Cookies(cookies[1..])
  }

  predicate Says(fields: seq<Field>, value: string) {
    exists i | 0 <= i < |fields| :: LowerAll(fields[i].name) == "connection" && fields[i].value == value
  }

  /** A connection is kept by default from HTTP/1.1 on, and on demand before. */
  predicate Keeps(http11: bool, fields: seq<Field>) {
    if http11 then !Says(fields, "close") else Says(fields, "Keep-Alive") || Says(fields, "keep-alive")
  }

  function HeadersOf(m: Message): map<string, string> {
    var fields := Collected(m.fields, map[]);
    var own := if m.expects == "" then fields else fields["expect" := m.expects];
    if m.form.NoBody? then own else own["content-length" := Decimal(|BodyOf(m.form)|)]
  }

  function Meant(m: Message): Request {
    Request(m.verb, m.path, m.query, if m.http11 then Http.Http11 else Http.Http10, HeadersOf(m), Cookies(m.cookies),
            m.expects, Keeps(m.http11, m.fields),
            if m.form.Sized? then Some(|m.form.data|) else None, BodyOf(m.form))
  }

  function MeantAll(ms: seq<Message>): (r: seq<Request>)
    ensures |r| == |ms| && forall i | 0 <= i < |ms| :: r[i] == Meant(ms[i])
  {
    seq(|ms|, i requires 0 <= i < |ms| => Meant(ms[i]))
  }

  // ----- lines within the limits -----

  predicate ShortField(f: Field) { |Line(f)| + 2 <= 65536 }

  predicate ShortFields(fields: seq<Field>) {
    forall i | 0 <= i < |fields| :: ShortField(fields[i])
  }

  /** The method with its blank within 8 bytes, the request line and the header lines within 64 KiB. */
  predicate Short(m: Message) {
    m.verb != Propfind && |RequestLine(m)| + 2 <= 65536 &&
    ShortFields(m.fields) && ShortFields(CookieField(m.cookies)) && ShortFields(ExpectField(m.expects))
  }

  /** Reading b from s comes to reading r from t, and b fits the limits exactly when r does and `short` holds. */
  ghost predicate Reads(short: bool, s: Session, b: string, t: Session, r: string) {
    Parsed(s, b) == Parsed(t, r) && (LinesFit(s, b) <==> short && LinesFit(t, r))
  }

  /** A round that goes on, with a line that fits or not. */
  lemma ReadsStep(s: Session, b: string)
    requires Step(s, b).Advance?
    ensures Reads(SessionFits(s, b), s, b, Step(s, b).next, Step(s, b).rest)
  {
    hide Step, SessionFits, Parsed, LinesFit;
    ParsedStep(s, b);
    LinesFitStep(s, b);
  }

  lemma {:induction false} DecimalShort(n: nat, digits: nat)
    requires digits > 0 && n < Pow10(digits)
    ensures |Decimal(n)| <= digits
    decreases digits
  {
    if n >= 10 {
      DecimalShort(n / 10, digits - 1);
    }
  }

  function Pow10(k: nat): nat { if k == 0 then 1 else 10 * Pow10(k - 1) }

  lemma LengthShort(n: nat)
    requires n <= SIZE_MAX
    ensures |Decimal(n)| <= 20
  {
    assert Pow10(10) == 10_000_000_000;
    assert Pow10(20) == 100_000_000_000_000_000_000;
    DecimalShort(n, 20);
  }

  // ----- one line -----

  /** A line, read. */
  lemma LineRead(s: Session, line: string, rest: string)
    requires ByLine(s.parser.status) && !s.parser.status.ExpectMethod? && OneLine(line)
    requires OnLine(s.parser, line).Next?
    ensures Reads(|line| + 2 <= Limit(s.parser.status), s, line + CRLF + rest,
                  s.(parser := OnLine(s.parser, line).p), rest)
  {
    hide OnLine, Parsed;
    var b := line + CRLF + rest;
    LineFound(line, rest);
    assert b[..|line|] == line && b[|line| + 2..] == rest;
    ReadsStep(s, b);
  }

  lemma IndexOfIs(s: string, c: char, k: nat)
    requires k <= |s| && (forall i | 0 <= i < k :: s[i] != c) && (k < |s| ==> s[k] == c)
    ensures IndexOf(s, c) == k
  {
  }

  lemma MethodNamed(verb: Method)
    requires verb != Invalid
    ensures MethodOf(MethodName(verb)) == verb && ' ' !in MethodName(verb)
    ensures |MethodName(verb)| + 1 <= 8 <==> verb != Propfind
  {
  }

  lemma MethodRead(s: Session, verb: Method, rest: string)
    requires s.parser.status.ExpectMethod? && verb != Invalid
    ensures Reads(verb != Propfind, s, MethodName(verb) + " " + rest,
                  s.(parser := s.parser.(status := ExpectRequestLine, req := s.parser.req.(verb := verb))), rest)
  {
    hide Parsed, LinesFit, MethodOf;
    MethodNamed(verb);
    var name := MethodName(verb);
    hide MethodName;
    var b := name + " " + rest;
    CharFound("", name, ' ', rest);
    assert "" + b == b;
    assert b[..|name|] == name && b[|name| + 1..] == rest;
    ReadsStep(s, b);
  }

  lemma RequestLineRead(req: Request, m: Message)
    requires Plain(m) && req.query == ""
    ensures ProcessRequestLine(req, RequestLine(m)) ==
            Some(req.(path := m.path, query := m.query, version := if m.http11 then Http.Http11 else Http.Http10,
                      keepAlive := req.keepAlive && m.http11))
    ensures OneLine(RequestLine(m))
  {
    var target, version := Target(m), VersionText(m.http11);
    assert RequestLine(m) == target + " " + version;
    hide ProcessRequestLine, RequestLine, IndexOf, PathStart, OneLine, Plain, Target, VersionOf, VersionText, Locate;
    TargetPlain(m);
    VersionPlain(m.http11);
    LinePlain(target, version);
    TargetRead(req, m);
    LineSplit(req, RequestLine(m), target, version);
  }

  /** Where the first blank splits the line. */
  lemma LineSplit(req: Request, line: string, target: string, version: string)
    requires |target| < |line| && IndexOf(line, ' ') == |target|
    requires line[..|target|] == target && line[|target| + 1..] == version && VersionOf(version).Some?
    ensures var v, located := VersionOf(version).value, Locate(req, target);
            ProcessRequestLine(req, line) ==
            Some(located.(version := v, keepAlive := located.keepAlive && v.Http11?))
  {
    hide IndexOf, VersionOf, Locate;
  }

  function VersionText(http11: bool): string { if http11 then "HTTP/1.1" else "HTTP/1.0" }

  lemma VersionPlain(http11: bool)
    ensures '\r' !in VersionText(http11)
    ensures VersionOf(VersionText(http11)) == Some(if http11 then Http.Http11 else Http.Http10)
  {
    assert "HTTP/1.1"[7] == '1' && "HTTP/1.0"[7] == '0';
  }

  lemma TargetPlain(m: Message)
    requires Plain(m)
    ensures ' ' !in Target(m) && '\r' !in Target(m)
  {
    var target := Target(m);
    assert forall i | 0 <= i < |target| :: target[i] in m.path || target[i] == '?' || target[i] in m.query;
  }

  lemma LinePlain(target: string, version: string)
    requires ' ' !in target && '\r' !in target && '\r' !in version
    ensures var line := target + " " + version;
            OneLine(line) && |target| < |line| && IndexOf(line, ' ') == |target| &&
            line[..|target|] == target && line[|target| + 1..] == version
  {
    var line := target + " " + version;
    assert forall i | 0 <= i < |line| :: line[i] in target || line[i] == ' ' || line[i] in version;
    IndexOfIs(line, ' ', |target|);
  }

  lemma TargetRead(req: Request, m: Message)
    requires Plain(m) && req.query == ""
    ensures Locate(req, Target(m)) == req.(path := m.path, query := m.query)
  {
    var target := Target(m);
    assert target[0] == m.path[0] && target[0..] == target;
    IndexOfIs(target, '/', 0);
    IndexOfIs(target, '?', |m.path|);
    hide IndexOf;
    assert target[0..|m.path|] == m.path;
    assert m.query != "" ==> target[|m.path| + 1..] == m.query;
  }

  lemma TrimsTo(value: string)
    requires Trimmed(value)
    ensures TrimRight(TrimLeft(" " + value)) == value
  {
    assert (" " + value)[1..] == value;
  }

  lemma FieldRead(s: Session, f: Field, rest: string)
    requires s.parser.status.ExpectHeaders? && PlainField(f)
    ensures Reads(ShortField(f), s, Line(f) + CRLF + rest,
                  s.(parser := s.parser.(req := AddHeader(s.parser.req, f.name, " " + f.value))), rest)
  {
    hide Parsed, LinesFit, AddHeader, OneLine;
    var line := Line(f);
    IndexOfIs(line, ':', |f.name|);
    assert line[..|f.name|] == f.name && line[|f.name| + 1..] == " " + f.value;
    LineRead(s, line, rest);
  }

  /** What the fields say of the connection, given what held before them. */
  predicate Kept(req: Request, fields: seq<Field>) {
    if req.version.Http11? then req.keepAlive && !Says(fields, "close")
    else req.keepAlive || Says(fields, "Keep-Alive") || Says(fields, "keep-alive")
  }

  lemma SaysNext(fields: seq<Field>, value: string)
    ensures Says(fields, value) <==>
            fields != [] && (Says([fields[0]], value) || Says(fields[1..], value))
  {
    hide LowerAll;
    if fields != [] && Says([fields[0]], value) {
      assert LowerAll(fields[0].name) == "connection" && fields[0].value == value;
    }
    if fields != [] && Says(fields[1..], value) {
      var i :| 0 <= i < |fields| - 1 && LowerAll(fields[1..][i].name) == "connection" && fields[1..][i].value == value;
      assert fields[i + 1] == fields[1..][i];
    }
    if Says(fields, value) {
      var i :| 0 <= i < |fields| && LowerAll(fields[i].name) == "connection" && fields[i].value == value;
      if i == 0 {
        assert [fields[0]][0] == fields[0];
      } else {
        assert fields[1..][i - 1] == fields[i];
      }
    }
  }

  function WithFields(req: Request, fields: seq<Field>): Request {
    req.(headers := Collected(fields, req.headers), keepAlive := Kept(req, fields))
  }

  lemma WithFieldsNext(req: Request, fields: seq<Field>)
    ensures fields == [] ==> WithFields(req, fields) == req
    ensures fields != [] ==> WithFields(req, fields) == WithFields(WithFields(req, [fields[0]]), fields[1..])
  {
    KeptNext(req, fields);
    hide Kept, LowerAll;
    if fields != [] {
      CollectedOne(fields[0], req.headers);
    }
  }

  lemma KeptNext(req: Request, fields: seq<Field>)
    ensures fields == [] ==> Kept(req, fields) == req.keepAlive
    ensures fields != [] ==>
              Kept(req, fields) == Kept(WithFields(req, [fields[0]]), fields[1..])
  {
    SaysNext(fields, "close");
    SaysNext(fields, "Keep-Alive");
    SaysNext(fields, "keep-alive");
    hide Says, Collected;
  }

  lemma CollectedOne(f: Field, headers: map<string, string>)
    ensures var name := LowerAll(f.name);
            Collected([f], headers) == if name in headers then headers else headers[name := f.value]
  {
    hide LowerAll;
    assert [f][1..] == [];
  }

  lemma {:induction false} FieldsRead(s: Session, fields: seq<Field>, rest: string)
    requires s.parser.status.ExpectHeaders?
    requires forall i | 0 <= i < |fields| :: PlainField(fields[i]) && Ordinary(LowerAll(fields[i].name))
    ensures Reads(ShortFields(fields), s, Lines(fields) + rest,
                  s.(parser := s.parser.(req := WithFields(s.parser.req, fields))), rest)
    decreases |fields|
  {
    hide Parsed, LinesFit, PlainField, Ordinary, WithFields;
    WithFieldsNext(s.parser.req, fields);
    if fields == [] {
      assert "" + rest == rest;
    } else {
      var f := fields[0];
      assert Lines(fields) + rest == Line(f) + CRLF + (Lines(fields[1..]) + rest);
      FieldRead(s, f, Lines(fields[1..]) + rest);
      OrdinaryField(s.parser.req, f);
      FieldsRead(s.(parser := s.parser.(req := AddHeader(s.parser.req, f.name, " " + f.value))), fields[1..], rest);
    }
  }

  lemma OrdinaryField(req: Request, f: Field)
    requires PlainField(f) && Ordinary(LowerAll(f.name))
    ensures AddHeader(req, f.name, " " + f.value) == WithFields(req, [f])
  {
    hide OneLine, LowerAll, Collected;
    TrimsTo(f.value);
    CollectedOne(f, req.headers);
    SaysOne(f, "close");
    SaysOne(f, "Keep-Alive");
    SaysOne(f, "keep-alive");
    hide Says, Trimmed;
  }

  lemma SaysOne(f: Field, value: string)
    ensures Says([f], value) <==> LowerAll(f.name) == "connection" && f.value == value
  {
    assert [f][0] == f;
  }

  /** None of the ordinary fields says anything about an expectation or the body. */
  lemma {:induction false} NothingExtra(fields: seq<Field>, headers: map<string, string>)
    requires forall i | 0 <= i < |fields| :: Ordinary(LowerAll(fields[i].name))
    requires "content-length" !in headers && "transfer-encoding" !in headers && "expect" !in headers
    ensures var all := Collected(fields, headers);
            "content-length" !in all && "transfer-encoding" !in all && "expect" !in all
    decreases |fields|
  {
    hide LowerAll;
    if fields != [] {
      var name := LowerAll(fields[0].name);
      NothingExtra(fields[1..], if name in headers then headers else headers[name := fields[0].value]);
    }
  }

  // ----- cookies -----

  lemma PairRead(c: Field, cookies: map<string, string>)
    requires PlainCookie(c)
    ensures AddCookie(cookies, Pair(c)) == cookies[c.name := c.value] && ';' !in Pair(c) && '\r' !in Pair(c)
  {
    hide IndexOf;
    var text := Pair(c);
    IndexOfIs(text, '=', |c.name|);
    assert text[..|c.name|] == c.name && text[|c.name| + 1..] == c.value;
    forall i | 0 <= i < |text|
      ensures text[i] != ';' && text[i] != '\r'
    {
      assert text[i] in c.name || text[i] == '=' || text[i] in c.value;
    }
  }

  lemma CookiesNext(cookies: seq<Field>, read: map<string, string>)
    requires cookies != []
    ensures var c, more := cookies[0], cookies[1..];
            && CookieText(cookies) == (if |cookies| == 1 then Pair(c) else Pair(c) + ";" + CookieText(more))
            && read + Cookies(cookies) == read[c.name := c.value] + Cookies(more)
            && (|cookies| == 1 ==> Cookies(more) == map[])
  {
    hide Pair;
    Merged(read, cookies[0].name, cookies[0].value, Cookies(cookies[1..]));
  }

  lemma Merged(read: map<string, string>, name: string, value: string, more: map<string, string>)
    ensures read + (map[name := value] + more) == read[name := value] + more
  {
    var one, all := map[name := value], read[name := value];
    forall k | k in read + (one + more)
      ensures k in all + more && (read + (one + more))[k] == (all + more)[k]
    {
      assert k in more || k == name || k in read;
    }
    assert (read + (one + more)).Keys == (all + more).Keys;
  }

  lemma CookiesStep(pair: string, more: string, read: map<string, string>)
    requires ';' !in pair
    ensures AddCookies(read, pair) == AddCookie(read, pair)
    ensures AddCookies(read, pair + ";" + more) == AddCookies(AddCookie(read, pair), more)
  {
    hide AddCookie;
    var text := pair + ";" + more;
    IndexOfIs(pair, ';', |pair|);
    IndexOfIs(text, ';', |pair|);
    hide IndexOf;
    assert text[..|pair|] == pair && text[|pair| + 1..] == more;
  }

  /** Cookies printed into one field are read back, the last of each name kept. */
  lemma {:induction false} CookiesRead(cookies: seq<Field>, read: map<string, string>)
    requires cookies != [] && forall i | 0 <= i < |cookies| :: PlainCookie(cookies[i])
    ensures AddCookies(read, CookieText(cookies)) == read + Cookies(cookies)
    decreases |cookies|
  {
    hide AddCookie, AddCookies, Pair, PlainCookie, CookieText, Cookies;
    var c := cookies[0];
    PairRead(c, read);
    CookiesStep(Pair(c), CookieText(cookies[1..]), read);
    CookiesNext(cookies, read);
    if |cookies| == 1 {
      assert read[c.name := c.value] + map[] == read[c.name := c.value];
    } else {
      CookiesRead(cookies[1..], read[c.name := c.value]);
    }
  }

  lemma {:induction false} CookieTextPlain(cookies: seq<Field>)
    requires cookies != [] && forall i | 0 <= i < |cookies| :: PlainCookie(cookies[i])
    ensures '\r' !in CookieText(cookies) && Trimmed(CookieText(cookies)) && CookieText(cookies) != ""
    decreases |cookies|
  {
    var c := cookies[0];
    PairRead(c, map[]);
    PairEnds(c);
    hide Pair, PlainCookie, IsSpace;
    if |cookies| > 1 {
      CookieTextPlain(cookies[1..]);
      var text := CookieText(cookies);
      assert text[0] == Pair(c)[0] && text[|text| - 1] == CookieText(cookies[1..])[|CookieText(cookies[1..])| - 1];
    }
  }

  lemma PairEnds(c: Field)
    requires PlainCookie(c)
    ensures Pair(c) != "" && Trimmed(Pair(c))
  {
    var text := Pair(c);
    assert text[0] == if c.name == "" then '=' else c.name[0];
    assert text[|text| - 1] == if c.value == "" then '=' else c.value[|c.value| - 1];
  }

  lemma CookieFieldRead(s: Session, cookies: seq<Field>, rest: string)
    requires s.parser.status.ExpectHeaders? && forall i | 0 <= i < |cookies| :: PlainCookie(cookies[i])
    requires s.parser.req.cookies == map[]
    ensures Reads(ShortFields(CookieField(cookies)), s, Lines(CookieField(cookies)) + rest,
                  s.(parser := s.parser.(req := s.parser.req.(cookies := Cookies(cookies)))), rest)
  {
    hide Parsed, LinesFit, PlainCookie, CookieText, Cookies, LowerAll, AddHeader, Trimmed;
    if cookies == [] {
      CookiesEmpty();
      assert Lines([]) + rest == rest;
    } else {
      hide Reads, Lines, CookieField, ShortFields;
      CookiesAdded(s.parser.req, cookies);
      SomeCookiesRead(s, cookies, rest);
    }
  }

  lemma SomeCookiesRead(s: Session, cookies: seq<Field>, rest: string)
    requires s.parser.status.ExpectHeaders? && forall i | 0 <= i < |cookies| :: PlainCookie(cookies[i])
    requires cookies != []
    ensures Reads(ShortFields(CookieField(cookies)), s, Lines(CookieField(cookies)) + rest,
                  s.(parser := s.parser.(req := AddHeader(s.parser.req, COOKIE_NAME, " " + CookieText(cookies)))), rest)
  {
    hide Reads, PlainCookie, CookieText, LowerAll, AddHeader, Trimmed;
    NamesPlain();
    CookieTextPlain(cookies);
    ShortOne(Field(COOKIE_NAME, CookieText(cookies)));
    hide ShortFields, ShortField, Lines;
    OneFieldRead(s, COOKIE_NAME, CookieText(cookies), rest);
  }

  lemma ShortOne(f: Field)
    ensures ShortFields([f]) <==> ShortField(f)
  {
    assert [f][0] == f;
  }

  lemma CookiesAdded(req: Request, cookies: seq<Field>)
    requires cookies != [] && (forall i | 0 <= i < |cookies| :: PlainCookie(cookies[i])) && req.cookies == map[]
    ensures AddHeader(req, COOKIE_NAME, " " + CookieText(cookies)) == req.(cookies := Cookies(cookies))
  {
    hide PlainCookie, CookieText, Cookies, AddCookies, Trimmed, AddHeader;
    CookieTextPlain(cookies);
    CookieAdded(req, CookieText(cookies));
    CookiesRead(cookies, map[]);
    assert map[] + Cookies(cookies) == Cookies(cookies);
  }

  lemma CookieAdded(req: Request, text: string)
    requires Trimmed(text)
    ensures AddHeader(req, COOKIE_NAME, " " + text) == req.(cookies := AddCookies(req.cookies, text))
  {
    NamesPlain();
    TrimsTo(text);
    hide LowerAll, AddCookies, Trimmed, TrimLeft, TrimRight;
  }

  lemma CookiesEmpty()
    ensures Cookies([]) == map[]
  {
  }

  // ----- numbers -----

  lemma LengthRead(n: nat)
    requires n <= SIZE_MAX
    ensures StrToULL(Decimal(n), 10) == Number(n, |Decimal(n)|, false)
    ensures Trimmed(Decimal(n)) && forall i | 0 <= i < |Decimal(n)| :: Decimal(n)[i] != '\r'
  {
    DecimalDigits(n);
    var d := Decimal(n);
    hide Decimal, Value, DigitValue, DigitRun, IsSpace;
    forall i | 0 <= i < |d|
      ensures !IsSpace(d[i]) && d[i] != '-' && d[i] != '+' && d[i] != '\r'
    {
      DigitIsPlain(d[i]);
    }
    PlainDigits(d, 10);
  }

  // ----- the end of the header section and the body -----

  /** Where a connection is once a message's fields are read. */
  predicate InHeaders(s: Session) {
    var p := s.parser;
    p.status.ExpectHeaders? && p.remain == 0 && p.req.body == "" &&
    "content-length" !in p.req.headers && "transfer-encoding" !in p.req.headers
  }

  function Ready(s: Session, req: Request): Session {
    s.(parser := Reset(s.parser), ready := s.ready + [req])
  }

  /** With the 100 response written that the request asks for. */
  function Welcomed(s: Session, req: Request): Session {
    s.(parser := s.parser.(continues := s.parser.continues + if req.expectation == "" then 0 else 1))
  }

  /** The request with its body. */
  function Finished(req: Request, m: Message): Request {
    req.(headers := if m.form.NoBody? then req.headers
                    else req.headers["content-length" := Decimal(|BodyOf(m.form)|)],
         contentLength := if m.form.Sized? then Some(|m.form.data|) else req.contentLength,
         body := BodyOf(m.form))
  }

  /** The empty line that ends the header section. */
  lemma EmptyLine(s: Session, rest: string)
    requires s.parser.status.ExpectHeaders? && EndOfHeaders(s.parser).Next?
    ensures Reads(true, s, CRLF + rest,
                  s.(parser := EndOfHeaders(s.parser).p), rest)
  {
    hide Parsed, LinesFit, EndOfHeaders;
    assert "" + CRLF + rest == CRLF + rest;
    LineRead(s, "", rest);
  }

  lemma GotAllRead(s: Session, rest: string)
    requires s.parser.status.GotAll?
    ensures Reads(true, s, rest,
                  Ready(s, s.parser.req), rest)
  {
    hide Parsed, LinesFit;
    ReadsStep(s, rest);
  }

  lemma NoBodyRead(s: Session, m: Message, rest: string)
    requires InHeaders(s) && m.form.NoBody? && s.parser.req.expectation == ""
    ensures Reads(true, s, CRLF + rest,
                  Ready(s, s.parser.req), rest)
  {
    hide Parsed, LinesFit, StrToULL;
    EmptyLine(s, rest);
    var t := s.(parser := s.parser.(status := GotAll));
    GotAllRead(t, rest);
  }

  lemma FormFieldPlain(name: string, value: string)
    requires ':' !in name && '\r' !in name && Trimmed(value) && '\r' !in value
    ensures PlainField(Field(name, value))
  {
    var line := Line(Field(name, value));
    assert forall i | 0 <= i < |line| :: line[i] in name || line[i] == ':' || line[i] == ' ' || line[i] in value;
  }

  /** One field, under a name in lower case. */
  lemma OneFieldRead(s: Session, name: string, value: string, rest: string)
    requires s.parser.status.ExpectHeaders? && ':' !in name && '\r' !in name && Trimmed(value) && '\r' !in value
    ensures Reads(ShortField(Field(name, value)), s, Lines([Field(name, value)]) + rest,
                  s.(parser := s.parser.(req := AddHeader(s.parser.req, name, " " + value))), rest)
  {
    hide Parsed, LinesFit, AddHeader;
    var f := Field(name, value);
    FormFieldPlain(name, value);
    hide OneLine;
    assert [f][1..] == [] && Lines([f]) == Line(f) + CRLF + Lines([]);
    assert Lines([f]) + rest == Line(f) + CRLF + rest;
    FieldRead(s, f, rest);
  }

  lemma FormFieldRead(s: Session, name: string, value: string, rest: string)
    requires s.parser.status.ExpectHeaders? && ':' !in name && '\r' !in name && Trimmed(value) && '\r' !in value
    requires LowerAll(name) == name && name !in s.parser.req.headers
    requires name != "cookie" && name != "expect" && name != "connection"
    ensures Reads(ShortField(Field(name, value)), s, Lines([Field(name, value)]) + rest,
                  s.(parser := s.parser.(req := s.parser.req.(headers := s.parser.req.headers[name := value]))), rest)
  {
    hide Parsed, LinesFit, LowerAll, Lines;
    OneFieldRead(s, name, value, rest);
    TrimsTo(value);
  }

  lemma ExpectFieldRead(s: Session, expects: string, rest: string)
    requires s.parser.status.ExpectHeaders? && "expect" !in s.parser.req.headers && s.parser.req.expectation == ""
    requires PlainValue(expects)
    ensures Reads(ShortFields(ExpectField(expects)), s, Lines(ExpectField(expects)) + rest,
                  s.(parser := s.parser.(req := Expecting(s.parser.req, expects))), rest)
  {
    hide Parsed, LinesFit, LowerAll;
    if expects == "" {
      assert Lines([]) + rest == rest;
    } else {
      NamesPlain();
      ShortOne(Field(EXPECT_NAME, expects));
      hide ShortFields, ShortField;
      OneFieldRead(s, EXPECT_NAME, expects, rest);
      TrimsTo(expects);
    }
  }

  function Expecting(req: Request, expects: string): Request {
    if expects == "" then req else req.(expectation := expects, headers := req.headers["expect" := expects])
  }

  const COOKIE_NAME: string := "cookie"
  const EXPECT_NAME: string := "expect"
  const LENGTH_NAME: string := "content-length"
  const CODING_NAME: string := "transfer-encoding"
  const CHUNKED_NAME: string := "chunked"

  predicate NameLike(s: string) {
    forall i | 0 <= i < |s| :: 'a' <= s[i] <= 'z' || s[i] == '-'
  }

  lemma NamesPlain()
    ensures ':' !in LENGTH_NAME && '\r' !in LENGTH_NAME && LowerAll(LENGTH_NAME) == LENGTH_NAME
    ensures ':' !in COOKIE_NAME && '\r' !in COOKIE_NAME && LowerAll(COOKIE_NAME) == COOKIE_NAME
    ensures ':' !in EXPECT_NAME && '\r' !in EXPECT_NAME && LowerAll(EXPECT_NAME) == EXPECT_NAME
    ensures ':' !in CODING_NAME && '\r' !in CODING_NAME && LowerAll(CODING_NAME) == CODING_NAME
    ensures Trimmed(CHUNKED_NAME) && '\r' !in CHUNKED_NAME
  {
    NamesAreNameLike();
    hide LowerAll, NameLike;
    NamePlain(LENGTH_NAME);
    NamePlain(CODING_NAME);
    NamePlain(COOKIE_NAME);
    NamePlain(EXPECT_NAME);
    NamePlain(CHUNKED_NAME);
  }

  lemma NamesAreNameLike()
    ensures NameLike(COOKIE_NAME) && NameLike(EXPECT_NAME)
    ensures NameLike(LENGTH_NAME) && NameLike(CODING_NAME) && NameLike(CHUNKED_NAME)
  {
  }

  lemma NamePlain(s: string)
    requires NameLike(s)
    ensures ':' !in s && '\r' !in s && LowerAll(s) == s && Trimmed(s)
  {
    LowerAlready(s);
  }

  lemma {:induction false} LowerAlready(s: string)
    requires forall i | 0 <= i < |s| :: !('A' <= s[i] <= 'Z')
    ensures LowerAll(s) == s
  {
    if s != "" {
      LowerAlready(s[1..]);
    }
  }

  /** A body of a given length. */
  lemma SizedRead(s: Session, m: Message, rest: string)
    requires InHeaders(s) && m.form.Sized? && |m.form.data| <= SIZE_MAX && |m.form.data| <= s.parser.maxBody
    requires var req := s.parser.req;
             req.expectation == "" || (req.expectation == "100-continue" && req.version.Http11? && m.form.data != "")
    ensures var data := m.form.data;
            Reads(true, s, Lines(FormField(m.form)) + (CRLF + (data + rest)),
                  Ready(Welcomed(s, s.parser.req), Finished(s.parser.req, m)), rest)
  {
    hide Parsed, LinesFit, StrToULL, Decimal, Lines, LowerAll;
    var data, n := m.form.data, |m.form.data|;
    NamesPlain();
    LengthRead(n);
    LengthShort(n);
    FormFieldRead(s, LENGTH_NAME, Decimal(n), CRLF + (data + rest));
    var req := s.parser.req.(headers := s.parser.req.headers["content-length" := Decimal(n)]);
    var t := s.(parser := s.parser.(req := req));
    EmptyLine(t, data + rest);
    var u := t.(parser := EndOfHeaders(t.parser).p);
    if n == 0 {
      assert data + rest == rest;
      GotAllRead(u, rest);
    } else {
      DataRead(u, data, rest);
    }
  }

  lemma DataRead(u: Session, data: string, rest: string)
    requires u.parser.status.ExpectBody? && u.parser.remain == |data| && u.parser.req.body == ""
    ensures Reads(true, u, data + rest,
                  Ready(u, u.parser.req.(body := data)), rest)
  {
    hide Parsed, LinesFit;
    assert (data + rest)[..|data|] == data && (data + rest)[|data|..] == rest && "" + data == data;
    ReadsStep(u, data + rest);
  }

  // ----- chunks -----

  lemma SizeLine(v: nat)
    requires v < 0x10_0000_0000
    ensures ChunkSize(Chunking.Hex(v, 9)) == v && OneLine(Chunking.Hex(v, 9))
  {
    NineDigits(v);
    var h := Chunking.Hex(v, 9);
    hide Chunking.Hex, StrToULL, Value, IsSpace, DigitValue;
    PlainDigits(h, 16);
    assert TrimLeft(h) == h;
  }

  /** Nine digits hold the value. */
  lemma NineDigits(v: nat)
    requires v < 0x10_0000_0000
    ensures Value(Chunking.Hex(v, 9), 16) == v
  {
    Chunking.DigitsSuffice(0xF_FFFF_FFFF, v, 9);
  }

  lemma ChunkRead(s: Session, data: string, rest: string)
    requires s.parser.status.ExpectChunkLen? && s.parser.remain == |s.parser.req.body|
    requires 0 < |data| < 0x10_0000_0000 && |s.parser.req.body| + |data| <= s.parser.maxBody
    ensures var body := s.parser.req.body + data;
            Reads(true, s, Chunking.Hex(|data|, 9) + CRLF + (data + CRLF + rest),
                  s.(parser := s.parser.(req := s.parser.req.(body := body), remain := |body|, chunk := 0)), rest)
  {
    hide Parsed, LinesFit, ChunkSize, Chunking.Hex;
    SizeLine(|data|);
    LineRead(s, Chunking.Hex(|data|, 9), data + CRLF + rest);
    var t := s.(parser := s.parser.(chunk := |data|, status := ExpectChunkBody));
    var b := data + CRLF + rest;
    assert b[..|data|] == data && b[|data| + 2..] == rest;
    ReadsStep(t, b);
  }

  lemma ZeroLine()
    ensures ChunkSize("0") == 0 && OneLine("0")
  {
    Chunking.ZeroHex();
    var h := Chunking.Hex(0, 1);
    hide Chunking.Hex, StrToULL, Value, IsSpace, DigitValue;
    PlainDigits(h, 16);
    assert TrimLeft(h) == h;
  }

  lemma LastChunkRead(s: Session, rest: string)
    requires s.parser.status.ExpectChunkLen?
    ensures Reads(true, s, "0" + CRLF + CRLF + rest,
                  Ready(s.(parser := s.parser.(chunk := 0)), Unchunked(s.parser.req)), rest)
  {
    hide Parsed, LinesFit, ChunkSize, Unchunked;
    ZeroLine();
    assert "0" + CRLF + CRLF + rest == "0" + CRLF + (CRLF + rest);
    LineRead(s, "0", CRLF + rest);
    var t := s.(parser := s.parser.(chunk := 0, status := ExpectLastEmptyChunk));
    assert (CRLF + rest)[2..] == rest;
    ReadsStep(t, CRLF + rest);
  }

  lemma {:induction false} ChunksRead(s: Session, chunks: seq<string>, rest: string)
    requires s.parser.status.ExpectChunkLen? && s.parser.remain == |s.parser.req.body| && s.parser.chunk == 0
    requires forall i | 0 <= i < |chunks| :: 0 < |chunks[i]| < 0x10_0000_0000
    requires |s.parser.req.body| + |Joined(chunks)| <= s.parser.maxBody
    ensures Reads(true, s, ChunksText(chunks) + rest,
                  Ready(s, Unchunked(s.parser.req.(body := s.parser.req.body + Joined(chunks)))), rest)
    decreases |chunks|
  {
    hide Parsed, LinesFit, Unchunked, Chunking.Hex;
    var req := s.parser.req;
    if chunks == [] {
      assert req.body + "" == req.body;
      LastChunkRead(s, rest);
    } else {
      var data, tail := chunks[0], ChunksText(chunks[1..]) + rest;
      Rearrange(Chunking.Hex(|data|, 9), data, ChunksText(chunks[1..]), rest);
      ChunkRead(s, data, tail);
      var body := req.body + data;
      ChunksRead(s.(parser := s.parser.(req := req.(body := body), remain := |body|, chunk := 0)), chunks[1..], rest);
      assert body + Joined(chunks[1..]) == req.body + Joined(chunks);
    }
  }

  lemma Rearrange(size: string, data: string, more: string, rest: string)
    ensures (size + CRLF + (data + CRLF + more)) + rest == size + CRLF + (data + CRLF + (more + rest))
  {
  }

  lemma ChunkedRead(s: Session, m: Message, rest: string)
    requires InHeaders(s) && s.parser.req.expectation == ""
    requires m.form.Chunked? && |BodyOf(m.form)| <= s.parser.maxBody && s.parser.chunk == 0
    requires forall i | 0 <= i < |m.form.chunks| :: 0 < |m.form.chunks[i]| < 0x10_0000_0000
    ensures var body := BodyOf(m.form);
            Reads(true, s, Lines(FormField(m.form)) + (CRLF + (ChunksText(m.form.chunks) + rest)),
                  Ready(s, s.parser.req.(headers := s.parser.req.headers["content-length" := Decimal(|body|)],
                                          body := body)), rest)
  {
    hide Parsed, LinesFit, StrToULL, Decimal, Lines, LowerAll, ChunksText;
    NamesPlain();
    var more := ChunksText(m.form.chunks) + rest;
    FormFieldRead(s, CODING_NAME, CHUNKED_NAME, CRLF + more);
    var req := s.parser.req.(headers := s.parser.req.headers["transfer-encoding" := "chunked"]);
    var t := s.(parser := s.parser.(req := req));
    EmptyLine(t, more);
    var u := t.(parser := t.parser.(status := ExpectChunkLen));
    ChunksRead(u, m.form.chunks, rest);
    var body := Joined(m.form.chunks);
    assert "" + body == body;
    assert req.headers["content-length" := Decimal(|body|)] - {"transfer-encoding"} ==
           s.parser.req.headers["content-length" := Decimal(|body|)];
  }

  lemma BodyRead(s: Session, m: Message, rest: string)
    requires InHeaders(s) && Plain(m) && s.parser.chunk == 0 && Refusal(m, s.parser.maxBody).None?
    requires s.parser.req.expectation == m.expects && (s.parser.req.version.Http11? <==> m.http11)
    ensures Reads(true, s, Lines(FormField(m.form)) + (CRLF + (BodyText(m.form) + rest)),
                  Ready(Welcomed(s, s.parser.req), Finished(s.parser.req, m)), rest)
  {
    hide Parsed, LinesFit, Decimal, ChunksText, OneLine, PlainField;
    match m.form
    case NoBody =>
      assert Lines([]) + (CRLF + ("" + rest)) == CRLF + rest;
      NoBodyRead(s, m, rest);
    case Sized(_) => SizedRead(s, m, rest);
    case Chunked(_) => ChunkedRead(s, m, rest);
  }

  // ----- refused at the end of the header section or at a chunk -----

  /** The connection is refused with this code; the requests read before stay. */
  predicate Refuses(f: Final<Session>, s: Session, code: Code) {
    f.Halted? && f.state.refused == Some(code) && f.state.ready == s.ready
  }

  lemma LineRefused(s: Session, line: string, rest: string)
    requires ByLine(s.parser.status) && !s.parser.status.ExpectMethod? && OneLine(line)
    requires OnLine(s.parser, line).Refused?
    ensures Refuses(Parsed(s, line + CRLF + rest), s, OnLine(s.parser, line).code)
  {
    hide OnLine, Parsed;
    LineFound(line, rest);
    assert (line + CRLF + rest)[..|line|] == line;
    ParsedStep(s, line + CRLF + rest);
  }

  lemma EmptyLineRefused(s: Session, rest: string)
    requires s.parser.status.ExpectHeaders? && EndOfHeaders(s.parser).Refused?
    ensures Refuses(Parsed(s, CRLF + rest), s, EndOfHeaders(s.parser).code)
  {
    hide Parsed, EndOfHeaders;
    assert "" + CRLF + rest == CRLF + rest;
    LineRefused(s, "", rest);
  }

  lemma SizedRefused(s: Session, m: Message, rest: string)
    requires InHeaders(s) && m.form.Sized? && |m.form.data| <= SIZE_MAX && Refusal(m, s.parser.maxBody).Some?
    requires s.parser.req.expectation == m.expects && (s.parser.req.version.Http11? <==> m.http11)
    ensures Refuses(Parsed(s, Lines(FormField(m.form)) + (CRLF + rest)), s, Refusal(m, s.parser.maxBody).value)
  {
    hide Parsed, LinesFit, StrToULL, Decimal, Lines, LowerAll;
    var n := |m.form.data|;
    NamesPlain();
    LengthRead(n);
    LengthShort(n);
    FormFieldRead(s, LENGTH_NAME, Decimal(n), CRLF + rest);
    var req := s.parser.req.(headers := s.parser.req.headers["content-length" := Decimal(n)]);
    EmptyLineRefused(s.(parser := s.parser.(req := req)), rest);
  }

  lemma CodedRefused(s: Session, m: Message, rest: string)
    requires InHeaders(s) && m.form.Coded? && m.form.coding != "" && m.form.coding != "chunked"
    requires PlainValue(m.form.coding)
    ensures Refuses(Parsed(s, Lines(FormField(m.form)) + (CRLF + rest)), s, 501)
  {
    hide Parsed, LinesFit, StrToULL, Lines, LowerAll;
    NamesPlain();
    FormFieldRead(s, CODING_NAME, m.form.coding, CRLF + rest);
    var req := s.parser.req.(headers := s.parser.req.headers["transfer-encoding" := m.form.coding]);
    EmptyLineRefused(s.(parser := s.parser.(req := req)), rest);
  }

  lemma ChunkRefused(s: Session, data: string, rest: string)
    requires s.parser.status.ExpectChunkLen? && s.parser.remain == |s.parser.req.body|
    requires 0 < |data| < 0x10_0000_0000 && |s.parser.req.body| + |data| > s.parser.maxBody
    ensures Refuses(Parsed(s, Chunking.Hex(|data|, 9) + CRLF + rest), s, 413)
  {
    hide Parsed, LinesFit, ChunkSize, Chunking.Hex;
    SizeLine(|data|);
    LineRefused(s, Chunking.Hex(|data|, 9), rest);
  }

  /** The chunk that takes the body over the limit is refused before its data is read. */
  lemma {:induction false} ChunksRefused(s: Session, chunks: seq<string>, rest: string)
    requires s.parser.status.ExpectChunkLen? && s.parser.remain == |s.parser.req.body| && s.parser.chunk == 0
    requires forall i | 0 <= i < |chunks| :: 0 < |chunks[i]| < 0x10_0000_0000
    requires |s.parser.req.body| <= s.parser.maxBody < |s.parser.req.body| + |Joined(chunks)|
    ensures Refuses(Parsed(s, ChunksText(chunks) + rest), s, 413)
    decreases |chunks|
  {
    hide Parsed, LinesFit, Chunking.Hex;
    var req := s.parser.req;
    var data, tail := chunks[0], ChunksText(chunks[1..]) + rest;
    Rearrange(Chunking.Hex(|data|, 9), data, ChunksText(chunks[1..]), rest);
    if |req.body| + |data| > s.parser.maxBody {
      ChunkRefused(s, data, data + CRLF + tail);
    } else {
      ChunkRead(s, data, tail);
      var body := req.body + data;
      var t := s.(parser := s.parser.(req := req.(body := body), remain := |body|, chunk := 0));
      ChunksRefused(t, chunks[1..], rest);
    }
  }

  lemma ChunkedRefused(s: Session, m: Message, rest: string)
    requires InHeaders(s) && m.form.Chunked? && s.parser.chunk == 0 && Refusal(m, s.parser.maxBody).Some?
    requires s.parser.req.expectation == m.expects && (s.parser.req.version.Http11? <==> m.http11)
    requires forall i | 0 <= i < |m.form.chunks| :: 0 < |m.form.chunks[i]| < 0x10_0000_0000
    ensures Refuses(Parsed(s, Lines(FormField(m.form)) + (CRLF + (ChunksText(m.form.chunks) + rest))), s,
                    Refusal(m, s.parser.maxBody).value)
  {
    hide Parsed, LinesFit, StrToULL, Lines, LowerAll, ChunksText;
    NamesPlain();
    var more := ChunksText(m.form.chunks) + rest;
    FormFieldRead(s, CODING_NAME, CHUNKED_NAME, CRLF + more);
    var req := s.parser.req.(headers := s.parser.req.headers["transfer-encoding" := "chunked"]);
    var t := s.(parser := s.parser.(req := req));
    if m.expects != "" {
      EmptyLineRefused(t, more);
    } else {
      EmptyLine(t, more);
      ChunksRefused(t.(parser := t.parser.(status := ExpectChunkLen)), m.form.chunks, rest);
    }
  }

  lemma NoBodyRefused(s: Session, m: Message, rest: string)
    requires InHeaders(s) && m.form.NoBody? && Refusal(m, s.parser.maxBody).Some?
    requires s.parser.req.expectation == m.expects && (s.parser.req.version.Http11? <==> m.http11)
    ensures Refuses(Parsed(s, CRLF + rest), s, Refusal(m, s.parser.maxBody).value)
  {
    hide Parsed, StrToULL;
    EmptyLineRefused(s, rest);
  }

  lemma BodyRefused(s: Session, m: Message, rest: string)
    requires InHeaders(s) && Plain(m) && s.parser.chunk == 0 && Refusal(m, s.parser.maxBody).Some?
    requires s.parser.req.expectation == m.expects && (s.parser.req.version.Http11? <==> m.http11)
    ensures Refuses(Parsed(s, Lines(FormField(m.form)) + (CRLF + (BodyText(m.form) + rest))), s,
                    Refusal(m, s.parser.maxBody).value)
  {
    hide Parsed, LinesFit, Decimal, ChunksText, OneLine, PlainField;
    match m.form
    case NoBody =>
      assert Lines([]) + (CRLF + ("" + rest)) == CRLF + rest;
      NoBodyRefused(s, m, rest);
    case Sized(data) => SizedRefused(s, m, data + rest);
    case Chunked(_) => ChunkedRefused(s, m, rest);
    case Coded(_) => CodedRefused(s, m, "" + rest);
  }
}
