/** Responses as text: whatever a server prints in the plain form of section 3 of RFC 7230 reaches the callbacks of the
    client's requests, each response with the request at the front of the queue, however the network cuts the text. */
module ResponseText {
  import opened Bytes
  import opened Incremental
  import opened Client
  import opened ResponseParser
  import opened ResponseReceiver
  import RequestText
  import Chunking

  /** How the body is delimited; NoBody is for 204 and for a switch to the websocket protocol. */
  datatype Form = NoBody | Sized(data: string) | Chunked(src: string, calls: seq<Chunking.Call>)

  datatype Message = Message(http11: bool, code: nat, reason: string, fields: seq<RequestText.Field>, form: Form)

  // ----- the text -----

  function StatusRest(m: Message): string { Decimal(m.code) + " " + m.reason }

  function StatusLine(m: Message): string { RequestText.VersionText(m.http11) + " " + StatusRest(m) }

  function FormField(form: Form): seq<RequestText.Field> {
    match form
    case NoBody => []
    case Sized(data) => [RequestText.Field("content-length", Decimal(|data|))]
    case Chunked(_, _) => [RequestText.Field("transfer-encoding", "chunked")]
  }

  /** In answer to a HEAD request no body follows. */
  function BodyText(form: Form, head: bool): string
    requires form.Chunked? ==> Chunking.HandsOut(form.src, form.calls)
  {
    if head then ""
    else
      match form
      case NoBody => ""
      case Sized(data) => data
      case Chunked(src, calls) => Chunking.Encoded(src, calls)
  }

  function Text(m: Message, head: bool): string
    requires m.form.Chunked? ==> Chunking.HandsOut(m.form.src, m.form.calls)
  {
    StatusLine(m) + CRLF +
    (RequestText.Lines(m.fields) + (RequestText.Lines(FormField(m.form)) + (CRLF + BodyText(m.form, head))))
  }

  /** A response that never has a body. */
  predicate Bodiless(m: Message) {
    var own := Collected(m.fields, map[]);
    m.code == 204 || (m.code == 101 && "upgrade" in own && LowerAll(own["upgrade"]) == "websocket")
  }

  predicate PlainHead(m: Message) {
    '\r' !in m.reason &&
    forall i | 0 <= i < |m.fields| ::
      RequestText.PlainField(m.fields[i]) && !Framing(LowerAll(m.fields[i].name))
  }

  predicate Framing(name: string) { name == "content-length" || name == "transfer-encoding" }

  predicate Plain(m: Message) {
    && PlainHead(m)
    && (m.form.NoBody? ==> Bodiless(m))
    && (m.form.Sized? ==> |m.form.data| <= SIZE_MAX)
    && (m.form.Chunked? ==> Chunking.HandsOut(m.form.src, m.form.calls))
  }

  // ----- what is read -----

  predicate SetsCookie(f: RequestText.Field) { LowerAll(f.name) == "set-cookie" }

  function WithHeader(f: RequestText.Field, headers: map<string, string>): map<string, string> {
    if SetsCookie(f) then headers else headers[LowerAll(f.name) := f.value]
  }

  /** Headers by lower-case name, the last of each name kept. */
  function Collected(fields: seq<RequestText.Field>, headers: map<string, string>): map<string, string> {
    if fields == [] then headers else Collected(fields[1..], WithHeader(fields[0], headers))
  }

  /** The cookies set, in order. */
  function CookiesSet(fields: seq<RequestText.Field>): seq<string> {
    if fields == [] then []
    else (if SetsCookie(fields[0]) then [fields[0].value] else []) + CookiesSet(fields[1..])
  }

  function Meant(m: Message, head: bool): Response {
    var own, cookies := Collected(m.fields, map[]), CookiesSet(m.fields);
    var version := if m.http11 then Http11 else Http10;
    match m.form
    case NoBody => Response(version, m.code, own, cookies, "")
    case Sized(data) =>
      Response(version, m.code, own["content-length" := Decimal(|data|)], cookies, if head then "" else data)
    case Chunked(src, _) =>
      if head then Response(version, m.code, own["transfer-encoding" := "chunked"], cookies, "")
      else Response(version, m.code, own["content-length" := Decimal(|src|)], cookies, src)
  }

  /** The client with the response given to the request at the front. */
  function Answered(c: Client<Response>, m: Message): Client<Response>
    requires c.inflight != []
  {
    HandleResponse(c, Meant(m, c.inflight[0] in c.heads), !m.http11)
  }

  // ----- lines -----

  lemma LineRead(s: Conn, line: string, rest: string, q: Parser)
    requires s.client.inflight != [] && OneLine(line)
    requires s.parser.status.ExpectResponseLine? || s.parser.status.ExpectHeaders?
    requires if s.parser.status.ExpectHeaders? then HeaderLine(Aim(s), line) == NextLine(q)
             else ProcessResponseLine(Aim(s).resp, line).Some? &&
                  q == Aim(s).(status := ExpectHeaders, resp := ProcessResponseLine(Aim(s).resp, line).value)
    ensures Received(s, line + CRLF + rest) == Received(Conn(q, s.client), rest)
  {
    hide HeaderLine, ProcessResponseLine, Received, OneLine;
    var b := line + CRLF + rest;
    LineFound(line, rest);
    assert b[..|line|] == line && b[|line| + 2..] == rest;
    ReceivedStep(s, b);
  }

  lemma VersionDigit(http11: bool)
    ensures var v := RequestText.VersionText(http11);
            |v| == 8 && v[7] == (if http11 then '1' else '0') && ' ' !in v && '\r' !in v
  {
  }

  lemma CodeRead(code: nat)
    ensures Atoi(Decimal(code)) == code && ' ' !in Decimal(code) && '\r' !in Decimal(code)
  {
    DecimalDigits(code);
    var d := Decimal(code);
    hide Decimal, Value, DigitValue, DigitRun, IsSpace;
    forall i | 0 <= i < |d|
      ensures !IsSpace(d[i]) && d[i] != '-' && d[i] != '+' && d[i] != '\r' && d[i] != ' '
    {
      DigitIsPlain(d[i]);
    }
    assert TrimLeft(d) == d && d[0..] == d && d[..|d|] == d;
    AllDigits(d, 10);
  }

  lemma BlankFound(a: string, b: string, c: string)
    requires ' ' !in a && ' ' !in b
    ensures var s := a + " " + (b + " " + c);
            Find(s, " ") == |a| && FindFrom(s, " ", |a| + 1) == |a| + 1 + |b| && s[|a| + 1..|a| + 1 + |b|] == b
  {
    hide FindFrom, At;
    FirstBlank(a, b + " " + c);
    CharFound(a + " ", b, ' ', c);
  }

  lemma FirstBlank(a: string, rest: string)
    requires ' ' !in a
    ensures Find(a + " " + rest, " ") == |a|
  {
    hide FindFrom, At;
    CharFound("", a, ' ', rest);
    assert "" + (a + " " + rest) == a + " " + rest;
  }

  lemma StatusLineRead(resp: Response, m: Message)
    requires '\r' !in m.reason
    ensures ProcessResponseLine(resp, StatusLine(m)) ==
            Some(resp.(version := if m.http11 then Http11 else Http10, code := m.code))
    ensures OneLine(StatusLine(m))
  {
    VersionDigit(m.http11);
    CodeRead(m.code);
    hide Decimal, RequestText.VersionText, Atoi;
    var v, code, line := RequestText.VersionText(m.http11), Decimal(m.code), StatusLine(m);
    BlankFound(v, code, m.reason);
    assert line[7] == v[7];
    assert forall i | 0 <= i < |line| :: line[i] in v || line[i] == ' ' || line[i] in code || line[i] in m.reason;
  }

  /** A field in a response: a cookie, or a header. */
  function WithField(resp: Response, f: RequestText.Field): Response {
    resp.(headers := WithHeader(f, resp.headers), cookies := resp.cookies + CookiesSet([f]))
  }

  lemma FieldAdded(resp: Response, f: RequestText.Field)
    requires RequestText.Trimmed(f.value)
    ensures AddHeader(resp, f.name, " " + f.value) == WithField(resp, f)
  {
    hide LowerAll;
    RequestText.TrimsTo(f.value);
    CookieOne(f);
    hide CookiesSet;
    assert resp.cookies + [] == resp.cookies;
  }

  lemma CookieOne(f: RequestText.Field)
    ensures CookiesSet([f]) == if SetsCookie(f) then [f.value] else []
  {
    hide LowerAll;
    var one := [f];
    assert one[0] == f && one[1..] == [];
    assert CookiesSet(one[1..]) == [];
  }

  lemma FieldRead(s: Conn, f: RequestText.Field, rest: string)
    requires s.client.inflight != [] && s.parser.status.ExpectHeaders? && Aim(s) == s.parser
    requires RequestText.PlainField(f)
    ensures Received(s, RequestText.Line(f) + CRLF + rest) ==
            Received(s.(parser := s.parser.(resp := WithField(s.parser.resp, f))), rest)
  {
    hide AddHeader, OneLine, Received, WithField;
    var line := RequestText.Line(f);
    CharFound("", f.name, ':', " " + f.value);
    assert "" + line == line;
    assert line[..|f.name|] == f.name && line[|f.name| + 1..] == " " + f.value;
    FieldAdded(s.parser.resp, f);
    LineRead(s, line, rest, s.parser.(resp := AddHeader(s.parser.resp, f.name, " " + f.value)));
  }

  function WithFields(resp: Response, fields: seq<RequestText.Field>): Response {
    resp.(headers := Collected(fields, resp.headers), cookies := resp.cookies + CookiesSet(fields))
  }

  lemma WithFieldsNext(resp: Response, fields: seq<RequestText.Field>)
    ensures fields == [] ==> WithFields(resp, fields) == resp
    ensures fields != [] ==> WithFields(resp, fields) == WithFields(WithField(resp, fields[0]), fields[1..])
  {
    hide SetsCookie, LowerAll;
    if fields == [] {
      assert resp.cookies + [] == resp.cookies;
    } else {
      var f := fields[0];
      assert [f][0] == f && [f][1..] == [];
      assert CookiesSet(fields) == CookiesSet([f]) + CookiesSet(fields[1..]);
      Regroup(resp.cookies, CookiesSet([f]), CookiesSet(fields[1..]));
    }
  }

  lemma {:induction false} FieldsRead(s: Conn, fields: seq<RequestText.Field>, rest: string)
    requires s.client.inflight != [] && s.parser.status.ExpectHeaders? && Aim(s) == s.parser
    requires forall i | 0 <= i < |fields| :: RequestText.PlainField(fields[i])
    ensures Received(s, RequestText.Lines(fields) + rest) ==
            Received(s.(parser := s.parser.(resp := WithFields(s.parser.resp, fields))), rest)
    decreases |fields|
  {
    hide Received, RequestText.PlainField, WithField, WithFields;
    var resp := s.parser.resp;
    WithFieldsNext(resp, fields);
    if fields == [] {
      assert "" + rest == rest;
    } else {
      var f := fields[0];
      var more := RequestText.Lines(fields[1..]) + rest;
      assert RequestText.Lines(fields) + rest == RequestText.Line(f) + CRLF + more;
      FieldRead(s, f, more);
      FieldsRead(s.(parser := s.parser.(resp := WithField(resp, f))), fields[1..], rest);
    }
  }

  lemma {:induction false} NothingExtra(fields: seq<RequestText.Field>, headers: map<string, string>)
    requires forall i | 0 <= i < |fields| :: !Framing(LowerAll(fields[i].name))
    requires "content-length" !in headers && "transfer-encoding" !in headers
    ensures "content-length" !in Collected(fields, headers) && "transfer-encoding" !in Collected(fields, headers)
    decreases |fields|
  {
    hide LowerAll;
    if fields != [] {
      NothingExtra(fields[1..], WithHeader(fields[0], headers));
    }
  }

  // ----- the end of the header section and the body -----

  /** Where a connection is once a message's own fields are read. */
  predicate InHeaders(s: Conn) {
    && s.client.inflight != [] && s.parser.status.ExpectHeaders?
    && s.parser.forHead == (s.client.inflight[0] in s.client.heads)
    && s.parser.resp.body == "" && s.parser.left == 0 && s.parser.chunk == 0
    && "content-length" !in s.parser.resp.headers && "transfer-encoding" !in s.parser.resp.headers
  }

  lemma FormFieldRead(s: Conn, name: string, value: string, rest: string)
    requires InHeaders(s) && ':' !in name && '\r' !in name && RequestText.Trimmed(value) && '\r' !in value
    requires LowerAll(name) == name && name != "set-cookie"
    ensures var resp := s.parser.resp;
            Received(s, RequestText.Lines([RequestText.Field(name, value)]) + rest) ==
            Received(s.(parser := s.parser.(resp := resp.(headers := resp.headers[name := value]))), rest)
  {
    hide Received, LowerAll;
    var f := RequestText.Field(name, value);
    RequestText.FormFieldPlain(name, value);
    hide OneLine;
    assert [f][1..] == [] && RequestText.Lines([f]) == RequestText.Line(f) + CRLF + RequestText.Lines([]);
    assert RequestText.Lines([f]) + rest == RequestText.Line(f) + CRLF + rest;
    FieldRead(s, f, rest);
    NoCookie(s.parser.resp, f);
  }

  lemma NoCookie(resp: Response, f: RequestText.Field)
    ensures !SetsCookie(f) ==> WithField(resp, f) == resp.(headers := resp.headers[LowerAll(f.name) := f.value])
  {
    hide LowerAll;
    CookieOne(f);
    hide CookiesSet;
    assert resp.cookies + [] == resp.cookies;
  }

  /** The empty line, once framing is known and does not shut the connection down. */
  lemma EmptyLine(s: Conn, rest: string)
    requires s.client.inflight != [] && s.parser.status.ExpectHeaders? && Aim(s) == s.parser
    requires Frame(s.parser.resp, s.parser.forHead).Framed? && !Frame(s.parser.resp, s.parser.forHead).shut
    ensures var f := Frame(s.parser.resp, s.parser.forHead);
            var q := s.parser.(status := f.status, left := f.left);
            Received(s, CRLF + rest) ==
            if f.status.GotAll? then Received(Complete(q, s.client), rest) else Received(Conn(q, s.client), rest)
  {
    hide Frame, Received, Complete;
    var b := CRLF + rest;
    assert "" + CRLF + rest == b;
    LineFound("", rest);
    assert b[..0] == "" && b[2..] == rest;
    assert Find("", ":") < 0;
    ReceivedStep(s, b);
  }

  lemma DataRead(s: Conn, data: string, rest: string)
    requires s.client.inflight != [] && s.parser.status.ExpectBody? && Aim(s) == s.parser
    requires s.parser.left == |data| && s.parser.resp.body == ""
    ensures Received(s, data + rest) ==
            Received(Complete(s.parser.(resp := s.parser.resp.(body := data), left := 0, status := GotAll),
                              s.client), rest)
  {
    hide Received, Complete;
    assert (data + rest)[..|data|] == data && (data + rest)[|data|..] == rest && "" + data == data;
    ReceivedStep(s, data + rest);
  }

  lemma NoBodyRead(s: Conn, rest: string)
    requires InHeaders(s)
    requires var resp := s.parser.resp;
             resp.code == 204 || (resp.code == 101 && LowerAll(resp.Header("upgrade")) == "websocket")
    ensures Received(s, CRLF + rest) == Received(Complete(s.parser.(status := GotAll), s.client), rest)
  {
    hide Received, Complete, StrToULL, LowerAll;
    EmptyLine(s, rest);
  }

  lemma SizedRead(s: Conn, data: string, rest: string) returns (q: Parser)
    requires InHeaders(s) && |data| <= SIZE_MAX
    ensures var head, form := s.parser.forHead, Sized(data);
            Received(s, RequestText.Lines(FormField(form)) + (CRLF + (BodyText(form, head) + rest))) ==
            Received(Complete(q, s.client), rest)
    ensures var head, resp := s.parser.forHead, s.parser.resp;
            q.resp == resp.(headers := resp.headers["content-length" := Decimal(|data|)],
                            body := if head then "" else data)
  {
    hide Received, Complete, StrToULL, Decimal, RequestText.Lines, LowerAll;
    RequestText.NamesPlain();
    RequestText.LengthRead(|data|);
    var head, resp, name := s.parser.forHead, s.parser.resp, RequestText.LENGTH_NAME;
    var more := BodyText(Sized(data), head) + rest;
    FormFieldRead(s, name, Decimal(|data|), CRLF + more);
    var t := s.(parser := s.parser.(resp := resp.(headers := resp.headers["content-length" := Decimal(|data|)])));
    EmptyLine(t, more);
    if head {
      assert more == rest;
      q := t.parser.(status := GotAll, left := 0);
    } else {
      var u := t.(parser := t.parser.(status := ExpectBody, left := |data|));
      DataRead(u, data, rest);
      q := u.parser.(resp := u.parser.resp.(body := data), left := 0, status := GotAll);
    }
  }

  lemma ChunkedRead(s: Conn, src: string, calls: seq<Chunking.Call>, rest: string) returns (q: Parser)
    requires InHeaders(s) && Chunking.HandsOut(src, calls)
    ensures var head, form := s.parser.forHead, Chunked(src, calls);
            Received(s, RequestText.Lines(FormField(form)) + (CRLF + (BodyText(form, head) + rest))) ==
            Received(Complete(q, s.client), rest)
    ensures var head, resp := s.parser.forHead, s.parser.resp;
            q.resp == if head then resp.(headers := resp.headers["transfer-encoding" := "chunked"])
                      else resp.(headers := resp.headers["content-length" := Decimal(|src|)], body := src)
  {
    hide Received, Complete, StrToULL, Decimal, RequestText.Lines, LowerAll, Chunking.Encoded;
    RequestText.NamesPlain();
    var head, resp := s.parser.forHead, s.parser.resp;
    var more := BodyText(Chunked(src, calls), head) + rest;
    FormFieldRead(s, RequestText.CODING_NAME, RequestText.CHUNKED_NAME, CRLF + more);
    var t := s.(parser := s.parser.(resp := resp.(headers := resp.headers["transfer-encoding" := "chunked"])));
    EmptyLine(t, more);
    if head {
      assert more == rest;
      q := t.parser.(status := GotAll, left := 0);
    } else {
      var u := t.(parser := t.parser.(status := ExpectChunkLen));
      Chunking.ChunksRead(u, src, calls, rest);
      q := Chunking.Decoded(u.parser, src);
      assert "" + src == src;
      assert u.parser.resp.headers["content-length" := Decimal(|src|)] - {"transfer-encoding"} ==
             resp.headers["content-length" := Decimal(|src|)];
    }
  }

  // ----- whole responses -----

  /** A printed response completes the request at the front with exactly what it means, and reading goes on behind
      it. */
  lemma MessageRead(c: Client<Response>, m: Message, rest: string)
    requires c.inflight != [] && Plain(m)
    ensures Received(Conn(FRESH, c), Text(m, c.inflight[0] in c.heads) + rest) ==
            Received(Conn(FRESH, Answered(c, m)), rest)
  {
    var head := c.inflight[0] in c.heads;
    var body := CRLF + (BodyText(m.form, head) + rest);
    var form := RequestText.Lines(FormField(m.form));
    TextParts(m, head, rest);
    HeadRead(c, m, form + body);
    NothingExtra(m.fields, map[]);
    var own := Collected(m.fields, map[]);
    hide Received, Complete, Decimal, RequestText.Lines, LowerAll, BodyText, HandleResponse;
    var s := Conn(Read(m, head), c);
    match m.form {
      case NoBody =>
        assert form + body == CRLF + rest by { NoForm(rest, head); }
        NoBodyRead(s, rest);
      case Sized(data) =>
        var q := SizedRead(s, data, rest);
        assert q.resp == Meant(m, head);
      case Chunked(src, calls) =>
        var q := ChunkedRead(s, src, calls, rest);
        assert q.resp == Meant(m, head);
    }
  }

  lemma NoForm(rest: string, head: bool)
    ensures RequestText.Lines(FormField(NoBody)) + (CRLF + (BodyText(NoBody, head) + rest)) == CRLF + rest
  {
    assert "" + rest == rest;
  }

  /** The parser once the status line and the message's own fields are read. */
  function Read(m: Message, head: bool): Parser {
    FRESH.(status := ExpectHeaders, forHead := head,
           resp := Response(if m.http11 then Http11 else Http10, m.code, Collected(m.fields, map[]),
                            CookiesSet(m.fields), ""))
  }

  lemma HeadRead(c: Client<Response>, m: Message, rest: string)
    requires c.inflight != [] && PlainHead(m)
    ensures Received(Conn(FRESH, c), StatusLine(m) + CRLF + (RequestText.Lines(m.fields) + rest)) ==
            Received(Conn(Read(m, c.inflight[0] in c.heads), c), rest)
  {
    hide Received, ProcessResponseLine, HeaderLine, RequestText.Lines, OneLine, StatusLine, RequestText.PlainField,
         Framing, LowerAll;
    var s, head := Conn(FRESH, c), c.inflight[0] in c.heads;
    StatusLineRead(FRESH.resp, m);
    var q := Aim(s).(status := ExpectHeaders, resp := ProcessResponseLine(FRESH.resp, StatusLine(m)).value);
    LineRead(s, StatusLine(m), RequestText.Lines(m.fields) + rest, q);
    FieldsRead(Conn(q, c), m.fields, rest);
    assert [] + CookiesSet(m.fields) == CookiesSet(m.fields);
  }

  lemma TextParts(m: Message, head: bool, rest: string)
    requires m.form.Chunked? ==> Chunking.HandsOut(m.form.src, m.form.calls)
    ensures Text(m, head) + rest ==
            StatusLine(m) + CRLF +
            (RequestText.Lines(m.fields) +
             (RequestText.Lines(FormField(m.form)) + (CRLF + (BodyText(m.form, head) + rest))))
  {
    hide StatusLine, RequestText.Lines, BodyText;
    assert (CRLF + BodyText(m.form, head)) + rest == CRLF + (BodyText(m.form, head) + rest);
    var a, b, c := RequestText.Lines(m.fields), RequestText.Lines(FormField(m.form)), CRLF + BodyText(m.form, head);
    assert (a + (b + c)) + rest == a + (b + (c + rest));
  }

  // ----- until the connection closes -----

  /** A response that does not say how long its body is. */
  function OpenText(m: Message, data: string): string {
    StatusLine(m) + CRLF + (RequestText.Lines(m.fields) + (CRLF + data))
  }

  function OpenMeant(m: Message, data: string): Response {
    Response(if m.http11 then Http11 else Http10, m.code, Collected(m.fields, map[]), CookiesSet(m.fields), data)
  }

  lemma OpenEnds(s: Conn, data: string)
    requires InHeaders(s) && !s.parser.forHead
    requires var resp := s.parser.resp;
             resp.code != 204 && !(resp.code == 101 && LowerAll(resp.Header("upgrade")) == "websocket")
    ensures Received(s, CRLF + data) ==
            Waiting(Conn(s.parser.(status := ExpectClose, resp := s.parser.resp.(body := data)), Shut(s.client, true)),
                    "")
  {
    hide Received, StrToULL, LowerAll, HandleResponse;
    var b := CRLF + data;
    assert "" + CRLF + data == b;
    LineFound("", data);
    assert b[..0] == "" && b[2..] == data && Find("", ":") < 0;
    ReceivedStep(s, b);
    var t := Conn(s.parser.(status := ExpectClose), Shut(s.client, true));
    assert "" + data == data;
    ReceivedStep(t, data);
  }

  /** A response without length, chunks or a code that excludes a body: the client shuts the connection down, takes all
      that arrives for the body, however it is cut, and hands it to the request at the front when the peer closes. */
  lemma CloseDelimits(c: Client<Response>, m: Message, data: string, packets: seq<string>)
    requires c.inflight != [] && c.inflight[0] !in c.heads && PlainHead(m) && !Bodiless(m)
    requires packets != [] && Concat(packets) == OpenText(m, data)
    ensures OnClosed(ReceivedAll(Waiting(Conn(FRESH, c), ""), packets).state) ==
            ClosedWithResponse(Shut(c, true), OpenMeant(m, data))
  {
    hide Received, ReceivedAll, StatusLine, RequestText.Lines, LowerAll, PlainHead, ClosedWithResponse;
    ReceiveFragmentation(Conn(FRESH, c), "", packets);
    assert "" + Concat(packets) == OpenText(m, data);
    HeadRead(c, m, CRLF + data);
    OpenHeaders(m);
    OpenEnds(Conn(Read(m, false), c), data);
  }

  lemma OpenHeaders(m: Message)
    requires PlainHead(m)
    ensures "content-length" !in Collected(m.fields, map[]) && "transfer-encoding" !in Collected(m.fields, map[])
  {
    NothingExtra(m.fields, map[]);
  }

  /** The answer to a HEAD request without a length, chunks or a code that excludes a body: it completes its request,
      but the connection is shut down first. */
  lemma HeadWithoutLength(c: Client<Response>, m: Message, rest: string)
    requires c.inflight != [] && c.inflight[0] in c.heads && PlainHead(m) && !Bodiless(m)
    ensures Received(Conn(FRESH, c), OpenText(m, rest)) ==
            Received(Conn(FRESH, HandleResponse(Shut(c, true), OpenMeant(m, ""), !m.http11)), rest)
  {
    hide Received, StatusLine, RequestText.Lines, LowerAll, PlainHead, HandleResponse;
    HeadRead(c, m, CRLF + rest);
    OpenHeaders(m);
    HeadEnds(Conn(Read(m, true), c), rest);
  }

  lemma HeadEnds(s: Conn, rest: string)
    requires InHeaders(s) && s.parser.forHead
    requires var resp := s.parser.resp;
             resp.code != 204 && !(resp.code == 101 && LowerAll(resp.Header("upgrade")) == "websocket")
    ensures Received(s, CRLF + rest) == Received(Complete(s.parser.(status := GotAll), Shut(s.client, true)), rest)
  {
    hide Received, Complete, StrToULL, LowerAll, HandleResponse;
    var b := CRLF + rest;
    assert "" + CRLF + rest == b;
    LineFound("", rest);
    assert b[..0] == "" && b[2..] == rest && Find("", ":") < 0;
    ReceivedStep(s, b);
  }

  // ----- streams of responses -----

  /** There is a request in flight for each response when it is read. */
  predicate Awaited(c: Client<Response>, ms: seq<Message>)
    decreases |ms|
  {
    ms == [] || (c.inflight != [] && Awaited(Answered(c, ms[0]), ms[1..]))
  }

  function Texts(c: Client<Response>, ms: seq<Message>): string
    requires Awaited(c, ms) && forall i | 0 <= i < |ms| :: Plain(ms[i])
    decreases |ms|
  {
    if ms == [] then ""
    else
      assert Plain(ms[0]);
      Text(ms[0], c.inflight[0] in c.heads) + Texts(Answered(c, ms[0]), ms[1..])
  }

  function AnsweredAll(c: Client<Response>, ms: seq<Message>): Client<Response>
    requires Awaited(c, ms)
    decreases |ms|
  {
    if ms == [] then c else AnsweredAll(Answered(c, ms[0]), ms[1..])
  }

  lemma {:induction false} ResponsesRead(c: Client<Response>, ms: seq<Message>)
    requires Awaited(c, ms) && forall i | 0 <= i < |ms| :: Plain(ms[i])
    ensures Received(Conn(FRESH, c), Texts(c, ms)) == Waiting(Conn(FRESH, AnsweredAll(c, ms)), "")
    decreases |ms|
  {
    hide Received, Plain, Text, Answered;
    if ms == [] {
      ReceivedEmpty(Conn(FRESH, c));
    } else {
      MessageRead(c, ms[0], Texts(Answered(c, ms[0]), ms[1..]));
      ResponsesRead(Answered(c, ms[0]), ms[1..]);
    }
  }

  /** Pipelined responses, printed one behind the other and cut into packets anywhere, are handed out in order: the k-th
      to the request at the front when it is read, with its status, headers and body. */
  lemma ResponsesArrive(c: Client<Response>, ms: seq<Message>, packets: seq<string>)
    requires Awaited(c, ms) && (forall i | 0 <= i < |ms| :: Plain(ms[i]))
    requires packets != [] && Concat(packets) == Texts(c, ms)
    ensures ReceivedAll(Waiting(Conn(FRESH, c), ""), packets) == Waiting(Conn(FRESH, AnsweredAll(c, ms)), "")
  {
    hide Received, ReceivedAll, Plain, Texts;
    ReceiveFragmentation(Conn(FRESH, c), "", packets);
    assert "" + Concat(packets) == Texts(c, ms);
    ResponsesRead(c, ms);
  }
}
