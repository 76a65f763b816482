/** Streams of requests: whatever a client prints is read back by the server as the same requests, one after the
    other, however the network cuts the text. */
module RequestStreams {
  import opened Bytes
  import opened Incremental
  import opened RequestParser
  import opened RequestText
  import Http = ResponseParser

  // ----- one request -----

  predicate Fresh(s: Session) {
    s.parser == Reset(s.parser).(chunk := 0)
  }

  /** Once m is read behind what was read before. */
  function Behind(s: Session, m: Message): Session {
    s.(ready := s.ready + [Meant(m)],
       parser := s.parser.(continues := s.parser.continues + if m.expects == "" then 0 else 1))
  }

  /** A printed request is read as what it means and reading goes on behind it, or it is refused with the status it
      deserves. */
  lemma MessageRead(s: Session, m: Message, rest: string)
    requires Fresh(s) && Plain(m)
    ensures var refusal := Refusal(m, s.parser.maxBody);
            if refusal.None? then Reads(Short(m), s, Text(m) + rest, Behind(s, m), rest)
            else Refuses(Parsed(s, Text(m) + rest), s, refusal.value)
  {
    hide Parsed, LinesFit, Plain, Lines, MethodName, RequestLine, FieldsText, BodyRest, ShortFields, WithFields,
         CookieField, ExpectField, FormField, Cookies, Meant;
    TextParts(m, rest);
    PlainMessage(m);
    var fields := FieldsText(m, rest);
    MethodRead(s, m.verb, RequestLine(m) + CRLF + fields);
    var req1 := NEW_REQUEST.(verb := m.verb);
    var s1 := s.(parser := s.parser.(status := ExpectRequestLine, req := req1));
    RequestLineRead(req1, m);
    LineRead(s1, RequestLine(m), fields);
    SectionRead(s.(parser := s.parser.(status := ExpectHeaders, req := Started(m))), m, rest);
  }

  /** The request once its first line is read. */
  function Started(m: Message): Request {
    NEW_REQUEST.(verb := m.verb, path := m.path, query := m.query,
                 version := if m.http11 then Http.Http11 else Http.Http10, keepAlive := m.http11)
  }

  /** The header section and the body. */
  lemma SectionRead(s: Session, m: Message, rest: string)
    requires Plain(m)
    requires s.parser == FreshParser(s.parser.maxBody).(status := ExpectHeaders, req := Started(m),
                                                       continues := s.parser.continues)
    ensures var refusal := Refusal(m, s.parser.maxBody);
            if refusal.None? then
              Reads(ShortFields(m.fields) && ShortFields(CookieField(m.cookies)) && ShortFields(ExpectField(m.expects)),
                    s, FieldsText(m, rest), Behind(s.(parser := Reset(s.parser)), m), rest)
            else Refuses(Parsed(s, FieldsText(m, rest)), s, refusal.value)
  {
    hide Parsed, LinesFit, Plain, Lines, FormField, CookieField, ExpectField, Cookies, ShortFields, WithFields,
         Meant, BodyText, BodyOf, Refusal;
    PlainMessage(m);
    WithFieldsIs(m);
    NothingExtra(m.fields, map[]);
    var b3 := BodyRest(m, rest);
    var b2 := Lines(ExpectField(m.expects)) + b3;
    FieldsRead(s, m.fields, Lines(CookieField(m.cookies)) + b2);
    var req1 := WithFields(Started(m), m.fields);
    var s1 := s.(parser := s.parser.(req := req1));
    CookieFieldRead(s1, m.cookies, b2);
    var req2 := req1.(cookies := Cookies(m.cookies));
    var s2 := s1.(parser := s1.parser.(req := req2));
    ExpectFieldRead(s2, m.expects, b3);
    var req3 := Expecting(req2, m.expects);
    var s3 := s2.(parser := s2.parser.(req := req3));
    if Refusal(m, s.parser.maxBody).None? {
      BodyRead(s3, m, rest);
      MeantIs(m);
    } else {
      BodyRefused(s3, m, rest);
    }
  }

  lemma WithFieldsIs(m: Message)
    ensures WithFields(Started(m), m.fields) ==
            Started(m).(headers := Collected(m.fields, map[]), keepAlive := Keeps(m.http11, m.fields))
  {
    hide Says, LowerAll;
  }

  lemma MeantIs(m: Message)
    ensures var req := Started(m).(headers := Collected(m.fields, map[]), keepAlive := Keeps(m.http11, m.fields),
                                   cookies := Cookies(m.cookies));
            Finished(Expecting(req, m.expects), m) == Meant(m)
  {
    hide Collected, Keeps, Cookies, BodyOf, Decimal;
  }

  lemma PlainMessage(m: Message)
    requires Plain(m)
    ensures m.verb != Invalid && PlainValue(m.expects)
    ensures forall i | 0 <= i < |m.fields| :: PlainField(m.fields[i]) && Ordinary(LowerAll(m.fields[i].name))
    ensures forall i | 0 <= i < |m.cookies| :: PlainCookie(m.cookies[i])
  {
  }

  function BodyRest(m: Message, rest: string): string {
    Lines(FormField(m.form)) + (CRLF + (BodyText(m.form) + rest))
  }

  function FieldsText(m: Message, rest: string): string {
    Lines(m.fields) + (Lines(CookieField(m.cookies)) + (Lines(ExpectField(m.expects)) + BodyRest(m, rest)))
  }

  lemma TextParts(m: Message, rest: string)
    ensures Text(m) + rest == MethodName(m.verb) + " " + (RequestLine(m) + CRLF + FieldsText(m, rest))
  {
    hide MethodName, RequestLine, Lines, BodyText, CookieField, ExpectField, FormField;
    assert (CRLF + BodyText(m.form)) + rest == CRLF + (BodyText(m.form) + rest);
    var a, b, c := Lines(m.fields), Lines(CookieField(m.cookies)), Lines(ExpectField(m.expects));
    var d, e := Lines(FormField(m.form)), CRLF + BodyText(m.form);
    FivePieces(a, b, c, d, e, rest);
    var all := a + (b + (c + (d + e)));
    assert (MethodName(m.verb) + " " + (RequestLine(m) + CRLF + all)) + rest ==
           MethodName(m.verb) + " " + (RequestLine(m) + CRLF + (all + rest));
  }

  lemma FivePieces(a: string, b: string, c: string, d: string, e: string, rest: string)
    ensures (a + (b + (c + (d + e)))) + rest == a + (b + (c + (d + (e + rest))))
  {
    assert (c + (d + e)) + rest == c + (d + (e + rest));
    assert (b + (c + (d + e))) + rest == b + ((c + (d + e)) + rest);
  }

  lemma MeantNext(ready: seq<Request>, ms: seq<Message>)
    ensures ready + MeantAll(ms) ==
            if ms == [] then ready else (ready + [Meant(ms[0])]) + MeantAll(ms[1..])
  {
    hide Meant;
    if ms != [] {
      assert MeantAll(ms) == [Meant(ms[0])] + MeantAll(ms[1..]);
    }
  }

  lemma FreshStays(s: Session, t: Session)
    ensures Fresh(s) && t.parser == s.parser.(continues := t.parser.continues) ==> Fresh(t)
  {
  }

  predicate AllShort(ms: seq<Message>) {
    forall i | 0 <= i < |ms| :: Short(ms[i])
  }

  lemma AllShortNext(ms: seq<Message>)
    ensures AllShort(ms) <==> ms == [] || (Short(ms[0]) && AllShort(ms[1..]))
  {
    hide Short;
    if ms != [] && Short(ms[0]) && AllShort(ms[1..]) {
      forall i | 0 <= i < |ms|
        ensures Short(ms[i])
      {
        assert i > 0 ==> ms[i] == ms[1..][i - 1];
      }
    }
  }

  function Expecting100(ms: seq<Message>): nat {
    if ms == [] then 0 else (if ms[0].expects == "" then 0 else 1) + Expecting100(ms[1..])
  }

  function BehindAll(s: Session, ms: seq<Message>): Session {
    s.(ready := s.ready + MeantAll(ms),
       parser := s.parser.(continues := s.parser.continues + Expecting100(ms)))
  }

  /** How many requests are read before one is refused. */
  function Accepted(ms: seq<Message>, maxBody: nat): (k: nat)
    ensures k <= |ms| && (forall i | 0 <= i < k :: Refusal(ms[i], maxBody).None?)
    ensures k < |ms| ==> Refusal(ms[k], maxBody).Some?
  {
    if ms == [] || Refusal(ms[0], maxBody).Some? then 0 else 1 + Accepted(ms[1..], maxBody)
  }

  /** A stream of printed requests is read as those requests, in order, up to the first that is refused; its lines fit
      the limits exactly when each request is short. */
  lemma {:induction false} RequestsRead(s: Session, ms: seq<Message>)
    requires Fresh(s) && s.parser.status.ExpectMethod? && forall i | 0 <= i < |ms| :: Plain(ms[i])
    ensures var k := Accepted(ms, s.parser.maxBody);
            if k == |ms| then
              Parsed(s, Texts(ms)) == Waiting(BehindAll(s, ms), "") && (LinesFit(s, Texts(ms)) <==> AllShort(ms))
            else
              Refuses(Parsed(s, Texts(ms)), s.(ready := s.ready + MeantAll(ms[..k])),
                      Refusal(ms[k], s.parser.maxBody).value)
    decreases |ms|
  {
    AllShortNext(ms);
    AcceptedNext(s, ms);
    hide Parsed, LinesFit, Plain, Text, Fresh, MeantAll, Short, AllShort, Refusal, BehindAll, Behind, Accepted;
    if ms == [] {
      EmptyWaits(s);
      LinesFitStep(s, "");
    } else {
      MessageRead(s, ms[0], Texts(ms[1..]));
      if Refusal(ms[0], s.parser.maxBody).None? {
        BehindKeeps(s, ms[0]);
        RequestsRead(Behind(s, ms[0]), ms[1..]);
      }
    }
  }

  lemma AcceptedNext(s: Session, ms: seq<Message>)
    ensures ms == [] ==> BehindAll(s, ms) == s
    ensures var k := Accepted(ms, s.parser.maxBody);
            if ms == [] || Refusal(ms[0], s.parser.maxBody).Some? then k == 0 && s.ready + MeantAll(ms[..k]) == s.ready
            else
              && k == 1 + Accepted(ms[1..], s.parser.maxBody)
              && BehindAll(s, ms) == BehindAll(Behind(s, ms[0]), ms[1..])
              && s.ready + MeantAll(ms[..k]) == Behind(s, ms[0]).ready + MeantAll(ms[1..][..k - 1])
  {
    hide Refusal, Meant, MeantAll;
    MeantNext(s.ready, ms);
    MeantSome(s.ready, ms, Accepted(ms, s.parser.maxBody));
  }

  lemma BehindKeeps(s: Session, m: Message)
    requires Fresh(s) && s.parser.status.ExpectMethod?
    ensures var t := Behind(s, m);
            Fresh(t) && t.parser.status.ExpectMethod? && t.parser.maxBody == s.parser.maxBody
  {
    hide Meant;
    FreshStays(s, Behind(s, m));
  }

  lemma MeantSome(ready: seq<Request>, ms: seq<Message>, k: nat)
    requires k <= |ms|
    ensures ready + MeantAll(ms[..k]) ==
            if k == 0 then ready else (ready + [Meant(ms[0])]) + MeantAll(ms[1..][..k - 1])
  {
    MeantNext(ready, ms[..k]);
    assert k > 0 ==> ms[..k][1..] == ms[1..][..k - 1];
  }

  /** The server once all of ms is read and dispatched, each 100 response asked for written, and nothing refused. */
  function Served(maxBody: nat, ms: seq<Message>): Server {
    Server(BehindAll(Opened(maxBody), ms), "", MeantAll(ms), false)
  }

  /** However its text is cut into packets, a stream of printed requests is dispatched as exactly these requests, in
      order, and nothing is refused, if and only if each of them is accepted, none is a PROPFIND and no line is longer
      than 64 KiB. */
  lemma RequestsDispatched(maxBody: nat, ms: seq<Message>)
    requires forall i | 0 <= i < |ms| :: Plain(ms[i])
    ensures AllShort(ms) && (forall i | 0 <= i < |ms| :: Refusal(ms[i], maxBody).None?) <==>
            (forall packets | packets != [] && Concat(packets) == Texts(ms) ::
               OnMessages(Start(maxBody), packets) == Served(maxBody, ms))
  {
    hide Parsed, Plain, Step, LinesFit, OnMessage, Texts, AllShort, Served, Refusal;
    var text := Texts(ms);
    assert Fresh(Opened(maxBody));
    RequestsRead(Opened(maxBody), ms);
    if Accepted(ms, maxBody) < |ms| {
      RefusedAtOnce(maxBody, ms);
    } else {
      LineLimitsDecide(maxBody, text);
      assert Opened(maxBody).ready + MeantAll(ms) == MeantAll(ms);
      forall packets | packets != [] && Concat(packets) == text
        ensures OnMessages(Start(maxBody), packets) == Served(maxBody, ms) <==>
                CutUnseen(maxBody, text, packets)
      {
        UnseenServes(maxBody, ms, packets);
      }
    }
  }

  lemma RefusedAtOnce(maxBody: nat, ms: seq<Message>)
    requires Parsed(Opened(maxBody), Texts(ms)).Halted?
    ensures [Texts(ms)] != [] && Concat([Texts(ms)]) == Texts(ms)
    ensures OnMessages(Start(maxBody), [Texts(ms)]) != Served(maxBody, ms)
  {
    hide Parsed, Step, Texts, MeantAll, OnMessage;
    var text := Texts(ms);
    var packets := [text];
    OneMessage(maxBody, text);
    assert packets[1..] == [] && text + "" == text;
    assert OnMessages(Start(maxBody), packets) == OnMessages(OnMessage(Start(maxBody), text), []);
  }

  lemma UnseenServes(maxBody: nat, ms: seq<Message>, packets: seq<string>)
    requires Parsed(Opened(maxBody), Texts(ms)) == Waiting(BehindAll(Opened(maxBody), ms), "")
    ensures OnMessages(Start(maxBody), packets) == Served(maxBody, ms) <==> CutUnseen(maxBody, Texts(ms), packets)
  {
    hide Parsed, Step, LinesFit, OnMessage, Texts, CutUnseen, MeantAll;
    CutUnseenIs(maxBody, Texts(ms), packets);
    ServerFeeds(Start(maxBody), packets);
  }

  /** Requests that arrive in one packet with a later error are dropped: in two packets the request is dispatched,
      in one it is not. */
  lemma DroppedBehindError(maxBody: nat, m: Message)
    requires Plain(m) && Refusal(m, maxBody).None?
    ensures var text := Text(m) + "X ";
            && Parsed(Opened(maxBody), text).Halted? && Parsed(Opened(maxBody), text).state.ready == [Meant(m)]
            && OnMessage(Start(maxBody), text).dispatched == []
            && OnMessages(Start(maxBody), [Text(m), "X "]).dispatched == [Meant(m)]
  {
    hide Parsed, Plain, Step, LinesFit, Text, Meant, OnLine;
    var s := Opened(maxBody);
    assert Fresh(s);
    MessageRead(s, m, "X ");
    MessageRead(s, m, "");
    assert [] + [Meant(m)] == [Meant(m)] && Text(m) + "" == Text(m);
    var t := Behind(s, m);
    EmptyWaits(t);
    BadMethod(t);
    OneMessage(maxBody, Text(m) + "X ");
    OneMessage(maxBody, Text(m));
    var v := OnMessage(Start(maxBody), Text(m));
    assert "" + Text(m) == Text(m) && "" + "X " == "X ";
    var packets := [Text(m), "X "];
    assert packets[1..] == ["X "] && ["X "][1..] == [];
    assert OnMessages(v, ["X "]) == OnMessages(OnMessage(v, "X "), []);
  }

  lemma BadMethod(t: Session)
    requires t.parser.status.ExpectMethod?
    ensures Parsed(t, "X ") == Halted(t.(refused := Some(405)))
  {
    hide Parsed;
    UnknownMethodRefused(t, "X", "");
    assert "X" + " " + "" == "X ";
  }

  /** A method that is none of those known is refused with 405, whatever follows. */
  lemma UnknownMethodRefused(t: Session, name: string, rest: string)
    requires t.parser.status.ExpectMethod? && ' ' !in name
    requires forall verb: Method | verb != Invalid :: MethodName(verb) != name
    ensures Parsed(t, name + " " + rest) == Halted(t.(refused := Some(405)))
  {
    UnknownMethod(name);
    hide Parsed, MethodOf;
    CharFound("", name, ' ', rest);
    var b := name + " " + rest;
    assert "" + b == b && b[..|name|] == name;
    ParsedStep(t, b);
  }

  lemma UnknownMethod(name: string)
    requires forall verb: Method | verb != Invalid :: MethodName(verb) != name
    ensures MethodOf(name) == Invalid
  {
    if MethodOf(name) != Invalid {
      NameOfMethod(name);
    }
  }

  lemma NameOfMethod(name: string)
    ensures MethodOf(name) != Invalid ==> MethodName(MethodOf(name)) == name
  {
  }

  /** A request line without a version, or with one that is not known, is refused with 400. */
  lemma BadLineRefused(t: Session, target: string, version: string, rest: string)
    requires t.parser.status.ExpectRequestLine? && ' ' !in target && '\r' !in target && '\r' !in version
    requires version != "HTTP/1.1" && version != "HTTP/1.0"
    ensures Refuses(Parsed(t, target + CRLF + rest), t, 400)
    ensures Refuses(Parsed(t, target + " " + version + CRLF + rest), t, 400)
  {
    hide Parsed;
    LinePlain(target, version);
    NoVersion(t.parser.req, target);
    UnknownVersion(t.parser.req, target, version);
    assert OneLine(target);
    LineRefused(t, target, rest);
    LineRefused(t, target + " " + version, rest);
  }

  lemma NoVersion(req: Request, target: string)
    requires ' ' !in target
    ensures ProcessRequestLine(req, target).None?
  {
    IndexOfIs(target, ' ', |target|);
  }

  lemma UnknownVersion(req: Request, target: string, version: string)
    requires ' ' !in target && version != "HTTP/1.1" && version != "HTTP/1.0"
    ensures ProcessRequestLine(req, target + " " + version).None?
  {
    var line := target + " " + version;
    IndexOfIs(line, ' ', |target|);
    assert line[..|target|] == target && line[|target| + 1..] == version;
  }
}
