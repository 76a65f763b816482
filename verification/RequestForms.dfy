/** What the request parser makes of requests that others print: targets with a scheme or without a path, cookies that
    are none, fields without a blank, body lengths and chunks that are none, and lines that never end. */
module RequestForms {
  import opened Bytes
  import opened Incremental
  import opened RequestParser
  import opened RequestText
  import Http = ResponseParser
  import Chunking

  // ----- targets -----

  /** A target with a scheme and an authority in front of its path. */
  lemma AbsoluteTarget(req: Request, scheme: string, host: string, path: string, query: string)
    requires '/' !in scheme && scheme != "" && '/' !in host && path != "" && path[0] == '/' && '?' !in path
    ensures Locate(req, scheme + "//" + host + path + "?" + query) == req.(path := path, query := query)
    ensures Locate(req, scheme + "//" + host + path) == req.(path := path)
  {
    BehindAuthority(scheme, host, path, "?" + query);
    BehindAuthority(scheme, host, path, "");
    var head := scheme + "//" + host;
    LocateAt(req, head, path, "?" + query);
    LocateAt(req, head, path, "");
    assert head + path + "" == head + path;
    assert head + path + ("?" + query) == head + path + "?" + query;
    assert ("?" + query)[1..] == query;
  }

  lemma BehindAuthority(scheme: string, host: string, path: string, behind: string)
    requires '/' !in scheme && scheme != "" && '/' !in host && path != "" && path[0] == '/'
    ensures PathStart(scheme + "//" + host + path + behind) == |scheme| + 2 + |host|
  {
    hide IndexOf;
    var t := scheme + "//" + host + path + behind;
    IndexOfIs(t, '/', |scheme|);
    assert t[|scheme|] == '/' && t[|scheme| + 1] == '/';
    assert t[|scheme| + 2..] == host + path + behind;
    IndexOfIs(host + path + behind, '/', |host|);
  }

  lemma LocateAt(req: Request, head: string, path: string, behind: string)
    requires PathStart(head + path + behind) == |head| && path != "" && '?' !in path
    requires behind == "" || behind[0] == '?'
    ensures Locate(req, head + path + behind) ==
            if behind == "" then req.(path := path) else req.(path := path, query := behind[1..])
  {
    hide IndexOf, PathStart;
    var t := head + path + behind;
    assert t[|head|..] == path + behind;
    IndexOfIs(path + behind, '?', |path|);
    assert t[|head|..|head| + |path|] == path;
    assert behind != "" ==> t[|head| + |path| + 1..] == behind[1..];
  }

  /** A target without any slash, or with an authority and no path, stands for the root. */
  lemma NoPath(req: Request, target: string, scheme: string, host: string)
    requires '/' !in target || (target == scheme + "//" + host && '/' !in scheme && scheme != "" && '/' !in host)
    ensures Locate(req, target) == req.(path := "/")
  {
    if '/' !in target {
      IndexOfIs(target, '/', |target|);
    } else {
      IndexOfIs(target, '/', |scheme|);
      assert target[|scheme|] == '/' && target[|scheme| + 1] == '/' && target[|scheme| + 2..] == host;
      IndexOfIs(host, '/', |host|);
    }
    assert target[|target|..] == "";
    IndexOfIs("", '?', 0);
  }

  /** The request line is read with the target located so. */
  lemma TargetLineRead(s: Session, target: string, http11: bool, rest: string)
    requires s.parser.status.ExpectRequestLine? && ' ' !in target && '\r' !in target
    ensures var version := if http11 then Http.Http11 else Http.Http10;
            var located := Locate(s.parser.req, target);
            Parsed(s, target + " " + VersionText(http11) + CRLF + rest) ==
            Parsed(s.(parser := s.parser.(status := ExpectHeaders,
                                          req := located.(version := version,
                                                          keepAlive := located.keepAlive && http11))), rest)
  {
    VersionPlain(http11);
    hide Parsed, LinesFit, Locate, VersionText, ProcessRequestLine;
    LinePlain(target, VersionText(http11));
    LineSplit(s.parser.req, target + " " + VersionText(http11), target, VersionText(http11));
    LineRead(s, target + " " + VersionText(http11), rest);
  }

  // ----- fields -----

  /** A field without the blank, or with several, or with blanks at its end: read as if printed. */
  lemma BlanksIgnored(req: Request, f: Field, before: string, behind: string)
    requires Trimmed(f.value) && (forall i | 0 <= i < |before| :: IsSpace(before[i]))
    requires forall i | 0 <= i < |behind| :: IsSpace(behind[i])
    ensures AddHeader(req, f.name, before + f.value + behind) == AddHeader(req, f.name, " " + f.value)
  {
    TrimsTo(f.value);
    TrimsBlanks(before, f.value, behind);
    hide LowerAll, AddCookies, TrimLeft, TrimRight;
  }

  lemma {:induction false} TrimsBlanks(before: string, value: string, behind: string)
    requires Trimmed(value) && (forall i | 0 <= i < |before| :: IsSpace(before[i]))
    requires forall i | 0 <= i < |behind| :: IsSpace(behind[i])
    ensures TrimRight(TrimLeft(before + value + behind)) == value
    decreases |before| + |behind|
  {
    hide IsSpace;
    if before != "" {
      assert (before + value + behind)[1..] == before[1..] + value + behind;
      TrimsBlanks(before[1..], value, behind);
    } else if value == "" {
      AllBlank(behind);
      assert before + value + behind == behind;
    } else {
      assert before + value + behind == value + behind;
      assert (value + behind)[0] == value[0];
      TrimsEnd(value, behind);
    }
  }

  lemma {:induction false} AllBlank(s: string)
    requires forall i | 0 <= i < |s| :: IsSpace(s[i])
    ensures TrimLeft(s) == "" && TrimRight("") == ""
  {
    if s != "" {
      AllBlank(s[1..]);
    }
  }

  lemma {:induction false} TrimsEnd(value: string, behind: string)
    requires value != "" && !IsSpace(value[|value| - 1]) && forall i | 0 <= i < |behind| :: IsSpace(behind[i])
    ensures TrimRight(value + behind) == value
    decreases |behind|
  {
    hide IsSpace;
    if behind == "" {
      assert value + behind == value;
    } else {
      var s := value + behind;
      assert s[|s| - 1] == behind[|behind| - 1] && s[..|s| - 1] == value + behind[..|behind| - 1];
      TrimsEnd(value, behind[..|behind| - 1]);
    }
  }

  /** A piece of a Cookie field without an equals sign is passed over. */
  lemma NoCookie(cookies: map<string, string>, text: string, more: string)
    requires '=' !in text && ';' !in text
    ensures AddCookies(cookies, text) == cookies && AddCookies(cookies, text + ";" + more) == AddCookies(cookies, more)
  {
    CookiesStep(text, more, cookies);
    IndexOfIs(text, '=', |text|);
  }

  // ----- lengths and chunks that are none -----

  /** A length that starts like no number, or is too big for size_t. */
  predicate BadNumber(value: string) {
    && PlainValue(value) && value != ""
    && ((DigitValue(value[0]) >= 10 && value[0] != '+' && value[0] != '-') ||
        ((forall i | 0 <= i < |value| :: DigitValue(value[i]) < 10) && Value(value, 10) > SIZE_MAX))
  }

  lemma BadNumberRead(value: string)
    requires BadNumber(value)
    ensures StrToULL(value, 10).end == 0 || StrToULL(value, 10).range
  {
    assert TrimLeft(value) == value;
    if forall i | 0 <= i < |value| :: DigitValue(value[i]) < 10 {
      AllDigits(value, 10);
      assert value[0] != '-' && value[0] != '+';
      assert value[0..] == value && value[..|value|] == value;
    }
  }

  lemma BadLengthRefused(s: Session, value: string, rest: string)
    requires InHeaders(s) && BadNumber(value)
    ensures Refuses(Parsed(s, Lines([Field(LENGTH_NAME, value)]) + (CRLF + rest)), s, 400)
  {
    hide Parsed, LinesFit, StrToULL, Lines, LowerAll, BadNumber;
    NamesPlain();
    BadNumberRead(value);
    BadNumberPlain(value);
    FormFieldRead(s, LENGTH_NAME, value, CRLF + rest);
    var req := s.parser.req.(headers := s.parser.req.headers["content-length" := value]);
    EmptyLineRefused(s.(parser := s.parser.(req := req)), rest);
  }

  lemma BadNumberPlain(value: string)
    requires BadNumber(value)
    ensures PlainValue(value) && value != ""
  {
  }

  /** A negative number wraps to a huge one. */
  lemma NegativeRead(n: nat)
    requires 0 < n <= SIZE_MAX
    ensures var value := "-" + Decimal(n); StrToULL(value, 10) == Number(SIZE_MAX + 1 - n, |value|, false)
    ensures PlainValue("-" + Decimal(n))
  {
    LengthRead(n);
    DecimalDigits(n);
    hide Decimal, Value, StrToULL, IsSpace;
    MinusRead(Decimal(n));
    MinusPlain(Decimal(n));
  }

  lemma MinusRead(d: string)
    requires d != "" && (forall i | 0 <= i < |d| :: DigitValue(d[i]) < 10) && 0 < Value(d, 10) <= SIZE_MAX
    ensures StrToULL("-" + d, 10) == Number(SIZE_MAX + 1 - Value(d, 10), 1 + |d|, false)
  {
    hide Value, DigitValue, DigitRun, IsSpace;
    AllDigits(d, 10);
    MinusIsNoBlank();
    var value := "-" + d;
    assert value[1..] == d && d[..|d|] == d && TrimLeft(value) == value;
  }

  lemma MinusPlain(d: string)
    requires d != "" && Trimmed(d) && forall i | 0 <= i < |d| :: d[i] != '\r'
    ensures PlainValue("-" + d)
  {
    hide IsSpace;
    MinusIsNoBlank();
    var value := "-" + d;
    assert value[|value| - 1] == d[|d| - 1];
    forall i | 0 <= i < |value|
      ensures value[i] != '\r'
    {
      if i > 0 {
        assert value[i] == d[i - 1];
      }
    }
  }

  lemma MinusIsNoBlank()
    ensures !IsSpace('-')
  {
  }

  /** A negative length is refused as too large. */
  lemma NegativeLengthRefused(s: Session, n: nat, rest: string)
    requires InHeaders(s) && 0 < n <= SIZE_MAX && s.parser.maxBody < SIZE_MAX + 1 - n
    ensures Refuses(Parsed(s, Lines([Field(LENGTH_NAME, "-" + Decimal(n))]) + (CRLF + rest)), s, 413)
  {
    hide Parsed, LinesFit, StrToULL, Lines, LowerAll, Decimal;
    NamesPlain();
    NegativeRead(n);
    var value := "-" + Decimal(n);
    FormFieldRead(s, LENGTH_NAME, value, CRLF + rest);
    var req := s.parser.req.(headers := s.parser.req.headers["content-length" := value]);
    EmptyLineRefused(s.(parser := s.parser.(req := req)), rest);
  }

  /** A chunk that does not end in CRLF, and a last chunk that does not. */
  lemma BadChunkEnd(s: Session, data: string, end: string, rest: string)
    requires |end| == 2 && end != CRLF
    requires (s.parser.status.ExpectChunkBody? && s.parser.chunk == |data|) ||
             (s.parser.status.ExpectLastEmptyChunk? && data == "")
    ensures Refuses(Parsed(s, data + end + rest), s, 400)
  {
    hide Parsed, Unchunked;
    var b := data + end + rest;
    assert b[|data|] == end[0] && b[|data| + 1] == end[1];
    assert end[0] == '\r' && end[1] == '\n' ==> end == CRLF;
    ParsedStep(s, b);
  }

  /** The size of a chunk too big for strtol, or of a first chunk that is negative, becomes a huge one, which is
      refused. */
  lemma HugeChunkRefused(s: Session, line: string, rest: string)
    requires s.parser.status.ExpectChunkLen? && s.parser.maxBody < 0x7FFF_FFFF_FFFF_FFFF && OneLine(line)
    requires (line != "" && line[0] == '-' && StrToULL(line, 16).value != 0 && s.parser.remain == 0) ||
             (TrimLeft(line) == line && (line == "" || line[0] != '-') &&
              StrToULL(line, 16).value >= 0x7FFF_FFFF_FFFF_FFFF)
    ensures Refuses(Parsed(s, line + CRLF + rest), s, 413)
  {
    hide Parsed, StrToULL;
    LineRefused(s, line, rest);
  }

  // ----- lines that never end -----

  /** A line that does not end is waited for up to its limit and refused from there on: eight bytes for the method, 64
      KiB for the request line, with a status of its own, and for a header line, nineteen bytes for a chunk size. */
  lemma EndlessLine(s: Session, b: string)
    requires ByLine(s.parser.status) && Find(b, if s.parser.status.ExpectMethod? then " " else CRLF) < 0
    ensures var status := s.parser.status;
            var limit := if status.ExpectMethod? then 8 else if status.ExpectChunkLen? then 19 else 65536;
            var code := if s.parser.status.ExpectRequestLine? then 414 else 400;
            Parsed(s, b) == if |b| < limit then Waiting(s, b) else OverLimit(s.(refused := Some(code)))
  {
    hide Parsed, OnLine, Find;
    ParsedStep(s, b);
  }
}
