/** Responses that are none: what the client makes of status lines, lengths, codings, chunk sizes and chunk ends that
    others print wrongly, of a response nobody waits for, and of the odd spellings of numbers that strtoull and atoi
    take. */
module ResponseForms {
  import opened Bytes
  import opened Incremental
  import Client
  import opened ResponseParser
  import opened ResponseReceiver
  import opened ResponseText
  import RequestText
  import RequestForms

  /** Everything in flight or waiting fails with a bad response. */
  predicate Breaks(f: Final<Conn>, c: Client.Client<Response>) {
    f == Halted(Conn(FRESH, Client.OnError(c, Client.BadResponse)))
  }

  lemma LineBreaks(s: Conn, line: string, rest: string)
    requires s.client.inflight != [] && OneLine(line) && Aim(s) == s.parser
    requires match s.parser.status
             case ExpectResponseLine => ProcessResponseLine(s.parser.resp, line).None?
             case ExpectHeaders => HeaderLine(s.parser, line).BadLine?
             case ExpectChunkLen => ChunkLength(line).None?
             case _ => false
    ensures Breaks(Received(s, line + CRLF + rest), s.client)
  {
    hide HeaderLine, ProcessResponseLine, ChunkLength, Received, OneLine, Client.OnError;
    LineFound(line, rest);
    assert (line + CRLF + rest)[..|line|] == line;
    ReceivedStep(s, line + CRLF + rest);
  }

  /** A status line of one word, or whose first word does not end in 0 or 1. */
  lemma BadStatusLine(c: Client.Client<Response>, word: string, more: string, rest: string)
    requires c.inflight != [] && ' ' !in word && '\r' !in word && '\r' !in more
    requires more == "" || (word != "" && word[|word| - 1] != '0' && word[|word| - 1] != '1')
    ensures Breaks(Received(Conn(FRESH, c), word + " " + more + CRLF + rest), c)
    ensures Breaks(Received(Conn(FRESH, c), word + CRLF + rest), c)
  {
    hide Received, Breaks, Client.OnError, Find, FindFrom, At;
    var s := Conn(FRESH, c);
    var aimed := Conn(Aim(s), c);
    AimOnce(s, word + " " + more + CRLF + rest);
    AimOnce(s, word + CRLF + rest);
    OneLineOf(word, more);
    NoStatus(aimed.parser.resp, word, more);
    LineBreaks(aimed, word + " " + more, rest);
    LineBreaks(aimed, word, rest);
  }

  /** Marking the parser for a HEAD request beforehand makes no difference. */
  lemma AimOnce(s: Conn, b: string)
    requires s.client.inflight != [] && b != ""
    ensures Received(s, b) == Received(Conn(Aim(s), s.client), b)
  {
    hide ParserRound, Received;
    ReceivedStep(s, b);
    ReceivedStep(Conn(Aim(s), s.client), b);
  }

  lemma OneLineOf(word: string, more: string)
    requires '\r' !in word && '\r' !in more
    ensures OneLine(word) && OneLine(word + " " + more)
  {
    var line := word + " " + more;
    assert forall i | 0 <= i < |line| :: line[i] in word || line[i] == ' ' || line[i] in more;
  }

  lemma NoStatus(resp: Response, word: string, more: string)
    requires ' ' !in word
    requires more == "" || (word != "" && word[|word| - 1] != '0' && word[|word| - 1] != '1')
    ensures ProcessResponseLine(resp, word).None? && ProcessResponseLine(resp, word + " " + more).None?
  {
    hide FindFrom, At;
    NoBlank(word);
    CharFound("", word, ' ', more);
    var line := word + " " + more;
    assert "" + line == line;
    if word != "" {
      assert line[|word| - 1] == word[|word| - 1];
    }
    if more == "" {
      NoSecond(word, line);
    }
  }

  lemma NoBlank(word: string)
    requires ' ' !in word
    ensures Find(word, " ") < 0
  {
    hide FindFrom;
    if Find(word, " ") >= 0 {
      SingleAt(word, ' ', Find(word, " "));
    }
  }

  lemma NoSecond(word: string, line: string)
    requires line == word + " "
    ensures FindFrom(line, " ", |word| + 1) < 0
  {
  }

  /** A length that is no number, or too big for size_t. */
  lemma BadLength(s: Conn, value: string, rest: string)
    requires InHeaders(s) && RequestForms.BadNumber(value)
    ensures var field := RequestText.Field("content-length", value);
            Breaks(Received(s, RequestText.Lines([field]) + (CRLF + rest)), s.client)
  {
    hide Received, Breaks, Client.OnError, RequestText.Lines, LowerAll, RequestForms.BadNumber;
    RequestText.NamesPlain();
    RequestForms.BadNumberRead(value);
    RequestForms.BadNumberPlain(value);
    FormFieldRead(s, RequestText.LENGTH_NAME, value, CRLF + rest);
    var resp := s.parser.resp;
    var t := s.(parser := s.parser.(resp := resp.(headers := resp.headers["content-length" := value])));
    hide StrToULL;
    assert "" + CRLF + rest == CRLF + rest;
    assert Find("", ":") < 0 && OneLine("");
    LineBreaks(t, "", rest);
  }

  /** The number at the front of a chunk-size line, in front of a character that is no digit. */
  lemma {:induction false} DigitRunIs(digits: string, behind: string)
    requires forall i | 0 <= i < |digits| :: DigitValue(digits[i]) < 16
    requires behind == "" || DigitValue(behind[0]) >= 16
    ensures DigitRun(digits + behind, 16) == |digits|
  {
    hide DigitValue;
    if digits == "" {
      assert "" + behind == behind;
    } else {
      assert (digits + behind)[1..] == digits[1..] + behind;
      DigitRunIs(digits[1..], behind);
    }
  }

  /** Digits of a size, without an 0x that would count as one. */
  predicate Digits(digits: string) {
    && digits != "" && (forall i | 0 <= i < |digits| :: DigitValue(digits[i]) < 16)
    && !IsSpace(digits[0]) && digits[0] != '-' && digits[0] != '+'
  }

  predicate NoDigit(behind: string) {
    behind == "" || (DigitValue(behind[0]) >= 16 && behind[0] != 'x' && behind[0] != 'X')
  }

  lemma SizeNumber(digits: string, behind: string)
    requires Digits(digits) && NoDigit(behind) && Value(digits, 16) <= SIZE_MAX
    ensures StrToULL(digits + behind, 16) == Number(Value(digits, 16), |digits|, false)
  {
    hide Value, IsSpace, DigitRun, DigitValue, StrToULL;
    var s := digits + behind;
    assert s[0] == digits[0] && TrimLeft(s) == s;
    DigitRunIs(digits, behind);
    NoPrefix(digits, behind);
    assert s[..|digits|] == digits;
    FrontNumber(s, |digits|);
  }

  lemma FrontNumber(s: string, run: nat)
    requires TrimLeft(s) == s && DigitRun(s, 16) == run && 0 < run && s[0] != '-' && s[0] != '+'
    requires (|s| > 2 ==> s[1] != 'x' && s[1] != 'X') && Value(s[..run], 16) <= SIZE_MAX
    ensures StrToULL(s, 16) == Number(Value(s[..run], 16), run, false)
  {
    hide Value, IsSpace, DigitRun, DigitValue, TrimLeft;
    assert s[0..] == s;
  }

  lemma NoPrefix(digits: string, behind: string)
    requires Digits(digits) && NoDigit(behind)
    ensures var s := digits + behind; |s| > 2 ==> s[1] != 'x' && s[1] != 'X'
  {
    var s := digits + behind;
    assert |s| > 2 ==> s[1] == if |digits| > 1 then digits[1] else behind[0];
  }

  /** A chunk size counts up to the end of its line or a semicolon; anything else behind it breaks the response. */
  lemma ChunkSizeJudged(s: Conn, digits: string, behind: string, rest: string)
    requires s.client.inflight != [] && s.parser.status.ExpectChunkLen? && Aim(s) == s.parser
    requires Digits(digits) && NoDigit(behind) && Value(digits, 16) <= SIZE_MAX && OneLine(digits + behind)
    ensures var n, f := Value(digits, 16), Received(s, digits + behind + CRLF + rest);
            if behind == "" || behind[0] == ';' || behind[0] == 0 as char then
              f == Received(s.(parser := s.parser.(chunk := n, status := if n != 0 then ExpectChunkBody
                                                                         else ExpectLastEmptyChunk)), rest)
            else Breaks(f, s.client)
  {
    SizeNumber(digits, behind);
    hide Received, Breaks, Client.OnError, StrToULL, Value;
    var line := digits + behind;
    assert |digits| < |line| ==> line[|digits|] == behind[0];
    if ChunkLength(line).None? {
      LineBreaks(s, line, rest);
    } else {
      LineFound(line, rest);
      assert (line + CRLF + rest)[..|line|] == line && (line + CRLF + rest)[|line| + 2..] == rest;
      ReceivedStep(s, line + CRLF + rest);
    }
  }

  /** A chunk size may be written with an 0x in front. */
  lemma PrefixedSize(digits: string)
    requires Digits(digits) && Value(digits, 16) <= SIZE_MAX
    ensures StrToULL("0x" + digits, 16) == Number(Value(digits, 16), 2 + |digits|, false)
  {
    hide Value, IsSpace, DigitRun, DigitValue, TrimLeft;
    AllDigits(digits, 16);
    PrefixStays(digits);
    var s := "0x" + digits;
    assert s[0] == '0' && s[1] == 'x' && s[2] == digits[0] && |s| > 2;
    assert s[2..] == digits && digits[..|digits|] == digits;
  }

  lemma PrefixStays(digits: string)
    ensures TrimLeft("0x" + digits) == "0x" + digits
  {
    ZeroIsNoBlank();
    assert ("0x" + digits)[0] == '0';
  }

  lemma ZeroIsNoBlank()
    ensures !IsSpace('0')
  {
  }

  /** A chunk size that is no number. */
  lemma BadChunkSize(s: Conn, line: string, rest: string)
    requires s.client.inflight != [] && s.parser.status.ExpectChunkLen? && Aim(s) == s.parser
    requires RequestText.PlainValue(line) && line != ""
    requires DigitValue(line[0]) >= 16 && line[0] != '+' && line[0] != '-'
    ensures Breaks(Received(s, line + CRLF + rest), s.client)
  {
    assert TrimLeft(line) == line;
    assert StrToULL(line, 16).end == 0;
    hide Received, Breaks, Client.OnError, StrToULL;
    LineBreaks(s, line, rest);
  }

  /** A chunk that does not end in CRLF. */
  lemma BadChunkEnd(s: Conn, data: string, end: string, rest: string)
    requires s.client.inflight != [] && s.parser.status.ExpectChunkBody? && Aim(s) == s.parser
    requires s.parser.chunk == |data| && |end| == 2 && end != CRLF
    ensures Breaks(Received(s, data + end + rest), s.client)
  {
    hide Received, Client.OnError;
    var b := data + end + rest;
    assert b[|data|] == end[0] && b[|data| + 1] == end[1];
    assert end[0] == '\r' && end[1] == '\n' ==> end == CRLF;
    ReceivedStep(s, b);
  }

  /** A status code may carry a sign. */
  lemma SignedCode(n: nat)
    ensures Atoi("-" + Decimal(n)) == 0 - n && Atoi("+" + Decimal(n)) == n && Atoi(" " + Decimal(n)) == n
  {
    DecimalDigits(n);
    var d := Decimal(n);
    hide Decimal, Value, DigitValue, DigitRun, IsSpace;
    forall i | 0 <= i < |d|
      ensures !IsSpace(d[i]) && d[i] != '-' && d[i] != '+'
    {
      DigitIsPlain(d[i]);
    }
    AllDigits(d, 10);
    SignsAreNoBlanks();
    assert d[..|d|] == d && d[0..] == d && ("-" + d)[1..] == d && ("+" + d)[1..] == d && (" " + d)[1..] == d;
    assert TrimLeft(d) == d && TrimLeft("-" + d) == "-" + d && TrimLeft("+" + d) == "+" + d;
    assert TrimLeft(" " + d) == TrimLeft(d);
  }

  lemma SignsAreNoBlanks()
    ensures !IsSpace('-') && !IsSpace('+') && IsSpace(' ')
  {
  }

  /** Under any other coding than chunked the body goes up to the close. */
  lemma OtherCoding(s: Conn, coding: string, data: string)
    requires InHeaders(s) && !s.parser.forHead && RequestText.PlainValue(coding) && coding != "chunked"
    requires var resp := s.parser.resp;
             resp.code != 204 && !(resp.code == 101 && LowerAll(resp.Header("upgrade")) == "websocket")
    ensures var resp, field := s.parser.resp, RequestText.Field(RequestText.CODING_NAME, coding);
            var read := resp.(headers := resp.headers[RequestText.CODING_NAME := coding], body := data);
            Received(s, RequestText.Lines([field]) + (CRLF + data)) ==
            Waiting(Conn(s.parser.(status := ExpectClose, resp := read), Shut(s.client, true)), "")
  {
    hide Received, RequestText.Lines, LowerAll, StrToULL, Client.HandleResponse;
    RequestText.NamesPlain();
    FormFieldRead(s, RequestText.CODING_NAME, coding, CRLF + data);
    var resp := s.parser.resp;
    var read := resp.(headers := resp.headers[RequestText.CODING_NAME := coding]);
    var t := s.(parser := s.parser.(resp := read));
    UntilClose(t, data);
  }

  lemma UntilClose(s: Conn, data: string)
    requires s.client.inflight != [] && s.parser.status.ExpectHeaders? && Aim(s) == s.parser && s.parser.resp.body == ""
    requires Frame(s.parser.resp, s.parser.forHead) == Framed(ExpectClose, 0, true) && s.parser.left == 0
    ensures Received(s, CRLF + data) ==
            Waiting(Conn(s.parser.(status := ExpectClose, resp := s.parser.resp.(body := data)), Shut(s.client, true)),
                    "")
  {
    hide Received, Frame, Client.HandleResponse;
    var b := CRLF + data;
    assert "" + CRLF + data == b;
    LineFound("", data);
    assert b[..0] == "" && b[2..] == data && Find("", ":") < 0;
    ReceivedStep(s, b);
    ReceivedStep(Conn(s.parser.(status := ExpectClose), Shut(s.client, true)), data);
    assert "" + data == data;
  }

  /** Bytes that no request waits for end the connection. */
  lemma Unexpected(c: Client.Client<Response>, b: string)
    requires c.inflight == [] && b != ""
    ensures Received(Conn(FRESH, c), b) == Halted(Conn(FRESH, Shut(c, true)))
  {
    hide Received;
    ReceivedStep(Conn(FRESH, c), b);
  }
}
