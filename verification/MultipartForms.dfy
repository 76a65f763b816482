/** What the multipart parser makes of bodies that others write: preambles and epilogues, header lines in all their
    spellings, and the lines and delimiters that make it give up. The bodies that the client writes are in
    MultipartWriter. */
module MultipartForms {
  import opened Bytes
  import opened Incremental
  import opened Multipart
  import opened MultipartReader
  import MultipartWriter

  // ----- searching -----

  /** Searching from k on is searching the rest. */
  lemma {:induction false} FromSuffix(v: string, p: string, from: nat, k: nat)
    requires from <= k <= |v|
    ensures var f := FindFrom(v[from..], p, k - from); FindFrom(v, p, k) == if f < 0 then -1 else from + f
    decreases |v| - k
  {
    var u := v[from..];
    if k + |p| <= |v| {
      assert u[k - from..k - from + |p|] == v[k..k + |p|];
      if v[k..k + |p|] != p && k < |v| {
        FromSuffix(v, p, from, k + 1);
      }
    }
  }

  // ----- values of parameters -----

  /** A value and what ends it: in quotes, or bare up to a semicolon. */
  function Shown(text: string, quoted: bool): string { if quoted then "\"" + text + "\"" else text + ";" }

  predicate Showable(text: string, quoted: bool) {
    if quoted then '"' !in text else ';' !in text && (text == "" || text[0] != '"')
  }

  /** A value that nothing ends. */
  function Unended(text: string, quoted: bool): string { if quoted then "\"" + text else text }

  lemma ShownIs(before: string, text: string, quoted: bool, behind: string)
    requires Showable(text, quoted)
    ensures var v := before + (Shown(text, quoted) + behind);
            var r := Quoted(v, |before|);
            && r.1 == r.0 + |text| && v[r.0..r.1] == text && v[r.1..] == (if quoted then "\"" else ";") + behind
            && r.0 == |before| + if quoted then 1 else 0
  {
    if quoted {
      QuotesShown(before, text, behind);
    } else {
      BareShown(before, text, behind);
    }
  }

  lemma QuotesShown(before: string, text: string, behind: string)
    requires '"' !in text
    ensures var v, at := before + (Shown(text, true) + behind), |before| + 1;
            Quoted(v, |before|) == (at, at + |text|) && v[at..at + |text|] == text && v[at + |text|..] == "\"" + behind
  {
    hide FindFrom, At;
    var v, at := before + (Shown(text, true) + behind), |before| + 1;
    var head := before + "\"";
    assert v[|before|] == '"';
    assert v == head + (text + "\"" + behind);
    CharFound(head, text, '"', behind);
    assert v[at + |text|..] == "\"" + behind;
  }

  lemma BareShown(before: string, text: string, behind: string)
    requires Showable(text, false)
    ensures var v, at := before + (Shown(text, false) + behind), |before|;
            Quoted(v, at) == (at, at + |text|) && v[at..at + |text|] == text && v[at + |text|..] == ";" + behind
  {
    hide FindFrom, At;
    var v, at := before + (Shown(text, false) + behind), |before|;
    assert v == before + (text + ";" + behind);
    assert v[at] == (text + ";")[0];
    CharFound(before, text, ';', behind);
    assert v[at + |text|..] == ";" + behind;
  }

  lemma UnendedIs(before: string, text: string, quoted: bool)
    requires Showable(text, quoted)
    ensures var v, r := before + Unended(text, quoted), Quoted(before + Unended(text, quoted), |before|);
            r.1 == -1 && v[r.0..] == text
  {
    hide FindFrom, At;
    var v, at := before + Unended(text, quoted), |before|;
    if quoted {
      assert v[at] == '"';
      assert v == (before + "\"") + text;
      NotFound(before + "\"", text, '"');
      EitherFound(v, "\"", at + 1);
    } else {
      assert text != "" ==> v[at] == text[0];
      NotFound(before, text, ';');
      EitherFound(v, ";", at);
    }
  }

  lemma EitherFound(v: string, p: string, from: nat)
    ensures FindFrom(v, p, from) < 0 ==> FindFrom(v, p, from) == -1
  {
  }

  // ----- the disposition of a part -----

  const NAME_EQ: string := "name="
  const FILE_EQ: string := "filename="
  const FORM: string := "form-data; "

  lemma NameFound(rest: string)
    ensures Find(FORM + NAME_EQ + rest, NAME_EQ) == |FORM|
  {
    hide FindFrom;
    var v := FORM + NAME_EQ + rest;
    assert v[|FORM|..|FORM| + |NAME_EQ|] == NAME_EQ;
    forall i | 0 <= i < |FORM|
      ensures !At(v, NAME_EQ, i)
    {
      if i + |NAME_EQ| <= |v| {
        assert v[i..i + |NAME_EQ|][0] == FORM[i] && FORM[i] != 'n' && NAME_EQ[0] == 'n';
      }
    }
    FindIs(v, NAME_EQ, |FORM|);
  }

  /** The value of a disposition up to the end of its name. */
  function Named(name: string, quoted: bool, behind: string): string {
    FORM + NAME_EQ + (Shown(name, quoted) + behind)
  }

  /** What stands from the end of the name on. */
  function BehindName(quoted: bool, behind: string): string { (if quoted then "\"" else ";") + behind }

  lemma NameRead(h: Header, name: string, quoted: bool, behind: string) returns (end: nat)
    requires Showable(name, quoted)
    ensures var v := Named(name, quoted, behind);
            && end <= |v| && v[end..] == BehindName(quoted, behind)
            && Disposition(h, v) == WithFile(h.(name := name), v, FindFrom(v, FILE_EQ, end))
  {
    hide FindFrom, At, Quoted;
    var v := Named(name, quoted, behind);
    NameFound(Shown(name, quoted) + behind);
    ShownIs(FORM + NAME_EQ, name, quoted, behind);
    end := Quoted(v, |FORM| + 5).1;
  }

  function WithFile(h: Header, v: string, filePos: int): Option<Header>
    requires filePos < 0 || filePos + 9 <= |v|
  {
    if filePos < 0 then Some(h)
    else
      var (from, end) := Quoted(v, filePos + 9);
      Some(h.(filename := if end < 0 then v[from..] else v[from..end]))
  }

  /** A name alone, in quotes or up to a semicolon. */
  lemma NameAlone(h: Header, name: string, quoted: bool, behind: string)
    requires Showable(name, quoted) && Find(BehindName(quoted, behind), FILE_EQ) < 0
    ensures Disposition(h, Named(name, quoted, behind)) == Some(h.(name := name))
  {
    hide FindFrom, At, Disposition, Quoted;
    var end := NameRead(h, name, quoted, behind);
    FromSuffix(Named(name, quoted, behind), FILE_EQ, end, end);
  }

  /** The rest of a disposition in which a file name follows. */
  function FileBehind(between: string, file: string): string { between + FILE_EQ + file }

  lemma FileAt(h: Header, name: string, quoted: bool, between: string, file: string) returns (before: string)
    requires Showable(name, quoted)
    requires Find(BehindName(quoted, between) + FILE_EQ, FILE_EQ) == 1 + |between|
    ensures var v := Named(name, quoted, FileBehind(between, file));
            v == before + file && |before| >= 9 &&
            Disposition(h, v) == WithFile(h.(name := name), v, |before| - 9)
  {
    hide FindFrom, At, Disposition, Quoted, WithFile;
    var v := Named(name, quoted, FileBehind(between, file));
    var end := NameRead(h, name, quoted, FileBehind(between, file));
    FromSuffix(v, FILE_EQ, end, end);
    var first := BehindName(quoted, between) + FILE_EQ;
    FindExtend(first, file, FILE_EQ);
    assert v[end..] == first + file;
    before := FORM + NAME_EQ + (Shown(name, quoted) + (between + FILE_EQ));
    assert v == before + file;
    assert end + 1 + |between| + 9 == |v| - |file|;
  }

  /** A name and a file name, each in quotes or up to a semicolon. */
  lemma NameAndFile(h: Header, name: string, quoted: bool, between: string, file: string, fileQuoted: bool,
                    behind: string)
    requires Showable(name, quoted) && Showable(file, fileQuoted)
    requires Find(BehindName(quoted, between) + FILE_EQ, FILE_EQ) == 1 + |between|
    ensures Disposition(h, Named(name, quoted, FileBehind(between, Shown(file, fileQuoted) + behind))) ==
            Some(h.(name := name, filename := file))
  {
    hide FindFrom, At, Disposition, Quoted, Shown, Named;
    var before := FileAt(h, name, quoted, between, Shown(file, fileQuoted) + behind);
    ShownIs(before, file, fileQuoted, behind);
  }

  /** A file name that nothing ends goes up to the end of the line. */
  lemma NameAndRest(h: Header, name: string, quoted: bool, between: string, file: string, fileQuoted: bool)
    requires Showable(name, quoted) && Showable(file, fileQuoted)
    requires Find(BehindName(quoted, between) + FILE_EQ, FILE_EQ) == 1 + |between|
    ensures Disposition(h, Named(name, quoted, FileBehind(between, Unended(file, fileQuoted)))) ==
            Some(h.(name := name, filename := file))
  {
    hide FindFrom, At, Disposition, Quoted, Unended, Named;
    var before := FileAt(h, name, quoted, between, Unended(file, fileQuoted));
    UnendedIs(before, file, fileQuoted);
  }

  /** Without a name, or with one that nothing ends, the disposition is refused. */
  lemma NoName(h: Header, value: string, name: string, quoted: bool)
    requires Find(value, NAME_EQ) < 0 || (value == FORM + NAME_EQ + Unended(name, quoted) && Showable(name, quoted))
    ensures Disposition(h, value).None?
  {
    hide FindFrom, At, Quoted;
    if Find(value, NAME_EQ) >= 0 {
      NameFound(Unended(name, quoted));
      UnendedIs(FORM + NAME_EQ, name, quoted);
    }
  }

  // ----- header lines -----

  function Line(key: string, blank: bool, value: string): string { key + ":" + ((if blank then " " else "") + value) }

  lemma LineParsed(key: string, blank: bool, value: string)
    requires ':' !in key && (!blank ==> value == "" || value[0] != ' ')
    ensures ParseLine(Line(key, blank, value)) == (key, value)
  {
    hide FindFrom, At;
    var line := Line(key, blank, value);
    CharFound("", key, ':', (if blank then " " else "") + value);
    assert "" + line == line;
    if blank {
      assert line[|key| + 1] == ' ' && line[|key| + 2..] == value && line[..|key|] == key;
    } else {
      assert |key| + 1 < |line| ==> line[|key| + 1] == value[0];
      assert line[|key| + 1..] == value && line[..|key|] == key;
    }
  }

  /** A line that is no header: without a colon, without a name before it or without a value behind it. */
  predicate NoHeader(line: string, key: string, blank: bool) {
    ':' !in line || (':' !in key && line == Line(key, blank, "")) || (line != "" && line[0] == ':')
  }

  lemma NoHeaderLine(h: Header, line: string, key: string, blank: bool)
    requires NoHeader(line, key, blank)
    ensures HeaderLine(h, line).None?
  {
    hide FindFrom, At;
    if ':' !in line {
      NoColon(line);
    } else if line != "" && line[0] == ':' {
      CharFound("", "", ':', line[1..]);
      assert "" + ("" + ":" + line[1..]) == line;
      assert line[..0] == "";
    } else {
      LineParsed(key, blank, "");
    }
  }

  lemma NoColon(line: string)
    requires ':' !in line
    ensures Find(line, ":") < 0
  {
    hide FindFrom, At;
    NotFound("", line, ':');
    assert "" + line == line;
  }

  predicate KeyOf(key: string, name: string) { |key| >= |name| && LowerAll(key[..|name|]) == LowerAll(name) }

  /** The content type, under any spelling of its name. */
  lemma TypeLine(h: Header, key: string, blank: bool, value: string)
    requires ':' !in key && (!blank ==> value == "" || value[0] != ' ') && value != "" && KeyOf(key, "content-type")
    ensures HeaderLine(h, Line(key, blank, value)) == Some(h.(contentType := value))
  {
    hide LowerAll, ParseLine, Disposition, Line;
    LineParsed(key, blank, value);
  }

  lemma DispositionKey(h: Header, key: string, blank: bool, value: string)
    requires ':' !in key && (!blank ==> value == "" || value[0] != ' ') && value != ""
    requires KeyOf(key, "content-disposition") && !KeyOf(key, "content-type")
    ensures HeaderLine(h, Line(key, blank, value)) == Disposition(h, value)
  {
    hide LowerAll, ParseLine, Disposition, Line;
    LineParsed(key, blank, value);
  }

  /** Any other header is passed over. */
  lemma OtherLine(h: Header, key: string, blank: bool, value: string)
    requires ':' !in key && (!blank ==> value == "" || value[0] != ' ') && key != "" && value != ""
    requires !KeyOf(key, "content-disposition") && !KeyOf(key, "content-type")
    ensures HeaderLine(h, Line(key, blank, value)) == Some(h)
  {
    hide LowerAll, ParseLine, Disposition, Line;
    LineParsed(key, blank, value);
  }

  // ----- what the parser does with them -----

  /** A header line that is refused ends the parse; any other is read and the parse goes on behind it. */
  lemma LineJudged(s: State, line: string, rest: string)
    requires s.status.ExpectHeader? && line != "" && OneLine(line)
    ensures var h := HeaderLine(s.header, line);
            Whole(s, line + CRLF + rest) ==
            if h.Some? then Whole(s.(header := h.value), rest) else Halted(s.(valid := false))
  {
    hide HeaderLine, Whole;
    var b := line + CRLF + rest;
    LineFound(line, rest);
    assert b[..|line|] == line && b[|line| + 2..] == rest;
    WholeStep(s, b);
  }

  /** A line that is no header, and a disposition without a name, end the parse as invalid. */
  lemma BadLineInvalid(s: State, line: string, rest: string, key: string, blank: bool, value: string, name: string,
                       quoted: bool)
    requires s.status.ExpectHeader? && line != "" && OneLine(line)
    requires NoHeader(line, key, blank) ||
             (line == Line(key, blank, value) && ':' !in key && (!blank ==> value == "" || value[0] != ' ') &&
              value != "" && KeyOf(key, "content-disposition") && !KeyOf(key, "content-type") &&
              (Find(value, NAME_EQ) < 0 ||
               (value == FORM + NAME_EQ + Unended(name, quoted) && Showable(name, quoted))))
    ensures Whole(s, line + CRLF + rest) == Halted(s.(valid := false))
  {
    hide Whole, HeaderLine, Disposition, KeyOf, Line, Find;
    LineJudged(s, line, rest);
    if NoHeader(line, key, blank) {
      NoHeaderLine(s.header, line, key, blank);
    } else {
      DispositionKey(s.header, key, blank, value);
      NoName(s.header, value, name, quoted);
    }
  }

  /** Behind a part comes another part or the end; anything else is invalid. */
  lemma EndGarbage(s: State, b: string)
    requires s.status.ExpectEndOrNewEntry? && |b| >= 2 && b[..2] != CRLF && b[..2] != "--"
    ensures Whole(s, b) == Halted(s.(valid := false))
  {
    hide Whole;
    assert |CRLF| == 2 && |DASH| == 2;
    WholeStep(s, b);
  }

  /** What comes before the first delimiter does not matter. */
  lemma PreambleIgnored(s: State, preamble: string, rest: string)
    requires s.status.ExpectFirstBoundary?
    requires Find(preamble + s.DashBoundaryCrlf(), s.DashBoundaryCrlf()) == |preamble|
    ensures Whole(s, preamble + s.DashBoundaryCrlf() + rest) == Whole(s, s.DashBoundaryCrlf() + rest)
  {
    hide Whole, FindFrom, At;
    var d := s.DashBoundaryCrlf();
    var a, b := preamble + d + rest, d + rest;
    FindExtend(preamble + d, rest, d);
    assert a[|preamble| + |d|..] == rest && b[|d|..] == rest;
    Starts(d, rest);
    WholeStep(s, a);
    WholeStep(s, b);
  }

  lemma Starts(d: string, rest: string)
    requires d != ""
    ensures Find(d + rest, d) == 0
  {
    assert (d + rest)[0..|d|] == d;
    FindIs(d + rest, d, 0);
  }

  /** What comes behind the closing delimiter does not matter either. */
  lemma EpilogueIgnored(s: State, body: string, epilogue: string)
    requires Whole(s, body).Halted?
    ensures Whole(s, body + epilogue) == Whole(s, body)
  {
    ParserCoherent();
    hide Step, FitsLine;
    RunSplit(Parser(), s, body, epilogue);
  }

  /** A written body inside a preamble and an epilogue is read as the same parts. */
  lemma SurroundedRoundTrip(boundary: string, items: seq<MultipartWriter.Item>, preamble: string, epilogue: string)
    requires items != [] && '\r' !in boundary
    requires MultipartWriter.AllWellNamed(items) && MultipartWriter.AllClean(boundary, items)
    requires Find(preamble + (DASH + boundary + CRLF), DASH + boundary + CRLF) == |preamble|
    ensures MultipartWriter.Finishes(Whole(MultipartWriter.Fresh(boundary),
                                           preamble + (MultipartWriter.Written(boundary, items) + epilogue)),
                                     true, MultipartWriter.PartsOf(items))
  {
    hide Whole, FindFrom, MultipartWriter.AllClean, MultipartWriter.AllWellNamed, MultipartWriter.PartsOf,
         MultipartWriter.Written;
    var s, body, d := MultipartWriter.Fresh(boundary), MultipartWriter.Written(boundary, items), DASH + boundary + CRLF;
    MultipartWriter.CleanRoundTrips(boundary, items);
    EpilogueIgnored(s, body, epilogue);
    var rest := WrittenOpens(boundary, items);
    PreambleIgnored(s, preamble, rest + epilogue);
    assert body + epilogue == d + (rest + epilogue);
    assert preamble + (body + epilogue) == preamble + d + (rest + epilogue);
  }

  lemma WrittenOpens(boundary: string, items: seq<MultipartWriter.Item>) returns (rest: string)
    requires items != []
    ensures MultipartWriter.Written(boundary, items) == DASH + boundary + CRLF + rest
  {
    hide MultipartWriter.Written, MultipartWriter.AfterTail, MultipartWriter.Headed;
    MultipartWriter.WrittenIs(boundary, items);
    MultipartWriter.AfterTailUnfolds(boundary, items);
    rest := MultipartWriter.Headed(boundary, items[0], MultipartWriter.AfterTail(boundary, items[1..], DASH));
    assert DASH + boundary + (CRLF + rest) == DASH + boundary + CRLF + rest;
  }
}
