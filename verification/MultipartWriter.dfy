/** The client's multipart writer (HttpRequestImpl::appendToBuffer) and its round trip with the stream parser. */
module MultipartWriter {
  import opened Bytes
  import opened Incremental
  import opened Multipart
  import opened MultipartReader

  const QUOTE: string := "\""

  /** A form parameter, or an uploaded file with its bytes (from memory or read from its path). */
  datatype Item =
    | Param(name: string, value: string)
    | File(name: string, fileName: string, contentType: Option<string>, value: string)

  /** The content-disposition line. */
  function DispositionLine(item: Item): string {
    "content-disposition: form-data; name=\"" + item.name + QUOTE +
    (if item.File? then "; filename=\"" + item.fileName + QUOTE else "")
  }

  function HeaderLines(item: Item): string {
    DispositionLine(item) +
    (if item.File? && item.contentType.Some? then CRLF + "content-type: " + item.contentType.value else "")
  }

  function Section(boundary: string, item: Item): string {
    DASH + boundary + CRLF + HeaderLines(item) + CRLF + CRLF + item.value + CRLF
  }

  function Sections(boundary: string, items: seq<Item>): string {
    if items == [] then "" else Sections(boundary, items[..|items| - 1]) + Section(boundary, items[|items| - 1])
  }

  /** The whole body. */
  function Written(boundary: string, items: seq<Item>): string {
    Sections(boundary, items) + DASH + boundary + DASH
  }

  /** The two loops of appendToBuffer: parameters first, then files. */
  method AppendMultipart(boundary: string, parameters: seq<Item>, files: seq<Item>) returns (content: string)
    requires (forall p | p in parameters :: p.Param?) && (forall f | f in files :: f.File?)
    ensures content == Written(boundary, parameters + files)
  {
    content := AppendParameters(boundary, parameters);
    content := AppendFiles(boundary, parameters, files, content);
    content := content + DASH;
    content := content + boundary;
    content := content + DASH;
  }

  method AppendParameters(boundary: string, parameters: seq<Item>) returns (content: string)
    requires forall p | p in parameters :: p.Param?
    ensures content == Sections(boundary, parameters)
  {
    content := "";
    for i := 0 to |parameters|
      invariant content == Sections(boundary, parameters[..i])
    {
      var p := parameters[i];
      SectionsSnoc(boundary, parameters, i);
      ParamSection(boundary, p, content);
      content := content + (DASH + boundary + CRLF);
      content := content + ("content-disposition: form-data; name=\"" + p.name + QUOTE + CRLF + CRLF);
      content := content + p.value;
      content := content + CRLF;
    }
    assert parameters[..|parameters|] == parameters;
  }

  method AppendFiles(boundary: string, before: seq<Item>, files: seq<Item>, start: string) returns (content: string)
    requires start == Sections(boundary, before) && forall f | f in files :: f.File?
    ensures content == Sections(boundary, before + files)
  {
    hide Section, HeaderLines, DispositionLine;
    content := start;
    assert before + files[..0] == before;
    for i := 0 to |files|
      invariant content == Sections(boundary, before + files[..i])
    {
      var f := files[i];
      assert before + files[..i + 1] == (before + files[..i]) + [f];
      SectionsAppend(boundary, before + files[..i], f);
      FileSection(boundary, f, content);
      content := content + (DASH + boundary + CRLF);
      content := content + ("content-disposition: form-data; name=\"" + f.name + QUOTE +
                            ("; filename=\"" + f.fileName + QUOTE));
      content := content + (if f.contentType.Some? then CRLF + "content-type: " + f.contentType.value else "");
      content := content + (CRLF + CRLF);
      content := content + f.value;
      content := content + CRLF;
    }
    assert files[..|files|] == files;
  }

  lemma SectionsSnoc(boundary: string, items: seq<Item>, i: nat)
    requires i < |items|
    ensures Sections(boundary, items[..i + 1]) == Sections(boundary, items[..i]) + Section(boundary, items[i])
  {
    assert items[..i + 1][..i] == items[..i];
  }

  lemma SectionsAppend(boundary: string, items: seq<Item>, item: Item)
    ensures Sections(boundary, items + [item]) == Sections(boundary, items) + Section(boundary, item)
  {
    assert (items + [item])[..|items|] == items;
  }

  lemma ParamSection(boundary: string, p: Item, c: string)
    requires p.Param?
    ensures c + (DASH + boundary + CRLF) + ("content-disposition: form-data; name=\"" + p.name + QUOTE + CRLF + CRLF)
            + p.value + CRLF == c + Section(boundary, p)
  {
    var open := DASH + boundary + CRLF;
    var disposition := "content-disposition: form-data; name=\"" + p.name + QUOTE;
    assert DispositionLine(p) == disposition && HeaderLines(p) == disposition;
  }

  lemma FileSection(boundary: string, f: Item, c: string)
    requires f.File?
    ensures c + (DASH + boundary + CRLF)
            + ("content-disposition: form-data; name=\"" + f.name + QUOTE + ("; filename=\"" + f.fileName + QUOTE))
            + (if f.contentType.Some? then CRLF + "content-type: " + f.contentType.value else "")
            + (CRLF + CRLF) + f.value + CRLF == c + Section(boundary, f)
  {
    assert HeaderLines(f) ==
           "content-disposition: form-data; name=\"" + f.name + QUOTE + ("; filename=\"" + f.fileName + QUOTE)
           + (if f.contentType.Some? then CRLF + "content-type: " + f.contentType.value else "");
  }

  // ----- what a reader should see -----

  function PartOf(item: Item): Part {
    Part(Header(item.name,
                if item.File? then item.fileName else "",
                if item.File? && item.contentType.Some? then item.contentType.value else ""),
         item.value, true)
  }

  function PartsOf(items: seq<Item>): seq<Part> {
    if items == [] then [] else [PartOf(items[0])] + PartsOf(items[1..])
  }

  /** A name or file name that a quoted header value can carry. */
  predicate Quotable(s: string) {
    '"' !in s && OneLine(s)
  }

  predicate WellNamed(item: Item) {
    && Quotable(item.name)
    && (item.File? ==> Quotable(item.fileName) &&
                       (item.contentType.Some? ==> item.contentType.value != "" && OneLine(item.contentType.value)))
  }

  /** The body does not contain the delimiter. */
  predicate CleanBody(boundary: string, item: Item) {
    Find(item.value, CRLF + DASH + boundary) < 0
  }

  predicate AllWellNamed(items: seq<Item>) {
    forall k | 0 <= k < |items| :: WellNamed(items[k])
  }

  predicate AllClean(boundary: string, items: seq<Item>) {
    forall k | 0 <= k < |items| :: CleanBody(boundary, items[k])
  }

  // ----- searching the written text -----

  /** A body followed by the delimiter is cut at its end, provided the delimiter is not inside it. */
  lemma BodyFound(body: string, boundary: string, rest: string)
    requires '\r' !in boundary && Find(body, CRLF + DASH + boundary) < 0
    ensures Find(body + (CRLF + DASH + boundary) + rest, CRLF + DASH + boundary) == |body|
  {
    var d := CRLF + DASH + boundary;
    var all := body + d + rest;
    assert all[|body|..|body| + |d|] == d;
    assert all[|body|] == d[0] == '\r';
    assert forall j | 0 < j < |d| :: d[j] != '\r';
    forall i | 0 <= i < |body|
      ensures !At(all, d, i)
    {
      if i + |d| <= |body| {
        assert body[i..i + |d|] == all[i..i + |d|];
        assert !At(body, d, i);
      } else {
        var j := |body| - i;
        assert all[i + j] == '\r' && d[j] != '\r';
        assert all[i..i + |d|][j] == all[i + j];
      }
    }
    FindIs(all, d, |body|);
  }

  // ----- reading back what was written -----

  /** A section from its header lines on, followed by the next delimiter and `rest`. */
  function Headed(boundary: string, item: Item, rest: string): string {
    HeaderLines(item) + CRLF + CRLF + (item.value + (CRLF + DASH + boundary) + rest)
  }

  lemma {:induction false} WrittenAfter(boundary: string, items: seq<Item>, tail: string)
    ensures Sections(boundary, items) + (DASH + boundary) + tail == (DASH + boundary) + AfterTail(boundary, items, tail)
    decreases |items|
  {
    var d := DASH + boundary;
    if items == [] {
      assert "" + d == d;
    } else {
      var init, last := items[..|items| - 1], items[|items| - 1];
      var sect := CRLF + Headed(boundary, last, tail);
      assert CRLF + DASH + boundary == CRLF + d;
      Rearrange(Sections(boundary, init), d, HeaderLines(last), last.value, tail);
      assert Sections(boundary, items) + d + tail == Sections(boundary, init) + d + sect;
      WrittenAfter(boundary, init, sect);
      AfterTailSnoc(boundary, init, last, tail);
      assert init + [last] == items;
    }
  }

  lemma Rearrange(c: string, d: string, h: string, v: string, t: string)
    ensures (c + (d + CRLF + h + CRLF + CRLF + v + CRLF)) + d + t ==
            c + d + (CRLF + (h + CRLF + CRLF + (v + (CRLF + d) + t)))
  {
  }

  /** After, with `tail` in place of the closing dashes. */
  function AfterTail(boundary: string, items: seq<Item>, tail: string): string {
    if items == [] then tail
    else CRLF + Headed(boundary, items[0], AfterTail(boundary, items[1..], tail))
  }

  lemma {:induction false} AfterTailSnoc(boundary: string, items: seq<Item>, last: Item, tail: string)
    ensures AfterTail(boundary, items + [last], tail) == AfterTail(boundary, items, CRLF + Headed(boundary, last, tail))
    decreases |items|
  {
    var all := items + [last];
    if items == [] {
      assert all[1..] == [];
    } else {
      assert all[1..] == items[1..] + [last] && all[0] == items[0];
      AfterTailSnoc(boundary, items[1..], last, tail);
    }
  }

  // ----- the parser on a written header -----

  lemma DispositionSplits(value: string)
    requires value != ""
    ensures ParseLine("content-disposition: " + value) == ("content-disposition", value)
  {
    var key := "content-disposition";
    var line := "content-disposition: " + value;
    assert line == key + ": " + value;
    assert line[19..20] == ":";
    forall i | 0 <= i < 19
      ensures !At(line, ":", i)
    {
      assert line[i..i + 1] == [key[i]] && key[i] != ':';
    }
    FindIs(line, ":", 19);
    assert line[20] == ' ' && line[21..] == value && line[..19] == key;
  }

  lemma TypeSplits(value: string)
    requires value != ""
    ensures ParseLine("content-type: " + value) == ("content-type", value)
  {
    var key := "content-type";
    var line := "content-type: " + value;
    assert line == key + ": " + value;
    assert line[12..13] == ":";
    forall i | 0 <= i < 12
      ensures !At(line, ":", i)
    {
      assert line[i..i + 1] == [key[i]] && key[i] != ':';
    }
    FindIs(line, ":", 12);
    assert line[13] == ' ' && line[14..] == value && line[..12] == key;
  }

  lemma TypeLine(h: Header, value: string)
    requires value != ""
    ensures HeaderLine(h, "content-type: " + value) == Some(h.(contentType := value))
  {
    TypeSplits(value);
    StartsWithItself("content-type");
  }

  /** The text behind "content-disposition: ". */
  function DispositionValue(item: Item): string {
    "form-data; name=\"" + item.name + QUOTE +
    (if item.File? then "; filename=\"" + item.fileName + QUOTE else "")
  }

  lemma QuotedFound(v: string, before: string, name: string, rest: string)
    requires v == before + name + QUOTE + rest && '"' !in name
    ensures FindFrom(v, QUOTE, |before|) == |before| + |name|
    ensures v[|before|..|before| + |name|] == name
  {
    var k := |before| + |name|;
    assert v[k..k + 1] == QUOTE;
    forall i | |before| <= i < k
      ensures !At(v, QUOTE, i)
    {
      assert v[i..i + 1] == [name[i - |before|]];
    }
    FindFromIs(v, QUOTE, |before|, k);
  }

  lemma NameQuoted(v: string, name: string, rest: string)
    requires v == "form-data; name=\"" + name + QUOTE + rest && '"' !in name
    ensures Find(v, "name=") == 11 && Quoted(v, 16) == (17, 17 + |name|) && v[17..17 + |name|] == name
  {
    var head := "form-data; name=\"";
    assert v[11..16] == "name=";
    assert v[16] == head[16] == '"';
    forall i | 0 <= i < 11
      ensures !At(v, "name=", i)
    {
      if i + 5 <= |v| {
        assert v[i..i + 5][0] == head[i] && head[i] != 'n';
      }
    }
    FindIs(v, "name=", 11);
    QuotedFound(v, head, name, rest);
  }

  lemma FileNameFound(v: string, before: string, rest: string)
    requires v == before + "\"; filename=\"" + rest
    ensures FindFrom(v, "filename=", |before|) == |before| + 3 && v[|before| + 12] == '"'
  {
    var mid := "\"; filename=\"";
    var n := |before|;
    assert v[n + 3..n + 12] == "filename=";
    assert mid[0] != 'f' && mid[1] != 'f' && mid[2] != 'f';
    forall i | n <= i < n + 3
      ensures !At(v, "filename=", i)
    {
      if i + 9 <= |v| {
        assert v[i..i + 9][0] == mid[i - n];
        assert "filename="[0] == 'f';
      }
    }
    FindFromIs(v, "filename=", n, n + 3);
  }

  lemma FileNameQuoted(v: string, before: string, fileName: string)
    requires v == before + "\"; filename=\"" + fileName + QUOTE && '"' !in fileName
    ensures FindFrom(v, "filename=", |before|) == |before| + 3
    ensures Quoted(v, |before| + 12) == (|before| + 13, |before| + 13 + |fileName|)
    ensures v[|before| + 13..|before| + 13 + |fileName|] == fileName
  {
    hide FindFrom;
    var mid := "\"; filename=\"";
    assert v == before + mid + (fileName + QUOTE);
    FileNameFound(v, before, fileName + QUOTE);
    assert v == (before + mid) + fileName + QUOTE + "";
    QuotedFound(v, before + mid, fileName, "");
  }

  lemma ParamDisposition(h: Header, item: Item)
    requires item.Param? && '"' !in item.name
    ensures Disposition(h, DispositionValue(item)) == Some(h.(name := item.name))
  {
    var v := DispositionValue(item);
    assert v == "form-data; name=\"" + item.name + QUOTE + "";
    NameQuoted(v, item.name, "");
    assert FindFrom(v, "filename=", 17 + |item.name|) == -1;
  }

  lemma FileDisposition(h: Header, item: Item)
    requires item.File? && '"' !in item.name && '"' !in item.fileName
    ensures Disposition(h, DispositionValue(item)) == Some(h.(name := item.name, filename := item.fileName))
  {
    var v := DispositionValue(item);
    var head := "form-data; name=\"";
    var tail := "; filename=\"" + item.fileName + QUOTE;
    assert v == head + item.name + QUOTE + tail;
    NameQuoted(v, item.name, tail);
    var before := head + item.name;
    assert |before| == 17 + |item.name|;
    assert v == before + "\"; filename=\"" + item.fileName + QUOTE;
    FileNameQuoted(v, before, item.fileName);
  }

  lemma DispositionKeyed(h: Header, value: string)
    requires value != ""
    ensures HeaderLine(h, "content-disposition: " + value) == Disposition(h, value)
  {
    hide Disposition, StartsWithIgnoreCase, LowerAll;
    var key := KEY_DISPOSITION;
    DispositionSplits(value);
    StartsWithItself(key);
    DiffersAt(key, KEY_TYPE, 8);
  }

  lemma DispositionRead(h: Header, item: Item)
    requires WellNamed(item)
    ensures HeaderLine(h, DispositionLine(item)) ==
            Some(h.(name := item.name, filename := if item.File? then item.fileName else h.filename))
  {
    DispositionParts(item);
    hide HeaderLine, Disposition, DispositionLine;
    DispositionKeyed(h, DispositionValue(item));
    if item.File? {
      FileDisposition(h, item);
    } else {
      ParamDisposition(h, item);
    }
  }

  lemma DispositionParts(item: Item)
    ensures DispositionLine(item) == "content-disposition: " + DispositionValue(item) && DispositionValue(item) != ""
  {
  }

  lemma DispositionNoCrlf(item: Item)
    requires WellNamed(item)
    ensures DispositionLine(item) != "" && OneLine(DispositionLine(item))
  {
    LiteralsPlain();
    var a := HEAD + item.name;
    if item.File? {
      assert DispositionLine(item) == a + MID + item.fileName + QUOTE;
    } else {
      assert DispositionLine(item) == a + QUOTE;
    }
    hide DispositionLine, OneLine;
    OneLineJoin(HEAD, item.name);
    if item.File? {
      OneLineJoin(a, MID);
      OneLineJoin(a + MID, item.fileName);
      OneLineJoin(a + MID + item.fileName, QUOTE);
    } else {
      OneLineJoin(a, QUOTE);
    }
  }

  const HEAD: string := "content-disposition: form-data; name=\""
  const MID: string := "\"; filename=\""

  lemma LiteralsPlain()
    ensures OneLine(HEAD) && HEAD[|HEAD| - 1] != '\r' && OneLine(MID) && MID[0] != '\n' && MID[|MID| - 1] != '\r'
    ensures OneLine(QUOTE) && QUOTE[0] != '\n'
  {
    assert '\r' !in HEAD && '\r' !in MID && '\r' !in QUOTE;
  }

  // ----- header lines within the limit -----

  /** The lines of the section's header, with the \r behind them, within 60 KiB. */
  predicate ShortHeader(item: Item) {
    |DispositionLine(item)| + 1 <= 61440 &&
    (item.File? && item.contentType.Some? ==> |"content-type: " + item.contentType.value| + 1 <= 61440)
  }

  predicate AllShort(items: seq<Item>) {
    forall k | 0 <= k < |items| :: ShortHeader(items[k])
  }

  /** Reading b from s comes to reading r from t, and b fits the limit exactly when r does and `short` holds. */
  ghost predicate Reads(short: bool, s: State, b: string, t: State, r: string) {
    Whole(s, b) == Whole(t, r) && (Fit(s, b) <==> short && Fit(t, r))
  }

  lemma ReadsStep(s: State, b: string)
    requires Step(s, b).Advance?
    ensures Reads(FitsLine(s, b), s, b, Step(s, b).next, Step(s, b).rest)
  {
    hide Step, FitsLine, Whole, Fit;
    WholeStep(s, b);
    FitStep(s, b);
  }

  // ----- the round trip -----

  /** One header line is consumed. */
  lemma WholeLine(s: State, line: string, rest: string)
    requires s.status.ExpectHeader? && line != "" && OneLine(line) && HeaderLine(s.header, line).Some?
    ensures Reads(|line| + 1 <= HEADER_LIMIT, s, line + CRLF + rest,
                  s.(header := HeaderLine(s.header, line).value), rest)
  {
    hide HeaderLine;
    var b := line + CRLF + rest;
    LineFound(line, rest);
    assert b[..|line|] == line && b[|line| + 2..] == rest;
    ReadsStep(s, b);
  }

  /** The empty line opens the part. */
  lemma WholeEmptyLine(s: State, rest: string)
    requires s.status.ExpectHeader?
    ensures Reads(true, s, CRLF + rest,
                  s.(status := ExpectBody, parts := s.parts + [Part(s.header, "", false)]), rest)
  {
    LineFound("", rest);
    assert "" + CRLF + rest == CRLF + rest;
    assert (CRLF + rest)[2..] == rest;
    ReadsStep(s, CRLF + rest);
  }

  /** All header lines of a section are read into the part's header. */
  lemma WholeHeaders(s: State, item: Item, rest: string)
    requires s.status.ExpectHeader? && s.header == NO_HEADER && WellNamed(item)
    ensures Reads(ShortHeader(item), s, HeaderLines(item) + CRLF + CRLF + rest,
                  s.(header := PartOf(item).header, status := ExpectBody,
                     parts := s.parts + [Part(PartOf(item).header, "", false)]), rest)
  {
    hide HeaderLine, DispositionLine, Whole, Fit;
    var line := DispositionLine(item);
    DispositionRead(s.header, item);
    DispositionNoCrlf(item);
    var h := NO_HEADER.(name := item.name, filename := if item.File? then item.fileName else "");
    if item.File? && item.contentType.Some? {
      var typeLine := "content-type: " + item.contentType.value;
      TypeLine(h, item.contentType.value);
      OneLineJoin("content-type: ", item.contentType.value);
      assert HeaderLines(item) + CRLF + CRLF + rest == line + CRLF + (typeLine + CRLF + (CRLF + rest)) by {
        assert HeaderLines(item) == line + (CRLF + typeLine);
      }
      WholeLine(s, line, typeLine + CRLF + (CRLF + rest));
      WholeLine(s.(header := h), typeLine, CRLF + rest);
      WholeEmptyLine(s.(header := PartOf(item).header), rest);
    } else {
      assert HeaderLines(item) + CRLF + CRLF + rest == line + CRLF + (CRLF + rest);
      WholeLine(s, line, CRLF + rest);
      WholeEmptyLine(s.(header := PartOf(item).header), rest);
    }
  }

  lemma WholeBody(s: State, body: string, before: seq<Part>, h: Header, rest: string)
    requires s.status.ExpectBody? && s.parts == before + [Part(h, "", false)]
    requires '\r' !in s.boundary && Find(body, s.CrlfDashBoundary()) < 0
    ensures Reads(true, s, body + s.CrlfDashBoundary() + rest,
                  s.(status := ExpectEndOrNewEntry, parts := before + [Part(h, body, true)]), rest)
  {
    var d := s.CrlfDashBoundary();
    var b := body + d + rest;
    BodyFound(body, s.boundary, rest);
    assert b[..|body|] == body && b[|body| + |d|..] == rest;
    OnePiece(before, h, body);
    ReadsStep(s, b);
  }

  lemma OnePiece(before: seq<Part>, h: Header, body: string)
    ensures AddData(AddData(before + [Part(h, "", false)], body), "") == before + [Part(h, body, true)]
  {
    var ps := before + [Part(h, "", false)];
    assert ps[..|ps| - 1] == before && "" + body == body;
    var qs := AddData(ps, body);
    assert qs[..|qs| - 1] == before && body + "" == body;
  }

  /** A new section is entered: CRLF after the boundary, then an empty header. */
  lemma WholeEnter(s: State, rest: string)
    requires s.status.ExpectEndOrNewEntry? && rest != ""
    ensures Reads(true, s, CRLF + rest,
                  s.(header := NO_HEADER, status := ExpectHeader), rest)
  {
    assert (CRLF + rest)[..2] == CRLF && (CRLF + rest)[2..] == rest;
    ReadsStep(s, CRLF + rest);
    ReadsStep(s.(status := ExpectNewEntry), rest);
  }

  /** One whole section. */
  lemma WholeSection(s: State, item: Item, rest: string)
    requires s.status.ExpectEndOrNewEntry? && WellNamed(item)
    requires '\r' !in s.boundary && CleanBody(s.boundary, item)
    ensures Reads(ShortHeader(item), s, CRLF + Headed(s.boundary, item, rest),
                  s.(header := PartOf(item).header, parts := s.parts + [PartOf(item)]), rest)
  {
    var h := PartOf(item).header;
    var body := item.value + s.CrlfDashBoundary() + rest;
    assert Headed(s.boundary, item, rest) == HeaderLines(item) + CRLF + CRLF + body;
    WholeEnter(s, Headed(s.boundary, item, rest));
    var s1 := s.(header := NO_HEADER, status := ExpectHeader);
    WholeHeaders(s1, item, body);
    var s2 := s1.(header := h, status := ExpectBody, parts := s.parts + [Part(h, "", false)]);
    WholeBody(s2, item.value, s.parts, h, rest);
  }

  /** The parser has seen the closing boundary, with these parts delivered. */
  predicate Finishes(f: Final<State>, valid: bool, parts: seq<Part>) {
    f.Halted? && f.state.finished && f.state.valid == valid && f.state.parts == parts
  }

  lemma WholeClose(s: State)
    requires s.status.ExpectEndOrNewEntry?
    ensures Finishes(Whole(s, DASH), s.valid, s.parts) && Fit(s, DASH)
  {
    assert DASH[..2] == DASH;
    WholeStep(s, DASH);
    FitStep(s, DASH);
  }

  lemma {:induction false} WholeItems(s: State, items: seq<Item>)
    requires s.status.ExpectEndOrNewEntry? && '\r' !in s.boundary
    requires AllWellNamed(items) && AllClean(s.boundary, items)
    ensures Finishes(Whole(s, AfterTail(s.boundary, items, DASH)), s.valid, s.parts + PartsOf(items))
    ensures Fit(s, AfterTail(s.boundary, items, DASH)) <==> AllShort(items)
    decreases |items|
  {
    AllShortNext(items);
    hide Whole, Fit, AllShort, ShortHeader, WellNamed, Headed, CleanBody, AfterTail, PartOf, PartsOf, Finishes;
    AfterTailUnfolds(s.boundary, items);
    PartsOfUnfolds(s.parts, items);
    if items == [] {
      WholeClose(s);
    } else {
      var item, rest := items[0], items[1..];
      WholeSection(s, item, AfterTail(s.boundary, rest, DASH));
      var t := s.(header := PartOf(item).header, parts := s.parts + [PartOf(item)]);
      assert AllWellNamed(rest) && AllClean(t.boundary, rest);
      WholeItems(t, rest);
    }
  }

  lemma AllShortNext(items: seq<Item>)
    ensures AllShort(items) <==> items == [] || (ShortHeader(items[0]) && AllShort(items[1..]))
  {
    hide ShortHeader;
    if items != [] && ShortHeader(items[0]) && AllShort(items[1..]) {
      forall k | 0 <= k < |items|
        ensures ShortHeader(items[k])
      {
        assert k > 0 ==> items[k] == items[1..][k - 1];
      }
    }
  }

  lemma PartsOfUnfolds(parts: seq<Part>, items: seq<Item>)
    ensures parts + PartsOf(items) ==
            if items == [] then parts else (parts + [PartOf(items[0])]) + PartsOf(items[1..])
  {
  }

  lemma AfterTailUnfolds(boundary: string, items: seq<Item>)
    ensures AfterTail(boundary, items, DASH) ==
            if items == [] then DASH else CRLF + Headed(boundary, items[0], AfterTail(boundary, items[1..], DASH))
  {
  }

  /** The parser at the first boundary is the parser behind it. */
  lemma WholeFirst(s: State, rest: string)
    requires s.status.ExpectFirstBoundary? && rest != ""
    ensures Reads(true, s, DASH + s.boundary + (CRLF + rest),
                  s.(status := ExpectEndOrNewEntry), CRLF + rest)
  {
    var d := s.DashBoundaryCrlf();
    var b := DASH + s.boundary + (CRLF + rest);
    assert b == d + rest;
    assert b[0..|d|] == d && b[|d|..] == rest;
    FindIs(b, d, 0);
    ReadsStep(s, b);
    WholeEnter(s.(status := ExpectEndOrNewEntry), rest);
    ReadsStep(s.(status := ExpectNewEntry), rest);
  }

  function Fresh(boundary: string): State {
    State(boundary, ExpectFirstBoundary, NO_HEADER, true, false, [])
  }

  /** Parsing what was written gives back the items, in order, and finishes. */
  ghost predicate RoundTrips(boundary: string, items: seq<Item>) {
    Finishes(Whole(Fresh(boundary), Written(boundary, items)), true, PartsOf(items))
  }

  lemma WrittenIs(boundary: string, items: seq<Item>)
    ensures Written(boundary, items) == DASH + boundary + AfterTail(boundary, items, DASH)
  {
    WrittenAfter(boundary, items, DASH);
    hide Sections, AfterTail;
    assert Written(boundary, items) == Sections(boundary, items) + (DASH + boundary) + DASH;
  }

  lemma CleanRoundTrips(boundary: string, items: seq<Item>)
    requires items != [] && '\r' !in boundary
    requires AllWellNamed(items) && AllClean(boundary, items)
    ensures RoundTrips(boundary, items)
    ensures Fit(Fresh(boundary), Written(boundary, items)) <==> AllShort(items)
  {
    hide Whole, Fit, AllShort, AfterTail, Written;
    EntersFirst(boundary, items);
    WholeItems(Fresh(boundary).(status := ExpectEndOrNewEntry), items);
    assert [] + PartsOf(items) == PartsOf(items);
  }

  // ----- when it fails -----

  /** The parts no later byte can touch. */
  function Kept(s: State): seq<Part> {
    if s.status.ExpectBody? && s.parts != [] then s.parts[..|s.parts| - 1] else s.parts
  }

  lemma KeptByStep(s: State, b: string)
    ensures Kept(s) <= Kept(Step(s, b).next) && Kept(s) <= Step(s, b).next.parts
  {
    hide Find, HeaderLine, StartsWith;
    if s.status.ExpectBody? && b != "" {
      hide AddData;
      var d := s.CrlfDashBoundary();
      var pos := Find(b, d);
      if |b| >= |d| {
        var piece := b[..if pos < 0 then |b| - |d| else pos];
        AddDataKeeps(s.parts, piece);
        AddDataKeeps(AddData(s.parts, piece), "");
      }
    } else {
      hide BodyRound, AddData;
    }
  }

  lemma AddDataKeeps(parts: seq<Part>, d: string)
    ensures |AddData(parts, d)| == |parts|
    ensures parts != [] ==> AddData(parts, d)[..|parts| - 1] == parts[..|parts| - 1]
  {
  }

  lemma {:induction false} KeptByWhole(s: State, b: string)
    ensures Kept(s) <= Whole(s, b).state.parts
    decreases |b|, Rank(s)
  {
    hide Step, Whole;
    WholeStep(s, b);
    KeptByStep(s, b);
    if Step(s, b).Advance? {
      KeptByWhole(Step(s, b).next, Step(s, b).rest);
    }
  }

  /** A body that contains the delimiter is cut at its first occurrence, for good. */
  lemma WholeDirtyBody(s: State, body: string, before: seq<Part>, h: Header, rest: string)
    requires s.status.ExpectBody? && s.parts == before + [Part(h, "", false)]
    requires Find(body, s.CrlfDashBoundary()) >= 0
    ensures before + [Part(h, body[..Find(body, s.CrlfDashBoundary())], true)] <=
            Whole(s, body + s.CrlfDashBoundary() + rest).state.parts
  {
    var d := s.CrlfDashBoundary();
    var b := body + d + rest;
    assert b == body + (d + rest);
    FindExtend(body, d + rest, d);
    var pos := Find(body, d);
    assert b[..pos] == body[..pos];
    var t := s.(status := ExpectEndOrNewEntry, parts := before + [Part(h, body[..pos], true)]);
    DirtyStep(s, body[..pos], before, h, b);
    WholeStep(s, b);
    hide Step, Whole, Find;
    KeptByWhole(t, b[pos + |d|..]);
  }

  /** The round that cuts the body at the delimiter. */
  lemma DirtyStep(s: State, cut: string, before: seq<Part>, h: Header, b: string)
    requires s.status.ExpectBody? && s.parts == before + [Part(h, "", false)]
    requires Find(b, s.CrlfDashBoundary()) == |cut| <= |b| && b[..|cut|] == cut
    ensures Step(s, b) == Advance(s.(status := ExpectEndOrNewEntry, parts := before + [Part(h, cut, true)]),
                                  b[|cut| + |s.CrlfDashBoundary()|..])
  {
    OnePiece(before, h, cut);
    hide Find, AddData;
  }

  lemma WholeDirtySection(s: State, item: Item, rest: string)
    requires s.status.ExpectEndOrNewEntry? && WellNamed(item) && !CleanBody(s.boundary, item)
    ensures var f := Whole(s, CRLF + Headed(s.boundary, item, rest)).state.parts;
            |f| > |s.parts| && f[|s.parts|] != PartOf(item)
  {
    hide Whole, WellNamed, HeaderLines;
    var h := PartOf(item).header;
    var body := item.value + s.CrlfDashBoundary() + rest;
    WholeEnter(s, Headed(s.boundary, item, rest));
    var s1 := s.(header := NO_HEADER, status := ExpectHeader);
    WholeHeaders(s1, item, body);
    var s2 := s1.(header := h, status := ExpectBody, parts := s.parts + [Part(h, "", false)]);
    WholeDirtyBody(s2, item.value, s.parts, h, rest);
    var cut := item.value[..Find(item.value, s.CrlfDashBoundary())];
    assert |cut| < |item.value|;
    assert (s.parts + [Part(h, cut, true)])[|s.parts|] == Part(h, cut, true);
  }

  lemma {:induction false} WholeDirtyItems(s: State, items: seq<Item>, k: nat)
    requires s.status.ExpectEndOrNewEntry? && '\r' !in s.boundary && k < |items|
    requires AllWellNamed(items) && AllClean(s.boundary, items[..k]) && !CleanBody(s.boundary, items[k])
    ensures var f := Whole(s, AfterTail(s.boundary, items, DASH)).state.parts;
            |f| > |s.parts| + k && f[|s.parts| + k] != PartOf(items[k])
    decreases k
  {
    hide Whole, WellNamed, Headed, CleanBody, AfterTail, PartOf, AllWellNamed, AllClean;
    AfterTailUnfolds(s.boundary, items);
    FirstItem(s.boundary, items, k);
    var item, rest := items[0], items[1..];
    var tail := AfterTail(s.boundary, rest, DASH);
    if k == 0 {
      WholeDirtySection(s, item, tail);
    } else {
      WholeSection(s, item, tail);
      var t := s.(header := PartOf(item).header, parts := s.parts + [PartOf(item)]);
      WholeDirtyItems(t, rest, k - 1);
    }
  }

  lemma FirstItem(boundary: string, items: seq<Item>, k: nat)
    requires k < |items| && AllWellNamed(items) && AllClean(boundary, items[..k])
    ensures WellNamed(items[0]) && AllWellNamed(items[1..])
    ensures k > 0 ==> CleanBody(boundary, items[0]) && AllClean(boundary, items[1..][..k - 1]) &&
                      items[1..][k - 1] == items[k]
  {
    hide WellNamed, CleanBody;
    if k > 0 {
      assert items[..k][0] == items[0] && items[1..][..k - 1] == items[..k][1..];
    }
  }

  lemma {:induction false} PartsOfAt(items: seq<Item>, k: nat)
    requires k < |items|
    ensures |PartsOf(items)| == |items| && PartsOf(items)[k] == PartOf(items[k])
  {
    if |items| > 1 {
      PartsOfAt(items[1..], if k > 0 then k - 1 else 0);
    }
  }

  lemma FirstDirty(boundary: string, items: seq<Item>) returns (k: nat)
    requires !AllClean(boundary, items)
    ensures k < |items| && AllClean(boundary, items[..k]) && !CleanBody(boundary, items[k])
  {
    k := 0;
    while CleanBody(boundary, items[k])
      invariant k < |items| && AllClean(boundary, items[..k])
      decreases |items| - k
    {
      assert items[..k + 1] == items[..k] + [items[k]];
      assert items[..|items|] == items;
      k := k + 1;
    }
  }

  lemma NothingNeverFinishes(boundary: string)
    requires '\r' !in boundary
    ensures !RoundTrips(boundary, [])
  {
    var s := Fresh(boundary);
    var b, d := Written(boundary, []), s.DashBoundaryCrlf();
    assert b == DASH + boundary + DASH && |b| == |d|;
    assert d[|d| - 1] == '\n' && b[|b| - 1] == '-';
    assert !At(b, d, 0);
    WholeStep(s, b);
  }

  /** Writing and parsing undo each other exactly when there is something to write and no body contains the
      delimiter, for names a quoted header value can carry. */
  lemma RoundTrip(boundary: string, items: seq<Item>)
    requires '\r' !in boundary && AllWellNamed(items)
    ensures RoundTrips(boundary, items) <==> items != [] && AllClean(boundary, items)
  {
    hide Whole, AfterTail, Written;
    if items == [] {
      NothingNeverFinishes(boundary);
    } else if AllClean(boundary, items) {
      CleanRoundTrips(boundary, items);
    } else {
      var k := FirstDirty(boundary, items);
      WrittenIs(boundary, items);
      EntersFirst(boundary, items);
      WholeDirtyItems(Fresh(boundary).(status := ExpectEndOrNewEntry), items, k);
      PartsOfAt(items, k);
    }
  }

  lemma EntersFirst(boundary: string, items: seq<Item>)
    requires items != []
    ensures Reads(true, Fresh(boundary), Written(boundary, items),
                  Fresh(boundary).(status := ExpectEndOrNewEntry), AfterTail(boundary, items, DASH))
  {
    hide Whole, Fit, Written, Headed;
    WrittenIs(boundary, items);
    AfterTailUnfolds(boundary, items);
    HeadedNonempty(boundary, items[0], AfterTail(boundary, items[1..], DASH));
    WholeFirst(Fresh(boundary), Headed(boundary, items[0], AfterTail(boundary, items[1..], DASH)));
  }

  lemma HeadedNonempty(boundary: string, item: Item, rest: string)
    ensures Headed(boundary, item, rest) != ""
  {
  }

  /** The reader got these items and reported success, once. */
  ghost predicate Received(r: ReaderState, items: seq<Item>) {
    r.parser.parts == PartsOf(items) && r.finishes == [Done]
  }

  /** Under any content type that names the boundary. */
  lemma PartsArrive(contentType: string, boundary: string, items: seq<Item>)
    requires '\r' !in boundary && items != [] && AllWellNamed(items) && AllClean(boundary, items)
    ensures BoundaryOf(contentType) == Some(boundary) ==>
              (AllShort(items) <==>
               forall packets | packets != [] && Concat(packets) == Written(boundary, items) ::
                 Received(ReceiveAll(StartState(contentType), packets), items))
  {
    hide BoundaryOf, Whole, Fit, Written, AllClean, AllWellNamed, AllShort, PartsOf;
    var body := Written(boundary, items);
    CleanRoundTrips(boundary, items);
    if BoundaryOf(contentType) != Some(boundary) {
    } else if AllShort(items) {
      assert Initial(contentType) == Fresh(boundary);
      assert HeadersFit(contentType, body) by { FitIs(contentType, body); }
      forall packets | packets != [] && Concat(packets) == body
        ensures Received(ReceiveAll(StartState(contentType), packets), items)
      {
        assert "" + body == body;
        ReaderFragmentation(contentType, packets);
      }
    } else {
      assert Initial(contentType) == Fresh(boundary);
      FitIs(contentType, body);
      var packets := TooLongIsInvalid(contentType, body);
    }
  }

  /** From the writer's loops to the reader's callbacks over any network: under the content type the client prints, the
      parts sent are the parts received, every header line within 60 KiB being exactly what it takes. */
  lemma SentIsReceived(boundary: string, items: seq<Item>)
    requires '\r' !in boundary && ';' !in boundary && '"' !in boundary
    requires items != [] && AllWellNamed(items) && AllClean(boundary, items)
    ensures AllShort(items) <==>
            (forall packets | packets != [] && Concat(packets) == Written(boundary, items) ::
               Received(ReceiveAll(StartState("multipart/form-data; boundary=" + boundary), packets), items))
  {
    hide BoundaryOf, AllWellNamed, AllClean, AllShort, Written, Received, StartState;
    PrintedBoundary(boundary, "");
    PartsArrive(UPLOAD + boundary, boundary, items);
  }

  lemma FitIs(contentType: string, body: string)
    ensures HeadersFit(contentType, body) <==> Fit(StartState(contentType).parser, body)
  {
  }
}
