/** The streaming multipart parser (MultipartStreamParser) and the reader that drives it
    (MultipartStreamReader): what one round of the loop does, and that packets do not matter. */
module Multipart {
  import opened Bytes
  import opened Incremental

  const DASH: string := "--"
  const KEY_TYPE: string := "content-type"
  const KEY_DISPOSITION: string := "content-disposition"
  const HEADER_LIMIT: nat := 60 * 1024

  datatype Header = Header(name: string, filename: string, contentType: string)

  const NO_HEADER: Header := Header("", "", "")

  /** A part as the callbacks deliver it, data pieces joined; closed by the zero-length callback. */
  datatype Part = Part(header: Header, data: string, closed: bool)

  datatype Status = ExpectFirstBoundary | ExpectNewEntry | ExpectHeader | ExpectBody | ExpectEndOrNewEntry

  datatype State = State(boundary: string, status: Status, header: Header, valid: bool, finished: bool,
                         parts: seq<Part>)
  {
    function DashBoundaryCrlf(): string { DASH + boundary + CRLF }
    function CrlfDashBoundary(): string { CRLF + DASH + boundary }
    predicate Open() { valid && !finished }
  }

  // ----- the callbacks -----

  /** headerCb, or dataCb with the bytes it was given. */
  datatype Event = OnHeader(header: Header) | OnData(data: string)

  function AddData(parts: seq<Part>, d: string): seq<Part> {
    if parts == [] then []
    else
      var last := parts[|parts| - 1];
      parts[..|parts| - 1] + [last.(data := last.data + d, closed := last.closed || d == "")]
  }

  function Deliver(parts: seq<Part>, e: Event): seq<Part> {
    match e
    case OnHeader(h) => parts + [Part(h, "", false)]
    case OnData(d) => AddData(parts, d)
  }

  function Delivered(events: seq<Event>): seq<Part> {
    if events == [] then [] else Deliver(Delivered(events[..|events| - 1]), events[|events| - 1])
  }

  // ----- header lines -----

  /** utils::parseLine: name before the first colon, value after it and after one blank. */
  function ParseLine(line: string): (string, string) {
    var colon := Find(line, ":");
    if colon < 0 then ("", "")
    else if colon + 1 < |line| && line[colon + 1] == ' ' then (line[..colon], line[colon + 2..])
    else (line[..colon], line[colon + 1..])
  }

  /** The value of `name=` or `filename=` that starts at `from`, quoted or up to a semicolon:
      its start and its end, -1 when no end is found. */
  function Quoted(v: string, from: nat): (r: (nat, int))
    requires from <= |v|
    ensures from <= r.0 <= |v| && (r.1 == -1 || r.0 <= r.1 < |v|)
  {
    if from < |v| && v[from] == '"' then (from + 1, FindFrom(v, "\"", from + 1))
    else (from, FindFrom(v, ";", from))
  }

  /** The header after one more line, None for a bad line. */
  function HeaderLine(h: Header, line: string): Option<Header> {
    var (key, value) := ParseLine(line);
    if key == "" || value == "" then None
    else if StartsWithIgnoreCase(key, KEY_TYPE) then Some(h.(contentType := value))
    else if StartsWithIgnoreCase(key, KEY_DISPOSITION) then Disposition(h, value)
    else Some(h)
  }

  function Disposition(h: Header, value: string): Option<Header> {
    var namePos := Find(value, "name=");
    if namePos < 0 then None
    else
      var (nameStart, nameEnd) := Quoted(value, namePos + 5);
      if nameEnd < 0 then None
      else
        var h' := h.(name := value[nameStart..nameEnd]);
        var filePos := FindFrom(value, "filename=", nameEnd);
        if filePos < 0 then Some(h')
        else
          var (fileStart, fileEnd) := Quoted(value, filePos + 9);
          Some(h'.(filename := if fileEnd < 0 then value[fileStart..] else value[fileStart..fileEnd]))
  }

  // ----- one round of the loop -----

  function Step(s: State, b: string): Outcome<State> {
    if b == "" then Pause(s, b)
    else
      match s.status
      case ExpectFirstBoundary => FirstBoundary(s, s.DashBoundaryCrlf(), b)
      case ExpectNewEntry => Advance(s.(header := NO_HEADER, status := ExpectHeader), b)
      case ExpectHeader => HeaderRound(s, b)
      case ExpectBody => BodyRound(s, s.CrlfDashBoundary(), b)
      case ExpectEndOrNewEntry => EndRound(s, b)
  }

  function FirstBoundary(s: State, d: string, b: string): Outcome<State> {
    var pos := Find(b, d);
    if |b| < |d| then Pause(s, b)
    else if pos < 0 then Pause(s, b[|b| - |d|..])
    else Advance(s.(status := ExpectNewEntry), b[pos + |d|..])
  }

  function HeaderRound(s: State, b: string): Outcome<State> {
    var pos := Find(b, CRLF);
    if pos < 0 then
      if |b| > HEADER_LIMIT then Over(s.(valid := false)) else Pause(s, b)
    else if pos == 0 then
      Advance(s.(status := ExpectBody, parts := Deliver(s.parts, OnHeader(s.header))), b[2..])
    else
      match HeaderLine(s.header, b[..pos])
      case None => Halt(s.(valid := false))
      case Some(h) => Advance(s.(header := h), b[pos + 2..])
  }

  function BodyRound(s: State, d: string, b: string): Outcome<State> {
    var pos := Find(b, d);
    if |b| < |d| then Pause(s, b)
    else if pos < 0 then
      var len := |b| - |d|;
      Pause(if len > 0 then s.(parts := AddData(s.parts, b[..len])) else s, b[len..])
    else
      var parts := AddData(AddData(s.parts, b[..pos]), "");
      Advance(s.(parts := parts, status := ExpectEndOrNewEntry), b[pos + |d|..])
  }

  function EndRound(s: State, b: string): Outcome<State> {
    if |b| < 2 then Pause(s, b)
    else if StartsWith(b, CRLF) then Advance(s.(status := ExpectNewEntry), b[2..])
    else if StartsWith(b, DASH) then Halt(s.(finished := true))
    else Halt(s.(valid := false))
  }

  function Rank(s: State): nat { if s.status.ExpectNewEntry? then 1 else 0 }

  /** The line this round consumes, with the \r of its end, would not have passed the limit. */
  predicate FitsLine(s: State, b: string) {
    s.status.ExpectHeader? ==> Find(b, CRLF) < 0 || Find(b, CRLF) + 1 <= HEADER_LIMIT
  }

  function Parser(): Machine<State> { Machine(Step, Rank, FitsLine) }

  // ----- packets do not matter -----

  lemma AddDataJoins(parts: seq<Part>, d: string, e: string)
    requires d != "" && e != ""
    ensures AddData(AddData(parts, d), e) == AddData(parts, d + e)
  {
    if parts != [] {
      var last := parts[|parts| - 1];
      var ps := AddData(parts, d);
      assert ps[..|ps| - 1] == parts[..|parts| - 1];
      assert (last.data + d) + e == last.data + (d + e);
    }
  }

  /** Keeping only the last |d| bytes of a buffer without the delimiter loses nothing. */
  lemma DropCoherent(b: string, x: string, d: string)
    requires |b| >= |d| && Find(b, d) == -1
    ensures var k, f := |b| - |d|, Find(b + x, d);
            var r := b[k..] + x;
            if f < 0 then
              && Find(r, d) == -1
              && (b + x)[..|b + x| - |d|] == b[..k] + r[..|r| - |d|]
              && (b + x)[|b + x| - |d|..] == r[|r| - |d|..]
            else
              && k < f && Find(r, d) == f - k
              && (b + x)[..f] == b[..k] + r[..f - k]
              && (b + x)[f + |d|..] == r[f - k + |d|..]
  {
    var k := |b| - |d|;
    FindAfterDrop(b, x, d, k);
    assert b + x == b[..k] + (b[k..] + x);
  }

  /** A delimiter found stays found, with the later bytes behind it. */
  lemma FoundCoherent(b: string, x: string, d: string)
    requires Find(b, d) >= 0
    ensures Find(b + x, d) == Find(b, d)
    ensures (b + x)[..Find(b, d)] == b[..Find(b, d)]
    ensures (b + x)[Find(b, d) + |d|..] == b[Find(b, d) + |d|..] + x
  {
    FindExtend(b, x, d);
  }

  lemma BoundaryPause(s: State, d: string, b: string, x: string)
    requires |b| >= |d| && Find(b, d) == -1
    ensures FirstBoundary(s, d, b[|b| - |d|..] + x) == FirstBoundary(s, d, b + x)
  {
    DropCoherent(b, x, d);
  }

  lemma BodyPauseFound(s: State, d: string, b: string, x: string)
    requires |b| > |d| && Find(b, d) == -1 && Find(b + x, d) >= 0
    ensures var k := |b| - |d|;
            BodyRound(s.(parts := AddData(s.parts, b[..k])), d, b[k..] + x) == BodyRound(s, d, b + x)
  {
    var k, f := |b| - |d|, Find(b + x, d);
    var r := b[k..] + x;
    DropCoherent(b, x, d);
    hide Find;
    AddDataJoins(s.parts, b[..k], r[..f - k]);
    hide AddData;
  }

  lemma BodyPauseAgain(s: State, d: string, b: string, x: string)
    requires |b| > |d| && Find(b, d) == -1 && Find(b + x, d) < 0
    ensures var k := |b| - |d|;
            BodyRound(s.(parts := AddData(s.parts, b[..k])), d, b[k..] + x) == BodyRound(s, d, b + x)
  {
    var k := |b| - |d|;
    var r := b[k..] + x;
    DropCoherent(b, x, d);
    if x == "" {
      assert r[..|r| - |d|] == "";
      assert b + x == b && r == b[k..] && r[0..] == r;
    } else {
      AddDataJoins(s.parts, b[..k], r[..|r| - |d|]);
    }
  }

  lemma HeaderPause(s: State, b: string, x: string)
    requires s.status.ExpectHeader? && |b| > HEADER_LIMIT && Find(b, CRLF) < 0 && FitsLine(s, b + x)
    ensures HeaderRound(s, b + x) == Over(s.(valid := false))
  {
    var f := Find(b + x, CRLF);
    if f >= 0 {
      assert f + 2 <= |b|;
      AtPrefix(b, x, CRLF, f);
      assert false;
    }
  }

  lemma BoundaryStable(s: State, b: string, x: string)
    requires s.status.ExpectFirstBoundary?
    ensures Stable(Parser(), s, b, x)
  {
    var d := s.DashBoundaryCrlf();
    if b != "" && |b| >= |d| {
      assert Parser().step(s, b + x) == FirstBoundary(s, d, b + x);
      if Find(b, d) < 0 {
        BoundaryStaysOpen(s, b, x);
      } else {
        FoundCoherent(b, x, d);
      }
    }
  }

  lemma BoundaryStaysOpen(s: State, b: string, x: string)
    requires s.status.ExpectFirstBoundary? && b != "" && |b| >= |s.DashBoundaryCrlf()|
    requires Find(b, s.DashBoundaryCrlf()) < 0
    ensures Stable(Parser(), s, b, x)
  {
    var d := s.DashBoundaryCrlf();
    var r := b[|b| - |d|..];
    BoundaryPause(s, d, b, x);
    assert Parser().step(s, b) == Pause(s, r);
    assert Step(s, r + x) == FirstBoundary(s, d, r + x);
    assert Step(s, b + x) == FirstBoundary(s, d, b + x);
  }

  lemma HeaderStable(s: State, b: string, x: string)
    requires s.status.ExpectHeader?
    ensures Stable(Parser(), s, b, x)
  {
    if Find(b, CRLF) >= 0 {
      FoundCoherent(b, x, CRLF);
    } else if |b| > HEADER_LIMIT && FitsLine(s, b + x) {
      HeaderPause(s, b, x);
    }
  }

  lemma BodyStable(s: State, b: string, x: string)
    requires s.status.ExpectBody?
    ensures Stable(Parser(), s, b, x)
  {
    var d := s.CrlfDashBoundary();
    if b != "" && |b| >= |d| {
      if Find(b, d) >= 0 {
        FoundCoherent(b, x, d);
      } else if |b| > |d| {
        if Find(b + x, d) < 0 {
          BodyPauseAgain(s, d, b, x);
        } else {
          BodyPauseFound(s, d, b, x);
        }
      } else {
        assert b[0..] == b;
      }
    }
  }

  lemma EndStable(s: State, b: string, x: string)
    requires s.status.ExpectEndOrNewEntry? || s.status.ExpectNewEntry?
    ensures Stable(Parser(), s, b, x)
  {
    if |b| >= 2 {
      assert (b + x)[..2] == b[..2] && (b + x)[2..] == b[2..] + x;
    }
  }

  lemma BoundaryLocal(s: State, b: string, n: nat)
    requires 0 < n <= |b| && s.status.ExpectFirstBoundary?
    ensures Local(Parser(), s, b, n)
  {
    FoundLocal(b, s.DashBoundaryCrlf(), n);
  }

  lemma HeaderLocal(s: State, b: string, n: nat)
    requires 0 < n <= |b| && s.status.ExpectHeader?
    ensures Local(Parser(), s, b, n)
  {
    FoundLocal(b, CRLF, n);
  }

  lemma BodyLocal(s: State, b: string, n: nat)
    requires 0 < n <= |b| && s.status.ExpectBody?
    ensures Local(Parser(), s, b, n)
  {
    FoundLocal(b, s.CrlfDashBoundary(), n);
  }

  lemma StepLocal(s: State, b: string, n: nat)
    requires 0 < n <= |b|
    ensures Local(Parser(), s, b, n)
  {
    match s.status
    case ExpectFirstBoundary => BoundaryLocal(s, b, n);
    case ExpectHeader => HeaderLocal(s, b, n);
    case ExpectBody => BodyLocal(s, b, n);
    case _ =>
  }

  lemma FoundLocal(b: string, d: string, n: nat)
    requires n <= |b|
    ensures var f := Find(b, d);
            0 <= f && f + |d| <= n ==>
              Find(b[..n], d) == f && b[..n][..f] == b[..f] && b[..n][f + |d|..] == b[f + |d|..n]
  {
    if 0 <= Find(b, d) && Find(b, d) + |d| <= n {
      FindCut(b, d, n);
    }
  }

  lemma StepExposed(s: State, b: string)
    ensures Exposed(Parser(), s, b)
  {
    if !FitsLine(s, b) {
      var k := Find(b, CRLF) + 1;
      FindShort(b, CRLF, k);
      assert HeaderRound(s, b[..k]).Over?;
      assert Parser().step(s, b[..k]).Over?;
    }
  }

  lemma ParserCoherent()
    ensures Coherent(Parser())
  {
    forall s: State, b: string, x: string
      ensures Stable(Parser(), s, b, x)
    {
      StepStable(s, b, x);
    }
    forall s: State, b: string, n: nat | 0 < n <= |b|
      ensures Local(Parser(), s, b, n)
    {
      StepLocal(s, b, n);
    }
    forall s: State, b: string
      ensures Exposed(Parser(), s, b)
    {
      StepExposed(s, b);
    }
  }

  lemma StepStable(s: State, b: string, x: string)
    ensures Stable(Parser(), s, b, x)
  {
    match s.status
    case ExpectFirstBoundary => BoundaryStable(s, b, x);
    case ExpectHeader => HeaderStable(s, b, x);
    case ExpectBody => BodyStable(s, b, x);
    case _ => EndStable(s, b, x);
  }
}
