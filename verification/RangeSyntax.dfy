/** Which Range headers are accepted, which are malformed and which ask for too much, told from the characters of the
    header alone. */
module RangeSyntax {
  import opened Bytes
  import opened Range

  // ----- what a range asks for -----

  /** Byte k of a content of `length` bytes is asked for. */
  predicate AsksFor(spec: Spec, length: Size, k: nat) {
    && k < length
    && match spec
       case FromTo(a, b) => a <= k <= b
       case From(a) => a <= k
       case Suffix(n) => length <= k + n
  }

  /** Clipping gives exactly the bytes asked for. */
  lemma ClipMeans(spec: Spec, length: Size, k: nat)
    ensures Clip(spec, length).start <= k < Clip(spec, length).end <==> AsksFor(spec, length, k)
  {
  }

  // ----- one range, by its characters -----

  predicate BlanksAt(s: string, i: nat, j: nat) { i <= j && forall k: nat | i <= k < j :: C(s, k) == ' ' }

  predicate DigitsAt(s: string, i: nat, j: nat) { i < j && forall k: nat | i <= k < j :: IsDigit(C(s, k)) }

  lemma BlanksUntil(s: string, i: nat, j: nat)
    requires BlanksAt(s, i, j) && C(s, j) != ' '
    ensures SkipBlanks(s, i) == j
  {
    var e := SkipBlanks(s, i);
    assert !(e < j) && !(j < e);
  }

  lemma DigitsUntil(s: string, i: nat, j: nat)
    requires DigitsAt(s, i, j) && !IsDigit(C(s, j))
    ensures DigitsEnd(s, i) == j
  {
    var e := DigitsEnd(s, i);
    assert !(e < j) && !(j < e);
  }

  /** From position i: blanks, digits for a, blanks, a dash at d. */
  ghost predicate StartAt(s: string, i: nat, a: nat, d: nat) {
    exists p: nat, e: nat :: Number(s, i, p, e, a) && BlanksAt(s, e, d) && C(s, d) == '-'
  }

  /** Blanks from i to p, and digits for n from p to e. */
  predicate Number(s: string, i: nat, p: nat, e: nat, n: nat) {
    BlanksAt(s, i, p) && DigitsAt(s, p, e) && NumberIn(s, p, e) == n
  }

  /** From position q: digits for n, blanks, and the end of the range at `next`. */
  ghost predicate EndAt(s: string, q: nat, n: nat, next: nat) {
    exists f: nat :: Number(s, q, q, f, n) && BlanksAt(s, f, next) && Ends(C(s, next))
  }

  /** The range `spec` is written from position i on and ends at `next`. */
  ghost predicate Written(s: string, i: nat, spec: Spec, next: nat) {
    match spec
    case FromTo(a, b) => exists d: nat, q: nat :: StartAt(s, i, a, d) && BlanksAt(s, d + 1, q) && EndAt(s, q, b, next)
    case From(a) => exists d: nat :: StartAt(s, i, a, d) && BlanksAt(s, d + 1, next) && Ends(C(s, next))
    case Suffix(n) => exists p: nat :: BlanksAt(s, i, p) && C(s, p) == '-' && EndAt(s, p + 1, n, next)
  }

  lemma StartScans(s: string, i: nat, a: nat, d: nat)
    requires StartAt(s, i, a, d)
    ensures var p, e := SkipBlanks(s, i), DigitsEnd(s, SkipBlanks(s, i));
            e > p && NumberIn(s, p, e) == a && SkipBlanks(s, e) == d && C(s, d) == '-' && C(s, p) != '-'
  {
    var p: nat, e: nat :| Number(s, i, p, e, a) && BlanksAt(s, e, d) && C(s, d) == '-';
    assert IsDigit(C(s, p));
    BlanksUntil(s, i, p);
    BlanksUntil(s, e, d);
    assert e < d ==> C(s, e) == ' ';
    DigitsUntil(s, p, e);
  }

  lemma EndScans(s: string, q: nat, n: Size, next: nat, make: Size -> Spec)
    requires EndAt(s, q, n, next)
    ensures LastNumber(s, q, make) == Item(make(n), next) && IsDigit(C(s, q))
  {
    var f: nat :| Number(s, q, q, f, n) && BlanksAt(s, f, next) && Ends(C(s, next));
    assert IsDigit(C(s, q));
    BlanksUntil(s, f, next);
    assert f < next ==> C(s, f) == ' ';
    DigitsUntil(s, q, f);
  }

  lemma WrittenScans(s: string, i: nat, spec: Spec, next: nat)
    requires Written(s, i, spec, next)
    ensures ItemAt(s, i) == Item(spec, next)
  {
    hide LastNumber, NumberIn, SkipBlanks, DigitsEnd, StartAt, EndAt;
    match spec
    case FromTo(a, b) =>
      var d: nat, q: nat :| StartAt(s, i, a, d) && BlanksAt(s, d + 1, q) && EndAt(s, q, b, next);
      StartScans(s, i, a, d);
      EndScans(s, q, b, next, (b: Size) => FromTo(a, b));
      BlanksUntil(s, d + 1, q);
    case From(a) =>
      var d: nat :| StartAt(s, i, a, d) && BlanksAt(s, d + 1, next) && Ends(C(s, next));
      StartScans(s, i, a, d);
      BlanksUntil(s, d + 1, next);
    case Suffix(n) =>
      var p: nat :| BlanksAt(s, i, p) && C(s, p) == '-' && EndAt(s, p + 1, n, next);
      BlanksUntil(s, i, p);
      EndScans(s, p + 1, n, next, (n: Size) => Suffix(n));
  }

  lemma ScansStart(s: string, i: nat)
    requires var p := SkipBlanks(s, i);
             DigitsEnd(s, p) > p && C(s, SkipBlanks(s, DigitsEnd(s, p))) == '-'
    ensures var p := SkipBlanks(s, i); var e := DigitsEnd(s, p);
            StartAt(s, i, NumberIn(s, p, e), SkipBlanks(s, e))
  {
    var p := SkipBlanks(s, i);
    var e := DigitsEnd(s, p);
    assert Number(s, i, p, e, NumberIn(s, p, e)) && BlanksAt(s, e, SkipBlanks(s, e));
  }

  lemma ScansEnd(s: string, q: nat, make: Size -> Spec)
    requires LastNumber(s, q, make).Item?
    ensures var n := NumberIn(s, q, DigitsEnd(s, q));
            n <= SIZE_MAX && LastNumber(s, q, make).spec == make(n) && EndAt(s, q, n, LastNumber(s, q, make).next)
  {
    var f := DigitsEnd(s, q);
    assert BlanksAt(s, q, q) && Number(s, q, q, f, NumberIn(s, q, f)) && BlanksAt(s, f, SkipBlanks(s, f));
  }

  lemma ScansWritten(s: string, i: nat)
    requires ItemAt(s, i).Item?
    ensures Written(s, i, ItemAt(s, i).spec, ItemAt(s, i).next)
  {
    hide LastNumber, NumberIn, StartAt, EndAt;
    var p := SkipBlanks(s, i);
    assert BlanksAt(s, i, p);
    if C(s, p) == '-' {
      ScansEnd(s, p + 1, (n: Size) => Suffix(n));
    } else {
      ScansStart(s, i);
      var d := SkipBlanks(s, DigitsEnd(s, p));
      var q := SkipBlanks(s, d + 1);
      var a := NumberIn(s, p, DigitsEnd(s, p));
      assert BlanksAt(s, d + 1, q);
      if !Ends(C(s, q)) {
        ScansEnd(s, q, (b: Size) => FromTo(a, b));
      }
    }
  }

  /** The scanner finds a range exactly where one is written. */
  lemma ItemIsWritten(s: string, i: nat, spec: Spec, next: nat)
    ensures ItemAt(s, i) == Item(spec, next) <==> Written(s, i, spec, next)
  {
    hide ItemAt, Written;
    if Written(s, i, spec, next) {
      WrittenScans(s, i, spec, next);
    }
    if ItemAt(s, i) == Item(spec, next) {
      ScansWritten(s, i);
    }
  }

  // ----- lists -----

  /** The ranges `specs`, separated by commas, are written from i on, up to the end of the header. */
  ghost predicate Listed(s: string, i: nat, specs: seq<Spec>)
    decreases |specs|
  {
    specs != [] &&
    exists next: nat :: Written(s, i, specs[0], next) &&
                        if |specs| == 1 then C(s, next) == 0 as char
                        else C(s, next) == ',' && Listed(s, next + 1, specs[1..])
  }

  lemma {:induction false} ListedEvaluates(s: string, i: nat, specs: seq<Spec>, length: Size, ranges: seq<FileRange>)
    requires Listed(s, i, specs)
    ensures Parse(s, i, length, ranges) == Eval(specs, length, ranges)
    decreases |specs|
  {
    hide ItemAt, Written, Take, Judge;
    var next: nat :| Written(s, i, specs[0], next) &&
                     if |specs| == 1 then C(s, next) == 0 as char
                     else C(s, next) == ',' && Listed(s, next + 1, specs[1..]);
    ItemIsWritten(s, i, specs[0], next);
    var t := Take(specs[0], length, ranges);
    if |specs| > 1 && t.Go? {
      ListedEvaluates(s, next + 1, specs[1..], length, t.ranges);
    }
  }

  predicate Accepts(verdict: Verdict) { verdict.SinglePart? || verdict.MultiPart? }

  lemma TakeNeverAccepts(spec: Spec, length: Size, ranges: seq<FileRange>)
    ensures Take(spec, length, ranges).Stop? ==> !Accepts(Take(spec, length, ranges).verdict)
  {
  }

  lemma {:induction false} AcceptedIsListed(s: string, i: nat, length: Size, ranges: seq<FileRange>)
    returns (specs: seq<Spec>)
    requires Accepts(Parse(s, i, length, ranges).0)
    ensures Listed(s, i, specs)
    decreases |s| - i
  {
    hide ItemAt, Written, Take, Judge;
    ItemAdvances(s, i);
    var spec, next := ItemAt(s, i).spec, ItemAt(s, i).next;
    ItemIsWritten(s, i, spec, next);
    TakeNeverAccepts(spec, length, ranges);
    specs := [spec];
    if C(s, next) == ',' {
      var rest := AcceptedIsListed(s, next + 1, length, Take(spec, length, ranges).ranges);
      specs := [spec] + rest;
      assert specs[1..] == rest;
    } else {
      ItemEnds(s, i);
    }
  }

  lemma ItemEnds(s: string, i: nat)
    ensures ItemAt(s, i).Item? ==> Ends(C(s, ItemAt(s, i).next))
  {
  }

  /** A header is accepted only if it is a list of ranges, and then for what the list asks. */
  lemma OnlyListsAccepted(s: string, length: Size) returns (specs: seq<Spec>)
    requires Accepts(ParseHeader(s, length).0)
    ensures |s| >= 7 && s[..6] == "bytes=" && Listed(s, 6, specs)
    ensures |Clipped(specs, length)| <= 100 ==> ParseHeader(s, length).1 == Clipped(specs, length)
  {
    hide Parse, Eval, Clipped, Judge;
    specs := AcceptedIsListed(s, 6, length, []);
    ListedEvaluates(s, 6, specs, length, []);
    if |Clipped(specs, length)| <= 100 {
      EvalMeans(specs, length, []);
      assert [] + Clipped(specs, length) == Clipped(specs, length);
    }
  }

  /** A list of at most a hundred ranges that are not empty is accepted, with exactly these, if there are any and they
      ask for no more bytes than there are; else it is not satisfiable. */
  lemma ListsAnswered(s: string, length: Size, specs: seq<Spec>)
    requires |s| >= 7 && s[..6] == "bytes=" && Listed(s, 6, specs) && |Clipped(specs, length)| <= 100
    ensures var (verdict, ranges) := ParseHeader(s, length);
            var want := Clipped(specs, length);
            if want == [] || Total(want) > length then verdict == NotSatisfiable
            else ranges == want && verdict == if |want| == 1 then SinglePart else MultiPart
  {
    hide Parse, Eval, Clipped;
    ListedEvaluates(s, 6, specs, length, []);
    EvalMeans(specs, length, []);
    assert [] + Clipped(specs, length) == Clipped(specs, length);
  }

  // ----- what is malformed -----

  /** From position q on there is no number and end of a range: no digit, or something else behind a number that is not
      too big. */
  ghost predicate BrokenEnd(s: string, q: nat) {
    || !IsDigit(C(s, q))
    || exists f: nat, n: Size, next: nat ::
         Number(s, q, q, f, n) && BlanksAt(s, f, next) && C(s, next) != ' ' && !Ends(C(s, next)) && !IsDigit(C(s, f))
  }

  /** Something else than a digit or a dash. */
  ghost predicate BadFirst(s: string, i: nat) {
    exists p: nat :: BlanksAt(s, i, p) && C(s, p) != ' ' && C(s, p) != '-' && !IsDigit(C(s, p))
  }

  ghost predicate BadSuffix(s: string, i: nat) {
    exists p: nat :: BlanksAt(s, i, p) && C(s, p) == '-' && BrokenEnd(s, p + 1)
  }

  /** No dash behind a number that is not too big. */
  ghost predicate NoDash(s: string, i: nat) {
    exists p: nat, e: nat, a: Size, d: nat ::
      Number(s, i, p, e, a) && BlanksAt(s, e, d) && C(s, d) != ' ' && C(s, d) != '-' && !IsDigit(C(s, e))
  }

  ghost predicate BadLast(s: string, i: nat) {
    exists a: Size, d: nat, q: nat ::
      StartAt(s, i, a, d) && BlanksAt(s, d + 1, q) && C(s, q) != ' ' && !Ends(C(s, q)) && BrokenEnd(s, q)
  }

  /** From position i on there is no range. */
  ghost predicate Broken(s: string, i: nat) { BadFirst(s, i) || BadSuffix(s, i) || NoDash(s, i) || BadLast(s, i) }

  lemma BrokenEndScans(s: string, q: nat, make: Size -> Spec)
    ensures LastNumber(s, q, make).Syntax? <==> BrokenEnd(s, q)
  {
    var e := DigitsEnd(s, q);
    if BrokenEnd(s, q) && IsDigit(C(s, q)) {
      var f: nat, n: Size, next: nat :|
        Number(s, q, q, f, n) && BlanksAt(s, f, next) && C(s, next) != ' ' && !Ends(C(s, next)) && !IsDigit(C(s, f));
      DigitsUntil(s, q, f);
      BlanksUntil(s, f, next);
    }
    if LastNumber(s, q, make).Syntax? && IsDigit(C(s, q)) {
      assert Number(s, q, q, e, NumberIn(s, q, e)) && BlanksAt(s, e, SkipBlanks(s, e));
    }
  }

  lemma BadFirstScans(s: string, i: nat)
    requires BadFirst(s, i) || BadSuffix(s, i)
    ensures ItemAt(s, i).Syntax?
  {
    hide LastNumber, NumberIn, SkipBlanks, BrokenEnd;
    if p: nat :| BlanksAt(s, i, p) && C(s, p) != ' ' && C(s, p) != '-' && !IsDigit(C(s, p)) {
      BlanksUntil(s, i, p);
    } else {
      var p: nat :| BlanksAt(s, i, p) && C(s, p) == '-' && BrokenEnd(s, p + 1);
      BlanksUntil(s, i, p);
      BrokenEndScans(s, p + 1, (n: Size) => Suffix(n));
    }
  }

  lemma NoDashScans(s: string, i: nat)
    requires NoDash(s, i)
    ensures ItemAt(s, i).Syntax?
  {
    hide LastNumber, NumberIn, SkipBlanks, DigitsEnd;
    var p: nat, e: nat, a: Size, d: nat :|
      Number(s, i, p, e, a) && BlanksAt(s, e, d) && C(s, d) != ' ' && C(s, d) != '-' && !IsDigit(C(s, e));
    assert IsDigit(C(s, p));
    BlanksUntil(s, i, p);
    DigitsUntil(s, p, e);
    BlanksUntil(s, e, d);
  }

  lemma BadLastScans(s: string, i: nat)
    requires BadLast(s, i)
    ensures ItemAt(s, i).Syntax?
  {
    hide LastNumber, NumberIn, SkipBlanks, DigitsEnd, StartAt, BrokenEnd;
    var a: Size, d: nat, q: nat :|
      StartAt(s, i, a, d) && BlanksAt(s, d + 1, q) && C(s, q) != ' ' && !Ends(C(s, q)) && BrokenEnd(s, q);
    StartScans(s, i, a, d);
    BlanksUntil(s, d + 1, q);
    BrokenEndScans(s, q, (b: Size) => FromTo(a, b));
  }

  lemma ScansBadFirst(s: string, i: nat)
    requires ItemAt(s, i).Syntax?
    requires var p := SkipBlanks(s, i); C(s, p) == '-' || DigitsEnd(s, p) == p
    ensures BadFirst(s, i) || BadSuffix(s, i)
  {
    hide LastNumber, NumberIn, BrokenEnd;
    var p := SkipBlanks(s, i);
    assert BlanksAt(s, i, p);
    if C(s, p) == '-' {
      BrokenEndScans(s, p + 1, (n: Size) => Suffix(n));
    }
  }

  lemma ScansNoDash(s: string, i: nat)
    requires var p := SkipBlanks(s, i); var e := DigitsEnd(s, p);
             e > p && NumberIn(s, p, e) <= SIZE_MAX && C(s, SkipBlanks(s, e)) != '-'
    ensures NoDash(s, i)
  {
    hide NumberIn;
    var p := SkipBlanks(s, i);
    var e := DigitsEnd(s, p);
    assert Number(s, i, p, e, NumberIn(s, p, e)) && BlanksAt(s, e, SkipBlanks(s, e));
  }

  lemma ScansBadLast(s: string, i: nat)
    requires ItemAt(s, i).Syntax?
    requires var p := SkipBlanks(s, i); var e := DigitsEnd(s, p);
             C(s, p) != '-' && e > p && NumberIn(s, p, e) <= SIZE_MAX && C(s, SkipBlanks(s, e)) == '-'
    ensures BadLast(s, i)
  {
    hide LastNumber, NumberIn, StartAt, BrokenEnd;
    var p := SkipBlanks(s, i);
    var a, d := NumberIn(s, p, DigitsEnd(s, p)), SkipBlanks(s, DigitsEnd(s, p));
    var q := SkipBlanks(s, d + 1);
    assert BlanksAt(s, d + 1, q);
    ScansStart(s, i);
    BrokenEndScans(s, q, (b: Size) => FromTo(a, b));
  }

  /** The scanner finds a syntax error exactly where the range is broken. */
  lemma SyntaxIsBroken(s: string, i: nat)
    ensures ItemAt(s, i).Syntax? <==> Broken(s, i)
  {
    hide BadFirst, BadSuffix, NoDash, BadLast, NumberIn, LastNumber;
    if BadFirst(s, i) || BadSuffix(s, i) {
      BadFirstScans(s, i);
    } else if NoDash(s, i) {
      NoDashScans(s, i);
    } else if BadLast(s, i) {
      BadLastScans(s, i);
    } else if ItemAt(s, i).Syntax? {
      var p := SkipBlanks(s, i);
      if C(s, p) == '-' || DigitsEnd(s, p) == p {
        ScansBadFirst(s, i);
      } else if C(s, SkipBlanks(s, DigitsEnd(s, p))) != '-' {
        ScansNoDash(s, i);
      } else {
        ScansBadLast(s, i);
      }
    }
  }

  /** The ranges `specs`, each with its comma, are written from i on, up to position j. */
  ghost predicate ListedUpTo(s: string, i: nat, specs: seq<Spec>, j: nat)
    decreases |specs|
  {
    if specs == [] then i == j
    else
      exists next: nat ::
        Written(s, i, specs[0], next) && C(s, next) == ',' && ListedUpTo(s, next + 1, specs[1..], j)
  }

  /** A list that goes on with something that is no range is malformed, unless it already asked for too much. */
  lemma {:induction false} BrokenRefused(s: string, i: nat, specs: seq<Spec>, j: nat, length: Size,
                                         ranges: seq<FileRange>)
    requires ListedUpTo(s, i, specs, j) && Broken(s, j)
    requires |ranges| + |Clipped(specs, length)| <= 100 && Total(ranges + Clipped(specs, length)) <= SIZE_MAX
    ensures Parse(s, i, length, ranges).0 == InvalidRange
    decreases |specs|
  {
    hide ItemAt, Written, Take, Judge, Broken, Total, Asked, Inside;
    if specs == [] {
      SyntaxIsBroken(s, i);
    } else {
      var next: nat :| Written(s, i, specs[0], next) && C(s, next) == ',' && ListedUpTo(s, next + 1, specs[1..], j);
      ItemIsWritten(s, i, specs[0], next);
      var now, rest := Asked(specs[0], length), Clipped(specs[1..], length);
      Regroup(ranges, now, rest);
      ClippedInside(specs[1..], length);
      TotalConcat(ranges + now, rest, length);
      TakeMeans(specs[0], length, ranges);
      BrokenRefused(s, next + 1, specs[1..], j, length, ranges + now);
    }
  }

  /** Behind a hundred ranges that are not empty, one more of the forms a-b and -n is refused, if it asks for
      anything. */
  lemma {:induction false} TooManyRefused(s: string, i: nat, specs: seq<Spec>, j: nat, spec: Spec, next: nat,
                                          length: Size, ranges: seq<FileRange>)
    requires ListedUpTo(s, i, specs, j) && Written(s, j, spec, next) && !spec.From? && NonEmpty(Clip(spec, length))
    requires |ranges| + |Clipped(specs, length)| == 100
    requires Total(ranges + Clipped(specs, length) + [Clip(spec, length)]) <= SIZE_MAX
    ensures Parse(s, i, length, ranges).0 == InvalidRange
    decreases |specs|
  {
    hide ItemAt, Written, Judge, Asked, Inside, Clip;
    var last := Clip(spec, length);
    TotalSnoc(ranges + Clipped(specs, length), last);
    if specs == [] {
      ItemIsWritten(s, i, spec, next);
      assert ranges + [] == ranges;
    } else {
      hide Take, Total;
      var at: nat :| Written(s, i, specs[0], at) && C(s, at) == ',' && ListedUpTo(s, at + 1, specs[1..], j);
      ItemIsWritten(s, i, specs[0], at);
      var now, rest := Asked(specs[0], length), Clipped(specs[1..], length);
      Regroup(ranges, now, rest);
      ClippedInside(specs[1..], length);
      TotalConcat(ranges + now, rest, length);
      TakeMeans(specs[0], length, ranges);
      TooManyRefused(s, at + 1, specs[1..], j, spec, next, length, ranges + now);
    }
  }

  /** Ranges that together ask for more than size_t holds are not satisfiable, whatever follows them. */
  lemma {:induction false} TooMuchStops(s: string, i: nat, specs: seq<Spec>, j: nat, spec: Spec, next: nat,
                                        length: Size, ranges: seq<FileRange>)
    requires ListedUpTo(s, i, specs, j) && Written(s, j, spec, next) && NonEmpty(Clip(spec, length))
    requires |ranges| + |Clipped(specs, length)| <= 100 && Total(ranges + Clipped(specs, length)) <= SIZE_MAX
    requires Total(ranges + Clipped(specs, length) + [Clip(spec, length)]) > SIZE_MAX
    ensures Parse(s, i, length, ranges).0 == NotSatisfiable
    decreases |specs|
  {
    hide ItemAt, Written, Judge, Asked, Inside, Clip, Take, Total, NonEmpty;
    if specs == [] {
      assert ranges + [] == ranges;
      OneTooMuch(s, i, spec, next, length, ranges);
    } else {
      var at: nat :| Written(s, i, specs[0], at) && C(s, at) == ',' && ListedUpTo(s, at + 1, specs[1..], j);
      ItemIsWritten(s, i, specs[0], at);
      var now, rest := Asked(specs[0], length), Clipped(specs[1..], length);
      Regroup(ranges, now, rest);
      ClippedInside(specs[1..], length);
      TotalConcat(ranges + now, rest, length);
      TakeMeans(specs[0], length, ranges);
      TooMuchStops(s, at + 1, specs[1..], j, spec, next, length, ranges + now);
    }
  }

  lemma OneTooMuch(s: string, i: nat, spec: Spec, next: nat, length: Size, ranges: seq<FileRange>)
    requires Written(s, i, spec, next) && NonEmpty(Clip(spec, length))
    requires Total(ranges + [Clip(spec, length)]) > SIZE_MAX
    ensures Parse(s, i, length, ranges).0 == NotSatisfiable
  {
    hide ItemAt, Written, Judge, Clip, Total;
    TotalSnoc(ranges, Clip(spec, length));
    ItemIsWritten(s, i, spec, next);
  }

  lemma TotalSnoc(ranges: seq<FileRange>, last: FileRange)
    ensures Total(ranges + [last]) == Total(ranges) + (last.end - last.start)
  {
    assert (ranges + [last])[..|ranges|] == ranges;
  }

  /** Malformed: another unit, or ranges and then something that is none. */
  lemma MalformedInvalid(s: string, specs: seq<Spec>, j: nat, length: Size)
    requires |s| >= 7 && s[..6] == "bytes=" ==>
               ListedUpTo(s, 6, specs, j) && Broken(s, j) &&
               |Clipped(specs, length)| <= 100 && Total(Clipped(specs, length)) <= SIZE_MAX
    ensures ParseHeader(s, length).0 == InvalidRange
  {
    hide Parse, Broken, ListedUpTo, Clipped, Total;
    if |s| >= 7 && s[..6] == "bytes=" {
      assert [] + Clipped(specs, length) == Clipped(specs, length);
      BrokenRefused(s, 6, specs, j, length, []);
    }
  }
}
