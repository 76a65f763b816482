/** The Range header of file requests (parseRangeHeader): a scanner with overflow-checked size_t arithmetic against a
    grammar of the header and a fold over its ranges, what holds of every header, and what is answered for every printed
    list of ranges. */
module Range {
  import opened Bytes

  /** size_t */
  type Size = n: nat | n <= SIZE_MAX

  /** [start, end) */
  datatype FileRange = FileRange(start: Size, end: Size)

  datatype Verdict = InvalidRange | NotSatisfiable | SinglePart | MultiPart

  /** The three forms of a byte range: a-b, a-, and the last n bytes. */
  datatype Spec = FromTo(a: Size, b: Size) | From(a: Size) | Suffix(n: Size)

  // ----- the grammar -----

  /** The character a C string pointer sees; NUL behind the end. */
  function C(s: string, i: nat): char { if i < |s| then s[i] else 0 as char }

  predicate IsDigit(c: char) { '0' <= c <= '9' }

  function SkipBlanks(s: string, i: nat): (j: nat)
    ensures i <= j && C(s, j) != ' ' && (j <= |s| || j == i)
    ensures forall k: nat | i <= k < j :: C(s, k) == ' '
    decreases |s| - i
  {
    if C(s, i) == ' ' then SkipBlanks(s, i + 1) else i
  }

  /** The end of the run of digits at i. */
  function DigitsEnd(s: string, i: nat): (j: nat)
    ensures i <= j && !IsDigit(C(s, j)) && (j <= |s| || j == i)
    ensures forall k: nat | i <= k < j :: IsDigit(C(s, k))
    decreases |s| - i
  {
    if IsDigit(C(s, i)) then DigitsEnd(s, i + 1) else i
  }

  /** The number written in s[i..j]. */
  function NumberIn(s: string, i: nat, j: nat): nat
    requires i <= j && (forall k: nat | i <= k < j :: IsDigit(C(s, k)))
  {
    if i == j then 0
    else
      assert IsDigit(C(s, j - 1));
      10 * NumberIn(s, i, j - 1) + (C(s, j - 1) - '0') as nat
  }

  datatype Item = Syntax | Overflow | Item(spec: Spec, next: nat)

  /** A number and the blanks behind it, up to the end of the item. */
  function LastNumber(s: string, p: nat, make: Size -> Spec): Item {
    var e := DigitsEnd(s, p);
    if e == p then Syntax
    else if NumberIn(s, p, e) > SIZE_MAX then Overflow
    else
      var next := SkipBlanks(s, e);
      if C(s, next) == ',' || C(s, next) == 0 as char then Item(make(NumberIn(s, p, e)), next) else Syntax
  }

  function ItemAt(s: string, i: nat): Item {
    var p := SkipBlanks(s, i);
    if C(s, p) == '-' then LastNumber(s, p + 1, (n: Size) => Suffix(n))
    else
      var e := DigitsEnd(s, p);
      if e == p then Syntax
      else if NumberIn(s, p, e) > SIZE_MAX then Overflow
      else
        var a, dash := NumberIn(s, p, e), SkipBlanks(s, e);
        if C(s, dash) != '-' then Syntax
        else
          var q := SkipBlanks(s, dash + 1);
          if C(s, q) == ',' || C(s, q) == 0 as char then Item(From(a), q)
          else LastNumber(s, q, (b: Size) => FromTo(a, b))
  }

  // ----- the meaning of a list of ranges -----

  /** The bytes a range asks for, of a content of `length` bytes. */
  function Clip(spec: Spec, length: Size): FileRange {
    match spec
    case FromTo(a, b) => FileRange(a, if b < length then b + 1 else length)
    case From(a) => FileRange(a, length)
    case Suffix(n) => FileRange(if n < length then length - n else 0, length)
  }

  predicate NonEmpty(r: FileRange) { r.start < r.end }

  /** The range, when it is not empty. */
  function Asked(spec: Spec, length: Size): seq<FileRange> {
    if NonEmpty(Clip(spec, length)) then [Clip(spec, length)] else []
  }

  function Clipped(specs: seq<Spec>, length: Size): seq<FileRange> {
    if specs == [] then [] else Asked(specs[0], length) + Clipped(specs[1..], length)
  }

  function Total(ranges: seq<FileRange>): int {
    if ranges == [] then 0 else Total(ranges[..|ranges| - 1]) + (ranges[|ranges| - 1].end - ranges[|ranges| - 1].start)
  }

  function Judge(ranges: seq<FileRange>, length: Size): Verdict {
    if ranges == [] || Total(ranges) > length then NotSatisfiable
    else if |ranges| == 1 then SinglePart else MultiPart
  }

  /** The result of taking one more range: stop with a verdict, or go on. */
  datatype Taken = Stop(verdict: Verdict, ranges: seq<FileRange>) | Go(ranges: seq<FileRange>)

  function Take(spec: Spec, length: Size, ranges: seq<FileRange>): Taken {
    var r := Clip(spec, length);
    if !NonEmpty(r) then Go(ranges)
    else if Total(ranges) > SIZE_MAX - (r.end - r.start) then
      Stop(NotSatisfiable, if spec.From? then ranges else ranges + [r])
    else if !spec.From? && |ranges| >= 100 then Stop(InvalidRange, ranges + [r])
    else Go(ranges + [r])
  }

  /** parseRangeHeader from position i on, with the ranges found so far. */
  function Parse(s: string, i: nat, length: Size, ranges: seq<FileRange>): (Verdict, seq<FileRange>)
    decreases |s| - i
  {
    match ItemAt(s, i)
    case Syntax => (InvalidRange, ranges)
    case Overflow => (NotSatisfiable, ranges)
    case Item(spec, next) =>
      match Take(spec, length, ranges)
      case Stop(verdict, all) => (verdict, all)
      case Go(all) =>
        if C(s, next) == ',' then ItemAdvances(s, i); Parse(s, next + 1, length, all) else (Judge(all, length), all)
  }

  function ParseHeader(s: string, length: Size): (Verdict, seq<FileRange>) {
    if |s| < 7 || s[..6] != "bytes=" then (InvalidRange, []) else Parse(s, 6, length, [])
  }

  lemma ItemAdvances(s: string, i: nat)
    ensures ItemAt(s, i).Item? ==> i < ItemAt(s, i).next
  {
  }

  // ----- the scanner -----

  lemma NumberGrows(s: string, i: nat, j: nat, k: nat)
    requires i <= j <= k && (forall m: nat | i <= m < k :: IsDigit(C(s, m)))
    ensures NumberIn(s, i, j) <= NumberIn(s, i, k)
  {
    if j < k {
      NumberGrows(s, i, j, k - 1);
    }
  }

  const MAX_TEN: Size := SIZE_MAX / 10
  const MAX_DIGIT: Size := SIZE_MAX % 10

  /** DR_WOULD_OVERFLOW is exactly that the next digit leaves size_t. */
  predicate WouldOverflow(base: Size, digit: char)
    requires IsDigit(digit)
  {
    base > MAX_TEN || (base >= MAX_TEN && (digit - '0') as nat > MAX_DIGIT)
  }

  lemma OverflowTest(base: Size, digit: char)
    requires IsDigit(digit)
    ensures WouldOverflow(base, digit) <==> 10 * base + (digit - '0') as nat > SIZE_MAX
  {
  }

  method SkipWhitespace(s: string, iter: nat) returns (next: nat)
    ensures next == SkipBlanks(s, iter)
  {
    next := iter;
    while C(s, next) == ' '
      invariant iter <= next && forall k: nat | iter <= k < next :: C(s, k) == ' '
      decreases |s| - next
    {
      next := next + 1;
    }
  }

  /** The digit loop: every step stays inside size_t, or the whole number is outside. */
  method ScanNumber(s: string, iter: nat) returns (overflow: bool, value: Size, next: nat)
    requires IsDigit(C(s, iter))
    ensures var e := DigitsEnd(s, iter);
            if overflow then NumberIn(s, iter, e) > SIZE_MAX else next == e && value == NumberIn(s, iter, e)
    ensures DigitsEnd(s, iter) > iter
  {
    ghost var e := DigitsEnd(s, iter);
    overflow, value, next := false, 0, iter;
    while IsDigit(C(s, next))
      invariant iter <= next <= e && value == NumberIn(s, iter, next)
      decreases |s| - next
    {
      OverflowTest(value, C(s, next));
      assert NumberIn(s, iter, next + 1) == 10 * value + (C(s, next) - '0') as nat;
      if WouldOverflow(value, C(s, next)) {
        NumberGrows(s, iter, next + 1, e);
        overflow := true;
        return;
      }
      value := value * 10 + (C(s, next) - '0') as nat;
      next := next + 1;
    }
  }

  /** One item as the loop body reads it; on success `iter` is at its end and `start`, `end` are what it scanned. */
  method ScanItem(s: string, i: nat) returns (item: Item)
    ensures item == ItemAt(s, i)
  {
    var iter := SkipWhitespace(s, i);
    if C(s, iter) == '-' {
      item := ScanLast(s, iter + 1, (n: Size) => Suffix(n));
      return;
    }
    if !IsDigit(C(s, iter)) {
      return Syntax;
    }
    var overflow, start, next := ScanNumber(s, iter);
    if overflow {
      return Overflow;
    }
    iter := SkipWhitespace(s, next);
    if C(s, iter) != '-' {
      return Syntax;
    }
    iter := SkipWhitespace(s, iter + 1);
    if C(s, iter) == ',' || C(s, iter) == 0 as char {
      return Item(From(start), iter);
    }
    item := ScanLast(s, iter, (b: Size) => FromTo(start, b));
  }

  method ScanLast(s: string, p: nat, make: Size -> Spec) returns (item: Item)
    ensures item == LastNumber(s, p, make)
  {
    if !IsDigit(C(s, p)) {
      return Syntax;
    }
    var overflow, end, next := ScanNumber(s, p);
    if overflow {
      return Overflow;
    }
    var iter := SkipWhitespace(s, next);
    if C(s, iter) != ',' && C(s, iter) != 0 as char {
      return Syntax;
    }
    return Item(make(end), iter);
  }

  /** The size arithmetic of the loop body; contentLength - 1 wraps for an empty content, which the clipping undoes. */
  method Resolve(spec: Spec, contentLength: Size) returns (start: Size, end: Size)
    ensures FileRange(start, end) == Clip(spec, contentLength)
  {
    match spec {
      case From(a) =>
        return a, contentLength;
      case FromTo(a, b) => start, end := a, b;
      case Suffix(n) =>
        start := if n < contentLength then contentLength - n else 0;
        end := if contentLength == 0 then SIZE_MAX else contentLength - 1;
    }
    if end >= contentLength {
      end := contentLength;
    } else {
      end := end + 1;
    }
  }

  /** What the loop body does with a range found; totalSize never leaves size_t. */
  method Handle(spec: Spec, contentLength: Size, ranges: seq<FileRange>, totalSize: Size)
    returns (stop: bool, verdict: Verdict, all: seq<FileRange>, total: Size)
    requires totalSize == Total(ranges)
    ensures match Take(spec, contentLength, ranges)
            case Stop(v, a) => stop && verdict == v && all == a
            case Go(a) => !stop && all == a && total == Total(a)
  {
    stop, verdict, all, total := false, NotSatisfiable, ranges, totalSize;
    var start, end := Resolve(spec, contentLength);
    if start < end {
      if !spec.From? {
        all := all + [FileRange(start, end)];
      }
      if totalSize > SIZE_MAX - (end - start) {
        return true, NotSatisfiable, all, total;
      }
      total := total + (end - start);
      if spec.From? {
        all := all + [FileRange(start, end)];
      } else if |all| > 100 {
        return true, InvalidRange, all, total;
      }
    }
  }

  method ParseRangeHeader(rangeStr: string, contentLength: Size) returns (verdict: Verdict, ranges: seq<FileRange>)
    ensures (verdict, ranges) == ParseHeader(rangeStr, contentLength)
  {
    hide ItemAt, Take;
    ranges := [];
    if |rangeStr| < 7 || rangeStr[..6] != "bytes=" {
      return InvalidRange, ranges;
    }
    var iter, totalSize: Size := 6, 0;
    while true
      invariant totalSize == Total(ranges)
      invariant Parse(rangeStr, iter, contentLength, ranges) == ParseHeader(rangeStr, contentLength)
      decreases |rangeStr| - iter
    {
      var item := ScanItem(rangeStr, iter);
      if item.Syntax? {
        return InvalidRange, ranges;
      }
      if item.Overflow? {
        return NotSatisfiable, ranges;
      }
      ItemAdvances(rangeStr, iter);
      var stop;
      stop, verdict, ranges, totalSize := Handle(item.spec, contentLength, ranges, totalSize);
      if stop {
        return;
      }
      if C(rangeStr, item.next) != ',' {
        break;
      }
      iter := item.next + 1;
    }
    if |ranges| == 0 || totalSize > contentLength {
      return NotSatisfiable, ranges;
    }
    verdict := if |ranges| == 1 then SinglePart else MultiPart;
  }

  // ----- for every input -----

  /** Inside the content and not empty. */
  predicate Inside(ranges: seq<FileRange>, length: Size) {
    forall i | 0 <= i < |ranges| :: ranges[i].start < ranges[i].end <= length
  }

  /** Whatever the header says, every range handed out is inside the content, and an accepted set asks for no more bytes
      in all than there are. */
  lemma {:induction false} ParseInside(s: string, i: nat, length: Size, ranges: seq<FileRange>)
    requires Inside(ranges, length)
    ensures var (verdict, all) := Parse(s, i, length, ranges);
            Inside(all, length) && ranges <= all &&
            (verdict.SinglePart? || verdict.MultiPart? ==>
               Total(all) <= length && |all| >= 1 && (verdict.SinglePart? <==> |all| == 1))
    decreases |s| - i
  {
    hide ItemAt;
    ItemAdvances(s, i);
    match ItemAt(s, i)
    case Item(spec, next) =>
      var t := Take(spec, length, ranges);
      if t.Go? && C(s, next) == ',' {
        ParseInside(s, next + 1, length, t.ranges);
      }
    case _ =>
  }

  lemma HeaderInside(s: string, length: Size)
    ensures var (verdict, all) := ParseHeader(s, length);
            Inside(all, length) &&
            (verdict.SinglePart? || verdict.MultiPart? ==>
               Total(all) <= length && |all| >= 1 && (verdict.SinglePart? <==> |all| == 1))
  {
    ParseInside(s, 6, length, []);
  }

  // ----- for every printed list -----

  /** A range as a client may write it, with blanks around it. */
  datatype Written = Written(before: nat, spec: Spec, after: nat)

  function Blanks(n: nat): (s: string)
    ensures |s| == n && forall i | 0 <= i < n :: s[i] == ' '
  {
    seq(n, _ => ' ')
  }

  function Body(spec: Spec): string {
    match spec
    case FromTo(a, b) => Decimal(a) + "-" + Decimal(b)
    case From(a) => Decimal(a) + "-"
    case Suffix(n) => "-" + Decimal(n)
  }

  function Text(w: Written): string { Blanks(w.before) + Body(w.spec) + Blanks(w.after) }

  function Texts(ws: seq<Written>): string
    requires ws != []
  {
    if |ws| == 1 then Text(ws[0]) else Text(ws[0]) + "," + Texts(ws[1..])
  }

  function Specs(ws: seq<Written>): (r: seq<Spec>)
    ensures |r| == |ws|
  {
    seq(|ws|, i requires 0 <= i < |ws| => ws[i].spec)
  }

  /** `part` stands in s at position i. */
  predicate Stands(s: string, i: nat, part: string) {
    i + |part| <= |s| && forall k | 0 <= k < |part| :: s[i + k] == part[k]
  }

  lemma StandsParts(s: string, i: nat, a: string, b: string)
    requires Stands(s, i, a + b)
    ensures Stands(s, i, a) && Stands(s, i + |a|, b)
  {
    forall k | 0 <= k < |a|
      ensures s[i + k] == a[k]
    {
      assert (a + b)[k] == a[k];
    }
    forall k | 0 <= k < |b|
      ensures s[i + |a| + k] == b[k]
    {
      assert s[i + (|a| + k)] == (a + b)[|a| + k];
    }
  }

  lemma StandsChar(s: string, i: nat, c: char)
    requires Stands(s, i, [c])
    ensures C(s, i) == c
  {
    assert s[i + 0] == [c][0];
  }

  /** A printed number is scanned as that number. */
  lemma {:induction false} DecimalRead(s: string, p: nat, n: nat)
    requires Stands(s, p, Decimal(n))
    ensures var e := p + |Decimal(n)|;
            (forall k: nat | p <= k < e :: IsDigit(C(s, k))) && NumberIn(s, p, e) == n
  {
    if n < 10 {
      assert Decimal(n) == [DigitChar(n)];
      StandsChar(s, p, DigitChar(n));
      assert NumberIn(s, p, p) == 0;
    } else {
      var front := Decimal(n / 10);
      StandsParts(s, p, front, [DigitChar(n % 10)]);
      DecimalRead(s, p, n / 10);
      StandsChar(s, p + |front|, DigitChar(n % 10));
      assert Decimal(n) == front + [DigitChar(n % 10)];
    }
  }

  lemma NumberRead(s: string, p: nat, n: Size)
    requires Stands(s, p, Decimal(n)) && !IsDigit(C(s, p + |Decimal(n)|))
    ensures DigitsEnd(s, p) == p + |Decimal(n)| > p && NumberIn(s, p, DigitsEnd(s, p)) == n && IsDigit(C(s, p))
  {
    hide Decimal;
    DecimalRead(s, p, n);
  }

  predicate Ends(c: char) { c == ',' || c == 0 as char }

  /** The last number of an item with its blanks. */
  lemma LastRead(s: string, p: nat, n: Size, after: nat, make: Size -> Spec)
    requires Stands(s, p, Decimal(n) + Blanks(after)) && Ends(C(s, p + |Decimal(n)| + after))
    ensures LastNumber(s, p, make) == Item(make(n), p + |Decimal(n)| + after)
  {
    hide Decimal, NumberIn;
    StandsParts(s, p, Decimal(n), Blanks(after));
    var e := p + |Decimal(n)|;
    BlanksRead(s, e, after);
    NumberRead(s, p, n);
  }

  lemma BlanksRead(s: string, e: nat, after: nat)
    requires Stands(s, e, Blanks(after)) && C(s, e + after) != ' '
    ensures SkipBlanks(s, e) == e + after
    ensures !IsDigit(C(s, e + after)) ==> !IsDigit(C(s, e))
  {
    forall k: nat | e <= k < e + after
      ensures C(s, k) == ' '
    {
      assert s[e + (k - e)] == Blanks(after)[k - e];
    }
  }

  /** A number and the dash behind it. */
  lemma StartRead(s: string, p: nat, a: Size, rest: string)
    requires Stands(s, p, Decimal(a) + "-" + rest)
    ensures var e := p + |Decimal(a)|;
            DigitsEnd(s, p) == e > p && NumberIn(s, p, e) == a && IsDigit(C(s, p)) &&
            SkipBlanks(s, e) == e && C(s, e) == '-' && Stands(s, e + 1, rest)
  {
    hide Decimal, NumberIn;
    assert Decimal(a) + "-" + rest == Decimal(a) + ("-" + rest);
    StandsParts(s, p, Decimal(a), "-" + rest);
    StandsParts(s, p + |Decimal(a)|, "-", rest);
    StandsChar(s, p + |Decimal(a)|, '-');
    NumberRead(s, p, a);
  }

  lemma ItemRead(s: string, i: nat, w: Written)
    requires Stands(s, i, Text(w)) && Ends(C(s, i + |Text(w)|))
    ensures ItemAt(s, i) == Item(w.spec, i + |Text(w)|)
  {
    hide Decimal, NumberIn, LastNumber;
    var p := i + w.before;
    StandsParts(s, i, Blanks(w.before) + Body(w.spec), Blanks(w.after));
    assert Text(w) == Blanks(w.before) + (Body(w.spec) + Blanks(w.after));
    StandsParts(s, i, Blanks(w.before), Body(w.spec) + Blanks(w.after));
    match w.spec {
      case Suffix(n) => SuffixRead(s, i, w);
      case From(a) => FromRead(s, i, w);
      case FromTo(a, b) => FromToRead(s, i, w);
    }
  }

  lemma SuffixRead(s: string, i: nat, w: Written)
    requires w.spec.Suffix? && Ends(C(s, i + |Text(w)|))
    requires Stands(s, i, Blanks(w.before)) && Stands(s, i + w.before, Body(w.spec) + Blanks(w.after))
    ensures ItemAt(s, i) == Item(w.spec, i + |Text(w)|)
  {
    hide Decimal, NumberIn, LastNumber, DigitsEnd, SkipBlanks;
    var n, p := w.spec.n, i + w.before;
    var rest := Decimal(n) + Blanks(w.after);
    assert Body(w.spec) + Blanks(w.after) == "-" + rest;
    StandsParts(s, p, "-", rest);
    StandsChar(s, p, '-');
    BlanksRead(s, i, w.before);
    LastRead(s, p + 1, n, w.after, (n: Size) => Suffix(n));
  }

  lemma FromRead(s: string, i: nat, w: Written)
    requires w.spec.From? && Ends(C(s, i + |Text(w)|))
    requires Stands(s, i, Blanks(w.before)) && Stands(s, i + w.before, Body(w.spec) + Blanks(w.after))
    ensures ItemAt(s, i) == Item(w.spec, i + |Text(w)|)
  {
    hide Decimal, NumberIn, LastNumber, Stands, DigitsEnd, SkipBlanks;
    var a, p := w.spec.a, i + w.before;
    assert Body(w.spec) + Blanks(w.after) == Decimal(a) + "-" + Blanks(w.after);
    StartRead(s, p, a, Blanks(w.after));
    BlanksRead(s, i, w.before);
    BlanksRead(s, p + |Decimal(a)| + 1, w.after);
  }

  /** The second number, which no blank precedes. */
  lemma EndRead(s: string, q: nat, b: Size, after: nat, make: Size -> Spec)
    requires Stands(s, q, Decimal(b) + Blanks(after)) && Ends(C(s, q + |Decimal(b)| + after))
    ensures SkipBlanks(s, q) == q && !Ends(C(s, q))
    ensures LastNumber(s, q, make) == Item(make(b), q + |Decimal(b)| + after)
  {
    hide Decimal, NumberIn;
    LastRead(s, q, b, after, make);
    StandsParts(s, q, Decimal(b), Blanks(after));
    BlanksRead(s, q + |Decimal(b)|, after);
    NumberRead(s, q, b);
  }

  lemma FromToRead(s: string, i: nat, w: Written)
    requires w.spec.FromTo? && Ends(C(s, i + |Text(w)|))
    requires Stands(s, i, Blanks(w.before)) && Stands(s, i + w.before, Body(w.spec) + Blanks(w.after))
    ensures ItemAt(s, i) == Item(w.spec, i + |Text(w)|)
  {
    hide Decimal, NumberIn, LastNumber, Stands, DigitsEnd, SkipBlanks;
    var a, b, p := w.spec.a, w.spec.b, i + w.before;
    var rest := Decimal(b) + Blanks(w.after);
    assert Body(w.spec) + Blanks(w.after) == Decimal(a) + "-" + rest;
    StartRead(s, p, a, rest);
    BlanksRead(s, i, w.before);
    EndRead(s, p + |Decimal(a)| + 1, b, w.after, (b: Size) => FromTo(a, b));
  }

  /** The fold over the ranges themselves. */
  function Eval(specs: seq<Spec>, length: Size, ranges: seq<FileRange>): (Verdict, seq<FileRange>)
    requires specs != []
  {
    match Take(specs[0], length, ranges)
    case Stop(verdict, all) => (verdict, all)
    case Go(all) => if |specs| == 1 then (Judge(all, length), all) else Eval(specs[1..], length, all)
  }

  lemma {:induction false} PrintedEvaluates(s: string, i: nat, ws: seq<Written>, length: Size, ranges: seq<FileRange>)
    requires ws != [] && Stands(s, i, Texts(ws)) && i + |Texts(ws)| == |s|
    ensures Parse(s, i, length, ranges) == Eval(Specs(ws), length, ranges)
    decreases |ws|
  {
    hide ItemAt, Text, Take, Judge;
    var specs := Specs(ws);
    if |ws| == 1 {
      ItemRead(s, i, ws[0]);
    } else {
      var next := i + |Text(ws[0])|;
      assert Text(ws[0]) + "," + Texts(ws[1..]) == Text(ws[0]) + ("," + Texts(ws[1..]));
      StandsParts(s, i, Text(ws[0]), "," + Texts(ws[1..]));
      StandsParts(s, next, ",", Texts(ws[1..]));
      StandsChar(s, next, ',');
      ItemRead(s, i, ws[0]);
      var t := Take(specs[0], length, ranges);
      if t.Go? {
        PrintedEvaluates(s, next + 1, ws[1..], length, t.ranges);
        assert Specs(ws)[1..] == Specs(ws[1..]);
      }
    }
  }

  lemma {:induction false} TotalConcat(a: seq<FileRange>, b: seq<FileRange>, length: Size)
    requires Inside(b, length)
    ensures Total(a + b) == Total(a) + Total(b) && Total(b) >= 0
    decreases |b|
  {
    if b == [] {
      assert a + b == a;
    } else {
      var front, last := b[..|b| - 1], b[|b| - 1];
      TotalConcat(a, front, length);
      assert (a + b)[..|a + b| - 1] == a + front && (a + b)[|a + b| - 1] == last;
    }
  }

  lemma {:induction false} ClippedInside(specs: seq<Spec>, length: Size)
    ensures Inside(Clipped(specs, length), length)
  {
    if specs != [] {
      ClippedInside(specs[1..], length);
    }
  }

  /** Up to a hundred non-empty ranges, the fold answers with all of them or that they cannot be satisfied. */
  lemma {:induction false} EvalMeans(specs: seq<Spec>, length: Size, ranges: seq<FileRange>)
    requires specs != [] && |ranges| + |Clipped(specs, length)| <= 100
    ensures var (verdict, all) := Eval(specs, length, ranges);
            var want := ranges + Clipped(specs, length);
            verdict == Judge(want, length) && (verdict.SinglePart? || verdict.MultiPart? ==> all == want)
    decreases |specs|
  {
    hide Judge, Total, Inside, Take, Asked;
    var now, rest := Asked(specs[0], length), Clipped(specs[1..], length);
    assert Clipped(specs, length) == now + rest;
    assert |specs| == 1 ==> rest == [] && ranges + now + [] == ranges + now;
    hide Clipped;
    ClippedInside(specs[1..], length);
    TotalConcat(ranges + now, rest, length);
    Regroup(ranges, now, rest);
    TakeMeans(specs[0], length, ranges);
    match Take(specs[0], length, ranges)
    case Stop(verdict, all) => TooMuch(ranges + now, rest, length);
    case Go(all) =>
      if |specs| > 1 {
        EvalMeans(specs[1..], length, ranges + now);
      }
  }

  lemma TakeMeans(spec: Spec, length: Size, ranges: seq<FileRange>)
    requires |ranges| + |Asked(spec, length)| <= 100
    ensures match Take(spec, length, ranges)
            case Stop(verdict, _) => verdict.NotSatisfiable? && Total(ranges + Asked(spec, length)) > SIZE_MAX
            case Go(all) => all == ranges + Asked(spec, length)
  {
    var r := Clip(spec, length);
    hide Clip;
    if NonEmpty(r) {
      hide Total;
      assert Asked(spec, length) == [r];
    } else {
      assert ranges + [] == ranges;
    }
  }

  lemma TooMuch(have: seq<FileRange>, rest: seq<FileRange>, length: Size)
    ensures Total(have) > SIZE_MAX && Total(have + rest) >= Total(have) ==>
              Judge(have + rest, length) == NotSatisfiable
  {
  }

  /** Every printed list of ranges with at most a hundred non-empty ones is answered with exactly the non-empty clipped
      ranges in order, or as not satisfiable when there are none or they ask for more bytes than there are. */
  lemma PrintedRanges(ws: seq<Written>, length: Size)
    requires ws != [] && |Clipped(Specs(ws), length)| <= 100
    ensures var (verdict, ranges) := ParseHeader("bytes=" + Texts(ws), length);
            var want := Clipped(Specs(ws), length);
            if want == [] || Total(want) > length then verdict == NotSatisfiable
            else ranges == want && verdict == if |want| == 1 then SinglePart else MultiPart
  {
    hide Texts, Parse, Eval, Clipped, Specs;
    var s := "bytes=" + Texts(ws);
    TextsNotEmpty(ws);
    assert s[..6] == "bytes=";
    assert Stands(s, 6, Texts(ws));
    PrintedEvaluates(s, 6, ws, length, []);
    EvalMeans(Specs(ws), length, []);
    assert [] + Clipped(Specs(ws), length) == Clipped(Specs(ws), length);
  }

  lemma TextsNotEmpty(ws: seq<Written>)
    requires ws != []
    ensures Texts(ws) != ""
  {
    hide Decimal;
    assert |Body(ws[0].spec)| >= 1;
  }
}
