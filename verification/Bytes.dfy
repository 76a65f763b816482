/** Byte strings as the parsers see them: searching for a substring or a character, what a search finds when bytes
    arrive later, decimal and hexadecimal numbers, and the C conversions from text that the parsers use on lengths,
    status codes and chunk sizes. */
module Bytes {

  datatype Option<+T> = None | Some(value: T)

  const CRLF: string := "\r\n"

  /** `p` occurs in `s` at index `i`. */
  predicate At(s: string, p: string, i: int) {
    0 <= i <= |s| - |p| && s[i..i + |p|] == p
  }

  /** `std::string::find(p, from)`: the first occurrence at or after `from`, -1 for npos. */
  function FindFrom(s: string, p: string, from: nat): (r: int)
    ensures r < 0 ==> r == -1 && forall i | from <= i :: !At(s, p, i)
    ensures 0 <= r ==> from <= r && At(s, p, r) && forall i | from <= i < r :: !At(s, p, i)
    decreases |s| - from
  {
    if from + |p| > |s| then -1
    else if s[from..from + |p|] == p then from
    else FindFrom(s, p, from + 1)
  }

  function Find(s: string, p: string): (r: int)
    ensures r < 0 ==> r == -1 && forall i | 0 <= i :: !At(s, p, i)
    ensures 0 <= r ==> At(s, p, r) && forall i | 0 <= i < r :: !At(s, p, i)
  {
    FindFrom(s, p, 0)
  }

  /** An occurrence inside a prefix is an occurrence in the whole, and the other way round. */
  lemma AtPrefix(b: string, x: string, p: string, i: int)
    requires 0 <= i <= |b| - |p|
    ensures At(b + x, p, i) <==> At(b, p, i)
  {
    assert (b + x)[i..i + |p|] == b[i..i + |p|];
  }

  /** Bytes that arrive later do not move an occurrence already found. */
  lemma FindExtend(b: string, x: string, p: string)
    requires Find(b, p) >= 0
    ensures Find(b + x, p) == Find(b, p)
  {
    forall i | 0 <= i <= Find(b, p)
      ensures At(b + x, p, i) <==> At(b, p, i)
    {
      AtPrefix(b, x, p, i);
    }
  }

  /** Any prefix that still holds the whole occurrence gives the same answer. */
  lemma FindCut(b: string, p: string, n: nat)
    requires 0 <= Find(b, p) && Find(b, p) + |p| <= n <= |b|
    ensures Find(b[..n], p) == Find(b, p)
  {
    var k := Find(b, p);
    assert b == b[..n] + b[n..];
    forall i | 0 <= i <= k
      ensures At(b[..n], p, i) <==> At(b, p, i)
    {
      AtPrefix(b[..n], b[n..], p, i);
    }
  }

  /** A prefix that stops before the end of the first occurrence holds none. */
  lemma FindShort(b: string, p: string, n: nat)
    requires p != [] && 0 <= Find(b, p) && n < Find(b, p) + |p| && n <= |b|
    ensures Find(b[..n], p) == -1
  {
    assert b == b[..n] + b[n..];
    forall i | 0 <= i
      ensures !At(b[..n], p, i)
    {
      if At(b[..n], p, i) {
        AtPrefix(b[..n], b[n..], p, i);
      }
    }
  }

  /** With no occurrence in `b`, dropping all but the last |p| bytes of `b` before more bytes
      arrive loses no occurrence: the search just answers relative to the dropped bytes. */
  lemma FindAfterDrop(b: string, x: string, p: string, k: nat)
    requires Find(b, p) == -1 && k + |p| <= |b|
    ensures Find(b[k..] + x, p) == (if Find(b + x, p) < 0 then -1 else Find(b + x, p) - k)
    ensures Find(b + x, p) < 0 || k < Find(b + x, p)
  {
    var whole, rest := b + x, b[k..] + x;
    assert rest == whole[k..];
    forall i | 0 <= i <= |whole| - |p|
      ensures i <= k ==> !At(whole, p, i)
      ensures k <= i ==> (At(whole, p, i) <==> At(rest, p, i - k))
    {
      if i <= k {
        AtPrefix(b, x, p, i);
      }
      if k <= i {
      }
    }
    var f := Find(whole, p);
    if f >= 0 {
      assert At(rest, p, f - k);
    }
    var g := Find(rest, p);
    if g >= 0 {
      assert At(whole, p, g + k);
    }
  }

  /** The first occurrence is pinned down by being an occurrence with none before it. */
  lemma FindIs(s: string, p: string, k: nat)
    requires At(s, p, k) && forall i | 0 <= i < k :: !At(s, p, i)
    ensures Find(s, p) == k
  {
    var f := Find(s, p);
    assert f >= 0;
    assert !(f < k);
    assert !(k < f);
  }

  lemma FindFromIs(s: string, p: string, from: nat, k: nat)
    requires from <= k && At(s, p, k) && forall i | from <= i < k :: !At(s, p, i)
    ensures FindFrom(s, p, from) == k
  {
    var f := FindFrom(s, p, from);
    assert f >= 0 && !(f < k) && !(k < f);
  }

  lemma SingleAt(s: string, c: char, i: int)
    requires 0 <= i < |s|
    ensures At(s, [c], i) <==> s[i] == c
  {
    assert s[i..i + 1] == [s[i]];
  }

  /** A character behind a text that does not hold it. */
  lemma CharFound(before: string, t: string, c: char, rest: string)
    requires c !in t
    ensures var s := before + (t + [c] + rest);
            FindFrom(s, [c], |before|) == |before| + |t| && s[|before|..|before| + |t|] == t
  {
    hide FindFrom, At;
    var s, from := before + (t + [c] + rest), |before|;
    CharBehind(before, t, c, rest);
    SingleAt(s, c, from + |t|);
    forall i | from <= i < from + |t|
      ensures !At(s, [c], i)
    {
      SingleAt(s, c, i);
    }
    FindFromIs(s, [c], from, from + |t|);
  }

  lemma CharBehind(before: string, t: string, c: char, rest: string)
    requires c !in t
    ensures var s, from := before + (t + [c] + rest), |before|;
            s[from..from + |t|] == t && s[from + |t|] == c && forall i | from <= i < from + |t| :: s[i] != c
  {
    var s, from := before + (t + [c] + rest), |before|;
    forall i | from <= i < from + |t|
      ensures s[i] != c
    {
      assert s[i] == t[i - from];
    }
  }

  lemma Regroup<T>(a: seq<T>, b: seq<T>, c: seq<T>)
    ensures (a + b) + c == a + (b + c)
  {
  }

  predicate CrlfAt(s: string, i: int) {
    0 <= i < |s| - 1 && s[i] == '\r' && s[i + 1] == '\n'
  }

  lemma AtCrlf(s: string, i: int)
    ensures At(s, CRLF, i) <==> CrlfAt(s, i)
  {
    if 0 <= i < |s| - 1 {
      assert s[i..i + 2] == [s[i], s[i + 1]];
      assert CRLF == ['\r', '\n'];
    }
  }

  /** Holds no CRLF. */
  predicate OneLine(s: string) {
    forall i | 0 <= i < |s| :: !CrlfAt(s, i)
  }

  /** The first CRLF behind a line without one is the one that ends it. */
  lemma LineFound(line: string, rest: string)
    requires OneLine(line)
    ensures Find(line + CRLF + rest, CRLF) == |line|
  {
    var all := line + CRLF + rest;
    AtCrlf(all, |line|);
    forall i | 0 <= i < |line|
      ensures !At(all, CRLF, i)
    {
      AtCrlf(all, i);
      assert !CrlfAt(line, i);
      assert all[i] == line[i];
    }
    FindIs(all, CRLF, |line|);
  }

  /** Joining two texts without CRLF makes none when the seam is not \r|\n. */
  lemma OneLineJoin(a: string, b: string)
    requires OneLine(a) && OneLine(b)
    requires a == "" || b == "" || a[|a| - 1] != '\r' || b[0] != '\n'
    ensures OneLine(a + b)
  {
    forall i | 0 <= i < |a + b|
      ensures !CrlfAt(a + b, i)
    {
      if i < |a| {
        assert !CrlfAt(a, i);
      } else {
        assert !CrlfAt(b, i - |a|);
      }
    }
  }

  // ----- <cctype> in the C locale -----

  function Lower(c: char): char {
    if 'A' <= c <= 'Z' then c - 'A' + 'a' else c
  }

  function LowerAll(s: string): (r: string)
    ensures |r| == |s| && forall i | 0 <= i < |s| :: r[i] == Lower(s[i])
  {
    if s == [] then [] else [Lower(s[0])] + LowerAll(s[1..])
  }

  predicate IsSpace(c: char) {
    c == ' ' || c == '\t' || c == '\n' || c == '\r' || c == 11 as char || c == 12 as char
  }

  function TrimLeft(s: string): (r: string)
    ensures |r| <= |s|
  {
    if s != [] && IsSpace(s[0]) then TrimLeft(s[1..]) else s
  }

  function TrimRight(s: string): string {
    if s != [] && IsSpace(s[|s| - 1]) then TrimRight(s[..|s| - 1]) else s
  }

  const UPPER: string := "ABCDEFGHIJKLMNOPQRSTUVWXYZ"
  const LOWER: string := "abcdefghijklmnopqrstuvwxyz"

  /** tolower takes each letter to its lower-case one and leaves every other character alone. */
  lemma LowerLetters(c: char)
    ensures (exists i | 0 <= i < 26 :: UPPER[i] == c && Lower(c) == LOWER[i]) || (c !in UPPER && Lower(c) == c)
  {
    if 'A' <= c <= 'Z' {
      Letters((c - 'A') as nat);
      assert UPPER[(c - 'A') as nat] == c;
    } else {
      forall i | 0 <= i < 26
        ensures UPPER[i] != c
      {
        Letters(i);
      }
    }
  }

  lemma Letters(i: nat)
    requires i < 26
    ensures UPPER[i] == 'A' + i as char && LOWER[i] == 'a' + i as char
  {
  }

  /** isspace: the blank and the five control characters from tab to carriage return. */
  lemma SpaceCodes(c: char)
    ensures IsSpace(c) <==> c == ' ' || 9 <= c as int <= 13
  {
  }

  predicate StartsWith(a: string, b: string) {
    |a| >= |b| && a[..|b|] == b
  }

  predicate StartsWithIgnoreCase(a: string, b: string) {
    |a| >= |b| && LowerAll(a[..|b|]) == LowerAll(b)
  }

  lemma StartsWithItself(a: string)
    ensures StartsWithIgnoreCase(a, a)
  {
    assert a[..|a|] == a;
  }

  lemma DiffersAt(a: string, b: string, i: nat)
    requires i < |b| <= |a| && Lower(a[i]) != Lower(b[i])
    ensures !StartsWithIgnoreCase(a, b)
  {
    assert LowerAll(a[..|b|])[i] == Lower(a[i]);
    assert LowerAll(b)[i] == Lower(b[i]);
  }

  // ----- strtoull -----

  const SIZE_MAX: nat := 0xFFFF_FFFF_FFFF_FFFF

  /** Value of a digit character in base 16, 16 when it is no digit. */
  function DigitValue(c: char): (d: nat)
    ensures d <= 16
  {
    if '0' <= c <= '9' then (c - '0') as nat
    else if 'a' <= c <= 'f' then (c - 'a') as nat + 10
    else if 'A' <= c <= 'F' then (c - 'A') as nat + 10
    else 16
  }

  /** The digits in their order, in either case; nothing else is one. */
  lemma DigitsOrdered(c: char, i: nat)
    requires i < 16
    ensures c == "0123456789abcdef"[i] || c == "0123456789ABCDEF"[i] <==> DigitValue(c) == i
  {
  }

  /** Length of the run of base-`base` digits at the front of `s`. */
  function DigitRun(s: string, base: nat): (n: nat)
    requires base <= 16
    ensures n <= |s| && forall i | 0 <= i < n :: DigitValue(s[i]) < base
    ensures n < |s| ==> DigitValue(s[n]) >= base
  {
    if s != [] && DigitValue(s[0]) < base then 1 + DigitRun(s[1..], base) else 0
  }

  /** Value of a run of digits, most significant first. */
  function Value(s: string, base: nat): nat
    requires forall i | 0 <= i < |s| :: DigitValue(s[i]) < base
  {
    if s == [] then 0
    else
      var front := Value(s[..|s| - 1], base);
      ProductNotNegative(front, base);
      front * base + DigitValue(s[|s| - 1])
  }

  lemma ProductNotNegative(a: nat, b: nat)
    ensures a * b >= 0
  {
  }

  /** What `strtoull` leaves behind: the value, where parsing ended, and ERANGE. */
  datatype Number = Number(value: nat, end: nat, range: bool)

  /** `std::strtoull(s, &end, base)` for base 10 and 16:
      leading blanks, an optional sign (which negates modulo 2^64), an optional 0x, digits. */
  function StrToULL(s: string, base: nat): (n: Number)
    requires base == 10 || base == 16
    ensures n.end <= |s| && n.value <= SIZE_MAX
  {
    var blanks := |s| - |TrimLeft(s)|;
    var sign := if blanks < |s| && (s[blanks] == '-' || s[blanks] == '+') then 1 else 0;
    var at := blanks + sign;
    var hex := if base == 16 && at + 2 < |s| && s[at] == '0' && (s[at + 1] == 'x' || s[at + 1] == 'X')
                  && DigitValue(s[at + 2]) < 16 then 2 else 0;
    var run := DigitRun(s[at + hex..], base);
    var digits := s[at + hex..][..run];
    var v := Value(digits, base);
    if run == 0 then Number(0, 0, false)
    else if v > SIZE_MAX then Number(SIZE_MAX, at + hex + run, true)
    else if sign == 1 && s[blanks] == '-' && v != 0 then Number(SIZE_MAX + 1 - v, at + hex + run, false)
    else Number(v, at + hex + run, false)
  }

  /** Decimal digits of `n`, `std::to_string`. */
  function Decimal(n: nat): (s: string)
    ensures s != []
  {
    if n < 10 then [DigitChar(n)] else Decimal(n / 10) + [DigitChar(n % 10)]
  }

  /** The hexadecimal digit printf's %x prints for `d`. */
  function DigitChar(d: nat): (c: char)
    requires d < 16
    ensures DigitValue(c) == d
  {
    if d < 10 then '0' + d as char else 'a' + (d - 10) as char
  }

  lemma {:induction false} AllDigits(s: string, base: nat)
    requires base <= 16 && forall i | 0 <= i < |s| :: DigitValue(s[i]) < base
    ensures DigitRun(s, base) == |s|
  {
    if s != "" {
      AllDigits(s[1..], base);
    }
  }

  /** Digits without blank, sign or prefix are read as the number they spell. */
  lemma PlainDigits(s: string, base: nat)
    requires base == 10 || base == 16
    requires s != "" && forall i | 0 <= i < |s| :: DigitValue(s[i]) < base
    requires !IsSpace(s[0]) && s[0] != '-' && s[0] != '+'
    requires base == 16 && |s| > 1 ==> s[1] != 'x' && s[1] != 'X'
    ensures Value(s, base) <= SIZE_MAX ==> StrToULL(s, base) == Number(Value(s, base), |s|, false)
  {
    hide DigitValue, IsSpace, Value, DigitRun;
    assert TrimLeft(s) == s;
    assert s[0..] == s && s[..|s|] == s;
    AllDigits(s, base);
  }

  lemma {:induction false} DecimalDigits(n: nat)
    ensures forall i | 0 <= i < |Decimal(n)| :: DigitValue(Decimal(n)[i]) < 10
    ensures Value(Decimal(n), 10) == n
  {
    if n >= 10 {
      DecimalDigits(n / 10);
      var d := Decimal(n);
      assert d[..|d| - 1] == Decimal(n / 10) && d[|d| - 1] == DigitChar(n % 10);
    } else {
      assert Decimal(n)[..0] == "" && Value("", 10) == 0;
    }
  }

  lemma DigitIsPlain(c: char)
    requires DigitValue(c) < 10
    ensures !IsSpace(c) && c != '-' && c != '+' && c != '\r' && c != ' '
  {
  }
}
