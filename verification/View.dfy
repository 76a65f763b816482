/** The template compiler of drogon_ctl (create_view): a line of a template becomes C++ statements that print it, with
    their string literals as they stand in the generated source; running them decodes those. Lines of C++ blocks become
    code as they are, but for two marks. */
module View {
  import opened Bytes

  const CXX_BEGIN: string := "<%c++"
  const CXX_END: string := "%>"
  const VAL_BEGIN: string := "[["
  const VAL_END: string := "]]"
  const VIEW_BEGIN: string := "<%view"
  const VIEW_END: string := "%>"

  /** A generated statement; literals are the characters between the quotes. */
  datatype Stmt =
    | Write(literal: string)
    | WriteVal(keyLiteral: string)    // outputVal
    | WriteView(nameLiteral: string)  // outputSubView
    | Cxx(code: string)               // a line of a C++ block

  /** Names of the output stream and of the view data in the generated code. */
  datatype Naming = Naming(stream: string, data: string)

  type Names = n: Naming | n.stream != "" && n.data != "" witness Naming("out", "data")

  // ----- replace_all -----

  /** replace_all from `pos` on; the search goes on one character behind the replaced text's length difference. */
  function ReplaceFrom(s: string, was: string, now: string, pos: nat): string
    requires 0 < |was| <= |now| + 1
    decreases |s| - pos
  {
    var p := FindFrom(s, was, pos);
    if p < 0 then s
    else ReplaceFrom(s[..p] + now + s[p + |was|..], was, now, p + |now| - |was| + 1)
  }

  method ReplaceAll(str: string, was: string, now: string) returns (r: string)
    requires 0 < |was| <= |now| + 1
    ensures r == ReplaceFrom(str, was, now, 0)
  {
    hide ReplaceFrom, FindFrom;
    r := str;
    var pos: nat := 0;
    while true
      invariant ReplaceFrom(r, was, now, pos) == ReplaceFrom(str, was, now, 0)
      decreases |r| - pos
    {
      var p := FindFrom(r, was, pos);
      ReplaceNext(r, was, now, pos);
      if p < 0 {
        return;
      }
      r := r[..p] + now + r[p + |was|..];
      pos := p + |now| - |was| + 1;
    }
  }

  lemma ReplaceNext(s: string, was: string, now: string, pos: nat)
    requires 0 < |was| <= |now| + 1
    ensures var p := FindFrom(s, was, pos);
            ReplaceFrom(s, was, now, pos) ==
            if p < 0 then s
            else ReplaceFrom(s[..p] + now + s[p + |was|..], was, now, p + |now| - |was| + 1)
  {
    hide FindFrom;
  }

  /** Every `c` becomes `now`. */
  function Substitute(s: string, c: char, now: string): string {
    if s == "" then "" else (if s[0] == c then now else [s[0]]) + Substitute(s[1..], c, now)
  }

  lemma {:induction false} SubstituteNone(s: string, c: char, now: string)
    requires forall i | 0 <= i < |s| :: s[i] != c
    ensures Substitute(s, c, now) == s
  {
    if s != "" {
      SubstituteNone(s[1..], c, now);
    }
  }

  lemma {:induction false} SubstituteConcat(a: string, b: string, c: char, now: string)
    ensures Substitute(a + b, c, now) == Substitute(a, c, now) + Substitute(b, c, now)
  {
    if a == "" {
      assert a + b == b;
    } else {
      assert (a + b)[1..] == a[1..] + b;
      SubstituteConcat(a[1..], b, c, now);
    }
  }

  /** For a single character the loop replaces every occurrence, once. */
  lemma {:induction false} ReplaceIsSubstitute(s: string, c: char, now: string, pos: nat)
    requires pos <= |s| && now != ""
    ensures ReplaceFrom(s, [c], now, pos) == s[..pos] + Substitute(s[pos..], c, now)
    decreases |s| - pos
  {
    hide Substitute;
    var p := FindFrom(s, [c], pos);
    if p < 0 {
      NoneFrom(s, c, now, pos);
    } else {
      OneFrom(s, c, pos);
      ReplaceOne(s, c, now, pos, p);
      hide FindFrom;
      ReplaceIsSubstitute(s[..p] + now + s[p + 1..], c, now, p + |now|);
    }
  }

  lemma NoneFrom(s: string, c: char, now: string, pos: nat)
    requires pos <= |s| && FindFrom(s, [c], pos) < 0
    ensures s == s[..pos] + Substitute(s[pos..], c, now)
  {
    forall i | pos <= i < |s|
      ensures s[i] != c
    {
      SingleAt(s, c, i);
    }
    SubstituteNone(s[pos..], c, now);
    assert s == s[..pos] + s[pos..];
  }

  lemma OneFrom(s: string, c: char, pos: nat)
    requires pos <= |s| && FindFrom(s, [c], pos) >= 0
    ensures var p := FindFrom(s, [c], pos); pos <= p < |s| && s[p] == c && forall i | pos <= i < p :: s[i] != c
  {
    var p := FindFrom(s, [c], pos);
    SingleAt(s, c, p);
    forall i | pos <= i < p
      ensures s[i] != c
    {
      SingleAt(s, c, i);
    }
  }

  lemma ReplaceOne(s: string, c: char, now: string, pos: nat, p: nat)
    requires pos <= p < |s| && s[p] == c && (forall i | pos <= i < p :: s[i] != c)
    ensures s[..pos] + Substitute(s[pos..], c, now) == (s[..p] + now) + Substitute(s[p + 1..], c, now)
  {
    var gap, rest := s[pos..p], s[p..];
    assert s[pos..] == gap + rest && rest[1..] == s[p + 1..] && rest[0] == c;
    SubstituteConcat(gap, rest, c, now);
    SubstituteNone(gap, c, now);
    assert s[..p] == s[..pos] + gap;
  }

  // ----- string literals -----

  function Escape(s: string): string {
    ReplaceFrom(ReplaceFrom(s, "\\", "\\\\", 0), "\"", "\\\"", 0)
  }

  /** What a C++ string literal with these characters between its quotes stands for; None if it is not one. */
  function Decode(literal: string): Option<string> {
    if literal == "" then Some("")
    else if literal[0] == '\"' then None
    else if literal[0] != '\\' then Prepend(literal[0], Decode(literal[1..]))
    else if |literal| < 2 then None
    else if literal[1] == '\\' || literal[1] == '\"' then Prepend(literal[1], Decode(literal[2..]))
    else if literal[1] == 'n' then Prepend('\n', Decode(literal[2..]))
    else None
  }

  function Prepend(c: char, s: Option<string>): Option<string> {
    if s.Some? then Some([c] + s.value) else None
  }

  function EscapeChar(c: char): string {
    if c == '\\' then "\\\\" else if c == '\"' then "\\\"" else [c]
  }

  function EscapeEach(s: string): string {
    if s == "" then "" else EscapeChar(s[0]) + EscapeEach(s[1..])
  }

  /** The two passes together escape each character once. */
  lemma {:induction false} TwoPasses(s: string)
    ensures Substitute(Substitute(s, '\\', "\\\\"), '\"', "\\\"") == EscapeEach(s)
  {
    if s != "" {
      var first := if s[0] == '\\' then "\\\\" else [s[0]];
      var rest := Substitute(s[1..], '\\', "\\\\");
      SubstituteConcat(first, rest, '\"', "\\\"");
      TwoPasses(s[1..]);
      if s[0] == '\"' {
        assert [s[0]][1..] == "";
        assert Substitute([s[0]], '\"', "\\\"") == "\\\"" + Substitute("", '\"', "\\\"");
      } else {
        SubstituteNone(first, '\"', "\\\"");
      }
    }
  }

  lemma EscapeIsEach(s: string)
    ensures Escape(s) == EscapeEach(s)
  {
    ReplaceIsSubstitute(s, '\\', "\\\\", 0);
    var once := Substitute(s, '\\', "\\\\");
    assert s[..0] == "" && s[0..] == s && "" + once == once;
    ReplaceIsSubstitute(once, '\"', "\\\"", 0);
    assert once[..0] == "" && once[0..] == once;
    TwoPasses(s);
  }

  /** Decoding undoes escaping, in front of whatever follows in the literal. */
  lemma {:induction false} DecodeEscaped(s: string, rest: string)
    requires Decode(rest).Some?
    ensures Decode(Escape(s) + rest) == Some(s + Decode(rest).value)
  {
    EscapeIsEach(s);
    hide Decode, Escape;
    if s == "" {
      assert "" + rest == rest && "" + Decode(rest).value == Decode(rest).value;
    } else {
      DecodeEscaped(s[1..], rest);
      EscapeIsEach(s[1..]);
      var tail := EscapeEach(s[1..]) + rest;
      assert EscapeEach(s) + rest == EscapeChar(s[0]) + tail;
      DecodeChar(s[0], tail);
      assert [s[0]] + (s[1..] + Decode(rest).value) == s + Decode(rest).value;
    }
  }

  lemma DecodeChar(c: char, tail: string)
    requires Decode(tail).Some?
    ensures Decode(EscapeChar(c) + tail) == Some([c] + Decode(tail).value)
  {
    var l := EscapeChar(c) + tail;
    if c == '\\' || c == '\"' {
      assert l[2..] == tail;
    } else {
      assert l[1..] == tail;
    }
  }

  // ----- the compiler -----

  function StripCR(line: string): string {
    if line != "" && line[|line| - 1] == '\r' then line[..|line| - 1] else line
  }

  function SkipSpaces(s: string): (r: string)
    ensures |r| <= |s|
  {
    if s != "" && s[0] == ' ' then SkipSpaces(s[1..]) else s
  }

  function ToSpace(s: string): string {
    if s != "" && s[0] != ' ' then [s[0]] + ToSpace(s[1..]) else ""
  }

  /** The name inside a tag. */
  function Key(inner: string): string { ToSpace(SkipSpaces(inner)) }

  function CxxLine(line: string, names: Names): seq<Stmt>
  {
    if line == "" then []
    else [Cxx(ReplaceFrom(ReplaceFrom(line, "$$", names.stream, 0), "@@", names.data, 0))]
  }

  /** Statements and whether a C++ block is open; None for a format error, on which the program exits. */
  datatype Code = Code(stmts: seq<Stmt>, cxx: bool)

  function Then(a: Option<Code>, stmts: seq<Stmt>, b: Option<Code>): Option<Code> {
    if a.Some? && b.Some? then Some(Code(a.value.stmts + stmts + b.value.stmts, b.value.cxx)) else None
  }

  /** parseLine; `ret` is returnFlag. */
  function Compile(line: string, cxx: bool, ret: bool, names: Names): Option<Code>
    decreases |line|, 1
  {
    var l := StripCR(line);
    if l == "" then Some(Code(if ret && !cxx then [Write("\\n")] else [], cxx))
    else if cxx then BlockCode(l, ret, names)
    else if Find(l, CXX_BEGIN) >= 0 then OpenCode(l, ret, names)
    else if Find(l, VAL_BEGIN) >= 0 then TagCode(l, Find(l, VAL_BEGIN), true, ret, names)
    else if Find(l, VIEW_BEGIN) >= 0 then TagCode(l, Find(l, VIEW_BEGIN), false, ret, names)
    else Some(Code([Write(Escape(l) + if ret then "\\n" else "")], false))
  }

  /** A line, or the rest of one, inside a C++ block. */
  function BlockCode(l: string, ret: bool, names: Names): Option<Code>
    decreases |l|, 0
  {
    var pos := Find(l, CXX_END);
    if pos < 0 then Some(Code(CxxLine(l, names), true))
    else if l[pos + 2..] == "" then Some(Code(CxxLine(l[..pos], names), false))
    else Then(Some(Code([], true)), CxxLine(l[..pos], names), Compile(l[pos + 2..], false, ret, names))
  }

  /** A line on which a C++ block begins. */
  function OpenCode(l: string, ret: bool, names: Names): Option<Code>
    requires Find(l, CXX_BEGIN) >= 0
    decreases |l|, 0
  {
    var pos := Find(l, CXX_BEGIN);
    var before := if pos > 0 then Compile(l[..pos], false, false, names) else Some(Code([], false));
    var tail := l[pos + 5..];
    Then(before, [], if tail != "" then Compile(tail, true, ret, names) else Some(Code([], true)))
  }

  function Opening(isVal: bool): string { if isVal then VAL_BEGIN else VIEW_BEGIN }

  function Closing(isVal: bool): string { if isVal then VAL_END else VIEW_END }

  function TagStmt(isVal: bool, key: string): Stmt { if isVal then WriteVal(key) else WriteView(key) }

  /** A line cut at the tag that opens at `pos`. */
  function TagCode(l: string, pos: nat, isVal: bool, ret: bool, names: Names): Option<Code>
    requires pos + |Opening(isVal)| <= |l|
    decreases |l|, 0
  {
    var before := Compile(l[..pos], false, false, names);
    var tail := l[pos + |Opening(isVal)|..];
    var end := Find(tail, Closing(isVal));
    if before.None? || end < 0 then None
    else Then(before, [TagStmt(isVal, Key(tail[..end]))], Compile(tail[end + 2..], before.value.cxx, ret, names))
  }

  // ----- running the statements -----

  /** The data of a view: what a key prints, and what the sub-views print. */
  datatype Env = Env(vals: map<string, string>, views: map<string, string>)

  function Lookup(m: map<string, string>, k: string): string { if k in m then m[k] else "" }

  /** What a statement prints; None for a literal that is none, and for C++ blocks, which this model does not run. */
  function Printed(stmt: Stmt, env: Env): Option<string> {
    match stmt
    case Write(literal) => Decode(literal)
    case WriteVal(literal) => if Decode(literal).Some? then Some(Lookup(env.vals, Decode(literal).value)) else None
    case WriteView(literal) => if Decode(literal).Some? then Some(Lookup(env.views, Decode(literal).value)) else None
    case Cxx(_) => None
  }

  function Run(stmts: seq<Stmt>, env: Env): Option<string> {
    if stmts == [] then Some("")
    else
      var first, rest := Printed(stmts[0], env), Run(stmts[1..], env);
      if first.Some? && rest.Some? then Some(first.value + rest.value) else None
  }

  // ----- what a line means -----

  datatype Tag = Val(inner: string) | SubView(inner: string)

  /** A text and the tag behind it. */
  datatype Part = Part(text: string, tag: Tag)

  function TagText(tag: Tag): string {
    match tag
    case Val(inner) => VAL_BEGIN + inner + VAL_END
    case SubView(inner) => VIEW_BEGIN + inner + VIEW_END
  }

  /** The line as written: texts with their tags, and a last text. */
  function Source(parts: seq<Part>, last: string): string {
    if parts == [] then last else parts[0].text + TagText(parts[0].tag) + Source(parts[1..], last)
  }

  function TagValue(tag: Tag, env: Env): string {
    match tag
    case Val(inner) => Lookup(env.vals, Key(inner))
    case SubView(inner) => Lookup(env.views, Key(inner))
  }

  /** The line as it must come out: texts unchanged, tags replaced. */
  function Rendered(parts: seq<Part>, last: string, env: Env): string {
    if parts == [] then last else parts[0].text + TagValue(parts[0].tag, env) + Rendered(parts[1..], last, env)
  }

  /** No two `c` in a row. */
  predicate NoDouble(s: string, c: char) {
    forall i | 0 <= i < |s| - 1 :: !(s[i] == c && s[i + 1] == c)
  }

  predicate EndsWith(s: string, c: char) { s != "" && s[|s| - 1] == c }

  predicate PlainText(s: string) { NoDouble(s, '[') && Find(s, VIEW_BEGIN) < 0 }

  /** Names that need no escaping. */
  predicate PlainKey(k: string) { forall i | 0 <= i < |k| :: k[i] != '\"' && k[i] != '\\' }

  predicate WellFormedTag(tag: Tag) {
    PlainKey(Key(tag.inner)) &&
    match tag
    case Val(inner) => NoDouble(inner, ']') && !EndsWith(inner, ']')
    case SubView(inner) => Find(inner, VIEW_END) < 0 && NoDouble(inner, '[')
  }

  /** Texts hold no tag opening and do not run into one; tags hold no closing of their own. */
  predicate WellFormed(parts: seq<Part>, last: string) {
    PlainText(last) &&
    forall i | 0 <= i < |parts| ::
      PlainText(parts[i].text) && WellFormedTag(parts[i].tag) && (parts[i].tag.Val? ==> !EndsWith(parts[i].text, '['))
  }

  // ----- searching written lines -----

  lemma DoubleAt(s: string, c: char, i: int)
    ensures At(s, [c, c], i) <==> 0 <= i < |s| - 1 && s[i] == c && s[i + 1] == c
  {
    if 0 <= i < |s| - 1 {
      assert s[i..i + 2] == [s[i], s[i + 1]];
    }
  }

  lemma FindNoDouble(s: string, c: char)
    requires NoDouble(s, c)
    ensures Find(s, [c, c]) < 0
  {
    var f := Find(s, [c, c]);
    DoubleAt(s, c, f);
  }

  /** The doubled character behind a text that neither holds it nor runs into it. */
  lemma FindDouble(t: string, c: char, x: string)
    requires NoDouble(t, c) && !EndsWith(t, c)
    ensures Find(t + [c, c] + x, [c, c]) == |t|
  {
    var s := t + [c, c] + x;
    DoubleAt(s, c, |t|);
    forall i | 0 <= i < |t|
      ensures !At(s, [c, c], i)
    {
      DoubleAt(s, c, i);
      assert s[i] == t[i] && (i + 1 < |t| ==> s[i + 1] == t[i + 1]);
    }
    FindIs(s, [c, c], |t|);
  }

  /** A pattern whose first character does not come again in it, behind a text that does not hold it. */
  lemma FindBorderless(t: string, p: string, x: string)
    requires p != "" && (forall k | 0 < k < |p| :: p[k] != p[0]) && Find(t, p) < 0
    ensures Find(t + p + x, p) == |t|
  {
    var s := t + p + x;
    assert s[|t|..|t| + |p|] == p;
    forall i | 0 <= i < |t|
      ensures !At(s, p, i)
    {
      if i + |p| <= |t| {
        assert s == t + (p + x);
        AtPrefix(t, p + x, p, i);
      } else {
        var k := |t| - i;
        assert p[k] != p[0] == s[i + k];
      }
    }
    FindIs(s, p, |t|);
  }

  lemma NoDoubleJoin(a: string, b: string, c: char)
    requires NoDouble(a, c) && NoDouble(b, c) && !(EndsWith(a, c) && b != "" && b[0] == c)
    ensures NoDouble(a + b, c)
  {
    var s := a + b;
    forall i | 0 <= i < |s| - 1
      ensures !(s[i] == c && s[i + 1] == c)
    {
      if i + 1 < |a| {
        assert s[i] == a[i] && s[i + 1] == a[i + 1];
      } else if i >= |a| {
        assert s[i] == b[i - |a|] && s[i + 1] == b[i + 1 - |a|];
      }
    }
  }

  predicate ViewsOnly(parts: seq<Part>) { forall i | 0 <= i < |parts| :: parts[i].tag.SubView? }

  lemma ViewTextNoDouble(inner: string)
    requires NoDouble(inner, '[')
    ensures NoDouble(TagText(SubView(inner)), '[')
    ensures TagText(SubView(inner))[0] == '<' && EndsWith(TagText(SubView(inner)), '>')
  {
    NoDoubleJoin(VIEW_BEGIN, inner, '[');
    NoDoubleJoin(VIEW_BEGIN + inner, VIEW_END, '[');
  }

  /** Without value tags there is no [[ in the line. */
  lemma {:induction false} NoBrackets(parts: seq<Part>, last: string)
    requires WellFormed(parts, last) && ViewsOnly(parts)
    ensures NoDouble(Source(parts, last), '[') && (EndsWith(Source(parts, last), '[') ==> EndsWith(last, '['))
  {
    if parts != [] {
      var tag := TagText(parts[0].tag);
      NoBrackets(parts[1..], last);
      ViewTextNoDouble(parts[0].tag.inner);
      NoDoubleJoin(parts[0].text, tag, '[');
      NoDoubleJoin(parts[0].text + tag, Source(parts[1..], last), '[');
    }
  }

  lemma {:induction false} SourceSplit(parts: seq<Part>, last: string, m: nat)
    requires m < |parts|
    ensures Source(parts, last) ==
            Source(parts[..m], parts[m].text) + TagText(parts[m].tag) + Source(parts[m + 1..], last)
  {
    hide TagText;
    if m > 0 {
      SourceSplit(parts[1..], last, m - 1);
      assert parts[1..][..m - 1] == parts[..m][1..] && parts[1..][m..] == parts[m + 1..];
      Rearrange(parts[0].text + TagText(parts[0].tag), Source(parts[..m][1..], parts[m].text),
              TagText(parts[m].tag), Source(parts[m + 1..], last));
    }
  }

  lemma {:induction false} RenderedSplit(parts: seq<Part>, last: string, m: nat, env: Env)
    requires m < |parts|
    ensures Rendered(parts, last, env) ==
            Rendered(parts[..m], parts[m].text, env) + TagValue(parts[m].tag, env) + Rendered(parts[m + 1..], last, env)
  {
    hide TagValue;
    if m > 0 {
      RenderedSplit(parts[1..], last, m - 1, env);
      assert parts[1..][..m - 1] == parts[..m][1..] && parts[1..][m..] == parts[m + 1..];
      Rearrange(parts[0].text + TagValue(parts[0].tag, env), Rendered(parts[..m][1..], parts[m].text, env),
              TagValue(parts[m].tag, env), Rendered(parts[m + 1..], last, env));
    }
  }

  lemma Rearrange(a: string, b: string, c: string, d: string)
    ensures a + (b + c + d) == (a + b) + c + d
  {
  }

  // ----- compiling preserves meaning -----

  /** No carriage return and no C++ block. */
  predicate Clean(line: string) { '\r' !in line && Find(line, CXX_BEGIN) < 0 }

  lemma CleanPiece(a: string, b: string, c: string)
    requires Clean(a + b + c)
    ensures Clean(a) && Clean(c)
  {
    var line := a + b + c;
    assert line == a + (b + c);
    forall i | 0 <= i
      ensures !At(a, CXX_BEGIN, i) && !At(c, CXX_BEGIN, i)
    {
      if i <= |a| - 5 {
        AtPrefix(a, b + c, CXX_BEGIN, i);
        assert !At(line, CXX_BEGIN, i);
      }
      if i <= |c| - 5 {
        var j := |a + b| + i;
        assert line[j..j + 5] == c[i..i + 5];
        assert !At(line, CXX_BEGIN, j);
      }
    }
    assert forall k | 0 <= k < |a| :: a[k] == line[k];
    assert forall k | 0 <= k < |c| :: c[k] == line[|a + b| + k];
  }

  lemma {:induction false} RunConcat(a: seq<Stmt>, b: seq<Stmt>, env: Env)
    requires Run(a, env).Some? && Run(b, env).Some?
    ensures Run(a + b, env) == Some(Run(a, env).value + Run(b, env).value)
    decreases |a|
  {
    hide Printed;
    if a == [] {
      assert a + b == b && "" + Run(b, env).value == Run(b, env).value;
    } else {
      assert (a + b)[0] == a[0] && (a + b)[1..] == a[1..] + b;
      RunConcat(a[1..], b, env);
      var first := Printed(a[0], env).value;
      assert first + (Run(a[1..], env).value + Run(b, env).value) ==
             (first + Run(a[1..], env).value) + Run(b, env).value;
    }
  }

  lemma {:induction false} DecodePlain(k: string)
    requires PlainKey(k)
    ensures Decode(k) == Some(k)
  {
    if k != "" {
      DecodePlain(k[1..]);
      assert [k[0]] + k[1..] == k;
    }
  }

  lemma RunOne(stmt: Stmt, env: Env)
    requires Printed(stmt, env).Some?
    ensures Run([stmt], env) == Printed(stmt, env)
  {
    hide Printed;
    assert [stmt][1..] == [] && [stmt][0] == stmt;
    assert Printed(stmt, env).value + "" == Printed(stmt, env).value;
  }

  function Tail(ret: bool): string { if ret then "\n" else "" }

  /** The compiled code of a line prints what the line means. */
  ghost predicate Prints(code: Option<Code>, text: string, env: Env) {
    code.Some? && !code.value.cxx && Run(code.value.stmts, env) == Some(text)
  }

  lemma TextPrints(text: string, ret: bool, names: Names, env: Env)
    requires Clean(text) && PlainText(text)
    ensures Prints(Compile(text, false, ret, names), text + Tail(ret), env)
  {
    FindNoDouble(text, '[');
    assert VAL_BEGIN == ['[', '['];
    NewlineDecodes();
    if text == "" {
      RunOne(Write("\\n"), env);
      assert "" + Tail(ret) == Tail(ret);
    } else {
      hide Escape;
      assert text[|text| - 1] in text;
      var end := if ret then "\\n" else "";
      DecodeEscaped(text, end);
      RunOne(Write(Escape(text) + end), env);
    }
  }

  lemma NewlineDecodes()
    ensures Decode("\\n") == Some("\n") && Decode("") == Some("")
  {
    assert "\\n"[2..] == "";
    assert ['\n'] + "" == "\n";
  }

  lemma TagPrints(tag: Tag, env: Env)
    requires PlainKey(Key(tag.inner))
    ensures var stmt := match tag case Val(i) => WriteVal(Key(i)) case SubView(i) => WriteView(Key(i));
            Run([stmt], env) == Some(TagValue(tag, env))
  {
    hide Key;
    DecodePlain(Key(tag.inner));
    var stmt := match tag case Val(i) => WriteVal(Key(i)) case SubView(i) => WriteView(Key(i));
    RunOne(stmt, env);
  }

  /** Code before a tag, the tag, and code behind it. */
  lemma ThenPrints(a: Option<Code>, stmt: Stmt, b: Option<Code>, before: string, value: string, behind: string,
                   env: Env)
    requires Prints(a, before, env) && Run([stmt], env) == Some(value) && Prints(b, behind, env)
    ensures Prints(Then(a, [stmt], b), before + value + behind, env)
  {
    hide Run, Printed;
    RunConcat(a.value.stmts, [stmt], env);
    RunConcat(a.value.stmts + [stmt], b.value.stmts, env);
  }

  /** The line of a tag: where it starts and what is behind its opening. */
  lemma ValFound(before: string, inner: string, behind: string)
    requires NoDouble(before, '[') && !EndsWith(before, '[') && NoDouble(inner, ']') && !EndsWith(inner, ']')
    ensures var line, tail := before + TagText(Val(inner)) + behind, inner + VAL_END + behind;
            && Find(line, VAL_BEGIN) == |before| && line[..|before|] == before && line[|before| + 2..] == tail
            && Find(tail, VAL_END) == |inner| && tail[..|inner|] == inner && tail[|inner| + 2..] == behind
  {
    var line := before + TagText(Val(inner)) + behind;
    var tail := inner + VAL_END + behind;
    assert VAL_BEGIN == ['[', '['] && VAL_END == [']', ']'];
    assert line == before + ['[', '['] + tail;
    FindDouble(before, '[', tail);
    FindDouble(inner, ']', behind);
  }

  lemma CleanStays(line: string)
    requires Clean(line)
    ensures StripCR(line) == line && Find(line, CXX_BEGIN) < 0
  {
    assert line != "" ==> line[|line| - 1] in line;
  }

  /** A line with a value tag is cut at the first one. */
  lemma ValCut(before: string, inner: string, behind: string, ret: bool, names: Names)
    requires NoDouble(before, '[') && !EndsWith(before, '[') && NoDouble(inner, ']') && !EndsWith(inner, ']')
    requires Clean(before + TagText(Val(inner)) + behind)
    ensures Compile(before + TagText(Val(inner)) + behind, false, ret, names) ==
            var a := Compile(before, false, false, names);
            if a.None? then None else Then(a, [WriteVal(Key(inner))], Compile(behind, a.value.cxx, ret, names))
  {
    hide NoDouble, Find, Key, StripCR, CxxLine, Escape, Then;
    ValFound(before, inner, behind);
    CleanStays(before + TagText(Val(inner)) + behind);
  }

  lemma ViewFound(before: string, inner: string, behind: string)
    requires Find(before, VIEW_BEGIN) < 0 && Find(inner, VIEW_END) < 0
    requires NoDouble(before + TagText(SubView(inner)) + behind, '[')
    ensures var line, tail := before + TagText(SubView(inner)) + behind, inner + VIEW_END + behind;
            && Find(line, VAL_BEGIN) < 0
            && Find(line, VIEW_BEGIN) == |before| && line[..|before|] == before && line[|before| + 6..] == tail
            && Find(tail, VIEW_END) == |inner| && tail[..|inner|] == inner && tail[|inner| + 2..] == behind
  {
    var line := before + TagText(SubView(inner)) + behind;
    var tail := inner + VIEW_END + behind;
    assert VAL_BEGIN == ['[', '['];
    assert line == before + VIEW_BEGIN + tail;
    FindNoDouble(line, '[');
    FindBorderless(before, VIEW_BEGIN, tail);
    FindBorderless(inner, VIEW_END, behind);
  }

  /** A line without value tags is cut at the first sub-view. */
  lemma ViewCut(before: string, inner: string, behind: string, ret: bool, names: Names)
    requires Find(before, VIEW_BEGIN) < 0 && Find(inner, VIEW_END) < 0
    requires NoDouble(before + TagText(SubView(inner)) + behind, '[')
    requires Clean(before + TagText(SubView(inner)) + behind)
    ensures Compile(before + TagText(SubView(inner)) + behind, false, ret, names) ==
            var a := Compile(before, false, false, names);
            if a.None? then None else Then(a, [WriteView(Key(inner))], Compile(behind, a.value.cxx, ret, names))
  {
    hide NoDouble, Find, Key, StripCR, CxxLine, Escape, Then;
    ViewFound(before, inner, behind);
    CleanStays(before + TagText(SubView(inner)) + behind);
  }

  /** Running the code of a well-formed line prints the line with each tag replaced by its value, all other text
      unchanged, and a newline at the end of the line. */
  lemma {:induction false} CompileMeans(parts: seq<Part>, last: string, ret: bool, names: Names, env: Env)
    requires WellFormed(parts, last) && Clean(Source(parts, last))
    ensures Prints(Compile(Source(parts, last), false, ret, names), Rendered(parts, last, env) + Tail(ret), env)
    decreases |parts|, 1
  {
    hide Compile, Clean, Prints, PlainText, WellFormedTag, Key, Rendered, Source, Run;
    if parts == [] {
      SourceNone(last, env);
      TextPrints(last, ret, names, env);
    } else if ViewsOnly(parts) {
      NoBrackets(parts, last);
      PartMeans(parts, last, 0, ret, names, env);
    } else {
      var m := FirstVal(parts);
      NoBrackets(parts[..m], parts[m].text);
      PartMeans(parts, last, m, ret, names, env);
    }
  }

  lemma SourceNone(last: string, env: Env)
    ensures Source([], last) == last && Rendered([], last, env) == last
  {
  }

  lemma FirstVal(parts: seq<Part>) returns (m: nat)
    requires !ViewsOnly(parts)
    ensures m < |parts| && parts[m].tag.Val? && ViewsOnly(parts[..m])
  {
    m := 0;
    while parts[m].tag.SubView?
      invariant m < |parts| && forall i | 0 <= i < m :: parts[i].tag.SubView?
      decreases |parts| - m
    {
      m := m + 1;
    }
  }

  /** The line cut at the tag of part m, which is the first value tag, or the first tag when all are sub-views. */
  lemma PartMeans(parts: seq<Part>, last: string, m: nat, ret: bool, names: Names, env: Env)
    requires WellFormed(parts, last) && Clean(Source(parts, last)) && m < |parts|
    requires if parts[m].tag.Val? then
               NoDouble(Source(parts[..m], parts[m].text), '[') &&
               (EndsWith(Source(parts[..m], parts[m].text), '[') ==> EndsWith(parts[m].text, '['))
             else m == 0 && NoDouble(Source(parts, last), '[')
    ensures Prints(Compile(Source(parts, last), false, ret, names), Rendered(parts, last, env) + Tail(ret), env)
    decreases |parts|, 0
  {
    hide Compile, Clean, Prints, Key, Rendered, Source, Run, TagText, TagValue;
    var before, behind, tag := Source(parts[..m], parts[m].text), Source(parts[m + 1..], last), parts[m].tag;
    SourceSplit(parts, last, m);
    RenderedSplit(parts, last, m, env);
    CleanPiece(before, TagText(tag), behind);
    WellFormedPieces(parts, last, m);
    CompileMeans(parts[..m], parts[m].text, false, names, env);
    CompileMeans(parts[m + 1..], last, ret, names, env);
    TagPrints(tag, env);
    var a, b := Compile(before, false, false, names), Compile(behind, false, ret, names);
    var shown, rest := Rendered(parts[..m], parts[m].text, env), Rendered(parts[m + 1..], last, env);
    assert shown + Tail(false) == shown;
    PrintsCode(a, shown, env);
    match tag {
      case Val(inner) =>
        ValCut(before, inner, behind, ret, names);
        ThenPrints(a, WriteVal(Key(inner)), b, shown, TagValue(tag, env), rest + Tail(ret), env);
      case SubView(inner) =>
        SourceNone(parts[0].text, env);
        assert parts[..0] == [];
        ViewCut(before, inner, behind, ret, names);
        ThenPrints(a, WriteView(Key(inner)), b, shown, TagValue(tag, env), rest + Tail(ret), env);
    }
    assert shown + TagValue(tag, env) + (rest + Tail(ret)) == (shown + TagValue(tag, env) + rest) + Tail(ret);
  }

  lemma PrintsCode(a: Option<Code>, text: string, env: Env)
    ensures Prints(a, text, env) ==> a.Some? && !a.value.cxx
  {
  }

  lemma WellFormedPieces(parts: seq<Part>, last: string, m: nat)
    requires WellFormed(parts, last) && m < |parts|
    ensures WellFormed(parts[..m], parts[m].text) && WellFormed(parts[m + 1..], last)
  {
    hide PlainText, WellFormedTag;
  }

  // ----- whole templates -----

  datatype Line = Line(parts: seq<Part>, last: string)

  /** The loop over the lines of a template, each compiled in the state the one before left. */
  function CompileAll(lines: seq<string>, cxx: bool, names: Names): Option<Code>
    decreases |lines|
  {
    if lines == [] then Some(Code([], cxx))
    else
      var first := Compile(lines[0], cxx, true, names);
      if first.None? then None else Then(first, [], CompileAll(lines[1..], first.value.cxx, names))
  }

  function Sources(lines: seq<Line>): (r: seq<string>)
    ensures |r| == |lines|
  {
    seq(|lines|, i requires 0 <= i < |lines| => Source(lines[i].parts, lines[i].last))
  }

  function RenderedAll(lines: seq<Line>, env: Env): string {
    if lines == [] then "" else Rendered(lines[0].parts, lines[0].last, env) + "\n" + RenderedAll(lines[1..], env)
  }

  /** A whole template of well-formed lines prints line by line what its lines mean. */
  lemma {:induction false} TemplateMeans(lines: seq<Line>, names: Names, env: Env)
    requires forall i | 0 <= i < |lines| ::
               WellFormed(lines[i].parts, lines[i].last) && Clean(Source(lines[i].parts, lines[i].last))
    ensures Prints(CompileAll(Sources(lines), false, names), RenderedAll(lines, env), env)
  {
    hide Compile, WellFormed, Clean, Rendered, Source, Prints;
    if lines == [] {
      NothingPrints(env);
    } else {
      CompileMeans(lines[0].parts, lines[0].last, true, names, env);
      TemplateMeans(lines[1..], names, env);
      assert Sources(lines)[1..] == Sources(lines[1..]);
      var first := Compile(Sources(lines)[0], false, true, names);
      PrintsCode(first, Rendered(lines[0].parts, lines[0].last, env) + Tail(true), env);
      JoinPrints(first, CompileAll(Sources(lines[1..]), false, names),
                 Rendered(lines[0].parts, lines[0].last, env) + Tail(true), RenderedAll(lines[1..], env), env);
    }
  }

  lemma NothingPrints(env: Env)
    ensures Prints(Some(Code([], false)), "", env)
  {
  }

  lemma JoinPrints(a: Option<Code>, b: Option<Code>, before: string, behind: string, env: Env)
    requires Prints(a, before, env) && Prints(b, behind, env)
    ensures Prints(Then(a, [], b), before + behind, env)
  {
    hide Printed;
    assert a.value.stmts + [] + b.value.stmts == a.value.stmts + b.value.stmts;
    RunConcat(a.value.stmts, b.value.stmts, env);
  }

  // ----- the recursion as it runs -----

  /** The generated source file. */
  class SourceFile {
    var stmts: seq<Stmt>

    constructor ()
      ensures stmts == []
    {
      stmts := [];
    }

    method Put(stmt: Stmt)
      modifies this
      ensures stmts == old(stmts) + [stmt]
    {
      stmts := stmts + [stmt];
    }
  }

  method ParseCxxLine(oSrcFile: SourceFile, line: string, names: Names)
    modifies oSrcFile
    ensures oSrcFile.stmts == old(oSrcFile.stmts) + CxxLine(line, names)
  {
    if |line| > 0 {
      var tmp := ReplaceAll(line, "$$", names.stream);
      tmp := ReplaceAll(tmp, "@@", names.data);
      oSrcFile.Put(Cxx(tmp));
    }
  }

  lemma ToSpaceNext(before: string, s: string, i: nat)
    requires i < |s| && s[i] != ' '
    ensures before + ToSpace(s[i..]) == (before + [s[i]]) + ToSpace(s[i + 1..])
  {
    assert s[i..][0] == s[i] && s[i..][1..] == s[i + 1..];
  }

  lemma ToSpaceStops(s: string)
    ensures s == "" || s[0] == ' ' ==> ToSpace(s) == ""
  {
  }

  method FirstNonBlank(inner: string) returns (iter: nat)
    ensures iter <= |inner| && inner[iter..] == SkipSpaces(inner)
  {
    iter := 0;
    while iter < |inner| && inner[iter] == ' '
      invariant iter <= |inner| && SkipSpaces(inner[iter..]) == SkipSpaces(inner)
    {
      assert inner[iter..][0] == ' ' && inner[iter..][1..] == inner[iter + 1..];
      iter := iter + 1;
    }
  }

  method KeyName(inner: string) returns (name: string)
    ensures name == Key(inner)
  {
    hide SkipSpaces, ToSpace;
    var iter := FirstNonBlank(inner);
    var iterEnd := iter;
    ghost var name0 := "";
    assert "" + ToSpace(inner[iter..]) == ToSpace(inner[iter..]);
    while iterEnd < |inner| && inner[iterEnd] != ' '
      invariant iter <= iterEnd <= |inner|
      invariant ToSpace(inner[iter..]) == name0 + ToSpace(inner[iterEnd..]) && name0 == inner[iter..iterEnd]
    {
      ToSpaceNext(name0, inner, iterEnd);
      name0 := name0 + [inner[iterEnd]];
      iterEnd := iterEnd + 1;
    }
    name := inner[iter..iterEnd];
    ToSpaceStops(inner[iterEnd..]);
    assert name + "" == name;
  }

  /** What a call emitted: nothing is said once the program exits on a format error. */
  ghost predicate Emitted(code: Option<Code>, ok: bool, cxx: bool, before: seq<Stmt>, now: seq<Stmt>) {
    match code
    case None => !ok
    case Some(c) => ok && cxx == c.cxx && now == before + c.stmts
  }

  method ParseLine(oSrcFile: SourceFile, text: string, cxxFlag: bool, returnFlag: bool, names: Names)
    returns (ok: bool, cxx: bool)
    modifies oSrcFile
    ensures Emitted(Compile(text, cxxFlag, returnFlag, names), ok, cxx, old(oSrcFile.stmts), oSrcFile.stmts)
    decreases |text|, 1
  {
    hide CxxLine, Escape, Find, Key;
    ok, cxx := true, cxxFlag;
    var line := text;
    if |line| > 0 && line[|line| - 1] == '\r' {
      line := line[..|line| - 1];
    }
    if |line| == 0 {
      if returnFlag && !cxxFlag {
        oSrcFile.Put(Write("\\n"));
      }
      return;
    }
    if cxxFlag {
      ok, cxx := InsideBlock(oSrcFile, line, returnFlag, names);
    } else if Find(line, CXX_BEGIN) >= 0 {
      ok, cxx := OpenBlock(oSrcFile, line, returnFlag, names);
    } else if Find(line, VAL_BEGIN) >= 0 {
      ok, cxx := ParseTag(oSrcFile, line, Find(line, VAL_BEGIN), true, returnFlag, names);
    } else if Find(line, VIEW_BEGIN) >= 0 {
      ok, cxx := ParseTag(oSrcFile, line, Find(line, VIEW_BEGIN), false, returnFlag, names);
    } else {
      var escaped := ReplaceAll(line, "\\", "\\\\");
      escaped := ReplaceAll(escaped, "\"", "\\\"");
      EscapeIs(line, escaped);
      oSrcFile.Put(Write(escaped + if returnFlag then "\\n" else ""));
    }
  }

  lemma EscapeIs(line: string, escaped: string)
    ensures escaped == ReplaceFrom(ReplaceFrom(line, "\\", "\\\\", 0), "\"", "\\\"", 0) ==> escaped == Escape(line)
  {
  }

  method InsideBlock(oSrcFile: SourceFile, line: string, returnFlag: bool, names: Names) returns (ok: bool, cxx: bool)
    modifies oSrcFile
    ensures Emitted(BlockCode(line, returnFlag, names), ok, cxx, old(oSrcFile.stmts), oSrcFile.stmts)
    decreases |line|, 0
  {
    hide CxxLine, Compile;
    var pos := Find(line, CXX_END);
    if pos < 0 {
      ParseCxxLine(oSrcFile, line, names);
      return true, true;
    }
    ParseCxxLine(oSrcFile, line[..pos], names);
    var oldLine := line[pos + 2..];
    ok, cxx := true, false;
    if |oldLine| > 0 {
      ok, cxx := ParseLine(oSrcFile, oldLine, false, returnFlag, names);
    }
  }

  method OpenBlock(oSrcFile: SourceFile, line: string, returnFlag: bool, names: Names) returns (ok: bool, cxx: bool)
    requires Find(line, CXX_BEGIN) >= 0
    modifies oSrcFile
    ensures Emitted(OpenCode(line, returnFlag, names), ok, cxx, old(oSrcFile.stmts), oSrcFile.stmts)
    decreases |line|, 0
  {
    hide Compile;
    var pos := Find(line, CXX_BEGIN);
    if pos > 0 {
      ok, cxx := ParseLine(oSrcFile, line[..pos], false, false, names);
      if !ok { return; }
    }
    var newLine := line[pos + 5..];
    ok, cxx := true, true;
    if |newLine| > 0 {
      ok, cxx := ParseLine(oSrcFile, newLine, true, returnFlag, names);
    }
  }

  method ParseTag(oSrcFile: SourceFile, line: string, pos: nat, isVal: bool, returnFlag: bool, names: Names)
    returns (ok: bool, cxx: bool)
    requires pos + |Opening(isVal)| <= |line|
    modifies oSrcFile
    ensures Emitted(TagCode(line, pos, isVal, returnFlag, names), ok, cxx, old(oSrcFile.stmts), oSrcFile.stmts)
    decreases |line|, 0
  {
    hide Compile, Key, Find, Then;
    ghost var a, s0 := Compile(line[..pos], false, false, names), oSrcFile.stmts;
    ok, cxx := ParseLine(oSrcFile, line[..pos], false, false, names);
    if !ok { return; }
    var newLine := line[pos + |Opening(isVal)|..];
    var end := Find(newLine, Closing(isVal));
    if end < 0 {
      return false, cxx;
    }
    var keyName := KeyName(newLine[..end]);
    oSrcFile.Put(if isVal then WriteVal(keyName) else WriteView(keyName));
    ghost var b := Compile(newLine[end + 2..], cxx, returnFlag, names);
    ok, cxx := ParseLine(oSrcFile, newLine[end + 2..], cxx, returnFlag, names);
    EmittedThen(a.value, TagStmt(isVal, keyName), b, ok, cxx, s0, oSrcFile.stmts);
  }

  lemma EmittedThen(a: Code, stmt: Stmt, b: Option<Code>, ok: bool, cxx: bool, before: seq<Stmt>, now: seq<Stmt>)
    requires Emitted(b, ok, cxx, before + a.stmts + [stmt], now)
    ensures Emitted(Then(Some(a), [stmt], b), ok, cxx, before, now)
  {
    if b.Some? {
      assert before + a.stmts + [stmt] + b.value.stmts == before + (a.stmts + [stmt] + b.value.stmts);
    }
  }

  /** The loop over the lines of the template. */
  method ParseTemplate(oSrcFile: SourceFile, lines: seq<string>, names: Names) returns (ok: bool, cxx: bool)
    modifies oSrcFile
    ensures Emitted(CompileAll(lines, false, names), ok, cxx, old(oSrcFile.stmts), oSrcFile.stmts)
  {
    hide Compile;
    ok, cxx := true, false;
    ghost var done: seq<Stmt> := [];
    assert lines[0..] == lines;
    ThenNothing(CompileAll(lines, false, names));
    for i := 0 to |lines|
      invariant ok && oSrcFile.stmts == old(oSrcFile.stmts) + done
      invariant CompileAll(lines, false, names) == Then(Some(Code(done, false)), [], CompileAll(lines[i..], cxx, names))
    {
      assert lines[i..][0] == lines[i] && lines[i..][1..] == lines[i + 1..];
      ghost var code := Compile(lines[i], cxx, true, names);
      ok, cxx := ParseLine(oSrcFile, lines[i], cxx, true, names);
      if !ok { return; }
      ThenAgain(done, code.value, CompileAll(lines[i + 1..], cxx, names));
      done := done + code.value.stmts;
    }
  }

  lemma ThenNothing(code: Option<Code>)
    ensures Then(Some(Code([], false)), [], code) == code
  {
    if code.Some? {
      assert [] + [] + code.value.stmts == code.value.stmts;
    }
  }

  lemma ThenAgain(done: seq<Stmt>, code: Code, rest: Option<Code>)
    ensures Then(Some(Code(done, false)), [], Then(Some(code), [], rest)) ==
            Then(Some(Code(done + code.stmts, false)), [], rest)
  {
    if rest.Some? {
      assert done + [] + (code.stmts + [] + rest.value.stmts) == (done + code.stmts) + [] + rest.value.stmts;
    }
  }

  // ----- C++ blocks -----

  /** From left to right, every pair of `c` becomes `now`. */
  function Pairs(s: string, c: char, now: string): string {
    if |s| < 2 then s
    else if s[0] == c && s[1] == c then now + Pairs(s[2..], c, now)
    else [s[0]] + Pairs(s[1..], c, now)
  }

  lemma PairsNext(x: char, s: string, c: char, now: string)
    requires x != c || s == "" || s[0] != c
    ensures Pairs([x] + s, c, now) == [x] + Pairs(s, c, now)
  {
    assert ([x] + s)[1..] == s;
    if s != "" {
      assert ([x] + s)[1] == s[0];
    }
  }

  lemma {:induction false} PairsBehind(a: string, s: string, c: char, now: string)
    requires c !in a
    ensures Pairs(a + s, c, now) == a + Pairs(s, c, now)
  {
    if a == "" {
      assert a + s == s;
    } else {
      hide Pairs;
      assert a + s == [a[0]] + (a[1..] + s) && a[0] in a;
      PairsNext(a[0], a[1..] + s, c, now);
      PairsBehind(a[1..], s, c, now);
      assert [a[0]] + (a[1..] + Pairs(s, c, now)) == a + Pairs(s, c, now);
    }
  }

  lemma PairAt(s: string, c: char, i: int)
    ensures At(s, [c, c], i) <==> 0 <= i && i + 2 <= |s| && s[i] == c && s[i + 1] == c
  {
    if 0 <= i && i + 2 <= |s| {
      assert s[i..i + 2] == [s[i], s[i + 1]];
    }
  }

  lemma {:induction false} PairsNone(s: string, c: char, now: string)
    requires forall i | 0 <= i < |s| - 1 :: !(s[i] == c && s[i + 1] == c)
    ensures Pairs(s, c, now) == s
  {
    if |s| >= 2 {
      PairsNone(s[1..], c, now);
    }
  }

  /** The replacing loop does that when what it puts in holds no `c`. */
  lemma {:induction false} ReplaceIsPairs(s: string, c: char, now: string, pos: nat)
    requires pos <= |s| && now != "" && c !in now
    ensures ReplaceFrom(s, [c, c], now, pos) == s[..pos] + Pairs(s[pos..], c, now)
    decreases |s| - pos
  {
    hide Pairs, FindFrom, At;
    var p := FindFrom(s, [c, c], pos);
    if p < 0 {
      forall i | pos <= i < |s| - 1
        ensures !(s[i] == c && s[i + 1] == c)
      {
        PairAt(s, c, i);
      }
      PairsNone(s[pos..], c, now);
      assert s[..pos] + s[pos..] == s;
    } else {
      PairAt(s, c, p);
      assert pos <= p;
      forall i | pos <= i < p
        ensures !(s[i] == c && s[i + 1] == c)
      {
        PairAt(s, c, i);
      }
      var t, q := s[..p] + now + s[p + 2..], p + |now| - 1;
      ReplaceIsPairs(t, c, now, q);
      PairReplaced(s, c, now, pos, p);
    }
  }

  lemma PairReplaced(s: string, c: char, now: string, pos: nat, p: nat)
    requires pos <= p && p + 2 <= |s| && s[p] == c && s[p + 1] == c && now != "" && c !in now
    requires forall i | pos <= i < p :: !(s[i] == c && s[i + 1] == c)
    ensures var t, q := s[..p] + now + s[p + 2..], p + |now| - 1;
            s[..pos] + Pairs(s[pos..], c, now) == t[..q] + Pairs(t[q..], c, now)
  {
    hide Pairs;
    var gap, rest := s[pos..p], s[p + 2..];
    var t, q, front, last := s[..p] + now + rest, p + |now| - 1, now[..|now| - 1], now[|now| - 1..];
    PairsBehind(last, rest, c, now);
    GapBehind(gap, rest, c, now);
    PairPieces(s, c, pos, p);
    assert t[..q] == s[..p] + front && t[q..] == last + rest;
    var tail := Pairs(rest, c, now);
    assert s[..p] == s[..pos] + gap && now == front + last;
    FourPieces(s[..pos], gap, front, last, tail);
  }

  lemma PairPieces(s: string, c: char, pos: nat, p: nat)
    requires pos <= p && p + 2 <= |s| && s[p] == c && s[p + 1] == c
    ensures s[pos..] == s[pos..p] + ([c, c] + s[p + 2..])
  {
  }

  lemma FourPieces(a: string, b: string, c: string, d: string, e: string)
    ensures a + (b + ((c + d) + e)) == ((a + b) + c) + (d + e)
  {
  }

  lemma {:induction false} GapBehind(gap: string, rest: string, c: char, now: string)
    requires forall i | 0 <= i < |gap| :: gap[i] != c || (i + 1 < |gap| && gap[i + 1] != c)
    ensures Pairs(gap + ([c, c] + rest), c, now) == gap + (now + Pairs(rest, c, now))
  {
    if gap == "" {
      assert gap + ([c, c] + rest) == [c, c] + rest && ([c, c] + rest)[2..] == rest;
      assert "" + (now + Pairs(rest, c, now)) == now + Pairs(rest, c, now);
    } else {
      var s := gap + ([c, c] + rest);
      assert s[0] == gap[0] && s[1..] == gap[1..] + ([c, c] + rest);
      assert s[1] == if |gap| > 1 then gap[1] else c;
      GapBehind(gap[1..], rest, c, now);
      assert [gap[0]] + (gap[1..] + (now + Pairs(rest, c, now))) == gap + (now + Pairs(rest, c, now));
    }
  }

  /** What a line of a C++ block is for: the code with $$ for the output stream and @@ for the view's data. */
  function Expanded(s: string, names: Names): string {
    if |s| < 2 then s
    else if s[..2] == "$$" then names.stream + Expanded(s[2..], names)
    else if s[..2] == "@@" then names.data + Expanded(s[2..], names)
    else [s[0]] + Expanded(s[1..], names)
  }

  predicate PlainNames(names: Names) { '$' !in names.stream && '@' !in names.stream && '@' !in names.data }

  lemma FirstOfPairs(s: string, c: char, now: string)
    requires s != "" && now != ""
    ensures Pairs(s, c, now) != "" && (Pairs(s, c, now)[0] == s[0] || Pairs(s, c, now)[0] == now[0])
  {
  }

  /** The two passes together replace each mark once. */
  lemma {:induction false} ExpandedPasses(s: string, names: Names)
    requires PlainNames(names)
    ensures Pairs(Pairs(s, '$', names.stream), '@', names.data) == Expanded(s, names)
  {
    if |s| >= 2 {
      assert s[..2] == [s[0], s[1]];
      if s[0] == '$' && s[1] == '$' {
        ExpandedPasses(s[2..], names);
        PairsBehind(names.stream, Pairs(s[2..], '$', names.stream), '@', names.data);
      } else if s[0] == '@' && s[1] == '@' {
        ExpandedPasses(s[2..], names);
        AtSigns(s, names.stream);
        var rest := Pairs(s[2..], '$', names.stream);
        assert (['@', '@'] + rest)[2..] == rest;
      } else {
        ExpandedPasses(s[1..], names);
        FirstOfPairs(s[1..], '$', names.stream);
        PairsNext(s[0], Pairs(s[1..], '$', names.stream), '@', names.data);
      }
    }
  }

  lemma AtSigns(s: string, now: string)
    requires |s| >= 2 && s[0] == '@' && s[1] == '@'
    ensures Pairs(s, '$', now) == ['@', '@'] + Pairs(s[2..], '$', now)
  {
    var u := s[1..];
    assert u[1..] == s[2..] && u[0] == '@';
    if |u| < 2 {
      assert s[2..] == "" && u == ['@'];
    }
  }

  lemma CxxLineMeans(line: string, names: Names)
    requires PlainNames(names)
    ensures CxxLine(line, names) == if line == "" then [] else [Cxx(Expanded(line, names))]
  {
    ReplaceIsPairs(line, '$', names.stream, 0);
    var once := Pairs(line, '$', names.stream);
    assert line[..0] == "" && line[0..] == line && "" + once == once;
    ReplaceIsPairs(once, '@', names.data, 0);
    var twice := Pairs(once, '@', names.data);
    assert once[..0] == "" && once[0..] == once && "" + twice == twice;
    assert "$$" == ['$', '$'] && "@@" == ['@', '@'];
    ExpandedPasses(line, names);
  }

  /** A line inside a C++ block becomes one line of code. */
  lemma BlockLine(line: string, ret: bool, names: Names)
    requires PlainNames(names) && line != "" && '\r' !in line && Find(line, CXX_END) < 0
    ensures Compile(line, true, ret, names) == Some(Code([Cxx(Expanded(line, names))], true))
  {
    hide Find, CxxLine, Expanded;
    CxxLineMeans(line, names);
    assert StripCR(line) == line;
  }

  lemma MarkFound(before: string, mark: string, behind: string)
    requires |mark| >= 2 && Find(before, mark) < 0
    requires forall k | 0 < k < |mark| :: mark[k] != mark[0]
    ensures var line := before + mark + behind;
            Find(line, mark) == |before| && line[..|before|] == before && line[|before| + |mark|..] == behind
  {
    hide FindFrom;
    var line := before + mark + behind;
    assert line[|before|..|before| + |mark|] == mark;
    forall i | 0 <= i < |before|
      ensures !At(line, mark, i)
    {
      if i + |mark| <= |before| {
        assert line == before + (mark + behind);
        AtPrefix(before, mark + behind, mark, i);
      } else {
        var k := |before| - i;
        assert i + |mark| <= |line| ==> line[i..i + |mark|][k] == line[|before|] == mark[0];
      }
    }
    FindIs(line, mark, |before|);
  }

  /** A block inside a line: what stands before and behind it is compiled as ever, the block becomes one line of
      code. */
  lemma BlockInLine(before: string, code: string, behind: string, ret: bool, names: Names)
    requires PlainNames(names) && '\r' !in before + code + behind && before != "" && code != "" && behind != ""
    requires Find(before, CXX_BEGIN) < 0 && Find(code, CXX_END) < 0
    ensures var a, b := Compile(before, false, false, names), Compile(behind, false, ret, names);
            Compile(before + CXX_BEGIN + (code + CXX_END + behind), false, ret, names) ==
            if a.None? || b.None? then None
            else Some(Code(a.value.stmts + [Cxx(Expanded(code, names))] + b.value.stmts, b.value.cxx))
  {
    hide Find, CxxLine, Expanded, Compile, Then;
    var rest := code + CXX_END + behind;
    var line := before + CXX_BEGIN + rest;
    NoReturn(before, code, behind);
    MarksDiffer();
    MarkFound(before, CXX_BEGIN, rest);
    MarkFound(code, CXX_END, behind);
    CxxLineMeans(code, names);
    BlockParts(rest, code, behind, ret, names);
    LineParts(line, before, rest, ret, names);
    ThenBoth(Compile(before, false, false, names), CxxLine(code, names), Compile(behind, false, ret, names));
  }

  lemma ThenBoth(a: Option<Code>, mid: seq<Stmt>, b: Option<Code>)
    ensures Then(a, [], Then(Some(Code([], true)), mid, b)) ==
            if a.None? || b.None? then None else Some(Code(a.value.stmts + mid + b.value.stmts, b.value.cxx))
  {
    if a.Some? && b.Some? {
      assert a.value.stmts + [] + ([] + mid + b.value.stmts) == a.value.stmts + mid + b.value.stmts;
    }
  }

  lemma MarksDiffer()
    ensures forall k | 0 < k < |CXX_BEGIN| :: CXX_BEGIN[k] != CXX_BEGIN[0]
    ensures forall k | 0 < k < |CXX_END| :: CXX_END[k] != CXX_END[0]
  {
  }

  lemma NoReturn(before: string, code: string, behind: string)
    requires '\r' !in before + code + behind
    ensures '\r' !in before + CXX_BEGIN + (code + CXX_END + behind) && '\r' !in code + CXX_END + behind
    ensures '\r' !in before && '\r' !in behind
  {
    var all, rest := before + code + behind, code + CXX_END + behind;
    forall i | 0 <= i < |before|
      ensures before[i] != '\r'
    {
      assert all[i] == before[i];
    }
    forall i | 0 <= i < |code|
      ensures code[i] != '\r'
    {
      assert all[|before| + i] == code[i];
    }
    forall i | 0 <= i < |behind|
      ensures behind[i] != '\r'
    {
      assert all[|before| + |code| + i] == behind[i];
    }
    assert forall i | 0 <= i < |rest| :: rest[i] in code || rest[i] in CXX_END || rest[i] in behind;
    var line := before + CXX_BEGIN + rest;
    assert forall i | 0 <= i < |line| :: line[i] in before || line[i] in CXX_BEGIN || line[i] in rest;
  }

  lemma BlockParts(rest: string, code: string, behind: string, ret: bool, names: Names)
    requires rest != "" && '\r' !in rest && Find(rest, CXX_END) == |code| && rest[..|code|] == code && behind != ""
    requires |code| + 2 <= |rest| && rest[|code| + 2..] == behind
    ensures Compile(rest, true, ret, names) ==
            Then(Some(Code([], true)), CxxLine(code, names), Compile(behind, false, ret, names))
  {
    hide Find, CxxLine, Then;
    assert StripCR(rest) == rest;
  }

  lemma LineParts(line: string, before: string, rest: string, ret: bool, names: Names)
    requires line != "" && '\r' !in line && Find(line, CXX_BEGIN) == |before| > 0 && line[..|before|] == before
    requires |before| + 5 <= |line| && line[|before| + 5..] == rest && rest != ""
    ensures Compile(line, false, ret, names) ==
            Then(Compile(before, false, false, names), [], Compile(rest, true, ret, names))
  {
    hide Find, CxxLine, Then;
    assert StripCR(line) == line;
  }

  /** A tag that is opened and not closed is a format error, whatever stands before it. */
  lemma UnclosedFails(line: string, isVal: bool, ret: bool, names: Names)
    requires '\r' !in line && Find(line, CXX_BEGIN) < 0 && Find(line, Opening(isVal)) >= 0
    requires isVal || Find(line, VAL_BEGIN) < 0
    requires Find(line[Find(line, Opening(isVal)) + |Opening(isVal)|..], Closing(isVal)) < 0
    ensures Compile(line, false, ret, names).None?
  {
    hide Find, Escape;
    assert StripCR(line) == line;
  }

  /** A block that ends with its line: the line becomes code, the block is closed, and no newline is printed. */
  lemma BlockEnds(code: string, ret: bool, names: Names)
    requires PlainNames(names) && code != "" && '\r' !in code && Find(code, CXX_END) < 0
    ensures Compile(code + CXX_END, true, ret, names) == Some(Code([Cxx(Expanded(code, names))], false))
  {
    hide Find, CxxLine, Expanded;
    MarksDiffer();
    MarkFound(code, CXX_END, "");
    CxxLineMeans(code, names);
    var line := code + CXX_END;
    assert line + "" == line;
    EndStays(code);
  }

  lemma EndStays(code: string)
    ensures StripCR(code + CXX_END) == code + CXX_END
  {
    var line := code + CXX_END;
    assert line[|line| - 1] == CXX_END[1] == '>';
  }

  /** The end of a line may be written with a carriage return. */
  lemma ReturnIgnored(line: string, cxx: bool, ret: bool, names: Names)
    requires line == "" || line[|line| - 1] != '\r'
    ensures Compile(line + "\r", cxx, ret, names) == Compile(line, cxx, ret, names)
  {
    hide Find, CxxLine, Escape, Then;
    var l := line + "\r";
    assert l[|l| - 1] == '\r' && l[..|l| - 1] == line;
    assert StripCR(l) == line == StripCR(line);
  }

  /** The name in a tag is its first word, whatever stands behind it. */
  lemma {:induction false} KeyIsWord(blanks: string, word: string, rest: string)
    requires (forall i | 0 <= i < |blanks| :: blanks[i] == ' ') && word != "" && ' ' !in word
    requires rest == "" || rest[0] == ' '
    ensures Key(blanks + word + rest) == word
    decreases |blanks|
  {
    var s := blanks + word + rest;
    if blanks == "" {
      assert s == word + rest && s[0] == word[0];
      WordRead(word, rest);
    } else {
      assert s[0] == ' ' && s[1..] == blanks[1..] + word + rest;
      KeyIsWord(blanks[1..], word, rest);
    }
  }

  lemma {:induction false} WordRead(word: string, rest: string)
    requires ' ' !in word && (rest == "" || rest[0] == ' ')
    ensures ToSpace(word + rest) == word
  {
    if word == "" {
      assert "" + rest == rest;
    } else {
      assert (word + rest)[0] == word[0] && (word + rest)[1..] == word[1..] + rest;
      WordRead(word[1..], rest);
      assert [word[0]] + word[1..] == word;
    }
  }
}
