/** The slash remover plugin: trailing slashes and runs of slashes are removed from request paths, by index loops and an
    in-place compaction, and the three modes agree with one idea of what a path is: its segments. */
module SlashRemover {
  import opened Bytes

  datatype Mode = Trailing | Duplicate | Both

  function Last(s: string): char
    requires s != ""
  {
    s[|s| - 1]
  }

  function Front(s: string): string
    requires s != ""
  {
    s[..|s| - 1]
  }

  // ----- what the modes are for -----

  /** The path without trailing slashes, the first character kept. */
  function Trim(s: string): string {
    if |s| >= 2 && Last(s) == '/' then Trim(Front(s)) else s
  }

  /** Every run of slashes made one slash. */
  function Collapse(s: string): string {
    if s == "" then ""
    else if Last(s) == '/' && Front(s) != "" && Last(Front(s)) == '/' then Collapse(Front(s))
    else Collapse(Front(s)) + [Last(s)]
  }

  function Normal(s: string, mode: Mode): string {
    match mode
    case Trailing => Trim(s)
    case Duplicate => Collapse(s)
    case Both => Collapse(Trim(s))
  }

  /** The non-empty pieces between slashes. */
  function Segments(s: string): seq<string> {
    if s == "" then []
    else if Last(s) == '/' then Segments(Front(s))
    else if Front(s) == "" || Last(Front(s)) == '/' then Segments(Front(s)) + [[Last(s)]]
    else
      var before := Segments(Front(s));
      if before == [] then [[Last(s)]] else before[..|before| - 1] + [before[|before| - 1] + [Last(s)]]
  }

  /** The one normal path with these segments. */
  function Joined(segments: seq<string>): string {
    if segments == [] then "/"
    else if |segments| == 1 then "/" + segments[0]
    else Joined(segments[..|segments| - 1]) + "/" + segments[|segments| - 1]
  }

  predicate Rooted(s: string) { s != "" && s[0] == '/' }

  // ----- the modes agree -----

  lemma JoinedSnoc(segments: seq<string>, more: string)
    ensures Joined(segments + [more]) == (if segments == [] then "/" else Joined(segments) + "/") + more
  {
    assert (segments + [more])[..|segments|] == segments;
  }

  lemma JoinedExtend(segments: seq<string>, c: char)
    requires segments != []
    ensures Joined(segments[..|segments| - 1] + [segments[|segments| - 1] + [c]]) == Joined(segments) + [c]
  {
    hide Joined;
    var front, last := segments[..|segments| - 1], segments[|segments| - 1];
    assert segments == front + [last];
    JoinedSnoc(front, last);
    JoinedSnoc(front, last + [c]);
    Regroup(if front == [] then "/" else Joined(front) + "/", last, [c]);
  }

  /** A collapsed path is its segments, each behind a slash, and the trailing slash if there was one. */
  lemma {:induction false} CollapseJoins(s: string)
    requires Rooted(s)
    ensures Collapse(s) == Joined(Segments(s)) + if Last(s) == '/' && Segments(s) != [] then "/" else ""
  {
    var q, c := Front(s), Last(s);
    if q == "" {
      assert Segments("") == [] && Collapse("") == "";
    } else {
      CollapseJoins(q);
      if Last(q) != '/' {
      }
      if c != '/' {
        var before := Segments(q);
        if Last(q) == '/' {
          JoinedSnoc(before, [c]);
        } else {
          JoinedExtend(before, c);
        }
      }
    }
  }

  lemma {:induction false} TrimKeepsSegments(s: string)
    requires Rooted(s)
    ensures Rooted(Trim(s)) && Segments(Trim(s)) == Segments(s)
    ensures Last(Trim(s)) == '/' ==> Segments(s) == []
  {
    if |s| >= 2 && Last(s) == '/' {
      TrimKeepsSegments(Front(s));
    } else if |s| == 1 {
      assert Front(s) == "";
    }
  }

  lemma NoSegments()
    ensures Joined([]) == "/"
  {
  }

  lemma {:induction false} JoinedEnd(s: string)
    requires Rooted(s)
    ensures Segments(s) != [] ==> Last(Joined(Segments(s))) != '/'
    ensures |Joined(Segments(s))| >= 1 && (Segments(s) != [] ==> |Joined(Segments(s))| >= 2)
  {
    hide Joined;
    NoSegments();
    var q, c := Front(s), Last(s);
    if q == "" {
      assert Segments("") == [] && Segments(s) == [];
    } else {
      assert q[0] == s[0];
      JoinedEnd(q);
      if c != '/' {
        if Last(q) == '/' {
          JoinedSnoc(Segments(q), [c]);
        } else {
          JoinedExtend(Segments(q), c);
        }
      }
    }
  }

  /** Removing both kinds of slashes, in one pass or in two in either order, gives the normal path with the segments of
      the original. */
  lemma BothIsNormalPath(s: string)
    requires Rooted(s)
    ensures Normal(s, Both) == Joined(Segments(s))
    ensures Normal(s, Both) == Normal(Normal(s, Trailing), Duplicate) == Normal(Normal(s, Duplicate), Trailing)
  {
    TrimKeepsSegments(s);
    CollapseJoins(Trim(s));
    CollapseJoins(s);
    JoinedEnd(s);
    var joined := Joined(Segments(s));
    assert joined + "" == joined;
    if Last(s) == '/' && Segments(s) != [] {
      assert Front(joined + "/") == joined && Last(joined + "/") == '/';
    }
  }

  /** Normal paths are left alone, whatever the mode. */
  lemma NormalIsFixed(s: string, mode: Mode)
    requires Rooted(s)
    ensures Normal(Normal(s, mode), mode) == Normal(s, mode)
  {
    match mode
    case Trailing => TrimFixed(s);
    case Duplicate => CollapseFixed(s);
    case Both =>
      BothIsNormalPath(s);
      CollapseRooted(Trim(s));
      TrimKeepsSegments(s);
      CollapseKeepsSegments(Trim(s));
      BothIsNormalPath(Collapse(Trim(s)));
  }

  lemma {:induction false} TrimFixed(s: string)
    ensures Trim(Trim(s)) == Trim(s)
  {
    if |s| >= 2 && Last(s) == '/' {
      TrimFixed(Front(s));
    }
  }

  lemma {:induction false} CollapseRooted(s: string)
    requires s != ""
    ensures Collapse(s) != "" && Last(Collapse(s)) == Last(s) && Collapse(s)[0] == s[0]
  {
    if Front(s) != "" {
      CollapseRooted(Front(s));
    }
  }

  lemma {:induction false} CollapseFixed(s: string)
    ensures Collapse(Collapse(s)) == Collapse(s)
  {
    if s != "" {
      CollapseFixed(Front(s));
      if Front(s) != "" {
        CollapseRooted(Front(s));
      }
      var r := Collapse(Front(s));
      assert Front(r + [Last(s)]) == r && Last(r + [Last(s)]) == Last(s);
    }
  }

  lemma {:induction false} CollapseKeepsSegments(s: string)
    ensures Segments(Collapse(s)) == Segments(s)
  {
    if s != "" {
      CollapseKeepsSegments(Front(s));
      if Front(s) != "" {
        CollapseRooted(Front(s));
      }
      var r := Collapse(Front(s));
      assert Front(r + [Last(s)]) == r && Last(r + [Last(s)]) == Last(s);
    }
  }

  /** No two slashes in a row are left. */
  lemma {:induction false} CollapseSingles(s: string)
    ensures forall i | 0 < i < |Collapse(s)| :: !(Collapse(s)[i] == '/' && Collapse(s)[i - 1] == '/')
  {
    if s != "" {
      CollapseSingles(Front(s));
      if Front(s) != "" {
        CollapseRooted(Front(s));
      }
    }
  }

  // ----- what each mode is for -----

  /** A slash behind a slash. */
  predicate Double(s: string, i: int) { 0 < i < |s| && s[i] == '/' && s[i - 1] == '/' }

  predicate SinglySlashed(r: string) { forall i | 0 < i < |r| :: !Double(r, i) }

  /** r is the path a mode wants of s. Trailing: s without the slashes at its end. Duplicate: the same segments, no two
      slashes in a row, a slash at the end if there was one. Both: the same segments, no two slashes in a row and none
      at the end. */
  predicate Wanted(s: string, mode: Mode, r: string) {
    && Rooted(r)
    && match mode
       case Trailing =>
         r <= s && (forall i | |r| <= i < |s| :: s[i] == '/') && (|r| == 1 || Last(r) != '/')
       case Duplicate =>
         && Segments(r) == Segments(s) && SinglySlashed(r)
         && (Segments(s) != [] ==> (Last(r) == '/' <==> Last(s) == '/'))
       case Both => Segments(r) == Segments(s) && SinglySlashed(r) && (|r| == 1 || Last(r) != '/')
  }

  /** Each mode answers with the one path it is for. */
  lemma NormalIsWanted(s: string, mode: Mode, r: string)
    requires Rooted(s)
    ensures r == Normal(s, mode) <==> Wanted(s, mode, r)
  {
    match mode
    case Trailing => TrimIsWanted(s, r);
    case Duplicate => CollapseIsWanted(s, r);
    case Both => BothIsWanted(s, r);
  }

  lemma {:induction false} TrimKeeps(s: string)
    requires Rooted(s)
    ensures var r := Trim(s);
            Rooted(r) && r <= s && (forall i | |r| <= i < |s| :: s[i] == '/') && (|r| == 1 || Last(r) != '/')
  {
    if |s| >= 2 && Last(s) == '/' {
      TrimKeeps(Front(s));
      var r := Trim(s);
      assert r <= Front(s) <= s;
      assert forall i | |r| <= i < |s| - 1 :: s[i] == Front(s)[i];
    }
  }

  lemma TrimIsWanted(s: string, r: string)
    requires Rooted(s)
    ensures r == Trim(s) <==> Wanted(s, Trailing, r)
  {
    TrimKeeps(s);
    if Wanted(s, Trailing, r) {
      assert forall i | |r| - 1 < i < |s| :: s[i] == '/';
      assert |r| == 1 || s[|r| - 1] == Last(r);
      TrimTo(s, |r| - 1);
      assert s[..|r|] == r;
    }
  }

  lemma CollapseIsWanted(s: string, r: string)
    requires Rooted(s)
    ensures r == Collapse(s) <==> Wanted(s, Duplicate, r)
  {
    CollapseJoins(s);
    if r == Collapse(s) {
      CollapseRooted(s);
      CollapseKeepsSegments(s);
      CollapseSingles(s);
    }
    if Wanted(s, Duplicate, r) {
      CollapseSame(r);
      CollapseJoins(r);
    }
  }

  lemma BothIsWanted(s: string, r: string)
    requires Rooted(s)
    ensures r == Normal(s, Both) <==> Wanted(s, Both, r)
  {
    BothIsNormalPath(s);
    if r == Normal(s, Both) {
      TrimKeeps(s);
      TrimKeepsSegments(s);
      CollapseRooted(Trim(s));
      CollapseKeepsSegments(Trim(s));
      CollapseSingles(Trim(s));
      RootAlone(s);
    }
    if Wanted(s, Both, r) {
      CollapseSame(r);
      CollapseJoins(r);
      if |r| == 1 {
        assert Front(r) == "" && Segments("") == [];
      }
      assert Joined(Segments(r)) + "" == Joined(Segments(r));
    }
  }

  lemma RootAlone(s: string)
    requires Rooted(s)
    ensures var r := Collapse(Trim(s)); r != "" && (Last(r) == '/' ==> |r| == 1)
  {
    TrimKeeps(s);
    CollapseRooted(Trim(s));
    if |Trim(s)| == 1 {
      CollapseShorter(Trim(s));
    }
  }

  // ----- the loops -----

  lemma {:induction false} TrimTo(s: string, a: nat)
    requires a < |s| && (forall i | a < i < |s| :: s[i] == '/') && (a == 0 || s[a] != '/')
    ensures Trim(s) == s[..a + 1]
  {
    if a + 1 < |s| {
      assert forall i | 0 <= i < |s| - 1 :: Front(s)[i] == s[i];
      TrimTo(Front(s), a);
      assert Front(s)[..a + 1] == s[..a + 1];
    } else {
      assert s[..a + 1] == s;
    }
  }

  lemma {:induction false} CollapseSame(s: string)
    requires forall i :: !Double(s, i)
    ensures Collapse(s) == s
  {
    if s != "" {
      assert forall i | 0 <= i < |s| - 1 :: Front(s)[i] == s[i];
      forall i
        ensures !Double(Front(s), i)
      {
        assert !Double(s, i);
      }
      CollapseSame(Front(s));
      assert !Double(s, |s| - 1);
    }
  }

  lemma {:induction false} CollapseShorter(s: string)
    ensures |Collapse(s)| <= |s|
  {
    if s != "" {
      CollapseShorter(Front(s));
    }
  }

  lemma {:induction false} CollapseChanges(s: string, i: nat)
    requires Double(s, i)
    ensures |Collapse(s)| < |s|
  {
    if i == |s| - 1 {
      CollapseShorter(Front(s));
    } else {
      assert Double(Front(s), i);
      CollapseChanges(Front(s), i);
    }
  }

  /** findTrailingSlashes; -1 for npos. */
  method FindTrailingSlashes(url: string) returns (a: int)
    ensures -1 <= a < |url|
    ensures a == -1 <==> Trim(url) == url
    ensures a >= 0 ==> Trim(url) == url[..a + 1]
  {
    if |url| < 2 || Last(url) != '/' {
      return -1;
    }
    a := |url| - 2;
    while a > 0 && url[a] == '/'
      invariant 0 <= a < |url| - 1
      invariant forall i | a < i < |url| :: url[i] == '/'
    {
      a := a - 1;
    }
    TrimTo(url, a);
  }

  /** findDuplicateSlashes: the first slash behind a slash. */
  method FindDuplicateSlashes(url: string) returns (a: int)
    requires Rooted(url)
    ensures a == -1 || Double(url, a)
    ensures a == -1 ==> forall i :: !Double(url, i)
    ensures forall i | 0 <= i < a :: !Double(url, i)
  {
    if |url| < 2 {
      return -1;
    }
    var startedPair := true;
    a := 1;
    while a < |url|
      invariant 1 <= a <= |url| && startedPair == (url[a - 1] == '/')
      invariant forall i | 0 <= i < a :: !Double(url, i)
    {
      if url[a] != '/' {
        startedPair := false;
      } else {
        if startedPair {
          return;
        }
        startedPair := true;
      }
      a := a + 1;
    }
    return -1;
  }

  /** removeDuplicateSlashes compacts in place; `len` is the new size. */
  method RemoveDuplicateSlashes(url: array<char>, size: nat, start: nat) returns (len: nat)
    requires size <= url.Length && start < size && Double(url[..size], start)
    requires forall i | 0 <= i < start :: !Double(url[..size], i)
    modifies url
    ensures len <= size && url[..len] == Collapse(old(url[..size]))
  {
    hide Collapse;
    ghost var s := url[..size];
    var b, to := start + 1, start - 1;
    StartOfDouble(s, start);
    while b < size
      invariant start < b <= size && 0 <= to < b - 1
      invariant url[..to + 1] == Collapse(s[..b]) && url[to] == s[b - 1]
      invariant forall k | b <= k < size :: url[k] == s[k]
    {
      var c := url[b];
      CollapseNext(s, b);
      if c != '/' || url[to] != '/' {
        ghost var done := url[..to + 1];
        to := to + 1;
        url[to] := c;
        assert url[..to] == done;
        assert url[..to + 1] == done + [c];
      }
      b := b + 1;
    }
    len := to + 1;
    assert s[..size] == s;
  }

  lemma CollapseNext(s: string, b: nat)
    requires 0 < b < |s|
    ensures Collapse(s[..b + 1]) == Collapse(s[..b]) + if s[b] == '/' && s[b - 1] == '/' then "" else [s[b]]
  {
    assert Front(s[..b + 1]) == s[..b] && Last(s[..b + 1]) == s[b] && Last(s[..b]) == s[b - 1];
  }

  /** Up to the first double slash nothing collapses. */
  lemma StartOfDouble(s: string, start: nat)
    requires Double(s, start) && forall i | 0 <= i < start :: !Double(s, i)
    ensures Collapse(s[..start + 1]) == s[..start] && Last(s[..start]) == s[start] == '/'
  {
    var front := s[..start];
    forall i
      ensures !Double(front, i)
    {
      if 0 < i < start {
        assert !Double(s, i);
      }
    }
    CollapseSame(front);
    assert Front(s[..start + 1]) == front;
  }

  /** findExcessiveSlashes: where to cut, and the first double slash before that. */
  method FindExcessiveSlashes(url: string) returns (trail: int, dup: int)
    requires Rooted(url)
    ensures trail == -1 <==> Trim(url) == url
    ensures -1 <= trail < |url| && (trail >= 0 ==> Trim(url) == url[..trail + 1])
    ensures dup == -1 || (Double(Trim(url), dup) && forall i | 0 <= i < dup :: !Double(Trim(url), i))
    ensures dup == -1 ==> forall i :: !Double(Trim(url), i)
  {
    if |url| < 2 {
      return -1, -1;
    }
    var trailIdx := |url| - 1;
    while trailIdx > 0 && url[trailIdx] == '/'
      invariant 0 <= trailIdx < |url|
      invariant forall i | trailIdx < i < |url| :: url[i] == '/'
    {
      trailIdx := trailIdx - 1;
    }
    TrimTo(url, trailIdx);
    trail := if trailIdx != |url| - 1 then trailIdx else -1;
    if trailIdx == 0 {
      return 0, -1;
    }
    dup := FirstDouble(url, trailIdx);
    ghost var t := url[..trailIdx + 1];
    assert forall i :: Double(t, i) <==> Double(url, i) && i <= trailIdx;
    if dup == trailIdx {
      dup := -1;
    }
  }

  /** The search of findExcessiveSlashes, up to the last character that is no slash. */
  method FirstDouble(url: string, end: nat) returns (dup: nat)
    requires Rooted(url) && 0 < end < |url| && url[end] != '/'
    ensures 1 <= dup <= end && (forall i | 0 <= i < dup :: !Double(url, i)) && (dup < end ==> Double(url, dup))
  {
    dup := 1;
    var startedPair := true;
    while dup < end
      invariant 1 <= dup <= end && startedPair == (url[dup - 1] == '/')
      invariant forall i | 0 <= i < dup :: !Double(url, i)
    {
      if url[dup] != '/' {
        startedPair := false;
      } else {
        if startedPair {
          return;
        }
        startedPair := true;
      }
      dup := dup + 1;
    }
  }

  method Compact(path: string, start: nat) returns (newPath: string)
    requires Double(path, start) && forall i | 0 <= i < start :: !Double(path, i)
    ensures newPath == Collapse(path)
  {
    var url := new char[|path|](i requires 0 <= i < |path| => path[i]);
    assert url[..|path|] == path;
    var len := RemoveDuplicateSlashes(url, |path|, start);
    newPath := url[..len];
  }

  /** handleReq: the path is normal afterwards, and false is returned for exactly the paths that already were. */
  method HandleReq(path: string, mode: Mode) returns (changed: bool, newPath: string)
    requires Rooted(path)
    ensures newPath == Normal(path, mode)
    ensures changed == (newPath != path)
  {
    newPath := path;
    match mode {
      case Trailing =>
        var find := FindTrailingSlashes(path);
        if find == -1 { return false, path; }
        newPath := path[..find + 1];
      case Duplicate =>
        var find := FindDuplicateSlashes(path);
        if find == -1 {
          CollapseSame(path);
          return false, path;
        }
        CollapseChanges(path, find);
        newPath := Compact(path, find);
      case Both =>
        var trail, dup := FindExcessiveSlashes(path);
        CollapseShorter(Trim(path));
        if dup == -1 { CollapseSame(Trim(path)); }
        if trail == -1 && dup == -1 { return false, path; }
        if trail != -1 {
          newPath := path[..trail + 1];
        }
        if dup != -1 {
          CollapseChanges(Trim(path), dup);
          newPath := Compact(newPath, dup);
        }
    }
    changed := true;
  }
}
