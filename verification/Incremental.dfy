/** When cutting an input into packets makes no difference to an incremental parser: what its rounds must satisfy,
    and the theorems that follow for any such parser. */
module Incremental {

  // A parser is a loop over a byte buffer: each round looks at the buffer, consumes a prefix of it or not, and either
  // goes round again or returns to wait for the next packet.

  /** What one round of a parser's loop does with the buffer. */
  datatype Outcome<S> =
    | Advance(next: S, rest: string)  // go round again with what is left
    | Pause(next: S, rest: string)    // return, keeping `rest` for the next packet
    | Halt(next: S)                   // nothing that arrives later matters
    | Over(next: S)                   // gave up: an unfinished line passed the size limit

  /** A step function, a rank for rounds that consume nothing, and the rounds whose line fits the limit. */
  datatype Machine<!S> = Machine(step: (S, string) -> Outcome<S>, rank: S -> nat, fits: (S, string) -> bool)

  /** A round that goes round again consumed something or lowered the rank. */
  ghost predicate Progress<S>(m: Machine<S>, s: S, b: string) {
    match m.step(s, b)
    case Advance(t, r) => |r| < |b| || (|r| == |b| && m.rank(t) < m.rank(s))
    case _ => true
  }

  /** Bytes that arrive later do not change what a round already decided. */
  ghost predicate Stable<S>(m: Machine<S>, s: S, b: string, x: string) {
    match m.step(s, b)
    case Advance(t, r) => m.step(s, b + x) == Advance(t, r + x)
    case Pause(t, r) => m.step(t, r + x) == m.step(s, b + x) && m.fits(t, r + x) == m.fits(s, b + x)
    case Halt(t) => m.step(s, b + x) == Halt(t)
    case Over(t) => m.step(s, b + x) == Over(t) || !m.fits(s, b + x)
  }

  /** A round looks no further than what it consumes. */
  ghost predicate Local<S>(m: Machine<S>, s: S, b: string, n: nat)
    requires 0 < n <= |b|
  {
    match m.step(s, b)
    case Advance(t, r) =>
      |r| <= |b| && r == b[|b| - |r|..] &&
      (|b| - |r| <= n ==> m.step(s, b[..n]) == Advance(t, b[|b| - |r|..n]))
    case _ => true
  }

  /** A round whose line is too long meets the limit when only part of the line has arrived. */
  ghost predicate Exposed<S>(m: Machine<S>, s: S, b: string) {
    m.fits(s, b) || m.step(s, b).Over? || exists k | 0 < k <= |b| :: m.step(s, b[..k]).Over?
  }

  /** Everything a parser owes for the theorems below. */
  ghost predicate Coherent<S(!new)>(m: Machine<S>) {
    && (forall s, b :: Progress(m, s, b))
    && (forall s, b, x :: Stable(m, s, b, x))
    && (forall s, b, n: nat | 0 < n <= |b| :: Local(m, s, b, n))
    && (forall s, b :: Exposed(m, s, b))
    && (forall s :: !m.step(s, "").Over?)
  }

  /** A parser between two packets. */
  datatype Final<S> =
    | Waiting(state: S, rest: string)
    | Halted(state: S)
    | OverLimit(state: S)

  /** The whole loop on one buffer. */
  ghost function Run<S(!new)>(m: Machine<S>, s: S, b: string): Final<S>
    requires Coherent(m)
    decreases |b|, m.rank(s)
  {
    match m.step(s, b)
    case Advance(t, r) => assert Progress(m, s, b); Run(m, t, r)
    case Pause(t, r) => Waiting(t, r)
    case Halt(t) => Halted(t)
    case Over(t) => OverLimit(t)
  }

  /** A packet arrives. */
  ghost function Feed<S(!new)>(m: Machine<S>, f: Final<S>, packet: string): Final<S>
    requires Coherent(m)
  {
    if f.Waiting? then Run(m, f.state, f.rest + packet) else f
  }

  ghost function FeedAll<S(!new)>(m: Machine<S>, f: Final<S>, packets: seq<string>): Final<S>
    requires Coherent(m)
    decreases |packets|
  {
    if packets == [] then f else FeedAll(m, Feed(m, f, packets[0]), packets[1..])
  }

  ghost function Concat(packets: seq<string>): string {
    if packets == [] then "" else packets[0] + Concat(packets[1..])
  }

  /** No line of the uncut input is longer than the limit. */
  ghost predicate Fits<S(!new)>(m: Machine<S>, s: S, b: string)
    requires Coherent(m)
    decreases |b|, m.rank(s)
  {
    m.fits(s, b) &&
    match m.step(s, b)
    case Advance(t, r) => assert Progress(m, s, b); Fits(m, t, r)
    case Over(_) => false
    case _ => true
  }

  /** One cut: stopping after `a` and going on with `x` is the same as seeing `a + x`, unless the first
      half stopped at the size limit. */
  lemma {:induction false} RunSplit<S(!new)>(m: Machine<S>, s: S, a: string, x: string)
    requires Coherent(m)
    ensures Run(m, s, a).OverLimit? || Feed(m, Run(m, s, a), x) == Run(m, s, a + x)
    decreases |a|, m.rank(s)
  {
    assert Stable(m, s, a, x) && Progress(m, s, a);
    match m.step(s, a)
    case Advance(t, r) => RunSplit(m, t, r, x);
    case _ =>
  }

  /** If the uncut input fits the limit, its first half never stops there and leaves an input that fits. */
  lemma {:induction false} FitsSplit<S(!new)>(m: Machine<S>, s: S, a: string, x: string)
    requires Coherent(m) && Fits(m, s, a + x)
    ensures !Run(m, s, a).OverLimit?
    ensures Run(m, s, a).Waiting? ==> Fits(m, Run(m, s, a).state, Run(m, s, a).rest + x)
    decreases |a|, m.rank(s)
  {
    assert Stable(m, s, a, x) && Progress(m, s, a);
    match m.step(s, a)
    case Advance(t, r) => FitsSplit(m, t, r, x);
    case _ =>
  }

  lemma {:induction false} FeedAllStopped<S(!new)>(m: Machine<S>, f: Final<S>, packets: seq<string>)
    requires Coherent(m) && !f.Waiting?
    ensures FeedAll(m, f, packets) == f
  {
    if packets != [] {
      FeedAllStopped(m, f, packets[1..]);
    }
  }

  /** Any fragmentation of an input that fits gives what the uncut input gives. */
  lemma {:induction false} FeedAllIsRun<S(!new)>(m: Machine<S>, f: Final<S>, packets: seq<string>)
    requires Coherent(m) && packets != []
    requires f.Waiting? ==> Fits(m, f.state, f.rest + Concat(packets))
    ensures FeedAll(m, f, packets) == Feed(m, f, Concat(packets))
    decreases |packets|
  {
    if !f.Waiting? {
      FeedAllStopped(m, f, packets);
    } else {
      var p, tail := packets[0], packets[1..];
      assert FeedAll(m, f, packets) == FeedAll(m, Feed(m, f, p), tail);
      if tail == [] {
        assert p + Concat(tail) == p;
      } else {
        assert f.rest + (p + Concat(tail)) == (f.rest + p) + Concat(tail);
        FitsSplit(m, f.state, f.rest + p, Concat(tail));
        RunSplit(m, f.state, f.rest + p, Concat(tail));
        FeedAllIsRun(m, Feed(m, f, p), tail);
      }
    }
  }

  /** An input that does not fit has a prefix on which the parser gives up. */
  lemma {:induction false} OverLimitPrefix<S(!new)>(m: Machine<S>, s: S, b: string) returns (k: nat)
    requires Coherent(m) && !Fits(m, s, b)
    ensures k <= |b| && Run(m, s, b[..k]).OverLimit?
    decreases |b|, m.rank(s)
  {
    assert Progress(m, s, b) && Exposed(m, s, b);
    assert b[..|b|] == b;
    if m.step(s, b).Over? {
      k := |b|;
    } else if !m.fits(s, b) {
      k :| 0 < k <= |b| && m.step(s, b[..k]).Over?;
    } else {
      var t, r := m.step(s, b).next, m.step(s, b).rest;
      var j := OverLimitPrefix(m, t, r);
      k := |b| - |r| + j;
      if k == 0 {
        assert b[..k] == "" && r[..j] == "";
        NeverOverOnEmpty(m, t);
        assert false;
      }
      assert Local(m, s, b, k);
      assert b[|b| - |r|..k] == r[..j];
      assert Progress(m, s, b[..k]);
    }
  }

  lemma {:induction false} NeverOverOnEmpty<S(!new)>(m: Machine<S>, s: S)
    requires Coherent(m)
    ensures !Run(m, s, "").OverLimit?
    decreases m.rank(s)
  {
    assert Progress(m, s, "");
    match m.step(s, "")
    case Advance(t, r) => NeverOverOnEmpty(m, t);
    case _ =>
  }

  /** The result on `b` is the same however `b` is cut, and never the size limit. */
  ghost predicate Agrees<S(!new)>(m: Machine<S>, s: S, b: string, packets: seq<string>)
    requires Coherent(m)
  {
    FeedAll(m, Waiting(s, ""), packets) == Run(m, s, b) && !Run(m, s, b).OverLimit?
  }

  /** The network cannot change the result of a parse exactly when no line passes the size limit. */
  lemma FragmentationInvariance<S(!new)>(m: Machine<S>, s: S, b: string)
    requires Coherent(m)
    ensures Fits(m, s, b) <==>
            (forall packets | packets != [] && Concat(packets) == b :: Agrees(m, s, b, packets))
  {
    if Fits(m, s, b) {
      assert "" + b == b && b + "" == b;
      FitsSplit(m, s, b, "");
      forall packets | packets != [] && Concat(packets) == b
        ensures Agrees(m, s, b, packets)
      {
        FeedAllIsRun(m, Waiting(s, ""), packets);
      }
    } else {
      var k := OverLimitPrefix(m, s, b);
      var packets := [b[..k], b[k..]];
      assert packets[1..] == [b[k..]] && packets[1..][1..] == [];
      assert Concat([b[k..]]) == b[k..] + Concat([]);
      assert Concat(packets) == b[..k] + b[k..] == b;
      var f := Run(m, s, b[..k]);
      assert "" + b[..k] == b[..k];
      assert Feed(m, Waiting(s, ""), b[..k]) == f;
      FeedAllStopped(m, f, packets[1..]);
      assert FeedAll(m, Waiting(s, ""), packets) == f;
      assert !Agrees(m, s, b, packets);
    }
  }
}
