/** The three rate limiters, with time and tokens as reals: how many calls any of them lets through in any stretch of
    time, over whole runs with a clock that never goes back, and when a call is refused. Each limiter is also the object
    it is in the source. */
module Limiters {

  /** A time unit, which is positive. */
  type Unit = u: real | u > 0.0 witness 1.0

  /** No call is timed before the one in front of it. */
  predicate Sorted(times: seq<real>) {
    forall i, j | 0 <= i < j < |times| :: times[i] <= times[j]
  }

  // ----- whole time units -----

  function Units(d: real, unit: Unit): int
  {
    (d / unit).Floor
  }

  /** The length of n units. */
  function Span(n: int, unit: Unit): real { n as real * unit }

  function Ratio(d: real, unit: Unit): real
  {
    d / unit
  }

  lemma Quotient(a: real, b: real, unit: Unit)
    ensures a <= b ==> a / unit <= b / unit
    ensures (a + b) / unit == a / unit + b / unit && unit / unit == 1.0
    ensures (a / unit) * unit == a
  {
  }

  lemma UnitsGrow(a: real, b: real, unit: Unit)
    requires a <= b
    ensures Units(a, unit) <= Units(b, unit)
    ensures a + unit <= b ==> Units(a, unit) + 1 <= Units(b, unit)
    ensures 0.0 <= a ==> 0 <= Units(a, unit)
  {
    Quotient(a, b, unit);
    Quotient(a + unit, b, unit);
    Quotient(a, unit, unit);
    Quotient(0.0, a, unit);
  }

  // ----- windows: what the fixed and the sliding limiter share -----

  /** Calls accepted since call i, by the number of windows begun since: those of the current window are counted by
      `current`, and no window accepted more than `capacity`. */
  predicate Accepted(log: seq<real>, i: nat, start: real, current: nat, capacity: nat, unit: Unit)
    requires i < |log|
  {
    if log[i] >= start then |log| - i <= current
    else |log| - i <= capacity * (Units(start - log[i], unit) + 1) + current
  }

  /** From accepted call i to accepted call j there are at most as many as that many windows hold. */
  predicate PairBound(log: seq<real>, i: nat, j: nat, capacity: nat, unit: Unit)
    requires i <= j < |log|
  {
    j - i + 1 <= capacity * (Units(log[j] - log[i], unit) + 2)
  }

  ghost predicate Windowed(log: seq<real>, start: real, current: nat, capacity: nat, unit: Unit)
  {
    && current <= capacity && Sorted(log)
    && (forall i | 0 <= i < |log| :: log[i] < start + unit && Accepted(log, i, start, current, capacity, unit))
    && (forall i, j | 0 <= i <= j < |log| :: PairBound(log, i, j, capacity, unit))
  }

  /** A new window begins, at least a unit behind the one before. */
  lemma NewWindow(log: seq<real>, start: real, next: real, current: nat, capacity: nat, unit: Unit)
    requires start + unit <= next && Windowed(log, start, current, capacity, unit)
    ensures Windowed(log, next, 0, capacity, unit)
  {
    forall i | 0 <= i < |log|
      ensures log[i] < next && Accepted(log, i, next, 0, capacity, unit)
    {
      assert Accepted(log, i, start, current, capacity, unit);
      NewWindowOne(log, i, start, next, current, capacity, unit);
    }
  }

  lemma NewWindowOne(log: seq<real>, i: nat, start: real, next: real, current: nat, capacity: nat, unit: Unit)
    requires i < |log| && start + unit <= next && log[i] < start + unit && current <= capacity
    requires Accepted(log, i, start, current, capacity, unit)
    ensures Accepted(log, i, next, 0, capacity, unit)
  {
    var u := Units(next - log[i], unit);
    UnitsGrow(0.0, next - log[i], unit);
    if log[i] < start {
      UnitsGrow(start - log[i], next - log[i], unit);
      Scale(capacity, Units(start - log[i], unit) + 2, u + 1);
    } else {
      Scale(capacity, 1, u + 1);
    }
  }

  lemma Scale(capacity: nat, a: int, b: int)
    ensures a <= b ==> capacity * a <= capacity * b
  {
  }

  /** A call is accepted in the current window, which still had room. */
  lemma AcceptWindow(log: seq<real>, start: real, now: real, current: nat, capacity: nat, unit: Unit)
    requires Windowed(log, start, current, capacity, unit) && current < capacity
    requires start <= now < start + unit && (forall i | 0 <= i < |log| :: log[i] <= now)
    ensures Windowed(log + [now], start, current + 1, capacity, unit)
  {
    var n := log + [now];
    forall i | 0 <= i < |n|
      ensures n[i] < start + unit && Accepted(n, i, start, current + 1, capacity, unit)
      ensures PairBound(n, i, |log|, capacity, unit)
    {
      if i < |log| {
        assert Accepted(log, i, start, current, capacity, unit);
      }
      AcceptPair(n, i, start, current + 1, capacity, unit);
    }
    forall i, j | 0 <= i <= j < |n|
      ensures PairBound(n, i, j, capacity, unit)
    {
      if j < |log| {
        assert PairBound(log, i, j, capacity, unit);
      }
    }
  }

  lemma AcceptPair(n: seq<real>, i: nat, start: real, current: nat, capacity: nat, unit: Unit)
    requires i < |n| && current <= capacity && Accepted(n, i, start, current, capacity, unit)
    requires start <= n[|n| - 1] && n[i] <= n[|n| - 1]
    ensures PairBound(n, i, |n| - 1, capacity, unit)
  {
    var d := n[|n| - 1] - n[i];
    UnitsGrow(0.0, d, unit);
    if n[i] < start {
      UnitsGrow(start - n[i], d, unit);
      Scale(capacity, Units(start - n[i], unit) + 2, Units(d, unit) + 2);
    } else {
      Scale(capacity, 1, Units(d, unit) + 2);
    }
  }

  // ----- fixed window -----

  datatype Fixed = Fixed(capacity: nat, unit: Unit, current: nat, lastTime: real)

  function FixedOpen(s: Fixed, now: real): Fixed {
    if now - s.lastTime >= s.unit then s.(current := 0, lastTime := now) else s
  }

  function FixedCall(s: Fixed, now: real): (Fixed, bool) {
    var t := FixedOpen(s, now);
    if t.current < t.capacity then (t.(current := t.current + 1), true) else (t, false)
  }

  /** A limiter with the times of its accepted calls. */
  datatype FixedRun = FixedRun(s: Fixed, log: seq<real>)

  function FixedCalls(r: FixedRun, times: seq<real>): FixedRun
    decreases |times|
  {
    if times == [] then r
    else
      var (s, ok) := FixedCall(r.s, times[0]);
      FixedCalls(FixedRun(s, if ok then r.log + [times[0]] else r.log), times[1..])
  }

  ghost predicate FixedInv(r: FixedRun, now: real) {
    && r.s.lastTime <= now && (forall i | 0 <= i < |r.log| :: r.log[i] <= now)
    && Windowed(r.log, r.s.lastTime, r.s.current, r.s.capacity, r.s.unit)
  }

  lemma FixedStep(r: FixedRun, before: real, now: real)
    requires FixedInv(r, before) && before <= now
    ensures var (s, ok) := FixedCall(r.s, now);
            FixedInv(FixedRun(s, if ok then r.log + [now] else r.log), now)
  {
    hide Windowed;
    var t := FixedOpen(r.s, now);
    if now - r.s.lastTime >= r.s.unit {
      NewWindow(r.log, r.s.lastTime, now, r.s.current, r.s.capacity, r.s.unit);
    }
    if t.current < t.capacity {
      AcceptWindow(r.log, t.lastTime, now, t.current, t.capacity, t.unit);
    }
  }

  lemma {:induction false} FixedCallsInv(r: FixedRun, before: real, times: seq<real>) returns (now: real)
    requires FixedInv(r, before) && Sorted(times) && (times != [] ==> before <= times[0])
    ensures FixedInv(FixedCalls(r, times), now)
    ensures FixedCalls(r, times).s.unit == r.s.unit && FixedCalls(r, times).s.capacity == r.s.capacity
    decreases |times|
  {
    hide FixedInv;
    now := before;
    if times != [] {
      var (s, ok) := FixedCall(r.s, times[0]);
      FixedStep(r, before, times[0]);
      now := FixedCallsInv(FixedRun(s, if ok then r.log + [times[0]] else r.log), times[0], times[1..]);
    }
  }

  /** At every point of a run the calls accepted since the current window began are at most `capacity`. */
  lemma FixedWindowBound(capacity: nat, unit: Unit, created: real, times: seq<real>, i: nat)
    requires Sorted(times) && (times != [] ==> created <= times[0])
    requires i < |FixedCalls(FixedRun(Fixed(capacity, unit, 0, created), []), times).log|
    ensures var r := FixedCalls(FixedRun(Fixed(capacity, unit, 0, created), []), times);
            r.log[i] >= r.s.lastTime ==> |r.log| - i <= capacity
  {
    hide FixedCalls, Units;
    var r := FixedRun(Fixed(capacity, unit, 0, created), []);
    assert FixedInv(r, created);
    var _ := FixedCallsInv(r, created, times);
    var n := FixedCalls(r, times);
    assert Accepted(n.log, i, n.s.lastTime, n.s.current, capacity, unit);
  }

  /** Any stretch of time of length D, between any two accepted calls, accepts at most capacity * (floor(D / unit) + 2)
      calls. */
  lemma FixedBound(capacity: nat, unit: Unit, created: real, times: seq<real>, i: nat, j: nat)
    requires Sorted(times) && (times != [] ==> created <= times[0])
    requires i <= j < |FixedCalls(FixedRun(Fixed(capacity, unit, 0, created), []), times).log|
    ensures var log := FixedCalls(FixedRun(Fixed(capacity, unit, 0, created), []), times).log;
            j - i + 1 <= capacity * (Units(log[j] - log[i], unit) + 2)
  {
    hide FixedCalls, Accepted, Units;
    var r := FixedRun(Fixed(capacity, unit, 0, created), []);
    assert FixedInv(r, created);
    var _ := FixedCallsInv(r, created, times);
    var log := FixedCalls(r, times).log;
    assert PairBound(log, i, j, capacity, unit);
  }

  /** What is counted against the capacity are the last calls accepted, all of them in the current window. */
  predicate Counts(r: FixedRun) {
    r.s.current <= r.s.capacity && r.s.current <= |r.log| &&
    forall i | |r.log| - r.s.current <= i < |r.log| :: r.log[i] >= r.s.lastTime
  }

  lemma CountsStep(r: FixedRun, before: real, now: real)
    requires Counts(r) && r.s.lastTime <= before <= now
    ensures var (s, ok) := FixedCall(r.s, now);
            Counts(FixedRun(s, if ok then r.log + [now] else r.log)) && s.lastTime <= now
  {
  }

  lemma {:induction false} CountsCalls(r: FixedRun, before: real, times: seq<real>)
    requires Counts(r) && r.s.lastTime <= before && Sorted(times) && (times != [] ==> before <= times[0])
    ensures Counts(FixedCalls(r, times))
    decreases |times|
  {
    hide Counts, FixedCall;
    if times != [] {
      var (s, ok) := FixedCall(r.s, times[0]);
      CountsStep(r, before, times[0]);
      CountsCalls(FixedRun(s, if ok then r.log + [times[0]] else r.log), times[0], times[1..]);
    }
  }

  /** No call is refused without need: when one is, the last `capacity` calls accepted all came less than a unit ago. */
  lemma FixedRefusesFull(capacity: nat, unit: Unit, created: real, times: seq<real>, now: real)
    requires Sorted(times + [now]) && created <= (times + [now])[0]
    ensures var r := FixedCalls(FixedRun(Fixed(capacity, unit, 0, created), []), times);
            !FixedCall(r.s, now).1 ==>
              capacity <= |r.log| && forall i | |r.log| - capacity <= i < |r.log| :: now - r.log[i] < unit
  {
    hide FixedCalls;
    var r0 := FixedRun(Fixed(capacity, unit, 0, created), []);
    assert times != [] ==> (times + [now])[0] == times[0];
    assert forall i | 0 <= i < |times| :: (times + [now])[i] == times[i];
    CountsCalls(r0, created, times);
    var _ := FixedCallsInv(r0, created, times);
  }

  // ----- sliding window -----

  datatype Sliding = Sliding(capacity: nat, unit: Unit, current: nat, previous: nat, start: real, lastTime: real)

  /** The window of `now`, and what is carried over into it. */
  function SlidingOpen(s: Sliding, now: real): Sliding
  {
    var start := s.start + Span(Units(now - s.start, s.unit), s.unit);
    if start > s.lastTime then
      s.(start := start, current := 0, previous := if start - s.lastTime >= s.unit then 0 else s.current)
    else s.(start := start)
  }

  /** What the previous window still counts when the current one is `coef` over. */
  function Weighted(previous: nat, coef: real): real { previous as real * (1.0 - coef) }

  function SlidingCall(s: Sliding, now: real): (Sliding, bool)
  {
    var t := SlidingOpen(s, now);
    if Weighted(t.previous, Ratio(now - t.start, t.unit)) + t.current as real < t.capacity as real then
      (t.(current := t.current + 1, lastTime := now), true)
    else (t, false)
  }

  datatype SlidingRun = SlidingRun(s: Sliding, log: seq<real>)

  function SlidingCalls(r: SlidingRun, times: seq<real>): SlidingRun
    decreases |times|
  {
    if times == [] then r
    else
      var (s, ok) := SlidingCall(r.s, times[0]);
      SlidingCalls(SlidingRun(s, if ok then r.log + [times[0]] else r.log), times[1..])
  }

  ghost predicate SlidingInv(r: SlidingRun, now: real) {
    && r.s.start <= now && r.s.lastTime <= now && r.s.lastTime < r.s.start + r.s.unit
    && (forall i | 0 <= i < |r.log| :: r.log[i] <= r.s.lastTime)
    && (r.s.start > r.s.lastTime ==> r.s.current == 0)
    && Windowed(r.log, r.s.start, r.s.current, r.s.capacity, r.s.unit)
  }

  /** The window of `now` begins at or before it and less than a unit ago, where the old one did or whole units
      later. */
  lemma WindowOf(start: real, now: real, unit: Unit)
    requires start <= now
    ensures var n := Units(now - start, unit);
            0 <= n && start + Span(n, unit) <= now < start + Span(n, unit) + unit &&
            (n >= 1 ==> unit <= Span(n, unit)) && (n == 0 ==> Span(n, unit) == 0.0)
  {
    var d := now - start;
    var n := Units(d, unit);
    Quotient(0.0, d, unit);
    SpanHigh(n, d, unit);
    SpanOne(n, unit);
    hide Span;
  }

  lemma SpanHigh(n: int, d: real, unit: Unit)
    requires d / unit < n as real + 1.0
    ensures d < Span(n, unit) + unit
  {
    var q := d / unit;
    Quotient(d, d, unit);
    Times(q, n as real + 1.0, unit);
    assert (n as real + 1.0) * unit == n as real * unit + unit;
  }

  lemma SpanOne(n: int, unit: Unit)
    ensures (n >= 1 ==> unit <= Span(n, unit)) && (n == 0 ==> Span(n, unit) == 0.0)
  {
    if n >= 1 {
      Times(1.0, n as real, unit);
    }
  }

  lemma Times(a: real, b: real, unit: Unit)
    requires a <= b
    ensures a * unit <= b * unit && (a < b ==> a * unit < b * unit)
  {
    assert (b - a) * unit >= 0.0 && (a < b ==> (b - a) * unit > 0.0);
  }

  lemma SlidingOpens(r: SlidingRun, before: real, now: real)
    requires SlidingInv(r, before) && before <= now
    ensures var t := SlidingOpen(r.s, now);
            && SlidingInv(SlidingRun(t, r.log), now) && t.start <= now < t.start + t.unit
            && t.capacity == r.s.capacity && t.unit == r.s.unit
  {
    hide Windowed, Units, Span;
    WindowOf(r.s.start, now, r.s.unit);
    var t := SlidingOpen(r.s, now);
    var n := Units(now - r.s.start, r.s.unit);
    if n >= 1 {
      NewWindow(r.log, r.s.start, t.start, r.s.current, r.s.capacity, r.s.unit);
    }
  }

  /** An accepted call finds fewer than `capacity` in its window. */
  lemma RoomLeft(previous: nat, coef: real, current: nat, capacity: nat)
    requires coef <= 1.0 && Weighted(previous, coef) + current as real < capacity as real
    ensures current < capacity
  {
    assert previous as real * (1.0 - coef) >= 0.0;
  }

  lemma Fraction(d: real, unit: Unit)
    ensures d < unit ==> Ratio(d, unit) <= 1.0
  {
  }

  lemma SlidingStep(r: SlidingRun, before: real, now: real)
    requires SlidingInv(r, before) && before <= now
    ensures var (s, ok) := SlidingCall(r.s, now);
            SlidingInv(SlidingRun(s, if ok then r.log + [now] else r.log), now) &&
            s.unit == r.s.unit && s.capacity == r.s.capacity
  {
    hide Windowed, SlidingOpen, Weighted, Ratio;
    SlidingOpens(r, before, now);
    var t := SlidingOpen(r.s, now);
    var (s, ok) := SlidingCall(r.s, now);
    if ok {
      Fraction(now - t.start, t.unit);
      RoomLeft(t.previous, Ratio(now - t.start, t.unit), t.current, t.capacity);
      AcceptWindow(r.log, t.start, now, t.current, t.capacity, t.unit);
    }
  }

  lemma {:induction false} SlidingCallsInv(r: SlidingRun, before: real, times: seq<real>) returns (now: real)
    requires SlidingInv(r, before) && Sorted(times) && (times != [] ==> before <= times[0])
    ensures SlidingInv(SlidingCalls(r, times), now)
    ensures SlidingCalls(r, times).s.unit == r.s.unit && SlidingCalls(r, times).s.capacity == r.s.capacity
    decreases |times|
  {
    now := before;
    if times != [] {
      var (s, ok) := SlidingCall(r.s, times[0]);
      SlidingStep(r, before, times[0]);
      hide SlidingInv, SlidingCall;
      now := SlidingCallsInv(SlidingRun(s, if ok then r.log + [times[0]] else r.log), times[0], times[1..]);
    }
  }

  /** The same bound for the sliding window, whose windows are aligned to its creation. */
  lemma SlidingBound(capacity: nat, unit: Unit, created: real, times: seq<real>, i: nat, j: nat)
    requires Sorted(times) && (times != [] ==> created <= times[0])
    requires i <= j < |SlidingCalls(SlidingRun(Sliding(capacity, unit, 0, 0, created, created), []), times).log|
    ensures var log := SlidingCalls(SlidingRun(Sliding(capacity, unit, 0, 0, created, created), []), times).log;
            j - i + 1 <= capacity * (Units(log[j] - log[i], unit) + 2)
  {
    hide SlidingCall, SlidingCalls, Accepted, Units;
    var r := SlidingRun(Sliding(capacity, unit, 0, 0, created, created), []);
    assert SlidingInv(r, created);
    var _ := SlidingCallsInv(r, created, times);
    var log := SlidingCalls(r, times).log;
    assert PairBound(log, i, j, capacity, unit);
  }

  // ----- token bucket -----

  datatype Bucket = Bucket(capacity: nat, unit: Unit, lastTime: real, tokens: real)

  /** Tokens that flow in during a time. */
  function Inflow(capacity: nat, d: real, unit: Unit): real
  {
    capacity as real * (d / unit)
  }

  function Refill(s: Bucket, now: real): Bucket
  {
    var more := s.tokens + Inflow(s.capacity, now - s.lastTime, s.unit);
    s.(tokens := if more > s.capacity as real then s.capacity as real else more, lastTime := now)
  }

  function BucketCall(s: Bucket, now: real): (Bucket, bool)
  {
    var t := Refill(s, now);
    if t.tokens > 1.0 then (t.(tokens := t.tokens - 1.0), true) else (t, false)
  }

  datatype BucketRun = BucketRun(s: Bucket, log: seq<real>)

  function BucketCalls(r: BucketRun, times: seq<real>): BucketRun
    decreases |times|
  {
    if times == [] then r
    else
      var (s, ok) := BucketCall(r.s, times[0]);
      BucketCalls(BucketRun(s, if ok then r.log + [times[0]] else r.log), times[1..])
  }

  lemma InflowAdds(capacity: nat, a: real, b: real, unit: Unit)
    ensures Inflow(capacity, a + b, unit) == Inflow(capacity, a, unit) + Inflow(capacity, b, unit)
    ensures 0.0 <= a ==> 0.0 <= Inflow(capacity, a, unit)
    ensures Inflow(capacity, 0.0, unit) == 0.0
  {
    Quotient(a, b, unit);
    Quotient(0.0, a, unit);
    assert capacity as real * (a / unit + b / unit) == capacity as real * (a / unit) + capacity as real * (b / unit);
  }

  /** The potential: calls accepted since call i, and the tokens left, are paid for by a full bucket and the inflow. */
  predicate PaidFor(r: BucketRun, i: nat)
    requires i < |r.log|
  {
    (|r.log| - i) as real + r.s.tokens <=
    r.s.capacity as real + Inflow(r.s.capacity, r.s.lastTime - r.log[i], r.s.unit)
  }

  predicate PairPaid(r: BucketRun, i: nat, j: nat)
    requires i <= j < |r.log|
  {
    (j - i + 1) as real < r.s.capacity as real + Inflow(r.s.capacity, r.log[j] - r.log[i], r.s.unit)
  }

  ghost predicate BucketInv(r: BucketRun) {
    && 0.0 <= r.s.tokens <= r.s.capacity as real
    && (forall i | 0 <= i < |r.log| :: PaidFor(r, i))
    && (forall i, j | 0 <= i <= j < |r.log| :: PairPaid(r, i, j))
  }

  lemma RefillInv(r: BucketRun, now: real)
    requires BucketInv(r) && r.s.lastTime <= now
    ensures BucketInv(BucketRun(Refill(r.s, now), r.log))
  {
    hide Inflow;
    var t := BucketRun(Refill(r.s, now), r.log);
    var d := now - r.s.lastTime;
    InflowAdds(r.s.capacity, d, 0.0, r.s.unit);
    forall i | 0 <= i < |r.log|
      ensures PaidFor(t, i)
    {
      assert PaidFor(r, i);
      InflowAdds(r.s.capacity, r.s.lastTime - r.log[i], d, r.s.unit);
      assert r.s.lastTime - r.log[i] + d == now - r.log[i];
    }
    forall i, j | 0 <= i <= j < |r.log|
      ensures PairPaid(t, i, j)
    {
      assert PairPaid(r, i, j);
    }
  }

  lemma BucketStep(r: BucketRun, now: real)
    requires BucketInv(r) && r.s.lastTime <= now
    ensures var (s, ok) := BucketCall(r.s, now);
            BucketInv(BucketRun(s, if ok then r.log + [now] else r.log)) && s.lastTime == now &&
            s.unit == r.s.unit && s.capacity == r.s.capacity
  {
    hide Inflow;
    RefillInv(r, now);
    var t := BucketRun(Refill(r.s, now), r.log);
    if t.s.tokens > 1.0 {
      SpendInv(t, now);
    }
  }

  lemma SpendInv(t: BucketRun, now: real)
    requires BucketInv(t) && t.s.lastTime == now && t.s.tokens > 1.0
    ensures BucketInv(BucketRun(t.s.(tokens := t.s.tokens - 1.0), t.log + [now]))
  {
    hide Inflow;
    var n := BucketRun(t.s.(tokens := t.s.tokens - 1.0), t.log + [now]);
    InflowAdds(t.s.capacity, 0.0, 0.0, t.s.unit);
    forall i | 0 <= i < |n.log|
      ensures PaidFor(n, i) && PairPaid(n, i, |t.log|)
    {
      if i < |t.log| {
        assert PaidFor(t, i);
      }
    }
    forall i, j | 0 <= i <= j < |n.log|
      ensures PairPaid(n, i, j)
    {
      if j < |t.log| {
        assert PairPaid(t, i, j);
      }
    }
  }

  lemma {:induction false} BucketCallsInv(r: BucketRun, times: seq<real>)
    requires BucketInv(r) && Sorted(times) && (times != [] ==> r.s.lastTime <= times[0])
    ensures BucketInv(BucketCalls(r, times))
    ensures BucketCalls(r, times).s.unit == r.s.unit && BucketCalls(r, times).s.capacity == r.s.capacity
    decreases |times|
  {
    if times != [] {
      var (s, ok) := BucketCall(r.s, times[0]);
      BucketStep(r, times[0]);
      hide BucketCall, PaidFor, PairPaid;
      BucketCallsInv(BucketRun(s, if ok then r.log + [times[0]] else r.log), times[1..]);
    }
  }

  /** Between any two accepted calls a time D apart, those two included, fewer than capacity + capacity * D / unit calls
      are accepted. */
  lemma BucketBound(capacity: nat, unit: Unit, created: real, times: seq<real>, i: nat, j: nat)
    requires Sorted(times) && (times != [] ==> created <= times[0])
    requires i <= j < |BucketCalls(BucketRun(Bucket(capacity, unit, created, capacity as real), []), times).log|
    ensures var log := BucketCalls(BucketRun(Bucket(capacity, unit, created, capacity as real), []), times).log;
            (j - i + 1) as real < capacity as real + Inflow(capacity, log[j] - log[i], unit)
  {
    hide Inflow, BucketCall, PaidFor;
    var r := BucketRun(Bucket(capacity, unit, created, capacity as real), []);
    BucketCallsInv(r, times);
    assert PairPaid(BucketCalls(r, times), i, j);
  }

  function Full(capacity: nat, unit: Unit, created: real): BucketRun {
    BucketRun(Bucket(capacity, unit, created, capacity as real), [])
  }

  lemma {:induction false} NeverAbove(r: BucketRun, times: seq<real>)
    requires BucketInv(r) && r.s.capacity <= 1 && Sorted(times) && (times != [] ==> r.s.lastTime <= times[0])
    ensures BucketCalls(r, times).log == r.log
    decreases |times|
  {
    if times != [] {
      var (s, ok) := BucketCall(r.s, times[0]);
      BucketStep(r, times[0]);
      assert !ok;
      NeverAbove(BucketRun(s, r.log), times[1..]);
    }
  }

  predicate Later(created: real, times: seq<real>) { Sorted(times) && (times != [] ==> created <= times[0]) }

  /** A bucket never lets any call through, in any run, if and only if its capacity is at most one: the comparison with
      one token is strict. */
  lemma OneTokenNeverAllows(capacity: nat, unit: Unit, created: real)
    ensures capacity <= 1 <==>
            (forall times | Later(created, times) :: BucketCalls(Full(capacity, unit, created), times).log == [])
  {
    var r := Full(capacity, unit, created);
    if capacity <= 1 {
      forall times | Later(created, times)
        ensures BucketCalls(r, times).log == []
      {
        NeverAbove(r, times);
      }
    } else {
      var times := [created];
      assert Later(created, times);
      InflowAdds(capacity, 0.0, 0.0, unit);
      hide Inflow;
      var (s, ok) := BucketCall(r.s, created);
      assert ok;
      assert times[1..] == [] && BucketCalls(r, times) == BucketCalls(BucketRun(s, [created]), []);
    }
  }

  /** After a whole unit without calls, anywhere in any run, the next call is let through if and only if the capacity is
      at least two. */
  lemma IdleUnitAllows(capacity: nat, unit: Unit, created: real, times: seq<real>, now: real)
    requires Later(created, times)
    requires now - BucketCalls(Full(capacity, unit, created), times).s.lastTime >= unit
    ensures BucketCall(BucketCalls(Full(capacity, unit, created), times).s, now).1 <==> capacity >= 2
  {
    hide BucketCalls, Inflow;
    BucketCallsInv(Full(capacity, unit, created), times);
    var r := BucketCalls(Full(capacity, unit, created), times);
    UnitFills(capacity, now - r.s.lastTime, unit);
  }

  /** The tokens are those of a bucket that was full at time t, what flowed in since, and one less for each of the n
      calls accepted since. */
  predicate SpentSince(r: BucketRun, t: real, n: nat) {
    && n <= |r.log| && t <= r.s.lastTime
    && (forall i | |r.log| - n <= i < |r.log| :: r.log[i] >= t)
    && r.s.tokens == r.s.capacity as real + Inflow(r.s.capacity, r.s.lastTime - t, r.s.unit) - n as real
  }

  lemma SpentStep(r: BucketRun, t: real, n: nat, now: real) returns (u: real, m: nat)
    requires SpentSince(r, t, n) && r.s.lastTime <= now
    ensures var (s, ok) := BucketCall(r.s, now);
            SpentSince(BucketRun(s, if ok then r.log + [now] else r.log), u, m)
    ensures SpentSince(BucketRun(Refill(r.s, now), r.log), u, if BucketCall(r.s, now).1 && m > 0 then m - 1 else m)
    ensures BucketCall(r.s, now).1 ==> m > 0
  {
    hide Inflow;
    var d := now - r.s.lastTime;
    InflowAdds(r.s.capacity, r.s.lastTime - t, d, r.s.unit);
    assert r.s.lastTime - t + d == now - t;
    InflowAdds(r.s.capacity, 0.0, 0.0, r.s.unit);
    var full := r.s.tokens + Inflow(r.s.capacity, d, r.s.unit) > r.s.capacity as real;
    u, m := if full then now else t, if full then 0 else n;
    if BucketCall(r.s, now).1 {
      m := m + 1;
    }
  }

  lemma {:induction false} SpentCalls(r: BucketRun, t: real, n: nat, times: seq<real>) returns (u: real, m: nat)
    requires SpentSince(r, t, n) && Sorted(times) && (times != [] ==> r.s.lastTime <= times[0])
    ensures SpentSince(BucketCalls(r, times), u, m)
    decreases |times|
  {
    hide SpentSince;
    u, m := t, n;
    if times != [] {
      var (s, ok) := BucketCall(r.s, times[0]);
      u, m := SpentStep(r, t, n, times[0]);
      u, m := SpentCalls(BucketRun(s, if ok then r.log + [times[0]] else r.log), u, m, times[1..]);
    }
  }

  /** Every decision of every run: there is a time such that a call is accepted if and only if the calls accepted since
      then, and the one token that has to be left, use up less than a full bucket and what flowed in. */
  lemma BucketDecides(capacity: nat, unit: Unit, created: real, times: seq<real>, now: real)
    returns (t: real, n: nat)
    requires Later(created, times) && BucketCalls(Full(capacity, unit, created), times).s.lastTime <= now
    ensures var r := BucketCalls(Full(capacity, unit, created), times);
            && n <= |r.log| && t <= now && (forall i | |r.log| - n <= i < |r.log| :: r.log[i] >= t)
            && (BucketCall(r.s, now).1 <==> n as real + 1.0 < capacity as real + Inflow(capacity, now - t, unit))
  {
    hide BucketCalls, Inflow;
    var r0 := Full(capacity, unit, created);
    InflowAdds(capacity, 0.0, 0.0, unit);
    BucketKeeps(r0, times);
    var u, k := SpentCalls(r0, created, 0, times);
    var r := BucketCalls(r0, times);
    var m: nat;
    t, m := SpentStep(r, u, k, now);
    n := if BucketCall(r.s, now).1 then m - 1 else m;
    assert SpentSince(BucketRun(Refill(r.s, now), r.log), t, n);
  }

  lemma {:induction false} BucketKeeps(r: BucketRun, times: seq<real>)
    ensures BucketCalls(r, times).s.capacity == r.s.capacity && BucketCalls(r, times).s.unit == r.s.unit
    decreases |times|
  {
    hide Inflow;
    if times != [] {
      var (s, ok) := BucketCall(r.s, times[0]);
      BucketKeeps(BucketRun(s, if ok then r.log + [times[0]] else r.log), times[1..]);
    }
  }

  lemma UnitFills(capacity: nat, d: real, unit: Unit)
    requires d >= unit
    ensures Inflow(capacity, d, unit) >= capacity as real
  {
    Quotient(unit, d, unit);
    Quotient(unit, unit, unit);
    var q := d / unit;
    assert q >= 1.0;
    assert capacity as real * q >= capacity as real * 1.0;
  }

  // ----- the objects -----

  class FixedWindowRateLimiter {
    const capacity: nat
    const timeUnit: Unit
    var currentRequests: nat
    var lastTime: real

    function Abs(): Fixed
      reads this
    {
      Fixed(capacity, timeUnit, currentRequests, lastTime)
    }

    constructor (capacity: nat, timeUnit: Unit, now: real)
      ensures Abs() == Fixed(capacity, timeUnit, 0, now)
    {
      this.capacity, this.timeUnit, currentRequests, lastTime := capacity, timeUnit, 0, now;
    }

    method IsAllowed(now: real) returns (ok: bool)
      modifies this
      ensures (Abs(), ok) == FixedCall(old(Abs()), now)
    {
      if now - lastTime >= timeUnit {
        currentRequests, lastTime := 0, now;
      }
      if currentRequests < capacity {
        currentRequests := currentRequests + 1;
        return true;
      }
      return false;
    }
  }

  class SlidingWindowRateLimiter {
    const capacity: nat
    const timeUnit: Unit
    var currentRequests: nat
    var previousRequests: nat
    var unitStartTime: real
    var lastTime: real

    function Abs(): Sliding
      reads this
    {
      Sliding(capacity, timeUnit, currentRequests, previousRequests, unitStartTime, lastTime)
    }

    constructor (capacity: nat, timeUnit: Unit, now: real)
      ensures Abs() == Sliding(capacity, timeUnit, 0, 0, now, now)
    {
      this.capacity, this.timeUnit, currentRequests, previousRequests := capacity, timeUnit, 0, 0;
      unitStartTime, lastTime := now, now;
    }

    method IsAllowed(now: real) returns (ok: bool)
      modifies this
      ensures (Abs(), ok) == SlidingCall(old(Abs()), now)
    {
      hide Units, Span, Weighted, Ratio;
      unitStartTime := unitStartTime + Span(Units(now - unitStartTime, timeUnit), timeUnit);
      if unitStartTime > lastTime {
        if unitStartTime - lastTime >= timeUnit {
          previousRequests := 0;
        } else {
          previousRequests := currentRequests;
        }
        currentRequests := 0;
      }
      var coef := Ratio(now - unitStartTime, timeUnit);
      var count := Weighted(previousRequests, coef) + currentRequests as real;
      if count < capacity as real {
        currentRequests, lastTime := currentRequests + 1, now;
        return true;
      }
      return false;
    }
  }

  class TokenBucketRateLimiter {
    const capacity: nat
    const timeUnit: Unit
    var lastTime: real
    var tokens: real

    function Abs(): Bucket
      reads this
    {
      Bucket(capacity, timeUnit, lastTime, tokens)
    }

    constructor (capacity: nat, timeUnit: Unit, now: real)
      ensures Abs() == Bucket(capacity, timeUnit, now, capacity as real)
    {
      this.capacity, this.timeUnit, lastTime, tokens := capacity, timeUnit, now, capacity as real;
    }

    method IsAllowed(now: real) returns (ok: bool)
      modifies this
      ensures (Abs(), ok) == BucketCall(old(Abs()), now)
    {
      hide Inflow;
      tokens := tokens + Inflow(capacity, now - lastTime, timeUnit);
      if tokens > capacity as real {
        tokens := capacity as real;
      }
      lastTime := now;
      if tokens > 1.0 {
        tokens := tokens - 1.0;
        return true;
      }
      return false;
    }
  }
}
