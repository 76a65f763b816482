/** The sliding window limiter against its log of accepted calls: what every window accepts, what each decision is by
    the log, exactly when the estimate is right, and a run in which it is not. */
module SlidingEstimate {
  import opened Limiters

  /** The start of the window of `t`: windows are whole units from the creation on. */
  function WindowStart(created: real, t: real, unit: Unit): real {
    created + Span(Units(t - created, unit), unit)
  }

  /** Accepted calls from `from` on and before `to`. */
  function Count(log: seq<real>, from: real, to: real): nat {
    if log == [] then 0
    else
      var last := log[|log| - 1];
      Count(log[..|log| - 1], from, to) + if from <= last < to then 1 else 0
  }

  function New(capacity: nat, unit: Unit, created: real): SlidingRun {
    SlidingRun(Sliding(capacity, unit, 0, 0, created, created), [])
  }

  function Called(r: SlidingRun, now: real): SlidingRun {
    var (s, ok) := SlidingCall(r.s, now);
    SlidingRun(s, if ok then r.log + [now] else r.log)
  }

  lemma {:induction false} CountNone(log: seq<real>, from: real, to: real)
    requires forall i | 0 <= i < |log| :: !(from <= log[i] < to)
    ensures Count(log, from, to) == 0
  {
    if log != [] {
      CountNone(log[..|log| - 1], from, to);
    }
  }

  lemma CountSnoc(log: seq<real>, t: real, from: real, to: real)
    ensures Count(log + [t], from, to) == Count(log, from, to) + if from <= t < to then 1 else 0
  {
    assert (log + [t])[..|log|] == log;
  }

  // ----- the grid -----

  lemma SpanAdds(m: int, n: int, unit: Unit)
    ensures Span(m + n, unit) == Span(m, unit) + Span(n, unit) && Span(1, unit) == unit && Span(0, unit) == 0.0
  {
    assert (m + n) as real * unit == m as real * unit + n as real * unit;
  }

  /** A point less than a unit behind the n-th window start is in the n-th window. */
  lemma InWindow(created: real, n: int, t: real, unit: Unit)
    requires created + Span(n, unit) <= t < created + Span(n, unit) + unit
    ensures Units(t - created, unit) == n && WindowStart(created, t, unit) == created + Span(n, unit)
  {
    var d := t - created;
    SpanAdds(n, 1, unit);
    Quotient(Span(n, unit), d, unit);
    SpanUnits(n, unit);
    SpanUnits(n + 1, unit);
    Below(d, Span(n + 1, unit), unit);
  }

  lemma SpanUnits(n: int, unit: Unit)
    ensures Span(n, unit) / unit == n as real
  {
  }

  lemma Below(a: real, b: real, unit: Unit)
    requires a < b
    ensures a / unit < b / unit
  {
    RatioZero(b - a, unit);
    Quotient(a, b - a, unit);
  }

  // ----- what every window accepts -----

  /** Any two calls accepted in one window are among at most `capacity`. */
  predicate WindowPair(log: seq<real>, i: nat, j: nat, created: real, capacity: nat, unit: Unit)
    requires i <= j < |log|
  {
    WindowStart(created, log[i], unit) == WindowStart(created, log[j], unit) ==> j - i + 1 <= capacity
  }

  ghost predicate GridInv(r: SlidingRun, created: real, n: int, now: real) {
    && SlidingInv(r, now) && r.s.start == created + Span(n, r.s.unit)
    && forall i, j | 0 <= i <= j < |r.log| :: WindowPair(r.log, i, j, created, r.s.capacity, r.s.unit)
  }

  lemma GridOpens(r: SlidingRun, created: real, n: int, before: real, now: real) returns (m: int)
    requires GridInv(r, created, n, before) && before <= now
    ensures var t := SlidingOpen(r.s, now);
            && m >= n && t.start == created + Span(m, r.s.unit) == WindowStart(created, now, r.s.unit)
            && t.start == r.s.start + Span(m - n, r.s.unit) && t.start <= now < t.start + t.unit
            && (m == n ==> t.start == r.s.start) && (m > n ==> t.start >= r.s.start + r.s.unit)
            && SlidingInv(SlidingRun(t, r.log), now)
            && t.capacity == r.s.capacity && t.unit == r.s.unit
  {
    hide Windowed, Span, Units, WindowStart;
    var k := Units(now - r.s.start, r.s.unit);
    WindowOf(r.s.start, now, r.s.unit);
    SlidingOpens(r, before, now);
    SpanAdds(n, k, r.s.unit);
    SpanOne(k, r.s.unit);
    m := n + k;
    InWindow(created, m, now, r.s.unit);
  }

  lemma GridStep(r: SlidingRun, created: real, n: int, before: real, now: real) returns (m: int)
    requires GridInv(r, created, n, before) && before <= now
    ensures GridInv(Called(r, now), created, m, now)
    ensures Called(r, now).s.unit == r.s.unit && Called(r, now).s.capacity == r.s.capacity
  {
    hide Windowed, SlidingOpen, Weighted, Ratio, Span, Units, WindowStart;
    m := GridOpens(r, created, n, before, now);
    SlidingStep(r, before, now);
    var q, unit := Called(r, now), r.s.unit;
    forall i, j | 0 <= i <= j < |q.log|
      ensures WindowPair(q.log, i, j, created, q.s.capacity, unit)
    {
      if j < |r.log| {
        assert WindowPair(r.log, i, j, created, r.s.capacity, unit);
      } else {
        LastPair(q, i, created, now);
      }
    }
  }

  lemma LastPair(q: SlidingRun, i: nat, created: real, now: real)
    requires SlidingInv(q, now) && i < |q.log| && q.s.start <= q.log[|q.log| - 1]
    requires q.s.start == WindowStart(created, q.log[|q.log| - 1], q.s.unit)
    ensures WindowPair(q.log, i, |q.log| - 1, created, q.s.capacity, q.s.unit)
  {
    assert Accepted(q.log, i, q.s.start, q.s.current, q.s.capacity, q.s.unit);
    StartBefore(created, q.log[i], q.s.unit);
  }

  lemma StartBefore(created: real, t: real, unit: Unit)
    ensures WindowStart(created, t, unit) <= t
  {
    var d := t - created;
    Quotient(d, d, unit);
    Times(Units(d, unit) as real, d / unit, unit);
  }

  lemma {:induction false} GridCalls(r: SlidingRun, created: real, n: int, before: real, times: seq<real>)
    returns (m: int, now: real)
    requires GridInv(r, created, n, before) && Sorted(times) && (times != [] ==> before <= times[0])
    ensures GridInv(SlidingCalls(r, times), created, m, now) && (times != [] ==> now == times[|times| - 1])
    ensures times == [] ==> now == before
    ensures SlidingCalls(r, times).s.unit == r.s.unit && SlidingCalls(r, times).s.capacity == r.s.capacity
    decreases |times|
  {
    hide GridInv, SlidingCall;
    m, now := n, before;
    if times != [] {
      m := GridStep(r, created, n, before, times[0]);
      m, now := GridCalls(Called(r, times[0]), created, m, times[0], times[1..]);
    }
  }

  lemma NewGrid(capacity: nat, unit: Unit, created: real)
    ensures GridInv(New(capacity, unit, created), created, 0, created)
  {
  }

  /** No window, counted in whole units from the creation of the limiter, accepts more than `capacity` calls. */
  lemma SlidingWindowBound(capacity: nat, unit: Unit, created: real, times: seq<real>, i: nat, j: nat)
    requires Sorted(times) && (times != [] ==> created <= times[0])
    requires i <= j < |SlidingCalls(New(capacity, unit, created), times).log|
    ensures var log := SlidingCalls(New(capacity, unit, created), times).log;
            WindowStart(created, log[i], unit) == WindowStart(created, log[j], unit) ==> j - i + 1 <= capacity
  {
    hide SlidingInv, SlidingCall;
    NewGrid(capacity, unit, created);
    var _, _ := GridCalls(New(capacity, unit, created), created, 0, created, times);
    assert WindowPair(SlidingCalls(New(capacity, unit, created), times).log, i, j, created, capacity, unit);
  }

  // ----- what the limiter goes by -----

  /** When the window before `start` counts for nothing although it accepted calls: all of them came exactly at its
      start, or it was full and a call came exactly at `start`. */
  predicate Forgets(capacity: nat, unit: Unit, log: seq<real>, times: seq<real>, start: real) {
    var previous := Count(log, start - unit, start);
    && previous > 0
    && (AtItsStart(log, start - unit, start) || (previous >= capacity && start in times))
  }

  predicate AtItsStart(log: seq<real>, from: real, to: real) {
    forall t | t in log :: from <= t < to ==> t == from
  }

  /** What the window before `start` counts for. */
  function Remembered(capacity: nat, unit: Unit, log: seq<real>, times: seq<real>, start: real): nat {
    if Forgets(capacity, unit, log, times, start) then 0 else Count(log, start - unit, start)
  }

  /** The state after the calls at `times`, told from the calls and the log. */
  ghost predicate Tracks(r: SlidingRun, created: real, times: seq<real>) {
    var s := r.s;
    && created <= s.start && (forall t | t in times :: t < s.start + s.unit)
    && (if r.log == [] then s.lastTime == created else s.lastTime == r.log[|r.log| - 1] && s.lastTime in times)
    && s.current == Count(r.log, s.start, s.start + s.unit)
    && if s.lastTime >= s.start then s.previous == Remembered(s.capacity, s.unit, r.log, times, s.start)
       else r.log == [] || (s.start in times && Count(r.log, s.start - s.unit, s.start) >= s.capacity > 0)
  }

  /** The state a call at `now` is judged in. */
  ghost predicate Opened(q: SlidingRun, created: real, times: seq<real>, now: real) {
    var s := q.s;
    && created <= s.start <= now < s.start + s.unit && s.lastTime <= now
    && (forall t | t in times :: t < s.start + s.unit)
    && (if q.log == [] then s.lastTime == created
        else s.lastTime == q.log[|q.log| - 1] && s.lastTime in times && s.capacity > 0)
    && s.current == Count(q.log, s.start, s.start + s.unit)
    && s.previous == Remembered(s.capacity, s.unit, q.log, times, s.start)
    && (s.lastTime < s.start ==> s.current == 0 && s.previous <= s.capacity)
  }

  lemma CountWithin(r: SlidingRun, now: real)
    requires SlidingInv(r, now)
    ensures r.s.current <= r.s.capacity && (r.s.capacity == 0 ==> r.log == [])
  {
    if r.log != [] {
      assert PairBound(r.log, 0, 0, r.s.capacity, r.s.unit);
    }
  }

  lemma FarSpan(k: int, unit: Unit)
    requires k >= 2
    ensures Span(k, unit) >= unit + unit
  {
    Times(2.0, k as real, unit);
  }

  /** What a window opened at `now` starts from. */
  lemma TracksOpens(r: SlidingRun, created: real, times: seq<real>, n: int, before: real, now: real)
    requires GridInv(r, created, n, before) && before <= now && Tracks(r, created, times)
    ensures var s := SlidingOpen(r.s, now);
            s.start == WindowStart(created, now, s.unit) && Opened(SlidingRun(s, r.log), created, times, now)
  {
    hide Windowed, Span, Units, WindowStart, Forgets, Count;
    var m := GridOpens(r, created, n, before, now);
    var t, s := SlidingOpen(r.s, now), r.s;
    SpanAdds(0, 0, s.unit);
    CountWithin(r, before);
    if m == n {
      OpenedAgain(r, created, times);
    } else {
      CountNone(r.log, t.start, t.start + t.unit);
      if m == n + 1 {
        assert t.start == s.start + s.unit;
        NextWindow(r, created, times);
      } else {
        FarSpan(m - n, s.unit);
        CountNone(r.log, t.start - t.unit, t.start);
        NothingForgotten(s.capacity, s.unit, r.log, times, t.start);
      }
    }
  }

  lemma NothingForgotten(capacity: nat, unit: Unit, log: seq<real>, times: seq<real>, start: real)
    ensures Count(log, start - unit, start) == 0 ==> Remembered(capacity, unit, log, times, start) == 0
  {
  }

  /** In a window that refused its first call. */
  lemma OpenedAgain(r: SlidingRun, created: real, times: seq<real>)
    requires Tracks(r, created, times) && forall i | 0 <= i < |r.log| :: r.log[i] <= r.s.lastTime
    ensures r.s.lastTime < r.s.start ==>
              Remembered(r.s.capacity, r.s.unit, r.log, times, r.s.start) == 0 &&
              Count(r.log, r.s.start, r.s.start + r.s.unit) == 0
  {
    if r.s.lastTime < r.s.start {
      CountNone(r.log, r.s.start, r.s.start + r.s.unit);
      if r.log == [] {
        CountNone(r.log, r.s.start - r.s.unit, r.s.start);
      }
    }
  }

  /** The window before the next one is this one. */
  lemma NextWindow(r: SlidingRun, created: real, times: seq<real>)
    requires Tracks(r, created, times) && forall i | 0 <= i < |r.log| :: r.log[i] <= r.s.lastTime
    requires r.s.lastTime < r.s.start + r.s.unit
    ensures Remembered(r.s.capacity, r.s.unit, r.log, times, r.s.start + r.s.unit) ==
            if r.s.lastTime <= r.s.start then 0 else r.s.current
  {
    hide Remembered, Count;
    var s, log := r.s, r.log;
    var next := s.start + s.unit;
    assert next - s.unit == s.start && next !in times;
    if log == [] || s.lastTime < s.start {
      CountNone(log, s.start, next);
      NothingForgotten(s.capacity, s.unit, log, times, next);
    } else if s.lastTime == s.start {
      assert AtItsStart(log, s.start, next);
      RememberedIs(s.capacity, s.unit, log, times, next);
    } else {
      assert log[|log| - 1] in log && !AtItsStart(log, s.start, next);
      RememberedIs(s.capacity, s.unit, log, times, next);
    }
  }

  lemma RememberedIs(capacity: nat, unit: Unit, log: seq<real>, times: seq<real>, start: real)
    requires start !in times
    ensures Remembered(capacity, unit, log, times, start) ==
            if AtItsStart(log, start - unit, start) then 0 else Count(log, start - unit, start)
  {
  }

  /** Only a full window before, at the very start of this one, refuses the first call. */
  lemma WeighsLess(previous: nat, coef: real, capacity: nat)
    requires 0.0 <= coef && previous <= capacity && capacity > 0
    ensures Weighted(previous, coef) >= capacity as real ==> coef == 0.0 && previous == capacity
    ensures coef == 0.0 ==> Weighted(previous, coef) == previous as real
  {
    if previous > 0 && coef > 0.0 {
      assert previous as real * coef > 0.0;
    }
  }

  lemma RatioZero(d: real, unit: Unit)
    ensures d >= 0.0 ==> (Ratio(d, unit) >= 0.0 && (Ratio(d, unit) == 0.0 <==> d == 0.0))
  {
  }

  /** A further call changes what is remembered only at the very start of a window behind a full one. */
  lemma RememberedLater(capacity: nat, unit: Unit, log: seq<real>, times: seq<real>, start: real, now: real)
    requires now == start ==> start in times || Remembered(capacity, unit, log, times, start) < capacity
    ensures Remembered(capacity, unit, log, times + [now], start) == Remembered(capacity, unit, log, times, start)
  {
    hide Count, AtItsStart;
    assert forall t :: t in times + [now] <==> t in times || t == now;
  }

  lemma RememberedAccepts(capacity: nat, unit: Unit, log: seq<real>, times: seq<real>, start: real, now: real)
    requires start <= now
    ensures Remembered(capacity, unit, log + [now], times, start) == Remembered(capacity, unit, log, times, start)
  {
    CountSnoc(log, now, start - unit, start);
    hide Count;
    assert forall t :: t in log + [now] <==> t in log || t == now;
  }

  lemma AcceptedTracks(q: SlidingRun, created: real, times: seq<real>, now: real)
    requires Opened(q, created, times, now)
    requires var s := q.s;
             Weighted(s.previous, Ratio(now - s.start, s.unit)) + s.current as real < s.capacity as real
    ensures Tracks(SlidingRun(q.s.(current := q.s.current + 1, lastTime := now), q.log + [now]), created, times + [now])
  {
    hide Weighted, Ratio, Remembered, Count;
    var s := q.s;
    CountSnoc(q.log, now, s.start, s.start + s.unit);
    RatioZero(now - s.start, s.unit);
    WeighsNothing(s.previous);
    RememberedLater(s.capacity, s.unit, q.log, times, s.start, now);
    RememberedAccepts(s.capacity, s.unit, q.log, times + [now], s.start, now);
  }

  lemma RefusedTracks(q: SlidingRun, created: real, times: seq<real>, now: real)
    requires Opened(q, created, times, now)
    requires var s := q.s;
             Weighted(s.previous, Ratio(now - s.start, s.unit)) + s.current as real >= s.capacity as real
    ensures Tracks(q, created, times + [now])
  {
    hide Weighted, Ratio, Remembered, Count;
    var s := q.s;
    RatioZero(now - s.start, s.unit);
    if q.log == [] {
      CountNone(q.log, s.start - s.unit, s.start);
      NothingForgotten(s.capacity, s.unit, q.log, times, s.start);
      NothingForgotten(s.capacity, s.unit, q.log, times + [now], s.start);
    } else if s.lastTime < s.start {
      WeighsLess(s.previous, Ratio(now - s.start, s.unit), s.capacity);
      RememberedCounts(s.capacity, s.unit, q.log, times, s.start);
    } else {
      RememberedLater(s.capacity, s.unit, q.log, times, s.start, now);
    }
  }

  lemma RememberedCounts(capacity: nat, unit: Unit, log: seq<real>, times: seq<real>, start: real)
    ensures Remembered(capacity, unit, log, times, start) <= Count(log, start - unit, start)
  {
  }

  lemma TracksStep(r: SlidingRun, created: real, times: seq<real>, n: int, before: real, now: real)
    requires GridInv(r, created, n, before) && before <= now && Tracks(r, created, times)
    ensures Tracks(Called(r, now), created, times + [now])
  {
    hide GridInv, Tracks, Opened, SlidingOpen, WindowStart, Weighted, Ratio;
    TracksOpens(r, created, times, n, before, now);
    var q := SlidingRun(SlidingOpen(r.s, now), r.log);
    if SlidingCall(r.s, now).1 {
      AcceptedTracks(q, created, times, now);
    } else {
      RefusedTracks(q, created, times, now);
    }
  }

  lemma {:induction false} TracksCalls(r: SlidingRun, created: real, past: seq<real>, n: int, before: real,
                                       times: seq<real>)
    requires GridInv(r, created, n, before) && Sorted(times) && (times != [] ==> before <= times[0])
    requires Tracks(r, created, past)
    ensures Tracks(SlidingCalls(r, times), created, past + times)
    decreases |times|
  {
    hide GridInv, SlidingCall, Tracks;
    if times == [] {
      assert past + [] == past;
    } else {
      TracksStep(r, created, past, n, before, times[0]);
      var m := GridStep(r, created, n, before, times[0]);
      TracksCalls(Called(r, times[0]), created, past + [times[0]], m, times[0], times[1..]);
      assert past + [times[0]] + times[1..] == past + times;
    }
  }

  lemma NewTracks(capacity: nat, unit: Unit, created: real)
    ensures Tracks(New(capacity, unit, created), created, [])
    ensures New(capacity, unit, created).s.unit == unit && New(capacity, unit, created).s.capacity == capacity
  {
  }

  lemma CallsTrack(capacity: nat, unit: Unit, created: real, times: seq<real>, now: real)
    requires Sorted(times) && (times != [] ==> created <= times[0] && times[|times| - 1] <= now) && created <= now
    ensures var r := SlidingCalls(New(capacity, unit, created), times);
            var s := SlidingOpen(r.s, now);
            && s.start == WindowStart(created, now, unit) && Opened(SlidingRun(s, r.log), created, times, now)
            && s.unit == unit && s.capacity == capacity
  {
    hide GridInv, Tracks, Opened, SlidingCalls, SlidingOpen, WindowStart, New;
    var r0 := New(capacity, unit, created);
    NewGrid(capacity, unit, created);
    NewTracks(capacity, unit, created);
    TracksCalls(r0, created, [], 0, created, times);
    assert [] + times == times;
    var m, last := GridCalls(r0, created, 0, created, times);
    var r := SlidingCalls(r0, times);
    TracksOpens(r, created, times, m, last, now);
    var _ := GridOpens(r, created, m, last, now);
  }

  /** What the limiter compares with its capacity. */
  function Estimate(s: Sliding, now: real): real {
    var t := SlidingOpen(s, now);
    Weighted(t.previous, Ratio(now - t.start, t.unit)) + t.current as real
  }

  /** What the log says of the sliding window: the window before, weighted, and this one. */
  function InLog(log: seq<real>, start: real, now: real, unit: Unit): real {
    Weighted(Count(log, start - unit, start), Ratio(now - start, unit)) + Count(log, start, start + unit) as real
  }

  /** Every decision, told from the calls and the log: a call is accepted if and only if the calls accepted in the
      window before, unless forgotten, weighted, and those accepted in this window are fewer than `capacity`. */
  lemma SlidingDecides(capacity: nat, unit: Unit, created: real, times: seq<real>, now: real)
    requires Sorted(times) && (times != [] ==> created <= times[0] && times[|times| - 1] <= now) && created <= now
    ensures var r, start := SlidingCalls(New(capacity, unit, created), times), WindowStart(created, now, unit);
            SlidingCall(r.s, now).1 <==>
            Weighted(Remembered(capacity, unit, r.log, times, start), Ratio(now - start, unit)) +
            Count(r.log, start, start + unit) as real < capacity as real
  {
    hide SlidingCalls, SlidingOpen, WindowStart, New, Remembered, Count, Weighted, Ratio, Sorted;
    CallsTrack(capacity, unit, created, times, now);
  }

  /** The estimate is what the log says if and only if nothing is forgotten. */
  lemma SlidingExact(capacity: nat, unit: Unit, created: real, times: seq<real>, now: real)
    requires Sorted(times) && (times != [] ==> created <= times[0] && times[|times| - 1] <= now) && created <= now
    ensures var r, start := SlidingCalls(New(capacity, unit, created), times), WindowStart(created, now, unit);
            Estimate(r.s, now) == InLog(r.log, start, now, unit) <==> !Forgets(capacity, unit, r.log, times, start)
  {
    hide SlidingCalls, SlidingOpen, WindowStart, New, Count, Weighted, Ratio, Sorted;
    CallsTrack(capacity, unit, created, times, now);
    var r, start := SlidingCalls(New(capacity, unit, created), times), WindowStart(created, now, unit);
    var previous := Count(r.log, start - unit, start);
    BelowOne(now - start, unit);
    if previous > 0 {
      WeighsSome(previous, Ratio(now - start, unit));
    }
    WeighsNothing(0);
  }

  lemma BelowOne(d: real, unit: Unit)
    ensures d < unit ==> Ratio(d, unit) < 1.0
  {
  }

  lemma WeighsSome(previous: nat, coef: real)
    requires previous > 0 && coef < 1.0
    ensures Weighted(previous, coef) > 0.0
  {
    assert previous as real * (1.0 - coef) > 0.0;
  }

  /** A window that counts nothing weighs nothing, and one at whose end we are weighs all it counts. */
  lemma WeighsNothing(previous: nat)
    ensures Weighted(previous, 0.0) == previous as real
    ensures previous == 0 ==> forall coef :: Weighted(previous, coef) == 0.0
  {
  }

  // ----- a run in which a window is forgotten -----

  lemma UnitsIs(d: real, n: int)
    ensures n as real <= d < n as real + 1.0 ==> Units(d, 1.0) == n && Span(n, 1.0) == n as real
  {
  }

  /** A refused call exactly at the start of a window makes the limiter forget the window before, so that a later
      call is accepted that would have been refused without it. */
  lemma RefusedCallForgets(times: seq<real>, fewer: seq<real>)
    requires times == [0.5, 0.6] + [1.0, 1.25, 1.3] && fewer == [0.5, 0.6] + [1.25, 1.3]
    ensures SlidingCalls(New(2, 1.0, 0.0), times).log == [0.5, 0.6, 1.25, 1.3]
    ensures SlidingCalls(New(2, 1.0, 0.0), fewer).log == [0.5, 0.6, 1.25]
  {
    hide SlidingCalls, SlidingCall;
    var two := SlidingRun(Sliding(2, 1.0, 2, 0, 0.0, 0.6), [0.5, 0.6]);
    FirstTwo(two);
    var refused := SlidingRun(Sliding(2, 1.0, 0, 2, 1.0, 0.6), [0.5, 0.6]);
    AtStart(two, refused);
    var again := SlidingRun(Sliding(2, 1.0, 1, 0, 1.0, 1.25), [0.5, 0.6, 1.25]);
    var full := SlidingRun(Sliding(2, 1.0, 2, 0, 1.0, 1.3), [0.5, 0.6, 1.25, 1.3]);
    AfterRefusal(refused, again, full);
    var kept := SlidingRun(Sliding(2, 1.0, 1, 2, 1.0, 1.25), [0.5, 0.6, 1.25]);
    WithoutIt(two, kept);
    CallsNext(two, 1.0, [1.25, 1.3]);
    CallsNext(refused, 1.25, [1.3]);
    CallsNext(again, 1.3, []);
    CallsNext(two, 1.25, [1.3]);
    CallsNext(kept, 1.3, []);
    NoCalls(full);
    NoCalls(kept);
    assert [1.0] + [1.25, 1.3] == [1.0, 1.25, 1.3] && [1.25] + [1.3] == [1.25, 1.3] && [1.3] + [] == [1.3];
  }

  lemma NoCalls(r: SlidingRun)
    ensures SlidingCalls(r, []) == r
  {
  }

  lemma AtStart(two: SlidingRun, refused: SlidingRun)
    requires two == SlidingRun(Sliding(2, 1.0, 2, 0, 0.0, 0.6), [0.5, 0.6])
    requires refused == two.(s := Sliding(2, 1.0, 0, 2, 1.0, 0.6))
    ensures Called(two, 1.0) == refused
  {
    UnitsIs(1.0, 1);
    hide Units, Span;
  }

  lemma AfterRefusal(refused: SlidingRun, again: SlidingRun, full: SlidingRun)
    requires refused.s == Sliding(2, 1.0, 0, 2, 1.0, 0.6)
    requires again == SlidingRun(Sliding(2, 1.0, 1, 0, 1.0, 1.25), refused.log + [1.25])
    requires full == SlidingRun(Sliding(2, 1.0, 2, 0, 1.0, 1.3), again.log + [1.3])
    ensures Called(refused, 1.25) == again && Called(again, 1.3) == full
  {
    UnitsIs(0.25, 0);
    UnitsIs(0.3, 0);
    hide Units, Span;
  }

  lemma WithoutIt(two: SlidingRun, kept: SlidingRun)
    requires two.s == Sliding(2, 1.0, 2, 0, 0.0, 0.6)
    requires kept == SlidingRun(Sliding(2, 1.0, 1, 2, 1.0, 1.25), two.log + [1.25])
    ensures Called(two, 1.25) == kept && Called(kept, 1.3) == kept
  {
    UnitsIs(1.25, 1);
    UnitsIs(0.3, 0);
    hide Units, Span;
  }

  lemma CallsNext(r: SlidingRun, t: real, rest: seq<real>)
    ensures SlidingCalls(r, [t] + rest) == SlidingCalls(Called(r, t), rest)
  {
    assert ([t] + rest)[0] == t && ([t] + rest)[1..] == rest;
  }

  lemma FirstTwo(two: SlidingRun)
    requires two == SlidingRun(Sliding(2, 1.0, 2, 0, 0.0, 0.6), [0.5, 0.6])
    ensures forall rest :: SlidingCalls(New(2, 1.0, 0.0), [0.5, 0.6] + rest) == SlidingCalls(two, rest)
  {
    UnitsIs(0.5, 0);
    UnitsIs(0.6, 0);
    hide Units, Span;
    var r0 := New(2, 1.0, 0.0);
    var one := SlidingRun(Sliding(2, 1.0, 1, 0, 0.0, 0.5), [0.5]);
    assert Called(r0, 0.5) == one;
    assert Called(one, 0.6) == two;
    forall rest: seq<real>
      ensures SlidingCalls(r0, [0.5, 0.6] + rest) == SlidingCalls(two, rest)
    {
      assert [0.5, 0.6] + rest == [0.5] + ([0.6] + rest);
      CallsNext(r0, 0.5, [0.6] + rest);
      CallsNext(one, 0.6, rest);
    }
  }
}
