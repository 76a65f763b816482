/** One call of HttpServer::onRequests as a stretch of steps of the Pipelining machine, and which batches of requests
    it takes. */
module Batching {
  import opened Bytes
  import opened Writer
  import opened Pipelining

  // ----- several steps at once -----

  lemma {:induction false} AfterConcat(s: Server, a: seq<Event>, b: seq<Event>)
    ensures Possible(s, a + b) <==> Possible(s, a) && Possible(After(s, a), b)
    ensures Possible(s, a + b) ==> After(s, a + b) == After(After(s, a), b)
    decreases |a|
  {
    hide Next, Enabled;
    if a == [] {
      assert a + b == b;
    } else {
      assert (a + b)[0] == a[0] && (a + b)[1..] == a[1..] + b;
      if Enabled(s, a[0]) {
        AfterConcat(Next(s, a[0]), a[1..], b);
      }
    }
  }

  lemma {:induction false} AfterInv(s: Server, events: seq<Event>)
    requires Inv(s) && Possible(s, events)
    ensures Inv(After(s, events))
    decreases |events|
  {
    hide Next, Enabled, Inv;
    if events != [] {
      NextInv(s, events[0]);
      AfterInv(Next(s, events[0]), events[1..]);
    }
  }

  lemma AfterOne(s: Server, e: Event, rest: seq<Event>)
    ensures Possible(s, [e] + rest) <==> Enabled(s, e) && Possible(Next(s, e), rest)
    ensures Possible(s, [e] + rest) ==> After(s, [e] + rest) == After(Next(s, e), rest)
  {
    hide Next, Enabled;
    assert ([e] + rest)[0] == e && ([e] + rest)[1..] == rest;
  }

  /** What becomes of one request of a batch: rejected by a sync advice, or given to its handler, during which responses
      come for it or for any other request, on the loop or elsewhere, and the connection may break. */
  datatype Verdict = Rejected(resp: Response) | Handled(acts: seq<Event>)

  predicate Acts(acts: seq<Event>) {
    forall i | 0 <= i < |acts| :: acts[i].HereEvent? || acts[i].ElsewhereEvent? || acts[i].BreakEvent?
  }

  function Turn(v: Verdict): seq<Event> {
    match v
    case Rejected(resp) => [TakeEvent(Some(resp))]
    case Handled(acts) => [TakeEvent(None)] + (acts + [ReturnEvent])
  }

  function Turns(script: seq<Verdict>): seq<Event> {
    if script == [] then [] else Turn(script[0]) + Turns(script[1..])
  }

  /** The events of one call of onRequests. */
  function BatchEvents(s: Server, heads: seq<bool>, script: seq<Verdict>): seq<Event> {
    [ArriveEvent(heads)] + if Arrive(s, heads).phase.Idle? then [] else Turns(script) + [FinishEvent]
  }

  lemma AfterNone(s: Server)
    ensures Possible(s, []) && After(s, []) == s
  {
  }

  lemma TakeIs(s: Server, reject: Option<Response>)
    requires Enabled(s, TakeEvent(reject))
    ensures Next(s, TakeEvent(reject)) == Take(s, reject)
    ensures Take(s, reject).phase.Remaining() == s.phase.remaining[1..]
    ensures reject.Some? ==> Take(s, reject).phase.Between?
  {
    hide Answered;
  }

  lemma ReturnIs(s: Server)
    ensures Enabled(s, ReturnEvent) ==> Next(s, ReturnEvent) == Return(s)
  {
  }

  predicate SameHandler(p: Phase, q: Phase)
    requires p.Handling?
  {
    q.Handling? && q.remaining == p.remaining && q.pipelined == p.pipelined
  }

  lemma ActKeepsPhase(s: Server, e: Event)
    requires s.phase.Handling? && Enabled(s, e) && Acts([e])
    ensures SameHandler(s.phase, Next(s, e).phase)
  {
    hide Deliver, Batch, AnyCloses;
    assert [e][0] == e;
  }

  lemma TurnSplit(v: Verdict, rest: seq<Event>)
    ensures match v
            case Rejected(resp) => Turn(v) + rest == [TakeEvent(Some(resp))] + rest
            case Handled(acts) => Turn(v) + rest == [TakeEvent(None)] + (acts + ([ReturnEvent] + rest))
  {
  }

  // ----- which batches are taken -----

  /** A call of onRequests with these requests, which fare as `script` says, from its start to its return. */
  ghost predicate IsCall(s: Server, heads: seq<bool>, script: seq<Verdict>, events: seq<Event>) {
    && |script| == |heads| && (forall i | 0 <= i < |script| && script[i].Handled? :: Acts(script[i].acts))
    && (events == [ArriveEvent(heads)] + [] || events == [ArriveEvent(heads)] + (Turns(script) + [FinishEvent]))
    && Possible(s, events) && After(s, events).phase.Idle?
  }

  /** The limits leave room for one request more than the batch has. */
  predicate Within(s: Server, heads: seq<bool>) {
    (s.keepalive == 0 || s.parsed + |heads| < s.keepalive) && (s.limit == 0 || |s.queue| + |heads| < s.limit)
  }

  /** What handlers, their callbacks and advices leave alone. */
  predicate SameCounts(s: Server, t: Server) {
    t.stopped == s.stopped && t.parsed == s.parsed && t.keepalive == s.keepalive && t.limit == s.limit
  }

  lemma {:induction false} ActsKeep(s: Server, acts: seq<Event>)
    requires s.phase.Handling? && Acts(acts) && Possible(s, acts)
    ensures var t := After(s, acts);
            SameHandler(s.phase, t.phase) && t.dispatched == s.dispatched && SameCounts(s, t)
    decreases |acts|
  {
    hide Enabled, Next, Acts;
    if acts != [] {
      ActsNext(acts);
      ActKeepsPhase(s, acts[0]);
      ActKeepsCounts(s, acts[0]);
      ActsKeep(Next(s, acts[0]), acts[1..]);
    }
  }

  lemma ActsNext(acts: seq<Event>)
    ensures Acts(acts) && acts != [] ==> Acts([acts[0]]) && Acts(acts[1..])
  {
  }

  lemma ActKeepsCounts(s: Server, e: Event)
    requires Enabled(s, e) && Acts([e])
    ensures Next(s, e).dispatched == s.dispatched && SameCounts(s, Next(s, e))
  {
    hide Deliver, Batch, AnyCloses;
    assert [e][0] == e;
  }

  lemma TakeKeepsCounts(s: Server, reject: Option<Response>)
    requires s.phase.Between? && s.phase.remaining != []
    ensures var t := Take(s, reject);
            t.dispatched == s.dispatched + [s.phase.remaining[0]] && SameCounts(s, t) &&
            (reject.None? ==> t.phase.Handling?)
  {
    hide Answered;
  }

  /** One turn of the loop takes the next request, whatever becomes of it. */
  lemma TurnTakes(s: Server, v: Verdict, rest: seq<Event>) returns (t: Server)
    requires s.phase.Between? && s.phase.remaining != [] && (v.Handled? ==> Acts(v.acts))
    requires Possible(s, Turn(v) + rest)
    ensures Possible(t, rest) && After(t, rest) == After(s, Turn(v) + rest)
    ensures t.phase == Between(s.phase.remaining[1..]) && SameCounts(s, t)
    ensures t.dispatched == s.dispatched + [s.phase.remaining[0]]
  {
    hide Enabled, Next, Possible, After, Acts, Take, Return;
    TurnSplit(v, rest);
    match v
    case Rejected(resp) =>
      AfterOne(s, TakeEvent(Some(resp)), rest);
      TakeIs(s, Some(resp));
      TakeKeepsCounts(s, Some(resp));
      TakenBetween(s, resp);
      t := Take(s, Some(resp));
    case Handled(acts) =>
      AfterOne(s, TakeEvent(None), acts + ([ReturnEvent] + rest));
      TakeIs(s, None);
      TakeKeepsCounts(s, None);
      var u := Take(s, None);
      AfterConcat(u, acts, [ReturnEvent] + rest);
      ActsKeep(u, acts);
      var w := After(u, acts);
      AfterOne(w, ReturnEvent, rest);
      ReturnIs(w);
      ReturnKeeps(w);
      t := Return(w);
  }

  lemma TakenBetween(s: Server, resp: Response)
    requires s.phase.Between? && s.phase.remaining != []
    ensures Take(s, Some(resp)).phase == Between(s.phase.remaining[1..])
  {
    hide Answered;
  }

  lemma ReturnKeeps(s: Server)
    requires s.phase.Handling? && s.dispatched != []
    ensures var t := Return(s);
            t.dispatched == s.dispatched && SameCounts(s, t) && t.phase == Between(s.phase.remaining)
  {
  }

  lemma {:induction false} TurnsTake(s: Server, script: seq<Verdict>)
    requires s.phase.Between? && |script| == |s.phase.remaining|
    requires forall i | 0 <= i < |script| && script[i].Handled? :: Acts(script[i].acts)
    requires Possible(s, Turns(script) + [FinishEvent])
    ensures var t := After(s, Turns(script) + [FinishEvent]);
            t.dispatched == s.dispatched + s.phase.remaining && SameCounts(s, t) && t.phase.Idle?
    decreases |script|
  {
    hide Enabled, Next, Possible, After, Acts, Turn, Finish;
    if script == [] {
      assert [] + [FinishEvent] == [FinishEvent] + [];
      AfterOne(s, FinishEvent, []);
      FinishKeeps(s);
      AfterNone(Finish(s));
      assert s.dispatched + [] == s.dispatched;
    } else {
      var heads := s.phase.remaining;
      TurnsFirst(script);
      var t := TurnTakes(s, script[0], Turns(script[1..]) + [FinishEvent]);
      TurnsTake(t, script[1..]);
      assert s.dispatched + [heads[0]] + heads[1..] == s.dispatched + heads;
    }
  }

  lemma TurnsFirst(script: seq<Verdict>)
    requires script != []
    ensures Turns(script) + [FinishEvent] == Turn(script[0]) + (Turns(script[1..]) + [FinishEvent])
  {
    hide Turn;
  }

  lemma FinishKeeps(s: Server)
    ensures Enabled(s, FinishEvent) ==> Next(s, FinishEvent) == Finish(s)
    ensures Finish(s).dispatched == s.dispatched && SameCounts(s, Finish(s)) && Finish(s).phase.Idle?
  {
    hide Batch, AnyCloses;
  }

  /** A batch is taken, every request of it in order, if and only if the connection is there and the limits leave room;
      beyond the limits nothing is taken or written, the parser is stopped and the connection shut down. */
  lemma BatchTaken(s: Server, heads: seq<bool>, script: seq<Verdict>, events: seq<Event>)
    requires s.phase.Idle? && !s.stopped && heads != [] && IsCall(s, heads, script, events)
    ensures var t := After(s, events);
            && t.dispatched == s.dispatched + (if s.connected && Within(s, heads) then heads else [])
            && t.parsed == s.parsed + |heads| && (t.stopped <==> !Within(s, heads))
            && (!Within(s, heads) ==> !t.connected)
            && (!s.connected || !Within(s, heads) ==> t.wire == s.wire)
  {
    hide Enabled, Next, Possible, After, Acts, Turn, Turns, Finish;
    var n := Arrive(s, heads);
    AfterNone(n);
    var rest := Turns(script) + [FinishEvent];
    AfterOne(s, ArriveEvent(heads), if events == [ArriveEvent(heads)] + [] then [] else rest);
    ArriveIs(s, heads);
    if events != [ArriveEvent(heads)] + [] {
      TurnsStart(script);
      if n.phase.Idle? {
        NotIdle(n, rest);
      }
      TurnsTake(n, script);
    }
  }

  lemma ArriveIs(s: Server, heads: seq<bool>)
    ensures Enabled(s, ArriveEvent(heads)) ==> Next(s, ArriveEvent(heads)) == Arrive(s, heads)
    ensures s.dispatched + [] == s.dispatched
  {
  }

  lemma TurnsStart(script: seq<Verdict>)
    requires script != []
    ensures var rest := Turns(script) + [FinishEvent]; rest != [] && rest[0].TakeEvent?
  {
    assert Turns(script) == Turn(script[0]) + Turns(script[1..]);
  }

  lemma NotIdle(n: Server, rest: seq<Event>)
    requires rest != [] && rest[0].TakeEvent? && Possible(n, rest)
    ensures !n.phase.Idle?
  {
  }

  /** A server without limits takes everything: in no run is the parser stopped. */
  lemma {:induction false} UnlimitedNeverStops(states: seq<Server>, events: seq<Event>, k: nat)
    requires IsRun(states, events) && states[0] == Start(0, 0) && k < |states|
    ensures !states[k].stopped && states[k].keepalive == 0 && states[k].limit == 0
  {
    hide Enabled, Next;
    if k > 0 {
      UnlimitedNeverStops(states, events, k - 1);
      UnlimitedNext(states[k - 1], events[k - 1]);
    }
  }

  lemma UnlimitedNext(s: Server, e: Event)
    requires Enabled(s, e) && s.keepalive == 0 && s.limit == 0
    ensures Next(s, e).stopped == s.stopped && Next(s, e).keepalive == 0 && Next(s, e).limit == 0
  {
    hide Deliver, Batch, AnyCloses, Answered;
  }

  /** The events of a call as the method runs them make a call. */
  lemma BatchIsCall(s: Server, heads: seq<bool>, script: seq<Verdict>)
    requires heads != [] && |script| == |heads| && Possible(s, BatchEvents(s, heads, script))
    requires forall i | 0 <= i < |script| && script[i].Handled? :: Acts(script[i].acts)
    ensures IsCall(s, heads, script, BatchEvents(s, heads, script))
  {
    hide Enabled, Next, Possible, After, Acts, Turn, Turns, Finish;
    var n := Arrive(s, heads);
    AfterNone(n);
    ArriveIs(s, heads);
    var rest := Turns(script) + [FinishEvent];
    AfterOne(s, ArriveEvent(heads), if n.phase.Idle? then [] else rest);
    PossibleArrives(s, heads, if n.phase.Idle? then [] else rest);
    if !n.phase.Idle? {
      TurnsTake(n, script);
    }
  }

  lemma PossibleArrives(s: Server, heads: seq<bool>, rest: seq<Event>)
    ensures Possible(s, [ArriveEvent(heads)] + rest) ==> s.phase.Idle?
  {
  }

  lemma ArrivesOpen(s: Server, heads: seq<bool>, script: seq<Verdict>)
    ensures Possible(s, BatchEvents(s, heads, script)) ==> s.phase.Idle? && !s.stopped
  {
  }
}
