/** That the client's requests move on: waiting requests are sent as soon as there is room, in the order submitted, and
    every callback is told what happened. */
module ClientProgress {
  import opened Bytes
  import opened Client

  // ----- a waiting request waits for room -----

  /** On a connection that is up, requests wait only while as many are in flight as pipelining allows. */
  predicate Busy<R>(c: Client<R>) {
    c.tcp.Up? && c.waiting != [] ==> |c.inflight| == c.depth + 1
  }

  lemma NextBusy<R>(c: Client<R>, e: Event<R>)
    requires Inv(c) && Busy(c) && Enabled(c, e)
    ensures Busy(Next(c, e))
  {
    hide Core, Fire;
    CoreDepth(c);
    NextInv(c, e);
    CoreDepth(Next(c, e));
    match e
    case SubmitEvent(id, _, _) => SubmitBusy(c, e);
    case ResolvedEvent(valid) => FlushWaitingTcp(c.(dns := false, addressValid := valid), BadServerAddress);
    case ConnectedEvent =>
      ElsewhereCore(c, c.tcp, c.dns);
      NewCore(c);
      SendMoreCore(c.(tcp := Up, sent := [], retired := [], responses := []));
    case ResponseEvent(resp, close) =>
      AnsweredCore(c, resp);
      FlushInflightTcp(Answered(c, resp), NetworkFailure);
    case ClosedEvent(resp) => FlushInflightTcp(Answered(c.(tcp := Absent), resp), NetworkFailure);
    case _ =>
  }

  lemma SubmitBusy<R>(c: Client<R>, e: Event<R>)
    requires Inv(c) && Busy(c) && Enabled(c, e) && e.SubmitEvent?
    ensures Busy(Next(c, e))
  {
    hide Core, Fire;
    CoreDepth(c);
    var n := c.(submitted := c.submitted + [e.id], timed := if e.timed then c.timed + {e.id} else c.timed,
                heads := if e.head then c.heads + {e.id} else c.heads);
    var q := n.(waiting := n.waiting + [e.id]);
    FireElsewhere(q.(waiting := q.waiting[1..]), e.id, BadServerAddress, None);
  }

  lemma NewCore<R>(c: Client<R>)
    requires Inv(c) && c.tcp.Connecting?
    ensures Core(c.(tcp := Up, sent := [], retired := [], responses := []))
  {
    var n := c.(tcp := Up, sent := [], retired := [], responses := []);
    forall id
      ensures Accounted(n, id)
    {
      assert Accounted(c, id);
    }
  }

  /** In every state of every run, no request waits on a connection that is up and has room for it. */
  lemma {:induction false} RunBusy<R>(states: seq<Client<R>>, events: seq<Event<R>>, k: nat)
    requires IsRun(states, events) && k < |states|
    requires exists b, a, d :: states[0] == Initial<R>(b, a, d)
    ensures Busy(states[k])
    decreases k
  {
    hide Inv, Next, Enabled;
    if k > 0 {
      RunBusy(states, events, k - 1);
      RunAccounts(states, events, k - 1);
      NextBusy(states[k - 1], events[k - 1]);
    }
  }

  // ----- in the order submitted -----

  predicate Before(all: seq<nat>, x: nat, y: nat) {
    exists a, b :: 0 <= a < b < |all| && all[a] == x && all[b] == y
  }

  predicate InOrder(ids: seq<nat>, all: seq<nat>) {
    (forall i | 0 <= i < |ids| :: ids[i] in all) &&
    forall i, j | 0 <= i < j < |ids| :: Before(all, ids[i], ids[j])
  }

  lemma InOrderMore(ids: seq<nat>, all: seq<nat>, id: nat)
    requires InOrder(ids, all)
    ensures InOrder(ids, all + [id]) && InOrder(ids + [id], all + [id])
  {
    var more := all + [id];
    forall i, j | 0 <= i < j < |ids|
      ensures Before(more, ids[i], ids[j])
    {
      var a, b :| 0 <= a < b < |all| && all[a] == ids[i] && all[b] == ids[j];
      assert more[a] == ids[i] && more[b] == ids[j];
    }
    forall i | 0 <= i < |ids|
      ensures Before(more, ids[i], id)
    {
      var a :| 0 <= a < |all| && all[a] == ids[i];
      assert more[a] == ids[i] && more[|all|] == id;
    }
  }

  lemma InOrderPart(before: seq<nat>, gone: seq<nat>, behind: seq<nat>, all: seq<nat>)
    requires InOrder(before + gone + behind, all)
    ensures InOrder(before + behind, all)
  {
    var ids, n := before + gone + behind, |gone|;
    var part := before + behind;
    assert forall i | 0 <= i < |part| :: part[i] == ids[if i < |before| then i else i + n];
    forall i, j | 0 <= i < j < |part|
      ensures Before(all, part[i], part[j])
    {
      assert Before(all, ids[if i < |before| then i else i + n], ids[if j < |before| then j else j + n]);
    }
  }

  lemma {:induction false} EraseParts(s: seq<nat>, id: nat) returns (before: seq<nat>, gone: seq<nat>, behind: seq<nat>)
    ensures s == before + gone + behind && Erase(s, id) == before + behind
  {
    if s == [] {
      before, gone, behind := [], [], [];
    } else if s[0] == id {
      before, gone, behind := [], [id], s[1..];
    } else {
      before, gone, behind := EraseParts(s[1..], id);
      before := [s[0]] + before;
    }
  }

  lemma {:induction false} SendMoreOrder<R>(c: Client<R>)
    ensures var n := SendMore(c); n.sent + n.waiting == c.sent + c.waiting && n.submitted == c.submitted
    decreases |c.waiting|
  {
    if |c.inflight| <= c.depth && c.waiting != [] {
      SendMoreOrder(SendFront(c));
      assert SendFront(c).sent + SendFront(c).waiting == c.sent + c.waiting;
    }
  }

  /** The requests sent on this connection and then those that wait: in the order they were submitted. */
  predicate SubmitOrder<R>(c: Client<R>) {
    InOrder(c.sent + c.waiting, c.submitted)
  }

  /** A step sends from the front of what waits, adds at its end, or takes some requests out. */
  lemma NextOrder<R>(c: Client<R>, e: Event<R>)
    requires Inv(c) && SubmitOrder(c) && Enabled(c, e)
    ensures SubmitOrder(Next(c, e))
  {
    hide Core, Fire, InOrder;
    match e
    case SubmitEvent(id, timed, head) => SubmitKeepsOrder(c, id, timed, head);
    case ResolvedEvent(valid) =>
      FlushWaitingTells(c.(dns := false, addressValid := valid), BadServerAddress);
      Keeps(c, [], c.waiting, []);
    case ConnectedEvent =>
      var n := c.(tcp := Up, sent := [], retired := [], responses := []);
      SendMoreOrder(n);
      assert [] + c.sent + c.waiting == c.sent + c.waiting;
      InOrderPart([], c.sent, c.waiting, c.submitted);
    case ResponseEvent(resp, close) => ResponseKeepsOrder(c, resp, close);
    case ClosedEvent(resp) => ResponseKeepsOrder(c.(tcp := Absent), resp, false);
    case ErrorEvent(result) =>
      FlushInflightTells(c, result);
      FlushWaitingTells(FlushInflight(c, result), result);
      Keeps(c, [], c.waiting, []);
    case TimeoutEvent(id) =>
      var before, gone, behind := EraseParts(c.waiting, id);
      Keeps(c, before, gone, behind);
    case _ =>
  }

  lemma Keeps<R>(c: Client<R>, before: seq<nat>, gone: seq<nat>, behind: seq<nat>)
    requires SubmitOrder(c) && c.waiting == before + gone + behind
    ensures InOrder(c.sent + (before + behind), c.submitted) && InOrder(c.sent + [], c.submitted)
  {
    hide InOrder;
    assert c.sent + c.waiting == (c.sent + before) + gone + behind;
    InOrderPart(c.sent + before, gone, behind, c.submitted);
    assert (c.sent + before) + behind == c.sent + (before + behind);
    assert c.sent + c.waiting == c.sent + c.waiting + [];
    InOrderPart(c.sent, c.waiting, [], c.submitted);
  }

  lemma SubmitKeepsOrder<R>(c: Client<R>, id: nat, timed: bool, head: bool)
    requires Inv(c) && SubmitOrder(c)
    ensures SubmitOrder(Submit(c, id, timed, head))
  {
    hide Core, Fire, InOrder;
    InOrderMore(c.sent + c.waiting, c.submitted, id);
    assert c.sent + (c.waiting + [id]) == (c.sent + c.waiting) + [id];
    if c.waiting == [] {
      assert c.sent + [id] + [] == (c.sent + c.waiting) + [id];
    }
    var n := c.(submitted := c.submitted + [id], timed := if timed then c.timed + {id} else c.timed,
                heads := if head then c.heads + {id} else c.heads);
    var q := n.(waiting := n.waiting + [id]);
    FireElsewhere(q.(waiting := q.waiting[1..]), id, BadServerAddress, None);
    if c.tcp.Absent? && !c.byName && !c.addressValid {
      assert c.waiting == [] && q.waiting[1..] == [];
      assert c.sent + [] == c.sent + c.waiting;
    }
  }

  lemma ResponseKeepsOrder<R>(c: Client<R>, resp: R, close: bool)
    requires SubmitOrder(c) && c.inflight != []
    ensures SubmitOrder(HandleResponse(c, resp, close))
  {
    hide Fire, InOrder;
    var id := c.inflight[0];
    var p := c.(inflight := c.inflight[1..], retired := c.retired + [id], responses := c.responses + [id]);
    FireElsewhere(p, id, Ok, Some(resp));
    var n := Fire(p, id, Ok, Some(resp));
    FlushInflightTells(n, NetworkFailure);
    if n.waiting != [] {
      assert n.sent + [n.waiting[0]] + n.waiting[1..] == n.sent + n.waiting;
    }
  }

  /** In every state of every run the requests sent on the connection, and then those still waiting, stand in the order
      in which they were submitted. */
  lemma {:induction false} RunOrder<R>(states: seq<Client<R>>, events: seq<Event<R>>, k: nat)
    requires IsRun(states, events) && k < |states|
    requires exists b, a, d :: states[0] == Initial<R>(b, a, d)
    ensures SubmitOrder(states[k])
    decreases k
  {
    hide Inv, Next, Enabled;
    if k > 0 {
      RunOrder(states, events, k - 1);
      RunAccounts(states, events, k - 1);
      NextOrder(states[k - 1], events[k - 1]);
    }
  }

  // ----- what the callbacks are told -----

  /** These callbacks were failures with this result. */
  predicate Fails<R>(more: seq<Fired<R>>, result: ReqResult) {
    forall i | 0 <= i < |more| :: more[i].result == result && more[i].resp.None?
  }

  lemma FailsMore<R>(log: seq<Fired<R>>, f: Fired<R>, all: seq<Fired<R>>, result: ReqResult)
    requires log + [f] <= all && f.result == result && f.resp.None? && Fails(all[|log| + 1..], result)
    ensures log <= all && Fails(all[|log|..], result)
  {
    assert all[|log|] == f;
    forall i | 0 <= i < |all| - |log|
      ensures all[|log|..][i].result == result && all[|log|..][i].resp.None?
    {
      if i > 0 {
        assert all[|log|..][i] == all[|log| + 1..][i - 1];
      }
    }
  }

  lemma FireFails<R>(c: Client<R>, id: nat, result: ReqResult, all: seq<Fired<R>>)
    requires var log := Fire(c, id, result, None).log; log <= all && Fails(all[|log|..], result)
    ensures c.log <= all && Fails(all[|c.log|..], result)
  {
    if !(id in c.timed && HasFired(c.log, id)) {
      FailsMore(c.log, Fired(id, result, None), all, result);
    }
  }

  lemma {:induction false} FlushInflightTells<R>(c: Client<R>, result: ReqResult)
    ensures var n := FlushInflight(c, result);
            && c.log <= n.log && Fails(n.log[|c.log|..], result)
            && n == c.(inflight := [], retired := n.retired, log := n.log)
    decreases |c.inflight|
  {
    hide Fire, Fails;
    if c.inflight == [] {
      NoneFails(c.log, result);
    } else {
      var id := c.inflight[0];
      var p := c.(inflight := c.inflight[1..], retired := c.retired + [id]);
      FireElsewhere(p, id, result, None);
      FlushInflightTells(Fire(p, id, result, None), result);
      FireFails(p, id, result, FlushInflight(c, result).log);
    }
  }

  lemma NoneFails<R>(log: seq<Fired<R>>, result: ReqResult)
    ensures Fails(log[|log|..], result)
  {
  }

  lemma {:induction false} FlushWaitingTells<R>(c: Client<R>, result: ReqResult)
    ensures var n := FlushWaiting(c, result);
            c.log <= n.log && Fails(n.log[|c.log|..], result) && n == c.(waiting := [], log := n.log)
    decreases |c.waiting|
  {
    hide Fire, Fails;
    if c.waiting == [] {
      NoneFails(c.log, result);
    } else {
      var p := c.(waiting := c.waiting[1..]);
      FireElsewhere(p, c.waiting[0], result, None);
      FlushWaitingTells(Fire(p, c.waiting[0], result, None), result);
      FireFails(p, c.waiting[0], result, FlushWaiting(c, result).log);
    }
  }

  /** What the callbacks run by an event say: the response to the first in flight unless that one already reported a
      timeout, the failure the event brings to any other. */
  ghost predicate Tells<R>(c: Client<R>, e: Event<R>, more: seq<Fired<R>>) {
    match e
    case SubmitEvent(id, _, _) => Fails(more, BadServerAddress) && forall i | 0 <= i < |more| :: more[i].id == id
    case ResolvedEvent(valid) => Fails(more, BadServerAddress) && (valid ==> more == [])
    case ConnectedEvent => more == []
    case ResponseEvent(resp, _) => AnswersFirst(c, resp, more)
    case ShutdownEvent => more == []
    case ClosedEvent(resp) => AnswersFirst(c, resp, more)
    case ErrorEvent(result) => Fails(more, result)
    case TimeoutEvent(id) => more == if HasFired(c.log, id) then [] else [Fired(id, Timeout, None)]
  }

  ghost predicate AnswersFirst<R>(c: Client<R>, resp: R, more: seq<Fired<R>>) {
    c.inflight != [] &&
    var id := c.inflight[0];
    if id in c.timed && HasFired(c.log, id) then Fails(more, NetworkFailure)
    else more != [] && more[0] == Fired(id, Ok, Some(resp)) && Fails(more[1..], NetworkFailure)
  }

  lemma NextTells<R>(c: Client<R>, e: Event<R>)
    requires Enabled(c, e)
    ensures c.log <= Next(c, e).log && Tells(c, e, Next(c, e).log[|c.log|..])
  {
    hide Fails, Fire;
    match e
    case SubmitEvent(id, timed, head) => SubmitTells(c, e);
    case ResolvedEvent(valid) =>
      var n := c.(dns := false, addressValid := valid);
      FlushWaitingTells(n, BadServerAddress);
      NoneFails(c.log, BadServerAddress);
    case ConnectedEvent => SendMoreLog(c.(tcp := Up, sent := [], retired := [], responses := []));
    case ResponseEvent(resp, close) => ResponseTells(c, resp, close);
    case ClosedEvent(resp) => ResponseTells(c.(tcp := Absent), resp, false);
    case ErrorEvent(result) =>
      FlushInflightTells(c, result);
      FlushWaitingTells(FlushInflight(c, result), result);
      FailsJoin(c.log, FlushInflight(c, result).log, OnError(c, result).log, result);
    case _ =>
  }

  lemma {:induction false} SendMoreLog<R>(c: Client<R>)
    ensures SendMore(c).log == c.log
    decreases |c.waiting|
  {
    if |c.inflight| <= c.depth && c.waiting != [] {
      SendMoreLog(SendFront(c));
    }
  }

  lemma SubmitTells<R>(c: Client<R>, e: Event<R>)
    requires Enabled(c, e) && e.SubmitEvent?
    ensures c.log <= Next(c, e).log && Tells(c, e, Next(c, e).log[|c.log|..])
  {
  }

  lemma FailsJoin<R>(log: seq<Fired<R>>, mid: seq<Fired<R>>, all: seq<Fired<R>>, result: ReqResult)
    requires log <= mid <= all && Fails(mid[|log|..], result) && Fails(all[|mid|..], result)
    ensures Fails(all[|log|..], result)
  {
    forall i | 0 <= i < |all| - |log|
      ensures all[|log|..][i].result == result && all[|log|..][i].resp.None?
    {
      if i < |mid| - |log| {
        assert all[|log|..][i] == mid[|log|..][i];
      } else {
        assert all[|log|..][i] == all[|mid|..][i - (|mid| - |log|)];
      }
    }
  }

  lemma ResponseTells<R>(c: Client<R>, resp: R, close: bool)
    requires c.inflight != []
    ensures var n := HandleResponse(c, resp, close);
            c.log <= n.log && AnswersFirst(c, resp, n.log[|c.log|..])
  {
    hide Fails;
    var id := c.inflight[0];
    var p := c.(inflight := c.inflight[1..], retired := c.retired + [id], responses := c.responses + [id]);
    FireElsewhere(p, id, Ok, Some(resp));
    var n := Fire(p, id, Ok, Some(resp));
    FlushInflightTells(n, NetworkFailure);
    NoneFails(n.log, NetworkFailure);
    var all := HandleResponse(c, resp, close).log;
    assert n.log <= all && Fails(all[|n.log|..], NetworkFailure);
    if n.log != c.log {
      assert all[|c.log|..][1..] == all[|n.log|..];
    }
  }

  /** Over whole runs: every callback run by an event says what that event means for its request. */
  lemma RunTells<R>(states: seq<Client<R>>, events: seq<Event<R>>, k: nat)
    requires IsRun(states, events) && k < |events|
    ensures states[k].log <= states[k + 1].log
    ensures Tells(states[k], events[k], states[k + 1].log[|states[k].log|..])
  {
    hide Next, Tells, Enabled;
    NextTells(states[k], events[k]);
  }

  // ----- marks and closing -----

  ghost predicate SubmittedHead<R>(events: seq<Event<R>>, k: nat, id: nat)
    requires k <= |events|
  {
    exists j | 0 <= j < k :: events[j].SubmitEvent? && events[j].id == id && events[j].head
  }

  ghost predicate SubmittedTimed<R>(events: seq<Event<R>>, k: nat, id: nat)
    requires k <= |events|
  {
    exists j | 0 <= j < k :: events[j].SubmitEvent? && events[j].id == id && events[j].timed
  }

  lemma NextMarks<R>(c: Client<R>, e: Event<R>, id: nat)
    requires Enabled(c, e)
    ensures id in Next(c, e).heads <==> id in c.heads || (e.SubmitEvent? && e.id == id && e.head)
    ensures id in Next(c, e).timed <==> id in c.timed || (e.SubmitEvent? && e.id == id && e.timed)
  {
    hide Fails;
    match e
    case SubmitEvent(other, _, _) => SubmitMarks(c, e);
    case ResolvedEvent(valid) => FlushWaitingTells(c.(dns := false, addressValid := valid), BadServerAddress);
    case ConnectedEvent => SendMoreMarks(c.(tcp := Up, sent := [], retired := [], responses := []));
    case ResponseEvent(resp, close) => ResponseMarks(c, resp, close);
    case ClosedEvent(resp) => ResponseMarks(c.(tcp := Absent), resp, false);
    case ErrorEvent(result) =>
      FlushInflightTells(c, result);
      FlushWaitingTells(FlushInflight(c, result), result);
    case _ =>
  }

  lemma SubmitMarks<R>(c: Client<R>, e: Event<R>)
    requires Enabled(c, e) && e.SubmitEvent?
    ensures var n := Next(c, e);
            && n.heads == (if e.head then c.heads + {e.id} else c.heads)
            && n.timed == if e.timed then c.timed + {e.id} else c.timed
  {
  }

  lemma {:induction false} SendMoreMarks<R>(c: Client<R>)
    ensures SendMore(c).heads == c.heads && SendMore(c).timed == c.timed
    decreases |c.waiting|
  {
    if |c.inflight| <= c.depth && c.waiting != [] {
      SendMoreMarks(SendFront(c));
    }
  }

  lemma ResponseMarks<R>(c: Client<R>, resp: R, close: bool)
    requires c.inflight != []
    ensures HandleResponse(c, resp, close).heads == c.heads && HandleResponse(c, resp, close).timed == c.timed
  {
    hide Fails;
    FlushInflightTells(Answered(c, resp), NetworkFailure);
  }

  /** The requests marked as HEAD or timed are those submitted so. */
  lemma {:induction false} RunMarks<R>(states: seq<Client<R>>, events: seq<Event<R>>, k: nat, id: nat)
    requires IsRun(states, events) && k < |states|
    requires exists b, a, d :: states[0] == Initial<R>(b, a, d)
    ensures id in states[k].heads <==> SubmittedHead(events, k, id)
    ensures id in states[k].timed <==> SubmittedTimed(events, k, id)
    decreases k
  {
    hide Next, Enabled;
    if k > 0 {
      RunMarks(states, events, k - 1, id);
      NextMarks(states[k - 1], events[k - 1], id);
    }
  }

  /** A response that says close ends a connection that is up exactly when nothing is in flight behind it; no other
      response does. Then the next request makes a new connection. */
  lemma CloseHonoured<R>(c: Client<R>, resp: R, close: bool)
    requires Inv(c) && Busy(c) && c.tcp.Up? && c.inflight != []
    ensures var n := HandleResponse(c, resp, close);
            && (n.tcp.Up? || n.tcp.Absent?)
            && (n.tcp.Absent? <==> close && n.inflight == [])
            && (n.tcp.Absent? ==> n.waiting == [])
  {
    hide Core, Fire;
    AnsweredCore(c, resp);
  }

  /** When the peer closes behind a response delimited by the close, a new connection is made exactly if requests
      wait. */
  lemma ClosedReconnects<R>(c: Client<R>, resp: R)
    requires c.inflight != []
    ensures var n := ClosedWithResponse(c, resp);
            && n.inflight == [] && n.waiting == c.waiting
            && (n.tcp.Connecting? <==> c.waiting != []) && (n.tcp.Absent? <==> c.waiting == [])
  {
    hide Fails;
    FlushInflightTells(Answered(c.(tcp := Absent), resp), NetworkFailure);
  }

  /** The first request on a client without connection: a name is resolved, a valid address connected to with the
      request waiting, and any other address fails it at once. */
  lemma FirstRequest<R>(c: Client<R>, id: nat, timed: bool, head: bool)
    requires Inv(c) && c.tcp.Absent? && id !in c.submitted
    ensures var n := Submit(c, id, timed, head);
            if c.byName then n.dns && n.tcp.Absent? && n.waiting == c.waiting + [id] && n.log == c.log
            else if c.addressValid then n.tcp.Connecting? && n.waiting == [id] && n.log == c.log
            else n.tcp.Absent? && n.waiting == [] && n.log == c.log + [Fired(id, BadServerAddress, None)]
  {
    hide Core;
    NotFiredYet(c, id);
  }

  lemma NotFiredYet<R>(c: Client<R>, id: nat)
    requires Inv(c) && id !in c.submitted
    ensures !HasFired(c.log, id)
  {
    assert Accounted(c, id);
  }
}
