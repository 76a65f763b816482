/** Response pipelining on one server connection (HttpServer::onRequests, handleResponse and the queue in
    HttpRequestParser) as a state machine over the steps that can interleave. */
module Pipelining {
  import opened Bytes
  import opened Writer

  // A batch of requests is taken one by one, a handler runs, responses come on the loop (for any request, from inside
  // any handler), from other threads, or from queued tasks, and the connection breaks.

  /** An element of requestPipelining_; requests are numbered in arrival order. */
  datatype Entry = Entry(id: nat, head: bool, answer: Option<Response>)

  /** An element of the response buffer, with the number of its request. */
  datatype Given = Given(id: nat, reply: Reply)

  /** A response on its way to the loop. */
  datatype Task = Task(id: nat, resp: Response)

  /** Where onRequests is: not running, between two requests, inside the handler of the request taken last. */
  datatype Phase =
    | Idle
    | Between(remaining: seq<bool>)
    | Handling(remaining: seq<bool>, pipelined: bool, respReady: bool)
  {
    function Remaining(): seq<bool> { if Idle? then [] else remaining }
  }

  datatype Server = Server(
    connected: bool,
    stopped: bool,
    keepalive: nat,                // limit on requests per connection, 0 for none
    limit: nat,                    // limit on pipelined requests, 0 for none
    parsed: nat,
    dispatched: seq<bool>,         // the HEAD flags of the requests taken so far
    queue: seq<Entry>,
    buffer: seq<Given>,            // getResponseBuffer()
    phase: Phase,
    flagged: set<nat>,             // the requests whose *loopFlagPtr is true
    used: set<nat>,                // the requests whose responseSent_ is set
    rejected: set<nat>,            // rejected by a sync advice: no callback exists for them
    tasks: seq<Task>,
    wire: seq<Item>,
    released: seq<Given>,          // what left the queue, or bypassed it, in that order
    sent: seq<Given>,              // what was given to sendResponses
    first: map<nat, Response>)     // the first response of each request

  function Start(keepalive: nat, limit: nat): Server {
    Server(true, false, keepalive, limit, 0, [], [], [], Idle, {}, {}, {}, [], [], [], [], map[])
  }

  // ----- the queue -----

  function Index(queue: seq<Entry>, id: nat): (i: nat)
    ensures i <= |queue| && (i < |queue| ==> queue[i].id == id)
  {
    if queue == [] || queue[0].id == id then 0 else 1 + Index(queue[1..], id)
  }

  /** pushResponseToPipelining, for the first match. */
  function Answered(queue: seq<Entry>, id: nat, resp: Response): seq<Entry> {
    var i := Index(queue, id);
    if i < |queue| then queue[i := queue[i].(answer := Some(resp))] else queue
  }

  /** How many entries popReadyResponses takes. */
  function ReadyCount(queue: seq<Entry>): (n: nat)
    ensures n <= |queue| && (forall i | 0 <= i < n :: queue[i].answer.Some?)
    ensures n < |queue| ==> queue[n].answer.None?
  {
    if queue == [] || queue[0].answer.None? then 0 else 1 + ReadyCount(queue[1..])
  }

  function Taken(queue: seq<Entry>, n: nat): (r: seq<Given>)
    requires n <= ReadyCount(queue)
    ensures |r| == n
    ensures forall i | 0 <= i < n :: r[i] == Given(queue[i].id, Reply(queue[i].answer.value, queue[i].head))
  {
    seq(n, i requires 0 <= i < n => Given(queue[i].id, Reply(queue[i].answer.value, queue[i].head)))
  }

  function Replies(given: seq<Given>): (r: seq<Reply>)
    ensures |r| == |given| && forall i | 0 <= i < |r| :: r[i] == given[i].reply
  {
    seq(|given|, i requires 0 <= i < |given| => given[i].reply)
  }

  /** pushResponseToPipelining and, when the response is the first in the queue, popReadyResponses. */
  datatype Delivery = Delivery(popped: seq<Given>, queue: seq<Entry>, first: bool)

  function Deliver(queue: seq<Entry>, id: nat, resp: Response): Delivery
    requires queue != []
  {
    var q := Answered(queue, id, resp);
    if Index(queue, id) != 0 then Delivery([], q, false)
    else Delivery(Taken(q, ReadyCount(q)), q[ReadyCount(q)..], true)
  }

  // ----- steps -----

  function Send(s: Server, given: seq<Given>): Server {
    s.(wire := s.wire + Batch(Replies(given)), sent := s.sent + given,
       connected := s.connected && !AnyCloses(Replies(given)))
  }

  /** onRequests up to its loop. */
  function Arrive(s: Server, heads: seq<bool>): Server {
    var n := s.(parsed := s.parsed + |heads|);
    if (s.keepalive > 0 && n.parsed >= s.keepalive) || (s.limit > 0 && |s.queue| + |heads| >= s.limit) then
      n.(stopped := true, connected := false)
    else if !s.connected then n
    else n.(phase := Between(heads))
  }

  /** The next request gets its number and, behind others, its place in the queue. */
  function Enter(s: Server, head: bool): Server {
    s.(dispatched := s.dispatched + [head],
       queue := if s.queue != [] then s.queue + [Entry(|s.dispatched|, head, None)] else s.queue)
  }

  /** A sync advice passes the request to its handler or rejects it with a response. */
  function Judge(n: Server, rest: seq<bool>, pipelined: bool, reject: Option<Response>): Server
    requires n.dispatched != []
  {
    var id := |n.dispatched| - 1;
    match reject
    case None => n.(flagged := n.flagged + {id}, phase := Handling(rest, pipelined, false))
    case Some(resp) =>
      var t := n.(rejected := n.rejected + {id}, first := n.first[id := resp], phase := Between(rest));
      var given := Given(id, Reply(resp, n.dispatched[id]));
      if pipelined then t.(queue := Answered(n.queue, id, resp))
      else t.(buffer := n.buffer + [given], released := n.released + [given])
  }

  /** The loop of onRequests takes the next request. */
  function Take(s: Server, reject: Option<Response>): Server
    requires s.phase.Between? && s.phase.remaining != []
  {
    Judge(Enter(s, s.phase.remaining[0]), s.phase.remaining[1..], s.queue != [], reject)
  }

  /** handleResponse on the loop thread. */
  function CompleteHere(s: Server, id: nat, resp: Response): Server
    requires id < |s.dispatched|
  {
    if !s.connected || id in s.used then s
    else
      var n := s.(used := s.used + {id}, first := s.first[id := resp]);
      if s.queue == [] then Direct(n, id, resp) else ThroughQueue(n, id, resp)
  }

  function Direct(n: Server, id: nat, resp: Response): Server
    requires id < |n.dispatched|
  {
    var given := Given(id, Reply(resp, n.dispatched[id]));
    n.(phase := if n.phase.Handling? then n.phase.(respReady := true) else n.phase,
       buffer := n.buffer + [given], released := n.released + [given])
  }

  function ThroughQueue(n: Server, id: nat, resp: Response): Server
    requires n.queue != []
  {
    var d := Deliver(n.queue, id, resp);
    var popped := n.(queue := d.queue, buffer := n.buffer + d.popped, released := n.released + d.popped);
    if !d.first || id in n.flagged then popped else Send(popped, popped.buffer).(buffer := [])
  }

  /** handleResponse on another thread: the response is queued for the loop. */
  function CompleteElsewhere(s: Server, id: nat, resp: Response): Server {
    if !s.connected || id in s.used then s
    else s.(used := s.used + {id}, first := s.first[id := resp], tasks := s.tasks + [Task(id, resp)])
  }

  function Without(tasks: seq<Task>, k: nat): (r: seq<Task>)
    requires k < |tasks|
    ensures |r| == |tasks| - 1
    ensures forall i | 0 <= i < |r| :: r[i] == tasks[if i < k then i else i + 1]
  {
    tasks[..k] + tasks[k + 1..]
  }

  /** The loop runs a queued task. */
  function RunTask(s: Server, k: nat): Server
    requires k < |s.tasks|
  {
    var t, n := s.tasks[k], s.(tasks := Without(s.tasks, k));
    if !s.connected || s.queue == [] then n
    else
      var d := Deliver(s.queue, t.id, t.resp);
      Send(n.(queue := d.queue, released := s.released + d.popped), d.popped)
  }

  /** The handler returns. */
  function Return(s: Server): Server
    requires s.phase.Handling? && s.dispatched != []
  {
    var id := |s.dispatched| - 1;
    s.(phase := Between(s.phase.remaining),
       queue := if !s.phase.pipelined && !s.phase.respReady then s.queue + [Entry(id, s.dispatched[id], None)]
                else s.queue)
  }

  /** onRequests behind its loop. */
  function Finish(s: Server): Server {
    var n := s.(phase := Idle, flagged := {});
    if s.connected && s.buffer != [] then Send(n, s.buffer).(buffer := []) else n
  }

  // ----- runs -----

  datatype Event =
    | ArriveEvent(heads: seq<bool>)
    | TakeEvent(reject: Option<Response>)
    | HereEvent(id: nat, resp: Response)
    | ElsewhereEvent(id: nat, resp: Response)
    | TaskEvent(k: nat)
    | ReturnEvent
    | FinishEvent
    | BreakEvent

  /** A callback exists from the moment the request is taken, unless a sync advice rejected it; it may be called any
      number of times. On the loop that is inside a handler or outside onRequests. */
  predicate Enabled(s: Server, e: Event) {
    match e
    case ArriveEvent(heads) => s.phase.Idle? && !s.stopped && heads != []
    case TakeEvent(_) => s.phase.Between? && s.phase.remaining != []
    case HereEvent(id, _) => !s.phase.Between? && id < |s.dispatched| && id !in s.rejected
    case ElsewhereEvent(id, _) => id < |s.dispatched| && id !in s.rejected
    case TaskEvent(k) => s.phase.Idle? && k < |s.tasks|
    case ReturnEvent => s.phase.Handling? && s.dispatched != []
    case FinishEvent => s.phase.Between? && s.phase.remaining == []
    case BreakEvent => true
  }

  function Next(s: Server, e: Event): Server
    requires Enabled(s, e)
  {
    match e
    case ArriveEvent(heads) => Arrive(s, heads)
    case TakeEvent(reject) => Take(s, reject)
    case HereEvent(id, resp) => CompleteHere(s, id, resp)
    case ElsewhereEvent(id, resp) => CompleteElsewhere(s, id, resp)
    case TaskEvent(k) => RunTask(s, k)
    case ReturnEvent => Return(s)
    case FinishEvent => Finish(s)
    case BreakEvent => s.(connected := false)
  }

  ghost predicate IsRun(states: seq<Server>, events: seq<Event>) {
    && |states| == |events| + 1
    && forall k | 0 <= k < |events| :: Enabled(states[k], events[k]) && states[k + 1] == Next(states[k], events[k])
  }

  // the same, by its events alone

  ghost predicate Possible(s: Server, events: seq<Event>)
    decreases |events|
  {
    events == [] || (Enabled(s, events[0]) && Possible(Next(s, events[0]), events[1..]))
  }

  ghost function After(s: Server, events: seq<Event>): Server
    requires Possible(s, events)
    decreases |events|
  {
    if events == [] then s else After(Next(s, events[0]), events[1..])
  }

  // ----- the invariant -----

  /** Queue entries for the requests from number `from` on, each in its place and with its own HEAD flag. */
  predicate Queued(queue: seq<Entry>, from: nat, heads: seq<bool>) {
    from + |queue| <= |heads| &&
    forall i | 0 <= i < |queue| :: queue[i].id == from + i && queue[i].head == heads[from + i]
  }

  /** The released responses are the first responses of the first requests, in order, with their own HEAD flags. */
  predicate InPlace(released: seq<Given>, heads: seq<bool>, first: map<nat, Response>) {
    |released| <= |heads| &&
    forall i | 0 <= i < |released| :: i in first && released[i] == Given(i, Reply(first[i], heads[i]))
  }

  /** Every answer in the queue is the first response given for that request. */
  predicate Truthful(queue: seq<Entry>, from: nat, first: map<nat, Response>) {
    forall i | 0 <= i < |queue| && queue[i].answer.Some? ::
      from + i in first && queue[i].answer == Some(first[from + i])
  }

  /** Released responses and queue together, with the head of the queue still unanswered. */
  ghost predicate Core(released: seq<Given>, queue: seq<Entry>, heads: seq<bool>, first: map<nat, Response>) {
    && InPlace(released, heads, first) && Queued(queue, |released|, heads)
    && Truthful(queue, |released|, first)
    && (queue != [] ==> queue[0].answer.None?)
  }

  /** A request being handled that is neither queued nor answered yet. */
  predicate Pending(s: Server) { s.phase.Handling? && !s.phase.pipelined && !s.phase.respReady }

  function PendingCount(s: Server): nat { if Pending(s) then 1 else 0 }

  /** Responses released so far, then the queue, then the request being handled: all requests, in order. */
  ghost predicate InOrder(s: Server) {
    && Core(s.released, s.queue, s.dispatched, s.first)
    && |s.released| + |s.queue| + PendingCount(s) == |s.dispatched|
    && (s.phase.Handling? ==> s.dispatched != [] && (!s.phase.pipelined ==> s.queue == []))
  }

  /** Request `id` has its response in the queue or released. */
  predicate Has(released: seq<Given>, queue: seq<Entry>, id: nat) {
    id < |released| || (id < |released| + |queue| && queue[id - |released|].answer.Some?)
  }

  predicate Delivered(s: Server, id: nat) { Has(s.released, s.queue, id) }

  predicate HasTask(tasks: seq<Task>, id: nat) { exists k | 0 <= k < |tasks| :: tasks[k].id == id }

  /** The responses given are those of callbacks used and of requests rejected. */
  ghost predicate Known(s: Server) {
    && (forall id | id in s.first :: id < |s.dispatched|)
    && (forall id :: id in s.first <==> id in s.used || id in s.rejected)
    && s.used !! s.rejected
    && (s.phase.Handling? ==> |s.dispatched| - 1 !in s.rejected)
  }

  /** A response given elsewhere is on its way to the loop until it is delivered or the connection is gone. */
  ghost predicate OnTheWay(s: Server) {
    && (forall k | 0 <= k < |s.tasks| :: s.tasks[k].id in s.used && s.tasks[k].id in s.first &&
                                         s.first[s.tasks[k].id] == s.tasks[k].resp && !Delivered(s, s.tasks[k].id))
    && (forall j, k | 0 <= j < k < |s.tasks| :: s.tasks[j].id != s.tasks[k].id)
    && (s.connected ==> forall id | id in s.used :: Delivered(s, id) || HasTask(s.tasks, id))
    && (forall id | id in s.rejected :: Delivered(s, id))
  }

  /** What went to the connection is a prefix of what was released, the rest of it in the buffer. */
  ghost predicate OnTheWire(s: Server) {
    && s.sent <= s.released
    && (s.connected ==> s.sent + s.buffer == s.released && !AnyCloses(Replies(s.sent)))
    && (s.connected && s.phase.Idle? ==> s.buffer == [])
    && (AllAlike(Replies(s.sent)) ==> s.wire == OneByOne(Replies(s.sent)))
  }

  ghost predicate Limited(s: Server) {
    && |s.dispatched| + |s.phase.Remaining()| <= s.parsed
    && (s.keepalive > 0 ==> |s.dispatched| + |s.phase.Remaining()| < s.keepalive)
    && (s.limit > 0 ==> |s.queue| + PendingCount(s) + |s.phase.Remaining()| < s.limit)
    && (s.phase.Handling? ==> |s.dispatched| - 1 in s.flagged)
    && (s.phase.Idle? ==> s.flagged == {})
  }

  ghost predicate Inv(s: Server) {
    InOrder(s) && Known(s) && OnTheWay(s) && OnTheWire(s) && Limited(s)
  }

  // ----- the queue keeps the order -----

  lemma {:induction false} IndexIs(queue: seq<Entry>, from: nat, heads: seq<bool>, id: nat)
    requires Queued(queue, from, heads)
    ensures Index(queue, id) == if from <= id < from + |queue| then id - from else |queue|
    decreases |queue|
  {
    if queue != [] && queue[0].id != id {
      IndexIs(queue[1..], from + 1, heads, id);
    }
  }

  /** pushResponseToPipelining finds the request and answers it alone. */
  lemma AnsweredOne(released: seq<Given>, queue: seq<Entry>, heads: seq<bool>, first: map<nat, Response>, id: nat)
    requires Queued(queue, |released|, heads) && Truthful(queue, |released|, first)
    requires |released| <= id < |released| + |queue| && id in first
    ensures var q := Answered(queue, id, first[id]);
            && |q| == |queue| && Queued(q, |released|, heads) && Truthful(q, |released|, first)
            && (id != |released| ==> q[0] == queue[0])
            && (forall j: nat :: Has(released, q, j) <==> j == id || Has(released, queue, j))
  {
    IndexIs(queue, |released|, heads, id);
    var k := id - |released|;
    var e := queue[k].(answer := Some(first[id]));
    assert Answered(queue, id, first[id]) == queue[k := e];
    hide Answered, Has, Queued, Truthful;
    AnsweredHas(released, queue, k, e);
    AnsweredTruthful(queue, |released|, first, k, e);
  }

  lemma AnsweredHas(released: seq<Given>, queue: seq<Entry>, k: nat, e: Entry)
    requires k < |queue| && e.answer.Some?
    ensures forall j: nat :: Has(released, queue[k := e], j) <==> j == |released| + k || Has(released, queue, j)
  {
    var q := queue[k := e];
    forall j: nat
      ensures Has(released, q, j) <==> j == |released| + k || Has(released, queue, j)
    {
      var i := j - |released|;
      if 0 <= i < |q| {
        assert q[i] == if i == k then e else queue[i];
      }
    }
  }

  lemma AnsweredTruthful(queue: seq<Entry>, from: nat, first: map<nat, Response>, k: nat, e: Entry)
    requires k < |queue| && Truthful(queue, from, first) && from + k in first && e.answer == Some(first[from + k])
    ensures Truthful(queue[k := e], from, first)
  {
  }

  /** Delivering a response for a queued request: the match is found, the order and the answers stay right, the head of
      the new queue is unanswered, and exactly this request becomes delivered. */
  lemma DeliverCore(released: seq<Given>, queue: seq<Entry>, heads: seq<bool>, first: map<nat, Response>, id: nat)
    requires Core(released, queue, heads, first) && |released| <= id < |released| + |queue| && id in first
    ensures var d := Deliver(queue, id, first[id]);
            && Core(released + d.popped, d.queue, heads, first)
            && |d.popped| + |d.queue| == |queue|
            && d.first == (id == |released|)
            && (!d.first ==> d.popped == [])
            && (forall j: nat :: Has(released + d.popped, d.queue, j) <==> j == id || Has(released, queue, j))
  {
    hide Answered, Has, Queued, Truthful, InPlace;
    IndexIs(queue, |released|, heads, id);
    AnsweredOne(released, queue, heads, first, id);
    var q := Answered(queue, id, first[id]);
    if id != |released| {
      assert released + [] == released;
    } else {
      PopCore(released, q, heads, first);
    }
  }

  /** popReadyResponses moves the longest answered prefix. */
  lemma PopCore(released: seq<Given>, q: seq<Entry>, heads: seq<bool>, first: map<nat, Response>)
    requires InPlace(released, heads, first) && Queued(q, |released|, heads)
    requires Truthful(q, |released|, first)
    ensures var n := ReadyCount(q);
            && Core(released + Taken(q, n), q[n..], heads, first)
            && (forall j: nat :: Has(released + Taken(q, n), q[n..], j) <==> Has(released, q, j))
  {
    hide InPlace, Queued, Truthful, Has;
    var n := ReadyCount(q);
    PopPlaces(released, q, heads, first);
    PopRest(q, |released|, n, heads, first);
    PopHas(released, Taken(q, n), q, n);
  }

  lemma PopPlaces(released: seq<Given>, q: seq<Entry>, heads: seq<bool>, first: map<nat, Response>)
    requires InPlace(released, heads, first) && Queued(q, |released|, heads)
    requires Truthful(q, |released|, first)
    ensures InPlace(released + Taken(q, ReadyCount(q)), heads, first)
  {
    var n := ReadyCount(q);
    var taken := Taken(q, n);
    var now := released + taken;
    forall i | 0 <= i < |now|
      ensures i in first && now[i] == Given(i, Reply(first[i], heads[i]))
    {
      if i >= |released| {
        var k := i - |released|;
        assert now[i] == taken[k] && q[k].answer.Some?;
      }
    }
  }

  lemma PopRest(q: seq<Entry>, from: nat, n: nat, heads: seq<bool>, first: map<nat, Response>)
    requires Queued(q, from, heads) && Truthful(q, from, first) && n <= |q|
    ensures Queued(q[n..], from + n, heads) && Truthful(q[n..], from + n, first)
  {
    assert forall i | 0 <= i < |q| - n :: q[n..][i] == q[n + i];
  }

  lemma PopHas(released: seq<Given>, taken: seq<Given>, q: seq<Entry>, n: nat)
    requires |taken| == n <= |q| && forall i | 0 <= i < n :: q[i].answer.Some?
    ensures forall j: nat :: Has(released + taken, q[n..], j) <==> Has(released, q, j)
  {
  }

  // ----- every step keeps the invariant -----

  lemma SendOnTheWire(s: Server, given: seq<Given>)
    requires s.connected && OnTheWire(s.(phase := Between([]))) && s.sent + given <= s.released
    ensures var n := Send(s, given);
            && n.sent == s.sent + given
            && (n.connected ==> !AnyCloses(Replies(n.sent)))
            && (AllAlike(Replies(n.sent)) ==> n.wire == OneByOne(Replies(n.sent)))
  {
    hide AnyCloses, AllAlike, WrittenAll, UpToClose;
    var a, b := Replies(s.sent), Replies(given);
    assert Replies(s.sent + given) == a + b;
    AnyClosesConcat(a, b);
    UpToCloseOpen(a, b);
    UpToCloseAll(a);
    WrittenConcat(a, UpToClose(b), false);
    AllAlikeConcat(a, b);
    if AllAlike(b) { BatchAlike(b); }
  }

  lemma BatchAlike(replies: seq<Reply>)
    requires AllAlike(replies)
    ensures Batch(replies) == OneByOne(replies)
  {
    hide RendersAlike, Closes;
    BatchRefines(replies);
    UpToCloseIs(replies);
  }

  // growing the parts of Core

  lemma CoreFirst(released: seq<Given>, queue: seq<Entry>, heads: seq<bool>, first: map<nat, Response>, id: nat,
                  resp: Response)
    requires Core(released, queue, heads, first) && id !in first
    ensures Core(released, queue, heads, first[id := resp])
  {
  }

  lemma CoreAppend(released: seq<Given>, queue: seq<Entry>, heads: seq<bool>, first: map<nat, Response>, e: Entry)
    requires Core(released, queue, heads, first) && |released| + |queue| < |heads|
    requires e == Entry(|released| + |queue|, heads[|released| + |queue|], None)
    ensures Core(released, queue + [e], heads, first)
    ensures forall j: nat :: Has(released, queue + [e], j) <==> Has(released, queue, j)
  {
  }

  lemma CoreRelease(released: seq<Given>, heads: seq<bool>, first: map<nat, Response>, g: Given)
    requires Core(released, [], heads, first) && |released| < |heads| && |released| in first
    requires g == Given(|released|, Reply(first[|released|], heads[|released|]))
    ensures Core(released + [g], [], heads, first)
    ensures forall j: nat :: Has(released + [g], [], j) <==> j == |released| || Has(released, [], j)
  {
  }

  lemma CoreHeads(released: seq<Given>, queue: seq<Entry>, heads: seq<bool>, first: map<nat, Response>, head: bool)
    ensures Core(released, queue, heads, first) ==> Core(released, queue, heads + [head], first)
  {
  }

  lemma ArriveInv(s: Server, heads: seq<bool>)
    requires Inv(s) && Enabled(s, ArriveEvent(heads))
    ensures Inv(Arrive(s, heads))
  {
    hide Core, Has, Known, AnyCloses, AllAlike, OneByOne;
    assert Known(s) ==> Known(Arrive(s, heads)) by { KnownSame(s, Arrive(s, heads)); }
  }

  lemma KnownSame(s: Server, n: Server)
    requires n.first == s.first && n.dispatched == s.dispatched && n.used == s.used && n.rejected == s.rejected
    requires n.phase.Handling? ==> s.phase.Handling?
    ensures Known(s) ==> Known(n)
  {
  }

  /** A request is taken and passed to its handler. */
  lemma TakePassed(s: Server)
    requires Inv(s) && Enabled(s, TakeEvent(None))
    ensures Inv(Take(s, None))
  {
    hide Core, Has, AnyCloses, AllAlike, OneByOne, OnTheWay, OnTheWire;
    var head := s.phase.remaining[0];
    CoreHeads(s.released, s.queue, s.dispatched, s.first, head);
    if s.queue != [] {
      CoreAppend(s.released, s.queue, s.dispatched + [head], s.first, Entry(|s.dispatched|, head, None));
    }
    SameWay(s, Take(s, None));
    SameWire(s, Take(s, None));
  }

  lemma SameWire(s: Server, n: Server)
    requires OnTheWire(s) && !n.phase.Idle? && n.sent == s.sent && n.released == s.released && n.buffer == s.buffer
    requires n.wire == s.wire && (n.connected ==> s.connected)
    ensures OnTheWire(n)
  {
    hide AnyCloses, AllAlike, OneByOne;
  }

  lemma RejectQueued(s: Server, resp: Response)
    requires Inv(s) && Enabled(s, TakeEvent(Some(resp))) && s.queue != []
    ensures var n, id := Take(s, Some(resp)), |s.dispatched|;
            && InOrder(n) && n.released == s.released && |n.queue| == |s.queue| + 1
            && (forall j: nat :: Delivered(n, j) <==> j == id || Delivered(s, j))
  {
    hide Core, Has, Deliver, Answered, OnTheWay, OnTheWire, Limited;
    var id, head := |s.dispatched|, s.phase.remaining[0];
    var heads, first := s.dispatched + [head], s.first[id := resp];
    CoreHeads(s.released, s.queue, s.dispatched, s.first, head);
    CoreFirst(s.released, s.queue, heads, s.first, id, resp);
    var e := Entry(id, head, None);
    CoreAppend(s.released, s.queue, heads, first, e);
    DeliverCore(s.released, s.queue + [e], heads, first, id);
    DeliverLater(s.queue + [e], id, resp);
    assert s.released + [] == s.released;
  }

  lemma RejectDirect(s: Server, resp: Response)
    requires Inv(s) && Enabled(s, TakeEvent(Some(resp))) && s.queue == []
    ensures var n, id := Take(s, Some(resp)), |s.dispatched|;
            && InOrder(n) && OnTheWire(n)
            && (forall j: nat :: Delivered(n, j) <==> j == id || Delivered(s, j))
  {
    hide Core, Has, OnTheWay, Limited, AnyCloses, AllAlike, OneByOne;
    var id, head := |s.dispatched|, s.phase.remaining[0];
    var heads, first := s.dispatched + [head], s.first[id := resp];
    CoreHeads(s.released, s.queue, s.dispatched, s.first, head);
    CoreFirst(s.released, s.queue, heads, s.first, id, resp);
    var g := Given(id, Reply(resp, head));
    CoreRelease(s.released, heads, first, g);
    assert s.sent + (s.buffer + [g]) == (s.sent + s.buffer) + [g];
  }

  lemma TakeRejected(s: Server, resp: Response)
    requires Inv(s) && Enabled(s, TakeEvent(Some(resp)))
    ensures Inv(Take(s, Some(resp)))
  {
    hide Core, Has, Delivered, AnyCloses, AllAlike, OneByOne, Answered;
    if s.queue != [] { RejectQueued(s, resp); } else { RejectDirect(s, resp); }
  }

  lemma DeliverLater(queue: seq<Entry>, id: nat, resp: Response)
    ensures queue != [] && !Deliver(queue, id, resp).first ==>
              Deliver(queue, id, resp) == Delivery([], Answered(queue, id, resp), false)
  {
  }

  /** A first response that meets an empty queue on the loop is that of the request being handled, whose loop flag is
      still up; with a queue the request is found in it, unanswered. */
  lemma FirstResponse(s: Server, id: nat, resp: Response)
    requires Inv(s) && Enabled(s, HereEvent(id, resp)) && s.connected && id !in s.used
    ensures if s.queue == [] then Pending(s) && id == |s.dispatched| - 1 == |s.released| && id in s.flagged
            else |s.released| <= id < |s.released| + |s.queue| && !Delivered(s, id) && !HasTask(s.tasks, id)
    ensures id !in s.first
  {
    hide Core, OnTheWire, OnTheWay, AnyCloses, HasTask;
    NotGiven(s, id);
    NoTask(s, id);
  }

  /** A response delivered on the loop: with the queue not empty, as far as the buffer. */
  lemma HereOnTheWay(s: Server, n: Server, id: nat, resp: Response)
    requires OnTheWay(s) && id !in s.first && !HasTask(s.tasks, id)
    requires n.tasks == s.tasks && n.used == s.used + {id} && n.rejected == s.rejected
    requires (n.connected ==> s.connected) && n.first == s.first[id := resp]
    requires forall j: nat :: Delivered(n, j) <==> j == id || Delivered(s, j)
    ensures OnTheWay(n)
  {
    hide Has, Delivered;
    forall k | 0 <= k < |n.tasks|
      ensures n.tasks[k].id in n.used && n.tasks[k].id in n.first && n.first[n.tasks[k].id] == n.tasks[k].resp
      ensures !Delivered(n, n.tasks[k].id)
    {
      assert s.tasks[k].id in s.used;
      assert n.tasks[k].id != id;
    }
  }

  /** The response on the loop, before anything is sent. */
  function Popped(s: Server, id: nat, resp: Response): Server
    requires s.queue != []
  {
    var d := Deliver(s.queue, id, resp);
    s.(used := s.used + {id}, first := s.first[id := resp], queue := d.queue,
       buffer := s.buffer + d.popped, released := s.released + d.popped)
  }

  lemma PoppedInv(s: Server, id: nat, resp: Response)
    requires Inv(s) && Enabled(s, HereEvent(id, resp)) && s.connected && id !in s.used && s.queue != []
    ensures var n := Popped(s, id, resp);
            InOrder(n) && Known(n) && OnTheWay(n) && Limited(n) && OnTheWire(n.(phase := Between([])))
            && n.sent + n.buffer == n.released && n.connected
            && (Deliver(s.queue, id, resp).first ==> id == |s.released|)
            && (!Deliver(s.queue, id, resp).first ==> n.buffer == s.buffer)
  {
    hide Core, Has, Delivered, AnyCloses, AllAlike, OneByOne, Deliver;
    FirstResponse(s, id, resp);
    CoreFirst(s.released, s.queue, s.dispatched, s.first, id, resp);
    DeliverCore(s.released, s.queue, s.dispatched, s.first[id := resp], id);
    assert forall j: nat :: Delivered(Popped(s, id, resp), j) <==> j == id || Delivered(s, j) by {
      SameHas(s, Popped(s, id, resp), id);
    }
    HereOnTheWay(s, Popped(s, id, resp), id, resp);
    assert s.buffer + [] == s.buffer;
  }

  lemma SameHas(s: Server, n: Server, id: nat)
    requires forall j: nat :: Has(n.released, n.queue, j) <==> j == id || Has(s.released, s.queue, j)
    ensures forall j: nat :: Delivered(n, j) <==> j == id || Delivered(s, j)
  {
    hide Has;
  }

  /** The first response to a request taken on an empty queue bypasses the queue. */
  lemma DirectInv(s: Server, id: nat, resp: Response)
    requires Inv(s) && Enabled(s, HereEvent(id, resp)) && s.connected && id !in s.used && s.queue == []
    ensures Inv(CompleteHere(s, id, resp))
  {
    hide Core, Has, Delivered, AnyCloses, AllAlike, OneByOne;
    FirstResponse(s, id, resp);
    NoTask(s, id);
    var n := CompleteHere(s, id, resp);
    var g := Given(id, Reply(resp, s.dispatched[id]));
    CoreFirst(s.released, s.queue, s.dispatched, s.first, id, resp);
    CoreRelease(s.released, s.dispatched, n.first, g);
    SameHas(s, n, id);
    HereOnTheWay(s, n, id, resp);
    assert s.sent + (s.buffer + [g]) == (s.sent + s.buffer) + [g];
  }

  lemma NoTask(s: Server, id: nat)
    requires OnTheWay(s) && id !in s.used
    ensures !HasTask(s.tasks, id)
  {
    hide Has, Delivered;
  }

  lemma HereInv(s: Server, id: nat, resp: Response)
    requires Inv(s) && Enabled(s, HereEvent(id, resp))
    ensures Inv(CompleteHere(s, id, resp))
  {
    hide Core, Has, AnyCloses, AllAlike, OneByOne, Deliver, Batch, InOrder;
    if s.connected && id !in s.used {
      if s.queue == [] {
        DirectInv(s, id, resp);
      } else {
        PoppedInv(s, id, resp);
        var n := Popped(s, id, resp);
        if Deliver(s.queue, id, resp).first && id !in s.flagged {
          SendOnTheWire(n, n.buffer);
          SentInv(n, Send(n, n.buffer).(buffer := []));
        } else {
          HereBuffered(s, id, resp);
        }
      }
    }
  }

  /** Inside the batch the response waits in the buffer; outside it a response behind another waits in the queue. */
  lemma HereBuffered(s: Server, id: nat, resp: Response)
    requires Inv(s) && Enabled(s, HereEvent(id, resp)) && s.connected && id !in s.used && s.queue != []
    requires !Deliver(s.queue, id, resp).first || id in s.flagged
    ensures Inv(CompleteHere(s, id, resp))
  {
    hide Core, Has, AnyCloses, AllAlike, OneByOne, Deliver, Batch, InOrder;
    PoppedInv(s, id, resp);
    assert CompleteHere(s, id, resp) == Popped(s, id, resp);
  }

  /** Sending changes only the connection, the wire and the buffer. */
  lemma SentInv(n: Server, t: Server)
    requires InOrder(n) && Known(n) && OnTheWay(n) && Limited(n)
    requires t == n.(connected := t.connected, wire := t.wire, sent := t.sent, buffer := t.buffer)
    requires (t.connected ==> n.connected) && OnTheWire(t)
    ensures Inv(t)
  {
    hide Core, Has, AnyCloses, AllAlike, OneByOne;
  }

  lemma ElsewhereInv(s: Server, id: nat, resp: Response)
    requires Inv(s) && Enabled(s, ElsewhereEvent(id, resp))
    ensures Inv(CompleteElsewhere(s, id, resp))
  {
    hide Core, Has, AnyCloses, AllAlike, OneByOne;
    if s.connected && id !in s.used {
      var n := CompleteElsewhere(s, id, resp);
      CoreFirst(s.released, s.queue, s.dispatched, s.first, id, resp);
      NotGiven(s, id);
      assert n.tasks[|s.tasks|] == Task(id, resp);
      PostedOnTheWay(s, id, resp);
    }
  }

  lemma NotGiven(s: Server, id: nat)
    ensures InOrder(s) && Known(s) && id !in s.used && id !in s.rejected ==> id !in s.first && !Delivered(s, id)
  {
  }

  lemma PostedOnTheWay(s: Server, id: nat, resp: Response)
    requires OnTheWay(s) && id !in s.used && id !in s.first && !Delivered(s, id) && s.connected
    ensures OnTheWay(CompleteElsewhere(s, id, resp))
  {
    hide Has;
    var n := CompleteElsewhere(s, id, resp);
    assert n.tasks[|s.tasks|] == Task(id, resp);
    forall j | j in n.used
      ensures Delivered(n, j) || HasTask(n.tasks, j)
    {
      if j != id && !Delivered(s, j) {
        var k :| 0 <= k < |s.tasks| && s.tasks[k].id == j;
        assert n.tasks[k] == s.tasks[k];
      }
    }
  }

  lemma ReturnInv(s: Server)
    requires Inv(s) && Enabled(s, ReturnEvent)
    ensures Inv(Return(s))
  {
    hide Core, Has, AnyCloses, AllAlike, OneByOne;
    var n := Return(s);
    if Pending(s) {
      var id := |s.dispatched| - 1;
      CoreAppend(s.released, s.queue, s.dispatched, s.first, Entry(id, s.dispatched[id], None));
    }
  }

  lemma FinishInv(s: Server)
    requires Inv(s) && Enabled(s, FinishEvent)
    ensures Inv(Finish(s))
  {
    hide Core, Has, AnyCloses, AllAlike, OneByOne, Batch, OnTheWay;
    var n := s.(phase := Idle, flagged := {});
    assert OnTheWay(n) by { SameWay(s, n); }
    if s.connected && s.buffer != [] {
      SendOnTheWire(s, s.buffer);
      SentInv(n, Send(n, s.buffer).(buffer := []));
    }
  }

  lemma SameWay(s: Server, n: Server)
    requires OnTheWay(s) && n.tasks == s.tasks && n.used == s.used && n.first == s.first && n.rejected == s.rejected
    requires n.connected ==> s.connected
    requires forall id: nat :: Has(n.released, n.queue, id) <==> Has(s.released, s.queue, id)
    ensures OnTheWay(n)
  {
    hide Has;
    assert forall id: nat :: Delivered(n, id) == Delivered(s, id);
  }

  lemma BreakInv(s: Server)
    requires Inv(s)
    ensures Inv(s.(connected := false))
  {
    hide Core, Has, AnyCloses, AllAlike, OneByOne;
  }

  // a queued task

  lemma TaskOnTheWay(s: Server, n: Server, k: nat)
    requires OnTheWay(s) && k < |s.tasks|
    requires n.tasks == Without(s.tasks, k) && n.used == s.used && n.first == s.first && n.rejected == s.rejected
    requires n.connected ==> s.connected
    requires if n.connected || n.queue != s.queue || n.released != s.released
             then forall j: nat :: Delivered(n, j) <==> j == s.tasks[k].id || Delivered(s, j)
             else n.queue == s.queue && n.released == s.released
    ensures OnTheWay(n)
  {
    hide Has;
    TasksStillOut(s, n, k);
    if n.connected {
      StillOnTheWay(s, n, k);
    }
  }

  /** The tasks left are still undelivered. */
  lemma TasksStillOut(s: Server, n: Server, k: nat)
    requires OnTheWay(s) && k < |s.tasks| && n.tasks == Without(s.tasks, k) && n.used == s.used && n.first == s.first
    requires forall j: nat | Delivered(n, j) :: j == s.tasks[k].id || Delivered(s, j)
    ensures forall i | 0 <= i < |n.tasks| ::
              n.tasks[i].id in n.used && n.tasks[i].id in n.first && n.first[n.tasks[i].id] == n.tasks[i].resp &&
              !Delivered(n, n.tasks[i].id)
  {
    hide Has, Delivered;
    forall i | 0 <= i < |n.tasks|
      ensures n.tasks[i].id in n.used && n.tasks[i].id in n.first && n.first[n.tasks[i].id] == n.tasks[i].resp
      ensures !Delivered(n, n.tasks[i].id)
    {
      var was := if i < k then i else i + 1;
      assert n.tasks[i] == s.tasks[was] && s.tasks[was].id != s.tasks[k].id;
    }
  }

  lemma StillOnTheWay(s: Server, n: Server, k: nat)
    requires OnTheWay(s) && s.connected && k < |s.tasks| && n.tasks == Without(s.tasks, k) && n.used == s.used
    requires forall j: nat :: Delivered(n, j) <==> j == s.tasks[k].id || Delivered(s, j)
    ensures forall j | j in n.used :: Delivered(n, j) || HasTask(n.tasks, j)
  {
    hide Has, Delivered;
    forall j | j in n.used
      ensures Delivered(n, j) || HasTask(n.tasks, j)
    {
      if j != s.tasks[k].id && !Delivered(s, j) {
        var i :| 0 <= i < |s.tasks| && s.tasks[i].id == j;
        assert n.tasks[if i < k then i else i - 1] == s.tasks[i];
      }
    }
  }

  /** A queued response finds its request in the queue, still unanswered. */
  lemma TaskFindsRequest(s: Server, k: nat)
    requires Inv(s) && Enabled(s, TaskEvent(k)) && s.connected
    ensures var id := s.tasks[k].id;
            |s.released| <= id < |s.released| + |s.queue| && !Delivered(s, id) && s.queue != []
    ensures s.tasks[k].id in s.first && s.first[s.tasks[k].id] == s.tasks[k].resp && s.buffer == []
  {
    hide Core, AnyCloses, AllAlike, OneByOne;
  }

  /** The task's response delivered and about to be sent. */
  function TaskPopped(s: Server, k: nat): Server
    requires k < |s.tasks| && s.queue != []
  {
    var d := Deliver(s.queue, s.tasks[k].id, s.tasks[k].resp);
    s.(tasks := Without(s.tasks, k), queue := d.queue, released := s.released + d.popped, buffer := d.popped)
  }

  lemma TaskPoppedInv(s: Server, k: nat)
    requires Inv(s) && Enabled(s, TaskEvent(k)) && s.connected && s.queue != []
    ensures var n := TaskPopped(s, k);
            InOrder(n) && Known(n) && OnTheWay(n) && Limited(n) && OnTheWire(n.(phase := Between([])))
            && n.sent + n.buffer == n.released
  {
    hide Core, Has, Delivered, AnyCloses, AllAlike, OneByOne, Deliver;
    TaskFindsRequest(s, k);
    var n, id := TaskPopped(s, k), s.tasks[k].id;
    DeliverCore(s.released, s.queue, s.dispatched, s.first, id);
    SameHas(s, n, id);
    TaskOnTheWay(s, n, k);
    assert s.sent + [] == s.sent;
  }

  lemma TaskInv(s: Server, k: nat)
    requires Inv(s) && Enabled(s, TaskEvent(k))
    ensures Inv(RunTask(s, k))
  {
    hide Core, Has, AnyCloses, AllAlike, OneByOne, Deliver, Batch, InOrder;
    if !s.connected {
      TaskDropped(s, k);
    } else {
      TaskFindsRequest(s, k);
      TaskPoppedInv(s, k);
      var n := TaskPopped(s, k);
      SendOnTheWire(n, n.buffer);
      SentInv(n, Send(n, n.buffer).(buffer := []));
      assert RunTask(s, k) == Send(n, n.buffer).(buffer := []);
    }
  }

  lemma TaskDropped(s: Server, k: nat)
    requires Inv(s) && Enabled(s, TaskEvent(k)) && !s.connected
    ensures Inv(RunTask(s, k))
  {
    hide Core, Has, AnyCloses, AllAlike, OneByOne, Deliver, Delivered;
    TaskOnTheWay(s, RunTask(s, k), k);
  }

  lemma NextInv(s: Server, e: Event)
    requires Inv(s) && Enabled(s, e)
    ensures Inv(Next(s, e))
  {
    hide Inv;
    match e
    case ArriveEvent(heads) => ArriveInv(s, heads);
    case TakeEvent(reject) => if reject.Some? { TakeRejected(s, reject.value); } else { TakePassed(s); }
    case HereEvent(id, resp) => HereInv(s, id, resp);
    case ElsewhereEvent(id, resp) => ElsewhereInv(s, id, resp);
    case TaskEvent(k) => TaskInv(s, k);
    case ReturnEvent => ReturnInv(s);
    case FinishEvent => FinishInv(s);
    case BreakEvent => BreakInv(s);
  }

  // ----- over whole runs -----

  lemma StartInv(keepalive: nat, limit: nat)
    ensures Inv(Start(keepalive, limit))
  {
    assert Replies([]) == [];
  }

  /** However sync, sync-advice, on-loop, off-loop and nested completions interleave, in every state of every run the
      responses released so far, then the queue, then the request being handled are exactly the requests taken, in
      arrival order, each once, with its own HEAD flag and its first response; the head of the queue is unanswered. */
  lemma {:induction false} RunInv(states: seq<Server>, events: seq<Event>, keepalive: nat, limit: nat, k: nat)
    requires IsRun(states, events) && states[0] == Start(keepalive, limit) && k < |states|
    ensures Inv(states[k])
  {
    hide Inv, Next, Enabled;
    if k > 0 {
      RunInv(states, events, keepalive, limit, k - 1);
      NextInv(states[k - 1], events[k - 1]);
    } else {
      StartInv(keepalive, limit);
    }
  }

  predicate Completes(e: Event) { e.HereEvent? || e.ElsewhereEvent? }

  /** The events without the completions of a request that was completed before, or is in `seen`. */
  function FirstOnly(events: seq<Event>, seen: set<nat>): seq<Event> {
    if events == [] then []
    else
      var e := events[0];
      if !Completes(e) then [e] + FirstOnly(events[1..], seen)
      else if e.id in seen then FirstOnly(events[1..], seen)
      else [e] + FirstOnly(events[1..], seen + {e.id})
  }

  /** Calling callbacks again and again changes nothing: a run ends in the same state with every repeated
      completion left out, whatever thread it came from and whatever response it carried. */
  lemma {:induction false} RepeatsChangeNothing(s: Server, events: seq<Event>, seen: set<nat>)
    requires Possible(s, events) && forall id | id in seen :: id in s.used || !s.connected
    ensures Possible(s, FirstOnly(events, seen)) && After(s, FirstOnly(events, seen)) == After(s, events)
    decreases |events|
  {
    if events != [] {
      var e, rest := events[0], events[1..];
      var more := if Completes(e) then seen + {e.id} else seen;
      UsedStays(s, e);
      hide Next, Enabled;
      RepeatsChangeNothing(Next(s, e), rest, more);
      if !(Completes(e) && e.id in seen) {
        var kept := FirstOnly(rest, more);
        assert ([e] + kept)[0] == e && ([e] + kept)[1..] == kept;
      } else {
        assert more == seen;
      }
    }
  }

  /** A completion uses the callback up or finds the connection gone, and neither is ever undone; the next completion of
      the same request does nothing. */
  lemma UsedStays(s: Server, e: Event)
    requires Enabled(s, e)
    ensures forall id | id in s.used || !s.connected :: id in Next(s, e).used || !Next(s, e).connected
    ensures Completes(e) ==> e.id in Next(s, e).used || !Next(s, e).connected
    ensures Completes(e) && (e.id in s.used || !s.connected) ==> Next(s, e) == s
  {
    hide Deliver, Answered, Batch, AnyCloses;
  }

  /** What was released, and the first response of a request, never change. */
  lemma NextKeeps(s: Server, e: Event)
    requires Inv(s) && Enabled(s, e)
    ensures s.released <= Next(s, e).released && s.sent <= Next(s, e).sent
    ensures forall id | id in s.first :: id in Next(s, e).first && Next(s, e).first[id] == s.first[id]
  {
    FirstKept(s, e);
    hide Deliver, Answered, Batch, Core, Inv, Has, AnyCloses, AllAlike;
    match e
    case HereEvent(id, resp) => HereKeeps(s, id, resp);
    case TaskEvent(k) =>
    case _ =>
  }

  lemma HereKeeps(s: Server, id: nat, resp: Response)
    requires id < |s.dispatched|
    ensures s.released <= CompleteHere(s, id, resp).released && s.sent <= CompleteHere(s, id, resp).sent
  {
    hide Deliver, Batch, AnyCloses;
  }

  lemma FirstKept(s: Server, e: Event)
    requires Inv(s) && Enabled(s, e)
    ensures forall id | id in s.first :: id in Next(s, e).first && Next(s, e).first[id] == s.first[id]
  {
    hide Deliver, Answered, Batch, Core, Has, OnTheWire, OnTheWay, Limited, AnyCloses;
    match e
    case TakeEvent(reject) => assert |s.dispatched| !in s.first;
    case HereEvent(id, resp) => assert id in s.first <==> id in s.used;
    case ElsewhereEvent(id, resp) => assert id in s.first <==> id in s.used;
    case _ =>
  }

  lemma {:induction false} RunKeeps(states: seq<Server>, events: seq<Event>, keepalive: nat, limit: nat, j: nat, k: nat)
    requires IsRun(states, events) && states[0] == Start(keepalive, limit) && j <= k < |states|
    ensures states[j].released <= states[k].released && states[j].sent <= states[k].sent
    ensures forall id | id in states[j].first :: id in states[k].first && states[k].first[id] == states[j].first[id]
    decreases k
  {
    hide Inv, Next, Enabled;
    if j < k {
      RunKeeps(states, events, keepalive, limit, j, k - 1);
      RunInv(states, events, keepalive, limit, k - 1);
      NextKeeps(states[k - 1], events[k - 1]);
    }
  }

  /** Released is the longest answered prefix of the arrival order, counting as answered what reached the loop. */
  lemma LongestAnsweredPrefix(s: Server)
    requires Inv(s)
    ensures forall id: nat | id < |s.released| :: id in s.used || id in s.rejected
    ensures |s.released| < |s.dispatched| ==> !Delivered(s, |s.released|)
  {
    hide AnyCloses, AllAlike, OneByOne;
    forall id: nat | id < |s.released|
      ensures id in s.used || id in s.rejected
    {
      assert s.released[id].id == id && id in s.first;
    }
  }

  /** Once every request has its response and the loop has run its tasks, the queue is empty and every response is with
      the writer, k-th response for k-th request; nothing is left behind. */
  lemma NothingLeftBehind(s: Server)
    requires Inv(s) && s.connected && s.phase.Idle? && s.tasks == []
    requires forall id | id < |s.dispatched| :: id in s.used || id in s.rejected
    ensures s.queue == [] && |s.sent| == |s.dispatched|
    ensures forall k | 0 <= k < |s.sent| :: k in s.first && s.sent[k] == Given(k, Reply(s.first[k], s.dispatched[k]))
  {
    hide AnyCloses, AllAlike, OneByOne;
    forall id: nat | id < |s.dispatched|
      ensures Delivered(s, id)
    {
      assert id in s.used || id in s.rejected;
    }
    LongestAnsweredPrefix(s);
    assert s.sent + [] == s.sent;
  }

  /** Batching does not show on the wire: responses that render alike reach it as if sent one at a time in arrival
      order, up to the first that closes. */
  lemma WireInOrder(s: Server)
    requires Inv(s)
    ensures AllAlike(Replies(s.sent)) ==> s.wire == OneByOne(Replies(s.sent))
    ensures s.sent <= s.released
    ensures s.connected && s.phase.Idle? ==> s.sent == s.released
  {
    hide AnyCloses, AllAlike, OneByOne;
    assert s.sent + [] == s.sent;
  }
}
