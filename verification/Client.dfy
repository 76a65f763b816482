/** The HTTP client's two queues (HttpClientImpl): requests waiting for a connection and requests in flight,
    with pipelining, timeouts and failures. Callbacks are recorded in a log; they do not call back in. */
module Client {
  import opened Bytes

  datatype ReqResult = Ok | BadResponse | NetworkFailure | BadServerAddress | Timeout | TlsError

  /** One call of a user callback. */
  datatype Fired<+R> = Fired(id: nat, result: ReqResult, resp: Option<R>)

  /** tcpClientPtr_ and its connection: no client, not connected yet, connected, shut down by us. */
  datatype Tcp = Absent | Connecting | Up | Closing

  datatype Client<+R> = Client(
    byName: bool,          // domain_ is a name that has to be resolved
    addressValid: bool,    // isValidIpAddr(serverAddr_)
    dns: bool,             // a resolution is under way
    tcp: Tcp,
    depth: nat,            // pipeliningDepth_
    inflight: seq<nat>,    // pipeliningCallbacks_
    waiting: seq<nat>,     // requestsBuffer_
    timed: set<nat>,       // requests sent with a timeout
    heads: set<nat>,       // requests with method HEAD
    submitted: seq<nat>,
    log: seq<Fired<R>>,    // user callbacks run so far
    sent: seq<nat>,        // requests written to this connection
    retired: seq<nat>,     // of those, the ones that left the queue
    responses: seq<nat>)   // the requests this connection's responses were handed to
  {
    predicate Open() { tcp.Up? || tcp.Closing? }
  }

  predicate HasFired<R>(log: seq<Fired<R>>, id: nat) {
    exists k | 0 <= k < |log| :: log[k].id == id
  }

  // ----- the operations, as functions of the state -----

  /** A callback runs, unless it is a timed one whose flag is already set. */
  function Fire<R>(c: Client<R>, id: nat, result: ReqResult, resp: Option<R>): Client<R> {
    if id in c.timed && HasFired(c.log, id) then c
    else c.(log := c.log + [Fired(id, result, resp)])
  }

  function FlushInflight<R>(c: Client<R>, result: ReqResult): Client<R>
    decreases |c.inflight|
  {
    if c.inflight == [] then c
    else
      var id := c.inflight[0];
      FlushInflight(Fire(c.(inflight := c.inflight[1..], retired := c.retired + [id]), id, result, None), result)
  }

  function FlushWaiting<R>(c: Client<R>, result: ReqResult): Client<R>
    decreases |c.waiting|
  {
    if c.waiting == [] then c
    else FlushWaiting(Fire(c.(waiting := c.waiting[1..]), c.waiting[0], result, None), result)
  }

  function OnError<R>(c: Client<R>, result: ReqResult): Client<R> {
    FlushWaiting(FlushInflight(c, result), result).(tcp := Absent)
  }

  /** The front waiting request is written to the connection. */
  function SendFront<R>(c: Client<R>): Client<R>
    requires c.waiting != []
  {
    c.(inflight := c.inflight + [c.waiting[0]], sent := c.sent + [c.waiting[0]], waiting := c.waiting[1..])
  }

  function SendMore<R>(c: Client<R>): Client<R>
    decreases |c.waiting|
  {
    if |c.inflight| <= c.depth && c.waiting != [] then SendMore(SendFront(c)) else c
  }

  function Connected<R>(c: Client<R>): Client<R> {
    SendMore(c.(tcp := Up, sent := [], retired := [], responses := []))
  }

  /** sendRequestInLoop. */
  function Submit<R>(c: Client<R>, id: nat, timed: bool, head: bool): Client<R> {
    var n := c.(submitted := c.submitted + [id], timed := if timed then c.timed + {id} else c.timed,
                heads := if head then c.heads + {id} else c.heads);
    var q := n.(waiting := n.waiting + [id]);
    if c.tcp.Absent? then
      if !c.byName then
        if c.addressValid then q.(tcp := Connecting)
        else Fire(q.(waiting := q.waiting[1..]), id, BadServerAddress, None)
      else if c.dns then q
      else q.(dns := true)
    else if c.tcp.Connecting? then q
    else if |c.inflight| <= c.depth && c.waiting == [] then
      n.(inflight := n.inflight + [id], sent := n.sent + [id])
    else q
  }

  /** The resolver answers. */
  function Resolved<R>(c: Client<R>, valid: bool): Client<R> {
    var n := c.(dns := false, addressValid := valid);
    if valid then n.(tcp := Connecting) else FlushWaiting(n, BadServerAddress)
  }

  /** handleResponse: the front request gets the response; `close` is the response's Connection: close. */
  function HandleResponse<R>(c: Client<R>, resp: R, close: bool): Client<R>
    requires c.inflight != []
  {
    var id := c.inflight[0];
    GoOn(Fire(c.(inflight := c.inflight[1..], retired := c.retired + [id], responses := c.responses + [id]),
              id, Ok, Some(resp)), close)
  }

  /** What handleResponse does behind the callback. */
  function GoOn<R>(n: Client<R>, close: bool): Client<R> {
    if n.tcp.Up? then
      if n.waiting != [] then SendFront(n)
      else if close && n.inflight == [] then n.(tcp := Absent)
      else n
    else FlushInflight(n, NetworkFailure)
  }

  /** The peer closed the connection while the response was delimited by the close. */
  function ClosedWithResponse<R>(c: Client<R>, resp: R): Client<R>
    requires c.inflight != []
  {
    var n := HandleResponse(c.(tcp := Absent), resp, false);
    if n.waiting != [] then n.(tcp := Connecting) else n
  }

  function Erase(s: seq<nat>, id: nat): seq<nat> {
    if s == [] then [] else if s[0] == id then s[1..] else [s[0]] + Erase(s[1..], id)
  }

  /** The timer of request `id` expires. */
  function TimedOut<R>(c: Client<R>, id: nat): Client<R> {
    if HasFired(c.log, id) then c
    else c.(waiting := Erase(c.waiting, id), log := c.log + [Fired(id, Timeout, None)])
  }

  // ----- runs -----

  datatype Event<+R> =
    | SubmitEvent(id: nat, timed: bool, head: bool)
    | ResolvedEvent(valid: bool)
    | ConnectedEvent
    | ResponseEvent(resp: R, close: bool)
    | ShutdownEvent                     // read-until-close, or more responses than expected
    | ClosedEvent(last: R)
    | ErrorEvent(result: ReqResult)     // disconnected, cannot connect, bad response, TLS failure
    | TimeoutEvent(id: nat)

  /** What the loop can deliver in a state: distinct requests, timers of timed requests, connection events
      of the connection there is. */
  predicate Enabled<R>(c: Client<R>, e: Event<R>) {
    match e
    case SubmitEvent(id, _, _) => id !in c.submitted
    case ResolvedEvent(_) => c.dns
    case ConnectedEvent => c.tcp.Connecting?
    case ResponseEvent(_, _) => c.Open() && c.inflight != []
    case ShutdownEvent => c.Open()
    case ClosedEvent(_) => c.Open() && c.inflight != []
    case ErrorEvent(_) => !c.tcp.Absent?
    case TimeoutEvent(id) => id in c.timed && id in c.submitted
  }

  function Next<R>(c: Client<R>, e: Event<R>): Client<R>
    requires Enabled(c, e)
  {
    match e
    case SubmitEvent(id, timed, head) => Submit(c, id, timed, head)
    case ResolvedEvent(valid) => Resolved(c, valid)
    case ConnectedEvent => Connected(c)
    case ResponseEvent(resp, close) => HandleResponse(c, resp, close)
    case ShutdownEvent => c.(tcp := Closing)
    case ClosedEvent(resp) => ClosedWithResponse(c, resp)
    case ErrorEvent(result) => OnError(c, result)
    case TimeoutEvent(id) => TimedOut(c, id)
  }

  /** Every state from the first to the last of a run, each event possible when it happens. */
  ghost predicate IsRun<R>(states: seq<Client<R>>, events: seq<Event<R>>) {
    && |states| == |events| + 1
    && forall k | 0 <= k < |events| :: Enabled(states[k], events[k]) && states[k + 1] == Next(states[k], events[k])
  }

  function Initial<R>(byName: bool, addressValid: bool, depth: nat): Client<R> {
    Client(byName, addressValid, false, Absent, depth, [], [], {}, {}, [], [], [], [], [])
  }

  // ----- what every reachable state satisfies -----

  predicate Distinct(s: seq<nat>) {
    forall i, j | 0 <= i < j < |s| :: s[i] != s[j]
  }

  /** No callback ran twice. */
  predicate FiredOnce<R>(log: seq<Fired<R>>) {
    forall i, j | 0 <= i < j < |log| :: log[i].id != log[j].id
  }

  /** Exactly one of: completed, waiting, in flight with its callback still to run. */
  predicate Accounted<R>(c: Client<R>, id: nat) {
    if id in c.submitted then
      if HasFired(c.log, id) then id !in c.waiting && (id in c.inflight ==> id in c.timed)
      else (id in c.waiting) != (id in c.inflight)
    else !HasFired(c.log, id) && id !in c.waiting && id !in c.inflight && id !in c.timed
  }

  /** The part of the invariant that also holds between two callbacks of one flush. */
  ghost predicate Core<R>(c: Client<R>) {
    && Distinct(c.submitted) && Distinct(c.waiting) && Distinct(c.sent) && FiredOnce(c.log)
    && (forall id :: Accounted(c, id))
    && c.sent == c.retired + c.inflight
    && (forall id | id in c.sent :: id in c.submitted && id !in c.waiting)
    && |c.inflight| <= c.depth + 1
    && |c.responses| <= |c.retired|
  }

  ghost predicate Inv<R>(c: Client<R>) {
    && Core(c)
    && (!c.Open() ==> c.inflight == [])
    && (c.tcp.Absent? && !c.dns ==> c.waiting == [])
    && (c.dns ==> c.tcp.Absent? && c.byName)
  }

  lemma FiredSnoc<R>(log: seq<Fired<R>>, f: Fired<R>)
    ensures forall id :: HasFired(log + [f], id) <==> HasFired(log, id) || id == f.id
    ensures FiredOnce(log) && !HasFired(log, f.id) ==> FiredOnce(log + [f])
  {
    var all := log + [f];
    forall id
      ensures HasFired(all, id) <==> HasFired(log, id) || id == f.id
    {
      if HasFired(log, id) {
        var k :| 0 <= k < |log| && log[k].id == id;
        assert all[k].id == id;
      }
      if id == f.id {
        assert all[|log|].id == id;
      }
    }
  }

  /** The front request leaves the in-flight queue and its callback runs. */
  lemma RetireCore<R>(c: Client<R>, result: ReqResult, resp: Option<R>)
    requires Core(c) && c.inflight != []
    ensures var id := c.inflight[0];
            Core(Fire(c.(inflight := c.inflight[1..], retired := c.retired + [id]), id, result, resp))
  {
    var id := c.inflight[0];
    var popped := c.(inflight := c.inflight[1..], retired := c.retired + [id]);
    assert c.sent == popped.retired + popped.inflight;
    assert id == c.sent[|c.retired|];
    assert forall k | 0 <= k < |popped.inflight| :: popped.inflight[k] == c.sent[|c.retired| + 1 + k];
    assert id !in popped.inflight;
    assert forall x :: x in c.inflight <==> x == id || x in popped.inflight;
    assert id in c.sent;
    assert Accounted(c, id);
    FiredSnoc(c.log, Fired(id, result, resp));
    var n := Fire(popped, id, result, resp);
    forall x ensures Accounted(n, x) {
      assert Accounted(c, x);
      assert Accounted(c, id);
    }
  }

  lemma {:induction false} FlushInflightCore<R>(c: Client<R>, result: ReqResult)
    requires Core(c)
    ensures Core(FlushInflight(c, result)) && FlushInflight(c, result).inflight == []
    ensures var n := FlushInflight(c, result);
            n == c.(inflight := [], retired := n.retired, log := n.log) && c.log <= n.log
    decreases |c.inflight|
  {
    hide Core;
    if c.inflight != [] {
      var id := c.inflight[0];
      RetireCore(c, result, None);
      FlushInflightCore(Fire(c.(inflight := c.inflight[1..], retired := c.retired + [id]), id, result, None), result);
    }
  }

  lemma UnqueueCore<R>(c: Client<R>, result: ReqResult)
    requires Core(c) && c.waiting != []
    ensures Core(Fire(c.(waiting := c.waiting[1..]), c.waiting[0], result, None))
  {
    var id := c.waiting[0];
    var popped := c.(waiting := c.waiting[1..]);
    assert forall x :: x in c.waiting <==> x == id || x in popped.waiting;
    assert id !in popped.waiting;
    assert Accounted(c, id);
    FiredSnoc(c.log, Fired(id, result, None));
    var n := Fire(popped, id, result, None);
    forall x ensures Accounted(n, x) {
      assert Accounted(c, x);
      assert Accounted(c, id);
    }
  }

  lemma {:induction false} FlushWaitingCore<R>(c: Client<R>, result: ReqResult)
    requires Core(c)
    ensures Core(FlushWaiting(c, result))
    ensures var n := FlushWaiting(c, result); n == c.(waiting := [], log := n.log) && c.log <= n.log
    decreases |c.waiting|
  {
    hide Core;
    if c.waiting != [] {
      UnqueueCore(c, result);
      FlushWaitingCore(Fire(c.(waiting := c.waiting[1..]), c.waiting[0], result, None), result);
    }
  }

  lemma OnErrorInv<R>(c: Client<R>, result: ReqResult)
    requires Inv(c) && !c.dns
    ensures Inv(OnError(c, result))
  {
    FlushInflightCore(c, result);
    FlushWaitingCore(FlushInflight(c, result), result);
    ElsewhereCore(FlushWaiting(FlushInflight(c, result), result), Absent, false);
  }

  /** The accounting does not depend on the connection. */
  lemma ElsewhereCore<R>(c: Client<R>, tcp: Tcp, dns: bool)
    requires Core(c)
    ensures Core(c.(tcp := tcp, dns := dns))
  {
    forall id ensures Accounted(c.(tcp := tcp, dns := dns), id) { assert Accounted(c, id); }
  }

  lemma SendFrontCore<R>(c: Client<R>)
    requires Core(c) && c.waiting != [] && |c.inflight| <= c.depth
    ensures Core(SendFront(c))
  {
    var id := c.waiting[0];
    var n := SendFront(c);
    assert Accounted(c, id);
    assert forall x :: x in c.waiting <==> x == id || x in n.waiting;
    assert forall x :: x in n.inflight <==> x == id || x in c.inflight;
    assert forall x :: x in n.sent <==> x == id || x in c.sent;
    assert id !in n.waiting && id !in c.sent;
    assert n.sent == n.retired + n.inflight;
    forall x ensures Accounted(n, x) {
      assert Accounted(c, x);
      assert Accounted(c, id);
    }
  }

  lemma {:induction false} SendMoreCore<R>(c: Client<R>)
    requires Core(c)
    ensures Core(SendMore(c))
    ensures var n := SendMore(c); n == c.(inflight := n.inflight, sent := n.sent, waiting := n.waiting)
    ensures |SendMore(c).inflight| > c.depth || SendMore(c).waiting == []
    decreases |c.waiting|
  {
    hide Core;
    if |c.inflight| <= c.depth && c.waiting != [] {
      SendFrontCore(c);
      SendMoreCore(SendFront(c));
    }
  }

  lemma ConnectedInv<R>(c: Client<R>)
    requires Inv(c) && c.tcp.Connecting?
    ensures Inv(Connected(c))
  {
    var n := c.(tcp := Up, sent := [], retired := [], responses := []);
    forall id ensures Accounted(n, id) { assert Accounted(c, id); }
    SendMoreCore(n);
  }

  lemma SubmitCore<R>(c: Client<R>, id: nat, timed: bool, head: bool)
    requires Core(c) && id !in c.submitted
    ensures var n := c.(submitted := c.submitted + [id], timed := if timed then c.timed + {id} else c.timed,
                        heads := if head then c.heads + {id} else c.heads);
            Core(n.(waiting := n.waiting + [id])) &&
            (|c.inflight| <= c.depth ==> Core(n.(inflight := n.inflight + [id], sent := n.sent + [id])))
  {
    assert Accounted(c, id);
    var n := c.(submitted := c.submitted + [id], timed := if timed then c.timed + {id} else c.timed,
                heads := if head then c.heads + {id} else c.heads);
    var q := n.(waiting := n.waiting + [id]);
    assert forall x :: x in n.submitted <==> x == id || x in c.submitted;
    assert forall x :: x in q.waiting <==> x == id || x in c.waiting;
    assert id !in c.sent;
    forall x ensures Accounted(q, x) { assert Accounted(c, x); }
    var f := n.(inflight := n.inflight + [id], sent := n.sent + [id]);
    assert forall x :: x in f.inflight <==> x == id || x in c.inflight;
    assert forall x :: x in f.sent <==> x == id || x in c.sent;
    assert f.sent == f.retired + f.inflight;
    forall x ensures Accounted(f, x) { assert Accounted(c, x); }
  }

  lemma SubmitInv<R>(c: Client<R>, id: nat, timed: bool, head: bool)
    requires Inv(c) && id !in c.submitted
    ensures Inv(Submit(c, id, timed, head))
  {
    hide Core, Fire;
    SubmitCore(c, id, timed, head);
    var n := c.(submitted := c.submitted + [id], timed := if timed then c.timed + {id} else c.timed,
                heads := if head then c.heads + {id} else c.heads);
    var q := n.(waiting := n.waiting + [id]);
    ElsewhereCore(q, Connecting, q.dns);
    ElsewhereCore(q, q.tcp, true);
    UnqueueCore(q, BadServerAddress);
    FireElsewhere(q.(waiting := q.waiting[1..]), id, BadServerAddress, None);
  }

  /** A callback touches nothing but the log. */
  lemma FireElsewhere<R>(c: Client<R>, id: nat, result: ReqResult, resp: Option<R>)
    ensures Fire(c, id, result, resp) == c.(log := Fire(c, id, result, resp).log)
  {
  }

  lemma ResolvedInv<R>(c: Client<R>, valid: bool)
    requires Inv(c) && c.dns
    ensures Inv(Resolved(c, valid))
  {
    var n := c.(dns := false, addressValid := valid);
    forall id ensures Accounted(n, id) { assert Accounted(c, id); }
    ElsewhereCore(n, Connecting, false);
    FlushWaitingCore(n, BadServerAddress);
  }

  lemma HandleResponseInv<R>(c: Client<R>, resp: R, close: bool)
    requires Inv(c) && c.inflight != [] && (c.tcp.Up? || c.tcp.Closing?)
    ensures Inv(HandleResponse(c, resp, close))
  {
    hide Core;
    AnsweredCore(c, resp);
    var n := Answered(c, resp);
    if c.tcp.Up? {
      if n.waiting != [] {
        CoreDepth(c);
        SendFrontCore(n);
      } else {
        ElsewhereCore(n, Absent, n.dns);
      }
    } else {
      FlushInflightCore(n, NetworkFailure);
    }
  }

  lemma CoreDepth<R>(c: Client<R>)
    ensures Core(c) ==> |c.inflight| <= c.depth + 1
  {
  }

  /** The front request leaves the queue with its response. */
  function Answered<R>(c: Client<R>, resp: R): Client<R>
    requires c.inflight != []
  {
    var id := c.inflight[0];
    Fire(c.(inflight := c.inflight[1..], retired := c.retired + [id], responses := c.responses + [id]),
         id, Ok, Some(resp))
  }

  lemma AnsweredCore<R>(c: Client<R>, resp: R)
    requires Core(c) && c.inflight != []
    ensures Core(Answered(c, resp))
    ensures var n := Answered(c, resp);
            n == c.(inflight := c.inflight[1..], retired := n.retired, responses := n.responses, log := n.log)
  {
    var id := c.inflight[0];
    RetireCore(c, Ok, Some(resp));
    var p := Fire(c.(inflight := c.inflight[1..], retired := c.retired + [id]), id, Ok, Some(resp));
    var n := Answered(c, resp);
    assert n == p.(responses := c.responses + [id]);
    forall x ensures Accounted(n, x) { assert Accounted(p, x); }
  }

  lemma ClosedInv<R>(c: Client<R>, resp: R)
    requires Inv(c) && c.inflight != []
    ensures Inv(ClosedWithResponse(c, resp))
  {
    hide Core;
    var a := c.(tcp := Absent);
    ElsewhereCore(c, Absent, c.dns);
    AnsweredCore(a, resp);
    var n := Answered(a, resp);
    FlushInflightCore(n, NetworkFailure);
    ElsewhereCore(FlushInflight(n, NetworkFailure), Connecting, c.dns);
  }

  lemma {:induction false} EraseFrom(s: seq<nat>, id: nat)
    requires Distinct(s)
    ensures Distinct(Erase(s, id)) && forall x :: x in Erase(s, id) <==> x in s && x != id
    decreases |s|
  {
    if s != [] && s[0] != id {
      EraseFrom(s[1..], id);
      assert s[0] !in s[1..];
      assert forall x :: x in s <==> x == s[0] || x in s[1..];
    } else if s != [] {
      assert forall x :: x in s <==> x == id || x in s[1..];
    }
  }

  lemma TimedOutInv<R>(c: Client<R>, id: nat)
    requires Inv(c) && id in c.timed && id in c.submitted
    ensures Inv(TimedOut(c, id))
  {
    EraseFrom(c.waiting, id);
    FiredSnoc(c.log, Fired(id, Timeout, None));
    var n := TimedOut(c, id);
    forall x ensures Accounted(n, x) {
      assert Accounted(c, x);
      assert Accounted(c, id);
    }
  }

  /** Every step keeps the invariant. */
  lemma NextInv<R>(c: Client<R>, e: Event<R>)
    requires Inv(c) && Enabled(c, e)
    ensures Inv(Next(c, e))
  {
    match e
    case SubmitEvent(id, timed, head) => SubmitInv(c, id, timed, head);
    case ResolvedEvent(valid) => ResolvedInv(c, valid);
    case ConnectedEvent => ConnectedInv(c);
    case ResponseEvent(resp, close) => HandleResponseInv(c, resp, close);
    case ShutdownEvent => ElsewhereCore(c, Closing, c.dns);
    case ClosedEvent(resp) => ClosedInv(c, resp);
    case ErrorEvent(result) => OnErrorInv(c, result);
    case TimeoutEvent(id) => TimedOutInv(c, id);
  }

  /** In every state of every run each submitted request is exactly one of completed, waiting and in flight, and no
      user callback ever runs twice. */
  lemma {:induction false} RunAccounts<R>(states: seq<Client<R>>, events: seq<Event<R>>, k: nat)
    requires IsRun(states, events) && k < |states|
    requires exists b, a, d :: states[0] == Initial<R>(b, a, d)
    ensures Inv(states[k])
    decreases k
  {
    if k > 0 {
      RunAccounts(states, events, k - 1);
      NextInv(states[k - 1], events[k - 1]);
    }
  }

  // ----- which request a response belongs to -----

  /** The k-th response on the connection was handed to the k-th request sent on it. */
  predicate Paired<R>(c: Client<R>) {
    c.responses <= c.sent
  }

  /** The two events that hand a response to a request. */
  predicate Hands<R>(e: Event<R>) { e.ResponseEvent? || e.ClosedEvent? }

  /** A response is handed to the first request sent on the connection that has not left the queue. */
  lemma HandedToNext<R>(c: Client<R>, e: Event<R>)
    requires Inv(c) && Enabled(c, e) && Hands(e)
    ensures |c.responses| <= |c.retired| < |c.sent| && c.sent <= Next(c, e).sent
    ensures Next(c, e).responses == c.responses + [c.sent[|c.retired|]]
  {
    hide Inv;
    InvCore(c);
    SentSplits(c);
    match e
    case ResponseEvent(resp, close) => HandleResponseKeeps(c, resp, close);
    case ClosedEvent(resp) =>
      ElsewhereCore(c, Absent, c.dns);
      HandleResponseKeeps(c.(tcp := Absent), resp, false);
  }

  lemma InvCore<R>(c: Client<R>)
    ensures Inv(c) ==> Core(c)
  {
  }

  lemma DistinctSent<R>(c: Client<R>, i: nat, j: nat)
    requires Inv(c) && i < j < |c.sent|
    ensures c.sent[i] != c.sent[j]
  {
  }

  lemma SentSplits<R>(c: Client<R>)
    ensures Inv(c) && c.inflight != [] ==>
              |c.responses| <= |c.retired| < |c.sent| && c.sent[|c.retired|] == c.inflight[0]
  {
  }

  lemma HandleResponseKeeps<R>(c: Client<R>, resp: R, close: bool)
    requires Core(c) && c.inflight != []
    ensures var n := HandleResponse(c, resp, close);
            n.responses == c.responses + [c.inflight[0]] && c.sent <= n.sent
  {
    hide Core;
    AnsweredCore(c, resp);
    if !c.tcp.Up? {
      FlushInflightCore(Answered(c, resp), NetworkFailure);
    }
  }

  /** On this connection nothing was failed behind a response. */
  predicate Clean<R>(c: Client<R>) {
    c.Open() ==> c.responses == c.retired
  }

  /** The one step after which the pairing is lost: a response that arrives after we shut the connection down,
      with other requests still in flight. */
  predicate Drops<R>(c: Client<R>, e: Event<R>) {
    e.ResponseEvent? && c.tcp.Closing? && |c.inflight| > 1
  }

  lemma NextClean<R>(c: Client<R>, e: Event<R>)
    requires Inv(c) && Clean(c) && Enabled(c, e) && !Drops(c, e)
    ensures Clean(Next(c, e)) && (Next(c, e).Open() ==> Paired(Next(c, e)))
  {
    NextInv(c, e);
    var n := Next(c, e);
    match e {
      case ConnectedEvent =>
        SendMoreKeeps(c.(tcp := Up, sent := [], retired := [], responses := []));
      case ResponseEvent(resp, close) =>
        assert Answered(c, resp).retired == Answered(c, resp).responses;
        if c.tcp.Closing? {
          assert Answered(c, resp).inflight == [];
        }
      case ResolvedEvent(valid) =>
        FlushWaitingTcp(c.(dns := false, addressValid := valid), BadServerAddress);
      case ClosedEvent(resp) =>
        FlushInflightTcp(Answered(c.(tcp := Absent), resp), NetworkFailure);
      case _ =>
    }
    if n.Open() {
      assert n.sent == n.retired + n.inflight;
    }
  }

  lemma {:induction false} FlushInflightTcp<R>(c: Client<R>, result: ReqResult)
    ensures FlushInflight(c, result).tcp == c.tcp
    decreases |c.inflight|
  {
    if c.inflight != [] {
      var id := c.inflight[0];
      FlushInflightTcp(Fire(c.(inflight := c.inflight[1..], retired := c.retired + [id]), id, result, None), result);
    }
  }

  lemma {:induction false} FlushWaitingTcp<R>(c: Client<R>, result: ReqResult)
    ensures FlushWaiting(c, result).tcp == c.tcp
    decreases |c.waiting|
  {
    if c.waiting != [] {
      FlushWaitingTcp(Fire(c.(waiting := c.waiting[1..]), c.waiting[0], result, None), result);
    }
  }

  lemma {:induction false} SendMoreKeeps<R>(c: Client<R>)
    ensures SendMore(c).retired == c.retired && SendMore(c).responses == c.responses && SendMore(c).tcp == c.tcp
    decreases |c.waiting|
  {
    if |c.inflight| <= c.depth && c.waiting != [] {
      SendMoreKeeps(SendFront(c));
    }
  }

  /** That step happened, and no new connection was made since. */
  ghost predicate DroppedSince<R>(states: seq<Client<R>>, events: seq<Event<R>>, k: nat)
    requires |states| == |events| + 1 && k <= |events|
  {
    exists j | 0 <= j < k :: Drops(states[j], events[j]) && NoConnection(events, j + 1, k)
  }

  predicate NoConnection<R>(events: seq<Event<R>>, from: nat, to: nat)
    requires to <= |events|
  {
    forall i | from <= i < to :: !events[i].ConnectedEvent?
  }

  lemma DroppedNext<R>(states: seq<Client<R>>, events: seq<Event<R>>, k: nat)
    requires |states| == |events| + 1 && k < |events|
    ensures DroppedSince(states, events, k + 1) <==>
            !events[k].ConnectedEvent? && (DroppedSince(states, events, k) || Drops(states[k], events[k]))
  {
    if DroppedSince(states, events, k + 1) {
      var j :| 0 <= j < k + 1 && Drops(states[j], events[j]) && NoConnection(events, j + 1, k + 1);
      assert NoConnection(events, j + 1, k);
    }
    if !events[k].ConnectedEvent? && DroppedSince(states, events, k) {
      var j :| 0 <= j < k && Drops(states[j], events[j]) && NoConnection(events, j + 1, k);
      assert NoConnection(events, j + 1, k + 1);
    }
    if Drops(states[k], events[k]) {
      assert NoConnection(events, k + 1, k + 1);
    }
  }

  /** After that step an open connection is one we shut down, with requests that left the queue without a response;
      otherwise every request that left the queue had one. */
  predicate Balanced<R>(c: Client<R>, dropped: bool) {
    c.Open() ==> if dropped then c.tcp.Closing? && |c.responses| < |c.retired| else c.responses == c.retired
  }

  lemma NextBalanced<R>(c: Client<R>, e: Event<R>, dropped: bool)
    requires Inv(c) && Enabled(c, e) && Balanced(c, dropped)
    ensures Balanced(Next(c, e), !e.ConnectedEvent? && (dropped || Drops(c, e)))
  {
    hide Inv;
    if e.ConnectedEvent? || !(dropped || Drops(c, e)) {
      NextClean(c, e);
    } else if c.Open() {
      DropStays(c, e);
    } else {
      ShutStays(c, e);
    }
  }

  lemma DropStays<R>(c: Client<R>, e: Event<R>)
    requires Inv(c) && Enabled(c, e) && c.tcp.Closing?
    requires |c.responses| < |c.retired| || (c.responses == c.retired && Drops(c, e))
    ensures Balanced(Next(c, e), true)
  {
    hide Core;
    InvCore(c);
    match e
    case ResponseEvent(resp, _) =>
      AnsweredCore(c, resp);
      FlushInflightCore(Answered(c, resp), NetworkFailure);
      AllRetired(FlushInflight(Answered(c, resp), NetworkFailure));
      SentSplits(c);
      AllSent(c);
    case ClosedEvent(resp) => FlushInflightTcp(Answered(c.(tcp := Absent), resp), NetworkFailure);
    case ResolvedEvent(valid) => FlushWaitingTcp(c.(dns := false, addressValid := valid), BadServerAddress);
    case _ =>
  }

  lemma AllRetired<R>(c: Client<R>)
    ensures Core(c) && c.inflight == [] ==> c.retired == c.sent
  {
  }

  lemma AllSent<R>(c: Client<R>)
    ensures Core(c) ==> |c.sent| == |c.retired| + |c.inflight|
  {
  }

  /** A connection that is not open becomes so only by being made. */
  lemma ShutStays<R>(c: Client<R>, e: Event<R>)
    requires Inv(c) && Enabled(c, e) && !c.Open() && !e.ConnectedEvent?
    ensures !Next(c, e).Open()
  {
    match e
    case ResolvedEvent(valid) => FlushWaitingTcp(c.(dns := false, addressValid := valid), BadServerAddress);
    case _ =>
  }

  lemma {:induction false} RunBalanced<R>(states: seq<Client<R>>, events: seq<Event<R>>, k: nat)
    requires IsRun(states, events) && k < |states|
    requires exists b, a, d :: states[0] == Initial<R>(b, a, d)
    ensures Balanced(states[k], DroppedSince(states, events, k))
    decreases k
  {
    hide Inv, Next, Enabled, Drops;
    if k > 0 {
      RunBalanced(states, events, k - 1);
      RunAccounts(states, events, k - 1);
      NextBalanced(states[k - 1], events[k - 1], DroppedSince(states, events, k - 1));
      DroppedNext(states, events, k - 1);
    }
  }

  /** In every run, a response is handed out so that the k-th response on the connection still belongs to the k-th
      request sent on it, if and only if, since the connection was made, no response arrived after we had shut it
      down with other requests in flight. Requests that timed out while in flight make no difference. */
  lemma PairedUnlessDropped<R>(states: seq<Client<R>>, events: seq<Event<R>>, k: nat)
    requires IsRun(states, events) && k < |events| && Hands(events[k])
    requires exists b, a, d :: states[0] == Initial<R>(b, a, d)
    ensures Paired(states[k + 1]) <==> !DroppedSince(states, events, k)
  {
    hide Inv, Next, Drops;
    RunAccounts(states, events, k);
    RunBalanced(states, events, k);
    var c, n := states[k], states[k + 1];
    HandedToNext(c, events[k]);
    if DroppedSince(states, events, k) {
      DistinctSent(c, |c.responses|, |c.retired|);
      assert n.responses[|c.responses|] == c.sent[|c.retired|] && n.sent[|c.responses|] == c.sent[|c.responses|];
    } else {
      RetiredFirst(c);
      assert n.responses == c.sent[..|c.responses| + 1] == n.sent[..|c.responses| + 1];
    }
  }

  lemma RetiredFirst<R>(c: Client<R>)
    ensures Inv(c) ==> c.retired <= c.sent
  {
  }

  /** The same for every state of a run with the connection open. */
  lemma RunPairs<R>(states: seq<Client<R>>, events: seq<Event<R>>, k: nat)
    requires IsRun(states, events) && k < |states|
    requires exists b, a, d :: states[0] == Initial<R>(b, a, d)
    ensures states[k].Open() && !DroppedSince(states, events, k) ==> Paired(states[k])
  {
    hide Inv, Next, Enabled, Drops;
    RunAccounts(states, events, k);
    RunBalanced(states, events, k);
    RetiredFirst(states[k]);
  }

  /** A run in which the pairing is lost: two requests in flight, the response to the first (a HEAD request,
      without content length) needs the connection shut down, a third request is sent on it and is handed the
      second response. */
  lemma DroppedPairingExample() returns (states: seq<Client<nat>>, events: seq<Event<nat>>)
    ensures IsRun(states, events) && states[0] == Initial<nat>(false, true, 1) && |events| == 7
    ensures events[6] == ResponseEvent(102, false) && states[7].sent == [1, 2, 3] && states[7].responses == [1, 3]
    ensures !Paired(states[7])
  {
    hide IsRun, HandleResponse, Submit, Connected;
    var c0 := Initial<nat>(false, true, 1);
    states, events := [c0], [];
    Starts(c0);
    var c1 := c0.(submitted := [1], heads := {1}, waiting := [1], tcp := Connecting);
    FirstTwo(c0, c1);
    states, events := Extended(states, events, SubmitEvent(1, false, true), c1);
    var c2 := c1.(submitted := [1, 2], waiting := [1, 2]);
    states, events := Extended(states, events, SubmitEvent(2, false, false), c2);
    var c3 := c2.(tcp := Up, waiting := [], inflight := [1, 2], sent := [1, 2]);
    SendsBoth(c2);
    states, events := Extended(states, events, ConnectedEvent, c3);
    var c4 := c3.(tcp := Closing);
    states, events := Extended(states, events, ShutdownEvent, c4);
    var c5 := c4.(inflight := [], retired := [1, 2], responses := [1],
                  log := [Fired(1, Ok, Some(101)), Fired(2, NetworkFailure, None)]);
    FailsSecond(c4);
    states, events := Extended(states, events, ResponseEvent(101, false), c5);
    var c6 := c5.(submitted := [1, 2, 3], inflight := [3], sent := [1, 2, 3]);
    var c7 := c6.(inflight := [], retired := [1, 2, 3], responses := [1, 3], log := c5.log + [Fired(3, Ok, Some(102))]);
    ThirdIsHanded(c5, c6, c7);
    states, events := Extended(states, events, SubmitEvent(3, false, false), c6);
    states, events := Extended(states, events, ResponseEvent(102, false), c7);
    assert c7.responses[1] != c7.sent[1];
  }

  lemma Starts<R>(c: Client<R>)
    ensures IsRun([c], [])
  {
  }

  /** A run with one more event. */
  lemma Extended<R>(states: seq<Client<R>>, events: seq<Event<R>>, e: Event<R>, next: Client<R>)
    returns (more: seq<Client<R>>, all: seq<Event<R>>)
    requires IsRun(states, events) && Enabled(states[|events|], e) && next == Next(states[|events|], e)
    ensures more == states + [next] && all == events + [e] && IsRun(more, all)
  {
    more, all := states + [next], events + [e];
  }

  lemma FirstTwo(c0: Client<nat>, c1: Client<nat>)
    requires c0 == Initial<nat>(false, true, 1)
    requires c1 == c0.(submitted := [1], heads := {1}, waiting := [1], tcp := Connecting)
    ensures Submit(c0, 1, false, true) == c1
    ensures Submit(c1, 2, false, false) == c1.(submitted := [1, 2], waiting := [1, 2])
  {
    assert {} + {1} == {1};
    assert [] + [1] == [1] && [1] + [2] == [1, 2];
  }

  lemma SendsBoth(c: Client<nat>)
    requires c.waiting == [1, 2] && c.inflight == [] && c.depth == 1
    requires c.sent == [] && c.retired == [] && c.responses == []
    ensures Connected(c) == c.(tcp := Up, waiting := [], inflight := [1, 2], sent := [1, 2])
  {
    var l := c.(tcp := Up, sent := [], retired := [], responses := []);
    var m := SendFront(l);
    assert m.waiting == [2] && m.inflight == [1] && m.sent == [1];
    var n := SendFront(m);
    assert n.waiting == [] && n.inflight == [1, 2] && n.sent == [1, 2];
    assert SendMore(l) == SendMore(m);
    assert SendMore(m) == SendMore(n);
    assert SendMore(n) == n;
  }

  lemma ThirdIsHanded(c5: Client<nat>, c6: Client<nat>, c7: Client<nat>)
    requires c5.tcp.Closing? && c5.depth == 1 && c5.inflight == [] && c5.waiting == [] && c5.timed == {}
    requires c5.submitted == [1, 2] && c5.sent == [1, 2] && c5.retired == [1, 2] && c5.responses == [1]
    requires c6 == c5.(submitted := [1, 2, 3], inflight := [3], sent := [1, 2, 3])
    requires c7 == c6.(inflight := [], retired := [1, 2, 3], responses := [1, 3],
                       log := c5.log + [Fired(3, Ok, Some(102))])
    ensures Submit(c5, 3, false, false) == c6 && HandleResponse(c6, 102, false) == c7
  {
    assert [1, 2] + [3] == [1, 2, 3] && [] + [3] == [3] && [1] + [3] == [1, 3];
    assert [3][1..] == [];
  }

  lemma FailsSecond(c: Client<nat>)
    requires c.inflight == [1, 2] && c.tcp.Closing? && c.retired == [] && c.responses == []
    requires c.timed == {} && c.log == []
    ensures HandleResponse(c, 101, false) ==
            c.(inflight := [], retired := [1, 2], responses := [1],
               log := [Fired(1, Ok, Some(101)), Fired(2, NetworkFailure, None)])
  {
    var a := Answered(c, 101);
    assert a.inflight == [2];
    var f := Fire(a.(inflight := a.inflight[1..], retired := a.retired + [2]), 2, NetworkFailure, None);
    assert f.inflight == [];
    assert FlushInflight(f, NetworkFailure) == f;
  }

  // ----- every callback runs in the end -----

  /** After a failure of the connection no request is left: every callback has run. */
  lemma ErrorCompletes<R>(c: Client<R>, result: ReqResult, id: nat)
    requires Inv(c) && !c.dns && id in c.submitted
    ensures HasFired(OnError(c, result).log, id)
  {
    OnErrorInv(c, result);
    FlushInflightCore(c, result);
    FlushWaitingCore(FlushInflight(c, result), result);
    assert Accounted(OnError(c, result), id);
  }

  /** A response reaches its request's callback unless that one already reported a timeout. */
  lemma ResponseDelivered<R>(c: Client<R>, resp: R, close: bool)
    requires Inv(c) && c.inflight != [] && !HasFired(c.log, c.inflight[0])
    ensures c.log + [Fired(c.inflight[0], Ok, Some(resp))] <= HandleResponse(c, resp, close).log
  {
    hide Core;
    AnsweredCore(c, resp);
    FlushInflightCore(Answered(c, resp), NetworkFailure);
  }
}
