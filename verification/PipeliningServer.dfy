/** HttpServer's handling of one connection as the methods it is made of.

    The batch loop of onRequests with its handlers, handleResponse, the queued task and the pipelining queue, each
    proved to do the steps of the state machine in Pipelining. */
module PipeliningServer {
  import opened Bytes
  import opened ByteQueue
  import opened Writer
  import opened Pipelining
  import opened Batching

  class HttpServerConnection {
    const conn: TcpConnection
    const sendBuffer: MsgBuffer
    const keepaliveRequests: nat
    const pipeliningRequests: nat
    var stopWorking: bool
    var requestsCounter: nat
    var requestPipelining: seq<Entry>
    var responseBuffer: seq<Given>
    var isHead: seq<bool>           // the HEAD flag kept in each request's CallbackParamPack
    var responseSent: set<nat>      // the requests whose CallbackParamPack has responseSent_ set
    var loopFlags: set<nat>         // the requests whose *loopFlagPtr is true
    var respReady: bool             // of the request being handled
    var queuedInLoop: seq<Task>
    ghost var phase: Phase
    ghost var rejected: set<nat>
    ghost var released: seq<Given>
    ghost var sent: seq<Given>
    ghost var first: map<nat, Response>

    ghost function Abs(): Server
      reads this, conn
    {
      Server(conn.connected, stopWorking, keepaliveRequests, pipeliningRequests, requestsCounter, isHead,
             requestPipelining, responseBuffer, phase, loopFlags, responseSent, rejected, queuedInLoop, Wire(conn.log),
             released, sent, first)
    }

    ghost predicate Valid()
      reads this, conn, sendBuffer
    {
      Inv(Abs()) && sendBuffer.data == "" && (phase.Handling? ==> phase.respReady == respReady)
    }

    constructor (keepalive: nat, limit: nat)
      ensures Valid() && Abs() == Start(keepalive, limit) && fresh(conn) && fresh(sendBuffer)
    {
      conn := new TcpConnection();
      sendBuffer := new MsgBuffer();
      keepaliveRequests, pipeliningRequests := keepalive, limit;
      stopWorking, requestsCounter, requestPipelining, responseBuffer := false, 0, [], [];
      isHead, responseSent, loopFlags, respReady, queuedInLoop := [], {}, {}, false, [];
      phase, rejected, released, sent, first := Idle, {}, [], [], map[];
      new;
      StartInv(keepalive, limit);
    }

    // ----- HttpRequestParser's queue -----

    method PushRequestToPipelining(id: nat, head: bool)
      modifies this`requestPipelining
      ensures requestPipelining == old(requestPipelining) + [Entry(id, head, None)]
    {
      requestPipelining := requestPipelining + [Entry(id, head, None)];
    }

    method PushResponseToPipelining(id: nat, resp: Response) returns (isFirst: bool)
      requires Index(requestPipelining, id) < |requestPipelining|
      modifies this`requestPipelining
      ensures requestPipelining == Answered(old(requestPipelining), id, resp)
      ensures isFirst == (Index(old(requestPipelining), id) == 0)
    {
      for i := 0 to |requestPipelining|
        invariant requestPipelining == old(requestPipelining)
        invariant i <= Index(requestPipelining, id)
      {
        IndexFrom(requestPipelining, id, i);
        if requestPipelining[i].id == id {
          requestPipelining := requestPipelining[i := requestPipelining[i].(answer := Some(resp))];
          return i == 0;
        }
      }
      assert false;
    }

    method PopReadyResponses(buffer: seq<Given>) returns (more: seq<Given>)
      modifies this`requestPipelining
      ensures var q := old(requestPipelining);
              more == buffer + Taken(q, ReadyCount(q)) && requestPipelining == q[ReadyCount(q)..]
    {
      more := buffer;
      ghost var k := 0;
      while requestPipelining != [] && requestPipelining[0].answer.Some?
        invariant k <= ReadyCount(old(requestPipelining))
        invariant requestPipelining == old(requestPipelining)[k..]
        invariant more == buffer + Taken(old(requestPipelining), k)
        decreases |requestPipelining|
      {
        var front := requestPipelining[0];
        assert k < ReadyCount(old(requestPipelining));
        assert Taken(old(requestPipelining), k + 1) ==
               Taken(old(requestPipelining), k) + [Given(front.id, Reply(front.answer.value, front.head))];
        more := more + [Given(front.id, Reply(front.answer.value, front.head))];
        requestPipelining := requestPipelining[1..];
        k := k + 1;
      }
    }

    // ----- sending -----

    method Write(given: seq<Given>)
      requires conn.connected && sendBuffer.data == ""
      modifies conn, sendBuffer, this`sent
      ensures Abs() == Send(old(Abs()), given) && sendBuffer.data == ""
    {
      hide Batch, AnyCloses, Wire;
      SendResponses(conn, Replies(given), sendBuffer);
      sent := sent + given;
    }

    // ----- handleResponse -----

    method HandleResponse(id: nat, resp: Response, isInLoopThread: bool)
      requires Valid() && Enabled(Abs(), if isInLoopThread then HereEvent(id, resp) else ElsewhereEvent(id, resp))
      modifies this, conn, sendBuffer
      ensures Valid()
      ensures Abs() == if isInLoopThread then CompleteHere(old(Abs()), id, resp)
                       else CompleteElsewhere(old(Abs()), id, resp)
    {
      hide Inv, AnyCloses, Deliver, Batch;
      if !conn.connected {
        return;
      }
      if id in responseSent {
        return;
      }
      if isInLoopThread {
        HereInv(Abs(), id, resp);
        OnLoop(id, resp);
      } else {
        ElsewhereInv(Abs(), id, resp);
        responseSent, first := responseSent + {id}, first[id := resp];
        queuedInLoop := queuedInLoop + [Task(id, resp)];
      }
    }

    method OnLoop(id: nat, resp: Response)
      requires Valid() && Enabled(Abs(), HereEvent(id, resp)) && conn.connected && id !in responseSent
      modifies this, conn, sendBuffer
      ensures Abs() == CompleteHere(old(Abs()), id, resp)
      ensures sendBuffer.data == "" && (phase.Handling? ==> phase.respReady == respReady)
    {
      hide Inv, Direct, ThroughQueue;
      FirstResponse(Abs(), id, resp);
      if requestPipelining != [] {
        FoundInQueue(Abs(), id);
      }
      responseSent, first := responseSent + {id}, first[id := resp];
      if requestPipelining == [] {
        assert id in loopFlags;
        SynchronousResponse(id, resp);
      } else {
        LaterResponse(id, resp);
      }
    }

    /** The response to the request being handled, with no request before it. */
    method SynchronousResponse(id: nat, resp: Response)
      requires id < |isHead| && phase.Handling?
      modifies this
      ensures Abs() == Direct(old(Abs()), id, resp) && phase.Handling? && phase.respReady == respReady
    {
      hide Wire;
      respReady, phase := true, phase.(respReady := true);
      Directly(id, resp);
    }

    method LaterResponse(id: nat, resp: Response)
      requires conn.connected && sendBuffer.data == "" && Index(requestPipelining, id) < |requestPipelining|
      modifies this`requestPipelining, this`responseBuffer, this`released, this`sent, conn, sendBuffer
      ensures Abs() == ThroughQueue(old(Abs()), id, resp) && sendBuffer.data == ""
    {
      hide Wire, Send, Deliver, Index;
      var isFirst;
      isFirst, responseBuffer := Settle(id, resp, responseBuffer);
      if isFirst && id !in loopFlags {
        Write(responseBuffer);
        responseBuffer := [];
      }
    }

    /** pushResponseToPipelining and, behind a first response, popReadyResponses into `buffer`. */
    method Settle(id: nat, resp: Response, buffer: seq<Given>) returns (isFirst: bool, more: seq<Given>)
      requires Index(requestPipelining, id) < |requestPipelining|
      modifies this`requestPipelining, this`released
      ensures var d := Deliver(old(requestPipelining), id, resp);
              isFirst == d.first && more == buffer + d.popped && released == old(released) + d.popped &&
              requestPipelining == d.queue
    {
      hide Answered, Index;
      isFirst := PushResponseToPipelining(id, resp);
      more := buffer;
      if isFirst {
        ghost var q := requestPipelining;
        more := PopReadyResponses(buffer);
        released := released + Taken(q, ReadyCount(q));
      }
    }

    /** The lambda handleResponse queues in the loop. */
    method RunQueued(k: nat)
      requires Valid() && Enabled(Abs(), TaskEvent(k))
      modifies this, conn, sendBuffer
      ensures Valid() && Abs() == RunTask(old(Abs()), k)
    {
      hide Inv, AnyCloses, Batch, Deliver;
      TaskInv(Abs(), k);
      ghost var s := Abs();
      var task := queuedInLoop[k];
      queuedInLoop := queuedInLoop[..k] + queuedInLoop[k + 1..];
      if !conn.connected {
        return;
      }
      TaskFindsRequest(s, k);
      FoundInQueue(s, task.id);
      var isFirst, responses := Settle(task.id, task.resp, []);
      ghost var d := Deliver(s.queue, task.id, task.resp);
      assert responses == d.popped;
      if isFirst {
        Write(responses);
      } else {
        NotFirst(s.queue, task.id, task.resp);
        NothingSent(Abs());
      }
    }

    // ----- onRequests -----

    /** One completion or a break of the connection, while a handler runs. */
    method Act(e: Event)
      requires Valid() && Enabled(Abs(), e) && Acts([e])
      modifies this, conn, sendBuffer
      ensures Valid() && Abs() == Next(old(Abs()), e)
      ensures old(phase.Handling?) ==> SameHandler(old(phase), phase)
    {
      hide Inv;
      ghost var s := Abs();
      assert [e][0] == e;
      match e {
        case HereEvent(id, resp) => HandleResponse(id, resp, true);
        case ElsewhereEvent(id, resp) => HandleResponse(id, resp, false);
        case BreakEvent =>
          BreakInv(Abs());
          conn.connected := false;
      }
      if s.phase.Handling? { ActKeepsPhase(s, e); }
    }

    /** onHttpRequest runs the handler. */
    method RunHandler(acts: seq<Event>, ghost rest: seq<Event>)
      requires Valid() && Acts(acts) && Possible(Abs(), acts + rest) && phase.Handling?
      modifies this, conn, sendBuffer
      ensures SameHandler(old(phase), phase)
      ensures Valid() && Possible(Abs(), rest) && After(Abs(), rest) == After(old(Abs()), acts + rest)
    {
      hide Inv, Enabled, Next;
      assert acts[0..] + rest == acts + rest;
      for i := 0 to |acts|
        invariant Valid() && Possible(Abs(), acts[i..] + rest) && SameHandler(old(phase), phase)
        invariant After(Abs(), acts[i..] + rest) == After(old(Abs()), acts + rest)
      {
        assert acts[i..] + rest == [acts[i]] + (acts[i + 1..] + rest);
        AfterOne(Abs(), acts[i], acts[i + 1..] + rest);
        Act(acts[i]);
      }
      assert acts[|acts|..] + rest == rest;
    }

    /** passSyncAdvices: true when no advice rejects the request. */
    method PassSyncAdvices(reject: Option<Response>, shouldBePipelined: bool, ghost rest: seq<bool>)
      returns (passed: bool)
      requires isHead != []
      requires shouldBePipelined ==> Index(requestPipelining, |isHead| - 1) < |requestPipelining|
      modifies this`requestPipelining, this`responseBuffer, this`rejected, this`first, this`released, this`phase,
               this`loopFlags, this`respReady
      ensures Abs() == Judge(old(Abs()), rest, shouldBePipelined, reject)
      ensures passed == phase.Handling? == reject.None? && (passed ==> !respReady)
    {
      hide Wire, Answered, Index;
      if reject.None? {
        respReady, loopFlags, phase := false, loopFlags + {|isHead| - 1}, Handling(rest, shouldBePipelined, false);
        return true;
      }
      Reject(reject.value, shouldBePipelined, rest);
      passed := false;
    }

    method Reject(resp: Response, shouldBePipelined: bool, ghost rest: seq<bool>)
      requires isHead != []
      requires shouldBePipelined ==> Index(requestPipelining, |isHead| - 1) < |requestPipelining|
      modifies this`requestPipelining, this`responseBuffer, this`rejected, this`first, this`released, this`phase
      ensures Abs() == Judge(old(Abs()), rest, shouldBePipelined, Some(resp)) && phase == Between(rest)
    {
      hide Wire, Answered, Index;
      var id := |isHead| - 1;
      rejected, first, phase := rejected + {id}, first[id := resp], Between(rest);
      if !shouldBePipelined {
        Directly(id, resp);
      } else {
        var _ := PushResponseToPipelining(id, resp);
      }
    }

    /** A response with no request before it goes straight to the response buffer. */
    method Directly(id: nat, resp: Response)
      requires id < |isHead|
      modifies this`responseBuffer, this`released
      ensures responseBuffer == old(responseBuffer) + [Given(id, Reply(resp, isHead[id]))]
      ensures released == old(released) + [Given(id, Reply(resp, isHead[id]))]
    {
      responseBuffer := responseBuffer + [Given(id, Reply(resp, isHead[id]))];
      released := released + [Given(id, Reply(resp, isHead[id]))];
    }

    /** The request gets its number and, behind others, its place in the queue. */
    method PipelineRequest(head: bool) returns (reqPipelined: bool)
      modifies this`isHead, this`requestPipelining
      ensures reqPipelined == (old(requestPipelining) != []) && Abs() == Enter(old(Abs()), head)
    {
      hide Wire;
      var id := |isHead|;
      isHead := isHead + [head];
      reqPipelined := false;
      if requestPipelining != [] {
        PushRequestToPipelining(id, head);
        reqPipelined := true;
      }
    }

    /** The loop body up to the call of the handler. */
    method BeginRequest(head: bool, reject: Option<Response>) returns (reqPipelined: bool)
      requires Valid() && Enabled(Abs(), TakeEvent(reject)) && head == phase.remaining[0]
      modifies this
      ensures Abs() == Take(old(Abs()), reject) && (phase.Handling? ==> phase.respReady == respReady)
      ensures reject.None? ==> phase.Handling? && phase.pipelined == reqPipelined && !respReady
    {
      hide Inv, Answered, Wire, Index;
      NewInQueue(Abs(), head);
      ghost var rest := phase.remaining[1..];
      reqPipelined := PipelineRequest(head);
      var passed := PassSyncAdvices(reject, reqPipelined, rest);
    }

    /** The loop body behind the handler. */
    method EndRequest(reqPipelined: bool)
      requires Valid() && Enabled(Abs(), ReturnEvent) && phase.pipelined == reqPipelined
      modifies this`requestPipelining, this`phase
      ensures Valid() && Abs() == Return(old(Abs()))
    {
      hide Inv, Wire;
      ReturnInv(Abs());
      if !reqPipelined && !respReady {
        PushRequestToPipelining(|isHead| - 1, isHead[|isHead| - 1]);
      }
      phase := Between(phase.remaining);
    }

    /** One request of the batch. */
    method OneRequest(head: bool, v: Verdict, ghost rest: seq<Event>)
      requires Valid() && Possible(Abs(), Turn(v) + rest) && phase.Between? && phase.remaining != []
      requires head == phase.remaining[0] && (v.Handled? ==> Acts(v.acts))
      modifies this, conn, sendBuffer
      ensures Valid() && Possible(Abs(), rest) && After(Abs(), rest) == After(old(Abs()), Turn(v) + rest)
      ensures phase == Between(old(phase.remaining)[1..])
    {
      hide Inv, Next, Possible, After, Acts;
      ghost var left := phase.remaining[1..];
      TurnSplit(v, rest);
      match v {
        case Rejected(resp) =>
          AfterOne(Abs(), TakeEvent(Some(resp)), rest);
          TakeIs(Abs(), Some(resp));
          NextInv(Abs(), TakeEvent(Some(resp)));
          var _ := BeginRequest(head, Some(resp));
        case Handled(acts) =>
          AfterOne(Abs(), TakeEvent(None), acts + ([ReturnEvent] + rest));
          TakeIs(Abs(), None);
          NextInv(Abs(), TakeEvent(None));
          var reqPipelined := BeginRequest(head, None);
          RunHandler(acts, [ReturnEvent] + rest);
          AfterOne(Abs(), ReturnEvent, rest);
          ReturnIs(Abs());
          EndRequest(reqPipelined);
      }
    }

    /** onRequests, for a batch whose requests fare as `script` says. */
    method OnRequests(heads: seq<bool>, script: seq<Verdict>)
      requires Valid() && heads != [] && |script| == |heads|
      requires forall i | 0 <= i < |script| && script[i].Handled? :: Acts(script[i].acts)
      requires Possible(Abs(), BatchEvents(Abs(), heads, script))
      modifies this, conn, sendBuffer
      ensures Valid() && Abs() == After(old(Abs()), BatchEvents(old(Abs()), heads, script))
      ensures isHead == old(isHead) + (if old(conn.connected) && Within(old(Abs()), heads) then heads else [])
      ensures stopWorking <==> !Within(old(Abs()), heads)
    {
      ghost var s := Abs();
      ArrivesOpen(s, heads, script);
      hide Inv, Possible, After, Wire, Acts;
      BatchIsCall(s, heads, script);
      BatchTaken(s, heads, script, BatchEvents(s, heads, script));
      ghost var turns := if Arrive(s, heads).phase.Idle? then [] else Turns(script) + [FinishEvent];
      AfterOne(s, ArriveEvent(heads), turns);
      ArriveInv(s, heads);
      AfterNone(Arrive(s, heads));
      requestsCounter := requestsCounter + |heads|;
      if keepaliveRequests > 0 && requestsCounter >= keepaliveRequests {
        stopWorking, conn.connected := true, false;
        return;
      }
      if pipeliningRequests > 0 && |requestPipelining| + |heads| >= pipeliningRequests {
        stopWorking, conn.connected := true, false;
        return;
      }
      if !conn.connected {
        return;
      }
      phase := Between(heads);
      RunBatch(heads, script);
    }

    method RunBatch(heads: seq<bool>, script: seq<Verdict>)
      requires Valid() && phase == Between(heads) && |script| == |heads|
      requires forall i | 0 <= i < |script| && script[i].Handled? :: Acts(script[i].acts)
      requires Possible(Abs(), Turns(script) + [FinishEvent])
      modifies this, conn, sendBuffer
      ensures Valid() && Abs() == After(old(Abs()), Turns(script) + [FinishEvent])
    {
      hide Inv, Possible, After, Wire, Acts, Finish, Turn;
      assert script[0..] == script && heads[0..] == heads;
      for i := 0 to |heads|
        invariant Valid() && phase == Between(heads[i..])
        invariant Possible(Abs(), Turns(script[i..]) + [FinishEvent])
        invariant After(Abs(), Turns(script[i..]) + [FinishEvent]) == After(old(Abs()), Turns(script) + [FinishEvent])
      {
        TurnsSplit(script, i);
        OneRequest(heads[i], script[i], Turns(script[i + 1..]) + [FinishEvent]);
      }
      assert script[|heads|..] == [] && Turns([]) == [];
      assert [] + [FinishEvent] == [FinishEvent] + [];
      AfterOne(Abs(), FinishEvent, []);
      EndBatch();
      AfterNone(Abs());
    }

    method EndBatch()
      requires Valid() && Enabled(Abs(), FinishEvent)
      modifies this, conn, sendBuffer
      ensures Valid() && Abs() == Finish(old(Abs()))
    {
      hide Inv, Wire, Send;
      FinishInv(Abs());
      loopFlags, phase := {}, Idle;
      if conn.connected && responseBuffer != [] {
        Write(responseBuffer);
        responseBuffer := [];
      }
    }
  }

  lemma TurnsSplit(script: seq<Verdict>, i: nat)
    requires i < |script|
    ensures Turns(script[i..]) + [FinishEvent] == Turn(script[i]) + (Turns(script[i + 1..]) + [FinishEvent])
  {
    hide Turn;
    assert script[i..][0] == script[i] && script[i..][1..] == script[i + 1..];
    assert Turn(script[i]) + Turns(script[i + 1..]) + [FinishEvent] ==
           Turn(script[i]) + (Turns(script[i + 1..]) + [FinishEvent]);
  }

  /** The request just pushed is found behind those before it. */
  lemma NewInQueue(s: Server, head: bool)
    requires Inv(s) && s.phase.Between?
    ensures Index(s.queue + [Entry(|s.dispatched|, head, None)], |s.dispatched|) == |s.queue|
  {
    hide OnTheWay, OnTheWire;
    var heads := s.dispatched + [head];
    CoreHeads(s.released, s.queue, s.dispatched, s.first, head);
    CoreAppend(s.released, s.queue, heads, s.first, Entry(|s.dispatched|, head, None));
    IndexIs(s.queue + [Entry(|s.dispatched|, head, None)], |s.released|, heads, |s.dispatched|);
  }

  lemma NotFirst(queue: seq<Entry>, id: nat, resp: Response)
    ensures queue != [] && !Deliver(queue, id, resp).first ==> Deliver(queue, id, resp).popped == []
  {
  }

  lemma {:induction false} IndexFrom(queue: seq<Entry>, id: nat, i: nat)
    requires i < |queue| && i <= Index(queue, id)
    ensures queue[i].id == id <==> i == Index(queue, id)
  {
    if i > 0 {
      IndexFrom(queue[1..], id, i - 1);
    }
  }

  lemma FoundInQueue(s: Server, id: nat)
    requires Inv(s) && |s.released| <= id < |s.released| + |s.queue|
    ensures Index(s.queue, id) == id - |s.released| < |s.queue|
  {
    hide OnTheWay, OnTheWire;
    IndexIs(s.queue, |s.released|, s.dispatched, id);
  }

  lemma NothingSent(s: Server)
    requires s.connected
    ensures Send(s, []) == s
  {
    assert Replies([]) == [];
    assert UpToClose([]) == [] && WrittenAll([], true) == [];
    assert s.wire + [] == s.wire && s.sent + [] == s.sent;
  }
}
