/** HttpClientImpl as an object: the two request queues, their counters and the timeout flags as fields.

    Each method does on the fields what the corresponding function of module Client does on its state, loops included,
    and says so: the abstract state afterwards is that function of the abstract state before. What the state machine
    guarantees over whole runs therefore holds of the object. */
module ClientObject {
  import opened Bytes
  import opened Client

  class HttpClientImpl<R> {
    const byName: bool
    const depth: nat
    var addressValid: bool
    var dns: bool
    var tcp: Tcp
    var pipeliningCallbacks: seq<nat>
    var requestsBuffer: seq<nat>
    var pipeliningCallbacksSize: nat
    var requestsBufferSize: nat
    var timed: set<nat>
    var timeoutFlags: set<nat>  // RequestCallbackParams::timeoutFlag of the timed requests
    var heads: set<nat>         // requests whose method is HEAD
    ghost var submitted: seq<nat>
    ghost var log: seq<Fired<R>>
    ghost var sent: seq<nat>
    ghost var retired: seq<nat>
    ghost var responses: seq<nat>

    ghost predicate Valid()
      reads this
    {
      && pipeliningCallbacksSize == |pipeliningCallbacks|
      && requestsBufferSize == |requestsBuffer|
      && forall id :: id in timed && HasFired(log, id) <==> id in timeoutFlags
    }

    ghost function Abs(): Client<R>
      reads this
    {
      Client(byName, addressValid, dns, tcp, depth, pipeliningCallbacks, requestsBuffer, timed, heads, submitted, log,
             sent, retired, responses)
    }

    constructor (byName: bool, addressValid: bool, depth: nat)
      ensures Valid() && Abs() == Initial<R>(byName, addressValid, depth)
    {
      this.byName, this.addressValid, this.depth := byName, addressValid, depth;
      dns, tcp, pipeliningCallbacks, requestsBuffer := false, Absent, [], [];
      pipeliningCallbacksSize, requestsBufferSize, timed, timeoutFlags := 0, 0, {}, {};
      heads, submitted, log, sent, retired, responses := {}, [], [], [], [], [];
    }

    /** outstandingRequests() counts both queues. */
    method OutstandingRequests() returns (n: nat)
      requires Valid()
      ensures n == |pipeliningCallbacks| + |requestsBuffer|
    {
      n := requestsBufferSize + pipeliningCallbacksSize;
    }

    method EnqueueRequest(id: nat)
      requires Valid()
      modifies this`requestsBuffer, this`requestsBufferSize
      ensures Valid() && Abs() == old(Abs()).(waiting := old(requestsBuffer) + [id])
    {
      requestsBuffer := requestsBuffer + [id];
      requestsBufferSize := requestsBufferSize + 1;
    }

    method PopFrontRequest()
      requires Valid()
      modifies this`requestsBuffer, this`requestsBufferSize
      ensures Valid()
      ensures Abs() == if old(requestsBuffer) == [] then old(Abs())
                       else old(Abs()).(waiting := old(requestsBuffer)[1..])
    {
      if requestsBuffer != [] {
        requestsBuffer := requestsBuffer[1..];
        requestsBufferSize := requestsBufferSize - 1;
      }
    }

    method EraseRequest(at: nat)
      requires at < |requestsBuffer| == requestsBufferSize
      modifies this`requestsBuffer, this`requestsBufferSize
      ensures requestsBufferSize == |requestsBuffer|
      ensures Abs() == old(Abs()).(waiting := old(requestsBuffer)[..at] + old(requestsBuffer)[at + 1..])
    {
      requestsBuffer := requestsBuffer[..at] + requestsBuffer[at + 1..];
      requestsBufferSize := requestsBufferSize - 1;
    }

    /** Runs the callback of `id`: directly, or behind its timeout flag. */
    method RunCallback(id: nat, result: ReqResult, ghost resp: Option<R>)
      requires Valid()
      modifies this`log, this`timeoutFlags
      ensures Valid() && Abs() == Fire(old(Abs()), id, result, resp)
    {
      FiredSnoc(log, Fired(id, result, resp));
      if id in timed {
        if id in timeoutFlags { return; }
        timeoutFlags := timeoutFlags + {id};
      }
      log := log + [Fired(id, result, resp)];
    }

    method PopInflight() returns (id: nat)
      requires Valid() && pipeliningCallbacks != []
      modifies this`pipeliningCallbacks, this`pipeliningCallbacksSize, this`retired
      ensures Valid() && id == old(pipeliningCallbacks)[0]
      ensures Abs() == old(Abs()).(inflight := old(pipeliningCallbacks)[1..], retired := old(retired) + [id])
    {
      id := pipeliningCallbacks[0];
      pipeliningCallbacks := pipeliningCallbacks[1..];
      pipeliningCallbacksSize := pipeliningCallbacksSize - 1;
      retired := retired + [id];
    }

    method PushInflight(id: nat)
      requires Valid()
      modifies this`pipeliningCallbacks, this`pipeliningCallbacksSize, this`sent
      ensures Valid()
      ensures Abs() == old(Abs()).(inflight := old(pipeliningCallbacks) + [id], sent := old(sent) + [id])
    {
      sent := sent + [id];
      pipeliningCallbacks := pipeliningCallbacks + [id];
      pipeliningCallbacksSize := pipeliningCallbacksSize + 1;
    }

    method FailInflight(result: ReqResult)
      requires Valid()
      modifies this`pipeliningCallbacks, this`pipeliningCallbacksSize, this`retired, this`log, this`timeoutFlags
      ensures Valid() && Abs() == FlushInflight(old(Abs()), result)
    {
      while pipeliningCallbacks != []
        invariant Valid() && FlushInflight(Abs(), result) == FlushInflight(old(Abs()), result)
        decreases |pipeliningCallbacks|
      {
        var id := PopInflight();
        RunCallback(id, result, None);
      }
    }

    method FailWaiting(result: ReqResult)
      requires Valid()
      modifies this`requestsBuffer, this`requestsBufferSize, this`log, this`timeoutFlags
      ensures Valid() && Abs() == FlushWaiting(old(Abs()), result)
    {
      while requestsBuffer != []
        invariant Valid() && FlushWaiting(Abs(), result) == FlushWaiting(old(Abs()), result)
        decreases |requestsBuffer|
      {
        var id := requestsBuffer[0];
        PopFrontRequest();
        RunCallback(id, result, None);
      }
    }

    method OnErrorReported(result: ReqResult)
      requires Valid()
      modifies this
      ensures Valid() && Abs() == OnError(old(Abs()), result)
    {
      FailInflight(result);
      FailWaiting(result);
      tcp := Absent;
    }

    method CreateTcpClient()
      requires Valid()
      modifies this`tcp
      ensures Valid() && Abs() == old(Abs()).(tcp := Connecting)
    {
      tcp := Connecting;
    }

    /** The connection callback with a new connection: as many waiting requests as the depth allows are sent. */
    method OnConnected()
      requires Valid()
      modifies this
      ensures Valid() && Abs() == Connected(old(Abs()))
    {
      tcp, sent, retired, responses := Up, [], [], [];
      ghost var goal := SendMore(Abs());
      while |pipeliningCallbacks| <= depth && requestsBuffer != []
        invariant Valid() && SendMore(Abs()) == goal
        decreases |requestsBuffer|
      {
        ghost var was := Abs();
        PushInflight(requestsBuffer[0]);
        PopFrontRequest();
        assert Abs() == SendFront(was);
      }
    }

    method SendRequestInLoop(id: nat, timeout: bool, head: bool)
      requires Valid() && !HasFired(log, id)
      modifies this
      ensures Valid() && Abs() == Submit(old(Abs()), id, timeout, head)
    {
      hide HasFired, Fire;
      Register(id, timeout, head);
      if tcp.Absent? {
        SendUnconnected(id);
        return;
      }
      if tcp.Connecting? {
        EnqueueRequest(id);
        return;
      }
      if |pipeliningCallbacks| <= depth && requestsBuffer == [] {
        PushInflight(id);
      } else {
        EnqueueRequest(id);
      }
    }

    method Register(id: nat, timeout: bool, head: bool)
      requires Valid() && !HasFired(log, id)
      modifies this`timed, this`submitted, this`heads
      ensures Valid()
      ensures var c := old(Abs());
              Abs() == c.(submitted := c.submitted + [id], timed := if timeout then c.timed + {id} else c.timed,
                          heads := if head then c.heads + {id} else c.heads)
    {
      if timeout {
        timed := timed + {id};
      }
      submitted := submitted + [id];
      heads := if head then heads + {id} else heads;
    }

    /** No connection: connect, resolve, or report that there is no address. */
    method SendUnconnected(id: nat)
      requires Valid() && tcp.Absent?
      modifies this
      ensures Valid()
      ensures var q := old(Abs()).(waiting := old(requestsBuffer) + [id]);
              Abs() == if !byName then
                         if old(addressValid) then q.(tcp := Connecting)
                         else Fire(q.(waiting := q.waiting[1..]), id, BadServerAddress, None)
                       else q.(dns := true)
    {
      hide HasFired, Fire;
      EnqueueRequest(id);
      if !byName {
        if addressValid {
          CreateTcpClient();
        } else {
          PopFrontRequest();
          RunCallback(id, BadServerAddress, None);
        }
        return;
      }
      if dns {
        return;
      }
      dns := true;
    }

    method OnResolved(valid: bool)
      requires Valid()
      modifies this
      ensures Valid() && Abs() == Resolved(old(Abs()), valid)
    {
      addressValid := valid;
      dns := false;
      if addressValid {
        CreateTcpClient();
        return;
      }
      FailWaiting(BadServerAddress);
    }

    method HandleResponseInLoop(ghost resp: R, close: bool)
      requires Valid() && pipeliningCallbacks != []
      modifies this
      ensures Valid() && Abs() == HandleResponse(old(Abs()), resp, close)
    {
      hide Fire, GoOn;
      responses := responses + [pipeliningCallbacks[0]];
      var id := PopInflight();
      RunCallback(id, Ok, Some(resp));
      NextRequest(close);
    }

    method NextRequest(close: bool)
      requires Valid()
      modifies this
      ensures Valid() && Abs() == GoOn(old(Abs()), close)
    {
      hide Fire, FlushInflight;
      if tcp.Up? {
        if requestsBuffer != [] {
          PushInflight(requestsBuffer[0]);
          PopFrontRequest();
        } else if close && pipeliningCallbacks == [] {
          tcp := Absent;
        }
      } else {
        FailInflight(NetworkFailure);
      }
    }

    /** The connection callback when the peer closed it; `last` is the response the close delimited, if any. */
    method OnDisconnected(delimited: bool, ghost last: R)
      requires Valid() && (delimited ==> pipeliningCallbacks != [])
      modifies this
      ensures Valid()
      ensures Abs() == if delimited then ClosedWithResponse(old(Abs()), last) else OnError(old(Abs()), NetworkFailure)
    {
      if delimited {
        tcp := Absent;
        HandleResponseInLoop(last, false);
        if requestsBuffer != [] {
          CreateTcpClient();
        }
        return;
      }
      OnErrorReported(NetworkFailure);
    }

    /** The timer of a timed request: the loop over requestsBuffer_ erases the first entry of that request. */
    method OnTimeout(id: nat)
      requires Valid() && id in timed
      modifies this
      ensures Valid() && Abs() == TimedOut(old(Abs()), id)
    {
      if id in timeoutFlags { return; }
      timeoutFlags := timeoutFlags + {id};
      var at := 0;
      while at < |requestsBuffer| && requestsBuffer[at] != id
        invariant at <= |requestsBuffer| && id !in requestsBuffer[..at]
      {
        at := at + 1;
      }
      EraseAt(requestsBuffer, id, at);
      FiredSnoc(log, Fired(id, Timeout, None));
      if at < |requestsBuffer| {
        EraseRequest(at);
      }
      log := log + [Fired(id, Timeout, None)];
    }
  }

  lemma {:induction false} EraseAt(s: seq<nat>, id: nat, at: nat)
    requires at <= |s| && id !in s[..at] && (at < |s| ==> s[at] == id)
    ensures Erase(s, id) == if at < |s| then s[..at] + s[at + 1..] else s
    decreases at
  {
    if at == 0 {
      if s != [] { assert s[..0] + s[1..] == s[1..]; }
    } else {
      assert s[..at][0] == s[0];
      EraseStep(s, id, at);
      EraseAt(s[1..], id, at - 1);
      assert Erase(s, id) == [s[0]] + Erase(s[1..], id);
      hide Erase;
    }
  }

  /** The rest of the list, and the list without one of its elements, in terms of its tail. */
  lemma EraseStep(s: seq<nat>, id: nat, at: nat)
    requires 0 < at <= |s| && id !in s[..at] && (at < |s| ==> s[at] == id)
    ensures id !in s[1..][..at - 1] && (at < |s| ==> s[1..][at - 1] == id)
    ensures s == [s[0]] + s[1..]
    ensures at < |s| ==> s[..at] + s[at + 1..] == [s[0]] + (s[1..][..at - 1] + s[1..][at..])
  {
    assert s[1..][..at - 1] == s[..at][1..];
  }
}
