/** A request's body on its way to whoever reads it (HttpRequestImpl): kept in memory or in a file until a reader is
    attached or the stream ends, as a state machine over everything that can happen to it. */
module BodyStream {
  import opened Bytes

  datatype Status = Off | Open | Finished | Failed

  /** A call of a stream reader; readers are numbered. */
  datatype Call = OnData(reader: nat, data: string) | OnFinish(reader: nat, failed: bool)

  datatype Body = Body(
    status: Status,          // streamStatus_
    content: string,
    file: Option<string>,    // cacheFilePtr_
    reader: Option<nat>,     // streamReaderPtr_
    exception: bool,         // streamExceptionPtr_ is set
    waiting: bool,           // streamFinishCb_ is set
    isSet: bool,             // of the RequestStream
    queued: Option<nat>,     // setStreamReader queued in the loop
    maxMemory: nat,
    received: string,        // all body bytes so far
    log: seq<Call>,          // calls of readers
    waited: bool,            // waitForStreamFinish was called
    waitRuns: nat,           // calls of its callback
    chosen: Option<nat>,     // the first reader set
    attached: bool)          // setStreamReader ran for it
  {
    function Stored(): string { if file.Some? then file.value else content }

    /** bodyView(), contentView() */
    function View(): string { if status != Off then "" else Stored() }
  }

  function Start(stream: bool, maxMemory: nat): Body {
    Body(if stream then Open else Off, "", None, None, false, false, false, None, maxMemory, "", [], false, 0, None,
         false)
  }

  // ----- steps -----

  /** reserveBodySize */
  function Reserve(b: Body, length: nat): Body {
    if b.file.Some? || length <= b.maxMemory then b
    else b.(file := Some(b.content), content := "")
  }

  /** appendToBody */
  function Append(b: Body, data: string): Body {
    var n := b.(received := b.received + data);
    if b.reader.Some? then n.(log := b.log + [OnData(b.reader.value, data)])
    else if b.file.Some? then n.(file := Some(b.file.value + data))
    else if |b.content| + |data| <= b.maxMemory then n.(content := b.content + data)
    else n.(file := Some(b.content + data), content := "")
  }

  /** HttpRequestImpl::setStreamReader */
  function Attach(b: Body, r: nat): (n: Body)
    ensures n.received == b.received && n.chosen == b.chosen && n.isSet == b.isSet
  {
    if b.exception then b.(attached := true, log := b.log + [OnFinish(r, true)], exception := false)
    else
      var fed := Consume(b, r).(attached := true);
      if b.status == Finished then fed.(log := fed.log + [OnFinish(r, false)])
      else fed.(reader := Some(r))
  }

  /** The body received before the reader came goes to the reader. */
  function Consume(b: Body, r: nat): Body {
    b.(log := if b.Stored() == "" then b.log else b.log + [OnData(r, b.Stored())],
       file := None, content := if b.file.Some? then b.content else "")
  }

  /** RequestStreamImpl::setStreamReader, on the loop or elsewhere; also what its destructor does with a null reader. */
  function SetReader(b: Body, r: nat, inLoop: bool): Body {
    if b.isSet then b
    else
      var n := b.(isSet := true);
      if b.status == Off then n
      else if inLoop then Attach(n.(chosen := Some(r)), r)
      else n.(chosen := Some(r), queued := Some(r))
  }

  function RunQueued(b: Body): Body
    requires b.queued.Some?
  {
    Attach(b.(queued := None), b.queued.value)
  }

  function RunWaiting(b: Body): (n: Body)
    ensures n.received == b.received && n.chosen == b.chosen && n.isSet == b.isSet
  {
    if b.waiting then b.(waiting := false, waitRuns := b.waitRuns + 1) else b
  }

  function TellReader(b: Body, failed: bool): (n: Body)
    ensures n.received == b.received && n.chosen == b.chosen && n.isSet == b.isSet
  {
    if b.reader.Some? then b.(log := b.log + [OnFinish(b.reader.value, failed)], reader := None) else b
  }

  /** streamFinish: the waiting callback runs before the reader is told. */
  function Finish(b: Body): Body { TellReader(RunWaiting(b.(status := Finished)), false) }

  /** streamError: the reader is told first; without one the exception is kept. */
  function Fail(b: Body): Body {
    RunWaiting(TellReader(b.(status := Failed, exception := b.reader.None?), true))
  }

  function Wait(b: Body): Body {
    if b.status == Open then b.(waiting := true, waited := true) else b.(waited := true, waitRuns := b.waitRuns + 1)
  }

  function Quit(b: Body): Body { b.(status := Off) }

  // ----- runs -----

  datatype Event =
    | ReserveEvent(length: nat)
    | DataEvent(data: string)
    | SetEvent(reader: nat, inLoop: bool)
    | QueuedEvent
    | FinishEvent
    | FailEvent
    | WaitEvent
    | QuitEvent

  /** Body bytes arrive while the stream is open, or outside stream mode; the stream ends once; waiting is asked
      for once. Stream mode is left for requests whose handler takes no stream, so that no reader is ever set. */
  predicate Enabled(b: Body, e: Event, stream: bool) {
    match e
    case ReserveEvent(_) => b.status == Open || !stream
    case DataEvent(data) => data != "" && (b.status == Open || !stream)
    case SetEvent(_, _) => stream
    case QueuedEvent => b.queued.Some?
    case FinishEvent => b.status == Open
    case FailEvent => b.status == Open
    case WaitEvent => b.status != Off && !b.waited
    case QuitEvent => (b.status == Finished || b.status == Failed) && !b.isSet
  }

  function Next(b: Body, e: Event, stream: bool): Body
    requires Enabled(b, e, stream)
  {
    match e
    case ReserveEvent(length) => Reserve(b, length)
    case DataEvent(data) => Append(b, data)
    case SetEvent(reader, inLoop) => SetReader(b, reader, inLoop)
    case QueuedEvent => RunQueued(b)
    case FinishEvent => Finish(b)
    case FailEvent => Fail(b)
    case WaitEvent => Wait(b)
    case QuitEvent => Quit(b)
  }

  ghost predicate IsRun(states: seq<Body>, events: seq<Event>, stream: bool) {
    && |states| == |events| + 1
    && forall k | 0 <= k < |events| ::
         Enabled(states[k], events[k], stream) && states[k + 1] == Next(states[k], events[k], stream)
  }

  // ----- the invariant -----

  /** The bytes handed to the reader. */
  function DataOf(log: seq<Call>): string {
    if log == [] then ""
    else
      var last := log[|log| - 1];
      DataOf(log[..|log| - 1]) + if last.OnData? then last.data else ""
  }

  /** Data calls only, all of reader r, none of them empty. */
  predicate OnlyData(log: seq<Call>, r: nat) {
    forall i | 0 <= i < |log| :: log[i].OnData? && log[i].reader == r && log[i].data != ""
  }

  /** Data calls and then the one that tells the end. */
  predicate Told(log: seq<Call>, r: nat, failed: bool) {
    log != [] && OnlyData(log[..|log| - 1], r) && log[|log| - 1] == OnFinish(r, failed)
  }

  /** The body is in one place: with the reader, in the file, or in memory. */
  ghost predicate InOnePlace(b: Body) {
    && (b.file.Some? ==> b.content == "")
    && (!b.attached ==> b.log == [] && b.reader.None? && b.Stored() == b.received)
    && (b.attached ==> b.chosen.Some? && b.status != Off)
    && (b.attached && b.status == Open ==>
          b.reader == b.chosen && OnlyData(b.log, b.chosen.value) && DataOf(b.log) == b.received && b.Stored() == "")
    && (b.attached && b.status == Finished ==>
          b.reader.None? && Told(b.log, b.chosen.value, false) && DataOf(b.log) == b.received)
    && (b.attached && b.status == Failed ==>
          b.reader.None? && Told(b.log, b.chosen.value, true) &&
          (DataOf(b.log) == b.received || b.log == [OnFinish(b.chosen.value, true)]))
  }

  ghost predicate Inv(b: Body, stream: bool) {
    && InOnePlace(b)
    && (b.chosen.Some? ==> b.isSet)
    && (b.queued.Some? ==> b.chosen == b.queued && !b.attached && b.status != Off)
    && (b.chosen.Some? && b.queued.None? ==> b.attached)
    && (b.exception ==> !b.attached)
    && (b.status == Failed && !b.attached ==> b.exception)
    && (b.status == Open || b.status == Finished ==> !b.exception)
    && (b.waiting == (b.waited && b.status == Open))
    && (b.waitRuns == if b.waited && b.status != Open then 1 else 0)
    && (!stream ==> b.status == Off && b.chosen.None? && !b.waited)
  }

  lemma DataOfSnoc(log: seq<Call>, c: Call)
    ensures DataOf(log + [c]) == DataOf(log) + if c.OnData? then c.data else ""
  {
    assert (log + [c])[..|log + [c]| - 1] == log;
  }

  lemma ToldSnoc(log: seq<Call>, r: nat, failed: bool)
    requires OnlyData(log, r)
    ensures Told(log + [OnFinish(r, failed)], r, failed)
    ensures DataOf(log + [OnFinish(r, failed)]) == DataOf(log)
  {
    DataOfSnoc(log, OnFinish(r, failed));
    assert (log + [OnFinish(r, failed)])[..|log|] == log;
    assert DataOf(log) + "" == DataOf(log);
  }

  /** A reader that comes late gets all of the body so far, in one call if there is any. */
  lemma ConsumeInv(b: Body, r: nat)
    requires InOnePlace(b) && !b.attached
    ensures var n := Consume(b, r);
            OnlyData(n.log, r) && DataOf(n.log) == b.received && n.Stored() == "" && n.file.None?
  {
    DataOfSnoc([], OnData(r, b.received));
    assert [] + [OnData(r, b.received)] == [OnData(r, b.received)];
  }

  lemma AttachInv(b: Body, r: nat, stream: bool)
    requires b.status != Off && b.chosen == Some(r) && b.isSet && b.queued.None? && !b.attached && stream
    requires Inv(b.(queued := Some(r)), stream)
    ensures Inv(Attach(b, r), stream)
  {
    hide OnlyData, DataOf, Told, Consume;
    assert InOnePlace(b);
    ConsumeInv(b, r);
    NoData(r);
    ToldSnoc([], r, true);
    ToldSnoc(Consume(b, r).log, r, false);
    SameRest(b, r);
  }

  lemma NoData(r: nat)
    ensures OnlyData([], r) && DataOf([]) == ""
  {
  }

  lemma SameRest(b: Body, r: nat)
    ensures var n := Consume(b, r); n == b.(log := n.log, file := n.file, content := n.content)
  {
  }

  lemma DataInv(b: Body, data: string, stream: bool)
    requires Inv(b, stream) && Enabled(b, DataEvent(data), stream)
    ensures Inv(Append(b, data), stream)
  {
    if b.reader.Some? {
      DataOfSnoc(b.log, OnData(b.reader.value, data));
    }
  }

  lemma EndInv(b: Body, stream: bool)
    requires Inv(b, stream) && b.status == Open
    ensures Inv(Finish(b), stream) && Inv(Fail(b), stream)
  {
    if b.reader.Some? {
      ToldSnoc(b.log, b.reader.value, false);
      ToldSnoc(b.log, b.reader.value, true);
    }
  }

  lemma NextInv(b: Body, e: Event, stream: bool)
    requires Inv(b, stream) && Enabled(b, e, stream)
    ensures Inv(Next(b, e, stream), stream)
  {
    match e
    case DataEvent(data) => DataInv(b, data, stream);
    case SetEvent(r, inLoop) =>
      if !b.isSet && b.status != Off && inLoop { AttachInv(b.(isSet := true, chosen := Some(r)), r, stream); }
    case QueuedEvent => AttachInv(b.(queued := None), b.queued.value, stream);
    case FinishEvent => EndInv(b, stream);
    case FailEvent => EndInv(b, stream);
    case _ =>
  }

  /** Whenever the reader is attached, however the body is cut and wherever it is kept meanwhile, every state of
      every run keeps the invariant: the body in one place, the reader's calls in order, callbacks at most once. */
  lemma {:induction false} RunInv(states: seq<Body>, events: seq<Event>, stream: bool, maxMemory: nat, k: nat)
    requires IsRun(states, events, stream) && states[0] == Start(stream, maxMemory) && k < |states|
    ensures Inv(states[k], stream)
  {
    hide Next, Enabled;
    if k > 0 {
      RunInv(states, events, stream, maxMemory, k - 1);
      NextInv(states[k - 1], events[k - 1], stream);
    }
  }

  /** What the events say the body is. */
  function Arrived(events: seq<Event>): string {
    if events == [] then ""
    else
      var last := events[|events| - 1];
      Arrived(events[..|events| - 1]) + if last.DataEvent? then last.data else ""
  }

  lemma {:induction false} ReceivedIsArrived(states: seq<Body>, events: seq<Event>, stream: bool, k: nat)
    requires IsRun(states, events, stream) && states[0].received == "" && k < |states|
    ensures states[k].received == Arrived(events[..k])
  {
    if k > 0 {
      ReceivedIsArrived(states, events, stream, k - 1);
      assert events[..k][..k - 1] == events[..k - 1];
      NextReceives(states[k - 1], events[k - 1], stream);
      assert Arrived(events[..k - 1]) + "" == Arrived(events[..k - 1]);
    }
  }

  lemma NextReceives(b: Body, e: Event, stream: bool)
    requires Enabled(b, e, stream)
    ensures Next(b, e, stream).received == if e.DataEvent? then b.received + e.data else b.received
  {
    hide Attach, RunWaiting, TellReader;
    match e
    case DataEvent(_) => hide Reserve, SetReader, RunQueued, Finish, Fail, Wait;
    case SetEvent(_, _) => hide Append, Reserve, RunQueued, Finish, Fail, Wait;
    case QueuedEvent => hide Append, Reserve, SetReader, Finish, Fail, Wait;
    case _ => hide Append, SetReader, RunQueued;
  }

  /** At the end of a stream with a reader: on success the reader got all the bytes that arrived, in order, and then was
      told once; on failure all that arrived, or nothing when it came after the failure, and was told once. */
  lemma ReaderGetsBody(states: seq<Body>, events: seq<Event>, maxMemory: nat)
    requires IsRun(states, events, true) && states[0] == Start(true, maxMemory)
    ensures var b := states[|events|];
            b.chosen.Some? && b.queued.None? && b.status != Open ==>
              && Told(b.log, b.chosen.value, b.status == Failed)
              && (b.status == Finished ==> DataOf(b.log) == Arrived(events))
              && (b.status == Failed ==> DataOf(b.log) == Arrived(events) || b.log == [OnFinish(b.chosen.value, true)])
  {
    hide Next, Enabled;
    RunInv(states, events, true, maxMemory, |events|);
    ReceivedIsArrived(states, events, true, |events|);
    assert events[..|events|] == events;
  }

  /** Without a reader the body is there as one string once stream mode is left, or was never entered, wherever and
      whenever it was moved to a file; the waiting callback ran once exactly when it was asked for. */
  lemma BodyWithoutReader(states: seq<Body>, events: seq<Event>, stream: bool, maxMemory: nat)
    requires IsRun(states, events, stream) && states[0] == Start(stream, maxMemory)
    ensures var b := states[|events|];
            && (b.status == Off ==> b.View() == Arrived(events))
            && (b.status != Open ==> b.waitRuns == if b.waited then 1 else 0)
            && (b.status == Open ==> b.waitRuns == 0 && b.View() == "")
  {
    hide Next, Enabled;
    RunInv(states, events, stream, maxMemory, |events|);
    ReceivedIsArrived(states, events, stream, |events|);
    assert events[..|events|] == events;
  }

  /** The first reader set is the only one ever called. */
  lemma {:induction false} FirstReaderStays(states: seq<Body>, events: seq<Event>, stream: bool, j: nat, k: nat)
    requires IsRun(states, events, stream) && j <= k < |states| && states[j].isSet
    ensures states[k].isSet && states[k].chosen == states[j].chosen
    decreases k
  {
    hide Next, Enabled;
    if j < k {
      FirstReaderStays(states, events, stream, j, k - 1);
      ChosenKept(states[k - 1], events[k - 1], stream);
    }
  }

  lemma ChosenKept(b: Body, e: Event, stream: bool)
    requires Enabled(b, e, stream) && b.isSet
    ensures Next(b, e, stream).isSet && Next(b, e, stream).chosen == b.chosen
  {
    hide Attach, RunWaiting, TellReader;
    if e.DataEvent? || e.ReserveEvent? {
      hide SetReader, RunQueued, Finish, Fail, Wait;
    } else {
      hide Append, Reserve;
    }
  }

  // ----- the object -----

  class CacheFile {
    var data: string

    constructor ()
      ensures data == ""
    {
      data := "";
    }

    method AppendData(more: string)
      modifies this
      ensures data == old(data) + more
    {
      data := data + more;
    }
  }

  class HttpRequestImpl {
    var streamStatus: Status
    var body: string
    var cacheFile: CacheFile?
    var streamReader: Option<nat>
    var streamException: bool
    var streamFinishCb: bool
    var isSet: bool
    var queuedReader: Option<nat>
    const maxMemory: nat
    var waitRuns: nat
    ghost var received: string
    ghost var log: seq<Call>
    ghost var waited: bool
    ghost var chosen: Option<nat>
    ghost var attached: bool

    ghost function Abs(): Body
      reads this, cacheFile
    {
      Body(streamStatus, body, if cacheFile == null then None else Some(cacheFile.data), streamReader, streamException,
           streamFinishCb, isSet, queuedReader, maxMemory, received, log, waited, waitRuns, chosen, attached)
    }

    constructor (stream: bool, maxMemory: nat)
      ensures Abs() == Start(stream, maxMemory) && cacheFile == null
    {
      streamStatus, body, cacheFile := if stream then Open else Off, "", null;
      streamReader, streamException, streamFinishCb, isSet, queuedReader := None, false, false, false, None;
      this.maxMemory := maxMemory;
      waitRuns, received, log, waited, chosen, attached := 0, "", [], false, None, false;
    }

    method ReserveBodySize(length: nat)
      modifies this, cacheFile
      ensures Abs() == Reserve(old(Abs()), length)
      ensures cacheFile == old(cacheFile) || fresh(cacheFile)
    {
      if cacheFile != null { return; }
      if length > maxMemory {
        cacheFile := new CacheFile();
        if body != "" {
          cacheFile.AppendData(body);
          assert cacheFile.data == body;
          body := "";
        }
      }
    }

    method AppendToBody(data: string)
      modifies this, cacheFile
      ensures Abs() == Append(old(Abs()), data)
      ensures cacheFile == old(cacheFile) || fresh(cacheFile)
    {
      received := received + data;
      if streamReader.Some? {
        log := log + [OnData(streamReader.value, data)];
      } else if cacheFile != null {
        cacheFile.AppendData(data);
      } else if |body| + |data| <= maxMemory {
        body := body + data;
      } else {
        cacheFile := new CacheFile();
        cacheFile.AppendData(body);
        cacheFile.AppendData(data);
        assert cacheFile.data == body + data;
        body := "";
      }
    }

    method SetStreamReader(r: nat)
      modifies this
      ensures Abs() == Attach(old(Abs()), r)
      ensures cacheFile == old(cacheFile) || cacheFile == null
    {
      hide Consume;
      if streamException {
        attached := true;
        log, streamException := log + [OnFinish(r, true)], false;
        return;
      }
      ConsumeReceived(r);
      attached := true;
      if streamStatus == Finished {
        log := log + [OnFinish(r, false)];
      } else {
        streamReader := Some(r);
      }
    }

    method ConsumeReceived(r: nat)
      modifies this`log, this`cacheFile, this`body
      ensures Abs() == Consume(old(Abs()), r) && (cacheFile == old(cacheFile) || cacheFile == null)
    {
      if cacheFile != null {
        if cacheFile.data != "" {
          log := log + [OnData(r, cacheFile.data)];
        }
        cacheFile := null;
      } else if body != "" {
        log, body := log + [OnData(r, body)], "";
      }
    }

    /** The RequestStream's setStreamReader and destructor, with the queueing for another thread. */
    method SetOnce(r: nat, inLoop: bool)
      modifies this
      ensures Abs() == SetReader(old(Abs()), r, inLoop)
      ensures cacheFile == old(cacheFile) || cacheFile == null
    {
      if isSet { return; }
      isSet := true;
      if streamStatus == Off { return; }
      chosen := Some(r);
      if inLoop {
        SetStreamReader(r);
      } else {
        queuedReader := Some(r);
      }
    }

    method RunQueuedReader()
      requires queuedReader.Some?
      modifies this
      ensures Abs() == RunQueued(old(Abs()))
      ensures cacheFile == old(cacheFile) || cacheFile == null
    {
      var r := queuedReader.value;
      queuedReader := None;
      SetStreamReader(r);
    }

    method CallWaiting()
      modifies this`streamFinishCb, this`waitRuns
      ensures Abs() == RunWaiting(old(Abs()))
    {
      if streamFinishCb {
        streamFinishCb, waitRuns := false, waitRuns + 1;
      }
    }

    method StreamFinish()
      modifies this
      ensures Abs() == Finish(old(Abs())) && cacheFile == old(cacheFile)
    {
      streamStatus := Finished;
      CallWaiting();
      if streamReader.Some? {
        log, streamReader := log + [OnFinish(streamReader.value, false)], None;
      }
    }

    method StreamError()
      modifies this
      ensures Abs() == Fail(old(Abs())) && cacheFile == old(cacheFile)
    {
      streamStatus := Failed;
      streamException := false;
      if streamReader.Some? {
        log, streamReader := log + [OnFinish(streamReader.value, true)], None;
      } else {
        streamException := true;
      }
      CallWaiting();
    }

    method WaitForStreamFinish()
      modifies this
      ensures Abs() == Wait(old(Abs())) && cacheFile == old(cacheFile)
    {
      waited := true;
      if streamStatus == Open {
        streamFinishCb := true;
      } else {
        waitRuns := waitRuns + 1;
      }
    }

    method QuitStreamMode()
      modifies this`streamStatus
      ensures Abs() == Quit(old(Abs()))
    {
      streamStatus := Off;
    }

    method BodyView() returns (view: string)
      ensures view == Abs().View()
    {
      if streamStatus != Off { return ""; }
      if cacheFile != null { return cacheFile.data; }
      return body;
    }
  }
}
