/** Which reader gets a body, what it gets when the stream fails, and how much of the body is held in memory, over every
    run of BodyStream. */
module BodyReader {
  import opened Bytes
  import opened BodyStream

  // ----- the reader chosen -----

  /** Event j is the first to set a reader, and stream mode was not left before. */
  predicate FirstSet(events: seq<Event>, j: nat) {
    j < |events| && events[j].SetEvent? && forall i | 0 <= i < j :: !events[i].SetEvent? && !events[i].QuitEvent?
  }

  /** A stream that nothing has been set on. */
  predicate Untouched(b: Body) { !b.isSet && b.chosen.None? && b.status != Off }

  lemma UntouchedStays(b: Body, e: Event)
    requires Untouched(b) && Enabled(b, e, true) && !e.SetEvent? && !e.QuitEvent? && b.queued.None?
    ensures Untouched(Next(b, e, true)) && Next(b, e, true).queued.None?
  {
    hide Attach;
  }

  lemma {:induction false} UntouchedUntil(states: seq<Body>, events: seq<Event>, maxMemory: nat, j: nat)
    requires IsRun(states, events, true) && states[0] == Start(true, maxMemory) && j < |states|
    requires forall i | 0 <= i < j :: !events[i].SetEvent? && !events[i].QuitEvent?
    ensures Untouched(states[j]) && states[j].queued.None?
  {
    hide Next, Enabled;
    if j > 0 {
      UntouchedUntil(states, events, maxMemory, j - 1);
      UntouchedStays(states[j - 1], events[j - 1]);
    } else {
      assert Untouched(Start(true, maxMemory));
    }
  }

  lemma SetChooses(b: Body, r: nat, inLoop: bool)
    requires Untouched(b)
    ensures var n := SetReader(b, r, inLoop);
            n.isSet && n.chosen == Some(r) && if inLoop then n.queued == b.queued else n.queued == Some(r)
  {
  }

  /** The reader set first, while the stream is in stream mode, is the one chosen, from then on. */
  lemma ChosenIsFirst(states: seq<Body>, events: seq<Event>, maxMemory: nat, j: nat, k: nat)
    requires IsRun(states, events, true) && states[0] == Start(true, maxMemory) && k < |states|
    requires FirstSet(events, j) && j < k
    ensures states[k].chosen == Some(events[j].reader)
  {
    hide Next, Enabled;
    UntouchedUntil(states, events, maxMemory, j);
    SetStep(states[j], events[j]);
    FirstReaderStays(states, events, true, j + 1, k);
  }

  lemma SetStep(b: Body, e: Event)
    requires Untouched(b) && Enabled(b, e, true) && e.SetEvent?
    ensures Next(b, e, true).isSet && Next(b, e, true).chosen == Some(e.reader)
  {
    SetChooses(b, e.reader, e.inLoop);
  }

  lemma NoneChosen(b: Body, e: Event)
    requires Enabled(b, e, true) && b.chosen.None? && (!e.SetEvent? || b.status == Off)
    ensures Next(b, e, true).chosen.None?
    ensures b.status == Off ==> Next(b, e, true).status == Off
  {
    hide Attach;
    if e.QueuedEvent? {
      AttachStatus(b.(queued := None), b.queued.value);
    }
  }

  lemma AttachStatus(b: Body, r: nat)
    ensures Attach(b, r).chosen == b.chosen && Attach(b, r).status == b.status
  {
  }

  /** Without such an event no reader is chosen. */
  lemma {:induction false} NoneSetNone(states: seq<Body>, events: seq<Event>, maxMemory: nat, k: nat)
    requires IsRun(states, events, true) && states[0] == Start(true, maxMemory) && k < |states|
    requires forall j | 0 <= j < k :: !FirstSet(events, j)
    ensures states[k].chosen.None?
    ensures (exists i | 0 <= i < k :: events[i].SetEvent? || events[i].QuitEvent?) ==> states[k].status == Off
  {
    hide Next, Enabled;
    if k > 0 {
      NoneSetNone(states, events, maxMemory, k - 1);
      var e := events[k - 1];
      if forall i | 0 <= i < k - 1 :: !events[i].SetEvent? && !events[i].QuitEvent? {
        assert !FirstSet(events, k - 1);
        if e.QuitEvent? {
          QuitTurnsOff(states[k - 1], e);
        }
      }
      NoneChosen(states[k - 1], e);
    }
  }

  lemma QuitTurnsOff(b: Body, e: Event)
    requires Enabled(b, e, true) && e.QuitEvent?
    ensures Next(b, e, true).status == Off
  {
  }

  // ----- after a failure -----

  lemma FailStep(b: Body, e: Event)
    requires Inv(b, true) && Enabled(b, e, true) && e.FailEvent?
    ensures var n := Next(b, e, true);
            && n.status == Failed && n.attached == b.attached && n.chosen == b.chosen && n.isSet == b.isSet
            && n.received == b.received
  {
  }

  /** From the failure on: a reader attached before has all that had arrived, one that comes later gets none of it. */
  predicate Missed(b: Body, wasAttached: bool, got: string) {
    && (b.status == Failed || b.status == Off)
    && (wasAttached ==> b.attached && DataOf(b.log) == got)
    && (!wasAttached && b.attached ==> b.chosen.Some? && b.log == [OnFinish(b.chosen.value, true)])
  }

  lemma MissedStays(b: Body, e: Event, wasAttached: bool, got: string)
    requires Inv(b, true) && Enabled(b, e, true) && Missed(b, wasAttached, got)
    ensures Missed(Next(b, e, true), wasAttached, got)
  {
    hide DataOf, Told, OnlyData;
    NextInv(b, e, true);
    assert InOnePlace(b);
    match e
    case SetEvent(r, inLoop) =>
      if !b.isSet && b.status != Off && inLoop { LateReader(b.(isSet := true, chosen := Some(r)), r); }
    case QueuedEvent => LateReader(b.(queued := None), b.queued.value);
    case _ =>
  }

  lemma LateReader(b: Body, r: nat)
    requires b.exception && b.log == []
    ensures Attach(b, r) == b.(attached := true, log := [OnFinish(r, true)], exception := false)
  {
  }

  /** When the stream fails with a reader attached, that reader has got exactly what arrived until then, and the end; a
      reader that is attached after the failure is told of it and gets nothing. */
  lemma {:induction false} FailedReader(states: seq<Body>, events: seq<Event>, maxMemory: nat, f: nat, k: nat)
    requires IsRun(states, events, true) && states[0] == Start(true, maxMemory)
    requires f < |events| && events[f].FailEvent? && f < k < |states|
    ensures Missed(states[k], states[f].attached, Arrived(events[..f]))
    decreases k
  {
    hide Next, Enabled, Inv, Missed;
    RunInv(states, events, true, maxMemory, k - 1);
    if k == f + 1 {
      ReceivedIsArrived(states, events, true, f);
      FailMisses(states[f], events[f], Arrived(events[..f]));
    } else {
      FailedReader(states, events, maxMemory, f, k - 1);
      MissedStays(states[k - 1], events[k - 1], states[f].attached, Arrived(events[..f]));
    }
  }

  lemma FailMisses(b: Body, e: Event, got: string)
    requires Inv(b, true) && Enabled(b, e, true) && e.FailEvent? && b.received == got
    ensures Missed(Next(b, e, true), b.attached, got)
  {
    hide OnlyData, Told;
    FailStep(b, e);
    if b.reader.Some? {
      ToldSnoc(b.log, b.reader.value, true);
    }
    EndInv(b, true);
  }

  // ----- in memory -----

  lemma NextInMemory(b: Body, e: Event, stream: bool)
    requires Enabled(b, e, stream) && |b.content| <= b.maxMemory
    ensures |Next(b, e, stream).content| <= b.maxMemory && Next(b, e, stream).maxMemory == b.maxMemory
  {
    hide Attach, Append, Reserve, Finish, Fail;
    match e
    case ReserveEvent(length) => StoreMemory(b, length, "");
    case DataEvent(data) => StoreMemory(b, 0, data);
    case SetEvent(r, _) => AttachMemory(b.(isSet := true, chosen := Some(r)), r);
    case QueuedEvent => AttachMemory(b.(queued := None), b.queued.value);
    case FinishEvent => EndMemory(b);
    case FailEvent => EndMemory(b);
    case _ =>
  }

  lemma StoreMemory(b: Body, length: nat, data: string)
    requires |b.content| <= b.maxMemory
    ensures |Reserve(b, length).content| <= b.maxMemory && Reserve(b, length).maxMemory == b.maxMemory
    ensures |Append(b, data).content| <= b.maxMemory && Append(b, data).maxMemory == b.maxMemory
  {
  }

  lemma AttachMemory(b: Body, r: nat)
    ensures |Attach(b, r).content| <= |b.content| && Attach(b, r).maxMemory == b.maxMemory
  {
  }

  lemma EndMemory(b: Body)
    ensures Finish(b).content == b.content && Finish(b).maxMemory == b.maxMemory
    ensures Fail(b).content == b.content && Fail(b).maxMemory == b.maxMemory
  {
  }

  /** Whatever arrives, no more of a body than the limit is ever held in memory. */
  lemma {:induction false} InMemory(states: seq<Body>, events: seq<Event>, stream: bool, maxMemory: nat, k: nat)
    requires IsRun(states, events, stream) && states[0] == Start(stream, maxMemory) && k < |states|
    ensures |states[k].content| <= maxMemory && states[k].maxMemory == maxMemory
  {
    hide Next, Enabled;
    if k > 0 {
      InMemory(states, events, stream, maxMemory, k - 1);
      NextInMemory(states[k - 1], events[k - 1], stream);
    }
  }

  /** Once the announced length is known to be over the limit, the body is in a file, and stays there until a reader
      takes it. */
  lemma ReservedInFile(b: Body, e: Event, stream: bool)
    requires Enabled(b, e, stream)
    ensures e.ReserveEvent? && e.length > b.maxMemory ==> Next(b, e, stream).file.Some?
    ensures b.file.Some? && !e.SetEvent? && !e.QueuedEvent? ==> Next(b, e, stream).file.Some?
    ensures b.file.None? && Next(b, e, stream).file.Some? ==>
              (e.ReserveEvent? && e.length > b.maxMemory) || (e.DataEvent? && |b.content| + |e.data| > b.maxMemory)
  {
    hide Attach, Finish, Fail;
    match e
    case SetEvent(r, _) => AttachFile(b.(isSet := true, chosen := Some(r)), r);
    case QueuedEvent => AttachFile(b.(queued := None), b.queued.value);
    case FinishEvent => EndFile(b);
    case FailEvent => EndFile(b);
    case _ =>
  }

  lemma EndFile(b: Body)
    ensures Finish(b).file == b.file && Fail(b).file == b.file
  {
  }

  lemma AttachFile(b: Body, r: nat)
    ensures Attach(b, r).file.Some? ==> b.file.Some?
  {
  }
}
