/** The multipart parser and reader as the objects they are: a compacting buffer, a parser that updates its fields in a
    loop, and the reader that guards it and reports the end of the stream, with the content types that name a
    boundary. */
module MultipartReader {
  import opened Bytes
  import opened Incremental
  import opened Multipart

  /** MultipartStreamParser::Buffer: bytes storage[head..tail]; appending moves them to the front first. */
  class Buffer {
    var storage: array<char>
    var head: nat
    var tail: nat

    ghost predicate Valid()
      reads this
    {
      head <= tail <= storage.Length
    }

    function View(): string
      requires Valid()
      reads this, storage
    {
      storage[head..tail]
    }

    constructor ()
      ensures Valid() && fresh(storage) && View() == ""
    {
      storage, head, tail := new char[0], 0, 0;
    }

    method Append(data: string)
      requires Valid()
      modifies this, storage
      ensures Valid() && (storage == old(storage) || fresh(storage))
      ensures View() == old(View()) + data
    {
      MoveToFront();
      Reserve(|data|);
      ghost var was := View();
      for i := 0 to |data|
        invariant head == 0 && tail == |was| && tail + |data| <= storage.Length
        invariant storage == old(storage) || fresh(storage)
        invariant forall k | 0 <= k < tail :: storage[k] == was[k]
        invariant forall k | 0 <= k < i :: storage[tail + k] == data[k]
      {
        storage[tail + i] := data[i];
      }
      tail := tail + |data|;
    }

    method MoveToFront()
      requires Valid()
      modifies this, storage
      ensures Valid() && head == 0 && storage == old(storage) && View() == old(View())
    {
      var remain := tail - head;
      ghost var was := View();
      if remain > 0 && head > 0 {
        for i := 0 to remain
          invariant head == old(head) && tail == old(tail) && storage == old(storage)
          invariant forall k | 0 <= k < i :: storage[k] == was[k]
          invariant forall k | i <= k < remain :: storage[head + k] == was[k]
        {
          storage[i] := storage[head + i];
        }
      }
      head, tail := 0, remain;
    }

    /** std::string::resize when the appended bytes do not fit. */
    method Reserve(length: nat)
      requires Valid() && head == 0
      modifies this`storage
      ensures Valid() && (storage == old(storage) || fresh(storage))
      ensures tail + length <= storage.Length && View() == old(View())
    {
      if tail + length > storage.Length {
        var bigger := new char[tail + length];
        forall i | 0 <= i < storage.Length {
          bigger[i] := storage[i];
        }
        storage := bigger;
      }
    }

    method EraseFront(length: nat)
      requires Valid() && length <= |View()|
      modifies this`head
      ensures Valid() && View() == old(View())[length..]
    {
      head := head + length;
    }

    method Clear()
      modifies this
      ensures Valid() && fresh(storage) && View() == ""
    {
      storage, head, tail := new char[0], 0, 0;
    }
  }

  // ----- what the callbacks may look like -----

  datatype Phase = Between | InPart | Broken

  function PhaseAfter(events: seq<Event>): Phase {
    if events == [] then Between
    else
      match (PhaseAfter(events[..|events| - 1]), events[|events| - 1])
      case (Between, OnHeader(_)) => InPart
      case (InPart, OnData(d)) => if d == "" then Between else InPart
      case _ => Broken
  }

  predicate IsEnd(e: Event) { e == OnData("") }

  ghost predicate EndBetween(events: seq<Event>, i: int, j: int)
    requires -1 <= i < j <= |events|
  {
    exists k | i < k < j :: IsEnd(events[k])
  }

  ghost predicate HeaderBetween(events: seq<Event>, i: int, j: int)
    requires -1 <= i < j <= |events|
  {
    exists k | i < k < j :: events[k].OnHeader?
  }

  /** The callback at `j` is where it may be: a header after the previous part ended, data inside a part. */
  ghost predicate InPlace(events: seq<Event>, j: int)
    requires 0 <= j < |events|
  {
    if events[j].OnHeader? then
      forall i | 0 <= i < j && events[i].OnHeader? :: EndBetween(events, i, j)
    else
      && HeaderBetween(events, -1, j)
      && forall i | 0 <= i < j && IsEnd(events[i]) :: HeaderBetween(events, i, j)
  }

  /** Callbacks come part by part: a zero-length callback between two headers, and every data callback
      after its part's header with no zero-length callback in between. */
  ghost predicate PartByPart(events: seq<Event>) {
    forall j | 0 <= j < |events| :: InPlace(events, j)
  }

  ghost predicate PartOpen(events: seq<Event>) {
    exists i | 0 <= i < |events| :: events[i].OnHeader? && !EndBetween(events, i, |events|)
  }

  lemma BetweenSnoc(before: seq<Event>, e: Event, i: int, j: int)
    requires -1 <= i < j <= |before|
    ensures EndBetween(before + [e], i, j) == EndBetween(before, i, j)
    ensures HeaderBetween(before + [e], i, j) == HeaderBetween(before, i, j)
  {
    var events := before + [e];
    if EndBetween(before, i, j) {
      var k :| i < k < j && IsEnd(before[k]);
      assert IsEnd(events[k]);
    }
    if HeaderBetween(before, i, j) {
      var k :| i < k < j && before[k].OnHeader?;
      assert events[k].OnHeader?;
    }
  }

  lemma EndSnoc(before: seq<Event>, e: Event, i: int)
    requires -1 <= i < |before|
    ensures EndBetween(before + [e], i, |before| + 1) == (EndBetween(before, i, |before|) || IsEnd(e))
  {
    var events := before + [e];
    assert events[|before|] == e;
    BetweenSnoc(before, e, i, |before|);
    if EndBetween(events, i, |before|) {
      var k :| i < k < |before| && IsEnd(events[k]);
    }
  }

  lemma InPlaceSnoc(before: seq<Event>, e: Event, j: int)
    requires 0 <= j < |before| && InPlace(before, j)
    ensures InPlace(before + [e], j)
  {
    var events := before + [e];
    assert events[j] == before[j];
    forall i | -1 <= i < j { BetweenSnoc(before, e, i, j); }
  }

  lemma HeaderSnoc(before: seq<Event>, e: Event)
    requires PartByPart(before) && !PartOpen(before) && e.OnHeader?
    ensures PartByPart(before + [e]) && PartOpen(before + [e])
  {
    var events := before + [e];
    var n := |before|;
    forall j | 0 <= j < n { InPlaceSnoc(before, e, j); }
    forall i | 0 <= i < n && events[i].OnHeader?
      ensures EndBetween(events, i, n)
    {
      assert before[i].OnHeader?;
      BetweenSnoc(before, e, i, n);
    }
    assert InPlace(events, n);
    assert events[n] == e && !EndBetween(events, n, |events|);
  }

  lemma DataSnoc(before: seq<Event>, e: Event)
    requires PartByPart(before) && PartOpen(before) && e.OnData?
    ensures PartByPart(before + [e]) && (PartOpen(before + [e]) <==> !IsEnd(e))
  {
    var events := before + [e];
    var n := |before|;
    var h :| 0 <= h < n && before[h].OnHeader? && !EndBetween(before, h, n);
    assert events[h].OnHeader? && events[n] == e;
    forall j | 0 <= j < n { InPlaceSnoc(before, e, j); }
    forall i | 0 <= i < n && IsEnd(events[i])
      ensures HeaderBetween(events, i, n)
    {
      assert IsEnd(before[i]);
      assert i < h;
    }
    assert InPlace(events, n);
    EndSnoc(before, e, h);
    forall i | 0 <= i < n { EndSnoc(before, e, i); }
  }

  lemma {:induction false} PhaseMeansPartByPart(events: seq<Event>)
    requires !PhaseAfter(events).Broken?
    ensures PartByPart(events)
    ensures PhaseAfter(events).InPart? <==> PartOpen(events)
  {
    if events != [] {
      var before, e := events[..|events| - 1], events[|events| - 1];
      assert events == before + [e];
      PhaseMeansPartByPart(before);
      if e.OnHeader? {
        HeaderSnoc(before, e);
      } else {
        DataSnoc(before, e);
      }
    }
  }

  /** Every part but the one still open is closed. */
  lemma {:induction false} ClosedWhenEnded(events: seq<Event>)
    requires !PhaseAfter(events).Broken?
    ensures ClosedIn(PhaseAfter(events), Delivered(events))
  {
    if events != [] {
      var before, e := events[..|events| - 1], events[|events| - 1];
      ClosedWhenEnded(before);
      ClosedNext(PhaseAfter(before), Delivered(before), e);
    }
  }

  /** The parts delivered so far, all closed but the one that is open in a phase. */
  predicate ClosedIn(phase: Phase, parts: seq<Part>) {
    && (phase.InPart? ==> parts != [])
    && forall k | 0 <= k < |parts| :: parts[k].closed <==> k < |parts| - 1 || phase.Between?
  }

  lemma ClosedNext(phase: Phase, parts: seq<Part>, e: Event)
    requires ClosedIn(phase, parts)
    ensures phase.Between? && e.OnHeader? ==> ClosedIn(InPart, Deliver(parts, e))
    ensures phase.InPart? && e.OnData? ==>
              ClosedIn(if e.data == "" then Between else InPart, Deliver(parts, e))
  {
    var now := Deliver(parts, e);
    if phase.Between? && e.OnHeader? {
      assert forall k | 0 <= k < |parts| :: now[k] == parts[k];
    }
    if phase.InPart? && e.OnData? {
      assert forall k | 0 <= k < |parts| - 1 :: now[k] == parts[k];
    }
  }

  lemma EmptyPieceTwice(parts: seq<Part>)
    ensures AddData(AddData(parts, ""), "") == AddData(parts, "")
  {
    if parts != [] {
      var once := AddData(parts, "");
      var last := parts[|parts| - 1];
      assert last.data + "" == last.data;
      assert once[..|once| - 1] == parts[..|parts| - 1];
    }
  }

  // ----- the parser object -----

  ghost function Whole(s: State, b: string): Final<State> {
    ParserCoherent();
    Run(Parser(), s, b)
  }

  /** One round, seen through Whole. */
  lemma WholeStep(s: State, b: string)
    ensures match Step(s, b)
            case Advance(t, r) => Whole(s, b) == Whole(t, r) && (|r| < |b| || (|r| == |b| && Rank(t) < Rank(s)))
            case Pause(t, r) => Whole(s, b) == Waiting(t, r)
            case Halt(t) => Whole(s, b) == Halted(t)
            case Over(t) => Whole(s, b) == OverLimit(t)
  {
    ParserCoherent();
    assert Progress(Parser(), s, b);
  }

  /** No header line of b passes the limit. */
  ghost predicate Fit(s: State, b: string) {
    ParserCoherent();
    Fits(Parser(), s, b)
  }

  lemma FitStep(s: State, b: string)
    ensures Fit(s, b) <==>
            FitsLine(s, b) &&
            match Step(s, b)
            case Advance(t, r) => Fit(t, r)
            case Over(_) => false
            case _ => true
  {
    ParserCoherent();
    hide Step, FitsLine;
    assert Progress(Parser(), s, b);
  }

  /** The boundary named by a content-type header, None when it is no multipart/form-data. */
  function BoundaryOf(contentType: string): Option<string> {
    ParameterOf(contentType, "multipart/form-data", "boundary=")
  }

  function ParameterOf(contentType: string, multipart: string, boundaryEq: string): Option<string> {
    if !StartsWithIgnoreCase(contentType, multipart) then None
    else
      var pos := FindFrom(contentType, boundaryEq, |multipart|);
      if pos < 0 then None
      else
        Some(BoundaryFrom(contentType, pos + |boundaryEq|))
  }

  /** The boundary that stands in `s` from `at` on. */
  function BoundaryFrom(s: string, at: nat): string
    requires at <= |s|
  {
    var from := if at < |s| && s[at] == '"' then at + 1 else at;
    var end := FindFrom(s, if from > at then "\"" else ";", from);
    s[from..if end < 0 then |s| else end]
  }

  function Initial(contentType: string): State {
    var named := BoundaryOf(contentType);
    State(if named.Some? then named.value else "", ExpectFirstBoundary, NO_HEADER, named.Some?, false, [])
  }

  class StreamParser {
    const boundary: string
    const dashBoundaryCrlf: string
    const crlfDashBoundary: string
    const buffer: Buffer
    var status: Status
    var currentHeader: Header
    var isValid: bool
    var isFinished: bool
    ghost var events: seq<Event>  // the callbacks made so far

    ghost predicate Valid()
      reads this, buffer
    {
      && buffer.Valid()
      && dashBoundaryCrlf == DASH + boundary + CRLF
      && crlfDashBoundary == CRLF + DASH + boundary
      && PhaseAfter(events) == (if status.ExpectBody? then InPart else Between)
    }

    ghost function Abs(): State
      reads this
    {
      State(boundary, status, currentHeader, isValid, isFinished, Delivered(events))
    }

    constructor (contentType: string)
      ensures Valid() && fresh(buffer) && fresh(buffer.storage)
      ensures buffer.View() == "" && events == [] && Abs() == Initial(contentType)
    {
      var named := BoundaryOf(contentType);
      var b := if named.Some? then named.value else "";
      boundary, dashBoundaryCrlf, crlfDashBoundary := b, DASH + b + CRLF, CRLF + DASH + b;
      buffer := new Buffer();
      status, currentHeader, isFinished := ExpectFirstBoundary, NO_HEADER, false;
      isValid := named.Some?;
      events := [];
    }

    method HeaderCallback(h: Header)
      modifies this`events
      ensures events == old(events) + [OnHeader(h)]
      ensures Delivered(events) == Deliver(old(Delivered(events)), OnHeader(h))
      ensures old(PhaseAfter(events)).Between? ==> PhaseAfter(events).InPart?
    {
      events := events + [OnHeader(h)];
    }

    method DataCallback(data: string)
      modifies this`events
      ensures events == old(events) + [OnData(data)]
      ensures Delivered(events) == AddData(old(Delivered(events)), data)
      ensures old(PhaseAfter(events)).InPart? ==>
                PhaseAfter(events) == (if data == "" then Between else InPart)
    {
      events := events + [OnData(data)];
    }

    /** parse(): the loop computes exactly the machine's run on what was kept plus what arrived. */
    method Parse(data: string)
      requires Valid()
      modifies this, buffer, buffer.storage
      ensures Valid() && (buffer.storage == old(buffer.storage) || fresh(buffer.storage))
      ensures var r := Whole(old(Abs()), old(buffer.View()) + data);
              Abs() == r.state && (r.Waiting? ==> buffer.View() == r.rest)
    {
      buffer.Append(data);
      ghost var goal := Whole(Abs(), buffer.View());
      while |buffer.View()| > 0
        invariant Valid() && (buffer.storage == old(buffer.storage) || fresh(buffer.storage))
        invariant Whole(Abs(), buffer.View()) == goal
        decreases |buffer.View()|, Rank(Abs())
      {
        var done := Round();
        if done { return; }
      }
      WholeStep(Abs(), buffer.View());
    }

    /** The fields are what outcome `o` of one case of the switch says; `done` when it returns from parse(). */
    ghost predicate Did(o: Outcome<State>, done: bool)
      requires Valid()
      reads this, buffer, buffer.storage
    {
      match o
      case Advance(t, r) => !done && Abs() == t && buffer.View() == r
      case Pause(t, r) => done && Abs() == t && buffer.View() == r
      case Halt(t) => done && Abs() == t
      case Over(t) => done && Abs() == t
    }

    /** One round: either the result of the whole loop is unchanged and closer, or it is reached. */
    method Round() returns (done: bool)
      requires Valid() && buffer.View() != ""
      modifies this, buffer
      ensures Valid() && (buffer.storage == old(buffer.storage) || fresh(buffer.storage))
      ensures var was, size := Whole(old(Abs()), old(buffer.View())), old(|buffer.View()|);
              if done then Abs() == was.state && (was.Waiting? ==> buffer.View() == was.rest)
              else Whole(Abs(), buffer.View()) == was &&
                   (|buffer.View()| < size || (|buffer.View()| == size && Rank(Abs()) < Rank(old(Abs()))))
    {
      hide Whole, FirstBoundary, HeaderRound, BodyRound, EndRound;
      WholeStep(Abs(), buffer.View());
      done := OneRound();
    }

    method OneRound() returns (done: bool)
      requires Valid() && buffer.View() != ""
      modifies this, buffer
      ensures Valid() && Did(Step(old(Abs()), old(buffer.View())), done)
      ensures buffer.storage == old(buffer.storage) || fresh(buffer.storage)
    {
      match status {
        case ExpectFirstBoundary => done := BoundaryCase();
        case ExpectNewEntry =>
          currentHeader := NO_HEADER;
          status := ExpectHeader;
          done := false;
        case ExpectHeader => done := HeaderCase();
        case ExpectBody => done := BodyCase();
        case ExpectEndOrNewEntry => done := EndCase();
      }
    }

    method HeaderCase() returns (done: bool)
      requires Valid() && status.ExpectHeader? && buffer.View() != ""
      modifies this, buffer`head
      ensures Valid() && Did(HeaderRound(old(Abs()), old(buffer.View())), done)
    {
      hide Find, HeaderLine, Delivered;
      var v := buffer.View();
      var pos := Find(v, CRLF);
      if pos < 0 {
        if |v| > HEADER_LIMIT {
          isValid := false;
        }
        return true;
      }
      if pos == 0 {
        EndOfHeaders();
        return false;
      }
      done := NextHeader(v[..pos]);
      if !done {
        buffer.EraseFront(pos + 2);
      }
    }

    method EndOfHeaders()
      requires Valid() && status.ExpectHeader? && |buffer.View()| >= 2
      modifies this, buffer`head
      ensures Valid() && buffer.View() == old(buffer.View())[2..]
      ensures Abs() == old(Abs()).(status := ExpectBody,
                                   parts := Deliver(old(Abs()).parts, OnHeader(old(currentHeader))))
    {
      buffer.EraseFront(2);
      status := ExpectBody;
      HeaderCallback(currentHeader);
    }

    method NextHeader(line: string) returns (bad: bool)
      requires Valid()
      modifies this`isValid, this`currentHeader
      ensures bad == HeaderLine(old(currentHeader), line).None?
      ensures Abs() == if bad then old(Abs()).(valid := false)
                       else old(Abs()).(header := HeaderLine(old(currentHeader), line).value)
    {
      var next := HeaderLine(currentHeader, line);
      bad := next.None?;
      if bad {
        isValid := false;
      } else {
        currentHeader := next.value;
      }
    }

    method BoundaryCase() returns (done: bool)
      requires Valid() && status.ExpectFirstBoundary? && buffer.View() != ""
      modifies this`status, buffer`head
      ensures Valid() && Did(FirstBoundary(old(Abs()), dashBoundaryCrlf, old(buffer.View())), done)
    {
      var v := buffer.View();
      if |v| < |dashBoundaryCrlf| { return true; }
      var pos := Find(v, dashBoundaryCrlf);
      if pos < 0 {
        buffer.EraseFront(|v| - |dashBoundaryCrlf|);
        return true;
      }
      buffer.EraseFront(pos + |dashBoundaryCrlf|);
      status := ExpectNewEntry;
      return false;
    }

    method BodyCase() returns (done: bool)
      requires Valid() && status.ExpectBody? && buffer.View() != ""
      modifies this, buffer`head
      ensures Valid() && Did(BodyRound(old(Abs()), crlfDashBoundary, old(buffer.View())), done)
    {
      hide Find, AddData;
      var v := buffer.View();
      if |v| < |crlfDashBoundary| { return true; }
      var pos := Find(v, crlfDashBoundary);
      if pos < 0 {
        var len := |v| - |crlfDashBoundary|;
        if len > 0 {
          DataCallback(v[..len]);
          buffer.EraseFront(len);
        }
        return true;
      }
      EndOfPart(v, pos);
      buffer.EraseFront(pos + |crlfDashBoundary|);
      status := ExpectEndOrNewEntry;
      return false;
    }

    /** The last piece of a part, then the zero-length callback unless that piece was it. */
    method EndOfPart(v: string, pos: nat)
      requires pos <= |v| && PhaseAfter(events).InPart?
      modifies this`events
      ensures Delivered(events) == AddData(AddData(old(Delivered(events)), v[..pos]), "")
      ensures PhaseAfter(events).Between?
    {
      DataCallback(v[..pos]);
      if pos > 0 {
        DataCallback("");
      } else {
        EmptyPieceTwice(old(Delivered(events)));
      }
    }

    method EndCase() returns (done: bool)
      requires Valid() && status.ExpectEndOrNewEntry? && buffer.View() != ""
      modifies this, buffer
      ensures Valid() && Did(EndRound(old(Abs()), old(buffer.View())), done)
      ensures buffer.storage == old(buffer.storage) || fresh(buffer.storage)
    {
      var v := buffer.View();
      if |v| < 2 { return true; }
      if StartsWith(v, CRLF) {
        buffer.EraseFront(2);
        status := ExpectNewEntry;
        return false;
      }
      if |v| < |DASH| { return true; }
      if StartsWith(v, DASH) {
        isFinished := true;
        buffer.Clear();
        return true;
      }
      isValid := false;
      return true;
    }
  }
  // ----- the reader -----

  /** What finishCb is called with. */
  datatype Finish = Done | InvalidData | IncompleteData | UpstreamError

  /** The reader between two calls; `rest` matters only while the parser is open. */
  datatype ReaderState = ReaderState(parser: State, rest: string, finishes: seq<Finish>)

  function StartState(contentType: string): ReaderState { ReaderState(Initial(contentType), "", []) }

  function Verdict(s: State): seq<Finish> {
    if !s.valid then [InvalidData] else if s.finished then [Done] else []
  }

  ghost function Receive(r: ReaderState, packet: string): ReaderState {
    if !r.parser.Open() then r
    else
      var f := Whole(r.parser, r.rest + packet);
      ReaderState(f.state, if f.state.Open() && f.Waiting? then f.rest else "", r.finishes + Verdict(f.state))
  }

  ghost function ReceiveAll(r: ReaderState, packets: seq<string>): ReaderState
    decreases |packets|
  {
    if packets == [] then r else ReceiveAll(Receive(r, packets[0]), packets[1..])
  }

  function EndStream(r: ReaderState, failed: bool): ReaderState {
    if !r.parser.Open() then r
    else r.(finishes := r.finishes + [if failed then UpstreamError else IncompleteData])
  }

  class StreamReader {
    const parser: StreamParser
    ghost var finishes: seq<Finish>  // the calls of finishCb so far

    ghost predicate Valid()
      reads this, parser, parser.buffer
    {
      parser.Valid()
    }

    ghost function Abs(): ReaderState
      requires Valid()
      reads this, parser, parser.buffer, parser.buffer.storage
    {
      var s := parser.Abs();
      ReaderState(s, if s.Open() then parser.buffer.View() else "", finishes)
    }

    constructor (contentType: string)
      ensures Valid() && fresh(parser) && fresh(parser.buffer) && fresh(parser.buffer.storage)
      ensures Abs() == StartState(contentType)
    {
      parser := new StreamParser(contentType);
      finishes := [];
    }

    method FinishCallback(f: Finish)
      modifies this`finishes
      ensures finishes == old(finishes) + [f]
    {
      finishes := finishes + [f];
    }

    method OnStreamData(data: string)
      requires Valid()
      modifies this, parser, parser.buffer, parser.buffer.storage
      ensures Valid() && Abs() == Receive(old(Abs()), data)
      ensures parser.buffer.storage == old(parser.buffer.storage) || fresh(parser.buffer.storage)
      ensures PartByPart(parser.events)
    {
      if !parser.isValid || parser.isFinished {
        PhaseMeansPartByPart(parser.events);
        return;
      }
      WholeOpen(parser.Abs(), parser.buffer.View() + data);
      parser.Parse(data);
      PhaseMeansPartByPart(parser.events);
      if !parser.isValid {
        FinishCallback(InvalidData);
      } else if parser.isFinished {
        FinishCallback(Done);
      }
    }

    method OnStreamFinish(failed: bool)
      requires Valid()
      modifies this`finishes
      ensures Valid() && Abs() == EndStream(old(Abs()), failed)
    {
      if !parser.isValid || parser.isFinished {
        return;
      }
      if !failed {
        FinishCallback(IncompleteData);
      } else {
        FinishCallback(UpstreamError);
      }
    }
  }

  /** A parser that was open waits for more data exactly as long as it is still open. */
  lemma {:induction false} WholeOpen(s: State, b: string)
    requires s.Open()
    ensures Whole(s, b).Waiting? <==> Whole(s, b).state.Open()
    decreases |b|, Rank(s)
  {
    ParserCoherent();
    assert Progress(Parser(), s, b);
    WholeStep(s, b);
    match Step(s, b)
    case Advance(t, r) => WholeOpen(t, r);
    case _ =>
  }

  /** The header limit is not passed by any header line of `body`. */
  ghost predicate HeadersFit(contentType: string, body: string) {
    ParserCoherent();
    Fits(Parser(), StartState(contentType).parser, body)
  }

  ghost function AsFinal(r: ReaderState): Final<State> {
    if r.parser.Open() then Waiting(r.parser, r.rest) else Halted(r.parser)
  }

  ghost function Fed(f: Final<State>, packets: seq<string>): Final<State> {
    ParserCoherent();
    FeedAll(Parser(), f, packets)
  }

  lemma {:induction false} ReaderFeeds(r: ReaderState, packets: seq<string>)
    requires r.parser.Open() || r.rest == ""
    ensures ReceiveAll(r, packets).parser == Fed(AsFinal(r), packets).state
    ensures ReceiveAll(r, packets).rest ==
            if Fed(AsFinal(r), packets).Waiting? then Fed(AsFinal(r), packets).rest else ""
    ensures ReceiveAll(r, packets).finishes ==
            r.finishes + if r.parser.Open() then Verdict(ReceiveAll(r, packets).parser) else []
    decreases |packets|
  {
    ParserCoherent();
    if packets == [] {
    } else if r.parser.Open() {
      WholeOpen(r.parser, r.rest + packets[0]);
      var next := Receive(r, packets[0]);
      var f := Feed(Parser(), AsFinal(r), packets[0]);
      ReaderFeeds(next, packets[1..]);
      if !f.Waiting? {
        FeedAllStopped(Parser(), f, packets[1..]);
        FeedAllStopped(Parser(), AsFinal(next), packets[1..]);
      }
    } else {
      FeedAllStopped(Parser(), AsFinal(r), packets);
      ReaderFeeds(r, packets[1..]);
      FeedAllStopped(Parser(), AsFinal(r), packets[1..]);
    }
  }

  lemma FedOnce(f: Final<State>, packets: seq<string>)
    requires packets != [] && (f.Waiting? ==> f.rest == "" && Fit(f.state, Concat(packets)))
    ensures Fed(f, packets) == Fed(f, [Concat(packets)])
  {
    ParserCoherent();
    var whole := [Concat(packets)];
    assert "" + Concat(packets) == Concat(packets);
    FeedAllIsRun(Parser(), f, packets);
    assert FeedAll(Parser(), f, whole) == FeedAll(Parser(), Feed(Parser(), f, whole[0]), whole[1..]);
  }

  /** However the body is cut into packets, the reader delivers the same part headers, the same bytes per part,
      the same verdict and the same calls of finishCb as for the body in one packet. */
  lemma ReaderFragmentation(contentType: string, packets: seq<string>)
    requires packets != [] && HeadersFit(contentType, Concat(packets))
    ensures ReceiveAll(StartState(contentType), packets) == Receive(StartState(contentType), Concat(packets))
  {
    var start := StartState(contentType);
    var whole := [Concat(packets)];
    ReaderFeeds(start, packets);
    ReaderFeeds(start, whole);
    FedOnce(AsFinal(start), packets);
    assert ReceiveAll(start, whole) == ReceiveAll(Receive(start, whole[0]), whole[1..]);
  }

  /** The bodies whose parse no packet boundary can change are exactly those whose header lines stay within the
      limit. */
  lemma HeaderLimitDecides(contentType: string, body: string)
    ensures HeadersFit(contentType, body) <==>
            (forall packets | packets != [] && Concat(packets) == body ::
               ParserCoherent(); Agrees(Parser(), StartState(contentType).parser, body, packets))
  {
    ParserCoherent();
    hide Step;
    FragmentationInvariance(Parser(), StartState(contentType).parser, body);
  }

  lemma {:induction false} OverIsInvalid(s: State, b: string)
    ensures Whole(s, b).OverLimit? ==> !Whole(s, b).state.valid
    decreases |b|, Rank(s)
  {
    WholeStep(s, b);
    hide Whole, HeaderLine, Find;
    if Step(s, b).Advance? {
      OverIsInvalid(Step(s, b).next, Step(s, b).rest);
    }
  }

  /** A body with a header line beyond the limit can be cut so that the reader reports invalid data. */
  lemma TooLongIsInvalid(contentType: string, body: string) returns (packets: seq<string>)
    requires !HeadersFit(contentType, body)
    ensures packets != [] && Concat(packets) == body
    ensures BoundaryOf(contentType).Some? ==>
              ReceiveAll(StartState(contentType), packets).finishes == [InvalidData]
  {
    ParserCoherent();
    hide Step, BoundaryOf;
    var s := StartState(contentType).parser;
    var k := OverLimitPrefix(Parser(), s, body);
    packets := [body[..k], body[k..]];
    assert packets[1..] == [body[k..]] && packets[1..][1..] == [];
    assert Concat([body[k..]]) == body[k..] + Concat([]);
    assert Concat(packets) == body[..k] + body[k..] == body;
    assert "" + body[..k] == body[..k];
    OverIsInvalid(s, body[..k]);
    var r := Receive(StartState(contentType), body[..k]);
    assert BoundaryOf(contentType).Some? ==> r.finishes == [InvalidData] && !r.parser.Open();
    assert BoundaryOf(contentType).Some? ==> Receive(r, body[k..]) == r;
    assert ReceiveAll(r, packets[1..]) == Receive(r, body[k..]);
  }

  /** Over a whole run, data packets and then the end of the stream, finishCb runs exactly once precisely when
      the content type named a boundary; otherwise it never runs. */
  lemma FinishExactlyOnce(contentType: string, packets: seq<string>, failed: bool)
    ensures |EndStream(ReceiveAll(StartState(contentType), packets), failed).finishes| ==
            if BoundaryOf(contentType).Some? then 1 else 0
  {
    ReaderFeeds(StartState(contentType), packets);
  }

  /** The whole protocol does not depend on the packets either: same parts, same single report. */
  lemma FinishSameReport(contentType: string, packets: seq<string>, failed: bool)
    requires packets != [] && HeadersFit(contentType, Concat(packets))
    ensures EndStream(ReceiveAll(StartState(contentType), packets), failed).finishes ==
            EndStream(Receive(StartState(contentType), Concat(packets)), failed).finishes
  {
    ReaderFragmentation(contentType, packets);
  }

  /** Which report it is: the error of the sender or of the body when nothing was wrong with what came. */
  lemma FinishReports(contentType: string, packets: seq<string>, failed: bool)
    ensures var r := ReceiveAll(StartState(contentType), packets);
            var reports := EndStream(r, failed).finishes;
            && (BoundaryOf(contentType).Some? && r.parser.valid && !r.parser.finished ==>
                  reports == [if failed then UpstreamError else IncompleteData])
            && (BoundaryOf(contentType).Some? && r.parser.valid && r.parser.finished ==> reports == [Done])
            && (BoundaryOf(contentType).Some? && !r.parser.valid ==> reports == [InvalidData])
  {
    hide BoundaryOf, Whole, Fed, ReceiveAll;
    ReaderFeeds(StartState(contentType), packets);
  }

  // ----- the boundary of a content type -----

  /** A boundary as the value of a parameter: quoted, or plain up to a semicolon or the end. */
  predicate Spells(text: string, b: string) {
    if text != "" && text[0] == '"' then '"' !in b && (text == "\"" + b || StartsWith(text, "\"" + b + "\""))
    else ';' !in b && (text == b || StartsWith(text, b + ";"))
  }

  /** `text` from `at` on is read as the boundary it spells. */
  lemma BoundarySpelled(before: string, text: string, b: string)
    requires Spells(text, b)
    ensures BoundaryFrom(before + text, |before|) == b
  {
    hide FindFrom, At;
    var s, at := before + text, |before|;
    if text != "" && text[0] == '"' {
      assert s[at] == '"';
      if text == "\"" + b {
        assert s == (before + "\"") + b && |before + "\""| == at + 1;
        NotFound(before + "\"", b, '"');
        assert s[at + 1..] == b;
      } else {
        var behind := text[|b| + 2..];
        assert text == "\"" + b + "\"" + behind;
        assert s == (before + "\"") + (b + "\"" + behind);
        CharFound(before + "\"", b, '"', behind);
      }
    } else {
      assert at < |s| ==> s[at] == text[0];
      if text == b {
        NotFound(before, b, ';');
        assert s[at..] == b;
      } else {
        var behind := text[|b| + 1..];
        assert text == b + ";" + behind;
        CharFound(before, b, ';', behind);
      }
    }
  }

  lemma NotFound(before: string, b: string, c: char)
    requires c !in b
    ensures FindFrom(before + b, [c], |before|) < 0
  {
    hide FindFrom, At;
    var s := before + b;
    forall i | |before| <= i
      ensures !At(s, [c], i)
    {
      AtInside(s, [c], i);
      if i < |s| {
        SingleAt(s, c, i);
        assert s[i] == b[i - |before|];
      }
    }
  }

  lemma AtInside(s: string, p: string, i: int)
    requires p != ""
    ensures At(s, p, i) ==> 0 <= i < |s|
  {
  }

  lemma AtBehind(head: string, p: string, text: string)
    ensures At(head + p + text, p, |head|)
  {
    assert (head + p + text)[|head|..|head| + |p|] == p;
  }

  lemma ParameterNamed(s: string, head: string, multipart: string, p: string, text: string, b: string)
    requires s == head + p + text && |multipart| <= |head| && StartsWithIgnoreCase(s, multipart) && Spells(text, b)
    requires forall i | |multipart| <= i < |head| :: !At(s, p, i)
    ensures ParameterOf(s, multipart, p) == Some(b)
  {
    hide FindFrom, At, BoundaryFrom, Spells, ParameterOf, StartsWithIgnoreCase;
    AtBehind(head, p, text);
    FindFromIs(s, p, |multipart|, |head|);
    BoundarySpelled(head + p, text, b);
    ParameterIs(s, multipart, p, |head|);
  }

  lemma StartsStays(head: string, p: string, text: string, multipart: string)
    requires |head| >= |multipart| && LowerAll(head[..|multipart|]) == LowerAll(multipart)
    ensures StartsWithIgnoreCase(head + p + text, multipart)
  {
    hide LowerAll;
    assert (head + p + text)[..|multipart|] == head[..|multipart|];
  }

  lemma ParameterIs(s: string, multipart: string, p: string, k: nat)
    requires StartsWithIgnoreCase(s, multipart) && FindFrom(s, p, |multipart|) == k && k + |p| <= |s|
    ensures ParameterOf(s, multipart, p) == Some(BoundaryFrom(s, k + |p|))
  {
    hide FindFrom, BoundaryFrom, StartsWithIgnoreCase;
  }

  lemma ParameterWhen(s: string, multipart: string, p: string)
    requires p != ""
    ensures ParameterOf(s, multipart, p).Some? <==>
            && |s| >= |multipart| && LowerAll(s[..|multipart|]) == LowerAll(multipart)
            && exists i | |multipart| <= i < |s| :: At(s, p, i)
  {
    hide FindFrom, At, BoundaryFrom;
    if |s| >= |multipart| {
      var f := FindFrom(s, p, |multipart|);
      if f >= 0 {
        AtInside(s, p, f);
      }
    }
  }

  const MULTIPART: string := "multipart/form-data"
  const BOUNDARY_EQ: string := "boundary="

  /** A multipart/form-data content type with a boundary parameter gives a valid parser with that boundary, whatever
      the case of the type and whatever stands before the parameter and behind it. */
  lemma BoundaryNamed(head: string, text: string, b: string)
    requires |head| >= |MULTIPART| && LowerAll(head[..|MULTIPART|]) == LowerAll(MULTIPART) && Spells(text, b)
    requires forall i | |MULTIPART| <= i < |head| :: !At(head + BOUNDARY_EQ + text, BOUNDARY_EQ, i)
    ensures BoundaryOf(head + BOUNDARY_EQ + text) == Some(b)
    ensures Initial(head + BOUNDARY_EQ + text) == State(b, ExpectFirstBoundary, NO_HEADER, true, false, [])
  {
    hide At, Spells, ParameterOf, LowerAll;
    StartsStays(head, BOUNDARY_EQ, text, MULTIPART);
    ParameterNamed(head + BOUNDARY_EQ + text, head, MULTIPART, BOUNDARY_EQ, text, b);
  }

  /** No other content type gives a valid parser. */
  lemma ValidWhenNamed(contentType: string)
    ensures StartState(contentType).parser.valid <==>
            && |contentType| >= |MULTIPART| && LowerAll(contentType[..|MULTIPART|]) == LowerAll(MULTIPART)
            && exists i | |MULTIPART| <= i < |contentType| :: At(contentType, BOUNDARY_EQ, i)
  {
    hide At, ParameterOf, LowerAll;
    ParameterWhen(contentType, MULTIPART, BOUNDARY_EQ);
  }

  /** The content types a client prints, up to the boundary. */
  const UPLOAD: string := "multipart/form-data; boundary="

  lemma PrintedBoundary(b: string, behind: string)
    requires ';' !in b && '"' !in b
    ensures BoundaryOf(UPLOAD + b) == Some(b) && BoundaryOf(UPLOAD + b + ";" + behind) == Some(b)
    ensures BoundaryOf(UPLOAD + "\"" + b + "\"" + behind) == Some(b)
    ensures var start := State(b, ExpectFirstBoundary, NO_HEADER, true, false, []);
            && StartState(UPLOAD + b).parser == start && StartState(UPLOAD + b + ";" + behind).parser == start
            && StartState(UPLOAD + "\"" + b + "\"" + behind).parser == start
  {
    hide BoundaryOf, Spells;
    SpellsPlain(b, behind);
    SpellsQuoted(b, behind);
    PrintedNamed(b, b);
    PrintedNamed(b + ";" + behind, b);
    Regroup(UPLOAD, b + ";", behind);
    Regroup(UPLOAD, b, ";");
    PrintedNamed("\"" + b + "\"" + behind, b);
    Regroup(UPLOAD, "\"" + b + "\"", behind);
    Regroup(UPLOAD, "\"" + b, "\"");
    Regroup(UPLOAD, "\"", b);
  }

  lemma SpellsPlain(b: string, behind: string)
    requires ';' !in b && '"' !in b
    ensures Spells(b, b) && Spells(b + ";" + behind, b)
  {
    assert (b + ";" + behind)[..|b| + 1] == b + ";";
    assert (b + ";" + behind)[0] == if b == "" then ';' else b[0];
  }

  lemma SpellsQuoted(b: string, behind: string)
    requires '"' !in b
    ensures Spells("\"" + b + "\"" + behind, b)
  {
    var quoted := "\"" + b + "\"" + behind;
    assert quoted[..|b| + 2] == "\"" + b + "\"" && quoted[0] == '"';
  }

  lemma PrintedNamed(text: string, b: string)
    requires Spells(text, b)
    ensures BoundaryOf(UPLOAD + text) == Some(b)
    ensures StartState(UPLOAD + text).parser == State(b, ExpectFirstBoundary, NO_HEADER, true, false, [])
  {
    var head := MULTIPART + "; ";
    assert head[..|MULTIPART|] == MULTIPART;
    assert UPLOAD == head + BOUNDARY_EQ;
    forall i | |MULTIPART| <= i < |head|
      ensures !At(head + BOUNDARY_EQ + text, BOUNDARY_EQ, i)
    {
      SeparatorDiffers(MULTIPART, "; ", BOUNDARY_EQ, text, i - |MULTIPART|);
    }
    hide At, Spells, BoundaryOf, LowerAll;
    BoundaryNamed(head, text, b);
  }

  lemma SeparatorDiffers(multipart: string, between: string, p: string, text: string, k: int)
    requires 0 <= k < |between| && p != "" && between[k] != p[0]
    ensures !At(multipart + between + p + text, p, |multipart| + k)
  {
    var s, i := multipart + between + p + text, |multipart| + k;
    assert s[i] == between[k];
    assert i + |p| <= |s| ==> s[i..i + |p|][0] == s[i];
  }
}
