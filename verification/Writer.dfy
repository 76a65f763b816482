/** Writing responses to a connection: one at a time (sendResponse) and batched through a send buffer (sendResponses).
    What must not depend on batching is the sequence of bytes and stream starts on the wire. */
module Writer {
  import opened Bytes
  import opened ByteQueue

  /** A response as the writer sees it: the rendered header sections (with the blank line), and what delivers a body. */
  datatype Response = Response(
    code: int,
    header: string,       // status line and headers, as rendered for other methods
    headHeader: string,   // as rendered for HEAD
    body: string,
    cached: bool,         // expriedTime_ >= 0
    close: bool,          // ifCloseConnection()
    http10: bool,
    async: bool,          // an asyncStreamCallback is set
    stream: Option<nat>,  // a streamCallback, by number
    chunkedHeader: bool,  // transfer-encoding: chunked
    file: string, offset: nat, length: nat)
  {
    /** contentLengthIsAllowed() */
    predicate MayCarryBody() { (code >= 200 || code < 100) && code != 204 }
  }

  datatype Reply = Reply(resp: Response, head: bool)

  /** What happens on a connection. */
  datatype Transfer =
    | Bytes(data: string)
    | AsyncStream
    | Stream(callback: nat, chunked: bool)
    | File(name: string, offset: nat, length: nat)
    | Shutdown

  /** The wire, byte by byte: how bytes were grouped into sends is forgotten. */
  datatype Item = Byte(c: char) | Other(e: Transfer)

  function Spell(s: string): (r: seq<Item>)
    ensures |r| == |s| && forall i | 0 <= i < |s| :: r[i] == Byte(s[i])
  {
    seq(|s|, i requires 0 <= i < |s| => Byte(s[i]))
  }

  lemma SpellConcat(a: string, b: string)
    ensures Spell(a + b) == Spell(a) + Spell(b)
  {
  }

  function Wire(log: seq<Transfer>): seq<Item> {
    if log == [] then []
    else
      var last := log[|log| - 1];
      Wire(log[..|log| - 1]) + if last.Bytes? then Spell(last.data) else [Other(last)]
  }

  // ----- the specification -----

  /** renderToBuffer(), and renderToBuffer(buffer) for the batch. */
  function Render(r: Response, batched: bool): string {
    if batched && !r.cached && !r.MayCarryBody() then r.header else r.header + r.body
  }

  function Streams(r: Response): seq<Item> {
    (if r.async && !r.http10 then [Other(AsyncStream)] else []) +
    (if r.stream.Some? then [Other(Stream(r.stream.value, !r.close && r.chunkedHeader))]
     else if r.file != "" then [Other(File(r.file, r.offset, r.length))] else [])
  }

  /** Whether the connection is shut down behind this response: not for 1xx and 204, which return before the check. */
  predicate Closes(p: Reply) { p.resp.close && (p.head || p.resp.MayCarryBody()) }

  function Payload(p: Reply, batched: bool): seq<Item> {
    if p.head then Spell(p.resp.headHeader)
    else Spell(Render(p.resp, batched)) + if p.resp.MayCarryBody() then Streams(p.resp) else []
  }

  function Written(p: Reply, batched: bool): seq<Item> {
    Payload(p, batched) + if Closes(p) then [Other(Shutdown)] else []
  }

  /** The responses written: up to and including the first that closes. */
  function UpToClose(replies: seq<Reply>): seq<Reply> {
    if replies == [] then []
    else if Closes(replies[0]) then replies[..1]
    else [replies[0]] + UpToClose(replies[1..])
  }

  lemma {:induction false} UpToCloseIs(replies: seq<Reply>)
    ensures var r := UpToClose(replies);
            r <= replies && (forall k | 0 <= k < |r| - 1 :: !Closes(r[k])) &&
            (r == replies || (r != [] && Closes(r[|r| - 1])))
  {
    hide Closes;
    if replies != [] && !Closes(replies[0]) {
      UpToCloseIs(replies[1..]);
      assert replies == [replies[0]] + replies[1..];
    }
  }

  function WrittenAll(replies: seq<Reply>, batched: bool): seq<Item> {
    if replies == [] then []
    else WrittenAll(replies[..|replies| - 1], batched) + Written(replies[|replies| - 1], batched)
  }

  /** Both renderers give the same bytes. */
  predicate RendersAlike(p: Reply) {
    p.head || p.resp.cached || p.resp.MayCarryBody() || p.resp.body == ""
  }

  predicate AllAlike(replies: seq<Reply>) {
    forall k | 0 <= k < |replies| :: RendersAlike(replies[k])
  }

  // ----- the batch refines one at a time -----

  /** The two renderers differ in the body, and only for a reply that RendersAlike excludes. */
  lemma WrittenAlike(p: Reply)
    ensures Written(p, false) == Written(p, true) + if RendersAlike(p) then [] else Spell(p.resp.body)
  {
    assert p.resp.body == "" ==> p.resp.header + p.resp.body == p.resp.header;
    if !RendersAlike(p) {
      SpellConcat(p.resp.header, p.resp.body);
    }
  }

  lemma {:induction false} WrittenAllAlike(replies: seq<Reply>)
    ensures |WrittenAll(replies, true)| <= |WrittenAll(replies, false)|
    ensures AllAlike(replies) ==> WrittenAll(replies, true) == WrittenAll(replies, false)
    ensures |WrittenAll(replies, true)| == |WrittenAll(replies, false)| ==> AllAlike(replies)
  {
    hide Written, RendersAlike;
    if replies != [] {
      WrittenAllAlike(replies[..|replies| - 1]);
      WrittenAlike(replies[|replies| - 1]);
      BodyNotEmpty(replies[|replies| - 1]);
    }
  }

  lemma BodyNotEmpty(p: Reply)
    ensures !RendersAlike(p) ==> |Spell(p.resp.body)| > 0
  {
  }

  /** What sendResponses puts on the wire, one response being sent directly. */
  function Batch(replies: seq<Reply>): seq<Item> { WrittenAll(UpToClose(replies), |replies| != 1) }

  function OneByOne(replies: seq<Reply>): seq<Item> { WrittenAll(UpToClose(replies), false) }

  /** A batch is the same on the wire as calling sendResponse on each response up to the first closing one, exactly when
      it is a single response or no 1xx or 204 response among them has a body that the batch leaves out. */
  lemma BatchRefines(replies: seq<Reply>)
    ensures Batch(replies) == OneByOne(replies) <==>
            |replies| == 1 || AllAlike(UpToClose(replies))
  {
    hide AllAlike, Written, WrittenAll, UpToClose;
    WrittenAllAlike(UpToClose(replies));
  }

  /** In particular for responses that may carry a body, whatever their number, streams and close flags. */
  lemma BatchOfOrdinaryResponses(replies: seq<Reply>)
    requires forall k | 0 <= k < |replies| :: replies[k].head || replies[k].resp.MayCarryBody()
    ensures Batch(replies) == OneByOne(replies)
  {
    hide Written;
    UpToCloseIs(replies);
    BatchRefines(replies);
  }

  /** Two 204 responses with a body: sent one at a time both bodies reach the wire, in a batch none does. */
  lemma BatchLosesBodies(r: Response)
    requires r.code == 204 && !r.cached && r.body != ""
    ensures var replies := [Reply(r, false), Reply(r, false)];
            && Batch(replies) == Spell(r.header + r.header)
            && OneByOne(replies) == Spell(r.header + r.body + r.header + r.body)
            && Batch(replies) != OneByOne(replies)
  {
    var p := Reply(r, false);
    TwoKept(p);
    TwoWritten(p, true);
    TwoWritten(p, false);
    hide WrittenAll, UpToClose;
    SpellConcat(r.header, r.header);
    SpellConcat(r.header + r.body, r.header + r.body);
    assert r.header + r.body + r.header + r.body == (r.header + r.body) + (r.header + r.body);
    assert Written(p, true) == Spell(r.header) && Written(p, false) == Spell(r.header + r.body);
    assert |Batch([p, p])| < |OneByOne([p, p])|;
  }

  lemma TwoKept(p: Reply)
    requires !Closes(p)
    ensures UpToClose([p, p]) == [p, p]
  {
    hide Closes;
    assert !AnyCloses([p, p]);
    UpToCloseAll([p, p]);
  }

  lemma TwoWritten(p: Reply, batched: bool)
    ensures WrittenAll([p, p], batched) == Written(p, batched) + Written(p, batched)
  {
    hide Written;
    assert [p, p][..1] == [p] && [p][..0] == [];
    assert WrittenAll([p], batched) == WrittenAll([], batched) + Written(p, batched);
    assert [] + Written(p, batched) == Written(p, batched);
  }

  lemma {:induction false} WrittenConcat(a: seq<Reply>, b: seq<Reply>, batched: bool)
    ensures WrittenAll(a + b, batched) == WrittenAll(a, batched) + WrittenAll(b, batched)
    decreases |b|
  {
    hide Written;
    if b == [] {
      assert a + b == a;
    } else {
      var front := b[..|b| - 1];
      assert (a + b)[..|a + b| - 1] == a + front;
      WrittenConcat(a, front, batched);
    }
  }

  predicate AnyCloses(replies: seq<Reply>) {
    exists k | 0 <= k < |replies| :: Closes(replies[k])
  }

  lemma AnyClosesHead(replies: seq<Reply>)
    requires replies != []
    ensures AnyCloses(replies) <==> Closes(replies[0]) || AnyCloses(replies[1..])
  {
    hide Closes;
    var rest := replies[1..];
    assert forall k | 0 <= k < |rest| :: rest[k] == replies[k + 1];
    if AnyCloses(replies) && !Closes(replies[0]) {
      var k :| 0 <= k < |replies| && Closes(replies[k]);
      assert Closes(rest[k - 1]);
    }
    if AnyCloses(rest) {
      var k :| 0 <= k < |rest| && Closes(rest[k]);
      assert Closes(replies[k + 1]);
    }
  }

  /** Writing goes on behind a batch unless the batch closed the connection. */
  lemma {:induction false} UpToCloseOpen(replies: seq<Reply>, more: seq<Reply>)
    ensures UpToClose(replies + more) == if AnyCloses(replies) then UpToClose(replies) else replies + UpToClose(more)
    decreases |replies|
  {
    hide Closes, AnyCloses;
    var all := replies + more;
    if replies == [] {
      assert all == more;
      NoneCloses();
    } else {
      var rest := replies[1..];
      assert all[0] == replies[0] && all[1..] == rest + more && all[..1] == replies[..1];
      UpToCloseOpen(rest, more);
      AnyClosesHead(replies);
      Regroup([replies[0]], rest, UpToClose(more));
      assert [replies[0]] + rest == replies;
    }
  }

  lemma AnyClosesConcat(a: seq<Reply>, b: seq<Reply>)
    ensures AnyCloses(a + b) <==> AnyCloses(a) || AnyCloses(b)
  {
    hide Closes;
    if AnyCloses(a) {
      var k :| 0 <= k < |a| && Closes(a[k]);
      assert Closes((a + b)[k]);
    }
    if AnyCloses(b) {
      var k :| 0 <= k < |b| && Closes(b[k]);
      assert Closes((a + b)[|a| + k]);
    }
  }

  lemma AllAlikeConcat(a: seq<Reply>, b: seq<Reply>)
    ensures AllAlike(a + b) <==> AllAlike(a) && AllAlike(b)
  {
    hide RendersAlike;
    assert forall k | 0 <= k < |a| :: (a + b)[k] == a[k];
    assert forall k | 0 <= k < |b| :: (a + b)[|a| + k] == b[k];
  }

  lemma UpToCloseAll(replies: seq<Reply>)
    requires !AnyCloses(replies)
    ensures UpToClose(replies) == replies
  {
    hide Closes;
    UpToCloseIs(replies);
  }

  lemma NoneCloses()
    ensures !AnyCloses([])
  {
  }

  // ----- the connection and the two writers -----

  /** trantor's TcpConnection, as far as responses are concerned. */
  class TcpConnection {
    var log: seq<Transfer>
    var connected: bool

    constructor ()
      ensures log == [] && connected
    {
      log, connected := [], true;
    }

    method Put(e: Transfer)
      modifies this`log
      ensures log == old(log) + [e]
      ensures Wire(log) == old(Wire(log)) + if e.Bytes? then Spell(e.data) else [Other(e)]
    {
      log := log + [e];
      assert log[..|log| - 1] == old(log);
    }

    method Shut()
      modifies this
      ensures !connected && Wire(log) == old(Wire(log)) + [Other(Shutdown)]
    {
      Put(Shutdown);
      connected := false;
    }
  }

  /** conn->send(buffer); buffer.retrieveAll(); */
  method Flush(conn: TcpConnection, buffer: MsgBuffer)
    modifies conn`log, buffer
    ensures Wire(conn.log) == old(Wire(conn.log)) + Spell(old(buffer.data)) && buffer.data == ""
  {
    conn.Put(Bytes(buffer.data));
    buffer.Retrieve(|buffer.data|);
  }

  /** The stream, or else the file, behind the header. */
  method StartStream(conn: TcpConnection, r: Response)
    modifies conn`log
    ensures Wire(conn.log) == old(Wire(conn.log)) + Streams(r.(async := false))
  {
    if r.stream.Some? {
      conn.Put(Stream(r.stream.value, !r.close && r.chunkedHeader));
    } else if r.file != "" {
      conn.Put(File(r.file, r.offset, r.length));
    }
  }

  lemma NothingSpelled()
    ensures Spell("") == []
  {
  }

  lemma NoStreams(r: Response)
    ensures !r.async && r.stream.None? && r.file == "" ==> Streams(r) == []
  {
  }

  lemma AsyncFirst(r: Response)
    ensures Streams(r) == (if r.async && !r.http10 then [Other(AsyncStream)] else []) + Streams(r.(async := false))
  {
  }

  method SendResponse(conn: TcpConnection, response: Response, isHeadMethod: bool)
    modifies conn
    ensures Wire(conn.log) == old(Wire(conn.log)) + Written(Reply(response, isHeadMethod), false)
    ensures conn.connected == (old(conn.connected) && !Closes(Reply(response, isHeadMethod)))
  {
    hide Payload, Wire;
    SendPayload(conn, response, isHeadMethod);
    if !isHeadMethod && !response.MayCarryBody() {
      return;
    }
    if response.close {
      conn.Shut();
    }
  }

  method SendPayload(conn: TcpConnection, response: Response, isHeadMethod: bool)
    modifies conn`log
    ensures Wire(conn.log) == old(Wire(conn.log)) + Payload(Reply(response, isHeadMethod), false)
  {
    hide Streams, Render, Wire;
    ghost var before := Wire(conn.log);
    if isHeadMethod {
      conn.Put(Bytes(response.headHeader));
      return;
    }
    conn.Put(Bytes(Render(response, false)));
    if !response.MayCarryBody() {
      return;
    }
    if response.async && !response.http10 {
      conn.Put(AsyncStream);
    }
    StartStream(conn, response);
    AsyncFirst(response);
    assert Wire(conn.log) == before + (Spell(Render(response, false)) + Streams(response));
  }

  method SendResponses(conn: TcpConnection, responses: seq<Reply>, buffer: MsgBuffer)
    requires conn.connected && buffer.data == ""
    modifies conn, buffer
    ensures Wire(conn.log) == old(Wire(conn.log)) + Batch(responses) && buffer.data == ""
    ensures conn.connected == !AnyCloses(responses)
  {
    hide Written, Wire;
    if responses == [] {
      assert Wire(conn.log) + [] == Wire(conn.log);
      return;
    }
    if |responses| == 1 {
      SendResponse(conn, responses[0].resp, responses[0].head);
      Single(responses[0]);
      assert responses == [responses[0]];
      return;
    }
    ghost var before := Wire(conn.log);
    for i := 0 to |responses|
      invariant forall k | 0 <= k < i :: !Closes(responses[k])
      invariant conn.connected && Wire(conn.log) + Spell(buffer.data) == before + WrittenAll(responses[..i], true)
    {
      WriteOne(conn, responses[i], buffer);
      assert responses[..i + 1][..i] == responses[..i];
      assert before + WrittenAll(responses[..i], true) + Written(responses[i], true) ==
             before + WrittenAll(responses[..i + 1], true);
      if Closes(responses[i]) {
        FirstClose(responses, i);
        return;
      }
    }
    Flush(conn, buffer);
    assert responses[..|responses|] == responses;
    UpToCloseIs(responses);
  }

  lemma Single(p: Reply)
    ensures Batch([p]) == Written(p, false)
    ensures AnyCloses([p]) <==> Closes(p)
  {
    hide Written, Closes;
    assert [p][1..] == [] && [p][..0] == [] && [p][..1] == [p] && [p][0] == p;
    assert UpToClose([p]) == [p] && |[p]| == 1;
    assert WrittenAll([p], false) == WrittenAll([], false) + Written(p, false);
    assert [] + Written(p, false) == Written(p, false);
  }

  lemma {:induction false} FirstClose(replies: seq<Reply>, i: nat)
    requires i < |replies| && Closes(replies[i]) && forall k | 0 <= k < i :: !Closes(replies[k])
    ensures UpToClose(replies) == replies[..i + 1]
  {
    hide Closes;
    if i > 0 {
      assert replies[1..][i - 1] == replies[i];
      FirstClose(replies[1..], i - 1);
      assert [replies[0]] + replies[1..][..i] == replies[..i + 1];
    }
  }

  /** One turn of the loop: rendered into the buffer, which is sent before a stream and before the shutdown. */
  method WriteOne(conn: TcpConnection, p: Reply, buffer: MsgBuffer)
    requires conn.connected
    modifies conn, buffer
    ensures Wire(conn.log) + Spell(buffer.data) == old(Wire(conn.log) + Spell(buffer.data)) + Written(p, true)
    ensures conn.connected == !Closes(p) && (Closes(p) ==> buffer.data == "")
  {
    hide Payload, Wire;
    WritePayload(conn, p, buffer);
    if !p.head && !p.resp.MayCarryBody() {
      return;
    }
    if p.resp.close {
      CloseAfter(conn, buffer);
      assert Spell(buffer.data) == [];
    }
  }

  method WritePayload(conn: TcpConnection, p: Reply, buffer: MsgBuffer)
    modifies conn`log, buffer
    ensures Wire(conn.log) + Spell(buffer.data) == old(Wire(conn.log) + Spell(buffer.data)) + Payload(p, true)
  {
    hide Streams, Render, Wire, Spell;
    var text := if p.head then p.resp.headHeader else Render(p.resp, true);
    SpellConcat(buffer.data, text);
    ghost var before := Wire(conn.log) + Spell(buffer.data);
    buffer.Append(text);
    assert Wire(conn.log) + Spell(buffer.data) == before + Spell(text);
    if !p.head && p.resp.MayCarryBody() {
      WriteStreams(conn, p.resp, buffer);
    }
  }

  method CloseAfter(conn: TcpConnection, buffer: MsgBuffer)
    modifies conn, buffer
    ensures Wire(conn.log) == old(Wire(conn.log) + Spell(buffer.data)) + [Other(Shutdown)]
    ensures !conn.connected && buffer.data == ""
  {
    if |buffer.data| > 0 {
      Flush(conn, buffer);
    } else {
      assert Spell(buffer.data) == [];
    }
    conn.Shut();
  }

  method WriteStreams(conn: TcpConnection, r: Response, buffer: MsgBuffer)
    modifies conn`log, buffer
    ensures Wire(conn.log) + Spell(buffer.data) == old(Wire(conn.log) + Spell(buffer.data)) + Streams(r)
  {
    hide Wire, Spell, Streams;
    AsyncFirst(r);
    NothingSpelled();
    if r.async {
      Flush(conn, buffer);
      if !r.http10 {
        conn.Put(AsyncStream);
      }
    }
    if r.stream.Some? || r.file != "" {
      Flush(conn, buffer);
      StartStream(conn, r);
    } else {
      NoStreams(r.(async := false));
    }
  }
}
