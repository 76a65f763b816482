/** From the server's writer to the client's callbacks: responses written as a batch reach the requests they answer. */
module EndToEnd {
  import opened Bytes
  import opened Incremental
  import Client
  import opened ResponseParser
  import opened ResponseReceiver
  import opened ResponseText
  import Writer
  import RequestText

  // ----- what goes over the wire -----

  /** The bytes among what happens on the wire. */
  function BytesOf(items: seq<Writer.Item>): string {
    if items == [] then ""
    else (if items[0].Byte? then [items[0].c] else "") + BytesOf(items[1..])
  }

  lemma {:induction false} BytesOfSpelled(s: string, more: seq<Writer.Item>)
    ensures BytesOf(Writer.Spell(s) + more) == s + BytesOf(more)
  {
    var all := Writer.Spell(s) + more;
    if s == "" {
      assert all == more;
    } else {
      assert all[0] == Writer.Byte(s[0]) && all[1..] == Writer.Spell(s[1..]) + more;
      BytesOfSpelled(s[1..], more);
    }
  }

  /** What one response puts on the wire besides bytes: its stream or file unless it has no body, and the shutdown if it
      asks for one; 1xx and 204 responses to other methods than HEAD never shut the connection down. */
  lemma TransfersOf(p: Writer.Reply, batched: bool)
    ensures var w, r := Writer.Written(p, batched), p.resp;
            var body := !p.head && (r.code < 100 || (200 <= r.code && r.code != 204));
            && (Writer.Other(Writer.AsyncStream) in w <==> body && r.async && !r.http10)
            && (forall cb: nat, chunked: bool :: Writer.Other(Writer.Stream(cb, chunked)) in w <==>
                  body && r.stream == Some(cb) && chunked == (r.chunkedHeader && !r.close))
            && (forall name: string, from: nat, n: nat :: Writer.Other(Writer.File(name, from, n)) in w <==>
                  body && r.stream.None? && r.file != "" && name == r.file && from == r.offset && n == r.length)
            && (Writer.Other(Writer.Shutdown) in w <==> r.close && (p.head || body))
  {
    var w, r := Writer.Written(p, batched), p.resp;
    var body := !p.head && (r.code < 100 || (200 <= r.code && r.code != 204));
    var streams := if body then Writer.Streams(r) else [];
    OnlyBytes(if p.head then r.headHeader else Writer.Render(r, batched));
    assert forall e :: Writer.Other(e) in w <==>
             Writer.Other(e) in streams || (e == Writer.Shutdown && r.close && (p.head || body)) by {
      hide Writer.Spell, Writer.Render, Writer.Streams;
    }
    hide Writer.Written;
    StreamsOf(r);
  }

  lemma OnlyBytes(s: string)
    ensures forall e :: Writer.Other(e) !in Writer.Spell(s)
  {
  }

  lemma StreamsOf(r: Writer.Response)
    ensures var w := Writer.Streams(r);
            && (Writer.Other(Writer.AsyncStream) in w <==> r.async && !r.http10)
            && (forall cb: nat, chunked: bool :: Writer.Other(Writer.Stream(cb, chunked)) in w <==>
                  r.stream == Some(cb) && chunked == (r.chunkedHeader && !r.close))
            && (forall name: string, from: nat, n: nat :: Writer.Other(Writer.File(name, from, n)) in w <==>
                  r.stream.None? && r.file != "" && name == r.file && from == r.offset && n == r.length)
            && Writer.Other(Writer.Shutdown) !in w
  {
  }

  // ----- printed responses through the writer -----

  /** The header section with the empty line. */
  function Section(m: Message): string {
    StatusLine(m) + CRLF + (RequestText.Lines(m.fields) + (RequestText.Lines(FormField(m.form)) + CRLF))
  }

  /** A response held in memory, as the server renders it. */
  function Rendered(m: Message, close: bool): Writer.Response
    requires !m.form.Chunked?
  {
    Writer.Response(m.code, Section(m), Section(m), BodyText(m.form, false), false, close, !m.http11, false, None,
                    false, "", 0, 0)
  }

  /** In memory, with a body only where one is allowed. */
  predicate Held(m: Message) {
    !m.form.Chunked? && (m.form.Sized? && m.form.data != "" ==> m.code < 100 || (200 <= m.code && m.code != 204))
  }

  /** The responses to the requests of a client in the order it sent them, HEAD or not. */
  function RepliesTo(c: Client.Client<Response>, ms: seq<Message>, close: bool): seq<Writer.Reply>
    requires Awaited(c, ms) && forall i | 0 <= i < |ms| :: Held(ms[i])
    decreases |ms|
  {
    if ms == [] then []
    else
      assert Held(ms[0]);
      [Writer.Reply(Rendered(ms[0], close && |ms| == 1), c.inflight[0] in c.heads)] +
      RepliesTo(Answered(c, ms[0]), ms[1..], close)
  }

  lemma RenderedAlike(m: Message, close: bool, head: bool, batched: bool)
    requires Held(m)
    ensures var p := Writer.Reply(Rendered(m, close), head);
            Writer.Written(p, batched) ==
            Writer.Spell(Text(m, head)) + if Writer.Closes(p) then [Writer.Other(Writer.Shutdown)] else []
  {
    hide StatusLine, RequestText.Lines, FormField;
    TextIsSection(m, head);
    var p := Writer.Reply(Rendered(m, close), head);
    assert Writer.Streams(p.resp) == [];
    assert Section(m) + "" == Section(m);
  }

  lemma TextIsSection(m: Message, head: bool)
    requires !m.form.Chunked?
    ensures Text(m, head) == Section(m) + BodyText(m.form, head)
  {
    hide StatusLine, RequestText.Lines, FormField, BodyText;
    var a, b, c := StatusLine(m) + CRLF, RequestText.Lines(m.fields), RequestText.Lines(FormField(m.form));
    var d := BodyText(m.form, head);
    assert (a + (b + (c + CRLF))) + d == a + (b + (c + (CRLF + d)));
  }

  /** The only response that may close the connection is the last. */
  lemma {:induction false} WrittenTexts(c: Client.Client<Response>, ms: seq<Message>, close: bool, batched: bool)
    requires Awaited(c, ms) && (forall i | 0 <= i < |ms| :: Held(ms[i]) && Plain(ms[i]))
    ensures var replies := RepliesTo(c, ms, close);
            && |replies| == |ms| && Writer.UpToClose(replies) == replies
            && Writer.WrittenAll(replies, batched) ==
               Writer.Spell(Texts(c, ms)) +
               (if Writer.AnyCloses(replies) then [Writer.Other(Writer.Shutdown)] else [])
            && (Writer.AnyCloses(replies) <==> ms != [] && Writer.Closes(replies[|ms| - 1]))
    decreases |ms|
  {
    hide Writer.Closes, Writer.Written, Writer.AnyCloses, Writer.WrittenAll, Writer.UpToClose, Writer.Spell, Text,
         Plain, Held, Rendered, Answered;
    var replies := RepliesTo(c, ms, close);
    if ms == [] {
      Writer.NoneCloses();
      NothingSpelled();
    } else {
      assert Held(ms[0]) && Plain(ms[0]);
      HeldForm(ms[0], close && |ms| == 1);
      var head := c.inflight[0] in c.heads;
      var p, rest := replies[0], RepliesTo(Answered(c, ms[0]), ms[1..], close);
      assert replies == [p] + rest;
      RenderedAlike(ms[0], close && |ms| == 1, head, batched);
      if |ms| == 1 {
        assert rest == [] && replies == [p] && Text(ms[0], head) + "" == Text(ms[0], head);
        assert ms[1..] == [];
        LastWritten(p, batched);
      } else {
        WrittenTexts(Answered(c, ms[0]), ms[1..], close, batched);
        NotClosing(p);
        assert replies[|ms| - 1] == rest[|ms| - 2];
        WrittenBefore(p, rest, batched, Text(ms[0], head), Texts(Answered(c, ms[0]), ms[1..]));
      }
    }
  }

  lemma LastWritten(p: Writer.Reply, batched: bool)
    ensures Writer.WrittenAll([p], batched) == Writer.Written(p, batched) && Writer.UpToClose([p]) == [p]
    ensures Writer.AnyCloses([p]) <==> Writer.Closes(p)
  {
    hide Writer.Closes, Writer.Written;
    OneWritten(p, batched);
    assert [p][..1] == [p] && [p][1..] == [] && [p][0] == p;
  }

  lemma WrittenBefore(p: Writer.Reply, rest: seq<Writer.Reply>, batched: bool, text: string, more: string)
    requires !Writer.Closes(p) && Writer.UpToClose(rest) == rest && Writer.Written(p, batched) == Writer.Spell(text)
    ensures var replies, end := [p] + rest, Writer.WrittenAll(rest, batched);
            && Writer.UpToClose(replies) == replies && (Writer.AnyCloses(replies) <==> Writer.AnyCloses(rest))
            && Writer.WrittenAll(replies, batched) == Writer.Spell(text) + end
            && Writer.Spell(text + more) == Writer.Spell(text) + Writer.Spell(more)
  {
    hide Writer.Closes, Writer.Written, Writer.AnyCloses, Writer.Spell;
    var replies := [p] + rest;
    assert replies[0] == p && replies[1..] == rest;
    Writer.AnyClosesHead(replies);
    Writer.WrittenConcat([p], rest, batched);
    OneWritten(p, batched);
    Writer.SpellConcat(text, more);
  }

  lemma HeldForm(m: Message, close: bool)
    requires Held(m)
    ensures !m.form.Chunked? && Rendered(m, close).close == close
  {
  }

  lemma NothingSpelled()
    ensures Writer.Spell("") == [] && Writer.UpToClose([]) == []
    ensures Writer.WrittenAll([], true) == [] && Writer.WrittenAll([], false) == []
  {
  }

  lemma OneWritten(p: Writer.Reply, batched: bool)
    ensures Writer.WrittenAll([p], batched) == Writer.Written(p, batched)
  {
    hide Writer.Written;
    assert [p][..0] == [];
    assert Writer.WrittenAll([p], batched) == Writer.WrittenAll([], batched) + Writer.Written(p, batched);
  }

  lemma NotClosing(p: Writer.Reply)
    ensures !p.resp.close ==> !Writer.Closes(p)
  {
  }

  /** The whole way: responses given to the server's writer in the order of the requests, HEAD or not, batched and cut
      into packets anywhere, reach the callbacks of these requests; the connection is shut down behind the last exactly
      when that one asks for it and is not a 1xx or 204 response to another method than HEAD. */
  lemma BatchArrives(c: Client.Client<Response>, ms: seq<Message>, close: bool, packets: seq<string>)
    requires Awaited(c, ms) && (forall i | 0 <= i < |ms| :: Held(ms[i]) && Plain(ms[i]))
    requires packets != [] && Concat(packets) == BytesOf(Writer.Batch(RepliesTo(c, ms, close)))
    ensures ReceivedAll(Waiting(Conn(FRESH, c), ""), packets) == Waiting(Conn(FRESH, AnsweredAll(c, ms)), "")
  {
    hide Plain, Held, Writer.WrittenAll, Writer.UpToClose, Writer.Spell, Writer.AnyCloses, ReceivedAll, Texts,
         RepliesTo;
    var replies := RepliesTo(c, ms, close);
    WrittenTexts(c, ms, close, |replies| != 1);
    var end := if Writer.AnyCloses(replies) then [Writer.Other(Writer.Shutdown)] else [];
    BytesOfSpelled(Texts(c, ms), end);
    assert Texts(c, ms) + "" == Texts(c, ms);
    assert BytesOf(end) == "";
    ResponsesArrive(c, ms, packets);
  }
}
