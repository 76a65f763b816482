/** Chunked transfer coding both ways: the server's chunkingCallback writes chunks into the buffers it is given, the
    client's response parser puts the body together again. */
module Chunking {
  import opened Bytes
  import opened Incremental
  import opened Client
  import opened ResponseParser
  import opened ResponseReceiver

  const LAST_CHUNK: string := "0\r\n\r\n"

  /** Hexadecimal digits reserved for a buffer of `n` bytes. */
  function NeededDigits(n: nat): nat {
    if n == 0 then 0 else 1 + NeededDigits(n / 16)
  }

  function HeaderSize(nSize: nat): nat { NeededDigits(nSize) + 2 }

  /** The one-digit width in the format string reaches up to nine digits; the buffer holds at least one data byte. */
  predicate Adequate(nSize: nat) {
    6 <= nSize < 0x10_0000_0000
  }

  function Capacity(nSize: nat): (c: int) { nSize - HeaderSize(nSize) - 2 }

  /** `value` in `digits` hexadecimal digits with leading zeroes. */
  function Hex(value: nat, digits: nat): (s: string)
    ensures |s| == digits && forall i | 0 <= i < digits :: DigitValue(s[i]) < 16 && s[i] != 'x' && s[i] != 'X'
    ensures forall i | 0 <= i < digits :: !IsSpace(s[i]) && s[i] != '-' && s[i] != '+' && s[i] != '\r'
  {
    if digits == 0 then "" else Hex(value / 16, digits - 1) + [DigitChar(value % 16)]
  }

  /** A chunk as one call writes it for a buffer of nSize bytes. */
  function Chunk(nSize: nat, data: string): string {
    Hex(|data|, NeededDigits(nSize)) + CRLF + data + CRLF
  }

  lemma {:induction false} DigitsSuffice(n: nat, v: nat, k: nat)
    requires v <= n && k == NeededDigits(n)
    ensures Value(Hex(v, k), 16) == v
    decreases n
  {
    hide Hex, Value;
    if n == 0 {
      NoDigits();
    } else {
      DigitsSuffice(n / 16, v / 16, k - 1);
      LastDigit(v, k);
    }
  }

  lemma NoDigits()
    ensures Value(Hex(0, 0), 16) == 0
  {
  }

  lemma LastDigit(v: nat, k: nat)
    requires k > 0
    ensures Value(Hex(v, k), 16) == Value(Hex(v / 16, k - 1), 16) * 16 + v % 16
  {
    var h := Hex(v, k);
    assert h[..|h| - 1] == Hex(v / 16, k - 1) && h[|h| - 1] == DigitChar(v % 16);
  }

  lemma AdequateHolds(nSize: nat)
    ensures Adequate(nSize) <==> 1 <= NeededDigits(nSize) <= 9 && Capacity(nSize) >= 1
  {
    if nSize < 0x10_0000_0000 {
      DigitsBound(nSize, 9);
    } else {
      DigitsNeeded(nSize, 9);
    }
    if nSize >= 6 {
      DigitsSmall(nSize);
    } else if nSize > 0 {
      assert NeededDigits(nSize / 16) == 0;
    }
  }

  lemma {:induction false} DigitsNeeded(n: nat, k: nat)
    requires n >= Pow16(k)
    ensures NeededDigits(n) > k
    decreases k
  {
    if k > 0 {
      DigitsNeeded(n / 16, k - 1);
    }
  }

  function Pow16(k: nat): nat { if k == 0 then 1 else 16 * Pow16(k - 1) }

  lemma {:induction false} DigitsBound(n: nat, k: nat)
    requires n < Pow16(k)
    ensures NeededDigits(n) <= k
    decreases k
  {
    if k > 0 && n > 0 {
      DigitsBound(n / 16, k - 1);
    }
  }

  lemma {:induction false} DigitsSmall(n: nat)
    requires n >= 6
    ensures NeededDigits(n) + 5 <= n
    decreases n
  {
    if n / 16 >= 6 {
      DigitsSmall(n / 16);
    } else if n >= 16 {
      assert NeededDigits(n / 16) == 1 + NeededDigits(n / 16 / 16);
    }
  }

  /** ChunkingParams with its data source: `pending` is what dataCallback still has to hand out. */
  class ChunkingParams {
    var pending: string
    var finished: bool

    constructor (source: string)
      ensures pending == source && !finished
    {
      pending, finished := source, false;
    }

    /** dataCallback: hands out `give` bytes into buffer[at..], 0 at the end of the data. */
    method DataCallback(buffer: array<char>, at: nat, capacity: nat, give: nat) returns (n: nat)
      requires at + capacity <= buffer.Length
      requires if pending == "" then give == 0 else 0 < give <= capacity && give <= |pending|
      modifies this`pending, buffer
      ensures n == give && pending == old(pending)[give..]
      ensures buffer[at..at + n] == old(pending)[..give]
    {
      for i := 0 to give
        invariant pending == old(pending)
        invariant forall k | 0 <= k < i :: buffer[at + k] == pending[k]
      {
        buffer[at + i] := pending[i];
      }
      assert buffer[at..at + give] == pending[..give];
      pending := pending[give..];
      n := give;
    }
  }

  /** snprintf of the size into buffer[..digits], the digits from the right. */
  method PrintHex(buffer: array<char>, value: nat, digits: nat)
    requires digits <= buffer.Length
    modifies buffer
    ensures buffer[..digits] == Hex(value, digits)
    ensures buffer[digits..] == old(buffer[digits..])
  {
    var v, k := value, digits;
    hide DigitChar;
    ghost var tail := "";
    while k > 0
      invariant 0 <= k <= digits && Hex(value, digits) == Hex(v, k) + tail
      invariant buffer[k..digits] == tail && buffer[digits..] == old(buffer[digits..])
    {
      ghost var was := buffer[k..digits];
      k := k - 1;
      buffer[k] := DigitChar(v % 16);
      tail := [DigitChar(v % 16)] + tail;
      assert buffer[k + 1..digits] == was;
      assert buffer[k..digits] == [buffer[k]] + buffer[k + 1..digits];
      HexNext(v, k + 1, was);
      v := v / 16;
    }
    assert Hex(v, 0) + tail == tail;
  }

  lemma HexNext(v: nat, k: nat, behind: string)
    requires k > 0
    ensures Hex(v, k) + behind == Hex(v / 16, k - 1) + ([DigitChar(v % 16)] + behind)
  {
  }

  /** chunkingCallback: one chunk, the last chunk, or nothing once the last chunk was written. */
  method ChunkingCallback(params: ChunkingParams, buffer: array<char>, nSize: nat, give: nat) returns (n: nat)
    requires Adequate(nSize) && nSize <= buffer.Length
    requires !params.finished ==>
               if params.pending == "" then give == 0
               else 0 < give <= Capacity(nSize) && give <= |params.pending|
    modifies params, buffer
    ensures n <= nSize && (n == 0 <==> old(params.finished))
    ensures if old(params.finished) then
              n == 0 && params.finished && params.pending == old(params.pending)
            else if old(params.pending) == "" then
              buffer[..n] == LAST_CHUNK && params.finished && params.pending == ""
            else
              && buffer[..n] == Chunk(nSize, old(params.pending)[..give])
              && !params.finished && params.pending == old(params.pending)[give..]
  {
    if params.finished {
      return 0;
    }
    AdequateHolds(nSize);
    var nHeaderSize := HeaderSize(nSize);
    ghost var was := params.pending;
    var nDataSize := params.DataCallback(buffer, nHeaderSize, nSize - nHeaderSize - 2, give);
    if nDataSize == 0 {
      params.finished := true;
      WriteLast(buffer);
      return 5;
    }
    FrameChunk(buffer, nHeaderSize, nDataSize);
    n := nHeaderSize + nDataSize + 2;
    assert buffer[..n] == Chunk(nSize, was[..give]);
  }

  method WriteLast(buffer: array<char>)
    requires buffer.Length >= 5
    modifies buffer
    ensures buffer[..5] == LAST_CHUNK
  {
    buffer[0], buffer[1], buffer[2], buffer[3], buffer[4] := '0', '\r', '\n', '\r', '\n';
  }

  /** The size line in front of the data. */
  method WriteSize(buffer: array<char>, nHeaderSize: nat, nDataSize: nat)
    requires 2 <= nHeaderSize <= buffer.Length
    modifies buffer
    ensures buffer[..nHeaderSize] == Hex(nDataSize, nHeaderSize - 2) + CRLF
    ensures buffer[nHeaderSize..] == old(buffer[nHeaderSize..])
  {
    PrintHex(buffer, nDataSize, nHeaderSize - 2);
    ghost var behind := buffer[nHeaderSize - 2..];
    assert behind[2..] == buffer[nHeaderSize..];
    assert old(buffer[nHeaderSize - 2..])[2..] == old(buffer[nHeaderSize..]);
    ghost var digits := buffer[..nHeaderSize - 2];
    buffer[nHeaderSize - 2], buffer[nHeaderSize - 1] := '\r', '\n';
    assert buffer[..nHeaderSize - 2] == digits;
    assert buffer[nHeaderSize..] == behind[2..];
    assert buffer[..nHeaderSize] == digits + [buffer[nHeaderSize - 2], buffer[nHeaderSize - 1]];
  }

  /** The size line in front of the data and the line end behind it. */
  method FrameChunk(buffer: array<char>, nHeaderSize: nat, nDataSize: nat)
    requires 2 <= nHeaderSize && nHeaderSize + nDataSize + 2 <= buffer.Length
    modifies buffer
    ensures buffer[..nHeaderSize + nDataSize + 2] ==
            Hex(nDataSize, nHeaderSize - 2) + CRLF + old(buffer[nHeaderSize..nHeaderSize + nDataSize]) + CRLF
  {
    var end := nHeaderSize + nDataSize;
    buffer[end], buffer[end + 1] := '\r', '\n';
    ghost var before := buffer[..];
    WriteSize(buffer, nHeaderSize, nDataSize);
    assert buffer[nHeaderSize..] == before[nHeaderSize..];
    Framed(buffer[..], before, nHeaderSize, end);
    assert before[nHeaderSize..end] == old(buffer[nHeaderSize..end]);
    assert buffer[..][..end + 2] == buffer[..end + 2];
    assert buffer[..][..nHeaderSize] == buffer[..nHeaderSize];
  }

  lemma Framed(now: string, before: string, head: nat, end: nat)
    requires head <= end && end + 2 <= |now| == |before| && now[head..] == before[head..]
    requires before[end] == '\r' && before[end + 1] == '\n'
    ensures now[..end + 2] == now[..head] + before[head..end] + CRLF
  {
    assert forall i | head <= i < |now| :: now[i] == now[head..][i - head] && before[i] == before[head..][i - head];
    assert forall i | head <= i < |now| :: now[i] == before[i];
  }

  // ----- and back -----

  /** One call of chunkingCallback: the size of the buffer it got and how many bytes the source handed out. */
  datatype Call = Call(nSize: nat, give: nat)

  /** The calls hand out all of src, none of them nothing. */
  predicate HandsOut(src: string, calls: seq<Call>)
    decreases |calls|
  {
    if calls == [] then src == ""
    else
      && Adequate(calls[0].nSize) && 0 < calls[0].give <= Capacity(calls[0].nSize) && calls[0].give <= |src|
      && HandsOut(src[calls[0].give..], calls[1..])
  }

  /** All that the calls wrote, the last chunk at the end. */
  function Encoded(src: string, calls: seq<Call>): string
    requires HandsOut(src, calls)
    decreases |calls|
  {
    if calls == [] then LAST_CHUNK
    else Chunk(calls[0].nSize, src[..calls[0].give]) + Encoded(src[calls[0].give..], calls[1..])
  }

  /** The stream as it is sent: chunkingCallback is called until it returns nothing, and what it wrote is sent on. The
      buffer has room for `nSize` bytes once the source is at its end. */
  method SendStream(source: string, buffer: array<char>, calls: seq<Call>, nSize: nat) returns (sent: string)
    requires HandsOut(source, calls) && Adequate(nSize) && nSize <= buffer.Length
    requires forall i | 0 <= i < |calls| :: calls[i].nSize <= buffer.Length
    modifies buffer
    ensures sent == Encoded(source, calls)
  {
    hide Adequate, Capacity, Chunk;
    var params := new ChunkingParams(source);
    sent := "";
    var i, n := 0, 1;
    while n > 0
      invariant i <= |calls| && (n == 0 ==> params.finished)
      invariant !params.finished ==>
                  HandsOut(params.pending, calls[i..]) &&
                  Encoded(source, calls) == sent + Encoded(params.pending, calls[i..])
      invariant params.finished ==> sent == Encoded(source, calls)
      decreases |calls| - i, !params.finished, n
    {
      ghost var was, before := params.pending, sent;
      if !params.finished && i < |calls| {
        n := ChunkingCallback(params, buffer, calls[i].nSize, calls[i].give);
        EncodedNext(was, calls[i..], before);
        assert calls[i..][1..] == calls[i + 1..];
        i := i + 1;
      } else {
        n := ChunkingCallback(params, buffer, nSize, 0);
      }
      sent := sent + buffer[..n];
      assert before + "" == before;
    }
  }

  lemma EncodedNext(src: string, calls: seq<Call>, before: string)
    requires HandsOut(src, calls) && calls != []
    ensures before + Encoded(src, calls) ==
            before + Chunk(calls[0].nSize, src[..calls[0].give]) + Encoded(src[calls[0].give..], calls[1..])
  {
    hide Chunk;
  }

  /** What the receiver must end up with: the body behind what it had, its length, and no transfer coding. */
  function Decoded(p: Parser, src: string): Parser {
    var body := p.resp.body + src;
    p.(status := GotAll, chunk := 0,
       resp := p.resp.(body := body,
                       headers := p.resp.headers["content-length" := Decimal(|body|)] - {"transfer-encoding"}))
  }

  lemma HexRead(v: nat, k: nat)
    requires 0 < k && v <= SIZE_MAX && Value(Hex(v, k), 16) == v
    ensures ChunkLength(Hex(v, k)) == Some(v)
  {
    hide StrToULL, Value, DigitValue, IsSpace;
    PlainDigits(Hex(v, k), 16);
  }

  lemma HexLine(v: nat, k: nat, rest: string)
    ensures var b := Hex(v, k) + CRLF + rest;
            Find(b, CRLF) == k && b[..k] == Hex(v, k) && b[k + 2..] == rest
  {
    var h := Hex(v, k);
    hide Hex;
    LineFound(h, rest);
  }

  ghost predicate Decoding(s: Conn) {
    s.parser.status.ExpectChunkLen? && s.client.inflight != [] && Aim(s) == s.parser
  }

  /** A size line, read. */
  lemma SizeRead(s: Conn, v: nat, k: nat, rest: string)
    requires Decoding(s) && 0 < k && v <= SIZE_MAX && Value(Hex(v, k), 16) == v
    ensures Received(s, Hex(v, k) + CRLF + rest) ==
            Received(Conn(s.parser.(chunk := v, status := if v != 0 then ExpectChunkBody else ExpectLastEmptyChunk),
                          s.client), rest)
  {
    hide Received, ChunkLength, Hex;
    HexLine(v, k, rest);
    HexRead(v, k);
    ReceivedStep(s, Hex(v, k) + CRLF + rest);
  }

  /** The data of a chunk, read. */
  lemma DataRead(s: Conn, data: string, rest: string)
    requires s.parser.status.ExpectChunkBody? && s.parser.chunk == |data|
    requires s.client.inflight != [] && Aim(s) == s.parser
    ensures Received(s, data + CRLF + rest) ==
            Received(Conn(s.parser.(resp := s.parser.resp.(body := s.parser.resp.body + data), chunk := 0,
                                    status := ExpectChunkLen), s.client), rest)
  {
    hide Received, ChunkLength, HeaderLine;
    var b := data + CRLF + rest;
    assert b[..|data|] == data && b[|data| + 2..] == rest;
    ReceivedStep(s, b);
  }

  lemma LastRead(s: Conn, rest: string)
    requires Decoding(s)
    ensures Received(s, LAST_CHUNK + rest) == Received(Complete(Decoded(s.parser, ""), s.client), rest)
  {
    hide Received, ChunkLength, HeaderLine, HandleResponse, Hex;
    var b := CRLF + rest;
    ZeroHex();
    assert LAST_CHUNK + rest == Hex(0, 1) + CRLF + b;
    SizeRead(s, 0, 1, b);
    var t := Conn(s.parser.(chunk := 0, status := ExpectLastEmptyChunk), s.client);
    assert "" + CRLF + rest == b;
    LineFound("", rest);
    assert b[2..] == rest;
    assert s.parser.resp.body + "" == s.parser.resp.body;
    ReceivedStep(t, b);
  }

  lemma ZeroHex()
    ensures Hex(0, 1) == "0" && Value(Hex(0, 1), 16) == 0
  {
    assert Hex(0, 0) == "";
    assert Value("", 16) == 0;
    assert "0"[..0] == "";
  }

  lemma ChunkRead(s: Conn, nSize: nat, data: string, rest: string)
    requires Decoding(s) && Adequate(nSize) && 0 < |data| <= Capacity(nSize)
    ensures Received(s, Chunk(nSize, data) + rest) ==
            Received(Conn(s.parser.(resp := s.parser.resp.(body := s.parser.resp.body + data), chunk := 0),
                          s.client), rest)
  {
    hide Received, ParserRound, HandleResponse, Hex;
    var k := NeededDigits(nSize);
    AdequateHolds(nSize);
    DigitsSuffice(nSize, |data|, k);
    assert Chunk(nSize, data) + rest == Hex(|data|, k) + CRLF + (data + CRLF + rest);
    SizeRead(s, |data|, k, data + CRLF + rest);
    var t := Conn(s.parser.(chunk := |data|, status := ExpectChunkBody), s.client);
    DataRead(t, data, rest);
  }

  /** Whatever buffers the server was given and however the source filled them, the client reads back the source, and
      goes on behind the last chunk. */
  lemma {:induction false} ChunksRead(s: Conn, src: string, calls: seq<Call>, rest: string)
    requires Decoding(s) && HandsOut(src, calls)
    ensures Received(s, Encoded(src, calls) + rest) == Received(Complete(Decoded(s.parser, src), s.client), rest)
    decreases |calls|
  {
    hide Received, HandleResponse, ParserRound, Chunk;
    if calls == [] {
      LastRead(s, rest);
    } else {
      var n, data, tail := calls[0].nSize, src[..calls[0].give], src[calls[0].give..];
      var more := Encoded(tail, calls[1..]);
      Regroup(Chunk(n, data), more, rest);
      ChunkRead(s, n, data, more + rest);
      var t := Conn(s.parser.(resp := s.parser.resp.(body := s.parser.resp.body + data), chunk := 0), s.client);
      ChunksRead(t, tail, calls[1..], rest);
      assert src == data + tail;
      Regroup(s.parser.resp.body, data, tail);
    }
  }

  /** Chunks cut into packets anywhere complete the request in front with exactly the source's bytes. */
  lemma ChunkedBodyArrives(s: Conn, src: string, calls: seq<Call>, packets: seq<string>)
    requires Decoding(s) && HandsOut(src, calls) && packets != [] && Concat(packets) == Encoded(src, calls)
    ensures ReceivedAll(Waiting(s, ""), packets) == Waiting(Complete(Decoded(s.parser, src), s.client), "")
  {
    hide Received, ReceivedAll, HandleResponse, ParserRound, Chunk;
    ReceiveFragmentation(s, "", packets);
    assert "" + Concat(packets) == Encoded(src, calls) + "";
    ChunksRead(s, src, calls, "");
    ReceivedStep(Complete(Decoded(s.parser, src), s.client), "");
  }
}
