# Drogon's HTTP core, verified

A model in Dafny of the parts of Drogon's HTTP core that must give the same answer however the network cuts bytes or
reorders events, with proofs that they do, or exactly when they do. `dafny verify dfyconfig.toml` checks all of it.

How the modules fit together:

- `Bytes`, `ByteQueue`: byte strings, substring search, `strtoull`, and trantor's MsgBuffer seen as a byte queue.
- `Incremental`: what an incremental parser owes its rounds for packets not to matter, and the theorem that follows, once
  for all parsers, size limits included.
- `Multipart`, `MultipartReader`, `MultipartWriter`, `MultipartForms`: the multipart stream parser, the objects around it
  (compacting buffer, parser, reader), the client's writer with its round trip, and bodies that others write.
- `RequestParser`, `RequestReceiver`: the server's request parser as a machine and as the object with its loops.
- `RequestText`, `RequestStreams`, `RequestForms`: requests printed as text and read back or refused, piece by piece and
  as a stream, and requests that others print.
- `Client`, `ClientProgress`, `ClientObject`: the client's request queues as a state machine over events, what moves on
  and what the callbacks are told, and the object.
- `ResponseParser`, `ResponseReceiver`, `ResponseText`, `ResponseForms`: the client's response parser inside its receive
  loop, the objects, responses printed as text and read back, and responses that are none.
- `Chunking`: the server's chunk writer against the client's chunk states.
- `Writer`, `EndToEnd`: writing responses one at a time and batched, and from there to the client's callbacks.
- `Pipelining`, `Batching`, `PipeliningServer`: response pipelining as a state machine over every interleaving, one call of
  onRequests as a stretch of its steps, and the server's methods.
- `BodyStream`, `BodyReader`: a request body between memory, file and a late reader, and who gets it.
- `SlashRemover`, `Range`, `RangeSyntax`, `View`: slash normalisation, Range headers, the template compiler.
- `Limiters`, `SlidingEstimate`: the three rate limiters, and the sliding window's estimate against its log.

The pattern throughout: a function says what one step does, methods of a class with the source's fields and loops are
proved to do exactly that, and the properties are proved about the function over all inputs, runs or reachable states.
Where a property of the code needs a condition, the theorem is an equivalence with that condition.

What the proofs found, each stated as a theorem below:

- Requests that arrive in one packet with a later parse error are never dispatched, while the same bytes in two packets
  are (`RequestParser.DispatchFragmentation`; `RequestStreams.DroppedBehindError` is an instance).
- The method of a request is waited for in seven bytes, so a PROPFIND request, which is read uncut, is refused when the
  blank behind its method comes in a later packet (`RequestParser.PropfindNeverFits`). Every PROPFIND request
  therefore fails the line limits that the theorems on request fragmentation are equivalent to.
- A response that arrives after the client shut the connection down fails the other requests in flight but leaves the
  connection in place; a request sent on it afterwards is handed the response to a failed one. Pairing holds exactly
  while this has not happened (`Client.PairedUnlessDropped`, `Client.DroppedPairingExample`).
- A multipart body without parts is written as a closing delimiter only, which the parser never finishes
  (`MultipartWriter.RoundTrip`); one with a header line beyond 60 KiB is received or reported invalid depending on the
  packets (`MultipartWriter.SentIsReceived`, `MultipartReader.TooLongIsInvalid`).
- A batch writes 1xx and 204 responses without the body that a single send would write (`Writer.BatchRefines`,
  `Writer.BatchLosesBodies`), and neither closes the connection behind them (`Writer.SendResponse`,
  `Writer.SendResponses`).
- A token bucket of capacity one never lets a call through (`Limiters.OneTokenNeverAllows`).
- The sliding window forgets the window before when a call is refused exactly at a window start, or when all accepted
  calls of a window came exactly at its start, and in no other case (`SlidingEstimate.SlidingExact`,
  `SlidingEstimate.RefusedCallForgets`).

## Model

| member | source | states |
|---|---|---|
| `Incremental.RunSplit` | lib/src/HttpRequestParser.cc:143-454 | for any parser loop whose rounds do not depend on bytes behind them: stopping after a packet and going on with the next is the same as seeing both at once, unless the first stopped at a size limit |
| `Incremental.FeedAllIsRun` | lib/src/HttpServer.cc:175-243 | any fragmentation of an input whose lines fit the limits gives the state, the left-over bytes and the verdict of the uncut input |
| `Incremental.FragmentationInvariance` | lib/src/MultipartStreamParser.cc:60-252 | the network cannot change the result of a parse if and only if no line of the uncut input passes the size limit |
| `Multipart.ParserCoherent` | lib/src/MultipartStreamParser.cc:68-251 | each round of the multipart parser consumes or lowers a rank (so `parse` terminates), is not changed by bytes that arrive later (delimiters cut across packets included), and meets the header limit on a prefix if a header line is too long |
| `MultipartReader.Buffer.Append` | lib/src/MultipartStreamParser.cc:259-283 | the compacting buffer acts as a byte queue: its view becomes the old view followed by the data, whether or not bytes were moved to the front or the storage grew |
| `MultipartReader.Buffer.EraseFront` | lib/src/MultipartStreamParser.cc:290-294 | the view loses exactly its first `length` bytes |
| `MultipartReader.StreamParser.constructor` | lib/src/MultipartStreamParser.cc:24-58 | the parser starts in the state the content type stands for |
| `MultipartReader.BoundaryNamed` | lib/src/MultipartStreamParser.cc:24-58 | a multipart/form-data content type in any case, whatever stands before and behind its boundary parameter, quoted or up to a semicolon or the end, gives a valid parser with exactly that boundary |
| `MultipartReader.ValidWhenNamed` | lib/src/MultipartStreamParser.cc:29-39 | the parser is valid if and only if the content type is multipart/form-data with a boundary parameter |
| `MultipartReader.PrintedBoundary` | lib/src/MultipartStreamParser.cc:24-58 | the content types a client prints name the boundary printed |
| `MultipartReader.StreamParser.Parse` | lib/src/MultipartStreamParser.cc:60-252 | one call of parse leaves status, header, flags, buffer and the calls of both callbacks exactly as the whole loop of the specification does |
| `MultipartReader.PhaseMeansPartByPart` | lib/src/MultipartStreamParser.cc:192-220 | in every callback sequence the parser produces, each part is one header call, then only non-empty data calls, then exactly one zero-length call before the next header |
| `MultipartReader.ClosedWhenEnded` | lib/src/MultipartStreamParser.cc:192-220 | and every part delivered is closed but the one whose zero-length call has not come |
| `MultipartReader.StreamReader.OnStreamData` | lib/src/RequestStream.cc:155-172 | data goes to the parser only while it is open; finishCb is called when the packet made it invalid or finished; the callbacks so far are part by part |
| `MultipartReader.StreamReader.OnStreamFinish` | lib/src/RequestStream.cc:174-190 | the end of the stream reports incomplete data or the upstream error only while nothing was reported |
| `MultipartReader.ReaderFragmentation` | lib/src/RequestStream.cc:155-172 | any fragmentation of a body gives the same part headers, the same bytes per part, the same verdict and the same calls of finishCb as the body in one packet |
| `MultipartReader.HeaderLimitDecides` | lib/src/MultipartStreamParser.cc:104-112 | the bodies for which that holds of every fragmentation are exactly those whose header lines stay within 60 KiB |
| `MultipartReader.TooLongIsInvalid` | lib/src/MultipartStreamParser.cc:104-112 | a body with a longer header line can be cut so that the upload is reported as invalid |
| `MultipartReader.FinishExactlyOnce` | lib/src/RequestStream.cc:155-190 | over packets and then one end of stream, finishCb runs exactly once if the content type names a boundary, and never otherwise |
| `MultipartReader.FinishReports` | lib/src/RequestStream.cc:155-190 | and with what: success, invalid data, or at the end of the stream the upstream error or incomplete data |
| `MultipartReader.FinishSameReport` | lib/src/RequestStream.cc:155-190 | what finishCb is called with does not depend on the packets either |
| `MultipartWriter.AppendMultipart` | lib/src/HttpRequestImpl.cc:303-369 | the two loops write each parameter and then each file as a section of RFC 2046 section 5.1.1, and the closing delimiter |
| `MultipartWriter.RoundTrip` | lib/src/HttpRequestImpl.cc:303-369 | writing and parsing undo each other (same names, file names, content types and bytes, in order, then finished) if and only if there is at least one part and no part's bytes contain CRLF--boundary, for names a quoted header value can carry |
| `MultipartWriter.SentIsReceived` | lib/src/MultipartStreamParser.cc:24-251 | under the content type the client prints, the parts it wrote are the parts the server's reader receives, finishCb reporting success once, over every fragmentation, if and only if every header line of the parts is within 60 KiB |
| `MultipartForms.SurroundedRoundTrip` | lib/src/MultipartStreamParser.cc:68-251 | the same parts are read when a preamble stands before the first delimiter and an epilogue behind the last |
| `MultipartForms.NameAndFile` | lib/src/MultipartStreamParser.cc:138-190 | a part's name and file name are read from their parameters, in quotes or up to a semicolon, whatever stands between and behind |
| `MultipartForms.NameAndRest` | lib/src/MultipartStreamParser.cc:138-190 | a file name that nothing ends goes up to the end of the line |
| `MultipartForms.NameAlone` | lib/src/MultipartStreamParser.cc:138-190 | a name without a file name leaves the file name as it is |
| `MultipartForms.TypeLine` | lib/src/MultipartStreamParser.cc:120-137 | the content type of a part is read under any spelling of its name, with or without the blank |
| `MultipartForms.OtherLine` | lib/src/MultipartStreamParser.cc:120-190 | other headers are passed over |
| `MultipartForms.BadLineInvalid` | lib/src/MultipartStreamParser.cc:115-190 | a line that is no header, and a disposition without a name or with one that nothing ends, make the parser invalid |
| `MultipartForms.EndGarbage` | lib/src/MultipartStreamParser.cc:222-246 | anything but a new part or the end behind a delimiter makes the parser invalid |
| `RequestParser.RequestsCoherent` | lib/src/HttpRequestParser.cc:143-454 | each round of parseRequest consumes or lowers a rank, is not changed by later bytes, and refuses a line that is too long on a prefix of it |
| `RequestReceiver.HttpRequestParser.ParseRequest` | lib/src/HttpRequestParser.cc:143-454 | one call of parseRequest ends with the state, the request, the left-over bytes and the code (1, 0 or a negated status) the specification gives, and counts exactly the completed requests |
| `RequestReceiver.HttpRequestParser.LineCase` | lib/src/HttpRequestParser.cc:149-224 | a method, request line, header line or chunk size is waited for up to its limit (8 bytes, 64 KiB, 64 KiB, 19 bytes) and refused with 400 or 414 beyond |
| `RequestReceiver.HttpRequestParser.ReadHeader` | lib/src/HttpRequestParser.cc:212-338 | a header line is stored; at the line without colon the length or coding, the body size limit and the Expect header decide between going on, 400, 413, 417 and 501 |
| `RequestReceiver.HttpRequestParser.Reset` | lib/src/HttpRequestParser.cc:117-133 | the parser starts over with an empty request |
| `RequestReceiver.Connection.OnMessage` | lib/src/HttpServer.cc:175-243 | one packet: completed requests are collected and dispatched together, an error discards the rest of the buffer and stops the parser without dispatching what the same packet completed |
| `RequestParser.ParsedFragmentation` | lib/src/HttpRequestParser.cc:143-454 | with lines inside the limits, packets change neither the requests read (verb, path, query, headers, cookies, body, count) nor the 100 responses written nor whether and how the connection is refused |
| `RequestParser.LineLimitsDecide` | lib/src/HttpRequestParser.cc:28-30 | the inputs whose parse does not depend on packets are exactly those whose lines fit the limits |
| `RequestParser.PropfindNeverFits` | lib/src/HttpRequestParser.cc:28-165 | no input that begins with PROPFIND fits the limits: with the blank behind the method in a later packet it is refused with 400 |
| `RequestParser.DispatchFragmentation` | lib/src/HttpServer.cc:175-243 | the requests dispatched are independent of packets if and only if the uncut input parses without error or holds no complete request before the error |
| `RequestParser.NoLargeBody` | lib/src/HttpRequestParser.cc:267-315 | whatever arrives, in whatever packets, no request with a body over the limit is dispatched |
| `RequestText.RequestLineRead` | lib/src/HttpRequestParser.cc:39-85 | a printed request line is read as its path, query and version |
| `RequestText.FieldsRead` | lib/src/HttpRequestImpl.cc:443-545 | printed header fields are read under their lower-case names, trimmed, the first of each name kept; the connection is kept unless an HTTP/1.1 request says close, or an HTTP/1.0 request does not say keep-alive |
| `RequestText.CookiesRead` | lib/src/HttpRequestImpl.cc:462-505 | cookies printed into one field are read back by name, the last of each name kept |
| `RequestStreams.MessageRead` | lib/src/HttpRequestParser.cc:143-454 | a printed request without body, with a content length or in chunks, with cookies, connection and expect fields, is read as exactly what it means, and reading goes on behind it, or it is refused: with 501 for a coding that is not known, 413 for a body over the limit, announced or in chunks, 400 for a 100 response asked for without a length, 417 for any other expectation |
| `RequestStreams.RequestsRead` | lib/src/HttpRequestParser.cc:143-454 | a stream of printed requests, PROPFIND and long lines included, is read uncut as exactly those requests up to the first that is refused, with one 100 response for each that asks for it |
| `RequestStreams.RequestsDispatched` | lib/src/HttpServer.cc:175-243 | a stream of printed requests is dispatched as exactly those requests, in order and nothing refused, however it is cut into packets, if and only if each is acceptable, none is a PROPFIND and no request line or field is longer than 64 KiB |
| `RequestStreams.UnknownMethodRefused` | lib/src/HttpRequestParser.cc:165-169 | a method that is none of those known is refused with 405 |
| `RequestStreams.BadLineRefused` | lib/src/HttpRequestParser.cc:39-85 | a request line without a version or with an unknown one is refused with 400 |
| `RequestForms.AbsoluteTarget` | lib/src/HttpRequestParser.cc:43-75 | a target with a scheme and an authority is located at its path and query |
| `RequestForms.NoPath` | lib/src/HttpRequestParser.cc:43-75 | a target without a path stands for the root |
| `RequestForms.BlanksIgnored` | lib/src/HttpRequestImpl.cc:452-461 | blanks around a field's value, none or many, make no difference |
| `RequestForms.NoCookie` | lib/src/HttpRequestImpl.cc:462-505 | a piece of a Cookie field without an equals sign is passed over |
| `RequestForms.BadLengthRefused` | lib/src/HttpRequestParser.cc:228-249 | a content length that is no number, or too big for size_t, is refused with 400 |
| `RequestForms.NegativeLengthRefused` | lib/src/HttpRequestParser.cc:228-272 | a negative content length is refused with 413 |
| `RequestForms.BadChunkEnd` | lib/src/HttpRequestParser.cc:340-420 | a chunk or last chunk that does not end in CRLF is refused with 400 |
| `RequestForms.HugeChunkRefused` | lib/src/HttpRequestParser.cc:340-375 | a chunk size too big for strtol, or negative for the first chunk, is refused with 413 |
| `RequestForms.EndlessLine` | lib/src/HttpRequestParser.cc:149-224 | a line that does not end is waited for up to 8 bytes, 64 KiB or 19 bytes and then refused, a request line with 414 |
| `RequestStreams.DroppedBehindError` | lib/src/HttpServer.cc:175-243 | the bad side of that occurs: a request followed by a bad method is dispatched when the two come in two packets and dropped when they come in one |
| `ResponseParser.ReceiverCoherent` | lib/src/HttpResponseParser.cc:89-335 | each round of the client's receive loop consumes or lowers a rank (so parseResponse terminates) and is not changed by bytes that arrive later |
| `ResponseReceiver.HttpResponseParser.ParseResponse` | lib/src/HttpResponseParser.cc:89-335 | one call of parseResponse ends with exactly the parser state, left-over bytes, result and shutdown of the specification |
| `ResponseReceiver.HttpResponseParser.HeaderFieldOrEnd` | lib/src/HttpResponseParser.cc:117-194 | a header field is stored; the line without colon picks content-length, chunked, no-body (204, 101 websocket), HEAD or read-until-close framing, the last shutting the connection down |
| `ResponseReceiver.Receiver.OnRecvMessage` | lib/src/HttpClientImpl.cc:604-645 | one packet: responses are completed through the request queue until data or requests run out or one is malformed; queues, callbacks, parser and buffer end as specified |
| `ResponseReceiver.ReceivedParses` | lib/src/HttpClientImpl.cc:604-645 | the round-by-round loop is: parse one response, hand it to the front request, go on |
| `ResponseParser.ReceiveFragmentation` | lib/src/HttpClientImpl.cc:604-645 | however a stream of pipelined responses is cut, the callbacks run, the queues, the parser and the verdict are those of the uncut stream, for every framing |
| `ResponseParser.ConnectionFragmentation` | lib/src/HttpClientImpl.cc:88-113 | the same for a whole connection ended by the peer, read-until-close bodies included |
| `ResponseText.MessageRead` | lib/src/HttpResponseParser.cc:89-335 | a printed response (content length, chunked, 204, 101 to websocket, or in answer to HEAD) completes the request at the front with exactly its version, code, headers, cookies set and body, and reading goes on behind it |
| `ResponseText.ResponsesArrive` | lib/src/HttpClientImpl.cc:604-645 | pipelined responses printed one behind the other and cut into packets anywhere are handed out in order, each to the request at the front |
| `ResponseText.CloseDelimits` | lib/src/HttpClientImpl.cc:88-113 | a response without length gives the request at the front all the bytes up to the close, however they are cut |
| `ResponseText.HeadWithoutLength` | lib/src/HttpResponseParser.cc:141-194 | the answer to a HEAD request without a length completes it without a body, behind a shutdown |
| `ResponseForms.BadStatusLine` | lib/src/HttpResponseParser.cc:44-86 | a status line of one word, or whose first word ends in neither 0 nor 1, fails everything with a bad response |
| `ResponseForms.BadLength` | lib/src/HttpResponseParser.cc:129-140 | so does a length that is no number or too big for size_t |
| `ResponseForms.BadChunkSize` | lib/src/HttpResponseParser.cc:251-281 | and a chunk size that is none |
| `ResponseForms.ChunkSizeJudged` | lib/src/HttpResponseParser.cc:251-281 | a chunk size counts up to the end of its line or a semicolon; anything else behind it breaks the response |
| `ResponseForms.BadChunkEnd` | lib/src/HttpResponseParser.cc:282-312 | so does a chunk that does not end in CRLF |
| `ResponseForms.OtherCoding` | lib/src/HttpResponseParser.cc:141-194 | under any other coding than chunked the body goes up to the close |
| `ResponseForms.Unexpected` | lib/src/HttpClientImpl.cc:604-645 | bytes that no request waits for end the connection |
| `EndToEnd.BatchArrives` | lib/src/HttpServer.cc:1045-1142 | responses given to the server's writer in the order of the requests, HEAD or not, batched and cut into packets anywhere, reach the callbacks of those requests |
| `Chunking.ChunkingCallback` | lib/src/HttpServer.cc:871-931 | each call writes at most the buffer given to it: one chunk of the bytes handed out, the last chunk when the source is at its end, nothing after that |
| `Chunking.SendStream` | lib/src/HttpServer.cc:871-931 | calling it until it returns 0 sends exactly the encoding the client's side is proved about |
| `Chunking.PrintHex` | lib/src/HttpServer.cc:924-931 | the size is written with the fixed number of digits and leading zeroes, nothing behind it is touched |
| `Chunking.DigitsSuffice` | lib/src/HttpServer.cc:902-911 | the digits reserved for a buffer of n bytes can write every size up to n |
| `Chunking.AdequateHolds` | lib/src/HttpServer.cc:902-911 | the reserved width fits the one-digit format and leaves room for data exactly for 6 <= n < 16^9 |
| `Chunking.HexRead` | lib/src/HttpResponseParser.cc:251-281 | the size line written by the server is read by the client as that size |
| `Chunking.ChunksRead` | lib/src/HttpResponseParser.cc:251-332 | whatever buffers the server was given and however the source filled them, the client reads back the source, in kGotAll with the matching content-length and without transfer-encoding, and goes on behind the last chunk |
| `Chunking.ChunkedBodyArrives` | lib/src/HttpServer.cc:871-943 | the same under any fragmentation: the request at the front gets exactly the source's bytes |
| `Client.RunAccounts` | lib/src/HttpClientImpl.cc:310-602 | in every state of every run, each submitted request is exactly one of completed, waiting and in flight, no callback runs twice, and the pipelining depth holds |
| `Client.HandedToNext` | lib/src/HttpClientImpl.cc:547-602 | a response, or the close that ends a read-until-close body, is handed to the first request sent on the connection that has not left the queue |
| `Client.PairedUnlessDropped` | lib/src/HttpClientImpl.cc:547-602 | in every run, a response is handed out with the k-th response on the connection still going to the k-th request sent on it, if and only if since the connection was made no response arrived after we had shut it down with other requests in flight; timed-out requests make no difference |
| `Client.RunPairs` | lib/src/HttpClientImpl.cc:547-602 | the same for every state of a run: without such a response the pairing holds on an open connection |
| `Client.DroppedPairingExample` | lib/src/HttpClientImpl.cc:592-601 | a run of seven events in which it is lost: the third request is handed the response to the second |
| `Client.ErrorCompletes` | lib/src/HttpClientImpl.cc:675-691 | after a failure of the connection every submitted request has had its callback |
| `Client.ResponseDelivered` | lib/src/HttpClientImpl.cc:547-568 | a response reaches its request's callback unless a timeout was reported first |
| `ClientProgress.RunBusy` | lib/src/HttpClientImpl.cc:547-602 | in every state of every run, no request waits on a connection that is up and has room for it |
| `ClientProgress.RunOrder` | lib/src/HttpClientImpl.cc:310-602 | in every state of every run, the requests sent on the connection and then those waiting stand in the order in which they were submitted |
| `ClientProgress.RunTells` | lib/src/HttpClientImpl.cc:310-691 | every callback run by an event says what that event means for its request: the response for the first in flight, the failure for any other, a timeout once |
| `ClientProgress.RunMarks` | lib/src/HttpClientImpl.cc:310-353 | the requests marked as HEAD or timed are those submitted so |
| `ClientProgress.CloseHonoured` | lib/src/HttpClientImpl.cc:574-590 | a response that says close ends a connection that is up exactly when nothing is in flight behind it |
| `ClientProgress.ClosedReconnects` | lib/src/HttpClientImpl.cc:88-113 | a close behind a response it delimits makes a new connection exactly if requests wait |
| `ClientProgress.FirstRequest` | lib/src/HttpClientImpl.cc:354-532 | the first request resolves a name, connects to a valid address, or fails at once |
| `ClientObject.HttpClientImpl.SendRequestInLoop` | lib/src/HttpClientImpl.cc:310-532 | submitting sends, queues, resolves, connects or fails the request as specified, counters following the queues |
| `ClientObject.HttpClientImpl.OnConnected` | lib/src/HttpClientImpl.cc:68-87 | queued requests are sent in order until one more than the pipelining depth is in flight |
| `ClientObject.HttpClientImpl.OnDisconnected` | lib/src/HttpClientImpl.cc:88-113 | a close completes a read-until-close response and reconnects for the waiting requests, or fails everything |
| `ClientObject.HttpClientImpl.HandleResponseInLoop` | lib/src/HttpClientImpl.cc:547-602 | the front request's callback gets the response; then the next waiting request is sent, or the client is dropped on close, or all in flight fail when we shut the connection down |
| `ClientObject.HttpClientImpl.OnTimeout` | lib/src/HttpClientImpl.cc:325-353 | a timer erases its waiting request and reports the timeout, unless its callback already ran |
| `ClientObject.HttpClientImpl.OnErrorReported` | lib/src/HttpClientImpl.cc:675-691 | all in flight and then all waiting requests fail, in order |
| `ClientObject.HttpClientImpl.OnResolved` | lib/src/HttpClientImpl.cc:463-490 | the answer of the resolver connects or fails all waiting requests |
| `Pipelining.RunInv` | lib/src/HttpServer.cc:274-410 | in every reachable state, under every interleaving of sync, sync-advice, on-loop, off-loop and nested completions, batches, queued tasks and disconnects, the responses released, then the queue, then the request being handled are exactly the requests taken, in arrival order, each once, with its own HEAD flag and its first response; the head of the queue is unanswered; with limits set the queue stays shorter than the pipelining limit and fewer requests are taken than the keep-alive limit |
| `Pipelining.NextInv` | lib/src/HttpServer.cc:773-854 | every single step keeps that invariant |
| `Pipelining.FirstResponse` | lib/src/HttpServer.cc:813-825 | a first response that meets an empty queue on the loop is that of the request being handled, whose loop flag is up; otherwise its request is found in the queue, unanswered |
| `Pipelining.TaskFindsRequest` | lib/src/HttpServer.cc:839-852 | a response queued from another thread finds its request in the queue, unanswered |
| `Pipelining.DeliverCore` | lib/src/HttpRequestParser.cc:466-491 | delivering a response answers exactly its request and pops exactly the longest answered prefix, keeping order and answers |
| `Pipelining.RepeatsChangeNothing` | lib/src/HttpServer.cc:789-794 | a callback called again changes nothing: removing every repeated completion from a run leaves a possible run with the same final state |
| `Pipelining.RunKeeps` | lib/src/HttpServer.cc:773-854 | what was released or sent, and the first response of a request, never change later in a run |
| `Pipelining.LongestAnsweredPrefix` | lib/src/HttpRequestParser.cc:482-491 | what is released is answered, and the next request in arrival order is not delivered |
| `Pipelining.NothingLeftBehind` | lib/src/HttpServer.cc:402-410 | when every request has been answered and the loop has run its tasks, the queue is empty and the k-th response was sent for the k-th request |
| `Pipelining.WireInOrder` | lib/src/HttpServer.cc:350-410 | batching does not show: the bytes and streams on the wire are those of sending the responses one at a time in arrival order up to the first that closes |
| `PipeliningServer.HttpServerConnection.OnRequests` | lib/src/HttpServer.cc:274-410 | the batch loop with its handlers does exactly the steps of the state machine: limits first, then each request pushed, judged, handled and pushed again if unanswered, then the buffered responses sent; which batches it takes is stated outright |
| `Batching.BatchTaken` | lib/src/HttpServer.cc:328-357 | a call of onRequests from its start to its return takes all of its requests in order if and only if the connection is there and the limits, when set, leave room for one more than the batch has; beyond them nothing is taken or written, the parser is stopped and the connection shut down |
| `Batching.UnlimitedNeverStops` | lib/src/HttpServer.cc:328-345 | with both limits 0 no run ever stops the parser |
| `Batching.AfterInv` | lib/src/HttpServer.cc:274-410 | every sequence of possible events, such as one call of onRequests, keeps the invariant |
| `PipeliningServer.HttpServerConnection.HandleResponse` | lib/src/HttpServer.cc:773-854 | a callback on the loop or elsewhere does exactly its step, and keeps the invariant |
| `PipeliningServer.HttpServerConnection.RunQueued` | lib/src/HttpServer.cc:839-852 | the queued task does exactly its step |
| `PipeliningServer.HttpServerConnection.PassSyncAdvices` | lib/src/HttpServer.cc:1215-1239 | a rejected request is answered in the queue or, with no request before it, directly in the response buffer |
| `PipeliningServer.HttpServerConnection.PushResponseToPipelining` | lib/src/HttpRequestParser.cc:466-480 | the first match is answered and the result says whether it is the head |
| `PipeliningServer.HttpServerConnection.PopReadyResponses` | lib/src/HttpRequestParser.cc:482-491 | the answered prefix moves to the buffer in order |
| `Writer.SendResponse` | lib/src/HttpServer.cc:973-1043 | one response on the wire: rendered bytes, async stream, stream or file, and the shutdown, which 1xx and 204 responses skip |
| `Writer.SendResponses` | lib/src/HttpServer.cc:1045-1142 | a batch through the send buffer puts exactly the responses up to the first closing one on the wire and leaves the buffer empty; the connection stays up unless one closed |
| `Writer.BatchRefines` | lib/src/HttpServer.cc:1045-1142 | a batch equals calling sendResponse on each response up to and including the first closing one if and only if it is a single response or no uncached 1xx or 204 response in it has a body |
| `Writer.BatchLosesBodies` | lib/src/HttpServer.cc:1045-1142 | two uncached 204 responses with a body: the batch writes the two headers, single sends write the bodies too |
| `Writer.BatchOfOrdinaryResponses` | lib/src/HttpServer.cc:1045-1142 | in particular for all responses that may carry a body, with any streams and close flags |
| `Writer.WrittenAlike` | lib/src/HttpResponseImpl.cc:812-936 | what a single send writes is what a batch writes, plus the body of an uncached 1xx or 204 response |
| `Writer.UpToCloseOpen` | lib/src/HttpServer.cc:1126-1135 | writing goes on behind a batch if and only if nothing in it closed |
| `EndToEnd.TransfersOf` | lib/src/HttpServer.cc:973-1043 | besides bytes, a response puts its stream or file on the wire unless it has no body, and the shutdown if it asks for one and is not a 1xx or 204 answer to another method than HEAD |
| `BodyStream.RunInv` | lib/src/HttpRequestImpl.cc:809-860 | in every state of every run the body is in one place (reader, file or memory, never split), the reader's calls are its bytes in order and then at most one end, and callbacks run at most once |
| `BodyStream.ReaderGetsBody` | lib/src/HttpRequestImpl.cc:1080-1165 | at the end of a stream the reader, whenever it was attached, has got all bytes that arrived in order and then one onStreamFinish; on failure all that arrived so far, or nothing if it came after the failure, and one onStreamFinish |
| `BodyStream.BodyWithoutReader` | lib/src/HttpRequestImpl.h:234-245 | without stream mode bodyView is exactly the bytes received, wherever they were kept; the waiting callback ran once if and only if it was asked for and the stream ended |
| `BodyStream.FirstReaderStays` | lib/src/RequestStream.cc:44-56 | the first reader set on a request stream, or the null reader of its destructor, is the only one ever used |
| `BodyReader.ChosenIsFirst` | lib/src/RequestStream.cc:44-75 | the reader set first while the stream is in stream mode is the one chosen |
| `BodyReader.NoneSetNone` | lib/src/RequestStream.cc:44-75 | without one none is chosen |
| `BodyReader.FailedReader` | lib/src/HttpRequestImpl.cc:1141-1165 | when the stream fails, a reader attached before has got exactly what had arrived, one attached later is told and gets nothing |
| `BodyReader.InMemory` | lib/src/HttpRequestImpl.cc:832-860 | no more of a body than the limit is ever held in memory |
| `BodyReader.ReservedInFile` | lib/src/HttpRequestImpl.cc:809-830 | a body goes to a file when the length announced, or what has arrived, is over the limit, and only then |
| `BodyStream.HttpRequestImpl.AppendToBody` | lib/src/HttpRequestImpl.cc:832-860 | data goes to the reader, else to the file, else to memory up to the limit, else both move to a new file |
| `BodyStream.HttpRequestImpl.ReserveBodySize` | lib/src/HttpRequestImpl.cc:809-830 | a large announced length moves what is in memory to a new file |
| `BodyStream.HttpRequestImpl.SetStreamReader` | lib/src/HttpRequestImpl.cc:1080-1115 | a late reader gets the exception, or the stored body and then the end if the stream ended |
| `BodyStream.HttpRequestImpl.SetOnce` | lib/src/RequestStream.cc:44-75 | only the first of several readers is set, on the loop at once, from elsewhere as a queued task |
| `BodyStream.HttpRequestImpl.StreamFinish` | lib/src/HttpRequestImpl.cc:1123-1139 | the waiting callback runs and the reader is told, each once |
| `BodyStream.HttpRequestImpl.StreamError` | lib/src/HttpRequestImpl.cc:1141-1165 | the reader is told or the exception kept; the waiting callback runs |
| `BodyStream.HttpRequestImpl.WaitForStreamFinish` | lib/src/HttpRequestImpl.cc:1167-1181 | the callback is kept while the stream is open and runs at once otherwise |
| `BodyStream.HttpRequestImpl.BodyView` | lib/src/HttpRequestImpl.h:234-245 | empty in stream mode, else the stored body |
| `SlashRemover.HandleReq` | lib/src/SlashRemover.cc:146-194 | the path becomes the normal path of the mode, and false is returned for exactly the paths that already were normal |
| `SlashRemover.BothIsNormalPath` | lib/src/SlashRemover.cc:86-144 | for every path starting with a slash the one-pass mode equals trailing-then-duplicate and duplicate-then-trailing removal and gives the one path with the same segments and single slashes between them |
| `SlashRemover.NormalIsWanted` | lib/src/SlashRemover.cc:146-194 | the result of each mode is the one path it is for: trailing slashes gone and nothing else; single slashes with the trailing one kept; both |
| `SlashRemover.CollapseJoins` | lib/src/SlashRemover.cc:71-84 | a path with slash runs collapsed is its segments, each behind one slash, and one trailing slash if there was any |
| `SlashRemover.TrimKeepsSegments` | lib/src/SlashRemover.cc:25-46 | removing trailing slashes keeps the segments and ends in no slash unless there are none |
| `SlashRemover.NormalIsFixed` | lib/src/SlashRemover.cc:146-194 | the result of each mode is a fixed point of it |
| `SlashRemover.CollapseSingles` | lib/src/SlashRemover.cc:71-84 | no two slashes in a row are left |
| `SlashRemover.FindTrailingSlashes` | lib/src/SlashRemover.cc:25-38 | npos for exactly the paths without trailing slashes, else the end of the trimmed path |
| `SlashRemover.FindDuplicateSlashes` | lib/src/SlashRemover.cc:47-69 | npos when there is no double slash, else the first one |
| `SlashRemover.RemoveDuplicateSlashes` | lib/src/SlashRemover.cc:71-84 | the in-place compaction leaves exactly the collapsed path in the array |
| `SlashRemover.FindExcessiveSlashes` | lib/src/SlashRemover.cc:86-144 | where to cut, and the first double slash of what is left |
| `Range.ParseRangeHeader` | lib/src/RangeParser.cc:43-172 | the scanner's verdict and ranges are those of the grammar and the fold over the items, on every input |
| `Range.OverflowTest` | lib/src/RangeParser.cc:18-29 | the overflow test is true exactly when the next digit leaves size_t |
| `Range.ScanNumber` | lib/src/RangeParser.cc:71-79 | a run of digits is scanned inside size_t to its value, or reported as overflow exactly when the value is outside |
| `Range.Resolve` | lib/src/RangeParser.cc:126-139 | clipping to a half-open range inside size_t; the wrap of contentLength - 1 for an empty content is undone |
| `Range.Handle` | lib/src/RangeParser.cc:141-161 | an empty range is skipped, the total never leaves size_t, more than a hundred ranges are invalid except behind a prefix range |
| `Range.HeaderInside` | lib/src/RangeParser.cc:43-172 | on any input every range handed out satisfies start < end <= contentLength, and an accepted set has one or more ranges and asks for no more bytes than there are |
| `RangeSyntax.ItemIsWritten` | lib/src/RangeParser.cc:60-139 | a range is read exactly where one is written: blanks, digits and dash in one of the three forms, up to a comma or the end |
| `RangeSyntax.OnlyListsAccepted` | lib/src/RangeParser.cc:43-172 | a header is accepted only if it is a list of ranges in bytes, and then for what the list asks |
| `RangeSyntax.ListsAnswered` | lib/src/RangeParser.cc:43-172 | every list of at most a hundred ranges that are not empty is answered with exactly these, or as not satisfiable when there are none or they ask for more than there is |
| `RangeSyntax.SyntaxIsBroken` | lib/src/RangeParser.cc:60-125 | a syntax error is found exactly where no range stands |
| `RangeSyntax.MalformedInvalid` | lib/src/RangeParser.cc:47-125 | another unit, or ranges and then something that is none, is invalid |
| `RangeSyntax.TooManyRefused` | lib/src/RangeParser.cc:147-161 | behind a hundred ranges that are not empty, one more of the forms a-b and -n is invalid if it asks for anything |
| `RangeSyntax.TooMuchStops` | lib/src/RangeParser.cc:104-161 | ranges that together ask for more than size_t holds are not satisfiable, whatever follows them |
| `RangeSyntax.ClipMeans` | lib/src/RangeParser.cc:126-139 | the clipped range holds exactly the bytes asked for |
| `Range.PrintedRanges` | lib/src/RangeParser.cc:31-41 | every printed list (a-b, a-, -n, with blanks) with at most a hundred non-empty ranges is answered with exactly the non-empty clipped ranges in order, or NotSatisfiable when there are none or they exceed the content length |
| `View.ReplaceAll` | drogon_ctl/create_view.cc:36-55 | the in-place loop does what the position arithmetic says |
| `View.ReplaceIsSubstitute` | drogon_ctl/create_view.cc:36-55 | for a single character every occurrence is replaced exactly once, replaced text never again |
| `View.DecodeEscaped` | drogon_ctl/create_view.cc:214-219 | the two escaping passes are undone by the C++ string literal |
| `View.ParseLine` | drogon_ctl/create_view.cc:106-249 | the recursion emits exactly the specified statements, keeps the C++ block flag, terminates on the line length, and fails exactly on an unclosed tag |
| `View.CompileMeans` | drogon_ctl/create_view.cc:106-249 | running the code of a well-formed line prints the line with each [[key]] and <%view name%> replaced by its value, all other text unchanged, plus one newline |
| `View.CxxLineMeans` | drogon_ctl/create_view.cc:57-69 | a line of a C++ block becomes code with $$ for the output stream and @@ for the view's data, each mark replaced once |
| `View.BlockInLine` | drogon_ctl/create_view.cc:106-249 | a block inside a line becomes one line of code between what the text before and behind it becomes |
| `View.BlockLine` | drogon_ctl/create_view.cc:225-249 | a line inside a block becomes one line of code |
| `View.BlockEnds` | drogon_ctl/create_view.cc:225-249 | a block that ends with its line is closed by it, and no newline is printed |
| `View.ReturnIgnored` | drogon_ctl/create_view.cc:113-117 | a carriage return at the end of a line makes no difference |
| `View.UnclosedFails` | drogon_ctl/create_view.cc:125-210 | a tag that is not closed is a format error |
| `View.TemplateMeans` | drogon_ctl/create_view.cc:525-545 | a template of well-formed lines prints what its lines mean, line by line |
| `View.ParseTemplate` | drogon_ctl/create_view.cc:525-545 | the loop over the lines compiles each in the state the one before left |
| `View.KeyName` | drogon_ctl/create_view.cc:157-163 | the name in a tag is its first word |
| `View.KeyIsWord` | drogon_ctl/create_view.cc:157-163 | whatever stands behind it |
| `Limiters.FixedBound` | lib/src/FixedWindowRateLimiter.cc:16-32 | over any run under a clock that never goes back, between any two accepted calls a time D apart at most capacity * (floor(D / timeUnit) + 2) calls are accepted, those two included |
| `Limiters.FixedWindowBound` | lib/src/FixedWindowRateLimiter.cc:16-32 | at most capacity calls are accepted since the current window began |
| `Limiters.FixedRefusesFull` | lib/src/FixedWindowRateLimiter.cc:16-32 | a call is refused only when the last capacity calls accepted all came less than a unit ago |
| `Limiters.SlidingBound` | lib/src/SlidingWindowRateLimiter.cc:17-59 | over any interval the same bound as for the fixed window |
| `SlidingEstimate.SlidingWindowBound` | lib/src/SlidingWindowRateLimiter.cc:17-59 | at most capacity calls are accepted in each aligned window |
| `SlidingEstimate.SlidingDecides` | lib/src/SlidingWindowRateLimiter.cc:17-59 | every decision of every run, told from the times of the calls and which were accepted: a call passes if and only if the calls accepted in the window before, weighted and counted as none if all came at its very start or it was full and a call came at the very start of this one, and those accepted in this window stay below the capacity |
| `SlidingEstimate.SlidingExact` | lib/src/SlidingWindowRateLimiter.cc:17-59 | the estimate equals the weighted count of accepted calls if and only if the window before is not forgotten, which takes calls exactly on a window start |
| `SlidingEstimate.RefusedCallForgets` | lib/src/SlidingWindowRateLimiter.cc:22-38 | a refused call at a window start makes the limiter forget the window before, and one more call is accepted later |
| `Limiters.BucketBound` | lib/src/TokenBucketRateLimiter.cc:16-31 | between any two accepted calls a time D apart fewer than capacity + capacity * D / timeUnit calls are accepted, those two included |
| `Limiters.BucketDecides` | lib/src/TokenBucketRateLimiter.cc:16-31 | every decision of every run: there is a time such that a call is accepted if and only if the calls accepted since, and one token, use up less than a full bucket and what flowed in |
| `Limiters.OneTokenNeverAllows` | lib/src/TokenBucketRateLimiter.cc:16-31 | a bucket never lets a call through, at any times, if and only if its capacity is at most one |
| `Limiters.IdleUnitAllows` | lib/src/TokenBucketRateLimiter.cc:16-31 | in every reachable state, after a time unit without calls the next call passes if and only if the capacity is at least two |
| `Limiters.FixedWindowRateLimiter.IsAllowed` | lib/src/FixedWindowRateLimiter.cc:16-32 | one call does the step the bound is proved about |
| `Limiters.SlidingWindowRateLimiter.IsAllowed` | lib/src/SlidingWindowRateLimiter.cc:17-59 | one call does the step the bound is proved about |
| `Limiters.TokenBucketRateLimiter.IsAllowed` | lib/src/TokenBucketRateLimiter.cc:16-31 | one call does the step the bound is proved about |

## Left out

- Sockets, event loops, TLS, DNS, timers and logging: connection state, packets, bytes out and queued tasks are what is left of them; names resolved, connections made, lost or shut down and timers expiring are events.
- WebSocket upgrades, sessions, pre-sending advices, compression, routing and handlers: a handler is the list of completions it causes; a sync advice is a choice to pass or reject.
- The error reply written straight to the connection (lib/src/HttpServer.cc:201-212) is kept as its status code only.
- RequestReceiver.HttpRequestParser.ParseRequest: requests read whole; stream mode of the parser (return values 2 and 3) is not modelled, the body's stream mode is in BodyStream. The connection is taken to be there when a 100 response is due.
- RequestReceiver.HttpRequestParser.ReadChunkLen: a signed chunk size is converted as strtol and size_t do, but the sum with the bytes already read is not wrapped at 2^64.
- RequestReceiver.Connection.OnMessage: after an error the parser's own fields are not compared any more, only what was read, dispatched and refused; packets are not empty.
- RequestText.RequestLineRead: the path is taken as written, percent-decoding is not modelled.
- RequestStreams.MessageRead: PROPFIND messages are read uncut but fall outside the fragmentation theorems.
- ResponseText.MessageRead: the values of set-cookie fields are kept as text, not taken apart.
- ResponseReceiver.HttpResponseParser.ParseResponse: a status line that starts with a blank or holds none is taken as malformed, where the code reads outside the line; `atoi` is unbounded; set-cookie values are kept as text; an empty body is not distinguished from a missing one; chunk sizes within two of 2^64 are not wrapped.
- ResponseReceiver.Receiver.OnRecvMessage: packets are not empty; decompression and cookies are not modelled.
- Client.RunAccounts: request objects are distinct and callbacks do not call back into the client.
- ClientObject.HttpClientImpl.SendRequestInLoop: the headers added to a request before it is sent are not modelled.
- MultipartReader.StreamParser.Parse: a quote looked for at the end of a header value is taken as absent.
- MultipartWriter.AppendMultipart: bytes of files on disk and the order of the parameter map are parameters; the headers of the request around the body are not modelled.
- MultipartWriter.RoundTrip: names and file names without quote or CRLF and content types that are not empty, since the writer quotes nothing.
- Chunking.ChunkingCallback: the clean-up call with a null buffer; buffers below six bytes, which hold no data, and from 16^9 bytes on, where the width no longer is one digit.
- PipeliningServer.HttpServerConnection.OnRequests: the flag shared by a batch is a set of requests whose flag is up, and a CallbackParamPack is the HEAD flag and the sent flag of its request; the count of parsed requests grows with each batch; a WebSocket upgrade as the first request of a batch is not modelled.
- Writer.SendResponse: header text is given with the response, so the Date header and the cache of rendered text are not computed; streams are started but not run.
- BodyStream.RunInv: the request outlives its stream; writes to the temporary file succeed; stream mode is left only for requests whose handler takes no stream, as in lib/src/HttpServer.cc:486-527.
- SlashRemover.HandleReq: paths start with a slash, as the code's comments demand.
- Range.PrintedRanges: beyond a hundred non-empty ranges the verdict depends on the kind of the last range; `Range.ParseRangeHeader` covers those inputs, as do `RangeSyntax.ListsAnswered` and `RangeSyntax.MalformedInvalid` up to there.
- View.CompileMeans: lines without carriage return or C++ block, whose texts do not run into a tag and whose names need no escaping; C++ blocks are compiled by `View.ParseLine` but not run.
- View.TemplateMeans: layout lines and the `{% %}` abbreviations are not modelled.
- View.ParseTemplate: the same lines are not compiled.
- Limiters.SlidingBound: time and tokens are reals without rounding.
- JSON, databases, Redis, plugins other than the slash remover, regex routing and the other generators of drogon_ctl.
