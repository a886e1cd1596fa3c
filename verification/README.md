# HTTP client stack: models and proofs

This project models the protocol code of the HTTP client stack under `hermes/lazy-packages` (aiohttp and aiohappyeyeballs) in
Dafny and proves what that code is for. `dafny verify dfyconfig.toml` checks everything.

The code is incremental, stateful and re-entrant. Each part is modelled in its own form (classes whose methods update their
fields, loops with invariants) and proved against a specification that is simple: a one-shot decoder, a search in the whole
text, a scan of all entries, a map from each connection to its place.

- **Wire codec.** `Bytes`, `HeadersParser`, `PayloadDecoding`, `PayloadSegmentation`, `HttpPayloadParser`, `HttpFraming` and
  `HttpParser` are the strict HTTP/1.1 parser (RFC 9112), `HttpRequestHead` what the headers of a request say about its body.
  `ChunkGrammar` and `MessageGrammar` write down, without any decoder, what a chunked body and the body after a head are, and show
  that the decoder reads exactly that.
  `PayloadDecoding.Run` and `HttpFraming.RunHttp` decode a whole string at once; the classes follow them for every
  segmentation, pause, queue-full stop and answer of more pending output.
  A call may end early only because of a pause or a full queue, and then less is left to be done; `PayloadDelivery`, `Drain`
  and `EndToEnd.Deliver` conclude that everything arrives. How long a consumer goes on asking for pauses and having more
  pending output is its ghost `patience`: any finite number.
  A line exactly as long as its limit is where segmentation shows, and `SegmentationIff` says that it is the only place:
  the kept tail of a partial line counts its CR. The *tight* policy keeps lines strictly below the limits (and refuses a bare
  LF in a head, and data after a message that closes the connection); claims about all segmentations are about input that it
  accepts. `HttpWriter` is the stream writer, `WireRoundTrip` shows that parser and writer undo each other, and `EndToEnd`
  puts the two ends of a connection together.
- **Payload buffer.** `Streams` is the stream reader with its chunk marks, its water marks and its re-entrant flow control: a
  resume may feed any amount of data before it returns (a loop over nondeterministic events). The ghost value `Unread` is the
  octets not yet handed out. A producer wakes a waiting reader any finite number of times and is then silent.
- **Multipart.** `Multipart` is the boundary reader over two windows, `Base64` the encoder of a part that arrives in pieces.
- **Connecting.** `HappyEyeballs` is the race of RFC 8305 over a nondeterministic event loop that can let any task progress,
  fail or return, any timer fire, and the race itself be cancelled (the ghost field `interrupted`), whenever the race waits; and
  connecting to one address after the other. `AddressOrder` is the order of attempts and what is dropped
  after a failure.
- **Connection pool and DNS cache.** `Connector` is the pool; every method is the code between two suspensions, so any
  sequence of calls is a run. The ghost map `place` says where each connection is; the invariant makes it agree with the idle
  queues, the acquired set and the sets per host, and keeps each host within its limit. `DnsCache` is the LRU table with
  rotating answers and the protocol of one resolution for all who ask.
- **Cookies.** `CookieMatching` and `CookieLookup` show that the indexed lookup is the scan of RFC 6265. `CookieStore` is what
  a jar holds as a value, `CookieJar` the class with its heap of deadlines and its cache of built cookies, proved to behave
  like that value.

## Where the code departs from what one expects

Each of these is stated exactly, with the condition under which the expected property holds.

- A chunk-size or trailer line exactly as long as its limit is accepted in one piece and refused when cut between CR and LF
  (`SegmentationIff`).
- Serializing no headers at all leaves a line break over (`NoHeadersLeftover`).
- The limit on all connections is checked only before a new one is opened (`ReuseExceedsLimit`; exactly
  when, `Connect`).
- Popping zero addresses leaves the list as it is, so that a connect loop with an interleave of zero would not end (`Shrinks`).
- An expiry date that is the epoch itself is not taken for a date; the cookie is kept (`PastDateIff`).
- A deadline survives when the cookie is set again without one (`GoneAfterTen`; exactly when, `OldDeadlineIff`).
- A host-only flag belongs to a domain and a name, not to a path: it may keep a later cookie from the host that set it
  (`SentBackIff`), and goes away with any cookie of that domain and name, after which a cookie meant for its host only is sent
  to subdomains (`ReachSubdomain`; exactly when, `FlagStaysIff` and `ReachesOthersIff`).
- A shared cookie is sent after it was replaced, exactly if it is stored under a name other than its own (`ReplaceShared`).
- A cookie path that ends in two slashes matches requests that RFC 6265 would not match (`PathTestIff`).
- An answer without addresses, or a cache of size zero, makes the resolver fail after a successful resolution (`Finish`,
  `NextAddrs`), and a waiter fails if the host was evicted meanwhile (`Resume`).

## Model

| member | source | states |
|---|---|---|
| `HeadersParser.ParseLineIff` | hermes/lazy-packages/aiohttp/http_parser.py:185-248 | a header line yields a header if and only if it is the name (a token), a colon, and the trimmed, clean value between blanks |
| `HeadersParser.LineFeedRejected` | hermes/lazy-packages/aiohttp/http_parser.py:185-248 | a bare LF in a header line is never accepted |
| `HeadersParser.ParseHeaders` | hermes/lazy-packages/aiohttp/http_parser.py:174-250 | the index loop returns the headers of the block in order, or the error of the first line that is refused, with singleton names compared case-insensitively |
| `HeadersParser.LineFeedSpoils` | hermes/lazy-packages/aiohttp/http_parser.py:174-250 | a block that contains a line with a bare LF is refused, wherever the line is |
| `HeadersParser.HeaderListRoundTrip` | hermes/lazy-packages/aiohttp/http_writer.py:356-369 | rendered headers are parsed back to the same list, in order, after any headers already seen |
| `HeadersParser.CharactersIff` | hermes/lazy-packages/aiohttp/http_parser.py:185-248 | the characters of a token, the blanks, and the control characters that no value may contain are those of RFC 9110 |
| `HeadersParser.HeaderBlockIff` | hermes/lazy-packages/aiohttp/http_parser.py:174-250 | a block is accepted, with these headers, if and only if each line has one of them on it, in order, and no name that may occur only once occurs twice |
| `HeadersParser.FirstRefused` | hermes/lazy-packages/aiohttp/http_parser.py:174-250 | a refused block has the error of its first line that is refused: one kind if no header is on it, another if it repeats a name that may occur only once |
| `HeadersParser.SerializesIff` | hermes/lazy-packages/aiohttp/http_writer.py:351-369 | the serializer refuses exactly what has a control character in its status line, a name or a value |
| `HeadersParser.OnlyOnce` | hermes/lazy-packages/aiohttp/http_parser.py:245-246 | in an accepted block Content-Length, Transfer-Encoding and Host occur once at most, in whatever case they are written |
| `PayloadDecoding.RunAppend` | hermes/lazy-packages/aiohttp/http_parser.py:932-1126 | the one-shot decoder can be stopped after any prefix: signals, state and kept tail stand for the prefix, and decoding goes on from there; a refusal stays |
| `PayloadDecoding.TightAgrees` | hermes/lazy-packages/aiohttp/http_parser.py:983-1109 | with every line strictly below its limit the decoder gives the same result as with the limits themselves, or refuses |
| `PayloadDecoding.SpoiledTrailers` | hermes/lazy-packages/aiohttp/http_parser.py:1073-1109 | a trailer section that holds a bare LF is never completed |
| `PayloadDecoding.OverLimitFails` | hermes/lazy-packages/aiohttp/http_parser.py:966-981 | a kept partial line over the limit cannot be completed by any line strictly below it |
| `PayloadSegmentation.PiecesAgree` | hermes/lazy-packages/aiohttp/http_parser.py:932-1126 | feeding a body in pieces, with the tail kept between calls, gives signals, state and leftover of decoding it at once |
| `PayloadSegmentation.LimitLineIff` | hermes/lazy-packages/aiohttp/http_parser.py:966-1109 | a body that is accepted is refused under limits lower by one if and only if one of its size or trailer lines is exactly as long as its limit |
| `PayloadSegmentation.LimitCut` | hermes/lazy-packages/aiohttp/http_parser.py:966-981 | where a body accepted whole has a line as long as its limit, there is such a line and a cut between its CR and its LF, at which the parser keeps one octet more than the limit and then fails |
| `PayloadSegmentation.SegmentationIff` | hermes/lazy-packages/aiohttp/http_parser.py:932-1126 | for every chunked body that is accepted in one piece: all ways to cut it up give the same signals and leftover if and only if no size or trailer line in it is exactly as long as its limit |
| `HttpPayloadParser.HttpPayloadParser.FeedData` | hermes/lazy-packages/aiohttp/http_parser.py:932-1126 | whatever the pieces, pauses and answers of more pending output: what the consumer is told, completion and leftover are those of the one-shot decoder on all that was fed; a consumer that asks for a pause is fed nothing more in this call; a call ends early only if a pause was asked for, and then less is left to be done; an error occurs only if the tight decoder fails |
| `HttpPayloadParser.HttpPayloadParser.FeedFully` | hermes/lazy-packages/aiohttp/http_parser.py:932-1126 | a call and the resumes after it come to an end, and together they do exactly what one call of a parser that is never paused does, errors included |
| `HttpPayloadParser.HttpPayloadParser.CloseFully` | hermes/lazy-packages/aiohttp/http_parser.py:910-930 | the end of the connection and the resumes after it complete a body that runs until it, with all its octets |
| `HttpPayloadParser.HttpPayloadParser.FeedChunked` | hermes/lazy-packages/aiohttp/http_parser.py:966-1109 | the same for the chunked state machine, as a loop that falls through its four states |
| `HttpPayloadParser.HttpPayloadParser.FeedLength` | hermes/lazy-packages/aiohttp/http_parser.py:944-963 | the same for a body of announced length |
| `HttpPayloadParser.HttpPayloadParser.FeedUntilEof` | hermes/lazy-packages/aiohttp/http_parser.py:1111-1126 | the same for a body that runs to the end of the connection |
| `HttpPayloadParser.HttpPayloadParser.ReadSize` | hermes/lazy-packages/aiohttp/http_parser.py:983-1032 | a size line, with its extension dropped, starts a chunk or the trailers; a partial one is kept until more input arrives; no signal is lost |
| `HttpPayloadParser.HttpPayloadParser.ReadChunk` | hermes/lazy-packages/aiohttp/http_parser.py:1034-1054 | chunk data goes to the consumer up to the chunk size; the call pauses only if that was asked for, and otherwise delivers, asks for more input or ends the chunk |
| `HttpPayloadParser.HttpPayloadParser.ReadChunkEof` | hermes/lazy-packages/aiohttp/http_parser.py:1057-1070 | exactly one CRLF is dropped after a chunk |
| `HttpPayloadParser.HttpPayloadParser.ReadTrailer` | hermes/lazy-packages/aiohttp/http_parser.py:1073-1109 | trailer lines are collected up to the empty one, parsed as headers, and the body is complete |
| `HttpPayloadParser.HttpPayloadParser.Flush` | hermes/lazy-packages/aiohttp/http_parser.py:955-962 | pending output is asked for until there is none, or until the consumer asks for a pause, and only then it stops early; nothing is emitted twice |
| `HttpPayloadParser.HttpPayloadParser.FeedEof` | hermes/lazy-packages/aiohttp/http_parser.py:910-930 | the end of the connection completes only a body that runs until it, with all octets emitted, at once or after a later resume |
| `HttpPayloadParser.HttpPayloadParser.PauseReading` | hermes/lazy-packages/aiohttp/http_parser.py:907-908 | asking for a pause changes nothing but the flag |
| `PayloadDelivery.FeedPieces` | hermes/lazy-packages/aiohttp/http_parser.py:932-1126 | the parser fed piece by piece, each with its resumes, computes what the list of calls does in the specification of segmentation |
| `PayloadDelivery.DeliverBody` | hermes/lazy-packages/aiohttp/http_parser.py:932-1126 | a chunked body without a line at its limit: for all ways to cut it up and all patterns of pauses the consumer is told all of it and the parser reports what is left over |
| `PayloadDelivery.DeliverText` | hermes/lazy-packages/aiohttp/http_parser.py:932-1126 | every chunked body whose lines are shorter than the limits, sizes in either case, extensions and trailers included, arrives however it is cut up: exactly its data is told and exactly what follows is left over |
| `ChunkGrammar.DenotesIff` | hermes/lazy-packages/aiohttp/http_parser.py:1006-1012 | a text is read as a number if and only if it is that number in hexadecimal, in either case, behind any number of zeros |
| `ChunkGrammar.SizeLineIff` | hermes/lazy-packages/aiohttp/http_parser.py:983-1012 | a size line has this size if and only if it is such a text, with or without an extension after a semicolon that contains no LF |
| `ChunkGrammar.BodyTextDecodes` | hermes/lazy-packages/aiohttp/http_parser.py:983-1109 | every chunked body, written as RFC 9112 describes it and within the limits, is decoded to its data, and what follows it is left over |
| `ChunkGrammar.CompletedIff` | hermes/lazy-packages/aiohttp/http_parser.py:983-1109 | the decoder completes its input, with these signals and this rest, if and only if the input is a chunked body with these data, followed by the rest |
| `ChunkGrammar.PartialIff` | hermes/lazy-packages/aiohttp/http_parser.py:983-1109 | part of a size line, of a trailer line, or of the line break after a chunk waits for the rest if and only if there is no LF in it, and is refused otherwise |
| `HttpFraming.TightHttpAgrees` | hermes/lazy-packages/aiohttp/http_parser.py:341-594 | the splitter for whole connections: what the strict version accepts, the version with the real limits splits the same way |
| `HttpFraming.OutGrows` | hermes/lazy-packages/aiohttp/http_parser.py:341-594 | what the strict splitter announces for a part of its input is the beginning of what it announces for the whole |
| `HttpFraming.FailureStays` | hermes/lazy-packages/aiohttp/http_parser.py:376-407 | what the strict splitter refuses, it refuses whatever follows |
| `MessageGrammar.ClosedMeans` | hermes/lazy-packages/aiohttp/http_parser.py:490-515 | after a head that announces neither a length nor chunks, but a body, all that follows is the body: it is announced as it arrives, and no further head is looked for |
| `MessageGrammar.LengthMeans` | hermes/lazy-packages/aiohttp/http_parser.py:436-475 | after a head that announces a length exactly so many octets are the body, and the next head begins after them |
| `MessageGrammar.ChunkedMeans` | hermes/lazy-packages/aiohttp/http_parser.py:436-475 | after a head that announces chunks a chunked body follows, with as many trailers as the head leaves room for, and the next head begins after it |
| `MessageGrammar.BodilessMeans` | hermes/lazy-packages/aiohttp/http_parser.py:431-520 | after a head without a body, or with a length of zero, the next head begins at once |
| `MessageGrammar.LineMeans` | hermes/lazy-packages/aiohttp/http_parser.py:376-400 | a line of a head is taken if it is no longer than the limit and not one too many, and refused otherwise |
| `MessageGrammar.EmptyLineMeans` | hermes/lazy-packages/aiohttp/http_parser.py:376-380 | empty lines before a head are skipped |
| `MessageGrammar.PartialMeans` | hermes/lazy-packages/aiohttp/http_parser.py:528-538 | part of a line of a head waits for the rest of it |
| `HttpParser.HttpParser.FeedData` | hermes/lazy-packages/aiohttp/http_parser.py:341-594 | for every sequence of pieces, pauses, queue-full stops and resumes: while the strict splitter accepts the input so far no call fails, what was announced is a beginning of what the one-shot splitter announces, and all of it whenever the parser is not held up; it is held up only by a pause or a full queue, and each call leaves less to be done unless it was paused before |
| `HttpParser.HttpParser.Drain` | hermes/lazy-packages/aiohttp/http_parser.py:341-594 | finitely many resumes, with a message taken whenever the queue is full, announce exactly what the one-shot splitter does |
| `HttpParser.HttpParser.LogIsPrefix` | hermes/lazy-packages/aiohttp/http_parser.py:341-594 | at any time what has been announced is a beginning of what the one-shot splitter announces for the input so far |
| `HttpParser.HttpParser.CloseFully` | hermes/lazy-packages/aiohttp/http_parser.py:324-329 | the end of the connection, and the resumes after it: a body that runs to the end of the connection is complete with all its octets, any other one is not |
| `HttpParser.HttpParser.SplitLine` | hermes/lazy-packages/aiohttp/http_parser.py:376-400 | a line is too long exactly if it is longer than the limit in force; after the first line of a call that is the limit for fields; anything after a closing message in the same call, and a line too many, is refused |
| `HttpParser.HttpParser.MessageConsumed` | hermes/lazy-packages/aiohttp/http_parser.py:319-322 | a slot of the queue is freed; the messages announced are those taken and those in flight, which never exceed a nonzero limit (part of the invariant) |
| `HttpParser.HttpParser.PauseReading` | hermes/lazy-packages/aiohttp/http_parser.py:315-317 | a pause reaches the body parser, which is paused from then on, and loses no input |
| `HttpParser.HttpParser.KeepPartialLine` | hermes/lazy-packages/aiohttp/http_parser.py:528-538 | without a line break the partial line is kept; a bare LF is an error, and else too long a line |
| `HttpParser.HttpParser.ReadHeadEnd` | hermes/lazy-packages/aiohttp/http_parser.py:401-527 | a complete head is announced once, takes a slot of the queue (an accepted one always does) and starts the body it describes |
| `HttpParser.HttpParser.ReadBody` | hermes/lazy-packages/aiohttp/http_parser.py:545-589 | the body parser takes the input, and what it does not need goes to the next head |
| `HttpRequestHead.BodyIsFramed` | hermes/lazy-packages/aiohttp/http_parser.py:409-479 | a request with a body has either chunks or a length, never both, and the length is the number in the header |
| `HttpRequestHead.RefusedIff` | hermes/lazy-packages/aiohttp/http_parser.py:409-424 | a request is refused if and only if its coding does not end in chunked or comes with a length, its version is 1.1 and no host is named, its length is not a decimal number, or it is of an old web socket; in terms of the headers themselves |
| `HttpRequestHead.BodyIff` | hermes/lazy-packages/aiohttp/http_parser.py:431-475 | an accepted request has chunks if and only if a coding is named, and the body length n if and only if n is not zero and is what the length header denotes; never one up to the end of the connection |
| `HttpRequestHead.ShouldCloseIff` | hermes/lazy-packages/aiohttp/http_parser.py:607-626 | a request ends the connection if and only if `close` is an element of a connection header, or the version is 1.0 or lower and `keep-alive` is not; elements are separated by commas, trimmed, and compared in either case |
| `HttpRequestHead.ChunkedIff` | hermes/lazy-packages/aiohttp/http_parser.py:750-757 | a coding is chunked if and only if `chunked` is the last element of the list |
| `HttpRequestHead.DecimalIff` | hermes/lazy-packages/aiohttp/http_parser.py:409-421 | a length is read as a number if and only if it is that number in decimal digits, behind any number of zeros |
| `HttpRequestHead.DecRoundTrip` | hermes/lazy-packages/aiohttp/http_parser.py:409-421 | a length printed in decimal is read back as the same number |
| `HttpRequestHead.RequestSendable` | hermes/lazy-packages/aiohttp/http_parser.py:596-648 | a head whose headers give the length of the body in decimal, or say that it is chunked, is read as exactly that, through the strict header parser |
| `HttpWriter.HexRoundTrip` | hermes/lazy-packages/aiohttp/http_writer.py:119-122 | a chunk size printed in hexadecimal is parsed back to the same number |
| `HttpWriter.WireGrows` | hermes/lazy-packages/aiohttp/http_writer.py:119-205 | what one piece adds to the wire turns the encoding of the pieces so far into the encoding with that piece; an empty piece adds no chunk |
| `HttpWriter.StreamWriter.WriteHeaders` | hermes/lazy-packages/aiohttp/http_writer.py:207-216 | the header block is kept, not sent; a control character is refused |
| `HttpWriter.StreamWriter.SendHeadersWithPayload` | hermes/lazy-packages/aiohttp/http_writer.py:124-154 | the kept header block goes out exactly once, before the first piece, and before the last chunk at the end |
| `HttpWriter.StreamWriter.Write` | hermes/lazy-packages/aiohttp/http_writer.py:156-205 | the wire holds header block and framed pieces; an empty piece never writes a terminating chunk; what exceeds an announced length is cut off |
| `HttpWriter.StreamWriter.SendHeaders` | hermes/lazy-packages/aiohttp/http_writer.py:218-231 | a waiting header block is forced out, once |
| `HttpWriter.StreamWriter.SetEof` | hermes/lazy-packages/aiohttp/http_writer.py:233-258 | the end without payload writes the last chunk of a chunked message whose header block was written, and of no other |
| `HttpWriter.StreamWriter.WriteEof` | hermes/lazy-packages/aiohttp/http_writer.py:260-336 | the end writes a last piece and the last chunk once; a second end writes nothing |
| `WireRoundTrip.ChunksDecode` | hermes/lazy-packages/aiohttp/http_writer.py:119-122 | every list of nonempty chunks, encoded and followed by anything, is decoded to those chunks with the rest left over |
| `WireRoundTrip.ChunkPayload` | hermes/lazy-packages/aiohttp/http_writer.py:119-205 | the payload that the decoder emits for the chunks is the concatenation of the writes |
| `WireRoundTrip.HeadDecodes` | hermes/lazy-packages/aiohttp/http_parser.py:376-407 | the lines of a head are split off and announced, and the body starts right after the empty line |
| `WireRoundTrip.MessageDecodes` | hermes/lazy-packages/aiohttp/http_writer.py:119-336 | one encoded message is announced with its head and payload, and the next begins right after it |
| `WireRoundTrip.PipelineRoundTrip` | hermes/lazy-packages/aiohttp/http_parser.py:341-594 | a pipeline of encoded messages is split into exactly those messages |
| `WireRoundTrip.HeadersRoundTrip` | hermes/lazy-packages/aiohttp/http_writer.py:356-369 | the octets of the serialized header block, split at line breaks, are the lines of the head, and the strict header parser gives back the same names and values in order |
| `WireRoundTrip.NoHeadersLeftover` | hermes/lazy-packages/aiohttp/http_writer.py:365-369 | without any header the serializer writes one line break too many, which is left over after the head (so the round trip needs a nonempty list) |
| `EndToEnd.NonEmptyConcat` | hermes/lazy-packages/aiohttp/http_writer.py:156-205 | dropping the empty writes does not change the payload |
| `EndToEnd.SendMessage` | hermes/lazy-packages/aiohttp/http_writer.py:124-336 | for every sequence of writes (empty ones included), with or without the header block forced out early: the octets on the wire are the encoding of the message |
| `EndToEnd.SendAll` | hermes/lazy-packages/aiohttp/http_writer.py:124-336 | messages written one after the other give the encoding of the pipeline |
| `EndToEnd.PrefixAccepted` | hermes/lazy-packages/aiohttp/http_parser.py:341-594 | every prefix of input that the strict splitter accepts is accepted, and what it announces is a beginning of what it announces for all of it |
| `EndToEnd.ReceiveOctets` | hermes/lazy-packages/aiohttp/http_parser.py:315-594 | for all octets that the strict splitter accepts, every segmentation of any part of them, and every schedule of pauses, resumes and taken messages: the parser never fails, has announced a beginning of what they mean, and keeps within its queue |
| `EndToEnd.DeliverOctets` | hermes/lazy-packages/aiohttp/http_parser.py:315-594 | when all of them have arrived, finitely many resumes and taken messages later exactly what they mean has been announced |
| `EndToEnd.Receive` | hermes/lazy-packages/aiohttp/http_parser.py:315-594 | for every list of messages, every way their writes were split, every segmentation of any part of the wire and every schedule of pauses, resumes and taken messages: the parser never fails, has announced a beginning of what was sent, and no more messages are announced and not yet taken than its queue holds |
| `EndToEnd.Deliver` | hermes/lazy-packages/aiohttp/http_parser.py:315-594 | when all octets have arrived, finitely many resumes and taken messages later exactly what was sent has been announced, without any condition |
| `EndToEnd.DeliverRequests` | hermes/lazy-packages/aiohttp/http_parser.py:315-648 | the same for requests whose heads are read by the request parser and say in their headers what the bodies are |
| `EndToEnd.DeliverToEnd` | hermes/lazy-packages/aiohttp/http_parser.py:324-594 | a message whose body runs to the end of the connection, however it arrives and whatever pauses there are: its head, all octets after it, and then the end are announced |
| `Streams.MarksNeedRoom` | hermes/lazy-packages/aiohttp/streams.py:312-346 | more distinct chunk marks than octets cannot be ahead of the reader |
| `Streams.StreamReader.constructor` | hermes/lazy-packages/aiohttp/streams.py:108-140 | the low-water mark is the limit, the high-water mark twice that, and the marks for chunks are a sixteenth of it, but at least four, and half of that; they satisfy the invariant, among others that at least two chunks fit below the low mark |
| `Streams.ReadFirstLine` | hermes/lazy-packages/aiohttp/streams.py:284-302 | on a new reader, data in any pieces pauses reading if and only if there is more of it than twice the limit, and the first line is returned if it is no longer than that, and too long otherwise |
| `Streams.StreamReader.SetReadChunkSize` | hermes/lazy-packages/aiohttp/streams.py:179-183 | a larger read size raises both water marks and keeps their ratio |
| `Streams.StreamReader.FeedData` | hermes/lazy-packages/aiohttp/streams.py:284-302 | data goes to the end of the buffer, and reading pauses only when more than the high mark is buffered |
| `Streams.StreamReader.BeginHttpChunkReceiving` | hermes/lazy-packages/aiohttp/streams.py:304-310 | chunks may begin only before any data |
| `Streams.StreamReader.EndHttpChunkReceiving` | hermes/lazy-packages/aiohttp/streams.py:312-346 | a chunk end is marked unless it is where the last one is; the marks stay strictly increasing up to the total |
| `Streams.StreamReader.FeedEof` | hermes/lazy-packages/aiohttp/streams.py:215-237 | the end of the stream ends any pause |
| `Streams.StreamReader.ResumeReading` | hermes/lazy-packages/aiohttp/base_protocol.py:84-104 | resuming lets the parser feed any amount of data, chunk ends or the end, and pause again, before it returns; all accounts and the no-stall property are kept |
| `Streams.StreamReader.UnreadData` | hermes/lazy-packages/aiohttp/streams.py:264-281 | pushed-back data comes next, and cursor plus size stays the total |
| `Streams.StreamReader.DropMarks` | hermes/lazy-packages/aiohttp/streams.py:528-557 | exactly the marks that the reader has passed are dropped |
| `Streams.StreamReader.ReadNowaitChunk` | hermes/lazy-packages/aiohttp/streams.py:528-557 | what is returned, then what is buffered, is what was buffered, then what a re-entrant refill added; reading is resumed exactly when less than the low-water marks is left, of octets and of chunks, and never left paused with an empty buffer before the end |
| `Streams.StreamReader.ReadAllNowait` | hermes/lazy-packages/aiohttp/streams.py:559-579 | returns exactly what was buffered when the read began; a refill stays for the next read |
| `Streams.StreamReader.ReadNowait` | hermes/lazy-packages/aiohttp/streams.py:559-579 | returns at most n octets, fewer only if the buffer ran dry |
| `Streams.StreamReader.Read` | hermes/lazy-packages/aiohttp/streams.py:411-450 | returns the next octets, at most n; none only at the end of the stream; it waits for ever only if nothing is buffered, the end was not fed and the producer is silent |
| `Streams.StreamReader.ReadAny` | hermes/lazy-packages/aiohttp/streams.py:452-462 | returns whatever is buffered; nothing only at the end of the stream; it waits for ever only if there is nothing and the producer is silent |
| `Streams.StreamReader.ReadChunk` | hermes/lazy-packages/aiohttp/streams.py:464-496 | a result flagged as chunk end stops exactly on a chunk end, and without pushed-back data no chunk end is jumped over; it waits for ever only if there is neither data nor a mark nor the end |
| `Streams.StreamReader.ReadToMark` | hermes/lazy-packages/aiohttp/streams.py:470-488 | reads exactly up to the first mark, which is gone then while all later ones stay; the branch for a mark behind the reader is unreachable |
| `Streams.StreamReader.ReadUntil` | hermes/lazy-packages/aiohttp/streams.py:372-409 | with a one-byte separator: the line is the shortest prefix of the stream that ends with it (or the rest at the end), whatever strings it arrived in; too long is reported exactly when that prefix exceeds the limit; it waits for ever only without the end and after taking all there is |
| `Multipart.BodyPartReader.ReadChunkFromStream` | hermes/lazy-packages/aiohttp/multipart.py:405-448 | for every segmentation and every size of at least the boundary with its line break: when the part ends, exactly the octets before the first line break and boundary were delivered and the content stands at that line break; reading after the end means that the text has no boundary; only a content that has not ended and has nothing left holds the reader up |
| `Multipart.BodyPartReader.GatherChunk` | hermes/lazy-packages/aiohttp/multipart.py:416-427 | enough is read for a boundary to fit, and what is beyond the size is pushed back; it is held up only by a content that has not ended and has nothing left |
| `Multipart.BodyPartReader.SearchNext` | hermes/lazy-packages/aiohttp/multipart.py:429-448 | the search in two adjacent windows misses no boundary that straddles them |
| `Multipart.BodyPartReader.FinishPart` | hermes/lazy-packages/aiohttp/multipart.py:436-448 | the octets from the boundary on are pushed back, and what precedes it is the last piece |
| `Multipart.BodyPartReader.ReadChunk` | hermes/lazy-packages/aiohttp/multipart.py:351-393 | after the last piece the line break is taken off as well; it is always there, so the part is never reported as malformed |
| `Multipart.BodyPartReader.Read` | hermes/lazy-packages/aiohttp/multipart.py:328-349 | the whole part (or the rest of it) is exactly the octets before the first boundary; on a content that has arrived completely the result is that part if there is a boundary and the part is not too large, an error for reading after the end if there is none, and too large only if the part really exceeds the limit of the client |
| `Multipart.WindowFinds` | hermes/lazy-packages/aiohttp/multipart.py:429-435 | the search in a window finds the first occurrence in the whole text, if none starts before the search does |
| `Base64.RoundTrip` | hermes/lazy-packages/aiohttp/multipart.py:1215-1247 | decoding undoes encoding, for every octet string |
| `Base64.DecodeIff` | hermes/lazy-packages/aiohttp/multipart.py:1215-1247 | exactly the encodings are decoded |
| `Base64.AlphabetIs` | hermes/lazy-packages/aiohttp/multipart.py:1226-1243 | the symbols are those of RFC 4648 |
| `Base64.EncodeAppend` | hermes/lazy-packages/aiohttp/multipart.py:1226-1243 | whole groups of three octets are encoded by themselves |
| `Base64.PayloadWriter.Write` | hermes/lazy-packages/aiohttp/multipart.py:1226-1247 | at most two octets are held back, and the wire encodes all the others |
| `Base64.PayloadWriter.WriteEof` | hermes/lazy-packages/aiohttp/multipart.py:1215-1224 | however the data was split, the wire is the encoding of all of it and decodes to it |
| `HappyEyeballs.Race.Start` | hermes/lazy-packages/aiohappyeyeballs/_staggered.py:150-158 | the next attempt starts only after the one before it failed or its timer fired; the attempts started are a prefix |
| `HappyEyeballs.Race.Fail` | hermes/lazy-packages/aiohappyeyeballs/_staggered.py:131-138 | a failure is recorded for this attempt, its socket is closed and the next attempt is let go |
| `HappyEyeballs.Race.WaitOne` | hermes/lazy-packages/aiohappyeyeballs/_staggered.py:31-49 | reports a task of the set that is done, or that the next attempt may start, or that somebody cancelled the race meanwhile |
| `HappyEyeballs.Race.Watch` | hermes/lazy-packages/aiohappyeyeballs/_staggered.py:164-185 | waits until the next attempt may start, until an attempt succeeds, or until all are seen to have failed; it ends, and is interrupted only if the race was cancelled |
| `HappyEyeballs.Race.CancelRest` | hermes/lazy-packages/aiohappyeyeballs/_staggered.py:186-205 | every task left is cancelled and awaited, also those that finish meanwhile |
| `HappyEyeballs.Race.StaggeredRace` | hermes/lazy-packages/aiohappyeyeballs/_staggered.py:52-207 | in every interleaving: no task is left running, exceptions are recorded exactly for the attempts that failed, the winner returned and has none, and without a winner all were started and all failed; the race ends, and is interrupted only from outside |
| `HappyEyeballs.Race.AtMostOneUnfinished` | hermes/lazy-packages/aiohappyeyeballs/_staggered.py:115-137 | without a delay at most the last attempt started is unfinished |
| `HappyEyeballs.Race.CreateSocket` | hermes/lazy-packages/aiohappyeyeballs/impl.py:178-185 | the attempt owns a new socket, which is in the set of open sockets from then on |
| `HappyEyeballs.Race.ConnectByRace` | hermes/lazy-packages/aiohappyeyeballs/impl.py:84-115 | when it returns or raises, every socket that was created has been closed, except the one returned |
| `HappyEyeballs.Race.ConnectInTurn` | hermes/lazy-packages/aiohappyeyeballs/impl.py:71-83 | one address after the other: the first that answers is taken, all before it failed, and every socket that was created has been closed, except the one returned |
| `HappyEyeballs.Race.StartConnection` | hermes/lazy-packages/aiohappyeyeballs/impl.py:58-115 | there is a race if and only if a delay was given and there is not exactly one address, else one address is tried after the other; no socket that was created is left open but the one returned; it is cancelled only from outside |
| `AddressOrder.InterleaveAddrinfos` | hermes/lazy-packages/aiohappyeyeballs/impl.py:235-259 | the loops produce the round-robin order; only a count above one with no addresses is an error |
| `AddressOrder.InterleavedKeeps` | hermes/lazy-packages/aiohappyeyeballs/impl.py:235-259 | interleaving is a permutation that keeps the order within each family |
| `AddressOrder.FirstFamilyCount` | hermes/lazy-packages/aiohappyeyeballs/impl.py:250-259 | exactly min(count, all) addresses of the first family lead, then comes the second family (First Address Family Count of RFC 8305) |
| `AddressOrder.RoundRobinOf` | hermes/lazy-packages/aiohappyeyeballs/impl.py:254-258 | taking turns gives each list back in order |
| `AddressOrder.RemoveDropped` | hermes/lazy-packages/aiohappyeyeballs/utils.py:48-58 | removing the collected addresses by value leaves the right ones, also when there are duplicates |
| `AddressOrder.RemainingOf` | hermes/lazy-packages/aiohappyeyeballs/utils.py:37-58 | of each family exactly the first k are gone, the rest is in order |
| `AddressOrder.Shrinks` | hermes/lazy-packages/aiohappyeyeballs/utils.py:37-58 | a nonempty list becomes shorter if and only if k is at least one |
| `AddressOrder.AddressList.PopInterleave` | hermes/lazy-packages/aiohappyeyeballs/utils.py:37-58 | the list is changed in place to what remains; no number means one |
| `AddressOrder.RemoveSelected` | hermes/lazy-packages/aiohappyeyeballs/utils.py:81-97 | removing all matching addresses by value leaves exactly those that do not match |
| `AddressOrder.AddressList.RemoveAddr` | hermes/lazy-packages/aiohappyeyeballs/utils.py:70-97 | exactly the addresses that are equal are dropped, or else those that are the same when parsed; an error exactly if there is neither |
| `AddressOrder.AddressList.TryAll` | hermes/lazy-packages/aiohttp/connector.py:1579-1620 | whatever fails, the connect loop makes no more attempts than there are addresses; what is left to try is exactly what the failures leave, and it gives up only when nothing is |
| `Connector.AcquireOk` | hermes/lazy-packages/aiohttp/connector.py:743-745 | acquiring something new keeps ownership and, where the host has room, its limit |
| `Connector.ReleaseOk` | hermes/lazy-packages/aiohttp/connector.py:798-802 | giving something up keeps ownership and frees a slot of its host |
| `Connector.TakeOk` | hermes/lazy-packages/aiohttp/connector.py:735-745 | taking an idle connection keeps every other connection where it is, and the host within its limit |
| `Connector.CleanupOk` | hermes/lazy-packages/aiohttp/connector.py:432-447 | a cleanup keeps ownership, order and limits |
| `Connector.SurvivingOrDead` | hermes/lazy-packages/aiohttp/connector.py:436-444 | a connection leaves the pool in a cleanup if and only if it is closed |
| `Connector.BaseConnector.AvailableConnections` | hermes/lazy-packages/aiohttp/connector.py:572-595 | positive if and only if both limits leave room |
| `Connector.BaseConnector.Get` | hermes/lazy-packages/aiohttp/connector.py:724-764 | the oldest reusable connection is acquired, those before it are closed and nothing else; no connection is lost |
| `Connector.BaseConnector.Reserve` | hermes/lazy-packages/aiohttp/connector.py:643-648 | a placeholder takes a slot only where the host has no idle connection and both limits leave room |
| `Connector.BaseConnector.Connect` | hermes/lazy-packages/aiohttp/connector.py:623-648 | a request gets the oldest reusable connection (connected, and not idle for too long), or a slot within both limits, or joins the end of its queue; the connections in front of it are closed and the rest of the pool stays as it is; the limit on all connections is still kept afterwards if and only if it was not used up with an idle connection of the host that could be reused |
| `Connector.BaseConnector.Woken` | hermes/lazy-packages/aiohttp/connector.py:713-722 | a woken request leaves its queue and tries again; if it lost the race it waits again, in front of the others |
| `Connector.BaseConnector.Created` | hermes/lazy-packages/aiohttp/connector.py:664-680 | the connection takes exactly the place of its placeholder; if the pool was closed meanwhile it is closed |
| `Connector.BaseConnector.ReleaseAcquired` | hermes/lazy-packages/aiohttp/connector.py:792-803 | what is given up leaves the pool, its host has a slot free, and a waiter is woken if there is one |
| `Connector.BaseConnector.Release` | hermes/lazy-packages/aiohttp/connector.py:805-835 | a connection given back is closed, or becomes the newest idle one of its host |
| `Connector.BaseConnector.ReleaseWaiter` | hermes/lazy-packages/aiohttp/connector.py:766-790 | wakes the first pending waiter of a host with a free slot, or there is no such waiter; everybody else who is pending still waits, in the same order |
| `Connector.NobodyForgotten` | hermes/lazy-packages/aiohttp/connector.py:785-790 | who is pending in a queue is still in it after somebody was woken |
| `Connector.ServedInTurn` | hermes/lazy-packages/aiohttp/connector.py:766-790 | a run in which two requests wait for the only slot, and both are woken, in the order in which they came |
| `Connector.BaseConnector.Cleanup` | hermes/lazy-packages/aiohttp/connector.py:420-457 | exactly the idle connections that are dead or too old are closed and leave the pool |
| `Connector.BaseConnector.Close` | hermes/lazy-packages/aiohttp/connector.py:502-562 | exactly what the pool holds is closed, nothing is left in it, and nobody waits any more |
| `Connector.ReuseExceedsLimit` | hermes/lazy-packages/aiohttp/connector.py:724-745 | a run after which two connections are acquired with a limit of one: reusing an idle connection is not guarded by it |
| `DnsCache.RotationsAre` | hermes/lazy-packages/aiohttp/connector.py:876-882 | the n-th answer is the list rotated by n modulo its length |
| `DnsCache.TurnsRotate` | hermes/lazy-packages/aiohttp/connector.py:876-882 | taking as many addresses as there are and then one more makes each answer of a cycle the one before, rotated by one |
| `DnsCache.Evict` | hermes/lazy-packages/aiohttp/connector.py:864-866 | the host that is evicted was used before all that stay |
| `DnsCache.DNSCacheTable.Add` | hermes/lazy-packages/aiohttp/connector.py:855-866 | the host becomes the most recently used; at most the allowed number stays, without the least recently used one; timestamps have exactly the hosts of the table |
| `DnsCache.DNSCacheTable.Remove` | hermes/lazy-packages/aiohttp/connector.py:868-870 | exactly this host is gone |
| `DnsCache.DNSCacheTable.NextAddrs` | hermes/lazy-packages/aiohttp/connector.py:876-882 | takes the next addresses of the cycle and skips one: this is the next rotation of the list that was added, and counts as a use; an error if the host is absent or has no addresses |
| `DnsCache.Throttle.ResolveHost` | hermes/lazy-packages/aiohttp/connector.py:1130-1165 | an entry answers for as long as its lifetime since it was added; else whoever asks waits for the one resolution under way or begins it |
| `DnsCache.Throttle.Finish` | hermes/lazy-packages/aiohttp/connector.py:1191-1230 | everybody who waits is told the same outcome, that it succeeded or the error, and nobody else is told anything; nobody is left waiting, and another resolution may begin |
| `DnsCache.Throttle.Resume` | hermes/lazy-packages/aiohttp/connector.py:1155-1159 | a waiter that was told of success gets the next answer of the table, or none if the host is not there any more |
| `CookieMatching.PathsIff` | hermes/lazy-packages/aiohttp/cookiejar.py:501-502 | the paths tried are exactly the request path and its prefixes before a slash, shorter ones first |
| `CookieMatching.DomainsIff` | hermes/lazy-packages/aiohttp/cookiejar.py:491-499 | the domains tried are exactly those that match the host (and the empty one for a host that ends in a dot), shorter ones first |
| `CookieMatching.SplitLast` | hermes/lazy-packages/aiohttp/cookiejar.py:496-499 | splitting at dots from the left and accumulating from the right agree |
| `CookieMatching.PathTestIff` | hermes/lazy-packages/aiohttp/cookiejar.py:501-519 | the test for paths is the one of section 5.1.4 of RFC 6265 for every request if and only if the cookie path does not end in two slashes |
| `CookieLookup.PairsAre` | hermes/lazy-packages/aiohttp/cookiejar.py:503-504 | the product of domains and paths has every pair, a longer domain after a shorter one, and for the same domain a longer path after a shorter one |
| `CookieLookup.OverlayLast` | hermes/lazy-packages/aiohttp/cookiejar.py:508-532 | the last place tried that has a passing cookie of the name decides |
| `CookieLookup.LookupIsScan` | hermes/lazy-packages/aiohttp/cookiejar.py:448-534 | the indexed lookup finds a name if and only if a scan of all cookies finds one that belongs to the request (domain, path, secure and host-only, each by its own words), and then it is one with the longest domain and then the longest path |
| `CookieLookup.BestUnique` | hermes/lazy-packages/aiohttp/cookiejar.py:504-532 | there is only one such cookie of each name |
| `CookieLookup.BuildIs` | hermes/lazy-packages/aiohttp/cookiejar.py:536-550 | what is sent is the name and the value; where values are quoted, one that came in quotes stays as it came, and any other is quoted |
| `CookieStore.StoreKeeps` | hermes/lazy-packages/aiohttp/cookiejar.py:385-444 | each cookie is stored under its own domain and its path without trailing slashes |
| `CookieStore.DomainMatchIff` | hermes/lazy-packages/aiohttp/cookiejar.py:552-566 | a host matches a domain if and only if it is the domain or a name below it, and not an address (section 5.1.3 of RFC 6265) |
| `CookieStore.DefaultPathIs` | hermes/lazy-packages/aiohttp/cookiejar.py:413-424 | the default path is what precedes the last slash of the path, or the slash if nothing does (section 5.1.4 of RFC 6265) |
| `CookieStore.DomainIs` | hermes/lazy-packages/aiohttp/cookiejar.py:393-409 | a cookie without a domain, or with one that ends in a dot, goes to the host and is marked as only for it; any other goes to its domain without a dot in front and is not marked |
| `CookieStore.StoredIff` | hermes/lazy-packages/aiohttp/cookiejar.py:410-444 | a cookie is refused if and only if its domain does not match the host; else it is stored with its name, value and path, or the default path |
| `CookieStore.StoreElsewhere` | hermes/lazy-packages/aiohttp/cookiejar.py:385-444 | no other cookie and no other deadline changes |
| `CookieStore.DeadlineIs` | hermes/lazy-packages/aiohttp/cookiejar.py:427-438 | a maximal age counts from now, up to the end of the year 9999, and comes before a date |
| `CookieStore.LifetimesKept` | hermes/lazy-packages/aiohttp/cookiejar.py:427-438 | lifetimes that cannot be read are blanked in the stored cookie, and others are kept |
| `CookieStore.PastDeadlineRemoves` | hermes/lazy-packages/aiohttp/cookiejar.py:425-446 | setting a cookie with a deadline that has passed removes it |
| `CookieStore.PastDateIff` | hermes/lazy-packages/aiohttp/cookiejar.py:433-446 | setting a cookie with a date that has passed leaves it stored if and only if the date is the epoch itself and no earlier deadline of it is due |
| `CookieStore.OldDeadlineIff` | hermes/lazy-packages/aiohttp/cookiejar.py:425-446 | a cookie set again without a deadline stays, until the deadline it had before: it is removed if and only if that is due |
| `CookieStore.SetAgain` | hermes/lazy-packages/aiohttp/cookiejar.py:425-446 | a cookie with a deadline ahead that is set again without one is there exactly until the old deadline |
| `CookieStore.SentBackIff` | hermes/lazy-packages/aiohttp/cookiejar.py:374-446 | a cookie is sent back to the host that set it if and only if it was not marked earlier, by a cookie of the same name, as only for another host |
| `CookieStore.FlagStaysIff` | hermes/lazy-packages/aiohttp/cookiejar.py:359-364 | a host-only flag stays if and only if no cookie of its domain and name expires, on whatever path |
| `CookieStore.ReachesOthersIff` | hermes/lazy-packages/aiohttp/cookiejar.py:359-364 | a cookie meant for its own host only is sent to another host, where all else allows it, if and only if it stays while a cookie of its domain and name expires |
| `CookieJar.EarliestExists` | hermes/lazy-packages/aiohttp/cookiejar.py:339-343 | a nonempty heap has an earliest entry |
| `CookieJar.CookieJar.DoExpiration` | hermes/lazy-packages/aiohttp/cookiejar.py:316-357 | the lazily cleaned heap gives the same as a scan of all deadlines: exactly the cookies whose deadline has come are removed, despite stale and duplicate entries; a heap of more than a hundred entries, and more than two for each deadline, is left without stale ones |
| `CookieJar.CookieJar.Compact` | hermes/lazy-packages/aiohttp/cookiejar.py:325-336 | exactly the entries that match the present deadlines stay, as often as they were there |
| `CookieJar.CookieJar.PopDue` | hermes/lazy-packages/aiohttp/cookiejar.py:338-354 | the keys collected are exactly those that are due, every other deadline stays scheduled, and nothing that is due stays in the heap |
| `CookieJar.CookieJar.DeleteCookies` | hermes/lazy-packages/aiohttp/cookiejar.py:359-364 | cookies, deadlines, cached cookies and host-only flags of the keys are gone, and nothing else |
| `CookieJar.CookieJar.ExpireCookie` | hermes/lazy-packages/aiohttp/cookiejar.py:366-372 | the deadline is set and has a matching entry in the heap |
| `CookieJar.CookieJar.UpdateCookies` | hermes/lazy-packages/aiohttp/cookiejar.py:374-446 | the jar holds what storing each cookie in order and then expiring gives, and the cache loses exactly the cookies that changed or expired; cookies from addresses are refused unless the jar is unsafe |
| `CookieJar.CookieJar.UpdateCookie` | hermes/lazy-packages/aiohttp/cookiejar.py:385-444 | one cookie is accepted, normalised and stored, or refused |
| `CookieJar.CookieJar.SetCookie` | hermes/lazy-packages/aiohttp/cookiejar.py:439-444 | the cached cookie is dropped exactly when the stored one changes, so that the cache stays coherent |
| `CookieJar.CookieJar.FilterCookies` | hermes/lazy-packages/aiohttp/cookiejar.py:448-534 | the cookies for a request are those of the lookup, which are for each name the best that belongs to it, over the shared ones, whether they came from the cache or were built; of a shared cookie whose own key no other one has, what is cached under that key is sent, else it is built, and cached |
| `CookieJar.CookieJar.FilterShared` | hermes/lazy-packages/aiohttp/cookiejar.py:478-489 | each shared cookie goes under its own key: as it is cached there, or else as it is built |
| `CookieJar.CookieJar.FilterPlace` | hermes/lazy-packages/aiohttp/cookiejar.py:508-532 | the cookies of one place that pass the tests, each as it would be built afresh |
| `CookieJar.CookieJar.Cached` | hermes/lazy-packages/aiohttp/cookiejar.py:480-489 | a cached cookie is returned as it is, another one is built and cached, and as long as names are kept it equals the one built from what is stored |
| `CookieJar.ReplaceShared` | hermes/lazy-packages/aiohttp/cookiejar.py:374-489 | a shared cookie, of any name and content, is stored, sent, replaced and sent again, through the operations of the jar: the old one is sent if and only if its own key differs from the name it is stored under |
| `CookieJar.ReachSubdomain` | hermes/lazy-packages/aiohttp/cookiejar.py:359-534 | a run in which a cookie that was kept from a subdomain is sent to it, after a cookie of the same name on another path has expired |
| `CookieJar.GoneAfterTen` | hermes/lazy-packages/aiohttp/cookiejar.py:425-446 | a cookie set for ten seconds and set again without a limit is gone after ten seconds |

## Left out

- Lax parsing of responses (LF as line end, stray CR): its result depends on segmentation.
- Upgrades, CONNECT, and the end of the connection inside a head (`HttpParser.feed_eof`).
- The request line (method, target, version) is read by a parameter of `HttpRequestHead`, and heads of responses are the
  function `read` of the policy; the splitter and the parser are proved for every such function.
- HttpRequestHead.RequestSendable: requests that close the connection, after which the parser refuses more data, and requests
  whose method never has a body are outside of it.
- Compression: the consumer's answer that more output is pending stands for it.
- HttpPayloadParser.HttpPayloadParser.FeedData: an error is one of four kinds; which one a bad input gives is stated for the steps of
  the chunked parser, and for the whole call only for a kept line over the limit.
- HttpParser.HttpParser.FeedData: after a body was given up on without an error to the connection only the absence of false
  announcements for accepted input is stated.
- The stream reader's exceptions set on the stream, `readexactly`, `read(-1)`, and separators of several octets in `readuntil`.
- The part reader's branches for parts with a Content-Length and for base64-encoded parts, decoding, and nested multiparts.
- The stream writer's compression and its waiting for the transport to drain.
- Binding a socket to local addresses, errors raised by closing a socket, and how the exceptions of all attempts are combined.
- A second cancellation while the race cleans up, and attempts that raise `SystemExit` or `KeyboardInterrupt` (the race itself may
  be interrupted whenever it waits).
- Tracing callbacks, TLS (closing transports twice), proxies and the timer that starts a cleanup.
- Connector.BaseConnector.Close: the pool invariant is stated for an open pool; a request that resumes after closing is covered
  only up to `Created`.
- Connector.BaseConnector.Connect: like `Get`, `Woken` and `Cleanup` it is stated for an open pool.
- Fairness among waiters and hosts: the order of hosts in `ReleaseWaiter` is arbitrary, and that a waiter is served at last is
  not stated.
- `Connection` objects and their callbacks: a lease is the pair of host and connection.
- Times are integers, and within one update of the jar the clock is read twice: for the deadlines and for the expiry.
- Parsing of dates and of lifetimes, quoting of values and the test for IP addresses: they are parameters. Saving and loading
  the jar, `clear` and iteration.
- Empty entries that a lookup of the shared cookies adds to the jar, and cookies whose domain attribute was deleted without a
  host to replace it (it counts as empty).
- CookieJar.CookieJar.FilterCookies: once a shared cookie was stored under a name other than its own, which of several shared
  cookies with one key is sent is not stated, and for a host that is empty or ends in a dot (where the shared cookies are
  looked up a second time, by name) none of them.
- Order of the heap: it is a multiset from which an earliest entry is taken. Its size is not bounded: a cookie whose deadline goes back
  and forth leaves entries that are not stale.
- WebSockets, sessions, form data, payload classes, resolvers, and everything outside the files cited above.
