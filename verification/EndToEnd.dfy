/** From one application to the other: what stream writers put on a connection, a parser at its other end announces, however
    the writing was split, however the octets arrive, and whenever the reader pauses. */
module EndToEnd {
  import opened Bytes
  import opened HeadersParser
  import opened PayloadDecoding
  import opened HttpFraming
  import Payload = HttpPayloadParser
  import Parser = HttpParser
  import opened HttpWriter
  import opened WireRoundTrip
  import opened HttpRequestHead
  import opened MessageGrammar

  /** A message as an application writes it: with pieces of its body, the last of them handed to `write_eof`. */
  datatype Outgoing = Outgoing(statusLine: Bytes, headers: seq<Header>, chunked: bool, early: bool, pieces: seq<Bytes>, last: Bytes)

  /** Empty pieces leave no trace. */
  function NonEmpty(cs: seq<Bytes>): seq<Bytes> {
    if cs == [] then [] else NonEmpty(cs[..|cs| - 1]) + if cs[|cs| - 1] == [] then [] else [cs[|cs| - 1]]
  }

  function AsMessage(g: Outgoing): OutMessage {
    OutMessage(g.statusLine, g.headers, g.chunked, NonEmpty(g.pieces + [g.last]))
  }

  function AsMessages(gs: seq<Outgoing>): seq<OutMessage> { seq(|gs|, i requires 0 <= i < |gs| => AsMessage(gs[i])) }

  lemma {:induction false} NonEmptyConcat(cs: seq<Bytes>)
    ensures Concat(NonEmpty(cs)) == Concat(cs)
  {
    if cs != [] {
      var front, c := cs[..|cs| - 1], cs[|cs| - 1];
      NonEmptyConcat(front);
      assert cs == front + [c];
      ConcatAppend(front, [c]);
      ConcatOne(c);
      if c != [] { ConcatAppend(NonEmpty(front), [c]); }
      assert c == [] ==> Concat(front) + c == Concat(front);
      assert NonEmpty(front) + [] == NonEmpty(front);
    }
  }

  /** One message is written with a writer of its own: its octets are the encoding of the message. */
  method SendMessage(g: Outgoing) returns (wire: Bytes)
    requires EncodeMessage(AsMessage(g)).Some?
    ensures wire == EncodeMessage(AsMessage(g)).value
  {
    hide SerializeHeaders, OnWire, StreamWriter.Framed, NonEmpty;
    var w := new StreamWriter();
    if g.chunked { w.EnableChunking(); }
    var r := w.WriteHeaders(g.statusLine, g.headers);
    if g.early { r := w.SendHeaders(); }
    SendPieces(w, g.pieces);
    NonEmptySnoc(g.pieces, g.last);
    r := w.WriteEof(g.last);
    WholeWire(w, g);
    return w.wire;
  }

  lemma WholeWire(w: StreamWriter, g: Outgoing)
    requires w.Valid() && w.transportOpen && w.base == [] && w.sent && w.chunked == g.chunked && w.finished == g.chunked
    requires SerializeHeaders(g.statusLine, g.headers) == Some(w.head) && w.chunks == NonEmpty(g.pieces + [g.last])
    ensures Some(w.wire) == EncodeMessage(AsMessage(g))
  {
    var all := OnWire(w.head, true, w.chunked, w.chunks, w.finished);
    assert [] + all == all;
  }

  lemma NonEmptySnoc(cs: seq<Bytes>, c: Bytes)
    ensures NonEmpty(cs + [c]) == if c == [] then NonEmpty(cs) else NonEmpty(cs) + [c]
  {
    assert (cs + [c])[..|cs|] == cs;
  }

  /** The pieces become the chunks of the message. */
  method SendPieces(w: StreamWriter, pieces: seq<Bytes>)
    requires w.Valid() && !w.eof && w.transportOpen && w.length == None && w.chunks == [] && (w.headersBuf.Some? || w.sent)
    modifies w
    ensures w.Valid() && !w.eof && w.transportOpen && w.chunks == NonEmpty(pieces) && (w.headersBuf.Some? || w.sent)
    ensures w.base == old(w.base) && w.head == old(w.head) && w.chunked == old(w.chunked)
  {
    hide StreamWriter.Framed;
    for i := 0 to |pieces|
      invariant w.Valid() && !w.eof && w.transportOpen && w.length == None && w.chunks == NonEmpty(pieces[..i])
      invariant w.base == old(w.base) && w.head == old(w.head) && w.chunked == old(w.chunked)
      invariant w.headersBuf.Some? || w.sent
    {
      assert pieces[..i + 1] == pieces[..i] + [pieces[i]];
      NonEmptySnoc(pieces[..i], pieces[i]);
      var r := w.Write(pieces[i]);
    }
    assert pieces[..|pieces|] == pieces;
  }

  /** Several messages, one after the other, on one connection. */
  method SendAll(gs: seq<Outgoing>) returns (wire: Bytes)
    requires forall k | 0 <= k < |gs| :: EncodeMessage(AsMessage(gs[k])).Some?
    ensures wire == EncodePipeline(AsMessages(gs))
  {
    hide EncodeMessage, EncodePipeline, AsMessage;
    wire := [];
    assert gs[0..] == gs && [] + EncodePipeline(AsMessages(gs)) == EncodePipeline(AsMessages(gs));
    for i := 0 to |gs|
      invariant wire + EncodePipeline(AsMessages(gs[i..])) == EncodePipeline(AsMessages(gs))
    {
      var one := SendMessage(gs[i]);
      EncodeFrom(gs, i);
      Assoc(wire, one, EncodePipeline(AsMessages(gs[i + 1..])));
      wire := wire + one;
    }
    EncodeNothing(gs[|gs|..], wire);
  }

  lemma EncodeFrom(gs: seq<Outgoing>, i: nat)
    requires i < |gs| && forall k | 0 <= k < |gs| :: EncodeMessage(AsMessage(gs[k])).Some?
    ensures EncodePipeline(AsMessages(gs[i..])) == EncodeMessage(AsMessage(gs[i])).value + EncodePipeline(AsMessages(gs[i + 1..]))
  {
    hide EncodeMessage, AsMessage;
    assert AsMessages(gs[i..])[1..] == AsMessages(gs[i + 1..]);
  }

  lemma EncodeNothing(gs: seq<Outgoing>, wire: Bytes)
    requires gs == []
    ensures wire + EncodePipeline(AsMessages(gs)) == wire
  {
  }

  /** What happens at the receiving end. */
  datatype Event = Arrives(data: Bytes) | Resumes | Taken | Pauses

  function Arrived(es: seq<Event>): Bytes {
    if es == [] then []
    else Arrived(es[..|es| - 1]) + if es[|es| - 1].Arrives? then es[|es| - 1].data else []
  }

  lemma PrefixTrans(a: Bytes, b: Bytes, c: Bytes)
    requires a + b <= c
    ensures a <= c
  {
    assert a == (a + b)[..|a|] == c[..|a|];
  }

  lemma {:induction false} ArrivedPrefix(es: seq<Event>, i: nat)
    requires i <= |es|
    ensures Arrived(es[..i]) <= Arrived(es)
    decreases |es| - i
  {
    if i < |es| {
      assert es[..i + 1][..i] == es[..i];
      ArrivedPrefix(es, i + 1);
      PrefixTrans(Arrived(es[..i]), if es[i].Arrives? then es[i].data else [], Arrived(es));
    } else {
      assert es[..i] == es;
    }
  }

  /** Every part of the octets that a tight splitter accepts is accepted, and announces the beginning of the same. */
  lemma PrefixAccepted(q: HttpPolicy, whole: Bytes, part: Bytes)
    requires q.tight && part <= whole && !RunHttp(q, AtHead([], false), whole).HttpFail?
    ensures var r := RunHttp(q, AtHead([], false), part);
            !r.HttpFail? && r.out <= RunHttp(q, AtHead([], false), whole).out
  {
    hide RunHttp;
    assert part + whole[|part|..] == whole;
    OutGrows(q, AtHead([], false), part, whole[|part|..]);
  }

  /** A parser for this connection has received a part of the octets: it has not failed, it has announced a beginning of the
      messages sent, and no more of them are announced and not yet taken than the queue holds. */
  ghost predicate OnTheWay(parser: Parser.HttpParser, p: HttpPolicy, queue: nat, sent: seq<Signal>)
    reads parser.Parts()
  {
    && parser.Valid() && parser.p == p && parser.maxMsgQueueSize == queue && parser.sink.log <= sent
    && (queue > 0 ==> HeadCount(parser.sink.log) <= parser.taken + queue)
  }

  /** The octets of a connection, or the first part of them, arrive: nothing makes the parser fail. */
  method ReceiveOctets(p: HttpPolicy, ghost wire: Bytes, es: seq<Event>, queue: nat, patience: nat)
    returns (parser: Parser.HttpParser, ok: bool)
    requires IsLoose(p) && !RunHttp(TightenHttp(p), AtHead([], false), wire).HttpFail? && Arrived(es) <= wire
    ensures ok && fresh(parser.Parts()) && parser.fed == Arrived(es)
    ensures OnTheWay(parser, p, queue, RunHttp(TightenHttp(p), AtHead([], false), wire).out)
  {
    hide RunHttp, Parser.HttpParser.Placed, Parser.HttpParser.Settled;
    var q := TightenHttp(p);
    var sink := new Payload.Consumer(patience);
    parser := new Parser.HttpParser(p, queue, sink);
    ok := true;
    for i := 0 to |es|
      invariant ok && fresh(parser.Parts()) && parser.fed == Arrived(es[..i])
      invariant parser.Valid() && parser.p == p && parser.maxMsgQueueSize == queue
      invariant parser.sink.log <= RunHttp(q, AtHead([], false), wire).out
    {
      assert es[..i + 1][..i] == es[..i];
      ArrivedPrefix(es, i + 1);
      PrefixTrans(Arrived(es[..i + 1]), Arrived(es)[|Arrived(es[..i + 1])|..], wire);
      PrefixAccepted(q, wire, Arrived(es[..i + 1]));
      ok := Happens(parser, es[i]);
    }
    assert es[..|es|] == es;
    QueueBounded(parser);
  }

  /** When all octets have arrived, however they were cut up and whatever pauses there were, finitely many resumes, with a
      message taken whenever the queue is full, announce exactly what the octets mean. */
  method DeliverOctets(p: HttpPolicy, ghost wire: Bytes, es: seq<Event>, queue: nat, patience: nat)
    returns (parser: Parser.HttpParser, ok: bool)
    requires IsLoose(p) && !RunHttp(TightenHttp(p), AtHead([], false), wire).HttpFail? && Arrived(es) == wire
    ensures ok && fresh(parser.Parts()) && parser.Valid() && parser.p == p && parser.fed == wire && parser.UpToDate()
    ensures parser.sink.log == RunHttp(TightenHttp(p), AtHead([], false), wire).out
    ensures !parser.payloadHasMoreData && !parser.QueueFull()
  {
    hide RunHttp, Parser.HttpParser.Placed, Parser.HttpParser.Settled;
    parser, ok := ReceiveOctets(p, wire, es, queue, patience);
    var r := parser.Drain();
    ok := r.Ok?;
  }

  /** Nothing that happens while the messages arrive makes the parser fail. */
  method Receive(p: HttpPolicy, gs: seq<Outgoing>, es: seq<Event>, queue: nat, patience: nat)
    returns (parser: Parser.HttpParser, ok: bool)
    requires IsLoose(p) && 0 <= TightenHttp(p).headLimit
    requires forall k | 0 <= k < |gs| :: IsSendable(TightenHttp(p), AsMessage(gs[k]))
    requires forall k | 0 <= k < |gs| :: EncodeMessage(AsMessage(gs[k])).Some?
    requires Arrived(es) <= EncodePipeline(AsMessages(gs))
    ensures ok && fresh(parser.Parts()) && parser.fed == Arrived(es)
    ensures OnTheWay(parser, p, queue, PipelineSignals(AsMessages(gs)))
  {
    hide RunHttp, EncodeMessage, EncodePipeline, PipelineSignals, IsSendable, OnTheWay;
    PipelineRoundTrip(TightenHttp(p), AsMessages(gs));
    parser, ok := ReceiveOctets(p, EncodePipeline(AsMessages(gs)), es, queue, patience);
  }

  /** When all has arrived, exactly the messages that were sent are announced. */
  method Deliver(p: HttpPolicy, gs: seq<Outgoing>, es: seq<Event>, queue: nat, patience: nat)
    returns (parser: Parser.HttpParser, ok: bool)
    requires IsLoose(p) && 0 <= TightenHttp(p).headLimit
    requires forall k | 0 <= k < |gs| :: IsSendable(TightenHttp(p), AsMessage(gs[k]))
    requires forall k | 0 <= k < |gs| :: EncodeMessage(AsMessage(gs[k])).Some?
    requires Arrived(es) == EncodePipeline(AsMessages(gs))
    ensures ok && parser.sink.log == PipelineSignals(AsMessages(gs))
    ensures !parser.payloadHasMoreData && !parser.QueueFull()
  {
    hide RunHttp, EncodeMessage, EncodePipeline, PipelineSignals, IsSendable, Parser.HttpParser.Valid;
    PipelineRoundTrip(TightenHttp(p), AsMessages(gs));
    parser, ok := DeliverOctets(p, EncodePipeline(AsMessages(gs)), es, queue, patience);
  }

  /** A message without length and without chunks, as a server may send it: everything up to the end of the connection is its
      body, and then it is complete. */
  method DeliverToEnd(p: HttpPolicy, lines: seq<Bytes>, close: bool, body: Bytes, es: seq<Event>, queue: nat, patience: nat)
    returns (parser: Parser.HttpParser, ok: bool)
    requires IsLoose(p) && lines != [] && |lines| + 1 <= p.maxHeaders && p.read(lines + [[]]) == Message(CloseBody, close)
    requires forall k | 0 <= k < |lines| :: lines[k] != [] && LF !in lines[k] && |lines[k]| < p.maxLine && |lines[k]| < p.maxField
    requires Arrived(es) == LinesText(lines) + (CRLF + body)
    ensures ok && parser.sink.log == [Head(lines + [[]])] + Octets(body) + [Eof]
  {
    hide RunHttp, Parser.HttpParser.Valid, Parser.HttpParser.Queued, Payload.HttpPayloadParser.Valid;
    ghost var wire := LinesText(lines) + (CRLF + body);
    assert |lines[0]| < p.maxLine && |lines[0]| < p.maxField;
    UntilTheEnd(TightenHttp(p), lines, close, body);
    UntilTheEnd(p, lines, close, body);
    parser, ok := DeliverOctets(p, wire, es, queue, patience);
    assert parser.Where().InBody? && parser.Where().st == UntilEof;
    ok := parser.CloseFully();
  }

  lemma UntilTheEnd(p: HttpPolicy, lines: seq<Bytes>, close: bool, body: Bytes)
    requires HeadFits(p, lines) && p.read(lines + [[]]) == Message(CloseBody, close)
    requires forall k | 0 <= k < |lines| :: lines[k] != [] && LF !in lines[k] && |lines[k]| <= p.headLimit
    ensures RunHttp(p, AtHead([], false), LinesText(lines) + (CRLF + body))
         == HttpNeed([Head(lines + [[]])] + Octets(body), InBody(p.maxHeaders - |lines| - 1, UntilEof, close), [])
  {
    assert [] + lines == lines;
    LinesMean(p, [], lines, CRLF + body);
    ClosedMeans(p, lines, close, body);
  }

  /** Requests whose headers say what their bodies are, written by stream writers: they all arrive, read as they are meant. */
  method DeliverRequests(p: HttpPolicy, startOf: Bytes -> StartLine, gs: seq<Outgoing>, es: seq<Event>, queue: nat, patience: nat)
    returns (parser: Parser.HttpParser, ok: bool)
    requires IsLoose(p) && 0 <= TightenHttp(p).headLimit && Reads(p, startOf)
    requires forall k | 0 <= k < |gs| :: FitsIn(TightenHttp(p), AsMessage(gs[k])) && SaysItsBody(startOf, AsMessage(gs[k]))
    requires forall k | 0 <= k < |gs| :: EncodeMessage(AsMessage(gs[k])).Some?
    requires Arrived(es) == EncodePipeline(AsMessages(gs))
    ensures ok && parser.sink.log == PipelineSignals(AsMessages(gs))
    ensures !parser.payloadHasMoreData && !parser.QueueFull()
  {
    hide EncodeMessage, EncodePipeline, PipelineSignals, IsSendable, FitsIn, SaysItsBody, ReadRequest;
    forall k | 0 <= k < |gs| ensures IsSendable(TightenHttp(p), AsMessage(gs[k])) {
      RequestSendable(TightenHttp(p), startOf, AsMessage(gs[k]));
    }
    parser, ok := Deliver(p, gs, es, queue, patience);
  }

  lemma QueueBounded(parser: Parser.HttpParser)
    requires parser.Valid()
    ensures parser.maxMsgQueueSize > 0 ==> HeadCount(parser.sink.log) <= parser.taken + parser.maxMsgQueueSize
  {
  }

  method Happens(parser: Parser.HttpParser, e: Event) returns (ok: bool)
    requires parser.Valid()
    requires !RunHttp(TightenHttp(parser.p), AtHead([], false), parser.fed + if e.Arrives? then e.data else []).HttpFail?
    modifies parser.Parts()
    ensures ok && parser.Valid() && parser.fed == old(parser.fed) + if e.Arrives? then e.data else []
    ensures fresh(parser.Parts() - old(parser.Parts()))
    ensures parser.sink.log == old(parser.sink.log)
         || parser.sink.log <= RunHttp(TightenHttp(parser.p), AtHead([], false), parser.fed).out
  {
    hide RunHttp, Parser.HttpParser.Placed, Parser.HttpParser.Settled;
    var data := if e.Arrives? then e.data else [];
    assert !e.Arrives? ==> parser.fed + data == parser.fed;
    match e
    case Pauses => if parser.payloadParser != null { parser.PauseReading(); } ok := true;
    case Taken => parser.MessageConsumed(); ok := true;
    case _ =>
      var r := parser.FeedData(data);
      ok := r.Ok?;
  }
}
