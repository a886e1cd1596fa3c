/** What the writer encodes, the parser decodes: chunks, heads, and whole pipelines of messages. */
module WireRoundTrip {
  import opened Bytes
  import opened HeadersParser
  import opened PayloadDecoding
  import opened HttpFraming
  import opened HttpWriter

  // ---- bodies ----

  function ChunkSignals(cs: seq<Bytes>): seq<Signal> {
    if cs == [] then [] else [ChunkBegin] + Octets(cs[0]) + [ChunkEnd] + ChunkSignals(cs[1..])
  }

  /** The payload octets among the signals. */
  function PayloadOf(o: seq<Signal>): Bytes {
    if o == [] then [] else OctetOf(o[0]) + PayloadOf(o[1..])
  }

  function OctetOf(sig: Signal): Bytes { if sig.Octet? then [sig.b] else [] }

  lemma {:induction false} PayloadOfAppend(a: seq<Signal>, b: seq<Signal>)
    ensures PayloadOf(a + b) == PayloadOf(a) + PayloadOf(b)
  {
    if a == [] {
      assert a + b == b;
    } else {
      PayloadOfAppend(a[1..], b);
      assert (a + b)[1..] == a[1..] + b && (a + b)[0] == a[0];
      var h := OctetOf(a[0]);
      assert PayloadOf(a + b) == h + PayloadOf(a[1..] + b);
      assert h + (PayloadOf(a[1..]) + PayloadOf(b)) == h + PayloadOf(a[1..]) + PayloadOf(b);
    }
  }

  lemma {:induction false} PayloadOfOctets(s: Bytes)
    ensures PayloadOf(Octets(s)) == s
  {
    if s != [] {
      PayloadOfOctets(s[1..]);
      assert Octets(s)[1..] == Octets(s[1..]);
    }
  }

  /** The payload of the chunks is their concatenation. */
  lemma {:induction false} ChunkPayload(cs: seq<Bytes>)
    ensures PayloadOf(ChunkSignals(cs)) == Concat(cs)
  {
    if cs != [] {
      ChunkPayload(cs[1..]);
      var a, o, e := [ChunkBegin], Octets(cs[0]), [ChunkEnd];
      PayloadOfOctets(cs[0]);
      PayloadOfAppend(a, o);
      PayloadOfAppend(a + o, e);
      PayloadOfAppend(a + o + e, ChunkSignals(cs[1..]));
      assert a[1..] == [] && e[1..] == [];
    }
  }

  /** The policy has room for chunks of these sizes and for the end of the body. */
  predicate Fits(p: Policy, cs: seq<Bytes>) {
    && 1 <= p.maxLine && 0 <= p.maxField && 1 <= p.maxTrailers
    && forall k | 0 <= k < |cs| :: cs[k] != [] && |Hex(|cs[k]|)| <= p.maxLine
  }

  lemma SizeTextParses(n: nat)
    ensures ParseSizeLine(Hex(n)) == Some(n) && CR !in Hex(n)
  {
    HexRoundTrip(n);
    var i := IndexOf(Hex(n), SEMICOLON);
    assert forall k | 0 <= k < |Hex(n)| :: IsHexDigit(Hex(n)[k]);
  }

  lemma SizeStep(p: Policy, n: nat, rest: Bytes)
    requires |Hex(n)| <= p.maxLine
    ensures Step(p, Size, Hex(n) + CRLF + rest)
         == if n == 0 then Go([], Trailers([]), rest) else Go([ChunkBegin], Chunk(n), rest)
  {
    SizeTextParses(n);
    FindLineEnd(Hex(n), rest);
    var s := Hex(n) + CRLF + rest;
    assert s[..|Hex(n)|] == Hex(n) && s[|Hex(n)| + 2..] == rest;
  }

  /** An empty trailer section ends the body. */
  lemma NoTrailersDecode(p: Policy, rest: Bytes)
    requires 0 <= p.maxField && 1 <= p.maxTrailers
    ensures Run(p, Trailers([]), CRLF + rest) == Done([Eof], rest)
  {
    var t := CRLF + rest;
    FindLineEnd([], rest);
    assert [] + CRLF + rest == t && t[..0] == [] && t[2..] == rest;
    var none: seq<Bytes> := [];
    assert none + [[]] == [[]];
  }

  lemma LastChunkDecodes(p: Policy, rest: Bytes)
    requires Fits(p, [])
    ensures Run(p, Size, LAST_CHUNK + rest) == Done([Eof], rest)
  {
    assert LAST_CHUNK + rest == Hex(0) + CRLF + (CRLF + rest);
    SizeStep(p, 0, CRLF + rest);
    NoTrailersDecode(p, rest);
    PrependTwice([], [], Done([Eof], rest));
  }

  lemma ChunkBodyDecodes(p: Policy, c: Bytes, rest: Bytes)
    requires p.tight ==> 0 <= p.maxLine
    ensures Run(p, Chunk(|c|), c + (CRLF + rest)) == Prepend(Octets(c) + [ChunkEnd], Run(p, Size, rest))
  {
    var t := c + (CRLF + rest);
    assert t[..|c|] == c && t[|c|..] == CRLF + rest;
    assert Step(p, Chunk(|c|), t) == Go(Octets(c) + [ChunkEnd], ChunkEof, CRLF + rest);
    ChunkEofDecodes(p, rest);
  }

  lemma ChunkEofDecodes(p: Policy, rest: Bytes)
    requires p.tight ==> 0 <= p.maxLine
    ensures Run(p, ChunkEof, CRLF + rest) == Run(p, Size, rest)
  {
    var t := CRLF + rest;
    assert t[0..2] == CRLF && t[2..] == rest;
    assert Step(p, ChunkEof, t) == Go([], Size, rest);
    PrependTwice([], [], Run(p, Size, rest));
  }

  lemma OneChunkDecodes(p: Policy, c: Bytes, rest: Bytes)
    requires Fits(p, [c])
    ensures Run(p, Size, EncodeChunk(c) + rest) == Prepend([ChunkBegin] + Octets(c) + [ChunkEnd], Run(p, Size, rest))
  {
    assert [c][0] == c;
    var t := c + (CRLF + rest);
    assert EncodeChunk(c) + rest == Hex(|c|) + CRLF + t;
    SizeStep(p, |c|, t);
    ChunkBodyDecodes(p, c, rest);
    PrependTwice([ChunkBegin], Octets(c) + [ChunkEnd], Run(p, Size, rest));
    assert [ChunkBegin] + (Octets(c) + [ChunkEnd]) == [ChunkBegin] + Octets(c) + [ChunkEnd];
  }

  lemma SplitFirst(a: Bytes, b: Bytes, c: Bytes, d: Bytes)
    ensures (a + b) + c + d == a + (b + c + d)
  {
  }

  /** The decoder undoes the encoder and leaves what follows untouched. */
  lemma {:induction false} ChunksDecode(p: Policy, cs: seq<Bytes>, rest: Bytes)
    requires Fits(p, cs)
    ensures Run(p, Size, EncodeChunks(cs) + LAST_CHUNK + rest) == Done(ChunkSignals(cs) + [Eof], rest)
  {
    hide Run, EncodeChunk, Octets;
    if cs == [] {
      LastChunkDecodes(p, rest);
      assert [] + LAST_CHUNK + rest == LAST_CHUNK + rest;
      assert [] + [Eof] == [Eof];
    } else {
      var t := EncodeChunks(cs[1..]) + LAST_CHUNK + rest;
      SplitFirst(EncodeChunk(cs[0]), EncodeChunks(cs[1..]), LAST_CHUNK, rest);
      assert Fits(p, [cs[0]]);
      OneChunkDecodes(p, cs[0], t);
      ChunksDecode(p, cs[1..], rest);
      var a := [ChunkBegin] + Octets(cs[0]) + [ChunkEnd];
      assert a + (ChunkSignals(cs[1..]) + [Eof]) == ChunkSignals(cs) + [Eof];
    }
  }

  // ---- heads ----

  predicate IsLine(p: HttpPolicy, l: Bytes) {
    l != [] && CR !in l && LF !in l && |l| <= p.headLimit
  }

  /** The lines, each with its line break. */
  function LinesText(ls: seq<Bytes>): Bytes {
    if ls == [] then [] else ls[0] + CRLF + LinesText(ls[1..])
  }

  lemma {:induction false} JoinText(ls: seq<Bytes>)
    requires ls != []
    ensures Join(ls) + CRLF == LinesText(ls)
  {
    if |ls| > 1 {
      JoinText(ls[1..]);
      assert ls[0] + CRLF + Join(ls[1..]) + CRLF == ls[0] + CRLF + (Join(ls[1..]) + CRLF);
    } else {
      assert LinesText(ls[1..]) == [];
    }
  }

  lemma HeadLineStep(p: HttpPolicy, lines: seq<Bytes>, l: Bytes, rest: Bytes)
    requires IsLine(p, l) && |lines| + 1 <= p.maxHeaders
    ensures HttpStep(p, AtHead(lines, false), l + CRLF + rest) == HttpGo([], AtHead(lines + [l], false), rest)
  {
    FindLineEnd(l, rest);
    var s := l + CRLF + rest;
    assert s[..|l|] == l && s[|l| + 2..] == rest;
  }

  lemma HeadEndStep(p: HttpPolicy, lines: seq<Bytes>, rest: Bytes)
    requires lines != [] && |lines| + 1 <= p.maxHeaders && 0 <= p.headLimit && p.read(lines + [[]]).Message?
    ensures HttpStep(p, AtHead(lines, false), CRLF + rest)
         == HttpGo([Head(lines + [[]])], AfterHead(p, lines + [[]], p.read(lines + [[]])), rest)
  {
    FindLineEnd([], rest);
    assert [] + CRLF + rest == CRLF + rest;
    assert (CRLF + rest)[2..] == rest && (CRLF + rest)[..0] == [];
  }

  /** The lines of a head are read back one by one. */
  lemma {:induction false} HeadDecodes(p: HttpPolicy, done: seq<Bytes>, ls: seq<Bytes>, rest: Bytes)
    requires forall k | 0 <= k < |ls| :: IsLine(p, ls[k])
    requires done + ls != [] && |done| + |ls| + 1 <= p.maxHeaders && 0 <= p.headLimit
    requires p.read(done + ls + [[]]).Message?
    ensures RunHttp(p, AtHead(done, false), LinesText(ls) + CRLF + rest)
         == HttpPrepend([Head(done + ls + [[]])], RunHttp(p, AfterHead(p, done + ls + [[]], p.read(done + ls + [[]])), rest))
    decreases |ls|
  {
    if ls == [] {
      assert done + ls == done;
      HeadEndStep(p, done, rest);
      assert LinesText(ls) + CRLF + rest == CRLF + rest;
    } else {
      var t := LinesText(ls[1..]) + CRLF + rest;
      assert LinesText(ls) + CRLF + rest == ls[0] + CRLF + t;
      HeadLineStep(p, done, ls[0], t);
      assert done + [ls[0]] + ls[1..] == done + ls;
      HeadDecodes(p, done + [ls[0]], ls[1..], rest);
      HttpPrependTwice([], [], RunHttp(p, AtHead(done + [ls[0]], false), t));
    }
  }

  // ---- whole messages ----

  /** A message as the application hands it to the writer. */
  datatype OutMessage = OutMessage(statusLine: Bytes, headers: seq<Header>, chunked: bool, chunks: seq<Bytes>)

  function HeadLines(m: OutMessage): seq<Bytes> { [m.statusLine] + RenderLines(m.headers) + [[]] }

  /** Lines, headers and chunks fit the limits, and the headers are well-formed. */
  predicate FitsIn(p: HttpPolicy, m: OutMessage) {
    && m.headers != [] && (forall k | 0 <= k < |m.headers| :: IsGoodHeader(m.headers[k]) && |RenderLine(m.headers[k])| <= p.headLimit)
    && IsLine(p, m.statusLine) && IsClean(m.statusLine)
    && |m.headers| + 2 <= p.maxHeaders
    && (m.chunked ==> Fits(BodyPolicy(p, p.maxHeaders - |m.headers| - 2), m.chunks))
  }

  /** The reader of heads understands the message as it is meant, and the limits have room for it. */
  predicate IsSendable(p: HttpPolicy, m: OutMessage) {
    && FitsIn(p, m)
    && var r := p.read(HeadLines(m));
       && r.Message? && !r.shouldClose
       && if m.chunked then r.body == ChunkedBody
          else if Concat(m.chunks) == [] then !HasBody(r.body)
          else r.body == LengthBody(|Concat(m.chunks)|)
  }

  /** The octets the writer produces for the message. */
  function EncodeMessage(m: OutMessage): Option<Bytes> {
    match SerializeHeaders(m.statusLine, m.headers)
    case None => None
    case Some(head) => Some(OnWire(head, true, m.chunked, m.chunks, m.chunked))
  }

  function MessageSignals(m: OutMessage): seq<Signal> {
    [Head(HeadLines(m))]
    + if m.chunked then ChunkSignals(m.chunks) + [Eof]
      else if Concat(m.chunks) == [] then [] else Octets(Concat(m.chunks)) + [Eof]
  }

  lemma GoodHeaderClean(h: Header)
    requires IsGoodHeader(h)
    ensures IsClean(h.name) && IsClean(h.value) && RenderLine(h) != [] && CR !in RenderLine(h) && LF !in RenderLine(h)
  {
    TokenIsClean(h.name);
    RenderLineParses(h);
  }

  lemma HeadText(p: HttpPolicy, m: OutMessage)
    requires FitsIn(p, m)
    ensures SerializeHeaders(m.statusLine, m.headers) == Some(LinesText([m.statusLine] + RenderLines(m.headers)) + CRLF)
    ensures forall k | 0 <= k < |m.headers| + 1 :: IsLine(p, ([m.statusLine] + RenderLines(m.headers))[k])
  {
    forall k | 0 <= k < |m.headers|
      ensures IsClean(m.headers[k].name) && IsClean(m.headers[k].value) && IsLine(p, RenderLines(m.headers)[k])
    {
      GoodHeaderClean(m.headers[k]);
    }
    var ls := [m.statusLine] + RenderLines(m.headers);
    assert ls[1..] == RenderLines(m.headers);
    JoinText(ls[1..]);
    var st, j := m.statusLine, Join(ls[1..]);
    assert st + CRLF + j + CRLF + CRLF == st + CRLF + (j + CRLF) + CRLF;
  }

  lemma BodyDecodes(p: HttpPolicy, m: OutMessage, rest: Bytes)
    requires IsSendable(p, m)
    ensures var body := (if m.chunked then EncodeChunks(m.chunks) else Concat(m.chunks)) + (if m.chunked then LAST_CHUNK else []);
            RunHttp(p, AfterHead(p, HeadLines(m), p.read(HeadLines(m))), body + rest) ==
            HttpPrepend(MessageSignals(m)[1..], RunHttp(p, AtHead([], false), rest))
  {
    hide Run, RunHttp, Fits, EncodeChunks, ChunkSignals, Concat;
    var o := MessageSignals(m)[1..];
    if m.chunked {
      ChunksDecode(BodyPolicy(p, p.maxHeaders - |m.headers| - 2), m.chunks, rest);
      assert o == ChunkSignals(m.chunks) + [Eof];
      BodyDone(p, p.maxHeaders - |m.headers| - 2, Size, EncodeChunks(m.chunks) + LAST_CHUNK + rest, o, rest);
    } else {
      var c := Concat(m.chunks);
      assert c + [] + rest == c + rest;
      if c == [] {
        HttpPrependTwice([], [], RunHttp(p, AtHead([], false), rest));
        assert o == [] && c + rest == rest;
      } else {
        assert o == Octets(c) + [Eof];
        LengthDecodes(BodyPolicy(p, p.maxHeaders - |m.headers| - 2), c, rest);
        BodyDone(p, p.maxHeaders - |m.headers| - 2, Fixed(|c|), c + rest, o, rest);
      }
    }
  }

  lemma LengthDecodes(p: Policy, c: Bytes, rest: Bytes)
    ensures Run(p, Fixed(|c|), c + rest) == Done(Octets(c) + [Eof], rest)
  {
    assert (c + rest)[..|c|] == c && (c + rest)[|c|..] == rest;
  }

  /** After a body the next head is split off. */
  lemma BodyDone(p: HttpPolicy, m: int, st: BodyState, s: Bytes, o: seq<Signal>, rest: Bytes)
    requires Run(BodyPolicy(p, m), st, s) == Done(o, rest)
    ensures RunHttp(p, InBody(m, st, false), s) == HttpPrepend(o, RunHttp(p, AtHead([], false), rest))
  {
    hide Run;
  }

  /** One message is announced with its head and its payload, and the next one starts right after it. */
  lemma MessageDecodes(p: HttpPolicy, m: OutMessage, rest: Bytes)
    requires IsSendable(p, m)
    ensures EncodeMessage(m).Some?
    ensures RunHttp(p, AtHead([], false), EncodeMessage(m).value + rest)
         == HttpPrepend(MessageSignals(m), RunHttp(p, AtHead([], false), rest))
  {
    HeadText(p, m);
    var ls := [m.statusLine] + RenderLines(m.headers);
    var body := (if m.chunked then EncodeChunks(m.chunks) else Concat(m.chunks)) + (if m.chunked then LAST_CHUNK else []);
    WireSplits(LinesText(ls) + CRLF, m, rest);
    assert [] + ls == ls && ls + [[]] == HeadLines(m);
    HeadDecodes(p, [], ls, body + rest);
    BodyDecodes(p, m, rest);
    HttpPrependTwice([Head(HeadLines(m))], MessageSignals(m)[1..], RunHttp(p, AtHead([], false), rest));
    assert [Head(HeadLines(m))] + MessageSignals(m)[1..] == MessageSignals(m);
  }

  lemma WireSplits(head: Bytes, m: OutMessage, rest: Bytes)
    ensures var body := (if m.chunked then EncodeChunks(m.chunks) else Concat(m.chunks)) + (if m.chunked then LAST_CHUNK else []);
            OnWire(head, true, m.chunked, m.chunks, m.chunked) + rest == head + (body + rest)
  {
  }

  function EncodePipeline(ms: seq<OutMessage>): Bytes
    requires forall k | 0 <= k < |ms| :: EncodeMessage(ms[k]).Some?
  {
    if ms == [] then [] else EncodeMessage(ms[0]).value + EncodePipeline(ms[1..])
  }

  function PipelineSignals(ms: seq<OutMessage>): seq<Signal> {
    if ms == [] then [] else MessageSignals(ms[0]) + PipelineSignals(ms[1..])
  }

  /** A pipeline of messages is split into exactly those messages. With `TightenHttp(p)` for `p` this is the input for
      which every segmentation, pause and queue-full stop gives the same result. */
  lemma {:induction false} PipelineRoundTrip(p: HttpPolicy, ms: seq<OutMessage>)
    requires 0 <= p.headLimit && forall k | 0 <= k < |ms| :: IsSendable(p, ms[k])
    ensures forall k | 0 <= k < |ms| :: EncodeMessage(ms[k]).Some?
    ensures RunHttp(p, AtHead([], false), EncodePipeline(ms)) == HttpNeed(PipelineSignals(ms), AtHead([], false), [])
  {
    if ms != [] {
      MessageDecodes(p, ms[0], []);
      PipelineRoundTrip(p, ms[1..]);
      assert forall k | 0 < k < |ms| :: ms[k] == ms[1..][k - 1];
      MessageDecodes(p, ms[0], EncodePipeline(ms[1..]));
    }
  }

  /** The octets of the header block, split at line breaks, are the lines of the head and the empty rest after it, and the
      strict header parser gives back the headers of the message. */
  lemma HeadersRoundTrip(p: HttpPolicy, m: OutMessage)
    requires FitsIn(p, m) && NoRepeats(m.headers)
    ensures var block := SerializeHeaders(m.statusLine, m.headers);
            block.Some? && SplitLines(block.value) == HeadLines(m) + [[]]
    ensures HeaderList(HeadLines(m)[1..]) == Parsed(m.headers)
  {
    hide SplitLines, SerializeHeaders, HeaderList, RenderLines;
    var none: seq<Header> := [];
    assert none + m.headers == m.headers;
    HeaderListRoundTrip(none, m.headers);
    assert HeadLines(m)[1..] == RenderLines(m.headers) + [[]];
    BlockSplits(p, m);
  }

  lemma BlockSplits(p: HttpPolicy, m: OutMessage)
    requires FitsIn(p, m)
    ensures var block := SerializeHeaders(m.statusLine, m.headers);
            block.Some? && SplitLines(block.value) == HeadLines(m) + [[]]
  {
    hide SplitLines, SerializeHeaders, LinesText, RenderLines, FitsIn;
    HeadText(p, m);
    var ls := [m.statusLine] + RenderLines(m.headers);
    LinesSplit(p, ls, CRLF);
    LastBreak();
    assert ls + [[], []] == HeadLines(m) + [[]];
  }

  lemma LastBreak()
    ensures SplitLines(CRLF) == [[], []]
  {
    assert [] + CRLF + [] == CRLF;
    LineSplit([], []);
    assert SplitLines([]) == [[]];
  }

  /** The pieces between the line breaks. */
  function SplitLines(s: Bytes): seq<Bytes> {
    var i := Find(s, CRLF);
    if i < 0 then [s] else [s[..i]] + SplitLines(s[i + 2..])
  }

  lemma LineSplit(l: Bytes, rest: Bytes)
    requires CR !in l
    ensures SplitLines(l + CRLF + rest) == [l] + SplitLines(rest)
  {
    hide Find;
    FindLineEnd(l, rest);
    var s := l + CRLF + rest;
    assert s[..|l|] == l && s[|l| + 2..] == rest;
  }

  lemma {:induction false} LinesSplit(p: HttpPolicy, ls: seq<Bytes>, rest: Bytes)
    requires forall k | 0 <= k < |ls| :: IsLine(p, ls[k])
    ensures SplitLines(LinesText(ls) + rest) == ls + SplitLines(rest)
  {
    hide SplitLines;
    if ls == [] {
      assert LinesText(ls) + rest == rest;
    } else {
      var t := LinesText(ls[1..]) + rest;
      LinesSplit(p, ls[1..], rest);
      assert LinesText(ls) + rest == ls[0] + CRLF + t;
      LineSplit(ls[0], t);
      assert ls == [ls[0]] + ls[1..];
    }
  }

  /** With no headers the serializer writes one line break too many: it is left over after the head. */
  lemma NoHeadersLeftover(p: HttpPolicy, statusLine: Bytes, rest: Bytes)
    requires IsLine(p, statusLine) && IsClean(statusLine) && 2 <= p.maxHeaders && p.read([statusLine, []]).Message?
    ensures var head := SerializeHeaders(statusLine, []);
            head.Some? && RunHttp(p, AtHead([], false), head.value + rest) ==
            HttpPrepend([Head([statusLine, []])], RunHttp(p, AfterHead(p, [statusLine, []], p.read([statusLine, []])), CRLF + rest))
  {
    var ls := [statusLine];
    assert RenderLines([]) == [] && Join([]) == [];
    assert ls[1..] == [];
    assert statusLine + CRLF + [] + CRLF + CRLF + rest == (statusLine + CRLF + []) + CRLF + (CRLF + rest);
    assert [] + ls == ls && ls + [[]] == [statusLine, []];
    HeadDecodes(p, [], ls, CRLF + rest);
  }
}
