/** What a chunked body looks like on the wire (section 7.1 of RFC 9112), written down without the decoder, and that the decoder
    completes exactly such bodies. */
module ChunkGrammar {
  import opened Bytes
  import opened HeadersParser
  import opened PayloadDecoding
  import opened HttpWriter
  import opened WireRoundTrip

  const ZERO: byte := 48

  function Zeros(k: nat): Bytes { seq(k, i => ZERO) }

  /** Hexadecimal in either case, with any number of leading zeros. */
  ghost predicate Denotes(s: Bytes, n: nat) { exists k: nat :: Lower(s) == Zeros(k) + Hex(n) }

  /** A chunk extension, which is dropped. */
  predicate IsExtension(ext: Bytes) { ext == [] || (ext[0] == SEMICOLON && LF !in ext) }

  // ---- size lines ----

  lemma DigitOfLower(b: byte)
    ensures IsHexDigit(LowerByte(b)) <==> IsHexDigit(b)
    ensures IsHexDigit(b) ==> HexDigit(LowerByte(b)) == HexDigit(b) && HexChar(HexDigit(b)) == LowerByte(b)
  {
  }

  lemma {:induction false} ValueOfLower(s: Bytes)
    ensures AllHex(Lower(s)) <==> AllHex(s)
    ensures AllHex(s) ==> HexValue(Lower(s)) == HexValue(s)
  {
    if s != [] {
      var front, b := s[..|s| - 1], s[|s| - 1];
      ValueOfLower(front);
      DigitOfLower(b);
      assert Lower(s)[..|s| - 1] == Lower(front) && Lower(s)[|s| - 1] == LowerByte(b);
      assert s == front + [b] && Lower(s) == Lower(front) + [LowerByte(b)];
    }
  }

  lemma {:induction false} ValueOfZeros(k: nat, s: Bytes)
    requires AllHex(s)
    ensures AllHex(Zeros(k) + s) && HexValue(Zeros(k) + s) == HexValue(s)
    decreases |s|, k
  {
    if s == [] {
      assert Zeros(k) + s == Zeros(k);
      if k > 0 {
        ValueOfZeros(k - 1, []);
        assert Zeros(k - 1) + [] == Zeros(k - 1) && Zeros(k)[..k - 1] == Zeros(k - 1);
      }
    } else {
      var front := s[..|s| - 1];
      ValueOfZeros(k, front);
      var t := Zeros(k) + s;
      assert t[..|t| - 1] == Zeros(k) + front && t[|t| - 1] == s[|s| - 1];
    }
  }

  lemma LastDigit(s: Bytes)
    requires s != [] && AllHex(s)
    ensures AllHex(s[..|s| - 1]) && HexValue(s[..|s| - 1]) * 16 + HexDigit(s[|s| - 1]) == HexValue(s)
    ensures |s| == 1 ==> HexValue(s) == HexDigit(s[0])
  {
  }

  lemma HexZero()
    ensures Hex(0) == [ZERO]
  {
  }

  lemma NextHex(v: nat, d: nat)
    requires d < 16
    ensures Hex(16 * v + d) == if v == 0 then [HexChar(d)] else Hex(v) + [HexChar(d)]
  {
    assert (16 * v + d) / 16 == v && (16 * v + d) % 16 == d;
  }

  /** Every lower-case text is the digits of its value behind zeros. */
  lemma {:induction false} TextOfValue(s: Bytes) returns (k: nat)
    requires s != [] && AllHex(s) && Lower(s) == s
    ensures s == Zeros(k) + Hex(HexValue(s))
  {
    hide Hex, HexValue, HexDigit, HexChar, LowerByte;
    var front, b := s[..|s| - 1], s[|s| - 1];
    DigitOfLower(b);
    assert Lower(s)[|s| - 1] == LowerByte(b) == b;
    LastDigit(s);
    if front == [] {
      k := 0;
      NextHex(0, HexDigit(b));
      assert s == [b] && Zeros(0) + [b] == [b];
    } else {
      assert Lower(front) == front by { assert forall i | 0 <= i < |front| :: Lower(s)[i] == front[i]; }
      k := TextOfValue(front);
      var v := HexValue(front);
      assert s == front + [b];
      NextHex(v, HexDigit(b));
      if v == 0 {
        HexZero();
        assert Zeros(k + 1) == Zeros(k) + [ZERO];
        k := k + 1;
      } else {
        assert Zeros(k) + (Hex(v) + [b]) == Zeros(k) + Hex(v) + [b];
      }
    }
  }

  /** A text of digits is read as the number that it denotes, and nothing else is read. */
  lemma DenotesIff(s: Bytes, n: nat)
    ensures Denotes(s, n) <==> s != [] && AllHex(s) && HexValue(s) == n
  {
    ValueOfLower(s);
    if Denotes(s, n) {
      var k: nat :| Lower(s) == Zeros(k) + Hex(n);
      HexRoundTrip(n);
      ValueOfZeros(k, Hex(n));
    }
    if s != [] && AllHex(s) {
      assert Lower(Lower(s)) == Lower(s);
      var k := TextOfValue(Lower(s));
    }
  }

  /** A size line is a number, and an extension if any. */
  lemma SizeLineIff(line: Bytes, n: nat)
    ensures ParseSizeLine(line) == Some(n)
       <==> exists size, ext :: line == size + ext && Denotes(size, n) && IsExtension(ext)
  {
    if ParseSizeLine(line) == Some(n) {
      var size, ext := SizeLineSplits(line, n);
    }
    forall size, ext | line == size + ext && Denotes(size, n) && IsExtension(ext) ensures ParseSizeLine(line) == Some(n) {
      SizeLineParses(size, ext, n);
    }
  }

  lemma SizeLineSplits(line: Bytes, n: nat) returns (size: Bytes, ext: Bytes)
    requires ParseSizeLine(line) == Some(n)
    ensures line == size + ext && Denotes(size, n) && IsExtension(ext)
  {
    var i := IndexOf(line, SEMICOLON);
    size, ext := if i >= 0 then line[..i] else line, if i >= 0 then line[i..] else [];
    DenotesIff(size, n);
  }

  lemma SizeLineParses(size: Bytes, ext: Bytes, n: nat)
    requires Denotes(size, n) && IsExtension(ext)
    ensures ParseSizeLine(size + ext) == Some(n) && LF !in size + ext
  {
    DenotesIff(size, n);
    assert SEMICOLON !in size && LF !in size by { assert forall b | b in size :: IsHexDigit(b); }
    var line := size + ext;
    if ext == [] {
      assert line == size;
    } else {
      assert ext == [SEMICOLON] + ext[1..];
      assert line == size + [SEMICOLON] + ext[1..];
      IndexOfUnique(size, SEMICOLON, ext[1..]);
      assert line[..|size|] == size && line[|size|..] == ext;
    }
  }

  // ---- bodies ----

  datatype ChunkText = ChunkText(size: Bytes, ext: Bytes, data: Bytes)

  datatype BodyText = BodyText(chunks: seq<ChunkText>, lastSize: Bytes, lastExt: Bytes, trailers: seq<Bytes>)

  function Written(c: ChunkText): Bytes { c.size + c.ext + CRLF + (c.data + CRLF) }

  function WrittenAll(cs: seq<ChunkText>): Bytes {
    if cs == [] then [] else Written(cs[0]) + WrittenAll(cs[1..])
  }

  function BodyWritten(b: BodyText): Bytes {
    WrittenAll(b.chunks) + (b.lastSize + b.lastExt + CRLF + (LinesText(b.trailers) + CRLF))
  }

  /** What the consumer is told of the chunks. */
  function Said(cs: seq<ChunkText>): seq<Signal> {
    if cs == [] then [] else [ChunkBegin] + Octets(cs[0].data) + [ChunkEnd] + Said(cs[1..])
  }

  function BodySaid(b: BodyText): seq<Signal> { Said(b.chunks) + [Eof] }

  ghost predicate IsChunkText(p: Policy, c: ChunkText) {
    c.data != [] && Denotes(c.size, |c.data|) && IsExtension(c.ext) && |c.size + c.ext| <= p.maxLine
  }

  /** The trailer lines are header lines, none of them repeats one that may not be repeated, and they fit. */
  predicate IsTrailerSection(p: Policy, ls: seq<Bytes>) {
    && (forall k | 0 <= k < |ls| :: ls[k] != [] && LF !in ls[k] && |ls[k]| <= p.maxField)
    && 0 <= p.maxField && |ls| + 1 <= p.maxTrailers
    && HeaderList(ls + [[]]).Parsed?
  }

  /** A chunked body: chunks, a last chunk of size zero, and a trailer section. */
  ghost predicate IsBodyText(p: Policy, b: BodyText) {
    && (forall k | 0 <= k < |b.chunks| :: IsChunkText(p, b.chunks[k]))
    && Denotes(b.lastSize, 0) && IsExtension(b.lastExt) && |b.lastSize + b.lastExt| <= p.maxLine
    && IsTrailerSection(p, b.trailers)
  }

  // ---- what is written is read ----

  /** A line break is found at the end of a line without LF. */
  lemma LineEnd(line: Bytes, rest: Bytes)
    requires LF !in line
    ensures var s := line + CRLF + rest; Find(s, CRLF) == |line| && s[..|line|] == line && s[|line| + 2..] == rest
  {
    var s := line + CRLF + rest;
    assert s[|line|..|line| + 2] == CRLF;
    forall j | 0 <= j < |line| ensures !MatchAt(s, CRLF, j) {
      assert s[j + 1] == if j + 1 < |line| then line[j + 1] else CR;
      assert s[j..j + 2][1] == s[j + 1] != CRLF[1];
    }
    FindUnique(s, CRLF, 0, |line|);
  }

  lemma SizeLineStep(p: Policy, size: Bytes, ext: Bytes, n: nat, rest: Bytes)
    requires Denotes(size, n) && IsExtension(ext) && |size + ext| <= p.maxLine
    ensures Step(p, Size, size + ext + CRLF + rest)
         == if n == 0 then Go([], Trailers([]), rest) else Go([ChunkBegin], Chunk(n), rest)
  {
    hide ParseSizeLine;
    SizeLineParses(size, ext, n);
    LineEnd(size + ext, rest);
  }

  lemma ChunkTextDecodes(p: Policy, c: ChunkText, rest: Bytes)
    requires IsChunkText(p, c)
    ensures Run(p, Size, Written(c) + rest) == Prepend([ChunkBegin] + Octets(c.data) + [ChunkEnd], Run(p, Size, rest))
  {
    var t := c.data + (CRLF + rest);
    assert Written(c) + rest == c.size + c.ext + CRLF + t;
    SizeLineStep(p, c.size, c.ext, |c.data|, t);
    ChunkBodyDecodes(p, c.data, rest);
    PrependTwice([ChunkBegin], Octets(c.data) + [ChunkEnd], Run(p, Size, rest));
    assert [ChunkBegin] + (Octets(c.data) + [ChunkEnd]) == [ChunkBegin] + Octets(c.data) + [ChunkEnd];
  }

  lemma {:induction false} TrailersDecode(p: Policy, done: seq<Bytes>, ls: seq<Bytes>, rest: Bytes)
    requires IsTrailerSection(p, done + ls)
    ensures Run(p, Trailers(done), LinesText(ls) + CRLF + rest) == Done([Eof], rest)
    decreases |ls|
  {
    if ls == [] {
      assert done + ls == done && LinesText(ls) + CRLF + rest == [] + CRLF + rest;
      LineEnd([], rest);
    } else {
      var t := LinesText(ls[1..]) + CRLF + rest;
      assert LinesText(ls) + CRLF + rest == ls[0] + CRLF + t;
      assert (done + ls)[|done|] == ls[0];
      LineEnd(ls[0], t);
      assert Step(p, Trailers(done), ls[0] + CRLF + t) == Go([], Trailers(done + [ls[0]]), t);
      assert done + [ls[0]] + ls[1..] == done + ls;
      TrailersDecode(p, done + [ls[0]], ls[1..], rest);
      PrependTwice([], [], Done([Eof], rest));
    }
  }

  /** Every chunked body is decoded to its data, and what follows it is left over. */
  lemma {:induction false} BodyTextDecodes(p: Policy, b: BodyText, rest: Bytes)
    requires IsBodyText(p, b)
    ensures Run(p, Size, BodyWritten(b) + rest) == Done(BodySaid(b), rest)
    decreases |b.chunks|
  {
    hide Run;
    var last := b.lastSize + b.lastExt + CRLF + (LinesText(b.trailers) + CRLF);
    if b.chunks == [] {
      LastTextDecodes(p, b, rest);
    } else {
      var c, b1 := b.chunks[0], b.(chunks := b.chunks[1..]);
      assert BodyWritten(b) + rest == Written(c) + (BodyWritten(b1) + rest);
      ChunkTextDecodes(p, c, BodyWritten(b1) + rest);
      BodyTextDecodes(p, b1, rest);
      var o := [ChunkBegin] + Octets(c.data) + [ChunkEnd];
      assert o + (Said(b1.chunks) + [Eof]) == (o + Said(b1.chunks)) + [Eof];
    }
  }

  lemma LastTextDecodes(p: Policy, b: BodyText, rest: Bytes)
    requires IsBodyText(p, b) && b.chunks == []
    ensures Run(p, Size, BodyWritten(b) + rest) == Done(BodySaid(b), rest)
  {
    var t := LinesText(b.trailers) + CRLF + rest;
    assert BodyWritten(b) + rest == b.lastSize + b.lastExt + CRLF + t;
    SizeLineStep(p, b.lastSize, b.lastExt, 0, t);
    assert [] + b.trailers == b.trailers;
    TrailersDecode(p, [], b.trailers, rest);
    PrependTwice([], [], Done([Eof], rest));
    assert Said([]) + [Eof] == [Eof];
  }

  /** A size line, a trailer line, or the line break after a chunk, of which a part has arrived: it waits for the rest exactly
      as long as there is no LF in it, and is refused if a bare LF is. */
  lemma PartialIff(p: Policy, st: BodyState, s: Bytes)
    requires !p.tight && (st.Size? || st.Trailers? || st.ChunkEof?) && Find(s, CRLF) < 0
    ensures Run(p, st, s) == if st.ChunkEof? then (if s in {[], [CR]} then Need([], st, s) else Fail)
                             else if LF in s then Fail else Need([], st, s)
  {
    if st.ChunkEof? {
      assert CRLF[..0] == [] && CRLF[..1] == [CR] && (|s| == 1 ==> s == [s[0]]);
      if |s| >= 2 { NotBreak(s); }
    }
  }

  lemma NotBreak(s: Bytes)
    requires Find(s, CRLF) < 0
    ensures !MatchAt(s, CRLF, 0)
  {
    FindFirst(s, CRLF, 0);
  }

  // ---- what is read was written ----

  /** A line and its line break, as they are found. */
  lemma LineFound(s: Bytes)
    requires Find(s, CRLF) >= 0
    ensures var pos := Find(s, CRLF); s == s[..pos] + CRLF + s[pos + 2..]
  {
    var pos := Find(s, CRLF);
    assert s[pos..pos + 2] == CRLF;
    assert s == s[..pos] + s[pos..pos + 2] + s[pos + 2..];
  }

  lemma {:induction false} TrailersWritten(p: Policy, done: seq<Bytes>, s: Bytes) returns (ls: seq<Bytes>)
    requires !p.tight && Run(p, Trailers(done), s).Done? && WellFormed(Trailers(done))
    requires forall k | 0 <= k < |done| :: |done[k]| <= p.maxField
    ensures IsTrailerSection(p, done + ls)
    ensures Run(p, Trailers(done), s).out == [Eof] && s == LinesText(ls) + CRLF + Run(p, Trailers(done), s).rest
    decreases |s|
  {
    hide Run, HeaderList, Find, IsTrailerSection;
    var l, s1 := TrailerFound(p, done, s);
    if l == [] {
      ls := [];
      EmptyEnds(p, done, s1);
      assert done + ls == done && LinesText(ls) + CRLF + s1 == l + CRLF + s1;
    } else {
      var ls1 := TrailersWritten(p, done + [l], s1);
      ls := [l] + ls1;
      assert done + [l] + ls1 == done + ls;
      var rest := Run(p, Trailers(done), s).rest;
      LinesCons(l, ls1, rest);
    }
  }

  lemma LinesCons(l: Bytes, ls: seq<Bytes>, rest: Bytes)
    ensures LinesText([l] + ls) + CRLF + rest == l + CRLF + (LinesText(ls) + CRLF + rest)
  {
    assert ([l] + ls)[1..] == ls;
  }

  lemma TrailerFound(p: Policy, done: seq<Bytes>, s: Bytes) returns (l: Bytes, s1: Bytes)
    requires !p.tight && Run(p, Trailers(done), s).Done?
    ensures s == l + CRLF + s1 && |l| <= p.maxField && |done| + 1 <= p.maxTrailers && |s1| < |s|
    ensures if l == [] then HeaderList(done + [[]]).Parsed? && Run(p, Trailers(done), s) == Done([Eof], s1)
            else Run(p, Trailers(done), s) == Run(p, Trailers(done + [l]), s1)
  {
    hide HeaderList;
    var pos := Find(s, CRLF);
    LineFound(s);
    l, s1 := s[..pos], s[pos + 2..];
    PrependTwice([], [], Run(p, Trailers(done + [l]), s1));
  }

  lemma EmptyEnds(p: Policy, done: seq<Bytes>, s1: Bytes)
    requires 0 <= p.maxField && |done| + 1 <= p.maxTrailers && HeaderList(done + [[]]).Parsed?
    requires forall k | 0 <= k < |done| :: done[k] != [] && |done[k]| <= p.maxField
    ensures IsTrailerSection(p, done)
  {
    NoneSpoiled(done);
  }

  lemma NoneSpoiled(ls: seq<Bytes>)
    requires HeaderList(ls + [[]]).Parsed? && forall k | 0 <= k < |ls| :: ls[k] != []
    ensures forall k | 0 <= k < |ls| :: LF !in ls[k]
  {
    hide HeaderList;
    var all := ls + [[]];
    assert forall k | 0 <= k < |ls| :: all[k] == ls[k];
    forall k | 0 <= k < |ls| ensures LF !in ls[k] {
      if LF in all[k] { LineFeedSpoils(all, [], k); }
    }
  }

  /** What the decoder completes is a chunked body, and it has said its data. */
  lemma {:induction false} BodyTextFound(p: Policy, s: Bytes) returns (b: BodyText)
    requires !p.tight && Run(p, Size, s).Done?
    ensures IsBodyText(p, b) && s == BodyWritten(b) + Run(p, Size, s).rest && Run(p, Size, s).out == BodySaid(b)
    decreases |s|
  {
    hide Run, Denotes, IsTrailerSection;
    var n, size, ext, t := SizeFound(p, s);
    var rest := Run(p, Size, s).rest;
    if n == 0 {
      var ls := TrailersWritten(p, [], t);
      assert [] + ls == ls;
      b := BodyText([], size, ext, ls);
      assert s == [] + (size + ext + CRLF + (LinesText(ls) + CRLF)) + rest;
      assert Said([]) + [Eof] == [Eof];
    } else {
      var data, u := ChunkFound(p, n, t);
      var b1 := BodyTextFound(p, u);
      var c := ChunkText(size, ext, data);
      b := ChunkFirst(p, c, b1, rest);
      assert s == Written(c) + u;
    }
  }

  lemma ChunkFirst(p: Policy, c: ChunkText, b1: BodyText, rest: Bytes) returns (b: BodyText)
    requires IsBodyText(p, b1) && IsChunkText(p, c)
    ensures IsBodyText(p, b) && BodyWritten(b) + rest == Written(c) + (BodyWritten(b1) + rest)
    ensures BodySaid(b) == [ChunkBegin] + Octets(c.data) + [ChunkEnd] + BodySaid(b1)
    ensures [ChunkBegin] + (Octets(c.data) + [ChunkEnd] + BodySaid(b1)) == BodySaid(b)
  {
    hide IsChunkText, Octets;
    b := b1.(chunks := [c] + b1.chunks);
    assert b.chunks[1..] == b1.chunks && b.chunks[0] == c;
    var o := [ChunkBegin] + Octets(c.data) + [ChunkEnd];
    assert (o + Said(b1.chunks)) + [Eof] == o + (Said(b1.chunks) + [Eof]);
  }

  lemma SizeFound(p: Policy, s: Bytes) returns (n: nat, size: Bytes, ext: Bytes, t: Bytes)
    requires !p.tight && Run(p, Size, s).Done?
    ensures Denotes(size, n) && IsExtension(ext) && |size + ext| <= p.maxLine && s == size + ext + CRLF + t
    ensures if n == 0 then Run(p, Size, s) == Run(p, Trailers([]), t)
            else Run(p, Size, s) == Prepend([ChunkBegin], Run(p, Chunk(n), t))
  {
    hide ParseSizeLine;
    var pos := Find(s, CRLF);
    LineFound(s);
    n := ParseSizeLine(s[..pos]).value;
    size, ext := SizeLineSplits(s[..pos], n);
    t := s[pos + 2..];
    PrependTwice([], [], Run(p, Trailers([]), t));
  }

  lemma ChunkFound(p: Policy, n: nat, t: Bytes) returns (data: Bytes, u: Bytes)
    requires !p.tight && n > 0 && Run(p, Chunk(n), t).Done?
    ensures |data| == n && t == data + (CRLF + u) && Run(p, Size, u).Done?
    ensures Run(p, Chunk(n), t) == Prepend(Octets(data) + [ChunkEnd], Run(p, Size, u))
  {
    data, u := t[..n], t[n + 2..];
    assert t[n..][0..2] == CRLF;
    assert t == data + (CRLF + u) && t[n..][2..] == u;
    PrependTwice([], [], Run(p, Size, u));
  }

  /** The decoder completes a body exactly if it is one, with exactly its data and exactly what follows it. */
  lemma CompletedIff(p: Policy, s: Bytes, out: seq<Signal>, rest: Bytes)
    requires !p.tight
    ensures Run(p, Size, s) == Done(out, rest)
       <==> exists b :: IsBodyText(p, b) && s == BodyWritten(b) + rest && out == BodySaid(b)
  {
    hide Run, IsBodyText, BodyWritten, BodySaid;
    if Run(p, Size, s) == Done(out, rest) {
      var b := BodyTextFound(p, s);
    }
    if b :| IsBodyText(p, b) && s == BodyWritten(b) + rest && out == BodySaid(b) {
      BodyTextDecodes(p, b, rest);
    }
  }
}
