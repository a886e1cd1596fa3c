/** Message bodies as a one-shot decoder: what a whole octet string means to the payload parser. */
module PayloadDecoding {
  import opened Bytes
  import opened HeadersParser

  /** What the parser tells the consumer of a connection, octet by octet. */
  datatype Signal =
    | Head(lines: seq<Bytes>)   // a request or status line with its header lines
    | ChunkBegin                // a non-empty HTTP chunk starts
    | Octet(b: byte)            // one octet of payload
    | ChunkEnd                  // that chunk is over
    | Eof                       // the body is over
    | BodyFailed                // the body was given up on, the parser was dropped

  /** The limits a parser was built with. A tight policy also refuses what only some segmentations survive. */
  datatype Policy = Policy(maxLine: int, maxField: int, maxTrailers: int, tight: bool)

  /** Where the decoder is inside a body. */
  datatype BodyState =
    | UntilEof
    | Fixed(left: nat)
    | Size
    | Chunk(left: nat)
    | ChunkEof
    | Trailers(lines: seq<Bytes>)

  /** The whole input was decoded (Done), more input is needed (Need), or the input is refused (Fail). */
  datatype Outcome =
    | Need(out: seq<Signal>, st: BodyState, tail: Bytes)
    | Done(out: seq<Signal>, rest: Bytes)
    | Fail

  function Prepend(o: seq<Signal>, r: Outcome): Outcome {
    match r
    case Need(out, st, tail) => Need(o + out, st, tail)
    case Done(out, rest) => Done(o + out, rest)
    case Fail => Fail
  }

  lemma PrependTwice(a: seq<Signal>, b: seq<Signal>, r: Outcome)
    ensures Prepend(a, Prepend(b, r)) == Prepend(a + b, r)
    ensures Prepend([], r) == r
  {
    if !r.Fail? {
      assert a + (b + r.out) == (a + b) + r.out;
      assert [] + r.out == r.out;
    }
  }

  function Octets(s: Bytes): (o: seq<Signal>)
    ensures |o| == |s|
  {
    seq(|s|, i requires 0 <= i < |s| => Octet(s[i]))
  }

  lemma OctetsAppend(a: Bytes, b: Bytes)
    ensures Octets(a + b) == Octets(a) + Octets(b)
  {
  }

  // ---- chunk-size lines ----

  /** How many messages are announced. */
  function HeadCount(o: seq<Signal>): nat {
    if o == [] then 0 else HeadCount(o[..|o| - 1]) + if o[|o| - 1].Head? then 1 else 0
  }

  lemma HeadCountOne(o: seq<Signal>, sig: Signal)
    ensures HeadCount(o + [sig]) == HeadCount(o) + if sig.Head? then 1 else 0
  {
    assert (o + [sig])[..|o|] == o;
  }

  lemma {:induction false} HeadCountOctets(o: seq<Signal>, s: Bytes)
    ensures HeadCount(o + Octets(s)) == HeadCount(o)
    decreases |s|
  {
    if s == [] {
      assert o + Octets(s) == o;
    } else {
      var front := s[..|s| - 1];
      HeadCountOctets(o, front);
      HeadCountOne(o + Octets(front), Octet(s[|s| - 1]));
      assert o + Octets(s) == o + Octets(front) + [Octet(s[|s| - 1])];
    }
  }

  predicate IsHexDigit(b: byte) {
    48 <= b <= 57 || 65 <= b <= 70 || 97 <= b <= 102
  }

  function HexDigit(b: byte): (v: nat)
    requires IsHexDigit(b)
    ensures v < 16
  {
    if b <= 57 then b - 48 else if b <= 70 then b - 55 else b - 87
  }

  predicate AllHex(s: Bytes) { forall i | 0 <= i < |s| :: IsHexDigit(s[i]) }

  function HexValue(s: Bytes): nat
    requires AllHex(s)
  {
    if s == [] then 0 else 16 * HexValue(s[..|s| - 1]) + HexDigit(s[|s| - 1])
  }

  /** The size on a chunk-size line; an extension is dropped but may not hide a bare LF. */
  function ParseSizeLine(line: Bytes): Option<nat> {
    var i := IndexOf(line, SEMICOLON);
    var sizeText := if i >= 0 then line[..i] else line;
    if i >= 0 && LF in line[i..] then None
    else if sizeText == [] || !AllHex(sizeText) then None
    else Some(HexValue(sizeText))
  }

  lemma SizeLineFeedRejected(line: Bytes)
    requires LF in line
    ensures ParseSizeLine(line).None?
  {
    var i := IndexOf(line, SEMICOLON);
    if i >= 0 {
      assert line == line[..i] + line[i..];
      assert LF in line[..i] || LF in line[i..];
    }
    assert !IsHexDigit(LF);
  }

  // ---- the one-shot decoder ----

  /** One step of decoding: either the decoder stops, or it emits `out` and goes on. */
  datatype StepResult = Stop(r: Outcome) | Go(out: seq<Signal>, st: BodyState, rest: Bytes)

  function Step(p: Policy, st: BodyState, s: Bytes): StepResult {
    match st
    case UntilEof => Stop(Need(Octets(s), UntilEof, []))
    case Fixed(n) =>
      if |s| < n then Stop(Need(Octets(s), Fixed(n - |s|), [])) else Stop(Done(Octets(s[..n]) + [Eof], s[n..]))
    case Size => StepSize(p, s, Find(s, CRLF))
    case Chunk(n) =>
      if |s| < n then Stop(Need(Octets(s), Chunk(n - |s|), [])) else Go(Octets(s[..n]) + [ChunkEnd], ChunkEof, s[n..])
    case ChunkEof =>
      if p.tight && p.maxLine < 0 then Stop(Fail)
      else if MatchAt(s, CRLF, 0) then Go([], Size, s[2..])
      else if |s| >= 2 || s != CRLF[..|s|] then Stop(Fail)
      else Stop(Need([], ChunkEof, s))
    case Trailers(lines) => StepTrailer(p, lines, s, Find(s, CRLF))
  }

  /** A chunk-size line that ends at `pos`, or a partial one. */
  function StepSize(p: Policy, s: Bytes, pos: int): StepResult
    requires pos >= 0 ==> pos + 2 <= |s|
  {
    if pos < 0 then
      if LF in s || (p.tight && |s| > p.maxLine + 1) then Stop(Fail) else Stop(Need([], Size, s))
    else if pos > p.maxLine then Stop(Fail)
    else
      match ParseSizeLine(s[..pos])
      case None => Stop(Fail)
      case Some(n) => if n == 0 then Go([], Trailers([]), s[pos + 2..]) else Go([ChunkBegin], Chunk(n), s[pos + 2..])
  }

  /** A trailer line that ends at `pos`, or a partial one. */
  function StepTrailer(p: Policy, lines: seq<Bytes>, s: Bytes, pos: int): StepResult
    requires pos >= 0 ==> pos + 2 <= |s|
  {
    if pos < 0 then
      if LF in s || (p.tight && |s| > p.maxField + 1) then Stop(Fail) else Stop(Need([], Trailers(lines), s))
    else if pos > p.maxField || (p.tight && LF in s[..pos]) || |lines| + 1 > p.maxTrailers then Stop(Fail)
    else if pos == 0 then
      if HeaderList(lines + [[]]).Rejected? then Stop(Fail) else Stop(Done([Eof], s[2..]))
    else Go([], Trailers(lines + [s[..pos]]), s[pos + 2..])
  }

  function Rank(st: BodyState): nat {
    match st
    case Chunk(_) => 2
    case ChunkEof => 1
    case _ => 0
  }

  /** Decodes all of `s` at once, starting inside a body at `st`. */
  function Run(p: Policy, st: BodyState, s: Bytes): (r: Outcome)
    ensures r.Done? ==> |r.rest| <= |s|
    decreases |s|, Rank(st)
  {
    match Step(p, st, s)
    case Stop(r) => r
    case Go(out, st1, rest) => Prepend(out, Run(p, st1, rest))
  }

  /** The trailer lines collected so far are not empty (the empty one ends the section). */
  predicate WellFormed(st: BodyState) {
    st.Trailers? ==> forall i | 0 <= i < |st.lines| :: st.lines[i] != []
  }

  /** Nothing can be decoded without more input. */
  predicate Quiet(p: Policy, st: BodyState, tail: Bytes) {
    Step(p, st, tail) == Stop(Need([], st, tail))
  }

  /** What a later line break can do to a partial line. */
  lemma PartialLine(a: Bytes, b: Bytes)
    requires Find(a, CRLF) < 0
    ensures var pos := Find(a + b, CRLF);
            pos >= 0 ==> pos >= |a| - 1 && (LF in a ==> LF in (a + b)[..pos])
  {
    FindAppend(a, b, CRLF);
    var pos := Find(a + b, CRLF);
    if pos >= 0 && LF in a {
      var k :| 0 <= k < |a| && a[k] == LF;
      assert (a + b)[k] == LF && (a + b)[pos..pos + 2][0] == CR;
      assert (a + b)[pos] == CR;
      assert (a + b)[..pos][k] == LF;
    }
  }

  /** A line that is complete is read the same way whatever follows it. */
  lemma CompleteLine(a: Bytes, b: Bytes)
    requires Find(a, CRLF) >= 0
    ensures var pos := Find(a, CRLF);
            Find(a + b, CRLF) == pos && (a + b)[..pos] == a[..pos] && (a + b)[pos + 2..] == a[pos + 2..] + b
  {
    FindAppend(a, b, CRLF);
  }

  /** A step taken on line-structured input does not depend on what follows. */
  lemma StepAppend(p: Policy, st: BodyState, a: Bytes, b: Bytes)
    requires st.Size? || st.ChunkEof? || st.Trailers?
    ensures match Step(p, st, a)
            case Go(o, st1, rest) => Step(p, st, a + b) == Go(o, st1, rest + b)
            case Stop(Done(o, rest)) => Step(p, st, a + b) == Stop(Done(o, rest + b))
            case Stop(Need(o, st1, t)) => o == [] && st1 == st && t == a
            case Stop(Fail) => !st.Trailers? || p.tight ==> Step(p, st, a + b) == Stop(Fail)
  {
    if st.ChunkEof? {
      ChunkEofAppend(p, a, b);
    } else if Find(a, CRLF) >= 0 {
      CompleteLine(a, b);
    } else {
      PartialLine(a, b);
      var pos := Find(a + b, CRLF);
      if pos >= 0 && LF in a {
        SizeLineFeedRejected((a + b)[..pos]);
      }
    }
  }

  lemma ChunkEofAppend(p: Policy, a: Bytes, b: Bytes)
    ensures Step(p, ChunkEof, a).Go? ==> Step(p, ChunkEof, a + b) == Go([], Size, a[2..] + b)
    ensures Step(p, ChunkEof, a) == Stop(Fail) ==> Step(p, ChunkEof, a + b) == Stop(Fail)
  {
    if |a| >= 2 {
      MatchAtAppend(a, b, CRLF, 0);
      assert (a + b)[2..] == a[2..] + b;
    } else if |a| == 1 && a[0] != CR {
      assert |a + b| >= 2 ==> (a + b)[0..2][0] == a[0];
      assert (a + b)[0] == a[0];
    } else if a == [] {
      assert CRLF[..0] == [];
    } else {
      assert a == CRLF[..1];
    }
  }

  /** The state reached on a prefix stands for that prefix: decoding may go on from there. */
  ghost predicate Resumes(p: Policy, st: BodyState, a: Bytes, b: Bytes) {
    match Run(p, st, a)
    case Need(out, st1, t1) => Run(p, st, a + b) == Prepend(out, Run(p, st1, t1 + b)) && WellFormed(st1) && Quiet(p, st1, t1)
    case Done(out, rest) => Run(p, st, a + b) == Done(out, rest + b)
    case Fail => !Run(p, st, a + b).Done? && (p.tight ==> Run(p, st, a + b).Fail?)
  }

  lemma {:induction false} RunAppend(p: Policy, st: BodyState, a: Bytes, b: Bytes)
    requires WellFormed(st)
    ensures Resumes(p, st, a, b)
    decreases |a|, Rank(st)
  {
    match st
    case UntilEof => PlainAppend(p, st, a, b);
    case Fixed(_) => PlainAppend(p, st, a, b);
    case Chunk(n) =>
      if |a| < n {
        ChunkAppend(p, n, a, b);
      } else {
        assert (a + b)[..n] == a[..n] && (a + b)[n..] == a[n..] + b;
        RunAppend(p, ChunkEof, a[n..], b);
        ResumesStep(p, st, a, b);
      }
    case _ =>
      StepAppend(p, st, a, b);
      match Step(p, st, a) {
        case Go(o, st1, rest) =>
          RunAppend(p, st1, rest, b);
          ResumesStep(p, st, a, b);
        case Stop(Need(o, st1, t)) => PrependTwice([], [], Run(p, st, a + b));
        case Stop(Done(o, rest)) =>
        case Stop(Fail) => FailAppend(p, st, a, b);
      }
  }

  lemma ResumesStep(p: Policy, st: BodyState, a: Bytes, b: Bytes)
    requires Step(p, st, a).Go?
    requires var Go(o, st1, rest) := Step(p, st, a); Step(p, st, a + b) == Go(o, st1, rest + b) && Resumes(p, st1, rest, b)
    ensures Resumes(p, st, a, b)
  {
    var Go(o, st1, rest) := Step(p, st, a);
    var r := Run(p, st1, rest);
    if r.Need? {
      PrependTwice(o, r.out, Run(p, r.st, r.tail + b));
    }
  }

  lemma PlainAppend(p: Policy, st: BodyState, a: Bytes, b: Bytes)
    requires st.UntilEof? || st.Fixed?
    ensures Resumes(p, st, a, b)
  {
    OctetsAppend(a, b);
    assert [] + b == b && Octets([]) == [];
    if st.Fixed? {
      var n := st.left;
      if |a| >= n {
        assert (a + b)[..n] == a[..n] && (a + b)[n..] == a[n..] + b;
      } else if |a + b| >= n {
        assert (a + b)[..n] == a + b[..n - |a|] && (a + b)[n..] == b[n - |a|..];
        OctetsAppend(a, b[..n - |a|]);
        assert Octets(a) + (Octets(b[..n - |a|]) + [Eof]) == (Octets(a) + Octets(b[..n - |a|])) + [Eof];
      }
    }
  }

  lemma ChunkAppend(p: Policy, n: nat, a: Bytes, b: Bytes)
    requires |a| < n
    ensures Resumes(p, Chunk(n), a, b)
  {
    OctetsAppend(a, b);
    assert [] + b == b && Octets([]) == [];
    if |a + b| >= n {
      var k := n - |a|;
      assert (a + b)[..n] == a + b[..k] && (a + b)[n..] == b[k..];
      OctetsAppend(a, b[..k]);
      assert Octets(a) + (Octets(b[..k]) + [ChunkEnd]) == Octets((a + b)[..n]) + [ChunkEnd];
      PrependTwice(Octets(a), Octets(b[..k]) + [ChunkEnd], Run(p, ChunkEof, b[k..]));
    }
  }

  lemma FailAppend(p: Policy, st: BodyState, a: Bytes, b: Bytes)
    requires (st.Size? || st.ChunkEof? || st.Trailers?) && WellFormed(st) && Step(p, st, a) == Stop(Fail)
    ensures !Run(p, st, a + b).Done? && (p.tight ==> Run(p, st, a + b).Fail?)
  {
    if st.Trailers? {
      TrailersFail(p, st.lines, a, b);
    } else {
      StepAppend(p, st, a, b);
    }
  }

  /** A trailer section refused on a prefix is never completed. */
  lemma TrailersFail(p: Policy, lines: seq<Bytes>, a: Bytes, b: Bytes)
    requires WellFormed(Trailers(lines)) && Step(p, Trailers(lines), a) == Stop(Fail)
    ensures !Run(p, Trailers(lines), a + b).Done? && (p.tight ==> Run(p, Trailers(lines), a + b).Fail?)
  {
    hide Find;
    StepAppend(p, Trailers(lines), a, b);
    if Find(a, CRLF) >= 0 {
      CompleteLine(a, b);
    } else {
      PartialTrailerFails(p, lines, a, b);
    }
  }

  lemma PartialTrailerFails(p: Policy, lines: seq<Bytes>, a: Bytes, b: Bytes)
    requires WellFormed(Trailers(lines)) && Find(a, CRLF) < 0 && Step(p, Trailers(lines), a) == Stop(Fail)
    ensures !Run(p, Trailers(lines), a + b).Done? && (p.tight ==> Run(p, Trailers(lines), a + b).Fail?)
  {
    hide Find;
    PartialLine(a, b);
    var q := Find(a + b, CRLF);
    if q >= 0 && LF in a && !p.tight {
      SpoiledTrailers(p, lines + [(a + b)[..q]], |lines|, (a + b)[q + 2..]);
    }
  }

  /** A trailer line with a bare LF is refused no later than at the end of the section. */
  lemma {:induction false} SpoiledTrailers(p: Policy, lines: seq<Bytes>, k: nat, s: Bytes)
    requires k < |lines| && LF in lines[k] && WellFormed(Trailers(lines))
    ensures !Run(p, Trailers(lines), s).Done?
    decreases |s|
  {
    var pos := Find(s, CRLF);
    if pos == 0 {
      LineFeedSpoils(lines + [[]], [], k);
    } else if pos > 0 {
      SpoiledTrailers(p, lines + [s[..pos]], k, s[pos + 2..]);
    }
  }

  // ---- the limits ----

  /** The policy under which every line stays strictly below the limits of `p`. */
  function Tighten(p: Policy): Policy { p.(maxLine := p.maxLine - 1, maxField := p.maxField - 1, tight := true) }

  /** A tight decoder refuses more and otherwise agrees. */
  lemma {:induction false} TightAgrees(p: Policy, st: BodyState, s: Bytes)
    requires !p.tight
    ensures Run(Tighten(p), st, s).Fail? || Run(p, st, s) == Run(Tighten(p), st, s)
    decreases |s|, Rank(st)
  {
    assert Step(Tighten(p), st, s) == Stop(Fail) || Step(Tighten(p), st, s) == Step(p, st, s);
    match Step(p, st, s)
    case Stop(_) =>
    case Go(o, st1, rest) => TightAgrees(p, st1, rest);
  }

  // ---- single moves, for every continuation of the input ----

  /** Decoding `s` at `st` emits `o` and goes on at `st1` with `s1`, whatever follows. */
  ghost predicate Moves(p: Policy, st: BodyState, s: Bytes, o: seq<Signal>, st1: BodyState, s1: Bytes) {
    forall b: Bytes {:trigger RunWith(p, st, s, b)} ::
      (p.tight && RunWith(p, st, s, b).Fail?) || RunWith(p, st, s, b) == Prepend(o, RunWith(p, st1, s1, b))
  }

  /** Decoding an input followed by `b`. */
  function RunWith(p: Policy, st: BodyState, s: Bytes, b: Bytes): Outcome { Run(p, st, s + b) }

  /** The same under a policy and under its tight version (which may refuse instead). */
  ghost predicate Advances(p: Policy, st: BodyState, s: Bytes, o: seq<Signal>, st1: BodyState, s1: Bytes) {
    Moves(p, st, s, o, st1, s1) && Moves(Tighten(p), st, s, o, st1, s1)
  }

  lemma MovesTrans(p: Policy, st: BodyState, s: Bytes, o: seq<Signal>, st1: BodyState, s1: Bytes,
                   o1: seq<Signal>, st2: BodyState, s2: Bytes)
    requires Moves(p, st, s, o, st1, s1) && Moves(p, st1, s1, o1, st2, s2)
    ensures Moves(p, st, s, o + o1, st2, s2)
  {
    forall b: Bytes
      ensures (p.tight && RunWith(p, st, s, b).Fail?) || RunWith(p, st, s, b) == Prepend(o + o1, RunWith(p, st2, s2, b))
    {
      PrependTwice(o, o1, RunWith(p, st2, s2, b));
      assert RunWith(p, st1, s1, b) == RunWith(p, st1, s1, b);
    }
  }

  lemma AdvancesTrans(p: Policy, st: BodyState, s: Bytes, o: seq<Signal>, st1: BodyState, s1: Bytes,
                      o1: seq<Signal>, st2: BodyState, s2: Bytes)
    requires Advances(p, st, s, o, st1, s1) && Advances(p, st1, s1, o1, st2, s2)
    ensures Advances(p, st, s, o + o1, st2, s2)
  {
    MovesTrans(p, st, s, o, st1, s1, o1, st2, s2);
    MovesTrans(Tighten(p), st, s, o, st1, s1, o1, st2, s2);
  }

  lemma MovesRefl(p: Policy, st: BodyState, s: Bytes)
    ensures Moves(p, st, s, [], st, s)
  {
    forall b: Bytes ensures Prepend([], RunWith(p, st, s, b)) == RunWith(p, st, s, b) {
      PrependTwice([], [], RunWith(p, st, s, b));
    }
  }

  lemma AdvancesRefl(p: Policy, st: BodyState, s: Bytes)
    ensures Advances(p, st, s, [], st, s)
  {
    MovesRefl(p, st, s);
    MovesRefl(Tighten(p), st, s);
  }

  /** More input arrives. */
  lemma AdvancesFed(p: Policy, st: BodyState, s: Bytes, o: seq<Signal>, st1: BodyState, s1: Bytes, data: Bytes)
    requires Advances(p, st, s, o, st1, s1)
    ensures Advances(p, st, s + data, o, st1, s1 + data)
  {
    MovesFed(p, st, s, o, st1, s1, data);
    MovesFed(Tighten(p), st, s, o, st1, s1, data);
  }

  lemma MovesFed(p: Policy, st: BodyState, s: Bytes, o: seq<Signal>, st1: BodyState, s1: Bytes, data: Bytes)
    requires Moves(p, st, s, o, st1, s1)
    ensures Moves(p, st, s + data, o, st1, s1 + data)
  {
    forall b: Bytes
      ensures (p.tight && RunWith(p, st, s + data, b).Fail?)
           || RunWith(p, st, s + data, b) == Prepend(o, RunWith(p, st1, s1 + data, b))
    {
      Assoc(s, data, b);
      Assoc(s1, data, b);
      assert RunWith(p, st, s + data, b) == RunWith(p, st, s, data + b);
    }
  }

  /** The instance for the input as it stands. */
  lemma AdvancesNow(p: Policy, st: BodyState, s: Bytes, o: seq<Signal>, st1: BodyState, s1: Bytes)
    requires Advances(p, st, s, o, st1, s1) && !p.tight
    ensures Run(p, st, s) == Prepend(o, Run(p, st1, s1))
    ensures Run(Tighten(p), st, s).Fail? || Run(Tighten(p), st, s) == Prepend(o, Run(Tighten(p), st1, s1))
  {
    assert s + [] == s && s1 + [] == s1;
    assert RunWith(p, st, s, []) == Run(p, st, s) && RunWith(Tighten(p), st, s, []) == Run(Tighten(p), st, s);
  }

  /** A step over a size line, over the CRLF of a chunk, or over a trailer line. */
  lemma StepAdvances(p: Policy, st: BodyState, s: Bytes)
    requires !p.tight && (st.Size? || st.ChunkEof? || st.Trailers?) && Step(p, st, s).Go?
    ensures var Go(o, st1, s1) := Step(p, st, s); Advances(p, st, s, o, st1, s1)
  {
    hide Step, Run, Moves;
    StepMoves(p, st, s);
    TightStep(p, st, s);
    if Step(Tighten(p), st, s).Go? {
      StepMoves(Tighten(p), st, s);
    } else {
      FailMoves(p, st, s);
    }
  }

  lemma TightStep(p: Policy, st: BodyState, s: Bytes)
    requires !p.tight && Step(p, st, s).Go?
    ensures Step(Tighten(p), st, s) == Stop(Fail) || Step(Tighten(p), st, s) == Step(p, st, s)
  {
    hide Find, ParseSizeLine;
  }

  /** Where the lower limits refuse the line, they do so whatever follows. */
  lemma FailMoves(p: Policy, st: BodyState, s: Bytes)
    requires !p.tight && (st.Size? || st.ChunkEof? || st.Trailers?) && Step(p, st, s).Go? && Step(Tighten(p), st, s) == Stop(Fail)
    ensures var Go(o, st1, s1) := Step(p, st, s); Moves(Tighten(p), st, s, o, st1, s1)
  {
    forall b: Bytes ensures RunWith(Tighten(p), st, s, b).Fail? {
      StepAppend(Tighten(p), st, s, b);
    }
  }

  /** A size line has been read. */
  lemma SizeAdvances(p: Policy, s: Bytes, pos: nat, size: nat)
    requires !p.tight && pos == Find(s, CRLF) && pos <= p.maxLine && ParseSizeLine(s[..pos]) == Some(size)
    ensures Advances(p, Size, s, if size == 0 then [] else [ChunkBegin], if size == 0 then Trailers([]) else Chunk(size), s[pos + 2..])
  {
    hide Advances, Find, ParseSizeLine;
    StepAdvances(p, Size, s);
  }

  /** A trailer line has been read. */
  lemma TrailerAdvances(p: Policy, lines: seq<Bytes>, s: Bytes, pos: nat)
    requires !p.tight && WellFormed(Trailers(lines)) && 0 < pos == Find(s, CRLF) && pos <= p.maxField && |lines| + 1 <= p.maxTrailers
    ensures Advances(p, Trailers(lines), s, [], Trailers(lines + [s[..pos]]), s[pos + 2..])
  {
    hide Advances, Find;
    StepAdvances(p, Trailers(lines), s);
  }

  lemma StepMoves(p: Policy, st: BodyState, s: Bytes)
    requires (st.Size? || st.ChunkEof? || st.Trailers?) && Step(p, st, s).Go?
    ensures var Go(o, st1, s1) := Step(p, st, s); Moves(p, st, s, o, st1, s1)
  {
    var Go(o, st1, s1) := Step(p, st, s);
    forall b: Bytes ensures RunWith(p, st, s, b) == Prepend(o, RunWith(p, st1, s1, b)) {
      StepAppend(p, st, s, b);
    }
  }

  lemma ChunkMoves(p: Policy, n: nat, s: Bytes)
    ensures var k := Min(n, |s|); Moves(p, Chunk(n), s, Octets(s[..k]), Chunk(n - k), s[k..])
  {
    var k := Min(n, |s|);
    forall b: Bytes ensures RunWith(p, Chunk(n), s, b) == Prepend(Octets(s[..k]), RunWith(p, Chunk(n - k), s[k..], b)) {
      if |s| < n {
        ChunkAppend(p, n, s, b);
        assert s[..|s|] == s && s[|s|..] == [];
      } else {
        var t := s[n..] + b;
        assert (s + b)[..n] == s[..n] && (s + b)[n..] == t && t[..0] == [] && t[0..] == t;
        PrependTwice(Octets(s[..n]), Octets(t[..0]) + [ChunkEnd], Run(p, ChunkEof, t));
        assert Octets(s[..n]) + (Octets(t[..0]) + [ChunkEnd]) == Octets(s[..n]) + [ChunkEnd];
      }
    }
  }

  lemma ChunkAdvances(p: Policy, n: nat, s: Bytes)
    ensures var k := Min(n, |s|); Advances(p, Chunk(n), s, Octets(s[..k]), Chunk(n - k), s[k..])
  {
    ChunkMoves(p, n, s);
    ChunkMoves(Tighten(p), n, s);
  }

  lemma ChunkEndAdvances(p: Policy, s: Bytes)
    ensures Advances(p, Chunk(0), s, [ChunkEnd], ChunkEof, s)
  {
    forall b: Bytes ensures (s + b)[..0] == [] && (s + b)[0..] == s + b && Octets([]) + [ChunkEnd] == [ChunkEnd] {
    }
  }

  lemma FixedMoves(p: Policy, n: nat, s: Bytes)
    ensures var k := Min(n, |s|); Moves(p, Fixed(n), s, Octets(s[..k]), Fixed(n - k), s[k..])
  {
    var k := Min(n, |s|);
    forall b: Bytes ensures RunWith(p, Fixed(n), s, b) == Prepend(Octets(s[..k]), RunWith(p, Fixed(n - k), s[k..], b)) {
      var t := s[k..] + b;
      OctetsAppend(s[..k], if |t| < n - k then t else t[..n - k]);
      assert s + b == s[..k] + t;
      if |t| >= n - k {
        assert (s + b)[..n] == s[..k] + t[..n - k] && (s + b)[n..] == t[n - k..];
        assert Octets(s[..k]) + (Octets(t[..n - k]) + [Eof]) == Octets((s + b)[..n]) + [Eof];
      }
    }
  }

  lemma FixedAdvances(p: Policy, n: nat, s: Bytes)
    ensures var k := Min(n, |s|); Advances(p, Fixed(n), s, Octets(s[..k]), Fixed(n - k), s[k..])
  {
    FixedMoves(p, n, s);
    FixedMoves(Tighten(p), n, s);
  }

  lemma UntilEofAdvances(p: Policy, s: Bytes)
    ensures Advances(p, UntilEof, s, Octets(s), UntilEof, [])
  {
    forall b: Bytes ensures Octets(s + b) == Octets(s) + Octets([] + b) {
      OctetsAppend(s, b);
      assert [] + b == b;
    }
  }

  /** A saved partial line is longer than the limit of the state it belongs to. */
  predicate OverLimit(p: Policy, st: BodyState, tail: Bytes) {
    match st
    case Size => |tail| > p.maxLine
    case ChunkEof => |tail| > p.maxLine
    case Trailers(_) => |tail| > p.maxField
    case _ => false
  }

  /** One call of a parser that has kept `tail` in state `st`, followed by as many resumes as it asks for. */
  function FeedOnce(p: Policy, st: BodyState, tail: Bytes, data: Bytes): Outcome {
    if tail != [] && OverLimit(p, st, tail) then Fail else Run(p, st, tail + data)
  }

  /** A partial line over the limit cannot be completed under the tight policy. */
  lemma OverLimitFails(p: Policy, st: BodyState, tail: Bytes)
    requires !p.tight && Quiet(p, st, tail) && OverLimit(p, st, tail) && tail != []
    ensures Run(Tighten(p), st, tail).Fail?
  {
  }

  lemma NothingRun(p: Policy, st: BodyState)
    requires !p.tight && st != Fixed(0) && st != Chunk(0)
    ensures Run(p, st, []) == Need([], st, [])
  {
    QuietEmpty(p, st);
  }

  lemma QuietEmpty(p: Policy, st: BodyState)
    requires !p.tight && st != Fixed(0) && st != Chunk(0)
    ensures Quiet(p, st, [])
  {
    assert CRLF[..0] == [] && Octets([]) == [];
  }
}
