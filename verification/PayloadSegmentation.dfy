/** How a chunked body is decoded when it arrives in pieces, and exactly when the pieces do not matter. */
module PayloadSegmentation {
  import opened Bytes
  import opened HeadersParser
  import opened PayloadDecoding

  /** One call for each piece. What is left over when the body is complete includes the pieces not fed. */
  function FeedAll(p: Policy, st: BodyState, tail: Bytes, pieces: seq<Bytes>): Outcome
    decreases |pieces|
  {
    if pieces == [] then Need([], st, tail)
    else
      match FeedOnce(p, st, tail, pieces[0])
      case Need(out, st1, tail1) => Prepend(out, FeedAll(p, st1, tail1, pieces[1..]))
      case Done(out, rest) => Done(out, rest + Concat(pieces[1..]))
      case Fail => Fail
  }

  /** The first piece, and what comes after it. */
  lemma FeedAllFrom(p: Policy, st: BodyState, tail: Bytes, pieces: seq<Bytes>, i: nat)
    requires i < |pieces|
    ensures FeedAll(p, st, tail, pieces[i..])
         == match FeedOnce(p, st, tail, pieces[i])
            case Need(out, st1, tail1) => Prepend(out, FeedAll(p, st1, tail1, pieces[i + 1..]))
            case Done(out, rest) => Done(out, rest + Concat(pieces[i + 1..]))
            case Fail => Fail
  {
    assert pieces[i..][1..] == pieces[i + 1..];
  }

  /** With every line strictly below the limits, feeding in pieces is decoding at once. */
  lemma {:induction false} PiecesAgree(p: Policy, st: BodyState, tail: Bytes, pieces: seq<Bytes>)
    requires !p.tight && WellFormed(st) && Quiet(p, st, tail)
    requires !Run(Tighten(p), st, tail + Concat(pieces)).Fail?
    ensures FeedAll(p, st, tail, pieces) == Run(p, st, tail + Concat(pieces))
    decreases |pieces|
  {
    TightAgrees(p, st, tail + Concat(pieces));
    if pieces == [] {
      assert tail + [] == tail;
    } else {
      var data, more := pieces[0], Concat(pieces[1..]);
      assert tail + (data + more) == (tail + data) + more;
      if tail != [] && OverLimit(p, st, tail) {
        OverLimitFails(p, st, tail);
        RunAppend(Tighten(p), st, tail, data + more);
        assert false;
      } else {
        RunAppend(Tighten(p), st, tail + data, more);
        RunAppend(p, st, tail + data, more);
        TightAgrees(p, st, tail + data);
        var r := Run(p, st, tail + data);
        if r.Need? {
          PiecesAgree(p, r.st, r.tail, pieces[1..]);
        }
      }
    }
  }

  /** A size or trailer line of a body, and the limit for its length. */
  datatype LimitedLine = LimitedLine(text: Bytes, limit: int)

  /** The size lines of the chunks and the trailer lines of what is left of an accepted body, in order. */
  function LimitedLines(p: Policy, st: BodyState, s: Bytes): seq<LimitedLine>
    decreases |s|, Rank(st)
  {
    FirstLine(p, st, s) +
    match Step(p, st, s)
    case Stop(_) => []
    case Go(_, st1, rest) => LimitedLines(p, st1, rest)
  }

  function FirstLine(p: Policy, st: BodyState, s: Bytes): seq<LimitedLine> {
    var pos := Find(s, CRLF);
    if pos < 0 then []
    else if st.Size? then [LimitedLine(s[..pos], p.maxLine)]
    else if st.Trailers? then [LimitedLine(s[..pos], p.maxField)]
    else []
  }

  /** Some size or trailer line is exactly as long as its limit. */
  predicate HasLimitLine(p: Policy, st: BodyState, s: Bytes) {
    AnyAtLimit(LimitedLines(p, st, s))
  }

  /** The decoder with the lower limits refuses an accepted body exactly for such a line. */
  lemma {:induction false} LimitLineIff(p: Policy, st: BodyState, s: Bytes)
    requires !p.tight && WellFormed(st) && Run(p, st, s).Done?
    ensures Run(Tighten(p), st, s).Fail? <==> HasLimitLine(p, st, s)
    decreases |s|, Rank(st)
  {
    hide FirstLine, WellFormed, Step, Run, LimitedLines, AnyAtLimit;
    FirstLineIff(p, st, s);
    Unfolded(p, st, s);
    FailUnfolded(Tighten(p), st, s);
    var first, r := FirstLine(p, st, s), Step(p, st, s);
    if r.Go? {
      LimitLineIff(p, r.st, r.rest);
      EitherLine(first, LimitedLines(p, r.st, r.rest));
    } else {
      EitherLine(first, []);
    }
  }

  lemma Unfolded(p: Policy, st: BodyState, s: Bytes)
    requires Run(p, st, s).Done?
    ensures var r := Step(p, st, s);
            && LimitedLines(p, st, s) == FirstLine(p, st, s) + (if r.Go? then LimitedLines(p, r.st, r.rest) else [])
            && (r.Stop? ==> r.r.Done?)
            && (r.Go? ==> Run(p, r.st, r.rest).Done? && |r.rest| <= |s| && (|r.rest| == |s| ==> Rank(r.st) < Rank(st)))
  {
    hide FirstLine;
  }

  lemma FailUnfolded(p: Policy, st: BodyState, s: Bytes)
    ensures var r := Step(p, st, s);
            Run(p, st, s).Fail? <==> r == Stop(Fail) || (r.Go? && Run(p, r.st, r.rest).Fail?)
  {
  }

  predicate AnyAtLimit(ls: seq<LimitedLine>) { exists l | l in ls :: |l.text| == l.limit }

  lemma EitherLine(a: seq<LimitedLine>, b: seq<LimitedLine>)
    ensures (AnyAtLimit(a + b) <==> AnyAtLimit(a) || AnyAtLimit(b)) && !AnyAtLimit([])
  {
    if l :| l in a && |l.text| == l.limit { assert l in a + b; }
    if l :| l in b && |l.text| == l.limit { assert l in a + b; }
  }

  lemma FirstLineIff(p: Policy, st: BodyState, s: Bytes)
    requires !p.tight && WellFormed(st) && Run(p, st, s).Done?
    ensures Step(Tighten(p), st, s) == if AnyAtLimit(FirstLine(p, st, s)) then Stop(Fail) else Step(p, st, s)
    ensures Step(p, st, s).Go? ==> WellFormed(Step(p, st, s).st)
  {
    if st.Size? || st.Trailers? {
      NoLineFeed(p, st, s);
      var l := FirstLine(p, st, s)[0];
      assert FirstLine(p, st, s) == [l];
      assert AnyAtLimit([l]) <==> |l.text| == l.limit by {
        if |l.text| == l.limit { assert l in [l]; }
      }
    } else if st.ChunkEof? {
      RoomForSize(p, s);
    }
  }

  /** Where a chunk is followed by a size line, lines may be longer than zero. */
  lemma RoomForSize(p: Policy, s: Bytes)
    requires !p.tight && Run(p, ChunkEof, s).Done?
    ensures 0 < p.maxLine
  {
    assert Step(p, Size, s[2..]).Go?;
  }

  /** The input is cut inside a line at its limit, between its CR and its LF: what comes before is read, and the line and its
      CR are kept, which is more than the limit. */
  ghost predicate CutAt(p: Policy, st: BodyState, s: Bytes, k: nat, l: LimitedLine) {
    k < |s| && s[k] == LF && |l.text| == l.limit && Keeps(p, st, s[..k], l)
  }

  ghost predicate Keeps(p: Policy, st: BodyState, a: Bytes, l: LimitedLine) {
    var r := Run(p, st, a);
    r.Need? && r.tail == l.text + [CR] && OverLimit(p, r.st, r.tail)
  }

  lemma FirstLineCut(p: Policy, st: BodyState, s: Bytes) returns (k: nat, l: LimitedLine)
    requires !p.tight && WellFormed(st) && Run(p, st, s).Done? && AnyAtLimit(FirstLine(p, st, s))
    ensures l in FirstLine(p, st, s) && CutAt(p, st, s, k, l)
  {
    hide Run, Find, OverLimit;
    NoLineFeed(p, st, s);
    k, l := Find(s, CRLF) + 1, FirstLine(p, st, s)[0];
    CutLine(s);
    assert FirstLine(p, st, s) == [l];
    assert OverLimit(p, st, s[..k]) by { LimitedOver(p, st, s, l); }
    PartialKept(p, st, s[..k], l);
  }

  lemma LimitedOver(p: Policy, st: BodyState, s: Bytes, l: LimitedLine)
    requires FirstLine(p, st, s) == [l] && |l.text| == l.limit
    ensures OverLimit(p, st, s[..Find(s, CRLF) + 1])
  {
  }

  /** A line cut between its CR and its LF looks like a partial line. */
  lemma CutLine(s: Bytes)
    requires Find(s, CRLF) >= 0 && LF !in s[..Find(s, CRLF)]
    ensures var pos := Find(s, CRLF);
            var a := s[..pos + 1];
            Find(a, CRLF) < 0 && LF !in a && a == s[..pos] + [CR] && s[pos + 1] == LF
  {
    var pos := Find(s, CRLF);
    var a := s[..pos + 1];
    assert s[pos] == s[pos..pos + 2][0] == CR && s[pos + 1] == s[pos..pos + 2][1] == LF;
    assert a == s[..pos] + [s[pos]];
    FindAppend(a, s[pos + 1..], CRLF);
    assert a + s[pos + 1..] == s;
  }

  lemma PartialKept(p: Policy, st: BodyState, a: Bytes, l: LimitedLine)
    requires !p.tight && (st.Size? || st.Trailers?) && Find(a, CRLF) < 0 && LF !in a
    requires a == l.text + [CR] && OverLimit(p, st, a)
    ensures Keeps(p, st, a, l)
  {
  }

  /** A complete line of an accepted body has no bare LF. */
  lemma NoLineFeed(p: Policy, st: BodyState, s: Bytes)
    requires !p.tight && WellFormed(st) && (st.Size? || st.Trailers?) && Run(p, st, s).Done?
    ensures Find(s, CRLF) >= 0 && LF !in s[..Find(s, CRLF)]
  {
    var pos := Find(s, CRLF);
    match st
    case Size => assert Step(p, Size, s).Go?;
      if LF in s[..pos] { SizeLineFeedRejected(s[..pos]); }
    case Trailers(lines) => NoLineFeedInTrailer(p, lines, s);
  }

  lemma NoLineFeedInTrailer(p: Policy, lines: seq<Bytes>, s: Bytes)
    requires !p.tight && WellFormed(Trailers(lines)) && Run(p, Trailers(lines), s).Done?
    ensures Find(s, CRLF) >= 0 && LF !in s[..Find(s, CRLF)]
  {
    var pos := Find(s, CRLF);
    if pos > 0 && LF in s[..pos] {
      SpoiledTrailers(p, lines + [s[..pos]], |lines|, s[pos + 2..]);
    }
  }

  /** An accepted body with a line at its limit can be cut so that the parser does not survive: inside such a line. */
  lemma {:induction false} LimitCut(p: Policy, st: BodyState, s: Bytes) returns (k: nat, l: LimitedLine)
    requires !p.tight && WellFormed(st) && Run(p, st, s).Done? && HasLimitLine(p, st, s)
    ensures l in LimitedLines(p, st, s) && CutAt(p, st, s, k, l)
    decreases |s|, Rank(st)
  {
    hide FirstLine, WellFormed, Step, Run, LimitedLines, AnyAtLimit;
    FirstLineIff(p, st, s);
    Unfolded(p, st, s);
    FailUnfolded(Tighten(p), st, s);
    var first, r := FirstLine(p, st, s), Step(p, st, s);
    EitherLine(first, if r.Go? then LimitedLines(p, r.st, r.rest) else []);
    if AnyAtLimit(first) {
      k, l := FirstLineCut(p, st, s);
    } else {
      k, l := LimitCut(p, r.st, r.rest);
      CutAfterStep(p, st, s, k, l);
      k := |s| - |r.rest| + k;
    }
  }

  lemma CutAfterStep(p: Policy, st: BodyState, s: Bytes, k: nat, l: LimitedLine)
    requires var r := Step(p, st, s); r.Go? && |r.rest| <= |s| && CutAt(p, r.st, r.rest, k, l)
    ensures CutAt(p, st, s, |s| - |Step(p, st, s).rest| + k, l)
  {
    hide Step, Run;
    var Go(o, st1, rest) := Step(p, st, s);
    StepOnConsumed(p, st, s);
    var c := s[..|s| - |rest|];
    assert s[..|c| + k] == c + rest[..k];
    KeepsExtends(p, st, c, o, st1, rest[..k], l);
  }

  lemma KeepsExtends(p: Policy, st: BodyState, c: Bytes, o: seq<Signal>, st1: BodyState, more: Bytes, l: LimitedLine)
    requires Step(p, st, c) == Go(o, st1, []) && Keeps(p, st1, more, l)
    ensures Keeps(p, st, c + more, l)
  {
    StepExtends(p, st, c, more);
  }

  /** A step depends only on what it consumes. */
  lemma StepOnConsumed(p: Policy, st: BodyState, s: Bytes)
    requires Step(p, st, s).Go?
    ensures var Go(o, st1, rest) := Step(p, st, s);
            |rest| <= |s| && s[|s| - |rest|..] == rest && Step(p, st, s[..|s| - |rest|]) == Go(o, st1, [])
  {
    hide Find, ParseSizeLine;
    var Go(o, st1, rest) := Step(p, st, s);
    var c := s[..|s| - |rest|];
    if st.ChunkEof? {
      assert c == s[0..2] == CRLF;
      assert c[0..2] == c;
    } else if st.Chunk? {
      assert c == s[..st.left] && c[..st.left] == c;
    } else {
      var pos := Find(s, CRLF);
      assert s[pos + 2..] == rest && c == s[..pos + 2];
      FindInLine(s);
      assert c[pos + 2..] == [];
    }
  }

  /** A complete line is found in its own text. */
  lemma FindInLine(s: Bytes)
    requires Find(s, CRLF) >= 0
    ensures var pos := Find(s, CRLF); Find(s[..pos + 2], CRLF) == pos && s[..pos + 2][..pos] == s[..pos]
  {
    var pos := Find(s, CRLF);
    var c := s[..pos + 2];
    assert c + s[pos + 2..] == s;
    assert c[pos..pos + 2] == s[pos..pos + 2];
    FindFirst(s, CRLF, 0);
    forall j | 0 <= j < pos ensures !MatchAt(c, CRLF, j) {
      MatchAtAppend(c, s[pos + 2..], CRLF, j);
    }
    FindUnique(c, CRLF, 0, pos);
  }

  lemma StepExtends(p: Policy, st: BodyState, c: Bytes, more: Bytes)
    requires var r := Step(p, st, c); r.Go? && r.rest == []
    ensures Step(p, st, c + more) == Step(p, st, c).(rest := more)
  {
    assert [] + more == more;
    if st.Chunk? {
      assert c == c[..st.left] + c[st.left..];
      assert (c + more)[..st.left] == c && (c + more)[st.left..] == more && c[..st.left] == c;
    } else {
      StepAppend(p, st, c, more);
    }
  }

  /** These pieces give the same signals and the same leftover as the whole body. */
  predicate SameAsWhole(p: Policy, pieces: seq<Bytes>) {
    FeedAll(p, Size, [], pieces) == Run(p, Size, Concat(pieces))
  }

  lemma CutFails(p: Policy, a: Bytes, b: Bytes, l: LimitedLine)
    requires Keeps(p, Size, a, l) && !Run(p, Size, a + b).Fail?
    ensures Concat([a, b]) == a + b && FeedAll(p, Size, [], [a, b]).Fail? && !SameAsWhole(p, [a, b])
  {
    assert [a, b][1..] == [b] && Concat([b]) == b;
    assert [] + a == a;
    var r := Run(p, Size, a);
    assert FeedAll(p, r.st, r.tail, [b]).Fail?;
  }

  lemma TightPieces(p: Policy, pieces: seq<Bytes>)
    requires !p.tight && !Run(Tighten(p), Size, Concat(pieces)).Fail?
    ensures SameAsWhole(p, pieces)
  {
    assert [] + Concat(pieces) == Concat(pieces);
    QuietEmpty(p, Size);
    PiecesAgree(p, Size, [], pieces);
  }

  /** For a body the parser accepts in one piece: every way of cutting it up is the same as the whole exactly when no
      chunk-size or trailer line is as long as its limit. */
  lemma SegmentationIff(p: Policy, s: Bytes)
    requires !p.tight && Run(p, Size, s).Done?
    ensures (forall pieces | Concat(pieces) == s :: SameAsWhole(p, pieces)) <==> !HasLimitLine(p, Size, s)
  {
    hide Run, FeedAll, HasLimitLine, LimitedLines, Find;
    LimitLineIff(p, Size, s);
    if HasLimitLine(p, Size, s) {
      var k, l := LimitCut(p, Size, s);
      assert s[..k] + s[k..] == s;
      CutFails(p, s[..k], s[k..], l);
    } else {
      forall pieces | Concat(pieces) == s ensures SameAsWhole(p, pieces) {
        TightPieces(p, pieces);
      }
    }
  }
}
