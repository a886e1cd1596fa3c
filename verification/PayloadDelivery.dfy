/** A body that arrives in pieces, with a consumer that asks for pauses as it likes and is resumed after each. */
module PayloadDelivery {
  import opened Bytes
  import opened PayloadDecoding
  import opened PayloadSegmentation
  import opened HttpPayloadParser
  import opened ChunkGrammar

  /** Feeds the pieces until the body is over, each with all its resumes. */
  method FeedPieces(parser: HttpPayloadParser, pieces: seq<Bytes>) returns (r: FeedResult)
    requires parser.Valid() && !parser.eofPending
    modifies parser, parser.payload
    ensures r.Complete? || r.NeedsInput? || r.Raised?
    ensures parser.payload.log == parser.base + parser.emitted
    ensures var all := FeedAll(parser.p, old(parser.State()), old(parser.chunkTail), pieces);
            match r
            case Complete(rest) => all.Done? && rest == all.rest && parser.emitted == old(parser.emitted) + all.out
            case NeedsInput =>
              all.Need? && all == Need(all.out, parser.State(), parser.chunkTail) && parser.emitted == old(parser.emitted) + all.out
            case Raised(_) => all.Fail?
            case Pending => true
  {
    hide FeedOnce, Run, Advances, Quiet, HttpPayloadParser.Serves, FeedAll, HttpPayloadParser.Valid;
    ghost var e0, all := parser.emitted, FeedAll(parser.p, parser.State(), parser.chunkTail, pieces);
    ghost var out: seq<Signal> := [];
    PrependTwice([], [], all);
    parser.LogIsAccounted();
    assert pieces[0..] == pieces;
    r := NeedsInput;
    for i := 0 to |pieces|
      invariant parser.Valid() && !parser.eofPending && parser.payload.log == parser.base + parser.emitted
      invariant r.NeedsInput? && parser.emitted == e0 + out
      invariant all == Prepend(out, FeedAll(parser.p, parser.State(), parser.chunkTail, pieces[i..]))
    {
      ghost var before := parser.emitted;
      FeedAllFrom(parser.p, parser.State(), parser.chunkTail, pieces, i);
      r := parser.FeedFully(pieces[i]);
      ghost var o := Since(parser.emitted, before);
      assert (e0 + out) + o == e0 + (out + o);
      if r.Complete? {
        r := Complete(r.rest + Concat(pieces[i + 1..]));
        return;
      }
      if r.Raised? { return; }
      PrependTwice(out, o, FeedAll(parser.p, parser.State(), parser.chunkTail, pieces[i + 1..]));
      out := out + o;
    }
    FeedNothing(parser.p, parser.State(), parser.chunkTail, pieces[|pieces|..], out);
  }

  function Since(now: seq<Signal>, before: seq<Signal>): seq<Signal> {
    if before <= now then now[|before|..] else []
  }

  lemma FeedNothing(p: Policy, st: BodyState, tail: Bytes, pieces: seq<Bytes>, out: seq<Signal>)
    requires pieces == []
    ensures Prepend(out, FeedAll(p, st, tail, pieces)) == Need(out, st, tail)
  {
    assert out + [] == out;
  }

  /** A whole chunked body. Unless a size or trailer line is as long as its limit, all ways to cut it up, and all patterns of
      pauses, give the consumer the same and leave the same over. */
  method DeliverBody(p: Policy, payload: Consumer, pieces: seq<Bytes>) returns (r: FeedResult)
    requires !p.tight && Run(p, Size, Concat(pieces)).Done? && !HasLimitLine(p, Size, Concat(pieces))
    modifies payload
    ensures var whole := Run(p, Size, Concat(pieces));
            r == Complete(whole.rest) && payload.log == old(payload.log) + whole.out
  {
    SegmentationIff(p, Concat(pieces));
    assert SameAsWhole(p, pieces);
    r := DeliverAll(p, payload, pieces);
  }

  method DeliverAll(p: Policy, payload: Consumer, pieces: seq<Bytes>) returns (r: FeedResult)
    requires !p.tight && FeedAll(p, Size, [], pieces).Done?
    modifies payload
    ensures var all := FeedAll(p, Size, [], pieces);
            r == Complete(all.rest) && payload.log == old(payload.log) + all.out
  {
    hide FeedAll, Advances, Quiet;
    var parser := new HttpPayloadParser(p, ParseChunked, 0, payload);
    r := FeedPieces(parser, pieces);
  }

  /** Where all lines of a body are shorter than the limits, none is at its limit. */
  lemma NoLimitLine(p: Policy, b: BodyText, rest: Bytes)
    requires !p.tight && IsBodyText(p.(maxLine := p.maxLine - 1, maxField := p.maxField - 1), b)
    ensures Run(p, Size, BodyWritten(b) + rest) == Done(BodySaid(b), rest)
    ensures !HasLimitLine(p, Size, BodyWritten(b) + rest)
  {
    hide Denotes, IsTrailerSection, BodyWritten, BodySaid, Run, HasLimitLine;
    StrictlyFits(p, b);
    BodyTextDecodes(Tighten(p), b, rest);
    TightAgrees(p, Size, BodyWritten(b) + rest);
    LimitLineIff(p, Size, BodyWritten(b) + rest);
  }

  /** Whether a body fits the limits has nothing to do with how strict the decoder is otherwise. */
  lemma StrictlyFits(p: Policy, b: BodyText)
    requires IsBodyText(p.(maxLine := p.maxLine - 1, maxField := p.maxField - 1), b)
    ensures IsBodyText(Tighten(p), b)
  {
    hide Denotes;
    var q, r := p.(maxLine := p.maxLine - 1, maxField := p.maxField - 1), Tighten(p);
    assert q.maxLine == r.maxLine && q.maxField == r.maxField && q.maxTrailers == r.maxTrailers;
    assert forall k | 0 <= k < |b.chunks| :: IsChunkText(q, b.chunks[k]) && IsChunkText(r, b.chunks[k]);
  }

  /** A chunked body, its sizes in either case and with or without leading zeros, extensions and trailers, arrives in pieces
      together with what follows it: the consumer is told exactly its data, and exactly what follows is left over. */
  method DeliverText(p: Policy, payload: Consumer, ghost b: BodyText, ghost rest: Bytes, pieces: seq<Bytes>)
    returns (r: FeedResult)
    requires !p.tight && IsBodyText(p.(maxLine := p.maxLine - 1, maxField := p.maxField - 1), b)
    requires Concat(pieces) == BodyWritten(b) + rest
    modifies payload
    ensures r == Complete(rest) && payload.log == old(payload.log) + BodySaid(b)
  {
    hide IsBodyText, BodyWritten, BodySaid, Run, HasLimitLine;
    NoLimitLine(p, b, rest);
    r := DeliverBody(p, payload, pieces);
  }
}
