/** What follows a head: which octets are the body of the message, and where the next message begins (section 6.3 of RFC 9112),
    written down without the states of the splitter. */
module MessageGrammar {
  import opened Bytes
  import opened PayloadDecoding
  import opened HttpFraming
  import opened WireRoundTrip
  import opened ChunkGrammar

  /** Limits under which a head of these lines, and the empty one, is complete. */
  predicate HeadFits(p: HttpPolicy, lines: seq<Bytes>) {
    lines != [] && |lines| + 1 <= p.maxHeaders && 0 <= p.headLimit
  }

  /** The rest of the input from the next head on, which is split in the same way. */
  function Onward(p: HttpPolicy, out: seq<Signal>, close: bool, rest: Bytes): HttpOutcome {
    HttpPrepend(out, RunHttp(p, AtHead([], close), rest))
  }

  /** A head whose message has no body: the next one begins right after it. */
  lemma BodilessMeans(p: HttpPolicy, lines: seq<Bytes>, close: bool, s: Bytes)
    requires HeadFits(p, lines)
    requires p.read(lines + [[]]) in {Message(NoBody, close), Message(LengthBody(0), close)}
    ensures RunHttp(p, AtHead(lines, false), CRLF + s) == Onward(p, [Head(lines + [[]])], close, s)
  {
    HeadEndStep(p, lines, s);
  }

  /** A head that announces a length: so many octets are the body, and the next head begins after them. */
  lemma LengthMeans(p: HttpPolicy, lines: seq<Bytes>, n: nat, close: bool, s: Bytes)
    requires HeadFits(p, lines) && n > 0 && p.read(lines + [[]]) == Message(LengthBody(n), close)
    ensures var r, head := RunHttp(p, AtHead(lines, false), CRLF + s), [Head(lines + [[]])];
            if |s| < n then r.HttpNeed? && r.out == head + Octets(s) && r.tail == []
            else r == Onward(p, head + (Octets(s[..n]) + [Eof]), close, s[n..])
  {
    HeadEndStep(p, lines, s);
    if |s| >= n {
      HttpPrependTwice([Head(lines + [[]])], Octets(s[..n]) + [Eof], RunHttp(p, AtHead([], close), s[n..]));
    }
  }

  /** A head that announces chunks: the body is a chunked body, and the next head begins after it. */
  lemma ChunkedMeans(p: HttpPolicy, lines: seq<Bytes>, b: BodyText, close: bool, rest: Bytes)
    requires HeadFits(p, lines) && p.read(lines + [[]]) == Message(ChunkedBody, close)
    requires IsBodyText(BodyPolicy(p, p.maxHeaders - |lines| - 1), b)
    ensures RunHttp(p, AtHead(lines, false), CRLF + (BodyWritten(b) + rest))
         == Onward(p, [Head(lines + [[]])] + BodySaid(b), close, rest)
  {
    hide Run, IsBodyText, BodyWritten, BodySaid;
    HeadEndStep(p, lines, BodyWritten(b) + rest);
    BodyTextDecodes(BodyPolicy(p, p.maxHeaders - |lines| - 1), b, rest);
    HttpPrependTwice([Head(lines + [[]])], BodySaid(b), RunHttp(p, AtHead([], close), rest));
  }

  /** A head that announces neither, with a body: all that follows is the body. */
  lemma ClosedMeans(p: HttpPolicy, lines: seq<Bytes>, close: bool, s: Bytes)
    requires HeadFits(p, lines) && p.read(lines + [[]]) == Message(CloseBody, close)
    ensures RunHttp(p, AtHead(lines, false), CRLF + s)
         == HttpNeed([Head(lines + [[]])] + Octets(s), InBody(p.maxHeaders - |lines| - 1, UntilEof, close), [])
  {
    HeadEndStep(p, lines, s);
  }

  /** Lines that fit are taken one by one. */
  lemma {:induction false} LinesMean(p: HttpPolicy, done: seq<Bytes>, ls: seq<Bytes>, s: Bytes)
    requires 0 <= p.headLimit && |done| + |ls| <= p.maxHeaders
    requires forall k | 0 <= k < |ls| :: ls[k] != [] && LF !in ls[k] && |ls[k]| <= p.headLimit
    ensures RunHttp(p, AtHead(done, false), LinesText(ls) + s) == RunHttp(p, AtHead(done + ls, false), s)
    decreases |ls|
  {
    hide RunHttp;
    if ls == [] {
      assert done + ls == done && LinesText(ls) + s == s;
    } else {
      var t := LinesText(ls[1..]) + s;
      assert LinesText(ls) + s == ls[0] + CRLF + t;
      LineMeans(p, done, ls[0], t);
      assert done + [ls[0]] + ls[1..] == done + ls;
      LinesMean(p, done + [ls[0]], ls[1..], s);
    }
  }

  /** A head that is refused, or has too many lines, ends the connection. */
  lemma RefusedMeans(p: HttpPolicy, lines: seq<Bytes>, s: Bytes)
    requires lines != [] && 0 <= p.headLimit && (p.read(lines + [[]]).Refused? || |lines| + 1 > p.maxHeaders)
    ensures RunHttp(p, AtHead(lines, false), CRLF + s).HttpFail?
  {
    LineEnd([], s);
    assert [] + CRLF + s == CRLF + s;
  }

  /** Empty lines before a head are skipped. */
  lemma EmptyLineMeans(p: HttpPolicy, close: bool, s: Bytes)
    requires 0 <= p.headLimit
    ensures RunHttp(p, AtHead([], close), CRLF + s) == RunHttp(p, AtHead([], close), s)
  {
    LineEnd([], s);
    assert [] + CRLF + s == CRLF + s && (CRLF + s)[2..] == s;
    HttpPrependTwice([], [], RunHttp(p, AtHead([], close), s));
  }

  /** A line of a head is taken if it fits, and refused if it does not or if there are too many. */
  lemma LineMeans(p: HttpPolicy, lines: seq<Bytes>, l: Bytes, s: Bytes)
    requires l != [] && LF !in l && 0 <= p.headLimit
    ensures RunHttp(p, AtHead(lines, false), l + CRLF + s)
         == if |l| <= p.headLimit && |lines| + 1 <= p.maxHeaders then RunHttp(p, AtHead(lines + [l], false), s) else HttpFail
  {
    LineEnd(l, s);
    HttpPrependTwice([], [], RunHttp(p, AtHead(lines + [l], false), s));
  }

  /** Part of a line waits for the rest of it. */
  lemma PartialMeans(p: HttpPolicy, lines: seq<Bytes>, close: bool, s: Bytes)
    requires LF !in s && |s| <= p.headLimit
    ensures RunHttp(p, AtHead(lines, close), s) == HttpNeed([], AtHead(lines, close), s)
  {
    BreakHasLf(s);
  }

  lemma BreakHasLf(s: Bytes)
    ensures Find(s, CRLF) >= 0 ==> LF in s
  {
    if Find(s, CRLF) >= 0 {
      var pos := Find(s, CRLF);
      assert s[pos + 1] == s[pos..pos + 2][1];
    }
  }
}
