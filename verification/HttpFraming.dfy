/** A connection as a one-shot splitter: what a whole octet string means as a pipeline of messages. */
module HttpFraming {
  import opened Bytes
  import opened PayloadDecoding

  /** How the body of a message is delimited (section 6 of RFC 9112). */
  datatype BodyKind = NoBody | LengthBody(length: nat) | ChunkedBody | CloseBody

  /** What the head of a message says. */
  datatype HeadResult = Refused | Message(body: BodyKind, shouldClose: bool)

  /** The limits of a connection and its reading of heads. A tight policy also refuses what only some segmentations
      survive: a bare LF in a head, and anything after a message that closes the connection. */
  datatype HttpPolicy = HttpPolicy(headLimit: int, maxLine: int, maxField: int, maxHeaders: int, tight: bool,
                                   read: seq<Bytes> -> HeadResult)

  datatype HttpState =
    | AtHead(lines: seq<Bytes>, closing: bool)
    | InBody(maxTrailers: int, st: BodyState, closing: bool)

  datatype HttpOutcome =
    | HttpNeed(out: seq<Signal>, st: HttpState, tail: Bytes)
    | HttpFail

  datatype HttpStepResult = HttpStop(r: HttpOutcome) | HttpGo(out: seq<Signal>, st: HttpState, rest: Bytes)

  function HttpPrepend(o: seq<Signal>, r: HttpOutcome): HttpOutcome {
    if r.HttpFail? then r else r.(out := o + r.out)
  }

  lemma HttpPrependTwice(a: seq<Signal>, b: seq<Signal>, r: HttpOutcome)
    ensures HttpPrepend(a, HttpPrepend(b, r)) == HttpPrepend(a + b, r)
    ensures HttpPrepend([], r) == r
  {
    if !r.HttpFail? {
      assert a + (b + r.out) == (a + b) + r.out && [] + r.out == r.out;
    }
  }

  function BodyPolicy(p: HttpPolicy, maxTrailers: int): Policy {
    Policy(p.maxLine, p.maxField, maxTrailers, p.tight)
  }

  /** A length of zero announces no body. */
  predicate HasBody(b: BodyKind) { !b.NoBody? && b != LengthBody(0) }

  function StartOf(b: BodyKind): BodyState {
    match b
    case NoBody => Fixed(0)
    case LengthBody(n) => Fixed(n)
    case ChunkedBody => Size
    case CloseBody => UntilEof
  }

  function AfterHead(p: HttpPolicy, lines: seq<Bytes>, m: HeadResult): HttpState
    requires m.Message?
  {
    if !HasBody(m.body) then AtHead([], m.shouldClose)
    else InBody(p.maxHeaders - |lines|, StartOf(m.body), m.shouldClose)
  }

  /** A head line that ends at `pos`, or a partial one. */
  function StepHead(p: HttpPolicy, lines: seq<Bytes>, closing: bool, s: Bytes, pos: int): HttpStepResult
    requires pos >= 0 ==> pos + 2 <= |s|
  {
    if p.tight && p.headLimit < 0 then HttpStop(HttpFail)
    else if pos < 0 then
      if p.tight && (LF in s || |s| > p.headLimit + 1) then HttpStop(HttpFail)
      else HttpStop(HttpNeed([], AtHead(lines, closing), s))
    else if pos == 0 && lines == [] then HttpGo([], AtHead([], closing), s[2..])
    else if pos > p.headLimit || |lines| + 1 > p.maxHeaders || (p.tight && (closing || LF in s[..pos])) then
      HttpStop(HttpFail)
    else if pos == 0 then
      var head := lines + [[]];
      var m := p.read(head);
      if m.Refused? then HttpStop(HttpFail) else HttpGo([Head(head)], AfterHead(p, head, m), s[2..])
    else HttpGo([], AtHead(lines + [s[..pos]], closing), s[pos + 2..])
  }

  function HttpStep(p: HttpPolicy, st: HttpState, s: Bytes): HttpStepResult {
    match st
    case AtHead(lines, closing) => StepHead(p, lines, closing, s, Find(s, CRLF))
    case InBody(maxTrailers, bst, closing) =>
      match Run(BodyPolicy(p, maxTrailers), bst, s)
      case Need(o, bst1, tail) => HttpStop(HttpNeed(o, InBody(maxTrailers, bst1, closing), tail))
      case Done(o, rest) => HttpGo(o, AtHead([], closing), rest)
      case Fail => HttpStop(HttpFail)
  }

  /** Splits all of `s` at once into heads and bodies, starting at `st`. */
  function RunHttp(p: HttpPolicy, st: HttpState, s: Bytes): HttpOutcome
    decreases |s|, if st.InBody? then 1 else 0
  {
    match HttpStep(p, st, s)
    case HttpStop(r) => r
    case HttpGo(o, st1, rest) => HttpPrepend(o, RunHttp(p, st1, rest))
  }

  function RunHttpWith(p: HttpPolicy, st: HttpState, s: Bytes, b: Bytes): HttpOutcome { RunHttp(p, st, s + b) }

  /** Every line strictly below both limits, no bare LF in a head, nothing after a closing message. */
  function TightenHttp(p: HttpPolicy): HttpPolicy {
    p.(headLimit := Min(p.maxLine, p.maxField) - 1, maxLine := p.maxLine - 1, maxField := p.maxField - 1, tight := true)
  }

  /** The policy of a parser built with these limits. */
  predicate IsLoose(p: HttpPolicy) { !p.tight && p.headLimit == Max(p.maxLine, p.maxField) }

  /** Splitting `s` at `st` emits `o` and goes on at `st1` with `s1`, whatever follows. */
  ghost predicate HttpMoves(p: HttpPolicy, st: HttpState, s: Bytes, o: seq<Signal>, st1: HttpState, s1: Bytes) {
    forall b: Bytes {:trigger RunHttpWith(p, st, s, b)} ::
      (p.tight && RunHttpWith(p, st, s, b).HttpFail?)
      || RunHttpWith(p, st, s, b) == HttpPrepend(o, RunHttpWith(p, st1, s1, b))
  }

  ghost predicate HttpAdvances(p: HttpPolicy, st: HttpState, s: Bytes, o: seq<Signal>, st1: HttpState, s1: Bytes) {
    HttpMoves(p, st, s, o, st1, s1) && HttpMoves(TightenHttp(p), st, s, o, st1, s1)
  }

  /** The tight splitter refuses this input, and every continuation of it. */
  ghost predicate Doomed(p: HttpPolicy, st: HttpState, s: Bytes) {
    forall b: Bytes {:trigger RunHttpWith(TightenHttp(p), st, s, b)} :: RunHttpWith(TightenHttp(p), st, s, b).HttpFail?
  }

  lemma HttpMovesTrans(p: HttpPolicy, st: HttpState, s: Bytes, o: seq<Signal>, st1: HttpState, s1: Bytes,
                       o1: seq<Signal>, st2: HttpState, s2: Bytes)
    requires HttpMoves(p, st, s, o, st1, s1) && HttpMoves(p, st1, s1, o1, st2, s2)
    ensures HttpMoves(p, st, s, o + o1, st2, s2)
  {
    forall b: Bytes
      ensures (p.tight && RunHttpWith(p, st, s, b).HttpFail?)
           || RunHttpWith(p, st, s, b) == HttpPrepend(o + o1, RunHttpWith(p, st2, s2, b))
    {
      HttpPrependTwice(o, o1, RunHttpWith(p, st2, s2, b));
      assert RunHttpWith(p, st1, s1, b) == RunHttpWith(p, st1, s1, b);
    }
  }

  lemma HttpAdvancesTrans(p: HttpPolicy, st: HttpState, s: Bytes, o: seq<Signal>, st1: HttpState, s1: Bytes,
                          o1: seq<Signal>, st2: HttpState, s2: Bytes)
    requires HttpAdvances(p, st, s, o, st1, s1) && HttpAdvances(p, st1, s1, o1, st2, s2)
    ensures HttpAdvances(p, st, s, o + o1, st2, s2)
  {
    HttpMovesTrans(p, st, s, o, st1, s1, o1, st2, s2);
    HttpMovesTrans(TightenHttp(p), st, s, o, st1, s1, o1, st2, s2);
  }

  lemma DoomedTrans(p: HttpPolicy, st: HttpState, s: Bytes, o: seq<Signal>, st1: HttpState, s1: Bytes)
    requires HttpAdvances(p, st, s, o, st1, s1) && Doomed(p, st1, s1)
    ensures Doomed(p, st, s)
  {
    var q := TightenHttp(p);
    forall b: Bytes ensures RunHttpWith(q, st, s, b).HttpFail? {
      assert RunHttpWith(q, st1, s1, b).HttpFail?;
    }
  }

  lemma HttpMovesRefl(p: HttpPolicy, st: HttpState, s: Bytes)
    ensures HttpMoves(p, st, s, [], st, s)
  {
    forall b: Bytes ensures HttpPrepend([], RunHttpWith(p, st, s, b)) == RunHttpWith(p, st, s, b) {
      HttpPrependTwice([], [], RunHttpWith(p, st, s, b));
    }
  }

  lemma HttpAdvancesRefl(p: HttpPolicy, st: HttpState, s: Bytes)
    ensures HttpAdvances(p, st, s, [], st, s)
  {
    HttpMovesRefl(p, st, s);
    HttpMovesRefl(TightenHttp(p), st, s);
  }

  lemma HttpMovesFed(p: HttpPolicy, st: HttpState, s: Bytes, o: seq<Signal>, st1: HttpState, s1: Bytes, data: Bytes)
    requires HttpMoves(p, st, s, o, st1, s1)
    ensures HttpMoves(p, st, s + data, o, st1, s1 + data)
  {
    forall b: Bytes
      ensures (p.tight && RunHttpWith(p, st, s + data, b).HttpFail?)
           || RunHttpWith(p, st, s + data, b) == HttpPrepend(o, RunHttpWith(p, st1, s1 + data, b))
    {
      RunHttpWithFed(p, st, s, data, b);
      RunHttpWithFed(p, st1, s1, data, b);
    }
  }

  lemma RunHttpWithFed(p: HttpPolicy, st: HttpState, s: Bytes, data: Bytes, b: Bytes)
    ensures RunHttpWith(p, st, s + data, b) == RunHttpWith(p, st, s, data + b)
  {
    Assoc(s, data, b);
  }

  /** More input arrives. */
  lemma HttpAdvancesFed(p: HttpPolicy, st: HttpState, s: Bytes, o: seq<Signal>, st1: HttpState, s1: Bytes, data: Bytes)
    requires HttpAdvances(p, st, s, o, st1, s1)
    ensures HttpAdvances(p, st, s + data, o, st1, s1 + data)
  {
    HttpMovesFed(p, st, s, o, st1, s1, data);
    HttpMovesFed(TightenHttp(p), st, s, o, st1, s1, data);
  }

  lemma DoomedFed(p: HttpPolicy, st: HttpState, s: Bytes, data: Bytes)
    requires Doomed(p, st, s)
    ensures Doomed(p, st, s + data)
  {
    var q := TightenHttp(p);
    forall b: Bytes ensures RunHttpWith(q, st, s + data, b).HttpFail? {
      RunHttpWithFed(q, st, s, data, b);
    }
  }

  lemma HttpAdvancesNow(p: HttpPolicy, st: HttpState, s: Bytes, o: seq<Signal>, st1: HttpState, s1: Bytes)
    requires HttpAdvances(p, st, s, o, st1, s1) && !p.tight
    ensures RunHttp(p, st, s) == HttpPrepend(o, RunHttp(p, st1, s1))
    ensures var q := TightenHttp(p);
            RunHttp(q, st, s).HttpFail? || RunHttp(q, st, s) == HttpPrepend(o, RunHttp(q, st1, s1))
  {
    assert s + [] == s && s1 + [] == s1;
    assert RunHttpWith(p, st, s, []) == RunHttp(p, st, s);
    assert RunHttpWith(TightenHttp(p), st, s, []) == RunHttp(TightenHttp(p), st, s);
  }

  lemma DoomedNow(p: HttpPolicy, st: HttpState, s: Bytes)
    requires Doomed(p, st, s)
    ensures RunHttp(TightenHttp(p), st, s).HttpFail?
  {
    assert s + [] == s;
    assert RunHttpWith(TightenHttp(p), st, s, []).HttpFail?;
  }

  /** A complete head line is read the same way whatever follows it. */
  lemma HeadMoves(p: HttpPolicy, st: HttpState, s: Bytes)
    requires st.AtHead? && Find(s, CRLF) >= 0 && HttpStep(p, st, s).HttpGo?
    ensures var HttpGo(o, st1, s1) := HttpStep(p, st, s); HttpMoves(p, st, s, o, st1, s1)
  {
    var HttpGo(o, st1, s1) := HttpStep(p, st, s);
    forall b: Bytes ensures RunHttpWith(p, st, s, b) == HttpPrepend(o, RunHttpWith(p, st1, s1, b)) {
      CompleteLine(s, b);
    }
  }

  lemma HeadFails(p: HttpPolicy, st: HttpState, s: Bytes)
    requires st.AtHead? && p.tight && HttpStep(p, st, s) == HttpStop(HttpFail)
    ensures forall b: Bytes :: RunHttpWith(p, st, s, b).HttpFail?
  {
    forall b: Bytes ensures RunHttpWith(p, st, s, b).HttpFail? {
      if Find(s, CRLF) >= 0 {
        CompleteLine(s, b);
      } else {
        PartialHead(p, st, s, b);
      }
    }
  }

  /** A partial line refused for its length or for a bare LF is refused when it is complete, too. */
  lemma PartialHead(p: HttpPolicy, st: HttpState, s: Bytes, b: Bytes)
    requires st.AtHead? && p.tight && Find(s, CRLF) < 0 && (p.headLimit < 0 || LF in s || |s| > p.headLimit + 1)
    ensures HttpStep(p, st, s + b) == HttpStop(HttpFail)
  {
    PartialLine(s, b);
    var pos := Find(s + b, CRLF);
    assert |s + b| >= |s|;
  }

  lemma HeadAdvances(p: HttpPolicy, st: HttpState, s: Bytes)
    requires IsLoose(p) && st.AtHead? && Find(s, CRLF) >= 0 && HttpStep(p, st, s).HttpGo?
    ensures var HttpGo(o, st1, s1) := HttpStep(p, st, s); HttpAdvances(p, st, s, o, st1, s1)
  {
    HeadMoves(p, st, s);
    TightHttpStep(p, st, s);
    TightHeadMoves(TightenHttp(p), st, s, HttpStep(p, st, s));
  }

  lemma TightHeadMoves(q: HttpPolicy, st: HttpState, s: Bytes, r: HttpStepResult)
    requires q.tight && st.AtHead? && Find(s, CRLF) >= 0 && r.HttpGo?
    requires HttpStep(q, st, s) == r || HttpStep(q, st, s) == HttpStop(HttpFail)
    ensures HttpMoves(q, st, s, r.out, r.st, r.rest)
  {
    if HttpStep(q, st, s) == r {
      HeadMoves(q, st, s);
    } else {
      HeadFails(q, st, s);
    }
  }

  /** A body that is complete: the next message starts with what it left over. */
  lemma BodyAdvances(p: HttpPolicy, m: int, st: BodyState, closing: bool, s: Bytes)
    requires !p.tight && WellFormed(st) && Run(BodyPolicy(p, m), st, s).Done?
    ensures var r := Run(BodyPolicy(p, m), st, s);
            HttpAdvances(p, InBody(m, st, closing), s, r.out, AtHead([], closing), r.rest)
  {
    var r := Run(BodyPolicy(p, m), st, s);
    var q := TightenHttp(p);
    assert Tighten(BodyPolicy(p, m)) == BodyPolicy(q, m);
    TightAgrees(BodyPolicy(p, m), st, s);
    var ist, ast := InBody(m, st, closing), AtHead([], closing);
    forall b: Bytes
      ensures RunHttpWith(p, ist, s, b) == HttpPrepend(r.out, RunHttpWith(p, ast, r.rest, b))
      ensures RunHttpWith(q, ist, s, b).HttpFail? || RunHttpWith(q, ist, s, b) == HttpPrepend(r.out, RunHttpWith(q, ast, r.rest, b))
    {
      RunAppend(BodyPolicy(p, m), st, s, b);
      RunAppend(BodyPolicy(q, m), st, s, b);
    }
  }

  lemma BodyDoomed(p: HttpPolicy, m: int, st: BodyState, closing: bool, s: Bytes)
    requires WellFormed(st) && Run(BodyPolicy(TightenHttp(p), m), st, s).Fail?
    ensures Doomed(p, InBody(m, st, closing), s)
  {
    var q := TightenHttp(p);
    forall b: Bytes ensures RunHttpWith(q, InBody(m, st, closing), s, b).HttpFail? {
      RunAppend(BodyPolicy(q, m), st, s, b);
    }
  }

  /** Where the tight splitter does not fail, the loose one agrees with it. */
  lemma {:induction false} TightHttpAgrees(p: HttpPolicy, st: HttpState, s: Bytes)
    requires IsLoose(p)
    ensures RunHttp(TightenHttp(p), st, s).HttpFail? || RunHttp(p, st, s) == RunHttp(TightenHttp(p), st, s)
    decreases |s|, if st.InBody? then 1 else 0
  {
    TightHttpStep(p, st, s);
    match HttpStep(TightenHttp(p), st, s)
    case HttpStop(_) =>
    case HttpGo(o, st1, rest) => TightHttpAgrees(p, st1, rest);
  }

  /** What the tight splitter refuses, it refuses whatever follows. */
  lemma {:induction false} FailureStays(q: HttpPolicy, st: HttpState, s: Bytes, b: Bytes)
    requires q.tight && (st.InBody? ==> WellFormed(st.st)) && RunHttp(q, st, s).HttpFail?
    ensures RunHttp(q, st, s + b).HttpFail?
    decreases |s|, if st.InBody? then 1 else 0
  {
    if st.InBody? { RunAppend(BodyPolicy(q, st.maxTrailers), st.st, s, b); }
    match HttpStep(q, st, s)
    case HttpStop(_) =>
      if st.AtHead? {
        HeadFails(q, st, s);
        assert RunHttpWith(q, st, s, b).HttpFail?;
      }
    case HttpGo(o, st1, rest) =>
      FailureStays(q, st1, rest, b);
      if st.AtHead? {
        HeadMoves(q, st, s);
        assert RunHttpWith(q, st, s, b) == HttpPrepend(o, RunHttpWith(q, st1, rest, b));
      }
  }

  /** What is announced for a part of the input is the beginning of what is announced for all of it. */
  lemma {:induction false} OutGrows(q: HttpPolicy, st: HttpState, s: Bytes, b: Bytes)
    requires q.tight && (st.InBody? ==> WellFormed(st.st)) && !RunHttp(q, st, s + b).HttpFail?
    ensures !RunHttp(q, st, s).HttpFail? && RunHttp(q, st, s).out <= RunHttp(q, st, s + b).out
    decreases |s|, if st.InBody? then 1 else 0
  {
    hide Run, Find;
    if RunHttp(q, st, s).HttpFail? { FailureStays(q, st, s, b); }
    if st.InBody? { RunAppend(BodyPolicy(q, st.maxTrailers), st.st, s, b); }
    match HttpStep(q, st, s)
    case HttpStop(_) =>
    case HttpGo(o, st1, rest) =>
      if st.AtHead? {
        HeadMoves(q, st, s);
        assert RunHttpWith(q, st, s, b) == HttpPrepend(o, RunHttpWith(q, st1, rest, b));
      }
      OutGrows(q, st1, rest, b);
  }

  lemma TightHttpStep(p: HttpPolicy, st: HttpState, s: Bytes)
    requires IsLoose(p)
    ensures HttpStep(TightenHttp(p), st, s) == HttpStop(HttpFail) || HttpStep(TightenHttp(p), st, s) == HttpStep(p, st, s)
  {
    if st.InBody? {
      TightAgrees(BodyPolicy(p, st.maxTrailers), st.st, s);
      assert Tighten(BodyPolicy(p, st.maxTrailers)) == BodyPolicy(TightenHttp(p), st.maxTrailers);
    }
  }
}
