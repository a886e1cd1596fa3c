/** What the head of a request says about its body and its connection, and the heads that say what a writer means. */
module HttpRequestHead {
  import opened Bytes
  import opened HeadersParser
  import opened PayloadDecoding
  import opened HttpFraming
  import opened HttpWriter
  import opened WireRoundTrip
  import opened ChunkGrammar

  /** The request line: refused, or its version and whether its method never has a body. */
  datatype StartLine = BadStart | Start(major: nat, minor: nat, bodiless: bool)

  const CONTENT_LENGTH: Bytes := Ascii("content-length")
  const TRANSFER_ENCODING: Bytes := Ascii("transfer-encoding")
  const CONNECTION: Bytes := Ascii("connection")
  const HOST: Bytes := Ascii("host")
  const SEC_WEBSOCKET_KEY1: Bytes := Ascii("sec-websocket-key1")
  const CHUNKED: Bytes := Ascii("chunked")
  const CLOSE: Bytes := Ascii("close")
  const KEEP_ALIVE: Bytes := Ascii("keep-alive")
  const COMMA: byte := 44

  /** The values of all headers of this name, which is in lower case. */
  function Values(hs: seq<Header>, name: Bytes): seq<Bytes> {
    if hs == [] then []
    else (if Lower(hs[0].name) == name then [hs[0].value] else []) + Values(hs[1..], name)
  }

  predicate Has(hs: seq<Header>, name: Bytes) { Values(hs, name) != [] }

  // ---- numbers ----

  predicate IsDigit(b: byte) { 48 <= b <= 57 }

  predicate AllDigits(s: Bytes) { s != [] && forall i | 0 <= i < |s| :: IsDigit(s[i]) }

  function DecValue(s: Bytes): nat
    requires forall i | 0 <= i < |s| :: IsDigit(s[i])
  {
    if s == [] then 0
    else
      assert IsDigit(s[|s| - 1]);
      DecValue(s[..|s| - 1]) * 10 + (s[|s| - 1] as int - 48)
  }

  /** A number in decimal. */
  function Dec(n: nat): (s: Bytes)
    ensures AllDigits(s)
  {
    if n < 10 then [48 + n] else Dec(n / 10) + [48 + n % 10]
  }

  lemma {:induction false} DecRoundTrip(n: nat)
    ensures DecValue(Dec(n)) == n
  {
    if n < 10 {
      assert Dec(n)[..0] == [];
    } else {
      DecRoundTrip(n / 10);
      assert Dec(n)[..|Dec(n)| - 1] == Dec(n / 10);
    }
  }

  // ---- the connection ----

  predicate IsAscii(s: Bytes) { forall i | 0 <= i < |s| :: s[i] < 128 }

  function SplitAt(s: Bytes, c: byte): (r: seq<Bytes>)
    decreases |s|
  {
    var i := IndexOf(s, c);
    if i < 0 then [s] else [s[..i]] + SplitAt(s[i + 1..], c)
  }

  /** The options of the connection, over all its headers. */
  function Tokens(values: seq<Bytes>): set<Bytes> {
    set v, t | v in values && t in SplitAt(v, COMMA) && Strip(t) != [] && IsAscii(Strip(t)) :: Lower(Strip(t))
  }

  predicate ShouldClose(hs: seq<Header>, start: StartLine)
    requires start.Start?
  {
    var tokens := Tokens(Values(hs, CONNECTION));
    if CLOSE in tokens then true
    else if KEEP_ALIVE in tokens then false
    else start.major < 1 || (start.major == 1 && start.minor == 0)
  }

  // ---- the body ----

  /** The last coding is `chunked`. */
  predicate IsChunked(te: Bytes) {
    var parts := SplitAt(te, COMMA);
    parts != [] && Lower(Strip(parts[|parts| - 1])) == CHUNKED && IsAscii(Strip(parts[|parts| - 1]))
  }

  function ReadHeaders(start: StartLine, hs: seq<Header>): HeadResult
    requires start.Start?
  {
    var te, cl := Values(hs, TRANSFER_ENCODING), Values(hs, CONTENT_LENGTH);
    if te != [] && (!IsChunked(te[0]) || cl != []) then Refused
    else if start.major == 1 && start.minor == 1 && !Has(hs, HOST) then Refused
    else if cl != [] && !AllDigits(cl[0]) then Refused
    else if Has(hs, SEC_WEBSOCKET_KEY1) then Refused
    else
      var close := ShouldClose(hs, start);
      if start.bodiless then Message(NoBody, close)
      else if te != [] then Message(ChunkedBody, close)
      else if cl != [] && DecValue(cl[0]) > 0 then Message(LengthBody(DecValue(cl[0])), close)
      else Message(NoBody, close)
  }

  /** The strict reading of a request head; `startOf` reads its first line. */
  function ReadRequest(startOf: Bytes -> StartLine, lines: seq<Bytes>): HeadResult {
    if lines == [] || startOf(lines[0]).BadStart? then Refused
    else
      match HeaderList(lines[1..])
      case Rejected(_) => Refused
      case Parsed(hs) => ReadHeaders(startOf(lines[0]), hs)
  }

  /** No request has both a length and chunks, or a body without either. */
  lemma BodyIsFramed(startOf: Bytes -> StartLine, lines: seq<Bytes>)
    ensures var r := ReadRequest(startOf, lines);
            r.Message? && HasBody(r.body) ==>
              var hs := HeaderList(lines[1..]).headers;
              match r.body
              case ChunkedBody => Has(hs, TRANSFER_ENCODING) && !Has(hs, CONTENT_LENGTH)
              case LengthBody(n) => !Has(hs, TRANSFER_ENCODING) && Has(hs, CONTENT_LENGTH) && DecValue(Values(hs, CONTENT_LENGTH)[0]) == n
              case _ => false
  {
  }

  // ---- messages of a writer ----

  /** The headers of the message say what its body is: the length of its pieces in decimal, or that it is chunked. */
  predicate SaysItsBody(startOf: Bytes -> StartLine, m: OutMessage) {
    var start, hs := startOf(m.statusLine), m.headers;
    && start.Start? && !start.bodiless && (start.major == 1 && start.minor == 1 ==> Has(hs, HOST))
    && !Has(hs, SEC_WEBSOCKET_KEY1) && !ShouldClose(hs, start) && NoRepeats(hs)
    && if m.chunked then Values(hs, TRANSFER_ENCODING) == [CHUNKED] && !Has(hs, CONTENT_LENGTH)
       else !Has(hs, TRANSFER_ENCODING) && Values(hs, CONTENT_LENGTH) == [Dec(|Concat(m.chunks)|)]
  }

  ghost predicate Reads(p: HttpPolicy, startOf: Bytes -> StartLine) {
    forall lines :: p.read(lines) == ReadRequest(startOf, lines)
  }

  /** Such a head is understood as it is meant. */
  lemma RequestSendable(p: HttpPolicy, startOf: Bytes -> StartLine, m: OutMessage)
    requires Reads(p, startOf) && FitsIn(p, m) && SaysItsBody(startOf, m)
    ensures IsSendable(p, m)
  {
    hide Values, HeaderList, IsChunked, DecValue, Dec, ShouldClose, FitsIn, RenderLines, NoRepeats, SplitLines;
    HeadersRoundTrip(p, m);
    DecRoundTrip(|Concat(m.chunks)|);
    ChunkedIsChunked();
  }

  lemma ChunkedIsChunked()
    ensures IsChunked(CHUNKED)
  {
    hide Strip, SplitAt, Lower, IsAscii;
    OnePart(CHUNKED, COMMA);
    LowerChunked();
    StripChunked();
  }

  lemma LowerChunked()
    ensures Lower(CHUNKED) == CHUNKED && IsAscii(CHUNKED)
  {
  }

  lemma StripChunked()
    ensures Strip(CHUNKED) == CHUNKED
  {
    hide Strip;
    StripUnique([], CHUNKED, []);
    assert [] + CHUNKED + [] == CHUNKED;
  }

  lemma OnePart(s: Bytes, c: byte)
    requires c !in s
    ensures SplitAt(s, c) == [s]
  {
  }

  // ---- what the headers say, in their own words ----

  ghost predicate Named(hs: seq<Header>, name: string) {
    exists k | 0 <= k < |hs| :: Lower(hs[k].name) == Ascii(name)
  }

  ghost predicate Says(hs: seq<Header>, name: string, v: Bytes) {
    exists k | 0 <= k < |hs| :: Lower(hs[k].name) == Ascii(name) && hs[k].value == v
  }

  /** `t` is one of the parts of a list with separators `c`, between `pre` and `post`. */
  predicate Part(c: byte, pre: Bytes, t: Bytes, post: Bytes) {
    c !in t && (pre == [] || pre[|pre| - 1] == c) && (post == [] || post[0] == c)
  }

  /** The word between blanks, in either case. */
  ghost predicate IsWord(t: Bytes, word: string) {
    exists lead, w, trail :: AllBlank(lead) && AllBlank(trail) && t == lead + w + trail && Lower(w) == Ascii(word)
  }

  /** The word is an element of a comma-separated list. */
  ghost predicate Lists(v: Bytes, word: string) {
    exists pre, t, post :: v == pre + t + post && Part(',' as int, pre, t, post) && IsWord(t, word)
  }

  /** The word is the last element of the list. */
  ghost predicate EndsWithWord(v: Bytes, word: string) {
    exists pre, t :: v == pre + t && Part(',' as int, pre, t, []) && IsWord(t, word)
  }

  ghost predicate Decimal(v: Bytes, n: nat) { exists k: nat :: v == Zeros(k) + Dec(n) }

  ghost predicate Asks(hs: seq<Header>, word: string) {
    exists v :: Says(hs, "connection", v) && Lists(v, word)
  }

  // ---- lists ----

  lemma SplitStep(s: Bytes, c: byte)
    ensures var i := IndexOf(s, c); SplitAt(s, c) == if i < 0 then [s] else [s[..i]] + SplitAt(s[i + 1..], c)
  {
  }

  lemma {:induction false} PartFound(s: Bytes, c: byte, k: nat) returns (pre: Bytes, post: Bytes)
    requires k < |SplitAt(s, c)|
    ensures var t := SplitAt(s, c)[k]; s == pre + t + post && Part(c, pre, t, post)
    ensures k == |SplitAt(s, c)| - 1 ==> post == []
    decreases |s|
  {
    hide SplitAt, IndexOf;
    SplitStep(s, c);
    var i := IndexOf(s, c);
    if i < 0 {
      pre, post := [], [];
    } else if k == 0 {
      pre, post := [], s[i..];
      SplitStep(s[i + 1..], c);
    } else {
      var pre1, post1 := PartFound(s[i + 1..], c, k - 1);
      var t := SplitAt(s[i + 1..], c)[k - 1];
      assert SplitAt(s, c)[k] == t;
      pre, post := s[..i + 1] + pre1, post1;
      assert s == s[..i + 1] + s[i + 1..];
      PartLater(c, s[..i + 1], pre1, t, post1);
    }
  }

  lemma PartLater(c: byte, first: Bytes, pre: Bytes, t: Bytes, post: Bytes)
    requires first != [] && first[|first| - 1] == c && Part(c, pre, t, post)
    ensures first + (pre + t + post) == (first + pre) + t + post && Part(c, first + pre, t, post)
  {
  }

  lemma {:induction false} PartIn(s: Bytes, c: byte, pre: Bytes, t: Bytes, post: Bytes)
    requires s == pre + t + post && Part(c, pre, t, post)
    ensures t in SplitAt(s, c) && (post == [] ==> SplitAt(s, c)[|SplitAt(s, c)| - 1] == t)
    decreases |s|
  {
    hide SplitAt, IndexOf;
    SplitStep(s, c);
    var i := IndexOf(s, c);
    if pre == [] {
      FirstPart(s, c, t, post);
    } else {
      assert s[|pre| - 1] == c;
      BeforeFirst(s, c, |pre| - 1);
      var pre1 := pre[i + 1..];
      PartCut(s, pre, t, post, i + 1);
      PartIn(s[i + 1..], c, pre1, t, post);
      SplitStep(s[i + 1..], c);
    }
  }

  lemma PartCut(s: Bytes, pre: Bytes, t: Bytes, post: Bytes, k: nat)
    requires s == pre + t + post && k <= |pre|
    ensures s[k..] == pre[k..] + t + post
  {
  }

  lemma FirstPart(s: Bytes, c: byte, t: Bytes, post: Bytes)
    requires s == [] + t + post && Part(c, [], t, post)
    ensures t in SplitAt(s, c) && (post == [] ==> SplitAt(s, c)[|SplitAt(s, c)| - 1] == t)
  {
    hide SplitAt, IndexOf;
    SplitStep(s, c);
    if post == [] {
      assert s == t;
    } else {
      assert s == t + [c] + post[1..];
      IndexOfUnique(t, c, post[1..]);
      assert s[..|t|] == t && SplitAt(s, c)[0] == t;
    }
  }

  lemma BeforeFirst(s: Bytes, c: byte, k: nat)
    requires k < |s| && s[k] == c
    ensures 0 <= IndexOf(s, c) <= k
  {
    hide IndexOf;
    var i := IndexOf(s, c);
    assert forall m | k < m <= |s| :: s[..m][k] == c;
  }

  lemma LowerKeeps(w: Bytes, word: Bytes)
    requires Lower(w) == word && IsTrimmed(word) && IsAscii(word)
    ensures IsTrimmed(w) && IsAscii(w) && |w| == |word|
  {
    assert forall i | 0 <= i < |w| :: Lower(w)[i] == LowerByte(w[i]);
  }

  /** A word without blanks at its ends is what is left when blanks are removed. */
  lemma WordIff(t: Bytes, word: string)
    requires IsTrimmed(Ascii(word)) && IsAscii(Ascii(word))
    ensures IsWord(t, word) <==> Lower(Strip(t)) == Ascii(word) && IsAscii(Strip(t))
  {
    hide Strip, AllBlank;
    var lead, trail := StripSplits(t);
    forall l, w, r | AllBlank(l) && AllBlank(r) && t == l + w + r && Lower(w) == Ascii(word)
      ensures Strip(t) == w && IsAscii(w)
    {
      LowerKeeps(w, Ascii(word));
      StripUnique(l, w, r);
    }
  }

  lemma ListsIff(v: Bytes, word: string)
    requires IsTrimmed(Ascii(word)) && IsAscii(Ascii(word))
    ensures Lists(v, word) <==> exists t :: t in SplitAt(v, COMMA) && Lower(Strip(t)) == Ascii(word) && IsAscii(Strip(t))
  {
    hide Strip, SplitAt, IsWord, Lower, IsAscii;
    forall pre, t, post | v == pre + t + post && Part(',' as int, pre, t, post) && IsWord(t, word)
      ensures t in SplitAt(v, COMMA) && Lower(Strip(t)) == Ascii(word) && IsAscii(Strip(t))
    {
      PartIn(v, COMMA, pre, t, post);
      WordIff(t, word);
    }
    forall t | t in SplitAt(v, COMMA) && Lower(Strip(t)) == Ascii(word) && IsAscii(Strip(t)) ensures Lists(v, word) {
      var k :| 0 <= k < |SplitAt(v, COMMA)| && SplitAt(v, COMMA)[k] == t;
      var pre, post := PartFound(v, COMMA, k);
      WordIff(t, word);
    }
  }

  /** The coding is chunked exactly if `chunked` is the last one of the list. */
  lemma ChunkedIff(te: Bytes)
    ensures IsChunked(te) <==> EndsWithWord(te, "chunked")
  {
    hide Strip, IsWord, Lower, SplitAt, Ascii, IsAscii;
    Words();
    var parts := SplitAt(te, COMMA);
    forall pre, t | te == pre + t && Part(',' as int, pre, t, []) && IsWord(t, "chunked") ensures IsChunked(te) {
      assert te == pre + t + [];
      PartIn(te, COMMA, pre, t, []);
      WordIff(t, "chunked");
    }
    if IsChunked(te) {
      var k := |parts| - 1;
      var pre, post := PartFound(te, COMMA, k);
      assert te == pre + parts[k];
      WordIff(parts[k], "chunked");
    }
  }

  lemma Words()
    ensures forall w | w in {"chunked", "close", "keep-alive"} :: IsTrimmed(Ascii(w)) && IsAscii(Ascii(w)) && Ascii(w) != []
  {
  }

  // ---- what is read ----

  lemma {:induction false} ValuesIff(hs: seq<Header>, name: string, v: Bytes)
    ensures v in Values(hs, Ascii(name)) <==> Says(hs, name, v)
  {
    hide Lower, Ascii;
    if hs != [] {
      ValuesIff(hs[1..], name, v);
      SaysCons(hs, name, v);
    }
  }

  lemma SaysCons(hs: seq<Header>, name: string, v: Bytes)
    requires hs != []
    ensures Says(hs, name, v) <==> (Lower(hs[0].name) == Ascii(name) && hs[0].value == v) || Says(hs[1..], name, v)
  {
    hide Lower, Ascii;
    if k :| 0 <= k < |hs[1..]| && Lower(hs[1..][k].name) == Ascii(name) && hs[1..][k].value == v { assert hs[k + 1] == hs[1..][k]; }
    if k :| 0 <= k < |hs| && Lower(hs[k].name) == Ascii(name) && hs[k].value == v { assert k > 0 ==> hs[1..][k - 1] == hs[k]; }
  }

  lemma NamedIff(hs: seq<Header>, name: string)
    ensures Has(hs, Ascii(name)) <==> Named(hs, name)
  {
    hide Values, Lower, Ascii;
    var vs := Values(hs, Ascii(name));
    if vs != [] {
      ValuesIff(hs, name, vs[0]);
      assert vs[0] in vs;
    }
    forall k | 0 <= k < |hs| && Lower(hs[k].name) == Ascii(name) ensures vs != [] {
      ValuesIff(hs, name, hs[k].value);
    }
  }

  /** A name that does not occur twice has one value. */
  lemma {:induction false} OneValue(hs: seq<Header>, name: Bytes)
    requires NoRepeats(hs) && name in SINGLETON_HEADERS
    ensures |Values(hs, name)| <= 1
  {
    hide SINGLETON_HEADERS;
    if hs != [] {
      NoRepeatsTail(hs);
      OneValue(hs[1..], name);
      if Lower(hs[0].name) == name { NoneLater(hs, name); }
    }
  }

  lemma NoRepeatsTail(hs: seq<Header>)
    requires hs != [] && NoRepeats(hs)
    ensures NoRepeats(hs[1..])
  {
    assert forall k | 0 <= k < |hs| - 1 :: hs[1..][k] == hs[k + 1];
  }

  lemma NoneLater(hs: seq<Header>, name: Bytes)
    requires hs != [] && NoRepeats(hs) && name in SINGLETON_HEADERS && Lower(hs[0].name) == name
    ensures Values(hs[1..], name) == []
  {
    assert forall k | 0 <= k < |hs| - 1 :: hs[1..][k] == hs[k + 1];
    NoValues(hs[1..], name);
  }

  lemma {:induction false} NoValues(hs: seq<Header>, name: Bytes)
    requires forall k | 0 <= k < |hs| :: Lower(hs[k].name) != name
    ensures Values(hs, name) == []
  {
    if hs != [] { NoValues(hs[1..], name); }
  }

  lemma AsksIff(hs: seq<Header>, word: string)
    requires word in {"close", "keep-alive"}
    ensures Asks(hs, word) <==> Ascii(word) in Tokens(Values(hs, CONNECTION))
  {
    hide Strip, SplitAt, Lower, Ascii, IsAscii, Values, Lists, Says;
    Words();
    var vs := Values(hs, CONNECTION);
    assert CONNECTION == Ascii("connection");
    forall v ensures v in vs <==> Says(hs, "connection", v) { ValuesIff(hs, "connection", v); }
    forall v ensures Lists(v, word) <==> exists t :: t in SplitAt(v, COMMA) && Lower(Strip(t)) == Ascii(word) && IsAscii(Strip(t)) {
      ListsIff(v, word);
    }
    NotEmpty();
  }

  lemma NotEmpty()
    ensures forall t | Lower(Strip(t)) in {Ascii("close"), Ascii("keep-alive")} :: Strip(t) != []
  {
    assert |Ascii("close")| == 5 && |Ascii("keep-alive")| == 10;
  }

  /** The connection ends with this message exactly if `close` is asked for, or the version is 1.0 or lower and `keep-alive` is
      not. */
  lemma ShouldCloseIff(hs: seq<Header>, start: StartLine)
    requires start.Start?
    ensures ShouldClose(hs, start) <==>
            Asks(hs, "close") || (!Asks(hs, "keep-alive") && !(start.major > 1 || (start.major == 1 && start.minor >= 1)))
  {
    hide Tokens, Ascii, Asks;
    AsksIff(hs, "close");
    AsksIff(hs, "keep-alive");
    assert CLOSE == Ascii("close") && KEEP_ALIVE == Ascii("keep-alive");
  }

  // ---- numbers ----

  lemma {:induction false} ZerosDecimal(k: nat, s: Bytes)
    requires forall i | 0 <= i < |s| :: IsDigit(s[i])
    ensures (forall i | 0 <= i < |Zeros(k) + s| :: IsDigit((Zeros(k) + s)[i])) && DecValue(Zeros(k) + s) == DecValue(s)
    decreases |s|, k
  {
    if s == [] {
      assert Zeros(k) + s == Zeros(k);
      if k > 0 {
        ZerosDecimal(k - 1, []);
        assert Zeros(k - 1) + [] == Zeros(k - 1) && Zeros(k)[..k - 1] == Zeros(k - 1);
      }
    } else {
      var front := s[..|s| - 1];
      ZerosDecimal(k, front);
      var t := Zeros(k) + s;
      assert t[..|t| - 1] == Zeros(k) + front && t[|t| - 1] == s[|s| - 1];
    }
  }

  lemma {:induction false} DigitsOfValue(s: Bytes) returns (k: nat)
    requires AllDigits(s)
    ensures s == Zeros(k) + Dec(DecValue(s))
  {
    var front, b := s[..|s| - 1], s[|s| - 1];
    if front == [] {
      k := 0;
      assert s == [b] && Zeros(0) + Dec(DecValue(s)) == Dec(DecValue(s));
    } else {
      k := DigitsOfValue(front);
      var v := DecValue(front);
      assert s == front + [b] && IsDigit(b);
      NextDigit(v, b - 48);
      if v == 0 {
        assert Zeros(k + 1) == Zeros(k) + [ZERO] && Dec(0) == [ZERO];
        k := k + 1;
      } else {
        assert Zeros(k) + (Dec(v) + [b]) == Zeros(k) + Dec(v) + [b];
      }
    }
  }

  lemma NextDigit(v: nat, d: nat)
    requires d < 10
    ensures Dec(v * 10 + d) == if v == 0 then [48 + d] else Dec(v) + [48 + d]
  {
    assert (v * 10 + d) / 10 == v && (v * 10 + d) % 10 == d;
  }

  /** A length is read as the number that its decimal digits denote, and nothing else is read. */
  lemma DecimalIff(s: Bytes, n: nat)
    ensures Decimal(s, n) <==> AllDigits(s) && DecValue(s) == n
  {
    if Decimal(s, n) {
      var k: nat :| s == Zeros(k) + Dec(n);
      DecRoundTrip(n);
      ZerosDecimal(k, Dec(n));
    }
    if AllDigits(s) { var k := DigitsOfValue(s); }
  }

  // ---- requests ----

  /** A request is refused exactly if its coding is not chunked or comes with a length, if it is of version 1.1 and names no
      host, if its length is not a number, or if it is of an old web socket. */
  lemma RefusedIff(start: StartLine, hs: seq<Header>)
    requires start.Start? && NoRepeats(hs)
    ensures ReadHeaders(start, hs).Refused? <==>
            || (exists v :: Says(hs, "transfer-encoding", v) && !EndsWithWord(v, "chunked"))
            || (Named(hs, "transfer-encoding") && Named(hs, "content-length"))
            || (start.major == 1 && start.minor == 1 && !Named(hs, "host"))
            || (exists v :: Says(hs, "content-length", v) && forall n :: !Decimal(v, n))
            || Named(hs, "sec-websocket-key1")
  {
    hide Values, Says, Named, EndsWithWord, Decimal, ShouldClose, DecValue, IsChunked, NoRepeats;
    Readings(hs);
    var te, cl := Values(hs, TRANSFER_ENCODING), Values(hs, CONTENT_LENGTH);
    assert (te != [] ==> te[0] in te) && (cl != [] ==> cl[0] in cl);
    assert cl != [] && AllDigits(cl[0]) ==> Decimal(cl[0], DecValue(cl[0]));
  }

  /** The body of a request that is not refused. */
  lemma BodyIff(start: StartLine, hs: seq<Header>, n: nat)
    requires start.Start? && NoRepeats(hs) && ReadHeaders(start, hs).Message?
    ensures var body := ReadHeaders(start, hs).body;
            && (body == ChunkedBody <==> !start.bodiless && Named(hs, "transfer-encoding"))
            && (body == LengthBody(n) <==> !start.bodiless && n > 0 && exists v :: Says(hs, "content-length", v) && Decimal(v, n))
            && !body.CloseBody?
    ensures ReadHeaders(start, hs).shouldClose == ShouldClose(hs, start)
  {
    hide Values, Says, Named, EndsWithWord, Decimal, ShouldClose, DecValue, IsChunked, NoRepeats;
    Readings(hs);
    var te, cl := Values(hs, TRANSFER_ENCODING), Values(hs, CONTENT_LENGTH);
    assert (te != [] ==> te[0] in te) && (cl != [] ==> cl[0] in cl);
  }

  /** What the fields are to the reader. */
  lemma Readings(hs: seq<Header>)
    requires NoRepeats(hs)
    ensures var te, cl := Values(hs, TRANSFER_ENCODING), Values(hs, CONTENT_LENGTH);
            && |te| <= 1 && |cl| <= 1
            && (forall v :: Says(hs, "transfer-encoding", v) <==> v in te) && (forall v :: Says(hs, "content-length", v) <==> v in cl)
            && (Named(hs, "transfer-encoding") <==> te != []) && (Named(hs, "content-length") <==> cl != [])
    ensures (Named(hs, "host") <==> Has(hs, HOST)) && (Named(hs, "sec-websocket-key1") <==> Has(hs, SEC_WEBSOCKET_KEY1))
    ensures forall v :: IsChunked(v) <==> EndsWithWord(v, "chunked")
    ensures forall v, n :: Decimal(v, n) <==> AllDigits(v) && DecValue(v) == n
  {
    hide Values, Says, Named, EndsWithWord, Decimal, DecValue, IsChunked, NoRepeats;
    OneValue(hs, TRANSFER_ENCODING);
    OneValue(hs, CONTENT_LENGTH);
    forall v ensures Says(hs, "transfer-encoding", v) <==> v in Values(hs, TRANSFER_ENCODING) { ValuesIff(hs, "transfer-encoding", v); }
    forall v ensures Says(hs, "content-length", v) <==> v in Values(hs, CONTENT_LENGTH) { ValuesIff(hs, "content-length", v); }
    NamedIff(hs, "transfer-encoding");
    NamedIff(hs, "content-length");
    NamedIff(hs, "host");
    NamedIff(hs, "sec-websocket-key1");
    forall v ensures IsChunked(v) <==> EndsWithWord(v, "chunked") { ChunkedIff(v); }
    forall v, n ensures Decimal(v, n) <==> AllDigits(v) && DecValue(v) == n { DecimalIff(v, n); }
  }
}
