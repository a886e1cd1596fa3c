/** Strict header-block parsing, and the serializer that it undoes. */
module HeadersParser {
  import opened Bytes

  datatype Header = Header(name: Bytes, value: Bytes)

  datatype HeaderError = InvalidHeader | BadHttpMessage

  datatype HeadersResult = Parsed(headers: seq<Header>) | Rejected(error: HeaderError)

  function Ascii(s: string): Bytes {
    seq(|s|, i requires 0 <= i < |s| => (s[i] as int) % 256)
  }

  /** Field names that may occur only once (in lower case). */
  const SINGLETON_HEADERS: set<Bytes> := {
    Ascii("content-length"), Ascii("content-location"), Ascii("content-range"), Ascii("content-type"),
    Ascii("etag"), Ascii("host"), Ascii("max-forwards"), Ascii("server"),
    Ascii("transfer-encoding"), Ascii("user-agent")
  }

  function LowerByte(b: byte): byte {
    if 65 <= b <= 90 then b + 32 else b
  }

  function Lower(s: Bytes): Bytes {
    seq(|s|, i requires 0 <= i < |s| => LowerByte(s[i]))
  }

  predicate IsAlnum(b: byte) {
    48 <= b <= 57 || 65 <= b <= 90 || 97 <= b <= 122
  }

  /** Section 5.6.2 of RFC 9110: the bytes of a token. */
  predicate IsTchar(b: byte) {
    IsAlnum(b) || b in {33, 35, 36, 37, 38, 39, 42, 43, 45, 46, 94, 95, 96, 124, 126}
  }

  predicate IsToken(s: Bytes) {
    s != [] && forall i | 0 <= i < |s| :: IsTchar(s[i])
  }

  predicate IsBlank(b: byte) { b == SP || b == HT }

  predicate AllBlank(s: Bytes) { forall i | 0 <= i < |s| :: IsBlank(s[i]) }

  /** The control characters that no field value may contain. */
  predicate IsForbidden(b: byte) { b <= 8 || 10 <= b <= 31 || b == 127 }

  predicate IsClean(s: Bytes) { forall i | 0 <= i < |s| :: !IsForbidden(s[i]) }

  predicate IsTrimmed(s: Bytes) {
    s != [] ==> !IsBlank(s[0]) && !IsBlank(s[|s| - 1])
  }

  function LStrip(s: Bytes): Bytes {
    if s != [] && IsBlank(s[0]) then LStrip(s[1..]) else s
  }

  function RStrip(s: Bytes): Bytes {
    if s != [] && IsBlank(s[|s| - 1]) then RStrip(s[..|s| - 1]) else s
  }

  function Strip(s: Bytes): Bytes { RStrip(LStrip(s)) }

  lemma {:induction false} LStripSplits(s: Bytes) returns (lead: Bytes)
    ensures s == lead + LStrip(s) && AllBlank(lead)
    ensures LStrip(s) != [] ==> !IsBlank(LStrip(s)[0])
  {
    if s != [] && IsBlank(s[0]) {
      lead := LStripSplits(s[1..]);
      lead := [s[0]] + lead;
    } else {
      lead := [];
    }
  }

  lemma {:induction false} RStripSplits(s: Bytes) returns (trail: Bytes)
    ensures s == RStrip(s) + trail && AllBlank(trail)
    ensures RStrip(s) != [] ==> !IsBlank(RStrip(s)[|RStrip(s)| - 1])
  {
    if s != [] && IsBlank(s[|s| - 1]) {
      trail := RStripSplits(s[..|s| - 1]);
      trail := trail + [s[|s| - 1]];
    } else {
      trail := [];
    }
  }

  /** Stripping splits off blanks on both sides and leaves a trimmed text. */
  lemma StripSplits(s: Bytes) returns (lead: Bytes, trail: Bytes)
    ensures s == lead + Strip(s) + trail
    ensures AllBlank(lead) && AllBlank(trail) && IsTrimmed(Strip(s))
  {
    lead := LStripSplits(s);
    trail := RStripSplits(LStrip(s));
    assert Strip(s) != [] ==> Strip(s)[0] == LStrip(s)[0];
  }

  /** That split is the only one: blanks around a trimmed text are exactly what is removed. */
  lemma StripUnique(lead: Bytes, v: Bytes, trail: Bytes)
    requires AllBlank(lead) && AllBlank(trail) && IsTrimmed(v)
    ensures Strip(lead + v + trail) == v
  {
    assert lead + v + trail == lead + (v + trail);
    LStripLead(lead, v + trail);
    if v == [] {
      assert v + trail == trail == trail + [];
      LStripLead(trail, []);
    } else {
      assert (v + trail)[0] == v[0];
      RStripTrail(v, trail);
    }
  }

  lemma {:induction false} LStripLead(lead: Bytes, t: Bytes)
    requires AllBlank(lead)
    ensures LStrip(lead + t) == LStrip(t)
  {
    if lead == [] {
      assert lead + t == t;
    } else {
      LStripLead(lead[1..], t);
      assert (lead + t)[1..] == lead[1..] + t;
    }
  }

  lemma {:induction false} RStripTrail(v: Bytes, trail: Bytes)
    requires AllBlank(trail) && v != [] && !IsBlank(v[|v| - 1])
    ensures RStrip(v + trail) == v
  {
    if trail == [] {
      assert v + trail == v;
    } else {
      RStripTrail(v, trail[..|trail| - 1]);
      assert (v + trail)[..|v + trail| - 1] == v + trail[..|trail| - 1];
    }
  }

  /** A header that the strict parser can produce. */
  predicate IsGoodHeader(h: Header) {
    IsToken(h.name) && IsTrimmed(h.value) && IsClean(h.value)
  }

  /** One header line, without its line break. */
  function ParseLine(line: Bytes): Option<Header> {
    var i := IndexOf(line, COLON);
    if i < 0 then None
    else
      var name, value := line[..i], Strip(line[i + 1..]);
      if name == [] || IsBlank(name[0]) || IsBlank(name[|name| - 1]) || !IsToken(name) || !IsClean(value) then None
      else Some(Header(name, value))
  }

  /** A line yields a header exactly when it is that header's name, a colon, and its value between blanks. */
  lemma ParseLineIff(line: Bytes, h: Header)
    ensures ParseLine(line) == Some(h) <==>
            IsGoodHeader(h) && exists lead, trail ::
              AllBlank(lead) && AllBlank(trail) && line == h.name + [COLON] + (lead + h.value + trail)
  {
    hide IsGoodHeader, AllBlank, ParseLine;
    if ParseLine(line) == Some(h) {
      var lead, trail := ParsedSplits(line, h);
    }
    if IsGoodHeader(h) {
      forall lead, trail | AllBlank(lead) && AllBlank(trail)
        && line == h.name + [COLON] + (lead + h.value + trail)
        ensures ParseLine(line) == Some(h)
      {
        SplitParses(line, h, lead, trail);
      }
    }
  }

  lemma ParsedSplits(line: Bytes, h: Header) returns (lead: Bytes, trail: Bytes)
    requires ParseLine(line) == Some(h)
    ensures IsGoodHeader(h) && AllBlank(lead) && AllBlank(trail) && line == h.name + [COLON] + (lead + h.value + trail)
  {
    hide Strip, AllBlank, IsClean;
    var i := IndexOf(line, COLON);
    lead, trail := StripSplits(line[i + 1..]);
    assert line == line[..i] + [COLON] + line[i + 1..];
  }

  lemma SplitParses(line: Bytes, h: Header, lead: Bytes, trail: Bytes)
    requires IsGoodHeader(h) && AllBlank(lead) && AllBlank(trail) && line == h.name + [COLON] + (lead + h.value + trail)
    ensures ParseLine(line) == Some(h)
  {
    hide Strip, AllBlank, IsClean;
    IndexOfUnique(h.name, COLON, lead + h.value + trail);
    StripUnique(lead, h.value, trail);
    assert line[..|h.name|] == h.name;
    assert line[|h.name| + 1..] == lead + h.value + trail;
  }

  /** A bare LF in a header line is never accepted. */
  lemma LineFeedRejected(line: Bytes)
    requires LF in line
    ensures ParseLine(line).None?
  {
    hide ParseLine, IsToken, IsClean, AllBlank;
    if ParseLine(line).Some? {
      var h := ParseLine(line).value;
      var lead, trail := ParsedSplits(line, h);
      assert LF in h.name || LF in lead || LF in h.value || LF in trail;
      NoLf(h.name);
      NoLf(lead);
      NoLf(h.value);
      NoLf(trail);
    }
  }

  lemma NoLf(s: Bytes)
    ensures IsToken(s) || AllBlank(s) || IsClean(s) ==> LF !in s
  {
  }

  /** The name is already present (names compare case-insensitively) and may not be repeated. */
  predicate IsDuplicate(name: Bytes, seen: seq<Header>) {
    Lower(name) in SINGLETON_HEADERS && exists k | 0 <= k < |seen| :: Lower(seen[k].name) == Lower(name)
  }

  /** The headers of `lines` up to the empty line that ends them, after those already seen. */
  function HeaderList(lines: seq<Bytes>, seen: seq<Header> := []): HeadersResult {
    if lines == [] then Rejected(InvalidHeader)
    else if lines[0] == [] then Parsed(seen)
    else
      match ParseLine(lines[0])
      case None => Rejected(InvalidHeader)
      case Some(h) =>
        if IsDuplicate(h.name, seen) then Rejected(BadHttpMessage)
        else HeaderList(lines[1..], seen + [h])
  }

  /** The index loop over the lines of a head or of a trailer section; the last line is empty. */
  method ParseHeaders(lines: seq<Bytes>) returns (r: HeadersResult)
    requires lines != [] && lines[|lines| - 1] == []
    ensures r == HeaderList(lines)
  {
    var headers: seq<Header> := [];
    var idx := 0;
    var line := lines[idx];
    while line != []
      invariant 0 <= idx < |lines| && line == lines[idx]
      invariant HeaderList(lines) == HeaderList(lines[idx..], headers)
      decreases |lines| - idx
    {
      var colon := IndexOf(line, COLON);
      if colon < 0 { return Rejected(InvalidHeader); }
      var name := line[..colon];
      if |name| == 0 { return Rejected(InvalidHeader); }
      if IsBlank(name[0]) || IsBlank(name[|name| - 1]) { return Rejected(InvalidHeader); }
      var value := line[colon + 1..];
      if !IsToken(name) { return Rejected(InvalidHeader); }
      value := Strip(value);
      if !IsClean(value) { return Rejected(InvalidHeader); }
      if IsDuplicate(name, headers) { return Rejected(BadHttpMessage); }
      headers := headers + [Header(name, value)];
      idx := idx + 1;
      line := lines[idx];
    }
    return Parsed(headers);
  }

  /** A line with a bare LF spoils the block it is in. */
  lemma {:induction false} LineFeedSpoils(lines: seq<Bytes>, seen: seq<Header>, k: nat)
    requires k < |lines| && LF in lines[k]
    requires forall j | 0 <= j <= k :: lines[j] != []
    ensures HeaderList(lines, seen).Rejected?
  {
    if k == 0 {
      LineFeedRejected(lines[0]);
    } else {
      match ParseLine(lines[0])
      case None =>
      case Some(h) => LineFeedSpoils(lines[1..], seen + [h], k - 1);
    }
  }

  // ---- serialization ----

  /** A header line as the writer puts it on the wire. */
  function RenderLine(h: Header): Bytes { h.name + [COLON, SP] + h.value }

  function RenderLines(hs: seq<Header>): (ls: seq<Bytes>)
    ensures |ls| == |hs|
  {
    seq(|hs|, i requires 0 <= i < |hs| => RenderLine(hs[i]))
  }

  function Join(lines: seq<Bytes>): Bytes {
    if lines == [] then [] else if |lines| == 1 then lines[0] else lines[0] + CRLF + Join(lines[1..])
  }

  /** The serialized head, or None where the writer refuses a control character. */
  function SerializeHeaders(statusLine: Bytes, hs: seq<Header>): Option<Bytes> {
    if !IsClean(statusLine) || exists k | 0 <= k < |hs| :: !IsClean(hs[k].name) || !IsClean(hs[k].value) then None
    else Some(statusLine + CRLF + Join(RenderLines(hs)) + CRLF + CRLF)
  }

  /** The serializer refuses exactly what has a control character somewhere. */
  lemma SerializesIff(statusLine: Bytes, hs: seq<Header>)
    ensures SerializeHeaders(statusLine, hs).None? <==>
            || (exists b :: b in statusLine && IsForbidden(b))
            || (exists h, b :: h in hs && (b in h.name || b in h.value) && IsForbidden(b))
  {
    hide IsForbidden;
    Unclean(statusLine);
    forall k | 0 <= k < |hs| ensures hs[k] in hs
      && (IsClean(hs[k].name) <==> forall b | b in hs[k].name :: !IsForbidden(b))
      && (IsClean(hs[k].value) <==> forall b | b in hs[k].value :: !IsForbidden(b)) {
      Unclean(hs[k].name);
      Unclean(hs[k].value);
    }
  }

  lemma Unclean(s: Bytes)
    ensures IsClean(s) <==> forall b | b in s :: !IsForbidden(b)
  {
    hide IsForbidden;
  }

  /** No name that may occur only once occurs twice. */
  predicate NoRepeats(hs: seq<Header>) {
    forall i, j | 0 <= i < j < |hs| :: Lower(hs[i].name) == Lower(hs[j].name) ==> Lower(hs[j].name) !in SINGLETON_HEADERS
  }

  lemma RenderLineParses(h: Header)
    requires IsGoodHeader(h)
    ensures ParseLine(RenderLine(h)) == Some(h) && CR !in RenderLine(h) && LF !in RenderLine(h)
  {
    var lead, trail: Bytes := [SP], [];
    assert AllBlank(lead) && AllBlank(trail);
    assert RenderLine(h) == h.name + [COLON] + (lead + h.value + trail);
    ParseLineIff(RenderLine(h), h);
    TokenIsClean(h.name);
  }

  lemma TokenIsClean(s: Bytes)
    requires IsToken(s)
    ensures IsClean(s) && CR !in s && LF !in s && COLON !in s
  {
  }

  /** Strict parsing returns the headers that were rendered, in order. */
  lemma {:induction false} HeaderListRoundTrip(done: seq<Header>, hs: seq<Header>)
    requires forall k | 0 <= k < |hs| :: IsGoodHeader(hs[k])
    requires NoRepeats(done + hs)
    ensures HeaderList(RenderLines(hs) + [[]], done) == Parsed(done + hs)
    decreases hs
  {
    var lines := RenderLines(hs) + [[]];
    if hs == [] {
      assert done + hs == done;
    } else {
      var h := hs[0];
      RenderLineParses(h);
      assert lines[0] == RenderLine(h) && lines[0][|h.name|] == COLON;
      assert lines[1..] == RenderLines(hs[1..]) + [[]];
      assert (done + hs)[|done|] == h;
      assert forall k | 0 <= k < |done| :: (done + hs)[k] == done[k];
      assert !IsDuplicate(h.name, done);
      assert (done + [h]) + hs[1..] == done + hs;
      HeaderListRoundTrip(done + [h], hs[1..]);
    }
  }

  // ---- header blocks ----

  /** The characters of a token, as section 5.6.2 of RFC 9110 lists them, and those that no field value may contain. */
  lemma CharactersIff(b: byte)
    ensures IsTchar(b) <==>
            || '0' as int <= b <= '9' as int || 'A' as int <= b <= 'Z' as int || 'a' as int <= b <= 'z' as int
            || b in Ascii("!#$%&'*+-.^_`|~")
    ensures IsForbidden(b) <==> (b < SP && b != HT) || b == 127
    ensures IsBlank(b) <==> b in Ascii(" \t")
    ensures LowerByte(b) == if 'A' as int <= b <= 'Z' as int then b - 'A' as int + 'a' as int else b
    ensures CRLF == Ascii("\r\n") && COLON == ':' as int && SEMICOLON == ';' as int
  {
    assert Ascii("\r\n")[0] == CR && Ascii("\r\n")[1] == LF;
    var special := "!#$%&'*+-.^_`|~";
    assert |special| == 15;
    assert special[0] == '!' && special[1] == '#' && special[2] == '$' && special[3] == '%' && special[4] == '&';
    assert special[5] == '\'' && special[6] == '*' && special[7] == '+' && special[8] == '-' && special[9] == '.';
    assert special[10] == '^' && special[11] == '_' && special[12] == '`' && special[13] == '|' && special[14] == '~';
    assert forall i | 0 <= i < 15 :: Ascii(special)[i] == special[i] as int;
    assert Ascii(" \t")[0] == SP && Ascii(" \t")[1] == HT;
  }

  /** The line is a name, a colon, and a value between blanks. */
  ghost predicate IsHeaderLine(line: Bytes, h: Header) {
    IsGoodHeader(h) && exists lead, trail ::
      AllBlank(lead) && AllBlank(trail) && line == h.name + [COLON] + (lead + h.value + trail)
  }

  lemma HeaderOnLine(line: Bytes, h: Header)
    ensures IsHeaderLine(line, h) <==> ParseLine(line) == Some(h)
    ensures ParseLine(line).Some? ==> line != []
  {
    ParseLineIff(line, h);
  }

  /** Adding a header makes a repetition exactly if its name may occur only once and has occurred. */
  lemma RepeatIff(seen: seq<Header>, h: Header)
    requires NoRepeats(seen)
    ensures NoRepeats(seen + [h]) <==> !IsDuplicate(h.name, seen)
  {
    var all := seen + [h];
    assert forall k | 0 <= k < |seen| :: all[k] == seen[k];
    assert all[|seen|] == h;
  }

  lemma FewerRepeats(a: seq<Header>, b: seq<Header>)
    requires NoRepeats(a + b)
    ensures NoRepeats(a)
  {
    assert forall k | 0 <= k < |a| :: (a + b)[k] == a[k];
  }

  /** The lines with headers on them are taken one by one. */
  lemma {:induction false} LinesTaken(seen: seq<Header>, lines: seq<Bytes>, hs: seq<Header>, more: seq<Bytes>)
    requires |lines| == |hs| && (forall k | 0 <= k < |hs| :: IsHeaderLine(lines[k], hs[k])) && NoRepeats(seen + hs)
    ensures HeaderList(lines + more, seen) == HeaderList(more, seen + hs)
    decreases |lines|
  {
    hide ParseLine, IsHeaderLine, NoRepeats, IsDuplicate;
    if lines == [] {
      assert lines + more == more && seen + hs == seen;
    } else {
      var h := hs[0];
      HeaderOnLine(lines[0], h);
      assert (seen + [h]) + hs[1..] == seen + hs && (lines + more)[1..] == lines[1..] + more;
      FewerRepeats(seen + [h], hs[1..]);
      FewerRepeats(seen, [h]);
      RepeatIff(seen, h);
      LinesTaken(seen + [h], lines[1..], hs[1..], more);
    }
  }

  lemma {:induction false} LinesFound(seen: seq<Header>, lines: seq<Bytes>) returns (hs: seq<Header>)
    requires NoRepeats(seen) && HeaderList(lines + [[]], seen).Parsed? && forall k | 0 <= k < |lines| :: lines[k] != []
    ensures |lines| == |hs| && (forall k | 0 <= k < |hs| :: IsHeaderLine(lines[k], hs[k])) && NoRepeats(seen + hs)
    ensures HeaderList(lines + [[]], seen) == Parsed(seen + hs)
    decreases |lines|
  {
    hide ParseLine, IsHeaderLine, NoRepeats, IsDuplicate;
    if lines == [] {
      hs := [];
      assert seen + hs == seen;
    } else {
      var h := ParseLine(lines[0]).value;
      assert (lines + [[]])[1..] == lines[1..] + [[]];
      HeaderOnLine(lines[0], h);
      RepeatIff(seen, h);
      var rest := LinesFound(seen + [h], lines[1..]);
      hs := [h] + rest;
      assert (seen + [h]) + rest == seen + hs;
    }
  }

  /** A block is accepted, with these headers, exactly if each line has one of them on it, in order, and no name that may
      occur only once occurs twice. */
  lemma HeaderBlockIff(lines: seq<Bytes>, hs: seq<Header>)
    requires forall k | 0 <= k < |lines| :: lines[k] != []
    ensures HeaderList(lines + [[]]) == Parsed(hs)
       <==> |lines| == |hs| && (forall k | 0 <= k < |hs| :: IsHeaderLine(lines[k], hs[k])) && NoRepeats(hs)
  {
    hide ParseLine, IsHeaderLine, IsDuplicate;
    assert [] + hs == hs;
    if HeaderList(lines + [[]]) == Parsed(hs) {
      var found := LinesFound([], lines);
      assert [] + found == found;
    }
    if |lines| == |hs| && (forall k | 0 <= k < |hs| :: IsHeaderLine(lines[k], hs[k])) && NoRepeats(hs) {
      LinesTaken([], lines, hs, [[]]);
    }
  }

  /** A refused block has the error of its first line that is refused: no header is on it, or it repeats one. */
  lemma FirstRefused(lines: seq<Bytes>, hs: seq<Header>, line: Bytes, more: seq<Bytes>)
    requires |lines| == |hs| && (forall k | 0 <= k < |hs| :: IsHeaderLine(lines[k], hs[k])) && NoRepeats(hs) && line != []
    ensures (forall h :: !IsHeaderLine(line, h)) ==> HeaderList(lines + ([line] + more)) == Rejected(InvalidHeader)
    ensures (exists h :: IsHeaderLine(line, h) && !NoRepeats(hs + [h])) ==>
              HeaderList(lines + ([line] + more)) == Rejected(BadHttpMessage)
  {
    hide ParseLine, IsHeaderLine, IsDuplicate;
    assert [] + hs == hs;
    LinesTaken([], lines, hs, [line] + more);
    match ParseLine(line)
    case None =>
      forall h ensures !IsHeaderLine(line, h) { HeaderOnLine(line, h); }
    case Some(h) =>
      HeaderOnLine(line, h);
      RepeatIff(hs, h);
      forall g | IsHeaderLine(line, g) ensures g == h { HeaderOnLine(line, g); }
  }

  /** In an accepted block these names have one value at most. */
  lemma OnlyOnce(lines: seq<Bytes>, hs: seq<Header>, i: nat, j: nat)
    requires HeaderList(lines + [[]]) == Parsed(hs) && forall k | 0 <= k < |lines| :: lines[k] != []
    requires i < j < |hs| && Lower(hs[i].name) == Lower(hs[j].name)
    ensures Lower(hs[i].name) !in {Ascii("content-length"), Ascii("transfer-encoding"), Ascii("host")}
  {
    HeaderBlockIff(lines, hs);
  }
}
