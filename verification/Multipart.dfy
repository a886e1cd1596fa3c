/** Reading one part of a multipart body: the streaming search for the boundary against the search in the whole text. */
module Multipart {
  import opened Bytes
  import opened Streams

  /** Every occurrence of `sub` in `s` ends beyond `e`. */
  ghost predicate NoMatchUpTo(s: Bytes, sub: Bytes, e: int) {
    forall j | MatchAt(s, sub, j) :: j + |sub| > e
  }

  /** What has arrived later does not disturb what was searched. */
  lemma NoMatchAppend(s: Bytes, more: Bytes, sub: Bytes, e: int)
    requires NoMatchUpTo(s, sub, e) && e <= |s|
    ensures NoMatchUpTo(s + more, sub, e)
  {
    forall j | MatchAt(s + more, sub, j) ensures j + |sub| > e {
      if j + |sub| <= e { MatchAtAppend(s, more, sub, j); }
    }
  }

  /** A window onto the text sees the occurrences that lie inside it. */
  lemma MatchInWindow(before: Bytes, w: Bytes, after: Bytes, sub: Bytes, i: int)
    requires 0 <= i && i + |sub| <= |w|
    ensures MatchAt(before + w + after, sub, |before| + i) <==> MatchAt(w, sub, i)
  {
    var s := before + w + after;
    assert s[|before| + i..|before| + i + |sub|] == w[i..i + |sub|];
  }

  /** The search in a window finds the first occurrence in the whole text, if none starts before the search does. */
  lemma WindowFinds(before: Bytes, w: Bytes, after: Bytes, sub: Bytes, start: nat)
    requires forall j | MatchAt(before + w + after, sub, j) :: j >= |before| + start
    ensures var s := before + w + after;
            var i := Find(w, sub, start);
            if i >= 0 then Find(s, sub) == |before| + i else NoMatchUpTo(s, sub, |before| + |w|)
  {
    var s := before + w + after;
    var i := Find(w, sub, start);
    FindFirst(w, sub, start);
    forall j | MatchAt(s, sub, j) && j + |sub| <= |before| + |w| ensures i >= 0 && |before| + i <= j {
      MatchInWindow(before, w, after, sub, j - |before|);
    }
    if i >= 0 {
      MatchInWindow(before, w, after, sub, i);
      FindUnique(s, sub, 0, |before| + i);
    }
  }

  /** No occurrence in a text that was searched to its end. */
  lemma SearchedAll(s: Bytes, sub: Bytes)
    requires NoMatchUpTo(s, sub, |s|)
    ensures Find(s, sub) < 0
  {
  }

  /** What is known of the text after a call that returned: it has been searched up to `here`, where the kept chunk
      `prev` ends. Either the boundary comes next, or none has been found so far, or there is none. */
  ghost predicate Known(sub: Bytes, text: Bytes, here: int, prev: Bytes, contentEof: nat, unread: Bytes) {
    || (Find(text, sub) == here && prev != [] && contentEof <= 1)
    || (NoMatchUpTo(text, sub, here) && |prev| >= |sub| && (contentEof == 0 || (contentEof == 1 && |unread| < |sub|)))
    || (Find(text, sub) < 0 && unread == [] && 1 <= contentEof <= 2)
  }

  /** No more than two reads have met the end of the content, and after two there is no boundary. */
  lemma KnownEof(sub: Bytes, text: Bytes, here: int, prev: Bytes, contentEof: nat, unread: Bytes)
    requires Known(sub, text, here, prev, contentEof, unread) && sub != []
    ensures contentEof <= 2 && (contentEof == 2 ==> Find(text, sub) < 0)
    ensures prev == [] ==> unread == [] && contentEof > 0
  {
  }

  /** The boundary does not begin before the kept chunk does. */
  lemma KnownAhead(sub: Bytes, text: Bytes, before: nat, prev: Bytes, contentEof: nat, unread: Bytes)
    requires Known(sub, text, before + |prev|, prev, contentEof, unread)
    ensures Find(text, sub) < 0 || Find(text, sub) >= before
  {
    FindFirst(text, sub, 0);
  }

  /** Where the next search may start. */
  lemma KnownStart(sub: Bytes, old_: Bytes, more: Bytes, here: int, prev: Bytes, contentEof: nat, unread: Bytes)
    requires Known(sub, old_, here, prev, contentEof, unread) && sub != []
    requires |prev| <= here && here + |unread| == |old_| && (contentEof > 0 ==> more == [])
    ensures forall j | MatchAt(old_ + more, sub, j) :: j >= here - |prev| + Max(0, |prev| - |sub|)
  {
    if Find(old_, sub) == here {
      FindAppend(old_, more, sub);
      FindFirst(old_ + more, sub, 0);
    } else if NoMatchUpTo(old_, sub, here) && |prev| >= |sub| {
      NoMatchAppend(old_, more, sub, here);
    } else {
      assert old_ + more == old_;
      FindFirst(old_, sub, 0);
    }
  }

  /** The next search, over the kept chunk and the one gathered after it. */
  lemma KnownNext(sub: Bytes, old_: Bytes, more: Bytes, before: Bytes, prev: Bytes, chunk: Bytes, e0: nat, e1: nat,
                  u0: Bytes, u1: Bytes, start: nat)
    requires Known(sub, old_, |before| + |prev|, prev, e0, u0) && sub != []
    requires old_ == before + prev + u0 && old_ + more == before + (prev + chunk) + u1
    requires (e0 > 0 ==> more == [] && |chunk| <= |u0|) && start == Max(0, |prev| - |sub|)
    requires (e1 == e0 && |chunk| >= |sub|) || (e1 == e0 + 1 <= 2 && (u1 == [] || (e0 == 0 && |u1| < |sub| <= |chunk|)))
    ensures var text := old_ + more;
            var i := Find(prev + chunk, sub, start);
            if i >= 0 then Find(text, sub) == |before| + i && (i > |prev| ==> e1 <= 1)
            else Known(sub, text, |before| + |prev| + |chunk|, chunk, e1, u1)
  {
    var text := old_ + more;
    var here := |before| + |prev|;
    KnownStart(sub, old_, more, here, prev, e0, u0);
    WindowFinds(before, prev + chunk, u1, sub, start);
    if Find(old_, sub) == here {
      FindAppend(old_, more, sub);
      BoundaryInWindow(sub, text, before, prev, chunk, u1, start);
    } else if u1 == [] && Find(prev + chunk, sub, start) < 0 {
      assert before + (prev + chunk) + [] == before + (prev + chunk);
      SearchedAll(text, sub);
    }
  }

  /** A boundary that comes next is found, because enough of it was gathered. */
  lemma BoundaryInWindow(sub: Bytes, text: Bytes, before: Bytes, prev: Bytes, chunk: Bytes, u1: Bytes, start: nat)
    requires text == before + (prev + chunk) + u1 && Find(text, sub) == |before| + |prev| && start <= |prev|
    requires |chunk| >= |sub| || u1 == []
    ensures Find(prev + chunk, sub, start) >= 0
  {
    var w := prev + chunk;
    assert MatchAt(text, sub, |before| + |prev|);
    assert |prev| + |sub| <= |w|;
    MatchInWindow(before, w, u1, sub, |prev|);
    FindFirst(w, sub, start);
  }

  datatype PartResult = Part(chunk: Bytes) | ReadingAfterEof | Malformed | TooLarge | Blocked

  class BodyPartReader {
    const boundary: Bytes           // with the two dashes in front
    const content: StreamReader
    var prevChunk: Option<Bytes>
    var contentEof: nat
    var atEof: bool

    ghost var delivered: Bytes      // all chunks returned
    ghost var before: Bytes         // the part of the text that precedes prevChunk

    /** What ends a part. */
    function Sub(): Bytes { CRLF + boundary }

    /** The text of the part and beyond: the CRLF that header parsing removed, and all content so far. */
    ghost function Text(): Bytes
      reads this, content
    {
      before + (if prevChunk.Some? then prevChunk.value else CRLF) + content.Unread()
    }

    /** What has been searched, and why the rest of the text is searched rightly by the next call. */
    ghost predicate Searched()
      requires prevChunk.Some?
      reads this, content
    {
      var here := |before| + |prevChunk.value|;
      && (contentEof > 0 ==> content.eof)
      && before == CRLF + delivered
      && Known(Sub(), Text(), here, prevChunk.value, contentEof, content.Unread())
    }

    ghost predicate Valid()
      reads this, content
    {
      && content.Valid() && !atEof && contentEof <= 2
      && (prevChunk.None? ==> contentEof == 0 && before == [] && delivered == [])
      && (prevChunk.Some? ==> Searched())
    }

    /** The part is over: exactly what precedes the first boundary was delivered, and the content starts with it. */
    ghost predicate Ended(text: Bytes)
      reads this, content
    {
      var i := Find(text, Sub());
      i >= 0 && delivered == text[Min(2, i)..i] && content.Unread() == text[i..]
    }

    constructor (boundary: Bytes, content: StreamReader)
      requires content.Valid()
      ensures Valid() && this.boundary == boundary && this.content == content && delivered == []
    {
      this.boundary, this.content := boundary, content;
      prevChunk, contentEof, atEof := None, 0, false;
      delivered, before := [], [];
    }

    /** Whether everything has been read that will ever arrive. */
    predicate ContentAtEof()
      reads content
    {
      content.eof && content.buffer == []
    }

    /** Reads until the boundary would fit, or until the content ends. */
    method Gather(size: nat) returns (r: PartResult, chunk: Bytes, ghost more: Bytes)
      requires content.Valid() && size >= |Sub()| && contentEof <= 2 && (contentEof > 0 ==> content.eof)
      modifies this`contentEof, content
      ensures content.Valid() && (old(content.eof) ==> content.eof && more == [])
      ensures r in {Part([]), ReadingAfterEof, Blocked}
      ensures r != Blocked ==> chunk + content.Unread() == old(content.Unread()) + more && |chunk| < |Sub()| + size
      ensures r == Part([]) ==>
                || (contentEof == old(contentEof) && |chunk| >= |Sub()|)
                || (contentEof == old(contentEof) + 1 <= 2 && content.eof && content.Unread() == [])
      ensures r == Part([]) && old(contentEof) > 0 ==> |chunk| <= size
      ensures r.ReadingAfterEof? ==> old(contentEof) == 2 && content.eof && content.Unread() == []
      ensures r.Blocked? ==> !content.eof && content.Unread() == [] && !old(content.eof)
    {
      chunk, more := [], [];
      assert [] + content.Unread() == content.Unread() + [];
      while |chunk| < |Sub()|
        invariant content.Valid() && contentEof == old(contentEof) && (old(content.eof) ==> content.eof && more == [])
        invariant chunk + content.Unread() == old(content.Unread()) + more && |chunk| < |Sub()| + size
        invariant contentEof > 0 ==> chunk == []
        decreases |Sub()| - |chunk|
      {
        var c;
        ghost var m, u1 := [], content.Unread();
        c, m := content.Read(size);
        if c.None? {
          ContentEmpty(content.buffer, content.bufferOffset);
          return Blocked, chunk, more;
        }
        Glue(old(content.Unread()), more, chunk, u1, c.value, m, content.Unread());
        chunk, more := chunk + c.value, more + m;
        ContentEmpty(content.buffer, content.bufferOffset);
        if ContentAtEof() { contentEof := contentEof + 1; }
        if contentEof > 2 { return ReadingAfterEof, chunk, more; }
        if contentEof > 0 { break; }
      }
      r := Part([]);
    }

    /** What the search of a window needs to know about the chunk gathered for it. */
    ghost predicate Enough(e0: nat, chunk: Bytes, u0: Bytes, more: Bytes)
      reads this, content
    {
      var u1 := content.Unread();
      && chunk + u1 == u0 + more && (contentEof > 0 ==> content.eof)
      && (e0 > 0 ==> more == [] && |chunk| <= |u0|) && (u0 == [] && more == [] ==> contentEof > e0)
      && (|| (contentEof == e0 && |chunk| >= |Sub()|)
          || (contentEof == e0 + 1 <= 2 && (u1 == [] || (e0 == 0 && |u1| < |Sub()| <= |chunk|))))
    }

    /** Gathers a chunk of at most `size` octets; what was read beyond that is pushed back. */
    method GatherChunk(size: nat) returns (r: PartResult, chunk: Bytes, ghost more: Bytes)
      requires content.Valid() && size >= |Sub()| && contentEof <= 2 && (contentEof > 0 ==> content.eof)
      modifies this`contentEof, content
      ensures content.Valid() && r in {Part([]), ReadingAfterEof, Blocked}
      ensures r.Part? ==> Enough(old(contentEof), chunk, old(content.Unread()), more)
      ensures old(content.eof) ==> content.eof && (r.Part? ==> more == [])
      ensures r.ReadingAfterEof? ==> old(contentEof) == 2 && content.eof && content.Unread() == []
      ensures r.Blocked? ==> !content.eof && content.Unread() == [] && !old(content.eof)
    {
      ghost var u0 := content.Unread();
      r, chunk, more := Gather(size);
      if r.Part? && |chunk| > size {
        ghost var u1 := content.Unread();
        content.UnreadData(chunk[size..]);
        Assoc(chunk[..size], chunk[size..], u1);
        assert chunk == chunk[..size] + chunk[size..];
        chunk := chunk[..size];
      }
      if r.Part? && old(contentEof) > 0 {
        assert chunk + content.Unread() == u0 + [] == u0;
      }
    }

    /** The first chunk of a part, with the CRLF put back. */
    method ReadFirst(size: nat) returns (ok: bool, ghost m: Bytes)
      requires Valid() && prevChunk.None?
      modifies this`prevChunk, content
      ensures content.Valid()
      ensures ok ==> prevChunk.Some? && CRLF <= prevChunk.value && (prevChunk.value == CRLF && size > 0 ==> content.eof)
      ensures ok ==> Text() == old(Text()) + m && content.Unread() == Text()[|prevChunk.value|..]
      ensures ok && prevChunk.value == CRLF && size > 0 ==> content.Unread() == []
      ensures old(content.eof) ==> content.eof && m == []
      ensures !ok ==> !content.eof && content.Unread() == []
    {
      var c;
      c, m := content.Read(size);
      if c.None? {
        ContentEmpty(content.buffer, content.bufferOffset);
        return false, m;
      }
      prevChunk := Some(CRLF + c.value);
      FirstText(c.value, content.Unread(), old(content.Unread()), m);
      ok := true;
    }

    /** The next chunk of a part of unknown length. `text` is the text as far as it has arrived. */
    method ReadChunkFromStream(size: nat) returns (r: PartResult, ghost text: Bytes)
      requires Valid() && size >= |Sub()|
      modifies this, content
      ensures content.Valid() && (r.Part? ==> old(Text()) <= text && delivered == old(delivered) + r.chunk)
      ensures r.Part? && !atEof ==> Valid() && Text() == text && (r.chunk != [] || contentEof > old(contentEof))
      ensures r.Part? && atEof ==> Ended(text)
      ensures r.ReadingAfterEof? ==> Find(text, Sub()) < 0 && old(Text()) <= text && content.eof && content.Unread() == []
      ensures !r.Malformed? && !r.TooLarge?
      ensures r.Blocked? ==> !content.eof && content.Unread() == [] && !old(content.eof)
      ensures old(content.eof) ==> content.eof && text == old(Text())
    {
      if prevChunk.None? {
        ghost var m;
        var ok;
        ok, m := ReadFirst(size);
        text := Text();
        if !ok { return Blocked, text; }
        assert old(Text()) <= text;
        r, text := SearchFirst(size);
      } else {
        r, text := SearchNext(size);
      }
    }

    /** The search in the first window. */
    method SearchFirst(size: nat) returns (r: PartResult, ghost text: Bytes)
      requires content.Valid() && !atEof && prevChunk.Some? && CRLF <= prevChunk.value && size >= |Sub()|
      requires before == [] && delivered == [] && contentEof == 0
      requires prevChunk.value == CRLF ==> content.eof && content.Unread() == []
      modifies this, content
      ensures content.Valid() && (r.Part? ==> old(Text()) <= text && delivered == old(delivered) + r.chunk)
      ensures r.Part? && !atEof ==> Valid() && Text() == text && (r.chunk != [] || contentEof > 0)
      ensures r.Part? && atEof ==> Ended(text)
      ensures r.Part? || r.Blocked?
      ensures r.Blocked? ==> !content.eof && content.Unread() == [] && !old(content.eof)
      ensures old(content.eof) ==> content.eof && text == old(Text())
    {
      hide Known, NoMatchUpTo, Find, StreamReader.Valid;
      ghost var t0, u0, prev := Text(), content.Unread(), prevChunk.value;
      text := t0;
      var chunk;
      ghost var m;
      r, chunk, m := GatherChunk(size);
      if !r.Part? { return; }
      text := t0 + m;
      TextSplits(t0, m, before, prev, u0, chunk, content.Unread());
      FirstNext(Sub(), text, prev, chunk, contentEof, content.Unread());
      r := SearchWindow(true, chunk, 0, text);
    }

    /** The search in a later window, which overlaps the one before. */
    method SearchNext(size: nat) returns (r: PartResult, ghost text: Bytes)
      requires Valid() && prevChunk.Some? && size >= |Sub()|
      modifies this, content
      ensures content.Valid() && (r.Part? ==> old(Text()) <= text && delivered == old(delivered) + r.chunk)
      ensures r.Part? && !atEof ==> Valid() && Text() == text && (r.chunk != [] || contentEof > old(contentEof))
      ensures r.Part? && atEof ==> Ended(text)
      ensures r.ReadingAfterEof? ==> Find(text, Sub()) < 0 && text == old(Text()) && content.eof && content.Unread() == []
      ensures !r.Malformed? && !r.TooLarge?
      ensures r.Blocked? ==> !content.eof && content.Unread() == [] && !old(content.eof)
      ensures old(content.eof) ==> content.eof && text == old(Text())
    {
      hide Known, NoMatchUpTo, Find, StreamReader.Valid;
      ghost var t0, u0, prev, e0 := Text(), content.Unread(), prevChunk.value, contentEof;
      KnownEof(Sub(), t0, |before| + |prev|, prev, e0, u0);
      text := t0;
      var chunk;
      ghost var m;
      r, chunk, m := GatherChunk(size);
      if !r.Part? { return; }
      text := t0 + m;
      var start := Max(0, |prevChunk.value| - |Sub()|);
      TextSplits(t0, m, before, prev, u0, chunk, content.Unread());
      KnownNext(Sub(), t0, m, before, prev, chunk, e0, contentEof, u0, content.Unread(), start);
      r := SearchWindow(false, chunk, start, text);
      assert prev[0..] == prev;
    }

    /** The window is searched. */
    method SearchWindow(first: bool, chunk: Bytes, start: nat, ghost text: Bytes) returns (r: PartResult)
      requires AtWindow(first, chunk, text)
      requires var i := Find(prevChunk.value + chunk, Sub(), start);
               if i >= 0 then Find(text, Sub()) == |before| + i && (i > |prevChunk.value| ==> contentEof <= 1)
               else Known(Sub(), text, |before| + |prevChunk.value| + |chunk|, chunk, contentEof, content.Unread())
      modifies this, content
      ensures content.Valid() && r.Part? && delivered == old(delivered) + r.chunk && contentEof == old(contentEof)
      ensures content.eof == old(content.eof)
      ensures !atEof ==> Valid() && Text() == text && r.chunk == old(prevChunk).value[if first then 2 else 0..]
      ensures atEof ==> Ended(text)
    {
      var idx := Find(prevChunk.value + chunk, Sub(), start);
      if idx >= 0 {
        r := FinishPart(first, chunk, idx, text);
      } else {
        r := KeepChunk(first, chunk, text);
      }
    }

    /** The kept chunk is handed out, and the next one is kept. */
    ghost predicate AtWindow(first: bool, chunk: Bytes, text: Bytes)
      reads this, content
    {
      && content.Valid() && prevChunk.Some? && !atEof && (contentEof > 0 ==> content.eof)
      && text == before + (prevChunk.value + chunk) + content.Unread()
      && if first then before == [] && delivered == [] && CRLF <= prevChunk.value else before == CRLF + delivered
    }

    method KeepChunk(first: bool, chunk: Bytes, ghost text: Bytes) returns (r: PartResult)
      requires AtWindow(first, chunk, text)
      requires Known(Sub(), text, |before| + |prevChunk.value| + |chunk|, chunk, contentEof, content.Unread())
      modifies this`prevChunk, this`before, this`delivered
      ensures r.Part? && delivered == old(delivered) + r.chunk && Valid() && Text() == text
      ensures r.chunk == old(prevChunk).value[if first then 2 else 0..]
    {
      var prev := prevChunk.value;
      Assoc(before, prev, chunk);
      var result := prev[if first then 2 else 0..];
      Assoc(CRLF, delivered, prev);
      assert prev[0..] == prev && (first ==> prev == CRLF + result);
      prevChunk := Some(chunk);
      before := before + prev;
      delivered := delivered + result;
      return Part(result);
    }

    /** A boundary in the window is pushed back; what precedes it is the next chunk, unless nothing does. */
    method FinishPart(first: bool, chunk0: Bytes, idx: nat, ghost text: Bytes) returns (r: PartResult)
      requires AtWindow(first, chunk0, text) && idx <= |prevChunk.value + chunk0|
      requires Find(text, Sub()) == |before| + idx && (idx > |prevChunk.value| ==> contentEof <= 1)
      modifies this, content
      ensures content.Valid() && r.Part? && delivered == old(delivered) + r.chunk && contentEof == old(contentEof)
      ensures content.eof == old(content.eof)
      ensures !atEof ==> Valid() && Text() == text && r.chunk == old(prevChunk).value[if first then 2 else 0..]
      ensures atEof ==> Ended(text)
    {
      var prev := prevChunk.value;
      var window := prev + chunk0;
      ghost var u0 := content.Unread();
      content.UnreadData(window[idx..]);
      if idx > |prev| {
        var chunk := window[|prev|..idx];
        WindowSplits(before, prev, chunk, window, idx, u0);
        Assoc(before, prev, chunk);
        r := KeepChunk(first, chunk, text);
      } else {
        LastPiece(before, prev[..idx], window, idx, u0, text);
        r := EndPart(first, idx, text);
      }
    }

    /** The boundary starts inside or right after the kept chunk. */
    method EndPart(first: bool, idx: nat, ghost text: Bytes) returns (r: PartResult)
      requires content.Valid() && prevChunk.Some? && idx <= |prevChunk.value|
      requires if first then before == [] && delivered == [] && CRLF <= prevChunk.value else before == CRLF + delivered
      requires Find(text, Sub()) == |before| + idx && content.Unread() == text[|before| + idx..]
      requires text[..|before| + idx] == before + prevChunk.value[..idx]
      modifies this`prevChunk, this`before, this`delivered, this`atEof
      ensures r.Part? && delivered == old(delivered) + r.chunk && atEof && Ended(text)
    {
      var prev := prevChunk.value[..idx];
      prevChunk := Some([]);
      atEof := true;
      var result := prev[if first then Min(2, |prev|) else 0..];
      ghost var i := |before| + idx;
      assert text[Min(2, i)..i] == text[..i][Min(2, i)..];
      if !first {
        assert (CRLF + delivered + prev)[2..] == delivered + prev;
        assert prev[0..] == prev;
      }
      before := before + prev;
      delivered := delivered + result;
      return Part(result);
    }

    /** The part was delivered, and the line break in front of the boundary was taken off the content. */
    ghost predicate Closed(text: Bytes)
      reads this, content
    {
      var i := Find(text, Sub());
      i >= 0 && delivered == text[Min(2, i)..i] && content.Unread() == text[i + 2..]
    }

    /** What was delivered lies in front of the first boundary. */
    ghost predicate Within(text: Bytes)
      reads this
    {
      var i := Find(text, Sub());
      i >= 0 ==> i - Min(2, i) >= |delivered|
    }

    lemma Ahead()
      requires Valid()
      ensures Within(Text())
    {
      if prevChunk.Some? { KnownAhead(Sub(), Text(), |before|, prevChunk.value, contentEof, content.Unread()); }
    }

    /** The next chunk; after the last one the content is positioned at the boundary itself, and then there are only empty
        ones. */
    method ReadChunk(size: nat) returns (r: PartResult, ghost text: Bytes)
      requires size >= |Sub()| && (atEof || Valid())
      modifies this, content
      ensures old(atEof) ==> r == Part([]) && unchanged(this) && unchanged(content)
      ensures !old(atEof) ==> content.Valid()
      ensures r.Part? && !old(atEof) ==> old(Text()) <= text && delivered == old(delivered) + r.chunk
      ensures r.Part? && !atEof ==> Valid() && Text() == text && (r.chunk != [] || contentEof > old(contentEof))
      ensures r.Part? && atEof && !old(atEof) ==> Closed(text)
      ensures r.Part? && !old(atEof) ==> Within(text)
      ensures r.ReadingAfterEof? ==> Find(text, Sub()) < 0 && old(Text()) <= text && content.eof && content.Unread() == []
      ensures !r.Malformed? && !r.TooLarge?
      ensures r.Blocked? ==> !content.eof && content.Unread() == [] && !old(content.eof)
      ensures old(content.eof) && !old(atEof) ==> text == old(Text())
      ensures old(content.eof) ==> content.eof
    {
      hide Known, Find, StreamReader.Valid, BodyPartReader.Searched;
      if atEof { return Part([]), []; }
      r, text := ReadChunkFromStream(size);
      if !r.Part? { return; }
      if !atEof {
        Ahead();
      } else {
        var ok;
        ghost var more;
        ok, more := TakeLineBreak(text);
        if !ok { return Malformed, text; }
        text := text + more;
      }
    }

    /** The line break in front of the boundary is taken off the content; it is always there. */
    method TakeLineBreak(ghost text: Bytes) returns (ok: bool, ghost more: Bytes)
      requires content.Valid() && Ended(text)
      modifies content
      ensures content.Valid() && ok && Closed(text + more)
      ensures old(content.eof) ==> content.eof && more == []
    {
      hide Find, LineOf;
      ghost var u0, i := content.Unread(), Find(text, Sub());
      var line;
      ghost var got;
      line, got, more := content.ReadUntil(LF, 0);
      BoundaryLine(text, Sub(), i, u0, more);
      ok := line == Line(CRLF);
      LineTaken(text, Sub(), i, u0, more, content.Unread());
    }

    /** The rest of the part, unless it is larger than the client allows; once the part is over, nothing. */
    method Read(size: nat, clientMaxSize: nat) returns (r: PartResult, ghost text: Bytes)
      requires size >= |Sub()| && (atEof || Valid())
      modifies this, content
      ensures old(atEof) ==> r == Part([]) && unchanged(this) && unchanged(content)
      ensures !old(atEof) ==> content.Valid()
      ensures r.Part? && !old(atEof) ==>
                old(Text()) <= text && |r.chunk| <= clientMaxSize && Closed(text) && delivered == old(delivered) + r.chunk
      ensures r.TooLarge? ==> |delivered| > |old(delivered)| + clientMaxSize && old(Text()) <= text && Within(text)
      ensures r.ReadingAfterEof? ==> Find(text, Sub()) < 0 && old(Text()) <= text && content.eof && content.Unread() == []
      ensures !r.Malformed?
      ensures r.Blocked? ==> !content.eof && content.Unread() == [] && !old(content.eof)
      ensures old(content.eof) && !old(atEof) ==>
                content.eof && text == old(Text()) && (r.TooLarge? || if Find(text, Sub()) >= 0 then r.Part? else r.ReadingAfterEof?)
    {
      hide Known, Find, StreamReader.Valid, Within, BodyPartReader.Searched;
      text := [];
      if atEof { return Part([]), text; }
      var data: Bytes := [];
      text := Text();
      while !atEof
        invariant if atEof then Closed(text) else Valid() && Text() == text
        invariant content.Valid() && old(Text()) <= text && delivered == old(delivered) + data && |data| <= clientMaxSize
        invariant (contentEof <= 2 || atEof) && (old(content.eof) ==> content.eof && text == old(Text()))
        decreases !atEof, clientMaxSize - |data|, 3 - contentEof
      {
        ghost var before := data;
        r, text := ReadChunk(size);
        if !r.Part? { return; }
        Assoc(old(delivered), before, r.chunk);
        data := data + r.chunk;
        if |data| > clientMaxSize { return TooLarge, text; }
      }
      return Part(data), text;
    }
  }

  /** The line in front of the boundary is empty. */
  lemma BoundaryLine(text: Bytes, sub: Bytes, i: nat, u: Bytes, more: Bytes)
    requires CRLF <= sub && MatchAt(text, sub, i) && u == text[i..]
    ensures |u| >= 2 && u[..2] == CRLF && LineOf(u + more, LF) == CRLF && LF in u
  {
    assert sub == text[i..i + |sub|];
    assert u[0] == sub[0] == CR && u[1] == sub[1] == LF;
    assert u + more == [CR] + [LF] + (u + more)[2..];
    IndexOfUnique([CR], LF, (u + more)[2..]);
    assert (u + more)[..2] == CRLF;
  }

  lemma LineTaken(text: Bytes, sub: Bytes, i: nat, u: Bytes, more: Bytes, rest: Bytes)
    requires i + 2 <= |text| && u == text[i..] && CRLF + rest == u + more && Find(text, sub) == i
    ensures rest == (text + more)[i + 2..] && Find(text + more, sub) == i
    ensures (text + more)[Min(2, i)..i] == text[Min(2, i)..i]
  {
    FindAppend(text, more, sub);
    assert (CRLF + rest)[2..] == rest && (text + more)[i..] == u + more;
    assert (text + more)[i + 2..] == (text + more)[i..][2..];
  }

  lemma LastPiece(before: Bytes, prev: Bytes, window: Bytes, idx: nat, u: Bytes, text: Bytes)
    requires idx <= |window| && prev == window[..idx] && text == before + window + u
    ensures text[|before| + idx..] == window[idx..] + u && text[..|before| + idx] == before + prev
  {
  }

  lemma WindowSplits(before: Bytes, prev: Bytes, chunk: Bytes, window: Bytes, idx: nat, u: Bytes)
    requires idx <= |window| && prev + chunk == window[..idx]
    ensures (before + prev) + chunk + (window[idx..] + u) == before + window + u
  {
    assert window == prev + chunk + window[idx..];
  }

  lemma TextSplits(t0: Bytes, m1: Bytes, before: Bytes, prev: Bytes, u0: Bytes, chunk: Bytes, u1: Bytes)
    requires before + prev + u0 == t0 && chunk + u1 == u0 + m1
    ensures t0 + m1 == before + (prev + chunk) + u1
  {
    Assoc(before + prev, u0, m1);
    assert before + prev + (chunk + u1) == before + (prev + chunk) + u1;
  }

  /** The first search. */
  lemma FirstNext(sub: Bytes, text: Bytes, prev: Bytes, chunk: Bytes, e1: nat, u1: Bytes)
    requires sub != [] && text == [] + (prev + chunk) + u1
    requires (e1 == 0 && |chunk| >= |sub|) || (e1 == 1 && (u1 == [] || |u1| < |sub| <= |chunk|))
    ensures var i := Find(prev + chunk, sub, 0);
            if i >= 0 then Find(text, sub) == i
            else Known(sub, text, |prev| + |chunk|, chunk, e1, u1)
  {
    WindowFinds([], prev + chunk, u1, sub, 0);
    if u1 == [] && Find(prev + chunk, sub, 0) < 0 {
      assert text == prev + chunk;
      SearchedAll(text, sub);
    }
  }

  lemma FirstText(c: Bytes, u: Bytes, u0: Bytes, m: Bytes)
    requires c + u == u0 + m
    ensures [] + (CRLF + c) + u == ([] + CRLF + u0) + m
  {
    var none: Bytes := [];
    assert none + (CRLF + c) == CRLF + c && none + CRLF == CRLF;
    Assoc(CRLF, c, u);
    Assoc(CRLF, u0, m);
  }
}
