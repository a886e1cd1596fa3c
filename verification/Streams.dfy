/** The payload buffer between the parser and the reader of a body, with its flow control. */
module Streams {
  import opened Bytes

  /** Strictly increasing offsets between `lo` and `hi`. */
  ghost predicate MarksIn(marks: seq<int>, lo: int, hi: int) {
    && (forall i | 0 <= i < |marks| :: lo <= marks[i] <= hi)
    && (forall i, j | 0 <= i < j < |marks| :: marks[i] < marks[j])
  }

  /** Distinct offsets need room. */
  lemma {:induction false} MarksNeedRoom(marks: seq<int>, lo: int, hi: int)
    requires MarksIn(marks, lo, hi) && marks != []
    ensures |marks| <= hi - lo + 1
    decreases |marks|
  {
    if |marks| > 1 {
      assert marks[1..][0] == marks[1];
      MarksNeedRoom(marks[1..], marks[0] + 1, hi);
    }
  }

  lemma MarksPush(marks: seq<int>, lo: int, hi: int)
    requires MarksIn(marks, lo, hi) && lo <= hi && (marks != [] ==> marks[|marks| - 1] != hi)
    ensures MarksIn(marks + [hi], lo, hi)
  {
  }

  /** `rest` is `marks` without the ones below `cursor`. */
  ghost predicate IsTail(marks: seq<int>, rest: seq<int>, cursor: int) {
    && |rest| <= |marks| && rest == marks[|marks| - |rest|..]
    && forall i | 0 <= i < |marks| - |rest| :: marks[i] < cursor
  }

  // ---- the buffer as a value: a queue of strings, the first one read up to an offset ----

  predicate Shaped(b: seq<Bytes>, off: nat) {
    (forall i | 0 <= i < |b| :: b[i] != []) && if b == [] then off == 0 else off < |b[0]|
  }

  function Content(b: seq<Bytes>, off: nat): Bytes {
    if b == [] then [] else if off <= |b[0]| then b[0][off..] + Concat(b[1..]) else []
  }

  lemma ContentPush(b: seq<Bytes>, off: nat, x: Bytes)
    requires Shaped(b, off) && x != []
    ensures Shaped(b + [x], off) && Content(b + [x], off) == Content(b, off) + x
  {
    if b == [] {
      assert (b + [x])[1..] == [];
    } else {
      assert (b + [x])[1..] == b[1..] + [x] && (b + [x])[0] == b[0];
      ConcatAppend(b[1..], [x]);
      ConcatOne(x);
      assert b[0][off..] + (Concat(b[1..]) + x) == b[0][off..] + Concat(b[1..]) + x;
    }
  }

  lemma ContentPop(b: seq<Bytes>)
    requires b != [] && Shaped(b, 0)
    ensures Shaped(b[1..], 0) && Content(b[1..], 0) == Concat(b[1..])
  {
    if |b| > 1 {
      assert b[1..][0][0..] == b[1];
    }
  }

  /** The buffer after `n` octets of its first string are taken. */
  function Advance(b: seq<Bytes>, off: nat, n: nat): (seq<Bytes>, nat)
    requires b != [] && off + n <= |b[0]|
  {
    if off + n < |b[0]| then (b, off + n) else (b[1..], 0)
  }

  /** How much a read of `n` octets (-1: all) takes from the first string. */
  function FrontLength(b: seq<Bytes>, off: nat, n: int): (k: nat)
    requires b != [] && off <= |b[0]| && n >= -1
    ensures off + k <= |b[0]|
  {
    if n == -1 then |b[0]| - off else Min(n, |b[0]| - off)
  }

  lemma ContentFront(b: seq<Bytes>, off: nat)
    requires b != [] && Shaped(b, off)
    ensures Content(b, off) == b[0][off..] + Concat(b[1..])
  {
  }

  lemma ContentAdvance(b: seq<Bytes>, off: nat, n: nat)
    requires b != [] && Shaped(b, off) && off + n <= |b[0]|
    ensures var (b1, off1) := Advance(b, off, n);
            Shaped(b1, off1) && Content(b, off) == b[0][off..off + n] + Content(b1, off1)
  {
    hide Content;
    ContentFront(b, off);
    if off + n < |b[0]| {
      ContentFront(b, off + n);
      Assoc(b[0][off..off + n], b[0][off + n..], Concat(b[1..]));
      assert b[0][off..] == b[0][off..off + n] + b[0][off + n..];
    } else {
      ContentFront(b, 0);
      ContentPop(b);
      assert b[0][off..] == b[0][off..off + n];
    }
  }

  lemma ContentEmpty(b: seq<Bytes>, off: nat)
    requires Shaped(b, off)
    ensures Content(b, off) == [] <==> b == []
  {
  }

  // ---- lines ----

  datatype LineResult = Line(line: Bytes) | TooLong | Suspended

  /** The shortest prefix that ends with the separator, or everything. */
  function LineOf(s: Bytes, sep: byte): Bytes {
    var i := IndexOf(s, sep);
    if i < 0 then s else s[..i + 1]
  }

  /** What has been collected while no separator was found, or once it was. */
  ghost predicate Scanned(chunk: Bytes, sep: byte, notEnough: bool) {
    if notEnough then sep !in chunk
    else chunk != [] && chunk[|chunk| - 1] == sep && sep !in chunk[..|chunk| - 1]
  }

  lemma ScanOn(chunk: Bytes, data: Bytes, sep: byte, found: bool)
    requires sep !in chunk && data != [] && sep !in data[..|data| - 1] && found == (data[|data| - 1] == sep)
    ensures Scanned(chunk + data, sep, !found)
  {
    assert data == data[..|data| - 1] + [data[|data| - 1]];
    assert (chunk + data)[..|chunk + data| - 1] == chunk + data[..|data| - 1];
  }

  lemma LineEnds(chunk: Bytes, sep: byte, rest: Bytes, notEnough: bool)
    requires Scanned(chunk, sep, notEnough) && (notEnough ==> rest == [])
    ensures LineOf(chunk + rest, sep) == chunk
  {
    if notEnough {
      assert chunk + rest == chunk;
    } else {
      var k := |chunk| - 1;
      assert chunk + rest == chunk[..k] + [sep] + rest;
      IndexOfUnique(chunk[..k], sep, rest);
    }
  }

  lemma LineStarts(chunk: Bytes, sep: byte, rest: Bytes)
    requires Scanned(chunk, sep, sep !in chunk)
    ensures chunk <= LineOf(chunk + rest, sep)
  {
    if sep in chunk {
      LineEnds(chunk, sep, rest, false);
    } else {
      var i := IndexOf(chunk + rest, sep);
      assert forall k | 0 <= k < |chunk| :: (chunk + rest)[k] == chunk[k];
    }
  }

  /** The marks that the reader has not passed. */
  function Unpassed(marks: seq<int>, cursor: int): seq<int> {
    if marks != [] && marks[0] < cursor then Unpassed(marks[1..], cursor) else marks
  }

  function AheadOf(splits: Option<seq<int>>, cursor: int): Option<seq<int>> {
    if splits.Some? then Some(Unpassed(splits.value, cursor)) else None
  }

  /** The marks that were not passed are still there, and new ones come after them. */
  ghost predicate MarksStay(before: Option<seq<int>>, after: Option<seq<int>>, cursor: int) {
    before.Some? ==> after.Some? && Unpassed(before.value, cursor) <= after.value
  }

  lemma {:induction false} UnpassedTwice(marks: seq<int>, c: int, d: int)
    requires c <= d
    ensures Unpassed(Unpassed(marks, c), d) == Unpassed(marks, d)
  {
    if marks != [] && marks[0] < c { UnpassedTwice(marks[1..], c, d); }
  }

  lemma {:induction false} UnpassedPrefix(a: seq<int>, b: seq<int>, c: int)
    requires a <= b
    ensures Unpassed(a, c) <= Unpassed(b, c)
  {
    if a != [] && a[0] < c { UnpassedPrefix(a[1..], b[1..], c); }
  }

  lemma MarksStayOn(a: Option<seq<int>>, b: Option<seq<int>>, d: Option<seq<int>>, c1: int, c2: int)
    requires MarksStay(a, b, c1) && MarksStay(b, d, c2) && c1 <= c2
    ensures MarksStay(a, d, c2)
  {
    if a.Some? {
      UnpassedTwice(a.value, c1, c2);
      UnpassedPrefix(Unpassed(a.value, c1), b.value, c2);
    }
  }

  lemma NonePassed(marks: seq<int>, c: int)
    requires marks != [] ==> c <= marks[0]
    ensures Unpassed(marks, c) == marks
  {
  }

  class StreamReader {
    var lowWater: nat
    var highWater: nat
    const lowWaterChunks: nat
    const highWaterChunks: nat
    var size: int
    var cursor: int
    var splits: Option<seq<int>>    // ends of the HTTP chunks not yet passed
    var buffer: seq<Bytes>
    var bufferOffset: nat
    var eof: bool
    var totalBytes: nat
    var readingPaused: bool         // of the protocol that feeds this buffer
    var patience: nat               // how often the producer still does something while the reader is suspended

    ghost var fed: Bytes            // all data fed
    ghost var taken: Bytes          // all data handed out
    ghost var pushed: bool          // some data was pushed back
    ghost var ends: set<int>        // all chunk ends ever marked
    ghost var due: int              // the chunk end up to which a piece was last promised
    ghost var resumes: nat          // how often reading was resumed

    /** The data not yet handed out. */
    ghost function Unread(): Bytes
      reads this
    {
      Content(buffer, bufferOffset)
    }

    /** The accounts of the buffer. */
    ghost predicate Balanced()
      reads this
    {
      && Shaped(buffer, bufferOffset)
      && size == |Unread()| && cursor + size == totalBytes && totalBytes == |fed|
      && (!pushed ==> fed == taken + Unread())
    }

    /** The marks lie ahead of the reader, in order; unless data was pushed back, no chunk end ahead is missing. */
    ghost predicate Marked()
      reads this
    {
      && (forall e | e in ends :: e <= totalBytes)
      && (splits.None? ==> ends == {})
      && (splits.Some? ==>
            && MarksIn(splits.value, cursor, totalBytes)
            && (forall i | 0 <= i < |splits.value| :: splits.value[i] in ends)
            && (!pushed ==> forall e | e in ends && cursor < e && e != due :: e in splits.value))
    }

    /** Reading is never left paused while there is nothing to read and the end has not been fed. */
    ghost predicate NoStall()
      reads this
    {
      readingPaused && !eof ==> buffer != []
    }

    ghost predicate Waters()
      reads this
    {
      0 < lowWater && highWater == 2 * lowWater && 4 <= highWaterChunks && lowWaterChunks == highWaterChunks / 2
    }

    ghost predicate Valid()
      reads this
    {
      Balanced() && Marked() && NoStall() && Waters()
    }

    constructor (limit: nat, patience: nat)
      requires limit > 0
      ensures Valid() && Delivered() && fed == [] && taken == [] && !pushed && !eof && !readingPaused && splits.None?
      ensures lowWater == limit && highWater == 2 * limit && buffer == [] && Unread() == [] && this.patience == patience
      ensures highWaterChunks == Max(4, limit / 16) && lowWaterChunks == highWaterChunks / 2
    {
      lowWater, highWater := limit, limit * 2;
      highWaterChunks := Max(4, limit / 16);
      lowWaterChunks := Max(4, limit / 16) / 2;
      size, cursor, splits, buffer, bufferOffset := 0, 0, None, [], 0;
      eof, totalBytes, readingPaused := false, 0, false;
      this.patience := patience;
      fed, taken, pushed, ends, due, resumes := [], [], false, {}, 0, 0;
    }

    method SetReadChunkSize(n: nat)
      requires Valid()
      modifies this`lowWater, this`highWater
      ensures Valid() && lowWater == Max(old(lowWater), n)
      ensures highWater == if n > old(lowWater) then n * 2 else old(highWater)
    {
      if n > lowWater {
        lowWater := n;
        highWater := n * 2;
      }
    }

    // ---- the producer's side ----

    method FeedData(data: Bytes)
      requires Valid() && !eof
      modifies this`size, this`buffer, this`totalBytes, this`readingPaused, this`fed
      ensures Valid() && fed == old(fed) + data && Unread() == old(Unread()) + data
      ensures buffer == if data == [] then old(buffer) else old(buffer) + [data]
      ensures readingPaused == (old(readingPaused) || (data != [] && size > highWater))
    {
      if data == [] {
        assert fed + data == fed && Unread() + data == Unread();
        return;
      }
      ContentPush(buffer, bufferOffset, data);
      Assoc(taken, Unread(), data);
      size := size + |data|;
      buffer := buffer + [data];
      totalBytes := totalBytes + |data|;
      fed := fed + data;
      if size > highWater { readingPaused := true; }
    }

    method BeginHttpChunkReceiving() returns (ok: bool)
      requires Valid()
      modifies this`splits
      ensures Valid() && ok == (old(splits).Some? || totalBytes == 0)
      ensures splits == if ok && old(splits).None? then Some([]) else old(splits)
    {
      if splits.None? {
        if totalBytes > 0 { return false; }
        splits := Some([]);
      }
      return true;
    }

    /** The marks after the end of a chunk: none is added where the last one already is. */
    function Mark(marks: seq<int>, total: nat): seq<int> {
      var last := if marks != [] then marks[|marks| - 1] else 0;
      if total == last then marks else marks + [total as int]
    }

    method EndHttpChunkReceiving() returns (ok: bool)
      requires Valid()
      modifies this`splits, this`readingPaused, this`ends
      ensures Valid() && ok == old(splits).Some? && old(ends) <= ends
      ensures ends == if ok && splits != old(splits) then old(ends) + {totalBytes as int} else old(ends)
      ensures splits == if ok then Some(Mark(old(splits).value, totalBytes)) else old(splits)
      ensures readingPaused == (old(readingPaused) || (splits != old(splits) && |splits.value| > highWaterChunks))
    {
      if splits.None? { return false; }
      var marks := splits.value;
      var pos := if marks != [] then marks[|marks| - 1] else 0;
      if totalBytes == pos { return true; }
      MarksPush(marks, cursor, totalBytes);
      splits := Some(marks + [totalBytes]);
      ends := ends + {totalBytes};
      if |splits.value| > highWaterChunks {
        MarksNeedRoom(splits.value, cursor, totalBytes);
        ContentEmpty(buffer, bufferOffset);
        readingPaused := true;
      }
      return true;
    }

    method FeedEof()
      requires Valid()
      modifies this`eof, this`readingPaused
      ensures Valid() && eof && !readingPaused
    {
      eof := true;
      readingPaused := false;
    }

    /** Chunk ends are only added, and only at or after the end of the data there was. */
    twostate predicate NewEnds()
      reads this
    {
      old(totalBytes) <= totalBytes && old(ends) <= ends && forall e | e in ends && e !in old(ends) :: old(totalBytes) <= e
    }

    method ProduceOne() returns (ghost m: Bytes)
      requires Valid() && !eof
      modifies this`size, this`buffer, this`totalBytes, this`readingPaused, this`fed, this`splits, this`ends, this`eof
      ensures Valid() && fed == old(fed) + m && Unread() == old(Unread()) + m && old(buffer) <= buffer && NewEnds()
      ensures old(splits).Some? ==> splits.Some? && old(splits).value <= splits.value
    {
      m := [];
      assert fed + [] == fed && Unread() + [] == Unread();
      var what: nat := *;
      if what == 0 {
        var data: Bytes := *;
        FeedData(data);
        m := data;
      } else if what == 1 {
        var ok := BeginHttpChunkReceiving();
      } else if what == 2 {
        var ok := EndHttpChunkReceiving();
      } else {
        FeedEof();
      }
    }

    /** The producer does whatever it likes: data, chunk boundaries, the end; none of it after the end. */
    method Produce() returns (ghost more: Bytes)
      requires Valid()
      modifies this`size, this`buffer, this`totalBytes, this`readingPaused, this`fed, this`splits, this`ends, this`eof
      ensures Valid() && fed == old(fed) + more && Unread() == old(Unread()) + more
      ensures old(buffer) <= buffer && (old(eof) ==> eof && more == [])
      ensures NewEnds()
      ensures old(splits).Some? ==> splits.Some? && old(splits).value <= splits.value
    {
      var n: nat := *;
      more := [];
      var i := 0;
      while i < n && !eof
        invariant Valid() && fed == old(fed) + more && Unread() == old(Unread()) + more
        invariant old(buffer) <= buffer && (old(eof) ==> eof && more == [])
        invariant NewEnds()
        invariant old(splits).Some? ==> splits.Some? && old(splits).value <= splits.value
        decreases n - i
      {
        ghost var m := ProduceOne();
        Assoc(old(fed), more, m); Assoc(old(Unread()), more, m);
        more := more + m;
        i := i + 1;
      }
    }

    /** Reading resumes; the parser may feed what it still holds, and may pause again, before this returns. */
    method ResumeReading() returns (ghost more: Bytes)
      requires Balanced() && Marked() && Waters()
      modifies this`size, this`buffer, this`totalBytes, this`readingPaused, this`fed, this`splits, this`ends, this`eof
      modifies this`resumes
      ensures resumes == old(resumes) + 1
      ensures Valid() && fed == old(fed) + more && Unread() == old(Unread()) + more
      ensures old(buffer) <= buffer && (old(eof) ==> eof && more == [])
      ensures NewEnds()
      ensures old(splits).Some? ==> splits.Some? && old(splits).value <= splits.value
    {
      readingPaused := false;
      resumes := resumes + 1;
      more := Produce();
    }

    // ---- the reader's side ----

    method UnreadData(data: Bytes)
      requires Valid()
      modifies this`buffer, this`bufferOffset, this`size, this`cursor, this`pushed
      ensures Valid() && Unread() == data + old(Unread()) && cursor == old(cursor) - |data|
    {
      if data == [] {
        assert data + Unread() == Unread();
        return;
      }
      if bufferOffset > 0 {
        var b := [buffer[0][bufferOffset..]] + buffer[1..];
        assert b[1..] == buffer[1..] && b[0][0..] == buffer[0][bufferOffset..];
        buffer := b;
        bufferOffset := 0;
      }
      var b := [data] + buffer;
      assert b[1..] == buffer;
      ContentPop(b);
      size := size + |data|;
      cursor := cursor - |data|;
      buffer := b;
      pushed := true;
    }

    /** Like `Marked`, except that the reader may have passed some marks. */
    ghost predicate Overtaken()
      reads this
    {
      && (forall e | e in ends :: e <= totalBytes)
      && (splits.None? ==> ends == {})
      && (splits.Some? ==>
            && (exists lo :: MarksIn(splits.value, lo, totalBytes))
            && (forall i | 0 <= i < |splits.value| :: splits.value[i] in ends)
            && (!pushed ==> forall e | e in ends && cursor < e && e != due :: e in splits.value))
    }

    /** Marks that the reader has passed are dropped, and only those. */
    method DropMarks()
      requires Overtaken()
      modifies this`splits
      ensures Marked() && splits.Some? == old(splits).Some?
      ensures splits.Some? ==> IsTail(old(splits).value, splits.value, cursor)
      ensures splits == AheadOf(old(splits), cursor)
    {
      if splits.Some? {
        var marks := splits.value;
        while marks != [] && marks[0] < cursor
          invariant Unpassed(marks, cursor) == Unpassed(old(splits).value, cursor)
          invariant |marks| <= |old(splits).value| && marks == old(splits).value[|old(splits).value| - |marks|..]
          invariant forall i | 0 <= i < |old(splits).value| - |marks| :: old(splits).value[i] < cursor
          decreases |marks|
        {
          marks := marks[1..];
        }
        splits := Some(marks);
      }
    }

    /** What a read leaves alone. */
    twostate predicate Kept()
      reads this
    {
      lowWater == old(lowWater) && highWater == old(highWater) && patience == old(patience) && pushed == old(pushed) && due == old(due)
    }

    /** The rest of the first string of the buffer, or its first `n` octets; a refill may happen before this returns. */
    method ReadNowaitChunk(n: int) returns (data: Bytes, ghost more: Bytes)
      requires Valid() && buffer != [] && n >= -1
      modifies this
      ensures Valid() && Kept()
      ensures fed == old(fed) + more && data + Unread() == old(Unread()) + more && (old(eof) ==> eof && more == [])
      ensures cursor == old(cursor) + |data| && taken == old(taken) + data && NewEnds() && MarksStay(old(splits), splits, cursor)
      ensures |data| == FrontLength(old(buffer), old(bufferOffset), n) && (n > 0 ==> 0 < |data| <= n)
      ensures data == old(buffer)[0][old(bufferOffset)..old(bufferOffset) + |data|]
      ensures n == -1 ==> old(buffer)[1..] <= buffer && bufferOffset == 0
      ensures var marks := AheadOf(old(splits), cursor);
              resumes == old(resumes)
                       + if old(size) - |data| < lowWater && (marks.None? || |marks.value| < lowWaterChunks) then 1 else 0
      ensures resumes == old(resumes) ==> more == [] && readingPaused == old(readingPaused)
    {
      data := TakeFront(n);
      ghost var u := Unread();
      more := Settle();
      Assoc(data, u, more);
    }

    /** The buffer gives up the front of its first string. */
    method TakeFront(n: int) returns (data: Bytes)
      requires Balanced() && buffer != [] && n >= -1
      modifies this`bufferOffset, this`buffer, this`size, this`cursor, this`taken
      ensures Balanced() && data + Unread() == old(Unread())
      ensures cursor == old(cursor) + |data| && taken == old(taken) + data && size == old(size) - |data|
      ensures |data| == FrontLength(old(buffer), old(bufferOffset), n)
      ensures data == old(buffer)[0][old(bufferOffset)..old(bufferOffset) + |data|]
      ensures n == -1 ==> buffer == old(buffer)[1..] && bufferOffset == 0
    {
      var k := FrontLength(buffer, bufferOffset, n);
      var (b1, off1) := Advance(buffer, bufferOffset, k);
      ContentAdvance(buffer, bufferOffset, k);
      data := buffer[0][bufferOffset..bufferOffset + k];
      Assoc(taken, data, Content(b1, off1));
      buffer, bufferOffset := b1, off1;
      size := size - |data|;
      cursor := cursor + |data|;
      taken := taken + data;
    }

    /** After a read: passed marks are dropped, and reading resumes below the low-water marks. */
    method Settle() returns (ghost more: Bytes)
      requires Balanced() && Waters()
      requires Overtaken()
      modifies this`size, this`buffer, this`totalBytes, this`readingPaused, this`fed, this`splits, this`ends, this`eof
      modifies this`resumes
      ensures var marks := AheadOf(old(splits), cursor);
              resumes == old(resumes) + if old(size) < lowWater && (marks.None? || |marks.value| < lowWaterChunks) then 1 else 0
      ensures resumes == old(resumes) ==> more == [] && readingPaused == old(readingPaused)
      ensures Valid() && fed == old(fed) + more && Unread() == old(Unread()) + more
      ensures old(buffer) <= buffer && (old(eof) ==> eof && more == [])
      ensures NewEnds() && MarksStay(old(splits), splits, cursor)
    {
      DropMarks();
      more := [];
      if size < lowWater && (splits.None? || |splits.value| < lowWaterChunks) {
        more := ResumeReading();
      } else {
        if size == 0 { MarksNeedRoom(splits.value, cursor, totalBytes); }
        ContentEmpty(buffer, bufferOffset);
        assert fed + [] == fed && Unread() + [] == Unread();
      }
    }

    /** `k` of the strings `b0` were drained into `data`, and `more` was added behind. */
    ghost predicate Draining(b0: seq<Bytes>, k: nat, u0: Bytes, data: Bytes, more: Bytes)
      requires k <= |b0|
      reads this
    {
      var ahead := Content(b0[k..], bufferOffset);
      b0[k..] <= buffer && u0 == data + ahead && Unread() == ahead + more
    }

    method DrainOne(ghost b0: seq<Bytes>, k: nat, ghost u0: Bytes, ghost data: Bytes, ghost more: Bytes)
      returns (chunk: Bytes, ghost m: Bytes)
      requires k < |b0| && Valid() && Draining(b0, k, u0, data, more)
      modifies this
      ensures Valid() && Kept() && fed == old(fed) + m && (old(eof) ==> eof && m == [])
      ensures cursor == old(cursor) + |chunk| && taken == old(taken) + chunk
      ensures Draining(b0, k + 1, u0, data + chunk, more + m)
    {
      ghost var b1, off := buffer, bufferOffset;
      chunk, m := ReadNowaitChunk(-1);
      DrainStep(b0, k, b1, off, chunk, buffer, u0, data, more, m, Unread());
    }

    lemma DrainDone(b0: seq<Bytes>, u0: Bytes, data: Bytes, more: Bytes)
      requires Draining(b0, |b0|, u0, data, more)
      ensures data == u0 && Unread() == more
    {
      assert b0[|b0|..] == [] && data + [] == data && [] + more == more;
    }

    /** Exactly what is buffered now; what a refill adds meanwhile stays. */
    method ReadAllNowait() returns (data: Bytes, ghost more: Bytes)
      requires Valid()
      modifies this
      ensures Valid() && Kept()
      ensures fed == old(fed) + more && Unread() == more && (old(eof) ==> eof && more == [])
      ensures data == old(Unread()) && cursor == old(cursor) + |data| && taken == old(taken) + data
    {
      data, more := [], [];
      var count := |buffer|;
      var k := 0;
      ghost var b0, u0 := buffer, Unread();
      assert b0[0..] == b0 && [] + u0 == u0 && u0 + [] == u0 && fed + [] == fed && taken + [] == taken;
      while k < count
        invariant 0 <= k <= count == |b0| && Valid() && Kept()
        invariant fed == old(fed) + more && (old(eof) ==> eof && more == [])
        invariant cursor == old(cursor) + |data| && taken == old(taken) + data
        invariant Draining(b0, k, u0, data, more)
      {
        var chunk;
        ghost var m;
        chunk, m := DrainOne(b0, k, u0, data, more);
        Assoc(old(fed), more, m); Assoc(old(taken), data, chunk);
        data, more := data + chunk, more + m;
        k := k + 1;
      }
      DrainDone(b0, u0, data, more);
    }

    /** At most `n` octets: fewer only if the buffer runs dry. */
    method ReadNowait(n: nat) returns (data: Bytes, ghost more: Bytes)
      requires Valid()
      modifies this
      ensures Valid() && Kept()
      ensures fed == old(fed) + more && data + Unread() == old(Unread()) + more && (old(eof) ==> eof && more == [])
      ensures cursor == old(cursor) + |data| && taken == old(taken) + data
      ensures |data| <= n && (|data| < n ==> buffer == []) && NewEnds() && MarksStay(old(splits), splits, cursor)
    {
      data, more := [], [];
      var left := n;
      if splits.Some? { NonePassed(splits.value, cursor); }
      assert [] + Unread() == Unread() + [] && fed + [] == fed && taken + [] == taken;
      while buffer != []
        invariant Valid() && Kept()
        invariant fed == old(fed) + more && data + Unread() == old(Unread()) + more && (old(eof) ==> eof && more == [])
        invariant cursor == old(cursor) + |data| && taken == old(taken) + data
        invariant left == n - |data| && left >= 0 && (left == 0 ==> n == 0) && NewEnds()
        invariant MarksStay(old(splits), splits, cursor)
        decreases left
      {
        ghost var u1, marks, c1 := Unread(), splits, cursor;
        var chunk;
        ghost var m;
        chunk, m := ReadNowaitChunk(left);
        MarksStayOn(old(splits), marks, splits, c1, cursor);
        Assoc(old(fed), more, m);
        Assoc(old(taken), data, chunk);
        Glue(old(Unread()), more, data, u1, chunk, m, Unread());
        data, more := data + chunk, more + m;
        left := left - |chunk|;
        if left == 0 { break; }
      }
    }

    /** The reader is suspended, and the producer does something and wakes it up; false if the producer is silent for ever. */
    method Wait() returns (woken: bool, ghost more: Bytes)
      requires Valid()
      modifies this
      ensures Valid() && lowWater == old(lowWater) && highWater == old(highWater) && pushed == old(pushed) && due == old(due)
      ensures fed == old(fed) + more && Unread() == old(Unread()) + more && (old(eof) ==> eof && more == [])
      ensures cursor == old(cursor) && taken == old(taken) && NewEnds()
      ensures if woken then patience < old(patience) else more == [] && unchanged(this)
    {
      if patience == 0 {
        assert fed + [] == fed && Unread() + [] == Unread();
        return false, [];
      }
      patience := patience - 1;
      more := Produce();
      woken := true;
    }

    /** Waits for data or for the end of the stream. */
    method AwaitData() returns (woken: bool, ghost more: Bytes)
      requires Valid()
      modifies this
      ensures Valid() && lowWater == old(lowWater) && highWater == old(highWater) && pushed == old(pushed) && due == old(due)
      ensures fed == old(fed) + more && Unread() == old(Unread()) + more && (old(eof) ==> eof && more == [])
      ensures cursor == old(cursor) && taken == old(taken) && patience <= old(patience)
      ensures woken <==> buffer != [] || eof
      ensures old(buffer) != [] || old(eof) ==> more == [] && unchanged(this)
    {
      more := [];
      assert fed + [] == fed && Unread() + [] == Unread();
      while buffer == [] && !eof
        invariant Valid() && lowWater == old(lowWater) && highWater == old(highWater) && pushed == old(pushed) && due == old(due)
        invariant fed == old(fed) + more && Unread() == old(Unread()) + more && (old(eof) ==> eof && more == [])
        invariant cursor == old(cursor) && taken == old(taken) && patience <= old(patience)
        invariant old(buffer) != [] || old(eof) ==> more == [] && unchanged(this)
        decreases patience
      {
        ghost var m;
        woken, m := Wait();
        Assoc(old(fed), more, m); Assoc(old(Unread()), more, m);
        more := more + m;
        if !woken { return; }
      }
      woken := true;
    }

    /** At most `n` octets; none only at the end of the stream. None stands for a read that never returns: there is nothing to
        read, the end was not fed, and the producer is silent. */
    method Read(n: nat) returns (r: Option<Bytes>, ghost more: Bytes)
      requires Valid()
      modifies this
      ensures Valid() && pushed == old(pushed) && due == old(due) && fed == old(fed) + more
      ensures old(eof) ==> eof && more == []
      ensures r.Some? ==> r.value + Unread() == old(Unread()) + more && cursor == old(cursor) + |r.value|
      ensures r.Some? ==> |r.value| <= n && (|r.value| < n ==> buffer == [])
      ensures r == Some([]) && n > 0 ==> eof && Unread() == []
      ensures r.None? ==> more == [] && buffer == [] && !eof && n > 0 && old(buffer) == []
    {
      if n == 0 {
        assert fed + [] == fed && [] + Unread() == Unread() + [];
        return Some([]), [];
      }
      SetReadChunkSize(n);
      var woken;
      woken, more := AwaitData();
      if !woken { return None, more; }
      var data;
      ghost var m;
      data, m := ReadNowait(n);
      Assoc(old(fed), more, m); Assoc(old(Unread()), more, m);
      more := more + m;
      return Some(data), more;
    }

    /** Whatever is buffered; nothing only at the end of the stream. */
    method ReadAny() returns (r: Option<Bytes>, ghost more: Bytes)
      requires Valid()
      modifies this
      ensures Valid() && pushed == old(pushed) && due == old(due) && fed == old(fed) + more && patience <= old(patience)
      ensures r.Some? ==> r.value + Unread() == old(Unread()) + more && cursor == old(cursor) + |r.value|
      ensures r == Some([]) ==> eof && Unread() == []
      ensures r.None? ==> more == [] && buffer == [] && !eof && old(buffer) == []
    {
      var woken;
      woken, more := AwaitData();
      if !woken { return None, more; }
      var data;
      ghost var m;
      ContentEmpty(buffer, bufferOffset);
      data, m := ReadAllNowait();
      Assoc(old(fed), more, m);
      more := more + m;
      return Some(data), more;
    }

    /** No piece that was promised is still outstanding. */
    ghost predicate Delivered()
      reads this
    {
      !pushed ==> due <= cursor
    }

    /** The next piece of the stream, and whether a chunk ends right after it. */
    method ReadChunk() returns (r: Option<(Bytes, bool)>, ghost more: Bytes)
      requires Valid() && Delivered()
      modifies this
      ensures Valid() && Delivered() && pushed == old(pushed) && fed == old(fed) + more
      ensures r.Some? ==> r.value.0 + Unread() == old(Unread()) + more && cursor == old(cursor) + |r.value.0|
      ensures r.Some? && r.value.1 ==> cursor in ends
      ensures r == Some(([], false)) ==> eof && Unread() == []
      ensures r.Some? && !pushed ==> forall e | e in ends :: !(old(cursor) < e < cursor)
      ensures r.None? ==> buffer == [] && !eof && old(buffer) == [] && !old(eof) && (splits.None? || splits.value == [])
      ensures r.None? ==> Unread() == old(Unread()) + more
    {
      more := [];
      assert fed + [] == fed && Unread() + [] == Unread();
      while true
        invariant Valid() && Delivered() && pushed == old(pushed) && cursor == old(cursor)
        invariant fed == old(fed) + more && Unread() == old(Unread()) + more
        invariant (old(buffer) != [] ==> buffer == old(buffer)) && (old(eof) ==> eof)
        decreases patience
      {
        if splits.Some? && splits.value != [] {
          ghost var m;
          var data;
          data, m := ReadToMark();
          Assoc(old(fed), more, m); Assoc(old(Unread()), more, m);
          more := more + m;
          return Some((data, true)), more;
        }
        if buffer != [] {
          ghost var m;
          var data;
          data, m := ReadNowaitChunk(-1);
          Assoc(old(fed), more, m); Assoc(old(Unread()), more, m);
          more := more + m;
          return Some((data, false)), more;
        }
        if eof {
          assert [] + Unread() == Unread();
          return Some(([], false)), more;
        }
        var woken;
        ghost var m;
        woken, m := Wait();
        Assoc(old(fed), more, m); Assoc(old(Unread()), more, m);
        more := more + m;
        if !woken { return None, more; }
      }
    }

    /** Everything up to the first mark ahead. A mark behind the reader, for which the source has a warning, does not
        occur. */
    method ReadToMark() returns (data: Bytes, ghost more: Bytes)
      requires Valid() && Delivered() && splits.Some? && splits.value != []
      modifies this
      ensures Valid() && Delivered() && pushed == old(pushed) && patience == old(patience)
      ensures fed == old(fed) + more && data + Unread() == old(Unread()) + more
      ensures cursor == old(cursor) + |data| == old(splits).value[0] && cursor in ends
      ensures splits.Some? && old(splits).value[1..] <= splits.value
      ensures !pushed ==> forall e | e in ends :: !(old(cursor) < e < cursor)
    {
      hide StreamReader.Marked, StreamReader.NoStall, StreamReader.Waters;
      var pos := PopMark();
      if pos == cursor {
        assert [] + Unread() == Unread() + [] && fed + [] == fed;
        return [], [];
      }
      data, more := ReadNowait(pos - cursor);
      ContentEmpty(buffer, bufferOffset);
      NonePassed(old(splits).value[1..], cursor);
    }

    /** The first mark is taken: that is where a piece ends. */
    method PopMark() returns (pos: int)
      requires Valid() && Delivered() && splits.Some? && splits.value != []
      modifies this`splits, this`due
      ensures Valid() && pos == old(splits).value[0] && splits == Some(old(splits).value[1..]) && due == pos
      ensures cursor <= pos <= totalBytes && pos in ends && (splits.value != [] ==> pos <= splits.value[0])
      ensures !pushed ==> forall e | e in ends && cursor < e :: pos <= e
    {
      pos := splits.value[0];
      splits := Some(splits.value[1..]);
      due := pos;
    }

    /** The stream up to and including the first separator, or all of it at its end, whatever strings it arrived in. A
        limit of 0 stands for the high-water mark. */
    method ReadUntil(sep: byte, maxSize: nat) returns (r: LineResult, ghost got: Bytes, ghost more: Bytes)
      requires Valid()
      modifies this
      ensures Valid() && pushed == old(pushed) && fed == old(fed) + more && got + Unread() == old(Unread()) + more
      ensures old(eof) ==> eof && more == []
      ensures var limit := if maxSize > 0 then maxSize else old(highWater);
              match r
              case Line(l) => l == got && |l| <= limit && l == LineOf(old(Unread()) + more, sep) && (sep !in l ==> eof && Unread() == [])
              case TooLong => |got| > limit && got <= LineOf(old(Unread()) + more, sep)
              case Suspended => sep !in got && |got| <= limit && old(Unread()) <= got && !eof && !old(eof) && Unread() == []
    {
      got, more := [], [];
      var chunk: Bytes := [];
      var notEnough := true;
      var limit := if maxSize > 0 then maxSize else highWater;
      assert [] + Unread() == Unread() + [] && fed + [] == fed;
      while notEnough
        invariant Valid() && pushed == old(pushed) && fed == old(fed) + more && chunk + Unread() == old(Unread()) + more
        invariant |chunk| <= limit && Scanned(chunk, sep, notEnough) && (old(eof) ==> eof && more == [])
        decreases patience, notEnough
      {
        ghost var m, u;
        chunk, notEnough, m := ScanBuffer(chunk, sep, limit);
        Assoc(old(fed), more, m); Assoc(old(Unread()), more, m);
        more := more + m;
        if |chunk| > limit {
          LineStarts(chunk, sep, Unread());
          got := chunk;
          return TooLong, got, more;
        }
        if eof { break; }
        if notEnough {
          var woken;
          u := Unread();
          assert u == [] && chunk + u == chunk;
          assert old(Unread()) <= old(Unread()) + more == chunk;
          woken, m := Wait();
          Assoc(old(fed), more, m);
          Assoc(chunk, u, m); Assoc(old(Unread()), more, m);
          more := more + m;
          if !woken {
            got := chunk;
            return Suspended, got, more;
          }
        }
      }
      got := chunk;
      LineEnds(chunk, sep, Unread(), notEnough);
      return Line(chunk), got, more;
    }

    /** Collects what is buffered, up to the separator or beyond the limit. */
    method ScanBuffer(chunk0: Bytes, sep: byte, limit: nat) returns (chunk: Bytes, notEnough: bool, ghost m: Bytes)
      requires Valid() && |chunk0| <= limit && sep !in chunk0
      modifies this
      ensures Valid() && Kept() && fed == old(fed) + m && chunk + Unread() == chunk0 + old(Unread()) + m
      ensures Scanned(chunk, sep, notEnough)
      ensures notEnough && |chunk| <= limit ==> buffer == []
      ensures old(eof) ==> eof && m == []
    {
      chunk, notEnough, m := chunk0, true, [];
      while buffer != [] && notEnough
        invariant Valid() && Kept() && fed == old(fed) + m && chunk + Unread() == chunk0 + old(Unread()) + m
        invariant |chunk| <= limit && Scanned(chunk, sep, notEnough) && (old(eof) ==> eof && m == [])
        decreases limit - |chunk|
      {
        var found, data;
        ghost var m1, u1 := [], Unread();
        found, data, m1 := ReadPiece(sep);
        Glue(chunk0 + old(Unread()), m, chunk, u1, data, m1, Unread());
        Assoc(old(fed), m, m1);
        ScanOn(chunk, data, sep, found);
        chunk, m, notEnough := chunk + data, m + m1, !found;
        if |chunk| > limit { return; }
      }
    }

    /** The first string of the buffer up to and including the separator, if it has one. */
    method ReadPiece(sep: byte) returns (found: bool, data: Bytes, ghost m: Bytes)
      requires Valid() && buffer != []
      modifies this
      ensures Valid() && Kept() && fed == old(fed) + m && data + Unread() == old(Unread()) + m && (old(eof) ==> eof && m == [])
      ensures data != [] && sep !in data[..|data| - 1] && found == (data[|data| - 1] == sep)
    {
      var rest := buffer[0][bufferOffset..];
      var i := IndexOf(rest, sep);
      if i >= 0 {
        data, m := ReadNowaitChunk(i + 1);
        assert |data| == i + 1;
        assert data == rest[..i + 1];
        assert data[..i] == rest[..i];
      } else {
        data, m := ReadNowaitChunk(-1);
        assert data == rest;
      }
      found := i >= 0;
    }
  }

  /** A line is the same, whatever follows its separator. */
  lemma LineOfMore(s: Bytes, sep: byte, more: Bytes)
    requires sep in s
    ensures LineOf(s + more, sep) == LineOf(s, sep)
  {
    var i := IndexOf(s, sep);
    assert s == s[..i] + [sep] + s[i + 1..];
    assert s + more == s[..i] + [sep] + (s[i + 1..] + more);
    IndexOfUnique(s[..i], sep, s[i + 1..] + more);
    assert (s + more)[..i + 1] == s[..i + 1];
  }

  /** Twice the limit of a new reader is what may be buffered before reading pauses, and how long a line may be. */
  method ReadFirstLine(limit: nat, patience: nat, pieces: seq<Bytes>, sep: byte) returns (paused: bool, r: LineResult)
    requires limit > 0 && sep in Concat(pieces)
    ensures paused <==> |Concat(pieces)| > 2 * limit
    ensures var line := LineOf(Concat(pieces), sep); r == if |line| <= 2 * limit then Line(line) else TooLong
  {
    hide LineOf, StreamReader.Balanced, StreamReader.Marked, StreamReader.NoStall;
    var reader := new StreamReader(limit, patience);
    for i := 0 to |pieces|
      invariant fresh(reader) && reader.Valid() && !reader.eof && reader.highWater == 2 * limit
      invariant reader.Unread() == Concat(pieces[..i]) && (reader.readingPaused <==> |Concat(pieces[..i])| > 2 * limit)
    {
      assert pieces[..i + 1] == pieces[..i] + [pieces[i]];
      ConcatAppend(pieces[..i], [pieces[i]]);
      ConcatOne(pieces[i]);
      reader.FeedData(pieces[i]);
      SizeIs(reader);
    }
    assert pieces[..|pieces|] == pieces;
    paused := reader.readingPaused;
    ghost var got, more;
    r, got, more := reader.ReadUntil(sep, 0);
    LineOfMore(Concat(pieces), sep, more);
  }

  lemma SizeIs(reader: StreamReader)
    requires reader.Valid()
    ensures reader.size == |reader.Unread()|
  {
  }

  /** The first of the strings still to be drained is taken. */
  lemma DrainStep(b0: seq<Bytes>, k: nat, b1: seq<Bytes>, off: nat, chunk: Bytes, b2: seq<Bytes>,
                  u0: Bytes, data: Bytes, more: Bytes, m: Bytes, u2: Bytes)
    requires k < |b0| && b0[k..] <= b1 && Shaped(b1, off) && b1[1..] <= b2
    requires chunk == b1[0][off..|b1[0]|]
    requires u0 == data + Content(b0[k..], off) && chunk + u2 == (Content(b0[k..], off) + more) + m
    ensures b0[k + 1..] <= b2
    ensures u0 == (data + chunk) + Content(b0[k + 1..], 0) && u2 == Content(b0[k + 1..], 0) + (more + m)
  {
    hide Content;
    var rest := b0[k..];
    assert rest[0] == b1[0] && rest[1..] == b0[k + 1..] && rest[1..] == b1[1..][..|rest| - 1];
    assert Shaped(rest, off) by { assert forall i | 0 <= i < |rest| :: rest[i] == b1[i]; }
    ContentAdvance(rest, off, |rest[0]| - off);
    TakeGlue(u0, data, chunk, Content(rest[1..], 0), more, m, u2);
  }

  /** Two consecutive reads account for the data together. */
  lemma Glue(u0: Bytes, m1: Bytes, data: Bytes, u1: Bytes, chunk: Bytes, m2: Bytes, u2: Bytes)
    requires data + u1 == u0 + m1 && chunk + u2 == u1 + m2
    ensures (data + chunk) + u2 == u0 + (m1 + m2)
  {
    assert (data + chunk) + u2 == data + (chunk + u2);
    assert data + (u1 + m2) == (data + u1) + m2;
    assert (u0 + m1) + m2 == u0 + (m1 + m2);
  }

  /** A string taken from the front leaves the rest in front of what was added behind. */
  lemma TakeGlue(u0: Bytes, data: Bytes, chunk: Bytes, rest: Bytes, more: Bytes, m: Bytes, u: Bytes)
    requires u0 == data + (chunk + rest) && chunk + u == ((chunk + rest) + more) + m
    ensures u0 == (data + chunk) + rest && u == rest + (more + m)
  {
    assert ((chunk + rest) + more) + m == chunk + (rest + (more + m));
    assert (chunk + u)[|chunk|..] == u && (chunk + (rest + (more + m)))[|chunk|..] == rest + (more + m);
    assert data + (chunk + rest) == (data + chunk) + rest;
  }
}
