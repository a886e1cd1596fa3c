/** The base64 encoding of a body part (section 4 of RFC 4648), made while its data arrives in pieces. */
module Base64 {
  import opened Bytes

  const PAD: byte := 61

  /** The alphabet: letters, digits, plus and slash. */
  function Symbol(v: nat): byte
    requires v < 64
  {
    if v < 26 then 65 + v else if v < 52 then 71 + v else if v < 62 then v - 4 else if v == 62 then 43 else 47
  }

  function Value(c: byte): Option<nat> {
    if 65 <= c <= 90 then Some(c - 65) else if 97 <= c <= 122 then Some(c - 71) else if 48 <= c <= 57 then Some(c + 4)
    else if c == 43 then Some(62) else if c == 47 then Some(63) else None
  }

  lemma SymbolValue(v: nat)
    requires v < 64
    ensures Value(Symbol(v)) == Some(v) && Symbol(v) != PAD
  {
  }

  /** Three octets give four symbols; at the end, one gives two and two give three, padded. */
  function Encode(s: Bytes): Bytes {
    if s == [] then []
    else if |s| == 1 then [Symbol(s[0] / 4), Symbol(s[0] % 4 * 16), PAD, PAD]
    else if |s| == 2 then [Symbol(s[0] / 4), Symbol(s[0] % 4 * 16 + s[1] / 16), Symbol(s[1] % 16 * 4), PAD]
    else Group(s[0], s[1], s[2]) + Encode(s[3..])
  }

  function Group(x: byte, y: byte, z: byte): Bytes {
    [Symbol(x / 4), Symbol(x % 4 * 16 + y / 16), Symbol(y % 16 * 4 + z / 64), Symbol(z % 64)]
  }

  /** Only whole groups are accepted, padding only in the last one, and no stray bits before it. */
  function Decode(s: Bytes): Option<Bytes> {
    if s == [] then Some([])
    else if |s| < 4 then None
    else
      var a, b, c, d := Value(s[0]), Value(s[1]), Value(s[2]), Value(s[3]);
      if a == None || b == None then None
      else if s[2] == PAD then
        if s[3] == PAD && |s| == 4 && b.value % 16 == 0 then Some([One(a.value, b.value)]) else None
      else if c == None then None
      else if s[3] == PAD then
        if |s| == 4 && c.value % 4 == 0 then Some([One(a.value, b.value), Two(b.value, c.value)]) else None
      else if d == None then None
      else
        var rest := Decode(s[4..]);
        if rest == None then None
        else Some([One(a.value, b.value), Two(b.value, c.value), Three(c.value, d.value)] + rest.value)
  }

  function One(a: nat, b: nat): byte { (a * 4 + b / 16) % 256 }

  function Two(b: nat, c: nat): byte { (b % 16 * 16 + c / 4) % 256 }

  function Three(c: nat, d: nat): byte { (c % 4 * 64 + d) % 256 }

  lemma Bits(x: byte, y: byte, z: byte)
    ensures One(x / 4, x % 4 * 16 + y / 16) == x
    ensures Two(x % 4 * 16 + y / 16, y % 16 * 4 + z / 64) == y
    ensures Three(y % 16 * 4 + z / 64, z % 64) == z
  {
    hide One, Two, Three;
    BitsOne(x, y);
    BitsTwo(x, y, z);
    BitsThree(y, z);
  }

  lemma BitsOne(x: byte, y: byte)
    ensures One(x / 4, x % 4 * 16 + y / 16) == x
  {
    Sixteens(x % 4, y / 16);
  }

  lemma BitsTwo(x: byte, y: byte, z: byte)
    ensures Two(x % 4 * 16 + y / 16, y % 16 * 4 + z / 64) == y
  {
    Sixteens(x % 4, y / 16);
    Fours(y % 16, z / 64);
  }

  lemma BitsThree(y: byte, z: byte)
    ensures Three(y % 16 * 4 + z / 64, z % 64) == z
  {
    Fours(y % 16, z / 64);
  }

  lemma Sixteens(u: nat, v: nat)
    requires v < 16
    ensures (u * 16 + v) / 16 == u && (u * 16 + v) % 16 == v
  {
  }

  lemma Fours(u: nat, v: nat)
    requires v < 4
    ensures (u * 4 + v) / 4 == u && (u * 4 + v) % 4 == v
  {
  }

  lemma DecodeGroup(a: nat, b: nat, c: nat, d: nat, e: Bytes, r: Bytes)
    requires a < 64 && b < 64 && c < 64 && d < 64 && Decode(e) == Some(r)
    ensures Decode([Symbol(a), Symbol(b), Symbol(c), Symbol(d)] + e) == Some([One(a, b), Two(b, c), Three(c, d)] + r)
  {
    hide Symbol, Value, One, Two, Three;
    SymbolValue(a);
    SymbolValue(b);
    SymbolValue(c);
    SymbolValue(d);
    assert ([Symbol(a), Symbol(b), Symbol(c), Symbol(d)] + e)[4..] == e;
  }

  lemma DecodeLast(a: nat, b: nat, c: nat)
    requires a < 64 && b < 64 && c < 64
    ensures b % 16 == 0 ==> Decode([Symbol(a), Symbol(b), PAD, PAD]) == Some([One(a, b)])
    ensures c % 4 == 0 ==> Decode([Symbol(a), Symbol(b), Symbol(c), PAD]) == Some([One(a, b), Two(b, c)])
  {
    hide Symbol, Value, One, Two;
    SymbolValue(a);
    SymbolValue(b);
    SymbolValue(c);
  }

  /** Decoding undoes encoding. */
  lemma {:induction false} RoundTrip(s: Bytes)
    ensures Decode(Encode(s)) == Some(s)
    decreases |s|
  {
    hide Symbol, Value, One, Two, Three, Decode;
    if s == [] {
      DecodeNothing();
    } else if |s| == 1 {
      Bits(s[0], 0, 0);
      DecodeLast(s[0] / 4, s[0] % 4 * 16, 0);
      assert s == [s[0]];
    } else if |s| == 2 {
      Bits(s[0], s[1], 0);
      DecodeLast(s[0] / 4, s[0] % 4 * 16 + s[1] / 16, s[1] % 16 * 4);
      assert s == [s[0], s[1]];
    } else {
      Bits(s[0], s[1], s[2]);
      RoundTrip(s[3..]);
      DecodeGroup(s[0] / 4, s[0] % 4 * 16 + s[1] / 16, s[1] % 16 * 4 + s[2] / 64, s[2] % 64, Encode(s[3..]), s[3..]);
      assert s == [s[0], s[1], s[2]] + s[3..];
    }
  }

  /** The alphabet as section 4 of RFC 4648 lists it, and its inverse. */
  lemma AlphabetIs(v: nat, c: byte)
    requires v < 64
    ensures v < 26 ==> Symbol(v) == 'A' as int + v
    ensures 26 <= v < 52 ==> Symbol(v) == 'a' as int + (v - 26)
    ensures 52 <= v < 62 ==> Symbol(v) == '0' as int + (v - 52)
    ensures Symbol(62) == '+' as int && Symbol(63) == '/' as int && PAD == '=' as int
    ensures Value(c) == Some(v) <==> c == Symbol(v)
  {
  }

  lemma ValueRange(c: byte)
    ensures Value(c).Some? ==> Value(c).value < 64 && Symbol(Value(c).value) == c
  {
  }

  lemma Regroup(a: nat, b: nat, c: nat, d: nat)
    requires a < 64 && b < 64 && c < 64 && d < 64
    ensures One(a, b) / 4 == a && One(a, b) % 4 == b / 16
    ensures Two(b, c) / 16 == b % 16 && Two(b, c) % 16 == c / 4
    ensures Three(c, d) / 64 == c % 4 && Three(c, d) % 64 == d
  {
    Fours(a, b / 16);
    Sixteens(b % 16, c / 4);
    Sixtyfours(c % 4, d);
  }

  lemma Sixtyfours(u: nat, v: nat)
    requires v < 64
    ensures (u * 64 + v) / 64 == u && (u * 64 + v) % 64 == v
  {
  }

  lemma Halves(b: nat, c: nat)
    ensures b / 16 * 16 + b % 16 == b && c / 4 * 4 + c % 4 == c
  {
  }

  /** Nothing else is decoded than what is an encoding. */
  lemma {:induction false} DecodeOnly(t: Bytes)
    requires Decode(t).Some?
    ensures Encode(Decode(t).value) == t
    decreases |t|
  {
    hide Symbol, Value, One, Two, Three;
    if t != [] {
      var a, b, c, d := Value(t[0]), Value(t[1]), Value(t[2]), Value(t[3]);
      ValueRange(t[0]);
      ValueRange(t[1]);
      ValueRange(t[2]);
      ValueRange(t[3]);
      if t[2] == PAD {
        Regroup(a.value, b.value, 0, 0);
        Halves(b.value, 0);
        assert t == [t[0], t[1], PAD, PAD];
      } else if t[3] == PAD {
        Regroup(a.value, b.value, c.value, 0);
        Halves(b.value, c.value);
        assert t == [t[0], t[1], t[2], PAD];
      } else {
        Regroup(a.value, b.value, c.value, d.value);
        Halves(b.value, c.value);
        DecodeOnly(t[4..]);
        var rest := Decode(t[4..]).value;
        var group := [One(a.value, b.value), Two(b.value, c.value), Three(c.value, d.value)];
        assert (group + rest)[3..] == rest;
        assert t == [t[0], t[1], t[2], t[3]] + t[4..];
      }
    }
  }

  /** Exactly the encodings are decoded. */
  lemma DecodeIff(t: Bytes, s: Bytes)
    ensures Decode(t) == Some(s) <==> t == Encode(s)
  {
    RoundTrip(s);
    if Decode(t).Some? { DecodeOnly(t); }
  }

  lemma EncodeNothing()
    ensures Encode([]) == []
  {
  }

  lemma DecodeNothing()
    ensures Decode([]) == Some([])
  {
  }

  /** Whole groups are encoded by themselves. */
  lemma {:induction false} EncodeAppend(a: Bytes, b: Bytes)
    requires |a| % 3 == 0
    ensures Encode(a + b) == Encode(a) + Encode(b)
    decreases |a|
  {
    hide Group;
    if a == [] {
      assert a + b == b && Encode(a) + Encode(b) == Encode(b);
    } else {
      EncodeAppend(a[3..], b);
      assert (a + b)[3..] == a[3..] + b;
      Assoc(Group(a[0], a[1], a[2]), Encode(a[3..]), Encode(b));
    }
  }

  /** What a write adds: the whole groups of what was held back and what is new. */
  lemma Held(done: Bytes, held: Bytes, chunk: Bytes)
    requires |done| % 3 == 0
    ensures var buf := held + chunk;
            var n := |buf| / 3 * 3;
            && |done + buf[..n]| % 3 == 0 && |buf[n..]| <= 2
            && (done + held) + chunk == (done + buf[..n]) + buf[n..]
            && Encode(done + buf[..n]) == Encode(done) + (if buf[..n] == [] then [] else Encode(buf[..n]))
            && (buf[..n] == [] ==> buf[n..] == buf)
  {
    hide Encode;
    var buf := held + chunk;
    var n := |buf| / 3 * 3;
    EncodeAppend(done, buf[..n]);
    Assoc(done, held, chunk);
    Assoc(done, buf[..n], buf[n..]);
    assert buf == buf[..n] + buf[n..];
    if buf[..n] == [] {
      EncodeNothing();
      assert Encode(done) + [] == Encode(done);
    }
  }

  class PayloadWriter {
    var encodingBuffer: Bytes
    var wire: Bytes
    ghost var data: Bytes      // everything written so far

    /** What is on the wire encodes all the data but the last octets, at most two of them, which are held back. */
    ghost predicate Valid()
      reads this
    {
      && |encodingBuffer| <= 2
      && exists done :: |done| % 3 == 0 && data == done + encodingBuffer && wire == Encode(done)
    }

    constructor ()
      ensures Valid() && data == [] && wire == []
    {
      encodingBuffer, wire, data := [], [], [];
      new;
      assert [] + encodingBuffer == data && wire == Encode([]);
    }

    method Write(chunk: Bytes)
      requires Valid()
      modifies this
      ensures Valid() && data == old(data) + chunk
    {
      hide Encode;
      ghost var done :| |done| % 3 == 0 && data == done + encodingBuffer && wire == Encode(done);
      var buf := encodingBuffer + chunk;
      Held(done, encodingBuffer, chunk);
      data := data + chunk;
      encodingBuffer := buf;
      if buf != [] {
        var div := |buf| / 3;
        var encChunk := buf[..div * 3];
        encodingBuffer := buf[div * 3..];
        if encChunk != [] { wire := wire + Encode(encChunk); }
      }
    }

    /** However the data was split, what was written in all is the encoding of all of it. */
    method WriteEof()
      requires Valid()
      modifies this`wire
      ensures wire == Encode(data) && Decode(wire) == Some(data)
    {
      ghost var done :| |done| % 3 == 0 && data == done + encodingBuffer && wire == Encode(done);
      EncodeAppend(done, encodingBuffer);
      RoundTrip(data);
      if encodingBuffer != [] { wire := wire + Encode(encodingBuffer); }
    }
  }
}
