/** The stream writer: what it puts on the wire is the header block once, then the body in its framing. */
module HttpWriter {
  import opened Bytes
  import opened HeadersParser
  import opened PayloadDecoding

  function HexChar(d: nat): byte
    requires d < 16
  {
    if d < 10 then 48 + d else 87 + d
  }

  /** A number in lower-case hexadecimal without leading zeros. */
  function Hex(n: nat): (s: Bytes)
    ensures s != []
  {
    if n < 16 then [HexChar(n)] else Hex(n / 16) + [HexChar(n % 16)]
  }

  lemma {:induction false} HexRoundTrip(n: nat)
    ensures AllHex(Hex(n)) && HexValue(Hex(n)) == n
  {
    if n < 16 {
      assert Hex(n)[..0] == [];
    } else {
      HexRoundTrip(n / 16);
      assert Hex(n)[..|Hex(n)| - 1] == Hex(n / 16);
    }
  }

  const LAST_CHUNK: Bytes := [48] + CRLF + CRLF

  function EncodeChunk(c: Bytes): Bytes { Hex(|c|) + CRLF + c + CRLF }

  /** The chunks in chunked coding, without the last chunk. */
  function EncodeChunks(cs: seq<Bytes>): Bytes {
    if cs == [] then [] else EncodeChunk(cs[0]) + EncodeChunks(cs[1..])
  }

  lemma {:induction false} EncodeChunksAppend(a: seq<Bytes>, b: seq<Bytes>)
    ensures EncodeChunks(a + b) == EncodeChunks(a) + EncodeChunks(b)
  {
    if a == [] {
      assert a + b == b;
    } else {
      EncodeChunksAppend(a[1..], b);
      assert (a + b)[1..] == a[1..] + b && (a + b)[0] == a[0];
      var c := EncodeChunk(a[0]);
      assert c + (EncodeChunks(a[1..]) + EncodeChunks(b)) == c + EncodeChunks(a[1..]) + EncodeChunks(b);
    }
  }

  lemma EncodeOneMore(cs: seq<Bytes>, c: Bytes)
    ensures EncodeChunks(cs + [c]) == EncodeChunks(cs) + EncodeChunk(c)
    ensures Concat(cs + [c]) == Concat(cs) + c
  {
    EncodeChunksAppend(cs, [c]);
    ConcatAppend(cs, [c]);
    assert EncodeChunks([c]) == EncodeChunk(c) + EncodeChunks([]);
  }

  /** The octets of one message: its header block if that was sent, and its body in the chosen framing. */
  function OnWire(head: Bytes, sent: bool, chunked: bool, cs: seq<Bytes>, finished: bool): Bytes {
    (if sent then head else [])
    + (if chunked then EncodeChunks(cs) else Concat(cs))
    + (if chunked && finished then LAST_CHUNK else [])
  }

  /** What one piece of payload adds to the wire, at the end or before it. */
  function Framing(chunked: bool, c: Bytes, last: bool): Bytes {
    if !chunked then c
    else (if c == [] then [] else EncodeChunk(c)) + (if last then LAST_CHUNK else [])
  }

  /** The wire grows by the framing of the piece. */
  lemma WireGrows(base: Bytes, head: Bytes, sent: bool, chunked: bool, cs: seq<Bytes>, c: Bytes, last: bool)
    ensures base + OnWire(head, sent, chunked, if c == [] then cs else cs + [c], last)
         == base + OnWire(head, sent, chunked, cs, false) + Framing(chunked, c, last)
  {
    EncodeOneMore(cs, c);
    var h := if sent then head else [];
    if chunked {
      ChunkedGrows(base, h, EncodeChunks(cs), if c == [] then [] else EncodeChunk(c), if last then LAST_CHUNK else []);
      assert EncodeChunks(cs) + [] == EncodeChunks(cs);
    } else {
      assert base + (h + (Concat(cs) + c) + []) == base + (h + Concat(cs) + []) + c;
      assert Concat(cs) + [] == Concat(cs);
    }
  }

  lemma ChunkedGrows(base: Bytes, h: Bytes, m: Bytes, e: Bytes, l: Bytes)
    ensures base + (h + (m + e) + l) == base + (h + m + []) + (e + l)
  {
  }

  /** A header block goes out with the first piece. */
  lemma WireStart(base: Bytes, head: Bytes, chunked: bool, c: Bytes, last: bool)
    ensures base + OnWire(head, true, chunked, if c == [] then [] else [c], last)
         == base + OnWire(head, false, chunked, [], false) + (head + Framing(chunked, c, last))
    ensures base + OnWire(head, false, chunked, [], false) == base
  {
    WireGrows(base, head, true, chunked, [], c, last);
    assert [] + [c] == [c];
    assert OnWire(head, true, chunked, [], false) == head;
    Assoc(base, head, Framing(chunked, c, last));
  }

  datatype WriteResult = Written | ConnectionReset | ValueError

  class StreamWriter {
    var length: Option<nat>
    var chunked: bool
    var eof: bool
    var headersBuf: Option<Bytes>
    var headersWritten: bool
    var bufferSize: nat
    var outputSize: nat
    var transportOpen: bool
    var wire: Bytes                 // what the transport was given

    ghost var base: Bytes           // the wire before the present message
    ghost var head: Bytes           // its header block
    ghost var sent: bool            // the header block is on the wire
    ghost var chunks: seq<Bytes>    // the pieces of its body on the wire
    ghost var finished: bool        // the last chunk is on the wire
    ghost var broken: bool          // a write was refused by the transport

    ghost predicate Valid()
      reads this
    {
      Framed() && (finished ==> eof)
    }

    ghost predicate Framed()
      reads this
    {
      && (!broken ==> wire == base + OnWire(head, sent, chunked, chunks, finished))
      && (forall k | 0 <= k < |chunks| :: chunks[k] != [])
      && (headersBuf.Some? ==> headersBuf.value == head && head != [] && !headersWritten && !sent && chunks == [] && !finished)
      && (sent ==> headersWritten && headersBuf.None?)
      && (broken ==> !transportOpen)
    }

    constructor ()
      ensures Valid() && wire == [] && !chunked && length.None? && !eof && headersBuf.None? && !headersWritten
      ensures base == [] && head == [] && chunks == [] && !sent && !finished && !broken && transportOpen
      ensures bufferSize == 0 && outputSize == 0
    {
      length, chunked, eof, headersBuf, headersWritten := None, false, false, None, false;
      bufferSize, outputSize, transportOpen, wire := 0, 0, true, [];
      base, head, sent, chunks, finished, broken := [], [], false, [], false, false;
    }

    method EnableChunking()
      requires Valid() && chunks == [] && !eof
      modifies this`chunked
      ensures Valid() && chunked
    {
      chunked := true;
    }

    /** The transport goes away (it does not come back). */
    method LoseTransport()
      requires Valid()
      modifies this`transportOpen
      ensures Valid() && !transportOpen
    {
      transportOpen := false;
    }

    /** A message is begun: its header block is kept until the first payload or the end. */
    method WriteHeaders(statusLine: Bytes, headers: seq<Header>) returns (r: WriteResult)
      requires Valid() && !eof
      modifies this
      ensures Valid() && wire == old(wire) && chunked == old(chunked) && length == old(length) && !eof
      ensures broken == old(broken) && transportOpen == old(transportOpen)
      ensures r == if SerializeHeaders(statusLine, headers).None? then ValueError else Written
      ensures r.Written? ==> headersBuf == SerializeHeaders(statusLine, headers) && head == headersBuf.value
      ensures r.Written? ==> base == wire && chunks == [] && !sent && !finished
    {
      hide OnWire;
      var buf := SerializeHeaders(statusLine, headers);
      if buf.None? { return ValueError; }
      headersWritten := false;
      headersBuf := buf;
      base, head, sent, chunks, finished := wire, buf.value, false, [], false;
      WireStart(base, head, chunked, [], false);
      return Written;
    }

    /** `_write` and `_writelines`: all pieces go to the transport as one string. */
    method Send(data: Bytes) returns (r: WriteResult)
      modifies this`bufferSize, this`outputSize, this`wire, this`broken
      ensures r == if transportOpen then Written else ConnectionReset
      ensures wire == if transportOpen then old(wire) + data else old(wire)
      ensures broken == (old(broken) || !transportOpen)
      ensures outputSize == old(outputSize) + |data| && bufferSize == old(bufferSize) + |data|
    {
      bufferSize := bufferSize + |data|;
      outputSize := outputSize + |data|;
      if !transportOpen {
        broken := true;
        return ConnectionReset;
      }
      wire := wire + data;
      return Written;
    }

    /** The kept header block goes out with a piece of payload, and with the last chunk at the end. */
    method SendHeadersWithPayload(chunk: Bytes, isEof: bool) returns (r: WriteResult)
      requires Framed() && headersBuf.Some? && !finished
      modifies this`headersBuf, this`headersWritten, this`bufferSize, this`outputSize, this`wire
      modifies this`sent, this`chunks, this`finished, this`broken
      ensures Framed() && headersBuf.None? && headersWritten && sent
      ensures chunks == if chunk == [] then [] else [chunk]
      ensures finished == (isEof && chunked && r.Written?) && r == if transportOpen then Written else ConnectionReset
    {
      hide Framing, EncodeChunks, Concat;
      headersWritten := true;
      var buf := headersBuf.value;
      headersBuf := None;
      sent := true;
      WireStart(base, head, chunked, chunk, isEof);
      r := Send(buf + Framing(chunked, chunk, isEof));
      chunks := if chunk == [] then [] else [chunk];
      finished := isEof && chunked && r.Written?;
    }

    /** A piece of payload; an announced length cuts off what exceeds it. */
    method Write(chunk: Bytes) returns (r: WriteResult)
      requires Valid() && !eof
      modifies this
      ensures Valid() && head == old(head) && base == old(base) && chunked == old(chunked) && !eof && !finished
      ensures transportOpen == old(transportOpen)
      ensures var piece := if old(length).Some? && old(length).value < |chunk| then chunk[..old(length).value] else chunk;
              && chunks == (if piece == [] then old(chunks) else old(chunks) + [piece])
              && length == (if old(length).None? then None else Some(old(length).value - |piece|))
              && (r.Written? <== transportOpen)
              && (old(headersBuf).Some? && (piece != [] || old(length).None?) ==> sent)
              && (old(sent) ==> sent)
              && (piece != [] && r.Written? ==> transportOpen)
    {
      var piece := chunk;
      if length.Some? {
        if length.value >= |piece| {
          length := Some(length.value - |piece|);
        } else {
          piece := piece[..length.value];
          length := Some(0);
          if piece == [] { return Written; }
        }
      }
      if headersBuf.Some? && !headersWritten {
        r := SendHeadersWithPayload(piece, false);
        assert [] + [piece] == [piece];
        return;
      }
      if piece == [] { return Written; }
      r := SendPiece(piece, false);
    }

    /** A piece of payload when no header block is waiting. */
    method SendPiece(piece: Bytes, isEof: bool) returns (r: WriteResult)
      requires Framed() && headersBuf.None? && !finished && piece != []
      modifies this`bufferSize, this`outputSize, this`wire, this`broken, this`chunks, this`finished
      ensures Framed() && chunks == old(chunks) + [piece] && finished == (isEof && chunked && r.Written?)
      ensures r == if transportOpen then Written else ConnectionReset
    {
      WireGrows(base, head, sent, chunked, chunks, piece, isEof);
      r := Send(Framing(chunked, piece, isEof));
      chunks := chunks + [piece];
      finished := isEof && chunked && r.Written?;
    }

    /** Forces a waiting header block out. */
    method SendHeaders() returns (r: WriteResult)
      requires Valid() && !eof
      modifies this
      ensures Valid() && head == old(head) && base == old(base) && chunks == old(chunks) && chunked == old(chunked)
      ensures !eof && !finished && length == old(length)
      ensures old(headersBuf).Some? ==> sent && r == if transportOpen then Written else ConnectionReset
      ensures old(headersBuf).None? ==> headersBuf.None? && r.Written? && sent == old(sent) && wire == old(wire)
      ensures transportOpen == old(transportOpen)
    {
      if headersBuf.None? || headersWritten { return Written; }
      r := SendHeadersWithPayload([], false);
    }

    /** The message ends without further payload. A chunked message whose header block was never written gets no last
        chunk. */
    method SetEof() returns (r: WriteResult)
      requires Valid()
      modifies this
      ensures Valid() && head == old(head) && base == old(base) && chunks == old(chunks) && chunked == old(chunked)
      ensures r.Written? ==> eof
      ensures !old(eof) && r.Written? ==> finished == (chunked && old(headersBuf.Some? || headersWritten))
      ensures old(eof) ==> wire == old(wire)
      ensures r.Written? <== transportOpen
      ensures transportOpen == old(transportOpen)
    {
      if eof { return Written; }
      if headersBuf.Some? && !headersWritten {
        r := SendHeadersWithPayload([], true);
      } else if chunked && headersWritten {
        r := SendLastChunk();
      } else {
        r := Written;
      }
      if r.Written? { eof := true; }
    }

    method SendLastChunk() returns (r: WriteResult)
      requires Framed() && headersBuf.None? && chunked && !finished
      modifies this`bufferSize, this`outputSize, this`wire, this`broken, this`finished
      ensures Framed() && finished == r.Written? && r == if transportOpen then Written else ConnectionReset
    {
      WireGrows(base, head, sent, chunked, chunks, [], true);
      assert [] + LAST_CHUNK == LAST_CHUNK;
      r := Send(LAST_CHUNK);
      finished := r.Written?;
    }

    /** The message ends with a last piece of payload, which is not cut to the announced length. */
    method WriteEof(chunk: Bytes) returns (r: WriteResult)
      requires Valid()
      modifies this
      ensures Valid() && head == old(head) && base == old(base) && chunked == old(chunked)
      ensures r.Written? ==> eof
      ensures !old(eof) && r.Written? ==>
                finished == chunked && chunks == if chunk == [] then old(chunks) else old(chunks) + [chunk]
      ensures old(eof) ==> wire == old(wire)
      ensures r.Written? <== transportOpen
      ensures (!old(eof) && old(headersBuf).Some?) || old(sent) ==> sent
      ensures transportOpen == old(transportOpen)
    {
      if eof { return Written; }
      if headersBuf.Some? && !headersWritten {
        r := SendHeadersWithPayload(chunk, true);
        assert [] + [chunk] == [chunk];
      } else if chunk != [] {
        r := SendPiece(chunk, true);
      } else if chunked {
        r := SendLastChunk();
      } else {
        r := Written;
      }
      if r.Written? { eof := true; }
    }
  }
}
