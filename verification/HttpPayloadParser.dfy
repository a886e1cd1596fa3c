/** The incremental payload parser: fed in pieces, paused and resumed, it follows the one-shot decoder. */
module HttpPayloadParser {
  import opened Bytes
  import opened HeadersParser
  import opened PayloadDecoding

  datatype FeedError = LineTooLong | TransferEncodingError | BadHttpMessage | InvalidHeader

  datatype FeedResult =
    | Complete(rest: Bytes)
    | NeedsInput
    | Pending
    | Raised(error: FeedError)

  datatype ParseState = ParseLength | ParseChunked | ParseUntilEof

  datatype ChunkState = ParseSize | ParseChunk | ParseChunkEof | ParseTrailers

  /** The consumer of the payload. It may ask for a pause at any time, and it may answer that more output is pending
      (a decompressor does), though only finitely often. */
  class Consumer {
    var log: seq<Signal>
    var patience: nat

    ghost var asked: nat    // how often it asked for a pause
    ghost var fedSince: nat // how often it was fed since it last did

    constructor (patience: nat)
      ensures log == [] && this.patience == patience
    {
      log, this.patience, asked, fedSince := [], patience, 0, 0;
    }

    /** What serving the payload of one message does to the consumer: no message is announced. */
    twostate predicate Served()
      reads this
    {
      HeadCount(log) == HeadCount(old(log)) && old(asked) <= asked && patience <= old(patience)
    }

    method FeedData(data: Bytes) returns (more: bool, pause: bool)
      modifies this
      ensures log == old(log) + Octets(data) && Served() && asked == old(asked) + if pause then 1 else 0
      ensures if more then patience < old(patience) else patience == old(patience)
      ensures fedSince == if pause then 0 else old(fedSince) + 1
    {
      HeadCountOctets(log, data);
      log := log + Octets(data);
      pause := *;
      more := *;
      if patience == 0 { more := false; }
      if more { patience := patience - 1; }
      fedSince := fedSince + 1;
      if pause { asked, fedSince := asked + 1, 0; }
    }

    /** A message is queued, or its payload is given up; this does not ask for a pause. */
    method Announce(sig: Signal)
      modifies this`log
      ensures log == old(log) + [sig]
      ensures HeadCount(log) == HeadCount(old(log)) + if sig.Head? then 1 else 0
    {
      HeadCountOne(log, sig);
      log := log + [sig];
    }

    method Signal(sig: Signal) returns (pause: bool)
      requires !sig.Head?
      modifies this
      ensures log == old(log) + [sig] && Served() && asked == old(asked) + if pause then 1 else 0
      ensures patience == old(patience) && fedSince == if pause then 0 else old(fedSince)
    {
      HeadCountOne(log, sig);
      log := log + [sig];
      pause := *;
      if pause { asked, fedSince := asked + 1, 0; }
    }
  }

  class HttpPayloadParser {
    const p: Policy
    const payload: Consumer
    const mode: ParseState
    var chunk: ChunkState
    var chunkSize: nat
    var chunkTail: Bytes
    var length: nat
    var paused: bool
    var moreData: bool
    var trailerLines: seq<Bytes>
    var eofPending: bool
    var done: bool

    ghost const init: BodyState         // the state before any input
    ghost const base: seq<Signal>       // what the consumer had been told before
    ghost var fed: Bytes                // all input so far
    ghost var emitted: seq<Signal>      // all signals so far

    ghost function State(): BodyState
      reads this`length, this`chunk, this`chunkSize, this`trailerLines
    {
      match mode
      case ParseLength => Fixed(length)
      case ParseUntilEof => UntilEof
      case ParseChunked =>
        match chunk
        case ParseSize => Size
        case ParseChunk => Chunk(chunkSize)
        case ParseChunkEof => ChunkEof
        case ParseTrailers => Trailers(trailerLines)
    }

    /** Everything fed so far amounts to the signals emitted, the present state, and `s` still to be decoded. */
    ghost predicate At(s: Bytes)
      reads this`length, this`chunk, this`chunkSize, this`trailerLines, this`moreData, this`fed, this`emitted, payload`log
    {
      && !p.tight
      && payload.log == base + emitted
      && WellFormed(State()) && WellFormed(init)
      && (mode.ParseChunked? && moreData ==> chunk.ParseChunk?)
      && (mode.ParseUntilEof? ==> init == UntilEof && s == [])
      && Advances(p, init, fed, emitted, State(), s)
    }

    /** Between calls. */
    ghost predicate Valid()
      reads this, payload
    {
      && At(chunkTail)
      && (mode.ParseChunked? && !chunk.ParseChunk? ==> Quiet(p, State(), chunkTail))
      && (mode.ParseChunked? && chunk.ParseChunk? && chunkSize == 0 ==> moreData)
      && (mode.ParseLength? && length == 0 ==> moreData)
      && !done
    }

    lemma LogIsAccounted()
      requires Valid()
      ensures payload.log == base + emitted
    {
    }

    constructor (p: Policy, mode: ParseState, length: nat, payload: Consumer)
      requires !p.tight && (mode.ParseLength? ==> length > 0)
      ensures Valid() && this.p == p && this.payload == payload && this.mode == mode
      ensures base == payload.log && fed == [] && emitted == [] && !moreData && !eofPending && chunkTail == []
      ensures init == if mode.ParseLength? then Fixed(length) else if mode.ParseChunked? then Size else UntilEof
      ensures State() == init && !paused
    {
      this.p, this.payload, this.mode, this.length := p, payload, mode, length;
      chunk, chunkSize, chunkTail := ParseSize, 0, [];
      paused, moreData, trailerLines, eofPending, done := false, false, [], false, false;
      init := if mode.ParseLength? then Fixed(length) else if mode.ParseChunked? then Size else UntilEof;
      base, fed, emitted := payload.log, [], [];
      new;
      AdvancesRefl(p, init, []);
      assert base + [] == base;
    }

    /** What is left to be done: octets kept, and output that the consumer may still have pending. */
    ghost function Left(): nat
      reads this`chunkTail, this`moreData, payload`patience
    {
      |chunkTail| + Owing()
    }

    ghost function Owing(): nat
      reads this`moreData, payload`patience
    {
      2 * payload.patience + if moreData then 1 else 0
    }

    /** The consumer was served, and whoever asked for a pause is the consumer. */
    twostate predicate Serves()
      reads this`paused, payload
    {
      payload.Served() && (paused ==> old(paused) || old(payload.asked) < payload.asked)
    }

    /** A pause is heeded: a consumer that asked for one is fed nothing more in this call. */
    twostate predicate Heeds()
      reads payload
    {
      old(payload.asked) < payload.asked ==> payload.fedSince == 0
    }

    /** While a call goes on, whoever asked for a pause waits for it to end. */
    twostate predicate Heeding()
      reads this`paused, payload
    {
      Heeds() && paused == (old(paused) || old(payload.asked) < payload.asked)
    }

    /** A call on `n` new octets has ended before its time: somebody had asked for a pause, which is over now, and unless
        that was before the call, less is left to be done. */
    twostate predicate Yields(n: nat)
      reads this, payload
    {
      && Serves() && !paused && (old(paused) || old(payload.asked) < payload.asked)
      && Left() <= old(Left()) + n && (!old(paused) ==> Left() < old(Left()) + n)
      && !OverLimit(p, State(), chunkTail)
    }

    method PauseReading()
      requires Valid()
      modifies this`paused
      ensures Valid() && paused
    {
      paused := true;
    }

    /** Hands payload to the consumer. */
    method Deliver(data: Bytes)
      modifies this`moreData, this`paused, this`emitted, payload
      requires payload.log == base + emitted
      ensures payload.log == base + emitted && emitted == old(emitted) + Octets(data)
      ensures if moreData then payload.patience < old(payload.patience) else payload.patience == old(payload.patience)
      ensures Serves() && paused == (old(paused) || old(payload.asked) < payload.asked)
      ensures old(payload.asked) < payload.asked ==> payload.fedSince == 0
    {
      var pause;
      moreData, pause := payload.FeedData(data);
      if pause { paused := true; }
      emitted := emitted + Octets(data);
    }

    method Tell(sig: Signal)
      modifies this`paused, this`emitted, payload
      requires payload.log == base + emitted && !sig.Head?
      ensures Serves() && Heeding() && (old(payload.asked) == payload.asked ==> payload.fedSince == old(payload.fedSince))
      ensures payload.log == base + emitted && emitted == old(emitted) + [sig]
      ensures payload.patience == old(payload.patience)
    {
      var pause := payload.Signal(sig);
      if pause { paused := true; }
      emitted := emitted + [sig];
    }

    /** Lets the consumer produce its pending output; true when a pause is asked for before it is done. */
    method Flush() returns (pending: bool)
      modifies this`moreData, this`paused, payload
      ensures payload.log == old(payload.log) && Serves() && Owing() <= old(Owing())
      ensures old(moreData) && !moreData ==> Owing() < old(Owing())
      ensures pending == moreData && Heeds() && (!pending ==> Heeding()) && (old(paused || !moreData) ==> unchanged(payload))
      ensures pending ==> !paused && (old(paused) || old(payload.asked) < payload.asked)
      ensures pending && !old(paused) ==> Owing() < old(Owing())
    {
      while moreData
        invariant payload.log == old(payload.log) && Serves() && Owing() <= old(Owing())
        invariant paused && !old(paused) ==> Owing() < old(Owing())
        invariant Heeding() && (old(paused || !moreData) ==> unchanged(payload))
        invariant old(moreData) && !moreData ==> Owing() < old(Owing())
        decreases payload.patience + if moreData then 1 else 0
      {
        if paused {
          paused := false;
          return true;
        }
        var pause;
        moreData, pause := payload.FeedData([]);
        assert payload.log == old(payload.log) + Octets([]) == old(payload.log);
        if pause { paused := true; }
      }
      return false;
    }

    /** The parser is fed `data`; with an empty `data` it resumes after a pause. */
    method FeedData(data: Bytes) returns (r: FeedResult)
      requires Valid()
      modifies this, payload
      ensures fed == old(fed) + data
      ensures payload.log == base + emitted
      ensures eofPending == (old(eofPending) && !(mode.ParseUntilEof? && r.Complete?))
      ensures mode.ParseUntilEof? ==> done == r.Complete? && !r.Raised? && (r.NeedsInput? ==> !eofPending)
      ensures r.Complete? && !mode.ParseUntilEof? ==> |r.rest| + Owing() < old(Left()) + |data|
      ensures r.Raised? ==> |old(chunkTail)| + |data| > 0
      ensures match r
              case Complete(rest) =>
                if mode.ParseUntilEof? then old(eofPending) && rest == [] && emitted == Octets(fed) + [Eof]
                else Run(p, init, fed) == Done(emitted, rest)
              case NeedsInput => Valid() && Run(p, init, fed) == Need(emitted, State(), chunkTail)
              case Pending => Valid() && Yields(|data|)
              case Raised(_) => Run(Tighten(p), init, fed).Fail?
      ensures old(chunkTail != [] && OverLimit(p, State(), chunkTail)) ==> r == Raised(LineTooLong)
      ensures r.Raised? ==> old(chunkTail != [] && OverLimit(p, State(), chunkTail)) || Run(p, init, fed).Fail?
      ensures r.Complete? ==> |r.rest| <= |old(chunkTail)| + |data|
      ensures Serves() && Heeds()
    {
      AdvancesFed(p, init, fed, emitted, State(), chunkTail, data);
      match mode
      case ParseLength => r := FeedLength(data);
      case ParseChunked => r := FeedChunked(data);
      case ParseUntilEof => r := FeedUntilEof(data);
    }

    /** A call and the resumes after it. However often a pause is asked for, there are only finitely many, and then all
        that can be decoded of the input has been handed to the consumer. */
    method FeedFully(data: Bytes) returns (r: FeedResult)
      requires Valid() && !eofPending
      modifies this, payload
      ensures fed == old(fed) + data && !eofPending && Serves()
      ensures payload.log == base + emitted
      ensures var now := FeedOnce(p, old(State()), old(chunkTail), data);
              match r
              case Complete(rest) => old(emitted) <= emitted && now == Done(emitted[|old(emitted)|..], rest)
              case NeedsInput => Valid() && old(emitted) <= emitted && now == Need(emitted[|old(emitted)|..], State(), chunkTail)
              case Pending => false
              case Raised(_) => now.Fail?
    {
      hide Advances, Run, Step, Quiet;
      ghost var st0, tail0, e0 := State(), chunkTail, emitted;
      AdvancesFed(p, init, fed, emitted, State(), chunkTail, data);
      AdvancesNow(p, init, fed + data, emitted, State(), chunkTail + data);
      r := FeedData(data);
      while r.Pending?
        invariant fed == old(fed) + data && !eofPending && payload.log == base + emitted && Serves()
        invariant Accounted(r)
        invariant r.Pending? ==> !paused && !OverLimit(p, State(), chunkTail)
        invariant r.Raised? ==> (tail0 != [] && OverLimit(p, st0, tail0)) || Run(p, init, fed).Fail?
        invariant tail0 != [] && OverLimit(p, st0, tail0) ==> r.Raised?
        decreases r.Pending?, Left()
      {
        assert fed + [] == fed;
        r := FeedData([]);
      }
      if !r.Raised? { Split(e0, Run(p, st0, tail0 + data), r); }
    }

    /** What a call without an end of input says about all that was fed. */
    ghost predicate Accounted(r: FeedResult)
      reads this, payload
    {
      match r
      case Complete(rest) => Run(p, init, fed) == Done(emitted, rest)
      case NeedsInput => Valid() && Run(p, init, fed) == Need(emitted, State(), chunkTail)
      case Pending => Valid()
      case Raised(_) => true
    }

    /** The signals of a call are those after the signals before it. */
    lemma Split(e0: seq<Signal>, now: Outcome, r: FeedResult)
      requires Run(p, init, fed) == Prepend(e0, now) && Accounted(r) && (r.Complete? || r.NeedsInput?)
      ensures e0 <= emitted
      ensures r.Complete? ==> now == Done(emitted[|e0|..], r.rest)
      ensures r.NeedsInput? ==> now == Need(emitted[|e0|..], State(), chunkTail)
    {
      if !now.Fail? { assert (e0 + now.out)[|e0|..] == now.out; }
    }

    /** The end of the connection, and the resumes after it: a body that runs until then is completed. */
    method CloseFully() returns (ok: bool)
      requires Valid()
      modifies this, payload
      ensures fed == old(fed) && ok == mode.ParseUntilEof? && Serves()
      ensures ok ==> done && emitted == Octets(fed) + [Eof] && payload.log == base + emitted
    {
      hide Advances, Run, Step, Quiet;
      ok := FeedEof();
      while ok && !done
        invariant fed == old(fed) && Serves() && ok == mode.ParseUntilEof?
        invariant ok ==> payload.log == base + emitted
        invariant ok && done ==> emitted == Octets(fed) + [Eof]
        invariant ok && !done ==> Valid() && eofPending && !paused
        decreases !done, Left()
      {
        assert fed + [] == fed;
        var r := FeedData([]);
      }
    }

    /** Payload octets up to the announced length go to the consumer. */
    method TakeLength(input: Bytes) returns (rest: Bytes)
      requires mode.ParseLength? && At(input)
      modifies this`length, this`moreData, this`paused, this`emitted, payload
      ensures At(rest) && (length > 0 ==> rest == []) && |rest| <= |input|
      ensures |rest| == |input| - Min(old(length), |input|) && length == old(length) - Min(old(length), |input|)
      ensures Heeding() && Serves()
      ensures if moreData then payload.patience < old(payload.patience) else payload.patience == old(payload.patience)
    {
      var required := length;
      var k := Min(required, |input|);
      FixedAdvances(p, required, input);
      AdvancesTrans(p, init, fed, emitted, Fixed(required), input, Octets(input[..k]), Fixed(required - k), input[k..]);
      length := Max(required - |input|, 0);
      assert length == required - k;
      Deliver(input[..k]);
      rest := input[k..];
    }

    method FeedLength(data: Bytes) returns (r: FeedResult)
      requires Valid() && mode.ParseLength?
      requires Advances(p, init, fed + data, emitted, State(), chunkTail + data)
      modifies this, payload
      ensures fed == old(fed) + data && eofPending == old(eofPending)
      ensures payload.log == base + emitted
      ensures match r
              case Complete(rest) => Run(p, init, fed) == Done(emitted, rest)
              case NeedsInput => Valid() && Run(p, init, fed) == Need(emitted, State(), chunkTail)
              case Pending => Valid() && Yields(|data|)
              case Raised(_) => false
      ensures r.Complete? ==> |r.rest| <= |old(chunkTail)| + |data| && |r.rest| + Owing() < old(Left()) + |data|
      ensures Serves() && Heeds()
    {
      hide Advances, Run, Step, Quiet;
      fed := fed + data;
      var input := data;
      if chunkTail != [] {
        input := chunkTail + input;
        chunkTail := [];
      }
      assert old(chunkTail) + data == input;
      var pending, rest := DeliverLength(input);
      if pending {
        chunkTail := rest;
        return Pending;
      }
      LengthNow(rest);
      if length == 0 {
        Tell(Eof);
        return Complete(rest);
      }
      return NeedsInput;
    }

    method DeliverLength(input: Bytes) returns (pending: bool, rest: Bytes)
      requires mode.ParseLength? && At(input) && chunkTail == []
      modifies this`length, this`moreData, this`paused, this`emitted, payload
      ensures At(rest) && (length > 0 ==> rest == []) && |rest| <= |input| && Serves() && pending == moreData && Heeds()
      ensures Owing() <= old(Owing()) && |rest| == |input| - Min(old(length), |input|) && length == old(length) - Min(old(length), |input|)
      ensures !pending ==> Heeding()
      ensures !pending && old(moreData) ==> Owing() < old(Owing())
      ensures pending ==> !paused && (old(paused) || old(payload.asked) < payload.asked) && Owing() < old(Owing())
    {
      hide Advances, Run, Step, Quiet;
      rest := TakeLength(input);
      pending := Flush();
    }

    /** A body of announced length is over when nothing is left of it. */
    lemma LengthNow(s: Bytes)
      requires mode.ParseLength? && At(s) && (length > 0 ==> s == [])
      ensures Run(p, init, fed) == if length == 0 then Done(emitted + [Eof], s) else Need(emitted, State(), [])
    {
      AdvancesNow(p, init, fed, emitted, State(), s);
      if length == 0 {
        assert s[..0] == [] && s[0..] == s && Octets([]) + [Eof] == [Eof];
      } else {
        assert emitted + [] == emitted && Octets([]) == [];
      }
    }

    /** A body without a length has been emitted as it is. */
    lemma UntilEofNow()
      requires mode.ParseUntilEof? && At([])
      ensures Run(p, init, fed) == Need(emitted, UntilEof, []) && emitted == Octets(fed)
    {
      AdvancesNow(p, init, fed, emitted, UntilEof, []);
      assert emitted + [] == emitted && Octets([]) == [];
    }

    method FeedUntilEof(data: Bytes) returns (r: FeedResult)
      requires Valid() && mode.ParseUntilEof?
      requires Advances(p, init, fed + data, emitted, State(), chunkTail + data)
      modifies this, payload
      ensures fed == old(fed) + data && eofPending == (old(eofPending) && !r.Complete?)
      ensures done == r.Complete? && !r.Raised? && (r.NeedsInput? ==> !eofPending)
      ensures payload.log == base + emitted
      ensures match r
              case Complete(rest) => old(eofPending) && rest == [] && emitted == Octets(fed) + [Eof]
              case NeedsInput => Valid() && Run(p, init, fed) == Need(emitted, State(), chunkTail)
              case Pending => Valid() && Yields(|data|)
              case Raised(_) => false
      ensures Serves() && Heeds()
    {
      hide Advances, Run, Step, Quiet;
      fed := fed + data;
      UntilEofAdvances(p, data);
      assert chunkTail + data == data;
      AdvancesTrans(p, init, fed, emitted, UntilEof, data, Octets(data), UntilEof, []);
      Deliver(data);
      var pending := Flush();
      if pending { return Pending; }
      UntilEofNow();
      if eofPending {
        Tell(Eof);
        done := true;
        eofPending := false;
        return Complete([]);
      }
      return NeedsInput;
    }

    /** The connection is closed: only a body that runs until the end of the connection is complete. */
    method FeedEof() returns (ok: bool)
      requires Valid()
      modifies this, payload
      ensures fed == old(fed) && ok == mode.ParseUntilEof?
      ensures ok ==> eofPending == !done
      ensures ok && done ==> emitted == Octets(fed) + [Eof] && payload.log == base + emitted
      ensures ok && !done ==> Valid() && eofPending && Yields(0)
      ensures Serves() && Heeds()
    {
      hide Advances, Run, Step, Quiet;
      if mode.ParseUntilEof? {
        eofPending := true;
        var pending := Flush();
        if pending { return true; }
        UntilEofNow();
        Tell(Eof);
        done := true;
        eofPending := false;
        return true;
      }
      return false;
    }

    /** What holds when a step of the chunked parser ends the call. */
    ghost predicate Ended(r: FeedResult)
      reads this, payload
    {
      match r
      case Complete(rest) => Run(p, init, fed) == Done(emitted, rest)
      case NeedsInput => Valid() && Run(p, init, fed) == Need(emitted, State(), chunkTail)
      case Pending => Valid()
      case Raised(_) => Run(p, init, fed).Fail? && Run(Tighten(p), init, fed).Fail?
    }

    /** Nothing more can be decoded: the rest of the input is kept for the next call. */
    lemma EndQuiet(s: Bytes)
      requires At(s) && chunkTail == s && !done && Quiet(p, State(), s)
      requires mode.ParseChunked? && !moreData && (chunk.ParseChunk? ==> chunkSize > 0)
      ensures Ended(NeedsInput)
    {
      AdvancesNow(p, init, fed, emitted, State(), s);
      assert emitted + [] == emitted;
    }

    /** The one-shot decoder is refused here as well. */
    lemma EndFail(s: Bytes, e: FeedError)
      requires At(s) && Step(p, State(), s) == Stop(Fail)
      ensures Ended(Raised(e))
    {
      AdvancesNow(p, init, fed, emitted, State(), s);
      TightAgrees(p, State(), s);
    }

    /** A size line has been read: a chunk starts, or after the last one the trailers. */
    method StartChunk(input: Bytes, pos: nat, size: nat) returns (rest: Bytes)
      requires mode.ParseChunked? && chunk.ParseSize? && At(input) && !moreData
      requires pos == Find(input, CRLF) && pos <= p.maxLine && ParseSizeLine(input[..pos]) == Some(size)
      modifies this`chunk, this`chunkSize, this`trailerLines, this`paused, this`emitted, payload
      ensures At(rest) && |rest| + 2 <= |input| && payload.patience == old(payload.patience)
      ensures (chunk.ParseChunk? && chunkSize > 0) || chunk.ParseTrailers?
      ensures Serves() && Heeding() && (old(payload.asked) == payload.asked ==> payload.fedSince == old(payload.fedSince))
    {
      hide Advances, Run, Step, Find, ParseSizeLine;
      rest := input[pos + 2..];
      SizeAdvances(p, input, pos, size);
      if size == 0 {
        AdvancesTrans(p, init, fed, emitted, Size, input, [], Trailers([]), rest);
        assert emitted + [] == emitted;
        chunk := ParseTrailers;
        trailerLines := [];
      } else {
        AdvancesTrans(p, init, fed, emitted, Size, input, [ChunkBegin], Chunk(size), rest);
        chunk := ParseChunk;
        chunkSize := size;
        Tell(ChunkBegin);
      }
    }

    /** The next chunk size is read, or the partial line is kept. */
    method ReadSize(input: Bytes) returns (stop: bool, r: FeedResult, rest: Bytes)
      requires mode.ParseChunked? && chunk.ParseSize? && At(input) && chunkTail == [] && !moreData && !done
      modifies this, payload
      ensures fed == old(fed) && eofPending == old(eofPending)
      ensures payload.log == base + emitted && payload.patience == old(payload.patience)
      ensures stop ==> Ended(r) && !r.Complete? && !r.Pending? && (r.Raised? ==> input != [])
      ensures var pos := Find(input, CRLF);
              stop && r.Raised? ==> r.error == if pos >= 0 && pos > p.maxLine then LineTooLong else TransferEncodingError
      ensures Serves() && Heeding() && (old(payload.asked) == payload.asked ==> payload.fedSince == old(payload.fedSince))
      ensures !stop ==> At(rest) && chunkTail == [] && !moreData && !done && |rest| + 2 <= |input|
      ensures !stop ==> (chunk.ParseChunk? && chunkSize > 0) || chunk.ParseTrailers?
    {
      var pos := Find(input, CRLF);
      if pos >= 0 {
        if pos > p.maxLine {
          EndFail(input, LineTooLong);
          return true, Raised(LineTooLong), input;
        }
        var size := ParseSizeLine(input[..pos]);
        if size.None? {
          EndFail(input, TransferEncodingError);
          return true, Raised(TransferEncodingError), input;
        }
        rest := StartChunk(input, pos, size.value);
        return false, NeedsInput, rest;
      }
      if LF in input {
        EndFail(input, TransferEncodingError);
        return true, Raised(TransferEncodingError), input;
      }
      chunkTail := input;
      EndQuiet(input);
      return true, NeedsInput, [];
    }

    /** Chunk data goes to the consumer. */
    method TakeChunk(input: Bytes) returns (rest: Bytes)
      requires mode.ParseChunked? && chunk.ParseChunk? && At(input) && !paused
      modifies this`chunkSize, this`moreData, this`paused, this`emitted, payload
      ensures At(rest) && (chunkSize > 0 ==> rest == [])
      ensures |rest| == |input| - Min(old(chunkSize), |input|) && Serves() && Heeding()
      ensures if moreData then payload.patience < old(payload.patience) else payload.patience == old(payload.patience)
    {
      hide Advances, Run, Step, Quiet;
      var required := chunkSize;
      var k := Min(required, |input|);
      ChunkAdvances(p, required, input);
      AdvancesTrans(p, init, fed, emitted, Chunk(required), input, Octets(input[..k]), Chunk(required - k), input[k..]);
      chunkSize := Max(required - |input|, 0);
      Deliver(input[..k]);
      rest := input[k..];
    }

    /** Inside a chunk: the call pauses, asks for more input, lets the consumer go on, or ends the chunk. */
    method ReadChunk(input: Bytes) returns (stop: bool, r: FeedResult, rest: Bytes)
      requires mode.ParseChunked? && chunk.ParseChunk? && At(input) && chunkTail == [] && !done
      requires chunkSize == 0 ==> moreData
      modifies this, payload
      ensures fed == old(fed) && eofPending == old(eofPending)
      ensures payload.log == base + emitted
      ensures stop ==> Ended(r) && !r.Complete? && !r.Raised?
      ensures stop && r.Pending? ==> old(paused) && !paused && chunk.ParseChunk? && chunkTail == input && Owing() == old(Owing())
      ensures stop && r.NeedsInput? ==> !paused
      ensures Serves() && Heeds() && (!stop ==> Heeding()) && (old(paused) ==> unchanged(payload))
      ensures !stop ==> At(rest) && chunkTail == [] && !done && |rest| <= |input|
      ensures !stop && moreData ==> chunk.ParseChunk? && payload.patience < old(payload.patience)
      ensures !stop && !moreData ==> chunk.ParseChunkEof? && payload.patience == old(payload.patience)
      ensures !stop && !moreData && !old(moreData) ==> input == [] || |rest| < |input|
    {
      if paused {
        paused := false;
        chunkTail := input;
        return true, Pending, [];
      }
      rest := TakeChunk(input);
      if moreData { return false, NeedsInput, rest; }
      if chunkSize > 0 {
        paused := false;
        QuietEmpty(p, State());
        EndQuiet([]);
        return true, NeedsInput, [];
      }
      ChunkEndAdvances(p, rest);
      AdvancesTrans(p, init, fed, emitted, Chunk(0), rest, [ChunkEnd], ChunkEof, rest);
      chunk := ParseChunkEof;
      Tell(ChunkEnd);
      return false, NeedsInput, rest;
    }

    /** The CRLF that ends a chunk is dropped. */
    method ReadChunkEof(input: Bytes) returns (stop: bool, r: FeedResult, rest: Bytes)
      requires mode.ParseChunked? && chunk.ParseChunkEof? && At(input) && chunkTail == [] && !moreData && !done
      modifies this, payload
      ensures fed == old(fed) && eofPending == old(eofPending)
      ensures payload.log == base + emitted && payload.patience == old(payload.patience)
      ensures stop ==> Ended(r) && !r.Complete? && !r.Pending? && (r.Raised? ==> input != [])
      ensures stop && r.Raised? ==> r.error == TransferEncodingError
      ensures Serves() && Heeding() && (old(payload.asked) == payload.asked ==> payload.fedSince == old(payload.fedSince))
      ensures !stop ==> At(rest) && chunkTail == [] && !moreData && !done && |rest| + 2 <= |input| && chunk.ParseSize?
    {
      if MatchAt(input, CRLF, 0) {
        StepAdvances(p, ChunkEof, input);
        AdvancesTrans(p, init, fed, emitted, ChunkEof, input, [], Size, input[2..]);
        assert emitted + [] == emitted;
        chunk := ParseSize;
        return false, NeedsInput, input[2..];
      }
      if |input| >= 2 || input != CRLF[..|input|] {
        EndFail(input, TransferEncodingError);
        return true, Raised(TransferEncodingError), input;
      }
      chunkTail := input;
      EndQuiet(input);
      return true, NeedsInput, [];
    }

    /** A trailer line is collected; the empty one completes the body. */
    method ReadTrailer(input: Bytes) returns (stop: bool, r: FeedResult, rest: Bytes)
      requires mode.ParseChunked? && chunk.ParseTrailers? && At(input) && chunkTail == [] && !moreData && !done
      modifies this, payload
      ensures fed == old(fed) && eofPending == old(eofPending)
      ensures payload.log == base + emitted && payload.patience == old(payload.patience)
      ensures stop ==> Ended(r) && !r.Pending? && (r.Complete? ==> |r.rest| + 2 <= |input|) && (r.Raised? ==> input != [])
      ensures var pos := Find(input, CRLF);
              stop && r.Raised? ==>
                r.error == if pos < 0 then TransferEncodingError
                           else if pos > p.maxField then LineTooLong
                           else if |old(trailerLines)| + 1 > p.maxTrailers then FeedError.BadHttpMessage
                           else if HeaderList(old(trailerLines) + [[]]) == Rejected(HeaderError.InvalidHeader) then FeedError.InvalidHeader
                           else FeedError.BadHttpMessage
      ensures Serves() && Heeding() && (old(payload.asked) == payload.asked ==> payload.fedSince == old(payload.fedSince))
      ensures !stop ==> At(rest) && chunkTail == [] && !moreData && !done && |rest| + 2 <= |input| && chunk.ParseTrailers?
    {
      hide Advances, Find;
      var pos := Find(input, CRLF);
      if pos < 0 {
        if LF in input {
          EndFail(input, TransferEncodingError);
          return true, Raised(TransferEncodingError), input;
        }
        chunkTail := input;
        EndQuiet(input);
        return true, NeedsInput, [];
      }
      var line := input[..pos];
      rest := input[pos + 2..];
      if |line| > p.maxField {
        EndFail(input, LineTooLong);
        return true, Raised(LineTooLong), input;
      }
      if |trailerLines| + 1 > p.maxTrailers {
        EndFail(input, FeedError.BadHttpMessage);
        return true, Raised(FeedError.BadHttpMessage), input;
      }
      if line == [] {
        var trailers := ParseHeaders(trailerLines + [line]);
        if trailers.Rejected? {
          EndFail(input, FeedError.InvalidHeader);
          return true, Raised(if trailers.error.InvalidHeader? then FeedError.InvalidHeader else FeedError.BadHttpMessage), input;
        }
        AdvancesNow(p, init, fed, emitted, State(), input);
        trailerLines := [];
        Tell(Eof);
        return true, Complete(rest), rest;
      }
      TrailerAdvances(p, trailerLines, input, pos);
      AdvancesTrans(p, init, fed, emitted, State(), input, [], Trailers(trailerLines + [line]), rest);
      assert emitted + [] == emitted;
      trailerLines := trailerLines + [line];
      return false, NeedsInput, rest;
    }

    /** A kept line over the limit: the tight decoder has failed by now. */
    lemma OverLimitStuck(f: Bytes, data: Bytes)
      requires !p.tight && Advances(p, init, f, emitted, State(), chunkTail) && WellFormed(init)
      requires Quiet(p, State(), chunkTail) && OverLimit(p, State(), chunkTail) && chunkTail != []
      ensures Run(Tighten(p), init, f + data).Fail?
    {
      OverLimitFails(p, State(), chunkTail);
      AdvancesNow(p, init, f, emitted, State(), chunkTail);
      RunAppend(Tighten(p), init, f, data);
    }

    /** Inside the loop of the chunked parser. */
    ghost predicate Looping(input: Bytes)
      reads this, payload
    {
      At(input) && chunkTail == [] && !done && (chunk.ParseChunk? && chunkSize == 0 ==> moreData)
    }

    /** One turn of the loop: it falls through the states in their order. */
    method Turn(input: Bytes) returns (stop: bool, r: FeedResult, rest: Bytes)
      requires mode.ParseChunked? && Looping(input) && (input != [] || moreData)
      modifies this, payload
      ensures fed == old(fed) && eofPending == old(eofPending) && payload.log == base + emitted
      ensures stop ==> Ended(r)
      ensures stop && r.Complete? ==> |r.rest| + Owing() < |input| + old(Owing()) && |r.rest| <= |input|
      ensures stop && r.Raised? ==> input != []
      ensures stop && r.Pending? ==> Yields(|input|)
      ensures Serves() && Heeds() && (!stop ==> Heeding())
      ensures old(paused) && old(payload.asked) == payload.asked ==> payload.fedSince == old(payload.fedSince)
      ensures !stop ==> Looping(rest) && |rest| <= |input| && |rest| + Owing() < |input| + old(Owing())
    {
      hide Advances, Run, Step, Quiet;
      rest := input;
      if chunk.ParseSize? {
        stop, r, rest := ReadSize(rest);
        if stop { return; }
      }
      if chunk.ParseChunk? {
        stop, r, rest := ReadChunk(rest);
        if stop || moreData { return; }
      }
      if chunk.ParseChunkEof? {
        stop, r, rest := ReadChunkEof(rest);
        if stop { return; }
      }
      if chunk.ParseTrailers? {
        stop, r, rest := ReadTrailer(rest);
        if stop { return; }
      }
      return false, NeedsInput, rest;
    }

    method FeedChunked(data: Bytes) returns (r: FeedResult)
      requires Valid() && mode.ParseChunked?
      requires Advances(p, init, fed + data, emitted, State(), chunkTail + data)
      modifies this, payload
      ensures fed == old(fed) + data && eofPending == old(eofPending)
      ensures payload.log == base + emitted
      ensures match r
              case Complete(rest) => Run(p, init, fed) == Done(emitted, rest)
              case NeedsInput => Valid() && Run(p, init, fed) == Need(emitted, State(), chunkTail)
              case Pending => Valid() && Yields(|data|)
              case Raised(_) => Run(Tighten(p), init, fed).Fail?
      ensures old(chunkTail != [] && OverLimit(p, State(), chunkTail)) ==> r == Raised(LineTooLong)
      ensures r.Raised? ==> old(chunkTail != [] && OverLimit(p, State(), chunkTail)) || Run(p, init, fed).Fail?
      ensures r.Complete? ==> |r.rest| <= |old(chunkTail)| + |data| && |r.rest| + Owing() < old(Left()) + |data|
      ensures r.Raised? ==> |old(chunkTail)| + |data| > 0
      ensures Serves() && Heeds()
    {
      hide Advances, Run, Step, Quiet;
      var input := chunkTail + data;
      fed := fed + data;
      if chunkTail != [] {
        if !chunk.ParseChunk? {
          var maxLineLength := p.maxLine;
          if chunk.ParseTrailers? { maxLineLength := p.maxField; }
          if |chunkTail| > maxLineLength {
            OverLimitStuck(old(fed), data);
            return Raised(LineTooLong);
          }
        }
        chunkTail := [];
      }
      r := TurnAll(input);
    }

    /** The loop of the chunked parser. */
    method TurnAll(input0: Bytes) returns (r: FeedResult)
      requires mode.ParseChunked? && Looping(input0)
      modifies this, payload
      ensures fed == old(fed) && eofPending == old(eofPending) && payload.log == base + emitted
      ensures Ended(r) && Serves() && Heeds()
      ensures r.Complete? ==> |r.rest| + Owing() < |input0| + old(Owing()) && |r.rest| <= |input0|
      ensures r.Raised? ==> input0 != []
      ensures r.Pending? ==> Yields(|input0|)
    {
      hide Advances, Run, Step, Quiet;
      var input := input0;
      while input != [] || moreData
        invariant Looping(input) && fed == old(fed) && eofPending == old(eofPending)
        invariant Serves() && Heeding() && |input| <= |input0|
        invariant |input| + Owing() <= |input0| + old(Owing())
        invariant paused && !old(paused) ==> |input| + Owing() < |input0| + old(Owing())
        decreases |input| + Owing()
      {
        var stop;
        stop, r, input := Turn(input);
        if stop { return; }
      }
      LoopOver();
      return NeedsInput;
    }

    lemma LoopOver()
      requires mode.ParseChunked? && Looping([]) && !moreData
      ensures Ended(NeedsInput)
    {
      QuietEmpty(p, State());
      EndQuiet([]);
    }
  }
}
