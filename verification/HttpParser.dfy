/** The incremental message parser of a connection, with its queue limit, follows the one-shot splitter. */
module HttpParser {
  import opened Bytes
  import opened PayloadDecoding
  import opened HttpFraming
  import opened HttpPayloadParser

  datatype HttpResult = Ok | Error(error: FeedError)

  class HttpParser {
    const p: HttpPolicy
    const maxMsgQueueSize: nat      // 0 switches the queue limit off
    const sink: Consumer            // messages and payloads are announced here, in order
    var tail: Bytes
    var lines: seq<Bytes>
    var payloadParser: HttpPayloadParser?
    var payloadHasMoreData: bool
    var msgInFlight: nat

    ghost var fed: Bytes            // all input so far
    ghost var closing: bool         // the last message asked for the connection to be closed
    ghost var maxTrailers: int      // trailer lines allowed in the present body
    ghost var derailed: bool        // a body was given up on without an error to the connection
    ghost var taken: nat            // messages taken from the queue

    ghost function Parts(): set<object>
      reads this
    {
      {this, sink} + if payloadParser == null then {} else {payloadParser}
    }

    /** The input fed so far amounts to the signals `o`, the state `st`, and `s` still to be split. */
    ghost predicate Tracks(o: seq<Signal>, st: HttpState, s: Bytes)
      reads this`derailed, this`fed
    {
      if derailed then Doomed(p, AtHead([], false), fed) else HttpAdvances(p, AtHead([], false), fed, o, st, s)
    }

    /** What is announced and not yet taken is in flight, and that is never more than the limit. */
    ghost predicate Queued()
      reads this`msgInFlight, this`taken, sink`log
    {
      maxMsgQueueSize > 0 ==> msgInFlight <= maxMsgQueueSize && msgInFlight + taken == HeadCount(sink.log)
    }

    /** What is left to be done: octets kept, and output that the consumer may still have pending. */
    ghost function Left(): nat
      reads Parts()
    {
      |tail| + Inner()
    }

    ghost function Inner(): nat
      reads Parts()
    {
      if payloadParser == null || payloadParser.payload != sink then 2 * sink.patience else payloadParser.Left()
    }

    ghost predicate Paused()
      reads Parts()
    {
      payloadParser != null && payloadParser.paused
    }

    /** `s` has been received but not yet handed to the head or body parser. */
    ghost predicate Placed(s: Bytes)
      reads Parts()
    {
      && IsLoose(p)
      && Queued()
      && if payloadParser == null then
           Tracks(sink.log, AtHead(lines, closing), s)
         else
           && lines == [] && payloadParser.payload == sink && payloadParser.Valid()
           && payloadParser.p == BodyPolicy(p, maxTrailers) && !payloadParser.eofPending
           && Tracks(payloadParser.base, InBody(maxTrailers, payloadParser.init, closing), payloadParser.fed + s)
    }

    /** A body parser that is not waiting to be resumed has decoded all it was given. */
    ghost predicate Settled()
      reads Parts()
    {
      payloadParser != null && !payloadHasMoreData ==>
        var o := Run(payloadParser.p, payloadParser.init, payloadParser.fed);
        o == Need(payloadParser.emitted, payloadParser.State(), payloadParser.chunkTail)
    }

    /** What the parser is inside of, and what it keeps of it. */
    ghost function Where(): HttpState
      reads Parts()
    {
      if payloadParser == null then AtHead(lines, closing) else InBody(maxTrailers, payloadParser.State(), closing)
    }

    /** All input is announced: the one-shot splitter is at the same place. */
    ghost predicate UpToDate()
      reads Parts()
    {
      RunHttp(p, AtHead([], false), fed) == HttpNeed(sink.log, Where(), if payloadParser == null then tail else payloadParser.chunkTail)
    }

    ghost predicate Valid()
      reads Parts()
    {
      Placed(tail) && Settled() && (payloadParser != null ==> tail == []) && (payloadHasMoreData ==> payloadParser != null)
    }

    /** The queue of messages not yet consumed is full. */
    predicate QueueFull()
      reads this`payloadParser, this`msgInFlight
    {
      payloadParser == null && maxMsgQueueSize > 0 && msgInFlight >= maxMsgQueueSize
    }

    constructor (p: HttpPolicy, maxMsgQueueSize: nat, sink: Consumer)
      requires IsLoose(p) && sink.log == []
      ensures Valid() && fed == [] && this.sink == sink && this.p == p && this.maxMsgQueueSize == maxMsgQueueSize
      ensures payloadParser == null && !derailed && taken == 0
    {
      this.p, this.maxMsgQueueSize, this.sink := p, maxMsgQueueSize, sink;
      tail, lines, payloadParser, payloadHasMoreData, msgInFlight := [], [], null, false, 0;
      fed, closing, maxTrailers, derailed, taken := [], false, 0, false, 0;
      new;
      HttpAdvancesRefl(p, AtHead([], false), []);
    }

    /** The consumer of a payload asks for a pause. */
    method PauseReading()
      requires Valid() && payloadParser != null
      modifies payloadParser
      ensures Valid() && fed == old(fed) && Paused()
    {
      payloadParser.PauseReading();
    }

    /** A queued message was taken: a slot is free. */
    method MessageConsumed()
      requires Valid()
      modifies this`msgInFlight, this`taken
      ensures Valid() && msgInFlight == Max(old(msgInFlight) - 1, 0)
      ensures taken == old(taken) + if old(msgInFlight) > 0 then 1 else 0
    {
      if msgInFlight > 0 {
        msgInFlight := msgInFlight - 1;
        taken := taken + 1;
      }
    }

    /** Progress along the splitter. */
    lemma Forward(o: seq<Signal>, st: HttpState, s: Bytes, o1: seq<Signal>, st1: HttpState, s1: Bytes)
      requires Tracks(o, st, s) && HttpAdvances(p, st, s, o1, st1, s1)
      ensures Tracks(o + o1, st1, s1)
    {
      if !derailed {
        HttpAdvancesTrans(p, AtHead([], false), fed, o, st, s, o1, st1, s1);
      }
    }

    /** An error is an error of the tight splitter on the input so far. */
    lemma Refused(o: seq<Signal>, st: HttpState, s: Bytes)
      requires Tracks(o, st, s) && Doomed(p, st, s)
      ensures Doomed(p, AtHead([], false), fed) && RunHttp(TightenHttp(p), AtHead([], false), fed).HttpFail?
    {
      if !derailed {
        DoomedTrans(p, AtHead([], false), fed, o, st, s);
      }
      DoomedNow(p, AtHead([], false), fed);
    }

    lemma HeadRefused(s: Bytes)
      requires IsLoose(p) && Tracks(sink.log, AtHead(lines, closing), s)
      requires HttpStep(TightenHttp(p), AtHead(lines, closing), s) == HttpStop(HttpFail)
      ensures RunHttp(TightenHttp(p), AtHead([], false), fed).HttpFail?
    {
      HeadFails(TightenHttp(p), AtHead(lines, closing), s);
      Refused(sink.log, AtHead(lines, closing), s);
    }

    method Receive(data: Bytes)
      requires Valid()
      modifies this`fed, this`tail
      ensures Placed(old(tail) + data) && Settled() && tail == [] && fed == old(fed) + data
    {
      if derailed {
        DoomedFed(p, AtHead([], false), fed, data);
      } else if payloadParser == null {
        HttpAdvancesFed(p, AtHead([], false), fed, sink.log, AtHead(lines, closing), tail, data);
      } else {
        var pp := payloadParser;
        HttpAdvancesFed(p, AtHead([], false), fed, pp.base, InBody(maxTrailers, pp.init, closing), pp.fed + tail, data);
        Assoc(pp.fed, tail, data);
      }
      fed := fed + data;
      tail := [];
    }

    /** No line break yet: the partial line is kept for the next call. */
    method KeepPartialLine(input: Bytes) returns (r: HttpResult)
      requires Placed(input) && payloadParser == null && !payloadHasMoreData && Find(input, CRLF) < 0
      modifies this`tail
      ensures r == if LF in input then Error(FeedError.BadHttpMessage) else if |input| > p.maxLine then Error(LineTooLong) else Ok
      ensures tail == input && (r.Ok? ==> Valid())
      ensures r.Error? ==> RunHttp(TightenHttp(p), AtHead([], false), fed).HttpFail?
      ensures r.Ok? && !derailed ==> UpToDate()
    {
      tail := input;
      if LF in tail {
        HeadRefused(input);
        return Error(FeedError.BadHttpMessage);
      }
      if |tail| > p.maxLine {
        HeadRefused(input);
        return Error(LineTooLong);
      }
      if !derailed {
        HttpAdvancesNow(p, AtHead([], false), fed, sink.log, AtHead(lines, closing), input);
        assert sink.log + [] == sink.log;
      }
      return Ok;
    }

    /** An empty line before a message is skipped. */
    method SkipEmptyLine(input: Bytes) returns (rest: Bytes)
      requires Placed(input) && payloadParser == null && lines == [] && Find(input, CRLF) == 0
      ensures Placed(rest) && |rest| < |input|
    {
      rest := input[2..];
      HeadAdvances(p, AtHead(lines, closing), input);
      Forward(sink.log, AtHead(lines, closing), input, [], AtHead([], closing), rest);
      assert sink.log + [] == sink.log;
    }

    /** A line of the head is complete. */
    method ReadHeaderLine(input: Bytes, pos: nat) returns (rest: Bytes)
      requires Placed(input) && payloadParser == null
      requires 0 < pos == Find(input, CRLF) && pos <= p.headLimit && |lines| + 1 <= p.maxHeaders
      modifies this`lines
      ensures Placed(rest) && |rest| < |input| && lines == old(lines) + [input[..pos]]
    {
      rest := input[pos + 2..];
      var line := input[..pos];
      HeadAdvances(p, AtHead(lines, closing), input);
      Forward(sink.log, AtHead(lines, closing), input, [], AtHead(lines + [line], closing), rest);
      assert sink.log + [] == sink.log;
      lines := lines + [line];
    }

    /** The head is complete: the message is queued, and its body is parsed next. */
    method ReadHeadEnd(input: Bytes) returns (r: HttpResult, rest: Bytes, shouldClose: bool)
      requires Placed(input) && payloadParser == null && !payloadHasMoreData && tail == []
      requires Find(input, CRLF) == 0 && lines != [] && 0 <= p.headLimit && |lines| + 1 <= p.maxHeaders
      requires !QueueFull()
      modifies this, sink
      ensures fed == old(fed) && tail == [] && !payloadHasMoreData
      ensures payloadParser == null || fresh(payloadParser)
      ensures r.Error? ==> RunHttp(TightenHttp(p), AtHead([], false), fed).HttpFail?
      ensures r.Ok? ==> Placed(rest) && Settled() && (shouldClose ==> closing)
      ensures r.Ok? ==> |rest| + 2 <= |input| && Inner() == old(Inner()) && !Paused()
      ensures r.Ok? ==> HeadCount(sink.log) == old(HeadCount(sink.log)) + 1
      ensures msgInFlight == old(msgInFlight) + if r.Ok? && maxMsgQueueSize > 0 then 1 else 0
      ensures r in {Ok, Error(FeedError.BadHttpMessage)}
    {
      rest, shouldClose := input[2..], false;
      var head := lines + [[]];
      assert input[..0] == [];
      var m := p.read(head);
      if m.Refused? {
        HeadRefused(input);
        return Error(FeedError.BadHttpMessage), rest, shouldClose;
      }
      TakeHead(input, head, m);
      return Ok, rest, m.shouldClose;
    }

    method TakeHead(input: Bytes, head: seq<Bytes>, m: HeadResult)
      requires Placed(input) && payloadParser == null && !payloadHasMoreData && tail == [] && !QueueFull()
      requires m.Message? && head == lines + [[]] && m == p.read(head)
      requires Find(input, CRLF) == 0 && lines != [] && 0 <= p.headLimit && |lines| + 1 <= p.maxHeaders
      modifies this, sink
      ensures fed == old(fed) && tail == [] && !payloadHasMoreData && closing == m.shouldClose
      ensures payloadParser == null || fresh(payloadParser)
      ensures Placed(input[2..]) && Settled() && Inner() == old(Inner()) && !Paused()
      ensures HeadCount(sink.log) == old(HeadCount(sink.log)) + 1
      ensures msgInFlight == old(msgInFlight) + if maxMsgQueueSize > 0 then 1 else 0
    {
      hide Tracks, Run, Step, RunHttp, Find, HttpPayloadParser.At, HttpPayloadParser.Valid;
      AnnounceHead(input, head, m);
      if maxMsgQueueSize > 0 { msgInFlight := msgInFlight + 1; }
      if HasBody(m.body) {
        StartBody(head, m.body, input[2..]);
      }
    }

    method AnnounceHead(input: Bytes, head: seq<Bytes>, m: HeadResult)
      requires IsLoose(p) && payloadParser == null && m.Message? && head == lines + [[]] && m == p.read(head)
      requires Tracks(sink.log, AtHead(lines, closing), input)
      requires Find(input, CRLF) == 0 && lines != [] && 0 <= p.headLimit && |lines| + 1 <= p.maxHeaders
      modifies this`lines, this`closing, sink`log
      ensures lines == [] && closing == m.shouldClose
      ensures Tracks(sink.log, AfterHead(p, head, m), input[2..])
      ensures HeadCount(sink.log) == old(HeadCount(sink.log)) + 1
    {
      HeadAdvances(p, AtHead(lines, closing), input);
      Forward(sink.log, AtHead(lines, closing), input, [Head(head)], AfterHead(p, head, m), input[2..]);
      lines := [];
      sink.Announce(Head(head));
      closing := m.shouldClose;
    }

    method StartBody(head: seq<Bytes>, body: BodyKind, rest: Bytes)
      requires HasBody(body) && IsLoose(p) && payloadParser == null && !payloadHasMoreData && lines == []
      requires Queued()
      requires Tracks(sink.log, InBody(p.maxHeaders - |head|, StartOf(body), closing), rest)
      modifies this`payloadParser, this`maxTrailers
      ensures payloadParser != null && fresh(payloadParser) && Inner() == 2 * sink.patience && !Paused()
      ensures Placed(rest) && Settled()
    {
      hide Tracks, Run, Step, RunHttp, Queued, HttpPayloadParser.At;
      var room := p.maxHeaders - |head|;
      maxTrailers := room;
      var mode := match body
        case LengthBody(_) => ParseLength
        case ChunkedBody => ParseChunked
        case _ => ParseUntilEof;
      var length := if body.LengthBody? then body.length else 0;
      payloadParser := new HttpPayloadParser(BodyPolicy(p, room), mode, length, sink);
      assert payloadParser.fed + rest == rest;
      NothingRun(payloadParser.p, payloadParser.init);
    }

    /** The body parser takes all the input; it gives back what belongs to the next message. */
    method ReadBody(input: Bytes) returns (stop: bool, r: HttpResult, rest: Bytes)
      requires Placed(input) && payloadParser != null && tail == []
      modifies this, sink, payloadParser
      ensures fed == old(fed) && tail == [] && closing == old(closing) && msgInFlight == old(msgInFlight)
      ensures payloadParser == old(payloadParser) || payloadParser == null
      ensures stop && r.Error? ==> RunHttp(TightenHttp(p), AtHead([], false), fed).HttpFail?
      ensures stop && r.Ok? ==> Valid() && payloadParser == old(payloadParser)
      ensures stop && r.Ok? && !derailed && !payloadHasMoreData ==>
                UpToDate()
      ensures stop && payloadHasMoreData && r.Ok? ==> payloadParser.Yields(|input|)
      ensures !stop ==> Placed(rest) && payloadParser == null && !payloadHasMoreData
      ensures !stop ==> |rest| + Inner() < |input| + old(Inner())
    {
      hide Tracks, Run, RunHttp, HttpPayloadParser.At, Advances;
      var pp := payloadParser;
      StartIsWell(pp);
      var fr := pp.FeedData(input);
      match fr
      case Raised(e) =>
        r := GiveUp(pp, e);
        return r.Error?, r, [];
      case Complete(left) =>
        BodyDone(pp, left);
        return false, Ok, left;
      case Pending =>
        payloadHasMoreData := true;
        assert pp.fed + [] == pp.fed;
        return true, Ok, [];
      case NeedsInput =>
        payloadHasMoreData := false;
        assert pp.fed + [] == pp.fed;
        if !derailed { BodySplit(); }
        return true, Ok, [];
    }

    lemma StartIsWell(pp: HttpPayloadParser)
      requires pp.Valid()
      ensures WellFormed(pp.init) && !pp.p.tight
    {
    }

    /** The body failed: the connection does as well, or only the message. */
    method GiveUp(pp: HttpPayloadParser, e: FeedError) returns (r: HttpResult)
      requires pp == payloadParser && IsLoose(p) && Queued() && pp.p == BodyPolicy(p, maxTrailers)
      requires WellFormed(pp.init) && Run(Tighten(pp.p), pp.init, pp.fed).Fail?
      requires Tracks(pp.base, InBody(maxTrailers, pp.init, closing), pp.fed)
      modifies this`derailed, this`payloadParser, this`payloadHasMoreData, this`lines, sink`log
      ensures r == if e.TransferEncodingError? || e == FeedError.InvalidHeader then Error(e) else Ok
      ensures r.Ok? ==> sink.log == old(sink.log) + [BodyFailed]
      ensures r.Error? ==> RunHttp(TightenHttp(p), AtHead([], false), fed).HttpFail? && unchanged(this)
      ensures r.Ok? ==> Placed([]) && payloadParser == null && !payloadHasMoreData
    {
      hide Run, RunHttp, HttpPayloadParser.Valid, HttpPayloadParser.At;
      BodyDoomed(p, maxTrailers, pp.init, closing, pp.fed);
      Refused(pp.base, InBody(maxTrailers, pp.init, closing), pp.fed);
      if e.TransferEncodingError? || e.InvalidHeader? {
        return Error(e);
      }
      sink.Announce(BodyFailed);
      derailed := true;
      payloadParser, payloadHasMoreData, lines := null, false, [];
      return Ok;
    }

    /** The body is over, and the next message starts with what is left. */
    method BodyDone(pp: HttpPayloadParser, left: Bytes)
      requires pp == payloadParser && IsLoose(p) && Queued() && pp.p == BodyPolicy(p, maxTrailers) && !pp.p.tight
      requires WellFormed(pp.init) && Run(pp.p, pp.init, pp.fed) == Done(pp.emitted, left) && sink.log == pp.base + pp.emitted
      requires Tracks(pp.base, InBody(maxTrailers, pp.init, closing), pp.fed)
      modifies this`payloadParser, this`payloadHasMoreData, this`lines
      ensures Placed(left) && payloadParser == null && !payloadHasMoreData
    {
      BodyAdvances(p, maxTrailers, pp.init, closing, pp.fed);
      Forward(pp.base, InBody(maxTrailers, pp.init, closing), pp.fed, pp.emitted, AtHead([], closing), left);
      payloadParser, payloadHasMoreData, lines := null, false, [];
    }

    lemma BodySplit()
      requires Valid() && payloadParser != null && !payloadHasMoreData && !derailed
      ensures UpToDate()
    {
      var pp := payloadParser;
      assert pp.fed + [] == pp.fed;
      HttpAdvancesNow(p, AtHead([], false), fed, pp.base, InBody(maxTrailers, pp.init, closing), pp.fed);
    }

    /** All input has been handed out. */
    lemma AllSplit()
      requires Placed([]) && Settled() && tail == [] && !payloadHasMoreData
      ensures !derailed ==> UpToDate()
    {
      if derailed {
      } else if payloadParser == null {
        HttpAdvancesNow(p, AtHead([], false), fed, sink.log, AtHead(lines, closing), []);
        assert sink.log + [] == sink.log;
      } else {
        BodySplit();
      }
    }

    /** New input, or an empty string to resume after a pause or when a queue slot is free again. While the input so far
        is one that the tight splitter accepts, no call fails, and whenever the parser is not held up by a pause or by
        a full queue, exactly the messages and payload octets of the one-shot splitter have been announced. */
    method FeedData(data: Bytes) returns (r: HttpResult)
      requires Valid()
      modifies Parts()
      ensures fed == old(fed) + data
      ensures payloadParser == old(payloadParser) || payloadParser == null || fresh(payloadParser)
      ensures r.Ok? ==> Valid() && Yields(|data|)
      ensures r.Error? ==> RunHttp(TightenHttp(p), AtHead([], false), fed).HttpFail?
      ensures var o := RunHttp(TightenHttp(p), AtHead([], false), fed);
              !o.HttpFail? ==> r.Ok? && !derailed && sink.log <= o.out && (!payloadHasMoreData && !QueueFull() ==> sink.log == o.out)
      ensures r.Ok? && !derailed && !payloadHasMoreData && !QueueFull() ==>
                UpToDate()
    {
      r := Split(data);
      TightHttpAgrees(p, AtHead([], false), fed);
      if r.Ok? && derailed { DoomedNow(p, AtHead([], false), fed); }
      if r.Ok? && !derailed { LogIsPrefix(); }
    }

    /** At any time, what has been announced is the beginning of what will be. */
    lemma LogIsPrefix()
      requires Valid() && !derailed
      ensures var o := RunHttp(TightenHttp(p), AtHead([], false), fed); !o.HttpFail? ==> sink.log <= o.out
    {
      hide Run, RunHttp, Advances, HttpAdvances, Quiet;
      if payloadParser == null {
        HttpAdvancesNow(p, AtHead([], false), fed, sink.log, AtHead(lines, closing), tail);
      } else {
        var pp := payloadParser;
        assert pp.fed + [] == pp.fed;
        HttpAdvancesNow(p, AtHead([], false), fed, pp.base, InBody(maxTrailers, pp.init, closing), pp.fed);
        AdvancesNow(pp.p, pp.init, pp.fed, pp.emitted, pp.State(), pp.chunkTail);
        assert Tighten(pp.p) == BodyPolicy(TightenHttp(p), maxTrailers);
        BodyOut(TightenHttp(p), maxTrailers, pp.init, closing, pp.fed, pp.emitted);
      }
    }

    lemma BodyOut(q: HttpPolicy, m: int, st: BodyState, closing: bool, s: Bytes, o: seq<Signal>)
      requires var r := Run(BodyPolicy(q, m), st, s); !r.Fail? ==> o <= r.out
      ensures var r := RunHttp(q, InBody(m, st, closing), s); !r.HttpFail? ==> o <= r.out
    {
      hide Run;
    }

    /** A call has ended while the parser is held up: by a pause, or by a full queue. Unless it was the same before, less is
        left to be done. */
    twostate predicate Yields(n: nat)
      reads Parts()
    {
      && (payloadHasMoreData ==>
            payloadParser != null && !Paused() && Left() <= old(Left()) + n && (!old(Paused()) ==> Left() < old(Left()) + n))
      && (QueueFull() && !old(QueueFull()) ==> Left() < old(Left()) + n)
    }

    method Split(data: Bytes) returns (r: HttpResult)
      requires Valid()
      modifies Parts()
      ensures fed == old(fed) + data
      ensures payloadParser == old(payloadParser) || payloadParser == null || fresh(payloadParser)
      ensures r.Ok? ==> Valid() && Yields(|data|)
      ensures r.Error? ==> RunHttp(TightenHttp(p), AtHead([], false), fed).HttpFail?
      ensures r.Ok? && !derailed && !payloadHasMoreData && !QueueFull() ==>
                UpToDate()
    {
      hide Tracks, Run, RunHttp, Queued, Find, HttpPayloadParser.At, HttpPayloadParser.Valid, Advances, WellFormed;
      var input := tail + data;
      Receive(data);
      var maxLineLength := p.maxLine;
      var shouldClose := false;
      ghost var moved, anyLine := false, false;
      while input != [] || payloadHasMoreData
        invariant Placed(input) && Settled() && tail == [] && (payloadHasMoreData ==> payloadParser != null)
        invariant fed == old(fed) + data
        invariant maxLineLength == if anyLine then p.maxField else p.maxLine
        invariant shouldClose ==> closing
        invariant payloadParser == old(payloadParser) || payloadParser == null || fresh(payloadParser)
        invariant |input| + Inner() <= old(Left()) + |data| && (moved ==> |input| + Inner() < old(Left()) + |data|)
        invariant moved || (Paused() == old(Paused()) && QueueFull() == old(QueueFull()))
        decreases |input| + Inner()
      {
        if payloadParser == null {
          if maxMsgQueueSize > 0 && msgInFlight >= maxMsgQueueSize {
            tail := input;
            return Ok;
          }
          var pos := Find(input, CRLF);
          if pos < 0 {
            r := KeepPartialLine(input);
            return;
          }
          anyLine := anyLine || pos > 0 || lines != [];
          r, input, shouldClose, maxLineLength := SplitLine(input, pos, shouldClose, maxLineLength);
          if r.Error? { return; }
        } else {
          var stop;
          stop, r, input := ReadBody(input);
          if stop { return; }
        }
        moved := true;
      }
      AllSplit();
      return Ok;
    }

    /** A complete line of a head. */
    method SplitLine(input: Bytes, pos: nat, shouldClose0: bool, maxLineLength0: int)
      returns (r: HttpResult, rest: Bytes, shouldClose: bool, maxLineLength: int)
      requires Placed(input) && Settled() && tail == [] && !payloadHasMoreData && payloadParser == null && !QueueFull()
      requires pos == Find(input, CRLF) && (shouldClose0 ==> closing)
      requires maxLineLength0 == p.maxLine || maxLineLength0 == p.maxField
      modifies this, sink
      ensures fed == old(fed) && tail == [] && !payloadHasMoreData && (payloadParser == null || fresh(payloadParser))
      ensures r.Error? ==> RunHttp(TightenHttp(p), AtHead([], false), fed).HttpFail?
      ensures r.Ok? ==> Placed(rest) && Settled() && (shouldClose ==> closing) && |rest| < |input| && Inner() == old(Inner())
      ensures maxLineLength == p.maxLine || maxLineLength == p.maxField
      ensures if pos == 0 && old(lines) == [] then r.Ok? && maxLineLength == maxLineLength0 && shouldClose == shouldClose0
              else
                && (r == Error(LineTooLong) <==> !shouldClose0 && pos > maxLineLength0)
                && (shouldClose0 || |old(lines)| + 1 > p.maxHeaders ==> r.Error?)
                && (r.Ok? ==> maxLineLength == p.maxField && (pos > 0 ==> lines == old(lines) + [input[..pos]]))
    {
      hide Tracks, Run, RunHttp, Queued, Find;
      r, rest, shouldClose, maxLineLength := Ok, input, shouldClose0, maxLineLength0;
      if pos == 0 && lines == [] {
        rest := SkipEmptyLine(input);
      } else {
        if shouldClose || pos > maxLineLength || |lines| + 1 > p.maxHeaders {
          LineRefused(input, pos, shouldClose, maxLineLength);
          if !shouldClose && pos > maxLineLength { r := Error(LineTooLong); } else { r := Error(FeedError.BadHttpMessage); }
          return;
        }
        maxLineLength := p.maxField;
        if pos > 0 {
          rest := ReadHeaderLine(input, pos);
        } else {
          r, rest, shouldClose := ReadHeadEnd(input);
        }
      }
    }

    lemma LineRefused(input: Bytes, pos: nat, shouldClose: bool, maxLineLength: int)
      requires Placed(input) && payloadParser == null && pos == Find(input, CRLF) && (pos > 0 || lines != [])
      requires maxLineLength == p.maxLine || maxLineLength == p.maxField
      requires (shouldClose && closing) || pos > maxLineLength || |lines| + 1 > p.maxHeaders
      ensures RunHttp(TightenHttp(p), AtHead([], false), fed).HttpFail?
    {
      HeadRefused(input);
    }

    /** The connection is closed inside a body, and the parser is resumed until it has finished with it: a body that runs to
        the end of the connection is complete, with all its octets, and any other one is not. */
    method CloseFully() returns (ok: bool)
      requires Valid() && payloadParser != null
      modifies Parts()
      ensures fed == old(fed) && ok == old(payloadParser.mode.ParseUntilEof?)
      ensures ok ==> payloadParser == null && sink.log == old(payloadParser.base + Octets(payloadParser.fed)) + [Eof]
      ensures ok && old(!payloadHasMoreData) ==> sink.log == old(sink.log) + [Eof]
    {
      hide Tracks, RunHttp, Queued;
      var pp := payloadParser;
      ok := pp.CloseFully();
      if ok { payloadParser, payloadHasMoreData := null, false; }
    }

    /** However often a pause is asked for and however full the queue is: after finitely many resumes, with a message taken
        whenever the queue is full, nothing holds the parser up any more. */
    method Drain() returns (r: HttpResult)
      requires Valid()
      modifies Parts()
      ensures fed == old(fed)
      ensures payloadParser == old(payloadParser) || payloadParser == null || fresh(payloadParser)
      ensures r.Ok? ==> Valid() && !payloadHasMoreData && !QueueFull()
      ensures var o := RunHttp(TightenHttp(p), AtHead([], false), fed);
              !o.HttpFail? ==> r.Ok? && !derailed && sink.log == o.out && UpToDate()
    {
      hide RunHttp, Tracks, Settled, HttpPayloadParser.Valid;
      r := FeedData([]);
      assert old(fed) + [] == old(fed);
      while r.Ok? && (payloadHasMoreData || QueueFull())
        invariant fed == old(fed) && (r.Ok? ==> Valid())
        invariant payloadParser == old(payloadParser) || payloadParser == null || fresh(payloadParser)
        invariant var o := RunHttp(TightenHttp(p), AtHead([], false), fed);
                  !o.HttpFail? ==> r.Ok? && !derailed && (!payloadHasMoreData && !QueueFull() ==> sink.log == o.out && UpToDate())
        decreases r.Ok? && (payloadHasMoreData || QueueFull()), Left(), Paused()
      {
        assert fed + [] == fed;
        if QueueFull() { MessageConsumed(); }
        r := FeedData([]);
      }
    }
  }
}
