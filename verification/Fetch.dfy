/** One request: a machine driven by the events of the socket, the decoders and the timers. */
module Fetch {
  import opened Common
  import opened Encoding

  const RATIO_FLOOR: nat := 65536
  const MAX_RATIO: nat := 200

  datatype Code = Timeout | UpstreamHttpFailure | ResponseTooLarge | SsrfAttempt

  /** The response headers that matter here. */
  datatype Head = Head(
    status: nat,
    contentType: Option<string>,
    contentLength: Option<string>,
    contentEncoding: Option<string>)

  datatype Raw = Raw(head: Head, body: Option<Bytes>, contentLength: Option<nat>, bytes: nat, warned: bool)

  datatype Answer = Resolved(raw: Raw) | Rejected(code: Code)

  datatype RequestFailure = Blocked | TimedOut | Unreachable

  datatype Event =
    | Response(head: Head)
    | Wire(count: nat)
    | Data(chunk: Bytes)
    | StreamError
    | End
    | TotalTimeout
    | Aborted
    | ConnectTimeout
    | RequestError(failure: RequestFailure)

  /** The variables that the event handlers share. `answers` lists every call of `resolve` and `reject`. */
  datatype Exchange = Exchange(
    settled: bool,
    answers: seq<Answer>,
    destroyed: bool,
    head: Option<Head>,
    streaming: bool,
    compressed: nat,
    bytes: nat,
    chunks: seq<Bytes>)

  const FRESH := Exchange(false, [], false, None, false, 0, 0, [])

  function Finish(x: Exchange, answer: Answer): Exchange {
    if x.settled then x else x.(settled := true, answers := x.answers + [answer])
  }

  function Destroyed(x: Exchange): Exchange {
    x.(destroyed := true)
  }

  predicate TooLarge(bytes: nat, compressed: nat, limit: nat) {
    bytes > limit || (bytes > RATIO_FLOOR && bytes > compressed * MAX_RATIO)
  }

  function Result(x: Exchange): Raw
    requires x.head.Some?
  {
    var h := x.head.value;
    Raw(h, if IsTextual(h.contentType) then Some(Concat(x.chunks)) else None, ContentLength(h.contentLength), x.bytes,
        Unsupported(Chain(h.contentEncoding)) != [])
  }

  function CodeOf(failure: RequestFailure): Code {
    match failure
    case Blocked => SsrfAttempt
    case TimedOut => Timeout
    case Unreachable => UpstreamHttpFailure
  }

  /** The handlers of the body are in place: a response has come and was not refused for its length. */
  predicate Listening(x: Exchange) {
    x.head.Some? && x.streaming
  }

  function OnData(x: Exchange, chunk: Bytes, limit: nat): Exchange
    requires Listening(x)
  {
    var x' := x.(bytes := x.bytes + |chunk|);
    if TooLarge(x'.bytes, x'.compressed, limit) then Finish(Destroyed(x'), Rejected(ResponseTooLarge))
    else if IsTextual(x.head.value.contentType) then x'.(chunks := x'.chunks + [chunk])
    else x'
  }

  function OnResponse(x: Exchange, head: Head, limit: nat): Exchange {
    var declared := ContentLength(head.contentLength);
    if declared.Some? && declared.value > limit then
      Finish(Destroyed(x.(head := Some(head))), Rejected(ResponseTooLarge))
    else x.(head := Some(head), streaming := true)
  }

  /** The events that can come: one response, and body events only once there are handlers for them. */
  predicate Possible(x: Exchange, e: Event) {
    match e
    case Response(_) => x.head.None?
    case Wire(_) => Listening(x)
    case Data(_) => Listening(x)
    case StreamError => Listening(x)
    case End => Listening(x)
    case _ => true
  }

  function Step(x: Exchange, e: Event, limit: nat): Exchange
    requires Possible(x, e)
  {
    match e
    case Response(head) => OnResponse(x, head, limit)
    case Wire(count) => x.(compressed := x.compressed + count)
    case Data(chunk) => OnData(x, chunk, limit)
    case StreamError => Finish(Destroyed(x), Rejected(UpstreamHttpFailure))
    case End => Finish(x, Resolved(Result(x)))
    case TotalTimeout => Finish(Destroyed(x), Rejected(Timeout))
    case Aborted => Finish(Destroyed(x), Rejected(Timeout))
    case ConnectTimeout => Finish(Destroyed(x), Rejected(Timeout))
    case RequestError(failure) => Finish(x, Rejected(CodeOf(failure)))
  }

  predicate CanRun(x: Exchange, events: seq<Event>, limit: nat)
    decreases |events|
  {
    events == [] || (Possible(x, events[0]) && CanRun(Step(x, events[0], limit), events[1..], limit))
  }

  function Run(x: Exchange, events: seq<Event>, limit: nat): Exchange
    requires CanRun(x, events, limit)
    decreases |events|
  {
    if events == [] then x else Run(Step(x, events[0], limit), events[1..], limit)
  }

  // ----- The handlers -----

  class Request {
    const limit: nat
    var settled: bool
    var answers: seq<Answer>
    var destroyed: bool
    var head: Option<Head>
    var streaming: bool
    var compressed: nat
    var bytes: nat
    var chunks: seq<Bytes>

    ghost function View(): Exchange
      reads this
    {
      Exchange(settled, answers, destroyed, head, streaming, compressed, bytes, chunks)
    }

    constructor (limit: nat)
      ensures View() == FRESH && this.limit == limit
    {
      this.limit := limit;
      settled, answers, destroyed, head, streaming := false, [], false, None, false;
      compressed, bytes, chunks := 0, 0, [];
    }

    method FinishWith(answer: Answer)
      modifies this
      ensures View() == Finish(old(View()), answer)
    {
      if settled {
        return;
      }
      settled := true;
      answers := answers + [answer];
    }

    method Fail(code: Code)
      modifies this
      ensures View() == Finish(Destroyed(old(View())), Rejected(code))
    {
      destroyed := true;
      FinishWith(Rejected(code));
    }

    method HandleResponse(h: Head)
      modifies this
      ensures View() == OnResponse(old(View()), h, limit)
    {
      head := Some(h);
      var declared := ContentLength(h.contentLength);
      if declared.Some? && declared.value > limit {
        Fail(ResponseTooLarge);
        return;
      }
      streaming := true;
    }

    method HandleData(chunk: Bytes)
      requires Listening(View())
      modifies this
      ensures View() == OnData(old(View()), chunk, limit)
    {
      bytes := bytes + |chunk|;
      if bytes > limit {
        Fail(ResponseTooLarge);
        return;
      }
      if bytes > RATIO_FLOOR && bytes > compressed * MAX_RATIO {
        Fail(ResponseTooLarge);
        return;
      }
      if IsTextual(head.value.contentType) {
        chunks := chunks + [chunk];
      }
    }

    /** `Buffer.concat(chunks)`. */
    method Body() returns (body: Bytes)
      ensures body == Concat(chunks)
    {
      body := [];
      var i := |chunks|;
      assert chunks[i..] == [];
      while i > 0
        invariant 0 <= i <= |chunks|
        invariant body == Concat(chunks[i..])
      {
        i := i - 1;
        assert chunks[i..][1..] == chunks[i + 1..];
        body := chunks[i] + body;
      }
      assert chunks[0..] == chunks;
    }

    method HandleEnd()
      requires Listening(View())
      modifies this
      ensures View() == Finish(old(View()), Resolved(Result(old(View()))))
    {
      if settled {
        return;
      }
      var h := head.value;
      var body: Option<Bytes> := None;
      if IsTextual(h.contentType) {
        var text := Body();
        body := Some(text);
      }
      var warned := Unsupported(Chain(h.contentEncoding)) != [];
      FinishWith(Resolved(Raw(h, body, ContentLength(h.contentLength), bytes, warned)));
    }

    method Handle(e: Event)
      requires Possible(View(), e)
      modifies this
      ensures View() == Step(old(View()), e, limit)
    {
      match e
      case Response(h) => HandleResponse(h);
      case Wire(count) => compressed := compressed + count;
      case Data(chunk) => HandleData(chunk);
      case StreamError => Fail(UpstreamHttpFailure);
      case End => HandleEnd();
      case TotalTimeout => Fail(Timeout);
      case Aborted => Fail(Timeout);
      case ConnectTimeout => Fail(Timeout);
      case RequestError(failure) => FinishWith(Rejected(CodeOf(failure)));
    }
  }

  // ----- The request is answered once -----

  predicate AnsweredOnce(x: Exchange) {
    |x.answers| == if x.settled then 1 else 0
  }

  /** What is common to every event: an answer stands, and there is never a second one. */
  lemma StepAnswers(x: Exchange, e: Event, limit: nat)
    requires Possible(x, e) && AnsweredOnce(x)
    ensures var x' := Step(x, e, limit);
            AnsweredOnce(x') && (x.settled ==> x'.settled && x'.answers == x.answers)
  {
  }

  /** Under every order of events at most one answer is given, and the first one stands. */
  lemma {:induction false} FirstAnswerStands(x: Exchange, events: seq<Event>, limit: nat)
    requires CanRun(x, events, limit) && AnsweredOnce(x)
    ensures var x' := Run(x, events, limit);
            AnsweredOnce(x') && (x.settled ==> x'.settled && x'.answers == x.answers)
    decreases |events|
  {
    hide Step, Possible, AnsweredOnce;
    if events != [] {
      StepAnswers(x, events[0], limit);
      FirstAnswerStands(Step(x, events[0], limit), events[1..], limit);
    }
  }

  /** The events that answer by themselves. */
  predicate Ends(e: Event) {
    e.StreamError? || e.End? || e.TotalTimeout? || e.Aborted? || e.ConnectTimeout? || e.RequestError?
  }

  /** A run in which the timer fires, or any other ending event comes, is answered exactly once. */
  lemma {:induction false} EndingAnswers(x: Exchange, events: seq<Event>, limit: nat, i: nat)
    requires CanRun(x, events, limit) && AnsweredOnce(x) && i < |events| && Ends(events[i])
    ensures |Run(x, events, limit).answers| == 1
    decreases |events|
  {
    StepAnswers(x, events[0], limit);
    var x' := Step(x, events[0], limit);
    if i == 0 {
      assert x'.settled;
      FirstAnswerStands(x', events[1..], limit);
    } else {
      hide Step, Possible, AnsweredOnce;
      EndingAnswers(x', events[1..], limit, i - 1);
    }
  }

  // ----- Which answer -----

  lemma {:induction false} RunSplit(x: Exchange, a: seq<Event>, b: seq<Event>, limit: nat)
    requires CanRun(x, a + b, limit)
    ensures CanRun(x, a, limit) && CanRun(Run(x, a, limit), b, limit)
    ensures Run(x, a + b, limit) == Run(Run(x, a, limit), b, limit)
    decreases |a|
  {
    hide Step, Possible;
    if a == [] {
      assert a + b == b;
    } else {
      assert (a + b)[0] == a[0] && (a + b)[1..] == a[1..] + b;
      RunSplit(Step(x, a[0], limit), a[1..], b, limit);
    }
  }

  /** Until the `i`-th event nothing was answered. */
  predicate OpenUntil(events: seq<Event>, i: nat, limit: nat) {
    i < |events| && CanRun(FRESH, events[..i], limit) && Run(FRESH, events[..i], limit).answers == []
  }

  predicate IsTimeout(e: Event) {
    e in {TotalTimeout, Aborted, ConnectTimeout, RequestError(TimedOut)}
  }

  /** What the caller is told when the request is ended by this event. */
  ghost predicate Tells(e: Event, answers: seq<Answer>) {
    && |answers| == 1
    && (answers[0].Resolved? <==> e == End)
    && (answers[0] == Rejected(Timeout) <==> IsTimeout(e))
    && (answers[0] == Rejected(SsrfAttempt) <==> e == RequestError(Blocked))
    && (answers[0] == Rejected(UpstreamHttpFailure) <==> e == StreamError || e == RequestError(Unreachable))
    && (answers[0] == Rejected(ResponseTooLarge) <==> e.Response? || e.Data?)
  }

  lemma OneStepTells(x: Exchange, e: Event, limit: nat)
    requires Possible(x, e) && AnsweredOnce(x) && x.answers == []
    ensures Step(x, e, limit).answers != [] ==> Tells(e, Step(x, e, limit).answers)
    ensures Ends(e) ==> Step(x, e, limit).answers != []
  {
    hide Result, ContentLength, TooLarge, IsTextual;
  }

  /** The caller is told by the first event that ends the request, whatever comes after it: a time-out by a timer or an
      abort, a blocked address by the guard, an unreachable source by an error, and a success by the end of the body. */
  lemma FirstEndDecides(events: seq<Event>, i: nat, limit: nat)
    requires CanRun(FRESH, events, limit) && OpenUntil(events, i, limit)
    requires Ends(events[i]) || !(i + 1 < |events| && OpenUntil(events, i + 1, limit))
    requires Run(FRESH, events, limit).answers != []
    ensures Tells(events[i], Run(FRESH, events, limit).answers)
  {
    hide Step, Possible, Tells, Ends, AnsweredOnce;
    var past, rest := events[..i], events[i + 1..];
    assert events == past + [events[i]] + rest && past + [events[i]] == events[..i + 1];
    RunSplit(FRESH, past + [events[i]], rest, limit);
    RunSplit(FRESH, past, [events[i]], limit);
    var x := Run(FRESH, past, limit);
    var y := Run(FRESH, events[..i + 1], limit);
    OneEventRun(x, events[i], limit);
    FreshIsOpen();
    FirstAnswerStands(FRESH, past, limit);
    FirstAnswerStands(FRESH, events[..i + 1], limit);
    OneStepTells(x, events[i], limit);
    FirstAnswerStands(y, rest, limit);
    AnsweredIsSettled(y);
    if y.answers == [] {
      assert false;
    }
  }

  lemma OneEventRun(x: Exchange, e: Event, limit: nat)
    requires CanRun(x, [e], limit)
    ensures Possible(x, e) && Run(x, [e], limit) == Step(x, e, limit)
  {
    assert [e][1..] == [];
  }

  lemma FreshIsOpen()
    ensures AnsweredOnce(FRESH)
  {
  }

  lemma AnsweredIsSettled(x: Exchange)
    requires AnsweredOnce(x)
    ensures x.settled <==> x.answers != []
  {
  }

  // ----- What a success carries -----

  /** Decoded and wire bytes that the run has delivered. */
  function DataOf(events: seq<Event>): Bytes {
    if events == [] then [] else (if events[0].Data? then events[0].chunk else []) + DataOf(events[1..])
  }

  function WireOf(events: seq<Event>): nat {
    if events == [] then 0 else (if events[0].Wire? then events[0].count else 0) + WireOf(events[1..])
  }

  lemma {:induction false} DataConcat(a: seq<Event>, b: seq<Event>)
    ensures DataOf(a + b) == DataOf(a) + DataOf(b) && WireOf(a + b) == WireOf(a) + WireOf(b)
    decreases |a|
  {
    if a == [] {
      assert a + b == b;
    } else {
      assert (a + b)[1..] == a[1..] + b;
      DataConcat(a[1..], b);
    }
  }

  /** The data that had arrived at some point of the run, within the limits and against the wire bytes
      that had arrived by then. */
  predicate WithinLimits(events: seq<Event>, limit: nat) {
    && |DataOf(events)| <= limit
    && (|DataOf(events)| <= 65536 || |DataOf(events)| <= 200 * WireOf(events))
  }

  /** The counters and buffers as functions of the events so far, as long as nothing was answered. */
  predicate Tracks(x: Exchange, past: seq<Event>, limit: nat) {
    && x.bytes == |DataOf(past)| && x.compressed == WireOf(past)
    && (x.head.None? ==> x.bytes == 0)
    && (x.streaming ==> x.head.Some?)
    && (Listening(x) ==>
          var n := ContentLength(x.head.value.contentLength); n.Some? ==> n.value <= limit)
    && (!x.settled ==>
          && !TooLarge(x.bytes, x.compressed, limit)
          && (x.head.Some? ==> x.streaming)
          && Concat(x.chunks) == if x.head.Some? && IsTextual(x.head.value.contentType) then DataOf(past) else [])
  }

  lemma OneEvent(past: seq<Event>, e: Event)
    ensures DataOf(past + [e]) == DataOf(past) + (if e.Data? then e.chunk else [])
    ensures WireOf(past + [e]) == WireOf(past) + (if e.Wire? then e.count else 0)
  {
    DataConcat(past, [e]);
    assert [e][1..] == [] && DataOf([]) == [];
  }

  lemma DataTracks(x: Exchange, past: seq<Event>, chunk: Bytes, limit: nat)
    requires Tracks(x, past, limit) && Listening(x)
    ensures Tracks(OnData(x, chunk, limit), past + [Data(chunk)], limit)
  {
    OneEvent(past, Data(chunk));
    ConcatLast(x.chunks, chunk);
    hide DataOf, WireOf, Concat, ContentLength, IsTextual;
  }

  lemma OtherTracks(x: Exchange, past: seq<Event>, e: Event, limit: nat)
    requires Tracks(x, past, limit) && Possible(x, e) && !e.Data?
    ensures Tracks(Step(x, e, limit), past + [e], limit)
  {
    OneEvent(past, e);
    hide DataOf, WireOf, Concat, ContentLength, IsTextual, Result;
  }

  lemma StepTracks(x: Exchange, past: seq<Event>, e: Event, limit: nat)
    requires Tracks(x, past, limit) && Possible(x, e)
    ensures Tracks(Step(x, e, limit), past + [e], limit)
  {
    hide Tracks, OnData, OnResponse, Finish, Result;
    if e.Data? {
      DataTracks(x, past, e.chunk, limit);
    } else {
      OtherTracks(x, past, e, limit);
    }
  }

  /** What is true of a success, given the events up to the one that ended the body. */
  predicate GoodResult(raw: Raw, past: seq<Event>, limit: nat) {
    && raw.bytes == |DataOf(past)|
    && raw.bytes <= limit
    && (raw.bytes <= RATIO_FLOOR || raw.bytes <= MAX_RATIO * WireOf(past))
    && raw.body == (if IsTextual(raw.head.contentType) then Some(DataOf(past)) else None)
    && raw.contentLength == ContentLength(raw.head.contentLength)
    && raw.warned == (Unsupported(Chain(raw.head.contentEncoding)) != [])
    && (raw.contentLength.Some? ==> raw.contentLength.value <= limit)
  }

  lemma EndIsGood(x: Exchange, past: seq<Event>, limit: nat)
    requires Tracks(x, past, limit) && Listening(x) && !x.settled
    ensures GoodResult(Result(x), past, limit)
  {
    hide DataOf, WireOf, Concat, ContentLength, IsTextual, Unsupported, Chain;
  }

  lemma SettlingStep(x: Exchange, past: seq<Event>, e: Event, limit: nat, raw: Raw)
    requires Tracks(x, past, limit) && AnsweredOnce(x) && !x.settled && Possible(x, e)
    requires Step(x, e, limit).answers == [Resolved(raw)]
    ensures e == End && GoodResult(raw, past, limit)
  {
    hide GoodResult, Result, ContentLength, IsTextual, DataOf, WireOf;
    assert x.answers == [];
    assert Step(x, e, limit).answers[0] == Resolved(raw);
    if e.End? {
      EndIsGood(x, past, limit);
    }
  }

  lemma SplitPast(past: seq<Event>, events: seq<Event>, j: nat)
    requires j < |events|
    ensures past + [events[0]] + events[1..][..j] == past + events[..j + 1]
  {
  }

  lemma RunStep(x: Exchange, events: seq<Event>, limit: nat)
    requires CanRun(x, events, limit) && events != []
    ensures Possible(x, events[0]) && CanRun(Step(x, events[0], limit), events[1..], limit)
    ensures Run(x, events, limit) == Run(Step(x, events[0], limit), events[1..], limit)
  {
    hide Step, Possible;
  }

  lemma {:induction false} SuccessFrom(x: Exchange, past: seq<Event>, events: seq<Event>, limit: nat, raw: Raw)
    returns (k: nat)
    requires Tracks(x, past, limit) && AnsweredOnce(x) && !x.settled && CanRun(x, events, limit)
    requires Run(x, events, limit).answers == [Resolved(raw)]
    ensures k < |events| && events[k] == End && GoodResult(raw, past + events[..k], limit)
    decreases |events|
  {
    assert events != [];
    hide *;
    RunStep(x, events, limit);
    var e := events[0];
    var x' := Step(x, e, limit);
    StepAnswers(x, e, limit);
    StepTracks(x, past, e, limit);
    if x'.settled {
      FirstAnswerStands(x', events[1..], limit);
      SettlingStep(x, past, e, limit, raw);
      k := 0;
      assert past + events[..0] == past;
    } else {
      var j := SuccessFrom(x', past + [e], events[1..], limit, raw);
      SplitPast(past, events, j);
      k := j + 1;
    }
  }

  /** A success is the answer to the end of the body: it carries at most `limit` decoded bytes, at most
      64 KiB or 200 times the wire bytes, and a textual body is all the data that came before. */
  lemma SuccessIsBounded(events: seq<Event>, limit: nat, raw: Raw) returns (k: nat)
    requires CanRun(FRESH, events, limit) && Resolved(raw) in Run(FRESH, events, limit).answers
    ensures k < |events| && events[k] == End && GoodResult(raw, events[..k], limit)
  {
    FirstAnswerStands(FRESH, events, limit);
    assert Run(FRESH, events, limit).answers == [Resolved(raw)];
    k := SuccessFrom(FRESH, [], events, limit, raw);
    assert [] + events[..k] == events[..k];
  }

  /** What is delivered up to the end of the body is what the chain of decoders makes of the bytes on the wire. */
  ghost predicate DecodersDeliver(events: seq<Event>, head: Head, wire: Bytes, codecs: Codecs) {
    forall j :: 0 <= j < |events| && events[j] == End ==>
      BodyOf(head.contentEncoding, wire, codecs) == Some(DataOf(events[..j]))
  }

  /** A textual success has the bytes on the wire undecoded, with a warning, if any declared encoding is unknown;
      otherwise, with decoders that invert the encoders, it has the very bytes that the server encoded. */
  lemma OriginalArrives(events: seq<Event>, limit: nat, raw: Raw, wire: Bytes, original: Bytes, codecs: Codecs)
    requires AllInvert(codecs) && CanRun(FRESH, events, limit) && Resolved(raw) in Run(FRESH, events, limit).answers
    requires DecodersDeliver(events, raw.head, wire, codecs) && IsTextual(raw.head.contentType)
    ensures raw.warned <==> exists t :: t in Chain(raw.head.contentEncoding) && !Supported(t)
    ensures raw.warned ==> raw.body == Some(wire)
    ensures !raw.warned && wire == Encoded(Chain(raw.head.contentEncoding), original, codecs) ==>
              raw.body == Some(original) && raw.bytes == |original|
  {
    var k := SuccessIsBounded(events, limit, raw);
    NoneUnsupported(Chain(raw.head.contentEncoding));
    HeaderDecodes(raw.head.contentEncoding, original, codecs);
    hide Run, CanRun, Chain, Unsupported, Decoded, Encoded, DataOf, WireOf, AllInvert, ContentLength, IsTextual;
    assert BodyOf(raw.head.contentEncoding, wire, codecs) == Some(DataOf(events[..k]));
  }

  // ----- When the guards let a body through -----

  predicate OnlyBody(events: seq<Event>) {
    forall e :: e in events ==> e.Wire? || e.Data?
  }

  /** At every piece of data the limits were kept. */
  predicate GuardsPass(past: seq<Event>, body: seq<Event>, limit: nat) {
    forall k :: 0 <= k < |body| && body[k].Data? ==> WithinLimits(past + body[..k + 1], limit)
  }

  lemma GuardsStep(past: seq<Event>, body: seq<Event>, limit: nat)
    requires body != []
    ensures GuardsPass(past, body, limit)
       <==> ((body[0].Data? ==> WithinLimits(past + [body[0]], limit))
             && GuardsPass(past + [body[0]], body[1..], limit))
  {
    hide WithinLimits;
    var next := past + [body[0]];
    assert past + body[..1] == next;
    if GuardsPass(past, body, limit) {
      forall k | 0 <= k < |body[1..]| && body[1..][k].Data? ensures WithinLimits(next + body[1..][..k + 1], limit) {
        assert body[k + 1].Data?;
        assert next + body[1..][..k + 1] == past + body[..k + 2];
      }
    }
    if (body[0].Data? ==> WithinLimits(next, limit)) && GuardsPass(next, body[1..], limit) {
      forall k | 0 <= k < |body| && body[k].Data? ensures WithinLimits(past + body[..k + 1], limit) {
        if k > 0 {
          assert body[1..][k - 1].Data?;
          assert next + body[1..][..k] == past + body[..k + 1];
        }
      }
    }
  }

  lemma BodyStep(x: Exchange, past: seq<Event>, e: Event, limit: nat)
    requires Tracks(x, past, limit) && Listening(x) && (e.Wire? || e.Data?)
    ensures Listening(Step(x, e, limit))
    ensures !x.settled ==>
              (Step(x, e, limit).settled <==> e.Data? && !WithinLimits(past + [e], limit))
  {
    OneEvent(past, e);
    hide DataOf, WireOf, Concat, ContentLength, IsTextual, Result;
  }

  lemma BodyFacts(x: Exchange, body: seq<Event>)
    requires OnlyBody(body) && body != [] && Listening(x)
    ensures (body[0].Wire? || body[0].Data?) && OnlyBody(body[1..]) && Possible(x, body[0])
  {
    assert body[0] in body && forall o :: o in body[1..] ==> o in body;
  }

  lemma RunFirst(x: Exchange, events: seq<Event>, limit: nat)
    requires events != [] && Possible(x, events[0]) && CanRun(Step(x, events[0], limit), events[1..], limit)
    ensures CanRun(x, events, limit)
    ensures Run(x, events, limit) == Run(Step(x, events[0], limit), events[1..], limit)
  {
    hide Step, Possible;
  }

  lemma NoBody(x: Exchange, past: seq<Event>, limit: nat)
    ensures CanRun(x, [], limit) && Run(x, [], limit) == x && GuardsPass(past, [], limit)
  {
  }

  lemma {:induction false} BodyRuns(x: Exchange, past: seq<Event>, body: seq<Event>, limit: nat)
    requires Tracks(x, past, limit) && Listening(x) && AnsweredOnce(x) && OnlyBody(body)
    ensures CanRun(x, body, limit)
    ensures Listening(Run(x, body, limit)) && Tracks(Run(x, body, limit), past + body, limit)
    ensures !x.settled ==> (!Run(x, body, limit).settled <==> GuardsPass(past, body, limit))
    ensures AnsweredOnce(Run(x, body, limit))
    decreases |body|
  {
    hide *;
    if body == [] {
      NoBody(x, past, limit);
      assert past + body == past;
    } else {
      var e := body[0];
      BodyFacts(x, body);
      BodyStep(x, past, e, limit);
      StepTracks(x, past, e, limit);
      StepAnswers(x, e, limit);
      GuardsStep(past, body, limit);
      BodyRuns(Step(x, e, limit), past + [e], body[1..], limit);
      FirstAnswerStands(Step(x, e, limit), body[1..], limit);
      RunFirst(x, body, limit);
      assert past + [e] + body[1..] == past + body;
    }
  }

  lemma RunOne(x: Exchange, e: Event, limit: nat)
    requires Possible(x, e)
    ensures CanRun(x, [e], limit) && Run(x, [e], limit) == Step(x, e, limit)
  {
    hide Step, Possible;
    assert [e][1..] == [];
  }

  /** The events of a response that is read to its end. */
  function Exchanged(head: Head, body: seq<Event>): seq<Event> {
    [Response(head)] + body + [End]
  }

  lemma StartOfBody(head: Head, limit: nat)
    requires ContentLength(head.contentLength).Some? ==> ContentLength(head.contentLength).value <= limit
    ensures CanRun(FRESH, [Response(head)], limit)
    ensures var x := Run(FRESH, [Response(head)], limit);
            Listening(x) && !x.settled && AnsweredOnce(x) && Tracks(x, [Response(head)], limit)
  {
    RunOne(FRESH, Response(head), limit);
    assert Tracks(FRESH, [], limit);
    StepTracks(FRESH, [], Response(head), limit);
    assert [] + [Response(head)] == [Response(head)];
  }

  lemma EndStep(x: Exchange, limit: nat)
    requires Listening(x) && AnsweredOnce(x)
    ensures |Step(x, End, limit).answers| == 1
    ensures if x.settled then Step(x, End, limit).answers == x.answers else Step(x, End, limit).answers[0].Resolved?
  {
  }

  lemma NotTheEnd(head: Head, body: seq<Event>, k: nat)
    requires OnlyBody(body) && k <= |body|
    ensures ([Response(head)] + body)[k] != End
  {
    if k > 0 {
      assert ([Response(head)] + body)[k] == body[k - 1] && body[k - 1] in body;
    }
  }

  lemma NoSuccessWithoutEnd(head: Head, body: seq<Event>, limit: nat)
    requires OnlyBody(body) && CanRun(FRESH, [Response(head)] + body, limit)
    ensures forall a :: a in Run(FRESH, [Response(head)] + body, limit).answers ==> !a.Resolved?
  {
    forall a | a in Run(FRESH, [Response(head)] + body, limit).answers ensures !a.Resolved? {
      if a.Resolved? {
        var k := SuccessIsBounded([Response(head)] + body, limit, a.raw);
        NotTheEnd(head, body, k);
      }
    }
  }

  /** A response of acceptable declared length, body events and the end: it is a success exactly if the
      limits were kept at every piece of data. */
  lemma GuardsDecide(head: Head, body: seq<Event>, limit: nat)
    requires OnlyBody(body)
    requires ContentLength(head.contentLength).Some? ==> ContentLength(head.contentLength).value <= limit
    ensures CanRun(FRESH, Exchanged(head, body), limit)
    ensures var answers := Run(FRESH, Exchanged(head, body), limit).answers;
            |answers| == 1 && (answers[0].Resolved? <==> GuardsPass([Response(head)], body, limit))
  {
    var first := [Response(head)];
    StartOfBody(head, limit);
    var start := Run(FRESH, first, limit);
    BodyRuns(start, first, body, limit);
    JoinRuns(FRESH, first, body, limit);
    NoSuccessWithoutEnd(head, body, limit);
    var last := Run(start, body, limit);
    RunOne(last, End, limit);
    EndStep(last, limit);
    hide Listening, Tracks, GuardsPass, OnlyBody, ContentLength, Run, CanRun, Step;
    JoinRuns(FRESH, first + body, [End], limit);
  }

  lemma {:induction false} JoinRuns(x: Exchange, a: seq<Event>, b: seq<Event>, limit: nat)
    requires CanRun(x, a, limit) && CanRun(Run(x, a, limit), b, limit)
    ensures CanRun(x, a + b, limit) && Run(x, a + b, limit) == Run(Run(x, a, limit), b, limit)
    decreases |a|
  {
    hide Step, Possible;
    if a == [] {
      assert a + b == b;
    } else {
      assert (a + b)[0] == a[0] && (a + b)[1..] == a[1..] + b;
      JoinRuns(Step(x, a[0], limit), a[1..], b, limit);
    }
  }

  /** A declared length above the limit is refused before any body is read. */
  lemma {:induction false} DeclaredTooLarge(head: Head, limit: nat, events: seq<Event>)
    requires ContentLength(head.contentLength).Some? && ContentLength(head.contentLength).value > limit
    requires CanRun(Step(FRESH, Response(head), limit), events, limit)
    ensures Run(Step(FRESH, Response(head), limit), events, limit).answers == [Rejected(ResponseTooLarge)]
  {
    FirstAnswerStands(Step(FRESH, Response(head), limit), events, limit);
  }
}
