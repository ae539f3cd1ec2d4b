/** Concurrent MCP calls through the paywall: handshake, verification, the buffered handler,
    settlement or cancellation, and delivery.

    Every call is a separate asynchronous activity. The facilitator, the payment library and the
    tool handlers are adversaries: they answer in any order and with any result.
  */
module PaymentProtocol {
  import opened Common
  import opened Paywall

  type Id = nat

  datatype Verb = Post | OtherVerb

  datatype Request = Request(verb: Verb, paidTools: set<string>, body: Json)

  /** The paywall looks at this request. */
  predicate Gated(r: Request) {
    r.verb == Post && NeedsPayment(r.body, r.paidTools)
  }

  /** One run of the facilitator handshake, shared by the calls that wait for it. */
  datatype Handshake = Running | Ready | Failed

  /** What the payment library makes of the request's payment. */
  datatype Verdict = VerifyThrew | PaymentError | PaymentVerified | NotRequired

  datatype Phase =
    | Connecting(attempt: nat)
    | Verifying
    | Handling
    | Settling
    | Cancelling
    | Finished

  datatype Event =
    | Rejected                                   // answered without running the handler
    | Verified
    | Waived                                     // the library demanded no payment
    | Entered                                    // the body reached the handler
    | Returned(produced: Buffer, threw: bool)
    | Tried(attempt: Attempt)
    | SettlementAnswer(settle: SettleAnswer)
    | CancellationAnswer(cancel: CancelAnswer)
    | Delivered(response: Response)              // the buffered response written to the socket
    | ServerError                                // the 500 written when an unbuffered handler throws

  datatype Call = Call(request: Request, phase: Phase, paid: bool, buffer: Buffer, headSent: bool, history: seq<Event>)

  datatype State = State(attempts: seq<Handshake>, current: Option<nat>, calls: map<Id, Call>)

  const BOOT := State([], None, map[])

  datatype Action =
    | Arrive(id: Id, request: Request)
    | HandshakeEnds(attempt: nat, ok: bool)
    | Resume(id: Id)                             // the awaited handshake is over
    | VerdictIn(id: Id, verdict: Verdict)
    | Writes(id: Id, write: Write)
    | Returns(id: Id, threw: bool)
    | SettleIn(id: Id, settle: SettleAnswer)
    | CancelIn(id: Id, cancel: CancelAnswer)

  predicate In(s: State, id: Id, phase: Phase) {
    id in s.calls && s.calls[id].phase == phase
  }

  predicate Enabled(s: State, a: Action) {
    match a
    case Arrive(id, _) => id !in s.calls
    case HandshakeEnds(k, _) => k < |s.attempts| && s.attempts[k] == Running
    case Resume(id) =>
      id in s.calls && s.calls[id].phase.Connecting?
      && s.calls[id].phase.attempt < |s.attempts| && s.attempts[s.calls[id].phase.attempt] != Running
    case VerdictIn(id, _) => In(s, id, Verifying)
    case Writes(id, _) => In(s, id, Handling)
    case Returns(id, _) => In(s, id, Handling)
    case SettleIn(id, _) => In(s, id, Settling)
    case CancelIn(id, _) => In(s, id, Cancelling)
  }

  /** The call as it stands when it arrives and needs no payment. */
  function Straight(request: Request): Call {
    Call(request, Handling, false, EMPTY_BUFFER, false, [Entered])
  }

  function OnVerdict(c: Call, verdict: Verdict): Call {
    match verdict
    case VerifyThrew => c.(phase := Finished, history := c.history + [Rejected])
    case PaymentError => c.(phase := Finished, history := c.history + [Rejected])
    case PaymentVerified => c.(phase := Handling, paid := true, history := c.history + [Verified, Entered])
    case NotRequired => c.(phase := Handling, history := c.history + [Waived, Entered])
  }

  /** A paid call's response is buffered; any other goes straight to the socket. */
  function OnWrite(c: Call, w: Write): Call {
    if c.paid then c.(buffer := Capture(c.buffer, w)) else c.(headSent := true)
  }

  function OnReturn(c: Call, threw: bool, parse: Parser): Call {
    if c.paid then
      var failed := CallFailed(c.buffer, threw, parse);
      c.(phase := if failed then Cancelling else Settling,
         history := c.history + [Returned(c.buffer, threw), Tried(if failed then CancelTried else SettleTried)])
    else
      c.(phase := Finished, history := c.history + if threw && !c.headSent then [ServerError] else [])
  }

  /** Flush: write the buffered response unless that was done before. */
  function Flushed(c: Call): Call {
    if c.buffer.flushed then c.(phase := Finished)
    else c.(phase := Finished, history := c.history + [Delivered(Sent(c.buffer))], buffer := c.buffer.(flushed := true))
  }

  function OnSettle(c: Call, answer: SettleAnswer): Call {
    Flushed(c.(buffer := AfterSettle(c.buffer, answer), history := c.history + [SettlementAnswer(answer)]))
  }

  function OnCancel(c: Call, answer: CancelAnswer): Call {
    Flushed(c.(buffer := AfterCancel(c.buffer, answer), history := c.history + [CancellationAnswer(answer)]))
  }

  function OnResume(c: Call, outcome: Handshake): Call {
    if outcome == Ready then c.(phase := Verifying)
    else c.(phase := Finished, history := c.history + [Rejected])
  }

  /** A gated call joins the current handshake, or starts one. */
  function OnArrival(s: State, id: Id, request: Request): State {
    if !Gated(request) then s.(calls := s.calls[id := Straight(request)])
    else
      var s' := if s.current.None? then s.(attempts := s.attempts + [Running], current := Some(|s.attempts|)) else s;
      s'.(calls := s'.calls[id := Call(request, Connecting(s'.current.value), false, EMPTY_BUFFER, false, [])])
  }

  function Update(s: State, id: Id, c: Call): State {
    s.(calls := s.calls[id := c])
  }

  function Act(s: State, a: Action, parse: Parser): State
    requires Enabled(s, a)
  {
    match a
    case Arrive(id, request) => OnArrival(s, id, request)
    case HandshakeEnds(k, ok) =>
      State(s.attempts[k := if ok then Ready else Failed], if ok then s.current else None, s.calls)
    case Resume(id) => Update(s, id, OnResume(s.calls[id], s.attempts[s.calls[id].phase.attempt]))
    case VerdictIn(id, verdict) => Update(s, id, OnVerdict(s.calls[id], verdict))
    case Writes(id, w) => Update(s, id, OnWrite(s.calls[id], w))
    case Returns(id, threw) => Update(s, id, OnReturn(s.calls[id], threw, parse))
    case SettleIn(id, answer) => Update(s, id, OnSettle(s.calls[id], answer))
    case CancelIn(id, answer) => Update(s, id, OnCancel(s.calls[id], answer))
  }

  predicate Possible(s: State, acts: seq<Action>, parse: Parser)
    decreases |acts|
  {
    acts == [] || (Enabled(s, acts[0]) && Possible(Act(s, acts[0], parse), acts[1..], parse))
  }

  function Run(s: State, acts: seq<Action>, parse: Parser): State
    requires Possible(s, acts, parse)
    decreases |acts|
  {
    if acts == [] then s else Run(Act(s, acts[0], parse), acts[1..], parse)
  }

  // ----- The story of one call -----

  predicate PaidStory(c: Call, parse: Parser) {
    var h := c.history;
    && Gated(c.request)
    && |h| >= 2 && h[0] == Verified && h[1] == Entered
    && (c.phase.Handling? ==> |h| == 2 && !c.buffer.flushed)
    && (c.phase.Settling? || c.phase.Cancelling? || c.phase.Finished? ==>
        && |h| >= 4 && h[2].Returned?
        && h[3] == Tried(if CallFailed(h[2].produced, h[2].threw, parse) then CancelTried else SettleTried))
    && (c.phase.Settling? ==> |h| == 4 && h[3] == Tried(SettleTried) && c.buffer == h[2].produced && !c.buffer.flushed)
    && (c.phase.Cancelling? ==>
        |h| == 4 && h[3] == Tried(CancelTried) && c.buffer == h[2].produced && !c.buffer.flushed)
    && (c.phase.Finished? ==> |h| == 6 && if h[3] == Tried(SettleTried)
          then h[4].SettlementAnswer? && h[5] == Delivered(Sent(AfterSettle(h[2].produced, h[4].settle)))
          else h[4].CancellationAnswer? && h[5] == Delivered(Sent(AfterCancel(h[2].produced, h[4].cancel))))
  }

  predicate FreeStory(c: Call) {
    match c.phase
    case Handling => c.history == (if Gated(c.request) then [Waived, Entered] else [Entered])
    case Finished =>
      || (Gated(c.request) && c.history == [Rejected])
      || c.history == (if Gated(c.request) then [Waived, Entered] else [Entered])
      || c.history == (if Gated(c.request) then [Waived, Entered] else [Entered]) + [ServerError]
    case _ => false
  }

  predicate Story(c: Call, parse: Parser) {
    if c.phase.Connecting? || c.phase.Verifying? then
      Gated(c.request) && !c.paid && c.history == [] && c.buffer == EMPTY_BUFFER
    else if c.paid then PaidStory(c, parse)
    else FreeStory(c)
  }

  ghost predicate Invariant(s: State, parse: Parser) {
    forall id :: id in s.calls ==> Story(s.calls[id], parse)
  }

  lemma VerdictStory(c: Call, verdict: Verdict, parse: Parser)
    requires Story(c, parse) && c.phase.Verifying?
    ensures Story(OnVerdict(c, verdict), parse)
  {
  }

  lemma WriteStory(c: Call, w: Write, parse: Parser)
    requires Story(c, parse) && c.phase.Handling?
    ensures Story(OnWrite(c, w), parse)
  {
  }

  lemma ReturnStory(c: Call, threw: bool, parse: Parser)
    requires Story(c, parse) && c.phase.Handling?
    ensures Story(OnReturn(c, threw, parse), parse)
  {
  }

  lemma AnswersKeepFlushed(b: Buffer, answer: SettleAnswer)
    ensures AfterSettle(b, answer).flushed == b.flushed
  {
  }

  lemma SettleStory(c: Call, answer: SettleAnswer, parse: Parser)
    requires Story(c, parse) && c.phase.Settling?
    ensures Story(OnSettle(c, answer), parse)
  {
    hide AfterSettle, AfterCancel, Sent, CallFailed, Gated;
    AnswersKeepFlushed(c.buffer, answer);
  }

  lemma CancelStory(c: Call, answer: CancelAnswer, parse: Parser)
    requires Story(c, parse) && c.phase.Cancelling?
    ensures Story(OnCancel(c, answer), parse)
  {
  }

  /** What the action makes of the one call it is about. */
  lemma OwnStory(s: State, a: Action, parse: Parser)
    requires Invariant(s, parse) && Enabled(s, a) && !a.HandshakeEnds?
    ensures a.id in Act(s, a, parse).calls && Story(Act(s, a, parse).calls[a.id], parse)
  {
    hide Story, OnVerdict, OnWrite, OnReturn, OnSettle, OnCancel, OnResume;
    match a
    case Arrive(_, request) => ArrivalStory(s, a.id, request, parse);
    case Resume(id) => ResumeStory(s.calls[id], s.attempts[s.calls[id].phase.attempt], parse);
    case VerdictIn(id, verdict) => VerdictStory(s.calls[id], verdict, parse);
    case Writes(id, w) => WriteStory(s.calls[id], w, parse);
    case Returns(id, threw) => ReturnStory(s.calls[id], threw, parse);
    case SettleIn(id, answer) => SettleStory(s.calls[id], answer, parse);
    case CancelIn(id, answer) => CancelStory(s.calls[id], answer, parse);
  }

  lemma ArrivalStory(s: State, id: Id, request: Request, parse: Parser)
    ensures Story(OnArrival(s, id, request).calls[id], parse)
  {
  }

  lemma ResumeStory(c: Call, outcome: Handshake, parse: Parser)
    requires Story(c, parse) && c.phase.Connecting?
    ensures Story(OnResume(c, outcome), parse)
  {
  }

  /** An action on one call leaves every other call as it was. */
  lemma CallsAreIsolated(s: State, a: Action, other: Id, parse: Parser)
    requires Enabled(s, a) && (a.HandshakeEnds? || other != a.id)
    ensures other in Act(s, a, parse).calls <==> other in s.calls
    ensures other in s.calls ==> Act(s, a, parse).calls[other] == s.calls[other]
  {
  }

  lemma ActInvariant(s: State, a: Action, parse: Parser)
    requires Invariant(s, parse) && Enabled(s, a)
    ensures Invariant(Act(s, a, parse), parse)
  {
    hide Act, Story, Enabled;
    forall id | id in Act(s, a, parse).calls ensures Story(Act(s, a, parse).calls[id], parse) {
      if a.HandshakeEnds? || id != a.id {
        CallsAreIsolated(s, a, id, parse);
      } else {
        OwnStory(s, a, parse);
      }
    }
  }

  lemma {:induction false} RunInvariant(s: State, acts: seq<Action>, parse: Parser)
    requires Invariant(s, parse) && Possible(s, acts, parse)
    ensures Invariant(Run(s, acts, parse), parse)
    decreases |acts|
  {
    if acts != [] {
      ActInvariant(s, acts[0], parse);
      RunInvariant(Act(s, acts[0], parse), acts[1..], parse);
    }
  }

  // ----- What holds in every reachable state -----

  /** Everything recorded about a call so far. */
  function History(acts: seq<Action>, id: Id, parse: Parser): seq<Event>
    requires Possible(BOOT, acts, parse)
  {
    var s := Run(BOOT, acts, parse);
    if id in s.calls then s.calls[id].history else []
  }

  lemma CallStory(acts: seq<Action>, id: Id, parse: Parser)
    requires Possible(BOOT, acts, parse) && id in Run(BOOT, acts, parse).calls
    ensures Story(Run(BOOT, acts, parse).calls[id], parse)
  {
    hide Run, Possible, Story;
    RunInvariant(BOOT, acts, parse);
  }

  /** Where an event stands in the history of a call with a verified payment. */
  function Position(e: Event): nat {
    match e
    case Verified => 0
    case Entered => 1
    case Returned(_, _) => 2
    case Tried(_) => 3
    case SettlementAnswer(_) => 4
    case CancellationAnswer(_) => 4
    case Delivered(_) => 5
    case _ => 6
  }

  lemma PaidPositions(c: Call, parse: Parser)
    requires PaidStory(c, parse) && (c.phase.Handling? || c.phase.Settling? || c.phase.Cancelling? || c.phase.Finished?)
    ensures forall i :: 0 <= i < |c.history| ==> Position(c.history[i]) == i
    ensures |c.history| == if c.phase.Handling? then 2 else if c.phase.Finished? then 6 else 4
  {
    hide CallFailed, Gated, Sent, AfterSettle, AfterCancel;
  }

  lemma FreeEvents(c: Call)
    requires FreeStory(c)
    ensures |c.history| <= 3
    ensures forall i :: 0 <= i < |c.history| ==> Position(c.history[i]) == 6 || c.history[i] == Entered
    ensures forall i :: 0 <= i < |c.history| && c.history[i] == Entered ==> i == if Gated(c.request) then 1 else 0
    ensures Gated(c.request) && |c.history| >= 2 ==> c.history[0] == Waived
  {
    hide Gated;
  }

  lemma EnteredAfterVerdict(c: Call, i: nat, parse: Parser)
    requires Story(c, parse) && Gated(c.request) && i < |c.history| && c.history[i] == Entered
    ensures i == 1 && (c.history[0] == Verified || c.history[0] == Waived)
  {
    hide CallFailed, Gated, Sent, AfterSettle, AfterCancel;
    if c.paid {
      PaidPositions(c, parse);
    } else {
      FreeEvents(c);
    }
  }

  /** A body that must be paid for reaches the handler only after its payment was verified, or when
      the library itself demanded none. */
  lemma PaidBodyIsVerifiedFirst(acts: seq<Action>, id: Id, i: nat, parse: Parser)
    requires Possible(BOOT, acts, parse) && id in Run(BOOT, acts, parse).calls
    requires Gated(Run(BOOT, acts, parse).calls[id].request)
    ensures var h := History(acts, id, parse);
            i < |h| && h[i] == Entered ==> i >= 1 && (h[i - 1] == Verified || h[i - 1] == Waived)
  {
    CallStory(acts, id, parse);
    hide Run, Possible, Story, Gated;
    var c := Run(BOOT, acts, parse).calls[id];
    if i < |c.history| && c.history[i] == Entered {
      EnteredAfterVerdict(c, i, parse);
    }
  }

  /** In particular no call of a priced tool, alone or anywhere in a batch, is handled on an unverified payment. */
  lemma PricedCallIsVerifiedFirst(acts: seq<Action>, id: Id, i: nat, before: seq<Json>, call: Json, after: seq<Json>,
                                  parse: Parser)
    requires Possible(BOOT, acts, parse) && id in Run(BOOT, acts, parse).calls
    requires var r := Run(BOOT, acts, parse).calls[id].request;
             r.verb == Post && IsPriced(call, r.paidTools) && r.body in {call, Array(before + [call] + after)}
    ensures var h := History(acts, id, parse);
            i < |h| && h[i] == Entered ==> i >= 1 && (h[i - 1] == Verified || h[i - 1] == Waived)
  {
    hide Run, Possible, NeedsPayment, IsPriced;
    PaidCallIsCharged(before, call, after, Run(BOOT, acts, parse).calls[id].request.paidTools);
    PaidBodyIsVerifiedFirst(acts, id, i, parse);
  }

  /** A request that asks for nothing priced enters the handler as it arrives and is never verified, settled or
      cancelled; any other waits for its verdict. */
  lemma FreeBodyEntersAtOnce(acts: seq<Action>, id: Id, parse: Parser)
    requires Possible(BOOT, acts, parse) && id in Run(BOOT, acts, parse).calls
    ensures var r := Run(BOOT, acts, parse).calls[id].request;
            var free := r.verb != Post || if r.body.Array?
                                          then forall m :: m in r.body.items ==> AsksNothingPriced(m, r.paidTools)
                                          else AsksNothingPriced(r.body, r.paidTools);
            var h := History(acts, id, parse);
            && (free ==> h == [Entered] || h == [Entered, ServerError])
            && (!free && h != [] ==> h[0] in {Verified, Waived, Rejected})
  {
    CallStory(acts, id, parse);
    hide Run, Possible, Story, NeedsPayment;
    var c := Run(BOOT, acts, parse).calls[id];
    PaymentNeededIff(c.request.body, c.request.paidTools);
    hide AsksNothingPriced;
    StoryBegins(c, parse);
  }

  lemma StoryBegins(c: Call, parse: Parser)
    requires Story(c, parse)
    ensures !Gated(c.request) ==> c.history == [Entered] || c.history == [Entered, ServerError]
    ensures Gated(c.request) && c.history != [] ==> c.history[0] in {Verified, Waived, Rejected}
  {
    hide CallFailed, Gated, Sent, AfterSettle, AfterCancel;
  }

  // ----- The history says what the payment library said -----

  predicate IsReply(e: Event) {
    e.Verified? || e.Waived? || e.SettlementAnswer? || e.CancellationAnswer?
  }

  /** The replies of the payment library that a history records, in order. */
  function Replies(h: seq<Event>): seq<Event> {
    if h == [] then [] else (if IsReply(h[0]) then [h[0]] else []) + Replies(h[1..])
  }

  function ReplyIn(a: Action, id: Id): seq<Event> {
    match a
    case VerdictIn(i, verdict) =>
      if i != id then []
      else if verdict == PaymentVerified then [Verified]
      else if verdict == NotRequired then [Waived]
      else []
    case SettleIn(i, answer) => if i == id then [SettlementAnswer(answer)] else []
    case CancelIn(i, answer) => if i == id then [CancellationAnswer(answer)] else []
    case _ => []
  }

  /** The replies to call `id` that the run's actions bring, in order. */
  function RepliesOf(acts: seq<Action>, id: Id): seq<Event> {
    if acts == [] then [] else ReplyIn(acts[0], id) + RepliesOf(acts[1..], id)
  }

  lemma {:induction false} RepliesConcat(a: seq<Event>, b: seq<Event>)
    ensures Replies(a + b) == Replies(a) + Replies(b)
  {
    hide IsReply;
    if a == [] {
      assert a + b == b;
    } else {
      assert (a + b)[0] == a[0] && (a + b)[1..] == a[1..] + b;
      RepliesConcat(a[1..], b);
    }
  }

  lemma RepliesOfOne(e: Event)
    ensures Replies([]) == [] && Replies([e]) == if IsReply(e) then [e] else []
  {
    hide IsReply;
    assert [e][1..] == [];
  }

  function RepliesIn(s: State, id: Id): seq<Event> {
    if id in s.calls then Replies(s.calls[id].history) else []
  }

  lemma SettleAppends(c: Call, answer: SettleAnswer) returns (tail: seq<Event>)
    ensures OnSettle(c, answer).history == c.history + tail
    ensures 1 <= |tail| <= 2 && tail[0] == SettlementAnswer(answer) && (|tail| == 2 ==> tail[1].Delivered?)
  {
    hide Sent, AfterSettle;
    tail := OnSettle(c, answer).history[|c.history|..];
  }

  lemma CancelAppends(c: Call, answer: CancelAnswer) returns (tail: seq<Event>)
    ensures OnCancel(c, answer).history == c.history + tail
    ensures 1 <= |tail| <= 2 && tail[0] == CancellationAnswer(answer) && (|tail| == 2 ==> tail[1].Delivered?)
  {
    hide Sent, AfterCancel;
    tail := OnCancel(c, answer).history[|c.history|..];
  }

  lemma ReturnAppends(c: Call, threw: bool, parse: Parser) returns (tail: seq<Event>)
    ensures OnReturn(c, threw, parse).history == c.history + tail
    ensures |tail| <= 2 && forall e :: e in tail ==> !IsReply(e)
  {
    hide CallFailed;
    tail := OnReturn(c, threw, parse).history[|c.history|..];
  }

  lemma VerdictAppends(c: Call, verdict: Verdict) returns (tail: seq<Event>)
    ensures OnVerdict(c, verdict).history == c.history + tail
    ensures 1 <= |tail| <= 2 && (|tail| == 2 ==> tail[1] == Entered)
    ensures verdict == PaymentVerified ==> tail[0] == Verified
    ensures verdict == NotRequired ==> tail[0] == Waived
    ensures verdict in {VerifyThrew, PaymentError} ==> tail[0] == Rejected
  {
    tail := OnVerdict(c, verdict).history[|c.history|..];
  }

  /** An action appends at most two events to the history of its call, the reply first. */
  lemma HistoryGrows(s: State, a: Action, parse: Parser) returns (tail: seq<Event>)
    requires Enabled(s, a) && !a.HandshakeEnds?
    ensures a.id in Act(s, a, parse).calls
    ensures Act(s, a, parse).calls[a.id].history == (if a.id in s.calls then s.calls[a.id].history else []) + tail
    ensures ReplyIn(a, a.id) == (if tail != [] && IsReply(tail[0]) then [tail[0]] else [])
    ensures |tail| <= 2 && (|tail| == 2 ==> !IsReply(tail[1]))
  {
    hide Gated, Capture, OnSettle, OnCancel, OnReturn, OnVerdict;
    match a
    case SettleIn(id, answer) => tail := SettleAppends(s.calls[id], answer);
    case CancelIn(id, answer) => tail := CancelAppends(s.calls[id], answer);
    case Arrive(id, _) => tail := Act(s, a, parse).calls[id].history;
    case Resume(id) => tail := Act(s, a, parse).calls[id].history[|s.calls[id].history|..];
    case VerdictIn(id, verdict) => tail := VerdictAppends(s.calls[id], verdict);
    case Writes(id, _) => tail := [];
    case Returns(id, threw) => tail := ReturnAppends(s.calls[id], threw, parse);
  }

  lemma RepliesOfTail(h: seq<Event>, tail: seq<Event>)
    requires |tail| <= 2 && (|tail| == 2 ==> !IsReply(tail[1]))
    ensures Replies(h + tail) == Replies(h) + if tail != [] && IsReply(tail[0]) then [tail[0]] else []
  {
    hide IsReply, Replies;
    RepliesConcat(h, tail);
    if tail == [] {
      RepliesOfOne(Entered);
    } else {
      RepliesOfOne(tail[0]);
      if |tail| == 2 {
        RepliesOfOne(tail[1]);
        RepliesConcat([tail[0]], [tail[1]]);
        assert tail == [tail[0]] + [tail[1]];
      } else {
        assert tail == [tail[0]];
      }
    }
  }

  lemma OwnReplies(s: State, a: Action, parse: Parser)
    requires Enabled(s, a) && !a.HandshakeEnds?
    ensures RepliesIn(Act(s, a, parse), a.id) == RepliesIn(s, a.id) + ReplyIn(a, a.id)
  {
    var tail := HistoryGrows(s, a, parse);
    hide Act, Enabled, ReplyIn, IsReply;
    RepliesOfTail(if a.id in s.calls then s.calls[a.id].history else [], tail);
    RepliesOfOne(Entered);
  }

  lemma ActReplies(s: State, a: Action, id: Id, parse: Parser)
    requires Enabled(s, a)
    ensures RepliesIn(Act(s, a, parse), id) == RepliesIn(s, id) + ReplyIn(a, id)
  {
    hide Act, Enabled, Replies;
    if a.HandshakeEnds? || id != a.id {
      CallsAreIsolated(s, a, id, parse);
    } else {
      OwnReplies(s, a, parse);
    }
  }

  lemma {:induction false} RunReplies(s: State, acts: seq<Action>, id: Id, parse: Parser)
    requires Possible(s, acts, parse)
    ensures RepliesIn(Run(s, acts, parse), id) == RepliesIn(s, id) + RepliesOf(acts, id)
    decreases |acts|
  {
    hide RepliesIn, Act, Enabled, ReplyIn;
    if acts != [] {
      ActReplies(s, acts[0], id, parse);
      RunReplies(Act(s, acts[0], parse), acts[1..], id, parse);
    }
  }

  /** The history of a call records exactly what the payment library said about it, in order: a payment counts as
      verified, or as not demanded, and a settlement as answered, if and only if the library said so. */
  lemma RepliesAreRecorded(acts: seq<Action>, id: Id, parse: Parser)
    requires Possible(BOOT, acts, parse)
    ensures Replies(History(acts, id, parse)) == RepliesOf(acts, id)
  {
    hide Run, Possible, RepliesOf;
    RunReplies(BOOT, acts, id, parse);
    RepliesOfOne(Entered);
  }

  predicate IsFinished(acts: seq<Action>, id: Id, parse: Parser)
    requires Possible(BOOT, acts, parse)
  {
    id in Run(BOOT, acts, parse).calls && Run(BOOT, acts, parse).calls[id].phase.Finished?
  }

  /** Settled or cancelled once, delivered once, or neither. */
  ghost predicate ChargedOnce(h: seq<Event>, finished: bool) {
    && (forall i :: 0 <= i < |h| && h[i].Tried? ==> i == 3 && h[0] == Verified)
    && (forall i :: 0 <= i < |h| && h[i].Delivered? ==> i == 5 && h[3].Tried? && finished)
    && (finished && Verified in h ==> |h| == 6 && h[3].Tried? && h[5].Delivered?)
  }

  lemma StoryChargesOnce(c: Call, parse: Parser)
    requires Story(c, parse)
    ensures ChargedOnce(c.history, c.phase.Finished?)
  {
    hide CallFailed, Gated, Sent, AfterSettle, AfterCancel;
    if c.phase.Connecting? || c.phase.Verifying? {
    } else if c.paid {
      PaidPositions(c, parse);
    } else {
      FreeEvents(c);
    }
  }

  /** A verified call is settled or cancelled exactly once by the time it is finished, and its buffer
      is flushed exactly then; a call without verified payment is never settled or cancelled. */
  lemma OneSettlementOrCancellation(acts: seq<Action>, id: Id, parse: Parser)
    requires Possible(BOOT, acts, parse)
    ensures ChargedOnce(History(acts, id, parse), IsFinished(acts, id, parse))
  {
    if id in Run(BOOT, acts, parse).calls {
      CallStory(acts, id, parse);
      hide Run, Possible, Story, ChargedOnce;
      StoryChargesOnce(Run(BOOT, acts, parse).calls[id], parse);
    }
  }

  /** What the tool handler left behind when it returned. */
  ghost predicate ReturnedWith(h: seq<Event>, produced: Buffer, threw: bool) {
    Returned(produced, threw) in h
  }

  lemma ReturnDecides(c: Call, produced: Buffer, threw: bool, parse: Parser)
    requires Story(c, parse) && ReturnedWith(c.history, produced, threw)
    ensures |c.history| >= 4 && c.paid && c.history[2] == Returned(produced, threw)
    ensures Tried(SettleTried) in c.history <==> !CallFailed(produced, threw, parse)
    ensures Tried(CancelTried) in c.history <==> CallFailed(produced, threw, parse)
  {
    hide CallFailed, Gated, Sent, AfterSettle, AfterCancel;
    var i :| 0 <= i < |c.history| && c.history[i] == Returned(produced, threw);
    if c.paid {
      PaidPositions(c, parse);
      if Tried(SettleTried) in c.history {
        var k :| 0 <= k < |c.history| && c.history[k] == Tried(SettleTried);
      }
      if Tried(CancelTried) in c.history {
        var k :| 0 <= k < |c.history| && c.history[k] == Tried(CancelTried);
      }
    } else {
      FreeEvents(c);
    }
  }

  /** The transport succeeded and no payload of the body reports a failure at any depth. */
  ghost predicate Clean(produced: Buffer, parse: Parser) {
    var text := Text.Trim(Concat(produced.chunks));
    && produced.status < 400
    && (text == "" || forall p :: p in Payloads(text, ContentType(produced)) ==> PayloadClean(p, parse))
  }

  lemma CleanMeansNotFailed(produced: Buffer, threw: bool, parse: Parser)
    ensures CallFailed(produced, threw, parse) <==> threw || !Clean(produced, parse)
  {
    hide PayloadClean, PayloadFails, Payloads;
    forall p ensures PayloadClean(p, parse) <==> !PayloadFails(p, parse) {
      CleanMeansNoFailure(p, parse);
    }
  }

  /** A call is tried for settlement exactly when its handler returned normally with a clean
      response; in every other case it is cancelled. */
  lemma SettledIffDelivered(acts: seq<Action>, id: Id, produced: Buffer, threw: bool, parse: Parser)
    requires Possible(BOOT, acts, parse) && ReturnedWith(History(acts, id, parse), produced, threw)
    ensures var h := History(acts, id, parse);
            && (Tried(SettleTried) in h <==> !threw && Clean(produced, parse))
            && (Tried(CancelTried) in h <==> threw || !Clean(produced, parse))
  {
    CallStory(acts, id, parse);
    hide Run, Possible, Story, CallFailed, Clean;
    ReturnDecides(Run(BOOT, acts, parse).calls[id], produced, threw, parse);
    CleanMeansNotFailed(produced, threw, parse);
  }

  /** Parsed, the payload has no failing record at the end of any path of array positions. */
  ghost predicate PayloadClean(payload: string, parse: Parser) {
    match parse(payload)
    case Some(v) => !FailsSomewhere(v)
    case None => !HasMarker(payload)
  }

  lemma CleanMeansNoFailure(payload: string, parse: Parser)
    ensures PayloadClean(payload, parse) <==> !PayloadFails(payload, parse)
  {
    if parse(payload).Some? {
      FailureAtAnyDepth(parse(payload).value);
    }
  }

  lemma CleanMeansUnfailed(produced: Buffer, parse: Parser)
    requires produced.status < 400
    ensures Clean(produced, parse) <==> !ResponseFailed(Concat(produced.chunks), ContentType(produced), parse)
  {
    CleanMeansNotFailed(produced, false, parse);
    hide Clean, ResponseFailed;
  }

  /** A normally returned event stream in which one event alone reports a failure is tried for settlement if and only
      if that event is skipped, for a character in its payload that `.` does not match. */
  lemma FailedStreamIsSettledIff(acts: seq<Action>, id: Id, produced: Buffer, i: nat, line: string, gap: string,
                                 payload: string, parse: Parser)
    requires Possible(BOOT, acts, parse) && ReturnedWith(History(acts, id, parse), produced, false)
    requires produced.status < 400 && Text.Contains(Text.Lower(ContentType(produced)), "event-stream")
    requires var lines := Text.SplitLines(Text.Trim(Concat(produced.chunks)));
             i < |lines| && lines[i] == line && OthersPass(lines, i, parse)
    requires IsEvent(line, gap, payload) && PayloadFails(payload, parse)
    ensures Tried(SettleTried) in History(acts, id, parse) <==> HasLineEnd(payload)
  {
    hide *;
    FailsByLine(Concat(produced.chunks), ContentType(produced), parse, i, line, gap, payload);
    CleanMeansUnfailed(produced, parse);
    SettledIffDelivered(acts, id, produced, false, parse);
  }

  lemma DeliveryIsSettled(c: Call, produced: Buffer, threw: bool, response: Response, parse: Parser)
    requires Story(c, parse) && ReturnedWith(c.history, produced, threw) && Delivered(response) in c.history
    ensures |c.history| == 6
    ensures !CallFailed(produced, threw, parse)
            ==> c.history[4].SettlementAnswer? && response == Sent(AfterSettle(produced, c.history[4].settle))
    ensures CallFailed(produced, threw, parse)
            ==> c.history[4].CancellationAnswer? && response == Sent(AfterCancel(produced, c.history[4].cancel))
  {
    hide CallFailed, Gated, Sent, AfterSettle, AfterCancel;
    ReturnDecides(c, produced, threw, parse);
  }

  /** After a normal return with an unfailed body, that body reaches the socket if the settlement
      succeeded; otherwise the buyer gets the refusal instead, and nothing of the tool's body. */
  lemma UnfailedBodyNeedsSettlement(acts: seq<Action>, id: Id, produced: Buffer, response: Response, parse: Parser)
    requires Possible(BOOT, acts, parse)
    requires ReturnedWith(History(acts, id, parse), produced, false) && Clean(produced, parse)
    requires Delivered(response) in History(acts, id, parse)
    ensures var h := History(acts, id, parse);
            && |h| == 6 && h[4].SettlementAnswer?
            && match h[4].settle
               case Settled(_) => response.status == produced.status && response.body == Concat(produced.chunks)
               case Declined(status, body, _) => response.status == status && response.body == body
               case SettleThrew(errorBody) => response.status == PAYMENT_INVALID && response.body == errorBody
  {
    CallStory(acts, id, parse);
    hide Run, Possible, Story, CallFailed, Clean;
    CleanMeansNotFailed(produced, false, parse);
    DeliveryIsSettled(Run(BOOT, acts, parse).calls[id], produced, false, response, parse);
    var h := History(acts, id, parse);
    if h[4].settle.Declined? {
      assert Concat([h[4].settle.body]) == h[4].settle.body + Concat([]);
    } else if h[4].settle.SettleThrew? {
      assert Concat([h[4].settle.errorBody]) == h[4].settle.errorBody + Concat([]);
    }
  }

  /** A failed call is delivered as it was produced, uncharged: also the partial body of a handler
      that threw after writing. */
  lemma FailedBodyIsDeliveredUncharged(acts: seq<Action>, id: Id, produced: Buffer, threw: bool, response: Response,
                                       parse: Parser)
    requires Possible(BOOT, acts, parse)
    requires ReturnedWith(History(acts, id, parse), produced, threw) && (threw || !Clean(produced, parse))
    requires Delivered(response) in History(acts, id, parse)
    ensures Tried(SettleTried) !in History(acts, id, parse)
    ensures response.status == produced.status && response.body == Concat(produced.chunks)
  {
    CallStory(acts, id, parse);
    hide Run, Possible, Story, CallFailed, Clean;
    CleanMeansNotFailed(produced, threw, parse);
    ReturnDecides(Run(BOOT, acts, parse).calls[id], produced, threw, parse);
    DeliveryIsSettled(Run(BOOT, acts, parse).calls[id], produced, threw, response, parse);
  }

  // ----- The buffer holds everything the handler wrote, in order -----

  /** What the handler of call `id` writes during the run, in order. */
  function WritesOf(acts: seq<Action>, id: Id): seq<Write> {
    if acts == [] then [] else WrittenBy(acts[0], id) + WritesOf(acts[1..], id)
  }

  function WrittenBy(a: Action, id: Id): seq<Write> {
    if a.Writes? && a.id == id then [a.write] else []
  }

  /** `ws` is what the handler of the call has written: the buffer holds it until the handler returns, and what the
      handler left behind afterwards. A call without verified payment is not buffered. */
  ghost predicate HoldsWrites(c: Call, ws: seq<Write>) {
    match c.phase
    case Connecting(_) => ws == []
    case Verifying => ws == []
    case Handling => c.paid ==> Holds(c.buffer, ws)
    case _ => c.paid ==> |c.history| >= 3 && c.history[2].Returned? && Holds(c.history[2].produced, ws)
  }

  ghost predicate HasWrites(s: State, id: Id, ws: seq<Write>) {
    if id in s.calls then HoldsWrites(s.calls[id], ws) else ws == []
  }

  lemma VerdictWrites(c: Call, verdict: Verdict, ws: seq<Write>, parse: Parser)
    requires Story(c, parse) && c.phase.Verifying? && HoldsWrites(c, ws)
    ensures HoldsWrites(OnVerdict(c, verdict), ws)
  {
    NothingWritten();
    hide Holds;
  }

  lemma WriteWrites(c: Call, w: Write, ws: seq<Write>, parse: Parser)
    requires Story(c, parse) && c.phase.Handling? && HoldsWrites(c, ws)
    ensures HoldsWrites(OnWrite(c, w), ws + [w])
  {
    if c.paid {
      CaptureHolds(c.buffer, w, ws);
    }
    hide Capture, Holds;
  }

  lemma ReturnWrites(c: Call, threw: bool, ws: seq<Write>, parse: Parser)
    requires Story(c, parse) && c.phase.Handling? && HoldsWrites(c, ws)
    ensures HoldsWrites(OnReturn(c, threw, parse), ws)
  {
    hide CallFailed, Holds;
  }

  lemma SettleWrites(c: Call, answer: SettleAnswer, ws: seq<Write>, parse: Parser)
    requires Story(c, parse) && c.phase.Settling? && HoldsWrites(c, ws)
    ensures HoldsWrites(OnSettle(c, answer), ws)
  {
    hide AfterSettle, AfterCancel, Sent, CallFailed, Gated, Holds;
  }

  lemma CancelWrites(c: Call, answer: CancelAnswer, ws: seq<Write>, parse: Parser)
    requires Story(c, parse) && c.phase.Cancelling? && HoldsWrites(c, ws)
    ensures HoldsWrites(OnCancel(c, answer), ws)
  {
    hide AfterSettle, AfterCancel, Sent, CallFailed, Gated, Holds;
  }

  lemma ResumeWrites(c: Call, outcome: Handshake, ws: seq<Write>, parse: Parser)
    requires Story(c, parse) && c.phase.Connecting? && HoldsWrites(c, ws)
    ensures HoldsWrites(OnResume(c, outcome), ws)
  {
    hide Holds;
  }

  lemma ArrivalWrites(s: State, id: Id, request: Request)
    requires id !in s.calls
    ensures id in OnArrival(s, id, request).calls && HoldsWrites(OnArrival(s, id, request).calls[id], [])
  {
    hide Holds;
  }

  /** What the action adds to the writes of the one call it is about. */
  lemma OwnWrites(s: State, a: Action, ws: seq<Write>, parse: Parser)
    requires Invariant(s, parse) && Enabled(s, a) && !a.HandshakeEnds? && HasWrites(s, a.id, ws)
    ensures HasWrites(Act(s, a, parse), a.id, ws + WrittenBy(a, a.id))
  {
    hide Story, HoldsWrites, OnVerdict, OnWrite, OnReturn, OnSettle, OnCancel, OnResume, OnArrival;
    assert ws + [] == ws;
    match a
    case Arrive(_, request) => ArrivalWrites(s, a.id, request);
    case Resume(id) => ResumeWrites(s.calls[id], s.attempts[s.calls[id].phase.attempt], ws, parse);
    case VerdictIn(id, verdict) => VerdictWrites(s.calls[id], verdict, ws, parse);
    case Writes(id, w) => WriteWrites(s.calls[id], w, ws, parse);
    case Returns(id, threw) => ReturnWrites(s.calls[id], threw, ws, parse);
    case SettleIn(id, answer) => SettleWrites(s.calls[id], answer, ws, parse);
    case CancelIn(id, answer) => CancelWrites(s.calls[id], answer, ws, parse);
  }

  lemma ActWrites(s: State, a: Action, id: Id, ws: seq<Write>, parse: Parser)
    requires Invariant(s, parse) && Enabled(s, a) && HasWrites(s, id, ws)
    ensures HasWrites(Act(s, a, parse), id, ws + WrittenBy(a, id))
  {
    hide Act, Invariant, HoldsWrites, Enabled;
    if a.HandshakeEnds? || id != a.id {
      CallsAreIsolated(s, a, id, parse);
      assert ws + [] == ws;
    } else {
      OwnWrites(s, a, ws, parse);
    }
  }

  lemma FirstStep(s: State, acts: seq<Action>, parse: Parser)
    requires Possible(s, acts, parse) && acts != []
    ensures Enabled(s, acts[0]) && Possible(Act(s, acts[0], parse), acts[1..], parse)
    ensures Run(s, acts, parse) == Run(Act(s, acts[0], parse), acts[1..], parse)
  {
    hide Act, Enabled;
  }

  lemma NoSteps(s: State, id: Id, parse: Parser)
    ensures Possible(s, [], parse) && Run(s, [], parse) == s && WritesOf([], id) == []
  {
  }

  lemma WritesStep(acts: seq<Action>, id: Id)
    requires acts != []
    ensures WritesOf(acts, id) == WrittenBy(acts[0], id) + WritesOf(acts[1..], id)
  {
  }

  lemma {:induction false} RunWrites(s: State, acts: seq<Action>, id: Id, ws: seq<Write>, parse: Parser)
    requires Invariant(s, parse) && Possible(s, acts, parse) && HasWrites(s, id, ws)
    ensures HasWrites(Run(s, acts, parse), id, ws + WritesOf(acts, id))
    decreases |acts|
  {
    hide *;
    if acts == [] {
      NoSteps(s, id, parse);
      assert ws + [] == ws;
    } else {
      FirstStep(s, acts, parse);
      ActInvariant(s, acts[0], parse);
      ActWrites(s, acts[0], id, ws, parse);
      RunWrites(Act(s, acts[0], parse), acts[1..], id, ws + WrittenBy(acts[0], id), parse);
      WritesStep(acts, id);
      var own, rest := WrittenBy(acts[0], id), WritesOf(acts[1..], id);
      assert ws + own + rest == ws + (own + rest);
    }
  }

  /** In every interleaving the buffer of a paid call holds the status, headers and body of its own handler's writes
      and of nobody else's, while the handler runs and as it leaves it. */
  lemma BufferIsWhatWasWritten(acts: seq<Action>, id: Id, parse: Parser)
    requires Possible(BOOT, acts, parse) && id in Run(BOOT, acts, parse).calls
    ensures var c := Run(BOOT, acts, parse).calls[id];
            && (c.paid && c.phase.Handling? ==> Holds(c.buffer, WritesOf(acts, id)))
            && forall produced, threw :: ReturnedWith(c.history, produced, threw) ==>
                 Holds(produced, WritesOf(acts, id))
  {
    CallStory(acts, id, parse);
    RunWrites(BOOT, acts, id, [], parse);
    assert [] + WritesOf(acts, id) == WritesOf(acts, id);
    var c := Run(BOOT, acts, parse).calls[id];
    hide Run, Possible, Story, WritesOf, Holds;
    forall produced, threw | ReturnedWith(c.history, produced, threw)
      ensures Holds(produced, WritesOf(acts, id))
    {
      ReturnDecides(c, produced, threw, parse);
      ReturnedIsOver(c, produced, threw, parse);
    }
  }

  lemma ReturnedIsOver(c: Call, produced: Buffer, threw: bool, parse: Parser)
    requires Story(c, parse) && ReturnedWith(c.history, produced, threw)
    ensures c.phase.Settling? || c.phase.Cancelling? || c.phase.Finished?
  {
    ReturnDecides(c, produced, threw, parse);
    hide CallFailed, Gated, Sent, AfterSettle, AfterCancel;
  }

  /** The writes report no failure: a code below 400, and no payload of the body that fails, read as the content type
      last written says. */
  ghost predicate WrittenClean(ws: seq<Write>, parse: Parser) {
    var contentType := LastValue(EntriesOf(ws), "content-type");
    var text := Text.Trim(BodyOf(ws));
    && LastCode(ws) < 400
    && (text == "" || forall p ::
          p in Payloads(text, if contentType.Some? then contentType.value else "") ==> PayloadClean(p, parse))
  }

  lemma CleanIsWritten(produced: Buffer, ws: seq<Write>, parse: Parser)
    requires Holds(produced, ws)
    ensures Clean(produced, parse) <==> WrittenClean(ws, parse)
  {
    hide LastCode, EntriesOf, BodyOf, Payloads, PayloadClean, Concat, LastValue;
  }

  /** Whether a returned call is tried for settlement follows from what its handler wrote. */
  lemma SettledIffWrittenClean(acts: seq<Action>, id: Id, produced: Buffer, threw: bool, parse: Parser)
    requires Possible(BOOT, acts, parse) && ReturnedWith(History(acts, id, parse), produced, threw)
    ensures Tried(SettleTried) in History(acts, id, parse) <==> !threw && WrittenClean(WritesOf(acts, id), parse)
    ensures Tried(CancelTried) in History(acts, id, parse) <==> threw || !WrittenClean(WritesOf(acts, id), parse)
  {
    BufferIsWhatWasWritten(acts, id, parse);
    SettledIffDelivered(acts, id, produced, threw, parse);
    hide Run, Possible, WritesOf, Clean, WrittenClean, Holds;
    CleanIsWritten(produced, WritesOf(acts, id), parse);
  }

  /** A handler whose last code was 400 or more is not paid, and that code is what the buyer gets. */
  lemma ErrorCodeIsNotCharged(acts: seq<Action>, id: Id, produced: Buffer, threw: bool, parse: Parser)
    requires Possible(BOOT, acts, parse) && ReturnedWith(History(acts, id, parse), produced, threw)
    requires LastCode(WritesOf(acts, id)) >= 400
    ensures Tried(SettleTried) !in History(acts, id, parse)
    ensures forall response :: Delivered(response) in History(acts, id, parse) ==>
              response.status == LastCode(WritesOf(acts, id)) && response.body == BodyOf(WritesOf(acts, id))
  {
    SettledIffWrittenClean(acts, id, produced, threw, parse);
    forall response | Delivered(response) in History(acts, id, parse)
      ensures response.status == LastCode(WritesOf(acts, id)) && response.body == BodyOf(WritesOf(acts, id))
    {
      DeliveredIsWritten(acts, id, produced, threw, response, parse);
    }
  }

  /** The response is what was written, with further headers. */
  ghost predicate IsWritten(response: Response, ws: seq<Write>, extra: seq<(string, string)>) {
    && response.status == LastCode(ws) && response.body == BodyOf(ws)
    && HeadersAre(response.headers, EntriesOf(ws) + extra)
  }

  lemma SentIsWritten(produced: Buffer, ws: seq<Write>, extra: seq<(string, string)>)
    requires Holds(produced, ws)
    ensures IsWritten(Sent(produced), ws, [])
    ensures IsWritten(Sent(produced.(headers := Merge(produced.headers, extra))), ws, extra)
  {
    MergeAdds(produced.headers, EntriesOf(ws), extra);
    assert EntriesOf(ws) + [] == EntriesOf(ws);
    hide LastCode, EntriesOf, BodyOf, HeadersAre, Merge, Concat;
  }

  /** The response that reaches the socket after a verified payment is what this call's handler wrote, whatever other
      calls write, with the headers of the payment library, or the refusal of a settlement that did not succeed. */
  lemma DeliveredIsWritten(acts: seq<Action>, id: Id, produced: Buffer, threw: bool, response: Response, parse: Parser)
    requires Possible(BOOT, acts, parse) && ReturnedWith(History(acts, id, parse), produced, threw)
    requires Delivered(response) in History(acts, id, parse)
    ensures |History(acts, id, parse)| == 6
    ensures threw || !WrittenClean(WritesOf(acts, id), parse) ==>
              var answer := History(acts, id, parse)[4];
              && answer.CancellationAnswer?
              && IsWritten(response, WritesOf(acts, id), CancelHeaders(answer.cancel))
    ensures !threw && WrittenClean(WritesOf(acts, id), parse) ==>
              var answer := History(acts, id, parse)[4];
              && answer.SettlementAnswer?
              && match answer.settle
                 case Settled(headers) => IsWritten(response, WritesOf(acts, id), headers)
                 case Declined(status, body, _) => response.status == status && response.body == body
                 case SettleThrew(errorBody) => response.status == PAYMENT_INVALID && response.body == errorBody
  {
    var h, ws := History(acts, id, parse), WritesOf(acts, id);
    BufferIsWhatWasWritten(acts, id, parse);
    CallStory(acts, id, parse);
    hide Run, Possible, Story, Clean, WrittenClean, CallFailed, Holds, WritesOf, IsWritten;
    CleanIsWritten(produced, ws, parse);
    CleanMeansNotFailed(produced, threw, parse);
    DeliveryIsSettled(Run(BOOT, acts, parse).calls[id], produced, threw, response, parse);
    if threw || !Clean(produced, parse) {
      SentIsWritten(produced, ws, CancelHeaders(h[4].cancel));
    } else if h[4].settle.Settled? {
      SentIsWritten(produced, ws, h[4].settle.headers);
    } else {
      UnfailedBodyNeedsSettlement(acts, id, produced, response, parse);
    }
  }

  /** The headers that a cancellation adds. */
  function CancelHeaders(answer: CancelAnswer): seq<(string, string)> {
    if answer.Cancelled? && answer.headers.Some? then answer.headers.value else []
  }

  // ----- The shared handshake -----

  predicate AttemptsOk(s: State) {
    && (forall k :: 0 <= k < |s.attempts| - 1 ==> s.attempts[k] == Failed)
    && (s.current.None? ==> forall k :: 0 <= k < |s.attempts| ==> s.attempts[k] == Failed)
    && (s.current.Some? ==> s.current.value + 1 == |s.attempts| && s.attempts[s.current.value] != Failed)
  }

  /** The call waits for a known handshake, or is past a successful one. */
  predicate WaitOk(c: Call, attempts: seq<Handshake>) {
    && (c.phase.Connecting? ==> c.phase.attempt < |attempts|)
    && (c.phase.Verifying? || Verified in c.history || Waived in c.history
        ==> attempts != [] && attempts[|attempts| - 1] == Ready)
  }

  predicate HandshakeOk(s: State) {
    AttemptsOk(s) && forall id :: id in s.calls ==> WaitOk(s.calls[id], s.attempts)
  }

  lemma ActAttempts(s: State, a: Action, parse: Parser)
    requires AttemptsOk(s) && Enabled(s, a)
    ensures AttemptsOk(Act(s, a, parse))
    ensures s.attempts != [] && s.attempts[|s.attempts| - 1] == Ready ==> Act(s, a, parse).attempts == s.attempts
    ensures |s.attempts| <= |Act(s, a, parse).attempts|
  {
  }

  lemma VerdictWait(c: Call, verdict: Verdict, attempts: seq<Handshake>)
    requires WaitOk(c, attempts) && c.phase.Verifying?
    ensures WaitOk(OnVerdict(c, verdict), attempts)
  {
  }

  lemma WriteWait(c: Call, w: Write, attempts: seq<Handshake>)
    requires WaitOk(c, attempts) && c.phase.Handling?
    ensures WaitOk(OnWrite(c, w), attempts)
  {
    hide Capture;
  }

  lemma ReturnWait(c: Call, threw: bool, attempts: seq<Handshake>, parse: Parser)
    requires WaitOk(c, attempts) && c.phase.Handling?
    ensures WaitOk(OnReturn(c, threw, parse), attempts)
  {
    hide CallFailed;
  }

  lemma SettleWait(c: Call, answer: SettleAnswer, attempts: seq<Handshake>)
    requires WaitOk(c, attempts)
    ensures WaitOk(OnSettle(c, answer), attempts)
  {
    hide AfterSettle, Sent;
  }

  lemma CancelWait(c: Call, answer: CancelAnswer, attempts: seq<Handshake>)
    requires WaitOk(c, attempts)
    ensures WaitOk(OnCancel(c, answer), attempts)
  {
    hide AfterCancel, Sent;
  }

  lemma ResumeWait(s: State, c: Call)
    requires AttemptsOk(s) && WaitOk(c, s.attempts) && c.phase.Connecting? && s.attempts[c.phase.attempt] != Running
    ensures WaitOk(OnResume(c, s.attempts[c.phase.attempt]), s.attempts)
  {
  }

  lemma ArrivalWait(s: State, id: Id, request: Request)
    requires AttemptsOk(s) && id !in s.calls
    ensures var s' := OnArrival(s, id, request);
            id in s'.calls && WaitOk(s'.calls[id], s'.attempts)
  {
    hide Gated;
  }

  lemma OwnWait(s: State, a: Action, parse: Parser)
    requires HandshakeOk(s) && Enabled(s, a) && !a.HandshakeEnds?
    ensures a.id in Act(s, a, parse).calls && WaitOk(Act(s, a, parse).calls[a.id], Act(s, a, parse).attempts)
  {
    if !a.Arrive? {
      assert a.id in s.calls && WaitOk(s.calls[a.id], s.attempts);
    }
    hide WaitOk, AttemptsOk, OnVerdict, OnWrite, OnReturn, OnSettle, OnCancel, OnResume, OnArrival;
    match a
    case Arrive(id, request) => ArrivalWait(s, id, request);
    case Resume(id) => ResumeHere(s, id);
    case VerdictIn(id, verdict) => VerdictWait(s.calls[id], verdict, s.attempts);
    case Writes(id, w) => WriteWait(s.calls[id], w, s.attempts);
    case Returns(id, threw) => ReturnWait(s.calls[id], threw, s.attempts, parse);
    case SettleIn(id, answer) => SettleWait(s.calls[id], answer, s.attempts);
    case CancelIn(id, answer) => CancelWait(s.calls[id], answer, s.attempts);
  }

  lemma ResumeHere(s: State, id: Id)
    requires HandshakeOk(s) && Enabled(s, Resume(id))
    ensures WaitOk(OnResume(s.calls[id], s.attempts[s.calls[id].phase.attempt]), s.attempts)
  {
    hide OnResume;
    ResumeWait(s, s.calls[id]);
  }

  lemma ActHandshake(s: State, a: Action, parse: Parser)
    requires HandshakeOk(s) && Enabled(s, a)
    ensures HandshakeOk(Act(s, a, parse))
  {
    ActAttempts(s, a, parse);
    hide Act, AttemptsOk, Enabled;
    forall id | id in Act(s, a, parse).calls ensures WaitOk(Act(s, a, parse).calls[id], Act(s, a, parse).attempts) {
      if a.HandshakeEnds? || id != a.id {
        CallsAreIsolated(s, a, id, parse);
      } else {
        OwnWait(s, a, parse);
      }
    }
  }

  /** One handshake at a time; once one succeeds it is never repeated, and no payment is put to the
      facilitator before that. */
  lemma {:induction false} HandshakeDiscipline(s: State, acts: seq<Action>, parse: Parser)
    requires HandshakeOk(s) && Possible(s, acts, parse)
    ensures HandshakeOk(Run(s, acts, parse))
    ensures Ready in s.attempts ==> Run(s, acts, parse).attempts == s.attempts
    decreases |acts|
  {
    hide Act, Enabled;
    if acts != [] {
      ActHandshake(s, acts[0], parse);
      ActAttempts(s, acts[0], parse);
      HandshakeDiscipline(Act(s, acts[0], parse), acts[1..], parse);
    }
  }
}
