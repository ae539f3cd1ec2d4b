/** Fetching a source: redirects are followed by hand so that every hop is validated. */
module Redirects {
  import opened Common

  type Url = string

  datatype Code = InvalidUrl | BlockedUrl | RedirectLimit | UpstreamHttpFailure | Transport(code: nat)

  datatype Validation = Valid(url: Url) | Invalid(code: Code)

  /** `location` is empty when there is no such header. */
  datatype Reply = Replied(status: nat, location: string) | NoReply(code: Code)

  datatype Outcome = Fetched(finalUrl: Url, status: nat, chain: seq<Url>) | Threw(code: Code)

  datatype Event = Checked(raw: string, verdict: Validation) | Requested(url: Url)

  /** Names resolve and servers answer differently at different times: the first argument counts what
      happened before. Resolving a location against a URL does not depend on time. */
  datatype World = World(
    validate: (nat, string) -> Validation,
    request: (nat, Url) -> Reply,
    resolve: (string, Url) -> Option<Url>)

  datatype Fetch = Fetch(outcome: Outcome, trace: seq<Event>)

  predicate IsRedirect(reply: Reply) {
    reply.Replied? && 300 <= reply.status < 400 && reply.location != ""
  }

  function FetchFrom(current: string, hop: nat, chain: seq<Url>, trace: seq<Event>, max: nat, w: World): Fetch
    decreases max + 1 - hop
  {
    if hop > max then Fetch(Threw(RedirectLimit), trace)
    else
      var validation := w.validate(|trace|, current);
      var checked := trace + [Checked(current, validation)];
      if validation.Invalid? then Fetch(Threw(validation.code), checked)
      else
        var reply := w.request(|checked|, validation.url);
        var requested := checked + [Requested(validation.url)];
        if reply.NoReply? then Fetch(Threw(reply.code), requested)
        else if !IsRedirect(reply) then Fetch(Fetched(validation.url, reply.status, chain), requested)
        else if hop == max then Fetch(Threw(RedirectLimit), requested)
        else
          var next := w.resolve(reply.location, validation.url);
          if next.None? then Fetch(Threw(UpstreamHttpFailure), requested)
          else
            var again := w.validate(|requested|, next.value);
            var rechecked := requested + [Checked(next.value, again)];
            if again.Invalid? then Fetch(Threw(again.code), rechecked)
            else FetchFrom(next.value, hop + 1, chain + [next.value], rechecked, max, w)
  }

  method FetchSource(url: string, max: nat, w: World) returns (outcome: Outcome, trace: seq<Event>)
    ensures Fetch(outcome, trace) == FetchFrom(url, 0, [], [], max, w)
  {
    var chain: seq<Url> := [];
    var current := url;
    trace := [];
    var hop := 0;
    while hop <= max
      invariant 0 <= hop <= max + 1
      invariant FetchFrom(current, hop, chain, trace, max, w) == FetchFrom(url, 0, [], [], max, w)
    {
      var validation := w.validate(|trace|, current);
      trace := trace + [Checked(current, validation)];
      if validation.Invalid? {
        return Threw(validation.code), trace;
      }
      var reply := w.request(|trace|, validation.url);
      trace := trace + [Requested(validation.url)];
      if reply.NoReply? {
        return Threw(reply.code), trace;
      }
      if !IsRedirect(reply) {
        return Fetched(validation.url, reply.status, chain), trace;
      }
      if hop == max {
        return Threw(RedirectLimit), trace;
      }
      var next := w.resolve(reply.location, validation.url);
      if next.None? {
        return Threw(UpstreamHttpFailure), trace;
      }
      var again := w.validate(|trace|, next.value);
      trace := trace + [Checked(next.value, again)];
      if again.Invalid? {
        return Threw(again.code), trace;
      }
      chain := chain + [next.value];
      current := next.value;
      hop := hop + 1;
    }
    return Threw(RedirectLimit), trace;
  }

  // ----- What every fetch keeps -----

  function Requests(trace: seq<Event>): seq<Url> {
    if trace == [] then []
    else
      var last := trace[|trace| - 1];
      Requests(trace[..|trace| - 1]) + (if last.Requested? then [last.url] else [])
  }

  lemma RequestsAppend(trace: seq<Event>, e: Event)
    ensures Requests(trace + [e]) == Requests(trace) + (if e.Requested? then [e.url] else [])
  {
    assert (trace + [e])[..|trace|] == trace;
  }

  /** A request goes only to a URL that the validation just before it let through. */
  ghost predicate AllChecked(trace: seq<Event>) {
    forall i :: 0 <= i < |trace| && trace[i].Requested? ==>
      i > 0 && trace[i - 1].Checked? && trace[i - 1].verdict == Valid(trace[i].url)
  }

  /** Every redirect target was found valid when it was met and then checked again before its request. */
  ghost predicate CheckedTwice(chain: seq<Url>, trace: seq<Event>) {
    forall u :: u in chain ==> exists i :: TwiceAt(trace, u, i)
  }

  predicate TwiceAt(trace: seq<Event>, u: Url, i: nat) {
    && i + 2 < |trace|
    && trace[i].Checked? && trace[i].raw == u && trace[i].verdict.Valid?
    && trace[i + 1].Checked? && trace[i + 1].raw == u && trace[i + 1].verdict.Valid?
    && trace[i + 2] == Requested(trace[i + 1].verdict.url)
  }

  /** Before a hop: as many requests as hops, and all but the newest target requested. */
  ghost predicate OnHop(current: string, hop: nat, chain: seq<Url>, trace: seq<Event>) {
    && AllChecked(trace) && |Requests(trace)| == hop == |chain|
    && (hop > 0 ==>
          && chain[hop - 1] == current && CheckedTwice(chain[..hop - 1], trace)
          && trace != [] && trace[|trace| - 1].Checked?
          && trace[|trace| - 1].raw == current && trace[|trace| - 1].verdict.Valid?)
  }

  ghost predicate Sound(f: Fetch, max: nat) {
    && AllChecked(f.trace)
    && |Requests(f.trace)| <= max + 1
    && (f.outcome.Fetched? ==>
          && |Requests(f.trace)| == |f.outcome.chain| + 1
          && f.trace != [] && f.trace[|f.trace| - 1] == Requested(f.outcome.finalUrl)
          && CheckedTwice(f.outcome.chain, f.trace))
  }

  lemma CheckedTwiceLater(chain: seq<Url>, trace: seq<Event>, more: seq<Event>)
    requires CheckedTwice(chain, trace)
    ensures CheckedTwice(chain, trace + more)
  {
    forall u | u in chain ensures exists i :: TwiceAt(trace + more, u, i) {
      var i: nat :| TwiceAt(trace, u, i);
      assert TwiceAt(trace + more, u, i);
    }
  }

  lemma AllCheckedAppend(trace: seq<Event>, e: Event)
    requires AllChecked(trace)
    requires e.Requested? ==>
               trace != [] && trace[|trace| - 1].Checked? && trace[|trace| - 1].verdict == Valid(e.url)
    ensures AllChecked(trace + [e])
  {
  }

  /** The request of a hop completes the double check of the hop's target. */
  lemma HopRequested(current: string, hop: nat, chain: seq<Url>, trace: seq<Event>, url: Url)
    requires OnHop(current, hop, chain, trace)
    ensures var requested := trace + [Checked(current, Valid(url))] + [Requested(url)];
            && AllChecked(requested) && |Requests(requested)| == hop + 1
            && CheckedTwice(chain, requested)
  {
    var checked := trace + [Checked(current, Valid(url))];
    var requested := checked + [Requested(url)];
    RequestsAppend(trace, Checked(current, Valid(url)));
    RequestsAppend(checked, Requested(url));
    AllCheckedAppend(trace, Checked(current, Valid(url)));
    AllCheckedAppend(checked, Requested(url));
    if hop > 0 {
      CheckedTwiceLater(chain[..hop - 1], trace, [Checked(current, Valid(url)), Requested(url)]);
      assert requested == trace + [Checked(current, Valid(url)), Requested(url)];
      assert TwiceAt(requested, current, |trace| - 1);
      assert forall u :: u in chain ==> u == current || u in chain[..hop - 1];
    }
  }

  lemma ThrewSound(trace: seq<Event>, code: Code, max: nat)
    requires AllChecked(trace) && |Requests(trace)| <= max + 1
    ensures Sound(Fetch(Threw(code), trace), max)
  {
  }

  lemma FetchedSound(trace: seq<Event>, url: Url, status: nat, chain: seq<Url>, hop: nat, max: nat)
    requires AllChecked(trace + [Requested(url)]) && CheckedTwice(chain, trace + [Requested(url)])
    requires |Requests(trace + [Requested(url)])| == hop + 1 && |chain| == hop <= max
    ensures Sound(Fetch(Fetched(url, status, chain), trace + [Requested(url)]), max)
  {
  }

  lemma HopChecked(current: string, hop: nat, chain: seq<Url>, trace: seq<Event>, verdict: Validation)
    requires OnHop(current, hop, chain, trace)
    ensures |chain| == hop && AllChecked(trace + [Checked(current, verdict)])
    ensures |Requests(trace + [Checked(current, verdict)])| == hop
  {
    RequestsAppend(trace, Checked(current, verdict));
    AllCheckedAppend(trace, Checked(current, verdict));
  }

  lemma {:induction false} FetchSound(current: string, hop: nat, chain: seq<Url>, trace: seq<Event>, max: nat, w: World)
    requires OnHop(current, hop, chain, trace) && hop <= max
    ensures Sound(FetchFrom(current, hop, chain, trace, max, w), max)
    decreases max - hop
  {
    hide OnHop, AllChecked, CheckedTwice, Requests, Sound;
    var validation := w.validate(|trace|, current);
    var checked := trace + [Checked(current, validation)];
    HopChecked(current, hop, chain, trace, validation);
    if validation.Invalid? {
      ThrewSound(checked, validation.code, max);
    } else {
      HopRequested(current, hop, chain, trace, validation.url);
      var reply := w.request(|checked|, validation.url);
      var requested := checked + [Requested(validation.url)];
      if reply.NoReply? {
        ThrewSound(requested, reply.code, max);
      } else if !IsRedirect(reply) {
        FetchedSound(checked, validation.url, reply.status, chain, hop, max);
      } else if hop == max {
        ThrewSound(requested, RedirectLimit, max);
      } else {
        var next := w.resolve(reply.location, validation.url);
        if next.None? {
          ThrewSound(requested, UpstreamHttpFailure, max);
        } else {
          var again := w.validate(|requested|, next.value);
          var rechecked := requested + [Checked(next.value, again)];
          NextHop(chain, requested, next.value, again, hop);
          if again.Invalid? {
            ThrewSound(rechecked, again.code, max);
          } else {
            FetchSound(next.value, hop + 1, chain + [next.value], rechecked, max, w);
          }
        }
      }
    }
  }

  lemma NextHop(chain: seq<Url>, requested: seq<Event>, next: Url, again: Validation, hop: nat)
    requires AllChecked(requested) && |Requests(requested)| == hop + 1
    requires |chain| == hop && CheckedTwice(chain, requested)
    ensures AllChecked(requested + [Checked(next, again)])
    ensures |Requests(requested + [Checked(next, again)])| == hop + 1
    ensures again.Valid? ==> OnHop(next, hop + 1, chain + [next], requested + [Checked(next, again)])
  {
    var trace := requested + [Checked(next, again)];
    RequestsAppend(requested, Checked(next, again));
    AllCheckedAppend(requested, Checked(next, again));
    CheckedTwiceLater(chain, requested, [Checked(next, again)]);
    assert (chain + [next])[..hop] == chain;
  }

  /** However names resolve and servers answer: at most `max + 1` requests are made, each to a URL that the
      validation just before it let through; a result comes from the last of them, after one more request
      than there were redirects, and every redirect target was validated on both sides of the hop. */
  lemma EveryHopIsValidated(url: string, max: nat, w: World)
    ensures Sound(FetchFrom(url, 0, [], [], max, w), max)
  {
    FetchSound(url, 0, [], [], max, w);
  }

  /** The limit is reported only after `max + 1` requests. */
  lemma {:induction false} LimitMeansManyRequests(current: string, hop: nat, chain: seq<Url>, trace: seq<Event>,
                                                  max: nat, w: World)
    requires hop <= max && |Requests(trace)| == hop
    requires forall i, u :: w.validate(i, u).Invalid? ==> w.validate(i, u).code != RedirectLimit
    requires forall i, u :: w.request(i, u).NoReply? ==> w.request(i, u).code != RedirectLimit
    ensures var f := FetchFrom(current, hop, chain, trace, max, w);
            f.outcome == Threw(RedirectLimit) ==> |Requests(f.trace)| == max + 1
    decreases max - hop
  {
    var validation := w.validate(|trace|, current);
    var checked := trace + [Checked(current, validation)];
    RequestsAppend(trace, Checked(current, validation));
    if validation.Valid? {
      var reply := w.request(|checked|, validation.url);
      var requested := checked + [Requested(validation.url)];
      RequestsAppend(checked, Requested(validation.url));
      if IsRedirect(reply) && hop < max {
        var next := w.resolve(reply.location, validation.url);
        if next.Some? {
          var again := w.validate(|requested|, next.value);
          RequestsAppend(requested, Checked(next.value, again));
          if again.Valid? {
            LimitMeansManyRequests(
              next.value, hop + 1, chain + [next.value], requested + [Checked(next.value, again)], max, w);
          }
        }
      }
    }
  }

  // ----- What the trace tells -----

  /** The server sends the client elsewhere. */
  predicate PointsTo(reply: Reply, url: Url, next: Url, w: World) {
    && reply.Replied? && 300 <= reply.status <= 399 && reply.location != ""
    && w.resolve(reply.location, url) == Some(next)
  }

  /** What may come right after the `i`-th event: nothing after a refusal, the request of a URL found valid or a second
      check of it, and after a request only the check of the place that the reply points to. */
  predicate Continues(trace: seq<Event>, i: nat, w: World)
    requires i + 1 < |trace|
  {
    match trace[i]
    case Requested(url) => trace[i + 1].Checked? && PointsTo(w.request(i, url), url, trace[i + 1].raw, w)
    case Checked(raw, verdict) =>
      verdict.Valid? && (trace[i + 1] == Requested(verdict.url) || (trace[i + 1].Checked? && trace[i + 1].raw == raw))
  }

  ghost predicate Linked(trace: seq<Event>, url: string, w: World) {
    && (trace != [] ==> trace[0].Checked? && trace[0].raw == url)
    && (forall i :: 0 <= i < |trace| && trace[i].Checked? ==> trace[i].verdict == w.validate(i, trace[i].raw))
    && forall i: nat {:trigger trace[i]} :: i < |trace| - 1 ==> Continues(trace, i, w)
  }

  /** The outcome is what the last event came to. */
  ghost predicate EndsWith(f: Fetch, max: nat, w: World) {
    f.trace != [] &&
    var i := |f.trace| - 1;
    match f.trace[i]
    case Checked(_, verdict) => verdict.Invalid? && f.outcome == Threw(verdict.code)
    case Requested(url) =>
      match w.request(i, url)
      case NoReply(code) => f.outcome == Threw(code)
      case Replied(status, location) =>
        if status < 300 || status > 399 || location == "" then
          f.outcome.Fetched? && f.outcome.finalUrl == url && f.outcome.status == status
        else if |Requests(f.trace)| == max + 1 then f.outcome == Threw(RedirectLimit)
        else w.resolve(location, url) == None && f.outcome == Threw(UpstreamHttpFailure)
  }

  lemma LinkedNext(trace: seq<Event>, e: Event, url: string, w: World)
    requires Linked(trace, url, w)
    requires trace == [] ==> e.Checked? && e.raw == url
    requires e.Checked? ==> e.verdict == w.validate(|trace|, e.raw)
    requires trace != [] ==>
               match trace[|trace| - 1]
               case Requested(u) => e.Checked? && PointsTo(w.request(|trace| - 1, u), u, e.raw, w)
               case Checked(raw, verdict) =>
                 verdict.Valid? && (e == Requested(verdict.url) || (e.Checked? && e.raw == raw))
    ensures Linked(trace + [e], url, w)
  {
    hide PointsTo;
    var longer := trace + [e];
    forall i: nat | i < |longer| - 1 ensures Continues(longer, i, w) {
      assert longer[i] == trace[i];
      if i < |trace| - 1 {
        assert Continues(trace, i, w);
      }
    }
  }

  /** Before a hop: the trace ends with the check that let `current` through, or is empty at the start. */
  ghost predicate Arrived(current: string, hop: nat, trace: seq<Event>, url: string, w: World) {
    && Linked(trace, url, w) && |Requests(trace)| == hop
    && if trace == [] then current == url
       else trace[|trace| - 1].Checked? && trace[|trace| - 1].raw == current && trace[|trace| - 1].verdict.Valid?
  }

  lemma {:induction false} FetchTells(current: string, hop: nat, chain: seq<Url>, trace: seq<Event>, max: nat, w: World,
                                      url: string)
    requires Arrived(current, hop, trace, url, w) && hop <= max
    ensures Linked(FetchFrom(current, hop, chain, trace, max, w).trace, url, w)
    ensures EndsWith(FetchFrom(current, hop, chain, trace, max, w), max, w)
    decreases max - hop
  {
    hide Linked, Requests;
    var validation := w.validate(|trace|, current);
    var checked := trace + [Checked(current, validation)];
    LinkedNext(trace, Checked(current, validation), url, w);
    RequestsAppend(trace, Checked(current, validation));
    if validation.Valid? {
      var reply := w.request(|checked|, validation.url);
      var requested := checked + [Requested(validation.url)];
      LinkedNext(checked, Requested(validation.url), url, w);
      RequestsAppend(checked, Requested(validation.url));
      if IsRedirect(reply) && hop < max {
        var next := w.resolve(reply.location, validation.url);
        if next.Some? {
          var again := w.validate(|requested|, next.value);
          LinkedNext(requested, Checked(next.value, again), url, w);
          RequestsAppend(requested, Checked(next.value, again));
          if again.Valid? {
            FetchTells(
              next.value, hop + 1, chain + [next.value], requested + [Checked(next.value, again)], max, w, url);
          }
        }
      }
    }
  }

  /** Every reply with a status from 300 to 399 and a location is followed, to the place it points to and as long as the
      limit allows, no other is, and the outcome is what the last check or request came to. */
  lemma TraceTellsOutcome(url: string, max: nat, w: World)
    ensures Linked(FetchFrom(url, 0, [], [], max, w).trace, url, w)
    ensures EndsWith(FetchFrom(url, 0, [], [], max, w), max, w)
  {
    FetchTells(url, 0, [], [], max, w, url);
  }
}
