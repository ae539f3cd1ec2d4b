/** The wall-clock budget for semantic scoring within one request. */
module Budget {
  import opened Common

  /** Pessimistic cost estimate per candidate passage. */
  const MS_PER_CANDIDATE: nat := 800

  /** What one request is configured with: `requested` URLs, of which at most that many become sources. */
  datatype Settings = Settings(budgetMs: nat, poolSize: nat, maxItems: nat, requested: nat, modelOn: bool) {
    function PerSourceMs(): real {
      budgetMs as real / (if requested < 1 then 1 else requested) as real
    }

    function Affordable(): int {
      (PerSourceMs() / MS_PER_CANDIDATE as real).Floor
    }

    /** The model is used only when every source can afford the whole configured pool. */
    predicate Engaged() {
      Affordable() >= poolSize
    }

    function Initial(): int {
      if Engaged() then budgetMs else 0
    }

    /** How many candidates a source may bring, given the time left when it is extracted. */
    function Pool(remaining: int): int {
      if !modelOn || remaining <= 0 then maxItems
      else Min(Max(maxItems, poolSize), Affordable())
    }
  }

  function Estimate(candidates: int): int {
    candidates * MS_PER_CANDIDATE
  }

  /** What is left after asking to reserve the estimate, and whether it was granted. */
  function Reserving(remaining: int, candidates: int): (int, bool) {
    if remaining < Estimate(candidates) then (remaining, false) else (remaining - Estimate(candidates), true)
  }

  /** What is left after a call of that estimate is over. */
  function Reconciling(remaining: int, estimate: int, elapsed: int): int {
    remaining + (estimate - elapsed)
  }

  /** The two fields of the service, as one request uses them. */
  class ReasoningBudget {
    const settings: Settings
    var remaining: int

    constructor (settings: Settings)
      ensures this.settings == settings && remaining == settings.Initial()
    {
      this.settings := settings;
      var affordable := (settings.PerSourceMs() / MS_PER_CANDIDATE as real).Floor;
      remaining := if affordable >= settings.poolSize then settings.budgetMs else 0;
    }

    /** The synchronous check-and-reserve before the model is awaited. */
    method Reserve(candidates: int) returns (granted: bool)
      modifies this
      ensures (remaining, granted) == Reserving(old(remaining), candidates)
    {
      var estimate := candidates * MS_PER_CANDIDATE;
      if remaining < estimate {
        return false;
      }
      remaining := remaining - estimate;
      granted := true;
    }

    /** The `finally` block after the call, whether it returned or threw. */
    method Reconcile(candidates: int, elapsed: int)
      modifies this
      ensures remaining == Reconciling(old(remaining), Estimate(candidates), elapsed)
    {
      remaining := remaining + (candidates * MS_PER_CANDIDATE - elapsed);
    }
  }

  // ----- All interleavings of the sources of one request -----

  datatype Source =
    | Pending
    | Lexical                                     // cache hit, failed, or too little to reorder
    | Refused                                     // the budget could not cover it
    | Scoring(estimate: int)
    | Scored(estimate: int, elapsed: int)

  datatype State = State(remaining: int, sources: seq<Source>)

  datatype Action =
    | Skip(i: nat)
    | Extract(i: nat, found: nat)                 // `found` lexical matches in the document
    | Finish(i: nat, elapsed: int)

  function Start(c: Settings, count: nat): State {
    State(c.Initial(), seq(count, _ => Pending))
  }

  predicate Enabled(s: State, a: Action) {
    a.i < |s.sources| && if a.Finish? then s.sources[a.i].Scoring? else s.sources[a.i].Pending?
  }

  function Act(c: Settings, s: State, a: Action): State
    requires Enabled(s, a)
  {
    match a
    case Skip(i) => s.(sources := s.sources[i := Lexical])
    case Extract(i, found) =>
      var candidates := Min(found, Max(0, c.Pool(s.remaining)));
      if !c.modelOn || candidates < 2 then s.(sources := s.sources[i := Lexical])
      else
        var (left, granted) := Reserving(s.remaining, candidates);
        State(left, s.sources[i := if granted then Scoring(Estimate(candidates)) else Refused])
    case Finish(i, elapsed) =>
      var estimate := s.sources[i].estimate;
      State(Reconciling(s.remaining, estimate, elapsed), s.sources[i := Scored(estimate, elapsed)])
  }

  predicate Possible(c: Settings, s: State, acts: seq<Action>)
    decreases |acts|
  {
    acts == [] || (Enabled(s, acts[0]) && Possible(c, Act(c, s, acts[0]), acts[1..]))
  }

  function Run(c: Settings, s: State, acts: seq<Action>): State
    requires Possible(c, s, acts)
    decreases |acts|
  {
    if acts == [] then s else Run(c, Act(c, s, acts[0]), acts[1..])
  }

  /** Sum over the sources of what `weight` gives each. */
  function Total(sources: seq<Source>, weight: Source -> int): int {
    if sources == [] then 0 else weight(sources[0]) + Total(sources[1..], weight)
  }

  function Reserved(x: Source): int {
    if x.Scoring? then x.estimate else 0
  }

  function Spent(x: Source): int {
    if x.Scored? then x.elapsed else 0
  }

  function Overrun(x: Source): int {
    if x.Scored? then Max(0, x.elapsed - x.estimate) else 0
  }

  function Waiting(x: Source): int {
    if x.Pending? then 1 else 0
  }


  lemma {:induction false} TotalUpdate(sources: seq<Source>, i: nat, x: Source, weight: Source -> int)
    requires i < |sources|
    ensures Total(sources[i := x], weight) == Total(sources, weight) - weight(sources[i]) + weight(x)
  {
    if i == 0 {
      assert sources[0 := x][1..] == sources[1..];
    } else {
      assert sources[i := x][1..] == sources[1..][i - 1 := x];
      TotalUpdate(sources[1..], i - 1, x, weight);
    }
  }

  lemma {:induction false} TotalNone(sources: seq<Source>, weight: Source -> int)
    requires forall x :: x in sources ==> weight(x) == 0
    ensures Total(sources, weight) == 0
  {
    if sources != [] {
      assert sources[0] in sources;
      TotalNone(sources[1..], weight);
    }
  }

  lemma {:induction false} TotalAtLeast(sources: seq<Source>, i: nat, weight: Source -> int)
    requires i < |sources| && forall x :: x in sources ==> weight(x) >= 0
    ensures Total(sources, weight) >= weight(sources[i])
  {
    if i == 0 {
      TotalNonNegative(sources[1..], weight);
    } else {
      assert sources[0] in sources;
      TotalAtLeast(sources[1..], i - 1, weight);
    }
  }

  lemma {:induction false} TotalNonNegative(sources: seq<Source>, weight: Source -> int)
    requires forall x :: x in sources ==> weight(x) >= 0
    ensures Total(sources, weight) >= 0
  {
    if sources != [] {
      assert sources[0] in sources;
      TotalNonNegative(sources[1..], weight);
    }
  }

  /** Every millisecond of the budget is left, reserved for a running call, or spent by a finished one. */
  ghost predicate Conserved(c: Settings, s: State) {
    s.remaining + Total(s.sources, Reserved) + Total(s.sources, Spent) == c.Initial()
  }

  /** The budget is overdrawn at most by what calls took beyond their own estimates. */
  ghost predicate OverdrawnByOverruns(s: State) {
    s.remaining + Total(s.sources, Overrun) >= 0
  }

  lemma ActConserves(c: Settings, s: State, a: Action)
    requires Enabled(s, a)
    ensures Conserved(c, s) ==> Conserved(c, Act(c, s, a))
    ensures OverdrawnByOverruns(s) ==> OverdrawnByOverruns(Act(c, s, a))
  {
    var x := Act(c, s, a).sources[a.i];
    TotalUpdate(s.sources, a.i, x, Reserved);
    TotalUpdate(s.sources, a.i, x, Spent);
    TotalUpdate(s.sources, a.i, x, Overrun);
    forall y | y in s.sources ensures Overrun(y) >= 0 {
    }
    TotalNonNegative(s.sources, Overrun);
  }

  lemma {:induction false} RunConserves(c: Settings, s: State, acts: seq<Action>)
    requires Possible(c, s, acts) && Conserved(c, s) && OverdrawnByOverruns(s)
    ensures Conserved(c, Run(c, s, acts)) && OverdrawnByOverruns(Run(c, s, acts))
    decreases |acts|
  {
    if acts != [] {
      ActConserves(c, s, acts[0]);
      RunConserves(c, Act(c, s, acts[0]), acts[1..]);
    }
  }

  /** Conservation over every interleaving of every request. */
  lemma BudgetConserved(c: Settings, count: nat, acts: seq<Action>)
    requires Possible(c, Start(c, count), acts)
    ensures var s := Run(c, Start(c, count), acts);
            Conserved(c, s) && OverdrawnByOverruns(s)
  {
    var s := Start(c, count);
    TotalNone(s.sources, Reserved);
    TotalNone(s.sources, Spent);
    TotalNone(s.sources, Overrun);
    RunConserves(c, s, acts);
  }

  // ----- Disengaged -----

  ghost predicate NeverCalled(s: State) {
    s.remaining == 0 && forall x :: x in s.sources ==> !x.Scoring? && !x.Scored?
  }

  lemma {:induction false} RunNeverCalls(c: Settings, s: State, acts: seq<Action>)
    requires Possible(c, s, acts) && NeverCalled(s)
    ensures NeverCalled(Run(c, s, acts))
    decreases |acts|
  {
    if acts != [] {
      assert s.sources[acts[0].i] in s.sources;
      RunNeverCalls(c, Act(c, s, acts[0]), acts[1..]);
    }
  }

  /** When the budget cannot afford the configured pool for every source, the model is never called. */
  lemma DisengagedNeverCalls(c: Settings, count: nat, acts: seq<Action>)
    requires !c.Engaged() && Possible(c, Start(c, count), acts)
    ensures NeverCalled(Run(c, Start(c, count), acts))
  {
    RunNeverCalls(c, Start(c, count), acts);
  }

  // ----- Engaged -----

  /** Every call takes at most its estimate. */
  predicate OnTime(c: Settings, s: State, acts: seq<Action>)
    requires Possible(c, s, acts)
    decreases |acts|
  {
    acts == []
    || ((acts[0].Finish? ==> acts[0].elapsed <= s.sources[acts[0].i].estimate)
        && OnTime(c, Act(c, s, acts[0]), acts[1..]))
  }

  predicate NoneRefused(s: State) {
    forall x :: x in s.sources ==> !x.Refused?
  }

  /** Each source that is still pending can claim this much. */
  function Share(c: Settings): int {
    Estimate(c.Affordable())
  }

  lemma ShareFits(c: Settings)
    ensures c.Affordable() >= 0
    ensures Share(c) * (if c.requested < 1 then 1 else c.requested) <= c.budgetMs
  {
    var n := if c.requested < 1 then 1 else c.requested;
    var per := c.PerSourceMs();
    assert per * n as real == c.budgetMs as real;
    assert c.Affordable() as real <= per / 800.0;
    assert c.Affordable() as real * 800.0 <= per;
    assert (c.Affordable() as real * 800.0) * n as real <= per * n as real;
    assert (Share(c) * n) as real == (c.Affordable() as real * 800.0) * n as real;
  }

  /** The time left covers a share for each source still pending, and what was never shared out. */
  predicate Enough(c: Settings, remaining: int, sources: seq<Source>) {
    remaining >= Share(c) * Total(sources, Waiting) + (c.budgetMs - Share(c) * |sources|)
  }

  ghost predicate Covered(c: Settings, s: State) {
    Enough(c, s.remaining, s.sources) && NoneRefused(s)
  }

  lemma PoolFits(c: Settings, remaining: int, found: nat)
    requires c.modelOn && remaining > 0
    ensures Estimate(Min(found, Max(0, c.Pool(remaining)))) <= Share(c)
  {
    ShareFits(c);
  }

  /** One claim of at most a share leaves enough for the other claims. */
  lemma OneClaim(share: int, waiting: int, slack: int, remaining: int, claim: int)
    requires share >= 0 && waiting >= 1 && slack >= 0 && claim <= share
    requires remaining >= share * waiting + slack
    ensures remaining >= claim && remaining - claim >= share * (waiting - 1) + slack
    ensures remaining >= share * (waiting - 1) + slack
  {
    assert share * waiting == share * (waiting - 1) + share;
    assert share * (waiting - 1) >= 0;
  }

  lemma WaitingLess(sources: seq<Source>, i: nat, x: Source)
    requires i < |sources| && sources[i].Pending? && !x.Pending?
    ensures Total(sources[i := x], Waiting) == Total(sources, Waiting) - 1 && Total(sources, Waiting) >= 1
  {
    TotalUpdate(sources, i, x, Waiting);
    TotalAtLeast(sources, i, Waiting);
    hide Total;
  }

  lemma ShareNotNegative(c: Settings)
    ensures Share(c) >= 0
  {
    ShareFits(c);
  }

  lemma ClaimKeepsEnough(c: Settings, remaining: int, sources: seq<Source>, i: nat, x: Source, claim: int)
    requires Enough(c, remaining, sources) && Share(c) * |sources| <= c.budgetMs
    requires i < |sources| && sources[i].Pending? && !x.Pending? && claim <= Share(c)
    ensures remaining >= claim && Enough(c, remaining - claim, sources[i := x]) && Enough(c, remaining, sources[i := x])
    ensures c.budgetMs > 0 ==> remaining > 0
  {
    ShareNotNegative(c);
    hide Total, Share;
    WaitingLess(sources, i, x);
    OneClaim(Share(c), Total(sources, Waiting), c.budgetMs - Share(c) * |sources|, remaining, claim);
    OneClaim(Share(c), Total(sources, Waiting), c.budgetMs - Share(c) * |sources|, remaining, Share(c));
  }

  lemma FinishKeepsEnough(c: Settings, remaining: int, sources: seq<Source>, i: nat, x: Source, elapsed: int)
    requires Enough(c, remaining, sources) && i < |sources| && sources[i].Scoring? && !x.Pending?
    requires elapsed <= sources[i].estimate
    ensures Enough(c, Reconciling(remaining, sources[i].estimate, elapsed), sources[i := x])
  {
    TotalUpdate(sources, i, x, Waiting);
    hide Total, Share;
  }

  lemma ExtractIsGranted(c: Settings, s: State, i: nat, candidates: int)
    requires Enough(c, s.remaining, s.sources) && Share(c) * |s.sources| <= c.budgetMs
    requires i < |s.sources| && s.sources[i].Pending?
    requires c.modelOn && candidates >= 2 && (c.budgetMs > 0 || c.maxItems < 2)
    requires candidates <= Max(0, c.Pool(s.remaining))
    ensures s.remaining >= Estimate(candidates) && Estimate(candidates) <= Share(c)
  {
    ShareNotNegative(c);
    ClaimKeepsEnough(c, s.remaining, s.sources, i, Lexical, 0);
    if s.remaining > 0 {
      PoolFits(c, s.remaining, candidates);
      ClaimKeepsEnough(c, s.remaining, s.sources, i, Lexical, Estimate(candidates));
    }
    hide Enough, Share, Total;
  }

  lemma ActCovered(c: Settings, s: State, a: Action)
    requires Enabled(s, a) && Covered(c, s)
    requires a.Finish? ==> a.elapsed <= s.sources[a.i].estimate
    requires c.budgetMs > 0 || c.maxItems < 2
    requires Share(c) * |s.sources| <= c.budgetMs
    ensures Covered(c, Act(c, s, a))
  {
    var x := Act(c, s, a).sources[a.i];
    ShareNotNegative(c);
    hide Enough, Share, Estimate, Reconciling;
    assert s.sources[a.i] in s.sources;
    match a {
      case Skip(i) =>
        ClaimKeepsEnough(c, s.remaining, s.sources, i, x, 0);
      case Extract(i, found) =>
        var candidates := Min(found, Max(0, c.Pool(s.remaining)));
        ClaimKeepsEnough(c, s.remaining, s.sources, i, Lexical, 0);
        if c.modelOn && candidates >= 2 {
          ExtractIsGranted(c, s, i, candidates);
          ClaimKeepsEnough(c, s.remaining, s.sources, i, x, Estimate(candidates));
        }
      case Finish(i, elapsed) =>
        FinishKeepsEnough(c, s.remaining, s.sources, i, x, elapsed);
    }
  }

  lemma {:induction false} RunCovered(c: Settings, s: State, acts: seq<Action>)
    requires Possible(c, s, acts) && OnTime(c, s, acts) && Covered(c, s)
    requires c.budgetMs > 0 || c.maxItems < 2
    requires Share(c) * |s.sources| <= c.budgetMs
    ensures NoneRefused(Run(c, s, acts))
    decreases |acts|
  {
    if acts != [] {
      ActCovered(c, s, acts[0]);
      RunCovered(c, Act(c, s, acts[0]), acts[1..]);
    }
  }

  lemma StartCovered(c: Settings, count: nat)
    requires c.Engaged() && count <= Max(1, c.requested)
    ensures Covered(c, Start(c, count)) && Share(c) * count <= c.budgetMs
  {
    var s := Start(c, count);
    ShareFits(c);
    AllWaiting(s.sources);
    assert Share(c) * count <= Share(c) * Max(1, c.requested);
  }

  lemma {:induction false} AllWaiting(sources: seq<Source>)
    requires forall x :: x in sources ==> x.Pending?
    ensures Total(sources, Waiting) == |sources|
  {
    if sources != [] {
      assert sources[0] in sources;
      AllWaiting(sources[1..]);
    }
  }

  ghost predicate RefusesNobody(c: Settings, count: nat, acts: seq<Action>) {
    Possible(c, Start(c, count), acts) && OnTime(c, Start(c, count), acts)
    ==> NoneRefused(Run(c, Start(c, count), acts))
  }

  lemma ZeroBudgetRefuses(c: Settings, count: nat, acts: seq<Action>)
    requires c.modelOn && c.budgetMs == 0 && c.maxItems >= 2 && count >= 1
    requires acts == [Extract(0, c.maxItems)]
    ensures !RefusesNobody(c, count, acts)
  {
    var s := Act(c, Start(c, count), acts[0]);
    assert Possible(c, s, acts[1..]) && OnTime(c, s, acts[1..]) && Run(c, s, acts[1..]) == s;
    assert s.sources[0] == Refused && s.sources[0] in s.sources;
  }

  /** With an engaged model and calls that keep to their estimates, no interleaving ever refuses a
      source, except in one configuration: a zero budget (possible only with an empty pool) and room
      for two candidates, where the very first source is refused. */
  lemma EngagedNeverRefuses(c: Settings, count: nat)
    requires c.Engaged() && c.modelOn && 1 <= count <= Max(1, c.requested)
    ensures (forall acts :: RefusesNobody(c, count, acts)) <==> c.budgetMs > 0 || c.maxItems < 2
  {
    if c.budgetMs > 0 || c.maxItems < 2 {
      forall acts ensures RefusesNobody(c, count, acts) {
        if Possible(c, Start(c, count), acts) && OnTime(c, Start(c, count), acts) {
          StartCovered(c, count);
          RunCovered(c, Start(c, count), acts);
        }
      }
    } else {
      ZeroBudgetRefuses(c, count, [Extract(0, c.maxItems)]);
    }
  }

  // ----- How many candidates are scored -----

  /** `n` candidates are found, asked for, and affordable for every requested URL alike. */
  predicate Affords(c: Settings, n: nat) {
    n * MS_PER_CANDIDATE * Max(1, c.requested) <= c.budgetMs
  }

  lemma AffordsIff(c: Settings, n: nat)
    ensures Affords(c, n) <==> n <= c.Affordable()
  {
    var urls := Max(1, c.requested);
    var per := c.PerSourceMs();
    assert per * urls as real == c.budgetMs as real;
    assert (n * MS_PER_CANDIDATE * urls) as real == (n * MS_PER_CANDIDATE) as real * urls as real;
    var cost := n * MS_PER_CANDIDATE;
    TimesOrder(cost as real, per, urls as real);
    assert Affords(c, n) <==> cost as real <= per;
    hide Affords, Settings.PerSourceMs;
    FloorOf(per / 800.0, n);
    assert cost as real == n as real * 800.0;
  }

  lemma FloorOf(x: real, n: nat)
    ensures n <= x.Floor <==> n as real <= x
  {
  }

  lemma TimesOrder(a: real, b: real, w: real)
    requires w > 0.0
    ensures a <= b <==> a * w <= b * w
  {
    assert b * w - a * w == (b - a) * w;
    if a <= b {
      assert (b - a) * w >= 0.0;
    } else {
      assert (a - b) * w > 0.0;
    }
  }

  /** The model is engaged exactly if the whole pool is affordable for every requested URL. */
  lemma EngagedIff(c: Settings)
    ensures c.Engaged() <==> Affords(c, c.poolSize)
  {
    AffordsIff(c, c.poolSize);
  }

  /** While budget is left, a source has as many candidates scored as it found, the configuration allows and every URL
      can afford, and no fewer; that is the whole pool if the model is engaged. */
  lemma LargestPoolIsScored(c: Settings, s: State, i: nat, found: nat) returns (n: nat)
    requires Enabled(s, Extract(i, found)) && c.modelOn && s.remaining > 0
    ensures n <= found && n <= Max(c.maxItems, c.poolSize) && Affords(c, n)
    ensures forall m: nat :: m <= found && m <= Max(c.maxItems, c.poolSize) && Affords(c, m) ==> m <= n
    ensures c.Engaged() ==> n >= Min(found, c.poolSize)
    ensures Act(c, s, Extract(i, found)).sources[i]
         == (if n < 2 then Lexical
             else if n * MS_PER_CANDIDATE <= s.remaining then Scoring(n * MS_PER_CANDIDATE)
             else Refused)
  {
    ShareFits(c);
    n := Min(found, Max(0, c.Pool(s.remaining)));
    AffordsIff(c, n);
    forall m: nat | m <= found && m <= Max(c.maxItems, c.poolSize) && Affords(c, m) ensures m <= n {
      AffordsIff(c, m);
    }
    hide Affords;
  }
}
