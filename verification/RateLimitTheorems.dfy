/** What the bounded limiter guarantees over whole runs. */
module RateLimitTheorems {
  import opened Common
  import opened RateLimit

  // ----- What every call keeps -----

  predicate DistinctKeys(m: Table) {
    forall i, j :: 0 <= i < j < |m| ==> m[i].key != m[j].key
  }

  predicate Sane(c: Config, b: Bucket) {
    0 <= b.tokens <= c.Capacity()
  }

  /** Needs no assumption on the clock. */
  predicate Bounded(c: Config, m: Table) {
    && DistinctKeys(m)
    && |m| <= MAX_BUCKETS
    && forall e :: e in m ==> Sane(c, e.bucket)
  }

  /** With a clock that never goes back, map order is recency order. */
  predicate Recency(m: Table, now: int) {
    && (forall i, j :: 0 <= i < j < |m| ==> m[i].bucket.lastUsedAt <= m[j].bucket.lastUsedAt)
    && forall e :: e in m ==> e.bucket.lastUsedAt <= now && e.bucket.refilledAt <= now
  }

  lemma AccruedNonNegative(c: Config, ms: int)
    requires c.perMinute >= 0 && ms >= 0
    ensures c.Accrued(ms) >= 0
  {
  }

  lemma AccruedSplit(c: Config, a: int, b: int)
    ensures c.Accrued(a) + c.Accrued(b) == c.Accrued(a + b)
  {
  }

  lemma RefillSane(c: Config, b: Bucket, at: int)
    requires !c.Disabled() && Sane(c, b)
    ensures Sane(c, Refill(c, b, at)) && Refill(c, b, at).tokens >= b.tokens
  {
    if at > b.refilledAt {
      AccruedNonNegative(c, at - b.refilledAt);
    }
  }

  /** The sweep only drops and refills entries: it invents no key and reorders nothing. */
  lemma {:induction false} SweepMembers(c: Config, m: Table, at: int, n: nat, e: Entry)
    requires !c.Disabled() && e in Sweep(c, m, at, n)
    ensures exists o :: o in m && o.key == e.key && (e == o || e.bucket == Refill(c, o.bucket, at))
  {
    if n == 0 || m == [] {
    } else if e in Swept(c, m[0], at) {
      assert m[0] in m;
    } else {
      SweepMembers(c, m[1..], at, n - 1, e);
    }
  }

  lemma {:induction false} SweepBounded(c: Config, m: Table, at: int, n: nat)
    requires !c.Disabled() && Bounded(c, m)
    ensures Bounded(c, Sweep(c, m, at, n)) && |Sweep(c, m, at, n)| <= |m|
  {
    if n == 0 || m == [] {
    } else {
      SweepBounded(c, m[1..], at, n - 1);
      var rest := Sweep(c, m[1..], at, n - 1);
      RefillSane(c, m[0].bucket, at);
      forall e | e in rest ensures e.key != m[0].key {
        SweepMembers(c, m[1..], at, n - 1, e);
      }
    }
  }

  lemma {:induction false} SweepRecency(c: Config, m: Table, at: int, n: nat)
    requires !c.Disabled() && Recency(m, at)
    ensures Recency(Sweep(c, m, at, n), at)
  {
    if n == 0 || m == [] {
    } else {
      SweepRecency(c, m[1..], at, n - 1);
      var rest := Sweep(c, m[1..], at, n - 1);
      forall e | e in rest ensures m[0].bucket.lastUsedAt <= e.bucket.lastUsedAt {
        SweepMembers(c, m[1..], at, n - 1, e);
      }
    }
  }

  lemma WithoutMembers(m: Table, i: nat, e: Entry)
    requires i < |m| && e in Without(m, i)
    ensures e in m
    ensures DistinctKeys(m) ==> e.key != m[i].key
  {
    var w := Without(m, i);
    var j :| 0 <= j < |w| && w[j] == e;
    assert e == m[if j < i then j else j + 1];
  }

  lemma WithoutBounded(c: Config, m: Table, i: nat)
    requires Bounded(c, m) && i < |m|
    ensures Bounded(c, Without(m, i))
  {
    forall e | e in Without(m, i) ensures Sane(c, e.bucket) {
      WithoutMembers(m, i, e);
    }
  }

  lemma WithoutRecency(m: Table, i: nat, now: int)
    requires Recency(m, now) && i < |m|
    ensures Recency(Without(m, i), now)
  {
    forall e | e in Without(m, i) ensures e in m {
      WithoutMembers(m, i, e);
    }
  }

  /** What is left of the table once the key's own bucket is set aside and room has been made. */
  lemma SetAsideBounded(c: Config, swept: Table, key: Key)
    requires Bounded(c, swept)
    ensures Bounded(c, SetAside(swept, key)) && |SetAside(swept, key)| < MAX_BUCKETS
    ensures forall e :: e in SetAside(swept, key) ==> e.key != key
  {
    var i := IndexOf(swept, key);
    if i < |swept| {
      WithoutBounded(c, swept, i);
      forall e | e in Without(swept, i) ensures e.key != key {
        WithoutMembers(swept, i, e);
      }
    } else if |swept| >= MAX_BUCKETS {
      WithoutBounded(c, swept, 0);
      forall e | e in Without(swept, 0) ensures e.key != key {
        WithoutMembers(swept, 0, e);
      }
    }
  }

  lemma CurrentSane(c: Config, swept: Table, r: Request)
    requires !c.Disabled() && Bounded(c, swept)
    ensures Sane(c, Current(c, swept, r))
  {
    var i := IndexOf(swept, r.key);
    if i < |swept| {
      assert swept[i] in swept;
      RefillSane(c, swept[i].bucket, r.at);
    }
  }

  lemma TouchBounded(c: Config, m: Table, r: Request)
    requires !c.Disabled() && Bounded(c, m)
    ensures var (rest, b) := Touch(c, m, r);
            Bounded(c, rest) && |rest| < MAX_BUCKETS && Sane(c, b) && forall e :: e in rest ==> e.key != r.key
  {
    var swept := Sweep(c, m, r.at, GC_SWEEP_LIMIT);
    SweepBounded(c, m, r.at, GC_SWEEP_LIMIT);
    SetAsideBounded(c, swept, r.key);
    CurrentSane(c, swept, r);
  }

  /** Distinct keys, at most MAX_BUCKETS entries and token counts within capacity, whatever the clock does. */
  lemma StepBounded(c: Config, m: Table, r: Request)
    requires Bounded(c, m)
    ensures Bounded(c, Step(c, m, r).0)
  {
    if !c.Disabled() {
      TouchBounded(c, m, r);
    }
  }

  lemma SetAsideRecency(swept: Table, r: Request)
    requires Recency(swept, r.at)
    ensures Recency(SetAside(swept, r.key), r.at)
  {
    var i := IndexOf(swept, r.key);
    if i < |swept| {
      WithoutRecency(swept, i, r.at);
    } else if |swept| >= MAX_BUCKETS {
      WithoutRecency(swept, 0, r.at);
    }
  }

  lemma CurrentRecent(c: Config, swept: Table, r: Request)
    requires Recency(swept, r.at)
    ensures Current(c, swept, r).refilledAt == Current(c, swept, r).lastUsedAt == r.at
  {
    var i := IndexOf(swept, r.key);
    if i < |swept| {
      assert swept[i] in swept;
    }
  }

  lemma TouchRecency(c: Config, m: Table, r: Request)
    requires !c.Disabled() && Recency(m, r.at)
    ensures var (rest, b) := Touch(c, m, r);
            Recency(rest, r.at) && b.refilledAt == b.lastUsedAt == r.at
  {
    var swept := Sweep(c, m, r.at, GC_SWEEP_LIMIT);
    SweepRecency(c, m, r.at, GC_SWEEP_LIMIT);
    SetAsideRecency(swept, r);
    CurrentRecent(c, swept, r);
  }

  /** While the clock does not go back, map order stays the order of last use. */
  lemma StepRecency(c: Config, m: Table, r: Request, now: int)
    requires Recency(m, now) && now <= r.at
    ensures Recency(Step(c, m, r).0, r.at)
  {
    if !c.Disabled() {
      TouchRecency(c, m, r);
    }
  }

  // ----- The allowance of a key -----

  /** Scaled tokens a request for `key` would find at time `at`. */
  function Level(c: Config, m: Table, key: Key, at: int): int {
    if m == [] then c.Capacity()
    else if m[0].key == key then Refill(c, m[0].bucket, at).tokens
    else Level(c, m[1..], key, at)
  }

  /** Refilling twice is refilling once. */
  lemma RefillCompose(c: Config, b: Bucket, t0: int, t1: int)
    requires !c.Disabled() && Sane(c, b) && t0 <= t1
    ensures Refill(c, Refill(c, b, t0), t1).tokens == Refill(c, b, t1).tokens
  {
    if b.refilledAt < t0 < t1 {
      AccruedSplit(c, t0 - b.refilledAt, t1 - t0);
      AccruedNonNegative(c, t1 - t0);
    }
  }

  lemma RefillLater(c: Config, b: Bucket, t0: int, t1: int)
    requires !c.Disabled() && Sane(c, b) && t0 <= t1
    ensures Refill(c, b, t1).tokens >= Refill(c, b, t0).tokens
  {
    RefillSane(c, b, t0);
    RefillSane(c, Refill(c, b, t0), t1);
    RefillCompose(c, b, t0, t1);
  }

  lemma {:induction false} LevelConcat(c: Config, a: Table, b: Table, key: Key, at: int)
    ensures Level(c, a + b, key, at) == if Holds(a, key) then Level(c, a, key, at) else Level(c, b, key, at)
  {
    if a == [] {
      assert a + b == b;
    } else {
      assert (a + b)[1..] == a[1..] + b;
      LevelConcat(c, a[1..], b, key, at);
    }
  }

  lemma {:induction false} LevelAt(c: Config, m: Table, key: Key, at: int)
    ensures Level(c, m, key, at)
         == if Holds(m, key) then Refill(c, m[IndexOf(m, key)].bucket, at).tokens else c.Capacity()
  {
    if m != [] && m[0].key != key {
      LevelAt(c, m[1..], key, at);
    }
  }

  lemma AbsentLevel(c: Config, m: Table, key: Key, at: int)
    requires forall e :: e in m ==> e.key != key
    ensures Level(c, m, key, at) == c.Capacity()
  {
    LevelAt(c, m, key, at);
  }

  /** Inspecting a bucket: its key's allowance is the same later, even if the bucket was collected. */
  lemma SweptKeepsOwnLevel(c: Config, e: Entry, rest: Table, at: int, later: int)
    requires !c.Disabled() && Sane(c, e.bucket) && at <= later
    requires forall x :: x in rest ==> x.key != e.key
    ensures Level(c, Swept(c, e, at) + rest, e.key, later) == Refill(c, e.bucket, later).tokens
  {
    RefillCompose(c, e.bucket, at, later);
    if Swept(c, e, at) == [] {
      RefillLater(c, e.bucket, at, later);
      RefillSane(c, e.bucket, later);
      AbsentLevel(c, rest, e.key, later);
      assert Swept(c, e, at) + rest == rest;
    }
  }

  /** Neither idle collection nor the refills it does on the way can be observed at any later time. */
  lemma {:induction false} SweepKeepsLevels(c: Config, m: Table, at: int, n: nat, key: Key, later: int)
    requires !c.Disabled() && Bounded(c, m) && at <= later
    ensures Level(c, Sweep(c, m, at, n), key, later) == Level(c, m, key, later)
  {
    if n == 0 || m == [] {
    } else {
      var rest := Sweep(c, m[1..], at, n - 1);
      assert Bounded(c, m[1..]);
      if m[0].key == key {
        forall x | x in rest ensures x.key != key {
          SweepMembers(c, m[1..], at, n - 1, x);
        }
        SweptKeepsOwnLevel(c, m[0], rest, at, later);
      } else {
        SweepKeepsLevels(c, m[1..], at, n - 1, key, later);
        LevelConcat(c, Swept(c, m[0], at), rest, key, later);
      }
    }
  }

  lemma {:induction false} LevelWithout(c: Config, m: Table, i: nat, key: Key, at: int)
    requires i < |m| && m[i].key != key
    ensures Level(c, Without(m, i), key, at) == Level(c, m, key, at)
  {
    if i == 0 {
      assert m[..0] + m[1..] == m[1..];
    } else {
      LevelWithout(c, m[1..], i - 1, key, at);
      assert Without(m, i)[1..] == Without(m[1..], i - 1);
    }
  }

  lemma SetAsideLevels(c: Config, swept: Table, own: Key, key: Key, at: int)
    requires Bounded(c, swept) && key != own
    ensures Level(c, SetAside(swept, own), key, at)
         == if !Holds(swept, own) && |swept| >= MAX_BUCKETS && key == swept[0].key then c.Capacity()
            else Level(c, swept, key, at)
  {
    var i := IndexOf(swept, own);
    if i < |swept| {
      LevelWithout(c, swept, i, key, at);
    } else if |swept| >= MAX_BUCKETS {
      if key == swept[0].key {
        forall e | e in Without(swept, 0) ensures e.key != key {
          WithoutMembers(swept, 0, e);
        }
        AbsentLevel(c, Without(swept, 0), key, at);
      } else {
        LevelWithout(c, swept, 0, key, at);
      }
    }
  }

  /** A check of one key moves no other key's allowance, except that eviction restores it to capacity. */
  lemma OtherLevels(c: Config, m: Table, r: Request, key: Key, later: int)
    requires !c.Disabled() && Bounded(c, m) && r.at <= later && key != r.key
    ensures Level(c, Step(c, m, r).0, key, later)
         == if key in Evicted(c, m, r) then c.Capacity() else Level(c, m, key, later)
  {
    var swept := Sweep(c, m, r.at, GC_SWEEP_LIMIT);
    SweepBounded(c, m, r.at, GC_SWEEP_LIMIT);
    SweepKeepsLevels(c, m, r.at, GC_SWEEP_LIMIT, key, later);
    SetAsideLevels(c, swept, r.key, key, later);
    var (rest, b) := Touch(c, m, r);
    LevelConcat(c, rest, [Entry(r.key, b.(tokens := Charge(b.tokens)))], key, later);
    LevelAt(c, rest, key, later);
  }

  /** The bucket that a check works on holds the key's allowance. */
  lemma TouchLevel(c: Config, m: Table, r: Request)
    requires !c.Disabled() && Bounded(c, m)
    ensures Touch(c, m, r).1.tokens == Level(c, m, r.key, r.at)
  {
    SweepKeepsLevels(c, m, r.at, GC_SWEEP_LIMIT, r.key, r.at);
    LevelAt(c, Sweep(c, m, r.at, GC_SWEEP_LIMIT), r.key, r.at);
  }

  /** The answer depends only on the key's allowance, which the call then charges. */
  lemma OwnLevel(c: Config, m: Table, r: Request, later: int)
    requires !c.Disabled() && Bounded(c, m) && Recency(m, r.at) && r.at <= later
    ensures Step(c, m, r).1 == Decide(c, Level(c, m, r.key, r.at))
    ensures Level(c, Step(c, m, r).0, r.key, later)
         == Min(c.Capacity(), Charge(Level(c, m, r.key, r.at)) + c.Accrued(later - r.at))
  {
    TouchLevel(c, m, r);
    TouchBounded(c, m, r);
    TouchRecency(c, m, r);
    var (rest, b) := Touch(c, m, r);
    var own := Entry(r.key, b.(tokens := Charge(b.tokens)));
    LevelConcat(c, rest, [own], r.key, later);
    assert !Holds(rest, r.key);
    ChargedRefill(c, own.bucket, later);
  }

  lemma ChargedRefill(c: Config, b: Bucket, later: int)
    requires Sane(c, b) && b.refilledAt <= later
    ensures Refill(c, b, later).tokens == Min(c.Capacity(), b.tokens + c.Accrued(later - b.refilledAt))
  {
  }

  // ----- Runs -----

  /** The clock readings of a run never go back, starting from `now`. */
  predicate Clocked(rs: seq<Request>, now: int) {
    rs == [] || (now <= rs[0].at && Clocked(rs[1..], rs[0].at))
  }

  function Run(c: Config, m: Table, rs: seq<Request>): Table
    decreases |rs|
  {
    if rs == [] then m else Run(c, Step(c, m, rs[0]).0, rs[1..])
  }

  function Decisions(c: Config, m: Table, rs: seq<Request>): seq<Decision>
    decreases |rs|
  {
    if rs == [] then [] else [Step(c, m, rs[0]).1] + Decisions(c, Step(c, m, rs[0]).0, rs[1..])
  }

  /** The keys that the hard cap removes somewhere in the run. */
  function Lost(c: Config, m: Table, rs: seq<Request>): set<Key>
    decreases |rs|
  {
    if rs == [] then {} else Evicted(c, m, rs[0]) + Lost(c, Step(c, m, rs[0]).0, rs[1..])
  }

  /** Every table reached from the empty limiter keeps its bounds and its recency order. */
  lemma {:induction false} RunInvariant(c: Config, m: Table, rs: seq<Request>, now: int)
    requires Bounded(c, m) && Recency(m, now) && Clocked(rs, now)
    ensures Bounded(c, Run(c, m, rs))
    ensures Recency(Run(c, m, rs), if rs == [] then now else rs[|rs| - 1].at)
    decreases |rs|
  {
    if rs != [] {
      StepBounded(c, m, rs[0]);
      StepRecency(c, m, rs[0], now);
      RunInvariant(c, Step(c, m, rs[0]).0, rs[1..], rs[0].at);
    }
  }

  // ----- The limiter without memory bounds -----

  type Ledger = map<Key, Bucket>

  /** A limiter that keeps every bucket for ever and never sweeps. */
  function IdealStep(c: Config, l: Ledger, r: Request): (Ledger, Decision) {
    if c.Disabled() then (l, Decision(true, 0, Infinite))
    else
      var b := if r.key in l then Refill(c, l[r.key], r.at) else Full(c, r.at);
      (l[r.key := b.(tokens := Charge(b.tokens))], Decide(c, b.tokens))
  }

  function IdealDecisions(c: Config, l: Ledger, rs: seq<Request>): seq<Decision>
    decreases |rs|
  {
    if rs == [] then [] else [IdealStep(c, l, rs[0]).1] + IdealDecisions(c, IdealStep(c, l, rs[0]).0, rs[1..])
  }

  function IdealLevel(c: Config, l: Ledger, key: Key, at: int): int {
    if key in l then Refill(c, l[key], at).tokens else c.Capacity()
  }

  /** The two limiters give every key outside `lost` the same allowance from `now` on. */
  ghost predicate Simulates(c: Config, m: Table, l: Ledger, now: int, lost: set<Key>) {
    && Bounded(c, m) && Recency(m, now)
    && (forall key :: key in l ==> Sane(c, l[key]) && l[key].refilledAt <= now)
    && forall key, at :: key !in lost && now <= at ==> Level(c, m, key, at) == IdealLevel(c, l, key, at)
  }

  lemma IdealStepLevels(c: Config, l: Ledger, r: Request, now: int, key: Key, at: int)
    requires !c.Disabled() && now <= r.at <= at
    requires forall k :: k in l ==> Sane(c, l[k]) && l[k].refilledAt <= now
    ensures var l' := IdealStep(c, l, r).0;
            && (forall k :: k in l' ==> Sane(c, l'[k]) && l'[k].refilledAt <= r.at)
            && IdealLevel(c, l', key, at)
            == if key != r.key then IdealLevel(c, l, key, at)
               else Min(c.Capacity(), Charge(IdealLevel(c, l, key, r.at)) + c.Accrued(at - r.at))
    ensures IdealStep(c, l, r).1 == Decide(c, IdealLevel(c, l, r.key, r.at))
  {
    if r.key in l {
      RefillSane(c, l[r.key], r.at);
    }
    var l' := IdealStep(c, l, r).0;
    assert l'[r.key].refilledAt == r.at && Sane(c, l'[r.key]);
    ChargedRefill(c, l'[r.key], at);
  }

  lemma StepAgrees(c: Config, m: Table, l: Ledger, r: Request, now: int, lost: set<Key>, key: Key, at: int)
    requires !c.Disabled() && Simulates(c, m, l, now, lost) && now <= r.at <= at
    requires key !in lost + Evicted(c, m, r)
    ensures Level(c, Step(c, m, r).0, key, at) == IdealLevel(c, IdealStep(c, l, r).0, key, at)
  {
    RecencyLater(m, now, r.at);
    hide Level, Step, Evicted, Bounded, Recency, IdealStep, IdealLevel, Sane;
    IdealStepLevels(c, l, r, now, key, at);
    if key == r.key {
      OwnLevel(c, m, r, at);
    } else {
      OtherLevels(c, m, r, key, at);
    }
  }

  lemma StepSimulates(c: Config, m: Table, l: Ledger, r: Request, now: int, lost: set<Key>)
    requires !c.Disabled() && Simulates(c, m, l, now, lost) && now <= r.at
    ensures Simulates(c, Step(c, m, r).0, IdealStep(c, l, r).0, r.at, lost + Evicted(c, m, r))
    ensures r.key !in lost ==> Step(c, m, r).1 == IdealStep(c, l, r).1
  {
    RecencyLater(m, now, r.at);
    hide Level, Step, Evicted, Bounded, Recency, IdealStep, IdealLevel, Sane;
    StepBounded(c, m, r);
    StepRecency(c, m, r, now);
    OwnLevel(c, m, r, r.at);
    IdealStepLevels(c, l, r, now, r.key, r.at);
    forall key, at | key !in lost + Evicted(c, m, r) && r.at <= at
      ensures Level(c, Step(c, m, r).0, key, at) == IdealLevel(c, IdealStep(c, l, r).0, key, at)
    {
      StepAgrees(c, m, l, r, now, lost, key, at);
    }
  }

  /** Position by position, the decisions agree for every key that was not evicted before that position. */
  ghost predicate AgreeUnlessEvicted(c: Config, m: Table, l: Ledger, rs: seq<Request>, lost: set<Key>)
    decreases |rs|
  {
    rs != [] ==>
      && (rs[0].key !in lost ==> Step(c, m, rs[0]).1 == IdealStep(c, l, rs[0]).1)
      && AgreeUnlessEvicted(c, Step(c, m, rs[0]).0, IdealStep(c, l, rs[0]).0, rs[1..], lost + Evicted(c, m, rs[0]))
  }

  lemma {:induction false} RunSimulates(c: Config, m: Table, l: Ledger, rs: seq<Request>, now: int, lost: set<Key>)
    requires !c.Disabled() && Simulates(c, m, l, now, lost) && Clocked(rs, now)
    ensures AgreeUnlessEvicted(c, m, l, rs, lost)
    decreases |rs|
  {
    if rs != [] {
      StepSimulates(c, m, l, rs[0], now, lost);
      RunSimulates(c, Step(c, m, rs[0]).0, IdealStep(c, l, rs[0]).0, rs[1..], rs[0].at, lost + Evicted(c, m, rs[0]));
    }
  }

  /** Sweeping, lazy refill and the map order are invisible: until the hard cap removes a key,
      that key is answered as by a limiter with unbounded memory. */
  lemma BoundedMemoryIsInvisible(c: Config, rs: seq<Request>, start: int)
    requires Clocked(rs, start)
    ensures !c.Disabled() ==> AgreeUnlessEvicted(c, [], map[], rs, {})
    ensures Lost(c, [], rs) == {} ==> Decisions(c, [], rs) == IdealDecisions(c, map[], rs)
  {
    if c.Disabled() {
      DisabledAgree(c, [], map[], rs);
    } else {
      RunSimulates(c, [], map[], rs, start, {});
      if Lost(c, [], rs) == {} {
        NothingLostAgree(c, [], map[], rs);
      }
    }
  }

  lemma {:induction false} NothingLostAgree(c: Config, m: Table, l: Ledger, rs: seq<Request>)
    requires AgreeUnlessEvicted(c, m, l, rs, {}) && Lost(c, m, rs) == {}
    ensures Decisions(c, m, rs) == IdealDecisions(c, l, rs)
    decreases |rs|
  {
    if rs != [] {
      assert {} + Evicted(c, m, rs[0]) == {};
      NothingLostAgree(c, Step(c, m, rs[0]).0, IdealStep(c, l, rs[0]).0, rs[1..]);
    }
  }

  lemma {:induction false} DisabledAgree(c: Config, m: Table, l: Ledger, rs: seq<Request>)
    requires c.Disabled()
    ensures Decisions(c, m, rs) == IdealDecisions(c, l, rs)
    decreases |rs|
  {
    if rs != [] {
      DisabledAgree(c, m, l, rs[1..]);
    }
  }

  // ----- How much a key can get through -----

  function AdmittedCount(c: Config, m: Table, rs: seq<Request>, key: Key): nat
    decreases |rs|
  {
    if rs == [] then 0
    else
      (if rs[0].key == key && Step(c, m, rs[0]).1.allowed then 1 else 0)
      + AdmittedCount(c, Step(c, m, rs[0]).0, rs[1..], key)
  }

  lemma LevelGrowth(c: Config, m: Table, key: Key, t0: int, t1: int)
    requires !c.Disabled() && Bounded(c, m) && Recency(m, t0) && t0 <= t1
    ensures 0 <= Level(c, m, key, t1) <= c.Capacity()
    ensures Level(c, m, key, t0) <= Level(c, m, key, t1) <= Level(c, m, key, t0) + c.Accrued(t1 - t0)
  {
    LevelAt(c, m, key, t0);
    LevelAt(c, m, key, t1);
    AccruedNonNegative(c, t1 - t0);
    if Holds(m, key) {
      var b := m[IndexOf(m, key)].bucket;
      assert m[IndexOf(m, key)] in m;
      RefillSane(c, b, t1);
      RefillLater(c, b, t0, t1);
      AccruedSplit(c, t0 - b.refilledAt, t1 - t0);
    }
  }

  lemma ChargeConserves(c: Config, tokens: int)
    requires !c.Disabled() && tokens <= c.Capacity()
    ensures (if Decide(c, tokens).allowed then TOKEN else 0) + Min(c.Capacity(), Charge(tokens) + c.Accrued(0))
         <= tokens
  {
  }

  /** One call: what it spends plus what it leaves never exceeds what had accrued. */
  lemma StepPotential(c: Config, m: Table, r: Request, key: Key, from: int)
    requires !c.Disabled() && Bounded(c, m) && Recency(m, from) && from <= r.at
    requires key !in Evicted(c, m, r)
    ensures (if r.key == key && Step(c, m, r).1.allowed then TOKEN else 0) + Level(c, Step(c, m, r).0, key, r.at)
         <= Level(c, m, key, from) + c.Accrued(r.at - from)
  {
    hide *;
    LevelGrowth(c, m, key, from, r.at);
    if key == r.key {
      RecencyLater(m, from, r.at);
      OwnLevel(c, m, r, r.at);
      ChargeConserves(c, Level(c, m, key, r.at));
      assert r.at - r.at == 0;
    } else {
      OtherLevels(c, m, r, key, r.at);
    }
  }

  /** Scaled tokens that the run spends for `key`. */
  function Spent(c: Config, m: Table, rs: seq<Request>, key: Key): int {
    TOKEN * AdmittedCount(c, m, rs, key)
  }

  lemma SpentStep(c: Config, m: Table, rs: seq<Request>, key: Key)
    requires rs != []
    ensures Spent(c, m, rs, key)
         == (if rs[0].key == key && Step(c, m, rs[0]).1.allowed then TOKEN else 0)
            + Spent(c, Step(c, m, rs[0]).0, rs[1..], key)
  {
  }

  /** Potential argument: tokens spent plus tokens left never exceed tokens had plus tokens accrued. */
  lemma {:induction false} SpentPlusLeft(c: Config, m: Table, rs: seq<Request>, key: Key, from: int, to: int)
    requires !c.Disabled() && Bounded(c, m) && Recency(m, from)
    requires Clocked(rs, from) && from <= to && (rs != [] ==> rs[|rs| - 1].at <= to)
    requires key !in Lost(c, m, rs)
    ensures Spent(c, m, rs, key) + Level(c, Run(c, m, rs), key, to) <= Level(c, m, key, from) + c.Accrued(to - from)
    decreases |rs|
  {
    hide Config.Accrued, Step;
    if rs == [] {
      LevelGrowth(c, m, key, from, to);
    } else {
      var r, rest := rs[0], rs[1..];
      var m' := Step(c, m, r).0;
      assert Spent(c, m', rest, key) + Level(c, Run(c, m', rest), key, to)
          <= Level(c, m', key, r.at) + c.Accrued(to - r.at) by {
        ClockedEnd(rs, from);
        StepBounded(c, m, r);
        StepRecency(c, m, r, from);
        SpentPlusLeft(c, m', rest, key, r.at, to);
      }
      SpentStep(c, m, rs, key);
      StepPotential(c, m, r, key, from);
      AccruedSplit(c, r.at - from, to - r.at);
    }
  }

  lemma {:induction false} ClockedEnd(rs: seq<Request>, from: int)
    requires Clocked(rs, from) && rs != []
    ensures from <= rs[0].at <= rs[|rs| - 1].at
  {
    if |rs| > 1 {
      ClockedEnd(rs[1..], rs[0].at);
    }
  }

  lemma {:induction false} ClockedSplit(a: seq<Request>, b: seq<Request>, now: int)
    requires Clocked(a + b, now)
    ensures Clocked(a, now) && Clocked(b, if a == [] then now else a[|a| - 1].at)
  {
    if a == [] {
      assert a + b == b;
    } else {
      assert (a + b)[1..] == a[1..] + b;
      ClockedSplit(a[1..], b, a[0].at);
    }
  }

  /** In any window of any run, the requests admitted for a key that the cap does not remove in
      that window number at most capacity plus the tokens that accrue in it. */
  lemma WindowBound(c: Config, before: seq<Request>, window: seq<Request>, key: Key, start: int, to: int)
    requires !c.Disabled() && Clocked(before + window, start) && window != [] && window[|window| - 1].at <= to
    requires key !in Lost(c, Run(c, [], before), window)
    ensures TOKEN * AdmittedCount(c, Run(c, [], before), window, key)
         <= TOKEN * Max(0, c.perMinute + c.burst) + (to - window[0].at) * c.perMinute
  {
    ClockedSplit(before, window, start);
    RunInvariant(c, [], before, start);
    var m := Run(c, [], before);
    var now := if before == [] then start else before[|before| - 1].at;
    RecencyLater(m, now, window[0].at);
    ClockedEnd(window, now);
    SpentPlusLeft(c, m, window, key, window[0].at, to);
    LevelGrowth(c, m, key, window[0].at, window[0].at);
    ClockedEnd(window, window[0].at);
    SpentLevels(c, m, window, key, window[0].at, to);
  }

  lemma RecencyLater(m: Table, t0: int, t1: int)
    requires Recency(m, t0) && t0 <= t1
    ensures Recency(m, t1)
  {
  }

  lemma SpentLevels(c: Config, m: Table, rs: seq<Request>, key: Key, from: int, to: int)
    requires !c.Disabled() && Bounded(c, m) && Recency(m, from) && Clocked(rs, from) && rs != []
    requires rs[|rs| - 1].at <= to
    ensures Level(c, Run(c, m, rs), key, to) >= 0
  {
    RunInvariant(c, m, rs, from);
    RecencyLater(Run(c, m, rs), rs[|rs| - 1].at, to);
    LevelGrowth(c, Run(c, m, rs), key, to, to);
  }

  // ----- What a denial promises -----

  /** No request of the run is for `key`. */
  predicate Avoids(rs: seq<Request>, key: Key) {
    forall r :: r in rs ==> r.key != key
  }

  lemma {:induction false} OthersOnlyHelp(c: Config, m: Table, rs: seq<Request>, key: Key, now: int, at: int)
    requires !c.Disabled() && Bounded(c, m) && Recency(m, now) && Clocked(rs, now)
    requires Avoids(rs, key) && now <= at && (rs != [] ==> rs[|rs| - 1].at <= at)
    ensures Level(c, Run(c, m, rs), key, at) >= Level(c, m, key, at)
    decreases |rs|
  {
    if rs != [] {
      assert rs[0] in rs;
      ClockedEnd(rs, now);
      StepBounded(c, m, rs[0]);
      StepRecency(c, m, rs[0], now);
      OtherLevels(c, m, rs[0], key, at);
      RecencyLater(m, now, at);
      LevelGrowth(c, m, key, at, at);
      OthersOnlyHelp(c, Step(c, m, rs[0]).0, rs[1..], key, rs[0].at, at);
    }
  }

  lemma AccruedAtLeast(c: Config, ms: int, seconds: int)
    requires !c.Disabled() && seconds >= 0 && ms >= 1000 * seconds
    ensures c.Accrued(ms) >= (1000 * c.perMinute) * seconds
  {
    assert ms * c.perMinute >= (1000 * seconds) * c.perMinute;
  }

  lemma AccruedAtMost(c: Config, ms: int, seconds: int)
    requires !c.Disabled() && ms <= 1000 * seconds
    ensures c.Accrued(ms) <= (1000 * c.perMinute) * seconds
  {
    assert ms * c.perMinute <= (1000 * seconds) * c.perMinute;
  }

  lemma TokenBack(c: Config, m: Table, denied: Request, at: int)
    requires !c.Disabled() && Bounded(c, m) && Recency(m, denied.at) && !Step(c, m, denied).1.allowed
    requires at >= denied.at + 1000 * Step(c, m, denied).1.retryAfterSeconds
    ensures denied.at <= at && Level(c, Step(c, m, denied).0, denied.key, at) >= Min(c.Capacity(), TOKEN)
  {
    OwnLevel(c, m, denied, denied.at);
    var s := Step(c, m, denied).1.retryAfterSeconds;
    OwnLevel(c, m, denied, at);
    AccruedAtLeast(c, at - denied.at, s);
  }

  /** A caller that waits as long as a denial says is admitted, whatever the other keys do meanwhile,
      provided one whole token fits in the bucket at all. */
  lemma RetryAfterSuffices(c: Config, m: Table, denied: Request, others: seq<Request>, retry: Request, now: int)
    requires Bounded(c, m) && Recency(m, now) && now <= denied.at && !Step(c, m, denied).1.allowed
    requires Clocked(others + [retry], denied.at) && Avoids(others, denied.key) && retry.key == denied.key
    requires retry.at >= denied.at + 1000 * Step(c, m, denied).1.retryAfterSeconds
    ensures Step(c, Run(c, Step(c, m, denied).0, others), retry).1.allowed <==> c.Capacity() >= TOKEN
  {
    var m1 := Step(c, m, denied).0;
    var m2 := Run(c, m1, others);
    RecencyLater(m, now, denied.at);
    TokenBack(c, m, denied, retry.at);
    StepBounded(c, m, denied);
    StepRecency(c, m, denied, now);
    ClockedSplit(others, [retry], denied.at);
    OthersOnlyHelp(c, m1, others, denied.key, denied.at, retry.at);
    RunInvariant(c, m1, others, denied.at);
    RecencyLater(m2, if others == [] then denied.at else others[|others| - 1].at, retry.at);
    TouchLevel(c, m2, retry);
    LevelGrowth(c, m2, retry.key, retry.at, retry.at);
  }

  /** Until the key has a whole token again, every further check of it is denied. */
  lemma {:induction false} StaysDenied(c: Config, m: Table, rs: seq<Request>, key: Key, now: int, until: int)
    requires !c.Disabled() && Bounded(c, m) && Recency(m, now) && Clocked(rs, now) && now <= until
    requires key !in Lost(c, m, rs) && Level(c, m, key, until) < TOKEN
    requires forall r :: r in rs ==> r.at <= until
    ensures AdmittedCount(c, m, rs, key) == 0
    decreases |rs|
  {
    if rs != [] {
      var r := rs[0];
      assert r in rs;
      StepBounded(c, m, r);
      StepRecency(c, m, r, now);
      RecencyLater(m, now, r.at);
      LevelGrowth(c, m, key, r.at, until);
      if r.key == key {
        OwnLevel(c, m, r, until);
        ChargedLater(c, m, r, until);
      } else {
        OtherLevels(c, m, r, key, until);
      }
      StaysDenied(c, Step(c, m, r).0, rs[1..], key, r.at, until);
    }
  }

  /** A denied check takes nothing. */
  lemma ChargedLater(c: Config, m: Table, r: Request, until: int)
    requires !c.Disabled() && Bounded(c, m) && Recency(m, r.at) && r.at <= until
    requires Level(c, m, r.key, r.at) < TOKEN
    ensures Level(c, Step(c, m, r).0, r.key, until) == Level(c, m, r.key, until)
  {
    OwnLevel(c, m, r, until);
    LevelAt(c, m, r.key, r.at);
    LevelAt(c, m, r.key, until);
    AccruedNonNegative(c, until - r.at);
    if Holds(m, r.key) {
      var b := m[IndexOf(m, r.key)].bucket;
      assert m[IndexOf(m, r.key)] in m;
      AccruedSplit(c, r.at - b.refilledAt, until - r.at);
    }
  }

  lemma TokenNotBackYet(c: Config, m: Table, denied: Request, until: int)
    requires !c.Disabled() && Bounded(c, m) && Recency(m, denied.at) && !Step(c, m, denied).1.allowed
    requires denied.at < until <= denied.at + 1000 * (Step(c, m, denied).1.retryAfterSeconds - 1)
    ensures Level(c, Step(c, m, denied).0, denied.key, until) < TOKEN
  {
    OwnLevel(c, m, denied, until);
    AccruedAtMost(c, until - denied.at, Step(c, m, denied).1.retryAfterSeconds - 1);
  }

  /** The reported wait is not exaggerated: more than one second before it ends, checks of the key
      are still denied, however many there are, unless the cap removes its bucket. */
  lemma RetryAfterNecessary(c: Config, m: Table, denied: Request, rs: seq<Request>, now: int)
    requires Bounded(c, m) && Recency(m, now) && now <= denied.at && !Step(c, m, denied).1.allowed
    requires Clocked(rs, denied.at) && denied.key !in Lost(c, Step(c, m, denied).0, rs)
    requires forall r :: r in rs ==> r.at < denied.at + 1000 * (Step(c, m, denied).1.retryAfterSeconds - 1)
    ensures AdmittedCount(c, Step(c, m, denied).0, rs, denied.key) == 0
  {
    if rs != [] {
      var until := denied.at + 1000 * (Step(c, m, denied).1.retryAfterSeconds - 1);
      assert rs[0] in rs;
      RecencyLater(m, now, denied.at);
      TokenNotBackYet(c, m, denied, until);
      StepBounded(c, m, denied);
      StepRecency(c, m, denied, now);
      StaysDenied(c, Step(c, m, denied).0, rs, denied.key, denied.at, until);
    }
  }

  /** Eviction is the one thing callers can see: the evicted key is admitted again at once. */
  lemma EvictionForgives(c: Config, m: Table, r: Request, again: Request)
    requires Bounded(c, m) && CapEvicts(c, m, r) && again.key in Evicted(c, m, r) && again.key != r.key
    requires r.at <= again.at
    ensures Step(c, Step(c, m, r).0, again).1 == Decide(c, c.Capacity())
  {
    StepBounded(c, m, r);
    OtherLevels(c, m, r, again.key, again.at);
    TouchLevel(c, Step(c, m, r).0, again);
  }

  // ----- How much a key does get through -----

  /** One call takes no more from the allowance than the token it is admitted for. */
  lemma StepSpares(c: Config, m: Table, r: Request, key: Key)
    requires !c.Disabled() && Bounded(c, m) && Recency(m, r.at)
    ensures Level(c, m, key, r.at)
         <= (if r.key == key && Step(c, m, r).1.allowed then TOKEN else 0) + Level(c, Step(c, m, r).0, key, r.at)
  {
    hide *;
    LevelGrowth(c, m, key, r.at, r.at);
    if key == r.key {
      OwnLevel(c, m, r, r.at);
      ChargeTakesOne(c, Level(c, m, key, r.at));
      assert r.at - r.at == 0;
    } else {
      OtherLevels(c, m, r, key, r.at);
    }
  }

  /** And exactly that token, unless the cap removes the key. */
  lemma StepTakesOne(c: Config, m: Table, r: Request, key: Key)
    requires !c.Disabled() && Bounded(c, m) && Recency(m, r.at) && key !in Evicted(c, m, r)
    ensures Level(c, Step(c, m, r).0, key, r.at)
         == Level(c, m, key, r.at) - if r.key == key && Step(c, m, r).1.allowed then TOKEN else 0
  {
    hide *;
    LevelGrowth(c, m, key, r.at, r.at);
    if key == r.key {
      OwnLevel(c, m, r, r.at);
      ChargeTakesOne(c, Level(c, m, key, r.at));
      assert r.at - r.at == 0;
    } else {
      OtherLevels(c, m, r, key, r.at);
    }
  }

  lemma ChargeTakesOne(c: Config, tokens: int)
    requires !c.Disabled() && 0 <= tokens <= c.Capacity()
    ensures tokens == (if Decide(c, tokens).allowed then TOKEN else 0)
                    + Min(c.Capacity(), Charge(tokens) + c.Accrued(0))
    ensures Decide(c, tokens).allowed <==> tokens >= TOKEN
    ensures Decide(c, tokens).remaining == Whole(if tokens >= TOKEN then tokens / TOKEN - 1 else 0)
  {
  }

  /** What is left and what was spent is at least what there was, evictions or not. */
  lemma {:induction false} SpentLeavesRest(c: Config, m: Table, rs: seq<Request>, key: Key, from: int, to: int)
    requires !c.Disabled() && Bounded(c, m) && Recency(m, from)
    requires Clocked(rs, from) && from <= to && (rs != [] ==> rs[|rs| - 1].at <= to)
    ensures Level(c, m, key, from) <= Spent(c, m, rs, key) + Level(c, Run(c, m, rs), key, to)
    decreases |rs|
  {
    hide Config.Accrued, Step, Level;
    if rs == [] {
      LevelGrowth(c, m, key, from, to);
    } else {
      var r, rest := rs[0], rs[1..];
      ClockedEnd(rs, from);
      RecencyLater(m, from, r.at);
      LevelGrowth(c, m, key, from, r.at);
      StepBounded(c, m, r);
      StepRecency(c, m, r, from);
      StepSpares(c, m, r, key);
      SpentLeavesRest(c, Step(c, m, r).0, rest, key, r.at, to);
      SpentStep(c, m, rs, key);
    }
  }

  lemma OwnDecision(c: Config, m: Table, r: Request)
    requires !c.Disabled() && Bounded(c, m) && Recency(m, r.at)
    ensures Step(c, m, r).1.allowed <==> Level(c, m, r.key, r.at) >= TOKEN
    ensures Step(c, m, r).1.remaining
         == Whole(if Level(c, m, r.key, r.at) >= TOKEN then Level(c, m, r.key, r.at) / TOKEN - 1 else 0)
  {
    hide *;
    LevelGrowth(c, m, r.key, r.at, r.at);
    OwnLevel(c, m, r, r.at);
    ChargeTakesOne(c, Level(c, m, r.key, r.at));
  }

  lemma EmptyLimiter(c: Config, key: Key, at: int)
    ensures Bounded(c, []) && Recency([], at) && Level(c, [], key, at) == c.Capacity()
  {
  }

  lemma ClockedLast(rs: seq<Request>, r: Request, start: int)
    requires Clocked(rs + [r], start)
    ensures Clocked(rs, start) && start <= r.at && (rs != [] ==> rs[|rs| - 1].at <= r.at)
    ensures rs != [] ==> rs[|rs| - 1].at >= start
  {
    ClockedSplit(rs, [r], start);
    if rs != [] {
      ClockedEnd(rs, start);
    }
  }

  /** Whatever happened before, a key that has not yet been admitted as often as the bucket holds tokens is admitted. */
  lemma BurstIsGranted(c: Config, rs: seq<Request>, r: Request, start: int)
    requires Clocked(rs + [r], start)
    requires c.perMinute <= 0 || AdmittedCount(c, [], rs, r.key) + 1 <= c.perMinute + c.burst
    ensures Step(c, Run(c, [], rs), r).1.allowed
  {
    if !c.Disabled() {
      hide Level, AdmittedCount, Run, Bounded, Recency;
      ClockedLast(rs, r, start);
      EmptyLimiter(c, r.key, start);
      RunInvariant(c, [], rs, start);
      RecencyLater(Run(c, [], rs), if rs == [] then start else rs[|rs| - 1].at, r.at);
      SpentLeavesRest(c, [], rs, r.key, start, r.at);
      OwnDecision(c, Run(c, [], rs), r);
    }
  }

  // ----- The reported number -----

  /** How often the key is checked. */
  function Asked(rs: seq<Request>, key: Key): nat {
    if rs == [] then 0 else (if rs[0].key == key then 1 else 0) + Asked(rs[1..], key)
  }

  /** At one clock reading, as many checks are admitted as there are whole tokens, and then none. */
  lemma {:induction false} AtOnce(c: Config, m: Table, rs: seq<Request>, key: Key, at: int)
    requires !c.Disabled() && Bounded(c, m) && Recency(m, at)
    requires (forall r :: r in rs ==> r.at == at) && key !in Lost(c, m, rs)
    ensures AdmittedCount(c, m, rs, key) == Min(Level(c, m, key, at) / TOKEN, Asked(rs, key))
    decreases |rs|
  {
    hide Level, Step, Bounded, Recency, Evicted;
    LevelGrowth(c, m, key, at, at);
    if rs != [] {
      var r := rs[0];
      var m' := Step(c, m, r).0;
      assert r in rs && forall x :: x in rs[1..] ==> x in rs;
      StepBounded(c, m, r);
      StepRecency(c, m, r, at);
      StepTakesOne(c, m, r, key);
      OwnDecision(c, m, r);
      LevelGrowth(c, m', key, at, at);
      AtOnce(c, m', rs[1..], key, at);
    }
  }

  /** The number reported is how many more checks of the key are admitted at the same clock reading, whatever other keys
      do, unless the cap removes the bucket. */
  lemma RemainingIsExact(c: Config, m: Table, r: Request, rs: seq<Request>)
    requires !c.Disabled() && Bounded(c, m) && Recency(m, r.at)
    requires (forall x :: x in rs ==> x.at == r.at) && r.key !in Lost(c, Step(c, m, r).0, rs)
    ensures Step(c, m, r).1.remaining.Whole?
    ensures AdmittedCount(c, Step(c, m, r).0, rs, r.key) == Min(Step(c, m, r).1.remaining.tokens, Asked(rs, r.key))
  {
    hide Level, Step, Bounded, Recency, Evicted, AdmittedCount, Lost, Asked;
    LevelGrowth(c, m, r.key, r.at, r.at);
    StepBounded(c, m, r);
    StepRecency(c, m, r, r.at);
    OwnDecision(c, m, r);
    OwnNotEvicted(c, m, r);
    StepTakesOne(c, m, r, r.key);
    AtOnce(c, Step(c, m, r).0, rs, r.key, r.at);
  }

  lemma OwnNotEvicted(c: Config, m: Table, r: Request)
    ensures r.key !in Evicted(c, m, r)
  {
    hide Sweep;
  }

  // ----- Exactly which checks are admitted -----

  lemma {:induction false} RunLast(c: Config, m: Table, rs: seq<Request>, r: Request, key: Key)
    ensures Run(c, m, rs + [r]) == Step(c, Run(c, m, rs), r).0
    ensures AdmittedCount(c, m, rs + [r], key)
         == AdmittedCount(c, m, rs, key) + if r.key == key && Step(c, Run(c, m, rs), r).1.allowed then 1 else 0
    ensures Lost(c, m, rs + [r]) == Lost(c, m, rs) + Evicted(c, Run(c, m, rs), r)
    decreases |rs|
  {
    hide Step, Evicted;
    if rs == [] {
      assert [] + [r] == [r] && [r][1..] == [];
    } else {
      assert (rs + [r])[0] == rs[0] && (rs + [r])[1..] == rs[1..] + [r];
      RunLast(c, Step(c, m, rs[0]).0, rs[1..], r, key);
    }
  }

  /** What the window of the run from its `i`-th call up to `at` has room for: its bound less what was admitted. */
  function Room(c: Config, rs: seq<Request>, i: nat, key: Key, at: int): int
    requires i <= |rs|
  {
    TOKEN * Max(0, c.perMinute + c.burst) + (if i < |rs| then (at - rs[i].at) * c.perMinute else 0)
    - TOKEN * AdmittedCount(c, Run(c, [], rs[..i]), rs[i..], key)
  }

  lemma {:induction false} RunSplit(c: Config, m: Table, a: seq<Request>, b: seq<Request>)
    ensures Run(c, m, a + b) == Run(c, Run(c, m, a), b)
    decreases |a|
  {
    hide Step;
    if a == [] {
      assert a + b == b;
    } else {
      assert (a + b)[0] == a[0] && (a + b)[1..] == a[1..] + b;
      RunSplit(c, Step(c, m, a[0]).0, a[1..], b);
    }
  }

  /** One more call: every window gains what accrues until `at` and loses the call's own token. */
  lemma RoomStep(c: Config, rs: seq<Request>, r: Request, i: nat, key: Key, at: int)
    requires i <= |rs|
    ensures Room(c, rs + [r], i, key, at)
         == Room(c, rs, i, key, r.at) + c.Accrued(at - r.at)
            - if r.key == key && Step(c, Run(c, [], rs), r).1.allowed then TOKEN else 0
  {
    hide AdmittedCount, Run, Step;
    assert (rs + [r])[..i] == rs[..i] && (rs + [r])[i..] == rs[i..] + [r] && rs[..i] + rs[i..] == rs;
    RunSplit(c, [], rs[..i], rs[i..]);
    RunLast(c, Run(c, [], rs[..i]), rs[i..], r, key);
    if i < |rs| {
      AccruedSplit(c, r.at - rs[i].at, at - r.at);
    } else {
      NoneAdmitted(c, Run(c, [], rs[..i]), key);
    }
  }

  lemma NoneAdmitted(c: Config, m: Table, key: Key)
    ensures AdmittedCount(c, m, [], key) == 0
  {
  }

  /** Between calls an allowance grows up to capacity. */
  lemma LevelLater(c: Config, m: Table, key: Key, t0: int, t1: int)
    requires !c.Disabled() && Bounded(c, m) && Recency(m, t0) && t0 <= t1
    ensures Level(c, m, key, t1) == Min(c.Capacity(), Level(c, m, key, t0) + c.Accrued(t1 - t0))
  {
    LevelAt(c, m, key, t0);
    LevelAt(c, m, key, t1);
    AccruedNonNegative(c, t1 - t0);
    if Holds(m, key) {
      var b := m[IndexOf(m, key)].bucket;
      assert m[IndexOf(m, key)] in m;
      AccruedSplit(c, t0 - b.refilledAt, t1 - t0);
    }
  }

  lemma WindowFits(c: Config, m: Table, window: seq<Request>, key: Key, now: int, at: int)
    requires !c.Disabled() && Bounded(c, m) && Recency(m, now) && Clocked(window, now) && key !in Lost(c, m, window)
    requires window != [] && window[|window| - 1].at <= at
    ensures Level(c, Run(c, m, window), key, at)
         <= c.Capacity() + c.Accrued(at - window[0].at) - TOKEN * AdmittedCount(c, m, window, key)
  {
    hide *;
    ClockedEnd(window, now);
    ClockedFromFirst(window, now);
    RecencyLater(m, now, window[0].at);
    LevelGrowth(c, m, key, window[0].at, window[0].at);
    SpentPlusLeft(c, m, window, key, window[0].at, at);
    SpentIs(c, m, window, key);
  }

  lemma SpentIs(c: Config, m: Table, rs: seq<Request>, key: Key)
    ensures Spent(c, m, rs, key) == TOKEN * AdmittedCount(c, m, rs, key)
  {
  }

  /** No window has less room than the allowance. */
  lemma LevelFitsRoom(c: Config, rs: seq<Request>, i: nat, key: Key, start: int, at: int)
    requires !c.Disabled() && Clocked(rs, start) && (rs != [] ==> rs[|rs| - 1].at <= at)
    requires start <= at && key !in Lost(c, [], rs) && i <= |rs|
    ensures Level(c, Run(c, [], rs), key, at) <= Room(c, rs, i, key, at)
  {
    hide *;
    EmptyLimiter(c, key, start);
    if i == |rs| {
      RunInvariant(c, [], rs, start);
      RecencyLater(Run(c, [], rs), if rs == [] then start else rs[|rs| - 1].at, at);
      LevelGrowth(c, Run(c, [], rs), key, at, at);
      WholeRoom(c, rs, key, at);
    } else {
      InnerWindow(c, rs, i, key, start);
      WindowFits(c, Run(c, [], rs[..i]), rs[i..], key, if i == 0 then start else rs[i - 1].at, at);
      RoomOfWindow(c, rs, i, key, at);
    }
  }

  lemma InnerWindow(c: Config, rs: seq<Request>, i: nat, key: Key, start: int)
    requires !c.Disabled() && Clocked(rs, start) && key !in Lost(c, [], rs) && i < |rs|
    ensures var (m, now) := (Run(c, [], rs[..i]), if i == 0 then start else rs[i - 1].at);
            && Bounded(c, m) && Recency(m, now) && Clocked(rs[i..], now) && key !in Lost(c, m, rs[i..])
            && Run(c, m, rs[i..]) == Run(c, [], rs)
  {
    hide *;
    var past, window := rs[..i], rs[i..];
    assert past + window == rs;
    ClockedSplit(past, window, start);
    EmptyLimiter(c, key, start);
    RunInvariant(c, [], past, start);
    RunSplit(c, [], past, window);
    LostSplit(c, [], past, window);
  }

  lemma RoomOfWindow(c: Config, rs: seq<Request>, i: nat, key: Key, at: int)
    requires i < |rs|
    ensures Room(c, rs, i, key, at)
         == c.Capacity() + c.Accrued(at - rs[i].at) - TOKEN * AdmittedCount(c, Run(c, [], rs[..i]), rs[i..], key)
  {
  }

  lemma RunNothing(c: Config, m: Table)
    ensures Run(c, m, []) == m
  {
  }

  lemma ClockedFromFirst(rs: seq<Request>, now: int)
    requires Clocked(rs, now) && rs != []
    ensures Clocked(rs, rs[0].at)
  {
  }

  lemma {:induction false} LostSplit(c: Config, m: Table, a: seq<Request>, b: seq<Request>)
    ensures Lost(c, m, a + b) == Lost(c, m, a) + Lost(c, Run(c, m, a), b)
    decreases |a|
  {
    hide Step, Evicted;
    if a == [] {
      assert a + b == b;
    } else {
      assert (a + b)[0] == a[0] && (a + b)[1..] == a[1..] + b;
      LostSplit(c, Step(c, m, a[0]).0, a[1..], b);
    }
  }

  /** Some window has no more room than the allowance. */
  lemma {:induction false} TightestWindow(c: Config, rs: seq<Request>, key: Key, start: int, at: int) returns (i: nat)
    requires !c.Disabled() && Clocked(rs, start) && (rs != [] ==> rs[|rs| - 1].at <= at) && start <= at
    ensures i <= |rs| && Room(c, rs, i, key, at) <= Level(c, Run(c, [], rs), key, at)
    decreases |rs|
  {
    hide Level, AdmittedCount, Run, Bounded, Recency, Clocked, Step, Room, Config.Capacity, Config.Accrued;
    if rs == [] {
      i := 0;
      WholeRoom(c, [], key, at);
      EmptyLimiter(c, key, at);
      RunNothing(c, []);
    } else {
      var past, r := rs[..|rs| - 1], rs[|rs| - 1];
      assert rs == past + [r];
      ClockedLast(past, r, start);
      i := TightestWindow(c, past, key, start, r.at);
      var m, m' := Run(c, [], past), Run(c, [], rs);
      RunLast(c, [], past, r, key);
      EmptyLimiter(c, key, start);
      RunInvariant(c, [], past, start);
      RecencyLater(m, if past == [] then start else past[|past| - 1].at, r.at);
      StepBounded(c, m, r);
      StepRecency(c, m, r, r.at);
      StepSpares(c, m, r, key);
      LevelLater(c, m', key, r.at, at);
      RoomStep(c, past, r, i, key, at);
      if Level(c, m', key, at) == c.Capacity() {
        i := |rs|;
        WholeRoom(c, rs, key, at);
      }
    }
  }

  lemma WholeRoom(c: Config, rs: seq<Request>, key: Key, at: int)
    ensures Room(c, rs, |rs|, key, at) == c.Capacity()
  {
    assert rs[|rs|..] == [];
  }

  /** The limiter admits exactly what the token-bucket law allows: a check of a key the cap never removed gets through
      if and only if every window of the run that ends with it, and the bucket alone, has room for one more token. */
  lemma AdmittedIff(c: Config, rs: seq<Request>, r: Request, start: int)
    requires !c.Disabled() && Clocked(rs + [r], start) && r.key !in Lost(c, [], rs)
    ensures Step(c, Run(c, [], rs), r).1.allowed
       <==> forall i :: 0 <= i <= |rs| ==> Room(c, rs, i, r.key, r.at) >= TOKEN
  {
    hide Level, AdmittedCount, Run, Bounded, Recency, Clocked, Step, Room, Lost;
    ClockedLast(rs, r, start);
    EmptyLimiter(c, r.key, start);
    RunInvariant(c, [], rs, start);
    RecencyLater(Run(c, [], rs), if rs == [] then start else rs[|rs| - 1].at, r.at);
    OwnDecision(c, Run(c, [], rs), r);
    forall i | 0 <= i <= |rs|
      ensures Level(c, Run(c, [], rs), r.key, r.at) <= Room(c, rs, i, r.key, r.at)
    {
      LevelFitsRoom(c, rs, i, r.key, start, r.at);
    }
    var tight := TightestWindow(c, rs, r.key, start, r.at);
  }
  // ----- Who is forgotten -----

  /** Whose entry the swept table begins with. */
  lemma SweptFirst(c: Config, m: Table, at: int, n: nat)
    requires !c.Disabled() && Bounded(c, m) && Sweep(c, m, at, n) != []
    ensures var first := Sweep(c, m, at, n)[0];
            Holds(m, first.key) && m[IndexOf(m, first.key)].bucket.lastUsedAt == first.bucket.lastUsedAt
  {
    var first := Sweep(c, m, at, n)[0];
    SweepMembers(c, m, at, n, first);
    hide Sweep, IndexOf, Refill, Holds;
    var o :| o in m && o.key == first.key && (first == o || first.bucket == Refill(c, o.bucket, at));
    HeldAt(m, o);
    RefillKeepsUse(c, o.bucket, at);
  }

  lemma FirstIsLeast(m: Table, now: int, e: Entry)
    requires Recency(m, now) && e in m
    ensures m[0].bucket.lastUsedAt <= e.bucket.lastUsedAt <= now
  {
    var i :| 0 <= i < |m| && m[i] == e;
  }

  /** What a call that evicts makes of the swept table. */
  lemma EvictingStep(c: Config, m: Table, r: Request, key: Key)
    requires !c.Disabled() && key in Evicted(c, m, r)
    ensures var swept := Sweep(c, m, r.at, GC_SWEEP_LIMIT);
            && swept != [] && |swept| >= MAX_BUCKETS && key == swept[0].key && !Holds(swept, r.key)
            && |Step(c, m, r).0| == |swept|
            && Step(c, m, r).0[..|swept| - 1] == Without(swept, 0)
            && Step(c, m, r).0[|swept| - 1].bucket.lastUsedAt == r.at
  {
    hide Sweep;
  }

  /** The key that the cap removes was last used no later than any key that stays, and none goes while there is room. */
  lemma EvictedIsLeastRecent(c: Config, m: Table, r: Request, key: Key)
    requires !c.Disabled() && Bounded(c, m) && Recency(m, r.at) && key in Evicted(c, m, r)
    ensures Holds(m, key) && |Step(c, m, r).0| == MAX_BUCKETS && key != r.key
    ensures forall e :: e in Step(c, m, r).0 ==> m[IndexOf(m, key)].bucket.lastUsedAt <= e.bucket.lastUsedAt
  {
    hide *;
    var swept := Sweep(c, m, r.at, GC_SWEEP_LIMIT);
    SweepBounded(c, m, r.at, GC_SWEEP_LIMIT);
    SweepRecency(c, m, r.at, GC_SWEEP_LIMIT);
    EvictingStep(c, m, r, key);
    SweptFirst(c, m, r.at, GC_SWEEP_LIMIT);
    SizeBounded(c, m);
    OwnNotEvicted(c, m, r);
    assert swept[0] in swept;
    FirstIsLeast(swept, r.at, swept[0]);
    var after := Step(c, m, r).0;
    forall e | e in after ensures swept[0].bucket.lastUsedAt <= e.bucket.lastUsedAt {
      var i :| 0 <= i < |after| && after[i] == e;
      if i < |swept| - 1 {
        assert e == after[..|swept| - 1][i];
        WithoutMembers(swept, 0, e);
        FirstIsLeast(swept, r.at, e);
      }
    }
  }

  lemma SizeBounded(c: Config, m: Table)
    requires Bounded(c, m)
    ensures |m| <= MAX_BUCKETS
  {
  }

  lemma RefillKeepsUse(c: Config, b: Bucket, at: int)
    ensures Refill(c, b, at).lastUsedAt == b.lastUsedAt
  {
  }

  lemma HeldAt(m: Table, o: Entry)
    requires DistinctKeys(m) && o in m
    ensures Holds(m, o.key) && m[IndexOf(m, o.key)] == o
  {
    var i :| 0 <= i < |m| && m[i] == o;
    var k := IndexOf(m, o.key);
    assert !(k > i);
  }

  /** What the sweep makes of the first entry, in terms of keys. */
  lemma SweptHolds(c: Config, e: Entry, at: int, key: Key)
    ensures |Swept(c, e, at)| <= 1
    ensures (Swept(c, e, at) != [] && Swept(c, e, at)[0].key == key)
       <==> key == e.key
            && !(Refill(c, e.bucket, at).tokens >= c.Capacity() && at - e.bucket.lastUsedAt >= 300_000)
  {
    RefillKeepsUse(c, e.bucket, at);
  }

  lemma SweepStep(c: Config, m: Table, at: int, n: nat)
    requires m != []
    ensures Sweep(c, m, at, 0) == m
    ensures n > 0 ==> Sweep(c, m, at, n) == Swept(c, m[0], at) + Sweep(c, m[1..], at, n - 1)
  {
    hide Swept;
  }

  lemma SweepInventsNone(c: Config, m: Table, at: int, n: nat, key: Key)
    requires !c.Disabled() && forall e :: e in m ==> e.key != key
    ensures !Holds(Sweep(c, m, at, n), key)
  {
    hide Sweep;
    var left := Sweep(c, m, at, n);
    if Holds(left, key) {
      SweepMembers(c, m, at, n, left[IndexOf(left, key)]);
    }
  }

  /** The sweep drops exactly those of the entries it looks at that are full by now and unused for five minutes. */
  lemma {:induction false} SweepDropsIff(c: Config, m: Table, at: int, n: nat, i: nat)
    requires !c.Disabled() && DistinctKeys(m) && i < |m|
    ensures Holds(Sweep(c, m, at, n), m[i].key)
       <==> !(i < n && Refill(c, m[i].bucket, at).tokens >= c.Capacity() && at - m[i].bucket.lastUsedAt >= 300_000)
  {
    hide Refill, Config.Capacity, Config.Disabled, Sweep, Swept, Holds, IndexOf;
    SweepStep(c, m, at, n);
    if n == 0 {
      HeldAt(m, m[i]);
    } else {
      SweptHolds(c, m[0], at, m[i].key);
      HoldsConcat(Swept(c, m[0], at), Sweep(c, m[1..], at, n - 1), m[i].key);
      if i == 0 {
        SweepInventsNone(c, m[1..], at, n - 1, m[0].key);
      } else {
        SweepDropsIff(c, m[1..], at, n - 1, i - 1);
      }
    }
  }

  lemma {:induction false} HoldsConcat(a: Table, b: Table, key: Key)
    requires |a| <= 1
    ensures Holds(a + b, key) <==> (a != [] && a[0].key == key) || Holds(b, key)
  {
    if a == [] {
      assert a + b == b;
    } else {
      assert (a + b)[1..] == b;
    }
  }
}
