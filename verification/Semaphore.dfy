/** The counting semaphore that bounds concurrent fetches, under every scheduling of its callers.

    A caller is identified by a number that it uses for one acquisition. The event loop can run
    other code between the resolution of a waiter's promise and the waiter's own continuation, so
    a woken waiter is a separate state here.
  */
module Semaphore {
  import opened Common

  type Id = nat

  /** The two variables of the closure. */
  datatype Sem = Sem(active: int, queue: seq<Id>)

  /** The synchronous part of `acquire`; true when the slot is granted at once. */
  function Enter(limit: int, s: Sem, id: Id): (Sem, bool) {
    if s.active < limit then (s.(active := s.active + 1), true)
    else (s.(queue := s.queue + [id]), false)
  }

  /** The continuation of an `acquire` whose promise was resolved. */
  function Continue(s: Sem): Sem {
    s.(active := s.active + 1)
  }

  /** The first call of a release closure, with the waiter it wakes. */
  function Leave(s: Sem): (Sem, Option<Id>) {
    if s.queue == [] then (s.(active := s.active - 1), None)
    else (Sem(s.active - 1, s.queue[1..]), Some(s.queue[0]))
  }

  class Permit {
    var released: bool

    constructor ()
      ensures !released
    {
      released := false;
    }
  }

  class CountingSemaphore {
    const limit: int
    var active: int
    var queue: seq<Id>

    constructor (limit: int)
      ensures this.limit == limit && View() == Sem(0, [])
    {
      this.limit, active, queue := limit, 0, [];
    }

    ghost function View(): Sem
      reads this
    {
      Sem(active, queue)
    }

    method Acquire(id: Id) returns (granted: bool)
      modifies this
      ensures (View(), granted) == Enter(limit, old(View()), id)
    {
      granted := active < limit;
      if granted {
        active := active + 1;
      } else {
        queue := queue + [id];
      }
    }

    method Resume()
      modifies this
      ensures View() == Continue(old(View()))
    {
      active := active + 1;
    }

    method Release(permit: Permit) returns (next: Option<Id>)
      modifies this, permit
      ensures permit.released
      ensures old(permit.released) ==> next == None && View() == old(View())
      ensures !old(permit.released) ==> (View(), next) == Leave(old(View()))
    {
      if permit.released {
        return None;
      }
      permit.released := true;
      active := active - 1;
      if queue == [] {
        next := None;
      } else {
        next := Some(queue[0]);
        queue := queue[1..];
      }
    }
  }

  // ----- All interleavings -----

  /** `woken` waiters have a resolved promise but have not run yet; `holding` and `released` callers
      own a release closure that has, respectively, not been called and been called. */
  datatype World = World(sem: Sem, woken: set<Id>, holding: set<Id>, released: set<Id>)

  datatype Action = Acquire(id: Id) | Resume(id: Id) | Release(id: Id)

  const IDLE := World(Sem(0, []), {}, {}, {})

  predicate Fresh(w: World, id: Id) {
    id !in w.sem.queue && id !in w.woken && id !in w.holding && id !in w.released
  }

  predicate Enabled(w: World, a: Action) {
    match a
    case Acquire(id) => Fresh(w, id)
    case Resume(id) => id in w.woken
    case Release(id) => id in w.holding || id in w.released
  }

  function Act(limit: int, w: World, a: Action): World {
    match a
    case Acquire(id) =>
      var (s, granted) := Enter(limit, w.sem, id);
      if granted then w.(sem := s, holding := w.holding + {id}) else w.(sem := s)
    case Resume(id) =>
      World(Continue(w.sem), w.woken - {id}, w.holding + {id}, w.released)
    case Release(id) =>
      if id in w.released then w
      else
        var (s, next) := Leave(w.sem);
        World(s, if next.Some? then w.woken + {next.value} else w.woken, w.holding - {id}, w.released + {id})
  }

  predicate Possible(limit: int, w: World, acts: seq<Action>)
    decreases |acts|
  {
    acts == [] || (Enabled(w, acts[0]) && Possible(limit, Act(limit, w, acts[0]), acts[1..]))
  }

  function Run(limit: int, w: World, acts: seq<Action>): World
    decreases |acts|
  {
    if acts == [] then w else Run(limit, Act(limit, w, acts[0]), acts[1..])
  }

  /** Slots taken plus slots promised to woken waiters. */
  function Committed(w: World): int {
    w.sem.active + |w.woken|
  }

  predicate NoneStranded(limit: int, w: World) {
    w.sem.queue != [] ==> Committed(w) >= limit
  }

  ghost predicate QueueDistinct(s: Sem) {
    forall i, j :: 0 <= i < j < |s.queue| ==> s.queue[i] != s.queue[j]
  }

  ghost predicate Disjoint(w: World) {
    && (forall id :: id in w.sem.queue ==> id !in w.woken && id !in w.holding && id !in w.released)
    && w.woken !! w.holding !! w.released
  }

  ghost predicate Invariant(limit: int, w: World) {
    && w.sem.active == |w.holding|
    && QueueDistinct(w.sem)
    && Disjoint(w)
    && NoneStranded(limit, w)
  }

  lemma AcquireInvariant(limit: int, w: World, id: Id)
    requires Invariant(limit, w) && Fresh(w, id)
    ensures Invariant(limit, Act(limit, w, Acquire(id)))
  {
  }

  lemma ResumeInvariant(limit: int, w: World, id: Id)
    requires Invariant(limit, w) && id in w.woken
    ensures Invariant(limit, Act(limit, w, Resume(id)))
  {
    assert (w.woken - {id}) + {id} == w.woken;
  }

  /** The queue without its head, which is woken. */
  lemma WokenHead(w: World)
    requires QueueDistinct(w.sem) && Disjoint(w) && w.sem.queue != []
    ensures var next, rest := w.sem.queue[0], w.sem.queue[1..];
            && next in w.sem.queue && next !in w.woken && next !in w.holding && next !in w.released && next !in rest
            && QueueDistinct(Sem(0, rest)) && forall x :: x in rest ==> x in w.sem.queue
  {
    assert w.sem.queue[0] in w.sem.queue;
  }

  lemma ReleaseParts(w: World, id: Id)
    requires Disjoint(w) && QueueDistinct(w.sem) && w.sem.active == |w.holding| && id in w.holding
    ensures var w' := Act(0, w, Release(id));
            Disjoint(w') && QueueDistinct(w'.sem) && w'.sem.active == |w'.holding|
  {
    assert w.holding == (w.holding - {id}) + {id};
    if w.sem.queue != [] {
      WokenHead(w);
      SameQueue(Sem(0, w.sem.queue[1..]), Act(0, w, Release(id)).sem);
    }
    hide QueueDistinct;
  }

  lemma ReleaseInvariant(limit: int, w: World, id: Id)
    requires Invariant(limit, w) && id in w.holding
    ensures Invariant(limit, Act(limit, w, Release(id)))
  {
    ReleaseParts(w, id);
    if w.sem.queue != [] {
      WokenHead(w);
    }
    hide QueueDistinct, Disjoint;
    assert Act(limit, w, Release(id)) == Act(0, w, Release(id));
  }

  lemma SameQueue(a: Sem, b: Sem)
    requires QueueDistinct(a) && a.queue == b.queue
    ensures QueueDistinct(b)
  {
  }

  lemma ActInvariant(limit: int, w: World, a: Action)
    requires Invariant(limit, w) && Enabled(w, a)
    ensures Invariant(limit, Act(limit, w, a))
  {
    hide Invariant;
    match a
    case Acquire(id) => AcquireInvariant(limit, w, id);
    case Resume(id) => ResumeInvariant(limit, w, id);
    case Release(id) =>
      if id !in w.released {
        ReleaseInvariant(limit, w, id);
      }
  }

  /** In every interleaving, no waiter is stranded: while someone queues, the slots in use and
      those handed to woken waiters fill the limit; and `active` counts the unreleased holders. */
  lemma {:induction false} RunInvariant(limit: int, w: World, acts: seq<Action>)
    requires Invariant(limit, w) && Possible(limit, w, acts)
    ensures Invariant(limit, Run(limit, w, acts))
    decreases |acts|
  {
    if acts != [] {
      ActInvariant(limit, w, acts[0]);
      RunInvariant(limit, Act(limit, w, acts[0]), acts[1..]);
    }
  }

  /** Once nobody holds a slot and nobody is about to resume, nobody is left waiting. */
  lemma QuietMeansEmpty(limit: int, acts: seq<Action>)
    requires limit >= 1 && Possible(limit, IDLE, acts)
    ensures var w := Run(limit, IDLE, acts);
            w.holding == {} && w.woken == {} ==> w.sem == Sem(0, [])
  {
    RunInvariant(limit, IDLE, acts);
  }

  /** Calling a release closure again changes nothing. */
  lemma ReleaseIdempotent(limit: int, w: World, id: Id)
    requires Enabled(w, Release(id))
    ensures Enabled(Act(limit, w, Release(id)), Release(id))
    ensures Act(limit, Act(limit, w, Release(id)), Release(id)) == Act(limit, w, Release(id))
  {
  }

  // ----- First in, first out -----

  /** The caller that this action puts into the queue, if any. */
  function Queues(limit: int, w: World, a: Action): seq<Id> {
    if a.Acquire? && !Enter(limit, w.sem, a.id).1 then [a.id] else []
  }

  /** The waiter that this action wakes, if any. */
  function Wakes(w: World, a: Action): seq<Id> {
    if a.Release? && a.id !in w.released && w.sem.queue != [] then [w.sem.queue[0]] else []
  }

  function AllQueued(limit: int, w: World, acts: seq<Action>): seq<Id>
    decreases |acts|
  {
    if acts == [] then [] else Queues(limit, w, acts[0]) + AllQueued(limit, Act(limit, w, acts[0]), acts[1..])
  }

  function AllWoken(limit: int, w: World, acts: seq<Action>): seq<Id>
    decreases |acts|
  {
    if acts == [] then [] else Wakes(w, acts[0]) + AllWoken(limit, Act(limit, w, acts[0]), acts[1..])
  }

  lemma ActOrder(limit: int, w: World, a: Action)
    ensures w.sem.queue + Queues(limit, w, a) == Wakes(w, a) + Act(limit, w, a).sem.queue
  {
  }

  /** Those who queued are exactly those woken, in the same order, followed by those still queueing. */
  lemma {:induction false} WakeOrder(limit: int, w: World, acts: seq<Action>)
    ensures w.sem.queue + AllQueued(limit, w, acts) == AllWoken(limit, w, acts) + Run(limit, w, acts).sem.queue
    decreases |acts|
  {
    hide Act, Queues, Wakes;
    if acts != [] {
      var w' := Act(limit, w, acts[0]);
      ActOrder(limit, w, acts[0]);
      WakeOrder(limit, w', acts[1..]);
      calc {
        w.sem.queue + AllQueued(limit, w, acts);
        w.sem.queue + Queues(limit, w, acts[0]) + AllQueued(limit, w', acts[1..]);
        Wakes(w, acts[0]) + (w'.sem.queue + AllQueued(limit, w', acts[1..]));
        AllWoken(limit, w, acts) + Run(limit, w, acts).sem.queue;
      }
    }
  }

  // ----- When the limit itself is respected -----

  /** A caller takes a free slot although every slot is in use or promised to a woken waiter. */
  predicate Barges(limit: int, w: World, a: Action) {
    a.Acquire? && Enter(limit, w.sem, a.id).1 && Committed(w) >= limit
  }

  predicate NobodyBarges(limit: int, w: World, acts: seq<Action>)
    decreases |acts|
  {
    acts == [] || (!Barges(limit, w, acts[0]) && NobodyBarges(limit, Act(limit, w, acts[0]), acts[1..]))
  }

  /** In every state of the run, slots taken and promised stay within the limit. */
  predicate WithinLimit(limit: int, w: World, acts: seq<Action>)
    decreases |acts|
  {
    Committed(w) <= limit && (acts == [] || WithinLimit(limit, Act(limit, w, acts[0]), acts[1..]))
  }

  lemma ActCommitted(limit: int, w: World, a: Action)
    requires Invariant(limit, w) && Enabled(w, a)
    ensures Committed(Act(limit, w, a))
         == Committed(w) + (if a.Acquire? && Enter(limit, w.sem, a.id).1 then 1 else 0)
            - (if a.Release? && a.id !in w.released && w.sem.queue == [] then 1 else 0)
  {
    if a.Resume? {
      assert w.woken == (w.woken - {a.id}) + {a.id};
    }
  }

  /** The limit is kept throughout a run exactly when nobody barges in ahead of a woken waiter. */
  lemma {:induction false} LimitKeptIffNobodyBarges(limit: int, w: World, acts: seq<Action>)
    requires Invariant(limit, w) && Possible(limit, w, acts) && Committed(w) <= limit
    ensures WithinLimit(limit, w, acts) <==> NobodyBarges(limit, w, acts)
    decreases |acts|
  {
    if acts != [] {
      var w' := Act(limit, w, acts[0]);
      ActInvariant(limit, w, acts[0]);
      ActCommitted(limit, w, acts[0]);
      if Committed(w') <= limit {
        LimitKeptIffNobodyBarges(limit, w', acts[1..]);
      }
    }
  }

  /** No new caller arrives while a woken waiter has yet to resume. */
  predicate HandOff(limit: int, w: World, acts: seq<Action>)
    decreases |acts|
  {
    acts == [] || ((acts[0].Acquire? ==> w.woken == {}) && HandOff(limit, Act(limit, w, acts[0]), acts[1..]))
  }

  /** Under hand-off scheduling the semaphore is a semaphore: at most `limit` holders at any time. */
  lemma {:induction false} HandOffKeepsLimit(limit: int, w: World, acts: seq<Action>)
    requires Invariant(limit, w) && Possible(limit, w, acts) && Committed(w) <= limit && HandOff(limit, w, acts)
    ensures WithinLimit(limit, w, acts)
    ensures |Run(limit, w, acts).holding| <= limit
    decreases |acts|
  {
    if acts != [] {
      ActInvariant(limit, w, acts[0]);
      ActCommitted(limit, w, acts[0]);
      HandOffKeepsLimit(limit, Act(limit, w, acts[0]), acts[1..]);
    }
  }

  // ----- Without hand-off there is no bound at all -----

  function Acquires(first: Id, n: nat): seq<Action>
    decreases n
  {
    if n == 0 then [] else [Acquire(first)] + Acquires(first + 1, n - 1)
  }

  lemma {:induction false} RunConcat(limit: int, w: World, a: seq<Action>, b: seq<Action>)
    requires Possible(limit, w, a)
    ensures Run(limit, w, a + b) == Run(limit, Run(limit, w, a), b)
    ensures Possible(limit, w, a + b) <==> Possible(limit, Run(limit, w, a), b)
    decreases |a|
  {
    if a == [] {
      assert a + b == b;
    } else {
      assert (a + b)[1..] == a[1..] + b;
      RunConcat(limit, Act(limit, w, a[0]), a[1..], b);
    }
  }

  ghost predicate AllBelow(w: World, bound: Id) {
    forall id: Id :: !Fresh(w, id) ==> id < bound
  }

  lemma AcquireBelow(limit: int, w: World, id: Id, bound: Id)
    requires AllBelow(w, bound) && id < bound
    ensures AllBelow(Act(limit, w, Acquire(id)), bound)
  {
    forall x: Id | !Fresh(Act(limit, w, Acquire(id)), x) ensures x < bound {
      if x != id {
        assert !Fresh(w, x);
      }
    }
  }

  lemma ReleaseBelow(limit: int, w: World, id: Id, bound: Id)
    requires AllBelow(w, bound) && id in w.holding
    ensures AllBelow(Act(limit, w, Release(id)), bound)
  {
    forall x: Id | !Fresh(Act(limit, w, Release(id)), x) ensures x < bound {
      assert !Fresh(w, x);
    }
  }

  /** What a crowd of `n` newcomers does to the semaphore: first the free slots go, then the rest queue. */
  ghost predicate Crowded(limit: int, w: World, n: nat, w': World) {
    && w'.woken == w.woken
    && w'.sem.active + |w'.sem.queue| == w.sem.active + |w.sem.queue| + n
    && (w'.sem.active == w.sem.active || w'.sem.active <= limit)
    && (w'.sem.active < limit ==> w'.sem.queue == w.sem.queue)
  }

  lemma NewcomerEnters(limit: int, w: World, id: Id)
    requires Invariant(limit, w) && AllBelow(w, id)
    ensures Enabled(w, Acquire(id))
    ensures var w' := Act(limit, w, Acquire(id));
            Invariant(limit, w') && AllBelow(w', id + 1) && Crowded(limit, w, 1, w')
  {
    assert Fresh(w, id);
    AcquireInvariant(limit, w, id);
    AcquireBelow(limit, w, id, id + 1);
  }

  lemma {:induction false} Crowd(limit: int, w: World, first: Id, n: nat)
    requires Invariant(limit, w) && AllBelow(w, first)
    ensures Possible(limit, w, Acquires(first, n))
    ensures var w' := Run(limit, w, Acquires(first, n));
            Invariant(limit, w') && AllBelow(w', first + n) && Crowded(limit, w, n, w')
    decreases n
  {
    hide Invariant, AllBelow, Act, Enabled;
    if n > 0 {
      NewcomerEnters(limit, w, first);
      Crowd(limit, Act(limit, w, Acquire(first)), first + 1, n - 1);
    }
  }

  /** A release wakes a waiter, and a newcomer takes the slot before the waiter runs. */
  lemma BargeOnce(limit: int, w: World, holder: Id, next: Id)
    requires Invariant(limit, w) && AllBelow(w, next) && holder in w.holding
    requires w.sem.active == limit && w.sem.queue != []
    ensures Possible(limit, w, [Release(holder), Acquire(next)])
    ensures var w' := Run(limit, w, [Release(holder), Acquire(next)]);
            && Invariant(limit, w') && AllBelow(w', next + 1)
            && w'.sem.active == limit && |w'.sem.queue| == |w.sem.queue| - 1 && |w'.woken| == |w.woken| + 1
  {
    var w1 := Act(limit, w, Release(holder));
    ReleaseInvariant(limit, w, holder);
    ReleaseBelow(limit, w, holder, next);
    assert w.sem.queue[0] in w.sem.queue;
    NewcomerEnters(limit, w1, next);
    assert [Release(holder), Acquire(next)][1..] == [Acquire(next)];
    assert Run(limit, w1, [Acquire(next)]) == Act(limit, w1, Acquire(next));
  }

  /** Release, then let a newcomer in before the woken waiter runs; `n` times over. */
  lemma {:induction false} Barging(limit: int, w: World, next: Id, n: nat) returns (acts: seq<Action>)
    requires limit >= 1 && Invariant(limit, w) && AllBelow(w, next)
    requires w.sem.active == limit && |w.sem.queue| >= n
    ensures Possible(limit, w, acts) && Invariant(limit, Run(limit, w, acts))
    ensures Run(limit, w, acts).sem.active == limit && |Run(limit, w, acts).woken| == |w.woken| + n
    decreases n
  {
    if n == 0 {
      acts := [];
    } else {
      var holder :| holder in w.holding;
      hide Invariant, AllBelow, Act, Run, Possible;
      var once := [Release(holder), Acquire(next)];
      BargeOnce(limit, w, holder, next);
      var rest := Barging(limit, Run(limit, w, once), next + 1, n - 1);
      acts := once + rest;
      RunConcat(limit, w, once, rest);
    }
  }

  lemma {:induction false} ResumeAll(limit: int, w: World) returns (acts: seq<Action>)
    requires Invariant(limit, w)
    ensures Possible(limit, w, acts) && Run(limit, w, acts).sem.active == w.sem.active + |w.woken|
    decreases |w.woken|
  {
    if w.woken == {} {
      acts := [];
    } else {
      var id :| id in w.woken;
      ActInvariant(limit, w, Resume(id));
      assert w.woken == (w.woken - {id}) + {id};
      var rest := ResumeAll(limit, Act(limit, w, Resume(id)));
      acts := [Resume(id)] + rest;
    }
  }

  /** Promised slots are eventually claimed: past the limit, the waiters' own continuations alone
      push the number of holders past it. */
  lemma OvercommitIsVisible(limit: int, w: World) returns (acts: seq<Action>)
    requires Invariant(limit, w) && Committed(w) > limit
    ensures Possible(limit, w, acts) && |Run(limit, w, acts).holding| > limit
  {
    acts := ResumeAll(limit, w);
    RunInvariant(limit, w, acts);
  }

  /** Without the hand-off assumption the limit does not bound the holders: for every excess there
      is an interleaving, from the fresh semaphore, in which that many more callers hold a slot. */
  lemma NoBoundWithoutHandOff(limit: int, excess: nat) returns (acts: seq<Action>)
    requires limit >= 1
    ensures Possible(limit, IDLE, acts) && |Run(limit, IDLE, acts).holding| == limit + excess
  {
    var crowd := Acquires(0, limit + excess);
    Crowd(limit, IDLE, 0, limit + excess);
    var w1 := Run(limit, IDLE, crowd);
    var barging := Barging(limit, w1, limit + excess, excess);
    var w2 := Run(limit, w1, barging);
    var resumes := ResumeAll(limit, w2);
    acts := crowd + (barging + resumes);
    RunConcat(limit, w1, barging, resumes);
    RunConcat(limit, IDLE, crowd, barging + resumes);
    RunInvariant(limit, IDLE, acts);
  }
}
