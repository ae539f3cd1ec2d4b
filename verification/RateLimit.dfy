/** The in-process token-bucket limiter.

    Token counts are scaled by 60000, so that the refill of `perMinute / 60000` tokens per
    millisecond becomes the exact integer `elapsed * perMinute` and one request costs 60000.
  */
module RateLimit {
  import opened Common

  const MAX_BUCKETS: nat := 10_000
  const IDLE_BUCKET_TTL_MS: nat := 5 * 60_000
  const GC_SWEEP_LIMIT: nat := 64
  const TOKEN: nat := 60_000

  type Key = string

  datatype Config = Config(perMinute: int, burst: int) {
    predicate Disabled() {
      perMinute <= 0
    }

    function Capacity(): int {
      if perMinute + burst > 0 then TOKEN * (perMinute + burst) else 0
    }

    /** Scaled tokens gained in `ms` milliseconds. */
    function Accrued(ms: int): int {
      ms * perMinute
    }
  }

  datatype Bucket = Bucket(tokens: int, refilledAt: int, lastUsedAt: int)

  datatype Entry = Entry(key: Key, bucket: Bucket)

  /** The contents of the JavaScript Map, in iteration order. */
  type Table = seq<Entry>

  datatype Remaining = Infinite | Whole(tokens: int)

  datatype Decision = Decision(allowed: bool, retryAfterSeconds: int, remaining: Remaining)

  /** One call of `check`: the key and the clock reading. */
  datatype Request = Request(key: Key, at: int)

  /** Least integer not below `a / b`. */
  function CeilDiv(a: int, b: int): (q: int)
    requires b > 0
    ensures b * (q - 1) < a <= b * q
  {
    var q := a / b;
    assert a == b * q + a % b;
    assert b * (q + 1) == b * q + b;
    if a % b == 0 then
      assert b * (q - 1) == b * q - b;
      q
    else q + 1
  }

  // ----- The algorithm on values -----

  function Refill(c: Config, b: Bucket, at: int): Bucket {
    if at - b.refilledAt <= 0 then b
    else b.(tokens := Min(c.Capacity(), b.tokens + c.Accrued(at - b.refilledAt)), refilledAt := at)
  }

  predicate Idle(c: Config, b: Bucket, at: int) {
    b.tokens >= c.Capacity() && at - b.lastUsedAt >= IDLE_BUCKET_TTL_MS
  }

  /** What the sweep leaves of one entry: nothing if it is full and idle. */
  function Swept(c: Config, e: Entry, at: int): (r: Table)
    ensures |r| <= 1
  {
    var b := Refill(c, e.bucket, at);
    if Idle(c, b, at) then [] else [Entry(e.key, b)]
  }

  /** The sweep of at most `n` of the oldest entries. */
  function Sweep(c: Config, m: Table, at: int, n: nat): Table {
    if n == 0 || m == [] then m
    else
      Swept(c, m[0], at) + Sweep(c, m[1..], at, n - 1)
  }

  /** The sweep resumed at position `i`. */
  ghost function SweepFrom(c: Config, m: Table, i: nat, at: int, n: nat): Table
    requires i <= |m|
  {
    m[..i] + Sweep(c, m[i..], at, n)
  }

  lemma SweepFromEnds(c: Config, m: Table, at: int, n: nat)
    ensures SweepFrom(c, m, 0, at, n) == Sweep(c, m, at, n)
    ensures SweepFrom(c, m, |m|, at, n) == m
    ensures n == 0 ==> forall i :: 0 <= i <= |m| ==> SweepFrom(c, m, i, at, n) == m
  {
    hide Swept;
    assert m[..0] + m[0..] == m && m[0..] == m;
    assert m[..|m|] + [] == m && m[|m|..] == [];
    forall i | 0 <= i <= |m| && n == 0 ensures SweepFrom(c, m, i, at, n) == m {
      assert m[..i] + m[i..] == m;
    }
  }

  lemma SweepFromStep(c: Config, m: Table, i: nat, at: int, n: nat)
    requires i < |m| && n > 0
    ensures var e := Swept(c, m[i], at);
            SweepFrom(c, m, i, at, n) == SweepFrom(c, m[..i] + e + m[i + 1..], i + |e|, at, n - 1)
  {
    var e := Swept(c, m[i], at);
    var m' := m[..i] + e + m[i + 1..];
    assert m'[..i + |e|] == m[..i] + e;
    assert m'[i + |e|..] == m[i + 1..] == m[i..][1..];
  }

  /** Position of `key` in the table, or the table's length. */
  function IndexOf(m: Table, key: Key): (i: nat)
    ensures i <= |m|
    ensures i < |m| ==> m[i].key == key
    ensures forall j :: 0 <= j < i ==> m[j].key != key
  {
    if m == [] then 0
    else if m[0].key == key then 0
    else 1 + IndexOf(m[1..], key)
  }

  predicate Holds(m: Table, key: Key) {
    IndexOf(m, key) < |m|
  }

  function Full(c: Config, at: int): Bucket {
    Bucket(c.Capacity(), at, at)
  }

  /** What `check` answers once the bucket holds `tokens`. */
  function Decide(c: Config, tokens: int): Decision
    requires !c.Disabled()
  {
    if tokens >= TOKEN then Decision(true, 0, Whole((tokens - TOKEN) / TOKEN))
    else
      var seconds := CeilDiv(TOKEN - tokens, 1000 * c.perMinute);
      Decision(false, if seconds < 1 then 1 else seconds, Whole(0))
  }

  function Charge(tokens: int): int {
    if tokens >= TOKEN then tokens - TOKEN else tokens
  }

  /** Does this call push a bucket out because the map is at its hard cap? */
  predicate CapEvicts(c: Config, m: Table, r: Request) {
    var swept := Sweep(c, m, r.at, GC_SWEEP_LIMIT);
    !c.Disabled() && !Holds(swept, r.key) && |swept| >= MAX_BUCKETS
  }

  /** The keys the hard cap removes in this call: none, or the least recently used one. */
  function Evicted(c: Config, m: Table, r: Request): set<Key> {
    if CapEvicts(c, m, r) then {Sweep(c, m, r.at, GC_SWEEP_LIMIT)[0].key} else {}
  }

  function Without(m: Table, i: nat): Table
    requires i < |m|
  {
    m[..i] + m[i + 1..]
  }

  /** The swept table with `key` taken out, or, for a new key, with room made for it. */
  function SetAside(swept: Table, key: Key): Table {
    var i := IndexOf(swept, key);
    if i < |swept| then Without(swept, i)
    else if |swept| >= MAX_BUCKETS then Without(swept, 0)
    else swept
  }

  /** The key's bucket, refilled at `at`, or a full one. */
  function Current(c: Config, swept: Table, r: Request): Bucket {
    var i := IndexOf(swept, r.key);
    if i < |swept| then Refill(c, swept[i].bucket, r.at).(lastUsedAt := r.at) else Full(c, r.at)
  }

  /** The rest of the table and the bucket that the call works on. */
  function Touch(c: Config, m: Table, r: Request): (Table, Bucket) {
    var swept := Sweep(c, m, r.at, GC_SWEEP_LIMIT);
    (SetAside(swept, r.key), Current(c, swept, r))
  }

  function Step(c: Config, m: Table, r: Request): (Table, Decision) {
    if c.Disabled() then (m, Decision(true, 0, Infinite))
    else
      var (rest, b) := Touch(c, m, r);
      (rest + [Entry(r.key, b.(tokens := Charge(b.tokens)))], Decide(c, b.tokens))
  }

  // ----- The mutable limiter -----

  class Cell {
    var tokens: int
    var refilledAt: int
    var lastUsedAt: int

    constructor (tokens: int, refilledAt: int, lastUsedAt: int)
      ensures View() == Bucket(tokens, refilledAt, lastUsedAt)
    {
      this.tokens, this.refilledAt, this.lastUsedAt := tokens, refilledAt, lastUsedAt;
    }

    ghost function View(): Bucket
      reads this
    {
      Bucket(tokens, refilledAt, lastUsedAt)
    }
  }

  datatype Slot = Slot(key: Key, cell: Cell)

  class Limiter {
    const c: Config
    var slots: seq<Slot>

    constructor (c: Config)
      ensures this.c == c && Valid() && View() == []
    {
      this.c := c;
      slots := [];
    }

    ghost function Cells(): set<Cell>
      reads this
    {
      set i | 0 <= i < |slots| :: slots[i].cell
    }

    /** No two map entries share a bucket object. */
    ghost predicate Valid()
      reads this
    {
      forall i, j :: 0 <= i < j < |slots| ==> slots[i].cell != slots[j].cell
    }

    ghost function View(): (m: Table)
      reads this, Cells()
      ensures |m| == |slots|
      ensures forall i :: 0 <= i < |m| ==> m[i] == Entry(slots[i].key, slots[i].cell.View())
    {
      seq(|slots|, i requires 0 <= i < |slots| reads this, Cells() => Entry(slots[i].key, slots[i].cell.View()))
    }

    method RefillCell(cell: Cell, at: int)
      modifies cell
      ensures cell.View() == Refill(c, old(cell.View()), at)
    {
      var elapsed := at - cell.refilledAt;
      if elapsed <= 0 {
        return;
      }
      cell.tokens := Min(c.Capacity(), cell.tokens + c.Accrued(elapsed));
      cell.refilledAt := at;
    }

    /** Map.delete of the key at position `i`. */
    method DeleteAt(i: nat)
      requires Valid() && i < |slots|
      modifies this`slots
      ensures Valid() && Cells() <= old(Cells())
      ensures slots == old(slots)[..i] + old(slots)[i + 1..]
      ensures View() == Without(old(View()), i)
    {
      slots := slots[..i] + slots[i + 1..];
    }

    /** Map.set of a key that is not in the map. */
    method Append(key: Key, cell: Cell)
      requires Valid() && forall i :: 0 <= i < |slots| ==> slots[i].cell != cell
      modifies this`slots
      ensures Valid() && Cells() <= old(Cells()) + {cell}
      ensures slots == old(slots) + [Slot(key, cell)]
      ensures View() == old(View()) + [Entry(key, cell.View())]
    {
      slots := slots + [Slot(key, cell)];
    }

    /** One turn of the sweep's loop: refill the bucket, and delete it if it is full and idle. */
    method Inspect(i: nat, at: int) returns (removed: bool)
      requires Valid() && i < |slots|
      modifies this`slots, slots[i].cell
      ensures Valid() && Cells() <= old(Cells())
      ensures ghost var e := Swept(c, old(View())[i], at);
              removed == (e == []) && View() == old(View())[..i] + e + old(View())[i + 1..]
    {
      var cell := slots[i].cell;
      RefillCell(cell, at);
      removed := cell.tokens >= c.Capacity() && at - cell.lastUsedAt >= IDLE_BUCKET_TTL_MS;
      if removed {
        DeleteAt(i);
      }
    }

    method CollectIdle(at: int)
      requires Valid()
      modifies this`slots, Cells()
      ensures Valid() && Cells() <= old(Cells())
      ensures View() == Sweep(c, old(View()), at, GC_SWEEP_LIMIT)
    {
      var i, inspected := 0, 0;
      ghost var goal := Sweep(c, View(), at, GC_SWEEP_LIMIT);
      SweepFromEnds(c, View(), at, GC_SWEEP_LIMIT);
      hide Swept, Sweep, SweepFrom, Refill;
      while i < |slots| && inspected < GC_SWEEP_LIMIT
        invariant i <= |slots|
        invariant inspected <= GC_SWEEP_LIMIT
        invariant Valid() && Cells() <= old(Cells())
        invariant SweepFrom(c, View(), i, at, GC_SWEEP_LIMIT - inspected) == goal
        decreases GC_SWEEP_LIMIT - inspected
      {
        SweepFromStep(c, View(), i, at, GC_SWEEP_LIMIT - inspected);
        inspected := inspected + 1;
        var removed := Inspect(i, at);
        if !removed {
          i := i + 1;
        }
      }
      SweepFromEnds(c, View(), at, GC_SWEEP_LIMIT - inspected);
    }

    method Find(key: Key) returns (i: nat)
      ensures i == IndexOf(View(), key)
    {
      i := 0;
      while i < |slots| && slots[i].key != key
        invariant i <= |slots|
        invariant forall j :: 0 <= j < i ==> View()[j].key != key
      {
        i := i + 1;
      }
    }

    method Insert(key: Key, at: int)
      requires Valid()
      modifies this`slots
      ensures Valid() && fresh(Cells() - old(Cells())) && |slots| > 0
      ensures View() == (if |old(slots)| >= MAX_BUCKETS then Without(old(View()), 0) else old(View()))
                     + [Entry(key, Full(c, at))]
    {
      if |slots| >= MAX_BUCKETS {
        DeleteAt(0);
      }
      var cell := new Cell(c.Capacity(), at, at);
      Append(key, cell);
    }

    method MoveToEnd(i: nat, at: int)
      requires Valid() && i < |slots|
      modifies this`slots, slots[i].cell
      ensures Valid() && Cells() <= old(Cells()) && |slots| > 0
      ensures ghost var v := old(View());
              View() == Without(v, i) + [Entry(v[i].key, Refill(c, v[i].bucket, at))]
    {
      var Slot(key, cell) := slots[i];
      DeleteAt(i);
      Append(key, cell);
      RefillCell(cell, at);
    }

    method TakeToken(at: int) returns (d: Decision)
      requires Valid() && !c.Disabled() && |slots| > 0
      modifies slots[|slots| - 1].cell
      ensures ghost var last := old(View())[|slots| - 1];
              && d == Decide(c, last.bucket.tokens)
              && View() == old(View())[..|slots| - 1]
                         + [Entry(last.key, Bucket(Charge(last.bucket.tokens), last.bucket.refilledAt, at))]
    {
      var cell := slots[|slots| - 1].cell;
      cell.lastUsedAt := at;
      if cell.tokens >= TOKEN {
        cell.tokens := cell.tokens - TOKEN;
        d := Decision(true, 0, Whole(cell.tokens / TOKEN));
      } else {
        var seconds := CeilDiv(TOKEN - cell.tokens, 1000 * c.perMinute);
        d := Decision(false, if seconds < 1 then 1 else seconds, Whole(0));
      }
    }

    /** Sweep, then leave the key's bucket at the end of the map, refilled. */
    method Admit(key: Key, at: int)
      requires Valid()
      modifies this`slots, Cells()
      ensures Valid() && fresh(Cells() - old(Cells())) && |slots| > 0
      ensures ghost var (rest, b) := Touch(c, old(View()), Request(key, at));
              && View()[..|slots| - 1] == rest
              && var last := View()[|slots| - 1];
                 last.key == key && last.bucket.(lastUsedAt := at) == b
    {
      hide Sweep, Refill, Without;
      CollectIdle(at);
      ghost var swept := View();
      var i := Find(key);
      if i == |slots| {
        Insert(key, at);
        assert View() == SetAside(swept, key) + [Entry(key, Full(c, at))];
      } else {
        MoveToEnd(i, at);
        assert View() == SetAside(swept, key) + [Entry(key, Refill(c, swept[i].bucket, at))];
      }
    }

    method Check(key: Key, at: int) returns (d: Decision)
      requires Valid()
      modifies this`slots, Cells()
      ensures Valid() && fresh(Cells() - old(Cells()))
      ensures (View(), d) == Step(c, old(View()), Request(key, at))
    {
      if c.Disabled() {
        return Decision(true, 0, Infinite);
      }
      Admit(key, at);
      assert slots[|slots| - 1].cell in Cells();
      d := TakeToken(at);
    }
  }
}
