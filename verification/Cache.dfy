/** The bounded, expiring evidence cache: a table of rows with eviction by age. */
module Cache {
  import opened Common
  import opened Text
  import opened Ordering
  import opened Stamps

  type Key = string

  /** A row. The table stores the texts of its times and compares them as texts. */
  datatype Row = Row(url: string, payload: string, retrievedAt: Time, storedAt: Time, expiresAt: Time, bytes: int)

  type Table = map<Key, Row>

  /** A time stamp as a caller supplies it. */
  datatype Stamp = Absent | Malformed | At(ms: Time)

  datatype Record = Record(key: string, url: string, payload: string,
                           retrievedAt: Stamp, storedAt: Stamp, expiresAt: Stamp, bytes: int)

  datatype Error = Closed | BadField(field: string) | BadTime

  datatype Result<T> = Ok(value: T) | Err(error: Error)

  predicate Blank(s: string) {
    Trim(s) == ""
  }

  // ----- Which rows are retained -----

  /** What rows are ordered by: newest first, and among equally old ones the greater key first. */
  type Item = (Time, Key)

  predicate Above(a: Item, b: Item) {
    Earlier(b.0, a.0) || (a.0 == b.0 && LexLess(b.1, a.1))
  }

  lemma AboveTotal(a: Item, b: Item)
    ensures a == b || Above(a, b) || Above(b, a)
    ensures !(Above(a, b) && Above(b, a))
    ensures !Above(a, a)
  {
    hide Earlier;
    EarlierIsStrict(a.0, b.0);
    LexTotal(a.1, b.1);
    if a.0 == b.0 && LexLeq(a.1, b.1) && LexLeq(b.1, a.1) {
      LexAntisymmetric(a.1, b.1);
    }
  }

  lemma AboveTransitive(a: Item, b: Item, c: Item)
    requires Above(a, b) && Above(b, c)
    ensures Above(a, c)
  {
    hide Earlier;
    EarlierIsStrict(a.0, b.0);
    EarlierIsStrict(b.0, c.0);
    if a.0 == b.0 && b.0 == c.0 {
      LexTransitive(c.1, b.1, a.1);
      if a.1 == c.1 {
        LexAntisymmetric(a.1, b.1);
      }
    } else if a.0 != b.0 && b.0 != c.0 {
      EarlierTransitive(c.0, b.0, a.0);
    }
  }

  function AheadOf(s: set<Item>, x: Item): set<Item> {
    set y | y in s && Above(y, x)
  }

  /** The first `n` items of `s` in the retention order. */
  function Newest(s: set<Item>, n: nat): set<Item> {
    set x | x in s && |AheadOf(s, x)| < n
  }

  lemma SubsetSize<T>(a: set<T>, b: set<T>)
    requires a <= b
    ensures |a| <= |b|
  {
    assert b == a + (b - a);
  }

  lemma {:induction false} LeastItem(s: set<Item>) returns (least: Item)
    requires s != {}
    ensures least in s && forall x :: x in s && x != least ==> Above(x, least)
  {
    hide Earlier;
    var x :| x in s;
    if s == {x} {
      least := x;
    } else {
      var l := LeastItem(s - {x});
      AboveTotal(x, l);
      if Above(x, l) {
        least := l;
      } else {
        least := x;
        forall y | y in s && y != x ensures Above(y, x) {
          if y != l {
            AboveTransitive(y, l, x);
          }
        }
      }
    }
  }

  lemma WithoutLeast(s: set<Item>, least: Item, n: nat)
    requires least in s && forall x :: x in s && x != least ==> Above(x, least)
    ensures Newest(s, n) == Newest(s - {least}, n) + if |s| <= n then {least} else {}
  {
    hide Earlier;
    forall x | x in s && x != least ensures AheadOf(s, x) == AheadOf(s - {least}, x) {
      AboveTotal(x, least);
    }
    AboveTotal(least, least);
    assert AheadOf(s, least) == s - {least};
  }

  /** Exactly `n` items are retained, or all of them when there are fewer. */
  lemma {:induction false} NewestSize(s: set<Item>, n: nat)
    ensures |Newest(s, n)| == if |s| <= n then |s| else n
    ensures |s| <= n ==> Newest(s, n) == s
    decreases |s|
  {
    if s == {} {
    } else {
      var least := LeastItem(s);
      WithoutLeast(s, least, n);
      NewestSize(s - {least}, n);
      assert least !in Newest(s - {least}, n);
      assert s == (s - {least}) + {least};
    }
  }

  /** What is ahead of a retained item is retained. */
  lemma NewestClosed(s: set<Item>, n: nat, x: Item, y: Item)
    requires x in Newest(s, n) && y in s && Above(y, x)
    ensures y in Newest(s, n)
  {
    forall z | z in AheadOf(s, y) ensures z in AheadOf(s, x) {
      AboveTransitive(z, y, x);
    }
    SubsetSize(AheadOf(s, y), AheadOf(s, x));
  }

  /** Every retained item is ahead of every discarded one. */
  lemma RetainedAhead(s: set<Item>, n: nat, x: Item, y: Item)
    requires x in Newest(s, n) && y in s && y !in Newest(s, n)
    ensures Above(x, y)
  {
    AboveTotal(x, y);
    if Above(y, x) {
      NewestClosed(s, n, x, y);
    }
  }

  lemma RankOfRetained(s: set<Item>, n: nat, x: Item, y: Item)
    requires x !in s && y in Newest(s, n)
    ensures AheadOf(Newest(s, n) + {x}, y) == AheadOf(s + {x}, y)
  {
    forall z | z in AheadOf(s + {x}, y) ensures z in Newest(s, n) + {x} {
      if z != x {
        NewestClosed(s, n, y, z);
      }
    }
  }

  lemma RankOfNewcomer(s: set<Item>, n: nat, x: Item)
    requires x !in s
    ensures |AheadOf(Newest(s, n) + {x}, x)| < n <==> |AheadOf(s + {x}, x)| < n
  {
    hide Earlier;
    var kept := Newest(s, n);
    AboveTotal(x, x);
    SubsetSize(AheadOf(kept + {x}, x), AheadOf(s + {x}, x));
    if z :| z in AheadOf(s + {x}, x) && z !in kept {
      NewestSize(s, n);
      forall y | y in kept ensures y in AheadOf(kept + {x}, x) {
        RetainedAhead(s, n, y, z);
        AboveTransitive(y, z, x);
      }
      assert AheadOf(kept + {x}, x) == kept;
    } else {
      assert AheadOf(kept + {x}, x) == AheadOf(s + {x}, x);
    }
  }

  /** Discarding early loses nothing: what was discarded would not have been retained later either. */
  lemma DiscardEarly(s: set<Item>, x: Item, n: nat)
    requires x !in s
    ensures Newest(Newest(s, n) + {x}, n) == Newest(s + {x}, n)
  {
    hide Earlier;
    var kept := Newest(s, n);
    RankOfNewcomer(s, n, x);
    forall y | y in s ensures y in Newest(kept + {x}, n) <==> y in Newest(s + {x}, n) {
      if y in kept {
        RankOfRetained(s, n, x, y);
      } else {
        SubsetSize(AheadOf(s, y), AheadOf(s + {x}, y));
      }
    }
  }

  // ----- The table -----

  function ItemOf(t: Table, key: Key): Item
    requires key in t
  {
    (t[key].storedAt, key)
  }

  function Items(t: Table): set<Item> {
    set key | key in t :: ItemOf(t, key)
  }

  /** Keeps the `n` newest rows. */
  function Evict(t: Table, n: nat): Table {
    map key | key in t && ItemOf(t, key) in Newest(Items(t), n) :: t[key]
  }

  function Live(t: Table, now: Time): Table {
    map key | key in t && Earlier(now, t[key].expiresAt) :: t[key]
  }

  lemma EvictItems(t: Table, n: nat)
    ensures Items(Evict(t, n)) == Newest(Items(t), n)
  {
    forall x | x in Newest(Items(t), n) ensures x in Items(Evict(t, n)) {
      assert x.1 in Evict(t, n) && ItemOf(Evict(t, n), x.1) == x;
    }
  }

  lemma {:induction false} ItemsSize(t: Table)
    ensures |Items(t)| == |t|
    decreases |t|
  {
    if t != map[] {
      var key :| key in t;
      var rest := t - {key};
      ItemsSize(rest);
      ItemsOfUpdate(rest, key, t[key]);
      assert t == rest[key := t[key]];
    }
  }

  /** The table never keeps more than `n` rows, and loses none while they fit. */
  lemma EvictSize(t: Table, n: nat)
    ensures |Evict(t, n)| == if |t| <= n then |t| else n
    ensures |t| <= n ==> Evict(t, n) == t
  {
    EvictItems(t, n);
    ItemsSize(t);
    ItemsSize(Evict(t, n));
    NewestSize(Items(t), n);
    if |t| <= n {
      forall key | key in t ensures key in Evict(t, n) {
        assert ItemOf(t, key) in Items(t);
      }
    }
  }

  // ----- The provider -----

  /** The given time, or else one life time after the storing; no date goes beyond `MAX_TIME`. */
  function Expiry(record: Record, storedAt: Time, ttlMs: nat): Option<Time> {
    if record.expiresAt.At? then Some(record.expiresAt.ms)
    else if storedAt + ttlMs <= MAX_TIME then Some(storedAt + ttlMs)
    else None
  }

  /** The row that a record is normalised to, or what is refused first. */
  function Normalised(record: Record, now: Time, ttlMs: nat): Result<Row> {
    if Blank(record.key) then Err(BadField("key"))
    else if Blank(record.url) then Err(BadField("url"))
    else if !record.retrievedAt.At? then Err(BadField("retrievedAt"))
    else if record.storedAt.Malformed? then Err(BadField("storedAt"))
    else if record.expiresAt.Malformed? then Err(BadField("expiresAt"))
    else
      var storedAt := if record.storedAt.At? then record.storedAt.ms else now;
      match Expiry(record, storedAt, ttlMs)
      case None => Err(BadTime)
      case Some(expiresAt) =>
        if record.bytes < 0 then Err(BadField("bytes"))
        else Ok(Row(record.url, record.payload, record.retrievedAt.ms, storedAt, expiresAt, record.bytes))
  }

  function Lookup(t: Table, key: Key, now: Time): Option<Row> {
    if key in t && Earlier(now, t[key].expiresAt) then Some(t[key]) else None
  }

  function Store(t: Table, key: Key, row: Row, n: nat): Table {
    Evict(t[key := row], n)
  }

  function Clean(t: Table, now: Time, n: nat): Table {
    Evict(Live(t, now), n)
  }

  class SqliteCache {
    const ttlMs: nat
    const maxEntries: nat
    var entries: Table
    var closed: bool

    constructor (ttlMs: nat, maxEntries: nat)
      ensures this.ttlMs == ttlMs && this.maxEntries == maxEntries && entries == map[] && !closed
    {
      this.ttlMs, this.maxEntries, entries, closed := ttlMs, maxEntries, map[], false;
    }

    method Get(key: string, now: Time) returns (r: Result<Option<Row>>)
      ensures closed ==> r == Err(Closed)
      ensures !closed ==> r == if Blank(key) then Err(BadField("key")) else Ok(Lookup(entries, key, now))
    {
      if closed {
        return Err(Closed);
      }
      if Blank(key) {
        return Err(BadField("key"));
      }
      return Ok(Lookup(entries, key, now));
    }

    method EnforceMaxEntries() returns (removed: int)
      modifies this`entries
      ensures entries == Evict(old(entries), maxEntries) && removed == |old(entries)| - |entries|
    {
      var kept := Evict(entries, maxEntries);
      removed := |entries| - |kept|;
      entries := kept;
    }

    method Set(record: Record, now: Time) returns (r: Result<()>)
      modifies this`entries
      ensures closed ==> r == Err(Closed) && entries == old(entries)
      ensures !closed ==> match Normalised(record, now, ttlMs)
                          case Err(e) => r == Err(e) && entries == old(entries)
                          case Ok(row) => r == Ok(()) && entries == Store(old(entries), record.key, row, maxEntries)
      ensures r.Ok? <==> !closed && Storable(record, now, ttlMs)
    {
      StoredIffStorable(record, now, ttlMs);
      if closed {
        return Err(Closed);
      }
      var normalised := Normalised(record, now, ttlMs);
      if normalised.Err? {
        return Err(normalised.error);
      }
      entries := entries[record.key := normalised.value];
      var _ := EnforceMaxEntries();
      return Ok(());
    }

    method Delete(key: string) returns (r: Result<()>)
      modifies this`entries
      ensures closed ==> r == Err(Closed) && entries == old(entries)
      ensures !closed && Blank(key) ==> r == Err(BadField("key")) && entries == old(entries)
      ensures !closed && !Blank(key) ==> r == Ok(()) && entries == old(entries) - {key}
    {
      if closed {
        return Err(Closed);
      }
      if Blank(key) {
        return Err(BadField("key"));
      }
      entries := entries - {key};
      return Ok(());
    }

    method Cleanup(now: Time) returns (r: Result<int>)
      modifies this`entries
      ensures closed ==> r == Err(Closed) && entries == old(entries)
      ensures !closed ==> entries == Clean(old(entries), now, maxEntries) && r == Ok(|old(entries)| - |entries|)
    {
      hide Earlier;
      if closed {
        return Err(Closed);
      }
      var live := Live(entries, now);
      var expired := |entries| - |live|;
      entries := live;
      var removed := EnforceMaxEntries();
      return Ok(expired + removed);
    }

    /** Closing twice is closing once; the rows stay in the file. */
    method Close()
      modifies this`closed
      ensures closed && entries == old(entries)
    {
      closed := true;
    }
  }

  // ----- Whole runs -----

  datatype Op =
    | SetOp(record: Record, now: Time)
    | DeleteOp(key: Key)
    | GetOp(key: Key, now: Time)
    | CleanupOp(now: Time)

  datatype Settings = Settings(ttlMs: nat, maxEntries: nat)

  function Apply(c: Settings, t: Table, op: Op): Table {
    match op
    case SetOp(record, now) =>
      var row := Normalised(record, now, c.ttlMs);
      if row.Ok? then Store(t, record.key, row.value, c.maxEntries) else t
    case DeleteOp(key) => if Blank(key) then t else t - {key}
    case GetOp(_, _) => t
    case CleanupOp(now) => Clean(t, now, c.maxEntries)
  }

  function Run(c: Settings, ops: seq<Op>): Table {
    if ops == [] then map[] else Apply(c, Run(c, ops[..|ops| - 1]), ops[|ops| - 1])
  }

  /** What the history alone says about a key: the last record set for it, unless deleted since. */
  function LastWritten(c: Settings, ops: seq<Op>, key: Key): Option<Row> {
    if ops == [] then None
    else
      var before := LastWritten(c, ops[..|ops| - 1], key);
      match ops[|ops| - 1]
      case SetOp(record, now) =>
        var row := Normalised(record, now, c.ttlMs);
        if record.key == key && row.Ok? then Some(row.value) else before
      case DeleteOp(k) => if k == key && !Blank(k) then None else before
      case _ => before
  }

  lemma {:induction false} RowsAreLastWritten(c: Settings, ops: seq<Op>, key: Key)
    requires key in Run(c, ops)
    ensures LastWritten(c, ops, key) == Some(Run(c, ops)[key])
  {
    if ops != [] {
      var init := ops[..|ops| - 1];
      if key in Run(c, init) {
        RowsAreLastWritten(c, init, key);
      }
    }
  }

  /** Every hit is the latest record set for its key, not deleted since and not expired. */
  lemma {:induction false} HitIsLatest(c: Settings, ops: seq<Op>, key: Key, now: Time)
    requires Lookup(Run(c, ops), key, now).Some?
    ensures Lookup(Run(c, ops), key, now) == LastWritten(c, ops, key)
    ensures Earlier(now, LastWritten(c, ops, key).value.expiresAt)
    ensures HasFourDigitYear(now) ==> now < LastWritten(c, ops, key).value.expiresAt < YEAR_TEN_THOUSAND
  {
    hide Earlier;
    RowsAreLastWritten(c, ops, key);
    if HasFourDigitYear(now) {
      LaterStamps(now, LastWritten(c, ops, key).value.expiresAt);
    }
  }

  /** No operation of the run pushed a row out for want of room. */
  predicate Roomy(c: Settings, ops: seq<Op>) {
    ops == [] ||
    var init := ops[..|ops| - 1];
    var op := ops[|ops| - 1];
    && Roomy(c, init)
    && (op.SetOp? && Normalised(op.record, op.now, c.ttlMs).Ok? ==>
          |Run(c, init)[op.record.key := Normalised(op.record, op.now, c.ttlMs).value]| <= c.maxEntries)
  }

  /** Cleanups happened no later than `now`. */
  predicate CleanedBy(ops: seq<Op>, now: Time) {
    forall op :: op in ops && op.CleanupOp? ==> !Earlier(now, op.now)
  }

  lemma {:induction false} RunBounded(c: Settings, ops: seq<Op>)
    ensures |Run(c, ops)| <= c.maxEntries
  {
    hide Earlier;
    if ops != [] {
      var init, op := ops[..|ops| - 1], ops[|ops| - 1];
      RunBounded(c, init);
      match op {
        case SetOp(record, now) =>
          var row := Normalised(record, now, c.ttlMs);
          if row.Ok? {
            EvictSize(Run(c, init)[record.key := row.value], c.maxEntries);
          }
        case DeleteOp(key) =>
          SubsetSize((Run(c, init) - {key}).Keys, Run(c, init).Keys);
        case GetOp(_, _) =>
        case CleanupOp(now) =>
          EvictSize(Live(Run(c, init), now), c.maxEntries);
      }
    }
  }

  lemma {:induction false} LatestIsKept(c: Settings, ops: seq<Op>, key: Key, now: Time)
    requires Roomy(c, ops) && CleanedBy(ops, now)
    requires LastWritten(c, ops, key).Some? && Earlier(now, LastWritten(c, ops, key).value.expiresAt)
    ensures key in Run(c, ops)
  {
    hide Earlier;
    if ops != [] {
      var init, op := ops[..|ops| - 1], ops[|ops| - 1];
      var t := Run(c, init);
      assert op in ops;
      assert CleanedBy(init, now);
      match op {
        case SetOp(record, at) =>
          var row := Normalised(record, at, c.ttlMs);
          if row.Ok? {
            EvictSize(t[record.key := row.value], c.maxEntries);
          }
          if !(record.key == key && row.Ok?) {
            LatestIsKept(c, init, key, now);
          }
        case DeleteOp(k) =>
          LatestIsKept(c, init, key, now);
        case GetOp(_, _) =>
          LatestIsKept(c, init, key, now);
        case CleanupOp(at) =>
          LatestIsKept(c, init, key, now);
          RowsAreLastWritten(c, init, key);
          NotLaterThanEarlier(at, now, LastWritten(c, ops, key).value.expiresAt);
          RunBounded(c, init);
          SubsetSize(Live(t, at).Keys, t.Keys);
          EvictSize(Live(t, at), c.maxEntries);
      }
    }
  }

  /** While there is room for every row, the cache is exactly the history: a lookup hits if and only
      if the last record written for the key is unexpired, and then returns it. */
  lemma RoomyCacheIsTheHistory(c: Settings, ops: seq<Op>, key: Key, now: Time)
    requires Roomy(c, ops) && CleanedBy(ops, now)
    ensures Lookup(Run(c, ops), key, now)
         == if LastWritten(c, ops, key).Some? && Earlier(now, LastWritten(c, ops, key).value.expiresAt)
            then LastWritten(c, ops, key) else None
  {
    if key in Run(c, ops) {
      RowsAreLastWritten(c, ops, key);
    }
    if LastWritten(c, ops, key).Some? && Earlier(now, LastWritten(c, ops, key).value.expiresAt) {
      LatestIsKept(c, ops, key, now);
    }
  }

  // ----- What a record says, and what is served of it -----

  /** The row says what the record says, with the times it leaves out filled in. */
  predicate Says(record: Record, at: Time, ttlMs: nat, row: Row) {
    && row.url == record.url && row.payload == record.payload && row.bytes == record.bytes
    && record.retrievedAt == At(row.retrievedAt)
    && (record.storedAt == At(row.storedAt) || (record.storedAt == Absent && row.storedAt == at))
    && (record.expiresAt == At(row.expiresAt) || (record.expiresAt == Absent && row.expiresAt == row.storedAt + ttlMs))
  }

  /** A record with a key and an address, a size, and times that can be told. */
  ghost predicate Storable(record: Record, at: Time, ttlMs: nat) {
    !Blank(record.key) && !Blank(record.url) && record.bytes >= 0 && exists row :: Says(record, at, ttlMs, row)
  }

  /** Exactly the storable records are stored, and a row leaves no doubt about what its record said. */
  lemma StoredIffStorable(record: Record, at: Time, ttlMs: nat)
    ensures Normalised(record, at, ttlMs).Ok? <==> Storable(record, at, ttlMs)
    ensures forall row :: Says(record, at, ttlMs, row) && Storable(record, at, ttlMs) ==>
                            Normalised(record, at, ttlMs) == Ok(row)
  {
    hide Blank;
    var r := Normalised(record, at, ttlMs);
    if r.Ok? {
      assert Says(record, at, ttlMs, r.value);
    }
  }

  /** The `i`-th operation is the last that sets or deletes the key. */
  ghost predicate LastSet(c: Settings, ops: seq<Op>, i: nat, key: Key) {
    && i < |ops| && ops[i].SetOp? && ops[i].record.key == key && Storable(ops[i].record, ops[i].now, c.ttlMs)
    && forall j :: i < j < |ops| ==>
         && ops[j] != DeleteOp(key)
         && (ops[j].SetOp? && ops[j].record.key == key ==> !Storable(ops[j].record, ops[j].now, c.ttlMs))
  }

  lemma {:induction false} LastSetIsLastWritten(c: Settings, ops: seq<Op>, i: nat, key: Key)
    requires LastSet(c, ops, i, key)
    ensures LastWritten(c, ops, key).Some?
    ensures Says(ops[i].record, ops[i].now, c.ttlMs, LastWritten(c, ops, key).value)
  {
    hide Says, Normalised, Storable;
    var last := |ops| - 1;
    if ops[last].SetOp? {
      StoredIffStorable(ops[last].record, ops[last].now, c.ttlMs);
    }
    if i == last {
      RowOf(ops[i].record, ops[i].now, c.ttlMs);
    } else {
      LastSetIsLastWritten(c, ops[..last], i, key);
    }
  }

  lemma RowOf(record: Record, at: Time, ttlMs: nat)
    requires Normalised(record, at, ttlMs).Ok?
    ensures Says(record, at, ttlMs, Normalised(record, at, ttlMs).value)
  {
  }

  lemma {:induction false} LastWrittenWasSet(c: Settings, ops: seq<Op>, key: Key) returns (i: nat)
    requires LastWritten(c, ops, key).Some?
    ensures LastSet(c, ops, i, key)
    ensures Says(ops[i].record, ops[i].now, c.ttlMs, LastWritten(c, ops, key).value)
  {
    hide Says, Normalised, Storable;
    var last := |ops| - 1;
    if ops[last].SetOp? {
      StoredIffStorable(ops[last].record, ops[last].now, c.ttlMs);
    }
    if ops[last].SetOp? && ops[last].record.key == key && Normalised(ops[last].record, ops[last].now, c.ttlMs).Ok? {
      i := last;
      RowOf(ops[i].record, ops[i].now, c.ttlMs);
    } else {
      i := LastWrittenWasSet(c, ops[..last], key);
      SetNotBlank(ops[i].record, ops[i].now, c.ttlMs);
    }
  }

  lemma SetNotBlank(record: Record, at: Time, ttlMs: nat)
    requires Storable(record, at, ttlMs)
    ensures !Blank(record.key)
  {
  }

  /** In any run, a hit repeats what the last record set for the key said of itself, and is not expired by that record's
      own word. */
  lemma HitIsWhatWasSet(c: Settings, ops: seq<Op>, key: Key, now: Time) returns (i: nat)
    requires Lookup(Run(c, ops), key, now).Some?
    ensures LastSet(c, ops, i, key)
    ensures Says(ops[i].record, ops[i].now, c.ttlMs, Lookup(Run(c, ops), key, now).value)
    ensures Earlier(now, Lookup(Run(c, ops), key, now).value.expiresAt)
  {
    HitIsLatest(c, ops, key, now);
    i := LastWrittenWasSet(c, ops, key);
  }

  /** With room for every row, the last record set for a key is served if and only if the time it names as its expiry,
      or else the end of its life time, is still to come, and then as it was set. */
  lemma ServedIffUnexpired(c: Settings, ops: seq<Op>, i: nat, key: Key, now: Time)
    requires Roomy(c, ops) && CleanedBy(ops, now) && LastSet(c, ops, i, key)
    ensures var record := ops[i].record;
            var storedAt := if record.storedAt.At? then record.storedAt.ms else ops[i].now;
            && (Lookup(Run(c, ops), key, now).Some?
                <==> if record.expiresAt.At? then Earlier(now, record.expiresAt.ms)
                     else Earlier(now, storedAt + c.ttlMs))
            && (Lookup(Run(c, ops), key, now).Some? ==>
                  var row := Lookup(Run(c, ops), key, now).value;
                  && row.url == record.url && row.payload == record.payload && row.bytes == record.bytes
                  && row.retrievedAt == record.retrievedAt.ms && row.storedAt == storedAt)
  {
    hide Roomy, CleanedBy, LastSet, Earlier;
    RoomyCacheIsTheHistory(c, ops, key, now);
    LastSetIsLastWritten(c, ops, i, key);
  }

  lemma NothingSetNothingServed(c: Settings, ops: seq<Op>, key: Key, now: Time)
    requires forall i :: !LastSet(c, ops, i, key)
    ensures Lookup(Run(c, ops), key, now) == None
  {
    hide LastSet, Lookup, Run;
    if Lookup(Run(c, ops), key, now).Some? {
      var i := HitIsWhatWasSet(c, ops, key, now);
    }
  }

  // ----- The same by the clock -----

  /** What a cache with room for everything should serve: the last record written, if its time is not up. */
  function Promised(last: Option<Row>, now: Time): Option<Row> {
    if last.Some? && last.value.expiresAt > now then last else None
  }

  /** The record is to live beyond the last four-digit year. */
  predicate LivesTooLong(last: Option<Row>) {
    last.Some? && last.value.expiresAt >= YEAR_TEN_THOUSAND
  }

  lemma EarlierCleanups(ops: seq<Op>, now: Time)
    requires HasFourDigitYear(now) && forall op :: op in ops && op.CleanupOp? ==> op.now <= now
    ensures CleanedBy(ops, now)
  {
    hide Earlier;
    forall op | op in ops && op.CleanupOp? ensures !Earlier(now, op.now) {
      LaterStamps(now, op.now);
    }
  }

  /** By the clock of a four-digit year the cache serves what it should, if and only if the record does not live
      beyond such years: the text of its expiry would begin with a sign, which sorts before every digit. */
  lemma PromiseKeptIff(c: Settings, ops: seq<Op>, key: Key, now: Time)
    requires Roomy(c, ops) && HasFourDigitYear(now)
    requires forall op :: op in ops && op.CleanupOp? ==> op.now <= now
    ensures Lookup(Run(c, ops), key, now) == Promised(LastWritten(c, ops, key), now)
       <==> !LivesTooLong(LastWritten(c, ops, key))
  {
    hide Earlier, Run, LastWritten, Roomy, CleanedBy;
    EarlierCleanups(ops, now);
    RoomyCacheIsTheHistory(c, ops, key, now);
    if LastWritten(c, ops, key).Some? {
      LaterStamps(now, LastWritten(c, ops, key).value.expiresAt);
    }
  }

  /** Such a record is never served, whatever room there is, and the first cleanup deletes it as expired. */
  lemma LongLivedIsNeverServed(c: Settings, ops: seq<Op>, key: Key, now: Time)
    requires HasFourDigitYear(now) && LivesTooLong(LastWritten(c, ops, key))
    ensures Lookup(Run(c, ops), key, now) == None && key !in Live(Run(c, ops), now)
  {
    hide Earlier;
    if key in Run(c, ops) {
      RowsAreLastWritten(c, ops, key);
      LaterStamps(now, Run(c, ops)[key].expiresAt);
    }
  }

  /** In four-digit years the retention order is that of time. */
  lemma AboveByTime(a: Item, b: Item)
    requires HasFourDigitYear(a.0) && HasFourDigitYear(b.0)
    ensures Above(a, b) <==> a.0 > b.0 || (a.0 == b.0 && LexLess(b.1, a.1))
  {
    hide Earlier, LexLess;
    LaterStamps(b.0, a.0);
  }

  // ----- Evicting as rows arrive, or once at the end -----

  datatype Insertion = Insertion(key: Key, row: Row)

  /** The table after storing the rows one by one, with an eviction after each. */
  function Online(rows: seq<Insertion>, n: nat): Table {
    if rows == [] then map[]
    else
      var last := rows[|rows| - 1];
      Store(Online(rows[..|rows| - 1], n), last.key, last.row, n)
  }

  function Everything(rows: seq<Insertion>): Table {
    if rows == [] then map[]
    else Everything(rows[..|rows| - 1])[rows[|rows| - 1].key := rows[|rows| - 1].row]
  }

  lemma ItemsOfUpdate(t: Table, key: Key, row: Row)
    requires key !in t
    ensures Items(t[key := row]) == Items(t) + {(row.storedAt, key)}
    ensures (row.storedAt, key) !in Items(t)
  {
    var u := t[key := row];
    forall x | x in Items(t) + {(row.storedAt, key)} ensures x in Items(u) {
      assert x.1 in u && ItemOf(u, x.1) == x;
    }
  }

  /** Two tables that agree on their common keys and have the same items are equal. */
  lemma SameItems(a: Table, b: Table)
    requires Items(a) == Items(b) && forall key :: key in a && key in b ==> a[key] == b[key]
    ensures a == b
  {
    forall key ensures key in a <==> key in b {
      if key in a {
        assert ItemOf(a, key) in Items(b);
      }
      if key in b {
        assert ItemOf(b, key) in Items(a);
      }
    }
  }

  /** Whatever lies above all other items, and is as many items as are retained, is what is retained. */
  lemma TopIsNewest(s: set<Item>, top: set<Item>, n: nat)
    requires top <= s && |top| == Min(|s|, n)
    requires forall x, y :: x in top && y in s && y !in top ==> Above(x, y)
    ensures Newest(s, n) == top
  {
    hide Earlier;
    forall x | x in s ensures x in Newest(s, n) <==> x in top {
      if x in top {
        AboveTotal(x, x);
        forall y | y in AheadOf(s, x) ensures y in top {
          AboveTotal(x, y);
        }
        SubsetSize(AheadOf(s, x), top - {x});
      } else {
        SubsetSize(top, AheadOf(s, x));
        SubsetSize(top + {x}, s);
      }
    }
  }

  /** A discarded item may as well not have been there. */
  lemma DropDiscarded(s: set<Item>, x: Item, n: nat)
    requires x in s && x !in Newest(s, n)
    ensures Newest(s - {x}, n) == Newest(s, n)
  {
    var kept := Newest(s, n);
    NewestSize(s, n);
    forall a, b | a in kept && b in s - {x} && b !in kept ensures Above(a, b) {
      RetainedAhead(s, n, a, b);
    }
    TopIsNewest(s - {x}, kept, n);
  }

  /** Some item that was discarded would now be retained rather than `b`. */
  ghost predicate Overtaken(s: set<Item>, n: nat, b: Item) {
    exists d :: d in s && d !in Newest(s, n) && Above(d, b)
  }

  /** Replacing a retained item: the others stay just the retained ones unless a discarded item overtakes it. */
  lemma ReplaceRetained(s: set<Item>, a: Item, b: Item, n: nat)
    requires a in Newest(s, n) && b !in s - {a}
    ensures Newest(s - {a} + {b}, n) == Newest(s, n) - {a} + {b} <==> !Overtaken(s, n, b)
  {
    hide Earlier;
    var kept, s' := Newest(s, n), s - {a} + {b};
    var kept' := kept - {a} + {b};
    NewestSize(s, n);
    assert |s'| == |s| && |kept'| == |kept|;
    if d :| d in s && d !in kept && Above(d, b) {
      AboveTotal(d, b);
      if Newest(s', n) == kept' {
        RetainedAhead(s', n, b, d);
      }
    } else {
      forall x, y | x in kept' && y in s' && y !in kept' ensures Above(x, y) {
        if x == b {
          AboveTotal(b, y);
        } else {
          RetainedAhead(s, n, x, y);
        }
      }
      TopIsNewest(s', kept', n);
    }
  }

  lemma ItemsWithout(t: Table, key: Key)
    requires key in t
    ensures Items(t - {key}) == Items(t) - {ItemOf(t, key)}
  {
    forall x | x in Items(t) && x != ItemOf(t, key) ensures x in Items(t - {key}) {
      assert x.1 in t - {key} && ItemOf(t - {key}, x.1) == x;
    }
  }

  lemma ItemsOfReplace(t: Table, key: Key, row: Row)
    requires key in t
    ensures Items(t[key := row]) == Items(t) - {ItemOf(t, key)} + {(row.storedAt, key)}
    ensures (row.storedAt, key) !in Items(t) - {ItemOf(t, key)}
  {
    ItemsWithout(t, key);
    ItemsOfUpdate(t - {key}, key, row);
    assert (t - {key})[key := row] == t[key := row];
  }

  lemma RetainedItem(t: Table, n: nat, key: Key)
    requires key in t
    ensures key in Evict(t, n) <==> ItemOf(t, key) in Newest(Items(t), n)
    ensures key in Evict(t, n) ==> ItemOf(Evict(t, n), key) == ItemOf(t, key)
  {
    assert ItemOf(t, key) in Items(t);
  }

  /** The row falls behind one that was evicted while its own key was retained. */
  ghost predicate FallsBehind(all: Table, key: Key, row: Row, n: nat) {
    && key in Evict(all, n)
    && exists d :: d in all && d !in Evict(all, n) && Above(ItemOf(all, d), (row.storedAt, key))
  }

  lemma FallsBehindItems(all: Table, key: Key, row: Row, n: nat)
    ensures FallsBehind(all, key, row, n)
       <==> key in Evict(all, n) && Overtaken(Items(all), n, (row.storedAt, key))
  {
    if key in Evict(all, n) && Overtaken(Items(all), n, (row.storedAt, key)) {
      var x :| x in Items(all) && x !in Newest(Items(all), n) && Above(x, (row.storedAt, key));
      assert x.1 in all && x.1 !in Evict(all, n) && ItemOf(all, x.1) == x;
    }
    if FallsBehind(all, key, row, n) {
      var d :| d in all && d !in Evict(all, n) && Above(ItemOf(all, d), (row.storedAt, key));
      RetainedItem(all, n, d);
      assert ItemOf(all, d) in Items(all);
    }
  }

  /** The items on both sides, for a key that is not retained: nothing is lost by having evicted. */
  lemma StoreNewItems(all: Table, key: Key, row: Row, n: nat)
    requires key !in Evict(all, n)
    ensures Items(Store(Evict(all, n), key, row, n)) == Items(Evict(all[key := row], n))
  {
    var kept, b := Evict(all, n), (row.storedAt, key);
    var rest := all - {key};
    EvictItems(all, n);
    ItemsOfUpdate(kept, key, row);
    EvictItems(kept[key := row], n);
    EvictItems(all[key := row], n);
    ItemsOfUpdate(rest, key, row);
    assert rest[key := row] == all[key := row];
    if key in all {
      ItemsWithout(all, key);
      RetainedItem(all, n, key);
      DropDiscarded(Items(all), ItemOf(all, key), n);
      assert ItemOf(all, key) in Items(all);
    } else {
      assert rest == all;
    }
    DiscardEarly(Items(rest), b, n);
  }

  lemma StoreRetainedItems(all: Table, key: Key, row: Row, n: nat)
    requires key in Evict(all, n)
    ensures Items(Store(Evict(all, n), key, row, n)) == Items(Evict(all[key := row], n))
       <==> !Overtaken(Items(all), n, (row.storedAt, key))
  {
    var kept, b := Evict(all, n), (row.storedAt, key);
    RetainedItem(all, n, key);
    EvictItems(all, n);
    EvictSize(all, n);
    ItemsOfReplace(kept, key, row);
    assert kept[key := row].Keys == kept.Keys;
    assert |kept[key := row]| == |kept[key := row].Keys| == |kept.Keys| == |kept|;
    EvictSize(kept[key := row], n);
    ItemsOfReplace(all, key, row);
    EvictItems(all[key := row], n);
    ReplaceRetained(Items(all), ItemOf(all, key), b, n);
  }

  lemma StoreAgrees(all: Table, key: Key, row: Row, n: nat, k: Key)
    requires k in Store(Evict(all, n), key, row, n) && k in Evict(all[key := row], n)
    ensures Store(Evict(all, n), key, row, n)[k] == Evict(all[key := row], n)[k]
  {
    hide Newest;
  }

  /** Exactly when storing into the evicted table equals evicting after storing into the whole one. */
  lemma StoreCommutesIff(all: Table, key: Key, row: Row, n: nat)
    ensures Store(Evict(all, n), key, row, n) == Evict(all[key := row], n) <==> !FallsBehind(all, key, row, n)
  {
    var a, b := Store(Evict(all, n), key, row, n), Evict(all[key := row], n);
    FallsBehindItems(all, key, row, n);
    forall k | k in a && k in b ensures a[k] == b[k] {
      StoreAgrees(all, key, row, n, k);
    }
    if key in Evict(all, n) {
      StoreRetainedItems(all, key, row, n);
    } else {
      StoreNewItems(all, key, row, n);
    }
    hide Evict, Store, Items, FallsBehind;
    if Items(a) == Items(b) {
      SameItems(a, b);
    }
  }

  /** No row that is stored falls behind one that was evicted earlier. */
  ghost predicate NoneFallsBehind(rows: seq<Insertion>, n: nat) {
    rows == [] ||
    var init, last := rows[..|rows| - 1], rows[|rows| - 1];
    NoneFallsBehind(init, n) && !FallsBehind(Everything(init), last.key, last.row, n)
  }

  /** At every point of the run the table holds exactly the `n` newest rows of everything stored so far. */
  ghost predicate AlwaysTheNewest(rows: seq<Insertion>, n: nat) {
    Online(rows, n) == Evict(Everything(rows), n)
    && (rows == [] || AlwaysTheNewest(rows[..|rows| - 1], n))
  }

  /** Evicting as rows arrive equals choosing among everything ever stored, throughout a run, if and only if no
      row falls behind an evicted one. */
  lemma {:induction false} OnlineIsOfflineIff(rows: seq<Insertion>, n: nat)
    ensures AlwaysTheNewest(rows, n) <==> NoneFallsBehind(rows, n)
  {
    if rows != [] {
      var init, last := rows[..|rows| - 1], rows[|rows| - 1];
      OnlineIsOfflineIff(init, n);
      StoreCommutesIff(Everything(init), last.key, last.row, n);
      hide Evict, Store, FallsBehind;
    } else {
      EvictSize(map[], n);
    }
  }

  /** A key that is stored again is not stored with an older time stamp, as with a clock that never goes back. */
  predicate NeverOlder(rows: seq<Insertion>) {
    rows == [] ||
    var init, last := rows[..|rows| - 1], rows[|rows| - 1];
    NeverOlder(init)
    && (last.key in Everything(init) ==> !Earlier(last.row.storedAt, Everything(init)[last.key].storedAt))
  }

  /** By the clock: all stamps are in four-digit years and none is before that of the row replaced. */
  predicate ClockAdvances(rows: seq<Insertion>) {
    rows == [] ||
    var init, last := rows[..|rows| - 1], rows[|rows| - 1];
    && ClockAdvances(init) && HasFourDigitYear(last.row.storedAt)
    && (last.key in Everything(init) ==> Everything(init)[last.key].storedAt <= last.row.storedAt)
  }

  lemma {:induction false} AdvancingClock(rows: seq<Insertion>, n: nat)
    requires ClockAdvances(rows)
    ensures NeverOlder(rows) && Online(rows, n) == Evict(Everything(rows), n)
  {
    hide Earlier, Online, Evict;
    if rows != [] {
      var init, last := rows[..|rows| - 1], rows[|rows| - 1];
      AdvancingClock(init, n);
      if last.key in Everything(init) {
        LaterStamps(last.row.storedAt, Everything(init)[last.key].storedAt);
      }
    }
    OnlineIsOffline(rows, n);
  }

  lemma NotOlderStaysAhead(all: Table, key: Key, row: Row, n: nat)
    requires key in all ==> !Earlier(row.storedAt, all[key].storedAt)
    ensures !FallsBehind(all, key, row, n)
  {
    hide Earlier;
    if key in Evict(all, n) {
      forall d | d in all && d !in Evict(all, n) ensures !Above(ItemOf(all, d), (row.storedAt, key)) {
        RetainedItem(all, n, key);
        RetainedItem(all, n, d);
        assert ItemOf(all, d) in Items(all);
        RetainedAhead(Items(all), n, ItemOf(all, key), ItemOf(all, d));
        if Above(ItemOf(all, d), (row.storedAt, key)) {
          AboveTransitive(ItemOf(all, key), ItemOf(all, d), (row.storedAt, key));
        }
      }
    }
  }

  /** In particular after any run in which no key is stored again with an older time stamp, new keys included. */
  lemma {:induction false} OnlineIsOffline(rows: seq<Insertion>, n: nat)
    requires NeverOlder(rows)
    ensures Online(rows, n) == Evict(Everything(rows), n)
  {
    if rows != [] {
      var init, last := rows[..|rows| - 1], rows[|rows| - 1];
      OnlineIsOffline(init, n);
      NotOlderStaysAhead(Everything(init), last.key, last.row, n);
      StoreCommutesIff(Everything(init), last.key, last.row, n);
      hide Evict, Store, FallsBehind;
    } else {
      EvictSize(map[], n);
    }
  }

  /** Expired rows count against the limit until a cleanup: dropping them first never keeps less. */
  lemma CleaningFirstKeepsMore(t: Table, now: Time, n: nat, key: Key)
    requires key in Live(Evict(t, n), now)
    ensures key in Clean(t, now, n)
  {
    var x := ItemOf(t, key);
    var live := Live(t, now);
    assert ItemOf(live, key) == x;
    assert AheadOf(Items(live), x) <= AheadOf(Items(t), x) by {
      forall y | y in Items(live) ensures y in Items(t) {
        assert y.1 in t && ItemOf(t, y.1) == y;
      }
    }
    SubsetSize(AheadOf(Items(live), x), AheadOf(Items(t), x));
    assert x in Items(live);
  }

  /** A cleanup leaves no expired row and changes none, and a live row goes only if `n` rows stay that all come before
      it in the retention order. */
  lemma CleanedIff(t: Table, now: Time, n: nat, key: Key)
    requires key in t
    ensures var left := Clean(t, now, n);
            && (key in left ==> left[key] == t[key] && Earlier(now, t[key].expiresAt))
            && (key !in left && Earlier(now, t[key].expiresAt) ==>
                  |left| == n && forall k :: k in left ==> Above(ItemOf(t, k), ItemOf(t, key)))
  {
    hide Earlier, Above;
    var live := Live(t, now);
    EvictSize(live, n);
    if key in live && key !in Evict(live, n) {
      forall k | k in Evict(live, n) ensures Above(ItemOf(t, k), ItemOf(t, key)) {
        assert ItemOf(live, k) == ItemOf(t, k) && ItemOf(live, key) == ItemOf(t, key);
        RetainedAhead(Items(live), n, ItemOf(live, k), ItemOf(live, key));
      }
    }
  }

  lemma LiveSubset(t: Table, now: Time)
    ensures Live(t, now).Keys <= t.Keys && |Live(t, now)| <= |t|
    ensures |Live(t, now)| == |t| ==> Live(t, now) == t
  {
    hide Earlier;
    SubsetSize(Live(t, now).Keys, t.Keys);
    if key :| key in t && key !in Live(t, now) {
      SubsetSize(Live(t, now).Keys, t.Keys - {key});
    }
  }

  lemma SameSizeSameTable(a: Table, b: Table)
    requires |a| == |b| && forall key :: key in a ==> key in b && a[key] == b[key]
    ensures a == b
  {
    if key :| key in b && key !in a {
      SubsetSize(a.Keys, b.Keys - {key});
    }
  }

  /** Every live row was retained, or every retained row is live. */
  predicate NoLiveRowDisplaced(t: Table, now: Time, n: nat) {
    || (forall key :: key in Live(t, now) ==> key in Evict(t, n))
    || (forall key :: key in Evict(t, n) ==> Earlier(now, t[key].expiresAt))
  }

  lemma ServedIsCleaned(t: Table, now: Time, n: nat)
    ensures forall key :: key in Live(Evict(t, n), now) ==>
              key in Clean(t, now, n) && Live(Evict(t, n), now)[key] == Clean(t, now, n)[key]
  {
    forall key | key in Live(Evict(t, n), now) ensures key in Clean(t, now, n) {
      CleaningFirstKeepsMore(t, now, n, key);
    }
    hide Newest, Items;
  }

  lemma ServedRows(t: Table, now: Time, n: nat)
    requires NoLiveRowDisplaced(t, now, n)
    ensures Live(Evict(t, n), now) == Live(t, now) || Live(Evict(t, n), now) == Evict(t, n)
  {
    hide Earlier;
    EvictedRows(t, n);
    hide Evict;
  }

  lemma HarmlessIfNoneDisplaced(t: Table, now: Time, n: nat)
    requires NoLiveRowDisplaced(t, now, n)
    ensures Live(Evict(t, n), now) == Clean(t, now, n)
  {
    hide Earlier;
    ServedIsCleaned(t, now, n);
    ServedRows(t, now, n);
    EvictSize(t, n);
    EvictSize(Live(t, now), n);
    LiveSubset(t, now);
    hide Evict, Live, NoLiveRowDisplaced;
    var served, cleaned := Live(Evict(t, n), now), Clean(t, now, n);
    SubsetSize(served.Keys, cleaned.Keys);
    SameSizeSameTable(served, cleaned);
  }

  lemma NoneDisplacedIfHarmless(t: Table, now: Time, n: nat)
    requires Live(Evict(t, n), now) == Clean(t, now, n)
    ensures NoLiveRowDisplaced(t, now, n)
  {
    hide Earlier;
    EvictSize(t, n);
    EvictSize(Live(t, now), n);
    LiveSubset(Evict(t, n), now);
    hide Newest, Items, Evict;
    if |Live(t, now)| > n {
      assert Live(Evict(t, n), now) == Evict(t, n);
      EvictedRows(t, n);
    }
  }

  lemma EvictedRows(t: Table, n: nat)
    ensures forall key :: key in Evict(t, n) ==> key in t && Evict(t, n)[key] == t[key]
  {
  }

  /** Evicting with the expired rows still there serves the same rows as cleaning up first, if and only if no live
      row had to go while an expired one stayed. */
  lemma ExpiredRowsHarmlessIff(t: Table, now: Time, n: nat)
    ensures Live(Evict(t, n), now) == Clean(t, now, n) <==> NoLiveRowDisplaced(t, now, n)
  {
    if NoLiveRowDisplaced(t, now, n) {
      HarmlessIfNoneDisplaced(t, now, n);
    }
    if Live(Evict(t, n), now) == Clean(t, now, n) {
      NoneDisplacedIfHarmless(t, now, n);
    }
  }

  /** Of two rows with room for one, the one stored later is kept. */
  lemma LaterOfTwo(t: Table, dated: Key, young: Key)
    requires t.Keys == {dated, young} && dated != young && Earlier(t[dated].storedAt, t[young].storedAt)
    ensures Evict(t, 1) == map[young := t[young]]
  {
    hide Earlier;
    var o, y := ItemOf(t, dated), ItemOf(t, young);
    assert Items(t) == {o, y} by {
      assert o in Items(t) && y in Items(t);
    }
    AboveTotal(o, y);
    AboveTotal(o, o);
    AboveTotal(y, y);
    assert AheadOf({o, y}, y) == {} && AheadOf({o, y}, o) == {y};
  }

  /** `set` may push out a live row while an expired one stays; `cleanup` would have kept it. */
  lemma ExpiredRowsTakeRoom(live: Row, expired: Row, now: Time)
    requires Earlier(live.storedAt, expired.storedAt)
    requires Earlier(now, live.expiresAt) && !Earlier(now, expired.expiresAt)
    ensures var t := map["live" := live, "expired" := expired];
            Live(Evict(t, 1), now) == map[] && Clean(t, now, 1) == map["live" := live]
  {
    hide Earlier;
    var t := map["live" := live, "expired" := expired];
    assert t.Keys == {"live", "expired"};
    LaterOfTwo(t, "live", "expired");
    assert Live(t, now) == map["live" := live];
    EvictSize(map["live" := live], 1);
  }

  lemma Append(rows: seq<Insertion>, last: Insertion, n: nat)
    ensures Online(rows + [last], n) == Store(Online(rows, n), last.key, last.row, n)
    ensures Everything(rows + [last]) == Everything(rows)[last.key := last.row]
  {
    assert (rows + [last])[..|rows|] == rows;
  }

  /** Storing a key again with an older time stamp breaks the equality: the row that was evicted
      in between is gone although it would be retained now. */
  lemma RepeatedKeysDiffer(row: Row)
    ensures var rows := [Insertion("a", row.(storedAt := 5)), Insertion("b", row.(storedAt := 3)),
                         Insertion("a", row.(storedAt := 1))];
            Online(rows, 1).Keys == {"a"} && Evict(Everything(rows), 1).Keys == {"b"}
  {
    hide Earlier;
    LaterStamps(3, 5);
    LaterStamps(1, 3);
    var a5, b3, a1 := row.(storedAt := 5), row.(storedAt := 3), row.(storedAt := 1);
    var first, second, third := Insertion("a", a5), Insertion("b", b3), Insertion("a", a1);
    Append([], first, 1);
    Append([] + [first], second, 1);
    Append([] + [first] + [second], third, 1);
    assert [] + [first] + [second] + [third] == [first, second, third];
    hide Online, Everything, Evict;
    EvictSize(map["a" := a5], 1);
    assert map[]["a" := a5] == map["a" := a5];
    assert map["a" := a5]["b" := b3] == map["a" := a5, "b" := b3];
    LaterOfTwo(map["a" := a5, "b" := b3], "b", "a");
    EvictSize(map["a" := a1], 1);
    assert map["a" := a5]["a" := a1] == map["a" := a1];
    assert map["a" := a5, "b" := b3]["a" := a1] == map["a" := a1, "b" := b3];
    LaterOfTwo(map["a" := a1, "b" := b3], "a", "b");
  }
}
