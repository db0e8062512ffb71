/** What the memory store keeps over whole runs, and how its batch write compares with single writes. */
module StoreRuns {
  import opened Types
  import opened Ttl
  import opened StoreSpec

  datatype Op<V> =
    | GetOp(key: Key, now: int)
    | SetOp(key: Key, value: V, ttl: int, now: int)
    | SetManyOp(entries: map<Key, V>, ttl: int, now: int)
    | DeleteOp(key: Key)
    | ClearOp
    | SweepOp(now: int)

  ghost function Step<V>(s: Store<V>, op: Op<V>): Store<V> {
    match op
    case GetOp(k, now) => Get(s, k, now).0
    case SetOp(k, v, ttl, now) => Set(s, k, v, ttl, now).0
    case SetManyOp(entries, ttl, now) => SetMany(s, entries, ttl, now).0
    case DeleteOp(k) => Delete(s, k)
    case ClearOp => Clear(s)
    case SweepOp(now) => Sweep(s, now)
  }

  ghost function Run<V>(cfg: StoreConfig<V>, trace: seq<Op<V>>): (s: Store<V>)
    ensures s.cfg == cfg
  {
    if trace == [] then Empty(cfg) else Step(Run(cfg, trace[..|trace| - 1]), trace[|trace| - 1])
  }

  // ---------------------------------------------------------------- byte accounting

  ghost function StoredBytes<V>(s: Store<V>): nat {
    Bytes(s.cfg.size, Contents(s.items))
  }

  ghost function Expired<V>(s: Store<V>, now: int): set<Key> {
    set k | k in s.items && IsExpired(s.items[k].expires, now)
  }

  /** The bytes of the entries a call drops because they expired. */
  ghost function DroppedBytes<V>(s: Store<V>, op: Op<V>): nat {
    match op
    case GetOp(k, now) => if k in Expired(s, now) then SizeAt(s, k) else 0
    case SweepOp(now) => Bytes(s.cfg.size, Contents(s.items) - (s.items.Keys - Expired(s, now)))
    case _ => 0
  }

  /** The bytes of all entries dropped by expiry since the latest Clear. */
  ghost function LeakedBytes<V>(cfg: StoreConfig<V>, trace: seq<Op<V>>): nat {
    if trace == [] || trace[|trace| - 1] == ClearOp then 0
    else
      var before := trace[..|trace| - 1];
      LeakedBytes(cfg, before) + DroppedBytes(Run(cfg, before), trace[|trace| - 1])
  }

  lemma LessBytes<V>(s: Store<V>, k: Key)
    ensures Contents(s.items - {k}) == Contents(s.items) - {k}
    ensures StoredBytes(s) == Bytes(s.cfg.size, Contents(s.items) - {k}) + SizeAt(s, k)
  {
    if k in s.items {
      BytesLess(s.cfg.size, Contents(s.items), k);
    } else {
      assert Contents(s.items) - {k} == Contents(s.items);
    }
  }

  lemma PutBytes<V>(s: Store<V>, k: Key, v: V, ttl: int, now: int)
    ensures StoredBytes(Put(s, k, v, ttl, now)) == StoredBytes(s) - SizeAt(s, k) + s.cfg.size(k, v)
  {
    LessBytes(s, k);
    BytesPut(s.cfg.size, Contents(s.items), k, v);
    assert Contents(Put(s, k, v, ttl, now).items) == Contents(s.items)[k := v];
  }

  /** The stored part of what a batch overwrites, and the part of the batch that overwrites. */
  ghost function Overwritten<V>(s: Store<V>, entries: map<Key, V>): map<Key, V> {
    Contents(s.items) - (s.items.Keys - entries.Keys)
  }

  ghost function Overwriting<V>(s: Store<V>, entries: map<Key, V>): map<Key, V> {
    entries - (entries.Keys - s.items.Keys)
  }

  lemma PutManyContents<V>(s: Store<V>, entries: map<Key, V>, ttl: int, now: int)
    ensures Contents(PutMany(s, entries, ttl, now).items) == (Contents(s.items) - entries.Keys) + entries
  {}

  lemma PutManyBytes<V>(s: Store<V>, entries: map<Key, V>, ttl: int, now: int)
    ensures StoredBytes(PutMany(s, entries, ttl, now))
      == StoredBytes(s) - Bytes(s.cfg.size, Overwritten(s, entries)) + Bytes(s.cfg.size, entries)
  {
    var kept := Contents(s.items) - entries.Keys;
    PutManyContents(s, entries, ttl, now);
    BytesSplit(s.cfg.size, Contents(s.items), entries.Keys);
    BytesUnion(s.cfg.size, kept, entries);
  }

  lemma SweepBytes<V>(s: Store<V>, now: int)
    ensures StoredBytes(s) == StoredBytes(Sweep(s, now)) + DroppedBytes(s, SweepOp(now))
  {
    BytesSplit(s.cfg.size, Contents(s.items), Expired(s, now));
    assert Contents(Sweep(s, now).items) == Contents(s.items) - Expired(s, now);
  }

  lemma GetBytes<V>(s: Store<V>, k: Key, now: int)
    ensures StoredBytes(s) == StoredBytes(Get(s, k, now).0) + DroppedBytes(s, GetOp(k, now))
  {
    if k in Expired(s, now) {
      LessBytes(s, k);
    } else {
      assert Contents(Get(s, k, now).0.items) == Contents(s.items);
    }
  }

  /** One call moves the counter and the stored bytes alike, but for what it drops by expiry. */
  lemma StepAccounts<V>(s: Store<V>, op: Op<V>)
    requires s.cfg.tracking && !op.ClearOp?
    ensures Step(s, op).usage - s.usage == StoredBytes(Step(s, op)) - StoredBytes(s) + DroppedBytes(s, op)
  {
    match op
    case GetOp(k, now) => GetBytes(s, k, now);
    case SetOp(k, v, ttl, now) => PutBytes(s, k, v, ttl, now);
    case SetManyOp(entries, ttl, now) => PutManyBytes(s, entries, ttl, now);
    case DeleteOp(k) => LessBytes(s, k);
    case SweepOp(now) => SweepBytes(s, now);
  }

  /** The usage counter is the stored bytes plus what expiry has dropped since the latest Clear, over every run. */
  lemma {:induction false} UsageAccounts<V>(cfg: StoreConfig<V>, trace: seq<Op<V>>)
    requires cfg.tracking
    ensures Run(cfg, trace).usage == StoredBytes(Run(cfg, trace)) + LeakedBytes(cfg, trace)
  {
    if trace == [] {
    } else {
      var before, op := trace[..|trace| - 1], trace[|trace| - 1];
      UsageAccounts(cfg, before);
      if !op.ClearOp? {
        StepAccounts(Run(cfg, before), op);
      }
    }
  }

  // ---------------------------------------------------------------- limits

  predicate WithinCapacity<V>(s: Store<V>) {
    s.cfg.maxSize > 0 ==> |s.items| <= s.cfg.maxSize
  }

  lemma LessSize<V>(m: map<Key, V>, ks: set<Key>)
    ensures |m - ks| <= |m|
    ensures |m - ks| == |m.Keys - ks|
  {}

  lemma PutManySize<V>(s: Store<V>, entries: map<Key, V>, ttl: int, now: int)
    ensures |PutMany(s, entries, ttl, now).items| == |s.items| + |NewKeys(s, entries)|
  {
    var keys := PutMany(s, entries, ttl, now).items.Keys;
    assert keys == s.items.Keys + NewKeys(s, entries);
    assert |keys| == |s.items.Keys| + |NewKeys(s, entries)|;
  }

  /** The number of entries never exceeds a positive maxSize, over every run. */
  lemma {:induction false} CapacityHolds<V>(cfg: StoreConfig<V>, trace: seq<Op<V>>)
    ensures WithinCapacity(Run(cfg, trace))
  {
    if trace == [] {
    } else {
      var before, op := trace[..|trace| - 1], trace[|trace| - 1];
      var s := Run(cfg, before);
      CapacityHolds(cfg, before);
      match op {
        case GetOp(k, now) => GetSize(s, k, now);
        case SetOp(k, v, ttl, now) => PutSize(s, k, v, ttl, now);
        case SetManyOp(entries, ttl, now) => PutManySize(s, entries, ttl, now);
        case DeleteOp(k) => LessSize(s.items, {k});
        case ClearOp =>
        case SweepOp(now) => SweepSize(s, now);
      }
    }
  }

  lemma PutSize<V>(s: Store<V>, k: Key, v: V, ttl: int, now: int)
    ensures |Put(s, k, v, ttl, now).items| == if k in s.items then |s.items| else |s.items| + 1
  {}

  lemma GetSize<V>(s: Store<V>, k: Key, now: int)
    ensures |Get(s, k, now).0.items| <= |s.items|
  {}

  lemma SweepSize<V>(s: Store<V>, now: int)
    ensures |Sweep(s, now).items| <= |s.items|
  {
    LessSize(s.items, Expired(s, now));
    assert Sweep(s, now).items == s.items - Expired(s, now);
  }

  predicate Limited<V>(s: Store<V>) {
    s.cfg.tracking && s.cfg.maxMemory > 0
  }

  /**
   * The admission check of SetMany counts new keys only. An accepted batch keeps the memory limit
   * if and only if the growth of the keys it overwrites fits in the room the new keys leave.
   */
  lemma SetManyKeepsLimitIff<V>(s: Store<V>, entries: map<Key, V>, ttl: int, now: int)
    requires Limited(s) && SetMany(s, entries, ttl, now).1 == None
    ensures var room := s.cfg.maxMemory - s.usage - Bytes(s.cfg.size, entries - s.items.Keys);
      && room >= 0
      && (SetMany(s, entries, ttl, now).0.usage <= s.cfg.maxMemory <==>
          Bytes(s.cfg.size, Overwriting(s, entries)) - Bytes(s.cfg.size, Overwritten(s, entries)) <= room)
  {
    BytesSplit(s.cfg.size, entries, s.items.Keys);
  }

  /** A batch that rewrites one stored key with a larger value is accepted however far it exceeds the limit. */
  lemma SetManyMayExceedLimit<V>(s: Store<V>, k: Key, v: V, ttl: int, now: int)
    requires Limited(s) && WithinCapacity(s) && s.usage <= s.cfg.maxMemory && k in s.items
    ensures SetMany(s, map[k := v], ttl, now).1 == None
    ensures SetMany(s, map[k := v], ttl, now).0.usage > s.cfg.maxMemory <==>
      s.cfg.size(k, v) > SizeAt(s, k) + (s.cfg.maxMemory - s.usage)
  {
    var entries := map[k := v];
    assert NewKeys(s, entries) == {} && entries - s.items.Keys == map[];
    assert Overwritten(s, entries) == map[k := s.items[k].value];
    BytesLess(s.cfg.size, entries, k);
    BytesLess(s.cfg.size, Overwritten(s, entries), k);
    assert entries - {k} == map[] && Overwritten(s, entries) - {k} == map[];
  }

  /** A batch whose overwritten keys do not grow. */
  ghost predicate NoGrowth<V>(s: Store<V>, entries: map<Key, V>) {
    forall k :: k in entries && k in s.items ==> s.cfg.size(k, entries[k]) <= SizeAt(s, k)
  }

  lemma {:induction false} BytesMonotone<V>(size: (Key, V) -> nat, a: map<Key, V>, b: map<Key, V>)
    requires a.Keys == b.Keys && forall k :: k in a ==> size(k, a[k]) <= size(k, b[k])
    ensures Bytes(size, a) <= Bytes(size, b)
    decreases |a|
  {
    if a != map[] {
      var k :| k in a;
      BytesLess(size, a, k);
      BytesLess(size, b, k);
      BytesMonotone(size, a - {k}, b - {k});
    } else {
      assert b == map[];
    }
  }

  ghost predicate GrowthFree<V>(cfg: StoreConfig<V>, trace: seq<Op<V>>) {
    trace != [] ==>
      var before, op := trace[..|trace| - 1], trace[|trace| - 1];
      GrowthFree(cfg, before) && (op.SetManyOp? ==> NoGrowth(Run(cfg, before), op.entries))
  }

  /** The memory limit holds over every run whose batches do not grow the keys they overwrite. */
  lemma {:induction false} MemoryLimitHolds<V>(cfg: StoreConfig<V>, trace: seq<Op<V>>)
    requires cfg.tracking && cfg.maxMemory > 0 && GrowthFree(cfg, trace)
    ensures StoredBytes(Run(cfg, trace)) <= Run(cfg, trace).usage <= cfg.maxMemory
  {
    UsageAccounts(cfg, trace);
    if trace == [] {
    } else {
      var before, op := trace[..|trace| - 1], trace[|trace| - 1];
      var s := Run(cfg, before);
      MemoryLimitHolds(cfg, before);
      if op.SetManyOp? && SetManyCheck(s, op.entries) == None {
        SetManyKeepsLimitIff(s, op.entries, op.ttl, op.now);
        BytesMonotone(cfg.size, Overwriting(s, op.entries), Overwritten(s, op.entries));
      }
    }
  }

  /** The guard, checked before a call, under which it keeps the limit: an accepted batch grows no more than it may. */
  ghost predicate LimitGuard<V>(s: Store<V>, op: Op<V>) {
    op.SetManyOp? && SetManyCheck(s, op.entries) == None ==>
      Bytes(s.cfg.size, Overwriting(s, op.entries)) - Bytes(s.cfg.size, Overwritten(s, op.entries))
        <= s.cfg.maxMemory - s.usage - Bytes(s.cfg.size, op.entries - s.items.Keys)
  }

  ghost predicate LimitGuarded<V>(cfg: StoreConfig<V>, trace: seq<Op<V>>) {
    trace != [] ==>
      && LimitGuarded(cfg, trace[..|trace| - 1])
      && LimitGuard(Run(cfg, trace[..|trace| - 1]), trace[|trace| - 1])
  }

  ghost predicate WithinLimitThroughout<V>(cfg: StoreConfig<V>, trace: seq<Op<V>>) {
    && Run(cfg, trace).usage <= cfg.maxMemory
    && (trace != [] ==> WithinLimitThroughout(cfg, trace[..|trace| - 1]))
  }

  lemma StepKeepsLimitIff<V>(s: Store<V>, op: Op<V>)
    requires Limited(s) && s.usage <= s.cfg.maxMemory
    ensures Step(s, op).usage <= s.cfg.maxMemory <==> LimitGuard(s, op)
  {
    if op.SetManyOp? && SetManyCheck(s, op.entries) == None {
      SetManyKeepsLimitIff(s, op.entries, op.ttl, op.now);
    }
  }

  /** The limit holds all along a run if and only if every call of it meets its guard. */
  lemma {:induction false} MemoryLimitIff<V>(cfg: StoreConfig<V>, trace: seq<Op<V>>)
    requires cfg.tracking && cfg.maxMemory > 0
    ensures WithinLimitThroughout(cfg, trace) <==> LimitGuarded(cfg, trace)
  {
    if trace == [] {
    } else {
      var before := trace[..|trace| - 1];
      MemoryLimitIff(cfg, before);
      if WithinLimitThroughout(cfg, before) {
        StepKeepsLimitIff(Run(cfg, before), trace[|trace| - 1]);
      }
    }
  }

  // ---------------------------------------------------------------- batch write and single writes

  /** Set over the entries in the given order; None as soon as one of them is refused. */
  function Fold<V>(s: Store<V>, entries: map<Key, V>, order: seq<Key>, ttl: int, now: int): Option<Store<V>>
    requires forall k :: k in order ==> k in entries
    decreases |order|
  {
    if order == [] then Some(s)
    else
      var (s', refused) := Set(s, order[0], entries[order[0]], ttl, now);
      if refused.Some? then None else Fold(s', entries, order[1..], ttl, now)
  }

  /** No memory limit applies, or every key is new (and an empty batch finds the usage within the limit). */
  ghost predicate Comparable<V>(s: Store<V>, entries: map<Key, V>) {
    Limited(s) ==>
      && (forall k :: k in entries ==> k !in s.items)
      && (entries == map[] ==> s.usage <= s.cfg.maxMemory)
  }

  /** Taking one key out of a batch and writing it first changes neither the verdict nor the result. */
  lemma PeelOne<V>(s: Store<V>, entries: map<Key, V>, k: Key, ttl: int, now: int)
    requires k in entries && WithinCapacity(s) && Comparable(s, entries)
    ensures var s' := Put(s, k, entries[k], ttl, now);
      && (SetManyCheck(s, entries) == None <==>
          SetCheck(s, k, entries[k]) == None && SetManyCheck(s', entries - {k}) == None)
      && PutMany(s, entries, ttl, now) == PutMany(s', entries - {k}, ttl, now)
  {
    PeelCapacity(s, entries, k, ttl, now);
    PeelMemory(s, entries, k, ttl, now);
    PeelResult(s, entries, k, ttl, now);
  }

  lemma PeelCapacity<V>(s: Store<V>, entries: map<Key, V>, k: Key, ttl: int, now: int)
    requires k in entries
    ensures var s' := Put(s, k, entries[k], ttl, now);
      |s'.items| + |NewKeys(s', entries - {k})| == |s.items| + |NewKeys(s, entries)|
    ensures |Put(s, k, entries[k], ttl, now).items| == if k in s.items then |s.items| else |s.items| + 1
    ensures |NewKeys(s, entries)| >= if k in s.items then 0 else 1
  {
    PutSize(s, k, entries[k], ttl, now);
    PeelNewKeys(s, entries, k, ttl, now);
    if k in s.items {
      assert NewKeys(s, entries) - {k} == NewKeys(s, entries);
    }
  }

  lemma PeelNewKeys<V>(s: Store<V>, entries: map<Key, V>, k: Key, ttl: int, now: int)
    requires k in entries
    ensures NewKeys(Put(s, k, entries[k], ttl, now), entries - {k}) == NewKeys(s, entries) - {k}
  {}

  lemma PeelMemory<V>(s: Store<V>, entries: map<Key, V>, k: Key, ttl: int, now: int)
    requires k in entries
    ensures k !in s.items ==>
      Bytes(s.cfg.size, entries - s.items.Keys) == s.cfg.size(k, entries[k])
        + Bytes(s.cfg.size, entries - {k} - Put(s, k, entries[k], ttl, now).items.Keys)
  {
    if k !in s.items {
      BytesLess(s.cfg.size, entries - s.items.Keys, k);
      assert entries - s.items.Keys - {k} == entries - {k} - Put(s, k, entries[k], ttl, now).items.Keys;
    }
  }

  lemma PeelResult<V>(s: Store<V>, entries: map<Key, V>, k: Key, ttl: int, now: int)
    requires k in entries
    ensures PutMany(s, entries, ttl, now) == PutMany(Put(s, k, entries[k], ttl, now), entries - {k}, ttl, now)
  {
    var s' := Put(s, k, entries[k], ttl, now);
    PeelItems(s, entries, k, ttl, now);
    BytesLess(s.cfg.size, entries, k);
    PeelOverwritten(s, entries, k, ttl, now);
    if k in s.items {
      BytesLess(s.cfg.size, Overwritten(s, entries), k);
    }
  }

  lemma PeelItems<V>(s: Store<V>, entries: map<Key, V>, k: Key, ttl: int, now: int)
    requires k in entries
    ensures PutMany(s, entries, ttl, now).items
      == PutMany(Put(s, k, entries[k], ttl, now), entries - {k}, ttl, now).items
  {}

  lemma PeelOverwritten<V>(s: Store<V>, entries: map<Key, V>, k: Key, ttl: int, now: int)
    requires k in entries
    ensures Overwritten(Put(s, k, entries[k], ttl, now), entries - {k}) == Overwritten(s, entries) - {k}
    ensures k !in s.items ==> Overwritten(s, entries) - {k} == Overwritten(s, entries)
    ensures k in s.items ==> k in Overwritten(s, entries) && Overwritten(s, entries)[k] == s.items[k].value
  {}

  /** The batch write as one value: the new store, or None when the batch is refused. */
  ghost function Batch<V>(s: Store<V>, entries: map<Key, V>, ttl: int, now: int): Option<Store<V>> {
    var (s', refused) := SetMany(s, entries, ttl, now);
    if refused.None? then Some(s') else None
  }

  lemma PeelBatch<V>(s: Store<V>, entries: map<Key, V>, k: Key, ttl: int, now: int)
    requires k in entries && WithinCapacity(s) && Comparable(s, entries)
    ensures Batch(s, entries, ttl, now) ==
      if SetCheck(s, k, entries[k]).Some? then None else Batch(Put(s, k, entries[k], ttl, now), entries - {k}, ttl, now)
  {
    PeelOne(s, entries, k, ttl, now);
  }

  /**
   * With no memory limit in force, or with new keys only, SetMany succeeds exactly when setting the
   * entries one by one succeeds, and both leave the same store, whatever the order.
   */
  lemma {:induction false} BatchIsFold<V>(s: Store<V>, entries: map<Key, V>, order: seq<Key>, ttl: int, now: int)
    requires Distinct(order) && (forall k :: k in order <==> k in entries)
    requires WithinCapacity(s) && Comparable(s, entries)
    ensures Fold(s, entries, order, ttl, now) == Batch(s, entries, ttl, now)
    decreases |order|
  {
    if order == [] {
      assert entries == map[];
      EmptyBatch(s, ttl, now);
    } else {
      var k := order[0];
      FoldOne(s, entries, order, ttl, now);
      PeelBatch(s, entries, k, ttl, now);
      if SetCheck(s, k, entries[k]) == None {
        PeelComparable(s, entries, k, ttl, now);
        PeelOrder(order, entries);
        BatchIsFold(Put(s, k, entries[k], ttl, now), entries - {k}, order[1..], ttl, now);
      }
    }
  }

  lemma FoldOne<V>(s: Store<V>, entries: map<Key, V>, order: seq<Key>, ttl: int, now: int)
    requires Distinct(order) && order != [] && forall k :: k in order <==> k in entries
    ensures forall k :: k in order[1..] ==> k in entries - {order[0]}
    ensures var k := order[0];
      Fold(s, entries, order, ttl, now) ==
        if SetCheck(s, k, entries[k]).Some? then None
        else Fold(Put(s, k, entries[k], ttl, now), entries - {k}, order[1..], ttl, now)
  {
    PeelOrder(order, entries);
    var k := order[0];
    if SetCheck(s, k, entries[k]) == None {
      FoldLocal(Put(s, k, entries[k], ttl, now), entries, entries - {k}, order[1..], ttl, now);
    }
  }

  lemma PeelOrder<V>(order: seq<Key>, entries: map<Key, V>)
    requires order != [] && Distinct(order) && forall k :: k in order <==> k in entries
    ensures Distinct(order[1..])
    ensures forall k :: k in order[1..] <==> k in entries - {order[0]}
  {}

  lemma PeelComparable<V>(s: Store<V>, entries: map<Key, V>, k: Key, ttl: int, now: int)
    requires k in entries && WithinCapacity(s) && Comparable(s, entries) && SetCheck(s, k, entries[k]) == None
    ensures WithinCapacity(Put(s, k, entries[k], ttl, now))
    ensures Comparable(Put(s, k, entries[k], ttl, now), entries - {k})
  {}

  lemma PutNothing<V>(s: Store<V>, ttl: int, now: int)
    ensures PutMany(s, map[], ttl, now) == s
  {}

  lemma EmptyBatch<V>(s: Store<V>, ttl: int, now: int)
    requires WithinCapacity(s) && Comparable(s, map[])
    ensures SetMany(s, map[], ttl, now) == (s, None)
  {
    var none: map<Key, V> := map[];
    assert NewKeys(s, none) == {} && none - s.items.Keys == map[];
    PutNothing(s, ttl, now);
  }

  lemma {:induction false} FoldLocal<V>(
    s: Store<V>, a: map<Key, V>, b: map<Key, V>, order: seq<Key>, ttl: int, now: int)
    requires forall k :: k in order ==> k in a && k in b && a[k] == b[k]
    ensures Fold(s, a, order, ttl, now) == Fold(s, b, order, ttl, now)
    decreases |order|
  {
    if order != [] && SetCheck(s, order[0], a[order[0]]) == None {
      FoldLocal(Put(s, order[0], a[order[0]], ttl, now), a, b, order[1..], ttl, now);
    }
  }

  // ---------------------------------------------------------------- the two verdicts under a memory limit

  ghost predicate HasRoom<V>(s: Store<V>, entries: map<Key, V>) {
    s.cfg.maxSize > 0 ==> |s.items| + |NewKeys(s, entries)| <= s.cfg.maxSize
  }

  /** Counting from usage, each value of the batch fits on top of what the earlier ones have left. */
  predicate FitsInOrder<V>(s: Store<V>, usage: int, entries: map<Key, V>, order: seq<Key>)
    requires forall k :: k in order ==> k in entries
    decreases |order|
  {
    if order == [] then true
    else
      var k := order[0];
      var bytes := s.cfg.size(k, entries[k]);
      usage + bytes <= s.cfg.maxMemory && FitsInOrder(s, usage + bytes - SizeAt(s, k), entries, order[1..])
  }

  /** Only the sizes stored under the ordered keys matter. */
  lemma {:induction false} FitsLocal<V>(
    s: Store<V>, t: Store<V>, usage: int, a: map<Key, V>, b: map<Key, V>, order: seq<Key>)
    requires s.cfg == t.cfg
    requires forall k :: k in order ==> k in a && k in b && a[k] == b[k] && SizeAt(s, k) == SizeAt(t, k)
    ensures FitsInOrder(s, usage, a, order) == FitsInOrder(t, usage, b, order)
    decreases |order|
  {
    if order == [] {
    } else {
      var k := order[0];
      FitsLocal(s, t, usage + s.cfg.size(k, a[k]) - SizeAt(s, k), a, b, order[1..]);
    }
  }

  /** The whole batch is written if there is room for its keys and, under a limit, for each value in its turn. */
  ghost function InOrder<V>(s: Store<V>, entries: map<Key, V>, order: seq<Key>, ttl: int, now: int): Option<Store<V>>
    requires forall k :: k in order ==> k in entries
  {
    if HasRoom(s, entries) && (Limited(s) ==> FitsInOrder(s, s.usage, entries, order))
    then Some(PutMany(s, entries, ttl, now)) else None
  }

  lemma PeelRoom<V>(s: Store<V>, entries: map<Key, V>, k: Key, ttl: int, now: int)
    requires k in entries && WithinCapacity(s)
    ensures HasRoom(s, entries) <==> HasRoom(Put(s, k, entries[k], ttl, now), entries - {k})
    ensures HasRoom(s, entries) ==> SetCheck(s, k, entries[k]) != Some(CapacityLimit)
    ensures SetCheck(s, k, entries[k]) != Some(CapacityLimit) ==> WithinCapacity(Put(s, k, entries[k], ttl, now))
  {
    PeelCapacity(s, entries, k, ttl, now);
  }

  /** Writing one key leaves the sizes stored under the others. */
  lemma PutSizes<V>(s: Store<V>, entries: map<Key, V>, k: Key, order: seq<Key>, ttl: int, now: int)
    requires k in entries && k !in order && forall j :: j in order ==> j in entries
    ensures var t := Put(s, k, entries[k], ttl, now);
      && t.cfg == s.cfg
      && forall j :: j in order ==>
           j in entries - {k} && entries[j] == (entries - {k})[j] && SizeAt(s, j) == SizeAt(t, j)
  {}

  lemma FitsUnfold<V>(s: Store<V>, usage: int, entries: map<Key, V>, k: Key, rest: seq<Key>)
    requires k in entries && forall j :: j in rest ==> j in entries
    ensures FitsInOrder(s, usage, entries, [k] + rest) <==>
      && usage + s.cfg.size(k, entries[k]) <= s.cfg.maxMemory
      && FitsInOrder(s, usage + s.cfg.size(k, entries[k]) - SizeAt(s, k), entries, rest)
  {
    assert ([k] + rest)[1..] == rest;
  }

  lemma PeelFits<V>(s: Store<V>, entries: map<Key, V>, k: Key, rest: seq<Key>, ttl: int, now: int)
    requires k in entries && k !in rest && (forall j :: j in rest ==> j in entries) && s.cfg.tracking
    ensures forall j :: j in rest ==> j in entries - {k}
    ensures var s' := Put(s, k, entries[k], ttl, now);
      FitsInOrder(s, s.usage, entries, [k] + rest) <==>
        s.usage + s.cfg.size(k, entries[k]) <= s.cfg.maxMemory && FitsInOrder(s', s'.usage, entries - {k}, rest)
  {
    var s' := Put(s, k, entries[k], ttl, now);
    PutSizes(s, entries, k, rest, ttl, now);
    FitsLocal(s, s', s'.usage, entries, entries - {k}, rest);
    FitsUnfold(s, s.usage, entries, k, rest);
  }

  lemma PeelInOrder<V>(s: Store<V>, entries: map<Key, V>, k: Key, rest: seq<Key>, ttl: int, now: int)
    requires k in entries && k !in rest && (forall j :: j in rest ==> j in entries) && WithinCapacity(s)
    ensures forall j :: j in rest ==> j in entries - {k}
    ensures InOrder(s, entries, [k] + rest, ttl, now) ==
      if SetCheck(s, k, entries[k]).Some? then None
      else InOrder(Put(s, k, entries[k], ttl, now), entries - {k}, rest, ttl, now)
  {
    PeelRoom(s, entries, k, ttl, now);
    PeelResult(s, entries, k, ttl, now);
    if Limited(s) {
      PeelFits(s, entries, k, rest, ttl, now);
    }
  }

  /** What single Sets in the given order come to, whatever the limits and the keys. */
  lemma {:induction false} FoldIs<V>(s: Store<V>, entries: map<Key, V>, order: seq<Key>, ttl: int, now: int)
    requires Distinct(order) && (forall k :: k in order <==> k in entries) && WithinCapacity(s)
    ensures Fold(s, entries, order, ttl, now) == InOrder(s, entries, order, ttl, now)
    decreases |order|
  {
    if order == [] {
      assert entries == map[] && NewKeys(s, entries) == {};
      PutNothing(s, ttl, now);
    } else {
      var k := order[0];
      FoldOne(s, entries, order, ttl, now);
      assert order == [k] + order[1..];
      PeelInOrder(s, entries, k, order[1..], ttl, now);
      if SetCheck(s, k, entries[k]) == None {
        PeelRoom(s, entries, k, ttl, now);
        PeelOrder(order, entries);
        FoldIs(Put(s, k, entries[k], ttl, now), entries - {k}, order[1..], ttl, now);
      }
    }
  }

  /**
   * SetMany and single Sets in a given order come to the same if and only if there is no room for the keys, or no
   * memory limit, or each value fits in its turn exactly when all values of new keys fit at once.
   */
  lemma VerdictsAgreeIff<V>(s: Store<V>, entries: map<Key, V>, order: seq<Key>, ttl: int, now: int)
    requires Distinct(order) && (forall k :: k in order <==> k in entries) && WithinCapacity(s)
    ensures Fold(s, entries, order, ttl, now) == Batch(s, entries, ttl, now) <==>
      !HasRoom(s, entries) || !Limited(s) ||
      (FitsInOrder(s, s.usage, entries, order) <==>
        s.usage + Bytes(s.cfg.size, entries - s.items.Keys) <= s.cfg.maxMemory)
  {
    FoldIs(s, entries, order, ttl, now);
  }

  /**
   * For one stored key: Set counts the new value on top of the old one, SetMany does not count it at all. They differ
   * exactly when the value does not fit on top of the current usage.
   */
  lemma OverwriteJudgedDifferently<V>(s: Store<V>, k: Key, v: V, ttl: int, now: int)
    requires Limited(s) && WithinCapacity(s) && s.usage <= s.cfg.maxMemory && k in s.items
    ensures SetMany(s, map[k := v], ttl, now).1 == None
    ensures Set(s, k, v, ttl, now).1 == None <==> s.usage + s.cfg.size(k, v) <= s.cfg.maxMemory
  {}
}
