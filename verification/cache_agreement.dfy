/** When cache and policy agree on the resident keys, and what breaks the agreement. */
module CacheAgreement {
  import opened Types
  import opened Ttl
  import opened CacheSpec
  import opened CacheCapacity
  import PolicySpec
  import StoreSpec

  /** The policy tracks exactly the resident keys, has room for all of them, and the size counter is right. */
  ghost predicate Agrees<V>(c: Cache<V>) {
    && c.policy.Some? && PolicySpec.Valid(c.policy.value)
    && 0 < c.maxSize <= c.policy.value.capacity
    && |c.items| <= c.maxSize
    && PolicySpec.Tracked(c.policy.value) == c.items.Keys
    && c.stats.size == |c.items|
  }

  /** A Set the store does not refuse, a Get that meets no expired entry, or a Delete. */
  predicate Quiet<V>(c: Cache<V>, op: Op<V>) {
    match op
    case SetOp(k, v, ttl, now) => var e := Set(c, k, v, ttl, now).1; e.None? || !e.value.StoreRefused?
    case GetOp(k, now) => k in c.items ==> Fresh(c.items[k].expiresAt, now)
    case DeleteOp(_) => true
    case _ => false
  }

  predicate QuietRun<V>(c: Cache<V>, trace: seq<Op<V>>) {
    trace != [] ==>
      QuietRun(c, trace[..|trace| - 1]) && Quiet(Run(c, trace[..|trace| - 1]), trace[|trace| - 1])
  }

  /** How many Sets of the run put in a key that was absent at the moment of insertion. */
  function Insertions<V>(c: Cache<V>, trace: seq<Op<V>>): nat {
    if trace == [] then 0
    else
      var before, op := trace[..|trace| - 1], trace[|trace| - 1];
      Insertions(c, before) + if Inserts(Run(c, before), op) then 1 else 0
  }

  predicate Inserts<V>(c: Cache<V>, op: Op<V>) {
    op.SetOp? && Set(c, op.key, op.value, op.ttl, op.now).1.None? && op.key !in MakeRoom(c).0.items
  }

  /** How many Deletes of the run found their key resident. */
  function EffectiveDeletes<V>(c: Cache<V>, trace: seq<Op<V>>): nat {
    if trace == [] then 0
    else
      var before, op := trace[..|trace| - 1], trace[|trace| - 1];
      EffectiveDeletes(c, before) + if op.DeleteOp? && op.key in Run(c, before).items then 1 else 0
  }

  /** In agreement the loop has to pop one key at most, and keeps cache and policy together. */
  lemma MakeRoomAgrees<V>(c: Cache<V>)
    requires Agrees(c)
    ensures var (c', room) := MakeRoom(c);
      && room && |c'.items| < c.maxSize
      && c'.policy.Some? && PolicySpec.Valid(c'.policy.value) && c'.policy.value.capacity == c.policy.value.capacity
      && PolicySpec.Tracked(c'.policy.value) == c'.items.Keys
      && c'.stats.evictions + |c'.items| == c.stats.evictions + |c.items|
  {
    if |c.items| == c.maxSize {
      var p := c.policy.value;
      PolicySpec.EvictTracks(p);
      assert c.items != map[];
      var (p', victim) := PolicySpec.Evict(p);
      var left := c.items - {victim.value};
      assert left.Keys == c.items.Keys - {victim.value};
      assert EvictLoop(left, c.maxSize, p') == Eviction(left, p', [], true);
      assert EvictLoop(c.items, c.maxSize, p) == Eviction(left, p', [victim.value], true);
    }
  }

  /** A policy with room takes a new key without dropping another. */
  lemma PolicyTakes(p: PolicySpec.Policy, keys: set<Key>, k: Key)
    requires PolicySpec.Valid(p) && PolicySpec.Tracked(p) == keys && |keys| < p.capacity
    ensures PolicySpec.Valid(PolicySpec.OnSet(p, k)) && PolicySpec.OnSet(p, k).capacity == p.capacity
    ensures PolicySpec.Tracked(PolicySpec.OnSet(p, k)) == keys + {k}
  {
    PolicySpec.SizeIsTracked(p);
    PolicySpec.SetTracks(p, k);
  }

  lemma InsertSize<V>(c: Cache<V>, k: Key, v: V, ttl: int, now: int)
    ensures var items := c.items[k := NewItem(c, v, ttl, now)];
      items.Keys == c.items.Keys + {k} && |items| == if k in c.items then |c.items| else |c.items| + 1
  {}

  lemma InsertAgrees<V>(c: Cache<V>, k: Key, v: V, ttl: int, now: int)
    requires |c.items| < c.maxSize && c.policy.Some? && PolicySpec.Valid(c.policy.value)
    requires c.maxSize <= c.policy.value.capacity && PolicySpec.Tracked(c.policy.value) == c.items.Keys
    requires Insert(c, k, v, ttl, now).1.None?
    ensures Agrees(Insert(c, k, v, ttl, now).0)
    ensures |Insert(c, k, v, ttl, now).0.items| == if k in c.items then |c.items| else |c.items| + 1
    ensures Insert(c, k, v, ttl, now).0.stats.evictions == c.stats.evictions
  {
    PolicyTakes(c.policy.value, c.items.Keys, k);
    InsertSize(c, k, v, ttl, now);
  }

  lemma DeleteAgrees<V>(c: Cache<V>, k: Key)
    requires Agrees(c)
    ensures Agrees(Delete(c, k))
    ensures |Delete(c, k).items| == if k in c.items then |c.items| - 1 else |c.items|
  {
    PolicySpec.DeleteTracks(c.policy.value, k);
    assert (c.items - {k}).Keys == c.items.Keys - {k};
  }

  lemma TouchAgrees<V>(c: Cache<V>, k: Key)
    requires Agrees(c)
    ensures Agrees(Touch(c, k))
    ensures Touch(c, k).items == c.items && Touch(c, k).stats.evictions == c.stats.evictions
  {
    PolicySpec.GetTracks(c.policy.value, k);
  }

  lemma GetAgrees<V>(c: Cache<V>, k: Key, now: int)
    requires Agrees(c) && Quiet(c, GetOp(k, now))
    ensures Agrees(Get(c, k, now).0)
    ensures Get(c, k, now).0.items == c.items && Get(c, k, now).0.stats.evictions == c.stats.evictions
  {
    TouchAgrees(c, k);
    if k !in c.items {
      assert c.items - {k} == c.items;
      if c.store.Some? {
        var c' := c.(store := Some(StoreSpec.Get(c.store.value, k, now).0));
        assert Agrees(c');
        TouchAgrees(c', k);
      }
    }
  }

  /**
   * In every run of Sets, Gets and Deletes without expiry or store refusal, resident and tracked keys stay
   * equal, the size counter is right, and every insertion is still resident, was evicted or was deleted.
   */
  lemma {:induction false} AgreementHolds<V>(c: Cache<V>, trace: seq<Op<V>>)
    requires Agrees(c) && QuietRun(c, trace)
    ensures Agrees(Run(c, trace))
    ensures |c.items| + c.stats.evictions + Insertions(c, trace)
      == |Run(c, trace).items| + Run(c, trace).stats.evictions + EffectiveDeletes(c, trace)
  {
    if trace == [] {
    } else {
      var before, op := trace[..|trace| - 1], trace[|trace| - 1];
      var s := Run(c, before);
      AgreementHolds(c, before);
      match op {
        case SetOp(k, v, ttl, now) => SetAgrees(s, k, v, ttl, now);
        case GetOp(k, now) => GetAgrees(s, k, now);
        case DeleteOp(k) => DeleteAgrees(s, k);
      }
    }
  }

  /** In agreement a Set never fails for capacity, and its insertion is balanced by its eviction. */
  lemma SetAgrees<V>(c: Cache<V>, k: Key, v: V, ttl: int, now: int)
    requires Agrees(c) && Quiet(c, SetOp(k, v, ttl, now))
    ensures Agrees(Set(c, k, v, ttl, now).0)
    ensures Set(c, k, v, ttl, now).1 != Some(CapacityReached)
    ensures var c' := Set(c, k, v, ttl, now).0;
      c'.stats.evictions + |c'.items|
        == c.stats.evictions + |c.items| + if Inserts(c, SetOp(k, v, ttl, now)) then 1 else 0
  {
    MakeRoomAgrees(c);
    if Validate(ttl, c.ttl).None? {
      InsertAgrees(MakeRoom(c).0, k, v, ttl, now);
    }
  }

  /** From a new cache: what went in is resident, was evicted, or was deleted. */
  lemma InsertionsBalance<V>(
    maxSize: int, ttl: Config, p: PolicySpec.Policy, store: Option<StoreSpec.Store<V>>, trace: seq<Op<V>>)
    requires 0 < maxSize <= p.capacity && PolicySpec.Valid(p) && PolicySpec.Tracked(p) == {}
    requires QuietRun(New(maxSize, ttl, Some(p), store), trace)
    ensures var c := New(maxSize, ttl, Some(p), store);
      var r := Run(c, trace);
      && r.policy.Some? && PolicySpec.Tracked(r.policy.value) == r.items.Keys && r.stats.size == |r.items|
      && Insertions(c, trace) == |r.items| + r.stats.evictions + EffectiveDeletes(c, trace)
  {
    AgreementHolds(New(maxSize, ttl, Some(p), store), trace);
  }

  // ---------------------------------------------------------------- what breaks the agreement

  /** The guard, checked before a call, under which the call keeps cache and policy together. */
  predicate Guard<V>(c: Cache<V>, op: Op<V>) {
    match op
    case SetOp(k, v, ttl, now) =>
      Validate(ttl, c.ttl).None? && StoreSet(c.store, k, v, Normalize(ttl, c.ttl), now).1.Some? ==>
        k in c.items && |c.items| < c.maxSize
    case GetOp(k, now) => k in c.items ==> Fresh(c.items[k].expiresAt, now)
    case DeleteOp(_) => true
    case ClearOp => c.items == map[]
    case SweepOp(ks, now) => Stale(c, ks, now) == {}
    case StoreSweepOp(_) => true
  }

  /** Calls that do not tell the policy what they do to the entries break the agreement, and only those. */
  lemma StepKeepsAgreementIff<V>(c: Cache<V>, op: Op<V>)
    requires Agrees(c)
    ensures Agrees(Step(c, op)) <==> Guard(c, op)
  {
    match op
    case SetOp(k, v, ttl, now) => SetKeepsAgreementIff(c, k, v, ttl, now);
    case GetOp(k, now) => GetKeepsAgreementIff(c, k, now);
    case DeleteOp(k) => DeleteAgrees(c, k);
    case ClearOp => ClearKeepsAgreementIff(c);
    case SweepOp(ks, now) => SweepKeepsAgreementIff(c, ks, now);
    case StoreSweepOp(now) =>
  }

  ghost predicate Guarded<V>(c: Cache<V>, trace: seq<Op<V>>) {
    trace != [] ==>
      Guarded(c, trace[..|trace| - 1]) && Guard(Run(c, trace[..|trace| - 1]), trace[|trace| - 1])
  }

  ghost predicate AgreesThroughout<V>(c: Cache<V>, trace: seq<Op<V>>) {
    Agrees(Run(c, trace)) && (trace != [] ==> AgreesThroughout(c, trace[..|trace| - 1]))
  }

  /** Cache and policy agree all along a run if and only if every call of it meets its guard. */
  lemma {:induction false} AgreementIff<V>(c: Cache<V>, trace: seq<Op<V>>)
    requires Agrees(c)
    ensures AgreesThroughout(c, trace) <==> Guarded(c, trace)
  {
    if trace == [] {
    } else {
      var before := trace[..|trace| - 1];
      AgreementIff(c, before);
      if AgreesThroughout(c, before) {
        StepKeepsAgreementIff(Run(c, before), trace[|trace| - 1]);
      }
    }
  }

  /**
   * A Set that the store refuses has written the entry, and may have evicted another, without an OnSet:
   * agreement survives it only if the key was resident already and nothing had to be evicted.
   */
  lemma SetKeepsAgreementIff<V>(c: Cache<V>, k: Key, v: V, ttl: int, now: int)
    requires Agrees(c)
    ensures Agrees(Set(c, k, v, ttl, now).0) <==> Guard(c, SetOp(k, v, ttl, now))
  {
    MakeRoomAgrees(c);
    MakeRoomStore(c);
    if Set(c, k, v, ttl, now).1.None? || Validate(ttl, c.ttl).Some? {
      SetAgrees(c, k, v, ttl, now);
    } else {
      RefusedInsert(c, MakeRoom(c).0, k, v, ttl, now);
    }
  }

  /** Making room does not touch the store, and evicts only when the cache is full. */
  lemma MakeRoomStore<V>(c: Cache<V>)
    ensures MakeRoom(c).0.store == c.store && MakeRoom(c).0.ttl == c.ttl && MakeRoom(c).0.maxSize == c.maxSize
    ensures MakeRoom(c).0.stats.size == c.stats.size
    ensures |c.items| < c.maxSize ==> MakeRoom(c).0 == c
  {}

  lemma RefusedInsert<V>(c: Cache<V>, r: Cache<V>, k: Key, v: V, ttl: int, now: int)
    requires Agrees(c) && r.policy.Some? && PolicySpec.Tracked(r.policy.value) == r.items.Keys
    requires |r.items| < c.maxSize && r.stats.size == c.stats.size && (|c.items| < c.maxSize ==> r == c)
    requires Insert(r, k, v, ttl, now).1.Some?
    ensures Agrees(Insert(r, k, v, ttl, now).0) <==> k in c.items && |c.items| < c.maxSize
  {}

  /** A Get that drops an expired entry does not tell the policy. */
  lemma GetKeepsAgreementIff<V>(c: Cache<V>, k: Key, now: int)
    requires Agrees(c)
    ensures Agrees(Get(c, k, now).0) <==> Guard(c, GetOp(k, now))
  {
    if Guard(c, GetOp(k, now)) {
      GetAgrees(c, k, now);
    } else {
      assert k !in Get(c, k, now).0.items;
      GetTracksAll(c, k, now);
    }
  }

  lemma GetTracksAll<V>(c: Cache<V>, k: Key, now: int)
    requires Agrees(c)
    ensures var p := Get(c, k, now).0.policy; p.Some? && PolicySpec.Tracked(p.value) == c.items.Keys
  {
    PolicySpec.GetTracks(c.policy.value, k);
  }

  /** Clear does not tell the policy: agreement survives it only if nothing was resident. */
  lemma ClearKeepsAgreementIff<V>(c: Cache<V>)
    requires Agrees(c)
    ensures Agrees(Clear(c)) <==> c.items == map[]
  {}

  /** Neither does the cleanup tick: agreement survives a chunk only if the chunk removes nothing. */
  lemma SweepKeepsAgreementIff<V>(c: Cache<V>, ks: set<Key>, now: int)
    requires Agrees(c)
    ensures Agrees(Sweep(c, ks, now)) <==> Stale(c, ks, now) == {}
  {}
}
