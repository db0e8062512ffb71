/** The memory tier over a memory store answers every Get as one plain expiring map would. */
module CacheTransparency {
  import opened Types
  import opened Ttl
  import opened CacheSpec
  import CleanupSpec
  import PolicySpec
  import StoreSpec

  // ---------------------------------------------------------------- the plain map

  /** The plain map after a call: it takes the Sets the cache accepts, Deletes and Clears, and nothing else. */
  function RefStep<V>(m: map<Key, Item<V>>, c: Cache<V>, op: Op<V>): map<Key, Item<V>> {
    match op
    case SetOp(k, v, ttl, now) => if Set(c, k, v, ttl, now).1.None? then m[k := NewItem(c, v, ttl, now)] else m
    case DeleteOp(k) => m - {k}
    case ClearOp => map[]
    case _ => m
  }

  function RefRun<V>(c: Cache<V>, trace: seq<Op<V>>): map<Key, Item<V>> {
    if trace == [] then map[]
    else
      var before := trace[..|trace| - 1];
      RefStep(RefRun(c, before), Run(c, before), trace[|trace| - 1])
  }

  function RefGet<V>(m: map<Key, Item<V>>, k: Key, now: int): Option<V> {
    if k in m && !IsExpired(m[k].expiresAt, now) then Some(m[k].value) else None
  }

  // ---------------------------------------------------------------- the clock and the store's verdicts

  function TimeOf<V>(op: Op<V>, before: int): int {
    match op
    case SetOp(_, _, _, now) => now
    case GetOp(_, now) => now
    case StoreSweepOp(now) => now
    case _ => before
  }

  /**
   * The clock reading of the latest call that read it. A cleanup chunk does not: it keeps the time at which its tick
   * began, which other calls may have left behind.
   */
  function Clock<V>(start: int, trace: seq<Op<V>>): int {
    if trace == [] then start else TimeOf(trace[|trace| - 1], Clock(start, trace[..|trace| - 1]))
  }

  predicate Monotone<V>(start: int, trace: seq<Op<V>>) {
    trace != [] ==>
      && Monotone(start, trace[..|trace| - 1])
      && Clock(start, trace[..|trace| - 1]) <= Clock(start, trace)
  }

  /** The Set finds a valid TTL and room in memory, and the store turns it down. */
  predicate Refuses<V>(c: Cache<V>, op: Op<V>) {
    && op.SetOp? && Validate(op.ttl, c.ttl).None? && MakeRoom(c).1
    && c.store.Some? && StoreSpec.SetCheck(c.store.value, op.key, op.value).Some?
  }

  lemma RefusesIff<V>(c: Cache<V>, k: Key, v: V, ttl: int, now: int)
    ensures Refuses(c, SetOp(k, v, ttl, now)) <==>
      var e := Set(c, k, v, ttl, now).1; e.Some? && e.value.StoreRefused?
  {
    assert MakeRoom(c).0.store == c.store;
  }

  /** An entry that expires at a is gone, for the memory tier, by the time one that expires at b is for the store. */
  predicate NoLonger(a: Expiry, b: Expiry) {
    b.Never? || (a.At? && a.time <= b.time + 1)
  }

  /** The store holds the value already, for as long as the Set would keep it. */
  ghost predicate Repeats<V>(c: Cache<V>, op: Op<V>)
    requires op.SetOp? && c.store.Some?
  {
    var stored := c.store.value.items;
    && op.key in stored && stored[op.key].value == op.value
    && NoLonger(NewItem(c, op.value, op.ttl, op.now).expiresAt, stored[op.key].expires)
  }

  /** The guard, checked before a call, under which both tiers go on answering as the plain map. */
  ghost predicate Guard<V>(c: Cache<V>, op: Op<V>) {
    Refuses(c, op) ==> Repeats(c, op)
  }

  ghost predicate Guarded<V>(c: Cache<V>, trace: seq<Op<V>>) {
    trace != [] ==>
      Guarded(c, trace[..|trace| - 1]) && Guard(Run(c, trace[..|trace| - 1]), trace[|trace| - 1])
  }

  // ---------------------------------------------------------------- coupling

  /**
   * The store holds entries of the plain map only and lacks none that is still alive; the memory tier holds values of
   * the plain map, none for longer than the map does.
   */
  ghost predicate Coupled<V>(c: Cache<V>, m: map<Key, Item<V>>, now: int) {
    && c.store.Some? && c.store.value.cfg.ttl == c.ttl
    && (forall k :: k in c.items ==> k in m && Covers(m[k], c.items[k]))
    && (forall k :: k in c.store.value.items ==> k in m && Matches(c.store.value.items[k], m[k]))
    && (forall k :: k in m ==> k in c.store.value.items || IsExpired(m[k].expiresAt, now))
  }

  ghost predicate Covers<V>(i: Item<V>, held: Item<V>) {
    held.value == i.value && NoLonger(held.expiresAt, i.expiresAt)
  }

  ghost predicate Matches<V>(e: StoreSpec.Entry<V>, i: Item<V>) {
    e.value == i.value && e.expires == i.expiresAt
  }

  lemma GetAnswers<V>(c: Cache<V>, m: map<Key, Item<V>>, k: Key, now: int)
    requires Coupled(c, m, now)
    ensures Get(c, k, now).1 == RefGet(m, k, now)
    ensures Coupled(Get(c, k, now).0, m, now)
  {}

  lemma MakeRoomCoupled<V>(c: Cache<V>, m: map<Key, Item<V>>, now: int)
    requires Coupled(c, m, now)
    ensures Coupled(MakeRoom(c).0, m, now) && MakeRoom(c).0.ttl == c.ttl
  {
    if c.policy.Some? {
      EvictLoopShrinks(c.items, c.maxSize, c.policy.value);
    }
  }

  /** What the store writes for a validated Set is what the memory tier holds. */
  lemma StoreWrites<V>(c: Cache<V>, k: Key, v: V, ttl: int, now: int)
    requires c.store.Some? && c.store.value.cfg.ttl == c.ttl && Validate(ttl, c.ttl).None?
    requires Insert(c, k, v, ttl, now).1.None?
    ensures var c' := Insert(c, k, v, ttl, now).0;
      && c'.store.Some? && c'.store.value.cfg == c.store.value.cfg
      && c'.store.value.items == c.store.value.items[k := StoreSpec.NewEntry(c.store.value, v, ttl, now)]
      && Matches(StoreSpec.NewEntry(c.store.value, v, ttl, now), NewItem(c, v, ttl, now))
  {}

  lemma BothTiers<V>(
    c: Cache<V>, c': Cache<V>, m: map<Key, Item<V>>, k: Key, e: StoreSpec.Entry<V>, i: Item<V>, now: int)
    requires Coupled(c, m, now) && Matches(e, i)
    requires c'.ttl == c.ttl && c'.items == c.items[k := i]
    requires c'.store.Some? && c'.store.value.cfg == c.store.value.cfg
    requires c'.store.value.items == c.store.value.items[k := e]
    ensures Coupled(c', m[k := i], now)
  {}

  lemma InsertCoupled<V>(c: Cache<V>, m: map<Key, Item<V>>, k: Key, v: V, ttl: int, now: int)
    requires Coupled(c, m, now) && Validate(ttl, c.ttl).None? && Insert(c, k, v, ttl, now).1.None?
    ensures Coupled(Insert(c, k, v, ttl, now).0, m[k := NewItem(c, v, ttl, now)], now)
  {
    StoreWrites(c, k, v, ttl, now);
    BothTiers(c, Insert(c, k, v, ttl, now).0, m, k, StoreSpec.NewEntry(c.store.value, v, ttl, now),
              NewItem(c, v, ttl, now), now);
  }

  lemma StepCoupled<V>(c: Cache<V>, m: map<Key, Item<V>>, op: Op<V>, now: int)
    requires Coupled(c, m, now) && !Refuses(c, op) && now <= TimeOf(op, now)
    ensures Coupled(Step(c, op), RefStep(m, c, op), TimeOf(op, now))
  {
    var now' := TimeOf(op, now);
    assert Coupled(c, m, now');
    match op
    case SetOp(k, v, ttl, _) =>
      MakeRoomCoupled(c, m, now');
      RefusesIff(c, k, v, ttl, now');
      if Set(c, k, v, ttl, now').1.None? {
        InsertCoupled(MakeRoom(c).0, m, k, v, ttl, now');
      }
    case GetOp(k, _) => GetAnswers(c, m, k, now');
    case DeleteOp(k) =>
    case ClearOp =>
    case SweepOp(ks, _) =>
    case StoreSweepOp(_) =>
  }

  // ---------------------------------------------------------------- a Set that the store refuses

  /** It leaves the entry in memory, and the store and the plain map as they were. */
  lemma RefusedSet<V>(c: Cache<V>, m: map<Key, Item<V>>, k: Key, v: V, ttl: int, now: int)
    requires Refuses(c, SetOp(k, v, ttl, now))
    ensures var c' := Set(c, k, v, ttl, now).0;
      && c'.items == MakeRoom(c).0.items[k := NewItem(c, v, ttl, now)]
      && c'.store == c.store && c'.ttl == c.ttl
      && RefStep(m, c, SetOp(k, v, ttl, now)) == m
      && NewItem(c, v, ttl, now) == Item(v, if ttl == 0 then Never else At(now + ttl))
  {
    ValidatedIsNormal(ttl, c.ttl);
  }

  /** In any state, not only a coupled one: the Set has failed, yet its value is read back while the entry lasts. */
  lemma RefusedSetIsVisible<V>(c: Cache<V>, k: Key, v: V, ttl: int, now: int, later: int)
    requires Refuses(c, SetOp(k, v, ttl, now))
    ensures Get(Set(c, k, v, ttl, now).0, k, later).1 == Some(v) || (ttl != 0 && later >= now + ttl)
  {
    RefusedSet(c, map[], k, v, ttl, now);
  }

  /** While the entry lasts its value is read back, though the Set has failed; after that the plain map's answer is. */
  lemma RefusedSetAnswers<V>(c: Cache<V>, m: map<Key, Item<V>>, k: Key, v: V, ttl: int, now: int, later: int)
    requires Coupled(c, m, now) && Refuses(c, SetOp(k, v, ttl, now)) && now <= later
    ensures Get(Set(c, k, v, ttl, now).0, k, later).1 ==
      if ttl == 0 || later < now + ttl then Some(v) else RefGet(m, k, later)
  {
    RefusedSet(c, m, k, v, ttl, now);
    assert Coupled(c, m, later);
  }

  lemma RefusedSetCoupledIff<V>(c: Cache<V>, m: map<Key, Item<V>>, k: Key, v: V, ttl: int, now: int)
    requires Coupled(c, m, now) && Refuses(c, SetOp(k, v, ttl, now))
    ensures Coupled(Set(c, k, v, ttl, now).0, m, now) <==> Repeats(c, SetOp(k, v, ttl, now))
  {
    RefusedSet(c, m, k, v, ttl, now);
    MakeRoomCoupled(c, m, now);
    var c' := Set(c, k, v, ttl, now).0;
    assert k in c'.items && c'.items[k] == NewItem(c, v, ttl, now);
  }

  /** Without Repeats there is a moment at which the plain map answers otherwise. */
  lemma RefusedSetShows<V>(c: Cache<V>, m: map<Key, Item<V>>, k: Key, v: V, ttl: int, now: int) returns (later: int)
    requires Coupled(c, m, now) && Refuses(c, SetOp(k, v, ttl, now)) && !Repeats(c, SetOp(k, v, ttl, now))
    ensures now <= later && Get(Set(c, k, v, ttl, now).0, k, later).1 != RefGet(m, k, later)
  {
    RefusedSet(c, m, k, v, ttl, now);
    var lasts := k in m && m[k].value == v && !IsExpired(m[k].expiresAt, now);
    later := if !lasts then now else if m[k].expiresAt.At? then m[k].expiresAt.time + 1 else now;
    RefusedSetAnswers(c, m, k, v, ttl, now, later);
  }

  // ---------------------------------------------------------------- every run

  /** Now and later, every Get answers as the plain map. */
  ghost predicate Transparent<V>(c: Cache<V>, m: map<Key, Item<V>>, now: int) {
    forall k, later :: now <= later ==> Get(c, k, later).1 == RefGet(m, k, later)
  }

  lemma CoupledIsTransparent<V>(c: Cache<V>, m: map<Key, Item<V>>, now: int)
    requires Coupled(c, m, now)
    ensures Transparent(c, m, now)
  {
    forall k, later | now <= later
      ensures Get(c, k, later).1 == RefGet(m, k, later)
    {
      assert Coupled(c, m, later);
      GetAnswers(c, m, k, later);
    }
  }

  /** From coupled tiers a call leaves every later Get right if and only if the guard holds before it. */
  lemma StepTransparentIff<V>(c: Cache<V>, m: map<Key, Item<V>>, op: Op<V>, now: int)
    requires Coupled(c, m, now) && now <= TimeOf(op, now)
    ensures var c', m', now' := Step(c, op), RefStep(m, c, op), TimeOf(op, now);
      && (Transparent(c', m', now') <==> Guard(c, op))
      && (Guard(c, op) ==> Coupled(c', m', now'))
  {
    var now' := TimeOf(op, now);
    if !Refuses(c, op) {
      StepCoupled(c, m, op, now);
      CoupledIsTransparent(Step(c, op), RefStep(m, c, op), now');
    } else {
      assert Coupled(c, m, now');
      RefusedSet(c, m, op.key, op.value, op.ttl, now');
      RefusedSetCoupledIff(c, m, op.key, op.value, op.ttl, now');
      if Repeats(c, op) {
        CoupledIsTransparent(Step(c, op), m, now');
      } else {
        var later := RefusedSetShows(c, m, op.key, op.value, op.ttl, now');
      }
    }
  }

  /** Every Get is right after every call of the trace. */
  ghost predicate TransparentThroughout<V>(c: Cache<V>, trace: seq<Op<V>>, start: int) {
    && Transparent(Run(c, trace), RefRun(c, trace), Clock(start, trace))
    && (trace != [] ==> TransparentThroughout(c, trace[..|trace| - 1], start))
  }

  /** The tiers answer as the plain map all along a run if and only if every call of it meets its guard. */
  lemma {:induction false} TransparencyIff<V>(c: Cache<V>, trace: seq<Op<V>>, start: int)
    requires Coupled(c, map[], start) && Monotone(start, trace)
    ensures TransparentThroughout(c, trace, start) <==> Guarded(c, trace)
    ensures Guarded(c, trace) ==> Coupled(Run(c, trace), RefRun(c, trace), Clock(start, trace))
  {
    if trace == [] {
      CoupledIsTransparent(c, map[], start);
    } else {
      var before := trace[..|trace| - 1];
      TransparencyIff(c, before, start);
      if Guarded(c, before) {
        StepTransparentIff(Run(c, before), RefRun(c, before), trace[|trace| - 1], Clock(start, before));
      }
    }
  }

  /**
   * Transparency: whatever was evicted, swept or lazily expired in either tier, a Get on a new cache over an
   * empty memory store with the same TTL settings returns exactly what the plain expiring map returns.
   */
  lemma TierTransparent<V>(
    maxSize: int, ttl: Config, policy: Option<PolicySpec.Policy>, cfg: StoreSpec.StoreConfig<V>,
    trace: seq<Op<V>>, start: int, k: Key, now: int)
    requires cfg.ttl == ttl
    requires var c := New(maxSize, ttl, policy, Some(StoreSpec.Empty(cfg)));
      Monotone(start, trace) && Guarded(c, trace) && Clock(start, trace) <= now
    ensures var c := New(maxSize, ttl, policy, Some(StoreSpec.Empty(cfg)));
      Get(Run(c, trace), k, now).1 == RefGet(RefRun(c, trace), k, now)
  {
    var c := New(maxSize, ttl, policy, Some(StoreSpec.Empty(cfg)));
    TransparencyIff(c, trace, start);
    CoupledIsTransparent(Run(c, trace), RefRun(c, trace), Clock(start, trace));
  }

  lemma {:induction false} RunAppend<V>(c: Cache<V>, a: seq<Op<V>>, b: seq<Op<V>>)
    ensures Run(c, a + b) == Run(Run(c, a), b)
  {
    if b == [] {
      assert a + b == a;
    } else {
      RunAppend(c, a, b[..|b| - 1]);
      assert (a + b)[..|a + b| - 1] == a + b[..|b| - 1];
    }
  }

  /** It holds between the chunks of a cleanup tick, whatever calls come between them and however late they are. */
  lemma TickTransparent<V>(
    c: Cache<V>, trace: seq<Op<V>>, start: int, keys: seq<Key>, now: int, turns: seq<CleanupSpec.Turn<V>>)
    requires Coupled(c, map[], start)
    requires var all := trace + CleanupSpec.Trace(CleanupSpec.Tick(Run(c, trace), keys, 0, now), turns);
      Monotone(start, all) && Guarded(c, all)
    ensures var t := CleanupSpec.Tick(Run(c, trace), keys, 0, now);
      var all := trace + CleanupSpec.Trace(t, turns);
      Transparent(CleanupSpec.Play(t, turns).cache, RefRun(c, all), Clock(start, all))
  {
    var t := CleanupSpec.Tick(Run(c, trace), keys, 0, now);
    var calls := CleanupSpec.Trace(t, turns);
    CleanupSpec.PlayIsRun(t, turns);
    RunAppend(c, trace, calls);
    TransparencyIff(c, trace + calls, start);
    CoupledIsTransparent(Run(c, trace + calls), RefRun(c, trace + calls), Clock(start, trace + calls));
  }

  /**
   * Why a store is needed: without one, a cleanup chunk changes what Get answers for a key exactly when it
   * visits the key and the key was set never to expire.
   */
  lemma SweepWithoutStoreIff<V>(c: Cache<V>, ks: set<Key>, now: int, k: Key, later: int)
    requires c.store.None? && now <= later
    ensures Get(Sweep(c, ks, now), k, later).1 == Get(c, k, later).1
      <==> !(k in ks && k in c.items && c.items[k].expiresAt.Never?)
  {}
}
