/** The cache: an in-memory tier with an eviction policy over an optional backing store. */
module CacheSpec {
  import opened Types
  import opened Ttl
  import PolicySpec
  import StoreSpec

  datatype Item<V> = Item(value: V, expiresAt: Expiry)

  datatype Stats = Stats(
    hits: int, misses: int, sets: int, deletes: int, clears: int, errors: int, size: int, evictions: int)

  datatype Cache<!V> = Cache(
    maxSize: int,
    ttl: Config,
    items: map<Key, Item<V>>,
    policy: Option<PolicySpec.Policy>,
    store: Option<StoreSpec.Store<V>>,
    stats: Stats)

  datatype SetError = BadTTL(ttlError: TtlError) | CapacityReached | StoreRefused(storeError: StoreSpec.StoreError)

  datatype EventKind = SetEvent | GetEvent | DeleteEvent | EvictionEvent | ExpirationEvent

  /** The value None stands for the zero value that a Delete of an absent key reports. */
  datatype Event<V> = Event(kind: EventKind, key: Key, value: Option<V>)

  function New<V>(
    maxSize: int, ttl: Config, policy: Option<PolicySpec.Policy>, store: Option<StoreSpec.Store<V>>): Cache<V>
  {
    Cache(maxSize, ttl, map[], policy, store, Stats(0, 0, 0, 0, 0, 0, 0, 0))
  }

  // ---------------------------------------------------------------- Get

  /** The test of GetWithContext: a zero expiry never expires, and an entry expires at its very expiry time. */
  predicate Fresh(e: Expiry, now: int) {
    e.Never? || now < e.time
  }

  function Touch<V>(c: Cache<V>, k: Key): Cache<V> {
    var policy := if c.policy.Some? then Some(PolicySpec.OnGet(c.policy.value, k)) else None;
    c.(policy := policy, stats := c.stats.(hits := c.stats.hits + 1))
  }

  function Miss<V>(c: Cache<V>): Cache<V> {
    c.(stats := c.stats.(misses := c.stats.misses + 1))
  }

  /** What Get does once the memory tier has nothing to offer. */
  function GetFromStore<V>(c: Cache<V>, k: Key, now: int): (Cache<V>, Option<V>) {
    if c.store.None? then (Miss(c), None)
    else
      var (store, value) := StoreSpec.Get(c.store.value, k, now);
      var c' := c.(store := Some(store));
      if value.Some? then (Touch(c', k), value) else (Miss(c'), None)
  }

  function Get<V>(c: Cache<V>, k: Key, now: int): (Cache<V>, Option<V>) {
    if k in c.items && Fresh(c.items[k].expiresAt, now) then (Touch(c, k), Some(c.items[k].value))
    else GetFromStore(c.(items := c.items - {k}), k, now)
  }

  /** A hit in either tier is announced; the removal of an expired entry is not. */
  function GetEvents<V>(c: Cache<V>, k: Key, now: int): seq<Event<V>> {
    var found := Get(c, k, now).1;
    if found.Some? then [Event(GetEvent, k, found)] else []
  }

  // ---------------------------------------------------------------- Set

  datatype Eviction<V> = Eviction(items: map<Key, Item<V>>, policy: PolicySpec.Policy, popped: seq<Key>, made: bool)

  /** The eviction loop: pop keys from the policy until there is room or nothing is left to pop. */
  function EvictLoop<V>(items: map<Key, Item<V>>, maxSize: int, p: PolicySpec.Policy): Eviction<V>
    decreases PolicySpec.Size(p)
  {
    if |items| < maxSize then Eviction(items, p, [], true)
    else
      var (p', victim) := PolicySpec.Evict(p);
      if victim.None? then Eviction(items, p', [], false)
      else
        var r := EvictLoop(items - {victim.value}, maxSize, p');
        r.(popped := [victim.value] + r.popped)
  }

  /** The loop only removes entries. */
  lemma {:induction false} EvictLoopShrinks<V>(items: map<Key, Item<V>>, maxSize: int, p: PolicySpec.Policy)
    ensures var left := EvictLoop(items, maxSize, p).items;
      forall k :: k in left ==> k in items && left[k] == items[k]
    decreases PolicySpec.Size(p)
  {
    var (p', victim) := PolicySpec.Evict(p);
    if |items| >= maxSize && victim.Some? {
      EvictLoopShrinks(items - {victim.value}, maxSize, p');
    }
  }

  /** The cache after the loop has run, and whether there is room now. */
  function MakeRoom<V>(c: Cache<V>): (Cache<V>, bool) {
    if c.maxSize <= 0 || |c.items| < c.maxSize then (c, true)
    else if c.policy.None? then (c, false)
    else
      var r := EvictLoop(c.items, c.maxSize, c.policy.value);
      (c.(items := r.items, policy := Some(r.policy),
          stats := c.stats.(evictions := c.stats.evictions + |r.popped|)), r.made)
  }

  /** The keys the loop pops, each reported in an eviction event. */
  function PoppedKeys<V>(c: Cache<V>): seq<Key> {
    if c.maxSize <= 0 || |c.items| < c.maxSize || c.policy.None? then []
    else EvictLoop(c.items, c.maxSize, c.policy.value).popped
  }

  function NewItem<V>(c: Cache<V>, v: V, ttl: int, now: int): Item<V> {
    Item(v, ExpirationTime(Normalize(ttl, c.ttl), c.ttl, now))
  }

  function StoreSet<V>(store: Option<StoreSpec.Store<V>>, k: Key, v: V, ttl: int, now: int)
    : (Option<StoreSpec.Store<V>>, Option<StoreSpec.StoreError>)
  {
    if store.None? then (None, None)
    else
      var (s, e) := StoreSpec.Set(store.value, k, v, ttl, now);
      (Some(s), e)
  }

  function StoreDelete<V>(store: Option<StoreSpec.Store<V>>, k: Key): Option<StoreSpec.Store<V>> {
    if store.Some? then Some(StoreSpec.Delete(store.value, k)) else None
  }

  function PolicyOnSet(policy: Option<PolicySpec.Policy>, k: Key): Option<PolicySpec.Policy> {
    if policy.Some? then Some(PolicySpec.OnSet(policy.value, k)) else None
  }

  function PolicyOnDelete(policy: Option<PolicySpec.Policy>, k: Key): Option<PolicySpec.Policy> {
    if policy.Some? then Some(PolicySpec.OnDelete(policy.value, k)) else None
  }

  /** Storing an entry once there is room: memory, then the store, then the policy. */
  function Insert<V>(c: Cache<V>, k: Key, v: V, ttl: int, now: int): (Cache<V>, Option<SetError>) {
    var c1 := c.(items := c.items[k := NewItem(c, v, ttl, now)]);
    var (store, refused) := StoreSet(c.store, k, v, Normalize(ttl, c.ttl), now);
    var c2 := c1.(store := store);
    if refused.Some? then (c2, Some(StoreRefused(refused.value)))
    else
      (c2.(policy := PolicyOnSet(c.policy, k), stats := c.stats.(sets := c.stats.sets + 1, size := |c2.items|)), None)
  }

  function Set<V>(c: Cache<V>, k: Key, v: V, ttl: int, now: int): (Cache<V>, Option<SetError>) {
    if Validate(ttl, c.ttl).Some? then
      (c.(stats := c.stats.(errors := c.stats.errors + 1)), Some(BadTTL(Validate(ttl, c.ttl).value)))
    else
      var (c', room) := MakeRoom(c);
      if !room then (c', Some(CapacityReached)) else Insert(c', k, v, ttl, now)
  }

  /** After a Set every entry is an old one or carries the value that was set. */
  lemma SetItemsOrigin<V>(c: Cache<V>, k: Key, v: V, ttl: int, now: int)
    ensures var items := Set(c, k, v, ttl, now).0.items;
      forall j :: j in items ==> (j in c.items && items[j] == c.items[j]) || items[j].value == v
  {
    MakeRoomShrinks(c);
  }

  lemma MakeRoomShrinks<V>(c: Cache<V>)
    ensures var left := MakeRoom(c).0.items;
      forall j :: j in left ==> j in c.items && left[j] == c.items[j]
  {
    if c.policy.Some? {
      EvictLoopShrinks(c.items, c.maxSize, c.policy.value);
    }
  }

  function EvictionEvents<V>(popped: seq<Key>, v: V): seq<Event<V>> {
    seq(|popped|, i requires 0 <= i < |popped| => Event(EvictionEvent, popped[i], Some(v)))
  }

  lemma EventsGrow<V>(popped: seq<Key>, k: Key, v: V)
    ensures EvictionEvents(popped + [k], v) == EvictionEvents(popped, v) + [Event(EvictionEvent, k, Some(v))]
  {}

  /** The events of a Set: an eviction event carries the incoming value, not the evicted one. */
  function SetEvents<V>(c: Cache<V>, k: Key, v: V, ttl: int, now: int): seq<Event<V>> {
    if Validate(ttl, c.ttl).Some? then []
    else
      EvictionEvents(PoppedKeys(c), v)
        + if Set(c, k, v, ttl, now).1.None? then [Event(SetEvent, k, Some(v))] else []
  }

  /** Every event of a Set carries the value that was set. */
  lemma SetEventValues<V>(c: Cache<V>, k: Key, v: V, ttl: int, now: int)
    ensures var events := SetEvents(c, k, v, ttl, now);
      forall i :: 0 <= i < |events| ==> events[i].value == Some(v)
  {}

  // ---------------------------------------------------------------- Delete, Clear, cleanup

  function Delete<V>(c: Cache<V>, k: Key): Cache<V> {
    c.(items := c.items - {k},
       policy := PolicyOnDelete(c.policy, k),
       store := StoreDelete(c.store, k),
       stats := c.stats.(deletes := c.stats.deletes + 1,
                         size := if k in c.items then c.stats.size - 1 else c.stats.size))
  }

  function DeleteEvents<V>(c: Cache<V>, k: Key): seq<Event<V>> {
    [Event(DeleteEvent, k, if k in c.items then Some(c.items[k].value) else None)]
  }

  /** Clear empties both tiers but does not tell the policy. */
  function Clear<V>(c: Cache<V>): Cache<V> {
    c.(items := map[],
       store := if c.store.Some? then Some(StoreSpec.Clear(c.store.value)) else None,
       stats := c.stats.(clears := c.stats.clears + 1, size := 0))
  }

  /** One eviction event per resident entry, in whatever order the map is read. */
  ghost predicate ClearEvents<V>(c: Cache<V>, events: seq<Event<V>>) {
    && |events| == |c.items|
    && (forall i, j :: 0 <= i < j < |events| ==> events[i].key != events[j].key)
    && forall i :: 0 <= i < |events| ==>
         && events[i].key in c.items
         && events[i] == Event(EvictionEvent, events[i].key, Some(c.items[events[i].key].value))
  }

  /** The resident keys among ks that the cleanup goroutine takes for expired. */
  function Stale<V>(c: Cache<V>, ks: set<Key>, now: int): set<Key> {
    StaleIn(c.items, ks, now)
  }

  function StaleIn<V>(items: map<Key, Item<V>>, ks: set<Key>, now: int): set<Key> {
    set k | k in ks && k in items && Before(items[k].expiresAt, now)
  }

  /** One chunk of the cleanup tick: the policy and the size counter are not told. */
  function Sweep<V>(c: Cache<V>, ks: set<Key>, now: int): Cache<V> {
    c.(items := c.items - Stale(c, ks, now),
       stats := c.stats.(evictions := c.stats.evictions + |Stale(c, ks, now)|))
  }

  /** Going through ks removes a stale entry when its key first comes up, and announces it with its own value. */
  function SweepEvents<V>(items: map<Key, Item<V>>, ks: seq<Key>, now: int): seq<Event<V>> {
    if ks == [] then []
    else
      var before, k := ks[..|ks| - 1], ks[|ks| - 1];
      SweepEvents(items, before, now) +
        if k in items && Before(items[k].expiresAt, now) && k !in before
        then [Event(ExpirationEvent, k, Some(items[k].value))] else []
  }

  /** Going on after a first stretch of keys is going through both. */
  lemma {:induction false} SweepEventsAppend<V>(items: map<Key, Item<V>>, a: seq<Key>, b: seq<Key>, now: int)
    ensures SweepEvents(items, a, now) + SweepEvents(items - StaleIn(items, Elems(a), now), b, now)
      == SweepEvents(items, a + b, now)
  {
    if b == [] {
      assert a + b == a;
    } else {
      var n := |b| - 1;
      SweepEventsAppend(items, a, b[..n], now);
      assert (a + b)[..|a + b| - 1] == a + b[..n];
    }
  }

  lemma SweepAppend<V>(c: Cache<V>, a: seq<Key>, b: seq<Key>, now: int)
    ensures Sweep(Sweep(c, Elems(a), now), Elems(b), now) == Sweep(c, Elems(a + b), now)
  {
    var left := c.items - StaleIn(c.items, Elems(a), now);
    assert StaleIn(c.items, Elems(a + b), now) == StaleIn(c.items, Elems(a), now) + StaleIn(left, Elems(b), now);
    assert left - StaleIn(left, Elems(b), now) == c.items - StaleIn(c.items, Elems(a + b), now);
  }

  /** With every key stale and none twice there is one event for each, in order. */
  lemma {:induction false} SweepEventsAll<V>(items: map<Key, Item<V>>, ks: seq<Key>, now: int)
    requires Distinct(ks) && forall k :: k in ks ==> k in items && Before(items[k].expiresAt, now)
    ensures |SweepEvents(items, ks, now)| == |ks| == |StaleIn(items, Elems(ks), now)|
    ensures forall i :: 0 <= i < |ks| ==>
      SweepEvents(items, ks, now)[i] == Event(ExpirationEvent, ks[i], Some(items[ks[i]].value))
  {
    DistinctElems(ks);
    assert StaleIn(items, Elems(ks), now) == Elems(ks);
    if ks == [] {
    } else {
      SweepEventsAll(items, ks[..|ks| - 1], now);
    }
  }

  /** The store's own expiry sweep, once a second. */
  function StoreSweep<V>(c: Cache<V>, now: int): Cache<V> {
    c.(store := if c.store.Some? then Some(StoreSpec.Sweep(c.store.value, now)) else None)
  }

  // ---------------------------------------------------------------- runs

  datatype Op<V> =
    | SetOp(key: Key, value: V, ttl: int, now: int)
    | GetOp(key: Key, now: int)
    | DeleteOp(key: Key)
    | ClearOp
    | SweepOp(keys: set<Key>, now: int)
    | StoreSweepOp(now: int)

  function Step<V>(c: Cache<V>, op: Op<V>): Cache<V> {
    match op
    case SetOp(k, v, ttl, now) => Set(c, k, v, ttl, now).0
    case GetOp(k, now) => Get(c, k, now).0
    case DeleteOp(k) => Delete(c, k)
    case ClearOp => Clear(c)
    case SweepOp(ks, now) => Sweep(c, ks, now)
    case StoreSweepOp(now) => StoreSweep(c, now)
  }

  function Run<V>(c: Cache<V>, trace: seq<Op<V>>): Cache<V> {
    if trace == [] then c else Step(Run(c, trace[..|trace| - 1]), trace[|trace| - 1])
  }
}
