/** What each call of the cache answers, counts and announces. */
module CacheAnswers {
  import opened Types
  import opened Ttl
  import opened CacheSpec
  import opened CacheCapacity
  import PolicySpec
  import StoreHistory
  import StoreSpec

  // ---------------------------------------------------------------- which Sets are accepted

  /** There is a free place, or a resident key that the policy can give up. */
  ghost predicate HasRoom<V>(c: Cache<V>) {
    || c.maxSize <= 0
    || |c.items| < c.maxSize
    || (c.policy.Some? && exists x :: x in c.items && x in PolicySpec.Tracked(c.policy.value))
  }

  predicate StoreHasPlace<V>(c: Cache<V>, k: Key) {
    c.store.Some? ==> StoreHistory.HasPlace(c.store.value, k)
  }

  predicate StoreHasMemory<V>(c: Cache<V>, k: Key, v: V) {
    c.store.Some? ==> StoreHistory.HasMemory(c.store.value, k, v)
  }

  lemma MadeRoomIff<V>(c: Cache<V>)
    requires WellFormed(c)
    ensures MakeRoom(c).1 <==> HasRoom(c)
    ensures MakeRoom(c).0.store == c.store && MakeRoom(c).0.ttl == c.ttl
  {
    if Full(c) && c.policy.Some? {
      FullMakeRoom(c);
    }
  }

  /** A Set succeeds if and only if its TTL is in range, there is room, and the store has place and memory. */
  lemma SetAcceptedIff<V>(c: Cache<V>, k: Key, v: V, ttl: int, now: int)
    requires WellFormed(c)
    ensures Set(c, k, v, ttl, now).1 == None <==>
      InRange(ttl, c.ttl) && HasRoom(c) && StoreHasPlace(c, k) && StoreHasMemory(c, k, v)
  {
    ValidateIff(ttl, c.ttl);
    MadeRoomIff(c);
  }

  /** Otherwise the first of these that fails gives the error. */
  lemma SetErrorIs<V>(c: Cache<V>, k: Key, v: V, ttl: int, now: int)
    requires WellFormed(c)
    ensures var e := Set(c, k, v, ttl, now).1;
      && (e.Some? && e.value.BadTTL? <==> !InRange(ttl, c.ttl))
      && (e.Some? && e.value.BadTTL? ==> Some(e.value.ttlError) == Validate(ttl, c.ttl))
      && (e == Some(CapacityReached) <==> InRange(ttl, c.ttl) && !HasRoom(c))
      && (e == Some(StoreRefused(StoreSpec.CapacityLimit)) <==>
            InRange(ttl, c.ttl) && HasRoom(c) && !StoreHasPlace(c, k))
      && (e == Some(StoreRefused(StoreSpec.MemoryLimit)) <==>
            InRange(ttl, c.ttl) && HasRoom(c) && StoreHasPlace(c, k) && !StoreHasMemory(c, k, v))
  {
    ValidateIff(ttl, c.ttl);
    MadeRoomIff(c);
  }

  /**
   * What an accepted Set stored is read back until it expires. At the very expiry time the memory tier gives it up, and
   * a store still has it.
   */
  lemma AcceptedIsRead<V>(c: Cache<V>, k: Key, v: V, ttl: int, now: int, later: int)
    requires Set(c, k, v, ttl, now).1 == None && now <= later
    ensures ttl == 0 || later < now + ttl ==> Get(Set(c, k, v, ttl, now).0, k, later).1 == Some(v)
    ensures c.store.None? && ttl != 0 && later >= now + ttl ==> Get(Set(c, k, v, ttl, now).0, k, later).1 == None
    ensures c.store.Some? && InRange(ttl, c.store.value.cfg.ttl) ==>
      Get(Set(c, k, v, ttl, now).0, k, later).1 == if ttl == 0 || later <= now + ttl then Some(v) else None
  {
    ValidateIff(ttl, c.ttl);
    ValidatedIsNormal(ttl, c.ttl);
    if c.store.Some? {
      ValidateIff(ttl, c.store.value.cfg.ttl);
    }
    assert MakeRoom(c).0.store == c.store && MakeRoom(c).0.ttl == c.ttl;
  }

  // ---------------------------------------------------------------- counters

  lemma SetCounts<V>(c: Cache<V>, op: Op<V>)
    requires op.SetOp?
    ensures var a, b := c.stats, Step(c, op).stats;
      b == a.(
        sets := a.sets + Sets(c, op),
        errors := a.errors + Errors(c, op),
        evictions := a.evictions + Evicted(c, op),
        size := if Sets(c, op) == 1 then |Step(c, op).items| else a.size)
  {
    ValidateIff(op.ttl, c.ttl);
  }

  lemma GetCounts<V>(c: Cache<V>, op: Op<V>)
    requires op.GetOp?
    ensures var a := c.stats; Step(c, op).stats == a.(hits := a.hits + Hits(c, op), misses := a.misses + Misses(c, op))
  {}

  /** One call and the counters, by what it answers and removes. */
  lemma StepCounts<V>(c: Cache<V>, op: Op<V>)
    ensures var a, b := c.stats, Step(c, op).stats;
      && b.hits == a.hits + Hits(c, op)
      && b.misses == a.misses + Misses(c, op)
      && b.sets == a.sets + Sets(c, op)
      && b.errors == a.errors + Errors(c, op)
      && b.deletes == a.deletes + (if op.DeleteOp? then 1 else 0)
      && b.clears == a.clears + (if op.ClearOp? then 1 else 0)
      && b.evictions == a.evictions + Evicted(c, op)
    ensures Step(c, op).stats.size ==
      if Sets(c, op) == 1 then |Step(c, op).items|
      else if op.ClearOp? then 0
      else if op.DeleteOp? && op.key in c.items then c.stats.size - 1
      else c.stats.size
  {
    match op
    case SetOp(_, _, _, _) => SetCounts(c, op);
    case GetOp(_, _) => GetCounts(c, op);
    case SweepOp(ks, now) => SweptCount(c, ks, now);
    case _ =>
  }

  lemma SweptCount<V>(c: Cache<V>, ks: set<Key>, now: int)
    ensures |c.items| - |Sweep(c, ks, now).items| == |Stale(c, ks, now)|
  {
    LessItems(c.items, Stale(c, ks, now));
    assert c.items.Keys * Stale(c, ks, now) == Stale(c, ks, now);
  }

  /** A Get that is answered. */
  function Hits<V>(c: Cache<V>, op: Op<V>): nat {
    if op.GetOp? && Get(c, op.key, op.now).1.Some? then 1 else 0
  }

  function Misses<V>(c: Cache<V>, op: Op<V>): nat {
    if op.GetOp? && Get(c, op.key, op.now).1.None? then 1 else 0
  }

  /** A Set that is accepted. */
  function Sets<V>(c: Cache<V>, op: Op<V>): nat {
    if op.SetOp? && Set(c, op.key, op.value, op.ttl, op.now).1.None? then 1 else 0
  }

  /** A Set with a TTL out of range; other refusals are not counted. */
  function Errors<V>(c: Cache<V>, op: Op<V>): nat {
    if op.SetOp? && !InRange(op.ttl, c.ttl) then 1 else 0
  }

  /** The keys that a Set pops from the policy, or the entries that a cleanup chunk removes. */
  function Evicted<V>(c: Cache<V>, op: Op<V>): int {
    if op.SetOp? && InRange(op.ttl, c.ttl) then |PoppedKeys(c)|
    else if op.SweepOp? then |c.items| - |Step(c, op).items|
    else 0
  }

  ghost function Total<V>(c: Cache<V>, trace: seq<Op<V>>, count: (Cache<V>, Op<V>) -> int): int {
    if trace == [] then 0
    else
      var before := trace[..|trace| - 1];
      Total(c, before, count) + count(Run(c, before), trace[|trace| - 1])
  }

  /** Over every run the counters add up to what the calls answered and removed. */
  lemma {:induction false} CountersAddUp<V>(c: Cache<V>, trace: seq<Op<V>>)
    ensures var a, b := c.stats, Run(c, trace).stats;
      && b.hits == a.hits + Total(c, trace, (d, op) => Hits(d, op))
      && b.misses == a.misses + Total(c, trace, (d, op) => Misses(d, op))
      && b.sets == a.sets + Total(c, trace, (d, op) => Sets(d, op))
      && b.errors == a.errors + Total(c, trace, (d, op) => Errors(d, op))
      && b.evictions == a.evictions + Total(c, trace, (d, op) => Evicted(d, op))
  {
    if trace == [] {
    } else {
      CountersAddUp(c, trace[..|trace| - 1]);
      StepCounts(Run(c, trace[..|trace| - 1]), trace[|trace| - 1]);
    }
  }

  // ---------------------------------------------------------------- events

  /** A Get announces its answer, once, and a miss nothing. */
  lemma GetAnnounces<V>(c: Cache<V>, k: Key, now: int)
    ensures var events, value := GetEvents(c, k, now), Get(c, k, now).1;
      && |events| == (if value.Some? then 1 else 0)
      && (value.Some? ==> events[0] == Event(GetEvent, k, value))
  {}

  /** A Set announces each key it pops, with the incoming value, and after these, if it is accepted, itself. */
  lemma SetAnnounces<V>(c: Cache<V>, k: Key, v: V, ttl: int, now: int)
    ensures var events, popped := SetEvents(c, k, v, ttl, now), if InRange(ttl, c.ttl) then PoppedKeys(c) else [];
      var accepted := Set(c, k, v, ttl, now).1 == None;
      && |events| == |popped| + (if accepted then 1 else 0)
      && (forall i :: 0 <= i < |popped| ==> events[i] == Event(EvictionEvent, popped[i], Some(v)))
      && (accepted ==> events[|popped|] == Event(SetEvent, k, Some(v)))
  {
    ValidateIff(ttl, c.ttl);
  }

  /** Clear announces every resident entry, as an eviction with its own value. */
  lemma ClearAnnounces<V>(c: Cache<V>, events: seq<Event<V>>, k: Key) returns (i: nat)
    requires ClearEvents(c, events) && k in c.items
    ensures i < |events| && events[i] == Event(EvictionEvent, k, Some(c.items[k].value))
    ensures |events| == |c.items|
  {
    var keys := seq(|events|, j requires 0 <= j < |events| => events[j].key);
    DistinctElems(keys);
    if k !in Elems(keys) {
      SubsetSize(Elems(keys), c.items.Keys - {k});
      assert false;
    }
    i :| i < |keys| && keys[i] == k;
  }

  /** A Delete announces its key, once, with the value it had if it was resident. */
  lemma DeleteAnnounces<V>(c: Cache<V>, k: Key)
    ensures DeleteEvents(c, k) == [Event(DeleteEvent, k, if k in c.items then Some(c.items[k].value) else None)]
  {}
}
