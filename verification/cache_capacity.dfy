/** Eviction on a full cache, the size bound over every run, and agreement of cache and policy. */
module CacheCapacity {
  import opened Types
  import opened CacheSpec
  import PolicySpec
  import PolicyOps

  // ---------------------------------------------------------------- the eviction loop

  /** All the keys the policy yields when it is asked to evict until it is empty. */
  function Drain(p: PolicySpec.Policy): seq<Key>
    decreases PolicySpec.Size(p)
  {
    var (p', victim) := PolicySpec.Evict(p);
    if victim.None? then [] else [victim.value] + Drain(p')
  }

  /** The verdict of the loop: pop up to the first resident key and remove it, or pop everything for nothing. */
  ghost predicate RemovesOne<V>(items: map<Key, Item<V>>, drain: seq<Key>, tracked: set<Key>, r: Eviction<V>) {
    && (r.made <==> exists k :: k in items && k in tracked)
    && r.popped <= drain
    && (r.made ==> EndsResident(items, r.popped) && r.items == items - {r.popped[|r.popped| - 1]})
    && (!r.made ==> r.items == items && r.popped == drain && PolicySpec.Tracked(r.policy) == {})
  }

  /** The last popped key is resident and no other popped key is. */
  ghost predicate EndsResident<V>(items: map<Key, Item<V>>, popped: seq<Key>) {
    && popped != []
    && popped[|popped| - 1] in items
    && (forall i :: 0 <= i < |popped| - 1 ==> popped[i] !in items)
  }

  /**
   * On a full cache the loop pops the policy's keys in eviction order up to the first resident one,
   * which is the only entry it removes; it finds no room exactly when no resident key is tracked,
   * and has then emptied the policy for nothing.
   */
  lemma {:induction false} EvictLoopRemovesOne<V>(items: map<Key, Item<V>>, maxSize: int, p: PolicySpec.Policy)
    requires PolicySpec.Valid(p) && 0 < maxSize == |items|
    ensures RemovesOne(items, Drain(p), PolicySpec.Tracked(p), EvictLoop(items, maxSize, p))
    decreases PolicySpec.Size(p)
  {
    PolicySpec.EvictTracks(p);
    var (p', victim) := PolicySpec.Evict(p);
    if victim.Some? {
      if victim.value in items {
        PopResident(items, maxSize, p);
      } else {
        assert items - {victim.value} == items;
        EvictLoopRemovesOne(items, maxSize, p');
        PopStale(items, Drain(p'), PolicySpec.Tracked(p), EvictLoop(items, maxSize, p'), victim.value);
      }
    }
  }

  lemma PopResident<V>(items: map<Key, Item<V>>, maxSize: int, p: PolicySpec.Policy)
    requires |items| == maxSize && PolicySpec.Evict(p).1.Some?
    requires PolicySpec.Evict(p).1.value in items && PolicySpec.Evict(p).1.value in PolicySpec.Tracked(p)
    ensures RemovesOne(items, Drain(p), PolicySpec.Tracked(p), EvictLoop(items, maxSize, p))
  {}

  lemma PopStale<V>(items: map<Key, Item<V>>, drain: seq<Key>, tracked: set<Key>, r: Eviction<V>, k: Key)
    requires RemovesOne(items, drain, tracked - {k}, r) && k !in items
    ensures RemovesOne(items, [k] + drain, tracked, r.(popped := [k] + r.popped))
  {}

  /** What the loop does to the policy: it stops tracking the popped keys, and nothing else. */
  ghost predicate Untracks(p: PolicySpec.Policy, popped: seq<Key>, p': PolicySpec.Policy) {
    && PolicySpec.Valid(p') && p'.capacity == p.capacity
    && PolicySpec.Tracked(p') == PolicySpec.Tracked(p) - Elems(popped)
    && PolicySpec.Size(p') == PolicySpec.Size(p) - |popped|
  }

  lemma {:induction false} EvictLoopPolicy<V>(items: map<Key, Item<V>>, maxSize: int, p: PolicySpec.Policy)
    requires PolicySpec.Valid(p)
    ensures Untracks(p, EvictLoop(items, maxSize, p).popped, EvictLoop(items, maxSize, p).policy)
    decreases PolicySpec.Size(p)
  {
    PolicySpec.EvictTracks(p);
    var (p', victim) := PolicySpec.Evict(p);
    if |items| >= maxSize && victim.Some? {
      EvictLoopPolicy(items - {victim.value}, maxSize, p');
      var r := EvictLoop(items - {victim.value}, maxSize, p');
      UntracksOneMore(p, victim.value, p', r.popped, r.policy);
    }
  }

  lemma UntracksOneMore(p: PolicySpec.Policy, k: Key, p': PolicySpec.Policy, popped: seq<Key>, q: PolicySpec.Policy)
    requires p'.capacity == p.capacity && PolicySpec.Tracked(p') == PolicySpec.Tracked(p) - {k}
    requires PolicySpec.Size(p') == PolicySpec.Size(p) - 1 && Untracks(p', popped, q)
    ensures Untracks(p, [k] + popped, q)
  {}

  // ---------------------------------------------------------------- every run

  ghost predicate WellFormed<V>(c: Cache<V>) {
    && (c.policy.Some? ==> PolicySpec.Valid(c.policy.value))
    && (c.maxSize > 0 ==> |c.items| <= c.maxSize)
  }

  lemma LessItems<V>(items: map<Key, Item<V>>, ks: set<Key>)
    ensures |items - ks| <= |items|
    ensures |items - ks| == |items| - |items.Keys * ks|
  {}

  lemma MakeRoomKeeps<V>(c: Cache<V>)
    requires WellFormed(c)
    ensures WellFormed(MakeRoom(c).0)
    ensures MakeRoom(c).1 && c.maxSize > 0 ==> |MakeRoom(c).0.items| < c.maxSize
  {
    if c.maxSize > 0 && |c.items| == c.maxSize && c.policy.Some? {
      var p := c.policy.value;
      EvictLoopRemovesOne(c.items, c.maxSize, p);
      EvictLoopPolicy(c.items, c.maxSize, p);
      var r := EvictLoop(c.items, c.maxSize, p);
      if r.made {
        LessItems(c.items, {r.popped[|r.popped| - 1]});
        assert c.items.Keys * {r.popped[|r.popped| - 1]} == {r.popped[|r.popped| - 1]};
      }
    }
  }

  lemma InsertKeeps<V>(c: Cache<V>, k: Key, v: V, ttl: int, now: int)
    requires WellFormed(c) && (c.maxSize > 0 ==> |c.items| < c.maxSize)
    ensures WellFormed(Insert(c, k, v, ttl, now).0)
    ensures Insert(c, k, v, ttl, now).0.items.Keys == c.items.Keys + {k}
  {
    if c.policy.Some? {
      PolicySpec.SetTracks(c.policy.value, k);
    }
    assert c.items[k := NewItem(c, v, ttl, now)].Keys == c.items.Keys + {k};
  }

  lemma GetKeeps<V>(c: Cache<V>, k: Key, now: int)
    requires WellFormed(c)
    ensures WellFormed(Get(c, k, now).0) && Get(c, k, now).0.maxSize == c.maxSize
  {
    LessItems(c.items, {k});
    if c.policy.Some? {
      PolicySpec.GetTracks(c.policy.value, k);
    }
  }

  lemma SetKeeps<V>(c: Cache<V>, k: Key, v: V, ttl: int, now: int)
    requires WellFormed(c)
    ensures WellFormed(Set(c, k, v, ttl, now).0) && Set(c, k, v, ttl, now).0.maxSize == c.maxSize
  {
    MakeRoomKeeps(c);
    if MakeRoom(c).1 {
      InsertKeeps(MakeRoom(c).0, k, v, ttl, now);
    }
  }

  lemma DeleteKeeps<V>(c: Cache<V>, k: Key)
    requires WellFormed(c)
    ensures WellFormed(Delete(c, k)) && Delete(c, k).maxSize == c.maxSize
  {
    LessItems(c.items, {k});
    if c.policy.Some? {
      PolicySpec.DeleteTracks(c.policy.value, k);
    }
  }

  lemma StepKeeps<V>(c: Cache<V>, op: Op<V>)
    requires WellFormed(c)
    ensures WellFormed(Step(c, op)) && Step(c, op).maxSize == c.maxSize
  {
    match op
    case SetOp(k, v, ttl, now) => SetKeeps(c, k, v, ttl, now);
    case GetOp(k, now) => GetKeeps(c, k, now);
    case DeleteOp(k) => DeleteKeeps(c, k);
    case ClearOp =>
    case SweepOp(ks, now) => LessItems(c.items, Stale(c, ks, now));
    case StoreSweepOp(now) =>
  }

  /** For maxSize > 0 the resident entries never exceed maxSize, over every run from a new cache. */
  lemma {:induction false} SizeBounded<V>(c: Cache<V>, trace: seq<Op<V>>)
    requires WellFormed(c)
    ensures WellFormed(Run(c, trace)) && Run(c, trace).maxSize == c.maxSize
  {
    if trace == [] {
    } else {
      SizeBounded(c, trace[..|trace| - 1]);
      StepKeeps(Run(c, trace[..|trace| - 1]), trace[|trace| - 1]);
    }
  }

  /**
   * Set on a full cache: it is refused for capacity exactly when no resident key is tracked, and then every
   * entry stays; otherwise one resident key leaves before the new entry goes in. Evictions grows by the
   * number of keys popped, stale ones included.
   */
  ghost predicate SetsOnFull<V>(c: Cache<V>, k: Key, c': Cache<V>, refused: Option<SetError>) {
    var popped := PoppedKeys(c);
    && (refused == Some(CapacityReached) <==>
        c.policy.None? || !exists x :: x in c.items && x in PolicySpec.Tracked(c.policy.value))
    && c'.stats.evictions == c.stats.evictions + |popped|
    && (c.policy.Some? ==> popped <= Drain(c.policy.value))
    && (refused == Some(CapacityReached) ==> c'.items == c.items)
    && (refused != Some(CapacityReached) ==>
         EndsResident(c.items, popped) && c'.items.Keys == c.items.Keys - {popped[|popped| - 1]} + {k})
  }

  lemma FullMakeRoom<V>(c: Cache<V>)
    requires WellFormed(c) && 0 < c.maxSize == |c.items| && c.policy.Some?
    ensures var r := EvictLoop(c.items, c.maxSize, c.policy.value);
      && MakeRoom(c).0.items == r.items && MakeRoom(c).1 == r.made && PoppedKeys(c) == r.popped
      && MakeRoom(c).0.stats.evictions == c.stats.evictions + |r.popped|
      && RemovesOne(c.items, Drain(c.policy.value), PolicySpec.Tracked(c.policy.value), r)
  {
    EvictLoopRemovesOne(c.items, c.maxSize, c.policy.value);
  }

  lemma InsertResult<V>(c: Cache<V>, k: Key, v: V, ttl: int, now: int)
    ensures var (c', refused) := Insert(c, k, v, ttl, now);
      && c'.items.Keys == c.items.Keys + {k} && c'.stats.evictions == c.stats.evictions
      && refused != Some(CapacityReached)
  {}

  lemma SetOnFull<V>(c: Cache<V>, k: Key, v: V, ttl: int, now: int)
    requires WellFormed(c) && 0 < c.maxSize == |c.items| && Ttl.Validate(ttl, c.ttl) == None
    ensures SetsOnFull(c, k, Set(c, k, v, ttl, now).0, Set(c, k, v, ttl, now).1)
  {
    if c.policy.Some? {
      FullMakeRoom(c);
      var c' := MakeRoom(c).0;
      if MakeRoom(c).1 {
        InsertResult(c', k, v, ttl, now);
        assert c'.items.Keys == c.items.Keys - {PoppedKeys(c)[|PoppedKeys(c)| - 1]};
      }
    }
  }

  predicate Full<V>(c: Cache<V>) {
    0 < c.maxSize <= |c.items|
  }

  /** A key is popped exactly when the cache is full and its policy tracks anything. */
  lemma PopsNothingIff<V>(c: Cache<V>)
    requires WellFormed(c)
    ensures PoppedKeys(c) == [] <==>
      !Full(c) || c.policy.None? || PolicySpec.Tracked(c.policy.value) == {}
  {
    if Full(c) && c.policy.Some? {
      PolicySpec.EvictTracks(c.policy.value);
    }
  }

  /** The loop fails after n pops exactly when the policy tracks n keys and none of them is resident. */
  lemma FailsAfterIff<V>(c: Cache<V>, n: nat)
    requires WellFormed(c) && Full(c) && c.policy.Some?
    ensures !MakeRoom(c).1 && |PoppedKeys(c)| == n <==>
      PolicySpec.Size(c.policy.value) == n && PolicySpec.Tracked(c.policy.value) !! c.items.Keys
  {
    var p := c.policy.value;
    var r := EvictLoop(c.items, c.maxSize, p);
    FullMakeRoom(c);
    EvictLoopPolicy(c.items, c.maxSize, p);
    PolicySpec.SizeIsTracked(r.policy);
  }

  /** The same in every state that a run can reach, whatever stale or untracked keys it has left behind. */
  lemma SetOnFullCache<V>(c0: Cache<V>, trace: seq<Op<V>>, k: Key, v: V, ttl: int, now: int)
    requires WellFormed(c0)
    requires var c := Run(c0, trace); 0 < c.maxSize == |c.items| && Ttl.Validate(ttl, c.ttl) == None
    ensures SetsOnFull(Run(c0, trace), k, Set(Run(c0, trace), k, v, ttl, now).0, Set(Run(c0, trace), k, v, ttl, now).1)
  {
    SizeBounded(c0, trace);
    SetOnFull(Run(c0, trace), k, v, ttl, now);
  }
}
