/** The cache object: every public call and the cleanup tick, updating its fields in place. */
module Caches {
  import opened Types
  import opened Ttl
  import opened Policies
  import opened MemoryStores
  import opened CacheSpec
  import PolicySpec
  import StoreSpec
  import CleanupSpec

  class GenCache<V> {
    const maxSize: int
    const ttl: Config
    var items: map<Key, Item<V>>
    const policy: Option<PolicyRef>
    const store: MemoryStore?<V>
    var stats: Stats
    ghost var Repr: set<object>

    ghost predicate Valid()
      reads this, Repr
    {
      && this in Repr
      && (store != null ==> store in Repr)
      && (policy.Some? ==>
           && policy.value.Root() in Repr && policy.value.Repr() <= Repr
           && this !in policy.value.Repr() && store !in policy.value.Repr()
           && policy.value.Valid())
    }

    ghost function PolicyState(): Option<PolicySpec.Policy>
      requires Valid()
      reads this, Repr
    {
      if policy.Some? then Some(policy.value.State()) else None
    }

    ghost function StoreState(): Option<StoreSpec.Store<V>>
      requires Valid()
      reads this, Repr
    {
      if store != null then Some(store.State()) else None
    }

    ghost function State(): Cache<V>
      requires Valid()
      reads this, Repr
    {
      Cache(maxSize, ttl, items, PolicyState(), StoreState(), stats)
    }

    constructor (maxSize: int, ttl: Config, policy: Option<PolicyRef>, store: MemoryStore?<V>)
      requires policy.Some? ==> policy.value.Valid() && store !in policy.value.Repr()
      ensures Valid()
      ensures State() == New(maxSize, ttl, if policy.Some? then Some(policy.value.State()) else None,
                             if store != null then Some(store.State()) else None)
      ensures fresh(Repr - (if policy.Some? then policy.value.Repr() else {}) - {store})
    {
      this.maxSize := maxSize;
      this.ttl := ttl;
      this.policy := policy;
      this.store := store;
      items := map[];
      stats := Stats(0, 0, 0, 0, 0, 0, 0, 0);
      new;
      Repr := {this};
      if store != null {
        Repr := Repr + {store};
      }
      if policy.Some? {
        Repr := Repr + policy.value.Repr();
      }
    }

    // -------------------------------------------------------------- Get

    /** A hit in either tier: the policy and the hit counter hear of it. */
    method RecordHit(key: Key)
      requires Valid()
      modifies Repr
      ensures Valid() && Repr == old(Repr)
      ensures State() == CacheSpec.Touch(old(State()), key)
    {
      if policy.Some? {
        policy.value.OnGet(key);
      }
      stats := stats.(hits := stats.hits + 1);
    }

    method Get(key: Key, now: int) returns (value: Option<V>, events: seq<Event<V>>)
      requires Valid()
      modifies Repr
      ensures Valid() && Repr == old(Repr)
      ensures State() == CacheSpec.Get(old(State()), key, now).0
      ensures value == CacheSpec.Get(old(State()), key, now).1
      ensures events == CacheSpec.GetEvents(old(State()), key, now)
    {
      if key in items {
        var item := items[key];
        if item.expiresAt == Never || now < item.expiresAt.time {
          RecordHit(key);
          return Some(item.value), [Event(GetEvent, key, Some(item.value))];
        }
      }
      items := items - {key};
      value := ReadStore(key, now);
      events := if value.Some? then [Event(GetEvent, key, value)] else [];
    }

    method ReadStore(key: Key, now: int) returns (value: Option<V>)
      requires Valid()
      modifies Repr
      ensures Valid() && Repr == old(Repr)
      ensures State() == CacheSpec.GetFromStore(old(State()), key, now).0
      ensures value == CacheSpec.GetFromStore(old(State()), key, now).1
    {
      value := None;
      if store != null {
        value := store.Get(key, now);
        if value.Some? {
          RecordHit(key);
          return;
        }
      }
      stats := stats.(misses := stats.misses + 1);
    }

    // -------------------------------------------------------------- Set

    /** The eviction loop of SetWithContext; each eviction event carries the incoming value. */
    method MakeRoom(incoming: V) returns (room: bool, events: seq<Event<V>>)
      requires Valid()
      modifies Repr
      ensures Valid() && Repr == old(Repr)
      ensures State() == CacheSpec.MakeRoom(old(State())).0 && room == CacheSpec.MakeRoom(old(State())).1
      ensures events == EvictionEvents(CacheSpec.PoppedKeys(old(State())), incoming)
    {
      events := [];
      if maxSize > 0 && |items| >= maxSize {
        if policy.None? {
          return false, [];
        }
        room, events := EvictUntilRoom(incoming);
      } else {
        room := true;
      }
    }

    /** Pop a key from the policy and drop its entry, if it has one. */
    method PopOne() returns (victim: Option<Key>)
      requires Valid() && policy.Some?
      modifies Repr
      ensures Valid() && Repr == old(Repr) && StoreState() == old(StoreState())
      ensures policy.value.State() == PolicySpec.Evict(old(policy.value.State())).0
      ensures victim == PolicySpec.Evict(old(policy.value.State())).1
      ensures items == if victim.Some? then old(items) - {victim.value} else old(items)
      ensures stats == old(stats).(evictions := old(stats).evictions + if victim.Some? then 1 else 0)
    {
      victim := policy.value.Evict();
      if victim.Some? {
        items := items - {victim.value};
        stats := stats.(evictions := stats.evictions + 1);
      }
    }

    /** One turn of the loop. Its result r stays what is still to come after the keys already popped. */
    method TakeTurn(ghost r: Eviction<V>, ghost popped: seq<Key>) returns (victim: Option<Key>)
      requires Valid() && policy.Some?
      requires |items| >= maxSize && Remaining(r, items, maxSize, policy.value.State(), popped)
      modifies Repr
      ensures Valid() && Repr == old(Repr) && StoreState() == old(StoreState())
      ensures victim.None? ==>
        r == Eviction(items, policy.value.State(), popped, false) && stats == old(stats)
      ensures victim.Some? ==>
        && Remaining(r, items, maxSize, policy.value.State(), popped + [victim.value])
        && PolicySpec.Size(policy.value.State()) < PolicySpec.Size(old(policy.value.State()))
        && stats == old(stats).(evictions := old(stats).evictions + 1)
    {
      LoopTurn(items, maxSize, policy.value.State(), r, popped);
      victim := PopOne();
    }

    method EvictUntilRoom(incoming: V) returns (room: bool, events: seq<Event<V>>)
      requires Valid() && policy.Some?
      modifies Repr
      ensures Valid() && Repr == old(Repr) && StoreState() == old(StoreState())
      ensures var r := EvictLoop(old(items), maxSize, old(policy.value.State()));
        && r == Eviction(items, policy.value.State(), r.popped, room)
      ensures var popped := EvictLoop(old(items), maxSize, old(policy.value.State())).popped;
        && stats == old(stats).(evictions := old(stats).evictions + |popped|)
        && events == EvictionEvents(popped, incoming)
    {
      events := [];
      ghost var popped: seq<Key>, r := [], EvictLoop(items, maxSize, policy.value.State());
      while |items| >= maxSize
        invariant Valid() && Repr == old(Repr) && StoreState() == old(StoreState())
        invariant Remaining(r, items, maxSize, policy.value.State(), popped)
        invariant stats == old(stats).(evictions := old(stats).evictions + |popped|)
        invariant events == EvictionEvents(popped, incoming)
        decreases PolicySpec.Size(policy.value.State())
      {
        var victim := TakeTurn(r, popped);
        if victim.None? {
          return false, events;
        }
        EventsGrow(popped, victim.value, incoming);
        events := events + [Event(EvictionEvent, victim.value, Some(incoming))];
        popped := popped + [victim.value];
      }
      LoopDone(items, maxSize, policy.value.State(), r, popped);
      room := true;
    }

    /** The entry goes into memory, and its value into the store; memory keeps it when the store refuses. */
    method WriteThrough(key: Key, item: Item<V>, ttl': int, now: int) returns (refused: Option<StoreSpec.StoreError>)
      requires Valid()
      modifies Repr
      ensures Valid() && Repr == old(Repr) && items == old(items)[key := item] && stats == old(stats)
      ensures PolicyState() == old(PolicyState())
      ensures (StoreState(), refused) == CacheSpec.StoreSet(old(StoreState()), key, item.value, ttl', now)
    {
      items := items[key := item];
      refused := None;
      if store != null {
        refused := store.Set(key, item.value, ttl', now);
      }
    }

    method DeleteThrough(key: Key)
      requires Valid()
      modifies Repr
      ensures Valid() && Repr == old(Repr) && items == old(items) - {key} && stats == old(stats)
      ensures PolicyState() == old(PolicyState())
      ensures StoreState() == CacheSpec.StoreDelete(old(StoreState()), key)
    {
      items := items - {key};
      if store != null {
        store.Delete(key);
      }
    }

    method TellPolicySet(key: Key)
      requires Valid()
      modifies Repr
      ensures Valid() && fresh(Repr - old(Repr)) && items == old(items) && stats == old(stats)
      ensures PolicyState() == CacheSpec.PolicyOnSet(old(PolicyState()), key)
      ensures StoreState() == old(StoreState())
    {
      if policy.Some? {
        policy.value.OnSet(key);
        Repr := Repr + policy.value.Repr();
      }
    }

    method TellPolicyDelete(key: Key)
      requires Valid()
      modifies Repr
      ensures Valid() && Repr == old(Repr) && items == old(items) && stats == old(stats)
      ensures PolicyState() == CacheSpec.PolicyOnDelete(old(PolicyState()), key)
      ensures StoreState() == old(StoreState())
    {
      if policy.Some? {
        policy.value.OnDelete(key);
      }
    }

    /** The end of a successful Set: the policy and the counters hear of it. */
    method FinishSet(key: Key)
      requires Valid()
      modifies Repr
      ensures Valid() && fresh(Repr - old(Repr)) && items == old(items)
      ensures PolicyState() == CacheSpec.PolicyOnSet(old(PolicyState()), key)
      ensures StoreState() == old(StoreState())
      ensures stats == old(stats).(sets := old(stats).sets + 1, size := |items|)
    {
      TellPolicySet(key);
      stats := stats.(sets := stats.sets + 1, size := |items|);
    }

    /** Store an entry once there is room: memory first, then the store, then the policy. */
    method Insert(key: Key, value: V, ttlDuration: int, now: int) returns (refused: Option<SetError>)
      requires Valid()
      modifies Repr
      ensures Valid() && fresh(Repr - old(Repr))
      ensures State() == CacheSpec.Insert(old(State()), key, value, ttlDuration, now).0
      ensures refused == CacheSpec.Insert(old(State()), key, value, ttlDuration, now).1
    {
      var ttl' := Normalize(ttlDuration, ttl);
      var e := WriteThrough(key, Item(value, ExpirationTime(ttl', ttl, now)), ttl', now);
      if e.Some? {
        return Some(StoreRefused(e.value));
      }
      FinishSet(key);
      refused := None;
    }

    method Set(key: Key, value: V, ttlDuration: int, now: int)
      returns (refused: Option<SetError>, events: seq<Event<V>>)
      requires Valid()
      modifies Repr
      ensures Valid() && fresh(Repr - old(Repr))
      ensures State() == CacheSpec.Set(old(State()), key, value, ttlDuration, now).0
      ensures refused == CacheSpec.Set(old(State()), key, value, ttlDuration, now).1
      ensures events == CacheSpec.SetEvents(old(State()), key, value, ttlDuration, now)
    {
      var bad := Validate(ttlDuration, ttl);
      if bad.Some? {
        stats := stats.(errors := stats.errors + 1);
        return Some(BadTTL(bad.value)), [];
      }
      var room;
      room, events := MakeRoom(value);
      if !room {
        return Some(CapacityReached), events;
      }
      refused := Insert(key, value, ttlDuration, now);
      if refused.None? {
        events := events + [Event(SetEvent, key, Some(value))];
      }
    }

    // -------------------------------------------------------------- Delete and Clear

    method Delete(key: Key) returns (events: seq<Event<V>>)
      requires Valid()
      modifies Repr
      ensures Valid() && Repr == old(Repr)
      ensures State() == CacheSpec.Delete(old(State()), key)
      ensures events == CacheSpec.DeleteEvents(old(State()), key)
    {
      var value := if key in items then Some(items[key].value) else None;
      TellPolicyDelete(key);
      var existed := key in items;
      DeleteThrough(key);
      stats := stats.(deletes := stats.deletes + 1, size := if existed then stats.size - 1 else stats.size);
      events := [Event(DeleteEvent, key, value)];
    }

    method Clear() returns (events: seq<Event<V>>)
      requires Valid()
      modifies Repr
      ensures Valid() && Repr == old(Repr)
      ensures State() == CacheSpec.Clear(old(State()))
      ensures ClearEvents(old(State()), events)
    {
      events := AnnounceAll();
      items := map[];
      stats := stats.(size := 0);
      if store != null {
        store.Clear();
      }
      stats := stats.(clears := stats.clears + 1);
    }

    /** Clear's loop over the entries, in any order. */
    method AnnounceAll() returns (events: seq<Event<V>>)
      requires Valid()
      ensures ClearEvents(State(), events)
    {
      events := [];
      var todo := items.Keys;
      while todo != {}
        invariant todo <= items.Keys && |events| + |todo| == |items|
        invariant forall i :: 0 <= i < |events| ==>
          (&& events[i].key in items && events[i].key !in todo
           && events[i] == Event(EvictionEvent, events[i].key, Some(items[events[i].key].value)))
        invariant forall i, j :: 0 <= i < j < |events| ==> events[i].key != events[j].key
        decreases todo
      {
        var key :| key in todo;
        todo := todo - {key};
        events := events + [Event(EvictionEvent, key, Some(items[key].value))];
      }
    }

    // -------------------------------------------------------------- the cleanup tick

    /** The collection loop, which stops at the batch limit. */
    method CollectExpired(now: int) returns (expired: seq<Key>)
      requires Valid()
      ensures CleanupSpec.Collected(State(), expired, now)
    {
      expired := [];
      var todo := items.Keys;
      while todo != {}
        invariant todo <= items.Keys && |expired| <= CleanupSpec.MAX_BATCH && Distinct(expired)
        invariant forall k :: k in expired ==> k in items && k !in todo && Before(items[k].expiresAt, now)
        invariant |expired| < CleanupSpec.MAX_BATCH ==>
          forall k :: k in items && k !in todo && Before(items[k].expiresAt, now) ==> k in expired
        decreases todo
      {
        if |expired| >= CleanupSpec.MAX_BATCH {
          break;
        }
        var key :| key in todo;
        todo := todo - {key};
        if Before(items[key].expiresAt, now) {
          expired := expired + [key];
        }
      }
    }

    /** One chunk: each key is looked up again, and only an entry that is stale now goes. */
    method SweepChunk(chunk: seq<Key>, now: int) returns (events: seq<Event<V>>)
      requires Valid()
      modifies this
      ensures Valid() && Repr == old(Repr)
      ensures State() == CacheSpec.Sweep(old(State()), Elems(chunk), now)
      ensures events == SweepEvents(old(items), chunk, now)
    {
      events := SweepItems(chunk, now);
    }

    method SweepItems(chunk: seq<Key>, now: int) returns (events: seq<Event<V>>)
      modifies `items, `stats
      ensures var gone := StaleIn(old(items), Elems(chunk), now);
        && items == old(items) - gone
        && stats == old(stats).(evictions := old(stats).evictions + |gone|)
      ensures events == SweepEvents(old(items), chunk, now)
    {
      events := [];
      ghost var items0, stats0 := items, stats;
      for i := 0 to |chunk|
        invariant var gone := StaleIn(items0, Elems(chunk[..i]), now);
          && items == items0 - gone
          && stats == stats0.(evictions := stats0.evictions + |gone|)
        invariant events == SweepEvents(items0, chunk[..i], now)
      {
        assert chunk[..i + 1] == chunk[..i] + [chunk[i]];
        SweepOne(items0, chunk[..i], chunk[i], now);
        var announced := RemoveIfStale(chunk[i], now);
        events := events + announced;
      }
      assert chunk[..|chunk|] == chunk;
    }

    method RemoveIfStale(key: Key, now: int) returns (events: seq<Event<V>>)
      modifies `items, `stats
      ensures if key in old(items) && Before(old(items)[key].expiresAt, now)
        then items == old(items) - {key} && stats == old(stats).(evictions := old(stats).evictions + 1)
          && events == [Event(ExpirationEvent, key, Some(old(items)[key].value))]
        else items == old(items) && stats == old(stats) && events == []
    {
      events := [];
      if key in items && Before(items[key].expiresAt, now) {
        events := [Event(ExpirationEvent, key, Some(items[key].value))];
        items := items - {key};
        stats := stats.(evictions := stats.evictions + 1);
      }
    }

    /** A tick that nobody interrupts: it removes the collected entries, counts them and announces them in order. */
    method CleanupTick(now: int) returns (ghost expired: seq<Key>, events: seq<Event<V>>)
      requires Valid()
      modifies this
      ensures Valid() && Repr == old(Repr)
      ensures CleanupSpec.Collected(old(State()), expired, now)
      ensures State() == CacheSpec.Sweep(old(State()), Elems(expired), now)
      ensures stats.evictions == old(stats).evictions + |expired|
      ensures |events| == |expired| && forall i :: 0 <= i < |expired| ==>
        expired[i] in old(items) && events[i] == Event(ExpirationEvent, expired[i], Some(old(items)[expired[i]].value))
      ensures var stale := Stale(old(State()), old(items).Keys, now);
        && |expired| == (if |stale| < 1000 then |stale| else 1000)
        && (|stale| < 1000 ==> forall k :: k in items ==> items[k].expiresAt.At? && now <= items[k].expiresAt.time)
    {
      var keys := CollectExpired(now);
      CleanupSpec.CollectedCount(State(), keys, now);
      expired := keys;
      events := SweepAll(keys, now);
      SweepEventsAll(old(items), keys, now);
    }

    /** The chunk loop. */
    method SweepAll(keys: seq<Key>, now: int) returns (events: seq<Event<V>>)
      requires Valid()
      modifies this
      ensures Valid() && Repr == old(Repr)
      ensures State() == CacheSpec.Sweep(old(State()), Elems(keys), now)
      ensures events == SweepEvents(old(items), keys, now)
    {
      events := [];
      ghost var c0 := State();
      CleanupSpec.SweepNothing(c0, now);
      var i := 0;
      while i < |keys|
        invariant Valid() && Repr == old(Repr) && i <= |keys|
        invariant State() == CacheSpec.Sweep(c0, Elems(keys[..i]), now)
        invariant events == SweepEvents(c0.items, keys[..i], now)
        decreases |keys| - i
      {
        var end := CleanupSpec.ChunkEnd(keys, i);
        var announced := SweepChunk(keys[i..end], now);
        assert keys[..end] == keys[..i] + keys[i..end];
        SweepAppend(c0, keys[..i], keys[i..end], now);
        SweepEventsAppend(c0.items, keys[..i], keys[i..end], now);
        events := events + announced;
        i := end;
      }
      assert keys[..i] == keys;
    }
  }

  /** What looking at one more key does to the stale keys met so far, to the entries left and to the events. */
  lemma SweepOne<V>(items: map<Key, Item<V>>, ks: seq<Key>, k: Key, now: int)
    ensures var met, met' := StaleIn(items, Elems(ks), now), StaleIn(items, Elems(ks + [k]), now);
      if k in items - met && Before((items - met)[k].expiresAt, now)
      then
        && items - met' == items - met - {k} && |met'| == |met| + 1
        && SweepEvents(items, ks + [k], now)
          == SweepEvents(items, ks, now) + [Event(ExpirationEvent, k, Some((items - met)[k].value))]
      else
        met' == met && SweepEvents(items, ks + [k], now) == SweepEvents(items, ks, now) + []
  {
    var met, met' := StaleIn(items, Elems(ks), now), StaleIn(items, Elems(ks + [k]), now);
    assert (ks + [k])[..|ks|] == ks;
    if k in items && Before(items[k].expiresAt, now) && k !in ks {
      assert met' == met + {k};
    } else {
      assert met' == met;
    }
  }

  /** The loop's result r is what is still to come after the keys already popped. */
  ghost predicate Remaining<V>(
    r: Eviction<V>, items: map<Key, Item<V>>, maxSize: int, p: PolicySpec.Policy, popped: seq<Key>)
  {
    var rest := EvictLoop(items, maxSize, p);
    r.items == rest.items && r.policy == rest.policy && r.made == rest.made && r.popped == popped + rest.popped
  }

  lemma LoopDone<V>(items: map<Key, Item<V>>, maxSize: int, p: PolicySpec.Policy, r: Eviction<V>, popped: seq<Key>)
    requires |items| < maxSize && Remaining(r, items, maxSize, p, popped)
    ensures r == Eviction(items, p, popped, true)
  {}

  lemma LoopTurn<V>(items: map<Key, Item<V>>, maxSize: int, p: PolicySpec.Policy, r: Eviction<V>, popped: seq<Key>)
    requires |items| >= maxSize && Remaining(r, items, maxSize, p, popped)
    ensures var (p', victim) := PolicySpec.Evict(p);
      if victim.None? then r == Eviction(items, p', popped, false)
      else
        && Remaining(r, items - {victim.value}, maxSize, p', popped + [victim.value])
        && PolicySpec.Size(p') < PolicySpec.Size(p)
  {
    var (p', victim) := PolicySpec.Evict(p);
    var now := EvictLoop(items, maxSize, p);
    if victim.Some? {
      var next := EvictLoop(items - {victim.value}, maxSize, p');
      assert now.popped == [victim.value] + next.popped;
      assert popped + now.popped == popped + [victim.value] + next.popped;
    }
  }
}
