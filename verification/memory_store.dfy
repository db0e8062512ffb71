/** store.memoryStore as an object: the map and the usage counter, updated in place. */
module MemoryStores {
  import opened Types
  import opened Ttl
  import StoreSpec
  import StoreRuns

  class MemoryStore<V> {
    const cfg: StoreSpec.StoreConfig<V>
    var items: map<Key, StoreSpec.Entry<V>>
    var usage: int

    function State(): StoreSpec.Store<V>
      reads this
    {
      StoreSpec.Store(cfg, items, usage)
    }

    constructor (cfg: StoreSpec.StoreConfig<V>)
      ensures State() == StoreSpec.Empty(cfg)
    {
      this.cfg := cfg;
      items := map[];
      usage := 0;
    }

    method Get(key: Key, now: int) returns (value: Option<V>)
      modifies this
      ensures State() == StoreSpec.Get(old(State()), key, now).0
      ensures value == StoreSpec.Get(old(State()), key, now).1
    {
      if key !in items {
        return None;
      }
      var entry := items[key];
      if entry.expires != Never && IsExpired(entry.expires, now) {
        items := items - {key};
        return None;
      }
      items := items[key := entry.(lastAccess := now, accessCount := entry.accessCount + 1)];
      value := Some(entry.value);
    }

    method Set(key: Key, value: V, ttl: int, now: int) returns (refused: Option<StoreSpec.StoreError>)
      modifies this
      ensures State() == StoreSpec.Set(old(State()), key, value, ttl, now).0
      ensures refused == StoreSpec.Set(old(State()), key, value, ttl, now).1
    {
      if cfg.maxSize > 0 {
        if key !in items && |items| >= cfg.maxSize {
          return Some(StoreSpec.CapacityLimit);
        }
      }
      if cfg.tracking {
        var newItemMemory := cfg.size(key, value);
        if cfg.maxMemory > 0 && usage + newItemMemory > cfg.maxMemory {
          return Some(StoreSpec.MemoryLimit);
        }
      }
      WriteEntry(key, value, ttl, now);
      refused := None;
    }

    /** The part of Set and of SetMany's loop that stores one entry. */
    method WriteEntry(key: Key, value: V, ttl: int, now: int)
      modifies this
      ensures State() == StoreSpec.Put(old(State()), key, value, ttl, now)
    {
      var ttl' := Normalize(ttl, cfg.ttl);
      var entry := StoreSpec.Entry(value, ExpirationTime(ttl', cfg.ttl, now), now, 1);
      if cfg.tracking {
        if key in items {
          usage := usage - cfg.size(key, items[key].value);
        }
        usage := usage + cfg.size(key, value);
      }
      items := items[key := entry];
    }

    method Delete(key: Key)
      modifies this
      ensures State() == StoreSpec.Delete(old(State()), key)
    {
      if cfg.tracking {
        if key in items {
          usage := usage - cfg.size(key, items[key].value);
        }
      }
      items := items - {key};
    }

    method Clear()
      modifies this
      ensures State() == StoreSpec.Clear(old(State()))
    {
      if cfg.tracking {
        usage := 0;
      }
      items := map[];
    }

    /** The keys of the batch that are not stored yet. */
    method CountNewKeys(entries: map<Key, V>) returns (newKeys: set<Key>)
      ensures newKeys == StoreSpec.NewKeys(State(), entries)
    {
      newKeys := {};
      var todo := entries.Keys;
      while todo != {}
        invariant todo <= entries.Keys
        invariant newKeys == (entries.Keys - todo) - items.Keys
        decreases todo
      {
        var k :| k in todo;
        todo := todo - {k};
        if k !in items {
          newKeys := newKeys + {k};
        }
      }
    }

    /** The bytes of the batch's new keys. */
    method SumNewMemory(entries: map<Key, V>) returns (total: nat)
      ensures total == StoreSpec.Bytes(cfg.size, entries - items.Keys)
    {
      total := 0;
      var todo := entries.Keys;
      assert entries - todo - items.Keys == map[];
      while todo != {}
        invariant todo <= entries.Keys
        invariant total == StoreSpec.Bytes(cfg.size, entries - todo - items.Keys)
        decreases todo
      {
        var k :| k in todo;
        ghost var before := entries - todo - items.Keys;
        todo := todo - {k};
        ghost var after := entries - todo - items.Keys;
        if k !in items {
          total := total + cfg.size(k, entries[k]);
          StoreSpec.BytesLess(cfg.size, after, k);
          assert after - {k} == before;
        } else {
          assert after == before;
        }
      }
      assert entries - todo == entries;
    }

    /** The two admission checks of SetMany, made before anything is written. */
    method CheckBatch(entries: map<Key, V>) returns (refused: Option<StoreSpec.StoreError>)
      ensures refused == StoreSpec.SetManyCheck(State(), entries)
    {
      if cfg.maxSize > 0 {
        var newKeys := CountNewKeys(entries);
        if |items| + |newKeys| > cfg.maxSize {
          return Some(StoreSpec.CapacityLimit);
        }
      }
      if cfg.tracking {
        var totalNewMemory := SumNewMemory(entries);
        if cfg.maxMemory > 0 && usage + totalNewMemory > cfg.maxMemory {
          return Some(StoreSpec.MemoryLimit);
        }
      }
      refused := None;
    }

    method SetMany(entries: map<Key, V>, ttl: int, now: int) returns (refused: Option<StoreSpec.StoreError>)
      modifies this
      ensures State() == StoreSpec.SetMany(old(State()), entries, ttl, now).0
      ensures refused.Some? ==> State() == old(State())
      ensures refused == StoreSpec.SetMany(old(State()), entries, ttl, now).1
    {
      refused := CheckBatch(entries);
      if refused == None {
        WriteAll(entries, ttl, now);
      }
    }

    /** SetMany's loop over the entries, in any order. */
    method WriteAll(entries: map<Key, V>, ttl: int, now: int)
      modifies this
      ensures State() == StoreSpec.PutMany(old(State()), entries, ttl, now)
    {
      var todo := entries;
      ghost var goal := StoreSpec.PutMany(State(), entries, ttl, now);
      while todo != map[]
        invariant StoreSpec.PutMany(State(), todo, ttl, now) == goal
        decreases |todo|
      {
        var key :| key in todo;
        StoreRuns.PeelResult(State(), todo, key, ttl, now);
        WriteEntry(key, todo[key], ttl, now);
        todo := todo - {key};
      }
      StoreRuns.PutNothing(State(), ttl, now);
    }

    method CleanupExpiredEntries(now: int)
      modifies this
      ensures State() == StoreSpec.Sweep(old(State()), now)
    {
      var todo := items.Keys;
      while todo != {}
        invariant todo <= items.Keys && usage == old(usage)
        invariant items ==
          map k | k in old(items) && (k in todo || !IsExpired(old(items)[k].expires, now)) :: old(items)[k]
        decreases todo
      {
        var key :| key in todo;
        todo := todo - {key};
        if items[key].expires != Never && IsExpired(items[key].expires, now) {
          items := items - {key};
        }
      }
    }
  }
}
