/** pool.go as objects: cells written in place, the pool with its counters, and the cache of cells. */
module Pools {
  import opened Types
  import opened Ttl
  import opened Caches
  import CacheSpec
  import PoolSpec

  class Cell<V> {
    var value: V

    constructor (value: V)
      ensures this.value == value
    {
      this.value := value;
    }
  }

  datatype PoolStats = PoolStats(created: int, destroyed: int, size: int)

  /** int64 of a float64: the fraction is cut off. */
  function Truncate(x: real): int {
    if x >= 0.0 then x.Floor else -(-x).Floor
  }

  /** t is x without its fraction: the integer next to x on the side of zero. */
  predicate CutOff(x: real, t: int) {
    if x >= 0.0 then t as real <= x < t as real + 1.0 else t as real - 1.0 < x <= t as real
  }

  lemma TruncateIff(x: real)
    ensures forall t :: CutOff(x, t) <==> t == Truncate(x)
  {
    var y := if x >= 0.0 then x else -x;
    assert y.Floor as real <= y < y.Floor as real + 1.0;
  }

  /** The free cells, the counters, and the lock that is only ever tried. */
  class CellPool<V> {
    var free: multiset<Cell<V>>
    ghost var made: set<Cell<V>>
    var stats: PoolStats
    var unlocked: bool
    const maxSize: int
    const minSize: int
    const shrinkFactor: real
    const round: real -> real
    const zero: V

    ghost predicate Valid()
      reads this
    {
      forall c :: c in free ==> c in made
    }

    constructor (maxSize: int, minSize: int, shrinkFactor: real, round: real -> real, zero: V)
      ensures Valid() && unlocked && stats == PoolStats(0, 0, 0) && free == multiset{} && made == {}
      ensures this.maxSize == maxSize && this.minSize == minSize
      ensures this.shrinkFactor == shrinkFactor && this.round == round
    {
      this.maxSize, this.minSize, this.zero := maxSize, minSize, zero;
      this.shrinkFactor, this.round := shrinkFactor, round;
      free := multiset{};
      made := {};
      stats := PoolStats(0, 0, 0);
      unlocked := true;
    }

    /** The pool's New function: it counts the cell only if it gets the lock. */
    method New() returns (c: Cell<V>)
      requires Valid()
      modifies this
      ensures Valid() && fresh(c) && made == old(made) + {c} && free == old(free) && unlocked == old(unlocked)
      ensures stats == if unlocked
        then old(stats).(created := old(stats).created + 1, size := old(stats).size + 1) else old(stats)
    {
      if unlocked {
        unlocked := false;
        stats := stats.(created := stats.created + 1, size := stats.size + 1);
        unlocked := true;
      }
      c := new Cell(zero);
      made := made + {c};
    }

    /** sync.Pool.Get: any free cell, or a new one. */
    method Get() returns (c: Cell<V>)
      requires Valid()
      modifies this
      ensures Valid() && unlocked == old(unlocked) && made == old(made) + {c}
      ensures (c in old(free) || fresh(c)) && free == old(free) - multiset{c}
      ensures stats == if unlocked && c !in old(free)
        then old(stats).(created := old(stats).created + 1, size := old(stats).size + 1) else old(stats)
    {
      var reuse: bool := *;
      if reuse && free != multiset{} {
        c :| c in free;
        free := free - multiset{c};
      } else {
        c := New();
        assert c !in free;
      }
    }

    /** What the event callback does with a cell. */
    method Put(c: Cell<V>)
      requires Valid() && c in made
      modifies this
      ensures Valid() && made == old(made) && unlocked == old(unlocked) && free == old(free) + multiset{c}
      ensures stats == if unlocked then old(stats).(size := old(stats).size + 1) else old(stats)
    {
      free := free + multiset{c};
      if unlocked {
        unlocked := false;
        stats := stats.(size := stats.size + 1);
        unlocked := true;
      }
    }

    /** The event callback. */
    method OnEvent(e: CacheSpec.Event<Cell<V>>)
      requires Valid() && (e.value.Some? ==> e.value.value in made)
      modifies this
      ensures Valid() && made == old(made) && unlocked == old(unlocked)
      ensures free == old(free) + PoolSpec.Freed(e)
      ensures stats == if unlocked then old(stats).(size := old(stats).size + |PoolSpec.Freed(e)|) else old(stats)
    {
      if (e.kind == CacheSpec.DeleteEvent || e.kind == CacheSpec.EvictionEvent) && e.value.Some? {
        Put(e.value.value);
      }
    }

    /** The event callback, called once for each event. */
    method PutAll(events: seq<CacheSpec.Event<Cell<V>>>)
      requires Valid()
      requires forall i :: 0 <= i < |events| && events[i].value.Some? ==> events[i].value.value in made
      modifies this
      ensures Valid() && made == old(made) && unlocked == old(unlocked)
      ensures free == old(free) + PoolSpec.Returned(events)
      ensures stats ==
        if unlocked then old(stats).(size := old(stats).size + |PoolSpec.Returned(events)|) else old(stats)
    {
      for i := 0 to |events|
        invariant Valid() && made == old(made) && unlocked == old(unlocked)
        invariant stats ==
          if unlocked then old(stats).(size := old(stats).size + |PoolSpec.Returned(events[..i])|) else old(stats)
        invariant free == old(free) + PoolSpec.Returned(events[..i])
      {
        OnEvent(events[i]);
        PoolSpec.ReturnedNext(events, i);
      }
      assert events[..|events|] == events;
    }

    /** Other goroutines at work on the pool: any number of Gets and event callbacks. */
    method OtherCalls()
      requires Valid()
      modifies this
      ensures Valid() && unlocked == old(unlocked)
      ensures !unlocked ==> stats == old(stats)
    {
      var n: int := *;
      n := if n < 0 then 0 else n;
      for i := 0 to n
        invariant Valid() && unlocked == old(unlocked)
        invariant !unlocked ==> stats == old(stats)
      {
        var c := Get();
        var puts: bool := *;
        if puts {
          Put(c);
        }
      }
    }

    /** The size and the product are rounded as float64 rounds them, which is whatever round does. */
    function ShrinkTarget(size: int): int {
      var t := Truncate(round(round(size as real) * shrinkFactor));
      if t < minSize then minSize else t
    }

    /** The size afterwards: the greater of minSize and x without its fraction, unless that is no less than before. */
    ghost predicate Shrunk(before: int, x: real, after: int) {
      forall t :: CutOff(x, t) ==>
        after == if before <= minSize || before <= t then before else if t < minSize then minSize else t
    }

    lemma ShrinkTargetIs(size: int)
      ensures var target := ShrinkTarget(size);
        Shrunk(size, round(round(size as real) * shrinkFactor), if target < size then target else size)
    {
      TruncateIff(round(round(size as real) * shrinkFactor));
    }

    /**
     * The loop of Cleanup. While the lock is held neither New nor a callback can count, so it ends with the size at
     * the target, and the cells taken off the size are those added to the destroyed count.
     */
    method ShrinkTo(target: int)
      requires Valid() && !unlocked
      modifies this
      ensures Valid() && !unlocked
      ensures stats.size == if target < old(stats).size then target else old(stats).size
      ensures stats == old(stats).(
        size := stats.size, destroyed := old(stats).destroyed + old(stats).size - stats.size)
    {
      while stats.size > target
        invariant Valid() && !unlocked
        invariant stats.size == old(stats).size || target <= stats.size <= old(stats).size
        invariant stats == old(stats).(
          size := stats.size, destroyed := old(stats).destroyed + old(stats).size - stats.size)
        decreases stats.size - target
      {
        OtherCalls();
        var _ := Get();
        stats := stats.(size := stats.size - 1, destroyed := stats.destroyed + 1);
      }
    }

    /** Manual cleanup, with no effect while another goroutine holds the lock. */
    method Cleanup()
      requires Valid()
      modifies this
      ensures Valid() && unlocked == old(unlocked)
      ensures stats == old(stats).(
        size := stats.size, destroyed := old(stats).destroyed + old(stats).size - stats.size)
      ensures !unlocked || old(stats).size <= maxSize ==> stats == old(stats)
      ensures unlocked && old(stats).size > maxSize ==>
        Shrunk(old(stats.size), old(round(round(stats.size as real) * shrinkFactor)), stats.size)
    {
      if !unlocked {
        return;
      }
      ShrinkTargetIs(stats.size);
      unlocked := false;
      if stats.size > maxSize {
        ShrinkTo(ShrinkTarget(stats.size));
      }
      unlocked := true;
    }
  }

  class PooledCache<V> {
    const cache: GenCache<Cell<V>>
    const pool: CellPool<V>
    ghost var Repr: set<object>

    ghost predicate Valid()
      reads this, Repr
    {
      Owns(Repr)
    }

    /** Everything the object is made of lies in repr, the cache's objects apart from the pool's. */
    ghost predicate Owns(repr: set<object>)
      reads this, repr
    {
      && this in repr && cache in repr && pool in repr && cache.Repr <= repr
      && this !in cache.Repr && pool !in cache.Repr
      && cache.Valid() && cache.store == null && pool.Valid()
      && (forall c :: c in pool.made ==> c in repr && c !in cache.Repr)
      && (forall k :: k in cache.items ==> cache.items[k].value in pool.made)
    }

    /** The cells ever made, with their values. */
    ghost function Heap(): map<Cell<V>, V>
      reads this, pool, pool.made
    {
      map c | c in pool.made :: c.value
    }

    /** The state as module PoolSpec sees it. */
    ghost function State(): PoolSpec.Pooled<Cell<V>, V>
      requires Valid()
      reads this, Repr
    {
      PoolSpec.Pooled(cache.State(), Heap(), pool.free)
    }

    constructor (
      cache: GenCache<Cell<V>>, maxSize: int, minSize: int, shrinkFactor: real, round: real -> real, zero: V)
      requires cache.Valid() && cache.store == null && cache.items == map[]
      ensures Valid() && State() == PoolSpec.Pooled(cache.State(), map[], multiset{})
    {
      this.cache := cache;
      var p := new CellPool<V>(maxSize, minSize, shrinkFactor, round, zero);
      pool := p;
      Repr := {this, p} + cache.Repr;
    }

    /** A cell from the pool, not yet written. */
    method Acquire() returns (ptr: Cell<V>)
      requires Valid()
      modifies pool, this`Repr
      ensures Valid() && fresh(Repr - old(Repr)) && cache.State() == old(cache.State())
      ensures PoolSpec.CanTake(old(State()), ptr) && ptr in pool.made
      ensures pool.made == old(pool.made) + {ptr} && pool.free == old(pool.free) - multiset{ptr}
      ensures forall c :: c in old(pool.made) ==> c.value == old(c.value)
    {
      ptr := pool.Get();
      Repr := Repr + {ptr};
    }

    method Write(ptr: Cell<V>, value: V)
      requires Valid() && ptr in pool.made
      modifies ptr
      ensures Valid() && cache.State() == old(cache.State())
      ensures Heap() == old(Heap())[ptr := value]
    {
      ptr.value := value;
    }

    /** Take a cell from the pool and write the value into it. */
    method Take(value: V) returns (ptr: Cell<V>)
      requires Valid()
      modifies Repr
      ensures Valid() && fresh(Repr - old(Repr))
      ensures PoolSpec.CanTake(old(State()), ptr) && ptr in pool.made
      ensures cache.State() == old(cache.State())
      ensures Heap() == old(Heap())[ptr := value] && pool.free == old(pool.free) - multiset{ptr}
    {
      ptr := Acquire();
      Write(ptr, value);
    }

    /** The event callback, for the events of one call. */
    method Recycle(events: seq<CacheSpec.Event<Cell<V>>>)
      requires Valid()
      requires forall i :: 0 <= i < |events| && events[i].value.Some? ==> events[i].value.value in pool.made
      modifies pool
      ensures Valid() && Repr == old(Repr) && cache.State() == old(cache.State()) && Heap() == old(Heap())
      ensures pool.free == old(pool.free) + PoolSpec.Returned(events)
    {
      pool.PutAll(events);
    }

    method Get(key: Key, now: int) returns (value: Option<V>)
      requires Valid()
      modifies Repr
      ensures Valid() && Repr == old(Repr)
      ensures State() == PoolSpec.Get(old(State()), key, now).0
      ensures value == PoolSpec.Get(old(State()), key, now).1
    {
      PoolSpec.ReturnedGet(cache.State(), key, now);
      var ptr, events := cache.Get(key, now);
      Recycle(events);
      if ptr.None? {
        return None;
      }
      value := Some(ptr.value.value);
    }

    /** The cache's own Set, before its events reach the callback. */
    method StorePointer(key: Key, ptr: Cell<V>, ttl: int, now: int)
      returns (refused: Option<CacheSpec.SetError>, events: seq<CacheSpec.Event<Cell<V>>>)
      requires Valid() && ptr in pool.made
      modifies cache.Repr, this`Repr
      ensures Valid() && fresh(Repr - old(Repr)) && Heap() == old(Heap())
      ensures pool.made == old(pool.made) && pool.free == old(pool.free)
      ensures cache.State() == CacheSpec.Set(old(cache.State()), key, ptr, ttl, now).0
      ensures refused == CacheSpec.Set(old(cache.State()), key, ptr, ttl, now).1
      ensures events == CacheSpec.SetEvents(old(cache.State()), key, ptr, ttl, now)
    {
      CacheSpec.SetItemsOrigin(cache.State(), key, ptr, ttl, now);
      refused, events := cache.Set(key, ptr, ttl, now);
      Repr := Repr + cache.Repr;
    }

    /** Store the cell under the key and let the callback see what came of it. */
    method StoreAndRecycle(key: Key, ptr: Cell<V>, ttl: int, now: int) returns (refused: Option<CacheSpec.SetError>)
      requires Valid() && ptr in pool.made
      modifies Repr
      ensures Valid() && fresh(Repr - old(Repr)) && Heap() == old(Heap())
      ensures cache.State() == CacheSpec.Set(old(cache.State()), key, ptr, ttl, now).0
      ensures refused == CacheSpec.Set(old(cache.State()), key, ptr, ttl, now).1
      ensures pool.free ==
        old(pool.free) + PoolSpec.Returned(CacheSpec.SetEvents(old(cache.State()), key, ptr, ttl, now))
    {
      CacheSpec.SetEventValues(cache.State(), key, ptr, ttl, now);
      var events;
      refused, events := StorePointer(key, ptr, ttl, now);
      Recycle(events);
    }

    method Set(key: Key, value: V, ttl: int, now: int)
      returns (refused: Option<CacheSpec.SetError>, ghost ptr: Cell<V>)
      requires Valid()
      modifies Repr
      ensures Valid() && fresh(Repr - old(Repr))
      ensures PoolSpec.CanTake(old(State()), ptr)
      ensures State() == PoolSpec.Set(old(State()), key, value, ttl, now, ptr).0
      ensures refused == PoolSpec.Set(old(State()), key, value, ttl, now, ptr).1
    {
      var cell := Take(value);
      ptr := cell;
      refused := StoreAndRecycle(key, cell, ttl, now);
    }

    method Delete(key: Key)
      requires Valid()
      modifies Repr
      ensures Valid() && Repr == old(Repr)
      ensures State() == PoolSpec.Delete(old(State()), key)
    {
      var events := cache.Delete(key);
      Recycle(events);
    }

    method Clear() returns (ghost events: seq<CacheSpec.Event<Cell<V>>>)
      requires Valid()
      modifies Repr
      ensures Valid() && Repr == old(Repr)
      ensures CacheSpec.ClearEvents(old(cache.State()), events)
      ensures State() == PoolSpec.Clear(old(State()), events)
    {
      var announced := cache.Clear();
      events := announced;
      Recycle(announced);
    }

    /** A chunk of the cache's cleanup: the callback sees its events and ignores them. */
    method SweepChunk(chunk: seq<Key>, now: int)
      requires Valid()
      modifies Repr
      ensures Valid() && Repr == old(Repr)
      ensures State() == PoolSpec.Sweep(old(State()), Elems(chunk), now)
    {
      PoolSpec.ReturnedSweep(cache.items, chunk, now);
      PoolSpec.SweptIsHeld(cache.items, chunk, now, pool.made);
      var events := cache.SweepChunk(chunk, now);
      Recycle(events);
    }
  }
}
