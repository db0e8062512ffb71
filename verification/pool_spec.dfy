/**
 * The pooled cache: a cache of pointers to cells, whose cells come from a pool and go back to it through
 * the cache's Delete and Eviction events. P is the type of pointers.
 */
module PoolSpec {
  import opened Types
  import opened Ttl
  import opened CacheSpec
  import CacheCapacity
  import PolicySpec

  /** The cache of pointers, the value in every cell made so far, and the cells lying in the pool. */
  datatype Pooled<!P(==), !V> = Pooled(cells: Cache<P>, heap: map<P, V>, free: multiset<P>)

  /** The pool hands out one of its cells, or a new one. */
  ghost predicate CanTake<P, V>(s: Pooled<P, V>, p: P) {
    p in s.free || p !in s.heap
  }

  /** What the event callback puts into the pool: the value of a Delete or Eviction event that has one. */
  ghost function Freed<P>(e: Event<P>): multiset<P> {
    if (e.kind == DeleteEvent || e.kind == EvictionEvent) && e.value.Some? then multiset{e.value.value} else multiset{}
  }

  ghost function Returned<P>(events: seq<Event<P>>): multiset<P> {
    if events == [] then multiset{}
    else Returned(events[..|events| - 1]) + Freed(events[|events| - 1])
  }

  lemma ReturnedNext<P>(events: seq<Event<P>>, i: nat)
    requires i < |events|
    ensures Returned(events[..i + 1]) == Returned(events[..i]) + Freed(events[i])
  {
    assert events[..i + 1][..i] == events[..i];
  }

  ghost function Set<P, V>(s: Pooled<P, V>, k: Key, v: V, ttl: int, now: int, p: P): (Pooled<P, V>, Option<SetError>) {
    var (cells, refused) := CacheSpec.Set(s.cells, k, p, ttl, now);
    (Pooled(cells, s.heap[p := v], s.free - multiset{p} + Returned(SetEvents(s.cells, k, p, ttl, now))), refused)
  }

  ghost function Get<P, V>(s: Pooled<P, V>, k: Key, now: int): (Pooled<P, V>, Option<V>) {
    var (cells, found) := CacheSpec.Get(s.cells, k, now);
    (s.(cells := cells), if found.Some? && found.value in s.heap then Some(s.heap[found.value]) else None)
  }

  ghost function Delete<P, V>(s: Pooled<P, V>, k: Key): Pooled<P, V> {
    s.(cells := CacheSpec.Delete(s.cells, k), free := s.free + Returned(DeleteEvents(s.cells, k)))
  }

  /** events is the order in which Clear announces the entries. */
  ghost function Clear<P, V>(s: Pooled<P, V>, events: seq<Event<P>>): Pooled<P, V> {
    s.(cells := CacheSpec.Clear(s.cells), free := s.free + Returned(events))
  }

  /** The cleanup tick emits Expiration events, which the callback ignores: the cells are lost to the pool. */
  ghost function Sweep<P, V>(s: Pooled<P, V>, ks: set<Key>, now: int): Pooled<P, V> {
    s.(cells := CacheSpec.Sweep(s.cells, ks, now))
  }

  /** The runtime drops a cell lying in the pool. */
  ghost function Forget<P, V>(s: Pooled<P, V>, p: P): Pooled<P, V> {
    s.(free := s.free - multiset{p})
  }

  // ---------------------------------------------------------------- ownership

  /** No cell is held by two keys, or held and in the pool, or in the pool twice. */
  ghost predicate OneOwner<P, V>(items: map<Key, Item<P>>, heap: map<P, V>, free: multiset<P>) {
    && (forall k :: k in items ==> items[k].value in heap && items[k].value !in free)
    && (forall k, j :: k in items && j in items && k != j ==> items[k].value != items[j].value)
    && (forall p :: p in free ==> free[p] == 1 && p in heap)
  }

  ghost predicate Owned<P, V>(s: Pooled<P, V>) {
    s.cells.store.None? && OneOwner(s.cells.items, s.heap, s.free)
  }

  /** The cache of values that the pooled cache stands for. */
  ghost function View<P, V>(s: Pooled<P, V>): Cache<V>
    requires Owned(s)
  {
    Cache(s.cells.maxSize, s.cells.ttl, Values(s.cells.items, s.heap), s.cells.policy, None, s.cells.stats)
  }

  ghost function Values<P, V>(items: map<Key, Item<P>>, heap: map<P, V>): (r: map<Key, Item<V>>)
    requires forall k :: k in items ==> items[k].value in heap
    ensures r.Keys == items.Keys && |r| == |items|
  {
    var r := map k | k in items :: Item(heap[items[k].value], items[k].expiresAt);
    assert r.Keys == items.Keys;
    r
  }

  // ---------------------------------------------------------------- one call

  lemma {:induction false} ReturnedPopped<P>(popped: seq<Key>, p: P)
    ensures Returned(EvictionEvents(popped, p)) == (multiset{})[p := |popped|]
  {
    var events := EvictionEvents(popped, p);
    if popped == [] {
    } else {
      var n := |popped| - 1;
      ReturnedPopped(popped[..n], p);
      assert events[..n] == EvictionEvents(popped[..n], p);
    }
  }

  /** The event of a hit puts nothing back. */
  lemma ReturnedGet<P>(c: Cache<P>, k: Key, now: int)
    ensures Returned(GetEvents(c, k, now)) == multiset{}
    ensures forall i :: 0 <= i < |GetEvents(c, k, now)| ==> GetEvents(c, k, now)[i].value == CacheSpec.Get(c, k, now).1
  {
    var events := GetEvents(c, k, now);
    if events != [] {
      assert events[..0] == [];
    }
  }

  lemma ReturnedSet<P>(c: Cache<P>, k: Key, p: P, ttl: int, now: int)
    ensures Returned(SetEvents(c, k, p, ttl, now)) ==
      (multiset{})[p := if Validate(ttl, c.ttl).Some? then 0 else |PoppedKeys(c)|]
  {
    if Validate(ttl, c.ttl).None? {
      var popped := EvictionEvents(PoppedKeys(c), p);
      ReturnedPopped(PoppedKeys(c), p);
      if CacheSpec.Set(c, k, p, ttl, now).1.None? {
        var last := [Event(SetEvent, k, Some(p))];
        assert (popped + last)[..|popped|] == popped;
      } else {
        assert popped + [] == popped;
      }
    }
  }

  /** Two caches that differ in their values only. */
  ghost predicate Alike<P, V>(c: Cache<P>, d: Cache<V>) {
    && c.maxSize == d.maxSize && c.ttl == d.ttl && c.items.Keys == d.items.Keys
    && c.policy == d.policy && c.stats == d.stats && c.store.None? && d.store.None?
  }

  lemma AlikeSize<P, V>(a: map<Key, Item<P>>, b: map<Key, Item<V>>)
    requires a.Keys == b.Keys
    ensures |a| == |b|
  {}

  /** The eviction loop looks at keys only. */
  lemma {:induction false} EvictLoopAlike<P, V>(
    a: map<Key, Item<P>>, b: map<Key, Item<V>>, maxSize: int, p: PolicySpec.Policy)
    requires a.Keys == b.Keys
    ensures var r, q := EvictLoop(a, maxSize, p), EvictLoop(b, maxSize, p);
      r.items.Keys == q.items.Keys && r.policy == q.policy && r.popped == q.popped && r.made == q.made
    decreases PolicySpec.Size(p)
  {
    AlikeSize(a, b);
    var (p', victim) := PolicySpec.Evict(p);
    if |a| >= maxSize && victim.Some? {
      EvictLoopAlike(a - {victim.value}, b - {victim.value}, maxSize, p');
    }
  }

  lemma MakeRoomAlike<P, V>(c: Cache<P>, d: Cache<V>)
    requires Alike(c, d)
    ensures Alike(MakeRoom(c).0, MakeRoom(d).0) && MakeRoom(c).1 == MakeRoom(d).1
    ensures PoppedKeys(c) == PoppedKeys(d)
  {
    AlikeSize(c.items, d.items);
    if c.policy.Some? {
      EvictLoopAlike(c.items, d.items, c.maxSize, c.policy.value);
    }
  }

  lemma LessTwice<V>(items: map<Key, Item<V>>, k: Key, popped: seq<Key>)
    ensures items - {k} - Elems(popped) == items - Elems([k] + popped)
    ensures items - Elems([]) == items
  {
    assert Elems([k] + popped) == {k} + Elems(popped);
  }

  /** The loop leaves the entries of the keys it did not pop. */
  lemma {:induction false} EvictLoopItems<V>(items: map<Key, Item<V>>, maxSize: int, p: PolicySpec.Policy)
    ensures EvictLoop(items, maxSize, p).items == items - Elems(EvictLoop(items, maxSize, p).popped)
    decreases PolicySpec.Size(p)
  {
    var (p', victim) := PolicySpec.Evict(p);
    if |items| < maxSize || victim.None? {
      assert items - Elems([]) == items;
    } else {
      var next := EvictLoop(items - {victim.value}, maxSize, p');
      EvictLoopItems(items - {victim.value}, maxSize, p');
      LessTwice(items, victim.value, next.popped);
    }
  }

  /** With no key popped, making room touches neither entries nor counters. */
  lemma NothingPopped<P>(c: Cache<P>)
    requires PoppedKeys(c) == []
    ensures MakeRoom(c).0 == c
  {}

  /** Writing a cell that no key holds changes no value that is held. */
  lemma OverwriteFree<P, V>(items: map<Key, Item<P>>, heap: map<P, V>, p: P, v: V)
    requires forall k :: k in items ==> items[k].value in heap && items[k].value != p
    ensures Values(items, heap[p := v]) == Values(items, heap)
  {}

  lemma TakeKeepsOwners<P, V>(items: map<Key, Item<P>>, heap: map<P, V>, free: multiset<P>, p: P, v: V)
    requires OneOwner(items, heap, free) && (p in free || p !in heap)
    ensures OneOwner(items, heap[p := v], free - multiset{p}) && p !in free - multiset{p}
    ensures forall k :: k in items ==> items[k].value != p
    ensures Values(items, heap[p := v]) == Values(items, heap)
  {
    forall k | k in items
      ensures items[k].value != p
    {
      assert items[k].value in heap && items[k].value !in free;
    }
    OverwriteFree(items, heap, p, v);
    assert forall q :: q in free - multiset{p} ==> q in free && q != p;
  }

  lemma HoldKeepsOwners<P, V>(items: map<Key, Item<P>>, heap: map<P, V>, free: multiset<P>, k: Key, i: Item<P>)
    requires OneOwner(items, heap, free) && i.value in heap && i.value !in free
    requires forall j :: j in items ==> items[j].value != i.value
    ensures OneOwner(items[k := i], heap, free)
    ensures Values(items[k := i], heap) == Values(items, heap)[k := Item(heap[i.value], i.expiresAt)]
  {}

  lemma LessKeepsOwners<P, V>(items: map<Key, Item<P>>, heap: map<P, V>, free: multiset<P>, ks: set<Key>)
    requires OneOwner(items, heap, free)
    ensures OneOwner(items - ks, heap, free)
    ensures Values(items - ks, heap) == Values(items, heap) - ks
  {}

  lemma LessFree<P, V>(items: map<Key, Item<P>>, heap: map<P, V>, free: multiset<P>, p: P)
    requires OneOwner(items, heap, free)
    ensures OneOwner(items, heap, free - multiset{p}) && p !in free - multiset{p}
  {
    assert forall q :: q in free - multiset{p} ==> q in free && q != p;
  }

  /** A cell that nobody holds and that is not in the pool may be put there. */
  lemma FreeKeepsOwners<P, V>(items: map<Key, Item<P>>, heap: map<P, V>, free: multiset<P>, p: P)
    requires OneOwner(items, heap, free) && p in heap && p !in free
    requires forall k :: k in items ==> items[k].value != p
    ensures OneOwner(items, heap, free + multiset{p})
  {}

  /** The Set evicts nothing. */
  predicate Below<P>(c: Cache<P>, ttl: int) {
    Validate(ttl, c.ttl).Some? || PoppedKeys(c) == []
  }

  /** The Set evicts nothing, or pops one key that has no entry and then fails. */
  predicate Harmless<P>(c: Cache<P>, ttl: int) {
    Below(c, ttl) || (!MakeRoom(c).1 && |PoppedKeys(c)| == 1 && PoppedKeys(c)[0] !in c.items)
  }

  lemma HarmlessItems<P>(c: Cache<P>, ttl: int)
    requires Validate(ttl, c.ttl).None? && Harmless(c, ttl)
    ensures MakeRoom(c).0.items == c.items
    ensures MakeRoom(c).1 ==> PoppedKeys(c) == []
    ensures |PoppedKeys(c)| <= 1
  {
    var popped := PoppedKeys(c);
    if popped == [] {
      assert c.items - Elems([]) == c.items;
    } else {
      assert popped == [popped[0]] && c.items - Elems(popped) == c.items;
    }
    if c.policy.Some? {
      EvictLoopItems(c.items, c.maxSize, c.policy.value);
    }
  }

  /**
   * A harmless Set keeps every cell with one owner and does to the values what the plain cache's Set does, whichever
   * cell the pool hands out.
   */
  lemma SetRefines<P, V>(s: Pooled<P, V>, k: Key, v: V, ttl: int, now: int, p: P)
    requires Owned(s) && CanTake(s, p) && Harmless(s.cells, ttl)
    ensures var (s', refused) := Set(s, k, v, ttl, now, p);
      && Owned(s')
      && View(s') == CacheSpec.Set(View(s), k, v, ttl, now).0
      && refused == CacheSpec.Set(View(s), k, v, ttl, now).1
  {
    if Validate(ttl, s.cells.ttl).Some? {
      BadTtlRefines(s, k, v, ttl, now, p);
    } else {
      HarmlessItems(s.cells, ttl);
      if MakeRoom(s.cells).1 {
        AcceptedRefines(s, k, v, ttl, now, p);
      } else {
        NoRoomRefines(s, k, v, ttl, now, p);
      }
    }
  }

  lemma BadTtlRefines<P, V>(s: Pooled<P, V>, k: Key, v: V, ttl: int, now: int, p: P)
    requires Owned(s) && CanTake(s, p) && Validate(ttl, s.cells.ttl).Some?
    ensures var (s', refused) := Set(s, k, v, ttl, now, p);
      && Owned(s')
      && View(s') == CacheSpec.Set(View(s), k, v, ttl, now).0
      && refused == CacheSpec.Set(View(s), k, v, ttl, now).1
  {
    TakeKeepsOwners(s.cells.items, s.heap, s.free, p, v);
    BadTtlCells(s.cells, k, p, ttl, now);
    BadTtlCells(View(s), k, v, ttl, now);
    assert s.free - multiset{p} + multiset{} == s.free - multiset{p};
    Rebuild(CacheSpec.Set(s.cells, k, p, ttl, now).0, s.heap[p := v], s.free - multiset{p},
            CacheSpec.Set(View(s), k, v, ttl, now).0);
  }

  /** A Set refused for its TTL counts an error and announces nothing. */
  lemma BadTtlCells<V>(c: Cache<V>, k: Key, v: V, ttl: int, now: int)
    requires Validate(ttl, c.ttl).Some?
    ensures CacheSpec.Set(c, k, v, ttl, now) ==
      (c.(stats := c.stats.(errors := c.stats.errors + 1)), Some(BadTTL(Validate(ttl, c.ttl).value)))
    ensures Returned(SetEvents(c, k, v, ttl, now)) == multiset{}
  {}

  lemma AcceptedRefines<P, V>(s: Pooled<P, V>, k: Key, v: V, ttl: int, now: int, p: P)
    requires Owned(s) && CanTake(s, p) && Validate(ttl, s.cells.ttl).None?
    requires PoppedKeys(s.cells) == [] && MakeRoom(s.cells).1
    ensures var (s', refused) := Set(s, k, v, ttl, now, p);
      && Owned(s')
      && View(s') == CacheSpec.Set(View(s), k, v, ttl, now).0
      && refused == CacheSpec.Set(View(s), k, v, ttl, now).1
  {
    var c, d, free := s.cells, View(s), s.free - multiset{p};
    ReturnedSet(c, k, p, ttl, now);
    TakeKeepsOwners(c.items, s.heap, s.free, p, v);
    FreedWhileStored(free, p, 0);
    MakeRoomAlike(c, d);
    NothingPopped(c);
    NothingPopped(d);
    HoldKeepsOwners(c.items, s.heap[p := v], free, k, NewItem(c, p, ttl, now));
    InsertAlike(c, d, k, p, v, ttl, now);
    Rebuild(Insert(c, k, p, ttl, now).0, s.heap[p := v], free, Insert(d, k, v, ttl, now).0);
  }

  lemma NoRoomRefines<P, V>(s: Pooled<P, V>, k: Key, v: V, ttl: int, now: int, p: P)
    requires Owned(s) && CanTake(s, p) && Validate(ttl, s.cells.ttl).None?
    requires Harmless(s.cells, ttl) && !MakeRoom(s.cells).1
    ensures var (s', refused) := Set(s, k, v, ttl, now, p);
      && Owned(s')
      && View(s') == CacheSpec.Set(View(s), k, v, ttl, now).0
      && refused == CacheSpec.Set(View(s), k, v, ttl, now).1
  {
    var c, d, free := s.cells, View(s), s.free - multiset{p};
    ReturnedSet(c, k, p, ttl, now);
    TakeKeepsOwners(c.items, s.heap, s.free, p, v);
    FreedWhileStored(free, p, |PoppedKeys(c)|);
    HarmlessItems(c, ttl);
    MakeRoomAlike(c, d);
    ViewHarmless(s, ttl);
    HarmlessItems(d, ttl);
    var free' := free + (multiset{})[p := |PoppedKeys(c)|];
    if |PoppedKeys(c)| == 1 {
      FreeKeepsOwners(c.items, s.heap[p := v], free, p);
    }
    Rebuild(MakeRoom(c).0, s.heap[p := v], free', MakeRoom(d).0);
  }

  /** Being harmless is a matter of the keys alone. */
  lemma ViewHarmless<P, V>(s: Pooled<P, V>, ttl: int)
    requires Owned(s)
    ensures Harmless(View(s), ttl) <==> Harmless(s.cells, ttl)
  {
    MakeRoomAlike(s.cells, View(s));
  }

  lemma InsertAlike<P, V>(c: Cache<P>, d: Cache<V>, k: Key, p: P, v: V, ttl: int, now: int)
    requires Alike(c, d)
    ensures var (c', e) := Insert(c, k, p, ttl, now);
      var (d', f) := Insert(d, k, v, ttl, now);
      && e == f == None && Alike(c', d')
      && c'.items == c.items[k := NewItem(c, p, ttl, now)] && d'.items == d.items[k := NewItem(d, v, ttl, now)]
      && NewItem(c, p, ttl, now).expiresAt == NewItem(d, v, ttl, now).expiresAt
  {}

  /** Get reads through the cell what the plain cache stores. */
  lemma GetRefines<P, V>(s: Pooled<P, V>, k: Key, now: int)
    requires Owned(s)
    ensures Owned(Get(s, k, now).0)
    ensures View(Get(s, k, now).0) == CacheSpec.Get(View(s), k, now).0
    ensures Get(s, k, now).1 == CacheSpec.Get(View(s), k, now).1
  {
    var c, d := s.cells, View(s);
    GetAlike(c, d, k, now);
    LessKeepsOwners(c.items, s.heap, s.free, {k});
    Rebuild(CacheSpec.Get(c, k, now).0, s.heap, s.free, CacheSpec.Get(d, k, now).0);
  }

  lemma GetAlike<P, V>(c: Cache<P>, d: Cache<V>, k: Key, now: int)
    requires Alike(c, d) && (k in c.items ==> c.items[k].expiresAt == d.items[k].expiresAt)
    ensures Alike(CacheSpec.Get(c, k, now).0, CacheSpec.Get(d, k, now).0)
  {}

  /** Delete hands the key's cell, if it has one, to the pool, and nothing else changes owner. */
  lemma DeleteRefines<P, V>(s: Pooled<P, V>, k: Key)
    requires Owned(s)
    ensures Owned(Delete(s, k)) && View(Delete(s, k)) == CacheSpec.Delete(View(s), k)
    ensures Delete(s, k).free == s.free + if k in s.cells.items then multiset{s.cells.items[k].value} else multiset{}
  {
    var c, d := s.cells, View(s);
    ReturnedDelete(c, k);
    LessKeepsOwners(c.items, s.heap, s.free, {k});
    DeleteAlike(c, d, k);
    if k in c.items {
      FreeKeepsOwners(c.items - {k}, s.heap, s.free, c.items[k].value);
      Rebuild(CacheSpec.Delete(c, k), s.heap, s.free + multiset{c.items[k].value}, CacheSpec.Delete(d, k));
    } else {
      assert s.free + multiset{} == s.free;
      Rebuild(CacheSpec.Delete(c, k), s.heap, s.free, CacheSpec.Delete(d, k));
    }
  }

  /** New parts that keep the owners and match d make a pooled cache that stands for d. */
  lemma Rebuild<P, V>(cells: Cache<P>, heap: map<P, V>, free: multiset<P>, d: Cache<V>)
    requires OneOwner(cells.items, heap, free) && Alike(cells, d) && d.items == Values(cells.items, heap)
    ensures var s := Pooled(cells, heap, free); Owned(s) && View(s) == d
  {}

  lemma DeleteAlike<P, V>(c: Cache<P>, d: Cache<V>, k: Key)
    requires Alike(c, d)
    ensures Alike(CacheSpec.Delete(c, k), CacheSpec.Delete(d, k))
  {}

  lemma ReturnedDelete<P>(c: Cache<P>, k: Key)
    ensures Returned(DeleteEvents(c, k)) == if k in c.items then multiset{c.items[k].value} else multiset{}
  {}

  /** Eviction events that carry pairwise different cells. */
  ghost predicate DistinctCells<P>(events: seq<Event<P>>) {
    && (forall i :: 0 <= i < |events| ==> events[i].kind == EvictionEvent && events[i].value.Some?)
    && (forall i, j :: 0 <= i < j < |events| ==> events[i].value != events[j].value)
  }

  lemma {:induction false} ReturnedNever<P>(events: seq<Event<P>>, n: nat, p: P)
    requires n <= |events| && forall i :: 0 <= i < n ==> events[i].value != Some(p)
    ensures Returned(events[..n])[p] == 0
  {
    if n == 0 {
    } else {
      ReturnedNever(events, n - 1, p);
      ReturnedNext(events, n - 1);
    }
  }

  lemma ReturnedOneMore<P>(events: seq<Event<P>>, i: nat, p: P)
    requires DistinctCells(events) && i < |events|
    ensures Returned(events[..i + 1])[p] == Returned(events[..i])[p] + if events[i].value == Some(p) then 1 else 0
  {
    ReturnedNext(events, i);
  }

  /** They put a cell into the pool only if an event carries it, and then once. */
  lemma {:induction false} ReturnedOnce<P>(events: seq<Event<P>>, n: nat, p: P) returns (i: nat)
    requires DistinctCells(events) && n <= |events| && Returned(events[..n])[p] > 0
    ensures i < n && events[i].value == Some(p) && Returned(events[..n])[p] == 1
  {
    if n == 0 {
      assert false;
    }
    ReturnedOneMore(events, n - 1, p);
    if events[n - 1].value == Some(p) {
      i := n - 1;
      ReturnedNever(events, i, p);
    } else {
      i := ReturnedOnce(events, n - 1, p);
    }
  }

  lemma ClearCells<P, V>(s: Pooled<P, V>, events: seq<Event<P>>)
    requires Owned(s) && ClearEvents(s.cells, events)
    ensures DistinctCells(events)
    ensures forall i :: 0 <= i < |events| ==> events[i].value.value in s.heap && events[i].value.value !in s.free
  {}

  lemma {:induction false} ReturnedAny<P>(events: seq<Event<P>>, n: nat, i: nat)
    requires DistinctCells(events) && i < n <= |events|
    ensures events[i].value.value in Returned(events[..n])
  {
    ReturnedNext(events, n - 1);
    if i < n - 1 {
      ReturnedAny(events, n - 1, i);
    }
  }

  /** Every entry is announced. */
  lemma ClearCovers<P>(c: Cache<P>, events: seq<Event<P>>, k: Key) returns (i: nat)
    requires ClearEvents(c, events) && k in c.items
    ensures i < |events| && events[i].key == k
  {
    var keys := seq(|events|, j requires 0 <= j < |events| => events[j].key);
    DistinctElems(keys);
    if k !in keys {
      SubsetSize(Elems(keys), c.items.Keys - {k});
    }
    i :| 0 <= i < |keys| && keys[i] == k;
  }

  ghost function HeldCells<P>(items: map<Key, Item<P>>): set<P> {
    set k | k in items :: items[k].value
  }

  lemma ReturnedIsHeld<P, V>(s: Pooled<P, V>, events: seq<Event<P>>, p: P)
    requires Owned(s) && ClearEvents(s.cells, events)
    ensures p in Returned(events) <==> p in HeldCells(s.cells.items)
    ensures p in Returned(events) ==> Returned(events)[p] == 1 && p !in s.free && p in s.heap
  {
    ClearCells(s, events);
    assert events[..|events|] == events;
    if p in Returned(events) {
      var i := ReturnedOnce(events, |events|, p);
      assert events[i].key in s.cells.items;
    }
    if k :| k in s.cells.items && s.cells.items[k].value == p {
      var i := ClearCovers(s.cells, events, k);
      ReturnedAny(events, |events|, i);
    }
  }

  lemma ReturnedAreHeld<P, V>(s: Pooled<P, V>, events: seq<Event<P>>)
    requires Owned(s) && ClearEvents(s.cells, events)
    ensures forall p :: p in Returned(events) ==> Returned(events)[p] == 1 && p !in s.free && p in s.heap
    ensures forall p :: p in s.free + Returned(events) <==> p in s.free || p in HeldCells(s.cells.items)
  {
    forall p | p in Returned(events)
      ensures Returned(events)[p] == 1 && p !in s.free && p in s.heap && p in HeldCells(s.cells.items)
    {
      ReturnedIsHeld(s, events, p);
    }
    forall p | p in HeldCells(s.cells.items)
      ensures p in Returned(events)
    {
      ReturnedIsHeld(s, events, p);
    }
  }

  /** Clear hands every held cell to the pool once, in whatever order the entries are announced. */
  lemma ClearRefines<P, V>(s: Pooled<P, V>, events: seq<Event<P>>)
    requires Owned(s) && ClearEvents(s.cells, events)
    ensures Owned(Clear(s, events)) && View(Clear(s, events)) == CacheSpec.Clear(View(s))
    ensures forall p :: p in Clear(s, events).free <==> p in s.free || p in HeldCells(s.cells.items)
  {
    ReturnedAreHeld(s, events);
    FreeAllKeepsOwners(s.heap, s.free, Returned(events));
    Rebuild(CacheSpec.Clear(s.cells), s.heap, s.free + Returned(events), CacheSpec.Clear(View(s)));
  }

  lemma FreeAllKeepsOwners<P, V>(heap: map<P, V>, free: multiset<P>, returned: multiset<P>)
    requires forall p :: p in free ==> free[p] == 1 && p in heap
    requires forall p :: p in returned ==> returned[p] == 1 && p !in free && p in heap
    ensures OneOwner(map[], heap, free + returned)
  {}

  lemma SweepRefines<P, V>(s: Pooled<P, V>, ks: set<Key>, now: int)
    requires Owned(s)
    ensures Owned(Sweep(s, ks, now)) && View(Sweep(s, ks, now)) == CacheSpec.Sweep(View(s), ks, now)
  {
    var gone := Stale(s.cells, ks, now);
    assert Stale(View(s), ks, now) == gone;
    LessKeepsOwners(s.cells.items, s.heap, s.free, gone);
    SweepAlike(s.cells, View(s), ks, now);
    Rebuild(CacheSpec.Sweep(s.cells, ks, now), s.heap, s.free, CacheSpec.Sweep(View(s), ks, now));
  }

  lemma {:induction false} ExpirationsIgnored<P>(events: seq<Event<P>>)
    requires forall e :: e in events ==> e.kind == ExpirationEvent
    ensures Returned(events) == multiset{}
  {
    if events == [] {
    } else {
      ExpirationsIgnored(events[..|events| - 1]);
      assert events[|events| - 1] in events;
    }
  }

  /** A sweep announces expirations only, of cells that were held. */
  lemma {:induction false} SweptIsHeld<P>(items: map<Key, Item<P>>, ks: seq<Key>, now: int, cells: set<P>)
    requires forall k :: k in items ==> items[k].value in cells
    ensures forall e :: e in SweepEvents(items, ks, now) ==>
      e.kind == ExpirationEvent && e.value.Some? && e.value.value in cells
  {
    if ks == [] {
    } else {
      SweptIsHeld(items, ks[..|ks| - 1], now, cells);
    }
  }

  /** No cell that goes by expiry comes back to the pool. */
  lemma ReturnedSweep<P>(items: map<Key, Item<P>>, ks: seq<Key>, now: int)
    ensures Returned(SweepEvents(items, ks, now)) == multiset{}
  {
    SweptIsHeld(items, ks, now, set k | k in items :: items[k].value);
    ExpirationsIgnored(SweepEvents(items, ks, now));
  }

  lemma SweepAlike<P, V>(c: Cache<P>, d: Cache<V>, ks: set<Key>, now: int)
    requires Alike(c, d) && Stale(c, ks, now) == Stale(d, ks, now)
    ensures Alike(CacheSpec.Sweep(c, ks, now), CacheSpec.Sweep(d, ks, now))
  {}

  lemma ForgetRefines<P, V>(s: Pooled<P, V>, p: P)
    requires Owned(s)
    ensures Owned(Forget(s, p)) && View(Forget(s, p)) == View(s)
  {
    LessFree(s.cells.items, s.heap, s.free, p);
  }

  // ---------------------------------------------------------------- at the capacity limit

  /** What a caller can check before a Set: it is refused at once, or evicts nothing, or one stale key and fails. */
  ghost predicate SetGuard<P>(c: Cache<P>, ttl: int) {
    || Validate(ttl, c.ttl).Some?
    || !CacheCapacity.Full(c)
    || c.policy.None?
    || PolicySpec.Size(c.policy.value) == 0
    || (PolicySpec.Size(c.policy.value) == 1 && PolicySpec.Tracked(c.policy.value) !! c.items.Keys)
  }

  /** In a reachable state the guard says that the Set is harmless. */
  lemma GuardIsHarmless<P>(c: Cache<P>, ttl: int)
    requires CacheCapacity.WellFormed(c)
    ensures SetGuard(c, ttl) <==> Harmless(c, ttl)
  {
    CacheCapacity.PopsNothingIff(c);
    if c.policy.Some? {
      PolicySpec.SizeIsTracked(c.policy.value);
      if CacheCapacity.Full(c) {
        CacheCapacity.FailsAfterIff(c, 1);
        CacheCapacity.FullMakeRoom(c);
      }
    }
  }

  /**
   * An eviction event carries the incoming cell, which the callback therefore frees while it is being stored.
   * One owner per cell survives a Set if and only if the guard holds, whichever cell the pool hands out.
   */
  lemma SetKeepsOwnersIff<P, V>(s: Pooled<P, V>, k: Key, v: V, ttl: int, now: int, p: P)
    requires Owned(s) && CanTake(s, p) && CacheCapacity.WellFormed(s.cells)
    ensures Owned(Set(s, k, v, ttl, now, p).0) <==> SetGuard(s.cells, ttl)
  {
    GuardIsHarmless(s.cells, ttl);
    if Harmless(s.cells, ttl) {
      SetRefines(s, k, v, ttl, now, p);
    } else if MakeRoom(s.cells).1 {
      StoredWhileFree(s, k, v, ttl, now, p);
    } else {
      FailedKeepsOwnersIff(s, k, v, ttl, now, p);
      CacheCapacity.FailsAfterIff(s.cells, 1);
    }
  }

  /** An evicting Set that succeeds leaves the cell of its key in the pool, for the next Set to overwrite. */
  lemma StoredWhileFree<P, V>(s: Pooled<P, V>, k: Key, v: V, ttl: int, now: int, p: P)
    requires Owned(s) && CanTake(s, p) && !Below(s.cells, ttl) && Set(s, k, v, ttl, now, p).1.None?
    ensures var s' := Set(s, k, v, ttl, now, p).0;
      && k in s'.cells.items && s'.cells.items[k].value == p
      && CanTake(s', p) && !Owned(s')
  {
    ReturnedSet(s.cells, k, p, ttl, now);
    var s' := Set(s, k, v, ttl, now, p).0;
    assert s'.free[p] >= |PoppedKeys(s.cells)|;
  }

  /** Then even a Set that is refused for its TTL, for any key, changes what Get answers for the first key. */
  lemma RefusedSetOverwrites<P, V>(
    s: Pooled<P, V>, k: Key, v: V, ttl: int, now: int, p: P, j: Key, w: V, badTtl: int, later: int)
    requires Owned(s) && CanTake(s, p) && !Below(s.cells, ttl) && Set(s, k, v, ttl, now, p).1.None?
    requires Validate(badTtl, s.cells.ttl).Some? && (ttl == 0 || later < now + ttl)
    ensures var s' := Set(s, k, v, ttl, now, p).0;
      && CanTake(s', p)
      && Get(s', k, later).1 == Some(v)
      && Set(s', j, w, badTtl, later, p).1.Some?
      && Get(Set(s', j, w, badTtl, later, p).0, k, later).1 == Some(w)
  {
    StoredWhileFree(s, k, v, ttl, now, p);
    ValidatedIsNormal(ttl, s.cells.ttl);
    var c' := CacheSpec.Set(s.cells, k, p, ttl, now).0;
    assert c'.items[k] == NewItem(s.cells, p, ttl, now);
    BadTtlCells(c', j, p, badTtl, later);
  }

  lemma FailedKeepsOwnersIff<P, V>(s: Pooled<P, V>, k: Key, v: V, ttl: int, now: int, p: P)
    requires Owned(s) && CanTake(s, p) && !Below(s.cells, ttl)
    requires Set(s, k, v, ttl, now, p).1.Some?
    ensures Set(s, k, v, ttl, now, p).1 == Some(CapacityReached)
    ensures Owned(Set(s, k, v, ttl, now, p).0) <==> |PoppedKeys(s.cells)| == 1
  {
    var c, s' := s.cells, Set(s, k, v, ttl, now, p).0;
    var heap, free := s.heap[p := v], s.free - multiset{p};
    ReturnedSet(c, k, p, ttl, now);
    FailedSetItems(c, k, p, ttl, now);
    TakeKeepsOwners(c.items, s.heap, s.free, p, v);
    FreedWhileStored(free, p, |PoppedKeys(c)|);
    PartKeepsOwners(c.items, heap, free, s'.cells.items);
    if |PoppedKeys(c)| == 1 {
      FreeKeepsOwners(s'.cells.items, heap, free, p);
    }
  }

  lemma PartKeepsOwners<P, V>(items: map<Key, Item<P>>, heap: map<P, V>, free: multiset<P>, part: map<Key, Item<P>>)
    requires OneOwner(items, heap, free) && forall j :: j in part ==> j in items && part[j] == items[j]
    ensures OneOwner(part, heap, free)
  {}

  lemma FreedWhileStored<P>(free: multiset<P>, p: P, n: nat)
    requires p !in free
    ensures (free + (multiset{})[p := n])[p] == n
    ensures n == 0 ==> free + (multiset{})[p := n] == free
    ensures n == 1 ==> free + (multiset{})[p := n] == free + multiset{p}
  {}

  /** A Set without a store that fails for capacity leaves a part of the entries as they were. */
  lemma FailedSetItems<P>(c: Cache<P>, k: Key, p: P, ttl: int, now: int)
    requires c.store.None? && Validate(ttl, c.ttl).None? && CacheSpec.Set(c, k, p, ttl, now).1.Some?
    ensures var (c', refused) := CacheSpec.Set(c, k, p, ttl, now);
      && refused == Some(CapacityReached) && c'.store.None?
      && forall j :: j in c'.items ==> j in c.items && c'.items[j] == c.items[j]
  {
    if c.policy.Some? {
      EvictLoopShrinks(c.items, c.maxSize, c.policy.value);
    }
  }
}
