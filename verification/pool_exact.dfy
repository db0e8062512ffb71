/** What a caller of the pooled cache sees: right answers for ever if and only if the guards are met. */
module PoolExact {
  import opened Types
  import opened Ttl
  import CacheCapacity
  import CacheSpec
  import opened PoolSpec
  import opened PoolRuns

  /** Every Get after every legal continuation returns what the plain cache d returns after the same calls. */
  ghost predicate Right<P(!new), V(!new)>(s: Pooled<P, V>, d: CacheSpec.Cache<V>) {
    forall more, k, now :: LegalRun(s, more) ==>
      Get(Run(s, more), k, now).1 == CacheSpec.Get(PlainRun<P, V>(d, more), k, now).1
  }

  lemma OwnedIsRight<P(!new), V(!new)>(s: Pooled<P, V>)
    requires Owned(s)
    ensures Right(s, View(s))
  {
    forall more, k, now | LegalRun(s, more)
      ensures Get(Run(s, more), k, now).1 == CacheSpec.Get(PlainRun<P, V>(View(s), more), k, now).1
    {
      RunRefines(s, more);
      GetRefines(Run(s, more), k, now);
    }
  }

  // ---------------------------------------------------------------- carrying a run on

  lemma {:induction false} RunAfter<P, V>(s: Pooled<P, V>, d: CacheSpec.Cache<V>, op: Op<P, V>, more: seq<Op<P, V>>)
    ensures Run(s, [op] + more) == Run(Step(s, op), more)
    ensures PlainRun(d, [op] + more) == PlainRun(PlainStep(d, op), more)
    ensures LegalRun(s, [op] + more) <==> Legal(s, op) && LegalRun(Step(s, op), more)
  {
    var all, none: seq<Op<P, V>> := [op] + more, [];
    if more == [] {
      assert all == [op] && all[..0] == none;
      assert Run(s, none) == s && PlainRun(d, none) == d && LegalRun(s, none);
    } else {
      var n := |more| - 1;
      RunAfter(s, d, op, more[..n]);
      assert all[..|all| - 1] == [op] + more[..n];
    }
  }

  lemma RightAfter<P(!new), V(!new)>(s: Pooled<P, V>, d: CacheSpec.Cache<V>, op: Op<P, V>)
    requires Right(s, d) && Legal(s, op)
    ensures Right(Step(s, op), PlainStep(d, op))
  {
    forall more, k, now | LegalRun(Step(s, op), more)
      ensures Get(Run(Step(s, op), more), k, now).1
        == CacheSpec.Get(PlainRun<P, V>(PlainStep(d, op), more), k, now).1
    {
      RunAfter(s, d, op, more);
    }
  }

  lemma RightNow<P(!new), V(!new)>(s: Pooled<P, V>, d: CacheSpec.Cache<V>, k: Key, now: int)
    requires Right(s, d)
    ensures Get(s, k, now).1 == CacheSpec.Get(d, k, now).1
  {
    var none: seq<Op<P, V>> := [];
    assert Run(s, none) == s && PlainRun<P, V>(d, none) == d && LegalRun(s, none);
  }

  // ---------------------------------------------------------------- a cell both held and free

  /** The entry of k is alive and holds v, in both caches. */
  ghost predicate Holds<P, V>(s: Pooled<P, V>, d: CacheSpec.Cache<V>, k: Key, p: P, now: int) {
    && k in s.cells.items && s.cells.items[k].value == p && CacheSpec.Fresh(s.cells.items[k].expiresAt, now)
    && k in d.items && CacheSpec.Fresh(d.items[k].expiresAt, now)
  }

  /** Taking p out of the pool for a Set that is refused writes w into the entry of k. */
  lemma FreeIsWrong<P(!new), V(!new)>(s: Pooled<P, V>, d: CacheSpec.Cache<V>, k: Key, p: P, w: V, now: int)
    requires Holds(s, d, k, p, now) && p in s.free && w != d.items[k].value
    ensures !Right(s, d)
  {
    var op := SetOp(k, w, -1, now, p);
    if Right(s, d) {
      RightAfter(s, d, op);
      RightNow(Step(s, op), PlainStep(d, op), k, now);
      BadTtlCells(s.cells, k, p, -1, now);
      BadTtlCells(d, k, w, -1, now);
    }
  }

  /** An accepted Set holds its own cell. */
  lemma AcceptedHolds<P, V>(
    s: Pooled<P, V>, d: CacheSpec.Cache<V>, k: Key, v: V, ttl: int, now: int, p: P)
    requires Alike(s.cells, d) && Set(s, k, v, ttl, now, p).1.None?
    ensures Holds(Set(s, k, v, ttl, now, p).0, CacheSpec.Set(d, k, v, ttl, now).0, k, p, now)
    ensures CacheSpec.Set(d, k, v, ttl, now).0.items[k].value == v
  {
    MakeRoomAlike(s.cells, d);
    ValidatedIsNormal(ttl, d.ttl);
    InsertAlike(CacheSpec.MakeRoom(s.cells).0, CacheSpec.MakeRoom(d).0, k, p, v, ttl, now);
  }

  // ---------------------------------------------------------------- an evicting Set

  /** If it succeeds, its key's cell is in the pool at once. */
  lemma EvictingIsWrong<P(!new), V(!new)>(s: Pooled<P, V>, k: Key, v: V, ttl: int, now: int, p: P, w: V)
    requires Owned(s) && CanTake(s, p) && !Below(s.cells, ttl) && Set(s, k, v, ttl, now, p).1.None? && w != v
    ensures !Right(Set(s, k, v, ttl, now, p).0, CacheSpec.Set(View(s), k, v, ttl, now).0)
  {
    StoredWhileFree(s, k, v, ttl, now, p);
    AcceptedHolds(s, View(s), k, v, ttl, now, p);
    FreeIsWrong(Set(s, k, v, ttl, now, p).0, CacheSpec.Set(View(s), k, v, ttl, now).0, k, p, w, now);
  }

  /** With a cell twice in the pool of a full cache, a Delete and a Set are enough to have it both held and free. */
  lemma TwiceFreeIsWrong<P(!new), V(!new)>(
    s: Pooled<P, V>, d: CacheSpec.Cache<V>, x: Key, v: V, ttl: int, now: int, p: P, w: V)
    requires Alike(s.cells, d) && s.free[p] >= 2 && Validate(ttl, s.cells.ttl).None? && w != v
    requires x in s.cells.items && 0 < |s.cells.items| == s.cells.maxSize
    ensures !Right(s, d)
  {
    var delete, set' := DeleteOp(x), SetOp(x, v, ttl, now, p);
    var s1, d1 := Delete(s, x), CacheSpec.Delete(d, x);
    DeleteAlike(s.cells, d, x);
    assert s1.cells.items.Keys == s.cells.items.Keys - {x};
    assert |s1.cells.items.Keys| == s.cells.maxSize - 1;
    AcceptedFree(s1, x, v, ttl, now, p);
    AcceptedHolds(s1, d1, x, v, ttl, now, p);
    var s2, d2 := Set(s1, x, v, ttl, now, p).0, CacheSpec.Set(d1, x, v, ttl, now).0;
    if Right(s, d) {
      RightAfter(s, d, delete);
      RightAfter(s1, d1, set');
      FreeIsWrong(s2, d2, x, p, w, now);
    }
  }

  /** A Set that has room is accepted, and takes its cell out of the pool once. */
  lemma AcceptedFree<P, V>(s: Pooled<P, V>, k: Key, v: V, ttl: int, now: int, p: P)
    requires s.cells.store.None? && Validate(ttl, s.cells.ttl).None? && |s.cells.items| < s.cells.maxSize
    ensures var (s', refused) := Set(s, k, v, ttl, now, p);
      refused == None && s'.free[p] + 1 >= s.free[p]
    ensures Harmless(s.cells, ttl)
  {
    ReturnedSet(s.cells, k, p, ttl, now);
  }

  /** If it fails after two pops or more, its cell is in the pool as often. */
  lemma FailingIsWrong<P(!new), V(!new)>(s: Pooled<P, V>, k: Key, v: V, ttl: int, now: int, p: P, w: V)
    requires Owned(s) && CacheCapacity.WellFormed(s.cells) && CanTake(s, p) && w != v
    requires Validate(ttl, s.cells.ttl).None? && !CacheSpec.MakeRoom(s.cells).1 && |CacheSpec.PoppedKeys(s.cells)| >= 2
    ensures !Right(Set(s, k, v, ttl, now, p).0, CacheSpec.Set(View(s), k, v, ttl, now).0)
  {
    var c, d := s.cells, View(s);
    CacheCapacity.FullMakeRoom(c);
    ReturnedSet(c, k, p, ttl, now);
    TakeKeepsOwners(c.items, s.heap, s.free, p, v);
    FreedWhileStored(s.free - multiset{p}, p, |CacheSpec.PoppedKeys(c)|);
    MakeRoomAlike(c, d);
    assert c.items.Keys != {};
    var x :| x in c.items;
    TwiceFreeIsWrong(Set(s, k, v, ttl, now, p).0, CacheSpec.Set(d, k, v, ttl, now).0, x, v, ttl, now, p, w);
  }

  // ---------------------------------------------------------------- exactly when

  ghost predicate SetMeetsGuard<P, V>(s: Pooled<P, V>, op: Op<P, V>) {
    op.SetOp? ==> SetGuard(s.cells, op.ttl)
  }

  lemma SetRightIff<P(!new), V(!new)>(s: Pooled<P, V>, k: Key, v: V, ttl: int, now: int, p: P, w: V)
    requires Owned(s) && CacheCapacity.WellFormed(s.cells) && CanTake(s, p) && w != v
    ensures Right(Set(s, k, v, ttl, now, p).0, CacheSpec.Set(View(s), k, v, ttl, now).0) <==> SetGuard(s.cells, ttl)
  {
    GuardIsHarmless(s.cells, ttl);
    if Harmless(s.cells, ttl) {
      SetRefines(s, k, v, ttl, now, p);
      OwnedIsRight(Set(s, k, v, ttl, now, p).0);
    } else if CacheSpec.MakeRoom(s.cells).1 {
      EvictingIsWrong(s, k, v, ttl, now, p, w);
    } else {
      CacheCapacity.FullMakeRoom(s.cells);
      CacheCapacity.FailsAfterIff(s.cells, 1);
      FailingIsWrong(s, k, v, ttl, now, p, w);
    }
  }

  /** From a state with one owner per cell, a call leaves every later answer right if and only if it meets the guard. */
  lemma StepRightIff<P(!new), V(!new)>(s: Pooled<P, V>, op: Op<P, V>, w: V)
    requires Owned(s) && CacheCapacity.WellFormed(s.cells) && Possible(s, op) && (op.SetOp? ==> w != op.value)
    ensures Right(Step(s, op), PlainStep(View(s), op)) <==> SetMeetsGuard(s, op)
  {
    if op.SetOp? {
      SetRightIff(s, op.key, op.value, op.ttl, op.now, op.cell, w);
    } else {
      StepRefines(s, op);
      OwnedIsRight(Step(s, op));
    }
  }

  ghost predicate RightThroughout<P(!new), V(!new)>(s: Pooled<P, V>, trace: seq<Op<P, V>>)
    requires Owned(s)
  {
    && Right(Run(s, trace), PlainRun(View(s), trace))
    && (trace != [] ==> RightThroughout(s, trace[..|trace| - 1]))
  }

  /** Every answer is right all along a run, and ever after, if and only if every Set of the run meets its guard. */
  lemma {:induction false} AnswersIff<P(!new), V(!new)>(s: Pooled<P, V>, trace: seq<Op<P, V>>, a: V, b: V)
    requires Owned(s) && CacheCapacity.WellFormed(s.cells) && PossibleRun(s, trace) && a != b
    ensures RightThroughout(s, trace) <==> Guarded(s, trace)
  {
    if trace == [] {
      OwnedIsRight(s);
    } else {
      var before, op := trace[..|trace| - 1], trace[|trace| - 1];
      AnswersIff(s, before, a, b);
      if Guarded(s, before) {
        OwnershipIff(s, before);
        RunRefines(s, before);
        StepRightIff(Run(s, before), op, if op.SetOp? && op.value == a then b else a);
      }
    }
  }
}
