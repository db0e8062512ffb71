/** What DeleteMany does to the cache, over every interleaving of its workers. */
module BatchEffects {
  import opened Types
  import opened BatchDelete
  import CacheSpec

  /**
   * The cache after the steps taken so far. A delete that succeeds is one call on the cache; one that fails, because
   * the cache is closed or the context cancelled, does nothing to it. keys is the truncated batch.
   */
  function CacheAfter<V>(c: CacheSpec.Cache<V>, keys: seq<Key>, steps: seq<Step>): CacheSpec.Cache<V> {
    if steps == [] then c
    else
      var before, step := CacheAfter(c, keys, steps[..|steps| - 1]), steps[|steps| - 1];
      if step.WorkDelete? && step.ok && step.i < |keys| then CacheSpec.Delete(before, keys[step.i]) else before
  }

  /** The worker's delete has succeeded. */
  predicate Deleted(w: Worker) {
    w.Counting? || Counted(w)
  }

  ghost function DeletedKeys(keys: seq<Key>, ws: seq<Worker>): set<Key> {
    set i | 0 <= i < |keys| && i < |ws| && Deleted(ws[i]) :: keys[i]
  }

  /** Neither tier has an entry but those of c whose keys are not in gone, and all of these. */
  ghost predicate Lacks<V>(c: CacheSpec.Cache<V>, c': CacheSpec.Cache<V>, gone: set<Key>) {
    && c'.items == c.items - gone
    && (c'.store.Some? <==> c.store.Some?)
    && (c.store.Some? ==> c'.store.value.items == c.store.value.items - gone)
  }

  lemma OneStepDeletes(s: State, step: Step, keys: seq<Key>)
    requires Enabled(s, step) && |keys| == |s.workers|
    requires step.LaunchSpawn? ==> s.workers[s.next].NotStarted?
    ensures DeletedKeys(keys, Next(s, step).workers) == DeletedKeys(keys, s.workers) +
      if step.WorkDelete? && step.ok then {keys[step.i]} else {}
  {
    var ws, ws' := s.workers, Next(s, step).workers;
    if WorkerMoves(step) || step.LaunchSpawn? {
      var i := if step.LaunchSpawn? then s.next else step.i;
      OneWorkerDeletes(keys, ws, i, ws'[i]);
    }
  }

  lemma OneWorkerDeletes(keys: seq<Key>, ws: seq<Worker>, i: nat, w: Worker)
    requires i < |ws| == |keys| && (Deleted(ws[i]) ==> Deleted(w))
    ensures DeletedKeys(keys, ws[i := w]) == DeletedKeys(keys, ws) + if Deleted(w) then {keys[i]} else {}
  {
    var ws' := ws[i := w];
    forall k
      ensures k in DeletedKeys(keys, ws') <==> k in DeletedKeys(keys, ws) || (Deleted(w) && k == keys[i])
    {
      if k in DeletedKeys(keys, ws) {
        var j :| 0 <= j < |keys| && Deleted(ws[j]) && keys[j] == k;
        assert Deleted(ws'[j]);
      }
      if Deleted(w) {
        assert Deleted(ws'[i]);
      }
    }
  }

  lemma LacksOneMore<V>(c: CacheSpec.Cache<V>, c': CacheSpec.Cache<V>, gone: set<Key>, k: Key)
    requires Lacks(c, c', gone)
    ensures Lacks(c, CacheSpec.Delete(c', k), gone + {k})
  {
    assert c.items - gone - {k} == c.items - (gone + {k});
    if c.store.Some? {
      assert c.store.value.items - gone - {k} == c.store.value.items - (gone + {k});
    }
  }

  lemma LacksNothing<V>(c: CacheSpec.Cache<V>)
    ensures Lacks(c, c, {})
  {
    assert c.items - {} == c.items;
    if c.store.Some? {
      assert c.store.value.items - {} == c.store.value.items;
    }
  }

  /** In every reachable state, cancelled or not, both tiers lack exactly the keys whose delete has succeeded. */
  lemma {:induction false} DeletesApplied<V>(
    c: CacheSpec.Cache<V>, keys: seq<Key>, length: nat, maxBatch: nat, limit: nat, steps: seq<Step>)
    requires Interleaving(Init(length, maxBatch, limit), steps) && |keys| == Init(length, maxBatch, limit).size
    ensures Lacks(c, CacheAfter(c, keys, steps), DeletedKeys(keys, After(Init(length, maxBatch, limit), steps).workers))
  {
    var s0 := Init(length, maxBatch, limit);
    if steps == [] {
      LacksNothing(c);
      assert DeletedKeys(keys, s0.workers) == {};
    } else {
      var before, step := steps[..|steps| - 1], steps[|steps| - 1];
      var s, gone := After(s0, before), DeletedKeys(keys, After(s0, before).workers);
      DeletesApplied(c, keys, length, maxBatch, limit, before);
      InitInv(length, maxBatch, limit);
      InvHolds(s0, before);
      OneStepDeletes(s, step, keys);
      if step.WorkDelete? && step.ok {
        LacksOneMore(c, CacheAfter(c, keys, before), gone, keys[step.i]);
      } else {
        assert gone + {} == gone;
      }
    }
  }

  /**
   * Without cancellation, once the call has returned, a key whose delete succeeded is in neither tier, so that a Get of
   * it misses, and every other entry is as it was; if the call succeeded, so has every delete of the truncated batch.
   */
  lemma DeletedAreGone<V>(
    c: CacheSpec.Cache<V>, keys: seq<Key>, length: nat, maxBatch: nat, limit: nat, steps: seq<Step>, i: nat, now: int)
    requires Interleaving(Init(length, maxBatch, limit), steps) && |keys| == Init(length, maxBatch, limit).size
    requires var s := After(Init(length, maxBatch, limit), steps); s.caller.Returned? && !s.cancelled
    requires i < |keys|
    ensures var s, c' := After(Init(length, maxBatch, limit), steps), CacheAfter(c, keys, steps);
      && |s.workers| == |keys|
      && Lacks(c, c', set j | 0 <= j < |keys| && s.workers[j] == Exited(true) :: keys[j])
      && (s.caller.outcome == Succeeded ==> s.workers[i] == Exited(true))
      && (s.workers[i] == Exited(true) ==> CacheSpec.Get(c', keys[i], now).1 == None)
  {
    UncancelledResult(length, maxBatch, limit, steps);
    DeletesApplied(c, keys, length, maxBatch, limit, steps);
    var s, c' := After(Init(length, maxBatch, limit), steps), CacheAfter(c, keys, steps);
    assert DeletedKeys(keys, s.workers) == set j | 0 <= j < |keys| && s.workers[j] == Exited(true) :: keys[j];
    if s.workers[i] == Exited(true) {
      assert keys[i] in DeletedKeys(keys, s.workers);
    }
  }
}
