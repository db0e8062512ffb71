/** Runs of the pooled cache, below the capacity limit and at it. */
module PoolRuns {
  import opened Types
  import opened Ttl
  import CacheCapacity
  import CacheSpec
  import opened PoolSpec

  /** Every call says which cell the pool handed out, or in which order Clear announced the entries. */
  datatype Op<P, V> =
    | SetOp(key: Key, value: V, ttl: int, now: int, cell: P)
    | GetOp(key: Key, now: int)
    | DeleteOp(key: Key)
    | ClearOp(events: seq<CacheSpec.Event<P>>)
    | SweepOp(keys: set<Key>, now: int)
    | ForgetOp(cell: P)  // the runtime drops a free cell

  /** The pool hands out what it can, and Clear announces what there is. */
  ghost predicate Possible<P, V>(s: Pooled<P, V>, op: Op<P, V>) {
    match op
    case SetOp(_, _, _, _, p) => CanTake(s, p)
    case ClearOp(events) => CacheSpec.ClearEvents(s.cells, events)
    case _ => true
  }

  /** A call that takes no cell away from its owner. */
  ghost predicate Legal<P, V>(s: Pooled<P, V>, op: Op<P, V>) {
    Possible(s, op) && (op.SetOp? ==> Harmless(s.cells, op.ttl))
  }

  ghost function Step<P, V>(s: Pooled<P, V>, op: Op<P, V>): Pooled<P, V> {
    match op
    case SetOp(k, v, ttl, now, p) => Set(s, k, v, ttl, now, p).0
    case GetOp(k, now) => Get(s, k, now).0
    case DeleteOp(k) => Delete(s, k)
    case ClearOp(events) => Clear(s, events)
    case SweepOp(ks, now) => Sweep(s, ks, now)
    case ForgetOp(p) => Forget(s, p)
  }

  ghost function Run<P, V>(s: Pooled<P, V>, trace: seq<Op<P, V>>): Pooled<P, V> {
    if trace == [] then s else Step(Run(s, trace[..|trace| - 1]), trace[|trace| - 1])
  }

  ghost predicate LegalRun<P, V>(s: Pooled<P, V>, trace: seq<Op<P, V>>) {
    trace != [] ==>
      LegalRun(s, trace[..|trace| - 1]) && Legal(Run(s, trace[..|trace| - 1]), trace[|trace| - 1])
  }

  /** The same calls made on a plain cache of values. */
  ghost function PlainStep<P, V>(d: CacheSpec.Cache<V>, op: Op<P, V>): CacheSpec.Cache<V> {
    match op
    case SetOp(k, v, ttl, now, _) => CacheSpec.Set(d, k, v, ttl, now).0
    case GetOp(k, now) => CacheSpec.Get(d, k, now).0
    case DeleteOp(k) => CacheSpec.Delete(d, k)
    case ClearOp(_) => CacheSpec.Clear(d)
    case SweepOp(ks, now) => CacheSpec.Sweep(d, ks, now)
    case ForgetOp(_) => d
  }

  ghost function PlainRun<P, V>(d: CacheSpec.Cache<V>, trace: seq<Op<P, V>>): CacheSpec.Cache<V> {
    if trace == [] then d else PlainStep(PlainRun(d, trace[..|trace| - 1]), trace[|trace| - 1])
  }

  lemma StepRefines<P, V>(s: Pooled<P, V>, op: Op<P, V>)
    requires Owned(s) && Legal(s, op)
    ensures Owned(Step(s, op)) && View(Step(s, op)) == PlainStep(View(s), op)
  {
    match op
    case SetOp(k, v, ttl, now, p) => SetRefines(s, k, v, ttl, now, p);
    case GetOp(k, now) => GetRefines(s, k, now);
    case DeleteOp(k) => DeleteRefines(s, k);
    case ClearOp(events) => ClearRefines(s, events);
    case SweepOp(ks, now) => SweepRefines(s, ks, now);
    case ForgetOp(p) => ForgetRefines(s, p);
  }

  /** Whatever cells are recycled, every cell keeps one owner and the values are those of the plain cache. */
  lemma {:induction false} RunRefines<P, V>(s: Pooled<P, V>, trace: seq<Op<P, V>>)
    requires Owned(s) && LegalRun(s, trace)
    ensures Owned(Run(s, trace)) && View(Run(s, trace)) == PlainRun(View(s), trace)
  {
    if trace == [] {
    } else {
      RunRefines(s, trace[..|trace| - 1]);
      StepRefines(Run(s, trace[..|trace| - 1]), trace[|trace| - 1]);
    }
  }

  // ---------------------------------------------------------------- history

  /**
   * What the trace last left under k: the latest accepted Set since the latest Delete, Clear, or removal by a Get or a
   * cleanup chunk that met it expired. Before the trace it is what s holds.
   */
  ghost function Latest<P, V>(s: Pooled<P, V>, trace: seq<Op<P, V>>, k: Key): Option<CacheSpec.Item<V>>
    requires Owned(s)
  {
    if trace == [] then Held(View(s), k)
    else
      var before, op := trace[..|trace| - 1], trace[|trace| - 1];
      Leaves(Latest(s, before, k), op, Accepts(Run(s, before), op), k)
  }

  ghost predicate Accepts<P, V>(s: Pooled<P, V>, op: Op<P, V>) {
    op.SetOp? && Set(s, op.key, op.value, op.ttl, op.now, op.cell).1.None?
  }

  ghost function Leaves<P, V>(last: Option<CacheSpec.Item<V>>, op: Op<P, V>, accepted: bool, k: Key)
    : Option<CacheSpec.Item<V>>
  {
    match op
    case SetOp(j, v, ttl, now, _) =>
      if j == k && accepted then Some(CacheSpec.Item(v, if ttl == 0 then Never else At(now + ttl))) else last
    case GetOp(j, now) => if j == k && last.Some? && !CacheSpec.Fresh(last.value.expiresAt, now) then None else last
    case DeleteOp(j) => if j == k then None else last
    case ClearOp(_) => None
    case SweepOp(ks, now) => if k in ks && last.Some? && Before(last.value.expiresAt, now) then None else last
    case ForgetOp(_) => last
  }

  ghost function Held<V>(d: CacheSpec.Cache<V>, k: Key): Option<CacheSpec.Item<V>> {
    if k in d.items then Some(d.items[k]) else None
  }

  /** A harmless Set writes its own entry if it is accepted, and none if it is not. */
  lemma SetHeld<V>(d: CacheSpec.Cache<V>, j: Key, v: V, ttl: int, now: int, k: Key)
    requires d.store.None? && Harmless(d, ttl)
    ensures var (d', refused) := CacheSpec.Set(d, j, v, ttl, now);
      Held(d', k) ==
        if j == k && refused.None? then Some(CacheSpec.Item(v, if ttl == 0 then Never else At(now + ttl)))
        else Held(d, k)
  {
    if Validate(ttl, d.ttl).None? {
      ValidatedIsNormal(ttl, d.ttl);
      HarmlessItems(d, ttl);
    }
  }

  lemma StepHeld<P, V>(s: Pooled<P, V>, op: Op<P, V>, k: Key)
    requires Owned(s) && Legal(s, op)
    ensures Held(PlainStep(View(s), op), k) == Leaves(Held(View(s), k), op, Accepts(s, op), k)
  {
    if op.SetOp? {
      ViewHarmless(s, op.ttl);
      SetRefines(s, op.key, op.value, op.ttl, op.now, op.cell);
      SetStepHeld(View(s), op, Accepts(s, op), k);
    } else {
      OtherHeld(View(s), op, k);
    }
  }

  lemma SetStepHeld<P, V>(d: CacheSpec.Cache<V>, op: Op<P, V>, accepted: bool, k: Key)
    requires op.SetOp? && d.store.None? && Harmless(d, op.ttl)
    requires accepted <==> CacheSpec.Set(d, op.key, op.value, op.ttl, op.now).1.None?
    ensures Held(PlainStep(d, op), k) == Leaves(Held(d, k), op, accepted, k)
  {
    SetHeld(d, op.key, op.value, op.ttl, op.now, k);
  }

  lemma OtherHeld<P, V>(d: CacheSpec.Cache<V>, op: Op<P, V>, k: Key)
    requires d.store.None? && !op.SetOp?
    ensures Held(PlainStep(d, op), k) == Leaves(Held(d, k), op, false, k)
  {}

  lemma {:induction false} LatestIsHeld<P, V>(s: Pooled<P, V>, trace: seq<Op<P, V>>, k: Key)
    requires Owned(s) && LegalRun(s, trace)
    ensures Held(PlainRun(View(s), trace), k) == Latest(s, trace, k)
  {
    if trace == [] {
    } else {
      var before := trace[..|trace| - 1];
      LatestIsHeld(s, before, k);
      RunRefines(s, before);
      StepHeld(Run(s, before), trace[|trace| - 1], k);
    }
  }

  /** A Get returns the value of the latest Set of its key, if that is still alive, and never another key's. */
  lemma GetReturnsOwnValue<P, V>(s: Pooled<P, V>, trace: seq<Op<P, V>>, k: Key, now: int)
    requires Owned(s) && LegalRun(s, trace)
    ensures var last := Latest(s, trace, k);
      Get(Run(s, trace), k, now).1 ==
        if last.Some? && CacheSpec.Fresh(last.value.expiresAt, now) then Some(last.value.value) else None
  {
    RunRefines(s, trace);
    LatestIsHeld(s, trace, k);
    GetRefines(Run(s, trace), k, now);
  }

  // ---------------------------------------------------------------- at the capacity limit

  ghost predicate PossibleRun<P, V>(s: Pooled<P, V>, trace: seq<Op<P, V>>) {
    trace != [] ==>
      PossibleRun(s, trace[..|trace| - 1]) && Possible(Run(s, trace[..|trace| - 1]), trace[|trace| - 1])
  }

  /** Every Set of the run meets its guard. */
  ghost predicate Guarded<P, V>(s: Pooled<P, V>, trace: seq<Op<P, V>>) {
    trace != [] ==>
      var before, op := trace[..|trace| - 1], trace[|trace| - 1];
      Guarded(s, before) && (op.SetOp? ==> SetGuard(Run(s, before).cells, op.ttl))
  }

  ghost predicate OwnedThroughout<P, V>(s: Pooled<P, V>, trace: seq<Op<P, V>>) {
    Owned(Run(s, trace)) && (trace != [] ==> OwnedThroughout(s, trace[..|trace| - 1]))
  }

  lemma StepKeepsOwnersIff<P, V>(s: Pooled<P, V>, op: Op<P, V>)
    requires Owned(s) && CacheCapacity.WellFormed(s.cells) && Possible(s, op)
    ensures Owned(Step(s, op)) <==> (op.SetOp? ==> SetGuard(s.cells, op.ttl))
    ensures Legal(s, op) <==> (op.SetOp? ==> SetGuard(s.cells, op.ttl))
  {
    if op.SetOp? {
      GuardIsHarmless(s.cells, op.ttl);
      SetKeepsOwnersIff(s, op.key, op.value, op.ttl, op.now, op.cell);
    } else {
      StepRefines(s, op);
    }
  }

  lemma StepWellFormed<P, V>(s: Pooled<P, V>, op: Op<P, V>)
    requires CacheCapacity.WellFormed(s.cells)
    ensures CacheCapacity.WellFormed(Step(s, op).cells)
  {
    match op
    case SetOp(k, v, ttl, now, p) => CacheCapacity.SetKeeps(s.cells, k, p, ttl, now);
    case GetOp(k, now) => CacheCapacity.GetKeeps(s.cells, k, now);
    case DeleteOp(k) => CacheCapacity.DeleteKeeps(s.cells, k);
    case SweepOp(ks, now) => CacheCapacity.StepKeeps(s.cells, CacheSpec.SweepOp(ks, now));
    case _ =>
  }

  /** Every cell keeps one owner all along a run if and only if every Set of it meets its guard. */
  lemma {:induction false} OwnershipIff<P, V>(s: Pooled<P, V>, trace: seq<Op<P, V>>)
    requires Owned(s) && CacheCapacity.WellFormed(s.cells) && PossibleRun(s, trace)
    ensures OwnedThroughout(s, trace) <==> Guarded(s, trace)
    ensures LegalRun(s, trace) <==> Guarded(s, trace)
    ensures CacheCapacity.WellFormed(Run(s, trace).cells)
  {
    if trace == [] {
    } else {
      var before := trace[..|trace| - 1];
      OwnershipIff(s, before);
      StepWellFormed(Run(s, before), trace[|trace| - 1]);
      if OwnedThroughout(s, before) {
        StepKeepsOwnersIff(Run(s, before), trace[|trace| - 1]);
      }
    }
  }
}
