/** The store inside a cache is a store on its own, given the calls that get through to it. */
module CacheStore {
  import opened Types
  import opened Ttl
  import opened CacheSpec
  import opened CacheAnswers
  import CacheCapacity
  import StoreRuns
  import StoreSpec

  /**
   * The call on the store that a call on the cache makes, if any: a Get that memory cannot answer, a Set with a valid
   * TTL and room in memory, a Delete, a Clear; the store sweeps by itself, and a cleanup chunk does not reach it.
   */
  ghost function StoreCall<V>(c: Cache<V>, op: Op<V>): Option<StoreRuns.Op<V>> {
    match op
    case SetOp(k, v, ttl, now) =>
      if InRange(ttl, c.ttl) && HasRoom(c) then Some(StoreRuns.SetOp(k, v, ttl, now)) else None
    case GetOp(k, now) =>
      if k in c.items && (c.items[k].expiresAt.Never? || now < c.items[k].expiresAt.time) then None
      else Some(StoreRuns.GetOp(k, now))
    case DeleteOp(k) => Some(StoreRuns.DeleteOp(k))
    case ClearOp => Some(StoreRuns.ClearOp)
    case SweepOp(_, _) => None
    case StoreSweepOp(now) => Some(StoreRuns.SweepOp(now))
  }

  ghost function StoreTrace<V>(c: Cache<V>, trace: seq<Op<V>>): seq<StoreRuns.Op<V>> {
    if trace == [] then []
    else
      var before := trace[..|trace| - 1];
      var call := StoreCall(Run(c, before), trace[|trace| - 1]);
      if call.Some? then StoreTrace(c, before) + [call.value] else StoreTrace(c, before)
  }

  lemma SetReaches<V>(c: Cache<V>, k: Key, v: V, ttl: int, now: int)
    requires CacheCapacity.WellFormed(c) && c.store.Some?
    ensures Set(c, k, v, ttl, now).0.store ==
      Some(if InRange(ttl, c.ttl) && HasRoom(c) then StoreSpec.Set(c.store.value, k, v, ttl, now).0 else c.store.value)
  {
    ValidateIff(ttl, c.ttl);
    MadeRoomIff(c);
    if InRange(ttl, c.ttl) {
      ValidatedIsNormal(ttl, c.ttl);
    }
  }

  lemma GetReaches<V>(c: Cache<V>, k: Key, now: int)
    requires c.store.Some?
    ensures Get(c, k, now).0.store == Some(
      if k in c.items && (c.items[k].expiresAt.Never? || now < c.items[k].expiresAt.time) then c.store.value
      else StoreSpec.Get(c.store.value, k, now).0)
  {}

  lemma OtherReaches<V>(c: Cache<V>, op: Op<V>)
    requires c.store.Some? && !op.SetOp? && !op.GetOp?
    ensures var call := StoreCall(c, op);
      Step(c, op).store == Some(if call.Some? then StoreRuns.Step(c.store.value, call.value) else c.store.value)
  {}

  lemma StepReaches<V>(c: Cache<V>, op: Op<V>)
    requires CacheCapacity.WellFormed(c) && c.store.Some?
    ensures var call := StoreCall(c, op);
      Step(c, op).store == Some(if call.Some? then StoreRuns.Step(c.store.value, call.value) else c.store.value)
  {
    match op
    case SetOp(k, v, ttl, now) => SetReaches(c, k, v, ttl, now);
    case GetOp(k, now) => GetReaches(c, k, now);
    case _ => OtherReaches(c, op);
  }

  lemma RunMore<V>(cfg: StoreSpec.StoreConfig<V>, trace: seq<StoreRuns.Op<V>>, op: StoreRuns.Op<V>)
    ensures StoreRuns.Run(cfg, trace + [op]) == StoreRuns.Step(StoreRuns.Run(cfg, trace), op)
  {}

  /** After every run of a cache its store is in the state that a store reaches by these calls alone. */
  lemma {:induction false} StoreIsRun<V>(c: Cache<V>, trace: seq<Op<V>>, cfg: StoreSpec.StoreConfig<V>)
    requires CacheCapacity.WellFormed(c) && c.store == Some(StoreSpec.Empty(cfg))
    ensures Run(c, trace).store == Some(StoreRuns.Run(cfg, StoreTrace(c, trace)))
  {
    if trace == [] {
    } else {
      var before, op := trace[..|trace| - 1], trace[|trace| - 1];
      StoreIsRun(c, before, cfg);
      CacheCapacity.SizeBounded(c, before);
      StepReaches(Run(c, before), op);
      var call := StoreCall(Run(c, before), op);
      if call.Some? {
        RunMore(cfg, StoreTrace(c, before), call.value);
      }
    }
  }

  lemma {:induction false} SinglesOnly<V>(c: Cache<V>, trace: seq<Op<V>>, cfg: StoreSpec.StoreConfig<V>)
    ensures StoreRuns.GrowthFree(cfg, StoreTrace(c, trace))
  {
    if trace == [] {
    } else {
      SinglesOnly(c, trace[..|trace| - 1], cfg);
    }
  }

  /** So the store of a cache, which is written one entry at a time, keeps its limits over every run. */
  lemma StoreKeepsLimits<V>(c: Cache<V>, trace: seq<Op<V>>, cfg: StoreSpec.StoreConfig<V>)
    requires CacheCapacity.WellFormed(c) && c.store == Some(StoreSpec.Empty(cfg))
    ensures var s := Run(c, trace).store;
      && s.Some?
      && (cfg.maxSize > 0 ==> |s.value.items| <= cfg.maxSize)
      && (cfg.tracking && cfg.maxMemory > 0 ==> StoreRuns.StoredBytes(s.value) <= s.value.usage <= cfg.maxMemory)
  {
    StoreIsRun(c, trace, cfg);
    StoreRuns.CapacityHolds(cfg, StoreTrace(c, trace));
    SinglesOnly(c, trace, cfg);
    if cfg.tracking && cfg.maxMemory > 0 {
      StoreRuns.MemoryLimitHolds(cfg, StoreTrace(c, trace));
    }
  }
}
