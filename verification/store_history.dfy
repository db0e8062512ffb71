/** What the memory store holds under one key, by that key's own history. */
module StoreHistory {
  import opened Types
  import opened Ttl
  import opened StoreSpec
  import opened StoreRuns

  // ---------------------------------------------------------------- verdicts

  predicate HasPlace<V>(s: Store<V>, k: Key) {
    s.cfg.maxSize > 0 && k !in s.items ==> |s.items| < s.cfg.maxSize
  }

  predicate HasMemory<V>(s: Store<V>, k: Key, v: V) {
    s.cfg.tracking && s.cfg.maxMemory > 0 ==> s.usage + s.cfg.size(k, v) <= s.cfg.maxMemory
  }

  predicate HasPlaces<V>(s: Store<V>, entries: map<Key, V>) {
    s.cfg.maxSize > 0 ==> |s.items.Keys + entries.Keys| <= s.cfg.maxSize
  }

  ghost predicate HasMemories<V>(s: Store<V>, entries: map<Key, V>) {
    s.cfg.tracking && s.cfg.maxMemory > 0 ==> s.usage + Bytes(s.cfg.size, entries - s.items.Keys) <= s.cfg.maxMemory
  }

  /** A refused write changes nothing, and says whether a place or memory is missing. */
  lemma SetVerdict<V>(s: Store<V>, k: Key, v: V, ttl: int, now: int)
    ensures Set(s, k, v, ttl, now).1 ==
      if !HasPlace(s, k) then Some(CapacityLimit) else if !HasMemory(s, k, v) then Some(MemoryLimit) else None
    ensures Set(s, k, v, ttl, now).1.Some? ==> Set(s, k, v, ttl, now).0 == s
  {}

  lemma SetManyVerdict<V>(s: Store<V>, entries: map<Key, V>, ttl: int, now: int)
    ensures SetMany(s, entries, ttl, now).1 ==
      if !HasPlaces(s, entries) then Some(CapacityLimit)
      else if !HasMemories(s, entries) then Some(MemoryLimit)
      else None
    ensures SetMany(s, entries, ttl, now).1.Some? ==> SetMany(s, entries, ttl, now).0 == s
  {
    assert s.items.Keys + entries.Keys == s.items.Keys + NewKeys(s, entries);
    assert |s.items.Keys + NewKeys(s, entries)| == |s.items| + |NewKeys(s, entries)|;
  }

  // ---------------------------------------------------------------- one key

  predicate Over<V>(e: Entry<V>, now: int) {
    e.expires.At? && e.expires.time < now
  }

  function Written<V>(cfg: StoreConfig<V>, v: V, ttl: int, now: int): Entry<V> {
    Entry(v, ExpirationTime(Normalize(ttl, cfg.ttl), cfg.ttl, now), now, 1)
  }

  /**
   * What a trace leaves under k: what its latest accepted write put there, with its reads counted, until k is deleted,
   * the store cleared, or the entry found expired. Calls on other keys matter only for the verdicts.
   */
  ghost function Held<V>(cfg: StoreConfig<V>, trace: seq<Op<V>>, k: Key): Option<Entry<V>> {
    if trace == [] then None
    else
      var before := trace[..|trace| - 1];
      var s, held := Run(cfg, before), Held(cfg, before, k);
      match trace[|trace| - 1]
      case GetOp(j, now) =>
        if j != k || held == None then held
        else if Over(held.value, now) then None
        else Some(Entry(held.value.value, held.value.expires, now, held.value.accessCount + 1))
      case SetOp(j, v, ttl, now) =>
        if j == k && HasPlace(s, k) && HasMemory(s, k, v) then Some(Written(cfg, v, ttl, now)) else held
      case SetManyOp(entries, ttl, now) =>
        if k in entries && HasPlaces(s, entries) && HasMemories(s, entries)
        then Some(Written(cfg, entries[k], ttl, now)) else held
      case DeleteOp(j) => if j == k then None else held
      case ClearOp => None
      case SweepOp(now) => if held.Some? && Over(held.value, now) then None else held
  }

  function At<V>(s: Store<V>, k: Key): Option<Entry<V>> {
    if k in s.items then Some(s.items[k]) else None
  }

  lemma SetAt<V>(s: Store<V>, j: Key, v: V, ttl: int, now: int, k: Key)
    ensures At(Set(s, j, v, ttl, now).0, k) ==
      if j == k && HasPlace(s, k) && HasMemory(s, k, v) then Some(Written(s.cfg, v, ttl, now)) else At(s, k)
  {}

  lemma SetManyAt<V>(s: Store<V>, entries: map<Key, V>, ttl: int, now: int, k: Key)
    ensures At(SetMany(s, entries, ttl, now).0, k) ==
      if k in entries && HasPlaces(s, entries) && HasMemories(s, entries)
      then Some(Written(s.cfg, entries[k], ttl, now)) else At(s, k)
  {
    SetManyVerdict(s, entries, ttl, now);
  }

  lemma OtherAt<V>(s: Store<V>, op: Op<V>, k: Key)
    requires !op.SetOp? && !op.SetManyOp?
    ensures var held := At(s, k);
      At(Step(s, op), k) ==
        match op
        case GetOp(j, now) =>
          if j != k || held == None then held
          else if Over(held.value, now) then None
          else Some(Entry(held.value.value, held.value.expires, now, held.value.accessCount + 1))
        case DeleteOp(j) => if j == k then None else held
        case ClearOp => None
        case SweepOp(now) => if held.Some? && Over(held.value, now) then None else held
  {}

  /** After every run the store holds under each key what the trace left there, and nothing else. */
  lemma {:induction false} EntryIsHeld<V>(cfg: StoreConfig<V>, trace: seq<Op<V>>, k: Key)
    ensures At(Run(cfg, trace), k) == Held(cfg, trace, k)
  {
    if trace == [] {
    } else {
      var before, op := trace[..|trace| - 1], trace[|trace| - 1];
      EntryIsHeld(cfg, before, k);
      match op
      case SetOp(j, v, ttl, now) => SetAt(Run(cfg, before), j, v, ttl, now, k);
      case SetManyOp(entries, ttl, now) => SetManyAt(Run(cfg, before), entries, ttl, now, k);
      case _ => OtherAt(Run(cfg, before), op, k);
    }
  }

  /** So a Get answers what was written last, up to and including its expiry time. */
  lemma GetAnswersHeld<V>(cfg: StoreConfig<V>, trace: seq<Op<V>>, k: Key, now: int)
    ensures var held := Held(cfg, trace, k);
      Get(Run(cfg, trace), k, now).1 ==
        if held.Some? && !Over(held.value, now) then Some(held.value.value) else None
  {
    EntryIsHeld(cfg, trace, k);
  }

  /** How long a written entry lasts: for its TTL, which is brought into the allowed range. */
  lemma WrittenLasts<V>(cfg: StoreConfig<V>, v: V, ttl: int, now: int)
    requires cfg.ttl.minTTL <= cfg.ttl.maxTTL
    ensures var c := cfg.ttl;
      var t :=
        if ttl == 0 && c.zeroMeansNoExpiry then 0
        else if ttl < c.minTTL then c.minTTL else if ttl > c.maxTTL then c.maxTTL else ttl;
      Written(cfg, v, ttl, now).expires == if t == 0 && c.zeroMeansNoExpiry then Never else Expiry.At(now + t)
  {}

  /** Without tracking no bytes are ever counted. */
  lemma {:induction false} UntrackedUsage<V>(cfg: StoreConfig<V>, trace: seq<Op<V>>)
    requires !cfg.tracking
    ensures Run(cfg, trace).usage == 0
  {
    if trace == [] {
    } else {
      UntrackedUsage(cfg, trace[..|trace| - 1]);
    }
  }
}
