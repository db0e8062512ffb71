/** One tick of the cleanup goroutine: collect under a read lock, then remove in chunks between other calls. */
module CleanupSpec {
  import opened Types
  import opened Ttl
  import opened CacheSpec

  const MAX_BATCH: nat := 1000
  const CHUNK: nat := 100

  /** What the collection loop hands over: stale keys, each once, and all of them unless it stopped early. */
  ghost predicate Collected<V>(c: Cache<V>, keys: seq<Key>, now: int) {
    && Distinct(keys)
    && |keys| <= MAX_BATCH
    && (forall k :: k in keys ==> k in Stale(c, c.items.Keys, now))
    && (|keys| < MAX_BATCH ==> forall k :: k in Stale(c, c.items.Keys, now) ==> k in keys)
  }

  /** A tick in progress: the chunks before place next are done. */
  datatype Tick<!V> = Tick(cache: Cache<V>, keys: seq<Key>, next: nat, now: int)

  /** Either the tick takes its next chunk, or some other call gets the lock. */
  datatype Turn<V> = TakeChunk | Call(op: Op<V>)

  function ChunkEnd(keys: seq<Key>, next: nat): nat {
    if next + CHUNK > |keys| then |keys| else next + CHUNK
  }

  ghost function ChunkKeys<V>(t: Tick<V>): seq<Key> {
    if t.next < |t.keys| then t.keys[t.next..ChunkEnd(t.keys, t.next)] else []
  }

  ghost function Advance<V>(t: Tick<V>, turn: Turn<V>): Tick<V> {
    match turn
    case TakeChunk =>
      if t.next < |t.keys| then
        t.(cache := Sweep(t.cache, Elems(ChunkKeys(t)), t.now), next := ChunkEnd(t.keys, t.next))
      else t
    case Call(op) => t.(cache := Step(t.cache, op))
  }

  ghost function Play<V>(t: Tick<V>, turns: seq<Turn<V>>): Tick<V> {
    if turns == [] then t else Advance(Play(t, turns[..|turns| - 1]), turns[|turns| - 1])
  }

  /** The keys looked at by the chunks of a schedule, in order. */
  ghost function Visited<V>(t: Tick<V>, turns: seq<Turn<V>>): seq<Key> {
    if turns == [] then []
    else
      var before := turns[..|turns| - 1];
      Visited(t, before) + if turns[|turns| - 1].TakeChunk? then ChunkKeys(Play(t, before)) else []
  }

  /** How many entries the chunks of a schedule remove. */
  ghost function Removals<V>(t: Tick<V>, turns: seq<Turn<V>>): nat {
    if turns == [] then 0
    else
      var before := turns[..|turns| - 1];
      var p := Play(t, before);
      Removals(t, before) + if turns[|turns| - 1].TakeChunk? then |Stale(p.cache, Elems(ChunkKeys(p)), t.now)| else 0
  }

  /** Whatever calls come between the chunks, a tick goes through its collected keys once, in order. */
  lemma {:induction false} VisitsEachOnce<V>(t: Tick<V>, turns: seq<Turn<V>>)
    requires t.next <= |t.keys|
    ensures var p := Play(t, turns);
      && p.keys == t.keys && p.now == t.now && t.next <= p.next <= |t.keys|
      && Visited(t, turns) == t.keys[t.next..p.next]
  {
    if turns == [] {
      assert t.keys[t.next..t.next] == [];
    } else {
      var before := turns[..|turns| - 1];
      VisitsEachOnce(t, before);
      var p := Play(t, before);
      var end := ChunkEnd(t.keys, p.next);
      assert t.keys[t.next..p.next] + t.keys[p.next..end] == t.keys[t.next..end];
    }
  }

  lemma {:induction false} ElemsAtMost<T>(s: seq<T>)
    ensures |Elems(s)| <= |s|
  {
    if s == [] {
    } else {
      ElemsAtMost(s[1..]);
      assert Elems(s) == Elems(s[1..]) + {s[0]};
    }
  }

  /** It removes no more entries than it visits keys. */
  lemma {:induction false} RemovesAtMostVisited<V>(t: Tick<V>, turns: seq<Turn<V>>)
    ensures Removals(t, turns) <= |Visited(t, turns)|
  {
    if turns == [] {
    } else {
      var before := turns[..|turns| - 1];
      RemovesAtMostVisited(t, before);
      var keys := ChunkKeys(Play(t, before));
      ElemsAtMost(keys);
      SubsetSize(Stale(Play(t, before).cache, Elems(keys), t.now), Elems(keys));
    }
  }

  /** So a tick removes at most 1000 entries, under every schedule. */
  lemma TickIsBounded<V>(c: Cache<V>, keys: seq<Key>, now: int, turns: seq<Turn<V>>)
    requires Collected(c, keys, now)
    ensures Removals(Tick(c, keys, 0, now), turns) <= 1000
    ensures Play(Tick(c, keys, 0, now), turns).next == |keys| ==> Visited(Tick(c, keys, 0, now), turns) == keys
  {
    RemovesAtMostVisited(Tick(c, keys, 0, now), turns);
    VisitsEachOnce(Tick(c, keys, 0, now), turns);
  }

  /** It collects all expired entries, or 1000 of them. */
  lemma CollectedCount<V>(c: Cache<V>, keys: seq<Key>, now: int)
    requires Collected(c, keys, now)
    ensures var n := |Stale(c, c.items.Keys, now)|; |keys| == if n < 1000 then n else 1000
  {
    var stale := Stale(c, c.items.Keys, now);
    DistinctElems(keys);
    if |keys| < 1000 {
      assert Elems(keys) == stale;
    } else {
      SubsetSize(Elems(keys), stale);
    }
  }

  function Chunks<V>(turns: seq<Turn<V>>): nat {
    if turns == [] then 0
    else Chunks(turns[..|turns| - 1]) + if turns[|turns| - 1].TakeChunk? then 1 else 0
  }

  /** Each chunk gets 100 keys further, until the last one is reached. */
  lemma {:induction false} ChunksGetOn<V>(t: Tick<V>, turns: seq<Turn<V>>)
    requires t.next <= |t.keys|
    ensures var reach := t.next + 100 * Chunks(turns);
      Play(t, turns).keys == t.keys && Play(t, turns).next == if reach < |t.keys| then reach else |t.keys|
  {
    if turns == [] {
    } else {
      ChunksGetOn(t, turns[..|turns| - 1]);
    }
  }

  /** A chunk takes out exactly the entries that are stale at the moment of the chunk; the others stay as they are. */
  lemma ChunkRemovesIff<V>(t: Tick<V>, k: Key)
    requires k in t.cache.items
    ensures k !in Advance(t, TakeChunk).cache.items <==>
      k in ChunkKeys(t) && (t.cache.items[k].expiresAt.Never? || t.cache.items[k].expiresAt.time < t.now)
    ensures k in Advance(t, TakeChunk).cache.items ==> Advance(t, TakeChunk).cache.items[k] == t.cache.items[k]
  {}

  /** No call of the schedule takes k's entry away or replaces it. */
  ghost predicate CallsKeep<V>(t: Tick<V>, turns: seq<Turn<V>>, k: Key, item: Item<V>) {
    turns != [] ==>
      var before, turn := turns[..|turns| - 1], turns[|turns| - 1];
      && CallsKeep(t, before, k, item)
      && (turn.Call? ==>
           var c := Play(t, before).cache;
           k in c.items && c.items[k] == item ==> k in Step(c, turn.op).items && Step(c, turn.op).items[k] == item)
  }

  /** An entry that expires at or after the tick's time outlives every remaining chunk. */
  lemma {:induction false} LiveEntrySurvives<V>(t: Tick<V>, turns: seq<Turn<V>>, k: Key, item: Item<V>)
    requires k in t.cache.items && t.cache.items[k] == item && item.expiresAt.At? && t.now <= item.expiresAt.time
    requires CallsKeep(t, turns, k, item)
    ensures k in Play(t, turns).cache.items && Play(t, turns).cache.items[k] == item
    ensures Play(t, turns).now == t.now
  {
    if turns == [] {
    } else {
      var before := turns[..|turns| - 1];
      LiveEntrySurvives(t, before, k, item);
      if turns[|turns| - 1].TakeChunk? {
        ChunkRemovesIff(Play(t, before), k);
      }
    }
  }

  /** In particular an entry with a nonzero TTL set while the tick is under way is never taken for the old one. */
  lemma RewrittenEntrySurvives<V>(t: Tick<V>, k: Key, v: V, ttl: int, time: int, turns: seq<Turn<V>>)
    requires Set(t.cache, k, v, ttl, time).1.None? && ttl != 0 && t.now <= time
    requires var t' := Advance(t, Call(SetOp(k, v, ttl, time))); CallsKeep(t', turns, k, NewItem(t.cache, v, ttl, time))
    ensures var t' := Advance(t, Call(SetOp(k, v, ttl, time)));
      k in Play(t', turns).cache.items && Play(t', turns).cache.items[k] == NewItem(t.cache, v, ttl, time)
  {
    ValidatedIsNormal(ttl, t.cache.ttl);
    LiveEntrySurvives(Advance(t, Call(SetOp(k, v, ttl, time))), turns, k, NewItem(t.cache, v, ttl, time));
  }

  /** One rewritten with no expiry is: a zero time is before every tick, so a later chunk removes it again. */
  lemma RewrittenForeverIsRemoved<V>(t: Tick<V>, k: Key, v: V, time: int)
    requires Set(t.cache, k, v, 0, time).1.None? && k in ChunkKeys(t)
    ensures var t' := Advance(t, Call(SetOp(k, v, 0, time)));
      k in t'.cache.items && k !in Advance(t', TakeChunk).cache.items
  {}

  lemma SweepNothing<V>(c: Cache<V>, now: int)
    ensures Sweep(c, Elems([]), now) == c
  {
    assert Stale(c, Elems([]), now) == {};
    assert c.items - {} == c.items;
  }

  /** Without other calls the chunks add up to one sweep of the keys they visit. */
  lemma {:induction false} ChunksAddUp<V>(t: Tick<V>, turns: seq<Turn<V>>)
    requires t.next <= |t.keys| && forall i :: 0 <= i < |turns| ==> turns[i].TakeChunk?
    ensures Play(t, turns).cache == Sweep(t.cache, Elems(Visited(t, turns)), t.now)
  {
    if turns != [] {
      var before := turns[..|turns| - 1];
      ChunksAddUp(t, before);
      VisitsEachOnce(t, before);
      SweepAppend(t.cache, Visited(t, before), ChunkKeys(Play(t, before)), t.now);
    } else {
      SweepNothing(t.cache, t.now);
    }
  }

  /** Without other calls, and with fewer than 1000 expired entries, none is left when the tick is done. */
  lemma QuietTickIsComplete<V>(c: Cache<V>, keys: seq<Key>, now: int, turns: seq<Turn<V>>)
    requires Collected(c, keys, now) && |Stale(c, c.items.Keys, now)| < 1000
    requires forall i :: 0 <= i < |turns| ==> turns[i].TakeChunk?
    requires Play(Tick(c, keys, 0, now), turns).next == |keys|
    ensures var c' := Play(Tick(c, keys, 0, now), turns).cache;
      Stale(c', c'.items.Keys, now) == {} && c'.items == c.items - Stale(c, c.items.Keys, now)
  {
    var t := Tick(c, keys, 0, now);
    CollectedCount(c, keys, now);
    TickIsBounded(c, keys, now, turns);
    ChunksAddUp(t, turns);
    assert Stale(c, Elems(keys), now) == Stale(c, c.items.Keys, now);
  }

  // ---------------------------------------------------------------- a tick as a part of a run

  /** The calls of a schedule, each chunk being a sweep of its keys with the time of the tick. */
  ghost function Trace<V>(t: Tick<V>, turns: seq<Turn<V>>): seq<Op<V>> {
    if turns == [] then []
    else
      var before, turn := turns[..|turns| - 1], turns[|turns| - 1];
      match turn
      case Call(op) => Trace(t, before) + [op]
      case TakeChunk => Trace(t, before) + [SweepOp(Elems(ChunkKeys(Play(t, before))), t.now)]
  }

  lemma RunOne<V>(c: Cache<V>, trace: seq<Op<V>>, op: Op<V>)
    ensures Run(c, trace + [op]) == Step(Run(c, trace), op)
  {
    assert (trace + [op])[..|trace|] == trace;
  }

  lemma {:induction false} TickTime<V>(t: Tick<V>, turns: seq<Turn<V>>)
    ensures Play(t, turns).now == t.now
  {
    if turns == [] {
    } else {
      TickTime(t, turns[..|turns| - 1]);
    }
  }

  /** So what holds of every run holds of a tick under every schedule. */
  lemma {:induction false} PlayIsRun<V>(t: Tick<V>, turns: seq<Turn<V>>)
    ensures Play(t, turns).cache == Run(t.cache, Trace(t, turns))
  {
    if turns == [] {
    } else {
      var before, turn := turns[..|turns| - 1], turns[|turns| - 1];
      PlayIsRun(t, before);
      TickTime(t, before);
      match turn
      case Call(op) => RunOne(t.cache, Trace(t, before), op);
      case TakeChunk =>
        var p := Play(t, before);
        RunOne(t.cache, Trace(t, before), SweepOp(Elems(ChunkKeys(p)), t.now));
        if p.next >= |p.keys| {
          SweepNothing(p.cache, t.now);
        }
    }
  }
}
