/** The policy inside a cache, by the cache's own history: which key goes when a full cache takes another. */
module CacheHistory {
  import opened Types
  import opened CacheSpec
  import opened CacheCapacity
  import FifoSpec
  import Heap
  import LfuSpec
  import LruSpec
  import PolicyOps
  import PolicySpec
  import Ttl

  // ---------------------------------------------------------------- histories

  /** The Set of k is accepted. */
  ghost predicate Accepts<V>(c: Cache<V>, op: Op<V>, k: Key) {
    op.SetOp? && op.key == k && Set(c, op.key, op.value, op.ttl, op.now).1.None?
  }

  /** The Get of k is answered, by whichever tier. */
  ghost predicate Answers<V>(c: Cache<V>, op: Op<V>, k: Key) {
    op.GetOp? && op.key == k && Get(c, op.key, op.now).1.Some?
  }

  /** The position (from 1) of the latest accepted Set or answered Get of k; 0 when there is none. */
  ghost function LastUse<V>(c: Cache<V>, trace: seq<Op<V>>, k: Key): nat {
    if trace == [] then 0
    else
      var before, op := trace[..|trace| - 1], trace[|trace| - 1];
      if Accepts(Run(c, before), op, k) || Answers(Run(c, before), op, k) then |trace| else LastUse(c, before, k)
  }

  /** The position (from 1) of the latest accepted Set of k that found it untracked; 0 when there is none. */
  ghost function LastInsertion<V>(c: Cache<V>, trace: seq<Op<V>>, k: Key): nat {
    if trace == [] then 0
    else
      var before, op := trace[..|trace| - 1], trace[|trace| - 1];
      if Accepts(Run(c, before), op, k) && k !in TrackedAfterRoom(Run(c, before)) then |trace|
      else LastInsertion(c, before, k)
  }

  /** The keys that the policy tracks once room has been made. */
  ghost function TrackedAfterRoom<V>(c: Cache<V>): set<Key> {
    var p := MakeRoom(c).0.policy;
    if p.Some? then PolicySpec.Tracked(p.value) else {}
  }

  /** How many Gets of k have been answered since its latest accepted Set. */
  ghost function HitsSinceSet<V>(c: Cache<V>, trace: seq<Op<V>>, k: Key): nat {
    if trace == [] then 0
    else
      var before, op := trace[..|trace| - 1], trace[|trace| - 1];
      if Accepts(Run(c, before), op, k) then 0
      else HitsSinceSet(c, before, k) + if Answers(Run(c, before), op, k) then 1 else 0
  }

  /** What the policy goes by: the key with the least rank is to go first. */
  ghost function Rank<V>(c: Cache<V>, trace: seq<Op<V>>, k: Key): nat
    requires c.policy.Some?
  {
    match c.policy.value
    case Lru(_, _) => LastUse(c, trace, k)
    case Fifo(_, _) => LastInsertion(c, trace, k)
    case Lfu(_, _) => 1 + HitsSinceSet(c, trace, k)
  }

  // ---------------------------------------------------------------- policies in the order of a rank

  /** Lists are sorted by rank, latest first for LRU and oldest first for FIFO; an LFU count is the rank. */
  ghost predicate Ranked(p: PolicySpec.Policy, rank: Key -> nat) {
    match p
    case Lru(_, s) => LruSpec.OrderedBy(s, rank)
    case Fifo(_, s) => FifoSpec.OrderedBy(s, rank)
    case Lfu(_, q) => forall x :: x in q ==> x.count == rank(x.key)
  }

  ghost predicate SameKind(p: PolicySpec.Policy, q: PolicySpec.Policy) {
    p.capacity == q.capacity && (p.Lru? <==> q.Lru?) && (p.Fifo? <==> q.Fifo?)
  }

  /** Lists never give two keys one rank; counts may be equal. */
  ghost predicate Before(p: PolicySpec.Policy, a: nat, b: nat) {
    if p.Lfu? then a <= b else a < b
  }

  /** Evict yields a key of least rank. */
  lemma EvictIsLeast(p: PolicySpec.Policy, rank: Key -> nat)
    requires PolicySpec.Valid(p) && Ranked(p, rank) && PolicySpec.Evict(p).1.Some?
    ensures Ranked(PolicySpec.Evict(p).0, rank) && SameKind(p, PolicySpec.Evict(p).0)
    ensures var x := PolicySpec.Evict(p).1.value;
      forall y :: y in PolicySpec.Tracked(p) && y != x ==> Before(p, rank(x), rank(y))
  {
    match p
    case Lru(_, s) =>
    case Fifo(_, s) =>
    case Lfu(c, q) => LfuEvictIsLeast(c, q, rank);
  }

  lemma LfuEvictIsLeast(c: int, q: seq<Heap.Slot>, rank: Key -> nat)
    requires LfuSpec.Valid(c, q) && q != [] && forall x :: x in q ==> x.count == rank(x.key)
    ensures forall x :: x in LfuSpec.Evict(q).0 ==> x.count == rank(x.key)
    ensures LfuSpec.Evict(q).1.Some?
    ensures forall i :: 0 <= i < |q| ==> rank(LfuSpec.Evict(q).1.value) <= rank(q[i].key)
  {
    LfuSpec.EvictKeeps(c, q);
    forall i | 0 <= i < |q|
      ensures rank(LfuSpec.Evict(q).1.value) <= rank(q[i].key)
    {
      assert q[i] in q;
    }
  }

  // ---------------------------------------------------------------- the eviction loop

  lemma {:induction false} LoopKeepsRank<V>(
    items: map<Key, Item<V>>, maxSize: int, p: PolicySpec.Policy, rank: Key -> nat)
    requires PolicySpec.Valid(p) && Ranked(p, rank)
    ensures Ranked(EvictLoop(items, maxSize, p).policy, rank) && SameKind(p, EvictLoop(items, maxSize, p).policy)
    decreases PolicySpec.Size(p)
  {
    PolicySpec.EvictTracks(p);
    var (p', victim) := PolicySpec.Evict(p);
    if |items| >= maxSize && victim.Some? {
      EvictIsLeast(p, rank);
      LoopKeepsRank(items - {victim.value}, maxSize, p', rank);
    }
  }

  /** x is to go before every other resident key that the policy tracks. */
  ghost predicate IsLeast<V>(items: map<Key, Item<V>>, p: PolicySpec.Policy, rank: Key -> nat, x: Key) {
    forall y :: y in items && y in PolicySpec.Tracked(p) && y != x ==> Before(p, rank(x), rank(y))
  }

  lemma LoopTurn<V>(items: map<Key, Item<V>>, maxSize: int, p: PolicySpec.Policy)
    requires 0 < maxSize == |items| && PolicySpec.Evict(p).1.Some?
    ensures var (p', x) := (PolicySpec.Evict(p).0, PolicySpec.Evict(p).1.value);
      var r := EvictLoop(items, maxSize, p);
      if x in items then r.made && r.popped == [x]
      else
        && r.made == EvictLoop(items, maxSize, p').made
        && r.popped == [x] + EvictLoop(items, maxSize, p').popped
  {
    var x := PolicySpec.Evict(p).1.value;
    if x in items {
      assert (items - {x}).Keys == items.Keys - {x};
    } else {
      assert items - {x} == items;
    }
  }

  lemma LeastGoesOn<V>(
    items: map<Key, Item<V>>, p: PolicySpec.Policy, p': PolicySpec.Policy, rank: Key -> nat, v: Key, x: Key)
    requires IsLeast(items, p', rank, x) && v !in items && SameKind(p, p')
    requires PolicySpec.Tracked(p') == PolicySpec.Tracked(p) - {v}
    ensures IsLeast(items, p, rank, x)
  {}

  lemma LeastFirst<V>(items: map<Key, Item<V>>, p: PolicySpec.Policy, rank: Key -> nat)
    requires PolicySpec.Valid(p) && Ranked(p, rank) && PolicySpec.Evict(p).1.Some?
    ensures IsLeast(items, p, rank, PolicySpec.Evict(p).1.value)
    ensures var p' := PolicySpec.Evict(p).0;
      && PolicySpec.Valid(p') && Ranked(p', rank) && SameKind(p, p')
      && PolicySpec.Tracked(p') == PolicySpec.Tracked(p) - {PolicySpec.Evict(p).1.value}
      && PolicySpec.Size(p') < PolicySpec.Size(p)
  {
    PolicySpec.EvictTracks(p);
    EvictIsLeast(p, rank);
  }

  lemma MadeByEvicting<V>(items: map<Key, Item<V>>, maxSize: int, p: PolicySpec.Policy)
    requires |items| == maxSize && EvictLoop(items, maxSize, p).made
    ensures PolicySpec.Evict(p).1.Some?
  {}

  /** The resident key that the loop removes has the least rank of all resident keys that the policy tracks. */
  lemma {:induction false} LoopRemovesLeast<V>(
    items: map<Key, Item<V>>, maxSize: int, p: PolicySpec.Policy, rank: Key -> nat, r: Eviction<V>)
    requires PolicySpec.Valid(p) && Ranked(p, rank) && 0 < maxSize == |items|
    requires r == EvictLoop(items, maxSize, p) && r.made
    ensures r.popped != [] && IsLeast(items, p, rank, r.popped[|r.popped| - 1])
    decreases PolicySpec.Size(p)
  {
    MadeByEvicting(items, maxSize, p);
    LeastFirst(items, p, rank);
    LoopTurn(items, maxSize, p);
    var p', x := PolicySpec.Evict(p).0, PolicySpec.Evict(p).1.value;
    if x !in items {
      var r' := EvictLoop(items, maxSize, p');
      LoopRemovesLeast(items, maxSize, p', rank, r');
      LeastGoesOn(items, p, p', rank, x, r'.popped[|r'.popped| - 1]);
    }
  }

  // ---------------------------------------------------------------- one call

  lemma GetRanked(p: PolicySpec.Policy, k: Key, old': Key -> nat, new': Key -> nat, n: nat)
    requires PolicySpec.Valid(p) && Ranked(p, old') && (p.Lru? ==> forall x :: old'(x) < n)
    requires forall x :: new'(x) == (if x != k || p.Fifo? then old'(x) else if p.Lru? then n else old'(x) + 1)
    ensures Ranked(PolicySpec.OnGet(p, k), new') && SameKind(p, PolicySpec.OnGet(p, k))
  {
    match p
    case Lru(c, s) =>
      if k in s {
        LruSpec.StepOrder(c, s, PolicyOps.Got(k), old', new', n);
      } else {
        LruSpec.RetimeOrder(s, old', new');
      }
    case Fifo(_, _) =>
    case Lfu(c, q) =>
      LfuSpec.OnGetKeeps(c, q, k);
  }

  lemma SetRanked(p: PolicySpec.Policy, k: Key, old': Key -> nat, new': Key -> nat, n: nat)
    requires PolicySpec.Valid(p) && Ranked(p, old') && (!p.Lfu? ==> forall x :: old'(x) < n)
    requires var kept := p.Fifo? && k in PolicySpec.Tracked(p);
      forall x :: new'(x) == (if x != k || kept then old'(x) else if p.Lfu? then 1 else n)
    ensures Ranked(PolicySpec.OnSet(p, k), new') && SameKind(p, PolicySpec.OnSet(p, k))
  {
    match p
    case Lru(c, s) => LruSpec.StepOrder(c, s, PolicyOps.Stored(k), old', new', n);
    case Fifo(c, s) => FifoSpec.StepOrder(c, s, PolicyOps.Stored(k), old', new', n);
    case Lfu(c, q) => LfuSetRanked(c, q, k, old', new');
  }

  lemma LfuSetRanked(c: int, q: seq<Heap.Slot>, k: Key, old': Key -> nat, new': Key -> nat)
    requires LfuSpec.Valid(c, q) && forall x :: x in q ==> x.count == old'(x.key)
    requires forall x :: new'(x) == (if x != k then old'(x) else 1)
    ensures forall x :: x in LfuSpec.OnSet(c, q, k) ==> x.count == new'(x.key)
  {
    LfuSpec.OnSetKeeps(c, q, k);
    if q != [] {
      LfuSpec.EvictKeeps(c, q);
    }
  }

  lemma DeleteRanked(p: PolicySpec.Policy, k: Key, rank: Key -> nat)
    requires PolicySpec.Valid(p) && Ranked(p, rank)
    ensures Ranked(PolicySpec.OnDelete(p, k), rank) && SameKind(p, PolicySpec.OnDelete(p, k))
  {
    match p
    case Lru(_, s) => LruSpec.OmitOrder(s, k, rank);
    case Fifo(_, s) => FifoSpec.OmitOrder(s, k, rank);
    case Lfu(c, q) => LfuSpec.OnDeleteKeeps(c, q, k);
  }

  // ---------------------------------------------------------------- every run

  lemma {:induction false} RankBound<V>(c: Cache<V>, trace: seq<Op<V>>, k: Key)
    requires c.policy.Some? && !c.policy.value.Lfu?
    ensures Rank(c, trace, k) <= |trace|
  {
    if trace == [] {
    } else {
      RankBound(c, trace[..|trace| - 1], k);
    }
  }

  /** What one call does to the ranks. */
  lemma RankStep<V>(c: Cache<V>, trace: seq<Op<V>>, op: Op<V>, k: Key)
    requires c.policy.Some?
    ensures var (before, s) := (Rank(c, trace, k), Run(c, trace));
      Rank(c, trace + [op], k) ==
        match c.policy.value
        case Lru(_, _) => if Accepts(s, op, k) || Answers(s, op, k) then |trace| + 1 else before
        case Fifo(_, _) => if Accepts(s, op, k) && k !in TrackedAfterRoom(s) then |trace| + 1 else before
        case Lfu(_, _) =>
          if Accepts(s, op, k) then 1 else if Answers(s, op, k) then before + 1 else before
  {
    assert (trace + [op])[..|trace|] == trace;
  }

  ghost predicate RankedBy<V>(c: Cache<V>, p: PolicySpec.Policy, rank: Key -> nat) {
    && c.policy.Some? && PolicySpec.Valid(c.policy.value) && SameKind(p, c.policy.value)
    && Ranked(c.policy.value, rank)
  }

  /** A cache whose policy is ranked by the histories of the trace. */
  ghost predicate InOrder<V>(c: Cache<V>, trace: seq<Op<V>>)
    requires c.policy.Some?
  {
    RankedBy(Run(c, trace), c.policy.value, k => Rank(c, trace, k))
  }

  lemma SameRanks<V>(c: Cache<V>, p: PolicySpec.Policy, old': Key -> nat, new': Key -> nat)
    requires RankedBy(c, p, old') && forall x :: new'(x) == old'(x)
    ensures RankedBy(c, p, new')
  {
    match c.policy.value
    case Lru(_, s) => LruSpec.RetimeOrder(s, old', new');
    case Fifo(_, _) =>
    case Lfu(_, _) =>
  }

  lemma RoomRanked<V>(c: Cache<V>, p: PolicySpec.Policy, rank: Key -> nat)
    requires RankedBy(c, p, rank)
    ensures RankedBy(MakeRoom(c).0, p, rank)
    ensures TrackedAfterRoom(c) == PolicySpec.Tracked(MakeRoom(c).0.policy.value)
  {
    EvictLoopPolicy(c.items, c.maxSize, c.policy.value);
    LoopKeepsRank(c.items, c.maxSize, c.policy.value, rank);
  }

  /** What an accepted Set does to the policy, and what any other Set does. */
  lemma SetPolicy<V>(c: Cache<V>, k: Key, v: V, ttl: int, now: int)
    requires c.policy.Some?
    ensures var (c', refused) := Set(c, k, v, ttl, now);
      && (refused.None? ==>
           MakeRoom(c).0.policy.Some? && c'.policy == Some(PolicySpec.OnSet(MakeRoom(c).0.policy.value, k)))
      && (refused.Some? ==> c'.policy == c.policy || c'.policy == MakeRoom(c).0.policy)
  {}

  lemma SetStep<V>(
    c: Cache<V>, p: PolicySpec.Policy, k: Key, v: V, ttl: int, now: int, old': Key -> nat, new': Key -> nat, n: nat)
    requires RankedBy(c, p, old') && (!p.Lfu? ==> forall x :: old'(x) < n)
    requires var kept := p.Fifo? && k in TrackedAfterRoom(c);
      var accepted := Set(c, k, v, ttl, now).1.None?;
      forall x :: new'(x) == (if x != k || kept || !accepted then old'(x) else if p.Lfu? then 1 else n)
    ensures RankedBy(Set(c, k, v, ttl, now).0, p, new')
  {
    RoomRanked(c, p, old');
    SetPolicy(c, k, v, ttl, now);
    var r := MakeRoom(c).0;
    if Set(c, k, v, ttl, now).1.None? {
      PolicySpec.SetTracks(r.policy.value, k);
      SetRanked(r.policy.value, k, old', new', n);
    } else {
      SameRanks(c, p, old', new');
      SameRanks(r, p, old', new');
    }
  }

  /** What an answered Get does to the policy, and what any other Get does. */
  lemma GetPolicy<V>(c: Cache<V>, k: Key, now: int)
    requires c.policy.Some?
    ensures var (c', value) := Get(c, k, now);
      c'.policy == if value.Some? then Some(PolicySpec.OnGet(c.policy.value, k)) else c.policy
  {}

  lemma GetStep<V>(
    c: Cache<V>, p: PolicySpec.Policy, k: Key, now: int, old': Key -> nat, new': Key -> nat, n: nat)
    requires RankedBy(c, p, old') && (!p.Lfu? ==> forall x :: old'(x) < n)
    requires var answered := Get(c, k, now).1.Some?;
      forall x :: new'(x) ==
        (if x != k || p.Fifo? || !answered then old'(x) else if p.Lru? then n else old'(x) + 1)
    ensures RankedBy(Get(c, k, now).0, p, new')
  {
    GetPolicy(c, k, now);
    if Get(c, k, now).1.Some? {
      PolicySpec.GetTracks(c.policy.value, k);
      GetRanked(c.policy.value, k, old', new', n);
    } else {
      SameRanks(c, p, old', new');
    }
  }

  lemma OtherStep<V>(c: Cache<V>, p: PolicySpec.Policy, op: Op<V>, old': Key -> nat, new': Key -> nat)
    requires RankedBy(c, p, old') && !op.SetOp? && !op.GetOp? && forall x :: new'(x) == old'(x)
    ensures RankedBy(Step(c, op), p, new')
  {
    SameRanks(c, p, old', new');
    if op.DeleteOp? {
      PolicySpec.DeleteTracks(c.policy.value, op.key);
      DeleteRanked(c.policy.value, op.key, new');
    }
  }

  lemma StepInOrder<V>(c: Cache<V>, trace: seq<Op<V>>, op: Op<V>)
    requires c.policy.Some? && InOrder(c, trace)
    ensures InOrder(c, trace + [op])
  {
    var p, s, n := c.policy.value, Run(c, trace), |trace| + 1;
    var old': Key -> nat := k => Rank(c, trace, k);
    var new': Key -> nat := k => Rank(c, trace + [op], k);
    assert (trace + [op])[..|trace|] == trace;
    forall x
      ensures !p.Lfu? ==> old'(x) < n
    {
      if !p.Lfu? {
        RankBound(c, trace, x);
      }
    }
    forall x {
      RankStep(c, trace, op, x);
    }
    match op
    case SetOp(k, v, ttl, now) => SetStep(s, p, k, v, ttl, now, old', new', n);
    case GetOp(k, now) => GetStep(s, p, k, now, old', new', n);
    case _ => OtherStep(s, p, op, old', new');
  }

  /** A cache whose policy has not tracked anything yet. */
  ghost predicate Starts<V>(c: Cache<V>) {
    && WellFormed(c) && c.policy.Some? && PolicySpec.Tracked(c.policy.value) == {}
  }

  /** Whatever calls are made on a new cache, its policy is in the order of the cache's own history. */
  lemma {:induction false} RunInOrder<V>(c: Cache<V>, trace: seq<Op<V>>)
    requires Starts(c)
    ensures InOrder(c, trace)
  {
    if trace == [] {
      PolicySpec.SizeIsTracked(c.policy.value);
    } else {
      RunInOrder(c, trace[..|trace| - 1]);
      StepInOrder(c, trace[..|trace| - 1], trace[|trace| - 1]);
      assert trace == trace[..|trace| - 1] + [trace[|trace| - 1]];
    }
  }

  /** An LRU cache tracks its keys sorted by latest accepted Set or answered Get, latest first. */
  lemma LruCacheOrder<V>(c: Cache<V>, trace: seq<Op<V>>)
    requires Starts(c) && c.policy.value.Lru?
    ensures var p := Run(c, trace).policy;
      && p.Some? && p.value.Lru?
      && forall i, j :: 0 <= i < j < |p.value.order| ==>
           LastUse(c, trace, p.value.order[i]) > LastUse(c, trace, p.value.order[j])
  {
    RunInOrder(c, trace);
    var rank: Key -> nat := k => Rank(c, trace, k);
    assert LruSpec.OrderedBy(Run(c, trace).policy.value.order, rank);
    assert forall k :: rank(k) == LastUse(c, trace, k);
  }

  /** A FIFO cache tracks its keys in the order of the accepted Sets that found them untracked. */
  lemma FifoCacheOrder<V>(c: Cache<V>, trace: seq<Op<V>>)
    requires Starts(c) && c.policy.value.Fifo?
    ensures var p := Run(c, trace).policy;
      && p.Some? && p.value.Fifo?
      && forall i, j :: 0 <= i < j < |p.value.order| ==>
           LastInsertion(c, trace, p.value.order[i]) < LastInsertion(c, trace, p.value.order[j])
  {
    RunInOrder(c, trace);
    var rank: Key -> nat := k => Rank(c, trace, k);
    assert FifoSpec.OrderedBy(Run(c, trace).policy.value.order, rank);
    assert forall k :: rank(k) == LastInsertion(c, trace, k);
  }

  /** An LFU cache counts for every tracked key 1 plus the Gets answered since its latest accepted Set. */
  lemma LfuCacheCounts<V>(c: Cache<V>, trace: seq<Op<V>>)
    requires Starts(c) && c.policy.value.Lfu?
    ensures var p := Run(c, trace).policy;
      && p.Some? && p.value.Lfu?
      && forall x :: x in p.value.queue ==> x.count == 1 + HitsSinceSet(c, trace, x.key)
  {
    RunInOrder(c, trace);
    var rank: Key -> nat := k => Rank(c, trace, k);
    assert forall k :: rank(k) == 1 + HitsSinceSet(c, trace, k);
  }

  /** x is to go rather than y, by the history of the cache. */
  ghost predicate GoesFirst<V>(c: Cache<V>, trace: seq<Op<V>>, x: Key, y: Key)
    requires c.policy.Some?
  {
    match c.policy.value
    case Lru(_, _) => LastUse(c, trace, x) < LastUse(c, trace, y)
    case Fifo(_, _) => LastInsertion(c, trace, x) < LastInsertion(c, trace, y)
    case Lfu(_, _) => HitsSinceSet(c, trace, x) <= HitsSinceSet(c, trace, y)
  }

  /**
   * A Set on a full cache that is not refused for its TTL or for capacity evicts the resident key x that was used
   * longest ago, or inserted first, or hit least, of all resident keys that the policy tracks.
   */
  lemma FullSetEvictsFirst<V>(c0: Cache<V>, trace: seq<Op<V>>, k: Key, v: V, ttl: int, now: int) returns (x: Key)
    requires Starts(c0)
    requires var c := Run(c0, trace);
      && 0 < c.maxSize == |c.items| && Ttl.Validate(ttl, c.ttl) == None
      && Set(c, k, v, ttl, now).1 != Some(CapacityReached)
    ensures var c := Run(c0, trace);
      && c.policy.Some?
      && x in c.items && x in PolicySpec.Tracked(c.policy.value)
      && Set(c, k, v, ttl, now).0.items.Keys == c.items.Keys - {x} + {k}
      && forall y :: y in c.items && y in PolicySpec.Tracked(c.policy.value) && y != x ==> GoesFirst(c0, trace, x, y)
  {
    var c := Run(c0, trace);
    SizeBounded(c0, trace);
    RunInOrder(c0, trace);
    SetOnFull(c, k, v, ttl, now);
    FullMakeRoom(c);
    var r := EvictLoop(c.items, c.maxSize, c.policy.value);
    var rank: Key -> nat := k => Rank(c0, trace, k);
    LoopRemovesLeast(c.items, c.maxSize, c.policy.value, rank, r);
    x := r.popped[|r.popped| - 1];
    EvictLoopPolicy(c.items, c.maxSize, c.policy.value);
    PoppedTracked(c.items, c.maxSize, c.policy.value, x);
    forall y | y in c.items && y in PolicySpec.Tracked(c.policy.value) && y != x
      ensures GoesFirst(c0, trace, x, y)
    {
      assert Before(c.policy.value, rank(x), rank(y));
    }
  }

  lemma {:induction false} PoppedTracked<V>(items: map<Key, Item<V>>, maxSize: int, p: PolicySpec.Policy, x: Key)
    requires PolicySpec.Valid(p) && x in EvictLoop(items, maxSize, p).popped
    ensures x in PolicySpec.Tracked(p)
    decreases PolicySpec.Size(p)
  {
    PolicySpec.EvictTracks(p);
    var (p', victim) := PolicySpec.Evict(p);
    if x != victim.value {
      PoppedTracked(items - {victim.value}, maxSize, p', x);
    }
  }
}
