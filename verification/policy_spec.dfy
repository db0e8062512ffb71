/** policy.Policy: the three eviction policies behind one set of calls. */
module PolicySpec {
  import opened Types
  import opened PolicyOps
  import LruSpec
  import FifoSpec
  import LfuSpec
  import Heap

  datatype Policy =
    | Lru(capacity: int, order: seq<Key>)
    | Fifo(capacity: int, order: seq<Key>)
    | Lfu(capacity: int, queue: seq<Heap.Slot>)

  function OnGet(p: Policy, k: Key): Policy {
    match p
    case Lru(c, s) => Lru(c, LruSpec.OnGet(s, k))
    case Fifo(_, _) => p
    case Lfu(c, q) => Lfu(c, LfuSpec.OnGet(q, k))
  }

  function OnSet(p: Policy, k: Key): Policy {
    match p
    case Lru(c, s) => Lru(c, LruSpec.OnSet(c, s, k))
    case Fifo(c, s) => Fifo(c, FifoSpec.OnSet(c, s, k))
    case Lfu(c, q) => Lfu(c, LfuSpec.OnSet(c, q, k))
  }

  function OnDelete(p: Policy, k: Key): Policy {
    match p
    case Lru(c, s) => Lru(c, LruSpec.OnDelete(s, k))
    case Fifo(c, s) => Fifo(c, FifoSpec.OnDelete(s, k))
    case Lfu(c, q) => Lfu(c, LfuSpec.OnDelete(q, k))
  }

  function Evict(p: Policy): (Policy, Option<Key>) {
    match p
    case Lru(c, s) => (Lru(c, LruSpec.Evict(s).0), LruSpec.Evict(s).1)
    case Fifo(c, s) => (Fifo(c, FifoSpec.Evict(s).0), FifoSpec.Evict(s).1)
    case Lfu(c, q) => (Lfu(c, LfuSpec.Evict(q).0), LfuSpec.Evict(q).1)
  }

  function Size(p: Policy): nat {
    match p
    case Lru(_, s) => |s|
    case Fifo(_, s) => |s|
    case Lfu(_, q) => |q|
  }

  /** The keys the policy tracks. */
  ghost function Tracked(p: Policy): set<Key> {
    match p
    case Lru(_, s) => Elems(s)
    case Fifo(_, s) => Elems(s)
    case Lfu(_, q) => set i | 0 <= i < |q| :: q[i].key
  }

  ghost predicate Valid(p: Policy) {
    match p
    case Lru(c, s) => Distinct(s) && |s| <= Bound(c)
    case Fifo(c, s) => Distinct(s) && |s| <= Bound(c)
    case Lfu(c, q) => LfuSpec.Valid(c, q)
  }

  /** What the cache relies on, whichever policy it has. */
  lemma SizeIsTracked(p: Policy)
    requires Valid(p)
    ensures |Tracked(p)| == Size(p) <= Bound(p.capacity)
  {
    match p
    case Lru(_, s) => DistinctElems(s);
    case Fifo(_, s) => DistinctElems(s);
    case Lfu(_, q) => SlotKeys(q);
  }

  lemma {:induction false} SlotKeys(q: seq<Heap.Slot>)
    requires Heap.DistinctKeys(q)
    ensures |set i | 0 <= i < |q| :: q[i].key| == |q|
  {
    if q == [] {
    } else {
      var n := |q| - 1;
      SlotKeys(q[..n]);
      var all, most := set i | 0 <= i < |q| :: q[i].key, set i | 0 <= i < n :: q[..n][i].key;
      assert q[n].key !in most;
      assert all == most + {q[n].key};
    }
  }

  lemma InSlots(q: seq<Heap.Slot>, k: Key)
    ensures LfuSpec.Tracks(q, k) <==> k in Tracked(Lfu(0, q))
    ensures LfuSpec.Tracks(q, k) <==> exists c: nat :: Heap.Slot(k, c) in q
  {}

  /** The keys of an LFU queue. */
  ghost function SlotSet(q: seq<Heap.Slot>): set<Key> {
    Tracked(Lfu(0, q))
  }

  lemma LfuGetTracks(c: int, q: seq<Heap.Slot>, k: Key)
    requires LfuSpec.Valid(c, q)
    ensures LfuSpec.Valid(c, LfuSpec.OnGet(q, k)) && SlotSet(LfuSpec.OnGet(q, k)) == SlotSet(q)
  {
    var r := LfuSpec.OnGet(q, k);
    LfuSpec.OnGetKeeps(c, q, k);
    forall x
      ensures x in SlotSet(r) <==> x in SlotSet(q)
    {
      InSlots(q, x);
      InSlots(r, x);
    }
  }

  lemma LfuDeleteTracks(c: int, q: seq<Heap.Slot>, k: Key)
    requires LfuSpec.Valid(c, q)
    ensures LfuSpec.Valid(c, LfuSpec.OnDelete(q, k)) && SlotSet(LfuSpec.OnDelete(q, k)) == SlotSet(q) - {k}
  {
    var r := LfuSpec.OnDelete(q, k);
    LfuSpec.OnDeleteKeeps(c, q, k);
    forall x
      ensures x in SlotSet(r) <==> x in SlotSet(q) && x != k
    {
      InSlots(q, x);
      InSlots(r, x);
    }
  }

  lemma LfuSetTracks(c: int, q: seq<Heap.Slot>, k: Key)
    requires LfuSpec.Valid(c, q)
    ensures LfuSpec.Valid(c, LfuSpec.OnSet(c, q, k))
    ensures k in SlotSet(LfuSpec.OnSet(c, q, k)) && SlotSet(LfuSpec.OnSet(c, q, k)) <= SlotSet(q) + {k}
    ensures k in SlotSet(q) || |q| < c ==> SlotSet(LfuSpec.OnSet(c, q, k)) == SlotSet(q) + {k}
  {
    var r := LfuSpec.OnSet(c, q, k);
    LfuSpec.OnSetKeeps(c, q, k);
    if q != [] {
      LfuSpec.EvictKeeps(c, q);
    }
    InSlots(q, k);
    forall x
      ensures x in SlotSet(r) ==> x in SlotSet(q) || x == k
      ensures x == k ==> x in SlotSet(r)
      ensures k in SlotSet(q) || |q| < c ==> (x in SlotSet(q) ==> x in SlotSet(r))
    {
      InSlots(q, x);
      InSlots(r, x);
    }
  }

  lemma LfuEvictTracks(c: int, q: seq<Heap.Slot>)
    requires LfuSpec.Valid(c, q) && q != []
    ensures var (r, victim) := LfuSpec.Evict(q);
      && LfuSpec.Valid(c, r) && |r| == |q| - 1
      && victim.Some? && victim.value in SlotSet(q) && SlotSet(r) == SlotSet(q) - {victim.value}
  {
    var (r, victim) := LfuSpec.Evict(q);
    LfuSpec.EvictKeeps(c, q);
    InSlots(q, victim.value);
    forall x
      ensures x in SlotSet(r) <==> x in SlotSet(q) && x != victim.value
    {
      InSlots(q, x);
      InSlots(r, x);
    }
  }

  lemma GetTracks(p: Policy, k: Key)
    requires Valid(p)
    ensures Valid(OnGet(p, k)) && OnGet(p, k).capacity == p.capacity && Tracked(OnGet(p, k)) == Tracked(p)
  {
    match p
    case Lru(c, s) =>
      LruSpec.StepKeeps(c, s, Got(k));
      WithoutElems(s, k);
    case Fifo(_, _) =>
    case Lfu(c, q) => LfuGetTracks(c, q, k);
  }

  lemma DeleteTracks(p: Policy, k: Key)
    requires Valid(p)
    ensures Valid(OnDelete(p, k)) && OnDelete(p, k).capacity == p.capacity
    ensures Tracked(OnDelete(p, k)) == Tracked(p) - {k}
  {
    match p
    case Lru(_, s) => WithoutElems(s, k);
    case Fifo(_, s) => WithoutElems(s, k);
    case Lfu(c, q) => LfuDeleteTracks(c, q, k);
  }

  /** OnSet tracks k; it drops another key only when k is new and the policy full. */
  lemma SetTracks(p: Policy, k: Key)
    requires Valid(p)
    ensures Valid(OnSet(p, k)) && OnSet(p, k).capacity == p.capacity
    ensures k in Tracked(OnSet(p, k)) && Tracked(OnSet(p, k)) <= Tracked(p) + {k}
    ensures k in Tracked(p) || Size(p) < p.capacity ==> Tracked(OnSet(p, k)) == Tracked(p) + {k}
  {
    match p
    case Lru(c, s) =>
      LruSpec.StepKeeps(c, s, Stored(k));
      WithoutElems(s, k);
    case Fifo(c, s) => FifoSpec.StepKeeps(c, s, Stored(k));
    case Lfu(c, q) => LfuSetTracks(c, q, k);
  }

  /** Evict yields a tracked key exactly when there is one, and stops tracking it. */
  lemma EvictTracks(p: Policy)
    requires Valid(p)
    ensures Valid(Evict(p).0) && Evict(p).0.capacity == p.capacity
    ensures Evict(p).1 == None <==> Tracked(p) == {}
    ensures Evict(p).1 == None ==> Evict(p).0 == p
    ensures Evict(p).1.Some? ==>
      && Evict(p).1.value in Tracked(p)
      && Tracked(Evict(p).0) == Tracked(p) - {Evict(p).1.value}
      && Size(Evict(p).0) == Size(p) - 1
  {
    match p
    case Lru(c, s) =>
      if s != [] {
        assert s == s[..|s| - 1] + [s[|s| - 1]] && s[|s| - 1] in Tracked(p);
      }
    case Fifo(c, s) =>
      if s != [] {
        assert s == [s[0]] + s[1..] && s[0] in Tracked(p);
      }
    case Lfu(c, q) =>
      if q != [] {
        LfuEvictTracks(c, q);
      }
  }
}
