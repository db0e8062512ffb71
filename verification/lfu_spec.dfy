/** LFU as the contents of its heap. */
module LfuSpec {
  import opened Types
  import opened PolicyOps
  import opened Heap

  predicate Tracks(q: seq<Slot>, k: Key) {
    exists i :: 0 <= i < |q| && q[i].key == k
  }

  /** The place of k in the queue; |q| when it is not there. */
  function IndexOf(q: seq<Slot>, k: Key): (i: nat)
    ensures i <= |q|
    ensures i < |q| ==> q[i].key == k
    ensures i == |q| ==> !Tracks(q, k)
  {
    if q == [] then 0 else if q[0].key == k then 0 else 1 + IndexOf(q[1..], k)
  }

  function OnGet(q: seq<Slot>, k: Key): seq<Slot> {
    var i := IndexOf(q, k);
    if i < |q| then Fix(q[i := Slot(k, q[i].count + 1)], i) else q
  }

  function OnSet(capacity: int, q: seq<Slot>, k: Key): seq<Slot> {
    var i := IndexOf(q, k);
    if i < |q| then Fix(q[i := Slot(k, 1)], i)
    else if |q| >= capacity && q != [] then Push(Pop(q).0, Slot(k, 1))
    else Push(q, Slot(k, 1))
  }

  function OnDelete(q: seq<Slot>, k: Key): seq<Slot> {
    var i := IndexOf(q, k);
    if i < |q| then Remove(q, i).0 else q
  }

  function Evict(q: seq<Slot>): (seq<Slot>, Option<Key>) {
    if q == [] then (q, None) else (Pop(q).0, Some(Pop(q).1.key))
  }

  function Step(capacity: int, q: seq<Slot>, op: Op): seq<Slot> {
    match op
    case Got(k) => OnGet(q, k)
    case Stored(k) => OnSet(capacity, q, k)
    case Deleted(k) => OnDelete(q, k)
    case Cleared => []
    case Evicted => Evict(q).0
  }

  function Run(capacity: int, trace: seq<Op>): seq<Slot> {
    if trace == [] then []
    else Step(capacity, Run(capacity, trace[..|trace| - 1]), trace[|trace| - 1])
  }

  lemma RunOne(capacity: int, trace: seq<Op>, op: Op)
    ensures Run(capacity, trace + [op]) == Step(capacity, Run(capacity, trace), op)
  {}

  /** How many reads of k the trace holds after its latest write of k. */
  function GetsSinceSet(trace: seq<Op>, k: Key): nat {
    if trace == [] || trace[|trace| - 1] == Stored(k) then 0
    else GetsSinceSet(trace[..|trace| - 1], k) + if trace[|trace| - 1] == Got(k) then 1 else 0
  }

  /** What the queue always is: a min-heap of slots with distinct keys, within the capacity. */
  ghost predicate Valid(capacity: int, q: seq<Slot>) {
    IsHeap(q, |q|) && DistinctKeys(q) && |q| <= Bound(capacity)
  }

  // ---------------------------------------------------------------- contents through multisets

  lemma OneSlotPerKey(q: seq<Slot>, a: Slot, b: Slot)
    requires DistinctKeys(q) && a in q && b in q && a.key == b.key
    ensures a == b && multiset(q)[a] == 1
  {
    var i :| 0 <= i < |q| && q[i] == a;
    var j :| 0 <= j < |q| && q[j] == b;
    assert i == j;
    assert q == q[..i] + [a] + q[i + 1..];
    assert a !in q[..i] && a !in q[i + 1..];
  }

  lemma TwoPlaces(r: seq<Slot>, i: nat, j: nat)
    requires i < j < |r| && r[i] == r[j]
    ensures multiset(r)[r[i]] >= 2
  {
    assert r == r[..j] + [r[j]] + r[j + 1..];
    assert r[i] in r[..j];
  }

  /** Distinct keys survive any rearrangement. */
  lemma DistinctRearranged(q: seq<Slot>, r: seq<Slot>)
    requires DistinctKeys(q) && multiset(r) == multiset(q)
    ensures DistinctKeys(r) && |r| == |q|
  {
    assert |multiset(r)| == |r| && |multiset(q)| == |q|;
    forall i, j | 0 <= i < j < |r|
      ensures r[i].key != r[j].key
    {
      assert r[i] in multiset(r) && r[j] in multiset(r);
      if r[i].key == r[j].key {
        OneSlotPerKey(q, r[i], r[j]);
        TwoPlaces(r, i, j);
        assert false;
      }
    }
  }

  lemma DistinctSub(q: seq<Slot>, r: seq<Slot>, x: Slot)
    requires DistinctKeys(q) && multiset(q) == multiset(r) + multiset{x}
    ensures DistinctKeys(r) && |r| == |q| - 1
    ensures forall s :: s in r <==> s in q && s.key != x.key
  {
    DistinctRearranged(q, r + [x]);
    assert DistinctKeys(r) by {
      assert forall i :: 0 <= i < |r| ==> r[i] == (r + [x])[i];
    }
    forall s
      ensures s in r <==> s in q && s.key != x.key
    {
      assert s in q <==> s in multiset(r + [x]);
      if s in r {
        var i :| 0 <= i < |r| && r[i] == s;
        assert (r + [x])[i].key != (r + [x])[|r|].key;
      }
    }
  }

  lemma DistinctAdd(q: seq<Slot>, r: seq<Slot>, x: Slot)
    requires DistinctKeys(q) && multiset(r) == multiset(q) + multiset{x} && !Tracks(q, x.key)
    ensures DistinctKeys(r) && |r| == |q| + 1
    ensures forall s :: s in r <==> s in q || s == x
  {
    assert multiset(q + [x]) == multiset(r);
    DistinctRearranged(q + [x], r);
    forall s
      ensures s in r <==> s in q || s == x
    {
      assert s in r <==> s in multiset(r);
      assert s in multiset(q) <==> s in q;
    }
  }

  lemma DistinctUpdate(q: seq<Slot>, i: nat, r: seq<Slot>, x: Slot)
    requires DistinctKeys(q) && i < |q| && x.key == q[i].key && multiset(r) == multiset(q[i := x])
    ensures DistinctKeys(r) && |r| == |q|
    ensures forall s :: s in r <==> (s in q && s.key != x.key) || s == x
  {
    var u := q[i := x];
    DistinctRearranged(u, r);
    forall s
      ensures s in r <==> (s in q && s.key != x.key) || s == x
    {
      assert s in r <==> s in multiset(u);
      if s in u && s != x {
        var j :| 0 <= j < |u| && u[j] == s;
        assert q[j] == s;
      }
      if s in q && s.key != x.key {
        var j :| 0 <= j < |q| && q[j] == s;
        assert u[j] == s;
      }
    }
  }

  // ---------------------------------------------------------------- one call

  lemma OnGetKeeps(capacity: int, q: seq<Slot>, k: Key)
    requires Valid(capacity, q)
    ensures Valid(capacity, OnGet(q, k)) && |OnGet(q, k)| == |q|
    ensures forall s :: s in OnGet(q, k) <==>
      (s in q && s.key != k) || (Tracks(q, k) && s == Slot(k, q[IndexOf(q, k)].count + 1))
  {
    var i := IndexOf(q, k);
    if i < |q| {
      var x := Slot(k, q[i].count + 1);
      FixCorrect(q, i, x);
      DistinctUpdate(q, i, OnGet(q, k), x);
    } else {
      NotTracked(q, k);
    }
  }

  lemma OnGetOrigin(capacity: int, q: seq<Slot>, k: Key, s: Slot)
    requires Valid(capacity, q) && s in OnGet(q, k)
    ensures if s.key == k then 0 < s.count && Slot(k, s.count - 1) in q else s in q
  {
    OnGetKeeps(capacity, q, k);
  }

  lemma NotTracked(q: seq<Slot>, k: Key)
    requires !Tracks(q, k)
    ensures forall s :: s in q ==> s.key != k
  {}

  lemma OnDeleteKeeps(capacity: int, q: seq<Slot>, k: Key)
    requires Valid(capacity, q)
    ensures Valid(capacity, OnDelete(q, k))
    ensures |OnDelete(q, k)| == if Tracks(q, k) then |q| - 1 else |q|
    ensures forall s :: s in OnDelete(q, k) <==> s in q && s.key != k
  {
    var i := IndexOf(q, k);
    if i < |q| {
      RemoveCorrect(q, i);
      DistinctSub(q, OnDelete(q, k), q[i]);
    } else {
      NotTracked(q, k);
    }
  }

  /** Evict takes a slot whose count no other slot undercuts, and keeps all the others. */
  lemma EvictKeeps(capacity: int, q: seq<Slot>)
    requires Valid(capacity, q) && q != []
    ensures Valid(capacity, Evict(q).0) && |Evict(q).0| == |q| - 1
    ensures Pop(q).1 in q && Evict(q).1 == Some(Pop(q).1.key)
    ensures forall s :: s in q ==> Pop(q).1.count <= s.count
    ensures forall s :: s in Evict(q).0 <==> s in q && s.key != Pop(q).1.key
  {
    PopCorrect(q);
    DistinctSub(q, Pop(q).0, q[0]);
  }

  lemma PushKeeps(capacity: int, q: seq<Slot>, k: Key)
    requires Valid(capacity, q) && !Tracks(q, k) && |q| < Bound(capacity)
    ensures Valid(capacity, Push(q, Slot(k, 1)))
    ensures forall s :: s in Push(q, Slot(k, 1)) <==> s in q || s == Slot(k, 1)
  {
    PushCorrect(q, Slot(k, 1));
    DistinctAdd(q, Push(q, Slot(k, 1)), Slot(k, 1));
  }

  lemma OnSetKeeps(capacity: int, q: seq<Slot>, k: Key)
    requires Valid(capacity, q)
    ensures Valid(capacity, OnSet(capacity, q, k))
    ensures var kept := if !Tracks(q, k) && |q| == Bound(capacity) then Evict(q).0 else q;
      forall s :: s in OnSet(capacity, q, k) <==> (s in kept && s.key != k) || s == Slot(k, 1)
  {
    if Tracks(q, k) {
      OverwriteKeeps(capacity, q, k);
    } else {
      var kept := if |q| == Bound(capacity) then Evict(q).0 else q;
      NotTracked(q, k);
      if |q| == Bound(capacity) {
        EvictKeeps(capacity, q);
      }
      assert forall j :: 0 <= j < |kept| ==> kept[j] in kept;
      PushKeeps(capacity, kept, k);
    }
  }

  lemma OverwriteKeeps(capacity: int, q: seq<Slot>, k: Key)
    requires Valid(capacity, q) && Tracks(q, k)
    ensures Valid(capacity, OnSet(capacity, q, k))
    ensures forall s :: s in OnSet(capacity, q, k) <==> (s in q && s.key != k) || s == Slot(k, 1)
  {
    var i := IndexOf(q, k);
    FixCorrect(q, i, Slot(k, 1));
    DistinctUpdate(q, i, OnSet(capacity, q, k), Slot(k, 1));
  }

  // ---------------------------------------------------------------- whole traces

  lemma {:induction false} RunKeeps(capacity: int, trace: seq<Op>)
    ensures Valid(capacity, Run(capacity, trace))
  {
    if trace == [] {
    } else {
      var before, op := trace[..|trace| - 1], trace[|trace| - 1];
      RunKeeps(capacity, before);
      StepKeeps(capacity, Run(capacity, before), op);
    }
  }

  lemma StepKeeps(capacity: int, q: seq<Slot>, op: Op)
    requires Valid(capacity, q)
    ensures Valid(capacity, Step(capacity, q, op))
  {
    match op
    case Got(k) => OnGetKeeps(capacity, q, k);
    case Stored(k) => OnSetKeeps(capacity, q, k);
    case Deleted(k) => OnDeleteKeeps(capacity, q, k);
    case Cleared =>
    case Evicted => if q != [] { EvictKeeps(capacity, q); }
  }

  /** A tracked key's count is 1 plus the reads of it since its latest write, over every trace. */
  lemma {:induction false} CountIsHistory(capacity: int, trace: seq<Op>, s: Slot)
    requires s in Run(capacity, trace)
    ensures s.count == 1 + GetsSinceSet(trace, s.key)
  {
    if trace == [] {
    } else {
      var before, op := trace[..|trace| - 1], trace[|trace| - 1];
      var q := Run(capacity, before);
      RunKeeps(capacity, before);
      match op {
        case Got(k) =>
          OnGetOrigin(capacity, q, k, s);
          CountIsHistory(capacity, before, if s.key == k then Slot(k, s.count - 1) else s);
        case Stored(k) =>
          OnSetKeeps(capacity, q, k);
          if s.key != k {
            if !Tracks(q, k) && |q| == Bound(capacity) {
              EvictKeeps(capacity, q);
            }
            CountIsHistory(capacity, before, s);
          }
        case Deleted(k) =>
          OnDeleteKeeps(capacity, q, k);
          CountIsHistory(capacity, before, s);
        case Cleared =>
        case Evicted =>
          EvictKeeps(capacity, q);
          CountIsHistory(capacity, before, s);
      }
    }
  }

  /** The keys a call drops without being asked to delete them. */
  ghost predicate Drops(capacity: int, q: seq<Slot>, op: Op, x: Key) {
    (op.Evicted? || op.Stored?) && Tracks(q, x) && !Tracks(Step(capacity, q, op), x)
  }

  /** The victim of Evict or of OnSet on a full policy was read least since it was last written. */
  lemma VictimIsLeastUsed(capacity: int, trace: seq<Op>, op: Op, x: Key, y: Key)
    requires Drops(capacity, Run(capacity, trace), op, x)
    requires Tracks(Run(capacity, trace), y) && y != x
    ensures GetsSinceSet(trace, x) <= GetsSinceSet(trace, y)
    ensures Tracks(Step(capacity, Run(capacity, trace), op), y)
    ensures op.Stored? ==> |Run(capacity, trace)| == Bound(capacity) && !Tracks(Run(capacity, trace), op.key)
  {
    var q := Run(capacity, trace);
    var sx, sy := q[IndexOf(q, x)], q[IndexOf(q, y)];
    RunKeeps(capacity, trace);
    DropsLeast(capacity, q, op, sx, sy);
    CountIsHistory(capacity, trace, sx);
    CountIsHistory(capacity, trace, sy);
  }

  lemma DropsLeast(capacity: int, q: seq<Slot>, op: Op, x: Slot, y: Slot)
    requires Valid(capacity, q) && x in q && y in q && x.key != y.key && Drops(capacity, q, op, x.key)
    ensures x.count <= y.count && Tracks(Step(capacity, q, op), y.key)
    ensures op.Stored? ==> |q| == Bound(capacity) && !Tracks(q, op.key)
  {
    EvictKeeps(capacity, q);
    if op.Stored? {
      SetDrops(capacity, q, op.key, x);
      assert y in Evict(q).0;
      KeptSlot(capacity, q, op.key, y);
    } else {
      NotTracked(Evict(q).0, x.key);
      assert y in Evict(q).0;
    }
  }

  /** A Set loses only the key that Evict would take, and only when it has no room for a new one. */
  lemma SetDrops(capacity: int, q: seq<Slot>, k: Key, x: Slot)
    requires Valid(capacity, q) && q != [] && x in q && !Tracks(OnSet(capacity, q, k), x.key)
    ensures |q| == Bound(capacity) && !Tracks(q, k) && x.key == Pop(q).1.key
  {
    OnSetKeeps(capacity, q, k);
    EvictKeeps(capacity, q);
    NotTracked(OnSet(capacity, q, k), x.key);
    assert Slot(k, 1) in OnSet(capacity, q, k);
  }

  lemma KeptSlot(capacity: int, q: seq<Slot>, k: Key, y: Slot)
    requires Valid(capacity, q) && !Tracks(q, k) && |q| == Bound(capacity) && y in Evict(q).0 && y in q
    ensures Tracks(OnSet(capacity, q, k), y.key)
  {
    OnSetKeeps(capacity, q, k);
    assert y.key != k;
    assert y in OnSet(capacity, q, k);
  }

  // ---------------------------------------------------------------- equal counts

  function Sets(ks: seq<Key>): seq<Op> {
    if ks == [] then [] else Sets(ks[..|ks| - 1]) + [Stored(ks[|ks| - 1])]
  }

  function Fresh(ks: seq<Key>): seq<Slot> {
    seq(|ks|, i requires 0 <= i < |ks| => Slot(ks[i], 1))
  }

  /** A fresh key goes behind keys that were not read. */
  lemma FreshKeyNext(capacity: int, ks: seq<Key>, k: Key)
    requires k !in ks && |ks| < Bound(capacity)
    ensures OnSet(capacity, Fresh(ks), k) == Fresh(ks + [k])
  {
    var q := Fresh(ks);
    assert !Tracks(q, k);
    if q == [] {
      assert Push(q, Slot(k, 1)) == [Slot(k, 1)];
    } else {
      PushBehindEqual(q, Slot(k, 1));
    }
    assert Fresh(ks + [k]) == q + [Slot(k, 1)];
  }

  /** Keys that are set and not read queue up as they come. */
  lemma {:induction false} FreshKeysQueueUp(capacity: int, ks: seq<Key>)
    requires Distinct(ks) && |ks| <= Bound(capacity)
    ensures Run(capacity, Sets(ks)) == Fresh(ks)
  {
    if ks == [] {
    } else {
      var before, k := ks[..|ks| - 1], ks[|ks| - 1];
      FreshKeysQueueUp(capacity, before);
      FreshKeyNext(capacity, before, k);
      assert before + [k] == ks;
      RunOne(capacity, Sets(before), Stored(k));
    }
  }

  /** Of such keys the one set first goes first, and the one set last is then the next to go. */
  lemma FreshKeysGo(ks: seq<Key>)
    requires ks != []
    ensures Evict(Fresh(ks)).1 == Some(ks[0])
    ensures Evict(Fresh(ks)).0 == Fresh(if |ks| == 1 then [] else [ks[|ks| - 1]] + ks[1..|ks| - 1])
  {
    PopOfEquals(Fresh(ks));
  }

  /** After a Clear the policy is as good as new. */
  lemma {:induction false} ClearedIsNew(capacity: int, trace: seq<Op>, rest: seq<Op>)
    ensures Run(capacity, trace + [Cleared] + rest) == Run(capacity, rest)
  {
    if rest == [] {
      RunOne(capacity, trace, Cleared);
      assert trace + [Cleared] + rest == trace + [Cleared];
    } else {
      var n := |rest| - 1;
      ClearedIsNew(capacity, trace, rest[..n]);
      RunOne(capacity, trace + [Cleared] + rest[..n], rest[n]);
      assert trace + [Cleared] + rest == trace + [Cleared] + rest[..n] + [rest[n]];
    }
  }
}
