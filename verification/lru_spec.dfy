/** The calls a cache makes on its eviction policy, and the bound every policy keeps. */
module PolicyOps {
  import opened Types

  datatype Op = Got(key: Key) | Stored(key: Key) | Deleted(key: Key) | Cleared | Evicted

  /** OnSet evicts before it inserts, so a capacity below one behaves as a capacity of one. */
  function Bound(capacity: int): nat {
    if capacity < 1 then 1 else capacity
  }
}

/** LRU as a sequence of tracked keys, most recently touched first. */
module LruSpec {
  import opened Types
  import opened PolicyOps

  function OnGet(s: seq<Key>, k: Key): seq<Key> {
    if k in s then [k] + Without(s, k) else s
  }

  function OnSet(capacity: int, s: seq<Key>, k: Key): seq<Key> {
    if k in s then [k] + Without(s, k)
    else if |s| >= capacity && s != [] then [k] + s[..|s| - 1]
    else [k] + s
  }

  function OnDelete(s: seq<Key>, k: Key): seq<Key> {
    Without(s, k)
  }

  function Evict(s: seq<Key>): (seq<Key>, Option<Key>) {
    if s == [] then (s, None) else (s[..|s| - 1], Some(s[|s| - 1]))
  }

  function Step(capacity: int, s: seq<Key>, op: Op): seq<Key> {
    match op
    case Got(k) => OnGet(s, k)
    case Stored(k) => OnSet(capacity, s, k)
    case Deleted(k) => OnDelete(s, k)
    case Cleared => []
    case Evicted => Evict(s).0
  }

  /** The tracked keys after a whole trace of calls on a fresh policy. */
  function Run(capacity: int, trace: seq<Op>): seq<Key> {
    if trace == [] then []
    else Step(capacity, Run(capacity, trace[..|trace| - 1]), trace[|trace| - 1])
  }

  lemma RunOne(capacity: int, trace: seq<Op>, op: Op)
    ensures Run(capacity, trace + [op]) == Step(capacity, Run(capacity, trace), op)
  {}

  /** A call touches k when it sets k, or gets k while k is tracked. */
  predicate Touches(s: seq<Key>, op: Op, k: Key) {
    op == Stored(k) || (op == Got(k) && k in s)
  }

  /** The position (from 1) of the latest call that touched k; 0 when none did. */
  function LastTouch(capacity: int, trace: seq<Op>, k: Key): (r: nat)
    ensures r <= |trace|
  {
    if trace == [] then 0
    else
      var before := trace[..|trace| - 1];
      if Touches(Run(capacity, before), trace[|trace| - 1], k) then |trace|
      else LastTouch(capacity, before, k)
  }

  ghost predicate OrderedBy(s: seq<Key>, time: Key -> nat) {
    forall i, j :: 0 <= i < j < |s| ==> time(s[i]) > time(s[j])
  }

  lemma StepKeeps(capacity: int, s: seq<Key>, op: Op)
    requires Distinct(s) && |s| <= Bound(capacity)
    ensures Distinct(Step(capacity, s, op)) && |Step(capacity, s, op)| <= Bound(capacity)
    ensures forall x :: x in Step(capacity, s, op) ==> x in s || op == Stored(x)
  {
    match op
    case Got(k) => WithoutElems(s, k);
    case Stored(k) => WithoutElems(s, k);
    case Deleted(k) => WithoutElems(s, k);
    case Cleared =>
    case Evicted =>
  }

  /** Keys never repeat and the size stays within the capacity, over every trace. */
  lemma {:induction false} RunKeeps(capacity: int, trace: seq<Op>)
    ensures Distinct(Run(capacity, trace)) && |Run(capacity, trace)| <= Bound(capacity)
  {
    if trace == [] {
    } else {
      RunKeeps(capacity, trace[..|trace| - 1]);
      StepKeeps(capacity, Run(capacity, trace[..|trace| - 1]), trace[|trace| - 1]);
    }
  }

  lemma {:induction false} OmitOrder(s: seq<Key>, k: Key, time: Key -> nat)
    requires OrderedBy(s, time)
    ensures OrderedBy(Without(s, k), time)
    ensures forall x :: x in Without(s, k) ==> x in s
  {
    if s == [] {
    } else {
      var t, w := s[1..], Without(s[1..], k);
      assert OrderedBy(t, time);
      OmitOrder(t, k, time);
      if s[0] != k {
        PrependOrder(s[0], w, time) by {
          forall x | x in w
            ensures time(s[0]) > time(x)
          {
            assert x in t;
          }
        }
      }
    }
  }

  lemma PrependOrder(k: Key, s: seq<Key>, time: Key -> nat)
    requires OrderedBy(s, time)
    requires forall x :: x in s ==> time(k) > time(x)
    ensures OrderedBy([k] + s, time)
  {}

  lemma RetimeOrder(s: seq<Key>, old': Key -> nat, new': Key -> nat)
    requires OrderedBy(s, old')
    requires forall x :: x in s ==> new'(x) == old'(x)
    ensures OrderedBy(s, new')
  {}

  /** One call keeps the order of the keys it does not touch, and puts a touched key first. */
  lemma StepOrder(capacity: int, s: seq<Key>, op: Op, old': Key -> nat, new': Key -> nat, n: nat)
    requires Distinct(s) && OrderedBy(s, old')
    requires forall k :: old'(k) < n
    requires forall k :: new'(k) == if Touches(s, op, k) then n else old'(k)
    ensures OrderedBy(Step(capacity, s, op), new')
  {
    var t := Step(capacity, s, op);
    if exists k :: Touches(s, op, k) {
      var k :| Touches(s, op, k);
      WithoutElems(s, k);
      OmitOrder(s, k, old');
      assert t[0] == k;
      RetimeOrder(t[1..], old', new');
      PrependOrder(k, t[1..], new');
      assert t == [k] + t[1..];
    } else {
      if op.Deleted? {
        OmitOrder(s, op.key, old');
      }
      RetimeOrder(t, old', new');
    }
  }

  /** The list is the tracked keys ordered by latest touch, latest first, over every trace. */
  lemma {:induction false} OrderedByTouch(capacity: int, trace: seq<Op>)
    ensures forall i, j :: 0 <= i < j < |Run(capacity, trace)| ==>
      LastTouch(capacity, trace, Run(capacity, trace)[i]) > LastTouch(capacity, trace, Run(capacity, trace)[j])
  {
    if trace == [] {
    } else {
      var before := trace[..|trace| - 1];
      OrderedByTouch(capacity, before);
      RunKeeps(capacity, before);
      var old', new' := (k: Key) => LastTouch(capacity, before, k), (k: Key) => LastTouch(capacity, trace, k);
      assert OrderedBy(Run(capacity, before), old');
      StepOrder(capacity, Run(capacity, before), trace[|trace| - 1], old', new', |trace|);
      assert OrderedBy(Run(capacity, trace), new');
    }
  }

  /** The keys a call drops without being asked to delete them. */
  ghost predicate Drops(capacity: int, s: seq<Key>, op: Op, x: Key) {
    (op.Evicted? || op.Stored?) && x in s && x !in Step(capacity, s, op)
  }

  /** The key dropped by Evict, or by OnSet on a full policy, is the one whose latest touch is oldest. */
  lemma VictimIsLeastRecent(capacity: int, trace: seq<Op>, op: Op, x: Key, y: Key)
    requires Drops(capacity, Run(capacity, trace), op, x)
    requires y in Run(capacity, trace) && y != x
    ensures LastTouch(capacity, trace, x) < LastTouch(capacity, trace, y)
    ensures y in Step(capacity, Run(capacity, trace), op)
    ensures op.Stored? ==> |Run(capacity, trace)| == Bound(capacity) && op.key !in Run(capacity, trace)
  {
    var s := Run(capacity, trace);
    RunKeeps(capacity, trace);
    OrderedByTouch(capacity, trace);
    if op.Stored? && op.key in s {
      WithoutElems(s, op.key);
      assert false;
    }
    var j :| 0 <= j < |s| && s[j] == y;
    assert x == s[|s| - 1];
    assert y == s[..|s| - 1][j];
  }

  /** After a Clear the policy is as good as new. */
  lemma {:induction false} ClearedIsNew(capacity: int, trace: seq<Op>, rest: seq<Op>)
    ensures Run(capacity, trace + [Cleared] + rest) == Run(capacity, rest)
  {
    if rest == [] {
      RunOne(capacity, trace, Cleared);
      assert trace + [Cleared] + rest == trace + [Cleared];
    } else {
      var n := |rest| - 1;
      ClearedIsNew(capacity, trace, rest[..n]);
      RunOne(capacity, trace + [Cleared] + rest[..n], rest[n]);
      assert trace + [Cleared] + rest == trace + [Cleared] + rest[..n] + [rest[n]];
    }
  }
}
