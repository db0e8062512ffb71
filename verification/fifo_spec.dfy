/** FIFO as a sequence of tracked keys, oldest insertion first. */
module FifoSpec {
  import opened Types
  import opened PolicyOps

  function OnSet(capacity: int, s: seq<Key>, k: Key): seq<Key> {
    if k in s then s
    else if |s| >= capacity && s != [] then s[1..] + [k]
    else s + [k]
  }

  function OnDelete(s: seq<Key>, k: Key): seq<Key> {
    Without(s, k)
  }

  function Evict(s: seq<Key>): (seq<Key>, Option<Key>) {
    if s == [] then (s, None) else (s[1..], Some(s[0]))
  }

  function Step(capacity: int, s: seq<Key>, op: Op): seq<Key> {
    match op
    case Got(k) => s
    case Stored(k) => OnSet(capacity, s, k)
    case Deleted(k) => OnDelete(s, k)
    case Cleared => []
    case Evicted => Evict(s).0
  }

  function Run(capacity: int, trace: seq<Op>): seq<Key> {
    if trace == [] then []
    else Step(capacity, Run(capacity, trace[..|trace| - 1]), trace[|trace| - 1])
  }

  lemma RunOne(capacity: int, trace: seq<Op>, op: Op)
    ensures Run(capacity, trace + [op]) == Step(capacity, Run(capacity, trace), op)
  {}

  /** The position (from 1) of the latest call that inserted k while it was absent; 0 when none did. */
  function LastInsertion(capacity: int, trace: seq<Op>, k: Key): (r: nat)
    ensures r <= |trace|
  {
    if trace == [] then 0
    else
      var before := trace[..|trace| - 1];
      if trace[|trace| - 1] == Stored(k) && k !in Run(capacity, before) then |trace|
      else LastInsertion(capacity, before, k)
  }

  ghost predicate OrderedBy(s: seq<Key>, time: Key -> nat) {
    forall i, j :: 0 <= i < j < |s| ==> time(s[i]) < time(s[j])
  }

  lemma StepKeeps(capacity: int, s: seq<Key>, op: Op)
    requires Distinct(s) && |s| <= Bound(capacity)
    ensures Distinct(Step(capacity, s, op)) && |Step(capacity, s, op)| <= Bound(capacity)
  {
    if op.Deleted? {
      WithoutElems(s, op.key);
    }
  }

  lemma {:induction false} RunKeeps(capacity: int, trace: seq<Op>)
    ensures Distinct(Run(capacity, trace)) && |Run(capacity, trace)| <= Bound(capacity)
  {
    if trace == [] {
    } else {
      RunKeeps(capacity, trace[..|trace| - 1]);
      StepKeeps(capacity, Run(capacity, trace[..|trace| - 1]), trace[|trace| - 1]);
    }
  }

  lemma AppendOrder(s: seq<Key>, k: Key, time: Key -> nat)
    requires OrderedBy(s, time)
    requires forall x :: x in s ==> time(x) < time(k)
    ensures OrderedBy(s + [k], time)
  {}

  lemma OmitOrder(s: seq<Key>, k: Key, time: Key -> nat)
    requires OrderedBy(s, time) && Distinct(s)
    ensures OrderedBy(Without(s, k), time)
  {
    if k in s {
      var i :| 0 <= i < |s| && s[i] == k;
      WithoutAt(s, k, i);
    } else {
      WithoutAbsent(s, k);
    }
  }

  /** A call keeps the order of the keys already present and appends only an absent key. */
  lemma StepOrder(capacity: int, s: seq<Key>, op: Op, old': Key -> nat, new': Key -> nat, n: nat)
    requires Distinct(s) && OrderedBy(s, old')
    requires forall k :: old'(k) < n
    requires forall k :: new'(k) == if op == Stored(k) && k !in s then n else old'(k)
    ensures OrderedBy(Step(capacity, s, op), new')
  {
    forall i, j | 0 <= i < j < |s|
      ensures new'(s[i]) < new'(s[j])
    {
      assert s[i] in s && s[j] in s;
    }
    if op.Stored? && op.key !in s {
      var kept := if |s| >= capacity && s != [] then s[1..] else s;
      AppendOrder(kept, op.key, new');
    } else if op.Deleted? {
      OmitOrder(s, op.key, new');
    }
  }

  /** The list is the tracked keys in order of their latest insertion, over every trace. */
  lemma {:induction false} OrderedByInsertion(capacity: int, trace: seq<Op>)
    ensures forall i, j :: 0 <= i < j < |Run(capacity, trace)| ==>
      LastInsertion(capacity, trace, Run(capacity, trace)[i]) < LastInsertion(capacity, trace, Run(capacity, trace)[j])
  {
    if trace == [] {
    } else {
      var before := trace[..|trace| - 1];
      OrderedByInsertion(capacity, before);
      RunKeeps(capacity, before);
      var old' := (k: Key) => LastInsertion(capacity, before, k);
      var new' := (k: Key) => LastInsertion(capacity, trace, k);
      assert OrderedBy(Run(capacity, before), old');
      StepOrder(capacity, Run(capacity, before), trace[|trace| - 1], old', new', |trace|);
      assert OrderedBy(Run(capacity, trace), new');
    }
  }

  /** The keys a call drops without being asked to delete them. */
  ghost predicate Drops(capacity: int, s: seq<Key>, op: Op, x: Key) {
    (op.Evicted? || op.Stored?) && x in s && x !in Step(capacity, s, op)
  }

  /** Every victim is the oldest insertion, however often it was read or overwritten since. */
  lemma VictimIsOldest(capacity: int, trace: seq<Op>, op: Op, x: Key, y: Key)
    requires Drops(capacity, Run(capacity, trace), op, x)
    requires y in Run(capacity, trace) && y != x
    ensures LastInsertion(capacity, trace, x) < LastInsertion(capacity, trace, y)
    ensures y in Step(capacity, Run(capacity, trace), op)
    ensures op.Stored? ==> |Run(capacity, trace)| == Bound(capacity) && op.key !in Run(capacity, trace)
  {
    var s := Run(capacity, trace);
    RunKeeps(capacity, trace);
    OrderedByInsertion(capacity, trace);
    assert s == [s[0]] + s[1..];
    var j :| 0 <= j < |s| && s[j] == y;
    assert x == s[0] && y == s[1..][j - 1];
  }

  /** After a Clear the policy is as good as new. */
  lemma {:induction false} ClearedIsNew(capacity: int, trace: seq<Op>, rest: seq<Op>)
    ensures Run(capacity, trace + [Cleared] + rest) == Run(capacity, rest)
  {
    if rest == [] {
      RunOne(capacity, trace, Cleared);
      assert trace + [Cleared] + rest == trace + [Cleared];
    } else {
      var n := |rest| - 1;
      ClearedIsNew(capacity, trace, rest[..n]);
      RunOne(capacity, trace + [Cleared] + rest[..n], rest[n]);
      assert trace + [Cleared] + rest == trace + [Cleared] + rest[..n] + [rest[n]];
    }
  }
}
