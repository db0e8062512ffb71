/**
 * Go's container/heap over the LFU queue, as functions on the queue's contents.
 * Less compares access counts; Up and Down are the library's sift loops written as tail recursion,
 * so a loop that performs them keeps the same function value at every iteration.
 */
module Heap {
  import opened Types

  datatype Slot = Slot(key: Key, count: nat)

  predicate Less(q: seq<Slot>, i: nat, j: nat)
    requires i < |q| && j < |q|
  {
    q[i].count < q[j].count
  }

  function Swap(q: seq<Slot>, i: nat, j: nat): (r: seq<Slot>)
    requires i < |q| && j < |q|
    ensures |r| == |q|
  {
    q[i := q[j]][j := q[i]]
  }

  /** (j - 1) / 2 with Go's division, which truncates toward zero: the root is its own parent. */
  function Parent(j: nat): (i: nat)
    ensures i <= j && (j > 0 ==> i < j)
  {
    if j == 0 then 0 else (j - 1) / 2
  }

  function Up(q: seq<Slot>, j: nat): (r: seq<Slot>)
    requires j < |q|
    ensures |r| == |q|
    decreases j
  {
    var i := Parent(j);
    if i == j || !Less(q, j, i) then q else Up(Swap(q, i, j), i)
  }

  /** The child of i that the sift-down loop compares with i. */
  function LeastChild(q: seq<Slot>, i: nat, n: nat): (j: nat)
    requires 2 * i + 1 < n <= |q|
    ensures i < j < n && Parent(j) == i
  {
    if 2 * i + 2 < n && Less(q, 2 * i + 2, 2 * i + 1) then 2 * i + 2 else 2 * i + 1
  }

  /** Sift q[i] down within the first n slots; also the place where it comes to rest. */
  function Down(q: seq<Slot>, i: nat, n: nat): (r: (seq<Slot>, nat))
    requires i <= n <= |q|
    ensures |r.0| == |q| && i <= r.1
    decreases n - i
  {
    if 2 * i + 1 >= n then (q, i)
    else
      var j := LeastChild(q, i, n);
      if !Less(q, j, i) then (q, i) else Down(Swap(q, i, j), j, n)
  }

  function Fix(q: seq<Slot>, i: nat): (r: seq<Slot>)
    requires i < |q|
    ensures |r| == |q|
  {
    var (q', p) := Down(q, i, |q|);
    if p > i then q' else Up(q', i)
  }

  function Push(q: seq<Slot>, x: Slot): (r: seq<Slot>)
    ensures |r| == |q| + 1
  {
    Up(q + [x], |q|)
  }

  function Pop(q: seq<Slot>): (r: (seq<Slot>, Slot))
    requires q != []
    ensures |r.0| == |q| - 1
  {
    var n := |q| - 1;
    var q' := Down(Swap(q, 0, n), 0, n).0;
    (q'[..n], q'[n])
  }

  function Remove(q: seq<Slot>, i: nat): (r: (seq<Slot>, Slot))
    requires i < |q|
    ensures |r.0| == |q| - 1
  {
    var n := |q| - 1;
    if i == n then (q[..n], q[n])
    else
      var (q1, p) := Down(Swap(q, i, n), i, n);
      var q2 := if p > i then q1 else Up(q1, i);
      (q2[..n], q2[n])
  }

  // ---------------------------------------------------------------- contents

  ghost predicate DistinctKeys(q: seq<Slot>) {
    forall i, j :: 0 <= i < j < |q| ==> q[i].key != q[j].key
  }

  /** The same slots in another order, within the first n; the rest in place. */
  ghost predicate Rearranged(q: seq<Slot>, r: seq<Slot>, n: nat) {
    && |r| == |q| && n <= |q|
    && multiset(r[..n]) == multiset(q[..n])
    && r[n..] == q[n..]
  }

  lemma SwapRearranges(q: seq<Slot>, i: nat, j: nat, n: nat)
    requires i < n && j < n && n <= |q|
    ensures Rearranged(q, Swap(q, i, j), n)
  {}

  lemma {:induction false} UpRearranges(q: seq<Slot>, j: nat, n: nat)
    requires j < n <= |q|
    ensures Rearranged(q, Up(q, j), n)
    decreases j
  {
    var i := Parent(j);
    if i != j && Less(q, j, i) {
      SwapRearranges(q, i, j, n);
      UpRearranges(Swap(q, i, j), i, n);
    }
  }

  lemma {:induction false} DownRearranges(q: seq<Slot>, i: nat, n: nat)
    requires i <= n <= |q|
    ensures Rearranged(q, Down(q, i, n).0, n)
    decreases n - i
  {
    if 2 * i + 1 < n && Less(q, LeastChild(q, i, n), i) {
      var j := LeastChild(q, i, n);
      SwapRearranges(q, i, j, n);
      DownRearranges(Swap(q, i, j), j, n);
    }
  }

  // ---------------------------------------------------------------- order

  /** The first n slots form a min-heap on the access count. */
  ghost predicate IsHeap(q: seq<Slot>, n: nat)
    requires n <= |q|
  {
    forall j :: 0 < j < n ==> q[Parent(j)].count <= q[j].count
  }

  /** A heap but for slot i, which may be out of order both with its parent and with its children. */
  ghost predicate HeapExceptAt(q: seq<Slot>, i: nat, n: nat)
    requires n <= |q|
  {
    && (forall j :: 0 < j < n && j != i && Parent(j) != i ==> q[Parent(j)].count <= q[j].count)
    && (forall j :: 0 < j < n && Parent(j) == i && 0 < i ==> q[Parent(i)].count <= q[j].count)
  }

  lemma ChangedSlot(q: seq<Slot>, i: nat, x: Slot, n: nat)
    requires i < n <= |q| && IsHeap(q, n)
    ensures HeapExceptAt(q[i := x], i, n)
  {}

  lemma {:induction false} UpRestores(q: seq<Slot>, j: nat, n: nat)
    requires j < n <= |q| && HeapExceptAt(q, j, n)
    requires forall m :: 0 < m < n && Parent(m) == j ==> q[j].count <= q[m].count
    ensures IsHeap(Up(q, j), n)
    decreases j
  {
    var i := Parent(j);
    if i != j && Less(q, j, i) {
      UpRestores(Swap(q, i, j), i, n);
    }
  }

  lemma DownStep(q: seq<Slot>, i: nat, n: nat, j: nat)
    requires 2 * i + 1 < n <= |q| && HeapExceptAt(q, i, n)
    requires j == LeastChild(q, i, n) && Less(q, j, i)
    ensures HeapExceptAt(Swap(q, i, j), j, n)
    ensures Swap(q, i, j)[i].count <= Swap(q, i, j)[j].count
  {
    var r := Swap(q, i, j);
    forall m | 0 < m < n && m != j && Parent(m) != j
      ensures r[Parent(m)].count <= r[m].count
    {
      if Parent(m) == i {
        assert m == 2 * i + 1 || m == 2 * i + 2;
      } else if m == i {
        assert q[Parent(i)].count <= q[j].count;
      } else {
        assert q[Parent(m)].count <= q[m].count;
      }
    }
    forall m | 0 < m < n && Parent(m) == j
      ensures r[Parent(j)].count <= r[m].count
    {
      assert q[j].count <= q[m].count;
    }
  }

  /** Sifting down either moves the slot and ends in a heap, or finds its children already in order. */
  lemma {:induction false} DownRestores(q: seq<Slot>, i: nat, n: nat)
    requires i < n <= |q| && HeapExceptAt(q, i, n)
    ensures Down(q, i, n).1 > i ==> IsHeap(Down(q, i, n).0, n)
    ensures Down(q, i, n).1 == i ==>
      Down(q, i, n).0 == q && forall m :: 0 < m < n && Parent(m) == i ==> q[i].count <= q[m].count
    decreases n - i
  {
    if 2 * i + 1 < n {
      var j := LeastChild(q, i, n);
      if Less(q, j, i) {
        DownStep(q, i, n, j);
        DownRestores(Swap(q, i, j), j, n);
        if Down(Swap(q, i, j), j, n).1 == j {
          SettledHeap(Swap(q, i, j), j, n);
        }
      } else {
        forall m | 0 < m < n && Parent(m) == i
          ensures q[i].count <= q[m].count
        {
          assert m == 2 * i + 1 || m == 2 * i + 2;
        }
      }
    }
  }

  lemma SettledHeap(q: seq<Slot>, j: nat, n: nat)
    requires 0 < j < n <= |q| && HeapExceptAt(q, j, n)
    requires q[Parent(j)].count <= q[j].count
    requires forall m :: 0 < m < n && Parent(m) == j ==> q[j].count <= q[m].count
    ensures IsHeap(q, n)
  {}

  lemma SiftRestores(q: seq<Slot>, i: nat, n: nat)
    requires i < n <= |q| && HeapExceptAt(q, i, n)
    ensures var (q', p) := Down(q, i, n);
      var r := if p > i then q' else Up(q', i);
      IsHeap(r, n) && Rearranged(q, r, n)
  {
    DownRestores(q, i, n);
    DownRearranges(q, i, n);
    if Down(q, i, n).1 == i {
      UpRestores(q, i, n);
      UpRearranges(q, i, n);
    }
  }

  lemma {:induction false} RootIsLeast(q: seq<Slot>, j: nat)
    requires j < |q| && IsHeap(q, |q|)
    ensures q[0].count <= q[j].count
    decreases j
  {
    if j == 0 {
    } else {
      RootIsLeast(q, Parent(j));
    }
  }

  // ---------------------------------------------------------------- the four calls

  lemma FixCorrect(q: seq<Slot>, i: nat, x: Slot)
    requires i < |q| && IsHeap(q, |q|)
    ensures IsHeap(Fix(q[i := x], i), |q|)
    ensures multiset(Fix(q[i := x], i)) == multiset(q[i := x])
  {
    var r := q[i := x];
    ChangedSlot(q, i, x, |q|);
    SiftRestores(r, i, |q|);
    assert r[..|q|] == r && Fix(r, i)[..|q|] == Fix(r, i);
  }

  lemma PushCorrect(q: seq<Slot>, x: Slot)
    requires IsHeap(q, |q|)
    ensures IsHeap(Push(q, x), |q| + 1)
    ensures multiset(Push(q, x)) == multiset(q) + multiset{x}
  {
    var n, r := |q|, q + [x];
    UpRestores(r, n, n + 1);
    UpRearranges(r, n, n + 1);
    assert r[..n + 1] == r && Push(q, x)[..n + 1] == Push(q, x);
  }

  /** Remove takes out the slot at i and keeps the rest, heap or not. */
  lemma RemoveTakes(q: seq<Slot>, i: nat)
    requires i < |q|
    ensures Remove(q, i).1 == q[i]
    ensures multiset(q) == multiset(Remove(q, i).0) + multiset{q[i]}
  {
    var n := |q| - 1;
    assert q == q[..n] + [q[n]];
    if i < n {
      var s := Swap(q, i, n);
      var d := Down(s, i, n);
      DownRearranges(s, i, n);
      if d.1 == i {
        UpRearranges(d.0, i, n);
      }
      var r := if d.1 > i then d.0 else Up(d.0, i);
      assert r[n] == r[n..][0] == s[n..][0] == q[i];
      assert s[..n] == q[..n][i := q[n]];
      assert multiset(q) == multiset(q[..n]) + multiset{q[n]};
    }
  }

  lemma RemoveCorrect(q: seq<Slot>, i: nat)
    requires i < |q| && IsHeap(q, |q|)
    ensures IsHeap(Remove(q, i).0, |q| - 1)
    ensures Remove(q, i).1 == q[i]
    ensures multiset(q) == multiset(Remove(q, i).0) + multiset{q[i]}
  {
    var n := |q| - 1;
    RemoveTakes(q, i);
    if i < n {
      SwapExceptAt(q, i);
      SiftRestores(Swap(q, i, n), i, n);
    }
  }

  lemma SwapExceptAt(q: seq<Slot>, i: nat)
    requires i < |q| - 1 && IsHeap(q, |q|)
    ensures HeapExceptAt(Swap(q, i, |q| - 1), i, |q| - 1)
  {}

  /** Pop takes out the root, which has the least count of all, and leaves a heap of the rest. */
  lemma PopCorrect(q: seq<Slot>)
    requires q != [] && IsHeap(q, |q|)
    ensures IsHeap(Pop(q).0, |q| - 1)
    ensures Pop(q).1 == q[0]
    ensures multiset(q) == multiset(Pop(q).0) + multiset{q[0]}
    ensures forall j :: 0 <= j < |q| ==> q[0].count <= q[j].count
  {
    forall j | 0 <= j < |q|
      ensures q[0].count <= q[j].count
    {
      RootIsLeast(q, j);
    }
    RemoveCorrect(q, 0);
    PopIsRemoveRoot(q);
  }

  lemma PopIsRemoveRoot(q: seq<Slot>)
    requires q != []
    ensures Pop(q) == Remove(q, 0)
  {}

  // ---------------------------------------------------------------- equal counts

  /** Nothing moves in a heap: slots of equal count stay where they are. */
  lemma FixOfHeap(q: seq<Slot>, i: nat)
    requires i < |q| && IsHeap(q, |q|)
    ensures Fix(q, i) == q
  {
    if 2 * i + 1 < |q| {
      assert Parent(LeastChild(q, i, |q|)) == i;
    }
  }

  /** A new slot passes its parent only if its count is less, and then stays if the next parent is no greater. */
  lemma PushBehindEqual(q: seq<Slot>, x: Slot)
    requires q != []
    ensures var (n, p) := (|q|, (|q| - 1) / 2);
      && (q[p].count <= x.count ==> Push(q, x) == q + [x])
      && (q[p].count > x.count && (p > 0 ==> q[(p - 1) / 2].count <= x.count) ==>
           Push(q, x) == q[p := x] + [q[p]])
  {
    var n, p := |q|, (|q| - 1) / 2;
    if q[p].count > x.count && (p > 0 ==> q[(p - 1) / 2].count <= x.count) {
      var r := Swap(q + [x], p, n);
      assert r == q[p := x] + [q[p]];
      assert Up(r, p) == r;
    }
  }

  /** The slots under place m have this count or more. */
  predicate AtMostChildren(q: seq<Slot>, count: nat, m: nat) {
    && (2 * m + 1 < |q| ==> count <= q[2 * m + 1].count)
    && (2 * m + 2 < |q| ==> count <= q[2 * m + 2].count)
  }

  /** A slot that grew changes places with its right child only if that is the lesser one, else with its left child. */
  lemma FixGoesLeft(q: seq<Slot>, i: nat)
    requires 2 * i + 2 < |q|
    ensures var (left, right) := (q[2 * i + 1], q[2 * i + 2]);
      && (left.count <= right.count && left.count < q[i].count && AtMostChildren(q, q[i].count, 2 * i + 1) ==>
           Fix(q, i) == q[i := left][2 * i + 1 := q[i]])
      && (right.count < left.count && right.count < q[i].count && AtMostChildren(q, q[i].count, 2 * i + 2) ==>
           Fix(q, i) == q[i := right][2 * i + 2 := q[i]])
  {
    var j := LeastChild(q, i, |q|);
    if q[j].count < q[i].count && AtMostChildren(q, q[i].count, j) {
      DownStops(Swap(q, i, j), j);
    }
  }

  lemma DownStops(q: seq<Slot>, j: nat)
    requires j < |q| && AtMostChildren(q, q[j].count, j)
    ensures Down(q, j, |q|) == (q, j)
  {}

  /** The last slot takes the place of the one removed, and stays there if it is in order with what is around it. */
  lemma RemoveFillsWithLast(q: seq<Slot>, i: nat)
    requires i < |q| - 1
    requires i > 0 ==> q[(i - 1) / 2].count <= q[|q| - 1].count
    requires AtMostChildren(q[..|q| - 1], q[|q| - 1].count, i)
    ensures Remove(q, i) == (q[..|q| - 1][i := q[|q| - 1]], q[i])
  {
    var n := |q| - 1;
    var r := Swap(q, i, n);
    assert 2 * i + 1 < n ==> q[..n][2 * i + 1] == q[2 * i + 1];
    assert 2 * i + 2 < n ==> q[..n][2 * i + 2] == q[2 * i + 2];
    assert Down(r, i, n) == (r, i);
    assert Up(r, i) == r;
  }

  /** In a queue of equal counts the oldest slot goes, and the newest takes its place. */
  lemma PopOfEquals(q: seq<Slot>)
    requires q != [] && forall i :: 0 <= i < |q| ==> q[i].count == q[0].count
    ensures Pop(q).1 == q[0]
    ensures Pop(q).0 == if |q| == 1 then [] else [q[|q| - 1]] + q[1..|q| - 1]
  {
    var n := |q| - 1;
    var r := Swap(q, 0, n);
    assert forall i :: 0 <= i < |r| ==> r[i].count == q[0].count;
    assert Down(r, 0, n).0 == r;
  }
}
