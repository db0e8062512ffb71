/** policy.LFU: an indexed binary heap of item objects and a map from keys to the same objects. */
module LfuPolicy {
  import opened Types
  import Heap
  import LfuSpec
  import opened PolicyOps

  class LfuItem {
    const key: Key
    var count: nat
    var index: int

    constructor (key: Key)
      ensures this.key == key && count == 1
    {
      this.key := key;
      count := 1;
      index := 0;
    }
  }

  class Lfu {
    var queue: seq<LfuItem>
    var items: map<Key, LfuItem>
    const capacity: int

    ghost function Members(): set<LfuItem>
      reads this
    {
      Elems(queue)
    }

    ghost function Repr(): set<object>
      reads this
    {
      {this} + Members()
    }

    /** The queue's contents, as the functions of module Heap see them. */
    ghost function Slots(): (r: seq<Heap.Slot>)
      reads this, queue
      ensures |r| == |queue|
      ensures forall i :: 0 <= i < |r| ==> r[i] == Heap.Slot(queue[i].key, queue[i].count)
    {
      seq(|queue|, i requires 0 <= i < |queue| reads this, queue => Heap.Slot(queue[i].key, queue[i].count))
    }

    /** Every item knows its own place, so no item is queued twice. */
    ghost predicate Indexed()
      reads this, queue
    {
      forall i :: 0 <= i < |queue| ==> queue[i].index == i
    }

    /** The map holds exactly the given items, each under its own key. */
    static ghost predicate MapHolds(items: map<Key, LfuItem>, members: set<LfuItem>) {
      && (forall x :: x in members ==> x.key in items && items[x.key] == x)
      && (forall k :: k in items ==> items[k] in members && items[k].key == k)
    }

    static lemma HoldsLess(items: map<Key, LfuItem>, members: set<LfuItem>, item: LfuItem)
      requires MapHolds(items, members + {item}) && item !in members
      ensures MapHolds(items - {item.key}, members)
    {}

    static lemma HoldsMore(items: map<Key, LfuItem>, members: set<LfuItem>, item: LfuItem)
      requires MapHolds(items, members) && item.key !in items
      ensures MapHolds(items[item.key := item], members + {item})
    {}

    static lemma {:induction false} HoldsSize(items: map<Key, LfuItem>, members: set<LfuItem>)
      requires MapHolds(items, members)
      ensures |items| == |members|
      decreases members
    {
      if members == {} {
      } else {
        var x :| x in members;
        assert members == members - {x} + {x};
        HoldsLess(items, members - {x}, x);
        HoldsSize(items - {x.key}, members - {x});
        assert (items - {x.key}).Keys == items.Keys - {x.key};
      }
    }

    ghost predicate Valid()
      reads this, queue
    {
      && Indexed()
      && MapHolds(items, Members())
    }

    constructor (capacity: int)
      ensures Valid() && Slots() == [] && this.capacity == capacity && Repr() == {this}
    {
      this.capacity := capacity;
      queue := [];
      items := map[];
    }

    // -------------------------------------------------------------- lfuQueue and container/heap

    method Swap(i: nat, j: nat)
      requires Indexed() && i < |queue| && j < |queue|
      modifies this`queue, Members()`index
      ensures Indexed() && Members() == old(Members())
      ensures Slots() == Heap.Swap(old(Slots()), i, j)
    {
      SwapElems(queue, i, j);
      queue := queue[i := queue[j]][j := queue[i]];
      queue[i].index := i;
      queue[j].index := j;
    }

    method Up(j0: nat)
      requires Indexed() && j0 < |queue|
      modifies this`queue, Members()`index
      ensures Indexed() && Members() == old(Members())
      ensures Slots() == Heap.Up(old(Slots()), j0)
    {
      var j: nat := j0;
      while true
        invariant Indexed() && Members() == old(Members()) && j < |queue|
        invariant Heap.Up(Slots(), j) == Heap.Up(old(Slots()), j0)
        decreases j
      {
        var i := Heap.Parent(j);
        if i == j || queue[j].count >= queue[i].count {
          break;
        }
        Swap(i, j);
        j := i;
      }
    }

    method Down(i0: nat, n: nat) returns (moved: bool)
      requires Indexed() && i0 <= n <= |queue|
      modifies this`queue, Members()`index
      ensures Indexed() && Members() == old(Members())
      ensures Slots() == Heap.Down(old(Slots()), i0, n).0
      ensures moved == (Heap.Down(old(Slots()), i0, n).1 > i0)
    {
      var i := i0;
      ghost var q0 := Slots();
      while true
        invariant Indexed() && Members() == old(Members()) && i0 <= i <= n <= |queue|
        invariant Heap.Down(Slots(), i, n) == Heap.Down(q0, i0, n)
        decreases n - i
      {
        ghost var q := Slots();
        var j1 := 2 * i + 1;
        if j1 >= n {
          break;
        }
        var j := j1;
        if j1 + 1 < n && queue[j1 + 1].count < queue[j1].count {
          j := j1 + 1;
        }
        assert j == Heap.LeastChild(q, i, n);
        if queue[j].count >= queue[i].count {
          break;
        }
        assert Heap.Down(q, i, n) == Heap.Down(Heap.Swap(q, i, j), j, n);
        Swap(i, j);
        i := j;
      }
      moved := i > i0;
    }

    /** Sift the item at i down within the first n, or up when it does not move down. */
    method Sift(i: nat, n: nat)
      requires Indexed() && i < n <= |queue|
      modifies this`queue, Members()`index
      ensures Indexed() && Members() == old(Members())
      ensures var (q, p) := Heap.Down(old(Slots()), i, n);
        Slots() == if p > i then q else Heap.Up(q, i)
    {
      var moved := Down(i, n);
      if !moved {
        Up(i);
      }
    }

    method HeapFix(i: nat)
      requires Indexed() && i < |queue|
      modifies this`queue, Members()`index
      ensures Indexed() && Members() == old(Members())
      ensures Slots() == Heap.Fix(old(Slots()), i)
    {
      Sift(i, |queue|);
    }

    /** lfuQueue.Pop: drop the last item of the slice. */
    method PopLast() returns (item: LfuItem)
      requires Indexed() && queue != []
      modifies this`queue, Members()`index
      ensures item == old(queue[|queue| - 1]) && item.index == -1 && queue == old(queue[..|queue| - 1])
      ensures Indexed() && item !in Members() && Members() + {item} == old(Members())
      ensures Slots() == old(Slots()[..|queue| - 1])
      ensures Heap.Slot(item.key, item.count) == old(Slots()[|queue| - 1])
    {
      var n := |queue|;
      item := queue[n - 1];
      item.index := -1;
      queue := queue[..n - 1];
    }

    method HeapPop() returns (item: LfuItem)
      requires Indexed() && queue != []
      modifies this`queue, Members()`index
      ensures Indexed() && item !in Members() && Members() + {item} == old(Members())
      ensures Slots() == Heap.Pop(old(Slots())).0
      ensures Heap.Slot(item.key, item.count) == Heap.Pop(old(Slots())).1
    {
      var n := |queue| - 1;
      Swap(0, n);
      var _ := Down(0, n);
      item := PopLast();
    }

    method HeapRemove(i: nat) returns (item: LfuItem)
      requires Indexed() && i < |queue|
      modifies this`queue, Members()`index
      ensures Indexed() && item !in Members() && Members() + {item} == old(Members())
      ensures Slots() == Heap.Remove(old(Slots()), i).0
      ensures Heap.Slot(item.key, item.count) == Heap.Remove(old(Slots()), i).1
    {
      var n := |queue| - 1;
      ghost var q := Slots();
      if n != i {
        Swap(i, n);
        Sift(i, n);
      }
      assert Heap.Remove(q, i) == (Slots()[..n], Slots()[n]);
      item := PopLast();
    }

    method HeapPush(item: LfuItem)
      requires Indexed() && item !in Members()
      modifies this`queue, Members()`index, item`index
      ensures Indexed() && Members() == old(Members()) + {item}
      ensures Slots() == Heap.Push(old(Slots()), Heap.Slot(item.key, item.count))
    {
      item.index := |queue|;
      ghost var before := Slots();
      queue := queue + [item];
      assert Slots() == before + [Heap.Slot(item.key, item.count)];
      Up(|queue| - 1);
    }

    // -------------------------------------------------------------- policy.Policy

    /** A mapped item sits in the queue at its own index, which is where the key is found. */
    lemma ItemPlace(k: Key)
      requires Valid() && k in items
      ensures 0 <= items[k].index < |queue| && queue[items[k].index] == items[k]
      ensures LfuSpec.IndexOf(Slots(), k) == items[k].index && LfuSpec.Tracks(Slots(), k)
      ensures Slots()[items[k].index] == Heap.Slot(k, items[k].count)
    {}

    lemma KeysAgree(k: Key)
      requires Valid()
      ensures k in items <==> LfuSpec.Tracks(Slots(), k)
    {}

    lemma SizesAgree()
      requires Valid()
      ensures |items| == |queue|
    {
      DistinctElems(queue) by {
        assert forall i, j :: 0 <= i < j < |queue| ==> queue[i].index != queue[j].index;
      }
      HoldsSize(items, Members());
    }

    /** Give a tracked key a new count and restore the heap from its place, as OnGet and OnSet do. */
    method Recount(key: Key, count: nat)
      requires Valid() && key in items
      modifies Repr()
      ensures Valid() && Repr() == old(Repr())
      ensures Slots() == Heap.Fix(old(Slots())[old(items[key].index) := Heap.Slot(key, count)], old(items[key].index))
    {
      var item := items[key];
      ItemPlace(key);
      item.count := count;
      assert Slots() == old(Slots())[item.index := Heap.Slot(key, count)];
      HeapFix(item.index);
    }

    /** What OnGet is to do, in terms of the mapped item. */
    lemma GetIsRecount(key: Key)
      requires Valid()
      ensures LfuSpec.OnGet(Slots(), key) ==
        if key in items
        then Heap.Fix(Slots()[items[key].index := Heap.Slot(key, items[key].count + 1)], items[key].index)
        else Slots()
    {
      KeysAgree(key);
      if key in items {
        ItemPlace(key);
      }
    }

    method OnGet(key: Key)
      requires Valid()
      modifies Repr()
      ensures Valid() && Repr() == old(Repr())
      ensures Slots() == LfuSpec.OnGet(old(Slots()), key)
    {
      GetIsRecount(key);
      if key in items {
        Recount(key, items[key].count + 1);
      }
    }

    /** heap.Pop followed by deleting the popped key from the map, as OnSet and Evict both do. */
    method PopLeast() returns (item: LfuItem)
      requires Valid() && queue != []
      modifies Repr()
      ensures Valid() && Repr() <= old(Repr()) && items == old(items) - {item.key}
      ensures Slots() == Heap.Pop(old(Slots())).0
      ensures item.key == Heap.Pop(old(Slots())).1.key
    {
      item := HeapPop();
      HoldsLess(items, Members(), item);
      items := items - {item.key};
    }

    method OnSet(key: Key)
      requires Valid()
      modifies Repr()
      ensures Valid() && fresh(Repr() - old(Repr()))
      ensures Slots() == LfuSpec.OnSet(capacity, old(Slots()), key)
    {
      KeysAgree(key);
      SizesAgree();
      if key in items {
        Recount(key, 1);
      } else {
        if |items| >= capacity {
          if |queue| > 0 {
            var _ := PopLeast();
          }
        }
        Insert(key);
      }
    }

    /** The tail of OnSet for an absent key: a new item with count 1, queued and mapped. */
    method Insert(key: Key)
      requires Indexed() && MapHolds(items, Members()) && key !in items
      modifies this`queue, this`items, Members()`index
      ensures Indexed() && MapHolds(items, Members())
      ensures fresh(Members() - old(Members()))
      ensures Slots() == Heap.Push(old(Slots()), Heap.Slot(key, 1))
    {
      var item := new LfuItem(key);
      HoldsMore(items, Members(), item);
      HeapPush(item);
      items := items[key := item];
    }

    method OnDelete(key: Key)
      requires Valid()
      modifies Repr()
      ensures Valid() && Repr() <= old(Repr())
      ensures Slots() == LfuSpec.OnDelete(old(Slots()), key)
    {
      KeysAgree(key);
      if key in items {
        var item := items[key];
        ItemPlace(key);
        Heap.RemoveTakes(Slots(), item.index);
        var removed := HeapRemove(item.index);
        HoldsLess(items, Members(), removed);
        items := items - {key};
      }
    }

    method OnClear()
      requires Valid()
      modifies this
      ensures Valid() && Repr() == {this}
      ensures Slots() == []
    {
      queue := [];
      items := map[];
    }

    method Evict() returns (victim: Option<Key>)
      requires Valid()
      modifies Repr()
      ensures Valid() && Repr() <= old(Repr())
      ensures Slots() == LfuSpec.Evict(old(Slots())).0
      ensures victim == LfuSpec.Evict(old(Slots())).1
    {
      if |queue| == 0 {
        return None;
      }
      var item := PopLeast();
      victim := Some(item.key);
    }

    method Apply(op: Op)
      requires Valid()
      modifies Repr()
      ensures Valid() && fresh(Repr() - old(Repr()))
      ensures Slots() == LfuSpec.Step(capacity, old(Slots()), op)
    {
      match op
      case Got(k) => OnGet(k);
      case Stored(k) => OnSet(k);
      case Deleted(k) => OnDelete(k);
      case Cleared => OnClear();
      case Evicted => var _ := Evict();
    }
  }

  /**
   * Any sequence of calls on a new LFU leaves the queue that LfuSpec.Run computes: a min-heap of
   * distinct keys within the capacity, every item at its own index and mapped under its own key.
   */
  method Replay(capacity: int, trace: seq<Op>) returns (p: Lfu)
    ensures fresh(p) && p.Valid() && p.Slots() == LfuSpec.Run(capacity, trace)
    ensures LfuSpec.Valid(capacity, p.Slots())
  {
    p := new Lfu(capacity);
    for n := 0 to |trace|
      invariant p.Valid() && fresh(p.Repr()) && p.capacity == capacity
      invariant p.Slots() == LfuSpec.Run(capacity, trace[..n])
    {
      LfuSpec.RunOne(capacity, trace[..n], trace[n]);
      assert trace[..n + 1] == trace[..n] + [trace[n]];
      p.Apply(trace[n]);
    }
    assert trace[..|trace|] == trace;
    LfuSpec.RunKeeps(capacity, trace);
  }
}
