/** policy.FIFO: a map into a linked list, oldest insertion first. */
module FifoPolicy {
  import opened Types
  import opened PolicyOps
  import opened LinkedLists
  import FifoSpec

  class Fifo {
    var items: map<Key, Element>
    var list: List
    const capacity: int
    ghost var Repr: set<object>

    ghost predicate Valid()
      reads this, Repr
    {
      && this in Repr && list in Repr && list.Repr <= Repr && this !in list.Repr
      && list.Valid()
      && MapHolds(items, list.ring)
    }

    /** The tracked keys from oldest to newest insertion. */
    ghost function Order(): seq<Key>
      requires list.ring != []
      reads this, list
    {
      list.Keys()
    }

    constructor (capacity: int)
      ensures Valid() && Order() == [] && this.capacity == capacity && fresh(Repr)
    {
      this.capacity := capacity;
      items := map[];
      var l := new List();
      list := l;
      Repr := {this} + l.Repr;
    }

    /** A mapped element sits in the list, at the place where its key is found. */
    lemma ElementPlace(k: Key) returns (p: nat)
      requires Valid() && k in items
      ensures 0 < p < |list.ring| && list.ring[p] == items[k]
      ensures k in Order() && FifoSpec.OnDelete(Order(), k) == KeysOf(Omit(list.ring, p))
    {
      p :| 0 <= p < |list.ring| && list.ring[p] == items[k];
      KeysDistinct(items, list.ring);
      assert Order()[p - 1] == k;
      WithoutAt(Order(), k, p - 1);
      KeysWithout(list.ring, p);
    }

    /** Take an element out of the list and its key out of the map. */
    method Drop(element: Element, ghost p: nat)
      requires Valid() && 0 < p < |list.ring| && element == list.ring[p]
      modifies Repr
      ensures Valid() && Repr == old(Repr)
      ensures Order() == Omit(old(Order()), p - 1)
      ensures items == old(items) - {element.key}
    {
      HoldsLess(items, list.ring, p);
      KeysWithout(list.ring, p);
      list.Remove(element, p);
      items := items - {element.key};
    }

    /** FIFO does nothing on a read. */
    method OnGet(key: Key)
      requires Valid()
      ensures Valid()
    {
    }

    method OnSet(key: Key)
      requires Valid()
      modifies Repr
      ensures Valid() && fresh(Repr - old(Repr))
      ensures Order() == FifoSpec.OnSet(capacity, old(Order()), key)
    {
      KeysAgree(items, list.ring);
      if key !in items {
        if |items| >= capacity {
          var _ := Evict();  // the same Front, Remove and delete, skipped on an empty list
        }
        Insert(key);
      }
    }

    /** The tail of OnSet for an absent key. */
    method Insert(key: Key)
      requires Valid() && key !in items
      modifies Repr
      ensures Valid() && fresh(Repr - old(Repr))
      ensures Order() == old(Order()) + [key]
    {
      var element := new Element(key);
      HoldsMore(items, list.ring, element, |list.ring|);
      KeysLast(list.ring, element);
      list.PushBack(element);
      items := items[key := element];
      Repr := Repr + {element};
    }

    method OnDelete(key: Key)
      requires Valid()
      modifies Repr
      ensures Valid() && Repr == old(Repr)
      ensures Order() == FifoSpec.OnDelete(old(Order()), key)
    {
      KeysAgree(items, list.ring);
      if key in items {
        ghost var p := ElementPlace(key);
        KeysWithout(list.ring, p);
        Drop(items[key], p);
      } else {
        WithoutAbsent(Order(), key);
      }
    }

    method OnClear()
      requires Valid()
      modifies Repr
      ensures Valid() && fresh(Repr - old(Repr))
      ensures Order() == []
    {
      list := new List();
      items := map[];
      Repr := {this} + list.Repr;
    }

    method Evict() returns (victim: Option<Key>)
      requires Valid()
      modifies Repr
      ensures Valid() && Repr == old(Repr)
      ensures Order() == FifoSpec.Evict(old(Order())).0
      ensures victim == FifoSpec.Evict(old(Order())).1
      ensures items.Keys <= old(items.Keys)
    {
      var element := list.Front();
      if element == null {
        return None;
      }
      Drop(element, 1);
      victim := Some(element.key);
    }

    method Apply(op: Op)
      requires Valid()
      modifies Repr
      ensures Valid() && fresh(Repr - old(Repr))
      ensures Order() == FifoSpec.Step(capacity, old(Order()), op)
    {
      match op
      case Got(k) => OnGet(k);
      case Stored(k) => OnSet(k);
      case Deleted(k) => OnDelete(k);
      case Cleared => OnClear();
      case Evicted => var _ := Evict();
    }
  }

  /** Any sequence of calls on a new FIFO leaves the list that FifoSpec.Run computes. */
  method Replay(capacity: int, trace: seq<Op>) returns (p: Fifo)
    ensures fresh(p) && p.Valid() && p.Order() == FifoSpec.Run(capacity, trace)
    ensures |p.items| <= Bound(capacity)
  {
    p := new Fifo(capacity);
    for n := 0 to |trace|
      invariant p.Valid() && fresh(p.Repr) && p.capacity == capacity
      invariant p.Order() == FifoSpec.Run(capacity, trace[..n])
    {
      FifoSpec.RunOne(capacity, trace[..n], trace[n]);
      assert trace[..n + 1] == trace[..n] + [trace[n]];
      p.Apply(trace[n]);
    }
    assert trace[..|trace|] == trace;
    FifoSpec.RunKeeps(capacity, trace);
    KeysAgree(p.items, p.list.ring);
  }
}
