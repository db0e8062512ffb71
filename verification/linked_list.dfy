/** Go's container/list: a ring of elements through a sentinel root. */
module LinkedLists {
  import opened Types

  class Element {
    const key: Key
    var next: Element?
    var prev: Element?

    constructor (key: Key)
      ensures this.key == key
    {
      this.key := key;
      next, prev := null, null;
    }

    constructor Sentinel()
      ensures next == this && prev == this
    {
      next, prev := this, this;
    }
  }

  /** The keys of a ring without its root. */
  ghost function KeysOf(r: seq<Element>): (s: seq<Key>)
    requires r != []
    ensures |s| == |r| - 1
    ensures forall i :: 0 <= i < |s| ==> s[i] == r[i + 1].key
  {
    seq(|r| - 1, i requires 0 <= i < |r| - 1 => r[i + 1].key)
  }

  function Succ(i: nat, n: nat): nat { if i + 1 == n then 0 else i + 1 }

  function Pred(i: nat, n: nat): nat
    requires i < n
  {
    if i == 0 then n - 1 else i - 1
  }

  /** r read cyclically follows the next pointers, and backwards the prev pointers. */
  ghost predicate Linked(r: seq<Element>)
    reads r
  {
    && (forall i {:trigger r[i].next} :: 0 <= i < |r| ==> r[i].next == r[Succ(i, |r|)])
    && (forall i {:trigger r[i].prev} :: 0 <= i < |r| ==> r[i].prev == r[Pred(i, |r|)])
  }

  /** A ring whose root comes first, with the given map from keys to its other elements. */
  ghost predicate MapHolds(items: map<Key, Element>, ring: seq<Element>) {
    && ring != []
    && (forall i :: 1 <= i < |ring| ==> ring[i].key in items && items[ring[i].key] == ring[i])
    && (forall k :: k in items ==> items[k] in ring && items[k] != ring[0] && items[k].key == k)
  }

  lemma LinkedWithout(r: seq<Element>, p: nat)
    requires 0 < p < |r|
    requires forall i {:trigger r[i].next} :: 0 <= i < |r| && i != p ==>
      r[i].next == r[Succ(if i == p - 1 then p else i, |r|)]
    requires forall i {:trigger r[i].prev} :: 0 <= i < |r| && i != p ==>
      r[i].prev == r[Pred(if i == Succ(p, |r|) then p else i, |r|)]
    ensures Linked(Omit(r, p))
  {
    var s, n := Omit(r, p), |r| - 1;
    forall i | 0 <= i < n
      ensures s[i].next == s[Succ(i, n)] && s[i].prev == s[Pred(i, n)]
    {
      var j := if i < p then i else i + 1;
      assert s[i] == r[j];
    }
  }

  lemma LinkedWith(r: seq<Element>, e: Element, p: nat)
    requires p < |r|
    requires e.prev == r[p] && e.next == r[Succ(p, |r|)]
    requires forall i {:trigger r[i].next} :: 0 <= i < |r| ==>
      r[i].next == if i == p then e else r[Succ(i, |r|)]
    requires forall i {:trigger r[i].prev} :: 0 <= i < |r| ==>
      r[i].prev == if i == Succ(p, |r|) then e else r[Pred(i, |r|)]
    ensures Linked(InsertAt(r, e, p + 1))
  {
    var s, n := InsertAt(r, e, p + 1), |r| + 1;
    forall i | 0 <= i < n
      ensures s[i].next == s[Succ(i, n)] && s[i].prev == s[Pred(i, n)]
    {
      if i != p + 1 {
        assert s[i] == r[if i <= p then i else i - 1];
      }
    }
  }

  lemma KeysWithout(r: seq<Element>, p: nat)
    requires 0 < p < |r|
    ensures KeysOf(Omit(r, p)) == Omit(KeysOf(r), p - 1)
  {}

  lemma KeysWith(r: seq<Element>, e: Element, p: nat)
    requires 0 < p <= |r|
    ensures KeysOf(InsertAt(r, e, p)) == InsertAt(KeysOf(r), e.key, p - 1)
  {}

  lemma KeysFirst(r: seq<Element>, e: Element)
    requires r != []
    ensures KeysOf(InsertAt(r, e, 1)) == [e.key] + KeysOf(r)
  {
    KeysWith(r, e, 1);
  }

  lemma KeysLast(r: seq<Element>, e: Element)
    requires r != []
    ensures KeysOf(InsertAt(r, e, |r|)) == KeysOf(r) + [e.key]
  {
    KeysWith(r, e, |r|);
  }

  lemma KeysMoved(r: seq<Element>, p: nat)
    requires 0 < p < |r|
    ensures KeysOf(InsertAt(Omit(r, p), r[p], 1)) == [r[p].key] + KeysOf(Omit(r, p))
  {
    KeysFirst(Omit(r, p), r[p]);
  }

  // ---------------------------------------------------------------- a map over the list

  lemma HoldsLess(items: map<Key, Element>, ring: seq<Element>, p: nat)
    requires MapHolds(items, ring) && Distinct(ring) && 0 < p < |ring|
    ensures MapHolds(items - {ring[p].key}, Omit(ring, p))
  {
    DistinctOmit(ring, p);
    var s := Omit(ring, p);
    forall i | 1 <= i < |s|
      ensures s[i].key in items - {ring[p].key} && items[s[i].key] == s[i]
    {
      assert s[i] == ring[if i < p then i else i + 1];
    }
  }

  lemma HoldsMore(items: map<Key, Element>, ring: seq<Element>, e: Element, p: nat)
    requires MapHolds(items, ring) && Distinct(ring) && 0 < p <= |ring| && e !in ring && e.key !in items
    ensures MapHolds(items[e.key := e], InsertAt(ring, e, p))
  {}

  lemma HoldsMoved(items: map<Key, Element>, ring: seq<Element>, p: nat)
    requires MapHolds(items, ring) && Distinct(ring) && 0 < p < |ring|
    ensures MapHolds(items, InsertAt(Omit(ring, p), ring[p], 1))
  {
    var e, s := ring[p], Omit(ring, p);
    HoldsLess(items, ring, p);
    DistinctOmit(ring, p);
    HoldsMore(items - {e.key}, s, e, 1);
    assert (items - {e.key})[e.key := e] == items;
  }

  lemma KeysDistinct(items: map<Key, Element>, ring: seq<Element>)
    requires MapHolds(items, ring) && Distinct(ring)
    ensures Distinct(KeysOf(ring))
  {
  }

  lemma KeysAgree(items: map<Key, Element>, ring: seq<Element>)
    requires MapHolds(items, ring) && Distinct(ring)
    ensures forall k :: k in items <==> k in KeysOf(ring)
    ensures |items| == |KeysOf(ring)|
  {
    forall k
      ensures k in items <==> k in KeysOf(ring)
    {
      if k in items {
        var p :| 0 <= p < |ring| && ring[p] == items[k];
        assert KeysOf(ring)[p - 1] == k;
      }
    }
    KeysDistinct(items, ring);
    DistinctElems(KeysOf(ring));
    assert items.Keys == Elems(KeysOf(ring));
  }

  /** The four assignments that link e behind the element at place p of a ring. */
  method LinkBehind(ghost r: seq<Element>, e: Element, at: Element, ghost p: nat)
    requires Linked(r) && Distinct(r) && e !in r && p < |r| && at == r[p]
    modifies r, e
    ensures Linked(InsertAt(r, e, p + 1))
  {
    ghost var q := Succ(p, |r|);
    assert at.next == r[q];
    e.prev := at;
    e.next := at.next;
    e.prev.next := e;
    e.next.prev := e;
    assert forall i {:trigger r[i].next} :: 0 <= i < |r| && i != p ==> r[i].next == old(r[i].next);
    assert forall i {:trigger r[i].prev} :: 0 <= i < |r| && i != q ==> r[i].prev == old(r[i].prev);
    LinkedWith(r, e, p);
  }

  /** The two assignments that link the neighbours of the element at place p to each other. */
  method LinkAcross(ghost r: seq<Element>, e: Element, ghost p: nat)
    requires Linked(r) && Distinct(r) && 0 < p < |r| && e == r[p]
    modifies r
    ensures Linked(Omit(r, p))
  {
    e.prev.next := e.next;
    e.next.prev := e.prev;
    LinkedWithout(r, p);
  }

  class List {
    const root: Element
    var len: nat
    /** The root and then the elements from front to back. */
    ghost var ring: seq<Element>
    ghost var Repr: set<object>

    ghost predicate IsRing()
      reads this, Repr
    {
      && this in Repr && (forall e :: e in ring ==> e in Repr)
      && ring != [] && ring[0] == root
      && Distinct(ring)
      && Linked(ring)
    }

    ghost predicate Valid()
      reads this, Repr
    {
      IsRing() && len == |ring| - 1
    }

    /** The keys from front to back. */
    ghost function Keys(): (r: seq<Key>)
      requires ring != []
      reads this
    {
      KeysOf(ring)
    }

    constructor ()
      ensures Valid() && ring == [root] && fresh(Repr)
    {
      var r := new Element.Sentinel();
      root := r;
      len := 0;
      ring := [r];
      Repr := {this, r};
    }

    method Front() returns (e: Element?)
      requires Valid()
      ensures e == if |ring| == 1 then null else ring[1]
    {
      if len == 0 {
        return null;
      }
      e := root.next;
    }

    method Back() returns (e: Element?)
      requires Valid()
      ensures e == if |ring| == 1 then null else ring[|ring| - 1]
    {
      if len == 0 {
        return null;
      }
      e := root.prev;
    }

    method Link(e: Element, at: Element, ghost p: nat)
      requires IsRing() && e !in ring && p < |ring| && at == ring[p]
      modifies Repr, e
      ensures IsRing() && Repr == old(Repr) + {e} && len == old(len)
      ensures ring == InsertAt(old(ring), e, p + 1)
    {
      LinkBehind(ring, e, at, p);
      DistinctInsert(ring, e, p + 1);
      ring := InsertAt(ring, e, p + 1);
      Repr := Repr + {e};
    }

    method Unlink(e: Element, ghost p: nat)
      requires IsRing() && 0 < p < |ring| && e == ring[p]
      modifies Repr
      ensures IsRing() && Repr == old(Repr) && len == old(len) && e !in ring
      ensures ring == Omit(old(ring), p)
    {
      LinkAcross(ring, e, p);
      DistinctOmit(ring, p);
      ring := Omit(ring, p);
    }

    method Insert(e: Element, at: Element, ghost p: nat)
      requires Valid() && e !in ring && p < |ring| && at == ring[p]
      modifies Repr, e
      ensures Valid() && Repr == old(Repr) + {e}
      ensures ring == InsertAt(old(ring), e, p + 1)
    {
      Link(e, at, p);
      len := len + 1;
    }

    method PushFront(e: Element)
      requires Valid() && e !in ring
      modifies Repr, e
      ensures Valid() && Repr == old(Repr) + {e}
      ensures ring == InsertAt(old(ring), e, 1)
    {
      Insert(e, root, 0);
    }

    method PushBack(e: Element)
      requires Valid() && e !in ring
      modifies Repr, e
      ensures Valid() && Repr == old(Repr) + {e}
      ensures ring == InsertAt(old(ring), e, |old(ring)|)
    {
      Insert(e, root.prev, |ring| - 1);
    }

    method Remove(e: Element, ghost p: nat)
      requires Valid() && 0 < p < |ring| && e == ring[p]
      modifies Repr
      ensures Valid() && Repr == old(Repr)
      ensures ring == Omit(old(ring), p)
    {
      Unlink(e, p);
      e.next := null;
      e.prev := null;
      len := len - 1;
    }

    method MoveToFront(e: Element, ghost p: nat)
      requires Valid() && 0 < p < |ring| && e == ring[p]
      modifies Repr
      ensures Valid() && Repr == old(Repr)
      ensures ring == InsertAt(Omit(old(ring), p), e, 1)
    {
      if root.next == e {
        assert p == 1 && ring == InsertAt(Omit(ring, 1), e, 1);
        return;
      }
      Unlink(e, p);
      Link(e, root, 0);
    }
  }
}
