/** Names shared by every component: the key type, optional results, and sequences of distinct keys. */
module Types {

  /** The cache is generic in a comparable key; nothing below depends on what a key is. */
  type Key(==, 0, !new)

  datatype Option<+T> = None | Some(value: T)

  /** No element occurs twice. */
  ghost predicate Distinct<T>(s: seq<T>) {
    forall i, j :: 0 <= i < j < |s| ==> s[i] != s[j]
  }

  ghost function Elems<T>(s: seq<T>): set<T> {
    set x | x in s
  }

  /** s without its first occurrence of k. */
  function Without(s: seq<Key>, k: Key): seq<Key> {
    if s == [] then []
    else if s[0] == k then s[1..]
    else [s[0]] + Without(s[1..], k)
  }

  lemma {:induction false} WithoutAt(s: seq<Key>, k: Key, i: nat)
    requires Distinct(s) && i < |s| && s[i] == k
    ensures Without(s, k) == Omit(s, i)
  {
    if i == 0 {
    } else {
      WithoutAt(s[1..], k, i - 1);
      assert [s[0]] + (s[1..][..i - 1] + s[1..][i..]) == s[..i] + s[i + 1..];
    }
  }

  lemma {:induction false} WithoutAbsent(s: seq<Key>, k: Key)
    requires k !in s
    ensures Without(s, k) == s
  {
    if s == [] {
    } else {
      WithoutAbsent(s[1..], k);
    }
  }

  lemma {:induction false} WithoutElems(s: seq<Key>, k: Key)
    requires Distinct(s)
    ensures Distinct(Without(s, k))
    ensures forall x :: x in Without(s, k) <==> x in s && x != k
    ensures |Without(s, k)| == if k in s then |s| - 1 else |s|
  {
    if s == [] {
    } else {
      var t, w := s[1..], Without(s[1..], k);
      WithoutElems(t, k);
      assert s == [s[0]] + t;
      assert forall i :: 0 <= i < |w| ==> w[i] in w;
      assert s[0] !in t;
    }
  }

  lemma {:induction false} DistinctElems<T>(s: seq<T>)
    requires Distinct(s)
    ensures |Elems(s)| == |s|
  {
    if s == [] {
    } else {
      DistinctElems(s[1..]);
      assert Elems(s) == Elems(s[1..]) + {s[0]};
    }
  }

  lemma SwapElems<T>(s: seq<T>, i: nat, j: nat)
    requires i < |s| && j < |s|
    ensures Elems(s[i := s[j]][j := s[i]]) == Elems(s)
  {
    var r := s[i := s[j]][j := s[i]];
    forall x
      ensures x in r <==> x in s
    {
      if x in s {
        var m :| 0 <= m < |s| && s[m] == x;
        assert r[if m == i then j else if m == j then i else m] == x;
      }
    }
  }

  /** s without the element at place p. */
  ghost function Omit<T>(s: seq<T>, p: nat): seq<T>
    requires p < |s|
  {
    s[..p] + s[p + 1..]
  }

  /** s with x put in at place p. */
  ghost function InsertAt<T>(s: seq<T>, x: T, p: nat): seq<T>
    requires p <= |s|
  {
    s[..p] + [x] + s[p..]
  }

  lemma DistinctOmit<T>(s: seq<T>, p: nat)
    requires p < |s| && Distinct(s)
    ensures Distinct(Omit(s, p))
    ensures forall x :: x in Omit(s, p) <==> x in s && x != s[p]
  {}

  lemma DistinctInsert<T>(s: seq<T>, x: T, p: nat)
    requires p <= |s| && Distinct(s) && x !in s
    ensures Distinct(InsertAt(s, x, p))
    ensures forall y :: y in InsertAt(s, x, p) <==> y in s || y == x
  {}

  lemma {:induction false} SubsetSize<T>(a: set<T>, b: set<T>)
    requires a <= b
    ensures |a| <= |b|
    decreases a
  {
    if a == {} {
    } else {
      var x :| x in a;
      SubsetSize(a - {x}, b - {x});
    }
  }
}
