/** Two policies of different capacity fed the same calls: when the smaller list lies inside the larger. */
module Inclusion {
  import opened Types
  import opened PolicyOps

  /** Every element of a can be matched to one of b, in the same order. */
  ghost predicate Subsequence<T(!new)>(a: seq<T>, b: seq<T>) {
    if a == [] then true
    else if b == [] then false
    else (a[0] == b[0] && Subsequence(a[1..], b[1..])) || Subsequence(a, b[1..])
  }

  lemma {:induction false} SubsequenceMembers<T(!new)>(a: seq<T>, b: seq<T>, x: T)
    requires Subsequence(a, b) && x in a
    ensures x in b
  {
    if a[0] == b[0] && Subsequence(a[1..], b[1..]) {
      if x != a[0] {
        SubsequenceMembers(a[1..], b[1..], x);
      }
    } else {
      SubsequenceMembers(a, b[1..], x);
    }
  }

  lemma {:induction false} SubsequenceTail<T(!new)>(a: seq<T>, b: seq<T>)
    requires Subsequence(a, b) && a != []
    ensures Subsequence(a[1..], b)
  {
    if !(a[0] == b[0] && Subsequence(a[1..], b[1..])) {
      SubsequenceTail(a, b[1..]);
    }
  }

  lemma {:induction false} SubsequenceWithout(a: seq<Key>, b: seq<Key>, k: Key)
    requires Subsequence(a, b) && Distinct(a) && Distinct(b)
    ensures Subsequence(Without(a, k), Without(b, k))
  {
    if a == [] {
    } else {
      if b[0] == k {
        if a[0] != k || !Subsequence(a[1..], b[1..]) {
          KeyOutside(a, b[1..], k);
        }
      } else if a[0] == b[0] && Subsequence(a[1..], b[1..]) {
        SubsequenceWithout(a[1..], b[1..], k);
        assert ([a[0]] + Without(a[1..], k))[1..] == Without(a[1..], k);
        assert ([b[0]] + Without(b[1..], k))[1..] == Without(b[1..], k);
      } else {
        SubsequenceWithout(a, b[1..], k);
        assert ([b[0]] + Without(b[1..], k))[1..] == Without(b[1..], k);
      }
    }
  }

  lemma KeyOutside(a: seq<Key>, b: seq<Key>, k: Key)
    requires Distinct([k] + b) && (Subsequence(a, b) || (a != [] && a[0] != k && Subsequence(a, [k] + b)))
    ensures Subsequence(Without(a, k), b)
  {
    assert ([k] + b)[1..] == b;
    assert Subsequence(a, b);
    forall i | 0 <= i < |b|
      ensures b[i] != k
    {
      assert ([k] + b)[0] != ([k] + b)[i + 1];
    }
    if k in a {
      SubsequenceMembers(a, b, k);
    }
    WithoutAbsent(a, k);
  }

  lemma {:induction false} SubsequenceInit<T(!new)>(a: seq<T>, b: seq<T>)
    requires Subsequence(a, b) && a != []
    ensures b != [] && Subsequence(a[..|a| - 1], b[..|b| - 1])
  {
    var a', b' := a[..|a| - 1], b[..|b| - 1];
    if a[0] == b[0] && Subsequence(a[1..], b[1..]) {
      if |a| > 1 {
        SubsequenceInit(a[1..], b[1..]);
        assert a'[1..] == a[1..][..|a| - 2] && b'[1..] == b[1..][..|b| - 2];
      }
    } else {
      SubsequenceInit(a, b[1..]);
      assert b'[1..] == b[1..][..|b| - 2];
    }
  }

  lemma {:induction false} SubsequenceInitLeft<T(!new)>(a: seq<T>, b: seq<T>)
    requires Subsequence(a, b) && a != []
    ensures Subsequence(a[..|a| - 1], b)
  {
    var a' := a[..|a| - 1];
    if a[0] == b[0] && Subsequence(a[1..], b[1..]) {
      if |a| > 1 {
        SubsequenceInitLeft(a[1..], b[1..]);
        assert a'[1..] == a[1..][..|a| - 2];
      }
    } else {
      SubsequenceInitLeft(a, b[1..]);
    }
  }

  lemma SubsequencePrepend<T(!new)>(k: T, a: seq<T>, b: seq<T>)
    requires Subsequence(a, b)
    ensures Subsequence([k] + a, [k] + b)
  {}

  lemma SubsequenceExtend<T(!new)>(k: T, a: seq<T>, b: seq<T>)
    requires Subsequence(a, b)
    ensures Subsequence(a, [k] + b)
  {}

  /** What the two lists keep: containment in order, and a gap no wider than the capacities allow. */
  ghost predicate Included(c: int, c': int, small: seq<Key>, large: seq<Key>) {
    && Distinct(small) && Distinct(large)
    && |small| <= Bound(c) && |large| <= Bound(c')
    && Subsequence(small, large)
    && |large| - |small| <= Bound(c') - Bound(c)
  }
}
