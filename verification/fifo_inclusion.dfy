/** When the smaller of two FIFO policies stays inside the larger one. */
module FifoInclusion {
  import opened Types
  import opened PolicyOps
  import opened Inclusion
  import opened FifoSpec

  // ---------------------------------------------------------------- appending one key

  /** What lies behind k in s. */
  function Behind(s: seq<Key>, k: Key): seq<Key> {
    if s == [] then []
    else if s[0] == k then s[1..]
    else Behind(s[1..], k)
  }

  lemma {:induction false} BehindMembers(s: seq<Key>, k: Key, x: Key)
    requires x in Behind(s, k)
    ensures s != [] && x in s[1..]
  {
    if s[0] != k {
      BehindMembers(s[1..], k, x);
    }
  }

  lemma {:induction false} SubsequenceOne(b: seq<Key>, k: Key)
    requires k in b
    ensures Subsequence([k], b)
  {
    if b[0] != k {
      SubsequenceOne(b[1..], k);
    }
  }

  lemma {:induction false} SubsequenceAppend(a: seq<Key>, b: seq<Key>, k: Key)
    requires Subsequence(a, b)
    ensures Subsequence(a + [k], b + [k])
  {
    if a == [] {
      SubsequenceOne(b + [k], k);
      assert a + [k] == [k];
    } else {
      assert (a + [k])[1..] == a[1..] + [k] && (b + [k])[1..] == b[1..] + [k];
      if a[0] == b[0] && Subsequence(a[1..], b[1..]) {
        SubsequenceAppend(a[1..], b[1..], k);
      } else {
        SubsequenceAppend(a, b[1..], k);
      }
    }
  }

  /** A key of b put behind a keeps a inside b if and only if nothing of a lies behind it in b. */
  lemma {:induction false} AppendIff(a: seq<Key>, b: seq<Key>, k: Key)
    requires Distinct(b) && k in b && k !in a && Subsequence(a, b)
    ensures Subsequence(a + [k], b) <==> forall x :: x in a ==> x !in Behind(b, k)
  {
    var t := b[1..];
    if a == [] {
      SubsequenceOne(b, k);
      assert a + [k] == [k];
    } else if b[0] == k {
      AppendAtHead(a, b, k);
    } else if a[0] == b[0] {
      HeadMatches(a, b);
      AppendIff(a[1..], t, k);
      AppendMatches(a, b, k);
      assert forall x :: x in a <==> x == a[0] || x in a[1..];
      if a[0] in Behind(t, k) {
        BehindMembers(t, k, a[0]);
      }
    } else {
      AppendIff(a, t, k);
    }
  }

  lemma AppendAtHead(a: seq<Key>, b: seq<Key>, k: Key)
    requires Distinct(b) && b != [] && b[0] == k && a != [] && k !in a && Subsequence(a, b)
    ensures !Subsequence(a + [k], b) && a[0] in Behind(b, k)
  {
    SubsequenceMembers(a, b[1..], a[0]);
    if Subsequence(a + [k], b) {
      SubsequenceMembers(a + [k], b[1..], k);
    }
  }

  /** Equal heads of distinct keys can only be matched with each other. */
  lemma HeadMatches(a: seq<Key>, b: seq<Key>)
    requires Distinct(b) && a != [] && b != [] && a[0] == b[0]
    ensures Subsequence(a, b) <==> Subsequence(a[1..], b[1..])
  {
    if Subsequence(a, b[1..]) {
      SubsequenceMembers(a, b[1..], a[0]);
    }
  }

  lemma AppendMatches(a: seq<Key>, b: seq<Key>, k: Key)
    requires Distinct(b) && a != [] && b != [] && a[0] == b[0]
    ensures Subsequence(a + [k], b) <==> Subsequence(a[1..] + [k], b[1..])
  {
    HeadMatches(a + [k], b);
    assert (a + [k])[1..] == a[1..] + [k];
  }

  lemma SubsequenceHeads(a: seq<Key>, b: seq<Key>)
    requires Subsequence(a, b) && a != []
    ensures b != [] && Subsequence(a[1..], b[1..])
  {
    if !(a[0] == b[0] && Subsequence(a[1..], b[1..])) {
      SubsequenceTail(a, b[1..]);
    }
  }

  // ---------------------------------------------------------------- one call

  /** The keys that stay when OnSet makes room for a new one. */
  function Kept(capacity: int, s: seq<Key>): seq<Key> {
    if |s| >= capacity && s != [] then s[1..] else s
  }

  /**
   * What breaks the order: a key that only the larger policy tracks is set, and the smaller one, which takes it for
   * the youngest, keeps a key that is younger in the larger one.
   */
  ghost predicate Overtakes(c: int, small: seq<Key>, large: seq<Key>, op: Op) {
    && op.Stored? && op.key in large && op.key !in small
    && exists x :: x in Kept(c, small) && x in Behind(large, op.key)
  }

  lemma SetIff(c: int, c': int, small: seq<Key>, large: seq<Key>, k: Key)
    requires c <= c' && Included(c, c', small, large)
    ensures Subsequence(OnSet(c, small, k), OnSet(c', large, k)) <==> !Overtakes(c, small, large, Stored(k))
  {
    if k in small {
      SubsequenceMembers(small, large, k);
    } else {
      if Kept(c, small) != small {
        SubsequenceHeads(small, large);
        SubsequenceTail(small, large);
      }
      if k in large {
        AppendIff(Kept(c, small), large, k);
      } else {
        SubsequenceAppend(Kept(c, small), Kept(c', large), k);
      }
    }
  }

  lemma SizeAfter(c: int, c': int, small: seq<Key>, large: seq<Key>, op: Op)
    requires c <= c' && Included(c, c', small, large)
    ensures |Step(c', large, op)| - |Step(c, small, op)| <= Bound(c') - Bound(c)
  {
    match op
    case Stored(k) =>
      if k in small {
        SubsequenceMembers(small, large, k);
      }
    case Deleted(k) =>
      WithoutElems(small, k);
      WithoutElems(large, k);
      if k in small {
        SubsequenceMembers(small, large, k);
      }
    case _ =>
  }

  /** From lists one of which lies inside the other, a call leaves them so if and only if it does not overtake. */
  lemma IncludedStepIff(c: int, c': int, small: seq<Key>, large: seq<Key>, op: Op)
    requires c <= c' && Included(c, c', small, large)
    ensures var small', large' := Step(c, small, op), Step(c', large, op);
      && (Subsequence(small', large') <==> !Overtakes(c, small, large, op))
      && (Subsequence(small', large') ==> Included(c, c', small', large'))
  {
    StepKeeps(c, small, op);
    StepKeeps(c', large, op);
    SizeAfter(c, c', small, large, op);
    match op
    case Stored(k) => SetIff(c, c', small, large, k);
    case Deleted(k) => SubsequenceWithout(small, large, k);
    case Evicted =>
      if small != [] {
        SubsequenceHeads(small, large);
      }
    case _ =>
  }

  // ---------------------------------------------------------------- every run

  ghost predicate NeverOvertakes(c: int, c': int, trace: seq<Op>) {
    trace != [] ==>
      var before := trace[..|trace| - 1];
      && NeverOvertakes(c, c', before)
      && !Overtakes(c, Run(c, before), Run(c', before), trace[|trace| - 1])
  }

  /** The smaller list lies inside the larger one after every call of the trace. */
  ghost predicate IncludedThroughout(c: int, c': int, trace: seq<Op>) {
    && Subsequence(Run(c, trace), Run(c', trace))
    && (trace != [] ==> IncludedThroughout(c, c', trace[..|trace| - 1]))
  }

  /** FIFO keeps inclusion all along a trace if and only if no call of the trace overtakes. */
  lemma {:induction false} InclusionIff(c: int, c': int, trace: seq<Op>)
    requires c <= c'
    ensures IncludedThroughout(c, c', trace) <==> NeverOvertakes(c, c', trace)
    ensures NeverOvertakes(c, c', trace) ==> Included(c, c', Run(c, trace), Run(c', trace))
  {
    if trace == [] {
    } else {
      var before := trace[..|trace| - 1];
      InclusionIff(c, c', before);
      if NeverOvertakes(c, c', before) {
        IncludedStepIff(c, c', Run(c, before), Run(c', before), trace[|trace| - 1]);
      }
    }
  }

  /** Until a call overtakes, a larger FIFO tracks every key a smaller one tracks. */
  lemma LargerFifoTracksMore(c: int, c': int, trace: seq<Op>, k: Key)
    requires c <= c' && NeverOvertakes(c, c', trace) && k in Run(c, trace)
    ensures k in Run(c', trace)
  {
    InclusionIff(c, c', trace);
    SubsequenceMembers(Run(c, trace), Run(c', trace), k);
  }

  /**
   * After it, the larger policy may lack a key: here the fourth call overtakes, and after the fifth the policy of
   * capacity 2 tracks a key that the policy of capacity 3 has dropped.
   */
  lemma LargerFifoMayTrackLess(a: Key, b: Key, c: Key, d: Key)
    requires Distinct([a, b, c, d])
    ensures var trace := [Stored(a), Stored(b), Stored(c), Stored(a), Stored(d)];
      && a in Run(2, trace) && a !in Run(3, trace)
      && !NeverOvertakes(2, 3, trace)
  {
    var s := [a, b, c, d];
    assert s[0] != s[1] && s[0] != s[2] && s[0] != s[3] && s[1] != s[2] && s[1] != s[3] && s[2] != s[3];
    var t1 := [] + [Stored(a)];
    var t2 := t1 + [Stored(b)];
    var t3 := t2 + [Stored(c)];
    var t4 := t3 + [Stored(a)];
    forall capacity | 2 <= capacity <= 3
      ensures Run(capacity, t4) == if capacity == 2 then [c, a] else [a, b, c]
    {
      RunOne(capacity, [], Stored(a));
      RunOne(capacity, t1, Stored(b));
      RunOne(capacity, t2, Stored(c));
      RunOne(capacity, t3, Stored(a));
      assert Run(capacity, t2) == [a, b];
    }
    RunOne(2, t4, Stored(d));
    RunOne(3, t4, Stored(d));
    assert t4 + [Stored(d)] == [Stored(a), Stored(b), Stored(c), Stored(a), Stored(d)];
    if NeverOvertakes(2, 3, t4 + [Stored(d)]) {
      LargerFifoTracksMore(2, 3, t4 + [Stored(d)], a);
    }
  }
}
