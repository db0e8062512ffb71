/** The smaller of two LRU policies stays inside the larger one. */
module LruInclusion {
  import opened Types
  import opened PolicyOps
  import opened Inclusion
  import opened LruSpec

  lemma MoveToFront(c: int, c': int, small: seq<Key>, large: seq<Key>, k: Key)
    requires c <= c' && Included(c, c', small, large) && k in large
    ensures Subsequence(if k in small then [k] + Without(small, k) else small, [k] + Without(large, k))
    ensures Subsequence([k] + Without(small, k), [k] + Without(large, k))
  {
    SubsequenceWithout(small, large, k);
    SubsequencePrepend(k, Without(small, k), Without(large, k));
    if k !in small {
      WithoutAbsent(small, k);
      SubsequenceExtend(k, small, Without(large, k));
    }
  }

  lemma IncludedSet(c: int, c': int, small: seq<Key>, large: seq<Key>, k: Key)
    requires c <= c' && Included(c, c', small, large)
    ensures Subsequence(OnSet(c, small, k), OnSet(c', large, k))
  {
    if k in large {
      MoveToFront(c, c', small, large, k);
      if k !in small {
        WithoutAbsent(small, k);
        if |small| >= c && small != [] {
          SubsequenceInitLeft(small, Without(large, k)) by {
            SubsequenceWithout(small, large, k);
          }
          SubsequencePrepend(k, small[..|small| - 1], Without(large, k));
        }
      }
    } else {
      if k in small {
        SubsequenceMembers(small, large, k);
      }
      var small' := if |small| >= c && small != [] then small[..|small| - 1] else small;
      var large' := if |large| >= c' && large != [] then large[..|large| - 1] else large;
      if small' != small {
        SubsequenceInit(small, large);
        SubsequenceInitLeft(small, large);
      }
      SubsequencePrepend(k, small', large');
    }
  }

  lemma IncludedStep(c: int, c': int, small: seq<Key>, large: seq<Key>, op: Op)
    requires c <= c' && Included(c, c', small, large)
    ensures Included(c, c', Step(c, small, op), Step(c', large, op))
  {
    StepKeeps(c, small, op);
    StepKeeps(c', large, op);
    match op
    case Got(k) =>
      WithoutElems(small, k);
      WithoutElems(large, k);
      if k in small {
        SubsequenceMembers(small, large, k);
      }
      if k in large {
        MoveToFront(c, c', small, large, k);
      }
    case Stored(k) =>
      WithoutElems(small, k);
      WithoutElems(large, k);
      if k in small {
        SubsequenceMembers(small, large, k);
      }
      IncludedSet(c, c', small, large, k);
    case Deleted(k) =>
      WithoutElems(small, k);
      WithoutElems(large, k);
      SubsequenceWithout(small, large, k);
      if k in small {
        SubsequenceMembers(small, large, k);
      }
    case Cleared =>
    case Evicted =>
      if small != [] {
        SubsequenceInit(small, large);
      }
  }

  lemma {:induction false} IncludedRun(c: int, c': int, trace: seq<Op>)
    requires c <= c'
    ensures Included(c, c', Run(c, trace), Run(c', trace))
  {
    if trace == [] {
    } else {
      IncludedRun(c, c', trace[..|trace| - 1]);
      IncludedStep(c, c', Run(c, trace[..|trace| - 1]), Run(c', trace[..|trace| - 1]), trace[|trace| - 1]);
    }
  }

  /** The inclusion property: a larger LRU never lacks a key that a smaller one tracks, on any trace. */
  lemma LargerLruTracksMore(c: int, c': int, trace: seq<Op>, k: Key)
    requires c <= c' && k in Run(c, trace)
    ensures k in Run(c', trace)
    ensures Subsequence(Run(c, trace), Run(c', trace))
  {
    IncludedRun(c, c', trace);
    SubsequenceMembers(Run(c, trace), Run(c', trace), k);
  }
}
