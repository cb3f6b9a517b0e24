/**
  Reference definitions for the merge sort: what "sorted" means, the two-way
  merge the sort performs (with its tie rule), and the fact that a sorted
  permutation of a sequence is unique.
 */
module SortSpec {

  predicate Sorted(s: seq<int>) {
    forall i, j :: 0 <= i < j < |s| ==> s[i] <= s[j]
  }

  /** Every element of `s` is at least `x`. */
  predicate AllAtLeast(x: int, s: seq<int>) {
    forall k :: 0 <= k < |s| ==> x <= s[k]
  }

  /**
    The two-way merge of two runs. The heads are compared with a strict `<`:
    the left head is taken only when it is strictly smaller, so on equal keys
    the element of the RIGHT run goes first.
   */
  function MergeRuns(xs: seq<int>, ys: seq<int>): seq<int>
    decreases |xs| + |ys|
  {
    if xs == [] then ys
    else if ys == [] then xs
    else if xs[0] < ys[0] then [xs[0]] + MergeRuns(xs[1..], ys)
    else [ys[0]] + MergeRuns(xs, ys[1..])
  }

  /** Merging neither loses nor invents elements. */
  lemma {:induction false} MergeRunsPermutes(xs: seq<int>, ys: seq<int>)
    ensures |MergeRuns(xs, ys)| == |xs| + |ys|
    ensures multiset(MergeRuns(xs, ys)) == multiset(xs) + multiset(ys)
    decreases |xs| + |ys|
  {
    if xs == [] || ys == [] {
    } else if xs[0] < ys[0] {
      MergeRunsPermutes(xs[1..], ys);
      assert xs == [xs[0]] + xs[1..];
    } else {
      MergeRunsPermutes(xs, ys[1..]);
      assert ys == [ys[0]] + ys[1..];
    }
  }

  /** A lower bound of both runs is a lower bound of their merge. */
  lemma MergeRunsBound(x: int, xs: seq<int>, ys: seq<int>)
    requires AllAtLeast(x, xs) && AllAtLeast(x, ys)
    ensures AllAtLeast(x, MergeRuns(xs, ys))
  {
    var m := MergeRuns(xs, ys);
    MergeRunsPermutes(xs, ys);
    forall k | 0 <= k < |m|
      ensures x <= m[k]
    {
      assert m[k] in multiset(m);
      if m[k] in multiset(xs) {
        var p :| 0 <= p < |xs| && xs[p] == m[k];
      } else {
        var p :| 0 <= p < |ys| && ys[p] == m[k];
      }
    }
  }

  /** Merging two sorted runs gives a sorted run. */
  lemma {:induction false} MergeRunsSorted(xs: seq<int>, ys: seq<int>)
    requires Sorted(xs) && Sorted(ys)
    ensures Sorted(MergeRuns(xs, ys))
    decreases |xs| + |ys|
  {
    if xs == [] || ys == [] {
    } else if xs[0] < ys[0] {
      MergeRunsSorted(xs[1..], ys);
      MergeRunsBound(xs[0], xs[1..], ys);
    } else {
      MergeRunsSorted(xs, ys[1..]);
      MergeRunsBound(ys[0], xs, ys[1..]);
    }
  }

  /** The least element of a non-empty sorted sequence is its head. */
  lemma SortedHeadIsMin(s: seq<int>, x: int)
    requires Sorted(s) && x in multiset(s)
    ensures s[0] <= x
  {
    var p :| 0 <= p < |s| && s[p] == x;
  }

  /** Dropping the head keeps a sequence sorted. */
  lemma SortedTail(s: seq<int>)
    requires Sorted(s) && s != []
    ensures Sorted(s[1..])
  {
    forall i, j | 0 <= i < j < |s| - 1
      ensures s[1..][i] <= s[1..][j]
    {
      assert s[1..][i] == s[i + 1] && s[1..][j] == s[j + 1];
    }
  }

  /** Removing equal heads from equal multisets leaves equal multisets. */
  lemma SameTails(xs: seq<int>, ys: seq<int>)
    requires xs != [] && ys != [] && xs[0] == ys[0]
    requires multiset(xs) == multiset(ys)
    ensures multiset(xs[1..]) == multiset(ys[1..])
  {
    assert xs == [xs[0]] + xs[1..];
    assert ys == [ys[0]] + ys[1..];
    assert multiset(xs[1..]) == multiset(xs) - multiset{xs[0]};
    assert multiset(ys[1..]) == multiset(ys) - multiset{ys[0]};
  }

  /**
    Two sorted sequences holding the same multiset of elements are equal:
    every sort of a given input produces the same output.
   */
  lemma {:induction false} SortedPermutationUnique(xs: seq<int>, ys: seq<int>)
    requires Sorted(xs) && Sorted(ys)
    requires multiset(xs) == multiset(ys)
    ensures xs == ys
    decreases |xs|
  {
    assert |ys| == |xs| by {
      assert |multiset(ys)| == |multiset(xs)|;
    }
    if xs != [] {
      assert xs[0] in multiset(ys) && ys[0] in multiset(xs);
      SortedHeadIsMin(ys, xs[0]);
      SortedHeadIsMin(xs, ys[0]);
      SameTails(xs, ys);
      SortedTail(xs);
      SortedTail(ys);
      SortedPermutationUnique(xs[1..], ys[1..]);
      assert xs == [xs[0]] + xs[1..] && ys == [ys[0]] + ys[1..];
    }
  }
}
