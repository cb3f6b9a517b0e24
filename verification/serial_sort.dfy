/**
  The serial sorter of the distributed merge sort: the merge primitive,
  insertion sort for short ranges and the recursive serial merge sort.

  The C++ functions work in place on iterators into `std::vector<int>`
  buffers. Here a buffer is a `seq<int>` value: each method takes the buffers
  it is handed and returns their new contents, so "what it writes" and "what
  it leaves alone" are stated on the returned values.
 */
module SerialSort {
  import opened SortSpec

  /** Ranges of at most this many elements are sorted by insertion sort. */
  const SMALL: int := 32

  /**
    The merge of `a[i1..half)` and `a[i2..size)` written over indices, the
    way the merge loops walk the buffer.
   */
  function MergeFrom(a: seq<int>, i1: nat, half: nat, i2: nat, size: nat): seq<int>
    requires i1 <= half <= i2 <= size <= |a|
    decreases (half - i1) + (size - i2)
  {
    if i1 == half && i2 == size then []
    else if i2 == size || (i1 < half && a[i1] < a[i2]) then [a[i1]] + MergeFrom(a, i1 + 1, half, i2, size)
    else [a[i2]] + MergeFrom(a, i1, half, i2 + 1, size)
  }

  /** When the left head is taken, the merge starts with it. */
  lemma MergeRunsTakeLeft(xs: seq<int>, ys: seq<int>)
    requires xs != [] && (ys == [] || xs[0] < ys[0])
    ensures MergeRuns(xs, ys) == [xs[0]] + MergeRuns(xs[1..], ys)
  {
    if ys == [] {
      assert xs == [xs[0]] + xs[1..];
    }
  }

  /** When the right head is taken, the merge starts with it. */
  lemma MergeRunsTakeRight(xs: seq<int>, ys: seq<int>)
    requires ys != [] && (xs == [] || !(xs[0] < ys[0]))
    ensures MergeRuns(xs, ys) == [ys[0]] + MergeRuns(xs, ys[1..])
  {
    if xs == [] {
      assert ys == [ys[0]] + ys[1..];
    }
  }

  /** The index-walking merge is the merge of the two slices. */
  lemma {:induction false} MergeFromIsMergeRuns(a: seq<int>, i1: nat, half: nat, i2: nat, size: nat)
    requires i1 <= half <= i2 <= size <= |a|
    ensures MergeFrom(a, i1, half, i2, size) == MergeRuns(a[i1..half], a[i2..size])
    decreases (half - i1) + (size - i2)
  {
    var xs, ys := a[i1..half], a[i2..size];
    if i1 == half && i2 == size {
    } else if i2 == size || (i1 < half && a[i1] < a[i2]) {
      MergeFromIsMergeRuns(a, i1 + 1, half, i2, size);
      assert xs[0] == a[i1] && xs[1..] == a[i1 + 1..half];
      MergeRunsTakeLeft(xs, ys);
    } else {
      MergeFromIsMergeRuns(a, i1, half, i2 + 1, size);
      assert ys[0] == a[i2] && ys[1..] == a[i2 + 1..size];
      MergeRunsTakeRight(xs, ys);
    }
  }

  /** Moving the next merged element from the pending part to the output. */
  lemma AppendNext(out: seq<int>, x: int, rest: seq<int>, whole: seq<int>)
    requires out + ([x] + rest) == whole
    ensures (out + [x]) + rest == whole
  {
    assert (out + [x]) + rest == out + ([x] + rest);
  }

  /**
    The first merge loop: while both runs have elements, append the smaller
    head, the right one on ties. It stops with one run exhausted, having
    produced the start of the merge.
   */
  method MergeHeads(a: seq<int>, half: nat, size: nat) returns (out: seq<int>, i1: nat, i2: nat)
    requires half <= size <= |a|
    ensures i1 <= half <= i2 <= size && (i1 == half || i2 == size)
    ensures |out| == i1 + (i2 - half)
    ensures out + MergeFrom(a, i1, half, i2, size) == MergeFrom(a, 0, half, half, size)
  {
    ghost var whole := MergeFrom(a, 0, half, half, size);
    i1, i2 := 0, half;
    out := [];
    while i1 < half && i2 < size
      invariant 0 <= i1 <= half <= i2 <= size
      invariant |out| == i1 + (i2 - half)
      invariant out + MergeFrom(a, i1, half, i2, size) == whole
    {
      if a[i1] < a[i2] {
        AppendNext(out, a[i1], MergeFrom(a, i1 + 1, half, i2, size), whole);
        out := out + [a[i1]];
        i1 := i1 + 1;
      } else {
        AppendNext(out, a[i2], MergeFrom(a, i1, half, i2 + 1, size), whole);
        out := out + [a[i2]];
        i2 := i2 + 1;
      }
    }
  }

  /**
    The two copy loops: once a run is exhausted, the rest of the other run
    is appended as it stands, which completes the merge.
   */
  method MergeTails(a: seq<int>, half: nat, size: nat, out: seq<int>, i1: nat, i2: nat) returns (out': seq<int>)
    requires i1 <= half <= i2 <= size <= |a| && (i1 == half || i2 == size)
    ensures out' == out + MergeFrom(a, i1, half, i2, size)
  {
    var j1, j2 := i1, i2;
    out' := out;
    while j1 < half
      invariant i1 <= j1 <= half && j2 == i2
      invariant j1 < half ==> j2 == size
      invariant out' + MergeFrom(a, j1, half, j2, size) == out + MergeFrom(a, i1, half, i2, size)
    {
      out' := out' + [a[j1]];
      j1 := j1 + 1;
    }
    while j2 < size
      invariant j1 == half && i2 <= j2 <= size
      invariant out' + MergeFrom(a, j1, half, j2, size) == out + MergeFrom(a, i1, half, i2, size)
    {
      out' := out' + [a[j2]];
      j2 := j2 + 1;
    }
  }

  /**
    Merges the sorted runs `a[0..size/2)` and `a[size/2..size)` through the
    scratch buffer `tmp`, then copies `tmp[0..size)` back into `a`. The
    merge loops fill `tmp` from index 0 on without gaps, so their output is
    kept as the sequence of values written so far.
   */
  method Merge(a: seq<int>, tmp: seq<int>, size: nat) returns (a': seq<int>, tmp': seq<int>)
    requires size <= |a| && size <= |tmp|
    ensures |a'| == |a| && |tmp'| == |tmp|
    ensures a'[..size] == MergeRuns(a[..size / 2], a[size / 2..size])
    ensures a'[..size] == tmp'[..size]
    ensures a'[size..] == a[size..] && tmp'[size..] == tmp[size..]
  {
    var half := size / 2;
    var out, i1, i2 := MergeHeads(a, half, size);
    out := MergeTails(a, half, size, out, i1, i2);
    MergeFromIsMergeRuns(a, 0, half, half, size);
    MergeRunsPermutes(a[..half], a[half..size]);
    tmp' := out + tmp[size..];
    a' := out + a[size..];
    assert tmp'[..size] == out && a'[..size] == out;
  }

  /** Inserting `v` after the elements `<= v` of a sorted run keeps it sorted. */
  lemma InsertKeepsSorted(p: seq<int>, v: int, m: nat)
    requires Sorted(p) && m <= |p|
    requires m > 0 ==> p[m - 1] <= v
    requires forall k :: m <= k < |p| ==> v < p[k]
    ensures Sorted(p[..m] + [v] + p[m..])
  {
    var q := p[..m] + [v] + p[m..];
    forall i, j | 0 <= i < j < |q|
      ensures q[i] <= q[j]
    {
      if j < m {
        assert q[i] == p[i] && q[j] == p[j];
      } else if j == m {
        if i < m - 1 {
          assert q[i] == p[i] <= p[m - 1];
        }
      } else if i == m {
        assert q[j] == p[j - 1];
      } else if i < m {
        assert q[i] == p[i] <= p[j - 1] == q[j];
      } else {
        assert q[i] == p[i - 1] <= p[j - 1] == q[j];
      }
    }
  }

  /**
    The inner loop of insertion sort at position `i`: shifts the elements of
    `r[0..i)` that are strictly greater than `v = r[i]` one place right and
    writes `v` into the hole at `m`.
   */
  method ShiftInsert(r: seq<int>, i: nat) returns (r': seq<int>, m: nat)
    requires i < |r|
    ensures m <= i
    ensures r' == r[..m] + [r[i]] + r[m..i] + r[i + 1..]
    ensures m > 0 ==> r[m - 1] <= r[i]
    ensures forall k :: m <= k < i ==> r[i] < r[k]
  {
    var v := r[i];
    var j := i - 1;
    r' := r;
    while j >= 0
      invariant -1 <= j < i && |r'| == |r|
      invariant forall k :: 0 <= k <= j ==> r'[k] == r[k]
      invariant forall k :: j + 2 <= k <= i ==> r'[k] == r[k - 1]
      invariant forall k :: i < k < |r| ==> r'[k] == r[k]
      invariant forall k :: j + 1 <= k < i ==> v < r[k]
    {
      if r'[j] <= v {
        break;
      }
      r' := r'[j + 1 := r'[j]];
      j := j - 1;
    }
    r' := r'[j + 1 := v];
    m := j + 1;
    HoleFilled(r, r', i, m);
  }

  /** The element-wise description of the shifted buffer, as one sequence. */
  lemma HoleFilled(r: seq<int>, r': seq<int>, i: nat, m: nat)
    requires m <= i < |r| == |r'|
    requires forall k :: 0 <= k < m ==> r'[k] == r[k]
    requires r'[m] == r[i]
    requires forall k :: m + 1 <= k <= i ==> r'[k] == r[k - 1]
    requires forall k :: i < k < |r| ==> r'[k] == r[k]
    ensures r' == r[..m] + [r[i]] + r[m..i] + r[i + 1..]
  {
  }

  /**
    Insertion sort of `a[0..size)`: each element is moved left past the
    elements strictly greater than it, so it lands after its equals.
   */
  method InsertionSort(a: seq<int>, size: nat) returns (r: seq<int>)
    requires size <= |a|
    ensures |r| == |a| && r[size..] == a[size..]
    ensures Sorted(r[..size])
    ensures multiset(r[..size]) == multiset(a[..size])
  {
    r := a;
    var i := 0;
    while i < size
      invariant 0 <= i <= size && |r| == |a|
      invariant r[i..] == a[i..]
      invariant Sorted(r[..i])
      invariant multiset(r[..i]) == multiset(a[..i])
    {
      ghost var r0 := r;
      var m;
      r, m := ShiftInsert(r, i);
      InsertionStepFrame(a, r0, r, i, m);
      InsertionStepSorted(r0, r, i, m);
      InsertionStepPermutes(a, r0, r, i, m);
      i := i + 1;
    }
  }

  /** One outer pass of insertion sort keeps the prefix `r[0..i]` sorted ... */
  lemma InsertionStepSorted(r0: seq<int>, r: seq<int>, i: nat, m: nat)
    requires m <= i < |r0| && Sorted(r0[..i])
    requires r == r0[..m] + [r0[i]] + r0[m..i] + r0[i + 1..]
    requires m > 0 ==> r0[m - 1] <= r0[i]
    requires forall k :: m <= k < i ==> r0[i] < r0[k]
    ensures Sorted(r[..i + 1])
  {
    var p := r0[..i];
    assert p[..m] == r0[..m] && p[m..] == r0[m..i];
    InsertKeepsSorted(p, r0[i], m);
    assert r[..i + 1] == p[..m] + [r0[i]] + p[m..];
  }

  /** ... holding the elements of `a[0..i]` ... */
  lemma InsertionStepPermutes(a: seq<int>, r0: seq<int>, r: seq<int>, i: nat, m: nat)
    requires m <= i < |a| == |r0| && r0[i] == a[i]
    requires multiset(r0[..i]) == multiset(a[..i])
    requires r == r0[..m] + [r0[i]] + r0[m..i] + r0[i + 1..]
    ensures multiset(r[..i + 1]) == multiset(a[..i + 1])
  {
    assert r[..i + 1] == r0[..m] + [a[i]] + r0[m..i];
    calc {
      multiset(r[..i + 1]);
      multiset(r0[..m]) + multiset{a[i]} + multiset(r0[m..i]);
      { assert r0[..i] == r0[..m] + r0[m..i]; }
      multiset(a[..i]) + multiset{a[i]};
      { assert a[..i + 1] == a[..i] + [a[i]]; }
      multiset(a[..i + 1]);
    }
  }

  /** ... and leaving `r[i+1..]` as it was. */
  lemma InsertionStepFrame(a: seq<int>, r0: seq<int>, r: seq<int>, i: nat, m: nat)
    requires m <= i < |a| == |r0| && r0[i..] == a[i..]
    requires r == r0[..m] + [r0[i]] + r0[m..i] + r0[i + 1..]
    ensures |r| == |a| && r[i + 1..] == a[i + 1..] && r0[i] == a[i]
  {
    assert r[i + 1..] == r0[i + 1..];
    assert r0[i] == r0[i..][0];
  }

  /**
    Merging a sorted permutation of `a[0..size/2)` with a sorted permutation
    of `a[size/2..size)` gives a sorted permutation of `a[0..size)`.
   */
  lemma MergedHalves(a: seq<int>, lo: seq<int>, hi: seq<int>, merged: seq<int>, size: nat)
    requires size <= |a|
    requires Sorted(lo) && multiset(lo) == multiset(a[..size / 2])
    requires Sorted(hi) && multiset(hi) == multiset(a[size / 2..size])
    requires merged == MergeRuns(lo, hi)
    ensures Sorted(merged) && multiset(merged) == multiset(a[..size])
  {
    MergeRunsSorted(lo, hi);
    MergeRunsPermutes(lo, hi);
    assert a[..size] == a[..size / 2] + a[size / 2..size];
  }

  /** Serial merge sort of `a[0..size)`, insertion sort below `SMALL`. */
  method MergeSortSerial(a: seq<int>, tmp: seq<int>, size: nat) returns (a': seq<int>, tmp': seq<int>)
    requires size <= |a| && size <= |tmp|
    ensures |a'| == |a| && |tmp'| == |tmp|
    ensures Sorted(a'[..size])
    ensures multiset(a'[..size]) == multiset(a[..size])
    ensures a'[size..] == a[size..] && tmp'[size..] == tmp[size..]
    ensures size <= SMALL ==> tmp' == tmp
    decreases size
  {
    if size <= SMALL {
      a' := InsertionSort(a, size);
      tmp' := tmp;
      return;
    }
    var half := size / 2;
    var a1, t1 := MergeSortSerial(a, tmp, half);
    var right, t2 := MergeSortSerial(a1[half..], t1, size - half);
    var a2 := a1[..half] + right;
    a', tmp' := Merge(a2, t2, size);
    SerialCombine(a, a1, right, a2, a'[..size], size, half);
    SerialCombineFrame(a, a1, right, a2, size, half);
    SuffixFrame(t2, t1, size - half, size);
    SuffixFrame(t1, tmp, half, size);
  }

  /** Buffers that agree from `from` on agree from any later `size` on. */
  lemma SuffixFrame(x: seq<int>, y: seq<int>, from: nat, size: nat)
    requires from <= size <= |x| == |y| && x[from..] == y[from..]
    ensures x[size..] == y[size..]
  {
    assert x[size..] == x[from..][size - from..];
    assert y[size..] == y[from..][size - from..];
  }

  /**
    The combining step of serial merge sort: with the left half sorted in
    place and the right half sorted as the tail buffer `right`, merging the
    two gives a sorted permutation of the original range.
   */
  lemma SerialCombine(a: seq<int>, a1: seq<int>, right: seq<int>, a2: seq<int>, merged: seq<int>, size: nat, half: nat)
    requires half == size / 2 && size <= |a| == |a1| && |right| == |a| - half
    requires Sorted(a1[..half]) && multiset(a1[..half]) == multiset(a[..half]) && a1[half..] == a[half..]
    requires Sorted(right[..size - half]) && multiset(right[..size - half]) == multiset(a1[half..][..size - half])
    requires a2 == a1[..half] + right
    requires merged == MergeRuns(a2[..half], a2[half..size])
    ensures Sorted(merged) && multiset(merged) == multiset(a[..size])
  {
    var lo, hi := a2[..half], a2[half..size];
    assert lo == a1[..half] && hi == right[..size - half];
    assert a1[half..][..size - half] == a[half..size];
    MergedHalves(a, lo, hi, merged, size);
  }

  /** ... and leaves the buffer past the range as it was. */
  lemma SerialCombineFrame(a: seq<int>, a1: seq<int>, right: seq<int>, a2: seq<int>, size: nat, half: nat)
    requires half <= size <= |a| == |a1| && |right| == |a| - half
    requires a1[half..] == a[half..] && right[size - half..] == a1[half..][size - half..]
    requires a2 == a1[..half] + right
    ensures a2[size..] == a[size..]
  {
    assert a2[size..] == right[size - half..];
  }

  /**
    Merge sort and insertion sort leave the same buffer: below `SMALL` the
    former is the latter, and above it both yield the one sorted arrangement
    of the same keys.
   */
  method SerialMatchesInsertionSort(a: seq<int>, tmp: seq<int>, size: nat)
    returns (viaMerge: seq<int>, viaInsertion: seq<int>)
    requires size <= |a| && size <= |tmp|
    ensures viaMerge == viaInsertion
  {
    var tmp';
    viaMerge, tmp' := MergeSortSerial(a, tmp, size);
    viaInsertion := InsertionSort(a, size);
    SortedPermutationUnique(viaMerge[..size], viaInsertion[..size]);
    assert viaMerge == viaMerge[..size] + viaMerge[size..];
    assert viaInsertion == viaInsertion[..size] + viaInsertion[size..];
  }

  /**
    The validation step of the root driver (`std::is_sorted`): scans the
    adjacent pairs for a descent.
   */
  method IsSorted(s: seq<int>) returns (ok: bool)
    ensures ok <==> Sorted(s)
  {
    if |s| == 0 {
      return true;
    }
    var i := 1;
    while i < |s|
      invariant 1 <= i <= |s|
      invariant Sorted(s[..i])
    {
      if s[i] < s[i - 1] {
        return false;
      }
      i := i + 1;
    }
    assert s[..i] == s;
    return true;
  }
}
