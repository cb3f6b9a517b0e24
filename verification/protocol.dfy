/**
  The distributed merge sort: the root, the helpers, and the recursive
  parallel step that hands the right half of the work to a helper while
  sorting the left half itself.

  Message passing is modelled by value: the non-blocking send of the right
  half becomes the sequence `sent`, taken before the left recursion, and the
  helper's run is a call that receives `sent` and returns its sorted copy,
  which the blocking receive writes back over the right half. Each method
  also returns the messages its subtree exchanges, which must be the
  reference `MessageTrace.Trace`.
 */
module Protocol {
  import opened SortSpec
  import opened SerialSort
  import opened Topology
  import opened MessageTrace

  /**
    One participant's parallel merge sort of `a[0..size)` at `level`. With no
    helper left it sorts serially; otherwise it sends the right half to its
    helper, recurses on the left half one level deeper, receives the sorted
    right half and merges the two through `tmp`.
   */
  method MergeSortParallel(a: seq<int>, tmp: seq<int>, size: nat, level: nat, rank: int, maxRank: int)
    returns (a': seq<int>, tmp': seq<int>, trace: seq<Message>)
    requires size <= |a| && size <= |tmp|
    requires 0 <= rank < Pow2(level)
    ensures |a'| == |a| && |tmp'| == |tmp|
    ensures Sorted(a'[..size])
    ensures multiset(a'[..size]) == multiset(a[..size])
    ensures a'[size..] == a[size..] && tmp'[size..] == tmp[size..]
    ensures trace == Trace(size, level, rank, maxRank)
    ensures HelperRank(rank, level) > maxRank <==> trace == []
    decreases maxRank - HelperRank(rank, level), 0
  {
    var helper := HelperRank(rank, level);
    if helper > maxRank {
      a', tmp' := MergeSortSerial(a, tmp, size);
      trace := [];
      return;
    }
    HelperEntryLevel(rank, level);
    var half := size / 2;
    var rest: nat := size - half;
    var sent := a[half..size];
    var a1, t1, leftTrace := MergeSortParallel(a, tmp, half, level + 1, rank, maxRank);
    var received, helperTrace := RunHelper(helper, maxRank, sent);
    var a2 := ReceiveInto(a1, half, size, received);
    a', tmp' := Merge(a2, t1, size);
    CombineHalves(a, a1, received, a2, a', size, half);
    SuffixFrame(tmp, t1, half, size);
    var w := Message(Work, rank, helper, rest);
    trace := [w] + leftTrace + helperTrace + [Answer(w)];
    TraceStep(size, half, rest, level, rank, helper, maxRank);
  }

  /**
    The combining step of the parallel sort: with the left half sorted in
    place, the sorted right half received over it and the two merged, the
    range is a sorted permutation of the original one and the rest of the
    buffer is as it was.
   */
  lemma CombineHalves(a: seq<int>, a1: seq<int>, received: seq<int>, a2: seq<int>, merged: seq<int>, size: nat, half: nat)
    requires half == size / 2 && size <= |a| == |a1| == |a2| == |merged|
    requires Sorted(a1[..half]) && multiset(a1[..half]) == multiset(a[..half]) && a1[half..] == a[half..]
    requires Sorted(received) && multiset(received) == multiset(a[half..size])
    requires a2[..half] == a1[..half] && a2[half..size] == received && a2[size..] == a1[size..]
    requires merged[..size] == MergeRuns(a2[..half], a2[half..size]) && merged[size..] == a2[size..]
    ensures Sorted(merged[..size]) && multiset(merged[..size]) == multiset(a[..size])
    ensures merged[size..] == a[size..]
  {
    MergedHalves(a, a2[..half], a2[half..size], merged[..size], size);
    SuffixFrame(a1, a, half, size);
  }

  /** The blocking receive of the sorted right half into `a[half..size)`. */
  method ReceiveInto(a: seq<int>, half: nat, size: nat, received: seq<int>) returns (a': seq<int>)
    requires half <= size <= |a| && |received| == size - half
    ensures |a'| == |a|
    ensures a'[..half] == a[..half] && a'[half..size] == received && a'[size..] == a[size..]
  {
    a' := a[..half] + received + a[size..];
  }

  /**
    A helper: it enters the tree at its own topmost level, receives the
    keys its parent sends (as many as were sent), sorts them with the same
    parallel step into a scratch buffer of the same length, and returns them.
   */
  method RunHelper(rank: int, maxRank: int, work: seq<int>) returns (sorted: seq<int>, trace: seq<Message>)
    requires rank > 0
    ensures |sorted| == |work|
    ensures Sorted(sorted) && multiset(sorted) == multiset(work)
    ensures trace == Trace(|work|, TopmostLevel(rank), rank, maxRank)
    decreases maxRank - HelperRank(rank, TopmostLevel(rank)), 1
  {
    var level := TopmostLevel(rank);
    var size := |work|;
    var tmp := seq(size, _ => 0);
    var a', _, t := MergeSortParallel(work, tmp, size, level, rank, maxRank);
    assert a' == a'[..size] && work == work[..size];
    sorted := a';
    trace := t;
  }

  /** What the whole program ends with on a participant that runs the root part. */
  datatype RootOutcome = Completed(sorted: seq<int>, trace: seq<Message>) | Aborted(code: int)

  /**
    The root part: only rank 0 may run it (any other rank aborts with code
    1); it sorts the whole input from level 0 with a zero-filled scratch
    buffer of the same length (the scratch vector is copied before the input
    is generated), then checks the result is sorted, aborting with code 1 if
    it is not.
   */
  method RunRoot(a: seq<int>, rank: int, maxRank: int) returns (out: RootOutcome)
    ensures rank != 0 <==> out == Aborted(1)
    ensures rank == 0 ==> out.Completed?
    ensures out.Completed? ==> Sorted(out.sorted) && multiset(out.sorted) == multiset(a)
    ensures out.Completed? ==> out.trace == Trace(|a|, 0, 0, maxRank)
  {
    if rank != 0 {
      return Aborted(1);
    }
    var tmp := seq(|a|, _ => 0);
    var a', _, trace := MergeSortParallel(a, tmp, |a|, 0, 0, maxRank);
    assert a' == a'[..|a|] && a == a[..|a|];
    var ok := IsSorted(a');
    if !ok {
      return Aborted(1);
    }
    out := Completed(a', trace);
  }

  /**
    The distributed sort computes exactly the sorted permutation of its
    input: the same output as any other sort, whatever the number of
    participants.
   */
  method SortsLikeSerial(a: seq<int>, maxRank1: int, maxRank2: int)
    returns (r1: RootOutcome, r2: RootOutcome)
    ensures r1.Completed? && r2.Completed? && r1.sorted == r2.sorted
  {
    r1 := RunRoot(a, 0, maxRank1);
    r2 := RunRoot(a, 0, maxRank2);
    SortedPermutationUnique(r1.sorted, r2.sorted);
  }
}
