/**
  The process tree of the distributed merge sort, derived from rank
  arithmetic alone. At recursion level `level` the participant `rank` hands
  the right half of its work to `rank + 2^level`, provided that rank exists.
  A helper learns the level it enters the tree at from its own rank.

  The C++ code computes `2^level` as `pow(2, level)` in floating point; for
  the levels that occur (below 31) that value is exact, so it is modelled as
  the integer power `Pow2`.
 */
module Topology {

  function Pow2(n: nat): (r: nat)
    ensures r >= 1
  {
    if n == 0 then 1 else 2 * Pow2(n - 1)
  }

  lemma {:induction false} Pow2Monotone(m: nat, n: nat)
    requires m <= n
    ensures Pow2(m) <= Pow2(n)
    decreases n
  {
    if m < n {
      Pow2Monotone(m, n - 1);
    }
  }

  /**
    The level-raising loop of `topmostLevel`, started at `level`: it steps
    the level up while its power of two is at most `rank`, so it stops at
    the first level from `level` on whose power of two exceeds `rank`.
   */
  function LevelFrom(rank: int, level: nat): (r: nat)
    ensures level <= r
    ensures rank < Pow2(r)
    ensures level < r ==> Pow2(r - 1) <= rank
    decreases rank - Pow2(level)
  {
    if Pow2(level) <= rank then LevelFrom(rank, level + 1) else level
  }

  /** The level at which a participant enters the process tree. */
  function TopmostLevel(rank: int): (r: nat)
    ensures rank < Pow2(r)
    ensures r > 0 ==> Pow2(r - 1) <= rank
  {
    LevelFrom(rank, 0)
  }

  /** `TopmostLevel` is the LEAST level whose power of two exceeds the rank. */
  lemma TopmostLevelLeast(rank: int, level: nat)
    requires rank < Pow2(level)
    ensures TopmostLevel(rank) <= level
  {
    var r := TopmostLevel(rank);
    if r > level {
      Pow2Monotone(level, r - 1);
    }
  }

  /** The root, rank 0, sits at level 0. */
  lemma TopmostLevelOfRoot()
    ensures TopmostLevel(0) == 0
  {
  }

  /** The participant that takes over the right half at this level. */
  function HelperRank(rank: int, level: nat): int {
    rank + Pow2(level)
  }

  /**
    A helper enters the tree exactly one level below its parent: when the
    parent at `level` hands work to `HelperRank(rank, level)`, the helper's
    own `TopmostLevel` is `level + 1`, the level its parent's left half
    recursion runs at. This needs `rank < 2^level`, which holds for every
    participant at every level it runs at.
   */
  lemma HelperEntryLevel(rank: int, level: nat)
    requires 0 <= rank < Pow2(level)
    ensures TopmostLevel(HelperRank(rank, level)) == level + 1
  {
    var h := HelperRank(rank, level);
    var r := TopmostLevel(h);
    assert h < Pow2(level + 1);
    TopmostLevelLeast(h, level + 1);
    if r <= level {
      Pow2Monotone(r, level);
    }
  }
}
