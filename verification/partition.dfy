/**
  The block partition of the terms `1..t` over `c` ranks: rank `r` gets the
  half-open range `[start, end)`. Every rank gets `t / c` terms and the first
  `t % c` ranks one more. The code is written with C's integer division,
  which truncates toward zero; it only differs from Dafny's Euclidean
  division for negative dividends, which the 5_comm program accepts from its
  command line.
 */
module Partition {

  /** C's `x / y` for `y > 0`: the quotient truncated toward zero. */
  function CDiv(x: int, y: int): int
    requires y > 0
  {
    if x >= 0 then x / y else -((-x) / y)
  }

  /** C's `x % y` for `y > 0`: the remainder takes the sign of `x`. */
  function CRem(x: int, y: int): int
    requires y > 0
  {
    x - y * CDiv(x, y)
  }

  /** For a non-negative dividend, C's division and Dafny's agree. */
  lemma CDivNonNegative(x: int, y: int)
    requires x >= 0 && y > 0
    ensures CDiv(x, y) == x / y && CRem(x, y) == x % y
  {
  }

  /** For a negative dividend, C's quotient is at most 0 and its remainder lies in `(-y, 0]`. */
  lemma CDivNegative(x: int, y: int)
    requires x < 0 && y > 0
    ensures CDiv(x, y) <= 0 && -y < CRem(x, y) <= 0
  {
    var q := (-x) / y;
    assert -x == y * q + (-x) % y;
    assert CRem(x, y) == -((-x) % y);
  }

  lemma MulNonNegative(a: int, b: int)
    requires a >= 0 && b >= 0
    ensures a * b >= 0
  {
  }

  datatype Interval = Interval(start: int, end: int)

  /** `getInterval(termNum, commSize, rank)` of the series program. */
  function GetInterval(t: int, c: int, r: int): Interval
    requires c > 0
  {
    var diff := CDiv(t, c);
    var start := diff * r + 1;
    var end := start + diff;
    var remainder := CRem(t, c);
    if remainder != 0 then
      var expand := r < remainder;
      Interval(start + (if expand then r else remainder), end + (if expand then r + 1 else remainder))
    else
      Interval(start, end)
  }

  /** The partition written inline in the communicator program, over `long long`. */
  function CommRange(n: int, size: int, rank: int): Interval
    requires size > 0
  {
    var diff := CDiv(n, size);
    var start := 1 + diff * rank;
    var end := 1 + diff * (rank + 1);
    if CRem(n, size) != 0 then
      if rank < CRem(n, size) then Interval(start + rank, end + rank + 1)
      else Interval(start + CRem(n, size), end + CRem(n, size))
    else Interval(start, end)
  }

  function Min(a: int, b: int): int {
    if a <= b then a else b
  }

  /** The number of terms a rank gets. */
  function Len(i: Interval): int {
    i.end - i.start
  }

  /**
    Closed form: rank `r` starts after the `r * (t / c)` terms of the ranks
    before it plus one extra term for each of them below `t % c`, and its own
    share is `t / c` plus one when `r < t % c`.
   */
  lemma GetIntervalClosedForm(t: int, c: int, r: int)
    requires t >= 0 && c > 0 && r >= 0
    ensures GetInterval(t, c, r).start == 1 + r * (t / c) + Min(r, t % c)
    ensures Len(GetInterval(t, c, r)) == t / c + (if r < t % c then 1 else 0)
  {
    CDivNonNegative(t, c);
  }

  /** Rank 0 starts at term 1. */
  lemma FirstStartsAtOne(t: int, c: int)
    requires t >= 0 && c > 0
    ensures GetInterval(t, c, 0).start == 1
  {
    GetIntervalClosedForm(t, c, 0);
  }

  /** Each rank ends where the next one starts. */
  lemma Contiguous(t: int, c: int, r: int)
    requires t >= 0 && c > 0 && r > 0
    ensures GetInterval(t, c, r - 1).end == GetInterval(t, c, r).start
  {
    GetIntervalClosedForm(t, c, r - 1);
    GetIntervalClosedForm(t, c, r);
    assert r * (t / c) == (r - 1) * (t / c) + t / c;
  }

  /** Every range is well formed and lies at or after term 1. */
  lemma StartsAtOneOrLater(t: int, c: int, r: int)
    requires t >= 0 && c > 0 && r >= 0
    ensures 1 <= GetInterval(t, c, r).start <= GetInterval(t, c, r).end
  {
    GetIntervalClosedForm(t, c, r);
    MulNonNegative(r, t / c);
  }

  /** The last rank ends just after term `t`. */
  lemma LastEndsAfterTotal(t: int, c: int)
    requires t >= 0 && c > 0
    ensures GetInterval(t, c, c - 1).end == t + 1
  {
    GetIntervalClosedForm(t, c, c - 1);
    assert t == c * (t / c) + t % c;
    assert (c - 1) * (t / c) + t / c == c * (t / c);
  }

  /** Shares differ by at most one term. */
  lemma Balanced(t: int, c: int, r1: int, r2: int)
    requires t >= 0 && c > 0 && r1 >= 0 && r2 >= 0
    ensures -1 <= Len(GetInterval(t, c, r1)) - Len(GetInterval(t, c, r2)) <= 1
  {
    GetIntervalClosedForm(t, c, r1);
    GetIntervalClosedForm(t, c, r2);
  }

  /** Starts never decrease with the rank. */
  lemma {:induction false} StartMonotone(t: int, c: int, r1: int, r2: int)
    requires t >= 0 && c > 0 && 0 <= r1 <= r2
    ensures GetInterval(t, c, r1).start <= GetInterval(t, c, r2).start
    decreases r2 - r1
  {
    if r1 < r2 {
      StartMonotone(t, c, r1, r2 - 1);
      Contiguous(t, c, r2);
      StartsAtOneOrLater(t, c, r2 - 1);
    }
  }

  /** The rank at or after `r` whose range holds the term `k`. */
  function FindOwner(t: int, c: int, k: int, r: int): (o: int)
    requires t >= 0 && 0 <= r < c
    requires GetInterval(t, c, r).start <= k < GetInterval(t, c, c - 1).end
    ensures r <= o < c
    ensures GetInterval(t, c, o).start <= k < GetInterval(t, c, o).end
    decreases c - r
  {
    if k < GetInterval(t, c, r).end then r
    else
      Contiguous(t, c, r + 1);
      FindOwner(t, c, k, r + 1)
  }

  /** Every term `1..t` lies in the range of some rank. */
  lemma Covers(t: int, c: int, k: int)
    requires t >= 0 && c > 0 && 1 <= k <= t
    ensures exists r :: 0 <= r < c && GetInterval(t, c, r).start <= k < GetInterval(t, c, r).end
  {
    FirstStartsAtOne(t, c);
    LastEndsAfterTotal(t, c);
    var o := FindOwner(t, c, k, 0);
  }

  /** No term lies in the ranges of two different ranks. */
  lemma Disjoint(t: int, c: int, r1: int, r2: int, k: int)
    requires t >= 0 && c > 0 && 0 <= r1 < r2
    requires GetInterval(t, c, r1).start <= k < GetInterval(t, c, r1).end
    ensures !(GetInterval(t, c, r2).start <= k < GetInterval(t, c, r2).end)
  {
    Contiguous(t, c, r1 + 1);
    StartMonotone(t, c, r1 + 1, r2);
  }

  /**
    A count that is zero or negative gives every rank an empty range (the
    truncating division matters here: the remainder is then at most 0).
   */
  lemma NonPositiveCountIsEmpty(t: int, c: int, r: int)
    requires t <= 0 && c > 0 && r >= 0
    ensures Len(GetInterval(t, c, r)) <= 0
  {
    if t < 0 {
      CDivNegative(t, c);
    }
  }

  /** The inline partition of the communicator program is `getInterval`, for every input. */
  lemma CommRangeIsGetInterval(n: int, size: int, rank: int)
    requires size > 0
    ensures CommRange(n, size, rank) == GetInterval(n, size, rank)
  {
    var d := CDiv(n, size);
    assert 1 + d * (rank + 1) == d * rank + 1 + d;
  }

  /**
    The communicator program's ranges, for `N >= 0` and a rank of the
    sub-communicator: rank 0 starts at 1, each ends where the next starts,
    the last ends at `N + 1`, and each has `N / size` terms plus one below
    `N % size`.
   */
  lemma CommRangePartition(n: int, size: int, rank: int)
    requires n >= 0 && size > 0 && 0 <= rank < size
    ensures CommRange(n, size, 0).start == 1
    ensures CommRange(n, size, rank).end == CommRange(n, size, rank + 1).start
    ensures CommRange(n, size, size - 1).end == n + 1
    ensures Len(CommRange(n, size, rank)) == n / size + (if rank < n % size then 1 else 0)
  {
    CommRangeIsGetInterval(n, size, 0);
    CommRangeIsGetInterval(n, size, rank);
    CommRangeIsGetInterval(n, size, rank + 1);
    CommRangeIsGetInterval(n, size, size - 1);
    FirstStartsAtOne(n, size);
    Contiguous(n, size, rank + 1);
    LastEndsAfterTotal(n, size);
    GetIntervalClosedForm(n, size, rank);
  }
}
