/**
  The integer part of the series program that sums `1/n!` over ranks. Each
  rank owns the terms `n` in `[start, end)` of `GetInterval` and computes,
  with big integers, a product and a sum over its range: the product of
  `start..end-1`, and the sum of `(end-1)!/n!` over its terms. The product
  is then multiplied by the chained product the previous rank sends, so that
  rank `r` ends up holding `(end_r - 1)!`, the common denominator of its
  terms. GMP's `mpz` integers are unbounded, so they are `int` here.
 */
module Factorial {
  import opened Arith
  import opened Partition

  /** `lo * (lo + 1) * ... * hi`; 1 when the range is empty. */
  function Prod(lo: int, hi: int): int
    decreases hi - lo
  {
    if lo > hi then 1 else lo * Prod(lo + 1, hi)
  }

  function Fact(n: int): int {
    Prod(1, n)
  }

  /** `Prod(j, hi)` summed over `j` in `lo..hi`. */
  function Tail(lo: int, hi: int): int
    decreases hi - lo
  {
    if lo > hi then 0 else Prod(lo, hi) + Tail(lo + 1, hi)
  }

  /**
    The terms `start..end-1` of the series scaled by `(end-1)!`: term `n`
    contributes `(n+1) * ... * (end-1)`, which is `(end-1)! / n!`.
   */
  function ScaledTerms(start: int, end: int): int
    decreases end - start
  {
    if start >= end then 0 else Prod(start + 1, end - 1) + ScaledTerms(start + 1, end)
  }

  lemma MulAssoc(a: int, b: int, c: int)
    ensures (a * b) * c == a * (b * c)
  {
  }

  /** A product splits at any point of its range. */
  lemma {:induction false} ProdSplit(lo: int, mid: int, hi: int)
    requires lo <= mid <= hi + 1
    ensures Prod(lo, mid - 1) * Prod(mid, hi) == Prod(lo, hi)
    decreases mid - lo
  {
    if lo < mid {
      ProdSplit(lo + 1, mid, hi);
      var x, y := Prod(lo + 1, mid - 1), Prod(mid, hi);
      assert Prod(lo, mid - 1) == lo * x;
      assert Prod(lo, hi) == lo * (x * y);
      MulAssoc(lo, x, y);
    }
  }

  /** Each scaled term is exactly `(end-1)! / n!`. */
  lemma ScaledTermIsRatio(n: int, end: int)
    requires 0 <= n < end
    ensures Prod(n + 1, end - 1) * Fact(n) == Fact(end - 1)
  {
    ProdSplit(1, n + 1, end - 1);
  }

  /** The scaled terms are one plus the tail sum the loop accumulates. */
  lemma {:induction false} ScaledTermsIsTail(start: int, end: int)
    requires start < end
    ensures ScaledTerms(start, end) == 1 + Tail(start + 1, end - 1)
    decreases end - start
  {
    if start + 1 < end {
      ScaledTermsIsTail(start + 1, end);
    }
  }

  /**
    `mpz_set_ull(num, x)` for a signed 64-bit `x`: the high word
    `x >> 32` (an arithmetic shift, i.e. floor division) and the low word
    are both cast to 32-bit unsigned, then recombined as `hi * 2^32 + lo`.
   */
  function MpzSetUll(x: int): (r: int)
    requires -0x8000_0000_0000_0000 <= x < 0x8000_0000_0000_0000
    ensures r == x % 0x1_0000_0000_0000_0000
    ensures 0 <= x ==> r == x
  {
    var hi := (x / 0x1_0000_0000) % 0x1_0000_0000;
    var lo := x % 0x1_0000_0000;
    MpzSetUllValue(x, hi, lo);
    hi * 0x1_0000_0000 + lo
  }

  lemma MpzSetUllValue(x: int, hi: int, lo: int)
    requires hi == (x / 0x1_0000_0000) % 0x1_0000_0000 && lo == x % 0x1_0000_0000
    ensures hi * 0x1_0000_0000 + lo == x % 0x1_0000_0000_0000_0000
  {
    var q := x / 0x1_0000_0000;
    var q' := q / 0x1_0000_0000;
    assert x == 0x1_0000_0000 * q + lo;
    assert q == 0x1_0000_0000 * q' + hi;
    assert x == 0x1_0000_0000_0000_0000 * q' + (hi * 0x1_0000_0000 + lo);
    DivModUnique(x, 0x1_0000_0000_0000_0000, q', hi * 0x1_0000_0000 + lo);
  }

  /** A chunk boundary of the product loop, where the running product is flushed. */
  const CHUNK: int := 8192

  /**
    The product/sum loop exactly as written. `a` is the running product of
    the current chunk and `s` its running sum; every `CHUNK`-th index the
    chunk is folded into `fact` and `sum` and restarted from `i`. The first
    step is unrolled into the initial values `a = end-1`, `s = end`, which
    is right only for ranges of at least two terms: for shorter ranges the
    product comes out as `start*start` or `(start-1)*start`.
   */
  method LocalProducts(start: int, end: int) returns (fact: int, sum: int)
    requires 1 <= start <= end < 0x8000_0000
    ensures end - start >= 2 ==> fact == Prod(start, end - 1) && sum == ScaledTerms(start, end)
    ensures end - start == 1 ==> fact == start * start && sum == start + 1
    ensures end == start ==> fact == (start - 1) * start && sum == start
  {
    var a := end - 1;
    var s := end;
    fact := 1;
    sum := 0;
    var i := end - 2;
    while i > start
      invariant i <= end - 2 && (i >= start || i == end - 2)
      invariant fact * a == Prod(i + 1, end - 1)
      invariant sum + fact * s == 1 + Tail(i + 1, end - 1)
      decreases i - start
    {
      ghost var (fact0, a0, s0, sum0) := (fact, a, s, sum);
      if i % CHUNK == 0 {
        sum := sum + fact * s;
        fact := fact * a;
        a := MpzSetUll(i);
        s := a;
      } else {
        a := a * i;
        s := s + a;
      }
      LoopStep(i, end, fact0, a0, s0, sum0, fact, a, s, sum);
      i := i - 1;
    }
    sum := sum + fact * s;
    fact := fact * a;
    fact := fact * start;
    if end - start >= 2 {
      ScaledTermsIsTail(start, end);
    }
  }

  /**
    One iteration of the loop at index `i`, either flushing the chunk into
    `fact` and `sum` or extending it by `i`, moves the running product and
    sum from `i + 1..end-1` to `i..end-1`.
   */
  lemma LoopStep(i: int, end: int, fact: int, a: int, s: int, sum: int,
                 fact': int, a': int, s': int, sum': int)
    requires i <= end - 2
    requires fact * a == Prod(i + 1, end - 1) && sum + fact * s == 1 + Tail(i + 1, end - 1)
    requires (fact' == fact * a && a' == i && s' == i && sum' == sum + fact * s)
          || (fact' == fact && a' == a * i && s' == s + a * i && sum' == sum)
    ensures fact' * a' == Prod(i, end - 1) && sum' + fact' * s' == 1 + Tail(i, end - 1)
  {
    var p, t := Prod(i + 1, end - 1), Tail(i + 1, end - 1);
    assert Prod(i, end - 1) == i * p;
    assert Tail(i, end - 1) == i * p + t;
    if fact' == fact * a && a' == i && s' == i && sum' == sum + fact * s {
      FlushStep(p, t, fact, a, s, sum, i);
    } else {
      ExtendStep(p, t, fact, a, s, sum, i);
    }
  }

  /** Flushing the chunk: the product and sum so far absorb the chunk, which restarts at `i`. */
  lemma FlushStep(p: int, t: int, fact: int, a: int, s: int, sum: int, i: int)
    requires fact * a == p && sum + fact * s == 1 + t
    ensures (fact * a) * i == i * p
    ensures (sum + fact * s) + (fact * a) * i == 1 + (i * p + t)
  {
  }

  /** Extending the chunk by `i`. */
  lemma ExtendStep(p: int, t: int, fact: int, a: int, s: int, sum: int, i: int)
    requires fact * a == p && sum + fact * s == 1 + t
    ensures fact * (a * i) == i * p
    ensures sum + fact * (s + a * i) == 1 + (i * p + t)
  {
    MulAssoc(fact, a, i);
    assert fact * (s + a * i) == fact * s + fact * (a * i);
  }

  /** The product a rank computes over `[start, end)`, as the loop yields it. */
  function WrittenLocalFact(start: int, end: int): int {
    if end - start >= 2 then Prod(start, end - 1)
    else if end - start == 1 then start * start
    else (start - 1) * start
  }

  /** The product a rank should compute over `[start, end)`. */
  function LocalFact(start: int, end: int): int {
    Prod(start, end - 1)
  }

  /**
    The chained product of rank `r` as written: its own product times the
    value rank `r - 1` sent it; rank 0 receives nothing.
   */
  function WrittenChain(t: int, c: int, r: nat): int
    requires c > 0
  {
    var iv := GetInterval(t, c, r);
    WrittenLocalFact(iv.start, iv.end) * (if r == 0 then 1 else WrittenChain(t, c, r - 1))
  }

  /** The chained product with the short ranges handled. */
  function Chain(t: int, c: int, r: nat): int
    requires c > 0
  {
    var iv := GetInterval(t, c, r);
    LocalFact(iv.start, iv.end) * (if r == 0 then 1 else Chain(t, c, r - 1))
  }

  /** Multiplying `(s-1)!` by the product of `s..e-1` gives `(e-1)!`. */
  lemma ChainStep(s: int, e: int, mine: int, before: int)
    requires 1 <= s <= e && mine == Prod(s, e - 1) && before == Fact(s - 1)
    ensures mine * before == Fact(e - 1)
  {
    ProdSplit(1, s, e - 1);
  }

  /**
    The chained product is `(end_r - 1)!` when every rank up to `r` owns at
    least two terms, which is where the unrolled loop is right.
   */
  lemma {:induction false} WrittenChainIsFactorial(t: int, c: int, r: nat)
    requires t >= 0 && c > 0
    requires forall q :: 0 <= q <= r ==> Len(GetInterval(t, c, q)) >= 2
    ensures WrittenChain(t, c, r) == Fact(GetInterval(t, c, r).end - 1)
  {
    var iv := GetInterval(t, c, r);
    assert Len(iv) >= 2;
    StartsAtOneOrLater(t, c, r);
    var mine := WrittenLocalFact(iv.start, iv.end);
    assert mine == Prod(iv.start, iv.end - 1);
    if r == 0 {
      FirstStartsAtOne(t, c);
      ChainStep(iv.start, iv.end, mine, 1);
    } else {
      WrittenChainIsFactorial(t, c, r - 1);
      Contiguous(t, c, r);
      ChainStep(iv.start, iv.end, mine, WrittenChain(t, c, r - 1));
    }
  }

  /** With `t >= 2c` every rank owns at least two terms. */
  lemma WideEnough(t: int, c: int, q: int)
    requires c > 0 && t >= 2 * c && q >= 0
    ensures Len(GetInterval(t, c, q)) >= 2
  {
    GetIntervalClosedForm(t, c, q);
    DivModUnique(t, c, t / c, t % c);
    if t / c < 2 {
      assert c * (t / c) <= c * 1;
    }
  }

  /** With the short ranges handled, rank `r` always ends up with `(end_r - 1)!`. */
  lemma {:induction false} ChainIsFactorial(t: int, c: int, r: nat)
    requires t >= 0 && c > 0
    ensures Chain(t, c, r) == Fact(GetInterval(t, c, r).end - 1)
  {
    var iv := GetInterval(t, c, r);
    StartsAtOneOrLater(t, c, r);
    var mine := LocalFact(iv.start, iv.end);
    if r == 0 {
      FirstStartsAtOne(t, c);
      ChainStep(iv.start, iv.end, mine, 1);
    } else {
      ChainIsFactorial(t, c, r - 1);
      Contiguous(t, c, r);
      ChainStep(iv.start, iv.end, mine, Chain(t, c, r - 1));
    }
  }

  /**
    Three terms on three ranks (`t = c = 3`): rank 1 owns `[2, 3)` and its
    chained product is `4`, not `2! = 2`; its scaled sum is `3`, not `1`.
    The concrete input comes in as parameters so that Dafny unfolds the
    recursive definitions step by step.
   */
  lemma ShortRangeBreaksChain(t: int, c: int)
    requires t == 3 && c == 3
    ensures GetInterval(t, c, 1) == Interval(t - 1, t)
    ensures WrittenChain(t, c, 1) == 4 && Fact(t - 1) == 2
    ensures ScaledTerms(t - 1, t) == 1
  {
    assert GetInterval(t, c, 0) == Interval(t - 2, t - 1);
    assert GetInterval(t, c, 1) == Interval(t - 1, t);
    assert Prod(t - 1, t - 1) == 2 * Prod(t, t - 1);
    assert Fact(t - 1) == 1 * Prod(t - 1, t - 1);
    assert ScaledTerms(t - 1, t) == Prod(t, t - 1) + ScaledTerms(t, t);
  }

  /**
    The product/sum loop with ranges of fewer than two terms handled
    separately; longer ranges run the loop as written.
   */
  method LocalProductsFixed(start: int, end: int) returns (fact: int, sum: int)
    requires 1 <= start <= end < 0x8000_0000
    ensures fact == LocalFact(start, end) && sum == ScaledTerms(start, end)
  {
    if end - start >= 2 {
      fact, sum := LocalProducts(start, end);
    } else if end - start == 1 {
      assert Prod(start, start) == start * Prod(start + 1, start);
      assert ScaledTerms(start, end) == Prod(start + 1, start) + ScaledTerms(end, end);
      fact, sum := start, 1;
    } else {
      fact, sum := 1, 0;
    }
  }
}
