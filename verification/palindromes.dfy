/**
  Counting the palindromic substrings of a text by expanding around every
  centre: the odd centres `(i, i)` and the even centres `(i, i + 1)`. A
  substring is named by its first and last index, so the count is the number
  of index pairs `s <= e` whose substring reads the same backwards.

  The two programs share the algorithm and differ in two places: the
  single-threaded expansion guards with `left >= 0`, which always holds for an
  unsigned `size_t` (only the `left == 0` break stops the walk at the front),
  while the threaded one guards with `left < n`; and the single-threaded count
  takes the length from `strlen`, while the threaded one is given it.
 */
module Palindromes {

  /** The character that ends a C string. */
  const NUL: char := '\0'

  /** A `const char*`: null, or the memory it points at. */
  datatype CString = Null | Chars(buf: seq<char>)

  /** `strlen`: the index of the first NUL. */
  function Strlen(buf: seq<char>): (n: nat)
    requires NUL in buf
    ensures n < |buf| && buf[n] == NUL
    ensures forall j :: 0 <= j < n ==> buf[j] != NUL
  {
    if buf[0] == NUL then 0
    else
      var n' := Strlen(buf[1..]);
      assert forall j :: 1 <= j < n' + 1 ==> buf[j] == buf[1..][j - 1];
      n' + 1
  }

  predicate IsPalindrome(w: seq<char>) {
    forall k :: 0 <= k < |w| ==> w[k] == w[|w| - 1 - k]
  }

  /** Step `k` of an expansion from `(left, right)` is in bounds and sees equal characters. */
  predicate MatchAt(str: seq<char>, n: nat, left: int, right: int, k: int)
    requires n <= |str|
  {
    0 <= left - k < |str| && 0 <= right + k < n && str[left - k] == str[right + k]
  }

  /** The first `c` steps of an expansion from `(left, right)` all match. */
  predicate Mirrors(str: seq<char>, n: nat, left: int, right: int, c: nat)
    requires n <= |str|
  {
    forall k :: 0 <= k < c ==> MatchAt(str, n, left, right, k)
  }

  /** Fewer steps of a matching expansion match too. */
  lemma MirrorsDownward(str: seq<char>, n: nat, left: int, right: int, c: nat, d: nat)
    requires n <= |str|
    ensures d <= c && Mirrors(str, n, left, right, c) ==> Mirrors(str, n, left, right, d)
  {
  }

  /** An expansion of `c + 1` steps is a first match followed by `c` steps one place further out. */
  lemma MirrorsShift(str: seq<char>, n: nat, left: int, right: int, c: nat)
    requires n <= |str|
    ensures Mirrors(str, n, left, right, c + 1)
        <==> MatchAt(str, n, left, right, 0) && Mirrors(str, n, left - 1, right + 1, c)
  {
    var left', right' := left - 1, right + 1;
    if Mirrors(str, n, left, right, c + 1) {
      forall k | 0 <= k < c ensures MatchAt(str, n, left', right', k) {
        assert MatchAt(str, n, left, right, k + 1);
      }
    }
    if MatchAt(str, n, left, right, 0) && Mirrors(str, n, left', right', c) {
      forall k | 0 <= k < c + 1 ensures MatchAt(str, n, left, right, k) {
        if k > 0 {
          assert MatchAt(str, n, left', right', k - 1);
        }
      }
    }
  }

  /**
    `countPalindromesFromCenter` of the single-threaded program. Reading
    `str[left]` needs `left` inside the buffer whenever `right < n`; the
    decrement of `left` never wraps, because the walk stops at `left == 0`.
    The count is the length of the longest run of matching steps.
   */
  function ExpandSingle(str: seq<char>, n: nat, left: nat, right: nat): (count: nat)
    requires n <= |str| && (right < n ==> left < |str|)
    ensures Mirrors(str, n, left, right, count) && !Mirrors(str, n, left, right, count + 1)
    ensures count == 0 <==> right >= n || str[left] != str[right]
    ensures count <= left + 1 && (count > 0 ==> right + count <= n)
    decreases left
  {
    if right < n && str[left] == str[right] then
      if left == 0 then
        assert !MatchAt(str, n, left, right, 1);
        1
      else
        var c := ExpandSingle(str, n, left - 1, right + 1);
        MirrorsShift(str, n, left, right, c);
        MirrorsShift(str, n, left, right, c + 1);
        c + 1
    else
      assert !MatchAt(str, n, left, right, 0);
      0
  }

  /**
    `countPalindromesFromCenter` of the threaded program: the same walk with
    the guard `left < n`, so a start at or beyond `n` counts nothing.
   */
  function ExpandMulti(str: seq<char>, n: nat, left: nat, right: nat): (count: nat)
    requires n <= |str|
    ensures left >= n ==> count == 0
    ensures left < n ==> Mirrors(str, n, left, right, count) && !Mirrors(str, n, left, right, count + 1)
    decreases left
  {
    if left < n && right < n && str[left] == str[right] then
      if left == 0 then
        assert !MatchAt(str, n, left, right, 1);
        1
      else
        var c := ExpandMulti(str, n, left - 1, right + 1);
        MirrorsShift(str, n, left, right, c);
        MirrorsShift(str, n, left, right, c + 1);
        c + 1
    else
      assert left < n ==> !MatchAt(str, n, left, right, 0);
      0
  }

  /** Two longest runs of matching steps from the same start have the same length. */
  lemma RadiusUnique(str: seq<char>, n: nat, left: int, right: int, c1: nat, c2: nat)
    requires n <= |str|
    requires Mirrors(str, n, left, right, c1) && !Mirrors(str, n, left, right, c1 + 1)
    requires Mirrors(str, n, left, right, c2) && !Mirrors(str, n, left, right, c2 + 1)
    ensures c1 == c2
  {
    MirrorsDownward(str, n, left, right, c2, c1 + 1);
    MirrorsDownward(str, n, left, right, c1, c2 + 1);
  }

  /** For a start inside the text the two expansions count the same. */
  lemma MultiAgreesWithSingle(str: seq<char>, n: nat, left: nat, right: nat)
    requires n <= |str| && left < n
    ensures ExpandMulti(str, n, left, right) == ExpandSingle(str, n, left, right)
  {
    RadiusUnique(str, n, left, right, ExpandMulti(str, n, left, right), ExpandSingle(str, n, left, right));
  }

  /** The palindromic substrings of `str[..n]`, as (first, last) index pairs. */
  function Palindromes(str: seq<char>, n: nat): set<(int, int)>
    requires n <= |str|
  {
    set s, e | 0 <= s <= e < n && IsPalindrome(str[s..e + 1]) :: (s, e)
  }

  /** Those whose first and last index add up to `m`: the ones centred at `m / 2`. */
  function PalindromesAt(str: seq<char>, n: nat, m: int): set<(int, int)>
    requires n <= |str|
  {
    set p | p in Palindromes(str, n) && p.0 + p.1 == m
  }

  /** Those whose first and last index add up to less than `m`. */
  function PalindromesBelow(str: seq<char>, n: nat, m: int): set<(int, int)>
    requires n <= |str|
  {
    set p | p in Palindromes(str, n) && p.0 + p.1 < m
  }

  /** The substring `k` places out from `(left, right)` on each side. */
  function Widen(left: int, right: int, k: int): (int, int) {
    (left - k, right + k)
  }

  /** The substrings reached by the first `c` steps of an expansion from `(left, right)`. */
  function Radii(left: int, right: int, c: nat): set<(int, int)> {
    set k | 0 <= k < c :: Widen(left, right, k)
  }

  lemma {:induction false} RadiiCount(left: int, right: int, c: nat)
    ensures |Radii(left, right, c)| == c
  {
    if c > 0 {
      RadiiCount(left, right, c - 1);
      var p := Widen(left, right, c - 1);
      assert Radii(left, right, c) == Radii(left, right, c - 1) + {p};
      assert p !in Radii(left, right, c - 1);
    }
  }

  /**
    Around an odd or even centre `(l, r)`, the substring `k` places out on
    each side is a palindrome exactly when the first `k + 1` steps of the
    expansion match.
   */
  lemma PalindromeIffMirrors(str: seq<char>, n: nat, l: int, r: int, k: nat, s: int, e: int)
    requires n <= |str| && l <= r <= l + 1 && s == l - k && e == r + k && 0 <= s && e < n
    ensures IsPalindrome(str[s..e + 1]) <==> Mirrors(str, n, l, r, k + 1)
  {
    var w := str[s..e + 1];
    if IsPalindrome(w) {
      forall j | 0 <= j < k + 1 ensures MatchAt(str, n, l, r, j) {
        assert w[k - j] == w[|w| - 1 - (k - j)];
      }
    }
    if Mirrors(str, n, l, r, k + 1) {
      forall p | 0 <= p < |w| ensures w[p] == w[|w| - 1 - p] {
        if p <= k {
          assert MatchAt(str, n, l, r, k - p);
        } else {
          assert MatchAt(str, n, l, r, k - (|w| - 1 - p));
        }
      }
    }
  }

  /** A palindrome centred at `(l, r)` is one the expansion from there reaches. */
  lemma AtIsReached(str: seq<char>, n: nat, l: nat, r: nat, pr: (int, int))
    requires n <= |str| && l <= r <= l + 1 && l < n
    requires pr in PalindromesAt(str, n, l + r)
    ensures pr in Radii(l, r, ExpandSingle(str, n, l, r))
  {
    var c := ExpandSingle(str, n, l, r);
    var (s, e) := pr;
    assert pr in Palindromes(str, n) && s + e == l + r;
    assert 0 <= s <= l && e < n;
    var k: nat := l - s;
    PalindromeIffMirrors(str, n, l, r, k, s, e);
    MirrorsDownward(str, n, l, r, k + 1, c + 1);
    assert pr == Widen(l, r, k);
    RadiiMember(l, r, c, k);
  }

  lemma RadiiMember(left: int, right: int, c: nat, k: nat)
    requires k < c
    ensures Widen(left, right, k) in Radii(left, right, c)
  {
  }

  /** Every substring the expansion from `(l, r)` reaches is a palindrome centred there. */
  lemma ReachedIsAt(str: seq<char>, n: nat, l: nat, r: nat, k: nat)
    requires n <= |str| && l <= r <= l + 1 && l < n
    requires k < ExpandSingle(str, n, l, r)
    ensures Widen(l, r, k) in PalindromesAt(str, n, l + r)
  {
    var c := ExpandSingle(str, n, l, r);
    assert MatchAt(str, n, l, r, k);
    MirrorsDownward(str, n, l, r, c, k + 1);
    var s, e := l - k, r + k;
    PalindromeIffMirrors(str, n, l, r, k, s, e);
    assert (s, e) in Palindromes(str, n);
  }

  /** The palindromes centred at `(l, r)` are the substrings the expansion from there counts. */
  lemma CentreSet(str: seq<char>, n: nat, l: nat, r: nat, m: int)
    requires n <= |str| && l <= r <= l + 1 && l < n && m == l + r
    ensures |PalindromesAt(str, n, m)| == ExpandSingle(str, n, l, r)
  {
    var c := ExpandSingle(str, n, l, r);
    forall pr | pr in PalindromesAt(str, n, l + r) ensures pr in Radii(l, r, c) {
      AtIsReached(str, n, l, r, pr);
    }
    forall k | 0 <= k < c ensures Widen(l, r, k) in PalindromesAt(str, n, l + r) {
      ReachedIsAt(str, n, l, r, k);
    }
    assert PalindromesAt(str, n, l + r) == Radii(l, r, c);
    RadiiCount(l, r, c);
  }

  /** The number of palindromes the two expansions from centre `i` count. */
  function CentreCount(str: seq<char>, n: nat, i: nat): nat
    requires n <= |str| && i < n
  {
    ExpandSingle(str, n, i, i) + ExpandSingle(str, n, i, i + 1)
  }

  /** The total over the centres `0..i-1`, in the order the loop visits them. */
  function CentreSum(str: seq<char>, n: nat, i: nat): nat
    requires n <= |str| && i <= n
  {
    if i == 0 then 0 else CentreSum(str, n, i - 1) + CentreCount(str, n, i - 1)
  }

  lemma BelowStep(str: seq<char>, n: nat, m: int, m': int)
    requires n <= |str| && m' == m + 1
    ensures |PalindromesBelow(str, n, m')| == |PalindromesBelow(str, n, m)| + |PalindromesAt(str, n, m)|
  {
    assert PalindromesBelow(str, n, m') == PalindromesBelow(str, n, m) + PalindromesAt(str, n, m);
    assert PalindromesBelow(str, n, m) * PalindromesAt(str, n, m) == {};
  }

  /** Centre `j` accounts for the palindromes with index sum `2j` or `2j + 1`. */
  lemma CentreStep(str: seq<char>, n: nat, j: nat, m0: int, m2: int)
    requires n <= |str| && j < n && m0 == 2 * j && m2 == m0 + 2
    ensures |PalindromesBelow(str, n, m2)| == |PalindromesBelow(str, n, m0)| + CentreCount(str, n, j)
  {
    var m1 := m0 + 1;
    BelowStep(str, n, m0, m1);
    BelowStep(str, n, m1, m2);
    CentreSet(str, n, j, j, m0);
    CentreSet(str, n, j, j + 1, m1);
  }

  lemma NoneBelowZero(str: seq<char>, n: nat)
    requires n <= |str|
    ensures |PalindromesBelow(str, n, 0)| == 0
  {
    assert PalindromesBelow(str, n, 0) == {};
  }

  /** One more centre adds its count to both sides. */
  lemma CentreSumStep(str: seq<char>, n: nat, i: nat)
    requires n <= |str| && 0 < i <= n
    requires CentreSum(str, n, i - 1) == |PalindromesBelow(str, n, 2 * (i - 1))|
    ensures CentreSum(str, n, i) == |PalindromesBelow(str, n, 2 * i)|
  {
    var j := i - 1;
    assert CentreSum(str, n, i) == CentreSum(str, n, j) + CentreCount(str, n, j);
    CentreStep(str, n, j, 2 * j, 2 * i);
  }

  /** The centres below `i` count exactly the palindromes whose index sum is below `2i`. */
  lemma {:induction false} CentreSumCountsBelow(str: seq<char>, n: nat, i: nat)
    requires n <= |str| && i <= n
    ensures CentreSum(str, n, i) == |PalindromesBelow(str, n, 2 * i)|
  {
    if i == 0 {
      NoneBelowZero(str, n);
    } else {
      CentreSumCountsBelow(str, n, i - 1);
      CentreSumStep(str, n, i);
    }
  }

  /** Summing the expansions over every centre counts every palindromic substring once. */
  lemma CentreSumCountsPalindromes(str: seq<char>, n: nat)
    requires n <= |str|
    ensures CentreSum(str, n, n) == |Palindromes(str, n)|
  {
    CentreSumCountsBelow(str, n, n);
    assert PalindromesBelow(str, n, 2 * n) == Palindromes(str, n);
  }

  /** All (first, last) index pairs of `str[..n]`. */
  function Spans(n: nat): set<(int, int)> {
    set s, e | 0 <= s <= e < n :: (s, e)
  }

  /** The spans that end at `e` and start before `c`. */
  function EndingAt(e: int, c: nat): set<(int, int)> {
    set s | 0 <= s < c :: (s, e)
  }

  lemma {:induction false} EndingAtCount(e: int, c: nat)
    ensures |EndingAt(e, c)| == c
  {
    if c > 0 {
      EndingAtCount(e, c - 1);
      assert EndingAt(e, c) == EndingAt(e, c - 1) + {(c - 1, e)};
      assert (c - 1, e) !in EndingAt(e, c - 1);
    }
  }

  /** The spans of `str[..n]` are those of `str[..n-1]` and the `n` that end at `n - 1`. */
  lemma SpansStep(n: nat)
    requires n > 0
    ensures |Spans(n)| == |Spans(n - 1)| + n
  {
    EndingAtCount(n - 1, n);
    assert Spans(n) == Spans(n - 1) + EndingAt(n - 1, n);
    assert Spans(n - 1) * EndingAt(n - 1, n) == {};
  }

  lemma {:induction false} SpansCount(n: nat)
    ensures 2 * |Spans(n)| == n * (n + 1)
  {
    if n > 0 {
      SpansCount(n - 1);
      SpansStep(n);
      var m := n - 1;
      assert m * (m + 1) + 2 * n == n * (n + 1);
    }
  }

  /** A text of length `n` has at most `n(n+1)/2` palindromic substrings. */
  lemma PalindromesBound(str: seq<char>, n: nat)
    requires n <= |str|
    ensures 2 * |Palindromes(str, n)| <= n * (n + 1)
  {
    SpansCount(n);
    var p, a := Palindromes(str, n), Spans(n);
    assert a == p + (a - p);
    assert p * (a - p) == {};
  }

  /**
    `countAllPalindromes(str)` of the single-threaded program: 0 for a null
    pointer, otherwise both expansions from every centre below `strlen(str)`.
   */
  method CountAllSingle(str: CString) returns (total: nat)
    requires str.Chars? ==> NUL in str.buf
    ensures str.Null? ==> total == 0
    ensures str.Chars? ==> total == |Palindromes(str.buf, Strlen(str.buf))|
    ensures str.Chars? ==> 2 * total <= Strlen(str.buf) * (Strlen(str.buf) + 1)
  {
    if str.Null? {
      return 0;
    }
    var s := str.buf;
    var n := Strlen(s);
    total := 0;
    for i := 0 to n
      invariant total == CentreSum(s, n, i)
    {
      total := total + ExpandSingle(s, n, i, i);
      total := total + ExpandSingle(s, n, i, i + 1);
    }
    CentreSumCountsPalindromes(s, n);
    PalindromesBound(s, n);
  }

  function Sum(xs: seq<nat>): nat {
    if |xs| == 0 then 0 else xs[0] + Sum(xs[1..])
  }

  /** Adding `d` to one entry adds `d` to the sum. */
  lemma {:induction false} SumBump(xs: seq<nat>, t: nat, d: nat)
    requires t < |xs|
    ensures Sum(xs[t := xs[t] + d]) == Sum(xs) + d
  {
    if t > 0 {
      SumBump(xs[1..], t - 1, d);
      assert xs[t := xs[t] + d][1..] == xs[1..][t - 1 := xs[t] + d];
    } else {
      assert xs[t := xs[t] + d][1..] == xs[1..];
    }
  }

  /**
    `countAllPalindromes(str, n, numThreads)` of the threaded program. The
    runtime deals the centres out to `numThreads` threads in an order of its
    choosing; `owner[i]` is the thread that runs centre `i`. Each thread adds
    into its own copy of the total, and the reduction sums the copies at the
    end. The text must be readable up to `n`.
   */
  method CountAllMulti(str: CString, n: nat, numThreads: int, owner: seq<int>) returns (total: nat)
    requires str.Chars? ==> n <= |str.buf|
    requires numThreads >= 1 && |owner| == n
    requires forall i :: 0 <= i < n ==> 0 <= owner[i] < numThreads
    ensures str.Null? ==> total == 0
    ensures str.Chars? ==> total == |Palindromes(str.buf, n)|
  {
    if str.Null? {
      return 0;
    }
    var s := str.buf;
    var partial: seq<nat> := seq(numThreads, _ => 0);
    assert Sum(partial) == 0 by {
      ZeroSum(partial);
    }
    for i := 0 to n
      invariant |partial| == numThreads
      invariant Sum(partial) == CentreSum(s, n, i)
    {
      partial := AddToThread(partial, owner[i], CentreCountMulti(s, n, i));
    }
    total := Sum(partial);
    CentreSumCountsPalindromes(s, n);
  }

  /** A thread adds `here` into its own copy of the total. */
  method AddToThread(partial: seq<nat>, t: int, here: nat) returns (partial': seq<nat>)
    requires 0 <= t < |partial|
    ensures |partial'| == |partial| && Sum(partial') == Sum(partial) + here
    ensures forall u :: 0 <= u < |partial| && u != t ==> partial'[u] == partial[u]
  {
    SumBump(partial, t, here);
    partial' := partial[t := partial[t] + here];
  }

  /** Both threaded expansions from centre `i`, which count what the single-threaded ones do. */
  function CentreCountMulti(str: seq<char>, n: nat, i: nat): (c: nat)
    requires n <= |str| && i < n
    ensures c == CentreCount(str, n, i)
  {
    MultiCentreCount(str, n, i);
    ExpandMulti(str, n, i, i) + ExpandMulti(str, n, i, i + 1)
  }

  /** Both threaded expansions from a centre inside the text count what the single-threaded ones do. */
  lemma MultiCentreCount(str: seq<char>, n: nat, i: nat)
    requires n <= |str| && i < n
    ensures ExpandMulti(str, n, i, i) + ExpandMulti(str, n, i, i + 1) == CentreCount(str, n, i)
  {
    MultiAgreesWithSingle(str, n, i, i);
    MultiAgreesWithSingle(str, n, i, i + 1);
  }

  lemma {:induction false} ZeroSum(xs: seq<nat>)
    requires forall j :: 0 <= j < |xs| ==> xs[j] == 0
    ensures Sum(xs) == 0
  {
    if |xs| > 0 {
      ZeroSum(xs[1..]);
    }
  }

  /**
    Given the length `strlen` would find, the threaded count equals the
    single-threaded one for every number of threads and every schedule.
   */
  method ThreadedAgreesWithSerial(buf: seq<char>, numThreads: int, owner: seq<int>)
    returns (serial: nat, threaded: nat)
    requires NUL in buf && numThreads >= 1 && |owner| == Strlen(buf)
    requires forall i :: 0 <= i < |owner| ==> 0 <= owner[i] < numThreads
    ensures serial == threaded
  {
    serial := CountAllSingle(Chars(buf));
    threaded := CountAllMulti(Chars(buf), Strlen(buf), numThreads, owner);
  }
}
