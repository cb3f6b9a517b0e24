/** Small facts about Euclidean division used by the rank and big-number proofs. */
module Arith {

  lemma MulAtLeast(m: int, k: int)
    requires m >= 1 && k >= 1
    ensures m * k >= m
  {
    assert m * k == m * (k - 1) + m;
    assert m * (k - 1) >= 0;
  }

  /** Quotient and remainder are determined by `d == m*q + s` with `0 <= s < m`. */
  lemma DivModUnique(d: int, m: int, q: int, s: int)
    requires m >= 1 && 0 <= s < m && d == m * q + s
    ensures d / m == q && d % m == s
  {
    var q', s' := d / m, d % m;
    assert d == m * q' + s';
    if q > q' {
      MulAtLeast(m, q - q');
    } else if q < q' {
      MulAtLeast(m, q' - q);
    }
  }

  /**
    Splitting the multiples of `p` by their residue modulo `2p`: `d` is a
    multiple of `p` exactly when `d` or `d - p` is a multiple of `2p`, and
    never both.
   */
  lemma SplitResidue(d: int, p: int)
    requires p >= 1
    ensures (d % p == 0) <==> (d % (2 * p) == 0 || (d - p) % (2 * p) == 0)
    ensures !(d % (2 * p) == 0 && (d - p) % (2 * p) == 0)
  {
    var q, s := d / (2 * p), d % (2 * p);
    assert d == (2 * p) * q + s;
    if s < p {
      DivModUnique(d, p, 2 * q, s);
      DivModUnique(d - p, 2 * p, q - 1, s + p);
    } else {
      DivModUnique(d, p, 2 * q + 1, s - p);
      DivModUnique(d - p, 2 * p, q, s - p);
    }
  }
}
