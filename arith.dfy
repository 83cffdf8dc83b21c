// Facts about Euclidean division that the index arithmetic of the model needs.
// For a positive divisor, Dafny's `/` and `%` agree with Python's `//` and `%`,
// which is what the source uses.

module Arith {

  lemma {:induction false} MulAtLeast(d: int, n: int)
    requires d >= 1 && n > 0
    ensures d * n >= n
    decreases d
  {
    if d > 1 {
      MulAtLeast(d - 1, n);
      assert d * n == (d - 1) * n + n;
    }
  }

  /** Quotient and remainder are the only pair with 0 <= r < n and x == q * n + r. */
  lemma DivModUnique(x: int, n: int, q: int, r: int)
    requires n > 0 && 0 <= r < n && x == q * n + r
    ensures x / n == q && x % n == r
  {
    var q', r' := x / n, x % n;
    assert x == q' * n + r';
    var d := q - q';
    assert d * n == q * n - q' * n;
    assert d * n == r' - r;
    if d >= 1 {
      MulAtLeast(d, n);
    } else if d <= -1 {
      MulAtLeast(-d, n);
    }
  }

  /** The remainders the circular index arithmetic meets. */
  lemma ModFacts(x: int, n: int)
    requires n > 0
    ensures 0 <= x < n ==> x % n == x
    ensures n <= x < 2 * n ==> x % n == x - n
    ensures -n <= x < 0 ==> x % n == x + n
    ensures (x + n) % n == x % n
  {
    if 0 <= x < n { DivModUnique(x, n, 0, x); }
    if n <= x < 2 * n { DivModUnique(x, n, 1, x - n); }
    if -n <= x < 0 { DivModUnique(x, n, -1, x + n); }
    DivModUnique(x + n, n, x / n + 1, x % n);
  }
}
