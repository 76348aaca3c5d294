/** Facts about Euclidean division that the layout and the wrap-around
    counters rely on. */
module Arith {

  /** `q` and `r` are the quotient and remainder of `n` by `m` whenever
      `n == q * m + r` with `0 <= r < m`. */
  lemma DivModUnique(n: int, m: int, q: int, r: int)
    requires m > 0 && 0 <= r < m && n == q * m + r
    ensures n / m == q && n % m == r
  {
    var q', r' := n / m, n % m;
    assert (q - q') * m == r' - r;
    SmallMultiple(q - q', m);
  }

  /** The only multiple of `m` strictly between `-m` and `m` is zero. */
  lemma SmallMultiple(k: int, m: int)
    requires m > 0 && -m < k * m < m
    ensures k == 0
  {
    if k > 0 {
      MulAtLeast(k, m);
    } else if k < 0 {
      MulAtLeast(-k, m);
    }
  }

  lemma MulAtLeast(k: int, m: int)
    requires k >= 1 && m > 0
    ensures k * m >= m
  {
  }

  /** Stepping a remainder by one is stepping the number by one. */
  lemma ModStep(a: int, n: int)
    requires n > 0
    ensures (a % n + 1) % n == (a + 1) % n
  {
    var q, m := a / n, a % n;
    if m + 1 < n {
      DivModUnique(a + 1, n, q, m + 1);
      DivModUnique(m + 1, n, 0, m + 1);
    } else {
      DivModUnique(a + 1, n, q + 1, 0);
      DivModUnique(m + 1, n, 1, 0);
    }
  }

  /** `((a % n) + b) % n == (a + b) % n`. */
  lemma ModShift(a: int, n: int, b: nat)
    requires n > 0
    ensures (a % n + b) % n == (a + b) % n
  {
    var q := a / n;
    DivModUnique(a + b, n, q + (a % n + b) / n, (a % n + b) % n);
  }
}
