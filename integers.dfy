/** Swift's 64-bit `Int` and its truncating division and remainder, over Dafny's unbounded integers. */
module Integers {

  const IntMin: int := -0x8000_0000_0000_0000
  const IntMax: int := 0x7fff_ffff_ffff_ffff

  predicate IsInt(n: int) { IntMin <= n <= IntMax }

  /** Swift's `Int`. */
  type Int = n: int | IntMin <= n <= IntMax

  /** A positive multiple of `n` is at least `n`. */
  lemma {:induction false} MulAtLeast(k: int, n: int)
    requires k >= 1 && n > 0
    ensures k * n >= n
    decreases k
  {
    if k > 1 {
      MulAtLeast(k - 1, n);
      assert k * n == (k - 1) * n + n;
    }
  }

  /** Euclidean quotient and remainder are the only ones with `0 <= r < n`. */
  lemma DivModUnique(a: int, n: int, q: int, r: int)
    requires n > 0 && 0 <= r < n && a == q * n + r
    ensures a / n == q && a % n == r
  {
    var d, m := a / n, a % n;
    assert a == d * n + m;
    assert q * n - d * n == m - r;
    if q > d {
      assert (q - d) * n == q * n - d * n;
      MulAtLeast(q - d, n);
    } else if q < d {
      assert (d - q) * n == d * n - q * n;
      MulAtLeast(d - q, n);
    }
  }

  /**
   * Swift's `a % n` for a positive `n`: the remainder takes the sign of the
   * dividend and is smaller than `n` in magnitude.
   */
  function TruncRem(a: int, n: int): (r: int)
    requires n > 0
    ensures -n < r < n
    ensures a >= 0 ==> r >= 0
    ensures a <= 0 ==> r <= 0
  {
    if a >= 0 then a % n else -((-a) % n)
  }

  /** The truncating remainder differs from the dividend by a multiple of `n`. */
  lemma TruncRemCongruent(a: int, n: int)
    requires n > 0
    ensures (a - TruncRem(a, n)) % n == 0
  {
    if a >= 0 {
      DivModUnique(a - a % n, n, a / n, 0);
    } else {
      var m := -a;
      assert a - TruncRem(a, n) == -(m / n) * n;
      DivModUnique(a - TruncRem(a, n), n, -(m / n), 0);
    }
  }

  /** Negating the dividend keeps it a multiple of `n`, or not. */
  lemma NegatedMultiple(a: int, n: int)
    requires n > 0
    ensures (-a) % n == 0 <==> a % n == 0
  {
    if a % n == 0 {
      DivModUnique(-a, n, -(a / n), 0);
    }
    if (-a) % n == 0 {
      DivModUnique(a, n, -((-a) / n), 0);
    }
  }

  /** Euclidean division of a natural number brackets it between consecutive multiples. */
  lemma DivBracket(a: int, n: int)
    requires a >= 0 && n > 0
    ensures 0 <= a / n <= a && (a / n) * n <= a < (a / n) * n + n
  {
    var q, r := a / n, a % n;
    assert a == q * n + r && 0 <= r < n;
    MulNoSmaller(q, n);
  }

  /**
   * Swift's `Int(a / n)` for a positive `n`, i.e. division rounding toward
   * zero: `q * n` is the multiple of `n` next to `a` on the side of zero.
   */
  function TruncDiv(a: int, n: int): (q: int)
    requires n > 0
    ensures a >= 0 ==> 0 <= q <= a && q * n <= a < q * n + n
    ensures a < 0 ==> a <= q <= 0 && q * n - n < a <= q * n
    decreases if a < 0 then 1 else 0
  {
    if a >= 0 then
      DivBracket(a, n);
      a / n
    else
      var q := TruncDiv(-a, n);
      assert (-q) * n == -(q * n);
      -q
  }

  /** Multiplying a natural number by a positive one does not make it smaller. */
  lemma MulNoSmaller(k: int, n: int)
    requires k >= 0 && n >= 1
    ensures k * n >= k
  {
    if k > 0 { MulAtLeast(n, k); }
  }

  /** Multiples of `n` less than `n` apart have factors in the same order. */
  lemma MulOrder(p: int, q: int, n: int)
    requires n > 0 && p * n < q * n + n
    ensures p <= q
  {
    if p > q {
      assert (p - q) * n == p * n - q * n;
      MulAtLeast(p - q, n);
    }
  }

  /** Rounding toward zero keeps the order of the dividends. */
  lemma TruncDivMonotone(a: int, b: int, n: int)
    requires n > 0 && a <= b
    ensures TruncDiv(a, n) <= TruncDiv(b, n)
  {
    var qa, qb := TruncDiv(a, n), TruncDiv(b, n);
    if a >= 0 || b < 0 {
      MulOrder(qa, qb, n);
    }
  }

  /** For a natural dividend, `p` is at most the quotient exactly when `p * d` is at most the dividend. */
  lemma DivBound(w: int, d: int, p: int)
    requires w >= 0 && d > 0
    ensures p <= w / d <==> p * d <= w
  {
    var q, r := w / d, w % d;
    assert w == q * d + r && 0 <= r < d;
    if p <= q {
      if p < q { MulAtLeast(q - p, d); }
    } else {
      MulAtLeast(p - q, d);
    }
  }
}
