/** Facts about division by a variable divisor, which the verifier does not find by itself. */
module Arith {

  lemma DivMod(q: int, r: int, d: int)
    requires 0 <= r < d
    ensures (q * d + r) / d == q
    ensures (q * d + r) % d == r
  {
    var n := q * d + r;
    var p, s := n / d, n % d;
    assert n == p * d + s;
    if p != q {
      ProductGap(p - q, d);
      Distribute(p, q, d);
    }
  }

  lemma ProductGap(k: int, d: int)
    requires k != 0 && d >= 0
    ensures k >= 1 ==> k * d >= d
    ensures k <= -1 ==> k * d <= -d
  {
    if k >= 1 {
      assert (k - 1) * d >= 0;
    } else {
      assert (-1 - k) * d >= 0;
    }
  }

  lemma Distribute(a: int, b: int, d: int)
    ensures (a - b) * d == a * d - b * d
    ensures (a + b) * d == a * d + b * d
  {
  }

  lemma DivStep(n: int, d: int)
    requires d > 0
    ensures (n + d) / d == n / d + 1
    ensures (n + d) % d == n % d
  {
    var q, r := n / d, n % d;
    Distribute(q, 1, d);
    assert n + d == (q + 1) * d + r;
    DivMod(q + 1, r, d);
  }

  lemma Floor(n: int, d: int)
    requires n >= 0 && d > 0
    ensures n / d >= 0
    ensures 0 <= (n / d) * d <= n < (n / d) * d + d
  {
    assert n == (n / d) * d + n % d;
    if n / d < 0 {
      ProductGap(n / d, d);
    }
    assert (n / d) * d >= 0;
  }

  lemma DivAtLeast(n: int, d: int, q: int)
    requires n >= 0 && d > 0 && q * d <= n
    ensures n / d >= q
  {
    Floor(n, d);
    Distribute(q, n / d, d);
    if n / d < q {
      ProductGap(q - n / d, d);
    }
  }

  lemma FloorMonotone(n: int, m: int, d: int)
    requires 0 <= n <= m && d > 0
    ensures n / d <= m / d
  {
    Floor(n, d);
    DivAtLeast(m, d, n / d);
  }

  lemma FloorDivisor(n: int, d: int, e: int)
    requires n >= 0 && 0 < d <= e
    ensures n / e <= n / d
  {
    var q := n / e;
    Floor(n, e);
    Distribute(e, d, q);
    assert (e - d) * q >= 0;
    DivAtLeast(n, d, q);
  }

  /** Fewer than the rounded-up quotient is too few. */
  lemma CeilAbove(n: int, length: int, d: int)
    requires length >= 0 && d > 0 && n < (length + d - 1) / d
    ensures n * d < length
  {
    var q := (length + d - 1) / d;
    Floor(length + d - 1, d);
    Distribute(q, n, d);
    ProductGap(q - n, d);
  }
}
