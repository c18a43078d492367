/** Bits of a byte, most significant first, and bytes built by setting them. */
module TileBits {
  import opened Arith
  import opened Bytes

  function Pow2(n: nat): (p: nat)
    ensures p >= 1
  {
    if n == 0 then 1 else 2 * Pow2(n - 1)
  }

  lemma {:induction false} Pow2Sum(m: nat, n: nat)
    ensures Pow2(m + n) == Pow2(m) * Pow2(n)
  {
    if m > 0 {
      Pow2Sum(m - 1, n);
      Double(Pow2(m - 1), Pow2(n));
    }
  }

  lemma Double(a: int, b: int)
    ensures (2 * a) * b == 2 * (a * b)
  {
  }

  /** (b >> (7 - k)) & 1 */
  predicate Bit(b: byte, k: nat)
    requires k < 8
  {
    b / Pow2(7 - k) % 2 == 1
  }

  /** b |= 1 << (7 - k) */
  function SetBit(b: byte, k: nat): byte
    requires k < 8
  {
    if Bit(b, k) then b else BitRoom(b, k); b + Pow2(7 - k)
  }

  lemma Halves(x: int, p: int)
    requires x >= 0 && p > 0
    ensures x / (2 * p) == x / p / 2
  {
    var h := x / p / 2;
    Floor(x, p);
    HalfProduct(x / p, h, p);
    DivMod(h, x - h * (2 * p), 2 * p);
  }

  lemma HalfProduct(q: int, h: int, p: int)
    requires 2 * h <= q <= 2 * h + 1 && p > 0
    ensures h * (2 * p) <= q * p <= h * (2 * p) + p
  {
    Double(h, p);
    Distribute(2 * h, 1, p);
    assert h * (2 * p) == 2 * (h * p);
  }

  /** Below a clear bit of weight w there is room for w. */
  lemma ClearBit(x: int, w: int)
    requires x >= 0 && w > 0 && x / w % 2 == 0
    ensures (x + w) / (2 * w) == x / (2 * w)
    ensures (x + w) / w == x / w + 1
  {
    DivStep(x, w);
    Halves(x, w);
    Halves(x + w, w);
  }

  lemma {:induction false} HigherSame(x: int, y: int, w: int, n: nat)
    requires x >= 0 && y >= 0 && w > 0 && x / (2 * w) == y / (2 * w)
    ensures x / (2 * w * Pow2(n)) == y / (2 * w * Pow2(n))
  {
    if n > 0 {
      HigherSame(x, y, w, n - 1);
      var p := 2 * w * Pow2(n - 1);
      assert p >= 1;
      Halves(x, p);
      Halves(y, p);
      assert 2 * p == 2 * w * Pow2(n);
    }
  }

  lemma {:induction false} AddMultiple(x: int, d: int, m: nat)
    requires x >= 0 && d > 0
    ensures (x + m * d) / d == x / d + m
  {
    if m > 0 {
      AddMultiple(x, d, m - 1);
      Distribute(m - 1, 1, d);
      DivStep(x + (m - 1) * d, d);
    }
  }

  lemma BitRoom(b: byte, k: nat)
    requires k < 8 && !Bit(b, k)
    ensures b + Pow2(7 - k) < 256
  {
    var w := Pow2(7 - k);
    ClearBit(b, w);
    HigherSame(b, b + w, w, k);
    Pow2Sum(8 - k, k);
    assert 2 * w == Pow2(8 - k);
    assert Pow2(8) == 256;
    Floor(b + w, 256);
  }

  lemma HigherBit(b: nat, k: nat, j: nat)
    requires j < k < 8 && b / Pow2(7 - k) % 2 == 0
    ensures (b + Pow2(7 - k)) / Pow2(7 - j) == b / Pow2(7 - j)
  {
    var w := Pow2(7 - k);
    ClearBit(b, w);
    HigherSame(b, b + w, w, k - 1 - j);
    Pow2Sum(8 - k, k - 1 - j);
    assert 2 * w == Pow2(8 - k);
  }

  lemma LowerBit(b: nat, k: nat, j: nat)
    requires k < j < 8
    ensures (b + Pow2(7 - k)) / Pow2(7 - j) % 2 == b / Pow2(7 - j) % 2
  {
    Pow2Sum(j - k, 7 - j);
    AddMultiple(b, Pow2(7 - j), Pow2(j - k));
    var half := Pow2(j - k - 1);
    assert Pow2(j - k) == 2 * half;
    Even(b / Pow2(7 - j), half);
  }

  lemma Even(x: int, half: int)
    ensures (x + 2 * half) % 2 == x % 2
  {
  }

  lemma SameBitSet(b: nat, w: nat)
    requires w > 0 && b / w % 2 == 0
    ensures (b + w) / w % 2 == 1
  {
    ClearBit(b, w);
  }

  /** Setting a bit sets that bit and no other. */
  lemma SetBitSets(b: byte, k: nat, j: nat)
    requires k < 8 && j < 8
    ensures Bit(SetBit(b, k), j) == (j == k || Bit(b, j))
  {
    hide Pow2;
    if !Bit(b, k) {
      ZeroBit(b, k);
      if j < k {
        HigherBit(b, k, j);
      } else if j > k {
        LowerBit(b, k, j);
      } else {
        SameBitSet(b, Pow2(7 - k));
      }
    }
  }

  lemma ZeroBit(b: byte, k: nat)
    requires k < 8 && !Bit(b, k)
    ensures Pow2(7 - k) > 0 && b / Pow2(7 - k) % 2 == 0
  {
  }

  lemma {:induction false} ZeroHasNoBit(k: nat)
    requires k < 8
    ensures !Bit(0, k)
  {
    DivMod(0, 0, Pow2(7 - k));
  }

  lemma {:induction false} SameTop(a: byte, b: byte, n: nat)
    requires n <= 8 && forall k: nat :: k < n ==> Bit(a, k) == Bit(b, k)
    ensures a / Pow2(8 - n) == b / Pow2(8 - n)
  {
    if n == 0 {
      assert Pow2(8) == 256;
      Floor(a, 256);
      Floor(b, 256);
    } else {
      SameTop(a, b, n - 1);
      var p := Pow2(8 - n);
      Halves(a, p);
      Halves(b, p);
      assert Bit(a, n - 1) == Bit(b, n - 1);
      assert Pow2(9 - n) == 2 * p;
    }
  }

  /** A byte is determined by its bits. */
  lemma BitsDetermine(a: byte, b: byte)
    requires forall k: nat :: k < 8 ==> Bit(a, k) == Bit(b, k)
    ensures a == b
  {
    SameTop(a, b, 8);
  }

  // Byte strings as bit strings

  /** Bit k of a byte string; false after its end. */
  predicate BitAt(s: bytes, k: nat) {
    k / 8 < |s| && Bit(s[k / 8], k % 8)
  }

  lemma SameBits(s: bytes, t: bytes)
    requires |s| == |t| && forall k: nat :: k < 8 * |s| ==> BitAt(s, k) == BitAt(t, k)
    ensures s == t
  {
    hide Bit;
    forall j | 0 <= j < |s|
      ensures s[j] == t[j]
    {
      forall k: nat | k < 8
        ensures Bit(s[j], k) == Bit(t[j], k)
      {
        var at: nat := 8 * j + k;
        assert at / 8 == j && at % 8 == k;
        assert BitAt(s, at) == BitAt(t, at);
      }
      BitsDetermine(s[j], t[j]);
    }
  }

  lemma ZerosHaveNoBit(n: nat, k: nat)
    ensures !BitAt(Zeros(n), k)
  {
    ZeroHasNoBit(k % 8);
  }

  lemma PaddedBits(s: bytes, n: nat, k: nat)
    ensures BitAt(s + Zeros(n), k) == BitAt(s, k)
  {
    hide Bit;
    if k / 8 >= |s| {
      ZeroHasNoBit(k % 8);
    }
  }
}
