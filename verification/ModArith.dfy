/** Congruences of integers modulo a positive number, used wherever the source
    works in the prime field of the pairing or in wrapping machine words. */
module ModArith {

  /** Two integers with the same residue. */
  predicate Cong(x: int, y: int, p: int)
    requires p > 0
  {
    x % p == y % p
  }

  /** Quotient and remainder are determined by the division equation. */
  lemma ModUnique(x: int, q: int, r: int, p: int)
    requires 0 <= r < p
    requires x == q * p + r
    ensures x % p == r
  {
    var d := x / p - q;
    Distribute(x / p, -q, p);
    assert d * p == r - x % p;
    assert d >= 1 ==> d * p >= p;
    assert d <= -1 ==> d * p <= -p;
  }

  lemma ModShift(x: int, k: int, p: int)
    requires p > 0
    ensures (x + k * p) % p == x % p
  {
    Distribute(x / p, k, p);
    ModUnique(x + k * p, x / p + k, x % p, p);
  }

  lemma SmallResidue(x: int, p: int)
    requires 0 <= x < p
    ensures x % p == x
  {
    ModUnique(x, 0, x, p);
  }

  /** Every integer differs from its residue by a multiple of the modulus. */
  lemma ResidueCong(x: int, p: int)
    requires p > 0
    ensures Cong(x % p, x, p)
  {
    ModShift(x % p, x / p, p);
  }

  lemma Distribute(x: int, y: int, z: int)
    ensures (x + y) * z == x * z + y * z
    ensures z * (x + y) == z * x + z * y
  {
  }

  lemma Associate(x: int, y: int, z: int)
    ensures (x * y) * z == x * (y * z)
    ensures (x * y) * z == (x * z) * y
  {
  }

  /** Congruent numbers differ by a multiple of the modulus. */
  lemma Difference(x: int, y: int, p: int) returns (k: int)
    requires p > 0 && Cong(x, y, p)
    ensures x == y + k * p
  {
    k := x / p - y / p;
    Distribute(x / p, -(y / p), p);
  }

  lemma ByMultiple(x: int, y: int, k: int, p: int)
    requires p > 0 && x == y + k * p
    ensures Cong(x, y, p)
  {
    ModShift(y, k, p);
  }

  lemma AddCong(x: int, x': int, y: int, y': int, p: int)
    requires p > 0
    requires Cong(x, x', p) && Cong(y, y', p)
    ensures Cong(x + y, x' + y', p) && Cong(x - y, x' - y', p)
  {
    var k := Difference(x, x', p);
    var l := Difference(y, y', p);
    Distribute(k, l, p);
    Distribute(k, -l, p);
    ByMultiple(x + y, x' + y', k + l, p);
    ByMultiple(x - y, x' - y', k - l, p);
  }

  lemma ScaleCong(x: int, x': int, z: int, p: int)
    requires p > 0 && Cong(x, x', p)
    ensures Cong(x * z, x' * z, p) && Cong(z * x, z * x', p)
  {
    var k := Difference(x, x', p);
    Distribute(x', k * p, z);
    Associate(k, p, z);
    ByMultiple(x * z, x' * z, k * z, p);
  }

  lemma MulCong(x: int, x': int, y: int, y': int, p: int)
    requires p > 0
    requires Cong(x, x', p) && Cong(y, y', p)
    ensures Cong(x * y, x' * y', p)
  {
    ScaleCong(x, x', y, p);
    ScaleCong(y, y', x', p);
  }

  // ---------------------------------------------------------------- prime moduli

  ghost predicate Prime(p: int) {
    p > 1 && forall d :: 1 < d < p ==> p % d != 0
  }

  lemma SumOfMultiples(x: int, y: int, k: int, p: int)
    requires p > 0 && x % p == 0 && y % p == 0
    ensures (x - k * y) % p == 0
  {
    ScaleCong(y, 0, k, p);
    AddCong(x, 0, k * y, 0, p);
  }

  /** Euclid's lemma for a factor below the prime, by descent on that factor. */
  lemma {:induction false} PrimeDividesSmall(p: int, a: int, b: int)
    requires Prime(p) && 0 < a < p && (a * b) % p == 0
    ensures b % p == 0
    decreases a
  {
    if a > 1 {
      var q, r := p / a, p % a;
      assert r != 0 && p == q * a + r;
      Distribute(q * a, r, b);
      Associate(q, a, b);
      assert r * b == p * b - q * (a * b);
      ModShift(0, b, p);
      SumOfMultiples(b * p, a * b, q, p);
      PrimeDividesSmall(p, r, b);
    }
  }

  /** A prime that divides a product divides one of the factors. */
  lemma PrimeDivides(p: int, a: int, b: int)
    requires Prime(p)
    ensures (a * b) % p == 0 <==> a % p == 0 || b % p == 0
  {
    if a % p == 0 {
      ScaleCong(a, 0, b, p);
    } else if b % p == 0 {
      ScaleCong(b, 0, a, p);
    } else if (a * b) % p == 0 {
      ResidueCong(a, p);
      ScaleCong(a % p, a, b, p);
      PrimeDividesSmall(p, a % p, b);
    }
  }

  /** Congruence as divisibility of the difference. */
  lemma CongDifference(x: int, y: int, p: int)
    requires p > 0
    ensures Cong(x, y, p) <==> (x - y) % p == 0
  {
    if Cong(x, y, p) {
      AddCong(x, y, y, y, p);
    }
    if (x - y) % p == 0 {
      AddCong(x - y, 0, y, y, p);
    }
  }

  lemma Subtract(x: int, y: int, z: int)
    ensures (x - y) * z == x * z - y * z
  {
  }

  /** Cancelling a factor that the prime does not divide. */
  lemma CancelFactor(x: int, y: int, z: int, p: int)
    requires Prime(p) && z % p != 0
    ensures Cong(x * z, y * z, p) <==> Cong(x, y, p)
  {
    Subtract(x, y, z);
    CongDifference(x * z, y * z, p);
    CongDifference(x, y, p);
    PrimeDivides(p, x - y, z);
  }
}
