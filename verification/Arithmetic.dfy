/**
 Integer and real facts shared by the geohash and the codec models: powers of
 two, quotients of quotients, and how flooring commutes with integer division.
 */
module Arithmetic {

  function Pow2(k: nat): (p: nat)
    ensures p >= 1
  {
    if k == 0 then 1 else 2 * Pow2(k - 1)
  }

  /** `x >> k`. */
  function ShiftRight(x: nat, k: nat): nat {
    if k == 0 then x else ShiftRight(x / 2, k - 1)
  }

  lemma {:induction false} ShiftRightIsDiv(x: nat, k: nat)
    ensures ShiftRight(x, k) == x / Pow2(k)
  {
    if k > 0 {
      ShiftRightIsDiv(x / 2, k - 1);
      DivDiv(x, 2, Pow2(k - 1));
    }
  }

  lemma {:induction false} ShiftRightAdd(x: nat, a: nat, b: nat)
    ensures ShiftRight(x, a + b) == ShiftRight(ShiftRight(x, a), b)
  {
    if a > 0 {
      ShiftRightAdd(x / 2, a - 1, b);
    }
  }

  lemma {:induction false} Pow2Add(a: nat, b: nat)
    ensures Pow2(a + b) == Pow2(a) * Pow2(b)
  {
    if a > 0 {
      Pow2Add(a - 1, b);
      assert Pow2(a + b) == 2 * Pow2(a - 1 + b);
    }
  }

  lemma Pow2Values()
    ensures Pow2(1) == 2 && Pow2(2) == 4 && Pow2(5) == 32
    ensures Pow2(32) == 0x1_0000_0000
    ensures Pow2(64) == 0x1_0000_0000_0000_0000
  {
    assert Pow2(8) == 256;
    assert Pow2(16) == 65536 by { hide Pow2; Pow2Add(8, 8); }
    assert Pow2(32) == 0x1_0000_0000 by { hide Pow2; Pow2Add(16, 16); }
    assert Pow2(64) == 0x1_0000_0000_0000_0000 by { hide Pow2; Pow2Add(32, 32); }
  }

  /** The quotient is the only integer whose multiple brackets the dividend. */
  lemma DivUnique(x: int, d: int, q: int)
    requires d > 0
    requires q * d <= x < (q + 1) * d
    ensures x / d == q
  {
    var e := x / d;
    assert e * d <= x < e * d + d;
    if e < q {
      MulMonotone(e + 1, q, d);
    } else if e > q {
      MulMonotone(q + 1, e, d);
    }
  }

  lemma MulMonotone(a: int, b: int, d: int)
    requires a <= b && d >= 0
    ensures a * d <= b * d
  {
  }

  lemma ModUnique(x: int, d: int, q: int, r: int)
    requires d > 0 && 0 <= r < d
    requires x == q * d + r
    ensures x / d == q && x % d == r
  {
    assert (q + 1) * d == q * d + d;
    DivUnique(x, d, q);
  }

  lemma DivDiv(x: nat, a: nat, b: nat)
    requires a > 0 && b > 0
    ensures a * b > 0
    ensures x / (a * b) == (x / a) / b
  {
    var q := x / a;
    var e := q / b;
    assert x == q * a + x % a;
    assert q == e * b + q % b;
    assert e * (a * b) == (e * b) * a;
    assert (q - e * b) * a <= (b - 1) * a by { MulMonotone(q - e * b, b - 1, a); }
    assert (e + 1) * (a * b) == e * (a * b) + a * b;
    assert x == e * (a * b) + (q - e * b) * a + x % a by {
      assert q * a == (e * b) * a + (q - e * b) * a;
    }
    assert (b - 1) * a == a * b - a;
    DivUnique(x, a * b, e);
  }

  /** Flooring a scaled real and then dropping `k` of its steps is flooring at the coarser scale. */
  lemma FloorDiv(x: real, n: nat, k: nat)
    requires k > 0
    ensures (x * (n * k) as real).Floor / k == (x * n as real).Floor
  {
    var q, f := (x * n as real).Floor, (x * (n * k) as real).Floor;
    assert x * (n * k) as real == x * n as real * k as real by {
      CastProduct(n, k);
      Regroup(x, n as real, k as real);
    }
    ScaledBetween(x * n as real, q, q + 1, k);
    FloorBetween(x * (n * k) as real, q * k, (q + 1) * k);
    DivUnique(f, k, q);
  }

  lemma Regroup(a: real, b: real, c: real)
    ensures a * (b * c) == a * b * c
  {
  }

  lemma ScaledBetween(y: real, lo: int, hi: int, k: nat)
    requires k > 0 && lo as real <= y < hi as real
    ensures (lo * k) as real <= y * k as real < (hi * k) as real
  {
    RealMulMonotone(lo as real, y, k as real);
    RealMulStrict(y, hi as real, k as real);
    CastProduct(lo, k);
    CastProduct(hi, k);
  }

  lemma CastProduct(a: int, b: int)
    ensures (a * b) as real == a as real * b as real
  {
  }

  lemma FloorBetween(z: real, lo: int, hi: int)
    requires lo as real <= z < hi as real
    ensures lo <= z.Floor < hi
  {
  }

  lemma RealMulStrict(a: real, b: real, d: real)
    requires a < b && d > 0.0
    ensures a * d < b * d
  {
  }

  lemma RealMulMonotone(a: real, b: real, d: real)
    requires a <= b && d >= 0.0
    ensures a * d <= b * d
  {
  }

  /** A real lies in the half-open unit interval starting at integer `i` exactly when its floor is `i`. */
  lemma FloorUnique(x: real, i: int)
    ensures x.Floor == i <==> i as real <= x < i as real + 1.0
  {
  }

  lemma QuotientNonNegative(a: real, b: real)
    requires a >= 0.0 && b > 0.0
    ensures a / b >= 0.0
  {
  }
}
