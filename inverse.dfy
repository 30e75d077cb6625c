// Modular inverses as the sieve computes them: the extended Euclidean
// algorithm of `invert` (src/sieve.c) and the residue facts that make the
// sieve offsets exact.

module Inverse {
  import opened Numbers

  type Modulus = n: nat | n > 0 witness 1

  function Abs(x: int): nat { if x < 0 then -x else x }

  /**
   * The extended Euclidean algorithm of `invert`, one remainder step at a
   * time: r0, r1 are the last two remainders and x0, x1 their
   * coefficients of a; the result is the coefficient of the first
   * remainder that is at most 1.
   */
  function Euclid(r0: nat, r1: nat, x0: int, x1: int): int
    decreases r1
  {
    if r1 <= 1 then x1 else Euclid(r1, r0 % r1, x1, x0 - (r0 / r1) * x1)
  }

  /** `invert(a, p)`: the Euclidean coefficient, moved into [0, p). */
  function InverseOf(a: nat, p: Modulus): (r: nat)
    ensures r < p
  {
    (Euclid(p, a % p, 0, 1) + p) % p
  }

  /**
   * What holds of two consecutive remainders: each is its coefficient
   * times a, mod p; the coefficients alternate in sign and are bounded
   * through r0 * |x1| + r1 * |x0| == p; the gcd stays 1.
   */
  predicate EuclidInv(p: Modulus, a: nat, r0: nat, r1: nat, x0: int, x1: int)
  {
    2 <= r0 && r1 < r0 &&
    (x0 * a - r0) % p == 0 && (x1 * a - r1) % p == 0 &&
    x0 * x1 <= 0 && r0 * Abs(x1) + r1 * Abs(x0) == p &&
    Gcd(r0, r1) == 1
  }

  /** The new coefficient relation is a combination of the two old ones. */
  lemma StepCoefficient(a: int, q: int, r1: int, r2: int, x0: int, x1: int)
    ensures (x0 - q * x1) * a - r2 == (-q) * (x1 * a - r1) + (x0 * a - (q * r1 + r2))
  {
  }

  /** The coefficients keep alternating in sign and grow in magnitude. */
  lemma StepSign(q: nat, x0: int, x1: int)
    requires x0 * x1 <= 0
    ensures Abs(x0 - q * x1) == Abs(x0) + q * Abs(x1)
    ensures x1 * (x0 - q * x1) <= 0
  {
    if x1 > 0 {
      if x0 > 0 { MulAtLeast(x0, x1); }
      assert q * x1 >= 0;
      assert x1 * (x0 - q * x1) == x1 * x0 - x1 * (q * x1);
    } else if x1 < 0 {
      if x0 < 0 { MulAtLeast(-x0, -x1); }
      assert q * (-x1) >= 0;
      assert x1 * (x0 - q * x1) == x1 * x0 + (-x1) * (q * x1);
    }
  }

  /** The bound on the coefficients carries over. */
  lemma StepBound(q: nat, r0: nat, r1: nat, r2: nat, u: nat, v: nat)
    requires r0 == q * r1 + r2
    ensures r1 * (u + q * v) + r2 * v == r1 * u + r0 * v
  {
  }

  lemma EuclidStep(p: Modulus, a: nat, r0: nat, r1: nat, x0: int, x1: int)
    requires EuclidInv(p, a, r0, r1, x0, x1) && r1 > 1
    ensures EuclidInv(p, a, r1, r0 % r1, x1, x0 - (r0 / r1) * x1)
  {
    var q, r2 := r0 / r1, r0 % r1;
    assert r0 == q * r1 + r2;
    StepCoefficient(a, q, r1, r2, x0, x1);
    DividesCombination(p, x1 * a - r1, x0 * a - r0, -q);
    StepSign(q, x0, x1);
    StepBound(q, r0, r1, r2, Abs(x0), Abs(x1));
  }

  /** If r * y <= p for some r >= 2, then y < p. */
  lemma HalfBelow(r: nat, y: nat, p: nat)
    requires r >= 2 && r * y <= p && p > 0
    ensures y < p
  {
    if y > 0 { MulAtLeast(r - 1, y); }
  }

  lemma {:induction false} EuclidSpec(p: Modulus, a: nat, r0: nat, r1: nat, x0: int, x1: int)
    requires EuclidInv(p, a, r0, r1, x0, x1)
    ensures -(p as int) < Euclid(r0, r1, x0, x1) < p
    ensures (Euclid(r0, r1, x0, x1) * a - 1) % p == 0
    decreases r1
  {
    if r1 <= 1 {
      assert r1 != 0;
      HalfBelow(r0, Abs(x1), p);
    } else {
      EuclidStep(p, a, r0, r1, x0, x1);
      EuclidSpec(p, a, r1, r0 % r1, x1, x0 - (r0 / r1) * x1);
    }
  }

  /** The state `invert` starts from satisfies the invariant. */
  lemma EuclidStart(a: nat, p: Modulus)
    requires IsPrime(p) && a % p != 0
    ensures EuclidInv(p, a, p, a % p, 0, 1)
  {
    PrimeGcd(p, a);
    DivModUnique(-1, p, 0);
    assert a - a % p == (a / p) * p;
    DivModUnique(a / p, p, 0);
  }

  /** (a * b) mod p only depends on b mod p. */
  lemma MulModRight(a: int, b: int, p: int)
    requires p > 0
    ensures (a * (b % p)) % p == (a * b) % p
  {
    MulModLeft(b, a, p);
    assert b * a == a * b && (b % p) * a == a * (b % p);
  }

  /** Moving a coefficient e with e * a == 1 (mod p) into [0, p) keeps it an inverse. */
  lemma ShiftedInverse(a: nat, p: Modulus, e: int)
    requires p >= 2 && -(p as int) < e && (e * a - 1) % p == 0
    ensures (a * ((e + p) % p)) % p == 1
  {
    var k := (e * a - 1) / p;
    assert e * a - 1 == k * p;
    DivModUnique(k, p, 1);
    assert a * e == k * p + 1;
    MulModRight(a, e + p, p);
    assert a * (e + p) == a * p + a * e;
    ModOfMultiple(a, p, a * e);
  }

  /**
   * For a prime p that does not divide a, `invert` returns the inverse of
   * a mod p: 0 <= r < p and a * r == 1 mod p.
   */
  lemma InverseSpec(a: nat, p: Modulus)
    requires IsPrime(p) && a % p != 0
    ensures InverseOf(a, p) < p && (a * InverseOf(a, p)) % p == 1
  {
    EuclidStart(a, p);
    EuclidSpec(p, a, p, a % p, 0, 1);
    ShiftedInverse(a, p, Euclid(p, a % p, 0, 1));
  }

  /** With g * f == 1 mod p, x * g == 1 mod p iff x == f mod p. */
  lemma InverseResidue(g: nat, f: nat, p: Modulus, x: nat)
    requires p >= 2 && f < p && (g * f) % p == 1
    ensures (x * g) % p == 1 <==> x % p == f
  {
    if x % p == f {
      MulModLeft(x, g, p);
      assert f * g == g * f;
    }
    if (x * g) % p == 1 {
      DivModUnique(0, p, f);
      DivModUnique(0, p, 1);
      MulModRight(f, x * g, p);
      assert f * (x * g) == x * (g * f);
      MulModRight(x, g * f, p);
    }
  }

  /** A multiple of a multiple of p is one. */
  lemma MultipleTimes(y: int, g: int, p: Modulus)
    requires y % p == 0
    ensures (y * g) % p == 0
  {
    var k := y / p;
    assert y == k * p;
    assert y * g == (k * g) * p;
    DivModUnique(k * g, p, 0);
  }

  /** With g * f == 1 mod p, y * g == 0 mod p iff y == 0 mod p. */
  lemma InverseZero(g: nat, f: nat, p: Modulus, y: nat)
    requires p >= 2 && (g * f) % p == 1
    ensures (y * g) % p == 0 <==> y % p == 0
  {
    if y % p == 0 {
      MultipleTimes(y, g, p);
    }
    if (y * g) % p == 0 {
      MultipleTimes(y * g, f, p);
      assert (y * g) * f == y * (g * f);
      MulModRight(y, g * f, p);
      assert y * ((g * f) % p) == y;
    }
  }

  /** x + f is a multiple of p iff x has remainder p - f, for 0 < f < p. */
  lemma ComplementResidue(f: nat, p: Modulus, x: nat)
    requires 0 < f < p
    ensures (x + f) % p == 0 <==> x % p == p - f
  {
    AddMod(x, f, p);
    DivModUnique(0, p, f);
    var v := x % p + f;
    if v < p {
      DivModUnique(0, p, v);
    } else {
      DivModUnique(1, p, v - p);
    }
  }

  /** With g * f == 1 mod p, x * g + 1 == 0 mod p iff x == p - f mod p. */
  lemma InverseMinusOne(g: nat, f: nat, p: Modulus, x: nat)
    requires p >= 2 && 0 < f < p && (g * f) % p == 1
    ensures (x * g + 1) % p == 0 <==> x % p == p - f
  {
    AddMod(x * g, f * g, p);
    AddMod(x * g, 1, p);
    MulModLeft(f, g, p);
    assert f * g == g * f;
    DivModUnique(0, p, 1);
    assert x * g + f * g == (x + f) * g;
    InverseZero(g, f, p, x + f);
    ComplementResidue(f, p, x);
  }
  /**
   * With f the inverse of K mod p: x * K == 1 (mod p), that is p divides
   * x * K - 1, iff x has remainder f.
   */
  lemma MinusOneResidue(K: nat, f: nat, p: Modulus, x: nat)
    requires p >= 2 && f < p && ((K % p) * f) % p == 1
    ensures (x * K) % p == 1 <==> x % p == f
  {
    MulModRight(x, K, p);
    InverseResidue(K % p, f, p, x);
  }

  /** With f the inverse of K mod p: p divides x * K + 1 iff x has remainder p - f. */
  lemma PlusOneResidue(K: nat, f: nat, p: Modulus, x: nat)
    requires p >= 2 && f < p && ((K % p) * f) % p == 1
    ensures 0 < f && ((x * K + 1) % p == 0 <==> x % p == p - f)
  {
    MulModRight(x, K, p);
    AddMod(x * K, 1, p);
    AddMod(x * (K % p), 1, p);
    InverseMinusOne(K % p, f, p, x);
  }

  /** When p divides H, it divides neither x * H * m - 1 nor x * H * m + 1. */
  lemma DividesNeither(H: nat, m: nat, p: Modulus, x: nat)
    requires p >= 2 && H % p == 0
    ensures (x * (H * m)) % p == 0 && (x * (H * m) + 1) % p == 1
  {
    assert x * (H * m) == H * (x * m);
    MultipleTimes(H, x * m, p);
    AddMod(x * (H * m), 1, p);
    DivModUnique(0, p, 1);
  }
}
