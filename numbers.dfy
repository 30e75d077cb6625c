/**
 * Arbitrary-precision arithmetic shared by the prime tests, the prime table
 * and the sieve.  GMP values of the miner (`mpz_t`) are Dafny `nat`s here.
 */
module Numbers {

  /** An optional value (a NULL pointer or a dropped result in the C code). */
  datatype Option<T> = None | Some(value: T)

  /** 2^n */
  function Pow2(n: nat): (r: nat)
    ensures r >= 1
  {
    if n == 0 then 1 else 2 * Pow2(n - 1)
  }

  /** b^e */
  function Pow(b: nat, e: nat): nat
  {
    if e == 0 then 1 else b * Pow(b, e - 1)
  }

  /**
   * Modular exponentiation as GMP's `mpz_powm` computes it: b^e mod m,
   * reducing after every multiplication.
   */
  function ModPow(b: nat, e: nat, m: nat): (r: nat)
    requires m > 0
    ensures r < m
  {
    if e == 0 then 1 % m else (b * ModPow(b, e - 1, m)) % m
  }

  /** n is a prime number */
  predicate IsPrime(n: nat)
  {
    n >= 2 && forall d :: 2 <= d < n ==> n % d != 0
  }

  /** Product of a sequence of factors (an empty product is 1). */
  function Product(s: seq<nat>): nat
  {
    if |s| == 0 then 1 else Product(s[..|s| - 1]) * s[|s| - 1]
  }

  /** Integer square root: the largest r with r*r <= n. */
  function ISqrt(n: nat): (r: nat)
    ensures r * r <= n < (r + 1) * (r + 1)
  {
    if n == 0 then 0
    else
      var s := ISqrt(n - 1);
      if (s + 1) * (s + 1) <= n then s + 1 else s
  }

  // ---------------------------------------------------------------------
  // Modular arithmetic helpers

  /** A positive multiple of a positive number is at least that number. */
  lemma MulAtLeast(d: int, p: int)
    requires d >= 1 && p > 0
    ensures d * p >= p
  {
    assert d * p == (d - 1) * p + p;
    assert (d - 1) * p >= 0;
  }

  /** Division with remainder is unique. */
  lemma DivModUnique(a: int, p: int, m: int)
    requires p > 0 && 0 <= m < p
    ensures (a * p + m) % p == m && (a * p + m) / p == a
  {
    var x := a * p + m;
    var q, r := x / p, x % p;
    assert x == q * p + r && 0 <= r < p;
    var d := q - a;
    assert d * p == m - r;
    if d > 0 {
      MulAtLeast(d, p);
    } else if d < 0 {
      MulAtLeast(-d, p);
    }
    assert d == 0;
  }

  lemma ModOfMultiple(q: int, p: int, r: int)
    requires p > 0
    ensures (q * p + r) % p == r % p
  {
    var k := r / p;
    assert r == k * p + r % p;
    assert q * p + r == (q + k) * p + r % p;
    DivModUnique(q + k, p, r % p);
  }

  lemma MulMod(a: int, b: int, p: int)
    requires p > 0
    ensures (a * b) % p == ((a % p) * (b % p)) % p
  {
    var qa, ra := a / p, a % p;
    var qb, rb := b / p, b % p;
    assert a == qa * p + ra;
    assert b == qb * p + rb;
    calc {
      a * b;
      (qa * p + ra) * (qb * p + rb);
      (qa * qb * p + qa * rb + ra * qb) * p + ra * rb;
    }
    ModOfMultiple(qa * qb * p + qa * rb + ra * qb, p, ra * rb);
  }

  lemma MulModLeft(a: int, b: int, p: int)
    requires p > 0
    ensures (a * b) % p == ((a % p) * b) % p
  {
    var q, r := a / p, a % p;
    assert a == q * p + r;
    assert a * b == (q * b) * p + r * b;
    ModOfMultiple(q * b, p, r * b);
  }

  lemma AddMod(a: int, b: int, p: int)
    requires p > 0
    ensures (a + b) % p == ((a % p) + (b % p)) % p
  {
    var qa, ra := a / p, a % p;
    var qb, rb := b / p, b % p;
    assert a + b == (qa + qb) * p + (ra + rb);
    ModOfMultiple(qa + qb, p, ra + rb);
  }

  /** Two numbers with the same remainder differ by a multiple of p. */
  lemma SameRemainder(a: int, b: int, p: int)
    requires p > 0 && a % p == b % p
    ensures (a - b) % p == 0
  {
    assert a == (a / p) * p + a % p;
    assert b == (b / p) * p + b % p;
    assert a - b == (a / p - b / p) * p;
    ModOfMultiple(a / p - b / p, p, 0);
  }

  /** Pow2 splits over a sum of exponents. */
  lemma {:induction false} Pow2Add(a: nat, b: nat)
    ensures Pow2(a + b) == Pow2(a) * Pow2(b)
  {
    if a > 0 {
      Pow2Add(a - 1, b);
      assert Pow2(a + b) == 2 * Pow2(a - 1 + b);
    }
  }

  lemma {:induction false} Pow2IsPow(n: nat)
    ensures Pow2(n) == Pow(2, n)
  {
    if n > 0 { Pow2IsPow(n - 1); }
  }

  lemma {:induction false} ModPowIsPowMod(b: nat, e: nat, m: nat)
    requires m > 0
    ensures ModPow(b, e, m) == Pow(b, e) % m
  {
    if e > 0 {
      ModPowIsPowMod(b, e - 1, m);
      var r := ModPow(b, e - 1, m);
      var x := Pow(b, e - 1);
      assert r == x % m;
      calc {
        ModPow(b, e, m);
        (b * r) % m;
        { MulMod(b, r, m); DivModUnique(0, m, r); }
        ((b % m) * (r % m)) % m;
        ((b % m) * ((x % m) % m)) % m;
        { DivModUnique(0, m, x % m); }
        ((b % m) * (x % m)) % m;
        { MulMod(b, x, m); }
        (b * x) % m;
      }
    }
  }

  /** An odd divisor of 2*x divides x. */
  lemma OddDividesDouble(n: nat, x: nat)
    requires n % 2 == 1 && (2 * x) % n == 0
    ensures x % n == 0
  {
    var q := (2 * x) / n;
    assert 2 * x == q * n;
    var h, c := q / 2, q % 2;
    var b := n / 2;
    assert q == 2 * h + c && n == 2 * b + 1;
    assert q * n == 2 * h * n + c * n;
    assert c * n == 2 * c * b + c;
    var k := x - h * n - c * b;
    assert c == 2 * k;
    assert c == 0;
    assert x == h * n;
    DivModUnique(h, n, 0);
  }

  /** An odd number n > 1 never divides a power of two. */
  lemma {:induction false} OddNotDividesPow2(n: nat, e: nat)
    requires n % 2 == 1 && n > 1
    ensures Pow2(e) % n != 0
  {
    if e == 0 {
      assert Pow2(0) == 1;
    } else {
      if Pow2(e) % n == 0 {
        OddDividesDouble(n, Pow2(e - 1));
        OddNotDividesPow2(n, e - 1);
      }
    }
  }

  /** The product of a concatenation is the product of the parts. */
  lemma {:induction false} ProductAppend(s: seq<nat>, x: nat)
    ensures Product(s + [x]) == Product(s) * x
  {
    assert (s + [x])[..|s + [x]| - 1] == s;
  }

  // ---------------------------------------------------------------------
  // Greatest common divisor

  /** Euclid's gcd: gcd(a, 0) = a, gcd(a, b) = gcd(b, a mod b). */
  function Gcd(a: nat, b: nat): nat
    decreases b
  {
    if b == 0 then a else Gcd(b, a % b)
  }

  /** d divides a sum of multiples of d. */
  lemma DividesCombination(d: int, x: int, y: int, q: int)
    requires d > 0 && x % d == 0 && y % d == 0
    ensures (q * x + y) % d == 0
  {
    var kx, ky := x / d, y / d;
    assert x == kx * d && y == ky * d;
    assert q * x + y == (q * kx + ky) * d;
    DivModUnique(q * kx + ky, d, 0);
  }

  /** The gcd of two numbers, not both zero, is positive and divides both. */
  lemma {:induction false} GcdDivides(a: nat, b: nat)
    requires a > 0 || b > 0
    ensures Gcd(a, b) > 0 && a % Gcd(a, b) == 0 && b % Gcd(a, b) == 0
    decreases b
  {
    if b == 0 {
      DivModUnique(1, a, 0);
      DivModUnique(0, a, 0);
    } else {
      GcdDivides(b, a % b);
      var d := Gcd(b, a % b);
      assert a == (a / b) * b + a % b;
      DividesCombination(d, b, a % b, a / b);
    }
  }

  /** A prime has gcd 1 with every number it does not divide. */
  lemma PrimeGcd(p: nat, a: nat)
    requires IsPrime(p) && a % p != 0
    ensures Gcd(p, a % p) == 1
  {
    var r := a % p;
    GcdDivides(p, r);
    var d := Gcd(p, r);
    if d >= p {
      DivModUnique(0, d, r);
      assert false;
    }
  }

  /** Multiplication is monotone in its left factor. */
  lemma MulMonotone(a: nat, b: nat, n: nat)
    requires a >= b
    ensures a * n >= b * n
  {
    assert a * n == b * n + (a - b) * n;
  }
}
