/**
 * The probable-prime chain tests of the miner: the Fermat test, the
 * Euler-Lagrange-Lifchitz test for the successor 2n +/- 1, the Cunningham
 * chain length of both kinds, the bi-twin combination rule, the fractional
 * chain length and the 8.24 difficulty packing.  GMP integers are `nat`s.
 */
module PrimeTests {
  import opened Numbers

  /** The three prime chain types ('1', '2' and 'T' on the wire). */
  datatype ChainType = FirstCunningham | SecondCunningham | BiTwin

  /** Bit length of the fractional part of a difficulty (8.24 format). */
  const FractionalBits: nat := 24

  /** 2^FRACTIONAL_BITS */
  const FractionalOne: nat := 0x100_0000

  /** `TARGET_FRACTIONAL_MASK` */
  const TargetFractionalMask: nat := 0xFF_FFFF

  /** `MAX_CHAIN_LENGTH`: the longest chain the statistics can hold. */
  const MaxChainLength: nat := 32

  lemma FractionalOneIsPow2()
    ensures FractionalOne == Pow2(FractionalBits)
    ensures TargetFractionalMask == FractionalOne - 1
  {
    assert Pow2(8) == 256;
    assert Pow2(16) == 65536 by { Pow2Add(8, 8); }
    Pow2Add(16, 8);
  }

  // ---------------------------------------------------------------------
  // Difficulty packing

  /** `chain_length(difficulty)`: difficulty >> FRACTIONAL_BITS */
  function ChainLengthOf(difficulty: nat): nat
  {
    difficulty / FractionalOne
  }

  /** `fractional_length(chain_length)`: the low 24 bits */
  function FractionalLengthOf(difficulty: nat): nat
  {
    difficulty % FractionalOne
  }

  /** Packing a length and a fractional length into a difficulty. */
  function Difficulty(len: nat, frac: nat): nat
  {
    len * FractionalOne + frac
  }

  /**
   * Unpacking a packed difficulty gives back its two parts, and the packed
   * value of a length below 256 fits in 32 bits.
   */
  lemma DifficultyRoundTrip(len: nat, frac: nat)
    requires len < 256 && frac < FractionalOne
    ensures ChainLengthOf(Difficulty(len, frac)) == len
    ensures FractionalLengthOf(Difficulty(len, frac)) == frac
    ensures Difficulty(len, frac) < 0x1_0000_0000
  {
    DivModUnique(len, FractionalOne, frac);
  }

  /** Every 32-bit difficulty is the packing of its two parts. */
  lemma DifficultySplit(d: nat)
    requires d < 0x1_0000_0000
    ensures ChainLengthOf(d) < 256 && FractionalLengthOf(d) < FractionalOne
    ensures Difficulty(ChainLengthOf(d), FractionalLengthOf(d)) == d
  {
  }

  // ---------------------------------------------------------------------
  // Fermat and Euler-Lagrange-Lifchitz tests

  /**
   * `fermat_test`: p passes when 2^(p-1) mod p is 1, computed by modular
   * exponentiation.  The modulus must be positive (GMP divides by it).
   */
  predicate FermatTest(p: nat)
    requires p >= 1
  {
    ModPow(2, p - 1, p) == 1
  }

  /** The Fermat test is the plain power 2^(p-1) reduced mod p. */
  lemma FermatTestSpec(p: nat)
    requires p >= 1
    ensures FermatTest(p) <==> Pow(2, p - 1) % p == 1
  {
    ModPowIsPowMod(2, p - 1, p);
  }

  /**
   * `euler_lagrange_lifchitz_test` on n = 2p+1 (first kind, `sophieGermain`)
   * or n = 2p-1 (second kind), with r = 2^((n-1)/2) mod n.
   */
  predicate EllTest(n: nat, sophieGermain: bool)
    requires n >= 1
  {
    var r := ModPow(2, (n - 1) / 2, n);
    var nMod8 := n % 8;
    if sophieGermain && nMod8 == 7 then r == 1
    else if sophieGermain && nMod8 == 3 then r + 1 == n
    else if !sophieGermain && nMod8 == 5 then r + 1 == n
    else if !sophieGermain && nMod8 == 1 then r == 1
    else false
  }

  /**
   * A successor of the first kind passes when n = 7 mod 8 and
   * 2^((n-1)/2) = 1 mod n (Euler and Lagrange) or n = 3 mod 8 and the power
   * is n-1 (Lifchitz); one of the second kind when n = 5 mod 8 and the
   * power is n-1 or n = 1 mod 8 and the power is 1.  Every other residue,
   * in particular every even n, fails.
   */
  lemma EllTestSpec(n: nat, sophieGermain: bool)
    requires n >= 1
    ensures EllTest(n, sophieGermain) <==>
      var x := Pow(2, (n - 1) / 2) % n;
      if sophieGermain then
        (n % 8 == 7 && x == 1) || (n % 8 == 3 && x == n - 1)
      else
        (n % 8 == 5 && x == n - 1) || (n % 8 == 1 && x == 1)
    ensures n % 2 == 0 ==> !EllTest(n, sophieGermain)
  {
    ModPowIsPowMod(2, (n - 1) / 2, n);
  }

  // ---------------------------------------------------------------------
  // Cunningham chains

  /** The successor in a chain: 2n+1 (first kind) or 2n-1 (second kind). */
  function NextTerm(n: nat, sophieGermain: bool): (r: nat)
    requires n >= 1
    ensures r >= 1
  {
    if sophieGermain then 2 * n + 1 else 2 * n - 1
  }

  /** Term j (from 0) of the chain p, 2p+/-1, 4p+/-3, ... */
  function Term(p: nat, sophieGermain: bool, j: nat): (r: nat)
    requires p >= 1
    ensures r >= 1
  {
    if j == 0 then p else NextTerm(Term(p, sophieGermain, j - 1), sophieGermain)
  }

  /**
   * How many successors of n pass the Euler-Lagrange-Lifchitz test in a
   * row, looking at no more than `fuel` of them.
   */
  function PassingRun(n: nat, sophieGermain: bool, fuel: nat): nat
    requires n >= 1
    decreases fuel
  {
    if fuel == 0 then 0
    else
      var m := NextTerm(n, sophieGermain);
      if EllTest(m, sophieGermain) then 1 + PassingRun(m, sophieGermain, fuel - 1) else 0
  }

  /**
   * The chain length `cunningham_chain_test` computes: 0 when p fails the
   * Fermat test, else 1 plus the passing successors, capped at
   * MAX_CHAIN_LENGTH.
   */
  function CunninghamLength(p: nat, sophieGermain: bool): nat
    requires p >= 1
  {
    if !FermatTest(p) then 0 else 1 + PassingRun(p, sophieGermain, MaxChainLength - 1)
  }

  /**
   * `cunningham_chain_test`: the loop that walks the chain from p until a
   * term fails.  The loop stops at MAX_CHAIN_LENGTH, which no chain
   * reaches in practice.
   */
  method CunninghamChainTest(p: nat, sophieGermain: bool) returns (chainLength: nat)
    requires p >= 1
    ensures chainLength == CunninghamLength(p, sophieGermain)
  {
    chainLength := 0;
    if !FermatTest(p) {
      return;
    }
    ghost var total := CunninghamLength(p, sophieGermain);
    assert total == 1 + PassingRun(p, sophieGermain, MaxChainLength - 1);
    var n := p;
    while chainLength < MaxChainLength
      invariant chainLength <= MaxChainLength && n >= 1
      invariant chainLength < MaxChainLength ==>
        chainLength + 1 + PassingRun(n, sophieGermain, MaxChainLength - 1 - chainLength) == total
      invariant chainLength == MaxChainLength ==> total == MaxChainLength
      decreases MaxChainLength - chainLength
    {
      ghost var fuel := MaxChainLength - 1 - chainLength;
      ghost var prev := n;
      chainLength := chainLength + 1;
      n := NextTerm(n, sophieGermain);
      var passed := EllTest(n, sophieGermain);
      assert fuel > 0 ==>
        PassingRun(prev, sophieGermain, fuel)
          == (if passed then 1 + PassingRun(n, sophieGermain, fuel - 1) else 0);
      if !passed {
        break;
      }
    }
  }

  lemma {:induction false} PassingRunSpec(p: nat, sg: bool, i: nat, fuel: nat)
    requires p >= 1
    ensures var r := PassingRun(Term(p, sg, i), sg, fuel);
      r <= fuel &&
      (forall j :: i + 1 <= j <= i + r ==> EllTest(Term(p, sg, j), sg)) &&
      (r < fuel ==> !EllTest(Term(p, sg, i + r + 1), sg))
    decreases fuel
  {
    if fuel > 0 {
      var m := NextTerm(Term(p, sg, i), sg);
      assert m == Term(p, sg, i + 1);
      if EllTest(m, sg) {
        PassingRunSpec(p, sg, i + 1, fuel - 1);
        var r' := PassingRun(Term(p, sg, i + 1), sg, fuel - 1);
        assert i + (r' + 1) + 1 == (i + 1) + r' + 1;
      }
    }
  }

  /**
   * The chain length is 0 exactly when p fails the Fermat test; otherwise
   * it is the k >= 1 such that terms 2..k of the chain (indices 1..k-1
   * here) pass the Euler-Lagrange-Lifchitz test and term k+1 fails,
   * unless the cap MAX_CHAIN_LENGTH was reached first.
   */
  lemma CunninghamLengthSpec(p: nat, sg: bool)
    requires p >= 1
    ensures CunninghamLength(p, sg) == 0 <==> !FermatTest(p)
    ensures var k := CunninghamLength(p, sg);
      k <= MaxChainLength &&
      (k >= 1 ==>
        (forall j :: 1 <= j < k ==> EllTest(Term(p, sg, j), sg)) &&
        (k < MaxChainLength ==> !EllTest(Term(p, sg, k), sg)))
  {
    PassingRunSpec(p, sg, 0, MaxChainLength - 1);
    assert Term(p, sg, 0) == p;
    var k := CunninghamLength(p, sg);
  }

  /** `cc1_chain_test`: a first-kind chain starting at origin - 1. */
  method Cc1ChainTest(origin: nat) returns (len: nat)
    requires origin >= 2
    ensures len == CunninghamLength(origin - 1, true)
  {
    len := CunninghamChainTest(origin - 1, true);
  }

  /** `cc2_chain_test`: a second-kind chain starting at origin + 1. */
  method Cc2ChainTest(origin: nat) returns (len: nat)
    requires origin >= 2
    ensures len == CunninghamLength(origin + 1, false)
  {
    len := CunninghamChainTest(origin + 1, false);
  }

  // ---------------------------------------------------------------------
  // Bi-twin chains

  /**
   * The bi-twin combination: a bi-twin chain alternates the first-kind
   * chain (at origin - 1) and the second-kind chain (at origin + 1) and may
   * end on one extra first-kind prime.  The result is the longest r such
   * that the first-kind chain has (r+1)/2 primes and the second-kind chain
   * r/2.
   */
  function TwnRule(len1: nat, len2: nat): (r: nat)
    requires len1 >= 2
    ensures r >= 1
    ensures (r + 1) / 2 <= len1 && r / 2 <= len2
    ensures (r + 2) / 2 > len1 || (r + 1) / 2 > len2
  {
    if len1 > len2 then len2 + len2 + 1 else len1 + len1
  }

  /** The length `twn_chain_test` computes for an origin. */
  function TwnLength(origin: nat): nat
    requires origin >= 2
  {
    var len1 := CunninghamLength(origin - 1, true);
    if len1 >= 2 then TwnRule(len1, CunninghamLength(origin + 1, false)) else 0
  }

  /**
   * `twn_chain_test`: tests the first-kind chain first and the
   * second-kind chain only when the first one has at least two primes.
   */
  method TwnChainTest(origin: nat) returns (len: nat)
    requires origin >= 2
    ensures len == TwnLength(origin)
    ensures len == 0 <==> CunninghamLength(origin - 1, true) < 2
  {
    var len1 := CunninghamChainTest(origin - 1, true);
    len := 0;
    if len1 >= 2 {
      var len2 := CunninghamChainTest(origin + 1, false);
      if len1 > len2 {
        len := len2 + len2 + 1;
      } else {
        len := len1 + len1;
      }
    }
  }

  /** A bi-twin length never exceeds twice the chain cap plus one. */
  lemma TwnLengthBound(origin: nat)
    requires origin >= 2
    ensures TwnLength(origin) <= 2 * MaxChainLength + 1
  {
    CunninghamLengthSpec(origin - 1, true);
    CunninghamLengthSpec(origin + 1, false);
  }

  // ---------------------------------------------------------------------
  // Fractional length

  /**
   * The number whose Fermat remainder measures how far a chain of the
   * given type and length got: origin * 2^len -/+ 1 for Cunningham chains
   * (minus for the first kind), origin * 2^(len/2) - 1 for even and + 1 for
   * odd bi-twin lengths.
   */
  function FractionalModulus(origin: nat, t: ChainType, len: nat): nat
    requires origin >= 2
  {
    var e := if t == BiTwin then len / 2 else len;
    var down := if t == BiTwin then len % 2 == 0 else t == FirstCunningham;
    if down then origin * Pow2(e) - 1 else origin * Pow2(e) + 1
  }

  /** The modulus is positive, and odd for an even origin. */
  lemma FractionalModulusFacts(origin: nat, t: ChainType, len: nat)
    requires origin >= 2
    ensures FractionalModulus(origin, t, len) >= 1
    ensures origin % 2 == 0 ==> FractionalModulus(origin, t, len) % 2 == 1
  {
    var e := if t == BiTwin then len / 2 else len;
    var m := origin * Pow2(e);
    MulAtLeast(Pow2(e), 2);
    assert m >= 2;
    if origin % 2 == 0 {
      assert m == (origin / 2 * Pow2(e)) * 2;
    }
  }

  /**
   * `get_fractional_length`: the fraction (n - (2^(n-1) mod n)) / n of the
   * next, failing, term, in 24-bit fixed point and rounded down.  It is
   * below 1 (so it fits the 24 fractional bits) whenever n is odd and
   * greater than 1, which holds for every even origin the sieve produces.
   */
  function GetFractionalLength(origin: nat, t: ChainType, len: nat): nat
    requires origin >= 2
  {
    var n := FractionalModulus(origin, t, len);
    FractionalModulusFacts(origin, t, len);
    ((n - ModPow(2, n - 1, n)) * FractionalOne) / n
  }

  /**
   * The fractional length is the fraction (n - (2^(n-1) mod n)) / n rounded
   * down, it is at most 1, and it is below 1 for odd n > 1.
   */
  lemma GetFractionalLengthSpec(origin: nat, t: ChainType, len: nat)
    requires origin >= 2
    ensures var n := FractionalModulus(origin, t, len);
      var r := GetFractionalLength(origin, t, len);
      r * n <= (n - Pow(2, n - 1) % n) * FractionalOne < (r + 1) * n
    ensures GetFractionalLength(origin, t, len) <= FractionalOne
    ensures var n := FractionalModulus(origin, t, len);
      n % 2 == 1 && n > 1 ==> GetFractionalLength(origin, t, len) < FractionalOne
  {
    var n := FractionalModulus(origin, t, len);
    FractionalModulusFacts(origin, t, len);
    ModPowIsPowMod(2, n - 1, n);
    var rem := ModPow(2, n - 1, n);
    var num := (n - rem) * FractionalOne;
    var r := num / n;
    assert r == GetFractionalLength(origin, t, len);
    FloorDiv(num, n);
    LessThanOne(n, rem, r);
    FractionNoWhole(n, rem, r);
  }

  lemma FloorDiv(num: nat, n: nat)
    requires n >= 1
    ensures (num / n) * n <= num < (num / n + 1) * n
  {
    assert num == (num / n) * n + num % n;
  }

  /** For odd n > 1 the Fermat remainder is never 0, so the fraction is below one. */
  lemma FractionNoWhole(n: nat, rem: nat, r: nat)
    requires n >= 1 && rem == Pow(2, n - 1) % n && r == ((n - rem) * FractionalOne) / n
    ensures n % 2 == 1 && n > 1 ==> r < FractionalOne
  {
    if n % 2 == 1 && n > 1 {
      OddNotDividesPow2(n, n - 1);
      Pow2IsPow(n - 1);
      LessThanOneStrict(n, rem, r);
    }
  }

  /** Cancelling a positive factor from an inequality between products. */
  lemma MulLeCancel(a: nat, b: nat, n: nat)
    requires n > 0 && a * n <= b * n
    ensures a <= b
  {
    if a > b {
      MulAtLeast(a - b, n);
    }
  }

  lemma LessThanOne(n: nat, rem: nat, r: nat)
    requires n >= 1 && rem < n && r == ((n - rem) * FractionalOne) / n
    ensures r <= FractionalOne
  {
    var num := (n - rem) * FractionalOne;
    assert num <= FractionalOne * n;
    assert r * n <= num;
    MulLeCancel(r, FractionalOne, n);
  }

  lemma LessThanOneStrict(n: nat, rem: nat, r: nat)
    requires n >= 1 && 0 < rem < n && r == ((n - rem) * FractionalOne) / n
    ensures r < FractionalOne
  {
    var num := (n - rem) * FractionalOne;
    assert num < FractionalOne * n by {
      assert num == n * FractionalOne - rem * FractionalOne;
      MulAtLeast(rem, FractionalOne);
    }
    assert r * n <= num;
    if r >= FractionalOne {
      MulMonotone(r, FractionalOne, n);
    }
  }
}
