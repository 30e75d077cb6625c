/**
 * Reference definitions for the layered candidate sieve of src/sieve.c.
 *
 * Candidate k of extension x stands for the origin H * k * 2^x, where H is
 * the primorial.  Layer l holds the multiples k for which some sieving
 * prime divides k * H * 2^l - 1 (the cc1 tables) or k * H * 2^l + 1 (the
 * cc2 tables).  A prime marks the arithmetic progression that starts at
 * its offset and steps by the prime.  The base vectors accumulate layers
 * 0 .. L-1 (L the chain length), extension vector e accumulates layers
 * e+1 .. e+L, and the bi-twin vector uses fewer layers of each kind.
 *
 * Multiplier tables are indexed [prime index][layer]; the C tables are
 * the same entries flattened as prime index * layers + layer.
 */
module SieveSpec {
  import opened Numbers
  import opened SieveIndex
  import opened Block
  import opened Inverse

  /** A multiplier entry of 0xFFFFFFFF (the memset 0xFF of reinit_sieve). */
  const Sentinel: nat := 0xFFFF_FFFF

  /** The sieve globals that init_sieve_globals copies from the options. */
  datatype Config = Config(
    sieveSize: nat,        // sieve_size: candidates per extension
    sieveWords: nat,       // sieve_words
    cacheBits: nat,        // cache_bits: candidates sieved per block
    chainLength: nat,      // chain_length
    extensions: nat,       // sieve_extensions
    useFirstHalf: bool,    // use_first_half
    minPrime: nat,         // min_prime_index (primes in the primorial)
    maxPrime: nat,         // max_prime_index
    primes: seq<Modulus>,  // the prime table
    twoInverses: seq<nat>, // the inverse of 2 for every prime
    int64Arithmetic: nat,  // first prime index with 64-bit products
    poolShare: nat,        // minimum chain length of a share
    fixedMultiplier: nat)  // mpz_fixed_hash_multiplier

  /** `layers = extensions + chain_length` */
  function Layers(c: Config): nat { c.extensions + c.chainLength }

  /** `cache_words`: the words of one block */
  function CacheWords(c: Config): nat { c.cacheBits / WordBits }

  /** `twn_cc1_layers = (chain_length + 1) / 2 - 1` */
  function TwnCc1Layers(c: Config): int { (c.chainLength + 1) / 2 - 1 }

  /** `twn_cc2_layers = chain_length / 2 - 1` */
  function TwnCc2Layers(c: Config): int { c.chainLength / 2 - 1 }

  /**
   * What one sieving prime needs: it is a prime that fits the signed
   * integers of `invert`, the sieve range plus the prime fits 32 bits
   * (offsets are uint32), its inverse of 2 is reduced, and below
   * `int64_arithmetic` the 32-bit product of two residues cannot wrap.
   */
  predicate PrimeOk(c: Config, i: nat)
    requires i < |c.primes| && i < |c.twoInverses|
  {
    var p := c.primes[i];
    IsPrime(p) && p < 0x8000_0000 && c.sieveSize + p < TwoTo32 && c.twoInverses[i] < p &&
    (i < c.int64Arithmetic ==> (p - 1) * (p - 1) < TwoTo32)
  }

  /**
   * The configurations the sieve is written for.  The size is a whole,
   * even number of words, the blocks are whole words and tile each half
   * of the sieve, a chain has at least two numbers (for one,
   * `chain_length / 2 - 1` underflows), the first half is only sieved
   * without extensions, and the 64-bit `k << extension` does not wrap for
   * the last position of the sieve.
   */
  predicate Valid(c: Config)
  {
    Sized(c) && PrimesOk(c)
  }

  /** The size relations of Valid, without the conditions on the primes. */
  predicate Sized(c: Config)
  {
    && Indexable(c)
    && c.chainLength >= 2
    && c.sieveWords >= 2 && c.sieveWords % 2 == 0 && c.sieveSize == WordBits * c.sieveWords
    && c.sieveSize < Sentinel
    && c.cacheBits >= WordBits && c.cacheBits % WordBits == 0 && (c.sieveSize / 2) % c.cacheBits == 0
    && Layers(c) < TwoTo32
    && (c.sieveSize - 1) * Pow2(c.extensions) < TwoTo64
    && (c.useFirstHalf ==> c.extensions == 0)
  }

  /** Every sieving prime satisfies PrimeOk. */
  predicate PrimesOk(c: Config)
    requires Indexable(c)
  {
    forall i :: c.minPrime <= i < c.maxPrime ==> PrimeOk(c, i)
  }

  /** The prime indexes [min, max) index the prime and inverse tables. */
  predicate Indexable(c: Config)
  {
    c.minPrime <= c.maxPrime <= |c.primes| && c.maxPrime <= |c.twoInverses|
  }

  /** check_primes' condition on the inverses of 2: 2 * t == 1 mod p. */
  predicate TwoInversesOk(c: Config)
    requires c.maxPrime <= |c.primes| && c.maxPrime <= |c.twoInverses|
  {
    forall i :: c.minPrime <= i < c.maxPrime ==> (2 * c.twoInverses[i]) % c.primes[i] == 1
  }

  lemma PrimeOfValid(c: Config, i: nat)
    requires Indexable(c) && PrimesOk(c) && c.minPrime <= i < c.maxPrime
    ensures c.primes[i] >= 2 && c.primes[i] + c.sieveSize < TwoTo32
  {
    assert PrimeOk(c, i);
  }

  // ---------------------------------------------------------------------
  // Progressions

  /** x is on the progression f, f + p, f + 2p, ... */
  predicate InProg(f: nat, p: nat, x: nat)
    requires p > 0
  {
    f <= x && (x - f) % p == 0
  }

  /**
   * The adjustment of sieve_from_to: an offset below the start is moved
   * up by whole steps, `factor + (start - factor + p - 1) / p * p`.
   */
  function Lift(f: nat, p: nat, t: nat): nat
    requires p > 0
  {
    if f < t then f + (t - f + p - 1) / p * p else f
  }

  /** Two positions of a progression are at least one step apart. */
  lemma ProgGap(f: nat, p: nat, x: nat, y: nat)
    requires p > 0 && InProg(f, p, x) && InProg(f, p, y) && x < y
    ensures x + p <= y
  {
    ProgFrom(f, p, x, y);
    if y - x < p {
      DivModUnique(0, p, y - x);
    }
  }

  /** A later position of a progression starts the same progression. */
  lemma ProgFrom(f: nat, p: nat, y: nat, x: nat)
    requires p > 0 && InProg(f, p, y) && InProg(f, p, x) && y <= x
    ensures InProg(y, p, x)
  {
    var a, b := (y - f) / p, (x - f) / p;
    assert y - f == a * p && x - f == b * p;
    assert x - y == (b - a) * p;
    DivModUnique(b - a, p, 0);
  }

  /** A progression started on a progression stays on it. */
  lemma ProgTrans(f: nat, p: nat, y: nat, x: nat)
    requires p > 0 && InProg(f, p, y) && InProg(y, p, x)
    ensures InProg(f, p, x)
  {
    var a, b := (y - f) / p, (x - y) / p;
    assert y - f == a * p && x - y == b * p;
    assert x - f == (a + b) * p;
    DivModUnique(a + b, p, 0);
  }

  /**
   * The lifted offset is the least position of the progression at or
   * above t; it is the offset itself or below t + p.
   */
  lemma LiftSpec(f: nat, p: nat, t: nat)
    requires p > 0
    ensures InProg(f, p, Lift(f, p, t)) && t <= Lift(f, p, t)
    ensures Lift(f, p, t) == f || Lift(f, p, t) < t + p
    ensures forall x :: t <= x && InProg(f, p, x) ==> Lift(f, p, t) <= x
  {
    var r := Lift(f, p, t);
    if f < t {
      var q := (t - f + p - 1) / p;
      var m := (t - f + p - 1) % p;
      assert t - f + p - 1 == q * p + m;
      assert r - f == q * p;
      DivModUnique(q, p, 0);
      assert t <= r < t + p;
    } else {
      assert r - f == 0;
    }
    forall x | t <= x && InProg(f, p, x)
      ensures r <= x
    {
      if x < r {
        ProgGap(f, p, x, r);
      }
    }
  }

  /** The least position at or above t is unique. */
  lemma LiftUnique(f: nat, p: nat, t: nat, y: nat)
    requires p > 0 && InProg(f, p, y) && t <= y && (y == f || y < t + p)
    ensures y == Lift(f, p, t)
  {
    var r := Lift(f, p, t);
    LiftSpec(f, p, t);
    if r < y {
      ProgGap(f, p, r, y);
    }
  }

  /** Lifting to s and then to a later t is lifting to t. */
  lemma LiftLift(f: nat, p: nat, s: nat, t: nat)
    requires p > 0 && s <= t
    ensures Lift(Lift(f, p, s), p, t) == Lift(f, p, t)
  {
    var y := Lift(f, p, s);
    var z := Lift(y, p, t);
    LiftSpec(f, p, s);
    LiftSpec(y, p, t);
    ProgTrans(f, p, y, z);
    LiftUnique(f, p, t, z);
  }

  /** At and above t the lifted progression is the original one. */
  lemma LiftMarks(f: nat, p: nat, t: nat, x: nat)
    requires p > 0 && t <= x
    ensures InProg(Lift(f, p, t), p, x) <==> InProg(f, p, x)
  {
    var r := Lift(f, p, t);
    LiftSpec(f, p, t);
    if InProg(r, p, x) {
      ProgTrans(f, p, r, x);
    }
    if InProg(f, p, x) {
      ProgFrom(f, p, r, x);
    }
  }

  /** A lifted sentinel stays the sentinel and marks nothing in the sieve. */
  lemma SentinelInert(p: nat, t: nat, x: nat)
    requires p > 0 && t <= Sentinel && x < Sentinel
    ensures Lift(Sentinel, p, t) == Sentinel && !InProg(Sentinel, p, x)
  {
  }

  /**
   * An entry y is behind t: it is on the progression of f and not past
   * its lift to t.  Entries lifted to any s <= t, and the unlifted
   * offset itself, are behind t.
   */
  predicate Behind(f: nat, p: nat, y: nat, t: nat)
    requires p > 0
  {
    InProg(f, p, y) && y <= Lift(f, p, t)
  }

  /** The lift of f to s is behind every t >= s. */
  lemma LiftBehind(f: nat, p: nat, s: nat, t: nat)
    requires p > 0 && s <= t
    ensures Behind(f, p, Lift(f, p, s), t)
  {
    LiftSpec(f, p, s);
    LiftSpec(f, p, t);
  }

  /** An entry behind t is behind every later u. */
  lemma BehindLater(f: nat, p: nat, y: nat, t: nat, u: nat)
    requires p > 0 && Behind(f, p, y, t) && t <= u
    ensures Behind(f, p, y, u)
  {
    LiftSpec(f, p, t);
    LiftSpec(f, p, u);
  }

  /**
   * An entry behind t lifts to what f lifts to, at t and beyond, and
   * marks the same positions from t on.
   */
  lemma BehindLift(f: nat, p: nat, y: nat, t: nat, x: nat)
    requires p > 0 && Behind(f, p, y, t) && t <= x
    ensures Lift(y, p, x) == Lift(f, p, x)
    ensures InProg(y, p, x) <==> InProg(f, p, x)
  {
    var z := Lift(f, p, x);
    LiftSpec(f, p, t);
    LiftSpec(f, p, x);
    ProgFrom(f, p, y, z);
    if y < x {
      LiftUnique(y, p, x, z);
    }
    if InProg(y, p, x) {
      ProgTrans(f, p, y, x);
    }
    if InProg(f, p, x) {
      ProgFrom(f, p, y, x);
    }
  }

  // ---------------------------------------------------------------------
  // Words of a layer

  /** A multiplier table: one row of `layers` entries per prime index. */
  predicate Shape(c: Config, M: seq<seq<nat>>)
  {
    |M| == c.maxPrime && forall i :: 0 <= i < |M| ==> |M[i]| == Layers(c)
  }

  /** The position of bit b of word w: `word_bits * w + b`. */
  function Pos(w: nat, b: nat): nat { WordBits * w + b }

  /** The bits of word w on the progression f, f + p, ... */
  function ProgWord(f: nat, p: nat, w: nat): Word
    requires p > 0
  {
    set b: nat | b < WordBits && InProg(f, p, Pos(w, b))
  }

  /** Word w of layer l, marked by the primes with index in [min, hi). */
  function PrimeMarks(c: Config, M: seq<seq<nat>>, l: nat, hi: nat, w: nat): Word
    requires Indexable(c) && Shape(c, M) && l < Layers(c) && hi <= c.maxPrime
    decreases hi
  {
    if hi <= c.minPrime then {}
    else PrimeMarks(c, M, l, hi - 1, w) + ProgWord(M[hi - 1][l], c.primes[hi - 1], w)
  }

  /** Word w of layer l: the bits some sieving prime's progression marks. */
  function LayerWord(c: Config, M: seq<seq<nat>>, l: nat, w: nat): Word
    requires Indexable(c) && Shape(c, M) && l < Layers(c)
  {
    PrimeMarks(c, M, l, c.maxPrime, w)
  }

  lemma {:induction false} PrimeMarksIff(c: Config, M: seq<seq<nat>>, l: nat, hi: nat, w: nat, b: nat)
    requires Indexable(c) && Shape(c, M) && l < Layers(c) && hi <= c.maxPrime
    ensures b in PrimeMarks(c, M, l, hi, w) <==>
      b < WordBits && exists i :: c.minPrime <= i < hi && PrimeMarked(c, M, l, i, Pos(w, b))
    decreases hi
  {
    if hi > c.minPrime {
      PrimeMarksIff(c, M, l, hi - 1, w, b);
      if b < WordBits && PrimeMarked(c, M, l, hi - 1, Pos(w, b)) {
        assert c.minPrime <= hi - 1 < hi;
      }
    }
  }

  /** Prime number i marks position x in layer l. */
  predicate PrimeMarked(c: Config, M: seq<seq<nat>>, l: nat, i: nat, x: nat)
    requires Indexable(c) && Shape(c, M) && l < Layers(c) && c.minPrime <= i < c.maxPrime
  {
    InProg(M[i][l], c.primes[i], x)
  }

  /** Some sieving prime marks position x in layer l. */
  predicate Marked(c: Config, M: seq<seq<nat>>, l: nat, x: nat)
    requires Indexable(c) && Shape(c, M) && l < Layers(c)
  {
    exists i :: c.minPrime <= i < c.maxPrime && PrimeMarked(c, M, l, i, x)
  }

  /**
   * A bit of a layer word is set iff it is a bit of the word and some
   * sieving prime's progression passes through its position.
   */
  lemma LayerWordIff(c: Config, M: seq<seq<nat>>, l: nat, w: nat, b: nat)
    requires Indexable(c) && Shape(c, M) && l < Layers(c)
    ensures b in LayerWord(c, M, l, w) <==> b < WordBits && Marked(c, M, l, Pos(w, b))
  {
    PrimeMarksIff(c, M, l, c.maxPrime, w, b);
  }

  /** Lifting an offset to t changes none of the words at or above t. */
  lemma ProgWordLifted(f: nat, p: nat, t: nat, w: nat)
    requires p > 0 && t <= WordBits * w
    ensures ProgWord(Lift(f, p, t), p, w) == ProgWord(f, p, w)
  {
    forall b: nat | b < WordBits
      ensures InProg(Lift(f, p, t), p, Pos(w, b)) <==> InProg(f, p, Pos(w, b))
    {
      LiftMarks(f, p, t, Pos(w, b));
    }
  }

  /**
   * A layer computed from entries lifted to t equals the layer of the
   * original entries on every word at or above t.
   */
  lemma {:induction false} PrimeMarksLifted(c: Config, M: seq<seq<nat>>, N: seq<seq<nat>>, l: nat, t: nat, hi: nat, w: nat)
    requires Indexable(c) && Shape(c, M) && Shape(c, N) && l < Layers(c) && hi <= c.maxPrime
    requires t <= WordBits * w
    requires forall i :: c.minPrime <= i < c.maxPrime ==> N[i][l] == Lift(M[i][l], c.primes[i], t)
    ensures PrimeMarks(c, N, l, hi, w) == PrimeMarks(c, M, l, hi, w)
    decreases hi
  {
    if hi > c.minPrime {
      PrimeMarksLifted(c, M, N, l, t, hi - 1, w);
      ProgWordLifted(M[hi - 1][l], c.primes[hi - 1], t, w);
    }
  }

  lemma LayerWordLifted(c: Config, M: seq<seq<nat>>, N: seq<seq<nat>>, l: nat, t: nat, w: nat)
    requires Indexable(c) && Shape(c, M) && Shape(c, N) && l < Layers(c)
    requires t <= WordBits * w
    requires forall i :: c.minPrime <= i < c.maxPrime ==> N[i][l] == Lift(M[i][l], c.primes[i], t)
    ensures LayerWord(c, N, l, w) == LayerWord(c, M, l, w)
  {
    PrimeMarksLifted(c, M, N, l, t, c.maxPrime, w);
  }

  // ---------------------------------------------------------------------
  // Accumulating layers

  /** Word w ORed over the layers [lo, hi). */
  function Accum(c: Config, M: seq<seq<nat>>, lo: nat, hi: nat, w: nat): Word
    requires Indexable(c) && Shape(c, M) && lo <= hi <= Layers(c)
    decreases hi - lo
  {
    if hi == lo then {} else Accum(c, M, lo, hi - 1, w) + LayerWord(c, M, hi - 1, w)
  }

  /** A bit is accumulated iff one of the layers has it. */
  lemma {:induction false} AccumIff(c: Config, M: seq<seq<nat>>, lo: nat, hi: nat, w: nat, b: nat)
    requires Indexable(c) && Shape(c, M) && lo <= hi <= Layers(c)
    ensures b in Accum(c, M, lo, hi, w) <==> exists l :: lo <= l < hi && b in LayerWord(c, M, l, w)
    decreases hi - lo
  {
    if hi > lo {
      AccumIff(c, M, lo, hi - 1, w, b);
      if b in LayerWord(c, M, hi - 1, w) {
        assert lo <= hi - 1 < hi;
      }
    }
  }

  /** The number of layers a vector starting at layer x has seen after n. */
  function Clamp(n: nat, lo: nat, hi: nat): nat
    requires lo <= hi
  {
    if n < lo then lo else if n > hi then hi else n
  }

  /**
   * A cc1 or cc2 vector whose layers are x .. x+L-1 (x = 0 for the base,
   * e+1 for extension e), once the layers below n have been sieved.
   */
  function VectorAt(c: Config, M: seq<seq<nat>>, x: nat, n: nat, w: nat): Word
    requires Indexable(c) && Shape(c, M) && x + c.chainLength <= Layers(c)
  {
    Accum(c, M, x, Clamp(n, x, x + c.chainLength), w)
  }

  /** Sieving layer n adds it to the vector iff x <= n < x + L. */
  lemma VectorStep(c: Config, M: seq<seq<nat>>, x: nat, n: nat, w: nat)
    requires Indexable(c) && Shape(c, M) && x + c.chainLength <= Layers(c) && n < Layers(c)
    ensures VectorAt(c, M, x, n + 1, w) ==
      VectorAt(c, M, x, n, w) + (if x <= n < x + c.chainLength then LayerWord(c, M, n, w) else {})
  {
  }

  /** The bi-twin vector: cc2 over L/2 layers and cc1 over (L+1)/2 layers. */
  function TwnWord(c: Config, M1: seq<seq<nat>>, M2: seq<seq<nat>>, x: nat, w: nat): Word
    requires Indexable(c) && Shape(c, M1) && Shape(c, M2) && x + c.chainLength <= Layers(c)
  {
    Accum(c, M2, x, x + c.chainLength / 2, w) + Accum(c, M1, x, x + (c.chainLength + 1) / 2, w)
  }

  /**
   * The bi-twin vector once the layers below n are sieved, for
   * n > x + twn_cc2_layers: the cc2 copy, and the cc1 part once layer
   * x + twn_cc1_layers is done.
   */
  function TwnAt(c: Config, M1: seq<seq<nat>>, M2: seq<seq<nat>>, x: nat, n: nat, w: nat): Word
    requires Indexable(c) && Shape(c, M1) && Shape(c, M2) && x + c.chainLength <= Layers(c)
  {
    Accum(c, M2, x, x + c.chainLength / 2, w) +
      (if n > x + TwnCc1Layers(c) then Accum(c, M1, x, x + (c.chainLength + 1) / 2, w) else {})
  }

  /**
   * The twin word after the layers below n: TwnAt once the cc2 copy has
   * been taken (n > x + twn_cc2_layers), still clear before.
   */
  function TwnState(c: Config, M1: seq<seq<nat>>, M2: seq<seq<nat>>, x: nat, n: nat, w: nat): Word
    requires Indexable(c) && Shape(c, M1) && Shape(c, M2) && x + c.chainLength <= Layers(c)
  {
    if n > x + TwnCc2Layers(c) then TwnAt(c, M1, M2, x, n, w) else {}
  }

  /**
   * One layer of the twin rule: after layer n has been ORed into cc1 and
   * cc2, the twin word t is replaced by cc2 when n is x + twn_cc2_layers
   * and then ORed with cc1 when n is x + twn_cc1_layers.
   */
  function TwnUpdate(c: Config, M1: seq<seq<nat>>, M2: seq<seq<nat>>, x: nat, n: nat, w: nat, t: Word): Word
    requires Indexable(c) && Shape(c, M1) && Shape(c, M2) && x + c.chainLength <= Layers(c)
  {
    var t1 := if n == x + TwnCc2Layers(c) then VectorAt(c, M2, x, n + 1, w) else t;
    if n == x + TwnCc1Layers(c) then t1 + VectorAt(c, M1, x, n + 1, w) else t1
  }

  /** The twin rule takes the twin word of n layers to that of n + 1. */
  lemma TwnStep(c: Config, M1: seq<seq<nat>>, M2: seq<seq<nat>>, x: nat, n: nat, w: nat)
    requires Indexable(c) && Shape(c, M1) && Shape(c, M2) && x + c.chainLength <= Layers(c) && c.chainLength >= 2
    ensures TwnUpdate(c, M1, M2, x, n, w, TwnState(c, M1, M2, x, n, w)) == TwnState(c, M1, M2, x, n + 1, w)
  {
  }

  /** After every layer the vectors are the full accumulations. */
  lemma VectorsDone(c: Config, M1: seq<seq<nat>>, M2: seq<seq<nat>>, x: nat, w: nat)
    requires Indexable(c) && Shape(c, M1) && Shape(c, M2) && x + c.chainLength <= Layers(c)
    ensures VectorAt(c, M1, x, Layers(c), w) == Accum(c, M1, x, x + c.chainLength, w)
    ensures Layers(c) > x + TwnCc2Layers(c)
    ensures TwnAt(c, M1, M2, x, Layers(c), w) == TwnWord(c, M1, M2, x, w)
  {
  }

  // ---------------------------------------------------------------------
  // The reference twin rule of check_sieve

  /**
   * Relative layer j of the check's twin vector: cc1 | cc2 below L/2,
   * cc1 alone below (L+1)/2, nothing above.
   */
  function RefTwnLayer(c: Config, M1: seq<seq<nat>>, M2: seq<seq<nat>>, x: nat, j: nat, w: nat): Word
    requires Indexable(c) && Shape(c, M1) && Shape(c, M2) && x + c.chainLength <= Layers(c) && j < c.chainLength
  {
    if j < c.chainLength / 2 then LayerWord(c, M1, x + j, w) + LayerWord(c, M2, x + j, w)
    else if j < (c.chainLength + 1) / 2 then LayerWord(c, M1, x + j, w)
    else {}
  }

  /** The check's twin word over relative layers [0, n). */
  function RefTwn(c: Config, M1: seq<seq<nat>>, M2: seq<seq<nat>>, x: nat, n: nat, w: nat): Word
    requires Indexable(c) && Shape(c, M1) && Shape(c, M2) && x + c.chainLength <= Layers(c) && n <= c.chainLength
  {
    if n == 0 then {} else RefTwn(c, M1, M2, x, n - 1, w) + RefTwnLayer(c, M1, M2, x, n - 1, w)
  }

  /** Below L/2 the check ORs both kinds of layer. */
  lemma {:induction false} RefTwnLow(c: Config, M1: seq<seq<nat>>, M2: seq<seq<nat>>, x: nat, n: nat, w: nat)
    requires Indexable(c) && Shape(c, M1) && Shape(c, M2) && x + c.chainLength <= Layers(c) && n <= c.chainLength / 2
    ensures RefTwn(c, M1, M2, x, n, w) == Accum(c, M2, x, x + n, w) + Accum(c, M1, x, x + n, w)
  {
    if n > 0 {
      RefTwnLow(c, M1, M2, x, n - 1, w);
    }
  }

  /** Between L/2 and (L+1)/2 it ORs only cc1 layers. */
  lemma {:induction false} RefTwnMiddle(c: Config, M1: seq<seq<nat>>, M2: seq<seq<nat>>, x: nat, n: nat, w: nat)
    requires Indexable(c) && Shape(c, M1) && Shape(c, M2) && x + c.chainLength <= Layers(c)
    requires c.chainLength / 2 <= n <= (c.chainLength + 1) / 2
    ensures RefTwn(c, M1, M2, x, n, w) ==
      Accum(c, M2, x, x + c.chainLength / 2, w) + Accum(c, M1, x, x + n, w)
  {
    if n == c.chainLength / 2 {
      RefTwnLow(c, M1, M2, x, n, w);
    } else {
      RefTwnMiddle(c, M1, M2, x, n - 1, w);
    }
  }

  /** Above (L+1)/2 nothing is added. */
  lemma {:induction false} RefTwnHigh(c: Config, M1: seq<seq<nat>>, M2: seq<seq<nat>>, x: nat, n: nat, w: nat)
    requires Indexable(c) && Shape(c, M1) && Shape(c, M2) && x + c.chainLength <= Layers(c)
    requires (c.chainLength + 1) / 2 <= n <= c.chainLength
    ensures RefTwn(c, M1, M2, x, n, w) == RefTwn(c, M1, M2, x, (c.chainLength + 1) / 2, w)
  {
    if n > (c.chainLength + 1) / 2 {
      RefTwnHigh(c, M1, M2, x, n - 1, w);
      assert RefTwnLayer(c, M1, M2, x, n - 1, w) == {};
    }
  }

  /**
   * The two-step twin rule of sieve_run (a copy of cc2 at layer L/2 - 1,
   * OR of cc1 at layer (L+1)/2 - 1) gives the check's twin vector.
   */
  lemma RefTwnIsTwnWord(c: Config, M1: seq<seq<nat>>, M2: seq<seq<nat>>, x: nat, w: nat)
    requires Indexable(c) && Shape(c, M1) && Shape(c, M2) && x + c.chainLength <= Layers(c)
    ensures RefTwn(c, M1, M2, x, c.chainLength, w) == TwnWord(c, M1, M2, x, w)
  {
    RefTwnHigh(c, M1, M2, x, c.chainLength, w);
    RefTwnHalf(c, M1, M2, x, w);
  }

  /** The check's twin word up to (L+1)/2 is already the bi-twin word. */
  lemma RefTwnHalf(c: Config, M1: seq<seq<nat>>, M2: seq<seq<nat>>, x: nat, w: nat)
    requires Indexable(c) && Shape(c, M1) && Shape(c, M2) && x + c.chainLength <= Layers(c)
    ensures RefTwn(c, M1, M2, x, (c.chainLength + 1) / 2, w) == TwnWord(c, M1, M2, x, w)
  {
    RefTwnMiddle(c, M1, M2, x, (c.chainLength + 1) / 2, w);
  }

  // ---------------------------------------------------------------------
  // Offsets: the inverse of H mod p and its halvings

  /** The layer-l offset: the layer-0 offset halved l times mod p. */
  function LayerOffset(f: nat, t: nat, p: Modulus, l: nat): (r: nat)
    requires f < p
    ensures r < p
  {
    if l == 0 then f else (LayerOffset(f, t, p, l - 1) * t) % p
  }

  /** Prime i is sieved: it lies in [min, max) and does not divide H. */
  predicate Sieved(c: Config, H: nat, i: nat)
    requires Indexable(c) && i < c.maxPrime
  {
    c.minPrime <= i && H % c.primes[i] != 0
  }

  /** The cc1 offset of a sieved prime for layer l. */
  function Offset(c: Config, H: nat, i: nat, l: nat): (r: nat)
    requires Indexable(c) && i < c.maxPrime
    ensures r < c.primes[i]
  {
    LayerOffset(InverseOf(H % c.primes[i], c.primes[i]), c.twoInverses[i], c.primes[i], l)
  }

  /**
   * The cc1 table that `reinit_sieve` and `calc_multipliers` leave: the
   * offsets of sieved primes, the sentinel everywhere else.
   */
  function Cc1Table(c: Config, H: nat): (M: seq<seq<nat>>)
    requires Indexable(c)
    ensures Shape(c, M)
  {
    seq(c.maxPrime, i requires 0 <= i < c.maxPrime =>
      seq(Layers(c), l requires 0 <= l < Layers(c) => if Sieved(c, H, i) then Offset(c, H, i, l) else Sentinel))
  }

  /** The cc2 table: p minus the cc1 offset, the sentinel elsewhere. */
  function Cc2Table(c: Config, H: nat): (M: seq<seq<nat>>)
    requires Indexable(c)
    ensures Shape(c, M)
  {
    seq(c.maxPrime, i requires 0 <= i < c.maxPrime =>
      seq(Layers(c), l requires 0 <= l < Layers(c) => if Sieved(c, H, i) then c.primes[i] - Offset(c, H, i, l) else Sentinel))
  }

  /** Prime i can be used for sieving: a prime whose inverse of 2 is right. */
  predicate Usable(c: Config, i: nat)
    requires Indexable(c) && i < c.maxPrime
  {
    IsPrime(c.primes[i]) && (2 * c.twoInverses[i]) % c.primes[i] == 1
  }

  lemma ValidUsable(c: Config, i: nat)
    requires Indexable(c) && PrimesOk(c) && TwoInversesOk(c) && c.minPrime <= i < c.maxPrime
    ensures Usable(c, i)
  {
    assert PrimeOk(c, i);
  }

  /**
   * Halving an inverse of K l times gives an inverse of K * 2^l, when t
   * is the inverse of 2.
   */
  lemma {:induction false} LayerOffsetInverts(K: nat, f: nat, t: nat, p: Modulus, l: nat)
    requires p > 1 && f < p && ((K % p) * f) % p == 1 && (2 * t) % p == 1
    ensures (((K * Pow2(l)) % p) * LayerOffset(f, t, p, l)) % p == 1
  {
    if l > 0 {
      LayerOffsetInverts(K, f, t, p, l - 1);
      var K' := K * Pow2(l - 1);
      DoubledProduct(K, l - 1, 1);
      HalvingStep(K', p, LayerOffset(f, t, p, l - 1), t);
    }
  }

  /**
   * The layer-l offset is the inverse of H * 2^l mod p, by the halving
   * step of the header comment.
   */
  lemma OffsetInverts(c: Config, H: nat, i: nat, l: nat)
    requires Indexable(c) && i < c.maxPrime && Usable(c, i) && H % c.primes[i] != 0
    ensures (((H * Pow2(l)) % c.primes[i]) * Offset(c, H, i, l)) % c.primes[i] == 1
  {
    var p := c.primes[i];
    InverseSpec(H % p, p);
    LayerOffsetInverts(H, InverseOf(H % p, p), c.twoInverses[i], p, l);
  }

  /** Below p, being on the progression of f is having remainder f. */
  lemma ProgResidue(f: nat, p: Modulus, x: nat)
    requires f < p
    ensures InProg(f, p, x) <==> x % p == f
  {
    if InProg(f, p, x) {
      DivModUnique((x - f) / p, p, f);
      assert x == (x - f) / p * p + f;
    }
    if x % p == f {
      assert x - f == (x / p) * p;
      DivModUnique(x / p, p, 0);
    }
  }

  /** p divides x * H * 2^l - 1: the cc1 chain member of x at layer l. */
  predicate Cc1Divides(c: Config, H: nat, l: nat, i: nat, x: nat)
    requires Indexable(c) && i < c.maxPrime
  {
    H % c.primes[i] != 0 && (x * (H * Pow2(l))) % c.primes[i] == 1
  }

  /** p divides x * H * 2^l + 1: the cc2 chain member of x at layer l. */
  predicate Cc2Divides(c: Config, H: nat, l: nat, i: nat, x: nat)
    requires Indexable(c) && i < c.maxPrime
  {
    H % c.primes[i] != 0 && (x * (H * Pow2(l)) + 1) % c.primes[i] == 0
  }

  /**
   * Prime i marks x in cc1 layer l iff it divides x * H * 2^l - 1; a
   * prime that divides H marks nothing.
   */
  lemma Cc1PrimeExactly(c: Config, H: nat, l: nat, i: nat, x: nat)
    requires Indexable(c) && l < Layers(c) && c.minPrime <= i < c.maxPrime && Usable(c, i) && x < Sentinel
    ensures PrimeMarked(c, Cc1Table(c, H), l, i, x) <==> Cc1Divides(c, H, l, i, x)
  {
    var p := c.primes[i];
    if H % p == 0 {
      DividesNeither(H, Pow2(l), p, x);
    } else {
      OffsetInverts(c, H, i, l);
      MinusOneResidue(H * Pow2(l), Offset(c, H, i, l), p, x);
      ProgResidue(Offset(c, H, i, l), p, x);
    }
  }

  /**
   * Prime i marks x in cc2 layer l iff it divides x * H * 2^l + 1; a
   * prime that divides H marks nothing.
   */
  lemma Cc2PrimeExactly(c: Config, H: nat, l: nat, i: nat, x: nat)
    requires Indexable(c) && l < Layers(c) && c.minPrime <= i < c.maxPrime && Usable(c, i) && x < Sentinel
    ensures PrimeMarked(c, Cc2Table(c, H), l, i, x) <==> Cc2Divides(c, H, l, i, x)
  {
    var p := c.primes[i];
    if H % p == 0 {
      DividesNeither(H, Pow2(l), p, x);
    } else {
      OffsetInverts(c, H, i, l);
      PlusOneResidue(H * Pow2(l), Offset(c, H, i, l), p, x);
      ProgResidue(p - Offset(c, H, i, l), p, x);
    }
  }

  /**
   * The sieve words are exact: bit b of word w of cc1 layer l is set iff
   * some sieving prime divides k * H * 2^l - 1 for k = 64w + b, and of a
   * cc2 layer iff one divides k * H * 2^l + 1.
   */
  lemma LayerWordExactly(c: Config, H: nat, l: nat, w: nat, b: nat)
    requires Indexable(c) && PrimesOk(c) && TwoInversesOk(c) && l < Layers(c) && b < WordBits && Pos(w, b) < Sentinel
    ensures b in LayerWord(c, Cc1Table(c, H), l, w) <==>
      exists i :: c.minPrime <= i < c.maxPrime && Cc1Divides(c, H, l, i, Pos(w, b))
    ensures b in LayerWord(c, Cc2Table(c, H), l, w) <==>
      exists i :: c.minPrime <= i < c.maxPrime && Cc2Divides(c, H, l, i, Pos(w, b))
  {
    LayerWordIff(c, Cc1Table(c, H), l, w, b);
    LayerWordIff(c, Cc2Table(c, H), l, w, b);
    forall i | c.minPrime <= i < c.maxPrime
      ensures PrimeMarked(c, Cc1Table(c, H), l, i, Pos(w, b)) <==> Cc1Divides(c, H, l, i, Pos(w, b))
      ensures PrimeMarked(c, Cc2Table(c, H), l, i, Pos(w, b)) <==> Cc2Divides(c, H, l, i, Pos(w, b))
    {
      ValidUsable(c, i);
      Cc1PrimeExactly(c, H, l, i, Pos(w, b));
      Cc2PrimeExactly(c, H, l, i, Pos(w, b));
    }
  }

  /**
   * The accumulated vectors are exact: bit b of word w of the cc1 vector
   * over the layers [lo, hi) is set iff some sieving prime divides
   * k * H * 2^l - 1 for k = 64w + b and one of those layers, and of the
   * cc2 vector iff one divides k * H * 2^l + 1.
   */
  lemma AccumExactly(c: Config, H: nat, lo: nat, hi: nat, w: nat, b: nat)
    requires Indexable(c) && PrimesOk(c) && TwoInversesOk(c) && lo <= hi <= Layers(c) && b < WordBits && Pos(w, b) < Sentinel
    ensures b in Accum(c, Cc1Table(c, H), lo, hi, w) <==>
      exists l, i :: lo <= l < hi && c.minPrime <= i < c.maxPrime && Cc1Divides(c, H, l, i, Pos(w, b))
    ensures b in Accum(c, Cc2Table(c, H), lo, hi, w) <==>
      exists l, i :: lo <= l < hi && c.minPrime <= i < c.maxPrime && Cc2Divides(c, H, l, i, Pos(w, b))
  {
    AccumIff(c, Cc1Table(c, H), lo, hi, w, b);
    AccumIff(c, Cc2Table(c, H), lo, hi, w, b);
    forall l | lo <= l < hi
      ensures b in LayerWord(c, Cc1Table(c, H), l, w) <==>
        exists i :: c.minPrime <= i < c.maxPrime && Cc1Divides(c, H, l, i, Pos(w, b))
      ensures b in LayerWord(c, Cc2Table(c, H), l, w) <==>
        exists i :: c.minPrime <= i < c.maxPrime && Cc2Divides(c, H, l, i, Pos(w, b))
    {
      LayerWordExactly(c, H, l, w, b);
    }
  }

  /**
   * The final mask word of the vector whose layers start at x: a bit is
   * set when it is set in the cc1, the cc2 and the bi-twin vector, so it
   * is clear when the position is a candidate of at least one chain type.
   */
  function MaskWord(c: Config, M1: seq<seq<nat>>, M2: seq<seq<nat>>, x: nat, w: nat): Word
    requires Indexable(c) && Shape(c, M1) && Shape(c, M2) && x + c.chainLength <= Layers(c)
  {
    Accum(c, M1, x, x + c.chainLength, w) * Accum(c, M2, x, x + c.chainLength, w) * TwnWord(c, M1, M2, x, w)
  }

  /**
   * No sieving prime divides a cc1 chain member k * H * 2^l - 1 of k for
   * a layer l in [lo, hi) (stated layer by layer; NoDivisorIff gives the
   * quantified form).
   */
  ghost predicate NoCc1Divisor(c: Config, H: nat, lo: nat, hi: nat, k: nat)
    requires Indexable(c)
    decreases hi - lo
  {
    lo >= hi || ((forall i :: c.minPrime <= i < c.maxPrime ==> !Cc1Divides(c, H, lo, i, k)) && NoCc1Divisor(c, H, lo + 1, hi, k))
  }

  /** No sieving prime divides a cc2 chain member k * H * 2^l + 1 of k for a layer l in [lo, hi). */
  ghost predicate NoCc2Divisor(c: Config, H: nat, lo: nat, hi: nat, k: nat)
    requires Indexable(c)
    decreases hi - lo
  {
    lo >= hi || ((forall i :: c.minPrime <= i < c.maxPrime ==> !Cc2Divides(c, H, lo, i, k)) && NoCc2Divisor(c, H, lo + 1, hi, k))
  }

  /** NoCc1Divisor and NoCc2Divisor say that no layer in [lo, hi) has a dividing sieving prime. */
  lemma {:induction false} NoDivisorIff(c: Config, H: nat, lo: nat, hi: nat, k: nat)
    requires Indexable(c)
    ensures NoCc1Divisor(c, H, lo, hi, k) <==>
      !exists l, i :: lo <= l < hi && c.minPrime <= i < c.maxPrime && Cc1Divides(c, H, l, i, k)
    ensures NoCc2Divisor(c, H, lo, hi, k) <==>
      !exists l, i :: lo <= l < hi && c.minPrime <= i < c.maxPrime && Cc2Divides(c, H, l, i, k)
    decreases hi - lo
  {
    if lo < hi {
      NoDivisorIff(c, H, lo + 1, hi, k);
    }
  }

  /**
   * The final masks are exact: bit b of word w of the mask whose layers
   * start at x is clear iff k = 64w + b survives the sieve for at least
   * one chain type — no sieving prime divides its cc1 members over the
   * chain's layers, or none divides its cc2 members, or none divides its
   * bi-twin members (cc2 over L/2 layers and cc1 over (L+1)/2 layers).
   */
  lemma MaskExactly(c: Config, H: nat, x: nat, w: nat, b: nat)
    requires Indexable(c) && PrimesOk(c) && TwoInversesOk(c) && x + c.chainLength <= Layers(c)
    requires b < WordBits && Pos(w, b) < Sentinel
    ensures (b !in MaskWord(c, Cc1Table(c, H), Cc2Table(c, H), x, w)) ==
      AnyChain(NoCc1Divisor(c, H, x, x + c.chainLength, Pos(w, b)),
               NoCc2Divisor(c, H, x, x + c.chainLength, Pos(w, b)),
               NoCc2Divisor(c, H, x, x + c.chainLength / 2, Pos(w, b)),
               NoCc1Divisor(c, H, x, x + (c.chainLength + 1) / 2, Pos(w, b)))
  {
    AccumClear(c, H, x, x + c.chainLength, w, b);
    TwinClear(c, H, x, w, b);
  }

  /**
   * A position is a candidate when it is one for the cc1 chain, for the
   * cc2 chain, or for the bi-twin chain (its cc2 and its cc1 half).
   */
  predicate AnyChain(cc1: bool, cc2: bool, twinCc2: bool, twinCc1: bool)
  {
    cc1 || cc2 || (twinCc2 && twinCc1)
  }

  /**
   * The bi-twin word is exact: a bit is clear iff no sieving prime
   * divides the cc2 members of the position over L/2 layers nor its cc1
   * members over (L+1)/2 layers.
   */
  lemma TwinClear(c: Config, H: nat, x: nat, w: nat, b: nat)
    requires Indexable(c) && PrimesOk(c) && TwoInversesOk(c) && x + c.chainLength <= Layers(c)
    requires b < WordBits && Pos(w, b) < Sentinel
    ensures (b !in TwnWord(c, Cc1Table(c, H), Cc2Table(c, H), x, w)) ==
      (NoCc2Divisor(c, H, x, x + c.chainLength / 2, Pos(w, b)) &&
       NoCc1Divisor(c, H, x, x + (c.chainLength + 1) / 2, Pos(w, b)))
  {
    AccumClear(c, H, x, x + c.chainLength / 2, w, b);
    AccumClear(c, H, x, x + (c.chainLength + 1) / 2, w, b);
  }

  /** AccumExactly in terms of NoCc1Divisor and NoCc2Divisor. */
  lemma AccumClear(c: Config, H: nat, lo: nat, hi: nat, w: nat, b: nat)
    requires Indexable(c) && PrimesOk(c) && TwoInversesOk(c) && lo <= hi <= Layers(c) && b < WordBits && Pos(w, b) < Sentinel
    ensures (b !in Accum(c, Cc1Table(c, H), lo, hi, w)) == NoCc1Divisor(c, H, lo, hi, Pos(w, b))
    ensures (b !in Accum(c, Cc2Table(c, H), lo, hi, w)) == NoCc2Divisor(c, H, lo, hi, Pos(w, b))
  {
    AccumExactly(c, H, lo, hi, w, b);
    NoDivisorIff(c, H, lo, hi, Pos(w, b));
  }

  /** k * H * 2^(l+1) == 2k * H * 2^l */
  lemma DoubledProduct(H: nat, l: nat, k: nat)
    ensures k * (H * Pow2(l + 1)) == (2 * k) * (H * Pow2(l))
  {
    assert Pow2(l + 1) == 2 * Pow2(l);
  }

  /**
   * Why only the second half of an extension is sieved: position k in a
   * layer one higher is marked by exactly the primes that mark position
   * 2k.
   */
  lemma DoubledPosition(c: Config, H: nat, l: nat, i: nat, k: nat)
    requires Indexable(c) && l + 1 < Layers(c) && c.minPrime <= i < c.maxPrime && Usable(c, i) && 2 * k < Sentinel
    ensures PrimeMarked(c, Cc1Table(c, H), l + 1, i, k) <==> PrimeMarked(c, Cc1Table(c, H), l, i, 2 * k)
    ensures PrimeMarked(c, Cc2Table(c, H), l + 1, i, k) <==> PrimeMarked(c, Cc2Table(c, H), l, i, 2 * k)
  {
    DoubledProduct(H, l, k);
    Cc1PrimeExactly(c, H, l + 1, i, k);
    Cc1PrimeExactly(c, H, l, i, 2 * k);
    Cc2PrimeExactly(c, H, l + 1, i, k);
    Cc2PrimeExactly(c, H, l, i, 2 * k);
  }
}
