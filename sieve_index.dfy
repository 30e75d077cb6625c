/**
 * The index macros of the sieve header (`word_index`, `bit_index`,
 * `byte_index`), the bit operations on 64-bit sieve words, and the modular
 * algebra that the header's long comment uses to justify the layered sieve.
 */
module SieveIndex {
  import opened Numbers

  // ---------------------------------------------------------------------
  // Index macros, in both word configurations (64-bit is the default)

  /** `word_index` of the 64-bit build: index >> 6 */
  function WordIndex64(i: bv32): bv32 { i >> 6 }

  /** `bit_index` of the 64-bit build: index & 0x3F */
  function BitIndex64(i: bv32): bv32 { i & 0x3F }

  /** `word_index` of the 32-bit build (USE_32_BIT_WORDS): index >> 5 */
  function WordIndex32(i: bv32): bv32 { i >> 5 }

  /** `bit_index` of the 32-bit build: index & 0x1F */
  function BitIndex32(i: bv32): bv32 { i & 0x1F }

  /** `byte_index`: index >> 3 */
  function ByteIndex(i: bv32): bv32 { i >> 3 }

  /**
   * In the 64-bit build word_index(i) * 64 + bit_index(i) == i with
   * bit_index(i) < 64: the shift and the mask are the quotient and the
   * remainder of a division by the word size.
   */
  lemma Index64Split(i: bv32)
    ensures BitIndex64(i) < 64
    ensures WordIndex64(i) * 64 + BitIndex64(i) == i
    ensures WordIndex64(i) == i / 64 && BitIndex64(i) == i % 64
  {
  }

  /** The same for the 32-bit build with 32-bit words. */
  lemma Index32Split(i: bv32)
    ensures BitIndex32(i) < 32
    ensures WordIndex32(i) * 32 + BitIndex32(i) == i
    ensures WordIndex32(i) == i / 32 && BitIndex32(i) == i % 32
  {
  }

  /** byte_index(i) is i div 8. */
  lemma ByteIndexIsDiv(i: bv32)
    ensures ByteIndex(i) == i / 8
  {
  }

  /**
   * `cache_bytes` (byte_index of cache_bits) covers exactly the
   * `cache_words` (word_index of cache_bits) 64-bit words iff fewer than 8
   * bits are left over after the whole words; in particular it does when
   * cache_bits is a multiple of the word size.
   */
  lemma CacheBytesCoverWords(cacheBits: bv32)
    ensures ByteIndex(cacheBits) == 8 * WordIndex64(cacheBits) <==> BitIndex64(cacheBits) < 8
    ensures cacheBits % 64 == 0 ==> ByteIndex(cacheBits) == 8 * WordIndex64(cacheBits)
  {
  }

  // ---------------------------------------------------------------------
  // Sieve words

  /**
   * A 64-bit sieve word (`sieve_t`), represented by the positions of its
   * one bits: `|` is union, `&` intersection, `1 << b` the singleton {b}
   * and `word & (1 << b) == 0` is `b !in word`.
   */
  type Word = set<nat>

  /** The number of bits in a sieve word. */
  const WordBits: nat := 64

  /** `word_max`: a word without any candidate left. */
  const WordMax: Word := set b: nat | b < WordBits

  /** Every bit position of the word is below the word size. */
  predicate IsWord(x: Word)
  {
    forall b :: b in x ==> b < WordBits
  }

  // ---------------------------------------------------------------------
  // The modular algebra of the sieve header comment

  /**
   * If i is the inverse of H mod p, every H * (i + n * p) leaves remainder
   * 1, so H * (i + n * p) + ... - 1 is divisible by p for every n.
   */
  lemma InverseProgression(H: nat, p: nat, i: nat, n: nat)
    requires p > 1 && ((H % p) * i) % p == 1
    ensures (H * (i + n * p)) % p == 1
  {
    var a := H * n;
    assert H * (n * p) == a * p;
    assert H * (i + n * p) == a * p + H * i;
    ModOfMultiple(a, p, H * i);
    MulModLeft(H, i, p);
  }

  /**
   * If t is the inverse of 2 and i the offset for H, then (i * t) mod p is
   * the offset for 2H: (2H * ((t * i) mod p)) mod p == 1.
   */
  lemma HalvingInverse(H: nat, p: nat, i: nat, t: nat)
    requires p > 1 && ((H % p) * i) % p == 1 && (2 * t) % p == 1
    ensures ((2 * H) * ((t * i) % p)) % p == 1
  {
    calc {
      ((2 * H) * ((t * i) % p)) % p;
      { MulMod(2 * H, t * i, p); MulMod(2 * H, (t * i) % p, p);
        DivModUnique(0, p, (t * i) % p); }
      ((2 * H) * (t * i)) % p;
      { assert (2 * H) * (t * i) == (2 * t) * (H * i); }
      ((2 * t) * (H * i)) % p;
      { MulMod(2 * t, H * i, p); }
      (((2 * t) % p) * ((H * i) % p)) % p;
      (1 * ((H * i) % p)) % p;
      { DivModUnique(0, p, (H * i) % p); }
      (H * i) % p;
      { MulModLeft(H, i, p); }
      ((H % p) * i) % p;
    }
  }

  /** The same in the form the offset table keeps: reduced factors. */
  lemma HalvingStep(H: nat, p: nat, i: nat, t: nat)
    requires p > 1 && ((H % p) * i) % p == 1 && (2 * t) % p == 1
    ensures (((2 * H) % p) * ((i * t) % p)) % p == 1
  {
    HalvingInverse(H, p, i, t);
    assert i * t == t * i;
    MulModLeft(2 * H, (t * i) % p, p);
  }
}
