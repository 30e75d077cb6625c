/**
 * The Primecoin block header of the miner: its packed 128-byte layout, the
 * little-endian conversions between byte strings and integers
 * (`mpz_set_sha256`, `mpz_to_ary`), and the header operations
 * `header_set_null`, `header_set_time`, `get_header_hash` and
 * `mine_header_hash`.  SHA-256 is a parameter of the model.
 */
module Block {
  import opened Numbers

  /** An unsigned byte. */
  newtype u8 = x: int | 0 <= x < 0x100

  /** An unsigned 32-bit word. */
  newtype u32 = x: int | 0 <= x < 0x1_0000_0000

  const U32Max: u32 := 0xFFFF_FFFF
  const TwoTo32: nat := 0x1_0000_0000
  const TwoTo64: nat := 0x1_0000_0000_0000_0000
  const TwoTo255: nat := 0x8000_0000_0000_0000_0000_0000_0000_0000_0000_0000_0000_0000_0000_0000_0000_0000

  /** A SHA-256 digest. */
  type Digest = s: seq<u8> | |s| == 32 witness seq(32, _ => 0 as u8)

  const BlockHeaderVersion: int := 2
  const HashLength: nat := 32
  const MultiplierLength: nat := 47
  const BlockHeaderLength: nat := 128

  /** Byte offsets of the fields in the packed struct. */
  const VersionOffset: nat := 0
  const PrevBlockOffset: nat := 4
  const MerkleRootOffset: nat := 36
  const TimeOffset: nat := 68
  const DifficultyOffset: nat := 72
  const NonceOffset: nat := 76
  const MultiplierLengthOffset: nat := 80
  const MultiplierOffset: nat := 81

  /** The hashed part of the header ends after the nonce. */
  const HashedLength: nat := 80

  // ---------------------------------------------------------------------
  // Little-endian conversions

  /**
   * The value of a little-endian byte string (least significant byte
   * first), as `mpz_import(.., -1, 1, -1, 0, ..)` reads it.
   */
  function FromLE(bytes: seq<u8>): nat
  {
    if |bytes| == 0 then 0 else bytes[0] as nat + 256 * FromLE(bytes[1..])
  }

  /** The n least significant bytes of v, least significant first. */
  function LE(v: nat, n: nat): seq<u8>
  {
    if n == 0 then [] else [(v % 256) as u8] + LE(v / 256, n - 1)
  }

  /**
   * `mpz_to_ary` (`mpz_export(.., -1, 1, -1, 0, ..)`): the shortest
   * little-endian byte string of v; zero exports no byte at all.
   */
  function ToLE(v: nat): seq<u8>
  {
    if v == 0 then [] else [(v % 256) as u8] + ToLE(v / 256)
  }

  lemma Pow2Step(k: nat)
    ensures Pow2(8 * (k + 1)) == 256 * Pow2(8 * k)
  {
    Pow2Add(8 * k, 8);
    assert Pow2(8) == 256;
  }

  /** A string of n bytes stands for a value below 2^(8n). */
  lemma {:induction false} FromLEBound(bytes: seq<u8>)
    ensures FromLE(bytes) < Pow2(8 * |bytes|)
  {
    if |bytes| > 0 {
      FromLEBound(bytes[1..]);
      Pow2Step(|bytes| - 1);
    }
  }

  /** Reading a concatenation: the high part is shifted by the length of the low part. */
  lemma {:induction false} FromLEAppend(a: seq<u8>, b: seq<u8>)
    ensures FromLE(a + b) == FromLE(a) + Pow2(8 * |a|) * FromLE(b)
  {
    if |a| > 0 {
      assert (a + b)[1..] == a[1..] + b;
      assert (a + b)[0] == a[0];
      FromLEAppend(a[1..], b);
      Pow2Step(|a| - 1);
      ShiftByte(a[0] as nat, FromLE(a[1..]), Pow2(8 * (|a| - 1)), FromLE(b));
    } else {
      assert a + b == b;
    }
  }

  lemma ShiftByte(c: nat, x: nat, p: nat, y: nat)
    ensures c + 256 * (x + p * y) == (c + 256 * x) + (256 * p) * y
  {
  }

  /** Writing n bytes and reading them back gives v for every v below 2^(8n). */
  lemma {:induction false} LERoundTrip(v: nat, n: nat)
    requires v < Pow2(8 * n)
    ensures |LE(v, n)| == n && FromLE(LE(v, n)) == v
  {
    if n > 0 {
      Pow2Step(n - 1);
      LERoundTrip(v / 256, n - 1);
      assert LE(v, n)[1..] == LE(v / 256, n - 1);
    }
  }

  /** Reading n bytes and writing the value back as n bytes gives the bytes. */
  lemma {:induction false} LEOfFromLE(bytes: seq<u8>)
    ensures LE(FromLE(bytes), |bytes|) == bytes
  {
    if |bytes| > 0 {
      var v := FromLE(bytes);
      DivModUnique(FromLE(bytes[1..]), 256, bytes[0] as nat);
      assert v % 256 == bytes[0] as nat && v / 256 == FromLE(bytes[1..]);
      LEOfFromLE(bytes[1..]);
    }
  }

  /**
   * `mpz_to_ary` writes the shortest encoding: reading it back gives v,
   * and its last byte, if any, is not zero.
   */
  lemma {:induction false} ToLERoundTrip(v: nat)
    ensures FromLE(ToLE(v)) == v
    ensures |ToLE(v)| == 0 || ToLE(v)[|ToLE(v)| - 1] != 0
    decreases v
  {
    if v > 0 {
      ToLERoundTrip(v / 256);
      assert ToLE(v)[1..] == ToLE(v / 256);
    }
  }

  /** A byte string without trailing zero bytes is the export of its value. */
  lemma {:induction false} ToLEOfFromLE(bytes: seq<u8>)
    requires |bytes| == 0 || bytes[|bytes| - 1] != 0
    ensures ToLE(FromLE(bytes)) == bytes
  {
    if |bytes| > 0 {
      var v := FromLE(bytes);
      DivModUnique(FromLE(bytes[1..]), 256, bytes[0] as nat);
      if |bytes| > 1 {
        ToLEOfFromLE(bytes[1..]);
        FromLEPositive(bytes[1..]);
      } else {
        assert bytes[1..] == [];
      }
    }
  }

  /** A byte string whose last byte is not zero has a positive value. */
  lemma {:induction false} FromLEPositive(bytes: seq<u8>)
    requires |bytes| > 0 && bytes[|bytes| - 1] != 0
    ensures FromLE(bytes) > 0
  {
    if |bytes| > 1 {
      FromLEPositive(bytes[1..]);
    }
  }

  /** The export of v fits into n bytes exactly when v < 2^(8n). */
  lemma {:induction false} ToLELength(v: nat, n: nat)
    ensures |ToLE(v)| <= n <==> v < Pow2(8 * n)
    decreases v
  {
    if v > 0 {
      if n > 0 {
        ToLELength(v / 256, n - 1);
        Pow2Step(n - 1);
      } else {
        assert Pow2(0) == 1;
      }
    }
  }

  /** `mpz_set_sha256`: the hash read as a little-endian number. */
  function HashToNat(hash: Digest): (v: nat)
  {
    FromLE(hash)
  }

  /** A digest is a number below 2^256. */
  lemma HashBound(hash: Digest)
    ensures HashToNat(hash) < Pow2(256)
  {
    FromLEBound(hash);
  }

  /** `hash[31] & 0x80` */
  predicate TopBitSet(b: u8)
  {
    (b as bv8) & 0x80 != 0
  }

  lemma TopBitSetIff(b: u8)
    ensures TopBitSet(b) <==> b >= 128
  {
  }

  /**
   * The test of `mine_header_hash` on the last digest byte: its top bit is
   * set exactly when the hash as a number is at least 2^255.
   */
  lemma TopBitMeansLarge(hash: Digest)
    ensures TopBitSet(hash[31]) <==> HashToNat(hash) >= TwoTo255
  {
    Pow2Of255();
    TopBitSetIff(hash[31]);
    var low := hash[..31];
    assert hash == low + [hash[31]];
    FromLEAppend(low, [hash[31]]);
    assert FromLE([hash[31]]) == hash[31] as nat by {
      assert [hash[31]][1..] == [];
    }
    FromLEBound(low);
    Pow2Add(248, 7);
    assert Pow2(7) == 128;
    TopDigit(FromLE(low), Pow2(248), hash[31] as nat);
  }

  /** low + p * c with low < p reaches 128 * p exactly when c >= 128. */
  lemma TopDigit(low: nat, p: nat, c: nat)
    requires low < p
    ensures low + p * c >= p * 128 <==> c >= 128
  {
    if c >= 128 {
      MulMonotone(c, 128, p);
    } else {
      MulMonotone(127, c, p);
    }
  }

  // ---------------------------------------------------------------------
  // The header

  class Header {
    /** `int32_t version` */
    var version: int
    var hashPrevBlock: seq<u8>
    var hashMerkleRoot: seq<u8>
    var time: u32
    var difficulty: u32
    /** the value changed to change the header hash */
    var nonce: u32
    var multiplierLength: u8
    var primeMultiplier: seq<u8>

    /** The fixed widths of the packed struct. */
    ghost predicate Valid()
      reads this
    {
      -0x8000_0000 <= version < 0x8000_0000 &&
      |hashPrevBlock| == HashLength && |hashMerkleRoot| == HashLength &&
      |primeMultiplier| == MultiplierLength
    }

    /** A zero-filled header as `calloc` returns it. */
    constructor ()
      ensures Valid()
      ensures version == 0 && time == 0 && difficulty == 0 && nonce == 0 && multiplierLength == 0
      ensures hashPrevBlock == Zeros(HashLength) && hashMerkleRoot == Zeros(HashLength)
      ensures primeMultiplier == Zeros(MultiplierLength)
    {
      version := 0;
      hashPrevBlock := Zeros(HashLength);
      hashMerkleRoot := Zeros(HashLength);
      time := 0;
      difficulty := 0;
      nonce := 0;
      multiplierLength := 0;
      primeMultiplier := Zeros(MultiplierLength);
    }

    /** The 128 bytes of the packed struct in memory (a little-endian machine). */
    function Bytes(): seq<u8>
      reads this
      requires Valid()
    {
      LE(version % TwoTo32, 4) + hashPrevBlock + hashMerkleRoot +
      LE(time as nat, 4) + LE(difficulty as nat, 4) + LE(nonce as nat, 4) +
      [multiplierLength] + primeMultiplier
    }

    /**
     * What `get_header_hash` feeds to SHA-256: version, both hashes, time,
     * difficulty and nonce, in this order.
     */
    function HashInput(): seq<u8>
      reads this
      requires Valid()
    {
      HashInputOf(version, hashPrevBlock, hashMerkleRoot, time, difficulty, nonce)
    }

    /** `header_set_null` */
    method SetNull()
      requires Valid()
      modifies this
      ensures Valid()
      ensures version == BlockHeaderVersion && time == 0 && difficulty == 0 && nonce == 0
      ensures hashPrevBlock == Zeros(HashLength) && hashMerkleRoot == Zeros(HashLength)
      ensures primeMultiplier == Zeros(MultiplierLength)
      ensures multiplierLength == old(multiplierLength)
    {
      version := BlockHeaderVersion;
      time := 0;
      difficulty := 0;
      nonce := 0;
      hashPrevBlock := Zeros(HashLength);
      hashMerkleRoot := Zeros(HashLength);
      primeMultiplier := Zeros(MultiplierLength);
    }

    /**
     * `header_set_time`, with the clock reading `now` and the option
     * `time_offset` as parameters.
     */
    method SetTime(nThreads: u32, curThread: u32, now: nat, timeOffset: nat)
      requires Valid() && nThreads > 0
      modifies this
      ensures Valid()
      ensures time == ThreadTime(timeOffset, now, nThreads, curThread)
      ensures version == old(version) && hashPrevBlock == old(hashPrevBlock)
      ensures hashMerkleRoot == old(hashMerkleRoot) && difficulty == old(difficulty)
      ensures nonce == old(nonce) && multiplierLength == old(multiplierLength)
      ensures primeMultiplier == old(primeMultiplier)
    {
      var m := NextMultiple(now, nThreads as nat);
      var t0: nat := timeOffset % TwoTo32;
      var t1: nat := (t0 + m) % TwoTo32;
      var t: nat := (t1 + curThread as nat) % TwoTo32;
      TimeSteps(timeOffset, now, nThreads, curThread, m, t0, t1, t);
      time := t as u32;
    }
  }

  /** The bytes of the six hashed fields, in the order of the SHA-256 updates. */
  function HashInputOf(version: int, prev: seq<u8>, merkle: seq<u8>, time: u32, difficulty: u32,
                       nonce: u32): seq<u8>
  {
    LE(version % TwoTo32, 4) + prev + merkle + LE(time as nat, 4) + LE(difficulty as nat, 4) + LE(nonce as nat, 4)
  }

  /** n zero bytes */
  function Zeros(n: nat): (z: seq<u8>)
    ensures |z| == n && forall i :: 0 <= i < n ==> z[i] == 0
  {
    seq(n, _ => 0 as u8)
  }

  /** Splitting a concatenation at the length of its first part. */
  lemma SplitAt(a: seq<u8>, b: seq<u8>)
    ensures (a + b)[..|a|] == a && (a + b)[|a|..] == b
  {
  }

  /** The 4-byte little-endian fields read back as the values written. */
  lemma Field32(v: nat)
    requires v < TwoTo32
    ensures |LE(v, 4)| == 4 && FromLE(LE(v, 4)) == v
  {
    assert Pow2(8) == 256;
    Pow2Square(8, 256);
    Pow2Square(16, 0x1_0000);
    LERoundTrip(v, 4);
  }

  /**
   * The packed layout: every field sits at its offset with its width, and
   * the widths 4 + 32 + 32 + 4 + 4 + 4 + 1 + 47 add up to 128.
   */
  lemma HeaderLayout(h: Header)
    requires h.Valid()
    ensures var b := h.Bytes();
      |b| == BlockHeaderLength &&
      b[VersionOffset..PrevBlockOffset] == LE(h.version % TwoTo32, 4) &&
      b[PrevBlockOffset..MerkleRootOffset] == h.hashPrevBlock &&
      b[MerkleRootOffset..TimeOffset] == h.hashMerkleRoot &&
      b[TimeOffset..DifficultyOffset] == LE(h.time as nat, 4) &&
      b[DifficultyOffset..NonceOffset] == LE(h.difficulty as nat, 4) &&
      b[NonceOffset..MultiplierLengthOffset] == LE(h.nonce as nat, 4) &&
      b[MultiplierLengthOffset] == h.multiplierLength &&
      b[MultiplierOffset..] == h.primeMultiplier
  {
    var v := LE(h.version % TwoTo32, 4);
    var t := LE(h.time as nat, 4);
    var d := LE(h.difficulty as nat, 4);
    var n := LE(h.nonce as nat, 4);
    Field32(h.version % TwoTo32);
    Field32(h.time as nat);
    Field32(h.difficulty as nat);
    Field32(h.nonce as nat);
    var p1 := v + h.hashPrevBlock;
    var p2 := p1 + h.hashMerkleRoot;
    var p3 := p2 + t;
    var p4 := p3 + d;
    var p5 := p4 + n;
    var p6 := p5 + [h.multiplierLength];
    var b := p6 + h.primeMultiplier;
    assert b == h.Bytes();
    SplitAt(p6, h.primeMultiplier);
    SplitAt(p5, [h.multiplierLength]);
    SplitAt(p4, n);
    SplitAt(p3, d);
    SplitAt(p2, t);
    SplitAt(p1, h.hashMerkleRoot);
    SplitAt(v, h.hashPrevBlock);
    assert b[..81] == p6 && b[..80] == p5 && b[..76] == p4 && b[..72] == p3;
    assert b[..68] == p2 && b[..36] == p1;
  }

  /** The integer fields read back from their bytes. */
  lemma HeaderFieldValues(h: Header)
    requires h.Valid()
    ensures var b := h.Bytes();
      |b| == BlockHeaderLength &&
      FromLE(b[VersionOffset..PrevBlockOffset]) == h.version % TwoTo32 &&
      FromLE(b[TimeOffset..DifficultyOffset]) == h.time as nat &&
      FromLE(b[DifficultyOffset..NonceOffset]) == h.difficulty as nat &&
      FromLE(b[NonceOffset..MultiplierLengthOffset]) == h.nonce as nat
  {
    HeaderLayout(h);
    Field32(h.version % TwoTo32);
    Field32(h.time as nat);
    Field32(h.difficulty as nat);
    Field32(h.nonce as nat);
  }

  /**
   * The hash input is exactly the first 80 bytes of the header, from
   * `version` through `nonce`; `multiplier_length` and the multiplier are
   * not hashed.
   */
  lemma HashInputIsPrefix(h: Header)
    requires h.Valid()
    ensures |h.HashInput()| == HashedLength && h.HashInput() == h.Bytes()[..HashedLength]
  {
    Field32(h.version % TwoTo32);
    Field32(h.time as nat);
    Field32(h.difficulty as nat);
    Field32(h.nonce as nat);
    var p5 := h.HashInput();
    var p6 := p5 + [h.multiplierLength];
    assert h.Bytes() == p6 + h.primeMultiplier;
    SplitAt(p6, h.primeMultiplier);
    SplitAt(p5, [h.multiplierLength]);
    assert h.Bytes()[..80] == p6[..80];
  }

  /** `get_header_hash`: SHA-256 applied twice to the hash input. */
  function HeaderHash(sha: seq<u8> -> Digest, h: Header): Digest
    reads h
    requires h.Valid()
  {
    sha(sha(h.HashInput()))
  }

  // ---------------------------------------------------------------------
  // header_set_time

  /**
   * `((now + n) / n) * n`: the least multiple of n that is greater than
   * now.
   */
  function NextMultiple(now: nat, n: nat): (m: nat)
    requires n > 0
    ensures m % n == 0 && now < m <= now + n
  {
    var q := (now + n) / n;
    DivModUnique(q, n, 0);
    assert now + n == q * n + (now + n) % n;
    q * n
  }

  /** Adding in three 32-bit steps is adding once mod 2^32. */
  lemma WrappingSum(a: nat, b: nat, c: nat)
    ensures ((a % TwoTo32 + b) % TwoTo32 + c) % TwoTo32 == (a + b + c) % TwoTo32
  {
    ReduceLeft(a % TwoTo32 + b, c, TwoTo32);
    ReduceLeft(a, b + c, TwoTo32);
    assert a % TwoTo32 + b + c == a % TwoTo32 + (b + c);
  }

  /** The three wrapping additions of `set_time` give the thread's time. */
  lemma TimeSteps(timeOffset: nat, now: nat, nThreads: u32, curThread: u32, m: nat, t0: nat, t1: nat, t: nat)
    requires nThreads > 0 && m == NextMultiple(now, nThreads as nat)
    requires t0 == timeOffset % TwoTo32 && t1 == (t0 + m) % TwoTo32 && t == (t1 + curThread as nat) % TwoTo32
    ensures t < TwoTo32 && t as u32 == ThreadTime(timeOffset, now, nThreads, curThread)
  {
    WrappingSum(timeOffset, m, curThread as nat);
  }

  /** Reducing the left summand first does not change the remainder. */
  lemma ReduceLeft(x: nat, c: nat, m: nat)
    requires m > 0
    ensures (x % m + c) % m == (x + c) % m
  {
    var q := x / m;
    assert x + c == q * m + (x % m + c);
    ModOfMultiple(q, m, x % m + c);
  }

  /**
   * The time `header_set_time` stores: time_offset, plus the next multiple
   * of n_threads after now, plus the thread id, in 32-bit arithmetic.
   */
  function ThreadTime(timeOffset: nat, now: nat, nThreads: u32, curThread: u32): u32
    requires nThreads > 0
  {
    ((timeOffset + NextMultiple(now, nThreads as nat) + curThread as nat) % TwoTo32) as u32
  }

  /**
   * Threads with different ids below n_threads get different times: the
   * times are, mod 2^32, one multiple of n_threads plus the thread id.
   */
  lemma ThreadTimesDistinct(timeOffset: nat, now: nat, nThreads: u32, a: u32, b: u32)
    requires 0 < nThreads && a < nThreads && b < nThreads && a != b
    ensures ThreadTime(timeOffset, now, nThreads, a) != ThreadTime(timeOffset, now, nThreads, b)
  {
    var base := timeOffset + NextMultiple(now, nThreads as nat);
    if a < b {
      DistinctResidues(base + a as nat, (b - a) as nat, TwoTo32);
    } else {
      DistinctResidues(base + b as nat, (a - b) as nat, TwoTo32);
    }
  }

  /** x and x + d leave different remainders mod m when 0 < d < m. */
  lemma DistinctResidues(x: nat, d: nat, m: nat)
    requires 0 < d < m
    ensures (x + d) % m != x % m
  {
    var q, r := x / m, x % m;
    assert x == q * m + r;
    if r + d < m {
      DivModUnique(q, m, r + d);
    } else {
      assert x + d == (q + 1) * m + (r + d - m);
      DivModUnique(q + 1, m, r + d - m);
    }
  }

  // ---------------------------------------------------------------------
  // mine_header_hash

  /** The (time, nonce) pair of the header. */
  datatype Stamp = Stamp(time: u32, nonce: u32)

  /**
   * One step of `mine_header_hash`: the nonce goes up by one, and when it
   * was UINT32_MAX the time first moves on by n_threads.
   */
  function Step(s: Stamp, nThreads: u32): Stamp
  {
    if s.nonce == U32Max then Stamp(((s.time as nat + nThreads as nat) % TwoTo32) as u32, 0)
    else Stamp(s.time, s.nonce + 1)
  }

  /** k steps */
  function Advance(s: Stamp, nThreads: u32, k: nat): Stamp
  {
    if k == 0 then s else Step(Advance(s, nThreads, k - 1), nThreads)
  }

  /** After k steps the nonce has gone up by k, wrapping at 2^32. */
  lemma {:induction false} AdvanceNonce(s: Stamp, nThreads: u32, k: nat)
    ensures Advance(s, nThreads, k).nonce as nat == (s.nonce as nat + k) % TwoTo32
  {
    if k > 0 {
      AdvanceNonce(s, nThreads, k - 1);
      var x := s.nonce as nat + k - 1;
      AddMod(x, 1, TwoTo32);
      assert (x % TwoTo32 + 1) % TwoTo32 == (x + 1) % TwoTo32;
    }
  }

  /**
   * After k steps the time has moved on by n_threads once for every wrap
   * of the nonce.
   */
  lemma {:induction false} AdvanceTime(s: Stamp, nThreads: u32, k: nat)
    ensures Advance(s, nThreads, k).time as nat ==
      Later(s.time as nat, nThreads as nat, (s.nonce as nat + k) / TwoTo32)
  {
    if k == 0 {
      DivModUnique(0, TwoTo32, s.nonce as nat);
    } else {
      var prev := Advance(s, nThreads, k - 1);
      var x := s.nonce as nat + (k - 1);
      AdvanceTime(s, nThreads, k - 1);
      AdvanceNonce(s, nThreads, k - 1);
      StampStep(s.time as nat, nThreads, x, prev);
      assert x + 1 == s.nonce as nat + k;
    }
  }

  /** The time t moved on by n for each of w wraps of the nonce, mod 2^32. */
  function Later(t: nat, n: nat, w: nat): nat
  {
    (t + n * w) % TwoTo32
  }

  /** One step of AdvanceTime: the time after x + 1 nonce increments. */
  lemma StampStep(t: nat, nThreads: u32, x: nat, prev: Stamp)
    requires prev.time as nat == Later(t, nThreads as nat, x / TwoTo32)
    requires prev.nonce as nat == x % TwoTo32
    ensures Step(prev, nThreads).time as nat == Later(t, nThreads as nat, (x + 1) / TwoTo32)
  {
    TimeStep(t, nThreads as nat, x, prev.time as nat);
  }

  /**
   * The arithmetic of one step of AdvanceTime: with x nonce increments so
   * far, the next one wraps the nonce exactly when x mod 2^32 is the
   * largest nonce, and then the number of wraps goes up by one.
   */
  lemma TimeStep(t: nat, n: nat, x: nat, prevTime: nat)
    requires prevTime == (t + n * (x / TwoTo32)) % TwoTo32
    ensures x % TwoTo32 == U32Max as nat ==> (prevTime + n) % TwoTo32 == (t + n * ((x + 1) / TwoTo32)) % TwoTo32
    ensures x % TwoTo32 != U32Max as nat ==> prevTime == (t + n * ((x + 1) / TwoTo32)) % TwoTo32
  {
    var w, r := x / TwoTo32, x % TwoTo32;
    var base := t + n * w;
    assert x == w * TwoTo32 + r;
    if r == U32Max as nat {
      assert x + 1 == (w + 1) * TwoTo32 + 0;
      DivModUnique(w + 1, TwoTo32, 0);
      assert n * ((x + 1) / TwoTo32) == n * w + n;
      ReduceLeft(base, n, TwoTo32);
    } else {
      assert x + 1 == w * TwoTo32 + (r + 1);
      DivModUnique(w, TwoTo32, r + 1);
    }
  }

  /**
   * Mining never hashes the same header twice within 2^32 steps: the
   * stamps after j and k steps differ when 0 < k - j < 2^32.
   */
  lemma AdvanceDistinct(s: Stamp, nThreads: u32, j: nat, k: nat)
    requires j < k < j + TwoTo32
    ensures Advance(s, nThreads, j) != Advance(s, nThreads, k)
  {
    AdvanceNonce(s, nThreads, j);
    AdvanceNonce(s, nThreads, k);
    DistinctResidues(s.nonce as nat + j, k - j, TwoTo32);
  }

  /** d divides c */
  predicate DividesBy(c: nat, d: nat)
  {
    d > 0 && c % d == 0
  }

  /**
   * The remainder of the hash by `hash_primorial` that decides whether
   * `mine_header_hash` stops, kept in full.
   */
  function Reminder(hash: nat, hashPrimorial: u32): nat
    requires hashPrimorial > 0
  {
    hash % hashPrimorial as nat
  }

  /**
   * The remainder as block.c's `uint_fast8_t reminder` holds it: the
   * unsigned long from `mpz_tdiv_ui` cut to its low 8 bits (`uint_fast8_t`
   * is `unsigned char` with glibc).
   */
  function ReminderAsWritten(hash: nat, hashPrimorial: u32): nat
    requires hashPrimorial > 0
  {
    (hash % hashPrimorial as nat) % 256
  }

  /**
   * With five primes in the hash (hash_primorial = 2310) the 8-bit
   * remainder lets a top-bit hash that is not divisible by 2310 end the
   * mining loop: its remainder is 256, which truncates to 0.
   */
  lemma ReminderTruncation()
    ensures var h := 0x8000_0000_0000_0000_0000_0000_0000_0000_0000_0000_0000_0000_0000_0000_0000_085A;
      h >= TwoTo255 && h < Pow2(256) &&
      ReminderAsWritten(h, 2 * 3 * 5 * 7 * 11) == 0 && Reminder(h, 2 * 3 * 5 * 7 * 11) == 256
  {
    Pow2Of255();
  }

  /** 2^255 and 2^256 as literals. */
  lemma Pow2Of255()
    ensures Pow2(255) == TwoTo255
    ensures Pow2(256) == 0x1_0000_0000_0000_0000_0000_0000_0000_0000_0000_0000_0000_0000_0000_0000_0000_0000
  {
    assert Pow2(8) == 0x100;
    Pow2Square(8, 0x100);
    Pow2Square(16, 0x1_0000);
    Pow2Square(32, 0x1_0000_0000);
    Pow2Square(64, 0x1_0000_0000_0000_0000);
    Pow2Square(128, 0x1_0000_0000_0000_0000_0000_0000_0000_0000);
    assert Pow2(256) == 2 * Pow2(255);
  }

  lemma Pow2Square(n: nat, v: nat)
    requires Pow2(n) == v
    ensures Pow2(n + n) == v * v
  {
    Pow2Add(n, n);
  }

  /**
   * The test at the end of one pass of `mine_header_hash`: a digest from
   * 2^255 on is read into `mpz_hash` and its remainder by
   * `hash_primorial` is taken; a smaller one leaves both as they were.
   * A zero remainder afterwards is either the old one or belongs to this
   * digest, which then is at least 2^255 and divisible by `hash_primorial`.
   */
  method CheckHash(digest: Digest, hashPrimorial: u32, hash: nat, reminder: nat)
    returns (hash': nat, reminder': nat)
    requires hashPrimorial > 0
    ensures TopBitSet(digest[31]) ==> hash' == HashToNat(digest) && reminder' == hash' % hashPrimorial as nat
    ensures !TopBitSet(digest[31]) ==> hash' == hash && reminder' == reminder
    ensures reminder' == 0 ==>
      (reminder == 0 && hash' == hash) ||
      (hash' == HashToNat(digest) && hash' >= TwoTo255 && DividesBy(hash', hashPrimorial as nat))
  {
    hash', reminder' := hash, reminder;
    if TopBitSet(digest[31]) {
      hash' := HashToNat(digest);
      TopBitMeansLarge(digest);
      reminder' := Reminder(hash', hashPrimorial);
    }
  }

  /**
   * The start of one pass of `mine_header_hash`: the time moves on by
   * n_threads when all nonces are used, then the nonce goes up by one.
   */
  method NextNonce(header: Header, nThreads: u32)
    requires header.Valid()
    modifies header
    ensures header.Valid()
    ensures Stamp(header.time, header.nonce) == Step(Stamp(old(header.time), old(header.nonce)), nThreads)
    ensures header.version == old(header.version) && header.hashPrevBlock == old(header.hashPrevBlock)
    ensures header.hashMerkleRoot == old(header.hashMerkleRoot)
    ensures header.difficulty == old(header.difficulty)
    ensures header.multiplierLength == old(header.multiplierLength)
    ensures header.primeMultiplier == old(header.primeMultiplier)
  {
    if header.nonce == U32Max {
      header.time := ((header.time as nat + nThreads as nat) % TwoTo32) as u32;
    }
    header.nonce := ((header.nonce as nat + 1) % TwoTo32) as u32;
  }

  /**
   * `mine_header_hash`.  The flag `running`, which another thread clears,
   * is modelled as staying set for the first `budget` loop tests.  The
   * loop steps the nonce (and the time when the nonce wraps), hashes the
   * header and, for hashes from 2^255 on, takes the remainder by
   * `hash_primorial`; it stops when `running` is cleared or the remainder
   * is zero.  If it stopped with `running` still set, the last hash has its
   * top bit set, is divisible by `hash_primorial`, and is the hash of the
   * header as it is left.  Only the time, the nonce and `mpz_hash` change.
   * The loop keeps the full remainder of `mpz_tdiv_ui`, not the 8-bit
   * `uint_fast8_t reminder` of src/block.c:95; ReminderTruncation shows
   * what that truncation lets through.
   */
  method MineHeaderHash(header: Header, nThreads: u32, hashPrimorial: u32, sha: seq<u8> -> Digest,
                        mpzHash: nat, budget: nat)
    returns (hash: nat, iterations: nat, found: bool)
    requires header.Valid() && hashPrimorial > 0
    modifies header
    ensures header.Valid()
    ensures header.version == old(header.version) && header.hashPrevBlock == old(header.hashPrevBlock)
    ensures header.hashMerkleRoot == old(header.hashMerkleRoot)
    ensures header.difficulty == old(header.difficulty)
    ensures header.multiplierLength == old(header.multiplierLength)
    ensures header.primeMultiplier == old(header.primeMultiplier)
    ensures 1 <= iterations <= budget + 1 && (found <==> iterations <= budget)
    ensures Stamp(header.time, header.nonce) ==
      Advance(Stamp(old(header.time), old(header.nonce)), nThreads, iterations)
    ensures found ==> hash == HashToNat(HeaderHash(sha, header))
    ensures found ==> hash >= TwoTo255 && hash % hashPrimorial as nat == 0
  {
    ghost var start := Stamp(header.time, header.nonce);
    ghost var v, p, m, d := header.version, header.hashPrevBlock, header.hashMerkleRoot, header.difficulty;
    var reminder: nat := 1;
    hash := mpzHash;
    iterations := 0;
    while iterations == 0 || (iterations <= budget && reminder != 0)
      invariant header.Valid() && iterations <= budget + 1
      invariant header.version == old(header.version) && header.hashPrevBlock == old(header.hashPrevBlock)
      invariant header.hashMerkleRoot == old(header.hashMerkleRoot)
      invariant header.difficulty == old(header.difficulty)
      invariant header.multiplierLength == old(header.multiplierLength)
      invariant header.primeMultiplier == old(header.primeMultiplier)
      invariant Stamp(header.time, header.nonce) == Advance(start, nThreads, iterations)
      invariant iterations == 0 ==> reminder == 1
      invariant reminder == 0 ==> hash == HashToNat(sha(sha(HashInputOf(v, p, m, header.time, d, header.nonce))))
      invariant reminder == 0 ==> hash >= TwoTo255 && DividesBy(hash, hashPrimorial as nat)
      decreases budget + 1 - iterations
    {
      NextNonce(header, nThreads);
      iterations := iterations + 1;
      hash, reminder := CheckHash(HeaderHash(sha, header), hashPrimorial, hash, reminder);

    }
    found := iterations <= budget;
    assert found ==> DividesBy(hash, hashPrimorial as nat);
  }
}
