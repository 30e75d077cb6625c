/**
 * What `test_candidates` (src/sieve.c) does with the final candidate
 * masks of one extension: every position whose bit is clear is tested as
 * a bi-twin, first-kind or second-kind chain origin (in that order of
 * preference), counted in the statistics, and turned into a share when
 * its chain is long enough and its multiplier fits the header.
 */
module Candidates {
  import opened Numbers
  import opened SieveIndex
  import opened Block
  import opened SieveSpec
  import opened PrimeTests

  /** `SieveStats` without the clock: tests run and a histogram per chain type. */
  datatype Stats = Stats(tests: nat, twn: map<nat, nat>, cc1: map<nat, nat>, cc2: map<nat, nat>)

  /** `stats->X[len]++` */
  function Bump(m: map<nat, nat>, k: nat): map<nat, nat>
  {
    m[k := (if k in m then m[k] else 0) + 1]
  }

  /**
   * What `submit_share` is given: the chain type, the packed difficulty
   * and the header's multiplier field (47 bytes) with its length.
   */
  datatype Share = Share(kind: ChainType, difficulty: nat, multiplier: seq<u8>, multiplierLength: nat)

  /** The statistics and the shares submitted so far. */
  datatype Tally = Tally(stats: Stats, shares: seq<Share>)

  /** Position x of a vector is a candidate: its bit is clear. */
  predicate Clear(v: seq<Word>, x: nat)
    requires x / WordBits < |v|
  {
    x % WordBits !in v[x / WordBits]
  }

  /** The chain a candidate is tested for: bi-twin first, then first kind, then second kind. */
  function KindOf(cc1v: seq<Word>, twnv: seq<Word>, x: nat): ChainType
    requires x / WordBits < |cc1v| && x / WordBits < |twnv|
  {
    if Clear(twnv, x) then BiTwin else if Clear(cc1v, x) then FirstCunningham else SecondCunningham
  }

  /** The origin of position x in extension ext: H * (x << ext). */
  function Origin(H: nat, x: nat, ext: nat): nat
  {
    H * (x * Pow2(ext))
  }

  /** The proof-of-work multiplier of position x in extension ext. */
  function MultiplierOf(c: Config, x: nat, ext: nat): nat
  {
    c.fixedMultiplier * (x * Pow2(ext))
  }

  lemma OriginAtLeast(H: nat, x: nat, ext: nat)
    requires H >= 2 && x >= 1
    ensures Origin(H, x, ext) >= H
  {
    MulAtLeast(x, Pow2(ext));
    MulAtLeast(x * Pow2(ext), H);
    assert Origin(H, x, ext) == (x * Pow2(ext)) * H;
  }

  /** The length the chain test of that kind reports for an origin. */
  function TestLength(kind: ChainType, origin: nat): nat
    requires origin >= 2
  {
    match kind
    case BiTwin => TwnLength(origin)
    case FirstCunningham => CunninghamLength(origin - 1, true)
    case SecondCunningham => CunninghamLength(origin + 1, false)
  }

  /** One more test, and one more chain of that kind and length in the histogram. */
  function Count(s: Stats, kind: ChainType, len: nat): Stats
  {
    match kind
    case BiTwin => s.(tests := s.tests + 1, twn := Bump(s.twn, len))
    case FirstCunningham => s.(tests := s.tests + 1, cc1 := Bump(s.cc1, len))
    case SecondCunningham => s.(tests := s.tests + 1, cc2 := Bump(s.cc2, len))
  }

  /**
   * The share of a chain of the given kind and length at an origin, with
   * the multiplier m: none when the chain is shorter than the pool's
   * minimum or when m needs more than 47 bytes; otherwise the packed
   * difficulty and the bytes of m padded with zeros.
   */
  function ShareFor(c: Config, kind: ChainType, len: nat, origin: nat, m: nat): Option<Share>
    requires origin >= 2
  {
    var bytes := ToLE(m);
    if len < c.poolShare || |bytes| > MultiplierLength then None
    else Some(Share(kind, Difficulty(len, GetFractionalLength(origin, kind, len)),
                    bytes + Zeros(MultiplierLength - |bytes|), |bytes|))
  }

  /** The shares an optional share adds. */
  function Shares(found: Option<Share>): seq<Share>
  {
    if found.Some? then [found.value] else []
  }

  /** The share of the candidate at position x. */
  function Found(c: Config, H: nat, ext: nat, cc1v: seq<Word>, twnv: seq<Word>, x: nat): Option<Share>
    requires H >= 2 && x >= 1 && x / WordBits < |cc1v| && x / WordBits < |twnv|
  {
    OriginAtLeast(H, x, ext);
    var kind := KindOf(cc1v, twnv, x);
    ShareFor(c, kind, TestLength(kind, Origin(H, x, ext)), Origin(H, x, ext), MultiplierOf(c, x, ext))
  }

  /** Testing the candidate at position x. */
  function TestAt(c: Config, H: nat, ext: nat, cc1v: seq<Word>, twnv: seq<Word>, t: Tally, x: nat): Tally
    requires H >= 2 && x >= 1 && x / WordBits < |cc1v| && x / WordBits < |twnv|
  {
    OriginAtLeast(H, x, ext);
    var kind := KindOf(cc1v, twnv, x);
    Tally(Count(t.stats, kind, TestLength(kind, Origin(H, x, ext))),
          t.shares + Shares(Found(c, H, ext, cc1v, twnv, x)))
  }

  /**
   * The final mask and the vectors it came from cover the positions
   * [lo, hi), and position 0 (whose origin is 0) is not a candidate.
   */
  predicate Covers(cc1v: seq<Word>, twnv: seq<Word>, allv: seq<Word>, lo: nat, hi: nat)
  {
    |cc1v| == |allv| && |twnv| == |allv| && lo <= hi <= WordBits * |allv| &&
    (lo == 0 < hi ==> 0 in allv[0])
  }

  /** `test_candidates` over the positions [lo, hi), in increasing order. */
  function TestRange(c: Config, H: nat, ext: nat, cc1v: seq<Word>, twnv: seq<Word>, allv: seq<Word>,
                     t: Tally, lo: nat, hi: nat): Tally
    requires H >= 2 && Covers(cc1v, twnv, allv, lo, hi)
    decreases hi - lo
  {
    if hi == lo then t
    else
      var t' := TestRange(c, H, ext, cc1v, twnv, allv, t, lo, hi - 1);
      if Clear(allv, hi - 1) then TestAt(c, H, ext, cc1v, twnv, t', hi - 1) else t'
  }

  /** The first word `test_candidates` looks at: 0 when the first half is sieved, else the middle. */
  function FirstWord(c: Config): nat
  {
    if c.useFirstHalf then 0 else c.sieveWords / 2
  }

  /** One more position: it is tested when it is a candidate. */
  lemma TestRangeStep(c: Config, H: nat, ext: nat, cc1v: seq<Word>, twnv: seq<Word>, allv: seq<Word>,
                      t: Tally, lo: nat, x: nat)
    requires H >= 2 && lo <= x && Covers(cc1v, twnv, allv, lo, x + 1)
    ensures x / WordBits < |allv| && (Clear(allv, x) ==> x >= 1)
    ensures TestRange(c, H, ext, cc1v, twnv, allv, t, lo, x + 1) ==
      if Clear(allv, x) then TestAt(c, H, ext, cc1v, twnv, TestRange(c, H, ext, cc1v, twnv, allv, t, lo, x), x)
      else TestRange(c, H, ext, cc1v, twnv, allv, t, lo, x)
  {
  }

  /** The candidates among the positions [lo, hi). */
  function CountClear(allv: seq<Word>, lo: nat, hi: nat): nat
    requires lo <= hi <= WordBits * |allv|
    decreases hi - lo
  {
    if hi == lo then 0 else CountClear(allv, lo, hi - 1) + (if Clear(allv, hi - 1) then 1 else 0)
  }

  // ---------------------------------------------------------------------
  // Properties

  /** A narrower range is covered as well. */
  lemma CoversBelow(cc1v: seq<Word>, twnv: seq<Word>, allv: seq<Word>, lo: nat, mid: nat, hi: nat)
    requires Covers(cc1v, twnv, allv, lo, hi) && lo <= mid <= hi
    ensures Covers(cc1v, twnv, allv, lo, mid)
  {
  }

  /**
   * One test per candidate: `stats->tests` grows by the number of clear
   * bits in the range.
   */
  lemma {:induction false} TestRangeTests(c: Config, H: nat, ext: nat, cc1v: seq<Word>, twnv: seq<Word>,
                                          allv: seq<Word>, t: Tally, lo: nat, hi: nat)
    requires H >= 2 && Covers(cc1v, twnv, allv, lo, hi)
    ensures TestRange(c, H, ext, cc1v, twnv, allv, t, lo, hi).stats.tests == t.stats.tests + CountClear(allv, lo, hi)
    decreases hi - lo
  {
    if hi > lo {
      TestRangeTests(c, H, ext, cc1v, twnv, allv, t, lo, hi - 1);
    }
  }

  /** The share sh is the share of a candidate among the positions [lo, hi). */
  ghost predicate FoundIn(c: Config, H: nat, ext: nat, cc1v: seq<Word>, twnv: seq<Word>, allv: seq<Word>,
                          lo: nat, hi: nat, sh: Share)
    requires H >= 2 && Covers(cc1v, twnv, allv, lo, hi)
  {
    exists x :: lo <= x < hi && x >= 1 && Clear(allv, x) && Found(c, H, ext, cc1v, twnv, x) == Some(sh)
  }

  /** Testing only appends to the shares. */
  lemma {:induction false} TestRangeGrows(c: Config, H: nat, ext: nat, cc1v: seq<Word>, twnv: seq<Word>,
                                          allv: seq<Word>, t: Tally, lo: nat, hi: nat)
    requires H >= 2 && Covers(cc1v, twnv, allv, lo, hi)
    ensures var s := TestRange(c, H, ext, cc1v, twnv, allv, t, lo, hi).shares;
      |t.shares| <= |s| && s[..|t.shares|] == t.shares
    decreases hi - lo
  {
    if hi > lo {
      TestRangeGrows(c, H, ext, cc1v, twnv, allv, t, lo, hi - 1);
      var s0 := TestRange(c, H, ext, cc1v, twnv, allv, t, lo, hi - 1).shares;
      var s := TestRange(c, H, ext, cc1v, twnv, allv, t, lo, hi).shares;
      if Clear(allv, hi - 1) {
        assert s[..|s0|] == s0;
      }
    }
  }

  /** Every share that testing appends is the share of a candidate in the range. */
  lemma {:induction false} TestRangeShares(c: Config, H: nat, ext: nat, cc1v: seq<Word>, twnv: seq<Word>,
                                           allv: seq<Word>, t: Tally, lo: nat, hi: nat)
    requires H >= 2 && Covers(cc1v, twnv, allv, lo, hi)
    ensures forall j :: |t.shares| <= j < |TestRange(c, H, ext, cc1v, twnv, allv, t, lo, hi).shares| ==>
      FoundIn(c, H, ext, cc1v, twnv, allv, lo, hi, TestRange(c, H, ext, cc1v, twnv, allv, t, lo, hi).shares[j])
    decreases hi - lo
  {
    if hi > lo {
      TestRangeShares(c, H, ext, cc1v, twnv, allv, t, lo, hi - 1);
      var s0 := TestRange(c, H, ext, cc1v, twnv, allv, t, lo, hi - 1).shares;
      var s := TestRange(c, H, ext, cc1v, twnv, allv, t, lo, hi).shares;
      forall j | |t.shares| <= j < |s0|
        ensures FoundIn(c, H, ext, cc1v, twnv, allv, lo, hi, s0[j])
      {
        assert FoundIn(c, H, ext, cc1v, twnv, allv, lo, hi - 1, s0[j]);
        var y :| lo <= y < hi - 1 && y >= 1 && Clear(allv, y) && Found(c, H, ext, cc1v, twnv, y) == Some(s0[j]);
      }
      if Clear(allv, hi - 1) {
        var found := Found(c, H, ext, cc1v, twnv, hi - 1);
        assert s == s0 + Shares(found);
        if found.Some? {
          assert FoundIn(c, H, ext, cc1v, twnv, allv, lo, hi, found.value);
        }
      }
    }
  }

  /** A word with every bit set holds no candidate and changes nothing. */
  lemma {:induction false} SkipFull(c: Config, H: nat, ext: nat, cc1v: seq<Word>, twnv: seq<Word>,
                                    allv: seq<Word>, t: Tally, lo: nat, w: nat, b: nat)
    requires H >= 2 && Covers(cc1v, twnv, allv, lo, WordBits * w + b)
    requires lo <= WordBits * w && b <= WordBits && w < |allv| && allv[w] == WordMax
    ensures TestRange(c, H, ext, cc1v, twnv, allv, t, lo, WordBits * w + b) ==
            TestRange(c, H, ext, cc1v, twnv, allv, t, lo, WordBits * w)
    decreases b
  {
    if b > 0 {
      var x := WordBits * w + b - 1;
      assert x / WordBits == w && x % WordBits == b - 1;
      assert !Clear(allv, x);
      SkipFull(c, H, ext, cc1v, twnv, allv, t, lo, w, b - 1);
    }
  }

  /** n zero bytes stand for zero. */
  lemma {:induction false} FromLEZeros(n: nat)
    ensures FromLE(Zeros(n)) == 0
  {
    if n > 0 {
      assert Zeros(n)[1..] == Zeros(n - 1);
      FromLEZeros(n - 1);
    }
  }

  /**
   * A candidate gives a share exactly when its chain reaches the pool's
   * minimum length and its multiplier fits 47 bytes.  The share then
   * carries the candidate's chain type, a 32-bit difficulty whose integer
   * part is the chain length and whose fraction is the fractional length,
   * and a 47-byte multiplier field that reads back as the multiplier and
   * whose first `multiplierLength` bytes are its shortest encoding.
   * H is the hash times the primorial, so it is even and greater than 2.
   */
  lemma FoundSpec(c: Config, H: nat, ext: nat, cc1v: seq<Word>, twnv: seq<Word>, x: nat)
    requires H > 2 && H % 2 == 0 && x >= 1 && x / WordBits < |cc1v| && x / WordBits < |twnv|
    ensures Origin(H, x, ext) >= H
    ensures var kind := KindOf(cc1v, twnv, x);
      var len := TestLength(kind, Origin(H, x, ext));
      var m := MultiplierOf(c, x, ext);
      var f := Found(c, H, ext, cc1v, twnv, x);
      && (f.Some? <==> len >= c.poolShare && m < Pow2(8 * MultiplierLength))
      && (f.Some? ==>
           && f.value.kind == kind
           && f.value.difficulty < 0x1_0000_0000
           && ChainLengthOf(f.value.difficulty) == len
           && FractionalLengthOf(f.value.difficulty) == GetFractionalLength(Origin(H, x, ext), kind, len)
           && |f.value.multiplier| == MultiplierLength
           && f.value.multiplierLength <= MultiplierLength
           && FromLE(f.value.multiplier) == m
           && f.value.multiplier[..f.value.multiplierLength] == ToLE(m))
  {
    OriginAtLeast(H, x, ext);
    OriginEven(H, x, ext);
    var origin := Origin(H, x, ext);
    var kind := KindOf(cc1v, twnv, x);
    var len := TestLength(kind, origin);
    var m := MultiplierOf(c, x, ext);
    ToLELength(m, MultiplierLength);
    if len >= c.poolShare && m < Pow2(8 * MultiplierLength) {
      TestLengthBound(kind, origin);
      PackedDifficulty(origin, kind, len);
      PaddedMultiplier(m);
    }
  }

  lemma OriginEven(H: nat, x: nat, ext: nat)
    requires H % 2 == 0
    ensures Origin(H, x, ext) % 2 == 0
  {
    assert Origin(H, x, ext) == (H / 2 * (x * Pow2(ext))) * 2;
  }

  /** Every chain test reports at most 65, so the length fits 8 bits. */
  lemma TestLengthBound(kind: ChainType, origin: nat)
    requires origin >= 2
    ensures TestLength(kind, origin) < 256
  {
    TwnLengthBound(origin);
    CunninghamLengthSpec(origin - 1, true);
    CunninghamLengthSpec(origin + 1, false);
  }

  /**
   * For an even origin above 2 the fractional length is below 1, so the
   * packed difficulty unpacks to the chain length and the fraction.
   */
  lemma PackedDifficulty(origin: nat, kind: ChainType, len: nat)
    requires origin > 2 && origin % 2 == 0 && len < 256
    ensures var d := Difficulty(len, GetFractionalLength(origin, kind, len));
      d < 0x1_0000_0000 && ChainLengthOf(d) == len &&
      FractionalLengthOf(d) == GetFractionalLength(origin, kind, len)
  {
    FractionalModulusFacts(origin, kind, len);
    var e := if kind == BiTwin then len / 2 else len;
    MulAtLeast(Pow2(e), origin);
    assert origin * Pow2(e) >= origin;
    assert FractionalModulus(origin, kind, len) > 1;
    GetFractionalLengthSpec(origin, kind, len);
    DifficultyRoundTrip(len, GetFractionalLength(origin, kind, len));
  }

  /**
   * The header's multiplier field after the memset and `mpz_to_ary`: 47
   * bytes that read back as m and start with its shortest encoding.
   */
  lemma PaddedMultiplier(m: nat)
    requires |ToLE(m)| <= MultiplierLength
    ensures var bytes := ToLE(m); var field := bytes + Zeros(MultiplierLength - |bytes|);
      |field| == MultiplierLength && FromLE(field) == m && field[..|bytes|] == bytes
  {
    var bytes := ToLE(m);
    var pad := Zeros(MultiplierLength - |bytes|);
    FromLEAppend(bytes, pad);
    FromLEZeros(MultiplierLength - |bytes|);
    ToLERoundTrip(m);
    SplitAt(bytes, pad);
  }

  /**
   * `(word_bits * i + bit) << extension` is a shift of a 64-bit `sieve_t`
   * that does not wrap for any position and extension the sieve tests, so
   * the unbounded x * 2^ext of Origin and MultiplierOf is the value the
   * source multiplies by.
   */
  lemma ShiftFits(c: Config, x: nat, ext: nat)
    requires Sized(c) && x < c.sieveSize && ext <= c.extensions
    ensures x * Pow2(ext) < TwoTo64
  {
    Pow2Monotone(ext, c.extensions);
    MulMonotone(c.sieveSize - 1, x, Pow2(ext));
    MulMonotone(Pow2(c.extensions), Pow2(ext), c.sieveSize - 1);
  }

  lemma {:induction false} Pow2Monotone(e: nat, E: nat)
    requires e <= E
    ensures Pow2(e) <= Pow2(E)
    decreases E
  {
    if e < E {
      Pow2Monotone(e, E - 1);
    }
  }
}
