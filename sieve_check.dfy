/**
 * The self-checks of c/src/tests.c that a DEBUG build runs:
 * `check_mulltiplier` (every table entry marks only multiples whose
 * chain member the prime divides), `check_sieve` (a plain reference
 * sieve over every layer must give the vectors of `sieve_run`),
 * `ary_eql` and `check_primes` (trial division of the prime table).
 *
 * The GMP products of `check_mulltiplier` are unbounded integers here.
 * The error messages are left out, except for the indexes whose inverse
 * of 2 `check_primes` reports, which are a result of CheckPrimes.
 */
module SieveCheck {
  import opened Numbers
  import opened SieveIndex
  import opened Inverse
  import opened Block
  import opened SieveSpec
  import opened SieveBlock
  import PrimeTable
  import opened Candidates
  import opened Sieve

  // ---------------------------------------------------------------------
  // Tables held in arrays

  /** The table an offset array holds: row i, layer l is muls[i, l]. */
  ghost function TableOf(muls: array2<nat>): (M: seq<seq<nat>>)
    reads muls
    ensures |M| == muls.Length0
    ensures forall i :: 0 <= i < |M| ==> |M[i]| == muls.Length1
    ensures forall i, l :: 0 <= i < muls.Length0 && 0 <= l < muls.Length1 ==> M[i][l] == muls[i, l]
  {
    seq(muls.Length0, i requires 0 <= i < muls.Length0 reads muls =>
      seq(muls.Length1, l requires 0 <= l < muls.Length1 reads muls => muls[i, l]))
  }

  // ---------------------------------------------------------------------
  // check_mulltiplier

  /** The chain member the check builds for x at layer l: `H * x * 2^l - 1` (sign -1) or `+ 1` (sign +1). */
  function Member(H: nat, x: nat, l: nat, sign: int): int
  {
    H * x * Pow2(l) + sign
  }

  /** p divides the chain member of every position below size on the progression of f. */
  ghost predicate ProgressionHolds(H: nat, f: nat, p: Modulus, l: nat, size: nat, sign: int)
  {
    forall x: nat :: x < size && InProg(f, p, x) ==> Member(H, x, l, sign) % p == 0
  }

  /** The row of prime i passes: it is skipped (its layer-0 entry is 0xFFFFFFFF) or every layer passes. */
  ghost predicate RowHolds(c: Config, H: nat, M: seq<seq<nat>>, i: nat, sign: int)
    requires Indexable(c) && Shape(c, M) && Layers(c) > 0 && c.minPrime <= i < c.maxPrime
  {
    M[i][0] == Sentinel ||
    forall l :: 0 <= l < Layers(c) ==> ProgressionHolds(H, M[i][l], c.primes[i], l, c.sieveSize, sign)
  }

  /** Every sieving prime's row passes. */
  ghost predicate TableHolds(c: Config, H: nat, M: seq<seq<nat>>, sign: int)
    requires Indexable(c) && Shape(c, M) && Layers(c) > 0
  {
    forall i :: c.minPrime <= i < c.maxPrime ==> RowHolds(c, H, M, i, sign)
  }

  /** What `check_mulltiplier` accepts: the cc1 table for members - 1, the cc2 table for members + 1. */
  ghost predicate MultipliersHold(c: Config, H: nat, M1: seq<seq<nat>>, M2: seq<seq<nat>>)
    requires Indexable(c) && Shape(c, M1) && Shape(c, M2) && Layers(c) > 0
  {
    TableHolds(c, H, M1, -1) && TableHolds(c, H, M2, 1)
  }

  /**
   * The innermost loop: walk the progression of f below size and fail
   * at the first position whose chain member p does not divide.
   */
  method CheckProgression(H: nat, f: nat, p: Modulus, l: nat, size: nat, sign: int) returns (ok: bool)
    ensures ok <==> ProgressionHolds(H, f, p, l, size, sign)
  {
    var factor := f;
    while factor < size
      invariant InProg(f, p, factor)
      invariant forall x: nat :: x < factor && x < size && InProg(f, p, x) ==> Member(H, x, l, sign) % p == 0
      decreases size - factor
    {
      if Member(H, factor, l, sign) % p != 0 {
        return false;
      }
      forall x | factor < x < factor + p && InProg(f, p, x)
        ensures false
      {
        ProgGap(f, p, factor, x);
      }
      ProgTrans(f, p, factor, factor + p);
      factor := factor + p;
    }
    return true;
  }

  /** The loops over the layers of one prime, skipping a row without offsets. */
  method CheckRow(c: Config, H: nat, muls: array2<nat>, i: nat, sign: int) returns (ok: bool)
    requires Indexable(c) && Layers(c) > 0 && c.minPrime <= i < c.maxPrime
    requires muls.Length0 == c.maxPrime && muls.Length1 == Layers(c)
    ensures ok <==> RowHolds(c, H, TableOf(muls), i, sign)
  {
    if muls[i, 0] == Sentinel {
      return true;
    }
    var l := 0;
    while l < Layers(c)
      invariant l <= Layers(c)
      invariant forall k :: 0 <= k < l ==> ProgressionHolds(H, muls[i, k], c.primes[i], k, c.sieveSize, sign)
    {
      ok := CheckProgression(H, muls[i, l], c.primes[i], l, c.sieveSize, sign);
      if !ok {
        return;
      }
      l := l + 1;
    }
    return true;
  }

  /** One of the two prime loops of `check_mulltiplier`. */
  method CheckTable(c: Config, H: nat, muls: array2<nat>, sign: int) returns (ok: bool)
    requires Indexable(c) && Layers(c) > 0
    requires muls.Length0 == c.maxPrime && muls.Length1 == Layers(c)
    ensures ok <==> TableHolds(c, H, TableOf(muls), sign)
  {
    for i := c.minPrime to c.maxPrime
      invariant forall j :: c.minPrime <= j < i ==> RowHolds(c, H, TableOf(muls), j, sign)
    {
      ok := CheckRow(c, H, muls, i, sign);
      if !ok {
        return;
      }
    }
    return true;
  }

  /**
   * `check_mulltiplier`: true (0 in C) iff every entry of a row with
   * offsets marks, below `sieve_size`, only positions x whose chain
   * member H * x * 2^l - 1 (cc1) or + 1 (cc2) the prime divides.  The
   * sums `factor + p` stay below 2^32 for the primes of PrimesOk.
   */
  method CheckMultiplier(c: Config, H: nat, cc1Muls: array2<nat>, cc2Muls: array2<nat>) returns (ok: bool)
    requires Indexable(c) && PrimesOk(c) && Layers(c) > 0
    requires cc1Muls.Length0 == c.maxPrime && cc1Muls.Length1 == Layers(c)
    requires cc2Muls.Length0 == c.maxPrime && cc2Muls.Length1 == Layers(c)
    ensures ok <==> MultipliersHold(c, H, TableOf(cc1Muls), TableOf(cc2Muls))
  {
    ok := CheckTable(c, H, cc1Muls, -1);
    if ok {
      ok := CheckTable(c, H, cc2Muls, 1);
    }
  }

  /** A remainder of 1 is a divisible predecessor; a divisible successor comes from p - 1. */
  lemma MemberDivides(H: nat, x: nat, l: nat, p: Modulus)
    requires p > 1
    ensures (x * (H * Pow2(l))) % p == 1 ==> Member(H, x, l, -1) % p == 0
    ensures (x * (H * Pow2(l)) + 1) % p == 0 ==> Member(H, x, l, 1) % p == 0
  {
    var k := Pow2(l);
    var a := x * (H * k);
    Reorder(H, x, k);
    assert Member(H, x, l, -1) == a - 1 && Member(H, x, l, 1) == a + 1;
    RemainderOne(a, p);
  }

  /** The two groupings of the chain member's product. */
  lemma Reorder(H: nat, x: nat, k: nat)
    ensures H * x * k == x * (H * k)
  {
    assert H * x == x * H;
  }

  /** a leaves remainder 1 exactly when p divides a - 1. */
  lemma RemainderOne(a: int, p: int)
    requires p > 1
    ensures a % p == 1 ==> (a - 1) % p == 0
  {
    if a % p == 1 {
      assert a - 1 == (a / p) * p;
      DivModUnique(a / p, p, 0);
    }
  }

  /** Layer l of a sieving prime's rows in the tables `calc_multipliers` computes passes. */
  lemma LayerPasses(c: Config, H: nat, i: nat, l: nat)
    requires Indexable(c) && PrimesOk(c) && TwoInversesOk(c) && c.minPrime <= i < c.maxPrime && l < Layers(c)
    ensures ProgressionHolds(H, Cc1Table(c, H)[i][l], c.primes[i], l, c.sieveSize, -1)
    ensures ProgressionHolds(H, Cc2Table(c, H)[i][l], c.primes[i], l, c.sieveSize, 1)
  {
    var p := c.primes[i];
    ValidUsable(c, i);
    assert PrimeOk(c, i);
    forall x: nat | x < c.sieveSize && InProg(Cc1Table(c, H)[i][l], p, x)
      ensures Member(H, x, l, -1) % p == 0
    {
      Cc1PrimeExactly(c, H, l, i, x);
      MemberDivides(H, x, l, p);
    }
    forall x: nat | x < c.sieveSize && InProg(Cc2Table(c, H)[i][l], p, x)
      ensures Member(H, x, l, 1) % p == 0
    {
      Cc2PrimeExactly(c, H, l, i, x);
      MemberDivides(H, x, l, p);
    }
  }

  /**
   * The tables of `calc_multipliers` pass `check_mulltiplier` (the call
   * at the end of `calc_multipliers` never reports an error): each
   * offset marks exactly the multiples whose chain member its prime
   * divides (Cc1PrimeExactly, Cc2PrimeExactly).
   */
  lemma TablesPass(c: Config, H: nat)
    requires Indexable(c) && PrimesOk(c) && TwoInversesOk(c) && Layers(c) > 0
    ensures MultipliersHold(c, H, Cc1Table(c, H), Cc2Table(c, H))
  {
    forall i | c.minPrime <= i < c.maxPrime
      ensures RowHolds(c, H, Cc1Table(c, H), i, -1) && RowHolds(c, H, Cc2Table(c, H), i, 1)
    {
      forall l | 0 <= l < Layers(c)
        ensures ProgressionHolds(H, Cc1Table(c, H)[i][l], c.primes[i], l, c.sieveSize, -1)
        ensures ProgressionHolds(H, Cc2Table(c, H)[i][l], c.primes[i], l, c.sieveSize, 1)
      {
        LayerPasses(c, H, i, l);
      }
    }
  }

  /** The check reads only the rows of the sieving primes. */
  lemma HoldsOnRows(c: Config, H: nat, M: seq<seq<nat>>, N: seq<seq<nat>>, sign: int)
    requires Indexable(c) && Shape(c, M) && Shape(c, N) && Layers(c) > 0
    requires forall i, l :: c.minPrime <= i < c.maxPrime && 0 <= l < Layers(c) ==> M[i][l] == N[i][l]
    ensures TableHolds(c, H, M, sign) <==> TableHolds(c, H, N, sign)
  {
    forall i | c.minPrime <= i < c.maxPrime
      ensures RowHolds(c, H, M, i, sign) == RowHolds(c, H, N, i, sign)
    {
      assert M[i] == N[i];
    }
  }

  /**
   * `calc_multipliers` with the DEBUG check at its end, after
   * `reinit_sieve`: the check passes.
   */
  method CalcMultipliersChecked(s: Sieve, H: nat) returns (ok: bool)
    requires s.Valid() && s.Reset() && TwoInversesOk(s.cfg)
    modifies s.cc1Muls, s.cc2Muls
    ensures ok
    ensures forall i, l :: s.cfg.minPrime <= i < s.cfg.maxPrime && 0 <= l < Layers(s.cfg) ==>
      s.cc1Muls[i, l] == Cc1Table(s.cfg, H)[i][l] && s.cc2Muls[i, l] == Cc2Table(s.cfg, H)[i][l]
  {
    s.SieveTables(H);
    ok := CheckMultiplier(s.cfg, H, s.cc1Muls, s.cc2Muls);
    TablesPass(s.cfg, H);
    HoldsOnRows(s.cfg, H, Cc1Table(s.cfg, H), TableOf(s.cc1Muls), -1);
    HoldsOnRows(s.cfg, H, Cc2Table(s.cfg, H), TableOf(s.cc2Muls), 1);
  }

  // ---------------------------------------------------------------------
  // ary_eql

  /** `ary_eql`: true iff the words [start, end) of a and b agree (an empty range agrees). */
  method AryEql(a: seq<Word>, b: seq<Word>, start: nat, end: nat) returns (eq: bool)
    requires end <= |a| && end <= |b|
    ensures eq <==> forall i :: start <= i < end ==> a[i] == b[i]
  {
    var i := start;
    while i < end
      invariant start <= i
      invariant forall j :: start <= j < i && j < end ==> a[j] == b[j]
      decreases end - i
    {
      if a[i] != b[i] {
        return false;
      }
      i := i + 1;
    }
    return true;
  }

  // ---------------------------------------------------------------------
  // check_sieve: the reset copies of the tables

  /** An entry as `check_sieve` resets it: reduced mod p unless it is 0xFFFFFFFF. */
  function Reduce(e: nat, p: Modulus): nat
  {
    if e == Sentinel then e else e % p
  }

  /** The reset copy of a table: the rows of the sieving primes reduced, the others copied. */
  function Reduced(c: Config, T: seq<seq<nat>>): (R: seq<seq<nat>>)
    requires Indexable(c) && Shape(c, T)
    ensures Shape(c, R)
  {
    seq(c.maxPrime, i requires 0 <= i < c.maxPrime =>
      seq(Layers(c), l requires 0 <= l < Layers(c) =>
        if c.minPrime <= i then Reduce(T[i][l], c.primes[i]) else T[i][l]))
  }

  /** The inner loop of the reset: every layer of row i of both copies. */
  method ReduceRow(c: Config, cc1Muls: array2<nat>, cc2Muls: array2<nat>, i: nat)
    requires Indexable(c) && c.minPrime <= i < c.maxPrime && cc1Muls != cc2Muls
    requires cc1Muls.Length0 == c.maxPrime && cc1Muls.Length1 == Layers(c)
    requires cc2Muls.Length0 == c.maxPrime && cc2Muls.Length1 == Layers(c)
    modifies cc1Muls, cc2Muls
    ensures forall j, l :: 0 <= j < c.maxPrime && 0 <= l < Layers(c) ==>
      cc1Muls[j, l] == (if j == i then Reduce(old(cc1Muls[j, l]), c.primes[i]) else old(cc1Muls[j, l])) &&
      cc2Muls[j, l] == (if j == i then Reduce(old(cc2Muls[j, l]), c.primes[i]) else old(cc2Muls[j, l]))
  {
    var prime := c.primes[i];
    for l := 0 to Layers(c)
      invariant forall j, k :: 0 <= j < c.maxPrime && 0 <= k < Layers(c) ==>
        cc1Muls[j, k] == (if j == i && k < l then Reduce(old(cc1Muls[j, k]), prime) else old(cc1Muls[j, k])) &&
        cc2Muls[j, k] == (if j == i && k < l then Reduce(old(cc2Muls[j, k]), prime) else old(cc2Muls[j, k]))
    {
      if cc1Muls[i, l] != Sentinel {
        cc1Muls[i, l] := cc1Muls[i, l] % prime;
      }
      if cc2Muls[i, l] != Sentinel {
        cc2Muls[i, l] := cc2Muls[i, l] % prime;
      }
    }
  }

  /** The `malloc`, `memcpy` and reset of both tables at the start of `check_sieve`. */
  method ReduceCopies(c: Config, orig1: array2<nat>, orig2: array2<nat>) returns (cc1Muls: array2<nat>, cc2Muls: array2<nat>)
    requires Indexable(c)
    requires orig1.Length0 == c.maxPrime && orig1.Length1 == Layers(c)
    requires orig2.Length0 == c.maxPrime && orig2.Length1 == Layers(c)
    ensures fresh(cc1Muls) && fresh(cc2Muls) && cc1Muls != cc2Muls
    ensures cc1Muls.Length0 == c.maxPrime && cc1Muls.Length1 == Layers(c)
    ensures cc2Muls.Length0 == c.maxPrime && cc2Muls.Length1 == Layers(c)
    ensures TableOf(cc1Muls) == Reduced(c, TableOf(orig1)) && TableOf(cc2Muls) == Reduced(c, TableOf(orig2))
  {
    cc1Muls := new nat[c.maxPrime, Layers(c)];
    cc2Muls := new nat[c.maxPrime, Layers(c)];
    forall i, l | 0 <= i < c.maxPrime && 0 <= l < Layers(c) {
      cc1Muls[i, l] := orig1[i, l];
    }
    forall i, l | 0 <= i < c.maxPrime && 0 <= l < Layers(c) {
      cc2Muls[i, l] := orig2[i, l];
    }
    for i := c.minPrime to c.maxPrime
      invariant forall j, l :: 0 <= j < c.maxPrime && 0 <= l < Layers(c) ==>
        cc1Muls[j, l] == (if c.minPrime <= j < i then Reduce(orig1[j, l], c.primes[j]) else orig1[j, l]) &&
        cc2Muls[j, l] == (if c.minPrime <= j < i then Reduce(orig2[j, l], c.primes[j]) else orig2[j, l])
    {
      ReduceRow(c, cc1Muls, cc2Muls, i);
    }
    SameTable(c, cc1Muls, Reduced(c, TableOf(orig1)));
    SameTable(c, cc2Muls, Reduced(c, TableOf(orig2)));
  }

  /** An array holding the entries of a table holds that table. */
  lemma SameTable(c: Config, muls: array2<nat>, T: seq<seq<nat>>)
    requires Shape(c, T) && muls.Length0 == c.maxPrime && muls.Length1 == Layers(c)
    requires forall i, l :: 0 <= i < c.maxPrime && 0 <= l < Layers(c) ==> muls[i, l] == T[i][l]
    ensures TableOf(muls) == T
  {
    forall i | 0 <= i < c.maxPrime
      ensures TableOf(muls)[i] == T[i]
    {
    }
  }

  /** Reducing an offset lifted to t gives the offset back; a lifted sentinel stays the sentinel. */
  lemma ReduceLifted(f: nat, p: Modulus, t: nat)
    requires t + p < TwoTo32 && (f < p || f == Sentinel)
    ensures Reduce(Lift(f, p, t), p) == f
  {
    if f == Sentinel {
      SentinelInert(p, t, 0);
    } else {
      LiftSpec(f, p, t);
      ProgResidue(f, p, Lift(f, p, t));
    }
  }

  /** A cc1 offset is never 0, so its cc2 entry p - offset is below p. */
  lemma OffsetPositive(c: Config, H: nat, i: nat, l: nat)
    requires Indexable(c) && PrimesOk(c) && TwoInversesOk(c) && c.minPrime <= i < c.maxPrime && H % c.primes[i] != 0
    ensures Offset(c, H, i, l) > 0
  {
    ValidUsable(c, i);
    OffsetInverts(c, H, i, l);
  }

  /**
   * The reset recovers the tables of `calc_multipliers` from the entries
   * that `sieve_run` leaves lifted to `sieve_size`: on the rows of the
   * sieving primes the reduced copies are Cc1Table and Cc2Table.
   */
  lemma ReduceRestores(c: Config, H: nat, T1: seq<seq<nat>>, T2: seq<seq<nat>>)
    requires Indexable(c) && PrimesOk(c) && TwoInversesOk(c) && Shape(c, T1) && Shape(c, T2)
    requires forall i, l :: c.minPrime <= i < c.maxPrime && 0 <= l < Layers(c) ==>
      T1[i][l] == Lift(Cc1Table(c, H)[i][l], c.primes[i], c.sieveSize) &&
      T2[i][l] == Lift(Cc2Table(c, H)[i][l], c.primes[i], c.sieveSize)
    ensures forall i, l :: c.minPrime <= i < c.maxPrime && 0 <= l < Layers(c) ==>
      Reduced(c, T1)[i][l] == Cc1Table(c, H)[i][l] && Reduced(c, T2)[i][l] == Cc2Table(c, H)[i][l]
  {
    forall i, l | c.minPrime <= i < c.maxPrime && 0 <= l < Layers(c)
      ensures Reduced(c, T1)[i][l] == Cc1Table(c, H)[i][l] && Reduced(c, T2)[i][l] == Cc2Table(c, H)[i][l]
    {
      assert PrimeOk(c, i);
      if Sieved(c, H, i) {
        OffsetPositive(c, H, i, l);
      }
      ReduceLifted(Cc1Table(c, H)[i][l], c.primes[i], c.sieveSize);
      ReduceLifted(Cc2Table(c, H)[i][l], c.primes[i], c.sieveSize);
    }
  }

  /** Tables that agree on the rows of the sieving primes accumulate the same words. */
  lemma {:induction false} AccumSameRows(c: Config, M: seq<seq<nat>>, N: seq<seq<nat>>, lo: nat, hi: nat, w: nat)
    requires Indexable(c) && Shape(c, M) && Shape(c, N) && lo <= hi <= Layers(c)
    requires forall i, l :: c.minPrime <= i < c.maxPrime && 0 <= l < Layers(c) ==> M[i][l] == N[i][l]
    ensures Accum(c, M, lo, hi, w) == Accum(c, N, lo, hi, w)
    decreases hi - lo
  {
    if hi > lo {
      AccumSameRows(c, M, N, lo, hi - 1, w);
      forall i | c.minPrime <= i < c.maxPrime
        ensures N[i][hi - 1] == Lift(M[i][hi - 1], c.primes[i], 0)
      {
      }
      LayerWordLifted(c, M, N, hi - 1, 0, w);
    }
  }

  /**
   * The reference rule on tables that agree with M1 and M2 on the
   * sieving primes computes the vectors of M1 and M2: for the layers
   * starting at x the same cc1 and cc2 words ...
   */
  lemma ReferenceMatches(c: Config, R1: seq<seq<nat>>, R2: seq<seq<nat>>, M1: seq<seq<nat>>, M2: seq<seq<nat>>, x: nat, w: nat)
    requires Indexable(c) && Shape(c, R1) && Shape(c, R2) && Shape(c, M1) && Shape(c, M2)
    requires x + c.chainLength <= Layers(c)
    requires forall i, l :: c.minPrime <= i < c.maxPrime && 0 <= l < Layers(c) ==> R1[i][l] == M1[i][l]
    requires forall i, l :: c.minPrime <= i < c.maxPrime && 0 <= l < Layers(c) ==> R2[i][l] == M2[i][l]
    ensures Accum(c, R1, x, x + c.chainLength, w) == Accum(c, M1, x, x + c.chainLength, w)
    ensures Accum(c, R2, x, x + c.chainLength, w) == Accum(c, M2, x, x + c.chainLength, w)
    ensures RefTwn(c, R1, R2, x, c.chainLength, w) == TwnWord(c, M1, M2, x, w)
  {
    AccumSameRows(c, R1, M1, x, x + c.chainLength, w);
    AccumSameRows(c, R2, M2, x, x + c.chainLength, w);
    TwinMatches(c, R1, R2, M1, M2, x, w);
  }

  /** ... and for the twin vector the bi-twin word TwnWord. */
  lemma TwinMatches(c: Config, R1: seq<seq<nat>>, R2: seq<seq<nat>>, M1: seq<seq<nat>>, M2: seq<seq<nat>>, x: nat, w: nat)
    requires Indexable(c) && Shape(c, R1) && Shape(c, R2) && Shape(c, M1) && Shape(c, M2)
    requires x + c.chainLength <= Layers(c)
    requires forall i, l :: c.minPrime <= i < c.maxPrime && 0 <= l < Layers(c) ==> R1[i][l] == M1[i][l] && R2[i][l] == M2[i][l]
    ensures RefTwn(c, R1, R2, x, c.chainLength, w) == TwnWord(c, M1, M2, x, w)
  {
    RefTwnIsTwnWord(c, R1, R2, x, w);
    AccumSameRows(c, R2, M2, x, x + c.chainLength / 2, w);
    AccumSameRows(c, R1, M1, x, x + (c.chainLength + 1) / 2, w);
  }

  // ---------------------------------------------------------------------
  // check_sieve: the reference sieve

  /**
   * The check's `sieve_from_to`: clear the vector, then set the bit of
   * every position below `sieve_size` on the progression of each
   * sieving prime's entry for the layer.  The result is that layer of
   * the table.
   */
  method RefSieveFromTo(c: Config, cands: array<Word>, muls: array2<nat>, ghost M: seq<seq<nat>>, layer: nat)
    requires Indexable(c) && Shape(c, M) && layer < Layers(c)
    requires cands.Length == c.sieveWords && c.sieveSize == WordBits * c.sieveWords
    requires muls.Length0 == c.maxPrime && muls.Length1 == Layers(c)
    requires forall i :: c.minPrime <= i < c.maxPrime ==> muls[i, layer] == M[i][layer]
    modifies cands
    ensures forall w :: 0 <= w < cands.Length ==> cands[w] == LayerWord(c, M, layer, w)
  {
    ClearWords(cands);
    for i := c.minPrime to c.maxPrime
      invariant forall w :: 0 <= w < cands.Length ==> cands[w] == PrimeMarks(c, M, layer, i, w)
    {
      var factor := MarkProgression(cands, muls[i, layer], c.primes[i], 0, c.sieveSize);
    }
  }

  /** What the check ORs into a twin vector at relative layer j: cc1 | cc2 below L/2, cc1 below (L+1)/2, else nothing. */
  function TwinPart(j: nat, L: nat, a: Word, b: Word): Word
  {
    if j < L / 2 then a + b else if j < (L + 1) / 2 then a else {}
  }

  /** The three word loops that apply relative layer j to the base vectors. */
  method RefApply(v1: array<Word>, v2: array<Word>, vt: array<Word>, a: array<Word>, b: array<Word>, j: nat, L: nat)
    requires v1 != v2 && v1 != vt && v2 != vt && v1 != a && v1 != b && v2 != a && v2 != b && vt != a && vt != b
    requires v2.Length == v1.Length && vt.Length == v1.Length && a.Length == v1.Length && b.Length == v1.Length
    modifies v1, v2, vt
    ensures forall w :: 0 <= w < v1.Length ==>
      v1[w] == old(v1[w]) + a[w] && v2[w] == old(v2[w]) + b[w] && vt[w] == old(vt[w]) + TwinPart(j, L, a[w], b[w])
  {
    if j < L / 2 {
      for w := 0 to v1.Length
        invariant forall u :: 0 <= u < w ==>
          v1[u] == old(v1[u]) + a[u] && v2[u] == old(v2[u]) + b[u] && vt[u] == old(vt[u]) + TwinPart(j, L, a[u], b[u])
        invariant forall u :: w <= u < v1.Length ==> v1[u] == old(v1[u]) && v2[u] == old(v2[u]) && vt[u] == old(vt[u])
      {
        v1[w] := v1[w] + a[w];
        v2[w] := v2[w] + b[w];
        vt[w] := vt[w] + (a[w] + b[w]);
      }
    } else if j < (L + 1) / 2 {
      for w := 0 to v1.Length
        invariant forall u :: 0 <= u < w ==>
          v1[u] == old(v1[u]) + a[u] && v2[u] == old(v2[u]) + b[u] && vt[u] == old(vt[u]) + TwinPart(j, L, a[u], b[u])
        invariant forall u :: w <= u < v1.Length ==> v1[u] == old(v1[u]) && v2[u] == old(v2[u]) && vt[u] == old(vt[u])
      {
        v1[w] := v1[w] + a[w];
        v2[w] := v2[w] + b[w];
        vt[w] := vt[w] + a[w];
      }
    } else {
      for w := 0 to v1.Length
        invariant forall u :: 0 <= u < w ==>
          v1[u] == old(v1[u]) + a[u] && v2[u] == old(v2[u]) + b[u] && vt[u] == old(vt[u]) + TwinPart(j, L, a[u], b[u])
        invariant forall u :: w <= u < v1.Length ==> v1[u] == old(v1[u]) && v2[u] == old(v2[u])
        invariant forall u :: 0 <= u < v1.Length ==> vt[u] == old(vt[u])
      {
        v1[w] := v1[w] + a[w];
        v2[w] := v2[w] + b[w];
      }
    }
  }

  /** The same loops on row e of the extension vectors. */
  method RefApplyRow(v1: array2<Word>, v2: array2<Word>, vt: array2<Word>, a: array<Word>, b: array<Word>,
                     e: nat, j: nat, L: nat)
    requires v1 != v2 && v1 != vt && v2 != vt && e < v1.Length0
    requires v2.Length0 == v1.Length0 && vt.Length0 == v1.Length0
    requires v2.Length1 == v1.Length1 && vt.Length1 == v1.Length1 && a.Length == v1.Length1 && b.Length == v1.Length1
    modifies v1, v2, vt
    ensures forall w :: 0 <= w < v1.Length1 ==>
      v1[e, w] == old(v1[e, w]) + a[w] && v2[e, w] == old(v2[e, w]) + b[w] &&
      vt[e, w] == old(vt[e, w]) + TwinPart(j, L, a[w], b[w])
    ensures forall r, w :: 0 <= r < v1.Length0 && r != e && 0 <= w < v1.Length1 ==>
      v1[r, w] == old(v1[r, w]) && v2[r, w] == old(v2[r, w]) && vt[r, w] == old(vt[r, w])
  {
    if j < L / 2 {
      for w := 0 to v1.Length1
        invariant forall u :: 0 <= u < w ==>
          v1[e, u] == old(v1[e, u]) + a[u] && v2[e, u] == old(v2[e, u]) + b[u] &&
          vt[e, u] == old(vt[e, u]) + TwinPart(j, L, a[u], b[u])
        invariant forall r, u :: 0 <= r < v1.Length0 && 0 <= u < v1.Length1 && !(r == e && u < w) ==>
          v1[r, u] == old(v1[r, u]) && v2[r, u] == old(v2[r, u]) && vt[r, u] == old(vt[r, u])
      {
        v1[e, w] := v1[e, w] + a[w];
        v2[e, w] := v2[e, w] + b[w];
        vt[e, w] := vt[e, w] + (a[w] + b[w]);
      }
    } else if j < (L + 1) / 2 {
      for w := 0 to v1.Length1
        invariant forall u :: 0 <= u < w ==>
          v1[e, u] == old(v1[e, u]) + a[u] && v2[e, u] == old(v2[e, u]) + b[u] &&
          vt[e, u] == old(vt[e, u]) + TwinPart(j, L, a[u], b[u])
        invariant forall r, u :: 0 <= r < v1.Length0 && 0 <= u < v1.Length1 && !(r == e && u < w) ==>
          v1[r, u] == old(v1[r, u]) && v2[r, u] == old(v2[r, u]) && vt[r, u] == old(vt[r, u])
      {
        v1[e, w] := v1[e, w] + a[w];
        v2[e, w] := v2[e, w] + b[w];
        vt[e, w] := vt[e, w] + a[w];
      }
    } else {
      for w := 0 to v1.Length1
        invariant forall u :: 0 <= u < w ==>
          v1[e, u] == old(v1[e, u]) + a[u] && v2[e, u] == old(v2[e, u]) + b[u] &&
          vt[e, u] == old(vt[e, u]) + TwinPart(j, L, a[u], b[u])
        invariant forall r, u :: 0 <= r < v1.Length0 && 0 <= u < v1.Length1 && !(r == e && u < w) ==>
          v1[r, u] == old(v1[r, u]) && v2[r, u] == old(v2[r, u]) && vt[r, u] == old(vt[r, u])
      {
        v1[e, w] := v1[e, w] + a[w];
        v2[e, w] := v2[e, w] + b[w];
      }
    }
  }

  /** The check's twin vector for the layers starting at x, after the layers below n. */
  function RefTwnAt(c: Config, N1: seq<seq<nat>>, N2: seq<seq<nat>>, x: nat, n: nat, w: nat): Word
    requires Indexable(c) && Shape(c, N1) && Shape(c, N2) && x + c.chainLength <= Layers(c)
  {
    RefTwn(c, N1, N2, x, Clamp(n, x, x + c.chainLength) - x, w)
  }

  /** Layer n adds its twin part to the twin vector iff x <= n < x + L. */
  lemma RefTwnStep(c: Config, N1: seq<seq<nat>>, N2: seq<seq<nat>>, x: nat, n: nat, w: nat)
    requires Indexable(c) && Shape(c, N1) && Shape(c, N2) && x + c.chainLength <= Layers(c) && n < Layers(c)
    ensures RefTwnAt(c, N1, N2, x, n + 1, w) == RefTwnAt(c, N1, N2, x, n, w) +
      (if x <= n < x + c.chainLength
       then TwinPart(n - x, c.chainLength, LayerWord(c, N1, n, w), LayerWord(c, N2, n, w))
       else {})
  {
  }

  /** The extension copies and the two layer buffers: their sizes, and no two extension copies overlap. */
  ghost predicate RowsReady(c: Config, N1: seq<seq<nat>>, N2: seq<seq<nat>>,
                            e1: array2<Word>, e2: array2<Word>, et: array2<Word>, a: array<Word>, b: array<Word>)
  {
    && Indexable(c) && Shape(c, N1) && Shape(c, N2)
    && a.Length == c.sieveWords && b.Length == c.sieveWords
    && e1.Length0 == c.extensions && e2.Length0 == c.extensions && et.Length0 == c.extensions
    && e1.Length1 == c.sieveWords && e2.Length1 == c.sieveWords && et.Length1 == c.sieveWords
    && e1 != e2 && e1 != et && e2 != et
  }

  /**
   * The buffers of `check_sieve`: the reset tables hold N1 and N2, the
   * copies and layers have the sizes of the sieve, and no two overlap.
   */
  ghost predicate RefReady(c: Config, N1: seq<seq<nat>>, N2: seq<seq<nat>>, m1: array2<nat>, m2: array2<nat>,
                           v1: array<Word>, v2: array<Word>, vt: array<Word>,
                           e1: array2<Word>, e2: array2<Word>, et: array2<Word>, a: array<Word>, b: array<Word>)
    reads m1, m2
  {
    && RowsReady(c, N1, N2, e1, e2, et, a, b) && c.sieveSize == WordBits * c.sieveWords
    && m1.Length0 == c.maxPrime && m1.Length1 == Layers(c) && m2.Length0 == c.maxPrime && m2.Length1 == Layers(c)
    && (forall i, l :: c.minPrime <= i < c.maxPrime && 0 <= l < Layers(c) ==> m1[i, l] == N1[i][l] && m2[i, l] == N2[i][l])
    && v1.Length == c.sieveWords && v2.Length == c.sieveWords && vt.Length == c.sieveWords
    && v1 != v2 && v1 != vt && v1 != a && v1 != b && v2 != vt && v2 != a && v2 != b && vt != a && vt != b && a != b
  }

  /** The base copies after the layers below n. */
  ghost predicate RefBase(c: Config, N1: seq<seq<nat>>, N2: seq<seq<nat>>, v1: array<Word>, v2: array<Word>, vt: array<Word>, n: nat)
    requires Indexable(c) && Shape(c, N1) && Shape(c, N2)
    requires v1.Length == c.sieveWords && v2.Length == c.sieveWords && vt.Length == c.sieveWords
    reads v1, v2, vt
  {
    forall w :: 0 <= w < c.sieveWords ==>
      v1[w] == VectorAt(c, N1, 0, n, w) && v2[w] == VectorAt(c, N2, 0, n, w) && vt[w] == RefTwnAt(c, N1, N2, 0, n, w)
  }

  /** Rows [lo, hi) of the extension copies (row r's layers start at r + 1) after the layers below n. */
  ghost predicate RowsAt(c: Config, N1: seq<seq<nat>>, N2: seq<seq<nat>>, e1: array2<Word>, e2: array2<Word>, et: array2<Word>,
                         lo: nat, hi: nat, n: nat)
    requires Indexable(c) && Shape(c, N1) && Shape(c, N2)
    requires e1.Length0 == c.extensions && e2.Length0 == c.extensions && et.Length0 == c.extensions
    requires e1.Length1 == c.sieveWords && e2.Length1 == c.sieveWords && et.Length1 == c.sieveWords
    reads e1, e2, et
  {
    forall r, w :: lo <= r < hi && r < c.extensions && 0 <= w < c.sieveWords ==>
      e1[r, w] == VectorAt(c, N1, r + 1, n, w) && e2[r, w] == VectorAt(c, N2, r + 1, n, w) &&
      et[r, w] == RefTwnAt(c, N1, N2, r + 1, n, w)
  }

  /** The extension loop for layer l, whose words a (cc1) and b (cc2) are sieved. */
  method RefExtensions(c: Config, ghost N1: seq<seq<nat>>, ghost N2: seq<seq<nat>>,
                       e1: array2<Word>, e2: array2<Word>, et: array2<Word>, a: array<Word>, b: array<Word>, l: nat)
    requires RowsReady(c, N1, N2, e1, e2, et, a, b) && l < Layers(c)
    requires forall w :: 0 <= w < c.sieveWords ==> a[w] == LayerWord(c, N1, l, w) && b[w] == LayerWord(c, N2, l, w)
    requires RowsAt(c, N1, N2, e1, e2, et, 0, c.extensions, l)
    modifies e1, e2, et
    ensures RowsAt(c, N1, N2, e1, e2, et, 0, c.extensions, l + 1)
  {
    for e := 0 to c.extensions
      invariant RowsAt(c, N1, N2, e1, e2, et, 0, e, l + 1) && RowsAt(c, N1, N2, e1, e2, et, e, c.extensions, l)
    {
      RefExtensionRow(c, N1, N2, e1, e2, et, a, b, e, l);
    }
  }

  /** Extension e at layer l: apply the layer when it is one of the row's L layers. */
  method RefExtensionRow(c: Config, ghost N1: seq<seq<nat>>, ghost N2: seq<seq<nat>>,
                         e1: array2<Word>, e2: array2<Word>, et: array2<Word>, a: array<Word>, b: array<Word>, e: nat, l: nat)
    requires RowsReady(c, N1, N2, e1, e2, et, a, b) && l < Layers(c) && e < c.extensions
    requires forall w :: 0 <= w < c.sieveWords ==> a[w] == LayerWord(c, N1, l, w) && b[w] == LayerWord(c, N2, l, w)
    requires RowsAt(c, N1, N2, e1, e2, et, 0, e, l + 1) && RowsAt(c, N1, N2, e1, e2, et, e, c.extensions, l)
    modifies e1, e2, et
    ensures RowsAt(c, N1, N2, e1, e2, et, 0, e + 1, l + 1) && RowsAt(c, N1, N2, e1, e2, et, e + 1, c.extensions, l)
  {
    ghost var o1, o2, ot := Row(e1, e), Row(e2, e), Row(et, e);
    if e + 1 <= l < c.chainLength + e + 1 {
      RefApplyRow(e1, e2, et, a, b, e, l - (e + 1), c.chainLength);
      assert RowsAt(c, N1, N2, e1, e2, et, 0, e, l + 1);
      assert RowsAt(c, N1, N2, e1, e2, et, e + 1, c.extensions, l);
    }
    RowAdvance(c, N1, N2, e1, e2, et, a, b, e, l, o1, o2, ot);
  }

  /**
   * Row e, whose words were o1, o2 and ot at layer l, has taken layer l
   * exactly when l is one of its layers: it then holds layer l + 1.
   */
  lemma RowAdvance(c: Config, N1: seq<seq<nat>>, N2: seq<seq<nat>>,
                   e1: array2<Word>, e2: array2<Word>, et: array2<Word>, a: array<Word>, b: array<Word>, e: nat, l: nat,
                   o1: seq<Word>, o2: seq<Word>, ot: seq<Word>)
    requires RowsReady(c, N1, N2, e1, e2, et, a, b) && l < Layers(c) && e < c.extensions
    requires forall w :: 0 <= w < c.sieveWords ==> a[w] == LayerWord(c, N1, l, w) && b[w] == LayerWord(c, N2, l, w)
    requires |o1| == c.sieveWords && |o2| == c.sieveWords && |ot| == c.sieveWords
    requires forall w :: 0 <= w < c.sieveWords ==>
      o1[w] == VectorAt(c, N1, e + 1, l, w) && o2[w] == VectorAt(c, N2, e + 1, l, w) && ot[w] == RefTwnAt(c, N1, N2, e + 1, l, w)
    requires forall w :: 0 <= w < c.sieveWords ==>
      if e + 1 <= l < c.chainLength + e + 1
      then e1[e, w] == o1[w] + a[w] && e2[e, w] == o2[w] + b[w] &&
        et[e, w] == ot[w] + TwinPart(l - (e + 1), c.chainLength, a[w], b[w])
      else e1[e, w] == o1[w] && e2[e, w] == o2[w] && et[e, w] == ot[w]
    requires RowsAt(c, N1, N2, e1, e2, et, 0, e, l + 1) && RowsAt(c, N1, N2, e1, e2, et, e + 1, c.extensions, l)
    ensures RowsAt(c, N1, N2, e1, e2, et, 0, e + 1, l + 1) && RowsAt(c, N1, N2, e1, e2, et, e + 1, c.extensions, l)
  {
    forall w | 0 <= w < c.sieveWords
      ensures e1[e, w] == VectorAt(c, N1, e + 1, l + 1, w) && e2[e, w] == VectorAt(c, N2, e + 1, l + 1, w)
      ensures et[e, w] == RefTwnAt(c, N1, N2, e + 1, l + 1, w)
    {
      RowWordStep(c, N1, N2, e + 1, l, w, o1[w], o2[w], ot[w], a[w], b[w], e1[e, w], e2[e, w], et[e, w]);
    }
    RowsJoin(c, N1, N2, e1, e2, et, a, b, e, l + 1);
  }

  /** Rows [0, e) and row e at layer n make rows [0, e + 1) at layer n. */
  lemma RowsJoin(c: Config, N1: seq<seq<nat>>, N2: seq<seq<nat>>,
                 e1: array2<Word>, e2: array2<Word>, et: array2<Word>, a: array<Word>, b: array<Word>, e: nat, n: nat)
    requires RowsReady(c, N1, N2, e1, e2, et, a, b) && e < c.extensions
    requires RowsAt(c, N1, N2, e1, e2, et, 0, e, n)
    requires forall w :: 0 <= w < c.sieveWords ==>
      e1[e, w] == VectorAt(c, N1, e + 1, n, w) && e2[e, w] == VectorAt(c, N2, e + 1, n, w) &&
      et[e, w] == RefTwnAt(c, N1, N2, e + 1, n, w)
    ensures RowsAt(c, N1, N2, e1, e2, et, 0, e + 1, n)
  {
  }

  /**
   * One word of a row of chain x at layer l: the words o1, o2, ot of
   * layer l become n1, n2, nt, the words of layer l + 1, when the layer
   * words a and b are applied exactly for the chain's own layers.
   */
  lemma RowWordStep(c: Config, N1: seq<seq<nat>>, N2: seq<seq<nat>>, x: nat, l: nat, w: nat,
                    o1: Word, o2: Word, ot: Word, a: Word, b: Word, n1: Word, n2: Word, nt: Word)
    requires Indexable(c) && Shape(c, N1) && Shape(c, N2) && x + c.chainLength <= Layers(c) && l < Layers(c)
    requires o1 == VectorAt(c, N1, x, l, w) && o2 == VectorAt(c, N2, x, l, w) && ot == RefTwnAt(c, N1, N2, x, l, w)
    requires a == LayerWord(c, N1, l, w) && b == LayerWord(c, N2, l, w)
    requires if x <= l < x + c.chainLength
      then n1 == o1 + a && n2 == o2 + b && nt == ot + TwinPart(l - x, c.chainLength, a, b)
      else n1 == o1 && n2 == o2 && nt == ot
    ensures n1 == VectorAt(c, N1, x, l + 1, w) && n2 == VectorAt(c, N2, x, l + 1, w)
    ensures nt == RefTwnAt(c, N1, N2, x, l + 1, w)
  {
    VectorStep(c, N1, x, l, w);
    VectorStep(c, N2, x, l, w);
    RefTwnStep(c, N1, N2, x, l, w);
  }

  /** One pass of the layer loop of `check_sieve`: sieve layer l and apply it. */
  method RefLayer(c: Config, ghost N1: seq<seq<nat>>, ghost N2: seq<seq<nat>>, m1: array2<nat>, m2: array2<nat>,
                  v1: array<Word>, v2: array<Word>, vt: array<Word>,
                  e1: array2<Word>, e2: array2<Word>, et: array2<Word>, a: array<Word>, b: array<Word>, l: nat)
    requires RefReady(c, N1, N2, m1, m2, v1, v2, vt, e1, e2, et, a, b) && l < Layers(c)
    requires RefBase(c, N1, N2, v1, v2, vt, l)
    requires RowsAt(c, N1, N2, e1, e2, et, 0, c.extensions, l)
    modifies v1, v2, vt, e1, e2, et, a, b
    ensures RefBase(c, N1, N2, v1, v2, vt, l + 1)
    ensures RowsAt(c, N1, N2, e1, e2, et, 0, c.extensions, l + 1)
  {
    RefSieveFromTo(c, a, m1, N1, l);
    RefSieveFromTo(c, b, m2, N2, l);
    if l < c.chainLength {
      RefApply(v1, v2, vt, a, b, l, c.chainLength);
    }
    forall w | 0 <= w < c.sieveWords
      ensures v1[w] == VectorAt(c, N1, 0, l + 1, w) && v2[w] == VectorAt(c, N2, 0, l + 1, w)
      ensures vt[w] == RefTwnAt(c, N1, N2, 0, l + 1, w)
    {
      VectorStep(c, N1, 0, l, w);
      VectorStep(c, N2, 0, l, w);
      RefTwnStep(c, N1, N2, 0, l, w);
    }
    RefExtensions(c, N1, N2, e1, e2, et, a, b, l);
  }

  /**
   * The layer loop of `check_sieve` over cleared copies: every layer is
   * sieved without blocks, and the copies end as the vectors of the
   * reference rule (RefTwn for the twin vectors).
   */
  method RefSieve(c: Config, ghost N1: seq<seq<nat>>, ghost N2: seq<seq<nat>>, m1: array2<nat>, m2: array2<nat>,
                  v1: array<Word>, v2: array<Word>, vt: array<Word>,
                  e1: array2<Word>, e2: array2<Word>, et: array2<Word>, a: array<Word>, b: array<Word>)
    requires RefReady(c, N1, N2, m1, m2, v1, v2, vt, e1, e2, et, a, b)
    requires Cleared(v1) && Cleared(v2) && Cleared(vt) && RowsCleared(e1) && RowsCleared(e2) && RowsCleared(et)
    modifies v1, v2, vt, e1, e2, et, a, b
    ensures forall w :: 0 <= w < c.sieveWords ==>
      v1[w] == Accum(c, N1, 0, c.chainLength, w) && v2[w] == Accum(c, N2, 0, c.chainLength, w) &&
      vt[w] == RefTwn(c, N1, N2, 0, c.chainLength, w)
    ensures forall e, w :: 0 <= e < c.extensions && 0 <= w < c.sieveWords ==>
      e1[e, w] == Accum(c, N1, e + 1, e + 1 + c.chainLength, w) &&
      e2[e, w] == Accum(c, N2, e + 1, e + 1 + c.chainLength, w) &&
      et[e, w] == RefTwn(c, N1, N2, e + 1, c.chainLength, w)
  {
    for l := 0 to Layers(c)
      invariant RefBase(c, N1, N2, v1, v2, vt, l)
      invariant RowsAt(c, N1, N2, e1, e2, et, 0, c.extensions, l)
    {
      RefLayer(c, N1, N2, m1, m2, v1, v2, vt, e1, e2, et, a, b, l);
    }
    assert RowsAt(c, N1, N2, e1, e2, et, 0, c.extensions, Layers(c));
  }

  // ---------------------------------------------------------------------
  // check_sieve: the comparisons

  /** Words [lo, sieve_words) of three vectors are the reference vectors for the layers starting at x. */
  ghost predicate Agrees(c: Config, N1: seq<seq<nat>>, N2: seq<seq<nat>>, x: nat,
                         v1: seq<Word>, v2: seq<Word>, vt: seq<Word>, lo: nat)
    requires Indexable(c) && Shape(c, N1) && Shape(c, N2) && x + c.chainLength <= Layers(c)
    requires |v1| == c.sieveWords && |v2| == c.sieveWords && |vt| == c.sieveWords
  {
    forall w :: lo <= w < c.sieveWords ==>
      v1[w] == Accum(c, N1, x, x + c.chainLength, w) && v2[w] == Accum(c, N2, x, x + c.chainLength, w) &&
      vt[w] == RefTwn(c, N1, N2, x, c.chainLength, w)
  }

  /** The vectors `check_sieve` compares have the sizes of the sieve. */
  ghost predicate Compared(s: Sieve)
  {
    && Indexable(s.cfg)
    && s.cc1.Length == s.cfg.sieveWords && s.cc2.Length == s.cfg.sieveWords && s.twn.Length == s.cfg.sieveWords
    && s.extCc1.Length0 == s.cfg.extensions && s.extCc1.Length1 == s.cfg.sieveWords
    && s.extCc2.Length0 == s.cfg.extensions && s.extCc2.Length1 == s.cfg.sieveWords
    && s.extTwn.Length0 == s.cfg.extensions && s.extTwn.Length1 == s.cfg.sieveWords
  }

  /**
   * What `check_sieve` compares: the base vectors from the first word
   * `sieve_run` fills, and the second half of every extension row.
   */
  ghost predicate SieveMatches(s: Sieve, N1: seq<seq<nat>>, N2: seq<seq<nat>>)
    requires Compared(s) && Shape(s.cfg, N1) && Shape(s.cfg, N2)
    reads s.cc1, s.cc2, s.twn, s.extCc1, s.extCc2, s.extTwn
  {
    && Agrees(s.cfg, N1, N2, 0, s.cc1[..], s.cc2[..], s.twn[..], FirstWord(s.cfg))
    && forall e :: 0 <= e < s.cfg.extensions ==>
      Agrees(s.cfg, N1, N2, e + 1, Row(s.extCc1, e), Row(s.extCc2, e), Row(s.extTwn, e), s.cfg.sieveWords / 2)
  }

  /** A `calloc`ed vector of n words. */
  method NewVector(n: nat) returns (v: array<Word>)
    ensures fresh(v) && v.Length == n && Cleared(v)
  {
    v := new Word[n](_ => {});
  }

  /** A `calloc`ed vector of rows x n words. */
  method NewRows(rows: nat, n: nat) returns (v: array2<Word>)
    ensures fresh(v) && v.Length0 == rows && v.Length1 == n && RowsCleared(v)
  {
    v := new Word[rows, n]((_, _) => {});
  }

  /**
   * The copies of `check_sieve` after its layer loop over the tables m1
   * and m2: every copy is the reference vector.
   */
  method ReferenceVectors(c: Config, m1: array2<nat>, m2: array2<nat>, ghost N1: seq<seq<nat>>, ghost N2: seq<seq<nat>>)
    returns (v1: array<Word>, v2: array<Word>, vt: array<Word>, e1: array2<Word>, e2: array2<Word>, et: array2<Word>)
    requires Indexable(c) && Shape(c, N1) && Shape(c, N2) && c.sieveSize == WordBits * c.sieveWords
    requires m1.Length0 == c.maxPrime && m1.Length1 == Layers(c) && m2.Length0 == c.maxPrime && m2.Length1 == Layers(c)
    requires forall i, l :: c.minPrime <= i < c.maxPrime && 0 <= l < Layers(c) ==> m1[i, l] == N1[i][l] && m2[i, l] == N2[i][l]
    ensures fresh(v1) && fresh(v2) && fresh(vt) && fresh(e1) && fresh(e2) && fresh(et)
    ensures v1.Length == c.sieveWords && v2.Length == c.sieveWords && vt.Length == c.sieveWords
    ensures e1.Length0 == c.extensions && e2.Length0 == c.extensions && et.Length0 == c.extensions
    ensures e1.Length1 == c.sieveWords && e2.Length1 == c.sieveWords && et.Length1 == c.sieveWords
    ensures Agrees(c, N1, N2, 0, v1[..], v2[..], vt[..], 0)
    ensures forall e :: 0 <= e < c.extensions ==> Agrees(c, N1, N2, e + 1, Rows(e1)[e], Rows(e2)[e], Rows(et)[e], 0)
  {
    v1 := NewVector(c.sieveWords);
    v2 := NewVector(c.sieveWords);
    vt := NewVector(c.sieveWords);
    e1 := NewRows(c.extensions, c.sieveWords);
    e2 := NewRows(c.extensions, c.sieveWords);
    et := NewRows(c.extensions, c.sieveWords);
    var cc1Layer := NewVector(c.sieveWords);
    var cc2Layer := NewVector(c.sieveWords);
    RefSieve(c, N1, N2, m1, m2, v1, v2, vt, e1, e2, et, cc1Layer, cc2Layer);
    forall e | 0 <= e < c.extensions
      ensures Agrees(c, N1, N2, e + 1, Rows(e1)[e], Rows(e2)[e], Rows(et)[e], 0)
    {
      RowAgrees(c, N1, N2, e1, e2, et, e);
    }
  }

  /** Row e of extension copies that hold the reference vectors agrees with them. */
  lemma RowAgrees(c: Config, N1: seq<seq<nat>>, N2: seq<seq<nat>>, e1: array2<Word>, e2: array2<Word>, et: array2<Word>, e: nat)
    requires Indexable(c) && Shape(c, N1) && Shape(c, N2) && e < c.extensions
    requires e1.Length0 == c.extensions && e2.Length0 == c.extensions && et.Length0 == c.extensions
    requires e1.Length1 == c.sieveWords && e2.Length1 == c.sieveWords && et.Length1 == c.sieveWords
    requires forall w :: 0 <= w < c.sieveWords ==>
      e1[e, w] == Accum(c, N1, e + 1, e + 1 + c.chainLength, w) &&
      e2[e, w] == Accum(c, N2, e + 1, e + 1 + c.chainLength, w) &&
      et[e, w] == RefTwn(c, N1, N2, e + 1, c.chainLength, w)
    ensures Agrees(c, N1, N2, e + 1, Rows(e1)[e], Rows(e2)[e], Rows(et)[e], 0)
  {
  }

  /** Three `ary_eql` calls from word lo on, none of them short-circuited; true iff all three agree. */
  method CompareVectors(c: Config, ghost N1: seq<seq<nat>>, ghost N2: seq<seq<nat>>, ghost x: nat,
                        v1: seq<Word>, v2: seq<Word>, vt: seq<Word>, r1: seq<Word>, r2: seq<Word>, rt: seq<Word>, lo: nat)
    returns (ok: bool)
    requires Indexable(c) && Shape(c, N1) && Shape(c, N2) && x + c.chainLength <= Layers(c)
    requires |v1| == c.sieveWords && |v2| == c.sieveWords && |vt| == c.sieveWords
    requires |r1| == c.sieveWords && |r2| == c.sieveWords && |rt| == c.sieveWords
    requires Agrees(c, N1, N2, x, r1, r2, rt, 0)
    ensures ok <==> Agrees(c, N1, N2, x, v1, v2, vt, lo)
  {
    ok := true;
    var eq := AryEql(v1, r1, lo, c.sieveWords);
    if !eq {
      ok := false;
    }
    eq := AryEql(v2, r2, lo, c.sieveWords);
    if !eq {
      ok := false;
    }
    eq := AryEql(vt, rt, lo, c.sieveWords);
    if !eq {
      ok := false;
    }
  }

  /** The copies, reset, of both tables, and `check_mulltiplier` on them, whose result `check_sieve` ignores. */
  method ResetTables(c: Config, H: nat, orig1: array2<nat>, orig2: array2<nat>) returns (m1: array2<nat>, m2: array2<nat>)
    requires Indexable(c) && PrimesOk(c) && Layers(c) > 0
    requires orig1.Length0 == c.maxPrime && orig1.Length1 == Layers(c)
    requires orig2.Length0 == c.maxPrime && orig2.Length1 == Layers(c)
    ensures fresh(m1) && fresh(m2)
    ensures m1.Length0 == c.maxPrime && m1.Length1 == Layers(c) && m2.Length0 == c.maxPrime && m2.Length1 == Layers(c)
    ensures TableOf(m1) == Reduced(c, TableOf(orig1)) && TableOf(m2) == Reduced(c, TableOf(orig2))
  {
    m1, m2 := ReduceCopies(c, orig1, orig2);
    var mulOk := CheckMultiplier(c, H, m1, m2);
  }

  /** Every comparison of `check_sieve`: the base vectors from word start, the extension rows from sieve_words / 2. */
  method CompareAll(c: Config, ghost N1: seq<seq<nat>>, ghost N2: seq<seq<nat>>,
                    b1: seq<Word>, b2: seq<Word>, bt: seq<Word>, x1: seq<seq<Word>>, x2: seq<seq<Word>>, xt: seq<seq<Word>>,
                    r1: seq<Word>, r2: seq<Word>, rt: seq<Word>, y1: seq<seq<Word>>, y2: seq<seq<Word>>, yt: seq<seq<Word>>,
                    start: nat)
    returns (ok: bool)
    requires Indexable(c) && Shape(c, N1) && Shape(c, N2) && c.chainLength <= Layers(c)
    requires |b1| == c.sieveWords && |b2| == c.sieveWords && |bt| == c.sieveWords
    requires |r1| == c.sieveWords && |r2| == c.sieveWords && |rt| == c.sieveWords
    requires |x1| == c.extensions && |x2| == c.extensions && |xt| == c.extensions
    requires |y1| == c.extensions && |y2| == c.extensions && |yt| == c.extensions
    requires forall e :: 0 <= e < c.extensions ==>
      |x1[e]| == c.sieveWords && |x2[e]| == c.sieveWords && |xt[e]| == c.sieveWords &&
      |y1[e]| == c.sieveWords && |y2[e]| == c.sieveWords && |yt[e]| == c.sieveWords
    requires Agrees(c, N1, N2, 0, r1, r2, rt, 0)
    requires forall e :: 0 <= e < c.extensions ==> Agrees(c, N1, N2, e + 1, y1[e], y2[e], yt[e], 0)
    ensures ok <==> (Agrees(c, N1, N2, 0, b1, b2, bt, start) &&
      forall e :: 0 <= e < c.extensions ==> Agrees(c, N1, N2, e + 1, x1[e], x2[e], xt[e], c.sieveWords / 2))
  {
    ok := CompareVectors(c, N1, N2, 0, b1, b2, bt, r1, r2, rt, start);
    var rowsOk := CompareRows(c, N1, N2, x1, x2, xt, y1, y2, yt);
    ok := ok && rowsOk;
  }

  /**
   * `check_sieve`: reset copies of both tables (and `check_mulltiplier`
   * on them, whose result it ignores), the reference sieve into fresh
   * copies, then `ary_eql` on every vector.  True (0 in C) iff the
   * sieve's vectors are those of the reference sieve on the reset
   * tables; it changes nothing of the sieve.
   */
  method CheckSieve(s: Sieve, H: nat) returns (ok: bool)
    requires s.Valid()
    ensures ok <==> SieveMatches(s, Reduced(s.cfg, TableOf(s.cc1Muls)), Reduced(s.cfg, TableOf(s.cc2Muls)))
  {
    var c := s.cfg;
    var m1, m2 := ResetTables(c, H, s.cc1Muls, s.cc2Muls);
    ghost var N1, N2 := TableOf(m1), TableOf(m2);
    var v1, v2, vt, e1, e2, et := ReferenceVectors(c, m1, m2, N1, N2);
    var start := if c.useFirstHalf then 0 else c.sieveWords / 2;
    ok := CompareAll(c, N1, N2, s.cc1[..], s.cc2[..], s.twn[..], Rows(s.extCc1), Rows(s.extCc2), Rows(s.extTwn),
                     v1[..], v2[..], vt[..], Rows(e1), Rows(e2), Rows(et), start);
  }

  /** The rows of a two-dimensional vector. */
  function Rows(a: array2<Word>): (r: seq<seq<Word>>)
    reads a
    ensures |r| == a.Length0 && forall e :: 0 <= e < a.Length0 ==> r[e] == Row(a, e)
  {
    seq(a.Length0, e requires 0 <= e < a.Length0 reads a => Row(a, e))
  }

  /** The comparison loop over the extension rows x, from word sieve_words / 2 on, against the reference rows y. */
  method CompareRows(c: Config, ghost N1: seq<seq<nat>>, ghost N2: seq<seq<nat>>,
                     x1: seq<seq<Word>>, x2: seq<seq<Word>>, xt: seq<seq<Word>>,
                     y1: seq<seq<Word>>, y2: seq<seq<Word>>, yt: seq<seq<Word>>)
    returns (ok: bool)
    requires Indexable(c) && Shape(c, N1) && Shape(c, N2)
    requires |x1| == c.extensions && |x2| == c.extensions && |xt| == c.extensions
    requires |y1| == c.extensions && |y2| == c.extensions && |yt| == c.extensions
    requires forall e :: 0 <= e < c.extensions ==>
      |x1[e]| == c.sieveWords && |x2[e]| == c.sieveWords && |xt[e]| == c.sieveWords &&
      |y1[e]| == c.sieveWords && |y2[e]| == c.sieveWords && |yt[e]| == c.sieveWords
    requires forall e :: 0 <= e < c.extensions ==> Agrees(c, N1, N2, e + 1, y1[e], y2[e], yt[e], 0)
    ensures ok <==> forall e :: 0 <= e < c.extensions ==> Agrees(c, N1, N2, e + 1, x1[e], x2[e], xt[e], c.sieveWords / 2)
  {
    ok := true;
    for e := 0 to c.extensions
      invariant ok <==> forall r :: 0 <= r < e ==> Agrees(c, N1, N2, r + 1, x1[r], x2[r], xt[r], c.sieveWords / 2)
    {
      var rowOk := CompareVectors(c, N1, N2, e + 1, x1[e], x2[e], xt[e], y1[e], y2[e], yt[e], c.sieveWords / 2);
      if !rowOk {
        ok := false;
      }
    }
  }

  /**
   * After the block loops of `sieve_run` the entries of the sieving
   * primes are their offsets lifted to `sieve_size`, so the reset of
   * `check_sieve` gives back the tables of `calc_multipliers`.
   */
  lemma RestoredAfterRun(s: Sieve, H: nat)
    requires s.Valid() && TwoInversesOk(s.cfg)
    requires LayersLifted(s.cfg, s.cc1Muls, Cc1Table(s.cfg, H), Layers(s.cfg), s.cfg.sieveSize)
    requires LayersLifted(s.cfg, s.cc2Muls, Cc2Table(s.cfg, H), Layers(s.cfg), s.cfg.sieveSize)
    ensures forall i, l :: s.cfg.minPrime <= i < s.cfg.maxPrime && 0 <= l < Layers(s.cfg) ==>
      Reduced(s.cfg, TableOf(s.cc1Muls))[i][l] == Cc1Table(s.cfg, H)[i][l] &&
      Reduced(s.cfg, TableOf(s.cc2Muls))[i][l] == Cc2Table(s.cfg, H)[i][l]
  {
    ReduceRestores(s.cfg, H, TableOf(s.cc1Muls), TableOf(s.cc2Muls));
  }

  /**
   * Base vectors that hold the words of the tables M1 and M2 from their
   * first word on are what `check_sieve` compares them with, when its
   * reset tables R1 and R2 agree with M1 and M2 on the sieving primes.
   */
  lemma BaseRunMatches(s: Sieve, R1: seq<seq<nat>>, R2: seq<seq<nat>>, M1: seq<seq<nat>>, M2: seq<seq<nat>>)
    requires Compared(s) && Shape(s.cfg, R1) && Shape(s.cfg, R2) && Shape(s.cfg, M1) && Shape(s.cfg, M2)
    requires forall i, l :: s.cfg.minPrime <= i < s.cfg.maxPrime && 0 <= l < Layers(s.cfg) ==>
      R1[i][l] == M1[i][l] && R2[i][l] == M2[i][l]
    requires forall w :: FirstWord(s.cfg) <= w < s.cfg.sieveWords ==>
      s.cc1[w] == Accum(s.cfg, M1, 0, s.cfg.chainLength, w) && s.cc2[w] == Accum(s.cfg, M2, 0, s.cfg.chainLength, w) &&
      s.twn[w] == TwnWord(s.cfg, M1, M2, 0, w)
    ensures Agrees(s.cfg, R1, R2, 0, s.cc1[..], s.cc2[..], s.twn[..], FirstWord(s.cfg))
  {
    assert SpecAgrees(s.cfg, M1, M2, 0, s.cc1[..], s.cc2[..], s.twn[..], FirstWord(s.cfg));
    VectorsMatch(s.cfg, R1, R2, M1, M2, 0, s.cc1[..], s.cc2[..], s.twn[..], FirstWord(s.cfg));
  }

  /** The same for the second half of every extension row. */
  lemma ExtRunMatches(s: Sieve, R1: seq<seq<nat>>, R2: seq<seq<nat>>, M1: seq<seq<nat>>, M2: seq<seq<nat>>)
    requires Compared(s) && Shape(s.cfg, R1) && Shape(s.cfg, R2) && Shape(s.cfg, M1) && Shape(s.cfg, M2)
    requires forall i, l :: s.cfg.minPrime <= i < s.cfg.maxPrime && 0 <= l < Layers(s.cfg) ==>
      R1[i][l] == M1[i][l] && R2[i][l] == M2[i][l]
    requires forall e, w :: 0 <= e < s.cfg.extensions && s.cfg.sieveWords / 2 <= w < s.cfg.sieveWords ==>
      s.extCc1[e, w] == Accum(s.cfg, M1, e + 1, e + 1 + s.cfg.chainLength, w) &&
      s.extCc2[e, w] == Accum(s.cfg, M2, e + 1, e + 1 + s.cfg.chainLength, w) &&
      s.extTwn[e, w] == TwnWord(s.cfg, M1, M2, e + 1, w)
    ensures forall e :: 0 <= e < s.cfg.extensions ==>
      Agrees(s.cfg, R1, R2, e + 1, Row(s.extCc1, e), Row(s.extCc2, e), Row(s.extTwn, e), s.cfg.sieveWords / 2)
  {
    forall e | 0 <= e < s.cfg.extensions
      ensures Agrees(s.cfg, R1, R2, e + 1, Row(s.extCc1, e), Row(s.extCc2, e), Row(s.extTwn, e), s.cfg.sieveWords / 2)
    {
      ExtRowMatches(s, R1, R2, M1, M2, e);
    }
  }

  /** One extension row of ExtRunMatches. */
  lemma ExtRowMatches(s: Sieve, R1: seq<seq<nat>>, R2: seq<seq<nat>>, M1: seq<seq<nat>>, M2: seq<seq<nat>>, e: nat)
    requires Compared(s) && Shape(s.cfg, R1) && Shape(s.cfg, R2) && Shape(s.cfg, M1) && Shape(s.cfg, M2)
    requires e < s.cfg.extensions
    requires forall i, l :: s.cfg.minPrime <= i < s.cfg.maxPrime && 0 <= l < Layers(s.cfg) ==>
      R1[i][l] == M1[i][l] && R2[i][l] == M2[i][l]
    requires forall w :: s.cfg.sieveWords / 2 <= w < s.cfg.sieveWords ==>
      s.extCc1[e, w] == Accum(s.cfg, M1, e + 1, e + 1 + s.cfg.chainLength, w) &&
      s.extCc2[e, w] == Accum(s.cfg, M2, e + 1, e + 1 + s.cfg.chainLength, w) &&
      s.extTwn[e, w] == TwnWord(s.cfg, M1, M2, e + 1, w)
    ensures Agrees(s.cfg, R1, R2, e + 1, Row(s.extCc1, e), Row(s.extCc2, e), Row(s.extTwn, e), s.cfg.sieveWords / 2)
  {
    ExtRowSpec(s, M1, M2, e);
    VectorsMatch(s.cfg, R1, R2, M1, M2, e + 1, Row(s.extCc1, e), Row(s.extCc2, e), Row(s.extTwn, e), s.cfg.sieveWords / 2);
  }

  /** The second half of extension row e, read as sequences, still holds the words of chain e + 1. */
  lemma ExtRowSpec(s: Sieve, M1: seq<seq<nat>>, M2: seq<seq<nat>>, e: nat)
    requires Compared(s) && Shape(s.cfg, M1) && Shape(s.cfg, M2) && e < s.cfg.extensions
    requires forall w :: s.cfg.sieveWords / 2 <= w < s.cfg.sieveWords ==>
      s.extCc1[e, w] == Accum(s.cfg, M1, e + 1, e + 1 + s.cfg.chainLength, w) &&
      s.extCc2[e, w] == Accum(s.cfg, M2, e + 1, e + 1 + s.cfg.chainLength, w) &&
      s.extTwn[e, w] == TwnWord(s.cfg, M1, M2, e + 1, w)
    ensures SpecAgrees(s.cfg, M1, M2, e + 1, Row(s.extCc1, e), Row(s.extCc2, e), Row(s.extTwn, e), s.cfg.sieveWords / 2)
  {
    var v1, v2, vt := Row(s.extCc1, e), Row(s.extCc2, e), Row(s.extTwn, e);
    assert forall w :: s.cfg.sieveWords / 2 <= w < s.cfg.sieveWords ==>
      v1[w] == s.extCc1[e, w] && v2[w] == s.extCc2[e, w] && vt[w] == s.extTwn[e, w];
  }

  /**
   * Vectors of chain x that hold the words of the tables M1 and M2 from
   * word lo on: the words the specification gives them.
   */
  ghost predicate SpecAgrees(c: Config, M1: seq<seq<nat>>, M2: seq<seq<nat>>, x: nat,
                             v1: seq<Word>, v2: seq<Word>, vt: seq<Word>, lo: nat)
    requires Indexable(c) && Shape(c, M1) && Shape(c, M2) && x + c.chainLength <= Layers(c)
    requires |v1| == c.sieveWords && |v2| == c.sieveWords && |vt| == c.sieveWords
  {
    forall w :: lo <= w < c.sieveWords ==>
      v1[w] == Accum(c, M1, x, x + c.chainLength, w) && v2[w] == Accum(c, M2, x, x + c.chainLength, w) &&
      vt[w] == TwnWord(c, M1, M2, x, w)
  }

  /**
   * Vectors of chain x (0 for the base, e + 1 for extension row e) that
   * hold the specification's words of M1 and M2 from word lo on agree
   * with the reference sieve on R1 and R2 there.
   */
  lemma VectorsMatch(c: Config, R1: seq<seq<nat>>, R2: seq<seq<nat>>, M1: seq<seq<nat>>, M2: seq<seq<nat>>,
                     x: nat, v1: seq<Word>, v2: seq<Word>, vt: seq<Word>, lo: nat)
    requires Indexable(c) && Shape(c, R1) && Shape(c, R2) && Shape(c, M1) && Shape(c, M2) && x + c.chainLength <= Layers(c)
    requires forall i, l :: c.minPrime <= i < c.maxPrime && 0 <= l < Layers(c) ==> R1[i][l] == M1[i][l] && R2[i][l] == M2[i][l]
    requires |v1| == c.sieveWords && |v2| == c.sieveWords && |vt| == c.sieveWords
    requires SpecAgrees(c, M1, M2, x, v1, v2, vt, lo)
    ensures Agrees(c, R1, R2, x, v1, v2, vt, lo)
  {
    forall w | lo <= w < c.sieveWords
      ensures v1[w] == Accum(c, R1, x, x + c.chainLength, w) && v2[w] == Accum(c, R2, x, x + c.chainLength, w)
      ensures vt[w] == RefTwn(c, R1, R2, x, c.chainLength, w)
    {
      ReferenceMatches(c, R1, R2, M1, M2, x, w);
    }
  }

  /**
   * `sieve_run` of a build with the self-checks: `calc_multipliers`
   * ends with `check_mulltiplier`, and `check_sieve` runs after the
   * block loops, before the final masks.  Both checks pass.
   */
  method SieveRunChecked(s: Sieve, H: nat) returns (multipliersOk: bool, sieveOk: bool)
    requires s.Valid() && s.Reset() && TwoInversesOk(s.cfg)
    modifies s.cc1Layer, s.cc2Layer, s.cc1Muls, s.cc2Muls, s.cc1, s.cc2, s.twn, s.all, s.extCc1, s.extCc2, s.extTwn, s.extAll
    ensures multipliersOk && sieveOk
  {
    multipliersOk := CalcMultipliersChecked(s, H);
    s.SieveVectors(Cc1Table(s.cfg, H), Cc2Table(s.cfg, H));
    sieveOk := CheckSieve(s, H);
    RestoredAfterRun(s, H);
    ghost var R1, R2 := Reduced(s.cfg, TableOf(s.cc1Muls)), Reduced(s.cfg, TableOf(s.cc2Muls));
    BaseRunMatches(s, R1, R2, Cc1Table(s.cfg, H), Cc2Table(s.cfg, H));
    ExtRunMatches(s, R1, R2, Cc1Table(s.cfg, H), Cc2Table(s.cfg, H));
    s.CombineBase();
    s.CombineExtensions();
  }

  // ---------------------------------------------------------------------
  // check_primes

  /** The trial division of `check_primes`: no d in [2, sqrt(p) + 1] divides p. */
  predicate TrialPasses(p: nat)
  {
    forall d :: 2 <= d <= ISqrt(p) + 1 ==> p % d != 0
  }

  /** The countdown loop from `sqrt(p) + 1` to 2. */
  method TrialDivision(p: nat) returns (ok: bool)
    ensures ok <==> TrialPasses(p)
  {
    var max := ISqrt(p) + 1;
    while max > 1
      invariant max <= ISqrt(p) + 1
      invariant forall d :: 2 <= d && max < d <= ISqrt(p) + 1 ==> p % d != 0
    {
      if p % max == 0 {
        return false;
      }
      max := max - 1;
    }
    return true;
  }

  /**
   * `check_primes(primes, two_inverses, len)`: false (-1 in C) when the
   * first entry is not 2 or an entry in [1, len) fails the trial
   * division; `logged` is the indexes whose inverse of 2 the check
   * reports, which does not change the result.  Entries must be
   * non-zero for `% primes[i]`.
   */
  method CheckPrimes(primes: seq<nat>, twoInverses: seq<nat>, len: nat) returns (ok: bool, logged: seq<nat>)
    requires 0 < |primes| && len <= |primes| && len <= |twoInverses|
    requires forall i :: 1 <= i < len ==> primes[i] > 0
    ensures ok <==> primes[0] == 2 && forall i :: 1 <= i < len ==> TrialPasses(primes[i])
    ensures forall i :: i in logged ==> 1 <= i < len && (2 * twoInverses[i]) % primes[i] != 1
    ensures ok ==> forall i :: 1 <= i < len && (2 * twoInverses[i]) % primes[i] != 1 ==> i in logged
  {
    logged := [];
    if primes[0] != 2 {
      return false, logged;
    }
    var i := 1;
    while i < len
      invariant 1 <= i && (i <= len || i == 1)
      invariant forall j :: 1 <= j < i && j < len ==> TrialPasses(primes[j])
      invariant forall j :: j in logged ==> 1 <= j < i && j < len && (2 * twoInverses[j]) % primes[j] != 1
      invariant forall j :: 1 <= j < i && j < len && (2 * twoInverses[j]) % primes[j] != 1 ==> j in logged
    {
      var passes := TrialDivision(primes[i]);
      if !passes {
        return false, logged;
      }
      if (2 * twoInverses[i]) % primes[i] != 1 {
        logged := logged + [i];
      }
      i := i + 1;
    }
    return true, logged;
  }

  /** For p >= 3, sqrt(p) + 1 < p: the trial divisors are proper ones. */
  lemma SqrtBelow(p: nat)
    requires p >= 3
    ensures ISqrt(p) + 1 < p
  {
    var r := ISqrt(p);
    if r + 1 >= p {
      var q := p - 1;
      assert q * q > p by {
        MulMonotone(q, 2, q);
      }
      MulMonotone(r, q, r);
      MulMonotone(r, q, q);
    }
  }

  /** A d with d * d <= p is at most sqrt(p). */
  lemma SqrtBound(p: nat, d: nat)
    requires d * d <= p
    ensures d <= ISqrt(p)
  {
    var r := ISqrt(p);
    if d >= r + 1 {
      MulMonotone(d, r + 1, d);
      MulMonotone(d, r + 1, r + 1);
    }
  }

  /**
   * What the trial division decides: it accepts 0, 1 and every prime
   * but 2, and rejects every other number.  So for entries of at least
   * 3 the check is a primality test.
   */
  lemma TrialIsPrime(p: nat)
    ensures TrialPasses(p) <==> p <= 1 || (IsPrime(p) && p != 2)
  {
    var r := ISqrt(p);
    if p == 0 {
      if r >= 1 {
        MulAtLeast(r, r);
      }
    } else if p == 1 {
      forall d | 2 <= d
        ensures p % d != 0
      {
        DivModUnique(0, d, 1);
      }
    } else if p == 2 {
      assert r >= 1;
      assert p % 2 == 0;
    } else if IsPrime(p) {
      SqrtBelow(p);
    } else {
      var d := PrimeTable.SmallDivisor(p);
      SqrtBound(p, d);
      assert 2 <= d <= r + 1 && p % d == 0;
    }
  }

  /**
   * On a table whose entries are at least 2, `check_primes` accepts
   * exactly the tables that start with 2 and continue with primes other
   * than 2.
   */
  lemma PrimesCheckExactly(primes: seq<nat>, len: nat)
    requires 0 < |primes| && len <= |primes|
    requires forall i :: 0 <= i < len ==> primes[i] >= 2
    ensures (primes[0] == 2 && forall i :: 1 <= i < len ==> TrialPasses(primes[i])) <==>
            (primes[0] == 2 && forall i :: 1 <= i < len ==> IsPrime(primes[i]) && primes[i] != 2)
  {
    forall i | 1 <= i < len
      ensures TrialPasses(primes[i]) <==> IsPrime(primes[i]) && primes[i] != 2
    {
      TrialIsPrime(primes[i]);
    }
  }
}
