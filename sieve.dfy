/**
 * The sieve of src/sieve.c: one miner thread's candidate vectors, offset
 * tables and statistics, the offset computation (`invert`,
 * `calc_multipliers`), `reinit_sieve`, the block, layer and extension
 * loops of `sieve_run`, the final candidate masks and the classification
 * of `test_candidates`.
 *
 * A sieve word is the set of its one bits (see SieveIndex.Word); the
 * extension vectors, which the C code lays out as `extensions` rows of
 * `sieve_words` words, are two-dimensional arrays, and so are the offset
 * tables (prime index, layer).
 */
module Sieve {
  import opened Numbers
  import opened SieveIndex
  import opened Block
  import opened Inverse
  import opened SieveSpec
  import opened SieveBlock
  import opened PrimeTests
  import opened Candidates

  // ---------------------------------------------------------------------
  // invert

  /**
   * `invert(a, p)`: the extended Euclidean algorithm unrolled three times
   * so that the remainders and coefficients rotate through three
   * variables.  The coefficients stay below p in magnitude (EuclidSpec),
   * so the C `int`s do not overflow for p < 2^31.
   */
  method Invert(a: nat, p: Modulus) returns (x: nat)
    ensures x == InverseOf(a, p)
  {
    var rem0: nat, rem1: nat := p, a % p;
    var aux0: int, aux1: int := 0, 1;
    var inverse: int;
    while true
      invariant Euclid(rem0, rem1, aux0, aux1) == Euclid(p, a % p, 0, 1)
      decreases rem1
    {
      if rem1 <= 1 {
        inverse := aux1;
        break;
      }
      var rem2 := rem0 % rem1;
      var quotient := rem0 / rem1;
      var aux2 := -quotient * aux1 + aux0;
      EuclidUnfold(rem0, rem1, aux0, aux1, quotient, aux2);
      if rem2 <= 1 {
        inverse := aux2;
        break;
      }
      rem0 := rem1 % rem2;
      quotient := rem1 / rem2;
      aux0 := -quotient * aux2 + aux1;
      EuclidUnfold(rem1, rem2, aux1, aux2, quotient, aux0);
      if rem0 <= 1 {
        inverse := aux0;
        break;
      }
      rem1 := rem2 % rem0;
      quotient := rem2 / rem0;
      aux1 := -quotient * aux0 + aux2;
      EuclidUnfold(rem2, rem0, aux2, aux0, quotient, aux1);
    }
    x := (inverse + p) % p;
  }

  /** One step of `invert`: the quotient and the next coefficient are Euclid's. */
  lemma EuclidUnfold(r0: nat, r1: nat, x0: int, x1: int, q: int, x2: int)
    requires r1 > 1 && q == r0 / r1 && x2 == -q * x1 + x0
    ensures Euclid(r0, r1, x0, x1) == Euclid(r1, r0 % r1, x1, x2)
  {
    assert x2 == x0 - (r0 / r1) * x1;
  }

  /** For a prime p not dividing a, `invert` returns the inverse of a mod p. */
  lemma InvertIsInverse(a: nat, p: Modulus)
    requires IsPrime(p) && 0 < a < p
    ensures InverseOf(a, p) < p && (a * InverseOf(a, p)) % p == 1
  {
    InverseSpec(a, p);
  }

  // ---------------------------------------------------------------------
  // The sieve

  class Sieve {
    /** The sieve globals of init_sieve_globals. */
    const cfg: Config

    const cc1: array<Word>
    const cc2: array<Word>
    const twn: array<Word>
    const all: array<Word>
    const cc1Layer: array<Word>
    const cc2Layer: array<Word>
    const extCc1: array2<Word>
    const extCc2: array2<Word>
    const extTwn: array2<Word>
    const extAll: array2<Word>
    const cc1Muls: array2<nat>
    const cc2Muls: array2<nat>

    var active: bool
    var stats: Stats
    var shares: seq<Share>

    /** The buffers have the sizes init_sieve allocates and do not overlap. */
    ghost predicate Ready()
    {
      && Sized(cfg)
      && cc1.Length == cfg.sieveWords && cc2.Length == cfg.sieveWords && twn.Length == cfg.sieveWords
      && all.Length == cfg.sieveWords && cc1Layer.Length == cfg.sieveWords && cc2Layer.Length == cfg.sieveWords
      && extCc1.Length0 == cfg.extensions && extCc1.Length1 == cfg.sieveWords
      && extCc2.Length0 == cfg.extensions && extCc2.Length1 == cfg.sieveWords
      && extTwn.Length0 == cfg.extensions && extTwn.Length1 == cfg.sieveWords
      && extAll.Length0 == cfg.extensions && extAll.Length1 == cfg.sieveWords
      && cc1Muls.Length0 == cfg.maxPrime && cc1Muls.Length1 == Layers(cfg)
      && cc2Muls.Length0 == cfg.maxPrime && cc2Muls.Length1 == Layers(cfg)
      && cc1 != cc2 && cc1 != twn && cc1 != all && cc1 != cc1Layer && cc1 != cc2Layer
      && cc2 != twn && cc2 != all && cc2 != cc1Layer && cc2 != cc2Layer
      && twn != all && twn != cc1Layer && twn != cc2Layer
      && all != cc1Layer && all != cc2Layer && cc1Layer != cc2Layer
      && extCc1 != extCc2 && extCc1 != extTwn && extCc1 != extAll
      && extCc2 != extTwn && extCc2 != extAll && extTwn != extAll
      && cc1Muls != cc2Muls
    }

    /** Ready, and every sieving prime satisfies PrimeOk. */
    ghost predicate Valid()
    {
      Ready() && PrimesOk(cfg)
    }

    /**
     * `init_sieve`: allocate the buffers (their contents are undefined
     * until `reinit_sieve`), clear the flag and the statistics.
     */
    constructor (c: Config)
      requires Sized(c)
      ensures cfg == c && Ready() && !active
      ensures stats == Stats(0, map[], map[], map[]) && shares == []
    {
      cfg := c;
      var w := c.sieveWords;
      cc1 := new Word[w](_ => {});
      cc2 := new Word[w](_ => {});
      twn := new Word[w](_ => {});
      all := new Word[w](_ => {});
      cc1Layer := new Word[w](_ => {});
      cc2Layer := new Word[w](_ => {});
      extCc1 := new Word[c.extensions, w]((_, _) => {});
      extCc2 := new Word[c.extensions, w]((_, _) => {});
      extTwn := new Word[c.extensions, w]((_, _) => {});
      extAll := new Word[c.extensions, w]((_, _) => {});
      cc1Muls := new nat[c.maxPrime, Layers(c)]((_, _) => 0);
      cc2Muls := new nat[c.maxPrime, Layers(c)]((_, _) => 0);
      active := false;
      stats := Stats(0, map[], map[], map[]);
      shares := [];
    }

    /** What `reinit_sieve` leaves: the flag set, the vectors clear, the tables at the sentinel. */
    ghost predicate Reset()
      requires Ready()
      reads this, cc1, cc2, twn, all, cc1Layer, cc2Layer, extCc1, extCc2, extTwn, cc1Muls, cc2Muls
    {
      && active
      && Cleared(cc1) && Cleared(cc2) && Cleared(twn) && Cleared(all) && Cleared(cc1Layer) && Cleared(cc2Layer)
      && RowsCleared(extCc1) && RowsCleared(extCc2) && RowsCleared(extTwn)
      && AllSentinel(cc1Muls) && AllSentinel(cc2Muls)
    }

    /**
     * `reinit_sieve`: set the flag, clear every vector except `ext_all`
     * (which it leaves as it was) and set every table entry to
     * 0xFFFFFFFF.
     */
    method Reinit()
      requires Ready()
      modifies this, cc1, cc2, twn, all, cc1Layer, cc2Layer, extCc1, extCc2, extTwn, cc1Muls, cc2Muls
      ensures Reset()
      ensures stats == old(stats) && shares == old(shares)
    {
      active := true;
      ClearVectors(cc1, cc2, twn, all);
      ClearRows(extCc1);
      ClearRows(extCc2);
      ClearRows(extTwn);
      ClearWords(cc1Layer);
      ClearWords(cc2Layer);
      FillSentinel(cc1Muls);
      FillSentinel(cc2Muls);
    }

    // -------------------------------------------------------------------
    // calc_multipliers

    /**
     * `calc_multipliers`: for every sieving prime that does not divide H
     * the offsets of every layer; the rows of the other primes keep what
     * they held (the sentinel after `reinit_sieve`).
     */
    method CalcMultipliers(H: nat)
      requires Valid()
      modifies cc1Muls, cc2Muls
      ensures forall i, l :: 0 <= i < cfg.maxPrime && 0 <= l < Layers(cfg) ==>
        if active && Sieved(cfg, H, i)
        then cc1Muls[i, l] == Offset(cfg, H, i, l) && cc2Muls[i, l] == cfg.primes[i] - Offset(cfg, H, i, l)
        else cc1Muls[i, l] == old(cc1Muls[i, l]) && cc2Muls[i, l] == old(cc2Muls[i, l])
    {
      var i := cfg.minPrime;
      while active && i < cfg.maxPrime
        invariant cfg.minPrime <= i <= cfg.maxPrime && (!active ==> i == cfg.minPrime)
        invariant forall j, l :: 0 <= j < cfg.maxPrime && 0 <= l < Layers(cfg) ==>
          if j < i && Sieved(cfg, H, j)
          then cc1Muls[j, l] == Offset(cfg, H, j, l) && cc2Muls[j, l] == cfg.primes[j] - Offset(cfg, H, j, l)
          else cc1Muls[j, l] == old(cc1Muls[j, l]) && cc2Muls[j, l] == old(cc2Muls[j, l])
      {
        assert PrimeOk(cfg, i);
        CalcRow(cfg, cc1Muls, cc2Muls, i, H);
        i := i + 1;
      }
    }

    // -------------------------------------------------------------------
    // The state of the vectors during sieve_run

    /**
     * The cc1 and cc2 base vectors while the block [ws, we) is at layer n:
     * the words from lo up to the block have seen every layer, the words
     * of the block the layers below n, the others none.
     */
    ghost predicate ChainsAt(M1: seq<seq<nat>>, M2: seq<seq<nat>>, lo: nat, ws: nat, we: nat, n: nat)
      requires Ready() && Shape(cfg, M1) && Shape(cfg, M2)
      reads cc1, cc2
    {
      forall w :: 0 <= w < cfg.sieveWords ==>
        var k := Stage(lo, ws, we, n, Layers(cfg), w);
        cc1[w] == VectorAt(cfg, M1, 0, k, w) && cc2[w] == VectorAt(cfg, M2, 0, k, w)
    }

    /** The bi-twin base vector in the same state. */
    ghost predicate TwinAt(M1: seq<seq<nat>>, M2: seq<seq<nat>>, lo: nat, ws: nat, we: nat, n: nat)
      requires Ready() && Shape(cfg, M1) && Shape(cfg, M2)
      reads twn
    {
      forall w :: 0 <= w < cfg.sieveWords ==> twn[w] == TwnState(cfg, M1, M2, 0, Stage(lo, ws, we, n, Layers(cfg), w), w)
    }

    ghost predicate BaseState(M1: seq<seq<nat>>, M2: seq<seq<nat>>, lo: nat, ws: nat, we: nat, n: nat)
      requires Ready() && Shape(cfg, M1) && Shape(cfg, M2)
      reads cc1, cc2, twn
    {
      ChainsAt(M1, M2, lo, ws, we, n) && TwinAt(M1, M2, lo, ws, we, n)
    }

    /**
     * One layer of the base vectors over the block [ws, we), after the
     * layer buffers hold layer n: OR them into cc1 and cc2 while n is a
     * layer of the base chain, then apply the twin rule.
     */
    method ApplyBase(ghost M1: seq<seq<nat>>, ghost M2: seq<seq<nat>>, ghost lo: nat, n: nat, ws: nat, we: nat)
      requires Ready() && Shape(cfg, M1) && Shape(cfg, M2) && n < Layers(cfg) && lo <= ws <= we <= cfg.sieveWords
      requires BaseState(M1, M2, lo, ws, we, n)
      requires LayerAt(cfg, cc1Layer, M1, n, ws, we) && LayerAt(cfg, cc2Layer, M2, n, ws, we)
      modifies cc1, cc2, twn
      ensures BaseState(M1, M2, lo, ws, we, n + 1)
    {
      if n < cfg.chainLength {
        OrPair(cc2, cc2Layer, cc1, cc1Layer, ws, we);
      }
      ghost var n' := n + 1;
      forall w | 0 <= w < cfg.sieveWords
        ensures var k := Stage(lo, ws, we, n', Layers(cfg), w);
          cc1[w] == VectorAt(cfg, M1, 0, k, w) && cc2[w] == VectorAt(cfg, M2, 0, k, w)
      {
        if ws <= w < we {
          VectorStep(cfg, M1, 0, n, w);
          VectorStep(cfg, M2, 0, n, w);
        }
      }
      ApplyTwin(M1, M2, lo, n, ws, we);
    }

    /**
     * The twin rule over the block: copy cc2 into the twin vector at layer
     * twn_cc2_layers and OR cc1 into it at layer twn_cc1_layers.
     */
    method ApplyTwin(ghost M1: seq<seq<nat>>, ghost M2: seq<seq<nat>>, ghost lo: nat, n: nat, ws: nat, we: nat)
      requires Ready() && Shape(cfg, M1) && Shape(cfg, M2) && n < Layers(cfg) && lo <= ws <= we <= cfg.sieveWords
      requires TwinAt(M1, M2, lo, ws, we, n) && ChainsAt(M1, M2, lo, ws, we, n + 1)
      modifies twn
      ensures TwinAt(M1, M2, lo, ws, we, n + 1)
    {
      if n == TwnCc2Layers(cfg) {
        CopyWords(twn, cc2, ws, we);
      }
      ghost var t1 := twn[..];
      if n == TwnCc1Layers(cfg) {
        OrInto(twn, cc1, ws, we);
      }
      ghost var n' := n + 1;
      forall w | 0 <= w < cfg.sieveWords
        ensures twn[w] == TwnState(cfg, M1, M2, 0, Stage(lo, ws, we, n', Layers(cfg), w), w)
      {
        if ws <= w < we {
          assert Stage(lo, ws, we, n, Layers(cfg), w) == n && Stage(lo, ws, we, n', Layers(cfg), w) == n';
          assert cc1[w] == VectorAt(cfg, M1, 0, n', w) && cc2[w] == VectorAt(cfg, M2, 0, n', w);
          assert t1[w] == if n == TwnCc2Layers(cfg) then cc2[w] else old(twn[w]);
          assert twn[w] == TwnUpdate(cfg, M1, M2, 0, n, w, old(twn[w]));
          TwnStep(cfg, M1, M2, 0, n, w);
        } else {
          assert t1[w] == old(twn[w]);
        }
      }
    }

    /**
     * The cc1 and cc2 extension rows while the block [ws, we) is at
     * layer n, the rows below d having taken layer n already.  Only the
     * second half of a row is ever sieved.
     */
    ghost predicate ExtChainsAt(M1: seq<seq<nat>>, M2: seq<seq<nat>>, ws: nat, we: nat, n: nat, d: nat)
      requires Ready() && Shape(cfg, M1) && Shape(cfg, M2)
      reads extCc1, extCc2
    {
      forall e, w :: 0 <= e < cfg.extensions && 0 <= w < cfg.sieveWords ==>
        var k := Stage(cfg.sieveWords / 2, ws, we, if e < d then n + 1 else n, Layers(cfg), w);
        extCc1[e, w] == VectorAt(cfg, M1, e + 1, k, w) && extCc2[e, w] == VectorAt(cfg, M2, e + 1, k, w)
    }

    /** The bi-twin extension rows in the same state. */
    ghost predicate ExtTwinAt(M1: seq<seq<nat>>, M2: seq<seq<nat>>, ws: nat, we: nat, n: nat, d: nat)
      requires Ready() && Shape(cfg, M1) && Shape(cfg, M2)
      reads extTwn
    {
      forall e, w :: 0 <= e < cfg.extensions && 0 <= w < cfg.sieveWords ==>
        extTwn[e, w] == TwnState(cfg, M1, M2, e + 1, Stage(cfg.sieveWords / 2, ws, we, if e < d then n + 1 else n, Layers(cfg), w), w)
    }

    ghost predicate ExtState(M1: seq<seq<nat>>, M2: seq<seq<nat>>, ws: nat, we: nat, n: nat, d: nat)
      requires Ready() && Shape(cfg, M1) && Shape(cfg, M2)
      reads extCc1, extCc2, extTwn
    {
      ExtChainsAt(M1, M2, ws, we, n, d) && ExtTwinAt(M1, M2, ws, we, n, d)
    }

    /**
     * Layer n applied to extension e over the block [ws, we): the layer
     * buffers are ORed into the extension's cc1 and cc2 rows when n is
     * one of its layers e+1 .. e+L, then the twin rule is applied with
     * the layer relative to the extension, `l - (e + 1)` in 32 bits.
     */
    method ApplyExtension(ghost M1: seq<seq<nat>>, ghost M2: seq<seq<nat>>, e: nat, n: nat, ws: nat, we: nat)
      requires Ready() && Shape(cfg, M1) && Shape(cfg, M2) && e < cfg.extensions && n < Layers(cfg)
      requires cfg.sieveWords / 2 <= ws <= we <= cfg.sieveWords
      requires ExtState(M1, M2, ws, we, n, e)
      requires LayerAt(cfg, cc1Layer, M1, n, ws, we) && LayerAt(cfg, cc2Layer, M2, n, ws, we)
      modifies extCc1, extCc2, extTwn
      ensures ExtState(M1, M2, ws, we, n, e + 1)
    {
      ApplyExtChains(M1, M2, e, n, ws, we);
      var extLayer := (n - (e + 1)) % TwoTo32;
      ExtLayerIs(n, e + 1, TwnCc2Layers(cfg));
      ExtLayerIs(n, e + 1, TwnCc1Layers(cfg));
      ApplyExtTwin(M1, M2, e, n, ws, we, extLayer);
    }

    /** The chain rows of extension e: the layer buffers ORed in when n is one of its layers. */
    method ApplyExtChains(ghost M1: seq<seq<nat>>, ghost M2: seq<seq<nat>>, e: nat, n: nat, ws: nat, we: nat)
      requires Ready() && Shape(cfg, M1) && Shape(cfg, M2) && e < cfg.extensions && n < Layers(cfg)
      requires cfg.sieveWords / 2 <= ws <= we <= cfg.sieveWords
      requires ExtChainsAt(M1, M2, ws, we, n, e)
      requires LayerAt(cfg, cc1Layer, M1, n, ws, we) && LayerAt(cfg, cc2Layer, M2, n, ws, we)
      modifies extCc1, extCc2
      ensures ExtChainsAt(M1, M2, ws, we, n, e + 1)
    {
      if e < n && n <= e + cfg.chainLength {
        OrRowPair(extCc2, cc2Layer, extCc1, cc1Layer, e, ws, we);
      }
      ghost var e' := e + 1;
      forall r, w | 0 <= r < cfg.extensions && 0 <= w < cfg.sieveWords
        ensures var k := Stage(cfg.sieveWords / 2, ws, we, if r < e' then n + 1 else n, Layers(cfg), w);
          extCc1[r, w] == VectorAt(cfg, M1, r + 1, k, w) && extCc2[r, w] == VectorAt(cfg, M2, r + 1, k, w)
      {
        if r == e && ws <= w < we {
          VectorStep(cfg, M1, e + 1, n, w);
          VectorStep(cfg, M2, e + 1, n, w);
        }
      }
    }

    /** The twin rule of extension e, given its relative layer. */
    method ApplyExtTwin(ghost M1: seq<seq<nat>>, ghost M2: seq<seq<nat>>, e: nat, n: nat, ws: nat, we: nat, extLayer: int)
      requires Ready() && Shape(cfg, M1) && Shape(cfg, M2) && e < cfg.extensions && n < Layers(cfg)
      requires cfg.sieveWords / 2 <= ws <= we <= cfg.sieveWords
      requires extLayer == TwnCc2Layers(cfg) <==> n == e + 1 + TwnCc2Layers(cfg)
      requires extLayer == TwnCc1Layers(cfg) <==> n == e + 1 + TwnCc1Layers(cfg)
      requires ExtTwinAt(M1, M2, ws, we, n, e) && ExtChainsAt(M1, M2, ws, we, n, e + 1)
      modifies extTwn
      ensures ExtTwinAt(M1, M2, ws, we, n, e + 1)
    {
      if extLayer == TwnCc2Layers(cfg) {
        CopyRow(extTwn, extCc2, e, ws, we);
      }
      ghost var t1 := seq(cfg.sieveWords, w requires 0 <= w < cfg.sieveWords reads extTwn => extTwn[e, w]);
      if extLayer == TwnCc1Layers(cfg) {
        OrRow(extTwn, extCc1, e, ws, we);
      }
      ghost var e', n' := e + 1, n + 1;
      forall r, w | 0 <= r < cfg.extensions && 0 <= w < cfg.sieveWords
        ensures extTwn[r, w] == TwnState(cfg, M1, M2, r + 1, Stage(cfg.sieveWords / 2, ws, we, if r < e' then n + 1 else n, Layers(cfg), w), w)
      {
        if r == e && ws <= w < we {
          assert Stage(cfg.sieveWords / 2, ws, we, n, Layers(cfg), w) == n;
          assert Stage(cfg.sieveWords / 2, ws, we, n', Layers(cfg), w) == n';
          TwinWordStep(cfg, M1, M2, e + 1, n, w, old(extTwn[e, w]), extCc1[e, w], extCc2[e, w], t1[w], extTwn[e, w]);
        } else if r == e {
          assert t1[w] == old(extTwn[e, w]);
        }
      }
    }

    /** Layer n applied to every extension, while the sieve is active. */
    method ApplyExtensions(ghost M1: seq<seq<nat>>, ghost M2: seq<seq<nat>>, n: nat, ws: nat, we: nat)
      requires Ready() && Shape(cfg, M1) && Shape(cfg, M2) && n < Layers(cfg) && active
      requires cfg.sieveWords / 2 <= ws <= we <= cfg.sieveWords
      requires ExtState(M1, M2, ws, we, n, 0)
      requires LayerAt(cfg, cc1Layer, M1, n, ws, we) && LayerAt(cfg, cc2Layer, M2, n, ws, we)
      modifies extCc1, extCc2, extTwn
      ensures ExtState(M1, M2, ws, we, n + 1, 0)
    {
      var e := 0;
      while active && e < cfg.extensions
        invariant e <= cfg.extensions && ExtState(M1, M2, ws, we, n, e)
      {
        ApplyExtension(M1, M2, e, n, ws, we);
        e := e + 1;
      }
    }

    /**
     * One layer of a block: sieve layer n of cc2 and then of cc1 into the
     * layer buffers and apply it to the base vectors.
     */
    method SieveLayer(ghost M1: seq<seq<nat>>, ghost M2: seq<seq<nat>>, ghost lo: nat, n: nat,
                      ws: nat, we: nat, bs: nat, be: nat)
      requires Ready() && Shape(cfg, M1) && Shape(cfg, M2) && n < Layers(cfg)
      requires lo <= ws && bs == WordBits * ws && be == bs + cfg.cacheBits && we == ws + CacheWords(cfg) && we <= cfg.sieveWords
      requires BaseState(M1, M2, lo, ws, we, n)
      requires TableState(cfg, cc1Muls, M1, n, bs, be) && TableState(cfg, cc2Muls, M2, n, bs, be)
      requires LayersLifted(cfg, cc1Muls, M1, n, be) && LayersLifted(cfg, cc2Muls, M2, n, be)
      modifies cc1Layer, cc2Layer, cc1Muls, cc2Muls, cc1, cc2, twn
      ensures BaseState(M1, M2, lo, ws, we, n + 1)
      ensures TableState(cfg, cc1Muls, M1, n + 1, bs, be) && TableState(cfg, cc2Muls, M2, n + 1, bs, be)
      ensures LayersLifted(cfg, cc1Muls, M1, n + 1, be) && LayersLifted(cfg, cc2Muls, M2, n + 1, be)
      ensures LayerAt(cfg, cc1Layer, M1, n, ws, we) && LayerAt(cfg, cc2Layer, M2, n, ws, we)
    {
      DivModUnique(ws, WordBits, 0);
      SieveLayerOf(cfg, cc2Layer, cc2Muls, M2, n, bs, be);
      SieveLayerOf(cfg, cc1Layer, cc1Muls, M1, n, bs, be);
      ApplyBase(M1, M2, lo, n, ws, we);
    }

    /**
     * A block at layer n: the base vectors, the extension rows and the
     * two tables as the layers below n leave them.
     */
    ghost predicate BlockAt(M1: seq<seq<nat>>, M2: seq<seq<nat>>, lo: nat, ws: nat, we: nat, bs: nat, be: nat, n: nat)
      requires Ready() && Shape(cfg, M1) && Shape(cfg, M2) && n <= Layers(cfg)
      reads cc1, cc2, twn, extCc1, extCc2, extTwn, cc1Muls, cc2Muls
    {
      && BaseState(M1, M2, lo, ws, we, n) && ExtState(M1, M2, ws, we, n, 0)
      && TableState(cfg, cc1Muls, M1, n, bs, be) && TableState(cfg, cc2Muls, M2, n, bs, be)
      && LayersLifted(cfg, cc1Muls, M1, n, be) && LayersLifted(cfg, cc2Muls, M2, n, be)
    }

    /** One layer of a second-half block: the base vectors and every extension. */
    method SecondHalfLayer(ghost M1: seq<seq<nat>>, ghost M2: seq<seq<nat>>, ghost lo: nat, n: nat,
                           ws: nat, we: nat, bs: nat, be: nat)
      requires Ready() && Shape(cfg, M1) && Shape(cfg, M2) && active && n < Layers(cfg)
      requires lo <= ws && cfg.sieveWords / 2 <= ws
      requires bs == WordBits * ws && be == bs + cfg.cacheBits && we == ws + CacheWords(cfg) && we <= cfg.sieveWords
      requires BlockAt(M1, M2, lo, ws, we, bs, be, n)
      modifies cc1Layer, cc2Layer, cc1Muls, cc2Muls, cc1, cc2, twn, extCc1, extCc2, extTwn
      ensures BlockAt(M1, M2, lo, ws, we, bs, be, n + 1)
    {
      SieveLayer(M1, M2, lo, n, ws, we, bs, be);
      ApplyExtensions(M1, M2, n, ws, we);
    }

    /**
     * The layer loop of a second-half block: every layer is sieved into
     * the layer buffers and applied to the base vectors and to every
     * extension.
     */
    method SecondHalfBlock(ghost M1: seq<seq<nat>>, ghost M2: seq<seq<nat>>, ghost lo: nat,
                           ws: nat, we: nat, bs: nat, be: nat)
      requires Ready() && Shape(cfg, M1) && Shape(cfg, M2) && active
      requires lo <= ws && cfg.sieveWords / 2 <= ws
      requires bs == WordBits * ws && be == bs + cfg.cacheBits && we == ws + CacheWords(cfg) && we <= cfg.sieveWords
      requires BlockAt(M1, M2, lo, ws, we, bs, be, 0)
      modifies cc1Layer, cc2Layer, cc1Muls, cc2Muls, cc1, cc2, twn, extCc1, extCc2, extTwn
      ensures BlockAt(M1, M2, lo, ws, we, bs, be, Layers(cfg))
    {
      var l := 0;
      while active && l < Layers(cfg)
        invariant l <= Layers(cfg) && BlockAt(M1, M2, lo, ws, we, bs, be, l)
      {
        SecondHalfLayer(M1, M2, lo, l, ws, we, bs, be);
        l := l + 1;
      }
      assert l == Layers(cfg);
    }

    /** One layer of a first-half block: the base vectors only. */
    method FirstHalfLayer(ghost M1: seq<seq<nat>>, ghost M2: seq<seq<nat>>, n: nat, ws: nat, we: nat, bs: nat, be: nat)
      requires Ready() && Shape(cfg, M1) && Shape(cfg, M2) && cfg.useFirstHalf && n < Layers(cfg)
      requires bs == WordBits * ws && be == bs + cfg.cacheBits && we == ws + CacheWords(cfg) && we <= cfg.sieveWords
      requires BlockAt(M1, M2, 0, ws, we, bs, be, n)
      modifies cc1Layer, cc2Layer, cc1Muls, cc2Muls, cc1, cc2, twn
      ensures BlockAt(M1, M2, 0, ws, we, bs, be, n + 1)
    {
      SieveLayer(M1, M2, 0, n, ws, we, bs, be);
    }

    /**
     * The layer loop of a first-half block: the chain's layers (there are
     * no extensions when the first half is sieved), applied to the base
     * vectors.
     */
    method FirstHalfBlock(ghost M1: seq<seq<nat>>, ghost M2: seq<seq<nat>>, ws: nat, we: nat, bs: nat, be: nat)
      requires Ready() && Shape(cfg, M1) && Shape(cfg, M2) && active && cfg.useFirstHalf
      requires bs == WordBits * ws && be == bs + cfg.cacheBits && we == ws + CacheWords(cfg) && we <= cfg.sieveWords
      requires BlockAt(M1, M2, 0, ws, we, bs, be, 0)
      modifies cc1Layer, cc2Layer, cc1Muls, cc2Muls, cc1, cc2, twn
      ensures BlockAt(M1, M2, 0, ws, we, bs, be, Layers(cfg))
    {
      var l := 0;
      while active && l < cfg.chainLength
        invariant l <= cfg.chainLength == Layers(cfg) && BlockAt(M1, M2, 0, ws, we, bs, be, l)
      {
        FirstHalfLayer(M1, M2, l, ws, we, bs, be);
        l := l + 1;
      }
      assert l == Layers(cfg);
    }

    /**
     * A block that has seen every layer leaves the state in which the
     * next block starts: its words are done and the tables are behind
     * its end.
     */
    lemma BlockNext(M1: seq<seq<nat>>, M2: seq<seq<nat>>, lo: nat, ws: nat, we: nat, bs: nat, be: nat,
                    ws2: nat, we2: nat, bs2: nat, be2: nat)
      requires Ready() && Shape(cfg, M1) && Shape(cfg, M2) && ws <= we == ws2 <= we2 && be == bs2
      requires BlockAt(M1, M2, lo, ws, we, bs, be, Layers(cfg))
      ensures BlockAt(M1, M2, lo, ws2, we2, bs2, be2, 0)
      ensures LayersLifted(cfg, cc1Muls, M1, Layers(cfg), bs2) && LayersLifted(cfg, cc2Muls, M2, Layers(cfg), bs2)
    {
      var L := Layers(cfg);
      forall w | 0 <= w < cfg.sieveWords
        ensures Stage(lo, ws, we, L, L, w) == Stage(lo, we, we2, 0, L, w)
        ensures Stage(cfg.sieveWords / 2, ws, we, L, L, w) == Stage(cfg.sieveWords / 2, we, we2, 0, L, w)
      {
      }
      LiftedBehind(cfg, cc1Muls, M1, be, be2);
      LiftedBehind(cfg, cc2Muls, M2, be, be2);
    }

    /**
     * The block loop over the first half: blocks of `cache_bits`
     * candidates from 0 up to `bit_half`.
     */
    method FirstHalf(ghost M1: seq<seq<nat>>, ghost M2: seq<seq<nat>>)
      requires Ready() && Shape(cfg, M1) && Shape(cfg, M2) && active && cfg.useFirstHalf
      requires BlockAt(M1, M2, 0, 0, CacheWords(cfg), 0, cfg.cacheBits, 0)
      modifies cc1Layer, cc2Layer, cc1Muls, cc2Muls, cc1, cc2, twn
      ensures var wh, bh := cfg.sieveWords / 2, cfg.sieveSize / 2;
        BlockAt(M1, M2, 0, wh, wh + CacheWords(cfg), bh, bh + cfg.cacheBits, 0)
    {
      var ws, we, bs, be := 0, CacheWords(cfg), 0, cfg.cacheBits;
      var bitHalf := cfg.sieveSize / 2;
      while active && bs < bitHalf
        invariant bs == WordBits * ws && be == bs + cfg.cacheBits && we == ws + CacheWords(cfg)
        invariant bs <= bitHalf && (bitHalf - bs) % cfg.cacheBits == 0
        invariant BlockAt(M1, M2, 0, ws, we, bs, be, 0)
      {
        NextBlock(bs, bitHalf, cfg.cacheBits);
        FirstHalfBlock(M1, M2, ws, we, bs, be);
        ghost var ws0, we0, bs0, be0 := ws, we, bs, be;
        ws, we, bs, be := ws + CacheWords(cfg), we + CacheWords(cfg), bs + cfg.cacheBits, be + cfg.cacheBits;
        BlockNext(M1, M2, 0, ws0, we0, bs0, be0, ws, we, bs, be);
      }
      assert bs == bitHalf && ws == cfg.sieveWords / 2;
    }

    /**
     * The block loop over the second half: blocks from `bit_half` up to
     * `sieve_size`, each through every layer.  Afterwards every table
     * entry of a sieving prime is its offset lifted to `sieve_size`.
     */
    method SecondHalf(ghost M1: seq<seq<nat>>, ghost M2: seq<seq<nat>>, ghost lo: nat)
      requires Ready() && Shape(cfg, M1) && Shape(cfg, M2) && active && lo <= cfg.sieveWords / 2
      requires var wh, bh := cfg.sieveWords / 2, cfg.sieveSize / 2;
        BlockAt(M1, M2, lo, wh, wh + CacheWords(cfg), bh, bh + cfg.cacheBits, 0)
      modifies cc1Layer, cc2Layer, cc1Muls, cc2Muls, cc1, cc2, twn, extCc1, extCc2, extTwn
      ensures var W := cfg.sieveWords;
        BlockAt(M1, M2, lo, W, W + CacheWords(cfg), cfg.sieveSize, cfg.sieveSize + cfg.cacheBits, 0)
      ensures LayersLifted(cfg, cc1Muls, M1, Layers(cfg), cfg.sieveSize) && LayersLifted(cfg, cc2Muls, M2, Layers(cfg), cfg.sieveSize)
    {
      var ws, we, bs, be := cfg.sieveWords / 2, cfg.sieveWords / 2 + CacheWords(cfg), cfg.sieveSize / 2, cfg.sieveSize / 2 + cfg.cacheBits;
      while active && bs < cfg.sieveSize
        invariant bs == WordBits * ws && be == bs + cfg.cacheBits && we == ws + CacheWords(cfg) && cfg.sieveWords / 2 <= ws
        invariant bs <= cfg.sieveSize && (cfg.sieveSize - bs) % cfg.cacheBits == 0
        invariant BlockAt(M1, M2, lo, ws, we, bs, be, 0)
        invariant bs > cfg.sieveSize / 2 ==>
          LayersLifted(cfg, cc1Muls, M1, Layers(cfg), bs) && LayersLifted(cfg, cc2Muls, M2, Layers(cfg), bs)
      {
        NextBlock(bs, cfg.sieveSize, cfg.cacheBits);
        SecondHalfBlock(M1, M2, lo, ws, we, bs, be);
        ghost var ws0, we0, bs0, be0 := ws, we, bs, be;
        ws, we, bs, be := ws + CacheWords(cfg), we + CacheWords(cfg), bs + cfg.cacheBits, be + cfg.cacheBits;
        BlockNext(M1, M2, lo, ws0, we0, bs0, be0, ws, we, bs, be);
      }
      assert bs == cfg.sieveSize && ws == cfg.sieveWords;
    }

    // -------------------------------------------------------------------
    // The final candidate masks

    /**
     * The base mask: a bit of `all` is set when the bit is set in all of
     * cc1, cc2 and twn; bit 0 of word 0 (the multiple 0 * H) is set too.
     */
    method CombineBase()
      requires Ready()
      modifies all
      ensures forall i :: 0 <= i < cfg.sieveWords ==>
        all[i] == cc1[i] * cc2[i] * twn[i] + (if i == 0 then {0} else {})
    {
      for i := 0 to cfg.sieveWords
        invariant forall j :: 0 <= j < i ==> all[j] == cc1[j] * cc2[j] * twn[j]
      {
        all[i] := cc1[i] * cc2[i] * twn[i];
      }
      all[0] := all[0] + {0};
    }

    /**
     * The extension masks, while the sieve is active: words of the second
     * half combined as for the base; bit 0 of word 0 is set, the rest of
     * the first half is left as it was.
     */
    method CombineExtensions()
      requires Ready()
      modifies extAll
      ensures forall e, i :: 0 <= e < cfg.extensions && 0 <= i < cfg.sieveWords ==>
        extAll[e, i] ==
          if !active then old(extAll[e, i])
          else if cfg.sieveWords / 2 <= i then extCc1[e, i] * extCc2[e, i] * extTwn[e, i]
          else if i == 0 then old(extAll[e, i]) + {0}
          else old(extAll[e, i])
    {
      var e := 0;
      while active && e < cfg.extensions
        invariant e <= cfg.extensions && (!active ==> e == 0)
        invariant forall r, i :: 0 <= r < cfg.extensions && 0 <= i < cfg.sieveWords ==>
          extAll[r, i] ==
            if e <= r then old(extAll[r, i])
            else if cfg.sieveWords / 2 <= i then extCc1[r, i] * extCc2[r, i] * extTwn[r, i]
            else if i == 0 then old(extAll[r, i]) + {0}
            else old(extAll[r, i])
      {
        CombineRow(extAll, extCc1, extCc2, extTwn, e, cfg.sieveWords);
        e := e + 1;
      }
    }

    // -------------------------------------------------------------------
    // sieve_run

    /**
     * What the cleared vectors and the computed tables are, in the terms
     * of BlockAt: the first block, starting at word lo, at layer 0.
     */
    lemma InitialBlock(M1: seq<seq<nat>>, M2: seq<seq<nat>>, lo: nat, bs: nat)
      requires Ready() && Shape(cfg, M1) && Shape(cfg, M2) && lo <= cfg.sieveWords / 2 && bs == WordBits * lo
      requires Cleared(cc1) && Cleared(cc2) && Cleared(twn)
      requires RowsCleared(extCc1) && RowsCleared(extCc2) && RowsCleared(extTwn)
      requires forall i, l :: cfg.minPrime <= i < cfg.maxPrime && 0 <= l < Layers(cfg) ==> cc1Muls[i, l] == M1[i][l]
      requires forall i, l :: cfg.minPrime <= i < cfg.maxPrime && 0 <= l < Layers(cfg) ==> cc2Muls[i, l] == M2[i][l]
      ensures BlockAt(M1, M2, lo, lo, lo + CacheWords(cfg), bs, bs + cfg.cacheBits, 0)
    {
      InitialBase(M1, M2, lo);
      InitialExtensions(M1, M2, lo);
      InitialTable(cfg, cc1Muls, M1, bs, bs + cfg.cacheBits);
      InitialTable(cfg, cc2Muls, M2, bs, bs + cfg.cacheBits);
    }

    /** Cleared base vectors are the base vectors before the first layer. */
    lemma InitialBase(M1: seq<seq<nat>>, M2: seq<seq<nat>>, lo: nat)
      requires Ready() && Shape(cfg, M1) && Shape(cfg, M2)
      requires Cleared(cc1) && Cleared(cc2) && Cleared(twn)
      ensures BaseState(M1, M2, lo, lo, lo + CacheWords(cfg), 0)
    {
      forall w | 0 <= w < cfg.sieveWords
        ensures var k := Stage(lo, lo, lo + CacheWords(cfg), 0, Layers(cfg), w);
          cc1[w] == VectorAt(cfg, M1, 0, k, w) && cc2[w] == VectorAt(cfg, M2, 0, k, w) &&
          twn[w] == TwnState(cfg, M1, M2, 0, k, w)
      {
        assert Stage(lo, lo, lo + CacheWords(cfg), 0, Layers(cfg), w) == 0;
        EmptyVectors(cfg, M1, M2, 0, w, cc1[w], cc2[w], twn[w]);
      }
    }

    /** Cleared extension rows are the extension vectors before the first layer. */
    lemma InitialExtensions(M1: seq<seq<nat>>, M2: seq<seq<nat>>, lo: nat)
      requires Ready() && Shape(cfg, M1) && Shape(cfg, M2)
      requires lo <= cfg.sieveWords / 2
      requires RowsCleared(extCc1) && RowsCleared(extCc2) && RowsCleared(extTwn)
      ensures ExtState(M1, M2, lo, lo + CacheWords(cfg), 0, 0)
    {
      forall e, w | 0 <= e < cfg.extensions && 0 <= w < cfg.sieveWords
        ensures var k := Stage(cfg.sieveWords / 2, lo, lo + CacheWords(cfg), 0, Layers(cfg), w);
          extCc1[e, w] == VectorAt(cfg, M1, e + 1, k, w) && extCc2[e, w] == VectorAt(cfg, M2, e + 1, k, w) &&
          extTwn[e, w] == TwnState(cfg, M1, M2, e + 1, k, w)
      {
        assert Stage(cfg.sieveWords / 2, lo, lo + CacheWords(cfg), 0, Layers(cfg), w) == 0;
        EmptyVectors(cfg, M1, M2, e + 1, w, extCc1[e, w], extCc2[e, w], extTwn[e, w]);
      }
    }

    /**
     * Once the last block of the second half is done, the words from lo
     * on hold the full vectors: cc1 and cc2 over the chain's layers and
     * the bi-twin rule over its half-layers, for the base (from lo) and
     * for every extension (from the middle).
     */
    lemma FinalVectors(M1: seq<seq<nat>>, M2: seq<seq<nat>>, lo: nat)
      requires Ready() && Shape(cfg, M1) && Shape(cfg, M2)
      requires var W := cfg.sieveWords;
        BlockAt(M1, M2, lo, W, W + CacheWords(cfg), cfg.sieveSize, cfg.sieveSize + cfg.cacheBits, 0)
      ensures forall w :: lo <= w < cfg.sieveWords ==>
        cc1[w] == Accum(cfg, M1, 0, cfg.chainLength, w) && cc2[w] == Accum(cfg, M2, 0, cfg.chainLength, w) &&
        twn[w] == TwnWord(cfg, M1, M2, 0, w)
      ensures forall e, w :: 0 <= e < cfg.extensions && cfg.sieveWords / 2 <= w < cfg.sieveWords ==>
        extCc1[e, w] == Accum(cfg, M1, e + 1, e + 1 + cfg.chainLength, w) &&
        extCc2[e, w] == Accum(cfg, M2, e + 1, e + 1 + cfg.chainLength, w) &&
        extTwn[e, w] == TwnWord(cfg, M1, M2, e + 1, w)
    {
      FinalBase(M1, M2, lo);
      FinalExtensions(M1, M2);
    }

    /** The base half of FinalVectors: the words from lo on. */
    lemma FinalBase(M1: seq<seq<nat>>, M2: seq<seq<nat>>, lo: nat)
      requires Ready() && Shape(cfg, M1) && Shape(cfg, M2)
      requires var W := cfg.sieveWords; BaseState(M1, M2, lo, W, W + CacheWords(cfg), 0)
      ensures forall w :: lo <= w < cfg.sieveWords ==>
        cc1[w] == Accum(cfg, M1, 0, cfg.chainLength, w) && cc2[w] == Accum(cfg, M2, 0, cfg.chainLength, w) &&
        twn[w] == TwnWord(cfg, M1, M2, 0, w)
    {
      var W, L := cfg.sieveWords, Layers(cfg);
      forall w | lo <= w < W
        ensures cc1[w] == Accum(cfg, M1, 0, cfg.chainLength, w) && cc2[w] == Accum(cfg, M2, 0, cfg.chainLength, w)
        ensures twn[w] == TwnWord(cfg, M1, M2, 0, w)
      {
        assert Stage(lo, W, W + CacheWords(cfg), 0, L, w) == L;
        WordDone(cfg, M1, M2, 0, w, cc1[w], cc2[w], twn[w]);
      }
    }

    /** The extension half of FinalVectors: the second half of every row. */
    lemma FinalExtensions(M1: seq<seq<nat>>, M2: seq<seq<nat>>)
      requires Ready() && Shape(cfg, M1) && Shape(cfg, M2)
      requires var W := cfg.sieveWords; ExtState(M1, M2, W, W + CacheWords(cfg), 0, 0)
      ensures forall e, w :: 0 <= e < cfg.extensions && cfg.sieveWords / 2 <= w < cfg.sieveWords ==>
        extCc1[e, w] == Accum(cfg, M1, e + 1, e + 1 + cfg.chainLength, w) &&
        extCc2[e, w] == Accum(cfg, M2, e + 1, e + 1 + cfg.chainLength, w) &&
        extTwn[e, w] == TwnWord(cfg, M1, M2, e + 1, w)
    {
      var W, L := cfg.sieveWords, Layers(cfg);
      forall e, w | 0 <= e < cfg.extensions && W / 2 <= w < W
        ensures extCc1[e, w] == Accum(cfg, M1, e + 1, e + 1 + cfg.chainLength, w)
        ensures extCc2[e, w] == Accum(cfg, M2, e + 1, e + 1 + cfg.chainLength, w)
        ensures extTwn[e, w] == TwnWord(cfg, M1, M2, e + 1, w)
      {
        assert Stage(W / 2, W, W + CacheWords(cfg), 0, L, w) == L;
        WordDone(cfg, M1, M2, e + 1, w, extCc1[e, w], extCc2[e, w], extTwn[e, w]);
      }
    }

    /**
     * `calc_multipliers` right after `reinit_sieve`: the tables are then
     * exactly Cc1Table and Cc2Table of H (the rows of the primes that
     * divide H keep the sentinel).
     */
    method SieveTables(H: nat)
      requires Valid() && Reset()
      modifies cc1Muls, cc2Muls
      ensures forall i, l :: cfg.minPrime <= i < cfg.maxPrime && 0 <= l < Layers(cfg) ==>
        cc1Muls[i, l] == Cc1Table(cfg, H)[i][l] && cc2Muls[i, l] == Cc2Table(cfg, H)[i][l]
    {
      CalcMultipliers(H);
    }

    /**
     * The block loops of `sieve_run` over cleared vectors and a computed
     * table: the first half of the base vectors when it is used, then the
     * second half of the base vectors and of every extension.  The words
     * from FirstWord on then hold the vectors over the chain's layers,
     * the extension rows from the middle the vectors shifted by e + 1
     * layers, and every table entry is its offset lifted to `sieve_size`.
     */
    method SieveVectors(ghost M1: seq<seq<nat>>, ghost M2: seq<seq<nat>>)
      requires Ready() && Shape(cfg, M1) && Shape(cfg, M2) && active
      requires Cleared(cc1) && Cleared(cc2) && Cleared(twn)
      requires RowsCleared(extCc1) && RowsCleared(extCc2) && RowsCleared(extTwn)
      requires forall i, l :: cfg.minPrime <= i < cfg.maxPrime && 0 <= l < Layers(cfg) ==>
        cc1Muls[i, l] == M1[i][l] && cc2Muls[i, l] == M2[i][l]
      modifies cc1Layer, cc2Layer, cc1Muls, cc2Muls, cc1, cc2, twn, extCc1, extCc2, extTwn
      ensures forall w :: FirstWord(cfg) <= w < cfg.sieveWords ==>
        cc1[w] == Accum(cfg, M1, 0, cfg.chainLength, w) && cc2[w] == Accum(cfg, M2, 0, cfg.chainLength, w) &&
        twn[w] == TwnWord(cfg, M1, M2, 0, w)
      ensures forall e, w :: 0 <= e < cfg.extensions && cfg.sieveWords / 2 <= w < cfg.sieveWords ==>
        extCc1[e, w] == Accum(cfg, M1, e + 1, e + 1 + cfg.chainLength, w) &&
        extCc2[e, w] == Accum(cfg, M2, e + 1, e + 1 + cfg.chainLength, w) &&
        extTwn[e, w] == TwnWord(cfg, M1, M2, e + 1, w)
      ensures LayersLifted(cfg, cc1Muls, M1, Layers(cfg), cfg.sieveSize)
      ensures LayersLifted(cfg, cc2Muls, M2, Layers(cfg), cfg.sieveSize)
    {
      ghost var lo := FirstWord(cfg);
      assert cfg.sieveSize / 2 == WordBits * (cfg.sieveWords / 2);
      InitialBlock(M1, M2, lo, WordBits * lo);
      if cfg.useFirstHalf {
        FirstHalf(M1, M2);
      }
      SecondHalf(M1, M2, lo);
      FinalVectors(M1, M2, lo);
    }

    /**
     * The sieving part of `sieve_run` for the primorial multiple H, after
     * `reinit_sieve`: the offsets, the vectors and the final masks.  Every
     * tested word of a mask is then MaskWord of the offset tables
     * Cc1Table and Cc2Table, whose bits AccumExactly characterises, and
     * every table entry of a sieving prime is its offset lifted to
     * `sieve_size`.
     */
    method SieveRun(H: nat)
      requires Valid() && Reset()
      modifies cc1Layer, cc2Layer, cc1Muls, cc2Muls, cc1, cc2, twn, all, extCc1, extCc2, extTwn, extAll
      ensures 0 in all[0]
      ensures forall w :: FirstWord(cfg) <= w < cfg.sieveWords ==>
        cc1[w] == Accum(cfg, Cc1Table(cfg, H), 0, cfg.chainLength, w) &&
        cc2[w] == Accum(cfg, Cc2Table(cfg, H), 0, cfg.chainLength, w) &&
        twn[w] == TwnWord(cfg, Cc1Table(cfg, H), Cc2Table(cfg, H), 0, w) &&
        all[w] == MaskWord(cfg, Cc1Table(cfg, H), Cc2Table(cfg, H), 0, w) + (if w == 0 then {0} else {})
      ensures forall e, w :: 0 <= e < cfg.extensions && cfg.sieveWords / 2 <= w < cfg.sieveWords ==>
        extCc1[e, w] == Accum(cfg, Cc1Table(cfg, H), e + 1, e + 1 + cfg.chainLength, w) &&
        extCc2[e, w] == Accum(cfg, Cc2Table(cfg, H), e + 1, e + 1 + cfg.chainLength, w) &&
        extTwn[e, w] == TwnWord(cfg, Cc1Table(cfg, H), Cc2Table(cfg, H), e + 1, w) &&
        extAll[e, w] == MaskWord(cfg, Cc1Table(cfg, H), Cc2Table(cfg, H), e + 1, w)
      ensures LayersLifted(cfg, cc1Muls, Cc1Table(cfg, H), Layers(cfg), cfg.sieveSize)
      ensures LayersLifted(cfg, cc2Muls, Cc2Table(cfg, H), Layers(cfg), cfg.sieveSize)
    {
      ghost var M1, M2 := Cc1Table(cfg, H), Cc2Table(cfg, H);
      SieveTables(H);
      SieveMasks(M1, M2);
    }

    /**
     * The part of `sieve_run` after `calc_multipliers`, for any tables
     * M1 and M2: the vectors, then the masks combined from them.
     */
    method SieveMasks(ghost M1: seq<seq<nat>>, ghost M2: seq<seq<nat>>)
      requires Ready() && Shape(cfg, M1) && Shape(cfg, M2) && active
      requires Cleared(cc1) && Cleared(cc2) && Cleared(twn)
      requires RowsCleared(extCc1) && RowsCleared(extCc2) && RowsCleared(extTwn)
      requires forall i, l :: cfg.minPrime <= i < cfg.maxPrime && 0 <= l < Layers(cfg) ==>
        cc1Muls[i, l] == M1[i][l] && cc2Muls[i, l] == M2[i][l]
      modifies cc1Layer, cc2Layer, cc1Muls, cc2Muls, cc1, cc2, twn, all, extCc1, extCc2, extTwn, extAll
      ensures 0 in all[0]
      ensures forall w :: FirstWord(cfg) <= w < cfg.sieveWords ==>
        cc1[w] == Accum(cfg, M1, 0, cfg.chainLength, w) && cc2[w] == Accum(cfg, M2, 0, cfg.chainLength, w) &&
        twn[w] == TwnWord(cfg, M1, M2, 0, w) &&
        all[w] == MaskWord(cfg, M1, M2, 0, w) + (if w == 0 then {0} else {})
      ensures forall e, w :: 0 <= e < cfg.extensions && cfg.sieveWords / 2 <= w < cfg.sieveWords ==>
        extCc1[e, w] == Accum(cfg, M1, e + 1, e + 1 + cfg.chainLength, w) &&
        extCc2[e, w] == Accum(cfg, M2, e + 1, e + 1 + cfg.chainLength, w) &&
        extTwn[e, w] == TwnWord(cfg, M1, M2, e + 1, w) &&
        extAll[e, w] == MaskWord(cfg, M1, M2, e + 1, w)
      ensures LayersLifted(cfg, cc1Muls, M1, Layers(cfg), cfg.sieveSize)
      ensures LayersLifted(cfg, cc2Muls, M2, Layers(cfg), cfg.sieveSize)
    {
      SieveVectors(M1, M2);
      CombineBase();
      CombineExtensions();
    }

    // -------------------------------------------------------------------
    // test_candidates

    /**
     * `test_candidates` on the final mask `allv` of the extension ext
     * (with its cc1 and bi-twin vectors) for the primorial multiple H:
     * while the flag is set, every clear bit from the first tested word
     * on is tested, counted and possibly submitted, exactly as TestRange
     * describes.
     */
    method TestCandidates(cc1v: seq<Word>, twnv: seq<Word>, allv: seq<Word>, H: nat, ext: nat)
      requires Ready() && H >= 2 && |allv| == cfg.sieveWords
      requires Covers(cc1v, twnv, allv, WordBits * FirstWord(cfg), cfg.sieveSize)
      modifies this
      ensures active == old(active)
      ensures Tally(stats, shares) ==
        if active
        then TestRange(cfg, H, ext, cc1v, twnv, allv, Tally(old(stats), old(shares)), WordBits * FirstWord(cfg), cfg.sieveSize)
        else Tally(old(stats), old(shares))
    {
      ghost var t0 := Tally(stats, shares);
      ghost var lo := WordBits * FirstWord(cfg);
      var i := FirstWord(cfg);
      while active && i < cfg.sieveWords
        invariant FirstWord(cfg) <= i <= cfg.sieveWords
        invariant active == old(active) && (!active ==> i == FirstWord(cfg))
        invariant Tally(stats, shares) == TestRange(cfg, H, ext, cc1v, twnv, allv, t0, lo, WordBits * i)
      {
        TestWord(cc1v, twnv, allv, H, ext, i, t0, lo);
        i := i + 1;
      }
    }

    /**
     * The tally after testing the extension rows below e, from t: row r
     * holds the candidates of extension r + 1.
     */
    ghost function ExtTally(H: nat, t: Tally, e: nat): Tally
      requires Ready() && H >= 2 && e <= cfg.extensions
      reads extCc1, extTwn, extAll
      decreases e
    {
      if e == 0 then t
      else
        TestRange(cfg, H, e, Row(extCc1, e - 1), Row(extTwn, e - 1), Row(extAll, e - 1),
                  ExtTally(H, t, e - 1), WordBits * FirstWord(cfg), cfg.sieveSize)
    }

    /**
     * The testing part of `sieve_run`: `test_candidates` on the base
     * vectors, then, while the sieve is active, on every extension row
     * with the candidates shifted by its extension number.
     */
    method TestRun(H: nat)
      requires Ready() && H >= 2 && 0 in all[0]
      modifies this
      ensures active == old(active)
      ensures Tally(stats, shares) ==
        if active
        then ExtTally(H, TestRange(cfg, H, 0, cc1[..], twn[..], all[..], Tally(old(stats), old(shares)),
                                   WordBits * FirstWord(cfg), cfg.sieveSize), cfg.extensions)
        else Tally(old(stats), old(shares))
    {
      TestCandidates(cc1[..], twn[..], all[..], H, 0);
      ghost var base := Tally(stats, shares);
      var e := 0;
      while active && e < cfg.extensions
        invariant e <= cfg.extensions && active == old(active) && (!active ==> e == 0)
        invariant Tally(stats, shares) == ExtTally(H, base, e)
      {
        TestCandidates(Row(extCc1, e), Row(extTwn, e), Row(extAll, e), H, e + 1);
        e := e + 1;
      }
    }

    /**
     * `sieve_run` for the primorial multiple H after `reinit_sieve`: the
     * sieving part, then the testing part on the masks it leaves.
     */
    method Run(H: nat)
      requires Valid() && Reset() && H >= 2
      modifies this, cc1Layer, cc2Layer, cc1Muls, cc2Muls, cc1, cc2, twn, all, extCc1, extCc2, extTwn, extAll
      ensures forall w :: FirstWord(cfg) <= w < cfg.sieveWords ==>
        all[w] == MaskWord(cfg, Cc1Table(cfg, H), Cc2Table(cfg, H), 0, w) + (if w == 0 then {0} else {})
      ensures forall e, w :: 0 <= e < cfg.extensions && cfg.sieveWords / 2 <= w < cfg.sieveWords ==>
        extAll[e, w] == MaskWord(cfg, Cc1Table(cfg, H), Cc2Table(cfg, H), e + 1, w)
      ensures 0 in all[0] && active
      ensures Tally(stats, shares) ==
        ExtTally(H, TestRange(cfg, H, 0, cc1[..], twn[..], all[..], Tally(old(stats), old(shares)),
                              WordBits * FirstWord(cfg), cfg.sieveSize), cfg.extensions)
    {
      SieveRun(H);
      TestRun(H);
    }

    /** Share sh comes from a candidate of extension row r. */
    ghost predicate FoundInRow(H: nat, r: nat, sh: Share)
      requires Ready() && H >= 2 && r < cfg.extensions
      reads extCc1, extTwn, extAll
    {
      FoundIn(cfg, H, r + 1, Row(extCc1, r), Row(extTwn, r), Row(extAll, r),
              WordBits * FirstWord(cfg), cfg.sieveSize, sh)
    }

    /** Share sh comes from a candidate of one of the extension rows below e. */
    ghost predicate FoundInRows(H: nat, e: nat, sh: Share)
      requires Ready() && H >= 2 && e <= cfg.extensions
      reads extCc1, extTwn, extAll
    {
      exists r :: 0 <= r < e && FoundInRow(H, r, sh)
    }

    /** The candidates left in the extension rows below e. */
    ghost function ExtClear(e: nat): nat
      requires Ready() && e <= cfg.extensions
      reads extAll
    {
      if e == 0 then 0 else ExtClear(e - 1) + CountClear(Row(extAll, e - 1), WordBits * FirstWord(cfg), cfg.sieveSize)
    }

    /** Testing the extension rows counts one test per candidate left in them. */
    lemma {:induction false} ExtTallyTests(H: nat, t: Tally, e: nat)
      requires Ready() && H >= 2 && e <= cfg.extensions
      ensures ExtTally(H, t, e).stats.tests == t.stats.tests + ExtClear(e)
    {
      if e > 0 {
        ExtTallyTests(H, t, e - 1);
        TestRangeTests(cfg, H, e, Row(extCc1, e - 1), Row(extTwn, e - 1), Row(extAll, e - 1),
                       ExtTally(H, t, e - 1), WordBits * FirstWord(cfg), cfg.sieveSize);
      }
    }

    /** Testing the extension rows keeps the shares found before. */
    lemma {:induction false} ExtTallyGrows(H: nat, t: Tally, e: nat)
      requires Ready() && H >= 2 && e <= cfg.extensions
      ensures |t.shares| <= |ExtTally(H, t, e).shares| && ExtTally(H, t, e).shares[..|t.shares|] == t.shares
    {
      if e > 0 {
        var u := ExtTally(H, t, e - 1);
        ExtTallyGrows(H, t, e - 1);
        TestRangeGrows(cfg, H, e, Row(extCc1, e - 1), Row(extTwn, e - 1), Row(extAll, e - 1),
                       u, WordBits * FirstWord(cfg), cfg.sieveSize);
        var s := ExtTally(H, t, e).shares;
        assert s[..|u.shares|] == u.shares;
        assert s[..|t.shares|] == s[..|u.shares|][..|t.shares|];
      }
    }

    /** Every share that testing the extension rows appends was found at a candidate of one of them. */
    lemma {:induction false} ExtTallyShares(H: nat, t: Tally, e: nat)
      requires Ready() && H >= 2 && e <= cfg.extensions
      ensures forall j :: |t.shares| <= j < |ExtTally(H, t, e).shares| ==> FoundInRows(H, e, ExtTally(H, t, e).shares[j])
    {
      if e > 0 {
        var u := ExtTally(H, t, e - 1);
        ExtTallyShares(H, t, e - 1);
        var lo, cc1v, twnv, allv := WordBits * FirstWord(cfg), Row(extCc1, e - 1), Row(extTwn, e - 1), Row(extAll, e - 1);
        TestRangeGrows(cfg, H, e, cc1v, twnv, allv, u, lo, cfg.sieveSize);
        TestRangeShares(cfg, H, e, cc1v, twnv, allv, u, lo, cfg.sieveSize);
        var s := ExtTally(H, t, e).shares;
        assert s == TestRange(cfg, H, e, cc1v, twnv, allv, u, lo, cfg.sieveSize).shares;
        forall j | |t.shares| <= j < |s|
          ensures FoundInRows(H, e, s[j])
        {
          if j < |u.shares| {
            assert s[j] == s[..|u.shares|][j] == u.shares[j];
            assert FoundInRows(H, e - 1, u.shares[j]);
            var r :| 0 <= r < e - 1 && FoundInRow(H, r, u.shares[j]);
            assert 0 <= r < e && FoundInRow(H, r, s[j]);
          } else {
            assert FoundInRow(H, e - 1, s[j]);
          }
        }
      }
    }

    /**
     * What a share found by `sieve_run` is: a candidate left in the base
     * mask or in one of the extension masks.
     */
    ghost predicate ShareFound(H: nat, sh: Share)
      requires Ready() && H >= 2 && 0 in all[0]
      reads cc1, twn, all, extCc1, extTwn, extAll
    {
      || FoundIn(cfg, H, 0, cc1[..], twn[..], all[..], WordBits * FirstWord(cfg), cfg.sieveSize, sh)
      || FoundInRows(H, cfg.extensions, sh)
    }

    /**
     * The whole testing part of `sieve_run`: one test per candidate left
     * in the base mask and in every extension mask; the shares found
     * before are kept, and every new share was found at a candidate.
     */
    lemma RunTallyFacts(H: nat, t: Tally)
      requires Ready() && H >= 2 && 0 in all[0]
      ensures var s := ExtTally(H, TestRange(cfg, H, 0, cc1[..], twn[..], all[..], t,
                                             WordBits * FirstWord(cfg), cfg.sieveSize), cfg.extensions);
        && s.stats.tests == t.stats.tests + CountClear(all[..], WordBits * FirstWord(cfg), cfg.sieveSize) + ExtClear(cfg.extensions)
        && |t.shares| <= |s.shares| && s.shares[..|t.shares|] == t.shares
        && forall j :: |t.shares| <= j < |s.shares| ==> ShareFound(H, s.shares[j])
    {
      var lo := WordBits * FirstWord(cfg);
      var u := TestRange(cfg, H, 0, cc1[..], twn[..], all[..], t, lo, cfg.sieveSize);
      TestRangeTests(cfg, H, 0, cc1[..], twn[..], all[..], t, lo, cfg.sieveSize);
      TestRangeGrows(cfg, H, 0, cc1[..], twn[..], all[..], t, lo, cfg.sieveSize);
      TestRangeShares(cfg, H, 0, cc1[..], twn[..], all[..], t, lo, cfg.sieveSize);
      ExtTallyTests(H, u, cfg.extensions);
      ExtTallyGrows(H, u, cfg.extensions);
      ExtTallyShares(H, u, cfg.extensions);
      var s := ExtTally(H, u, cfg.extensions).shares;
      forall j | |t.shares| <= j < |s|
        ensures ShareFound(H, s[j])
      {
        if j < |u.shares| {
          assert s[j] == u.shares[j];
        }
      }
    }

    /** The body of the word loop of `test_candidates` for word i. */
    method TestWord(cc1v: seq<Word>, twnv: seq<Word>, allv: seq<Word>, H: nat, ext: nat, i: nat,
                    ghost t0: Tally, ghost lo: nat)
      requires H >= 2 && lo <= WordBits * i && Covers(cc1v, twnv, allv, lo, WordBits * (i + 1))
      requires Tally(stats, shares) == TestRange(cfg, H, ext, cc1v, twnv, allv, t0, lo, WordBits * i)
      modifies this
      ensures active == old(active)
      ensures Tally(stats, shares) == TestRange(cfg, H, ext, cc1v, twnv, allv, t0, lo, WordBits * (i + 1))
    {
      var word := allv[i];
      if word == WordMax {
        SkipFull(cfg, H, ext, cc1v, twnv, allv, t0, lo, i, WordBits);
        return;
      }
      var bit := 0;
      while bit < WordBits
        invariant bit <= WordBits && active == old(active)
        invariant Tally(stats, shares) == TestRange(cfg, H, ext, cc1v, twnv, allv, t0, lo, WordBits * i + bit)
      {
        TestBit(cc1v, twnv, allv, H, ext, i, bit, t0, lo);
        bit := bit + 1;
      }
    }

    /** The body of the bit loop of `test_candidates` for bit `bit` of word i. */
    method TestBit(cc1v: seq<Word>, twnv: seq<Word>, allv: seq<Word>, H: nat, ext: nat, i: nat, bit: nat,
                   ghost t0: Tally, ghost lo: nat)
      requires H >= 2 && bit < WordBits && lo <= WordBits * i && Covers(cc1v, twnv, allv, lo, WordBits * i + bit + 1)
      requires Tally(stats, shares) == TestRange(cfg, H, ext, cc1v, twnv, allv, t0, lo, WordBits * i + bit)
      modifies this
      ensures active == old(active)
      ensures Tally(stats, shares) == TestRange(cfg, H, ext, cc1v, twnv, allv, t0, lo, WordBits * i + bit + 1)
    {
      PosSplit(WordBits * i + bit, i, bit);
      TestRangeStep(cfg, H, ext, cc1v, twnv, allv, t0, lo, WordBits * i + bit);
      if bit !in allv[i] {
        TestOne(cc1v, twnv, H, ext, i, bit);
      }
    }

    /**
     * Testing the candidate at bit `bit` of word i: count it, run the
     * chain test its vectors call for, record the length, and submit a
     * share when the chain is long enough and the multiplier fits.
     */
    method TestOne(cc1v: seq<Word>, twnv: seq<Word>, H: nat, ext: nat, i: nat, bit: nat)
      requires H >= 2 && bit < WordBits && i < |cc1v| && i < |twnv| && WordBits * i + bit >= 1
      modifies this
      ensures active == old(active)
      ensures (WordBits * i + bit) / WordBits == i
      ensures Tally(stats, shares) == TestAt(cfg, H, ext, cc1v, twnv, old(Tally(stats, shares)), WordBits * i + bit)
    {
      var k := WordBits * i + bit;
      PosSplit(k, i, bit);
      OriginAtLeast(H, k, ext);
      var origin := Origin(H, k, ext);
      var kind, len := ChainTest(cc1v, twnv, i, bit, origin);
      assert kind == KindOf(cc1v, twnv, k);
      Submit(kind, len, origin, MultiplierOf(cfg, k, ext));
    }

    /**
     * The chain test a candidate's vectors call for: bi-twin when its
     * bi-twin bit is clear, else first kind when its cc1 bit is clear, else
     * second kind; the test and the length are counted.
     */
    method ChainTest(cc1v: seq<Word>, twnv: seq<Word>, i: nat, bit: nat, origin: nat)
      returns (kind: ChainType, len: nat)
      requires i < |cc1v| && i < |twnv| && origin >= 2
      modifies this
      ensures kind == (if bit !in twnv[i] then BiTwin else if bit !in cc1v[i] then FirstCunningham else SecondCunningham)
      ensures len == TestLength(kind, origin)
      ensures stats == Count(old(stats), kind, len)
      ensures active == old(active) && shares == old(shares)
    {
      stats := stats.(tests := stats.tests + 1);
      if bit !in twnv[i] {
        len := TwnChainTest(origin);
        stats := stats.(twn := Bump(stats.twn, len));
        kind := BiTwin;
      } else if bit !in cc1v[i] {
        len := Cc1ChainTest(origin);
        stats := stats.(cc1 := Bump(stats.cc1, len));
        kind := FirstCunningham;
      } else {
        len := Cc2ChainTest(origin);
        stats := stats.(cc2 := Bump(stats.cc2, len));
        kind := SecondCunningham;
      }
    }

    /**
     * The share of a chain: the difficulty `(len << 24)` plus the
     * fractional length, the multiplier exported into the zeroed 47-byte
     * field, and nothing when the chain is too short or the multiplier
     * does not fit.
     */
    method Submit(kind: ChainType, len: nat, origin: nat, multiplier: nat)
      requires origin >= 2
      modifies this
      ensures shares == old(shares) + Shares(ShareFor(cfg, kind, len, origin, multiplier))
      ensures active == old(active) && stats == old(stats)
    {
      if len >= cfg.poolShare {
        var difficulty := len * FractionalOne + GetFractionalLength(origin, kind, len);
        var bytes := ToLE(multiplier);
        if |bytes| <= MultiplierLength {
          shares := shares + [Share(kind, difficulty, bytes + Zeros(MultiplierLength - |bytes|), |bytes|)];
        }
      }
    }
  }

  /** Row e of a two-dimensional buffer, as a sequence. */
  function Row<T>(a: array2<T>, e: nat): (r: seq<T>)
    requires e < a.Length0
    reads a
    ensures |r| == a.Length1 && forall w :: 0 <= w < a.Length1 ==> r[w] == a[e, w]
  {
    seq(a.Length1, w requires 0 <= w < a.Length1 reads a => a[e, w])
  }

  /** Words [ws, we) of a layer buffer hold layer n of the table M. */
  ghost predicate LayerAt(c: Config, cands: array<Word>, M: seq<seq<nat>>, n: nat, ws: nat, we: nat)
    requires Indexable(c) && Shape(c, M) && n < Layers(c) && we <= cands.Length
    reads cands
  {
    forall w :: ws <= w < we ==> cands[w] == LayerWord(c, M, n, w)
  }

  /** One extension's mask: `ptr_all[i] = cc1 & cc2 & twn` over the second half, then `ptr_all[0] |= 1`. */
  method CombineRow(dst: array2<Word>, a: array2<Word>, b: array2<Word>, t: array2<Word>, e: nat, W: nat)
    requires dst != a && dst != b && dst != t && e < dst.Length0 && 2 <= W
    requires dst.Length1 == W && a.Length1 == W && b.Length1 == W && t.Length1 == W
    requires e < a.Length0 && e < b.Length0 && e < t.Length0
    modifies dst
    ensures forall r, i :: 0 <= r < dst.Length0 && 0 <= i < W ==>
      dst[r, i] ==
        if r != e then old(dst[r, i])
        else if W / 2 <= i then a[e, i] * b[e, i] * t[e, i]
        else if i == 0 then old(dst[e, i]) + {0}
        else old(dst[r, i])
  {
    for i := W / 2 to W
      invariant forall r, j :: 0 <= r < dst.Length0 && 0 <= j < W ==>
        dst[r, j] == if r == e && W / 2 <= j < i then a[e, j] * b[e, j] * t[e, j] else old(dst[r, j])
    {
      dst[e, i] := a[e, i] * b[e, i] * t[e, i];
    }
    dst[e, 0] := dst[e, 0] + {0};
  }

  /**
   * The table entries while a block [bs, be) is at layer n: the layers
   * below n are behind its end, the others behind its start.
   */
  ghost predicate TableState(c: Config, muls: array2<nat>, M: seq<seq<nat>>, n: nat, bs: nat, be: nat)
    requires Indexable(c) && Shape(c, M) && muls.Length0 == c.maxPrime && muls.Length1 == Layers(c)
    reads muls
  {
    forall l :: 0 <= l < Layers(c) ==> TableAt(c, muls, M, l, Reached(l, n, bs, be))
  }

  /** The entries of the layers below n are the table lifted to t. */
  ghost predicate LayersLifted(c: Config, muls: array2<nat>, M: seq<seq<nat>>, n: nat, t: nat)
    requires Indexable(c) && Shape(c, M) && n <= Layers(c) && muls.Length0 == c.maxPrime && muls.Length1 == Layers(c)
    reads muls
  {
    forall i, l :: c.minPrime <= i < c.maxPrime && 0 <= l < n ==> muls[i, l] == Lift(M[i][l], c.primes[i], t)
  }

  /** The table as `calc_multipliers` leaves it is the state of the first block before its first layer. */
  lemma InitialTable(c: Config, muls: array2<nat>, M: seq<seq<nat>>, bs: nat, be: nat)
    requires Indexable(c) && Shape(c, M) && muls.Length0 == c.maxPrime && muls.Length1 == Layers(c)
    requires forall i, l :: c.minPrime <= i < c.maxPrime && 0 <= l < Layers(c) ==> muls[i, l] == M[i][l]
    ensures TableState(c, muls, M, 0, bs, be) && LayersLifted(c, muls, M, 0, be)
  {
    TableBehind(c, muls, M, bs);
    forall l | 0 <= l < Layers(c)
      ensures TableAt(c, muls, M, l, Reached(l, 0, bs, be))
    {
      assert Reached(l, 0, bs, be) == Reached(l, 0, bs, bs);
    }
  }

  /** Entries lifted to t are behind t, ready for a block that starts there. */
  lemma LiftedBehind(c: Config, muls: array2<nat>, M: seq<seq<nat>>, t: nat, u: nat)
    requires Indexable(c) && Shape(c, M) && muls.Length0 == c.maxPrime && muls.Length1 == Layers(c)
    requires LayersLifted(c, muls, M, Layers(c), t)
    ensures TableState(c, muls, M, 0, t, u)
  {
    forall l | 0 <= l < Layers(c)
      ensures TableAt(c, muls, M, l, Reached(l, 0, t, u))
    {
      forall i | c.minPrime <= i < c.maxPrime
        ensures Behind(M[i][l], c.primes[i], muls[i, l], t)
      {
        LiftBehind(M[i][l], c.primes[i], t, t);
      }
    }
  }

  /** The table as computed is behind every position. */
  lemma TableBehind(c: Config, muls: array2<nat>, M: seq<seq<nat>>, t: nat)
    requires Indexable(c) && Shape(c, M) && muls.Length0 == c.maxPrime && muls.Length1 == Layers(c)
    requires forall i, l :: c.minPrime <= i < c.maxPrime && 0 <= l < Layers(c) ==> muls[i, l] == M[i][l]
    ensures TableState(c, muls, M, 0, t, t)
  {
    forall l | 0 <= l < Layers(c)
      ensures TableAt(c, muls, M, l, Reached(l, 0, t, t))
    {
      forall i | c.minPrime <= i < c.maxPrime
        ensures Behind(M[i][l], c.primes[i], muls[i, l], t)
      {
        LiftSpec(M[i][l], c.primes[i], t);
      }
    }
  }

  /**
   * One layer of the twin rule on one word: o is the twin word before it,
   * a1 and a2 the chain words after it, t1 the word after the cc2 copy
   * and t the word after the cc1 OR.
   */
  lemma TwinWordStep(c: Config, M1: seq<seq<nat>>, M2: seq<seq<nat>>, x: nat, n: nat, w: nat,
                     o: Word, a1: Word, a2: Word, t1: Word, t: Word)
    requires Indexable(c) && Shape(c, M1) && Shape(c, M2) && x + c.chainLength <= Layers(c) && c.chainLength >= 2
    requires o == TwnState(c, M1, M2, x, n, w)
    requires a1 == VectorAt(c, M1, x, n + 1, w) && a2 == VectorAt(c, M2, x, n + 1, w)
    requires t1 == if n == x + TwnCc2Layers(c) then a2 else o
    requires t == if n == x + TwnCc1Layers(c) then t1 + a1 else t1
    ensures t == TwnState(c, M1, M2, x, n + 1, w)
  {
    TwnStep(c, M1, M2, x, n, w);
  }

  /** Clear words are the vectors of chain x before any layer. */
  lemma EmptyVectors(c: Config, M1: seq<seq<nat>>, M2: seq<seq<nat>>, x: nat, w: nat, a1: Word, a2: Word, t: Word)
    requires Indexable(c) && Shape(c, M1) && Shape(c, M2) && x + c.chainLength <= Layers(c)
    requires a1 == {} && a2 == {} && t == {}
    ensures a1 == VectorAt(c, M1, x, 0, w) && a2 == VectorAt(c, M2, x, 0, w) && t == TwnState(c, M1, M2, x, 0, w)
  {
  }

  /** A word that has seen every layer holds the full vectors of chain x. */
  lemma WordDone(c: Config, M1: seq<seq<nat>>, M2: seq<seq<nat>>, x: nat, w: nat, a1: Word, a2: Word, t: Word)
    requires Indexable(c) && Shape(c, M1) && Shape(c, M2) && x + c.chainLength <= Layers(c)
    requires a1 == VectorAt(c, M1, x, Layers(c), w) && a2 == VectorAt(c, M2, x, Layers(c), w)
    requires t == TwnState(c, M1, M2, x, Layers(c), w)
    ensures a1 == Accum(c, M1, x, x + c.chainLength, w) && a2 == Accum(c, M2, x, x + c.chainLength, w)
    ensures t == TwnWord(c, M1, M2, x, w)
  {
    VectorsDone(c, M1, M2, x, w);
    VectorsDone(c, M2, M1, x, w);
  }

  /** The next block of a half: it still fits, and what is left is whole blocks. */
  lemma NextBlock(bs: nat, end: nat, cb: nat)
    requires bs < end && cb > 0 && (end - bs) % cb == 0
    ensures bs + cb <= end && (end - (bs + cb)) % cb == 0
  {
    var q := (end - bs) / cb;
    assert end - bs == q * cb;
    assert q >= 1;
    assert end - (bs + cb) == (q - 1) * cb;
    DivModUnique(q - 1, cb, 0);
  }

  /** The position the entries of layer l are behind. */
  function Reached(l: nat, n: nat, bs: nat, be: nat): nat
  {
    if l < n then be else bs
  }

  /** `sieve_from_to` of layer n over the block [bs, be), as a step of the table state. */
  method SieveLayerOf(c: Config, cands: array<Word>, muls: array2<nat>, ghost M: seq<seq<nat>>, n: nat, bs: nat, be: nat)
    requires Indexable(c) && Shape(c, M) && n < Layers(c)
    requires muls.Length0 == c.maxPrime && muls.Length1 == Layers(c)
    requires c.cacheBits % WordBits == 0 && bs % WordBits == 0 && be == bs + c.cacheBits && be <= WordBits * cands.Length
    requires TableState(c, muls, M, n, bs, be) && LayersLifted(c, muls, M, n, be)
    modifies cands, muls
    ensures TableState(c, muls, M, n + 1, bs, be) && LayersLifted(c, muls, M, n + 1, be)
    ensures LayerAt(c, cands, M, n, bs / WordBits, be / WordBits)
  {
    assert TableAt(c, muls, M, n, Reached(n, n, bs, be));
    SieveFromTo(c, cands, muls, bs, be, n, M);
    ghost var n' := n + 1;
    forall l | 0 <= l < Layers(c)
      ensures TableAt(c, muls, M, l, Reached(l, n', bs, be))
    {
      if l == n {
        forall i | c.minPrime <= i < c.maxPrime
          ensures Behind(M[i][l], c.primes[i], muls[i, l], be)
        {
          LiftBehind(M[i][l], c.primes[i], be, be);
        }
      } else {
        assert old(TableAt(c, muls, M, l, Reached(l, n, bs, be)));
      }
    }
  }

  /**
   * How many layers word w has seen while the block [ws, we) is at layer
   * n: all of them from lo up to the block, n in the block, none elsewhere.
   */
  function Stage(lo: nat, ws: nat, we: nat, n: nat, full: nat, w: nat): nat
  {
    if w < lo then 0 else if w < ws then full else if w < we then n else 0
  }

  /**
   * One prime of `calc_multipliers`: a prime that divides H is skipped;
   * otherwise the layer loop gives row i of the tables the offsets of
   * every layer.  Below `int64_arithmetic` the product is taken in 32
   * bits, above in 64 bits; neither wraps.
   */
  method CalcRow(c: Config, cc1Muls: array2<nat>, cc2Muls: array2<nat>, i: nat, H: nat)
    requires Indexable(c) && c.minPrime <= i < c.maxPrime && PrimeOk(c, i) && cc1Muls != cc2Muls
    requires cc1Muls.Length0 == c.maxPrime && cc1Muls.Length1 == Layers(c)
    requires cc2Muls.Length0 == c.maxPrime && cc2Muls.Length1 == Layers(c)
    modifies cc1Muls, cc2Muls
    ensures forall j, l :: 0 <= j < c.maxPrime && 0 <= l < Layers(c) ==>
      if j == i && Sieved(c, H, i)
      then cc1Muls[j, l] == Offset(c, H, i, l) && cc2Muls[j, l] == c.primes[i] - Offset(c, H, i, l)
      else cc1Muls[j, l] == old(cc1Muls[j, l]) && cc2Muls[j, l] == old(cc2Muls[j, l])
  {
    var prime := c.primes[i];
    var modulo := H % prime;
    if modulo == 0 {
      return;
    }
    var factor := Invert(modulo, prime);
    var twoInverse := c.twoInverses[i];
    var l := 0;
    while l < Layers(c)
      invariant l <= Layers(c) && factor == Offset(c, H, i, l)
      invariant forall j, k :: 0 <= j < c.maxPrime && 0 <= k < Layers(c) ==>
        if j == i && k < l then cc1Muls[j, k] == Offset(c, H, i, k) && cc2Muls[j, k] == prime - Offset(c, H, i, k)
        else cc1Muls[j, k] == old(cc1Muls[j, k]) && cc2Muls[j, k] == old(cc2Muls[j, k])
    {
      cc1Muls[i, l] := factor;
      cc2Muls[i, l] := prime - factor;
      if i < c.int64Arithmetic {
        ProductFits(factor, twoInverse, prime, TwoTo32);
        factor := ((factor * twoInverse) % TwoTo32) % prime;
      } else {
        ProductFits(factor, twoInverse, prime, TwoTo64);
        factor := ((factor * twoInverse) % TwoTo64) % prime;
      }
      l := l + 1;
    }
  }

  /** Every word of a is clear. */
  ghost predicate Cleared(a: array<Word>)
    reads a
  {
    forall w :: 0 <= w < a.Length ==> a[w] == {}
  }

  /** Every word of every row of a is clear. */
  ghost predicate RowsCleared(a: array2<Word>)
    reads a
  {
    forall e, w :: 0 <= e < a.Length0 && 0 <= w < a.Length1 ==> a[e, w] == {}
  }

  /** Every entry of a table is 0xFFFFFFFF. */
  ghost predicate AllSentinel(a: array2<nat>)
    reads a
  {
    forall i, l :: 0 <= i < a.Length0 && 0 <= l < a.Length1 ==> a[i, l] == Sentinel
  }

  /** `memset(a, 0, ...)` of a word vector. */
  method ClearWords(a: array<Word>)
    modifies a
    ensures Cleared(a)
  {
    forall w | 0 <= w < a.Length {
      a[w] := {};
    }
  }

  /** The four `memset`s of the base vectors. */
  method ClearVectors(a: array<Word>, b: array<Word>, c: array<Word>, d: array<Word>)
    modifies a, b, c, d
    ensures Cleared(a) && Cleared(b) && Cleared(c) && Cleared(d)
  {
    ClearWords(d);
    ClearWords(c);
    ClearWords(b);
    ClearWords(a);
  }

  /** `memset(a, 0, ...)` of all rows of the extension vectors. */
  method ClearRows(a: array2<Word>)
    modifies a
    ensures RowsCleared(a)
  {
    forall e, w | 0 <= e < a.Length0 && 0 <= w < a.Length1 {
      a[e, w] := {};
    }
  }

  /** `memset(muls, 0xFF, ...)`: every entry becomes 0xFFFFFFFF. */
  method FillSentinel(a: array2<nat>)
    modifies a
    ensures AllSentinel(a)
  {
    forall i, l | 0 <= i < a.Length0 && 0 <= l < a.Length1 {
      a[i, l] := Sentinel;
    }
  }

  /**
   * The layer relative to an extension starting at layer x, `l - x` in
   * 32 bits, names a twin layer t exactly when l is x + t: a layer
   * below x wraps to a value above every twin layer.
   */
  lemma ExtLayerIs(n: nat, x: nat, t: int)
    requires 0 <= t && x + t < TwoTo32 && n < TwoTo32
    ensures (n - x) % TwoTo32 == t <==> n == x + t
  {
    if n >= x {
      DivModUnique(0, TwoTo32, n - x);
    } else {
      DivModUnique(-1, TwoTo32, TwoTo32 + n - x);
    }
  }

  /** The product of two residues of p, with (p-1)^2 below the word size, does not wrap. */
  lemma ProductFits(a: nat, b: nat, p: nat, size: nat)
    requires a < p && b < p && (p - 1) * (p - 1) < size
    ensures (a * b) % size == a * b
  {
    MulMonotone(p - 1, a, b);
    MulMonotone(p - 1, b, p - 1);
    assert a * b <= (p - 1) * b == b * (p - 1);
    DivModUnique(0, size, a * b);
  }
}
