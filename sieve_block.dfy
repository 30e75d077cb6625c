/**
 * The word-array operations of one sieve block in src/sieve.c:
 * `sieve_from_to` and the OR and memcpy loops that `sieve_run` uses to
 * route a sieved layer into the candidate vectors.
 */
module SieveBlock {
  import opened Numbers
  import opened SieveIndex
  import opened SieveSpec

  // ---------------------------------------------------------------------
  // Marking one progression

  /** The bits of word w on the progression f, f + p, ... that lie below y. */
  ghost function ProgBelow(f: nat, p: nat, y: nat, w: nat): Word
    requires p > 0
  {
    set b: nat | b < WordBits && InProg(f, p, Pos(w, b)) && Pos(w, b) < y
  }

  /** Nothing at or above t lies below the lift of f to t. */
  lemma ProgBelowStart(f: nat, p: nat, t: nat, w: nat)
    requires p > 0 && t <= Pos(w, 0)
    ensures ProgBelow(f, p, Lift(f, p, t), w) == {}
  {
    LiftSpec(f, p, t);
  }

  /** A word position is the pair of x / 64 and x % 64. */
  lemma PosSplit(x: nat, w: nat, b: nat)
    requires b < WordBits
    ensures Pos(w, b) == x <==> (x / WordBits == w && x % WordBits == b)
  {
    if Pos(w, b) == x {
      DivModUnique(w, WordBits, b);
    }
  }

  /** Stepping past y adds exactly y's bit to the marks below. */
  lemma ProgBelowStep(f: nat, p: nat, y: nat, w: nat)
    requires p > 0 && InProg(f, p, y)
    ensures ProgBelow(f, p, y + p, w) ==
      ProgBelow(f, p, y, w) + (if y / WordBits == w then {y % WordBits} else {})
  {
    forall b: nat | b < WordBits
      ensures b in ProgBelow(f, p, y + p, w) <==>
        b in ProgBelow(f, p, y, w) || (y / WordBits == w && b == y % WordBits)
    {
      PosSplit(y, w, b);
      if InProg(f, p, Pos(w, b)) && y < Pos(w, b) {
        ProgGap(f, p, y, Pos(w, b));
      }
    }
  }

  /** Once y has passed the whole word, the marks below y are the word's. */
  lemma ProgBelowAll(f: nat, p: nat, y: nat, w: nat)
    requires p > 0 && Pos(w, WordBits) <= y
    ensures ProgBelow(f, p, y, w) == ProgWord(f, p, w)
  {
  }

  /**
   * The inner loop of `sieve_from_to` for one prime: lift the stored
   * offset y to the first position at or above start, set the bit of
   * every position below end, and return the first position at or
   * above end.
   */
  method MarkProgression(cands: array<Word>, y: nat, p: nat, start: nat, end: nat) returns (factor: nat)
    requires p > 0 && start % WordBits == 0 && end % WordBits == 0
    requires start <= end <= WordBits * cands.Length
    modifies cands
    ensures factor == Lift(y, p, end)
    ensures forall w :: start / WordBits <= w < end / WordBits ==> cands[w] == old(cands[w]) + ProgWord(y, p, w)
    ensures forall w :: 0 <= w < cands.Length && !(start / WordBits <= w < end / WordBits) ==>
      cands[w] == old(cands[w])
  {
    var ws, we := start / WordBits, end / WordBits;
    factor := Lift(y, p, start);
    MarkStart(y, p, start, ws, we);
    ghost var first := factor;
    while factor < end
      invariant InProg(y, p, factor) && start <= factor
      invariant factor == first || factor < end + p
      invariant forall w :: ws <= w < we ==> cands[w] == old(cands[w]) + ProgBelow(y, p, factor, w)
      invariant forall w :: 0 <= w < cands.Length && !(ws <= w < we) ==> cands[w] == old(cands[w])
      decreases end - factor
    {
      MarkOne(cands, y, p, factor, ws, we);
      ProgTrans(y, p, factor, factor + p);
      factor := factor + p;
    }
    LiftLift(y, p, start, end);
    LiftUnique(y, p, end, factor);
    forall w | ws <= w < we
      ensures ProgBelow(y, p, factor, w) == ProgWord(y, p, w)
    {
      ProgBelowAll(y, p, factor, w);
    }
  }

  /** The lifted offset starts the marking loop with nothing marked yet. */
  lemma MarkStart(f: nat, p: nat, start: nat, ws: nat, we: nat)
    requires p > 0 && start == WordBits * ws
    ensures InProg(f, p, Lift(f, p, start)) && start <= Lift(f, p, start)
    ensures Lift(f, p, start) == f || Lift(f, p, start) < start + p
    ensures forall w :: ws <= w < we ==> ProgBelow(f, p, Lift(f, p, start), w) == {}
  {
    LiftSpec(f, p, start);
    forall w | ws <= w < we
      ensures ProgBelow(f, p, Lift(f, p, start), w) == {}
    {
      ProgBelowStart(f, p, start, w);
    }
  }

  /** `word_at(candidates, factor) |= bit_word(factor)` for a factor inside the block. */
  method MarkOne(cands: array<Word>, ghost f: nat, p: nat, factor: nat, ghost ws: nat, ghost we: nat)
    requires p > 0 && InProg(f, p, factor) && WordBits * ws <= factor < WordBits * we && we <= cands.Length
    modifies cands
    ensures forall w :: ws <= w < we ==>
      cands[w] == old(cands[w]) + (ProgBelow(f, p, factor + p, w) - ProgBelow(f, p, factor, w))
    ensures forall w :: ws <= w < we ==> ProgBelow(f, p, factor, w) <= ProgBelow(f, p, factor + p, w)
    ensures forall w :: 0 <= w < cands.Length && !(ws <= w < we) ==> cands[w] == old(cands[w])
  {
    var w := factor / WordBits;
    cands[w] := cands[w] + {factor % WordBits};
    forall v | ws <= v < we
      ensures ProgBelow(f, p, factor + p, v) ==
        ProgBelow(f, p, factor, v) + (if factor / WordBits == v then {factor % WordBits} else {})
    {
      ProgBelowStep(f, p, factor, v);
    }
  }

  // ---------------------------------------------------------------------
  // sieve_from_to

  /** Every sieving prime's entry of layer l is behind t (lifted to some s <= t). */
  ghost predicate TableAt(c: Config, muls: array2<nat>, M: seq<seq<nat>>, l: nat, t: nat)
    requires Indexable(c) && Shape(c, M) && l < Layers(c)
    requires muls.Length0 == c.maxPrime && muls.Length1 == Layers(c)
    reads muls
  {
    forall i :: c.minPrime <= i < c.maxPrime ==> Behind(M[i][l], c.primes[i], muls[i, l], t)
  }

  /**
   * `sieve_from_to`: clear the block [start, end) of the candidate words,
   * mark the progression of every sieving prime in layer `layer`, and
   * store each progression's first position at or above end back into
   * the table.  M is the table the entries were computed as; they may
   * already have been lifted to any position up to start.
   */
  method SieveFromTo(c: Config, cands: array<Word>, muls: array2<nat>, start: nat, end: nat, layer: nat,
                     ghost M: seq<seq<nat>>)
    requires Indexable(c) && Shape(c, M) && layer < Layers(c)
    requires muls.Length0 == c.maxPrime && muls.Length1 == Layers(c)
    requires c.cacheBits % WordBits == 0 && start % WordBits == 0 && end == start + c.cacheBits
    requires end <= WordBits * cands.Length
    requires TableAt(c, muls, M, layer, start)
    modifies cands, muls
    ensures forall j, l :: 0 <= j < muls.Length0 && 0 <= l < muls.Length1 ==>
      muls[j, l] == if l == layer && c.minPrime <= j then Lift(M[j][l], c.primes[j], end) else old(muls[j, l])
    ensures forall w :: start / WordBits <= w < end / WordBits ==> cands[w] == LayerWord(c, M, layer, w)
    ensures forall w :: 0 <= w < cands.Length && !(start / WordBits <= w < end / WordBits) ==>
      cands[w] == old(cands[w])
  {
    var ws, we := start / WordBits, end / WordBits;
    forall w | ws <= w < we {
      cands[w] := {};
    }
    var i := c.minPrime;
    while i < c.maxPrime
      invariant c.minPrime <= i <= c.maxPrime
      invariant forall w :: ws <= w < we ==> cands[w] == PrimeMarks(c, M, layer, i, w)
      invariant forall w :: 0 <= w < cands.Length && !(ws <= w < we) ==> cands[w] == old(cands[w])
      invariant forall j, l :: 0 <= j < muls.Length0 && 0 <= l < muls.Length1 ==>
        muls[j, l] == if l == layer && c.minPrime <= j < i then Lift(M[j][l], c.primes[j], end) else old(muls[j, l])
    {
      SievePrime(c, cands, muls, i, start, end, layer, M);
      i := i + 1;
    }
  }

  /** One prime of `sieve_from_to`: mark its progression and store the new offset. */
  method SievePrime(c: Config, cands: array<Word>, muls: array2<nat>, i: nat, start: nat, end: nat, layer: nat,
                    ghost M: seq<seq<nat>>)
    requires Indexable(c) && Shape(c, M) && layer < Layers(c) && c.minPrime <= i < c.maxPrime
    requires muls.Length0 == c.maxPrime && muls.Length1 == Layers(c)
    requires start % WordBits == 0 && end % WordBits == 0 && start <= end <= WordBits * cands.Length
    requires Behind(M[i][layer], c.primes[i], muls[i, layer], start)
    requires forall w :: start / WordBits <= w < end / WordBits ==> cands[w] == PrimeMarks(c, M, layer, i, w)
    modifies cands, muls
    ensures forall w :: start / WordBits <= w < end / WordBits ==> cands[w] == PrimeMarks(c, M, layer, i + 1, w)
    ensures forall w :: 0 <= w < cands.Length && !(start / WordBits <= w < end / WordBits) ==>
      cands[w] == old(cands[w])
    ensures forall j, l :: 0 <= j < muls.Length0 && 0 <= l < muls.Length1 ==>
      muls[j, l] == if j == i && l == layer then Lift(M[i][layer], c.primes[i], end) else old(muls[j, l])
  {
    var factor := MarkProgression(cands, muls[i, layer], c.primes[i], start, end);
    MarksStep(c, M, layer, i, muls[i, layer], start, end, start / WordBits, end / WordBits);
    muls[i, layer] := factor;
  }

  /** Marking prime i's progression from an entry y behind start adds its words. */
  lemma MarksStep(c: Config, M: seq<seq<nat>>, l: nat, i: nat, y: nat, start: nat, end: nat, ws: nat, we: nat)
    requires Indexable(c) && Shape(c, M) && l < Layers(c) && c.minPrime <= i < c.maxPrime
    requires start <= WordBits * ws && start <= end && Behind(M[i][l], c.primes[i], y, start)
    ensures Lift(y, c.primes[i], end) == Lift(M[i][l], c.primes[i], end)
    ensures forall w :: ws <= w < we ==>
      PrimeMarks(c, M, l, i + 1, w) == PrimeMarks(c, M, l, i, w) + ProgWord(y, c.primes[i], w)
  {
    var f, p := M[i][l], c.primes[i];
    BehindLift(f, p, y, start, end);
    forall w | ws <= w < we
      ensures ProgWord(y, p, w) == ProgWord(f, p, w)
    {
      forall b: nat | b < WordBits
        ensures InProg(y, p, Pos(w, b)) <==> InProg(f, p, Pos(w, b))
      {
        BehindLift(f, p, y, start, Pos(w, b));
      }
    }
  }

  // ---------------------------------------------------------------------
  // Routing loops of sieve_run

  /** `dst[w] |= src[w]` for the words [lo, hi). */
  method OrInto(dst: array<Word>, src: array<Word>, lo: nat, hi: nat)
    requires dst != src && lo <= hi <= dst.Length && hi <= src.Length
    modifies dst
    ensures forall w :: lo <= w < hi ==> dst[w] == old(dst[w]) + src[w]
    ensures forall w :: 0 <= w < dst.Length && !(lo <= w < hi) ==> dst[w] == old(dst[w])
  {
    for w := lo to hi
      invariant forall v :: lo <= v < w ==> dst[v] == old(dst[v]) + src[v]
      invariant forall v :: 0 <= v < dst.Length && !(lo <= v < w) ==> dst[v] == old(dst[v])
    {
      dst[w] := dst[w] + src[w];
    }
  }

  /** The loop that ORs a cc2 and a cc1 layer into two vectors at once. */
  method OrPair(dst2: array<Word>, src2: array<Word>, dst1: array<Word>, src1: array<Word>, lo: nat, hi: nat)
    requires dst2 != dst1 && dst2 != src2 && dst2 != src1 && dst1 != src2 && dst1 != src1
    requires lo <= hi <= dst2.Length && hi <= dst1.Length && hi <= src2.Length && hi <= src1.Length
    modifies dst2, dst1
    ensures forall w :: lo <= w < hi ==> dst2[w] == old(dst2[w]) + src2[w] && dst1[w] == old(dst1[w]) + src1[w]
    ensures forall w :: 0 <= w < dst2.Length && !(lo <= w < hi) ==> dst2[w] == old(dst2[w])
    ensures forall w :: 0 <= w < dst1.Length && !(lo <= w < hi) ==> dst1[w] == old(dst1[w])
  {
    for w := lo to hi
      invariant forall v :: lo <= v < w ==> dst2[v] == old(dst2[v]) + src2[v] && dst1[v] == old(dst1[v]) + src1[v]
      invariant forall v :: 0 <= v < dst2.Length && !(lo <= v < w) ==> dst2[v] == old(dst2[v])
      invariant forall v :: 0 <= v < dst1.Length && !(lo <= v < w) ==> dst1[v] == old(dst1[v])
    {
      dst2[w] := dst2[w] + src2[w];
      dst1[w] := dst1[w] + src1[w];
    }
  }

  /** `memcpy(dst + lo, src + lo, ...)` of the words [lo, hi). */
  method CopyWords(dst: array<Word>, src: array<Word>, lo: nat, hi: nat)
    requires dst != src && lo <= hi <= dst.Length && hi <= src.Length
    modifies dst
    ensures forall w :: lo <= w < hi ==> dst[w] == src[w]
    ensures forall w :: 0 <= w < dst.Length && !(lo <= w < hi) ==> dst[w] == old(dst[w])
  {
    forall w | lo <= w < hi {
      dst[w] := src[w];
    }
  }

  /** The extension loop that ORs both layers into row e of two extension vectors. */
  method OrRowPair(dst2: array2<Word>, src2: array<Word>, dst1: array2<Word>, src1: array<Word>,
                   e: nat, lo: nat, hi: nat)
    requires dst2 != dst1 && e < dst2.Length0 && e < dst1.Length0
    requires lo <= hi <= dst2.Length1 && hi <= dst1.Length1 && hi <= src2.Length && hi <= src1.Length
    modifies dst2, dst1
    ensures forall w :: lo <= w < hi ==> dst2[e, w] == old(dst2[e, w]) + src2[w] && dst1[e, w] == old(dst1[e, w]) + src1[w]
    ensures forall r, w :: 0 <= r < dst2.Length0 && 0 <= w < dst2.Length1 && !(r == e && lo <= w < hi) ==>
      dst2[r, w] == old(dst2[r, w])
    ensures forall r, w :: 0 <= r < dst1.Length0 && 0 <= w < dst1.Length1 && !(r == e && lo <= w < hi) ==>
      dst1[r, w] == old(dst1[r, w])
  {
    for w := lo to hi
      invariant forall v :: lo <= v < w ==> dst2[e, v] == old(dst2[e, v]) + src2[v] && dst1[e, v] == old(dst1[e, v]) + src1[v]
      invariant forall r, v :: 0 <= r < dst2.Length0 && 0 <= v < dst2.Length1 && !(r == e && lo <= v < w) ==>
        dst2[r, v] == old(dst2[r, v])
      invariant forall r, v :: 0 <= r < dst1.Length0 && 0 <= v < dst1.Length1 && !(r == e && lo <= v < w) ==>
        dst1[r, v] == old(dst1[r, v])
    {
      dst2[e, w] := dst2[e, w] + src2[w];
      dst1[e, w] := dst1[e, w] + src1[w];
    }
  }

  /** `memcpy` of the words [lo, hi) of row e. */
  method CopyRow(dst: array2<Word>, src: array2<Word>, e: nat, lo: nat, hi: nat)
    requires dst != src && e < dst.Length0 && e < src.Length0 && lo <= hi <= dst.Length1 && hi <= src.Length1
    modifies dst
    ensures forall w :: lo <= w < hi ==> dst[e, w] == src[e, w]
    ensures forall r, w :: 0 <= r < dst.Length0 && 0 <= w < dst.Length1 && !(r == e && lo <= w < hi) ==>
      dst[r, w] == old(dst[r, w])
  {
    forall w | lo <= w < hi {
      dst[e, w] := src[e, w];
    }
  }

  /** `dst[e][w] |= src[e][w]` for the words [lo, hi) of row e. */
  method OrRow(dst: array2<Word>, src: array2<Word>, e: nat, lo: nat, hi: nat)
    requires dst != src && e < dst.Length0 && e < src.Length0 && lo <= hi <= dst.Length1 && hi <= src.Length1
    modifies dst
    ensures forall w :: lo <= w < hi ==> dst[e, w] == old(dst[e, w]) + src[e, w]
    ensures forall r, w :: 0 <= r < dst.Length0 && 0 <= w < dst.Length1 && !(r == e && lo <= w < hi) ==>
      dst[r, w] == old(dst[r, w])
  {
    for w := lo to hi
      invariant forall v :: lo <= v < w ==> dst[e, v] == old(dst[e, v]) + src[e, v]
      invariant forall r, v :: 0 <= r < dst.Length0 && 0 <= v < dst.Length1 && !(r == e && lo <= v < w) ==>
        dst[r, v] == old(dst[r, v])
    {
      dst[e, w] := dst[e, w] + src[e, w];
    }
  }
}
