/**
 * The prime table of the miner: a sieve of Eratosthenes over the positions
 * 6k +/- 1 into a bit array, the collection of the unmarked positions into
 * an ascending table, and the primorials over ranges of that table.
 */
module PrimeTable {
  import opened Numbers

  /** A byte of the bit array, given by the positions of its one bits. */
  type Byte = set<nat>

  /**
   * `bit_at(ary, k)`: bit k & 7 of byte k >> 3 is set.  A position beyond
   * the array counts as unmarked.
   */
  predicate Marked(bits: seq<Byte>, k: nat)
  {
    k / 8 < |bits| && k % 8 in bits[k / 8]
  }

  /** The set of marked positions of a bit array. */
  ghost function MarkSet(bits: seq<Byte>): set<nat>
  {
    set k: nat | k < 8 * |bits| && Marked(bits, k)
  }

  /** A bit array of empty bytes marks nothing. */
  lemma EmptyMarkSet(bits: seq<Byte>)
    requires forall j :: 0 <= j < |bits| ==> bits[j] == {}
    ensures MarkSet(bits) == {}
  {
  }

  lemma MarkSetSpec(bits: seq<Byte>, k: nat)
    ensures k in MarkSet(bits) <==> Marked(bits, k)
  {
  }

  /** The bit array has room for every position the table loops probe (< s + 2). */
  predicate Covers(len: nat, s: nat)
  {
    (s + 1) / 8 < len
  }

  /** The `s / 8 + 6` bytes `gen_prime_table` allocates cover the probes. */
  lemma CoversSize(s: nat)
    ensures Covers(s / 8 + 6, s)
  {
  }

  /** Only non-primes are marked. */
  ghost predicate Sound(marks: set<nat>)
  {
    forall k :: k in marks ==> !IsPrime(k)
  }

  /** d divides c */
  predicate DividesBy(c: nat, d: nat)
  {
    d > 0 && c % d == 0
  }

  /**
   * Every c < s with a divisor d in [2, bound) such that d * d <= c is
   * marked: the sieve has crossed off the multiples of every d below bound.
   */
  ghost predicate CompleteBelow(marks: set<nat>, s: nat, bound: nat)
  {
    forall c: nat, d: nat :: 2 <= d < bound && d * d <= c < s && DividesBy(c, d) ==> c in marks
  }

  /** The positions the inner loop for i crosses off: i*i, i*i + i, ... below s. */
  ghost function Multiples(i: nat, s: nat): set<nat>
    requires i > 0
  {
    set k: nat | i * i <= k < s && k % i == 0
  }

  // ---------------------------------------------------------------------
  // The sieve

  /** `set_bit(ary, k)` */
  method SetBit(ary: array<Byte>, k: nat)
    requires k / 8 < ary.Length
    modifies ary
    ensures MarkSet(ary[..]) == MarkSet(old(ary[..])) + {k}
  {
    ghost var before := ary[..];
    ary[k / 8] := ary[k / 8] + {k % 8};
    forall j: nat
      ensures j in MarkSet(ary[..]) <==> j in MarkSet(before) || j == k
    {
      MarkSetSpec(ary[..], j);
      MarkSetSpec(before, j);
      if j / 8 == k / 8 && j % 8 == k % 8 {
        assert j == 8 * (j / 8) + j % 8;
      }
    }
  }

  /** the multiple p of i is followed by the multiple p + i, and nothing between */
  lemma StepMultiple(p: nat, i: nat)
    requires i > 0 && p % i == 0
    ensures (p + i) % i == 0
    ensures forall k: nat :: p < k < p + i ==> k % i != 0
  {
    var q := p / i;
    assert p == q * i;
    DivModUnique(q + 1, i, 0);
    forall k: nat | p < k < p + i
      ensures k % i != 0
    {
      DivModUnique(q, i, k - p);
    }
  }

  /** A multiple k >= i * i of some i >= 2 is not prime. */
  lemma MultipleNotPrime(k: nat, i: nat)
    requires i >= 2 && i * i <= k && k % i == 0
    ensures !IsPrime(k)
  {
    MulMonotone(i, 2, i);
    assert 2 <= i < k;
  }

  /**
   * One inner loop of `gen_prime_table`: marks exactly i*i, i*i + i, ...
   * below s.
   */
  method CrossOff(ary: array<Byte>, s: nat, i: nat)
    requires i >= 2 && Covers(ary.Length, s)
    modifies ary
    ensures MarkSet(ary[..]) == MarkSet(old(ary[..])) + Multiples(i, s)
  {
    var p := i * i;
    DivModUnique(i, i, 0);
    while p < s
      invariant p >= i * i && p % i == 0
      invariant MarkSet(ary[..]) == MarkSet(old(ary[..])) + (set k: nat | i * i <= k < p && k < s && k % i == 0)
      decreases s - p
    {
      SetBit(ary, p);
      StepMultiple(p, i);
      p := p + i;
    }
  }

  /** Crossing off the multiples of i >= 2 keeps a sound sieve sound. */
  lemma CrossOffSound(marks: set<nat>, i: nat, s: nat)
    requires i >= 2 && Sound(marks)
    ensures Sound(marks + Multiples(i, s))
  {
    forall k | k in Multiples(i, s)
      ensures !IsPrime(k)
    {
      MultipleNotPrime(k, i);
    }
  }

  /** c % d == 0 and d % e == 0 give c % e == 0. */
  lemma DividesTrans(c: nat, d: nat, e: nat)
    requires d > 0 && e > 0 && c % d == 0 && d % e == 0
    ensures c % e == 0
  {
    var a, b := c / d, d / e;
    assert c == a * d && d == b * e;
    assert c == (a * b) * e;
    DivModUnique(a * b, e, 0);
  }

  /**
   * The bound of a complete sieve moves past a non-prime b: every multiple
   * of b is a multiple of a smaller divisor of b, whose multiples have been
   * crossed off.
   */
  lemma ExtendBound(marks: set<nat>, s: nat, b: nat)
    requires b >= 2 && !IsPrime(b) && CompleteBelow(marks, s, b)
    ensures CompleteBelow(marks, s, b + 1)
  {
    var e :| 2 <= e < b && b % e == 0;
    MulMonotone(b, e, b);
    MulMonotone(b, e, e);
    forall c: nat | b * b <= c < s && DividesBy(c, b)
      ensures c in marks
    {
      DividesTrans(c, b, e);
      assert DividesBy(c, e);
    }
  }

  /** Crossing off the multiples of b moves the bound past b. */
  lemma ExtendBySieve(marks: set<nat>, s: nat, b: nat)
    requires b >= 2 && CompleteBelow(marks, s, b)
    ensures CompleteBelow(marks + Multiples(b, s), s, b + 1)
  {
    forall c: nat, d: nat | 2 <= d < b + 1 && d * d <= c < s && DividesBy(c, d)
      ensures c in marks + Multiples(b, s)
    {
      if d == b {
        assert c in Multiples(b, s);
      }
    }
  }

  /**
   * `gen_prime_table`: marks 0 and 1, crosses off the multiples of 2 and 3
   * and then of every unmarked 6k - 1 and 6k + 1 below sqrt(s) + 1, and
   * collects the table.  The table starts 2, 3, is strictly ascending and
   * holds every prime below s; every entry below s is prime, only the last
   * entry can reach s (it is at most s + 1 and never sieved), and after the
   * first two every entry is of the form 6k +/- 1.  The counters are
   * unbounded here, as the 32-bit ones of the source are while
   * `p += i` stays below 2^32.
   */
  method GenPrimeTable(s: nat) returns (table: seq<nat>)
    ensures |table| >= 2 && table[0] == 2 && table[1] == 3
    ensures forall a, b :: 0 <= a < b < |table| ==> table[a] < table[b]
    ensures forall j :: 0 <= j < |table| && table[j] < s ==> IsPrime(table[j])
    ensures forall q: nat :: q < s && IsPrime(q) ==> q in table
    ensures forall j :: 2 <= j < |table| ==> table[j] % 6 == 1 || table[j] % 6 == 5
    ensures forall j :: 2 <= j < |table| ==> table[j] <= s + 1
    ensures s >= 4 ==> forall j :: 0 <= j < |table| - 1 ==> table[j] < s
  {
    var ary, b := SieveTable(s);
    var bits := ary[..];
    table := SavePrimes(bits, s);
    ghost var marks := MarkSet(bits);
    TableOrder(marks, s);
    TableProbes(marks, s);
    TablePrimes(marks, s, b);
    TableComplete(marks, s);
  }

  /**
   * The sieving part of `gen_prime_table`.  Ends with a sound sieve that
   * is complete up to the loop's last bound b, and b * b > s because b is
   * past the limit sqrt(s) + 1.
   */
  method SieveTable(s: nat) returns (ary: array<Byte>, ghost b: nat)
    ensures Covers(ary.Length, s) && ary.Length == s / 8 + 6
    ensures Sound(MarkSet(ary[..])) && CompleteBelow(MarkSet(ary[..]), s, b) && b * b > s
  {
    ary := new Byte[s / 8 + 6](_ => {});
    EmptyMarkSet(ary[..]);
    CoversSize(s);
    SieveSmall(ary, s);
    var limit := ISqrt(s) + 1;
    var i := 5;
    while i < limit
      invariant 5 <= i && i % 6 == 5 && ary.Length == s / 8 + 6 && Covers(ary.Length, s)
      invariant Sound(MarkSet(ary[..])) && CompleteBelow(MarkSet(ary[..]), s, i)
      decreases limit - i
    {
      ProbePair(ary, s, i);
      i := i + 6;
    }
    PastLimit(s, i);
    b := i;
  }

  /**
   * The start of `gen_prime_table`: marks 0 and 1 and crosses off the
   * multiples of 2 and 3, which makes the sieve complete up to 5.
   */
  method SieveSmall(ary: array<Byte>, s: nat)
    requires Covers(ary.Length, s) && MarkSet(ary[..]) == {}
    modifies ary
    ensures Sound(MarkSet(ary[..])) && CompleteBelow(MarkSet(ary[..]), s, 5)
  {
    SetBit(ary, 0);
    SetBit(ary, 1);
    assert MarkSet(ary[..]) == {0, 1};
    var i := 2;
    while i < 4
      invariant 2 <= i <= 4
      invariant Sound(MarkSet(ary[..])) && CompleteBelow(MarkSet(ary[..]), s, i)
    {
      ghost var before := MarkSet(ary[..]);
      CrossOff(ary, s, i);
      CrossOffSound(before, i, s);
      ExtendBySieve(before, s, i);
      i := i + 1;
    }
    assert !IsPrime(4) by { assert 4 % 2 == 0; }
    ExtendBound(MarkSet(ary[..]), s, 4);
  }

  /** A loop counter past sqrt(s) + 1 squares to more than s. */
  lemma PastLimit(s: nat, i: nat)
    requires i >= ISqrt(s) + 1
    ensures i * i > s
  {
    var limit := ISqrt(s) + 1;
    MulMonotone(i, limit, i);
    MulMonotone(i, limit, limit);
  }

  /** The positions after the pair (i, i + 2) up to the next pair are multiples of 2 or 3. */
  lemma PairResidues(i: nat)
    requires i >= 5 && i % 6 == 5
    ensures !IsPrime(i + 1) && !IsPrime(i + 3) && !IsPrime(i + 4) && !IsPrime(i + 5)
  {
    var q := i / 6;
    assert i == 6 * q + 5;
    DivModUnique(3 * q + 3, 2, 0);
    DivModUnique(3 * q + 4, 2, 0);
    DivModUnique(2 * q + 3, 3, 0);
    DivModUnique(3 * q + 5, 2, 0);
  }

  /**
   * One turn of the main loop: the probes 6k - 1 = i and 6k + 1 = i + 2,
   * which moves the bound of the complete sieve from i to i + 6 (the
   * positions i + 1, i + 3, i + 4 and i + 5 are multiples of 2 or 3).
   */
  method ProbePair(ary: array<Byte>, s: nat, i: nat)
    requires i >= 5 && i % 6 == 5 && Covers(ary.Length, s)
    requires Sound(MarkSet(ary[..])) && CompleteBelow(MarkSet(ary[..]), s, i)
    modifies ary
    ensures Sound(MarkSet(ary[..])) && CompleteBelow(MarkSet(ary[..]), s, i + 6)
  {
    PairResidues(i);
    ProbeStep(ary, s, i);
    ExtendBound(MarkSet(ary[..]), s, i + 1);
    ProbeStep(ary, s, i + 2);
    ExtendBound(MarkSet(ary[..]), s, i + 3);
    ExtendBound(MarkSet(ary[..]), s, i + 4);
    ExtendBound(MarkSet(ary[..]), s, i + 5);
  }

  /**
   * One probe of the main loop: if position i is still unmarked (`is_prime`),
   * cross off its multiples.
   */
  method ProbeStep(ary: array<Byte>, s: nat, i: nat)
    requires i >= 2 && Covers(ary.Length, s)
    requires Sound(MarkSet(ary[..])) && CompleteBelow(MarkSet(ary[..]), s, i)
    modifies ary
    ensures Sound(MarkSet(ary[..])) && CompleteBelow(MarkSet(ary[..]), s, i + 1)
  {
    ghost var before := MarkSet(ary[..]);
    MarkSetSpec(ary[..], i);
    if !Marked(ary[..], i) {
      CrossOff(ary, s, i);
      CrossOffSound(before, i, s);
      ExtendBySieve(before, s, i);
    } else {
      ExtendBound(before, s, i);
    }
  }

  // ---------------------------------------------------------------------
  // Collecting the table

  /** Position x is one of the positions 6k - 1 < s or 6k + 1 < s + 2 the loops look at. */
  predicate IsProbe(x: nat, s: nat)
  {
    (x % 6 == 5 && x < s) || (x % 6 == 1 && x >= 7 && x < s + 2)
  }

  /** The probe x, if it is unmarked. */
  ghost function Keep(marks: set<nat>, x: nat): seq<nat>
  {
    if x in marks then [] else [x]
  }

  /**
   * The unmarked probes from the pair (i, i + 2) on, in the order the loops
   * of `count_sieve` and `save_primes` visit them.
   */
  ghost function Survivors(marks: set<nat>, i: nat, s: nat): seq<nat>
    decreases s - i
  {
    if i >= s then [] else Keep(marks, i) + Keep(marks, i + 2) + Survivors(marks, i + 6, s)
  }

  /** The table `save_primes` writes: 2, 3 and then the unmarked probes. */
  ghost function Table(marks: set<nat>, s: nat): seq<nat>
  {
    [2, 3] + Survivors(marks, 5, s)
  }

  /**
   * `count_sieve`: 2 for the primes 2 and 3 plus one for every unmarked
   * probe, the exact length of the table `save_primes` then writes.
   */
  method CountSieve(bits: seq<Byte>, s: nat) returns (n: nat)
    requires Covers(|bits|, s)
    ensures n == |Table(MarkSet(bits), s)|
  {
    ghost var marks := MarkSet(bits);
    n := 2;
    var i := 5;
    while i < s
      invariant i >= 5
      invariant n + |Survivors(marks, i, s)| == |Table(marks, s)|
      decreases s - i
    {
      assert Survivors(marks, i, s) == Keep(marks, i) + Keep(marks, i + 2) + Survivors(marks, i + 6, s);
      MarkSetSpec(bits, i);
      MarkSetSpec(bits, i + 2);
      if !Marked(bits, i) {
        n := n + 1;
      }
      i := i + 2;
      if !Marked(bits, i) {
        n := n + 1;
      }
      i := i + 4;
    }
  }

  /**
   * `save_primes`: allocates `count_sieve` entries and fills them with 2, 3
   * and the unmarked probes in ascending order.
   */
  method SavePrimes(bits: seq<Byte>, s: nat) returns (table: seq<nat>)
    requires Covers(|bits|, s)
    ensures table == Table(MarkSet(bits), s)
  {
    ghost var marks := MarkSet(bits);
    ghost var t := Table(marks, s);
    var len := CountSieve(bits, s);
    assert |t| >= 2 && t[..2] == [2, 3] && t[2..] == Survivors(marks, 5, s);
    var ptr := new nat[len];
    ptr[0] := 2;
    ptr[1] := 3;
    var n := 2;
    var i := 5;
    assert ptr[..n] == [2, 3];
    while i < s
      invariant i >= 5 && i % 6 == 5
      invariant ptr.Length == len && 0 <= n <= ptr.Length
      invariant ptr[..n] + Survivors(marks, i, s) == t
      decreases s - i
    {
      n := SavePair(bits, s, ptr, n, i, t);
      i := i + 6;
    }
    assert Survivors(marks, i, s) == [];
    assert |ptr[..n]| == |t|;
    table := ptr[..n];
  }

  /** One turn of the loop of `save_primes`: the probes i and i + 2. */
  method SavePair(bits: seq<Byte>, s: nat, ptr: array<nat>, n: nat, i: nat, ghost t: seq<nat>)
    returns (n': nat)
    requires n <= ptr.Length == |t| && i < s
    requires ptr[..n] + Survivors(MarkSet(bits), i, s) == t
    modifies ptr
    ensures n' <= ptr.Length && ptr[..n'] + Survivors(MarkSet(bits), i + 6, s) == t
  {
    ghost var marks := MarkSet(bits);
    ghost var rest := Survivors(marks, i + 6, s);
    ghost var pre := ptr[..n];
    assert Survivors(marks, i, s) == Keep(marks, i) + Keep(marks, i + 2) + rest;
    SeqAssoc(pre, Keep(marks, i), Keep(marks, i + 2), rest);
    var m := SaveProbe(bits, ptr, n, i, Keep(marks, i + 2) + rest, t);
    n' := SaveProbe(bits, ptr, m, i + 2, rest, t);
  }

  lemma SeqAssoc(a: seq<nat>, b: seq<nat>, c: seq<nat>, d: seq<nat>)
    ensures a + (b + c + d) == a + b + (c + d)
  {
  }

  /**
   * One `is_prime` test of `save_primes`: an unmarked x is written at
   * position n, which keeps the written prefix a prefix of the table.
   */
  method SaveProbe(bits: seq<Byte>, ptr: array<nat>, n: nat, x: nat, ghost rest: seq<nat>,
                   ghost t: seq<nat>) returns (n': nat)
    requires n <= ptr.Length == |t|
    requires ptr[..n] + Keep(MarkSet(bits), x) + rest == t
    modifies ptr
    ensures n' <= ptr.Length && ptr[..n'] + rest == t
  {
    MarkSetSpec(bits, x);
    n' := n;
    if !Marked(bits, x) {
      ghost var pre := ptr[..n];
      assert pre + [x] + rest == t;
      assert t[n] == x;
      ptr[n] := x;
      assert ptr[..n + 1] == pre + [x];
      n' := n + 1;
    }
  }

  // ---------------------------------------------------------------------
  // Properties of the table

  /** The survivors are exactly the unmarked probes from i on. */
  lemma {:induction false} SurvivorsMember(marks: set<nat>, i: nat, s: nat, x: nat)
    requires i % 6 == 5
    ensures x in Survivors(marks, i, s) <==> i <= x && IsProbe(x, s) && x !in marks
    decreases s - i
  {
    if i < s {
      SurvivorsMember(marks, i + 6, s, x);
      assert Survivors(marks, i, s) == Keep(marks, i) + Keep(marks, i + 2) + Survivors(marks, i + 6, s);
      if i < x < i + 6 && x != i + 2 {
        NotProbeBetween(i, x);
      }
    } else if i < x < i + 2 {
      NotProbeBetween(i, x);
    }
  }

  /** Between the probes i = 6k + 5 and i + 6 only i + 2 is a probe position. */
  lemma NotProbeBetween(i: nat, x: nat)
    requires i % 6 == 5 && i < x < i + 6 && x != i + 2
    ensures x % 6 != 1 && x % 6 != 5
  {
    var q := i / 6;
    assert i == 6 * q + 5;
    DivModUnique(q + 1, 6, x - i - 1);
  }

  /** strictly ascending */
  ghost predicate Ascending(t: seq<nat>)
  {
    forall a, b :: 0 <= a < b < |t| ==> t[a] < t[b]
  }

  /** every element is at least lo */
  ghost predicate AllAtLeast(t: seq<nat>, lo: nat)
  {
    forall a :: 0 <= a < |t| ==> lo <= t[a]
  }

  /** every element but the last is below s */
  ghost predicate AllButLastBelow(t: seq<nat>, s: nat)
  {
    forall a :: 0 <= a < |t| - 1 ==> t[a] < s
  }

  /** The survivors from i on are strictly ascending, at least i and only the last may reach s. */
  lemma {:induction false} SurvivorsOrder(marks: set<nat>, i: nat, s: nat)
    ensures Ascending(Survivors(marks, i, s))
    ensures AllAtLeast(Survivors(marks, i, s), i)
    ensures AllButLastBelow(Survivors(marks, i, s), s)
    decreases s - i
  {
    if i < s {
      SurvivorsOrder(marks, i + 6, s);
      var head := Keep(marks, i) + Keep(marks, i + 2);
      var rest := Survivors(marks, i + 6, s);
      assert head + rest == Survivors(marks, i, s);
      ConcatAscending(head, rest, i, i + 2, i + 6);
      assert |rest| > 0 ==> i + 6 < s;
      ConcatBelow(head, rest, s);
    }
  }

  /**
   * A short ascending head of elements in [lo, hi] followed by an ascending
   * rest of elements >= mid > hi is ascending and at least lo.
   */
  lemma ConcatAscending(head: seq<nat>, rest: seq<nat>, lo: nat, hi: nat, mid: nat)
    requires Ascending(head) && AllAtLeast(head, lo) && lo <= hi < mid
    requires forall a :: 0 <= a < |head| ==> head[a] <= hi
    requires Ascending(rest) && AllAtLeast(rest, mid)
    ensures Ascending(head + rest) && AllAtLeast(head + rest, lo)
  {
    var t := head + rest;
    assert forall a :: |head| <= a < |t| ==> t[a] == rest[a - |head|];
    assert forall a :: 0 <= a < |head| ==> t[a] == head[a];
  }

  /**
   * Only the last element of head + rest can reach s when that holds of
   * rest, and of head, whose elements are all below s if rest is not empty.
   */
  lemma ConcatBelow(head: seq<nat>, rest: seq<nat>, s: nat)
    requires AllButLastBelow(head, s) && AllButLastBelow(rest, s)
    requires |rest| > 0 ==> forall a :: 0 <= a < |head| ==> head[a] < s
    ensures AllButLastBelow(head + rest, s)
  {
    var t := head + rest;
    forall a | 0 <= a < |t| - 1
      ensures t[a] < s
    {
      if a >= |head| {
        assert t[a] == rest[a - |head|];
      } else {
        assert t[a] == head[a];
      }
    }
  }

  /** A prime other than 2 and 3 is of the form 6k +/- 1. */
  lemma PrimeMod6(q: nat)
    requires IsPrime(q) && q >= 5
    ensures q % 6 == 1 || q % 6 == 5
  {
    assert q % 2 != 0 && q % 3 != 0;
    var a, r := q / 6, q % 6;
    assert q == (3 * a) * 2 + r && q == (2 * a) * 3 + r;
    ModOfMultiple(3 * a, 2, r);
    ModOfMultiple(2 * a, 3, r);
  }

  /** A non-prime c >= 2 has a divisor d >= 2 with d * d <= c. */
  lemma SmallDivisor(c: nat) returns (d: nat)
    requires c >= 2 && !IsPrime(c)
    ensures 2 <= d && d * d <= c && c % d == 0
  {
    var e :| 2 <= e < c && c % e == 0;
    if e * e <= c {
      return e;
    }
    d := Cofactor(c, e);
  }

  /** The cofactor c / e of a large divisor e (e * e > c) is a small one. */
  lemma Cofactor(c: nat, e: nat) returns (m: nat)
    requires 2 <= e < c && c % e == 0 && e * e > c
    ensures 2 <= m && m * m <= c && c % m == 0
  {
    m := c / e;
    assert c == m * e;
    CofactorBounds(c, e, m);
    MulMonotone(e, m, m);
    DivModUnique(e, m, 0);
  }

  lemma CofactorBounds(c: nat, e: nat, m: nat)
    requires 2 <= e < c && c == m * e && e * e > c
    ensures 2 <= m < e
  {
    if m >= e {
      MulMonotone(m, e, e);
    }
  }

  /** A prime q in [5, s) is an unmarked probe of a sound sieve. */
  lemma PrimeIsSurvivor(marks: set<nat>, s: nat, q: nat)
    requires Sound(marks) && IsPrime(q) && 5 <= q < s
    ensures q in Survivors(marks, 5, s)
  {
    PrimeMod6(q);
    SurvivorsMember(marks, 5, s, q);
  }

  /** An unmarked position x < s of a sieve complete up to b with b*b > s is prime. */
  lemma UnmarkedIsPrime(marks: set<nat>, s: nat, b: nat, x: nat)
    requires CompleteBelow(marks, s, b) && b * b > s
    requires 2 <= x < s && x !in marks
    ensures IsPrime(x)
  {
    if !IsPrime(x) {
      var d := SmallDivisor(x);
      if d >= b {
        MulMonotone(d, b, d);
        MulMonotone(d, b, b);
      }
      assert DividesBy(x, d);
    }
  }

  /** The table starts 2, 3, is strictly ascending and only its last entry can reach s >= 4. */
  lemma TableOrder(marks: set<nat>, s: nat)
    ensures var t := Table(marks, s);
      |t| >= 2 && t[0] == 2 && t[1] == 3 && Ascending(t) && (s >= 4 ==> AllButLastBelow(t, s))
  {
    var sv := Survivors(marks, 5, s);
    SurvivorsOrder(marks, 5, s);
    ConcatAscending([2, 3], sv, 2, 3, 5);
    if s >= 4 {
      ConcatBelow([2, 3], sv, s);
    }
  }

  /** After 2 and 3 the table holds unmarked probe positions only. */
  lemma TableProbes(marks: set<nat>, s: nat)
    ensures var t := Table(marks, s);
      forall j :: 2 <= j < |t| ==> IsProbe(t[j], s) && t[j] !in marks
  {
    var t := Table(marks, s);
    var sv := Survivors(marks, 5, s);
    forall j | 2 <= j < |t|
      ensures IsProbe(t[j], s) && t[j] !in marks
    {
      assert t[j] == sv[j - 2];
      SurvivorsMember(marks, 5, s, t[j]);
    }
  }

  /** Every entry below s of the table of a sieve complete up to b, b*b > s, is prime. */
  lemma TablePrimes(marks: set<nat>, s: nat, b: nat)
    requires CompleteBelow(marks, s, b) && b * b > s
    ensures var t := Table(marks, s);
      forall j :: 0 <= j < |t| && t[j] < s ==> IsPrime(t[j])
  {
    var t := Table(marks, s);
    TableProbes(marks, s);
    forall j | 0 <= j < |t| && t[j] < s
      ensures IsPrime(t[j])
    {
      if j >= 2 {
        UnmarkedIsPrime(marks, s, b, t[j]);
      } else {
        assert t[j] == 2 || t[j] == 3;
      }
    }
  }

  /** The table of a sound sieve holds every prime below s. */
  lemma TableComplete(marks: set<nat>, s: nat)
    requires Sound(marks)
    ensures forall q: nat :: q < s && IsPrime(q) ==> q in Table(marks, s)
  {
    var t := Table(marks, s);
    assert t[0] == 2 && t[1] == 3;
    assert !IsPrime(4) by { assert 4 % 2 == 0; }
    forall q: nat | q < s && IsPrime(q)
      ensures q in t
    {
      if q >= 5 {
        PrimeIsSurvivor(marks, s, q);
        assert t == [2, 3] + Survivors(marks, 5, s);
      }
    }
  }

  // ---------------------------------------------------------------------
  // Primorials

  /**
   * `primorial`: the product of the table entries in [start, end), 1 for
   * an empty range.
   */
  method Primorial(primes: seq<nat>, start: nat, end: nat) returns (r: nat)
    requires start >= end || end <= |primes|
    ensures r == if start < end then Product(primes[start..end]) else 1
  {
    r := 1;
    var i := start;
    while i < end
      invariant start <= i && (start < end ==> i <= end)
      invariant start < end ==> r == Product(primes[start..i])
      invariant start >= end ==> r == 1
      decreases end - i
    {
      ProductAppend(primes[start..i], primes[i]);
      assert primes[start..i + 1] == primes[start..i] + [primes[i]];
      r := r * primes[i];
      i := i + 1;
    }
  }

  /**
   * `int_primorial`: the product of the first `end` entries in 32-bit
   * unsigned arithmetic, i.e. reduced mod 2^32.
   */
  method IntPrimorial(primes: seq<nat>, end: nat) returns (r: nat)
    requires end <= |primes|
    ensures r == Product(primes[..end]) % 0x1_0000_0000
    ensures r < 0x1_0000_0000
  {
    r := 1;
    var i := 0;
    while i < end
      invariant i <= end
      invariant r == Product(primes[..i]) % 0x1_0000_0000
    {
      ProductAppend(primes[..i], primes[i]);
      assert primes[..i + 1] == primes[..i] + [primes[i]];
      MulModLeft(Product(primes[..i]), primes[i], 0x1_0000_0000);
      r := (r * primes[i]) % 0x1_0000_0000;
      i := i + 1;
    }
  }
}
