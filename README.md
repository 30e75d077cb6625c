# XPMiner core in Dafny

XPMiner is a pool miner for Primecoin. For a block header it searches for a
SHA-256d hash H0 whose value is divisible by a small primorial. It then
sieves the multiples `k·H` of `H = H0·primorial` for candidates that can
start a Cunningham chain of the first kind (`k·H·2^i − 1` for 0 ≤ i < L), of
the second kind (`k·H·2^i + 1`), or a bi-twin chain. It tests the surviving
candidates with Fermat and Euler–Lagrange–Lifchitz tests and sends every
chain of at least the pool's share length to the pool.

This project models that core and proves properties of the model:

- **`Numbers`**: integer facts. `numbers.dfy` models powers of two,
  modular exponentiation (GMP's `mpz_powm`), the integer square root, the
  greatest common divisor and primality.
- **`Inverse`**: the extended Euclidean algorithm of `invert` as a pure
  function, and the proof that it yields the inverse modulo a prime.
- **`SieveIndex`**: the word, bit and byte index macros of `src/sieve.h`,
  on 32-bit vectors, in both the 32-bit and the 64-bit build. It also
  holds the modular algebra of that file's design comment, as lemmas.
- **`PrimeTests`**: `src/prime-tests.h`, with unbounded `nat`s in place of
  GMP integers. This covers the Fermat and Euler–Lagrange–Lifchitz tests,
  the Cunningham chain length (a loop bounded by `MAX_CHAIN_LENGTH` = 32),
  the bi-twin rule, the cc1 and cc2 wrappers, the fractional length and
  the 8.24 difficulty packing.
- **`PrimeTable`**: `src/prime-table.c`. It sieves 6k±1 positions into a
  byte array of bit flags, counts and collects the survivors, and computes
  the primorials.
- **`Block`**: `src/block.h` and `src/block.c`. The 128-byte packed header
  is a class with its fields. The module also holds the little-endian
  conversions of `mpz_import`/`mpz_export`, `header_set_null`,
  `header_set_time` and the nonce/time stepping and stop condition of
  `mine_header_hash`. SHA-256 is a function parameter.
- **`SieveSpec`**: the specification of the sieve.
  - A sieve word (64 bits, the default build) is the set of positions of
    its one bits.
  - `LayerWord` is the set of candidate positions marked by some prime in
    one layer.
  - `Accum` is the union of a range of layers.
  - `TwnWord` and `MaskWord` are the bi-twin word and the final candidate
    word.
  - `Cc1Table` and `Cc2Table` are the offset tables that
    `calc_multipliers` computes for a primorial multiple H.
  - Each level is tied to divisibility of `k·H·2^l ∓ 1` by the sieving
    primes.
- **`SieveBlock`** and **`Sieve`**: `src/sieve.c` as a `Sieve` class over
  arrays. This covers `invert`, `reinit_sieve`, `calc_multipliers`,
  `sieve_from_to`, the block, layer and extension loops of `sieve_run`,
  the final masks and `test_candidates`. `sieve_run` is proved to leave
  exactly the words that `SieveSpec` defines.
- **`Candidates`**: the specification of `test_candidates`. It gives the
  classification of each clear bit, the statistics and the shares built.
- **`SieveCheck`**: the debugging self-checks of `c/src/tests.c`:
  `check_mulltiplier`, the naive reference sieve and `check_sieve`,
  `ary_eql` and `check_primes`. They are proved to pass after `sieve_run`
  (`SieveRunChecked`). This makes the naive whole-range sieve the
  reference specification of the cache-blocked one.
- **`Net`**: the pure data handling of `src/net.c`. This is the FIFO
  linked list of pending shares, the share-reply classifier with its
  consecutive-reject counter, the time offset of received work, and the
  byte layout of the hello message.

All source paths below are relative to the repository root. The sieve
needs the following of its configuration (`SieveSpec.Valid`):

- a chain length of at least 2, because `chain_length / 2 - 1`
  underflows at src/sieve.c:195 for 1;
- a whole, even number of words, with blocks that tile each half;
- `sieve_size` plus every sieving prime below 2^32;
- `(p−1)² < 2^32` for the prime indexes below `int64_arithmetic`;
- `use_first_half` only without extensions;
- `(sieve_size − 1)·2^extensions < 2^64`, so that the 64-bit shift
  `(word_bits·i + bit) << extension` does not wrap.

## Model

| member | source | states |
|---|---|---|
| Numbers.ModPow | src/prime-tests.h:108-120 | modular exponentiation (`mpz_powm`) yields a residue below the modulus |
| Numbers.ModPowIsPowMod | src/prime-tests.h:108-120 | square-and-multiply equals `b^e mod m` for every base, exponent and modulus |
| Numbers.ISqrt | src/prime-table.c:131 | the integer square root r satisfies r² ≤ n < (r+1)² |
| Numbers.Pow2Add | src/sieve.h:155-162 | 2^(a+b) = 2^a·2^b, the layer step of the multiples 2^l·H |
| Numbers.GcdDivides | src/sieve.c:268-308 | the gcd is positive and divides both arguments |
| Numbers.PrimeGcd | src/sieve.c:268-308 | a prime and a residue it does not divide are coprime |
| Numbers.OddNotDividesPow2 | src/prime-tests.h:126-174 | an odd n > 1 never divides a power of two |
| Numbers.ProductAppend | src/prime-table.c:166-176 | the product of primes grows by one factor per prime |
| Inverse.InverseOf | src/sieve.c:268-308 | the result of the extended Euclid, mapped into [0,p), is below p |
| Inverse.EuclidSpec | src/sieve.c:268-308 | the Euclid coefficient stays in (−p,p) and is an inverse of a mod p |
| Inverse.EuclidStep | src/sieve.c:268-308 | one division step keeps the Bézout invariant and the coefficient bounds |
| Inverse.InverseSpec | src/sieve.c:268-308 | for prime p and a not divisible by p, `(a·inverse) mod p = 1` |
| Inverse.InverseResidue | src/sieve.h:109-126 | with f the inverse of g mod p, x·g ≡ 1 exactly when x ≡ f |
| Inverse.InverseMinusOne | src/sieve.c:559-562 | with f the inverse, x·g + 1 ≡ 0 exactly when x ≡ p − f (the cc2 offset) |
| Inverse.MinusOneResidue | src/sieve.c:559-562 | x·K ≡ 1 mod p exactly on the progression of the cc1 offset |
| Inverse.PlusOneResidue | src/sieve.c:559-562 | x·K + 1 ≡ 0 mod p exactly on the progression of the cc2 offset, which is non-zero |
| Inverse.DividesNeither | src/sieve.c:586-587 | a prime dividing H divides no x·H·m ∓ 1, which is why it is skipped |
| Sieve.Invert | src/sieve.c:268-308 | the loop of `invert` returns exactly the pure extended-Euclid inverse |
| Sieve.InvertIsInverse | src/sieve.c:268-308 | for prime p and 0 < a < p the result x satisfies x < p and a·x ≡ 1 |
| SieveIndex.Index64Split | src/sieve.h:54-63 | in the 64-bit build word_index(i)·64 + bit_index(i) = i, with bit_index(i) < 64 and the two equal to i/64 and i%64 |
| SieveIndex.Index32Split | src/sieve.h:38-47 | in the 32-bit build word_index(i)·32 + bit_index(i) = i, with bit_index(i) < 32 and the two equal to i/32 and i%32 |
| SieveIndex.ByteIndexIsDiv | src/sieve.h:67 | byte_index(i) = i div 8 |
| SieveIndex.CacheBytesCoverWords | src/sieve.c:190-191 | `cache_bytes` equals 8·`cache_words` exactly when cache_bits mod 64 < 8, so in particular for whole words |
| SieveIndex.InverseProgression | src/sieve.h:109-126 | if i is the inverse of H mod p then H·(i + n·p) ≡ 1 for every n |
| SieveIndex.HalvingInverse | src/sieve.h:128-146 | if i is the inverse for H and t the inverse of 2, then (t·i) mod p is the inverse for 2H |
| SieveIndex.HalvingStep | src/sieve.c:596-616 | the same step written with the residues the loop keeps |
| PrimeTests.FractionalOneIsPow2 | src/prime-tests.h:43-48 | the unit of the fractional part is 2^24 and the mask is 2^24 − 1 |
| PrimeTests.DifficultyRoundTrip | src/prime-tests.h:53-59 | packing len < 256 and frac < 2^24 as (len<<24)+frac fits 32 bits, and `chain_length` and `fractional_length` give both back |
| PrimeTests.DifficultySplit | src/prime-tests.h:53-59 | every 32-bit difficulty is the packing of its two parts |
| PrimeTests.FermatTestSpec | src/prime-tests.h:108-120 | `fermat_test(p)` holds iff 2^(p−1) mod p = 1 |
| PrimeTests.EllTestSpec | src/prime-tests.h:187-234 | the Euler–Lagrange–Lifchitz test by kind and by n mod 8, and false for every other residue |
| PrimeTests.NextTerm | src/prime-tests.h:245-286 | the next chain term 2n ∓ 1 of a positive term is positive |
| PrimeTests.Term | src/prime-tests.h:245-286 | every term of the chain starting at p is positive |
| PrimeTests.CunninghamChainTest | src/prime-tests.h:245-286 | the loop of `cunningham_chain_test` returns the chain length function |
| PrimeTests.PassingRunSpec | src/prime-tests.h:264-284 | the run of passing terms is bounded by the fuel, every term in it passes, and the term after it fails |
| PrimeTests.CunninghamLengthSpec | src/prime-tests.h:245-286 | the length is 0 iff p fails Fermat, is at most 32, and otherwise terms 2..k pass and term k+1 fails |
| PrimeTests.Cc1ChainTest | src/prime-tests.h:328-334 | tests origin − 1 as a chain of the first kind |
| PrimeTests.Cc2ChainTest | src/prime-tests.h:342-348 | tests origin + 1 as a chain of the second kind |
| PrimeTests.TwnRule | src/prime-tests.h:294-321 | the bi-twin length is the longest alternation the two lengths carry: ⌈r/2⌉ ≤ len1 and ⌊r/2⌋ ≤ len2, and r + 1 does not fit both |
| PrimeTests.TwnChainTest | src/prime-tests.h:294-321 | returns the bi-twin length, which is 0 exactly when the first-kind length at origin − 1 is below 2 (origin + 1 is then not tested) |
| PrimeTests.TwnLengthBound | src/prime-tests.h:294-321 | a bi-twin length is at most 2·32 + 1 |
| PrimeTests.FractionalModulusFacts | src/prime-tests.h:126-174 | the modulus n of the fractional length is positive, and odd for an even origin |
| PrimeTests.GetFractionalLengthSpec | src/prime-tests.h:126-174 | the result is ⌊(n − 2^(n−1) mod n)·2^24 / n⌋, at most 2^24, and below 2^24 for odd n > 1 |
| PrimeTable.MarkSetSpec | src/prime-table.c:41-46 | a position is in the mark set iff its bit is set in the byte array |
| PrimeTable.EmptyMarkSet | src/prime-table.c:126 | a calloc'd byte array marks nothing |
| PrimeTable.CoversSize | src/prime-table.c:126 | `sieve_size/8 + 6` bytes hold every position the sieve and the probes read |
| PrimeTable.SetBit | src/prime-table.c:31 | `set_bit` adds exactly position k to the mark set |
| PrimeTable.CrossOff | src/prime-table.c:139-140 | the inner loop adds exactly the multiples of i from i² below the size |
| PrimeTable.MultipleNotPrime | src/prime-table.c:139-156 | only composites are crossed off |
| PrimeTable.ExtendBySieve | src/prime-table.c:146-157 | crossing off the multiples of b extends the completeness bound from b to b + 1 |
| PrimeTable.ExtendBound | src/prime-table.c:146-157 | a composite b needs no crossing off to extend the bound |
| PrimeTable.CrossOffSound | src/prime-table.c:139-156 | crossing off multiples from i² keeps every marked position composite or below 2 |
| PrimeTable.SieveSmall | src/prime-table.c:133-140 | marking 0 and 1 and sieving 2 and 3 leaves a sound mark set complete below 5 |
| PrimeTable.ProbeStep | src/prime-table.c:149-156 | testing one probe keeps the marks sound and extends completeness by one |
| PrimeTable.ProbePair | src/prime-table.c:146-157 | one pass of the 6k±1 loop extends completeness by six |
| PrimeTable.PairResidues | src/prime-table.c:142-146 | the positions between the probes 6k−1 and 6k+1 of a pass are not prime |
| PrimeTable.PastLimit | src/prime-table.c:131 | probes from ⌊√s⌋ + 1 on have a square above s |
| PrimeTable.SieveTable | src/prime-table.c:123-157 | the byte array leaves a sound mark set, complete up to a bound whose square exceeds the size |
| PrimeTable.UnmarkedIsPrime | src/prime-table.c:123-157 | after the sieve an unmarked position in [2,s) is prime |
| PrimeTable.CountSieve | src/prime-table.c:56-77 | `count_sieve` returns exactly the length of the table `save_primes` writes |
| PrimeTable.SavePrimes | src/prime-table.c:82-114 | `save_primes` writes exactly 2, 3 and the unmarked probes in order |
| PrimeTable.SavePair | src/prime-table.c:101-114 | one pass appends the unmarked probes 6k−1 and 6k+1 |
| PrimeTable.SaveProbe | src/prime-table.c:104-113 | one probe is written exactly when it is unmarked |
| PrimeTable.SurvivorsMember | src/prime-table.c:101-114 | a value is collected iff it is an unmarked 6k±1 probe at or after the start |
| PrimeTable.SurvivorsOrder | src/prime-table.c:101-114 | collected probes ascend, and all but the last lie below the size |
| PrimeTable.TableOrder | src/prime-table.c:93-114 | the table starts 2, 3 and ascends strictly, and for size ≥ 4 all but the last entry lie below the size |
| PrimeTable.TableProbes | src/prime-table.c:101-114 | after index 1 every entry is an unmarked 6k±1 probe |
| PrimeTable.TablePrimes | src/prime-table.c:101-114 | every entry below the size is prime |
| PrimeTable.TableComplete | src/prime-table.c:101-114 | every prime below the size is in the table |
| PrimeTable.PrimeIsSurvivor | src/prime-table.c:101-114 | a prime from 5 to the size is never marked and is collected |
| PrimeTable.PrimeMod6 | src/prime-table.c:97-100 | every prime from 5 on is 1 or 5 mod 6 |
| PrimeTable.SmallDivisor | src/prime-table.c:146 | a composite has a divisor whose square does not exceed it |
| PrimeTable.GenPrimeTable | src/prime-table.c:123-160 | the table starts 2, 3, ascends strictly, holds every prime below the size, has only primes below the size, and after index 1 only 6k±1 values, at most the last of which reaches the size |
| PrimeTable.Primorial | src/prime-table.c:166-176 | the product of primes[start..end), and 1 for an empty range |
| PrimeTable.IntPrimorial | src/prime-table.c:182-189 | the product of the first `end` primes mod 2^32 |
| Block.FromLEBound | src/block.h:89-90 | an imported n-byte value is below 256^n |
| Block.FromLEAppend | src/block.h:89-90 | importing a concatenation adds the second part shifted by the first's length |
| Block.LERoundTrip | src/block.h:58-70 | writing a value below 256^n as n little-endian bytes and reading it back gives the value |
| Block.LEOfFromLE | src/block.h:58-70 | reading n bytes and writing them back gives the bytes |
| Block.ToLERoundTrip | src/block.h:95-96 | `mpz_to_ary` writes the minimal bytes (last one non-zero) and importing them gives the value |
| Block.ToLEOfFromLE | src/block.h:95-96 | a byte string without a zero last byte is the export of its import |
| Block.ToLELength | src/block.h:95-96 | the export has at most n bytes iff the value is below 256^n |
| Block.FromLEPositive | src/block.h:95-96 | a value with a non-zero last byte is positive |
| Block.HashBound | src/block.h:89-90 | `mpz_set_sha256` of a 32-byte digest is below 2^256 |
| Block.TopBitSetIff | src/block.c:113 | `hash[31] & 0x80` is set iff the byte is at least 128 |
| Block.TopBitMeansLarge | src/block.c:112-116 | the top bit of `hash[31]` is set iff the imported hash is at least 2^255 |
| Block.Header.constructor | src/block.h:58-70 | a valid header with every field and byte zero |
| Block.Header.SetNull | src/block.c:31-41 | version 2, time, difficulty and nonce 0, both hashes and the multiplier bytes zero, `multiplier_length` unchanged |
| Block.Header.SetTime | src/block.c:72-80 | sets `time` to offset + the next multiple of n_threads after now + cur_thread, mod 2^32, and changes nothing else |
| Block.Zeros | src/block.c:38-40 | memset: n zero bytes |
| Block.HeaderLayout | src/block.h:37-70 | the packed bytes are 128 long, with version, the two hashes, time, difficulty, nonce, length byte and multiplier at offsets 0, 4, 36, 68, 72, 76, 80, 81 |
| Block.HeaderFieldValues | src/block.h:58-70 | reading each little-endian field back gives its value |
| Block.HashInputIsPrefix | src/block.c:46-65 | the hashed input is exactly the 80-byte prefix from version through nonce |
| Block.NextMultiple | src/block.c:78 | ((now + n)/n)·n is a multiple of n strictly after now and at most n later |
| Block.ThreadTimesDistinct | src/block.c:72-80 | distinct thread ids below n_threads get distinct times |
| Block.AdvanceNonce | src/block.c:100-108 | after k steps the nonce is the start nonce + k mod 2^32 |
| Block.AdvanceTime | src/block.c:100-108 | after k steps n_threads has been added to the time once per wrap of the nonce |
| Block.TimeStep | src/block.c:101-108 | a step adds n_threads to the time exactly when the nonce was UINT32_MAX |
| Block.StampStep | src/block.c:100-108 | one more step keeps the time equal to the start time plus n_threads per wrap |
| Block.AdvanceDistinct | src/block.c:98-120 | fewer than 2^32 steps never revisit a (time, nonce) pair |
| Block.CheckHash | src/block.c:110-119 | a top-bit digest replaces the hash and its remainder, any other leaves both; a zero remainder is the old one or a top-bit hash divisible by `hash_primorial` |
| Block.NextNonce | src/block.c:100-108 | steps (time, nonce) once and changes nothing else |
| Block.MineHeaderHash | src/block.c:92-121 | runs at least once, steps (time, nonce) once per pass, changes only them and the hash; if stopped with `running` set, the last hash is that of the header left, at least 2^255 and divisible by `hash_primorial` |
| Block.ReminderTruncation | src/block.c:95 | with 5 primes in the hash an 8-bit remainder reads a top-bit hash with remainder 256 as 0 |
| SieveSpec.LiftSpec | src/sieve.c:429-431 | the lifted offset lies on the progression, at or after the start, and is its least element there |
| SieveSpec.LiftUnique | src/sieve.c:429-431 | the least element of the progression from t on is unique |
| SieveSpec.LiftMarks | src/sieve.c:429-438 | lifting does not change which positions from t on are on the progression |
| SieveSpec.LiftLift | src/sieve.c:440-441 | lifting to s and then to t ≥ s is lifting to t, so stored offsets stay right block after block |
| SieveSpec.SentinelInert | src/sieve.c:338-339 | a sentinel entry 0xFFFFFFFF stays the sentinel and marks no position below it |
| SieveSpec.PrimeMarksIff | src/sieve.c:420-442 | a bit is marked by the primes below hi iff one of them has the position on its progression |
| SieveSpec.LayerWordIff | src/sieve.c:420-442 | a bit of the layer word is set iff some sieving prime marks its position |
| SieveSpec.LayerWordLifted | src/sieve.c:427-441 | a table lifted to the start of a word gives the same layer words from there on |
| SieveSpec.AccumIff | src/sieve.c:731-736 | a bit of the accumulated word is set iff it is set in one of the layers |
| SieveSpec.VectorStep | src/sieve.c:731-764 | layer n is ORed into the vector of extension x exactly when x ≤ n < x + L |
| SieveSpec.TwnStep | src/sieve.c:739-746 | one layer of the bi-twin rule (copy at `twn_cc2_layers`, OR at `twn_cc1_layers`) takes the twin state to the next layer |
| SieveSpec.VectorsDone | src/sieve.c:724-782 | after all layers the vectors are the unions of layers x..x+L−1 and the twin word |
| SieveSpec.RefTwnLow | c/src/tests.c:414-421 | below L/2 layers the reference twin word is the union of the cc1 and cc2 layers so far |
| SieveSpec.RefTwnMiddle | c/src/tests.c:422-429 | from L/2 to (L+1)/2 layers only cc1 is added |
| SieveSpec.RefTwnHigh | c/src/tests.c:430-437 | later layers add nothing to the reference twin word |
| SieveSpec.RefTwnIsTwnWord | c/src/tests.c:385-438 | the reference twin rule (cc1 ∪ cc2 below L/2, cc1 up to (L+1)/2) gives the same word as the fast sieve's two snapshots |
| SieveSpec.LayerOffset | src/sieve.c:596-616 | each layer's offset is a residue below p |
| SieveSpec.Offset | src/sieve.c:584-605 | the cc1 offset of a sieved prime is below the prime |
| SieveSpec.Cc1Table | src/sieve.c:576-618 | the cc1 table has one row per prime and one entry per layer |
| SieveSpec.Cc2Table | src/sieve.c:576-618 | the cc2 table has the same shape |
| SieveSpec.LayerOffsetInverts | src/sieve.h:128-146 | halving the offset l times gives the inverse of K·2^l mod p |
| SieveSpec.OffsetInverts | src/sieve.c:576-618 | the layer-l offset is the inverse of H·2^l mod p |
| SieveSpec.Cc1PrimeExactly | src/sieve.h:100-107 | prime i marks x in layer l of the cc1 table iff p divides x·H·2^l − 1 |
| SieveSpec.Cc2PrimeExactly | src/sieve.h:100-107 | prime i marks x in the cc2 table iff p divides x·H·2^l + 1 |
| SieveSpec.LayerWordExactly | src/sieve.h:151-166 | a bit of a layer word is set iff some sieving prime divides the corresponding chain member |
| SieveSpec.AccumExactly | src/sieve.h:151-184 | a bit of an accumulated word is set iff some layer in the range has such a divisor |
| SieveSpec.NoDivisorIff | src/sieve.h:151-184 | the recursive "no divisor" predicates are the negated existentials |
| SieveSpec.MaskExactly | src/sieve.c:805-808 | a bit stays clear in the final mask iff the position has no sieving divisor in some whole cc1, cc2 or bi-twin chain |
| SieveSpec.TwinClear | src/sieve.c:739-746 | a bit is clear in the twin word iff no cc2 member below L/2 and no cc1 member below (L+1)/2 has a sieving divisor |
| SieveSpec.AccumClear | src/sieve.c:731-736 | a bit is clear in an accumulated word iff no layer in range has a divisor |
| SieveSpec.DoubledPosition | src/sieve.h:184-197 | position k in layer l+1 is marked iff position 2k in layer l is, for both tables, so the first half of an extension repeats the previous one |
| SieveSpec.ValidUsable | src/sieve.c:196-199 | under the prime conditions every sieving prime is usable |
| SieveSpec.PrimeOfValid | src/sieve.c:424-441 | a sieving prime is at least 2 and its offsets from the sieve size on stay below 2^32 |
| SieveSpec.ProgResidue | src/sieve.h:109-126 | the progression of a reduced offset f is the residue class of f |
| SieveBlock.ProgBelowStep | src/sieve.c:434-438 | one pass of the marking loop adds the bit of the current factor to its word |
| SieveBlock.ProgBelowAll | src/sieve.c:434-438 | once the factor passes a word, that word holds all of the progression's bits in it |
| SieveBlock.MarkProgression | src/sieve.c:429-438 | sets the progression's bits in [start,end) in their words, changes no word outside, and returns the least progression element ≥ end |
| SieveBlock.MarkStart | src/sieve.c:429-431 | the lift `factor += (start − factor + p − 1)/p·p` gives the least progression element ≥ start |
| SieveBlock.MarkOne | src/sieve.c:437 | `word_at |= bit_word` adds exactly one position to the words |
| SieveBlock.SieveFromTo | src/sieve.c:411-443 | clears the block's words and sets them to the layer word; every sieving entry of the layer is lifted to the least element ≥ end; nothing else changes |
| SieveBlock.SievePrime | src/sieve.c:421-441 | one prime adds its marks to the block and stores its lifted offset; no other entry changes |
| SieveBlock.MarksStep | src/sieve.c:427-441 | from an entry behind the block start, marking gives that prime's layer marks and the lifted offset |
| SieveBlock.OrInto | src/sieve.c:818-824 | ORs a source vector into a destination on [lo,hi) and leaves the rest |
| SieveBlock.OrPair | src/sieve.c:733-736 | ORs both layer buffers into cc1 and cc2 on the block |
| SieveBlock.CopyWords | src/sieve.c:740-741 | memcpy of a block of words |
| SieveBlock.OrRowPair | src/sieve.c:757-763 | ORs both layer buffers into one extension row on the block |
| SieveBlock.CopyRow | src/sieve.c:767-770 | memcpy of a block of one extension row |
| SieveBlock.OrRow | src/sieve.c:773-780 | ORs ext_cc1 into ext_twn on the block of one row |
| Sieve.Sieve.constructor | src/sieve.c:346-381 | allocates the buffers with their sizes, the flag clear, no statistics or shares |
| Sieve.Sieve.Reinit | src/sieve.c:321-341 | sets `active`, clears every vector except `ext_all`, sets every table entry to 0xFFFFFFFF |
| Sieve.ClearWords | src/sieve.c:325-328 | memset 0 of a vector: every word empty |
| Sieve.ClearVectors | src/sieve.c:325-328 | the four base vectors cleared |
| Sieve.ClearRows | src/sieve.c:330-332 | memset 0 of every extension row |
| Sieve.FillSentinel | src/sieve.c:338-339 | memset 0xFF of a table: every entry 0xFFFFFFFF |
| Sieve.Sieve.CalcMultipliers | src/sieve.c:564-634 | for a sieved prime every layer's cc1 entry is the inverse of H·2^l mod p and the cc2 entry p minus it; a prime dividing H keeps its entries |
| Sieve.Sieve.SieveTables | src/sieve.c:576-618 | after `reinit_sieve` the tables are exactly `Cc1Table` and `Cc2Table` on the sieving rows |
| Sieve.CalcRow | src/sieve.c:589-617 | one prime's row: offsets halved layer by layer, cc2 = p − cc1, other rows unchanged |
| Sieve.ProductFits | src/sieve.c:596-605 | below `int64_arithmetic` the 32-bit product of two residues does not wrap |
| Sieve.Sieve.ApplyBase | src/sieve.c:730-737 | layer n is ORed into cc1/cc2 exactly when n < L |
| Sieve.Sieve.ApplyTwin | src/sieve.c:739-746 | the twin vector is the cc2 snapshot at `twn_cc2_layers` ORed with cc1 at `twn_cc1_layers` |
| Sieve.Sieve.ApplyExtension | src/sieve.c:750-780 | one pass of the extension loop: extension e's chain and twin rows take layer n, the later extensions keep layer n − 1's state |
| Sieve.Sieve.ApplyExtChains | src/sieve.c:755-764 | layer n is ORed into extension e's cc1 and cc2 rows exactly when e < n ≤ e + L, and no other row changes |
| Sieve.Sieve.ApplyExtTwin | src/sieve.c:766-780 | the extension twin snapshots follow the same rule on n − (e+1) |
| Sieve.Sieve.ApplyExtensions | src/sieve.c:750-781 | every extension row takes its share of layer n |
| Sieve.ExtLayerIs | src/sieve.c:753 | the uint32 `ext_layer = l − (e+1)` equals t iff l = e + 1 + t, so the wrapped value never hits a twin layer early |
| Sieve.Sieve.SieveLayer | src/sieve.c:724-782 | sieving one layer of a block and applying it keeps the block's state for the next layer |
| Sieve.Sieve.SecondHalfLayer | src/sieve.c:724-782 | the same for a block of the second half, including the extensions |
| Sieve.Sieve.SecondHalfBlock | src/sieve.c:714-783 | all layers of one second-half block |
| Sieve.Sieve.FirstHalfLayer | src/sieve.c:684-709 | one layer of a first-half block (extension 0 only) |
| Sieve.Sieve.FirstHalfBlock | src/sieve.c:674-710 | all chain layers of one first-half block |
| Sieve.Sieve.FirstHalf | src/sieve.c:672-711 | with `use_first_half` the first half of the base vectors is finished |
| Sieve.Sieve.SecondHalf | src/sieve.c:713-783 | the second half of the base vectors and of every extension is finished, and the tables are lifted to `sieve_size` |
| Sieve.Sieve.BlockNext | src/sieve.c:714-722 | the state after a block is the start state of the next one |
| Sieve.Sieve.InitialBlock | src/sieve.c:672-722 | cleared vectors and the fresh tables form the start state |
| Sieve.Sieve.FinalVectors | src/sieve.c:713-783 | after the last block every vector word holds the union of its layers and the twin word |
| Sieve.Sieve.SieveVectors | src/sieve.c:672-782 | from cleared vectors and any tables, the block loops leave the unions of layers, the twin words, and the tables lifted to `sieve_size` |
| Sieve.Sieve.CombineBase | src/sieve.c:805-811 | `all[i] = cc1[i] & cc2[i] & twn[i]` for every word, with bit 0 of word 0 set |
| Sieve.Sieve.CombineExtensions | src/sieve.c:814-828 | extension finals on words from `sieve_words/2`, bit 0 of word 0 set, other words untouched, nothing when inactive |
| Sieve.Sieve.SieveMasks | src/sieve.c:672-828 | from cleared vectors and any tables, the block loops and the final ANDs leave every mask word equal to MaskWord of those tables (bit 0 of word 0 set) |
| Sieve.Sieve.SieveRun | src/sieve.c:646-828 | after `reinit_sieve` the base and extension vectors and masks are exactly the specification's words for H, and the tables are lifted to `sieve_size` |
| Sieve.Row | src/sieve.c:752 | one extension row `ext + e·sieve_words` as a sequence |
| Sieve.CombineRow | src/sieve.c:817-827 | one extension's final mask on its second half, bit 0 of word 0 set, other rows untouched |
| Sieve.LiftedBehind | src/sieve.c:440-441 | lifted tables are behind any later block start |
| Sieve.TableBehind | src/sieve.c:338-339 | the tables as calculated are behind every block start |
| Sieve.NextBlock | src/sieve.c:678-682 | blocks of `cache_bits` tile the range up to its end |
| Sieve.SieveLayerOf | src/sieve.c:727-728 | `sieve_from_to` on one layer buffer gives that layer's words for the block |
| Sieve.Sieve.TestCandidates | src/sieve.c:449-556 | while active, tests every clear bit from the first tested word on, as `TestRange` describes; when inactive nothing changes |
| Sieve.Sieve.TestWord | src/sieve.c:463-554 | one word: a full word is skipped, otherwise each bit in turn |
| Sieve.Sieve.TestBit | src/sieve.c:472-476 | one bit: a clear one is tested, a set one skipped |
| Sieve.Sieve.TestOne | src/sieve.c:477-552 | one clear bit: counts the test, runs the chain test, submits a share if found |
| Sieve.Sieve.ChainTest | src/sieve.c:490-516 | bi-twin if the twn bit is clear, else cc1 if the cc1 bit is clear, else cc2; the length of that test; one count in that histogram |
| Sieve.Sieve.Submit | src/sieve.c:519-551 | appends the share of a long enough chain whose multiplier fits 47 bytes, and nothing otherwise |
| Sieve.Sieve.TestRun | src/sieve.c:845-867 | tests the base vectors, then each extension row with its shift, while active |
| Sieve.Sieve.Run | src/sieve.c:646-867 | `sieve_run`: the masks of the specification, then the tally of testing them all |
| Sieve.Sieve.RunTallyFacts | src/sieve.c:845-867 | one test per candidate left in every mask; earlier shares kept; every new share comes from some candidate |
| Sieve.Sieve.ExtTallyTests | src/sieve.c:848-867 | the extension rows add one test per candidate left in them |
| Sieve.Sieve.ExtTallyGrows | src/sieve.c:848-867 | testing extension rows only appends shares |
| Sieve.Sieve.ExtTallyShares | src/sieve.c:848-867 | every share appended comes from a candidate of some extension row |
| Candidates.OriginAtLeast | src/sieve.c:482-485 | the origin H·(k << ext) is at least H for k ≥ 1 |
| Candidates.OriginEven | src/sieve.c:482-485 | the origin of an even H is even |
| Candidates.TestRangeStep | src/sieve.c:472-476 | testing one more position tests it iff its bit is clear, and position 0 is never clear |
| Candidates.TestRangeTests | src/sieve.c:477 | the test counter grows by the number of clear bits in the range |
| Candidates.TestRangeGrows | src/sieve.c:519-551 | shares are only appended |
| Candidates.TestRangeShares | src/sieve.c:519-551 | every appended share was found at a clear position in the range |
| Candidates.SkipFull | src/sieve.c:468 | a word with every bit set contributes nothing |
| Candidates.FoundSpec | src/sieve.c:519-551 | a share exists iff the length reaches `pool_share` and the multiplier fits 47 bytes; it then carries the kind, the packed difficulty, and the zero-padded minimal multiplier bytes and their count |
| Candidates.TestLengthBound | src/sieve.c:522 | every chain length fits the 8 bits of the difficulty's integer part |
| Candidates.PackedDifficulty | src/sieve.c:522-526 | the difficulty unpacks to the length and the fractional length |
| Candidates.PaddedMultiplier | src/sieve.c:535-546 | the zero-filled 47 bytes with the export at their start read back as the multiplier |
| Candidates.ShiftFits | src/sieve.c:485 | for every position below the sieve size and every extension up to `extensions`, the 64-bit shift `(word_bits·i + bit) << extension` stays below 2^64, so the unbounded origin and multiplier are the source's values |
| Candidates.FromLEZeros | src/block.h:89-90 | zero bytes import as 0 |
| SieveCheck.TableOf | c/src/tests.c:36-41 | the table of a multiplier array, entry by entry |
| SieveCheck.CheckProgression | c/src/tests.c:40-125 | true iff every progression member below `sieve_size` makes f·H·2^l ∓ 1 divisible by p |
| SieveCheck.CheckRow | c/src/tests.c:36-128 | true iff every layer of one prime passes, or the prime's layer-0 entry is the sentinel |
| SieveCheck.CheckTable | c/src/tests.c:36-128 | true iff every sieving prime's row passes |
| SieveCheck.CheckMultiplier | c/src/tests.c:18-131 | `check_mulltiplier` is true iff both tables pass |
| SieveCheck.MemberDivides | c/src/tests.c:60-120 | progression divisibility is divisibility of the chain members |
| SieveCheck.LayerPasses | src/sieve.c:576-618 | every entry `calc_multipliers` computes passes the check |
| SieveCheck.TablesPass | src/sieve.c:625-632 | `check_mulltiplier` holds on the tables for H |
| SieveCheck.HoldsOnRows | c/src/tests.c:36-128 | the check depends only on the sieving rows |
| SieveCheck.CalcMultipliersChecked | src/sieve.c:564-634 | `calc_multipliers` followed by its check: the tables are Cc1Table/Cc2Table and the check passes |
| SieveCheck.AryEql | c/src/tests.c:299-312 | true iff a[i] = b[i] for every i in [start,end) |
| SieveCheck.Reduced | c/src/tests.c:344-360 | reducing keeps the table's shape |
| SieveCheck.ReduceRow | c/src/tests.c:350-358 | one prime's entries reduced mod p except the sentinel, other rows unchanged |
| SieveCheck.ReduceCopies | c/src/tests.c:344-360 | fresh copies of both tables with every non-sentinel entry of a sieving prime reduced mod p |
| SieveCheck.SameTable | c/src/tests.c:344-360 | a copied array has the table it was copied from |
| SieveCheck.ReduceLifted | c/src/tests.c:350-358 | reducing a lifted offset or sentinel gives it back |
| SieveCheck.OffsetPositive | src/sieve.c:589 | the inverse offset of a sieved prime is non-zero |
| SieveCheck.ReduceRestores | c/src/tests.c:344-360 | reducing the tables left by `sieve_run` restores the tables computed at the start of the round |
| SieveCheck.AccumSameRows | c/src/tests.c:385-438 | tables equal on the sieving rows give equal accumulated words |
| SieveCheck.ReferenceMatches | c/src/tests.c:385-477 | the reference accumulation and twin rule on the reset tables equal the fast sieve's words |
| SieveCheck.TwinMatches | c/src/tests.c:385-438 | the reference twin word on equal tables equals the twin word |
| SieveCheck.RefSieveFromTo | c/src/tests.c:267-294 | the reference `sieve_from_to` clears the vector and leaves exactly the layer word, every position f + k·p below `sieve_size` |
| SieveCheck.RefApply | c/src/tests.c:411-438 | ORs the layers into cc1 and cc2, and into twn by the reference rule for layer j |
| SieveCheck.RefApplyRow | c/src/tests.c:443-476 | the same for one extension row; no other row changes |
| SieveCheck.RefTwnStep | c/src/tests.c:411-438 | the reference twin word grows by exactly that layer's part of the rule |
| SieveCheck.RefExtensionRow | c/src/tests.c:441-477 | one extension row takes layer l exactly when it lies in its range |
| SieveCheck.RefExtensions | c/src/tests.c:441-477 | every extension row takes its part of layer l |
| SieveCheck.RefLayer | c/src/tests.c:385-477 | one layer of the reference sieve, base and extensions |
| SieveCheck.RefSieve | c/src/tests.c:385-477 | the reference vectors are the unions of layers 0..L−1 and e+1..e+L with the twin rule |
| SieveCheck.NewVector | c/src/tests.c:375-383 | a fresh cleared vector (calloc) |
| SieveCheck.NewRows | c/src/tests.c:375-383 | a fresh matrix of cleared rows |
| SieveCheck.ReferenceVectors | c/src/tests.c:375-478 | fresh reference vectors that agree, word by word, with the specification on the tables |
| SieveCheck.RowAgrees | c/src/tests.c:441-477 | a reference row built by the reference sieve agrees with the specification |
| SieveCheck.CompareVectors | c/src/tests.c:482-496 | true iff the three vectors equal the reference on [lo, sieve_words) |
| SieveCheck.CompareRows | c/src/tests.c:498-522 | true iff every extension row equals the reference from `sieve_words/2` on |
| SieveCheck.Rows | c/src/tests.c:441-477 | the rows of a matrix as sequences |
| SieveCheck.CompareAll | c/src/tests.c:482-522 | true iff the base vectors agree from `start` and every extension row from `sieve_words/2` |
| SieveCheck.ResetTables | c/src/tests.c:344-372 | fresh reduced copies of both tables, with `check_mulltiplier` run on them |
| SieveCheck.CheckSieve | c/src/tests.c:318-522 | true iff the sieve's vectors are those of the reference sieve on the reset tables, with base words from 0 iff `use_first_half` |
| SieveCheck.RestoredAfterRun | c/src/tests.c:344-360 | after `sieve_run` the reset tables are the round's tables on the sieving rows |
| SieveCheck.BaseRunMatches | src/sieve.c:785-803 | the base vectors after `sieve_run` pass the base comparisons |
| SieveCheck.ExtRunMatches | src/sieve.c:785-803 | the extension rows after `sieve_run` pass the row comparisons |
| SieveCheck.VectorsMatch | c/src/tests.c:482-522 | base and extension words equal to the specification vectors agree with the reference vectors computed from tables that agree on the sieving primes |
| SieveCheck.SieveRunChecked | src/sieve.c:646-803 | after `reinit_sieve`, `check_mulltiplier` and `check_sieve` both pass where `sieve_run` calls them |
| SieveCheck.TrialDivision | c/src/tests.c:559-568 | true iff p has no divisor in [2, ⌊√p⌋ + 1] |
| SieveCheck.CheckPrimes | c/src/tests.c:546-582 | true iff primes[0] = 2 and every later entry passes trial division; bad inverses of 2 are only logged, and are all logged when it passes |
| SieveCheck.SqrtBelow | c/src/tests.c:559 | for p ≥ 3 the trial bound ⌊√p⌋ + 1 is below p |
| SieveCheck.SqrtBound | c/src/tests.c:559 | every d with d² ≤ p is at most ⌊√p⌋ |
| SieveCheck.TrialIsPrime | c/src/tests.c:557-568 | trial division passes iff p ≤ 1 or p is an odd prime |
| SieveCheck.PrimesCheckExactly | c/src/tests.c:546-582 | on entries ≥ 2, `check_primes` passes iff primes[0] = 2 and every later entry is an odd prime |
| Net.FifoE.constructor | src/net.c:60-64 | a share string with no successor |
| Net.ShareFifo.constructor | src/net.c:69-77 | an empty queue |
| Net.ShareFifo.Add | src/net.c:82-94 | appends e; on an empty queue start = end = e; otherwise the old end links to e and start is unchanged |
| Net.ShareFifo.Remove | src/net.c:99-112 | returns the oldest element and drops it; NULL on an empty queue; an emptied queue has start and end NULL |
| Net.Record | src/net.c:313-336 | one reply increments exactly its counter and the total by one |
| Net.RecordAllCounts | src/net.c:313-336 | after a run of replies each counter grows by the replies of its kind |
| Net.RecordAllTotal | src/net.c:313-336 | the total grows by the number of replies |
| Net.RejectedAfterAppend | src/net.c:314-336 | the reject counter is updated reply by reply |
| Net.RejectedIsTrailingRejects | src/net.c:314-336 | the reject counter is the number of trailing rejections |
| Net.TrailingAtLeast | src/net.c:314-336 | at least k trailing rejections iff the last k replies are 0 |
| Net.ReconnectIff | src/net.c:340-342 | from a fresh counter, a reconnect happens iff the last three replies are rejections and the one before them is not |
| Net.Client.constructor | src/net.c:249 | no statistics, counter 0, no pending shares |
| Net.Client.ShareInfo | src/net.c:299-343 | no reply or no pending share: −1 and nothing changes; otherwise the oldest share is dropped, one counter is incremented, the reject counter is incremented or reset, and a reconnect happens iff it is 3 |
| Net.TimeOffsetFor | src/net.c:282-285 | the offset brings the local time up to the work's time, or is 0 when the local time is later |
| Net.ThreadTimeAfterWork | src/net.c:282-285 | with that offset a thread's time is not before the work's time |
| Net.Settings | src/net.c:170-179 | the settings block is 19 bytes |
| Net.HelloBytes | src/net.c:158-183 | the hello message is `user_len + 23 + pwd_len` bytes |
| Net.SettingsLayout | src/net.c:170-179 | 0, version major and minor, threads, fee, then the u16 miner id and the u32 extensions, percentage and size, little-endian |
| Net.HelloLayout | src/net.c:160-183 | user length, user bytes, settings, password length, password bytes, trailing u16 zero |
| Net.Truncate | src/net.c:160-161 | the `uint8_t` lengths keep names shorter than 256 bytes whole |
| Net.SettingsRoundTrip | src/net.c:170-179 | the settings block decodes to the fields it encodes |
| Net.SettingsInverse | src/net.c:170-179 | a well-formed settings block is the encoding of its decoding |
| Net.HelloRoundTrip | src/net.c:158-183 | parsing a hello message gives back its (truncated) fields |
| Net.ParseHelloInverse | src/net.c:158-183 | every parsable byte string is the hello message of what it parses to |
| Net.CopyBytes | src/net.c:166-167 | memcpy into the buffer at an offset, the rest untouched |
| Net.WriteSettings | src/net.c:169-181 | writes the settings block at its offset, the rest untouched |
| Net.SendHello | src/net.c:158-183 | the buffer built in place is exactly the hello message |
| Net.HelloFromBytes | src/net.c:158-183 | a buffer with every part in place is the hello message |

## Left out

- Sockets, `send`/`recv`, retries, sleeps, `connect_to_pool` and the send
  loop of `submit_share` in src/net.c are I/O. The model takes each reply
  as an `Option` parameter, and a reconnect is the returned flag.
- Mutexes, threads, the `MINING_*` flags, the stats thread and signal
  handling are concurrency. No other thread clears `active` during a call.
- `running` in `mine_header_hash` is changed by another thread. The model
  gives it as a budget of loop tests.
- SHA-256 in `get_header_hash` is a foreign library. It is a function
  parameter applied twice to the hashed prefix.
- `time(NULL)` in src/block.c:78 and src/net.c:283 is a clock. The
  current time is a parameter.
- GMP is modelled by unbounded `nat`s. The `mpz_probab_prime_p` branch
  under `USE_GMP_MILLER_RABIN_TEST` (src/prime-tests.h:255-258, 279-282)
  is a foreign probabilistic routine and is not modelled.
- The floating-point `sqrt` in src/prime-table.c:131 and
  c/src/tests.c:559 is the integer square root `ISqrt`.
- Output, timing and options are not part of this model. That covers
  `print_sieve`, `gettime_usec`, `PRINT_TIME`, messages, src/verbose.h,
  src/options.h and src/main.c.
- `check_candidates` (c/src/tests.c:139-221) states no coherent property.
  It tests `(word & n) == 1` and starts its bit counter at 1.
  `check_ratio` (c/src/tests.c:228-260) is a statistical heuristic. Both
  are left out.
- `check_share` (src/sieve.c:549) is a debugging recomputation of a share
  through SHA-256. It is left out.
- The older prototypes under c/ and ruby/ are not part of this model.
- Sieve.Sieve.Reinit: `ext_all` is left as it was, as in the source, and
  only the second half of the extension masks is specified. The model
  therefore requires `use_first_half` to be false whenever there are
  extensions. Otherwise `test_candidates` would read unwritten words.
- Sieve.Sieve.SieveRun: requires `active` for the whole run (set by
  `reinit_sieve`). A sieve stopped by another thread is not modelled.
- Sieve.Sieve.CalcMultipliers: the uint32 overflow of offsets is not
  modelled. The configuration requires `sieve_size` plus each prime below
  2^32, and `(p−1)² < 2^32` below `int64_arithmetic`. Under these
  conditions nothing wraps.
- Candidates.ShiftFits: the 64-bit `k << extension` is not modelled as
  wrapping. Instead the configuration requires
  `(sieve_size − 1)·2^extensions < 2^64`, and under it nothing wraps.
- PrimeTable.GenPrimeTable: the uint32 wrap of `p += i` and of `i * i`
  is not modelled. The counters are unbounded, and they agree with the
  source while `sieve_size` stays below about 2^32 − 2^16.
- Sieve.Sieve.Submit: `mpz_to_ary` writes the multiplier into the
  47-byte `primemultiplier` buffer before the length check at
  src/sieve.c:541. A longer multiplier therefore overruns the buffer
  before it is rejected. The model only rejects it and does not model
  the out-of-bounds write.
- Sieve.Sieve.Submit: the `Share` record stands for the header's two
  multiplier fields (`primemultiplier`, `multiplier_length`), together
  with the chain kind and difficulty. `submit_share` (src/net.c:352-383)
  sends the whole 128-byte header and uses the kind and difficulty only
  in its log line. The header's multiplier bytes are cleared and
  rewritten even for a share that is then rejected (src/sieve.c:535-546),
  and the model does not track that rewrite.
- The `USE_32_BIT_WORDS` build (src/sieve.h:33-47): only its index macros
  are modelled (`SieveIndex.Index32Split`). The sieve itself is modelled
  with the default 64-bit words.
- Inverse.InverseOf: `invert` uses C `int` for the Euclid remainders. The
  model needs primes below 2^31, so that no negative remainder or
  overflow occurs.
- Candidates.FoundSpec: requires H even and greater than 2. H is a hash
  times a primorial, so the origin is itself even and greater than 2.
- Sieve.Sieve.TestOne: statistics histograms are maps from chain length
  to count, not the arrays of `MAX_CHAIN_LENGTH` entries. A bi-twin
  length up to 65 would overrun those arrays.
- PrimeTests.CunninghamChainTest: the loop is bounded by
  `MAX_CHAIN_LENGTH` = 32 tests, because termination cannot be shown for
  a pseudoprime test. For longer chains the length is capped at 32.
- SieveCheck.ResetTables: `check_sieve` ignores the result of its
  `check_mulltiplier` call, and so does the model.
- SieveCheck.CheckPrimes: a bad inverse of 2 is only logged, as in the
  source. The log is returned and its messages are not modelled.
- SieveCheck.TrialIsPrime: as written, 1 passes trial division, and so
  does any p ≤ 1. The entry 2 after index 0 fails, because 2 divides
  itself. The lemma states exactly that.
- SieveIndex.CacheBytesCoverWords: `cache_bytes = cache_words·8` holds
  exactly when `cache_bits mod 64 < 8`, not only for whole words. The
  lemma states that exact condition.
- Error messages, `errno_msg` on failed allocations and the memory
  management of `free` are not modelled.

## Findings

| source | as written | input that shows it | evidently intended | confidence | as-written member | corrected member |
|---|---|---|---|---|---|---|
| src/block.c:95 | `uint_fast8_t reminder` keeps only the low 8 bits of `mpz_tdiv_ui(hash, hash_primorial)` (`unsigned char` with glibc) | 5 primes in the hash (`hash_primorial` = 2310) and the top-bit hash 2^255 + 2138, whose remainder is 256: the truncated remainder is 0, so the loop stops on a hash not divisible by 2310 | keep the full remainder, so the loop stops only on a divisible hash | not executed | Block.ReminderTruncation | Block.MineHeaderHash |
