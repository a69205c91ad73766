# Quantum text similarity — a Dafny model

This project models the deterministic core of a small quantum text-similarity demo. The demo
has three parts:

- an encoder that turns a real vector into a statevector on a power-of-two number
  of amplitudes;
- a builder for the SWAP-test circuit that compares two such states, plus the arithmetic that
  turns the measured counts into `p0` and a clamped fidelity;
- a bag-of-words front end that tokenises two texts and builds a shared vocabulary ranked by
  document frequency, then turns each text into a term-frequency or binary vector over it.

There are five modules, one file each:

- `Results` (`results.dfy`): the error kinds the Python code raises, and a `Result` type.
- `PowersOfTwo` (`powers_of_two.dfy`): powers of two, `int.bit_length`, floor of `log2` on
  integers, and the facts that relate them.
- `Encoding` (`encoding.dfy`): `next_power_of_two`, `normalize_vector` and
  `vector_to_statevector`, all as pure functions on `seq<real>`.
- `SwapTest` (`swap_test.dfy`): the builder is a method that appends gates to a list in a
  loop, as the source does with its mutable circuit object. The counts-to-estimates
  reduction is a pure function.
- `TextFeatures` (`text_features.dfy`):
  - `tokenize` is a pure scan.
  - `build_vocab` is a method. Its two loops fill the `df` map and an insertion sort orders
    the keys. It is proved against the predicate `IsVocab`.
  - `vectorize` is a method that updates an `array` in place. It is proved equal to the
    function `FeatureVector`.
  - `text_to_vector` composes the three.

Python semantics that the model writes out explicitly:

- `1 << (n-1).bit_length()`.
- `int(math.log2(len))`, as an integer floor-log2. For length 0 it raises, which the model
  reports as `MathDomain`.
- Division by a zero shot count, reported as `DivisionByZero`.
- The dict comprehension `{w: i for i, w in enumerate(vocab)}`, where a later duplicate
  overwrites an earlier one.
- `dict.get`.
- Python's string `<`, ordering by code point.

Two edge cases where the model keeps the code's own behaviour:

- An empty pair of states is refused with `MathDomain`, because `math.log2(0)` raises before
  the power-of-two check runs.
- The model covers a vocabulary with repeated words through `Slot`, which takes the last
  index.

## Model

| member | source | states |
|---|---|---|
| PowersOfTwo.FloorLog2 | src/quantum_similarity/swap_test.py:17 | floor(log2 n), the k with 2^k <= n < 2^(k+1), which `int(math.log2(n))` gives on every power of two |
| PowersOfTwo.Pow2 | src/quantum_similarity/swap_test.py:18 | `2**n` and `1 << n`, at least 1; its meaning is stated by `Pow2IsPowerOfTwo`, `PowerOfTwoIsPow2` and `Pow2Injective` |
| PowersOfTwo.BitLength | src/quantum_similarity/encoding.py:8 | `int.bit_length`; `BitLengthBounds` states that it is the b with 2^(b-1) <= n < 2^b |
| PowersOfTwo.BitLengthBounds | src/quantum_similarity/encoding.py:8 | `bit_length` b of n >= 1 satisfies 2^(b-1) <= n < 2^b |
| PowersOfTwo.Pow2IsPowerOfTwo | src/quantum_similarity/swap_test.py:17-18 | 2^k is a power of two and its floor-log2 is k |
| PowersOfTwo.IsPowerOfTwoIff | src/quantum_similarity/swap_test.py:17-19 | the check `2**n == len` with n = floor(log2 len) holds exactly for powers of two |
| PowersOfTwo.PowerOfTwoIsPow2 | src/quantum_similarity/swap_test.py:17-18 | every power of two n equals 2^floor(log2 n) |
| PowersOfTwo.Pow2Injective | src/quantum_similarity/encoding.py:28 | distinct qubit counts give distinct lengths 2^n |
| Encoding.NextPowerOfTwo | src/quantum_similarity/encoding.py:5-8 | the result is a power of two; it is 1 for every n <= 1, including 0 and negatives; for n >= 1 it lies in [n, 2n) |
| Encoding.NextPowerOfTwoIsLeast | src/quantum_similarity/encoding.py:8 | no power of two >= n is smaller than the result, so it is the least one |
| Encoding.NextPowerOfTwoFixesPowers | src/quantum_similarity/encoding.py:8 | a power of two is returned unchanged, so its vector is not padded |
| Encoding.SumSquares | src/quantum_similarity/encoding.py:11 | the squared L2 norm, never negative; `SumSquaresZeroIff`, `PadKeepsSumSquares` and `ScaleSumSquares` state how it behaves |
| Encoding.SumSquaresZeroIff | src/quantum_similarity/encoding.py:11-12 | the squared norm is 0 exactly when every entry is 0 |
| Encoding.Pad | src/quantum_similarity/encoding.py:25-26 | the padded vector has the target length, keeps the input as its prefix and is 0 beyond it |
| Encoding.PadKeepsSumSquares | src/quantum_similarity/encoding.py:26-27 | padding with zeros leaves the squared norm unchanged |
| Encoding.PadFacts | src/quantum_similarity/encoding.py:26-27 | the padded vector is all zeros exactly when the input is |
| Encoding.Scale | src/quantum_similarity/encoding.py:14 | each entry of `vec / norm`, multiplied back by the norm, gives the input entry |
| Encoding.ScaleSumSquares | src/quantum_similarity/encoding.py:14 | dividing by c divides the squared norm by c^2 |
| Encoding.ScalePad | src/quantum_similarity/encoding.py:26-27 | normalising then padding equals padding then normalising |
| Encoding.Normalize | src/quantum_similarity/encoding.py:10-14 | fails with `ZeroVector` exactly when the vector is all zeros; otherwise returns the vector divided by its norm, which has unit norm |
| Encoding.VectorToStatevector | src/quantum_similarity/encoding.py:16-29 | fails with `ZeroVector` exactly when every input entry is 0; otherwise the amplitudes are the normalised input padded to `next_power_of_two(len)`, have unit norm, and 2^qubits equals their number |
| Encoding.EmptyVectorIsRefused | src/quantum_similarity/encoding.py:23-27 | the empty input pads to `[0.0]` and is refused as a zero vector |
| Encoding.EqualQubitCounts | src/quantum_similarity/encoding.py:24-28 | two encodings have equal qubit counts exactly when their lengths round up to the same power of two |
| Encoding.EncodeUnitVectorIsIdentity | src/quantum_similarity/encoding.py:24-27 | a unit vector of power-of-two length is encoded as itself |
| SwapTest.Range | src/quantum_similarity/swap_test.py:26-27 | `list(range(lo, hi))`: hi - lo entries in increasing order, holding exactly the numbers lo..hi-1 |
| SwapTest.RegisterA | src/quantum_similarity/swap_test.py:26 | `a_qubits = list(range(1, n + 1))`; `RegisterLayout` states that it holds n qubits, is disjoint from register B and avoids the ancilla |
| SwapTest.RegisterB | src/quantum_similarity/swap_test.py:27 | `b_qubits = list(range(n + 1, 2 * n + 1))`; `RegisterLayout` states that it holds n qubits, is disjoint from register A and avoids the ancilla |
| SwapTest.Ancilla | src/quantum_similarity/swap_test.py:33-43 | the ancilla, qubit 0; `RegisterLayout` states that it lies in neither register and that with them it covers 0..2n |
| SwapTest.SwapTestOps | src/quantum_similarity/swap_test.py:29-43 | the gate list the builder appends; `SwapTestOpsShape` states its gates one by one and `SwapTestCircuitWellFormed` its qubit bounds |
| SwapTest.BuildSwapTestCircuit | src/quantum_similarity/swap_test.py:8-45 | unequal lengths give `LengthMismatch`; empty states give `MathDomain`; a length that is not a power of two gives `NotPowerOfTwo`; it succeeds exactly when the lengths are equal and a power of two, and then builds a circuit with 1 + 2n qubits, 1 clbit and the SWAP-test gate list, where 2^n is the length |
| SwapTest.SwapTestOpsShape | src/quantum_similarity/swap_test.py:29-43 | the gate list has n + 5 gates: Init A, Init B, H(0), CSwap(0, 1+i, n+1+i) for i = 0..n-1 in order, H(0), Measure(0, 0) |
| SwapTest.RegisterLayout | src/quantum_similarity/swap_test.py:26-27 | registers A and B have n qubits each, are disjoint, avoid the ancilla, and with it cover 0..2n |
| SwapTest.SwapTestCircuitWellFormed | src/quantum_similarity/swap_test.py:22-43 | every gate addresses only qubits below 1 + 2n and the one classical bit, with distinct qubits per CSwap |
| SwapTest.Fidelity | src/quantum_similarity/swap_test.py:64 | the clamped fidelity lies in [0, 1] |
| SwapTest.FidelityPiecewise | src/quantum_similarity/swap_test.py:64 | the fidelity is 0 for p0 <= 1/2, 2*p0 - 1 for p0 in [1/2, 1], and 1 for p0 >= 1 |
| SwapTest.FidelityMonotone | src/quantum_similarity/swap_test.py:64 | the fidelity does not decrease as p0 grows |
| SwapTest.ZeroCount | src/quantum_similarity/swap_test.py:63 | `counts.get("0", 0)`; `Reduce` states that p0 * shots is this count and that a missing key gives p0 = 0 |
| SwapTest.Reduce | src/quantum_similarity/swap_test.py:63-64 | fails with `DivisionByZero` exactly when shots is 0; otherwise p0 * shots equals `counts.get("0", 0)`, a missing "0" key gives p0 = 0, p0 lies in [0, 1] when the zero count is at most shots, and the fidelity is the clamp of p0 |
| SwapTest.OverlapInUnitInterval | src/quantum_similarity/swap_test.py:65 | the overlap, a non-negative square root of the fidelity, lies in [0, 1] and is unique |
| SwapTest.SwapTestSimilarity | src/quantum_similarity/swap_test.py:58-64 | the builder's errors come first; on valid states the result is the reduction of the given counts |
| TextFeatures.Lower | src/quantum_similarity/text_features.py:9 | `lower()` maps a token character to a lower-case token character |
| TextFeatures.LowerAll | src/quantum_similarity/text_features.py:9 | `t.lower()` keeps the length, turns a run of token characters into lower-case token characters, maps `A-Z` to `a-z` and leaves every other character unchanged |
| TextFeatures.LowerAllIdempotent | src/quantum_similarity/text_features.py:9 | lower-casing a lower-cased string changes nothing |
| TextFeatures.IsTokenChar | src/quantum_similarity/text_features.py:6 | the character class `[A-Za-z0-9']` of `TOKEN_RE`; `TokenizeRun`, `TokenizeSeparator` and `TokenizeNoTokenChars` state how it splits a text |
| TextFeatures.Scan | src/quantum_similarity/text_features.py:6-9 | the left-to-right scan of `TOKEN_RE.findall`; `ScanYieldsTokens`, `ScanRun` and `ScanSeparator` state what it yields |
| TextFeatures.Tokenize | src/quantum_similarity/text_features.py:8-9 | `tokenize`; `TokenizeNoTokenChars` (no tokens without token characters, the empty text included), `TokenizeRun` (one run is one lower-cased token) and `TokenizeSeparator` (a separator splits) together fix its output as the lower-cased maximal runs, in order; `TokenizeYieldsTokens` states their shape |
| TextFeatures.TokenizeYieldsTokens | src/quantum_similarity/text_features.py:6-9 | every token is non-empty and made of `a-z`, `0-9` and `'` only |
| TextFeatures.TokenizeRun | src/quantum_similarity/text_features.py:6-9 | a non-empty run of token characters is exactly one token, its lower-cased self |
| TextFeatures.TokenizeSeparator | src/quantum_similarity/text_features.py:6-9 | a character outside `[A-Za-z0-9']` only separates: the tokens of s1 + c + s2 are those of s1 followed by those of s2 |
| TextFeatures.TokenizeNoTokenChars | src/quantum_similarity/text_features.py:6-9 | a text with no character of `[A-Za-z0-9']`, the empty text among them, has no tokens |
| TextFeatures.ScanYieldsTokens | src/quantum_similarity/text_features.py:6-9 | the scan behind `findall` yields only non-empty lower-case tokens |
| TextFeatures.ScanRun | src/quantum_similarity/text_features.py:6-9 | a run of token characters continues the match in progress up to the end |
| TextFeatures.ScanSeparator | src/quantum_similarity/text_features.py:6-9 | a separator ends the match in progress and restarts the scan |
| TextFeatures.LexLess | src/quantum_similarity/text_features.py:19 | Python's `<` on strings; the four `LexLess` lemmas below state that it is a strict total order |
| TextFeatures.KeyLess | src/quantum_similarity/text_features.py:19 | the order of the sort key (-df, word); `KeyLessStrictTotalOrder` states that it is strict and total on distinct words |
| TextFeatures.LexLessIrreflexive | src/quantum_similarity/text_features.py:19 | no string sorts before itself |
| TextFeatures.LexLessTransitive | src/quantum_similarity/text_features.py:19 | string order is transitive |
| TextFeatures.LexLessTotal | src/quantum_similarity/text_features.py:19 | of two distinct strings one sorts first |
| TextFeatures.LexLessAsymmetric | src/quantum_similarity/text_features.py:19 | two strings never sort before each other |
| TextFeatures.KeyLessStrictTotalOrder | src/quantum_similarity/text_features.py:19 | the key (-df, word) orders distinct words strictly and totally, so the sorted order is unique |
| TextFeatures.DfRange | src/quantum_similarity/text_features.py:13-17 | each word's df is 1 or 2, and 2 exactly when it occurs in both lists |
| TextFeatures.Words | src/quantum_similarity/text_features.py:13-17 | the keys of `df`, the words of either list; `DocumentFrequencies` states that the loops build exactly these keys |
| TextFeatures.Df | src/quantum_similarity/text_features.py:13-17 | the value of `df` for a word, the number of lists holding it; `DfRange` and `DocumentFrequencies` state its values |
| TextFeatures.Min | src/quantum_similarity/text_features.py:20 | the length of the `[:max_features]` slice; `BuildVocab` states that the vocabulary has this length |
| TextFeatures.Get | src/quantum_similarity/text_features.py:15 | `dict.get(k, default)`; `DocumentFrequencies` states the values the loops build with it |
| TextFeatures.DocumentFrequencies | src/quantum_similarity/text_features.py:13-17 | the keys of `df` are the words of the two lists and each value is the number of lists holding its word |
| TextFeatures.InsertStep | src/quantum_similarity/text_features.py:19 | inserting a new word where the scan for its place stops keeps the list sorted and duplicate-free, and adds exactly that word |
| TextFeatures.SortByKey | src/quantum_similarity/text_features.py:19 | the words of `df` once each, strictly ascending in the key (-df, word) |
| TextFeatures.BuildVocab | src/quantum_similarity/text_features.py:11-21 | the vocabulary has no duplicates; its words come from the lists; its length is min(max_features, number of distinct words); it is strictly ranked by (-df, word); no word left out ranks before a kept one |
| TextFeatures.NotRankedBefore | src/quantum_similarity/text_features.py:19-20 | two vocabularies that agree below m cannot have the first's word at m rank before the second's |
| TextFeatures.VocabAgree | src/quantum_similarity/text_features.py:19-20 | two vocabularies of the same lists agree position by position up to the shorter length |
| TextFeatures.VocabPrefix | src/quantum_similarity/text_features.py:19-20 | a vocabulary with a smaller max_features is a prefix of one with a larger, so raising the limit only extends it |
| TextFeatures.Slot | src/quantum_similarity/text_features.py:30-33 | `idx.get(w)`: -1 exactly when w is not in vocab, else the last position holding w |
| TextFeatures.FeatureVector | src/quantum_similarity/text_features.py:31 | the vector has one entry per vocabulary word |
| TextFeatures.Counts | src/quantum_similarity/text_features.py:31-38 | the raw count vector has one entry per vocabulary word |
| TextFeatures.Occurrences | src/quantum_similarity/text_features.py:32-38 | `vec[j]` counted by the token loop; `OccurrencesCount` states that it is the number of occurrences of vocab[j], or 0 when a later duplicate owns the index |
| TextFeatures.Matched | src/quantum_similarity/text_features.py:39 | `vec.sum()` of the raw counts; `SumOfCounts` states that equality and `MatchedZeroIff` when it is 0 |
| TextFeatures.Sum | src/quantum_similarity/text_features.py:39-40 | `vec.sum()`; `SumOfCounts` states that the raw counts sum to the number of matched tokens |
| TextFeatures.RawEntry | src/quantum_similarity/text_features.py:35-38 | an entry after the token loop: presence in "bin" mode, a count otherwise; `BinaryEntries` and `OtherModeRawCounts` state its values |
| TextFeatures.Weight | src/quantum_similarity/text_features.py:39-40 | the returned entry: a share in "tf" mode when some token matched, the raw entry otherwise; `TermFrequencyShare` and `TermFrequenciesNoMatch` state its values |
| TextFeatures.Vectorize | src/quantum_similarity/text_features.py:23-41 | the array updated in place by the token loop, then divided by its sum in "tf" mode when that sum is positive, is `FeatureVector(tokens, vocab, mode)` |
| TextFeatures.MatchedBelowAll | src/quantum_similarity/text_features.py:33-34 | the tokens landing on some entry are exactly the vocabulary tokens |
| TextFeatures.SumOfCounts | src/quantum_similarity/text_features.py:38-39 | `vec.sum()` of the raw counts is the number of tokens found in the vocabulary |
| TextFeatures.OccurrencesCount | src/quantum_similarity/text_features.py:30-38 | entry j counts the occurrences of vocab[j] in the tokens, unless a later duplicate took its index, in which case it is 0 |
| TextFeatures.OccurrencesAtMostMatched | src/quantum_similarity/text_features.py:33-38 | no entry exceeds the number of matched tokens |
| TextFeatures.MatchedZeroIff | src/quantum_similarity/text_features.py:33-34 | no token matches exactly when no token is a vocabulary word |
| TextFeatures.BinaryEntries | src/quantum_similarity/text_features.py:35-36 | in "bin" mode entry j is 1 when vocab[j] occurs and j is its index in `idx`, and 0 otherwise |
| TextFeatures.BinaryEntriesDistinct | src/quantum_similarity/text_features.py:35-36 | for a duplicate-free vocabulary, entry j in "bin" mode is 1 exactly when vocab[j] occurs in the tokens, and 0 otherwise |
| TextFeatures.TermFrequencyShare | src/quantum_similarity/text_features.py:39-40 | in "tf" mode with matches, entry j is the count on j divided by the number of matched tokens |
| TextFeatures.TermFrequenciesSumToOne | src/quantum_similarity/text_features.py:39-40 | in "tf" mode with at least one matched token the entries sum to 1 |
| TextFeatures.TermFrequenciesAreDividedCounts | src/quantum_similarity/text_features.py:39-40 | in "tf" mode with matches the vector is the raw counts divided by their total |
| TextFeatures.TermFrequenciesNoMatch | src/quantum_similarity/text_features.py:39-41 | in "tf" mode with no matched token every entry is 0 |
| TextFeatures.OtherModeRawCounts | src/quantum_similarity/text_features.py:37-41 | any mode other than "tf" and "bin" returns the raw counts, undivided |
| TextFeatures.OccurrencesConcat | src/quantum_similarity/text_features.py:32-38 | counts and matches over two concatenated token lists add up |
| TextFeatures.OutOfVocabularyIgnored | src/quantum_similarity/text_features.py:32-34 | inserting a token outside the vocabulary anywhere leaves the vector unchanged |
| TextFeatures.TextToVector | src/quantum_similarity/text_features.py:43-49 | both vectors are taken over one vocabulary of the two token lists that satisfies the `build_vocab` promise, each is that text's feature vector, and both have the vocabulary's length, at most max_features |

Helpers that are proof steps with no source lines of their own:

- `PowersOfTwo.Pow2Monotone`: 2^j <= 2^k when j <= k.
- `TextFeatures.InsertKeepsSorted`: inserting between smaller and larger keys keeps a list
  sorted.
- `TextFeatures.DistinctCardinality`: a list without duplicates has as many elements as its
  set.
- `TextFeatures.MatchedBelow`, `MatchedBelowStep`, `MatchedBelowZero` and
  `SumOfCountsPrefix`: the prefix sums behind `SumOfCounts`.
- `TextFeatures.SumDivided`: dividing every entry by t divides the sum by t.
- `Encoding.AddProductPositive`, `AddSquareZeroIff`, `ScaledSquare` and `UnitFactor`,
  `SwapTest.ProductNonZero` and `TextFeatures.DivideBySelf`: steps of real arithmetic.
- `TextFeatures.TailFacts`: one step of a run in the scan, used by `ScanRun`.
- `TextFeatures.ScanNoTokenChars`: the scan step behind `TokenizeNoTokenChars`.

## Left out

- The quantum simulator (`AerSimulator`, `transpile`, running the circuit,
  `get_counts`) is outside the model. `SwapTest.SwapTestSimilarity` takes the counts as a
  parameter.
- The command-line front end (`cli.py`: argument parsing, file reading, JSON, printing) is not
  part of this model.
- The claim P(ancilla = 0) = (1 + |<a|b>|^2) / 2 is about the simulator's physics and is not
  stated.
- Floating point is modelled as exact `real` arithmetic. This covers rounding in
  `np.linalg.norm`, the division and the sum. `math.log2` is an exact integer floor-log2
  here. For large lengths that are not powers of two, the double-precision value can round up
  past the floor. The builder still refuses such lengths with `NotPowerOfTwo`. The conversion to a complex dtype is an
  identity here.
- Encoding.Normalize: `np.linalg.norm` is not computed. The norm is a parameter, required to
  be the non-negative square root of the sum of squares, because Dafny has no square root on
  `real`.
- Encoding.VectorToStatevector: takes the norm of the input as a parameter for the same
  reason. Padding does not change that norm (`PadKeepsSumSquares`).
- SwapTest.SwapTestSimilarity: does not compute `overlap = math.sqrt(fidelity)`.
  `OverlapInUnitInterval` states the bounds and uniqueness of any non-negative root instead.
- SwapTest.BuildSwapTestCircuit: does not model qiskit's own checks inside `initialize`, for
  example that the amplitudes have unit norm. The gate only records the amplitudes and the
  target qubits. This includes the one-amplitude case. For states of length 1 the source's
  own checks pass with n = 0, and the model builds a 1-qubit circuit whose two
  initialisations target no qubits. Qiskit's state preparation is expected to refuse a
  length-1 state there, but that code is not part of this model. Every one-entry input
  vector reaches this case, and so does every text pair whose vocabulary has one word.
- TextFeatures.BuildVocab: `max_features` is a natural number. Python's slicing with a
  negative bound is not modelled.
- TextFeatures.SortByKey: Python's set and dict iteration order is not modelled. The keys are
  taken in an arbitrary order, which cannot affect the result because the key orders distinct
  words totally (`KeyLessStrictTotalOrder`).
- Default arguments are not modelled: `max_features=1024` and `mode="tf"`
  (text_features.py lines 11, 23 and 43) and `shots=8192` (swap_test.py line 50). The
  callers of `BuildVocab`, `Vectorize`, `TextToVector` and `SwapTestSimilarity` always pass
  these values explicitly.
- TextFeatures.TextToVector: the shared vocabulary is a ghost out-parameter. The source does
  not return it.
- Tokenisation is over ASCII. `str.lower()` on non-ASCII characters never matters, because
  only `[A-Za-z0-9']` characters reach it.
