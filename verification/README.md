# QRNG bit-generation pipeline in Dafny

This project models the core of a quantum random number generator library (`qrng`). The library measures Hadamard circuits on a simulator and turns the outcome tables into a fixed-length random bitstring. On the way it normalises Qiskit's little-endian bit order and can debias the stream with a Von Neumann extractor. It then checks the bits with simple statistics and turns them into AES key bytes.

The model has one module per source file:

| module | file | what it holds |
|---|---|---|
| `Common` | (shared) | `Option`, Python's `str.count`, `"".join`, the prefix slice `s[:k]`, `2^n` |
| `Binary` | (shared) | `int(s, 2)` and `format(n, "0wb")` on binary strings |
| `Utils` | `qrng/utils.py` | bit-order reversal, count expansion, the Von Neumann extractor as written and the textbook extractor beside it |
| `Circuit` | `qrng/circuit.py` | the transpile cache, as a class over a map, and the fast path's index-to-counts aggregation |
| `Runner` | `qrng/runner.py` | one run, the accumulation loop against a given sequence of backend answers, and `random_int_from_bits` |
| `Analysis` | `qrng/analysis.py` | runs test, Hamming weight, bit distribution, chi-square and autocorrelation, computed over exact reals |
| `Crypto` | `qrng/crypto.py` | bits to bytes, bytes to hex, the direct AES key, and the HKDF-style derivation with HMAC-SHA-256 as a parameter |

The source's loops are `method`s, each proved against a recursive specification function:
- `BitsFromCounts`
- `VonNeumannUnbias`
- `CountsFromIndices`
- `GenerateRandomBits`
- `RunsTest`
- `DeriveKey`

The lemmas about those functions carry the properties. The transpile cache is a class whose `entries` map is only ever added to. A ghost list records every key that was transpiled.

Conventions:
- Python exceptions and NaN results are `None` or `Failed(...)`.
- Dictionaries that keep insertion order are sequences of `(key, count)` pairs.
- Floats are Dafny `real`s, i.e. exact rationals. The real-number results are stated through the wrappers `Prod`, `Sq` and `Div`, which stand for `a * b`, `x ** 2` and `a / b`.

**The Von Neumann extractor follows the code, not the textbook rule.** The code's `10` pair emits `0` whenever the pair before it, counting discarded pairs, is also `10` (qrng/utils.py:56-63). The model follows the code: `VonNeumann`/`VonNeumannUnbias` is what the library does. The textbook extractor is defined separately as `Textbook`. `VonNeumannMatchesTextbook` proves the two agree exactly when no two adjacent pairs are both `10`. The test at tests/test_utils.py:111-114 pins the code's behaviour, `'01011010'` to `'0010'`.

## Model

| member | source | states |
|---|---|---|
| Common.Count | qrng/analysis.py:109-110 | `s.count(c)` never exceeds the length of `s` |
| Common.CountAppend | qrng/analysis.py:109-110 | counting is additive over concatenation |
| Common.BinaryCounts | qrng/analysis.py:108-110 | in a 0/1 string the zeros and the ones add up to the length |
| Common.JoinBinary | qrng/runner.py:43 | joining binary strings gives a binary string |
| Common.JoinPrefix | qrng/runner.py:40-52 | joining a prefix of the collected parts gives a prefix of the joined whole |
| Common.JoinLength | qrng/runner.py:43 | joining parts of equal width `w` gives `len(parts) * w` characters |
| Common.PyPrefix | qrng/runner.py:52 | `s[:k]` is a prefix of `s`; it has `k` characters for `0 <= k <= len(s)`, and a negative `k` counts from the end |
| Binary.ParseBinary | qrng/runner.py:57 | `int(s, 2)` succeeds exactly on a non-empty 0/1 string, with a value below `2^len(s)` |
| Binary.BinValueBound | qrng/runner.py:57 | the big-endian value of `k` bits is below `2^k` |
| Binary.LeadingZeros | qrng/runner.py:57 | leading zeros do not change the value |
| Binary.AllZeros | qrng/runner.py:57 | `k` zeros have value 0 |
| Binary.AllOnes | qrng/runner.py:57 | `k` ones have value `2^k - 1` |
| Binary.ToBin | qrng/circuit.py:79 | the shortest binary form of `n` is non-empty, binary and starts with `1` when `n >= 1` |
| Binary.ToBinValue | qrng/circuit.py:79 | the binary form of `n` has value `n` |
| Binary.ToBinLength | qrng/circuit.py:79 | an `n` below `2^w` needs at most `w` digits |
| Binary.FormatBinary | qrng/circuit.py:79 | `format(n, "0wb")` is a non-empty binary string |
| Binary.FormatBinaryCorrect | qrng/circuit.py:79 | for `n < 2^w`, the key has exactly `max(w, 1)` digits and value `n` |
| Binary.FormatParseRoundTrip | qrng/circuit.py:79 | `int(format(n, "0wb"), 2) == n` |
| Binary.FormatBinaryInjective | qrng/circuit.py:79-80 | distinct indices get distinct keys |
| Utils.QiskitBitstringOrder | qrng/utils.py:13 | reversal keeps the length |
| Utils.QiskitBitstringOrderAt | qrng/utils.py:13 | character `i` of the result is character `len - 1 - i` of the input |
| Utils.QiskitBitstringOrderInvolution | tests/test_utils.py:35-39 | reversing twice gives back the string |
| Utils.QiskitBitstringOrderInjective | qrng/utils.py:13 | distinct strings have distinct reversals |
| Utils.QiskitBitstringOrderBinary | qrng/utils.py:13 | reversal keeps a string binary |
| Utils.Repeat | qrng/utils.py:30 | `[x] * n` has `n` entries, all `x` |
| Utils.ExpandCounts | qrng/utils.py:28-31 | the expansion has as many entries as the counts add up to, so an empty table gives an empty list |
| Utils.BitsFromCounts | qrng/utils.py:28-31 | the loop that extends `out` per table entry builds exactly the expansion |
| Utils.ExpandCountsOccurrences | qrng/utils.py:29-30 | with distinct keys, the reversal of key `k` occurs exactly `counts[k]` times |
| Utils.ExpandCountsAbsent | qrng/utils.py:29-30 | the reversal of a string that is not a key does not occur |
| Utils.RepeatOccurrences | qrng/utils.py:30 | `[x] * n` holds `x` exactly `n` times and nothing else |
| Utils.ExpandCountsElements | qrng/utils.py:29-30 | every entry of the expansion is the reversal of some key |
| Utils.ExpandCountsShape | qrng/utils.py:28-31 | a table of `w`-bit keys whose counts add up to `shots` expands to `shots` binary strings of `w` characters |
| Utils.Pairs | qrng/utils.py:49-51 | there are `len // 2` pairs, and pair `k` is characters `2k` and `2k + 1` |
| Utils.VonNeumannUnbias | qrng/utils.py:47-65 | the two loops, first building `pairs` and then `out`, compute `VonNeumann` |
| Utils.UsefulCount | qrng/utils.py:53-64 | at most one useful pair per pair read |
| Utils.EmitPrefixShape | qrng/utils.py:53-64 | after `k` pairs the output is binary and has one character per `01` or `10` pair |
| Utils.VonNeumannShape | qrng/utils.py:53-64 | output length is the number of `01`/`10` pairs, at most `len // 2`, and the output is binary |
| Utils.PairsSnoc | qrng/utils.py:49-51 | two more characters after an even-length string add one pair |
| Utils.TrailingBitIgnored | qrng/utils.py:50-51 | a trailing odd bit does not change the output |
| Utils.EmitPrefixExtend | qrng/utils.py:53-64 | later pairs do not change the output of earlier ones |
| Utils.VonNeumannSnoc | qrng/utils.py:53-64 | an appended `01` emits `0`; `00`/`11` emit nothing; `10` emits `0` after a `10` and `1` otherwise |
| Utils.VonNeumannSingleWindows | tests/test_utils.py:85-103 | `01` to `0`, `10` to `1`, and `00` and `11` to nothing |
| Utils.VonNeumannMixedExample | tests/test_utils.py:105-109 | `'01100011'` gives `'01'` |
| Utils.VonNeumannConsecutiveTenExample | tests/test_utils.py:111-114 | `'01011010'` gives `'0010'` |
| Utils.PrefixesAgree | qrng/utils.py:56-63 | where no `10` follows a `10`, the code's output equals the textbook extractor's |
| Utils.TextbookPrefixLength | qrng/utils.py:53-64 | the textbook extractor emits as many bits as the code does |
| Utils.EmitPrefixMonotone | qrng/utils.py:53-64 | both extractors only ever append |
| Utils.EmitZeroAt | qrng/utils.py:60-61 | a `10` after a `10` writes `0` at its output position |
| Utils.TextbookOneAt | qrng/utils.py:56-63 | the textbook extractor writes `1` at that position |
| Utils.DoubleTenDiffers | qrng/utils.py:56-63 | any `10` after a `10` makes the two extractors differ |
| Utils.WindowsMatchTextbook | qrng/utils.py:53-64 | on a sequence of pairs, the two outputs agree if and only if no two adjacent pairs are both `10` |
| Utils.VonNeumannMatchesTextbook | qrng/utils.py:47-65 | `von_neumann_unbias(s)` equals the textbook extractor if and only if no two adjacent pairs of `s` are both `10` |
| Utils.VonNeumannDiffersOnDoubleTen | qrng/utils.py:56-63 | `'1010'` gives `'10'` where the textbook rule gives `'11'` |
| Runner.RunQrngOnce | qrng/runner.py:15-22 | a well-formed backend answer for `shots` on `n` qubits gives `shots` binary strings of `n` characters |
| Runner.MeasurementShape | qrng/runner.py:15-22 | a direct table or sampled indices within range give a well-formed table and expansion |
| Runner.Contributions | qrng/runner.py:40-50 | one contribution per backend call |
| Runner.ContributionsAt | qrng/runner.py:43-50 | contribution `j` is round `j`'s joined bits, debiased when `unbiased` |
| Runner.GenerateRandomBits | qrng/runner.py:37-52 | the loop returns the first `target_bits` characters of the joined contributions; it stops at the first call that reaches the target, and every earlier total falls short |
| Runner.CollectRound | qrng/runner.py:41-50 | one round appends its contribution; an empty extraction appends nothing |
| Runner.NextRound | qrng/runner.py:40-50 | after the next call, `collected` joins to the total of one more round |
| Runner.ShortStep | qrng/runner.py:40 | a total still short of the target extends the "all earlier totals short" invariant |
| Runner.ExhaustedNone | qrng/runner.py:40 | when the whole supply of answers falls short, there is no result |
| Runner.TotalSnoc | qrng/runner.py:45-50 | the total after `k + 1` rounds is the total after `k` rounds plus round `k`'s contribution |
| Runner.GeneratedAt | qrng/runner.py:40-52 | any round count whose total reaches the target gives the same result, the prefix of that total |
| Runner.Append | qrng/runner.py:48-50 | appending a part to `collected` appends it to the joined string |
| Runner.MeasureRound | qrng/runner.py:41-43 | one call's raw bits are the joined expansion of its table |
| Runner.GeneratedShape | qrng/runner.py:52 | a result has exactly `target_bits` characters (none for a target of 0 or less) and is a prefix of all contributions |
| Runner.ExpandCountsBinary | qrng/runner.py:42-43 | binary keys give binary raw bits |
| Runner.CountIndicesBinary | qrng/circuit.py:77-81 | fast-path keys are binary |
| Runner.ContributionBinary | qrng/runner.py:43-50 | every contribution is binary (the extractor's output always is) |
| Runner.TotalBinary | qrng/runner.py:43-50 | the joined contributions are binary |
| Runner.GeneratedBinary | qrng/runner.py:52 | the returned bits are all `0` or `1` when the backend's keys are |
| Runner.ContributionLengthRaw | qrng/runner.py:43-50 | without debiasing, a well-formed round adds `n_qubits * shots_per_call` bits |
| Runner.TotalLengthRaw | qrng/runner.py:43-50 | after `k` such rounds the total has `k * n_qubits * shots_per_call` bits |
| Runner.RawGenerationTerminates | qrng/runner.py:40-50 | without debiasing and with at least one bit per round, `target_bits` well-formed rounds suffice |
| Runner.UsefulCountZero | qrng/utils.py:53-64 | no bit is emitted from a prefix exactly when none of its pairs is `01` or `10` |
| Runner.ContributionSilent | qrng/runner.py:45-48 | a debiased round contributes nothing if and only if its raw bits pair up only as `00` and `11` |
| Runner.StuckBackendNeverFinishes | qrng/runner.py:40-48 | a backend whose every round pairs up only as `00` and `11` never lets a debiased request for at least one bit finish |
| Runner.JoinAllChar | qrng/runner.py:43 | joining strings made of one character gives a string of that character |
| Runner.UniformKeysSilent | qrng/runner.py:43-47 | a round whose keys are all zeros, or all ones, gives raw bits with no `01` or `10` pair |
| Runner.RandomIntFromBits | qrng/runner.py:55-57 | `int(bitstr, 2)` is defined exactly on non-empty binary strings and is below `2^len` |
| Runner.RandomIntFromBitsFacts | tests/test_runner.py:128-145 | leading zeros are irrelevant, `k` ones give `2^k - 1`, `k` zeros give 0 |
| Runner.RandomIntFromBitsExamples | tests/test_runner.py:111-126 | `'10'` gives 2, `'100'` gives 4, `'10000000'` gives 128, `'0010'` gives 2, and `''` is an error |
| Circuit.KeyOf | qrng/circuit.py:55-56 | the key carries the optimisation level with the circuit summary |
| Circuit.KeyIgnoresInstructions | qrng/circuit.py:55-56 | circuits with the same summary share a key whatever their instructions |
| Circuit.TranspileCache.constructor | qrng/circuit.py:19 | the cache starts empty, with nothing transpiled |
| Circuit.TranspileCache.GetTranspiled | qrng/circuit.py:58-61 | on a hit the stored circuit is returned and nothing changes; on a miss the circuit is transpiled once and stored under its key; earlier entries are never removed or overwritten |
| Circuit.TranspileCache.GetTranspiledTwice | qrng/circuit.py:58-61 | two requests for one key return the same circuit and transpile at most once, exactly once on a cold cache |
| Circuit.DistinctCardinality | qrng/circuit.py:58-61 | a list without repetitions has as many distinct elements as entries |
| Circuit.TranspileCache.OneTranspilePerKey | qrng/circuit.py:19 | in a consistent cache, the number of transpilations equals the number of entries |
| Circuit.LookupAbsent | qrng/circuit.py:80 | `counts.get(k, 0)` is 0 for a missing key |
| Circuit.LookupReplace | qrng/circuit.py:80 | overwriting an existing key changes only that key's count |
| Circuit.LookupStore | qrng/circuit.py:80 | after `counts[k] = v`, key `k` reads `v` and every other key is unchanged |
| Circuit.StoreKeys | qrng/circuit.py:80 | `counts[k] = v` keeps keys distinct and adds exactly `k` |
| Circuit.ReplaceAbsent | qrng/circuit.py:80 | overwriting a missing key changes nothing |
| Circuit.SumCountsReplace | qrng/circuit.py:80 | overwriting a count changes the total by the difference |
| Circuit.SumCountsBump | qrng/circuit.py:80 | `counts[k] = counts.get(k, 0) + 1` adds one to the total |
| Circuit.CountsFromIndices | qrng/circuit.py:77-81 | the loop over the sampled indices builds exactly `CountIndices` |
| Circuit.CountIndicesTotal | qrng/circuit.py:77-81 | the fast-path table has distinct keys and counts adding up to the number of samples (`shots`) |
| Circuit.BumpTotal | qrng/circuit.py:80 | one increment keeps keys distinct and adds one to the total |
| Circuit.CountIndicesKeys | qrng/circuit.py:79 | every key is the zero-padded binary form of a sampled index |
| Circuit.CountIndicesLookup | qrng/circuit.py:77-80 | the count under an index's key is the number of times that index was drawn |
| Circuit.CountIndicesSnoc | qrng/circuit.py:78-80 | one more sampled index adds one under its own key and nowhere else |
| Circuit.MultisetSnoc | qrng/circuit.py:78 | one more index adds one occurrence of itself |
| Circuit.BumpLookup | qrng/circuit.py:80 | the increment adds one under its key only |
| Circuit.CountIndicesWellFormed | qrng/circuit.py:75-81 | for indices below `2^n`, `n >= 1`, every key has `n` binary digits and the counts add up to the shots |
| Analysis.SharesSum | qrng/analysis.py:79-82 | two shares of a whole whose parts add up to it add up to one |
| Analysis.HarmonicBound | qrng/analysis.py:115 | with zeros and ones both present, `2 * zeros * ones / n + 1` lies in `(1, n / 2 + 1]` |
| Analysis.Changes | qrng/analysis.py:103-105 | at most `len - 1` adjacent positions differ |
| Analysis.ExpectedRuns | qrng/analysis.py:108-117 | the expected run count is NaN exactly when there are no zeros or no ones |
| Analysis.RunsTest | qrng/analysis.py:98-117 | the loop counts runs as specified; `1 <= runs <= len`, and a string shorter than 2 gives one run |
| Analysis.RunsAlternating | qrng/analysis.py:102-105 | there are `len` runs if and only if adjacent bits always differ |
| Analysis.RunsConstant | qrng/analysis.py:102-105 | there is one run if and only if the string is constant |
| Analysis.ZeroOnes | qrng/analysis.py:102-105 | `'01' * k` has `2k` characters |
| Analysis.ZeroOnesRuns | qrng/analysis.py:102-105 | `'01' * k` has `2k` runs, so `'01' * 50` has 100 |
| Analysis.ExpectedRunsBounds | qrng/analysis.py:108-117 | for a mixed 0/1 string the expected run count lies in `(1, n / 2 + 1]` |
| Analysis.Fraction | qrng/analysis.py:80-81 | a count over a length is a proportion in `[0, 1]` that times the length gives the count back |
| Analysis.HammingWeight | qrng/analysis.py:130-134 | empty gives `(0, 0.0)`; otherwise the count of `1`s and its proportion of the length |
| Analysis.BitDistribution | qrng/analysis.py:73-82 | empty gives both `0.0`; otherwise the proportions of `0` and `1` |
| Analysis.BitDistributionHamming | qrng/analysis.py:133-134 | the proportion of ones is the Hamming ratio |
| Analysis.BitDistributionSums | qrng/analysis.py:79-82 | for a non-empty 0/1 string the two proportions add up to one |
| Analysis.ChiSquare | qrng/analysis.py:198-201 | the statistic is non-negative |
| Analysis.ChiSquareTest | qrng/analysis.py:190-204 | empty gives `(0.0, 0.0)`; otherwise a non-negative statistic with critical value 3.841 |
| Analysis.ChiSquareArith | qrng/analysis.py:198-201 | when zeros and ones make up `n`, the statistic is `(zeros - ones)^2 / n` |
| Analysis.DeviationZero | qrng/analysis.py:198-201 | `(zeros - ones)^2 / n` is zero if and only if zeros equal ones |
| Analysis.ChiSquareBinary | qrng/analysis.py:190-204 | for a 0/1 string the statistic is `(zeros - ones)^2 / n`, zero exactly when balanced |
| Analysis.NumericBits | qrng/analysis.py:155 | one value per bit |
| Analysis.SqSum | qrng/analysis.py:169 | the denominator is non-negative |
| Analysis.Autocorrelation | qrng/analysis.py:151-174 | an error exactly for a negative lag; `0.0` when the string is no longer than the lag |
| Analysis.SqSumSplit | qrng/analysis.py:169 | the sum of squares splits at any midpoint |
| Analysis.CrossBound | qrng/analysis.py:164-169 | twice the lagged cross sum is bounded by the two sums of squares |
| Analysis.AutocorrelationBounds | qrng/analysis.py:149-174 | for any lag of 0 or more the result lies in `[-1, 1]` |
| Analysis.SumUniform | qrng/analysis.py:162 | a constant `+1` or `-1` sequence sums to plus or minus its length |
| Analysis.MeanUniform | qrng/analysis.py:162 | a constant string's mean is its single value |
| Analysis.SqSumAt | qrng/analysis.py:169 | each squared deviation is at most the sum of squares |
| Analysis.SqSumAtMean | qrng/analysis.py:169 | values equal to the mean give a zero sum of squares |
| Analysis.UniformDenominator | qrng/analysis.py:169-172 | a constant string has denominator zero |
| Analysis.DenominatorUniform | qrng/analysis.py:169-172 | a zero denominator means the string is constant |
| Analysis.DenominatorZero | qrng/analysis.py:169-172 | the denominator is zero if and only if the string is constant |
| Analysis.AutocorrelationConstant | qrng/analysis.py:169-172 | an all-`1` string has autocorrelation `0.0` at every lag |
| Analysis.AutocorrelationNoOnes | qrng/analysis.py:155-172 | a string without `1`s (all mapped to `-1`) has autocorrelation `0.0` |
| Analysis.CrossZeroLag | qrng/analysis.py:164-169 | at lag 0 the numerator is the denominator |
| Analysis.AutocorrelationLagZero | qrng/analysis.py:164-174 | a non-constant string has autocorrelation `1.0` at lag 0 |
| Crypto.PadToBytes | qrng/crypto.py:31-32 | the padded string has a length that is a multiple of 8, `ceil(len / 8) * 8`; it starts with the input and is padded with `0` |
| Crypto.ToBytes | qrng/crypto.py:33 | `to_bytes(k, 'big')` gives `k` bytes |
| Crypto.BitsToBytes | qrng/crypto.py:15-34 | succeeds exactly on 0/1 strings (empty gives empty) with `ceil(len / 8)` bytes |
| Crypto.PaddedBinary | qrng/crypto.py:31-33 | padding keeps exactly the binary strings binary |
| Crypto.ShiftByte | qrng/crypto.py:33 | shifting by 8 bits multiplies by 256 |
| Crypto.BinValueAppend | qrng/crypto.py:33 | the value of `a + b` is `a`'s value shifted by `len(b)` plus `b`'s value |
| Crypto.ByteValueBound | qrng/crypto.py:33 | eight bits have a value below 256 |
| Crypto.ToBytesChunks | qrng/crypto.py:33 | byte `k` of the big-endian encoding is the value of bits `8k` to `8k + 7` |
| Crypto.BitsToBytesChunks | qrng/crypto.py:31-33 | byte `k` of `bits_to_bytes(s)` is the value of bits `8k` to `8k + 7` of the padded string |
| Crypto.BinValueInjective | qrng/crypto.py:33 | equal-length binary strings with equal values are equal |
| Crypto.BitsToBytesInjective | qrng/crypto.py:31-33 | whole-byte binary strings of one length with equal bytes are equal |
| Crypto.BinaryChunk | qrng/crypto.py:33 | each 8-bit chunk of a binary string is binary |
| Crypto.BitsToBytesShortExamples | tests/test_crypto.py:35-44 | `''` gives no bytes; `'1'` gives `0x80` |
| Crypto.BitsToBytesByteExamples | tests/test_crypto.py:18-33 | `'00000000'` gives `0x00`; `'11111111'` gives `0xff` |
| Crypto.BitsToBytesTwoByteExample | tests/test_crypto.py:24-28 | `'1111111100000000'` gives `ff 00` |
| Crypto.BitsToBytesPadding | qrng/crypto.py:31-33 | a string and its zero-padded form give the same bytes |
| Crypto.HexDigit | qrng/crypto.py:47 | a nibble is written as a lower-case hexadecimal digit |
| Crypto.BytesToHex | qrng/crypto.py:37-47 | two digits per byte |
| Crypto.BytesToHexAt | qrng/crypto.py:47 | byte `k` is written at positions `2k` (high nibble) and `2k + 1` (low nibble) |
| Crypto.HexToBytes | qrng/crypto.py:149-150 | decoding gives half as many bytes as digits |
| Crypto.HexDigitValue | qrng/crypto.py:149-150 | each hexadecimal digit reads back as its nibble |
| Crypto.HexRoundTrip | qrng/crypto.py:149-150 | `unhexlify(hexlify(b)) == b` |
| Crypto.BytesToHexInjective | qrng/crypto.py:47 | distinct bytes give distinct hex strings |
| Crypto.BytesToHexExamples | tests/test_crypto.py:55-68 | `b''` gives `''`; `ff 00 aa` gives `'ff00aa'` |
| Crypto.AesKeyFromBits | qrng/crypto.py:50-67 | fails when the string is shorter than the key; succeeds exactly when it is long enough and its first `key_size_bits` characters are binary |
| Crypto.AesKeyShape | qrng/crypto.py:64-67 | whole-byte keys have `key_size_bits / 8` bytes, and byte `k` is bits `8k` to `8k + 7` |
| Crypto.AesKeyUsesPrefix | qrng/crypto.py:66-67 | only the first `key_size_bits` bits matter |
| Crypto.AesKeyInjective | qrng/crypto.py:66-67 | distinct binary prefixes give distinct whole-byte keys |
| Crypto.AesKeyExamples | tests/test_crypto.py:99-111 | `'0' * 256` and `'1' * 256` give different keys; 128 bits are too few for a 256-bit key |
| Crypto.Okm | qrng/crypto.py:103-108 | `n` blocks give `32 n` bytes of output keying material |
| Crypto.BlockCount | qrng/crypto.py:101-102 | the block count is `ceil(key_bytes / 32)`, the fewest 32-byte blocks that cover the key, which is one for 128, 192 and 256 bits |
| Crypto.Kdf | qrng/crypto.py:70-111 | errors exactly for a bad key size, a non-binary bitstring, or an empty one; otherwise a key of `key_size_bits / 8` bytes and a hex salt that decodes to the salt used (32 digits for a random salt) |
| Crypto.DeriveKey | qrng/crypto.py:87-111 | the expand loop, which updates `previous` and `okm` per block, computes the derivation |
| Crypto.KdfSingleBlock | qrng/crypto.py:98-110 | the key is a prefix of `HMAC(HMAC(salt, ikm), info + b'\x01')` |
| Crypto.KdfKeyPrefix | qrng/crypto.py:106-110 | with one salt, a shorter key is a prefix of a longer one |
| Crypto.KdfIgnoresPadding | qrng/crypto.py:90 | a bitstring and its zero-padded form derive the same key |
| Crypto.KdfPaddingExample | qrng/crypto.py:90 | `'1'` and `'10000000'` derive the same key |

## Left out

- Qiskit is not part of this model: circuit construction, transpilation, the simulator run and statevector retrieval. A backend answer is an input, either an outcome table or the sampled indices. `Transpile` is an opaque stand-in, and a circuit is the summary its cache key reads.
- numpy's probability normalisation and `np.random.choice` are floating-point randomness; the model starts from the drawn indices.
- GenerateRandomBits: the source loops for as long as the backend keeps answering, with no bound. The model takes a finite sequence of answers and returns `None` when they run out before the target. This is how `StuckBackendNeverFinishes` states the unbounded case.
- GenerateRandomBits: `shots_per_call` and `use_prob_sampling` are not parameters; each answer already holds its shots and says which path produced it.
- Circuit.TranspileCache: the key's sorted tuple of operation counts is a `map` from name to count. Names are distinct, so the two determine each other. Nothing is shared between threads, so there is no concurrency to model.
- Floats are modelled as exact reals. Rounding, `float('nan')` (as `None`) and float division are idealised, and `chi_square_test`'s 3.841 is an exact constant.
- `shannon_entropy`, `min_entropy` (logarithms over floats) and `analyze_bitstring` (a report that prints) are not modelled.
- `int(s, 2)` also accepts surrounding whitespace, underscores between digits, a sign and a `0b` prefix. The model treats every non-`0`/`1` character as an error.
- Crypto.ToBytes: never overflows in the model, because `int(bits, 2)` of `8k` bits always fits in `k` bytes.
- AES-CBC encryption and decryption and `get_random_bytes` belong to PyCryptodome and are not modelled. The random salt is a parameter of 16 bytes.
- HMAC-SHA-256 is a parameter: any function giving 32 bytes. No property of SHA-256 is assumed.
- The command-line demo, the web application and the package metadata are not modelled.
