# Extended (11,6) Hamming code — a Dafny model

`HammingCode` (src/hamming_code.py) implements a SECDED code over GF(2): a
(10,6) shortened Hamming code with four check bits, followed by one overall
parity bit. The constructor works in four steps:
1. It takes a fixed non-systematic 6×10 seed matrix `G'`.
2. It reduces the seed to a systematic generator matrix `G = [I6 | P]` by Gauss–Jordan elimination mod 2, in place on a copy of the rows.
3. It derives the parity-check matrix `H = [Pᵀ | I4]`.
4. It builds a dictionary from each column of `H` (read as a 4-bit tuple) to that column's index.

`encode` computes `u·G` and appends the parity of those ten bits. `decode`
checks the overall parity and computes the syndrome `H·cᵀ` of the first ten
bits. It then answers VALID, CORRECTED (after flipping the bit the syndrome
names, or when only the parity bit is wrong) or UNCORRECTABLE.

The model has six modules.

**GF2** (`gf2.dfy`)
- Bits are the integers 0 and 1, vectors are sequences of bits, and matrices are sequences of rows.
- XOR of rows, `sum`, and `_dot_product_mod2` over `zip` are written out, truncating to the shorter vector as `zip` does.

**Reduction** (`reduction.dfy`)
- `__convert_to_g` is modelled twice:
  - as pure functions, one per step in the order the source's loops run;
  - as the in-place method `ConvertToG` over an `array` of rows, proved equal to the functions.
- When no pivot exists, the search leaves the matrix unchanged, as the code does.

**RowSpace** (`rowspace.dfy`)
- Combinations of rows over GF(2), and row equivalence: each row of either matrix is a combination of the rows of the other.
- Each step of the reduction keeps the row space: a row swap only permutes the rows, and XORing row `i` into another row is undone by XORing it in again.
- Hence the whole reduction keeps it, and the reduced matrix generates the same code as its input.

**Secded** (`secded.dfy`)
- `__derive_h`, encoding and the decision table of `decode` as functions.
- The properties of a code built from ANY systematic generator matrix: `G·Hᵀ = 0`, a systematic and even-weight codeword, and zero syndrome exactly for codewords.
- For such a matrix whose `H` has ten distinct nonzero columns:
  - decoding inverts encoding;
  - it corrects every single flip among the eleven bits;
  - it reports every double flip as UNCORRECTABLE.

**Seed** (`seed.dfy`)
- The reduction of the fixed seed, step by step. Every pivot is already on the diagonal, so no row is swapped.
- The resulting `G_SYS` and `H_SYS`, and the syndrome table written out.
- The ten columns of `H_SYS` are distinct and nonzero. Five nonzero syndromes name no column, and a word with one of them decodes to UNCORRECTABLE.
- `G_SYS` and the seed generate the same code.
- One worked encoding.

**HammingCode** (`hamming_code.dfy`)
- The class, with constant fields: no method changes the object after construction.
- The constructor, `Encode` and `Decode`, each with the loops of the source.
- `Encode` and `Decode` are proved to compute `EncodeWord` and `DecodeWord`.

A missing pivot is not an error here: the code at src/hamming_code.py:53-58
goes on without swapping, and the model follows it. For the fixed seed every
pivot is found (`Seed.SeedPivotsOnDiagonal`).

## Model

| member | source | states |
|---|---|---|
| GF2.XorVec | src/hamming_code.py:63 | XOR of two rows has the length of the shorter one, as `zip` truncates |
| GF2.Flip | src/hamming_code.py:142 | `^= 1` on one bit changes that bit and no other |
| GF2.DotMod2 | src/hamming_code.py:43-44 | `_dot_product_mod2`: `sum(a*b for a, b in zip(a, b)) % 2`, truncated to the shorter vector; what it means is stated by `DotMod2Flip`, `SumProductsUnit`, `SumProductsSymmetric` and `RowSpace.CombinationEntry` |
| GF2.Parity | src/hamming_code.py:107 | `sum(s) % 2`, also the parity check at line 120; what it means is stated by `ParityFlip` and `ParityAppendParity` |
| GF2.ParityFlip | src/hamming_code.py:120 | flipping any one bit flips `sum(...) % 2` |
| GF2.DotMod2Flip | src/hamming_code.py:43-44 | flipping bit `i` of one argument toggles the mod-2 dot product exactly when the other argument has a one at `i` |
| GF2.SumProductsUnit | src/hamming_code.py:43-44 | the dot product with the `j`-th unit vector is entry `j` |
| GF2.SumProductsSymmetric | src/hamming_code.py:43-44 | the dot product does not depend on argument order |
| GF2.SumProductsAppend | src/hamming_code.py:43-44 | the dot product of concatenations of equal-length prefixes is the sum of the two dot products |
| GF2.ParityAppendParity | src/hamming_code.py:107 | appending `sum(bits) % 2` to a word gives a word with an even number of ones |
| GF2.SumAppend | src/hamming_code.py:107 | `sum` of a concatenation is the sum of the sums |
| GF2.XorVecZeroIffEqual | src/hamming_code.py:129 | two syndromes XOR to zero exactly when they are equal |
| Reduction.Swap | src/hamming_code.py:57 | rows `i` and `j` trade places, every other row is kept, and the rows are only permuted |
| Reduction.PivotFrom | src/hamming_code.py:55-58 | the pivot search keeps the number of rows and every row's length; what it finds is stated by `PivotFromFinds` |
| Reduction.Pivot | src/hamming_code.py:53-58 | step 1 keeps the shape; what it finds is stated by `PivotFinds` |
| Reduction.ClearEntry | src/hamming_code.py:62-63 | clearing one entry keeps the shape; its effect on each row is stated by `ClearBelowRows` and `ClearAboveRows` |
| Reduction.ClearBelow | src/hamming_code.py:61-63 | the partial forward loop keeps the shape; its effect is stated by `ClearBelowRows` |
| Reduction.ClearAbove | src/hamming_code.py:67-69 | the partial backward loop keeps the shape; its effect is stated by `ClearAboveRows` |
| Reduction.EliminateBelow | src/hamming_code.py:60-63 | step 2 keeps the shape; its effect is stated by `EliminateBelowClears` |
| Reduction.EliminateAbove | src/hamming_code.py:66-69 | a backward step keeps the shape; its effect is stated by `EliminateAboveClears` and `EliminateAboveRows` |
| Reduction.ForwardStep | src/hamming_code.py:52-63 | a forward step keeps the shape; its effect is stated by `ForwardStepRows` |
| Reduction.Forward | src/hamming_code.py:51-63 | the forward pass keeps the shape; `RowSpace.ForwardEquivalent` states that it keeps the row space |
| Reduction.Backward | src/hamming_code.py:65-69 | the backward pass keeps the shape; `RowSpace.BackwardEquivalent` states that it keeps the row space |
| Reduction.PivotFromFinds | src/hamming_code.py:55-58 | the pivot search only permutes rows, leaves rows above `i` alone, puts a one at `(i, i)` when a later row has one in column `i`, and changes nothing when none has |
| Reduction.PivotFinds | src/hamming_code.py:53-58 | after step 1, `(i, i)` holds a one exactly when some row from `i` on had one in column `i`; rows are only permuted |
| Reduction.ClearBelowRows | src/hamming_code.py:61-63 | after the loop has reached row `upto`, each row between `i` and `upto` with a one in column `i` is XORed with row `i`, and every other row is unchanged |
| Reduction.ClearAboveRows | src/hamming_code.py:67-69 | the same for the backward loop, from row `i-1` down to `downto` |
| Reduction.EliminateBelowClears | src/hamming_code.py:61-63 | with a pivot at `(i, i)`, column `i` is zero below it and rows up to `i` are untouched |
| Reduction.EliminateAboveClears | src/hamming_code.py:66-69 | with a pivot at `(i, i)`, column `i` is zero above it and rows from `i` on are untouched |
| Reduction.ForwardStepRows | src/hamming_code.py:52-63 | a forward step whose pivot is in place XORs row `i` into exactly the lower rows with a one in column `i` |
| Reduction.EliminateAboveRows | src/hamming_code.py:66-69 | a backward step XORs row `i` into exactly the higher rows with a one in column `i` |
| Reduction.GaussJordan | src/hamming_code.py:46-71 | the reduction keeps the number of rows and every row's length |
| Reduction.ConvertToG | src/hamming_code.py:46-71 | the in-place reduction of a fresh copy of the rows returns `GaussJordan(gns)`; the caller's matrix is a value and is untouched |
| Reduction.ForwardPass | src/hamming_code.py:51-63 | the forward loop leaves the array holding `Forward(old, rows)` |
| Reduction.BackwardPass | src/hamming_code.py:65-69 | the backward loop leaves the array holding `Backward(old, rows)` |
| Reduction.PivotInPlace | src/hamming_code.py:53-58 | the swap-and-break search in place equals `Pivot` |
| Reduction.EliminateBelowInPlace | src/hamming_code.py:60-63 | the in-place XOR loop below row `i` equals `EliminateBelow` |
| Reduction.EliminateAboveInPlace | src/hamming_code.py:66-69 | the in-place XOR loop above row `i` equals `EliminateAbove` |
| RowSpace.CombinationUnit | src/hamming_code.py:46-71 | each row of a matrix is the combination selecting only that row, so every matrix lies within its own row space |
| RowSpace.CombinationXor | src/hamming_code.py:63 | combining with the XOR of two selections gives the XOR of the two combinations |
| RowSpace.CombinationEntry | src/hamming_code.py:43-44 | entry `i` of a combination is the mod-2 dot product of the selection with column `i` |
| RowSpace.CombinationWithin | src/hamming_code.py:46-71 | a combination of rows that each lie in the row space of `b` lies in the row space of `b` |
| RowSpace.PermutationEquivalent | src/hamming_code.py:53-58 | a matrix whose rows are a permutation of another's has the same row space |
| RowSpace.AddRowEquivalent | src/hamming_code.py:60-69 | XORing row `i` into any of the other rows keeps the row space |
| RowSpace.ForwardStepEquivalent | src/hamming_code.py:52-63 | one forward step, pivot search and elimination below, keeps the row space |
| RowSpace.EliminateAboveEquivalent | src/hamming_code.py:66-69 | one backward step keeps the row space |
| RowSpace.ForwardEquivalent | src/hamming_code.py:51-63 | the whole forward pass keeps the row space |
| RowSpace.BackwardEquivalent | src/hamming_code.py:65-69 | the whole backward pass keeps the row space |
| RowSpace.GaussJordanEquivalent | src/hamming_code.py:46-71 | `__convert_to_g` returns a matrix with the same row space as its input, for every input it accepts |
| RowSpace.SameCode | src/hamming_code.py:33 | row-equivalent matrices generate the same code: each combination of one's rows is a combination of the other's |
| RowSpace.EncodeHammingIsCombination | src/hamming_code.py:102-105 | `u·G` is the XOR of the rows of `G` that `u` selects |
| RowSpace.CodewordsWithin | src/hamming_code.py:102-105 | when every row of `G` lies in the row space of `m`, every codeword `u·G` does too |
| RowSpace.WithinCode | src/hamming_code.py:102-105 | when every row of `m` lies in the row space of `G`, every combination of the rows of `m` is a codeword `u·G` |
| Secded.DeriveH | src/hamming_code.py:73-90 | `H` is 4×10, `H[i][j] == G[j][6+i]` for `j < 6`, and its right block is the identity |
| Secded.CheckRowSplit | src/hamming_code.py:78-90 | row `i` of `H` is column `6+i` of `G` followed by the `i`-th unit vector |
| Secded.CheckRowDot | src/hamming_code.py:125-126 | a syndrome bit is the dot product of the data part with a column of `P` plus the matching check bit |
| Secded.GeneratorOrthogonalToCheck | src/hamming_code.py:73-90 | `G·Hᵀ = 0`: every row of a systematic `G` has mod-2 dot product 0 with every row of the derived `H` |
| Secded.EncodeHamming | src/hamming_code.py:102-105 | one bit per column of `G`: ten bits; their meaning is stated by `EncodeHammingSystematic`, `CheckBit` and `EncodeHammingIsCombination` |
| Secded.EncodeWord | src/hamming_code.py:102-107 | a codeword has eleven bits; `EncodeWordProperties` states the rest |
| Secded.Syndrome | src/hamming_code.py:124-126 | one syndrome bit per row of `H`; `SyndromeFlip` and `EncodeHammingZeroSyndrome` state what the bits mean |
| Secded.DecodeWord | src/hamming_code.py:111-145 | data is returned exactly when the `HCResult` (lines 8-12) is not UNCORRECTABLE; returned data has six bits; VALID returns the first six bits received |
| Secded.SystematicColumn | src/hamming_code.py:103 | for `j < 6`, column `j` of a systematic `G` is the `j`-th unit vector |
| Secded.EncodeHammingSystematic | src/hamming_code.py:102-105 | the first six encoded bits equal the data word |
| Secded.CheckBit | src/hamming_code.py:102-105 | proof step: encoded bit `6+i` read off as the dot product of the data word with column `6+i` of `G`, used by the zero-syndrome lemmas |
| Secded.EncodeWordProperties | src/hamming_code.py:102-107 | a codeword starts with the data word, has even weight, and its first ten bits have zero syndrome |
| Secded.EncodeHammingZeroSyndrome | src/hamming_code.py:124-126 | the syndrome of `u·G` is zero |
| Secded.ZeroSyndromeIsCodeword | src/hamming_code.py:129-133 | conversely, ten bits with zero syndrome are `u·G` for `u` their first six bits |
| Secded.SyndromeFlip | src/hamming_code.py:124-126 | flipping bit `i` XORs column `i` of `H` into the syndrome |
| Secded.IsSyndromeTable | src/hamming_code.py:36-41 | the map the table loop builds: every one of the first `n` columns is a key, every key is one of them, and each maps to the last index holding it |
| Secded.SyndromeTableExact | src/hamming_code.py:36-41 | with distinct nonzero columns, the keys are exactly the columns, column `i` maps to `i`, and zero is not a key |
| Secded.SyndromeTableUnique | src/hamming_code.py:36-41 | two maps built from the same columns are equal |
| Secded.ColumnImageSize | src/hamming_code.py:39-41 | distinct columns give as many keys as columns |
| Secded.SyndromeTableSize | src/hamming_code.py:36-41 | the table has exactly ten entries |
| Secded.TableInRange | src/hamming_code.py:139-142 | every looked-up index lies inside the ten-bit Hamming part |
| Secded.DecodeCodeword | src/hamming_code.py:131-133 | an unaltered codeword decodes to its first six bits with VALID |
| Secded.DecodeCodewordFlip | src/hamming_code.py:131-143 | one flipped bit of a codeword decodes to its first six bits with CORRECTED: the parity bit through the zero-syndrome branch, the others through the lookup |
| Secded.DecodeCodewordDoubleFlip | src/hamming_code.py:136-145 | two flipped bits give a nonzero syndrome with matching parity: UNCORRECTABLE |
| Secded.DecodeEncode | src/hamming_code.py:113-133 | `decode(encode(d)) == (d, VALID)` |
| Secded.DecodeCorrectsSingleError | src/hamming_code.py:134-143 | flipping any one of the eleven bits of `encode(d)` decodes to `(d, CORRECTED)` |
| Secded.DecodeDetectsDoubleError | src/hamming_code.py:136-145 | flipping any two distinct bits of `encode(d)` decodes to `(None, UNCORRECTABLE)` |
| Secded.DecodeValidIffCodeword | src/hamming_code.py:131-133 | VALID is answered exactly when the word is the codeword of its first six bits |
| Secded.ParityBitFlipped | src/hamming_code.py:134-135 | zero syndrome with a parity mismatch means the codeword with its parity bit flipped |
| Secded.LookedUpBitFlipped | src/hamming_code.py:137-143 | a syndrome equal to column `k` with a parity mismatch means the codeword of the corrected bits with bit `k` flipped |
| Secded.DecodeCorrectedIsOneFlipAway | src/hamming_code.py:131-143 | CORRECTED is answered only for a word one flip away from the codeword of the data returned |
| Secded.DecodeUncorrectableIsFar | src/hamming_code.py:136-145 | UNCORRECTABLE is answered only for a word that is neither a codeword nor one flip from one |
| Secded.DecodeOutcomes | src/hamming_code.py:111-145 | the three outcomes together: VALID means a codeword; CORRECTED means data and one flip; UNCORRECTABLE means no data and no codeword |
| Seed.ForwardSeed0 | src/hamming_code.py:52-63 | the forward step for column 0 on the seed gives `FORWARD_1` |
| Seed.SeedForward | src/hamming_code.py:51-63 | the forward pass on the seed goes through `FORWARD_1`, `FORWARD_2` and ends in `ECHELON` |
| Seed.SeedPivotsOnDiagonal | src/hamming_code.py:53-58 | on the seed, every column's pivot is already on the diagonal: no swap and no failed search |
| Seed.SeedReduces | src/hamming_code.py:33 | the constructor's reduction of the seed yields `G_SYS` |
| Seed.GSysSystematic | src/hamming_code.py:46-71 | `G_SYS` has the 6×6 identity as its left block |
| Seed.SeedCheckMatrix | src/hamming_code.py:34 | `H_SYS` is the matrix derived from `G_SYS` |
| Seed.HSysColumns | src/hamming_code.py:39-40 | the ten columns of `H_SYS` |
| Seed.SyndromeTableNamesColumns | src/hamming_code.py:39-41 | each column of `H_SYS` maps to its own index in the written-out table |
| Seed.HSysColumnsDistinctNonzero | src/hamming_code.py:36-41 | the ten columns of `H_SYS` are pairwise distinct and nonzero |
| Seed.SyndromeTableKeysAreColumns | src/hamming_code.py:39-41 | every key of the written-out table is the column it maps to |
| Seed.SyndromeTableIsTable | src/hamming_code.py:36-41 | the written-out table is the map the loop builds from `H_SYS` |
| Seed.SyndromeTableOfHSys | src/hamming_code.py:36-41 | any map built from `H_SYS` is the written-out table |
| Seed.UnmappedSyndromes | src/hamming_code.py:139-141 | `0110`, `1010`, `1011`, `1101` and `1111` are not keys of the table |
| Seed.UnmappedSyndromeUncorrectable | src/hamming_code.py:136-145 | an eleven-bit word whose syndrome is one of those five decodes to `(None, UNCORRECTABLE)`, whatever its parity bit |
| Seed.SeedIsSecded | src/hamming_code.py:17-41 | the constructed matrices and any table built from `H_SYS` meet the SECDED assumptions |
| Seed.GSysCheckColumns | src/hamming_code.py:103 | the four check columns of `G_SYS` |
| Seed.ExampleCheckSumsLow | src/hamming_code.py:44 | proof step of `EncodeHammingExample`: the integer dot products of `101100` with check columns 6 and 7 of `G_SYS` |
| Seed.ExampleCheckSumsHigh | src/hamming_code.py:44 | proof step of `EncodeHammingExample`: the integer dot products of `101100` with check columns 8 and 9 of `G_SYS` |
| Seed.EncodeHammingExample | src/hamming_code.py:102-105 | `101100·G_SYS == 1011001011` |
| Seed.EncodeExample | src/hamming_code.py:92-109 | `encode(101100) == 10110010110` |
| Seed.SeedRowEquivalent | src/hamming_code.py:33 | `G_SYS` and the seed have the same row space |
| Seed.CodewordsInSeedRowSpace | src/hamming_code.py:102-105 | every codeword `u·G_SYS` is an XOR of rows of the seed |
| Seed.SeedRowSpaceIsCode | src/hamming_code.py:33 | every XOR of rows of the seed is a codeword `u·G_SYS`: both matrices generate the same code |
| HammingCode.BuildSyndromeMap | src/hamming_code.py:36-41 | the loop builds a map whose keys are the columns, each mapped to the last index holding it |
| HammingCode.HammingCode.constructor | src/hamming_code.py:17-41 | `g == GaussJordan(gns)`, `h == DeriveH(g)`, the table is built from `h`, and these are `G_SYS`, `H_SYS` and the written-out table |
| HammingCode.HammingCode.Encode | src/hamming_code.py:92-109 | length ≠ 6 is rejected; otherwise the result is `EncodeWord(g, u)`: 11 bits, the data first, even weight, zero syndrome |
| HammingCode.HammingCode.Decode | src/hamming_code.py:111-145 | length ≠ 11 is rejected; otherwise the result is `DecodeWord(h, syndromeMap, w)`, VALID only for codewords, CORRECTED only one flip from the codeword of the data returned, UNCORRECTABLE only with no data and no codeword |

## Left out

- src/stack_machine.py is not part of this model: its operations are unimplemented stubs, it depends on a `stack` module that is not available, and it does not parse.
- src/test.py is not part of this model: it is a test harness with no logic.
- Non-binary entries: bits are the integers 0 and 1 by type. The source checks only lengths and would compute with other integers.
- The string payloads of `HCResult` ('OK', 'FIXED', 'ERROR') are labels only. The datatype keeps just the three cases.
- `ValueError` is modelled as the `LengthError` case of a `Result`, carrying the expected length, not the message text.
- `total_bits`, `data_bits` and `parity_bits` are module constants (`TOTAL_BITS`, `DATA_BITS`, `PARITY_BITS`), not fields, because no method changes them.
- Reduction.GaussJordan: its own contract states only that rows and row lengths are kept; `RowSpace.GaussJordanEquivalent` proves for every input that the row space is kept. That the left block becomes the identity is proved only for the fixed seed (`Seed.SeedReduces`, `Seed.GSysSystematic`).
- HammingCode.HammingCode.Decode: `hamming_part` is a local sequence that the method reassigns when it flips a bit, not a Python list updated in place. The list is a local copy in the source, so no aliasing is lost.
