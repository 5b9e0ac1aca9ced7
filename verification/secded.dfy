/** The extended (11,6) Hamming code as pure functions of its matrices: the
    parity-check matrix derived from a systematic generator matrix, the
    syndrome table, encoding (`u·G` followed by one overall parity bit) and
    the SECDED decision table of decoding.

    The lemmas hold for EVERY systematic generator matrix `G = [I6 | P]`:
    `G·Hᵀ = 0`, encoding is systematic with an even-weight codeword whose
    syndrome is zero, and a word has zero syndrome only if it is a codeword.
    When moreover the ten columns of `H` are distinct and nonzero (which
    module Seed shows of the matrix the class uses), decoding inverts
    encoding, corrects every single bit flip and reports every double flip
    as uncorrectable. */
module Secded {
  import opened GF2

  /** Return codes of decoding. */
  datatype HCResult = VALID | CORRECTED | UNCORRECTABLE

  datatype Option<T> = None | Some(value: T)

  /** The `ValueError` raised for an input of the wrong length. */
  datatype Result<T> = Ok(value: T) | LengthError(expected: nat)

  /** `n`: bits of a codeword. */
  const TOTAL_BITS: nat := 11
  /** `k`: bits of a data word. */
  const DATA_BITS: nat := 6
  /** `r`, counting the overall parity bit. Like the source's `parity_bits`
      field it is set but no operation reads it. */
  const PARITY_BITS: nat := 5
  /** The bits protected by the Hamming part of the code: a codeword minus its overall parity bit. */
  const HAMMING_BITS: nat := 10
  /** Rows of `H`: `len(g[0]) - k`. */
  const CHECK_BITS: nat := 4

  /** The generator matrix is 6×10 with the identity as its left 6×6 block. */
  predicate IsSystematic(g: Matrix)
  {
    IsMatrix(g, DATA_BITS, HAMMING_BITS) &&
    forall r, j :: 0 <= r < DATA_BITS && 0 <= j < DATA_BITS ==> g[r][j] == if r == j then 1 else 0
  }

  /** `__derive_h`: `H = [Pᵀ | I]` from `G = [I | P]`. */
  function DeriveH(g: Matrix): (h: Matrix)
    requires IsMatrix(g, DATA_BITS, HAMMING_BITS)
    ensures IsMatrix(h, CHECK_BITS, HAMMING_BITS)
    ensures forall i, j :: 0 <= i < CHECK_BITS && 0 <= j < DATA_BITS ==> h[i][j] == g[j][DATA_BITS + i]
    ensures forall i, j :: 0 <= i < CHECK_BITS && DATA_BITS <= j < HAMMING_BITS ==> h[i][j] == if j == DATA_BITS + i then 1 else 0
  {
    var k := DATA_BITS;
    var rMatrix := |g[0]| - k;
    var pPart := seq(|g|, j requires 0 <= j < |g| => g[j][k..]);
    var pTransposed := seq(|pPart[0]|, i requires 0 <= i < |pPart[0]| =>
                         seq(|pPart|, j requires 0 <= j < |pPart| => pPart[j][i]));
    var identity := seq(rMatrix, i => seq(rMatrix, j => if i == j then 1 else 0));
    seq(Min(|pTransposed|, |identity|), i requires 0 <= i < Min(|pTransposed|, |identity|) =>
      pTransposed[i] + identity[i])
  }

  /** The ten bits `u·G` of a codeword: bit `i` is the dot product of `u` with column `i` of `G`. */
  function EncodeHamming(g: Matrix, u: Vector): (c: Vector)
    requires IsMatrix(g, DATA_BITS, HAMMING_BITS)
    ensures |c| == HAMMING_BITS
  {
    seq(HAMMING_BITS, i requires 0 <= i < HAMMING_BITS => DotMod2(u, Column(g, i)))
  }

  /** `encode`: the ten bits `u·G` followed by their overall parity. */
  function EncodeWord(g: Matrix, u: Vector): (w: Vector)
    requires IsMatrix(g, DATA_BITS, HAMMING_BITS)
    ensures |w| == TOTAL_BITS
  {
    var c := EncodeHamming(g, u);
    c + [Parity(c)]
  }

  /** `H·cᵀ`: one bit per row of `H`. */
  function Syndrome(h: Matrix, c: Vector): (s: Vector)
    ensures |s| == |h|
  {
    seq(|h|, i requires 0 <= i < |h| => DotMod2(c, h[i]))
  }

  /** The map the constructor builds from the first `n` columns of `h`: every one
      of those columns is a key, every key is one of them, and it maps to the
      last of those columns equal to it (later columns overwrite earlier ones). */
  ghost predicate IsSyndromeTable(table: map<Vector, nat>, h: Matrix, n: nat)
    requires forall r :: 0 <= r < |h| ==> n <= |h[r]|
  {
    (forall i :: 0 <= i < n ==> Column(h, i) in table) &&
    (forall s :: s in table ==>
      table[s] < n && Column(h, table[s]) == s &&
      forall j :: table[s] < j < n ==> Column(h, j) != s)
  }

  /** `decode` on a word of the right length, as the decision table on the
      syndrome of the first ten bits and the overall parity check. */
  function DecodeWord(h: Matrix, table: map<Vector, nat>, w: Vector): (r: (Option<Vector>, HCResult))
    requires |w| == TOTAL_BITS
    requires forall s :: s in table ==> table[s] < HAMMING_BITS
    ensures r.0.Some? <==> r.1 != UNCORRECTABLE
    ensures r.0.Some? ==> |r.0.value| == DATA_BITS
    ensures r.1 == VALID ==> r.0 == Some(w[..DATA_BITS])
  {
    var hammingPart := w[..HAMMING_BITS];
    var hasParityError := Parity(hammingPart) != w[HAMMING_BITS];
    var syndrome := Syndrome(h, hammingPart);
    assert hammingPart[..DATA_BITS] == w[..DATA_BITS];
    if IsZero(syndrome) then
      (Some(hammingPart[..DATA_BITS]), if hasParityError then CORRECTED else VALID)
    else if hasParityError && syndrome in table then
      (Some(Flip(hammingPart, table[syndrome])[..DATA_BITS]), CORRECTED)
    else
      (None, UNCORRECTABLE)
  }

  /** The ten columns of `H` are pairwise distinct and none is zero, so a single
      flipped bit is located by its syndrome. */
  predicate ColumnsDistinctNonzero(h: Matrix)
    requires IsMatrix(h, CHECK_BITS, HAMMING_BITS)
  {
    (forall i :: 0 <= i < HAMMING_BITS ==> !IsZero(Column(h, i))) &&
    (forall i, j :: 0 <= i < j < HAMMING_BITS ==> Column(h, i) != Column(h, j))
  }

  // ---------------------------------------------------------------------
  // Systematic generator matrices

  lemma SystematicColumn(g: Matrix, j: nat)
    requires IsSystematic(g) && j < DATA_BITS
    ensures Column(g, j) == Unit(DATA_BITS, j)
  {
  }

  /** Row `i` of `H` splits into column `6 + i` of `G` and the `i`-th unit vector. */
  lemma CheckRowSplit(g: Matrix, i: nat)
    requires IsSystematic(g) && i < CHECK_BITS
    ensures DeriveH(g)[i] == Column(g, DATA_BITS + i) + Unit(CHECK_BITS, i)
  {
  }

  /** The dot product of a ten-bit word with row `i` of `H`. */
  lemma {:induction false} CheckRowDot(g: Matrix, c: Vector, i: nat)
    requires IsSystematic(g) && |c| == HAMMING_BITS && i < CHECK_BITS
    ensures SumProducts(c, DeriveH(g)[i]) == SumProducts(c[..DATA_BITS], Column(g, DATA_BITS + i)) + c[DATA_BITS + i]
  {
    CheckRowSplit(g, i);
    assert c == c[..DATA_BITS] + c[DATA_BITS..];
    SumProductsAppend(c[..DATA_BITS], c[DATA_BITS..], Column(g, DATA_BITS + i), Unit(CHECK_BITS, i));
    SumProductsUnit(c[DATA_BITS..], i);
  }

  /** `G·Hᵀ = 0`: every row of `G` is orthogonal to every row of `H`. */
  lemma {:induction false} GeneratorOrthogonalToCheck(g: Matrix)
    requires IsSystematic(g)
    ensures forall r, i :: 0 <= r < DATA_BITS && 0 <= i < CHECK_BITS ==> DotMod2(g[r], DeriveH(g)[i]) == 0
  {
    forall r, i | 0 <= r < DATA_BITS && 0 <= i < CHECK_BITS
      ensures DotMod2(g[r], DeriveH(g)[i]) == 0
    {
      CheckRowDot(g, g[r], i);
      var col := Column(g, DATA_BITS + i);
      assert g[r][..DATA_BITS] == Unit(DATA_BITS, r);
      SumProductsSymmetric(Unit(DATA_BITS, r), col);
      SumProductsUnit(col, r);
    }
  }

  /** Encoding with a systematic matrix copies the data word into the first six bits. */
  lemma {:induction false} EncodeHammingSystematic(g: Matrix, u: Vector)
    requires IsSystematic(g) && |u| == DATA_BITS
    ensures EncodeHamming(g, u)[..DATA_BITS] == u
  {
    forall j | 0 <= j < DATA_BITS
      ensures EncodeHamming(g, u)[j] == u[j]
    {
      SystematicColumn(g, j);
      SumProductsUnit(u, j);
    }
  }

  /** Check bit `i` of a codeword is the dot product of the data word with column `6 + i` of `G`. */
  lemma CheckBit(g: Matrix, u: Vector, i: nat)
    requires IsSystematic(g) && |u| == DATA_BITS && i < CHECK_BITS
    ensures EncodeHamming(g, u)[DATA_BITS + i] == SumProducts(u, Column(g, DATA_BITS + i)) % 2
  {
  }

  /** Every codeword of a systematic code: 11 bits, the data word first, even weight, zero syndrome. */
  lemma {:induction false} EncodeWordProperties(g: Matrix, u: Vector)
    requires IsSystematic(g) && |u| == DATA_BITS
    ensures EncodeWord(g, u)[..DATA_BITS] == u
    ensures Parity(EncodeWord(g, u)) == 0
    ensures IsZero(Syndrome(DeriveH(g), EncodeWord(g, u)[..HAMMING_BITS]))
  {
    var c := EncodeHamming(g, u);
    EncodeHammingSystematic(g, u);
    assert EncodeWord(g, u)[..DATA_BITS] == c[..DATA_BITS];
    SumAppend(c, [Parity(c)]);
    assert Sum([Parity(c)]) == Parity(c);
    assert EncodeWord(g, u)[..HAMMING_BITS] == c;
    EncodeHammingZeroSyndrome(g, u);
  }

  /** `H·cᵀ = 0` for the ten bits `c = u·G` of every codeword. */
  lemma {:induction false} EncodeHammingZeroSyndrome(g: Matrix, u: Vector)
    requires IsSystematic(g) && |u| == DATA_BITS
    ensures IsZero(Syndrome(DeriveH(g), EncodeHamming(g, u)))
  {
    var c := EncodeHamming(g, u);
    EncodeHammingSystematic(g, u);
    forall i | 0 <= i < CHECK_BITS
      ensures Syndrome(DeriveH(g), c)[i] == 0
    {
      CheckRowDot(g, c, i);
      CheckBit(g, u, i);
    }
  }

  /** The converse: a ten-bit word with zero syndrome is the Hamming part of the codeword of its first six bits. */
  lemma {:induction false} ZeroSyndromeIsCodeword(g: Matrix, c: Vector)
    requires IsSystematic(g) && |c| == HAMMING_BITS
    requires IsZero(Syndrome(DeriveH(g), c))
    ensures c == EncodeHamming(g, c[..DATA_BITS])
  {
    var u := c[..DATA_BITS];
    var e := EncodeHamming(g, u);
    EncodeHammingSystematic(g, u);
    forall k | 0 <= k < HAMMING_BITS
      ensures c[k] == e[k]
    {
      if k < DATA_BITS {
        assert e[..DATA_BITS][k] == u[k];
      } else {
        var i := k - DATA_BITS;
        CheckRowDot(g, c, i);
        CheckBit(g, u, i);
        assert Syndrome(DeriveH(g), c)[i] == 0;
      }
    }
  }

  /** Flipping bit `i` adds column `i` of `H` to the syndrome. */
  lemma SyndromeFlip(h: Matrix, c: Vector, i: nat)
    requires IsMatrix(h, CHECK_BITS, HAMMING_BITS) && |c| == HAMMING_BITS && i < HAMMING_BITS
    ensures Syndrome(h, Flip(c, i)) == XorVec(Syndrome(h, c), Column(h, i))
  {
    forall r | 0 <= r < CHECK_BITS
      ensures Syndrome(h, Flip(c, i))[r] == XorVec(Syndrome(h, c), Column(h, i))[r]
    {
      DotMod2Flip(c, h[r], i);
    }
  }

  // ---------------------------------------------------------------------
  // The syndrome table

  /** With distinct columns, the table maps column `i` to `i`, and the zero syndrome is not a key. */
  lemma SyndromeTableExact(h: Matrix, table: map<Vector, nat>)
    requires IsMatrix(h, CHECK_BITS, HAMMING_BITS) && ColumnsDistinctNonzero(h)
    requires IsSyndromeTable(table, h, HAMMING_BITS)
    ensures forall i :: 0 <= i < HAMMING_BITS ==> Column(h, i) in table && table[Column(h, i)] == i
    ensures Zeros(CHECK_BITS) !in table
    ensures table.Keys == set i | 0 <= i < HAMMING_BITS :: Column(h, i)
  {
    forall i | 0 <= i < HAMMING_BITS
      ensures table[Column(h, i)] == i
    {
      var k := table[Column(h, i)];
      assert Column(h, k) == Column(h, i);
    }
  }

  /** The table is determined by `h`: two maps built from the same columns are equal. */
  lemma SyndromeTableUnique(t1: map<Vector, nat>, t2: map<Vector, nat>, h: Matrix, n: nat)
    requires forall r :: 0 <= r < |h| ==> n <= |h[r]|
    requires IsSyndromeTable(t1, h, n) && IsSyndromeTable(t2, h, n)
    ensures t1 == t2
  {
    forall s | s in t1
      ensures s in t2 && t1[s] == t2[s]
    {
      assert Column(h, t1[s]) in t2;
    }
    forall s | s in t2
      ensures s in t1
    {
      assert Column(h, t2[s]) in t1;
    }
  }

  /** Injectivity makes the image of `0 .. n-1` have `n` elements. */
  lemma {:induction false} ColumnImageSize(h: Matrix, n: nat)
    requires IsMatrix(h, CHECK_BITS, HAMMING_BITS) && ColumnsDistinctNonzero(h) && n <= HAMMING_BITS
    ensures |set i | 0 <= i < n :: Column(h, i)| == n
  {
    if n > 0 {
      ColumnImageSize(h, n - 1);
      var smaller := set i | 0 <= i < n - 1 :: Column(h, i);
      assert (set i | 0 <= i < n :: Column(h, i)) == smaller + {Column(h, n - 1)};
      assert Column(h, n - 1) !in smaller;
    }
  }

  /** The table has exactly one key per column of `H`: ten of the sixteen syndromes. */
  lemma SyndromeTableSize(h: Matrix, table: map<Vector, nat>)
    requires IsMatrix(h, CHECK_BITS, HAMMING_BITS) && ColumnsDistinctNonzero(h)
    requires IsSyndromeTable(table, h, HAMMING_BITS)
    ensures |table| == HAMMING_BITS
  {
    SyndromeTableExact(h, table);
    ColumnImageSize(h, HAMMING_BITS);
  }

  // ---------------------------------------------------------------------
  // Decoding a codeword, written `c + [Parity(c)]` with `c` of zero syndrome

  /** An unaltered codeword decodes to its first six bits, VALID. */
  lemma DecodeCodeword(h: Matrix, table: map<Vector, nat>, c: Vector)
    requires IsMatrix(h, CHECK_BITS, HAMMING_BITS) && forall s :: s in table ==> table[s] < HAMMING_BITS
    requires |c| == HAMMING_BITS && IsZero(Syndrome(h, c))
    ensures DecodeWord(h, table, c + [Parity(c)]) == (Some(c[..DATA_BITS]), VALID)
  {
    assert (c + [Parity(c)])[..HAMMING_BITS] == c;
  }

  /** One flipped bit of a codeword is found and undone. */
  lemma DecodeCodewordFlip(h: Matrix, table: map<Vector, nat>, c: Vector, i: nat)
    requires IsMatrix(h, CHECK_BITS, HAMMING_BITS) && ColumnsDistinctNonzero(h) && forall s :: s in table ==> table[s] < HAMMING_BITS
    requires forall k :: 0 <= k < HAMMING_BITS ==> Column(h, k) in table && table[Column(h, k)] == k
    requires |c| == HAMMING_BITS && IsZero(Syndrome(h, c)) && i < TOTAL_BITS
    ensures DecodeWord(h, table, Flip(c + [Parity(c)], i)) == (Some(c[..DATA_BITS]), CORRECTED)
  {
    var w := Flip(c + [Parity(c)], i);
    if i == HAMMING_BITS {
      assert w[..HAMMING_BITS] == c;
    } else {
      assert w[..HAMMING_BITS] == Flip(c, i);
      ParityFlip(c, i);
      SyndromeFlip(h, c, i);
      XorVecZeroLeft(Syndrome(h, c), Column(h, i));
      assert Flip(Flip(c, i), i) == c;
    }
  }

  /** Two flipped bits of a codeword are detected and not miscorrected. */
  lemma DecodeCodewordDoubleFlip(h: Matrix, table: map<Vector, nat>, c: Vector, i: nat, j: nat)
    requires IsMatrix(h, CHECK_BITS, HAMMING_BITS) && ColumnsDistinctNonzero(h) && forall s :: s in table ==> table[s] < HAMMING_BITS
    requires |c| == HAMMING_BITS && IsZero(Syndrome(h, c)) && i < j < TOTAL_BITS
    ensures DecodeWord(h, table, Flip(Flip(c + [Parity(c)], i), j)) == (None, UNCORRECTABLE)
  {
    var w := Flip(Flip(c + [Parity(c)], i), j);
    ParityFlip(c, i);
    SyndromeFlip(h, c, i);
    XorVecZeroLeft(Syndrome(h, c), Column(h, i));
    if j == HAMMING_BITS {
      assert w[..HAMMING_BITS] == Flip(c, i);
    } else {
      assert w[..HAMMING_BITS] == Flip(Flip(c, i), j);
      ParityFlip(Flip(c, i), j);
      SyndromeFlip(h, Flip(c, i), j);
      XorVecZeroIffEqual(Column(h, i), Column(h, j));
    }
  }

  // ---------------------------------------------------------------------
  // SECDED: decoding against encoding

  /** The assumptions under which the code corrects single and detects double errors. */
  ghost predicate IsSecded(g: Matrix, h: Matrix, table: map<Vector, nat>)
  {
    IsSystematic(g) && h == DeriveH(g) && ColumnsDistinctNonzero(h) && IsSyndromeTable(table, h, HAMMING_BITS)
  }

  /** The table of a SECDED code names only positions of the protected part. */
  lemma TableInRange(g: Matrix, h: Matrix, table: map<Vector, nat>)
    requires IsSecded(g, h, table)
    ensures forall s :: s in table ==> table[s] < HAMMING_BITS
  {
  }

  /** `decode(encode(d)) == (d, VALID)`. */
  lemma DecodeEncode(g: Matrix, h: Matrix, table: map<Vector, nat>, d: Vector)
    requires IsSecded(g, h, table) && |d| == DATA_BITS
    ensures DecodeWord(h, table, EncodeWord(g, d)) == (Some(d), VALID)
  {
    EncodeHammingZeroSyndrome(g, d);
    EncodeHammingSystematic(g, d);
    DecodeCodeword(h, table, EncodeHamming(g, d));
  }

  /** Flipping any one of the eleven bits of a codeword decodes to the data word, CORRECTED. */
  lemma DecodeCorrectsSingleError(g: Matrix, h: Matrix, table: map<Vector, nat>, d: Vector, i: nat)
    requires IsSecded(g, h, table) && |d| == DATA_BITS && i < TOTAL_BITS
    ensures DecodeWord(h, table, Flip(EncodeWord(g, d), i)) == (Some(d), CORRECTED)
  {
    EncodeHammingZeroSyndrome(g, d);
    EncodeHammingSystematic(g, d);
    SyndromeTableExact(h, table);
    DecodeCodewordFlip(h, table, EncodeHamming(g, d), i);
  }

  /** Flipping any two distinct bits of a codeword decodes to UNCORRECTABLE. */
  lemma DecodeDetectsDoubleError(g: Matrix, h: Matrix, table: map<Vector, nat>, d: Vector, i: nat, j: nat)
    requires IsSecded(g, h, table) && |d| == DATA_BITS && i < j < TOTAL_BITS
    ensures DecodeWord(h, table, Flip(Flip(EncodeWord(g, d), i), j)) == (None, UNCORRECTABLE)
  {
    EncodeHammingZeroSyndrome(g, d);
    DecodeCodewordDoubleFlip(h, table, EncodeHamming(g, d), i, j);
  }

  /** VALID is reported exactly for codewords. */
  lemma DecodeValidIffCodeword(g: Matrix, h: Matrix, table: map<Vector, nat>, w: Vector)
    requires IsSecded(g, h, table) && |w| == TOTAL_BITS
    ensures DecodeWord(h, table, w).1 == VALID <==> w == EncodeWord(g, w[..DATA_BITS])
  {
    var c := w[..HAMMING_BITS];
    assert c[..DATA_BITS] == w[..DATA_BITS];
    if DecodeWord(h, table, w).1 == VALID {
      ZeroSyndromeIsCodeword(g, c);
      assert w == c + [w[HAMMING_BITS]];
    }
    if w == EncodeWord(g, w[..DATA_BITS]) {
      DecodeEncode(g, h, table, w[..DATA_BITS]);
    }
  }

  /** A wrong overall parity bit on a codeword: the word is the codeword with bit 10 flipped. */
  lemma ParityBitFlipped(g: Matrix, c: Vector, p: Bit)
    requires IsSystematic(g) && |c| == HAMMING_BITS && IsZero(Syndrome(DeriveH(g), c)) && p != Parity(c)
    ensures c + [p] == Flip(EncodeWord(g, c[..DATA_BITS]), HAMMING_BITS)
  {
    ZeroSyndromeIsCodeword(g, c);
  }

  /** A syndrome equal to column `k` with a wrong parity: the word is the codeword of `Flip(c, k)` with bit `k` flipped. */
  lemma LookedUpBitFlipped(g: Matrix, c: Vector, p: Bit, k: nat)
    requires IsSystematic(g) && |c| == HAMMING_BITS && k < HAMMING_BITS
    requires Syndrome(DeriveH(g), c) == Column(DeriveH(g), k) && p != Parity(c)
    ensures c + [p] == Flip(EncodeWord(g, Flip(c, k)[..DATA_BITS]), k)
  {
    var h := DeriveH(g);
    var fixed := Flip(c, k);
    SyndromeFlip(h, c, k);
    XorVecZeroIffEqual(Syndrome(h, c), Column(h, k));
    ZeroSyndromeIsCodeword(g, fixed);
    ParityFlip(c, k);
    assert Flip(fixed, k) == c;
  }

  /** CORRECTED is reported only for a word one flip away from the codeword of the data returned. */
  lemma DecodeCorrectedIsOneFlipAway(g: Matrix, h: Matrix, table: map<Vector, nat>, w: Vector)
    requires IsSecded(g, h, table) && |w| == TOTAL_BITS
    ensures DecodeWord(h, table, w).1 == CORRECTED ==>
      DecodeWord(h, table, w).0.Some? &&
      exists i :: 0 <= i < TOTAL_BITS && w == Flip(EncodeWord(g, DecodeWord(h, table, w).0.value), i)
  {
    var c := w[..HAMMING_BITS];
    var p := w[HAMMING_BITS];
    assert w == c + [p];
    var s := Syndrome(h, c);
    if IsZero(s) && p != Parity(c) {
      ParityBitFlipped(g, c, p);
    } else if !IsZero(s) && p != Parity(c) && s in table {
      LookedUpBitFlipped(g, c, p, table[s]);
    }
  }

  /** UNCORRECTABLE is reported only for a word at distance two or more from every codeword. */
  lemma DecodeUncorrectableIsFar(g: Matrix, h: Matrix, table: map<Vector, nat>, w: Vector)
    requires IsSecded(g, h, table) && |w| == TOTAL_BITS
    requires DecodeWord(h, table, w).1 == UNCORRECTABLE
    ensures forall d :: |d| == DATA_BITS ==> w != EncodeWord(g, d)
    ensures forall d, i :: |d| == DATA_BITS && 0 <= i < TOTAL_BITS ==> w != Flip(EncodeWord(g, d), i)
  {
    forall d | |d| == DATA_BITS
      ensures w != EncodeWord(g, d)
    {
      DecodeEncode(g, h, table, d);
    }
    forall d, i | |d| == DATA_BITS && 0 <= i < TOTAL_BITS
      ensures w != Flip(EncodeWord(g, d), i)
    {
      DecodeCorrectsSingleError(g, h, table, d, i);
    }
  }

  /** What each outcome of decoding says about the received word, for a SECDED code. */
  lemma DecodeOutcomes(g: Matrix, h: Matrix, table: map<Vector, nat>, w: Vector)
    requires IsSecded(g, h, table) && |w| == TOTAL_BITS
    ensures DecodeWord(h, table, w).1 == VALID ==> w == EncodeWord(g, w[..DATA_BITS])
    ensures DecodeWord(h, table, w).1 == CORRECTED ==>
      DecodeWord(h, table, w).0.Some? &&
      exists i :: 0 <= i < TOTAL_BITS && w == Flip(EncodeWord(g, DecodeWord(h, table, w).0.value), i)
    ensures DecodeWord(h, table, w).1 == UNCORRECTABLE ==>
      DecodeWord(h, table, w).0 == None && forall d :: |d| == DATA_BITS ==> w != EncodeWord(g, d)
  {
    DecodeValidIffCodeword(g, h, table, w);
    DecodeCorrectedIsOneFlipAway(g, h, table, w);
    if DecodeWord(h, table, w).1 == UNCORRECTABLE {
      DecodeUncorrectableIsFar(g, h, table, w);
    }
  }
}
