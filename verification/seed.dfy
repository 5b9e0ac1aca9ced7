/** The concrete code of `HammingCode`: the fixed seed matrix, its reduction to
    the systematic generator matrix, step by step as the source's loops run,
    the parity-check matrix derived from it, and the SECDED facts about that
    parity-check matrix. Together with module Secded these give the
    guarantees of the object the constructor builds. */
module Seed {
  import opened GF2
  import opened Reduction
  import opened Secded
  import opened RowSpace

  /** The fixed 6×10 seed generator matrix of the constructor. */
  const GNS: Matrix := [
      [1, 1, 1, 0, 0, 0, 0, 1, 0, 0],
      [0, 1, 0, 0, 1, 0, 0, 1, 0, 0],
      [1, 0, 0, 1, 0, 1, 0, 0, 0, 0],
      [0, 0, 0, 1, 0, 0, 1, 1, 0, 0],
      [1, 1, 0, 1, 0, 0, 0, 1, 1, 0],
      [1, 0, 0, 1, 0, 0, 0, 1, 0, 1]
    ]

  /** After the forward pass has handled column 0. */
  const FORWARD_1: Matrix := [
      [1, 1, 1, 0, 0, 0, 0, 1, 0, 0],
      [0, 1, 0, 0, 1, 0, 0, 1, 0, 0],
      [0, 1, 1, 1, 0, 1, 0, 1, 0, 0],
      [0, 0, 0, 1, 0, 0, 1, 1, 0, 0],
      [0, 0, 1, 1, 0, 0, 0, 0, 1, 0],
      [0, 1, 1, 1, 0, 0, 0, 0, 0, 1]
    ]

  /** After the forward pass has handled column 1. */
  const FORWARD_2: Matrix := [
      [1, 1, 1, 0, 0, 0, 0, 1, 0, 0],
      [0, 1, 0, 0, 1, 0, 0, 1, 0, 0],
      [0, 0, 1, 1, 1, 1, 0, 0, 0, 0],
      [0, 0, 0, 1, 0, 0, 1, 1, 0, 0],
      [0, 0, 1, 1, 0, 0, 0, 0, 1, 0],
      [0, 0, 1, 1, 1, 0, 0, 1, 0, 1]
    ]

  /** After column 2, and unchanged by columns 3 to 5: the row echelon form. */
  const ECHELON: Matrix := [
      [1, 1, 1, 0, 0, 0, 0, 1, 0, 0],
      [0, 1, 0, 0, 1, 0, 0, 1, 0, 0],
      [0, 0, 1, 1, 1, 1, 0, 0, 0, 0],
      [0, 0, 0, 1, 0, 0, 1, 1, 0, 0],
      [0, 0, 0, 0, 1, 1, 0, 0, 1, 0],
      [0, 0, 0, 0, 0, 1, 0, 1, 0, 1]
    ]

  /** After the backward pass has handled column 5. */
  const BACKWARD_1: Matrix := [
      [1, 1, 1, 0, 0, 0, 0, 1, 0, 0],
      [0, 1, 0, 0, 1, 0, 0, 1, 0, 0],
      [0, 0, 1, 1, 1, 0, 0, 1, 0, 1],
      [0, 0, 0, 1, 0, 0, 1, 1, 0, 0],
      [0, 0, 0, 0, 1, 0, 0, 1, 1, 1],
      [0, 0, 0, 0, 0, 1, 0, 1, 0, 1]
    ]

  /** After column 4. */
  const BACKWARD_2: Matrix := [
      [1, 1, 1, 0, 0, 0, 0, 1, 0, 0],
      [0, 1, 0, 0, 0, 0, 0, 0, 1, 1],
      [0, 0, 1, 1, 0, 0, 0, 0, 1, 0],
      [0, 0, 0, 1, 0, 0, 1, 1, 0, 0],
      [0, 0, 0, 0, 1, 0, 0, 1, 1, 1],
      [0, 0, 0, 0, 0, 1, 0, 1, 0, 1]
    ]

  /** After column 3. */
  const BACKWARD_3: Matrix := [
      [1, 1, 1, 0, 0, 0, 0, 1, 0, 0],
      [0, 1, 0, 0, 0, 0, 0, 0, 1, 1],
      [0, 0, 1, 0, 0, 0, 1, 1, 1, 0],
      [0, 0, 0, 1, 0, 0, 1, 1, 0, 0],
      [0, 0, 0, 0, 1, 0, 0, 1, 1, 1],
      [0, 0, 0, 0, 0, 1, 0, 1, 0, 1]
    ]

  /** After column 2. */
  const BACKWARD_4: Matrix := [
      [1, 1, 0, 0, 0, 0, 1, 0, 1, 0],
      [0, 1, 0, 0, 0, 0, 0, 0, 1, 1],
      [0, 0, 1, 0, 0, 0, 1, 1, 1, 0],
      [0, 0, 0, 1, 0, 0, 1, 1, 0, 0],
      [0, 0, 0, 0, 1, 0, 0, 1, 1, 1],
      [0, 0, 0, 0, 0, 1, 0, 1, 0, 1]
    ]

  /** After column 1, and unchanged by column 0: the systematic generator matrix `[I6 | P]`. */
  const G_SYS: Matrix := [
      [1, 0, 0, 0, 0, 0, 1, 0, 0, 1],
      [0, 1, 0, 0, 0, 0, 0, 0, 1, 1],
      [0, 0, 1, 0, 0, 0, 1, 1, 1, 0],
      [0, 0, 0, 1, 0, 0, 1, 1, 0, 0],
      [0, 0, 0, 0, 1, 0, 0, 1, 1, 1],
      [0, 0, 0, 0, 0, 1, 0, 1, 0, 1]
    ]

  /** `H = [Pᵀ | I4]` for `G_SYS = [I6 | P]`: the parity-check matrix. */
  const H_SYS: Matrix := [
      [1, 0, 1, 1, 0, 0, 1, 0, 0, 0],
      [0, 0, 1, 1, 1, 1, 0, 1, 0, 0],
      [0, 1, 1, 0, 1, 0, 0, 0, 1, 0],
      [1, 1, 0, 0, 1, 1, 0, 0, 0, 1]
    ]

  // ---------------------------------------------------------------------
  // The reduction of the seed, one step at a time

  /** Forward step for column 0. */
  lemma ForwardSeed0()
    ensures ForwardStep(GNS, 0) == FORWARD_1
  {
    ForwardStepRows(GNS, 0);
    assert XorVec(GNS[2], GNS[0]) == FORWARD_1[2];
    assert XorVec(GNS[4], GNS[0]) == FORWARD_1[4];
    assert XorVec(GNS[5], GNS[0]) == FORWARD_1[5];
    assert ForwardStep(GNS, 0) == [FORWARD_1[0], FORWARD_1[1], FORWARD_1[2], FORWARD_1[3], FORWARD_1[4], FORWARD_1[5]];
  }

  /** Forward step for column 1. */
  lemma ForwardSeed1()
    ensures ForwardStep(FORWARD_1, 1) == FORWARD_2
  {
    ForwardStepRows(FORWARD_1, 1);
    assert XorVec(FORWARD_1[2], FORWARD_1[1]) == FORWARD_2[2];
    assert XorVec(FORWARD_1[5], FORWARD_1[1]) == FORWARD_2[5];
    assert ForwardStep(FORWARD_1, 1) == [FORWARD_2[0], FORWARD_2[1], FORWARD_2[2], FORWARD_2[3], FORWARD_2[4], FORWARD_2[5]];
  }

  /** Forward step for column 2. */
  lemma ForwardSeed2()
    ensures ForwardStep(FORWARD_2, 2) == ECHELON
  {
    ForwardStepRows(FORWARD_2, 2);
    assert XorVec(FORWARD_2[4], FORWARD_2[2]) == ECHELON[4];
    assert XorVec(FORWARD_2[5], FORWARD_2[2]) == ECHELON[5];
    assert ForwardStep(FORWARD_2, 2) == [ECHELON[0], ECHELON[1], ECHELON[2], ECHELON[3], ECHELON[4], ECHELON[5]];
  }

  /** Forward step for column 3. */
  lemma ForwardSeed3()
    ensures ForwardStep(ECHELON, 3) == ECHELON
  {
    ForwardStepRows(ECHELON, 3);
    assert ForwardStep(ECHELON, 3) == [ECHELON[0], ECHELON[1], ECHELON[2], ECHELON[3], ECHELON[4], ECHELON[5]];
  }

  /** Forward step for column 4. */
  lemma ForwardSeed4()
    ensures ForwardStep(ECHELON, 4) == ECHELON
  {
    ForwardStepRows(ECHELON, 4);
    assert ForwardStep(ECHELON, 4) == [ECHELON[0], ECHELON[1], ECHELON[2], ECHELON[3], ECHELON[4], ECHELON[5]];
  }

  /** Forward step for column 5. */
  lemma ForwardSeed5()
    ensures ForwardStep(ECHELON, 5) == ECHELON
  {
    ForwardStepRows(ECHELON, 5);
    assert ForwardStep(ECHELON, 5) == [ECHELON[0], ECHELON[1], ECHELON[2], ECHELON[3], ECHELON[4], ECHELON[5]];
  }

  /** Backward step for column 5. */
  lemma BackwardSeed5()
    ensures EliminateAbove(ECHELON, 5) == BACKWARD_1
  {
    EliminateAboveRows(ECHELON, 5);
    assert XorVec(ECHELON[2], ECHELON[5]) == BACKWARD_1[2];
    assert XorVec(ECHELON[4], ECHELON[5]) == BACKWARD_1[4];
    assert EliminateAbove(ECHELON, 5) == [BACKWARD_1[0], BACKWARD_1[1], BACKWARD_1[2], BACKWARD_1[3], BACKWARD_1[4], BACKWARD_1[5]];
  }

  /** Backward step for column 4. */
  lemma BackwardSeed4()
    ensures EliminateAbove(BACKWARD_1, 4) == BACKWARD_2
  {
    EliminateAboveRows(BACKWARD_1, 4);
    assert XorVec(BACKWARD_1[1], BACKWARD_1[4]) == BACKWARD_2[1];
    assert XorVec(BACKWARD_1[2], BACKWARD_1[4]) == BACKWARD_2[2];
    assert EliminateAbove(BACKWARD_1, 4) == [BACKWARD_2[0], BACKWARD_2[1], BACKWARD_2[2], BACKWARD_2[3], BACKWARD_2[4], BACKWARD_2[5]];
  }

  /** Backward step for column 3. */
  lemma BackwardSeed3()
    ensures EliminateAbove(BACKWARD_2, 3) == BACKWARD_3
  {
    EliminateAboveRows(BACKWARD_2, 3);
    assert XorVec(BACKWARD_2[2], BACKWARD_2[3]) == BACKWARD_3[2];
    assert EliminateAbove(BACKWARD_2, 3) == [BACKWARD_3[0], BACKWARD_3[1], BACKWARD_3[2], BACKWARD_3[3], BACKWARD_3[4], BACKWARD_3[5]];
  }

  /** Backward step for column 2. */
  lemma BackwardSeed2()
    ensures EliminateAbove(BACKWARD_3, 2) == BACKWARD_4
  {
    EliminateAboveRows(BACKWARD_3, 2);
    assert XorVec(BACKWARD_3[0], BACKWARD_3[2]) == BACKWARD_4[0];
    assert EliminateAbove(BACKWARD_3, 2) == [BACKWARD_4[0], BACKWARD_4[1], BACKWARD_4[2], BACKWARD_4[3], BACKWARD_4[4], BACKWARD_4[5]];
  }

  /** Backward step for column 1. */
  lemma BackwardSeed1()
    ensures EliminateAbove(BACKWARD_4, 1) == G_SYS
  {
    EliminateAboveRows(BACKWARD_4, 1);
    assert XorVec(BACKWARD_4[0], BACKWARD_4[1]) == G_SYS[0];
    assert EliminateAbove(BACKWARD_4, 1) == [G_SYS[0], G_SYS[1], G_SYS[2], G_SYS[3], G_SYS[4], G_SYS[5]];
  }

  /** Backward step for column 0. */
  lemma BackwardSeed0()
    ensures EliminateAbove(G_SYS, 0) == G_SYS
  {
    EliminateAboveRows(G_SYS, 0);
    assert EliminateAbove(G_SYS, 0) == [G_SYS[0], G_SYS[1], G_SYS[2], G_SYS[3], G_SYS[4], G_SYS[5]];
  }

  /** The forward pass on the seed, column by column; it ends in ECHELON. */
  lemma SeedForward()
    ensures Forward(GNS, 1) == FORWARD_1 && Forward(GNS, 2) == FORWARD_2
    ensures Forward(GNS, 3) == ECHELON && Forward(GNS, 4) == ECHELON
    ensures Forward(GNS, 5) == ECHELON && Forward(GNS, |GNS|) == ECHELON
  {
    ForwardSeed0();
    ForwardSeed1();
    ForwardSeed2();
    ForwardSeed3();
    ForwardSeed4();
    ForwardSeed5();
  }

  /** On the seed every column finds its pivot already on the diagonal: the
      pivot search never swaps rows and never comes up empty. */
  lemma SeedPivotsOnDiagonal()
    ensures forall i :: 0 <= i < |GNS| ==> Forward(GNS, i)[i][i] == 1
  {
    SeedForward();
    forall i | 0 <= i < |GNS|
      ensures Forward(GNS, i)[i][i] == 1
    {
      // One empty case per column: in each, the verifier reads the entry off
      // the literal matrix that SeedForward names.
      if i == 0 {
      } else if i == 1 {
      } else if i == 2 {
      } else if i == 3 {
      } else if i == 4 {
      } else {
      }
    }
  }

  /** The constructor's reduction of the seed yields `G_SYS`. */
  lemma SeedReduces()
    ensures GaussJordan(GNS) == G_SYS
  {
    SeedForward();
    BackwardSeed5();
    BackwardSeed4();
    BackwardSeed3();
    BackwardSeed2();
    BackwardSeed1();
    BackwardSeed0();
    assert Backward(ECHELON, 1) == BACKWARD_1;
    assert Backward(ECHELON, 2) == BACKWARD_2;
    assert Backward(ECHELON, 3) == BACKWARD_3;
    assert Backward(ECHELON, 4) == BACKWARD_4;
    assert Backward(ECHELON, 5) == G_SYS;
  }

  // ---------------------------------------------------------------------
  // The matrices of the code

  /** `G_SYS` has the identity as its left 6×6 block. */
  lemma GSysSystematic()
    ensures IsSystematic(G_SYS)
  {
  }

  /** `H_SYS` is the parity-check matrix derived from `G_SYS`. */
  lemma SeedCheckMatrix()
    ensures DeriveH(G_SYS) == H_SYS
  {
    var h := DeriveH(G_SYS);
    assert h[0] == H_SYS[0];
    assert h[1] == H_SYS[1];
    assert h[2] == H_SYS[2];
    assert h[3] == H_SYS[3];
    assert h == [h[0], h[1], h[2], h[3]];
  }

  /** Column `i` of `H_SYS` is the syndrome of a flip of bit `i`: this is the table the constructor builds. */
  const SYNDROME_TABLE: map<Vector, nat> := map[
      [1, 0, 0, 1] := 0,
      [0, 0, 1, 1] := 1,
      [1, 1, 1, 0] := 2,
      [1, 1, 0, 0] := 3,
      [0, 1, 1, 1] := 4,
      [0, 1, 0, 1] := 5,
      [1, 0, 0, 0] := 6,
      [0, 1, 0, 0] := 7,
      [0, 0, 1, 0] := 8,
      [0, 0, 0, 1] := 9
    ]

  /** The ten columns of `H_SYS`. */
  lemma HSysColumns()
    ensures Column(H_SYS, 0) == [1, 0, 0, 1] && Column(H_SYS, 1) == [0, 0, 1, 1]
    ensures Column(H_SYS, 2) == [1, 1, 1, 0] && Column(H_SYS, 3) == [1, 1, 0, 0]
    ensures Column(H_SYS, 4) == [0, 1, 1, 1] && Column(H_SYS, 5) == [0, 1, 0, 1]
    ensures Column(H_SYS, 6) == [1, 0, 0, 0] && Column(H_SYS, 7) == [0, 1, 0, 0]
    ensures Column(H_SYS, 8) == [0, 0, 1, 0] && Column(H_SYS, 9) == [0, 0, 0, 1]
  {
  }

  /** Each column of `H_SYS` is a key of `SYNDROME_TABLE` and maps to its own index. */
  lemma SyndromeTableNamesColumns()
    ensures forall i :: 0 <= i < HAMMING_BITS ==> Column(H_SYS, i) in SYNDROME_TABLE && SYNDROME_TABLE[Column(H_SYS, i)] == i
  {
    HSysColumns();
    forall i | 0 <= i < HAMMING_BITS
      ensures Column(H_SYS, i) in SYNDROME_TABLE && SYNDROME_TABLE[Column(H_SYS, i)] == i
    {
      // One empty case per column: in each, the verifier looks the literal
      // column that HSysColumns names up in the literal map.
      if i == 0 {
      } else if i == 1 {
      } else if i == 2 {
      } else if i == 3 {
      } else if i == 4 {
      } else if i == 5 {
      } else if i == 6 {
      } else if i == 7 {
      } else if i == 8 {
      } else {
      }
    }
  }

  /** The ten columns of `H_SYS` are distinct and nonzero: the code corrects single errors. */
  lemma HSysColumnsDistinctNonzero()
    ensures ColumnsDistinctNonzero(H_SYS)
  {
    SyndromeTableNamesColumns();
    forall i | 0 <= i < HAMMING_BITS
      ensures !IsZero(Column(H_SYS, i))
    {
      var c := Column(H_SYS, i);
      assert c in SYNDROME_TABLE;
      assert c[0] == 1 || c[1] == 1 || c[2] == 1 || c[3] == 1;
    }
  }

  /** Five of the fifteen nonzero syndromes name no column: `0110`, `1010`, `1011`, `1101` and `1111`. */
  lemma UnmappedSyndromes()
    ensures [0, 1, 1, 0] !in SYNDROME_TABLE && [1, 0, 1, 0] !in SYNDROME_TABLE
    ensures [1, 0, 1, 1] !in SYNDROME_TABLE && [1, 1, 0, 1] !in SYNDROME_TABLE
    ensures [1, 1, 1, 1] !in SYNDROME_TABLE
  {
  }

  /** A word whose syndrome is one of the five unmapped ones decodes to
      UNCORRECTABLE with no data, whatever its parity bit. */
  lemma UnmappedSyndromeUncorrectable(w: Vector)
    requires |w| == TOTAL_BITS
    requires Syndrome(H_SYS, w[..HAMMING_BITS]) in {[0, 1, 1, 0], [1, 0, 1, 0], [1, 0, 1, 1], [1, 1, 0, 1], [1, 1, 1, 1]}
    ensures DecodeWord(H_SYS, SYNDROME_TABLE, w) == (None, UNCORRECTABLE)
  {
    UnmappedSyndromes();
    SyndromeTableKeysAreColumns();
    var s := Syndrome(H_SYS, w[..HAMMING_BITS]);
    assert s[0] == 1 || s[1] == 1;
    assert !IsZero(s);
    assert s !in SYNDROME_TABLE;
  }

  /** `SYNDROME_TABLE` is the map built from the columns of `H_SYS`, and the only one. */
  lemma SyndromeTableOfHSys(table: map<Vector, nat>)
    requires IsSyndromeTable(table, H_SYS, HAMMING_BITS)
    ensures table == SYNDROME_TABLE
  {
    SyndromeTableIsTable();
    SyndromeTableUnique(table, SYNDROME_TABLE, H_SYS, HAMMING_BITS);
  }

  /** Every key of `SYNDROME_TABLE` is the column of `H_SYS` it maps to. */
  lemma SyndromeTableKeysAreColumns()
    ensures forall s :: s in SYNDROME_TABLE ==> SYNDROME_TABLE[s] < HAMMING_BITS && Column(H_SYS, SYNDROME_TABLE[s]) == s
  {
    HSysColumns();
  }

  lemma SyndromeTableIsTable()
    ensures IsSyndromeTable(SYNDROME_TABLE, H_SYS, HAMMING_BITS)
  {
    SyndromeTableNamesColumns();
    SyndromeTableKeysAreColumns();
    HSysColumnsDistinctNonzero();
  }

  /** The code the constructor builds meets the SECDED assumptions with any table built from `H_SYS`. */
  lemma SeedIsSecded(table: map<Vector, nat>)
    requires IsSyndromeTable(table, H_SYS, HAMMING_BITS)
    ensures IsSecded(G_SYS, H_SYS, table)
  {
    SeedCheckMatrix();
    HSysColumnsDistinctNonzero();
  }

  /** The four check columns of `G_SYS`: the columns of `P`. */
  lemma GSysCheckColumns()
    ensures Column(G_SYS, 6) == [1, 0, 1, 1, 0, 0] && Column(G_SYS, 7) == [0, 0, 1, 1, 1, 1]
    ensures Column(G_SYS, 8) == [0, 1, 1, 0, 1, 0] && Column(G_SYS, 9) == [1, 1, 0, 0, 1, 1]
  {
  }

  /** The dot products of `101100` with check columns 6 and 7 of `G_SYS`, as integers. */
  lemma ExampleCheckSumsLow()
    ensures SumProducts([1, 0, 1, 1, 0, 0], [1, 0, 1, 1, 0, 0]) == 3
    ensures SumProducts([1, 0, 1, 1, 0, 0], [0, 0, 1, 1, 1, 1]) == 2
  {
  }

  /** The same for check columns 8 and 9. */
  lemma ExampleCheckSumsHigh()
    ensures SumProducts([1, 0, 1, 1, 0, 0], [0, 1, 1, 0, 1, 0]) == 1
    ensures SumProducts([1, 0, 1, 1, 0, 0], [1, 1, 0, 0, 1, 1]) == 1
  {
  }

  /** The ten bits `u·G_SYS` for `u = 101100`. */
  lemma EncodeHammingExample(u: Vector)
    requires u == [1, 0, 1, 1, 0, 0]
    ensures EncodeHamming(G_SYS, u) == [1, 0, 1, 1, 0, 0, 1, 0, 1, 1]
  {
    var c := EncodeHamming(G_SYS, u);
    GSysSystematic();
    EncodeHammingSystematic(G_SYS, u);
    GSysCheckColumns();
    ExampleCheckSumsLow();
    ExampleCheckSumsHigh();
    CheckBit(G_SYS, u, 0);
    CheckBit(G_SYS, u, 1);
    CheckBit(G_SYS, u, 2);
    CheckBit(G_SYS, u, 3);
    assert c == c[..DATA_BITS] + [c[6], c[7], c[8], c[9]];
  }

  /** Encoding `101100` gives `10110010110`. */
  lemma EncodeExample()
    ensures EncodeWord(G_SYS, [1, 0, 1, 1, 0, 0]) == [1, 0, 1, 1, 0, 0, 1, 0, 1, 1, 0]
  {
    EncodeHammingExample([1, 0, 1, 1, 0, 0]);
    assert Sum([1, 0, 1, 1, 0, 0, 1, 0, 1, 1]) == 6;
  }

  // ---------------------------------------------------------------------
  // The code of the seed

  /** The reduction keeps the seed's row space: every row of `G_SYS` is an XOR
      of rows of the seed, and every row of the seed an XOR of rows of `G_SYS`. */
  lemma SeedRowEquivalent()
    ensures RowEquivalent(G_SYS, GNS, HAMMING_BITS)
  {
    SeedReduces();
    GaussJordanEquivalent(GNS, HAMMING_BITS);
  }

  /** Every codeword `u·G_SYS` is a combination of the rows of the seed. */
  lemma CodewordsInSeedRowSpace(u: Vector)
    requires |u| == DATA_BITS
    ensures InRowSpace(EncodeHamming(G_SYS, u), GNS, HAMMING_BITS)
  {
    SeedRowEquivalent();
    GSysSystematic();
    CodewordsWithin(G_SYS, GNS, u);
  }

  /** Every combination of the rows of the seed is a codeword `u·G_SYS`: the
      seed and `G_SYS` generate the same code. */
  lemma SeedRowSpaceIsCode(c: Vector)
    requires |c| == |GNS|
    ensures exists u: Vector :: |u| == DATA_BITS && Combination(GNS, c, HAMMING_BITS) == EncodeHamming(G_SYS, u)
  {
    SeedRowEquivalent();
    GSysSystematic();
    WithinCode(GNS, G_SYS, c);
  }
}
