/** Row spaces over GF(2) and the fact that `__convert_to_g` keeps them:
    the reduced matrix is row-equivalent to the seed, so both generate the
    same code.

    A combination `c·m` is the XOR of the rows of `m` that `c` selects. A
    matrix `a` lies within `b` when every row of `a` is a combination of the
    rows of `b`; two matrices are row-equivalent when each lies within the
    other. A row swap and a row XOR are undone by themselves, so every step
    of the reduction, and hence the whole reduction, is row-equivalent to its
    input. */
module RowSpace {
  import opened GF2
  import opened Reduction
  import opened Secded

  /** `v` when `b` is one, the zero row otherwise. */
  function Scale(b: Bit, v: Vector): (r: Vector)
    ensures |r| == |v|
  {
    if b == 1 then v else Zeros(|v|)
  }

  /** `c·m`: the XOR of the rows of `m` selected by the ones of `c`. */
  function Combination(m: Matrix, c: Vector, n: nat): (r: Vector)
    requires |c| == |m| && IsMatrix(m, |m|, n)
    ensures |r| == n
    decreases |m|
  {
    if m == [] then Zeros(n)
    else XorVec(Scale(c[0], m[0]), Combination(m[1..], c[1..], n))
  }

  /** `v` is a combination of the rows of `m`, whose rows have `n` entries. */
  ghost predicate InRowSpace(v: Vector, m: Matrix, n: nat)
  {
    IsMatrix(m, |m|, n) && exists c: Vector :: |c| == |m| && v == Combination(m, c, n)
  }

  /** Every row of `a` is a combination of the rows of `b`; all rows have `n` entries. */
  ghost predicate Within(a: Matrix, b: Matrix, n: nat)
  {
    IsMatrix(a, |a|, n) && forall t {:trigger InRowSpace(a[t], b, n)} :: 0 <= t < |a| ==> InRowSpace(a[t], b, n)
  }

  /** `a` and `b` have the same row space, so they generate the same code. */
  ghost predicate RowEquivalent(a: Matrix, b: Matrix, n: nat)
  {
    Within(a, b, n) && Within(b, a, n)
  }

  // ---------------------------------------------------------------------
  // Combinations

  lemma {:induction false} CombinationZeros(m: Matrix, n: nat)
    requires IsMatrix(m, |m|, n)
    ensures Combination(m, Zeros(|m|), n) == Zeros(n)
  {
    if m != [] {
      assert Zeros(|m|)[1..] == Zeros(|m| - 1);
      CombinationZeros(m[1..], n);
      XorVecZeroLeft(Zeros(n), Zeros(n));
    }
  }

  /** The `j`-th unit vector selects row `j`. */
  lemma {:induction false} CombinationUnit(m: Matrix, j: nat, n: nat)
    requires IsMatrix(m, |m|, n) && j < |m|
    ensures Combination(m, Unit(|m|, j), n) == m[j]
  {
    if j == 0 {
      assert Unit(|m|, j)[1..] == Zeros(|m| - 1);
      CombinationZeros(m[1..], n);
      XorVecZeroRight(m[0], Zeros(n));
    } else {
      assert Unit(|m|, j)[1..] == Unit(|m| - 1, j - 1);
      CombinationUnit(m[1..], j - 1, n);
      XorVecZeroLeft(Zeros(n), m[j]);
    }
  }

  /** Combining with `c1 ⊕ c2` is the XOR of the two combinations. */
  lemma {:induction false} CombinationXor(m: Matrix, c1: Vector, c2: Vector, n: nat)
    requires IsMatrix(m, |m|, n) && |c1| == |m| && |c2| == |m|
    ensures Combination(m, XorVec(c1, c2), n) == XorVec(Combination(m, c1, n), Combination(m, c2, n))
  {
    if m != [] {
      var c := XorVec(c1, c2);
      assert c[1..] == XorVec(c1[1..], c2[1..]);
      CombinationXor(m[1..], c1[1..], c2[1..], n);
      assert Scale(c[0], m[0]) == XorVec(Scale(c1[0], m[0]), Scale(c2[0], m[0]));
      XorVecInterchange(Scale(c1[0], m[0]), Scale(c2[0], m[0]),
                        Combination(m[1..], c1[1..], n), Combination(m[1..], c2[1..], n));
    }
  }

  /** Entry `i` of `c·m` is the GF(2) dot product of `c` with column `i` of `m`. */
  lemma {:induction false} CombinationEntry(m: Matrix, c: Vector, n: nat, i: nat)
    requires IsMatrix(m, |m|, n) && |c| == |m| && i < n
    ensures Combination(m, c, n)[i] == SumProducts(c, Column(m, i)) % 2
  {
    if m != [] {
      assert Column(m, i)[1..] == Column(m[1..], i);
      CombinationEntry(m[1..], c[1..], n, i);
      assert c[0] * m[0][i] == Scale(c[0], m[0])[i];
    }
  }

  // ---------------------------------------------------------------------
  // Row spaces

  /** A combination of rows that lie within `b` lies within `b`. */
  lemma {:induction false} CombinationWithin(a: Matrix, b: Matrix, c: Vector, n: nat)
    requires IsMatrix(a, |a|, n) && IsMatrix(b, |b|, n) && |c| == |a|
    requires Within(a, b, n)
    ensures InRowSpace(Combination(a, c, n), b, n)
  {
    if a == [] {
      CombinationZeros(b, n);
      assert Combination(b, Zeros(|b|), n) == Combination(a, c, n);
    } else {
      assert forall t :: 0 <= t < |a| - 1 ==> a[1..][t] == a[t + 1];
      CombinationWithin(a[1..], b, c[1..], n);
      var d2: Vector :| |d2| == |b| && Combination(a[1..], c[1..], n) == Combination(b, d2, n);
      var d1: Vector;
      if c[0] == 1 {
        assert InRowSpace(a[0], b, n);
        d1 :| |d1| == |b| && a[0] == Combination(b, d1, n);
      } else {
        d1 := Zeros(|b|);
        CombinationZeros(b, n);
      }
      assert Scale(c[0], a[0]) == Combination(b, d1, n);
      CombinationXor(b, d1, d2, n);
      assert Combination(b, XorVec(d1, d2), n) == Combination(a, c, n);
    }
  }

  lemma WithinTransitive(a: Matrix, b: Matrix, c: Matrix, n: nat)
    requires IsMatrix(b, |b|, n) && IsMatrix(c, |c|, n)
    requires Within(a, b, n) && Within(b, c, n)
    ensures Within(a, c, n)
  {
    forall t | 0 <= t < |a|
      ensures InRowSpace(a[t], c, n)
    {
      assert InRowSpace(a[t], b, n);
      var d: Vector :| |d| == |b| && a[t] == Combination(b, d, n);
      CombinationWithin(b, c, d, n);
    }
  }

  /** A matrix whose rows all occur in `b` lies within `b`. */
  lemma WithinByRows(a: Matrix, b: Matrix, n: nat)
    requires IsMatrix(a, |a|, n) && IsMatrix(b, |b|, n)
    requires forall t :: 0 <= t < |a| ==> a[t] in b
    ensures Within(a, b, n)
  {
    forall t | 0 <= t < |a|
      ensures InRowSpace(a[t], b, n)
    {
      var k :| 0 <= k < |b| && b[k] == a[t];
      CombinationUnit(b, k, n);
    }
  }

  lemma RowEquivalentTransitive(a: Matrix, b: Matrix, c: Matrix, n: nat)
    requires RowEquivalent(a, b, n) && RowEquivalent(b, c, n)
    ensures RowEquivalent(a, c, n)
  {
    WithinTransitive(a, b, c, n);
    WithinTransitive(c, b, a, n);
  }

  // ---------------------------------------------------------------------
  // The steps of the reduction keep the row space

  lemma RowEquivalentReflexive(m: Matrix, n: nat)
    requires IsMatrix(m, |m|, n)
    ensures RowEquivalent(m, m, n)
  {
    WithinByRows(m, m, n);
  }

  /** Reordering the rows keeps the row space. */
  lemma PermutationEquivalent(r: Matrix, m: Matrix, n: nat)
    requires IsMatrix(r, |r|, n) && IsMatrix(m, |m|, n) && multiset(r) == multiset(m)
    ensures RowEquivalent(r, m, n)
  {
    forall t | 0 <= t < |r|
      ensures r[t] in m
    {
      assert r[t] in multiset(r);
    }
    forall t | 0 <= t < |m|
      ensures m[t] in r
    {
      assert m[t] in multiset(m);
    }
    WithinByRows(r, m, n);
    WithinByRows(m, r, n);
  }

  /** XORing row `i` into some of the other rows keeps the row space: doing it
      again undoes it. */
  lemma AddRowEquivalent(r: Matrix, m: Matrix, i: nat, n: nat)
    requires IsMatrix(r, |m|, n) && IsMatrix(m, |m|, n) && i < |m| && r[i] == m[i]
    requires forall t :: 0 <= t < |m| ==> r[t] == m[t] || r[t] == XorVec(m[t], m[i])
    ensures RowEquivalent(r, m, n)
  {
    forall t | 0 <= t < |r|
      ensures InRowSpace(r[t], m, n)
    {
      CombinationUnit(m, t, n);
      if r[t] != m[t] {
        CombinationXor(m, Unit(|m|, t), Unit(|m|, i), n);
        CombinationUnit(m, i, n);
        assert r[t] == Combination(m, XorVec(Unit(|m|, t), Unit(|m|, i)), n);
      }
    }
    forall t | 0 <= t < |m|
      ensures InRowSpace(m[t], r, n)
    {
      CombinationUnit(r, t, n);
      if r[t] != m[t] {
        XorVecCancel(m[t], m[i]);
        CombinationXor(r, Unit(|m|, t), Unit(|m|, i), n);
        CombinationUnit(r, i, n);
        assert m[t] == Combination(r, XorVec(Unit(|m|, t), Unit(|m|, i)), n);
      }
    }
  }

  /** One iteration of the forward pass, pivot search and elimination below, keeps the row space. */
  lemma ForwardStepEquivalent(m: Matrix, i: nat, n: nat)
    requires Reducible(m) && IsMatrix(m, |m|, n) && i < |m|
    ensures RowEquivalent(ForwardStep(m, i), m, n)
  {
    var p := Pivot(m, i);
    PivotFinds(m, i);
    PermutationEquivalent(p, m, n);
    ClearBelowRows(p, i, |p|);
    AddRowEquivalent(ForwardStep(m, i), p, i, n);
    RowEquivalentTransitive(ForwardStep(m, i), p, m, n);
  }

  /** One iteration of the backward pass keeps the row space. */
  lemma EliminateAboveEquivalent(m: Matrix, i: nat, n: nat)
    requires Reducible(m) && IsMatrix(m, |m|, n) && i < |m|
    ensures RowEquivalent(EliminateAbove(m, i), m, n)
  {
    ClearAboveRows(m, i, 0);
    AddRowEquivalent(EliminateAbove(m, i), m, i, n);
  }

  /** Stage `j + 1` of a chain of matrices has the row space of stage `j`. */
  ghost predicate ChainStep(stages: seq<Matrix>, j: nat, n: nat)
    requires j + 1 < |stages|
  {
    RowEquivalent(stages[j + 1], stages[j], n)
  }

  /** When every stage keeps the row space of the one before, the last stage has the row space of the first. */
  lemma {:induction false} ChainEquivalent(stages: seq<Matrix>, n: nat)
    requires |stages| > 0 && IsMatrix(stages[0], |stages[0]|, n)
    requires forall j :: 0 <= j < |stages| - 1 ==> ChainStep(stages, j, n)
    ensures RowEquivalent(stages[|stages| - 1], stages[0], n)
  {
    if |stages| == 1 {
      RowEquivalentReflexive(stages[0], n);
    } else {
      var init := stages[..|stages| - 1];
      forall j | 0 <= j < |init| - 1
        ensures ChainStep(init, j, n)
      {
        assert ChainStep(stages, j, n);
      }
      ChainEquivalent(init, n);
      assert ChainStep(stages, |stages| - 2, n);
      RowEquivalentTransitive(stages[|stages| - 1], stages[|stages| - 2], stages[0], n);
    }
  }

  /** The matrices the forward pass holds before each iteration, and at the end. */
  function ForwardStages(m: Matrix): (r: seq<Matrix>)
    requires Reducible(m)
    ensures |r| == |m| + 1 && r[0] == m
    ensures forall k :: 0 <= k <= |m| ==> r[k] == Forward(m, k)
  {
    seq(|m| + 1, k requires 0 <= k <= |m| => Forward(m, k))
  }

  /** The matrices the backward pass holds before each iteration, and at the end. */
  function BackwardStages(m: Matrix): (r: seq<Matrix>)
    requires Reducible(m)
    ensures |r| == |m| + 1 && r[0] == m
    ensures forall k :: 0 <= k <= |m| ==> r[k] == Backward(m, k)
  {
    seq(|m| + 1, k requires 0 <= k <= |m| => Backward(m, k))
  }

  /** Every iteration of the forward pass keeps the row space. */
  lemma ForwardStepsEquivalent(m: Matrix, n: nat)
    requires Reducible(m) && IsMatrix(m, |m|, n)
    ensures forall k :: 0 <= k < |m| ==> ChainStep(ForwardStages(m), k, n)
  {
    var stages := ForwardStages(m);
    forall k | 0 <= k < |m|
      ensures ChainStep(stages, k, n)
    {
      ForwardStepEquivalent(Forward(m, k), k, n);
      assert stages[k + 1] == Forward(m, k + 1) && stages[k] == Forward(m, k);
    }
  }

  /** Every iteration of the backward pass keeps the row space. */
  lemma BackwardStepsEquivalent(m: Matrix, n: nat)
    requires Reducible(m) && IsMatrix(m, |m|, n)
    ensures forall k :: 0 <= k < |m| ==> ChainStep(BackwardStages(m), k, n)
  {
    var stages := BackwardStages(m);
    forall k | 0 <= k < |m|
      ensures ChainStep(stages, k, n)
    {
      EliminateAboveEquivalent(Backward(m, k), |m| - k - 1, n);
      assert stages[k + 1] == Backward(m, k + 1) && stages[k] == Backward(m, k);
    }
  }

  /** The forward pass, iteration after iteration, keeps the row space. */
  lemma ForwardEquivalent(m: Matrix, n: nat)
    requires Reducible(m) && IsMatrix(m, |m|, n)
    ensures RowEquivalent(Forward(m, |m|), m, n)
  {
    ForwardStepsEquivalent(m, n);
    ChainEquivalent(ForwardStages(m), n);
  }

  /** The backward pass, iteration after iteration, keeps the row space. */
  lemma BackwardEquivalent(m: Matrix, n: nat)
    requires Reducible(m) && IsMatrix(m, |m|, n)
    ensures RowEquivalent(Backward(m, |m|), m, n)
  {
    BackwardStepsEquivalent(m, n);
    ChainEquivalent(BackwardStages(m), n);
  }

  /** `__convert_to_g` returns a matrix with the same row space as its input:
      every row of either is a combination of the rows of the other. */
  lemma GaussJordanEquivalent(m: Matrix, n: nat)
    requires Reducible(m) && IsMatrix(m, |m|, n)
    ensures RowEquivalent(GaussJordan(m), m, n)
  {
    ForwardEquivalent(m, n);
    var f := Forward(m, |m|);
    BackwardEquivalent(f, n);
    RowEquivalentTransitive(GaussJordan(m), f, m, n);
  }

  /** Row-equivalent matrices generate the same code: each combination of the
      rows of one is a combination of the rows of the other. */
  lemma SameCode(a: Matrix, b: Matrix, n: nat, c: Vector)
    requires RowEquivalent(a, b, n) && |c| == |a|
    ensures exists d: Vector :: |d| == |b| && Combination(a, c, n) == Combination(b, d, n)
  {
    CombinationWithin(a, b, c, n);
  }

  /** Encoding `u·G` is the combination of the rows of `G` that `u` selects. */
  lemma EncodeHammingIsCombination(g: Matrix, u: Vector)
    requires IsMatrix(g, DATA_BITS, HAMMING_BITS) && |u| == DATA_BITS
    ensures EncodeHamming(g, u) == Combination(g, u, HAMMING_BITS)
  {
    forall i | 0 <= i < HAMMING_BITS
      ensures EncodeHamming(g, u)[i] == Combination(g, u, HAMMING_BITS)[i]
    {
      CombinationEntry(g, u, HAMMING_BITS, i);
    }
  }

  /** When the rows of `g` lie in the row space of `m`, so does every codeword `u·G`. */
  lemma CodewordsWithin(g: Matrix, m: Matrix, u: Vector)
    requires IsMatrix(g, DATA_BITS, HAMMING_BITS) && IsMatrix(m, |m|, HAMMING_BITS)
    requires Within(g, m, HAMMING_BITS) && |u| == DATA_BITS
    ensures InRowSpace(EncodeHamming(g, u), m, HAMMING_BITS)
  {
    EncodeHammingIsCombination(g, u);
    CombinationWithin(g, m, u, HAMMING_BITS);
  }

  /** When the rows of `m` lie in the row space of `g`, every combination of
      the rows of `m` is a codeword `u·G`. */
  lemma WithinCode(m: Matrix, g: Matrix, c: Vector)
    requires IsMatrix(g, DATA_BITS, HAMMING_BITS) && IsMatrix(m, |m|, HAMMING_BITS)
    requires Within(m, g, HAMMING_BITS) && |c| == |m|
    ensures exists u: Vector :: |u| == DATA_BITS && Combination(m, c, HAMMING_BITS) == EncodeHamming(g, u)
  {
    CombinationWithin(m, g, c, HAMMING_BITS);
    var u: Vector :| |u| == |g| && Combination(m, c, HAMMING_BITS) == Combination(g, u, HAMMING_BITS);
    EncodeHammingIsCombination(g, u);
  }
}
