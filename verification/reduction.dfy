/** Gauss-Jordan elimination over GF(2), as `HammingCode.__convert_to_g`
    performs it: a forward pass that picks a pivot for each column `i < rows`
    (swapping in the first lower row with a one there when `m[i][i]` is
    zero, and doing nothing when there is none) and XORs row `i` into every
    lower row with a one in column `i`; then a backward pass, from the last
    column to the first, that XORs row `i` into every higher row with a one
    in column `i`.

    Each step is a function of the matrix before it, written in the order
    the source's loops run; `ConvertToG` performs the same steps in place on
    an array of rows. What each step achieves is stated by the lemmas after
    the functions. */
module Reduction {
  import opened GF2

  /** The source indexes `m[j][i]` for every row `j` and every `i < rows`:
      the rows have one common length, at least the number of rows. */
  predicate Reducible(m: Matrix)
  {
    |m| > 0 ==> IsMatrix(m, |m|, |m[0]|) && |m| <= |m[0]|
  }

  /** `a` and `b` have the same number of rows and the same row lengths. */
  predicate SameShape(a: Matrix, b: Matrix)
  {
    |a| == |b| && forall t :: 0 <= t < |a| ==> |a[t]| == |b[t]|
  }

  /** `m[i], m[j] = m[j], m[i]` */
  function Swap(m: Matrix, i: nat, j: nat): (r: Matrix)
    requires i < |m| && j < |m|
    ensures |r| == |m| && r[i] == m[j] && r[j] == m[i]
    ensures forall t :: 0 <= t < |m| && t != i && t != j ==> r[t] == m[t]
    ensures multiset(r) == multiset(m)
  {
    m[i := m[j]][j := m[i]]
  }

  /** The pivot search `for j in range(from, rows): if m[j][i] == 1: swap rows i and j; break`. */
  function PivotFrom(m: Matrix, i: nat, from: nat): (r: Matrix)
    requires Reducible(m) && i < from && i < |m|
    ensures SameShape(r, m) && Reducible(r)
    decreases |m| - from
  {
    if from >= |m| then m
    else if m[from][i] == 1 then Swap(m, i, from)
    else PivotFrom(m, i, from + 1)
  }

  /** Step 1 for column `i`: when `m[i][i]` is zero, swap in the first lower row with a one in column `i`. */
  function Pivot(m: Matrix, i: nat): (r: Matrix)
    requires Reducible(m) && i < |m|
    ensures SameShape(r, m) && Reducible(r)
  {
    if m[i][i] == 0 then PivotFrom(m, i, i + 1) else m
  }

  /** `if m[j][i] == 1: m[j] = [x ^ y for x, y in zip(m[j], m[i])]`: clear entry `(j, i)` with row `i`. */
  function ClearEntry(m: Matrix, i: nat, j: nat): (r: Matrix)
    requires Reducible(m) && i < |m| && j < |m|
    ensures SameShape(r, m) && Reducible(r)
  {
    if m[j][i] == 1 then m[j := XorVec(m[j], m[i])] else m
  }

  /** The loop `for j in range(i + 1, rows)` of the forward pass, after rows `i+1 .. upto-1` are done. */
  function ClearBelow(m: Matrix, i: nat, upto: nat): (r: Matrix)
    requires Reducible(m) && i < upto <= |m|
    ensures SameShape(r, m) && Reducible(r)
    decreases upto
  {
    if upto == i + 1 then m else ClearEntry(ClearBelow(m, i, upto - 1), i, upto - 1)
  }

  /** The loop `for j in range(i - 1, -1, -1)` of the backward pass, after rows `i-1` down to `downto` are done. */
  function ClearAbove(m: Matrix, i: nat, downto: nat): (r: Matrix)
    requires Reducible(m) && downto <= i < |m|
    ensures SameShape(r, m) && Reducible(r)
    decreases i - downto
  {
    if downto == i then m else ClearEntry(ClearAbove(m, i, downto + 1), i, downto)
  }

  /** Step 2 for column `i`: every row below `i` with a one in column `i` is replaced by its XOR with row `i`. */
  function EliminateBelow(m: Matrix, i: nat): (r: Matrix)
    requires Reducible(m) && i < |m|
    ensures SameShape(r, m) && Reducible(r)
  {
    ClearBelow(m, i, |m|)
  }

  /** Backward step for column `i`: every row above `i` with a one in column `i` is replaced by its XOR with row `i`. */
  function EliminateAbove(m: Matrix, i: nat): (r: Matrix)
    requires Reducible(m) && i < |m|
    ensures SameShape(r, m) && Reducible(r)
  {
    ClearAbove(m, i, 0)
  }

  /** One iteration of the forward pass, for column `i`. */
  function ForwardStep(m: Matrix, i: nat): (r: Matrix)
    requires Reducible(m) && i < |m|
    ensures SameShape(r, m) && Reducible(r)
  {
    EliminateBelow(Pivot(m, i), i)
  }

  /** The matrix after the forward pass has handled columns `0 .. n-1`. */
  function Forward(m: Matrix, n: nat): (r: Matrix)
    requires Reducible(m) && n <= |m|
    ensures SameShape(r, m) && Reducible(r)
  {
    if n == 0 then m else ForwardStep(Forward(m, n - 1), n - 1)
  }

  /** The matrix after the backward pass has handled the last `n` columns, `|m|-1` down to `|m|-n`. */
  function Backward(m: Matrix, n: nat): (r: Matrix)
    requires Reducible(m) && n <= |m|
    ensures SameShape(r, m) && Reducible(r)
  {
    if n == 0 then m else EliminateAbove(Backward(m, n - 1), |m| - n)
  }

  /** The whole reduction: the forward pass over every row, then the backward pass over every row. */
  function GaussJordan(m: Matrix): (r: Matrix)
    requires Reducible(m)
    ensures SameShape(r, m) && Reducible(r)
  {
    Backward(Forward(m, |m|), |m|)
  }

  // ---------------------------------------------------------------------
  // What each step achieves

  /** The pivot search only permutes rows, leaves the rows above `i` alone, and
      puts a one at `(i, i)` when some row from `from` on has a one in column
      `i`; when none has, it changes nothing. */
  lemma {:induction false} PivotFromFinds(m: Matrix, i: nat, from: nat)
    requires Reducible(m) && i < from && i < |m|
    ensures multiset(PivotFrom(m, i, from)) == multiset(m)
    ensures forall t :: 0 <= t < i ==> PivotFrom(m, i, from)[t] == m[t]
    ensures (exists t :: from <= t < |m| && m[t][i] == 1) ==> PivotFrom(m, i, from)[i][i] == 1
    ensures (forall t :: from <= t < |m| ==> m[t][i] != 1) ==> PivotFrom(m, i, from) == m
    decreases |m| - from
  {
    if from < |m| && m[from][i] != 1 {
      PivotFromFinds(m, i, from + 1);
    }
  }

  /** Step 1: afterwards `(i, i)` holds a one exactly when some row from `i` on had one in column `i`. */
  lemma PivotFinds(m: Matrix, i: nat)
    requires Reducible(m) && i < |m|
    ensures multiset(Pivot(m, i)) == multiset(m)
    ensures forall t :: 0 <= t < i ==> Pivot(m, i)[t] == m[t]
    ensures Pivot(m, i)[i][i] == 1 <==> exists t :: i <= t < |m| && m[t][i] == 1
  {
    if m[i][i] == 0 {
      PivotFromFinds(m, i, i + 1);
    }
  }

  /** The rows the forward elimination loop has reached are XORed with row `i` where they hold a one in column `i`. */
  lemma {:induction false} ClearBelowRows(m: Matrix, i: nat, upto: nat)
    requires Reducible(m) && i < upto <= |m|
    ensures forall t :: 0 <= t < |m| ==>
      ClearBelow(m, i, upto)[t] == if i < t < upto && m[t][i] == 1 then XorVec(m[t], m[i]) else m[t]
    decreases upto
  {
    if upto > i + 1 {
      ClearBelowRows(m, i, upto - 1);
    }
  }

  /** The rows the backward elimination loop has reached are XORed with row `i` where they hold a one in column `i`. */
  lemma {:induction false} ClearAboveRows(m: Matrix, i: nat, downto: nat)
    requires Reducible(m) && downto <= i < |m|
    ensures forall t :: 0 <= t < |m| ==>
      ClearAbove(m, i, downto)[t] == if downto <= t < i && m[t][i] == 1 then XorVec(m[t], m[i]) else m[t]
    decreases i - downto
  {
    if downto < i {
      ClearAboveRows(m, i, downto + 1);
    }
  }

  /** Step 2: with a pivot at `(i, i)`, column `i` is zero below it; rows up to `i` are untouched. */
  lemma EliminateBelowClears(m: Matrix, i: nat)
    requires Reducible(m) && i < |m|
    ensures forall t :: 0 <= t <= i ==> EliminateBelow(m, i)[t] == m[t]
    ensures m[i][i] == 1 ==> forall t :: i < t < |m| ==> EliminateBelow(m, i)[t][i] == 0
  {
    ClearBelowRows(m, i, |m|);
  }

  /** Backward step: with a pivot at `(i, i)`, column `i` is zero above it; rows from `i` on are untouched. */
  lemma EliminateAboveClears(m: Matrix, i: nat)
    requires Reducible(m) && i < |m|
    ensures forall t :: i <= t < |m| ==> EliminateAbove(m, i)[t] == m[t]
    ensures m[i][i] == 1 ==> forall t :: 0 <= t < i ==> EliminateAbove(m, i)[t][i] == 0
  {
    ClearAboveRows(m, i, 0);
  }

  /** A forward step whose pivot is already in place changes each row below `i` with a one in column `i` into its XOR with row `i`, and nothing else. */
  lemma ForwardStepRows(m: Matrix, i: nat)
    requires Reducible(m) && i < |m| && m[i][i] == 1
    ensures forall t :: 0 <= t < |m| ==>
      ForwardStep(m, i)[t] == if i < t && m[t][i] == 1 then XorVec(m[t], m[i]) else m[t]
  {
    ClearBelowRows(m, i, |m|);
  }

  /** A backward step changes each row above `i` with a one in column `i` into its XOR with row `i`, and nothing else. */
  lemma EliminateAboveRows(m: Matrix, i: nat)
    requires Reducible(m) && i < |m|
    ensures forall t :: 0 <= t < |m| ==>
      EliminateAbove(m, i)[t] == if t < i && m[t][i] == 1 then XorVec(m[t], m[i]) else m[t]
  {
    ClearAboveRows(m, i, 0);
  }

  // ---------------------------------------------------------------------
  // The in-place algorithm

  /** `__convert_to_g`: copies the rows of `gns` and reduces the copy in place. */
  method ConvertToG(gns: Matrix) returns (g: Matrix)
    requires Reducible(gns)
    ensures g == GaussJordan(gns)
  {
    var m := new Vector[|gns|](k requires 0 <= k < |gns| => gns[k]);
    assert m[..] == gns;
    ForwardPass(m);
    BackwardPass(m);
    g := m[..];
  }

  /** Forward elimination (row echelon form). */
  method ForwardPass(m: array<Vector>)
    requires Reducible(m[..])
    modifies m
    ensures m[..] == Forward(old(m[..]), m.Length)
  {
    ghost var start := m[..];
    for i := 0 to m.Length
      invariant m[..] == Forward(start, i)
    {
      PivotInPlace(m, i);
      EliminateBelowInPlace(m, i);
    }
  }

  /** Backward elimination (reduced row echelon form). */
  method BackwardPass(m: array<Vector>)
    requires Reducible(m[..])
    modifies m
    ensures m[..] == Backward(old(m[..]), m.Length)
  {
    ghost var start := m[..];
    for i := m.Length downto 0
      invariant m[..] == Backward(start, m.Length - i)
    {
      EliminateAboveInPlace(m, i);
    }
  }

  method PivotInPlace(m: array<Vector>, i: nat)
    requires Reducible(m[..]) && i < m.Length
    modifies m
    ensures m[..] == Pivot(old(m[..]), i)
  {
    ghost var before := m[..];
    if m[i][i] == 0 {
      for j := i + 1 to m.Length
        invariant m[..] == before
        invariant PivotFrom(before, i, j) == PivotFrom(before, i, i + 1)
      {
        if m[j][i] == 1 {
          m[i], m[j] := m[j], m[i];
          assert m[..] == Swap(before, i, j);
          return;
        }
      }
    }
  }

  method EliminateBelowInPlace(m: array<Vector>, i: nat)
    requires Reducible(m[..]) && i < m.Length
    modifies m
    ensures m[..] == EliminateBelow(old(m[..]), i)
  {
    ghost var before := m[..];
    for j := i + 1 to m.Length
      invariant m[..] == ClearBelow(before, i, j)
    {
      if m[j][i] == 1 {
        m[j] := XorVec(m[j], m[i]);
      }
    }
  }

  method EliminateAboveInPlace(m: array<Vector>, i: nat)
    requires Reducible(m[..]) && i < m.Length
    modifies m
    ensures m[..] == EliminateAbove(old(m[..]), i)
  {
    ghost var before := m[..];
    for j := i downto 0
      invariant m[..] == ClearAbove(before, i, j)
    {
      if m[j][i] == 1 {
        m[j] := XorVec(m[j], m[i]);
      }
    }
  }
}
