/** Bits, vectors and matrices over GF(2), in the shape the Hamming code
    manipulates them: bits are the integers 0 and 1, a vector is a list of
    bits, a matrix is a list of rows. Addition is XOR, multiplication is AND
    (the integer product of two bits). */
module GF2 {

  type Bit = b: int | 0 <= b <= 1
  type Vector = seq<Bit>
  type Matrix = seq<Vector>

  function Min(a: int, b: int): int { if a <= b then a else b }

  /** `x ^ y` on two bits. */
  function Xor(a: Bit, b: Bit): Bit { if a == b then 0 else 1 }

  /** `[x ^ y for x, y in zip(a, b)]`: element-wise XOR, truncated to the shorter vector. */
  function XorVec(a: Vector, b: Vector): (r: Vector)
    ensures |r| == Min(|a|, |b|)
  {
    seq(Min(|a|, |b|), k requires 0 <= k < Min(|a|, |b|) => Xor(a[k], b[k]))
  }

  /** `sum(s)`: the number of ones in `s`. */
  function Sum(s: Vector): nat
  {
    if s == [] then 0 else s[0] + Sum(s[1..])
  }

  /** `sum(s) % 2`: the overall parity of `s`. */
  function Parity(s: Vector): Bit { Sum(s) % 2 }

  /** `sum(a * b for a, b in zip(a, b))`: the integer dot product, truncated to the shorter vector. */
  function SumProducts(a: Vector, b: Vector): nat
  {
    if a == [] || b == [] then 0 else a[0] * b[0] + SumProducts(a[1..], b[1..])
  }

  /** `_dot_product_mod2`: the GF(2) dot product of two vectors. */
  function DotMod2(a: Vector, b: Vector): Bit { SumProducts(a, b) % 2 }

  /** `s[i] ^= 1` on a copy of `s`. */
  function Flip(s: Vector, i: nat): (r: Vector)
    requires i < |s|
    ensures |r| == |s| && r[i] != s[i]
    ensures forall k :: 0 <= k < |s| && k != i ==> r[k] == s[k]
  {
    s[i := 1 - s[i]]
  }

  /** The all-zero vector of length `n`. */
  function Zeros(n: nat): (r: Vector)
    ensures |r| == n && IsZero(r)
  {
    seq(n, k => 0)
  }

  /** The `j`-th unit vector of length `n`. */
  function Unit(n: nat, j: nat): Vector
  {
    seq(n, k => if k == j then 1 else 0)
  }

  predicate IsZero(s: Vector)
  {
    forall k :: 0 <= k < |s| ==> s[k] == 0
  }

  /** Every row of `m` has exactly `cols` entries and there are `rows` rows. */
  predicate IsMatrix(m: Matrix, rows: nat, cols: nat)
  {
    |m| == rows && forall r :: 0 <= r < |m| ==> |m[r]| == cols
  }

  /** Column `i` of `m`, read top to bottom. */
  function Column(m: Matrix, i: nat): (c: Vector)
    requires forall r :: 0 <= r < |m| ==> i < |m[r]|
    ensures |c| == |m|
  {
    seq(|m|, r requires 0 <= r < |m| => m[r][i])
  }

  // ---------------------------------------------------------------------
  // Lemmas about XOR

  /** Two vectors of one length XOR to zero exactly when they are equal. */
  lemma XorVecZeroIffEqual(a: Vector, b: Vector)
    requires |a| == |b|
    ensures IsZero(XorVec(a, b)) <==> a == b
  {
    if IsZero(XorVec(a, b)) {
      forall k | 0 <= k < |a|
        ensures a[k] == b[k]
      {
        assert XorVec(a, b)[k] == 0;
      }
    }
  }

  /** Zero is the identity of XOR. */
  lemma XorVecZeroLeft(a: Vector, b: Vector)
    requires |a| == |b| && IsZero(a)
    ensures XorVec(a, b) == b
  {
  }

  lemma XorVecZeroRight(a: Vector, b: Vector)
    requires |a| == |b| && IsZero(b)
    ensures XorVec(a, b) == a
  {
  }

  /** XORing the same row twice undoes it. */
  lemma XorVecCancel(a: Vector, b: Vector)
    requires |a| == |b|
    ensures XorVec(XorVec(a, b), b) == a
  {
  }

  /** XOR is associative and commutative: four rows may be regrouped. */
  lemma XorVecInterchange(a: Vector, b: Vector, c: Vector, d: Vector)
    requires |a| == |b| == |c| == |d|
    ensures XorVec(XorVec(a, b), XorVec(c, d)) == XorVec(XorVec(a, c), XorVec(b, d))
  {
  }

  // ---------------------------------------------------------------------
  // Lemmas about sums and dot products

  lemma {:induction false} SumAppend(a: Vector, b: Vector)
    ensures Sum(a + b) == Sum(a) + Sum(b)
  {
    if a == [] {
      assert a + b == b;
    } else {
      assert (a + b)[1..] == a[1..] + b;
      SumAppend(a[1..], b);
    }
  }

  /** Flipping one bit changes the number of ones by exactly one, so the parity flips. */
  lemma {:induction false} SumFlip(s: Vector, i: nat)
    requires i < |s|
    ensures Sum(Flip(s, i)) == if s[i] == 0 then Sum(s) + 1 else Sum(s) - 1
  {
    if i == 0 {
      assert Flip(s, i)[1..] == s[1..];
    } else {
      assert Flip(s, i)[1..] == Flip(s[1..], i - 1);
      SumFlip(s[1..], i - 1);
    }
  }

  /** Appending its own parity bit gives a vector with an even number of ones. */
  lemma ParityAppendParity(s: Vector)
    ensures Parity(s + [Parity(s)]) == 0
  {
    SumAppend(s, [Parity(s)]);
    assert Sum([Parity(s)]) == Parity(s);
  }

  lemma ParityFlip(s: Vector, i: nat)
    requires i < |s|
    ensures Parity(Flip(s, i)) == 1 - Parity(s)
  {
    SumFlip(s, i);
  }

  lemma {:induction false} SumProductsAppend(a1: Vector, a2: Vector, b1: Vector, b2: Vector)
    requires |a1| == |b1|
    ensures SumProducts(a1 + a2, b1 + b2) == SumProducts(a1, b1) + SumProducts(a2, b2)
  {
    if a1 == [] {
      assert a1 + a2 == a2 && b1 + b2 == b2;
    } else {
      assert (a1 + a2)[1..] == a1[1..] + a2;
      assert (b1 + b2)[1..] == b1[1..] + b2;
      SumProductsAppend(a1[1..], a2, b1[1..], b2);
    }
  }

  lemma {:induction false} SumProductsZeros(v: Vector, n: nat)
    ensures SumProducts(v, Zeros(n)) == 0
  {
    if v != [] && n > 0 {
      assert Zeros(n)[1..] == Zeros(n - 1);
      SumProductsZeros(v[1..], n - 1);
    }
  }

  /** The dot product with the `j`-th unit vector picks out entry `j`. */
  lemma {:induction false} SumProductsUnit(v: Vector, j: nat)
    requires j < |v|
    ensures SumProducts(v, Unit(|v|, j)) == v[j]
  {
    if j == 0 {
      assert Unit(|v|, j)[1..] == Zeros(|v| - 1);
      SumProductsZeros(v[1..], |v| - 1);
    } else {
      assert Unit(|v|, j)[1..] == Unit(|v| - 1, j - 1);
      SumProductsUnit(v[1..], j - 1);
    }
  }

  lemma {:induction false} SumProductsSymmetric(a: Vector, b: Vector)
    ensures SumProducts(a, b) == SumProducts(b, a)
  {
    if a != [] && b != [] {
      SumProductsSymmetric(a[1..], b[1..]);
    }
  }

  /** Flipping bit `i` of `s` toggles its dot product with `v` exactly when `v[i]` is one. */
  lemma {:induction false} DotMod2Flip(s: Vector, v: Vector, i: nat)
    requires i < |s| <= |v|
    ensures DotMod2(Flip(s, i), v) == Xor(DotMod2(s, v), v[i])
  {
    SumProductsFlip(s, v, i);
  }

  lemma {:induction false} SumProductsFlip(s: Vector, v: Vector, i: nat)
    requires i < |s| <= |v|
    ensures SumProducts(Flip(s, i), v) ==
      if v[i] == 0 then SumProducts(s, v)
      else if s[i] == 0 then SumProducts(s, v) + 1
      else SumProducts(s, v) - 1
  {
    if i == 0 {
      assert Flip(s, i)[1..] == s[1..];
    } else {
      assert Flip(s, i)[1..] == Flip(s[1..], i - 1);
      SumProductsFlip(s[1..], v[1..], i - 1);
    }
  }
}
