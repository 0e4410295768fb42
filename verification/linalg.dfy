/**
 Exact linear algebra on dense, row-major matrices of reals: the vocabulary in
 which the elimination solver and its correctness are stated.
 */
module LinAlg {

  type Vector = seq<real>
  type Matrix = seq<Vector>

  function Abs(x: real): (r: real)
    ensures r >= 0.0
    ensures r == x || r == -x
  {
    if x < 0.0 then -x else x
  }

  /** Every row has as many entries as there are rows. */
  predicate IsSquare(A: Matrix) {
    forall r :: 0 <= r < |A| ==> |A[r]| == |A|
  }

  /** The partial dot product: the sum of row[j] * x[j] for lo <= j < |row|,
      grouped from the right (exact sums do not depend on the grouping). */
  function DotFrom(row: Vector, x: Vector, lo: nat): (d: real)
    requires |row| == |x| && lo <= |row|
    decreases |row| - lo
  {
    if lo == |row| then 0.0 else row[lo] * x[lo] + DotFrom(row, x, lo + 1)
  }

  function Dot(row: Vector, x: Vector): (d: real)
    requires |row| == |x|
  {
    DotFrom(row, x, 0)
  }

  /** x satisfies every equation of A x = B exactly. */
  predicate IsSolution(A: Matrix, B: Vector, x: Vector)
    requires IsSquare(A) && |B| == |A|
  {
    |x| == |A| && forall r {:trigger Dot(A[r], x)} :: 0 <= r < |A| ==> Dot(A[r], x) == B[r]
  }

  /** The row combination row - f * other. */
  function SubScaled(row: Vector, f: real, other: Vector): (r: Vector)
    requires |row| == |other|
    ensures |r| == |row|
  {
    seq(|row|, k requires 0 <= k < |row| => row[k] - f * other[k])
  }

  /** Exchanges the elements at i and j; with i == j nothing changes. */
  function Swap<T>(s: seq<T>, i: nat, j: nat): (t: seq<T>)
    requires i < |s| && j < |s|
    ensures |t| == |s|
    ensures t[i] == s[j] && t[j] == s[i]
    ensures forall k :: 0 <= k < |s| && k != i && k != j ==> t[k] == s[k]
    ensures i == j ==> t == s
  {
    s[i := s[j]][j := s[i]]
  }

  /** Swapping the same two positions twice restores the sequence. */
  lemma SwapInvolution<T>(s: seq<T>, i: nat, j: nat)
    requires i < |s| && j < |s|
    ensures Swap(Swap(s, i, j), i, j) == s
  {
  }

  /** DotFrom reads x only at the indices it sums over. */
  lemma {:induction false} DotFromFrame(row: Vector, x: Vector, y: Vector, lo: nat)
    requires |row| == |x| == |y| && lo <= |row|
    requires forall j :: lo <= j < |row| ==> x[j] == y[j]
    ensures DotFrom(row, x, lo) == DotFrom(row, y, lo)
    decreases |row| - lo
  {
    if lo < |row| {
      DotFromFrame(row, x, y, lo + 1);
    }
  }

  /** Zero coefficients in [lo, hi) contribute nothing to the sum. */
  lemma {:induction false} DotFromSkipZeros(row: Vector, x: Vector, lo: nat, hi: nat)
    requires |row| == |x| && lo <= hi <= |row|
    requires forall j :: lo <= j < hi ==> row[j] == 0.0
    ensures DotFrom(row, x, lo) == DotFrom(row, x, hi)
    decreases hi - lo
  {
    if lo < hi {
      DotFromSkipZeros(row, x, lo + 1, hi);
    }
  }

  /** Linearity: the dot product of a row combination is the same combination
      of the dot products. */
  lemma {:induction false} DotFromSubScaled(row: Vector, f: real, other: Vector, x: Vector, lo: nat)
    requires |row| == |other| == |x| && lo <= |row|
    ensures DotFrom(SubScaled(row, f, other), x, lo) == DotFrom(row, x, lo) - f * DotFrom(other, x, lo)
    decreases |row| - lo
  {
    if lo < |row| {
      DotFromSubScaled(row, f, other, x, lo + 1);
      var c := SubScaled(row, f, other);
      assert c[lo] * x[lo] == row[lo] * x[lo] - f * (other[lo] * x[lo]);
    }
  }
}
