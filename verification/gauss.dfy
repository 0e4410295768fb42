/**
 The solver `gauss_elimination` of Calculadora.py: forward elimination with
 partial pivoting over the augmented system (A | B), an early failure when the
 pivot is negligible, then back-substitution. Arithmetic is exact (`real`).
 */
module Gauss {
  import opened LinAlg

  /** `None` is Python's None: the system has no (numerically) unique solution. */
  datatype Option<T> = None | Some(value: T)

  /** The augmented system (A | B); every row operation acts on A[r] and B[r] together. */
  datatype System = System(A: Matrix, B: Vector) {
    predicate Valid() {
      IsSquare(A) && |B| == |A|
    }

    function Size(): nat {
      |A|
    }
  }

  /** Pivots of smaller magnitude are treated as zero (`1e-12`). */
  const Eps: real := 0.000000000001

  // ---------------------------------------------------------------------------
  // Pivot selection: the first row of largest |A[r][i]| among rows i..n-1

  /** p is a row in [lo, hi) of largest magnitude in column col, and the first
      such row: Python's `max` replaces its candidate only on a strictly larger key. */
  predicate IsFirstArgMax(A: Matrix, col: nat, lo: nat, hi: nat, p: nat)
    requires IsSquare(A) && col < |A| && hi <= |A|
  {
    && lo <= p < hi
    && (forall r :: lo <= r < hi ==> Abs(A[r][col]) <= Abs(A[p][col]))
    && (forall r :: lo <= r < p ==> Abs(A[r][col]) < Abs(A[p][col]))
  }

  /** The scan `max` performs: best is the candidate for rows [col, r), and rows
      r.. are still to be compared against it. */
  function PivotScan(A: Matrix, col: nat, r: nat, best: nat): (p: nat)
    requires IsSquare(A) && col < |A|
    requires col <= best < r <= |A|
    requires IsFirstArgMax(A, col, col, r, best)
    ensures IsFirstArgMax(A, col, col, |A|, p)
    decreases |A| - r
  {
    if r == |A| then best
    else if Abs(A[r][col]) > Abs(A[best][col]) then PivotScan(A, col, r + 1, r)
    else PivotScan(A, col, r + 1, best)
  }

  /** The pivot row chosen at pass i. */
  function PivotRow(A: Matrix, i: nat): (p: nat)
    requires IsSquare(A) && i < |A|
    ensures i <= p < |A|
    ensures forall r :: i <= r < |A| ==> Abs(A[r][i]) <= Abs(A[p][i])
    ensures forall r :: i <= r < p ==> Abs(A[r][i]) < Abs(A[p][i])
  {
    PivotScan(A, i, i + 1, i)
  }

  // ---------------------------------------------------------------------------
  // Row swap: rows i and the pivot row change places, in A and in B alike

  /** Exchanges equations i and p, coefficients and right-hand side together. */
  function SwapRows(s: System, i: nat, p: nat): (t: System)
    requires s.Valid() && i < s.Size() && p < s.Size()
    ensures t.Valid() && t.Size() == s.Size()
    ensures t.A[i] == s.A[p] && t.B[i] == s.B[p]
    ensures t.A[p] == s.A[i] && t.B[p] == s.B[i]
    ensures forall r :: 0 <= r < s.Size() && r != i && r != p ==> t.A[r] == s.A[r] && t.B[r] == s.B[r]
  {
    System(Swap(s.A, i, p), Swap(s.B, i, p))
  }

  // ---------------------------------------------------------------------------
  // Elimination of column i below the pivot

  /** The multiple of the pivot row that row j loses: its entry in column i
      over the pivot. */
  function Factor(s: System, i: nat, j: nat): (f: real)
    requires s.Valid() && i < s.Size() && j < s.Size() && s.A[i][i] != 0.0
  {
    s.A[j][i] / s.A[i][i]
  }

  /** Row j once each entry c = k, ..., n-1 has lost factor times entry c of row i:
      the entries before k keep their values. */
  function EliminateRow(rowJ: Vector, rowI: Vector, k: nat, factor: real): (r: Vector)
    requires |rowJ| == |rowI| && k <= |rowJ|
    ensures |r| == |rowJ|
    ensures forall c :: 0 <= c < k ==> r[c] == rowJ[c]
    ensures forall c :: k <= c < |r| ==> r[c] == rowJ[c] - factor * rowI[c]
    decreases |rowJ| - k
  {
    if k == |rowJ| then rowJ
    else EliminateRow(rowJ[k := rowJ[k] - factor * rowI[k]], rowI, k + 1, factor)
  }

  /** The inner loops of pass i: every row j > i loses its own `factor` times
      row i, in A (from column i on) and in B. Row j reads only itself and row
      i, which these loops never write, so visiting the rows j in ascending
      order or all at once gives the same system. */
  function EliminateColumn(s: System, i: nat): (t: System)
    requires s.Valid() && i < s.Size() && s.A[i][i] != 0.0
    ensures t.Valid() && t.Size() == s.Size()
    ensures forall r :: 0 <= r <= i ==> t.A[r] == s.A[r] && t.B[r] == s.B[r]
    ensures forall j :: i < j < t.Size() ==>
      && t.A[j] == EliminateRow(s.A[j], s.A[i], i, Factor(s, i, j))
      && t.B[j] == s.B[j] - Factor(s, i, j) * s.B[i]
  {
    var n := s.Size();
    System(seq(n, j requires 0 <= j < n => RowAfter(s, i, j)),
           seq(n, j requires 0 <= j < n => RhsAfter(s, i, j)))
  }

  /** Row j of A after pass i: rows up to the pivot are left alone. */
  function RowAfter(s: System, i: nat, j: nat): (row: Vector)
    requires s.Valid() && i < s.Size() && j < s.Size() && s.A[i][i] != 0.0
    ensures |row| == s.Size()
  {
    if j <= i then s.A[j] else EliminateRow(s.A[j], s.A[i], i, Factor(s, i, j))
  }

  /** Entry j of B after pass i. */
  function RhsAfter(s: System, i: nat, j: nat): real
    requires s.Valid() && i < s.Size() && j < s.Size() && s.A[i][i] != 0.0
  {
    if j <= i then s.B[j] else s.B[j] - Factor(s, i, j) * s.B[i]
  }

  /** After pass i's inner loops, column i is zero below the pivot and every
      entry in the columns before i keeps its value. */
  lemma EliminateColumnClears(s: System, i: nat)
    requires s.Valid() && i < s.Size() && s.A[i][i] != 0.0
    ensures forall j :: i < j < s.Size() ==> EliminateColumn(s, i).A[j][i] == 0.0
    ensures forall r, k :: 0 <= r < s.Size() && 0 <= k < i ==> EliminateColumn(s, i).A[r][k] == s.A[r][k]
  {
    hide EliminateColumn, EliminateRow;
    var t := EliminateColumn(s, i);
    ColumnCleared(s, i, t);
  }

  /** Replacing every row below the pivot by its eliminated form zeroes column
      i there and leaves the columns before i alone. */
  lemma ColumnCleared(s: System, i: nat, t: System)
    requires s.Valid() && i < s.Size() && s.A[i][i] != 0.0
    requires t.Valid() && t.Size() == s.Size()
    requires forall r :: 0 <= r <= i ==> t.A[r] == s.A[r]
    requires forall r :: i < r < s.Size() ==> t.A[r] == EliminateRow(s.A[r], s.A[i], i, Factor(s, i, r))
    ensures forall j :: i < j < s.Size() ==> t.A[j][i] == 0.0
    ensures forall r, k :: 0 <= r < s.Size() && 0 <= k < i ==> t.A[r][k] == s.A[r][k]
  {
    hide EliminateRow;
    forall j | i < j < s.Size()
      ensures t.A[j][i] == 0.0
    {
      RowBelowPivotCleared(s, i, j, t.A[j]);
    }
    forall r, k | 0 <= r < s.Size() && 0 <= k < i
      ensures t.A[r][k] == s.A[r][k]
    {
      if r > i {
        var row := EliminateRow(s.A[r], s.A[i], i, Factor(s, i, r));
        assert t.A[r] == row;
        assert row[k] == s.A[r][k];
      }
    }
  }

  /** Subtracting `factor` times the pivot row zeroes the pivot column. */
  lemma RowBelowPivotCleared(s: System, i: nat, j: nat, row: Vector)
    requires s.Valid() && i < j < s.Size() && s.A[i][i] != 0.0
    requires row == EliminateRow(s.A[j], s.A[i], i, Factor(s, i, j))
    ensures row[i] == 0.0
  {
    hide EliminateRow;
    var f := Factor(s, i, j);
    assert row[i] == s.A[j][i] - f * s.A[i][i];
    assert f * s.A[i][i] == s.A[j][i];
  }

  // ---------------------------------------------------------------------------
  // Forward elimination

  /** Every entry below the diagonal in the first k columns is zero. */
  predicate ZeroBelow(A: Matrix, k: nat)
    requires IsSquare(A)
  {
    forall r, c :: 0 <= c < k && c < r < |A| ==> A[r][c] == 0.0
  }

  /** The first k diagonal entries passed the singularity test. */
  predicate PivotsAccepted(A: Matrix, k: nat)
    requires IsSquare(A) && k <= |A|
  {
    forall c :: 0 <= c < k ==> Abs(A[c][c]) >= Eps
  }

  /** Column i has no usable pivot on or below the diagonal. */
  predicate ColumnNegligible(A: Matrix, i: nat)
    requires IsSquare(A) && i < |A|
  {
    forall r :: i <= r < |A| ==> Abs(A[r][i]) < Eps
  }

  /** One pass of the outer loop at column i: choose the pivot row, swap it into
      place in A and B, return None when the pivot is below Eps, otherwise clear
      column i below the diagonal. */
  function Step(s: System, i: nat): (r: Option<System>)
    requires s.Valid() && i < s.Size()
    ensures r.None? <==> ColumnNegligible(s.A, i)
    ensures r.Some? ==> r.value.Valid() && r.value.Size() == s.Size()
    ensures r.Some? ==> Abs(r.value.A[i][i]) >= Eps
    ensures r.Some? ==> forall c :: 0 <= c < i ==> r.value.A[c] == s.A[c] && r.value.B[c] == s.B[c]
    ensures r.Some? && ZeroBelow(s.A, i) ==> ZeroBelow(r.value.A, i + 1)
  {
    var t := SwapRows(s, i, PivotRow(s.A, i));
    if Abs(t.A[i][i]) < Eps then None
    else EliminateColumnClears(t, i); Some(EliminateColumn(t, i))
  }

  /** The system after the first k passes of the outer loop, or None once a
      pass has returned early. */
  function Forward(s: System, k: nat): (r: Option<System>)
    requires s.Valid() && k <= s.Size()
    ensures r.Some? ==> r.value.Valid() && r.value.Size() == s.Size()
    ensures r.Some? ==> ZeroBelow(r.value.A, k) && PivotsAccepted(r.value.A, k)
    decreases k
  {
    if k == 0 then Some(s)
    else
      match Forward(s, k - 1)
      case None => None
      case Some(t) => Step(t, k - 1)
  }

  // ---------------------------------------------------------------------------
  // Back-substitution

  /** X after the back-substitution loop has handled rows n-1 down to m: each
      handled X[r] is B[r] minus the sum of A[r][j] * X[j] over the columns j
      after r, divided by the pivot A[r][r]; the entries of rows not yet
      reached still hold their initial 0. */
  function BackSubstitute(s: System, m: nat): (x: Vector)
    requires s.Valid() && m <= s.Size()
    requires forall r :: m <= r < s.Size() ==> s.A[r][r] != 0.0
    ensures |x| == s.Size()
    ensures forall r :: 0 <= r < m ==> x[r] == 0.0
    decreases s.Size() - m
  {
    if m == s.Size() then seq(s.Size(), _ => 0.0)
    else
      var x := BackSubstitute(s, m + 1);
      x[m := (s.B[m] - DotFrom(s.A[m], x, m + 1)) / s.A[m][m]]
  }

  // ---------------------------------------------------------------------------
  // The solver

  /** `gauss_elimination(A, B)`: None when some pivot is negligible, otherwise
      the vector X. The diagonal is nonzero when back-substitution starts, so
      it never divides by zero. */
  function GaussElimination(A: Matrix, B: Vector): (r: Option<Vector>)
    requires IsSquare(A) && |B| == |A|
    ensures r.Some? ==> |r.value| == |A|
  {
    match Forward(System(A, B), |A|)
    case None => None
    case Some(t) => Some(BackSubstitute(t, 0))
  }
}
