/**
 Properties of the solver in module Gauss: the pivot it picks, the row swap,
 when it fails, the triangular form it reaches, and that the vector it returns
 is the unique solution of the original system.
 */
module GaussProofs {
  import opened LinAlg
  import opened Gauss

  // ---------------------------------------------------------------------------
  // Pivot selection

  /** The first maximum of a column is unique. */
  lemma FirstArgMaxUnique(A: Matrix, col: nat, lo: nat, hi: nat, p: nat, q: nat)
    requires IsSquare(A) && col < |A| && hi <= |A|
    requires IsFirstArgMax(A, col, lo, hi, p) && IsFirstArgMax(A, col, lo, hi, q)
    ensures p == q
  {
    assert Abs(A[q][col]) <= Abs(A[p][col]);
    assert Abs(A[p][col]) <= Abs(A[q][col]);
  }

  /** The pivot row is exactly the first row of largest magnitude in column i
      among rows i..n-1. */
  lemma PivotRowIsFirstMaximum(A: Matrix, i: nat, p: nat)
    requires IsSquare(A) && i < |A|
    ensures p == PivotRow(A, i) <==> IsFirstArgMax(A, i, i, |A|, p)
  {
  }

  // ---------------------------------------------------------------------------
  // Row swap

  /** The equations of a system: each row of A paired with its right-hand side. */
  function Equations(s: System): (e: seq<(Vector, real)>)
    requires s.Valid()
    ensures |e| == s.Size()
  {
    seq(s.Size(), r requires 0 <= r < s.Size() => (s.A[r], s.B[r]))
  }

  /** Swapping rows moves whole equations: the list of (row, rhs) pairs is
      swapped as a unit, so it is a permutation of the one before, and a
      swap of a row with itself changes nothing. */
  lemma SwapRowsPermutesEquations(s: System, i: nat, p: nat)
    requires s.Valid() && i < s.Size() && p < s.Size()
    ensures Equations(SwapRows(s, i, p)) == Swap(Equations(s), i, p)
    ensures multiset(Equations(SwapRows(s, i, p))) == multiset(Equations(s))
    ensures i == p ==> SwapRows(s, i, p) == s
  {
  }

  /** Reordering equations does not change the solutions. */
  lemma SwapRowsPreservesSolutions(s: System, i: nat, p: nat, x: Vector)
    requires s.Valid() && i < s.Size() && p < s.Size()
    ensures IsSolution(SwapRows(s, i, p).A, SwapRows(s, i, p).B, x) <==> IsSolution(s.A, s.B, x)
  {
  }

  // ---------------------------------------------------------------------------
  // Elimination

  /** When row i is zero before column i, updating only columns k >= i is the
      full row operation row_j - factor * row_i. */
  lemma EliminateRowIsRowOperation(rowJ: Vector, rowI: Vector, i: nat, factor: real)
    requires |rowJ| == |rowI| && i <= |rowJ|
    requires forall k :: 0 <= k < i && k < |rowI| ==> rowI[k] == 0.0
    ensures EliminateRow(rowJ, rowI, i, factor) == SubScaled(rowJ, factor, rowI)
  {
    var a, b := EliminateRow(rowJ, rowI, i, factor), SubScaled(rowJ, factor, rowI);
    forall k | 0 <= k < |rowJ|
      ensures a[k] == b[k]
    {
    }
  }

  /** Below the pivot, each equation of the cleared system is the old one minus
      `factor` times the pivot equation. */
  lemma EliminatedEquation(s: System, i: nat, j: nat, x: Vector)
    requires s.Valid() && i < j < s.Size() && s.A[i][i] != 0.0
    requires ZeroBelow(s.A, i)
    requires |x| == s.Size()
    ensures Dot(EliminateColumn(s, i).A[j], x) == Dot(s.A[j], x) - Factor(s, i, j) * Dot(s.A[i], x)
    ensures EliminateColumn(s, i).B[j] == s.B[j] - Factor(s, i, j) * s.B[i]
  {
    hide EliminateColumn;
    EliminateRowIsRowOperation(s.A[j], s.A[i], i, Factor(s, i, j));
    DotFromSubScaled(s.A[j], Factor(s, i, j), s.A[i], x, 0);
  }

  /** Subtracting multiples of equation i from the equations below it, and
      keeping equations 0..i, neither adds nor loses solutions. */
  lemma RowCombinationPreservesSolutions(s: System, t: System, i: nat, x: Vector)
    requires s.Valid() && t.Valid() && t.Size() == s.Size() && i < s.Size()
    requires s.A[i][i] != 0.0 && |x| == s.Size()
    requires forall r :: 0 <= r <= i ==> t.A[r] == s.A[r] && t.B[r] == s.B[r]
    requires forall j :: i < j < s.Size() ==>
      && Dot(t.A[j], x) == Dot(s.A[j], x) - Factor(s, i, j) * Dot(s.A[i], x)
      && t.B[j] == s.B[j] - Factor(s, i, j) * s.B[i]
    ensures IsSolution(t.A, t.B, x) <==> IsSolution(s.A, s.B, x)
  {
    var n := s.Size();
    assert Dot(t.A[i], x) == Dot(s.A[i], x) && t.B[i] == s.B[i];
    if IsSolution(s.A, s.B, x) {
      forall r | 0 <= r < n
        ensures Dot(t.A[r], x) == t.B[r]
      {
        assert Dot(s.A[r], x) == s.B[r];
        if r <= i {
          assert t.A[r] == s.A[r] && t.B[r] == s.B[r];
        }
      }
    }
    if IsSolution(t.A, t.B, x) {
      assert Dot(s.A[i], x) == s.B[i];
      forall r | 0 <= r < n
        ensures Dot(s.A[r], x) == s.B[r]
      {
        assert Dot(t.A[r], x) == t.B[r];
        if r <= i {
          assert t.A[r] == s.A[r] && t.B[r] == s.B[r];
        }
      }
    }
  }

  /** Clearing column i neither adds nor loses solutions, provided row i is
      zero before column i (as it is once columns 0..i-1 are cleared). */
  lemma EliminateColumnPreservesSolutions(s: System, i: nat, x: Vector)
    requires s.Valid() && i < s.Size() && s.A[i][i] != 0.0
    requires ZeroBelow(s.A, i)
    requires |x| == s.Size()
    ensures IsSolution(EliminateColumn(s, i).A, EliminateColumn(s, i).B, x) <==> IsSolution(s.A, s.B, x)
  {
    var t := EliminateColumn(s, i);
    hide EliminateColumn;
    forall j | i < j < s.Size()
      ensures Dot(t.A[j], x) == Dot(s.A[j], x) - Factor(s, i, j) * Dot(s.A[i], x)
      ensures t.B[j] == s.B[j] - Factor(s, i, j) * s.B[i]
    {
      EliminatedEquation(s, i, j, x);
    }
    RowCombinationPreservesSolutions(s, t, i, x);
  }

  /** A successful pass keeps exactly the solutions of the system before it. */
  lemma StepPreservesSolutions(s: System, i: nat, x: Vector)
    requires s.Valid() && i < s.Size()
    requires ZeroBelow(s.A, i)
    requires |x| == s.Size()
    ensures Step(s, i).Some? ==>
      (IsSolution(Step(s, i).value.A, Step(s, i).value.B, x) <==> IsSolution(s.A, s.B, x))
  {
    if Step(s, i).None? {
      return;
    }
    var p := PivotRow(s.A, i);
    var t := SwapRows(s, i, p);
    SwapRowsPreservesSolutions(s, i, p, x);
    assert ZeroBelow(t.A, i);
    EliminateColumnPreservesSolutions(t, i, x);
  }

  /** Forward elimination, however far it got, keeps exactly the solutions of
      the original system. */
  lemma {:induction false} ForwardPreservesSolutions(s: System, k: nat, x: Vector)
    requires s.Valid() && k <= s.Size()
    requires |x| == s.Size()
    ensures Forward(s, k).Some? ==>
      (IsSolution(Forward(s, k).value.A, Forward(s, k).value.B, x) <==> IsSolution(s.A, s.B, x))
    decreases k
  {
    hide Step;
    if k > 0 {
      ForwardPreservesSolutions(s, k - 1, x);
      if Forward(s, k).Some? {
        StepPreservesSolutions(Forward(s, k - 1).value, k - 1, x);
      }
    }
  }

  /** Pass j was reached without failing and found its whole column (on and
      below the diagonal) negligible. */
  predicate FailsAt(s: System, j: nat)
    requires s.Valid() && j < s.Size()
  {
    Forward(s, j).Some? && ColumnNegligible(Forward(s, j).value.A, j)
  }

  /** Forward elimination fails exactly when some pass found its column
      negligible: the early return is the only way to fail. */
  lemma {:induction false} ForwardFailsIffSomeColumnNegligible(s: System, k: nat)
    requires s.Valid() && k <= s.Size()
    ensures Forward(s, k).None? <==> exists j :: 0 <= j < k && FailsAt(s, j)
    decreases k
  {
    hide Step;
    if k > 0 {
      ForwardFailsIffSomeColumnNegligible(s, k - 1);
      if Forward(s, k - 1).Some? {
        assert Forward(s, k) == Step(Forward(s, k - 1).value, k - 1);
        assert Forward(s, k).None? <==> FailsAt(s, k - 1);
      }
    }
  }

  /** The singularity test at step i: the post-swap pivot is below Eps exactly
      when every candidate in column i is. */
  lemma PivotNegligibleIffColumnNegligible(s: System, i: nat)
    requires s.Valid() && i < s.Size()
    ensures Abs(SwapRows(s, i, PivotRow(s.A, i)).A[i][i]) < Eps <==> ColumnNegligible(s.A, i)
  {
  }

  // ---------------------------------------------------------------------------
  // Back-substitution

  /** In an upper-triangular system the full dot product of row r starts at the
      diagonal. */
  lemma UpperTriangularDot(A: Matrix, x: Vector, r: nat)
    requires IsSquare(A) && ZeroBelow(A, |A|) && r < |A| && |x| == |A|
    ensures Dot(A[r], x) == DotFrom(A[r], x, r)
  {
    DotFromSkipZeros(A[r], x, 0, r);
  }

  /** Rows m..n-1 hold as triangular equations for the vector back-substitution
      builds: sum over j >= r of A[r][j] * X[j] equals B[r]. */
  lemma {:induction false} BackSubstituteSolvesTriangular(s: System, m: nat)
    requires s.Valid() && m <= s.Size()
    requires forall r :: m <= r < s.Size() ==> s.A[r][r] != 0.0
    ensures forall r :: m <= r < s.Size() ==> DotFrom(s.A[r], BackSubstitute(s, m), r) == s.B[r]
    decreases s.Size() - m
  {
    var n := s.Size();
    if m < n {
      BackSubstituteSolvesTriangular(s, m + 1);
      var x := BackSubstitute(s, m + 1);
      var y := BackSubstitute(s, m);
      var sum := DotFrom(s.A[m], x, m + 1);
      assert y == x[m := (s.B[m] - sum) / s.A[m][m]];
      forall r | m < r < n
        ensures DotFrom(s.A[r], y, r) == s.B[r]
      {
        DotFromFrame(s.A[r], x, y, r);
      }
      DotFromFrame(s.A[m], x, y, m + 1);
      assert s.A[m][m] * y[m] == s.B[m] - sum;
    }
  }

  /** Two solutions of an upper-triangular system with nonzero diagonal agree
      on rows m..n-1. */
  lemma {:induction false} TriangularSolutionsAgree(s: System, x: Vector, y: Vector, m: nat)
    requires s.Valid() && ZeroBelow(s.A, s.Size()) && m <= s.Size()
    requires forall r :: 0 <= r < s.Size() ==> s.A[r][r] != 0.0
    requires IsSolution(s.A, s.B, x) && IsSolution(s.A, s.B, y)
    ensures forall j :: m <= j < s.Size() ==> x[j] == y[j]
    decreases s.Size() - m
  {
    var n := s.Size();
    if m < n {
      TriangularSolutionsAgree(s, x, y, m + 1);
      UpperTriangularDot(s.A, x, m);
      UpperTriangularDot(s.A, y, m);
      DotFromFrame(s.A[m], x, y, m + 1);
      var a := s.A[m][m];
      assert Dot(s.A[m], x) == s.B[m] == Dot(s.A[m], y);
      assert DotFrom(s.A[m], x, m) == a * x[m] + DotFrom(s.A[m], x, m + 1);
      assert DotFrom(s.A[m], y, m) == a * y[m] + DotFrom(s.A[m], y, m + 1);
      assert a * x[m] == a * y[m];
      assert a * (x[m] - y[m]) == 0.0;
    }
  }

  // ---------------------------------------------------------------------------
  // The solver

  /** On success the returned X is a solution of the original system A x = B,
      and the only one. */
  lemma GaussEliminationSolves(A: Matrix, B: Vector)
    requires IsSquare(A) && |B| == |A|
    ensures GaussElimination(A, B).Some? ==> IsSolution(A, B, GaussElimination(A, B).value)
    ensures GaussElimination(A, B).Some? ==>
      forall y :: IsSolution(A, B, y) ==> y == GaussElimination(A, B).value
  {
    var s := System(A, B);
    var n := |A|;
    if Forward(s, n).Some? {
      var t := Forward(s, n).value;
      var x := BackSubstitute(t, 0);
      assert GaussElimination(A, B) == Some(x);
      BackSubstituteSolvesTriangular(t, 0);
      forall r | 0 <= r < n
        ensures Dot(t.A[r], x) == t.B[r]
      {
        UpperTriangularDot(t.A, x, r);
      }
      assert IsSolution(t.A, t.B, x);
      ForwardPreservesSolutions(s, n, x);
      forall y | IsSolution(A, B, y)
        ensures y == x
      {
        ForwardPreservesSolutions(s, n, y);
        TriangularSolutionsAgree(t, x, y, 0);
      }
    }
  }

  /** The reduced system on success: upper-triangular, every pivot at least
      Eps, and X satisfies its triangular equations row by row. */
  lemma GaussEliminationReduced(A: Matrix, B: Vector)
    requires IsSquare(A) && |B| == |A|
    ensures GaussElimination(A, B).Some? <==> Forward(System(A, B), |A|).Some?
    ensures GaussElimination(A, B).Some? ==>
      var t := Forward(System(A, B), |A|).value;
      && ZeroBelow(t.A, |A|)
      && PivotsAccepted(t.A, |A|)
      && forall r :: 0 <= r < |A| ==> DotFrom(t.A[r], GaussElimination(A, B).value, r) == t.B[r]
  {
    if Forward(System(A, B), |A|).Some? {
      BackSubstituteSolvesTriangular(Forward(System(A, B), |A|).value, 0);
    }
  }

  /** The solver returns None exactly when some pass, reached without failing,
      found no candidate pivot of magnitude at least Eps in its column, which
      is when the pivot swapped into place is below Eps; it then returns no
      partial solution. */
  lemma GaussEliminationFailsIff(A: Matrix, B: Vector)
    requires IsSquare(A) && |B| == |A|
    ensures GaussElimination(A, B).None? <==> exists i :: 0 <= i < |A| && FailsAt(System(A, B), i)
  {
    ForwardFailsIffSomeColumnNegligible(System(A, B), |A|);
  }

  /** Exchanging two equations before solving does not change the answer when
      both orders succeed. */
  lemma GaussEliminationRowOrderIrrelevant(A: Matrix, B: Vector, i: nat, j: nat)
    requires IsSquare(A) && |B| == |A| && i < |A| && j < |A|
    ensures GaussElimination(A, B).Some? && GaussElimination(Swap(A, i, j), Swap(B, i, j)).Some? ==>
      GaussElimination(A, B) == GaussElimination(Swap(A, i, j), Swap(B, i, j))
  {
    var s := System(A, B);
    var t := SwapRows(s, i, j);
    assert t == System(Swap(A, i, j), Swap(B, i, j));
    var r1, r2 := GaussElimination(A, B), GaussElimination(t.A, t.B);
    if r1.Some? && r2.Some? {
      GaussEliminationSolves(A, B);
      GaussEliminationSolves(t.A, t.B);
      SwapRowsPreservesSolutions(s, i, j, r2.value);
    }
  }
}
