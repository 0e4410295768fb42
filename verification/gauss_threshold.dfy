/**
 Systems on which the fixed threshold Eps = 1e-12, not singularity, decides
 the outcome: a `None` from the solver does not mean that the system lacks a
 unique solution, and the order of the equations can decide between success
 and `None`.
 */
module GaussThreshold {
  import opened LinAlg
  import opened Gauss
  import opened GaussProofs

  // ---------------------------------------------------------------------------
  // A nonsingular 1x1 system that is rejected

  /** 1e-13 x = 1 has the unique solution x = 1e13, yet its only pivot is below
      Eps, so the solver returns None. */
  lemma TinyPivotFails()
    ensures IsSolution([[0.0000000000001]], [1.0], [10000000000000.0])
    ensures forall y :: IsSolution([[0.0000000000001]], [1.0], y) ==> y == [10000000000000.0]
    ensures GaussElimination([[0.0000000000001]], [1.0]) == None
  {
    var s := System([[0.0000000000001]], [1.0]);
    assert Dot(s.A[0], [10000000000000.0]) == 1.0 by {
      assert DotFrom(s.A[0], [10000000000000.0], 1) == 0.0;
    }
    forall y | IsSolution(s.A, s.B, y)
      ensures y == [10000000000000.0]
    {
      assert Dot(s.A[0], y) == 1.0;
      assert DotFrom(s.A[0], y, 1) == 0.0;
    }
    assert ColumnNegligible(s.A, 0);
    assert Forward(s, 1) == Step(s, 0);
  }

  // ---------------------------------------------------------------------------
  // The identity with its last row zeroed: singular and rejected

  function ZeroRowA(): (A: Matrix) {
    [[1.0, 0.0], [0.0, 0.0]]
  }

  function ZeroRowB(): (B: Vector) {
    [1.0, 1.0]
  }

  /** The second equation reads 0 = 1, so no vector solves the system. */
  lemma ZeroRowHasNoSolution(x: Vector)
    ensures !IsSolution(ZeroRowA(), ZeroRowB(), x)
  {
    if |x| == 2 {
      var A := ZeroRowA();
      assert DotFrom(A[1], x, 2) == 0.0;
      assert Dot(A[1], x) == 0.0;
    }
  }

  /** Pass 0 keeps row 0 as pivot and subtracts zero times it from row 1. */
  lemma ZeroRowPass0()
    ensures Step(System(ZeroRowA(), ZeroRowB()), 0) == Some(System(ZeroRowA(), ZeroRowB()))
  {
    hide EliminateColumn;
    var s := System(ZeroRowA(), ZeroRowB());
    assert IsFirstArgMax(s.A, 0, 0, 2, 0);
    PivotRowIsFirstMaximum(s.A, 0, 0);
    assert SwapRows(s, 0, 0) == s;
    assert Abs(s.A[0][0]) >= Eps;
    ZeroRowClear0();
  }

  /** Clearing column 0 under the pivot 1: row 1 loses 0 times row 0. */
  lemma ZeroRowClear0()
    ensures EliminateColumn(System(ZeroRowA(), ZeroRowB()), 0) == System(ZeroRowA(), ZeroRowB())
  {
    var s := System(ZeroRowA(), ZeroRowB());
    hide EliminateColumn, EliminateRow;
    var e := EliminateColumn(s, 0);
    assert Factor(s, 0, 1) == 0.0;
    assert e.A[1] == s.A[1] by {
      assert e.A[1] == EliminateRow(s.A[1], s.A[0], 0, 0.0);
    }
    assert e.A == s.A;
    assert e.B == s.B;
  }

  /** Pass 1 finds only a zero in column 1 and the solver returns None. */
  lemma ZeroRowFails()
    ensures GaussElimination(ZeroRowA(), ZeroRowB()) == None
  {
    var s := System(ZeroRowA(), ZeroRowB());
    hide Step;
    ZeroRowPass0();
    assert Forward(s, 1) == Some(s);
    assert ColumnNegligible(s.A, 1);
    assert Forward(s, 2) == Step(s, 1);
  }

  // ---------------------------------------------------------------------------
  // Exchanging two equations turns success into None

  /** A nonsingular system (its determinant is 9e-13) whose column 0 has a tie
      between rows 0 and 1. */
  function NearA(): (A: Matrix) {
    [[1.0, 0.0, 0.0], [1.0, 0.0000000000009, 0.0], [0.5, 0.0000000000012, 1.0]]
  }

  function NearB(): (B: Vector) {
    [0.0, 0.0, 0.0]
  }

  /** In the given order: the system after pass 0 and after pass 1. */
  function NearAfter0(): (s: System) {
    System([[1.0, 0.0, 0.0], [0.0, 0.0000000000009, 0.0], [0.0, 0.0000000000012, 1.0]], [0.0, 0.0, 0.0])
  }

  function NearAfter1(): (s: System) {
    System([[1.0, 0.0, 0.0], [0.0, 0.0000000000012, 1.0], [0.0, 0.0, -0.75]], [0.0, 0.0, 0.0])
  }

  /** With the first two equations exchanged: the system after pass 0. */
  function SwappedAfter0(): (s: System) {
    System([[1.0, 0.0000000000009, 0.0], [0.0, -0.0000000000009, 0.0], [0.0, 0.00000000000075, 1.0]], [0.0, 0.0, 0.0])
  }

  /** Pass 0 in the given order: the tie goes to row 0, and rows 1 and 2 lose
      1 and 1/2 times it. */
  lemma NearPass0()
    ensures Step(System(NearA(), NearB()), 0) == Some(NearAfter0())
  {
    hide EliminateColumn;
    var s := System(NearA(), NearB());
    assert IsFirstArgMax(s.A, 0, 0, 3, 0);
    PivotRowIsFirstMaximum(s.A, 0, 0);
    assert SwapRows(s, 0, 0) == s;
    assert Abs(s.A[0][0]) >= Eps;
    NearClear0(s);
  }

  /** Clearing column 0 under the pivot 1. */
  lemma NearClear0(w: System)
    requires w == System([[1.0, 0.0, 0.0], [1.0, 0.0000000000009, 0.0], [0.5, 0.0000000000012, 1.0]], [0.0, 0.0, 0.0])
    ensures EliminateColumn(w, 0) == NearAfter0()
  {
    hide EliminateColumn, EliminateRow;
    var r := NearAfter0();
    var e := EliminateColumn(w, 0);
    assert Factor(w, 0, 1) == 1.0 && Factor(w, 0, 2) == 0.5;
    RowOfThree(w.A[1], w.A[0], 1.0, r.A[1]);
    RowOfThree(w.A[2], w.A[0], 0.5, r.A[2]);
    assert e.A == r.A;
    assert e.B == r.B;
  }

  /** Pass 1 in the given order: 1.2e-12 beats 9e-13 and is at least Eps. */
  lemma NearPass1()
    ensures Step(NearAfter0(), 1) == Some(NearAfter1())
  {
    hide EliminateColumn;
    var s := NearAfter0();
    var r := NearAfter1();
    assert IsFirstArgMax(s.A, 1, 1, 3, 2);
    PivotRowIsFirstMaximum(s.A, 1, 2);
    var w := SwapRows(s, 1, 2);
    assert w == System([s.A[0], s.A[2], s.A[1]], [s.B[0], s.B[2], s.B[1]]);
    assert Abs(w.A[1][1]) >= Eps;
    hide EliminateRow;
    var e := EliminateColumn(w, 1);
    assert Factor(w, 1, 2) == 0.75;
    assert e.A[2] == r.A[2] by {
      assert e.A[2] == EliminateRow(w.A[2], w.A[1], 1, 0.75);
    }
    assert e.A == r.A;
    assert e.B == r.B;
  }

  /** Pass 0 with rows 0 and 1 exchanged: the tie again goes to row 0, which is
      now (1, 9e-13, 0). */
  lemma SwappedPass0()
    ensures Step(System(Swap(NearA(), 0, 1), Swap(NearB(), 0, 1)), 0) == Some(SwappedAfter0())
  {
    hide EliminateColumn;
    var s := System(Swap(NearA(), 0, 1), Swap(NearB(), 0, 1));
    assert s.A == [NearA()[1], NearA()[0], NearA()[2]];
    assert s.B == NearB();
    assert IsFirstArgMax(s.A, 0, 0, 3, 0);
    PivotRowIsFirstMaximum(s.A, 0, 0);
    assert SwapRows(s, 0, 0) == s;
    assert Abs(s.A[0][0]) >= Eps;
    SwappedClear0(s);
  }

  /** Clearing column 0 under the pivot 1 of the exchanged system. */
  lemma SwappedClear0(w: System)
    requires w == System([[1.0, 0.0000000000009, 0.0], [1.0, 0.0, 0.0], [0.5, 0.0000000000012, 1.0]], [0.0, 0.0, 0.0])
    ensures EliminateColumn(w, 0) == SwappedAfter0()
  {
    hide EliminateColumn, EliminateRow;
    var r := SwappedAfter0();
    var e := EliminateColumn(w, 0);
    assert Factor(w, 0, 1) == 1.0 && Factor(w, 0, 2) == 0.5;
    RowOfThree(w.A[1], w.A[0], 1.0, r.A[1]);
    RowOfThree(w.A[2], w.A[0], 0.5, r.A[2]);
    assert e.A == r.A;
    assert e.B == r.B;
  }

  /** Row j of three entries after it has lost f times the pivot row 0. */
  lemma RowOfThree(rowJ: Vector, rowI: Vector, f: real, r: Vector)
    requires |rowJ| == |rowI| == |r| == 3
    requires r[0] == rowJ[0] - f * rowI[0]
    requires r[1] == rowJ[1] - f * rowI[1]
    requires r[2] == rowJ[2] - f * rowI[2]
    ensures EliminateRow(rowJ, rowI, 0, f) == r
  {
    hide EliminateRow;
    var e := EliminateRow(rowJ, rowI, 0, f);
    assert e[0] == r[0] && e[1] == r[1] && e[2] == r[2];
  }

  /** In the given order all three pivots pass, and the solver returns the
      solution 0. */
  lemma NearSucceeds()
    ensures GaussElimination(NearA(), NearB()) == Some([0.0, 0.0, 0.0])
  {
    var s := System(NearA(), NearB());
    var z := [0.0, 0.0, 0.0];
    hide Step;
    NearPass0();
    NearPass1();
    assert Forward(s, 1) == Some(NearAfter0());
    assert Forward(s, 2) == Some(NearAfter1());
    assert Abs(NearAfter1().A[2][2]) >= Eps;
    assert Forward(s, 3).Some?;
    NearSolvedByZero();
    GaussEliminationSolves(s.A, s.B);
  }

  /** 0 solves the homogeneous system. */
  lemma NearSolvedByZero()
    ensures IsSolution(NearA(), NearB(), [0.0, 0.0, 0.0])
  {
    var A, z := NearA(), [0.0, 0.0, 0.0];
    forall r | 0 <= r < 3
      ensures Dot(A[r], z) == 0.0
    {
      assert DotFrom(A[r], z, 3) == 0.0;
      assert DotFrom(A[r], z, 2) == 0.0;
      assert DotFrom(A[r], z, 1) == 0.0;
    }
  }

  /** With the first two equations exchanged, every candidate pivot of column 1
      is below Eps after pass 0, and the solver returns None. */
  lemma SwappedFails()
    ensures GaussElimination(Swap(NearA(), 0, 1), Swap(NearB(), 0, 1)) == None
  {
    var t := System(Swap(NearA(), 0, 1), Swap(NearB(), 0, 1));
    hide Step;
    SwappedPass0();
    assert Forward(t, 1) == Some(SwappedAfter0());
    assert ColumnNegligible(SwappedAfter0().A, 1);
    assert Forward(t, 2) == None;
  }

  /** Both orders describe the same nonsingular system, with the unique
      solution 0; the given order is solved, but with its first two equations
      exchanged the solver returns None. */
  lemma RowOrderDecidesSuccess()
    ensures GaussElimination(NearA(), NearB()) == Some([0.0, 0.0, 0.0])
    ensures forall y :: IsSolution(Swap(NearA(), 0, 1), Swap(NearB(), 0, 1), y) <==> y == [0.0, 0.0, 0.0]
    ensures GaussElimination(Swap(NearA(), 0, 1), Swap(NearB(), 0, 1)) == None
  {
    var s := System(NearA(), NearB());
    hide GaussElimination;
    NearSucceeds();
    GaussEliminationSolves(s.A, s.B);
    NearSolvedByZero();
    forall y
      ensures IsSolution(Swap(NearA(), 0, 1), Swap(NearB(), 0, 1), y) <==> y == [0.0, 0.0, 0.0]
    {
      SwapRowsPreservesSolutions(s, 0, 1, y);
      assert SwapRows(s, 0, 1) == System(Swap(NearA(), 0, 1), Swap(NearB(), 0, 1));
    }
    SwappedFails();
  }
}
