/**
 Concrete systems the solver is expected to handle: the 1x1 system, identity
 systems of every size, and the classic 3x3 textbook system.
 */
module GaussExamples {
  import opened LinAlg
  import opened Gauss
  import opened GaussProofs

  /** 5 x = 10 has the solution x = 2. */
  lemma OneByOne()
    ensures GaussElimination([[5.0]], [10.0]) == Some([2.0])
  {
    var s := System([[5.0]], [10.0]);
    assert Abs(s.A[0][0]) >= Eps;
    assert Forward(s, 1).Some? by {
      hide Step;
      assert Forward(s, 1) == Step(s, 0);
    }
    assert IsSolution(s.A, s.B, [2.0]);
    GaussEliminationSolves(s.A, s.B);
  }

  /** The n x n identity matrix. */
  function Identity(n: nat): (I: Matrix)
    ensures |I| == n && IsSquare(I)
  {
    seq(n, r requires 0 <= r < n => seq(n, c requires 0 <= c < n => if r == c then 1.0 else 0.0))
  }

  /** A unit row picks out one entry of x. */
  lemma {:induction false} DotFromUnitRow(n: nat, r: nat, x: Vector, lo: nat)
    requires r < n && |x| == n && lo <= n
    ensures DotFrom(Identity(n)[r], x, lo) == if lo <= r then x[r] else 0.0
    decreases n - lo
  {
    if lo < n {
      DotFromUnitRow(n, r, x, lo + 1);
    }
  }

  /** On an identity system no pass swaps or changes anything. */
  lemma IdentityStepIsIdle(B: Vector, k: nat)
    requires k < |B|
    ensures Step(System(Identity(|B|), B), k) == Some(System(Identity(|B|), B))
  {
    var n := |B|;
    var s := System(Identity(n), B);
    assert IsFirstArgMax(s.A, k, k, n, k);
    PivotRowIsFirstMaximum(s.A, k, k);
    assert SwapRows(s, k, k) == s;
    assert Abs(s.A[k][k]) >= Eps;
    IdentityClearIsIdle(B, k);
  }

  /** Clearing a column of the identity subtracts zero times the pivot row. */
  lemma IdentityClearIsIdle(B: Vector, k: nat)
    requires k < |B|
    ensures EliminateColumn(System(Identity(|B|), B), k) == System(Identity(|B|), B)
  {
    var n := |B|;
    var s := System(Identity(n), B);
    hide EliminateColumn, EliminateRow;
    var t := EliminateColumn(s, k);
    forall j | 0 <= j < n
      ensures t.A[j] == s.A[j] && t.B[j] == s.B[j]
    {
      if j > k {
        assert Factor(s, k, j) == 0.0;
        var row := EliminateRow(s.A[j], s.A[k], k, 0.0);
        assert t.A[j] == row;
        assert row == s.A[j];
      }
    }
    assert t.A == s.A && t.B == s.B;
  }

  /** Forward elimination leaves an identity system as it is. */
  lemma {:induction false} IdentityForwardIsIdle(B: Vector, k: nat)
    requires k <= |B|
    ensures Forward(System(Identity(|B|), B), k) == Some(System(Identity(|B|), B))
    decreases k
  {
    hide Step;
    if k > 0 {
      IdentityForwardIsIdle(B, k - 1);
      IdentityStepIsIdle(B, k - 1);
    }
  }

  /** Solving I x = B returns B itself, for every size and every B. */
  lemma IdentitySystem(B: Vector)
    ensures GaussElimination(Identity(|B|), B) == Some(B)
  {
    var n := |B|;
    IdentityForwardIsIdle(B, n);
    forall r | 0 <= r < n
      ensures Dot(Identity(n)[r], B) == B[r]
    {
      DotFromUnitRow(n, r, B, 0);
    }
    assert IsSolution(Identity(n), B, B);
    GaussEliminationSolves(Identity(n), B);
  }

  function ClassicA(): (A: Matrix) {
    [[2.0, 1.0, -1.0], [-3.0, -1.0, 2.0], [-2.0, 1.0, 2.0]]
  }

  function ClassicB(): (B: Vector) {
    [8.0, -11.0, -3.0]
  }

  /** The system after pass 0 and after pass 1 of the classic example. */
  function ClassicAfter1(): (s: System) {
    System([[-3.0, -1.0, 2.0], [0.0, 1.0 / 3.0, 1.0 / 3.0], [0.0, 5.0 / 3.0, 2.0 / 3.0]],
           [-11.0, 2.0 / 3.0, 13.0 / 3.0])
  }

  function ClassicAfter2(): (s: System) {
    System([[-3.0, -1.0, 2.0], [0.0, 5.0 / 3.0, 2.0 / 3.0], [0.0, 0.0, 1.0 / 5.0]],
           [-11.0, 13.0 / 3.0, -1.0 / 5.0])
  }

  /** Pass 0 picks the -3 of row 1 as pivot and clears column 0. */
  lemma ClassicPass0()
    ensures Step(System(ClassicA(), ClassicB()), 0) == Some(ClassicAfter1())
  {
    var s0 := System(ClassicA(), ClassicB());
    assert IsFirstArgMax(s0.A, 0, 0, 3, 1);
    PivotRowIsFirstMaximum(s0.A, 0, 1);
    var w := SwapRows(s0, 0, 1);
    assert w == System([s0.A[1], s0.A[0], s0.A[2]], [s0.B[1], s0.B[0], s0.B[2]]);
    ClassicClear0(w);
  }

  /** Clearing column 0 under the pivot -3. */
  lemma ClassicClear0(w: System)
    requires w == System([[-3.0, -1.0, 2.0], [2.0, 1.0, -1.0], [-2.0, 1.0, 2.0]], [-11.0, 8.0, -3.0])
    ensures EliminateColumn(w, 0) == ClassicAfter1()
  {
    var s1 := ClassicAfter1();
    hide EliminateColumn, EliminateRow;
    var e := EliminateColumn(w, 0);
    assert Factor(w, 0, 1) == -2.0 / 3.0 && Factor(w, 0, 2) == 2.0 / 3.0;
    assert e.A[1] == s1.A[1] by {
      assert e.A[1] == EliminateRow(w.A[1], w.A[0], 0, -2.0 / 3.0);
    }
    assert e.A[2] == s1.A[2] by {
      assert e.A[2] == EliminateRow(w.A[2], w.A[0], 0, 2.0 / 3.0);
    }
    assert e.A == s1.A;
    assert e.B == s1.B;
  }

  /** Pass 1 picks the 5/3 of row 2 as pivot and clears column 1. */
  lemma ClassicPass1()
    ensures Step(ClassicAfter1(), 1) == Some(ClassicAfter2())
  {
    var s1 := ClassicAfter1();
    var s2 := ClassicAfter2();
    assert IsFirstArgMax(s1.A, 1, 1, 3, 2);
    PivotRowIsFirstMaximum(s1.A, 1, 2);
    var w := SwapRows(s1, 1, 2);
    assert w == System([s1.A[0], s1.A[2], s1.A[1]], [s1.B[0], s1.B[2], s1.B[1]]);
    hide EliminateColumn, EliminateRow;
    var e := EliminateColumn(w, 1);
    assert Factor(w, 1, 2) == 1.0 / 5.0;
    assert e.A[2] == s2.A[2] by {
      assert e.A[2] == EliminateRow(w.A[2], w.A[1], 1, 1.0 / 5.0);
    }
    assert e.A == s2.A;
    assert e.B == s2.B;
  }

  /** Pass 2 accepts the last pivot 1/5. */
  lemma ClassicPass2()
    ensures Step(ClassicAfter2(), 2).Some?
  {
    assert Abs(ClassicAfter2().A[2][2]) >= Eps;
  }

  /** (2, 3, -1) satisfies all three equations. */
  lemma ClassicSolution()
    ensures IsSolution(ClassicA(), ClassicB(), [2.0, 3.0, -1.0])
  {
    var A, x := ClassicA(), [2.0, 3.0, -1.0];
    forall r | 0 <= r < 3
      ensures Dot(A[r], x) == ClassicB()[r]
    {
      assert DotFrom(A[r], x, 3) == 0.0;
      assert DotFrom(A[r], x, 2) == A[r][2] * x[2];
      assert DotFrom(A[r], x, 1) == A[r][1] * x[1] + A[r][2] * x[2];
    }
  }

  /** 2x + y - z = 8, -3x - y + 2z = -11, -2x + y + 2z = -3 has the solution
      (2, 3, -1), and the solver finds it. */
  lemma Classic3x3()
    ensures GaussElimination(ClassicA(), ClassicB()) == Some([2.0, 3.0, -1.0])
  {
    var s0 := System(ClassicA(), ClassicB());
    hide Step;
    ClassicPass0();
    ClassicPass1();
    ClassicPass2();
    assert Forward(s0, 3).Some? by {
      assert Forward(s0, 1) == Some(ClassicAfter1());
      assert Forward(s0, 2) == Some(ClassicAfter2());
    }
    ClassicSolution();
    GaussEliminationSolves(ClassicA(), ClassicB());
  }
}
