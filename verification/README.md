# Gaussian elimination with partial pivoting, in Dafny

A model of `gauss_elimination` from the linear-system calculator
`Calculadora.py`. The function solves a dense n×n system A x = B. It runs
forward elimination with partial pivoting and then back-substitution. It
returns the solution vector X, or `None` when some pivot is below `1e-12`.

The model works over exact arithmetic (Dafny `real`). It keeps the source's
sequence of steps (pivot choice, swap, threshold test, elimination,
back-substitution) and its constant `1e-12` (written `Eps`). Over exact reals
the elimination clears the entries below each pivot to exactly zero. So the
docstring's promise "Resolve o sistema Ax = B" becomes a theorem: on success,
X solves the original system, and it is the only solution.

The converse of the docstring's "None se o sistema for singular" does not
hold, in the program or in the model. The threshold is absolute, so a
nonsingular system with small coefficients is rejected (1e-13·x = 1). And
the pivot choice depends on the order of the equations, so exchanging two
equations of a nonsingular system can turn a solution into `None`. Both are
proved as concrete examples.

Files and modules:

- `linalg.dfy`, module `LinAlg`: vectors and matrices as `seq<real>` and
  `seq<seq<real>>`; partial dot products (`DotFrom`), `IsSolution`, the
  element swap `Swap`, and the linearity and framing lemmas about dot
  products.
- `gauss.dfy`, module `Gauss`: the solver.
  - `System(A, B)` is the augmented system that the loop rewrites.
  - `PivotScan`/`PivotRow` model `max(range(i, n), key=...)`.
  - `SwapRows` models the paired row swap in A and B.
  - `EliminateRow`/`EliminateColumn` model the two inner loops.
  - `Step` is one pass of the outer loop. `Forward(s, k)` is the system after
    k passes, or `None` once a pass has returned early.
  - `BackSubstitute` is the descending back-substitution loop.
  - `GaussElimination` is the whole function.
- `gauss_proofs.dfy`, module `GaussProofs`: lemmas about pivot choice, row
  swaps, elimination, the failure condition, back-substitution and overall
  correctness.
- `gauss_examples.dfy`, module `GaussExamples`: three concrete systems solved
  by the model. They are the 1×1 system 5x = 10, the identity system of every
  size, and the classic 3×3 system with solution (2, 3, −1).
- `gauss_threshold.dfy`, module `GaussThreshold`: systems for which the solver
  returns `None`. They are a nonsingular 1×1 system with a tiny pivot, the
  identity with its last row zeroed, and a nonsingular 3×3 system that is
  solved in one order of its equations and rejected in another.

The k-loop of the elimination (`EliminateRow`) is modelled as a recursion over
k, with `factor` fixed before the loop starts, as in the source. The j-loop
(`EliminateColumn`) is modelled as one sequence comprehension over the rows.
Row j reads only itself and the pivot row i, and the loop never writes row i.
So the order in which the rows j > i are visited does not matter.

## Model

| member | source | states |
|---|---|---|
| Gauss.PivotScan | Calculadora.py:21 | scanning rows with `max`'s rule (replace only on a strictly larger key) ends on the first row of largest magnitude in the column |
| Gauss.PivotRow | Calculadora.py:21 | `max_row` lies in [i, n); no row in [i, n) has a larger |A[r][i]|; every row before it in [i, max_row) is strictly smaller (first occurrence wins ties) |
| GaussProofs.FirstArgMaxUnique | Calculadora.py:21 | there is only one first-occurrence maximum, so the pivot choice is deterministic |
| GaussProofs.PivotRowIsFirstMaximum | Calculadora.py:21 | a row equals `max_row` if and only if it is the first row of largest magnitude among rows i..n−1 |
| Gauss.SwapRows | Calculadora.py:22-23 | the swap exchanges row i and row max_row of A and the same entries of B, and leaves every other row and right-hand side unchanged |
| LinAlg.SwapInvolution | Calculadora.py:22-23 | swapping the same two positions twice restores the original order |
| GaussProofs.SwapRowsPermutesEquations | Calculadora.py:22-23 | the list of (row, right-hand side) pairs is swapped as whole equations, so it is a permutation of the one before; a swap with max_row == i changes nothing |
| GaussProofs.SwapRowsPreservesSolutions | Calculadora.py:22-23 | a vector solves the swapped system if and only if it solves the system before the swap |
| Gauss.EliminateRow | Calculadora.py:32-34 | after the k-loop, the entries of row j before column i keep their values, and each entry from column i on is A[j][k] − factor·A[i][k] with the factor computed before the loop |
| Gauss.RowBelowPivotCleared | Calculadora.py:31-34 | with factor = A[j][i] / A[i][i], the eliminated row j has a zero in the pivot column |
| Gauss.ColumnCleared | Calculadora.py:29-35 | once every row below the pivot has been eliminated, column i is zero below the diagonal and the columns before i are unchanged in every row |
| Gauss.EliminateColumn | Calculadora.py:29-35 | rows 0..i of A and B are unchanged; every row j > i loses its own factor A[j][i]/A[i][i] times row i, in A from column i on and in B |
| Gauss.EliminateColumnClears | Calculadora.py:29-35 | after column i is processed (`EliminateColumn`), A[j][i] == 0 for every j > i, and the columns before i are unchanged in every row |
| GaussProofs.EliminateRowIsRowOperation | Calculadora.py:33-34 | updating only the columns k ≥ i equals the full row operation row_j − factor·row_i when row i is zero before column i |
| GaussProofs.EliminatedEquation | Calculadora.py:30-35 | below the pivot, each new equation is the old equation minus `factor` times the pivot equation, on both sides |
| GaussProofs.RowCombinationPreservesSolutions | Calculadora.py:29-35 | subtracting multiples of equation i from the equations below it, while keeping equations 0..i, neither adds nor loses solutions (both directions) |
| GaussProofs.EliminateColumnPreservesSolutions | Calculadora.py:29-35 | clearing column i neither adds nor loses solutions (both directions) |
| Gauss.Step | Calculadora.py:18-35 | a pass returns None exactly when every candidate \|A[r][i]\| with r ≥ i is below 1e-12; otherwise the accepted pivot is at least 1e-12, the rows above i are untouched, and one more column becomes zero below the diagonal |
| GaussProofs.PivotNegligibleIffColumnNegligible | Calculadora.py:21-27 | the post-swap pivot fails the `abs(A[i][i]) < 1e-12` test exactly when every candidate in column i does |
| GaussProofs.StepPreservesSolutions | Calculadora.py:18-35 | a successful pass keeps exactly the solutions of the system before it |
| Gauss.Forward | Calculadora.py:17-35 | after k successful passes, the first k columns are zero below the diagonal and the first k pivots are at least 1e-12; once all n passes succeed, A is upper-triangular |
| GaussProofs.ForwardPreservesSolutions | Calculadora.py:17-35 | forward elimination, however far it got, keeps exactly the solutions of the original system |
| GaussProofs.ForwardFailsIffSomeColumnNegligible | Calculadora.py:18-27 | forward elimination fails exactly when some pass, reached without failing, found its whole column (on and below the diagonal) below 1e-12 |
| Gauss.BackSubstitute | Calculadora.py:37-44 | X has length n, and the rows the loop has not reached yet still hold their initial 0 |
| GaussProofs.BackSubstituteSolvesTriangular | Calculadora.py:37-44 | for every row i the loop has handled, Σ_{j≥i} A'[i][j]·X[j] == B'[i] holds against the reduced system |
| GaussProofs.TriangularSolutionsAgree | Calculadora.py:37-44 | an upper-triangular system with nonzero diagonal has at most one solution |
| GaussProofs.UpperTriangularDot | Calculadora.py:42 | in an upper-triangular matrix the full row sum equals the sum from the diagonal on, which is the sum the back-substitution uses |
| Gauss.GaussElimination | Calculadora.py:7-46 | on success the result has length n; every pivot used by back-substitution is nonzero (discharged by the precondition of `BackSubstitute`) |
| GaussProofs.GaussEliminationSolves | Calculadora.py:7-13 | on success, X solves the original system A x = B, and every solution of the original system equals X |
| GaussProofs.GaussEliminationReduced | Calculadora.py:37-46 | the solver succeeds exactly when forward elimination does; then the reduced A is upper-triangular, every diagonal entry is at least 1e-12, and X satisfies each triangular equation |
| GaussProofs.GaussEliminationFailsIff | Calculadora.py:13-27 | the solver returns None exactly when some pass, reached without failing, finds no pivot candidate of magnitude at least 1e-12; no partial solution is returned |
| GaussProofs.GaussEliminationRowOrderIrrelevant | Calculadora.py:7-46 | when a system and the same system with two equations exchanged both succeed, they return the same X |
| GaussExamples.OneByOne | Calculadora.py:7-46 | the system 5x = 10 gives X = [2] |
| GaussExamples.IdentitySystem | Calculadora.py:7-46 | for every n and every B, the identity system I x = B gives X = B |
| GaussExamples.IdentityClearIsIdle | Calculadora.py:29-35 | on an identity system every factor is 0, so clearing a column leaves A and B unchanged |
| GaussThreshold.TinyPivotFails | Calculadora.py:26-27 | the system 1e-13·x = 1 has exactly one solution, x = 1e13, yet its only pivot is below 1e-12 and the solver returns None, so None does not mean singular |
| GaussThreshold.ZeroRowHasNoSolution | Calculadora.py:13 | the identity with its last row zeroed and B = (1, 1) is singular: its second equation reads 0 = 1, so no vector solves it |
| GaussThreshold.ZeroRowFails | Calculadora.py:18-27 | for that system pass 0 changes nothing, pass 1 finds only a zero in column 1, and the solver returns None |
| GaussThreshold.NearSucceeds | Calculadora.py:18-46 | the system with rows (1, 0, 0), (1, 9e-13, 0), (0.5, 1.2e-12, 1) and B = 0 is solved: the tie in column 0 goes to row 0, 1.2e-12 passes the threshold in column 1, and X = 0 |
| GaussThreshold.SwappedFails | Calculadora.py:18-27 | with its first two equations exchanged, both candidates of column 1 after pass 0 (9e-13 and 7.5e-13) are below 1e-12 and the solver returns None |
| GaussThreshold.RowOrderDecidesSuccess | Calculadora.py:18-27 | the exchanged system still has exactly one solution (0), but the solver succeeds in one order and returns None in the other: the outcome depends on the order of the equations |
| GaussExamples.Classic3x3 | Calculadora.py:7-46 | the system 2x + y − z = 8, −3x − y + 2z = −11, −2x + y + 2z = −3 gives X = [2, 3, −1] |

## Left out

- Floating point: the model computes over exact reals, not IEEE-754 doubles.
  Rounding, and the statement "A·X ≈ B within a tolerance", are not modelled.
  The fixed threshold 1e-12 is kept as an exact constant, so the model
  shares the program's sensitivity to the scale of the coefficients (see
  `GaussThreshold.TinyPivotFails`).
- LinAlg.DotFrom: groups the back-substitution sum of Calculadora.py:42 from
  the right, while Python's `sum` adds from the left. Over exact reals the
  two are equal; the difference matters only under rounding.
- In-place mutation: the source swaps and rewrites the caller's lists. The
  model is value-based and returns new values. It does not model the
  partially eliminated A and B that the caller is left holding, including
  after a `None` return. It also does not model a matrix whose rows are the
  same list object twice.
- Malformed input: the source assumes that A is square and that B has the
  same length, and it never checks either. With other shapes it raises
  `IndexError` or reads only part of the input. The model states both
  assumptions as preconditions.
- n = 0: the source returns the empty list without any check. The model
  does the same (`Some([])`). A caller-side requirement n ≥ 1 with a
  separate dimension error is not part of the code, so it is not modelled.
- GaussEliminationRowOrderIrrelevant: proved only for one exchange of two
  equations, and only when both orders succeed. The stronger form is false:
  `GaussThreshold.RowOrderDecidesSuccess` exhibits a nonsingular system that
  is solved in one order and rejected after two equations are exchanged.
- The Tkinter layer (`solve`, `create_matrix_entries`, window construction,
  message boxes) is user interface, not computation. Calculadora.py:50-178
  is not part of this model.
- Parsing with `int`/`float` and the `ValueError` path are left out. So is
  formatting the answer to 4 decimal places. Both are Python built-ins acting
  on strings.
- The unused `from ast import Import` is left out.
