# Dense linear algebra of chapter 2: a verified model

This project models the numerical core of the `chapter2` crate in Dafny. The crate solves
linear systems and estimates a dominant eigenvalue on dense matrices. The model covers:

- **Matrices** (`chapter2/src/matrix.rs`): the dense `Matrix<N, M>`, stored column by column,
  and `Vector<N>` as its one-column case. It covers construction (`from_fn`, `filled_with`,
  `zeroed`, `identity`, the `From`/`TryFrom` conversions), `transpose`, `concat`, `swap_rows`,
  `dot`, indexing, and the arithmetic operators with their in-place `*Assign` forms. Pure
  operations are functions on a `Matrix` value. The operations that mutate through `&mut self`
  are methods of the class `MutableMatrix`, and each one is proved to produce the value of its
  pure counterpart.
- **Solvers** (`chapter2/src/lib.rs`): `EPSILON = 1e-10`, `forward_substitution` and
  `back_substitution`. Each checks triangularity within EPSILON and then solves row by row
  with nested loops.
- **Gauss** (`chapter2/src/bin/ex1.rs`): `do_gaussian_elimination`, which does partial
  pivoting in place on the augmented matrix `[a | b]`, and `solve_by_gaussian_elimination`.
- **LU** (`chapter2/src/bin/ex23.rs`): `lu_decomposition`, which returns `l`, `u` and the
  permutation `pi` updated together, and `solve_by_lu_decomposition`.
- **PowerIteration** (`chapter2/src/bin/ex4.rs`): the loop of `solve_by_power_iteration`. This
  covers the index of the largest entry, the estimate `mu_k`, the history `mu`, the
  convergence test, the renormalisation and the iteration cap.

Floating-point numbers are modelled as exact `real`s. Matrix dimensions, which the source fixes
in the type, are passed alongside each value, and `Shaped(a, n, m)` ties them together. The
source's panics become `Result` values:

- `SolveError.NotLowerTriangular`, `NotUpperTriangular` and `Singular` for the solvers;
- `PowerError.VectorIsZero`, `NotFinite` and `Diverges` for power iteration;
- `ConversionError` for the failing `TryFrom` conversions.

Each loop of the source is a method with loop invariants. The three outer loops are proved
equal to recursive specification functions (`EliminateFrom`, `DecomposeFrom`, `IterateFrom`),
and the properties are proved about those functions. The inner loops are proved against
non-recursive functions (`EliminationStep`, `Add`, `SwappedRows` and the other operators) or,
for the two substitutions, against the row equations of the triangular system.

The main results are these:

- **Substitution.** The substitutions satisfy every equation of the triangular system. With
  exact zeros off the triangle they give `l * y == b`.
- **Gaussian elimination.** The elimination as written leaves an exactly upper triangular
  block, with every pivot but the last larger than EPSILON; the last pivot can be 0 (see
  Findings). The checked elimination, which also tests the last pivot, has every pivot larger
  than EPSILON. Neither adds nor removes solutions, so the Gaussian solver's result solves
  `a * x == b`.
- **LU decomposition.** It yields a permutation `pi`, a unit lower triangular `L` and an upper
  triangular `U` with pivots larger than EPSILON, such that `P * a == L * U`. The LU solver's
  result solves `a * x == b`.
- **Power iteration.** A returning run gives an estimate that is the ratio `(a * x)[i] / x[i]`
  of the vector it returns. That estimate is within EPSILON of the previous one, after fewer
  than 100000 passes. The run fails with `VectorIsZero` exactly for the empty matrix, and with
  `Diverges` exactly when all 100000 passes go on.
- **Unit tests.** The 3×4 augmented matrix of the Gaussian elimination test and the 3×3 matrix
  of the LU test reduce, in exact arithmetic, to exactly the matrices those tests expect.

Where a reader might expect otherwise, the model follows the code:

- **Ties in the pivot search** go to the *last* row of largest magnitude. Rust's `max_by`
  returns the last of equal maxima, so ties do not go to the first row.
- **The Gaussian elimination loop** stops before the last column (`0..(N - 1)`). See Findings.
- **The convergence test** of power iteration compares `|mu_k - mu_prev|`, the form in
  `ex4.rs`.
- **Empty matrices** (n = 0) are allowed, as the type allows them. The one exception is
  Gaussian elimination, whose `N - 1` needs n ≥ 1.

## Model

| member | source | states |
|---|---|---|
| Matrices.FromFn | chapter2/src/matrix.rs:59-61 | the result is n×m and entry (i, j) is f(i, j) |
| Matrices.FilledWith | chapter2/src/matrix.rs:63-65 | every entry of the n×m result is the given value |
| Matrices.Zeroed | chapter2/src/matrix.rs:67-69 | every entry of the n×m result is 0 |
| Matrices.Identity | chapter2/src/matrix.rs:93-95 | the n×n result has 1 on the diagonal and 0 elsewhere |
| Matrices.FromRows | chapter2/src/matrix.rs:10-24 | conversion from an array of rows: entry (i, j) is rows[i][j] |
| Matrices.TryFromRows | chapter2/src/matrix.rs:25-32 | succeeds exactly when there are n rows of length m (else RowsMismatch), with entry (i, j) = rows[i][j] |
| Matrices.TryFromSlice | chapter2/src/matrix.rs:44-51 | succeeds exactly when the slice has length n (else LengthMismatch), with entry i = s[i] |
| Matrices.TryFromRowsRoundTrip | chapter2/src/matrix.rs:25-32 | reading a matrix out row by row and converting back gives Ok of the same matrix |
| Matrices.TryFromRowsKeepsRows | chapter2/src/matrix.rs:25-32 | a successful conversion keeps every row as given |
| Matrices.TryFromSliceRoundTrip | chapter2/src/matrix.rs:44-55 | a vector's slice (`as_ref`) converts back to the same vector |
| Matrices.Transpose | chapter2/src/matrix.rs:71-73 | the m×n result has entry (i, j) = a(j, i) |
| Matrices.TransposeInvolutive | chapter2/src/matrix.rs:71-73 | transposing twice gives the original matrix |
| Matrices.Concat | chapter2/src/matrix.rs:75-83 | the n×(m+l) result is a in columns 0..m-1 and b in the columns after them |
| Matrices.ConcatSplits | chapter2/src/matrix.rs:75-83 | the two column blocks of a concatenation are exactly the two inputs |
| Matrices.ColumnRange | chapter2/src/bin/ex1.rs:43-46 | the block of w columns starting at lo: entry (i, j) = a(i, lo + j) |
| Matrices.SwappedRows | chapter2/src/matrix.rs:85-89 | rows i and k are exchanged in every column and every other row is unchanged |
| Matrices.SwapRowsSameIndex | chapter2/src/matrix.rs:85-89 | swapping a row with itself changes nothing |
| Matrices.SwapRowsInvolutive | chapter2/src/matrix.rs:85-89 | swapping the same two rows twice restores the matrix |
| Matrices.Add | chapter2/src/matrix.rs:185-190 | entry (i, j) is a(i, j) + b(i, j) |
| Matrices.Sub | chapter2/src/matrix.rs:215-220 | entry (i, j) is a(i, j) - b(i, j) |
| Matrices.SubUndoesAdd | chapter2/src/matrix.rs:215-220 | (a + b) - b == a |
| Matrices.AddZeroed | chapter2/src/matrix.rs:185-190 | a + 0 == a |
| Matrices.Scale | chapter2/src/matrix.rs:264-269 | entry (i, j) is a(i, j) * s |
| Matrices.Div | chapter2/src/matrix.rs:289-294 | entry (i, j) is a(i, j) / s, for s ≠ 0 |
| Matrices.DivUndoesScale | chapter2/src/matrix.rs:289-294 | (a * s) / s == a for s ≠ 0 |
| Matrices.Product | chapter2/src/matrix.rs:245-250 | the n×l result has entry (i, j) = the sum over k of a(i, k) * b(k, j) |
| Matrices.ProductAssociative | chapter2/src/matrix.rs:245-250 | (a * b) * c == a * (b * c) |
| Matrices.IdentityLeftNeutral | chapter2/src/matrix.rs:93-95 | I * a == a |
| Matrices.IdentityRightNeutral | chapter2/src/matrix.rs:93-95 | a * I == a |
| Matrices.At | chapter2/src/matrix.rs:161-166 | `self[(i, j)]` reads element i of column j; every entrywise contract is stated through it |
| Matrices.Apply | chapter2/src/bin/ex4.rs:10 | `a * x_k` as a sequence: entry p is the sum over k of a(p, k) * x_k |
| Matrices.ApplyIsProduct | chapter2/src/matrix.rs:245-250 | `Apply(b, x)` is the one column of the product of b with the one-column matrix holding x |
| Matrices.Dot | chapter2/src/matrix.rs:117-120 | the single entry of aᵀ * b is the sum of a_i * b_i |
| Matrices.MutableMatrix.constructor | chapter2/src/matrix.rs:2-6 | a working copy (`clone`) holds exactly the given matrix |
| Matrices.MutableMatrix.Get | chapter2/src/matrix.rs:161-166 | indexing the working copy reads entry (i, j) of its current value |
| Matrices.MutableMatrix.Set | chapter2/src/matrix.rs:167-171 | assigning through `IndexMut` changes entry (i, j) to v and no other entry |
| Matrices.MutableMatrix.SwapRows | chapter2/src/matrix.rs:85-89 | the column-by-column in-place swap leaves exactly `SwappedRows` of the old value |
| Matrices.MutableMatrix.AddAssign | chapter2/src/matrix.rs:204-208 | `+=` leaves exactly the old value + rhs |
| Matrices.MutableMatrix.SubAssign | chapter2/src/matrix.rs:234-238 | `-=` leaves exactly the old value - rhs |
| Matrices.MutableMatrix.MulAssign | chapter2/src/matrix.rs:283-287 | `*=` leaves exactly the old value times s |
| Matrices.MutableMatrix.DivAssign | chapter2/src/matrix.rs:300-304 | `/=` leaves exactly the old value divided by s |
| Solvers.IsLowerTriangular | chapter2/src/lib.rs:22-25 | the check of `forward_substitution`: every entry above the diagonal has magnitude below EPSILON |
| Solvers.IsUpperTriangular | chapter2/src/lib.rs:48-51 | the check of `back_substitution`: every entry below the diagonal has magnitude below EPSILON |
| Solvers.TriangularChecksTranspose | chapter2/src/lib.rs:22-51 | a matrix passes the lower triangular check exactly when its transpose passes the upper triangular one |
| Solvers.LowerRowSum | chapter2/src/lib.rs:29-32 | the inner loop's sum is the sum over j < i of l(i, j) * y_j |
| Solvers.UpperRowSum | chapter2/src/lib.rs:55-58 | the inner loop's sum is the sum over i < j < n of u(i, j) * x_j |
| Solvers.ForwardStep | chapter2/src/lib.rs:33 | setting y_i = (b_i - sum) / l(i, i) satisfies equation i and keeps equations 0..i-1 |
| Solvers.BackStep | chapter2/src/lib.rs:59 | setting x_i = (b_i - sum) / u(i, i) satisfies equation i and keeps equations i+1..n-1 |
| Solvers.ForwardSubstitution | chapter2/src/lib.rs:18-36 | Err(NotLowerTriangular) exactly when some entry above the diagonal has magnitude ≥ EPSILON; otherwise every equation, read up to the diagonal, holds, and with exact zeros l * y == b |
| Solvers.BackSubstitution | chapter2/src/lib.rs:44-62 | Err(NotUpperTriangular) exactly when some entry below the diagonal has magnitude ≥ EPSILON; otherwise every equation, read from the diagonal on, holds, and with exact zeros u * x == b |
| Solvers.LowerEquationsGiveProduct | chapter2/src/lib.rs:12-17 | for an exactly lower triangular matrix, the row equations of forward substitution are l * y == b |
| Solvers.UpperEquationsGiveProduct | chapter2/src/lib.rs:38-43 | for an exactly upper triangular matrix, the row equations of back substitution are u * x == b |
| Gauss.PivotAmong | chapter2/src/bin/ex1.rs:9-13 | None exactly when every candidate is within EPSILON of zero; otherwise a candidate above EPSILON, of largest magnitude, with every later candidate strictly smaller (the last of equals) |
| Gauss.Pivot | chapter2/src/bin/ex1.rs:9-13 | the pivot search of column k over rows k..n-1: None exactly when every candidate is within EPSILON of zero; otherwise a row at or below k whose entry exceeds EPSILON, of largest magnitude, the last of equals |
| Gauss.Exchanged | chapter2/src/bin/ex1.rs:15-17 | `if i != k { swap_rows(i, k) }`: the shape is kept; ExchangedAt gives the entries |
| Gauss.ExchangedAt | chapter2/src/bin/ex1.rs:15-17 | after the exchange, row i holds the old row that moved there (p ↔ k) |
| Gauss.EliminationStep | chapter2/src/bin/ex1.rs:19-24 | rows below k lose (t(i, k) / t(k, k)) times row k in columns k and beyond, nothing else changes, and column k is cleared below the diagonal |
| Gauss.PivotStep | chapter2/src/bin/ex1.rs:9-24 | Err(Singular) exactly when every entry of column k from row k down is within EPSILON of zero; otherwise the new pivot exceeds EPSILON and rows above k are unchanged |
| Gauss.EliminateFrom | chapter2/src/bin/ex1.rs:8-25 | the outer loop over columns k..n-2 keeps the shape and fails only with Singular; a successful run never changes the rows above k, leaves every diagonal entry of a searched column above EPSILON in magnitude, and, started with zeros below the diagonal before column k, leaves the whole coefficient block exactly upper triangular |
| Gauss.SubtractScaledRow | chapter2/src/bin/ex1.rs:21-23 | row i loses factor times row k in columns lo and beyond, and no other entry changes |
| Gauss.EliminateBelow | chapter2/src/bin/ex1.rs:19-24 | the in-place loop over the rows below k leaves exactly `EliminationStep` of the old matrix |
| Gauss.DoGaussianElimination | chapter2/src/bin/ex1.rs:7-26 | the in-place elimination succeeds exactly when `EliminateFrom` does, and then leaves its result |
| Gauss.ExchangeKeepsZeroBelow | chapter2/src/bin/ex1.rs:15-17 | exchanging row k with a lower row keeps the earlier columns zero below the diagonal |
| Gauss.PivotStepClearsColumn | chapter2/src/bin/ex1.rs:9-24 | step k extends the zeros below the diagonal to column k |
| Gauss.SolvesIffSatisfies | chapter2/src/bin/ex1.rs:43-46 | x solves the split-off system u * x == y exactly when every row equation of the augmented matrix holds at x |
| Gauss.ExchangeKeepsSolutions | chapter2/src/bin/ex1.rs:15-17 | a row exchange neither adds nor removes solutions |
| Gauss.EliminationStepResidual | chapter2/src/bin/ex1.rs:19-24 | below row k a row's residual drops by the factor times row k's residual, and other rows keep theirs |
| Gauss.EliminationStepKeepsSolutions | chapter2/src/bin/ex1.rs:19-24 | the row reduction of step k neither adds nor removes solutions |
| Gauss.SolvedBeforeStep | chapter2/src/bin/ex1.rs:19-24 | a solution after step k was a solution before it |
| Gauss.PivotStepKeepsSolutions | chapter2/src/bin/ex1.rs:9-24 | a full pass of the outer loop neither adds nor removes solutions |
| Gauss.ClearsColumnIfClear | chapter2/src/bin/ex1.rs:9-24 | a successful pass that starts with zeros below the diagonal before column k ends with them through column k |
| Gauss.PassHandsOn | chapter2/src/bin/ex1.rs:8-25 | a successful loop from column k < n - 1 is its first pass followed by the loop from column k + 1 |
| Gauss.NextStateSolutions | chapter2/src/bin/ex1.rs:8-24 | the state a pass hands on has the same solutions as its input and extends the zeros below the diagonal |
| Gauss.EliminateFromKeepsSolutions | chapter2/src/bin/ex1.rs:8-25 | the whole elimination neither adds nor removes solutions |
| Gauss.SolvesConcat | chapter2/src/bin/ex1.rs:29 | x solves the augmented system [a \| b] exactly when a * x == b |
| Gauss.PivotBoundsMultipliers | chapter2/src/bin/ex1.rs:9-20 | partial pivoting keeps every multiplier of step k at most 1 in magnitude |
| Gauss.EliminateChecked | chapter2/src/bin/ex1.rs:8 | the corrected elimination: as the loop, plus Singular when the last diagonal entry is within EPSILON |
| Gauss.EliminateCheckedUpper | chapter2/src/bin/ex1.rs:43-46 | after the checked elimination the block is exactly upper triangular with every pivot above EPSILON |
| Gauss.EliminateCheckedSolves | chapter2/src/bin/ex1.rs:28-47 | a solution of the reduced system solves a * x == b |
| Gauss.SolveByGaussianElimination | chapter2/src/bin/ex1.rs:28-47 | Err(Singular) exactly when the checked elimination fails; otherwise the result x has a * x == b |
| Gauss.EliminationExampleFirstStep | chapter2/src/bin/ex1.rs:86-102 | the unit test's first step picks row 1 and produces the expected intermediate matrix |
| Gauss.EliminationExampleSecondStep | chapter2/src/bin/ex1.rs:86-102 | the unit test's second step picks row 2 and produces the expected matrix |
| Gauss.EliminationExample | chapter2/src/bin/ex1.rs:86-112 | the unit test's 3×4 matrix reduces to exactly the expected matrix |
| Gauss.LastPivotPassesElimination | chapter2/src/bin/ex1.rs:8 | for a = [[1, 0], [0, 0]], b = [1, 1] the elimination succeeds and changes nothing |
| Gauss.LastPivotNoSolution | chapter2/src/bin/ex1.rs:8 | that system has no solution |
| Gauss.LastPivotUnchecked | chapter2/src/bin/ex1.rs:8 | the unchecked elimination succeeds with last pivot 0 on a system without solution, and the checked one reports Singular |
| LU.Iota | chapter2/src/bin/ex23.rs:14 | `pi` starts as the identity: entry i is i |
| LU.Swapped | chapter2/src/bin/ex23.rs:40 | `pi.swap(i, k)` exchanges entries i and k and keeps the rest |
| LU.Permuted | chapter2/src/bin/ex23.rs:64 | row r of P * a is row pi[r] of a |
| LU.RecordColumn | chapter2/src/bin/ex23.rs:43-51 | column k of l becomes 0 above the diagonal, 1 on it and the multipliers u(i, k) / u(k, k) below it, and the other columns are unchanged |
| LU.Exchange | chapter2/src/bin/ex23.rs:37-41 | the exchange keeps the shapes and the range of `pi` |
| LU.Step | chapter2/src/bin/ex23.rs:31-51 | one pass of the loop keeps the shapes and the range of `pi` |
| LU.Decompose | chapter2/src/bin/ex23.rs:10-55 | what `lu_decomposition` returns for a: the loop over all columns from the initial state, failing only with Singular and otherwise well formed; DecomposeFactors proves its factors |
| LU.DecomposeFrom | chapter2/src/bin/ex23.rs:30-52 | the loop over columns k..n-1 keeps the shapes and fails only with Singular |
| LU.Initial | chapter2/src/bin/ex23.rs:13-18 | the state before the loop is well formed |
| LU.ReduceRow | chapter2/src/bin/ex23.rs:43-49 | row i of u loses factor times row k in columns k and beyond, and l(i, k) becomes the factor |
| LU.EliminateAndRecord | chapter2/src/bin/ex23.rs:43-49 | u becomes exactly `EliminationStep` of its old value, and column k of l below the diagonal holds the multipliers |
| LU.ClearAbove | chapter2/src/bin/ex23.rs:51 | the entries of column k of l above row k become 0 and nothing else changes |
| LU.ExchangeRows | chapter2/src/bin/ex23.rs:37-41 | rows k and p of u and of l, and entries k and p of pi, are exchanged when p ≠ k |
| LU.DecompositionStep | chapter2/src/bin/ex23.rs:31-51 | the in-place pass leaves exactly `Step` of the old state |
| LU.LuDecomposition | chapter2/src/bin/ex23.rs:10-55 | returns `Decompose(a)`; on success pi is a permutation, L is unit lower triangular, U is upper triangular with pivots above EPSILON, and L * U == P * a |
| LU.InitialInvariant | chapter2/src/bin/ex23.rs:13-18 | the initial state meets the loop invariant |
| LU.SwappedPermutation | chapter2/src/bin/ex23.rs:40 | swapping two entries of a permutation gives a permutation |
| LU.StepIsPivotStep | chapter2/src/bin/ex23.rs:31-49 | the u of step k is the u of the Gaussian elimination step |
| LU.StepUnitLower | chapter2/src/bin/ex23.rs:48-51 | step k finishes column k of l as a unit lower triangular column |
| LU.ExchangeAccumulatesAt | chapter2/src/bin/ex23.rs:37-41 | after the exchange, each row of P * a is still reconstructed from u and the recorded multipliers |
| LU.ExchangeAccumulates | chapter2/src/bin/ex23.rs:37-41 | the joint exchange of u, l and pi keeps the reconstruction of P * a |
| LU.EliminationKeepsPrefix | chapter2/src/bin/ex23.rs:43-47 | the reduction of step k leaves the first k + 1 entries of every column of u |
| LU.RecordColumnKeepsPrefix | chapter2/src/bin/ex23.rs:48 | recording column k leaves the first k entries of every row of l |
| LU.EliminationAccumulatesAbove | chapter2/src/bin/ex23.rs:43-49 | rows k and above keep their reconstruction through the reduction |
| LU.RecordedSum | chapter2/src/bin/ex23.rs:43-49 | below row k the reconstruction sum gains the multiplier times row k of u |
| LU.EliminationAccumulatesBelow | chapter2/src/bin/ex23.rs:43-49 | rows below k keep their reconstruction: what u loses, l records |
| LU.EliminationAccumulates | chapter2/src/bin/ex23.rs:43-49 | the reduction and the recording together keep the reconstruction of P * a |
| LU.RowReduced | chapter2/src/bin/ex23.rs:43-47 | reducing row i of a matrix whose rows above i are already reduced gives one whose rows through i are those of the elimination step |
| LU.ReducedRowAccumulates | chapter2/src/bin/ex23.rs:43-49 | for a row r below k, what the reduction takes from u(r, c) the recorded multiplier l(r, k) gives back, so entry (pi[r], c) of a is still reconstructed |
| LU.StepKeepsInvariant | chapter2/src/bin/ex23.rs:30-52 | a pass with a pivot keeps the loop invariant, one column further on |
| LU.AccumulatedEntry | chapter2/src/bin/ex23.rs:30-54 | at the end, row r of L times column c of U is entry (pi[r], c) of a |
| LU.DecomposeFromKeepsInvariant | chapter2/src/bin/ex23.rs:30-52 | a successful loop from column k keeps the invariant through column n |
| LU.DecomposeFactors | chapter2/src/bin/ex23.rs:10-55 | `Decompose` fails only with Singular; on success pi is a permutation, L unit lower triangular, U upper triangular with pivots above EPSILON, and L * U == P * a |
| LU.InvariantFactors | chapter2/src/bin/ex23.rs:10-55 | at the end, pi is a permutation, L unit lower triangular, U upper triangular with pivots above EPSILON, and L * U == P * a |
| LU.PermutedProduct | chapter2/src/bin/ex23.rs:64 | (P * a) * x == P * (a * x) |
| LU.PermutedInjective | chapter2/src/bin/ex23.rs:63-64 | if P * y == P * b for a permutation P, then y == b |
| LU.SolveByLuDecomposition | chapter2/src/bin/ex23.rs:57-67 | Err(Singular) exactly when the decomposition fails; otherwise the result x has a * x == b |
| LU.DecomposeFromEnd | chapter2/src/bin/ex23.rs:30 | with no column left the loop returns its state |
| LU.StepOfExchange | chapter2/src/bin/ex23.rs:31-49 | a pass is the reduction of the exchanged state, whose pivot is nonzero |
| LU.DecomposeFromStepTo | chapter2/src/bin/ex23.rs:30-52 | a pass with a pivot hands the loop on to the next column |
| LU.LuExampleFirstPivot | chapter2/src/bin/ex23.rs:31-38 | for the unit test's matrix, column 0 picks row 1 |
| LU.LuExampleFirstExchange | chapter2/src/bin/ex23.rs:37-41 | the exchange of column 0 on u, l and pi in the unit test |
| LU.LuExampleFirstReduction | chapter2/src/bin/ex23.rs:43-51 | the reduction of column 0 in the unit test |
| LU.LuExampleSecondExchange | chapter2/src/bin/ex23.rs:31-41 | column 1 picks row 2 and exchanges rows 1 and 2 |
| LU.LuExampleSecondReduction | chapter2/src/bin/ex23.rs:43-51 | the reduction of column 1 in the unit test |
| LU.LuExampleThirdStep | chapter2/src/bin/ex23.rs:30-52 | column 2 keeps its pivot and only finishes column 2 of l |
| LU.LuExampleFromThird | chapter2/src/bin/ex23.rs:30-52 | from column 2 on, the loop ends with the expected factors |
| LU.LuExampleFromSecond | chapter2/src/bin/ex23.rs:30-52 | from column 1 on, the loop ends with the expected factors |
| LU.LuExample | chapter2/src/bin/ex23.rs:86-121 | the unit test's matrix decomposes into exactly the L and U the test expects, with pi = [1, 2, 0] |
| PowerIteration.ArgMaxAbs | chapter2/src/bin/ex4.rs:12-16 | None exactly for the empty vector; otherwise an index of largest magnitude, with every later entry strictly smaller (the last of equals) |
| PowerIteration.Ones | chapter2/src/bin/ex4.rs:8 | the starting vector has n entries, all 1 |
| PowerIteration.ArgMaxAbsOnes | chapter2/src/bin/ex4.rs:8-16 | on the starting vector the largest entry is the last one |
| PowerIteration.Estimate | chapter2/src/bin/ex4.rs:10-18 | fails exactly for the empty vector (`VectorIsZero`) or a zero largest entry (`NotFinite`) |
| PowerIteration.EstimateRatio | chapter2/src/bin/ex4.rs:10-18 | a successful estimate mu_k satisfies mu_k * x_i == (a * x)_i at the largest entry i, which is nonzero |
| PowerIteration.Normalized | chapter2/src/bin/ex4.rs:24 | dividing by the norm keeps the length of the vector |
| PowerIteration.OnePass | chapter2/src/bin/ex4.rs:10-24 | returns (mu_k, x_k) exactly when a previous estimate exists within EPSILON of mu_k; otherwise pushes mu_k onto the history and replaces x by y / norm(y), failing exactly when the estimate or that division fails |
| PowerIteration.SolveByPowerIteration | chapter2/src/bin/ex4.rs:4-28 | the loop returns exactly what `PowerIterate` describes, Diverges after MAX_ITERATIONS passes included |
| PowerIteration.ContinuingPass | chapter2/src/bin/ex4.rs:19-24 | a continuing pass divides by a nonzero norm: each new entry times norm(y) is the entry of y = a * x |
| PowerIteration.After | chapter2/src/bin/ex4.rs:9-25 | the vector and history after j passes that all go on: an n-vector and j more estimates |
| PowerIteration.IterateFrom | chapter2/src/bin/ex4.rs:9-27 | a returning loop gives an estimate that is `Estimate` of the returned vector, with a history of 1 to MAX_ITERATIONS - 1 estimates extending the starting one, whose last entry is within EPSILON of the estimate; Diverges exactly when every remaining pass goes on; VectorIsZero, while passes remain, exactly for n = 0 |
| PowerIteration.PowerIterate | chapter2/src/bin/ex4.rs:4-28 | a returning run from the all-ones vector gives an n-vector and the estimate that belongs to it; VectorIsZero exactly for n = 0; Diverges exactly when all MAX_ITERATIONS passes go on |
| PowerIteration.PowerIterateConverges | chapter2/src/bin/ex4.rs:9-27 | a returning run stops at an estimate within EPSILON of the last of 1 to MAX_ITERATIONS - 1 earlier estimates |
| PowerIteration.FirstPassContinues | chapter2/src/bin/ex4.rs:7-19 | the first pass never returns, since the history is empty |
| PowerIteration.PowerIterationExample | chapter2/src/bin/ex4.rs:4-28 | for a = [[2]] the loop returns 2 on its second pass, with the normalised vector |

## Left out

- Floating point: `f64` rounding, overflow, NaN and infinity are not modelled. Entries are
  exact reals, so the unit tests' EPSILON tolerance becomes exact equality.
- The `expect("found NaN or Inf")` of the `max_by` comparisons cannot fire on reals.
- PowerIteration.Estimate: a zero largest entry is reported at once as `NotFinite`. In floating
  point the division yields NaN or infinity and the loop fails one pass later, or runs on until
  it gives up.
- PowerIteration.OnePass: a zero norm is reported at once as `NotFinite`, for the same reason.
- `norm`, `normalize` and `normalized` (`matrix.rs:103-115`) need a square root. Power
  iteration takes the norm as a function parameter. Nothing is assumed of that function
  except where a lemma says so, and no convergence of the iteration is claimed.
- Gauss.DoGaussianElimination and Gauss.SolveByGaussianElimination require n ≥ 1. For N = 0
  the source's `N - 1` underflows.
- Matrices.Div and Matrices.MutableMatrix.DivAssign require s ≠ 0. In floating point the source
  divides by 0.0 and fills the matrix with infinities or NaN.
- Solvers.ForwardSubstitution and Solvers.BackSubstitution require a nonzero diagonal. In
  floating point the source divides by zero there and returns infinities or NaN.
- Solvers.ForwardSubstitution and Solvers.BackSubstitution: the product equation `l * y == b`
  is stated only for exact zeros off the triangle. When the triangularity check passes with
  entries that are merely below EPSILON, only the row equations up to the diagonal are
  promised.
- LU.LuDecomposition: a `Singular` result is not shown to mean that the matrix is singular.
  It means that some column had no candidate above EPSILON, which a nonsingular matrix with
  tiny entries can also cause.
- The `Vector` conversions from arrays (`matrix.rs:34-43`) are the length-checked
  `TryFromSlice` with a matching length. `AsRef`, `Debug`, the row and column iterators and
  `Index` for vectors are reads of `At` and are not modelled separately.
- `ex23.rs` and `ex4.rs` import names (`Solver`, `FirstEigenvalueSolver`,
  `ExperimentResult`, `EigenvalueErrors`) that `lib.rs` does not define. Only the algorithm
  functions of these files are modelled. nalgebra's `SMatrix` and `SVector` are modelled as the
  same `Matrix` value.
- The experiment harness of `lib.rs` (random matrices, timing, the nalgebra reference solvers
  and SVD, residual and error norms), the `main` functions and `plot.rs` are not part of this
  model. They are I/O, randomness, clocks and foreign libraries.

## Findings

| source | as written | input that shows it | evidently intended | confidence | as-written member | corrected member |
|---|---|---|---|---|---|---|
| chapter2/src/bin/ex1.rs:8 | the elimination loop runs for k in 0..N-1, so the last column is never searched for a pivot and a singular system is not reported | a = [[1, 0], [0, 0]], b = [1, 1]: the elimination succeeds with last diagonal entry 0, no x solves the system, and back substitution then divides by zero | report `Singular` when the last diagonal entry is within EPSILON of zero, as the loop of `ex23.rs` does by running through column N-1 | high (proved in the model; not executed) | Gauss.LastPivotUnchecked | Gauss.SolveByGaussianElimination |
