/** Gaussian elimination with partial pivoting on an augmented matrix, and the solver built on it
    (`chapter2/src/bin/ex1.rs`). */
module Gauss {
  import opened Outcomes
  import opened Matrices
  import opened Solvers

  // ---------------------------------------------------------------------------
  // Pivot search

  /** The pivot search of column k over rows lo..hi-1: among the rows whose entry in column k
      exceeds EPSILON in magnitude, one of largest magnitude; of several equal ones the last,
      because `max_by` keeps the later of two equal elements. */
  function PivotAmong(a: Matrix, n: nat, m: nat, k: nat, lo: nat, hi: nat): (r: Option<nat>)
    requires Shaped(a, n, m) && k < m && lo <= hi <= n
    ensures r.None? <==> forall i :: lo <= i < hi ==> Abs(At(a, i, k)) <= EPSILON
    ensures r.Some? ==> lo <= r.value < hi && Abs(At(a, r.value, k)) > EPSILON
    ensures r.Some? ==> forall i :: lo <= i < hi ==> Abs(At(a, i, k)) <= Abs(At(a, r.value, k))
    ensures r.Some? ==> forall i :: r.value < i < hi ==> Abs(At(a, i, k)) < Abs(At(a, r.value, k))
    decreases hi
  {
    if hi == lo then None
    else
      var best := PivotAmong(a, n, m, k, lo, hi - 1);
      var v := Abs(At(a, hi - 1, k));
      if v <= EPSILON then best
      else if best.None? || Abs(At(a, best.value, k)) <= v then Some(hi - 1)
      else best
  }

  /** The pivot row for column k, searched in rows k..n-1. */
  function Pivot(a: Matrix, n: nat, m: nat, k: nat): (r: Option<nat>)
    requires Shaped(a, n, m) && k < n && k < m
    ensures r.None? <==> forall i :: k <= i < n ==> Abs(At(a, i, k)) <= EPSILON
    ensures r.Some? ==> k <= r.value < n && Abs(At(a, r.value, k)) > EPSILON
    ensures r.Some? ==> forall i :: k <= i < n ==> Abs(At(a, i, k)) <= Abs(At(a, r.value, k))
    ensures r.Some? ==> forall i :: r.value < i < n ==> Abs(At(a, i, k)) < Abs(At(a, r.value, k))
  {
    PivotAmong(a, n, m, k, k, n)
  }

  // ---------------------------------------------------------------------------
  // One elimination step

  /** The inner loops for column k: every row i below k loses `t(i, k) / t(k, k)` times row k,
      in columns k and beyond; nothing else changes. In exact arithmetic this clears column k
      below the diagonal. */
  function EliminationStep(t: Matrix, n: nat, m: nat, k: nat): (r: Matrix)
    requires Shaped(t, n, m) && k < n && k < m && At(t, k, k) != 0.0
    ensures Shaped(r, n, m)
    ensures forall i: nat, j: nat {:trigger At(r, i, j)} :: i < n && j < m ==>
      At(r, i, j) == if k < i && k <= j then At(t, i, j) - At(t, i, k) / At(t, k, k) * At(t, k, j) else At(t, i, j)
    ensures forall i: nat {:trigger At(r, i, k)} :: k < i < n ==> At(r, i, k) == 0.0
  {
    FromFn(n, m, (i: nat, j: nat) requires i < n && j < m =>
      if k < i && k <= j then At(t, i, j) - At(t, i, k) / At(t, k, k) * At(t, k, j) else At(t, i, j))
  }

  /** The matrix after the row exchange of step k: rows p and k swapped unless p is k. */
  function Exchanged(a: Matrix, n: nat, m: nat, k: nat, p: nat): (r: Matrix)
    requires Shaped(a, n, m) && k < n && p < n
    ensures Shaped(r, n, m)
  {
    if p != k then SwappedRows(a, n, m, p, k) else a
  }

  /** Entry (i, j) after the exchange is the entry of `a` in the row that moved to i. */
  lemma {:induction false} ExchangedAt(a: Matrix, n: nat, m: nat, k: nat, p: nat)
    requires Shaped(a, n, m) && k < n && p < n
    ensures forall i: nat, j: nat {:trigger At(Exchanged(a, n, m, k, p), i, j)} :: i < n && j < m ==>
      At(Exchanged(a, n, m, k, p), i, j) == At(a, if i == p then k else if i == k then p else i, j)
  {
  }

  /** One pass of the outer loop for column k: the pivot search, which fails when every
      candidate is within EPSILON of zero, the row exchange, and the elimination below row k. */
  function PivotStep(a: Matrix, n: nat, m: nat, k: nat): (r: Result<Matrix, SolveError>)
    requires Shaped(a, n, m) && k < n && k < m
    ensures r.Err? <==> forall i :: k <= i < n ==> Abs(At(a, i, k)) <= EPSILON
    ensures r.Err? ==> r.error == Singular
    ensures r.Ok? ==> Shaped(r.value, n, m)
    ensures r.Ok? ==> Abs(At(r.value, k, k)) > EPSILON
    ensures r.Ok? ==> forall i: nat, j: nat :: i < k && j < m ==> At(r.value, i, j) == At(a, i, j)
  {
    match Pivot(a, n, m, k)
    case None => Err(Singular)
    case Some(p) => Ok(EliminationStep(Exchanged(a, n, m, k, p), n, m, k))
  }

  /** The outer loop of `do_gaussian_elimination` from column k on: the steps for columns
      k..n-2 in turn. The loop stops before column n-1, so that column is never searched for a
      pivot. */
  function EliminateFrom(a: Matrix, n: nat, k: nat): (r: Result<Matrix, SolveError>)
    requires Shaped(a, n, n + 1) && k < n
    ensures r.Ok? ==> Shaped(r.value, n, n + 1)
    ensures r.Err? ==> r.error == Singular
    ensures r.Ok? ==> forall i: nat, j: nat {:trigger At(r.value, i, j)} :: i < k && j < n + 1 ==> At(r.value, i, j) == At(a, i, j)
    ensures r.Ok? ==> forall d :: k <= d < n - 1 ==> Abs(At(r.value, d, d)) > EPSILON
    ensures r.Ok? && ZeroBelow(a, n, n + 1, k) ==> ZeroBelow(r.value, n, n + 1, n)
    decreases n - k
  {
    if k == n - 1 then Ok(a)
    else
      match PivotStep(a, n, n + 1, k)
      case Err(e) => Err(e)
      case Ok(s) =>
        ClearsColumnIfClear(a, n, k);
        var r := EliminateFrom(s, n, k + 1);
        assert r.Ok? ==> At(r.value, k, k) == At(s, k, k);
        r
  }

  // ---------------------------------------------------------------------------
  // The in-place elimination

  /** The innermost loop: row i loses `factor` times row k in columns lo and beyond. */
  method SubtractScaledRow(ab: MutableMatrix, i: nat, k: nat, lo: nat, factor: real)
    requires ab.Valid() && i < ab.rows && k < ab.rows && i != k && lo <= ab.cols
    modifies ab
    ensures ab.Valid()
    ensures forall p: nat, q: nat :: p < ab.rows && q < ab.cols ==>
      ab.Get(p, q) == if p == i && lo <= q then old(ab.Get(i, q)) - factor * old(ab.Get(k, q)) else old(ab.Get(p, q))
  {
    for j := lo to ab.cols
      invariant ab.Valid()
      invariant forall p: nat, q: nat :: p < ab.rows && q < ab.cols ==>
        ab.Get(p, q) == if p == i && lo <= q < j then old(ab.Get(i, q)) - factor * old(ab.Get(k, q)) else old(ab.Get(p, q))
    {
      ab.Set(i, j, ab.Get(i, j) - factor * ab.Get(k, j));
    }
  }

  /** The loop over the rows below the pivot row k: each row i takes its factor
      `ab(i, k) / ab(k, k)` before it is changed. */
  method EliminateBelow(ab: MutableMatrix, k: nat)
    requires ab.Valid() && k < ab.rows && k < ab.cols && ab.Get(k, k) != 0.0
    modifies ab
    ensures ab.Valid()
    ensures ab.Value() == EliminationStep(old(ab.Value()), ab.rows, ab.cols, k)
  {
    ghost var t := ab.Value();
    ghost var s := EliminationStep(t, ab.rows, ab.cols, k);
    for i := k + 1 to ab.rows
      invariant ab.Valid()
      invariant forall p: nat, q: nat :: p < ab.rows && q < ab.cols ==>
        ab.Get(p, q) == if p < i then At(s, p, q) else At(t, p, q)
    {
      var factor := ab.Get(i, k) / ab.Get(k, k);
      SubtractScaledRow(ab, i, k, k, factor);
    }
    Ext(ab.Value(), s, ab.rows, ab.cols);
  }

  /** `do_gaussian_elimination`: reduces the n×(n+1) augmented matrix in place, step by step as
      `EliminateFrom` describes, and fails with `Singular` where a pivot search finds nothing. */
  method DoGaussianElimination(ab: MutableMatrix, n: nat) returns (r: Result<(), SolveError>)
    requires ab.Valid() && ab.rows == n && ab.cols == n + 1 && 1 <= n
    modifies ab
    ensures ab.Valid()
    ensures r.Ok? <==> EliminateFrom(old(ab.Value()), n, 0).Ok?
    ensures r.Ok? ==> ab.Value() == EliminateFrom(old(ab.Value()), n, 0).value
    ensures r.Err? ==> r.error == Singular
  {
    for k := 0 to n - 1
      invariant ab.Valid()
      invariant EliminateFrom(ab.Value(), n, k) == EliminateFrom(old(ab.Value()), n, 0)
    {
      var pivot := Pivot(ab.Value(), n, n + 1, k);
      if pivot.None? {
        return Err(Singular);
      }
      var i := pivot.value;
      if i != k {
        ab.SwapRows(i, k);
      }
      EliminateBelow(ab, k);
    }
    return Ok(());
  }

  // ---------------------------------------------------------------------------
  // What the elimination achieves

  /** In every column before c, the entries below the diagonal are zero. */
  ghost predicate ZeroBelow(s: Matrix, n: nat, m: nat, c: nat)
    requires Shaped(s, n, m) && c <= m
  {
    forall i, j :: 0 <= j < c && j < i < n ==> At(s, i, j) == 0.0
  }

  /** Exchanging row k with a row below it keeps the columns before k clear below the diagonal. */
  lemma {:induction false} ExchangeKeepsZeroBelow(a: Matrix, n: nat, m: nat, k: nat, p: nat)
    requires Shaped(a, n, m) && k <= p < n && k <= m && ZeroBelow(a, n, m, k)
    ensures ZeroBelow(Exchanged(a, n, m, k, p), n, m, k)
  {
    var t := Exchanged(a, n, m, k, p);
    if p != k {
      forall i, j | 0 <= j < k && j < i < n
        ensures At(t, i, j) == 0.0
      {
        assert At(t, i, j) == At(a, if i == p then k else if i == k then p else i, j);
      }
    }
  }

  /** Step k extends the zeros below the diagonal from the columns before k to column k. */
  lemma {:induction false} PivotStepClearsColumn(a: Matrix, n: nat, m: nat, k: nat)
    requires Shaped(a, n, m) && k < n && k < m && ZeroBelow(a, n, m, k)
    requires PivotStep(a, n, m, k).Ok?
    ensures ZeroBelow(PivotStep(a, n, m, k).value, n, m, k + 1)
  {
    ExchangeKeepsZeroBelow(a, n, m, k, Pivot(a, n, m, k).value);
  }

  /** The same, stated for any state: a pass that succeeds keeps the zeros it finds below the
      diagonal and adds those of column k. */
  lemma {:induction false} ClearsColumnIfClear(a: Matrix, n: nat, k: nat)
    requires Shaped(a, n, n + 1) && k < n && PivotStep(a, n, n + 1, k).Ok?
    ensures ZeroBelow(a, n, n + 1, k) ==> ZeroBelow(PivotStep(a, n, n + 1, k).value, n, n + 1, k + 1)
  {
    if ZeroBelow(a, n, n + 1, k) {
      PivotStepClearsColumn(a, n, n + 1, k);
    }
  }

  /** How far row i of the augmented system `s` is from holding at `x`: the coefficients in
      columns 0..n-1 weighted by `x`, less the entry in column n. */
  ghost function Residual(s: Matrix, n: nat, x: seq<real>, i: nat): real
    requires Shaped(s, n, n + 1) && |x| == n && i < n
  {
    InnerProduct(Row(s, i)[..n], x) - At(s, i, n)
  }

  /** Every equation of the augmented system `s` holds at `x`. */
  ghost predicate Satisfies(s: Matrix, n: nat, x: seq<real>)
    requires Shaped(s, n, n + 1)
  {
    |x| == n && forall i :: 0 <= i < n ==> Residual(s, n, x, i) == 0.0
  }

  /** `x` solves the system the augmented matrix `s` describes: the coefficient block (columns
      0..n-1) times `x` is the right-hand side (column n). */
  ghost predicate Solves(s: Matrix, n: nat, x: Matrix)
    requires Shaped(s, n, n + 1)
  {
    Shaped(x, n, 1) && Product(ColumnRange(s, n, n + 1, 0, n), x, n, n, 1) == ColumnRange(s, n, n + 1, n, 1)
  }

  /** A solution is a vector at which every equation holds. */
  lemma {:induction false} SolvesIffSatisfies(s: Matrix, n: nat, x: Matrix)
    requires Shaped(s, n, n + 1) && Shaped(x, n, 1)
    ensures Solves(s, n, x) <==> Satisfies(s, n, x.columns[0])
  {
    var u := ColumnRange(s, n, n + 1, 0, n);
    var y := ColumnRange(s, n, n + 1, n, 1);
    var prod := Product(u, x, n, n, 1);
    forall i | 0 <= i < n
      ensures Residual(s, n, x.columns[0], i) == At(prod, i, 0) - At(y, i, 0)
    {
      assert Row(s, i)[..n] == Row(u, i) by {
        assert forall j :: 0 <= j < n ==> Row(s, i)[..n][j] == Row(u, i)[j];
      }
    }
    if Satisfies(s, n, x.columns[0]) {
      Ext(prod, y, n, 1);
    }
  }

  /** A row exchange neither adds nor removes solutions: it only reorders the residuals. */
  lemma {:induction false} ExchangeKeepsSolutions(a: Matrix, n: nat, k: nat, p: nat, x: seq<real>)
    requires Shaped(a, n, n + 1) && k < n && p < n && |x| == n
    ensures Satisfies(Exchanged(a, n, n + 1, k, p), n, x) <==> Satisfies(a, n, x)
  {
    var t := Exchanged(a, n, n + 1, k, p);
    forall i | 0 <= i < n
      ensures Residual(t, n, x, i) == Residual(a, n, x, if i == p then k else if i == k then p else i)
    {
      var i' := if i == p then k else if i == k then p else i;
      assert Row(t, i) == Row(a, i') by {
        assert forall j :: 0 <= j < n + 1 ==> Row(t, i)[j] == Row(a, i')[j];
      }
    }
    if Satisfies(t, n, x) {
      forall i | 0 <= i < n
        ensures Residual(a, n, x, i) == 0.0
      {
        assert Residual(t, n, x, if i == p then k else if i == k then p else i) == 0.0;
      }
    }
  }

  /** Below row k, the step subtracts from each row's residual the same multiple of row k's
      residual; rows k and above keep theirs. Row k is zero in the columns before k, so the
      columns the step leaves alone agree with a full row operation. */
  lemma {:induction false} EliminationStepResidual(t: Matrix, n: nat, k: nat, x: seq<real>, i: nat)
    requires Shaped(t, n, n + 1) && k < n && At(t, k, k) != 0.0 && ZeroBelow(t, n, n + 1, k)
    requires |x| == n && i < n
    ensures Residual(EliminationStep(t, n, n + 1, k), n, x, i)
      == if k < i then Residual(t, n, x, i) - At(t, i, k) / At(t, k, k) * Residual(t, n, x, k)
         else Residual(t, n, x, i)
  {
    var s := EliminationStep(t, n, n + 1, k);
    if k < i {
      InnerProductLinear(Row(s, i)[..n], Row(t, i)[..n], Row(t, k)[..n], x, At(t, i, k) / At(t, k, k));
    } else {
      assert Row(s, i) == Row(t, i) by {
        assert forall j :: 0 <= j < n + 1 ==> Row(s, i)[j] == Row(t, i)[j];
      }
    }
  }

  /** Subtracting multiples of row k from the rows below it neither adds nor removes solutions. */
  lemma {:induction false} EliminationStepKeepsSolutions(t: Matrix, n: nat, k: nat, x: seq<real>)
    requires Shaped(t, n, n + 1) && k < n && At(t, k, k) != 0.0 && ZeroBelow(t, n, n + 1, k)
    requires |x| == n
    ensures Satisfies(EliminationStep(t, n, n + 1, k), n, x) <==> Satisfies(t, n, x)
  {
    var s := EliminationStep(t, n, n + 1, k);
    EliminationStepResidual(t, n, k, x, k);
    if Satisfies(t, n, x) {
      forall i | 0 <= i < n
        ensures Residual(s, n, x, i) == 0.0
      {
        EliminationStepResidual(t, n, k, x, i);
      }
    }
    if Satisfies(s, n, x) {
      SolvedBeforeStep(t, n, k, x);
    }
  }

  /** The harder half of `EliminationStepKeepsSolutions`: a solution after the step was one
      before it, because row k's residual is the same on both sides and zero. */
  lemma {:induction false} SolvedBeforeStep(t: Matrix, n: nat, k: nat, x: seq<real>)
    requires Shaped(t, n, n + 1) && k < n && At(t, k, k) != 0.0 && ZeroBelow(t, n, n + 1, k)
    requires |x| == n && Satisfies(EliminationStep(t, n, n + 1, k), n, x)
    ensures Satisfies(t, n, x)
  {
    var s := EliminationStep(t, n, n + 1, k);
    EliminationStepResidual(t, n, k, x, k);
    var rk := Residual(t, n, x, k);
    assert rk == 0.0;
    forall i | 0 <= i < n
      ensures Residual(t, n, x, i) == 0.0
    {
      EliminationStepResidual(t, n, k, x, i);
      var c := At(t, i, k) / At(t, k, k);
      assert c * rk == 0.0;
    }
  }

  /** One pass of the outer loop neither adds nor removes solutions. */
  lemma {:induction false} PivotStepKeepsSolutions(a: Matrix, n: nat, k: nat, x: Matrix)
    requires Shaped(a, n, n + 1) && k < n && ZeroBelow(a, n, n + 1, k) && Shaped(x, n, 1)
    requires PivotStep(a, n, n + 1, k).Ok?
    ensures Solves(PivotStep(a, n, n + 1, k).value, n, x) <==> Solves(a, n, x)
  {
    var p := Pivot(a, n, n + 1, k).value;
    ExchangeKeepsSolutions(a, n, k, p, x.columns[0]);
    ExchangeKeepsZeroBelow(a, n, n + 1, k, p);
    EliminationStepKeepsSolutions(Exchanged(a, n, n + 1, k, p), n, k, x.columns[0]);
    SolvesIffSatisfies(PivotStep(a, n, n + 1, k).value, n, x);
    SolvesIffSatisfies(a, n, x);
  }

  /** A successful loop from column k < n - 1 on is its first pass followed by the loop from
      column k + 1 on. */
  lemma {:induction false} PassHandsOn(a: Matrix, n: nat, k: nat)
    requires Shaped(a, n, n + 1) && k < n - 1 && EliminateFrom(a, n, k).Ok?
    ensures PivotStep(a, n, n + 1, k).Ok?
    ensures EliminateFrom(PivotStep(a, n, n + 1, k).value, n, k + 1) == EliminateFrom(a, n, k)
  {
  }

  /** The state the first pass hands on has the same solutions as `a`. */
  lemma {:induction false} NextStateSolutions(a: Matrix, n: nat, k: nat, x: Matrix) returns (s: Matrix)
    requires Shaped(a, n, n + 1) && k < n && ZeroBelow(a, n, n + 1, k) && Shaped(x, n, 1)
    requires PivotStep(a, n, n + 1, k).Ok?
    ensures PivotStep(a, n, n + 1, k) == Ok(s) && ZeroBelow(s, n, n + 1, k + 1)
    ensures Solves(s, n, x) <==> Solves(a, n, x)
  {
    PivotStepClearsColumn(a, n, n + 1, k);
    PivotStepKeepsSolutions(a, n, k, x);
    s := PivotStep(a, n, n + 1, k).value;
  }

  /** The whole elimination from column k on neither adds nor removes solutions. */
  lemma {:induction false} EliminateFromKeepsSolutions(a: Matrix, n: nat, k: nat, x: Matrix)
    requires Shaped(a, n, n + 1) && k < n && ZeroBelow(a, n, n + 1, k) && Shaped(x, n, 1)
    requires EliminateFrom(a, n, k).Ok?
    ensures Solves(EliminateFrom(a, n, k).value, n, x) <==> Solves(a, n, x)
    decreases n - k
  {
    if k < n - 1 {
      PassHandsOn(a, n, k);
      var s := NextStateSolutions(a, n, k, x);
      EliminateFromKeepsSolutions(s, n, k + 1, x);
    }
  }

  /** A solution of the augmented system `[a | b]` is exactly a vector with a * x == b. */
  lemma {:induction false} SolvesConcat(a: Matrix, b: Matrix, n: nat, x: Matrix)
    requires Shaped(a, n, n) && Shaped(b, n, 1) && Shaped(x, n, 1)
    ensures Solves(Concat(a, b, n, n, 1), n, x) <==> Product(a, x, n, n, 1) == b
  {
    ConcatSplits(a, b, n, n, 1);
  }

  /** Partial pivoting keeps every multiplier of step k at most 1 in magnitude: after the
      exchange, no entry below row k in column k is larger than the pivot. */
  lemma {:induction false} PivotBoundsMultipliers(a: Matrix, n: nat, m: nat, k: nat)
    requires Shaped(a, n, m) && k < n && k < m && Pivot(a, n, m, k).Some?
    ensures var t := Exchanged(a, n, m, k, Pivot(a, n, m, k).value);
      forall i :: k < i < n ==> Abs(At(t, i, k) / At(t, k, k)) <= 1.0
  {
    var p := Pivot(a, n, m, k).value;
    var t := Exchanged(a, n, m, k, p);
    forall i | k < i < n
      ensures Abs(At(t, i, k) / At(t, k, k)) <= 1.0
    {
      var i' := if i == p then k else i;
      assert At(t, i, k) == At(a, i', k);
      QuotientBound(At(t, i, k), At(t, k, k));
    }
  }

  /** |x / y| <= 1 when |x| <= |y| and y is not zero. */
  lemma {:induction false} QuotientBound(x: real, y: real)
    requires y != 0.0 && Abs(x) <= Abs(y)
    ensures Abs(x / y) <= 1.0
  {
    var q := x / y;
    assert x == q * y;
    if q > 1.0 {
      assert (q - 1.0) * Abs(y) > 0.0;
    } else if q < -1.0 {
      assert (-1.0 - q) * Abs(y) > 0.0;
    }
  }

  // ---------------------------------------------------------------------------
  // The solver

  /** The elimination with the pivot check of the last column that `do_gaussian_elimination`
      leaves out: a last diagonal entry within EPSILON of zero is reported as `Singular`, as
      the pivot search would report it had the loop run through column n-1. */
  function EliminateChecked(ab: Matrix, n: nat): (r: Result<Matrix, SolveError>)
    requires Shaped(ab, n, n + 1) && 1 <= n
    ensures r.Ok? ==> Shaped(r.value, n, n + 1)
    ensures r.Err? ==> r.error == Singular
  {
    match EliminateFrom(ab, n, 0)
    case Err(e) => Err(e)
    case Ok(u) => if Abs(At(u, n - 1, n - 1)) <= EPSILON then Err(Singular) else Ok(u)
  }

  /** After the checked elimination the coefficient block is exactly upper triangular and every
      diagonal entry exceeds EPSILON in magnitude, which is what back substitution needs. */
  lemma {:induction false} EliminateCheckedUpper(ab: Matrix, n: nat)
    requires Shaped(ab, n, n + 1) && 1 <= n && EliminateChecked(ab, n).Ok?
    ensures var u := ColumnRange(EliminateChecked(ab, n).value, n, n + 1, 0, n);
      ExactlyUpperTriangular(u, n) && forall i :: 0 <= i < n ==> Abs(At(u, i, i)) > EPSILON
  {
  }

  /** A solution of the system the checked elimination leaves is a solution of the original
      one: if u * x == y for the final blocks, then a * x == b. */
  lemma {:induction false} EliminateCheckedSolves(a: Matrix, b: Matrix, n: nat, x: Matrix)
    requires Shaped(a, n, n) && Shaped(b, n, 1) && Shaped(x, n, 1) && 1 <= n
    requires EliminateChecked(Concat(a, b, n, n, 1), n).Ok?
    requires var e := EliminateChecked(Concat(a, b, n, n, 1), n).value;
      Product(ColumnRange(e, n, n + 1, 0, n), x, n, n, 1) == ColumnRange(e, n, n + 1, n, 1)
    ensures Product(a, x, n, n, 1) == b
  {
    var ab := Concat(a, b, n, n, 1);
    EliminateFromKeepsSolutions(ab, n, 0, x);
    SolvesConcat(a, b, n, x);
  }

  /** `solve_by_gaussian_elimination`, with the last pivot checked: the system is copied into
      an augmented working matrix, which is reduced in place; then the coefficient block and
      the right-hand side are taken out and solved by back substitution. The caller's `a` and
      `b` are values and stay as they are. */
  method SolveByGaussianElimination(a: Matrix, b: Matrix, n: nat) returns (r: Result<Matrix, SolveError>)
    requires Shaped(a, n, n) && Shaped(b, n, 1) && 1 <= n
    ensures r.Err? <==> EliminateChecked(Concat(a, b, n, n, 1), n).Err?
    ensures r.Err? ==> r.error == Singular
    ensures r.Ok? ==> Shaped(r.value, n, 1) && Product(a, r.value, n, n, 1) == b
  {
    var ab := new MutableMatrix(Concat(a, b, n, n, 1), n, n + 1);
    var reduced := DoGaussianElimination(ab, n);
    if reduced.Err? {
      return Err(Singular);
    }
    if Abs(ab.Get(n - 1, n - 1)) <= EPSILON {
      return Err(Singular);
    }
    var u := ColumnRange(ab.Value(), n, n + 1, 0, n);
    var y := ColumnRange(ab.Value(), n, n + 1, n, 1);
    EliminateCheckedUpper(Concat(a, b, n, n, 1), n);
    r := BackSubstitution(u, y, n);
    EliminateCheckedSolves(a, b, n, r.value);
  }

  // ---------------------------------------------------------------------------
  // The unit test, and the unchecked last pivot

  /** The first step of the unit test's example: row 1 holds the largest entry of column 0. */
  lemma {:induction false} EliminationExampleFirstStep()
    ensures PivotStep(FromRows([[2.0, 1.0, -1.0, 8.0], [-3.0, -1.0, 2.0, -11.0], [-2.0, 1.0, 2.0, -3.0]], 3, 4), 3, 4, 0)
      == Ok(FromRows([[-3.0, -1.0, 2.0, -11.0], [0.0, 1.0 / 3.0, 1.0 / 3.0, 2.0 / 3.0], [0.0, 5.0 / 3.0, 2.0 / 3.0, 13.0 / 3.0]], 3, 4))
  {
    var a := FromRows([[2.0, 1.0, -1.0, 8.0], [-3.0, -1.0, 2.0, -11.0], [-2.0, 1.0, 2.0, -3.0]], 3, 4);
    var s1 := FromRows([[-3.0, -1.0, 2.0, -11.0], [0.0, 1.0 / 3.0, 1.0 / 3.0, 2.0 / 3.0], [0.0, 5.0 / 3.0, 2.0 / 3.0, 13.0 / 3.0]], 3, 4);
    assert Pivot(a, 3, 4, 0) == Some(1);
    Ext(EliminationStep(Exchanged(a, 3, 4, 0, 1), 3, 4, 0), s1, 3, 4);
  }

  /** The second step of the example: row 2 holds the largest remaining entry of column 1. */
  lemma {:induction false} EliminationExampleSecondStep()
    ensures PivotStep(FromRows([[-3.0, -1.0, 2.0, -11.0], [0.0, 1.0 / 3.0, 1.0 / 3.0, 2.0 / 3.0], [0.0, 5.0 / 3.0, 2.0 / 3.0, 13.0 / 3.0]], 3, 4), 3, 4, 1)
      == Ok(FromRows([[-3.0, -1.0, 2.0, -11.0], [0.0, 5.0 / 3.0, 2.0 / 3.0, 13.0 / 3.0], [0.0, 0.0, 1.0 / 5.0, -1.0 / 5.0]], 3, 4))
  {
    var s1 := FromRows([[-3.0, -1.0, 2.0, -11.0], [0.0, 1.0 / 3.0, 1.0 / 3.0, 2.0 / 3.0], [0.0, 5.0 / 3.0, 2.0 / 3.0, 13.0 / 3.0]], 3, 4);
    var s2 := FromRows([[-3.0, -1.0, 2.0, -11.0], [0.0, 5.0 / 3.0, 2.0 / 3.0, 13.0 / 3.0], [0.0, 0.0, 1.0 / 5.0, -1.0 / 5.0]], 3, 4);
    assert Pivot(s1, 3, 4, 1) == Some(2);
    Ext(EliminationStep(Exchanged(s1, 3, 4, 1, 2), 3, 4, 1), s2, 3, 4);
  }

  /** The 3×4 example of the unit test reduces, in exact arithmetic, to exactly the expected
      matrix (the test accepts it within EPSILON). */
  lemma {:induction false} EliminationExample()
    ensures EliminateFrom(FromRows([[2.0, 1.0, -1.0, 8.0], [-3.0, -1.0, 2.0, -11.0], [-2.0, 1.0, 2.0, -3.0]], 3, 4), 3, 0)
      == Ok(FromRows([[-3.0, -1.0, 2.0, -11.0], [0.0, 5.0 / 3.0, 2.0 / 3.0, 13.0 / 3.0], [0.0, 0.0, 1.0 / 5.0, -1.0 / 5.0]], 3, 4))
  {
    EliminationExampleFirstStep();
    EliminationExampleSecondStep();
  }

  /** For a = [[1, 0], [0, 0]] and b = [1, 1], the single step the loop runs changes nothing. */
  lemma {:induction false} LastPivotPassesElimination()
    ensures var a := FromRows([[1.0, 0.0], [0.0, 0.0]], 2, 2);
      var b := FromRows([[1.0], [1.0]], 2, 1);
      EliminateFrom(Concat(a, b, 2, 2, 1), 2, 0) == Ok(Concat(a, b, 2, 2, 1))
  {
    var a := FromRows([[1.0, 0.0], [0.0, 0.0]], 2, 2);
    var b := FromRows([[1.0], [1.0]], 2, 1);
    var ab := Concat(a, b, 2, 2, 1);
    assert Pivot(ab, 2, 3, 0) == Some(0);
    Ext(EliminationStep(Exchanged(ab, 2, 3, 0, 0), 2, 3, 0), ab, 2, 3);
  }

  /** ... and the system has no solution, since row 1 of a is zero and b's is not. */
  lemma {:induction false} LastPivotNoSolution()
    ensures var a := FromRows([[1.0, 0.0], [0.0, 0.0]], 2, 2);
      var b := FromRows([[1.0], [1.0]], 2, 1);
      forall x :: Shaped(x, 2, 1) ==> Product(a, x, 2, 2, 1) != b
  {
    var a := FromRows([[1.0, 0.0], [0.0, 0.0]], 2, 2);
    var b := FromRows([[1.0], [1.0]], 2, 1);
    forall x | Shaped(x, 2, 1)
      ensures Product(a, x, 2, 2, 1) != b
    {
      InnerProductZero(Row(a, 1), x.columns[0]);
      assert At(Product(a, x, 2, 2, 1), 1, 0) == 0.0;
    }
  }

  /** The loop stops before column n-1, so a singular system comes through the elimination
      without an error: for a = [[1, 0], [0, 0]] and b = [1, 1] the elimination succeeds with
      a zero last diagonal entry, although no x has a * x == b, and back substitution on this
      result divides by zero. The checked elimination reports the system as singular. */
  lemma {:induction false} LastPivotUnchecked()
    ensures var a := FromRows([[1.0, 0.0], [0.0, 0.0]], 2, 2);
      var b := FromRows([[1.0], [1.0]], 2, 1);
      var e := EliminateFrom(Concat(a, b, 2, 2, 1), 2, 0);
      && e.Ok? && At(e.value, 1, 1) == 0.0
      && EliminateChecked(Concat(a, b, 2, 2, 1), 2) == Err(Singular)
      && forall x :: Shaped(x, 2, 1) ==> Product(a, x, 2, 2, 1) != b
  {
    LastPivotPassesElimination();
    LastPivotNoSolution();
  }
}
