/** LU decomposition with partial pivoting, and the solver built on it, of
    `chapter2/src/bin/ex23.rs`: PA = LU with P the row permutation recorded in `pi`, L unit
    lower triangular and U upper triangular. */
module LU {
  import opened Outcomes
  import opened Matrices
  import opened Solvers
  import opened Gauss

  /** `LUDecomposition { l, u, pi }`: row r of the factored matrix is row `pi[r]` of the input. */
  datatype LUDecomposition = LUDecomposition(l: Matrix, u: Matrix, pi: seq<nat>)

  /** `l` and `u` are n×n and every entry of `pi` is a row index. */
  predicate Fits(d: LUDecomposition, n: nat) {
    Shaped(d.l, n, n) && Shaped(d.u, n, n) && |d.pi| == n && forall i :: 0 <= i < n ==> d.pi[i] < n
  }

  /** The identity permutation `std::array::from_fn(|i| i)`. */
  function Iota(n: nat): (r: seq<nat>)
    ensures |r| == n && forall i :: 0 <= i < n ==> r[i] == i
  {
    seq(n, i => i)
  }

  /** `pi` holds every row index 0..n-1 exactly once. */
  ghost predicate IsPermutation(pi: seq<nat>, n: nat) {
    && |pi| == n
    && (forall i :: 0 <= i < n ==> pi[i] < n)
    && (forall i, j :: 0 <= i < j < n ==> pi[i] != pi[j])
    && (forall t :: 0 <= t < n ==> t in pi)
  }

  /** `pi.swap(i, k)`. */
  function Swapped(pi: seq<nat>, i: nat, k: nat): (r: seq<nat>)
    requires i < |pi| && k < |pi|
    ensures |r| == |pi|
    ensures r[i] == pi[k] && r[k] == pi[i]
    ensures forall q :: 0 <= q < |pi| && q != i && q != k ==> r[q] == pi[q]
  {
    pi[i := pi[k]][k := pi[i]]
  }

  /** P * a for the permutation `pi`: row r is row `pi[r]` of `a`. */
  function Permuted(a: Matrix, pi: seq<nat>, n: nat, m: nat): (r: Matrix)
    requires Shaped(a, n, m) && |pi| == n && forall i :: 0 <= i < n ==> pi[i] < n
    ensures Shaped(r, n, m)
    ensures forall i: nat, j: nat {:trigger At(r, i, j)} :: i < n && j < m ==> At(r, i, j) == At(a, pi[i], j)
  {
    FromFn(n, m, (i: nat, j: nat) requires i < n && j < m => At(a, pi[i], j))
  }

  // ---------------------------------------------------------------------------
  // The decomposition as a function of its state

  /** Column k of `l` at the end of step k: zero above the diagonal, 1 on it, and below it the
      factor `t(i, k) / t(k, k)` row i of the exchanged `t` was reduced by. The other columns
      are as they were. */
  function RecordColumn(l: Matrix, t: Matrix, n: nat, k: nat): (r: Matrix)
    requires Shaped(l, n, n) && Shaped(t, n, n) && k < n && At(t, k, k) != 0.0
    ensures Shaped(r, n, n)
    ensures forall i: nat, j: nat {:trigger At(r, i, j)} :: i < n && j < n ==>
      At(r, i, j) == if j != k then At(l, i, j) else if i < k then 0.0 else if i == k then 1.0 else At(t, i, k) / At(t, k, k)
  {
    FromFn(n, n, (i: nat, j: nat) requires i < n && j < n =>
      if j != k then At(l, i, j) else if i < k then 0.0 else if i == k then 1.0 else At(t, i, k) / At(t, k, k))
  }

  /** The state after the exchange of rows k and p of step k. */
  function Exchange(d: LUDecomposition, n: nat, k: nat, p: nat): (r: LUDecomposition)
    requires Fits(d, n) && k <= p < n
    ensures Fits(r, n)
  {
    LUDecomposition(Exchanged(d.l, n, n, k, p), Exchanged(d.u, n, n, k, p), if p != k then Swapped(d.pi, p, k) else d.pi)
  }

  /** One pass of the outer loop with pivot row p: rows p and k exchanged in `u`, in `l` and in
      `pi` (nothing exchanged when p is k), the rows of `u` below k reduced, column k of `l`
      recorded. */
  function Step(d: LUDecomposition, n: nat, k: nat, p: nat): (r: LUDecomposition)
    requires Fits(d, n) && k <= p < n && At(d.u, p, k) != 0.0
    ensures Fits(r, n)
  {
    var e := Exchange(d, n, k, p);
    ExchangedAt(d.u, n, n, k, p);
    LUDecomposition(RecordColumn(e.l, e.u, n, k), EliminationStep(e.u, n, n, k), e.pi)
  }

  /** The outer loop from column k on. Unlike `do_gaussian_elimination` it runs through the last
      column, so every column is searched for a pivot, and a column without one is `Singular`
      (the `expect("Matrix is singular")`). */
  function DecomposeFrom(d: LUDecomposition, n: nat, k: nat): (r: Result<LUDecomposition, SolveError>)
    requires Fits(d, n) && k <= n
    ensures r.Ok? ==> Fits(r.value, n)
    ensures r.Err? ==> r.error == Singular
    decreases n - k
  {
    if k == n then Ok(d)
    else
      match Pivot(d.u, n, n, k)
      case None => Err(Singular)
      case Some(p) => DecomposeFrom(Step(d, n, k, p), n, k + 1)
  }

  /** The state before the loop: `pi` the identity, `l` the identity matrix, `u` the input. */
  function Initial(a: Matrix, n: nat): (r: LUDecomposition)
    requires Shaped(a, n, n)
    ensures Fits(r, n)
  {
    LUDecomposition(Identity(n), a, Iota(n))
  }

  /** What `lu_decomposition` computes from `a`. */
  function Decompose(a: Matrix, n: nat): (r: Result<LUDecomposition, SolveError>)
    requires Shaped(a, n, n)
    ensures r.Err? ==> r.error == Singular
    ensures r.Ok? ==> Fits(r.value, n)
  {
    DecomposeFrom(Initial(a, n), n, 0)
  }

  // ---------------------------------------------------------------------------
  // The in-place decomposition

  /** One pass of the loop over the rows below the pivot row k: row i of `u` loses `factor`
      times row k from column k on, where `factor = u(i, k) / u(k, k)` is taken first, and
      `l(i, k)` records the factor. */
  method ReduceRow(u: MutableMatrix, l: MutableMatrix, n: nat, k: nat, i: nat)
    requires u.Valid() && l.Valid() && u != l
    requires u.rows == n && u.cols == n && l.rows == n && l.cols == n
    requires k < i < n && u.Get(k, k) != 0.0
    modifies u, l
    ensures u.Valid() && l.Valid()
    ensures forall p: nat, q: nat {:trigger At(u.Value(), p, q)} :: p < n && q < n ==>
      At(u.Value(), p, q) == if p == i && k <= q then At(old(u.Value()), i, q) - At(old(u.Value()), i, k) / At(old(u.Value()), k, k) * At(old(u.Value()), k, q) else At(old(u.Value()), p, q)
    ensures forall p: nat, q: nat {:trigger At(l.Value(), p, q)} :: p < n && q < n ==>
      At(l.Value(), p, q) == if p == i && q == k then old(u.Get(i, k)) / old(u.Get(k, k)) else At(old(l.Value()), p, q)
  {
    ghost var u0 := u.Value();
    var factor := u.Get(i, k) / u.Get(k, k);
    SubtractScaledRow(u, i, k, k, factor);
    forall p: nat, q: nat | p < n && q < n
      ensures At(u.Value(), p, q) == if p == i && k <= q then At(u0, i, q) - factor * At(u0, k, q) else At(u0, p, q)
    {
      assert u.Get(p, q) == At(u.Value(), p, q);
    }
    ghost var before := l.Value();
    l.Set(i, k, factor);
    assert forall p: nat, q: nat {:trigger At(l.Value(), p, q)} :: p < n && q < n ==>
      At(l.Value(), p, q) == if p == i && q == k then factor else At(before, p, q);
  }

  /** Reducing row i of a matrix whose rows above i are already those of step k's elimination
      and whose other rows are still those of `t` brings row i in line too. */
  lemma {:induction false} RowReduced(t: Matrix, before: Matrix, after: Matrix, n: nat, k: nat, i: nat)
    requires Shaped(t, n, n) && Shaped(before, n, n) && Shaped(after, n, n) && k < i < n && At(t, k, k) != 0.0
    requires At(before, k, k) != 0.0
    requires forall p: nat, q: nat {:trigger At(before, p, q)} :: p < n && q < n ==>
      At(before, p, q) == if p < i then At(EliminationStep(t, n, n, k), p, q) else At(t, p, q)
    requires forall p: nat, q: nat {:trigger At(after, p, q)} :: p < n && q < n ==>
      At(after, p, q) == if p == i && k <= q then At(before, i, q) - At(before, i, k) / At(before, k, k) * At(before, k, q) else At(before, p, q)
    ensures forall p: nat, q: nat {:trigger At(after, p, q)} :: p < n && q < n ==>
      At(after, p, q) == if p < i + 1 then At(EliminationStep(t, n, n, k), p, q) else At(t, p, q)
  {
    var s := EliminationStep(t, n, n, k);
    forall q: nat | q < n
      ensures At(before, k, q) == At(t, k, q) && At(before, i, q) == At(t, i, q)
    {
      assert At(s, k, q) == At(t, k, q);
    }
  }

  /** The loop over the rows below the pivot row k: `ReduceRow` for each of them in turn. */
  method EliminateAndRecord(u: MutableMatrix, l: MutableMatrix, n: nat, k: nat)
    requires u.Valid() && l.Valid() && u != l
    requires u.rows == n && u.cols == n && l.rows == n && l.cols == n
    requires k < n && u.Get(k, k) != 0.0
    modifies u, l
    ensures u.Valid() && l.Valid()
    ensures u.Value() == EliminationStep(old(u.Value()), n, n, k)
    ensures forall i: nat, j: nat {:trigger At(l.Value(), i, j)} :: i < n && j < n ==>
      At(l.Value(), i, j) == if j == k && k < i then At(old(u.Value()), i, k) / At(old(u.Value()), k, k) else At(old(l.Value()), i, j)
  {
    ghost var t, l0 := u.Value(), l.Value();
    ghost var s := EliminationStep(t, n, n, k);
    for i := k + 1 to n
      invariant u.Valid() && l.Valid()
      invariant forall p: nat, q: nat {:trigger At(u.Value(), p, q)} :: p < n && q < n ==> At(u.Value(), p, q) == if p < i then At(s, p, q) else At(t, p, q)
      invariant forall p: nat, q: nat {:trigger At(l.Value(), p, q)} :: p < n && q < n ==>
        At(l.Value(), p, q) == if q == k && k < p < i then At(t, p, k) / At(t, k, k) else At(l0, p, q)
    {
      ghost var before, ub := l.Value(), u.Value();
      ReduceRow(u, l, n, k, i);
      RowReduced(t, ub, u.Value(), n, k, i);
      assert forall p: nat, q: nat {:trigger At(l.Value(), p, q)} :: p < n && q < n ==>
        At(l.Value(), p, q) == if p == i && q == k then At(t, i, k) / At(t, k, k) else At(before, p, q);
    }
    Ext(u.Value(), s, n, n);
  }

  /** `l.column_mut(k).rows_range_mut(0..k).apply(|it| *it = 0.0)`: the entries of column k
      above the diagonal become zero. */
  method ClearAbove(l: MutableMatrix, k: nat)
    requires l.Valid() && k < l.rows && k < l.cols
    modifies l
    ensures l.Valid()
    ensures forall i: nat, j: nat {:trigger At(l.Value(), i, j)} :: i < l.rows && j < l.cols ==>
      At(l.Value(), i, j) == if j == k && i < k then 0.0 else At(old(l.Value()), i, j)
  {
    ghost var l0 := l.Value();
    for i := 0 to k
      invariant l.Valid()
      invariant forall p: nat, q: nat {:trigger At(l.Value(), p, q)} :: p < l.rows && q < l.cols ==>
        At(l.Value(), p, q) == if q == k && p < i then 0.0 else At(l0, p, q)
    {
      ghost var before := l.Value();
      l.Set(i, k, 0.0);
      assert forall p: nat, q: nat {:trigger At(l.Value(), p, q)} :: p < l.rows && q < l.cols ==>
        At(l.Value(), p, q) == if p == i && q == k then 0.0 else At(before, p, q);
    }
  }

  /** The exchange of step k: rows p and k of `u` and of `l`, and entries p and k of `pi`, swap
      places, unless p is k. */
  method ExchangeRows(u: MutableMatrix, l: MutableMatrix, pi: array<nat>, n: nat, k: nat, p: nat)
    requires u.Valid() && l.Valid() && u != l
    requires u.rows == n && u.cols == n && l.rows == n && l.cols == n && pi.Length == n
    requires k <= p < n
    modifies u, l, pi
    ensures u.Valid() && l.Valid()
    ensures u.Value() == Exchanged(old(u.Value()), n, n, k, p)
    ensures l.Value() == Exchanged(old(l.Value()), n, n, k, p)
    ensures pi[..] == if p != k then Swapped(old(pi[..]), p, k) else old(pi[..])
  {
    if p != k {
      u.SwapRows(p, k);
      l.SwapRows(p, k);
      pi[p], pi[k] := pi[k], pi[p];
    }
  }

  /** One pass of the outer loop once the pivot row p is known. */
  method DecompositionStep(u: MutableMatrix, l: MutableMatrix, pi: array<nat>, n: nat, k: nat, p: nat)
    requires u.Valid() && l.Valid() && u != l
    requires u.rows == n && u.cols == n && l.rows == n && l.cols == n && pi.Length == n
    requires Fits(LUDecomposition(l.Value(), u.Value(), pi[..]), n)
    requires k <= p < n && u.Get(p, k) != 0.0
    modifies u, l, pi
    ensures u.Valid() && l.Valid()
    ensures LUDecomposition(l.Value(), u.Value(), pi[..]) == Step(old(LUDecomposition(l.Value(), u.Value(), pi[..])), n, k, p)
  {
    ghost var d := LUDecomposition(l.Value(), u.Value(), pi[..]);
    ExchangeRows(u, l, pi, n, k, p);
    ghost var t, lx := u.Value(), l.Value();
    ExchangedAt(d.u, n, n, k, p);
    EliminateAndRecord(u, l, n, k);
    ghost var l1 := l.Value();
    l.Set(k, k, 1.0);
    ghost var l2 := l.Value();
    assert forall i: nat, j: nat {:trigger At(l2, i, j)} :: i < n && j < n ==>
      At(l2, i, j) == if i == k && j == k then 1.0 else At(l1, i, j);
    ClearAbove(l, k);
    Ext(l.Value(), RecordColumn(lx, t, n, k), n, n);
  }

  /** `lu_decomposition`: `pi`, `l` and `u` start as the identity permutation, the identity
      matrix and `a`, and are updated together, column by column. */
  method LuDecomposition(a: Matrix, n: nat) returns (r: Result<LUDecomposition, SolveError>)
    requires Shaped(a, n, n)
    ensures r == Decompose(a, n)
    ensures r.Err? ==> r.error == Singular
    ensures r.Ok? ==> IsPermutation(r.value.pi, n)
    ensures r.Ok? ==> ExactlyLowerTriangular(r.value.l, n) && forall i: nat :: i < n ==> At(r.value.l, i, i) == 1.0
    ensures r.Ok? ==> ExactlyUpperTriangular(r.value.u, n) && forall i: nat :: i < n ==> Abs(At(r.value.u, i, i)) > EPSILON
    ensures r.Ok? ==> Product(r.value.l, r.value.u, n, n, n) == Permuted(a, r.value.pi, n, n)
  {
    var pi := new nat[n](i => i);
    var l := new MutableMatrix(Identity(n), n, n);
    var u := new MutableMatrix(a, n, n);
    assert pi[..] == Iota(n);
    DecomposeFactors(a, n);
    for k := 0 to n
      invariant l.Valid() && u.Valid() && l.rows == n && l.cols == n && u.rows == n && u.cols == n
      invariant Fits(LUDecomposition(l.Value(), u.Value(), pi[..]), n)
      invariant DecomposeFrom(LUDecomposition(l.Value(), u.Value(), pi[..]), n, k) == Decompose(a, n)
    {
      var pivot := Pivot(u.Value(), n, n, k);
      if pivot.None? {
        return Err(Singular);
      }
      DecompositionStep(u, l, pi, n, k, pivot.value);
    }
    return Ok(LUDecomposition(l.Value(), u.Value(), pi[..]));
  }

  // ---------------------------------------------------------------------------
  // What the decomposition achieves

  function Min(x: nat, y: nat): nat {
    if x < y then x else y
  }

  /** The columns before k of `l` are those of a unit lower triangular matrix: 1 on the
      diagonal and 0 above it. */
  ghost predicate UnitLowerBefore(l: Matrix, n: nat, k: nat)
    requires Shaped(l, n, n) && k <= n
  {
    forall i, j :: 0 <= i <= j < k ==> At(l, i, j) == if i == j then 1.0 else 0.0
  }

  /** The diagonal entries of `u` above row k are pivots larger than EPSILON in magnitude. */
  ghost predicate PivotsBefore(u: Matrix, n: nat, k: nat)
    requires Shaped(u, n, n) && k <= n
  {
    forall j :: 0 <= j < k ==> Abs(At(u, j, j)) > EPSILON
  }

  /** The bookkeeping that makes PA = LU at the end: before step k, row `pi[r]` of `a` is row r
      of `u` plus the rows above it that were subtracted from it, each weighted by the factor
      recorded in `l`. Only the first min(r, k) columns of `l` count; the others are not yet
      written. */
  ghost predicate Accumulates(a: Matrix, d: LUDecomposition, n: nat, k: nat)
    requires Shaped(a, n, n) && Fits(d, n) && k <= n
  {
    forall r, c :: 0 <= r < n && 0 <= c < n ==>
      At(a, d.pi[r], c) == At(d.u, r, c) + InnerProduct(Row(d.l, r)[..Min(r, k)], d.u.columns[c][..Min(r, k)])
  }

  /** What holds of the state before step k of the decomposition of `a`. */
  ghost predicate Invariant(a: Matrix, d: LUDecomposition, n: nat, k: nat)
    requires Shaped(a, n, n) && Fits(d, n) && k <= n
  {
    && IsPermutation(d.pi, n)
    && ZeroBelow(d.u, n, n, k)
    && UnitLowerBefore(d.l, n, k)
    && PivotsBefore(d.u, n, k)
    && Accumulates(a, d, n, k)
  }

  /** The state before the loop meets the invariant. */
  lemma {:induction false} InitialInvariant(a: Matrix, n: nat)
    requires Shaped(a, n, n)
    ensures Invariant(a, Initial(a, n), n, 0)
  {
    var d := Initial(a, n);
    forall t | 0 <= t < n
      ensures t in d.pi
    {
      assert d.pi[t] == t;
    }
    forall r, c | 0 <= r < n && 0 <= c < n
      ensures At(a, d.pi[r], c) == At(d.u, r, c) + InnerProduct(Row(d.l, r)[..Min(r, 0)], d.u.columns[c][..Min(r, 0)])
    {
      assert Row(d.l, r)[..0] == [];
    }
  }

  /** Swapping two entries of a permutation gives a permutation. */
  lemma {:induction false} SwappedPermutation(pi: seq<nat>, n: nat, i: nat, k: nat)
    requires IsPermutation(pi, n) && i < n && k < n
    ensures IsPermutation(Swapped(pi, i, k), n)
  {
    var r := Swapped(pi, i, k);
    forall t | 0 <= t < n
      ensures t in r
    {
      assert t in pi;
      var q :| 0 <= q < |pi| && pi[q] == t;
      var q' := if q == i then k else if q == k then i else q;
      assert r[q'] == t;
    }
  }

  /** The `u` of step k is the `u` of the elimination step of column k. */
  lemma {:induction false} StepIsPivotStep(d: LUDecomposition, n: nat, k: nat, p: nat)
    requires Fits(d, n) && k < n && Pivot(d.u, n, n, k) == Some(p)
    ensures PivotStep(d.u, n, n, k) == Ok(Step(d, n, k, p).u)
  {
  }

  /** Step k finishes column k of `l` and keeps the columns before it. */
  lemma {:induction false} StepUnitLower(d: LUDecomposition, n: nat, k: nat, p: nat)
    requires Fits(d, n) && k <= p < n && At(d.u, p, k) != 0.0 && UnitLowerBefore(d.l, n, k)
    ensures UnitLowerBefore(Step(d, n, k, p).l, n, k + 1)
  {
    ExchangedAt(d.l, n, n, k, p);
    ExchangedAt(d.u, n, n, k, p);
  }

  /** Row r after the exchange is row `src` before it, where `src` swaps k and p, and both of
      those rows use the first k columns only. */
  lemma {:induction false} ExchangeAccumulatesAt(a: Matrix, d: LUDecomposition, n: nat, k: nat, p: nat, r: nat, c: nat)
    requires Shaped(a, n, n) && Fits(d, n) && k <= p < n && Accumulates(a, d, n, k) && r < n && c < n
    ensures At(a, Exchange(d, n, k, p).pi[r], c) == At(Exchange(d, n, k, p).u, r, c)
      + InnerProduct(Row(Exchange(d, n, k, p).l, r)[..Min(r, k)], Exchange(d, n, k, p).u.columns[c][..Min(r, k)])
  {
    var e := Exchange(d, n, k, p);
    ExchangedAt(d.l, n, n, k, p);
    ExchangedAt(d.u, n, n, k, p);
    var src := if r == k then p else if r == p then k else r;
    var m := Min(r, k);
    assert m == Min(src, k);
    assert e.pi[r] == d.pi[src];
    assert At(e.u, r, c) == At(d.u, src, c);
    assert Row(e.l, r)[..m] == Row(d.l, src)[..m];
    assert e.u.columns[c][..m] == d.u.columns[c][..m] by {
      forall q | 0 <= q < m
        ensures e.u.columns[c][q] == d.u.columns[c][q]
      {
        assert At(e.u, q, c) == At(d.u, q, c);
      }
    }
  }

  /** Exchanging rows k and p >= k of `u` and `l` together with entries k and p of `pi` keeps
      the bookkeeping. */
  lemma {:induction false} ExchangeAccumulates(a: Matrix, d: LUDecomposition, n: nat, k: nat, p: nat)
    requires Shaped(a, n, n) && Fits(d, n) && k <= p < n && Accumulates(a, d, n, k)
    ensures Accumulates(a, Exchange(d, n, k, p), n, k)
  {
    forall r, c | 0 <= r < n && 0 <= c < n
      ensures At(a, Exchange(d, n, k, p).pi[r], c) == At(Exchange(d, n, k, p).u, r, c)
        + InnerProduct(Row(Exchange(d, n, k, p).l, r)[..Min(r, k)], Exchange(d, n, k, p).u.columns[c][..Min(r, k)])
    {
      ExchangeAccumulatesAt(a, d, n, k, p, r, c);
    }
  }

  /** The reduction of the rows below k leaves the first m <= k + 1 entries of every column. */
  lemma {:induction false} EliminationKeepsPrefix(t: Matrix, n: nat, k: nat, c: nat, m: nat)
    requires Shaped(t, n, n) && k < n && At(t, k, k) != 0.0 && c < n && m <= k + 1
    ensures EliminationStep(t, n, n, k).columns[c][..m] == t.columns[c][..m]
  {
    var e := EliminationStep(t, n, n, k);
    forall q | 0 <= q < m
      ensures e.columns[c][q] == t.columns[c][q]
    {
      assert At(e, q, c) == At(t, q, c);
    }
  }

  /** Recording column k of `l` leaves the first m <= k entries of every row. */
  lemma {:induction false} RecordColumnKeepsPrefix(l: Matrix, t: Matrix, n: nat, k: nat, r: nat, m: nat)
    requires Shaped(l, n, n) && Shaped(t, n, n) && k < n && At(t, k, k) != 0.0 && r < n && m <= k
    ensures Row(RecordColumn(l, t, n, k), r)[..m] == Row(l, r)[..m]
  {
  }

  /** Row r of `a` after the reduction of the rows below k: rows k and above are not touched
      and their sums do not reach column k of `l`. */
  lemma {:induction false} EliminationAccumulatesAbove(a: Matrix, d: LUDecomposition, n: nat, k: nat, r: nat, c: nat)
    requires Shaped(a, n, n) && Fits(d, n) && k < n && At(d.u, k, k) != 0.0
    requires r <= k && c < n && Accumulates(a, d, n, k)
    ensures At(a, d.pi[r], c) == At(EliminationStep(d.u, n, n, k), r, c)
      + InnerProduct(Row(RecordColumn(d.l, d.u, n, k), r)[..r], EliminationStep(d.u, n, n, k).columns[c][..r])
  {
    assert Min(r, k) == r;
    RecordColumnKeepsPrefix(d.l, d.u, n, k, r, r);
    EliminationKeepsPrefix(d.u, n, k, c, r);
  }

  /** For a row r > k the sum over the first k + 1 columns is the sum over the first k, plus the
      factor recorded at (r, k) times row k of `u`. */
  lemma {:induction false} RecordedSum(d: LUDecomposition, n: nat, k: nat, r: nat, c: nat)
    requires Fits(d, n) && k < n && At(d.u, k, k) != 0.0 && k < r < n && c < n
    ensures InnerProduct(Row(RecordColumn(d.l, d.u, n, k), r)[..k + 1], EliminationStep(d.u, n, n, k).columns[c][..k + 1])
      == InnerProduct(Row(d.l, r)[..k], d.u.columns[c][..k]) + At(d.u, r, k) / At(d.u, k, k) * At(d.u, k, c)
  {
    var x, y := Row(RecordColumn(d.l, d.u, n, k), r), EliminationStep(d.u, n, n, k).columns[c];
    InnerProductSnoc(x, y, k);
    RecordColumnKeepsPrefix(d.l, d.u, n, k, r, k);
    EliminationKeepsPrefix(d.u, n, k, c, k);
    assert y[k] == At(EliminationStep(d.u, n, n, k), k, c);
  }

  /** Row r > k: it loses `factor` times row k of `u`, and its sum gains the same through the
      factor recorded at (r, k) of `l`. */
  lemma {:induction false} EliminationAccumulatesBelow(a: Matrix, d: LUDecomposition, n: nat, k: nat, r: nat, c: nat)
    requires Shaped(a, n, n) && Fits(d, n) && k < n && At(d.u, k, k) != 0.0
    requires k < r < n && c < n && ZeroBelow(d.u, n, n, k) && Accumulates(a, d, n, k)
    ensures At(a, d.pi[r], c) == At(EliminationStep(d.u, n, n, k), r, c)
      + InnerProduct(Row(RecordColumn(d.l, d.u, n, k), r)[..k + 1], EliminationStep(d.u, n, n, k).columns[c][..k + 1])
  {
    assert Min(r, k) == k;
    assert At(a, d.pi[r], c) == At(d.u, r, c) + InnerProduct(Row(d.l, r)[..k], d.u.columns[c][..k]);
    assert c < k ==> At(d.u, k, c) == 0.0;
    ReducedRowAccumulates(a, d, n, k, r, c);
  }

  /** `EliminationAccumulatesBelow` for one entry, from the two facts about it that it uses:
      the entry's reconstruction before the step, and a zero in row k left of the diagonal. */
  lemma {:induction false} ReducedRowAccumulates(a: Matrix, d: LUDecomposition, n: nat, k: nat, r: nat, c: nat)
    requires Shaped(a, n, n) && Fits(d, n) && k < n && At(d.u, k, k) != 0.0 && k < r < n && c < n
    requires At(a, d.pi[r], c) == At(d.u, r, c) + InnerProduct(Row(d.l, r)[..k], d.u.columns[c][..k])
    requires c < k ==> At(d.u, k, c) == 0.0
    ensures At(a, d.pi[r], c) == At(EliminationStep(d.u, n, n, k), r, c)
      + InnerProduct(Row(RecordColumn(d.l, d.u, n, k), r)[..k + 1], EliminationStep(d.u, n, n, k).columns[c][..k + 1])
  {
    var t, e := d.u, EliminationStep(d.u, n, n, k);
    var g := At(t, r, k) / At(t, k, k) * At(t, k, c);
    RecordedSum(d, n, k, r, c);
    assert At(e, r, c) == At(t, r, c) - g;
  }

  /** Reducing the rows below k and recording the factors in column k of `l` keeps the
      bookkeeping, one column further on. */
  lemma {:induction false} EliminationAccumulates(a: Matrix, d: LUDecomposition, n: nat, k: nat)
    requires Shaped(a, n, n) && Fits(d, n) && k < n && At(d.u, k, k) != 0.0
    requires ZeroBelow(d.u, n, n, k) && Accumulates(a, d, n, k)
    ensures Fits(LUDecomposition(RecordColumn(d.l, d.u, n, k), EliminationStep(d.u, n, n, k), d.pi), n)
    ensures Accumulates(a, LUDecomposition(RecordColumn(d.l, d.u, n, k), EliminationStep(d.u, n, n, k), d.pi), n, k + 1)
  {
    var s := LUDecomposition(RecordColumn(d.l, d.u, n, k), EliminationStep(d.u, n, n, k), d.pi);
    forall r, c | 0 <= r < n && 0 <= c < n
      ensures At(a, s.pi[r], c) == At(s.u, r, c) + InnerProduct(Row(s.l, r)[..Min(r, k + 1)], s.u.columns[c][..Min(r, k + 1)])
    {
      if r <= k {
        EliminationAccumulatesAbove(a, d, n, k, r, c);
      } else {
        EliminationAccumulatesBelow(a, d, n, k, r, c);
      }
    }
  }

  /** Step k keeps the invariant, one column further on. */
  lemma {:induction false} StepKeepsInvariant(a: Matrix, d: LUDecomposition, n: nat, k: nat, p: nat)
    requires Shaped(a, n, n) && Fits(d, n) && k < n && Pivot(d.u, n, n, k) == Some(p)
    requires Invariant(a, d, n, k)
    ensures Invariant(a, Step(d, n, k, p), n, k + 1)
  {
    var s := Step(d, n, k, p);
    if p != k {
      SwappedPermutation(d.pi, n, p, k);
    }
    StepIsPivotStep(d, n, k, p);
    PivotStepClearsColumn(d.u, n, n, k);
    StepUnitLower(d, n, k, p);
    ExchangedAt(d.u, n, n, k, p);
    ExchangeKeepsZeroBelow(d.u, n, n, k, p);
    ExchangeAccumulates(a, d, n, k, p);
    EliminationAccumulates(a, Exchange(d, n, k, p), n, k);
  }

  /** Row r of L times column c of U is entry (r, c) of PA once every column is done: the sum
      over the columns before r, plus `1 * u(r, c)`, plus zeros. */
  lemma {:induction false} AccumulatedEntry(a: Matrix, d: LUDecomposition, n: nat, r: nat, c: nat)
    requires Shaped(a, n, n) && Fits(d, n) && Invariant(a, d, n, n) && r < n && c < n
    ensures InnerProduct(Row(d.l, r), d.u.columns[c]) == At(a, d.pi[r], c)
  {
    var x, y := Row(d.l, r), d.u.columns[c];
    assert Min(r, n) == r;
    InnerProductSplit(x, y, r + 1);
    InnerProductSnoc(x, y, r);
    assert x[r] == 1.0;
    InnerProductZero(x[r + 1..], y[r + 1..]);
  }

  /** Once every column is done, the invariant is the factorization: L is unit lower
      triangular, U is upper triangular with pivots larger than EPSILON, and LU = PA. */
  lemma {:induction false} InvariantFactors(a: Matrix, d: LUDecomposition, n: nat)
    requires Shaped(a, n, n) && Fits(d, n) && Invariant(a, d, n, n)
    ensures IsPermutation(d.pi, n)
    ensures ExactlyLowerTriangular(d.l, n) && forall i: nat :: i < n ==> At(d.l, i, i) == 1.0
    ensures ExactlyUpperTriangular(d.u, n) && forall i: nat :: i < n ==> Abs(At(d.u, i, i)) > EPSILON
    ensures Product(d.l, d.u, n, n, n) == Permuted(a, d.pi, n, n)
  {
    forall r: nat, c: nat | r < n && c < n
      ensures At(Product(d.l, d.u, n, n, n), r, c) == At(Permuted(a, d.pi, n, n), r, c)
    {
      AccumulatedEntry(a, d, n, r, c);
    }
    Ext(Product(d.l, d.u, n, n, n), Permuted(a, d.pi, n, n), n, n);
  }

  /** The loop from column k on keeps the invariant through to the end. */
  lemma {:induction false} DecomposeFromKeepsInvariant(a: Matrix, d: LUDecomposition, n: nat, k: nat)
    requires Shaped(a, n, n) && Fits(d, n) && k <= n && Invariant(a, d, n, k)
    requires DecomposeFrom(d, n, k).Ok?
    ensures Invariant(a, DecomposeFrom(d, n, k).value, n, n)
    decreases n - k
  {
    if k < n {
      var p := Pivot(d.u, n, n, k).value;
      StepKeepsInvariant(a, d, n, k, p);
      DecomposeFromKeepsInvariant(a, Step(d, n, k, p), n, k + 1);
    }
  }

  /** A successful decomposition is a factorization PA = LU of its input, with pi a
      permutation, L unit lower triangular and U upper triangular with pivots larger than
      EPSILON. */
  lemma {:induction false} DecomposeFactors(a: Matrix, n: nat)
    requires Shaped(a, n, n)
    ensures Decompose(a, n).Err? ==> Decompose(a, n).error == Singular
    ensures Decompose(a, n).Ok? ==> var d := Decompose(a, n).value;
      && IsPermutation(d.pi, n)
      && ExactlyLowerTriangular(d.l, n) && (forall i: nat :: i < n ==> At(d.l, i, i) == 1.0)
      && ExactlyUpperTriangular(d.u, n) && (forall i: nat :: i < n ==> Abs(At(d.u, i, i)) > EPSILON)
      && Product(d.l, d.u, n, n, n) == Permuted(a, d.pi, n, n)
  {
    if Decompose(a, n).Ok? {
      InitialInvariant(a, n);
      DecomposeFromKeepsInvariant(a, Initial(a, n), n, 0);
      InvariantFactors(a, Decompose(a, n).value, n);
    }
  }

  // ---------------------------------------------------------------------------
  // Solving with the decomposition

  /** Permuting the rows of `a` permutes the rows of `a * x` the same way. */
  lemma {:induction false} PermutedProduct(a: Matrix, x: Matrix, pi: seq<nat>, n: nat, m: nat)
    requires Shaped(a, n, n) && Shaped(x, n, m) && |pi| == n && forall i :: 0 <= i < n ==> pi[i] < n
    ensures Product(Permuted(a, pi, n, n), x, n, n, m) == Permuted(Product(a, x, n, n, m), pi, n, m)
  {
    var pa := Permuted(a, pi, n, n);
    forall i: nat, j: nat | i < n && j < m
      ensures At(Product(pa, x, n, n, m), i, j) == At(Permuted(Product(a, x, n, n, m), pi, n, m), i, j)
    {
      assert Row(pa, i) == Row(a, pi[i]);
    }
    Ext(Product(pa, x, n, n, m), Permuted(Product(a, x, n, n, m), pi, n, m), n, m);
  }

  /** A permutation of the rows loses nothing: two matrices whose rows permuted by `pi` agree
      are equal. */
  lemma {:induction false} PermutedInjective(y: Matrix, b: Matrix, pi: seq<nat>, n: nat, m: nat)
    requires Shaped(y, n, m) && Shaped(b, n, m) && IsPermutation(pi, n)
    requires Permuted(y, pi, n, m) == Permuted(b, pi, n, m)
    ensures y == b
  {
    forall t: nat, j: nat | t < n && j < m
      ensures At(y, t, j) == At(b, t, j)
    {
      assert t in pi;
      var q :| 0 <= q < |pi| && pi[q] == t;
      assert At(Permuted(y, pi, n, m), q, j) == At(Permuted(b, pi, n, m), q, j);
    }
    Ext(y, b, n, m);
  }

  /** `solve_by_lu_decomposition`: with PA = LU, solve Ly = Pb by forward substitution and then
      Ux = y by back substitution. A matrix without a pivot in some column is `Singular`;
      otherwise x solves the system. */
  method SolveByLuDecomposition(a: Matrix, b: Matrix, n: nat) returns (r: Result<Matrix, SolveError>)
    requires Shaped(a, n, n) && Shaped(b, n, 1)
    ensures r.Err? <==> Decompose(a, n).Err?
    ensures r.Err? ==> r.error == Singular
    ensures r.Ok? ==> Shaped(r.value, n, 1) && Product(a, r.value, n, n, 1) == b
  {
    var decomposition := LuDecomposition(a, n);
    if decomposition.Err? {
      return Err(decomposition.error);
    }
    var d := decomposition.value;
    var pb := Permuted(b, d.pi, n, 1);
    var y := ForwardSubstitution(d.l, pb, n);
    if y.Err? {
      assert false;
    }
    var x := BackSubstitution(d.u, y.value, n);
    if x.Err? {
      assert false;
    }
    ProductAssociative(d.l, d.u, x.value, n, n, n, 1);
    PermutedProduct(a, x.value, d.pi, n, 1);
    PermutedInjective(Product(a, x.value, n, n, 1), b, d.pi, n, 1);
    return Ok(x.value);
  }

  // ---------------------------------------------------------------------------
  // The 3×3 example of the unit test

  /** With no column left the loop returns its state. */
  lemma {:induction false} DecomposeFromEnd(d: LUDecomposition, n: nat)
    requires Fits(d, n)
    ensures DecomposeFrom(d, n, n) == Ok(d)
  {
  }

  /** The matrix of the unit test. */
  function ExampleInput(): (r: Matrix)
    ensures Shaped(r, 3, 3)
  {
    FromRows([[2.0, 1.0, -1.0], [-3.0, -1.0, 2.0], [-2.0, 1.0, 2.0]], 3, 3)
  }

  /** The state after column 0. */
  function ExampleAfterFirst(): (r: LUDecomposition)
    ensures Fits(r, 3)
  {
    LUDecomposition(FromRows([[1.0, 1.0, 0.0], [-2.0 / 3.0, 0.0, 0.0], [2.0 / 3.0, 0.0, 1.0]], 3, 3),
                    FromRows([[-3.0, -1.0, 2.0], [0.0, 1.0 / 3.0, 1.0 / 3.0], [0.0, 5.0 / 3.0, 2.0 / 3.0]], 3, 3),
                    [1, 0, 2])
  }

  /** The state after column 1. */
  function ExampleAfterSecond(): (r: LUDecomposition)
    ensures Fits(r, 3)
  {
    LUDecomposition(FromRows([[1.0, 0.0, 0.0], [2.0 / 3.0, 1.0, 1.0], [-2.0 / 3.0, 1.0 / 5.0, 0.0]], 3, 3),
                    FromRows([[-3.0, -1.0, 2.0], [0.0, 5.0 / 3.0, 2.0 / 3.0], [0.0, 0.0, 1.0 / 5.0]], 3, 3),
                    [1, 2, 0])
  }

  /** The factors the unit test expects. */
  function ExampleFactors(): (r: LUDecomposition)
    ensures Fits(r, 3)
  {
    LUDecomposition(FromRows([[1.0, 0.0, 0.0], [2.0 / 3.0, 1.0, 0.0], [-2.0 / 3.0, 1.0 / 5.0, 1.0]], 3, 3),
                    FromRows([[-3.0, -1.0, 2.0], [0.0, 5.0 / 3.0, 2.0 / 3.0], [0.0, 0.0, 1.0 / 5.0]], 3, 3),
                    [1, 2, 0])
  }

  /** Column 0: row 1 holds the largest entry, so rows 0 and 1 of `u` are exchanged. */
  lemma {:induction false} LuExampleFirstPivot()
    ensures Pivot(ExampleInput(), 3, 3, 0) == Some(1)
    ensures Exchanged(ExampleInput(), 3, 3, 0, 1) == FromRows([[-3.0, -1.0, 2.0], [2.0, 1.0, -1.0], [-2.0, 1.0, 2.0]], 3, 3)
  {
    ExchangedAt(ExampleInput(), 3, 3, 0, 1);
    Ext(Exchanged(ExampleInput(), 3, 3, 0, 1), FromRows([[-3.0, -1.0, 2.0], [2.0, 1.0, -1.0], [-2.0, 1.0, 2.0]], 3, 3), 3, 3);
  }

  /** The exchange of column 0 in all three parts of the state. */
  lemma {:induction false} LuExampleFirstExchange()
    ensures Pivot(ExampleInput(), 3, 3, 0) == Some(1)
    ensures Exchange(Initial(ExampleInput(), 3), 3, 0, 1)
      == LUDecomposition(FromRows([[0.0, 1.0, 0.0], [1.0, 0.0, 0.0], [0.0, 0.0, 1.0]], 3, 3),
                         FromRows([[-3.0, -1.0, 2.0], [2.0, 1.0, -1.0], [-2.0, 1.0, 2.0]], 3, 3),
                         [1, 0, 2])
  {
    LuExampleFirstPivot();
    ExchangedAt(Identity(3), 3, 3, 0, 1);
    Ext(Exchanged(Identity(3), 3, 3, 0, 1), FromRows([[0.0, 1.0, 0.0], [1.0, 0.0, 0.0], [0.0, 0.0, 1.0]], 3, 3), 3, 3);
  }

  /** Column 0 after the exchange: rows 1 and 2 lose -2/3 and 2/3 times row 0. */
  lemma {:induction false} LuExampleFirstReduction()
    ensures RecordColumn(FromRows([[0.0, 1.0, 0.0], [1.0, 0.0, 0.0], [0.0, 0.0, 1.0]], 3, 3),
                         FromRows([[-3.0, -1.0, 2.0], [2.0, 1.0, -1.0], [-2.0, 1.0, 2.0]], 3, 3), 3, 0)
      == ExampleAfterFirst().l
    ensures EliminationStep(FromRows([[-3.0, -1.0, 2.0], [2.0, 1.0, -1.0], [-2.0, 1.0, 2.0]], 3, 3), 3, 3, 0)
      == ExampleAfterFirst().u
  {
    var l := FromRows([[0.0, 1.0, 0.0], [1.0, 0.0, 0.0], [0.0, 0.0, 1.0]], 3, 3);
    var u := FromRows([[-3.0, -1.0, 2.0], [2.0, 1.0, -1.0], [-2.0, 1.0, 2.0]], 3, 3);
    Ext(RecordColumn(l, u, 3, 0), ExampleAfterFirst().l, 3, 3);
    Ext(EliminationStep(u, 3, 3, 0), ExampleAfterFirst().u, 3, 3);
  }

  /** Column 1: row 2 holds the larger remaining entry, so rows 1 and 2 are exchanged. */
  lemma {:induction false} LuExampleSecondExchange()
    ensures Pivot(ExampleAfterFirst().u, 3, 3, 1) == Some(2)
    ensures Exchange(ExampleAfterFirst(), 3, 1, 2)
      == LUDecomposition(FromRows([[1.0, 1.0, 0.0], [2.0 / 3.0, 0.0, 1.0], [-2.0 / 3.0, 0.0, 0.0]], 3, 3),
                         FromRows([[-3.0, -1.0, 2.0], [0.0, 5.0 / 3.0, 2.0 / 3.0], [0.0, 1.0 / 3.0, 1.0 / 3.0]], 3, 3),
                         [1, 2, 0])
  {
    var d := ExampleAfterFirst();
    var e := Exchange(d, 3, 1, 2);
    ExchangedAt(d.l, 3, 3, 1, 2);
    ExchangedAt(d.u, 3, 3, 1, 2);
    Ext(e.l, FromRows([[1.0, 1.0, 0.0], [2.0 / 3.0, 0.0, 1.0], [-2.0 / 3.0, 0.0, 0.0]], 3, 3), 3, 3);
    Ext(e.u, FromRows([[-3.0, -1.0, 2.0], [0.0, 5.0 / 3.0, 2.0 / 3.0], [0.0, 1.0 / 3.0, 1.0 / 3.0]], 3, 3), 3, 3);
  }

  /** Column 1 after the exchange: row 2 loses 1/5 times row 1. */
  lemma {:induction false} LuExampleSecondReduction()
    ensures RecordColumn(FromRows([[1.0, 1.0, 0.0], [2.0 / 3.0, 0.0, 1.0], [-2.0 / 3.0, 0.0, 0.0]], 3, 3),
                         FromRows([[-3.0, -1.0, 2.0], [0.0, 5.0 / 3.0, 2.0 / 3.0], [0.0, 1.0 / 3.0, 1.0 / 3.0]], 3, 3), 3, 1)
      == ExampleAfterSecond().l
    ensures EliminationStep(FromRows([[-3.0, -1.0, 2.0], [0.0, 5.0 / 3.0, 2.0 / 3.0], [0.0, 1.0 / 3.0, 1.0 / 3.0]], 3, 3), 3, 3, 1)
      == ExampleAfterSecond().u
  {
    var l := FromRows([[1.0, 1.0, 0.0], [2.0 / 3.0, 0.0, 1.0], [-2.0 / 3.0, 0.0, 0.0]], 3, 3);
    var u := FromRows([[-3.0, -1.0, 2.0], [0.0, 5.0 / 3.0, 2.0 / 3.0], [0.0, 1.0 / 3.0, 1.0 / 3.0]], 3, 3);
    Ext(RecordColumn(l, u, 3, 1), ExampleAfterSecond().l, 3, 3);
    Ext(EliminationStep(u, 3, 3, 1), ExampleAfterSecond().u, 3, 3);
  }

  /** Column 2: the last pivot is row 2 itself; only column 2 of `l` is finished. */
  lemma {:induction false} LuExampleThirdStep()
    ensures Pivot(ExampleAfterSecond().u, 3, 3, 2) == Some(2)
    ensures Step(ExampleAfterSecond(), 3, 2, 2) == ExampleFactors()
  {
    var d := ExampleAfterSecond();
    assert Pivot(d.u, 3, 3, 2) == Some(2);
    assert Exchange(d, 3, 2, 2) == d;
    Ext(RecordColumn(d.l, d.u, 3, 2), ExampleFactors().l, 3, 3);
    Ext(EliminationStep(d.u, 3, 3, 2), d.u, 3, 3);
  }

  /** Step k is the reduction of the exchanged state. */
  lemma {:induction false} StepOfExchange(d: LUDecomposition, n: nat, k: nat, p: nat, e: LUDecomposition)
    requires Fits(d, n) && k < n && Pivot(d.u, n, n, k) == Some(p) && Exchange(d, n, k, p) == e
    ensures At(e.u, k, k) != 0.0
    ensures Step(d, n, k, p) == LUDecomposition(RecordColumn(e.l, e.u, n, k), EliminationStep(e.u, n, n, k), e.pi)
  {
    ExchangedAt(d.u, n, n, k, p);
  }

  /** A step with a pivot hands the loop on to the next column, in the state `s` it produces. */
  lemma {:induction false} DecomposeFromStepTo(d: LUDecomposition, n: nat, k: nat, p: nat, s: LUDecomposition)
    requires Fits(d, n) && k < n && Pivot(d.u, n, n, k) == Some(p) && Step(d, n, k, p) == s
    ensures DecomposeFrom(d, n, k) == DecomposeFrom(s, n, k + 1)
  {
  }

  /** From column 2 on, the loop finishes with the expected factors. */
  lemma {:induction false} LuExampleFromThird()
    ensures DecomposeFrom(ExampleAfterSecond(), 3, 2) == Ok(ExampleFactors())
  {
    LuExampleThirdStep();
    DecomposeFromStepTo(ExampleAfterSecond(), 3, 2, 2, ExampleFactors());
    DecomposeFromEnd(ExampleFactors(), 3);
  }

  /** From column 1 on, the loop finishes with the expected factors. */
  lemma {:induction false} LuExampleFromSecond()
    ensures DecomposeFrom(ExampleAfterFirst(), 3, 1) == Ok(ExampleFactors())
  {
    var s1 := ExampleAfterFirst();
    LuExampleSecondExchange();
    LuExampleSecondReduction();
    StepOfExchange(s1, 3, 1, 2, Exchange(s1, 3, 1, 2));
    DecomposeFromStepTo(s1, 3, 1, 2, ExampleAfterSecond());
    LuExampleFromThird();
  }

  /** The unit test's matrix decomposes, in exact arithmetic, into exactly the factors the
      test expects (it accepts them within EPSILON): P moves rows 1, 2, 0 of `a` to the top. */
  lemma {:induction false} LuExample()
    ensures Decompose(ExampleInput(), 3) == Ok(ExampleFactors())
  {
    var s0 := Initial(ExampleInput(), 3);
    LuExampleFirstExchange();
    LuExampleFirstReduction();
    StepOfExchange(s0, 3, 0, 1, Exchange(s0, 3, 0, 1));
    DecomposeFromStepTo(s0, 3, 0, 1, ExampleAfterFirst());
    LuExampleFromSecond();
  }
}
