/** The shared threshold and the triangular solvers of `chapter2/src/lib.rs`. */
module Solvers {
  import opened Outcomes
  import opened Matrices

  /** `EPSILON = 1e-10`: the zero threshold of the triangularity checks and of pivot selection. */
  const EPSILON: real := 0.0000000001

  /** The panics of the solvers, as values. */
  datatype SolveError =
    | NotLowerTriangular  // "Matrix is not lower triangular"
    | NotUpperTriangular  // "Matrix is not upper triangular"
    | Singular            // "Matrix is singular"

  function Abs(x: real): real {
    if x < 0.0 then -x else x
  }

  /** The check `forward_substitution` asserts: in every column j, the entries above the
      diagonal (the first j of the column) are smaller than EPSILON in magnitude. */
  predicate IsLowerTriangular(l: Matrix, n: nat)
    requires Shaped(l, n, n)
  {
    forall i, j :: 0 <= i < j < n ==> Abs(At(l, i, j)) < EPSILON
  }

  /** The check `back_substitution` asserts: in every column j, the entries below the
      diagonal are smaller than EPSILON in magnitude. */
  predicate IsUpperTriangular(u: Matrix, n: nat)
    requires Shaped(u, n, n)
  {
    forall i, j :: 0 <= j < i < n ==> Abs(At(u, i, j)) < EPSILON
  }

  /** The two checks mirror each other: l passes the lower triangular check exactly when its
      transpose passes the upper triangular one. */
  lemma {:induction false} TriangularChecksTranspose(l: Matrix, n: nat)
    requires Shaped(l, n, n)
    ensures IsLowerTriangular(l, n) <==> IsUpperTriangular(Transpose(l, n, n), n)
  {
    var t := Transpose(l, n, n);
    assert forall i, j :: 0 <= i < n && 0 <= j < n ==> At(t, j, i) == At(l, i, j);
  }

  /** Every entry above the diagonal is exactly zero. */
  predicate ExactlyLowerTriangular(l: Matrix, n: nat)
    requires Shaped(l, n, n)
  {
    forall i, j :: 0 <= i < j < n ==> At(l, i, j) == 0.0
  }

  /** Every entry below the diagonal is exactly zero. */
  predicate ExactlyUpperTriangular(u: Matrix, n: nat)
    requires Shaped(u, n, n)
  {
    forall i, j :: 0 <= j < i < n ==> At(u, i, j) == 0.0
  }

  /** Sum over lo <= q < hi of x[q] * y[q]: one more term at the top. */
  lemma {:induction false} InnerProductRangeSnoc(x: seq<real>, y: seq<real>, lo: nat, j: nat)
    requires |x| == |y| && lo <= j < |x|
    ensures InnerProduct(x[lo..j + 1], y[lo..j + 1]) == InnerProduct(x[lo..j], y[lo..j]) + x[j] * y[j]
  {
    InnerProductSnoc(x[lo..], y[lo..], j - lo);
    assert x[lo..][..j + 1 - lo] == x[lo..j + 1] && y[lo..][..j + 1 - lo] == y[lo..j + 1];
    assert x[lo..][..j - lo] == x[lo..j] && y[lo..][..j - lo] == y[lo..j];
  }

  /** The sum of a nonempty suffix is its first term plus the sum of the rest. */
  lemma {:induction false} InnerProductCons(x: seq<real>, y: seq<real>, i: nat)
    requires |x| == |y| && i < |x|
    ensures InnerProduct(x[i..], y[i..]) == x[i] * y[i] + InnerProduct(x[i + 1..], y[i + 1..])
  {
    InnerProductSplit(x[i..], y[i..], 1);
    assert x[i..][..1][..0] == [] && y[i..][..1][..0] == [];
    assert x[i..][1..] == x[i + 1..] && y[i..][1..] == y[i + 1..];
  }

  /** Equations p..n-1 of the forward system hold for the entries of `ys`, entries above the
      diagonal read as zero. */
  ghost predicate ForwardSolved(l: Matrix, b: Matrix, n: nat, ys: seq<real>, i: nat)
    requires Shaped(l, n, n) && Shaped(b, n, 1) && i <= n
  {
    |ys| == n && forall p :: 0 <= p < i ==> InnerProduct(Row(l, p)[..p + 1], ys[..p + 1]) == At(b, p, 0)
  }

  /** Equations i..n-1 of the backward system hold for the entries of `xs`, entries below the
      diagonal read as zero. */
  ghost predicate BackSolved(u: Matrix, b: Matrix, n: nat, xs: seq<real>, i: nat)
    requires Shaped(u, n, n) && Shaped(b, n, 1) && i <= n
  {
    |xs| == n && forall p :: i <= p < n ==> InnerProduct(Row(u, p)[p..], xs[p..]) == At(b, p, 0)
  }

  /** Setting entry i to (b_i - sum) / l(i, i) completes equation i and keeps the earlier ones. */
  lemma {:induction false} ForwardStep(l: Matrix, b: Matrix, n: nat, prev: seq<real>, i: nat, sum: real)
    requires Shaped(l, n, n) && Shaped(b, n, 1) && i < n && At(l, i, i) != 0.0
    requires ForwardSolved(l, b, n, prev, i)
    requires sum == InnerProduct(Row(l, i)[..i], prev[..i])
    ensures ForwardSolved(l, b, n, prev[i := (At(b, i, 0) - sum) / At(l, i, i)], i + 1)
  {
    var next := prev[i := (At(b, i, 0) - sum) / At(l, i, i)];
    assert next[..i] == prev[..i];
    forall p | 0 <= p < i
      ensures InnerProduct(Row(l, p)[..p + 1], next[..p + 1]) == At(b, p, 0)
    {
      assert next[..p + 1] == prev[..p + 1];
    }
    InnerProductSnoc(Row(l, i), next, i);
  }

  /** Setting entry i to (b_i - sum) / u(i, i) completes equation i and keeps the later ones. */
  lemma {:induction false} BackStep(u: Matrix, b: Matrix, n: nat, prev: seq<real>, i: nat, sum: real)
    requires Shaped(u, n, n) && Shaped(b, n, 1) && i < n && At(u, i, i) != 0.0
    requires BackSolved(u, b, n, prev, i + 1)
    requires sum == InnerProduct(Row(u, i)[i + 1..n], prev[i + 1..n])
    ensures BackSolved(u, b, n, prev[i := (At(b, i, 0) - sum) / At(u, i, i)], i)
  {
    assert prev[i + 1..n] == prev[i + 1..] && Row(u, i)[i + 1..n] == Row(u, i)[i + 1..];
    var next := prev[i := (At(b, i, 0) - sum) / At(u, i, i)];
    forall p | i < p < n
      ensures next[p..] == prev[p..]
    {
    }
    assert next[i + 1..] == prev[i + 1..];
    InnerProductCons(Row(u, i), next, i);
  }

  /** The inner loop of `forward_substitution`: the sum over j < i of l(i, j) * y_j. */
  method LowerRowSum(l: Matrix, n: nat, i: nat, y: MutableMatrix) returns (sum: real)
    requires Shaped(l, n, n) && i < n && y.Valid() && y.rows == n && y.cols == 1
    ensures sum == InnerProduct(Row(l, i)[..i], y.columns[0][..i])
  {
    sum := 0.0;
    for j := 0 to i
      invariant sum == InnerProduct(Row(l, i)[..j], y.columns[0][..j])
    {
      InnerProductSnoc(Row(l, i), y.columns[0], j);
      sum := sum + At(l, i, j) * y.Get(j, 0);
    }
  }

  /** The inner loop of `back_substitution`: the sum over i < j < n of u(i, j) * x_j. */
  method UpperRowSum(u: Matrix, n: nat, i: nat, x: MutableMatrix) returns (sum: real)
    requires Shaped(u, n, n) && i < n && x.Valid() && x.rows == n && x.cols == 1
    ensures sum == InnerProduct(Row(u, i)[i + 1..n], x.columns[0][i + 1..n])
  {
    sum := 0.0;
    for j := i + 1 to n
      invariant sum == InnerProduct(Row(u, i)[i + 1..j], x.columns[0][i + 1..j])
    {
      InnerProductRangeSnoc(Row(u, i), x.columns[0], i + 1, j);
      assert Row(u, i)[j] == At(u, i, j);
      sum := sum + At(u, i, j) * x.Get(j, 0);
    }
  }

  /** `forward_substitution`: fails unless the matrix passes the lower-triangularity check;
      otherwise y_i = (b_i - sum over j < i of l(i, j) * y_j) / l(i, i) for i ascending, so that
      every equation, read with the entries above the diagonal taken as zero, holds. */
  method ForwardSubstitution(l: Matrix, b: Matrix, n: nat) returns (r: Result<Matrix, SolveError>)
    requires Shaped(l, n, n) && Shaped(b, n, 1)
    requires forall i: nat :: i < n ==> At(l, i, i) != 0.0
    ensures r.Err? <==> !IsLowerTriangular(l, n)
    ensures r.Err? ==> r.error == NotLowerTriangular
    ensures r.Ok? ==> Shaped(r.value, n, 1)
    ensures r.Ok? ==> forall i :: 0 <= i < n ==>
      InnerProduct(Row(l, i)[..i + 1], r.value.columns[0][..i + 1]) == At(b, i, 0)
    ensures r.Ok? && ExactlyLowerTriangular(l, n) ==> Product(l, r.value, n, n, 1) == b
  {
    if !IsLowerTriangular(l, n) {
      return Err(NotLowerTriangular);
    }
    var y := new MutableMatrix(Zeroed(n, 1), n, 1);
    for i := 0 to n
      invariant y.Valid() && y.rows == n && y.cols == 1
      invariant ForwardSolved(l, b, n, y.columns[0], i)
      invariant forall p: nat :: i <= p < n ==> y.Get(p, 0) == 0.0
    {
      ghost var prev := y.columns[0];
      var sum := LowerRowSum(l, n, i, y);
      ForwardStep(l, b, n, prev, i, sum);
      y.Set(i, 0, (At(b, i, 0) - sum) / At(l, i, i));
    }
    r := Ok(y.Value());
    if ExactlyLowerTriangular(l, n) {
      LowerEquationsGiveProduct(l, y.Value(), b, n);
    }
  }

  /** `back_substitution`: fails unless the matrix passes the upper-triangularity check;
      otherwise x_i = (b_i - sum over j > i of u(i, j) * x_j) / u(i, i) for i descending, so that
      every equation, read with the entries below the diagonal taken as zero, holds. */
  method BackSubstitution(u: Matrix, b: Matrix, n: nat) returns (r: Result<Matrix, SolveError>)
    requires Shaped(u, n, n) && Shaped(b, n, 1)
    requires forall i: nat :: i < n ==> At(u, i, i) != 0.0
    ensures r.Err? <==> !IsUpperTriangular(u, n)
    ensures r.Err? ==> r.error == NotUpperTriangular
    ensures r.Ok? ==> Shaped(r.value, n, 1)
    ensures r.Ok? ==> forall i :: 0 <= i < n ==>
      InnerProduct(Row(u, i)[i..], r.value.columns[0][i..]) == At(b, i, 0)
    ensures r.Ok? && ExactlyUpperTriangular(u, n) ==> Product(u, r.value, n, n, 1) == b
  {
    if !IsUpperTriangular(u, n) {
      return Err(NotUpperTriangular);
    }
    var x := new MutableMatrix(Zeroed(n, 1), n, 1);
    for i := n downto 0
      invariant x.Valid() && x.rows == n && x.cols == 1
      invariant BackSolved(u, b, n, x.columns[0], i)
      invariant forall p: nat :: p < i ==> x.Get(p, 0) == 0.0
    {
      ghost var prev := x.columns[0];
      var sum := UpperRowSum(u, n, i, x);
      BackStep(u, b, n, prev, i, sum);
      x.Set(i, 0, (At(b, i, 0) - sum) / At(u, i, i));
    }
    r := Ok(x.Value());
    if ExactlyUpperTriangular(u, n) {
      UpperEquationsGiveProduct(u, x.Value(), b, n);
    }
  }

  /** With an exactly lower triangular matrix, the equations `ForwardSubstitution` guarantees
      are the whole product: l * y == b. */
  lemma {:induction false} LowerEquationsGiveProduct(l: Matrix, y: Matrix, b: Matrix, n: nat)
    requires Shaped(l, n, n) && Shaped(y, n, 1) && Shaped(b, n, 1)
    requires ExactlyLowerTriangular(l, n)
    requires forall i :: 0 <= i < n ==>
      InnerProduct(Row(l, i)[..i + 1], y.columns[0][..i + 1]) == At(b, i, 0)
    ensures Product(l, y, n, n, 1) == b
  {
    var p := Product(l, y, n, n, 1);
    forall i: nat | i < n
      ensures At(p, i, 0) == At(b, i, 0)
    {
      InnerProductSplit(Row(l, i), y.columns[0], i + 1);
      InnerProductZero(Row(l, i)[i + 1..], y.columns[0][i + 1..]);
    }
    Ext(p, b, n, 1);
  }

  /** With an exactly upper triangular matrix, the equations `BackSubstitution` guarantees
      are the whole product: u * x == b. */
  lemma {:induction false} UpperEquationsGiveProduct(u: Matrix, x: Matrix, b: Matrix, n: nat)
    requires Shaped(u, n, n) && Shaped(x, n, 1) && Shaped(b, n, 1)
    requires ExactlyUpperTriangular(u, n)
    requires forall i :: 0 <= i < n ==>
      InnerProduct(Row(u, i)[i..], x.columns[0][i..]) == At(b, i, 0)
    ensures Product(u, x, n, n, 1) == b
  {
    var p := Product(u, x, n, n, 1);
    forall i: nat | i < n
      ensures At(p, i, 0) == At(b, i, 0)
    {
      InnerProductSplit(Row(u, i), x.columns[0], i);
      InnerProductZero(Row(u, i)[..i], x.columns[0][..i]);
    }
    Ext(p, b, n, 1);
  }
}
