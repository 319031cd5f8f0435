/** The dense N×M matrix of `chapter2/src/matrix.rs`, with exact reals in place of `f64`.
    The source fixes N and M in the type; here they are passed alongside the value and
    `Shaped(a, n, m)` says that the value has that shape. */
module Matrices {
  import opened Outcomes

  /** A matrix stored column by column: `columns[j][i]` is the entry in row i, column j.
      A vector of length N is a matrix with a single column. */
  datatype Matrix = Matrix(columns: seq<seq<real>>)

  /** Why a checked conversion was refused. */
  datatype ConversionError =
    | RowsMismatch    // a slice of rows whose count or row lengths differ from N×M
    | LengthMismatch  // a slice whose length differs from N

  /** `a` has exactly `n` rows and `m` columns. */
  predicate Shaped(a: Matrix, n: nat, m: nat) {
    |a.columns| == m && forall j :: 0 <= j < m ==> |a.columns[j]| == n
  }

  /** Every column of `a` has an entry in row `i`. */
  predicate HasRow(a: Matrix, i: nat) {
    forall j :: 0 <= j < |a.columns| ==> i < |a.columns[j]|
  }

  /** Indexing `a[(i, j)]`: row i, column j, read from column j. */
  function At(a: Matrix, i: nat, j: nat): real
    requires j < |a.columns| && i < |a.columns[j]|
  {
    a.columns[j][i]
  }

  /** Row i, read across all columns. */
  function Row(a: Matrix, i: nat): (r: seq<real>)
    requires HasRow(a, i)
    ensures |r| == |a.columns|
    ensures forall j {:trigger r[j]} :: 0 <= j < |r| ==> r[j] == At(a, i, j)
  {
    seq(|a.columns|, j requires 0 <= j < |a.columns| => a.columns[j][i])
  }

  /** x[0]*y[0] + x[1]*y[1] + ..., accumulated from the front as an iterator's `sum` does. */
  function InnerProduct(x: seq<real>, y: seq<real>): real
    requires |x| == |y|
  {
    if |x| == 0 then 0.0
    else InnerProduct(x[..|x| - 1], y[..|y| - 1]) + x[|x| - 1] * y[|y| - 1]
  }

  // ---------------------------------------------------------------------------
  // Constructors

  /** `from_fn`: the n×m matrix whose entry (i, j) is `f(i, j)`, built column by column. */
  function FromFn(n: nat, m: nat, f: (nat, nat) --> real): (r: Matrix)
    requires forall i: nat, j: nat :: i < n && j < m ==> f.requires(i, j)
    ensures Shaped(r, n, m)
    ensures forall j :: 0 <= j < m ==> |r.columns[j]| == n
    ensures forall i: nat, j: nat {:trigger At(r, i, j)} :: i < n && j < m ==> At(r, i, j) == f(i, j)
  {
    Matrix(seq(m, j requires 0 <= j < m => seq(n, i requires 0 <= i < n => f(i, j))))
  }

  /** `filled_with`: every entry is `v`. */
  function FilledWith(n: nat, m: nat, v: real): (r: Matrix)
    ensures Shaped(r, n, m)
    ensures forall i: nat, j: nat {:trigger At(r, i, j)} :: i < n && j < m ==> At(r, i, j) == v
  {
    Matrix(seq(m, _ => seq(n, _ => v)))
  }

  /** `zeroed`: every entry is 0. */
  function Zeroed(n: nat, m: nat): (r: Matrix)
    ensures Shaped(r, n, m)
    ensures forall i: nat, j: nat {:trigger At(r, i, j)} :: i < n && j < m ==> At(r, i, j) == 0.0
  {
    FilledWith(n, m, 0.0)
  }

  /** `identity`: 1 on the diagonal, 0 elsewhere. */
  function Identity(n: nat): (r: Matrix)
    ensures Shaped(r, n, n)
    ensures forall i: nat, j: nat {:trigger At(r, i, j)} :: i < n && j < n ==> At(r, i, j) == if i == j then 1.0 else 0.0
  {
    FromFn(n, n, (i: nat, j: nat) => if i == j then 1.0 else 0.0)
  }

  /** The slice of rows has `n` rows, each of length `m`. */
  predicate IsRectangle(rows: seq<seq<real>>, n: nat, m: nat) {
    |rows| == n && forall i :: 0 <= i < |rows| ==> |rows[i]| == m
  }

  /** `From<[[f64; M]; N]>`: entry (i, j) is `rows[i][j]`; the array type fixes the shape. */
  function FromRows(rows: seq<seq<real>>, n: nat, m: nat): (r: Matrix)
    requires IsRectangle(rows, n, m)
    ensures Shaped(r, n, m)
    ensures forall i: nat, j: nat {:trigger At(r, i, j)} :: i < n && j < m ==> At(r, i, j) == rows[i][j]
  {
    FromFn(n, m, (i: nat, j: nat) requires i < n && j < m => rows[i][j])
  }

  /** The rows of `a`, top to bottom (the inverse of `FromRows`). */
  function ToRows(a: Matrix, n: nat, m: nat): (rows: seq<seq<real>>)
    requires Shaped(a, n, m)
    ensures IsRectangle(rows, n, m)
    ensures forall i {:trigger rows[i]} :: 0 <= i < n ==> rows[i] == Row(a, i)
  {
    seq(n, i requires 0 <= i < n => Row(a, i))
  }

  /** `TryFrom<&[&[f64]]>`: succeeds exactly when there are `n` rows of length `m`. */
  function TryFromRows(rows: seq<seq<real>>, n: nat, m: nat): (r: Result<Matrix, ConversionError>)
    ensures r.Ok? <==> IsRectangle(rows, n, m)
    ensures r.Ok? ==> Shaped(r.value, n, m)
    ensures r.Ok? ==> forall i: nat, j: nat :: i < n && j < m ==> At(r.value, i, j) == rows[i][j]
    ensures r.Err? ==> r.error == RowsMismatch
  {
    if |rows| == n && forall i :: 0 <= i < |rows| ==> |rows[i]| == m then Ok(FromRows(rows, n, m))
    else Err(RowsMismatch)
  }

  /** `TryFrom<&[f64]>` for a vector: succeeds exactly when the slice has length `n`. */
  function TryFromSlice(s: seq<real>, n: nat): (r: Result<Matrix, ConversionError>)
    ensures r.Ok? <==> |s| == n
    ensures r.Ok? ==> Shaped(r.value, n, 1) && forall i :: 0 <= i < n ==> At(r.value, i, 0) == s[i]
    ensures r.Err? ==> r.error == LengthMismatch
  {
    if |s| == n then Ok(Matrix([s])) else Err(LengthMismatch)
  }

  // ---------------------------------------------------------------------------
  // Shape operations

  /** `transpose`: entry (i, j) of the result is entry (j, i) of `a`. */
  function Transpose(a: Matrix, n: nat, m: nat): (r: Matrix)
    requires Shaped(a, n, m)
    ensures Shaped(r, m, n)
    ensures forall i: nat, j: nat {:trigger At(r, i, j)} :: i < m && j < n ==> At(r, i, j) == At(a, j, i)
  {
    FromFn(m, n, (i: nat, j: nat) requires i < m && j < n => At(a, j, i))
  }

  /** `concat`: `a` (n×m) followed on the right by `b` (n×l). */
  function Concat(a: Matrix, b: Matrix, n: nat, m: nat, l: nat): (r: Matrix)
    requires Shaped(a, n, m) && Shaped(b, n, l)
    ensures Shaped(r, n, m + l)
    ensures forall i: nat, j: nat {:trigger At(r, i, j)} :: i < n && j < m ==> At(r, i, j) == At(a, i, j)
    ensures forall i: nat, j: nat {:trigger At(r, i, j)} :: i < n && m <= j < m + l ==> At(r, i, j) == At(b, i, j - m)
  {
    FromFn(n, m + l, (i: nat, j: nat) requires i < n && j < m + l =>
      if j < m then At(a, i, j) else At(b, i, j - m))
  }

  /** The columns lo..lo+w-1 of `a` as an n×w matrix (how the Gaussian solver splits its
      augmented matrix back into the coefficients and the right-hand side). */
  function ColumnRange(a: Matrix, n: nat, m: nat, lo: nat, w: nat): (r: Matrix)
    requires Shaped(a, n, m) && lo + w <= m
    ensures Shaped(r, n, w)
    ensures forall i: nat, j: nat {:trigger At(r, i, j)} :: i < n && j < w ==> At(r, i, j) == At(a, i, lo + j)
  {
    FromFn(n, w, (i: nat, j: nat) requires i < n && j < w => At(a, i, lo + j))
  }

  /** The value `swap_rows(i, k)` leaves behind: rows i and k exchanged in every column. */
  function SwappedRows(a: Matrix, n: nat, m: nat, i: nat, k: nat): (r: Matrix)
    requires Shaped(a, n, m) && i < n && k < n
    ensures Shaped(r, n, m)
    ensures forall j: nat {:trigger At(r, i, j)} :: j < m ==> At(r, i, j) == At(a, k, j)
    ensures forall j: nat {:trigger At(r, k, j)} :: j < m ==> At(r, k, j) == At(a, i, j)
    ensures forall p: nat, j: nat {:trigger At(r, p, j)} :: p < n && j < m && p != i && p != k ==> At(r, p, j) == At(a, p, j)
  {
    FromFn(n, m, (p: nat, j: nat) requires p < n && j < m =>
      At(a, if p == i then k else if p == k then i else p, j))
  }

  // ---------------------------------------------------------------------------
  // Arithmetic

  /** `&a + &b`, entry by entry. */
  function Add(a: Matrix, b: Matrix, n: nat, m: nat): (r: Matrix)
    requires Shaped(a, n, m) && Shaped(b, n, m)
    ensures Shaped(r, n, m)
    ensures forall i: nat, j: nat {:trigger At(r, i, j)} :: i < n && j < m ==> At(r, i, j) == At(a, i, j) + At(b, i, j)
  {
    FromFn(n, m, (i: nat, j: nat) requires i < n && j < m => At(a, i, j) + At(b, i, j))
  }

  /** `&a - &b`, entry by entry. */
  function Sub(a: Matrix, b: Matrix, n: nat, m: nat): (r: Matrix)
    requires Shaped(a, n, m) && Shaped(b, n, m)
    ensures Shaped(r, n, m)
    ensures forall i: nat, j: nat {:trigger At(r, i, j)} :: i < n && j < m ==> At(r, i, j) == At(a, i, j) - At(b, i, j)
  {
    FromFn(n, m, (i: nat, j: nat) requires i < n && j < m => At(a, i, j) - At(b, i, j))
  }

  /** `&a * s` (and `s * &a`): every entry times the scalar. */
  function Scale(a: Matrix, n: nat, m: nat, s: real): (r: Matrix)
    requires Shaped(a, n, m)
    ensures Shaped(r, n, m)
    ensures forall i: nat, j: nat {:trigger At(r, i, j)} :: i < n && j < m ==> At(r, i, j) == At(a, i, j) * s
  {
    FromFn(n, m, (i: nat, j: nat) requires i < n && j < m => At(a, i, j) * s)
  }

  /** `&a / s`: every entry divided by the scalar. */
  function Div(a: Matrix, n: nat, m: nat, s: real): (r: Matrix)
    requires Shaped(a, n, m) && s != 0.0
    ensures Shaped(r, n, m)
    ensures forall i: nat, j: nat {:trigger At(r, i, j)} :: i < n && j < m ==> At(r, i, j) == At(a, i, j) / s
  {
    FromFn(n, m, (i: nat, j: nat) requires i < n && j < m => At(a, i, j) / s)
  }

  /** `&a * &b` for an n×m `a` and an m×l `b`: entry (i, j) is the sum over k of a(i, k) * b(k, j). */
  function Product(a: Matrix, b: Matrix, n: nat, m: nat, l: nat): (r: Matrix)
    requires Shaped(a, n, m) && Shaped(b, m, l)
    ensures Shaped(r, n, l)
    ensures forall i: nat, j: nat {:trigger At(r, i, j)} :: i < n && j < l ==> At(r, i, j) == InnerProduct(Row(a, i), b.columns[j])
  {
    FromFn(n, l, (i: nat, j: nat) requires i < n && j < l => InnerProduct(Row(a, i), b.columns[j]))
  }

  /** `dot`: the single entry of `aᵀ * b`, which is the sum of a_i * b_i. */
  function Dot(a: Matrix, b: Matrix, n: nat): (r: real)
    requires Shaped(a, n, 1) && Shaped(b, n, 1)
    ensures r == InnerProduct(a.columns[0], b.columns[0])
  {
    var t := Transpose(a, n, 1);
    assert Row(t, 0) == a.columns[0];
    At(Product(t, b, 1, n, 1), 0, 0)
  }

  // ---------------------------------------------------------------------------
  // Sums

  /** One more term added to a prefix of the sum. */
  lemma {:induction false} InnerProductSnoc(x: seq<real>, y: seq<real>, k: nat)
    requires |x| == |y| && k < |x|
    ensures InnerProduct(x[..k + 1], y[..k + 1]) == InnerProduct(x[..k], y[..k]) + x[k] * y[k]
  {
    assert x[..k + 1][..k] == x[..k];
    assert y[..k + 1][..k] == y[..k];
  }

  /** A sum whose every term vanishes is zero. */
  lemma {:induction false} InnerProductZero(x: seq<real>, y: seq<real>)
    requires |x| == |y|
    requires forall q :: 0 <= q < |x| ==> x[q] * y[q] == 0.0
    ensures InnerProduct(x, y) == 0.0
  {
    if |x| > 0 {
      InnerProductZero(x[..|x| - 1], y[..|y| - 1]);
    }
  }

  /** A sum in which only term k can be nonzero is that term. */
  lemma {:induction false} InnerProductPicks(x: seq<real>, y: seq<real>, k: nat)
    requires |x| == |y| && k < |x|
    requires forall q :: 0 <= q < |x| && q != k ==> x[q] * y[q] == 0.0
    ensures InnerProduct(x, y) == x[k] * y[k]
  {
    var n := |x|;
    if k == n - 1 {
      InnerProductZero(x[..n - 1], y[..n - 1]);
    } else {
      InnerProductPicks(x[..n - 1], y[..n - 1], k);
    }
  }

  /** The sum splits at any index into the sum of the front and the sum of the back. */
  lemma {:induction false} InnerProductSplit(x: seq<real>, y: seq<real>, k: nat)
    requires |x| == |y| && k <= |x|
    ensures InnerProduct(x, y) == InnerProduct(x[..k], y[..k]) + InnerProduct(x[k..], y[k..])
  {
    var n := |x|;
    if k == n {
      assert x[..k] == x && y[..k] == y;
    } else {
      var x', y' := x[..n - 1], y[..n - 1];
      InnerProductSplit(x', y', k);
      assert x'[..k] == x[..k] && y'[..k] == y[..k];
      assert x[k..][..n - 1 - k] == x'[k..] && y[k..][..n - 1 - k] == y'[k..];
    }
  }

  /** The sum is linear in its first argument: a combination v - f * w of two sequences sums to
      the same combination of their sums. */
  lemma {:induction false} InnerProductLinear(u: seq<real>, v: seq<real>, w: seq<real>, x: seq<real>, f: real)
    requires |u| == |v| == |w| == |x|
    requires forall j :: 0 <= j < |u| ==> u[j] == v[j] - f * w[j]
    ensures InnerProduct(u, x) == InnerProduct(v, x) - f * InnerProduct(w, x)
  {
    if |u| > 0 {
      var n := |u| - 1;
      InnerProductLinear(u[..n], v[..n], w[..n], x[..n], f);
      assert u[n] * x[n] == v[n] * x[n] - f * (w[n] * x[n]);
    }
  }

  /** The sum is linear in its second argument as well: pairing x with v + f * w gives the sum
      with v plus f times the sum with w. */
  lemma {:induction false} InnerProductLinearRight(x: seq<real>, u: seq<real>, v: seq<real>, w: seq<real>, f: real)
    requires |x| == |u| == |v| == |w|
    requires forall j :: 0 <= j < |u| ==> u[j] == v[j] + f * w[j]
    ensures InnerProduct(x, u) == InnerProduct(x, v) + f * InnerProduct(x, w)
  {
    if |u| > 0 {
      var n := |u| - 1;
      InnerProductLinearRight(x[..n], u[..n], v[..n], w[..n], f);
      assert x[n] * u[n] == x[n] * v[n] + f * (x[n] * w[n]);
    }
  }

  /** b * x for an n×m matrix b and a sequence x of length m, as a sequence of length n. */
  function Apply(b: Matrix, x: seq<real>, n: nat, m: nat): (r: seq<real>)
    requires Shaped(b, n, m) && |x| == m
    ensures |r| == n
    ensures forall p {:trigger r[p]} :: 0 <= p < n ==> r[p] == InnerProduct(Row(b, p), x)
  {
    seq(n, p requires 0 <= p < n => InnerProduct(Row(b, p), x))
  }

  /** `a * x` for a vector x: the one column of the product of b with the one-column matrix
      holding x is `Apply(b, x)`. */
  lemma {:induction false} ApplyIsProduct(b: Matrix, x: seq<real>, n: nat, m: nat)
    requires Shaped(b, n, m) && |x| == m
    ensures Product(b, Matrix([x]), n, m, 1).columns[0] == Apply(b, x, n, m)
  {
  }

  /** w * b for a sequence w of length n and an n×m matrix b, as a sequence of length m. */
  function Combine(w: seq<real>, b: Matrix, n: nat, m: nat): (r: seq<real>)
    requires Shaped(b, n, m) && |w| == n
    ensures |r| == m
    ensures forall j {:trigger r[j]} :: 0 <= j < m ==> r[j] == InnerProduct(w, b.columns[j])
  {
    seq(m, j requires 0 <= j < m => InnerProduct(w, b.columns[j]))
  }

  /** Dropping the last column of b and the last entry of x takes that column's share out of
      entry p of b * x. */
  lemma {:induction false} RowDropsColumn(b: Matrix, x: seq<real>, n: nat, m: nat, p: nat)
    requires Shaped(b, n, m) && |x| == m && 0 < m && p < n
    ensures InnerProduct(Row(b, p), x)
      == InnerProduct(Row(Matrix(b.columns[..m - 1]), p), x[..m - 1]) + x[m - 1] * b.columns[m - 1][p]
  {
    var row := Row(b, p);
    assert row[..m - 1] == Row(Matrix(b.columns[..m - 1]), p);
  }

  /** ... and so out of w * (b * x). */
  lemma {:induction false} ApplyDropsColumn(w: seq<real>, b: Matrix, x: seq<real>, n: nat, m: nat)
    requires Shaped(b, n, m) && |w| == n && |x| == m && 0 < m
    ensures InnerProduct(w, Apply(b, x, n, m))
      == InnerProduct(w, Apply(Matrix(b.columns[..m - 1]), x[..m - 1], n, m - 1)) + x[m - 1] * InnerProduct(w, b.columns[m - 1])
  {
    var v, v' := Apply(b, x, n, m), Apply(Matrix(b.columns[..m - 1]), x[..m - 1], n, m - 1);
    forall p | 0 <= p < n
      ensures v[p] == v'[p] + x[m - 1] * b.columns[m - 1][p]
    {
      RowDropsColumn(b, x, n, m, p);
    }
    InnerProductLinearRight(w, v, v', b.columns[m - 1], x[m - 1]);
  }

  /** Dropping the last column of b drops the last entry of w * b, which is w times that column. */
  lemma {:induction false} CombineDropsColumn(w: seq<real>, b: Matrix, x: seq<real>, n: nat, m: nat)
    requires Shaped(b, n, m) && |w| == n && |x| == m && 0 < m
    ensures InnerProduct(Combine(w, b, n, m), x)
      == InnerProduct(Combine(w, Matrix(b.columns[..m - 1]), n, m - 1), x[..m - 1]) + InnerProduct(w, b.columns[m - 1]) * x[m - 1]
  {
    var u := Combine(w, b, n, m);
    assert u[..m - 1] == Combine(w, Matrix(b.columns[..m - 1]), n, m - 1);
    assert InnerProduct(u, x) == InnerProduct(u[..m - 1], x[..m - 1]) + u[m - 1] * x[m - 1];
  }

  /** A double sum can be taken row first or column first: w * (b * x) == (w * b) * x. */
  lemma {:induction false} InnerProductRegroups(w: seq<real>, b: Matrix, x: seq<real>, n: nat, m: nat)
    requires Shaped(b, n, m) && |w| == n && |x| == m
    ensures InnerProduct(w, Apply(b, x, n, m)) == InnerProduct(Combine(w, b, n, m), x)
    decreases m
  {
    if m == 0 {
      InnerProductZero(w, Apply(b, x, n, m));
    } else {
      ApplyDropsColumn(w, b, x, n, m);
      InnerProductRegroups(w, Matrix(b.columns[..m - 1]), x[..m - 1], n, m - 1);
      CombineDropsColumn(w, b, x, n, m);
    }
  }

  // ---------------------------------------------------------------------------
  // Properties of the operations

  /** Two matrices of the same shape that agree entry by entry are equal. */
  lemma {:induction false} Ext(a: Matrix, b: Matrix, n: nat, m: nat)
    requires Shaped(a, n, m) && Shaped(b, n, m)
    requires forall i: nat, j: nat :: i < n && j < m ==> At(a, i, j) == At(b, i, j)
    ensures a == b
  {
    forall j | 0 <= j < m
      ensures a.columns[j] == b.columns[j]
    {
      forall i | 0 <= i < n
        ensures a.columns[j][i] == b.columns[j][i]
      {
        assert At(a, i, j) == At(b, i, j);
      }
    }
  }

  /** Transposing twice gives back the original matrix. */
  lemma {:induction false} TransposeInvolutive(a: Matrix, n: nat, m: nat)
    requires Shaped(a, n, m)
    ensures Transpose(Transpose(a, n, m), m, n) == a
  {
    Ext(Transpose(Transpose(a, n, m), m, n), a, n, m);
  }

  /** The left m columns of `concat(a, b)` are `a` and the remaining l columns are `b`. */
  lemma {:induction false} ConcatSplits(a: Matrix, b: Matrix, n: nat, m: nat, l: nat)
    requires Shaped(a, n, m) && Shaped(b, n, l)
    ensures ColumnRange(Concat(a, b, n, m, l), n, m + l, 0, m) == a
    ensures ColumnRange(Concat(a, b, n, m, l), n, m + l, m, l) == b
  {
    var c := Concat(a, b, n, m, l);
    Ext(ColumnRange(c, n, m + l, 0, m), a, n, m);
    Ext(ColumnRange(c, n, m + l, m, l), b, n, l);
  }

  /** Swapping a row with itself changes nothing. */
  lemma {:induction false} SwapRowsSameIndex(a: Matrix, n: nat, m: nat, i: nat)
    requires Shaped(a, n, m) && i < n
    ensures SwappedRows(a, n, m, i, i) == a
  {
    Ext(SwappedRows(a, n, m, i, i), a, n, m);
  }

  /** Swapping the same two rows twice restores the matrix. */
  lemma {:induction false} SwapRowsInvolutive(a: Matrix, n: nat, m: nat, i: nat, k: nat)
    requires Shaped(a, n, m) && i < n && k < n
    ensures SwappedRows(SwappedRows(a, n, m, i, k), n, m, i, k) == a
  {
    Ext(SwappedRows(SwappedRows(a, n, m, i, k), n, m, i, k), a, n, m);
  }

  /** Subtracting what was added gives back the original matrix. */
  lemma {:induction false} SubUndoesAdd(a: Matrix, b: Matrix, n: nat, m: nat)
    requires Shaped(a, n, m) && Shaped(b, n, m)
    ensures Sub(Add(a, b, n, m), b, n, m) == a
  {
    Ext(Sub(Add(a, b, n, m), b, n, m), a, n, m);
  }

  /** Dividing by a nonzero scalar undoes multiplying by it. */
  lemma {:induction false} DivUndoesScale(a: Matrix, n: nat, m: nat, s: real)
    requires Shaped(a, n, m) && s != 0.0
    ensures Div(Scale(a, n, m, s), n, m, s) == a
  {
    Ext(Div(Scale(a, n, m, s), n, m, s), a, n, m);
  }

  /** Adding the zero matrix changes nothing. */
  lemma {:induction false} AddZeroed(a: Matrix, n: nat, m: nat)
    requires Shaped(a, n, m)
    ensures Add(a, Zeroed(n, m), n, m) == a
  {
    Ext(Add(a, Zeroed(n, m), n, m), a, n, m);
  }

  /** Multiplying by the identity on the left leaves a matrix unchanged. */
  lemma {:induction false} IdentityLeftNeutral(a: Matrix, n: nat, m: nat)
    requires Shaped(a, n, m)
    ensures Product(Identity(n), a, n, n, m) == a
  {
    var e := Identity(n);
    var p := Product(e, a, n, n, m);
    forall i: nat, j: nat | i < n && j < m
      ensures At(p, i, j) == At(a, i, j)
    {
      InnerProductPicks(Row(e, i), a.columns[j], i);
    }
    Ext(p, a, n, m);
  }

  /** Multiplying by the identity on the right leaves a matrix unchanged. */
  lemma {:induction false} IdentityRightNeutral(a: Matrix, n: nat, m: nat)
    requires Shaped(a, n, m)
    ensures Product(a, Identity(m), n, m, m) == a
  {
    var e := Identity(m);
    var p := Product(a, e, n, m, m);
    forall i: nat, j: nat | i < n && j < m
      ensures At(p, i, j) == At(a, i, j)
    {
      InnerProductPicks(Row(a, i), e.columns[j], j);
    }
    Ext(p, a, n, m);
  }

  /** The matrix product is associative: (a * b) * c == a * (b * c). */
  lemma {:induction false} ProductAssociative(a: Matrix, b: Matrix, c: Matrix, n: nat, m: nat, l: nat, q: nat)
    requires Shaped(a, n, m) && Shaped(b, m, l) && Shaped(c, l, q)
    ensures Product(Product(a, b, n, m, l), c, n, l, q) == Product(a, Product(b, c, m, l, q), n, m, q)
  {
    var ab, bc := Product(a, b, n, m, l), Product(b, c, m, l, q);
    var lhs, rhs := Product(ab, c, n, l, q), Product(a, bc, n, m, q);
    forall i: nat, j: nat | i < n && j < q
      ensures At(lhs, i, j) == At(rhs, i, j)
    {
      assert Row(ab, i) == Combine(Row(a, i), b, m, l);
      assert bc.columns[j] == Apply(b, c.columns[j], m, l);
      InnerProductRegroups(Row(a, i), b, c.columns[j], m, l);
    }
    Ext(lhs, rhs, n, q);
  }

  /** Reading a matrix out row by row and converting back gives the same matrix. */
  lemma {:induction false} TryFromRowsRoundTrip(a: Matrix, n: nat, m: nat)
    requires Shaped(a, n, m)
    ensures TryFromRows(ToRows(a, n, m), n, m) == Ok(a)
  {
    Ext(TryFromRows(ToRows(a, n, m), n, m).value, a, n, m);
  }

  /** A successful conversion keeps every row as it was given. */
  lemma {:induction false} TryFromRowsKeepsRows(rows: seq<seq<real>>, n: nat, m: nat)
    requires TryFromRows(rows, n, m).Ok?
    ensures ToRows(TryFromRows(rows, n, m).value, n, m) == rows
  {
    var a := TryFromRows(rows, n, m).value;
    forall i | 0 <= i < n
      ensures ToRows(a, n, m)[i] == rows[i]
    {
      assert Row(a, i) == rows[i];
    }
  }

  /** A vector's slice (`as_ref`) converts back to the same vector. */
  lemma {:induction false} TryFromSliceRoundTrip(v: Matrix, n: nat)
    requires Shaped(v, n, 1)
    ensures TryFromSlice(v.columns[0], n) == Ok(v)
  {
    assert v.columns == [v.columns[0]];
  }

  // ---------------------------------------------------------------------------
  // In-place operations

  /** A matrix behind a `&mut` borrow: `swap_rows`, `IndexMut` and the `*Assign`
      operators update its `columns` in place. */
  class MutableMatrix {
    const rows: nat
    const cols: nat
    var columns: seq<seq<real>>

    ghost predicate Valid()
      reads this
    {
      Shaped(Matrix(columns), rows, cols)
    }

    /** The matrix currently held. */
    function Value(): Matrix
      reads this
    {
      Matrix(columns)
    }

    /** A private working copy of `a` (the source's `clone`). */
    constructor (a: Matrix, n: nat, m: nat)
      requires Shaped(a, n, m)
      ensures Valid() && rows == n && cols == m && Value() == a
    {
      rows := n;
      cols := m;
      columns := a.columns;
    }

    /** `self[(i, j)]` through `Index`. */
    function Get(i: nat, j: nat): real
      reads this
      requires Valid() && i < rows && j < cols
    {
      At(Value(), i, j)
    }

    /** `self[(i, j)] = v` through `IndexMut`: that one entry changes. */
    method Set(i: nat, j: nat, v: real)
      requires Valid() && i < rows && j < cols
      modifies this
      ensures Valid()
      ensures columns == old(columns)[j := old(columns)[j][i := v]]
      ensures Get(i, j) == v
      ensures forall p: nat, q: nat :: p < rows && q < cols && (p != i || q != j) ==> Get(p, q) == old(Get(p, q))
    {
      columns := columns[j := columns[j][i := v]];
    }

    /** `swap_rows(i, k)`: rows i and k are exchanged in every column, one column at a time. */
    method SwapRows(i: nat, k: nat)
      requires Valid() && i < rows && k < rows
      modifies this
      ensures Valid()
      ensures Value() == SwappedRows(old(Value()), rows, cols, i, k)
    {
      ghost var before := Value();
      ghost var after := SwappedRows(before, rows, cols, i, k);
      for j := 0 to cols
        invariant Valid()
        invariant forall p: nat, q: nat :: p < rows && q < cols ==>
          Get(p, q) == if q < j then At(after, p, q) else At(before, p, q)
      {
        columns := columns[j := columns[j][i := columns[j][k]][k := columns[j][i]]];
      }
      Ext(Value(), after, rows, cols);
    }

    /** `*self += rhs`: the same matrix as `&self + rhs`, built entry by entry. */
    method AddAssign(rhs: Matrix)
      requires Valid() && Shaped(rhs, rows, cols)
      modifies this
      ensures Valid()
      ensures Value() == Add(old(Value()), rhs, rows, cols)
    {
      ghost var before := Value();
      for i := 0 to rows
        invariant Valid()
        invariant forall p: nat, q: nat :: p < rows && q < cols ==>
          Get(p, q) == if p < i then At(before, p, q) + At(rhs, p, q) else At(before, p, q)
      {
        for j := 0 to cols
          invariant Valid()
          invariant forall p: nat, q: nat :: p < rows && q < cols ==>
            Get(p, q) == if p < i || (p == i && q < j) then At(before, p, q) + At(rhs, p, q) else At(before, p, q)
        {
          Set(i, j, Get(i, j) + At(rhs, i, j));
        }
      }
      Ext(Value(), Add(before, rhs, rows, cols), rows, cols);
    }

    /** `*self -= rhs`: the same matrix as `&self - rhs`, built entry by entry. */
    method SubAssign(rhs: Matrix)
      requires Valid() && Shaped(rhs, rows, cols)
      modifies this
      ensures Valid()
      ensures Value() == Sub(old(Value()), rhs, rows, cols)
    {
      ghost var before := Value();
      for i := 0 to rows
        invariant Valid()
        invariant forall p: nat, q: nat :: p < rows && q < cols ==>
          Get(p, q) == if p < i then At(before, p, q) - At(rhs, p, q) else At(before, p, q)
      {
        for j := 0 to cols
          invariant Valid()
          invariant forall p: nat, q: nat :: p < rows && q < cols ==>
            Get(p, q) == if p < i || (p == i && q < j) then At(before, p, q) - At(rhs, p, q) else At(before, p, q)
        {
          Set(i, j, Get(i, j) - At(rhs, i, j));
        }
      }
      Ext(Value(), Sub(before, rhs, rows, cols), rows, cols);
    }

    /** `*self *= s`: the same matrix as `&self * s`, built entry by entry. */
    method MulAssign(s: real)
      requires Valid()
      modifies this
      ensures Valid()
      ensures Value() == Scale(old(Value()), rows, cols, s)
    {
      ghost var before := Value();
      for i := 0 to rows
        invariant Valid()
        invariant forall p: nat, q: nat :: p < rows && q < cols ==>
          Get(p, q) == if p < i then At(before, p, q) * s else At(before, p, q)
      {
        for j := 0 to cols
          invariant Valid()
          invariant forall p: nat, q: nat :: p < rows && q < cols ==>
            Get(p, q) == if p < i || (p == i && q < j) then At(before, p, q) * s else At(before, p, q)
        {
          Set(i, j, Get(i, j) * s);
        }
      }
      Ext(Value(), Scale(before, rows, cols, s), rows, cols);
    }

    /** `*self /= s`: the same matrix as `&self / s`, built entry by entry. */
    method DivAssign(s: real)
      requires Valid() && s != 0.0
      modifies this
      ensures Valid()
      ensures Value() == Div(old(Value()), rows, cols, s)
    {
      ghost var before := Value();
      for i := 0 to rows
        invariant Valid()
        invariant forall p: nat, q: nat :: p < rows && q < cols ==>
          Get(p, q) == if p < i then At(before, p, q) / s else At(before, p, q)
      {
        for j := 0 to cols
          invariant Valid()
          invariant forall p: nat, q: nat :: p < rows && q < cols ==>
            Get(p, q) == if p < i || (p == i && q < j) then At(before, p, q) / s else At(before, p, q)
        {
          Set(i, j, Get(i, j) / s);
        }
      }
      Ext(Value(), Div(before, rows, cols, s), rows, cols);
    }
  }
}
