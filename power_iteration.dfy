/** The loop control of power iteration, `chapter2/src/bin/ex4.rs`: the index of the largest
    entry, the history of estimates, and when the loop returns or gives up. The vector norm is a
    parameter; nothing is claimed about convergence. */
module PowerIteration {
  import opened Outcomes
  import opened Matrices
  import opened Solvers

  /** The bound on the number of passes. */
  const MAX_ITERATIONS: nat := 100000

  /** The panics of `solve_by_power_iteration`, as values. */
  datatype PowerError =
    | VectorIsZero  // "Vector is zero": the vector has no entries
    | NotFinite     // a division by zero, which in floating point yields NaN or Inf
    | Diverges      // "`mu` seems to diverge": MAX_ITERATIONS passes without returning

  /** `x.iter().enumerate().max_by(|p, q| p.abs().cmp(q.abs()))`: the index of an entry of
      largest magnitude, the last one among equals; None for an empty vector. */
  function ArgMaxAbs(x: seq<real>): (r: Option<nat>)
    ensures r.None? <==> |x| == 0
    ensures r.Some? ==> r.value < |x|
    ensures r.Some? ==> forall i :: 0 <= i < |x| ==> Abs(x[i]) <= Abs(x[r.value])
    ensures r.Some? ==> forall i :: r.value < i < |x| ==> Abs(x[i]) < Abs(x[r.value])
  {
    if |x| == 0 then None
    else
      var best := ArgMaxAbs(x[..|x| - 1]);
      if best.None? || Abs(x[best.value]) <= Abs(x[|x| - 1]) then Some(|x| - 1)
      else best
  }

  /** The vector of ones the loop starts from. */
  function Ones(n: nat): (r: seq<real>)
    ensures |r| == n && forall i :: 0 <= i < n ==> r[i] == 1.0
  {
    seq(n, i => 1.0)
  }

  /** The first pass picks the last index: all entries of the starting vector tie. */
  lemma {:induction false} ArgMaxAbsOnes(n: nat)
    requires 1 <= n
    ensures ArgMaxAbs(Ones(n)) == Some(n - 1)
  {
  }

  /** What one pass of the loop does with the vector `x` and the history `mu`. */
  datatype Pass =
    | Return(estimate: real, vector: seq<real>)  // `return (mu_k, x_k)`
    | Continue(x: seq<real>, mu: seq<real>)     // the next vector and the longer history
    | Fail(error: PowerError)

  /** The estimate of a pass, `mu_k = y_k[i] / x_k[i]` with `y_k = a * x_k` and i the index of
      the largest entry of `x_k`. */
  function Estimate(a: Matrix, n: nat, x: seq<real>): (r: Result<real, PowerError>)
    requires Shaped(a, n, n) && |x| == n
    ensures r.Err? <==> n == 0 || x[ArgMaxAbs(x).value] == 0.0
    ensures r.Err? ==> r.error == if n == 0 then VectorIsZero else NotFinite
  {
    match ArgMaxAbs(x)
    case None => Err(VectorIsZero)
    case Some(i) =>
      if x[i] == 0.0 then Err(NotFinite)
      else Ok(Apply(a, x, n, n)[i] / x[i])
  }

  /** A successful estimate is the ratio of `y_k = a * x_k` to `x_k` at the largest entry i of
      `x_k`: multiplied by `x_k[i]`, which is not zero, it gives back `y_k[i]`. */
  lemma {:induction false} EstimateRatio(a: Matrix, n: nat, x: seq<real>)
    requires Shaped(a, n, n) && |x| == n && Estimate(a, n, x).Ok?
    ensures 1 <= n && x[ArgMaxAbs(x).value] != 0.0
    ensures Estimate(a, n, x).value * x[ArgMaxAbs(x).value] == Apply(a, x, n, n)[ArgMaxAbs(x).value]
  {
    var i := ArgMaxAbs(x).value;
    QuotientTimesDivisor(Apply(a, x, n, n)[i], x[i]);
  }

  /** Dividing by a nonzero q and multiplying by it again gives back p. */
  lemma {:induction false} QuotientTimesDivisor(p: real, q: real)
    requires q != 0.0
    ensures p / q * q == p
  {
  }

  /** `y_k / norm(y_k)`, entry by entry. */
  function Normalized(y: seq<real>, s: real): (r: seq<real>)
    requires s != 0.0
    ensures |r| == |y|
  {
    seq(|y|, j requires 0 <= j < |y| => y[j] / s)
  }

  /** One pass of the loop body. It returns the estimate with the vector it came from, and only
      when the history is not empty and its last entry is within EPSILON of the estimate;
      otherwise the vector becomes `y_k / norm(y_k)` and the estimate joins the history. */
  function OnePass(a: Matrix, n: nat, norm: seq<real> -> real, x: seq<real>, mu: seq<real>): (r: Pass)
    requires Shaped(a, n, n) && |x| == n
    ensures r.Fail? <==> (Estimate(a, n, x).Err?
      || (!(|mu| > 0 && Abs(Estimate(a, n, x).value - mu[|mu| - 1]) < EPSILON) && norm(Apply(a, x, n, n)) == 0.0))
    ensures r.Return? <==> Estimate(a, n, x).Ok? && |mu| > 0 && Abs(Estimate(a, n, x).value - mu[|mu| - 1]) < EPSILON
    ensures r.Return? ==> r.estimate == Estimate(a, n, x).value && r.vector == x
    ensures r.Continue? ==> r.mu == mu + [Estimate(a, n, x).value] && |r.x| == n
    ensures r.Fail? ==> r.error == if n == 0 then VectorIsZero else NotFinite
  {
    match Estimate(a, n, x)
    case Err(e) => Fail(e)
    case Ok(m) =>
      if |mu| > 0 && Abs(m - mu[|mu| - 1]) < EPSILON then Return(m, x)
      else
        var y := Apply(a, x, n, n);
        var s := norm(y);
        if s == 0.0 then Fail(NotFinite)
        else Continue(Normalized(y, s), mu + [m])
  }

  /** A pass that goes on hands over `y_k / norm(y_k)`: the next vector, scaled by the norm of
      `y_k = a * x_k`, gives back `y_k`, and that norm is not zero. */
  lemma {:induction false} ContinuingPass(a: Matrix, n: nat, norm: seq<real> -> real, x: seq<real>, mu: seq<real>)
    requires Shaped(a, n, n) && |x| == n && OnePass(a, n, norm, x, mu).Continue?
    ensures var p, y := OnePass(a, n, norm, x, mu), Apply(a, x, n, n);
      norm(y) != 0.0 && |p.x| == n && forall j :: 0 <= j < n ==> p.x[j] * norm(y) == y[j]
  {
  }

  /** The state in which the loop returns: the estimate and the vector it returns, and the
      history `mu` as it stands at that pass. */
  datatype Outcome = Outcome(estimate: real, vector: seq<real>, history: seq<real>)

  /** The vector and the history after j more passes that all go on, or None when one of them
      returns or fails. */
  function After(a: Matrix, n: nat, norm: seq<real> -> real, x: seq<real>, mu: seq<real>, j: nat): (r: Option<(seq<real>, seq<real>)>)
    requires Shaped(a, n, n) && |x| == n
    ensures r.Some? ==> |r.value.0| == n && |r.value.1| == |mu| + j
    decreases j
  {
    if j == 0 then Some((x, mu))
    else
      match OnePass(a, n, norm, x, mu)
      case Continue(x', mu') => After(a, n, norm, x', mu', j - 1)
      case _ => None
  }

  /** The returned estimate is within EPSILON of the last entry of a history of at least one
      and fewer than MAX_ITERATIONS estimates. */
  predicate Converged(o: Outcome) {
    1 <= |o.history| < MAX_ITERATIONS && Abs(o.estimate - o.history[|o.history| - 1]) < EPSILON
  }

  /** The loop from pass k on, with at most MAX_ITERATIONS passes in all. When it returns, the
      estimate belongs to the returned vector, and the history holds one estimate per earlier
      pass, at least one and fewer than MAX_ITERATIONS; it extends the history the loop
      started with, and the returned estimate is within EPSILON of its last entry. */
  function IterateFrom(a: Matrix, n: nat, norm: seq<real> -> real, x: seq<real>, mu: seq<real>, k: nat): (r: Result<Outcome, PowerError>)
    requires Shaped(a, n, n) && |x| == n && k <= MAX_ITERATIONS && |mu| == k
    ensures r.Ok? ==> |r.value.vector| == n && Estimate(a, n, r.value.vector) == Ok(r.value.estimate)
    ensures r.Ok? ==> Converged(r.value) && k <= |r.value.history| && r.value.history[..k] == mu
    ensures r == Err(Diverges) <==> After(a, n, norm, x, mu, MAX_ITERATIONS - k).Some?
    ensures k < MAX_ITERATIONS ==> (r == Err(VectorIsZero) <==> n == 0)
    decreases MAX_ITERATIONS - k
  {
    if k == MAX_ITERATIONS then Err(Diverges)
    else
      var pass := OnePass(a, n, norm, x, mu);
      assert After(a, n, norm, x, mu, MAX_ITERATIONS - k)
        == if pass.Continue? then After(a, n, norm, pass.x, pass.mu, MAX_ITERATIONS - k - 1) else None;
      match pass
      case Return(m, v) =>
        assert mu[..k] == mu;
        Ok(Outcome(m, v, mu))
      case Fail(e) => Err(e)
      case Continue(x', mu') =>
        var r := IterateFrom(a, n, norm, x', mu', k + 1);
        assert r.Ok? ==> r.value.history[..k] == r.value.history[..k + 1][..k];
        r
  }

  /** What `solve_by_power_iteration` computes for `a` under the given norm: the estimate and
      the vector the loop returns, started from the vector of ones and an empty history. */
  function PowerIterate(a: Matrix, n: nat, norm: seq<real> -> real): (r: Result<(real, seq<real>), PowerError>)
    requires Shaped(a, n, n)
    ensures r.Ok? ==> |r.value.1| == n && Estimate(a, n, r.value.1) == Ok(r.value.0)
    ensures r == Err(VectorIsZero) <==> n == 0
    ensures r == Err(Diverges) <==> After(a, n, norm, Ones(n), [], MAX_ITERATIONS).Some?
  {
    match IterateFrom(a, n, norm, Ones(n), [], 0)
    case Err(e) => Err(e)
    case Ok(o) => Ok((o.estimate, o.vector))
  }

  /** A returning run stops at an estimate within EPSILON of the previous one, after at least
      one and fewer than MAX_ITERATIONS earlier passes, whose estimates form the history. */
  lemma {:induction false} PowerIterateConverges(a: Matrix, n: nat, norm: seq<real> -> real)
    requires Shaped(a, n, n) && PowerIterate(a, n, norm).Ok?
    ensures IterateFrom(a, n, norm, Ones(n), [], 0).Ok?
    ensures var o := IterateFrom(a, n, norm, Ones(n), [], 0).value;
      PowerIterate(a, n, norm).value == (o.estimate, o.vector) && Converged(o)
  {
  }

  /** `solve_by_power_iteration`: `x_k` starts as all ones and `mu` empty; each pass either
      returns, or replaces `x_k` and pushes the estimate onto `mu`. */
  method SolveByPowerIteration(a: Matrix, n: nat, norm: seq<real> -> real) returns (r: Result<(real, seq<real>), PowerError>)
    requires Shaped(a, n, n)
    ensures r == PowerIterate(a, n, norm)
  {
    var mu: seq<real> := [];
    var x := seq(n, i => 1.0);
    assert x == Ones(n);
    for k := 0 to MAX_ITERATIONS
      invariant |x| == n && |mu| == k
      invariant IterateFrom(a, n, norm, x, mu, k) == IterateFrom(a, n, norm, Ones(n), [], 0)
    {
      ghost var pass := OnePass(a, n, norm, x, mu);
      var y := Apply(a, x, n, n);
      var best := ArgMaxAbs(x);
      if best.None? {
        return Err(VectorIsZero);
      }
      var i := best.value;
      if x[i] == 0.0 {
        return Err(NotFinite);
      }
      var m := y[i] / x[i];
      assert Estimate(a, n, x) == Ok(m);
      if |mu| > 0 && Abs(m - mu[|mu| - 1]) < EPSILON {
        assert pass == Return(m, x);
        return Ok((m, x));
      }
      var s := norm(y);
      if s == 0.0 {
        return Err(NotFinite);
      }
      x := Normalized(y, s);
      mu := mu + [m];
      assert pass == Continue(x, mu);
    }
    return Err(Diverges);
  }

  // ---------------------------------------------------------------------------
  // What the loop promises

  /** The first pass never returns: the history is empty. */
  lemma {:induction false} FirstPassContinues(a: Matrix, n: nat, norm: seq<real> -> real)
    requires Shaped(a, n, n)
    ensures !OnePass(a, n, norm, Ones(n), []).Return?
  {
  }

  /** For a = [[2]] the loop returns 2 on its second pass, with the vector the first pass
      produced, whatever the norm (as long as it does not vanish at [2]). */
  lemma {:induction false} PowerIterationExample(norm: seq<real> -> real)
    requires norm([2.0]) != 0.0
    ensures PowerIterate(FromRows([[2.0]], 1, 1), 1, norm) == Ok((2.0, [2.0 / norm([2.0])]))
  {
    var a := FromRows([[2.0]], 1, 1);
    var s := norm([2.0]);
    assert Row(a, 0) == [2.0];
    assert Apply(a, Ones(1), 1, 1) == [2.0];
    var x1 := [2.0 / s];
    assert OnePass(a, 1, norm, Ones(1), []) == Continue(x1, [2.0]);
    assert Apply(a, x1, 1, 1) == [2.0 * (2.0 / s)];
    assert OnePass(a, 1, norm, x1, [2.0]) == Return(2.0, x1);
  }
}
