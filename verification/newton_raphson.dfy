/**
 * The Newton–Raphson solver: from x0, repeat x ← x − f(x)/f'(x), recording
 * `(iteration, x, f(x), |x_next − x|)` per step, with a guard that nudges a
 * derivative of magnitude below 1e-10 away from zero. The function and its
 * derivative are caller-supplied evaluators that may raise (None).
 */
module NewtonRaphson {
  import opened Numeric

  /** One record `(iteration, x, f(x), error)`. */
  datatype NewtonStep = NewtonStep(iteration: nat, x: real, fx: real, error: real)

  /** Why an iteration was abandoned; the solver reports either as "Error in iteration k". */
  datatype Cause = EvaluatorRaised | Diverging

  /**
   * How a call ends: converged with its records, an iteration that raised (the
   * records made before it are kept), or "Failed to converge within maxIter iterations".
   */
  datatype NewtonResult =
    | Converged(trace: seq<NewtonStep>)
    | IterationFailed(iteration: nat, cause: Cause, trace: seq<NewtonStep>)
    | NotConverged(maxIter: int, trace: seq<NewtonStep>)

  const DerivativeFloor: real := 0.0000000001

  /** numpy's sign: −1, 0 or 1. */
  function Sign(x: real): (s: real)
    ensures x > 0.0 ==> s == 1.0
    ensures x < 0.0 ==> s == -1.0
    ensures x == 0.0 ==> s == 0.0
  {
    if x > 0.0 then 1.0 else if x < 0.0 then -1.0 else 0.0
  }

  /**
   * The derivative the update divides by: f'(x) itself unless its magnitude is
   * below 1e-10, in which case it is pushed 1e-10 further from zero (or set to
   * 1e-10 when it is exactly zero). It is never smaller than 1e-10 in magnitude
   * and never has the opposite sign of f'(x).
   */
  function Divisor(dfx: real): (d: real)
    ensures Abs(d) >= DerivativeFloor
    ensures Abs(dfx) >= DerivativeFloor ==> d == dfx
    ensures dfx > 0.0 ==> d > 0.0
    ensures dfx < 0.0 ==> d < 0.0
    ensures Abs(dfx) < DerivativeFloor ==> Abs(d) <= 2.0 * DerivativeFloor
  {
    if Abs(dfx) >= DerivativeFloor then dfx
    else if dfx != 0.0 then dfx + Sign(dfx) * DerivativeFloor
    else DerivativeFloor
  }

  /** One Newton update from x, or None when f or f' raised at x. */
  function NewtonMap(f: real -> Option<real>, df: real -> Option<real>, x: real): Option<real>
  {
    match (f(x), df(x))
    case (Some(fx), Some(dfx)) => Some(x - fx / Divisor(dfx))
    case _ => None
  }

  /** The k-th Newton iterate from x0, or None once an evaluator has raised. */
  function NewtonIterate(f: real -> Option<real>, df: real -> Option<real>, x0: real, k: nat): Option<real>
  {
    if k == 0 then Some(x0)
    else match NewtonIterate(f, df, x0, k - 1)
      case None => None
      case Some(x) => NewtonMap(f, df, x)
  }

  /** The early exit for a flat derivative: |f'(x)| below 1e-10 while |f(x)| is already below tol. */
  predicate FlatAndConverged(fx: real, dfx: real, tol: real)
  {
    Abs(dfx) < DerivativeFloor && Abs(fx) < tol
  }

  /** The convergence test on a record; a flat-and-converged record passes it too. */
  predicate NewtonConverges(s: NewtonStep, tol: real)
  {
    Abs(s.fx) < tol || s.error < tol
  }

  /**
   * Record k (0-based) is made at the k-th iterate: it holds f there, and the step
   * size |x_next − x| (0 for the flat-derivative exit).
   */
  predicate NewtonStepFits(f: real -> Option<real>, df: real -> Option<real>, x0: real, tol: real,
                           trace: seq<NewtonStep>, k: nat)
    requires k < |trace|
  {
    var s := trace[k];
    && s.iteration == k + 1
    && NewtonIterate(f, df, x0, k) == Some(s.x)
    && f(s.x) == Some(s.fx) && df(s.x).Some?
    && s.error == (if FlatAndConverged(s.fx, df(s.x).value, tol) then 0.0
                   else Abs(NewtonMap(f, df, s.x).value - s.x))
  }

  /** After record k the loop went on: the record did not converge and the next iterate stayed within 1e6. */
  predicate NewtonGoesOn(trace: seq<NewtonStep>, tol: real, k: nat)
    requires k + 1 < |trace|
  {
    !NewtonConverges(trace[k], tol) && Abs(trace[k + 1].x) <= DivergenceBound
  }

  /** trace is what the solver records from x0. */
  predicate NewtonTrace(f: real -> Option<real>, df: real -> Option<real>, x0: real, tol: real,
                        trace: seq<NewtonStep>)
  {
    && (forall k | 0 <= k < |trace| :: NewtonStepFits(f, df, x0, tol, trace, k))
    && (forall k | 0 <= k < |trace| - 1 :: NewtonGoesOn(trace, tol, k))
  }

  /**
   * The solver would start another step after trace: either nothing is recorded
   * yet, or the last record did not converge and the next iterate exists and
   * stays within 1e6.
   */
  predicate NewtonWouldContinue(f: real -> Option<real>, df: real -> Option<real>, x0: real, tol: real,
                                trace: seq<NewtonStep>)
  {
    |trace| == 0 ||
    (&& !NewtonConverges(Last(trace), tol)
     && NewtonIterate(f, df, x0, |trace|).Some?
     && Abs(NewtonIterate(f, df, x0, |trace|).value) <= DivergenceBound)
  }

  /** Appending a record made at the next iterate keeps a trace a Newton trace. */
  lemma NewtonTraceExtend(f: real -> Option<real>, df: real -> Option<real>, x0: real, tol: real,
                          trace: seq<NewtonStep>, s: NewtonStep)
    requires NewtonTrace(f, df, x0, tol, trace)
    requires NewtonWouldContinue(f, df, x0, tol, trace)
    requires s.iteration == |trace| + 1 && NewtonIterate(f, df, x0, |trace|) == Some(s.x)
    requires f(s.x) == Some(s.fx) && df(s.x).Some?
    requires s.error == (if FlatAndConverged(s.fx, df(s.x).value, tol) then 0.0
                         else Abs(NewtonMap(f, df, s.x).value - s.x))
    ensures NewtonTrace(f, df, x0, tol, trace + [s])
  {
    var t := trace + [s];
    forall k | 0 <= k < |t|
      ensures NewtonStepFits(f, df, x0, tol, t, k)
      ensures k < |t| - 1 ==> NewtonGoesOn(t, tol, k)
    {
      if k < |trace| {
        assert t[k] == trace[k];
        assert NewtonStepFits(f, df, x0, tol, trace, k);
        if k < |trace| - 1 {
          assert NewtonGoesOn(trace, tol, k);
        } else {
          assert trace[k] == Last(trace);
        }
      }
    }
  }

  /**
   * What one pass of the solver's loop does at the current iterate: an evaluator
   * raised, the flat-derivative exit recorded its step, or a step was recorded and
   * the next iterate computed.
   */
  datatype Attempt = Raised | Flat(step: NewtonStep) | Moved(step: NewtonStep, next: real)

  /**
   * One pass of the loop of NewtonRaphsonSolver.solve at the i-th iterate x: the
   * record it makes extends the trace, and the iterate it moves to is the next
   * Newton iterate.
   */
  method Iteration(f: real -> Option<real>, df: real -> Option<real>, x0: real, tol: real,
                   results: seq<NewtonStep>, x: real) returns (a: Attempt)
    requires NewtonTrace(f, df, x0, tol, results)
    requires NewtonIterate(f, df, x0, |results|) == Some(x)
    requires NewtonWouldContinue(f, df, x0, tol, results)
    ensures a.Raised? <==> NewtonIterate(f, df, x0, |results| + 1).None?
    ensures !a.Raised? ==> a.step.iteration == |results| + 1 && NewtonTrace(f, df, x0, tol, results + [a.step])
    ensures a.Flat? ==> NewtonConverges(a.step, tol)
    ensures a.Moved? ==> NewtonIterate(f, df, x0, |results| + 1) == Some(a.next)
  {
    var i := |results|;
    var fxOrRaised := f(x);
    if fxOrRaised.None? {
      return Raised;
    }
    var dfxOrRaised := df(x);
    if dfxOrRaised.None? {
      return Raised;
    }
    var fx, dfx := fxOrRaised.value, dfxOrRaised.value;
    if Abs(dfx) < DerivativeFloor {
      if Abs(fx) < tol {
        var flat := NewtonStep(i + 1, x, fx, 0.0);
        NewtonTraceExtend(f, df, x0, tol, results, flat);
        return Flat(flat);
      }
      dfx := if dfx != 0.0 then dfx + Sign(dfx) * DerivativeFloor else DerivativeFloor;
    }
    assert dfx == Divisor(dfxOrRaised.value);
    var xNext := x - fx / dfx;
    var error := Abs(xNext - x);
    var step := NewtonStep(i + 1, x, fx, error);
    NewtonTraceExtend(f, df, x0, tol, results, step);
    return Moved(step, xNext);
  }

  /**
   * NewtonRaphsonSolver.solve. The trace follows NewtonTrace and has at most
   * max(maxIter, 0) records. A converged call ends on a record that passes the
   * convergence test. An evaluator that raises at the next iterate, or a step that
   * jumps beyond 1e6, ends the call with "Error in iteration k"; running out of
   * iterations ends it with "Failed to converge", after the last record let the
   * loop go on.
   */
  method Solve(f: real -> Option<real>, df: real -> Option<real>, x0: real, tol: real, maxIter: int)
    returns (r: NewtonResult)
    ensures NewtonTrace(f, df, x0, tol, r.trace)
    ensures |r.trace| <= (if maxIter > 0 then maxIter else 0)
    ensures r.Converged? ==> |r.trace| > 0 && NewtonConverges(Last(r.trace), tol)
    ensures r.IterationFailed? && r.cause == EvaluatorRaised ==>
              && r.iteration == |r.trace| + 1 && |r.trace| < maxIter
              && NewtonWouldContinue(f, df, x0, tol, r.trace)
              && NewtonIterate(f, df, x0, |r.trace| + 1).None?
    ensures r.IterationFailed? && r.cause == Diverging ==>
              && r.iteration == |r.trace| && |r.trace| > 0
              && !NewtonConverges(Last(r.trace), tol)
              && NewtonIterate(f, df, x0, |r.trace|).Some?
              && Abs(NewtonIterate(f, df, x0, |r.trace|).value) > DivergenceBound
    ensures r.NotConverged? ==>
              && r.maxIter == maxIter && |r.trace| == (if maxIter > 0 then maxIter else 0)
              && NewtonWouldContinue(f, df, x0, tol, r.trace)
  {
    var x := x0;
    var results: seq<NewtonStep> := [];
    var rounds := if maxIter > 0 then maxIter else 0;
    for i := 0 to rounds
      invariant |results| == i
      invariant NewtonTrace(f, df, x0, tol, results)
      invariant NewtonIterate(f, df, x0, i) == Some(x)
      invariant NewtonWouldContinue(f, df, x0, tol, results)
    {
      var a := Iteration(f, df, x0, tol, results, x);
      if a.Raised? {
        return IterationFailed(i + 1, EvaluatorRaised, results);
      }
      results := results + [a.step];
      assert Last(results) == a.step;
      if a.Flat? {
        return Converged(results);
      }
      if Abs(a.step.fx) < tol || a.step.error < tol {
        return Converged(results);
      }
      if Abs(a.next) > DivergenceBound {
        return IterationFailed(i + 1, Diverging, results);
      }
      x := a.next;
    }
    return NotConverged(maxIter, results);
  }

  /** Each record after the first is made at the Newton update of the one before. */
  lemma NewtonRecordsFollowMap(f: real -> Option<real>, df: real -> Option<real>, x0: real, tol: real,
                               trace: seq<NewtonStep>, k: nat)
    requires NewtonTrace(f, df, x0, tol, trace)
    requires 0 < k < |trace|
    ensures df(trace[k - 1].x).Some?
    ensures trace[k].x == trace[k - 1].x - trace[k - 1].fx / Divisor(df(trace[k - 1].x).value)
    ensures trace[k].iteration == trace[k - 1].iteration + 1
  {
    assert NewtonStepFits(f, df, x0, tol, trace, k);
    assert NewtonStepFits(f, df, x0, tol, trace, k - 1);
  }

  /**
   * The update from x lands on the zero of the tangent line through (x, f(x)) with
   * the slope the solver divides by, and it stays at x exactly when f(x) is zero.
   */
  lemma NewtonUpdateIsTangentRoot(x: real, fx: real, dfx: real)
    ensures fx + Divisor(dfx) * ((x - fx / Divisor(dfx)) - x) == 0.0
    ensures x - fx / Divisor(dfx) == x <==> fx == 0.0
  {
    var d := Divisor(dfx);
    assert d != 0.0;
    assert (x - fx / d) - x == -(fx / d);
    assert d * (fx / d) == fx;
  }

  /**
   * On a record that is not the flat-derivative exit, the recorded step size is zero
   * exactly when f vanishes there: the records at which the solver stands still are
   * the roots of f.
   */
  lemma NewtonErrorZeroIffRoot(f: real -> Option<real>, df: real -> Option<real>, x0: real, tol: real,
                               trace: seq<NewtonStep>, k: nat)
    requires NewtonTrace(f, df, x0, tol, trace)
    requires k < |trace|
    requires df(trace[k].x).Some? ==> !FlatAndConverged(trace[k].fx, df(trace[k].x).value, tol)
    ensures trace[k].error == 0.0 <==> trace[k].fx == 0.0
  {
    assert NewtonStepFits(f, df, x0, tol, trace, k);
    var s := trace[k];
    NewtonUpdateIsTangentRoot(s.x, s.fx, df(s.x).value);
  }
}
