/**
 * The three root finders of `NumericalMethods`: bisection, the secant method and
 * simple (fixed-point) iteration. Each is a bounded loop that validates its inputs,
 * appends one record per step to a trace and then either returns the trace or fails.
 *
 * Every method is specified by a predicate that says what each record of the trace
 * must be (which step it is, where it starts, what it computed) together with the
 * reason the loop ended. Numbers are exact reals; float64 rounding is not modelled.
 */
module RootsOfNonLinear {
  import opened Numeric

  /** Why a call ended without a root; the payloads are the values its message reports. */
  datatype RootError =
    | MaxIterNotPositive
    | ToleranceNotPositive
    | EndpointsOutOfOrder
    | NoSignChange
    | GuessesTooClose
    | DenominatorTooSmall(iteration: nat)
    | Diverging(iteration: nat)
    | Oscillating(iteration: nat)
    | EvaluationFailed(x: real)
    | BracketNotConverged(a: real, b: real)
    | NotConverged(x: real)

  /**
   * How a call ends. A failure keeps the records appended before the error was
   * raised (the source drops the list when it raises), so that the number of steps
   * taken can be stated.
   */
  datatype Run<Step> = Converged(trace: seq<Step>) | Failed(error: RootError, trace: seq<Step>)

  /** Below this magnitude the secant denominator counts as zero. */
  const DenominatorFloor: real := 0.0000000001

  // ---------------------------------------------------------------------------
  // Bisection
  // ---------------------------------------------------------------------------

  /** One record `(iteration, a, b, c, f(c))`. */
  datatype BisectionStep = BisectionStep(iteration: nat, a: real, b: real, c: real, fc: real)

  /** The record of bisection step k (1-based) taken on the bracket [a, b]. */
  function BisectionStepOn(f: real -> real, k: nat, a: real, b: real): BisectionStep
  {
    var c := (a + b) / 2.0;
    BisectionStep(k, a, b, c, f(c))
  }

  /** The convergence test made right after a step is recorded. */
  predicate BisectionStops(s: BisectionStep, tol: real, eps: real)
  {
    Abs(s.fc) < tol || Abs(s.b - s.a) < eps
  }

  /** The bracket kept after step s: [a, c] when f(a)·f(c) < 0, [c, b] otherwise. */
  function NarrowedBracket(f: real -> real, s: BisectionStep): (real, real)
  {
    if f(s.a) * s.fc < 0.0 then (s.a, s.c) else (s.c, s.b)
  }

  /** The bracket that step k (0-based) works on: [a0, b0] first, then what the previous step kept. */
  function BisectionBracket(f: real -> real, a0: real, b0: real, trace: seq<BisectionStep>, k: nat): (real, real)
    requires k <= |trace|
  {
    if k == 0 then (a0, b0) else NarrowedBracket(f, trace[k - 1])
  }

  /** Record k (0-based) of trace is the step taken on the bracket the previous step kept. */
  predicate BisectionStepFits(f: real -> real, a0: real, b0: real, trace: seq<BisectionStep>, k: nat)
    requires k < |trace|
  {
    trace[k] == BisectionStepOn(f, k + 1, BisectionBracket(f, a0, b0, trace, k).0, BisectionBracket(f, a0, b0, trace, k).1)
  }

  /**
   * trace is what bisection records from [a0, b0]: every record is the step taken on
   * the bracket the previous step kept, and only the last step may pass the
   * convergence test.
   */
  predicate BisectionTrace(f: real -> real, a0: real, b0: real, tol: real, eps: real, trace: seq<BisectionStep>)
  {
    && (forall k | 0 <= k < |trace| :: BisectionStepFits(f, a0, b0, trace, k))
    && (forall k | 0 <= k < |trace| - 1 :: !BisectionStops(trace[k], tol, eps))
  }

  /** Appending the next step to a trace whose last step did not stop keeps it a bisection trace. */
  lemma BisectionTraceExtend(f: real -> real, a0: real, b0: real, tol: real, eps: real,
                             trace: seq<BisectionStep>, s: BisectionStep)
    requires BisectionTrace(f, a0, b0, tol, eps, trace)
    requires |trace| > 0 ==> !BisectionStops(Last(trace), tol, eps)
    requires s == BisectionStepOn(f, |trace| + 1, BisectionBracket(f, a0, b0, trace, |trace|).0,
                                  BisectionBracket(f, a0, b0, trace, |trace|).1)
    ensures BisectionTrace(f, a0, b0, tol, eps, trace + [s])
  {
    var t := trace + [s];
    forall k | 0 <= k < |t|
      ensures BisectionStepFits(f, a0, b0, t, k)
      ensures k < |t| - 1 ==> !BisectionStops(t[k], tol, eps)
    {
      assert BisectionBracket(f, a0, b0, t, k) == BisectionBracket(f, a0, b0, trace, k);
      if k < |trace| {
        assert t[k] == trace[k];
        assert BisectionStepFits(f, a0, b0, trace, k);
        if k < |trace| - 1 {
          assert !BisectionStops(trace[k], tol, eps);
        } else {
          assert trace[k] == Last(trace);
        }
      }
    }
  }

  /** The first input check that bisection fails, in the order the checks are made. */
  function BisectionInputError(f: real -> real, a: real, b: real, tol: real, maxIter: int): Option<RootError>
  {
    if maxIter <= 0 then Some(MaxIterNotPositive)
    else if tol <= 0.0 then Some(ToleranceNotPositive)
    else if a >= b then Some(EndpointsOutOfOrder)
    else if f(a) * f(b) >= 0.0 then Some(NoSignChange)
    else None
  }

  /**
   * Bisection on [a0, b0]. Invalid input fails before any midpoint is recorded;
   * otherwise the trace follows BisectionTrace, has between 1 and maxIter records,
   * ends on a step that passes the convergence test when the call converges, and
   * has exactly maxIter records, none converged, when it fails, reporting the
   * bracket the last step left.
   */
  method Bisection(f: real -> real, a0: real, b0: real, tol: real, maxIter: int, fixedDigits: int)
    returns (r: Run<BisectionStep>)
    ensures BisectionInputError(f, a0, b0, tol, maxIter).Some? ==>
              r == Failed(BisectionInputError(f, a0, b0, tol, maxIter).value, [])
    ensures BisectionInputError(f, a0, b0, tol, maxIter).None? ==>
              && BisectionTrace(f, a0, b0, tol, Precision(fixedDigits), r.trace)
              && 0 < |r.trace| <= maxIter
              && (r.Converged? ==> BisectionStops(Last(r.trace), tol, Precision(fixedDigits)))
              && (r.Failed? ==>
                    && |r.trace| == maxIter
                    && !BisectionStops(Last(r.trace), tol, Precision(fixedDigits))
                    && r.error == BracketNotConverged(NarrowedBracket(f, Last(r.trace)).0,
                                                      NarrowedBracket(f, Last(r.trace)).1))
  {
    if maxIter <= 0 {
      return Failed(MaxIterNotPositive, []);
    }
    if tol <= 0.0 {
      return Failed(ToleranceNotPositive, []);
    }
    if a0 >= b0 {
      return Failed(EndpointsOutOfOrder, []);
    }
    var fa, fb := f(a0), f(b0);
    if fa * fb >= 0.0 {
      return Failed(NoSignChange, []);
    }
    assert BisectionInputError(f, a0, b0, tol, maxIter).None?;
    var eps := Precision(fixedDigits);
    var results: seq<BisectionStep> := [];
    var a, b := a0, b0;
    for i := 0 to maxIter
      invariant |results| == i
      invariant BisectionInputError(f, a0, b0, tol, maxIter).None?
      invariant BisectionTrace(f, a0, b0, tol, eps, results)
      invariant fa == f(a)
      invariant i == 0 ==> a == a0 && b == b0
      invariant i > 0 ==> !BisectionStops(results[i - 1], tol, eps) && (a, b) == NarrowedBracket(f, results[i - 1])
    {
      var c := (a + b) / 2.0;
      var fc := f(c);
      var step := BisectionStep(i + 1, a, b, c, fc);
      BisectionTraceExtend(f, a0, b0, tol, eps, results, step);
      results := results + [step];
      if Abs(fc) < tol || Abs(b - a) < eps {
        return Converged(results);
      }
      assert NarrowedBracket(f, step) == if fa * fc < 0.0 then (a, c) else (c, b);
      if fa * fc < 0.0 {
        b := c;
      } else {
        a, fa := c, fc;
      }
    }
    return Failed(BracketNotConverged(a, b), results);
  }

  function Pow2(k: nat): (r: real)
    ensures r >= 1.0
  {
    if k == 0 then 1.0 else 2.0 * Pow2(k - 1)
  }

  /** If p·q < 0 and p·r > 0 then r·q < 0: the sign change moves to the other half. */
  lemma SignChangeMoves(p: real, q: real, r: real)
    requires p * q < 0.0 && p * r > 0.0
    ensures r * q < 0.0
  {
    if p > 0.0 {
      assert q < 0.0 && r > 0.0;
    } else {
      assert p < 0.0;
      assert q > 0.0 && r < 0.0;
    }
  }

  /**
   * The bracket invariant of bisection. At the start of every step k (0-based) the
   * bracket satisfies a < b and f(a)·f(b) < 0, the midpoint lies strictly inside it,
   * and the step is numbered k + 1. Each step that does not stop has f(a)·f(c) ≠ 0,
   * so the source's else-branch runs only when f(a)·f(c) > 0, and the next bracket
   * is exactly half as wide.
   */
  lemma {:induction false} BisectionBracketInvariant(f: real -> real, a0: real, b0: real, tol: real, eps: real,
                                                     trace: seq<BisectionStep>, k: nat)
    requires tol > 0.0 && a0 < b0 && f(a0) * f(b0) < 0.0
    requires BisectionTrace(f, a0, b0, tol, eps, trace)
    requires k < |trace|
    ensures trace[k].iteration == k + 1
    ensures trace[k].a < trace[k].c < trace[k].b
    ensures f(trace[k].a) * f(trace[k].b) < 0.0
    ensures k < |trace| - 1 ==> f(trace[k].a) * trace[k].fc != 0.0
    ensures k < |trace| - 1 ==> trace[k + 1].b - trace[k + 1].a == (trace[k].b - trace[k].a) / 2.0
  {
    var s := trace[k];
    assert BisectionStepFits(f, a0, b0, trace, k);
    assert s == BisectionStepOn(f, k + 1, BisectionBracket(f, a0, b0, trace, k).0, BisectionBracket(f, a0, b0, trace, k).1);
    if k > 0 {
      BisectionBracketInvariant(f, a0, b0, tol, eps, trace, k - 1);
      var p := trace[k - 1];
      assert BisectionStepFits(f, a0, b0, trace, k - 1);
      assert p == BisectionStepOn(f, k, BisectionBracket(f, a0, b0, trace, k - 1).0, BisectionBracket(f, a0, b0, trace, k - 1).1);
      assert !BisectionStops(p, tol, eps);
      assert p.fc == f(p.c) && p.fc != 0.0;
      if f(p.a) * p.fc < 0.0 {
        assert s.a == p.a && s.b == p.c;
      } else {
        assert f(p.a) * p.fc > 0.0;
        SignChangeMoves(f(p.a), f(p.b), p.fc);
        assert s.a == p.c && s.b == p.b;
      }
    }
    if k < |trace| - 1 {
      assert !BisectionStops(s, tol, eps);
      assert s.fc == f(s.c) && s.fc != 0.0;
      var q := trace[k + 1];
      assert BisectionStepFits(f, a0, b0, trace, k + 1);
      assert q == BisectionStepOn(f, k + 2, NarrowedBracket(f, s).0, NarrowedBracket(f, s).1);
    }
  }

  /** The width of the bracket of step k is (b0 − a0)/2^k. */
  lemma {:induction false} BisectionWidth(f: real -> real, a0: real, b0: real, tol: real, eps: real,
                                          trace: seq<BisectionStep>, k: nat)
    requires tol > 0.0 && a0 < b0 && f(a0) * f(b0) < 0.0
    requires BisectionTrace(f, a0, b0, tol, eps, trace)
    requires k < |trace|
    ensures (trace[k].b - trace[k].a) * Pow2(k) == b0 - a0
  {
    if k == 0 {
      assert BisectionStepFits(f, a0, b0, trace, 0);
    } else {
      BisectionWidth(f, a0, b0, tol, eps, trace, k - 1);
      BisectionBracketInvariant(f, a0, b0, tol, eps, trace, k - 1);
      var w := trace[k - 1].b - trace[k - 1].a;
      assert trace[k].b - trace[k].a == w / 2.0;
      assert Pow2(k) == 2.0 * Pow2(k - 1);
      calc {
        (trace[k].b - trace[k].a) * Pow2(k);
        (w / 2.0) * (2.0 * Pow2(k - 1));
        w * Pow2(k - 1);
      }
    }
  }

  // ---------------------------------------------------------------------------
  // Secant
  // ---------------------------------------------------------------------------

  /** One record `(iteration, x0, x1, x_next, f(x1))`. */
  datatype SecantStep = SecantStep(iteration: nat, x0: real, x1: real, xNext: real, fx1: real)

  /** The secant step is taken only when |f(x1) − f(x0)| is not below 1e-10. */
  predicate SecantDenominatorOk(f: real -> real, x0: real, x1: real)
  {
    Abs(f(x1) - f(x0)) >= DenominatorFloor
  }

  /** Where the chord through (x0, f0) and (x1, f1) meets the x-axis, written as the secant update. */
  function ChordRoot(x0: real, x1: real, f0: real, f1: real): real
    requires f1 != f0
  {
    x1 - f1 * (x1 - x0) / (f1 - f0)
  }

  /** ChordRoot is a zero of the chord through two points with distinct abscissae and ordinates. */
  lemma ChordRootIsZero(x0: real, x1: real, f0: real, f1: real)
    requires x0 != x1 && f1 != f0
    ensures f1 + (ChordRoot(x0, x1, f0, f1) - x1) * (f1 - f0) / (x1 - x0) == 0.0
  {
    var h, d := x1 - x0, f1 - f0;
    var q := f1 * h / d;
    assert ChordRoot(x0, x1, f0, f1) - x1 == -q;
    assert q * d == f1 * h;
    assert (-q) * d == -(f1 * h);
    assert (-(f1 * h)) / h == -f1;
  }

  /** The record of secant step k (1-based) from the guesses x0, x1. */
  function SecantStepOn(f: real -> real, k: nat, x0: real, x1: real): SecantStep
    requires SecantDenominatorOk(f, x0, x1)
  {
    SecantStep(k, x0, x1, ChordRoot(x0, x1, f(x0), f(x1)), f(x1))
  }

  /** The two convergence tests, made in this order right after a step is recorded. */
  predicate SecantConverges(s: SecantStep, tol: real, eps: real)
  {
    Abs(s.fx1) < tol || Abs(s.xNext - s.x1) < eps
  }

  /** A step after which the loop goes on: not converged and not diverging. */
  predicate SecantContinues(s: SecantStep, tol: real, eps: real)
  {
    !SecantConverges(s, tol, eps) && Abs(s.xNext) <= DivergenceBound
  }

  /** The guesses step k (0-based) starts from: (x0, x1) first, then (x1, x_next) of the previous step. */
  function SecantGuesses(x0: real, x1: real, trace: seq<SecantStep>, k: nat): (real, real)
    requires k <= |trace|
  {
    if k == 0 then (x0, x1) else (trace[k - 1].x1, trace[k - 1].xNext)
  }

  /** Record k (0-based) of trace is the secant step from the guesses the previous step handed on. */
  predicate SecantStepFits(f: real -> real, x0: real, x1: real, trace: seq<SecantStep>, k: nat)
    requires k < |trace|
  {
    var (g0, g1) := SecantGuesses(x0, x1, trace, k);
    SecantDenominatorOk(f, g0, g1) && trace[k] == SecantStepOn(f, k + 1, g0, g1)
  }

  /** trace is what the secant method records from x0, x1; every step but the last lets the loop go on. */
  predicate SecantTrace(f: real -> real, x0: real, x1: real, tol: real, eps: real, trace: seq<SecantStep>)
  {
    && (forall k | 0 <= k < |trace| :: SecantStepFits(f, x0, x1, trace, k))
    && (forall k | 0 <= k < |trace| - 1 :: SecantContinues(trace[k], tol, eps))
  }

  /** The first input check that the secant method fails, in the order the checks are made. */
  function SecantInputError(x0: real, x1: real, tol: real, maxIter: int): Option<RootError>
  {
    if maxIter <= 0 then Some(MaxIterNotPositive)
    else if tol <= 0.0 then Some(ToleranceNotPositive)
    else if Abs(x1 - x0) < tol then Some(GuessesTooClose)
    else None
  }

  /**
   * The ways a secant call that passed its input checks can fail: the denominator of
   * the next step is below 1e-10 (nothing is recorded for that step), the step just
   * recorded did not converge and jumped beyond 1e6, or maxIter steps went by.
   */
  predicate SecantFailure(f: real -> real, x0: real, x1: real, tol: real, eps: real, maxIter: int,
                          error: RootError, trace: seq<SecantStep>)
  {
    match error
    case DenominatorTooSmall(k) =>
      && k == |trace| + 1 && |trace| < maxIter
      && (|trace| > 0 ==> SecantContinues(Last(trace), tol, eps))
      && !SecantDenominatorOk(f, SecantGuesses(x0, x1, trace, |trace|).0, SecantGuesses(x0, x1, trace, |trace|).1)
    case Diverging(k) =>
      && k == |trace| && |trace| > 0
      && !SecantConverges(Last(trace), tol, eps) && Abs(Last(trace).xNext) > DivergenceBound
    case NotConverged(x) =>
      && |trace| == maxIter && |trace| > 0
      && SecantContinues(Last(trace), tol, eps) && x == Last(trace).xNext
    case _ => false
  }

  /** Appending the next step to a trace whose last step lets the loop go on keeps it a secant trace. */
  lemma SecantTraceExtend(f: real -> real, x0: real, x1: real, tol: real, eps: real,
                          trace: seq<SecantStep>, s: SecantStep)
    requires SecantTrace(f, x0, x1, tol, eps, trace)
    requires |trace| > 0 ==> SecantContinues(Last(trace), tol, eps)
    requires SecantDenominatorOk(f, SecantGuesses(x0, x1, trace, |trace|).0, SecantGuesses(x0, x1, trace, |trace|).1)
    requires s == SecantStepOn(f, |trace| + 1, SecantGuesses(x0, x1, trace, |trace|).0,
                               SecantGuesses(x0, x1, trace, |trace|).1)
    ensures SecantTrace(f, x0, x1, tol, eps, trace + [s])
  {
    var t := trace + [s];
    forall k | 0 <= k < |t|
      ensures SecantStepFits(f, x0, x1, t, k)
      ensures k < |t| - 1 ==> SecantContinues(t[k], tol, eps)
    {
      assert SecantGuesses(x0, x1, t, k) == SecantGuesses(x0, x1, trace, k);
      if k < |trace| {
        assert t[k] == trace[k];
        assert SecantStepFits(f, x0, x1, trace, k);
        if k < |trace| - 1 {
          assert SecantContinues(trace[k], tol, eps);
        } else {
          assert trace[k] == Last(trace);
        }
      }
    }
  }

  /**
   * The secant method from the guesses x0, x1. Invalid input fails before any step;
   * otherwise the trace follows SecantTrace and has at most maxIter records; a
   * converged call ends on a record that passes one of the two convergence tests,
   * and a failed call ends as SecantFailure describes.
   */
  method Secant(f: real -> real, x0: real, x1: real, tol: real, maxIter: int, fixedDigits: int)
    returns (r: Run<SecantStep>)
    ensures SecantInputError(x0, x1, tol, maxIter).Some? ==>
              r == Failed(SecantInputError(x0, x1, tol, maxIter).value, [])
    ensures SecantInputError(x0, x1, tol, maxIter).None? ==>
              && SecantTrace(f, x0, x1, tol, Precision(fixedDigits), r.trace)
              && |r.trace| <= maxIter
              && (r.Converged? ==> |r.trace| > 0 && SecantConverges(Last(r.trace), tol, Precision(fixedDigits)))
              && (r.Failed? ==> SecantFailure(f, x0, x1, tol, Precision(fixedDigits), maxIter, r.error, r.trace))
  {
    if maxIter <= 0 {
      return Failed(MaxIterNotPositive, []);
    }
    if tol <= 0.0 {
      return Failed(ToleranceNotPositive, []);
    }
    if Abs(x1 - x0) < tol {
      return Failed(GuessesTooClose, []);
    }
    assert SecantInputError(x0, x1, tol, maxIter).None?;
    var eps := Precision(fixedDigits);
    var results: seq<SecantStep> := [];
    var prev, cur := x0, x1;
    for i := 0 to maxIter
      invariant |results| == i
      invariant SecantTrace(f, x0, x1, tol, eps, results)
      invariant (prev, cur) == SecantGuesses(x0, x1, results, i)
      invariant i > 0 ==> SecantContinues(results[i - 1], tol, eps)
    {
      var fPrev, fCur := f(prev), f(cur);
      if Abs(fCur - fPrev) < DenominatorFloor {
        return Failed(DenominatorTooSmall(i + 1), results);
      }
      var xNext := ChordRoot(prev, cur, fPrev, fCur);
      var step := SecantStep(i + 1, prev, cur, xNext, fCur);
      SecantTraceExtend(f, x0, x1, tol, eps, results, step);
      results := results + [step];
      if Abs(fCur) < tol {
        return Converged(results);
      }
      if Abs(xNext - cur) < eps {
        return Converged(results);
      }
      if Abs(xNext) > DivergenceBound {
        return Failed(Diverging(i + 1), results);
      }
      prev, cur := cur, xNext;
    }
    return Failed(NotConverged(cur), results);
  }

  /** Record k + 1 starts from record k's x1 and x_next. */
  lemma SecantGuessesShift(f: real -> real, x0: real, x1: real, tol: real, eps: real,
                           trace: seq<SecantStep>, k: nat)
    requires SecantTrace(f, x0, x1, tol, eps, trace)
    requires 0 < k < |trace|
    ensures trace[k].x0 == trace[k - 1].x1 && trace[k].x1 == trace[k - 1].xNext
    ensures trace[k].iteration == trace[k - 1].iteration + 1
  {
    assert SecantStepFits(f, x0, x1, trace, k);
    assert SecantStepFits(f, x0, x1, trace, k - 1);
  }

  /**
   * Every recorded secant step starts from two distinct guesses with distinct values
   * of f, and its x_next is the root of the chord through them (ChordRootIsZero).
   */
  lemma SecantStepOnChord(f: real -> real, x0: real, x1: real, tol: real, eps: real,
                          trace: seq<SecantStep>, k: nat)
    requires SecantTrace(f, x0, x1, tol, eps, trace)
    requires k < |trace|
    ensures trace[k].x0 != trace[k].x1 && f(trace[k].x0) != f(trace[k].x1)
    ensures trace[k].fx1 == f(trace[k].x1)
    ensures trace[k].xNext == ChordRoot(trace[k].x0, trace[k].x1, f(trace[k].x0), f(trace[k].x1))
  {
    assert SecantStepFits(f, x0, x1, trace, k);
  }

  // ---------------------------------------------------------------------------
  // Simple (fixed-point) iteration
  // ---------------------------------------------------------------------------

  /** One record `(iteration, x, g(x))`. */
  datatype FixedPointStep = FixedPointStep(iteration: nat, x: real, xNext: real)

  /** Absolute error below tol, or relative error |g(x) − x|/(|g(x)| + 1e-10) below eps. */
  predicate FixedPointConverges(s: FixedPointStep, tol: real, eps: real)
  {
    var absError := Abs(s.xNext - s.x);
    absError < tol || absError / (Abs(s.xNext) + DenominatorFloor) < eps
  }

  /**
   * The oscillation test on the records so far: past the fifth record, the current-x
   * values of the last four records take at most two distinct values.
   */
  predicate Oscillates(trace: seq<FixedPointStep>)
  {
    |trace| > 5 &&
    |{trace[|trace| - 4].x, trace[|trace| - 3].x, trace[|trace| - 2].x, trace[|trace| - 1].x}| <= 2
  }

  /** After the last record of trace the loop goes on: not converged, not diverging, not oscillating. */
  predicate FixedPointContinues(trace: seq<FixedPointStep>, tol: real, eps: real)
    requires |trace| > 0
  {
    && !FixedPointConverges(Last(trace), tol, eps)
    && Abs(Last(trace).xNext) <= DivergenceBound
    && !Oscillates(trace)
  }

  /** The x that step k (0-based) evaluates g at: x0 first, then the previous step's g(x). */
  function FixedPointStart(x0: real, trace: seq<FixedPointStep>, k: nat): real
    requires k <= |trace|
  {
    if k == 0 then x0 else trace[k - 1].xNext
  }

  /** Record k (0-based) is `(k + 1, x, g(x))` for the x the previous step handed on. */
  predicate FixedPointStepFits(g: real -> Option<real>, x0: real, trace: seq<FixedPointStep>, k: nat)
    requires k < |trace|
  {
    var x := FixedPointStart(x0, trace, k);
    trace[k] == FixedPointStep(k + 1, x, trace[k].xNext) && g(x) == Some(trace[k].xNext)
  }

  /** After record k (0-based) the loop went on, judged on the records up to and including it. */
  predicate FixedPointContinuesAt(trace: seq<FixedPointStep>, tol: real, eps: real, k: nat)
    requires k < |trace|
  {
    FixedPointContinues(trace[..k + 1], tol, eps)
  }

  /** trace is what simple iteration records from x0; after every record but the last the loop goes on. */
  predicate FixedPointTrace(g: real -> Option<real>, x0: real, tol: real, eps: real, trace: seq<FixedPointStep>)
  {
    && (forall k | 0 <= k < |trace| :: FixedPointStepFits(g, x0, trace, k))
    && (forall k | 0 <= k < |trace| - 1 :: FixedPointContinuesAt(trace, tol, eps, k))
  }

  /**
   * The ways a simple-iteration call that passed its input checks can fail: g raised
   * at the x it was given (nothing is recorded for that step), the step just recorded
   * did not converge and went beyond 1e6, it did not converge, did not diverge and the
   * oscillation test fired, or maxIter steps went by.
   */
  predicate FixedPointFailure(g: real -> Option<real>, x0: real, tol: real, eps: real, maxIter: int,
                              error: RootError, trace: seq<FixedPointStep>)
  {
    match error
    case EvaluationFailed(x) =>
      && |trace| < maxIter
      && (|trace| > 0 ==> FixedPointContinues(trace, tol, eps))
      && x == FixedPointStart(x0, trace, |trace|) && g(x).None?
    case Diverging(k) =>
      && k == |trace| && |trace| > 0
      && !FixedPointConverges(Last(trace), tol, eps) && Abs(Last(trace).xNext) > DivergenceBound
    case Oscillating(k) =>
      && k == |trace| && |trace| > 0
      && !FixedPointConverges(Last(trace), tol, eps) && Abs(Last(trace).xNext) <= DivergenceBound
      && Oscillates(trace)
    case NotConverged(x) =>
      && |trace| == maxIter && |trace| > 0
      && FixedPointContinues(trace, tol, eps) && x == Last(trace).xNext
    case _ => false
  }

  /** Appending the next step to a trace after whose last record the loop goes on keeps it a fixed-point trace. */
  lemma FixedPointTraceExtend(g: real -> Option<real>, x0: real, tol: real, eps: real,
                              trace: seq<FixedPointStep>, s: FixedPointStep)
    requires FixedPointTrace(g, x0, tol, eps, trace)
    requires |trace| > 0 ==> FixedPointContinues(trace, tol, eps)
    requires s.iteration == |trace| + 1 && s.x == FixedPointStart(x0, trace, |trace|) && g(s.x) == Some(s.xNext)
    ensures FixedPointTrace(g, x0, tol, eps, trace + [s])
  {
    var t := trace + [s];
    forall k | 0 <= k < |t|
      ensures FixedPointStepFits(g, x0, t, k)
      ensures k < |t| - 1 ==> FixedPointContinuesAt(t, tol, eps, k)
    {
      assert FixedPointStart(x0, t, k) == FixedPointStart(x0, trace, k);
      if k < |trace| {
        assert t[k] == trace[k];
        assert FixedPointStepFits(g, x0, trace, k);
        assert t[..k + 1] == trace[..k + 1];
        if k < |trace| - 1 {
          assert FixedPointContinuesAt(trace, tol, eps, k);
        } else {
          assert trace[..k + 1] == trace;
        }
      }
    }
  }

  /** The oscillation test made after step |results|: more than five records, and at most two distinct x among the last four. */
  method OscillationTest(results: seq<FixedPointStep>) returns (oscillating: bool)
    ensures oscillating == Oscillates(results)
  {
    oscillating := false;
    if |results| > 5 {
      var lastFour := results[|results| - 4..];
      assert lastFour[0] == results[|results| - 4] && lastFour[1] == results[|results| - 3]
          && lastFour[2] == results[|results| - 2] && lastFour[3] == results[|results| - 1];
      oscillating := |{lastFour[0].x, lastFour[1].x, lastFour[2].x, lastFour[3].x}| <= 2;
    }
  }

  /**
   * Simple iteration x ← g(x) from x0. Invalid input fails before g is called;
   * otherwise the trace follows FixedPointTrace and has at most maxIter records; a
   * converged call ends on a record that passes the convergence test, and a failed
   * call ends as FixedPointFailure describes.
   */
  method SimpleIteration(g: real -> Option<real>, x0: real, tol: real, maxIter: int, fixedDigits: int)
    returns (r: Run<FixedPointStep>)
    ensures maxIter <= 0 ==> r == Failed(MaxIterNotPositive, [])
    ensures maxIter > 0 && tol <= 0.0 ==> r == Failed(ToleranceNotPositive, [])
    ensures maxIter > 0 && tol > 0.0 ==>
              && FixedPointTrace(g, x0, tol, Precision(fixedDigits), r.trace)
              && |r.trace| <= maxIter
              && (r.Converged? ==> |r.trace| > 0 && FixedPointConverges(Last(r.trace), tol, Precision(fixedDigits)))
              && (r.Failed? ==> FixedPointFailure(g, x0, tol, Precision(fixedDigits), maxIter, r.error, r.trace))
  {
    if maxIter <= 0 {
      return Failed(MaxIterNotPositive, []);
    }
    if tol <= 0.0 {
      return Failed(ToleranceNotPositive, []);
    }
    var eps := Precision(fixedDigits);
    var x := x0;
    var results: seq<FixedPointStep> := [];
    for i := 0 to maxIter
      invariant |results| == i
      invariant FixedPointTrace(g, x0, tol, eps, results)
      invariant x == FixedPointStart(x0, results, i)
      invariant i > 0 ==> FixedPointContinues(results, tol, eps)
    {
      var evaluated := g(x);
      if evaluated.None? {
        return Failed(EvaluationFailed(x), results);
      }
      var xNext := evaluated.value;
      var step := FixedPointStep(i + 1, x, xNext);
      FixedPointTraceExtend(g, x0, tol, eps, results, step);
      results := results + [step];
      var absError := Abs(xNext - x);
      var relError := absError / (Abs(xNext) + DenominatorFloor);
      if absError < tol || relError < eps {
        return Converged(results);
      }
      if Abs(xNext) > DivergenceBound {
        return Failed(Diverging(i + 1), results);
      }
      var oscillating := OscillationTest(results);
      if oscillating {
        return Failed(Oscillating(i + 1), results);
      }
      x := xNext;
    }
    return Failed(NotConverged(x), results);
  }

  /** The k-th iterate of g from x0, or None once g has raised. */
  function Iterate(g: real -> Option<real>, x0: real, k: nat): Option<real>
  {
    if k == 0 then Some(x0)
    else match Iterate(g, x0, k - 1)
      case None => None
      case Some(x) => g(x)
  }

  /** Record k of a simple-iteration trace holds the k-th iterate of g and the (k + 1)-th. */
  lemma {:induction false} FixedPointFollowsIterates(g: real -> Option<real>, x0: real, tol: real, eps: real,
                                                     trace: seq<FixedPointStep>, k: nat)
    requires FixedPointTrace(g, x0, tol, eps, trace)
    requires k < |trace|
    ensures Iterate(g, x0, k) == Some(trace[k].x)
    ensures Iterate(g, x0, k + 1) == Some(trace[k].xNext)
    decreases k
  {
    assert FixedPointStepFits(g, x0, trace, k);
    if k > 0 {
      FixedPointFollowsIterates(g, x0, tol, eps, trace, k - 1);
    }
  }

  /** Once two iterates agree, all later ones agree at the same distance: the orbit is periodic. */
  lemma {:induction false} IterateRepeats(g: real -> Option<real>, x0: real, i: nat, j: nat, m: nat)
    requires Iterate(g, x0, i) == Iterate(g, x0, j)
    ensures Iterate(g, x0, i + m) == Iterate(g, x0, j + m)
    decreases m
  {
    if m > 0 {
      IterateRepeats(g, x0, i, j, m - 1);
      assert Iterate(g, x0, i + m) == match Iterate(g, x0, i + m - 1) case None => None case Some(x) => g(x);
      assert Iterate(g, x0, j + m) == match Iterate(g, x0, j + m - 1) case None => None case Some(x) => g(x);
    }
  }

  /** When the oscillation test fires, two of the last four records start from the same x. */
  lemma OscillationRevisits(trace: seq<FixedPointStep>)
    requires Oscillates(trace)
    ensures exists i, j :: |trace| - 4 <= i < j < |trace| && trace[i].x == trace[j].x
  {
    var n := |trace|;
    var a, b, c, d := trace[n - 4].x, trace[n - 3].x, trace[n - 2].x, trace[n - 1].x;
    if a == b {
      assert trace[n - 4].x == trace[n - 3].x;
    } else if a == c {
      assert trace[n - 4].x == trace[n - 2].x;
    } else if a == d {
      assert trace[n - 4].x == trace[n - 1].x;
    } else {
      // a differs from b, c and d, so at most one value is left for those three
      assert {a, b, c} <= {a, b, c, d};
      assert trace[n - 3].x == trace[n - 2].x;
    }
  }

  /**
   * A simple-iteration run stopped by the oscillation test has found a cycle of g:
   * two of its last four iterates coincide, so from there on the iterates repeat.
   */
  lemma OscillationIsCycle(g: real -> Option<real>, x0: real, tol: real, eps: real, trace: seq<FixedPointStep>)
    requires FixedPointTrace(g, x0, tol, eps, trace)
    requires Oscillates(trace)
    ensures exists i: nat, j: nat :: |trace| - 4 <= i < j < |trace| && Iterate(g, x0, i) == Iterate(g, x0, j)
  {
    OscillationRevisits(trace);
    var i, j :| |trace| - 4 <= i < j < |trace| && trace[i].x == trace[j].x;
    FixedPointFollowsIterates(g, x0, tol, eps, trace, i);
    FixedPointFollowsIterates(g, x0, tol, eps, trace, j);
  }
}
