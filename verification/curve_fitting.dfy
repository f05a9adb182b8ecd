/**
 * Least-squares fitting of a line and of a parabola to the selected points: the
 * normal equations built from power sums of the x values, solved as a 2 × 2 and
 * a 3 × 3 system. The points arrive as two columns xs and ys of equal length.
 */
module CurveFitting {
  import opened LinearSystem

  /** x^k. */
  function Pow(x: real, k: nat): real
  {
    if k == 0 then 1.0 else Mul(x, Pow(x, k - 1))
  }

  lemma PowSmall(x: real)
    ensures Pow(x, 0) == 1.0 && Pow(x, 1) == x && Pow(x, 2) == Mul(x, x)
  {
    MulIsProduct();
  }

  /** Σ x^k over the x values. */
  function PowerSum(xs: seq<real>, k: nat): real
    decreases |xs|
  {
    if |xs| == 0 then 0.0 else PowerSum(xs[..|xs| - 1], k) + Pow(xs[|xs| - 1], k)
  }

  /** Σ x^k · y over the points. */
  function MomentSum(xs: seq<real>, ys: seq<real>, k: nat): real
    requires |ys| == |xs|
    decreases |xs|
  {
    if |xs| == 0 then 0.0
    else MomentSum(xs[..|xs| - 1], ys[..|ys| - 1], k) + Mul(Pow(xs[|xs| - 1], k), ys[|ys| - 1])
  }

  /** The zeroth power sum counts the points. */
  lemma {:induction false} PowerSumZero(xs: seq<real>)
    ensures PowerSum(xs, 0) == |xs| as real
    decreases |xs|
  {
    if |xs| > 0 {
      PowerSumZero(xs[..|xs| - 1]);
    }
  }

  // ----- The two systems -----

  /** The first-degree matrix as the fitter builds it from n, Σx and Σx²: entry (i, j) is Σ x^(i+j). */
  function FirstDegreeMatrix(xs: seq<real>): (A: seq<seq<real>>)
    ensures IsMatrix(A, 2) && A[0][0] == |xs| as real
    ensures A[0][0] == PowerSum(xs, 0) && A[0][1] == PowerSum(xs, 1)
    ensures A[1][0] == PowerSum(xs, 1) && A[1][1] == PowerSum(xs, 2)
  {
    PowerSumZero(xs);
    var n, sumX, sumX2 := |xs| as real, PowerSum(xs, 1), PowerSum(xs, 2);
    [[n, sumX], [sumX, sumX2]]
  }

  /** The second-degree matrix as the fitter builds it from n and Σx .. Σx⁴: entry (i, j) is Σ x^(i+j). */
  function SecondDegreeMatrix(xs: seq<real>): (A: seq<seq<real>>)
    ensures IsMatrix(A, 3)
    ensures A[0][0] == PowerSum(xs, 0) && A[0][1] == PowerSum(xs, 1) && A[0][2] == PowerSum(xs, 2)
    ensures A[1][0] == PowerSum(xs, 1) && A[1][1] == PowerSum(xs, 2) && A[1][2] == PowerSum(xs, 3)
    ensures A[2][0] == PowerSum(xs, 2) && A[2][1] == PowerSum(xs, 3) && A[2][2] == PowerSum(xs, 4)
    ensures forall i, j | 0 <= i < 3 && 0 <= j < 3 :: A[i][j] == A[j][i]
  {
    PowerSumZero(xs);
    var n, sumX, sumX2, sumX3, sumX4 := |xs| as real, PowerSum(xs, 1), PowerSum(xs, 2), PowerSum(xs, 3), PowerSum(xs, 4);
    [[n, sumX, sumX2], [sumX, sumX2, sumX3], [sumX2, sumX3, sumX4]]
  }

  /** Σ x^k·y - a0·Σx^k - a1·Σx^(k+1): how far the line (a0, a1) is from normal equation k. */
  function LineGap(xs: seq<real>, ys: seq<real>, a0: real, a1: real, k: nat, j: nat): real
    requires |ys| == |xs| && j == k + 1
  {
    MomentSum(xs, ys, k) - Mul(PowerSum(xs, k), a0) - Mul(PowerSum(xs, j), a1)
  }

  /** The line y = a0 + a1·x satisfies both normal equations of the points. */
  predicate LineNormalEquations(xs: seq<real>, ys: seq<real>, a0: real, a1: real)
    requires |ys| == |xs|
  {
    LineGap(xs, ys, a0, a1, 0, 1) == 0.0 && LineGap(xs, ys, a0, a1, 1, 2) == 0.0
  }

  /** How far the parabola (a0, a1, a2) is from normal equation k. */
  function ParabolaGap(xs: seq<real>, ys: seq<real>, a0: real, a1: real, a2: real, k: nat, j: nat, l: nat): real
    requires |ys| == |xs| && j == k + 1 && l == k + 2
  {
    MomentSum(xs, ys, k) - Mul(PowerSum(xs, k), a0) - Mul(PowerSum(xs, j), a1) - Mul(PowerSum(xs, l), a2)
  }

  /** The parabola y = a0 + a1·x + a2·x² satisfies the three normal equations of the points. */
  predicate ParabolaNormalEquations(xs: seq<real>, ys: seq<real>, a0: real, a1: real, a2: real)
    requires |ys| == |xs|
  {
    ParabolaGap(xs, ys, a0, a1, a2, 0, 1, 2) == 0.0 && ParabolaGap(xs, ys, a0, a1, a2, 1, 2, 3) == 0.0
    && ParabolaGap(xs, ys, a0, a1, a2, 2, 3, 4) == 0.0
  }

  /** The straight-line fit (a0, a1): singular exactly when its matrix is, otherwise the normal equations hold. */
  function CalculateFirstDegree(xs: seq<real>, ys: seq<real>): (r: Solution)
    requires |ys| == |xs|
    ensures r.Singular? <==> Det2(FirstDegreeMatrix(xs)) == 0.0
    ensures r.Solved? ==> |r.x| == 2 && LineNormalEquations(xs, ys, r.x[0], r.x[1])
  {
    var A := FirstDegreeMatrix(xs);
    var sumY, sumXY := MomentSum(xs, ys, 0), MomentSum(xs, ys, 1);
    var r := Solve2(A, [sumY, sumXY]);
    if r.Solved? then
      assert |r.x| == 2 && r.x == [r.x[0], r.x[1]];
      LineSolvesSystem(xs, ys, r.x[0], r.x[1]);
      r
    else r
  }

  /** The parabola fit (a0, a1, a2): singular exactly when its matrix is, otherwise the normal equations hold. */
  function CalculateSecondDegree(xs: seq<real>, ys: seq<real>): (r: Solution)
    requires |ys| == |xs|
    ensures r.Singular? <==> Det3(SecondDegreeMatrix(xs)) == 0.0
    ensures r.Solved? ==> |r.x| == 3 && ParabolaNormalEquations(xs, ys, r.x[0], r.x[1], r.x[2])
  {
    var A := SecondDegreeMatrix(xs);
    var sumY, sumXY, sumX2Y := MomentSum(xs, ys, 0), MomentSum(xs, ys, 1), MomentSum(xs, ys, 2);
    var r := Solve3(A, [sumY, sumXY, sumX2Y]);
    if r.Solved? then
      assert |r.x| == 3 && r.x == [r.x[0], r.x[1], r.x[2]];
      ParabolaSolvesSystem(xs, ys, r.x[0], r.x[1], r.x[2]);
      r
    else r
  }

  /** What the fitter shows: a refusal, a failure, or both fits. */
  datatype FittingOutcome =
    | InsufficientPoints
    | CalculationFailed
    | Fitted(line: seq<real>, parabola: seq<real>)

  /** At least three points are required; a singular system in either fit fails the whole calculation. */
  function CalculateFitting(xs: seq<real>, ys: seq<real>): (r: FittingOutcome)
    requires |ys| == |xs|
    ensures r.InsufficientPoints? <==> |xs| < 3
    ensures r.CalculationFailed? <==>
      |xs| >= 3 && (CalculateFirstDegree(xs, ys).Singular? || CalculateSecondDegree(xs, ys).Singular?)
    ensures r.Fitted? ==> r.line == CalculateFirstDegree(xs, ys).x && r.parabola == CalculateSecondDegree(xs, ys).x
    ensures r.Fitted? ==> |r.line| == 2 && LineNormalEquations(xs, ys, r.line[0], r.line[1])
    ensures r.Fitted? ==> |r.parabola| == 3 && ParabolaNormalEquations(xs, ys, r.parabola[0], r.parabola[1], r.parabola[2])
  {
    if |xs| < 3 then InsufficientPoints
    else
      match CalculateFirstDegree(xs, ys)
      case Singular => CalculationFailed
      case Solved(line) =>
        match CalculateSecondDegree(xs, ys)
        case Singular => CalculationFailed
        case Solved(parabola) => Fitted(line, parabola)
  }

  // ----- Values and squares -----

  /** The line c0 + c1·x at x. */
  function LineAt(c0: real, c1: real, x: real): real
  {
    c0 + Mul(c1, x)
  }

  /** The parabola c0 + c1·x + c2·x² at x. */
  function ParabolaAt(c0: real, c1: real, c2: real, x: real): real
  {
    c0 + Mul(c1, x) + Mul(c2, Mul(x, x))
  }

  function Square(d: real): real
  {
    Mul(d, d)
  }

  lemma MulPositive(a: real, b: real)
    requires a > 0.0 && b > 0.0
    ensures Mul(a, b) > 0.0
  {
    MulIsProduct();
  }

  lemma MulOfNegatives(a: real, b: real)
    requires a < 0.0 && b < 0.0
    ensures Mul(a, b) > 0.0
  {
    MulIsProduct();
    MulPositive(-a, -b);
    assert Mul(a, b) == Mul(-a, -b);
  }

  lemma SquareSign(d: real)
    ensures Square(d) >= 0.0
    ensures d != 0.0 ==> Square(d) > 0.0
  {
    if d > 0.0 {
      MulPositive(d, d);
    } else if d < 0.0 {
      MulOfNegatives(d, d);
    }
  }

  lemma SquareSplit(r: real, e: real)
    ensures Square(r + e) == Square(r) + 2.0 * Mul(r, e) + Square(e)
  {
    MulIsProduct();
  }

  // ----- The first-degree determinant -----

  predicate AllEqual(xs: seq<real>)
  {
    forall i, j | 0 <= i < |xs| && 0 <= j < |xs| :: xs[i] == xs[j]
  }

  /** Σ (x_i - x)² over the x values. */
  function SpreadAround(xs: seq<real>, x: real): (r: real)
    ensures r >= 0.0
    decreases |xs|
  {
    if |xs| == 0 then 0.0
    else
      SquareSign(xs[|xs| - 1] - x);
      SpreadAround(xs[..|xs| - 1], x) + Square(xs[|xs| - 1] - x)
  }

  /** Σ over pairs i < j of (x_i - x_j)². */
  function PairSpread(xs: seq<real>): (r: real)
    ensures r >= 0.0
    decreases |xs|
  {
    if |xs| == 0 then 0.0 else PairSpread(xs[..|xs| - 1]) + SpreadAround(xs[..|xs| - 1], xs[|xs| - 1])
  }

  lemma {:induction false} SpreadAroundExpands(xs: seq<real>, x: real)
    ensures SpreadAround(xs, x) == PowerSum(xs, 2) - 2.0 * Mul(x, PowerSum(xs, 1)) + Mul(|xs| as real, Mul(x, x))
    decreases |xs|
  {
    if |xs| > 0 {
      var p, z := xs[..|xs| - 1], xs[|xs| - 1];
      SpreadAroundExpands(p, x);
      PowSmall(z);
      SpreadStep(SpreadAround(p, x), PowerSum(p, 1), PowerSum(p, 2), |p| as real, z, Pow(z, 1), Pow(z, 2), x,
        SpreadAround(xs, x), PowerSum(xs, 1), PowerSum(xs, 2), |xs| as real);
    } else {
      MulIsProduct();
    }
  }

  lemma SpreadStep(sp: real, s1: real, s2: real, n: real, z: real, z1: real, z2: real, x: real,
                   sp': real, s1': real, s2': real, n': real)
    requires sp == s2 - 2.0 * Mul(x, s1) + Mul(n, Mul(x, x))
    requires z1 == z && z2 == Mul(z, z)
    requires sp' == sp + Square(z - x) && s1' == s1 + z1 && s2' == s2 + z2 && n' == n + 1.0
    ensures sp' == s2' - 2.0 * Mul(x, s1') + Mul(n', Mul(x, x))
  {
    MulIsProduct();
  }

  /** Lagrange's identity: n·Σx² - (Σx)² is the sum of the squared pairwise differences. */
  lemma {:induction false} DeterminantIsPairSpread(xs: seq<real>)
    ensures Mul(|xs| as real, PowerSum(xs, 2)) - Mul(PowerSum(xs, 1), PowerSum(xs, 1)) == PairSpread(xs)
    decreases |xs|
  {
    if |xs| > 0 {
      var p, z := xs[..|xs| - 1], xs[|xs| - 1];
      DeterminantIsPairSpread(p);
      SpreadAroundExpands(p, z);
      PowSmall(z);
      PairStep(|p| as real, PowerSum(p, 1), PowerSum(p, 2), PairSpread(p), SpreadAround(p, z), z, Pow(z, 1), Pow(z, 2),
        |xs| as real, PowerSum(xs, 1), PowerSum(xs, 2), PairSpread(xs));
    } else {
      MulIsProduct();
    }
  }

  lemma PairStep(n: real, s1: real, s2: real, ps: real, sa: real, x: real, x1: real, x2: real,
                 n': real, s1': real, s2': real, ps': real)
    requires Mul(n, s2) - Mul(s1, s1) == ps && sa == s2 - 2.0 * Mul(x, s1) + Mul(n, Mul(x, x))
    requires x1 == x && x2 == Mul(x, x)
    requires n' == n + 1.0 && s1' == s1 + x1 && s2' == s2 + x2 && ps' == ps + sa
    ensures Mul(n', s2') - Mul(s1', s1') == ps'
  {
    MulIsProduct();
  }

  lemma {:induction false} SpreadAroundPositive(xs: seq<real>, x: real, k: nat)
    requires k < |xs| && xs[k] != x
    ensures SpreadAround(xs, x) > 0.0
    decreases |xs|
  {
    var p := xs[..|xs| - 1];
    SquareSign(xs[|xs| - 1] - x);
    if k < |p| {
      assert p[k] == xs[k];
      SpreadAroundPositive(p, x, k);
    }
  }

  lemma {:induction false} SpreadAroundZero(xs: seq<real>, x: real)
    requires forall i | 0 <= i < |xs| :: xs[i] == x
    ensures SpreadAround(xs, x) == 0.0
    decreases |xs|
  {
    if |xs| > 0 {
      var p := xs[..|xs| - 1];
      assert forall i | 0 <= i < |p| :: p[i] == xs[i];
      SpreadAroundZero(p, x);
    }
  }

  lemma {:induction false} PairSpreadPositive(xs: seq<real>, i: nat, j: nat)
    requires i < j < |xs| && xs[i] != xs[j]
    ensures PairSpread(xs) > 0.0
    decreases |xs|
  {
    var p := xs[..|xs| - 1];
    if j < |p| {
      assert p[i] == xs[i] && p[j] == xs[j];
      PairSpreadPositive(p, i, j);
    } else {
      assert p[i] == xs[i];
      SpreadAroundPositive(p, xs[j], i);
    }
  }

  lemma {:induction false} PairSpreadZero(xs: seq<real>)
    requires AllEqual(xs)
    ensures PairSpread(xs) == 0.0
    decreases |xs|
  {
    if |xs| > 0 {
      var p := xs[..|xs| - 1];
      assert forall i | 0 <= i < |p| :: p[i] == xs[i];
      PairSpreadZero(p);
      SpreadAroundZero(p, xs[|xs| - 1]);
    }
  }

  /** n·Σx² - (Σx)² is never negative, and is zero exactly when all x values are equal. */
  lemma PowerSumDeterminant(xs: seq<real>)
    ensures Mul(|xs| as real, PowerSum(xs, 2)) - Mul(PowerSum(xs, 1), PowerSum(xs, 1)) >= 0.0
    ensures Mul(|xs| as real, PowerSum(xs, 2)) - Mul(PowerSum(xs, 1), PowerSum(xs, 1)) == 0.0 <==> AllEqual(xs)
  {
    DeterminantIsPairSpread(xs);
    if AllEqual(xs) {
      PairSpreadZero(xs);
    } else {
      var i, j :| 0 <= i < |xs| && 0 <= j < |xs| && xs[i] != xs[j];
      if i < j {
        PairSpreadPositive(xs, i, j);
      } else {
        PairSpreadPositive(xs, j, i);
      }
    }
  }

  /** The determinant of the first-degree matrix is n·Σx² - (Σx)²: never negative, zero exactly when all x values are equal. */
  lemma FirstDegreeDeterminant(xs: seq<real>)
    ensures Det2(FirstDegreeMatrix(xs)) == Mul(|xs| as real, PowerSum(xs, 2)) - Mul(PowerSum(xs, 1), PowerSum(xs, 1))
    ensures Det2(FirstDegreeMatrix(xs)) >= 0.0
    ensures Det2(FirstDegreeMatrix(xs)) == 0.0 <==> AllEqual(xs)
  {
    PowerSumDeterminant(xs);
  }

  /** The line fit fails exactly when the x values are all equal. */
  lemma FirstDegreeSingularIffAllEqual(xs: seq<real>, ys: seq<real>)
    requires |ys| == |xs|
    ensures CalculateFirstDegree(xs, ys).Singular? <==> AllEqual(xs)
  {
    FirstDegreeDeterminant(xs);
  }

  /** Three or more points on one vertical line make the whole calculation fail. */
  lemma EqualAbscissasFail(xs: seq<real>, ys: seq<real>)
    requires |ys| == |xs| && |xs| >= 3 && AllEqual(xs)
    ensures CalculateFitting(xs, ys) == CalculationFailed
  {
    FirstDegreeSingularIffAllEqual(xs, ys);
  }

  // ----- Normal equations as weighted residuals -----

  /** Σ x^k · (y - (a0 + a1·x)): the residuals of the line (a0, a1), weighted by x^k. */
  function LineResidualMoment(xs: seq<real>, ys: seq<real>, a0: real, a1: real, k: nat): real
    requires |ys| == |xs|
    decreases |xs|
  {
    if |xs| == 0 then 0.0
    else
      var x := xs[|xs| - 1];
      LineResidualMoment(xs[..|xs| - 1], ys[..|ys| - 1], a0, a1, k) + Mul(Pow(x, k), ys[|ys| - 1] - LineAt(a0, a1, x))
  }

  /** Σ x^k · (y - (a0 + a1·x + a2·x²)): the residuals of the parabola (a0, a1, a2), weighted by x^k. */
  function ParabolaResidualMoment(xs: seq<real>, ys: seq<real>, a0: real, a1: real, a2: real, k: nat): real
    requires |ys| == |xs|
    decreases |xs|
  {
    if |xs| == 0 then 0.0
    else
      var x := xs[|xs| - 1];
      ParabolaResidualMoment(xs[..|xs| - 1], ys[..|ys| - 1], a0, a1, a2, k)
      + Mul(Pow(x, k), ys[|ys| - 1] - ParabolaAt(a0, a1, a2, x))
  }

  lemma Distribute(t: real, s: real, p: real, a: real)
    requires t == s + p
    ensures Mul(t, a) == Mul(s, a) + Mul(p, a)
  {
    MulIsProduct();
  }

  lemma LineTermStep(pk: real, pj: real, x: real, y: real, a0: real, a1: real)
    requires pj == Mul(x, pk)
    ensures Mul(pk, y - LineAt(a0, a1, x)) == Mul(pk, y) - Mul(pk, a0) - Mul(pj, a1)
  {
    MulIsProduct();
  }

  lemma ParabolaTermStep(pk: real, pj: real, pl: real, x: real, y: real, a0: real, a1: real, a2: real)
    requires pj == Mul(x, pk) && pl == Mul(x, pj)
    ensures Mul(pk, y - ParabolaAt(a0, a1, a2, x)) == Mul(pk, y) - Mul(pk, a0) - Mul(pj, a1) - Mul(pl, a2)
  {
    MulIsProduct();
  }

  /** Gap k of the line, built from the power sums, is its k-th weighted residual sum. */
  lemma {:induction false} LineGapIsResidualMoment(xs: seq<real>, ys: seq<real>, a0: real, a1: real, k: nat, j: nat)
    requires |ys| == |xs| && j == k + 1
    ensures LineGap(xs, ys, a0, a1, k, j) == LineResidualMoment(xs, ys, a0, a1, k)
    decreases |xs|
  {
    if |xs| > 0 {
      var p, q, x := xs[..|xs| - 1], ys[..|ys| - 1], xs[|xs| - 1];
      LineGapIsResidualMoment(p, q, a0, a1, k, j);
      assert Pow(x, j) == Mul(x, Pow(x, k));
      Distribute(PowerSum(xs, k), PowerSum(p, k), Pow(x, k), a0);
      Distribute(PowerSum(xs, j), PowerSum(p, j), Pow(x, j), a1);
      LineTermStep(Pow(x, k), Pow(x, j), x, ys[|ys| - 1], a0, a1);
    } else {
      MulIsProduct();
    }
  }

  /** Gap k of the parabola, built from the power sums, is its k-th weighted residual sum. */
  lemma {:induction false} ParabolaGapIsResidualMoment(xs: seq<real>, ys: seq<real>, a0: real, a1: real, a2: real,
                                                       k: nat, j: nat, l: nat)
    requires |ys| == |xs| && j == k + 1 && l == k + 2
    ensures ParabolaGap(xs, ys, a0, a1, a2, k, j, l) == ParabolaResidualMoment(xs, ys, a0, a1, a2, k)
    decreases |xs|
  {
    if |xs| > 0 {
      var p, q, x := xs[..|xs| - 1], ys[..|ys| - 1], xs[|xs| - 1];
      ParabolaGapIsResidualMoment(p, q, a0, a1, a2, k, j, l);
      assert Pow(x, j) == Mul(x, Pow(x, k));
      assert Pow(x, l) == Mul(x, Pow(x, j));
      Distribute(PowerSum(xs, k), PowerSum(p, k), Pow(x, k), a0);
      Distribute(PowerSum(xs, j), PowerSum(p, j), Pow(x, j), a1);
      Distribute(PowerSum(xs, l), PowerSum(p, l), Pow(x, l), a2);
      ParabolaTermStep(Pow(x, k), Pow(x, j), Pow(x, l), x, ys[|ys| - 1], a0, a1, a2);
    } else {
      MulIsProduct();
    }
  }

  // ----- Least squares -----

  /** Σ (y - (c0 + c1·x))². */
  function LineError(xs: seq<real>, ys: seq<real>, c0: real, c1: real): real
    requires |ys| == |xs|
    decreases |xs|
  {
    if |xs| == 0 then 0.0
    else LineError(xs[..|xs| - 1], ys[..|ys| - 1], c0, c1) + Square(ys[|ys| - 1] - LineAt(c0, c1, xs[|xs| - 1]))
  }

  /** Σ (d0 + d1·x)², never negative. */
  function LineSpread(xs: seq<real>, d0: real, d1: real): (r: real)
    ensures r >= 0.0
    decreases |xs|
  {
    if |xs| == 0 then 0.0
    else
      SquareSign(LineAt(d0, d1, xs[|xs| - 1]));
      LineSpread(xs[..|xs| - 1], d0, d1) + Square(LineAt(d0, d1, xs[|xs| - 1]))
  }

  /** The residual of any line is that of (a0, a1) plus the difference of the two lines. */
  lemma LineResidual(x: real, y: real, a0: real, a1: real, c0: real, c1: real)
    ensures y - LineAt(c0, c1, x) == (y - LineAt(a0, a1, x)) + LineAt(a0 - c0, a1 - c1, x)
  {
    MulIsProduct();
  }

  /** One more point (x, y) keeps the split of the error. */
  lemma LineStep(ec: real, ea: real, g0: real, g1: real, sp: real, x: real, y: real,
                 a0: real, a1: real, c0: real, c1: real, p0: real, p1: real,
                 ec': real, ea': real, g0': real, g1': real, sp': real)
    requires ec == ea + 2.0 * (Mul(a0 - c0, g0) + Mul(a1 - c1, g1)) + sp
    requires p0 == 1.0 && p1 == x
    requires ec' == ec + Square(y - LineAt(c0, c1, x)) && ea' == ea + Square(y - LineAt(a0, a1, x))
    requires g0' == g0 + Mul(p0, y - LineAt(a0, a1, x)) && g1' == g1 + Mul(p1, y - LineAt(a0, a1, x))
    requires sp' == sp + Square(LineAt(a0 - c0, a1 - c1, x))
    ensures ec' == ea' + 2.0 * (Mul(a0 - c0, g0') + Mul(a1 - c1, g1')) + sp'
  {
    LineResidual(x, y, a0, a1, c0, c1);
    LineStepAround(ec, ea, g0, g1, sp, a0 - c0, a1 - c1, y - LineAt(a0, a1, x), LineAt(a0 - c0, a1 - c1, x), x,
      p0, p1, ec', ea', g0', g1', sp');
  }

  lemma LineStepAround(ec: real, ea: real, g0: real, g1: real, sp: real, d0: real, d1: real, r: real, e: real, x: real,
                       p0: real, p1: real, ec': real, ea': real, g0': real, g1': real, sp': real)
    requires ec == ea + 2.0 * (Mul(d0, g0) + Mul(d1, g1)) + sp
    requires e == d0 + Mul(d1, x) && p0 == 1.0 && p1 == x
    requires ec' == ec + Square(r + e) && ea' == ea + Square(r) && sp' == sp + Square(e)
    requires g0' == g0 + Mul(p0, r) && g1' == g1 + Mul(p1, r)
    ensures ec' == ea' + 2.0 * (Mul(d0, g0') + Mul(d1, g1')) + sp'
  {
    SquareSplit(r, e);
    MulIsProduct();
  }

  /** The error of any line is that of (a0, a1) plus a cross term with its residual sums and the spread of the difference. */
  lemma {:induction false} LineErrorSplits(xs: seq<real>, ys: seq<real>, a0: real, a1: real, c0: real, c1: real)
    requires |ys| == |xs|
    ensures LineError(xs, ys, c0, c1) ==
      LineError(xs, ys, a0, a1)
      + 2.0 * (Mul(a0 - c0, LineResidualMoment(xs, ys, a0, a1, 0)) + Mul(a1 - c1, LineResidualMoment(xs, ys, a0, a1, 1)))
      + LineSpread(xs, a0 - c0, a1 - c1)
    decreases |xs|
  {
    if |xs| > 0 {
      var p, q := xs[..|xs| - 1], ys[..|ys| - 1];
      LineErrorSplits(p, q, a0, a1, c0, c1);
      PowSmall(xs[|xs| - 1]);
      LineStep(LineError(p, q, c0, c1), LineError(p, q, a0, a1),
        LineResidualMoment(p, q, a0, a1, 0), LineResidualMoment(p, q, a0, a1, 1), LineSpread(p, a0 - c0, a1 - c1),
        xs[|xs| - 1], ys[|ys| - 1], a0, a1, c0, c1, Pow(xs[|xs| - 1], 0), Pow(xs[|xs| - 1], 1),
        LineError(xs, ys, c0, c1), LineError(xs, ys, a0, a1),
        LineResidualMoment(xs, ys, a0, a1, 0), LineResidualMoment(xs, ys, a0, a1, 1), LineSpread(xs, a0 - c0, a1 - c1));
    } else {
      MulIsProduct();
    }
  }

  /** A solution of the line's normal equations has no larger squared error than any other line. */
  lemma LineFitIsLeastSquares(xs: seq<real>, ys: seq<real>, a0: real, a1: real, c0: real, c1: real)
    requires |ys| == |xs| && LineNormalEquations(xs, ys, a0, a1)
    ensures LineError(xs, ys, a0, a1) <= LineError(xs, ys, c0, c1)
    ensures LineError(xs, ys, c0, c1) == LineError(xs, ys, a0, a1) + LineSpread(xs, a0 - c0, a1 - c1)
  {
    LineGapIsResidualMoment(xs, ys, a0, a1, 0, 1);
    LineGapIsResidualMoment(xs, ys, a0, a1, 1, 2);
    LineErrorSplits(xs, ys, a0, a1, c0, c1);
    MulIsProduct();
  }

  /** The line the fitter returns minimises the squared error over all lines. */
  lemma FirstDegreeIsLeastSquares(xs: seq<real>, ys: seq<real>, c0: real, c1: real)
    requires |ys| == |xs|
    ensures CalculateFirstDegree(xs, ys).Solved? ==>
      var a := CalculateFirstDegree(xs, ys).x; LineError(xs, ys, a[0], a[1]) <= LineError(xs, ys, c0, c1)
  {
    var r := CalculateFirstDegree(xs, ys);
    if r.Solved? {
      LineFitIsLeastSquares(xs, ys, r.x[0], r.x[1], c0, c1);
    }
  }

  /** Σ (y - (c0 + c1·x + c2·x²))². */
  function ParabolaError(xs: seq<real>, ys: seq<real>, c0: real, c1: real, c2: real): real
    requires |ys| == |xs|
    decreases |xs|
  {
    if |xs| == 0 then 0.0
    else ParabolaError(xs[..|xs| - 1], ys[..|ys| - 1], c0, c1, c2) + Square(ys[|ys| - 1] - ParabolaAt(c0, c1, c2, xs[|xs| - 1]))
  }

  /** Σ (d0 + d1·x + d2·x²)², never negative. */
  function ParabolaSpread(xs: seq<real>, d0: real, d1: real, d2: real): (r: real)
    ensures r >= 0.0
    decreases |xs|
  {
    if |xs| == 0 then 0.0
    else
      SquareSign(ParabolaAt(d0, d1, d2, xs[|xs| - 1]));
      ParabolaSpread(xs[..|xs| - 1], d0, d1, d2) + Square(ParabolaAt(d0, d1, d2, xs[|xs| - 1]))
  }

  /** The residual of any parabola is that of (a0, a1, a2) plus the difference of the two parabolas. */
  lemma ParabolaResidual(x: real, y: real, a0: real, a1: real, a2: real, c0: real, c1: real, c2: real)
    ensures y - ParabolaAt(c0, c1, c2, x) == (y - ParabolaAt(a0, a1, a2, x)) + ParabolaAt(a0 - c0, a1 - c1, a2 - c2, x)
  {
    MulIsProduct();
  }

  /** One more point (x, y) keeps the split of the error. */
  lemma ParabolaStep(ec: real, ea: real, g0: real, g1: real, g2: real, sp: real, x: real, y: real,
                     a0: real, a1: real, a2: real, c0: real, c1: real, c2: real, p0: real, p1: real, p2: real,
                     ec': real, ea': real, g0': real, g1': real, g2': real, sp': real)
    requires ec == ea + 2.0 * (Mul(a0 - c0, g0) + Mul(a1 - c1, g1) + Mul(a2 - c2, g2)) + sp
    requires p0 == 1.0 && p1 == x && p2 == Mul(x, x)
    requires ec' == ec + Square(y - ParabolaAt(c0, c1, c2, x)) && ea' == ea + Square(y - ParabolaAt(a0, a1, a2, x))
    requires g0' == g0 + Mul(p0, y - ParabolaAt(a0, a1, a2, x))
    requires g1' == g1 + Mul(p1, y - ParabolaAt(a0, a1, a2, x))
    requires g2' == g2 + Mul(p2, y - ParabolaAt(a0, a1, a2, x))
    requires sp' == sp + Square(ParabolaAt(a0 - c0, a1 - c1, a2 - c2, x))
    ensures ec' == ea' + 2.0 * (Mul(a0 - c0, g0') + Mul(a1 - c1, g1') + Mul(a2 - c2, g2')) + sp'
  {
    ParabolaResidual(x, y, a0, a1, a2, c0, c1, c2);
    ParabolaStepAround(ec, ea, g0, g1, g2, sp, a0 - c0, a1 - c1, a2 - c2,
      y - ParabolaAt(a0, a1, a2, x), ParabolaAt(a0 - c0, a1 - c1, a2 - c2, x), x,
      p0, p1, p2, ec', ea', g0', g1', g2', sp');
  }

  lemma ParabolaStepAround(ec: real, ea: real, g0: real, g1: real, g2: real, sp: real,
                           d0: real, d1: real, d2: real, r: real, e: real, x: real, p0: real, p1: real, p2: real,
                           ec': real, ea': real, g0': real, g1': real, g2': real, sp': real)
    requires ec == ea + 2.0 * (Mul(d0, g0) + Mul(d1, g1) + Mul(d2, g2)) + sp
    requires e == d0 + Mul(d1, x) + Mul(d2, Mul(x, x)) && p0 == 1.0 && p1 == x && p2 == Mul(x, x)
    requires ec' == ec + Square(r + e) && ea' == ea + Square(r) && sp' == sp + Square(e)
    requires g0' == g0 + Mul(p0, r) && g1' == g1 + Mul(p1, r) && g2' == g2 + Mul(p2, r)
    ensures ec' == ea' + 2.0 * (Mul(d0, g0') + Mul(d1, g1') + Mul(d2, g2')) + sp'
  {
    SquareSplit(r, e);
    MulIsProduct();
  }

  /** The error of any parabola is that of (a0, a1, a2) plus a cross term with its residual sums and the spread of the difference. */
  lemma {:induction false} ParabolaErrorSplits(xs: seq<real>, ys: seq<real>, a0: real, a1: real, a2: real,
                                                c0: real, c1: real, c2: real)
    requires |ys| == |xs|
    ensures ParabolaError(xs, ys, c0, c1, c2) ==
      ParabolaError(xs, ys, a0, a1, a2)
      + 2.0 * (Mul(a0 - c0, ParabolaResidualMoment(xs, ys, a0, a1, a2, 0))
               + Mul(a1 - c1, ParabolaResidualMoment(xs, ys, a0, a1, a2, 1))
               + Mul(a2 - c2, ParabolaResidualMoment(xs, ys, a0, a1, a2, 2)))
      + ParabolaSpread(xs, a0 - c0, a1 - c1, a2 - c2)
    decreases |xs|
  {
    if |xs| > 0 {
      var p, q := xs[..|xs| - 1], ys[..|ys| - 1];
      ParabolaErrorSplits(p, q, a0, a1, a2, c0, c1, c2);
      PowSmall(xs[|xs| - 1]);
      ParabolaStep(ParabolaError(p, q, c0, c1, c2), ParabolaError(p, q, a0, a1, a2),
        ParabolaResidualMoment(p, q, a0, a1, a2, 0), ParabolaResidualMoment(p, q, a0, a1, a2, 1),
        ParabolaResidualMoment(p, q, a0, a1, a2, 2), ParabolaSpread(p, a0 - c0, a1 - c1, a2 - c2),
        xs[|xs| - 1], ys[|ys| - 1], a0, a1, a2, c0, c1, c2, Pow(xs[|xs| - 1], 0), Pow(xs[|xs| - 1], 1), Pow(xs[|xs| - 1], 2),
        ParabolaError(xs, ys, c0, c1, c2), ParabolaError(xs, ys, a0, a1, a2),
        ParabolaResidualMoment(xs, ys, a0, a1, a2, 0), ParabolaResidualMoment(xs, ys, a0, a1, a2, 1),
        ParabolaResidualMoment(xs, ys, a0, a1, a2, 2), ParabolaSpread(xs, a0 - c0, a1 - c1, a2 - c2));
    } else {
      MulIsProduct();
    }
  }

  /** A solution of the parabola's normal equations has no larger squared error than any other parabola. */
  lemma ParabolaFitIsLeastSquares(xs: seq<real>, ys: seq<real>, a0: real, a1: real, a2: real,
                                  c0: real, c1: real, c2: real)
    requires |ys| == |xs| && ParabolaNormalEquations(xs, ys, a0, a1, a2)
    ensures ParabolaError(xs, ys, a0, a1, a2) <= ParabolaError(xs, ys, c0, c1, c2)
    ensures ParabolaError(xs, ys, c0, c1, c2) == ParabolaError(xs, ys, a0, a1, a2) + ParabolaSpread(xs, a0 - c0, a1 - c1, a2 - c2)
  {
    ParabolaGapIsResidualMoment(xs, ys, a0, a1, a2, 0, 1, 2);
    ParabolaGapIsResidualMoment(xs, ys, a0, a1, a2, 1, 2, 3);
    ParabolaGapIsResidualMoment(xs, ys, a0, a1, a2, 2, 3, 4);
    ParabolaErrorSplits(xs, ys, a0, a1, a2, c0, c1, c2);
    MulIsProduct();
  }

  /** The parabola the fitter returns minimises the squared error over all parabolas. */
  lemma SecondDegreeIsLeastSquares(xs: seq<real>, ys: seq<real>, c0: real, c1: real, c2: real)
    requires |ys| == |xs|
    ensures CalculateSecondDegree(xs, ys).Solved? ==>
      var a := CalculateSecondDegree(xs, ys).x; ParabolaError(xs, ys, a[0], a[1], a[2]) <= ParabolaError(xs, ys, c0, c1, c2)
  {
    var r := CalculateSecondDegree(xs, ys);
    if r.Solved? {
      ParabolaFitIsLeastSquares(xs, ys, r.x[0], r.x[1], r.x[2], c0, c1, c2);
    }
  }

  // ----- Exact data -----

  lemma ZeroResidual(w: real, r: real)
    requires r == 0.0
    ensures Mul(w, r) == 0.0
  {
    MulIsProduct();
  }

  /** Points exactly on y = c0 + c1·x leave every weighted residual sum of that line at zero. */
  lemma {:induction false} ExactLineHasNoResidual(xs: seq<real>, ys: seq<real>, c0: real, c1: real, k: nat)
    requires |ys| == |xs|
    requires forall i | 0 <= i < |xs| :: ys[i] == LineAt(c0, c1, xs[i])
    ensures LineResidualMoment(xs, ys, c0, c1, k) == 0.0
    decreases |xs|
  {
    if |xs| > 0 {
      var p, q, x := xs[..|xs| - 1], ys[..|ys| - 1], xs[|xs| - 1];
      assert forall i | 0 <= i < |p| :: p[i] == xs[i] && q[i] == ys[i];
      ExactLineHasNoResidual(p, q, c0, c1, k);
      ZeroResidual(Pow(x, k), ys[|ys| - 1] - LineAt(c0, c1, x));
    }
  }

  /** Points exactly on y = c0 + c1·x + c2·x² leave every weighted residual sum of that parabola at zero. */
  lemma {:induction false} ExactParabolaHasNoResidual(xs: seq<real>, ys: seq<real>, c0: real, c1: real, c2: real, k: nat)
    requires |ys| == |xs|
    requires forall i | 0 <= i < |xs| :: ys[i] == ParabolaAt(c0, c1, c2, xs[i])
    ensures ParabolaResidualMoment(xs, ys, c0, c1, c2, k) == 0.0
    decreases |xs|
  {
    if |xs| > 0 {
      var p, q, x := xs[..|xs| - 1], ys[..|ys| - 1], xs[|xs| - 1];
      assert forall i | 0 <= i < |p| :: p[i] == xs[i] && q[i] == ys[i];
      ExactParabolaHasNoResidual(p, q, c0, c1, c2, k);
      ZeroResidual(Pow(x, k), ys[|ys| - 1] - ParabolaAt(c0, c1, c2, x));
    }
  }

  /** (a0, a1) solves the fitter's first-degree system exactly when it satisfies the line's normal equations. */
  lemma LineSolvesSystem(xs: seq<real>, ys: seq<real>, a0: real, a1: real)
    requires |ys| == |xs|
    ensures Solves(FirstDegreeMatrix(xs), [MomentSum(xs, ys, 0), MomentSum(xs, ys, 1)], [a0, a1])
      <==> LineNormalEquations(xs, ys, a0, a1)
  {
    SolvesByMulRows2(FirstDegreeMatrix(xs), [MomentSum(xs, ys, 0), MomentSum(xs, ys, 1)], a0, a1);
  }

  /** (a0, a1, a2) solves the fitter's second-degree system exactly when it satisfies the parabola's normal equations. */
  lemma ParabolaSolvesSystem(xs: seq<real>, ys: seq<real>, a0: real, a1: real, a2: real)
    requires |ys| == |xs|
    ensures Solves(SecondDegreeMatrix(xs), [MomentSum(xs, ys, 0), MomentSum(xs, ys, 1), MomentSum(xs, ys, 2)], [a0, a1, a2])
      <==> ParabolaNormalEquations(xs, ys, a0, a1, a2)
  {
    SolvesByMulRows3(SecondDegreeMatrix(xs), [MomentSum(xs, ys, 0), MomentSum(xs, ys, 1), MomentSum(xs, ys, 2)], a0, a1, a2);
  }

  /** Points exactly on a line with at least two distinct x values give back that line. */
  lemma ExactLineIsRecovered(xs: seq<real>, ys: seq<real>, c0: real, c1: real)
    requires |ys| == |xs| && !AllEqual(xs)
    requires forall i | 0 <= i < |xs| :: ys[i] == LineAt(c0, c1, xs[i])
    ensures CalculateFirstDegree(xs, ys) == Solved([c0, c1])
  {
    ExactLineHasNoResidual(xs, ys, c0, c1, 0);
    ExactLineHasNoResidual(xs, ys, c0, c1, 1);
    LineGapIsResidualMoment(xs, ys, c0, c1, 0, 1);
    LineGapIsResidualMoment(xs, ys, c0, c1, 1, 2);
    LineSolvesSystem(xs, ys, c0, c1);
    FirstDegreeDeterminant(xs);
    Solve2Unique(FirstDegreeMatrix(xs), [MomentSum(xs, ys, 0), MomentSum(xs, ys, 1)], [c0, c1]);
  }

  /** Points exactly on a parabola give back that parabola whenever its system is nonsingular. */
  lemma ExactParabolaIsRecovered(xs: seq<real>, ys: seq<real>, c0: real, c1: real, c2: real)
    requires |ys| == |xs| && Det3(SecondDegreeMatrix(xs)) != 0.0
    requires forall i | 0 <= i < |xs| :: ys[i] == ParabolaAt(c0, c1, c2, xs[i])
    ensures CalculateSecondDegree(xs, ys) == Solved([c0, c1, c2])
  {
    ExactParabolaHasNoResidual(xs, ys, c0, c1, c2, 0);
    ExactParabolaHasNoResidual(xs, ys, c0, c1, c2, 1);
    ExactParabolaHasNoResidual(xs, ys, c0, c1, c2, 2);
    ParabolaGapIsResidualMoment(xs, ys, c0, c1, c2, 0, 1, 2);
    ParabolaGapIsResidualMoment(xs, ys, c0, c1, c2, 1, 2, 3);
    ParabolaGapIsResidualMoment(xs, ys, c0, c1, c2, 2, 3, 4);
    ParabolaSolvesSystem(xs, ys, c0, c1, c2);
    Solve3Unique(SecondDegreeMatrix(xs), [MomentSum(xs, ys, 0), MomentSum(xs, ys, 1), MomentSum(xs, ys, 2)], [c0, c1, c2]);
  }
}
