# Numerical methods: root finding, interpolation and curve fitting

A Dafny model of the numerical core of a desktop numerical-methods application:

- **Root finders** (`NumericalMethods` in `rootsOfNonLinear.py`): bisection, the secant method
  and simple (fixed-point) iteration. Each validates its inputs, then runs a bounded loop that
  appends one record per step to a trace and returns the trace or raises.
- **Newton–Raphson** (`NewtonRaphsonSolver.solve` in `newton_Raphson.py`), with its guard
  against a vanishing derivative.
- **Interpolation** (`InterpolationMethods` in `interpolation/mainInterpolation.py`): Lagrange's
  form evaluated by a double loop, and Newton's divided-difference table followed by the Newton
  form. The "details" classes `LagrangeDetails` and `NewtonDetails`
  (`interpolation/moreDetails.py`) produce the basis polynomials, the polynomial terms and the
  formatted table as text.
- **Least-squares curve fitting** (`curveFitting.py`): the normal equations of a line and of a
  parabola, built from power sums, solved as a 2 × 2 and a 3 × 3 system. The whole calculation
  is refused for fewer than three points, and it fails when a system is singular.

Modules and files:

| file | module | form |
|---|---|---|
| `numeric.dfy` | `Numeric` | shared vocabulary: `Option`, `Abs`, `Precision` (= 10^-fixed_digits) |
| `roots_of_nonlinear.dfy` | `RootsOfNonLinear` | loop methods; the trace predicates that specify them, and lemmas |
| `newton_raphson.dfy` | `NewtonRaphson` | loop method; trace predicates and lemmas |
| `interpolation_spec.dfy` | `InterpolationSpec` | recursive definitions of the Lagrange and Newton forms; their theory |
| `interpolation.dfy` | `Interpolation` | the loop methods, including the in-place `array2` table |
| `interpolation_details.dfy` | `InterpolationDetails` | classes `LagrangeDetails` and `NewtonDetails` |
| `linear_system.dfy` | `LinearSystem` | 2 × 2 and 3 × 3 solve by Cramer's rule: singular iff det = 0; solution unique |
| `curve_fitting.dfy` | `CurveFitting` | pure functions; normal equations and least-squares lemmas |

Numbers are exact reals throughout. Every loop method is proved against a predicate saying what
each record of its trace must be and why the loop stopped. Lemmas then connect those records to
the mathematics:

- bisection keeps a sign-changing bracket, and its width halves at every step;
- secant steps land on the chord root;
- a fixed-point run stopped by the oscillation test has found a cycle;
- a Newton step lands on the root of the tangent;
- the Newton form equals the Lagrange form, and both pass through the data;
- the fitted line and parabola minimise the squared error, and recover exact data.

Behaviour of the code that is easy to miss:

- Simple iteration and the secant method make their divergence and oscillation checks after
  the step's record is appended, not before.
- The oscillation test fires only once more than five records exist (`i > 4`), and it looks at
  the current-x value of the last four records.
- Newton–Raphson's divergence is raised inside its `try` block, so it surfaces as "Error in
  iteration k", like an evaluator exception (`NewtonRaphson.Cause`).
- A fitting system fails only when it is exactly singular. The model has no notion of
  "near-singular".

## Model

| member | source | states |
|---|---|---|
| Numeric.Precision | rootsOfNonLinear.py:77 | the stopping threshold 10^-fixed_digits is positive for every integer fixed_digits |
| RootsOfNonLinear.Bisection | rootsOfNonLinear.py:29-87 | input checks in source order fail with no records; otherwise every record is the midpoint step on the bracket the previous step kept; there are 1..max_iter records; a converged run ends on a record passing \|f(c)\| < tol or \|b−a\| < 10^-d; a failed run has exactly max_iter records, none converged, and reports the bracket the last step left |
| RootsOfNonLinear.BisectionStops | rootsOfNonLinear.py:77 | the bisection stop test: \|f(c)\| < tol or \|b − a\| < 10^-d on the step's own bracket |
| RootsOfNonLinear.NarrowedBracket | rootsOfNonLinear.py:80-83 | the bracket kept after a step: [a, c] when f(a)·f(c) < 0, otherwise [c, b] |
| RootsOfNonLinear.BisectionTraceExtend | rootsOfNonLinear.py:71-83 | appending the step on the kept bracket to a trace whose last record did not stop keeps it a bisection trace |
| RootsOfNonLinear.SignChangeMoves | rootsOfNonLinear.py:80-83 | when f(a)·f(c) > 0 the sign change lies in [c, b] |
| RootsOfNonLinear.BisectionBracketInvariant | rootsOfNonLinear.py:59-83 | on valid input, every step works on a bracket with a < c < b and f(a)·f(b) < 0 and is numbered k+1; a step that goes on has f(a)·f(c) ≠ 0, and the next bracket is exactly half as wide |
| RootsOfNonLinear.BisectionWidth | rootsOfNonLinear.py:72-83 | the bracket of step k has width (b0 − a0)/2^k |
| RootsOfNonLinear.ChordRoot | rootsOfNonLinear.py:133 | the secant update x1 − f(x1)·(x1 − x0)/(f(x1) − f(x0)) |
| RootsOfNonLinear.SecantConverges | rootsOfNonLinear.py:136-140 | the two secant stop tests, \|f(x1)\| < tol or \|x_next − x1\| < 10^-d |
| RootsOfNonLinear.ChordRootIsZero | rootsOfNonLinear.py:133 | the secant update is the zero of the chord through (x0, f(x0)) and (x1, f(x1)) |
| RootsOfNonLinear.SecantTraceExtend | rootsOfNonLinear.py:125-147 | appending the step from the handed-on guesses keeps a trace a secant trace |
| RootsOfNonLinear.Secant | rootsOfNonLinear.py:90-151 | input checks in source order fail with no records; otherwise at most max_iter records, each the chord step from the previous record's (x1, x_next); a converged run ends on a record passing one of the two tests; a failure is one of: a denominator below 1e-10 (nothing recorded for that step), the last record jumping beyond 1e6 without converging, or max_iter records with the last x_next reported |
| RootsOfNonLinear.SecantGuessesShift | rootsOfNonLinear.py:147 | record k+1 starts from record k's x1 and x_next, numbered one higher |
| RootsOfNonLinear.SecantStepOnChord | rootsOfNonLinear.py:128-134 | every recorded step starts from distinct guesses with distinct f values, records f(x1), and its x_next is the chord root |
| RootsOfNonLinear.FixedPointConverges | rootsOfNonLinear.py:206-209 | the simple-iteration stop test: \|g(x) − x\| < tol or \|g(x) − x\|/(\|g(x)\| + 1e-10) < 10^-d |
| RootsOfNonLinear.Oscillates | rootsOfNonLinear.py:221 | the oscillation test: more than five records, and at most two distinct current-x values among the last four |
| RootsOfNonLinear.OscillationTest | rootsOfNonLinear.py:221 | the set-size computation the loop makes gives exactly Oscillates on the records so far |
| RootsOfNonLinear.FixedPointTraceExtend | rootsOfNonLinear.py:194-227 | appending (k+1, x, g(x)) at the x the previous step handed on keeps a trace a fixed-point trace |
| RootsOfNonLinear.SimpleIteration | rootsOfNonLinear.py:153-232 | max_iter ≤ 0 and tol ≤ 0 fail first with no records; otherwise at most max_iter records (k+1, x_k, g(x_k)); a converged run ends on a record passing the absolute or relative test; a failure is one of: g raising at the x it was given (nothing recorded for that step), the last record going beyond 1e6 without converging, the oscillation test firing on it, or max_iter records that each let the loop go on |
| RootsOfNonLinear.FixedPointFollowsIterates | rootsOfNonLinear.py:194-227 | record k holds the k-th and (k+1)-th iterates of g from x0 |
| RootsOfNonLinear.IterateRepeats | rootsOfNonLinear.py:196-227 | once two iterates agree, all later iterates agree at the same distance |
| RootsOfNonLinear.OscillationRevisits | rootsOfNonLinear.py:221 | when the oscillation test fires, two of the last four records start from the same x |
| RootsOfNonLinear.OscillationIsCycle | rootsOfNonLinear.py:220-225 | a run stopped by the oscillation test has found a cycle of g among its last four iterates |
| NewtonRaphson.Sign | newton_Raphson.py:68 | numpy's sign: 1, −1 or 0 by the sign of x |
| NewtonRaphson.Divisor | newton_Raphson.py:64-68 | the divisor is never below 1e-10 in magnitude, equals f′(x) when \|f′(x)\| ≥ 1e-10, keeps the sign of f′(x), and is at most 2e-10 in magnitude after a nudge |
| NewtonRaphson.NewtonMap | newton_Raphson.py:61-70 | one Newton update x − f(x)/Divisor(f′(x)), or none when f or f′ raises at x |
| NewtonRaphson.NewtonConverges | newton_Raphson.py:75 | the Newton stop test on a record: \|f(x)\| < tol or step size < tol |
| NewtonRaphson.NewtonTraceExtend | newton_Raphson.py:70-73 | appending the record made at the next Newton iterate keeps a trace a Newton trace |
| NewtonRaphson.Iteration | newton_Raphson.py:60-81 | one loop pass: raises exactly when the next Newton iterate does not exist; its record extends the trace; the flat-derivative exit converges; otherwise it moves to the next Newton iterate |
| NewtonRaphson.Solve | newton_Raphson.py:54-86 | at most max(max_iter, 0) records, each made at the k-th Newton iterate with f there and \|x_next − x\| (0 at the flat exit); a converged run ends on a record passing the test; "Error in iteration k" reports either an evaluator raising at the next iterate (which then does not exist) or a record whose next iterate lies beyond 1e6; "Failed to converge" after max_iter records that let the loop go on |
| NewtonRaphson.NewtonRecordsFollowMap | newton_Raphson.py:70-81 | each record after the first is at the Newton update of the one before, numbered one higher |
| NewtonRaphson.NewtonUpdateIsTangentRoot | newton_Raphson.py:70 | the update is the zero of the tangent line with the slope divided by, and stays put exactly when f(x) = 0 |
| NewtonRaphson.NewtonErrorZeroIffRoot | newton_Raphson.py:70-73 | off the flat exit, a recorded step size is zero exactly when f vanishes at the record |
| InterpolationSpec.Lagrange | interpolation/mainInterpolation.py:22-27 | the Lagrange polynomial Σ y_i·Π_{j≠i} (x − x_j)/(x_i − x_j), defined recursively over windows of nodes |
| InterpolationSpec.DividedDifference | interpolation/mainInterpolation.py:37-42 | f[x_i] = y_i and f[x_i..x_{i+c}] = (f[x_{i+1}..x_{i+c}] − f[x_i..x_{i+c−1}])/(x_{i+c} − x_i) |
| InterpolationSpec.Newton | interpolation/mainInterpolation.py:45-49 | the Newton form Σ_j f[x_0..x_j]·Π_{k<j} (x − x_k) |
| InterpolationSpec.DDTableIsTable | interpolation/mainInterpolation.py:36-42 | the table of divided differences obeys the recurrence: column 0 holds the y values, and (x_{i+c} − x_i)·T[i][c] = T[i+1][c−1] − T[i][c−1] |
| InterpolationSpec.DDTableQuotients | interpolation/mainInterpolation.py:37-42 | column 0 holds the y values and every entry of column c ≥ 1 is the quotient the loop computes from column c − 1 |
| InterpolationSpec.NewtonTables | interpolation/mainInterpolation.py:45-49 | tables of running products and partial sums exist whose last entry is the Newton form |
| InterpolationSpec.LagrangeTables | interpolation/mainInterpolation.py:22-27 | tables of partial basis products and partial sums exist whose full-window entry is the Lagrange form |
| InterpolationSpec.NewtonShift | interpolation/mainInterpolation.py:39-49 | shifting the window one node right changes the Newton form by one product term |
| InterpolationSpec.NewtonNeville | interpolation/mainInterpolation.py:39-49 | Neville's recurrence for the Newton forms on windows |
| InterpolationSpec.WindowNeville | interpolation/mainInterpolation.py:22-27 | Neville's recurrence for the Lagrange forms on windows |
| InterpolationSpec.NewtonIsLagrangeOnWindow | interpolation/mainInterpolation.py:18-51 | on every window the Newton and the Lagrange forms agree |
| InterpolationSpec.NewtonEqualsLagrange | interpolation/mainInterpolation.py:18-51 | on distinct nodes the two routines compute the same polynomial |
| InterpolationSpec.BasisVanishesAtOtherNode | interpolation/mainInterpolation.py:24-26 | a basis polynomial vanishes at every other node |
| InterpolationSpec.BasisIsOneAtOwnNode | interpolation/mainInterpolation.py:24-26 | a basis polynomial is 1 at its own node |
| InterpolationSpec.BasisKronecker | interpolation/mainInterpolation.py:22-26 | the basis polynomials are the Kronecker delta on the nodes |
| InterpolationSpec.LagrangeAtNode | interpolation/mainInterpolation.py:18-29 | the Lagrange polynomial passes through every data point |
| InterpolationSpec.NewtonAtNode | interpolation/mainInterpolation.py:32-51 | the Newton polynomial passes through every data point |
| InterpolationSpec.DividedDifferenceOfConstant | interpolation/mainInterpolation.py:39-42 | divided differences of order ≥ 1 of constant data are 0 |
| InterpolationSpec.NewtonSumOfConstant | interpolation/mainInterpolation.py:45-49 | the Newton form of constant data is the constant |
| InterpolationSpec.LagrangeOfConstant | interpolation/mainInterpolation.py:18-29 | the Lagrange form of constant data is the constant |
| InterpolationSpec.LagrangeOfOnePoint | interpolation/mainInterpolation.py:18-29 | with a single point the Lagrange routine gives y_0 at every x |
| Interpolation.LagrangeInterpolation | interpolation/mainInterpolation.py:18-29 | the double loop returns the Lagrange polynomial at x |
| Interpolation.DividedDifferenceTable | interpolation/mainInterpolation.py:33-42 | a fresh n × n array whose entry (i, c) is f[x_i..x_{i+c}] when i + c < n and 0 otherwise |
| Interpolation.FillColumn | interpolation/mainInterpolation.py:40-42 | one outer pass fills column j from column j − 1 and changes nothing else |
| Interpolation.NewtonDividedDifference | interpolation/mainInterpolation.py:32-51 | no points is reported; otherwise the value is the Newton polynomial at x, returned with the divided-difference table |
| InterpolationDetails.Join | interpolation/moreDetails.py:20 | joining no parts gives "", one part gives that part |
| InterpolationDetails.NatToString | interpolation/moreDetails.py:70 | the decimal text of a count is non-empty and made of digits |
| InterpolationDetails.BasisValuesGiveLagrange | interpolation/moreDetails.py:30-38 | summing y_i times the basis values gives the Lagrange polynomial |
| InterpolationDetails.LagrangeDetails.constructor | interpolation/moreDetails.py:8-11 | stores the points; n is their count |
| InterpolationDetails.LagrangeDetails.BasisFactors | interpolation/moreDetails.py:16-19 | basis polynomial i has n − 1 factors, one per other node |
| InterpolationDetails.LagrangeDetails.GetBasisPolynomials | interpolation/moreDetails.py:13-21 | n strings; string i joins the factors of every other node, in node order, with " * " |
| InterpolationDetails.LagrangeDetails.GetFullPolynomial | interpolation/moreDetails.py:23-28 | the n terms "y_i * (basis_i)" joined with " + " |
| InterpolationDetails.LagrangeDetails.EvaluateBasisAtPoint | interpolation/moreDetails.py:30-38 | n values; value i is basis polynomial i at x |
| InterpolationDetails.EvaluatedBasisAtNode | interpolation/moreDetails.py:30-38 | at node m the basis values are 1 at position m and 0 elsewhere |
| InterpolationDetails.NewtonDetails.constructor | interpolation/moreDetails.py:41-55 | stores the points and a fresh divided-difference table |
| InterpolationDetails.NewtonDetails.GetPolynomialTerms | interpolation/moreDetails.py:57-65 | n terms; term i is f[x_0..x_i] with 4 decimals followed by the node factors (x − x_0)…(x − x_{i−1}) |
| InterpolationDetails.NewtonDetails.Headers | interpolation/moreDetails.py:68-70 | n + 1 headers |
| InterpolationDetails.NewtonDetails.TableRow | interpolation/moreDetails.py:73-77 | row i has n − i + 1 cells |
| InterpolationDetails.NewtonDetails.GetFormattedTable | interpolation/moreDetails.py:67-79 | n + 1 rows: the headers "x", "f(x)", "f[1]".."f[n−1]", then row i holding x_i and the n − i divided differences starting at node i |
| LinearSystem.SolvesByRows2 | curveFitting.py:195-197 | a pair solves a 2 × 2 system exactly when both row equations hold |
| LinearSystem.SolvesByRows3 | curveFitting.py:211-215 | a triple solves a 3 × 3 system exactly when all three row equations hold |
| LinearSystem.Det2IsProduct | curveFitting.py:195-197 | the determinant that decides singularity is ad − bc |
| LinearSystem.Solve2 | curveFitting.py:197 | np.linalg.solve on 2 × 2: singular exactly when det = 0, otherwise a solution |
| LinearSystem.Cramer2 | curveFitting.py:197 | Cramer's rule solves a nonsingular 2 × 2 system |
| LinearSystem.Solve3 | curveFitting.py:215 | np.linalg.solve on 3 × 3: singular exactly when det = 0, otherwise a solution |
| LinearSystem.Cramer3 | curveFitting.py:215 | Cramer's rule solves a nonsingular 3 × 3 system |
| LinearSystem.CramerRow3 | curveFitting.py:215 | Laplace expansion: each row dotted with the Cramer numerators is det times the right-hand side |
| LinearSystem.Solve2Unique | curveFitting.py:197 | any solution of a nonsingular 2 × 2 system is the one returned |
| LinearSystem.Solve3Unique | curveFitting.py:215 | any solution of a nonsingular 3 × 3 system is the one returned |
| LinearSystem.SolutionUnique3 | curveFitting.py:215 | a nonsingular 3 × 3 system has at most one solution |
| LinearSystem.Kernel3 | curveFitting.py:215 | a nonsingular 3 × 3 matrix sends only zero to zero |
| CurveFitting.PowerSum | curveFitting.py:190-206 | Σ x^k over the points, the pandas sums n, Σx, Σx², Σx³, Σx⁴ |
| CurveFitting.MomentSum | curveFitting.py:191-209 | Σ x^k·y over the points, the pandas sums Σy, Σxy, Σx²y |
| CurveFitting.PowerSumZero | curveFitting.py:189 | the zeroth power sum is the number of points |
| CurveFitting.FirstDegreeMatrix | curveFitting.py:189-195 | the matrix [[n, Σx], [Σx, Σx²]]: entry (i, j) is Σ x^(i+j) |
| CurveFitting.SecondDegreeMatrix | curveFitting.py:202-213 | the 3 × 3 matrix of n, Σx .. Σx⁴: entry (i, j) is Σ x^(i+j), symmetric |
| CurveFitting.CalculateFirstDegree | curveFitting.py:188-199 | fails exactly when its matrix is singular; otherwise (a0, a1) satisfies both normal equations of the line |
| CurveFitting.CalculateSecondDegree | curveFitting.py:201-217 | fails exactly when its matrix is singular; otherwise (a0, a1, a2) satisfies the three normal equations of the parabola |
| CurveFitting.CalculateFitting | curveFitting.py:221-233 | refused exactly when fewer than 3 points; failed exactly when either system is singular; otherwise both fits, each satisfying its normal equations |
| CurveFitting.SpreadAroundExpands | curveFitting.py:193-195 | Σ(x_i − x)² = Σx² − 2xΣx + n x² |
| CurveFitting.DeterminantIsPairSpread | curveFitting.py:195 | Lagrange's identity: n·Σx² − (Σx)² is the sum of squared pairwise differences |
| CurveFitting.PairSpreadPositive | curveFitting.py:195 | two distinct x values make the pairwise spread positive |
| CurveFitting.PairSpreadZero | curveFitting.py:195 | equal x values make the pairwise spread zero |
| CurveFitting.PowerSumDeterminant | curveFitting.py:195-197 | n·Σx² − (Σx)² ≥ 0, and it is 0 exactly when all x values are equal |
| CurveFitting.FirstDegreeDeterminant | curveFitting.py:195-197 | the line system's determinant is n·Σx² − (Σx)²: never negative, 0 exactly when all x are equal |
| CurveFitting.FirstDegreeSingularIffAllEqual | curveFitting.py:188-199 | the line fit fails exactly when all x values are equal |
| CurveFitting.EqualAbscissasFail | curveFitting.py:278-280 | three or more points on one vertical line make the calculation fail with the linear-algebra error |
| CurveFitting.LineGapIsResidualMoment | curveFitting.py:189-196 | normal equation k of the line, built from sums, is Σ x^k·(y − (a0 + a1x)) |
| CurveFitting.ParabolaGapIsResidualMoment | curveFitting.py:202-214 | normal equation k of the parabola, built from sums, is Σ x^k·(y − (a0 + a1x + a2x²)) |
| CurveFitting.LineErrorSplits | curveFitting.py:188-199 | the squared error of any line splits into that of (a0, a1), a cross term with its residual sums, and the spread of the difference |
| CurveFitting.LineFitIsLeastSquares | curveFitting.py:188-199 | a solution of the normal equations has no larger squared error than any line, and the excess is the spread of the difference |
| CurveFitting.FirstDegreeIsLeastSquares | curveFitting.py:188-199 | the fitted line minimises the squared error over all lines |
| CurveFitting.ParabolaErrorSplits | curveFitting.py:201-217 | the same split for parabolas |
| CurveFitting.ParabolaFitIsLeastSquares | curveFitting.py:201-217 | a solution of the normal equations has no larger squared error than any parabola |
| CurveFitting.SecondDegreeIsLeastSquares | curveFitting.py:201-217 | the fitted parabola minimises the squared error over all parabolas |
| CurveFitting.ExactLineHasNoResidual | curveFitting.py:188-199 | points on a line leave every weighted residual sum of that line at 0 |
| CurveFitting.ExactParabolaHasNoResidual | curveFitting.py:201-217 | points on a parabola leave every weighted residual sum of that parabola at 0 |
| CurveFitting.LineSolvesSystem | curveFitting.py:195-197 | (a0, a1) solves the line system exactly when it satisfies the normal equations |
| CurveFitting.ParabolaSolvesSystem | curveFitting.py:211-215 | (a0, a1, a2) solves the parabola system exactly when it satisfies the normal equations |
| CurveFitting.ExactLineIsRecovered | curveFitting.py:188-199 | points exactly on a line, with two distinct x values, give back that line |
| CurveFitting.ExactParabolaIsRecovered | curveFitting.py:201-217 | points exactly on a parabola give back that parabola when its system is nonsingular |

## Left out

- Floating point: all arithmetic is over exact reals, so rounding, overflow, NaN and the float64 values of the constants 1e-10 and 1e6 are not modelled.
- Evaluators: the user's expression text, its sympy/eval compilation and the GUI are outside the core. Functions are parameters: `real -> real` for bisection and secant (the source does not catch their exceptions), `real -> Option<real>` for simple iteration and Newton–Raphson (None is an exception the solver catches).
- The `callable(func)` type checks of the root finders cannot fail for a Dafny function value and are not modelled.
- Error payloads: a failure carries the records made before the error, where the source drops the list. Error messages become `RootError` and `Cause` values holding the numbers the message reports; the message text is not modelled.
- RootsOfNonLinear.SimpleIteration: the "Failed to converge" message prints the final x twice, because x has already been set to x_next. The model reports that value once as `NotConverged(x)`.
- RootsOfNonLinear.SimpleIteration: `None` from g stands only for the two exceptions the source catches, ValueError and ZeroDivisionError (rootsOfNonLinear.py:197). Any other exception g raises (an OverflowError, or a NameError or TypeError from an evaluated expression) escapes the source unwrapped; the model does not represent it. Newton–Raphson catches every Exception, which matches its `None`.
- NewtonRaphson.Solve: the exception text of an evaluator is not kept; both an evaluator exception and divergence become `IterationFailed` with a `Cause`.
- Interpolation.NewtonDividedDifference with no points: numpy raises an IndexError at `coef[:,0] = y_points` (interpolation/mainInterpolation.py:37), since the 0 × 0 table has no column 0; the model returns `NoPoints` instead of raising.
- InterpolationDetails.NewtonDetails.constructor requires at least one point: with none, the source's constructor itself raises an IndexError at `table[:,0] = self.y_points` (interpolation/moreDetails.py:49), so no object is ever built from zero points.
- Distinct nodes and `|ys| == |xs|` are preconditions of the interpolation members. The source divides by zero on repeated nodes, and its caller always builds the two lists together.
- Number formatting (`:.2f`, `:.4f`) is a parameter `Formatter` of the text-producing members; only the structure of the text is modelled.
- The `DetailsDialog`, the plots, the result text and the status messages of the fitter are presentation and are left out.
- `get_table_data` (reading checked rows from the table widget, skipping unparsable cells) is left out. The fitter takes the two columns as sequences of equal length, and the pandas sums are recursive sums over them.
- LinearSystem.Solve2, LinearSystem.Solve3: `np.linalg.solve` is modelled by Cramer's rule with the contract "singular exactly when det = 0, otherwise the unique solution". LU factorisation, pivoting and near-singular detection are not modelled.
- CurveFitting.ExactParabolaIsRecovered requires the second-degree system to be nonsingular, rather than characterising that by three distinct x values.
- LinearSystem.Mul is the product a·b, reached through one step of `Times`. It exists only to keep products out of the solver's way and means nothing else.
- The `except Exception` branch of the fitter, which handles errors other than the linear-algebra one, has nothing to catch in the model.
