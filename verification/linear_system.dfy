/**
 * Solving the small square linear systems of the curve fitter. A solver either
 * reports the matrix singular or returns the vector a with A·a = b. For a
 * nonsingular matrix that vector is unique, so Cramer's rule yields the same
 * solution as any other method.
 */
module LinearSystem {

  /** A solve either fails on a singular matrix or yields the solution vector. */
  datatype Solution = Singular | Solved(x: seq<real>)

  /** A k × k matrix given as its rows. */
  predicate IsMatrix(A: seq<seq<real>>, k: nat)
  {
    |A| == k && forall i | 0 <= i < k :: |A[i]| == k
  }

  function Dot(u: seq<real>, v: seq<real>): real
    requires |u| == |v|
    decreases |u|
  {
    if |u| == 0 then 0.0 else Dot(u[..|u| - 1], v[..|v| - 1]) + u[|u| - 1] * v[|v| - 1]
  }

  /** a solves the system: every row of A dotted with a gives the matching entry of b. */
  predicate Solves(A: seq<seq<real>>, b: seq<real>, a: seq<real>)
    requires IsMatrix(A, |b|)
  {
    |a| == |b| && forall i | 0 <= i < |b| :: Dot(A[i], a) == b[i]
  }

  lemma Dot2(u: seq<real>, v: seq<real>)
    requires |u| == 2 && |v| == 2
    ensures Dot(u, v) == u[0] * v[0] + u[1] * v[1]
  {
    assert Dot(u[..1][..0], v[..1][..0]) == 0.0;
    assert Dot(u[..1], v[..1]) == u[0] * v[0];
  }

  lemma Dot3(u: seq<real>, v: seq<real>)
    requires |u| == 3 && |v| == 3
    ensures Dot(u, v) == u[0] * v[0] + u[1] * v[1] + u[2] * v[2]
  {
    Dot2(u[..2], v[..2]);
  }

  /** (a0, a1) solves a 2 × 2 system exactly when each of the two row equations holds. */
  lemma SolvesByRows2(A: seq<seq<real>>, b: seq<real>, a0: real, a1: real)
    requires IsMatrix(A, 2) && |b| == 2
    ensures Solves(A, b, [a0, a1]) <==>
      A[0][0] * a0 + A[0][1] * a1 == b[0] && A[1][0] * a0 + A[1][1] * a1 == b[1]
  {
    Dot2(A[0], [a0, a1]);
    Dot2(A[1], [a0, a1]);
  }

  /** (a0, a1, a2) solves a 3 × 3 system exactly when each of the three row equations holds. */
  lemma SolvesByRows3(A: seq<seq<real>>, b: seq<real>, a0: real, a1: real, a2: real)
    requires IsMatrix(A, 3) && |b| == 3
    ensures Solves(A, b, [a0, a1, a2]) <==>
      A[0][0] * a0 + A[0][1] * a1 + A[0][2] * a2 == b[0] &&
      A[1][0] * a0 + A[1][1] * a1 + A[1][2] * a2 == b[1] &&
      A[2][0] * a0 + A[2][1] * a1 + A[2][2] * a2 == b[2]
  {
    Dot3(A[0], [a0, a1, a2]);
    Dot3(A[1], [a0, a1, a2]);
    Dot3(A[2], [a0, a1, a2]);
  }

  /** SolvesByRows2 with the products written through Mul, for proofs that keep products apart. */
  lemma SolvesByMulRows2(A: seq<seq<real>>, b: seq<real>, a0: real, a1: real)
    requires IsMatrix(A, 2) && |b| == 2
    ensures Solves(A, b, [a0, a1]) <==>
      Mul(A[0][0], a0) + Mul(A[0][1], a1) == b[0] && Mul(A[1][0], a0) + Mul(A[1][1], a1) == b[1]
  {
    MulIsProduct();
    SolvesByRows2(A, b, a0, a1);
  }

  /** SolvesByRows3 with the products written through Mul, for proofs that keep products apart. */
  lemma SolvesByMulRows3(A: seq<seq<real>>, b: seq<real>, a0: real, a1: real, a2: real)
    requires IsMatrix(A, 3) && |b| == 3
    ensures Solves(A, b, [a0, a1, a2]) <==>
      Mul(A[0][0], a0) + Mul(A[0][1], a1) + Mul(A[0][2], a2) == b[0] &&
      Mul(A[1][0], a0) + Mul(A[1][1], a1) + Mul(A[1][2], a2) == b[1] &&
      Mul(A[2][0], a0) + Mul(A[2][1], a1) + Mul(A[2][2], a2) == b[2]
  {
    MulIsProduct();
    SolvesByRows3(A, b, a0, a1, a2);
  }

  /**
   * The product a · b as a function of its own. Mul(a, b) is matched by its
   * arguments, so a product whose factors are only equal to other terms needs no
   * reasoning about multiplication; and since it is reached through Times, the
   * verifier sees the product itself only in the proofs that ask for it with
   * MulIsProduct. Both keep the proofs about sums of products small.
   */
  function Mul(a: real, b: real): real
  {
    Times(a, b, 1)
  }

  /** a · b, reached after n steps; n only counts the steps, so every Times(a, b, n) is a · b. */
  function Times(a: real, b: real, n: nat): real
  {
    if n == 0 then a * b else Times(a, b, n - 1)
  }

  lemma MulIsProduct()
    ensures forall a: real, b: real :: Mul(a, b) == a * b
  {
    forall a: real, b: real
      ensures Mul(a, b) == a * b
    {
      assert Times(a, b, 0) == a * b;
    }
  }

  /** The 2 × 2 determinant, its products written through Mul (Det2IsProduct states it with ·). */
  function Det2(A: seq<seq<real>>): real
    requires IsMatrix(A, 2)
  {
    Mul(A[0][0], A[1][1]) - Mul(A[0][1], A[1][0])
  }

  /** Det2 is the usual 2 × 2 determinant ad − bc. */
  lemma Det2IsProduct(A: seq<seq<real>>)
    requires IsMatrix(A, 2)
    ensures Det2(A) == A[0][0] * A[1][1] - A[0][1] * A[1][0]
  {
    MulIsProduct();
  }

  /** The determinant of the 3 × 3 matrix with rows (a, b, c), (d, e, f), (g, h, i). */
  function Det3Of(a: real, b: real, c: real, d: real, e: real, f: real, g: real, h: real, i: real): real
  {
    a * (e * i - f * h) - b * (d * i - f * g) + c * (d * h - e * g)
  }

  function Det3(A: seq<seq<real>>): real
    requires IsMatrix(A, 3)
  {
    Det3Of(A[0][0], A[0][1], A[0][2], A[1][0], A[1][1], A[1][2], A[2][0], A[2][1], A[2][2])
  }

  /** The 2 × 2 system A·a = b: singular exactly when det A = 0, otherwise its solution. */
  function Solve2(A: seq<seq<real>>, b: seq<real>): (r: Solution)
    requires IsMatrix(A, 2) && |b| == 2
    ensures r.Singular? <==> Det2(A) == 0.0
    ensures r.Solved? ==> Solves(A, b, r.x)
  {
    MulIsProduct();
    var det := Det2(A);
    if det == 0.0 then Singular
    else
      var x := [(b[0] * A[1][1] - A[0][1] * b[1]) / det, (A[0][0] * b[1] - b[0] * A[1][0]) / det];
      Cramer2(A[0][0], A[0][1], A[1][0], A[1][1], b[0], b[1], x[0], x[1]);
      Dot2(A[0], x);
      Dot2(A[1], x);
      Solved(x)
  }

  lemma Cramer2(p: real, q: real, s: real, t: real, b0: real, b1: real, x0: real, x1: real)
    requires p * t - q * s != 0.0
    requires x0 == (b0 * t - q * b1) / (p * t - q * s)
    requires x1 == (p * b1 - b0 * s) / (p * t - q * s)
    ensures p * x0 + q * x1 == b0 && s * x0 + t * x1 == b1
  {
    var det := p * t - q * s;
    assert x0 * det == b0 * t - q * b1;
    assert x1 * det == p * b1 - b0 * s;
    assert (p * x0 + q * x1) * det == b0 * det;
    assert (s * x0 + t * x1) * det == b1 * det;
  }

  /** The 3 × 3 system A·a = b: singular exactly when det A = 0, otherwise its solution. */
  function Solve3(A: seq<seq<real>>, b: seq<real>): (r: Solution)
    requires IsMatrix(A, 3) && |b| == 3
    ensures r.Singular? <==> Det3(A) == 0.0
    ensures r.Solved? ==> Solves(A, b, r.x)
  {
    var det := Det3(A);
    if det == 0.0 then Singular
    else
      var x := [
        Det3Of(b[0], A[0][1], A[0][2], b[1], A[1][1], A[1][2], b[2], A[2][1], A[2][2]) / det,
        Det3Of(A[0][0], b[0], A[0][2], A[1][0], b[1], A[1][2], A[2][0], b[2], A[2][2]) / det,
        Det3Of(A[0][0], A[0][1], b[0], A[1][0], A[1][1], b[1], A[2][0], A[2][1], b[2]) / det];
      Cramer3(A, b, x);
      Solved(x)
  }

  lemma Cramer3(A: seq<seq<real>>, b: seq<real>, x: seq<real>)
    requires IsMatrix(A, 3) && |b| == 3 && |x| == 3 && Det3(A) != 0.0
    requires x[0] == Det3Of(b[0], A[0][1], A[0][2], b[1], A[1][1], A[1][2], b[2], A[2][1], A[2][2]) / Det3(A)
    requires x[1] == Det3Of(A[0][0], b[0], A[0][2], A[1][0], b[1], A[1][2], A[2][0], b[2], A[2][2]) / Det3(A)
    requires x[2] == Det3Of(A[0][0], A[0][1], b[0], A[1][0], A[1][1], b[1], A[2][0], A[2][1], b[2]) / Det3(A)
    ensures Solves(A, b, x)
  {
    CramerSolves3(A[0][0], A[0][1], A[0][2], A[1][0], A[1][1], A[1][2], A[2][0], A[2][1], A[2][2],
      b[0], b[1], b[2], x[0], x[1], x[2]);
    Dot3(A[0], x);
    Dot3(A[1], x);
    Dot3(A[2], x);
  }

  /** Cramer's rule for three unknowns, over the entries. */
  lemma CramerSolves3(a: real, b: real, c: real, d: real, e: real, f: real, g: real, h: real, i: real,
                      r0: real, r1: real, r2: real, x0: real, x1: real, x2: real)
    requires Det3Of(a, b, c, d, e, f, g, h, i) != 0.0
    requires x0 == Det3Of(r0, b, c, r1, e, f, r2, h, i) / Det3Of(a, b, c, d, e, f, g, h, i)
    requires x1 == Det3Of(a, r0, c, d, r1, f, g, r2, i) / Det3Of(a, b, c, d, e, f, g, h, i)
    requires x2 == Det3Of(a, b, r0, d, e, r1, g, h, r2) / Det3Of(a, b, c, d, e, f, g, h, i)
    ensures a * x0 + b * x1 + c * x2 == r0
    ensures d * x0 + e * x1 + f * x2 == r1
    ensures g * x0 + h * x1 + i * x2 == r2
  {
    var det := Det3Of(a, b, c, d, e, f, g, h, i);
    var n0, n1, n2 := Det3Of(r0, b, c, r1, e, f, r2, h, i), Det3Of(a, r0, c, d, r1, f, g, r2, i), Det3Of(a, b, r0, d, e, r1, g, h, r2);
    QuotientTimes(n0, det, x0);
    QuotientTimes(n1, det, x1);
    QuotientTimes(n2, det, x2);
    CramerRow3(a, b, c, d, e, f, g, h, i, r0, r1, r2, n0, n1, n2);
    RowFromNumerators(a, b, c, x0, x1, x2, n0, n1, n2, det, r0);
    RowFromNumerators(d, e, f, x0, x1, x2, n0, n1, n2, det, r1);
    RowFromNumerators(g, h, i, x0, x1, x2, n0, n1, n2, det, r2);
  }

  lemma QuotientTimes(n: real, det: real, x: real)
    requires det != 0.0 && x == n / det
    ensures x * det == n
  {
  }

  /** A row dotted with the numerators n_j = x_j · det gives det · r, so the row dotted with x gives r. */
  lemma RowFromNumerators(a: real, b: real, c: real, x0: real, x1: real, x2: real,
                          n0: real, n1: real, n2: real, det: real, r: real)
    requires det != 0.0 && x0 * det == n0 && x1 * det == n1 && x2 * det == n2
    requires a * n0 + b * n1 + c * n2 == det * r
    ensures a * x0 + b * x1 + c * x2 == r
  {
    assert (a * x0 + b * x1 + c * x2) * det == a * n0 + b * n1 + c * n2;
  }

  /** Laplace expansion: each row dotted with the Cramer numerators is det A times b. */
  lemma CramerRow3(a: real, b: real, c: real, d: real, e: real, f: real, g: real, h: real, i: real,
                   r0: real, r1: real, r2: real, n0: real, n1: real, n2: real)
    requires n0 == Det3Of(r0, b, c, r1, e, f, r2, h, i)
    requires n1 == Det3Of(a, r0, c, d, r1, f, g, r2, i)
    requires n2 == Det3Of(a, b, r0, d, e, r1, g, h, r2)
    ensures a * n0 + b * n1 + c * n2 == Det3Of(a, b, c, d, e, f, g, h, i) * r0
    ensures d * n0 + e * n1 + f * n2 == Det3Of(a, b, c, d, e, f, g, h, i) * r1
    ensures g * n0 + h * n1 + i * n2 == Det3Of(a, b, c, d, e, f, g, h, i) * r2
  {
  }

  /** A nonsingular 2 × 2 system has exactly one solution, the one Solve2 returns. */
  lemma Solve2Unique(A: seq<seq<real>>, b: seq<real>, a: seq<real>)
    requires IsMatrix(A, 2) && |b| == 2 && Det2(A) != 0.0 && Solves(A, b, a)
    ensures Solve2(A, b) == Solved(a)
  {
    MulIsProduct();
    var r := Solve2(A, b);
    Dot2(A[0], a);
    Dot2(A[1], a);
    Dot2(A[0], r.x);
    Dot2(A[1], r.x);
    Unique2(A[0][0], A[0][1], A[1][0], A[1][1], a[0], a[1], r.x[0], r.x[1]);
    assert r.x == a;
  }

  lemma Unique2(p: real, q: real, s: real, t: real, x0: real, x1: real, y0: real, y1: real)
    requires p * t - q * s != 0.0
    requires p * x0 + q * x1 == p * y0 + q * y1 && s * x0 + t * x1 == s * y0 + t * y1
    ensures x0 == y0 && x1 == y1
  {
    var u, v := x0 - y0, x1 - y1;
    assert p * u + q * v == 0.0 && s * u + t * v == 0.0;
    assert (p * t - q * s) * u == t * (p * u + q * v) - q * (s * u + t * v);
    assert (p * t - q * s) * v == p * (s * u + t * v) - s * (p * u + q * v);
  }

  /** A nonsingular 3 × 3 system has exactly one solution, the one Solve3 returns. */
  lemma Solve3Unique(A: seq<seq<real>>, b: seq<real>, a: seq<real>)
    requires IsMatrix(A, 3) && |b| == 3 && Det3(A) != 0.0 && Solves(A, b, a)
    ensures Solve3(A, b) == Solved(a)
  {
    var r := Solve3(A, b);
    SolutionUnique3(A, b, a, r.x);
  }

  lemma SolutionUnique3(A: seq<seq<real>>, b: seq<real>, a: seq<real>, a': seq<real>)
    requires IsMatrix(A, 3) && |b| == 3 && Det3(A) != 0.0 && Solves(A, b, a) && Solves(A, b, a')
    ensures a == a'
  {
    Dot3(A[0], a);
    Dot3(A[1], a);
    Dot3(A[2], a);
    Dot3(A[0], a');
    Dot3(A[1], a');
    Dot3(A[2], a');
    Unique3(A[0][0], A[0][1], A[0][2], A[1][0], A[1][1], A[1][2], A[2][0], A[2][1], A[2][2],
      a[0], a[1], a[2], a'[0], a'[1], a'[2]);
  }

  lemma Unique3(a: real, b: real, c: real, d: real, e: real, f: real, g: real, h: real, i: real,
                x0: real, x1: real, x2: real, y0: real, y1: real, y2: real)
    requires Det3Of(a, b, c, d, e, f, g, h, i) != 0.0
    requires a * x0 + b * x1 + c * x2 == a * y0 + b * y1 + c * y2
    requires d * x0 + e * x1 + f * x2 == d * y0 + e * y1 + f * y2
    requires g * x0 + h * x1 + i * x2 == g * y0 + h * y1 + i * y2
    ensures x0 == y0 && x1 == y1 && x2 == y2
  {
    var u, v, w := x0 - y0, x1 - y1, x2 - y2;
    assert a * u + b * v + c * w == 0.0;
    assert d * u + e * v + f * w == 0.0;
    assert g * u + h * v + i * w == 0.0;
    Kernel3(a, b, c, d, e, f, g, h, i, u, v, w);
  }

  /** A matrix with nonzero determinant sends only the zero vector to zero. */
  lemma Kernel3(a: real, b: real, c: real, d: real, e: real, f: real, g: real, h: real, i: real,
                u: real, v: real, w: real)
    requires Det3Of(a, b, c, d, e, f, g, h, i) != 0.0
    requires a * u + b * v + c * w == 0.0
    requires d * u + e * v + f * w == 0.0
    requires g * u + h * v + i * w == 0.0
    ensures u == 0.0 && v == 0.0 && w == 0.0
  {
    var det := Det3Of(a, b, c, d, e, f, g, h, i);
    var p, q, s := a * u + b * v + c * w, d * u + e * v + f * w, g * u + h * v + i * w;
    assert det * u == (e * i - f * h) * p - (b * i - c * h) * q + (b * f - c * e) * s;
    assert det * v == -(d * i - f * g) * p + (a * i - c * g) * q - (a * f - c * d) * s;
    assert det * w == (d * h - e * g) * p - (a * h - b * g) * q + (a * e - b * d) * s;
  }
}
