/**
 * What the two interpolation routines compute, as functions over exact reals,
 * and the facts that make them interchangeable: on pairwise-distinct nodes the
 * Lagrange form and the Newton divided-difference form are the same polynomial,
 * and both pass through every data point.
 *
 * Both forms are stated over windows of consecutive nodes. WindowBasis(xs, k, lo, hi, x)
 * is the product of the factors (x - x_m)/(x_k - x_m) for m in [lo, hi), m != k, and
 * DividedDifference(xs, ys, i, c) is f[x_i, ..., x_{i+c}]. The routines use the
 * window [0, |xs|).
 *
 * The proofs of the Neville identities run over tables of values at one point x
 * (products, partial sums, basis values), each entry tied to its neighbours by a
 * named step predicate; the tables built from the recursive functions are shown
 * to satisfy those predicates.
 */
module InterpolationSpec {

  // ---------------------------------------------------------------------------
  // Nodes
  // ---------------------------------------------------------------------------

  predicate Apart(xs: seq<real>, i: nat, j: nat)
    requires i < |xs| && j < |xs|
  {
    xs[i] != xs[j]
  }

  /** The nodes are pairwise distinct, which every division below needs. */
  predicate Distinct(xs: seq<real>)
  {
    forall i: nat, j: nat | i < |xs| && j < |xs| && i != j :: Apart(xs, i, j)
  }

  /** The factor x - x_k of the Newton node products. */
  function NodeFactor(xs: seq<real>, k: nat, x: real): real
    requires k < |xs|
  {
    x - xs[k]
  }

  /** The denominator x_j - x_i of a divided difference. */
  function Spacing(xs: seq<real>, i: nat, j: nat): real
    requires i < |xs| && j < |xs|
  {
    xs[j] - xs[i]
  }

  /** The factor (x - x_m) / (x_k - x_m) of the k-th Lagrange basis polynomial. */
  function LagrangeFactor(xs: seq<real>, k: nat, m: nat, x: real): real
    requires k < |xs| && m < |xs| && Apart(xs, m, k)
  {
    NodeFactor(xs, m, x) / Spacing(xs, m, k)
  }

  // ---------------------------------------------------------------------------
  // The Lagrange form
  // ---------------------------------------------------------------------------

  /** The factors of basis polynomial k over the nodes lo .. hi-1, node k itself skipped. */
  function WindowBasis(xs: seq<real>, k: nat, lo: nat, hi: nat, x: real): real
    requires Distinct(xs) && k < |xs| && lo <= hi <= |xs|
    decreases hi
  {
    if hi == lo then 1.0
    else if hi - 1 == k then WindowBasis(xs, k, lo, hi - 1, x)
    else WindowBasis(xs, k, lo, hi - 1, x) * LagrangeFactor(xs, k, hi - 1, x)
  }

  /** The sum of y_k times basis polynomial k of the window lo .. hi-1, over k in lo .. m-1. */
  function WindowSum(xs: seq<real>, ys: seq<real>, lo: nat, hi: nat, m: nat, x: real): real
    requires Distinct(xs) && |ys| == |xs| && lo <= m <= hi <= |xs|
    decreases m
  {
    if m == lo then 0.0 else WindowSum(xs, ys, lo, hi, m - 1, x) + ys[m - 1] * WindowBasis(xs, m - 1, lo, hi, x)
  }

  /** The k-th Lagrange basis polynomial of all the nodes, at x. */
  function Basis(xs: seq<real>, k: nat, x: real): real
    requires Distinct(xs) && k < |xs|
  {
    WindowBasis(xs, k, 0, |xs|, x)
  }

  /** The Lagrange interpolating polynomial of all the points, at x. */
  function Lagrange(xs: seq<real>, ys: seq<real>, x: real): real
    requires Distinct(xs) && |ys| == |xs|
  {
    WindowSum(xs, ys, 0, |xs|, |xs|, x)
  }

  // ---------------------------------------------------------------------------
  // The Newton form
  // ---------------------------------------------------------------------------

  predicate IsSquare(T: seq<seq<real>>, n: nat)
  {
    |T| == n && forall i | 0 <= i < n :: |T[i]| == n
  }

  /** The divided difference f[x_i, ..., x_{i+c}]. */
  function DividedDifference(xs: seq<real>, ys: seq<real>, i: nat, c: nat): real
    requires Distinct(xs) && |ys| == |xs| && i + c < |xs|
    decreases c
  {
    if c == 0 then ys[i]
    else
      assert Apart(xs, i + c, i);
      (DividedDifference(xs, ys, i + 1, c - 1) - DividedDifference(xs, ys, i, c - 1)) / Spacing(xs, i, i + c)
  }

  /** The n-by-n divided-difference table: f[x_i, ..., x_{i+c}] where i + c < n, 0 elsewhere. */
  function DDTable(xs: seq<real>, ys: seq<real>): (T: seq<seq<real>>)
    requires Distinct(xs) && |ys| == |xs|
    ensures IsSquare(T, |xs|)
  {
    seq(|xs|, i requires 0 <= i < |xs| =>
      seq(|xs|, c requires 0 <= c < |xs| => if i + c < |xs| then DividedDifference(xs, ys, i, c) else 0.0))
  }

  /** Entry (i, c) of T obeys the divided-difference recurrence (column 0 holds the data). */
  predicate TableStep(xs: seq<real>, ys: seq<real>, T: seq<seq<real>>, i: nat, c: nat)
    requires |ys| == |xs| && IsSquare(T, |xs|) && i + c < |xs|
  {
    if c == 0 then T[i][0] == ys[i]
    else Spacing(xs, i, i + c) * T[i][c] == T[i + 1][c - 1] - T[i][c - 1]
  }

  predicate IsDividedDifferenceTable(xs: seq<real>, ys: seq<real>, T: seq<seq<real>>)
    requires |ys| == |xs|
  {
    IsSquare(T, |xs|) && forall i: nat, c: nat | i < |xs| && c < |xs| - i :: TableStep(xs, ys, T, i, c)
  }

  /** The product of the node factors lo .. hi-1 at x. */
  function NodeProduct(xs: seq<real>, lo: nat, hi: nat, x: real): real
    requires lo <= hi <= |xs|
    decreases hi
  {
    if hi == lo then 1.0 else NodeProduct(xs, lo, hi - 1, x) * NodeFactor(xs, hi - 1, x)
  }

  /** The Newton form over the window i .. i+j with coefficients from row i of T. */
  function NewtonSum(xs: seq<real>, T: seq<seq<real>>, i: nat, j: nat, x: real): real
    requires IsSquare(T, |xs|) && i + j < |xs|
    decreases j
  {
    if j == 0 then T[i][0] else NewtonSum(xs, T, i, j - 1, x) + T[i][j] * NodeProduct(xs, i, i + j, x)
  }

  /** The Newton interpolating polynomial of all the points, at x. */
  function Newton(xs: seq<real>, ys: seq<real>, x: real): real
    requires Distinct(xs) && |ys| == |xs| && |xs| > 0
  {
    NewtonSum(xs, DDTable(xs, ys), 0, |xs| - 1, x)
  }

  lemma DDTableIsTable(xs: seq<real>, ys: seq<real>)
    requires Distinct(xs) && |ys| == |xs|
    ensures IsDividedDifferenceTable(xs, ys, DDTable(xs, ys))
  {
    var T := DDTable(xs, ys);
    forall i: nat, c: nat | i < |xs| && c < |xs| - i
      ensures TableStep(xs, ys, T, i, c)
    {
      if c > 0 {
        assert Apart(xs, i + c, i);
        QuotientTimesDenominator(T[i + 1][c - 1] - T[i][c - 1], Spacing(xs, i, i + c));
      }
    }
  }

  /** Entry (i, c) of T is computed from column c - 1 as the routines compute it. */
  predicate QuotientStep(xs: seq<real>, T: seq<seq<real>>, i: nat, c: nat)
    requires Distinct(xs) && IsSquare(T, |xs|) && 1 <= c && i + c < |xs|
  {
    assert Apart(xs, i + c, i);
    T[i][c] == (T[i + 1][c - 1] - T[i][c - 1]) / (xs[i + c] - xs[i])
  }

  /** The divided-difference table obeys the quotient recurrence the routines evaluate. */
  lemma DDTableQuotients(xs: seq<real>, ys: seq<real>)
    requires Distinct(xs) && |ys| == |xs|
    ensures forall i: nat, c: nat | 1 <= c && i + c < |xs| :: QuotientStep(xs, DDTable(xs, ys), i, c)
    ensures forall i | 0 <= i < |xs| :: DDTable(xs, ys)[i][0] == ys[i]
  {
  }

  // ---------------------------------------------------------------------------
  // Tables of values at a fixed point x
  // ---------------------------------------------------------------------------

  /** P[lo][hi] is the product of the node factors lo .. hi-1 at x. */
  predicate ProductStep(xs: seq<real>, x: real, P: seq<seq<real>>, lo: nat, hi: nat)
    requires IsSquare(P, |xs| + 1) && lo <= hi <= |xs|
  {
    if hi == lo then P[lo][hi] == 1.0 else P[lo][hi] == P[lo][hi - 1] * NodeFactor(xs, hi - 1, x)
  }

  predicate IsProductTable(xs: seq<real>, x: real, P: seq<seq<real>>)
  {
    IsSquare(P, |xs| + 1) && forall lo: nat, hi: nat | lo <= hi <= |xs| :: ProductStep(xs, x, P, lo, hi)
  }

  /** S[i][j] is the Newton form over the window i .. i+j at x. */
  predicate SumStep(xs: seq<real>, T: seq<seq<real>>, P: seq<seq<real>>, S: seq<seq<real>>, i: nat, j: nat)
    requires IsSquare(T, |xs|) && IsSquare(P, |xs| + 1) && IsSquare(S, |xs|) && i + j < |xs|
  {
    if j == 0 then S[i][0] == T[i][0] else S[i][j] == S[i][j - 1] + T[i][j] * P[i][i + j]
  }

  predicate IsSumTable(xs: seq<real>, T: seq<seq<real>>, P: seq<seq<real>>, S: seq<seq<real>>)
    requires IsSquare(T, |xs|) && IsSquare(P, |xs| + 1)
  {
    IsSquare(S, |xs|) && forall i: nat, j: nat | i < |xs| && j < |xs| - i :: SumStep(xs, T, P, S, i, j)
  }

  predicate IsCube(B: seq<seq<seq<real>>>, a: nat, b: nat)
  {
    |B| == a && forall k | 0 <= k < a :: IsSquare(B[k], b)
  }

  /** B[k][lo][hi] is basis polynomial k of the nodes lo .. hi-1 at x. */
  predicate BasisStep(xs: seq<real>, x: real, B: seq<seq<seq<real>>>, k: nat, lo: nat, hi: nat)
    requires Distinct(xs) && IsCube(B, |xs|, |xs| + 1) && k < |xs| && lo <= hi <= |xs|
  {
    if hi == lo then B[k][lo][hi] == 1.0
    else if hi - 1 == k then B[k][lo][hi] == B[k][lo][hi - 1]
    else B[k][lo][hi] == B[k][lo][hi - 1] * LagrangeFactor(xs, k, hi - 1, x)
  }

  predicate IsBasisTable(xs: seq<real>, x: real, B: seq<seq<seq<real>>>)
    requires Distinct(xs)
  {
    IsCube(B, |xs|, |xs| + 1) &&
    forall k: nat, lo: nat, hi: nat | k < |xs| && lo <= hi <= |xs| :: BasisStep(xs, x, B, k, lo, hi)
  }

  /** W[lo][hi][m] is the Lagrange sum of the window lo .. hi-1 over its nodes lo .. m-1. */
  predicate WindowStep(xs: seq<real>, ys: seq<real>, B: seq<seq<seq<real>>>, W: seq<seq<seq<real>>>,
                       lo: nat, hi: nat, m: nat)
    requires |ys| == |xs| && IsCube(B, |xs|, |xs| + 1) && IsCube(W, |xs| + 1, |xs| + 1) && lo <= m <= hi <= |xs|
  {
    if m == lo then W[lo][hi][lo] == 0.0 else W[lo][hi][m] == W[lo][hi][m - 1] + ys[m - 1] * B[m - 1][lo][hi]
  }

  predicate IsWindowTable(xs: seq<real>, ys: seq<real>, B: seq<seq<seq<real>>>, W: seq<seq<seq<real>>>)
    requires |ys| == |xs| && IsCube(B, |xs|, |xs| + 1)
  {
    IsCube(W, |xs| + 1, |xs| + 1) &&
    forall lo: nat, hi: nat, m: nat | lo <= m <= hi <= |xs| :: WindowStep(xs, ys, B, W, lo, hi, m)
  }

  function ProductTable(xs: seq<real>, x: real): (P: seq<seq<real>>)
    ensures IsProductTable(xs, x, P)
  {
    seq(|xs| + 1, lo requires 0 <= lo <= |xs| =>
      seq(|xs| + 1, hi requires 0 <= hi <= |xs| => if lo <= hi then NodeProduct(xs, lo, hi, x) else 0.0))
  }

  function SumTable(xs: seq<real>, T: seq<seq<real>>, x: real): (S: seq<seq<real>>)
    requires IsSquare(T, |xs|)
    ensures IsSumTable(xs, T, ProductTable(xs, x), S)
  {
    seq(|xs|, i requires 0 <= i < |xs| =>
      seq(|xs|, j requires 0 <= j < |xs| => if i + j < |xs| then NewtonSum(xs, T, i, j, x) else 0.0))
  }

  function BasisTable(xs: seq<real>, x: real): (B: seq<seq<seq<real>>>)
    requires Distinct(xs)
    ensures IsBasisTable(xs, x, B)
  {
    seq(|xs|, k requires 0 <= k < |xs| =>
      seq(|xs| + 1, lo requires 0 <= lo <= |xs| =>
        seq(|xs| + 1, hi requires 0 <= hi <= |xs| => if lo <= hi then WindowBasis(xs, k, lo, hi, x) else 0.0)))
  }

  function WindowTable(xs: seq<real>, ys: seq<real>, x: real): (W: seq<seq<seq<real>>>)
    requires Distinct(xs) && |ys| == |xs|
    ensures IsWindowTable(xs, ys, BasisTable(xs, x), W)
  {
    seq(|xs| + 1, lo requires 0 <= lo <= |xs| =>
      seq(|xs| + 1, hi requires 0 <= hi <= |xs| =>
        seq(|xs| + 1, m requires 0 <= m <= |xs| => if lo <= m <= hi then WindowSum(xs, ys, lo, hi, m, x) else 0.0)))
  }

  /** Value tables for the Newton form at x whose last leading entry is the Newton sum. */
  lemma NewtonTables(xs: seq<real>, T: seq<seq<real>>, x: real) returns (P: seq<seq<real>>, S: seq<seq<real>>)
    requires IsSquare(T, |xs|) && |xs| > 0
    ensures IsProductTable(xs, x, P) && IsSumTable(xs, T, P, S)
    ensures S[0][|xs| - 1] == NewtonSum(xs, T, 0, |xs| - 1, x)
  {
    P := ProductTable(xs, x);
    S := SumTable(xs, T, x);
  }

  /** Value tables for the Lagrange form at x whose full-window entry is the Lagrange polynomial. */
  lemma LagrangeTables(xs: seq<real>, ys: seq<real>, x: real) returns (B: seq<seq<seq<real>>>, W: seq<seq<seq<real>>>)
    requires Distinct(xs) && |ys| == |xs|
    ensures IsBasisTable(xs, x, B) && IsWindowTable(xs, ys, B, W)
    ensures W[0][|xs|][|xs|] == Lagrange(xs, ys, x)
  {
    B := BasisTable(xs, x);
    W := WindowTable(xs, ys, x);
  }

  // ---------------------------------------------------------------------------
  // Neville's recurrence for the Newton form
  // ---------------------------------------------------------------------------

  lemma {:induction false} ProductDropFirst(xs: seq<real>, x: real, P: seq<seq<real>>, lo: nat, hi: nat)
    requires IsProductTable(xs, x, P) && lo < hi <= |xs|
    ensures P[lo][hi] == NodeFactor(xs, lo, x) * P[lo + 1][hi]
    decreases hi
  {
    assert ProductStep(xs, x, P, lo, hi);
    assert ProductStep(xs, x, P, lo + 1, hi);
    if hi - 1 > lo {
      ProductDropFirst(xs, x, P, lo, hi - 1);
      MulAssoc(NodeFactor(xs, lo, x), P[lo + 1][hi - 1], NodeFactor(xs, hi - 1, x));
    } else {
      assert ProductStep(xs, x, P, lo, lo);
    }
  }

  /** Shifting the window one node to the right changes the Newton form by one product term. */
  lemma {:induction false} NewtonShift(xs: seq<real>, ys: seq<real>, T: seq<seq<real>>, x: real,
                                       P: seq<seq<real>>, S: seq<seq<real>>, i: nat, j: nat)
    requires |ys| == |xs| && IsDividedDifferenceTable(xs, ys, T) && IsProductTable(xs, x, P) && IsSumTable(xs, T, P, S)
    requires 1 <= j && i + j < |xs|
    ensures S[i + 1][j - 1] - S[i][j - 1] == Spacing(xs, i, i + j) * T[i][j] * P[i + 1][i + j]
    decreases j
  {
    assert TableStep(xs, ys, T, i, j);
    if j == 1 {
      assert SumStep(xs, T, P, S, i + 1, 0);
      assert SumStep(xs, T, P, S, i, 0);
      assert TableStep(xs, ys, T, i + 1, 0);
      assert TableStep(xs, ys, T, i, 0);
      assert ProductStep(xs, x, P, i + 1, i + 1);
    } else {
      NewtonShift(xs, ys, T, x, P, S, i, j - 1);
      assert SumStep(xs, T, P, S, i + 1, j - 1);
      assert SumStep(xs, T, P, S, i, j - 1);
      assert ProductStep(xs, x, P, i + 1, i + j);
      ProductDropFirst(xs, x, P, i, i + j - 1);
      ShiftAlgebra(T[i][j - 1], T[i + 1][j - 1], T[i][j],
                   P[i + 1][i + j - 1], P[i + 1][i + j], P[i][i + j - 1],
                   NodeFactor(xs, i, x), NodeFactor(xs, i + j - 1, x), Spacing(xs, i, i + j - 1), Spacing(xs, i, i + j),
                   S[i + 1][j - 1], S[i + 1][j - 2], S[i][j - 1], S[i][j - 2]);
    }
  }

  /** (x_{i+j} - x_i) N_{i,j} = (x - x_i) N_{i+1,j-1} - (x - x_{i+j}) N_{i,j-1} for the Newton forms N. */
  lemma NewtonNeville(xs: seq<real>, ys: seq<real>, T: seq<seq<real>>, x: real,
                      P: seq<seq<real>>, S: seq<seq<real>>, i: nat, j: nat)
    requires |ys| == |xs| && IsDividedDifferenceTable(xs, ys, T) && IsProductTable(xs, x, P) && IsSumTable(xs, T, P, S)
    requires 1 <= j && i + j < |xs|
    ensures Spacing(xs, i, i + j) * S[i][j]
         == NodeFactor(xs, i, x) * S[i + 1][j - 1] - NodeFactor(xs, i + j, x) * S[i][j - 1]
  {
    NewtonShift(xs, ys, T, x, P, S, i, j);
    assert SumStep(xs, T, P, S, i, j);
    ProductDropFirst(xs, x, P, i, i + j);
    NevilleAlgebra(S[i][j - 1], S[i + 1][j - 1], S[i][j], Spacing(xs, i, i + j), NodeFactor(xs, i, x),
                   NodeFactor(xs, i + j, x), T[i][j], P[i + 1][i + j], P[i][i + j]);
  }

  // ---------------------------------------------------------------------------
  // Neville's recurrence for the Lagrange form
  // ---------------------------------------------------------------------------

  lemma {:induction false} BasisDropOther(xs: seq<real>, x: real, B: seq<seq<seq<real>>>, k: nat, lo: nat, hi: nat)
    requires Distinct(xs) && IsBasisTable(xs, x, B) && k < |xs| && lo < hi <= |xs| && k != lo
    ensures B[k][lo][hi] == LagrangeFactor(xs, k, lo, x) * B[k][lo + 1][hi]
    decreases hi
  {
    assert BasisStep(xs, x, B, k, lo, hi);
    assert BasisStep(xs, x, B, k, lo + 1, hi);
    if hi - 1 > lo {
      BasisDropOther(xs, x, B, k, lo, hi - 1);
      if hi - 1 != k {
        MulAssoc(LagrangeFactor(xs, k, lo, x), B[k][lo + 1][hi - 1], LagrangeFactor(xs, k, hi - 1, x));
      }
    } else {
      assert BasisStep(xs, x, B, k, lo, lo);
    }
  }

  lemma FactorTimesSpacing(xs: seq<real>, k: nat, m: nat, x: real)
    requires k < |xs| && m < |xs| && Apart(xs, m, k)
    ensures LagrangeFactor(xs, k, m, x) * Spacing(xs, m, k) == NodeFactor(xs, m, x)
  {
  }

  /** The Neville identity for the basis polynomial of the first node of the window. */
  lemma BasisNevilleFirst(xs: seq<real>, x: real, B: seq<seq<seq<real>>>, lo: nat, hi: nat)
    requires Distinct(xs) && IsBasisTable(xs, x, B) && lo + 2 <= hi <= |xs|
    ensures Spacing(xs, lo, hi - 1) * B[lo][lo][hi] == -(NodeFactor(xs, hi - 1, x) * B[lo][lo][hi - 1])
  {
    assert BasisStep(xs, x, B, lo, lo, hi);
    assert Apart(xs, hi - 1, lo);
    FactorTimesSpacing(xs, lo, hi - 1, x);
    EndAlgebra(Spacing(xs, lo, hi - 1), B[lo][lo][hi], B[lo][lo][hi - 1], LagrangeFactor(xs, lo, hi - 1, x),
               Spacing(xs, hi - 1, lo), NodeFactor(xs, hi - 1, x), -1.0);
  }

  /** The Neville identity for the basis polynomial of the last node of the window. */
  lemma BasisNevilleLast(xs: seq<real>, x: real, B: seq<seq<seq<real>>>, lo: nat, hi: nat)
    requires Distinct(xs) && IsBasisTable(xs, x, B) && lo + 2 <= hi <= |xs|
    ensures Spacing(xs, lo, hi - 1) * B[hi - 1][lo][hi] == NodeFactor(xs, lo, x) * B[hi - 1][lo + 1][hi]
  {
    BasisDropOther(xs, x, B, hi - 1, lo, hi);
    assert Apart(xs, lo, hi - 1);
    FactorTimesSpacing(xs, hi - 1, lo, x);
    EndAlgebra(Spacing(xs, lo, hi - 1), B[hi - 1][lo][hi], B[hi - 1][lo + 1][hi], LagrangeFactor(xs, hi - 1, lo, x),
               Spacing(xs, lo, hi - 1), NodeFactor(xs, lo, x), 1.0);
  }

  /** The Neville identity for the basis polynomial of a node strictly inside the window. */
  lemma BasisNevilleInner(xs: seq<real>, x: real, B: seq<seq<seq<real>>>, k: nat, lo: nat, hi: nat)
    requires Distinct(xs) && IsBasisTable(xs, x, B) && lo < k && k + 1 < hi <= |xs|
    ensures Spacing(xs, lo, hi - 1) * B[k][lo][hi]
         == NodeFactor(xs, lo, x) * B[k][lo + 1][hi] - NodeFactor(xs, hi - 1, x) * B[k][lo][hi - 1]
  {
    assert BasisStep(xs, x, B, k, lo, hi);
    assert BasisStep(xs, x, B, k, lo + 1, hi);
    BasisDropOther(xs, x, B, k, lo, hi - 1);
    assert Apart(xs, lo, k) && Apart(xs, hi - 1, k);
    FactorTimesSpacing(xs, k, lo, x);
    FactorTimesSpacing(xs, k, hi - 1, x);
    InnerAlgebra(Spacing(xs, lo, hi - 1), NodeFactor(xs, lo, x), NodeFactor(xs, hi - 1, x),
                 Spacing(xs, lo, k), Spacing(xs, hi - 1, k), LagrangeFactor(xs, k, lo, x),
                 LagrangeFactor(xs, k, hi - 1, x), B[k][lo + 1][hi - 1], B[k][lo][hi], B[k][lo + 1][hi], B[k][lo][hi - 1]);
  }

  /** The Neville identity for the partial Lagrange sums over the nodes lo .. m-1 of the window. */
  lemma {:induction false} WindowNevillePartial(xs: seq<real>, ys: seq<real>, x: real, B: seq<seq<seq<real>>>,
                                                W: seq<seq<seq<real>>>, lo: nat, hi: nat, m: nat)
    requires Distinct(xs) && |ys| == |xs| && IsBasisTable(xs, x, B) && IsWindowTable(xs, ys, B, W)
    requires lo + 2 <= hi <= |xs| && lo + 1 <= m <= hi - 1
    ensures Spacing(xs, lo, hi - 1) * W[lo][hi][m]
         == NodeFactor(xs, lo, x) * W[lo + 1][hi][m] - NodeFactor(xs, hi - 1, x) * W[lo][hi - 1][m]
    decreases m
  {
    assert WindowStep(xs, ys, B, W, lo, hi, m);
    assert WindowStep(xs, ys, B, W, lo, hi - 1, m);
    if m == lo + 1 {
      assert WindowStep(xs, ys, B, W, lo, hi, lo);
      assert WindowStep(xs, ys, B, W, lo, hi - 1, lo);
      assert WindowStep(xs, ys, B, W, lo + 1, hi, lo + 1);
      BasisNevilleFirst(xs, x, B, lo, hi);
      StepAlgebra(Spacing(xs, lo, hi - 1), NodeFactor(xs, lo, x), NodeFactor(xs, hi - 1, x), ys[lo],
                  W[lo][hi][lo], 0.0, W[lo][hi - 1][lo], B[lo][lo][hi], 0.0, B[lo][lo][hi - 1],
                  W[lo][hi][m], W[lo + 1][hi][m], W[lo][hi - 1][m]);
    } else {
      WindowNevillePartial(xs, ys, x, B, W, lo, hi, m - 1);
      assert WindowStep(xs, ys, B, W, lo + 1, hi, m);
      BasisNevilleInner(xs, x, B, m - 1, lo, hi);
      StepAlgebra(Spacing(xs, lo, hi - 1), NodeFactor(xs, lo, x), NodeFactor(xs, hi - 1, x), ys[m - 1],
                  W[lo][hi][m - 1], W[lo + 1][hi][m - 1], W[lo][hi - 1][m - 1],
                  B[m - 1][lo][hi], B[m - 1][lo + 1][hi], B[m - 1][lo][hi - 1],
                  W[lo][hi][m], W[lo + 1][hi][m], W[lo][hi - 1][m]);
    }
  }

  /** (x_{hi-1} - x_lo) L_{lo,hi} = (x - x_lo) L_{lo+1,hi} - (x - x_{hi-1}) L_{lo,hi-1} for the Lagrange forms L. */
  lemma WindowNeville(xs: seq<real>, ys: seq<real>, x: real, B: seq<seq<seq<real>>>, W: seq<seq<seq<real>>>,
                      lo: nat, hi: nat)
    requires Distinct(xs) && |ys| == |xs| && IsBasisTable(xs, x, B) && IsWindowTable(xs, ys, B, W)
    requires lo + 2 <= hi <= |xs|
    ensures Spacing(xs, lo, hi - 1) * W[lo][hi][hi]
         == NodeFactor(xs, lo, x) * W[lo + 1][hi][hi] - NodeFactor(xs, hi - 1, x) * W[lo][hi - 1][hi - 1]
  {
    WindowNevillePartial(xs, ys, x, B, W, lo, hi, hi - 1);
    assert WindowStep(xs, ys, B, W, lo, hi, hi);
    assert WindowStep(xs, ys, B, W, lo + 1, hi, hi);
    BasisNevilleLast(xs, x, B, lo, hi);
    StepAlgebra(Spacing(xs, lo, hi - 1), NodeFactor(xs, lo, x), NodeFactor(xs, hi - 1, x), ys[hi - 1],
                W[lo][hi][hi - 1], W[lo + 1][hi][hi - 1], W[lo][hi - 1][hi - 1],
                B[hi - 1][lo][hi], B[hi - 1][lo + 1][hi], 0.0,
                W[lo][hi][hi], W[lo + 1][hi][hi], W[lo][hi - 1][hi - 1]);
  }

  // ---------------------------------------------------------------------------
  // The two forms agree
  // ---------------------------------------------------------------------------

  /** On every window, the Newton form and the Lagrange form have the same value at x. */
  lemma {:induction false} NewtonIsLagrangeOnWindow(xs: seq<real>, ys: seq<real>, T: seq<seq<real>>, x: real,
                                                    P: seq<seq<real>>, S: seq<seq<real>>,
                                                    B: seq<seq<seq<real>>>, W: seq<seq<seq<real>>>, i: nat, j: nat)
    requires Distinct(xs) && |ys| == |xs| && IsDividedDifferenceTable(xs, ys, T)
    requires IsProductTable(xs, x, P) && IsSumTable(xs, T, P, S)
    requires IsBasisTable(xs, x, B) && IsWindowTable(xs, ys, B, W)
    requires i + j < |xs|
    ensures S[i][j] == W[i][i + j + 1][i + j + 1]
    decreases j
  {
    if j == 0 {
      assert SumStep(xs, T, P, S, i, 0);
      assert TableStep(xs, ys, T, i, 0);
      assert WindowStep(xs, ys, B, W, i, i + 1, i + 1);
      assert WindowStep(xs, ys, B, W, i, i + 1, i);
      assert BasisStep(xs, x, B, i, i, i + 1);
      assert BasisStep(xs, x, B, i, i, i);
    } else {
      NewtonIsLagrangeOnWindow(xs, ys, T, x, P, S, B, W, i + 1, j - 1);
      NewtonIsLagrangeOnWindow(xs, ys, T, x, P, S, B, W, i, j - 1);
      NewtonNeville(xs, ys, T, x, P, S, i, j);
      WindowNeville(xs, ys, x, B, W, i, i + j + 1);
      assert Apart(xs, i + j, i);
      Cancel(Spacing(xs, i, i + j), S[i][j], W[i][i + j + 1][i + j + 1]);
    }
  }

  /** On pairwise-distinct nodes, Newton's divided-difference form is the Lagrange polynomial. */
  lemma NewtonEqualsLagrange(xs: seq<real>, ys: seq<real>, x: real)
    requires Distinct(xs) && |ys| == |xs| && |xs| > 0
    ensures Newton(xs, ys, x) == Lagrange(xs, ys, x)
  {
    var T := DDTable(xs, ys);
    DDTableIsTable(xs, ys);
    var S := SumTable(xs, T, x);
    var W := WindowTable(xs, ys, x);
    NewtonIsLagrangeOnWindow(xs, ys, T, x, ProductTable(xs, x), S, BasisTable(xs, x), W, 0, |xs| - 1);
    assert S[0][|xs| - 1] == Newton(xs, ys, x);
    assert W[0][|xs|][|xs|] == Lagrange(xs, ys, x);
  }

  // ---------------------------------------------------------------------------
  // Exactness at the nodes
  // ---------------------------------------------------------------------------

  /** A basis polynomial vanishes at every other node of its window. */
  lemma {:induction false} BasisVanishesAtOtherNode(xs: seq<real>, k: nat, lo: nat, hi: nat, m: nat)
    requires Distinct(xs) && k < |xs| && lo <= m < hi <= |xs| && m != k
    ensures WindowBasis(xs, k, lo, hi, xs[m]) == 0.0
    decreases hi
  {
    if hi - 1 == m {
      assert LagrangeFactor(xs, k, m, xs[m]) == 0.0;
    } else {
      BasisVanishesAtOtherNode(xs, k, lo, hi - 1, m);
    }
  }

  /** A basis polynomial is 1 at its own node. */
  lemma {:induction false} BasisIsOneAtOwnNode(xs: seq<real>, k: nat, lo: nat, hi: nat)
    requires Distinct(xs) && k < |xs| && lo <= hi <= |xs|
    ensures WindowBasis(xs, k, lo, hi, xs[k]) == 1.0
    decreases hi
  {
    if hi > lo {
      BasisIsOneAtOwnNode(xs, k, lo, hi - 1);
      if hi - 1 != k {
        assert Apart(xs, hi - 1, k);
        QuotientOfSelf(xs[k] - xs[hi - 1]);
      }
    }
  }

  /** The basis polynomials are the Kronecker delta on the nodes. */
  lemma BasisKronecker(xs: seq<real>, k: nat, m: nat)
    requires Distinct(xs) && k < |xs| && m < |xs|
    ensures Basis(xs, k, xs[m]) == if k == m then 1.0 else 0.0
  {
    if k == m {
      BasisIsOneAtOwnNode(xs, k, 0, |xs|);
    } else {
      BasisVanishesAtOtherNode(xs, k, 0, |xs|, m);
    }
  }

  /** At node k, the partial Lagrange sum over the nodes 0 .. top-1 is y_k if it includes k and 0 otherwise. */
  lemma {:induction false} LagrangeSumAtNode(xs: seq<real>, ys: seq<real>, top: nat, k: nat)
    requires Distinct(xs) && |ys| == |xs| && top <= |xs| && k < |xs|
    ensures WindowSum(xs, ys, 0, |xs|, top, xs[k]) == if k < top then ys[k] else 0.0
    decreases top
  {
    if top > 0 {
      LagrangeSumAtNode(xs, ys, top - 1, k);
      BasisKronecker(xs, top - 1, k);
    }
  }

  /** The Lagrange polynomial passes through every data point. */
  lemma LagrangeAtNode(xs: seq<real>, ys: seq<real>, k: nat)
    requires Distinct(xs) && |ys| == |xs| && k < |xs|
    ensures Lagrange(xs, ys, xs[k]) == ys[k]
  {
    LagrangeSumAtNode(xs, ys, |xs|, k);
  }

  /** The Newton polynomial passes through every data point. */
  lemma NewtonAtNode(xs: seq<real>, ys: seq<real>, k: nat)
    requires Distinct(xs) && |ys| == |xs| && k < |xs|
    ensures Newton(xs, ys, xs[k]) == ys[k]
  {
    NewtonEqualsLagrange(xs, ys, xs[k]);
    LagrangeAtNode(xs, ys, k);
  }

  // ---------------------------------------------------------------------------
  // Constants are reproduced
  // ---------------------------------------------------------------------------

  /** Every divided difference of order one or more of constant data is zero. */
  lemma {:induction false} DividedDifferenceOfConstant(xs: seq<real>, c: real, i: nat, j: nat)
    requires Distinct(xs) && i + j < |xs|
    ensures DividedDifference(xs, seq(|xs|, _ => c), i, j) == if j == 0 then c else 0.0
    decreases j
  {
    var ys := seq(|xs|, _ => c);
    if j == 0 {
      assert ys[i] == c;
    } else {
      DividedDifferenceOfConstant(xs, c, i + 1, j - 1);
      DividedDifferenceOfConstant(xs, c, i, j - 1);
      assert Apart(xs, i + j, i);
    }
  }

  /** The Newton form of constant data is that constant on every leading window. */
  lemma {:induction false} NewtonSumOfConstant(xs: seq<real>, c: real, j: nat, x: real)
    requires Distinct(xs) && j < |xs|
    ensures NewtonSum(xs, DDTable(xs, seq(|xs|, _ => c)), 0, j, x) == c
    decreases j
  {
    DividedDifferenceOfConstant(xs, c, 0, j);
    if j > 0 {
      NewtonSumOfConstant(xs, c, j - 1, x);
    }
  }

  /**
   * The Lagrange form of constant data is that constant everywhere; with c = 1 this
   * says the basis polynomials sum to one.
   */
  lemma LagrangeOfConstant(xs: seq<real>, c: real, x: real)
    requires Distinct(xs) && |xs| > 0
    ensures Lagrange(xs, seq(|xs|, _ => c), x) == c
  {
    NewtonSumOfConstant(xs, c, |xs| - 1, x);
    NewtonEqualsLagrange(xs, seq(|xs|, _ => c), x);
  }

  /** With a single point, the Lagrange polynomial is the constant y0. */
  lemma LagrangeOfOnePoint(x0: real, y0: real, x: real)
    ensures Lagrange([x0], [y0], x) == y0
  {
    assert [y0] == seq(1, _ => y0);
    LagrangeOfConstant([x0], y0, x);
  }

  // ---------------------------------------------------------------------------
  // Field identities the proofs above cite, each on plain reals
  // ---------------------------------------------------------------------------

  lemma MulAssoc(a: real, b: real, c: real)
    ensures (a * b) * c == a * (b * c)
  {
  }

  lemma QuotientTimesDenominator(n: real, d: real)
    requires d != 0.0
    ensures d * (n / d) == n
  {
  }

  lemma QuotientOfSelf(d: real)
    requires d != 0.0
    ensures d / d == 1.0
  {
  }

  lemma Cancel(c: real, u: real, v: real)
    requires c != 0.0 && c * u == c * v
    ensures u == v
  {
    assert u == (c * u) / c;
  }

  lemma ShiftAlgebra(dL: real, dR: real, d: real, q: real, n1: real, n0: real, pa: real, pc: real, sc: real, se: real,
                     s1: real, s1p: real, s0: real, s0p: real)
    requires n1 == q * pc && n0 == pa * q
    requires sc == pa - pc && se * d == dR - dL
    requires s1 == s1p + dR * n1 && s0 == s0p + dL * n0
    requires s1p - s0p == sc * dL * q
    ensures s1 - s0 == se * d * n1
  {
    calc {
      s1 - s0;
      s1p - s0p + dR * n1 - dL * n0;
      sc * dL * q + dR * (q * pc) - dL * (pa * q);
      (pa - pc) * dL * q + dR * (q * pc) - dL * (pa * q);
      (dR - dL) * (q * pc);
      se * d * n1;
    }
  }

  lemma NevilleAlgebra(prev: real, shifted: real, n: real, c: real, p: real, r: real, d: real, q1: real, q0: real)
    requires c == p - r
    requires shifted - prev == c * d * q1
    requires n == prev + d * q0
    requires q0 == p * q1
    ensures c * n == p * shifted - r * prev
  {
  }

  /** c * (q * f) == e * (g * q) when f * s == g and c == e * s. */
  lemma EndAlgebra(c: real, b: real, q: real, f: real, s: real, g: real, e: real)
    requires b == q * f || b == f * q
    requires f * s == g && c == e * s
    ensures c * b == e * (g * q)
  {
  }

  lemma InnerAlgebra(c: real, A: real, C: real, a: real, b: real, u: real, v: real, q: real,
                     b0: real, b1: real, b2: real)
    requires u * a == A && v * b == C && c == a - b
    requires b2 == u * q && b0 == b2 * v && b1 == q * v
    ensures c * b0 == A * b1 - C * b2
  {
    calc {
      c * b0;
      (a - b) * (u * q * v);
      (u * a) * (q * v) - (v * b) * (u * q);
    }
  }

  lemma StepAlgebra(c: real, A: real, C: real, y: real, w0: real, w1: real, w2: real, b0: real, b1: real, b2: real,
                    n0: real, n1: real, n2: real)
    requires c * w0 == A * w1 - C * w2
    requires c * b0 == A * b1 - C * b2
    requires n0 == w0 + y * b0 && n1 == w1 + y * b1 && n2 == w2 + y * b2
    ensures c * n0 == A * n1 - C * n2
  {
    calc {
      c * n0;
      c * w0 + y * (c * b0);
      (A * w1 - C * w2) + y * (A * b1 - C * b2);
    }
  }
}
