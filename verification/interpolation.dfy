/**
 * The two interpolation routines of the application: Lagrange's form evaluated by a
 * double loop, and Newton's divided-difference table filled column by column and then
 * evaluated with a running product of node factors.
 */
module Interpolation {
  import opened InterpolationSpec

  /** The outcome of the Newton routine: its value and the table it filled, or no points. */
  datatype NewtonOutcome = NoPoints | Interpolated(value: real, table: array2<real>)

  /** The Lagrange interpolating polynomial of the points at x. */
  method LagrangeInterpolation(xs: seq<real>, ys: seq<real>, x: real) returns (result: real)
    requires |ys| == |xs| && Distinct(xs)
    ensures result == Lagrange(xs, ys, x)
  {
    var n := |xs|;
    ghost var B, W := LagrangeTables(xs, ys, x);
    assert WindowStep(xs, ys, B, W, 0, n, 0);
    result := 0.0;
    for i := 0 to n
      invariant result == W[0][n][i]
    {
      var term := ys[i];
      assert BasisStep(xs, x, B, i, 0, 0);
      for j := 0 to n
        invariant term == ys[i] * B[i][0][j]
      {
        assert BasisStep(xs, x, B, i, 0, j + 1);
        if i != j {
          assert Apart(xs, j, i);
          MulAssoc(ys[i], B[i][0][j], LagrangeFactor(xs, i, j, x));
          term := term * ((x - xs[j]) / (xs[i] - xs[j]));
        }
      }
      assert WindowStep(xs, ys, B, W, 0, n, i + 1);
      result := result + term;
    }
  }

  /**
   * The divided-difference table of the points: column 0 holds the y values, entry
   * (i, c) with i + c < n holds f[x_i, ..., x_{i+c}], and every other entry keeps the 0
   * it was created with.
   */
  method DividedDifferenceTable(xs: seq<real>, ys: seq<real>) returns (coef: array2<real>)
    requires |ys| == |xs| && |xs| > 0 && Distinct(xs)
    ensures fresh(coef) && coef.Length0 == |xs| && coef.Length1 == |xs|
    ensures forall i, c | 0 <= i < |xs| && 0 <= c < |xs| ::
      coef[i, c] == if i + c < |xs| then DividedDifference(xs, ys, i, c) else 0.0
  {
    var n := |xs|;
    ghost var T := DDTable(xs, ys);
    DDTableQuotients(xs, ys);
    coef := new real[n, n]((_, _) => 0.0);
    for i := 0 to n
      invariant forall a, c | 0 <= a < n && 0 <= c < n ::
        coef[a, c] == if c == 0 && a < i then T[a][0] else 0.0
    {
      coef[i, 0] := ys[i];
    }
    for j := 1 to n
      invariant forall a, c | 0 <= a < n && 0 <= c < n ::
        coef[a, c] == if c < j && a + c < n then T[a][c] else 0.0
    {
      FillColumn(xs, coef, j, T);
    }
  }

  /** One pass of the outer loop: column j of the table from column j - 1. */
  method FillColumn(xs: seq<real>, coef: array2<real>, j: nat, ghost T: seq<seq<real>>)
    requires Distinct(xs) && 1 <= j < |xs| && IsSquare(T, |xs|)
    requires forall i: nat, c: nat | 1 <= c && i + c < |xs| :: QuotientStep(xs, T, i, c)
    requires coef.Length0 == |xs| && coef.Length1 == |xs|
    requires forall a, c | 0 <= a < |xs| && 0 <= c < |xs| ::
      coef[a, c] == if c < j && a + c < |xs| then T[a][c] else 0.0
    modifies coef
    ensures forall a, c | 0 <= a < |xs| && 0 <= c < |xs| ::
      coef[a, c] == if c <= j && a + c < |xs| then T[a][c] else 0.0
  {
    var n := |xs|;
    for i := 0 to n - j
      invariant forall a, c | 0 <= a < n && 0 <= c < n ::
        coef[a, c] == if (c < j || (c == j && a < i)) && a + c < n then T[a][c] else 0.0
    {
      assert Apart(xs, i + j, i);
      assert QuotientStep(xs, T, i, j);
      coef[i, j] := (coef[i + 1, j - 1] - coef[i, j - 1]) / (xs[i + j] - xs[i]);
    }
  }

  /**
   * Newton's form of the interpolating polynomial at x, with the table it was computed
   * from. With no points there is no table entry (0, 0) to start from.
   */
  method NewtonDividedDifference(xs: seq<real>, ys: seq<real>, x: real) returns (r: NewtonOutcome)
    requires |ys| == |xs| && Distinct(xs)
    ensures r.NoPoints? <==> |xs| == 0
    ensures r.Interpolated? ==> r.value == Newton(xs, ys, x)
    ensures r.Interpolated? ==> fresh(r.table) && r.table.Length0 == |xs| && r.table.Length1 == |xs|
    ensures r.Interpolated? ==> forall i, c | 0 <= i < |xs| && 0 <= c < |xs| ::
      r.table[i, c] == if i + c < |xs| then DividedDifference(xs, ys, i, c) else 0.0
  {
    var n := |xs|;
    if n == 0 {
      return NoPoints;
    }
    var coef := DividedDifferenceTable(xs, ys);
    ghost var T := DDTable(xs, ys);
    ghost var P, S := NewtonTables(xs, T, x);
    assert SumStep(xs, T, P, S, 0, 0) && ProductStep(xs, x, P, 0, 0);
    var result := coef[0, 0];
    var mult := 1.0;
    for j := 1 to n
      modifies {}
      invariant mult == P[0][j - 1]
      invariant result == S[0][j - 1]
    {
      assert coef[0, j] == T[0][j];
      assert ProductStep(xs, x, P, 0, j) && SumStep(xs, T, P, S, 0, j);
      mult := mult * (x - xs[j - 1]);
      result := result + coef[0, j] * mult;
    }
    return Interpolated(result, coef);
  }
}
