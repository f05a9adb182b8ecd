/**
 * The "details" view of the two interpolation methods: the Lagrange basis
 * polynomials as text and as values at a point, and the Newton divided-difference
 * table with the terms of the Newton polynomial as text.
 *
 * Number formatting (Python's fixed-point format with a given count of decimals)
 * is not modelled; every text-producing method takes it as a parameter.
 */
module InterpolationDetails {
  import opened InterpolationSpec
  import Interpolation

  /** fmt(v, d) is the text of v with d digits after the decimal point. */
  type Formatter = (real, nat) -> string

  /** The parts separated by sep, as Python's str.join. */
  function Join(sep: string, parts: seq<string>): (r: string)
    ensures |parts| == 0 ==> r == ""
    ensures |parts| == 1 ==> r == parts[0]
    decreases |parts|
  {
    if |parts| == 0 then "" else if |parts| == 1 then parts[0] else parts[0] + sep + Join(sep, parts[1..])
  }

  /** The decimal digits of k. */
  function NatToString(k: nat): (r: string)
    ensures |r| >= 1
    ensures forall c | c in r :: '0' <= c <= '9'
  {
    var d := ['0' + (k % 10) as char];
    if k < 10 then d else NatToString(k / 10) + d
  }

  /** The sum of ys[i] * bs[i] over i < m. */
  function WeightedSum(ys: seq<real>, bs: seq<real>, m: nat): real
    requires m <= |ys| && m <= |bs|
  {
    if m == 0 then 0.0 else WeightedSum(ys, bs, m - 1) + ys[m - 1] * bs[m - 1]
  }

  /** Summing y_i times the basis values at x gives the Lagrange polynomial at x. */
  lemma {:induction false} BasisValuesGiveLagrange(xs: seq<real>, ys: seq<real>, x: real, bs: seq<real>, m: nat)
    requires Distinct(xs) && |ys| == |xs| && |bs| == |xs| && m <= |xs|
    requires forall i | 0 <= i < |xs| :: bs[i] == Basis(xs, i, x)
    ensures WeightedSum(ys, bs, m) == WindowSum(xs, ys, 0, |xs|, m, x)
    ensures m == |xs| ==> WeightedSum(ys, bs, m) == Lagrange(xs, ys, x)
    decreases m
  {
    if m > 0 {
      BasisValuesGiveLagrange(xs, ys, x, bs, m - 1);
    }
  }

  class LagrangeDetails {
    const xs: seq<real>
    const ys: seq<real>
    const n: nat

    predicate Valid()
    {
      n == |xs| && |ys| == |xs|
    }

    constructor(xs: seq<real>, ys: seq<real>)
      requires |ys| == |xs|
      ensures this.xs == xs && this.ys == ys && Valid()
    {
      this.xs := xs;
      this.ys := ys;
      this.n := |xs|;
    }

    /** The text of the factor (x - x_j)/(x_i - x_j). */
    function FactorText(fmt: Formatter, i: nat, j: nat): string
      requires Valid() && i < n && j < n
    {
      "(x - " + fmt(xs[j], 2) + ")/(" + fmt(xs[i], 2) + " - " + fmt(xs[j], 2) + ")"
    }

    /** The factors of basis polynomial i: one for every other node, in node order. */
    function BasisFactors(fmt: Formatter, i: nat): (r: seq<string>)
      requires Valid() && i < n
      ensures |r| == n - 1
    {
      seq(n - 1, k requires 0 <= k < n - 1 => FactorText(fmt, i, if k < i then k else k + 1))
    }

    /** Basis polynomial i as text: its n - 1 factors joined by " * ". */
    method GetBasisPolynomials(fmt: Formatter) returns (basis: seq<string>)
      requires Valid()
      ensures |basis| == n
      ensures forall i | 0 <= i < n :: basis[i] == Join(" * ", BasisFactors(fmt, i))
    {
      basis := [];
      for i := 0 to n
        invariant |basis| == i
        invariant forall a | 0 <= a < i :: basis[a] == Join(" * ", BasisFactors(fmt, a))
      {
        var terms: seq<string> := [];
        for j := 0 to n
          invariant terms == BasisFactors(fmt, i)[..if j <= i then j else j - 1]
        {
          if i != j {
            var p := if j < i then j else j - 1;
            assert BasisFactors(fmt, i)[..p + 1] == BasisFactors(fmt, i)[..p] + [FactorText(fmt, i, j)];
            terms := terms + [FactorText(fmt, i, j)];
          }
        }
        assert terms == BasisFactors(fmt, i);
        basis := basis + [Join(" * ", terms)];
      }
    }

    /** Term i of the full polynomial: y_i times basis polynomial i. */
    function FullTerm(fmt: Formatter, i: nat): string
      requires Valid() && i < n
    {
      fmt(ys[i], 2) + " * (" + Join(" * ", BasisFactors(fmt, i)) + ")"
    }

    /** The Lagrange polynomial as text: its n terms joined by " + ". */
    method GetFullPolynomial(fmt: Formatter) returns (r: string)
      requires Valid()
      ensures r == Join(" + ", seq(n, i requires 0 <= i < n => FullTerm(fmt, i)))
    {
      var terms: seq<string> := [];
      for i := 0 to n
        invariant terms == seq(i, a requires 0 <= a < i => FullTerm(fmt, a))
      {
        var all := GetBasisPolynomials(fmt);
        var basis := all[i];
        terms := terms + [fmt(ys[i], 2) + " * (" + basis + ")"];
      }
      r := Join(" + ", terms);
    }

    /** The values at x of the n basis polynomials. */
    method EvaluateBasisAtPoint(x: real) returns (values: seq<real>)
      requires Valid() && Distinct(xs)
      ensures |values| == n
      ensures forall i | 0 <= i < n :: values[i] == Basis(xs, i, x)
    {
      ghost var B := BasisValues(xs, x);
      values := [];
      for i := 0 to n
        invariant |values| == i
        invariant forall a | 0 <= a < i :: values[a] == Basis(xs, a, x)
      {
        var value := 1.0;
        assert BasisStep(xs, x, B, i, 0, 0);
        for j := 0 to n
          invariant value == B[i][0][j]
        {
          assert BasisStep(xs, x, B, i, 0, j + 1);
          if i != j {
            assert Apart(xs, j, i);
            value := value * ((x - xs[j]) / (xs[i] - xs[j]));
          }
        }
        values := values + [value];
      }
    }
  }

  /** A basis value table at x whose full-window entries are the basis polynomials. */
  lemma BasisValues(xs: seq<real>, x: real) returns (B: seq<seq<seq<real>>>)
    requires Distinct(xs)
    ensures IsBasisTable(xs, x, B)
    ensures forall k | 0 <= k < |xs| :: B[k][0][|xs|] == Basis(xs, k, x)
  {
    B := BasisTable(xs, x);
  }

  /** At node m, the basis values are 1 at position m and 0 elsewhere. */
  lemma EvaluatedBasisAtNode(xs: seq<real>, values: seq<real>, m: nat)
    requires Distinct(xs) && m < |xs| && |values| == |xs|
    requires forall i | 0 <= i < |xs| :: values[i] == Basis(xs, i, xs[m])
    ensures forall i | 0 <= i < |xs| :: values[i] == if i == m then 1.0 else 0.0
  {
    forall i | 0 <= i < |xs|
      ensures values[i] == if i == m then 1.0 else 0.0
    {
      BasisKronecker(xs, i, m);
    }
  }

  class NewtonDetails {
    const xs: seq<real>
    const ys: seq<real>
    const n: nat
    const table: array2<real>

    predicate Valid()
      reads table
    {
      n == |xs| && |ys| == |xs| && n > 0 && Distinct(xs) &&
      table.Length0 == n && table.Length1 == n &&
      forall i, c | 0 <= i < n && 0 <= c < n :: table[i, c] == if i + c < n then DividedDifference(xs, ys, i, c) else 0.0
    }

    /** Stores the points and computes their divided-difference table. */
    constructor(xs: seq<real>, ys: seq<real>)
      requires |ys| == |xs| && |xs| > 0 && Distinct(xs)
      ensures this.xs == xs && this.ys == ys && fresh(table) && Valid()
    {
      this.xs := xs;
      this.ys := ys;
      this.n := |xs|;
      var t := Interpolation.DividedDifferenceTable(xs, ys);
      this.table := t;
    }

    /** The text of the node factor (x - x_k). */
    function NodeFactorText(fmt: Formatter, k: nat): string
      requires k < |xs|
    {
      "(x - " + fmt(xs[k], 2) + ")"
    }

    /** The node factors (x - x_0)(x - x_1) ... (x - x_{i-1}) of Newton term i, as text. */
    function ProductText(fmt: Formatter, i: nat): string
      requires i <= |xs|
    {
      if i == 0 then "" else ProductText(fmt, i - 1) + NodeFactorText(fmt, i - 1)
    }

    /**
     * The n terms of the Newton polynomial as text: term i is the coefficient
     * f[x_0, ..., x_i] with four decimals followed by its i node factors.
     */
    method GetPolynomialTerms(fmt: Formatter) returns (terms: seq<string>)
      requires Valid()
      ensures |terms| == n
      ensures forall i {:trigger terms[i]} | 0 <= i < n ::
        terms[i] == fmt(DividedDifference(xs, ys, 0, i), 4) + ProductText(fmt, i)
    {
      terms := [fmt(table[0, 0], 4)];
      var product := "";
      for i := 1 to n
        invariant |terms| == i
        invariant product == ProductText(fmt, i - 1)
        invariant forall a {:trigger terms[a]} | 0 <= a < i :: terms[a] == fmt(table[0, a], 4) + ProductText(fmt, a)
      {
        product := product + ("(x - " + fmt(xs[i - 1], 2) + ")");
        terms := terms + [fmt(table[0, i], 4) + product];
      }
    }

    /** The header row of the formatted table: "x", "f(x)", then f[1] .. f[n-1]. */
    function Headers(): (r: seq<string>)
      requires n > 0
      ensures |r| == n + 1
    {
      ["x", "f(x)"] + seq(n - 1, k requires 0 <= k < n - 1 => "f[" + NatToString(k + 1) + "]")
    }

    /** Row i of the formatted table: x_i, then the n - i divided differences starting at node i. */
    function TableRow(fmt: Formatter, i: nat): (r: seq<string>)
      requires Distinct(xs) && |ys| == |xs| && i < |xs| == n
      ensures |r| == n - i + 1
    {
      [fmt(xs[i], 4)] + seq(n - i, c requires 0 <= c < n - i => fmt(DividedDifference(xs, ys, i, c), 4))
    }

    /** The headers followed by the triangular rows of the divided-difference table. */
    method GetFormattedTable(fmt: Formatter) returns (rows: seq<seq<string>>)
      requires Valid()
      ensures |rows| == n + 1
      ensures rows[0] == Headers()
      ensures forall i | 0 <= i < n :: rows[i + 1] == TableRow(fmt, i)
    {
      var headers := ["x", "f(x)"];
      for i := 1 to n
        invariant headers == ["x", "f(x)"] + seq(i - 1, k requires 0 <= k < i - 1 => "f[" + NatToString(k + 1) + "]")
      {
        headers := headers + ["f[" + NatToString(i) + "]"];
      }
      var data: seq<seq<string>> := [];
      for i := 0 to n
        invariant |data| == i
        invariant forall a | 0 <= a < i :: data[a] == TableRow(fmt, a)
      {
        var row := [fmt(xs[i], 4)];
        for j := 0 to n - i
          invariant row == TableRow(fmt, i)[..j + 1]
        {
          row := row + [fmt(table[i, j], 4)];
        }
        data := data + [row];
      }
      rows := [headers] + data;
    }
  }
}
