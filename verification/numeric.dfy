/** Small numeric vocabulary shared by the root finders and the interpolation code. */
module Numeric {

  /** The result of a caller-supplied evaluator: a value, or None when it raised. */
  datatype Option<+T> = None | Some(value: T)

  /** The last element of a non-empty sequence (the last record of a trace). */
  function Last<T>(s: seq<T>): T
    requires |s| > 0
  {
    s[|s| - 1]
  }

  /** The root finders give up on an iterate of magnitude above 1e6. */
  const DivergenceBound: real := 1000000.0

  function Abs(x: real): (r: real)
    ensures r >= 0.0
    ensures r == x || r == -x
  {
    if x < 0.0 then -x else x
  }

  function Pow10(d: nat): (r: nat)
    ensures r >= 1
  {
    if d == 0 then 1 else 10 * Pow10(d - 1)
  }

  /** The stopping threshold `10**(-fixed_digits)` of the root finders, over exact reals. */
  function Precision(fixedDigits: int): (p: real)
    ensures p > 0.0
  {
    if fixedDigits >= 0 then 1.0 / (Pow10(fixedDigits) as real) else Pow10(-fixedDigits) as real
  }
}
