/**
 * JavaScript number results that matter to the model: a finite value, or the
 * non-finite outcomes of dividing by zero.
 */
module JsNumber {
  datatype Number = Finite(value: real) | NaN | Infinity | NegInfinity

  /** `a / b` on JavaScript numbers, for finite operands. */
  function Div(a: real, b: real): (r: Number)
    ensures r.Finite? <==> b != 0.0
    ensures r.Finite? ==> r.value * b == a
    ensures b == 0.0 ==> (r.NaN? <==> a == 0.0) && (r.Infinity? <==> a > 0.0) && (r.NegInfinity? <==> a < 0.0)
  {
    if b != 0.0 then Finite(a / b)
    else if a == 0.0 then NaN
    else if a > 0.0 then Infinity
    else NegInfinity
  }
}
