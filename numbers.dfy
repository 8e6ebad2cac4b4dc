/** JavaScript numbers as the model sees them: a finite value, taken as an exact
    real, or one of NaN, Infinity and -Infinity, which the components only ever
    test with Number.isFinite and so are not told apart. */
module Numbers {

  datatype Number = Finite(value: real) | NotFinite

  function Max(a: real, b: real): (r: real)
    ensures r >= a && r >= b && (r == a || r == b)
  {
    if a >= b then a else b
  }

  /** The quotient a / b as JavaScript computes it: a division by zero gives
      NaN or an infinity, never a finite value. */
  function Divide(a: real, b: real): (r: Number)
    ensures r.Finite? <==> b != 0.0
    ensures r.Finite? ==> r.value * b == a
  {
    if b == 0.0 then NotFinite else Finite(a / b)
  }
}
