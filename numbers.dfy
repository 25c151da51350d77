/**
  JavaScript numbers as the report engine uses them: a finite value or NaN.
  Amounts are exact reals; IEEE-754 rounding, infinities and -0 are not modelled.
 */
module Numbers {

  datatype Num = Fin(v: real) | NaN

  /** `isFinite(n)` */
  predicate IsFinite(n: Num) { n.Fin? }

  /** `n > x`: false for NaN */
  predicate Gt(n: Num, x: real) { n.Fin? && n.v > x }

  /** `n < x`: false for NaN */
  predicate Lt(n: Num, x: real) { n.Fin? && n.v < x }

  /** `a - b` */
  function Sub(a: Num, b: Num): (r: Num)
    ensures r.Fin? <==> a.Fin? && b.Fin?
  {
    if a.Fin? && b.Fin? then Fin(a.v - b.v) else NaN
  }

  /** `Number(n || 0)`: NaN (and 0) read as 0 */
  function OrZero(n: Num): (r: real)
    ensures n.Fin? ==> r == n.v
  {
    if n.Fin? then n.v else 0.0
  }

  function Max(a: int, b: int): int { if a >= b then a else b }
}
