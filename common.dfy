/** Values shared by every stage of the thresholding model: optional
    reduction results, the error kinds the pipeline can end in, and the
    arithmetic helpers that stand in for the engine's number operations. */
module Common {

  /** A reduction result that may be missing (the engine's null). */
  datatype Option<+T> = None | Some(value: T)

  /** How a thresholding call can fail. */
  datatype Error =
    | ShapeMismatch   // bucket means and counts of a histogram differ in length
    | EmptyHistogram  // a histogram whose total count is zero: its global mean is undefined
    | NoImagery       // the bootstrap target date matches no scene

  datatype Result<+T> = Ok(value: T) | Err(error: Error)

  /** Division that is total: a zero divisor yields 0. Wherever the source
      divides by a count that can be zero, the quotient is then multiplied by
      that same count, so the value chosen here never reaches a result. */
  function Quotient(x: real, y: real): real
  {
    if y == 0.0 then 0.0 else x / y
  }

  lemma QuotientTimes(x: real, y: real)
    requires y != 0.0
    ensures y * Quotient(x, y) == x
  {
  }

  lemma QuotientIsDivision(x: real, y: real)
    requires y != 0.0
    ensures Quotient(x, y) == x / y
  {
  }

  lemma DivTimes(x: real, y: real)
    requires y != 0.0
    ensures y * (x / y) == x
  {
  }

  lemma QuotientOfMultiple(m: real, c: real)
    requires c != 0.0
    ensures Quotient(m * c, c) == m
    ensures (m * c) / c == m
  {
  }

  /** The engine's `pow(2)`. */
  function Sq(x: real): (r: real)
    ensures r >= 0.0
  {
    x * x
  }

  lemma SqPositive(d: real)
    requires d != 0.0
    ensures Sq(d) > 0.0
  {
    if d > 0.0 {
      calc { Sq(d); == d * d; > 0.0; }
    } else {
      calc { Sq(d); == (-d) * (-d); > 0.0; }
    }
  }

  /** The engine's `min`. */
  function Min(a: real, b: real): (m: real)
    ensures m <= a && m <= b
    ensures m == a || m == b
  {
    if a <= b then a else b
  }
}
