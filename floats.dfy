/** The floating-point behaviour the script relies on, kept abstract.

    Prices are modelled as exact reals, and so is every intermediate
    subtraction, division and scaling: the rounding each IEEE double operation
    performs is not modelled. What remains of the float behaviour is passed in
    as a `FloatModel`: `round(x, 2)`,
    `round(x, 0)`, and the value a division by a zero closing price yields
    (numpy gives an infinity or NaN, which is not a real). Every result of the
    model is stated for ANY such choice, so nothing depends on how rounding is
    done. */
module Floats {

  datatype FloatModel = FloatModel(
    round2: real -> real,      // Python round(x, 2)
    round0: real -> real,      // Python round(x, 0)
    divByZero: real -> real)   // numerator / 0.0 under numpy float division

  /** The division `a / b`, as real division whenever the divisor is not zero. */
  function Quotient(a: real, b: real, fl: FloatModel): (q: real)
    ensures b != 0.0 ==> q * b == a
  {
    if b != 0.0 then a / b else fl.divByZero(a)
  }

  /** `((current - previous) / previous) * 100`, the day-over-day change in
      percent used both for a company and for the index. */
  function PercentChange(previous: real, current: real, fl: FloatModel): (p: real)
    ensures previous != 0.0 ==> previous + p * previous / 100.0 == current
  {
    Quotient(current - previous, previous, fl) * 100.0
  }

  /** With a non-zero previous close the change is exactly the textbook
      formula, independent of the float model. */
  lemma PercentChangeFormula(previous: real, current: real, fl: FloatModel)
    requires previous != 0.0
    ensures PercentChange(previous, current, fl) == (current - previous) / previous * 100.0
    ensures current == previous <==> PercentChange(previous, current, fl) == 0.0
    ensures previous > 0.0 ==> (current > previous <==> PercentChange(previous, current, fl) > 0.0)
  {
  }
}
