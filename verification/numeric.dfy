/**
 * The numeric conversions the three programs rely on: float64 division
 * (with its non-finite results), the float-to-int conversion `int(f)`, and
 * `time.Duration.Milliseconds`. Finite float64 values are modelled as exact
 * reals, so rounding of the binary representation is not part of the model.
 */
module Numeric {

  /** A float64 value: a finite number, or one of the non-finite results of a division by zero. */
  datatype Float = Finite(value: real) | PosInf | NegInf | NaN

  /**
   * `float64(a) / float64(b)`. A non-zero divisor gives a finite quotient
   * that multiplies back to the dividend; a zero divisor gives the IEEE 754
   * result selected by the dividend's sign.
   */
  function Quotient(a: real, b: int): (q: Float)
    ensures b != 0 ==> q.Finite? && q.value * (b as real) == a
    ensures b == 0 ==> (q == PosInf <==> a > 0.0) && (q == NegInf <==> a < 0.0) && (q == NaN <==> a == 0.0)
  {
    if b != 0 then Finite(a / (b as real))
    else if a > 0.0 then PosInf
    else if a < 0.0 then NegInf
    else NaN
  }

  /** Go's conversion `int(x)` of a finite float: truncation toward zero. */
  function Trunc(x: real): (n: int)
    ensures 0.0 <= x ==> 0 <= n && n as real <= x < n as real + 1.0
    ensures x < 0.0 ==> n <= 0 && n as real - 1.0 < x <= n as real
  {
    if x >= 0.0 then x.Floor else -((-x).Floor)
  }

  /** Truncation never moves a value away from zero, so it commutes with negation. */
  lemma TruncOdd(x: real)
    ensures Trunc(-x) == -Trunc(x)
  {
  }

  /** Truncation preserves order. */
  lemma TruncMonotone(x: real, y: real)
    requires x <= y
    ensures Trunc(x) <= Trunc(y)
  {
  }

  /** `time.Duration.Milliseconds`: a nanosecond count divided by one million, truncated toward zero. */
  function Millis(nanos: int): (ms: int)
    ensures 0 <= nanos ==> 0 <= ms * 1_000_000 <= nanos < (ms + 1) * 1_000_000
    ensures nanos < 0 ==> (ms - 1) * 1_000_000 < nanos <= ms * 1_000_000 <= 0
  {
    if nanos >= 0 then nanos / 1_000_000 else -((-nanos) / 1_000_000)
  }

  /** A later instant never gets an earlier millisecond stamp. */
  lemma MillisMonotone(a: int, b: int)
    requires a <= b
    ensures Millis(a) <= Millis(b)
  {
    var ma, mb := Millis(a), Millis(b);
    if 0 <= a {
      assert ma * 1_000_000 <= a <= b < (mb + 1) * 1_000_000;
    } else if b < 0 {
      assert (ma - 1) * 1_000_000 < a <= b <= mb * 1_000_000;
    }
  }
}
