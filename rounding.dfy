/**
 * The two real-to-integer conversions the timer relies on: Python's `int(x)`,
 * which truncates toward zero, and `math.ceil(x)`, which rounds up.
 * Durations are modelled as exact reals, not IEEE doubles.
 */
module Rounding {

  /** `int(x)`: the integer part of `x`, truncated toward zero. */
  function TruncToInt(x: real): (r: int)
    ensures 0.0 <= x ==> 0 <= r && r as real <= x < r as real + 1.0
    ensures x < 0.0 ==> r <= 0 && r as real - 1.0 < x <= r as real
  {
    if x >= 0.0 then x.Floor else -((-x).Floor)
  }

  /** `math.ceil(x)`: the least integer not below `x`. */
  function CeilToInt(x: real): (r: int)
    ensures x <= r as real < x + 1.0
  {
    -((-x).Floor)
  }

  /** `math.ceil(a / b)` for integers and a positive divisor. */
  function CeilDiv(a: int, b: int): (q: int)
    requires b > 0
    ensures (q - 1) * b < a <= q * b
  {
    -((-a) / b)
  }
}
