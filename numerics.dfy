/** C++ numeric conversions used by the YOLOv5 post-processing, stated over
    unbounded integers and real numbers (float values are modelled as reals). */
module Numerics {

  /** The C++ cast `(int) x` of a floating value: truncation toward zero. */
  function Trunc(x: real): int {
    if x >= 0.0 then x.Floor else -((-x).Floor)
  }

  /** `Trunc` drops the fractional part: the result is the integer next to
      `x` on the side of zero. */
  lemma TruncTowardZero(x: real)
    ensures 0.0 <= x ==> 0 <= Trunc(x) && Trunc(x) as real <= x < Trunc(x) as real + 1.0
    ensures x < 0.0 ==> Trunc(x) <= 0 && Trunc(x) as real - 1.0 < x <= Trunc(x) as real
  {
  }

  /** `std::round`: to the nearest integer, halfway cases away from zero. */
  function Round(x: real): int {
    if x >= 0.0 then (x + 0.5).Floor else -((-x + 0.5).Floor)
  }

  /** `Round` is within half a unit of `x`, and a halfway `x` goes to the
      integer farther from zero. */
  lemma RoundNearest(x: real)
    ensures 0.0 <= x ==> Round(x) as real - 0.5 <= x < Round(x) as real + 0.5
    ensures x < 0.0 ==> Round(x) as real - 0.5 < x <= Round(x) as real + 0.5
  {
  }

  /** C++ integer division `a / 2`: the quotient is truncated toward zero,
      so for odd negative `a` it is one more than the floor. */
  function HalfTrunc(a: int): (q: int)
    ensures 0 <= a ==> 0 <= 2 * q <= a <= 2 * q + 1
    ensures a < 0 ==> 2 * q - 1 <= a <= 2 * q <= 0
  {
    if a >= 0 then a / 2 else -((-a) / 2)
  }

  /** The template `clip(n, lower, upper) = std::max(lower, std::min(n, upper))`,
      at the only type it is used with here, `int`. */
  function Clip(n: int, lower: int, upper: int): (r: int)
    ensures lower <= upper ==> lower <= r <= upper
    ensures lower <= n <= upper ==> r == n
    ensures n < lower ==> r == lower
    ensures lower <= upper < n ==> r == upper
    ensures upper < lower ==> r == lower
  {
    var m := if upper < n then upper else n;  // std::min(n, upper)
    if lower < m then m else lower            // std::max(lower, m)
  }

  /** Clamping twice is clamping once. */
  lemma ClipIdempotent(n: int, lower: int, upper: int)
    ensures Clip(Clip(n, lower, upper), lower, upper) == Clip(n, lower, upper)
  {
  }

  /** Rounding a whole number gives it back. */
  lemma RoundOfInt(n: int)
    ensures Round(n as real) == n
  {
  }
}
