/** Scalar helpers of bouncierApp.cpp: the `clamp` template and the
    float-to-int conversions the grid uses (`(int)floor(v)` and `int(v)`). */
module Scalar {

  /** `clamp(v, low, high)` at the type `int`, the only type it is used at. */
  function Clamp(v: int, low: int, high: int): (r: int)
    ensures low <= high ==> low <= r <= high
    ensures low <= high && low <= v <= high ==> r == v
    ensures v < low ==> r == low
    ensures low <= high < v ==> r == high
    // On an empty range the first test wins for v <= low, the second otherwise.
    ensures high < low ==> r == (if v <= low then low else high)
  {
    if v <= low then low
    else if v >= high then high
    else v
  }

  /** Clamping is monotone in the clamped value. */
  lemma ClampMonotone(v1: int, v2: int, low: int, high: int)
    requires v1 <= v2 && low <= high
    ensures Clamp(v1, low, high) <= Clamp(v2, low, high)
  {
  }

  /** C++ conversion of a floating-point value to `int`: truncation toward zero. */
  function Trunc(v: real): (r: int)
    ensures 0.0 <= v ==> r as real <= v < r as real + 1.0
    ensures v < 0.0 ==> r as real - 1.0 < v <= r as real
  {
    if v >= 0.0 then v.Floor else -((-v).Floor)
  }

  /** Once clamped into a range that starts at 0, truncation and floor agree:
      they differ only on negative values, which both clamp to 0. */
  lemma ClampTruncIsClampFloor(v: real, high: int)
    requires 0 <= high
    ensures Clamp(Trunc(v), 0, high) == Clamp(v.Floor, 0, high)
  {
    if v < 0.0 {
      assert Trunc(v) <= 0;
      assert v.Floor < 0;
    }
  }

  /** `floor` is monotone. */
  lemma FloorMonotone(a: real, b: real)
    requires a <= b
    ensures a.Floor <= b.Floor
  {
  }
}
