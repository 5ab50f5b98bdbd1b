/** `math::interpolate` (src/math.rs), with both type parameters modelled as `real`. */
module MathUtil {

  /** `left * (1 - value) + right * value`. */
  function Interpolate(value: real, left: real, right: real): (v: real)
    ensures value == 0.0 ==> v == left
    ensures value == 1.0 ==> v == right
    ensures left == right ==> v == left
  {
    left * (1.0 - value) + right * value
  }

  /** The affine form: start at left and move the fraction value of the way to right. */
  lemma InterpolateAffine(value: real, left: real, right: real)
    ensures Interpolate(value, left, right) == left + value * (right - left)
  {
  }

  /** For value in [0, 1] the result lies between the two ends, in either order. */
  lemma InterpolateBetween(value: real, left: real, right: real)
    requires 0.0 <= value <= 1.0
    ensures left <= right ==> left <= Interpolate(value, left, right) <= right
    ensures right <= left ==> right <= Interpolate(value, left, right) <= left
  {
    InterpolateAffine(value, left, right);
    ProductBetween(value, right - left);
  }

  /** v * d lies between 0 and d for v in [0, 1]. */
  lemma ProductBetween(v: real, d: real)
    requires 0.0 <= v <= 1.0
    ensures d >= 0.0 ==> 0.0 <= v * d <= d
    ensures d <= 0.0 ==> d <= v * d <= 0.0
  {
    if d >= 0.0 {
      NonNegativeProduct(v, d);
      NonNegativeProduct(1.0 - v, d);
      assert (1.0 - v) * d == d - v * d;
    } else {
      NonNegativeProduct(v, -d);
      NonNegativeProduct(1.0 - v, -d);
      assert v * (-d) == -(v * d);
      assert (1.0 - v) * (-d) == v * d - d;
    }
  }

  lemma NonNegativeProduct(a: real, b: real)
    requires a >= 0.0 && b >= 0.0
    ensures a * b >= 0.0
  {
  }

  /** Moving value towards 1 moves the result towards right. */
  lemma InterpolateMonotone(v1: real, v2: real, left: real, right: real)
    requires v1 <= v2 && left <= right
    ensures Interpolate(v1, left, right) <= Interpolate(v2, left, right)
  {
    InterpolateAffine(v1, left, right);
    InterpolateAffine(v2, left, right);
    NonNegativeProduct(v2 - v1, right - left);
    assert v2 * (right - left) - v1 * (right - left) == (v2 - v1) * (right - left);
  }
}
