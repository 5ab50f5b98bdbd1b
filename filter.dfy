/**
 * The reconstruction filters of src/reconstruction/filter.rs. The `Filter`
 * trait with its two implementations becomes one datatype with a variant
 * per implementation; `radius` and `evaluate` dispatch on the variant.
 */
module Filters {
  import opened MathUtil

  /** The four coefficients `[f64; 4]` of a cubic a0 + a1 x + a2 x^2 + a3 x^3. */
  datatype Cubic = Cubic(a0: real, a1: real, a2: real, a3: real)

  function Poly(p: Cubic, x: real): real {
    p.a0 + p.a1 * x + p.a2 * x * x + p.a3 * x * x * x
  }

  /** The derivative of Poly(p, .) at x. */
  function Slope(p: Cubic, x: real): real {
    p.a1 + 2.0 * p.a2 * x + 3.0 * p.a3 * x * x
  }

  datatype Filter =
    | BoxFilter(radiusX: real, radiusY: real)
    | MitchellFilter(radiusX: real, radiusY: real, p1: Cubic, p2: Cubic)

  function Abs(v: real): real {
    if v < 0.0 then -v else v
  }

  // ----- BoxFilter -----------------------------------------------------------------------------

  function BoxWithDefaults(): (f: Filter)
    ensures f.BoxFilter? && Radius(f) == (0.5, 0.5)
  {
    BoxFilter(0.5, 0.5)
  }

  /** `BoxFilter::evaluate` exactly as written: the y test has no `abs`. */
  function BoxEvaluateAsWritten(radiusX: real, radiusY: real, x: real, y: real): (w: real)
    ensures w == 0.0 || w == 1.0
    ensures w == 1.0 <==> Abs(x) <= radiusX && y <= radiusY
  {
    if Abs(x) <= radiusX && y <= radiusY then 1.0 else 0.0
  }

  /** As written, every point far below the box still has weight 1: the box is not even in y. */
  lemma BoxAsWrittenNotEvenInY(radiusX: real, radiusY: real, r: real)
    requires radiusX >= 0.0 && r >= 0.0
    ensures BoxEvaluateAsWritten(radiusX, radiusY, 0.0, -r) == 1.0 || radiusY < -r
    ensures radiusY >= 0.0 ==> BoxEvaluateAsWritten(radiusX, radiusY, 0.0, -(radiusY + 1.0)) == 1.0
    ensures BoxEvaluateAsWritten(radiusX, radiusY, 0.0, Abs(radiusY) + 1.0) == 0.0
  {
  }

  /** The box as intended: weight 1 exactly inside the rectangle |x| <= rx, |y| <= ry. */
  function BoxEvaluate(radiusX: real, radiusY: real, x: real, y: real): (w: real)
    ensures w == 0.0 || w == 1.0
    ensures w == 1.0 <==> Abs(x) <= radiusX && Abs(y) <= radiusY
  {
    if Abs(x) <= radiusX && Abs(y) <= radiusY then 1.0 else 0.0
  }

  lemma BoxEven(radiusX: real, radiusY: real, x: real, y: real)
    ensures BoxEvaluate(radiusX, radiusY, x, y) == BoxEvaluate(radiusX, radiusY, -x, y)
    ensures BoxEvaluate(radiusX, radiusY, x, y) == BoxEvaluate(radiusX, radiusY, x, -y)
  {
  }

  /** The two differ only below the box: on or above its lower edge they agree. */
  lemma BoxAgreesAboveLowerEdge(radiusX: real, radiusY: real, x: real, y: real)
    requires y >= -radiusY
    ensures BoxEvaluate(radiusX, radiusY, x, y) == BoxEvaluateAsWritten(radiusX, radiusY, x, y)
  {
  }

  // ----- MitchellFilter ------------------------------------------------------------------------

  /**
   * `MitchellFilter::new`: the Mitchell-Netravali cubic ("Reconstruction Filters
   * in Computer Graphics", SIGGRAPH 1988) with its coefficients divided by 6.
   */
  function MitchellNew(radiusX: real, radiusY: real, b: real, c: real): (f: Filter)
    ensures f.MitchellFilter? && Radius(f) == (radiusX, radiusY)
    ensures Poly(f.p1, 0.0) == 1.0 - b / 3.0 && Slope(f.p1, 0.0) == 0.0
    ensures Poly(f.p1, 1.0) == b / 6.0 == Poly(f.p2, 1.0)
    ensures Slope(f.p1, 1.0) == Slope(f.p2, 1.0)
    ensures Poly(f.p2, 2.0) == 0.0 && Slope(f.p2, 2.0) == 0.0
  {
    var p1 := Cubic(1.0 - b / 3.0, 0.0, -3.0 + 2.0 * b + c, 2.0 - 1.5 * b - c);
    var p2 := Cubic(4.0 / 3.0 * b + 4.0 * c, -2.0 * b - 8.0 * c, b + 5.0 * c, -b / 6.0 - c);
    MitchellFilter(radiusX, radiusY, p1, p2)
  }

  function MitchellWithDefaults(): (f: Filter)
    ensures f == MitchellNew(2.0, 2.0, 1.0 / 3.0, 1.0 / 3.0)
    ensures Radius(f) == (2.0, 2.0)
  {
    MitchellNew(2.0, 2.0, 1.0 / 3.0, 1.0 / 3.0)
  }

  /** `MitchellFilter::mitchell`: the two-piece cubic in x = 2|v|, zero for |v| > 1. */
  function Mitchell(p1: Cubic, p2: Cubic, v: real): (w: real)
    ensures Abs(v) > 1.0 ==> w == 0.0
    ensures v == 0.0 ==> w == p1.a0
  {
    var x := 2.0 * Abs(v);
    if x <= 1.0 then Poly(p1, x)
    else if x <= 2.0 then Poly(p2, x)
    else 0.0
  }

  lemma MitchellEven(p1: Cubic, p2: Cubic, v: real)
    ensures Mitchell(p1, p2, -v) == Mitchell(p1, p2, v)
  {
    assert Abs(-v) == Abs(v);
  }

  /**
   * The argument `d / radius` of one axis. In f64 a zero radius gives an
   * infinite or NaN argument, and both fail the `x <= 1.0` and `x <= 2.0`
   * tests, so the axis weight is 0.0.
   */
  function AxisWeight(p1: Cubic, p2: Cubic, d: real, radius: real): (w: real)
    ensures radius > 0.0 && Abs(d) > radius ==> w == 0.0
    ensures radius == 0.0 ==> w == 0.0
  {
    if radius == 0.0 then 0.0
    else
      assert Abs(d) > radius > 0.0 ==> Abs(d / radius) > 1.0 by {
        if Abs(d) > radius > 0.0 {
          assert Abs(d / radius) == Abs(d) / radius;
          assert Abs(d) / radius > radius / radius;
        }
      }
      Mitchell(p1, p2, d / radius)
  }

  // ----- The Filter interface ------------------------------------------------------------------

  function Radius(f: Filter): (r: (real, real))
    ensures r == (f.radiusX, f.radiusY)
  {
    (f.radiusX, f.radiusY)
  }

  /** `radius` gives back the radii each constructor was given. */
  lemma RadiusOfConstructors(radiusX: real, radiusY: real, b: real, c: real)
    ensures Radius(BoxFilter(radiusX, radiusY)) == (radiusX, radiusY)
    ensures Radius(MitchellNew(radiusX, radiusY, b, c)) == (radiusX, radiusY)
    ensures Radius(BoxWithDefaults()) == (0.5, 0.5) && Radius(MitchellWithDefaults()) == (2.0, 2.0)
  {
  }

  /**
   * `Filter::evaluate`. The box variant uses the corrected symmetric test; it
   * agrees with the code's one-sided y test (BoxEvaluateAsWritten) on and
   * above the box's lower edge.
   */
  function Evaluate(f: Filter, x: real, y: real): (w: real)
    ensures f.BoxFilter? ==> (w == 0.0 || w == 1.0)
    ensures f.BoxFilter? ==> (w == 1.0 <==> Abs(x) <= f.radiusX && Abs(y) <= f.radiusY)
    ensures f.BoxFilter? && y >= -f.radiusY ==> w == BoxEvaluateAsWritten(f.radiusX, f.radiusY, x, y)
  {
    match f
    case BoxFilter(rx, ry) => BoxEvaluate(rx, ry, x, y)
    case MitchellFilter(rx, ry, p1, p2) => AxisWeight(p1, p2, x, rx) * AxisWeight(p1, p2, y, ry)
  }

  /** The Mitchell kernel and the corrected box are even in each axis. */
  lemma EvaluateEven(f: Filter, x: real, y: real)
    ensures Evaluate(f, -x, y) == Evaluate(f, x, y)
    ensures Evaluate(f, x, -y) == Evaluate(f, x, y)
  {
    match f
    case BoxFilter(rx, ry) =>
      BoxEven(rx, ry, x, y);
    case MitchellFilter(rx, ry, p1, p2) =>
      if rx != 0.0 {
        assert -x / rx == -(x / rx);
        MitchellEven(p1, p2, x / rx);
      }
      if ry != 0.0 {
        assert -y / ry == -(y / ry);
        MitchellEven(p1, p2, y / ry);
      }
  }

  /** With positive radii, the Mitchell kernel and the corrected box vanish outside the rectangle |x| <= rx, |y| <= ry. */
  lemma EvaluateSupport(f: Filter, x: real, y: real)
    requires f.radiusX > 0.0 && f.radiusY > 0.0
    requires Abs(x) > f.radiusX || Abs(y) > f.radiusY
    ensures Evaluate(f, x, y) == 0.0
  {
  }

  /** At the centre the Mitchell weight is (1 - b/3)^2, which is 64/81 for the defaults. */
  lemma MitchellAtCentre(radiusX: real, radiusY: real, b: real, c: real)
    requires radiusX != 0.0 && radiusY != 0.0
    ensures Evaluate(MitchellNew(radiusX, radiusY, b, c), 0.0, 0.0) == (1.0 - b / 3.0) * (1.0 - b / 3.0)
    ensures Evaluate(MitchellWithDefaults(), 0.0, 0.0) == 64.0 / 81.0
  {
    assert 0.0 / radiusX == 0.0 && 0.0 / radiusY == 0.0;
  }

  /** Poly(p, x) for x = s + e t (e = 1 or -1), with t^2 = t2 and t^3 = t3, as a sum of monomials. */
  lemma PolyAround(p: Cubic, x: real, s: real, e: real, t: real, t2: real, t3: real)
    requires t2 == t * t && t3 == t2 * t && (e == 1.0 || e == -1.0) && x == s + e * t
    ensures Poly(p, x) == p.a0 + p.a1 * s + p.a2 * (s * s) + p.a3 * (s * s * s)
      + e * (p.a1 * t) + e * 2.0 * s * (p.a2 * t) + e * 3.0 * (s * s) * (p.a3 * t)
      + p.a2 * t2 + 3.0 * s * (p.a3 * t2) + e * (p.a3 * t3)
  {
    var x2 := s * s + e * 2.0 * s * t + t2;
    var x3 := s * s * s + e * 3.0 * (s * s) * t + 3.0 * s * t2 + e * t3;
    assert e * e == 1.0;
    assert x * x == x2;
    assert x * x * x == x3 by {
      assert x * x * x == x2 * x;
    }
    assert p.a2 * x * x == p.a2 * x2;
    assert p.a3 * x * x * x == p.a3 * x3;
  }

  /** u * q stays within [lo, hi] when u is in [0,1] and q is, and the interval holds 0. */
  lemma ScaledWithin(u: real, q: real, lo: real, hi: real)
    requires 0.0 <= u <= 1.0 && lo <= q <= hi && lo <= 0.0 <= hi
    ensures lo <= u * q <= hi
  {
    NonNegativeProduct(u, q - lo);
    NonNegativeProduct(u, hi - q);
    NonNegativeProduct(1.0 - u, -lo);
    NonNegativeProduct(1.0 - u, hi);
  }

  /** With the default b = c = 1/3, each axis weight stays within [-8/9, 8/9]. */
  lemma DefaultAxisBound(v: real)
    ensures var f := MitchellWithDefaults();
      -8.0 / 9.0 <= Mitchell(f.p1, f.p2, v) <= 8.0 / 9.0
  {
    var f := MitchellWithDefaults();
    var x := 2.0 * Abs(v);
    if x <= 1.0 {
      // p1(x) = 8/9 - x^2 (2 - 7/6 x), and 0 <= x^2 (2 - 7/6 x) <= 5/6 on [0, 1]
      var x2 := x * x;
      assert Poly(f.p1, x) == 8.0 / 9.0 - x2 * (2.0 - 7.0 / 6.0 * x);
      NonNegativeProduct(x, 1.0 - x);
      assert x * (1.0 - x) == x - x2;
      NonNegativeProduct(x2, 2.0 - 7.0 / 6.0 * x);
      assert 5.0 / 6.0 - x2 * (2.0 - 7.0 / 6.0 * x) == (1.0 - x) * (5.0 / 6.0 + 5.0 / 6.0 * x - 7.0 / 6.0 * x2);
      NonNegativeProduct(1.0 - x, 5.0 / 6.0 + 5.0 / 6.0 * x - 7.0 / 6.0 * x2);
    } else if x <= 2.0 {
      // p2(1 + u) = 1/18 + u q(u) with q(u) = -1/2 + 5/6 u - 7/18 u^2 in [-8/9, 1/3]
      var u := x - 1.0;
      var u2 := u * u;
      var q := -0.5 + 5.0 / 6.0 * u - 7.0 / 18.0 * u2;
      NonNegativeProduct(u, 1.0 - u);
      assert u * (1.0 - u) == u - u2;
      NonNegativeProduct(u, u);
      assert Poly(f.p2, x) == 1.0 / 18.0 + u * q by {
        PolyAround(f.p2, x, 1.0, 1.0, u, u2, u2 * u);
      }
      ScaledWithin(u, q, -8.0 / 9.0, 1.0 / 3.0);
    }
  }

  lemma ProductBound(a: real, b: real, m: real)
    requires -m <= a <= m && -m <= b <= m
    ensures a * b <= m * m
  {
    NonNegativeProduct(m - a, m + b);
    NonNegativeProduct(m + a, m - b);
    assert (m - a) * (m + b) + (m + a) * (m - b) == 2.0 * (m * m) - 2.0 * (a * b);
  }

  /** With the defaults, the weight at the centre, 64/81, is the largest the kernel takes. */
  lemma DefaultPeakAtCentre(x: real, y: real)
    ensures Evaluate(MitchellWithDefaults(), x, y) <= Evaluate(MitchellWithDefaults(), 0.0, 0.0)
  {
    var f := MitchellWithDefaults();
    MitchellAtCentre(2.0, 2.0, 1.0 / 3.0, 1.0 / 3.0);
    DefaultAxisBound(x / 2.0);
    DefaultAxisBound(y / 2.0);
    var a, b := AxisWeight(f.p1, f.p2, x, 2.0), AxisWeight(f.p1, f.p2, y, 2.0);
    assert Evaluate(f, x, y) == a * b;
    ProductBound(a, b, 8.0 / 9.0);
  }
}
