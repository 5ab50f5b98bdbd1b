/**
 * The escape-time core shared by src/rendering/mandelbrot.rs and src/julia.rs:
 * complex numbers as pairs of reals, the orbit of z -> z*z + c, the bounded
 * escape loop, and the affine viewport map from image locations to the
 * complex plane (with row 0 at the top).
 */
module EscapeTime {
  /** `num_complex::Complex64`, with real parts. */
  datatype Complex = Complex(re: real, im: real)

  const Zero := Complex(0.0, 0.0)

  function Add(a: Complex, b: Complex): Complex {
    Complex(a.re + b.re, a.im + b.im)
  }

  function Mul(a: Complex, b: Complex): Complex {
    Complex(a.re * b.re - a.im * b.im, a.re * b.im + a.im * b.re)
  }

  /** `norm_sqr`: re^2 + im^2. */
  function NormSqr(z: Complex): (n: real)
    ensures n >= 0.0
  {
    SquarePositive(z.re);
    SquarePositive(z.im);
    z.re * z.re + z.im * z.im
  }

  lemma SquarePositive(a: real)
    ensures a * a >= 0.0
    ensures a != 0.0 ==> a * a > 0.0
  {
    if a < 0.0 {
      assert a * a == (-a) * (-a);
    }
  }

  lemma MulZero()
    ensures Mul(Zero, Zero).re == 0.0 && Mul(Zero, Zero).im == 0.0
  {
  }

  /** The first step from 0 lands on c, and 0 lies inside the disc. */
  lemma StepFromZero(c: Complex)
    ensures Step(Zero, c) == c && !Escaped(Zero)
  {
    MulZero();
    AddZero(Mul(Zero, Zero), c);
  }

  lemma AddZero(m: Complex, c: Complex)
    requires m.re == 0.0 && m.im == 0.0
    ensures Add(m, c) == c
  {
  }

  /** The loop condition fails: |z|^2 > 4. */
  predicate Escaped(z: Complex) {
    NormSqr(z) > 4.0
  }

  /** One step of the loop body, z = z*z + c. */
  function Step(z: Complex, c: Complex): Complex {
    Add(Mul(z, z), c)
  }

  /** The value of z after n steps from z0. */
  function Orbit(z0: Complex, c: Complex, n: nat): Complex
    decreases n
  {
    if n == 0 then z0 else Orbit(Step(z0, c), c, n - 1)
  }

  /** One more step at the end of an orbit. */
  lemma {:induction false} OrbitExtend(z0: Complex, c: Complex, n: nat)
    ensures Orbit(z0, c, n + 1) == Step(Orbit(z0, c, n), c)
    decreases n
  {
    if n > 0 {
      OrbitExtend(Step(z0, c), c, n - 1);
    }
  }

  /** The loop's exit condition at step i with budget max. */
  predicate StopsAt(z0: Complex, c: Complex, max: nat, i: nat) {
    i <= max
    && (i == max || Escaped(Orbit(z0, c, i)))
    && forall j :: 0 <= j < i ==> !Escaped(Orbit(z0, c, j))
  }

  /** The number of iterations the escape loop runs from z0 with budget max. */
  function EscapeIndex(z0: Complex, c: Complex, max: nat): (i: nat)
    ensures StopsAt(z0, c, max, i)
    decreases max
  {
    if max == 0 || Escaped(z0) then 0
    else
      var rest := EscapeIndex(Step(z0, c), c, max - 1);
      assert forall j :: 0 < j <= rest ==> Orbit(z0, c, j) == Orbit(Step(z0, c), c, j - 1);
      1 + rest
  }

  /** The loop's exit step is determined by the orbit: at most one step satisfies the exit condition. */
  lemma StopsAtUnique(z0: Complex, c: Complex, max: nat, i: nat, k: nat)
    requires StopsAt(z0, c, max, i) && StopsAt(z0, c, max, k)
    ensures i == k
  {
  }

  /**
   * The escape loop: starting from z0, repeat z := z*z + c, counting the
   * steps, while |z|^2 <= 4 and fewer than max steps have been taken.
   */
  method Iterate(z0: Complex, c: Complex, max: nat) returns (z: Complex, i: nat)
    ensures i == EscapeIndex(z0, c, max) && z == Orbit(z0, c, i)
    ensures i <= max && (i == max || Escaped(z))
  {
    z := z0;
    i := 0;
    while NormSqr(z) <= 4.0 && i < max
      invariant i <= max
      invariant z == Orbit(z0, c, i)
      invariant forall j :: 0 <= j < i ==> !Escaped(Orbit(z0, c, j))
      decreases max - i
    {
      OrbitExtend(z0, c, i);
      z := Add(Mul(z, z), c);
      i := i + 1;
    }
    StopsAtUnique(z0, c, max, i, EscapeIndex(z0, c, max));
  }

  /** The smooth-colouring value `(i - log2(log2 |z|)) / max`, with the double logarithm as the parameter logLog. */
  function Smooth(i: nat, z: Complex, max: nat, logLog: Complex -> real): (s: real)
    requires max >= 1
    ensures 0.0 <= logLog(z) < 1.0 ==> ((i as real) - 1.0) / (max as real) < s <= (i as real) / (max as real)
  {
    BandOver((i as real) - logLog(z), i as real, max as real);
    ((i as real) - logLog(z)) / (max as real)
  }

  /** Dividing i - 1 < a <= i by a positive d keeps the order. */
  lemma BandOver(a: real, i: real, d: real)
    requires d > 0.0
    ensures i - 1.0 < a <= i ==> (i - 1.0) / d < a / d <= i / d
  {
    if i - 1.0 < a <= i {
      assert a / d - (i - 1.0) / d == (a - (i - 1.0)) / d;
      assert i / d - a / d == (i - a) / d;
    }
  }

  /** The smooth value times the budget, plus the smooth term, gives back the count. */
  lemma SmoothTimesBudget(i: nat, z: Complex, max: nat, logLog: Complex -> real)
    requires max >= 1
    ensures Smooth(i, z, max, logLog) * (max as real) + logLog(z) == i as real
  {
    var d := max as real;
    assert (((i as real) - logLog(z)) / d) * d == (i as real) - logLog(z);
  }

  /** When z0 already lies outside the radius-2 disc, the loop runs zero times. */
  lemma EscapedAtStart(z0: Complex, c: Complex, max: nat)
    requires Escaped(z0)
    ensures EscapeIndex(z0, c, max) == 0
  {
    StopsAtUnique(z0, c, max, 0, EscapeIndex(z0, c, max));
  }

  /** With z0 = c = 0 the orbit stays at 0. */
  lemma OrbitOfZero(n: nat)
    ensures Orbit(Zero, Zero, n) == Zero
  {
    StepFromZero(Zero);
    OrbitOfFixedPoint(Zero, Zero, n);
  }

  /** With z0 = c = 0 the loop uses its whole budget. */
  lemma ZeroNeverEscapes(max: nat)
    ensures EscapeIndex(Zero, Zero, max) == max
  {
    StepFromZero(Zero);
    FixedPointNeverEscapes(Zero, Zero, max);
  }

  /** A fixed point of the step inside the disc keeps the loop going for the whole budget. */
  lemma FixedPointNeverEscapes(z: Complex, c: Complex, max: nat)
    requires Step(z, c) == z && !Escaped(z)
    ensures forall n: nat :: Orbit(z, c, n) == z
    ensures EscapeIndex(z, c, max) == max
  {
    forall n: nat
      ensures Orbit(z, c, n) == z
    {
      OrbitOfFixedPoint(z, c, n);
    }
    assert StopsAt(z, c, max, max);
    StopsAtUnique(z, c, max, max, EscapeIndex(z, c, max));
  }

  /** A fixed point of the step is never left. */
  lemma {:induction false} OrbitOfFixedPoint(z: Complex, c: Complex, n: nat)
    requires Step(z, c) == z
    ensures Orbit(z, c, n) == z
  {
    if n > 0 {
      OrbitOfFixedPoint(z, c, n - 1);
    }
  }

  lemma FirstStep(z0: Complex, c: Complex)
    ensures Orbit(z0, c, 0) == z0 && Orbit(z0, c, 1) == Step(z0, c)
  {
  }

  /** From z0 = 0 the first step lands on c. */
  lemma FirstStepFromZero(c: Complex)
    ensures Orbit(Zero, c, 1) == c
  {
    StepFromZero(c);
    FirstStep(Zero, c);
  }

  /** From z0 = 0 with |c|^2 > 4 the first step leaves the disc: exactly one iteration. */
  lemma FarPointEscapesAtOnce(c: Complex, max: nat)
    requires Escaped(c) && max >= 1
    ensures EscapeIndex(Zero, c, max) == 1
  {
    StepFromZero(c);
    EscapesAfterOneStep(Zero, c, max);
  }

  /** A start inside the disc whose first step leaves it gives exactly one iteration. */
  lemma EscapesAfterOneStep(z0: Complex, c: Complex, max: nat)
    requires !Escaped(z0) && Escaped(Step(z0, c)) && max >= 1
    ensures Orbit(z0, c, 1) == Step(z0, c)
    ensures EscapeIndex(z0, c, max) == 1
  {
    FirstStep(z0, c);
    assert StopsAt(z0, c, max, 1);
    StopsAtUnique(z0, c, max, 1, EscapeIndex(z0, c, max));
  }

  // ----- Viewport -----------------------------------------------------------------------------

  /** The affine map of a renderer: `offset_re`, `offset_im` (the top edge) and the per-pixel scales. */
  datatype Viewport = Viewport(offsetRe: real, offsetIm: real, scaleRe: real, scaleIm: real)

  /** The complex point for image location (x, y): the vertical axis is flipped. */
  function MapPoint(v: Viewport, x: real, y: real): (p: Complex)
    ensures x == 0.0 && y == 0.0 ==> p == Complex(v.offsetRe, v.offsetIm)
  {
    Complex(v.offsetRe + x * v.scaleRe, v.offsetIm - y * v.scaleIm)
  }

  /** Moving right by dx adds dx steps to the real part; moving down by dy takes dy steps off the imaginary part. */
  lemma MapPointDisplacement(v: Viewport, x1: real, y1: real, x2: real, y2: real)
    ensures MapPoint(v, x2, y2).re - MapPoint(v, x1, y1).re == (x2 - x1) * v.scaleRe
    ensures MapPoint(v, x2, y2).im - MapPoint(v, x1, y1).im == -((y2 - y1) * v.scaleIm)
  {
    assert x2 * v.scaleRe - x1 * v.scaleRe == (x2 - x1) * v.scaleRe;
    assert y2 * v.scaleIm - y1 * v.scaleIm == (y2 - y1) * v.scaleIm;
  }

  /** The half extents (aspect_x, aspect_y) as written: the portrait branch takes (1 / ratio, 1). */
  function AspectAsWritten(width: nat, height: nat): (a: (real, real))
    requires width >= 1 && height >= 1
    ensures width >= height ==> a == (1.0, (height as real) / (width as real))
    ensures width < height ==> a == ((height as real) / (width as real), 1.0)
  {
    var ratio := (width as real) / (height as real);
    RatioFacts(width, height);
    if ratio >= 1.0 then (1.0, 1.0 / ratio) else (1.0 / ratio, 1.0)
  }

  /** `width as f64 / height as f64` is at least 1 exactly for landscape images, and its inverse is h / w. */
  lemma RatioFacts(width: nat, height: nat)
    requires width >= 1 && height >= 1
    ensures (width as real) / (height as real) >= 1.0 <==> width >= height
    ensures 1.0 / ((width as real) / (height as real)) == (height as real) / (width as real)
  {
    var w := width as real;
    var h := height as real;
    assert (w / h) * h == w;
    if w >= h {
      assert w / h >= 1.0;
    } else {
      assert w / h < 1.0;
    }
  }

  /** The half extents as intended: the longer side spans [-1, 1], the shorter one its share of it, so both keep the image ratio. */
  function Aspect(width: nat, height: nat): (a: (real, real))
    requires width >= 1 && height >= 1
    ensures a.0 * (height as real) == a.1 * (width as real)
    ensures width >= height ==> a == (1.0, (height as real) / (width as real))
    ensures width < height ==> a == ((width as real) / (height as real), 1.0)
  {
    var ratio := (width as real) / (height as real);
    RatioFacts(width, height);
    if ratio >= 1.0 then (1.0, 1.0 / ratio) else (ratio, 1.0)
  }

  /** The viewport spanning centre +- scale * aspect over a width x height image. */
  function ViewportFor(center: Complex, scale: real, width: nat, height: nat, aspect: (real, real)): (v: Viewport)
    requires width >= 1 && height >= 1
    ensures MapPoint(v, (width as real) / 2.0, (height as real) / 2.0) == center
    ensures MapPoint(v, 0.0, 0.0) == Complex(center.re - scale * aspect.0, center.im + scale * aspect.1)
  {
    var minRe := center.re - scale * aspect.0;
    var minIm := center.im - scale * aspect.1;
    var maxRe := center.re + scale * aspect.0;
    var maxIm := center.im + scale * aspect.1;
    HalfwayIsCentre(center.re, scale * aspect.0, width as real);
    HalfwayIsCentre(-center.im, scale * aspect.1, height as real);
    Viewport(minRe, maxIm, (maxRe - minRe) / (width as real), (maxIm - minIm) / (height as real))
  }

  /** The viewport the constructors compute, as written. */
  function ViewportAsWritten(center: Complex, scale: real, width: nat, height: nat): (v: Viewport)
    requires width >= 1 && height >= 1
    ensures scale != 0.0 ==> (v.scaleRe == v.scaleIm <==> width >= height)
    ensures MapPoint(v, (width as real) / 2.0, (height as real) / 2.0) == center
    ensures MapPoint(v, 0.0, 0.0)
         == Complex(center.re - scale * AspectAsWritten(width, height).0, center.im + scale * AspectAsWritten(width, height).1)
  {
    var v := ViewportFor(center, scale, width, height, AspectAsWritten(width, height));
    AsWrittenPixelShape(scale, width, height);
    v
  }

  lemma AsWrittenPixelShape(scale: real, width: nat, height: nat)
    requires width >= 1 && height >= 1
    ensures var a := AspectAsWritten(width, height);
            scale != 0.0 ==>
              ((2.0 * (scale * a.0)) / (width as real) == (2.0 * (scale * a.1)) / (height as real)
               <==> width >= height)
  {
    var w := width as real;
    var h := height as real;
    if width >= height {
      assert (2.0 * (scale * (h / w))) / h == (2.0 * scale) / w;
    } else if scale != 0.0 {
      PortraitScalesDiffer(scale, w, h);
    }
  }

  /** With the as-written portrait aspect h / w, the horizontal step 2sh/w^2 differs from the vertical 2s/h. */
  lemma PortraitScalesDiffer(s: real, w: real, h: real)
    requires 0.0 < w < h && s != 0.0
    ensures (2.0 * (s * 1.0)) / h != (2.0 * (s * (h / w))) / w
  {
    var sr := (2.0 * (s * (h / w))) / w;
    var si := (2.0 * (s * 1.0)) / h;
    SquareMonotone(w, h);
    assert sr * w == 2.0 * s * h / w;
    assert sr * (w * w) == 2.0 * s * h;
    assert si * h == 2.0 * s;
    assert si * (w * w) * h == 2.0 * s * (w * w);
    assert sr * (w * w) * h == 2.0 * s * (h * h);
    assert 2.0 * s * (h * h) != 2.0 * s * (w * w);
  }

  lemma SquareMonotone(a: real, b: real)
    requires 0.0 < a < b
    ensures a * a < b * b
  {
    assert a * a < a * b;
    assert a * b < b * b;
  }

  /** The viewport used by both renderers: the corrected aspect. */
  function NewViewport(center: Complex, scale: real, width: nat, height: nat): (v: Viewport)
    requires width >= 1 && height >= 1
    ensures v.scaleRe == v.scaleIm
    ensures MapPoint(v, (width as real) / 2.0, (height as real) / 2.0) == center
    ensures MapPoint(v, 0.0, 0.0)
         == Complex(center.re - scale * Aspect(width, height).0, center.im + scale * Aspect(width, height).1)
  {
    var a := Aspect(width, height);
    var v := ViewportFor(center, scale, width, height, a);
    SquarePixels(scale, width, height);
    v
  }

  lemma SquarePixels(scale: real, width: nat, height: nat)
    requires width >= 1 && height >= 1
    ensures var a := Aspect(width, height);
            (2.0 * (scale * a.0)) / (width as real) == (2.0 * (scale * a.1)) / (height as real)
  {
    var w := width as real;
    var h := height as real;
    if width >= height {
      assert (2.0 * (scale * (h / w))) / h == (2.0 * scale) / w;
    } else {
      assert (2.0 * (scale * (w / h))) / w == (2.0 * scale) / h;
    }
  }

  /** Half the image size times the per-pixel step covers half the span: (n/2) * (2e/n) = e. */
  lemma HalfwayIsCentre(m: real, e: real, n: real)
    requires n > 0.0
    ensures (m - e) + (n / 2.0) * (((m + e) - (m - e)) / n) == m
  {
    assert ((m + e) - (m - e)) / n == 2.0 * e / n;
    assert (n / 2.0) * (2.0 * e / n) == e;
  }

  /** A 1 x 2 image: as written, a pixel is four times as wide as it is tall. */
  lemma PortraitPixelsAsWritten()
    ensures ViewportAsWritten(Zero, 1.0, 1, 2).scaleRe == 4.0
    ensures ViewportAsWritten(Zero, 1.0, 1, 2).scaleIm == 1.0
    ensures NewViewport(Zero, 1.0, 1, 2).scaleRe == NewViewport(Zero, 1.0, 1, 2).scaleIm == 1.0
  {
  }
}
