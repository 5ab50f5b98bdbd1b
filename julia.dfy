/**
 * `JuliaRenderFunction` (src/julia.rs): the same viewport map as the
 * Mandelbrot renderer, but the sample's point is the starting z and c is
 * fixed; a sample that uses the whole budget gets the interior value -1.
 * The smooth-colouring term `log2(log2 |z|)` is the uninterpreted
 * parameter `logLog`.
 */
module Julia {
  import opened EscapeTime

  /** `c`, the viewport numbers and `max_iterations`. */
  datatype JuliaRenderFunction = JuliaRenderFunction(c: Complex, viewport: Viewport, maxIterations: nat)

  /** The value for samples inside the set (the budget was used up). */
  const Interior: real := -1.0

  /** `JuliaRenderFunction::new`, with the portrait aspect corrected (the as-written one is `ViewportAsWritten`). */
  function NewJulia(c: Complex, center: Complex, scale: real, maxIterations: nat, width: nat, height: nat): (j: JuliaRenderFunction)
    requires width >= 1 && height >= 1
    ensures j.c == c && j.maxIterations == maxIterations
    ensures j.viewport.scaleRe == j.viewport.scaleIm
    ensures MapPoint(j.viewport, (width as real) / 2.0, (height as real) / 2.0) == center
    ensures MapPoint(j.viewport, 0.0, 0.0)
         == Complex(center.re - scale * Aspect(width, height).0, center.im + scale * Aspect(width, height).1)
  {
    JuliaRenderFunction(c, NewViewport(center, scale, width, height), maxIterations)
  }

  /** The number of loop iterations from the start point z0. */
  function Iterations(j: JuliaRenderFunction, z0: Complex): nat {
    EscapeIndex(z0, j.c, j.maxIterations)
  }

  /** The value of z when the loop stops. */
  function FinalZ(j: JuliaRenderFunction, z0: Complex): Complex {
    Orbit(z0, j.c, Iterations(j, z0))
  }

  /** What `evaluate` returns from z0: the smooth count below the budget, the interior value at it. */
  function EvaluateValue(j: JuliaRenderFunction, z0: Complex, logLog: Complex -> real): real {
    var i := Iterations(j, z0);
    if i < j.maxIterations then Smooth(i, FinalZ(j, z0), j.maxIterations, logLog) else Interior
  }

  /**
   * `evaluate` at the sample position (x, y): the start point is the
   * position through the viewport.
   */
  method Evaluate(j: JuliaRenderFunction, x: real, y: real, logLog: Complex -> real) returns (r: real)
    ensures r == EvaluateValue(j, MapPoint(j.viewport, x, y), logLog)
  {
    var z0 := MapPoint(j.viewport, x, y);
    r := EvaluateFrom(j, z0, logLog);
  }

  /** The loop of `evaluate` from z0 with the fixed c, then the sentinel test `i < max_iterations`. */
  method EvaluateFrom(j: JuliaRenderFunction, z0: Complex, logLog: Complex -> real) returns (r: real)
    ensures r == EvaluateValue(j, z0, logLog)
    ensures Iterations(j, z0) <= j.maxIterations
    ensures Iterations(j, z0) == j.maxIterations ==> r == Interior
    ensures Iterations(j, z0) < j.maxIterations ==> Escaped(FinalZ(j, z0))
  {
    var z, i := Iterate(z0, j.c, j.maxIterations);
    assert Iterations(j, z0) == i && FinalZ(j, z0) == z;
    if i < j.maxIterations {
      r := Smooth(i, z, j.maxIterations, logLog);
    } else {
      r := Interior;
    }
  }

  /** Below the budget the value is the smooth count: times the budget, plus the smooth term, it gives back i. */
  lemma SmoothValue(j: JuliaRenderFunction, z0: Complex, logLog: Complex -> real)
    requires Iterations(j, z0) < j.maxIterations
    ensures EvaluateValue(j, z0, logLog) * (j.maxIterations as real) + logLog(FinalZ(j, z0))
         == Iterations(j, z0) as real
  {
    SmoothTimesBudget(Iterations(j, z0), FinalZ(j, z0), j.maxIterations, logLog);
  }

  /**
   * The result is the sentinel exactly when the budget was used up, or when
   * the smooth formula happens to produce -1 itself (log2(log2 |z|) = i + max).
   */
  lemma SentinelExactly(j: JuliaRenderFunction, z0: Complex, logLog: Complex -> real)
    ensures EvaluateValue(j, z0, logLog) == Interior
        <==> (Iterations(j, z0) == j.maxIterations
              || logLog(FinalZ(j, z0)) == (Iterations(j, z0) + j.maxIterations) as real)
  {
    var i := Iterations(j, z0);
    var max := j.maxIterations;
    if i < max {
      var ll := logLog(FinalZ(j, z0));
      SmoothIsInterior(i, ll, max);
    }
  }

  /** (i - ll) / max = -1 exactly when ll = i + max. */
  lemma SmoothIsInterior(i: nat, ll: real, max: nat)
    requires max >= 1
    ensures ((i as real) - ll) / (max as real) == -1.0 <==> ll == (i + max) as real
  {
    var d := max as real;
    if ((i as real) - ll) / d == -1.0 {
      assert (i as real) - ll == -d;
    }
  }

  /** A start point already outside the disc takes zero iterations. */
  lemma StartOutside(j: JuliaRenderFunction, z0: Complex, logLog: Complex -> real)
    requires Escaped(z0)
    ensures Iterations(j, z0) == 0
    ensures FinalZ(j, z0) == z0
    ensures j.maxIterations >= 1 ==> EvaluateValue(j, z0, logLog) == -logLog(z0) / (j.maxIterations as real)
  {
    EscapedAtStart(z0, j.c, j.maxIterations);
  }

  /** A zero budget always gives the interior value. */
  lemma ZeroBudget(j: JuliaRenderFunction, z0: Complex, logLog: Complex -> real)
    requires j.maxIterations == 0
    ensures EvaluateValue(j, z0, logLog) == Interior
  {
  }
}
