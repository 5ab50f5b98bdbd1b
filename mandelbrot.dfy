/**
 * `MandelbrotRenderer` (src/rendering/mandelbrot.rs): the viewport map of a
 * width x height image onto the complex plane, and the per-sample escape
 * loop from z = 0 with c the sample's point. The smooth-colouring term
 * `log2(log2 |z|)` is the uninterpreted parameter `logLog`.
 */
module Mandelbrot {
  import opened Sampling
  import opened EscapeTime

  /** `max_iterations` and the four viewport numbers `offset_re`, `offset_im`, `scale_re`, `scale_im`. */
  datatype MandelbrotRenderer = MandelbrotRenderer(maxIterations: nat, viewport: Viewport)

  /** `MandelbrotRenderer::new`, with the portrait aspect corrected (the as-written one is `ViewportAsWritten`). */
  function NewMandelbrot(center: Complex, scale: real, maxIterations: nat, width: nat, height: nat): (m: MandelbrotRenderer)
    requires width >= 1 && height >= 1
    ensures m.maxIterations == maxIterations
    ensures m.viewport.scaleRe == m.viewport.scaleIm
    ensures MapPoint(m.viewport, (width as real) / 2.0, (height as real) / 2.0) == center
    ensures MapPoint(m.viewport, 0.0, 0.0)
         == Complex(center.re - scale * Aspect(width, height).0, center.im + scale * Aspect(width, height).1)
  {
    MandelbrotRenderer(maxIterations, NewViewport(center, scale, width, height))
  }

  /** The parameter c of a sample: its location through the viewport. */
  function PointOf(m: MandelbrotRenderer, s: Sample): Complex {
    var loc := Location(s);
    MapPoint(m.viewport, loc.0, loc.1)
  }

  /** The number of loop iterations for a sample: the escape step of the orbit of 0 under c, capped by the budget. */
  function Iterations(m: MandelbrotRenderer, s: Sample): nat {
    EscapeIndex(Zero, PointOf(m, s), m.maxIterations)
  }

  /** The value of z when the loop stops. */
  function FinalZ(m: MandelbrotRenderer, s: Sample): Complex {
    Orbit(Zero, PointOf(m, s), Iterations(m, s))
  }

  /** What `render` returns: the smooth iteration count over the budget, for every sample. */
  function RenderValue(m: MandelbrotRenderer, s: Sample, logLog: Complex -> real): real
    requires m.maxIterations >= 1
  {
    Smooth(Iterations(m, s), FinalZ(m, s), m.maxIterations, logLog)
  }

  /** `render`: the escape loop from z = 0, then `(i - log2(log2 |z|)) / max_iterations`. */
  method Render(m: MandelbrotRenderer, s: Sample, logLog: Complex -> real) returns (r: real)
    requires m.maxIterations >= 1
    ensures r == RenderValue(m, s, logLog)
    ensures Iterations(m, s) <= m.maxIterations
    ensures Iterations(m, s) == m.maxIterations || Escaped(FinalZ(m, s))
  {
    var loc := Location(s);
    var c := MapPoint(m.viewport, loc.0, loc.1);
    var z, i := Iterate(Zero, c, m.maxIterations);
    r := Smooth(i, z, m.maxIterations, logLog);
  }

  /** c = 0: z stays at c = 0, the loop uses the whole budget, and the formula is still applied. */
  lemma OriginUsesWholeBudget(m: MandelbrotRenderer, s: Sample, logLog: Complex -> real)
    requires PointOf(m, s) == Zero
    requires m.maxIterations >= 1
    ensures Iterations(m, s) == m.maxIterations
    ensures FinalZ(m, s) == PointOf(m, s)
    ensures RenderValue(m, s, logLog) == ((m.maxIterations as real) - logLog(PointOf(m, s))) / (m.maxIterations as real)
  {
    ZeroNeverEscapes(m.maxIterations);
    OrbitOfZero(m.maxIterations);
    ValueAt(m, s, logLog, m.maxIterations, PointOf(m, s));
  }

  /** |c|^2 > 4: exactly one iteration, z = c, and the formula is applied as for every other sample. */
  lemma FarPointOneIteration(m: MandelbrotRenderer, s: Sample, logLog: Complex -> real)
    requires Escaped(PointOf(m, s))
    requires m.maxIterations >= 1
    ensures Iterations(m, s) == 1
    ensures FinalZ(m, s) == PointOf(m, s)
    ensures RenderValue(m, s, logLog) == (1.0 - logLog(PointOf(m, s))) / (m.maxIterations as real)
  {
    FarPointEscapesAtOnce(PointOf(m, s), m.maxIterations);
    FirstStepFromZero(PointOf(m, s));
    ValueAt(m, s, logLog, 1, PointOf(m, s));
  }

  /** The returned value once the exit step and the final z are known. */
  lemma ValueAt(m: MandelbrotRenderer, s: Sample, logLog: Complex -> real, i: nat, z: Complex)
    requires Iterations(m, s) == i && FinalZ(m, s) == z
    requires m.maxIterations >= 1
    ensures RenderValue(m, s, logLog) == ((i as real) - logLog(z)) / (m.maxIterations as real)
  {
  }
}
