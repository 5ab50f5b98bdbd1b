# mandelbrot-rs, modelled in Dafny

A model of the per-pixel pipeline of the `mandelbrot-rs` fractal renderer, with proofs about it:

- **samplers** pick sub-pixel sample positions. `SimpleSampler` yields the pixel centre once. `StratifiedSampler` walks a grid of strata in row-major order, optionally jittered.
- **filters** (`BoxFilter`, `MitchellFilter`) weight a sample by its offset from the pixel centre.
- the **reconstructor** accumulates weighted render results and divides by the total weight.
- the **render functions** map a location through an affine viewport onto the complex plane and run the bounded escape loop `z = z*z + c`. `MandelbrotRenderer` starts at z = 0. `JuliaRenderFunction` starts at the point with c fixed, and returns the interior value -1.
- the **palettes** turn the value into a colour. `TablePalette` sorts its entries, searches for the bracket around t and interpolates with clamping. `Grayscale` and `Rainbow` are fixed band maps.
- `math::interpolate` blends two values.

The modules follow the source files:

| module | file |
|---|---|
| `Sampling` | `sampling.dfy` |
| `SimpleSampling` | `simple_sampler.dfy` |
| `StratifiedSampling` | `stratified_sampler.dfy` |
| `Filters` | `filter.dfy` |
| `Reconstruction` | `reconstruction.dfy` |
| `EscapeTime` | `escape.dfy` |
| `Mandelbrot` | `mandelbrot.dfy` |
| `Julia` | `julia.dfy` |
| `Palette` | `palette.dfy` |
| `MathUtil` | `math.dfy` |
| `Wrappers` (`Option`) | `wrappers.dfy` |

`EscapeTime` holds the complex arithmetic, the orbit, the escape loop and the viewport that both renderers share.

How the source's forms carry over:

- **Classes.** The samplers and the reconstructor update their fields in place, so they are classes.
  - Each sampler has a ghost `Pending`/`PendingCells`: the samples it will still yield. `Next` hands out the head of that sequence, and `SizeHint` is tied to its length, which is what `ExactSizeIterator` promises.
  - The reconstructor keeps a ghost history of its observations. Its two fields are proved to be the weighted sum and the total weight over that history.
- **Datatypes.** Filters, renderers, samples and palettes are never changed after construction, so they are datatypes.
- **Methods with loops.** These are the escape loops (`EscapeTime.Iterate`, used by `Mandelbrot.Render` and `Julia.EvaluateFrom`), the palette's bracket search (`Palette.Evaluate`) and the in-place sort of `TablePalette::new` (`Palette.SortByStop`). Each is proved against a specification function: `EscapeIndex`/`Orbit`, `Color`, and sorted plus permutation.
- `Sample::new` is the datatype constructor `Sample(pixelX, pixelY, offsetX, offsetY)`. It stores its four arguments as they are.
- Numbers:
  - `f32`/`f64` are `real`.
  - The integer counters are `nat`.
  - `u8` is the `byte` newtype.
  - The saturating `as u8` cast is written out as `Palette.AsU8`.

## Model

| member | source | states |
|---|---|---|
| Sampling.Location | src/sampling.rs:36-38 | location minus offset is the pixel coordinate on both axes; with offsets in [0,1) the floor of each coordinate is the pixel coordinate |
| Sampling.SamePixelDisplacement | src/sampling.rs:37 | two samples of the same pixel are apart by exactly their offset difference |
| SimpleSampling.SimpleSampler.constructor | src/sampling/simple.rs:29-31 | stores the pixel, sets `fresh`, and the only pending sample is the pixel centre (0.5, 0.5) |
| SimpleSampling.SimpleSampler.Next | src/sampling/simple.rs:38-45 | first call yields the centre sample of the constructor's pixel and clears `fresh`; once nothing is pending every call yields None (fused) |
| SimpleSampling.SimpleSampler.SizeHint | src/sampling/simple.rs:48-50 | both bounds equal the number of samples still to come (ExactSizeIterator), at most 1 |
| StratifiedSampling.RoundSqrt | src/sampling/stratified.rs:35 | the grid width is the k >= 1 with k*k - k < n <= k*k + k |
| StratifiedSampling.RoundedSqrtIsNearest | src/sampling/stratified.rs:35 | that integer condition is equivalent to (k - 1/2)^2 <= n < (k + 1/2)^2, i.e. k is sqrt(n) rounded |
| StratifiedSampling.RoundedSqrtUnique | src/sampling/stratified.rs:35 | at most one k is the rounded square root of n |
| StratifiedSampling.QuotientNearRoot | src/sampling/stratified.rs:36 | n / k lies within one of k, is at least 1, and leaves a remainder below k |
| StratifiedSampling.GridSize | src/sampling/stratified.rs:35-36 | for n >= 1 both grid sides are >= 1, the grid holds at most n cells with fewer than gridX left over, and the sides differ by at most one |
| StratifiedSampling.FiveSamplesGiveFour | src/sampling/stratified.rs:35-36 | five requested samples give a 2 x 2 grid |
| StratifiedSampling.TwoSamplesGiveTallGrid | src/sampling/stratified.rs:35-36 | two requested samples give a 1 x 2 grid |
| StratifiedSampling.Cell | src/sampling/stratified.rs:54-58 | the k-th sample's cell (k mod width, k div width) recomposes k and has its column below the width |
| StratifiedSampling.CellOfIndices | src/sampling/stratified.rs:54-58 | the cell of index iy*width + ix is (ix, iy) |
| StratifiedSampling.RowMajorCells | src/sampling/stratified.rs:47-64 | the visiting order from sample `from` to `to` lists Cell(k) for each k in turn |
| StratifiedSampling.RowMajorCoversGrid | src/sampling/stratified.rs:47-64 | the full walk stays inside the grid, visits every cell and visits none twice |
| StratifiedSampling.CursorBelowTotal | src/sampling/stratified.rs:54-58 | a valid cursor has produced at most width*height samples, and all of them exactly when index_y reached the height |
| StratifiedSampling.JitterUsed | src/sampling/stratified.rs:49 | the jitter pair used stays in the unit square when the drawn one does; without jitter it is the cell centre (0.5, 0.5) |
| StratifiedSampling.OffsetInStratum | src/sampling/stratified.rs:50-51 | a jitter in [0,1) keeps the offset of stratum i of n inside [i/n, (i+1)/n) and inside [0,1) |
| StratifiedSampling.CellOffset | src/sampling/stratified.rs:49-51 | a cell of the grid with a jitter pair in the unit square gives offsets inside that cell's stratum and inside the pixel |
| StratifiedSampling.FourSamplesWithoutJitter | src/sampling/stratified.rs:47-58 | four samples without jitter visit (0,0), (1,0), (0,1), (1,1) at the quarter centres (0.25 or 0.75 on each axis) |
| StratifiedSampling.StratifiedSampler.Produced | src/sampling/stratified.rs:54-58 | the cursor counts the samples handed out: never more than gridX*gridY, all of them exactly when index_y == gridY, and its cell is (index_x, index_y) |
| StratifiedSampling.StratifiedSampler.constructor | src/sampling/stratified.rs:34-39 | the grid is GridSize(n), the cursor starts at (0, 0), and the whole row-major walk is pending |
| StratifiedSampling.StratifiedSampler.Next | src/sampling/stratified.rs:47-64 | keeps index_x < gridX, index_y <= gridY and index_x == 0 at the end; yields the head of the pending cells at its stratum offset with the sampler's pixel, and None forever after the last; advances the cursor with the carry; offsets lie in the pixel for any jitter in [0,1)^2 |
| StratifiedSampling.StratifiedSampler.SizeHint | src/sampling/stratified.rs:66-76 | corrected: both bounds equal the number of samples still to come, (0, Some(0)) once exhausted |
| StratifiedSampling.StratifiedSampler.SizeHintAsWritten | src/sampling/stratified.rs:66-76 | as written: the hint equals the remaining count exactly when gridX == gridY or the cursor is on the last row (or past it) |
| StratifiedSampling.RowsTimesWidthDifference | src/sampling/stratified.rs:70 | counting r rows at width b instead of a is off by r*(b - a), zero only when r = 0 or a = b |
| StratifiedSampling.SizeHintAsWrittenOvercounts | src/sampling/stratified.rs:66-79 | a fresh sampler for two samples (1 x 2 grid) reports 3 as written but 2 corrected, against ExactSizeIterator |
| Filters.BoxWithDefaults | src/reconstruction/filter.rs:42-51 | the default box has radius (0.5, 0.5) |
| Filters.BoxEvaluateAsWritten | src/reconstruction/filter.rs:54-56 | as written: the weight is 0 or 1, and 1 exactly when \|x\| <= rx and y <= ry |
| Filters.BoxAsWrittenNotEvenInY | src/reconstruction/filter.rs:55 | as written, evaluate(0, -r) = 1 for every r >= 0 with -r <= ry, points below the box (y = -(ry + 1)) have weight 1, and the mirror point above has weight 0 |
| Filters.BoxEvaluate | src/reconstruction/filter.rs:55 | corrected: the weight is 0 or 1, and 1 exactly inside the rectangle \|x\| <= rx, \|y\| <= ry |
| Filters.BoxEven | src/reconstruction/filter.rs:55 | the corrected box is even in x and in y |
| Filters.BoxAgreesAboveLowerEdge | src/reconstruction/filter.rs:55 | the as-written and corrected boxes agree whenever y >= -ry |
| Filters.MitchellNew | src/reconstruction/filter.rs:62-67 | radius is the constructor's; p1(0) = 1 - b/3 with zero slope; p1(1) = p2(1) = b/6 with equal slopes; p2(2) = 0 with zero slope (the cubic pieces join smoothly) |
| Filters.MitchellWithDefaults | src/reconstruction/filter.rs:69-71 | the default Mitchell filter has radius (2, 2) and b = c = 1/3 |
| Filters.Mitchell | src/reconstruction/filter.rs:74-83 | zero for \|v\| > 1; at v = 0 it is p1[0] |
| Filters.MitchellEven | src/reconstruction/filter.rs:75 | mitchell(-v) = mitchell(v) |
| Filters.AxisWeight | src/reconstruction/filter.rs:94 | one axis factor is zero beyond the radius, and zero for a zero radius (the f64 division yields inf or NaN, which fails both tests) |
| Filters.RadiusOfConstructors | src/reconstruction/filter.rs:37-90 | `radius` gives back the radii `BoxFilter::new` and `MitchellFilter::new` were given, (0.5, 0.5) for the default box and (2, 2) for the default Mitchell filter |
| Filters.Evaluate | src/reconstruction/filter.rs:93-95 | the box variant is the corrected box: its weight is 0 or 1, 1 exactly inside \|x\| <= rx, \|y\| <= ry, and equal to the as-written one-sided test (filter.rs:55) whenever y >= -ry |
| Filters.EvaluateEven | src/reconstruction/filter.rs:93-95 | the Mitchell kernel and the corrected box are even in x and in y (the as-written box is not even in y) |
| Filters.EvaluateSupport | src/reconstruction/filter.rs:74-95 | for the Mitchell kernel and the corrected box with positive radii, the weight is zero unless \|x\| <= rx and \|y\| <= ry (the support is the radius, not twice it) |
| Filters.MitchellAtCentre | src/reconstruction/filter.rs:62-95 | evaluate(0, 0) = (1 - b/3)^2, which is 64/81 for the defaults |
| Filters.DefaultAxisBound | src/reconstruction/filter.rs:69-83 | with the defaults, each axis factor stays within [-8/9, 8/9] |
| Filters.DefaultPeakAtCentre | src/reconstruction/filter.rs:69-95 | with the defaults, no weight exceeds the weight at the centre |
| Reconstruction.ReconstructedValue | src/reconstruction.rs:55-57 | for a history: zero when the weights total zero, otherwise value * total weight = weighted sum |
| Reconstruction.Reconstructor.constructor | src/reconstruction.rs:40-45 | accumulator and total weight start at zero over an empty history |
| Reconstruction.Reconstructor.Accumulate | src/reconstruction.rs:48-52 | adds result*w to the accumulator and w to the total, with w the filter's weight at (offset_x - 0.5, offset_y - 0.5); the fields stay the sums over the history |
| Reconstruction.Reconstructor.Value | src/reconstruction.rs:55-57 | zero when the total weight is zero (never divides by zero), otherwise value * total = accumulator; equals ReconstructedValue of the history |
| Reconstruction.AppendObservation | src/reconstruction.rs:50-51 | one more observation adds its result*weight and its weight to the two sums |
| Reconstruction.RecordedAppend | src/reconstruction.rs:49 | a weight the filter gave keeps every recorded weight equal to the filter's weight of its sample |
| Reconstruction.SumOfConcat | src/reconstruction.rs:50-51 | the sum over two histories joined is the sum of their sums |
| Reconstruction.SumOfPermutation | src/reconstruction.rs:50-51 | a sum over a history does not depend on the order of its observations |
| Reconstruction.OrderIndependent | src/reconstruction.rs:48-57 | two histories with the same observations give the same accumulator, total weight and value |
| Reconstruction.ConstantResults | src/reconstruction.rs:48-57 | when every result is r and the weights do not total zero, the value is r |
| Reconstruction.WeightedSumOfConstant | src/reconstruction.rs:50-51 | every result r gives an accumulator of r times the total weight |
| Reconstruction.ZeroWeights | src/reconstruction.rs:56 | when every weight is zero, the total weight and the value are zero |
| Reconstruction.Weight | src/reconstruction.rs:49 | the weight is taken at the offset from the pixel centre: a centred sample gets the kernel's value at (0, 0) |
| Reconstruction.MirroredWeight | src/reconstruction.rs:49 | mirroring a sample's offset about the pixel centre, in either axis, keeps its weight (Mitchell kernel and corrected box) |
| Reconstruction.DefaultBoxWeight | src/reconstruction.rs:49 | the default box gives weight 1 to every sample with offsets in [0,1), both corrected and as written (filter.rs:55) |
| Reconstruction.DefaultBoxMean | src/reconstruction.rs:48-57 | with the default box and offsets in the pixel, the total weight is the count and the value is the arithmetic mean of the results |
| EscapeTime.NormSqr | src/rendering/mandelbrot.rs:55 | the squared norm is never negative |
| EscapeTime.OrbitExtend | src/rendering/mandelbrot.rs:56 | n + 1 steps are one more step after n |
| EscapeTime.EscapeIndex | src/rendering/mandelbrot.rs:54-58 | the iteration count meets the loop's exit condition: at most the budget, the budget or escaped at that step, and inside the disc at every earlier step |
| EscapeTime.StopsAtUnique | src/rendering/mandelbrot.rs:55 | only one step count meets the exit condition |
| EscapeTime.Iterate | src/rendering/mandelbrot.rs:53-58 | the while loop ends with i = EscapeIndex and z the orbit after i steps; 0 <= i <= max and either i = max or \|z\|^2 > 4 |
| EscapeTime.Smooth | src/rendering/mandelbrot.rs:60 | the smooth value (i - log2(log2 \|z\|)) / max: when the double logarithm lies in [0,1) it falls in the band ((i - 1)/max, i/max] |
| EscapeTime.SmoothTimesBudget | src/rendering/mandelbrot.rs:60 | the smooth value times the budget, plus log2(log2 \|z\|), gives back i |
| EscapeTime.EscapedAtStart | src/julia.rs:66 | a start with \|z0\|^2 > 4 runs the loop zero times |
| EscapeTime.OrbitOfZero | src/rendering/mandelbrot.rs:53-57 | with z0 = c = 0 the orbit stays at 0 |
| EscapeTime.ZeroNeverEscapes | src/rendering/mandelbrot.rs:53-57 | with z0 = c = 0 the loop runs the whole budget |
| EscapeTime.FixedPointNeverEscapes | src/rendering/mandelbrot.rs:55-57 | a fixed point of z*z + c inside the disc keeps the orbit still and the loop running for the whole budget |
| EscapeTime.OrbitOfFixedPoint | src/rendering/mandelbrot.rs:56 | a fixed point of the step is never left |
| EscapeTime.FirstStepFromZero | src/rendering/mandelbrot.rs:53-56 | from z = 0 the first step lands on c |
| EscapeTime.FarPointEscapesAtOnce | src/rendering/mandelbrot.rs:55-57 | from z = 0 with \|c\|^2 > 4 and a budget of at least 1 the loop runs exactly once |
| EscapeTime.EscapesAfterOneStep | src/rendering/mandelbrot.rs:55-57 | a start inside the disc whose first step leaves it gives exactly one iteration |
| EscapeTime.AspectAsWritten | src/rendering/mandelbrot.rs:32-33 | as written: (1, h/w) for landscape, (h/w, 1) for portrait |
| EscapeTime.RatioFacts | src/rendering/mandelbrot.rs:32-33 | the ratio w/h is at least 1 exactly for landscape images, and its inverse is h/w |
| EscapeTime.Aspect | src/rendering/mandelbrot.rs:32-33 | corrected: the half extents keep the image ratio (a.x * h = a.y * w): (1, h/w) for landscape, (w/h, 1) for portrait |
| EscapeTime.MapPoint | src/rendering/mandelbrot.rs:51 | location (0, 0) maps to (offset_re, offset_im) |
| EscapeTime.MapPointDisplacement | src/rendering/mandelbrot.rs:51 | moving right by dx adds dx * scale_re to the real part; moving down by dy subtracts dy * scale_im from the imaginary part (the vertical flip) |
| EscapeTime.ViewportFor | src/rendering/mandelbrot.rs:35-42 | for any aspect, (w/2, h/2) maps to the centre and (0, 0) to the top-left corner (re - scale*aspect_x, im + scale*aspect_y) |
| EscapeTime.ViewportAsWritten | src/rendering/mandelbrot.rs:31-45 | the as-written viewport maps (w/2, h/2) to the centre and (0, 0) to the top-left corner; with a non-zero scale it has square pixels exactly when w >= h |
| EscapeTime.AsWrittenPixelShape | src/rendering/mandelbrot.rs:33-42 | the two per-pixel steps of the as-written aspect are equal exactly for landscape images |
| EscapeTime.PortraitScalesDiffer | src/rendering/mandelbrot.rs:33-42 | for w < h the as-written horizontal and vertical steps differ |
| EscapeTime.NewViewport | src/rendering/mandelbrot.rs:31-45 | corrected viewport: square pixels, location (w/2, h/2) maps to the centre, location (0, 0) to the top-left corner (re - scale*aspect_x, im + scale*aspect_y) |
| EscapeTime.SquarePixels | src/rendering/mandelbrot.rs:41-42 | with the corrected aspect the two per-pixel steps are equal in both branches |
| EscapeTime.HalfwayIsCentre | src/rendering/mandelbrot.rs:35-42 | half the image times the per-pixel step reaches the centre of the span |
| EscapeTime.PortraitPixelsAsWritten | src/rendering/mandelbrot.rs:33-42 | a 1 x 2 image as written gets pixels four times as wide as tall; corrected they are square |
| Mandelbrot.NewMandelbrot | src/rendering/mandelbrot.rs:31-45 | keeps max_iterations; square pixels; (w/2, h/2) maps to the centre and (0, 0) to the top-left corner |
| Mandelbrot.Render | src/rendering/mandelbrot.rs:49-61 | returns the smooth value of the loop from z = 0 with c the sample's point; 0 <= i <= max, and i = max or \|z\|^2 > 4 at exit |
| Mandelbrot.OriginUsesWholeBudget | src/rendering/mandelbrot.rs:53-60 | c = 0: the loop runs max_iterations times, z ends at 0, and the smooth formula is still applied (no sentinel) |
| Mandelbrot.FarPointOneIteration | src/rendering/mandelbrot.rs:55-60 | \|c\|^2 > 4: exactly one iteration, z ends at c, and the value is (1 - log2(log2 \|c\|)) / max |
| Mandelbrot.ValueAt | src/rendering/mandelbrot.rs:60 | once i and z are known the value is (i - log2(log2 \|z\|)) / max |
| Julia.NewJulia | src/julia.rs:32-50 | keeps c and max_iterations; square pixels; (w/2, h/2) maps to the centre and (0, 0) to the top-left corner |
| Julia.Evaluate | src/julia.rs:56-78 | the value of the loop started at the sample position through the viewport (offset_im is the top edge) |
| Julia.EvaluateFrom | src/julia.rs:64-77 | 0 <= i <= max; i = max gives -1; below the budget \|z\|^2 > 4 at exit; the result is EvaluateValue |
| Julia.SmoothValue | src/julia.rs:73-74 | below the budget, the value times max plus log2(log2 \|z\|) gives back i |
| Julia.SentinelExactly | src/julia.rs:73-77 | the value is -1 exactly when the budget was used up or the smooth formula itself gives -1 (log2(log2 \|z\|) = i + max) |
| Julia.SmoothIsInterior | src/julia.rs:74 | (i - ll) / max = -1 exactly when ll = i + max |
| Julia.StartOutside | src/julia.rs:66 | \|z0\|^2 > 4: zero iterations, z ends at z0, and the value is -log2(log2 \|z0\|) / max |
| Julia.ZeroBudget | src/julia.rs:66-77 | a zero budget always gives -1 |
| MathUtil.Interpolate | src/math.rs:20-26 | value 0 gives left, value 1 gives right, equal ends give that end |
| MathUtil.InterpolateAffine | src/math.rs:25 | over reals, interpolate(v, l, r) = l + v*(r - l) |
| MathUtil.InterpolateBetween | src/math.rs:25 | for v in [0,1] the result lies between the two ends, in either order |
| MathUtil.InterpolateMonotone | src/math.rs:25 | with l <= r the result grows with v |
| Palette.AsU8 | src/palette.rs:81 | the saturating cast: 0 at or below 0, 255 from 255 on, the floor in between |
| Palette.AsU8Monotone | src/palette.rs:97 | a larger value never casts to a smaller byte |
| Palette.Clamp | src/palette.rs:80 | the result lies in [min, max], and a value already inside is unchanged |
| Palette.Channel | src/palette.rs:81 | local position 0 gives the left channel, 1 the right one |
| Palette.ChannelBetween | src/palette.rs:81-85 | for a local position in [0,1] the channel lies between the two end channels |
| Palette.LocalPosition | src/palette.rs:70-74 | the left stop maps to 0, the right stop to 1, and with left < right every t between maps into [0,1] |
| Palette.Blend | src/palette.rs:70-87 | with distinct stops, t at the left stop gives the left colour and at the right stop the right colour; equal stops (0 / 0) give black |
| Palette.BlendBetween | src/palette.rs:76-87 | between two distinct stops every channel lies between the two colours' channels |
| Palette.SortByStop | src/palette.rs:53 | the entries end sorted by stop and are a permutation of the input |
| Palette.InsertAt | src/palette.rs:53 | inserting entry i into a sorted prefix of length i gives a sorted prefix of length i + 1 and keeps the entries |
| Palette.SwapDown | src/palette.rs:53 | exchanges two neighbours and keeps the entries |
| Palette.SwappedSameEntries | src/palette.rs:53 | exchanging two neighbours keeps the multiset of entries |
| Palette.GapStep | src/palette.rs:53 | swapping the moving entry with a larger left neighbour moves it one place down and keeps the rest in order |
| Palette.GapClosed | src/palette.rs:53 | once the left neighbour is not larger, the prefix of length i + 1 is sorted |
| Palette.NewTablePalette | src/palette.rs:51-55 | a non-empty table, sorted by stop, a permutation of the entries given |
| Palette.SearchFrom | src/palette.rs:65-68 | the search stops at the first index whose stop is at least t, inside the table |
| Palette.SearchFromUnique | src/palette.rs:65-68 | that first index is the only one satisfying the search's exit condition |
| Palette.Evaluate | src/palette.rs:59-89 | the range tests and the while loop compute Color(p, t) |
| Palette.ColorAtEnds | src/palette.rs:60-63 | black below the first stop and above the last one; the last stop gives the last colour (a one-entry table never reaches the loop) |
| Palette.BracketFound | src/palette.rs:65-71 | for sorted entries and first stop <= t < last stop, the loop ends with 1 <= index <= len - 1 and entries[index-1].stop <= t <= entries[index].stop, and the colour is the blend of those two |
| Palette.ColorBetweenNeighbours | src/palette.rs:65-87 | inside the table with distinct bracketing stops every channel lies between the two neighbouring colours |
| Palette.EqualLeadingStops | src/palette.rs:70-74 | two leading entries with the same stop give black at that stop (the 0 / 0 of the local position) |
| Palette.PassesThroughStops | src/palette.rs:59-89 | with strictly increasing stops each entry's stop gives that entry's colour |
| Palette.Grayscale | src/palette.rs:95-102 | for t in [0,1] all three channels equal floor(t*255); black otherwise |
| Palette.GrayscaleRamp | src/palette.rs:96-98 | 0 gives black, 1 white, and the gray level never falls as t rises |
| Palette.Rainbow | src/palette.rs:108-129 | black outside [0,1]; each band fixes two channels (blue band r = 0, b = 255; green band r = 0, g = 255; yellow band g = 255, b = 0; red band r = 255, b = 0; magenta band r = 255, g = 0) |
| Palette.RainbowWaypoints | src/palette.rs:108-129 | the band ends are blue, cyan, green, yellow, red and magenta |
| Palette.RainbowBandDirection | src/palette.rs:111-116 | green rises through the first band and blue falls through the second |

## Left out

- Floating point: `f32`/`f64` are reals, and rounding, infinities and NaN are not modelled. Three NaN cases matter to the result:
  - Mitchell's zero radius: `Filters.AxisWeight` returns 0, written out as an explicit branch.
  - The palette's 0 / 0: `Palette.Blend` returns black, written out as an explicit branch.
  - Mandelbrot.Render: an interior sample whose final \|z\| is below 1 (c = 0 ends at z = 0) makes `log2(log2 |z|)` the log of a non-positive number, so the source returns NaN and the reconstructed pixel value becomes NaN. The model hides this behind the parameter `logLog` (see `Mandelbrot.OriginUsesWholeBudget`).
- Julia.Evaluate: the final `as f32` narrowing of the smooth value is not modelled.
- Smooth colouring: `z.norm().log2().log2()` is an arbitrary function parameter `logLog`. Nothing is proved about its values.
- Jitter: the pair from `rand::random()` is the parameter `drawn` of `StratifiedSampler.Next`. The offset bounds are proved for every pair in [0,1)^2.
- Grid rounding: `f32::sqrt(n).round()` is specified by its integer characterisation. `RoundSqrt` computes it by search.
- StratifiedSampling.RoundSqrt: float `sqrt`/`round` with its ties and error for large n is not modelled. The exact rounded root is used.
- StratifiedSampling.StratifiedSampler.constructor: requires samples_per_pixel >= 1. For 0 the source computes a zero grid width and panics dividing by it.
- Mandelbrot.Render: requires max_iterations >= 1. For 0 the source divides by zero and returns a float NaN/inf.
- Integer widths: `u32`/`u64`/`usize` counters are unbounded naturals. Overflow of `index_x`, `i` or the size-hint products is not modelled.
- Reconstruction: the generic result type `R` is `real`, and the filter `&F` is its `evaluate` as a function value (`Kernel`).
- Filters.Evaluate: the box variant is the corrected symmetric box `BoxEvaluate`, not the code's one-sided test at filter.rs:55. The two agree only for y >= -radius_y (`Filters.BoxAgreesAboveLowerEdge`); below that the source gives weight 1 and the model 0.
- Reconstruction.DefaultBox: the default box enters the reconstructor as the corrected box. For samples with offsets in [0,1) this makes no difference (`Reconstruction.DefaultBoxWeight` states both).
- Palette.SortByStop: the sort is stated as sorted plus permutation. The stability of `sort_by` is not stated.
- Palette.NewTablePalette: the order of entries with equal stops is left open, because SortByStop does not state stability. The stable `sort_by` keeps their input order, and that order decides the colour at a repeated stop: (0,A),(1,B),(1,C) and (0,A),(1,C),(1,B) both meet the contract but differ at t = 1.
- Palette.SortByStop: the `partial_cmp(..).unwrap()` panic on a NaN stop cannot happen over reals and is not modelled.
- Palette.NewTablePalette: requires a non-empty vector. The source only checks this with a `debug_assert!`; a release build would panic in `evaluate` instead.
- Mandelbrot.NewMandelbrot and Julia.NewJulia: both use the corrected aspect. The as-written aspect is kept as `EscapeTime.ViewportAsWritten` (see Findings).
- Mandelbrot.NewMandelbrot and Julia.NewJulia: require width, height >= 1. A zero height makes the source's aspect ratio infinite or NaN.
- The `Filter` trait is one datatype with a variant per filter, dispatched by `Filters.Evaluate`. The `Palette` trait has no counterpart: `TablePalette` is a datatype with `Palette.Color`/`Palette.Evaluate`, and `Grayscale` and `Rainbow` are separate functions. `Renderer`/`RenderFunction` are plain functions.
- `PixelSample::sample()` comes from the external `renderbase` crate. `Julia.Evaluate` takes its (x, y) directly.
- src/main.rs is not part of this model: logging, parameters, the multi-threaded renderer from `renderbase`, and PNG encoding and saving are I/O and wiring.

## Findings

| source | as written | input that shows it | evidently intended | confidence | as-written member | corrected member |
|---|---|---|---|---|---|---|
| src/sampling/stratified.rs:70 | `remaining_y * samples_per_pixel_y + remaining_x` counts the untouched rows at the grid height | `StratifiedSampler::new(x, y, 2, _)` makes a 1 x 2 grid; before the first `next` the hint is (3, Some(3)) though 2 samples remain, breaking `ExactSizeIterator` | multiply by `samples_per_pixel_x`, the row width | high, not executed | StratifiedSampling.SizeHintAsWrittenOvercounts | StratifiedSampling.StratifiedSampler.SizeHint |
| src/reconstruction/filter.rs:55 | the box tests `y <= radius_y` without `abs` | `BoxFilter::with_defaults().evaluate(0.0, -5.0)` is 1.0, though (0, -5) lies far outside the box | `y.abs() <= radius_y`, an even box like the x test | high, not executed | Filters.BoxAsWrittenNotEvenInY | Filters.BoxEven |
| src/rendering/mandelbrot.rs:33 | the portrait branch takes `(1.0 / aspect_ratio, 1.0)`, i.e. (h/w, 1); src/julia.rs:34-38 does the same | width 1, height 2, scale 1: the pixel step is 4 horizontally and 1 vertically | `(aspect_ratio, 1.0)`, square pixels as in the landscape branch | medium, not executed | EscapeTime.PortraitPixelsAsWritten | EscapeTime.NewViewport |
