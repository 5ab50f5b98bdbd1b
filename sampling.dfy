/**
 * One sub-pixel probe location (src/sampling.rs). `Sample::new` is the
 * datatype constructor `Sample(pixelX, pixelY, offsetX, offsetY)`: it stores
 * its four arguments unchanged.
 */
module Sampling {

  /** Pixel coordinates are `u32`, offsets `f64` (modelled as `real`). */
  datatype Sample = Sample(pixelX: nat, pixelY: nat, offsetX: real, offsetY: real)

  /** True when both offsets lie in the unit square [0,1) x [0,1). */
  predicate OffsetsInPixel(s: Sample) {
    0.0 <= s.offsetX < 1.0 && 0.0 <= s.offsetY < 1.0
  }

  /** The continuous image-plane location of a sample. */
  function Location(s: Sample): (loc: (real, real))
    ensures loc.0 - s.offsetX == s.pixelX as real && loc.1 - s.offsetY == s.pixelY as real
    ensures OffsetsInPixel(s) ==> loc.0.Floor == s.pixelX && loc.1.Floor == s.pixelY
  {
    (s.pixelX as real + s.offsetX, s.pixelY as real + s.offsetY)
  }

  /** Two samples of the same pixel are as far apart as their offsets. */
  lemma SamePixelDisplacement(a: Sample, b: Sample)
    requires a.pixelX == b.pixelX && a.pixelY == b.pixelY
    ensures Location(a).0 - Location(b).0 == a.offsetX - b.offsetX
    ensures Location(a).1 - Location(b).1 == a.offsetY - b.offsetY
  {
  }
}
