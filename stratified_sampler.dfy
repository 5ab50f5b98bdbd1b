/**
 * The stratified sampler of src/sampling/stratified.rs: the pixel is split
 * into a grid of samplesPerPixelX x samplesPerPixelY cells, visited in
 * row-major order, one (optionally jittered) sample per cell.
 */
module StratifiedSampling {
  import opened Wrappers
  import opened Sampling

  // ----- Grid sizing ---------------------------------------------------------------------------

  /**
   * k is `round(sqrt(n))`: for integers k >= 1 and n, k - 1/2 <= sqrt(n) < k + 1/2
   * holds exactly when k*k - k < n <= k*k + k (see RoundedSqrtIsNearest).
   */
  predicate IsRoundedSqrt(n: nat, k: nat) {
    k >= 1 && k * k - k < n <= k * k + k
  }

  function RoundSqrtFrom(n: nat, k: nat): (r: nat)
    requires k >= 1 && k * k - k < n
    ensures IsRoundedSqrt(n, r)
    decreases n - k
  {
    if n <= k * k + k then k
    else
      assert (k + 1) * (k + 1) - (k + 1) == k * k + k;
      RoundSqrtFrom(n, k + 1)
  }

  /** The grid width `f32::sqrt(n).round()`, computed exactly on integers. */
  function RoundSqrt(n: nat): (k: nat)
    requires n >= 1
    ensures IsRoundedSqrt(n, k)
  {
    RoundSqrtFrom(n, 1)
  }

  lemma {:induction false} SquareMinusRootMonotone(a: nat, b: nat)
    requires 1 <= a <= b
    ensures a * a - a <= b * b - b
  {
    assert b * b - a * a == (b - a) * (b + a);
    assert (b - a) * (b + a) >= (b - a) * 1;
  }

  /** At most one integer is the rounded square root of n. */
  lemma RoundedSqrtUnique(n: nat, k: nat, k': nat)
    requires IsRoundedSqrt(n, k) && IsRoundedSqrt(n, k')
    ensures k == k'
  {
    if k < k' {
      assert (k + 1) * (k + 1) - (k + 1) == k * k + k;
      SquareMinusRootMonotone(k + 1, k');
    } else if k' < k {
      assert (k' + 1) * (k' + 1) - (k' + 1) == k' * k' + k';
      SquareMinusRootMonotone(k' + 1, k);
    }
  }

  /** The integer characterisation is the real one: (k - 1/2)^2 <= n < (k + 1/2)^2. */
  lemma RoundedSqrtIsNearest(n: nat, k: nat)
    requires k >= 1
    ensures IsRoundedSqrt(n, k) <==>
      (k as real - 0.5) * (k as real - 0.5) <= n as real < (k as real + 0.5) * (k as real + 0.5)
  {
    assert (k as real - 0.5) * (k as real - 0.5) == (k * k - k) as real + 0.25;
    assert (k as real + 0.5) * (k as real + 0.5) == (k * k + k) as real + 0.25;
  }

  lemma MulMonotone(a: int, b: int, d: nat)
    requires a <= b
    ensures a * d <= b * d
  {
    assert b * d - a * d == (b - a) * d;
  }

  /** One more row of d cells adds d. */
  lemma MulSucc(a: int, d: int)
    ensures (a + 1) * d == a * d + d
  {
  }

  lemma DivModUnique(m: nat, d: nat, q: nat, r: nat)
    requires d >= 1 && r < d && m == q * d + r
    ensures m / d == q && m % d == r
  {
    var q', r' := m / d, m % d;
    assert m == q' * d + r';
    if q' < q {
      MulMonotone(q' + 1, q, d);
      MulSucc(q', d);
    } else if q < q' {
      MulMonotone(q + 1, q', d);
      MulSucc(q, d);
    }
  }

  lemma QuotientNearRoot(n: nat, k: nat)
    requires IsRoundedSqrt(n, k)
    ensures k - 1 <= n / k <= k + 1 && n / k >= 1
    ensures (n / k) * k <= n && n - (n / k) * k < k
  {
    var q, r := n / k, n % k;
    assert n == q * k + r && r < k;
    if q < k - 1 {
      assert (k - 2) * k == k * k - 2 * k;
      MulMonotone(q, k - 2, k);
    }
    if q > k + 1 {
      assert (k + 2) * k == k * k + 2 * k;
      MulMonotone(k + 2, q, k);
    }
  }

  /** The grid `(samples_per_pixel_x, samples_per_pixel_y)` built for n requested samples. */
  function GridSize(n: nat): (g: (nat, nat))
    requires n >= 1
    ensures g.0 == RoundSqrt(n) && g.1 == n / g.0
    ensures g.0 >= 1 && g.1 >= 1
    ensures g.0 * g.1 <= n && n - g.0 * g.1 < g.0
    ensures g.0 - 1 <= g.1 <= g.0 + 1
  {
    var k := RoundSqrt(n);
    QuotientNearRoot(n, k);
    (k, n / k)
  }

  lemma FiveSamplesGiveFour()
    ensures GridSize(5) == (2, 2)
  {
    RoundedSqrtUnique(5, RoundSqrt(5), 2);
  }

  lemma TwoSamplesGiveTallGrid()
    ensures GridSize(2) == (1, 2)
  {
    RoundedSqrtUnique(2, RoundSqrt(2), 1);
  }

  // ----- Row-major enumeration of the cells ----------------------------------------------------

  /** The cell `(index_x, index_y)` of the k-th sample (0-based) in a grid `width` cells wide. */
  function Cell(k: nat, width: nat): (c: (nat, nat))
    requires width >= 1
    ensures c.0 < width && k == c.1 * width + c.0
  {
    (k % width, k / width)
  }

  lemma CellOfIndices(ix: nat, iy: nat, width: nat)
    requires ix < width
    ensures Cell(iy * width + ix, width) == (ix, iy)
  {
    DivModUnique(iy * width + ix, width, iy, ix);
  }

  /** The cells of samples from..to-1, in the order the sampler visits them. */
  function RowMajorCells(width: nat, from: nat, to: nat): (cells: seq<(nat, nat)>)
    requires width >= 1 && from <= to
    ensures |cells| == to - from
    ensures forall j :: 0 <= j < |cells| ==> cells[j] == Cell(from + j, width)
  {
    seq(to - from, j requires 0 <= j < to - from => Cell(from + j, width))
  }

  /** The full walk visits every cell of the grid exactly once. */
  lemma RowMajorCoversGrid(width: nat, height: nat)
    requires width >= 1
    ensures var cells := RowMajorCells(width, 0, width * height);
      && (forall j :: 0 <= j < |cells| ==> cells[j].0 < width && cells[j].1 < height)
      && (forall ix: nat, iy: nat :: ix < width && iy < height ==> (ix, iy) in cells)
      && (forall j, j' :: 0 <= j < |cells| && 0 <= j' < |cells| && cells[j] == cells[j'] ==> j == j')
  {
    var cells := RowMajorCells(width, 0, width * height);
    forall j | 0 <= j < |cells| ensures cells[j].1 < height {
      var c := Cell(j, width);
      if c.1 >= height {
        MulMonotone(height, c.1, width);
      }
    }
    forall ix: nat, iy: nat | ix < width && iy < height ensures (ix, iy) in cells {
      CellOfIndices(ix, iy, width);
      CursorBelowTotal(ix, iy, width, height);
      assert cells[iy * width + ix] == (ix, iy);
    }
  }

  /** A cursor inside the grid has fewer predecessors than the grid has cells. */
  lemma CursorBelowTotal(ix: nat, iy: nat, width: nat, height: nat)
    requires ix < width && iy <= height && (iy == height ==> ix == 0)
    ensures iy * width + ix <= width * height
    ensures iy * width + ix == width * height <==> iy == height
  {
    if iy < height {
      MulMonotone(iy + 1, height, width);
      MulSucc(iy, width);
    }
  }

  // ----- Offsets -------------------------------------------------------------------------------

  /** The jitter pair actually used: the drawn one, or the cell centre without jitter. */
  function JitterUsed(jitter: bool, drawn: (real, real)): (j: (real, real))
    ensures InUnitSquare(drawn) ==> InUnitSquare(j)
    ensures !jitter ==> InUnitSquare(j) && j == (0.5, 0.5)
  {
    if jitter then drawn else (0.5, 0.5)
  }

  predicate InUnitSquare(p: (real, real)) {
    0.0 <= p.0 < 1.0 && 0.0 <= p.1 < 1.0
  }

  lemma DivMonotone(a: real, b: real, w: real)
    requires w > 0.0
    ensures a <= b ==> a / w <= b / w
    ensures a < b ==> a / w < b / w
  {
    assert b / w - a / w == (b - a) / w;
  }

  /** Along one axis, stratum i of n, shifted by j in [0,1), stays inside [i/n, (i+1)/n) and [0,1). */
  lemma OffsetInStratum(i: nat, n: nat, j: real)
    requires n >= 1
    ensures i < n && 0.0 <= j < 1.0 ==>
      && i as real / n as real <= (i as real + j) / n as real < (i + 1) as real / n as real
      && 0.0 <= (i as real + j) / n as real < 1.0
  {
    if i < n && 0.0 <= j < 1.0 {
      var w := n as real;
      DivMonotone(i as real, i as real + j, w);
      DivMonotone(i as real + j, (i + 1) as real, w);
      DivMonotone((i + 1) as real, w, w);
      DivMonotone(0.0, i as real, w);
    }
  }

  /** The sample offset inside a cell of a width x height grid. */
  function CellOffset(width: nat, height: nat, cell: (nat, nat), j: (real, real)): (o: (real, real))
    requires width >= 1 && height >= 1
    ensures cell.0 < width && cell.1 < height && InUnitSquare(j) ==>
      && cell.0 as real / width as real <= o.0 < (cell.0 + 1) as real / width as real
      && cell.1 as real / height as real <= o.1 < (cell.1 + 1) as real / height as real
      && InUnitSquare(o)
  {
    OffsetInStratum(cell.0, width, j.0);
    OffsetInStratum(cell.1, height, j.1);
    ((cell.0 as real + j.0) / width as real, (cell.1 as real + j.1) / height as real)
  }

  /** Without jitter, four samples per pixel land on the centres of the four quarters. */
  lemma FourSamplesWithoutJitter()
    ensures GridSize(4) == (2, 2)
    ensures RowMajorCells(2, 0, 4) == [(0, 0), (1, 0), (0, 1), (1, 1)]
    ensures var j := JitterUsed(false, (0.0, 0.0));
      && CellOffset(2, 2, (0, 0), j) == (0.25, 0.25)
      && CellOffset(2, 2, (1, 0), j) == (0.75, 0.25)
      && CellOffset(2, 2, (0, 1), j) == (0.25, 0.75)
      && CellOffset(2, 2, (1, 1), j) == (0.75, 0.75)
  {
    RoundedSqrtUnique(4, RoundSqrt(4), 2);
    var cells := RowMajorCells(2, 0, 4);
    CellOfIndices(0, 0, 2);
    CellOfIndices(1, 0, 2);
    CellOfIndices(0, 1, 2);
    CellOfIndices(1, 1, 2);
    assert cells[0] == (0, 0) && cells[1] == (1, 0) && cells[2] == (0, 1) && cells[3] == (1, 1);
  }

  // ----- The sampler ---------------------------------------------------------------------------

  class StratifiedSampler {
    const x: nat
    const y: nat
    const samplesPerPixelX: nat
    const samplesPerPixelY: nat
    const jitter: bool
    var indexX: nat
    var indexY: nat

    ghost predicate Valid()
      reads this
    {
      && samplesPerPixelX >= 1 && samplesPerPixelY >= 1
      && indexX < samplesPerPixelX && indexY <= samplesPerPixelY
      && (indexY == samplesPerPixelY ==> indexX == 0)
    }

    /** Number of samples the sampler yields in all. */
    ghost function Total(): nat
      reads this
    {
      samplesPerPixelX * samplesPerPixelY
    }

    /** Number of samples handed out so far. */
    ghost function Produced(): (p: nat)
      reads this
      requires Valid()
      ensures p <= Total()
      ensures p == Total() <==> indexY == samplesPerPixelY
      ensures Cell(p, samplesPerPixelX) == (indexX, indexY)
    {
      CellOfIndices(indexX, indexY, samplesPerPixelX);
      CursorBelowTotal(indexX, indexY, samplesPerPixelX, samplesPerPixelY);
      indexY * samplesPerPixelX + indexX
    }

    /** The cells still to be visited, in order. */
    ghost function PendingCells(): seq<(nat, nat)>
      reads this
      requires Valid()
    {
      RowMajorCells(samplesPerPixelX, Produced(), Total())
    }

    constructor (x: nat, y: nat, samplesPerPixel: nat, jitter: bool)
      requires samplesPerPixel >= 1
      ensures this.x == x && this.y == y && this.jitter == jitter
      ensures (samplesPerPixelX, samplesPerPixelY) == GridSize(samplesPerPixel)
      ensures Valid() && indexX == 0 && indexY == 0
      ensures PendingCells() == RowMajorCells(samplesPerPixelX, 0, samplesPerPixelX * samplesPerPixelY)
    {
      var grid := GridSize(samplesPerPixel);
      this.x := x;
      this.y := y;
      samplesPerPixelX := grid.0;
      samplesPerPixelY := grid.1;
      this.jitter := jitter;
      indexX := 0;
      indexY := 0;
    }

    /**
     * `Iterator::next`. `drawn` is the pair `rand::random()` returns; it is only
     * used when jitter is on.
     */
    method Next(drawn: (real, real)) returns (s: Option<Sample>)
      requires Valid()
      modifies this
      ensures Valid()
      ensures old(PendingCells()) == [] ==>
        s == None && indexX == old(indexX) && indexY == old(indexY)
      ensures old(PendingCells()) != [] ==>
        && PendingCells() == old(PendingCells())[1..]
        && var o := CellOffset(samplesPerPixelX, samplesPerPixelY, old(PendingCells())[0], JitterUsed(jitter, drawn));
           s == Some(Sample(x, y, o.0, o.1))
      ensures old(indexY) < samplesPerPixelY ==>
        if old(indexX) + 1 >= samplesPerPixelX then indexX == 0 && indexY == old(indexY) + 1
        else indexX == old(indexX) + 1 && indexY == old(indexY)
      ensures s.Some? && InUnitSquare(drawn) ==> OffsetsInPixel(s.value)
    {
      ghost var before := Produced();
      if indexY < samplesPerPixelY {
        var j := JitterUsed(jitter, drawn);
        var offsetX := (indexX as real + j.0) / samplesPerPixelX as real;
        var offsetY := (indexY as real + j.1) / samplesPerPixelY as real;
        var sample := Sample(x, y, offsetX, offsetY);
        assert (offsetX, offsetY) == CellOffset(samplesPerPixelX, samplesPerPixelY, (indexX, indexY), j);

        indexX := indexX + 1;
        if indexX >= samplesPerPixelX {
          indexX := 0;
          indexY := indexY + 1;
        }
        assert Produced() == before + 1;
        s := Some(sample);
      } else {
        s := None;
      }
    }

    /** `Iterator::size_hint` with the remaining rows counted at their true width. */
    function SizeHint(): (r: (nat, Option<nat>))
      reads this
      requires Valid()
      ensures r == (|PendingCells()|, Some(|PendingCells()|))
    {
      if indexY < samplesPerPixelY then
        var remainingY: nat := samplesPerPixelY - indexY - 1;
        var remainingX: nat := samplesPerPixelX - indexX;
        assert remainingY * samplesPerPixelX == Total() - indexY * samplesPerPixelX - samplesPerPixelX;
        var remaining := remainingY * samplesPerPixelX + remainingX;
        (remaining, Some(remaining))
      else
        (0, Some(0))
    }

    /** `Iterator::size_hint` as written: the remaining rows are multiplied by the grid height. */
    function SizeHintAsWritten(): (r: (nat, Option<nat>))
      reads this
      requires Valid()
      ensures r.1 == Some(r.0)
      ensures r.0 == |PendingCells()| <==> samplesPerPixelX == samplesPerPixelY || indexY + 1 >= samplesPerPixelY
    {
      if indexY < samplesPerPixelY then
        var remainingY: nat := samplesPerPixelY - indexY - 1;
        var remainingX: nat := samplesPerPixelX - indexX;
        var remaining := remainingY * samplesPerPixelY + remainingX;
        assert |PendingCells()| == remainingY * samplesPerPixelX + remainingX by {
          assert SizeHint().0 == remainingY * samplesPerPixelX + remainingX;
        }
        RowsTimesWidthDifference(remainingY, samplesPerPixelX, samplesPerPixelY);
        (remaining, Some(remaining))
      else
        (0, Some(0))
    }
  }

  /** Counting r rows at width b instead of a is off by r * (b - a), which is zero only when r = 0 or a = b. */
  lemma RowsTimesWidthDifference(r: nat, a: nat, b: nat)
    ensures r * b - r * a == r * (b - a)
    ensures r * b == r * a <==> r == 0 || a == b
  {
    if r != 0 && a != b {
      if a < b {
        MulMonotone(a + 1, b, r);
        MulSucc(a, r);
      } else {
        MulMonotone(b + 1, a, r);
        MulSucc(b, r);
      }
    }
  }

  /** Two requested samples make a 1 x 2 grid, for which the as-written hint reports 3 of 2. */
  lemma SizeHintAsWrittenOvercounts(s: StratifiedSampler)
    requires s.Valid() && (s.samplesPerPixelX, s.samplesPerPixelY) == GridSize(2)
    requires s.indexX == 0 && s.indexY == 0
    ensures s.SizeHintAsWritten() == (3, Some(3))
    ensures s.SizeHint() == (2, Some(2))
  {
    TwoSamplesGiveTallGrid();
  }
}
