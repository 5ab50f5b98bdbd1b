/**
 * The per-pixel reconstructor of src/reconstruction.rs: a weighted sum of
 * render results and the total of the filter weights, with a guarded
 * division. The generic result type `R` is modelled as `real`; the generic
 * filter `F: Filter` as its `evaluate`, a function of the offset (x, y).
 */
module Reconstruction {
  import opened Sampling
  import opened Filters

  /** A filter's `evaluate`: the weight at offset (x, y) from the pixel centre. */
  type Kernel = (real, real) -> real

  /** The filter weight of a sample, taken at its offset from the pixel centre. */
  function Weight(filter: Kernel, s: Sample): (w: real)
    ensures s.offsetX == 0.5 && s.offsetY == 0.5 ==> w == filter(0.0, 0.0)
  {
    filter(s.offsetX - 0.5, s.offsetY - 0.5)
  }

  /** A filter's `evaluate` as a kernel. */
  function KernelOf(f: Filter): Kernel {
    (x: real, y: real) => Evaluate(f, x, y)
  }

  /**
   * Mirroring a sample's offset about the pixel centre, in either axis, leaves
   * its weight unchanged (for the Mitchell kernel and the corrected box).
   */
  lemma MirroredWeight(f: Filter, s: Sample)
    ensures Weight(KernelOf(f), Sample(s.pixelX, s.pixelY, 1.0 - s.offsetX, s.offsetY)) == Weight(KernelOf(f), s)
    ensures Weight(KernelOf(f), Sample(s.pixelX, s.pixelY, s.offsetX, 1.0 - s.offsetY)) == Weight(KernelOf(f), s)
  {
    var x, y := s.offsetX - 0.5, s.offsetY - 0.5;
    assert (1.0 - s.offsetX) - 0.5 == -x && (1.0 - s.offsetY) - 0.5 == -y;
    EvaluateEven(f, x, y);
  }

  /** `BoxFilter::with_defaults()` as a kernel. */
  function DefaultBox(x: real, y: real): real {
    Evaluate(BoxWithDefaults(), x, y)
  }

  /** One accumulated observation: the sample, the render result and the weight it was given. */
  datatype Observation = Observation(sample: Sample, result: real, weight: real)

  /** Every recorded weight is the filter's weight of its sample. */
  ghost predicate Recorded(filter: Kernel, h: seq<Observation>) {
    forall i :: 0 <= i < |h| ==> h[i].weight == Weight(filter, h[i].sample)
  }

  /** The three quantities summed over a history. */
  datatype Term = Contribution | WeightOnly | ResultOnly

  /** The term t of one observation: result * weight, the weight, or the result. */
  function TermOf(t: Term, o: Observation): real {
    match t
    case Contribution => o.result * o.weight
    case WeightOnly => o.weight
    case ResultOnly => o.result
  }

  /** The sum of the term t over a history. */
  function SumOf(t: Term, h: seq<Observation>): real {
    if |h| == 0 then 0.0 else SumOf(t, h[..|h| - 1]) + TermOf(t, h[|h| - 1])
  }

  /** The accumulator after a history: the sum of result * weight. */
  function WeightedSum(h: seq<Observation>): real {
    SumOf(Contribution, h)
  }

  /** The total weight after a history. */
  function TotalWeight(h: seq<Observation>): real {
    SumOf(WeightOnly, h)
  }

  /** The sum of the results alone. */
  function ResultSum(h: seq<Observation>): real {
    SumOf(ResultOnly, h)
  }

  /** What `value` promises for a history: the weighted mean, or zero when the weights total zero. */
  function ReconstructedValue(h: seq<Observation>): (v: real)
    ensures TotalWeight(h) == 0.0 ==> v == 0.0
    ensures TotalWeight(h) != 0.0 ==> v * TotalWeight(h) == WeightedSum(h)
  {
    if TotalWeight(h) != 0.0 then WeightedSum(h) / TotalWeight(h) else 0.0
  }

  class Reconstructor {
    var accumulator: real
    var totalWeight: real
    const filter: Kernel
    /** The observations accumulated so far, in order. */
    ghost var history: seq<Observation>

    /** The two fields are the sums over the observations so far. */
    ghost predicate Valid()
      reads this
    {
      Recorded(filter, history)
      && accumulator == WeightedSum(history) && totalWeight == TotalWeight(history)
    }

    /** `Reconstructor::new`: a zero accumulator and a zero total weight. */
    constructor (filter: Kernel)
      ensures Valid()
      ensures this.filter == filter && history == []
      ensures accumulator == 0.0 && totalWeight == 0.0
    {
      this.filter := filter;
      accumulator := 0.0;
      totalWeight := 0.0;
      history := [];
    }

    /** `Reconstructor::accumulate`: adds result * w and w, where w is the sample's weight. */
    method Accumulate(sample: Sample, result: real)
      requires Valid()
      modifies this
      ensures Valid()
      ensures history == old(history) + [Observation(sample, result, Weight(filter, sample))]
      ensures accumulator == old(accumulator) + result * Weight(filter, sample)
      ensures totalWeight == old(totalWeight) + Weight(filter, sample)
    {
      var weight := Weight(filter, sample);
      var o := Observation(sample, result, weight);
      AppendObservation(history, o);
      RecordedAppend(filter, history, o);
      accumulator := accumulator + result * weight;
      totalWeight := totalWeight + weight;
      history := history + [o];
    }

    /** `Reconstructor::value`: the weighted mean, never dividing by a zero total. */
    function Value(): (v: real)
      reads this
      ensures totalWeight == 0.0 ==> v == 0.0
      ensures totalWeight != 0.0 ==> v * totalWeight == accumulator
      ensures Valid() ==> v == ReconstructedValue(history)
    {
      if totalWeight != 0.0 then accumulator / totalWeight else 0.0
    }
  }

  /** One more observation extends both sums by its terms. */
  lemma AppendObservation(h: seq<Observation>, o: Observation)
    ensures WeightedSum(h + [o]) == WeightedSum(h) + o.result * o.weight
    ensures TotalWeight(h + [o]) == TotalWeight(h) + o.weight
  {
    SumOfAppend(Contribution, h, o);
    SumOfAppend(WeightOnly, h, o);
  }

  /** Appending an observation whose weight the filter gave keeps the history recorded: what `accumulate` does. */
  lemma RecordedAppend(filter: Kernel, h: seq<Observation>, o: Observation)
    requires Recorded(filter, h) && o.weight == Weight(filter, o.sample)
    ensures Recorded(filter, h + [o])
  {
    assert forall i :: 0 <= i < |h| ==> (h + [o])[i] == h[i];
  }

  lemma SumOfAppend(t: Term, h: seq<Observation>, o: Observation)
    ensures SumOf(t, h + [o]) == SumOf(t, h) + TermOf(t, o)
  {
    assert (h + [o])[..|h|] == h;
  }

  lemma {:induction false} SumOfConcat(t: Term, h: seq<Observation>, k: seq<Observation>)
    ensures SumOf(t, h + k) == SumOf(t, h) + SumOf(t, k)
    decreases |k|
  {
    if |k| == 0 {
      assert h + k == h;
    } else {
      var init := k[..|k| - 1];
      var last := k[|k| - 1];
      assert k == init + [last];
      assert h + k == (h + init) + [last];
      SumOfConcat(t, h, init);
      SumOfAppend(t, h + init, last);
      SumOfAppend(t, init, last);
    }
  }

  /** Taking one observation out of the sum. */
  lemma SumOfRemove(t: Term, h: seq<Observation>, j: nat)
    requires j < |h|
    ensures SumOf(t, h) == SumOf(t, h[..j] + h[j + 1..]) + TermOf(t, h[j])
  {
    assert h == (h[..j] + [h[j]]) + h[j + 1..];
    SumOfConcat(t, h[..j] + [h[j]], h[j + 1..]);
    SumOfAppend(t, h[..j], h[j]);
    SumOfConcat(t, h[..j], h[j + 1..]);
  }

  lemma MultisetRemove(h: seq<Observation>, j: nat)
    requires j < |h|
    ensures multiset(h[..j] + h[j + 1..]) == multiset(h) - multiset{h[j]}
  {
    assert h == h[..j] + [h[j]] + h[j + 1..];
  }

  /** A sum does not depend on the order of its terms. */
  lemma {:induction false} SumOfPermutation(t: Term, h: seq<Observation>, k: seq<Observation>)
    requires multiset(h) == multiset(k)
    ensures SumOf(t, h) == SumOf(t, k)
    decreases |h|
  {
    if |h| == 0 {
      assert |k| == |multiset(k)| == 0;
    } else {
      var last := h[|h| - 1];
      var init := h[..|h| - 1];
      var j := RemoveMatching(h, k);
      SumOfPermutation(t, init, k[..j] + k[j + 1..]);
      SumOfRemove(t, k, j);
    }
  }

  /** The last element of h occurs in k; taking it out of both keeps the multisets equal. */
  lemma RemoveMatching(h: seq<Observation>, k: seq<Observation>) returns (j: nat)
    requires |h| > 0 && multiset(h) == multiset(k)
    ensures j < |k| && k[j] == h[|h| - 1]
    ensures multiset(h[..|h| - 1]) == multiset(k[..j] + k[j + 1..])
  {
    var last := h[|h| - 1];
    assert last in multiset(k);
    j :| 0 <= j < |k| && k[j] == last;
    MultisetRemove(h, |h| - 1);
    MultisetRemove(k, j);
    assert h[..|h| - 1] + h[|h|..] == h[..|h| - 1];
  }

  /** When every result is r, the weighted sum is r times the total weight. */
  lemma {:induction false} WeightedSumOfConstant(h: seq<Observation>, r: real)
    requires forall i :: 0 <= i < |h| ==> h[i].result == r
    ensures WeightedSum(h) == r * TotalWeight(h)
    decreases |h|
  {
    if |h| > 0 {
      var init := h[..|h| - 1];
      var last := h[|h| - 1];
      assert forall i :: 0 <= i < |init| ==> init[i] == h[i];
      WeightedSumOfConstant(init, r);
      ScaleStep(WeightedSum(init), TotalWeight(init), last.result * last.weight, last.weight, r);
    }
  }

  /** When every weight is 1, the weighted sum is the sum of the results. */
  lemma {:induction false} WeightedSumOfUnitWeights(h: seq<Observation>)
    requires forall i :: 0 <= i < |h| ==> h[i].weight == 1.0
    ensures WeightedSum(h) == ResultSum(h)
    decreases |h|
  {
    if |h| > 0 {
      var init := h[..|h| - 1];
      assert forall i :: 0 <= i < |init| ==> init[i] == h[i];
      WeightedSumOfUnitWeights(init);
    }
  }

  /** Termwise t = c gives sum t = c * |h|. */
  lemma {:induction false} SumOfConstant(t: Term, h: seq<Observation>, c: real)
    requires forall i :: 0 <= i < |h| ==> TermOf(t, h[i]) == c
    ensures SumOf(t, h) == c * (|h| as real)
    decreases |h|
  {
    if |h| > 0 {
      var init := h[..|h| - 1];
      assert forall i :: 0 <= i < |init| ==> init[i] == h[i];
      SumOfConstant(t, init, c);
    }
  }

  /** Over reals the value does not depend on the order of accumulation. */
  lemma OrderIndependent(h1: seq<Observation>, h2: seq<Observation>)
    requires multiset(h1) == multiset(h2)
    ensures WeightedSum(h1) == WeightedSum(h2)
    ensures TotalWeight(h1) == TotalWeight(h2)
    ensures ReconstructedValue(h1) == ReconstructedValue(h2)
  {
    SumOfPermutation(Contribution, h1, h2);
    SumOfPermutation(WeightOnly, h1, h2);
  }

  /** When every result is the same r and the weights do not total zero, the value is r. */
  lemma ConstantResults(h: seq<Observation>, r: real)
    requires forall i :: 0 <= i < |h| ==> h[i].result == r
    requires TotalWeight(h) != 0.0
    ensures ReconstructedValue(h) == r
  {
    WeightedSumOfConstant(h, r);
    DivCancel(r, TotalWeight(h));
  }

  lemma ScaleStep(a1: real, a2: real, b1: real, b2: real, r: real)
    requires a1 == r * a2 && b1 == r * b2
    ensures a1 + b1 == r * (a2 + b2)
  {
  }

  lemma DivCancel(r: real, d: real)
    requires d != 0.0
    ensures (r * d) / d == r
  {
  }

  /** When every weight is zero, the value is zero: the division is never reached. */
  lemma ZeroWeights(h: seq<Observation>)
    requires forall i :: 0 <= i < |h| ==> h[i].weight == 0.0
    ensures TotalWeight(h) == 0.0
    ensures ReconstructedValue(h) == 0.0
  {
    SumOfConstant(WeightOnly, h, 0.0);
  }

  /** The default box, corrected or as written, gives every sample whose offsets lie in [0,1) the weight 1. */
  lemma DefaultBoxWeight(s: Sample)
    requires OffsetsInPixel(s)
    ensures Weight(DefaultBox, s) == 1.0
    ensures BoxEvaluateAsWritten(0.5, 0.5, s.offsetX - 0.5, s.offsetY - 0.5) == 1.0
  {
  }

  /** With the default box and offsets in the pixel, the value is the arithmetic mean of the results. */
  lemma DefaultBoxMean(h: seq<Observation>)
    requires |h| > 0
    requires Recorded(DefaultBox, h)
    requires forall i :: 0 <= i < |h| ==> OffsetsInPixel(h[i].sample)
    ensures TotalWeight(h) == |h| as real
    ensures ReconstructedValue(h) == ResultSum(h) / (|h| as real)
  {
    forall i | 0 <= i < |h|
      ensures h[i].weight == 1.0
    {
      DefaultBoxWeight(h[i].sample);
    }
    SumOfConstant(WeightOnly, h, 1.0);
    WeightedSumOfUnitWeights(h);
  }
}
