/**
 * The one-shot sampler of src/sampling/simple.rs: it yields the centre of its
 * pixel once and then nothing, and reports its remaining length exactly.
 */
module SimpleSampling {
  import opened Wrappers
  import opened Sampling

  class SimpleSampler {
    const pixelX: nat
    const pixelY: nat
    /** The source field `fresh` (a reserved word in Dafny). */
    var isFresh: bool

    /** The samples the iterator will still yield, in order. */
    ghost function Pending(): seq<Sample>
      reads this
    {
      if isFresh then [Sample(pixelX, pixelY, 0.5, 0.5)] else []
    }

    constructor (pixelX: nat, pixelY: nat)
      ensures this.pixelX == pixelX && this.pixelY == pixelY
      ensures isFresh
      ensures Pending() == [Sample(pixelX, pixelY, 0.5, 0.5)]
    {
      this.pixelX := pixelX;
      this.pixelY := pixelY;
      isFresh := true;
    }

    /** `Iterator::next`: hands out the head of Pending(), or None once it is empty. */
    method Next() returns (s: Option<Sample>)
      modifies this
      ensures old(Pending()) == [] ==> s == None && Pending() == []
      ensures old(Pending()) != [] ==> s == Some(old(Pending())[0]) && Pending() == old(Pending())[1..]
      ensures s.Some? ==> s.value.pixelX == pixelX && s.value.pixelY == pixelY && OffsetsInPixel(s.value)
      ensures !isFresh
    {
      if isFresh {
        isFresh := false;
        s := Some(Sample(pixelX, pixelY, 0.5, 0.5));
      } else {
        s := None;
      }
    }

    /** `Iterator::size_hint`: exact, as `ExactSizeIterator` promises. */
    function SizeHint(): (r: (nat, Option<nat>))
      reads this
      ensures r == (|Pending()|, Some(|Pending()|))
      ensures r.0 <= 1
    {
      if isFresh then (1, Some(1)) else (0, Some(0))
    }
  }
}
