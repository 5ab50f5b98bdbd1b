/**
 * The palettes of src/palette.rs: a value t becomes an RGB colour. A table
 * palette interpolates between the colours of its two entries around t,
 * the grayscale and rainbow palettes are fixed band maps. `f32` is
 * modelled as `real`; the saturating `as u8` cast is written out as
 * `AsU8`.
 */
module Palette {
  import opened MathUtil

  /** `u8`. */
  newtype byte = x: int | 0 <= x < 256

  /** `image::Rgb<u8>`: the channels [0], [1], [2]. */
  datatype Rgb = Rgb(r: byte, g: byte, b: byte)

  const Black := Rgb(0, 0, 0)

  /** The saturating cast `x as u8`: below 0 gives 0, from 255 on gives 255, otherwise the fraction is dropped. */
  function AsU8(x: real): (b: byte)
    ensures 0.0 <= x < 256.0 ==> b as int == x.Floor
    ensures x <= 0.0 ==> b == 0
    ensures x >= 255.0 ==> b == 255
  {
    if x < 0.0 then 0 else if x >= 255.0 then 255 else x.Floor as byte
  }

  /** A larger value never casts to a smaller byte. */
  lemma AsU8Monotone(x: real, y: real)
    requires x <= y
    ensures AsU8(x) <= AsU8(y)
  {
    if 0.0 <= x && y < 255.0 {
      FloorMonotone(x, y);
    }
  }

  lemma FloorMonotone(x: real, y: real)
    requires x <= y
    ensures x.Floor <= y.Floor
  {
  }

  /** The `clamp` closure of `TablePalette::evaluate`. */
  function Clamp(t: real, min: real, max: real): (c: real)
    ensures min <= max ==> min <= c <= max
    ensures min <= t <= max ==> c == t
  {
    if t < min then min else if t > max then max else t
  }

  /** The `interpolate` closure: one channel blended at the local position t, clamped to [0, 255] and cast. */
  function Channel(t: real, left: byte, right: byte): (v: byte)
    ensures t == 0.0 ==> v == left
    ensures t == 1.0 ==> v == right
  {
    AsU8(Clamp(Interpolate(t, left as real, right as real), 0.0, 255.0))
  }

  /** For a local position in [0, 1] the channel lies between the two end channels. */
  lemma ChannelBetween(t: real, left: byte, right: byte)
    requires 0.0 <= t <= 1.0
    ensures left <= right ==> left <= Channel(t, left, right) <= right
    ensures right <= left ==> right <= Channel(t, left, right) <= left
  {
    var x := Interpolate(t, left as real, right as real);
    InterpolateBetween(t, left as real, right as real);
    assert Clamp(x, 0.0, 255.0) == x;
    if left <= right {
      FloorMonotone(left as real, x);
      FloorMonotone(x, right as real);
    } else {
      FloorMonotone(right as real, x);
      FloorMonotone(x, left as real);
    }
  }

  /** `PaletteEntry`: a stop and its colour. */
  datatype PaletteEntry = PaletteEntry(stop: real, color: Rgb)

  /** The position of t between two stops, scaled to [0, 1]. */
  function LocalPosition(t: real, leftStop: real, rightStop: real): (u: real)
    requires leftStop != rightStop
    ensures t == leftStop ==> u == 0.0
    ensures t == rightStop ==> u == 1.0
    ensures leftStop < rightStop && leftStop <= t <= rightStop ==> 0.0 <= u <= 1.0
  {
    OverPositive(t - leftStop, rightStop - leftStop);
    (t - leftStop) / (rightStop - leftStop)
  }

  lemma OverPositive(a: real, d: real)
    requires d != 0.0
    ensures a == d ==> a / d == 1.0
    ensures d > 0.0 && 0.0 <= a <= d ==> 0.0 <= a / d <= 1.0
  {
    if d > 0.0 && 0.0 <= a <= d {
      assert (a / d) * d == a;
    }
  }

  /**
   * The colour between two neighbouring entries at t. With equal stops the
   * local position is 0 / 0, a NaN, which every `as u8` cast turns into 0:
   * the colour is black.
   */
  function Blend(t: real, left: PaletteEntry, right: PaletteEntry): (c: Rgb)
    ensures left.stop != right.stop && t == left.stop ==> c == left.color
    ensures left.stop != right.stop && t == right.stop ==> c == right.color
    ensures left.stop == right.stop ==> c == Black
  {
    if left.stop == right.stop then Black
    else
      var u := LocalPosition(t, left.stop, right.stop);
      Rgb(Channel(u, left.color.r, right.color.r),
          Channel(u, left.color.g, right.color.g),
          Channel(u, left.color.b, right.color.b))
  }

  /** Every channel of a blend at t between the two stops lies between the two colours' channels. */
  lemma BlendBetween(t: real, left: PaletteEntry, right: PaletteEntry)
    requires left.stop < right.stop && left.stop <= t <= right.stop
    ensures var c := Blend(t, left, right);
            Between(c.r, left.color.r, right.color.r)
            && Between(c.g, left.color.g, right.color.g)
            && Between(c.b, left.color.b, right.color.b)
  {
    var u := LocalPosition(t, left.stop, right.stop);
    ChannelBetween(u, left.color.r, right.color.r);
    ChannelBetween(u, left.color.g, right.color.g);
    ChannelBetween(u, left.color.b, right.color.b);
  }

  /** v lies between a and b, in either order. */
  predicate Between(v: byte, a: byte, b: byte) {
    (a <= v <= b) || (b <= v <= a)
  }

  // ----- TablePalette ----------------------------------------------------------------------------

  /** `TablePalette`: its entries, sorted by stop once `new` has run. */
  datatype TablePalette = TablePalette(entries: seq<PaletteEntry>)

  predicate SortedByStop(s: seq<PaletteEntry>) {
    forall i, j :: 0 <= i < j < |s| ==> s[i].stop <= s[j].stop
  }

  /** What `new` leaves behind: at least one entry, sorted by stop. */
  predicate ValidPalette(p: TablePalette) {
    |p.entries| > 0 && SortedByStop(p.entries)
  }

  /** The first n entries are sorted by stop. */
  predicate SortedPrefix(s: seq<PaletteEntry>, n: nat) {
    n <= |s| && forall p, q :: 0 <= p < q < n ==> s[p].stop <= s[q].stop
  }

  /**
   * The state of one insertion: the entry that was at i has moved down to j,
   * the others of s[..i+1] are sorted, everything after j is larger than it,
   * and its two neighbours are in order.
   */
  predicate Gap(s: seq<PaletteEntry>, i: nat, j: nat) {
    j <= i < |s|
    && (forall p, q :: 0 <= p < q <= i && p != j && q != j ==> s[p].stop <= s[q].stop)
    && (forall q :: j < q <= i ==> s[j].stop < s[q].stop)
    && (0 < j < i ==> s[j - 1].stop <= s[j + 1].stop)
  }

  /** `entries.sort_by(stop)`: insertion sort by adjacent swaps, in place. */
  method SortByStop(a: array<PaletteEntry>)
    modifies a
    ensures SortedByStop(a[..])
    ensures multiset(a[..]) == multiset(old(a[..]))
  {
    var i := 0;
    while i < a.Length
      invariant 0 <= i <= a.Length
      invariant SortedPrefix(a[..], i)
      invariant multiset(a[..]) == multiset(old(a[..]))
    {
      InsertAt(a, i);
      i := i + 1;
    }
  }

  /** Moves the entry at i down past every larger stop before it. */
  method InsertAt(a: array<PaletteEntry>, i: nat)
    requires i < a.Length && SortedPrefix(a[..], i)
    modifies a
    ensures SortedPrefix(a[..], i + 1)
    ensures multiset(a[..]) == multiset(old(a[..]))
  {
    GapStart(a[..], i);
    var j: nat := i;
    while j > 0 && a[j - 1].stop > a[j].stop
      invariant Gap(a[..], i, j)
      invariant multiset(a[..]) == multiset(old(a[..]))
    {
      GapStep(a[..], i, j);
      SwapDown(a, j);
      j := j - 1;
    }
    GapClosed(a[..], i, j);
  }

  /** Exchanges the entries at j - 1 and j. */
  method SwapDown(a: array<PaletteEntry>, j: nat)
    requires 0 < j < a.Length
    modifies a
    ensures a[..] == Swapped(old(a[..]), j)
    ensures multiset(a[..]) == multiset(old(a[..]))
  {
    SwappedSameEntries(a[..], j);
    a[j - 1], a[j] := a[j], a[j - 1];
  }

  function Swapped(s: seq<PaletteEntry>, j: nat): (t: seq<PaletteEntry>)
    requires 0 < j < |s|
    ensures |t| == |s| && t[j - 1] == s[j] && t[j] == s[j - 1]
    ensures forall k :: 0 <= k < |s| && k != j - 1 && k != j ==> t[k] == s[k]
  {
    s[j - 1 := s[j]][j := s[j - 1]]
  }

  lemma SwappedSameEntries(s: seq<PaletteEntry>, j: nat)
    requires 0 < j < |s|
    ensures multiset(Swapped(s, j)) == multiset(s)
  {
    var t := Swapped(s, j);
    assert s == s[..j - 1] + [s[j - 1], s[j]] + s[j + 1..];
    assert t == s[..j - 1] + [s[j], s[j - 1]] + s[j + 1..];
  }

  /** A sorted prefix of length i is a gap at i. */
  lemma GapStart(s: seq<PaletteEntry>, i: nat)
    requires i < |s| && SortedPrefix(s, i)
    ensures Gap(s, i, i)
  {
  }

  /** Swapping the moving entry with a larger left neighbour moves the gap one place down. */
  lemma GapStep(s: seq<PaletteEntry>, i: nat, j: nat)
    requires Gap(s, i, j) && j > 0 && s[j - 1].stop > s[j].stop
    ensures Gap(Swapped(s, j), i, j - 1)
  {
    var t := Swapped(s, j);
    forall p, q | 0 <= p < q <= i && p != j - 1 && q != j - 1
      ensures t[p].stop <= t[q].stop
    {
      if q == j {
        assert t[q] == s[j - 1];
        if p < j - 1 {
          assert s[p].stop <= s[j - 1].stop;
        }
      } else if p == j {
        assert t[p] == s[j - 1];
        assert s[j - 1].stop <= s[q].stop || q == j + 1;
      }
    }
  }

  /** A gap whose left neighbour is no larger is a sorted prefix of length i + 1. */
  lemma GapClosed(s: seq<PaletteEntry>, i: nat, j: nat)
    requires Gap(s, i, j) && (j == 0 || s[j - 1].stop <= s[j].stop)
    ensures SortedPrefix(s, i + 1)
  {
    forall p, q | 0 <= p < q <= i
      ensures s[p].stop <= s[q].stop
    {
      if q == j && p < j - 1 {
        assert s[p].stop <= s[j - 1].stop;
      }
    }
  }

  /** `TablePalette::new`: sorts the entries in place and keeps them. */
  method NewTablePalette(entries: array<PaletteEntry>) returns (p: TablePalette)
    requires entries.Length > 0
    modifies entries
    ensures ValidPalette(p)
    ensures p.entries == entries[..]
    ensures multiset(p.entries) == multiset(old(entries[..]))
  {
    SortByStop(entries);
    p := TablePalette(entries[..]);
  }

  /** The first index from i on whose stop is at least t. */
  function SearchFrom(s: seq<PaletteEntry>, t: real, i: nat): (k: nat)
    requires 1 <= i < |s| && t <= s[|s| - 1].stop
    ensures i <= k < |s| && t <= s[k].stop
    ensures forall m :: i <= m < k ==> t > s[m].stop
    decreases |s| - i
  {
    if t > s[i].stop then SearchFrom(s, t, i + 1) else i
  }

  /** The search result is the only index that satisfies its two ensures. */
  lemma {:induction false} SearchFromUnique(s: seq<PaletteEntry>, t: real, i: nat, k: nat)
    requires 1 <= i <= k < |s| && t <= s[|s| - 1].stop
    requires t <= s[k].stop && forall m :: i <= m < k ==> t > s[m].stop
    ensures SearchFrom(s, t, i) == k
    decreases k - i
  {
    if i < k {
      SearchFromUnique(s, t, i + 1, k);
    }
  }

  /** What `evaluate` returns for t. */
  function Color(p: TablePalette, t: real): Rgb
    requires |p.entries| > 0
  {
    var s := p.entries;
    var last := |s| - 1;
    if t < s[0].stop || t > s[last].stop then Black
    else if t == s[last].stop then s[last].color
    else
      var k := SearchFrom(s, t, 1);
      Blend(t, s[k - 1], s[k])
  }

  /** `TablePalette::evaluate`: the range tests, then the linear search for the bracket of t. */
  method Evaluate(p: TablePalette, t: real) returns (c: Rgb)
    requires |p.entries| > 0
    ensures c == Color(p, t)
  {
    var s := p.entries;
    var last := |s| - 1;
    if t < s[0].stop || t > s[last].stop {
      c := Black;
    } else if t == s[last].stop {
      c := s[last].color;
    } else {
      var index := 1;
      while t > s[index].stop
        invariant 1 <= index <= last
        invariant SearchFrom(s, t, index) == SearchFrom(s, t, 1)
        decreases last - index
      {
        index := index + 1;
      }
      c := Blend(t, s[index - 1], s[index]);
    }
  }

  /** Outside [first stop, last stop] the colour is black; at the last stop it is the last colour. */
  lemma ColorAtEnds(p: TablePalette, t: real)
    requires ValidPalette(p)
    ensures t < p.entries[0].stop ==> Color(p, t) == Black
    ensures t > p.entries[|p.entries| - 1].stop ==> Color(p, t) == Black
    ensures t == p.entries[|p.entries| - 1].stop ==> Color(p, t) == p.entries[|p.entries| - 1].color
  {
    assert p.entries[0].stop <= p.entries[|p.entries| - 1].stop;
  }

  /** Inside the table the search ends at the entry pair around t, without leaving the table. */
  lemma BracketFound(p: TablePalette, t: real)
    requires ValidPalette(p)
    requires p.entries[0].stop <= t < p.entries[|p.entries| - 1].stop
    ensures |p.entries| >= 2
    ensures var k := SearchFrom(p.entries, t, 1);
            1 <= k <= |p.entries| - 1
            && p.entries[k - 1].stop <= t <= p.entries[k].stop
            && Color(p, t) == Blend(t, p.entries[k - 1], p.entries[k])
  {
    var k := SearchFrom(p.entries, t, 1);
    if k > 1 {
      assert t > p.entries[k - 1].stop;
    }
  }

  /** Inside the table with distinct stops around t, each channel lies between the two neighbouring colours. */
  lemma ColorBetweenNeighbours(p: TablePalette, t: real)
    requires ValidPalette(p)
    requires p.entries[0].stop <= t < p.entries[|p.entries| - 1].stop
    ensures var k := SearchFrom(p.entries, t, 1);
            var c := Color(p, t);
            var l := p.entries[k - 1];
            var r := p.entries[k];
            l.stop < r.stop ==>
              Between(c.r, l.color.r, r.color.r)
              && Between(c.g, l.color.g, r.color.g)
              && Between(c.b, l.color.b, r.color.b)
  {
    BracketFound(p, t);
    var k := SearchFrom(p.entries, t, 1);
    if p.entries[k - 1].stop < p.entries[k].stop {
      BlendBetween(t, p.entries[k - 1], p.entries[k]);
    }
  }

  /** Two leading entries with the same stop t give black at t: the 0 / 0 of the local position. */
  lemma EqualLeadingStops(p: TablePalette)
    requires |p.entries| >= 2 && p.entries[0].stop == p.entries[1].stop
    requires p.entries[0].stop < p.entries[|p.entries| - 1].stop
    ensures Color(p, p.entries[0].stop) == Black
  {
    SearchFromUnique(p.entries, p.entries[0].stop, 1, 1);
  }

  /** With strictly increasing stops the palette takes each entry's colour at that entry's stop. */
  lemma PassesThroughStops(p: TablePalette, k: nat)
    requires |p.entries| > 0
    requires forall i, j :: 0 <= i < j < |p.entries| ==> p.entries[i].stop < p.entries[j].stop
    requires k < |p.entries|
    ensures Color(p, p.entries[k].stop) == p.entries[k].color
  {
    var s := p.entries;
    var t := s[k].stop;
    var last := |s| - 1;
    if k < last {
      assert t < s[last].stop;
      if k == 0 {
        SearchFromUnique(s, t, 1, 1);
        assert Blend(t, s[0], s[1]) == s[0].color;
      } else {
        SearchFromUnique(s, t, 1, k);
        assert Blend(t, s[k - 1], s[k]) == s[k].color;
      }
    }
  }

  // ----- Grayscale and Rainbow -------------------------------------------------------------------

  /** `Grayscale::evaluate`: the gray level t * 255 on [0, 1], black elsewhere. */
  function Grayscale(t: real): (c: Rgb)
    ensures 0.0 <= t <= 1.0 ==> c.r == c.g == c.b && c.r as int == (t * 255.0).Floor
    ensures !(0.0 <= t <= 1.0) ==> c == Black
  {
    if t >= 0.0 && t <= 1.0 then
      var v := AsU8(t * 255.0);
      Rgb(v, v, v)
    else Black
  }

  /** 0 is black, 1 is white, and the gray level rises with t. */
  lemma GrayscaleRamp(t1: real, t2: real)
    requires 0.0 <= t1 <= t2 <= 1.0
    ensures Grayscale(0.0) == Black && Grayscale(1.0) == Rgb(255, 255, 255)
    ensures Grayscale(t1).r <= Grayscale(t2).r
  {
    AsU8Monotone(t1 * 255.0, t2 * 255.0);
  }

  /** `Rainbow::evaluate`: five bands over [0, 1], each holding two channels fixed; black elsewhere. */
  function Rainbow(t: real): (c: Rgb)
    ensures t < 0.0 || t > 1.0 ==> c == Black
    ensures 0.0 <= t < 0.2 ==> c.r == 0 && c.b == 255
    ensures 0.2 <= t < 0.4 ==> c.r == 0 && c.g == 255
    ensures 0.4 <= t < 0.6 ==> c.g == 255 && c.b == 0
    ensures 0.6 <= t < 0.8 ==> c.r == 255 && c.b == 0
    ensures 0.8 <= t <= 1.0 ==> c.r == 255 && c.g == 0
  {
    if t < 0.0 then Black
    else if t < 0.2 then Rgb(0x00, AsU8(t * 1275.0), 0xFF)
    else if t < 0.4 then Rgb(0x00, 0xFF, AsU8((0.4 - t) * 1275.0))
    else if t < 0.6 then Rgb(AsU8((t - 0.4) * 1275.0), 0xFF, 0x00)
    else if t < 0.8 then Rgb(0xFF, AsU8((0.8 - t) * 1275.0), 0x00)
    else if t <= 1.0 then Rgb(0xFF, 0x00, AsU8((t - 0.8) * 1275.0))
    else Black
  }

  /** The band ends: blue, cyan, green, yellow, red, magenta. */
  lemma RainbowWaypoints()
    ensures Rainbow(0.0) == Rgb(0, 0, 255)
    ensures Rainbow(0.2) == Rgb(0, 255, 255)
    ensures Rainbow(0.4) == Rgb(0, 255, 0)
    ensures Rainbow(0.6) == Rgb(255, 255, 0)
    ensures Rainbow(0.8) == Rgb(255, 0, 0)
    ensures Rainbow(1.0) == Rgb(255, 0, 255)
  {
  }

  /** Within a band the varying channel moves one way: up in the first band, down in the second. */
  lemma RainbowBandDirection(t1: real, t2: real)
    requires t1 <= t2
    ensures 0.0 <= t1 && t2 < 0.2 ==> Rainbow(t1).g <= Rainbow(t2).g
    ensures 0.2 <= t1 && t2 < 0.4 ==> Rainbow(t1).b >= Rainbow(t2).b
  {
    AsU8Monotone(t1 * 1275.0, t2 * 1275.0);
    AsU8Monotone((0.4 - t2) * 1275.0, (0.4 - t1) * 1275.0);
  }
}
