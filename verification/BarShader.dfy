/** CBarShader::FillRange: how much of each pixel a range of bytes covers, worked out in exact numbers,
    and what blending rounded bytes makes of it. */
module BarShader {
  import opened Words

  /** Where byte x of a file starts on a bar, in pixels. */
  function Position(x: nat, width: nat, size: nat): real
    requires size > 0
  {
    (x * width) as real / size as real
  }

  /** How much of pixel p lies left of a position. */
  function Left(x: real, p: nat): real {
    if x <= p as real then 0.0 else if x >= (p + 1) as real then 1.0 else x - p as real
  }

  /** How much of pixel p the bytes from a up to b cover. */
  function Weight(a: nat, b: nat, width: nat, size: nat, p: nat): real
    requires size > 0
  {
    Left(Position(b, width, size), p) - Left(Position(a, width, size), p)
  }

  /** Integer division finds the pixel a position lies in. */
  lemma PixelOfPosition(x: nat, width: nat, size: nat)
    requires size > 0
    ensures (x * width / size) as real <= Position(x, width, size) < (x * width / size + 1) as real
  {
    var n, q := x * width, x * width / size;
    assert q * size <= n < (q + 1) * size;
    DivideReal(n, q, size);
  }

  lemma MulKeepsOrder(x: real, y: real, s: real)
    requires s > 0.0
    ensures x <= y <==> x * s <= y * s
  {
    if x <= y {
      assert (y - x) * s >= 0.0;
    } else {
      assert (x - y) * s > 0.0;
    }
  }

  lemma ProductToReal(a: nat, b: nat)
    ensures (a * b) as real == a as real * b as real
  {
  }

  lemma QuotientTimes(n: nat, s: real)
    requires s > 0.0
    ensures (n as real / s) * s == n as real
  {
  }

  lemma DivideReal(n: nat, q: nat, size: nat)
    requires size > 0 && q * size <= n < (q + 1) * size
    ensures q as real <= n as real / size as real < (q + 1) as real
  {
    var s, low, high := size as real, q as real, (q + 1) as real;
    var r := n as real / s;
    ProductToReal(q, size);
    ProductToReal(q + 1, size);
    QuotientTimes(n, s);
    assert (q * size) as real <= n as real < ((q + 1) * size) as real;
    MulKeepsOrder(low, r, s);
    MulKeepsOrder(high, r, s);
  }

  lemma PositionIsMonotone(a: nat, b: nat, width: nat, size: nat)
    requires a < b && size > 0 && width > 0
    ensures Position(a, width, size) < Position(b, width, size)
  {
    var s := size as real;
    var pa, pb := Position(a, width, size), Position(b, width, size);
    assert pa * s == (a * width) as real && pb * s == (b * width) as real;
    assert a * width < b * width;
    MulKeepsOrder(pb, pa, s);
  }

  lemma Ends(width: nat, size: nat)
    requires size > 0
    ensures Position(0, width, size) == 0.0 && Position(size, width, size) == width as real
  {
    assert (size * width) as real == size as real * width as real;
  }

  /** The pixel of the first byte, and of the end of the range: the last one stands in at the right border. */
  function FirstPixel(start: nat, width: nat, size: nat): nat
    requires size > 0
  {
    start * width / size
  }

  function LastPixel(end: nat, width: nat, size: nat): int
    requires size > 0
  {
    if end * width / size == width then width - 1 else end * width / size
  }

  /** What FillRange computes for the first and the last pixel is their coverage; between them all is covered, outside nothing. */
  lemma CoverageIsWeight(start: nat, end: nat, width: nat, size: nat, p: nat)
    requires size > 0 && width > 0 && start < end <= size
    ensures 0 <= FirstPixel(start, width, size) <= LastPixel(end, width, size) < width
    ensures var first, last := FirstPixel(start, width, size), LastPixel(end, width, size);
            var firstCovered := (first + 1) as real - Position(start, width, size);
            var lastCovered := Position(end, width, size) - last as real;
            Weight(start, end, width, size, p) == Covered(p, first, last, firstCovered, lastCovered)
  {
    PixelOfPosition(start, width, size);
    PixelOfPosition(end, width, size);
    PositionIsMonotone(start, end, width, size);
    Ends(width, size);
    if end < size {
      PositionIsMonotone(end, size, width, size);
    }
    hide Position;
  }

  lemma WeightIsFraction(a: nat, b: nat, width: nat, size: nat, p: nat)
    requires size > 0 && width > 0 && a < b
    ensures 0.0 <= Weight(a, b, width, size, p) <= 1.0
  {
    PositionIsMonotone(a, b, width, size);
    hide Position;
  }

  // ---- filling ----------------------------------------------------------------------

  /** What a colour adds to a pixel of which it covers a part. */
  function Weighted(colour: real, covered: real): real {
    colour * covered
  }

  /** No more than white would add. */
  lemma WeightedBounds(colour: real, covered: real)
    requires 0.0 <= colour <= 255.0 && covered >= 0.0
    ensures 0.0 <= Weighted(colour, covered) <= 255.0 * covered
    ensures (covered == 0.0 ==> Weighted(colour, covered) == 0.0) && (covered == 1.0 ==> Weighted(colour, covered) == colour)
  {
    if covered == 0.0 {
      assert Weighted(colour, covered) == colour * 0.0 == 0.0;
    } else if covered == 1.0 {
      assert Weighted(colour, covered) == colour * 1.0 == colour;
    } else {
      MulKeepsOrder(colour, 255.0, covered);
      MulKeepsOrder(0.0, colour, covered);
    }
  }

  /** CMuleColour::BlendWith on one channel: rounds to a whole number and stops at 255. */
  function Blended(below: uint8, colour: uint8, covered: real): uint8
    requires covered >= 0.0
  {
    WeightedBounds(colour as real, covered);
    var mixed := (below as real + Weighted(colour as real, covered) + 0.5).Floor;
    if mixed < 255 then mixed else 255
  }

  /** One channel of the pixels after filling a range. */
  function Filled(content: seq<uint8>, size: nat, start: nat, end: nat, colour: uint8): (r: seq<uint8>)
    requires size > 0
    ensures |r| == |content|
  {
    if start >= end || start >= size then content
    else
      var width, stop := |content|, if end + 1 > size then size else end + 1;
      seq(width, p requires 0 <= p < width =>
        WeightIsFraction(start, stop, width, size, p);
        if FirstPixel(start, width, size) < p < LastPixel(stop, width, size) then colour
        else Blended(content[p], colour, Weight(start, stop, width, size, p)))
  }

  /** The part of a pixel that the code works out as covered. */
  function Covered(p: nat, first: nat, last: nat, firstCovered: real, lastCovered: real): real {
    if p < first || p > last then 0.0
    else if first < p < last then 1.0
    else if first == last then firstCovered + lastCovered - 1.0
    else if p == first then firstCovered
    else lastCovered
  }

  /** What is worked out for the first and the last pixel is not negative. */
  predicate Covers(first: nat, last: nat, firstCovered: real, lastCovered: real) {
    if first == last then firstCovered + lastCovered - 1.0 >= 0.0 else firstCovered >= 0.0 && lastCovered >= 0.0
  }

  /** The pixels after blending the first and the last and overwriting those between. */
  function Brushed(content: seq<uint8>, first: nat, last: nat, firstCovered: real, lastCovered: real, colour: uint8): seq<uint8>
    requires Covers(first, last, firstCovered, lastCovered)
  {
    seq(|content|, p requires 0 <= p < |content| =>
      if first < p < last then colour else Blended(content[p], colour, Covered(p, first, last, firstCovered, lastCovered)))
  }

  lemma BrushedIsFilled(content: seq<uint8>, size: nat, start: nat, end: nat, colour: uint8)
    requires size > 0 && |content| > 0 && start < end && start < size
    ensures var width, stop := |content|, if end + 1 > size then size else end + 1;
            var first, last := FirstPixel(start, width, size), LastPixel(stop, width, size);
            var firstCovered := (first + 1) as real - Position(start, width, size);
            last >= 0
            && Covers(first, last, firstCovered, Position(stop, width, size) - last as real)
            && Brushed(content, first, last, firstCovered, Position(stop, width, size) - last as real, colour)
               == Filled(content, size, start, end, colour)
  {
    var width, stop := |content|, if end + 1 > size then size else end + 1;
    CoverageIsWeight(start, stop, width, size, 0);
    var first, last := FirstPixel(start, width, size), LastPixel(stop, width, size);
    var firstCovered := (first + 1) as real - Position(start, width, size);
    var lastCovered := Position(stop, width, size) - last as real;
    forall p | 0 <= p < width
      ensures Covered(p, first, last, firstCovered, lastCovered) == Weight(start, stop, width, size, p)
    {
      CoverageIsWeight(start, stop, width, size, p);
    }
    WeightIsFraction(start, stop, width, size, first);
    WeightIsFraction(start, stop, width, size, last);
    assert Covered(first, first, last, firstCovered, lastCovered) >= 0.0;
    assert Covered(last, first, last, firstCovered, lastCovered) >= 0.0;
    forall p | 0 <= p < width
      ensures Weight(start, stop, width, size, p) >= 0.0
    {
      WeightIsFraction(start, stop, width, size, p);
    }
    assert Filled(content, size, start, end, colour) == seq(width, p requires 0 <= p < width =>
      if first < p < last then colour else Blended(content[p], colour, Weight(start, stop, width, size, p)));
    hide Covered, Weight, Position, FirstPixel, LastPixel, Blended;
  }

  class BarShader {
    var width: nat
    var fileSize: nat
    var content: array<uint8>

    ghost predicate Valid()
      reads this
    {
      width > 0 && fileSize > 0 && content.Length == width
    }

    constructor (width: nat)
      requires width > 0
      ensures Valid() && this.width == width && fileSize == 1 && fresh(content)
      ensures content[..] == seq(width, _ => 0)
    {
      this.width, fileSize := width, 1;
      content := new uint8[width](_ => 0);
    }

    method BlendWith(p: nat, colour: uint8, covered: real)
      requires p < content.Length && covered >= 0.0
      modifies content
      ensures content[..] == old(content[..])[p := Blended(old(content[p]), colour, covered)]
    {
      content[p] := Blended(content[p], colour, covered);
    }

    method FillBetween(first: nat, last: nat, colour: uint8)
      requires first <= last <= content.Length
      modifies content
      ensures forall j :: 0 <= j < content.Length ==> content[j] == if first <= j < last then colour else old(content[j])
    {
      for i := first to last
        invariant forall j :: 0 <= j < content.Length ==> content[j] == if first <= j < i then colour else old(content[j])
      {
        content[i] := colour;
      }
    }

    method Brush(firstPixel: nat, lastPixel: nat, firstCovered: real, lastCovered: real, colour: uint8)
      requires firstPixel <= lastPixel < content.Length && Covers(firstPixel, lastPixel, firstCovered, lastCovered)
      modifies content
      ensures content[..] == Brushed(old(content[..]), firstPixel, lastPixel, firstCovered, lastCovered, colour)
    {
      ghost var after := Brushed(content[..], firstPixel, lastPixel, firstCovered, lastCovered, colour);
      if firstPixel == lastPixel {
        BlendWith(firstPixel, colour, firstCovered + lastCovered - 1.0);
      } else {
        BlendWith(firstPixel, colour, firstCovered);
        BlendWith(lastPixel, colour, lastCovered);
        FillBetween(firstPixel + 1, lastPixel, colour);
      }
      assert forall p :: 0 <= p < content.Length ==> content[p] == after[p];
    }

    /** The first and the last pixel of a range, and how much of them is covered. */
    method Extent(start: nat, stop: nat)
      returns (firstPixel: nat, lastPixel: nat, firstCovered: real, lastCovered: real)
      requires Valid() && start < stop <= fileSize
      ensures firstPixel == FirstPixel(start, width, fileSize) && lastPixel == LastPixel(stop, width, fileSize)
      ensures firstPixel <= lastPixel < width
      ensures firstCovered == (firstPixel + 1) as real - Position(start, width, fileSize)
      ensures lastCovered == Position(stop, width, fileSize) - lastPixel as real
    {
      CoverageIsWeight(start, stop, width, fileSize, 0);
      firstPixel := start * width / fileSize;
      assert firstPixel == FirstPixel(start, width, fileSize);
      var border := stop * width / fileSize;
      assert LastPixel(stop, width, fileSize) == if border == width then width - 1 else border;
      lastPixel := if border == width then width - 1 else border;
      hide *;
      firstCovered := (firstPixel + 1) as real - Position(start, width, fileSize);
      lastCovered := Position(stop, width, fileSize) - lastPixel as real;
    }

    /** Every pixel written lies on the bar. */
    method FillRange(start: nat, end: nat, colour: uint8)
      requires Valid()
      modifies content
      ensures content[..] == Filled(old(content[..]), fileSize, start, end, colour)
    {
      if start >= end || start >= fileSize {
        return;
      }
      var stop := if end + 1 > fileSize then fileSize else end + 1;
      hide *;
      var firstPixel, lastPixel, firstCovered, lastCovered := Extent(start, stop);
      BrushedIsFilled(content[..], fileSize, start, end, colour);
      Brush(firstPixel, lastPixel, firstCovered, lastCovered, colour);
    }
  }

  // ---- a file filled range by range ---------------------------------------------------

  /** Consecutive ranges that make up the file: range k holds the bytes from border k up to the next. */
  ghost predicate IsSplit(b: seq<nat>, size: nat) {
    && |b| >= 2 && b[0] == 0 && b[|b| - 1] == size > 0
    && forall j, k :: 0 <= j < k < |b| ==> b[j] < b[k]
  }

  /** FillRange ignores a range of a single byte, whose start and end are the same. */
  predicate Ignored(b: seq<nat>, k: nat)
    requires k + 1 < |b|
  {
    b[k + 1] <= b[k] + 1
  }

  function Share(b: seq<nat>, k: nat, width: nat, size: nat, p: nat): real
    requires k + 1 < |b| && size > 0
  {
    if Ignored(b, k) then 0.0 else Weight(b[k], b[k + 1], width, size, p)
  }

  /** The weights a pixel gets from the first n ranges. */
  ghost function Total(b: seq<nat>, n: nat, width: nat, size: nat, p: nat): real
    requires n < |b| && size > 0
  {
    if n == 0 then 0.0 else Total(b, n - 1, width, size, p) + Share(b, n - 1, width, size, p)
  }

  ghost predicate AnyIgnored(b: seq<nat>, n: nat)
    requires n < |b|
  {
    exists k :: 0 <= k < n && Ignored(b, k)
  }

  /** The total stays below what the ranges span exactly when an ignored range touched the pixel. */
  lemma {:induction false} TotalIsSpan(b: seq<nat>, n: nat, width: nat, size: nat, p: nat)
    requires IsSplit(b, size) && width > 0 && n < |b|
    ensures Total(b, n, width, size, p) <= Left(Position(b[n], width, size), p)
    ensures !AnyIgnored(b, n) ==> Total(b, n, width, size, p) == Left(Position(b[n], width, size), p)
    ensures forall k :: 0 <= k < n && Ignored(b, k) && Weight(b[k], b[k + 1], width, size, p) > 0.0 ==>
      Total(b, n, width, size, p) < Left(Position(b[n], width, size), p)
  {
    if n == 0 {
      Ends(width, size);
    } else {
      TotalIsSpan(b, n - 1, width, size, p);
      WeightIsFraction(b[n - 1], b[n], width, size, p);
      if !AnyIgnored(b, n) {
        assert !Ignored(b, n - 1);
        assert !AnyIgnored(b, n - 1);
      }
      hide Left, Position;
    }
  }

  /** A byte covers part of the pixel it starts in. */
  lemma ByteIsSomewhere(a: nat, width: nat, size: nat)
    requires width > 0 && a < size
    ensures FirstPixel(a, width, size) < width
    ensures Weight(a, a + 1, width, size, FirstPixel(a, width, size)) > 0.0
  {
    CoverageIsWeight(a, a + 1, width, size, 0);
    PixelOfPosition(a, width, size);
    PositionIsMonotone(a, a + 1, width, size);
    hide Position;
  }

  ghost predicate EveryPixelCovered(b: seq<nat>, n: nat, width: nat, size: nat)
    requires n < |b| && size > 0
  {
    forall p :: 0 <= p < width ==> Total(b, n, width, size, p) == 1.0
  }

  /** The weights of every pixel sum to exactly 1 if and only if no range is a single byte. */
  lemma PixelsAreCovered(b: seq<nat>, width: nat, size: nat)
    requires IsSplit(b, size) && width > 0
    ensures EveryPixelCovered(b, |b| - 1, width, size) <==> !AnyIgnored(b, |b| - 1)
  {
    var n := |b| - 1;
    Ends(width, size);
    forall p | 0 <= p < width
      ensures Left(Position(b[n], width, size), p) == 1.0
      ensures Total(b, n, width, size, p) == 1.0 || AnyIgnored(b, n)
    {
      TotalIsSpan(b, n, width, size, p);
    }
    if AnyIgnored(b, n) {
      var k :| 0 <= k < n && Ignored(b, k);
      assert b[k + 1] == b[k] + 1;
      var p := FirstPixel(b[k], width, size);
      ByteIsSomewhere(b[k], width, size);
      TotalIsSpan(b, n, width, size, p);
      hide Total, Position, Left, Weight;
      assert Total(b, n, width, size, p) < 1.0;
    }
  }

  /** Filling the first n ranges one after the other. */
  ghost function Painted(content: seq<uint8>, size: nat, b: seq<nat>, colours: seq<uint8>, n: nat): (r: seq<uint8>)
    requires size > 0 && n < |b| == |colours| + 1 && forall k :: 0 < k < |b| ==> b[k] > 0
    ensures |r| == |content|
  {
    if n == 0 then content
    else Filled(Painted(content, size, b, colours, n - 1), size, b[n - 1], b[n] - 1, colours[n - 1])
  }

  /** The mean of the colours, weighted by coverage. */
  ghost function Mean(b: seq<nat>, colours: seq<uint8>, n: nat, width: nat, size: nat, p: nat): real
    requires n < |b| == |colours| + 1 && size > 0
  {
    if n == 0 then 0.0
    else Mean(b, colours, n - 1, width, size, p) + Weighted(colours[n - 1] as real, Share(b, n - 1, width, size, p))
  }

  /** How many of the first n ranges touch a pixel. */
  ghost function Touching(b: seq<nat>, n: nat, width: nat, size: nat, p: nat): nat
    requires n < |b| && size > 0
  {
    if n == 0 then 0 else Touching(b, n - 1, width, size, p) + if Share(b, n - 1, width, size, p) == 0.0 then 0 else 1
  }

  /** A mean of bytes is no more than a byte. */
  lemma {:induction false} MeanIsByte(b: seq<nat>, colours: seq<uint8>, n: nat, width: nat, size: nat, p: nat)
    requires IsSplit(b, size) && width > 0 && n < |b| == |colours| + 1
    ensures Mean(b, colours, n, width, size, p) <= 255.0 * Total(b, n, width, size, p) <= 255.0
  {
    TotalIsSpan(b, n, width, size, p);
    if n > 0 {
      MeanIsByte(b, colours, n - 1, width, size, p);
      WeightIsFraction(b[n - 1], b[n], width, size, p);
      hide Weight, Left, Position, Weighted;
      WeightedBounds(colours[n - 1] as real, Share(b, n - 1, width, size, p));
    }
  }

  /** One blending adds at most half a step to the distance from the exact value, and clipping nothing. */
  lemma BlendingRounds(below: uint8, colour: uint8, share: real, mean: real, error: real)
    requires share >= 0.0 && mean + Weighted(colour as real, share) <= 255.0
    requires -error <= below as real - mean <= error
    ensures share == 0.0 ==> Blended(below, colour, share) == below
    ensures -error - 0.5 <= Blended(below, colour, share) as real - (mean + Weighted(colour as real, share)) <= error + 0.5
  {
    hide Weighted;
    var part := Weighted(colour as real, share);
    WeightedBounds(colour as real, share);
    var mixed := (below as real + part + 0.5).Floor;
    assert mixed as real <= below as real + part + 0.5 < mixed as real + 1.0;
  }

  /** Beyond the pixel where range n starts, nothing was painted before. */
  lemma {:induction false} NothingBeyond(b: seq<nat>, colours: seq<uint8>, n: nat, m: nat, width: nat, size: nat, p: nat)
    requires IsSplit(b, size) && width > 0 && n <= m < |b| == |colours| + 1
    requires FirstPixel(b[m], width, size) < p
    ensures Mean(b, colours, n, width, size, p) == 0.0
  {
    if n > 0 {
      NothingBeyond(b, colours, n - 1, m, width, size, p);
      PixelOfPosition(b[m], width, size);
      PositionIsMonotone(b[n - 1], b[n], width, size);
      if n < m {
        PositionIsMonotone(b[n], b[m], width, size);
      }
      hide Position;
      assert Share(b, n - 1, width, size, p) == 0.0;
    }
  }

  ghost predicate Near(x: uint8, mean: real, steps: nat) {
    -(steps as real) * 0.5 <= x as real - mean <= steps as real * 0.5
  }

  /** One range more. */
  lemma FillingIsNear(below: seq<uint8>, size: nat, b: seq<nat>, colours: seq<uint8>, n: nat, p: nat)
    requires IsSplit(b, size) && 0 < n < |b| == |colours| + 1 && p < |below| && !Ignored(b, n - 1)
    requires Near(below[p], Mean(b, colours, n - 1, |below|, size, p), Touching(b, n - 1, |below|, size, p))
    ensures Near(Filled(below, size, b[n - 1], b[n] - 1, colours[n - 1])[p], Mean(b, colours, n, |below|, size, p),
                 Touching(b, n, |below|, size, p))
  {
    var width := |below|;
    var colour, share := colours[n - 1], Share(b, n - 1, width, size, p);
    var first, last := FirstPixel(b[n - 1], width, size), LastPixel(b[n], width, size);
    var mean := Mean(b, colours, n - 1, width, size, p);
    WeightIsFraction(b[n - 1], b[n], width, size, p);
    WeightedBounds(colour as real, share);
    MeanIsByte(b, colours, n, width, size, p);
    assert Filled(below, size, b[n - 1], b[n] - 1, colour)[p]
        == if first < p < last then colour else Blended(below[p], colour, share);
    if first < p < last {
      CoverageIsWeight(b[n - 1], b[n], width, size, p);
      NothingBeyond(b, colours, n - 1, n - 1, width, size, p);
      hide *;
      assert share == 1.0 && mean == 0.0;
    } else {
      hide Weight, FirstPixel, LastPixel, Total, Weighted, Position, Blended, Filled, Mean;
      BlendingRounds(below[p], colour, share, mean, Touching(b, n - 1, width, size, p) as real * 0.5);
    }
  }

  /** A black bar filled range by range holds, in every pixel, the coverage-weighted mean of the colours,
      up to half a step for each range that touches the pixel; inner pixels are overwritten and exact. */
  lemma {:induction false} PaintedIsMean(content: seq<uint8>, size: nat, b: seq<nat>, colours: seq<uint8>, n: nat, p: nat)
    requires IsSplit(b, size) && n < |b| == |colours| + 1 && p < |content|
    requires forall i :: 0 <= i < |content| ==> content[i] == 0
    ensures Near(Painted(content, size, b, colours, n)[p], Mean(b, colours, n, |content|, size, p),
                 Touching(b, n, |content|, size, p))
  {
    if n > 0 {
      PaintedIsMean(content, size, b, colours, n - 1, p);
      if !Ignored(b, n - 1) {
        var below := Painted(content, size, b, colours, n - 1);
        FillingIsNear(below, size, b, colours, n, p);
      }
    }
  }
}
