/**
 * The image both dithering passes work on, the row-major layout of its
 * pixels, and the Floyd-Steinberg neighbours of a pixel with their share of
 * the quantisation error (7/16 right, 3/16 below-left, 5/16 below,
 * 1/16 below-right), each present only when it lies inside the image.
 */
module Raster {
  import opened TypedArrays
  import opened Luma

  /** A browser ImageData: width, height and the RGBA bytes, row by row. */
  datatype ImageData = ImageData(width: int, height: int, data: seq<int>)

  predicate AllBytes(s: seq<int>) {
    forall i :: 0 <= i < |s| ==> IsByte(s[i])
  }

  /**
   * What an ImageData guarantees: both dimensions positive (the constructor
   * rejects a zero area), four bytes per pixel, every byte in [0, 255].
   */
  predicate ValidImage(img: ImageData) {
    1 <= img.width && 1 <= img.height &&
    |img.data| == img.width * img.height * 4 &&
    AllBytes(img.data)
  }

  /** The four channels of pixel p, as `data.slice(4p, 4p + 4)` reads them. */
  function PixelAt(data: seq<int>, p: int): (px: Rgba)
    requires 0 <= p && 4 * p + 3 < |data|
    ensures AllBytes(data) ==> ValidRgba(px)
  {
    Rgba(data[4 * p], data[4 * p + 1], data[4 * p + 2], data[4 * p + 3])
  }

  /** Where a neighbour lies relative to the pixel being visited. */
  datatype Direction = Right | BelowLeft | Below | BelowRight

  /** The Floyd-Steinberg weight of a direction, in sixteenths. */
  function Weight(d: Direction): int {
    match d
    case Right => 7
    case BelowLeft => 3
    case Below => 5
    case BelowRight => 1
  }

  /** `err * weight / 16` for the direction's weight, as the source writes it. */
  function Portion(err: real, d: Direction): real {
    match d
    case Right => err * 7.0 / 16.0
    case BelowLeft => err * 3.0 / 16.0
    case Below => err * 5.0 / 16.0
    case BelowRight => err * 1.0 / 16.0
  }

  /** One neighbour of a pixel: its index and its direction. */
  datatype Share = Share(index: int, dir: Direction)

  /** The four directions, in the order the source visits them. */
  const Directions: seq<Direction> := [Right, BelowLeft, Below, BelowRight]

  /** The source's bounds guard for the neighbour of (x, y) in direction d. */
  predicate Inside(d: Direction, x: int, y: int, w: int, h: int) {
    match d
    case Right => x + 1 < w
    case BelowLeft => x - 1 >= 0 && y + 1 < h
    case Below => y + 1 < h
    case BelowRight => x + 1 < w && y + 1 < h
  }

  /** How far the neighbour in direction d lies after the pixel, in row-major order. */
  function Offset(d: Direction, w: int): int {
    match d
    case Right => 1
    case BelowLeft => w - 1
    case Below => w
    case BelowRight => w + 1
  }

  /**
   * The neighbours of (x, y) in the directions ds whose guard holds, in
   * order.
   */
  function NeighboursAlong(x: int, y: int, w: int, h: int, ds: seq<Direction>): (ns: seq<Share>)
    decreases |ds|
  {
    if ds == [] then []
    else
      var d := ds[|ds| - 1];
      NeighboursAlong(x, y, w, h, ds[..|ds| - 1]) +
      (if Inside(d, x, y, w, h) then [Share(y * w + x + Offset(d, w), d)] else [])
  }

  /** Looking in one more direction adds that neighbour last, when its guard holds. */
  lemma NeighboursAlongSnoc(x: int, y: int, w: int, h: int, ds: seq<Direction>, d: Direction)
    ensures NeighboursAlong(x, y, w, h, ds + [d]) == NeighboursAlong(x, y, w, h, ds) +
      (if Inside(d, x, y, w, h) then [Share(y * w + x + Offset(d, w), d)] else [])
  {
    assert (ds + [d])[..|ds|] == ds;
  }

  /** The neighbours in any directions lie after the pixel and, for a pixel of the image, inside it. */
  lemma {:induction false} NeighboursAlongInside(x: int, y: int, w: int, h: int, ds: seq<Direction>)
    requires 0 <= x < w && 0 <= y
    ensures 0 <= y * w + x
    ensures forall s :: s in NeighboursAlong(x, y, w, h, ds) ==> y * w + x < s.index
    ensures y < h ==> forall s :: s in NeighboursAlong(x, y, w, h, ds) ==> s.index < w * h
    decreases |ds|
  {
    MulMonotoneInt(0, y, w);
    if ds != [] {
      NeighboursAlongInside(x, y, w, h, ds[..|ds| - 1]);
      NeighboursInside(x, y, w, h);
    }
  }

  /** The neighbours pixel (x, y) diffuses its error into. */
  function Neighbours(x: int, y: int, w: int, h: int): seq<Share> {
    NeighboursAlong(x, y, w, h, Directions)
  }

  /**
   * Every neighbour lies strictly after the pixel in row-major order and,
   * for a pixel of the image, inside the image.
   */
  lemma NeighboursAfter(x: int, y: int, w: int, h: int)
    requires 0 <= x < w && 0 <= y
    ensures 0 <= y * w + x
    ensures forall s :: s in Neighbours(x, y, w, h) ==> y * w + x < s.index
    ensures y < h ==> forall s :: s in Neighbours(x, y, w, h) ==> s.index < w * h
  {
    NeighboursAlongInside(x, y, w, h, Directions);
  }

  /** The neighbours written out as the source's four guarded statements. */
  lemma NeighboursListed(x: int, y: int, w: int, h: int)
    requires 0 <= x < w && 0 <= y
    ensures var p := y * w + x;
      Neighbours(x, y, w, h) ==
        (if x + 1 < w then [Share(p + 1, Right)] else []) +
        (if x - 1 >= 0 && y + 1 < h then [Share(p + w - 1, BelowLeft)] else []) +
        (if y + 1 < h then [Share(p + w, Below)] else []) +
        (if x + 1 < w && y + 1 < h then [Share(p + w + 1, BelowRight)] else [])
  {
    var p := y * w + x;
    var d1, d2, d3, d4 := [Right], [Right, BelowLeft], [Right, BelowLeft, Below], Directions;
    assert d1[..0] == [] && d2[..1] == d1 && d3[..2] == d2 && d4[..3] == d3;
    assert NeighboursAlong(x, y, w, h, d1) ==
      (if x + 1 < w then [Share(p + 1, Right)] else []);
    assert NeighboursAlong(x, y, w, h, d2) == NeighboursAlong(x, y, w, h, d1) +
      (if x - 1 >= 0 && y + 1 < h then [Share(p + w - 1, BelowLeft)] else []);
    assert NeighboursAlong(x, y, w, h, d3) == NeighboursAlong(x, y, w, h, d2) +
      (if y + 1 < h then [Share(p + w, Below)] else []);
    assert NeighboursAlong(x, y, w, h, d4) == NeighboursAlong(x, y, w, h, d3) +
      (if x + 1 < w && y + 1 < h then [Share(p + w + 1, BelowRight)] else []);
  }

  /** The indices of the neighbours a pixel writes to. */
  function Indices(ns: seq<Share>): set<int> {
    set s | s in ns :: s.index
  }

  /** The sum of the weights, in sixteenths. */
  function TotalWeight(ns: seq<Share>): int {
    if ns == [] then 0 else TotalWeight(ns[..|ns| - 1]) + Weight(ns[|ns| - 1].dir)
  }

  /** The error a list of shares forwards in all, before any store converts it. */
  function Forwarded(ns: seq<Share>, err: real): real {
    if ns == [] then 0.0
    else Forwarded(ns[..|ns| - 1], err) + Portion(err, ns[|ns| - 1].dir)
  }

  /** Pixel (x, y) lies at least one column from both sides and above the last row. */
  predicate Interior(x: int, y: int, w: int, h: int) {
    x - 1 >= 0 && x + 1 < w && y + 1 < h
  }

  /**
   * The weights a pixel forwards sum to 16/16 exactly when it is interior
   * and to less at the border, whose out-of-bounds shares are dropped.
   */
  lemma NeighbourWeights(x: int, y: int, w: int, h: int)
    ensures 0 <= TotalWeight(Neighbours(x, y, w, h)) <= 16
    ensures TotalWeight(Neighbours(x, y, w, h)) == 16 <==> Interior(x, y, w, h)
  {
    var d1, d2, d3, d4 := [Right], [Right, BelowLeft], [Right, BelowLeft, Below], Directions;
    assert d1[..0] == [] && d2[..1] == d1 && d3[..2] == d2 && d4[..3] == d3;
    var n1, n2, n3, n4 := NeighboursAlong(x, y, w, h, d1), NeighboursAlong(x, y, w, h, d2),
      NeighboursAlong(x, y, w, h, d3), NeighboursAlong(x, y, w, h, d4);
    var p := y * w + x;
    var a := if Inside(Right, x, y, w, h) then [Share(p + 1, Right)] else [];
    var b := if Inside(BelowLeft, x, y, w, h) then [Share(p + w - 1, BelowLeft)] else [];
    var c := if Inside(Below, x, y, w, h) then [Share(p + w, Below)] else [];
    var d := if Inside(BelowRight, x, y, w, h) then [Share(p + w + 1, BelowRight)] else [];
    assert n1 == [] + a;
    assert n2 == n1 + b;
    assert n3 == n2 + c;
    assert n4 == n3 + d;
    WeightOfAppend([], a);
    WeightOfAppend(n1, b);
    WeightOfAppend(n2, c);
    WeightOfAppend(n3, d);
  }

  /**
   * The error a pixel forwards is the error times the fraction of its
   * weights that stay inside the image: all of it at an interior pixel.
   */
  lemma ErrorShares(x: int, y: int, w: int, h: int, err: real)
    ensures Forwarded(Neighbours(x, y, w, h), err) == err * TotalWeight(Neighbours(x, y, w, h)) as real / 16.0
    ensures Interior(x, y, w, h) ==> Forwarded(Neighbours(x, y, w, h), err) == err
  {
    ForwardedIsScaledWeight(Neighbours(x, y, w, h), err);
    NeighbourWeights(x, y, w, h);
  }

  lemma {:induction false} WeightOfAppend(s: seq<Share>, t: seq<Share>)
    requires |t| <= 1
    ensures TotalWeight(s + t) == TotalWeight(s) + TotalWeight(t)
  {
    if t != [] {
      assert (s + t)[..|s + t| - 1] == s;
      assert (s + t)[|s + t| - 1] == t[0];
      assert t[..0] == [];
      assert TotalWeight(t) == TotalWeight([]) + Weight(t[0].dir);
    } else {
      assert s + t == s;
    }
  }

  lemma {:induction false} ForwardedIsScaledWeight(ns: seq<Share>, err: real)
    ensures Forwarded(ns, err) == err * TotalWeight(ns) as real / 16.0
    decreases |ns|
  {
    if ns != [] {
      var init, last := ns[..|ns| - 1], ns[|ns| - 1];
      ForwardedIsScaledWeight(init, err);
      PortionIsWeighted(err, last.dir);
      assert err * TotalWeight(ns) as real == err * TotalWeight(init) as real + err * Weight(last.dir) as real;
    }
  }

  /** A direction's portion of the error is the error times its weight in sixteenths. */
  lemma PortionIsWeighted(err: real, d: Direction)
    ensures Portion(err, d) == err * Weight(d) as real / 16.0
  {
  }

  /** No neighbour is listed twice, so each one receives exactly one share. */
  lemma NeighboursDistinct(x: int, y: int, w: int, h: int)
    requires 0 <= x < w && 0 <= y
    ensures forall i, j :: 0 <= i < j < |Neighbours(x, y, w, h)| ==>
      Neighbours(x, y, w, h)[i].index != Neighbours(x, y, w, h)[j].index
  {
    NeighboursListed(x, y, w, h);
  }

  /** A 1x1 image diffuses nothing: its only pixel has no neighbours. */
  lemma SinglePixelHasNoNeighbours()
    ensures Neighbours(0, 0, 1, 1) == []
  {
    NeighboursListed(0, 0, 1, 1);
  }

  /** The neighbour a guard lets through is a pixel of the image. */
  lemma InsideInRange(d: Direction, x: int, y: int, w: int, h: int)
    requires 0 <= x < w && 0 <= y < h && Inside(d, x, y, w, h)
    ensures 0 <= y * w + x + Offset(d, w) < w * h
  {
    NeighboursInside(x, y, w, h);
    MulMonotoneInt(0, y, w);
  }

  lemma NeighboursInside(x: int, y: int, w: int, h: int)
    requires 0 <= x < w && 0 <= y
    ensures y + 1 < h ==> y * w + x + w < w * h
    ensures x + 1 < w && y + 1 < h ==> y * w + x + w + 1 < w * h
    ensures x + 1 < w && y < h ==> y * w + x + 1 < w * h
  {
    if y < h {
      MulMonotoneInt(y + 1, h, w);
    }
    if y + 1 < h {
      MulMonotoneInt(y + 2, h, w);
    }
  }

  lemma MulMonotoneInt(a: int, b: int, w: int)
    requires a <= b && 0 <= w
    ensures a * w <= b * w
  {
    assert b * w - a * w == (b - a) * w;
  }

  /** Pixel (x, y) has row-major index y*w + x, inside the image. */
  lemma RowMajor(x: int, y: int, w: int, h: int)
    requires 0 <= x < w && 0 <= y < h
    ensures 0 <= y * w + x < w * h
  {
    NeighboursInside(x, y, w, h);
    MulMonotoneInt(0, y, w);
  }

  /** Row-major order of positions is the order of their indices. */
  lemma RowMajorOrder(x1: int, y1: int, x2: int, y2: int, w: int)
    requires 0 <= x1 <= w && 0 <= x2 <= w && 0 <= y1
    requires y1 < y2 || (y1 == y2 && x1 <= x2)
    ensures y1 * w + x1 <= y2 * w + x2
  {
    if y1 < y2 {
      MulMonotoneInt(y1 + 1, y2, w);
    }
  }

  /** Row y + 1 starts where row y ends. */
  lemma NextRow(y: int, w: int)
    ensures (y + 1) * w == y * w + w
  {
  }

  /** A scan position (x, y), 0 <= x <= w: the pixels before y*w + x have been visited. */
  predicate Position(x: int, y: int, w: int, h: int) {
    0 <= x <= w && 0 <= y <= h && (y < h || x == 0)
  }

  /** The pixels before a scan position are pixels of the image. */
  lemma PositionIndex(x: int, y: int, w: int, h: int, n: int)
    requires Position(x, y, w, h) && n == w * h
    ensures 0 <= y * w + x <= n
  {
    RowMajorOrder(x, y, 0, h, w);
    MulMonotoneInt(0, y, w);
  }
}
