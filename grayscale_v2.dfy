/**
 * fsdGrayscale_v2: Floyd-Steinberg dithering in place on a copy of the RGBA
 * data (a `Uint8ClampedArray`). Each visited pixel is replaced by its
 * quantised luma as an opaque grey pixel; each neighbour is replaced by a
 * grey pixel whose level is the neighbour's own luma plus its share of the
 * (real-valued) error, keeping the neighbour's alpha. Every store goes
 * through ToUint8Clamp, so values are clamped to [0, 255] and rounded.
 *
 * The specification works on the pixels of the buffer; the method works on
 * its bytes, and Pixels and Bytes translate between the two.
 */
module GrayscaleV2 {
  import opened TypedArrays
  import opened Luma
  import opened Quantizer
  import opened Raster

  // ---------------------------------------------------------------------
  // Bytes and pixels

  /** The pixels of an RGBA buffer, four bytes each. */
  function Pixels(data: seq<int>): (px: seq<Rgba>)
    requires |data| % 4 == 0
    ensures 4 * |px| == |data|
    ensures forall p :: 0 <= p < |px| ==> px[p] == PixelAt(data, p)
  {
    seq(|data| / 4, p requires 0 <= p < |data| / 4 => PixelAt(data, p))
  }

  /** Channel k of a pixel, in R, G, B, A order. */
  function Channel(px: Rgba, k: int): int {
    if k == 0 then px.r else if k == 1 then px.g else if k == 2 then px.b else px.a
  }

  /** The RGBA bytes of a sequence of pixels. */
  function Bytes(px: seq<Rgba>): (data: seq<int>)
    ensures |data| == 4 * |px|
    ensures forall j :: 0 <= j < |data| ==> data[j] == Channel(px[j / 4], j % 4)
  {
    seq(4 * |px|, j requires 0 <= j < 4 * |px| => Channel(px[j / 4], j % 4))
  }

  /** Reading the pixels back out of their bytes gives the same pixels. */
  lemma PixelsOfBytes(px: seq<Rgba>)
    ensures Pixels(Bytes(px)) == px
  {
    forall p | 0 <= p < |px|
      ensures PixelAt(Bytes(px), p) == px[p]
    {
      BytesPixel(px, p);
    }
  }

  lemma BytesPixel(px: seq<Rgba>, p: int)
    requires 0 <= p < |px|
    ensures PixelAt(Bytes(px), p) == px[p]
  {
    var data := Bytes(px);
    FourBytes(p, 0);
    FourBytes(p, 1);
    FourBytes(p, 2);
    FourBytes(p, 3);
    assert data[4 * p] == px[p].r && data[4 * p + 1] == px[p].g;
    assert data[4 * p + 2] == px[p].b && data[4 * p + 3] == px[p].a;
  }

  lemma FourBytes(p: int, k: int)
    requires 0 <= k < 4
    ensures (4 * p + k) / 4 == p && (4 * p + k) % 4 == k
  {
  }

  /** Writing the pixels of a buffer back out as bytes gives the same buffer. */
  lemma BytesOfPixels(data: seq<int>)
    requires |data| % 4 == 0
    ensures Bytes(Pixels(data)) == data
  {
    var px := Pixels(data);
    forall j | 0 <= j < |data|
      ensures Bytes(px)[j] == data[j]
    {
      var p, k := j / 4, j % 4;
      assert j == 4 * p + k;
    }
  }

  predicate AllValid(px: seq<Rgba>) {
    forall p :: 0 <= p < |px| ==> ValidRgba(px[p])
  }

  /** The bytes of valid pixels are bytes. */
  lemma BytesValid(px: seq<Rgba>)
    requires AllValid(px)
    ensures AllBytes(Bytes(px))
  {
    forall j | 0 <= j < |Bytes(px)|
      ensures IsByte(Bytes(px)[j])
    {
      assert ValidRgba(px[j / 4]);
    }
  }

  /** The pixels of a byte buffer are valid pixels. */
  lemma PixelsValid(data: seq<int>)
    requires |data| % 4 == 0 && AllBytes(data)
    ensures AllValid(Pixels(data))
  {
  }

  // ---------------------------------------------------------------------
  // One pixel's visit

  /** The pixel `pixels.set([v, v, v, alpha], i)` stores into a Uint8ClampedArray. */
  function Grey(v: real, alpha: int): (px: Rgba)
    ensures ValidRgba(px)
    ensures px.r == ToUint8Clamp(v) && px.g == px.r && px.b == px.r
    ensures 0.0 <= v <= 255.0 ==> -0.5 <= px.r as real - v <= 0.5
    ensures IsByte(alpha) ==> px.a == alpha
  {
    StoresKeepBytes(if IsByte(alpha) then alpha else 0);
    var c := ToUint8Clamp(v);
    Rgba(c, c, c, ToUint8Clamp(alpha as real))
  }

  /** An opaque grey pixel whose grey is a level of the bit depth. */
  ghost predicate GreyLevel(px: Rgba, bits: int)
    requires 1 <= bits <= 8
  {
    px.g == px.r && px.b == px.r && px.a == 255 && IsLevel(px.r, bits)
  }

  /**
   * What a neighbour px in direction d becomes: grey at its own luma plus
   * its portion of the error, with its own alpha.
   */
  function Shared(px: Rgba, err: real, d: Direction): (r: Rgba)
    ensures ValidRgba(r) && r.g == r.r && r.b == r.r
    ensures ValidRgba(px) ==> r.a == px.a
  {
    Grey(LumaByRgba(px) + Portion(err, d), px.a)
  }

  /** One guarded neighbour update. */
  function AddShare(buf: seq<Rgba>, s: Share, err: real): (r: seq<Rgba>)
    requires 0 <= s.index < |buf|
    ensures |r| == |buf|
  {
    buf[s.index := Shared(buf[s.index], err, s.dir)]
  }

  /** The guarded neighbour updates of one pixel, applied in order. */
  function Spread(buf: seq<Rgba>, ns: seq<Share>, err: real): (r: seq<Rgba>)
    requires forall s :: s in ns ==> 0 <= s.index < |buf|
    ensures |r| == |buf|
    decreases |ns|
  {
    if ns == [] then buf
    else AddShare(Spread(buf, ns[..|ns| - 1], err), ns[|ns| - 1], err)
  }

  /**
   * Spreading changes only the listed pixels, keeps pixels valid and
   * changes no alpha.
   */
  lemma {:induction false} SpreadFrame(buf: seq<Rgba>, ns: seq<Share>, err: real)
    requires forall s :: s in ns ==> 0 <= s.index < |buf|
    ensures forall i :: 0 <= i < |buf| && i !in Indices(ns) ==> Spread(buf, ns, err)[i] == buf[i]
    ensures AllValid(buf) ==> AllValid(Spread(buf, ns, err))
    ensures AllValid(buf) ==> forall i :: 0 <= i < |buf| ==> Spread(buf, ns, err)[i].a == buf[i].a
    decreases |ns|
  {
    if ns != [] {
      var init, last := ns[..|ns| - 1], ns[|ns| - 1];
      assert Indices(ns) == Indices(init) + {last.index};
      SpreadFrame(buf, init, err);
    }
  }

  /**
   * Looking in one more direction d applies that neighbour's update last,
   * when the source's guard for d holds, and changes nothing otherwise.
   */
  lemma SpreadAlongSnoc(buf: seq<Rgba>, x: int, y: int, w: int, h: int, ds: seq<Direction>, d: Direction, err: real)
    requires 0 <= x < w && 0 <= y < h && |buf| == w * h
    ensures (NeighboursAlongInside(x, y, w, h, ds + [d]);
      Spread(buf, NeighboursAlong(x, y, w, h, ds + [d]), err) ==
        if Inside(d, x, y, w, h) then AddShare(Spread(buf, NeighboursAlong(x, y, w, h, ds), err), Share(y * w + x + Offset(d, w), d), err)
        else Spread(buf, NeighboursAlong(x, y, w, h, ds), err))
  {
    NeighboursAlongInside(x, y, w, h, ds + [d]);
    NeighboursAlongInside(x, y, w, h, ds);
    NeighboursAlongSnoc(x, y, w, h, ds, d);
    var ns := NeighboursAlong(x, y, w, h, ds);
    if Inside(d, x, y, w, h) {
      var s := Share(y * w + x + Offset(d, w), d);
      assert (ns + [s])[..|ns|] == ns;
    } else {
      assert ns + [] == ns;
    }
  }

  /** The grey findClosestLuma picks for a pixel: its luma, quantised. */
  function Quantised(px: Rgba, bits: int): (g: int)
    requires 1 <= bits <= 8
    ensures ValidRgba(px) ==> IsByte(g) && IsLevel(g, bits)
  {
    FindClosestLuma(LumaByRgba(px), bits)
  }

  /** The quantisation error of a pixel: its luma minus the grey picked for it. */
  function QuantError(px: Rgba, bits: int): (e: real)
    requires 1 <= bits <= 8
    ensures -(Scale(bits) + 1.0) / 2.0 <= e < (Scale(bits) + 1.0) / 2.0
  {
    LumaByRgba(px) - Quantised(px, bits) as real
  }

  /**
   * Visiting pixel (x, y), index p = y*w + x: it becomes the opaque grey of
   * its quantised luma, and its neighbours receive the error. Nothing before
   * p changes; after p only neighbours change, and no alpha does.
   */
  function Step(buf: seq<Rgba>, w: int, h: int, bits: int, x: int, y: int): (r: seq<Rgba>)
    requires AllValid(buf) && 1 <= bits <= 8
    requires 0 <= x < w && 0 <= y < h && |buf| == w * h
    ensures |r| == |buf| && AllValid(r)
    ensures (RowMajor(x, y, w, h);
      var g := Quantised(buf[y * w + x], bits);
      r[y * w + x] == Rgba(g, g, g, 255))
    ensures forall i :: 0 <= i < y * w + x ==> r[i] == buf[i]
    ensures forall i :: y * w + x < i < |buf| && i !in Indices(Neighbours(x, y, w, h)) ==> r[i] == buf[i]
    ensures forall i :: y * w + x < i < |buf| ==> r[i].a == buf[i].a
  {
    RowMajor(x, y, w, h);
    NeighboursAfter(x, y, w, h);
    var p := y * w + x;
    var g := Quantised(buf[p], bits);
    assert IsByte(g);
    StoresKeepBytes(g);
    var painted := buf[p := Grey(g as real, 255)];
    SpreadFrame(painted, Neighbours(x, y, w, h), QuantError(buf[p], bits));
    Spread(painted, Neighbours(x, y, w, h), QuantError(buf[p], bits))
  }

  /** The visited pixel's grey is a level of the bit depth. */
  lemma StepGreyLevel(buf: seq<Rgba>, w: int, h: int, bits: int, x: int, y: int)
    requires AllValid(buf) && 1 <= bits <= 8
    requires 0 <= x < w && 0 <= y < h && |buf| == w * h
    ensures (RowMajor(x, y, w, h); GreyLevel(Step(buf, w, h, bits, x, y)[y * w + x], bits))
  {
    RowMajor(x, y, w, h);
    var g := Quantised(buf[y * w + x], bits);
    assert IsLevel(g, bits);
  }

  /**
   * Visiting pixel (x, y) stores into each neighbour the grey of its own
   * luma plus its portion of the error, keeping the neighbour's alpha.
   */
  lemma StepAddsShares(buf: seq<Rgba>, w: int, h: int, bits: int, x: int, y: int)
    requires AllValid(buf) && 1 <= bits <= 8
    requires 0 <= x < w && 0 <= y < h && |buf| == w * h
    ensures (RowMajor(x, y, w, h); NeighboursAfter(x, y, w, h);
      var err := QuantError(buf[y * w + x], bits);
      var ns := Neighbours(x, y, w, h);
      forall j :: 0 <= j < |ns| ==>
        Step(buf, w, h, bits, x, y)[ns[j].index] == Shared(buf[ns[j].index], err, ns[j].dir))
  {
    RowMajor(x, y, w, h);
    NeighboursAfter(x, y, w, h);
    NeighboursDistinct(x, y, w, h);
    var p := y * w + x;
    var err := QuantError(buf[p], bits);
    var painted := buf[p := Grey(Quantised(buf[p], bits) as real, 255)];
    var ns := Neighbours(x, y, w, h);
    var r := Step(buf, w, h, bits, x, y);
    assert r == Spread(painted, ns, err);
    SpreadEach(painted, ns, err);
    forall j | 0 <= j < |ns|
      ensures r[ns[j].index] == Shared(buf[ns[j].index], err, ns[j].dir)
    {
      assert ns[j] in ns;
      assert painted[ns[j].index] == buf[ns[j].index];
    }
  }

  /** With distinct indices, each share's update is the one that sticks. */
  lemma SpreadEach(buf: seq<Rgba>, ns: seq<Share>, err: real)
    requires forall s :: s in ns ==> 0 <= s.index < |buf|
    requires forall a, b :: 0 <= a < b < |ns| ==> ns[a].index != ns[b].index
    ensures forall j :: 0 <= j < |ns| ==>
      Spread(buf, ns, err)[ns[j].index] == Shared(buf[ns[j].index], err, ns[j].dir)
  {
    forall j | 0 <= j < |ns|
      ensures Spread(buf, ns, err)[ns[j].index] == Shared(buf[ns[j].index], err, ns[j].dir)
    {
      SpreadAt(buf, ns, err, j);
    }
  }

  lemma {:induction false} SpreadAt(buf: seq<Rgba>, ns: seq<Share>, err: real, j: int)
    requires forall s :: s in ns ==> 0 <= s.index < |buf|
    requires forall a, b :: 0 <= a < b < |ns| ==> ns[a].index != ns[b].index
    requires 0 <= j < |ns|
    ensures Spread(buf, ns, err)[ns[j].index] == Shared(buf[ns[j].index], err, ns[j].dir)
    decreases |ns|
  {
    var init := ns[..|ns| - 1];
    if j == |ns| - 1 {
      assert ns[j].index !in Indices(init);
      SpreadFrame(buf, init, err);
    } else {
      SpreadAt(buf, init, err, j);
    }
  }

  // ---------------------------------------------------------------------
  // The scan

  /**
   * The pixels once the scan has visited every pixel before (x, y); the end
   * of row y is the start of row y + 1.
   */
  function Diffused(buf: seq<Rgba>, w: int, h: int, bits: int, x: int, y: int): (r: seq<Rgba>)
    requires AllValid(buf) && 1 <= bits <= 8
    requires 1 <= w && |buf| == w * h && Position(x, y, w, h)
    ensures |r| == |buf| && AllValid(r)
    decreases y, x, 0
  {
    if x > 0 then Visited(buf, w, h, bits, x - 1, y)
    else if y > 0 then Diffused(buf, w, h, bits, w, y - 1)
    else buf
  }

  /**
   * The pixels right after the scan has visited (x, y): every earlier pixel
   * is as the scan left it.
   */
  function Visited(buf: seq<Rgba>, w: int, h: int, bits: int, x: int, y: int): (r: seq<Rgba>)
    requires AllValid(buf) && 1 <= bits <= 8
    requires 0 <= x < w && 0 <= y < h && |buf| == w * h
    ensures |r| == |buf| && AllValid(r)
    ensures (RowMajor(x, y, w, h);
      forall i :: 0 <= i < y * w + x ==> r[i] == Diffused(buf, w, h, bits, x, y)[i])
    decreases y, x, 1
  {
    Step(Diffused(buf, w, h, bits, x, y), w, h, bits, x, y)
  }

  /** The pixels visited before (x1, y1) keep their value up to any later position (x2, y2). */
  lemma {:induction false} FinalisedStays(buf: seq<Rgba>, w: int, h: int, bits: int, x1: int, y1: int, x2: int, y2: int)
    requires AllValid(buf) && 1 <= bits <= 8 && 1 <= w && |buf| == w * h
    requires Position(x1, y1, w, h) && Position(x2, y2, w, h)
    requires y1 < y2 || (y1 == y2 && x1 <= x2)
    ensures (PositionIndex(x1, y1, w, h, |buf|);
      forall i :: 0 <= i < y1 * w + x1 ==>
        Diffused(buf, w, h, bits, x2, y2)[i] == Diffused(buf, w, h, bits, x1, y1)[i])
    decreases y2, x2
  {
    PositionIndex(x1, y1, w, h, |buf|);
    if y1 == y2 && x1 == x2 {
    } else if x2 > 0 {
      FinalisedStays(buf, w, h, bits, x1, y1, x2 - 1, y2);
      RowMajorOrder(x1, y1, x2 - 1, y2, w);
      VisitKeepsPrefix(buf, w, h, bits, x2, y2);
      PositionIndex(x2, y2, w, h, |buf|);
      SamePrefixTrans(Diffused(buf, w, h, bits, x1, y1), Diffused(buf, w, h, bits, x2 - 1, y2),
        Diffused(buf, w, h, bits, x2, y2), y1 * w + x1, y2 * w + x2 - 1);
    } else {
      FinalisedStays(buf, w, h, bits, x1, y1, w, y2 - 1);
      RowStart(buf, w, h, bits, y2);
    }
  }

  /** Agreement on a prefix carries over from a to b to c. */
  lemma SamePrefixTrans(a: seq<Rgba>, b: seq<Rgba>, c: seq<Rgba>, m: int, n: int)
    requires m <= n <= |a| && |a| == |b| == |c|
    requires forall i :: 0 <= i < m ==> b[i] == a[i]
    requires forall i :: 0 <= i < n ==> c[i] == b[i]
    ensures forall i :: 0 <= i < m ==> c[i] == a[i]
  {
  }

  /** Visiting (x, y) takes the scan state at (x, y) to the one at (x + 1, y). */
  lemma NextPosition(buf: seq<Rgba>, w: int, h: int, bits: int, x: int, y: int)
    requires AllValid(buf) && 1 <= bits <= 8
    requires 0 <= x < w && 0 <= y < h && |buf| == w * h
    ensures Diffused(buf, w, h, bits, x + 1, y) == Step(Diffused(buf, w, h, bits, x, y), w, h, bits, x, y)
  {
  }

  /** The scan state at the start of row y is the one at the end of row y - 1. */
  lemma RowStart(buf: seq<Rgba>, w: int, h: int, bits: int, y: int)
    requires AllValid(buf) && 1 <= bits <= 8 && 1 <= w && |buf| == w * h && 0 < y <= h
    ensures Diffused(buf, w, h, bits, 0, y) == Diffused(buf, w, h, bits, w, y - 1)
  {
  }

  /** Visiting (x - 1, y) leaves the pixels before it as they were. */
  lemma VisitKeepsPrefix(buf: seq<Rgba>, w: int, h: int, bits: int, x: int, y: int)
    requires AllValid(buf) && 1 <= bits <= 8
    requires 0 < x <= w && 0 <= y < h && |buf| == w * h
    ensures (RowMajor(x - 1, y, w, h);
      forall i :: 0 <= i < y * w + x - 1 ==>
        Diffused(buf, w, h, bits, x, y)[i] == Diffused(buf, w, h, bits, x - 1, y)[i])
  {
    RowMajor(x - 1, y, w, h);
    assert Diffused(buf, w, h, bits, x, y) == Visited(buf, w, h, bits, x - 1, y);
  }

  /** Every pixel visited before (x, y) is opaque grey at a level of the bit depth. */
  lemma {:induction false} VisitedAreGreyLevels(buf: seq<Rgba>, w: int, h: int, bits: int, x: int, y: int)
    requires AllValid(buf) && 1 <= bits <= 8 && 1 <= w && |buf| == w * h && Position(x, y, w, h)
    ensures (PositionIndex(x, y, w, h, |buf|);
      forall i :: 0 <= i < y * w + x ==> GreyLevel(Diffused(buf, w, h, bits, x, y)[i], bits))
    decreases y, x
  {
    PositionIndex(x, y, w, h, |buf|);
    if x > 0 {
      VisitedAreGreyLevels(buf, w, h, bits, x - 1, y);
      var before := Diffused(buf, w, h, bits, x - 1, y);
      assert Diffused(buf, w, h, bits, x, y) == Step(before, w, h, bits, x - 1, y);
      RowMajor(x - 1, y, w, h);
      StepGreyLevel(before, w, h, bits, x - 1, y);
    } else if y > 0 {
      VisitedAreGreyLevels(buf, w, h, bits, w, y - 1);
      NextRow(y - 1, w);
    }
  }

  /** A pixel the scan has not reached yet still has the alpha it had in the input. */
  lemma {:induction false} AlphaUntilVisited(buf: seq<Rgba>, w: int, h: int, bits: int, x: int, y: int)
    requires AllValid(buf) && 1 <= bits <= 8 && 1 <= w && |buf| == w * h && Position(x, y, w, h)
    ensures (PositionIndex(x, y, w, h, |buf|);
      forall i :: y * w + x <= i < |buf| ==> Diffused(buf, w, h, bits, x, y)[i].a == buf[i].a)
    decreases y, x
  {
    PositionIndex(x, y, w, h, |buf|);
    if x > 0 {
      AlphaUntilVisited(buf, w, h, bits, x - 1, y);
      assert Diffused(buf, w, h, bits, x, y) == Step(Diffused(buf, w, h, bits, x - 1, y), w, h, bits, x - 1, y);
    } else if y > 0 {
      AlphaUntilVisited(buf, w, h, bits, w, y - 1);
      NextRow(y - 1, w);
    }
  }

  /**
   * The final value of pixel (x, y) is the opaque grey of the quantised
   * luma the scan found there: its own colour, or the grey its earlier
   * neighbours left in it.
   */
  lemma FinalPixel(buf: seq<Rgba>, w: int, h: int, bits: int, x: int, y: int)
    requires AllValid(buf) && 1 <= bits <= 8
    requires 0 <= x < w && 0 <= y < h && |buf| == w * h
    ensures (RowMajor(x, y, w, h);
      var g := Quantised(Diffused(buf, w, h, bits, x, y)[y * w + x], bits);
      Diffused(buf, w, h, bits, 0, h)[y * w + x] == Rgba(g, g, g, 255))
  {
    RowMajor(x, y, w, h);
    FinalisedStays(buf, w, h, bits, x + 1, y, 0, h);
    assert Diffused(buf, w, h, bits, x + 1, y) == Step(Diffused(buf, w, h, bits, x, y), w, h, bits, x, y);
  }

  // ---------------------------------------------------------------------
  // The result

  /** The image fsdGrayscale_v2 returns. */
  function Dithered(img: ImageData, bits: int): (out: ImageData)
    requires ValidImage(img) && 1 <= bits <= 8
    ensures out.width == img.width && out.height == img.height && |out.data| == |img.data|
  {
    PixelsValid(img.data);
    var w, h := img.width, img.height;
    ImageData(w, h, Bytes(Diffused(Pixels(img.data), w, h, bits, 0, h)))
  }

  /**
   * The output has the input's dimensions and every pixel is opaque grey at
   * a level of the bit depth; with one bit, black or white.
   */
  lemma DitheredShape(img: ImageData, bits: int)
    requires ValidImage(img) && 1 <= bits <= 8
    ensures var out := Dithered(img, bits);
      out.width == img.width && out.height == img.height && |out.data| == |img.data| &&
      AllBytes(out.data) &&
      forall p :: 0 <= p < img.width * img.height ==>
        var px := PixelAt(out.data, p);
        GreyLevel(px, bits) && (bits == 1 ==> px.r == 0 || px.r == 255)
  {
    var w, h := img.width, img.height;
    PixelsValid(img.data);
    var final := Diffused(Pixels(img.data), w, h, bits, 0, h);
    VisitedAreGreyLevels(Pixels(img.data), w, h, bits, 0, h);
    PixelsOfBytes(final);
    BytesValid(final);
    forall p | 0 <= p < w * h
      ensures GreyLevel(PixelAt(Bytes(final), p), bits)
      ensures bits == 1 ==> PixelAt(Bytes(final), p).r == 0 || PixelAt(Bytes(final), p).r == 255
    {
      assert PixelAt(Bytes(final), p) == Pixels(Bytes(final))[p] == final[p];
      OneBitLevels(final[p].r);
    }
  }

  // ---------------------------------------------------------------------
  // Special cases

  /** A 1x1 image: its one pixel becomes the opaque grey of its luma, quantised. */
  lemma SinglePixel(img: ImageData, bits: int)
    requires ValidImage(img) && img.width == 1 && img.height == 1 && 1 <= bits <= 8
    ensures var g := FindClosestLuma(LumaByRgba(PixelAt(img.data, 0)), bits);
      Dithered(img, bits).data == [g, g, g, 255]
  {
    PixelsValid(img.data);
    var px := Pixels(img.data);
    var g := Quantised(px[0], bits);
    var r := Step(px, 1, 1, bits, 0, 0);
    assert Diffused(px, 1, 1, bits, 0, 1) == r;
    assert r == [Rgba(g, g, g, 255)];
    assert Bytes(r) == [g, g, g, 255];
  }

  /**
   * A 2x1 image: the first pixel becomes the opaque grey of its quantised
   * luma, the second receives 7/16 of the error and is then quantised.
   */
  lemma TwoByOne(buf: seq<Rgba>, bits: int)
    requires AllValid(buf) && |buf| == 2 && 1 <= bits <= 8
    ensures var g := Quantised(buf[0], bits);
      var k := Quantised(Shared(buf[1], QuantError(buf[0], bits), Right), bits);
      Diffused(buf, 2, 1, bits, 0, 1) == [Rgba(g, g, g, 255), Rgba(k, k, k, 255)]
  {
    NeighboursListed(0, 0, 2, 1);
    var visited := Step(buf, 2, 1, bits, 0, 0);
    StepAddsShares(buf, 2, 1, bits, 0, 0);
    assert Neighbours(0, 0, 2, 1)[0] == Share(1, Right);
    assert visited[1] == Shared(buf[1], QuantError(buf[0], bits), Right);
    assert Diffused(buf, 2, 1, bits, 0, 1) == Step(visited, 2, 1, bits, 1, 0);
  }

  /** The bytes of two opaque grey pixels. */
  lemma TwoGreyBytes(a: int, b: int)
    ensures Bytes([Rgba(a, a, a, 255), Rgba(b, b, b, 255)]) == [a, a, a, 255, b, b, b, 255]
  {
    var data := Bytes([Rgba(a, a, a, 255), Rgba(b, b, b, 255)]);
    assert data[0] == a && data[1] == a && data[2] == a && data[3] == 255;
    assert data[4] == b && data[5] == b && data[6] == b && data[7] == 255;
  }

  /** The pixels of two opaque grey pixels' bytes. */
  lemma TwoGreyPixels(a: int, b: int)
    ensures Pixels([a, a, a, 255, b, b, b, 255]) == [Rgba(a, a, a, 255), Rgba(b, b, b, 255)]
  {
    TwoGreyBytes(a, b);
    PixelsOfBytes([Rgba(a, a, a, 255), Rgba(b, b, b, 255)]);
  }

  /** Dithering a 2x1 image of two opaque greys a and b at one bit. */
  lemma TwoGreysOneBit(a: int, b: int)
    requires IsByte(a) && IsByte(b)
    ensures var g := FindClosestLuma(a as real, 1);
      var second := Shared(Rgba(b, b, b, 255), a as real - g as real, Right);
      var k := Quantised(second, 1);
      Dithered(ImageData(2, 1, [a, a, a, 255, b, b, b, 255]), 1).data == [g, g, g, 255, k, k, k, 255]
  {
    var px := [Rgba(a, a, a, 255), Rgba(b, b, b, 255)];
    TwoGreyPixels(a, b);
    TwoByOne(px, 1);
    var g := Quantised(px[0], 1);
    var k := Quantised(Shared(px[1], QuantError(px[0], 1), Right), 1);
    TwoGreyBytes(g, k);
  }

  /** Grey 200 then grey 50 at one bit: white, then black. */
  lemma WhiteThenBlack()
    ensures Dithered(ImageData(2, 1, [200, 200, 200, 255, 50, 50, 50, 255]), 1).data ==
      [255, 255, 255, 255, 0, 0, 0, 255]
  {
    TwoGreysOneBit(200, 50);
    OneBitThreshold(200.0);
    DarkNeighbour();
    OneBitThreshold(26.0);
  }

  /** 50 minus 7/16 of 55 is 25.9375, stored as 26. */
  lemma DarkNeighbour()
    ensures Shared(Rgba(50, 50, 50, 255), 200.0 - 255.0, Right) == Rgba(26, 26, 26, 255)
  {
    assert LumaByRgba(Rgba(50, 50, 50, 255)) == 50.0;
    assert Portion(-55.0, Right) == -24.0625;
    assert ToUint8Clamp(25.9375) == 26;
    StoresKeepBytes(255);
  }

  /**
   * Grey 127 then grey 250 at one bit: black, then white. The first
   * pixel's error 127 brings the second to 250 + 127 * 7/16 = 305.5625,
   * which the Uint8ClampedArray stores as 255.
   */
  lemma ClampKeepsWhite()
    ensures Dithered(ImageData(2, 1, [127, 127, 127, 255, 250, 250, 250, 255]), 1).data ==
      [0, 0, 0, 255, 255, 255, 255, 255]
  {
    TwoGreysOneBit(127, 250);
    OneBitThreshold(127.0);
    StoreClamps();
    OneBitThreshold(255.0);
  }

  /** 250 plus 7/16 of 127 is 305.5625, stored as 255. */
  lemma StoreClamps()
    ensures Shared(Rgba(250, 250, 250, 255), 127.0 - 0.0, Right) == Rgba(255, 255, 255, 255)
  {
    assert LumaByRgba(Rgba(250, 250, 250, 255)) == 250.0;
    assert Portion(127.0, Right) == 55.5625;
    StoresKeepBytes(255);
  }

  // ---------------------------------------------------------------------
  // The method

  /**
   * fsdGrayscale_v2: copies the image data, then visits every pixel in
   * row-major order on the copy.
   */
  method FsdGrayscaleV2(img: ImageData, bits: int) returns (out: ImageData)
    requires ValidImage(img) && 1 <= bits <= 8
    ensures out == Dithered(img, bits)
  {
    var width, height := img.width, img.height;
    var pixels := new int[|img.data|](i requires 0 <= i < |img.data| => img.data[i]);
    assert pixels[..] == img.data;
    PixelsValid(img.data);
    DiffuseErrors(pixels, width, height, bits);
    BytesOfPixels(pixels[..]);
    out := ImageData(width, height, pixels[..]);
  }

  /** The two loops: every pixel in row-major order, quantised and its error diffused. */
  method DiffuseErrors(pixels: array<int>, width: int, height: int, bits: int)
    requires 1 <= width && 1 <= height && pixels.Length == width * height * 4
    requires pixels.Length % 4 == 0 && AllValid(Pixels(pixels[..])) && 1 <= bits <= 8
    modifies pixels
    ensures Pixels(pixels[..]) == Diffused(Pixels(old(pixels[..])), width, height, bits, 0, height)
  {
    ghost var start := Pixels(pixels[..]);
    for y := 0 to height
      invariant Pixels(pixels[..]) == Diffused(start, width, height, bits, 0, y)
    {
      DiffuseRow(pixels, width, height, bits, y, start);
    }
  }

  /** The inner loop: every pixel of row y, left to right. */
  method DiffuseRow(pixels: array<int>, width: int, height: int, bits: int, y: int, ghost start: seq<Rgba>)
    requires 1 <= width && 0 <= y < height && pixels.Length == width * height * 4
    requires pixels.Length % 4 == 0 && 1 <= bits <= 8
    requires AllValid(start) && |start| == width * height
    requires Pixels(pixels[..]) == Diffused(start, width, height, bits, 0, y)
    modifies pixels
    ensures Pixels(pixels[..]) == Diffused(start, width, height, bits, 0, y + 1)
  {
    for x := 0 to width
      invariant Pixels(pixels[..]) == Diffused(start, width, height, bits, x, y)
    {
      VisitPixel(pixels, width, height, bits, x, y);
      NextPosition(start, width, height, bits, x, y);
    }
    RowStart(start, width, height, bits, y + 1);
  }

  /** The loop body for pixel (x, y): quantise it, then diffuse its error. */
  method VisitPixel(pixels: array<int>, width: int, height: int, bits: int, x: int, y: int)
    requires 0 <= x < width && 0 <= y < height && pixels.Length == width * height * 4
    requires AllValid(Pixels(pixels[..])) && 1 <= bits <= 8
    modifies pixels
    ensures Pixels(pixels[..]) == Step(Pixels(old(pixels[..])), width, height, bits, x, y)
  {
    RowMajor(x, y, width, height);
    ghost var before := Pixels(pixels[..]);
    ghost var p := y * width + x;
    var index := (y * width + x) * 4;
    assert index == 4 * p;
    FourBytes(p, 0);
    FourBytes(width * height, 0);
    var oldPixel := Rgba(pixels[index], pixels[index + 1], pixels[index + 2], pixels[index + 3]);
    assert oldPixel == before[p];
    var luma := LumaByRgba(oldPixel);
    var newLuma := FindClosestLuma(luma, bits);
    SetPixel(pixels, index, newLuma as real, 255);

    var quantError := luma - newLuma as real;
    DiffuseNeighbours(pixels, x, y, width, height, quantError);
  }

  /** `pixels.set([v, v, v, alpha], index)`: one pixel stored through ToUint8Clamp. */
  method SetPixel(pixels: array<int>, index: int, v: real, alpha: int)
    requires pixels.Length % 4 == 0 && index % 4 == 0 && 0 <= index < pixels.Length
    modifies pixels
    ensures Pixels(pixels[..]) == Pixels(old(pixels[..]))[index / 4 := Grey(v, alpha)]
  {
    var c := ToUint8Clamp(v);
    pixels[index] := c;
    pixels[index + 1] := c;
    pixels[index + 2] := c;
    pixels[index + 3] := ToUint8Clamp(alpha as real);
  }

  /** The four guarded updates that hand the error of pixel (x, y) to its neighbours. */
  method DiffuseNeighbours(pixels: array<int>, x: int, y: int, width: int, height: int, quantError: real)
    requires 0 <= x < width && 0 <= y < height && pixels.Length == width * height * 4
    modifies pixels
    ensures (NeighboursAfter(x, y, width, height);
      Pixels(pixels[..]) == Spread(Pixels(old(pixels[..])), Neighbours(x, y, width, height), quantError))
  {
    FourBytes(width * height, 0);
    ghost var quantised := Pixels(pixels[..]);
    ghost var ds: seq<Direction> := [];
    DiffuseAlong(pixels, x, y, width, height, Right, quantError, quantised, ds);
    ds := ds + [Right];
    DiffuseAlong(pixels, x, y, width, height, BelowLeft, quantError, quantised, ds);
    ds := ds + [BelowLeft];
    DiffuseAlong(pixels, x, y, width, height, Below, quantError, quantised, ds);
    ds := ds + [Below];
    DiffuseAlong(pixels, x, y, width, height, BelowRight, quantError, quantised, ds);
    ds := ds + [BelowRight];
    assert ds == Directions;
  }

  /**
   * One of the four guarded updates: when the guard for direction d holds,
   * the neighbour there becomes grey at its luma plus its share of the
   * error, keeping its alpha. After the updates for directions ds and then
   * d, the pixels are the quantised ones with those shares spread.
   */
  method DiffuseAlong(pixels: array<int>, x: int, y: int, width: int, height: int, d: Direction,
                      quantError: real, ghost quantised: seq<Rgba>, ghost ds: seq<Direction>)
    requires 0 <= x < width && 0 <= y < height && pixels.Length == width * height * 4
    requires |quantised| == width * height
    requires (NeighboursAlongInside(x, y, width, height, ds);
      Pixels(pixels[..]) == Spread(quantised, NeighboursAlong(x, y, width, height, ds), quantError))
    modifies pixels
    ensures (NeighboursAlongInside(x, y, width, height, ds + [d]);
      Pixels(pixels[..]) == Spread(quantised, NeighboursAlong(x, y, width, height, ds + [d]), quantError))
  {
    SpreadAlongSnoc(quantised, x, y, width, height, ds, d, quantError);
    if Inside(d, x, y, width, height) {
      AddErrorShare(pixels, x, y, width, height, d, quantError);
    }
  }

  /**
   * The body of one guarded update: the neighbour of (x, y) in direction d
   * becomes grey at its luma plus its portion of the error and keeps its
   * alpha.
   */
  method AddErrorShare(pixels: array<int>, x: int, y: int, width: int, height: int, d: Direction, quantError: real)
    requires 0 <= x < width && 0 <= y < height && pixels.Length == width * height * 4
    requires Inside(d, x, y, width, height)
    modifies pixels
    ensures (InsideInRange(d, x, y, width, height);
      Pixels(pixels[..]) == AddShare(Pixels(old(pixels[..])), Share(y * width + x + Offset(d, width), d), quantError))
  {
    InsideInRange(d, x, y, width, height);
    var index := (y * width + x) * 4;
    var nextIndex := index + Offset(d, width) * 4;
    ghost var next := y * width + x + Offset(d, width);
    assert nextIndex == 4 * next;
    FourBytes(next, 0);
    FourBytes(width * height, 0);
    var nextPixel := Rgba(pixels[nextIndex], pixels[nextIndex + 1], pixels[nextIndex + 2], pixels[nextIndex + 3]);
    assert nextPixel == Pixels(pixels[..])[next];
    var nextLuma := LumaByRgba(nextPixel) + Portion(quantError, d);
    SetPixel(pixels, nextIndex, nextLuma, nextPixel.a);
  }
}
