/**
 * fsdGrayscale: Floyd-Steinberg dithering through a one-byte-per-pixel
 * `Uint8Array`. Three raster passes: store each pixel's luma, quantise each
 * pixel in row-major order while diffusing its error forward, and expand the
 * result to opaque grey RGBA. Every store into the `Uint8Array` goes through
 * ToUint8, so fractions are truncated and sums outside [0, 255] wrap around.
 */
module Grayscale {
  import opened TypedArrays
  import opened Luma
  import opened Quantizer
  import opened Raster

  // ---------------------------------------------------------------------
  // Pass 1: one luma byte per pixel

  /** The byte the first pass stores for pixel p: its luma, truncated. */
  function StoredLuma(data: seq<int>, p: int): (g: int)
    requires 0 <= p && 4 * p + 3 < |data|
    ensures IsByte(g)
    ensures AllBytes(data) ==> g == LumaByRgba(PixelAt(data, p)).Floor
  {
    ToUint8(LumaByRgba(PixelAt(data, p)))
  }

  /** grayscalePixels after the first pass. */
  function LumaBuffer(data: seq<int>, n: nat): (g: seq<int>)
    requires 4 * n <= |data|
    ensures |g| == n && AllBytes(g)
    ensures forall p :: 0 <= p < n ==> g[p] == StoredLuma(data, p)
  {
    seq(n, p requires 0 <= p < n => StoredLuma(data, p))
  }

  // ---------------------------------------------------------------------
  // Pass 2: quantisation and error diffusion

  /** What a neighbour holding v in direction d stores: `v + err * weight / 16`, through ToUint8. */
  function Shared(v: int, err: int, d: Direction): (b: int)
    ensures IsByte(b)
    ensures 0.0 <= v as real + Portion(err as real, d) < 256.0 ==> b == (v as real + Portion(err as real, d)).Floor
  {
    ToUint8Wraps(v as real + Portion(err as real, d));
    ToUint8(v as real + Portion(err as real, d))
  }

  /** One guarded neighbour update, stored back into the Uint8Array. */
  function AddShare(buf: seq<int>, s: Share, err: int): (r: seq<int>)
    requires 0 <= s.index < |buf|
    ensures |r| == |buf| && (AllBytes(buf) ==> AllBytes(r))
  {
    buf[s.index := Shared(buf[s.index], err, s.dir)]
  }

  /**
   * The guarded neighbour updates of one pixel, applied in order. Only the
   * listed indices change, and the buffer stays a byte buffer.
   */
  function Spread(buf: seq<int>, ns: seq<Share>, err: int): (r: seq<int>)
    requires forall s :: s in ns ==> 0 <= s.index < |buf|
    ensures |r| == |buf|
    ensures forall i :: 0 <= i < |buf| && i !in Indices(ns) ==> r[i] == buf[i]
    ensures AllBytes(buf) ==> AllBytes(r)
    decreases |ns|
  {
    if ns == [] then buf
    else
      var init, last := ns[..|ns| - 1], ns[|ns| - 1];
      assert Indices(ns) == Indices(init) + {last.index};
      AddShare(Spread(buf, init, err), last, err)
  }

  /**
   * Looking in one more direction d applies that neighbour's share last,
   * when the source's guard for d holds, and changes nothing otherwise.
   */
  lemma SpreadAlongSnoc(buf: seq<int>, x: int, y: int, w: int, h: int, ds: seq<Direction>, d: Direction, err: int)
    requires 0 <= x < w && 0 <= y < h && |buf| == w * h
    ensures (NeighboursAlongInside(x, y, w, h, ds + [d]);
      Spread(buf, NeighboursAlong(x, y, w, h, ds + [d]), err) ==
        if Inside(d, x, y, w, h) then AddShare(Spread(buf, NeighboursAlong(x, y, w, h, ds), err), Share(y * w + x + Offset(d, w), d), err)
        else Spread(buf, NeighboursAlong(x, y, w, h, ds), err))
  {
    NeighboursAlongInside(x, y, w, h, ds + [d]);
    NeighboursAlongInside(x, y, w, h, ds);
    NeighboursAlongSnoc(x, y, w, h, ds, d);
    var ns := NeighboursAlong(x, y, w, h, ds);
    if Inside(d, x, y, w, h) {
      var s := Share(y * w + x + Offset(d, w), d);
      assert (ns + [s])[..|ns|] == ns;
    } else {
      assert ns + [] == ns;
    }
  }

  /**
   * findClosestLuma on every value a Uint8Array element can hold: the second
   * pass only ever quantises bytes, so it looks its results up here.
   */
  function Palette(bits: int): (q: seq<int>)
    requires 1 <= bits <= 8
    ensures |q| == 256 && AllBytes(q)
    ensures forall v :: 0 <= v < 256 ==> q[v] == FindClosestLuma(v as real, bits)
  {
    seq(256, v requires 0 <= v < 256 => FindClosestLuma(v as real, bits))
  }

  /** Every palette entry is a level of the bit depth; with one bit, black or white. */
  lemma PaletteLevels(bits: int)
    requires 1 <= bits <= 8
    ensures forall g :: g in Palette(bits) ==> IsLevel(g, bits) && (bits == 1 ==> g == 0 || g == 255)
  {
    forall g | g in Palette(bits)
      ensures IsLevel(g, bits) && (bits == 1 ==> g == 0 || g == 255)
    {
      var v :| 0 <= v < 256 && Palette(bits)[v] == g;
      OneBitLevels(g);
    }
  }

  /** A quantisation table for bytes whose entries are bytes. */
  predicate IsPalette(q: seq<int>) {
    |q| == 256 && AllBytes(q)
  }

  /**
   * Visiting pixel (x, y), index p = y*w + x: it is replaced by its
   * quantised value and the error goes to its neighbours. Nothing before p
   * changes, and after p only the neighbours do.
   */
  function Step(buf: seq<int>, w: int, h: int, q: seq<int>, x: int, y: int): (r: seq<int>)
    requires IsPalette(q) && AllBytes(buf)
    requires 0 <= x < w && 0 <= y < h && |buf| == w * h
    ensures |r| == |buf| && AllBytes(r)
    ensures (RowMajor(x, y, w, h); r[y * w + x] == q[buf[y * w + x]])
    ensures forall i :: 0 <= i < y * w + x ==> r[i] == buf[i]
    ensures forall i :: y * w + x < i < |buf| && i !in Indices(Neighbours(x, y, w, h)) ==> r[i] == buf[i]
  {
    RowMajor(x, y, w, h);
    NeighboursAfter(x, y, w, h);
    var p := y * w + x;
    var v := q[buf[p]];
    Spread(buf[p := v], Neighbours(x, y, w, h), buf[p] - v)
  }

  /**
   * grayscalePixels once the second pass has visited every pixel before
   * (x, y); the end of row y is the start of row y + 1.
   */
  function Diffused(buf: seq<int>, w: int, h: int, q: seq<int>, x: int, y: int): (r: seq<int>)
    requires IsPalette(q) && AllBytes(buf)
    requires 1 <= w && |buf| == w * h && Position(x, y, w, h)
    ensures |r| == |buf| && AllBytes(r)
    decreases y, x, 0
  {
    if x > 0 then Visited(buf, w, h, q, x - 1, y)
    else if y > 0 then Diffused(buf, w, h, q, w, y - 1)
    else buf
  }

  /**
   * grayscalePixels right after the second pass has visited (x, y): the
   * pixel holds the quantisation of what the scan found there, and every
   * earlier pixel is as the scan left it.
   */
  function Visited(buf: seq<int>, w: int, h: int, q: seq<int>, x: int, y: int): (r: seq<int>)
    requires IsPalette(q) && AllBytes(buf)
    requires 0 <= x < w && 0 <= y < h && |buf| == w * h
    ensures |r| == |buf| && AllBytes(r)
    ensures (RowMajor(x, y, w, h);
      r[y * w + x] == q[Diffused(buf, w, h, q, x, y)[y * w + x]])
    ensures forall i :: 0 <= i < y * w + x ==> r[i] == Diffused(buf, w, h, q, x, y)[i]
    decreases y, x, 1
  {
    Step(Diffused(buf, w, h, q, x, y), w, h, q, x, y)
  }

  /** The pixels visited before position (x1, y1) keep their value up to any later position (x2, y2). */
  lemma {:induction false} FinalisedStays(buf: seq<int>, w: int, h: int, q: seq<int>, x1: int, y1: int, x2: int, y2: int)
    requires IsPalette(q) && AllBytes(buf) && 1 <= w && |buf| == w * h
    requires Position(x1, y1, w, h) && Position(x2, y2, w, h)
    requires y1 < y2 || (y1 == y2 && x1 <= x2)
    ensures (PositionIndex(x1, y1, w, h, |buf|);
      forall i :: 0 <= i < y1 * w + x1 ==>
        Diffused(buf, w, h, q, x2, y2)[i] == Diffused(buf, w, h, q, x1, y1)[i])
    decreases y2, x2
  {
    PositionIndex(x1, y1, w, h, |buf|);
    if y1 == y2 && x1 == x2 {
    } else if x2 > 0 {
      FinalisedStays(buf, w, h, q, x1, y1, x2 - 1, y2);
      RowMajorOrder(x1, y1, x2 - 1, y2, w);
      assert Diffused(buf, w, h, q, x2, y2) == Visited(buf, w, h, q, x2 - 1, y2);
    } else {
      FinalisedStays(buf, w, h, q, x1, y1, w, y2 - 1);
    }
  }

  /** Every pixel visited before position (x, y) holds a palette entry. */
  lemma {:induction false} VisitedFromPalette(buf: seq<int>, w: int, h: int, q: seq<int>, x: int, y: int)
    requires IsPalette(q) && AllBytes(buf) && 1 <= w && |buf| == w * h && Position(x, y, w, h)
    ensures (PositionIndex(x, y, w, h, |buf|);
      forall i :: 0 <= i < y * w + x ==> Diffused(buf, w, h, q, x, y)[i] in q)
    decreases y, x
  {
    PositionIndex(x, y, w, h, |buf|);
    if x > 0 {
      VisitedFromPalette(buf, w, h, q, x - 1, y);
      assert Diffused(buf, w, h, q, x, y) == Visited(buf, w, h, q, x - 1, y);
      RowMajor(x - 1, y, w, h);
    } else if y > 0 {
      VisitedFromPalette(buf, w, h, q, w, y - 1);
    }
  }

  /**
   * The final value of pixel (x, y) is the quantisation of what the buffer
   * held there when the scan reached it: its luma plus the error diffused
   * into it so far.
   */
  lemma FinalValue(buf: seq<int>, w: int, h: int, q: seq<int>, x: int, y: int)
    requires IsPalette(q) && AllBytes(buf)
    requires 0 <= x < w && 0 <= y < h && |buf| == w * h
    ensures (RowMajor(x, y, w, h);
      Diffused(buf, w, h, q, 0, h)[y * w + x] == q[Diffused(buf, w, h, q, x, y)[y * w + x]])
  {
    RowMajor(x, y, w, h);
    FinalisedStays(buf, w, h, q, x + 1, y, 0, h);
    assert Diffused(buf, w, h, q, x + 1, y) == Visited(buf, w, h, q, x, y);
  }

  /**
   * Visiting pixel (x, y) adds to each neighbour exactly its own portion of
   * the error, stored through ToUint8.
   */
  lemma StepAddsShares(buf: seq<int>, w: int, h: int, q: seq<int>, x: int, y: int)
    requires IsPalette(q) && AllBytes(buf)
    requires 0 <= x < w && 0 <= y < h && |buf| == w * h
    ensures (RowMajor(x, y, w, h); NeighboursAfter(x, y, w, h);
      var p := y * w + x;
      var err := buf[p] - q[buf[p]];
      var ns := Neighbours(x, y, w, h);
      forall j :: 0 <= j < |ns| ==>
        Step(buf, w, h, q, x, y)[ns[j].index] ==
          Shared(buf[ns[j].index], err, ns[j].dir))
  {
    RowMajor(x, y, w, h);
    NeighboursAfter(x, y, w, h);
    NeighboursDistinct(x, y, w, h);
    var p := y * w + x;
    var v := q[buf[p]];
    var err := buf[p] - v;
    var painted := buf[p := v];
    var ns := Neighbours(x, y, w, h);
    var r := Step(buf, w, h, q, x, y);
    assert r == Spread(painted, ns, err);
    SpreadEach(painted, ns, err);
    forall j | 0 <= j < |ns|
      ensures r[ns[j].index] == Shared(buf[ns[j].index], err, ns[j].dir)
    {
      assert ns[j] in ns;
      assert painted[ns[j].index] == buf[ns[j].index];
    }
  }

  /** With distinct indices, each share's update is the one that sticks. */
  lemma SpreadEach(buf: seq<int>, ns: seq<Share>, err: int)
    requires forall s :: s in ns ==> 0 <= s.index < |buf|
    requires forall a, b :: 0 <= a < b < |ns| ==> ns[a].index != ns[b].index
    ensures forall j :: 0 <= j < |ns| ==>
      Spread(buf, ns, err)[ns[j].index] == Shared(buf[ns[j].index], err, ns[j].dir)
  {
    forall j | 0 <= j < |ns|
      ensures Spread(buf, ns, err)[ns[j].index] ==
        Shared(buf[ns[j].index], err, ns[j].dir)
    {
      SpreadAt(buf, ns, err, j);
    }
  }

  lemma {:induction false} SpreadAt(buf: seq<int>, ns: seq<Share>, err: int, j: int)
    requires forall s :: s in ns ==> 0 <= s.index < |buf|
    requires forall a, b :: 0 <= a < b < |ns| ==> ns[a].index != ns[b].index
    requires 0 <= j < |ns|
    ensures Spread(buf, ns, err)[ns[j].index] ==
      Shared(buf[ns[j].index], err, ns[j].dir)
    decreases |ns|
  {
    var init := ns[..|ns| - 1];
    if j == |ns| - 1 {
      assert ns[j].index !in Indices(init);
    } else {
      SpreadAt(buf, init, err, j);
    }
  }

  // ---------------------------------------------------------------------
  // Pass 3: the output image

  /** Each gray byte becomes an opaque grey RGBA pixel. */
  function Expand(gray: seq<int>): (r: seq<int>)
    ensures |r| == 4 * |gray|
    ensures forall p :: 0 <= p < |gray| ==>
      r[4 * p] == gray[p] && r[4 * p + 1] == gray[p] && r[4 * p + 2] == gray[p] && r[4 * p + 3] == 255
  {
    seq(4 * |gray|, j requires 0 <= j < 4 * |gray| => if j % 4 == 3 then 255 else gray[j / 4])
  }

  /** The image fsdGrayscale returns. */
  function Dithered(img: ImageData, bits: int): (out: ImageData)
    requires ValidImage(img) && 1 <= bits <= 8
    ensures out.width == img.width && out.height == img.height && |out.data| == |img.data|
  {
    var w, h := img.width, img.height;
    ImageData(w, h, Expand(Diffused(LumaBuffer(img.data, w * h), w, h, Palette(bits), 0, h)))
  }

  /**
   * The output has the input's dimensions and one opaque grey pixel
   * (g, g, g, 255) per input pixel, g a level of the bit depth; with one
   * bit every g is black or white.
   */
  lemma DitheredShape(img: ImageData, bits: int)
    requires ValidImage(img) && 1 <= bits <= 8
    ensures var out := Dithered(img, bits);
      out.width == img.width && out.height == img.height && |out.data| == |img.data| &&
      forall p :: 0 <= p < img.width * img.height ==>
        var g := out.data[4 * p];
        out.data[4 * p + 1] == g && out.data[4 * p + 2] == g && out.data[4 * p + 3] == 255 &&
        IsLevel(g, bits) && (bits == 1 ==> g == 0 || g == 255)
  {
    var w, h := img.width, img.height;
    var lumas := LumaBuffer(img.data, w * h);
    VisitedFromPalette(lumas, w, h, Palette(bits), 0, h);
    PaletteLevels(bits);
  }

  // ---------------------------------------------------------------------
  // Special cases

  /** With no error to hand on, the guarded updates leave a byte buffer as it is. */
  lemma {:induction false} SpreadZero(buf: seq<int>, ns: seq<Share>)
    requires forall s :: s in ns ==> 0 <= s.index < |buf|
    requires AllBytes(buf)
    ensures Spread(buf, ns, 0) == buf
    decreases |ns|
  {
    if ns != [] {
      var init, last := ns[..|ns| - 1], ns[|ns| - 1];
      SpreadZero(buf, init);
      assert last in ns;
      StoresKeepBytes(buf[last.index]);
      assert Portion(0.0, last.dir) == 0.0;
    }
  }

  /** At eight bits every byte is its own level, so a visit changes nothing. */
  lemma FullDepthStep(buf: seq<int>, w: int, h: int, x: int, y: int)
    requires AllBytes(buf)
    requires 0 <= x < w && 0 <= y < h && |buf| == w * h
    ensures Step(buf, w, h, Palette(8), x, y) == buf
  {
    RowMajor(x, y, w, h);
    NeighboursAfter(x, y, w, h);
    var p := y * w + x;
    FullDepthIsIdentity(buf[p]);
    assert buf[p := Palette(8)[buf[p]]] == buf;
    SpreadZero(buf, Neighbours(x, y, w, h));
  }

  /** At eight bits the second pass leaves the stored lumas as they are, at every scan position. */
  lemma {:induction false} FullDepthDiffused(buf: seq<int>, w: int, h: int, x: int, y: int)
    requires AllBytes(buf) && 1 <= w && |buf| == w * h && Position(x, y, w, h)
    ensures Diffused(buf, w, h, Palette(8), x, y) == buf
    decreases y, x
  {
    if x > 0 {
      FullDepthDiffused(buf, w, h, x - 1, y);
      FullDepthStep(buf, w, h, x - 1, y);
    } else if y > 0 {
      FullDepthDiffused(buf, w, h, w, y - 1);
    }
  }

  /**
   * At eight bits fsdGrayscale outputs every pixel as the opaque grey of its
   * stored luma: the luma truncated, not rounded.
   */
  lemma FullDepthKeepsLumas(img: ImageData)
    requires ValidImage(img)
    ensures Dithered(img, 8).data == Expand(LumaBuffer(img.data, img.width * img.height))
  {
    FullDepthDiffused(LumaBuffer(img.data, img.width * img.height), img.width, img.height, 0, img.height);
  }

  /** A 1x1 image: its one pixel becomes the opaque grey of its stored luma, quantised. */
  lemma SinglePixel(img: ImageData, bits: int)
    requires ValidImage(img) && img.width == 1 && img.height == 1 && 1 <= bits <= 8
    ensures var g := FindClosestLuma(StoredLuma(img.data, 0) as real, bits);
      Dithered(img, bits).data == [g, g, g, 255]
  {
    var lumas, q := LumaBuffer(img.data, 1), Palette(bits);
    SinglePixelHasNoNeighbours();
    var g := q[lumas[0]];
    assert Diffused(lumas, 1, 1, q, 1, 0) == Step(lumas, 1, 1, q, 0, 0) == [g];
    assert Expand([g]) == [g, g, g, 255];
  }

  /**
   * A 2x1 image: the first pixel takes its palette entry and hands
   * 7/16 of its error to the second, which is then quantised.
   */
  lemma TwoByOne(buf: seq<int>, q: seq<int>)
    requires IsPalette(q) && AllBytes(buf) && |buf| == 2
    ensures var first := q[buf[0]];
      Diffused(buf, 2, 1, q, 0, 1) == [first, q[Shared(buf[1], buf[0] - first, Right)]]
  {
    NeighboursListed(0, 0, 2, 1);
    NeighboursListed(1, 0, 2, 1);
    var first := q[buf[0]];
    var second := Shared(buf[1], buf[0] - first, Right);
    var visited := Step(buf, 2, 1, q, 0, 0);
    assert visited == [first, second];
    assert Diffused(buf, 2, 1, q, 0, 1) == Step(visited, 2, 1, q, 1, 0);
  }

  /** The stored lumas of two opaque grey pixels are their greys. */
  lemma TwoGreyLumas(a: int, b: int)
    requires IsByte(a) && IsByte(b)
    ensures LumaBuffer([a, a, a, 255, b, b, b, 255], 2) == [a, b]
  {
    var data := [a, a, a, 255, b, b, b, 255];
    StoresKeepBytes(a);
    StoresKeepBytes(b);
    assert PixelAt(data, 0) == Rgba(a, a, a, 255) && PixelAt(data, 1) == Rgba(b, b, b, 255);
  }

  /** Two gray bytes expand to two opaque grey pixels. */
  lemma ExpandTwo(a: int, b: int)
    ensures Expand([a, b]) == [a, a, a, 255, b, b, b, 255]
  {
  }

  /** Grey 200 then grey 50 at one bit: white, then black. */
  lemma WhiteThenBlack()
    ensures Dithered(ImageData(2, 1, [200, 200, 200, 255, 50, 50, 50, 255]), 1).data ==
      [255, 255, 255, 255, 0, 0, 0, 255]
  {
    var data, q := [200, 200, 200, 255, 50, 50, 50, 255], Palette(1);
    assert Dithered(ImageData(2, 1, data), 1).data == Expand(Diffused(LumaBuffer(data, 2), 2, 1, q, 0, 1));
    TwoGreyLumas(200, 50);
    TwoByOne([200, 50], q);
    assert Shared(50, -55, Right) == 25;
    OneBitThreshold(200.0);
    OneBitThreshold(25.0);
    ExpandTwo(255, 0);
  }

  /**
   * Grey 127 then grey 250 at one bit: both black. The first pixel's error
   * 127 brings the second to 250 + 127 * 7/16 = 305.5625, which the
   * Uint8Array stores as 305 - 256 = 49 instead of a white 255.
   */
  lemma WrapAroundTurnsWhiteBlack()
    ensures Dithered(ImageData(2, 1, [127, 127, 127, 255, 250, 250, 250, 255]), 1).data ==
      [0, 0, 0, 255, 0, 0, 0, 255]
  {
    var data, q := [127, 127, 127, 255, 250, 250, 250, 255], Palette(1);
    assert Dithered(ImageData(2, 1, data), 1).data == Expand(Diffused(LumaBuffer(data, 2), 2, 1, q, 0, 1));
    TwoGreyLumas(127, 250);
    TwoByOne([127, 250], q);
    StoreWraps();
    OneBitThreshold(127.0);
    OneBitThreshold(49.0);
    ExpandTwo(0, 0);
  }

  /** 250 plus 7/16 of an error of 127 is 305.5625, stored in a Uint8Array as 49. */
  lemma StoreWraps()
    ensures Shared(250, 127, Right) == 49
  {
    assert Portion(127.0, Right) == 55.5625;
    assert Trunc(250.0 + 55.5625) == 305;
  }

  // ---------------------------------------------------------------------
  // The method

  /** fsdGrayscale, with grayscalePixels and pixels as arrays updated in place. */
  method FsdGrayscale(img: ImageData, bits: int) returns (out: ImageData)
    requires ValidImage(img) && 1 <= bits <= 8
    ensures out == Dithered(img, bits)
  {
    var width, height := img.width, img.height;
    var grayscalePixels := StoreLumas(img);
    DiffuseErrors(grayscalePixels, width, height, bits);
    var pixels := ExpandToRgba(grayscalePixels, width, height);
    out := ImageData(width, height, pixels[..]);
  }

  /** The first pass: a fresh Uint8Array holding the luma of every pixel. */
  method StoreLumas(img: ImageData) returns (grayscalePixels: array<int>)
    requires ValidImage(img)
    ensures fresh(grayscalePixels)
    ensures grayscalePixels[..] == LumaBuffer(img.data, img.width * img.height)
  {
    var width, height := img.width, img.height;
    grayscalePixels := new int[width * height];
    ghost var lumas := LumaBuffer(img.data, width * height);
    for y := 0 to height
      invariant y * width <= width * height
      invariant forall i :: 0 <= i < y * width ==> grayscalePixels[i] == lumas[i]
    {
      for x := 0 to width
        invariant y * width + x <= width * height
        invariant forall i :: 0 <= i < y * width + x ==> grayscalePixels[i] == lumas[i]
      {
        RowMajor(x, y, width, height);
        var pixelIndex := y * width + x;
        var index := pixelIndex * 4;
        var oldPixel := Rgba(img.data[index], img.data[index + 1], img.data[index + 2], img.data[index + 3]);
        assert oldPixel == PixelAt(img.data, pixelIndex);
        var luma := LumaByRgba(oldPixel);
        grayscalePixels[pixelIndex] := ToUint8(luma);
      }
      NextRow(y, width);
    }
    assert grayscalePixels[..] == lumas;
  }

  /** The second pass: every pixel in row-major order, quantised and its error diffused. */
  method DiffuseErrors(grayscalePixels: array<int>, width: int, height: int, bits: int)
    requires 1 <= width && 1 <= height && grayscalePixels.Length == width * height
    requires AllBytes(grayscalePixels[..]) && 1 <= bits <= 8
    modifies grayscalePixels
    ensures grayscalePixels[..] == Diffused(old(grayscalePixels[..]), width, height, Palette(bits), 0, height)
  {
    ghost var lumas := grayscalePixels[..];
    ghost var palette := Palette(bits);
    for y := 0 to height
      invariant grayscalePixels[..] == Diffused(lumas, width, height, palette, 0, y)
    {
      for x := 0 to width
        invariant grayscalePixels[..] == Diffused(lumas, width, height, palette, x, y)
      {
        VisitPixel(grayscalePixels, width, height, bits, x, y);
        assert grayscalePixels[..] == Visited(lumas, width, height, palette, x, y);
      }
    }
  }

  /** The body of the second pass for pixel (x, y). */
  method VisitPixel(grayscalePixels: array<int>, width: int, height: int, bits: int, x: int, y: int)
    requires 0 <= x < width && 0 <= y < height && grayscalePixels.Length == width * height
    requires AllBytes(grayscalePixels[..]) && 1 <= bits <= 8
    modifies grayscalePixels
    ensures grayscalePixels[..] == Step(old(grayscalePixels[..]), width, height, Palette(bits), x, y)
  {
    RowMajor(x, y, width, height);
    var pixelIndex := y * width + x;
    var oldPixel := grayscalePixels[pixelIndex];
    var newPixel := FindClosestLuma(oldPixel as real, bits);
    assert newPixel == Palette(bits)[oldPixel];
    grayscalePixels[pixelIndex] := newPixel;

    var quantError := oldPixel - newPixel;
    ghost var before := old(grayscalePixels[..]);
    assert grayscalePixels[..] == before[pixelIndex := Palette(bits)[before[pixelIndex]]];
    DiffuseNeighbours(grayscalePixels, x, y, width, height, quantError);
  }

  /** The four guarded updates that hand the error of pixel (x, y) to its neighbours. */
  method DiffuseNeighbours(grayscalePixels: array<int>, x: int, y: int, width: int, height: int, quantError: int)
    requires 0 <= x < width && 0 <= y < height && grayscalePixels.Length == width * height
    modifies grayscalePixels
    ensures (NeighboursAfter(x, y, width, height);
      grayscalePixels[..] == Spread(old(grayscalePixels[..]), Neighbours(x, y, width, height), quantError))
  {
    ghost var quantised := grayscalePixels[..];
    ghost var ds: seq<Direction> := [];
    DiffuseAlong(grayscalePixels, x, y, width, height, Right, quantError, quantised, ds);
    ds := ds + [Right];
    DiffuseAlong(grayscalePixels, x, y, width, height, BelowLeft, quantError, quantised, ds);
    ds := ds + [BelowLeft];
    DiffuseAlong(grayscalePixels, x, y, width, height, Below, quantError, quantised, ds);
    ds := ds + [Below];
    DiffuseAlong(grayscalePixels, x, y, width, height, BelowRight, quantError, quantised, ds);
    ds := ds + [BelowRight];
    assert ds == Directions;
  }

  /**
   * One of the four guarded updates of the second pass: when the guard for
   * direction d holds, the neighbour in that direction receives its share
   * of the error. After the updates for directions ds and then d, the
   * buffer is the quantised one with those shares spread.
   */
  method DiffuseAlong(grayscalePixels: array<int>, x: int, y: int, width: int, height: int, d: Direction,
                      quantError: int, ghost quantised: seq<int>, ghost ds: seq<Direction>)
    requires 0 <= x < width && 0 <= y < height && grayscalePixels.Length == width * height == |quantised|
    requires (NeighboursAlongInside(x, y, width, height, ds);
      grayscalePixels[..] == Spread(quantised, NeighboursAlong(x, y, width, height, ds), quantError))
    modifies grayscalePixels
    ensures (NeighboursAlongInside(x, y, width, height, ds + [d]);
      grayscalePixels[..] == Spread(quantised, NeighboursAlong(x, y, width, height, ds + [d]), quantError))
  {
    SpreadAlongSnoc(quantised, x, y, width, height, ds, d, quantError);
    if Inside(d, x, y, width, height) {
      InsideInRange(d, x, y, width, height);
      var nextIndex := y * width + x + Offset(d, width);
      AddErrorShare(grayscalePixels, Share(nextIndex, d), quantError);
    }
  }

  /** `grayscalePixels.set([nextPixel + quantError * weight / 16], nextIndex)` for one neighbour. */
  method AddErrorShare(grayscalePixels: array<int>, s: Share, quantError: int)
    requires 0 <= s.index < grayscalePixels.Length
    modifies grayscalePixels
    ensures grayscalePixels[..] == AddShare(old(grayscalePixels[..]), s, quantError)
  {
    var nextPixel := grayscalePixels[s.index];
    grayscalePixels[s.index] := ToUint8(nextPixel as real + Portion(quantError as real, s.dir));
  }

  /** The third pass: a fresh RGBA buffer with an opaque grey pixel per byte. */
  method ExpandToRgba(grayscalePixels: array<int>, width: int, height: int) returns (pixels: array<int>)
    requires 1 <= width && 1 <= height && grayscalePixels.Length == width * height
    ensures fresh(pixels)
    ensures pixels[..] == Expand(grayscalePixels[..])
  {
    pixels := new int[width * height * 4];
    ghost var gray := grayscalePixels[..];
    for y := 0 to height
      invariant y * width <= width * height
      invariant ExpandedUpTo(pixels[..], gray, y * width)
    {
      for x := 0 to width
        invariant y * width + x <= width * height
        invariant ExpandedUpTo(pixels[..], gray, y * width + x)
      {
        RowMajor(x, y, width, height);
        var pixelIndex := y * width + x;
        var newLuma := grayscalePixels[pixelIndex];
        SetGrey(pixels, pixelIndex, newLuma, gray);
      }
      NextRow(y, width);
    }
    ExpandedAll(pixels[..], gray);
  }

  /** The first n pixels of out are the opaque grey expansions of gray's first n bytes. */
  ghost predicate ExpandedUpTo(out: seq<int>, gray: seq<int>, n: int) {
    0 <= n <= |gray| && |out| == 4 * |gray| &&
    forall p :: 0 <= p < n ==>
      out[4 * p] == gray[p] && out[4 * p + 1] == gray[p] && out[4 * p + 2] == gray[p] && out[4 * p + 3] == 255
  }

  /** `pixels.set([newLuma, newLuma, newLuma, 255], pixelIndex * 4)`. */
  method SetGrey(pixels: array<int>, pixelIndex: int, newLuma: int, ghost gray: seq<int>)
    requires 0 <= pixelIndex < |gray| && gray[pixelIndex] == newLuma
    requires ExpandedUpTo(pixels[..], gray, pixelIndex)
    modifies pixels
    ensures ExpandedUpTo(pixels[..], gray, pixelIndex + 1)
    ensures forall j :: 0 <= j < pixels.Length && !(4 * pixelIndex <= j < 4 * pixelIndex + 4) ==>
      pixels[j] == old(pixels[j])
  {
    pixels[pixelIndex * 4] := newLuma;
    pixels[pixelIndex * 4 + 1] := newLuma;
    pixels[pixelIndex * 4 + 2] := newLuma;
    pixels[pixelIndex * 4 + 3] := 255;
  }

  /** A buffer with every pixel expanded is the expansion. */
  lemma ExpandedAll(out: seq<int>, gray: seq<int>)
    requires ExpandedUpTo(out, gray, |gray|)
    ensures out == Expand(gray)
  {
    forall j | 0 <= j < |out|
      ensures out[j] == Expand(gray)[j]
    {
      ExpandedAt(out, gray, j);
    }
  }

  lemma ExpandedAt(out: seq<int>, gray: seq<int>, j: int)
    requires ExpandedUpTo(out, gray, |gray|) && 0 <= j < |out|
    ensures out[j] == (if j % 4 == 3 then 255 else gray[j / 4])
  {
    var p, r := j / 4, j % 4;
    assert j == 4 * p + r && 0 <= p < |gray|;
    if r == 0 {
      assert out[4 * p] == gray[p];
    } else if r == 1 {
      assert out[4 * p + 1] == gray[p];
    } else if r == 2 {
      assert out[4 * p + 2] == gray[p];
    } else {
      assert out[4 * p + 3] == 255;
    }
  }
}
