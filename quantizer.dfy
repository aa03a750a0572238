/**
 * findClosestLuma: snaps a luma to one of the 2^bits evenly spaced levels
 * round(k * 255 / (2^bits - 1)), 0 <= k <= 2^bits - 1, rounding twice with
 * `Math.round` (round half up).
 *
 * The lemmas that need real multiplication or division by the step are
 * stated for any step s with s * L == 255 (L the number of steps) and then
 * applied to the step of a bit depth.
 */
module Quantizer {
  import opened TypedArrays

  function Pow2(n: nat): nat {
    if n == 0 then 1 else 2 * Pow2(n - 1)
  }

  /** The number of steps between the lowest and the highest level: 2^bits - 1. */
  function Levels(bits: int): (l: int)
    requires 1 <= bits <= 8
    ensures 1 <= l <= 255
    ensures bits == 8 <==> l == 255
  {
    assert Pow2(1) == 2 && Pow2(2) == 4 && Pow2(3) == 8 && Pow2(4) == 16;
    assert Pow2(5) == 32 && Pow2(6) == 64 && Pow2(7) == 128 && Pow2(8) == 256;
    Pow2(bits) - 1
  }

  /**
   * The distance between two neighbouring levels, `255 / (2 ** bits - 1)`,
   * written out for each bit depth; StepSpansRange proves it is that ratio.
   */
  function Scale(bits: int): (s: real)
    requires 1 <= bits <= 8
    ensures bits == 8 <==> s == 1.0
    ensures bits < 8 ==> 2.0 <= s <= 255.0
  {
    if bits == 1 then 255.0 / 1.0
    else if bits == 2 then 255.0 / 3.0
    else if bits == 3 then 255.0 / 7.0
    else if bits == 4 then 255.0 / 15.0
    else if bits == 5 then 255.0 / 31.0
    else if bits == 6 then 255.0 / 63.0
    else if bits == 7 then 255.0 / 127.0
    else 255.0 / 255.0
  }

  /** The steps span [0, 255]: scale * (2^bits - 1) == 255. */
  lemma StepSpansRange(bits: int)
    requires 1 <= bits <= 8
    ensures Scale(bits) * Levels(bits) as real == 255.0
  {
    assert Pow2(1) == 2 && Pow2(2) == 4 && Pow2(3) == 8 && Pow2(4) == 16;
    assert Pow2(5) == 32 && Pow2(6) == 64 && Pow2(7) == 128 && Pow2(8) == 256;
  }

  /** Math.round: the nearest integer, halves rounded up. */
  function Round(x: real): (n: int)
    ensures x - 0.5 < n as real <= x + 0.5
  {
    (x + 0.5).Floor
  }

  /** Snapping to the grid of step s: round to a step index, then back to a value. */
  function Snap(luma: real, s: real): int
    requires 0.0 < s
  {
    Round(Round(luma / s) as real * s)
  }

  /** Level number k of the bit depth, as findClosestLuma produces it. */
  function Level(k: int, bits: int): int
    requires 1 <= bits <= 8
  {
    Round(k as real * Scale(bits))
  }

  ghost predicate IsLevel(v: int, bits: int)
    requires 1 <= bits <= 8
  {
    exists k :: 0 <= k <= Levels(bits) && v == Level(k, bits)
  }

  /**
   * findClosestLuma. For a luma in [0, 255] the result is one of the levels
   * of the bit depth, and it never lies further than half a step plus half a
   * unit (the second rounding) from the luma.
   */
  function FindClosestLuma(luma: real, bits: int): (v: int)
    requires 1 <= bits <= 8
    ensures 0.0 <= luma <= 255.0 ==> IsLevel(v, bits) && IsByte(v)
    ensures -(Scale(bits) + 1.0) / 2.0 < v as real - luma <= (Scale(bits) + 1.0) / 2.0
  {
    QuantizeFacts(luma, bits);
    Snap(luma, Scale(bits))
  }

  lemma QuantizeFacts(luma: real, bits: int)
    requires 1 <= bits <= 8
    ensures 0.0 <= luma <= 255.0 ==> IsLevel(Snap(luma, Scale(bits)), bits) && IsByte(Snap(luma, Scale(bits)))
    ensures -(Scale(bits) + 1.0) / 2.0 < Snap(luma, Scale(bits)) as real - luma <= (Scale(bits) + 1.0) / 2.0
  {
    var s := Scale(bits);
    StepSpansRange(bits);
    SnapFacts(luma, s, Levels(bits));
    var k := Round(luma / s);
    assert Snap(luma, s) == Level(k, bits);
  }

  /**
   * On a grid of step s spanning [0, 255]: a luma in [0, 255] gets a step
   * index in [0, L] and a value in [0, 255], within half a step plus half a
   * unit of the luma.
   */
  lemma SnapFacts(luma: real, s: real, L: int)
    requires 0.0 < s && s * L as real == 255.0
    ensures 0.0 <= luma <= 255.0 ==> 0 <= Round(luma / s) <= L && IsByte(Snap(luma, s))
    ensures -(s + 1.0) / 2.0 < Snap(luma, s) as real - luma <= (s + 1.0) / 2.0
  {
    var k := Round(luma / s);
    StepErrorBound(luma, k, s);
    if 0.0 <= luma <= 255.0 {
      IndexInRange(luma, s, L);
      GridInRange(k, s, L);
    }
  }

  lemma IndexInRange(luma: real, s: real, L: int)
    requires 0.0 < s && s * L as real == 255.0 && 0.0 <= luma <= 255.0
    ensures 0 <= Round(luma / s) <= L
  {
    var t := luma / s;
    assert t * s == luma;
    MulMonotone(0.0, t, s);
    MulMonotone(t, L as real, s);
    assert 0.0 <= t <= L as real;
  }

  /** The grid point k*s of an index in [0, L] lies in [0, 255] and so rounds to a byte. */
  lemma GridInRange(k: int, s: real, L: int)
    requires 0.0 < s && s * L as real == 255.0 && 0 <= k <= L
    ensures 0.0 <= k as real * s <= 255.0
    ensures IsByte(Round(k as real * s))
  {
    MulMonotone(0.0, k as real, s);
    MulMonotone(k as real, L as real, s);
  }

  /** Rounding luma/s and multiplying back by s moves the luma by at most s/2. */
  lemma StepErrorBound(luma: real, k: int, s: real)
    requires 0.0 < s
    requires luma / s - 0.5 < k as real <= luma / s + 0.5
    ensures luma - s / 2.0 < k as real * s <= luma + s / 2.0
  {
    var t, kr := luma / s, k as real;
    var e := kr - t;
    DivMul(luma, s);
    ScaledOffset(e, s);
    Distributes(kr, t, e, s);
    var ks, ts, es := kr * s, t * s, e * s;
    assert es == ks - ts && ts == luma && -s / 2.0 < es <= s / 2.0;
  }

  lemma DivMul(x: real, s: real)
    requires s != 0.0
    ensures (x / s) * s == x
  {
  }

  lemma ScaledOffset(e: real, s: real)
    requires 0.0 < s && -0.5 < e <= 0.5
    ensures -s / 2.0 < e * s <= s / 2.0
  {
    MulMonotone(-0.5, e, s);
    MulMonotone(e, 0.5, s);
  }

  lemma Distributes(k: real, t: real, e: real, s: real)
    requires e == k - t
    ensures e * s == k * s - t * s
  {
  }

  lemma MulMonotone(x: real, y: real, s: real)
    requires 0.0 < s
    ensures x < y ==> x * s < y * s
    ensures x <= y ==> x * s <= y * s
  {
    assert (y - x) * s == y * s - x * s;
    if x < y {
      assert (y - x) * s > 0.0;
    }
  }

  /** Every level of the bit depth is a byte; the lowest is 0 and the highest 255. */
  lemma LevelInRange(k: int, bits: int)
    requires 1 <= bits <= 8
    ensures 0 <= k <= Levels(bits) ==> IsByte(Level(k, bits))
    ensures Level(0, bits) == 0 && Level(Levels(bits), bits) == 255
  {
    var s, l := Scale(bits), Levels(bits);
    StepSpansRange(bits);
    GridInRange(0, s, l);
    GridInRange(l, s, l);
    if 0 <= k <= l {
      GridInRange(k, s, l);
    }
  }

  /** Quantising a level returns that level. */
  lemma LevelIsFixedPoint(k: int, bits: int)
    requires 1 <= bits <= 8 && 0 <= k <= Levels(bits)
    ensures FindClosestLuma(Level(k, bits) as real, bits) == Level(k, bits)
  {
    var s := Scale(bits);
    var v := Round(k as real * s);
    assert Level(k, bits) == v;
    assert FindClosestLuma(v as real, bits) == Snap(v as real, s);
    GridPointIsFixed(k, s);
  }

  /** On a grid whose step is 1 or at least 2, snapping a rounded grid point returns it. */
  lemma GridPointIsFixed(k: int, s: real)
    requires s == 1.0 || 2.0 <= s
    ensures Snap(Round(k as real * s) as real, s) == Round(k as real * s)
  {
    RoundBack(k, s);
  }

  /** When a step is 1 or at least 2, rounding k*s and dividing back by s gives k. */
  lemma RoundBack(k: int, s: real)
    requires s == 1.0 || 2.0 <= s
    ensures Round(Round(k as real * s) as real / s) == k
  {
    var v := Round(k as real * s);
    var d := v as real - k as real * s;
    assert -0.5 < d <= 0.5;
    assert v as real == k as real * s + d;
    QuotientSplit(k as real, d, s);
    assert v as real / s == k as real + d / s;
    if s == 1.0 {
      assert k as real * s == k as real + 0.0;
      RoundNear(k, 0.0);
    } else {
      SmallQuotient(d, s);
    }
    RoundNear(k, d / s);
  }

  lemma QuotientSplit(k: real, d: real, s: real)
    requires 0.0 < s
    ensures (k * s + d) / s == k + d / s
  {
  }

  lemma SmallQuotient(d: real, s: real)
    requires -0.5 < d <= 0.5 && 2.0 <= s
    ensures -0.25 <= d / s <= 0.25
  {
    assert (d / s) * s == d;
  }

  lemma RoundNear(k: int, e: real)
    requires -0.5 <= e < 0.5
    ensures Round(k as real + e) == k
  {
  }

  /** findClosestLuma is idempotent on lumas in [0, 255]. */
  lemma QuantizerIdempotent(luma: real, bits: int)
    requires 1 <= bits <= 8 && 0.0 <= luma <= 255.0
    ensures FindClosestLuma(FindClosestLuma(luma, bits) as real, bits) == FindClosestLuma(luma, bits)
  {
    var v := FindClosestLuma(luma, bits);
    var k :| 0 <= k <= Levels(bits) && v == Level(k, bits);
    LevelIsFixedPoint(k, bits);
  }

  /** With one bit there are exactly two levels: black and white. */
  lemma OneBitLevels(v: int)
    ensures IsLevel(v, 1) <==> v == 0 || v == 255
  {
    LevelInRange(0, 1);
    if IsLevel(v, 1) {
      var k :| 0 <= k <= Levels(1) && v == Level(k, 1);
      assert k == 0 || k == 1;
    }
  }

  /** With one bit a luma in [0, 255] becomes black below 127.5 and white from 127.5 on. */
  lemma OneBitThreshold(luma: real)
    requires 0.0 <= luma <= 255.0
    ensures FindClosestLuma(luma, 1) == if luma < 127.5 then 0 else 255
  {
    var t := luma / 255.0;
    assert Scale(1) == 255.0;
    assert t * 255.0 == luma;
    if luma < 127.5 {
      assert 0.0 <= t < 0.5;
      assert Round(t) == 0;
    } else {
      assert 0.5 <= t <= 1.0;
      assert Round(t) == 1;
    }
  }

  /** With eight bits the quantiser is the identity on integers. */
  lemma FullDepthIsIdentity(n: int)
    ensures FindClosestLuma(n as real, 8) == n
  {
    assert Scale(8) == 1.0;
    assert n as real / 1.0 == n as real;
  }
}
