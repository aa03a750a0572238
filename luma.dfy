/**
 * The luma of one RGBA pixel: the ITU-R BT.601 weights (section 2.5.1 of
 * Recommendation ITU-R BT.601, construction of the luminance signal) applied
 * to R, G and B, scaled by the normalised alpha a/255.
 */
module Luma {
  import opened TypedArrays

  /** One pixel as the four channels read out of an RGBA buffer. */
  datatype Rgba = Rgba(r: int, g: int, b: int, a: int)

  predicate ValidRgba(p: Rgba) {
    IsByte(p.r) && IsByte(p.g) && IsByte(p.b) && IsByte(p.a)
  }

  const WeightR: real := 0.299
  const WeightG: real := 0.587
  const WeightB: real := 0.114

  /**
   * getLumaByRGBA. For byte channels the luma lies in [0, 255]; a fully
   * transparent pixel has luma 0; a grey pixel (v, v, v, a) has luma v*a/255,
   * so an opaque grey pixel has luma exactly v, because the weights sum to 1.
   */
  function LumaByRgba(p: Rgba): (l: real)
    ensures ValidRgba(p) ==> 0.0 <= l <= 255.0
    ensures p.a == 0 ==> l == 0.0
    ensures p.r == p.g == p.b ==> l == p.r as real * p.a as real / 255.0
    ensures p.r == p.g == p.b && p.a == 255 ==> l == p.r as real
  {
    var weighted := WeightR * p.r as real + WeightG * p.g as real + WeightB * p.b as real;
    ScaledByAlpha(weighted, p.a as real);
    weighted * p.a as real / 255.0
  }

  /** A value in [0, 255] scaled by alpha/255 for an alpha in [0, 255] stays in [0, 255]. */
  lemma ScaledByAlpha(v: real, alpha: real)
    ensures 0.0 <= v <= 255.0 && 0.0 <= alpha <= 255.0 ==> 0.0 <= v * alpha / 255.0 <= 255.0
  {
    if 0.0 <= v <= 255.0 && 0.0 <= alpha <= 255.0 {
      MulNonneg(255.0 - v, alpha);
      MulNonneg(v, alpha);
    }
  }

  lemma MulNonneg(x: real, y: real)
    requires 0.0 <= x && 0.0 <= y
    ensures 0.0 <= x * y
  {
  }
}
