/**
 * What an ECMAScript typed array stores when a number is written into it.
 * A `Uint8Array` element goes through ToUint8 (ECMA-262, section 7.1.11) and a
 * `Uint8ClampedArray` element (the data of an `ImageData`) through ToUint8Clamp
 * (ECMA-262, section 7.1.12). Numbers are modelled as exact reals, so the NaN
 * and infinity cases of those conversions do not arise.
 */
module TypedArrays {

  /** A value a byte-sized typed-array element can hold. */
  predicate IsByte(v: int) {
    0 <= v <= 255
  }

  /** Truncation toward zero (the integer part taken by ToUint8). */
  function Trunc(x: real): (n: int)
    ensures 0.0 <= x ==> n as real <= x < n as real + 1.0
    ensures x < 0.0 ==> n as real - 1.0 < x <= n as real
  {
    if x >= 0.0 then x.Floor else -((-x).Floor)
  }

  /** ToUint8: truncate toward zero, then reduce modulo 2^8 (wrap-around). */
  function ToUint8(x: real): (b: int)
    ensures IsByte(b)
  {
    Trunc(x) % 256
  }

  /**
   * The byte ToUint8 stores is the truncated number modulo 256: a number in
   * [0, 256) loses its fraction, and a number whose truncation lies in
   * (-256, 0) wraps around to 256 plus that truncation.
   */
  lemma ToUint8Wraps(x: real)
    ensures (ToUint8(x) - Trunc(x)) % 256 == 0
    ensures 0.0 <= x < 256.0 ==> ToUint8(x) == x.Floor
    ensures -256.0 < x && Trunc(x) < 0 ==> ToUint8(x) == Trunc(x) + 256
  {
  }

  /**
   * ToUint8Clamp: clamp to [0, 255], then round to the nearest integer,
   * ties to the even neighbour.
   */
  function ToUint8Clamp(x: real): (b: int)
    ensures IsByte(b)
    ensures x <= 0.0 ==> b == 0
    ensures 255.0 <= x ==> b == 255
    ensures 0.0 <= x <= 255.0 ==> -0.5 <= b as real - x <= 0.5
    ensures 0.0 < x < 255.0 && (b as real - x == 0.5 || x - b as real == 0.5) ==> b % 2 == 0
  {
    if x <= 0.0 then 0
    else if x >= 255.0 then 255
    else
      var f := x.Floor;
      if f as real + 0.5 < x then f + 1
      else if x < f as real + 0.5 then f
      else if f % 2 == 1 then f + 1
      else f
  }

  /** Storing a value that already is a byte leaves it unchanged, in both kinds of array. */
  lemma StoresKeepBytes(v: int)
    requires IsByte(v)
    ensures ToUint8(v as real) == v
    ensures ToUint8Clamp(v as real) == v
  {
  }
}
