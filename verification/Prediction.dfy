/** Sample arithmetic of the fast lossless encoder (experimental/fast_lossless/fast_lossless.cc:780-783,
794-805, 868-886): reversible colour transform, clamped gradient and sign packing, in 16 bits.
 */
module Prediction {

  // ----- 16-bit arithmetic -----

  function ToInt16(v: int): (r: int)
    ensures -0x8000 <= r < 0x8000
    ensures -0x8000 <= v < 0x8000 ==> r == v
  {
    (v + 0x8000) % 0x1_0000 - 0x8000
  }

  function ToUint16(v: int): (r: nat)
    ensures r < 0x1_0000
    ensures 0 <= v < 0x1_0000 ==> r == v
  {
    v % 0x1_0000
  }

  /** The xor of two signed numbers is negative exactly if one of them is. */
  predicate XorIsNegative(a: int, b: int) {
    (a < 0) != (b < 0)
  }

  // ----- residuals -----

  /** `PackSigned`: the shifted value, with all bits flipped if it was negative. */
  function PackSigned(value: int): (r: nat)
    requires -0x8000 <= value < 0x8000
  {
    var shifted := ToUint16(2 * ToUint16(value));
    if value < 0 then 0xFFFF - shifted else shifted
  }

  /** The decoder's inverse. */
  function UnpackSigned(u: nat): int {
    if u % 2 == 0 then u / 2 else -(u / 2) - 1
  }

  lemma UnpackPacked(value: int)
    requires -0x8000 <= value < 0x8000
    ensures UnpackSigned(PackSigned(value)) == value
    ensures PackSigned(value) == if value >= 0 then 2 * value else -2 * value - 1
  {
    if value < 0 {
      assert ToUint16(value) == value + 0x1_0000;
      assert ToUint16(2 * (value + 0x1_0000)) == 2 * value + 0x1_0000;
    }
  }

  // ----- prediction -----

  /** The predictor as the encoder computes it, from the signs of xors. */
  function Predict(left: int, top: int, topleft: int): int {
    var ac, ab, bc := ToInt16(left - topleft), ToInt16(left - top), ToInt16(top - topleft);
    var grad := ToInt16(ToUint16(ac) + ToUint16(top));
    var clamp := if XorIsNegative(ab, bc) then top else left;
    if XorIsNegative(ac, bc) then grad else clamp
  }

  function Median(a: int, b: int, c: int): int {
    if a <= b then if b <= c then b else if a <= c then c else a
    else if a <= c then a else if b <= c then c else b
  }

  /** The clamped gradient of the format. */
  function ClampedGradient(left: int, top: int, topleft: int): int {
    Median(left, top, left + top - topleft)
  }

  const SAMPLE_LIMIT: int := 0x2000

  predicate IsSample(v: int) {
    -SAMPLE_LIMIT < v < SAMPLE_LIMIT
  }

  /** The sign trick computes the clamped gradient: nothing overflows for samples of up to 13 bits and sign. */
  lemma PredictIsClampedGradient(left: int, top: int, topleft: int)
    requires IsSample(left) && IsSample(top) && IsSample(topleft)
    ensures Predict(left, top, topleft) == ClampedGradient(left, top, topleft)
    ensures IsSample(ClampedGradient(left, top, topleft))
  {
    var ac, bc := left - topleft, top - topleft;
    assert ToInt16(ac) == ac && ToInt16(left - top) == left - top && ToInt16(bc) == bc;
    GradientDoesNotWrap(ac, top);
  }

  lemma GradientDoesNotWrap(ac: int, top: int)
    requires -2 * SAMPLE_LIMIT < ac < 2 * SAMPLE_LIMIT && IsSample(top)
    ensures ToInt16(ToUint16(ac) + ToUint16(top)) == ac + top
  {
    var u, v := if ac < 0 then 1 else 0, if top < 0 then 1 else 0;
    assert ToUint16(ac) == ac + 0x1_0000 * u && ToUint16(top) == top + 0x1_0000 * v;
    Wraps(ac + top, u + v);
  }

  lemma Wraps(s: int, k: nat)
    requires -0x8000 <= s < 0x8000 && k <= 2
    ensures ToInt16(s + 0x1_0000 * k) == s
  {
  }

  // ----- the colour transform -----

  datatype Pixel = Pixel(r: int, g: int, b: int)

  datatype YCoCg = YCoCg(y: int, co: int, cg: int)

  /** `>> 1` on signed numbers rounds down, as does division by 2 here. */
  function ToYCoCg(p: Pixel): YCoCg {
    var co := ToInt16(p.r - p.b);
    var tmp := ToInt16(p.b + co / 2);
    var cg := ToInt16(p.g - tmp);
    YCoCg(ToInt16(tmp + cg / 2), co, cg)
  }

  function ToPixel(c: YCoCg): Pixel {
    var tmp := c.y - c.cg / 2;
    var g := c.cg + tmp;
    var b := tmp - c.co / 2;
    Pixel(b + c.co, g, b)
  }

  predicate IsPixel(p: Pixel) {
    0 <= p.r < 0x1000 && 0 <= p.g < 0x1000 && 0 <= p.b < 0x1000
  }

  /** Up to 12 bits per channel nothing is lost; luma stays in range, chroma needs one more bit and a sign. */
  lemma PixelRoundTrip(p: Pixel)
    requires IsPixel(p)
    ensures ToPixel(ToYCoCg(p)) == p
    ensures var c := ToYCoCg(p);
            0 <= c.y < 0x1000 && -0x1000 < c.co < 0x1000 && -0x1000 < c.cg < 0x1000
  {
  }

  /** Four channels: the colour of a transparent pixel is not kept. */
  function WithAlpha(p: Pixel, a: int): YCoCg {
    if a != 0 then ToYCoCg(p) else YCoCg(0, 0, 0)
  }

  lemma PixelRoundTripAlpha(p: Pixel, a: int)
    requires IsPixel(p)
    ensures ToPixel(WithAlpha(p, a)) == (if a != 0 then p else Pixel(0, 0, 0))
  {
    PixelRoundTrip(p);
  }
}
