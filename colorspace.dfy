/**
 * The sRGB transfer curves and Rec. 709 luma used by every renderer.
 * The transcendental `powf` and `sqrt` of the float library are not
 * modelled: they are fields of a `Curves` value that every caller passes
 * in, so that each curve keeps its piecewise branches while the power
 * itself stays an uninterpreted parameter.
 */
module ColorSpace {
  import opened Numeric

  /** The float library's `powf(base, exponent)` and `sqrt`. */
  datatype Curves = Curves(powf: (real, real) -> real, sqrt: real -> real)

  /** A colour with one `f32` per channel, encoded or linear depending on use. */
  datatype Rgb = Rgb(r: real, g: real, b: real)

  /** A colour as printed in an escape sequence: one byte per channel. */
  datatype Rgb8 = Rgb8(r: Byte, g: Byte, b: Byte)

  const Black: Rgb := Rgb(0.0, 0.0, 0.0)
  const Black8: Rgb8 := Rgb8(0, 0, 0)

  /** The encoded value where the linear segment of `srgb_to_linear` ends. */
  const EncodedKnee: real := 0.04045
  /** The linear value where the linear segment of `linear_to_srgb` ends. */
  const LinearKnee: real := 0.0031308

  /** `srgb_to_linear`: decode one gamma-encoded channel to linear light. */
  function SrgbToLinear(cv: Curves, c: real): (l: real)
    ensures 0.0 <= c <= EncodedKnee ==> 0.0 <= l <= c
  {
    if c <= EncodedKnee then c / 12.92 else cv.powf((c + 0.055) / 1.055, 2.4)
  }

  /** `linear_to_srgb`: encode one linear-light channel. */
  function LinearToSrgb(cv: Curves, l: real): (c: real)
    ensures 0.0 <= l <= LinearKnee ==> l <= c <= 12.92 * LinearKnee
  {
    if l <= LinearKnee then 12.92 * l else 1.055 * cv.powf(l, 1.0 / 2.4) - 0.055
  }

  /** Rec. 709 luma of an encoded colour. */
  function Luma709(r: real, g: real, b: real): (y: real)
    ensures 0.0 <= r <= 1.0 && 0.0 <= g <= 1.0 && 0.0 <= b <= 1.0 ==> 0.0 <= y <= 1.0
    ensures r == g == b ==> y == r
  {
    0.2126 * r + 0.7152 * g + 0.0722 * b
  }

  /** A channel sample scaled to [0,1] as the renderers do (`p as f32 / 255.0`). */
  function Unit(b: Byte): (v: real)
    ensures 0.0 <= v <= 1.0
    ensures v == 0.0 <==> b == 0
    ensures v == 1.0 <==> b == 255
  {
    b as real / 255.0
  }

  /** A colour channel. */
  datatype Channel = Red | Green | Blue

  function Component(c: Rgb, ch: Channel): real {
    match ch
    case Red => c.r
    case Green => c.g
    case Blue => c.b
  }

  function Component8(c: Rgb8, ch: Channel): Byte {
    match ch
    case Red => c.r
    case Green => c.g
    case Blue => c.b
  }

  /** `(linear_to_srgb(l).clamp(0.0, 1.0) * 255.0).round() as u8`: a linear channel as an escape-sequence byte. */
  function EncodeByte(cv: Curves, l: real): Byte {
    ScaleToU8(Clamp(LinearToSrgb(cv, l), 0.0, 1.0))
  }

  /**
   * Below the encoded knee (strictly: where the decoded value stays below
   * the linear knee) encoding undoes decoding exactly.
   */
  lemma LinearSegmentRoundTrip(cv: Curves, c: real)
    requires 0.0 <= c && c / 12.92 <= LinearKnee
    ensures LinearToSrgb(cv, SrgbToLinear(cv, c)) == c
  {
  }

  /**
   * The two knees do not meet: the encoded knee itself decodes to a value
   * above the linear knee, so encoding it again leaves the linear segment.
   */
  lemma KneesDisagree(cv: Curves)
    ensures SrgbToLinear(cv, EncodedKnee) > LinearKnee
    ensures LinearToSrgb(cv, SrgbToLinear(cv, EncodedKnee))
         == 1.055 * cv.powf(EncodedKnee / 12.92, 1.0 / 2.4) - 0.055
  {
  }

  /** Black decodes and encodes to black, whatever the power function. */
  lemma BlackIsFixed(cv: Curves)
    ensures SrgbToLinear(cv, 0.0) == 0.0 && LinearToSrgb(cv, 0.0) == 0.0
  {
  }

  /**
   * White decodes and encodes to white for any power function that maps
   * base 1 to 1, as the real `powf` does.
   */
  lemma WhiteIsFixed(cv: Curves)
    requires cv.powf(1.0, 2.4) == 1.0 && cv.powf(1.0, 1.0 / 2.4) == 1.0
    ensures SrgbToLinear(cv, 1.0) == 1.0 && LinearToSrgb(cv, 1.0) == 1.0
  {
  }
}
