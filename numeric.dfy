/**
 * The numeric casts and helpers of the renderers, written out over
 * unbounded `int` and exact `real`: `f32::clamp`, `f32::round`, and the
 * saturating float-to-integer casts `as u8` and `as i16` of Rust, plus the
 * wrap-around of an `i16` subtraction.
 */
module Numeric {

  /** One 8-bit channel sample (`u8`). */
  type Byte = x: int | 0 <= x < 256

  /** `v.clamp(lo, hi)`. */
  function Clamp(v: real, lo: real, hi: real): (r: real)
    requires lo <= hi
    ensures lo <= r <= hi
    ensures lo <= v <= hi ==> r == v
    ensures v <= lo ==> r == lo
    ensures hi <= v ==> r == hi
  {
    if v < lo then lo else if v > hi then hi else v
  }

  /** `f32::trunc`: rounds toward zero. */
  function Trunc(v: real): (n: int)
    ensures v >= 0.0 ==> 0 <= n && n as real <= v < n as real + 1.0
    ensures v < 0.0 ==> n <= 0 && n as real - 1.0 < v <= n as real
  {
    if v >= 0.0 then v.Floor else -((-v).Floor)
  }

  /** `f32::round`: the nearest integer, halfway cases away from zero. */
  function Round(v: real): (n: int)
    ensures v >= 0.0 ==> v - 0.5 < n as real <= v + 0.5
    ensures v < 0.0 ==> v - 0.5 <= n as real < v + 0.5
  {
    if v >= 0.0 then (v + 0.5).Floor else -((-v + 0.5).Floor)
  }

  /** `v as u8` for a float: truncation toward zero, saturating at 0 and 255. */
  function SaturatingU8(v: real): (b: Byte)
    ensures 0.0 <= v < 256.0 ==> b == Trunc(v)
    ensures v < 0.0 ==> b == 0
    ensures 256.0 <= v ==> b == 255
  {
    if v <= 0.0 then 0 else if v >= 255.0 then 255 else Trunc(v)
  }

  /** `v as i16` for a float: truncation toward zero, saturating at the i16 range. */
  function SaturatingI16(v: real): (n: int)
    ensures -32768 <= n <= 32767
    ensures -32768.0 <= v < 32768.0 ==> n == Trunc(v)
  {
    var t := Trunc(v);
    if t < -32768 then -32768 else if t > 32767 then 32767 else t
  }

  /** Two's-complement wrap-around of an integer into the i16 range. */
  function WrapI16(n: int): (w: int)
    ensures -32768 <= w <= 32767
    ensures (w - n) % 65536 == 0
    ensures -32768 <= n <= 32767 ==> w == n
  {
    (n + 32768) % 65536 - 32768
  }

  /** `(v * 255.0).round() as u8`: the 8-bit value of a unit-scale channel. */
  function ScaleToU8(v: real): (b: Byte)
    ensures 0.0 <= v <= 1.0 ==> b == Round(v * 255.0)
  {
    SaturatingU8(Round(v * 255.0) as real)
  }

  /** A unit-scale channel is mapped to a byte within half a step of `v * 255`. */
  lemma ScaleToU8Nearest(v: real)
    requires 0.0 <= v <= 1.0
    ensures v * 255.0 - 0.5 < ScaleToU8(v) as real <= v * 255.0 + 0.5
    ensures v == 0.0 ==> ScaleToU8(v) == 0
    ensures v == 1.0 ==> ScaleToU8(v) == 255
  {
  }

  /**
   * The saturating cast already clamps: scaling a value outside [0,1]
   * gives the byte of the nearer end, so leaving out `.clamp(0.0, 1.0)`
   * before `(v * 255.0).round() as u8` changes nothing.
   */
  lemma ScaleToU8Clamps(v: real)
    ensures ScaleToU8(v) == ScaleToU8(Clamp(v, 0.0, 1.0))
  {
    if v > 1.0 {
      assert Round(v * 255.0) >= 255;
    } else if v < 0.0 {
      assert Round(v * 255.0) <= 0;
    }
  }

  /** `a.abs_diff(b)`. */
  function AbsDiff(a: int, b: int): (d: nat)
    ensures d == a - b || d == b - a
  {
    if a >= b then a - b else b - a
  }

  /** A mean of `n` equal terms is the term. */
  lemma DivCancel(n: real, v: real)
    requires n > 0.0
    ensures (n * v) / n == v
  {
  }

  /** `s` added to itself `k` times, starting from zero. */
  function Multiple(k: nat, s: real): real {
    if k == 0 then 0.0 else Multiple(k - 1, s) + s
  }

  lemma {:induction false} MultipleIsProduct(k: nat, s: real)
    ensures Multiple(k, s) == k as real * s
  {
    if k > 0 {
      MultipleIsProduct(k - 1, s);
      assert (k - 1) as real * s + s == k as real * s;
    }
  }

  /** Fewer copies of a positive value add up to less. */
  lemma {:induction false} MultipleBelow(k: nat, n: nat, s: real)
    requires k < n && s > 0.0
    ensures Multiple(k, s) < Multiple(n, s)
  {
    if k < n - 1 {
      MultipleBelow(k, n - 1, s);
    }
  }
}
