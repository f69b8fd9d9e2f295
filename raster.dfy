/**
 * Images and the cell raster: the row-major pixel grids the renderers
 * read, the `(0..extent).step_by(step)` walks over cell origins, and the
 * per-window accumulations of braille.rs and main.rs (linear colour totals
 * and the luma range of the in-bounds sub-cells).
 */
module Raster {
  import opened Numeric
  import opened ColorSpace
  import opened Geometry

  /** An image of `height` rows of `width` pixels each. */
  predicate IsImage<T>(img: seq<seq<T>>, width: nat, height: nat) {
    |img| == height && forall i :: 0 <= i < |img| ==> |img[i]| == width
  }

  /** How many values `(from..extent).step_by(step)` yields. */
  function StepCount(from: nat, extent: nat, step: nat): nat
    requires step > 0
    decreases extent - from
  {
    if from >= extent then 0 else 1 + StepCount(from + step, extent, step)
  }

  /** One more step of the walk: one origin fewer to go. */
  lemma StepCountNext(from: nat, extent: nat, step: nat, done: nat, total: nat)
    requires step > 0 && from < extent && done + StepCount(from, extent, step) == total
    ensures done + 1 + StepCount(from + step, extent, step) == total
  {
  }

  /** The walks of the renderers, with steps 2, 3 and 4, visit `ceil(extent / step)` origins. */
  lemma {:induction false} StepCountIsCeiling(from: nat, extent: nat, step: nat)
    requires (step == 2 || step == 3 || step == 4) && from < extent + step
    ensures StepCount(from, extent, step) == (extent + step - 1 - from) / step
    decreases extent - from
  {
    if from < extent {
      StepCountIsCeiling(from + step, extent, step);
      if step == 2 {
        assert (extent + 1 - from - 2) / 2 + 1 == (extent + 1 - from) / 2;
      } else if step == 3 {
        assert (extent + 2 - from - 3) / 3 + 1 == (extent + 2 - from) / 3;
      } else {
        assert (extent + 3 - from - 4) / 4 + 1 == (extent + 3 - from) / 4;
      }
    }
  }

  /**
   * The positions of a 2-wide, 4-tall window in the order of the nested
   * loops `for dy in 0..4 { for dx in 0..2 { .. } }` (no bits: these loops
   * only accumulate).
   */
  const Window2x4: seq<SubCell> := [
    SubCell(0, 0, 0), SubCell(1, 0, 0), SubCell(0, 1, 0), SubCell(1, 1, 0),
    SubCell(0, 2, 0), SubCell(1, 2, 0), SubCell(0, 3, 0), SubCell(1, 3, 0)
  ]

  /** The encoded value of one channel of sub-cell `c` of the cell at (x, y), as the renderers read it. */
  function Sample(color: seq<seq<Rgb8>>, width: nat, height: nat, x: nat, y: nat, c: SubCell, ch: Channel): real
    requires IsImage(color, width, height) && InBounds(x, y, c, width, height)
  {
    Unit(Component8(color[y + c.dy][x + c.dx], ch))
  }

  /**
   * `r_total` (or `g_total`, `b_total`) after the first `n` window
   * positions: the linear values of the in-bounds sub-cells, added in
   * window order.
   */
  function LinearTotal(cv: Curves, color: seq<seq<Rgb8>>, width: nat, height: nat, x: nat, y: nat,
                       window: seq<SubCell>, ch: Channel, n: nat): real
    requires IsImage(color, width, height) && n <= |window|
  {
    if n == 0 then 0.0
    else
      LinearTotal(cv, color, width, height, x, y, window, ch, n - 1)
      + (if InBounds(x, y, window[n - 1], width, height)
         then SrgbToLinear(cv, Sample(color, width, height, x, y, window[n - 1], ch)) else 0.0)
  }

  /** How many of the first `n` window positions lie on the image. */
  function OnImage(width: nat, height: nat, x: nat, y: nat, window: seq<SubCell>, n: nat): (k: nat)
    requires n <= |window|
    ensures k <= n
  {
    if n == 0 then 0
    else OnImage(width, height, x, y, window, n - 1) + (if InBounds(x, y, window[n - 1], width, height) then 1 else 0)
  }

  /**
   * A window whose on-image sub-cells all have the same channel value `v`
   * totals `k * srgb_to_linear(v)` for its `k` on-image sub-cells: the
   * clipped positions contribute nothing.
   */
  lemma {:induction false} LinearTotalOfUniform(cv: Curves, color: seq<seq<Rgb8>>, width: nat, height: nat, x: nat, y: nat,
                                                window: seq<SubCell>, ch: Channel, v: Byte, n: nat)
    requires IsImage(color, width, height) && n <= |window|
    requires forall k :: 0 <= k < n && InBounds(x, y, window[k], width, height)
                ==> Component8(color[y + window[k].dy][x + window[k].dx], ch) == v
    ensures LinearTotal(cv, color, width, height, x, y, window, ch, n)
         == Multiple(OnImage(width, height, x, y, window, n), SrgbToLinear(cv, Unit(v)))
  {
    if n > 0 {
      LinearTotalOfUniform(cv, color, width, height, x, y, window, ch, v, n - 1);
      if InBounds(x, y, window[n - 1], width, height) {
        assert Sample(color, width, height, x, y, window[n - 1], ch) == Unit(v);
      }
    }
  }

  /**
   * The average of braille.rs and main.rs, `total / 8.0`, of an eight-position
   * window whose on-image sub-cells share the channel value `v`: the linear
   * value of `v` when the whole window lies on the image, and strictly less
   * when the right or bottom edge clips it (and that value is positive), so a
   * clipped cell comes out darker than its pixels.
   */
  lemma WindowMeanOfUniform(cv: Curves, color: seq<seq<Rgb8>>, width: nat, height: nat, x: nat, y: nat,
                            window: seq<SubCell>, ch: Channel, v: Byte)
    requires IsImage(color, width, height) && |window| == 8
    requires forall k :: 0 <= k < |window| && InBounds(x, y, window[k], width, height)
                ==> Component8(color[y + window[k].dy][x + window[k].dx], ch) == v
    ensures var k := OnImage(width, height, x, y, window, 8);
            var mean := LinearTotal(cv, color, width, height, x, y, window, ch, 8) / 8.0;
            var lin := SrgbToLinear(cv, Unit(v));
            (k == 8 ==> mean == lin) && (k < 8 && lin > 0.0 ==> mean < lin)
  {
    var k := OnImage(width, height, x, y, window, 8);
    var lin := SrgbToLinear(cv, Unit(v));
    LinearTotalOfUniform(cv, color, width, height, x, y, window, ch, v, 8);
    MultipleIsProduct(8, lin);
    if k < 8 && lin > 0.0 {
      MultipleBelow(k, 8, lin);
    }
  }

  /** A cell wholly on the image keeps the value of its uniform pixels. */
  lemma WholeWindowMean(cv: Curves, color: seq<seq<Rgb8>>, width: nat, height: nat, x: nat, y: nat, ch: Channel, v: Byte)
    requires IsImage(color, width, height) && x + 1 < width && y + 3 < height
    requires forall k :: 0 <= k < |Window2x4| ==> Component8(color[y + Window2x4[k].dy][x + Window2x4[k].dx], ch) == v
    ensures LinearTotal(cv, color, width, height, x, y, Window2x4, ch, 8) / 8.0 == SrgbToLinear(cv, Unit(v))
  {
    assert forall j :: 0 <= j < |Window2x4| ==> Window2x4[j].dx <= 1 && Window2x4[j].dy <= 3;
    OnImageAll(width, height, x, y, Window2x4, |Window2x4|);
    WindowMeanOfUniform(cv, color, width, height, x, y, Window2x4, ch, v);
  }

  lemma {:induction false} OnImageAll(width: nat, height: nat, x: nat, y: nat, window: seq<SubCell>, n: nat)
    requires n <= |window| && forall j :: 0 <= j < n ==> InBounds(x, y, window[j], width, height)
    ensures OnImage(width, height, x, y, window, n) == n
  {
    if n > 0 {
      OnImageAll(width, height, x, y, window, n - 1);
    }
  }

  /** The gray sample of sub-cell `c` of the cell at (x, y). */
  function GrayAt(gray: seq<seq<Byte>>, width: nat, height: nat, x: nat, y: nat, c: SubCell): Byte
    requires IsImage(gray, width, height) && InBounds(x, y, c, width, height)
  {
    gray[y + c.dy][x + c.dx]
  }

  /** `min_luma` after the first `n` window positions: starts at 255, lowered by each in-bounds sample. */
  function MinGray(gray: seq<seq<Byte>>, width: nat, height: nat, x: nat, y: nat, window: seq<SubCell>, n: nat): Byte
    requires IsImage(gray, width, height) && n <= |window|
  {
    if n == 0 then 255
    else
      var m := MinGray(gray, width, height, x, y, window, n - 1);
      if InBounds(x, y, window[n - 1], width, height) && GrayAt(gray, width, height, x, y, window[n - 1]) < m
      then GrayAt(gray, width, height, x, y, window[n - 1]) else m
  }

  /** `max_luma` after the first `n` window positions: starts at 0, raised by each in-bounds sample. */
  function MaxGray(gray: seq<seq<Byte>>, width: nat, height: nat, x: nat, y: nat, window: seq<SubCell>, n: nat): Byte
    requires IsImage(gray, width, height) && n <= |window|
  {
    if n == 0 then 0
    else
      var m := MaxGray(gray, width, height, x, y, window, n - 1);
      if InBounds(x, y, window[n - 1], width, height) && GrayAt(gray, width, height, x, y, window[n - 1]) > m
      then GrayAt(gray, width, height, x, y, window[n - 1]) else m
  }

  /** One window position of the colour loops: its linear values are added when it lies on the image. */
  method AddLinear(cv: Curves, color: seq<seq<Rgb8>>, width: nat, height: nat, x: nat, y: nat,
                   window: seq<SubCell>, k: nat, rTotal: real, gTotal: real, bTotal: real)
    returns (r': real, g': real, b': real)
    requires IsImage(color, width, height) && k < |window|
    requires rTotal == LinearTotal(cv, color, width, height, x, y, window, Red, k)
    requires gTotal == LinearTotal(cv, color, width, height, x, y, window, Green, k)
    requires bTotal == LinearTotal(cv, color, width, height, x, y, window, Blue, k)
    ensures r' == LinearTotal(cv, color, width, height, x, y, window, Red, k + 1)
    ensures g' == LinearTotal(cv, color, width, height, x, y, window, Green, k + 1)
    ensures b' == LinearTotal(cv, color, width, height, x, y, window, Blue, k + 1)
  {
    var c := window[k];
    r', g', b' := rTotal, gTotal, bTotal;
    if x + c.dx < width && y + c.dy < height {
      var pixel := color[y + c.dy][x + c.dx];
      assert Sample(color, width, height, x, y, c, Red) == Unit(pixel.r);
      assert Sample(color, width, height, x, y, c, Green) == Unit(pixel.g);
      assert Sample(color, width, height, x, y, c, Blue) == Unit(pixel.b);
      r' := rTotal + SrgbToLinear(cv, Unit(pixel.r));
      g' := gTotal + SrgbToLinear(cv, Unit(pixel.g));
      b' := bTotal + SrgbToLinear(cv, Unit(pixel.b));
    }
  }

  /** One window position of the gray loop: its sample lowers the minimum or raises the maximum. */
  method AddGray(gray: seq<seq<Byte>>, width: nat, height: nat, x: nat, y: nat,
                 window: seq<SubCell>, k: nat, minLuma: Byte, maxLuma: Byte)
    returns (min': Byte, max': Byte)
    requires IsImage(gray, width, height) && k < |window|
    requires minLuma == MinGray(gray, width, height, x, y, window, k)
    requires maxLuma == MaxGray(gray, width, height, x, y, window, k)
    ensures min' == MinGray(gray, width, height, x, y, window, k + 1)
    ensures max' == MaxGray(gray, width, height, x, y, window, k + 1)
  {
    var c := window[k];
    min', max' := minLuma, maxLuma;
    if x + c.dx < width && y + c.dy < height {
      var luma := gray[y + c.dy][x + c.dx];
      assert luma == GrayAt(gray, width, height, x, y, c);
      if luma < minLuma {
        min' := luma;
      }
      if luma > maxLuma {
        max' := luma;
      }
    }
  }

  /**
   * `min_luma` and `max_luma` bound every in-bounds sample of the window
   * and are themselves samples of it; with no in-bounds sample they keep
   * their initial values 255 and 0.
   */
  lemma {:induction false} GrayRange(gray: seq<seq<Byte>>, width: nat, height: nat, x: nat, y: nat, window: seq<SubCell>, n: nat)
    requires IsImage(gray, width, height) && n <= |window|
    ensures forall k :: 0 <= k < n && InBounds(x, y, window[k], width, height)
              ==> MinGray(gray, width, height, x, y, window, n) <= GrayAt(gray, width, height, x, y, window[k])
                  <= MaxGray(gray, width, height, x, y, window, n)
    ensures OnImage(width, height, x, y, window, n) > 0 ==>
              exists k :: 0 <= k < n && InBounds(x, y, window[k], width, height)
                 && MinGray(gray, width, height, x, y, window, n) == GrayAt(gray, width, height, x, y, window[k])
    ensures OnImage(width, height, x, y, window, n) > 0 ==>
              exists k :: 0 <= k < n && InBounds(x, y, window[k], width, height)
                 && MaxGray(gray, width, height, x, y, window, n) == GrayAt(gray, width, height, x, y, window[k])
    ensures OnImage(width, height, x, y, window, n) == 0 ==>
              MinGray(gray, width, height, x, y, window, n) == 255 && MaxGray(gray, width, height, x, y, window, n) == 0
  {
    if n > 0 {
      GrayRange(gray, width, height, x, y, window, n - 1);
    }
  }
}
