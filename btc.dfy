/**
 * Block Truncation Coding of one character cell, as quadrant.rs,
 * sextant.rs and octant.rs do it: the sub-cells on the image are collected
 * in table order, their mean luma is the threshold, those at or above it
 * form the foreground (and set their bits), the rest the background, and
 * each group is drawn in the average of its colours taken in linear light.
 */
module Btc {
  import opened Numeric
  import opened ColorSpace
  import opened Geometry
  import opened Ansi
  import opened Seqs

  /** `PixelData`: a sub-cell's luma, its encoded channels in [0,1] and its mask bit. */
  datatype PixelData = PixelData(luma: real, r: real, g: real, b: real, bit: bv8)

  /** The pixel of a sub-cell whose encoded colour is `c`. */
  function Pixel(c: Rgb, bit: bv8): (p: PixelData)
    ensures p.r == c.r && p.g == c.g && p.b == c.b && p.bit == bit
    ensures 0.0 <= c.r <= 1.0 && 0.0 <= c.g <= 1.0 && 0.0 <= c.b <= 1.0 ==> 0.0 <= p.luma <= 1.0
  {
    PixelData(Luma709(c.r, c.g, c.b), c.r, c.g, c.b, bit)
  }

  /**
   * The `pixels` vector of a cell at (x, y) after the first `n` table
   * entries: one entry for each of them that lies on the image, in table
   * order. `samples[k]` is the encoded colour of sub-cell `k` (ignored when
   * it lies off the image).
   */
  function Collect(x: nat, y: nat, width: nat, height: nat, coords: seq<SubCell>, samples: seq<Rgb>, n: nat): (ps: seq<PixelData>)
    requires |samples| == |coords| && n <= |coords|
    ensures |ps| <= n
  {
    if n == 0 then []
    else
      Collect(x, y, width, height, coords, samples, n - 1)
      + (if InBounds(x, y, coords[n - 1], width, height) then [Pixel(samples[n - 1], coords[n - 1].bit)] else [])
  }

  /** The whole `pixels` vector. */
  function Pixels(x: nat, y: nat, width: nat, height: nat, coords: seq<SubCell>, samples: seq<Rgb>): seq<PixelData>
    requires |samples| == |coords|
  {
    Collect(x, y, width, height, coords, samples, |coords|)
  }

  /**
   * The first table entry is the cell's origin, which the raster walk only
   * visits on the image, so `pixels` is never empty and the renderers'
   * "empty cell" branch is never taken.
   */
  lemma {:induction false} CollectNonEmpty(x: nat, y: nat, width: nat, height: nat, coords: seq<SubCell>, samples: seq<Rgb>, n: nat)
    requires |samples| == |coords| && 1 <= n <= |coords| && coords[0].dx == 0 && coords[0].dy == 0
    requires x < width && y < height
    ensures |Collect(x, y, width, height, coords, samples, n)| >= 1
  {
    if n > 1 {
      CollectNonEmpty(x, y, width, height, coords, samples, n - 1);
    }
  }

  /** `luma_sum`, added up in order. */
  function LumaSum(ps: seq<PixelData>): real {
    if ps == [] then 0.0 else LumaSum(ps[..|ps| - 1]) + ps[|ps| - 1].luma
  }

  /** `luma_sum / pixels.len()`. */
  function Threshold(ps: seq<PixelData>): real
    requires |ps| > 0
  {
    LumaSum(ps) / |ps| as real
  }

  /** `fg_group`: the pixels with `luma >= threshold`, in order. */
  function Foreground(ps: seq<PixelData>, t: real): seq<PixelData> {
    if ps == [] then []
    else Foreground(ps[..|ps| - 1], t) + (if ps[|ps| - 1].luma >= t then [ps[|ps| - 1]] else [])
  }

  /** `bg_group`: the other pixels, in order. */
  function Background(ps: seq<PixelData>, t: real): seq<PixelData> {
    if ps == [] then []
    else Background(ps[..|ps| - 1], t) + (if ps[|ps| - 1].luma >= t then [] else [ps[|ps| - 1]])
  }

  /** The bits of a group ORed together. */
  function GroupMask(ps: seq<PixelData>): bv8 {
    if ps == [] then 0 else GroupMask(ps[..|ps| - 1]) | ps[|ps| - 1].bit
  }

  /** `if b { vec![p] } else { vec![] }`. */
  function Keep(p: PixelData, b: bool): seq<PixelData> {
    if b then [p] else []
  }

  /** One more pixel adds its luma to the sum and joins exactly one group. */
  lemma SplitSnoc(ps: seq<PixelData>, p: PixelData, t: real)
    ensures LumaSum(ps + [p]) == LumaSum(ps) + p.luma
    ensures Foreground(ps + [p], t) == Foreground(ps, t) + Keep(p, p.luma >= t)
    ensures Background(ps + [p], t) == Background(ps, t) + Keep(p, p.luma < t)
  {
    assert (ps + [p])[..|ps|] == ps;
  }

  /** The mask of a two-pixel group. */
  lemma PairMask(p: PixelData, q: PixelData)
    ensures GroupMask([p, q]) == p.bit | q.bit
  {
    GroupMaskSnoc([], p);
    assert [] + [p] == [p];
    GroupMaskSnoc([p], q);
    assert [p] + [q] == [p, q];
  }

  /** Two pixels of the colour `c` make a group of that colour. */
  lemma PairColored(p: PixelData, q: PixelData, c: Rgb)
    requires p.r == q.r == c.r && p.g == q.g == c.g && p.b == q.b == c.b
    ensures AllColored([p, q], c)
  {
  }

  /** The luma sum and the split of a four-pixel cell, pixel by pixel. */
  lemma FourSplit(p0: PixelData, p1: PixelData, p2: PixelData, p3: PixelData, t: real)
    ensures LumaSum([p0, p1, p2, p3]) == p0.luma + p1.luma + p2.luma + p3.luma
    ensures Foreground([p0, p1, p2, p3], t)
            == Keep(p0, p0.luma >= t) + Keep(p1, p1.luma >= t) + Keep(p2, p2.luma >= t) + Keep(p3, p3.luma >= t)
    ensures Background([p0, p1, p2, p3], t)
            == Keep(p0, p0.luma < t) + Keep(p1, p1.luma < t) + Keep(p2, p2.luma < t) + Keep(p3, p3.luma < t)
  {
    SplitSnoc([], p0, t);
    assert [] + [p0] == [p0];
    SplitSnoc([p0], p1, t);
    assert [p0] + [p1] == [p0, p1];
    SplitSnoc([p0, p1], p2, t);
    assert [p0, p1] + [p2] == [p0, p1, p2];
    SplitSnoc([p0, p1, p2], p3, t);
    assert [p0, p1, p2] + [p3] == [p0, p1, p2, p3];
  }

  /** A four-entry table wholly on the image collects one pixel per entry, in order. */
  lemma CollectFour(x: nat, y: nat, width: nat, height: nat, coords: seq<SubCell>, samples: seq<Rgb>)
    requires |samples| == |coords| == 4
    requires forall k :: 0 <= k < 4 ==> InBounds(x, y, coords[k], width, height)
    ensures Pixels(x, y, width, height, coords, samples)
            == [Pixel(samples[0], coords[0].bit), Pixel(samples[1], coords[1].bit),
                Pixel(samples[2], coords[2].bit), Pixel(samples[3], coords[3].bit)]
  {
    var q := seq(4, k requires 0 <= k < 4 => Pixel(samples[k], coords[k].bit));
    assert Collect(x, y, width, height, coords, samples, 1) == q[..1];
    assert Collect(x, y, width, height, coords, samples, 2) == q[..2];
    assert Collect(x, y, width, height, coords, samples, 3) == q[..3];
    assert Collect(x, y, width, height, coords, samples, 4) == q;
  }

  /** The two groups together hold every pixel as often as `pixels` does. */
  lemma {:induction false} PartitionSplits(ps: seq<PixelData>, t: real)
    ensures multiset(Foreground(ps, t)) + multiset(Background(ps, t)) == multiset(ps)
  {
    if ps != [] {
      var n := |ps| - 1;
      PartitionSplits(ps[..n], t);
      assert ps == ps[..n] + [ps[n]];
    }
  }

  /**
   * The foreground holds only pixels at or above the threshold and the
   * background only pixels below it, so no pixel is in both.
   */
  lemma {:induction false} PartitionSides(ps: seq<PixelData>, t: real)
    ensures forall p :: p in Foreground(ps, t) ==> p in ps && p.luma >= t
    ensures forall p :: p in Background(ps, t) ==> p in ps && p.luma < t
  {
    if ps != [] {
      var n := |ps| - 1;
      PartitionSides(ps[..n], t);
      assert ps == ps[..n] + [ps[n]];
    }
  }

  /** A pixel at or above the threshold is in the foreground. */
  lemma {:induction false} ForegroundHas(ps: seq<PixelData>, t: real, k: nat)
    requires k < |ps| && ps[k].luma >= t
    ensures ps[k] in Foreground(ps, t)
  {
    var n := |ps| - 1;
    if k < n {
      ForegroundHas(ps[..n], t, k);
    }
  }

  /** The index of a brightest pixel. */
  function Brightest(ps: seq<PixelData>): (k: nat)
    requires |ps| > 0
    ensures k < |ps| && forall j :: 0 <= j < |ps| ==> ps[j].luma <= ps[k].luma
  {
    if |ps| == 1 then 0
    else
      var k := Brightest(ps[..|ps| - 1]);
      if ps[|ps| - 1].luma > ps[k].luma then |ps| - 1 else k
  }

  lemma {:induction false} SumAtMost(ps: seq<PixelData>, m: real)
    requires forall j :: 0 <= j < |ps| ==> ps[j].luma <= m
    ensures LumaSum(ps) <= |ps| as real * m
  {
    if ps != [] {
      SumAtMost(ps[..|ps| - 1], m);
    }
  }

  /**
   * Over exact arithmetic the mean never exceeds the largest luma, so a
   * cell with any pixel has a non-empty foreground and a mask that is not
   * zero.
   */
  lemma ForegroundNonEmpty(ps: seq<PixelData>)
    requires |ps| > 0
    ensures |Foreground(ps, Threshold(ps))| > 0
  {
    var k := Brightest(ps);
    SumAtMost(ps, ps[k].luma);
    ForegroundHas(ps, Threshold(ps), k);
  }

  lemma {:induction false} SumOfEqual(ps: seq<PixelData>, v: real)
    requires forall j :: 0 <= j < |ps| ==> ps[j].luma == v
    ensures LumaSum(ps) == |ps| as real * v
  {
    if ps != [] {
      SumOfEqual(ps[..|ps| - 1], v);
    }
  }

  lemma {:induction false} AllAtLeast(ps: seq<PixelData>, t: real)
    requires forall j :: 0 <= j < |ps| ==> ps[j].luma >= t
    ensures Foreground(ps, t) == ps && Background(ps, t) == []
  {
    if ps != [] {
      AllAtLeast(ps[..|ps| - 1], t);
      InitLast(ps);
    }
  }

  lemma UniformThreshold(ps: seq<PixelData>, v: real)
    requires |ps| > 0 && forall j :: 0 <= j < |ps| ==> ps[j].luma == v
    ensures Threshold(ps) == v
  {
    SumOfEqual(ps, v);
    DivCancel(|ps| as real, v);
  }

  /**
   * When every luma is the same, every pixel is foreground: the cell is
   * drawn as the full glyph over an empty background.
   */
  lemma UniformIsAllForeground(ps: seq<PixelData>, v: real)
    requires |ps| > 0 && forall j :: 0 <= j < |ps| ==> ps[j].luma == v
    ensures Threshold(ps) == v
    ensures Foreground(ps, Threshold(ps)) == ps && Background(ps, Threshold(ps)) == []
  {
    UniformThreshold(ps, v);
    AllAtLeast(ps, v);
  }

  /**
   * The loop `for p in pixels`: pushes each pixel onto its group and ORs the
   * bit of each foreground pixel into `char_mask`.
   */
  method Partition(ps: seq<PixelData>, t: real) returns (fg: seq<PixelData>, bg: seq<PixelData>, mask: bv8)
    ensures fg == Foreground(ps, t) && bg == Background(ps, t)
    ensures mask == GroupMask(fg)
  {
    fg, bg, mask := [], [], 0;
    var i := 0;
    while i < |ps|
      invariant i <= |ps|
      invariant fg == Foreground(ps[..i], t) && bg == Background(ps[..i], t)
      invariant mask == GroupMask(fg)
    {
      var p := ps[i];
      PartitionNext(ps, t, i);
      if p.luma >= t {
        GroupMaskSnoc(fg, p);
        fg := fg + [p];
        mask := mask | p.bit;
      } else {
        bg := bg + [p];
      }
      i := i + 1;
    }
    assert ps[..|ps|] == ps;
  }

  lemma PartitionNext(ps: seq<PixelData>, t: real, i: nat)
    requires i < |ps|
    ensures Foreground(ps[..i + 1], t) == Foreground(ps[..i], t) + (if ps[i].luma >= t then [ps[i]] else [])
    ensures Background(ps[..i + 1], t) == Background(ps[..i], t) + (if ps[i].luma >= t then [] else [ps[i]])
  {
    assert ps[..i + 1][..i] == ps[..i];
  }

  lemma GroupMaskSnoc(ps: seq<PixelData>, p: PixelData)
    ensures GroupMask(ps + [p]) == GroupMask(ps) | p.bit
  {
    assert (ps + [p])[..|ps|] == ps;
  }

  /** Which of the first `n` table entries end up in the foreground: those on the image whose luma is at least `t`. */
  function Selected(x: nat, y: nat, width: nat, height: nat, coords: seq<SubCell>, samples: seq<Rgb>, t: real, n: nat): (sel: seq<bool>)
    requires |samples| == |coords| && n <= |coords|
    ensures |sel| == n
  {
    if n == 0 then []
    else
      Selected(x, y, width, height, coords, samples, t, n - 1)
      + [InBounds(x, y, coords[n - 1], width, height) && Pixel(samples[n - 1], coords[n - 1].bit).luma >= t]
  }

  lemma {:induction false} SelectedAt(x: nat, y: nat, width: nat, height: nat, coords: seq<SubCell>, samples: seq<Rgb>, t: real, n: nat, k: nat)
    requires |samples| == |coords| && k < n <= |coords|
    ensures Selected(x, y, width, height, coords, samples, t, n)[k]
        == (InBounds(x, y, coords[k], width, height) && Pixel(samples[k], coords[k].bit).luma >= t)
  {
    if k < n - 1 {
      SelectedAt(x, y, width, height, coords, samples, t, n - 1, k);
    }
  }

  /** Appending a pixel to `pixels` ORs its bit into the foreground mask exactly when it reaches the threshold. */
  lemma ForegroundMaskSnoc(pre: seq<PixelData>, p: PixelData, t: real)
    ensures GroupMask(Foreground(pre + [p], t)) == GroupMask(Foreground(pre, t)) | (if p.luma >= t then p.bit else 0)
  {
    var fg := Foreground(pre, t);
    assert (pre + [p])[..|pre|] == pre;
    if p.luma >= t {
      assert (fg + [p])[..|fg|] == fg;
    } else {
      assert fg + [] == fg;
    }
  }

  /** The bits of the foreground among the first `n` table entries, ORed in table order. */
  function SelectedMask(x: nat, y: nat, width: nat, height: nat, coords: seq<SubCell>, samples: seq<Rgb>, t: real, n: nat): bv8
    requires |samples| == |coords| && n <= |coords|
  {
    if n == 0 then 0
    else
      SelectedMask(x, y, width, height, coords, samples, t, n - 1)
      | (if InBounds(x, y, coords[n - 1], width, height) && Pixel(samples[n - 1], coords[n - 1].bit).luma >= t
         then coords[n - 1].bit else 0)
  }

  /** Collecting the pixels and then ORing the foreground's bits gives that mask. */
  lemma {:induction false} GroupMaskIsSelectedMask(x: nat, y: nat, width: nat, height: nat, coords: seq<SubCell>, samples: seq<Rgb>, t: real, n: nat)
    requires |samples| == |coords| && n <= |coords|
    ensures GroupMask(Foreground(Collect(x, y, width, height, coords, samples, n), t))
         == SelectedMask(x, y, width, height, coords, samples, t, n)
  {
    if n > 0 {
      GroupMaskIsSelectedMask(x, y, width, height, coords, samples, t, n - 1);
      var pre := Collect(x, y, width, height, coords, samples, n - 1);
      if InBounds(x, y, coords[n - 1], width, height) {
        ForegroundMaskSnoc(pre, Pixel(samples[n - 1], coords[n - 1].bit), t);
      } else {
        assert pre + [] == pre;
      }
    }
  }

  /** That mask is the table mask of the selected entries. */
  lemma {:induction false} SelectedMaskIsMaskOf(x: nat, y: nat, width: nat, height: nat, coords: seq<SubCell>, samples: seq<Rgb>, t: real, n: nat)
    requires |samples| == |coords| && n <= |coords|
    ensures SelectedMask(x, y, width, height, coords, samples, t, n)
         == MaskOf(coords[..n], Selected(x, y, width, height, coords, samples, t, n))
  {
    if n > 0 {
      var sel := Selected(x, y, width, height, coords, samples, t, n);
      SelectedMaskIsMaskOf(x, y, width, height, coords, samples, t, n - 1);
      assert sel[..n - 1] == Selected(x, y, width, height, coords, samples, t, n - 1);
      MaskOfSnoc(coords, sel, n);
    }
  }

  /**
   * The BTC mask of a cell: with a geometry whose bits are distinct, bit
   * `k` is set exactly when sub-cell `k` lies on the image and its luma is
   * at least the threshold, and no bit outside the full mask is ever set.
   */
  lemma BtcMaskBits(x: nat, y: nat, width: nat, height: nat, coords: seq<SubCell>, samples: seq<Rgb>, t: real, k: nat)
    requires |samples| == |coords| && k < |coords| && DistinctBits(coords)
    ensures GroupMask(Foreground(Pixels(x, y, width, height, coords, samples), t)) & coords[k].bit != 0
            <==> InBounds(x, y, coords[k], width, height) && Pixel(samples[k], coords[k].bit).luma >= t
    ensures GroupMask(Foreground(Pixels(x, y, width, height, coords, samples), t)) | FullMask(coords) == FullMask(coords)
  {
    var n := |coords|;
    var sel := Selected(x, y, width, height, coords, samples, t, n);
    GroupMaskIsSelectedMask(x, y, width, height, coords, samples, t, n);
    SelectedMaskIsMaskOf(x, y, width, height, coords, samples, t, n);
    assert coords[..n] == coords;
    SelectedAt(x, y, width, height, coords, samples, t, n, k);
    MaskBit(coords, sel, k);
    MaskWithinFull(coords, sel);
  }

  function ChannelOf(p: PixelData, ch: Channel): real {
    match ch
    case Red => p.r
    case Green => p.g
    case Blue => p.b
  }

  /** `r_sum += srgb_to_linear(p.r)` (or `g`, `b`) over a group, in order. */
  function SumLinear(cv: Curves, ps: seq<PixelData>, ch: Channel): real {
    if ps == [] then 0.0 else SumLinear(cv, ps[..|ps| - 1], ch) + SrgbToLinear(cv, ChannelOf(ps[|ps| - 1], ch))
  }

  /** The linear-light mean of one channel of a non-empty group. */
  function MeanLinear(cv: Curves, ps: seq<PixelData>, ch: Channel): real
    requires |ps| > 0
  {
    SumLinear(cv, ps, ch) / |ps| as real
  }

  /** quadrant.rs and sextant.rs `average_color`: black for an empty group. */
  function AverageColor(cv: Curves, ps: seq<PixelData>): Rgb8 {
    if ps == [] then Black8
    else Rgb8(EncodeByte(cv, MeanLinear(cv, ps, Red)), EncodeByte(cv, MeanLinear(cv, ps, Green)),
              EncodeByte(cv, MeanLinear(cv, ps, Blue)))
  }

  /** octant.rs `average_color_linear`: `None` for an empty group. */
  function AverageLinear(cv: Curves, ps: seq<PixelData>): Option<Rgb> {
    if ps == [] then None
    else Some(Rgb(MeanLinear(cv, ps, Red), MeanLinear(cv, ps, Green), MeanLinear(cv, ps, Blue)))
  }

  /** A group whose pixels all have the same colour `c`. */
  predicate AllColored(ps: seq<PixelData>, c: Rgb) {
    forall j :: 0 <= j < |ps| ==> ps[j].r == c.r && ps[j].g == c.g && ps[j].b == c.b
  }

  /** A window whose samples on the image all have the colour `u` collects pixels of that colour and its luma. */
  lemma {:induction false} CollectOfSameColor(x: nat, y: nat, width: nat, height: nat, coords: seq<SubCell>,
                                              samples: seq<Rgb>, u: Rgb, n: nat)
    requires |samples| == |coords| && n <= |coords|
    requires forall k :: 0 <= k < n && InBounds(x, y, coords[k], width, height) ==> samples[k] == u
    ensures var ps := Collect(x, y, width, height, coords, samples, n);
            && AllColored(ps, u)
            && (forall j :: 0 <= j < |ps| ==> ps[j].luma == Luma709(u.r, u.g, u.b))
            && ((forall k :: 0 <= k < n ==> InBounds(x, y, coords[k], width, height)) ==> |ps| == n)
  {
    if n > 0 {
      CollectOfSameColor(x, y, width, height, coords, samples, u, n - 1);
      var prev := Collect(x, y, width, height, coords, samples, n - 1);
      if InBounds(x, y, coords[n - 1], width, height) {
        var q := Pixel(u, coords[n - 1].bit);
        assert Collect(x, y, width, height, coords, samples, n) == prev + [q];
      }
    }
  }

  lemma {:induction false} SumOfSameChannel(cv: Curves, ps: seq<PixelData>, ch: Channel, v: real)
    requires forall j :: 0 <= j < |ps| ==> ChannelOf(ps[j], ch) == v
    ensures SumLinear(cv, ps, ch) == |ps| as real * SrgbToLinear(cv, v)
  {
    if ps != [] {
      SumOfSameChannel(cv, ps[..|ps| - 1], ch, v);
    }
  }

  lemma MeanOfSameChannel(cv: Curves, ps: seq<PixelData>, ch: Channel, v: real)
    requires |ps| > 0 && forall j :: 0 <= j < |ps| ==> ChannelOf(ps[j], ch) == v
    ensures MeanLinear(cv, ps, ch) == SrgbToLinear(cv, v)
  {
    SumOfSameChannel(cv, ps, ch, v);
    DivCancel(|ps| as real, SrgbToLinear(cv, v));
  }

  /** Averaging a group of one colour gives back that colour's linear value. */
  lemma AverageOfSameColor(cv: Curves, ps: seq<PixelData>, c: Rgb)
    requires |ps| > 0 && AllColored(ps, c)
    ensures AverageLinear(cv, ps) == Some(Rgb(SrgbToLinear(cv, c.r), SrgbToLinear(cv, c.g), SrgbToLinear(cv, c.b)))
  {
    MeanOfSameChannel(cv, ps, Red, c.r);
    MeanOfSameChannel(cv, ps, Green, c.g);
    MeanOfSameChannel(cv, ps, Blue, c.b);
  }

  /**
   * A group that is all black is drawn black, and one that is all white is
   * drawn white whenever the power function maps base 1 to 1.
   */
  lemma AverageOfBlackAndWhite(cv: Curves, ps: seq<PixelData>)
    requires |ps| > 0
    ensures AllColored(ps, Black) ==> AverageColor(cv, ps) == Black8
    ensures cv.powf(1.0, 2.4) == 1.0 && cv.powf(1.0, 1.0 / 2.4) == 1.0 && AllColored(ps, Rgb(1.0, 1.0, 1.0))
            ==> AverageColor(cv, ps) == Rgb8(255, 255, 255)
  {
    if AllColored(ps, Black) {
      AverageOfSameColor(cv, ps, Black);
      BlackIsFixed(cv);
    }
    if cv.powf(1.0, 2.4) == 1.0 && cv.powf(1.0, 1.0 / 2.4) == 1.0 && AllColored(ps, Rgb(1.0, 1.0, 1.0)) {
      AverageOfSameColor(cv, ps, Rgb(1.0, 1.0, 1.0));
      WhiteIsFixed(cv);
    }
  }

  /** The summing loop of `average_color` (quadrant.rs, sextant.rs). */
  method AverageColorOf(cv: Curves, ps: seq<PixelData>) returns (c: Rgb8)
    ensures c == AverageColor(cv, ps)
  {
    if |ps| == 0 {
      return Black8;
    }
    var rSum, gSum, bSum := 0.0, 0.0, 0.0;
    var i := 0;
    while i < |ps|
      invariant i <= |ps|
      invariant rSum == SumLinear(cv, ps[..i], Red) && gSum == SumLinear(cv, ps[..i], Green)
      invariant bSum == SumLinear(cv, ps[..i], Blue)
    {
      assert ps[..i + 1][..i] == ps[..i];
      rSum := rSum + SrgbToLinear(cv, ps[i].r);
      gSum := gSum + SrgbToLinear(cv, ps[i].g);
      bSum := bSum + SrgbToLinear(cv, ps[i].b);
      i := i + 1;
    }
    assert ps[..|ps|] == ps;
    var count := |ps| as real;
    c := Rgb8(EncodeByte(cv, rSum / count), EncodeByte(cv, gSum / count), EncodeByte(cv, bSum / count));
  }

  /** The summing loop of `average_color_linear` (octant.rs). */
  method AverageColorLinear(cv: Curves, ps: seq<PixelData>) returns (c: Option<Rgb>)
    ensures c == AverageLinear(cv, ps)
  {
    if |ps| == 0 {
      return None;
    }
    var rSum, gSum, bSum := 0.0, 0.0, 0.0;
    var i := 0;
    while i < |ps|
      invariant i <= |ps|
      invariant rSum == SumLinear(cv, ps[..i], Red) && gSum == SumLinear(cv, ps[..i], Green)
      invariant bSum == SumLinear(cv, ps[..i], Blue)
    {
      assert ps[..i + 1][..i] == ps[..i];
      rSum := rSum + SrgbToLinear(cv, ps[i].r);
      gSum := gSum + SrgbToLinear(cv, ps[i].g);
      bSum := bSum + SrgbToLinear(cv, ps[i].b);
      i := i + 1;
    }
    assert ps[..|ps|] == ps;
    var count := |ps| as real;
    c := Some(Rgb(rSum / count, gSum / count, bSum / count));
  }

  /** The SGR parameters of a cell: truecolour foreground, then truecolour background. */
  function ColorParams(fg: Rgb8, bg: Rgb8): seq<nat> {
    [38, 2, fg.r, fg.g, fg.b, 48, 2, bg.r, bg.g, bg.b]
  }

  /** `ESC[38;2;R;G;B;48;2;R;G;Bm<glyph>`: the text of one cell; the reset comes only at the end of the line. */
  function ColorText(fg: Rgb8, bg: Rgb8, glyph: char): string {
    Sgr(ColorParams(fg, bg)) + [glyph]
  }

  /** A cell's text decodes back to both colours, followed by the glyph. */
  lemma ColorTextDecodes(fg: Rgb8, bg: Rgb8, glyph: char)
    ensures ParseSgr(ColorText(fg, bg, glyph)) == Some((ColorParams(fg, bg), [glyph]))
  {
    SgrRoundTrip(ColorParams(fg, bg), [glyph]);
  }

  lemma {:induction false} CollectBits(x: nat, y: nat, width: nat, height: nat, coords: seq<SubCell>, samples: seq<Rgb>, n: nat)
    requires |samples| == |coords| && n <= |coords| && DistinctBits(coords)
    ensures forall p :: p in Collect(x, y, width, height, coords, samples, n) ==> p.bit != 0
  {
    if n > 0 {
      CollectBits(x, y, width, height, coords, samples, n - 1);
    }
  }

  /**
   * A cell with any pixel on the image never gets the empty mask: the
   * foreground is not empty and each of its pixels carries a bit. The
   * blank glyph of index 0 (and U+2800 for octant.rs) is never drawn, and
   * the mask never exceeds the one with every table bit set.
   */
  lemma BtcMaskRange(x: nat, y: nat, width: nat, height: nat, coords: seq<SubCell>, samples: seq<Rgb>)
    requires |samples| == |coords| && DistinctBits(coords)
    requires Pixels(x, y, width, height, coords, samples) != []
    ensures var ps := Pixels(x, y, width, height, coords, samples);
            0 < GroupMask(Foreground(ps, Threshold(ps))) as int <= FullMask(coords) as int
  {
    var ps := Pixels(x, y, width, height, coords, samples);
    var fg := Foreground(ps, Threshold(ps));
    BtcMaskBits(x, y, width, height, coords, samples, Threshold(ps), 0);
    MaskBelow(GroupMask(fg), FullMask(coords));
    CollectBits(x, y, width, height, coords, samples, |coords|);
    ForegroundNonEmpty(ps);
    PartitionSides(ps, Threshold(ps));
    assert fg[|fg| - 1] in fg;
  }

  /** octant.rs `solve_dot_color`: the dot colour that, mixed half and half with `bg`, gives `target`, clamped to [0,1]. */
  function SolveDotColor(target: Rgb, bg: Rgb): Rgb {
    Rgb(Clamp(2.0 * target.r - bg.r, 0.0, 1.0), Clamp(2.0 * target.g - bg.g, 0.0, 1.0),
        Clamp(2.0 * target.b - bg.b, 0.0, 1.0))
  }

  /** `0.5 * fg.clamp(0.0, 1.0) + 0.5 * bg`, per channel: the colour a half-covered cell shows. */
  function Mix(fg: Rgb, bg: Rgb): Rgb {
    Rgb(0.5 * Clamp(fg.r, 0.0, 1.0) + 0.5 * bg.r, 0.5 * Clamp(fg.g, 0.0, 1.0) + 0.5 * bg.g,
        0.5 * Clamp(fg.b, 0.0, 1.0) + 0.5 * bg.b)
  }

  /** `target - mixed`, per channel: the error octant.rs diffuses. */
  function Residual(target: Rgb, bg: Rgb): Rgb {
    var mixed := Mix(SolveDotColor(target, bg), bg);
    Rgb(target.r - mixed.r, target.g - mixed.g, target.b - mixed.b)
  }

  /**
   * The dot colour always lies in [0,1]. Where the unclamped solution
   * `2 * target - bg` of a channel already lies in [0,1], the half-and-half
   * mix reproduces the target exactly and that channel leaves no residual;
   * otherwise the residual is what the clamp cut off, halved.
   */
  lemma UnmixRoundTrip(target: Rgb, bg: Rgb)
    ensures var d := SolveDotColor(target, bg);
            0.0 <= d.r <= 1.0 && 0.0 <= d.g <= 1.0 && 0.0 <= d.b <= 1.0
    ensures 0.0 <= 2.0 * target.r - bg.r <= 1.0 ==> Mix(SolveDotColor(target, bg), bg).r == target.r && Residual(target, bg).r == 0.0
    ensures 0.0 <= 2.0 * target.g - bg.g <= 1.0 ==> Mix(SolveDotColor(target, bg), bg).g == target.g && Residual(target, bg).g == 0.0
    ensures 0.0 <= 2.0 * target.b - bg.b <= 1.0 ==> Mix(SolveDotColor(target, bg), bg).b == target.b && Residual(target, bg).b == 0.0
    ensures 2.0 * target.r - bg.r > 1.0 ==> Residual(target, bg).r == (2.0 * target.r - bg.r - 1.0) / 2.0
    ensures 2.0 * target.r - bg.r < 0.0 ==> Residual(target, bg).r == (2.0 * target.r - bg.r) / 2.0
  {
  }

  /** The background and the target foreground colour octant.rs picks, in linear light. */
  datatype Palette = Palette(bg: Rgb, target: Rgb)

  /**
   * An empty background takes the foreground's average, an empty
   * foreground takes the background colour, and black is used only when
   * both groups are empty.
   */
  function OctantPalette(cv: Curves, fg: seq<PixelData>, bg: seq<PixelData>): (p: Palette)
    ensures fg != [] ==> Some(p.target) == AverageLinear(cv, fg)
    ensures bg != [] ==> Some(p.bg) == AverageLinear(cv, bg)
    ensures bg == [] && fg != [] ==> p.bg == p.target
    ensures fg == [] ==> p.target == p.bg
    ensures fg == [] && bg == [] ==> p.bg == Black
  {
    var fgAvg := AverageLinear(cv, fg);
    var bgColor := match AverageLinear(cv, bg)
      case Some(c) => c
      case None => (match fgAvg case Some(c) => c case None => Black);
    var target := match fgAvg
      case Some(c) => c
      case None => bgColor;
    Palette(bgColor, target)
  }

  /**
   * With a threshold at the mean the foreground is never empty, so the
   * target is always the foreground's own average; a cell with no
   * background is drawn with a dot colour equal to the clamped target,
   * which leaves no residual when the target lies in [0,1].
   */
  lemma OctantPaletteOfCell(cv: Curves, ps: seq<PixelData>)
    requires |ps| > 0
    ensures var t := Threshold(ps);
            Some(OctantPalette(cv, Foreground(ps, t), Background(ps, t)).target) == AverageLinear(cv, Foreground(ps, t))
    ensures var t := Threshold(ps);
            var p := OctantPalette(cv, Foreground(ps, t), Background(ps, t));
            Background(ps, t) == [] && 0.0 <= p.target.r <= 1.0 && 0.0 <= p.target.g <= 1.0 && 0.0 <= p.target.b <= 1.0
            ==> Residual(p.target, p.bg) == Rgb(0.0, 0.0, 0.0)
  {
    var t := Threshold(ps);
    ForegroundNonEmpty(ps);
    var p := OctantPalette(cv, Foreground(ps, t), Background(ps, t));
    if Background(ps, t) == [] {
      assert p.bg == p.target;
      UnmixRoundTrip(p.target, p.bg);
    }
  }
}
