/**
 * The render loop of octant.rs: cells of 2 x 4 pixels, each drawn as one
 * Braille Patterns character with a truecolour foreground and background.
 * The sub-pixels are read with the colour error waiting for them, split by
 * Block Truncation Coding at their mean luma, and the dot colour is solved
 * so that half dot and half background give the foreground's average; what
 * the clamp of that colour cuts off is spread by Stucki diffusion from every
 * sub-pixel of the cell, channel by channel.
 */
module OctantRender {
  import opened Numeric
  import opened ColorSpace
  import opened Ansi
  import opened Seqs
  import opened Geometry
  import opened Glyphs
  import opened Diffusion
  import opened Raster
  import opened Btc

  /** The accumulated errors of the three channels. */
  datatype Errors = Errors(r: Grid, g: Grid, b: Grid)

  predicate IsErrors(e: Errors, width: nat, height: nat) {
    IsGrid(e.r, width, height) && IsGrid(e.g, width, height) && IsGrid(e.b, width, height)
  }

  /** `vec![vec![(0.0, 0.0, 0.0); width]; height]`. */
  function ZeroErrors(width: nat, height: nat): (e: Errors)
    ensures IsErrors(e, width, height)
    ensures forall i, j :: 0 <= i < height && 0 <= j < width ==> e.r[i][j] == 0.0 && e.g[i][j] == 0.0 && e.b[i][j] == 0.0
  {
    Errors(Zeros(width, height), Zeros(width, height), Zeros(width, height))
  }

  /** The kernel applied around (sx, sy) to each channel with that channel's error. */
  function DiffuseRgb(e: Errors, width: nat, height: nat, sx: nat, sy: nat, err: Rgb): (r: Errors)
    requires IsErrors(e, width, height)
    ensures IsErrors(r, width, height)
  {
    Errors(Diffuse(e.r, width, height, sx, sy, err.r), Diffuse(e.g, width, height, sx, sy, err.g),
           Diffuse(e.b, width, height, sx, sy, err.b))
  }

  /**
   * `error_diffusion` of octant.rs: one `(f32, f32, f32)` per pixel, held
   * here as one buffer per channel. `Errs()` is its abstract value.
   */
  class RgbErrorBuffer {
    const width: nat
    const height: nat
    const red: ErrorBuffer
    const green: ErrorBuffer
    const blue: ErrorBuffer
    ghost const Repr: set<object>

    ghost predicate Valid()
      reads red, green, blue, red.data, green.data, blue.data
    {
      && Repr == {red, green, blue, red.data, green.data, blue.data}
      && red != green && green != blue && red != blue
      && red.data != green.data && green.data != blue.data && red.data != blue.data
      && red.Valid() && green.Valid() && blue.Valid()
      && red.width == width && green.width == width && blue.width == width
      && red.height == height && green.height == height && blue.height == height
    }

    ghost function Errs(): Errors
      reads red, green, blue
    {
      Errors(red.grid, green.grid, blue.grid)
    }

    constructor (width: nat, height: nat)
      ensures Valid() && fresh(Repr)
      ensures this.width == width && this.height == height
      ensures Errs() == ZeroErrors(width, height)
    {
      var r := new ErrorBuffer(width, height);
      var g := new ErrorBuffer(width, height);
      var b := new ErrorBuffer(width, height);
      this.width, this.height := width, height;
      red, green, blue := r, g, b;
      Repr := {r, g, b, r.data, g.data, b.data};
    }

    /** `error_diffusion[y][x]`. */
    function Get(x: nat, y: nat): (v: Rgb)
      reads red, green, blue, red.data, green.data, blue.data
      requires Valid() && x < width && y < height
      ensures v == Rgb(Errs().r[y][x], Errs().g[y][x], Errs().b[y][x])
    {
      Rgb(red.Get(x, y), green.Get(x, y), blue.Get(x, y))
    }

    /** The loop over `diffusion_coords` around (sx, sy), adding each channel's share. */
    method Spread(sx: nat, sy: nat, err: Rgb)
      requires Valid()
      modifies Repr
      ensures Valid()
      ensures Errs() == DiffuseRgb(old(Errs()), width, height, sx, sy, err)
    {
      red.Distribute(sx, sy, err.r);
      green.Distribute(sx, sy, err.g);
      blue.Distribute(sx, sy, err.b);
    }
  }

  /** `linear_to_srgb(srgb_to_linear(v / 255) + err)`: a channel read with the error waiting for it. */
  function Nudge(cv: Curves, v: Byte, err: real): real {
    LinearToSrgb(cv, SrgbToLinear(cv, Unit(v)) + err)
  }

  /** The encoded colour of sub-cell `c` of the cell at (x, y), error included. */
  function SampleAt(cv: Curves, color: seq<seq<Rgb8>>, e: Errors, width: nat, height: nat, x: nat, y: nat, c: SubCell): Rgb
    requires IsImage(color, width, height) && IsErrors(e, width, height) && InBounds(x, y, c, width, height)
  {
    var i, j := y + c.dy, x + c.dx;
    var p := color[i][j];
    Rgb(Nudge(cv, p.r, e.r[i][j]), Nudge(cv, p.g, e.g[i][j]), Nudge(cv, p.b, e.b[i][j]))
  }

  /** The colour of every table entry (black for one off the image, which is never read). */
  function Samples(cv: Curves, color: seq<seq<Rgb8>>, e: Errors, width: nat, height: nat, x: nat, y: nat): (s: seq<Rgb>)
    requires IsImage(color, width, height) && IsErrors(e, width, height)
    ensures |s| == |OctantCoords|
  {
    seq(|OctantCoords|, k requires 0 <= k < |OctantCoords| =>
      if InBounds(x, y, OctantCoords[k], width, height) then SampleAt(cv, color, e, width, height, x, y, OctantCoords[k])
      else Black)
  }

  /** The `pixels` vector of the cell at (x, y). */
  function CellPixels(cv: Curves, color: seq<seq<Rgb8>>, e: Errors, width: nat, height: nat, x: nat, y: nat): seq<PixelData>
    requires IsImage(color, width, height) && IsErrors(e, width, height)
  {
    Pixels(x, y, width, height, OctantCoords, Samples(cv, color, e, width, height, x, y))
  }

  /** The residual spread from the first `n` table entries that lie on the image, in table order. */
  function SpreadPrefix(e: Errors, width: nat, height: nat, x: nat, y: nat, err: Rgb, n: nat): (r: Errors)
    requires IsErrors(e, width, height) && n <= |OctantCoords|
    ensures IsErrors(r, width, height)
  {
    if n == 0 then e
    else
      var prev := SpreadPrefix(e, width, height, x, y, err, n - 1);
      var c := OctantCoords[n - 1];
      if InBounds(x, y, c, width, height) then DiffuseRgb(prev, width, height, x + c.dx, y + c.dy, err) else prev
  }

  /** A zero residual leaves every channel's errors as they were. */
  lemma {:induction false} SpreadZero(e: Errors, width: nat, height: nat, x: nat, y: nat, n: nat)
    requires IsErrors(e, width, height) && n <= |OctantCoords|
    ensures SpreadPrefix(e, width, height, x, y, Rgb(0.0, 0.0, 0.0), n) == e
  {
    if n > 0 {
      SpreadZero(e, width, height, x, y, n - 1);
      var c := OctantCoords[n - 1];
      if InBounds(x, y, c, width, height) {
        DiffuseZero(e.r, width, height, x + c.dx, y + c.dy);
        DiffuseZero(e.g, width, height, x + c.dx, y + c.dy);
        DiffuseZero(e.b, width, height, x + c.dx, y + c.dy);
      }
    }
  }

  /** `(linear_to_srgb(v) * 255.0).round() as u8` per channel, with no clamp before the cast. */
  function ToBytes(cv: Curves, c: Rgb): Rgb8 {
    Rgb8(ScaleToU8(LinearToSrgb(cv, c.r)), ScaleToU8(LinearToSrgb(cv, c.g)), ScaleToU8(LinearToSrgb(cv, c.b)))
  }

  /**
   * The missing clamp is harmless: the saturating cast sends an encoded
   * value outside [0,1] to the byte of the nearer end, so the bytes are
   * those of the clamped encoding the other renderers use.
   */
  lemma ToBytesClamps(cv: Curves, c: Rgb)
    ensures ToBytes(cv, c) == Rgb8(EncodeByte(cv, c.r), EncodeByte(cv, c.g), EncodeByte(cv, c.b))
  {
    ScaleToU8Clamps(LinearToSrgb(cv, c.r));
    ScaleToU8Clamps(LinearToSrgb(cv, c.g));
    ScaleToU8Clamps(LinearToSrgb(cv, c.b));
  }

  /** The text of a cell: both colours, then the Braille character of the mask. */
  function CellText(fg: Rgb8, bg: Rgb8, mask: bv8): string {
    ColorText(fg, bg, BrailleGlyph(mask))
  }

  /** A cell's text decodes back to both colours and its mask. */
  lemma CellTextDecodes(fg: Rgb8, bg: Rgb8, mask: bv8)
    ensures ParseSgr(CellText(fg, bg, mask)) == Some((ColorParams(fg, bg), [BrailleGlyph(mask)]))
    ensures BrailleDots(BrailleGlyph(mask)) == Some(mask)
  {
    ColorTextDecodes(fg, bg, BrailleGlyph(mask));
    BrailleRoundTrip(mask);
  }

  /** A cell's text and the errors it leaves behind. */
  datatype Output = Output(text: string, errs: Errors)

  /** The lines printed so far and the errors they leave behind. */
  datatype Frame = Frame(lines: seq<string>, errs: Errors)

  /**
   * The cell at (x, y) against the errors `e`: a blank when no sub-pixel
   * lies on the image; otherwise the glyph of the foreground, the dot and
   * background colours, and the residual spread from every sub-pixel.
   */
  function CellSpec(cv: Curves, color: seq<seq<Rgb8>>, width: nat, height: nat, e: Errors, x: nat, y: nat): (o: Output)
    requires IsImage(color, width, height) && IsErrors(e, width, height)
    ensures IsErrors(o.errs, width, height)
  {
    var ps := CellPixels(cv, color, e, width, height, x, y);
    if ps == [] then Output([' '], e)
    else
      var t := Threshold(ps);
      var fg := Foreground(ps, t);
      var pal := OctantPalette(cv, fg, Background(ps, t));
      var dot := SolveDotColor(pal.target, pal.bg);
      Output(CellText(ToBytes(cv, dot), ToBytes(cv, pal.bg), GroupMask(fg)),
             SpreadPrefix(e, width, height, x, y, Residual(pal.target, pal.bg), |OctantCoords|))
  }

  /** The cells of row `y` from column `x` to the right edge, starting from the errors `e`. */
  function RowFrom(cv: Curves, color: seq<seq<Rgb8>>, width: nat, height: nat, e: Errors, x: nat, y: nat): (o: Output)
    requires IsImage(color, width, height) && IsErrors(e, width, height)
    ensures IsErrors(o.errs, width, height)
    decreases width - x
  {
    if x >= width then Output([], e)
    else
      var c := CellSpec(cv, color, width, height, e, x, y);
      var rest := RowFrom(cv, color, width, height, c.errs, x + 2, y);
      Output(c.text + rest.text, rest.errs)
  }

  /** Row `y`: one cell per 2 pixel columns. */
  function RowSpec(cv: Curves, color: seq<seq<Rgb8>>, width: nat, height: nat, e: Errors, y: nat): (o: Output)
    requires IsImage(color, width, height) && IsErrors(e, width, height)
    ensures IsErrors(o.errs, width, height)
  {
    RowFrom(cv, color, width, height, e, 0, y)
  }

  /** The first `m` lines, each closed by a reset, the errors carried from row to row. */
  function FramePrefix(cv: Curves, color: seq<seq<Rgb8>>, width: nat, height: nat, e: Errors, m: nat): (f: Frame)
    requires IsImage(color, width, height) && IsErrors(e, width, height)
    ensures IsErrors(f.errs, width, height)
  {
    if m == 0 then Frame([], e)
    else
      var done := FramePrefix(cv, color, width, height, e, m - 1);
      var row := RowSpec(cv, color, width, height, done.errs, 4 * (m - 1));
      Frame(done.lines + [row.text + Reset], row.errs)
  }

  /** The whole picture: one line per 4 pixel rows, from zeroed errors. */
  function FrameSpec(cv: Curves, color: seq<seq<Rgb8>>, width: nat, height: nat): Frame
    requires IsImage(color, width, height)
  {
    FramePrefix(cv, color, width, height, ZeroErrors(width, height), StepCount(0, height, 4))
  }

  lemma {:induction false} FramePrefixLines(cv: Curves, color: seq<seq<Rgb8>>, width: nat, height: nat, e: Errors, m: nat)
    requires IsImage(color, width, height) && IsErrors(e, width, height)
    ensures var lines := FramePrefix(cv, color, width, height, e, m).lines;
            |lines| == m && AllClosed(lines)
  {
    if m > 0 {
      FramePrefixLines(cv, color, width, height, e, m - 1);
      var done := FramePrefix(cv, color, width, height, e, m - 1);
      var row := RowSpec(cv, color, width, height, done.errs, 4 * (m - 1));
      SnocLine(FramePrefix(cv, color, width, height, e, m).lines, done.lines, row.text);
    }
  }

  /** One line per 4 pixel rows, the last one possibly partial, and every line ends with a reset. */
  lemma ImageLines(cv: Curves, color: seq<seq<Rgb8>>, width: nat, height: nat)
    requires IsImage(color, width, height)
    ensures var lines := FrameSpec(cv, color, width, height).lines;
            |lines| == (height + 3) / 4
            && AllClosed(lines)
  {
    FramePrefixLines(cv, color, width, height, ZeroErrors(width, height), StepCount(0, height, 4));
    StepCountIsCeiling(0, height, 4);
  }

  /**
   * The raster walk only visits cell origins on the image, and the first
   * table entry is the origin, so `pixels` is never empty there and the
   * blank-cell branch is never taken.
   */
  lemma CellNeverBlank(cv: Curves, color: seq<seq<Rgb8>>, width: nat, height: nat, e: Errors, x: nat, y: nat)
    requires IsImage(color, width, height) && IsErrors(e, width, height) && x < width && y < height
    ensures CellPixels(cv, color, e, width, height, x, y) != []
  {
    CollectNonEmpty(x, y, width, height, OctantCoords, Samples(cv, color, e, width, height, x, y), |OctantCoords|);
  }

  /**
   * The dots of a cell: dot `k` is raised exactly when sub-cell `k` lies on
   * the image and its luma, error included, is at least the cell's mean.
   */
  lemma CellDots(cv: Curves, color: seq<seq<Rgb8>>, width: nat, height: nat, e: Errors, x: nat, y: nat, k: nat)
    requires IsImage(color, width, height) && IsErrors(e, width, height) && k < |OctantCoords|
    requires CellPixels(cv, color, e, width, height, x, y) != []
    ensures var ps := CellPixels(cv, color, e, width, height, x, y);
            var s := Samples(cv, color, e, width, height, x, y);
            GroupMask(Foreground(ps, Threshold(ps))) & OctantCoords[k].bit != 0
            <==> InBounds(x, y, OctantCoords[k], width, height)
                 && Pixel(s[k], OctantCoords[k].bit).luma >= Threshold(ps)
  {
    var ps := CellPixels(cv, color, e, width, height, x, y);
    OctantBits();
    BtcMaskBits(x, y, width, height, OctantCoords, Samples(cv, color, e, width, height, x, y), Threshold(ps), k);
  }

  /** A group whose every pixel has luma `v`. */
  predicate AllLuma(ps: seq<PixelData>, v: real) {
    forall j :: 0 <= j < |ps| ==> ps[j].luma == v
  }

  lemma {:induction false} CollectAllLuma(x: nat, y: nat, width: nat, height: nat, s: seq<Rgb>, v: real, n: nat)
    requires |s| == |OctantCoords| && n <= |OctantCoords|
    requires forall k :: 0 <= k < |OctantCoords| ==> Pixel(s[k], OctantCoords[k].bit).luma == v
    ensures AllLuma(Collect(x, y, width, height, OctantCoords, s, n), v)
  {
    if n > 0 {
      CollectAllLuma(x, y, width, height, s, v, n - 1);
    }
  }

  lemma AllBitsSet(m: bv8)
    requires m & 0x01 != 0 && m & 0x02 != 0 && m & 0x04 != 0 && m & 0x08 != 0
    requires m & 0x10 != 0 && m & 0x20 != 0 && m & 0x40 != 0 && m & 0x80 != 0
    ensures m == 0xFF
  {
  }

  /**
   * Eight sub-pixels on the image with one luma `v`: the threshold is `v`
   * and every pixel is foreground.
   */
  lemma FlatSplit(x: nat, y: nat, width: nat, height: nat, s: seq<Rgb>, v: real)
    requires |s| == |OctantCoords| && x < width && y < height
    requires forall k :: 0 <= k < |OctantCoords| ==> Pixel(s[k], OctantCoords[k].bit).luma == v
    ensures var ps := Pixels(x, y, width, height, OctantCoords, s);
            ps != [] && Threshold(ps) == v && Foreground(ps, v) == ps && Background(ps, v) == []
  {
    var ps := Pixels(x, y, width, height, OctantCoords, s);
    CollectNonEmpty(x, y, width, height, OctantCoords, s, |OctantCoords|);
    CollectAllLuma(x, y, width, height, s, v, |OctantCoords|);
    UniformIsAllForeground(ps, v);
  }

  /** The dots of the upper two rows of a flat cell are raised. */
  lemma FlatBitsUpper(x: nat, y: nat, width: nat, height: nat, s: seq<Rgb>, v: real)
    requires |s| == |OctantCoords| && x + 1 < width && y + 3 < height
    requires forall k :: 0 <= k < |OctantCoords| ==> Pixel(s[k], OctantCoords[k].bit).luma == v
    ensures var m := GroupMask(Foreground(Pixels(x, y, width, height, OctantCoords, s), v));
            m & 0x01 != 0 && m & 0x08 != 0 && m & 0x02 != 0 && m & 0x10 != 0
  {
    OctantBits();
    BtcMaskBits(x, y, width, height, OctantCoords, s, v, 0);
    BtcMaskBits(x, y, width, height, OctantCoords, s, v, 1);
    BtcMaskBits(x, y, width, height, OctantCoords, s, v, 2);
    BtcMaskBits(x, y, width, height, OctantCoords, s, v, 3);
  }

  /** The dots of the lower two rows of a flat cell are raised. */
  lemma FlatBitsLower(x: nat, y: nat, width: nat, height: nat, s: seq<Rgb>, v: real)
    requires |s| == |OctantCoords| && x + 1 < width && y + 3 < height
    requires forall k :: 0 <= k < |OctantCoords| ==> Pixel(s[k], OctantCoords[k].bit).luma == v
    ensures var m := GroupMask(Foreground(Pixels(x, y, width, height, OctantCoords, s), v));
            m & 0x04 != 0 && m & 0x20 != 0 && m & 0x40 != 0 && m & 0x80 != 0
  {
    OctantBits();
    BtcMaskBits(x, y, width, height, OctantCoords, s, v, 4);
    BtcMaskBits(x, y, width, height, OctantCoords, s, v, 5);
    BtcMaskBits(x, y, width, height, OctantCoords, s, v, 6);
    BtcMaskBits(x, y, width, height, OctantCoords, s, v, 7);
  }

  /** With all eight sub-pixels on the image and at the threshold, the mask is full. */
  lemma FlatBits(x: nat, y: nat, width: nat, height: nat, s: seq<Rgb>, v: real)
    requires |s| == |OctantCoords| && x + 1 < width && y + 3 < height
    requires forall k :: 0 <= k < |OctantCoords| ==> Pixel(s[k], OctantCoords[k].bit).luma == v
    ensures GroupMask(Foreground(Pixels(x, y, width, height, OctantCoords, s), v)) == 0xFF
  {
    FlatBitsUpper(x, y, width, height, s, v);
    FlatBitsLower(x, y, width, height, s, v);
    AllBitsSet(GroupMask(Foreground(Pixels(x, y, width, height, OctantCoords, s), v)));
  }

  /**
   * A cell wholly on the image whose sub-pixels all read the same luma is
   * drawn as the full glyph U+28FF with an empty background.
   */
  lemma FlatCellIsFull(cv: Curves, color: seq<seq<Rgb8>>, width: nat, height: nat, e: Errors, x: nat, y: nat, v: real)
    requires IsImage(color, width, height) && IsErrors(e, width, height) && x + 1 < width && y + 3 < height
    requires var s := Samples(cv, color, e, width, height, x, y);
             forall k :: 0 <= k < |OctantCoords| ==> Pixel(s[k], OctantCoords[k].bit).luma == v
    ensures var ps := CellPixels(cv, color, e, width, height, x, y);
            ps != [] && Background(ps, Threshold(ps)) == [] && GroupMask(Foreground(ps, Threshold(ps))) == 0xFF
  {
    var s := Samples(cv, color, e, width, height, x, y);
    FlatSplit(x, y, width, height, s, v);
    FlatBits(x, y, width, height, s, v);
  }

  /**
   * A flat cell whose average colour lies in [0,1] passes on no error: the
   * dot colour is the average itself and the errors are left as they were.
   */
  lemma FlatCellKeepsErrors(cv: Curves, color: seq<seq<Rgb8>>, width: nat, height: nat, e: Errors, x: nat, y: nat, v: real)
    requires IsImage(color, width, height) && IsErrors(e, width, height) && x + 1 < width && y + 3 < height
    requires var s := Samples(cv, color, e, width, height, x, y);
             forall k :: 0 <= k < |OctantCoords| ==> Pixel(s[k], OctantCoords[k].bit).luma == v
    requires var ps := CellPixels(cv, color, e, width, height, x, y);
             ps != [] && InGamut(AverageLinear(cv, ps).value)
    ensures CellSpec(cv, color, width, height, e, x, y).errs == e
  {
    var ps := CellPixels(cv, color, e, width, height, x, y);
    FlatSplit(x, y, width, height, Samples(cv, color, e, width, height, x, y), v);
    var t := Threshold(ps);
    var pal := OctantPalette(cv, Foreground(ps, t), Background(ps, t));
    OctantPaletteOfCell(cv, ps);
    assert Residual(pal.target, pal.bg) == Rgb(0.0, 0.0, 0.0);
    SpreadZero(e, width, height, x, y, |OctantCoords|);
  }

  /** Every channel of a linear colour lies in [0,1]. */
  predicate InGamut(c: Rgb) {
    0.0 <= c.r <= 1.0 && 0.0 <= c.g <= 1.0 && 0.0 <= c.b <= 1.0
  }

  /**
   * One entry of the collecting loop that lies on the image: each channel
   * decoded, the waiting error added, encoded again, and the Rec. 709 luma
   * of the result.
   */
  method ReadPixel(cv: Curves, color: seq<seq<Rgb8>>, bufs: RgbErrorBuffer, x: nat, y: nat, c: SubCell)
    returns (pixel: PixelData)
    requires bufs.Valid() && IsImage(color, bufs.width, bufs.height) && InBounds(x, y, c, bufs.width, bufs.height)
    ensures pixel == Pixel(SampleAt(cv, color, bufs.Errs(), bufs.width, bufs.height, x, y, c), c.bit)
  {
    var p := color[y + c.dy][x + c.dx];
    var err := bufs.Get(x + c.dx, y + c.dy);
    var r := LinearToSrgb(cv, SrgbToLinear(cv, p.r as real / 255.0) + err.r);
    var g := LinearToSrgb(cv, SrgbToLinear(cv, p.g as real / 255.0) + err.g);
    var b := LinearToSrgb(cv, SrgbToLinear(cv, p.b as real / 255.0) + err.b);
    var luma := 0.2126 * r + 0.7152 * g + 0.0722 * b;
    pixel := PixelData(luma, r, g, b, c.bit);
  }

  /** One pass of the collecting loop: entry `k` is read and pushed when it lies on the image. */
  method CollectEntry(cv: Curves, color: seq<seq<Rgb8>>, bufs: RgbErrorBuffer, x: nat, y: nat, k: nat,
                      ps: seq<PixelData>, lumaSum: real) returns (ps': seq<PixelData>, lumaSum': real)
    requires bufs.Valid() && IsImage(color, bufs.width, bufs.height) && k < |OctantCoords|
    requires var s := Samples(cv, color, bufs.Errs(), bufs.width, bufs.height, x, y);
             ps == Collect(x, y, bufs.width, bufs.height, OctantCoords, s, k) && lumaSum == LumaSum(ps)
    ensures var s := Samples(cv, color, bufs.Errs(), bufs.width, bufs.height, x, y);
            ps' == Collect(x, y, bufs.width, bufs.height, OctantCoords, s, k + 1) && lumaSum' == LumaSum(ps')
  {
    var c := OctantCoords[k];
    ps', lumaSum' := ps, lumaSum;
    if x + c.dx < bufs.width && y + c.dy < bufs.height {
      var pixel := ReadPixel(cv, color, bufs, x, y, c);
      SnocPrefix(ps, pixel);
      ps' := ps + [pixel];
      lumaSum' := lumaSum + pixel.luma;
    }
  }

  /**
   * The collecting loop: each table entry on the image is read with its
   * waiting error, its Rec. 709 luma added to `luma_sum`, and pushed.
   */
  method CollectPixels(cv: Curves, color: seq<seq<Rgb8>>, bufs: RgbErrorBuffer, x: nat, y: nat)
    returns (ps: seq<PixelData>, lumaSum: real)
    requires bufs.Valid() && IsImage(color, bufs.width, bufs.height)
    ensures ps == CellPixels(cv, color, bufs.Errs(), bufs.width, bufs.height, x, y)
    ensures lumaSum == LumaSum(ps)
  {
    ghost var s := Samples(cv, color, bufs.Errs(), bufs.width, bufs.height, x, y);
    ps, lumaSum := [], 0.0;
    var k := 0;
    while k < |OctantCoords|
      invariant k <= |OctantCoords|
      invariant ps == Collect(x, y, bufs.width, bufs.height, OctantCoords, s, k)
      invariant lumaSum == LumaSum(ps)
    {
      ps, lumaSum := CollectEntry(cv, color, bufs, x, y, k, ps, lumaSum);
      k := k + 1;
    }
  }

  /** The diffusion loop: the residual spread from every table entry on the image. */
  method SpreadResidual(bufs: RgbErrorBuffer, x: nat, y: nat, err: Rgb)
    requires bufs.Valid()
    modifies bufs.Repr
    ensures bufs.Valid()
    ensures bufs.Errs() == SpreadPrefix(old(bufs.Errs()), bufs.width, bufs.height, x, y, err, |OctantCoords|)
  {
    ghost var e0 := bufs.Errs();
    var k := 0;
    while k < |OctantCoords|
      invariant k <= |OctantCoords| && bufs.Valid()
      invariant bufs.Errs() == SpreadPrefix(e0, bufs.width, bufs.height, x, y, err, k)
    {
      SpreadEntry(bufs, x, y, err, k, e0);
      k := k + 1;
    }
  }

  /** One pass of the diffusion loop: entry `k` receives the residual when it lies on the image. */
  method SpreadEntry(bufs: RgbErrorBuffer, x: nat, y: nat, err: Rgb, k: nat, ghost e0: Errors)
    requires bufs.Valid() && k < |OctantCoords| && IsErrors(e0, bufs.width, bufs.height)
    requires bufs.Errs() == SpreadPrefix(e0, bufs.width, bufs.height, x, y, err, k)
    modifies bufs.Repr
    ensures bufs.Valid()
    ensures bufs.Errs() == SpreadPrefix(e0, bufs.width, bufs.height, x, y, err, k + 1)
  {
    ghost var prev := bufs.Errs();
    var c := OctantCoords[k];
    if x + c.dx < bufs.width && y + c.dy < bufs.height {
      bufs.Spread(x + c.dx, y + c.dy, err);
    }
    SpreadNext(e0, bufs.width, bufs.height, x, y, err, k, prev, bufs.Errs());
  }

  lemma SpreadNext(e0: Errors, width: nat, height: nat, x: nat, y: nat, err: Rgb, k: nat, prev: Errors, next: Errors)
    requires IsErrors(e0, width, height) && k < |OctantCoords|
    requires prev == SpreadPrefix(e0, width, height, x, y, err, k)
    requires var c := OctantCoords[k];
             next == if InBounds(x, y, c, width, height) then DiffuseRgb(prev, width, height, x + c.dx, y + c.dy, err) else prev
    ensures next == SpreadPrefix(e0, width, height, x, y, err, k + 1)
  {
  }

  /** The two colours of a cell, `unwrap_or` by `unwrap_or` as octant.rs picks them. */
  method PickPalette(cv: Curves, fg: seq<PixelData>, bg: seq<PixelData>) returns (bgColor: Rgb, target: Rgb)
    ensures Palette(bgColor, target) == OctantPalette(cv, fg, bg)
  {
    var bgAvg := AverageColorLinear(cv, bg);
    var fgAvg := AverageColorLinear(cv, fg);
    bgColor := match bgAvg
      case Some(c) => c
      case None => (match fgAvg case Some(c) => c case None => Black);
    target := match fgAvg
      case Some(c) => c
      case None => bgColor;
  }

  /** One cell: collect, split, solve the dot colour, spread the residual, write the text. */
  method RenderCell(cv: Curves, color: seq<seq<Rgb8>>, bufs: RgbErrorBuffer, x: nat, y: nat)
    returns (text: string)
    requires bufs.Valid() && IsImage(color, bufs.width, bufs.height)
    modifies bufs.Repr
    ensures bufs.Valid()
    ensures CellSpec(cv, color, bufs.width, bufs.height, old(bufs.Errs()), x, y) == Output(text, bufs.Errs())
  {
    var ps, lumaSum := CollectPixels(cv, color, bufs, x, y);
    if |ps| == 0 {
      return [' '];
    }
    var t := lumaSum / |ps| as real;
    var fg, bg, mask := Partition(ps, t);
    var glyph := BrailleGlyph(mask);
    var bgColor, target := PickPalette(cv, fg, bg);
    var dot := SolveDotColor(target, bgColor);
    var mixed := Mix(dot, bgColor);
    var err := Rgb(target.r - mixed.r, target.g - mixed.g, target.b - mixed.b);
    assert err == Residual(target, bgColor);
    SpreadResidual(bufs, x, y, err);
    text := ColorText(ToBytes(cv, dot), ToBytes(cv, bgColor), glyph);
  }

  /**
   * The body of the column loop: render the cell at column `x` and append
   * its text to the line (`write!(line, ..)`).
   */
  method AppendCell(cv: Curves, color: seq<seq<Rgb8>>, bufs: RgbErrorBuffer, ghost spec: Output, x: nat, y: nat, line: string)
    returns (line': string)
    requires bufs.Valid() && IsImage(color, bufs.width, bufs.height) && x < bufs.width
    requires var rest := RowFrom(cv, color, bufs.width, bufs.height, bufs.Errs(), x, y);
             spec == Output(line + rest.text, rest.errs)
    modifies bufs.Repr
    ensures bufs.Valid()
    ensures var rest := RowFrom(cv, color, bufs.width, bufs.height, bufs.Errs(), x + 2, y);
            spec == Output(line' + rest.text, rest.errs)
  {
    ghost var c := CellSpec(cv, color, bufs.width, bufs.height, bufs.Errs(), x, y);
    ghost var rest := RowFrom(cv, color, bufs.width, bufs.height, c.errs, x + 2, y);
    assert spec == Output(line + (c.text + rest.text), rest.errs);
    var cell := RenderCell(cv, color, bufs, x, y);
    assert c == Output(cell, bufs.Errs());
    line' := line + cell;
    AppendAssoc(line, cell, rest.text);
  }

  /** The cells of row `y`, left to right, sharing the errors (the line before its closing reset). */
  method RenderRow(cv: Curves, color: seq<seq<Rgb8>>, bufs: RgbErrorBuffer, y: nat) returns (line: string)
    requires bufs.Valid() && IsImage(color, bufs.width, bufs.height)
    modifies bufs.Repr
    ensures bufs.Valid()
    ensures RowSpec(cv, color, bufs.width, bufs.height, old(bufs.Errs()), y) == Output(line, bufs.Errs())
  {
    ghost var spec := RowSpec(cv, color, bufs.width, bufs.height, bufs.Errs(), y);
    line := [];
    AppendEmpty(spec.text);
    var x: nat := 0;
    while x < bufs.width
      invariant bufs.Valid()
      invariant var rest := RowFrom(cv, color, bufs.width, bufs.height, bufs.Errs(), x, y);
                spec == Output(line + rest.text, rest.errs)
      decreases bufs.width - x
    {
      line := AppendCell(cv, color, bufs, spec, x, y, line);
      x := x + 2;
    }
    AppendEmpty(line);
  }

  /** Appending the line of row `m` to the first `m` lines gives the first `m + 1`. */
  lemma FrameNext(cv: Curves, color: seq<seq<Rgb8>>, width: nat, height: nat,
                  e0: Errors, m: nat, lines: seq<string>, before: Errors, line: string, after: Errors)
    requires IsImage(color, width, height) && IsErrors(e0, width, height) && IsErrors(before, width, height)
    requires FramePrefix(cv, color, width, height, e0, m) == Frame(lines, before)
    requires RowSpec(cv, color, width, height, before, 4 * m) == Output(line, after)
    ensures FramePrefix(cv, color, width, height, e0, m + 1) == Frame(lines + [line + Reset], after)
  {
  }

  /** Renders the row of cells at `y == 4 * m`, appends its line and reset to the `m` lines so far and steps down. */
  method AppendRow(cv: Curves, color: seq<seq<Rgb8>>, bufs: RgbErrorBuffer, y: nat,
                   ghost e0: Errors, ghost m: nat, ghost total: nat, lines: seq<string>)
    returns (next: seq<string>, y': nat, ghost m': nat)
    requires bufs.Valid() && IsImage(color, bufs.width, bufs.height) && IsErrors(e0, bufs.width, bufs.height)
    requires y < bufs.height && y == 4 * m && m + StepCount(y, bufs.height, 4) == total
    requires FramePrefix(cv, color, bufs.width, bufs.height, e0, m) == Frame(lines, bufs.Errs())
    modifies bufs.Repr
    ensures bufs.Valid()
    ensures y' == 4 * m' && m' + StepCount(y', bufs.height, 4) == total && y' > y
    ensures FramePrefix(cv, color, bufs.width, bufs.height, e0, m') == Frame(next, bufs.Errs())
  {
    ghost var before := bufs.Errs();
    var line := RenderRow(cv, color, bufs, y);
    FrameNext(cv, color, bufs.width, bufs.height, e0, m, lines, before, line, bufs.Errs());
    StepCountNext(y, bufs.height, 4, m, total);
    next := lines + [line + Reset];
    y', m' := y + 4, m + 1;
  }

  /**
   * octant.rs `render_image` after the image is resized: the errors start
   * at zero, one line per 4 pixel rows, each closed by `ESC[0m`.
   */
  method Render(cv: Curves, color: seq<seq<Rgb8>>, width: nat, height: nat) returns (lines: seq<string>)
    requires IsImage(color, width, height)
    ensures lines == FrameSpec(cv, color, width, height).lines
  {
    var bufs := new RgbErrorBuffer(width, height);
    lines := [];
    var y := 0;
    ghost var m := 0;
    ghost var total := StepCount(0, height, 4);
    ghost var e0 := bufs.Errs();
    while y < height
      invariant bufs.Valid() && bufs.width == width && bufs.height == height && fresh(bufs.Repr)
      invariant y == 4 * m && m + StepCount(y, height, 4) == total
      invariant FramePrefix(cv, color, width, height, e0, m) == Frame(lines, bufs.Errs())
      decreases height - y
    {
      lines, y, m := AppendRow(cv, color, bufs, y, e0, m, total, lines);
    }
  }
}
