/**
 * The render loop of braille.rs: cells of 2 x 4 pixels, each drawn as one
 * Braille Patterns character in bold truecolour over black. The colour is
 * the linear-light window total divided by 8, raised to an exponent that
 * depends on the cell's gray range; the dots come from thresholding the
 * gray samples at 128 with Stucki error diffusion through one buffer shared
 * by the whole image.
 */
module BrailleRender {
  import opened Numeric
  import opened ColorSpace
  import opened Ansi
  import opened Seqs
  import opened Geometry
  import opened Glyphs
  import opened Diffusion
  import opened Dither
  import opened Raster

  /** `bleh` (the colour exponent) and `blah` (the luma exponent) of a cell. */
  datatype Exponents = Exponents(color: real, luma: real)

  /**
   * With `diff = |max - min| / 255`: `bleh = 0.8 (1 - diff) + 0.5 diff` and
   * `blah = 1 - bleh`. A flat cell gets the strongest colour boost, a cell
   * spanning the whole gray range the weakest.
   */
  function CellExponents(lo: Byte, hi: Byte): (e: Exponents)
    ensures 0.5 <= e.color <= 0.8 && 0.2 <= e.luma <= 0.5 && e.color + e.luma == 1.0
    ensures lo == hi ==> e.color == 0.8 && e.luma == 0.2
    ensures AbsDiff(hi, lo) == 255 ==> e.color == 0.5 && e.luma == 0.5
  {
    var diff := AbsDiff(hi, lo) as real / 255.0;
    var bleh := 0.8 * (1.0 - diff) + 0.5 * diff;
    Exponents(bleh, 1.0 - bleh)
  }

  /** A wider gray range never raises the colour exponent. */
  lemma ExponentsMonotone(lo1: Byte, hi1: Byte, lo2: Byte, hi2: Byte)
    requires AbsDiff(hi1, lo1) <= AbsDiff(hi2, lo2)
    ensures CellExponents(lo2, hi2).color <= CellExponents(lo1, hi1).color
    ensures CellExponents(lo1, hi1).luma <= CellExponents(lo2, hi2).luma
  {
  }

  /** The exponents of the cell at (x, y), from `min_luma` and `max_luma` of its window. */
  function WindowExponents(gray: seq<seq<Byte>>, width: nat, height: nat, x: nat, y: nat): Exponents
    requires IsImage(gray, width, height)
  {
    CellExponents(MinGray(gray, width, height, x, y, Window2x4, 8), MaxGray(gray, width, height, x, y, Window2x4, 8))
  }

  /**
   * The dithering luma of sub-cell `c` before error is added:
   * `srgb_to_linear(gray / 255).powf(blah) * 255`.
   */
  function BaseLuma(cv: Curves, gray: seq<seq<Byte>>, width: nat, height: nat, x: nat, y: nat, c: SubCell, blah: real): real
    requires IsImage(gray, width, height)
  {
    if InBounds(x, y, c, width, height)
    then cv.powf(SrgbToLinear(cv, Unit(GrayAt(gray, width, height, x, y, c))), blah) * 255.0
    else 0.0
  }

  /** The base luma of every entry of the dot table. */
  function Bases(cv: Curves, gray: seq<seq<Byte>>, width: nat, height: nat, x: nat, y: nat, blah: real): (b: seq<real>)
    requires IsImage(gray, width, height)
    ensures |b| == |BrailleCoords|
  {
    seq(|BrailleCoords|, k requires 0 <= k < |BrailleCoords| => BaseLuma(cv, gray, width, height, x, y, BrailleCoords[k], blah))
  }

  /**
   * `linear_to_srgb(avg.powf(bleh))` as a byte, per channel, where `avg` is
   * the window total divided by 8 however many sub-cells lie on the image.
   */
  function CellColor(cv: Curves, color: seq<seq<Rgb8>>, width: nat, height: nat, x: nat, y: nat, bleh: real): Rgb8
    requires IsImage(color, width, height)
  {
    Rgb8(EncodeByte(cv, cv.powf(LinearTotal(cv, color, width, height, x, y, Window2x4, Red, 8) / 8.0, bleh)),
         EncodeByte(cv, cv.powf(LinearTotal(cv, color, width, height, x, y, Window2x4, Green, 8) / 8.0, bleh)),
         EncodeByte(cv, cv.powf(LinearTotal(cv, color, width, height, x, y, Window2x4, Blue, 8) / 8.0, bleh)))
  }

  /** The SGR parameters of a cell: bold, truecolour foreground, black background. */
  function CellParams(c: Rgb8): seq<nat> {
    [1, 38, 2, c.r, c.g, c.b, 48, 2, 0, 0, 0]
  }

  /** `ESC[1;38;2;R;G;B;48;2;0;0;0m<glyph>ESC[0m`. */
  function CellText(c: Rgb8, mask: bv8): string {
    Sgr(CellParams(c)) + [BrailleGlyph(mask)] + Reset
  }

  /** A cell's text decodes back to its colour and its mask. */
  lemma CellTextDecodes(c: Rgb8, mask: bv8)
    ensures ParseSgr(CellText(c, mask)) == Some((CellParams(c), [BrailleGlyph(mask)] + Reset))
    ensures BrailleDots(BrailleGlyph(mask)) == Some(mask)
  {
    AppendAssoc(Sgr(CellParams(c)), [BrailleGlyph(mask)], Reset);
    SgrRoundTrip(CellParams(c), [BrailleGlyph(mask)] + Reset);
    BrailleRoundTrip(mask);
  }

  /** The dithering of the cell at (x, y) against the error grid `g`. */
  function CellDither(cv: Curves, gray: seq<seq<Byte>>, width: nat, height: nat, g: Grid, x: nat, y: nat): (p: Progress)
    requires IsImage(gray, width, height) && IsGrid(g, width, height)
    ensures IsGrid(p.grid, width, height)
  {
    var e := WindowExponents(gray, width, height, x, y);
    DitherCellSpec(g, width, height, x, y, BrailleCoords, Bases(cv, gray, width, height, x, y, e.luma), BrailleRule)
  }

  function CellSpec(cv: Curves, color: seq<seq<Rgb8>>, gray: seq<seq<Byte>>, width: nat, height: nat, g: Grid, x: nat, y: nat): (o: Output)
    requires IsImage(color, width, height) && IsImage(gray, width, height) && IsGrid(g, width, height)
    ensures IsGrid(o.grid, width, height)
  {
    var e := WindowExponents(gray, width, height, x, y);
    var p := CellDither(cv, gray, width, height, g, x, y);
    Output(CellText(CellColor(cv, color, width, height, x, y, e.color), p.mask), p.grid)
  }

  /** The cells of row `y` from column `x` to the right edge, starting from the error grid `g`. */
  function RowFrom(cv: Curves, color: seq<seq<Rgb8>>, gray: seq<seq<Byte>>, width: nat, height: nat, g: Grid, x: nat, y: nat): (o: Output)
    requires IsImage(color, width, height) && IsImage(gray, width, height) && IsGrid(g, width, height)
    ensures IsGrid(o.grid, width, height)
    decreases width - x
  {
    if x >= width then Output([], g)
    else
      var c := CellSpec(cv, color, gray, width, height, g, x, y);
      var rest := RowFrom(cv, color, gray, width, height, c.grid, x + 2, y);
      Output(c.text + rest.text, rest.grid)
  }

  /** Row `y`: one cell per 2 pixel columns. */
  function RowSpec(cv: Curves, color: seq<seq<Rgb8>>, gray: seq<seq<Byte>>, width: nat, height: nat, g: Grid, y: nat): (o: Output)
    requires IsImage(color, width, height) && IsImage(gray, width, height) && IsGrid(g, width, height)
    ensures IsGrid(o.grid, width, height)
  {
    RowFrom(cv, color, gray, width, height, g, 0, y)
  }

  /** The first `m` lines, the error buffer carried from row to row. */
  function FramePrefix(cv: Curves, color: seq<seq<Rgb8>>, gray: seq<seq<Byte>>, width: nat, height: nat, g: Grid, m: nat): (f: Frame)
    requires IsImage(color, width, height) && IsImage(gray, width, height) && IsGrid(g, width, height)
    ensures IsGrid(f.grid, width, height)
  {
    if m == 0 then Frame([], g)
    else
      var done := FramePrefix(cv, color, gray, width, height, g, m - 1);
      var row := RowSpec(cv, color, gray, width, height, done.grid, 4 * (m - 1));
      Frame(done.lines + [row.text], row.grid)
  }

  /** The whole picture: one line per 4 pixel rows, from a zeroed buffer. */
  function FrameSpec(cv: Curves, color: seq<seq<Rgb8>>, gray: seq<seq<Byte>>, width: nat, height: nat): Frame
    requires IsImage(color, width, height) && IsImage(gray, width, height)
  {
    FramePrefix(cv, color, gray, width, height, Zeros(width, height), StepCount(0, height, 4))
  }

  lemma {:induction false} FramePrefixLength(cv: Curves, color: seq<seq<Rgb8>>, gray: seq<seq<Byte>>, width: nat, height: nat, g: Grid, m: nat)
    requires IsImage(color, width, height) && IsImage(gray, width, height) && IsGrid(g, width, height)
    ensures |FramePrefix(cv, color, gray, width, height, g, m).lines| == m
  {
    if m > 0 {
      FramePrefixLength(cv, color, gray, width, height, g, m - 1);
    }
  }

  /** One line per 4 pixel rows, the last one possibly partial. */
  lemma ImageLineCount(cv: Curves, color: seq<seq<Rgb8>>, gray: seq<seq<Byte>>, width: nat, height: nat)
    requires IsImage(color, width, height) && IsImage(gray, width, height)
    ensures |FrameSpec(cv, color, gray, width, height).lines| == (height + 3) / 4
  {
    FramePrefixLength(cv, color, gray, width, height, Zeros(width, height), StepCount(0, height, 4));
    StepCountIsCeiling(0, height, 4);
  }

  /**
   * The dots of a cell: dot `k` is raised exactly when sub-cell `k` lies
   * on the image and its luma plus the error waiting for it exceeds 128;
   * the glyph is U+28FF only when all eight are raised.
   */
  lemma CellDots(cv: Curves, gray: seq<seq<Byte>>, width: nat, height: nat, g: Grid, x: nat, y: nat, k: nat)
    requires IsImage(gray, width, height) && IsGrid(g, width, height) && k < 8
    ensures var e := WindowExponents(gray, width, height, x, y);
            var bases := Bases(cv, gray, width, height, x, y, e.luma);
            CellDither(cv, gray, width, height, g, x, y).mask & BrailleCoords[k].bit != 0
            <==> InBounds(x, y, BrailleCoords[k], width, height)
                 && LumaSeen(g, width, height, x, y, BrailleCoords, bases, BrailleRule, k) > 128.0
  {
    var e := WindowExponents(gray, width, height, x, y);
    BrailleWellFormed();
    DitherMaskBits(g, width, height, x, y, BrailleCoords, Bases(cv, gray, width, height, x, y, e.luma), BrailleRule, k);
  }

  /**
   * A white 2 x 4 cell wholly on the image, over a buffer with no error in
   * it: the gray range is empty, so the exponents are 0.8 and 0.2; every dot
   * is raised (mask 0xFF, the glyph U+28FF), each dot passes on an error of 0
   * so the buffer stays zero, and the colour is white. This needs only that
   * `powf(1, e) = 1` for the four exponents the loop uses.
   */
  lemma WhiteCell(cv: Curves, color: seq<seq<Rgb8>>, gray: seq<seq<Byte>>, width: nat, height: nat, x: nat, y: nat)
    requires IsImage(color, width, height) && IsImage(gray, width, height) && x + 1 < width && y + 3 < height
    requires forall i, j :: y <= i < y + 4 && x <= j < x + 2 ==> color[i][j] == Rgb8(255, 255, 255) && gray[i][j] == 255
    requires cv.powf(1.0, 2.4) == 1.0 && cv.powf(1.0, 1.0 / 2.4) == 1.0
    requires cv.powf(1.0, 0.8) == 1.0 && cv.powf(1.0, 0.2) == 1.0
    ensures WindowExponents(gray, width, height, x, y) == Exponents(0.8, 0.2)
    ensures CellDither(cv, gray, width, height, Zeros(width, height), x, y) == Progress(Zeros(width, height), 0xFF)
    ensures CellColor(cv, color, width, height, x, y, 0.8) == Rgb8(255, 255, 255)
    ensures CellSpec(cv, color, gray, width, height, Zeros(width, height), x, y)
            == Output(CellText(Rgb8(255, 255, 255), 0xFF), Zeros(width, height))
  {
    FlatWhiteExponents(gray, width, height, x, y);
    var z := Zeros(width, height);
    var bases := Bases(cv, gray, width, height, x, y, 0.2);
    assert SrgbToLinear(cv, Unit(255)) == 1.0;
    BrailleWellFormed();
    forall k | 0 <= k < |BrailleCoords|
      ensures InBounds(x, y, BrailleCoords[k], width, height) && bases[k] == 255.0
              && z[y + BrailleCoords[k].dy][x + BrailleCoords[k].dx] == 0.0
    {
      var c := BrailleCoords[k];
      assert gray[y + c.dy][x + c.dx] == 255;
    }
    SaturatedCell(z, width, height, x, y, BrailleCoords, bases, BrailleRule);
    BrailleFullMask();
    WhiteColor(cv, color, width, height, x, y);
  }

  /** A window of gray 255 has the range [255, 255], so the flat-cell exponents. */
  lemma FlatWhiteExponents(gray: seq<seq<Byte>>, width: nat, height: nat, x: nat, y: nat)
    requires IsImage(gray, width, height) && x + 1 < width && y + 3 < height
    requires forall i, j :: y <= i < y + 4 && x <= j < x + 2 ==> gray[i][j] == 255
    ensures WindowExponents(gray, width, height, x, y) == Exponents(0.8, 0.2)
  {
    assert forall k :: 0 <= k < |Window2x4| ==> Window2x4[k].dx < 2 && Window2x4[k].dy < 4;
    OnImageAll(width, height, x, y, Window2x4, 8);
    GrayRange(gray, width, height, x, y, Window2x4, 8);
  }

  /** A white window is drawn white when `powf(1, e) = 1` for the curve and colour exponents. */
  lemma WhiteColor(cv: Curves, color: seq<seq<Rgb8>>, width: nat, height: nat, x: nat, y: nat)
    requires IsImage(color, width, height) && x + 1 < width && y + 3 < height
    requires forall i, j :: y <= i < y + 4 && x <= j < x + 2 ==> color[i][j] == Rgb8(255, 255, 255)
    requires cv.powf(1.0, 2.4) == 1.0 && cv.powf(1.0, 1.0 / 2.4) == 1.0 && cv.powf(1.0, 0.8) == 1.0
    ensures CellColor(cv, color, width, height, x, y, 0.8) == Rgb8(255, 255, 255)
  {
    assert forall k :: 0 <= k < |Window2x4| ==> Window2x4[k].dx < 2 && Window2x4[k].dy < 4;
    WholeWindowMean(cv, color, width, height, x, y, Red, 255);
    WholeWindowMean(cv, color, width, height, x, y, Green, 255);
    WholeWindowMean(cv, color, width, height, x, y, Blue, 255);
    WhiteIsFixed(cv);
    ScaleToU8Nearest(1.0);
  }

  /**
   * The gray range of a cell: the cell origin is on the image, so
   * `min_luma <= max_luma` and both are samples of the window.
   */
  lemma CellGrayRange(gray: seq<seq<Byte>>, width: nat, height: nat, x: nat, y: nat)
    requires IsImage(gray, width, height) && x < width && y < height
    ensures MinGray(gray, width, height, x, y, Window2x4, 8) <= gray[y][x] <= MaxGray(gray, width, height, x, y, Window2x4, 8)
  {
    GrayRange(gray, width, height, x, y, Window2x4, 8);
    assert InBounds(x, y, Window2x4[0], width, height);
  }

  /**
   * Error is written behind the scan: the fourth dot (right column, top
   * row) passes `4/42` of its error to the pixel of the second dot (left
   * column, second row), which has already been read, so that share is
   * never used by this cell.
   */
  lemma WritesBehind(g: Grid, width: nat, height: nat, x: nat, y: nat, bases: seq<real>)
    requires IsGrid(g, width, height) && |bases| == 8 && x + 1 < width && y + 1 < height
    ensures var before := DitherPrefix(g, width, height, x, y, BrailleCoords, bases, BrailleRule, 3);
            var luma := LumaSeen(g, width, height, x, y, BrailleCoords, bases, BrailleRule, 3);
            var err := ErrorValue(luma, IsOn(BrailleRule, luma)) as real;
            DitherPrefix(g, width, height, x, y, BrailleCoords, bases, BrailleRule, 4).grid[y + 1][x]
            == before.grid[y + 1][x] + Share(err, 4)
  {
    var before := DitherPrefix(g, width, height, x, y, BrailleCoords, bases, BrailleRule, 3);
    var luma := LumaSeen(g, width, height, x, y, BrailleCoords, bases, BrailleRule, 3);
    DiffuseAt(before.grid, width, height, x + 1, y, ErrorValue(luma, IsOn(BrailleRule, luma)) as real, y + 1, x);
  }

  /**
   * The window loops of one cell: the linear-light totals of the three
   * channels and the range of the gray samples, over the sub-cells that lie
   * on the image.
   */
  method ScanWindow(cv: Curves, color: seq<seq<Rgb8>>, gray: seq<seq<Byte>>, width: nat, height: nat, x: nat, y: nat)
    returns (rTotal: real, gTotal: real, bTotal: real, minLuma: Byte, maxLuma: Byte)
    requires IsImage(color, width, height) && IsImage(gray, width, height)
    ensures rTotal == LinearTotal(cv, color, width, height, x, y, Window2x4, Red, 8)
    ensures gTotal == LinearTotal(cv, color, width, height, x, y, Window2x4, Green, 8)
    ensures bTotal == LinearTotal(cv, color, width, height, x, y, Window2x4, Blue, 8)
    ensures minLuma == MinGray(gray, width, height, x, y, Window2x4, 8)
    ensures maxLuma == MaxGray(gray, width, height, x, y, Window2x4, 8)
  {
    rTotal, gTotal, bTotal := 0.0, 0.0, 0.0;
    minLuma, maxLuma := 255, 0;
    var k := 0;
    while k < |Window2x4|
      invariant k <= |Window2x4|
      invariant rTotal == LinearTotal(cv, color, width, height, x, y, Window2x4, Red, k)
      invariant gTotal == LinearTotal(cv, color, width, height, x, y, Window2x4, Green, k)
      invariant bTotal == LinearTotal(cv, color, width, height, x, y, Window2x4, Blue, k)
      invariant minLuma == MinGray(gray, width, height, x, y, Window2x4, k)
      invariant maxLuma == MaxGray(gray, width, height, x, y, Window2x4, k)
    {
      rTotal, gTotal, bTotal := AddLinear(cv, color, width, height, x, y, Window2x4, k, rTotal, gTotal, bTotal);
      minLuma, maxLuma := AddGray(gray, width, height, x, y, Window2x4, k, minLuma, maxLuma);
      k := k + 1;
    }
  }

  /** One cell: the window scan, the colour, the dots and the text. */
  method RenderCell(cv: Curves, color: seq<seq<Rgb8>>, gray: seq<seq<Byte>>, buf: ErrorBuffer, x: nat, y: nat)
    returns (text: string)
    requires buf.Valid() && IsImage(color, buf.width, buf.height) && IsImage(gray, buf.width, buf.height)
    modifies buf, buf.data
    ensures buf.Valid()
    ensures CellSpec(cv, color, gray, buf.width, buf.height, old(buf.grid), x, y) == Output(text, buf.grid)
  {
    var width, height := buf.width, buf.height;
    ghost var g0 := buf.grid;
    var rTotal, gTotal, bTotal, minLuma, maxLuma := ScanWindow(cv, color, gray, width, height, x, y);
    var e := CellExponents(minLuma, maxLuma);
    assert e == WindowExponents(gray, width, height, x, y);
    var rgb := Rgb8(EncodeByte(cv, cv.powf(rTotal / 8.0, e.color)), EncodeByte(cv, cv.powf(gTotal / 8.0, e.color)),
                    EncodeByte(cv, cv.powf(bTotal / 8.0, e.color)));
    assert rgb == CellColor(cv, color, width, height, x, y, e.color);
    var mask := DitherCell(buf, x, y, BrailleCoords, Bases(cv, gray, width, height, x, y, e.luma), BrailleRule);
    ghost var p := CellDither(cv, gray, width, height, g0, x, y);
    assert mask == p.mask && buf.grid == p.grid;
    text := Sgr(CellParams(rgb)) + [BrailleGlyph(mask)] + Reset;
    assert text == CellText(rgb, mask);
  }

  /**
   * The body of the column loop: render the cell at column `x` and append
   * its text to the line (`write!(line, ..)`).
   */
  method AppendCell(cv: Curves, color: seq<seq<Rgb8>>, gray: seq<seq<Byte>>, buf: ErrorBuffer,
                    ghost spec: Output, x: nat, y: nat, line: string)
    returns (line': string)
    requires buf.Valid() && IsImage(color, buf.width, buf.height) && IsImage(gray, buf.width, buf.height)
    requires x < buf.width
    requires var rest := RowFrom(cv, color, gray, buf.width, buf.height, buf.grid, x, y);
             spec == Output(line + rest.text, rest.grid)
    modifies buf, buf.data
    ensures buf.Valid()
    ensures var rest := RowFrom(cv, color, gray, buf.width, buf.height, buf.grid, x + 2, y);
            spec == Output(line' + rest.text, rest.grid)
  {
    ghost var c := CellSpec(cv, color, gray, buf.width, buf.height, buf.grid, x, y);
    ghost var rest := RowFrom(cv, color, gray, buf.width, buf.height, c.grid, x + 2, y);
    assert spec == Output(line + (c.text + rest.text), rest.grid);
    var cell := RenderCell(cv, color, gray, buf, x, y);
    assert c == Output(cell, buf.grid);
    line' := line + cell;
    AppendAssoc(line, cell, rest.text);
  }

  /** One line: the cells of row `y`, left to right, sharing the buffer. */
  method RenderRow(cv: Curves, color: seq<seq<Rgb8>>, gray: seq<seq<Byte>>, buf: ErrorBuffer, y: nat)
    returns (line: string)
    requires buf.Valid() && IsImage(color, buf.width, buf.height) && IsImage(gray, buf.width, buf.height)
    modifies buf, buf.data
    ensures buf.Valid()
    ensures RowSpec(cv, color, gray, buf.width, buf.height, old(buf.grid), y) == Output(line, buf.grid)
  {
    ghost var spec := RowSpec(cv, color, gray, buf.width, buf.height, buf.grid, y);
    line := [];
    AppendEmpty(spec.text);
    var x: nat := 0;
    while x < buf.width
      invariant buf.Valid()
      invariant var rest := RowFrom(cv, color, gray, buf.width, buf.height, buf.grid, x, y);
                spec == Output(line + rest.text, rest.grid)
      decreases buf.width - x
    {
      line := AppendCell(cv, color, gray, buf, spec, x, y, line);
      x := x + 2;
    }
    AppendEmpty(line);
  }

  /** Appending the line of row `m` to the first `m` lines gives the first `m + 1`. */
  lemma FrameNext(cv: Curves, color: seq<seq<Rgb8>>, gray: seq<seq<Byte>>, width: nat, height: nat,
                  g0: Grid, m: nat, lines: seq<string>, before: Grid, line: string, after: Grid)
    requires IsImage(color, width, height) && IsImage(gray, width, height) && IsGrid(g0, width, height) && IsGrid(before, width, height)
    requires FramePrefix(cv, color, gray, width, height, g0, m) == Frame(lines, before)
    requires RowSpec(cv, color, gray, width, height, before, 4 * m) == Output(line, after)
    ensures FramePrefix(cv, color, gray, width, height, g0, m + 1) == Frame(lines + [line], after)
  {
  }

  /** Renders the row of cells at `y == 4 * m`, appends its line to the `m` lines so far and steps down. */
  method AppendRow(cv: Curves, color: seq<seq<Rgb8>>, gray: seq<seq<Byte>>, buf: ErrorBuffer, y: nat,
                   ghost g0: Grid, ghost m: nat, ghost total: nat, lines: seq<string>)
    returns (next: seq<string>, y': nat, ghost m': nat)
    requires buf.Valid() && IsImage(color, buf.width, buf.height) && IsImage(gray, buf.width, buf.height) && IsGrid(g0, buf.width, buf.height)
    requires y < buf.height && y == 4 * m && m + StepCount(y, buf.height, 4) == total
    requires FramePrefix(cv, color, gray, buf.width, buf.height, g0, m) == Frame(lines, buf.grid)
    modifies buf, buf.data
    ensures buf.Valid()
    ensures y' == 4 * m' && m' + StepCount(y', buf.height, 4) == total && y' > y
    ensures FramePrefix(cv, color, gray, buf.width, buf.height, g0, m') == Frame(next, buf.grid)
  {
    ghost var before := buf.grid;
    var line := RenderRow(cv, color, gray, buf, y);
    FrameNext(cv, color, gray, buf.width, buf.height, g0, m, lines, before, line, buf.grid);
    StepCountNext(y, buf.height, 4, m, total);
    next := lines + [line];
    y', m' := y + 4, m + 1;
  }

  /**
   * braille.rs `render_image` after the image is loaded: the buffer starts
   * at zero, one line per 4 pixel rows.
   */
  method Render(cv: Curves, color: seq<seq<Rgb8>>, gray: seq<seq<Byte>>, width: nat, height: nat)
    returns (lines: seq<string>)
    requires IsImage(color, width, height) && IsImage(gray, width, height)
    ensures lines == FrameSpec(cv, color, gray, width, height).lines
  {
    var buf := new ErrorBuffer(width, height);
    lines := [];
    var y := 0;
    ghost var m := 0;
    ghost var total := StepCount(0, height, 4);
    ghost var g0 := buf.grid;
    while y < height
      invariant buf.Valid() && buf.width == width && buf.height == height && fresh(buf.data)
      invariant y == 4 * m && m + StepCount(y, height, 4) == total
      invariant FramePrefix(cv, color, gray, width, height, g0, m) == Frame(lines, buf.grid)
      decreases height - y
    {
      lines, y, m := AppendRow(cv, color, gray, buf, y, g0, m, total, lines);
    }
  }
}
