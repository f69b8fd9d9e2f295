/**
 * The render loop of main.rs: cells of 2 x 4 pixels, each drawn as one
 * Braille Patterns character in bold truecolour on the terminal's own
 * background. The colour is the square root of the linear-light window
 * total divided by 8; the dots come from the square root of the gray
 * samples compared with a user threshold (inverted on request), with
 * Stucki error diffusion through one buffer shared by the whole image.
 */
module MonoRender {
  import opened Numeric
  import opened ColorSpace
  import opened Ansi
  import opened Seqs
  import opened Geometry
  import opened Glyphs
  import opened Diffusion
  import opened Dither
  import opened Raster

  /** The command-line switches the loop reads: `--threshold` (default 128) and `--invert`. */
  datatype Options = Options(threshold: Byte, invert: bool)

  const DefaultOptions: Options := Options(128, false)

  /** `(avg.sqrt().clamp(0.0, 1.0) * 255.0).round() as u8`. */
  function ChannelByte(cv: Curves, avg: real): (b: Byte)
    ensures 0.0 <= cv.sqrt(avg) <= 1.0 ==> b == Round(cv.sqrt(avg) * 255.0)
    ensures cv.sqrt(avg) <= 0.0 ==> b == 0
    ensures cv.sqrt(avg) >= 1.0 ==> b == 255
  {
    ScaleToU8(Clamp(cv.sqrt(avg), 0.0, 1.0))
  }

  /** The colour of the cell at (x, y): each channel's window total over 8, through `ChannelByte`. */
  function CellColor(cv: Curves, color: seq<seq<Rgb8>>, width: nat, height: nat, x: nat, y: nat): Rgb8
    requires IsImage(color, width, height)
  {
    Rgb8(ChannelByte(cv, LinearTotal(cv, color, width, height, x, y, Window2x4, Red, 8) / 8.0),
         ChannelByte(cv, LinearTotal(cv, color, width, height, x, y, Window2x4, Green, 8) / 8.0),
         ChannelByte(cv, LinearTotal(cv, color, width, height, x, y, Window2x4, Blue, 8) / 8.0))
  }

  /**
   * A cell wholly on the image whose pixels all have the same colour is
   * drawn in `sqrt(srgb_to_linear(v / 255))` per channel, not in `v`: the
   * loop decodes to linear light but re-encodes with a square root.
   */
  lemma UniformCellColor(cv: Curves, color: seq<seq<Rgb8>>, width: nat, height: nat, x: nat, y: nat, c: Rgb8)
    requires IsImage(color, width, height) && x + 1 < width && y + 3 < height
    requires forall k :: 0 <= k < |Window2x4| ==> color[y + Window2x4[k].dy][x + Window2x4[k].dx] == c
    ensures CellColor(cv, color, width, height, x, y)
         == Rgb8(ChannelByte(cv, SrgbToLinear(cv, Unit(c.r))), ChannelByte(cv, SrgbToLinear(cv, Unit(c.g))),
                 ChannelByte(cv, SrgbToLinear(cv, Unit(c.b))))
  {
    UniformChannelMean(cv, color, width, height, x, y, c, Red);
    UniformChannelMean(cv, color, width, height, x, y, c, Green);
    UniformChannelMean(cv, color, width, height, x, y, c, Blue);
  }

  lemma UniformChannelMean(cv: Curves, color: seq<seq<Rgb8>>, width: nat, height: nat, x: nat, y: nat, c: Rgb8, ch: Channel)
    requires IsImage(color, width, height) && x + 1 < width && y + 3 < height
    requires forall k :: 0 <= k < |Window2x4| ==> color[y + Window2x4[k].dy][x + Window2x4[k].dx] == c
    ensures LinearTotal(cv, color, width, height, x, y, Window2x4, ch, 8) / 8.0 == SrgbToLinear(cv, Unit(Component8(c, ch)))
  {
    WholeWindowMean(cv, color, width, height, x, y, ch, Component8(c, ch));
  }

  /** The dithering luma of sub-cell `c` before error is added: `sqrt(gray / 255) * 255`. */
  function BaseLuma(cv: Curves, gray: seq<seq<Byte>>, width: nat, height: nat, x: nat, y: nat, c: SubCell): real
    requires IsImage(gray, width, height)
  {
    if InBounds(x, y, c, width, height) then cv.sqrt(Unit(GrayAt(gray, width, height, x, y, c))) * 255.0 else 0.0
  }

  function Bases(cv: Curves, gray: seq<seq<Byte>>, width: nat, height: nat, x: nat, y: nat): (b: seq<real>)
    requires IsImage(gray, width, height)
    ensures |b| == |BrailleCoords|
  {
    seq(|BrailleCoords|, k requires 0 <= k < |BrailleCoords| => BaseLuma(cv, gray, width, height, x, y, BrailleCoords[k]))
  }

  /** The SGR parameters of a cell: bold and a truecolour foreground. */
  function CellParams(c: Rgb8): seq<nat> {
    [1, 38, 2, c.r, c.g, c.b]
  }

  /** `ESC[1;38;2;R;G;Bm<glyph>ESC[0m`. */
  function CellText(c: Rgb8, mask: bv8): string {
    Sgr(CellParams(c)) + [BrailleGlyph(mask)] + Reset
  }

  /** A cell's text decodes back to its colour and its mask. */
  lemma CellTextDecodes(c: Rgb8, mask: bv8)
    ensures ParseSgr(CellText(c, mask)) == Some((CellParams(c), [BrailleGlyph(mask)] + Reset))
    ensures BrailleDots(BrailleGlyph(mask)) == Some(mask)
  {
    AppendAssoc(Sgr(CellParams(c)), [BrailleGlyph(mask)], Reset);
    SgrRoundTrip(CellParams(c), [BrailleGlyph(mask)] + Reset);
    BrailleRoundTrip(mask);
  }

  function CellDither(cv: Curves, opts: Options, gray: seq<seq<Byte>>, width: nat, height: nat, g: Grid, x: nat, y: nat): (p: Progress)
    requires IsImage(gray, width, height) && IsGrid(g, width, height)
    ensures IsGrid(p.grid, width, height)
  {
    DitherCellSpec(g, width, height, x, y, BrailleCoords, Bases(cv, gray, width, height, x, y), MonoRule(opts.threshold, opts.invert))
  }

  function CellSpec(cv: Curves, opts: Options, color: seq<seq<Rgb8>>, gray: seq<seq<Byte>>, width: nat, height: nat,
                    g: Grid, x: nat, y: nat): (o: Output)
    requires IsImage(color, width, height) && IsImage(gray, width, height) && IsGrid(g, width, height)
    ensures IsGrid(o.grid, width, height)
  {
    var p := CellDither(cv, opts, gray, width, height, g, x, y);
    Output(CellText(CellColor(cv, color, width, height, x, y), p.mask), p.grid)
  }

  /** The cells of row `y` from column `x` to the right edge, starting from the error grid `g`. */
  function RowFrom(cv: Curves, opts: Options, color: seq<seq<Rgb8>>, gray: seq<seq<Byte>>, width: nat, height: nat,
                   g: Grid, x: nat, y: nat): (o: Output)
    requires IsImage(color, width, height) && IsImage(gray, width, height) && IsGrid(g, width, height)
    ensures IsGrid(o.grid, width, height)
    decreases width - x
  {
    if x >= width then Output([], g)
    else
      var c := CellSpec(cv, opts, color, gray, width, height, g, x, y);
      var rest := RowFrom(cv, opts, color, gray, width, height, c.grid, x + 2, y);
      Output(c.text + rest.text, rest.grid)
  }

  function RowSpec(cv: Curves, opts: Options, color: seq<seq<Rgb8>>, gray: seq<seq<Byte>>, width: nat, height: nat,
                   g: Grid, y: nat): (o: Output)
    requires IsImage(color, width, height) && IsImage(gray, width, height) && IsGrid(g, width, height)
    ensures IsGrid(o.grid, width, height)
  {
    RowFrom(cv, opts, color, gray, width, height, g, 0, y)
  }

  function FramePrefix(cv: Curves, opts: Options, color: seq<seq<Rgb8>>, gray: seq<seq<Byte>>, width: nat, height: nat,
                       g: Grid, m: nat): (f: Frame)
    requires IsImage(color, width, height) && IsImage(gray, width, height) && IsGrid(g, width, height)
    ensures IsGrid(f.grid, width, height)
  {
    if m == 0 then Frame([], g)
    else
      var done := FramePrefix(cv, opts, color, gray, width, height, g, m - 1);
      var row := RowSpec(cv, opts, color, gray, width, height, done.grid, 4 * (m - 1));
      Frame(done.lines + [row.text], row.grid)
  }

  /** The whole picture: one line per 4 pixel rows, from a zeroed buffer. */
  function FrameSpec(cv: Curves, opts: Options, color: seq<seq<Rgb8>>, gray: seq<seq<Byte>>, width: nat, height: nat): Frame
    requires IsImage(color, width, height) && IsImage(gray, width, height)
  {
    FramePrefix(cv, opts, color, gray, width, height, Zeros(width, height), StepCount(0, height, 4))
  }

  lemma {:induction false} FramePrefixLength(cv: Curves, opts: Options, color: seq<seq<Rgb8>>, gray: seq<seq<Byte>>,
                                             width: nat, height: nat, g: Grid, m: nat)
    requires IsImage(color, width, height) && IsImage(gray, width, height) && IsGrid(g, width, height)
    ensures |FramePrefix(cv, opts, color, gray, width, height, g, m).lines| == m
  {
    if m > 0 {
      FramePrefixLength(cv, opts, color, gray, width, height, g, m - 1);
    }
  }

  /** One line per 4 pixel rows, the last one possibly partial. */
  lemma ImageLineCount(cv: Curves, opts: Options, color: seq<seq<Rgb8>>, gray: seq<seq<Byte>>, width: nat, height: nat)
    requires IsImage(color, width, height) && IsImage(gray, width, height)
    ensures |FrameSpec(cv, opts, color, gray, width, height).lines| == (height + 3) / 4
  {
    FramePrefixLength(cv, opts, color, gray, width, height, Zeros(width, height), StepCount(0, height, 4));
    StepCountIsCeiling(0, height, 4);
  }

  /**
   * A white 2 x 4 cell wholly on the image, over a buffer with no error in
   * it, under the default (non-inverted) rule with a threshold below 255:
   * every dot is raised (mask 0xFF, the glyph U+28FF), each dot passes on an
   * error of 0 so the buffer stays zero, and the colour is white. This needs
   * only `sqrt(1) = 1` and `powf(1, 2.4) = 1` of the float library.
   */
  lemma WhiteCell(cv: Curves, opts: Options, color: seq<seq<Rgb8>>, gray: seq<seq<Byte>>, width: nat, height: nat, x: nat, y: nat)
    requires IsImage(color, width, height) && IsImage(gray, width, height) && x + 1 < width && y + 3 < height
    requires forall i, j :: y <= i < y + 4 && x <= j < x + 2 ==> color[i][j] == Rgb8(255, 255, 255) && gray[i][j] == 255
    requires cv.sqrt(1.0) == 1.0 && cv.powf(1.0, 2.4) == 1.0
    requires !opts.invert && opts.threshold < 255
    ensures CellDither(cv, opts, gray, width, height, Zeros(width, height), x, y) == Progress(Zeros(width, height), 0xFF)
    ensures CellColor(cv, color, width, height, x, y) == Rgb8(255, 255, 255)
    ensures CellSpec(cv, opts, color, gray, width, height, Zeros(width, height), x, y)
            == Output(CellText(Rgb8(255, 255, 255), 0xFF), Zeros(width, height))
  {
    var z := Zeros(width, height);
    var bases := Bases(cv, gray, width, height, x, y);
    BrailleWellFormed();
    forall k | 0 <= k < |BrailleCoords|
      ensures InBounds(x, y, BrailleCoords[k], width, height) && bases[k] == 255.0
              && z[y + BrailleCoords[k].dy][x + BrailleCoords[k].dx] == 0.0
    {
      var c := BrailleCoords[k];
      assert gray[y + c.dy][x + c.dx] == 255;
    }
    SaturatedCell(z, width, height, x, y, BrailleCoords, bases, MonoRule(opts.threshold, opts.invert));
    BrailleFullMask();
    var white := Rgb8(255, 255, 255);
    assert forall k :: 0 <= k < |Window2x4| ==> Window2x4[k].dx < 2 && Window2x4[k].dy < 4;
    UniformCellColor(cv, color, width, height, x, y, white);
    assert SrgbToLinear(cv, Unit(255)) == 1.0;
  }

  /**
   * The dots of a cell: dot `k` is raised exactly when sub-cell `k` lies on
   * the image and its luma plus the error waiting for it is above the
   * threshold, or below it with `--invert`.
   */
  lemma CellDots(cv: Curves, opts: Options, gray: seq<seq<Byte>>, width: nat, height: nat, g: Grid, x: nat, y: nat, k: nat)
    requires IsImage(gray, width, height) && IsGrid(g, width, height) && k < 8
    ensures var rule := MonoRule(opts.threshold, opts.invert);
            var bases := Bases(cv, gray, width, height, x, y);
            CellDither(cv, opts, gray, width, height, g, x, y).mask & BrailleCoords[k].bit != 0
            <==> InBounds(x, y, BrailleCoords[k], width, height)
                 && var seen := LumaSeen(g, width, height, x, y, BrailleCoords, bases, rule, k);
                    if opts.invert then seen < opts.threshold as real else seen > opts.threshold as real
  {
    var rule := MonoRule(opts.threshold, opts.invert);
    BrailleWellFormed();
    DitherMaskBits(g, width, height, x, y, BrailleCoords, Bases(cv, gray, width, height, x, y), rule, k);
    if InBounds(x, y, BrailleCoords[k], width, height) {
      MonoRuleDecides(opts.threshold, opts.invert, LumaSeen(g, width, height, x, y, BrailleCoords, Bases(cv, gray, width, height, x, y), rule, k));
    }
  }

  /** The colour loops of one cell: the linear-light totals of the sub-cells on the image. */
  method ScanColors(cv: Curves, color: seq<seq<Rgb8>>, width: nat, height: nat, x: nat, y: nat)
    returns (rTotal: real, gTotal: real, bTotal: real)
    requires IsImage(color, width, height)
    ensures rTotal == LinearTotal(cv, color, width, height, x, y, Window2x4, Red, 8)
    ensures gTotal == LinearTotal(cv, color, width, height, x, y, Window2x4, Green, 8)
    ensures bTotal == LinearTotal(cv, color, width, height, x, y, Window2x4, Blue, 8)
  {
    rTotal, gTotal, bTotal := 0.0, 0.0, 0.0;
    var k := 0;
    while k < |Window2x4|
      invariant k <= |Window2x4|
      invariant rTotal == LinearTotal(cv, color, width, height, x, y, Window2x4, Red, k)
      invariant gTotal == LinearTotal(cv, color, width, height, x, y, Window2x4, Green, k)
      invariant bTotal == LinearTotal(cv, color, width, height, x, y, Window2x4, Blue, k)
    {
      rTotal, gTotal, bTotal := AddLinear(cv, color, width, height, x, y, Window2x4, k, rTotal, gTotal, bTotal);
      k := k + 1;
    }
  }

  /** One cell: the colour, the dots and the text. */
  method RenderCell(cv: Curves, opts: Options, color: seq<seq<Rgb8>>, gray: seq<seq<Byte>>, buf: ErrorBuffer, x: nat, y: nat)
    returns (text: string)
    requires buf.Valid() && IsImage(color, buf.width, buf.height) && IsImage(gray, buf.width, buf.height)
    modifies buf, buf.data
    ensures buf.Valid()
    ensures CellSpec(cv, opts, color, gray, buf.width, buf.height, old(buf.grid), x, y) == Output(text, buf.grid)
  {
    var width, height := buf.width, buf.height;
    ghost var g0 := buf.grid;
    var rTotal, gTotal, bTotal := ScanColors(cv, color, width, height, x, y);
    var rgb := Rgb8(ChannelByte(cv, rTotal / 8.0), ChannelByte(cv, gTotal / 8.0), ChannelByte(cv, bTotal / 8.0));
    assert rgb == CellColor(cv, color, width, height, x, y);
    var mask := DitherCell(buf, x, y, BrailleCoords, Bases(cv, gray, width, height, x, y), MonoRule(opts.threshold, opts.invert));
    ghost var p := CellDither(cv, opts, gray, width, height, g0, x, y);
    assert mask == p.mask && buf.grid == p.grid;
    text := Sgr(CellParams(rgb)) + [BrailleGlyph(mask)] + Reset;
    assert text == CellText(rgb, mask);
  }

  /**
   * The body of the column loop: render the cell at column `x` and append
   * its text to the line (`write!(line, ..)`).
   */
  method AppendCell(cv: Curves, opts: Options, color: seq<seq<Rgb8>>, gray: seq<seq<Byte>>, buf: ErrorBuffer,
                    ghost spec: Output, x: nat, y: nat, line: string)
    returns (line': string)
    requires buf.Valid() && IsImage(color, buf.width, buf.height) && IsImage(gray, buf.width, buf.height)
    requires x < buf.width
    requires var rest := RowFrom(cv, opts, color, gray, buf.width, buf.height, buf.grid, x, y);
             spec == Output(line + rest.text, rest.grid)
    modifies buf, buf.data
    ensures buf.Valid()
    ensures var rest := RowFrom(cv, opts, color, gray, buf.width, buf.height, buf.grid, x + 2, y);
            spec == Output(line' + rest.text, rest.grid)
  {
    ghost var c := CellSpec(cv, opts, color, gray, buf.width, buf.height, buf.grid, x, y);
    ghost var rest := RowFrom(cv, opts, color, gray, buf.width, buf.height, c.grid, x + 2, y);
    assert spec == Output(line + (c.text + rest.text), rest.grid);
    var cell := RenderCell(cv, opts, color, gray, buf, x, y);
    assert c == Output(cell, buf.grid);
    line' := line + cell;
    AppendAssoc(line, cell, rest.text);
  }

  /** One line: the cells of row `y`, left to right, sharing the buffer. */
  method RenderRow(cv: Curves, opts: Options, color: seq<seq<Rgb8>>, gray: seq<seq<Byte>>, buf: ErrorBuffer, y: nat)
    returns (line: string)
    requires buf.Valid() && IsImage(color, buf.width, buf.height) && IsImage(gray, buf.width, buf.height)
    modifies buf, buf.data
    ensures buf.Valid()
    ensures RowSpec(cv, opts, color, gray, buf.width, buf.height, old(buf.grid), y) == Output(line, buf.grid)
  {
    ghost var spec := RowSpec(cv, opts, color, gray, buf.width, buf.height, buf.grid, y);
    line := [];
    AppendEmpty(spec.text);
    var x: nat := 0;
    while x < buf.width
      invariant buf.Valid()
      invariant var rest := RowFrom(cv, opts, color, gray, buf.width, buf.height, buf.grid, x, y);
                spec == Output(line + rest.text, rest.grid)
      decreases buf.width - x
    {
      line := AppendCell(cv, opts, color, gray, buf, spec, x, y, line);
      x := x + 2;
    }
    AppendEmpty(line);
  }

  /** Appending the line of row `m` to the first `m` lines gives the first `m + 1`. */
  lemma FrameNext(cv: Curves, opts: Options, color: seq<seq<Rgb8>>, gray: seq<seq<Byte>>, width: nat, height: nat,
                  g0: Grid, m: nat, lines: seq<string>, before: Grid, line: string, after: Grid)
    requires IsImage(color, width, height) && IsImage(gray, width, height) && IsGrid(g0, width, height) && IsGrid(before, width, height)
    requires FramePrefix(cv, opts, color, gray, width, height, g0, m) == Frame(lines, before)
    requires RowSpec(cv, opts, color, gray, width, height, before, 4 * m) == Output(line, after)
    ensures FramePrefix(cv, opts, color, gray, width, height, g0, m + 1) == Frame(lines + [line], after)
  {
  }

  /** Renders the row of cells at `y == 4 * m`, appends its line to the `m` lines so far and steps down. */
  method AppendRow(cv: Curves, opts: Options, color: seq<seq<Rgb8>>, gray: seq<seq<Byte>>, buf: ErrorBuffer, y: nat,
                   ghost g0: Grid, ghost m: nat, ghost total: nat, lines: seq<string>)
    returns (next: seq<string>, y': nat, ghost m': nat)
    requires buf.Valid() && IsImage(color, buf.width, buf.height) && IsImage(gray, buf.width, buf.height) && IsGrid(g0, buf.width, buf.height)
    requires y < buf.height && y == 4 * m && m + StepCount(y, buf.height, 4) == total
    requires FramePrefix(cv, opts, color, gray, buf.width, buf.height, g0, m) == Frame(lines, buf.grid)
    modifies buf, buf.data
    ensures buf.Valid()
    ensures y' == 4 * m' && m' + StepCount(y', buf.height, 4) == total && y' > y
    ensures FramePrefix(cv, opts, color, gray, buf.width, buf.height, g0, m') == Frame(next, buf.grid)
  {
    ghost var before := buf.grid;
    var line := RenderRow(cv, opts, color, gray, buf, y);
    FrameNext(cv, opts, color, gray, buf.width, buf.height, g0, m, lines, before, line, buf.grid);
    StepCountNext(y, buf.height, 4, m, total);
    next := lines + [line];
    y', m' := y + 4, m + 1;
  }

  /**
   * main.rs from the render loop on: the buffer starts at zero, one line
   * per 4 pixel rows.
   */
  method Render(cv: Curves, opts: Options, color: seq<seq<Rgb8>>, gray: seq<seq<Byte>>, width: nat, height: nat)
    returns (lines: seq<string>)
    requires IsImage(color, width, height) && IsImage(gray, width, height)
    ensures lines == FrameSpec(cv, opts, color, gray, width, height).lines
  {
    var buf := new ErrorBuffer(width, height);
    lines := [];
    var y := 0;
    ghost var m := 0;
    ghost var total := StepCount(0, height, 4);
    ghost var g0 := buf.grid;
    while y < height
      invariant buf.Valid() && buf.width == width && buf.height == height && fresh(buf.data)
      invariant y == 4 * m && m + StepCount(y, height, 4) == total
      invariant FramePrefix(cv, opts, color, gray, width, height, g0, m) == Frame(lines, buf.grid)
      decreases height - y
    {
      lines, y, m := AppendRow(cv, opts, color, gray, buf, y, g0, m, total, lines);
    }
  }
}
