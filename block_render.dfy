/**
 * The render loops of quadrant.rs and sextant.rs, which differ only in
 * their geometry: cells 2 pixels wide and 2 (quadrants) or 3 (sextants)
 * tall, each drawn as a block character with a truecolour foreground and
 * background found by Block Truncation Coding. Nothing is carried from one
 * cell to the next but the text.
 */
module BlockRender {
  import opened Numeric
  import opened ColorSpace
  import opened Ansi
  import opened Seqs
  import opened Geometry
  import opened Glyphs
  import opened Raster
  import opened Btc

  /** A glyph family: its `coords` table, its mask-indexed character table and its cell height. */
  datatype Family = Family(coords: seq<SubCell>, table: seq<char>, cellHeight: nat)

  /** quadrant.rs: 2 x 2 cells, `QUADRANTS`. */
  const QuadrantFamily: Family := Family(QuadrantCoords, Quadrants, 2)

  /** sextant.rs: 2 x 3 cells, `SEXTANTS`. */
  const SextantFamily: Family := Family(SextantCoords, Sextants, 3)

  predicate IsFamily(f: Family) {
    f == QuadrantFamily || f == SextantFamily
  }

  /**
   * What the renderers rely on: one entry per position of a 2-wide cell,
   * the origin first, one bit each, and a character for every mask up to
   * the full one, which is the full block U+2588.
   */
  lemma FamilyFacts(f: Family)
    requires IsFamily(f)
    ensures WellFormed(f.coords, 2, f.cellHeight) && f.cellHeight > 0
    ensures f.coords[0] == SubCell(0, 0, 1)
    ensures FullMask(f.coords) as int + 1 == |f.table|
    ensures f.table[FullMask(f.coords)] == '\U{2588}'
  {
    if f == QuadrantFamily {
      QuadrantWellFormed();
      QuadrantFullMask();
    } else {
      SextantWellFormed();
      SextantFullMask();
      SextantsMatchChart();
    }
  }

  /** `p[c] as f32 / 255.0` for the three channels of the pixel under sub-cell `c`. */
  function SampleAt(color: seq<seq<Rgb8>>, width: nat, height: nat, x: nat, y: nat, c: SubCell): Rgb
    requires IsImage(color, width, height) && InBounds(x, y, c, width, height)
  {
    var p := color[y + c.dy][x + c.dx];
    Rgb(Unit(p.r), Unit(p.g), Unit(p.b))
  }

  /** The colour of every table entry (black for one off the image, which is never read). */
  function Samples(f: Family, color: seq<seq<Rgb8>>, width: nat, height: nat, x: nat, y: nat): (s: seq<Rgb>)
    requires IsImage(color, width, height)
    ensures |s| == |f.coords|
  {
    seq(|f.coords|, k requires 0 <= k < |f.coords| =>
      if InBounds(x, y, f.coords[k], width, height) then SampleAt(color, width, height, x, y, f.coords[k]) else Black)
  }

  /** The `pixels` vector of the cell at (x, y). */
  function CellPixels(f: Family, color: seq<seq<Rgb8>>, width: nat, height: nat, x: nat, y: nat): seq<PixelData>
    requires IsImage(color, width, height)
  {
    Pixels(x, y, width, height, f.coords, Samples(f, color, width, height, x, y))
  }

  /**
   * The cell at (x, y): a blank when no sub-cell lies on the image;
   * otherwise the table character of the foreground mask over the two
   * group averages.
   */
  function CellSpec(cv: Curves, f: Family, color: seq<seq<Rgb8>>, width: nat, height: nat, x: nat, y: nat): string
    requires IsImage(color, width, height)
  {
    var ps := CellPixels(f, color, width, height, x, y);
    if ps == [] then [' ']
    else
      var t := Threshold(ps);
      var fg := Foreground(ps, t);
      ColorText(AverageColor(cv, fg), AverageColor(cv, Background(ps, t)), TableGet(f.table, GroupMask(fg) as int))
  }

  /**
   * A cell reads only its own window: two images that agree on the pixels
   * under the cell's in-bounds sub-cells draw the same cell.
   */
  lemma CellLocal(cv: Curves, f: Family, c1: seq<seq<Rgb8>>, c2: seq<seq<Rgb8>>, width: nat, height: nat, x: nat, y: nat)
    requires IsImage(c1, width, height) && IsImage(c2, width, height)
    requires forall k :: 0 <= k < |f.coords| && InBounds(x, y, f.coords[k], width, height) ==>
               c1[y + f.coords[k].dy][x + f.coords[k].dx] == c2[y + f.coords[k].dy][x + f.coords[k].dx]
    ensures CellSpec(cv, f, c1, width, height, x, y) == CellSpec(cv, f, c2, width, height, x, y)
  {
    assert Samples(f, c1, width, height, x, y) == Samples(f, c2, width, height, x, y);
  }

  /** The cells of row `y` from column `x` to the right edge. */
  function RowFrom(cv: Curves, f: Family, color: seq<seq<Rgb8>>, width: nat, height: nat, x: nat, y: nat): string
    requires IsImage(color, width, height)
    decreases width - x
  {
    if x >= width then [] else CellSpec(cv, f, color, width, height, x, y) + RowFrom(cv, f, color, width, height, x + 2, y)
  }

  /** The lines of the cell rows from pixel row `y` down, each closed by a reset. */
  function FrameFrom(cv: Curves, f: Family, color: seq<seq<Rgb8>>, width: nat, height: nat, y: nat): seq<string>
    requires IsImage(color, width, height) && f.cellHeight > 0
    decreases height - y
  {
    if y >= height then []
    else [RowFrom(cv, f, color, width, height, 0, y) + Reset] + FrameFrom(cv, f, color, width, height, y + f.cellHeight)
  }

  /** The whole picture: one line per cell height of pixel rows. */
  function FrameSpec(cv: Curves, f: Family, color: seq<seq<Rgb8>>, width: nat, height: nat): seq<string>
    requires IsImage(color, width, height) && f.cellHeight > 0
  {
    FrameFrom(cv, f, color, width, height, 0)
  }

  lemma {:induction false} FrameFromClosed(cv: Curves, f: Family, color: seq<seq<Rgb8>>, width: nat, height: nat, y: nat)
    requires IsImage(color, width, height) && f.cellHeight > 0
    ensures var lines := FrameFrom(cv, f, color, width, height, y);
            AllClosed(lines)
    decreases height - y
  {
    if y < height {
      FrameFromClosed(cv, f, color, width, height, y + f.cellHeight);
      FrameFromNext(cv, f, color, width, height, y);
    }
  }

  lemma FrameFromNext(cv: Curves, f: Family, color: seq<seq<Rgb8>>, width: nat, height: nat, y: nat)
    requires IsImage(color, width, height) && f.cellHeight > 0 && y < height
    requires AllClosed(FrameFrom(cv, f, color, width, height, y + f.cellHeight))
    ensures AllClosed(FrameFrom(cv, f, color, width, height, y))
  {
    ConsLine(FrameFrom(cv, f, color, width, height, y), RowFrom(cv, f, color, width, height, 0, y),
             FrameFrom(cv, f, color, width, height, y + f.cellHeight));
  }

  lemma {:induction false} FrameFromCount(cv: Curves, f: Family, color: seq<seq<Rgb8>>, width: nat, height: nat, y: nat)
    requires IsImage(color, width, height) && f.cellHeight > 0
    ensures |FrameFrom(cv, f, color, width, height, y)| == StepCount(y, height, f.cellHeight)
    decreases height - y
  {
    if y < height {
      FrameFromCount(cv, f, color, width, height, y + f.cellHeight);
    }
  }

  /**
   * One line per 2 (quadrants) or 3 (sextants) pixel rows, the last one
   * possibly partial, and every line ends with a reset.
   */
  lemma ImageLines(cv: Curves, f: Family, color: seq<seq<Rgb8>>, width: nat, height: nat)
    requires IsImage(color, width, height) && IsFamily(f)
    ensures var lines := FrameSpec(cv, f, color, width, height);
            |lines| == (height + f.cellHeight - 1) / f.cellHeight
            && AllClosed(lines)
  {
    FrameFromCount(cv, f, color, width, height, 0);
    FrameFromClosed(cv, f, color, width, height, 0);
    StepCountIsCeiling(0, height, f.cellHeight);
  }

  /**
   * The mask of a cell always indexes the character table, so
   * `get(char_mask).unwrap_or(&' ')` never falls back; bit `k` is set
   * exactly when sub-cell `k` lies on the image and its luma is at least
   * the cell's mean; and a cell with a pixel never gets the empty mask.
   */
  lemma CellMask(f: Family, color: seq<seq<Rgb8>>, width: nat, height: nat, x: nat, y: nat, k: nat)
    requires IsImage(color, width, height) && IsFamily(f) && k < |f.coords|
    requires CellPixels(f, color, width, height, x, y) != []
    ensures var ps := CellPixels(f, color, width, height, x, y);
            var m := GroupMask(Foreground(ps, Threshold(ps)));
            var s := Samples(f, color, width, height, x, y);
            && 0 < m as int < |f.table|
            && TableGet(f.table, m as int) == f.table[m]
            && (m & f.coords[k].bit != 0
                <==> InBounds(x, y, f.coords[k], width, height) && Pixel(s[k], f.coords[k].bit).luma >= Threshold(ps))
  {
    var ps := CellPixels(f, color, width, height, x, y);
    var s := Samples(f, color, width, height, x, y);
    var m := GroupMask(Foreground(ps, Threshold(ps)));
    FamilyFacts(f);
    BtcMaskBits(x, y, width, height, f.coords, s, Threshold(ps), k);
    BtcMaskRange(x, y, width, height, f.coords, s);
  }

  /** The raster walk only visits cell origins on the image, so the blank-cell branch is never taken. */
  lemma CellNeverBlank(f: Family, color: seq<seq<Rgb8>>, width: nat, height: nat, x: nat, y: nat)
    requires IsImage(color, width, height) && IsFamily(f) && x < width && y < height
    ensures CellPixels(f, color, width, height, x, y) != []
  {
    FamilyFacts(f);
    CollectNonEmpty(x, y, width, height, f.coords, Samples(f, color, width, height, x, y), |f.coords|);
  }

  /** A cell wholly on the image whose pixels all have the colour `c`. */
  predicate UniformCell(f: Family, color: seq<seq<Rgb8>>, width: nat, height: nat, x: nat, y: nat, c: Rgb8)
    requires IsImage(color, width, height)
  {
    && x + 1 < width && y + f.cellHeight - 1 < height
    && forall k :: 0 <= k < |f.coords| ==>
         InBounds(x, y, f.coords[k], width, height) && color[y + f.coords[k].dy][x + f.coords[k].dx] == c
  }

  /** Every sample of a cell of one colour is that colour, scaled to [0,1]. */
  lemma UniformSample(f: Family, color: seq<seq<Rgb8>>, width: nat, height: nat, x: nat, y: nat, c: Rgb8, k: nat)
    requires IsImage(color, width, height) && k < |f.coords| && UniformCell(f, color, width, height, x, y, c)
    ensures InBounds(x, y, f.coords[k], width, height)
    ensures Samples(f, color, width, height, x, y)[k] == Rgb(Unit(c.r), Unit(c.g), Unit(c.b))
  {
  }

  lemma CollectOfUniform(f: Family, color: seq<seq<Rgb8>>, width: nat, height: nat, x: nat, y: nat, c: Rgb8, n: nat)
    requires IsImage(color, width, height) && n <= |f.coords| && UniformCell(f, color, width, height, x, y, c)
    ensures var ps := Collect(x, y, width, height, f.coords, Samples(f, color, width, height, x, y), n);
            |ps| == n
            && (forall j :: 0 <= j < |ps| ==> ps[j].luma == Luma709(Unit(c.r), Unit(c.g), Unit(c.b)))
            && AllColored(ps, Rgb(Unit(c.r), Unit(c.g), Unit(c.b)))
  {
    var s := Samples(f, color, width, height, x, y);
    forall k | 0 <= k < |f.coords|
      ensures InBounds(x, y, f.coords[k], width, height) && s[k] == Rgb(Unit(c.r), Unit(c.g), Unit(c.b))
    {
      UniformSample(f, color, width, height, x, y, c, k);
    }
    CollectOfSameColor(x, y, width, height, f.coords, s, Rgb(Unit(c.r), Unit(c.g), Unit(c.b)), n);
  }

  /** A cell of one colour puts every pixel, all of that colour, in the foreground. */
  lemma UniformCellSplit(f: Family, color: seq<seq<Rgb8>>, width: nat, height: nat, x: nat, y: nat, c: Rgb8)
    requires IsImage(color, width, height) && IsFamily(f) && UniformCell(f, color, width, height, x, y, c)
    ensures var ps := CellPixels(f, color, width, height, x, y);
            && ps != []
            && Foreground(ps, Threshold(ps)) == ps && Background(ps, Threshold(ps)) == []
            && AllColored(ps, Rgb(Unit(c.r), Unit(c.g), Unit(c.b)))
  {
    var ps := CellPixels(f, color, width, height, x, y);
    FamilyFacts(f);
    CollectOfUniform(f, color, width, height, x, y, c, |f.coords|);
    UniformIsAllForeground(ps, Luma709(Unit(c.r), Unit(c.g), Unit(c.b)));
  }

  /** ... and so sets every bit of the mask. */
  lemma UniformCellMask(f: Family, color: seq<seq<Rgb8>>, width: nat, height: nat, x: nat, y: nat, c: Rgb8)
    requires IsImage(color, width, height) && IsFamily(f) && UniformCell(f, color, width, height, x, y, c)
    ensures var ps := CellPixels(f, color, width, height, x, y);
            ps != [] && GroupMask(Foreground(ps, Threshold(ps))) == FullMask(f.coords)
  {
    var ps := CellPixels(f, color, width, height, x, y);
    UniformBits(f, color, width, height, x, y, c);
    CellMask(f, color, width, height, x, y, 0);
    FamilyFacts(f);
    FullFromBits(f, GroupMask(Foreground(ps, Threshold(ps))));
  }

  lemma UniformBits(f: Family, color: seq<seq<Rgb8>>, width: nat, height: nat, x: nat, y: nat, c: Rgb8)
    requires IsImage(color, width, height) && IsFamily(f) && UniformCell(f, color, width, height, x, y, c)
    ensures var ps := CellPixels(f, color, width, height, x, y);
            ps != [] && var m := GroupMask(Foreground(ps, Threshold(ps)));
            forall k :: 0 <= k < |f.coords| ==> m & f.coords[k].bit != 0
  {
    var ps := CellPixels(f, color, width, height, x, y);
    UniformCellSplit(f, color, width, height, x, y, c);
    var m := GroupMask(Foreground(ps, Threshold(ps)));
    forall k | 0 <= k < |f.coords| ensures m & f.coords[k].bit != 0 {
      UniformBit(f, color, width, height, x, y, c, k);
    }
  }

  lemma UniformBit(f: Family, color: seq<seq<Rgb8>>, width: nat, height: nat, x: nat, y: nat, c: Rgb8, k: nat)
    requires IsImage(color, width, height) && IsFamily(f) && UniformCell(f, color, width, height, x, y, c)
    requires k < |f.coords|
    ensures var ps := CellPixels(f, color, width, height, x, y);
            ps != [] && GroupMask(Foreground(ps, Threshold(ps))) & f.coords[k].bit != 0
  {
    var ps := CellPixels(f, color, width, height, x, y);
    var s := Samples(f, color, width, height, x, y);
    UniformCellSplit(f, color, width, height, x, y, c);
    CollectOfUniform(f, color, width, height, x, y, c, |f.coords|);
    CellMask(f, color, width, height, x, y, k);
    UniformSample(f, color, width, height, x, y, c, k);
  }

  /**
   * A cell of one colour: every pixel lands in the foreground (as the
   * comment in sextant.rs expects), so it is drawn as the full block in the
   * average of its pixels over a black background.
   */
  lemma UniformCellIsFullBlock(cv: Curves, f: Family, color: seq<seq<Rgb8>>, width: nat, height: nat, x: nat, y: nat, c: Rgb8)
    requires IsImage(color, width, height) && IsFamily(f) && UniformCell(f, color, width, height, x, y, c)
    ensures var u := Rgb(Unit(c.r), Unit(c.g), Unit(c.b));
            CellSpec(cv, f, color, width, height, x, y)
            == ColorText(Rgb8(EncodeByte(cv, SrgbToLinear(cv, u.r)), EncodeByte(cv, SrgbToLinear(cv, u.g)),
                              EncodeByte(cv, SrgbToLinear(cv, u.b))),
                         Black8, '\U{2588}')
  {
    var ps := CellPixels(f, color, width, height, x, y);
    UniformCellSplit(f, color, width, height, x, y, c);
    UniformCellMask(f, color, width, height, x, y, c);
    AverageOfSameColor(cv, ps, Rgb(Unit(c.r), Unit(c.g), Unit(c.b)));
    FamilyFacts(f);
  }

  /**
   * A quadrant cell whose two diagonals are white and black: the white
   * diagonal is the foreground, so the cell is drawn as U+259A (mask 9,
   * upper left and lower right) or U+259E (mask 6, upper right and lower
   * left) in white over black.
   */
  lemma DiagonalCell(cv: Curves, color: seq<seq<Rgb8>>, width: nat, height: nat, x: nat, y: nat, leading: bool)
    requires IsImage(color, width, height) && x + 1 < width && y + 1 < height
    requires cv.powf(1.0, 2.4) == 1.0 && cv.powf(1.0, 1.0 / 2.4) == 1.0
    requires var on := if leading then Rgb8(255, 255, 255) else Black8;
             var off := if leading then Black8 else Rgb8(255, 255, 255);
             color[y][x] == on && color[y + 1][x + 1] == on && color[y][x + 1] == off && color[y + 1][x] == off
    ensures CellSpec(cv, QuadrantFamily, color, width, height, x, y)
            == ColorText(Rgb8(255, 255, 255), Black8, if leading then '\U{259A}' else '\U{259E}')
  {
    var white := Rgb(1.0, 1.0, 1.0);
    var a := if leading then white else Black;
    var b := if leading then Black else white;
    var s := Samples(QuadrantFamily, color, width, height, x, y);
    DiagonalSamples(color, width, height, x, y, leading);
    CollectFour(x, y, width, height, QuadrantCoords, s);
    var p0, p1, p2, p3 := Pixel(a, 1), Pixel(b, 2), Pixel(b, 4), Pixel(a, 8);
    var ps := CellPixels(QuadrantFamily, color, width, height, x, y);
    assert ps == [p0, p1, p2, p3];
    assert p0.luma == p3.luma == (if leading then 1.0 else 0.0) && p1.luma == p2.luma == (if leading then 0.0 else 1.0);
    var fg := if leading then [p0, p3] else [p1, p2];
    var bg := if leading then [p1, p2] else [p0, p3];
    FourSplit(p0, p1, p2, p3, 0.5);
    assert Threshold(ps) == 0.5;
    assert Foreground(ps, 0.5) == fg && Background(ps, 0.5) == bg;
    var m := GroupMask(fg);
    PairMask(fg[0], fg[1]);
    assert m == if leading then 9 else 6;
    QuadrantsTable();
    var glyph := TableGet(Quadrants, m as int);
    assert glyph == if leading then '\U{259A}' else '\U{259E}';
    PairColored(p0, p3, a);
    PairColored(p1, p2, b);
    AverageOfBlackAndWhite(cv, fg);
    AverageOfBlackAndWhite(cv, bg);
    assert AverageColor(cv, fg) == Rgb8(255, 255, 255) && AverageColor(cv, bg) == Black8;
    assert CellSpec(cv, QuadrantFamily, color, width, height, x, y) == ColorText(AverageColor(cv, fg), AverageColor(cv, bg), glyph);
  }

  /** The samples of a cell whose diagonals are white and black. */
  lemma DiagonalSamples(color: seq<seq<Rgb8>>, width: nat, height: nat, x: nat, y: nat, leading: bool)
    requires IsImage(color, width, height) && x + 1 < width && y + 1 < height
    requires var on := if leading then Rgb8(255, 255, 255) else Black8;
             var off := if leading then Black8 else Rgb8(255, 255, 255);
             color[y][x] == on && color[y + 1][x + 1] == on && color[y][x + 1] == off && color[y + 1][x] == off
    ensures var white := Rgb(1.0, 1.0, 1.0);
            var a := if leading then white else Black;
            var b := if leading then Black else white;
            && Samples(QuadrantFamily, color, width, height, x, y) == [a, b, b, a]
            && forall k :: 0 <= k < 4 ==> InBounds(x, y, QuadrantCoords[k], width, height)
  {
    assert Unit(255) == 1.0 && Unit(0) == 0.0;
  }

  /** A mask with every bit of the table set is the full mask. */
  lemma FullFromBits(f: Family, m: bv8)
    requires IsFamily(f) && forall k :: 0 <= k < |f.coords| ==> m & f.coords[k].bit != 0
    requires m as int <= FullMask(f.coords) as int
    ensures m == FullMask(f.coords)
  {
    FamilyFacts(f);
    if f == QuadrantFamily {
      assert f.coords[0].bit == 1 && f.coords[1].bit == 2 && f.coords[2].bit == 4 && f.coords[3].bit == 8;
    } else {
      assert f.coords[0].bit == 1 && f.coords[1].bit == 2 && f.coords[2].bit == 4 && f.coords[3].bit == 8;
      assert f.coords[4].bit == 16 && f.coords[5].bit == 32;
    }
  }

  /** No two masks of a family share a glyph, so the glyph determines the mask. */
  lemma GlyphDeterminesMask(f: Family, m: nat)
    requires IsFamily(f) && m < |f.table|
    ensures forall j :: 0 <= j < |f.table| && f.table[j] == f.table[m] ==> j == m
  {
    if f == QuadrantFamily {
      QuadrantsTable();
    } else {
      SextantsDistinct();
    }
  }

  /** A cell's text decodes back to both colours, and its glyph back to the mask. */
  lemma CellTextDecodes(cv: Curves, f: Family, color: seq<seq<Rgb8>>, width: nat, height: nat, x: nat, y: nat)
    requires IsImage(color, width, height) && IsFamily(f) && CellPixels(f, color, width, height, x, y) != []
    ensures var ps := CellPixels(f, color, width, height, x, y);
            var t := Threshold(ps);
            var m := GroupMask(Foreground(ps, t));
            ParseSgr(CellSpec(cv, f, color, width, height, x, y))
            == Some((ColorParams(AverageColor(cv, Foreground(ps, t)), AverageColor(cv, Background(ps, t))),
                     [TableGet(f.table, m as int)]))
            && (forall j :: 0 <= j < |f.table| && f.table[j] == TableGet(f.table, m as int) ==> j == m as int)
  {
    var ps := CellPixels(f, color, width, height, x, y);
    var t := Threshold(ps);
    var m := GroupMask(Foreground(ps, t));
    CellMask(f, color, width, height, x, y, 0);
    ColorTextDecodes(AverageColor(cv, Foreground(ps, t)), AverageColor(cv, Background(ps, t)), f.table[m]);
    GlyphDeterminesMask(f, m as int);
  }


  /** The collecting loop: each table entry on the image is scaled to [0,1], its luma added up, and pushed. */
  method CollectPixels(f: Family, color: seq<seq<Rgb8>>, width: nat, height: nat, x: nat, y: nat)
    returns (ps: seq<PixelData>, lumaSum: real)
    requires IsImage(color, width, height)
    ensures ps == CellPixels(f, color, width, height, x, y)
    ensures lumaSum == LumaSum(ps)
  {
    ghost var s := Samples(f, color, width, height, x, y);
    ps, lumaSum := [], 0.0;
    var k := 0;
    while k < |f.coords|
      invariant k <= |f.coords|
      invariant ps == Collect(x, y, width, height, f.coords, s, k)
      invariant lumaSum == LumaSum(ps)
    {
      var c := f.coords[k];
      if x + c.dx < width && y + c.dy < height {
        var p := color[y + c.dy][x + c.dx];
        var r, g, b := p.r as real / 255.0, p.g as real / 255.0, p.b as real / 255.0;
        var luma := 0.2126 * r + 0.7152 * g + 0.0722 * b;
        var pixel := PixelData(luma, r, g, b, c.bit);
        assert s[k] == Rgb(r, g, b);
        SnocPrefix(ps, pixel);
        ps := ps + [pixel];
        lumaSum := lumaSum + luma;
      }
      k := k + 1;
    }
  }

  /** One cell: collect, split, average each group, look the mask up. */
  method RenderCell(cv: Curves, f: Family, color: seq<seq<Rgb8>>, width: nat, height: nat, x: nat, y: nat)
    returns (text: string)
    requires IsImage(color, width, height)
    ensures text == CellSpec(cv, f, color, width, height, x, y)
  {
    var ps, lumaSum := CollectPixels(f, color, width, height, x, y);
    if |ps| == 0 {
      return [' '];
    }
    var t := lumaSum / |ps| as real;
    var fg, bg, mask := Partition(ps, t);
    var fgColor := AverageColorOf(cv, fg);
    var bgColor := AverageColorOf(cv, bg);
    var glyph := TableGet(f.table, mask as int);
    text := ColorText(fgColor, bgColor, glyph);
  }

  /** The cells of row `y`, left to right (the line before its closing reset). */
  method RenderRow(cv: Curves, f: Family, color: seq<seq<Rgb8>>, width: nat, height: nat, y: nat) returns (line: string)
    requires IsImage(color, width, height)
    ensures line == RowFrom(cv, f, color, width, height, 0, y)
  {
    line := [];
    var x: nat := 0;
    while x < width
      invariant line + RowFrom(cv, f, color, width, height, x, y) == RowFrom(cv, f, color, width, height, 0, y)
      decreases width - x
    {
      var cell := RenderCell(cv, f, color, width, height, x, y);
      AppendAssoc(line, cell, RowFrom(cv, f, color, width, height, x + 2, y));
      line := line + cell;
      x := x + 2;
    }
    AppendEmpty(line);
  }

  /** Renders the row of cells at `y` and appends it, with its reset, to the lines so far. */
  method AppendLine(cv: Curves, f: Family, color: seq<seq<Rgb8>>, width: nat, height: nat, y: nat,
                    ghost spec: seq<string>, lines: seq<string>) returns (next: seq<string>)
    requires IsImage(color, width, height) && f.cellHeight > 0 && y < height
    requires lines + FrameFrom(cv, f, color, width, height, y) == spec
    ensures next + FrameFrom(cv, f, color, width, height, y + f.cellHeight) == spec
  {
    var line := RenderRow(cv, f, color, width, height, y);
    ghost var rest := FrameFrom(cv, f, color, width, height, y + f.cellHeight);
    AppendAssoc(lines, [line + Reset], rest);
    next := lines + [line + Reset];
  }

  /**
   * quadrant.rs and sextant.rs `render_image` after the image is resized:
   * one line per cell height of pixel rows, each closed by `ESC[0m`.
   */
  method Render(cv: Curves, f: Family, color: seq<seq<Rgb8>>, width: nat, height: nat) returns (lines: seq<string>)
    requires IsImage(color, width, height) && f.cellHeight > 0
    ensures lines == FrameSpec(cv, f, color, width, height)
  {
    ghost var spec := FrameSpec(cv, f, color, width, height);
    lines := [];
    var y: nat := 0;
    while y < height
      invariant lines + FrameFrom(cv, f, color, width, height, y) == spec
      decreases height - y
    {
      lines := AppendLine(cv, f, color, width, height, y, spec, lines);
      y := y + f.cellHeight;
    }
    AppendEmpty(lines);
  }

}
