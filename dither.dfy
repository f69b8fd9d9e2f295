/**
 * Threshold dithering of one character cell with error diffusion, as
 * braille.rs and main.rs do it: the sub-cells are visited in the order of
 * the geometry table; each one on the image reads its base luma plus the
 * error accumulated so far, is switched on by the threshold rule, sets its
 * bit, and passes its quantisation error on through the Stucki kernel.
 */
module Dither {
  import opened Numeric
  import opened Geometry
  import opened Diffusion

  /** The comparison that switches a sub-cell on. */
  datatype Rule = Above(level: int) | Below(level: int)

  predicate IsOn(rule: Rule, luma: real) {
    match rule
    case Above(level) => luma > level as real
    case Below(level) => luma < level as real
  }

  /** braille.rs: `luma > 128.0`. */
  const BrailleRule: Rule := Above(128)

  /** main.rs: `luma < threshold` when `invert` is set, `luma > threshold` otherwise. */
  function MonoRule(threshold: Byte, invert: bool): Rule {
    if invert then Below(threshold) else Above(threshold)
  }

  /** What the main.rs rule decides for a luma, in both modes. */
  lemma MonoRuleDecides(threshold: Byte, invert: bool, luma: real)
    ensures IsOn(MonoRule(threshold, invert), luma)
            <==> if invert then luma < threshold as real else luma > threshold as real
  {
  }

  /**
   * `luma as i16 - if is_on { 255 } else { 0 }`: the float cast truncates
   * toward zero and saturates, the subtraction wraps as a release build's
   * `i16` arithmetic does.
   */
  function ErrorValue(luma: real, on: bool): (e: int)
    ensures -32768 <= e <= 32767
    ensures -32513.0 <= luma < 32768.0 ==> e == Trunc(luma) - (if on then 255 else 0)
  {
    WrapI16(SaturatingI16(luma) - (if on then 255 else 0))
  }

  /**
   * With the rule `luma > level`, an "on" sub-cell passes on an error of at
   * least `level - 255` and an "off" one at most `level`; for braille.rs
   * (level 128) that is `-127` and `128`. With the inverted rule
   * `luma < level`, an "off" sub-cell passes on at least `level` and an "on"
   * one at most `level - 255`, unless the luma has fallen below -32513: then
   * `luma as i16 - 255` leaves the i16 range, and below -32768 the wrapped
   * error is the large positive 32513.
   */
  lemma ErrorBounds(level: Byte, luma: real)
    ensures IsOn(Above(level), luma) ==> level - 255 <= ErrorValue(luma, true) <= 32767 - 255
    ensures !IsOn(Above(level), luma) ==> -32768 <= ErrorValue(luma, false) <= level
    ensures IsOn(Below(level), luma) && luma >= -32513.0 ==> -32768 <= ErrorValue(luma, true) <= level - 255
    ensures IsOn(Below(level), luma) && luma < -32768.0 ==> ErrorValue(luma, true) == 32513
    ensures !IsOn(Below(level), luma) ==> level <= ErrorValue(luma, false) <= 32767
  {
    if luma >= 32768.0 {
      assert SaturatingI16(luma) == 32767;
    }
    if luma < -32768.0 {
      assert SaturatingI16(luma) == -32768;
      WrapBelow(-32768 - 255);
    }
  }

  /** An i16 subtraction that falls short of the range by `d <= 65536` wraps to `n + 65536`. */
  lemma WrapBelow(n: int)
    requires -32768 - 65536 <= n < -32768
    ensures WrapI16(n) == n + 65536
  {
    var w := WrapI16(n);
    assert (w - n) % 65536 == 0;
    assert 0 < w - n < 2 * 65536;
  }

  /** The error grid and mask of a cell part-way through. */
  datatype Progress = Progress(grid: Grid, mask: bv8)

  /**
   * Sub-cell `k` of the cell at (x, y), taken in turn: `base` is its luma
   * before the accumulated error is added. A sub-cell off the image changes
   * nothing.
   */
  function Step(p: Progress, width: nat, height: nat, x: nat, y: nat, c: SubCell, base: real, rule: Rule): (q: Progress)
    requires IsGrid(p.grid, width, height)
    ensures IsGrid(q.grid, width, height)
  {
    if InBounds(x, y, c, width, height) then
      var luma := base + p.grid[y + c.dy][x + c.dx];
      var on := IsOn(rule, luma);
      Progress(Diffuse(p.grid, width, height, x + c.dx, y + c.dy, ErrorValue(luma, on) as real),
               p.mask | (if on then c.bit else 0))
    else p
  }

  /** What a step does to the mask: it adds the sub-cell's bit when the sub-cell is on the image and passes the rule. */
  lemma StepMask(p: Progress, width: nat, height: nat, x: nat, y: nat, c: SubCell, base: real, rule: Rule, on: bool)
    requires IsGrid(p.grid, width, height)
    requires on == (InBounds(x, y, c, width, height) && IsOn(rule, base + p.grid[y + c.dy][x + c.dx]))
    ensures Step(p, width, height, x, y, c, base, rule).mask == p.mask | (if on then c.bit else 0)
  {
    assert p.mask | 0 == p.mask;
  }


  /** The cell at (x, y) after its first `n` sub-cells, `bases[k]` being the base luma of sub-cell `k`. */
  function DitherPrefix(g: Grid, width: nat, height: nat, x: nat, y: nat,
                        coords: seq<SubCell>, bases: seq<real>, rule: Rule, n: nat): (p: Progress)
    requires IsGrid(g, width, height) && |bases| == |coords| && n <= |coords|
    ensures IsGrid(p.grid, width, height)
  {
    if n == 0 then Progress(g, 0)
    else Step(DitherPrefix(g, width, height, x, y, coords, bases, rule, n - 1), width, height, x, y, coords[n - 1], bases[n - 1], rule)
  }

  /** The whole cell. */
  function DitherCellSpec(g: Grid, width: nat, height: nat, x: nat, y: nat,
                          coords: seq<SubCell>, bases: seq<real>, rule: Rule): (p: Progress)
    requires IsGrid(g, width, height) && |bases| == |coords|
    ensures IsGrid(p.grid, width, height)
  {
    DitherPrefix(g, width, height, x, y, coords, bases, rule, |coords|)
  }

  /** The luma sub-cell `k` is judged by: its base plus the error waiting for it when its turn comes. */
  function LumaSeen(g: Grid, width: nat, height: nat, x: nat, y: nat,
                    coords: seq<SubCell>, bases: seq<real>, rule: Rule, k: nat): real
    requires IsGrid(g, width, height) && |bases| == |coords| && k < |coords|
    requires InBounds(x, y, coords[k], width, height)
  {
    bases[k] + DitherPrefix(g, width, height, x, y, coords, bases, rule, k).grid[y + coords[k].dy][x + coords[k].dx]
  }

  /** Whether sub-cell `k` is drawn: it lies on the image and its luma passes the rule. */
  predicate Drawn(g: Grid, width: nat, height: nat, x: nat, y: nat,
                  coords: seq<SubCell>, bases: seq<real>, rule: Rule, k: nat)
    requires IsGrid(g, width, height) && |bases| == |coords| && k < |coords|
  {
    InBounds(x, y, coords[k], width, height) && IsOn(rule, LumaSeen(g, width, height, x, y, coords, bases, rule, k))
  }

  /** `Drawn` for each of the first `n` sub-cells. */
  function Selection(g: Grid, width: nat, height: nat, x: nat, y: nat,
                     coords: seq<SubCell>, bases: seq<real>, rule: Rule, n: nat): (sel: seq<bool>)
    requires IsGrid(g, width, height) && |bases| == |coords| && n <= |coords|
    ensures |sel| == n
  {
    if n == 0 then [] else Selection(g, width, height, x, y, coords, bases, rule, n - 1) + [Drawn(g, width, height, x, y, coords, bases, rule, n - 1)]
  }

  lemma {:induction false} SelectionAt(g: Grid, width: nat, height: nat, x: nat, y: nat,
                                       coords: seq<SubCell>, bases: seq<real>, rule: Rule, n: nat, k: nat)
    requires IsGrid(g, width, height) && |bases| == |coords| && k < n <= |coords|
    ensures Selection(g, width, height, x, y, coords, bases, rule, n)[k] == Drawn(g, width, height, x, y, coords, bases, rule, k)
  {
    if k < n - 1 {
      SelectionAt(g, width, height, x, y, coords, bases, rule, n - 1, k);
    }
  }

  /** One step of the cell: the mask gains the sub-cell's bit exactly when it is drawn. */
  lemma DitherStepMask(g: Grid, width: nat, height: nat, x: nat, y: nat,
                       coords: seq<SubCell>, bases: seq<real>, rule: Rule, n: nat)
    requires IsGrid(g, width, height) && |bases| == |coords| && 0 < n <= |coords|
    ensures DitherPrefix(g, width, height, x, y, coords, bases, rule, n).mask
         == DitherPrefix(g, width, height, x, y, coords, bases, rule, n - 1).mask
            | (if Drawn(g, width, height, x, y, coords, bases, rule, n - 1) then coords[n - 1].bit else 0)
  {
    var p := DitherPrefix(g, width, height, x, y, coords, bases, rule, n - 1);
    StepMask(p, width, height, x, y, coords[n - 1], bases[n - 1], rule, Drawn(g, width, height, x, y, coords, bases, rule, n - 1));
  }


  lemma SelectionLast(g: Grid, width: nat, height: nat, x: nat, y: nat,
                      coords: seq<SubCell>, bases: seq<real>, rule: Rule, n: nat)
    requires IsGrid(g, width, height) && |bases| == |coords| && 0 < n <= |coords|
    ensures var sel := Selection(g, width, height, x, y, coords, bases, rule, n);
            sel[..n - 1] == Selection(g, width, height, x, y, coords, bases, rule, n - 1)
            && sel[n - 1] == Drawn(g, width, height, x, y, coords, bases, rule, n - 1)
  {
    var prev := Selection(g, width, height, x, y, coords, bases, rule, n - 1);
    assert (prev + [Drawn(g, width, height, x, y, coords, bases, rule, n - 1)])[..n - 1] == prev;
  }

  /** The inductive step of `DitherPrefixMask`. */
  lemma DitherPrefixMaskStep(g: Grid, width: nat, height: nat, x: nat, y: nat,
                             coords: seq<SubCell>, bases: seq<real>, rule: Rule, n: nat)
    requires IsGrid(g, width, height) && |bases| == |coords| && 0 < n <= |coords|
    requires DitherPrefix(g, width, height, x, y, coords, bases, rule, n - 1).mask
          == MaskOf(coords[..n - 1], Selection(g, width, height, x, y, coords, bases, rule, n - 1))
    ensures DitherPrefix(g, width, height, x, y, coords, bases, rule, n).mask
         == MaskOf(coords[..n], Selection(g, width, height, x, y, coords, bases, rule, n))
  {
    DitherStepMask(g, width, height, x, y, coords, bases, rule, n);
    var sel := Selection(g, width, height, x, y, coords, bases, rule, n);
    SelectionLast(g, width, height, x, y, coords, bases, rule, n);
    MaskChain(coords, sel, n, DitherPrefix(g, width, height, x, y, coords, bases, rule, n - 1).mask,
              DitherPrefix(g, width, height, x, y, coords, bases, rule, n).mask);
  }

  lemma {:induction false} DitherPrefixMask(g: Grid, width: nat, height: nat, x: nat, y: nat,
                                            coords: seq<SubCell>, bases: seq<real>, rule: Rule, n: nat)
    requires IsGrid(g, width, height) && |bases| == |coords| && n <= |coords|
    ensures DitherPrefix(g, width, height, x, y, coords, bases, rule, n).mask
         == MaskOf(coords[..n], Selection(g, width, height, x, y, coords, bases, rule, n))
  {
    if n > 0 {
      DitherPrefixMask(g, width, height, x, y, coords, bases, rule, n - 1);
      DitherPrefixMaskStep(g, width, height, x, y, coords, bases, rule, n);
    } else {
      assert coords[..0] == [];
    }
  }


  /**
   * The mask of a dithered cell: with a geometry whose bits are distinct,
   * bit `k` is set exactly when sub-cell `k` lies on the image and its luma
   * (base plus accumulated error) passes the rule. A clipped sub-cell sets
   * no bit.
   */
  lemma DitherMaskBits(g: Grid, width: nat, height: nat, x: nat, y: nat,
                       coords: seq<SubCell>, bases: seq<real>, rule: Rule, k: nat)
    requires IsGrid(g, width, height) && |bases| == |coords| && k < |coords| && DistinctBits(coords)
    ensures DitherCellSpec(g, width, height, x, y, coords, bases, rule).mask & coords[k].bit != 0
            <==> InBounds(x, y, coords[k], width, height)
                 && IsOn(rule, LumaSeen(g, width, height, x, y, coords, bases, rule, k))
  {
    var n := |coords|;
    DitherPrefixMask(g, width, height, x, y, coords, bases, rule, n);
    SelectionAt(g, width, height, x, y, coords, bases, rule, n, k);
    assert coords[..n] == coords;
    MaskBit(coords, Selection(g, width, height, x, y, coords, bases, rule, n), k);
  }

  /** A clipped sub-cell passes on no error: the grid is as it was before its turn. */
  lemma ClippedDiffusesNothing(g: Grid, width: nat, height: nat, x: nat, y: nat,
                               coords: seq<SubCell>, bases: seq<real>, rule: Rule, k: nat)
    requires IsGrid(g, width, height) && |bases| == |coords| && k < |coords|
    requires !InBounds(x, y, coords[k], width, height)
    ensures DitherPrefix(g, width, height, x, y, coords, bases, rule, k + 1)
         == DitherPrefix(g, width, height, x, y, coords, bases, rule, k)
  {
  }

  /**
   * A saturated cell: every sub-cell lies on the image with base luma 255,
   * no error waits in the window, and the rule switches 255 on. Each
   * sub-cell then passes on an error of 0, so the grid is unchanged after
   * every step.
   */
  lemma {:induction false} SaturatedPrefixGrid(g: Grid, width: nat, height: nat, x: nat, y: nat,
                                               coords: seq<SubCell>, bases: seq<real>, rule: Rule, n: nat)
    requires IsGrid(g, width, height) && |bases| == |coords| && n <= |coords|
    requires forall k :: 0 <= k < |coords| ==>
               InBounds(x, y, coords[k], width, height) && bases[k] == 255.0 && g[y + coords[k].dy][x + coords[k].dx] == 0.0
    requires IsOn(rule, 255.0)
    ensures DitherPrefix(g, width, height, x, y, coords, bases, rule, n).grid == g
  {
    if n > 0 {
      SaturatedPrefixGrid(g, width, height, x, y, coords, bases, rule, n - 1);
      SaturatedStep(DitherPrefix(g, width, height, x, y, coords, bases, rule, n - 1), width, height, x, y,
                    coords[n - 1], bases[n - 1], rule);
    }
  }

  /** One step of a saturated cell: the sub-cell is on and passes on an error of 0. */
  lemma SaturatedStep(p: Progress, width: nat, height: nat, x: nat, y: nat, c: SubCell, base: real, rule: Rule)
    requires IsGrid(p.grid, width, height) && InBounds(x, y, c, width, height)
    requires base == 255.0 && p.grid[y + c.dy][x + c.dx] == 0.0 && IsOn(rule, 255.0)
    ensures Step(p, width, height, x, y, c, base, rule).grid == p.grid
  {
    assert ErrorValue(255.0, true) == 0;
    DiffuseZero(p.grid, width, height, x + c.dx, y + c.dy);
  }

  /** A saturated cell raises every sub-cell and leaves the grid as it found it. */
  lemma SaturatedCell(g: Grid, width: nat, height: nat, x: nat, y: nat,
                      coords: seq<SubCell>, bases: seq<real>, rule: Rule)
    requires IsGrid(g, width, height) && |bases| == |coords|
    requires forall k :: 0 <= k < |coords| ==>
               InBounds(x, y, coords[k], width, height) && bases[k] == 255.0 && g[y + coords[k].dy][x + coords[k].dx] == 0.0
    requires IsOn(rule, 255.0)
    ensures DitherCellSpec(g, width, height, x, y, coords, bases, rule) == Progress(g, FullMask(coords))
  {
    var n := |coords|;
    SaturatedPrefixGrid(g, width, height, x, y, coords, bases, rule, n);
    DitherPrefixMask(g, width, height, x, y, coords, bases, rule, n);
    var sel := Selection(g, width, height, x, y, coords, bases, rule, n);
    forall k | 0 <= k < n
      ensures sel[k]
    {
      SelectionAt(g, width, height, x, y, coords, bases, rule, n, k);
      SaturatedDrawn(g, width, height, x, y, coords, bases, rule, k);
    }
    assert sel == AllOn(n);
    assert coords[..n] == coords;
  }

  /** In a saturated cell every sub-cell is drawn. */
  lemma SaturatedDrawn(g: Grid, width: nat, height: nat, x: nat, y: nat,
                       coords: seq<SubCell>, bases: seq<real>, rule: Rule, k: nat)
    requires IsGrid(g, width, height) && |bases| == |coords| && k < |coords|
    requires forall k :: 0 <= k < |coords| ==>
               InBounds(x, y, coords[k], width, height) && bases[k] == 255.0 && g[y + coords[k].dy][x + coords[k].dx] == 0.0
    requires IsOn(rule, 255.0)
    ensures Drawn(g, width, height, x, y, coords, bases, rule, k)
  {
    SaturatedPrefixGrid(g, width, height, x, y, coords, bases, rule, k);
  }

  /** The text of a cell (or of a run of cells) and the error grid it leaves. */
  datatype Output = Output(text: string, grid: Grid)

  /** Printed lines and the error grid left at the end. */
  datatype Frame = Frame(lines: seq<string>, grid: Grid)

  /** One sub-cell of the loop over `coords`, on the buffer in place. */
  method DitherSubCell(buf: ErrorBuffer, x: nat, y: nat, c: SubCell, base: real, rule: Rule, mask: bv8)
    returns (next: bv8)
    requires buf.Valid()
    modifies buf, buf.data
    ensures buf.Valid()
    ensures Progress(buf.grid, next) == Step(Progress(old(buf.grid), mask), buf.width, buf.height, x, y, c, base, rule)
  {
    ghost var before := Progress(buf.grid, mask);
    next := mask;
    if x + c.dx < buf.width && y + c.dy < buf.height {
      var luma := base + buf.Get(x + c.dx, y + c.dy);
      var on := IsOn(rule, luma);
      if on {
        next := mask | c.bit;
      }
      buf.Distribute(x + c.dx, y + c.dy, ErrorValue(luma, on) as real);
      StepOnImage(before, buf.width, buf.height, x, y, c, base, rule, luma, on, buf.grid, next);
    }
  }

  /** A step on a sub-cell of the image, given the luma seen, the decision, the diffused grid and the new mask. */
  lemma StepOnImage(p: Progress, width: nat, height: nat, x: nat, y: nat, c: SubCell, base: real, rule: Rule,
                    luma: real, on: bool, grid: Grid, mask: bv8)
    requires IsGrid(p.grid, width, height) && InBounds(x, y, c, width, height)
    requires luma == base + p.grid[y + c.dy][x + c.dx] && on == IsOn(rule, luma)
    requires grid == Diffuse(p.grid, width, height, x + c.dx, y + c.dy, ErrorValue(luma, on) as real)
    requires mask == if on then p.mask | c.bit else p.mask
    ensures Step(p, width, height, x, y, c, base, rule) == Progress(grid, mask)
  {
    assert p.mask | 0 == p.mask;
  }

  /**
   * The loop over `coords` of braille.rs and main.rs, reading and updating
   * the error buffer in place.
   */
  method DitherCell(buf: ErrorBuffer, x: nat, y: nat, coords: seq<SubCell>, bases: seq<real>, rule: Rule)
    returns (mask: bv8)
    requires buf.Valid() && |bases| == |coords|
    modifies buf, buf.data
    ensures buf.Valid()
    ensures var p := DitherCellSpec(old(buf.grid), buf.width, buf.height, x, y, coords, bases, rule);
            buf.grid == p.grid && mask == p.mask
  {
    ghost var g0 := buf.grid;
    mask := 0;
    var k := 0;
    while k < |coords|
      invariant k <= |coords| && buf.Valid()
      invariant Progress(buf.grid, mask) == DitherPrefix(g0, buf.width, buf.height, x, y, coords, bases, rule, k)
    {
      mask := DitherSubCell(buf, x, y, coords[k], bases[k], rule, mask);
      k := k + 1;
    }
  }
}
