/**
 * Glyph geometries: the fixed tables that give each sub-cell of a
 * character cell its offset from the cell origin and its bit in the
 * glyph's on/off mask, and the mask an on/off selection of sub-cells
 * builds with `mask |= bit`.
 */
module Geometry {

  /** One `(dx, dy, bit)` entry of a renderer's `coords` table. */
  datatype SubCell = SubCell(dx: nat, dy: nat, bit: bv8)

  /** braille.rs and main.rs: dots 1-2-3 and 4-5-6 column by column, then dots 7 and 8. */
  const BrailleCoords: seq<SubCell> := [
    SubCell(0, 0, 0x01), SubCell(0, 1, 0x02), SubCell(0, 2, 0x04), SubCell(1, 0, 0x08),
    SubCell(1, 1, 0x10), SubCell(1, 2, 0x20), SubCell(0, 3, 0x40), SubCell(1, 3, 0x80)
  ]

  /** octant.rs: the same dots, listed row by row. */
  const OctantCoords: seq<SubCell> := [
    SubCell(0, 0, 0x01), SubCell(1, 0, 0x08),
    SubCell(0, 1, 0x02), SubCell(1, 1, 0x10),
    SubCell(0, 2, 0x04), SubCell(1, 2, 0x20),
    SubCell(0, 3, 0x40), SubCell(1, 3, 0x80)
  ]

  /** quadrant.rs: TL=1, TR=2, BL=4, BR=8. */
  const QuadrantCoords: seq<SubCell> := [
    SubCell(0, 0, 1), SubCell(1, 0, 2),
    SubCell(0, 1, 4), SubCell(1, 1, 8)
  ]

  /** sextant.rs: TL=1, TR=2, ML=4, MR=8, BL=16, BR=32. */
  const SextantCoords: seq<SubCell> := [
    SubCell(0, 0, 1), SubCell(1, 0, 2),
    SubCell(0, 1, 4), SubCell(1, 1, 8),
    SubCell(0, 2, 16), SubCell(1, 2, 32)
  ]

  predicate SingleBit(b: bv8) {
    b != 0 && b & (b - 1) == 0
  }

  /** Every entry has one bit of its own. */
  predicate DistinctBits(coords: seq<SubCell>) {
    && (forall k :: 0 <= k < |coords| ==> SingleBit(coords[k].bit))
    && (forall i, j :: 0 <= i < j < |coords| ==> coords[i].bit & coords[j].bit == 0)
  }

  /** One entry per position of a `cellWidth x cellHeight` cell, no position twice. */
  predicate Placed(coords: seq<SubCell>, cellWidth: nat, cellHeight: nat) {
    && |coords| == cellWidth * cellHeight
    && (forall k :: 0 <= k < |coords| ==> coords[k].dx < cellWidth && coords[k].dy < cellHeight)
    && (forall i, j :: 0 <= i < j < |coords| ==>
          coords[i].dx != coords[j].dx || coords[i].dy != coords[j].dy)
  }

  /**
   * A geometry for cells `cellWidth` pixels wide and `cellHeight` tall:
   * one entry per position of the cell, no position twice, one bit each.
   */
  predicate WellFormed(coords: seq<SubCell>, cellWidth: nat, cellHeight: nat) {
    Placed(coords, cellWidth, cellHeight) && DistinctBits(coords)
  }

  /** `x + dx < width && y + dy < height`: the sub-cell lies on the image. */
  predicate InBounds(x: nat, y: nat, c: SubCell, width: nat, height: nat) {
    x + c.dx < width && y + c.dy < height
  }

  /** The mask built by `mask |= bit` over the entries selected by `sel`, in table order. */
  function MaskOf(coords: seq<SubCell>, sel: seq<bool>): bv8
    requires |sel| == |coords|
  {
    if coords == [] then 0
    else
      var n := |coords| - 1;
      MaskOf(coords[..n], sel[..n]) | (if sel[n] then coords[n].bit else 0)
  }

  function AllOn(n: nat): (sel: seq<bool>)
    ensures |sel| == n && forall k :: 0 <= k < n ==> sel[k]
  {
    seq(n, k => true)
  }

  /** The mask with every sub-cell on. */
  function FullMask(coords: seq<SubCell>): bv8 {
    MaskOf(coords, AllOn(|coords|))
  }

  lemma {:induction false} MaskAvoids(coords: seq<SubCell>, sel: seq<bool>, b: bv8)
    requires |sel| == |coords|
    requires forall k :: 0 <= k < |coords| ==> coords[k].bit & b == 0
    ensures MaskOf(coords, sel) & b == 0
  {
    if coords != [] {
      var n := |coords| - 1;
      MaskAvoids(coords[..n], sel[..n], b);
    }
  }

  /** The mask of the first `n` entries is that of the first `n - 1` with entry `n - 1` added. */
  lemma MaskOfSnoc(coords: seq<SubCell>, sel: seq<bool>, n: nat)
    requires 0 < n <= |coords| && |sel| == n
    ensures MaskOf(coords[..n], sel) == MaskOf(coords[..n - 1], sel[..n - 1]) | (if sel[n - 1] then coords[n - 1].bit else 0)
  {
    assert coords[..n][..n - 1] == coords[..n - 1];
  }

  /** A mask built up one entry at a time is the mask of the selection so far. */
  lemma MaskChain(coords: seq<SubCell>, sel: seq<bool>, n: nat, before: bv8, after: bv8)
    requires 0 < n <= |coords| && |sel| == n
    requires before == MaskOf(coords[..n - 1], sel[..n - 1])
    requires after == before | (if sel[n - 1] then coords[n - 1].bit else 0)
    ensures after == MaskOf(coords[..n], sel)
  {
    MaskOfSnoc(coords, sel, n);
  }

  /** With distinct bits, a sub-cell's bit is set in the mask exactly when it was selected. */
  lemma {:induction false} MaskBit(coords: seq<SubCell>, sel: seq<bool>, k: nat)
    requires |sel| == |coords| && DistinctBits(coords) && k < |coords|
    ensures MaskOf(coords, sel) & coords[k].bit != 0 <==> sel[k]
  {
    var n := |coords| - 1;
    var pre, psel := coords[..n], sel[..n];
    if k == n {
      MaskAvoids(pre, psel, coords[n].bit);
    } else {
      MaskBit(pre, psel, k);
      assert coords[k].bit & coords[n].bit == 0;
    }
  }

  /** The mask never has a bit outside the full mask. */
  lemma {:induction false} MaskWithinFull(coords: seq<SubCell>, sel: seq<bool>)
    requires |sel| == |coords|
    ensures MaskOf(coords, sel) | FullMask(coords) == FullMask(coords)
  {
    if coords != [] {
      var n := |coords| - 1;
      MaskWithinFull(coords[..n], sel[..n]);
      assert AllOn(|coords|)[..n] == AllOn(n);
    }
  }

  /** The mask is full exactly when every sub-cell is selected. */
  lemma MaskFullIff(coords: seq<SubCell>, sel: seq<bool>)
    requires |sel| == |coords| && DistinctBits(coords)
    ensures MaskOf(coords, sel) == FullMask(coords) <==> forall k :: 0 <= k < |sel| ==> sel[k]
  {
    if forall k :: 0 <= k < |sel| ==> sel[k] {
      assert sel == AllOn(|coords|);
    }
    if MaskOf(coords, sel) == FullMask(coords) {
      forall k | 0 <= k < |sel| ensures sel[k] {
        MaskBit(coords, AllOn(|coords|), k);
        MaskBit(coords, sel, k);
      }
    }
  }

  /** The bits of all entries, ORed from the last entry back. */
  function OrAll(coords: seq<SubCell>): bv8 {
    if coords == [] then 0 else coords[0].bit | OrAll(coords[1..])
  }

  lemma {:induction false} OrAllSnoc(coords: seq<SubCell>, c: SubCell)
    ensures OrAll(coords + [c]) == OrAll(coords) | c.bit
  {
    if coords != [] {
      assert (coords + [c])[1..] == coords[1..] + [c];
      OrAllSnoc(coords[1..], c);
    }
  }

  lemma {:induction false} FullMaskIsOrAll(coords: seq<SubCell>)
    ensures FullMask(coords) == OrAll(coords)
  {
    if coords != [] {
      var n := |coords| - 1;
      assert AllOn(|coords|)[..n] == AllOn(n);
      FullMaskIsOrAll(coords[..n]);
      assert coords[..n] + [coords[n]] == coords;
      OrAllSnoc(coords[..n], coords[n]);
    }
  }

  lemma BraillePlaced()
    ensures Placed(BrailleCoords, 2, 4)
  {
  }

  lemma BrailleBits()
    ensures DistinctBits(BrailleCoords)
  {
  }

  lemma BrailleWellFormed()
    ensures WellFormed(BrailleCoords, 2, 4)
  {
    BraillePlaced();
    BrailleBits();
  }

  lemma BrailleFullMask()
    ensures FullMask(BrailleCoords) == 0xFF
  {
    FullMaskIsOrAll(BrailleCoords);
  }

  lemma OctantPlaced()
    ensures Placed(OctantCoords, 2, 4)
  {
  }

  lemma OctantBits()
    ensures DistinctBits(OctantCoords)
  {
  }

  lemma OctantWellFormed()
    ensures WellFormed(OctantCoords, 2, 4)
  {
    OctantPlaced();
    OctantBits();
  }

  lemma OctantFullMask()
    ensures FullMask(OctantCoords) == 0xFF
  {
    FullMaskIsOrAll(OctantCoords);
  }

  lemma QuadrantPlaced()
    ensures Placed(QuadrantCoords, 2, 2)
  {
  }

  lemma QuadrantBits()
    ensures DistinctBits(QuadrantCoords)
  {
  }

  lemma QuadrantWellFormed()
    ensures WellFormed(QuadrantCoords, 2, 2)
  {
    QuadrantPlaced();
    QuadrantBits();
  }

  lemma QuadrantFullMask()
    ensures FullMask(QuadrantCoords) == 0x0F
  {
    FullMaskIsOrAll(QuadrantCoords);
  }

  lemma SextantPlaced()
    ensures Placed(SextantCoords, 2, 3)
  {
  }

  lemma SextantBits()
    ensures DistinctBits(SextantCoords)
  {
  }

  lemma SextantWellFormed()
    ensures WellFormed(SextantCoords, 2, 3)
  {
    SextantPlaced();
    SextantBits();
  }

  lemma SextantFullMask()
    ensures FullMask(SextantCoords) == 0x3F
  {
    FullMaskIsOrAll(SextantCoords);
  }

  /** octant.rs lists the braille table in another order but gives every position the same bit. */
  lemma OctantIsBrailleReordered()
    ensures forall c :: c in OctantCoords <==> c in BrailleCoords
  {
  }

  /** A mask of a table whose full mask is `0x0F` indexes a 16-entry table. */
  lemma MaskBelow(m: bv8, full: bv8)
    requires m | full == full
    ensures m as int <= full as int
  {
    assert m <= full;
  }
}
