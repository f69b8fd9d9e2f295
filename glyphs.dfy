/**
 * Mask-to-character maps of the three glyph families: Unicode Braille
 * Patterns (computed as an offset from U+2800), the 16 quadrant characters
 * of the Block Elements block, and the 64-entry sextant table built from
 * the Symbols for Legacy Computing block of Unicode 13.0.
 */
module Glyphs {
  import opened Ansi

  /** `char::from_u32`: the code point as a character unless it is a surrogate or too large. */
  function FromU32(n: int): (r: Option<char>)
    ensures r.Some? <==> (0 <= n < 0xD800 || 0xE000 <= n < 0x11_0000)
    ensures r.Some? ==> r.value as int == n
  {
    if 0 <= n < 0xD800 || 0xE000 <= n < 0x11_0000 then Some(n as char) else None
  }

  function UnwrapOr(r: Option<char>, default: char): char {
    match r
    case Some(c) => c
    case None => default
  }

  const BrailleBase: int := 0x2800

  /**
   * `char::from_u32(0x2800 + mask).unwrap_or(' ')`. The fallback is never
   * taken: every 8-bit mask names a character of the Braille Patterns block.
   */
  function BrailleGlyph(mask: bv8): (c: char)
    ensures BrailleBase <= c as int <= BrailleBase + 0xFF
  {
    UnwrapOr(FromU32(BrailleBase + mask as int), ' ')
  }

  /** Which dots a Braille Patterns character raises (bit k is dot k+1). */
  function BrailleDots(c: char): Option<bv8> {
    if BrailleBase <= c as int <= BrailleBase + 0xFF then Some((c as int - BrailleBase) as bv8) else None
  }

  /** The dots of the glyph are exactly the mask: no two masks share a glyph. */
  lemma BrailleRoundTrip(mask: bv8)
    ensures BrailleDots(BrailleGlyph(mask)) == Some(mask)
  {
  }

  /** `table.get(m).unwrap_or(&' ')`. */
  function TableGet(table: seq<char>, m: int): (c: char)
    ensures 0 <= m < |table| ==> c == table[m]
  {
    if 0 <= m < |table| then table[m] else ' '
  }

  /** quadrant.rs `QUADRANTS`, indexed by TL=1, TR=2, BL=4, BR=8. */
  const Quadrants: seq<char> := [
    ' ', '\U{2598}', '\U{259D}', '\U{2580}', '\U{2596}', '\U{258C}', '\U{259E}', '\U{259B}',
    '\U{2597}', '\U{259A}', '\U{2590}', '\U{259C}', '\U{2584}', '\U{2599}', '\U{259F}', '\U{2588}'
  ]

  /** Which quarters of the cell a character fills. */
  datatype Quarters = Quarters(upperLeft: bool, upperRight: bool, lowerLeft: bool, lowerRight: bool)

  /** The quarters a mask selects in the bit order TL=1, TR=2, BL=4, BR=8. */
  function QuartersOf(m: bv8): Quarters {
    Quarters(m & 1 != 0, m & 2 != 0, m & 4 != 0, m & 8 != 0)
  }

  /**
   * The quarters of the cell each character fills, read off its Unicode
   * name (QUADRANT UPPER LEFT, UPPER HALF BLOCK, LEFT HALF BLOCK, ...).
   */
  function NamedQuarters(c: char): Option<Quarters> {
    match c
    case ' ' => Some(Quarters(false, false, false, false))
    case '\U{2598}' => Some(Quarters(true, false, false, false))
    case '\U{259D}' => Some(Quarters(false, true, false, false))
    case '\U{2596}' => Some(Quarters(false, false, true, false))
    case '\U{2597}' => Some(Quarters(false, false, false, true))
    case '\U{2580}' => Some(Quarters(true, true, false, false))
    case '\U{2584}' => Some(Quarters(false, false, true, true))
    case '\U{258C}' => Some(Quarters(true, false, true, false))
    case '\U{2590}' => Some(Quarters(false, true, false, true))
    case '\U{259A}' => Some(Quarters(true, false, false, true))
    case '\U{259E}' => Some(Quarters(false, true, true, false))
    case '\U{259B}' => Some(Quarters(true, true, true, false))
    case '\U{259C}' => Some(Quarters(true, true, false, true))
    case '\U{2599}' => Some(Quarters(true, false, true, true))
    case '\U{259F}' => Some(Quarters(false, true, true, true))
    case '\U{2588}' => Some(Quarters(true, true, true, true))
    case _ => None
  }

  /** Every entry of `QUADRANTS` fills exactly the quarters its index selects. */
  lemma QuadrantsMatchNames()
    ensures forall m: bv8 :: m < 16 ==> NamedQuarters(Quadrants[m as int]) == Some(QuartersOf(m))
  {
  }

  /** The named half, quarter and diagonal entries, and no character twice. */
  lemma QuadrantsTable()
    ensures |Quadrants| == 16
    ensures Quadrants[0] == ' ' && Quadrants[3] == '\U{2580}' && Quadrants[5] == '\U{258C}'
    ensures Quadrants[10] == '\U{2590}' && Quadrants[12] == '\U{2584}' && Quadrants[15] == '\U{2588}'
    ensures Quadrants[6] == '\U{259E}' && Quadrants[9] == '\U{259A}'
    ensures forall i, j :: 0 <= i < j < 16 ==> Quadrants[i] != Quadrants[j]
  {
  }

  /** sextant.rs `SEXTANTS`, indexed by TL=1, TR=2, ML=4, MR=8, BL=16, BR=32. */
  const Sextants: seq<char> := SextantsLow + SextantsHigh

  /** Entries 0 to 31 of `SEXTANTS`. */
  const SextantsLow: seq<char> := [
    ' ', '\U{1FB00}', '\U{1FB01}', '\U{1FB02}', '\U{1FB03}', '\U{1FB04}', '\U{1FB05}', '\U{1FB06}',
    '\U{1FB07}', '\U{1FB08}', '\U{1FB09}', '\U{1FB0A}', '\U{1FB0B}', '\U{1FB0C}', '\U{1FB0D}', '\U{1FB0E}',
    '\U{1FB0F}', '\U{1FB10}', '\U{1FB11}', '\U{1FB12}', '\U{1FB13}', '\U{258C}', '\U{1FB14}', '\U{1FB15}',
    '\U{1FB16}', '\U{1FB17}', '\U{1FB18}', '\U{1FB19}', '\U{1FB1A}', '\U{1FB1B}', '\U{1FB1C}', '\U{1FB1D}'
  ]

  /** Entries 32 to 63 of `SEXTANTS`. */
  const SextantsHigh: seq<char> := [
    '\U{1FB1E}', '\U{1FB1F}', '\U{1FB20}', '\U{1FB21}', '\U{1FB22}', '\U{1FB23}', '\U{1FB24}', '\U{1FB25}',
    '\U{1FB26}', '\U{1FB27}', '\U{2590}', '\U{1FB28}', '\U{1FB29}', '\U{1FB2A}', '\U{1FB2B}', '\U{1FB2C}',
    '\U{1FB2D}', '\U{1FB2E}', '\U{1FB2F}', '\U{1FB30}', '\U{1FB31}', '\U{1FB32}', '\U{1FB33}', '\U{1FB34}',
    '\U{1FB35}', '\U{1FB36}', '\U{1FB37}', '\U{1FB38}', '\U{1FB39}', '\U{1FB3A}', '\U{1FB3B}', '\U{2588}'
  ]

  /**
   * The Unicode 13.0 chart of sextants: BLOCK SEXTANT characters start at
   * U+1FB00 and enumerate the masks in increasing order, leaving out the
   * empty and full masks and the two half blocks that Unicode already had
   * (mask 21 = the left column, mask 42 = the right column).
   */
  function SextantCodePoint(m: int): int
    requires 0 < m < 63 && m != 21 && m != 42
  {
    0x1FB00 + m - 1 - (if m > 21 then 1 else 0) - (if m > 42 then 1 else 0)
  }

  /** `SEXTANTS` agrees with the Unicode chart entry by entry. */
  lemma SextantsMatchChart()
    ensures |Sextants| == 64
    ensures Sextants[0] == ' ' && Sextants[21] == '\U{258C}' && Sextants[42] == '\U{2590}'
    ensures Sextants[63] == '\U{2588}'
    ensures forall m :: 0 < m < 63 && m != 21 && m != 42 ==> Sextants[m] as int == SextantCodePoint(m)
  {
  }

  /** No character stands for two masks. */
  lemma SextantsDistinct()
    ensures forall i, j :: 0 <= i < j < 64 ==> Sextants[i] != Sextants[j]
  {
    SextantsMatchChart();
    forall i, j | 0 <= i < j < 64 ensures Sextants[i] != Sextants[j] {
      if i != 0 && j != 63 && i != 21 && i != 42 && j != 21 && j != 42 {
        assert SextantCodePoint(i) < SextantCodePoint(j);
      }
    }
  }
}
