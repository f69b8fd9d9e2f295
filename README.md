# Terminal image rendering core, modelled in Dafny

The program draws an image in a terminal, one character cell at a time. Each
cell covers a small window of pixels, and each pixel of the window is a
sub-cell of the glyph. The five renderers differ in glyph family and in how
they decide which sub-cells are "on":

- `src/braille.rs` and `src/main.rs` draw 2 x 4 Braille Patterns characters
  (U+2800 + mask).
  - Each dot is switched on by threshold dithering of a gray value.
  - The quantisation error is spread to later pixels by Stucki diffusion.
  - The cell colour is the window's linear-light average. braille.rs
    re-encodes it through an exponent that depends on the cell's gray range;
    main.rs uses a square root.
- `src/octant.rs` also draws 2 x 4 Braille characters.
  - The dots are chosen by Block Truncation Coding (BTC): the sub-pixels at
    or above the cell's mean luma form the foreground.
  - The foreground colour is "unmixed" against the background, so that half
    dot and half background give the foreground average.
  - What the clamp of that colour cuts off is spread as a colour error.
- `src/quadrant.rs` (2 x 2 cells) and `src/sextant.rs` (2 x 3 cells) use BTC
  with Unicode block characters. They keep no state from one cell to the
  next.

Every cell becomes an ANSI "Select Graphic Rendition" escape sequence with
truecolour parameters followed by the glyph. Every line ends with the reset
`ESC[0m`.

## Modules

- `numeric.dfy` (`Numeric`): Rust's `clamp` and `round` and the saturating
  casts `as u8` and `as i16`, plus the wrap-around of an `i16` subtraction.
  All are written over unbounded `int` and exact `real`.
- `colorspace.dfy` (`ColorSpace`): the sRGB curves and Rec. 709 luma.
  - `powf` and `sqrt` are fields of a `Curves` value, so they are
    uninterpreted.
  - The curves keep their piecewise branches and constants.
- `ansi.dfy` (`Ansi`): SGR sequences with decimal parameters, and a parser
  that reads them back.
- `glyphs.dfy` (`Glyphs`): the Braille code point, and the `QUADRANTS` and
  `SEXTANTS` tables checked against the Unicode character names and charts.
- `geometry.dfy` (`Geometry`): the four `coords` tables and the mask that
  `mask |= bit` builds.
- `raster.dfy` (`Raster`): images, the `step_by` walks, and the window
  accumulations of braille.rs and main.rs.
- `diffusion.dfy` (`Diffusion`): the Stucki kernel.
  - `Diffuse` is a pure function over a grid.
  - `ErrorBuffer` is the in-place `height x width` buffer. It is a class
    over an `array2<real>` with a ghost `grid`.
- `dither.dfy` (`Dither`): threshold dithering of one cell, proved in place
  against the buffer.
- `btc.dfy` (`Btc`): pixel collection, the mean-luma partition, group
  averages, and octant.rs's dot-colour solving and palette.
- `braille_render.dfy`, `mono_render.dfy` (main.rs) and `octant_render.dfy`
  each give their renderer's whole loop. Each has:
  - a pure specification: a cell function, a row function and a frame
    function that thread the error buffer;
  - imperative methods that run the same loops over the buffer class and are
    proved equal to that specification.
- `block_render.dfy` (`BlockRender`) does the same for quadrant.rs and
  sextant.rs together. The two differ only in their `Family`: geometry,
  table and cell height.
- `seqs.dfy` (`Seqs`) holds small sequence lemmas.

The sextant.rs loop is the quadrant.rs loop with the sextant table. The rows
below cite quadrant.rs for the shared loop; the same statements hold for
src/sextant.rs:97-166 through `SextantFamily`.

## Model

| member | source | states |
|---|---|---|
| Numeric.Clamp | src/braille.rs:183-185 | The result lies in [lo, hi]. It is the value itself when that is already inside, and the nearer bound otherwise. |
| Numeric.Trunc | src/braille.rs:163 | Truncation toward zero: `0 <= n <= v < n + 1` for non-negative `v`, and `n - 1 < v <= n <= 0` for negative `v`. |
| Numeric.Round | src/braille.rs:183-185 | `f32::round` gives the integer within one half of `v`, with halves going away from zero. |
| Numeric.SaturatingU8 | src/octant.rs:204-210 | `as u8` truncates a value in [0, 256), sends negatives to 0 and sends 256 or more to 255. |
| Numeric.SaturatingI16 | src/braille.rs:163 | `luma as i16` stays in the i16 range and truncates any value inside it. |
| Numeric.WrapI16 | src/braille.rs:163 | The i16 subtraction wraps. The result is in range, congruent to the exact difference modulo 65536, and equal to it when that is in range. |
| Numeric.ScaleToU8 | src/braille.rs:183-185 | `(v * 255.0).round() as u8` of a value in [0, 1] is `round(v * 255)`. |
| Numeric.ScaleToU8Nearest | src/braille.rs:183-185 | For v in [0, 1] the byte is within one half of `v * 255`. 0 gives 0 and 1 gives 255. |
| Numeric.ScaleToU8Clamps | src/octant.rs:204-210 | Scaling an unclamped value gives the same byte as scaling the clamped value. So octant.rs's missing `clamp` changes no output. |
| Numeric.AbsDiff | src/braille.rs:129 | `abs_diff` is non-negative and is one of `a - b` and `b - a`. |
| ColorSpace.SrgbToLinear | src/braille.rs:201-207 | On the linear segment [0, 0.04045] the decoded value lies between 0 and the input. |
| ColorSpace.LinearToSrgb | src/braille.rs:209-215 | On the linear segment [0, 0.0031308] the encoded value lies between the input and `12.92 * 0.0031308`. |
| ColorSpace.Luma709 | src/octant.rs:119-120 | Rec. 709 luma of channels in [0, 1] lies in [0, 1]. A gray's luma is its channel value. |
| ColorSpace.Unit | src/quadrant.rs:133-135 | `p as f32 / 255.0` lies in [0, 1]. It is 0 exactly for 0 and 1 exactly for 255. |
| ColorSpace.LinearSegmentRoundTrip | src/braille.rs:201-215 | Where decoding stays on both linear segments, encoding undoes decoding exactly. |
| ColorSpace.KneesDisagree | src/braille.rs:201-215 | The two knees do not meet. Decoding 0.04045 lands above 0.0031308, so the re-encoding there goes through the power branch. |
| ColorSpace.BlackIsFixed | src/quadrant.rs:212-217 | 0 decodes to 0 and encodes to 0. |
| ColorSpace.WhiteIsFixed | src/quadrant.rs:212-217 | When `powf(1, e) = 1`, 1 decodes to 1 and encodes to 1. |
| Ansi.Decimal | src/braille.rs:192 | `{}` of an integer is a non-empty run of digits without a leading zero. |
| Ansi.DecimalRoundTrip | src/braille.rs:192 | Reading the digits of `{}` back gives the number. |
| Ansi.Sgr | src/braille.rs:192 | An escape sequence starts with `ESC [` and ends with `m`. |
| Ansi.ParseJoin | src/octant.rs:213-217 | Parameters written with `;` between them and `m` after them parse back to the same numbers, and the following text is left untouched. |
| Ansi.SgrRoundTrip | src/quadrant.rs:173-177 | Any escape sequence the renderers write parses back to its parameter list, followed by the text after it. |
| Glyphs.FromU32 | src/braille.rs:188 | `char::from_u32` succeeds exactly below U+110000 outside the surrogates, and keeps the code point. |
| Glyphs.BrailleGlyph | src/braille.rs:188 | `0x2800 + mask` is always a character of U+2800..U+28FF, so the `' '` fallback is never used. |
| Glyphs.BrailleRoundTrip | src/main.rs:243 | The raised dots of the glyph are exactly the mask, so no two masks share a glyph. |
| Glyphs.TableGet | src/quadrant.rs:170 | `get(m).unwrap_or(&' ')` is the table entry whenever `m` indexes the table. |
| Glyphs.QuadrantsMatchNames | src/quadrant.rs:26-45 | Every `QUADRANTS` entry fills exactly the quarters that its index's bits name (TL=1, TR=2, BL=4, BR=8). |
| Glyphs.QuadrantsTable | src/quadrant.rs:28-45 | The table has 16 pairwise distinct entries. 0 is ' ', 3 '▀', 5 '▌', 6 '▞', 9 '▚', 10 '▐', 12 '▄' and 15 '█'. |
| Glyphs.SextantsMatchChart | src/sextant.rs:28-33 | The table has 64 entries: 0 is ' ', 21 '▌', 42 '▐' and 63 '█'. Every other index m is U+1FB00 + m - 1 - [m > 21] - [m > 42]. |
| Glyphs.SextantsDistinct | src/sextant.rs:28-33 | The 64 sextant entries are pairwise distinct. |
| Geometry.MaskBit | src/braille.rs:158-160 | With distinct single bits, bit k of the built mask is set exactly when entry k was selected. |
| Geometry.MaskWithinFull | src/quadrant.rs:157-165 | A built mask has no bit outside the OR of all the table's bits. |
| Geometry.MaskFullIff | src/braille.rs:145-148 | The mask equals the full mask exactly when every entry is selected. |
| Geometry.BrailleWellFormed | src/braille.rs:145-148 | The braille `coords` cover the 8 positions of a 2 x 4 cell once each, with 8 distinct single bits. |
| Geometry.BrailleFullMask | src/braille.rs:145-148 | The braille bits together are 0xFF. |
| Geometry.OctantWellFormed | src/octant.rs:101-106 | The octant `coords` cover the 8 positions of a 2 x 4 cell once each, with 8 distinct single bits. |
| Geometry.OctantFullMask | src/octant.rs:101-106 | The octant bits together are 0xFF. |
| Geometry.OctantIsBrailleReordered | src/octant.rs:97-106 | The octant table has the same position-to-bit entries as the braille table, listed row by row. |
| Geometry.QuadrantWellFormed | src/quadrant.rs:122-127 | The quadrant `coords` cover the 4 positions of a 2 x 2 cell once each, with distinct single bits. |
| Geometry.QuadrantFullMask | src/quadrant.rs:122-127 | The quadrant bits together are 0x0F, so a mask is at most 15. |
| Geometry.SextantWellFormed | src/sextant.rs:105-110 | The sextant `coords` cover the 6 positions of a 2 x 3 cell once each, with distinct single bits. |
| Geometry.SextantFullMask | src/sextant.rs:105-110 | The sextant bits together are 0x3F, so a mask is at most 63. |
| Raster.StepCountIsCeiling | src/braille.rs:88 | `(from..extent).step_by(step)` yields ceil((extent - from) / step) values for the steps 2, 3 and 4. |
| Raster.LinearTotalOfUniform | src/main.rs:164-173 | Suppose every on-image pixel of the window has channel value v. Then the total is (number of pixels on the image) x `srgb_to_linear(v / 255)`. |
| Raster.WindowMeanOfUniform | src/main.rs:174-177 | Dividing a uniform window's total by the constant 8 gives its linear colour when all 8 pixels are on the image. A clipped window of non-black colour comes out strictly darker. |
| Raster.WholeWindowMean | src/braille.rs:117-120 | A uniform 2 x 4 window wholly on the image averages to the linear value of its colour. |
| Raster.AddLinear | src/braille.rs:102-107 | One pass of the window loop moves the three linear totals from k window entries to k + 1. |
| Raster.AddGray | src/braille.rs:110-112 | One pass moves `min_luma` and `max_luma` from k entries to k + 1. |
| Raster.GrayRange | src/braille.rs:97-112 | `min_luma <= g <= max_luma` for every on-image gray sample g, and both bounds are attained when any sample is on the image. With none on the image they stay 255 and 0. |
| Diffusion.StuckiKernel | src/braille.rs:166-170 | Each of the 12 taps carries Stucki's matrix weight for its offset. The offsets are pairwise distinct, and each lies after the source pixel in raster order. |
| Diffusion.StuckiTotal | src/braille.rs:166-170 | The weight numerators sum to 42. |
| Diffusion.Zeros | src/braille.rs:85 | `vec![vec![0.0; width]; height]` has `height` rows of `width` zeros. |
| Diffusion.AddAtValue | src/braille.rs:175 | `+=` at (x, y) changes that entry by v and no other entry. |
| Diffusion.DiffusePrefixAt | src/braille.rs:171-177 | After the first n taps, each entry has gained `err * w / 42`. Here w is the weight those taps give its offset from the source. |
| Diffusion.PartialWeightComplete | src/main.rs:217-231 | Over all twelve taps, the weight an offset receives is exactly its entry in Stucki's matrix. |
| Diffusion.DiffuseAt | src/main.rs:232-238 | After the kernel loop, every entry has gained exactly `err * K(dx, dy) / 42` for its offset. Targets off the image are skipped. |
| Diffusion.DiffuseForwardAndLocal | src/braille.rs:171-177 | These entries are unchanged: rows above the source, the source itself and to its left on its row, and anything more than 2 columns or 2 rows away. |
| Diffusion.DiffuseZero | src/braille.rs:171-177 | A zero error leaves the grid unchanged. |
| Diffusion.ErrorBuffer.constructor | src/braille.rs:85 | A new buffer is `height x width` and all zero. |
| Diffusion.ErrorBuffer.Get | src/braille.rs:154 | `error_diffusion[y][x]` reads the buffer's abstract grid. |
| Diffusion.ErrorBuffer.Distribute | src/braille.rs:166-177 | The in-place kernel loop leaves the grid equal to `Diffuse` of the old grid. |
| Dither.MonoRuleDecides | src/main.rs:205-209 | A sub-cell is on exactly when `luma < threshold` under `--invert`, and when `luma > threshold` otherwise. |
| Dither.ErrorValue | src/braille.rs:163 | The error is an i16. It equals `trunc(luma) - (255 if on else 0)` whenever neither the cast nor the subtraction overflows. |
| Dither.ErrorBounds | src/main.rs:205-215 | Under `luma > level`, an on sub-cell passes an error of at least `level - 255` and an off one at most `level`; braille.rs's level 128 gives -127 and 128. Under `--invert` (`luma < level`), an off sub-cell passes at least `level`, and an on one at most `level - 255` while the luma stays at or above -32513. Below -32768 the subtraction wraps and the error becomes +32513. |
| Dither.StepMask | src/braille.rs:150-160 | A sub-cell sets its bit exactly when it is on the image and its luma plus the waiting error passes the rule. |
| Dither.DitherPrefixMask | src/braille.rs:150-160 | After n entries the mask is the OR of the bits of the entries switched on so far. |
| Dither.DitherMaskBits | src/braille.rs:150-160 | Bit k of the cell's mask is set exactly when sub-cell k is on the image and the luma it reads passes the rule. |
| Dither.SaturatedCell | src/braille.rs:150-177 | Suppose every sub-cell is on the image with base luma 255, none has error waiting, and the rule switches 255 on. Then every bit is set (the full mask), and the grid is unchanged because each error is 0. |
| Dither.ClippedDiffusesNothing | src/braille.rs:151 | A sub-cell off the image changes neither the buffer nor the mask. |
| Dither.DitherSubCell | src/braille.rs:151-177 | One sub-cell, in place: the buffer and the mask become those of the specified step. |
| Dither.DitherCell | src/braille.rs:150-179 | The `coords` loop, in place: the buffer and the mask equal the cell's dithering specification. |
| Btc.Pixel | src/octant.rs:119-123 | `PixelData` keeps the three channels and the bit. Its luma lies in [0, 1] when the channels do. |
| Btc.CollectNonEmpty | src/octant.rs:127-130 | The cell origin is on the image, so `pixels` is never empty and the `' '` branch is dead. |
| Btc.PartitionSplits | src/quadrant.rs:157-165 | Foreground and background together hold every pixel exactly as often as `pixels` does. |
| Btc.PartitionSides | src/quadrant.rs:157-165 | Every foreground pixel comes from `pixels` and has luma >= threshold. Every background pixel has luma < threshold. |
| Btc.ForegroundHas | src/sextant.rs:140-144 | Every pixel with luma >= threshold is in the foreground. |
| Btc.ForegroundNonEmpty | src/octant.rs:132-146 | With the mean as threshold, the foreground is never empty. |
| Btc.UniformIsAllForeground | src/sextant.rs:150-151 | When all lumas are equal, the threshold is that luma, every pixel is foreground and the background is empty. |
| Btc.Partition | src/quadrant.rs:153-165 | The loop builds the foreground, the background and `char_mask` = the OR of the foreground's bits. |
| Btc.BtcMaskBits | src/quadrant.rs:157-165 | Bit k of `char_mask` is set exactly when sub-cell k is on the image and its luma is at least the threshold. The mask stays within the full mask. |
| Btc.BtcMaskRange | src/quadrant.rs:150-170 | For a non-empty cell, `0 < char_mask <= full mask`. So the table lookup never falls back, and the mask is never 0. |
| Btc.AverageOfSameColor | src/octant.rs:225-242 | A group of one colour averages, in linear light, to that colour decoded. |
| Btc.AverageOfBlackAndWhite | src/quadrant.rs:185-210 | An all-black group averages to (0, 0, 0). An all-white group averages to (255, 255, 255) when `powf(1, e) = 1`. |
| Btc.AverageColorOf | src/quadrant.rs:185-210 | The summing loop returns the group average: (0, 0, 0) for an empty group, else each channel's linear mean re-encoded, clamped and rounded. |
| Btc.AverageColorLinear | src/octant.rs:225-242 | The summing loop returns `None` for an empty group, else the three linear means. |
| Btc.ColorTextDecodes | src/quadrant.rs:173-177 | A cell's text parses back to its foreground and background colours, followed by the glyph. |
| Btc.UnmixRoundTrip | src/octant.rs:157-172 | The dot colour always lies in [0, 1]. Where `2t - bg` is in [0, 1], the 50/50 mix gives the target and the residual is 0. Otherwise the red residual is half of what the clamp cut off. |
| Btc.OctantPalette | src/octant.rs:152-155 | Each colour is its group's average when that group is non-empty. An empty background takes the foreground average, and an empty foreground's target is the background. Black is used only when both are empty. |
| Btc.OctantPaletteOfCell | src/octant.rs:152-172 | With the mean threshold the target is always the foreground average. A cell with an empty background and an in-gamut target leaves a zero residual. |
| BlockRender.FamilyFacts | src/sextant.rs:28-33 | Both block families have a well-formed geometry with the origin first. Each table has one entry per mask up to the full one, and the entry at the full mask is '█'. |
| BlockRender.FrameFromClosed | src/quadrant.rs:179 | Every printed line ends with `ESC[0m`. |
| BlockRender.FrameFromCount | src/quadrant.rs:114 | There is one line per step of the row walk. |
| BlockRender.ImageLines | src/quadrant.rs:114-180 | An image of height h gives ceil(h / cell height) lines, each closed by the reset. |
| BlockRender.CellLocal | src/quadrant.rs:119-177 | A cell depends only on its own window: two images that agree on the pixels under the in-bounds sub-cells give the same cell text. |
| BlockRender.CellMask | src/quadrant.rs:150-170 | The mask is between 1 and the last table index, and `get` returns that table entry. Bit k is set exactly when sub-cell k is on the image and at or above the mean luma. |
| BlockRender.CellNeverBlank | src/quadrant.rs:145-148 | A cell whose origin is on the image has pixels, so the blank branch is never taken. |
| BlockRender.UniformCellMask | src/sextant.rs:150-151 | A one-colour cell wholly on the image gets the full mask. |
| BlockRender.UniformCellIsFullBlock | src/sextant.rs:150-164 | A one-colour cell wholly on the image is drawn as '█' in its own re-encoded colour over black. |
| BlockRender.DiagonalCell | src/quadrant.rs:150-177 | White TL and BR with black TR and BL gives mask 9 ('▚'), white over black. The opposite diagonal gives mask 6 ('▞'). |
| BlockRender.GlyphDeterminesMask | src/quadrant.rs:28-45 | No two masks of a family share a glyph. |
| BlockRender.CellTextDecodes | src/quadrant.rs:167-177 | A cell's text parses back to the two group averages and the table glyph, and that glyph determines the mask. |
| BlockRender.CollectPixels | src/quadrant.rs:130-143 | The collecting loop returns the cell's `pixels` and their `luma_sum`. |
| BlockRender.RenderCell | src/quadrant.rs:119-177 | The text written for a cell equals the cell specification. |
| BlockRender.RenderRow | src/quadrant.rs:115-178 | The line built for a row equals the row specification. |
| BlockRender.AppendLine | src/quadrant.rs:179 | Adding one closed line keeps "lines so far + lines still to come" equal to the whole picture. |
| BlockRender.Render | src/quadrant.rs:111-180 | The printed lines equal the frame specification. |
| BrailleRender.CellExponents | src/braille.rs:129-132 | `bleh` is in [0.5, 0.8] and `blah` in [0.2, 0.5], summing to 1. A flat cell gives 0.8 and 0.2. A cell spanning the whole gray range gives 0.5 and 0.5. |
| BrailleRender.ExponentsMonotone | src/braille.rs:129-132 | A wider gray range never raises `bleh` and never lowers `blah`. |
| BrailleRender.CellTextDecodes | src/braille.rs:183-192 | A cell's text parses back to bold, its colour and a black background. The glyph and `ESC[0m` follow, and the glyph gives back the mask. |
| BrailleRender.FramePrefixLength | src/braille.rs:88-195 | m rows give m lines. |
| BrailleRender.ImageLineCount | src/braille.rs:88 | An image of height h gives ceil(h / 4) lines. |
| BrailleRender.CellDots | src/braille.rs:150-160 | Dot k is raised exactly when it is on the image and its base luma plus the accumulated error exceeds 128. |
| BrailleRender.WhiteCell | src/braille.rs:92-193 | Take a white 2 x 4 cell wholly on the image over a zero buffer, with `powf(1, e) = 1` for the four exponents used. Its exponents are 0.8 and 0.2 and all eight dots are raised (mask 0xFF). The buffer stays zero, the colour is (255, 255, 255), and the cell prints as U+28FF in white. |
| BrailleRender.CellGrayRange | src/braille.rs:97-112 | The origin's gray value lies between the window's `min_luma` and `max_luma`. |
| BrailleRender.WritesBehind | src/braille.rs:168 | The (-1, +1) tap from dot 4 lands on the pixel under dot 2, which was already read, and adds 4/42 of the error there. |
| BrailleRender.ScanWindow | src/braille.rs:93-115 | The window loops return the three linear totals and the gray range of the window. |
| BrailleRender.RenderCell | src/braille.rs:92-193 | The text and the buffer after one cell equal the cell specification. |
| BrailleRender.AppendCell | src/braille.rs:192 | Writing one cell keeps "line so far + rest of the row" equal to the row specification. |
| BrailleRender.RenderRow | src/braille.rs:89-193 | The line and the buffer after a row equal the row specification. |
| BrailleRender.AppendRow | src/braille.rs:88-195 | One pass of the row loop extends the printed lines, and the buffer, to one more row of the frame specification. |
| BrailleRender.Render | src/braille.rs:83-195 | Starting from a zero buffer, the printed lines equal the frame specification. |
| MonoRender.ChannelByte | src/main.rs:180-182 | `round(clamp(sqrt(avg), 0, 1) * 255)`: the rounded value in range, 0 below and 255 above. |
| MonoRender.UniformCellColor | src/main.rs:174-182 | A one-colour cell wholly on the image is drawn in `sqrt(srgb_to_linear(v / 255))` per channel, not in v. |
| MonoRender.CellTextDecodes | src/main.rs:246 | A cell's text parses back to bold and its colour, then the glyph and `ESC[0m`. The glyph gives back the mask. |
| MonoRender.FramePrefixLength | src/main.rs:156-249 | m rows give m lines. |
| MonoRender.ImageLineCount | src/main.rs:156 | An image of height h gives ceil(h / 4) lines. |
| MonoRender.WhiteCell | src/main.rs:159-247 | Take a white 2 x 4 cell wholly on the image over a zero buffer, without `--invert` and with a threshold below 255, given `sqrt(1) = 1` and `powf(1, 2.4) = 1`. All eight dots are raised (mask 0xFF), the buffer stays zero, and the colour is (255, 255, 255). |
| MonoRender.CellDots | src/main.rs:198-213 | Dot k is raised exactly when it is on the image and the luma it reads is below the threshold under `--invert`, or above it otherwise. |
| MonoRender.ScanColors | src/main.rs:161-173 | The window loops return the three linear totals. |
| MonoRender.RenderCell | src/main.rs:159-247 | The text and the buffer after one cell equal the cell specification. |
| MonoRender.AppendCell | src/main.rs:246 | Writing one cell keeps "line so far + rest of the row" equal to the row specification. |
| MonoRender.RenderRow | src/main.rs:157-247 | The line and the buffer after a row equal the row specification. |
| MonoRender.AppendRow | src/main.rs:156-249 | One pass of the row loop extends the printed lines, and the buffer, to one more row of the frame specification. |
| MonoRender.Render | src/main.rs:151-249 | Starting from a zero buffer, the printed lines equal the frame specification. |
| OctantRender.ZeroErrors | src/octant.rs:86 | The colour buffer starts as `height x width` zeros in every channel. |
| OctantRender.RgbErrorBuffer.constructor | src/octant.rs:86 | A new buffer is zero in all three channels. |
| OctantRender.RgbErrorBuffer.Get | src/octant.rs:112-114 | Reading a pixel gives its three accumulated channel errors. |
| OctantRender.RgbErrorBuffer.Spread | src/octant.rs:191-199 | One kernel pass adds each channel's error to that channel's grid. |
| OctantRender.SpreadZero | src/octant.rs:189-201 | A zero residual leaves every error unchanged. |
| OctantRender.ToBytesClamps | src/octant.rs:204-210 | The unclamped byte conversion gives the same bytes as the clamped conversion of the other renderers. |
| OctantRender.CellTextDecodes | src/octant.rs:212-217 | A cell's text parses back to the dot and background colours, then the glyph. The glyph gives back the mask. |
| OctantRender.FramePrefixLines | src/octant.rs:219 | m rows give m lines, each ending with `ESC[0m`. |
| OctantRender.ImageLines | src/octant.rs:89-220 | An image of height h gives ceil(h / 4) lines, each closed by the reset. |
| OctantRender.CellNeverBlank | src/octant.rs:127-130 | A cell whose origin is on the image has pixels, so the blank branch is never taken. |
| OctantRender.CellDots | src/octant.rs:139-146 | Dot k is raised exactly when sub-pixel k is on the image and its luma, error included, is at least the cell mean. |
| OctantRender.FlatCellIsFull | src/octant.rs:132-149 | A cell wholly on the image with equal lumas has an empty background and mask 0xFF. |
| OctantRender.FlatCellKeepsErrors | src/octant.rs:152-201 | Such a cell whose average is in gamut passes no error on. |
| OctantRender.ReadPixel | src/octant.rs:111-123 | Reading a sub-pixel decodes each channel, adds its waiting error, re-encodes, and takes the Rec. 709 luma. |
| OctantRender.CollectEntry | src/octant.rs:110-124 | One pass of the collecting loop moves `pixels` and `luma_sum` from k table entries to k + 1. |
| OctantRender.CollectPixels | src/octant.rs:109-125 | The collecting loop returns the cell's `pixels` and their `luma_sum`. |
| OctantRender.SpreadResidual | src/octant.rs:189-201 | The residual is spread once from every on-image sub-pixel of the cell, in table order. |
| OctantRender.SpreadEntry | src/octant.rs:190-200 | One pass of that loop moves the errors from k table entries to k + 1. |
| OctantRender.PickPalette | src/octant.rs:152-155 | The two `unwrap_or` fallbacks give the palette specification. |
| OctantRender.RenderCell | src/octant.rs:92-218 | The text and the errors after one cell equal the cell specification. |
| OctantRender.AppendCell | src/octant.rs:212-217 | Writing one cell keeps "line so far + rest of the row" equal to the row specification. |
| OctantRender.RenderRow | src/octant.rs:90-218 | The line and the errors after a row equal the row specification. |
| OctantRender.AppendRow | src/octant.rs:89-220 | One pass of the row loop extends the printed lines, and the errors, to one more row of the frame specification. |
| OctantRender.Render | src/octant.rs:85-220 | Starting from zero errors, the printed lines equal the frame specification. |

The table lists the members whose contracts state something. The
definitions those contracts are stated against follow the source as below:

- `Btc.SolveDotColor`: src/octant.rs:244-251.
- `Btc.AverageColor`: src/quadrant.rs:185-210.
- `Btc.AverageLinear`: src/octant.rs:225-242.
- `Diffusion.Diffuse`: src/braille.rs:166-177.
- `Dither.Step` and `Dither.DitherCellSpec`: src/braille.rs:150-177 and src/main.rs:198-240.
- `BrailleRender.CellColor`, `BrailleRender.CellDither` and `BrailleRender.CellSpec`: src/braille.rs:92-193.
- `MonoRender.CellColor`, `MonoRender.CellDither` and `MonoRender.CellSpec`: src/main.rs:159-247.
- `OctantRender.CellSpec`: src/octant.rs:92-218.
- `BlockRender.CellSpec`: src/quadrant.rs:119-177 and src/sextant.rs:100-164.
- `Glyphs.Quadrants`: src/quadrant.rs:28-45; `Glyphs.Sextants`: src/sextant.rs:28-33.
- `Geometry.BrailleCoords`, `Geometry.OctantCoords`, `Geometry.QuadrantCoords` and `Geometry.SextantCoords`: src/braille.rs:145-148, src/octant.rs:101-106, src/quadrant.rs:122-127 and src/sextant.rs:105-110.

## Left out

- Argument parsing, and the loops over several input files in src/braille.rs, src/octant.rs, src/quadrant.rs and src/sextant.rs, are not part of this model (src/main.rs takes a single path). The threshold and invert switches of main.rs are an `Options` parameter.
- The image library is not part of this model: loading, Lanczos3 resizing and sharpening with `filter3x3`. The renderers take the already-resized colour image and, where used, its gray version as parameters. This includes quadrant.rs's halving and sextant.rs's 3/4 height resize.
- Terminal size and printing are left out. The model produces the lines that `println!` prints.
- The float library's `powf` and `sqrt` are uninterpreted fields of `Curves`. Only properties that hold for every such function are proved, plus facts stated under assumptions such as `powf(1, e) = 1`.
- Values are exact reals, not f32, so no property depends on float rounding. For example, "the foreground is never empty" (`Btc.ForegroundNonEmpty`, `Btc.BtcMaskRange`) holds over exact arithmetic. With f32 rounding of `luma_sum` it could in principle fail, and then sextant.rs's "mask 0" case would be reachable.
- The Oklab conversions in braille.rs and main.rs are never called by the render loops, so they are not modelled. The same goes for `maximize_oklab_luma_within_srgb` in main.rs.
- braille.rs's `is_flat` (line 124) is computed and never used, so it is not modelled.
- The nested `for dy { for dx }` window loops of braille.rs and main.rs are one loop over the eight window positions, in the same order.
- Strings are sequences of characters. `write!` is concatenation, not an in-place buffer.
- octant.rs's buffer of `(f32, f32, f32)` tuples is held as three per-channel buffers of the same shape, updated together. Aliasing between channels is ruled out by construction.
- Coordinates are unbounded naturals, so the `u32`/`i32` arithmetic on pixel positions never overflows in the model. It cannot overflow for image sizes the program can load.
- Dither.ErrorValue: models a release build, where the `i16` subtraction `luma as i16 - 255` (src/braille.rs:163, src/main.rs:215) wraps. A debug build panics on that overflow instead. It is reachable in main.rs under `--invert`: a raised dot passes a negative error on, which keeps lowering later lumas, until one falls below -32513. `Dither.ErrorBounds` states the wrapped value.
- Raster.WindowMeanOfUniform: states the whole-window case exactly and the clipped case as "strictly darker", not as the exact fraction k/8 of the colour. The exact total is stated by `Raster.LinearTotalOfUniform`.
- Btc.UnmixRoundTrip: states the closed form of an out-of-range residual for the red channel only. The green and blue channels are the same expression.
- The (-2, +1) and (-1, +1) taps of the kernel also write onto pixels of the current cell that were already read, so part of a cell's error never reaches a later dot. The model follows the code (`BrailleRender.WritesBehind`, `Diffusion.DiffuseForwardAndLocal`).
