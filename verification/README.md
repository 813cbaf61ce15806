# gol-rs in Dafny

A model of the core of gol-rs, a terminal Game of Life. The model covers four parts:

- The toroidal board of `src/gol.rs`. Points are normalised by `Point::remap`, flattened by `pt_to_index`, and read and written through `Index` / `IndexMut`. The model also covers the eight-cell neighbourhood, `alive`, `slice` and the edge-inclusive `Mask`.
- The superseded board of `src/gol/mod.rs`. Its `pt_to_index` wraps each coordinate at most once.
- The Life rule `calc_px` and the in-place sweep `run_turn` of `src/main.rs`.
- The renderer of `src/bgrid.rs`:
  - The `Charset` encodings: Braille dot masks, quadrant blocks, and the one-cell sets.
  - `transpose`.
  - `Frame::render`, which clips a view of the board to whole blocks, centres it, encodes each block as one glyph and draws a border around a picture smaller than the view.

Modules:

| module | file | models |
|---|---|---|
| `Grid` | grid.dfy | row-major cells `Cell(s, w, h, x, y) == s[y * w + x]` and the Euclidean division facts the rest uses |
| `Gol` | gol.dfy | `src/gol.rs` |
| `GolExamples` | gol_examples.dfy | the unit tests of `src/gol.rs` |
| `LegacyGol` | legacy_gol.dfy | `src/gol/mod.rs` |
| `Life` | life.dfy | `src/main.rs` |
| `LifeExamples` | life_examples.dfy | concrete boards on which the sweep differs from a generation step |
| `Charsets` | charset.dfy | `Charset` and `transpose` of `src/bgrid.rs` |
| `Frames` | frame.dfy | `Frame::render` of `src/bgrid.rs` |
| `FrameExamples` | frame_examples.dfy | a centred picture on which `render` shows the wrong cells |

The integer types of the source (`u32` widths and masks, `i64` points, `usize` indices) are unbounded here. Every contract assumes that no arithmetic overflows.

Several parts of the code are wrong, as the findings below show. In each case the model keeps the code as written and adds a corrected definition next to it. The code's behaviour and the corrected behaviour are both stated and proved. `Frames.RenderCentred` corrects only the centring: like `Frames.Render`, it encodes each block with the as-written `Charsets.Encode`.

## Model

| member | source | states |
|---|---|---|
| Gol.ContainsIsEdgeInclusive | src/gol.rs:60-65 | `Mask::contains` holds exactly for points whose offsets from the origin lie in `[0, w]` and `[0, h]`. All four corners, including `(x + w, y + h)`, are inside; one step beyond any edge is outside. |
| Gol.Board.Height | src/gol.rs:119-121 | On a valid board (the buffer a whole number of rows), the height times the width is the number of cells. |
| Gol.LiftNonNegative | src/gol.rs:218-223 | The `while v < 0 { v += step }` loop ends with a non-negative value congruent to `v`. It is below `step` if `v` was negative and `v` itself otherwise. |
| Gol.Remap | src/gol.rs:211-226 | `remap` yields the unique point of `[0, w) x [0, h)` congruent to `p` coordinate-wise, and leaves a point already inside unchanged. |
| Gol.PtToIndex | src/gol.rs:84-95 | The index is always inside the buffer, so the bounds assertion never fires on a valid, non-empty board. |
| Gol.PtToIndexResidues | src/gol.rs:84-95 | The index's column is `p.x` mod width and its row is `p.y` mod height. |
| Gol.AtIsCell | src/gol.rs:198-203 | Indexing reads the row-major buffer cell at the point's residues. |
| Gol.ReadAt | src/gol.rs:198-203 | A point with residues `(x, y)` reads `buf[y * width + x]`. |
| Gol.Update | src/gol.rs:204-209 | Assigning through `IndexMut` keeps the width, the cell count and the height. |
| Gol.UpdateWrites | src/gol.rs:204-209 | The assignment writes `v` at `pt_to_index(p)` and leaves every other buffer cell unchanged. |
| Gol.AtIsToroidal | src/gol.rs:84-95 | Reading at `p` equals reading at `remap(p)`. Moving `p` by one width or one height reads the same cell. |
| Gol.SameCellIffSameRemap | src/gol.rs:84-95 | Two points share a buffer index exactly when their normalisations are equal. |
| Gol.AtAfterUpdate | src/gol.rs:198-209 | After writing `v` at `p`, points with `p`'s normalisation read `v` and all others read as before. |
| Gol.MooreOffsetsAreTheNeighbourhood | src/gol.rs:122-156 | The eight offsets of `neighbors` are distinct. They are exactly the non-zero offsets with both coordinates in `[-1, 1]`. |
| Gol.NeighborsReadShifts | src/gol.rs:122-158 | Entry `k` of `neighbors(p)` is the cell at `p` moved by the `k`-th offset. |
| Gol.NeighborsAreToroidal | src/gol.rs:122-158 | Congruent points have identical neighbour arrays. |
| Gol.ShiftPreservesCongruence | src/gol.rs:122-158 | Moving congruent points by the same offset gives points that read the same cell. |
| Gol.CountTrueIsZeroIffAllFalse | src/main.rs:8 | The live-neighbour count is zero exactly when no entry is alive. |
| Gol.CountTrueIsMultiplicity | src/main.rs:8 | The count of `filter(..).count()` is the multiplicity of `true`, so it does not depend on order. |
| Gol.Alive | src/gol.rs:176-178 | `alive` is the number of `true` cells in the buffer, at most the cell count. |
| Gol.Slice | src/gol.rs:97-114 | The slice has width `sect.w` and `sect.w * sect.h` cells. Its entry `k` is the board cell at `sect`'s origin plus `(k % w, k / w)`, read with wrap-around. |
| Gol.SliceReadsWindow | src/gol.rs:97-114 | Indexing the slice at `(i, j)` reads the board at `(sect.x + i, sect.y + j)`. |
| GolExamples.RemapExamples | src/gol.rs:250-262 | The unit test of `remap`: `(20, 0)` on a 10 by 10 board lands inside it, and `(1, -2)` becomes `(1, 8)`. |
| GolExamples.SliceBoardExample | src/gol.rs:234-248 | The unit test of `slice`: after setting `(1, 1)` of a blank 4 by 4 board, the 2 by 2 slice from `(1, 1)` is 2 wide, 2 high and alive at `(0, 0)`. |
| LegacyGol.LegacyIndex | src/gol/mod.rs:32-46 | For a point within one extent of the board in each direction, the single-wrap index is row `p.y mod height`, column `p.x mod width` of the buffer. |
| LegacyGol.InBandIndexIsToroidal | src/gol/mod.rs:32-46 | For points within one extent of the board, the single-wrap index equals the toroidal index of `src/gol.rs` and lies in the buffer. |
| LegacyGol.SingleWrapIsMod | src/gol/mod.rs:33-44 | One conditional add and one conditional subtract normalise any value in `[-n, 2n)` to `v mod n`. |
| LegacyGol.LegacyAt | src/gol/mod.rs:128-133 | Indexing the superseded board at a point within one extent reads the same cell as the toroidal board. |
| LegacyGol.LegacyUpdate | src/gol/mod.rs:134-139 | Assigning on the superseded board writes `v` at its index and changes no other cell. |
| LegacyGol.LegacyNeighbors | src/gol/mod.rs:53-89 | Entry `k` of the superseded `neighbors` is the superseded lookup at `p` moved by the `k`-th offset, and each of those lookups is inside the buffer. |
| LegacyGol.OnBoardNeighborsStayInBounds | src/gol/mod.rs:53-89 | For a point on the board, all eight neighbour lookups of the superseded board stay in bounds. They return the same array as the toroidal board. |
| LegacyGol.OutsideBandMisreads | src/gol/mod.rs:32-46 | Outside the band the superseded index is wrong or negative. On a 2 by 2 board, (5, 0) reads a different cell than the toroidal board, and (-5, 0) gives a negative index. |
| Life.Rule | src/main.rs:10-16 | `calc_px`'s branches are B3/S23: next alive exactly when there are 3 live neighbours, or 2 and the cell is alive. A state changes only by birth on 3 or by death below 2 or above 3. |
| Life.CalcPx | src/main.rs:7-17 | `calc_px` is true exactly when three neighbours are alive, or two are and the cell itself is alive. |
| Life.CalcPxIgnoresNeighbourOrder | src/main.rs:7-17 | `calc_px` depends only on the cell's state and the multiset of its neighbours. |
| Life.VisitOrderLength | src/main.rs:20-21 | The loops visit `width * height` points. |
| Life.VisitOrderShape | src/main.rs:20-21 | Visit number `y * h + x` is `(x, y)`, with `y` over `0..width` outside and `x` over `0..height` inside. |
| Life.VisitOrderVisits | src/main.rs:20-25 | The visit numbered `y * h + x` is the point `(x, y)`. |
| Life.VisitOrderAt | src/main.rs:20-25 | Visit `k` is the point `(k % height, k / height)`. |
| Life.VisitedRowIsBelowWidth | src/main.rs:20-21 | Every visited point has `x < height` and `y < width`: the loop bounds are swapped. |
| Life.SweepByKeepsShape | src/main.rs:19-29 | A sweep whose steps keep the shape keeps the board's width and cell count. |
| Life.SweepByConcat | src/main.rs:19-29 | Sweeping `ps` and then `qs` equals sweeping `ps + qs`. The loops thread one board through every visit. |
| Life.RowByIsSweepBy | src/main.rs:21-27 | The inner loop's first `x` iterations are the sweep over `(0, y) .. (x - 1, y)`. |
| Life.RowsByIsSweepBy | src/main.rs:20-28 | The outer loop's first `y` rows are the sweep over the first `y` rows of the visit order. |
| Life.NestedLoopsSweepVisitOrder | src/main.rs:19-29 | The complete nested loops are the sweep over the whole visit order. |
| Life.RunRow | src/main.rs:21-27 | The inner loop, as a method, returns the board after its row of in-place assignments. |
| Life.RunTurn | src/main.rs:19-29 | `run_turn` keeps the width and cell count. It returns the board after assigning, point by point in visit order, each cell's `calc_px` on the partly updated board. |
| Life.SweepStep | src/main.rs:26 | Sweeping one more point assigns that point the `calc_px` computed on the board the earlier visits left. |
| Life.VisitAssigns | src/main.rs:26 | One visit writes `calc_px` to the cell of `p`: every point that normalises like `p` then reads that value, and every other point reads as before. |
| Life.SweepLeavesUnvisitedCells | src/main.rs:19-29 | A cell that no visited point normalises to keeps its value. |
| Life.RowsBelowWidthAreNeverVisited | src/main.rs:20-21 | On a board taller than wide, the cells in rows `width..height` are left unchanged by `run_turn`. |
| Life.NextGeneration | src/main.rs:7-17 | The intended step: every cell becomes the rule applied to its own state and live-neighbour count on the unchanged previous board. |
| Life.SnapshotCells | src/main.rs:7-17 | A buffer filled cell by cell with `calc_px` of the previous board reads, at every point, the rule on that board. |
| Life.LonelyCellDies | src/main.rs:12-13 | A live cell with no live neighbours dies in the next generation. |
| LifeExamples.SweepSettlesAfterPrefix | src/main.rs:19-29 | A cell's value after the sweep is fixed once the last visit that normalises to it has passed. |
| LifeExamples.IsolatedCellSurvivesInUnvisitedRow | src/main.rs:20-21 | On a 2 by 3 board, a lone live cell in row 2 survives `run_turn` but dies in the generation step. |
| LifeExamples.InPlaceSweepDiverges | src/main.rs:19-29 | On a 3 by 3 board with a live bottom row, `(1, 0)` should be born, but the in-place sweep leaves it dead. |
| LifeExamples.SweepMissesBirth | src/main.rs:19-29 | The same divergence for any board with those cells: the first visit's birth at `(0, 0)` gives `(1, 0)` four live neighbours. |
| LifeExamples.SecondVisitOverwrites | src/main.rs:26 | The second visit assigns `calc_px` computed on the board the first visit left. |
| LifeExamples.SweepTwo | src/main.rs:26 | Two visits are two assignments in sequence. |
| LifeExamples.BornOnBottomRow | src/main.rs:10-11 | In that example `(1, 0)` is dead with exactly three live neighbours on the previous board. |
| LifeExamples.CountsFourAfterFirstVisit | src/main.rs:12-13 | After the birth at `(0, 0)`, `calc_px` at `(1, 0)` is false. |
| LifeExamples.LaterVisitMisses | src/main.rs:20-25 | On a 3 by 3 board, no visit after the second one normalises to `(1, 0)`. |
| Charsets.Charset.Scale | src/bgrid.rs:29-36 | Every block is non-empty and holds at most eight cells. Braille alone holds eight, and Block alone is 2 by 2. |
| Charsets.Pack | src/bgrid.rs:22-27 | The fold of `calc_braille_offset` packs `n` bits below `2^n`, and gives zero exactly when no bit is set. |
| Charsets.PackBits | src/bgrid.rs:22-27 | Bit `n` of the packed value is entry `n`. |
| Charsets.Transpose | src/bgrid.rs:101-117 | `transpose` keeps the length, and cell `(x, y)` of the input is cell `(y, x)` of the output. |
| Charsets.TransposeTwice | src/bgrid.rs:101-117 | Transposing back gives the original. |
| Charsets.UnpackPack | src/bgrid.rs:22-27 | Reading back the `n` lowest bits of the fold's result gives the `n` entries folded in. |
| Charsets.TransposedMask | src/bgrid.rs:19-28 | The as-written offset is below 256, and it is zero exactly when no cell of the block is alive. |
| Charsets.TransposedMaskBits | src/bgrid.rs:19-28 | As written, bit `n` of the Braille offset is cell `(n / 4, n % 4)`: the block read column by column. |
| Charsets.TransposeBraille | src/bgrid.rs:19-28 | As written, `transpose(alive, 2, 4)` lists the left column top to bottom, then the right column. |
| Charsets.TransposedMaskMisplacesDots | src/bgrid.rs:19-48 | As written, a lone bottom-left cell encodes to U+2808, which shows only the top-right dot. The corrected encoder gives U+2840, the bottom-left dot. |
| Charsets.EncodeShowsTransposedDots | src/bgrid.rs:19-48 | As written, the dot Unicode draws at cell `(x, y)` shows the cell in row `DotBit(x, y) % 4`, column `DotBit(x, y) / 4`. Only the top three cells of the left column and the bottom-right cell are in place. |
| Charsets.DotCellInvertsDotBit | src/bgrid.rs:19-28 | The Unicode Braille dot numbering is a bijection between the eight bits and the eight cells of a 2 by 4 block. |
| Charsets.DotMask | src/bgrid.rs:19-28 | The corrected offset is below 256, and zero exactly when no cell is alive. |
| Charsets.DotMaskBits | src/bgrid.rs:19-28 | In the corrected offset, the bit Unicode assigns to cell `(x, y)` is that cell. |
| Charsets.BrailleChar | src/bgrid.rs:45 | A non-zero offset is a Braille pattern character `U+2801..U+28FF`. |
| Charsets.BlockGlyph | src/bgrid.rs:48-82 | Every non-empty quadrant pattern gets a character of the Block Elements range U+2580..U+259F, and only the empty one gets the background. |
| Charsets.Encode | src/bgrid.rs:37-98 | For every charset, a block without live cells encodes to the background. |
| Charsets.EncodeRoundTrip | src/bgrid.rs:37-98 | For every charset, the as-written glyph of a block with a live cell decodes back to the block, so no two non-empty blocks share a glyph. For Braille the decoding unpacks the offset column by column, the order `calc_braille_offset` packed it in. |
| Charsets.BrailleRoundTrip | src/bgrid.rs:39-48 | A Braille block with a live cell is recovered from its glyph `U+2800` plus the as-written offset. |
| Charsets.ColumnsRoundTrip | src/bgrid.rs:19-28 | Unpacking the as-written offset and transposing it back gives the block: the offset loses no cell. |
| Charsets.Decode | src/bgrid.rs:37-98 | Decoding yields nothing or a block of the charset's size. |
| Charsets.Shows | src/bgrid.rs:37-98 | What a glyph displays is its decoding for every charset but Braille, and is empty exactly when the decoding is. Braille's follows Unicode's dot numbering. |
| Charsets.EncodeShown | src/bgrid.rs:19-48 | The corrected encoder differs from `encode` only for Braille, and still gives the background for an empty block. |
| Charsets.ShownRoundTrip | src/bgrid.rs:19-48 | For every charset, the corrected encoder's glyph of a block with a live cell displays exactly that block. |
| Charsets.BlockRoundTrip | src/bgrid.rs:48-82 | The sixteen-way quadrant chain gives each non-empty 2 by 2 pattern its own glyph, recovered by decoding. |
| Charsets.BackgroundIffEmpty | src/bgrid.rs:37-98 | With a background no glyph decodes from, the glyph is the background exactly when the block is empty. |
| Charsets.EncodeIsInjective | src/bgrid.rs:37-98 | Two non-empty blocks with the same glyph are equal. |
| Charsets.BlockNeverBlank | src/bgrid.rs:48-82 | A non-empty quadrant block never encodes to a space. |
| Charsets.BlockExamples | src/bgrid.rs:235-251 | The quadrant glyphs the unit tests expect: `▘`, `▚`, `▜`, `▙`, `▟`, and blank for an empty block. |
| Charsets.BrailleExamples | src/bgrid.rs:325-333 | The Braille glyphs the unit tests expect: `⠁` for the top-left cell, and `⠃` with the cell below it, from both the as-written and the corrected encoder. |
| Charsets.TransposeExample | src/bgrid.rs:334-339 | The unit test's transpose of `[0, 0, 1, 1, 2, 2]` at 2 by 3 is `[0, 1, 2, 0, 1, 2]`. |
| Frames.Plan | src/bgrid.rs:131-147 | The picture is no larger than the view, and the offset is half the unused width and height. The adjusted `maxw` and `maxh` stay within the view. |
| Frames.PlanClips | src/bgrid.rs:132-133 | The picture is the largest number of whole blocks that both the view and the board hold, in each direction. |
| Frames.Gather | src/bgrid.rs:154-168 | Cell `(dx, dy)` of glyph `(x, y)`'s block is the board point `(x * sx + dx + view.x, y * sy + dy + view.y)`, masked by the bounds. |
| Frames.RowFrom | src/bgrid.rs:153 | The inner range lists `(x, y) .. (maxw - 1, y)` in order. |
| Frames.RowsFrom | src/bgrid.rs:149-153 | The `flat_map` lists the positions row by row: entry `k` is column `ox + k % cols` of row `y + k / cols`. |
| Frames.Positions | src/bgrid.rs:149-179 | The body has `cols * rows` glyphs. Glyph `k` is at `(ox + k % cols, oy + k / cols)`. |
| Frames.EdgeRun | src/bgrid.rs:180-191 | A border run holds two glyphs per step: one on each side, at the same place along the line. |
| Frames.Borders | src/bgrid.rs:180-197 | The border's length depends on which sides exist, and every border glyph lies on the picture's outline. |
| Frames.BordersPlaceGlyphs | src/bgrid.rs:180-197 | The border holds exactly the right glyphs. '│' fills both side columns strictly between the top and bottom rows when the picture is narrower than the view. '─' fills the top and bottom rows strictly between the side columns when it is shorter. Each corner character sits at its corner when it is both. |
| Frames.BordersAreBorderGlyphs | src/bgrid.rs:180-197 | Every border entry is one of those glyphs. |
| Frames.BorderGlyphsAreDrawn | src/bgrid.rs:180-197 | Every one of those glyphs is in the border. |
| Frames.EdgeRunCovers | src/bgrid.rs:181-190 | Each step of a side run puts its character on both sides. |
| Frames.Render | src/bgrid.rs:130-199 | `render` returns the body glyphs, glyph `k` at the `k`-th row-major position and encoding the block gathered there. They are followed by exactly the border. |
| Frames.FullViewHasNoBorder | src/bgrid.rs:180-197 | A picture that fills the view gets no border. |
| Frames.BodyIsCentred | src/bgrid.rs:134-137 | Body glyphs lie inside the view. The offset splits the unused space evenly, with the odd column or row going right or below. |
| Frames.SmallBoardPlan | src/bgrid.rs:224-234 | The 4 by 4 test board in a view of at least 2 by 2 is a 2 by 2 picture, centred. |
| Frames.SmallerBoardThanView | src/bgrid.rs:298-310 | The 4 by 4 board in a 10 by 10 view renders 12 entries, as the unit test expects. |
| Frames.ViewSmallerThanBoard | src/bgrid.rs:312-324 | The 10 by 10 board in a 2 by 2 view renders 4 entries, as the unit test expects. |
| Frames.TwoWidePositions | src/bgrid.rs:287-297 | An uncentred picture two glyphs wide starts with positions `(0, 0)`, `(1, 0)`, `(0, 1)`, `(1, 1)`. |
| Frames.BodyPositions | src/bgrid.rs:287-297 | The test's glyphs come in row-major order. |
| Frames.OriginBlock | src/bgrid.rs:235-251 | The first quadrant block at the origin is the four top-left cells in reading order. |
| Frames.FirstQuadrantGlyph | src/bgrid.rs:235-251 | The first glyph of the test frame encodes the top-left 2 by 2 cells. |
| Frames.FirstQuadrantGlyphIsDefined | src/bgrid.rs:252-278 | For each of the 16 cell subsets, the first glyph is a space exactly when the subset is empty, and otherwise decodes to the subset. |
| Frames.ViewBlock | src/bgrid.rs:154-160 | Cell `(dx, dy)` of the corrected block `(i, j)` is the board point `(view.x + i * sx + dx, view.y + j * sy + dy)`. |
| Frames.RenderCentred | src/bgrid.rs:149-199 | The corrected render has the same length as `render` and ends with exactly the same border. |
| Frames.CentredGlyphShowsViewBlock | src/bgrid.rs:149-179 | Corrected glyph `k` sits at `(ox + k % cols, oy + k / cols)` and shows block `(k % cols, k / cols)` of the view. |
| Frames.CentredAgreesWhenUncentred | src/bgrid.rs:149-179 | Without an offset, the corrected render equals `render`. So every unit test that reads glyphs holds of both. The one test with an offset (src/bgrid.rs:298-310) checks only the length, which both share. |
| Frames.UncentredBlock | src/bgrid.rs:154-168 | Without an offset, every cell `render` gathers lies inside the bounds, so its block is the view block. |
| FrameExamples.WidePlan | src/bgrid.rs:131-147 | A 6 by 2 board in a 5 by 1 view is a 3 by 1 quadrant picture at offset `(1, 0)`, with bounds from `(1, 0)` 7 wide and 2 high. |
| FrameExamples.LastGatheredBlock | src/bgrid.rs:154-168 | As written, the third glyph reads board columns 6 and 7, which wrap to 0 and 1. |
| FrameExamples.CentredPictureIsRotated | src/bgrid.rs:149-179 | With only `(0, 0)` alive, `render` leaves the first glyph blank and draws `▘` in the last. The corrected render draws `▘` first. |

## Left out

- `Point`'s `Display`, `Mask`'s `Display` and the panic messages: formatting only.
- `Board::pixels` and `pixels_mut` are not modelled. They are enumeration helpers that the core does not call. Their `x` is `i % height`, which is only right for square boards.
- `Board::new`, `width`, `Frame::new` and `render_box` are constructors and accessors. `render_box` is `render(' ', Block)`, which the examples use directly.
- The `Deref` / `DerefMut` of `Frame` forward to the board. The examples index `f.pts` directly.
- `src/main.rs`'s `main` only prints. `src/render/cursive.rs`, `src/args.rs` and `src/render/mod.rs` are not part of this model.
- `src/gol/mod.rs` imports rayon and `ChunksMut` but uses neither in the code shown. Its `height`, `alive` and layout are those of `src/gol.rs`, so `Gol.Board.Height` and `Gol.Alive` stand for both.
- `src/main.rs` names `gol::Board<bool>`, which neither board file defines. `run_turn` is modelled over the board of `src/gol.rs`.
- Integer widths: `u32` additions in `Mask::right` and `bottom`, `x * scalex + ox + view.x` in `render`, and the `i64` to `usize` cast in `pt_to_index` are unbounded. Overflow and wrap-around are not modelled.
- Gol.Remap: requires non-zero extents. The source panics on `%` by zero or loops forever; the model does not describe that.
- Gol.PtToIndex: requires a non-empty board (`Indexable`). The source panics indexing an empty board; that panic is a precondition here.
- Gol.Slice: the source returns `Result`, but never an error. The model returns the board. When the rectangle is not empty, it requires an indexable board, because indexing panics otherwise.
- LegacyGol.LegacyUpdate: requires `Reachable`. The source panics on an index outside the buffer; that panic is a precondition here.
- Life.Visit: leaves a board without cells unchanged instead of panicking. `run_turn` never visits a point of such a board.
- Charsets.Pack: models the `|` fold over distinct bit positions as a sum.
- Charsets.Encode: the `assert_eq!` on the block length is a precondition. The `unwrap` of `char::from_u32` cannot fail for offsets below 256 (`Charsets.BrailleChar`).
- Charsets.Decode: an inverse defined only for the model, to state the round trips; the source has none.
- Charsets.Shows: what a glyph displays on screen, defined only for the model from Unicode's dot numbering; the source has no decoder.

## Findings

| source | as written | input that shows it | evidently intended | confidence | as-written member | corrected member |
|---|---|---|---|---|---|---|
| src/bgrid.rs:19-28 | `calc_braille_offset` packs the transposed block, so bit `n` is cell `(n / 4, n % 4)` | a 2 by 4 block whose only live cell is bottom left: the offset is `0x08`, and U+2808 shows the top-right dot | bit `n` is the Unicode dot for the cell, so the bottom-left cell is bit 6 (dot 7) | not executed | Charsets.TransposedMaskMisplacesDots | Charsets.ShownRoundTrip |
| src/main.rs:20-21 | `y` runs over `0..width` and `x` over `0..height` | a board 2 wide and 3 high with only `(0, 2)` alive: the isolated cell survives `run_turn` | `y` over `0..height` and `x` over `0..width` | not executed | LifeExamples.IsolatedCellSurvivesInUnvisitedRow | Life.NextGeneration |
| src/main.rs:19-29 | each cell is assigned in place, so later cells see earlier cells' new values | a 3 by 3 board with the bottom row alive: `(1, 0)` has three live neighbours but stays dead | every cell computed from the same previous generation | not executed | LifeExamples.InPlaceSweepDiverges | Life.SnapshotCells |
| src/bgrid.rs:149-158 | the glyph at position `x` (which already includes the centring offset) samples cells from column `x * scalex` | a 6 by 2 board with only `(0, 0)` alive, in a 5 by 1 view, in quadrant blocks: the first glyph is blank and the last shows the live cell | the offset moves the glyphs, and glyph `(ox + i, oy + j)` shows block `(i, j)` of the view | not executed | FrameExamples.CentredPictureIsRotated | Frames.CentredGlyphShowsViewBlock |
