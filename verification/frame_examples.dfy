/** A centred picture on which `Frame::render` as written and the corrected render differ.

    The board is 6 by 2 with (0, 0) its only live cell; the view is 5 by 1 at the origin,
    drawn in quadrant blocks. The picture is three glyphs wide and is centred at column 1.
    As written, the glyph at column `x` shows the board cells from column `2 * x`, so the
    picture starts at board column 2 and wraps around: the live cell appears in the last
    glyph instead of the first.
 */
module FrameExamples {
  import opened Grid
  import opened Gol
  import opened Charsets
  import opened Frames

  /** The frame of the example, for any 6 by 2 board. */
  function Wide(b: Board): Frame
  {
    Frame(b, Mask(0, 0, 5, 1))
  }

  /** Its layout: 2 by 2 blocks, three columns and one row, offset (1, 0), and a bounds mask
      from (1, 0) that is 7 wide and 2 high. */
  lemma WidePlan(b: Board)
    requires b.width == 6 && |b.buf| == 12
    ensures Plan(Wide(b), Block) == Layout(2, 2, 3, 1, 1, 0, Mask(1, 0, 7, 2))
  {
    var l := Plan(Wide(b), Block);
    WidePlanCounts(b);
    PlanBounds(Wide(b), Block);
    assert l.bounds == Mask(1, 0, 7, 2);
  }

  /** The clipped picture of the example is three glyphs by one, offset by (1, 0). */
  lemma WidePlanCounts(b: Board)
    requires b.width == 6 && |b.buf| == 12
    ensures var l := Plan(Wide(b), Block); l.cols == 3 && l.rows == 1 && l.ox == 1 && l.oy == 0
  {
    assert b.Height() == 2;
  }

  /** Its glyph positions are (1, 0), (2, 0), (3, 0), and it has no border. */
  lemma WidePositions(b: Board)
    requires b.width == 6 && |b.buf| == 12
    ensures Positions(Wide(b), Block) == [Point(1, 0), Point(2, 0), Point(3, 0)]
    ensures |Borders(Plan(Wide(b), Block), Wide(b).view)| == 0
  {
    WidePlan(b);
    var ps := Positions(Wide(b), Block);
    assert |ps| == 3;
    assert ps[0] == Point(1, 0) && ps[1] == Point(2, 0) && ps[2] == Point(3, 0);
  }

  /** As written, the first glyph (column 1) reads board columns 2 and 3: all dead. */
  lemma FirstGatheredBlock(b: Board, l: Layout)
    requires b.width == 6 && |b.buf| == 12
    requires forall i | 0 <= i < 12 :: b.buf[i] == (i == 0)
    requires l == Layout(2, 2, 3, 1, 1, 0, Mask(1, 0, 7, 2))
    ensures Indexable(b) && Gather(Wide(b), l, 1, 0) == [false, false, false, false]
  {
    assert b.Height() == 2;
    var g := Gather(Wide(b), l, 1, 0);
    ReadAt(b, Point(2, 0), 2, 0);
    ReadAt(b, Point(3, 0), 3, 0);
    ReadAt(b, Point(2, 1), 2, 1);
    ReadAt(b, Point(3, 1), 3, 1);
    assert g[0] == Cell(g, 2, 2, 0, 0) && g[1] == Cell(g, 2, 2, 1, 0);
    assert g[2] == Cell(g, 2, 2, 0, 1) && g[3] == Cell(g, 2, 2, 1, 1);
  }

  /** As written, the last glyph (column 3) reads board columns 6 and 7, which wrap to 0 and
      1: the live cell is its top-left cell. */
  lemma LastGatheredBlock(b: Board, l: Layout)
    requires b.width == 6 && |b.buf| == 12
    requires forall i | 0 <= i < 12 :: b.buf[i] == (i == 0)
    requires l == Layout(2, 2, 3, 1, 1, 0, Mask(1, 0, 7, 2))
    ensures Indexable(b) && Gather(Wide(b), l, 3, 0) == [true, false, false, false]
  {
    assert b.Height() == 2;
    var g := Gather(Wide(b), l, 3, 0);
    ReadAt(b, Point(6, 0), 0, 0);
    ReadAt(b, Point(7, 0), 1, 0);
    ReadAt(b, Point(6, 1), 0, 1);
    ReadAt(b, Point(7, 1), 1, 1);
    assert g[0] == Cell(g, 2, 2, 0, 0) && g[1] == Cell(g, 2, 2, 1, 0);
    assert g[2] == Cell(g, 2, 2, 0, 1) && g[3] == Cell(g, 2, 2, 1, 1);
  }

  /** Corrected, the first glyph shows block (0, 0) of the view, board columns 0 and 1. */
  lemma FirstViewBlock(b: Board, l: Layout)
    requires b.width == 6 && |b.buf| == 12
    requires forall i | 0 <= i < 12 :: b.buf[i] == (i == 0)
    requires l == Layout(2, 2, 3, 1, 1, 0, Mask(1, 0, 7, 2))
    ensures Indexable(b) && ViewBlock(Wide(b), l, 0, 0) == [true, false, false, false]
  {
    assert b.Height() == 2;
    var g := ViewBlock(Wide(b), l, 0, 0);
    ReadAt(b, Point(0, 0), 0, 0);
    ReadAt(b, Point(1, 0), 1, 0);
    ReadAt(b, Point(0, 1), 0, 1);
    ReadAt(b, Point(1, 1), 1, 1);
    assert g[0] == Cell(g, 2, 2, 0, 0) && g[1] == Cell(g, 2, 2, 1, 0);
    assert g[2] == Cell(g, 2, 2, 0, 1) && g[3] == Cell(g, 2, 2, 1, 1);
  }

  /** `render` draws the live cell at the right end of the picture, in its third glyph, and
      leaves the first glyph blank; the corrected render draws it in the first glyph. */
  lemma CentredPictureIsRotated(b: Board)
    requires b.width == 6 && |b.buf| == 12
    requires forall i | 0 <= i < 12 :: b.buf[i] == (i == 0)
    ensures var r, c := Render(Wide(b), ' ', Block), RenderCentred(Wide(b), ' ', Block);
      && |r| == 3 && |c| == 3
      && r[0] == Glyph(Point(1, 0), ' ') && r[2] == Glyph(Point(3, 0), '\U{2598}')
      && c[0] == Glyph(Point(1, 0), '\U{2598}')
  {
    var l := Plan(Wide(b), Block);
    WidePlan(b);
    WidePositions(b);
    FirstGatheredBlock(b, l);
    LastGatheredBlock(b, l);
    FirstViewBlock(b, l);
    CentredGlyphShowsViewBlock(Wide(b), ' ', Block, 0);
  }
}
