/** `Frame::render` of `src/bgrid.rs`: a board seen through a view rectangle, drawn as a
    list of positioned glyphs.

    The view is clipped to the whole blocks the board holds, the clipped picture is
    centred in the view, each block of cells is encoded as one glyph (cells outside the
    bounds rectangle read as dead), and when the picture is smaller than the view it gets a
    border of line-drawing characters.
 */
module Frames {
  import opened Grid
  import opened Gol
  import opened Charsets

  datatype Frame = Frame(pts: Board, view: Mask)

  /** One entry of the rendered list: a character at a position of the view. */
  datatype Glyph = Glyph(pos: Point, ch: char)

  /** The quantities `render` computes before it draws: the block size, the number of
      glyph columns and rows (`maxw`, `maxh`), the centring offset and the bounds mask. */
  datatype Layout = Layout(sx: nat, sy: nat, cols: nat, rows: nat, ox: nat, oy: nat, bounds: Mask) {

    /** The adjusted `maxw`: one past the last glyph column. */
    function Right(): nat
    {
      ox + cols
    }

    /** The adjusted `maxh`: one past the last glyph row. */
    function Bottom(): nat
    {
      oy + rows
    }
  }

  /** Floor division brackets its dividend. */
  lemma FloorDiv(a: nat, d: nat)
    requires d > 0
    ensures (a / d) * d <= a < (a / d + 1) * d
  {
    var q, r := a / d, a % d;
    assert a == q * d + r && 0 <= r < d;
    assert (q + 1) * d == q * d + d;
  }

  /** The layout of `render`: as many whole blocks as both the view and the board hold
      (see `PlanClips`), centred in the view. */
  function Plan(f: Frame, cs: Charset): (l: Layout)
    requires f.pts.width > 0
    ensures (l.sx, l.sy) == cs.Scale()
    ensures l.cols <= f.view.w && l.rows <= f.view.h
    ensures l.ox == (f.view.w - l.cols) / 2 && l.oy == (f.view.h - l.rows) / 2
    ensures l.Right() <= f.view.w && l.Bottom() <= f.view.h
  {
    var (sx, sy) := cs.Scale();
    var rows := Min(f.view.h, f.pts.Height() / sy);
    var cols := Min(f.view.w, f.pts.width / sx);
    var ox := AbsDiff(f.view.w, cols) / 2;
    var oy := AbsDiff(f.view.h, rows) / 2;
    Layout(sx, sy, cols, rows, ox, oy, Mask(ox + f.view.x, oy + f.view.y, ox + cols * sx, oy + rows * sy))
  }

  /** The clipping of `render`: the picture is the largest number of whole blocks that both
      the view and the board hold, in each direction. */
  lemma PlanClips(f: Frame, cs: Charset)
    requires f.pts.width > 0
    ensures var l := Plan(f, cs);
      && l.cols * l.sx <= f.pts.width && (l.cols == f.view.w || f.pts.width < (l.cols + 1) * l.sx)
      && l.rows * l.sy <= f.pts.Height() && (l.rows == f.view.h || f.pts.Height() < (l.rows + 1) * l.sy)
  {
    var l := Plan(f, cs);
    FloorDiv(f.pts.Height(), l.sy);
    FloorDiv(f.pts.width, l.sx);
    MulMonotone(l.cols, f.pts.width / l.sx, l.sx);
    MulMonotone(l.rows, f.pts.Height() / l.sy, l.sy);
  }

  /** The bounds mask: origin at the view's origin shifted by the centring offset, extent the
      offset plus the clipped picture's size in cells. */
  lemma PlanBounds(f: Frame, cs: Charset)
    requires f.pts.width > 0
    ensures var l := Plan(f, cs);
      l.bounds == Mask(l.ox + f.view.x, l.oy + f.view.y, l.ox + l.cols * l.sx, l.oy + l.rows * l.sy)
  {
  }

  /** Multiplying by a natural keeps the order. */
  lemma MulMonotone(a: nat, b: nat, c: nat)
    requires a <= b
    ensures a * c <= b * c
  {
    assert b * c == a * c + (b - a) * c;
  }

  /** Cell `d` of block `i` lies before the end of `n` blocks of `s` cells. */
  lemma OffsetInRange(i: nat, n: nat, s: nat, d: nat)
    requires i < n && d < s
    ensures i * s + d < n * s
  {
    MulMonotone(i + 1, n, s);
  }

  /** The board point read for cell (dx, dy) of the block drawn at glyph (x, y). */
  function BlockPoint(f: Frame, l: Layout, x: int, y: int, dx: nat, dy: nat): (p: Point)
  {
    Point(x * l.sx + dx + f.view.x, y * l.sy + dy + f.view.y)
  }

  /** One cell as `render` samples it: dead outside the bounds mask, the board's cell inside. */
  function Sample(f: Frame, l: Layout, p: Point): (v: bool)
    requires Indexable(f.pts)
    ensures v <==> l.bounds.Contains(p) && At(f.pts, p)
  {
    if !l.bounds.Contains(p) then false else At(f.pts, p)
  }

  /** The block behind glyph (x, y), row-major and `sx` cells wide. */
  function Gather(f: Frame, l: Layout, x: int, y: int): (r: seq<bool>)
    requires Indexable(f.pts)
    ensures |r| == l.sx * l.sy
    ensures forall dx: nat, dy: nat | dx < l.sx && dy < l.sy ::
      Cell(r, l.sx, l.sy, dx, dy) == (l.bounds.Contains(BlockPoint(f, l, x, y, dx, dy)) && At(f.pts, BlockPoint(f, l, x, y, dx, dy)))
  {
    var r := seq(l.sx * l.sy, k requires 0 <= k < l.sx * l.sy =>
      Decompose(k, l.sx, l.sy);
      Sample(f, l, BlockPoint(f, l, x, y, k % l.sx, k / l.sx)));
    forall dx: nat, dy: nat | dx < l.sx && dy < l.sy
      ensures Cell(r, l.sx, l.sy, dx, dy) == Sample(f, l, BlockPoint(f, l, x, y, dx, dy))
    {
      IndexBound(dx, dy, l.sx, l.sy);
      DivMod(dx, dy, l.sx);
    }
    r
  }

  /** The inner range `offset.x..maxw` at row `y`: the positions from column `x` to the
      right edge. */
  function RowFrom(l: Layout, x: nat, y: nat): (r: seq<Point>)
    requires x <= l.Right()
    ensures |r| == l.Right() - x
    ensures forall i | 0 <= i < |r| :: r[i] == Point(x + i, y)
    decreases l.Right() - x
  {
    if x == l.Right() then [] else [Point(x, y)] + RowFrom(l, x + 1, y)
  }

  /** The outer `(offset.y..maxh).flat_map(..)`: the positions of whole rows from `y` to the
      bottom edge, entry `k` being column `k % cols` of row `k / cols`. */
  function RowsFrom(l: Layout, y: nat): (r: seq<Point>)
    requires l.oy <= y <= l.Bottom()
    ensures |r| == l.cols * (l.Bottom() - y)
    ensures forall k | 0 <= k < |r| :: r[k] == Point(l.ox + k % l.cols, y + k / l.cols)
    decreases l.Bottom() - y
  {
    if y == l.Bottom() then
      []
    else
      var row := RowFrom(l, l.ox, y);
      var rest := RowsFrom(l, y + 1);
      RowsStack(row, rest, l.cols, l.Bottom() - y);
      row + rest
  }

  /** Stacking a row of `w` entries on `n - 1` rows gives `n` rows: entry `k` of the stack is
      column `k % w` of row `k / w`. */
  lemma RowsStack<T>(row: seq<T>, rest: seq<T>, w: nat, n: nat)
    requires n > 0 && |row| == w && |rest| == w * (n - 1)
    ensures |row + rest| == w * n
    ensures forall k | 0 <= k < w :: k % w == k && k / w == 0
    ensures forall k | w <= k < |row + rest| :: (k - w) % w == k % w && (k - w) / w + 1 == k / w
  {
    assert w * n == w + w * (n - 1);
    forall k | w <= k < |row + rest|
      ensures (k - w) % w == k % w && (k - w) / w + 1 == k / w
    {
      var q, r := (k - w) / w, (k - w) % w;
      DivUnique(k, w, q + 1, r);
    }
    forall k | 0 <= k < w
      ensures k % w == k && k / w == 0
    {
      DivUnique(k, w, 0, k);
    }
  }

  /** The body of the picture: the glyph of the block behind each position of `ps`. */
  function Body(f: Frame, cs: Charset, bg: char, l: Layout, ps: seq<Point>): (r: seq<Glyph>)
    requires (l.sx, l.sy) == cs.Scale() && (|ps| > 0 ==> Indexable(f.pts))
    ensures |r| == |ps|
    ensures forall k | 0 <= k < |r| :: r[k].pos == ps[k] && r[k].ch == Encode(cs, bg, Gather(f, l, ps[k].x, ps[k].y))
  {
    seq(|ps|, k requires 0 <= k < |ps| => Glyph(ps[k], Encode(cs, bg, Gather(f, l, ps[k].x, ps[k].y))))
  }

  /** The point at position `t` along a border line at offset `a` across it. */
  function EdgePoint(vertical: bool, t: nat, a: nat): (p: Point)
  {
    if vertical then Point(a, t) else Point(t, a)
  }

  /** One border side pair: for each `t` from `t` up to `end`, the glyph `ch` at offset `a`
      and at offset `b` across the line. */
  function EdgeRun(vertical: bool, t: nat, end: nat, a: nat, b: nat, ch: char): (r: seq<Glyph>)
    ensures |r| == if t <= end then 2 * (end - t) else 0
    ensures forall k | 0 <= k < |r| ::
      r[k] == Glyph(EdgePoint(vertical, t + k / 2, if k % 2 == 0 then a else b), ch)
    decreases end - t
  {
    if t >= end then
      []
    else
      var rest := EdgeRun(vertical, t + 1, end, a, b, ch);
      var pair := [Glyph(EdgePoint(vertical, t, a), ch), Glyph(EdgePoint(vertical, t, b), ch)];
      assert forall k | 2 <= k < 2 + |rest| :: (k - 2) / 2 == k / 2 - 1 && (k - 2) % 2 == k % 2;
      pair + rest
  }

  /** The side borders, present only when the picture is narrower than the view. */
  function SideBorders(l: Layout, view: Mask): seq<Glyph>
  {
    if l.Right() < view.w then EdgeRun(true, l.oy + 1, l.Bottom(), l.ox, l.Right(), '\U{2502}') else []
  }

  /** The top and bottom borders, present only when the picture is shorter than the view. */
  function TopBottomBorders(l: Layout, view: Mask): seq<Glyph>
  {
    if l.Bottom() < view.h then EdgeRun(false, l.ox + 1, l.Right(), l.oy, l.Bottom(), '\U{2500}') else []
  }

  /** The four corners, present only when the picture is both narrower and shorter. */
  function Corners(l: Layout, view: Mask): seq<Glyph>
  {
    if l.Bottom() < view.h && l.Right() < view.w then
      [ Glyph(Point(l.ox, l.oy), '\U{250C}'), Glyph(Point(l.ox, l.Bottom()), '\U{2514}'),
        Glyph(Point(l.Right(), l.oy), '\U{2510}'), Glyph(Point(l.Right(), l.Bottom()), '\U{2518}') ]
    else
      []
  }

  /** Number of entries `n` pairs of border glyphs along `n + 1` glyphs of picture take. */
  function EdgeCount(extent: nat): nat
  {
    if extent == 0 then 0 else 2 * (extent - 1)
  }

  /** All border glyphs: sides, then top and bottom, then the corners. */
  function Borders(l: Layout, view: Mask): (r: seq<Glyph>)
    ensures |r| == (if l.Right() < view.w then EdgeCount(l.rows) else 0)
                 + (if l.Bottom() < view.h then EdgeCount(l.cols) else 0)
                 + (if l.Bottom() < view.h && l.Right() < view.w then 4 else 0)
    ensures forall k | 0 <= k < |r| :: OnOutline(l, r[k])
  {
    SideBorders(l, view) + TopBottomBorders(l, view) + Corners(l, view)
  }

  /** Where `render` puts a border character: '│' in both side columns, strictly between
      the top and bottom rows, when the picture is narrower than the view; '─' in the top
      and bottom rows, strictly between the side columns, when it is shorter; and each
      corner at its own corner when it is both. */
  predicate BorderGlyph(l: Layout, view: Mask, g: Glyph)
  {
    || (&& g.ch == '\U{2502}' && l.Right() < view.w
        && (g.pos.x == l.ox || g.pos.x == l.Right()) && l.oy < g.pos.y < l.Bottom())
    || (&& g.ch == '\U{2500}' && l.Bottom() < view.h
        && (g.pos.y == l.oy || g.pos.y == l.Bottom()) && l.ox < g.pos.x < l.Right())
    || (&& l.Bottom() < view.h && l.Right() < view.w
        && g in {Glyph(Point(l.ox, l.oy), '\U{250C}'), Glyph(Point(l.ox, l.Bottom()), '\U{2514}'),
                 Glyph(Point(l.Right(), l.oy), '\U{2510}'), Glyph(Point(l.Right(), l.Bottom()), '\U{2518}')})
  }

  /** The border holds exactly the border glyphs: each entry is one, and each one is an
      entry. */
  lemma BordersPlaceGlyphs(l: Layout, view: Mask)
    ensures forall k | 0 <= k < |Borders(l, view)| :: BorderGlyph(l, view, Borders(l, view)[k])
    ensures forall g | BorderGlyph(l, view, g) :: g in Borders(l, view)
  {
    BordersAreBorderGlyphs(l, view);
    BorderGlyphsAreDrawn(l, view);
  }

  /** Each entry of the border is a border glyph. */
  lemma BordersAreBorderGlyphs(l: Layout, view: Mask)
    ensures forall k | 0 <= k < |Borders(l, view)| :: BorderGlyph(l, view, Borders(l, view)[k])
  {
    var side, flat, corners := SideBorders(l, view), TopBottomBorders(l, view), Corners(l, view);
    var r := Borders(l, view);
    assert r == side + flat + corners;
    forall k | 0 <= k < |r|
      ensures BorderGlyph(l, view, r[k])
    {
      if k < |side| {
        assert r[k] == side[k];
      } else if k < |side| + |flat| {
        assert r[k] == flat[k - |side|];
      } else {
        assert r[k] == corners[k - |side| - |flat|];
      }
    }
  }

  /** Each border glyph is an entry of the border. */
  lemma BorderGlyphsAreDrawn(l: Layout, view: Mask)
    ensures forall g | BorderGlyph(l, view, g) :: g in Borders(l, view)
  {
    var side, flat, corners := SideBorders(l, view), TopBottomBorders(l, view), Corners(l, view);
    var r := Borders(l, view);
    assert r == side + flat + corners;
    forall g | BorderGlyph(l, view, g)
      ensures g in r
    {
      if g.ch == '\U{2502}' && l.Right() < view.w && (g.pos.x == l.ox || g.pos.x == l.Right()) && l.oy < g.pos.y < l.Bottom() {
        EdgeRunCovers(true, l.oy + 1, l.Bottom(), l.ox, l.Right(), '\U{2502}', g.pos.y);
        assert g in side;
      } else if g.ch == '\U{2500}' && l.Bottom() < view.h && (g.pos.y == l.oy || g.pos.y == l.Bottom()) && l.ox < g.pos.x < l.Right() {
        EdgeRunCovers(false, l.ox + 1, l.Right(), l.oy, l.Bottom(), '\U{2500}', g.pos.x);
        assert g in flat;
      } else {
        assert g in corners;
      }
    }
  }

  /** Every step `s` of a border run has its glyph on both sides. */
  lemma EdgeRunCovers(vertical: bool, t: nat, end: nat, a: nat, b: nat, ch: char, s: nat)
    requires t <= s < end
    ensures Glyph(EdgePoint(vertical, s, a), ch) in EdgeRun(vertical, t, end, a, b, ch)
    ensures Glyph(EdgePoint(vertical, s, b), ch) in EdgeRun(vertical, t, end, a, b, ch)
  {
    var r := EdgeRun(vertical, t, end, a, b, ch);
    var k := 2 * (s - t);
    assert k / 2 == s - t && k % 2 == 0 && (k + 1) / 2 == s - t && (k + 1) % 2 == 1;
    assert r[k] == Glyph(EdgePoint(vertical, s, a), ch);
    assert r[k + 1] == Glyph(EdgePoint(vertical, s, b), ch);
  }

  /** Appending keeps the outline entries on the outline. */
  lemma BodyThenBorder(body: seq<Glyph>, border: seq<Glyph>, l: Layout)
    requires forall k | 0 <= k < |border| :: OnOutline(l, border[k])
    ensures forall k | |body| <= k < |body + border| :: OnOutline(l, (body + border)[k])
    ensures forall k | 0 <= k < |body| :: (body + border)[k] == body[k]
  {
  }

  /** A border glyph: a line-drawing character on the rectangle around the picture. */
  predicate OnOutline(l: Layout, g: Glyph)
  {
    && g.ch in {'\U{2502}', '\U{2500}', '\U{250C}', '\U{2514}', '\U{2510}', '\U{2518}'}
    && l.ox <= g.pos.x <= l.Right() && l.oy <= g.pos.y <= l.Bottom()
    && (g.pos.x == l.ox || g.pos.x == l.Right() || g.pos.y == l.oy || g.pos.y == l.Bottom())
  }

  /** The positions of the body glyphs of `render`, row by row. */
  function Positions(f: Frame, cs: Charset): (ps: seq<Point>)
    requires f.pts.width > 0
    ensures |ps| == Plan(f, cs).cols * Plan(f, cs).rows
    ensures forall k | 0 <= k < |ps| :: ps[k] == Point(Plan(f, cs).ox + k % Plan(f, cs).cols, Plan(f, cs).oy + k / Plan(f, cs).cols)
  {
    RowsFrom(Plan(f, cs), Plan(f, cs).oy)
  }

  /** `Frame::render`: the body glyphs in row-major order, followed by the border. */
  function Render(f: Frame, bg: char, cs: Charset): (r: seq<Glyph>)
    requires f.pts.Valid()
    ensures |Positions(f, cs)| <= |r| && |r| == |Positions(f, cs)| + |Borders(Plan(f, cs), f.view)|
    ensures |Positions(f, cs)| > 0 ==> Indexable(f.pts)
    ensures forall k | 0 <= k < |Positions(f, cs)| :: r[k].pos == Positions(f, cs)[k]
    ensures forall k | 0 <= k < |Positions(f, cs)| ::
      Indexable(f.pts) && r[k].ch == Encode(cs, bg, Gather(f, Plan(f, cs), r[k].pos.x, r[k].pos.y))
    ensures forall k | |Positions(f, cs)| <= k < |r| :: OnOutline(Plan(f, cs), r[k])
    ensures r[|Positions(f, cs)|..] == Borders(Plan(f, cs), f.view)
  {
    var l := Plan(f, cs);
    var ps := Positions(f, cs);
    assert |ps| > 0 ==> Indexable(f.pts) by {
      if |ps| > 0 {
        PlanClips(f, cs);
        MulAtLeast(l.rows, l.sy);
      }
    }
    var body := Body(f, cs, bg, l, ps);
    var border := Borders(l, f.view);
    BodyThenBorder(body, border, l);
    body + border
  }
  /** The block of the view behind glyph column `i`, row `j` of the picture, counted from
      the picture's top-left glyph: cell (dx, dy) is the board point
      `(view.x + i * sx + dx, view.y + j * sy + dy)`. */
  function ViewBlock(f: Frame, l: Layout, i: int, j: int): (r: seq<bool>)
    requires Indexable(f.pts)
    ensures |r| == l.sx * l.sy
    ensures forall dx: nat, dy: nat | dx < l.sx && dy < l.sy ::
      Cell(r, l.sx, l.sy, dx, dy) == At(f.pts, Point(f.view.x + i * l.sx + dx, f.view.y + j * l.sy + dy))
  {
    var r := seq(l.sx * l.sy, k requires 0 <= k < l.sx * l.sy =>
      Decompose(k, l.sx, l.sy);
      At(f.pts, Point(f.view.x + i * l.sx + k % l.sx, f.view.y + j * l.sy + k / l.sx)));
    forall dx: nat, dy: nat | dx < l.sx && dy < l.sy
      ensures Cell(r, l.sx, l.sy, dx, dy) == At(f.pts, Point(f.view.x + i * l.sx + dx, f.view.y + j * l.sy + dy))
    {
      IndexBound(dx, dy, l.sx, l.sy);
      DivMod(dx, dy, l.sx);
    }
    r
  }

  /** The corrected glyph at `p`: the view block under `p` once the offset is taken off. */
  function CentredGlyph(f: Frame, cs: Charset, bg: char, l: Layout, p: Point): Glyph
    requires (l.sx, l.sy) == cs.Scale() && Indexable(f.pts)
  {
    Glyph(p, Encode(cs, bg, ViewBlock(f, l, p.x - l.ox, p.y - l.oy)))
  }

  /** The body of the corrected picture: the glyph at each position of `ps` shows the
      view's block at that position less the centring offset. */
  function CentredBody(f: Frame, cs: Charset, bg: char, l: Layout, ps: seq<Point>): (r: seq<Glyph>)
    requires (l.sx, l.sy) == cs.Scale() && (|ps| > 0 ==> Indexable(f.pts))
    ensures |r| == |ps|
    ensures forall k | 0 <= k < |r| :: r[k] == CentredGlyph(f, cs, bg, l, ps[k])
  {
    seq(|ps|, k requires 0 <= k < |ps| => CentredGlyph(f, cs, bg, l, ps[k]))
  }

  /** `Frame::render` with the sampling the centring evidently intends: the offset moves
      the glyphs, not the cells they show (see `CentredGlyphShowsViewBlock`). The border is
      the same as `Render`'s. */
  function RenderCentred(f: Frame, bg: char, cs: Charset): (r: seq<Glyph>)
    requires f.pts.Valid()
    ensures |r| == |Positions(f, cs)| + |Borders(Plan(f, cs), f.view)|
    ensures |Positions(f, cs)| > 0 ==> Indexable(f.pts)
    ensures forall k | |Positions(f, cs)| <= k < |r| :: OnOutline(Plan(f, cs), r[k])
    ensures r[|Positions(f, cs)|..] == Borders(Plan(f, cs), f.view)
  {
    var l := Plan(f, cs);
    var ps := Positions(f, cs);
    assert |ps| > 0 ==> Indexable(f.pts) by {
      if |ps| > 0 {
        PlanClips(f, cs);
        MulAtLeast(l.rows, l.sy);
      }
    }
    var body := CentredBody(f, cs, bg, l, ps);
    var border := Borders(l, f.view);
    BodyThenBorder(body, border, l);
    body + border
  }

  /** The `k`-th body glyph of the corrected picture sits at column `k % cols`, row
      `k / cols` of the picture and shows that block of the view. */
  lemma CentredGlyphShowsViewBlock(f: Frame, bg: char, cs: Charset, k: nat)
    requires f.pts.Valid() && k < |Positions(f, cs)|
    ensures var l := Plan(f, cs); var r := RenderCentred(f, bg, cs);
      && Indexable(f.pts) && k < |r|
      && r[k].pos == Point(l.ox + k % l.cols, l.oy + k / l.cols)
      && r[k].ch == Encode(cs, bg, ViewBlock(f, l, k % l.cols, k / l.cols))
  {
    var l, ps := Plan(f, cs), Positions(f, cs);
    var r := RenderCentred(f, bg, cs);
    assert Indexable(f.pts) && (l.sx, l.sy) == cs.Scale() && l.sx * l.sy == cs.Cells() && k < |r| && l.cols > 0 by {
      RenderCentredStartsWithBody(f, bg, cs, k);
    }
    assert r[k] == CentredBody(f, cs, bg, l, ps)[k] by {
      RenderCentredStartsWithBody(f, bg, cs, k);
    }
    var i, j := k % l.cols, k / l.cols;
    assert r[k].pos == Point(l.ox + i, l.oy + j) && r[k].ch == Encode(cs, bg, ViewBlock(f, l, i, j)) by {
      CentredBodyAt(f, cs, bg, l, ps, k);
    }
  }

  /** The first glyphs of the corrected picture are its body. */
  lemma RenderCentredStartsWithBody(f: Frame, bg: char, cs: Charset, k: nat)
    requires f.pts.Valid() && k < |Positions(f, cs)|
    ensures Indexable(f.pts) && (Plan(f, cs).sx, Plan(f, cs).sy) == cs.Scale()
    ensures RenderCentred(f, bg, cs)[k] == CentredBody(f, cs, bg, Plan(f, cs), Positions(f, cs))[k]
  {
  }

  /** A body glyph whose position is column `k % cols`, row `k / cols` of the picture, offset
      by the centring, shows that block of the view. */
  lemma CentredBodyAt(f: Frame, cs: Charset, bg: char, l: Layout, ps: seq<Point>, k: nat)
    requires (l.sx, l.sy) == cs.Scale() && Indexable(f.pts) && k < |ps| && l.cols > 0
    requires ps[k] == Point(l.ox + k % l.cols, l.oy + k / l.cols)
    ensures var r := CentredBody(f, cs, bg, l, ps);
      && r[k].pos == ps[k] && r[k].ch == Encode(cs, bg, ViewBlock(f, l, k % l.cols, k / l.cols))
  {
    var r := CentredBody(f, cs, bg, l, ps);
    var i, j := k % l.cols, k / l.cols;
    assert ps[k].x - l.ox == i && ps[k].y - l.oy == j;
    assert r[k] == Glyph(ps[k], Encode(cs, bg, ViewBlock(f, l, ps[k].x - l.ox, ps[k].y - l.oy)));
  }

  /** Without a centring offset the corrected picture is the picture `render` draws. So the
      unit tests that read glyphs, whose views leave no offset, hold of both; the one unit
      test with an offset (a 4 by 4 board in a 10 by 10 view) checks only the length, which
      the two pictures share. */
  lemma CentredAgreesWhenUncentred(f: Frame, bg: char, cs: Charset)
    requires f.pts.Valid() && Plan(f, cs).ox == 0 && Plan(f, cs).oy == 0
    ensures RenderCentred(f, bg, cs) == Render(f, bg, cs)
  {
    var l := Plan(f, cs);
    var ps := Positions(f, cs);
    PlanBounds(f, cs);
    forall k | 0 <= k < |ps|
      ensures 0 <= ps[k].x < l.cols && 0 <= ps[k].y < l.rows
    {
      Decompose(k, l.cols, l.rows);
    }
    if |ps| > 0 {
      BodiesAgree(f, cs, bg, l, ps);
    }
  }

  /** With the picture at the view's corner, `render`'s body and the corrected body agree
      on every position inside the picture. */
  lemma BodiesAgree(f: Frame, cs: Charset, bg: char, l: Layout, ps: seq<Point>)
    requires (l.sx, l.sy) == cs.Scale() && Indexable(f.pts) && l.ox == 0 && l.oy == 0
    requires l.bounds == Mask(f.view.x, f.view.y, l.cols * l.sx, l.rows * l.sy)
    requires forall k | 0 <= k < |ps| :: 0 <= ps[k].x < l.cols && 0 <= ps[k].y < l.rows
    ensures Body(f, cs, bg, l, ps) == CentredBody(f, cs, bg, l, ps)
  {
    forall k | 0 <= k < |ps|
      ensures Body(f, cs, bg, l, ps)[k] == CentredBody(f, cs, bg, l, ps)[k]
    {
      UncentredBlock(f, l, ps[k].x, ps[k].y);
    }
  }

  /** With the picture at the view's corner, the block `render` gathers for glyph (i, j)
      is block (i, j) of the view: every cell it reads lies inside the bounds mask. */
  lemma UncentredBlock(f: Frame, l: Layout, i: nat, j: nat)
    requires Indexable(f.pts) && l.ox == 0 && l.oy == 0 && i < l.cols && j < l.rows
    requires l.bounds == Mask(f.view.x, f.view.y, l.cols * l.sx, l.rows * l.sy)
    ensures Gather(f, l, i, j) == ViewBlock(f, l, i, j)
  {
    forall dx: nat, dy: nat | dx < l.sx && dy < l.sy
      ensures Cell(Gather(f, l, i, j), l.sx, l.sy, dx, dy) == Cell(ViewBlock(f, l, i, j), l.sx, l.sy, dx, dy)
    {
      assert l.bounds.Contains(BlockPoint(f, l, i, j, dx, dy)) by {
        OffsetInRange(i, l.cols, l.sx, dx);
        OffsetInRange(j, l.rows, l.sy, dy);
      }
    }
    CellsDetermine(Gather(f, l, i, j), ViewBlock(f, l, i, j), l.sx, l.sy);
  }

  /** A picture that fills the view in both directions gets no border. */
  lemma FullViewHasNoBorder(f: Frame, bg: char, cs: Charset)
    requires f.pts.Valid()
    requires Plan(f, cs).cols == f.view.w && Plan(f, cs).rows == f.view.h
    ensures |Render(f, bg, cs)| == f.view.w * f.view.h
  {
  }

  /** Every body glyph lies inside the view, in the picture shifted by the centring offset,
      and the offset splits the unused width and height evenly (the extra column or row, if
      any, goes right or below). */
  lemma BodyIsCentred(f: Frame, cs: Charset, k: nat)
    requires f.pts.width > 0 && k < |Positions(f, cs)|
    ensures var l := Plan(f, cs); var p := Positions(f, cs)[k];
      && l.ox <= p.x < l.ox + l.cols <= f.view.w
      && l.oy <= p.y < l.oy + l.rows <= f.view.h
      && l.ox + l.ox <= f.view.w - l.cols <= l.ox + l.ox + 1
      && l.oy + l.oy <= f.view.h - l.rows <= l.oy + l.oy + 1
  {
    var l := Plan(f, cs);
    Decompose(k, l.cols, l.rows);
  }

  /** The layout of a 4 by 4 board drawn in quadrant blocks in a view at the origin. */
  lemma SmallBoardPlan(b: Board, w: nat, h: nat)
    requires b.width == 4 && |b.buf| == 16 && w >= 2 && h >= 2
    ensures var l := Plan(Frame(b, Mask(0, 0, w, h)), Block);
      && l.cols == 2 && l.rows == 2 && l.ox == (w - 2) / 2 && l.oy == (h - 2) / 2
      && l.bounds == Mask(l.ox, l.oy, l.ox + 4, l.oy + 4)
  {
    assert b.Height() == 4;
    PlanBounds(Frame(b, Mask(0, 0, w, h)), Block);
  }

  /** A 4 by 4 board in a 10 by 10 view, drawn in quadrant blocks: a 2 by 2 picture centred
      at offset (4, 4), with two side glyphs, two top and bottom glyphs and four corners. */
  lemma SmallerBoardThanView(b: Board)
    requires b.width == 4 && |b.buf| == 16
    ensures |Render(Frame(b, Mask(0, 0, 10, 10)), ' ', Block)| == 12
  {
    SmallBoardPlan(b, 10, 10);
  }

  /** A 10 by 10 board in a 2 by 2 view: the view is the limit, four glyphs and no border. */
  lemma ViewSmallerThanBoard(b: Board)
    requires b.width == 10 && |b.buf| == 100
    ensures |Render(Frame(b, Mask(0, 0, 2, 2)), ' ', Block)| == 4
  {
    assert b.Height() == 10;
  }

  /** A picture two glyphs wide at the view's corner starts with the positions (0, 0),
      (1, 0), (0, 1), (1, 1). */
  lemma TwoWidePositions(f: Frame, cs: Charset)
    requires f.pts.width > 0
    requires Plan(f, cs).cols == 2 && Plan(f, cs).rows >= 2 && Plan(f, cs).ox == 0 && Plan(f, cs).oy == 0
    ensures var ps := Positions(f, cs);
      && |ps| >= 4
      && ps[0] == Point(0, 0) && ps[1] == Point(1, 0) && ps[2] == Point(0, 1) && ps[3] == Point(1, 1)
  {
    var ps := Positions(f, cs);
    assert |ps| == 2 * Plan(f, cs).rows;
    DivMod(0, 1, 2);
    DivMod(1, 1, 2);
  }

  /** A 4 by 4 board in a 2 by 2 view: the glyphs come in row-major order. */
  lemma BodyPositions(b: Board)
    requires b.width == 4 && |b.buf| == 16
    ensures var r := Render(Frame(b, Mask(0, 0, 2, 2)), ' ', Block);
      && |r| >= 4
      && r[0].pos == Point(0, 0) && r[1].pos == Point(1, 0)
      && r[2].pos == Point(0, 1) && r[3].pos == Point(1, 1)
  {
    SmallBoardPlan(b, 2, 2);
    TwoWidePositions(Frame(b, Mask(0, 0, 2, 2)), Block);
  }

  /** In quadrant blocks, with the view and the centring offset at the origin and the
      bounds covering the first block, the first block is the top-left 2 by 2 cells. */
  lemma OriginBlock(f: Frame, l: Layout)
    requires Indexable(f.pts) && l.sx == 2 && l.sy == 2 && f.view.x == 0 && f.view.y == 0
    requires l.bounds.Contains(Point(0, 0)) && l.bounds.Contains(Point(1, 1))
    ensures Gather(f, l, 0, 0) == [At(f.pts, Point(0, 0)), At(f.pts, Point(1, 0)), At(f.pts, Point(0, 1)), At(f.pts, Point(1, 1))]
  {
    var g := Gather(f, l, 0, 0);
    assert g[0] == Cell(g, 2, 2, 0, 0) && g[1] == Cell(g, 2, 2, 1, 0);
    assert g[2] == Cell(g, 2, 2, 0, 1) && g[3] == Cell(g, 2, 2, 1, 1);
  }

  /** On that board, in a 2 by 2 view, the first glyph encodes the top-left 2 by 2 cells. */
  lemma FirstQuadrantGlyph(b: Board)
    requires b.width == 4 && |b.buf| == 16
    ensures Indexable(b)
    ensures var r := Render(Frame(b, Mask(0, 0, 2, 2)), ' ', Block);
      && |r| > 0
      && r[0].ch == Encode(Block, ' ', [At(b, Point(0, 0)), At(b, Point(1, 0)), At(b, Point(0, 1)), At(b, Point(1, 1))])
  {
    var f := Frame(b, Mask(0, 0, 2, 2));
    assert f.pts.Valid();
    SmallBoardPlan(b, 2, 2);
    TwoWidePositions(f, Block);
    OriginBlock(f, Plan(f, Block));
    var r := Render(f, ' ', Block);
    assert r[0].ch == Encode(Block, ' ', Gather(f, Plan(f, Block), 0, 0));
  }

  /** The first glyph of that picture is a space exactly when its four cells are all dead,
      and otherwise shows them. */
  lemma FirstQuadrantGlyphIsDefined(b: Board)
    requires b.width == 4 && |b.buf| == 16
    ensures Indexable(b)
    ensures var r := Render(Frame(b, Mask(0, 0, 2, 2)), ' ', Block);
      var cells := [At(b, Point(0, 0)), At(b, Point(1, 0)), At(b, Point(0, 1)), At(b, Point(1, 1))];
      && |r| > 0
      && (r[0].ch == ' ' <==> forall i | 0 <= i < 4 :: !cells[i])
      && (r[0].ch != ' ' ==> DecodeBlock(r[0].ch) == cells)
  {
    FirstQuadrantGlyph(b);
    var cells := [At(b, Point(0, 0)), At(b, Point(1, 0)), At(b, Point(0, 1)), At(b, Point(1, 1))];
    if exists i | 0 <= i < 4 :: cells[i] {
      BlockNeverBlank(' ', cells);
      EncodeRoundTrip(Block, ' ', cells);
    }
  }
}
