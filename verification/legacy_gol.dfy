/** The superseded board of `src/gol/mod.rs`.

    It has the same layout, `height` and `alive` as the board of `src/gol.rs`
    (so `Gol.Board`, `Board.Height` and `Gol.Alive` model them), but its
    `pt_to_index` wraps each coordinate at most once and checks nothing: the
    index it computes can be negative or past the buffer, and the vector
    access then panics. That panic is the precondition of `LegacyAt`.
 */
module LegacyGol {
  import opened Grid
  import opened Gol

  /** Points whose coordinates lie within one board extent of the board:
      `[-W, 2W) x [-H, 2H)`. */
  predicate InBand(b: Board, p: Point)
    requires b.width > 0
  {
    -(b.width as int) <= p.x < 2 * b.width && -(b.Height() as int) <= p.y < 2 * b.Height()
  }

  /** `Board::pt_to_index` of the superseded board: add the extent once if the coordinate is
      negative, then subtract it once if it is at least the extent. Inside the band this is
      the row-major index of the point's residues. */
  function LegacyIndex(b: Board, p: Point): (i: int)
    requires b.width > 0
    ensures InBand(b, p) ==> i == (p.y % b.Height()) * b.width + p.x % b.width
  {
    var w, h := b.width, b.Height();
    var x0 := if p.x < 0 then p.x + w else p.x;
    var x := if x0 >= w then x0 - w else x0;
    var y0 := if p.y < 0 then p.y + h else p.y;
    var y := if y0 >= h then y0 - h else y0;
    if InBand(b, p) then
      SingleWrapIsMod(p.x, w);
      SingleWrapIsMod(p.y, h);
      y * w + x
    else
      y * w + x
  }

  /** Inside the band the single-wrap index is the toroidal index of `src/gol.rs`,
      `(y mod H) * W + (x mod W)`, and so lies inside the buffer. */
  lemma InBandIndexIsToroidal(b: Board, p: Point)
    requires Indexable(b) && InBand(b, p)
    ensures LegacyIndex(b, p) == PtToIndex(b, p)
    ensures LegacyIndex(b, p) == (p.y % b.Height()) * b.width + p.x % b.width < |b.buf|
    ensures Reachable(b, p) && LegacyAt(b, p) == At(b, p)
  {
    var w := b.width;
    var j := PtToIndex(b, p);
    assert j == (j / w) * w + j % w;
  }

  /** One conditional wrap in each direction normalises a value within one extent of `[0, n)`. */
  lemma SingleWrapIsMod(v: int, n: int)
    requires n > 0 && -n <= v < 2 * n
    ensures var v0 := if v < 0 then v + n else v; (if v0 >= n then v0 - n else v0) == v % n
  {
    if v < 0 {
      DivUnique(v, n, -1, v + n);
    } else if v >= n {
      DivUnique(v, n, 1, v - n);
    } else {
      DivUnique(v, n, 0, v);
    }
  }

  /** Whether the superseded board can read or write at `p` without panicking. */
  predicate Reachable(b: Board, p: Point)
  {
    b.Valid() && 0 <= LegacyIndex(b, p) < |b.buf|
  }

  /** `impl Index<Point>` of the superseded board: inside the band it reads what the
      toroidal board reads. */
  function LegacyAt(b: Board, p: Point): (v: bool)
    requires Reachable(b, p)
    ensures InBand(b, p) ==> Indexable(b) && v == At(b, p)
  {
    b.buf[LegacyIndex(b, p)]
  }

  /** `impl IndexMut<Point>` of the superseded board followed by an assignment of `v`:
      exactly one buffer cell changes, and it now holds `v`. */
  function LegacyUpdate(b: Board, p: Point, v: bool): (r: Board)
    requires Reachable(b, p)
    ensures r.width == b.width && |r.buf| == |b.buf| && r.Valid()
    ensures r.buf[LegacyIndex(b, p)] == v
    ensures forall i | 0 <= i < |b.buf| && i != LegacyIndex(b, p) :: r.buf[i] == b.buf[i]
  {
    b.(buf := b.buf[LegacyIndex(b, p) := v])
  }

  /** Every one of the eight neighbour lookups around `p` stays inside the buffer. */
  predicate LookupsInRange(b: Board, p: Point)
  {
    b.Valid() && forall k | 0 <= k < 8 :: Reachable(b, NeighborPoints(p)[k])
  }

  /** `Board::neighbors` of the superseded board, when none of its lookups panics: entry `k`
      is the cell at `p` moved by the `k`-th Moore offset, the order of `Gol.Neighbors`. */
  function LegacyNeighbors(b: Board, p: Point): (r: seq<bool>)
    requires LookupsInRange(b, p)
    ensures |r| == 8
    ensures forall k | 0 <= k < 8 :: Reachable(b, Shift(p, MooreOffsets[k])) && r[k] == LegacyAt(b, Shift(p, MooreOffsets[k]))
  {
    var pts := NeighborPoints(p);
    assert forall k | 0 <= k < 8 :: pts[k] == Shift(p, MooreOffsets[k]);
    seq(8, k requires 0 <= k < 8 => LegacyAt(b, pts[k]))
  }

  /** Every neighbour lookup of a point on the board stays in bounds on the superseded board,
      and reads the same cells as the toroidal board. */
  lemma OnBoardNeighborsStayInBounds(b: Board, p: Point)
    requires Indexable(b)
    requires 0 <= p.x < b.width && 0 <= p.y < b.Height()
    ensures LookupsInRange(b, p)
    ensures LegacyNeighbors(b, p) == Neighbors(b, p)
  {
    forall k | 0 <= k < 8
      ensures Reachable(b, NeighborPoints(p)[k])
      ensures LegacyAt(b, NeighborPoints(p)[k]) == At(b, NeighborPoints(p)[k])
    {
      var q := NeighborPoints(p)[k];
      assert InBand(b, q);
      InBandIndexIsToroidal(b, q);
    }
  }

  /** Outside the band the superseded board neither wraps nor stops: on a 2 by 2 board the
      point (5, 0) reads cell (1, 1) instead of the toroidal (1, 0), and (-5, 0) yields a
      negative index, which the vector access rejects. */
  lemma OutsideBandMisreads()
    ensures var b := Board(2, [false, false, false, true]);
      && Reachable(b, Point(5, 0)) && LegacyAt(b, Point(5, 0))
      && Indexable(b) && !At(b, Point(5, 0))
      && LegacyIndex(b, Point(-5, 0)) < 0
  {
    var b := Board(2, [false, false, false, true]);
    assert b.Height() == 2;
    assert LegacyIndex(b, Point(5, 0)) == 3;
    assert At(b, Point(5, 0)) == b.buf[1];
  }
}
