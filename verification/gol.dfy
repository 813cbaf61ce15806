/** The toroidal board of `src/gol.rs`: points, viewport masks, the board
    itself with wrap-around indexing, neighbour queries, rectangular slices
    and the live-cell count.

    Integer widths (`i64` points, `u32` widths and masks) are unbounded here;
    the model assumes no arithmetic overflows.
 */
module Gol {
  import opened Grid

  /** A signed cell coordinate; it may be negative or beyond the board before normalisation. */
  datatype Point = Point(x: int, y: int)

  /** Component-wise sum of two points (`impl Add for Point`). */
  function Shift(p: Point, d: Point): Point
  {
    Point(p.x + d.x, p.y + d.y)
  }

  /** A viewport rectangle: origin (x, y) and extent (w, h). */
  datatype Mask = Mask(x: nat, y: nat, w: nat, h: nat) {

    function Right(): nat
    {
      x + w
    }

    function Bottom(): nat
    {
      y + h
    }

    /** Membership test that includes the right and bottom edges as well as the origin's. */
    predicate Contains(p: Point)
    {
      p.x >= x && p.x <= Right() && p.y >= y && p.y <= Bottom()
    }
  }

  /** `Mask::contains` is inclusive on all four edges: the four corners are inside and the
      points one step beyond each edge are outside. */
  lemma ContainsIsEdgeInclusive(m: Mask)
    ensures m.Contains(Point(m.x, m.y)) && m.Contains(Point(m.x + m.w, m.y))
    ensures m.Contains(Point(m.x, m.y + m.h)) && m.Contains(Point(m.x + m.w, m.y + m.h))
    ensures !m.Contains(Point(m.x - 1, m.y)) && !m.Contains(Point(m.x + m.w + 1, m.y))
    ensures !m.Contains(Point(m.x, m.y - 1)) && !m.Contains(Point(m.x, m.y + m.h + 1))
    ensures forall p: Point :: m.Contains(p) <==> 0 <= p.x - m.x <= m.w && 0 <= p.y - m.y <= m.h
  {
  }

  /** A board of `width` columns stored row-major in `buf`. */
  datatype Board = Board(width: nat, buf: seq<bool>) {

    /** The invariant `Board::new`'s callers must establish. */
    predicate Valid()
    {
      width > 0 && |buf| % width == 0
    }

    /** Number of rows; the division panics on a zero width. */
    function Height(): (h: nat)
      requires width > 0
      ensures Valid() ==> h * width == |buf|
    {
      |buf| / width
    }
  }

  /** The `while v < 0 { v += step }` loop of `Point::remap`. */
  function LiftNonNegative(v: int, step: int): (r: int)
    requires step > 0
    ensures r >= 0
    ensures r % step == v % step
    ensures v >= 0 ==> r == v
    ensures v < 0 ==> r < step
    decreases -v
  {
    if v < 0 then
      ModShift(v, 1, step);
      LiftNonNegative(v + step, step)
    else
      v
  }

  /** `Point::remap`: toroidal normalisation of `p` onto a `w` by `h` grid. The result is
      the unique point of `[0, w) x [0, h)` congruent to `p`, and points already inside are
      left alone. The loops would not end on a zero extent and `%` would panic on one, hence
      the precondition. */
  function Remap(p: Point, w: int, h: int): (r: Point)
    requires w > 0 && h > 0
    ensures 0 <= r.x < w && 0 <= r.y < h
    ensures r.x == p.x % w && r.y == p.y % h
    ensures 0 <= p.x < w && 0 <= p.y < h ==> r == p
  {
    Point(LiftNonNegative(p.x, w) % w, LiftNonNegative(p.y, h) % h)
  }

  /** Boards on which indexing is defined: indexing an empty board panics in `remap`. */
  predicate Indexable(b: Board)
  {
    b.Valid() && b.Height() > 0
  }

  /** `Board::pt_to_index`: the flat index of the remapped point. Its bounds assertion
      never fires on a valid board; `PtToIndexResidues` states which index it is. */
  function PtToIndex(b: Board, p: Point): (i: nat)
    requires Indexable(b)
    ensures i < |b.buf|
  {
    var q := Remap(p, b.width, b.Height());
    IndexBound(q.x, q.y, b.width, b.Height());
    q.y * b.width + q.x
  }

  /** The index `pt_to_index` computes recovers the point's residues: its column is `p.x`
      modulo the width and its row `p.y` modulo the height. */
  lemma PtToIndexResidues(b: Board, p: Point)
    requires Indexable(b)
    ensures PtToIndex(b, p) % b.width == p.x % b.width
    ensures PtToIndex(b, p) / b.width == p.y % b.Height()
  {
    var q := Remap(p, b.width, b.Height());
    DivMod(q.x, q.y, b.width);
  }

  /** `impl Index<Point> for Board`: reading a cell with wrap-around. */
  function At(b: Board, p: Point): (v: bool)
    requires Indexable(b)
  {
    b.buf[PtToIndex(b, p)]
  }

  /** The value read at `p` is the buffer cell at the point's residues, so any two congruent
      points read the same. */
  lemma AtIsCell(b: Board, p: Point)
    requires Indexable(b)
    ensures At(b, p) == Cell(b.buf, b.width, b.Height(), p.x % b.width, p.y % b.Height())
  {
    var q := Remap(p, b.width, b.Height());
    IndexBound(q.x, q.y, b.width, b.Height());
  }

  /** Reading `p` reads the buffer cell of the residues `x`, `y` given for it. */
  lemma ReadAt(b: Board, p: Point, x: nat, y: nat)
    requires Indexable(b) && x < b.width && y < b.Height()
    requires p.x % b.width == x && p.y % b.Height() == y
    ensures y * b.width + x < |b.buf| && At(b, p) == b.buf[y * b.width + x]
  {
    IndexBound(x, y, b.width, b.Height());
    PtToIndexResidues(b, p);
    Decompose(PtToIndex(b, p), b.width, b.Height());
  }

  /** `impl IndexMut<Point> for Board` followed by an assignment of `v`; `UpdateWrites`
      states which cell changes. */
  function Update(b: Board, p: Point, v: bool): (r: Board)
    requires Indexable(b)
    ensures r.width == b.width && |r.buf| == |b.buf| && Indexable(r) && r.Height() == b.Height()
  {
    b.(buf := b.buf[PtToIndex(b, p) := v])
  }

  /** Assigning through `IndexMut` writes `v` to the cell `pt_to_index` names and leaves
      every other cell of the buffer as it was. */
  lemma UpdateWrites(b: Board, p: Point, v: bool)
    requires Indexable(b)
    ensures Update(b, p, v).buf[PtToIndex(b, p)] == v
    ensures forall i | 0 <= i < |b.buf| && i != PtToIndex(b, p) :: Update(b, p, v).buf[i] == b.buf[i]
  {
  }

  /** Access at any point equals access at its toroidal normalisation, and moving a point by
      one board width or height does not change the cell it reads. */
  lemma AtIsToroidal(b: Board, p: Point)
    requires Indexable(b)
    ensures At(b, p) == At(b, Remap(p, b.width, b.Height()))
    ensures At(b, Point(p.x + b.width, p.y)) == At(b, p)
    ensures At(b, Point(p.x, p.y + b.Height())) == At(b, p)
  {
    ModShift(p.x, 1, b.width);
    ModShift(p.y, 1, b.Height());
  }

  /** Two points read the same cell exactly when they have the same normalisation. */
  lemma SameCellIffSameRemap(b: Board, p: Point, q: Point)
    requires Indexable(b)
    ensures PtToIndex(b, p) == PtToIndex(b, q) <==> Remap(p, b.width, b.Height()) == Remap(q, b.width, b.Height())
  {
    var rp, rq := Remap(p, b.width, b.Height()), Remap(q, b.width, b.Height());
    DivMod(rp.x, rp.y, b.width);
    DivMod(rq.x, rq.y, b.width);
  }

  /** Writing `v` at `p` makes every point with the same normalisation read `v`, and every
      other point read what it read before. */
  lemma AtAfterUpdate(b: Board, p: Point, v: bool, q: Point)
    requires Indexable(b)
    ensures At(Update(b, p, v), q) == if Remap(q, b.width, b.Height()) == Remap(p, b.width, b.Height()) then v else At(b, q)
  {
    SameCellIffSameRemap(b, p, q);
    UpdateWrites(b, p, v);
    var r := Update(b, p, v);
    assert PtToIndex(r, q) == PtToIndex(b, q);
  }

  /** Offsets of the eight points `Board::neighbors` reads, in its order:
      (+1, 0), (-1, 0), (0, +1), (0, -1), (+1, -1), (+1, +1), (-1, +1), (-1, -1). */
  const MooreOffsets: seq<Point> :=
    [Point(1, 0), Point(-1, 0), Point(0, 1), Point(0, -1), Point(1, -1), Point(1, 1), Point(-1, 1), Point(-1, -1)]

  /** The offsets are exactly the Moore neighbourhood: eight distinct non-zero offsets with
      both coordinates in [-1, 1], and every such offset among them. */
  lemma MooreOffsetsAreTheNeighbourhood()
    ensures |MooreOffsets| == 8
    ensures forall i, j | 0 <= i < j < 8 :: MooreOffsets[i] != MooreOffsets[j]
    ensures forall d: Point :: d in MooreOffsets <==> -1 <= d.x <= 1 && -1 <= d.y <= 1 && d != Point(0, 0)
  {
    assert forall i, j | 0 <= i < j < 8 :: MooreOffsets[i] != MooreOffsets[j];
    assert forall d: Point | -1 <= d.x <= 1 && -1 <= d.y <= 1 && d != Point(0, 0) :: d in MooreOffsets by {
      forall d: Point | -1 <= d.x <= 1 && -1 <= d.y <= 1 && d != Point(0, 0)
        ensures d in MooreOffsets
      {
        if d.x == 1 {
          assert d == MooreOffsets[0] || d == MooreOffsets[4] || d == MooreOffsets[5];
        } else if d.x == -1 {
          assert d == MooreOffsets[1] || d == MooreOffsets[6] || d == MooreOffsets[7];
        } else {
          assert d == MooreOffsets[2] || d == MooreOffsets[3];
        }
      }
    }
  }

  /** The eight points `Board::neighbors` builds around `p`, in its order. */
  function NeighborPoints(p: Point): (r: seq<Point>)
    ensures |r| == 8
  {
    [ Point(p.x + 1, p.y),
      Point(p.x - 1, p.y),
      Point(p.x, p.y + 1),
      Point(p.x, p.y - 1),
      Point(p.x + 1, p.y - 1),
      Point(p.x + 1, p.y + 1),
      Point(p.x - 1, p.y + 1),
      Point(p.x - 1, p.y - 1) ]
  }

  /** `Board::neighbors`: the cells at the eight Moore offsets, in the order of `MooreOffsets`. */
  function Neighbors(b: Board, p: Point): (r: seq<bool>)
    requires Indexable(b)
    ensures |r| == 8
  {
    var pts := NeighborPoints(p);
    seq(8, k requires 0 <= k < 8 => At(b, pts[k]))
  }

  /** Entry `k` of the neighbours is the cell at `p` moved by the `k`-th Moore offset. */
  lemma NeighborsReadShifts(b: Board, p: Point)
    requires Indexable(b)
    ensures forall k | 0 <= k < 8 :: Neighbors(b, p)[k] == At(b, Shift(p, MooreOffsets[k]))
  {
  }

  /** Points congruent modulo the board see the same neighbours. */
  lemma NeighborsAreToroidal(b: Board, p: Point, q: Point)
    requires Indexable(b)
    requires p.x % b.width == q.x % b.width && p.y % b.Height() == q.y % b.Height()
    ensures Neighbors(b, p) == Neighbors(b, q)
  {
    NeighborsReadShifts(b, p);
    NeighborsReadShifts(b, q);
    forall k | 0 <= k < 8
      ensures Neighbors(b, p)[k] == Neighbors(b, q)[k]
    {
      ShiftPreservesCongruence(b, p, q, MooreOffsets[k]);
    }
  }

  /** Shifting two congruent points by the same offset gives points that read the same cell. */
  lemma ShiftPreservesCongruence(b: Board, p: Point, q: Point, d: Point)
    requires Indexable(b)
    requires p.x % b.width == q.x % b.width && p.y % b.Height() == q.y % b.Height()
    ensures At(b, Shift(p, d)) == At(b, Shift(q, d))
  {
    var w, h := b.width, b.Height();
    ModAdd(p.x, d.x, w);
    ModAdd(q.x, d.x, w);
    ModAdd(p.y, d.y, h);
    ModAdd(q.y, d.y, h);
  }

  /** Number of `true` entries (`iter().filter(|v| **v).count()`). */
  function CountTrue(s: seq<bool>): (n: nat)
    ensures n <= |s|
  {
    if |s| == 0 then 0 else (if s[0] then 1 else 0) + CountTrue(s[1..])
  }

  /** The count is zero exactly when no entry is `true`. */
  lemma {:induction false} CountTrueIsZeroIffAllFalse(s: seq<bool>)
    ensures CountTrue(s) == 0 <==> forall i | 0 <= i < |s| :: !s[i]
  {
    if |s| > 0 {
      CountTrueIsZeroIffAllFalse(s[1..]);
      assert forall i | 1 <= i < |s| :: s[i] == s[1..][i - 1];
    }
  }

  /** The count equals the multiplicity of `true`, so it ignores the order of the entries. */
  lemma {:induction false} CountTrueIsMultiplicity(s: seq<bool>)
    ensures CountTrue(s) == multiset(s)[true]
  {
    if |s| > 0 {
      CountTrueIsMultiplicity(s[1..]);
      assert s == [s[0]] + s[1..];
      assert multiset(s) == multiset([s[0]]) + multiset(s[1..]);
    }
  }

  /** `Board::alive`: the number of live cells, at most the number of cells. */
  function Alive(b: Board): (n: nat)
    ensures n <= |b.buf|
    ensures n == multiset(b.buf)[true]
  {
    CountTrueIsMultiplicity(b.buf);
    CountTrue(b.buf)
  }

  /** Index `k` of a slice of `sect` holds the board cell at `sect`'s origin plus the
      slice's own column `k % sect.w` and row `k / sect.w`. */
  function SliceCell(b: Board, sect: Mask, k: nat): bool
    requires Indexable(b) && sect.w > 0
  {
    At(b, Point(sect.x + k % sect.w, sect.y + k / sect.w))
  }

  /** `Board::slice`: copies the `sect.w` by `sect.h` rectangle at `sect`'s origin, reading
      with wrap-around, into a new board of width `sect.w`. Indexing happens only when the
      rectangle is not empty, and only then must the board be indexable. */
  method Slice(b: Board, sect: Mask) returns (r: Board)
    requires sect.w > 0 && sect.h > 0 ==> Indexable(b)
    ensures r.width == sect.w && |r.buf| == sect.w * sect.h
    ensures sect.w > 0 ==> r.Valid() && r.Height() == sect.h
    ensures sect.w > 0 && sect.h > 0 ==> forall k | 0 <= k < |r.buf| :: r.buf[k] == SliceCell(b, sect, k)
  {
    var out: seq<bool> := [];
    var y := sect.y;
    while y < sect.Bottom()
      invariant sect.y <= y <= sect.Bottom()
      invariant |out| == (y - sect.y) * sect.w
      invariant forall k | 0 <= k < |out| :: out[k] == SliceCell(b, sect, k)
    {
      var x := sect.x;
      while x < sect.Right()
        invariant sect.x <= x <= sect.Right()
        invariant |out| == (y - sect.y) * sect.w + (x - sect.x)
        invariant forall k | 0 <= k < |out| :: out[k] == SliceCell(b, sect, k)
      {
        SliceStep(b, sect, out, x, y);
        out := out + [At(b, Point(x, y))];
        x := x + 1;
      }
      NextRowStart(y - sect.y, sect.w);
      y := y + 1;
    }
    r := Board(sect.w, out);
    if sect.w > 0 {
      DivMod(0, sect.h, sect.w);
    }
  }

  /** Appending the cell at (x, y) keeps a partial slice in step with `SliceCell`. */
  lemma SliceStep(b: Board, sect: Mask, out: seq<bool>, x: int, y: int)
    requires Indexable(b) && sect.w > 0 && sect.x <= x < sect.Right() && sect.y <= y
    requires |out| == (y - sect.y) * sect.w + (x - sect.x)
    requires forall k | 0 <= k < |out| :: out[k] == SliceCell(b, sect, k)
    ensures forall k | 0 <= k < |out| + 1 :: (out + [At(b, Point(x, y))])[k] == SliceCell(b, sect, k)
  {
    DivMod(x - sect.x, y - sect.y, sect.w);
  }

  /** A finished row of `w` cells brings the length to the start of the next row. */
  lemma NextRowStart(j: nat, w: nat)
    ensures j * w + w == (j + 1) * w
  {
  }

  /** Cell (i, j) of a slice, read through the slice's own indexing, is the board's cell at
      (sect.x + i, sect.y + j). */
  lemma SliceReadsWindow(b: Board, sect: Mask, r: Board, i: nat, j: nat)
    requires Indexable(b) && sect.w > 0 && sect.h > 0
    requires r.width == sect.w && |r.buf| == sect.w * sect.h
    requires forall k | 0 <= k < |r.buf| :: r.buf[k] == SliceCell(b, sect, k)
    requires i < sect.w && j < sect.h
    ensures Indexable(r) && At(r, Point(i, j)) == At(b, Point(sect.x + i, sect.y + j))
  {
    DivMod(0, sect.h, sect.w);
    assert r.Height() == sect.h;
    DivMod(i, j, sect.w);
    IndexBound(i, j, sect.w, sect.h);
    var k := j * sect.w + i;
    assert PtToIndex(r, Point(i, j)) == k;
    assert At(r, Point(i, j)) == SliceCell(b, sect, k);
  }
}
