/** The Life step of `src/main.rs`: the per-cell rule `calc_px` and the
    in-place sweep `run_turn`, plus the generation step the sweep is evidently
    meant to compute (every cell from the same previous generation).

    `src/main.rs` names `gol::Board<bool>`, which neither board file defines;
    the sweep is modelled over the toroidal board of `src/gol.rs`.
 */
module Life {
  import opened Grid
  import opened Gol

  /** The rule of `calc_px` for a cell in state `alive` with `n` live neighbours. It is
      Conway's B3/S23: alive next exactly when `n` is 3, or when `n` is 2 and the cell is
      alive. */
  function Rule(alive: bool, n: nat): (r: bool)
    ensures r <==> n == 3 || (alive && n == 2)
    ensures !alive && n == 3 ==> r
    ensures alive && (n < 2 || n > 3) ==> !r
    ensures r != alive ==> (!alive && n == 3) || (alive && (n < 2 || n > 3))
  {
    if !alive && n == 3 then
      true
    else if alive && (n < 2 || n > 3) then
      false
    else
      alive
  }

  /** `calc_px`: the next state of the cell at `p`, from its state and its neighbour count.
      It is alive next exactly when three of the eight neighbours are alive, or two are and
      the cell itself is. */
  function CalcPx(b: Board, p: Point): (r: bool)
    requires Indexable(b)
    ensures var live := multiset(Neighbors(b, p))[true];
      r <==> live == 3 || (At(b, p) && live == 2)
  {
    CountTrueIsMultiplicity(Neighbors(b, p));
    Rule(At(b, p), CountTrue(Neighbors(b, p)))
  }

  /** `calc_px` depends only on the cell's own state and on how many neighbours are alive,
      not on which of them: any two positions, on any boards, whose states agree and whose
      neighbourhoods are permutations of each other get the same result. */
  lemma CalcPxIgnoresNeighbourOrder(b: Board, p: Point, c: Board, q: Point)
    requires Indexable(b) && Indexable(c)
    requires At(b, p) == At(c, q)
    requires multiset(Neighbors(b, p)) == multiset(Neighbors(c, q))
    ensures CalcPx(b, p) == CalcPx(c, q)
  {
  }

  /** The points `run_turn` visits, in order: `y` over `0..w` outside, `x` over `0..h`
      inside, for a board of width `w` and height `h`. Built row by row, the last row
      being `y == w - 1`; `VisitOrderShape` states its length and entries. */
  function VisitOrder(w: nat, h: nat): (ps: seq<Point>)
    ensures h == 0 ==> ps == []
    decreases w
  {
    if w == 0 then [] else VisitOrder(w - 1, h) + RowPoints(w - 1, h)
  }

  /** The visit order holds one point per cell: `w * h` of them. */
  lemma {:induction false} VisitOrderLength(w: nat, h: nat)
    ensures |VisitOrder(w, h)| == w * h
    decreases w
  {
    if w > 0 {
      VisitOrderLength(w - 1, h);
      NextRowStart(w - 1, h);
    }
  }

  /** The visit order holds `w * h` points, and the one at row-major position (x, y) of a
      `h`-wide, `w`-high grid is the point (x, y) itself. */
  lemma {:induction false} VisitOrderShape(w: nat, h: nat)
    ensures |VisitOrder(w, h)| == w * h
    ensures forall x: nat, y: nat | x < h && y < w :: Cell(VisitOrder(w, h), h, w, x, y) == Point(x, y)
    decreases w
  {
    VisitOrderLength(w, h);
    if w > 0 {
      var prev := VisitOrder(w - 1, h);
      var ps := VisitOrder(w, h);
      VisitOrderShape(w - 1, h);
      assert ps == prev + RowPoints(w - 1, h);
      forall x: nat, y: nat | x < h && y < w
        ensures Cell(ps, h, w, x, y) == Point(x, y)
      {
        if y < w - 1 {
          IndexBound(x, y, h, w - 1);
          assert Cell(ps, h, w, x, y) == Cell(prev, h, w - 1, x, y);
        }
      }
    }
  }

  /** Row `y` of the visit order: the points (x, y) for `x` over `0..h`. */
  function RowPoints(y: int, h: nat): (r: seq<Point>)
    ensures |r| == h && forall x | 0 <= x < h :: r[x] == Point(x, y)
  {
    seq(h, x => Point(x, y))
  }

  /** What one visit of a sweep does to the board. */
  type Step = (Board, Point) -> Board

  /** Steps that keep the board's width and number of cells. */
  ghost predicate KeepsShape(step: Step)
  {
    forall r: Board, p: Point :: step(r, p).width == r.width && |step(r, p).buf| == |r.buf|
  }

  /** The points of `ps` visited in order from `b`, each visit applying `step` to the board
      as updated so far. */
  function SweepBy(step: Step, b: Board, ps: seq<Point>): (r: Board)
    decreases |ps|
  {
    if |ps| == 0 then b else step(SweepBy(step, b, ps[..|ps| - 1]), ps[|ps| - 1])
  }

  /** The inner loop of `run_turn` after its first `x` visits of row `y`, starting from `r`:
      the points (0, y), (1, y), ..., (x - 1, y), in that order. */
  function RowBy(step: Step, r: Board, y: int, x: nat): (s: Board)
  {
    if x == 0 then r else step(RowBy(step, r, y, x - 1), Point(x - 1, y))
  }

  /** The outer loop of `run_turn` after its first `y` rows, each an inner loop of `h` visits. */
  function RowsBy(step: Step, b: Board, y: nat, h: nat): (r: Board)
  {
    if y == 0 then b else RowBy(step, RowsBy(step, b, y - 1, h), y - 1, h)
  }

  /** A sweep by a shape-keeping step keeps the shape. */
  lemma {:induction false} SweepByKeepsShape(step: Step, b: Board, ps: seq<Point>)
    requires KeepsShape(step)
    ensures SweepBy(step, b, ps).width == b.width && |SweepBy(step, b, ps).buf| == |b.buf|
    decreases |ps|
  {
    if |ps| > 0 {
      SweepByKeepsShape(step, b, ps[..|ps| - 1]);
    }
  }

  /** Sweeping one more point applies one more step to the board swept so far. */
  lemma SweepByAppend(step: Step, b: Board, ps: seq<Point>, p: Point)
    ensures SweepBy(step, b, ps + [p]) == step(SweepBy(step, b, ps), p)
  {
    assert (ps + [p])[..|ps|] == ps;
  }

  /** Sweeping `ps` and then `qs` is sweeping `ps + qs`. */
  lemma {:induction false} SweepByConcat(step: Step, b: Board, ps: seq<Point>, qs: seq<Point>)
    ensures SweepBy(step, b, ps + qs) == SweepBy(step, SweepBy(step, b, ps), qs)
    decreases |qs|
  {
    if |qs| == 0 {
      assert ps + qs == ps;
    } else {
      var init, last := qs[..|qs| - 1], qs[|qs| - 1];
      assert qs == init + [last];
      assert ps + qs == (ps + init) + [last];
      SweepByConcat(step, b, ps, init);
      SweepByAppend(step, b, ps + init, last);
      SweepByAppend(step, SweepBy(step, b, ps), init, last);
    }
  }

  /** The inner loop's first `x` visits are the sweep over the first `x` points of its row. */
  lemma {:induction false} RowByIsSweepBy(step: Step, r: Board, y: int, x: nat)
    ensures RowBy(step, r, y, x) == SweepBy(step, r, RowPoints(y, x))
  {
    if x > 0 {
      RowByIsSweepBy(step, r, y, x - 1);
      assert RowPoints(y, x) == RowPoints(y, x - 1) + [Point(x - 1, y)];
      SweepByAppend(step, r, RowPoints(y, x - 1), Point(x - 1, y));
    }
  }

  /** The outer loop's first `y` rows are the sweep over the first `y` rows of the visit
      order: the nested loops of `run_turn` visit exactly `VisitOrder`, in its order. */
  lemma {:induction false} RowsByIsSweepBy(step: Step, b: Board, y: nat, h: nat)
    ensures RowsBy(step, b, y, h) == SweepBy(step, b, VisitOrder(y, h))
  {
    if y > 0 {
      RowsByIsSweepBy(step, b, y - 1, h);
      RowByIsSweepBy(step, RowsBy(step, b, y - 1, h), y - 1, h);
      SweepByConcat(step, b, VisitOrder(y - 1, h), RowPoints(y - 1, h));
    }
  }

  /** One visit of `run_turn`: the cell at `p` is assigned its `calc_px` on the board as it
      is. A board without cells has nothing to assign and is left as it is (`run_turn`
      visits no point of such a board). */
  function Visit(r: Board, p: Point): (s: Board)
    ensures s.width == r.width && |s.buf| == |r.buf|
  {
    if Indexable(r) then Update(r, p, CalcPx(r, p)) else r
  }

  /** A visit assigns the cell `p` names its `calc_px` and leaves every cell that `p` does
      not normalise to as it was. */
  lemma VisitAssigns(r: Board, p: Point, q: Point)
    requires Indexable(r)
    ensures Indexable(Visit(r, p))
    ensures At(Visit(r, p), q) == if Remap(q, r.width, r.Height()) == Remap(p, r.width, r.Height()) then CalcPx(r, p) else At(r, q)
  {
    AtAfterUpdate(r, p, CalcPx(r, p), q);
  }

  /** The board after visiting the points of `ps` in order, each cell assigned its
      `calc_px` computed on the board as updated so far. */
  function Sweep(b: Board, ps: seq<Point>): (r: Board)
    ensures r.width == b.width && |r.buf| == |b.buf|
  {
    SweepByKeepsShape(Visit, b, ps);
    SweepBy(Visit, b, ps)
  }

  /** `run_turn`: the in-place sweep. Each visited cell is overwritten with `calc_px` of the
      partially updated board, so later cells see the new values of earlier ones. The
      width and the number of cells do not change. */
  method RunTurn(b: Board) returns (r: Board)
    requires b.Valid()
    ensures r.width == b.width && |r.buf| == |b.buf|
    ensures r == Sweep(b, VisitOrder(b.width, b.Height()))
  {
    var w, h := b.width, b.Height();
    r := b;
    var y := 0;
    while y < w
      invariant 0 <= y <= w && r == RowsBy(Visit, b, y, h)
      invariant r.width == w && |r.buf| == |b.buf|
    {
      r := RunRow(r, y);
      y := y + 1;
    }
    NestedLoopsSweepVisitOrder(b);
  }

  /** The nested loops of `run_turn` visit exactly `VisitOrder`, in its order. */
  lemma NestedLoopsSweepVisitOrder(b: Board)
    requires b.Valid()
    ensures RowsBy(Visit, b, b.width, b.Height()) == Sweep(b, VisitOrder(b.width, b.Height()))
  {
    RowsByIsSweepBy(Visit, b, b.width, b.Height());
  }

  /** The inner loop of `run_turn`: visits (x, y) for `x` over `0..h`. */
  method RunRow(r0: Board, y: int) returns (r: Board)
    requires r0.Valid()
    ensures r.width == r0.width && |r.buf| == |r0.buf|
    ensures r == RowBy(Visit, r0, y, r0.Height())
  {
    var h := r0.Height();
    r := r0;
    var x := 0;
    while x < h
      invariant 0 <= x <= h && r == RowBy(Visit, r0, y, x)
      invariant r.width == r0.width && |r.buf| == |r0.buf|
    {
      var p := Point(x, y);
      r := Update(r, p, CalcPx(r, p));
      x := x + 1;
    }
  }

  /** The visit with index `y * h + x` is the point (x, y). */
  lemma VisitOrderVisits(w: nat, h: nat, x: nat, y: nat)
    requires x < h && y < w
    ensures y * h + x < |VisitOrder(w, h)| && VisitOrder(w, h)[y * h + x] == Point(x, y)
  {
    VisitOrderShape(w, h);
    IndexBound(x, y, h, w);
    assert VisitOrder(w, h)[y * h + x] == Cell(VisitOrder(w, h), h, w, x, y);
  }

  /** Extending a prefix of `ps` by one point performs one more assignment. */
  lemma SweepStep(b: Board, ps: seq<Point>, k: nat)
    requires Indexable(b) && k < |ps|
    ensures var prev := Sweep(b, ps[..k]); Sweep(b, ps[..k + 1]) == Update(prev, ps[k], CalcPx(prev, ps[k]))
  {
    assert ps[..k + 1] == ps[..k] + [ps[k]];
    SweepByAppend(Visit, b, ps[..k], ps[k]);
  }

  /** A sweep never changes a cell that none of its points normalises to. */
  lemma {:induction false} SweepLeavesUnvisitedCells(b: Board, ps: seq<Point>, q: Point)
    requires Indexable(b)
    requires forall k | 0 <= k < |ps| :: Remap(ps[k], b.width, b.Height()) != Remap(q, b.width, b.Height())
    ensures At(Sweep(b, ps), q) == At(b, q)
    decreases |ps|
  {
    if |ps| > 0 {
      var prev := Sweep(b, ps[..|ps| - 1]);
      SweepLeavesUnvisitedCells(b, ps[..|ps| - 1], q);
      AtAfterUpdate(prev, ps[|ps| - 1], CalcPx(prev, ps[|ps| - 1]), q);
    }
  }

  /** Because `run_turn` runs `y` only up to the width, on a board taller than it is wide the
      rows from the width downwards are never visited and keep their cells. */
  lemma RowsBelowWidthAreNeverVisited(b: Board, q: Point)
    requires Indexable(b)
    requires 0 <= q.x < b.width <= q.y < b.Height()
    ensures At(Sweep(b, VisitOrder(b.width, b.Height())), q) == At(b, q)
  {
    var w, h := b.width, b.Height();
    var order := VisitOrder(w, h);
    forall k | 0 <= k < |order|
      ensures Remap(order[k], w, h) != Remap(q, w, h)
    {
      VisitedRowIsBelowWidth(w, h, k);
      var p := order[k];
      DivUnique(p.y, h, 0, p.y);
      DivUnique(q.y, h, 0, q.y);
      assert Remap(p, w, h).y == p.y < q.y == Remap(q, w, h).y;
    }
    SweepLeavesUnvisitedCells(b, order, q);
  }

  /** Entry `k` of the visiting order, in closed form: the point (k % h, k / h). */
  lemma VisitOrderAt(w: nat, h: nat, k: nat)
    requires k < |VisitOrder(w, h)|
    ensures h > 0 && k / h < w && VisitOrder(w, h)[k] == Point(k % h, k / h)
  {
    assert h > 0 && k / h < w && k % h < h && (k / h) * h + k % h == k by {
      VisitOrderLength(w, h);
      Decompose(k, h, w);
    }
    VisitOrderVisits(w, h, k % h, k / h);
  }

  /** Every point `run_turn` visits lies in a row above the width. */
  lemma VisitedRowIsBelowWidth(w: nat, h: nat, k: nat)
    requires k < |VisitOrder(w, h)|
    ensures 0 <= VisitOrder(w, h)[k].x < h && 0 <= VisitOrder(w, h)[k].y < w
  {
    VisitOrderAt(w, h, k);
  }

  /** The generation step evidently intended: every cell gets `calc_px` of the same,
      unchanged previous board. */
  function NextGeneration(b: Board): (r: Board)
    requires b.Valid()
    ensures r.width == b.width && |r.buf| == |b.buf| && r.Valid()
    ensures Indexable(b) ==> forall p :: At(r, p) == Rule(At(b, p), CountTrue(Neighbors(b, p)))
  {
    if b.Height() == 0 then
      b
    else
      var cells := seq(|b.buf|, i requires 0 <= i < |b.buf| => CalcPx(b, Point(i % b.width, i / b.width)));
      SnapshotCells(b, cells);
      Board(b.width, cells)
  }

  /** Reading a board whose cells were all computed from `b` by `calc_px` gives the rule
      applied to `b`'s own cell and neighbours, at every point. */
  lemma SnapshotCells(b: Board, cells: seq<bool>)
    requires Indexable(b) && |cells| == |b.buf|
    requires forall i | 0 <= i < |cells| :: cells[i] == CalcPx(b, Point(i % b.width, i / b.width))
    ensures Indexable(Board(b.width, cells))
    ensures forall p :: At(Board(b.width, cells), p) == Rule(At(b, p), CountTrue(Neighbors(b, p)))
  {
    var r := Board(b.width, cells);
    assert r.Height() == b.Height();
    forall p
      ensures At(r, p) == Rule(At(b, p), CountTrue(Neighbors(b, p)))
    {
      var w, h := b.width, b.Height();
      var i := PtToIndex(r, p);
      PtToIndexResidues(r, p);
      AtIsToroidal(b, p);
      var q := Point(i % w, i / w);
      assert q == Remap(p, w, h);
      assert q.x % w == p.x % w && q.y % h == p.y % h;
      NeighborsAreToroidal(b, q, p);
      assert At(b, q) == At(b, p);
    }
  }

  /** A live cell without live neighbours dies in the next generation. */
  lemma LonelyCellDies(b: Board, p: Point)
    requires Indexable(b) && At(b, p) && CountTrue(Neighbors(b, p)) == 0
    ensures !At(NextGeneration(b), p)
  {
  }
}
