/** Concrete boards on which the in-place sweep of `run_turn` and the intended
    generation step are compared.
 */
module LifeExamples {
  import opened Grid
  import opened Gol
  import opened Life

  /** Writing at `p` writes the buffer cell of the residues `x`, `y` given for it. */
  lemma Write(b: Board, p: Point, v: bool, x: nat, y: nat)
    requires Indexable(b) && x < b.width && y < b.Height()
    requires p.x % b.width == x && p.y % b.Height() == y
    ensures y * b.width + x < |b.buf| && Update(b, p, v) == Board(b.width, b.buf[y * b.width + x := v])
  {
    IndexBound(x, y, b.width, b.Height());
    PtToIndexResidues(b, p);
    var i := PtToIndex(b, p);
    Decompose(i, b.width, b.Height());
  }

  /** The neighbours of `p` are `l` when each entry of `l` is the read at the matching
      neighbour point. */
  lemma NeighborsAre(b: Board, p: Point, l: seq<bool>)
    requires Indexable(b) && |l| == 8
    requires forall k | 0 <= k < 8 :: l[k] == At(b, NeighborPoints(p)[k])
    ensures Neighbors(b, p) == l
  {
  }

  /** When no point after the first `k` of `ps` normalises to `q`, the cell at `q` after the
      whole sweep is the cell after the first `k` points. */
  lemma SweepSettlesAfterPrefix(b: Board, ps: seq<Point>, k: nat, q: Point)
    requires Indexable(b) && k <= |ps|
    requires forall j | k <= j < |ps| :: Remap(ps[j], b.width, b.Height()) != Remap(q, b.width, b.Height())
    ensures At(Sweep(b, ps), q) == At(Sweep(b, ps[..k]), q)
  {
    var pre, rest := ps[..k], ps[k..];
    var mid := Sweep(b, pre);
    assert Sweep(b, ps) == Sweep(mid, rest) by {
      assert pre + rest == ps;
      SweepByConcat(Visit, b, pre, rest);
    }
    assert mid.Height() == b.Height();
    forall j | 0 <= j < |rest|
      ensures Remap(rest[j], mid.width, mid.Height()) != Remap(q, mid.width, mid.Height())
    {
      assert rest[j] == ps[k + j];
    }
    SweepLeavesUnvisitedCells(mid, rest, q);
  }

  /** A 2-wide, 3-high board whose only live cell is (0, 2). */
  function Tall(): Board
  {
    Board(2, [false, false, false, false, true, false])
  }

  /** On `Tall` the cell (0, 2) has no live neighbour, so Life kills it; `run_turn` never
      visits row 2, because its `y` stops at the width, and the cell survives. */
  lemma IsolatedCellSurvivesInUnvisitedRow(b: Board)
    requires b == Tall()
    ensures Indexable(b) && At(b, Point(0, 2))
    ensures CountTrue(Neighbors(b, Point(0, 2))) == 0
    ensures At(Sweep(b, VisitOrder(b.width, b.Height())), Point(0, 2))
    ensures !At(NextGeneration(b), Point(0, 2))
  {
    assert b.Height() == 3;
    IsolatedCell(b);
    RowsBelowWidthAreNeverVisited(b, Point(0, 2));
  }

  /** On a 2 by 3 board whose only live cell is (0, 2), that cell has no live neighbour. */
  lemma IsolatedCell(b: Board)
    requires b.width == 2 && |b.buf| == 6
    requires forall i | 0 <= i < 6 :: b.buf[i] == (i == 4)
    ensures Indexable(b) && At(b, Point(0, 2)) && CountTrue(Neighbors(b, Point(0, 2))) == 0
  {
    assert b.Height() == 3;
    ReadAt(b, Point(0, 2), 0, 2);
    ReadAt(b, Point(1, 2), 1, 2);
    ReadAt(b, Point(-1, 2), 1, 2);
    ReadAt(b, Point(0, 3), 0, 0);
    ReadAt(b, Point(0, 1), 0, 1);
    ReadAt(b, Point(1, 1), 1, 1);
    ReadAt(b, Point(1, 3), 1, 0);
    ReadAt(b, Point(-1, 3), 1, 0);
    ReadAt(b, Point(-1, 1), 1, 1);
    NeighborsAre(b, Point(0, 2), [false, false, false, false, false, false, false, false]);
  }

  /** A 3 by 3 board whose bottom row is alive. On this torus every cell's neighbours are the
      other eight cells. */
  function BottomRow(): Board
  {
    Board(3, [false, false, false, false, false, false, true, true, true])
  }

  /** On `BottomRow` the intended step brings (1, 0) to life (three live neighbours), but the
      in-place sweep first brings (0, 0) to life, so (1, 0) then counts four and stays dead. */
  lemma InPlaceSweepDiverges()
    ensures Indexable(BottomRow())
    ensures !At(Sweep(BottomRow(), VisitOrder(3, 3)), Point(1, 0))
    ensures At(NextGeneration(BottomRow()), Point(1, 0))
  {
    var b := BottomRow();
    assert b.Height() == 3;
    SweepMissesBirth(b);
  }

  /** On any 3 by 3 board whose bottom row alone is alive, the sweep leaves (1, 0) dead
      while the generation step brings it to life. */
  lemma SweepMissesBirth(b: Board)
    requires b.width == 3 && |b.buf| == 9
    requires forall i | 0 <= i < 9 :: b.buf[i] == (i >= 6)
    ensures Indexable(b)
    ensures !At(Sweep(b, VisitOrder(b.width, b.Height())), Point(1, 0))
    ensures At(NextGeneration(b), Point(1, 0))
  {
    assert b.Height() == 3;
    var order := VisitOrder(b.width, b.Height());
    assert !At(Sweep(b, order[..2]), Point(1, 0)) by {
      OriginVisit(b);
      CountsFourAfterFirstVisit(b);
      FirstTwoVisits(b, Board(3, b.buf[0 := true]));
    }
    assert At(Sweep(b, order), Point(1, 0)) == At(Sweep(b, order[..2]), Point(1, 0)) by {
      forall j | 2 <= j < |order|
        ensures Remap(order[j], b.width, b.Height()) != Remap(Point(1, 0), b.width, b.Height())
      {
        LaterVisitMisses(b.width, b.Height(), j);
      }
      SweepSettlesAfterPrefix(b, order, 2, Point(1, 0));
    }
    assert At(NextGeneration(b), Point(1, 0)) by {
      BornOnBottomRow(b);
    }
  }

  /** On a 3 by 3 board, when the first visit of the sweep leaves `b1` and the rule keeps
      (1, 0) dead on `b1`, the first two visits leave (1, 0) dead. */
  lemma FirstTwoVisits(b: Board, b1: Board)
    requires b.width == 3 && |b.buf| == 9
    requires Indexable(b) && Update(b, Point(0, 0), CalcPx(b, Point(0, 0))) == b1
    requires Indexable(b1) && !CalcPx(b1, Point(1, 0))
    ensures !At(Sweep(b, VisitOrder(b.width, b.Height())[..2]), Point(1, 0))
  {
    assert b.Height() == 3;
    var order := VisitOrder(b.width, b.Height());
    VisitOrderVisits(b.width, b.Height(), 0, 0);
    VisitOrderVisits(b.width, b.Height(), 1, 0);
    SecondVisitOverwrites(b, order, b1);
  }

  /** When the second visit of a sweep finds its cell dead under the rule, on the board the
      first visit left, that cell is dead after both visits. */
  lemma SecondVisitOverwrites(b: Board, ps: seq<Point>, b1: Board)
    requires Indexable(b) && |ps| >= 2
    requires Update(b, ps[0], CalcPx(b, ps[0])) == b1
    requires !CalcPx(b1, ps[1])
    ensures !At(Sweep(b, ps[..2]), ps[1])
  {
    SweepTwo(b, ps);
    AtAfterUpdate(b1, ps[1], CalcPx(b1, ps[1]), ps[1]);
  }

  /** Sweeping the first two points of `ps` is two updates, each computed on the board the
      previous one left. */
  lemma SweepTwo(b: Board, ps: seq<Point>)
    requires Indexable(b) && |ps| >= 2
    ensures var b1 := Update(b, ps[0], CalcPx(b, ps[0]));
      Sweep(b, ps[..2]) == Update(b1, ps[1], CalcPx(b1, ps[1]))
  {
    SweepStep(b, ps, 0);
    SweepStep(b, ps, 1);
    assert ps[..0] == [];
  }

  /** The first visit on that board: (0, 0) has three live neighbours and is born. */
  lemma OriginVisit(b: Board)
    requires b.width == 3 && |b.buf| == 9
    requires forall i | 0 <= i < 9 :: b.buf[i] == (i >= 6)
    ensures Indexable(b) && Update(b, Point(0, 0), CalcPx(b, Point(0, 0))) == Board(3, b.buf[0 := true])
  {
    assert b.Height() == 3;
    OriginIsBorn(b);
    WriteOrigin(b, CalcPx(b, Point(0, 0)));
  }

  /** Writing `v` at (0, 0) of a 3 by 3 board sets the first buffer cell. */
  lemma WriteOrigin(b: Board, v: bool)
    requires b.width == 3 && |b.buf| == 9
    ensures Indexable(b) && Update(b, Point(0, 0), v) == Board(3, b.buf[0 := v])
  {
    assert b.Height() == 3;
    Write(b, Point(0, 0), v, 0, 0);
  }

  /** On a 3 by 3 board whose bottom row alone is alive, (1, 0) is dead with three live
      neighbours. */
  lemma BornOnBottomRow(b: Board)
    requires b.width == 3 && |b.buf| == 9
    requires forall i | 0 <= i < 9 :: b.buf[i] == (i >= 6)
    ensures Indexable(b) && !At(b, Point(1, 0)) && CountTrue(Neighbors(b, Point(1, 0))) == 3
  {
    assert b.Height() == 3;
    ReadAt(b, Point(1, 0), 1, 0);
    ReadAt(b, Point(2, 0), 2, 0);
    ReadAt(b, Point(0, 0), 0, 0);
    ReadAt(b, Point(1, 1), 1, 1);
    ReadAt(b, Point(1, -1), 1, 2);
    ReadAt(b, Point(2, -1), 2, 2);
    ReadAt(b, Point(2, 1), 2, 1);
    ReadAt(b, Point(0, 1), 0, 1);
    ReadAt(b, Point(0, -1), 0, 2);
    NeighborsAre(b, Point(1, 0), [false, false, false, true, true, false, false, true]);
  }

  /** On a 3 by 3 board whose bottom row alone is alive, `calc_px` brings (0, 0) to life. */
  lemma OriginIsBorn(b: Board)
    requires b.width == 3 && |b.buf| == 9
    requires forall i | 0 <= i < 9 :: b.buf[i] == (i >= 6)
    ensures Indexable(b) && CalcPx(b, Point(0, 0))
  {
    assert b.Height() == 3;
    ReadAt(b, Point(0, 0), 0, 0);
    ReadAt(b, Point(1, 0), 1, 0);
    ReadAt(b, Point(-1, 0), 2, 0);
    ReadAt(b, Point(0, 1), 0, 1);
    ReadAt(b, Point(0, -1), 0, 2);
    ReadAt(b, Point(1, -1), 1, 2);
    ReadAt(b, Point(1, 1), 1, 1);
    ReadAt(b, Point(-1, 1), 2, 1);
    ReadAt(b, Point(-1, -1), 2, 2);
    NeighborsAre(b, Point(0, 0), [false, false, false, true, true, false, false, true]);
  }

  /** On the board the first visit leaves, (1, 0) counts four live neighbours, so `calc_px`
      keeps it dead. */
  lemma CountsFourAfterFirstVisit(b: Board)
    requires b.width == 3 && |b.buf| == 9
    requires forall i | 0 <= i < 9 :: b.buf[i] == (i >= 6)
    ensures Indexable(Board(3, b.buf[0 := true])) && !CalcPx(Board(3, b.buf[0 := true]), Point(1, 0))
  {
    var b1 := Board(3, b.buf[0 := true]);
    assert b1.Height() == 3;
    ReadAt(b1, Point(1, 0), 1, 0);
    ReadAt(b1, Point(2, 0), 2, 0);
    ReadAt(b1, Point(0, 0), 0, 0);
    ReadAt(b1, Point(1, 1), 1, 1);
    ReadAt(b1, Point(1, -1), 1, 2);
    ReadAt(b1, Point(2, -1), 2, 2);
    ReadAt(b1, Point(2, 1), 2, 1);
    ReadAt(b1, Point(0, 1), 0, 1);
    ReadAt(b1, Point(0, -1), 0, 2);
    NeighborsAre(b1, Point(1, 0), [false, true, false, true, true, false, false, true]);
  }

  /** On a 3 by 3 board no visit after the second one lands on (1, 0). */
  lemma LaterVisitMisses(w: nat, h: nat, j: nat)
    requires w == 3 && h == 3 && 2 <= j < |VisitOrder(w, h)|
    ensures Remap(VisitOrder(w, h)[j], w, h) != Remap(Point(1, 0), w, h)
  {
    VisitOrderAt(w, h, j);
    Decompose(j, h, w);
    var p := Point(j % h, j / h);
    assert Remap(p, w, h) == p;
    assert Remap(Point(1, 0), w, h) == Point(1, 0);
  }
}
