/** The unit tests of `src/gol.rs`, stated of the model. */
module GolExamples {
  import opened Gol

  /** `test_remap`: on a 10 by 10 board, (20, 0) lands inside the board, and (1, -2) wraps to
      (1, 8). */
  lemma RemapExamples()
    ensures var q := Remap(Point(20, 0), 10, 10); 10 * q.x + q.y < 100
    ensures Remap(Point(1, -2), 10, 10) == Point(1, 8)
  {
  }

  /** `test_slice_board`: on a 4 by 4 board whose only live cell is (1, 1), the 2 by 2 slice
      at (1, 1) is 2 wide and 2 high, and its origin is alive. */
  method SliceBoardExample() returns (sliced: Board)
    ensures sliced.width == 2 && Indexable(sliced) && sliced.Height() == 2
    ensures At(sliced, Point(0, 0))
  {
    var init := Board(4, seq(16, _ => false));
    var whole := Update(init, Point(1, 1), true);
    var sect := Mask(1, 1, 2, 2);
    sliced := Slice(whole, sect);
    SliceReadsWindow(whole, sect, sliced, 0, 0);
    AtAfterUpdate(init, Point(1, 1), true, Point(1, 1));
  }
}
