/** Row-major layout of a rectangular grid stored in a flat sequence.

    The board buffer, the transposed Braille block, the gathered sub-block of
    a glyph and the rendered frame body all use this layout: the cell at
    column `x`, row `y` of a `w`-wide grid sits at index `y * w + x`.
 */
module Grid {

  /** The element at column `x`, row `y` of the `w` by `h` row-major grid `s`. */
  function Cell<T>(s: seq<T>, w: nat, h: nat, x: nat, y: nat): T
    requires |s| == w * h && x < w && y < h
  {
    IndexBound(x, y, w, h);
    s[y * w + x]
  }

  /** The smaller of two naturals (`u32::min`). */
  function Min(a: nat, b: nat): (m: nat)
    ensures m <= a && m <= b && (m == a || m == b)
  {
    if a <= b then a else b
  }

  /** Distance between two naturals (`u32::abs_diff`). */
  function AbsDiff(a: nat, b: nat): (d: nat)
    ensures a + d == b || b + d == a
  {
    if a >= b then a - b else b - a
  }

  /** A product of a positive multiplier and a positive `w` is at least `w`. */
  lemma MulAtLeast(d: int, w: int)
    requires d >= 1 && w > 0
    ensures d * w >= w
  {
    var e := d - 1;
    assert e >= 0;
    assert e * w >= 0;
    assert d * w == e * w + w;
  }

  /** Euclidean division is unique: `q * w + r` with `0 <= r < w` has quotient `q` and remainder `r`. */
  lemma DivUnique(k: int, w: int, q: int, r: int)
    requires w > 0 && 0 <= r < w && k == q * w + r
    ensures k / w == q && k % w == r
  {
    var q0, r0 := k / w, k % w;
    assert k == q0 * w + r0 && 0 <= r0 < w;
    var d := q0 - q;
    assert d * w == q0 * w - q * w;
    assert d * w == r - r0;
    if d >= 1 {
      MulAtLeast(d, w);
    } else if d <= -1 {
      MulAtLeast(-d, w);
    }
  }

  /** A flat index `y * w + x` with `x < w` decomposes back into its row and column. */
  lemma DivMod(x: nat, y: nat, w: nat)
    requires x < w
    ensures (y * w + x) / w == y
    ensures (y * w + x) % w == x
  {
    DivUnique(y * w + x, w, y, x);
  }

  /** The flat index of a cell of a `w` by `h` grid is below `w * h`. */
  lemma IndexBound(x: nat, y: nat, w: nat, h: nat)
    requires x < w && y < h
    ensures y * w + x < w * h
  {
    MulAtLeast(h - y, w);
    assert (h - y) * w == h * w - y * w;
  }

  /** Every index below `w * h` is the flat index of a cell of the grid. */
  lemma Decompose(k: nat, w: nat, h: nat)
    requires k < w * h
    ensures w > 0 && k / w < h && k % w < w
    ensures (k / w) * w + k % w == k
  {
    assert w != 0;
    var q := k / w;
    if q >= h {
      MulAtLeast(q - h + 1, w);
    }
  }

  /** Two grids of the same shape with the same cells are the same sequence. */
  lemma CellsDetermine<T>(a: seq<T>, b: seq<T>, w: nat, h: nat)
    requires |a| == w * h && |b| == w * h
    requires forall x: nat, y: nat | x < w && y < h :: Cell(a, w, h, x, y) == Cell(b, w, h, x, y)
    ensures a == b
  {
    forall k | 0 <= k < |a|
      ensures a[k] == b[k]
    {
      Decompose(k, w, h);
      assert a[k] == Cell(a, w, h, k % w, k / w) && b[k] == Cell(b, w, h, k % w, k / w);
    }
  }

  /** Adding a multiple of `w` does not change the residue modulo `w`. */
  lemma ModShift(a: int, q: int, w: nat)
    requires w > 0
    ensures (a + q * w) % w == a % w
  {
    var q1 := a / w;
    assert a == q1 * w + a % w;
    assert a + q * w == (q1 + q) * w + a % w;
    DivUnique(a + q * w, w, q1 + q, a % w);
  }

  /** Reducing an addend modulo `w` first does not change the residue of a sum. */
  lemma ModAdd(a: int, d: int, w: nat)
    requires w > 0
    ensures (a % w + d) % w == (a + d) % w
  {
    var q := a / w;
    assert a == q * w + a % w;
    assert a + d == (a % w + d) + q * w;
    ModShift(a % w + d, q, w);
  }
}
