/** The glyph encoders of `src/bgrid.rs`: a character set turns a small block of
    cells (row-major, `Scale()` wide and high) into one character.

    Braille packs the block into the eight dots of a character from U+2800 to
    U+28FF, Block uses the fifteen quadrant glyphs of the Block Elements range,
    None and Ascii show one cell per character. `Decode` reads the block back
    from a glyph; it is the partner against which `Encode` is proved.
 */
module Charsets {
  import opened Grid

  datatype Charset = Braille | Block | None | Ascii {

    /** `Charset::scale`: the width and height of the block one glyph stands for. */
    function Scale(): (s: (nat, nat))
      ensures s.0 > 0 && s.1 > 0
      ensures s.0 * s.1 <= 8
      ensures this == Braille <==> s.0 * s.1 == 8
      ensures this == Block <==> s == (2, 2)
    {
      match this
      case Braille => (2, 4)
      case Block => (2, 2)
      case None => (1, 1)
      case Ascii => (1, 1)
    }

    /** Number of cells in one block. */
    function Cells(): (n: nat)
      ensures n == Scale().0 * Scale().1
    {
      match this
      case Braille => 8
      case Block => 4
      case None => 1
      case Ascii => 1
    }
  }

  /** `2^n`. */
  function Pow2(n: nat): (p: nat)
    ensures p > 0
  {
    if n == 0 then 1 else 2 * Pow2(n - 1)
  }

  /** Bit `n` of `m`. */
  predicate Bit(m: nat, n: nat)
  {
    if n == 0 then m % 2 == 1 else Bit(m / 2, n - 1)
  }

  /** Zero has no bit set. */
  lemma {:induction false} NoBitOfZero(n: nat)
    ensures !Bit(0, n)
  {
    if n > 0 {
      NoBitOfZero(n - 1);
    }
  }

  /** The fold of `calc_braille_offset`: entry `n` of `bits` becomes bit `n` of the
      result. The bits are distinct, so their `|` is their sum. */
  function Pack(bits: seq<bool>): (m: nat)
    ensures m < Pow2(|bits|)
    ensures m == 0 <==> forall n | 0 <= n < |bits| :: !bits[n]
  {
    if |bits| == 0 then
      0
    else
      var rest := Pack(bits[1..]);
      assert forall n | 1 <= n < |bits| :: bits[n] == bits[1..][n - 1];
      (if bits[0] then 1 else 0) + 2 * rest
  }

  /** Reading bit `n` of the packed mask gives back entry `n`. */
  lemma {:induction false} PackBits(bits: seq<bool>, n: nat)
    requires n < |bits|
    ensures Bit(Pack(bits), n) == bits[n]
    decreases n
  {
    var m := Pack(bits);
    var rest := Pack(bits[1..]);
    assert m == (if bits[0] then 1 else 0) + 2 * rest;
    if n > 0 {
      assert m / 2 == rest;
      PackBits(bits[1..], n - 1);
    }
  }

  /** The `n` lowest bits of `m`, lowest first. */
  function Unpack(m: nat, n: nat): (bits: seq<bool>)
    ensures |bits| == n
    ensures forall i | 0 <= i < n :: bits[i] == Bit(m, i)
  {
    seq(n, i requires 0 <= i < n => Bit(m, i))
  }

  /** Unpacking a packed sequence gives it back. */
  lemma UnpackPack(bits: seq<bool>)
    ensures Unpack(Pack(bits), |bits|) == bits
  {
    forall n | 0 <= n < |bits|
      ensures Unpack(Pack(bits), |bits|)[n] == bits[n]
    {
      PackBits(bits, n);
    }
  }

  /** `transpose`: the `w` by `h` row-major block `v` read column by column, which is the
      row-major layout of its `h` by `w` transpose. */
  function Transpose<T>(v: seq<T>, w: nat, h: nat): (r: seq<T>)
    requires |v| == w * h
    ensures |r| == |v|
    ensures forall x: nat, y: nat | x < w && y < h :: Cell(r, h, w, y, x) == Cell(v, w, h, x, y)
  {
    var r := seq(w * h, k requires 0 <= k < w * h => TransposedEntry(v, w, h, k));
    forall x: nat, y: nat | x < w && y < h
      ensures Cell(r, h, w, y, x) == Cell(v, w, h, x, y)
    {
      TransposedCell(v, w, h, x, y);
    }
    r
  }

  /** Entry `k` of the transpose: column `k / h`, row `k % h` of `v`. */
  function TransposedEntry<T>(v: seq<T>, w: nat, h: nat, k: nat): T
    requires |v| == w * h && k < w * h
  {
    assert k < h * w;
    Decompose(k, h, w);
    Cell(v, w, h, k / h, k % h)
  }

  /** Cell (y, x) of the `h`-wide transpose is entry `x * h + y`, which reads cell (x, y). */
  lemma TransposedCell<T>(v: seq<T>, w: nat, h: nat, x: nat, y: nat)
    requires |v| == w * h && x < w && y < h
    ensures x * h + y < w * h
    ensures TransposedEntry(v, w, h, x * h + y) == Cell(v, w, h, x, y)
  {
    IndexBound(y, x, h, w);
    assert h * w == w * h;
    DivMod(y, x, h);
  }

  /** Transposing twice gives the block back. */
  lemma TransposeTwice<T>(v: seq<T>, w: nat, h: nat)
    requires |v| == w * h
    ensures Transpose(Transpose(v, w, h), h, w) == v
  {
    var t := Transpose(v, w, h);
    var r := Transpose(t, h, w);
    forall k | 0 <= k < |v|
      ensures r[k] == v[k]
    {
      Decompose(k, w, h);
      var x, y := k % w, k / w;
      assert Cell(r, w, h, x, y) == Cell(t, h, w, y, x) == Cell(v, w, h, x, y);
    }
  }

  /** Entry `n` of the Braille block as `transpose(alive, 2, 4)` orders it: column
      `n / 4`, row `n % 4`. */
  lemma TransposedBrailleEntry(alive: seq<bool>, n: nat)
    requires |alive| == 8 && n < 8
    ensures Transpose(alive, 2, 4)[n] == alive[(n % 4) * 2 + n / 4]
  {
    assert Transpose(alive, 2, 4)[n] == Cell(Transpose(alive, 2, 4), 4, 2, n % 4, n / 4);
  }

  /** The Braille block as `transpose(alive, 2, 4)` orders it: the left column top to bottom,
      then the right column. */
  lemma TransposeBraille(alive: seq<bool>)
    requires |alive| == 8
    ensures Transpose(alive, 2, 4) == [alive[0], alive[2], alive[4], alive[6], alive[1], alive[3], alive[5], alive[7]]
  {
    var t := Transpose(alive, 2, 4);
    forall n | 0 <= n < 8
      ensures t[n] == alive[(n % 4) * 2 + n / 4]
    {
      TransposedBrailleEntry(alive, n);
    }
  }

  /** `calc_braille_offset` as written: bit `n` is entry `n` of the transposed block, i.e.
      the cell in column `n / 4`, row `n % 4`. It fits the U+2800 block and is zero
      exactly for the empty block. */
  function TransposedMask(alive: seq<bool>): (m: nat)
    requires |alive| == 8
    ensures m < 256
    ensures m == 0 <==> forall i | 0 <= i < 8 :: !alive[i]
  {
    var t := Transpose(alive, 2, 4);
    TransposeBraille(alive);
    assert alive == [t[0], t[4], t[1], t[5], t[2], t[6], t[3], t[7]];
    Pack(t)
  }

  /** Bit `n` of the as-written mask shows the cell in column `n / 4`, row `n % 4`. */
  lemma TransposedMaskBits(alive: seq<bool>, n: nat)
    requires |alive| == 8 && n < 8
    ensures Bit(TransposedMask(alive), n) == alive[(n % 4) * 2 + n / 4]
  {
    PackBits(Transpose(alive, 2, 4), n);
    TransposedBrailleEntry(alive, n);
  }

  /** The Unicode Braille bit of the dot at column `x`, row `y` of the 2 by 4 cell: dots 1-3
      run down the left column (bits 0-2), dots 4-6 down the right (bits 3-5), and the
      bottom row holds dots 7 and 8 (bits 6 and 7). */
  function DotBit(x: nat, y: nat): (n: nat)
    requires x < 2 && y < 4
    ensures n < 8
  {
    if y < 3 then 3 * x + y else 6 + x
  }

  /** For each Braille bit, the row-major index of its cell in the 2 by 4 block. */
  const DotCell: seq<nat> := [0, 2, 4, 1, 3, 5, 6, 7]

  /** `DotCell` is the inverse of `DotBit`. */
  lemma DotCellInvertsDotBit()
    ensures forall n | 0 <= n < 8 :: DotCell[n] < 8 && DotBit(DotCell[n] % 2, DotCell[n] / 2) == n
    ensures forall x: nat, y: nat | x < 2 && y < 4 :: DotCell[DotBit(x, y)] == y * 2 + x
  {
  }

  /** The Braille mask in Unicode dot order: bit `DotBit(x, y)` is set exactly when cell
      (x, y) is alive. */
  function DotMask(alive: seq<bool>): (m: nat)
    requires |alive| == 8
    ensures m < 256
    ensures m == 0 <==> forall i | 0 <= i < 8 :: !alive[i]
  {
    DotCellInvertsDotBit();
    var bits := DotBits(alive);
    assert forall i | 0 <= i < 8 :: alive[i] == bits[DotBit(i % 2, i / 2)];
    Pack(bits)
  }

  /** The block's cells in Unicode dot order: entry `n` is the cell that dot bit `n` shows. */
  function DotBits(alive: seq<bool>): (bits: seq<bool>)
    requires |alive| == 8
    ensures |bits| == 8
  {
    seq(8, n requires 0 <= n < 8 => alive[DotCell[n]])
  }

  /** The corrected mask packs the left column's top three cells, then the right column's,
      then the bottom row. */
  lemma DotBitsOrder(alive: seq<bool>)
    requires |alive| == 8
    ensures DotBits(alive) == [alive[0], alive[2], alive[4], alive[1], alive[3], alive[5], alive[6], alive[7]]
  {
  }

  /** Every dot of the corrected mask shows its own cell. */
  lemma DotMaskBits(alive: seq<bool>, x: nat, y: nat)
    requires |alive| == 8 && x < 2 && y < 4
    ensures Bit(DotMask(alive), DotBit(x, y)) == alive[y * 2 + x]
  {
    DotCellInvertsDotBit();
    PackBits(DotBits(alive), DotBit(x, y));
  }

  /** The Braille character with dot mask `m`. */
  function BrailleChar(m: nat): (c: char)
    requires 0 < m < 256
    ensures 0x2801 <= c as int <= 0x28FF
  {
    (0x2800 + m) as char
  }

  /** `Charset::encode` for a block-quadrant glyph: the first matching line of the
      if-chain, in the source's order, from four cells TL, TR, BL, BR. Every non-empty
      pattern gets a character of the Block Elements range U+2580..U+259F, and only the
      empty one gets the background; `BlockRoundTrip` says which character. */
  function BlockGlyph(bg: char, tl: bool, tr: bool, bl: bool, br: bool): (c: char)
    ensures (tl || tr || bl || br) ==> 0x2580 <= c as int <= 0x259F
    ensures !(tl || tr || bl || br) ==> c == bg
  {
    if tl && tr && bl && br then '\U{2588}'
    else if tl && tr && bl then '\U{259B}'
    else if tl && tr && br then '\U{259C}'
    else if tl && bl && br then '\U{2599}'
    else if tr && bl && br then '\U{259F}'
    else if tl && tr then '\U{2580}'
    else if bl && br then '\U{2584}'
    else if tr && br then '\U{2590}'
    else if tl && bl then '\U{258C}'
    else if tl && br then '\U{259A}'
    else if tr && bl then '\U{259E}'
    else if tl then '\U{2598}'
    else if tr then '\U{259D}'
    else if bl then '\U{2596}'
    else if br then '\U{2597}'
    else bg
  }

  /** `Charset::encode` as written: the glyph for one block, or `bg` when every cell is
      dead. The Braille glyph is U+2800 plus the column-major `TransposedMask`; `Decode`
      reads the block back from it, and `Shows` says what the character displays. */
  function Encode(cs: Charset, bg: char, alive: seq<bool>): (c: char)
    requires |alive| == cs.Cells()
    ensures (forall i | 0 <= i < |alive| :: !alive[i]) ==> c == bg
  {
    match cs
    case Braille =>
      var m := TransposedMask(alive);
      if m == 0 then bg else BrailleChar(m)
    case Block =>
      BlockGlyph(bg, alive[0], alive[1], alive[2], alive[3])
    case None =>
      if alive[0] then ' ' else bg
    case Ascii =>
      if alive[0] then 'A' else bg
  }

  /** Decoding the glyph of a block with a live cell gives the block back: no two non-empty
      blocks share a glyph. */
  lemma EncodeRoundTrip(cs: Charset, bg: char, alive: seq<bool>)
    requires |alive| == cs.Cells() && exists i | 0 <= i < |alive| :: alive[i]
    ensures Decode(cs, Encode(cs, bg, alive)) == alive
  {
    match cs
    case Braille =>
      BrailleRoundTrip(bg, alive);
    case Block =>
      BlockRoundTrip(bg, alive);
    case None =>
    case Ascii =>
  }

  /** The as-written Braille glyph of a non-empty block decodes to the block. */
  lemma BrailleRoundTrip(bg: char, alive: seq<bool>)
    requires |alive| == 8 && exists i | 0 <= i < 8 :: alive[i]
    ensures Decode(Braille, Encode(Braille, bg, alive)) == alive
  {
    var m := TransposedMask(alive);
    var c := BrailleChar(m);
    assert Encode(Braille, bg, alive) == c;
    assert c as int - 0x2800 == m;
    assert Decode(Braille, c) == DecodeColumns(m);
    ColumnsRoundTrip(alive);
  }

  /** Unpacking the as-written mask column by column gives the block back. */
  lemma ColumnsRoundTrip(alive: seq<bool>)
    requires |alive| == 8
    ensures DecodeColumns(TransposedMask(alive)) == alive
  {
    UnpackPack(Transpose(alive, 2, 4));
    TransposeTwice(alive, 2, 4);
  }

  /** The block packed in an as-written Braille mask: its eight bits, lowest first, are the
      2 by 4 block read column by column, so transposing them back gives the block. */
  function DecodeColumns(m: nat): (r: seq<bool>)
    ensures |r| == 8
  {
    Transpose(Unpack(m, 8), 4, 2)
  }

  /** The block a Braille mask displays under Unicode's dot numbering: cell (x, y) is
      lit when its dot is set. */
  function DecodeBraille(m: nat): (r: seq<bool>)
    ensures |r| == 8
  {
    seq(8, i requires 0 <= i < 8 => Bit(m, DotBit(i % 2, i / 2)))
  }

  /** The block of four cells a quadrant glyph shows, or `[]` for any other character. */
  function DecodeBlock(c: char): (r: seq<bool>)
    ensures r == [] || |r| == 4
  {
    match c
    case '\U{2588}' => [true, true, true, true]
    case '\U{259B}' => [true, true, true, false]
    case '\U{259C}' => [true, true, false, true]
    case '\U{2599}' => [true, false, true, true]
    case '\U{259F}' => [false, true, true, true]
    case '\U{2580}' => [true, true, false, false]
    case '\U{2584}' => [false, false, true, true]
    case '\U{2590}' => [false, true, false, true]
    case '\U{258C}' => [true, false, true, false]
    case '\U{259A}' => [true, false, false, true]
    case '\U{259E}' => [false, true, true, false]
    case '\U{2598}' => [true, false, false, false]
    case '\U{259D}' => [false, true, false, false]
    case '\U{2596}' => [false, false, true, false]
    case '\U{2597}' => [false, false, false, true]
    case _ => []
  }

  /** The block the encoder of `cs` packed into `c`, or `[]` when `c` is no glyph of
      `cs`. */
  function Decode(cs: Charset, c: char): (r: seq<bool>)
    ensures r == [] || |r| == cs.Cells()
  {
    match cs
    case Braille =>
      if 0x2801 <= c as int <= 0x28FF then DecodeColumns(c as int - 0x2800) else []
    case Block => DecodeBlock(c)
    case None => if c == ' ' then [true] else []
    case Ascii => if c == 'A' then [true] else []
  }

  /** The block a glyph of `cs` displays on screen, or `[]` when `c` is no glyph of `cs`.
      Only Braille differs from `Decode`: its dots follow Unicode's numbering. */
  function Shows(cs: Charset, c: char): (r: seq<bool>)
    ensures cs != Braille ==> r == Decode(cs, c)
    ensures r == [] <==> Decode(cs, c) == []
  {
    if cs == Braille then
      if 0x2801 <= c as int <= 0x28FF then DecodeBraille(c as int - 0x2800) else []
    else
      Decode(cs, c)
  }

  /** The evidently intended encoder: as `Encode`, except that each live cell of a Braille
      block lights the dot Unicode draws at its place. */
  function EncodeShown(cs: Charset, bg: char, alive: seq<bool>): (c: char)
    requires |alive| == cs.Cells()
    ensures cs != Braille ==> c == Encode(cs, bg, alive)
    ensures (forall i | 0 <= i < |alive| :: !alive[i]) ==> c == bg
  {
    if cs == Braille then
      var m := DotMask(alive);
      if m == 0 then bg else BrailleChar(m)
    else
      Encode(cs, bg, alive)
  }

  /** The corrected encoder's glyph displays exactly the block it encodes. */
  lemma ShownRoundTrip(cs: Charset, bg: char, alive: seq<bool>)
    requires |alive| == cs.Cells() && exists i | 0 <= i < |alive| :: alive[i]
    ensures Shows(cs, EncodeShown(cs, bg, alive)) == alive
  {
    if cs == Braille {
      var m := DotMask(alive);
      assert BrailleChar(m) as int - 0x2800 == m;
      forall i | 0 <= i < 8
        ensures DecodeBraille(m)[i] == alive[i]
      {
        DotMaskBits(alive, i % 2, i / 2);
      }
    } else {
      EncodeRoundTrip(cs, bg, alive);
    }
  }

  /** What the as-written Braille glyph displays: the dot at cell (x, y) shows the cell in
      row `DotBit(x, y) % 4`, column `DotBit(x, y) / 4`. The two agree only on the left
      column's top three cells and on the bottom-right cell. */
  lemma EncodeShowsTransposedDots(bg: char, alive: seq<bool>, x: nat, y: nat)
    requires |alive| == 8 && exists i | 0 <= i < 8 :: alive[i]
    requires x < 2 && y < 4
    ensures Shows(Braille, Encode(Braille, bg, alive))[y * 2 + x]
      == alive[(DotBit(x, y) % 4) * 2 + DotBit(x, y) / 4]
  {
    var m := TransposedMask(alive);
    var c := BrailleChar(m);
    assert c as int - 0x2800 == m;
    assert Shows(Braille, Encode(Braille, bg, alive)) == DecodeBraille(m);
    DecodeBrailleAt(m, x, y);
    TransposedMaskBits(alive, DotBit(x, y));
  }

  /** Cell (x, y) of the displayed block is the dot Unicode numbers for it. */
  lemma DecodeBrailleAt(m: nat, x: nat, y: nat)
    requires x < 2 && y < 4
    ensures y * 2 + x < 8 && DecodeBraille(m)[y * 2 + x] == Bit(m, DotBit(x, y))
  {
    DivMod(x, y, 2);
  }

  /** Every non-empty quadrant block gets the glyph that shows it. */
  lemma BlockRoundTrip(bg: char, alive: seq<bool>)
    requires |alive| == 4
    ensures (exists i | 0 <= i < 4 :: alive[i]) ==>
      DecodeBlock(BlockGlyph(bg, alive[0], alive[1], alive[2], alive[3])) == alive
  {
    if exists i | 0 <= i < 4 :: alive[i] {
      assert alive == [alive[0], alive[1], alive[2], alive[3]];
    }
  }

  /** When the background is no glyph of `cs`, the encoder returns it exactly for the
      empty block. (With None and background ' ', live and dead cells look the same.) */
  lemma BackgroundIffEmpty(cs: Charset, bg: char, alive: seq<bool>)
    requires |alive| == cs.Cells() && Decode(cs, bg) == []
    ensures Encode(cs, bg, alive) == bg <==> forall i | 0 <= i < |alive| :: !alive[i]
  {
    if exists i | 0 <= i < |alive| :: alive[i] {
      EncodeRoundTrip(cs, bg, alive);
    }
  }

  /** Two non-empty blocks with the same glyph are the same block: in particular the fifteen
      non-empty quadrant blocks get fifteen different glyphs. */
  lemma EncodeIsInjective(cs: Charset, bg: char, a: seq<bool>, b: seq<bool>)
    requires |a| == cs.Cells() && |b| == cs.Cells()
    requires (exists i | 0 <= i < |a| :: a[i]) && (exists i | 0 <= i < |b| :: b[i])
    requires Encode(cs, bg, a) == Encode(cs, bg, b)
    ensures a == b
  {
    EncodeRoundTrip(cs, bg, a);
    EncodeRoundTrip(cs, bg, b);
  }

  /** No non-empty quadrant block is drawn as a space, whatever the background. */
  lemma BlockNeverBlank(bg: char, alive: seq<bool>)
    requires |alive| == 4 && exists i | 0 <= i < 4 :: alive[i]
    ensures Encode(Block, bg, alive) != ' '
  {
    EncodeRoundTrip(Block, bg, alive);
  }

  /** The quadrant cases of the unit tests, cells listed TL, TR, BL, BR. */
  lemma BlockExamples()
    ensures Encode(Block, ' ', [true, false, false, false]) == '\U{2598}'
    ensures Encode(Block, ' ', [true, false, false, true]) == '\U{259A}'
    ensures Encode(Block, ' ', [true, true, false, true]) == '\U{259C}'
    ensures Encode(Block, ' ', [true, false, true, true]) == '\U{2599}'
    ensures Encode(Block, ' ', [false, true, true, true]) == '\U{259F}'
    ensures Encode(Block, ' ', [false, false, false, false]) == ' '
  {
  }

  /** The Braille cases of the unit tests: the top-left cell alone is dot 1, and adding the
      cell below it adds dot 2. The corrected encoder agrees on both. */
  lemma BrailleExamples()
    ensures Encode(Braille, ' ', [true, false, false, false, false, false, false, false]) == '\U{2801}'
    ensures Encode(Braille, ' ', [true, false, true, false, false, false, false, false]) == '\U{2803}'
    ensures EncodeShown(Braille, ' ', [true, false, false, false, false, false, false, false]) == '\U{2801}'
    ensures EncodeShown(Braille, ' ', [true, false, true, false, false, false, false, false]) == '\U{2803}'
  {
    TopLeftDot([true, false, false, false, false, false, false, false]);
    TopLeftTwoDots([true, false, true, false, false, false, false, false]);
  }

  /** The top-left cell alone: dot 1 under both masks. */
  lemma TopLeftDot(one: seq<bool>)
    requires one == [true, false, false, false, false, false, false, false]
    ensures Encode(Braille, ' ', one) == '\U{2801}'
    ensures EncodeShown(Braille, ' ', one) == '\U{2801}'
  {
    TopLeftMasks(one);
    assert BrailleChar(1) == '\U{2801}';
  }

  /** Both masks of the top-left cell alone are bit 0. */
  lemma TopLeftMasks(one: seq<bool>)
    requires one == [true, false, false, false, false, false, false, false]
    ensures TransposedMask(one) == 1 && DotMask(one) == 1
  {
    assert DotMask(one) == 1 by {
      DotBitsOrder(one);
      assert DotBits(one) == [true, false, false, false, false, false, false, false];
      assert Pack([true, false, false, false, false, false, false, false]) == 1;
    }
    assert TransposedMask(one) == 1 by {
      TransposeBraille(one);
      assert Pack([true, false, false, false, false, false, false, false]) == 1;
    }
  }

  /** The two top cells of the left column: dots 1 and 2 under both masks. */
  lemma TopLeftTwoDots(two: seq<bool>)
    requires two == [true, false, true, false, false, false, false, false]
    ensures Encode(Braille, ' ', two) == '\U{2803}'
    ensures EncodeShown(Braille, ' ', two) == '\U{2803}'
  {
    TopLeftTwoMasks(two);
    assert BrailleChar(3) == '\U{2803}';
  }

  /** Both masks of the left column's two top cells are bits 0 and 1. */
  lemma TopLeftTwoMasks(two: seq<bool>)
    requires two == [true, false, true, false, false, false, false, false]
    ensures TransposedMask(two) == 3 && DotMask(two) == 3
  {
    assert DotMask(two) == 3 by {
      DotBitsOrder(two);
      assert DotBits(two) == [true, true, false, false, false, false, false, false];
      assert Pack([true, true, false, false, false, false, false, false]) == 3;
    }
    assert TransposedMask(two) == 3 by {
      TransposeBraille(two);
      assert Pack([true, true, false, false, false, false, false, false]) == 3;
    }
  }

  /** The as-written mask puts the bottom-left cell on bit 3, which Unicode draws as dot 4,
      top right: a block whose only live cell is bottom left is displayed as one whose only
      live cell is top right. The corrected encoder sets bit 6, Unicode's bottom-left dot 7. */
  lemma TransposedMaskMisplacesDots()
    ensures Encode(Braille, ' ', [false, false, false, false, false, false, true, false]) == '\U{2808}'
    ensures Shows(Braille, '\U{2808}') == [false, true, false, false, false, false, false, false]
    ensures EncodeShown(Braille, ' ', [false, false, false, false, false, false, true, false]) == '\U{2840}'
  {
    BottomLeftDot([false, false, false, false, false, false, true, false]);
  }

  /** The bottom-left cell alone: bit 3 (dot 4) as written, bit 6 (dot 7) corrected. */
  lemma BottomLeftDot(bl: seq<bool>)
    requires bl == [false, false, false, false, false, false, true, false]
    ensures Encode(Braille, ' ', bl) == '\U{2808}'
    ensures Shows(Braille, '\U{2808}') == [false, true, false, false, false, false, false, false]
    ensures EncodeShown(Braille, ' ', bl) == '\U{2840}'
  {
    TransposedMaskBottomLeft(bl);
    assert BrailleChar(0x08) == '\U{2808}';
    DotMaskBottomLeft(bl);
    assert BrailleChar(0x40) == '\U{2840}';
    DotFour();
  }

  /** The as-written mask of the bottom-left cell alone is bit 3. */
  lemma TransposedMaskBottomLeft(bl: seq<bool>)
    requires bl == [false, false, false, false, false, false, true, false]
    ensures TransposedMask(bl) == 0x08
  {
    TransposeBraille(bl);
    assert Pack([false, false, false, true, false, false, false, false]) == 0x08;
  }

  /** The corrected mask of the bottom-left cell alone is bit 6. */
  lemma DotMaskBottomLeft(bl: seq<bool>)
    requires bl == [false, false, false, false, false, false, true, false]
    ensures DotMask(bl) == 0x40
  {
    DotBitsOrder(bl);
    assert DotBits(bl) == [false, false, false, false, false, false, true, false];
    assert Pack([false, false, false, false, false, false, true, false]) == 0x40;
  }

  /** The character with mask 0x08 displays the top-right cell alone. */
  lemma DotFour()
    ensures Shows(Braille, '\U{2808}') == [false, true, false, false, false, false, false, false]
  {
    assert '\U{2808}' as int - 0x2800 == 0x08;
    assert Bit(1, 0);
    forall n | 0 <= n < 8
      ensures Bit(0x08, n) == (n == 3)
    {
      if n >= 1 { assert Bit(0x08, n) == Bit(4, n - 1); }
      if n >= 2 { assert Bit(4, n - 1) == Bit(2, n - 2); }
      if n >= 3 { assert Bit(2, n - 2) == Bit(1, n - 3); }
      if n >= 4 { assert Bit(1, n - 3) == Bit(0, n - 4); NoBitOfZero(n - 4); }
    }
    assert DecodeBraille(0x08) == [false, true, false, false, false, false, false, false];
  }

  /** The transpose example of the unit tests: a 2 by 3 block read column by column. */
  lemma TransposeExample()
    ensures Transpose([0, 0, 1, 1, 2, 2], 2, 3) == [0, 1, 2, 0, 1, 2]
  {
    var r := Transpose([0, 0, 1, 1, 2, 2], 2, 3);
    assert r[0] == Cell(r, 3, 2, 0, 0);
    assert r[1] == Cell(r, 3, 2, 1, 0);
    assert r[2] == Cell(r, 3, 2, 2, 0);
    assert r[3] == Cell(r, 3, 2, 0, 1);
    assert r[4] == Cell(r, 3, 2, 1, 1);
    assert r[5] == Cell(r, 3, 2, 2, 1);
  }
}
