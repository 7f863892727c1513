/**
 The pyramid of the duplicate detector: the image scaled to all sizes 2^c by 2^r in one table,
 and the walks through two blocks that compare them under the symmetries of the square.
 */
module DupPyramid {
  import opened Powers

  // ----- addresses -----

  /** The size in bytes of the block of 2^col by 2^row pixels. */
  function Size(col: nat, row: nat): nat {
    3 * Pow2(row + col)
  }

  /** Where the block is, in a table whose widest blocks have 2^cols columns. */
  function Place(cols: nat, col: nat, row: nat): nat {
    6 * Pow2(cols) * Pow2(row) + 3 * Pow2(row + col)
  }

  /** The size of the whole table. */
  function TableSize(cols: nat, rows: nat): nat {
    12 * Pow2(cols + rows)
  }

  /** The place is aligned with powers of two: it starts after all narrower blocks of its row. */
  lemma PlaceIs(cols: nat, col: nat, row: nat)
    ensures Place(cols, col, row) == 6 * Pow2(cols + row) + Size(col, row)
  {
    Pow2Add(cols, row);
  }

  /** Blocks of a row follow each other. */
  lemma NextInRow(cols: nat, col: nat, row: nat)
    ensures Place(cols, col + 1, row) == Place(cols, col, row) + Size(col, row)
  {
    PlaceIs(cols, col, row);
    PlaceIs(cols, col + 1, row);
  }

  lemma RowBounds(cols: nat, col: nat, row: nat)
    requires col <= cols
    ensures 6 * Pow2(cols + row) <= Place(cols, col, row)
    ensures Place(cols, col, row) + Size(col, row) <= 12 * Pow2(cols + row)
  {
    PlaceIs(cols, col, row);
    Pow2Monotonic(row + col, cols + row);
  }

  /** Every block is inside of the table. */
  lemma InTable(cols: nat, rows: nat, col: nat, row: nat)
    requires col <= cols && row <= rows
    ensures Place(cols, col, row) + Size(col, row) <= TableSize(cols, rows)
  {
    RowBounds(cols, col, row);
    Pow2Monotonic(cols + row, cols + rows);
  }

  /** The largest block ends with the table. */
  lemma LastBlock(cols: nat, rows: nat)
    ensures Place(cols, cols, rows) + Size(cols, rows) == TableSize(cols, rows)
  {
    PlaceIs(cols, cols, rows);
  }

  predicate Apart(a: nat, n: nat, b: nat, m: nat) {
    a + n <= b || b + m <= a
  }

  /** Different blocks do not overlap. */
  lemma Disjoint(cols: nat, col: nat, row: nat, col': nat, row': nat)
    requires col <= cols && col' <= cols && (col != col' || row != row')
    ensures Apart(Place(cols, col, row), Size(col, row), Place(cols, col', row'), Size(col', row'))
  {
    if row == row' {
      SameRow(cols, if col < col' then col else col', if col < col' then col' else col, row);
    } else {
      RowBounds(cols, col, row);
      RowBounds(cols, col', row');
      if row < row' {
        Pow2Monotonic(cols + row + 1, cols + row');
      } else {
        Pow2Monotonic(cols + row' + 1, cols + row);
      }
    }
  }

  lemma {:induction false} SameRow(cols: nat, col: nat, col': nat, row: nat)
    requires col < col'
    ensures Place(cols, col, row) + Size(col, row) <= Place(cols, col', row)
    decreases col'
  {
    NextInRow(cols, col' - 1, row);
    if col < col' - 1 {
      SameRow(cols, col, col' - 1, row);
    }
  }

  // ----- walks -----

  /** A pixel of a block of the given width. */
  function Address(width: nat, x: nat, y: nat): nat {
    3 * (y * width + x)
  }

  /** The starting point and the steps of a walk through a block of rows * cols pixels, for each
      transformation; from the fourth on the block is transposed. */
  function StartOf(trans: nat, cols: nat, rows: nat): int {
    match trans
    case 1 => 3 * cols - 3
    case 2 => 3 * (cols * rows) - 3 * cols
    case 3 => 3 * (cols * rows) - 3
    case 5 => 3 * (cols * rows) - 3 * rows
    case 6 => 3 * rows - 3
    case 7 => 3 * (cols * rows) - 3
    case _ => 0
  }

  function ColStep(trans: nat, rows: nat): int {
    match trans
    case 1 => -3
    case 3 => -3
    case 4 => 3 * rows
    case 5 => -3 * rows
    case 6 => 3 * rows
    case 7 => -3 * rows
    case _ => 3
  }

  function RowStep(trans: nat, cols: nat): int {
    match trans
    case 2 => -3 * cols
    case 3 => -3 * cols
    case 4 => 3
    case 5 => 3
    case 6 => -3
    case 7 => -3
    case _ => 3 * cols
  }

  /** The pixel of the second block that pixel (x, y) of the first is compared with. */
  function Image(trans: nat, cols: nat, rows: nat, x: nat, y: nat): (p: (nat, nat))
    requires x < cols && y < rows
  {
    match trans
    case 1 => (cols - 1 - x, y)
    case 2 => (x, rows - 1 - y)
    case 3 => (cols - 1 - x, rows - 1 - y)
    case 4 => (y, x)
    case 5 => (y, cols - 1 - x)
    case 6 => (rows - 1 - y, x)
    case 7 => (rows - 1 - y, cols - 1 - x)
    case _ => (x, y)
  }

  /** Which symmetries these are: 1 turns left and right, 2 turns top and bottom, 3 is both of them, 4
      exchanges the coordinates, and the others are the first three followed by that. */
  lemma Symmetries(cols: nat, rows: nat, x: nat, y: nat)
    requires x < cols && y < rows
    ensures Image(0, cols, rows, x, y) == (x, y) && Image(4, cols, rows, x, y) == (y, x)
    ensures x + Image(1, cols, rows, x, y).0 == cols - 1 && Image(1, cols, rows, x, y).1 == y
    ensures Image(2, cols, rows, x, y).0 == x && y + Image(2, cols, rows, x, y).1 == rows - 1
    ensures var p := Image(1, cols, rows, x, y); Image(3, cols, rows, x, y) == Image(2, cols, rows, p.0, p.1)
    ensures var p := Image(1, cols, rows, x, y); Image(5, cols, rows, x, y) == Image(4, cols, rows, p.0, p.1)
    ensures var p := Image(2, cols, rows, x, y); Image(6, cols, rows, x, y) == Image(4, cols, rows, p.0, p.1)
    ensures var p := Image(3, cols, rows, x, y); Image(7, cols, rows, x, y) == Image(4, cols, rows, p.0, p.1)
  {
  }

  /** The dimensions of the second block. */
  function Width(trans: nat, cols: nat, rows: nat): nat { if trans < 4 then cols else rows }
  function Height(trans: nat, cols: nat, rows: nat): nat { if trans < 4 then rows else cols }

  /** The transformation that leads back. */
  function Inverse(trans: nat): nat {
    if trans == 5 then 6 else if trans == 6 then 5 else trans
  }

  lemma Flip(n: nat, w: nat, k: nat)
    requires k < n
    ensures (n - 1 - k) * w == n * w - w - k * w
  {
  }

  lemma Thrice(x: nat, w: nat)
    ensures x * (3 * w) == 3 * (x * w) && x * (-3 * w) == -(3 * (x * w))
  {
  }

  lemma ImageInside(trans: nat, cols: nat, rows: nat, x: nat, y: nat)
    requires x < cols && y < rows && trans < 8
    ensures var p := Image(trans, cols, rows, x, y);
            p.0 < Width(trans, cols, rows) && p.1 < Height(trans, cols, rows)
  {
  }

  /** The walk is at the image of the pixel. */
  lemma WalkAt(trans: nat, cols: nat, rows: nat, x: nat, y: nat)
    requires trans < 8 && x < cols && y < rows
    ensures var p := Image(trans, cols, rows, x, y);
            StartOf(trans, cols, rows) + x * ColStep(trans, rows) + y * RowStep(trans, cols) ==
            Address(Width(trans, cols, rows), p.0, p.1)
  {
    Thrice(x, rows);
    Thrice(y, cols);
    if trans < 4 {
      Flip(rows, cols, y);
      Swap(rows, cols);
    } else {
      Flip(cols, rows, x);
    }
  }

  lemma Swap(a: nat, b: nat)
    ensures a * b == b * a
  {
  }

  /** Each pixel of the second block is the image of exactly one pixel. */
  lemma WalkOnce(trans: nat, cols: nat, rows: nat, x: nat, y: nat)
    requires trans < 8 && x < Width(trans, cols, rows) && y < Height(trans, cols, rows)
    ensures var p := Image(Inverse(trans), Width(trans, cols, rows), Height(trans, cols, rows), x, y);
            && p.0 < cols && p.1 < rows && Image(trans, cols, rows, p.0, p.1) == (x, y)
            && forall q: (nat, nat) ::
                 q.0 < cols && q.1 < rows && Image(trans, cols, rows, q.0, q.1) == (x, y) ==> q == p
  {
  }

  lemma InBlock(width: nat, height: nat, x: nat, y: nat)
    requires x < width && y < height
    ensures Address(width, x, y) + 3 <= 3 * (width * height)
  {
    Times(width, y + 1, height);
  }

  function Err(a: Byte, b: Byte): (e: int)
    ensures a >= b ==> forall d: int :: a == b + d ==> e == d * d
    ensures a <= b ==> forall d: int :: b == a + d ==> e == d * d
  {
    var x: int, y: int := a, b;
    (x - y) * (x - y)
  }

  /** The error of two pixels. */
  function PixelError(b1: seq<Byte>, p1: int, b2: seq<Byte>, p2: int): int
    requires 0 <= p1 && p1 + 3 <= |b1| && 0 <= p2 && p2 + 3 <= |b2|
  {
    Err(b1[p1], b2[p2]) + Err(b1[p1 + 1], b2[p2 + 1]) + Err(b1[p1 + 2], b2[p2 + 2])
  }

  /** Two blocks of as many pixels. */
  ghost predicate Blocks(b1: seq<Byte>, b2: seq<Byte>, cols: nat, rows: nat) {
    |b1| == |b2| == 3 * (cols * rows)
  }

  lemma PixelsInside(b1: seq<Byte>, b2: seq<Byte>, trans: nat, cols: nat, rows: nat, x: nat, y: nat)
    requires Blocks(b1, b2, cols, rows) && trans < 8 && x < cols && y < rows
    ensures var p := Image(trans, cols, rows, x, y);
            && Address(cols, x, y) + 3 <= |b1|
            && Address(Width(trans, cols, rows), p.0, p.1) + 3 <= |b2|
  {
    ImageInside(trans, cols, rows, x, y);
    var p := Image(trans, cols, rows, x, y);
    InBlock(cols, rows, x, y);
    InBlock(Width(trans, cols, rows), Height(trans, cols, rows), p.0, p.1);
    Swap(rows, cols);
  }

  /** The error of a pixel and its image. */
  ghost function ErrorAt(b1: seq<Byte>, b2: seq<Byte>, trans: nat, cols: nat, rows: nat, x: nat, y: nat): int
    requires Blocks(b1, b2, cols, rows) && trans < 8 && x < cols && y < rows
  {
    PixelsInside(b1, b2, trans, cols, rows, x, y);
    var p := Image(trans, cols, rows, x, y);
    PixelError(b1, Address(cols, x, y), b2, Address(Width(trans, cols, rows), p.0, p.1))
  }

  /** The error of the first n pixels of a row. */
  ghost function RowError(b1: seq<Byte>, b2: seq<Byte>, trans: nat, cols: nat, rows: nat, y: nat, n: nat): int
    requires Blocks(b1, b2, cols, rows) && trans < 8 && y < rows && n <= cols
  {
    if n == 0 then 0
    else RowError(b1, b2, trans, cols, rows, y, n - 1) + ErrorAt(b1, b2, trans, cols, rows, n - 1, y)
  }

  /** The error of the first n rows. */
  ghost function TotalError(b1: seq<Byte>, b2: seq<Byte>, trans: nat, cols: nat, rows: nat, n: nat): int
    requires Blocks(b1, b2, cols, rows) && trans < 8 && n <= rows
  {
    if n == 0 then 0
    else TotalError(b1, b2, trans, cols, rows, n - 1) + RowError(b1, b2, trans, cols, rows, n - 1, cols)
  }

  /** The same as it is added up: the error of a row in 32 bits, that of all rows in 64. */
  ghost function WrappedError(b1: seq<Byte>, b2: seq<Byte>, trans: nat, cols: nat, rows: nat, n: nat): Long
    requires Blocks(b1, b2, cols, rows) && trans < 8 && n <= rows
  {
    if n == 0 then 0
    else WrapLong(WrappedError(b1, b2, trans, cols, rows, n - 1)
                  + WrapWord(RowError(b1, b2, trans, cols, rows, n - 1, cols)))
  }

  function WrapWord(x: int): Word { x % 0x1_0000_0000 }
  function WrapLong(x: int): Long { x % 0x1_0000_0000_0000_0000 }

  lemma WrapSum(x: int, y: int)
    ensures WrapWord(WrapWord(x) + y) == WrapWord(x + y)
  {
  }

  lemma SmallErr(a: Byte, b: Byte)
    ensures 0 <= Err(a, b) <= 65025
  {
    var x: int := a;
    SmallDifference(x - b);
  }

  lemma SmallError(b1: seq<Byte>, p1: nat, b2: seq<Byte>, p2: nat)
    requires p1 + 3 <= |b1| && p2 + 3 <= |b2|
    ensures 0 <= PixelError(b1, p1, b2, p2) <= 195075
  {
    hide Err;
    SmallErr(b1[p1], b2[p2]);
    SmallErr(b1[p1 + 1], b2[p2 + 1]);
    SmallErr(b1[p1 + 2], b2[p2 + 2]);
  }

  // ----- no error -----

  /** The same colours at both places. */
  predicate SameAt(b1: seq<Byte>, p1: nat, b2: seq<Byte>, p2: nat) {
    p1 + 3 <= |b1| && p2 + 3 <= |b2| && b1[p1..p1 + 3] == b2[p2..p2 + 3]
  }

  /** The second block is the image of the first one. */
  ghost predicate IsImage(b1: seq<Byte>, b2: seq<Byte>, trans: nat, cols: nat, rows: nat)
    requires trans < 8
  {
    forall x, y :: 0 <= x < cols && 0 <= y < rows ==> ImageAt(b1, b2, trans, cols, rows, x, y)
  }

  ghost predicate ImageAt(b1: seq<Byte>, b2: seq<Byte>, trans: nat, cols: nat, rows: nat, x: nat, y: nat)
    requires trans < 8 && x < cols && y < rows
  {
    var p := Image(trans, cols, rows, x, y);
    SameAt(b1, Address(cols, x, y), b2, Address(Width(trans, cols, rows), p.0, p.1))
  }

  lemma SameErr(a: Byte, b: Byte)
    ensures Err(a, b) == 0 <==> a == b
  {
    var x: int, y: int := a, b;
    assert x != y ==> (x - y) * (x - y) > 0;
  }

  lemma SamePixel(b1: seq<Byte>, p1: nat, b2: seq<Byte>, p2: nat)
    requires p1 + 3 <= |b1| && p2 + 3 <= |b2|
    ensures PixelError(b1, p1, b2, p2) == 0 <==> SameAt(b1, p1, b2, p2)
  {
    SmallErr(b1[p1], b2[p2]);
    SmallErr(b1[p1 + 1], b2[p2 + 1]);
    SmallErr(b1[p1 + 2], b2[p2 + 2]);
    SameErr(b1[p1], b2[p2]);
    SameErr(b1[p1 + 1], b2[p2 + 1]);
    SameErr(b1[p1 + 2], b2[p2 + 2]);
    hide Err;
    var s, t := b1[p1..p1 + 3], b2[p2..p2 + 3];
    assert s[0] == b1[p1] && s[1] == b1[p1 + 1] && s[2] == b1[p1 + 2];
    assert t[0] == b2[p2] && t[1] == b2[p2 + 1] && t[2] == b2[p2 + 2];
  }

  lemma ImagePixel(b1: seq<Byte>, b2: seq<Byte>, trans: nat, cols: nat, rows: nat, x: nat, y: nat)
    requires Blocks(b1, b2, cols, rows) && trans < 8 && x < cols && y < rows
    ensures ErrorAt(b1, b2, trans, cols, rows, x, y) >= 0
    ensures ErrorAt(b1, b2, trans, cols, rows, x, y) == 0 <==> ImageAt(b1, b2, trans, cols, rows, x, y)
  {
    hide PixelError, Address, Image, Width, SameAt;
    PixelsInside(b1, b2, trans, cols, rows, x, y);
    var p := Image(trans, cols, rows, x, y);
    SmallError(b1, Address(cols, x, y), b2, Address(Width(trans, cols, rows), p.0, p.1));
    SamePixel(b1, Address(cols, x, y), b2, Address(Width(trans, cols, rows), p.0, p.1));
  }

  lemma {:induction false} ImageRow(b1: seq<Byte>, b2: seq<Byte>, trans: nat, cols: nat, rows: nat, y: nat, n: nat)
    requires Blocks(b1, b2, cols, rows) && trans < 8 && y < rows && n <= cols
    ensures RowError(b1, b2, trans, cols, rows, y, n) >= 0
    ensures RowError(b1, b2, trans, cols, rows, y, n) == 0 <==>
            forall x :: 0 <= x < n ==> ImageAt(b1, b2, trans, cols, rows, x, y)
  {
    hide ErrorAt, ImageAt;
    if n > 0 {
      ImageRow(b1, b2, trans, cols, rows, y, n - 1);
      ImagePixel(b1, b2, trans, cols, rows, n - 1, y);
    }
  }

  lemma {:induction false} ImageRows(b1: seq<Byte>, b2: seq<Byte>, trans: nat, cols: nat, rows: nat, n: nat)
    requires Blocks(b1, b2, cols, rows) && trans < 8 && n <= rows
    ensures TotalError(b1, b2, trans, cols, rows, n) >= 0
    ensures TotalError(b1, b2, trans, cols, rows, n) == 0 <==>
            forall x, y :: 0 <= x < cols && 0 <= y < n ==> ImageAt(b1, b2, trans, cols, rows, x, y)
  {
    hide RowError, ImageAt;
    if n > 0 {
      ImageRows(b1, b2, trans, cols, rows, n - 1);
      ImageRow(b1, b2, trans, cols, rows, n - 1, cols);
    }
  }

  /** There is no error exactly if the second block is the image of the first one. */
  lemma NoErrorIff(b1: seq<Byte>, b2: seq<Byte>, trans: nat, cols: nat, rows: nat)
    requires Blocks(b1, b2, cols, rows) && trans < 8
    ensures TotalError(b1, b2, trans, cols, rows, rows) == 0 <==> IsImage(b1, b2, trans, cols, rows)
  {
    hide TotalError, ImageAt;
    ImageRows(b1, b2, trans, cols, rows, rows);
  }

  lemma {:induction false} RowBound(b1: seq<Byte>, b2: seq<Byte>, trans: nat, cols: nat, rows: nat, y: nat, n: nat)
    requires Blocks(b1, b2, cols, rows) && trans < 8 && y < rows && n <= cols
    ensures 0 <= RowError(b1, b2, trans, cols, rows, y, n) <= 195075 * n
  {
    hide Image, Width, Address, PixelError;
    if n > 0 {
      RowBound(b1, b2, trans, cols, rows, y, n - 1);
      PixelsInside(b1, b2, trans, cols, rows, n - 1, y);
      var p := Image(trans, cols, rows, n - 1, y);
      SmallError(b1, Address(cols, n - 1, y), b2, Address(Width(trans, cols, rows), p.0, p.1));
    }
  }

  /** No row of up to 22017 pixels overflows, so the sum is exact. */
  lemma {:induction false} NoWrap(b1: seq<Byte>, b2: seq<Byte>, trans: nat, cols: nat, rows: nat, n: nat)
    requires Blocks(b1, b2, cols, rows) && trans < 8 && n <= rows && cols <= 22017 && rows < 0x1_0000_0000
    ensures WrappedError(b1, b2, trans, cols, rows, n) == TotalError(b1, b2, trans, cols, rows, n)
    ensures TotalError(b1, b2, trans, cols, rows, n) <= 0xffff_ffff * n
  {
    hide RowError, Blocks;
    if n > 0 {
      NoWrap(b1, b2, trans, cols, rows, n - 1);
      RowBound(b1, b2, trans, cols, rows, n - 1, cols);
    }
  }

  /** Walks through both blocks: every read is inside of its block, and each pixel is compared
      with its image under the transformation. In rows of up to 22017 pixels nothing overflows. */
  method ErrSumTransformed(b1: seq<Byte>, b2: seq<Byte>, trans: nat, cols: Word, rows: Word) returns (sum: Long)
    requires Blocks(b1, b2, cols, rows) && trans < 8
    ensures sum == WrappedError(b1, b2, trans, cols, rows, rows)
    ensures cols <= 22017 ==> sum == TotalError(b1, b2, trans, cols, rows, rows)
  {
    hide StartOf, ColStep, RowStep, Image, Width, ErrorAt, PixelError, WrapWord, WrapLong;
    sum := 0;
    var pos1, pos2, y := 0, StartOf(trans, cols, rows), 0;
    var colStep, rowStep := ColStep(trans, rows), RowStep(trans, cols);
    while y < rows
      invariant 0 <= y <= rows && sum == WrappedError(b1, b2, trans, cols, rows, y)
      invariant pos1 == 3 * (y * cols) && pos2 == StartOf(trans, cols, rows) + y * rowStep
    {
      var p1, p2, e, x := pos1, pos2, WrapWord(0), 0;
      while x < cols
        invariant 0 <= x <= cols && e == WrapWord(RowError(b1, b2, trans, cols, rows, y, x))
        invariant p1 == pos1 + 3 * x && p2 == pos2 + x * colStep
      {
        At(b1, b2, trans, cols, rows, x, y, p1, p2);
        WrapSum(RowError(b1, b2, trans, cols, rows, y, x), PixelError(b1, p1, b2, p2));
        e := WrapWord(e + PixelError(b1, p1, b2, p2));
        Step(x, colStep);
        p1 := p1 + 3;
        p2 := p2 + colStep;
        x := x + 1;
      }
      Step(y, cols);
      Step(y, rowStep);
      pos1 := pos1 + 3 * cols;
      pos2 := pos2 + rowStep;
      sum := WrapLong(sum + e);
      y := y + 1;
    }
    if cols <= 22017 {
      NoWrap(b1, b2, trans, cols, rows, rows);
    }
  }

  lemma Step(n: nat, d: int)
    ensures (n + 1) * d == n * d + d
  {
  }

  lemma At(b1: seq<Byte>, b2: seq<Byte>, trans: nat, cols: nat, rows: nat, x: nat, y: nat, p1: int, p2: int)
    requires Blocks(b1, b2, cols, rows) && trans < 8 && x < cols && y < rows
    requires p1 == 3 * (y * cols) + 3 * x
    requires p2 == StartOf(trans, cols, rows) + y * RowStep(trans, cols) + x * ColStep(trans, rows)
    ensures 0 <= p1 && p1 + 3 <= |b1| && 0 <= p2 && p2 + 3 <= |b2|
    ensures PixelError(b1, p1, b2, p2) == ErrorAt(b1, b2, trans, cols, rows, x, y)
  {
    hide StartOf, ColStep, RowStep, Image, Width, PixelError;
    WalkAt(trans, cols, rows, x, y);
    PixelsInside(b1, b2, trans, cols, rows, x, y);
  }
}
