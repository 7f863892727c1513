/**
 Filling the pyramid of the duplicate detector: each block is averaged from the next larger one
 that is already complete, in place in one table.
 */
module DupBuild {
  import opened Powers
  import opened DupPyramid

  type Rgb = (Byte, Byte, Byte)

  /** The pixel at an address of the table. */
  function Pixel(tab: seq<Byte>, at: nat): Rgb {
    if at + 3 <= |tab| then (tab[at], tab[at + 1], tab[at + 2]) else (0, 0, 0)
  }

  /** Twice the mean is the sum or one less. */
  function Mean(a: Byte, b: Byte): (m: Byte)
    ensures 2 * (m as int) <= a + b <= 2 * (m as int) + 1
  {
    var s: int := a + b;
    s / 2
  }

  function Average(p: Rgb, q: Rgb): Rgb {
    (Mean(p.0, q.0), Mean(p.1, q.1), Mean(p.2, q.2))
  }

  /** The block of w * h pixels at d has half the width of the block at s. */
  ghost predicate Narrowed(tab: seq<Byte>, d: nat, s: nat, w: nat, h: nat) {
    forall x, y :: 0 <= x < w && 0 <= y < h ==>
      Pixel(tab, d + Address(w, x, y)) ==
      Average(Pixel(tab, s + Address(2 * w, 2 * x, y)), Pixel(tab, s + Address(2 * w, 2 * x + 1, y)))
  }

  /** The block of w * h pixels at d has half the height of the block at s. */
  ghost predicate Lowered(tab: seq<Byte>, d: nat, s: nat, w: nat, h: nat) {
    forall x, y :: 0 <= x < w && 0 <= y < h ==>
      Pixel(tab, d + Address(w, x, y)) ==
      Average(Pixel(tab, s + Address(w, x, 2 * y)), Pixel(tab, s + Address(w, x, 2 * y + 1)))
  }

  /** Nothing has changed from `a` up to n bytes further. */
  ghost predicate Kept(before: seq<Byte>, tab: seq<Byte>, a: nat, n: nat) {
    |before| == |tab| && a + n <= |tab| && tab[a..a + n] == before[a..a + n]
  }

  /** Nothing has changed except between d and d + n. */
  ghost predicate Only(before: seq<Byte>, tab: seq<Byte>, d: nat, n: nat) {
    |before| == |tab| && d + n <= |tab| && tab[..d] == before[..d] && tab[d + n..] == before[d + n..]
  }

  lemma KeptPixel(before: seq<Byte>, tab: seq<Byte>, a: nat, n: nat, at: nat)
    requires Kept(before, tab, a, n) && a <= at && at + 3 <= a + n
    ensures Pixel(tab, at) == Pixel(before, at)
  {
    assert tab[at] == tab[a..a + n][at - a] && tab[at + 1] == tab[a..a + n][at + 1 - a];
    assert tab[at + 2] == tab[a..a + n][at + 2 - a];
  }

  lemma OnlyKeeps(before: seq<Byte>, tab: seq<Byte>, d: nat, n: nat, a: nat, m: nat)
    requires Only(before, tab, d, n) && a + m <= |tab| && Apart(d, n, a, m)
    ensures Kept(before, tab, a, m)
  {
    if a + m <= d {
      assert tab[a..a + m] == tab[..d][a..a + m];
      assert before[a..a + m] == before[..d][a..a + m];
    } else {
      forall k | a <= k < a + m ensures tab[k] == before[k] {
        assert tab[k] == tab[d + n..][k - d - n] && before[k] == before[d + n..][k - d - n];
      }
    }
  }

  lemma OnlyPixel(before: seq<Byte>, tab: seq<Byte>, d: nat, n: nat, at: nat)
    requires Only(before, tab, d, n) && at + 3 <= |tab| && Apart(d, n, at, 3)
    ensures Pixel(tab, at) == Pixel(before, at)
  {
    OnlyKeeps(before, tab, d, n, at, 3);
    KeptPixel(before, tab, at, 3, at);
  }

  /** Averages two pixels. */
  method PixelsAverage(tab: array<Byte>, d: nat, s1: nat, s2: nat)
    requires d + 3 <= tab.Length && s1 + 3 <= tab.Length && s2 + 3 <= tab.Length
    requires Apart(d, 3, s1, 3) && Apart(d, 3, s2, 3)
    modifies tab
    ensures Pixel(tab[..], d) == Average(old(Pixel(tab[..], s1)), old(Pixel(tab[..], s2)))
    ensures Only(old(tab[..]), tab[..], d, 3)
  {
    tab[d] := Mean(tab[s1], tab[s2]);
    tab[d + 1] := Mean(tab[s1 + 1], tab[s2 + 1]);
    tab[d + 2] := Mean(tab[s1 + 2], tab[s2 + 2]);
  }

  lemma OnlyMore(t0: seq<Byte>, t1: seq<Byte>, t2: seq<Byte>, d: nat, n: nat, at: nat, m: nat)
    requires Only(t0, t1, d, n) && Only(t1, t2, at, m) && d <= at && at + m <= d + n
    ensures Only(t0, t2, d, n)
  {
    assert t2[..d] == t2[..at][..d] && t1[..at][..d] == t1[..d];
    assert t2[d + n..] == t2[at + m..][d + n - at - m..] && t1[at + m..][d + n - at - m..] == t1[d + n..];
  }

  /** A line of pixels from pairs of neighbours in a line of twice as many. */
  method AveragePairs(tab: array<Byte>, d: nat, s: nat, n: nat)
    requires d + 3 * n <= tab.Length && s + 6 * n <= tab.Length && Apart(d, 3 * n, s, 6 * n)
    modifies tab
    ensures Only(old(tab[..]), tab[..], d, 3 * n)
    ensures forall x :: 0 <= x < n ==>
              Pixel(tab[..], d + 3 * x) == Average(old(Pixel(tab[..], s + 6 * x)), old(Pixel(tab[..], s + 6 * x + 3)))
  {
    hide Pixel, Average;
    hide Only;
    ghost var t := tab[..];
    OnlySame(t, d, 3 * n);
    var x := 0;
    while x < n
      invariant 0 <= x <= n && Only(t, tab[..], d, 3 * n)
      invariant forall k :: 0 <= k < x ==>
                  Pixel(tab[..], d + 3 * k) == Average(Pixel(t, s + 6 * k), Pixel(t, s + 6 * k + 3))
    {
      ghost var t1 := tab[..];
      OnlyPixel(t, t1, d, 3 * n, s + 6 * x);
      OnlyPixel(t, t1, d, 3 * n, s + 6 * x + 3);
      PixelsAverage(tab, d + 3 * x, s + 6 * x, s + 6 * x + 3);
      OnlyMore(t, t1, tab[..], d, 3 * n, d + 3 * x, 3);
      forall k | 0 <= k < x ensures Pixel(tab[..], d + 3 * k) == Pixel(t1, d + 3 * k) {
        OnlyPixel(t1, tab[..], d + 3 * x, 3, d + 3 * k);
      }
      x := x + 1;
    }
  }

  lemma OnlySame(t: seq<Byte>, d: nat, n: nat)
    requires d + n <= |t|
    ensures Only(t, t, d, n)
  {
  }

  /** A line of pixels from two lines of as many. */
  method AverageLines(tab: array<Byte>, d: nat, s: nat, n: nat)
    requires d + 3 * n <= tab.Length && s + 6 * n <= tab.Length && Apart(d, 3 * n, s, 6 * n)
    modifies tab
    ensures Only(old(tab[..]), tab[..], d, 3 * n)
    ensures forall x :: 0 <= x < n ==>
              Pixel(tab[..], d + 3 * x) ==
                  Average(old(Pixel(tab[..], s + 3 * x)), old(Pixel(tab[..], s + 3 * n + 3 * x)))
  {
    hide Pixel, Average;
    hide Only;
    ghost var t := tab[..];
    OnlySame(t, d, 3 * n);
    var x := 0;
    while x < n
      invariant 0 <= x <= n && Only(t, tab[..], d, 3 * n)
      invariant forall k :: 0 <= k < x ==>
                  Pixel(tab[..], d + 3 * k) == Average(Pixel(t, s + 3 * k), Pixel(t, s + 3 * n + 3 * k))
    {
      ghost var t1 := tab[..];
      OnlyPixel(t, t1, d, 3 * n, s + 3 * x);
      OnlyPixel(t, t1, d, 3 * n, s + 3 * n + 3 * x);
      PixelsAverage(tab, d + 3 * x, s + 3 * x, s + 3 * n + 3 * x);
      OnlyMore(t, t1, tab[..], d, 3 * n, d + 3 * x, 3);
      forall k | 0 <= k < x ensures Pixel(tab[..], d + 3 * k) == Pixel(t1, d + 3 * k) {
        OnlyPixel(t1, tab[..], d + 3 * x, 3, d + 3 * k);
      }
      x := x + 1;
    }
  }

  /** Rows of pixels: one row is below another, within its block. */
  lemma Rows(w: nat, h: nat, x: nat, y: nat, z: nat)
    requires x < w && y < z <= h
    ensures Address(w, x, y) + 3 <= 3 * (z * w) <= 3 * (h * w)
    ensures Address(w, x, y) == 3 * (y * w) + 3 * x && (y + 1) * w == y * w + w
  {
    Times(w, y + 1, z);
    Times(w, z, h);
  }

  lemma DoubleRow(w: nat, x: nat, y: nat)
    ensures Address(2 * w, 2 * x, y) == 6 * (y * w) + 6 * x
    ensures Address(2 * w, 2 * x + 1, y) == 6 * (y * w) + 6 * x + 3
    ensures Address(w, x, 2 * y) == 6 * (y * w) + 3 * x
    ensures Address(w, x, 2 * y + 1) == 6 * (y * w) + 3 * w + 3 * x
  {
    assert y * (2 * w) == 2 * (y * w);
    assert 2 * y * w == 2 * (y * w) && (2 * y + 1) * w == 2 * (y * w) + w;
  }

  /** The relation for the rows below y, to a table as it was. */
  ghost predicate NarrowedRows(t: seq<Byte>, tab: seq<Byte>, d: nat, s: nat, w: nat, n: nat) {
    forall x, y :: 0 <= x < w && 0 <= y < n ==>
      Pixel(tab, d + Address(w, x, y)) ==
      Average(Pixel(t, s + Address(2 * w, 2 * x, y)), Pixel(t, s + Address(2 * w, 2 * x + 1, y)))
  }

  ghost predicate LoweredRows(t: seq<Byte>, tab: seq<Byte>, d: nat, s: nat, w: nat, n: nat) {
    forall x, y :: 0 <= x < w && 0 <= y < n ==>
      Pixel(tab, d + Address(w, x, y)) ==
      Average(Pixel(t, s + Address(w, x, 2 * y)), Pixel(t, s + Address(w, x, 2 * y + 1)))
  }

  lemma RowDone(t1: seq<Byte>, t2: seq<Byte>, d: nat, w: nat, h: nat, n: nat, x: nat, y: nat)
    requires d + 3 * (h * w) <= |t1| && Only(t1, t2, d + 3 * (n * w), 3 * w) && x < w && y < n < h
    ensures Pixel(t2, d + Address(w, x, y)) == Pixel(t1, d + Address(w, x, y))
  {
    hide Pixel, Address;
    Rows(w, h, x, y, n);
    OnlyPixel(t1, t2, d + 3 * (n * w), 3 * w, d + Address(w, x, y));
  }

  lemma NoNarrowedRows(t: seq<Byte>, tab: seq<Byte>, d: nat, s: nat, w: nat)
    ensures NarrowedRows(t, tab, d, s, w, 0)
  {
  }

  lemma NarrowedRow(t: seq<Byte>, t1: seq<Byte>, t2: seq<Byte>, d: nat, s: nat, w: nat, h: nat, n: nat)
    requires n < h && d + 3 * (h * w) <= |t1| && NarrowedRows(t, t1, d, s, w, n) && Only(t1, t2, d + 3 * (n * w), 3 * w)
    requires forall x :: 0 <= x < w ==>
               Pixel(t2, d + 3 * (n * w) + 3 * x) ==
               Average(Pixel(t, s + 6 * (n * w) + 6 * x), Pixel(t, s + 6 * (n * w) + 6 * x + 3))
    ensures NarrowedRows(t, t2, d, s, w, n + 1)
  {
    hide Pixel, Average, Address, Only;
    forall x, y | 0 <= x < w && 0 <= y < n + 1
      ensures Pixel(t2, d + Address(w, x, y)) ==
              Average(Pixel(t, s + Address(2 * w, 2 * x, y)), Pixel(t, s + Address(2 * w, 2 * x + 1, y)))
    {
      Rows(w, h, x, y, y + 1);
      DoubleRow(w, x, y);
      if y < n {
        RowDone(t1, t2, d, w, h, n, x, y);
      }
    }
  }

  lemma NoLoweredRows(t: seq<Byte>, tab: seq<Byte>, d: nat, s: nat, w: nat)
    ensures LoweredRows(t, tab, d, s, w, 0)
  {
  }

  lemma LoweredRow(t: seq<Byte>, t1: seq<Byte>, t2: seq<Byte>, d: nat, s: nat, w: nat, h: nat, n: nat)
    requires n < h && d + 3 * (h * w) <= |t1| && LoweredRows(t, t1, d, s, w, n) && Only(t1, t2, d + 3 * (n * w), 3 * w)
    requires forall x :: 0 <= x < w ==>
               Pixel(t2, d + 3 * (n * w) + 3 * x) ==
               Average(Pixel(t, s + 6 * (n * w) + 3 * x), Pixel(t, s + 6 * (n * w) + 3 * w + 3 * x))
    ensures LoweredRows(t, t2, d, s, w, n + 1)
  {
    hide Pixel, Average, Address, Only;
    forall x, y | 0 <= x < w && 0 <= y < n + 1
      ensures Pixel(t2, d + Address(w, x, y)) ==
              Average(Pixel(t, s + Address(w, x, 2 * y)), Pixel(t, s + Address(w, x, 2 * y + 1)))
    {
      Rows(w, h, x, y, y + 1);
      DoubleRow(w, x, y);
      if y < n {
        RowDone(t1, t2, d, w, h, n, x, y);
      }
    }
  }

  /** Fills a block of w * h pixels from one of twice the width. */
  method HalveWidth(tab: array<Byte>, d: nat, s: nat, w: nat, h: nat)
    requires d + 3 * (h * w) <= tab.Length && s + 6 * (h * w) <= tab.Length && Apart(d, 3 * (h * w), s, 6 * (h * w))
    modifies tab
    ensures Only(old(tab[..]), tab[..], d, 3 * (h * w))
    ensures NarrowedRows(old(tab[..]), tab[..], d, s, w, h)
  {
    hide Pixel, Average, Address, Only, Kept, NarrowedRows;
    ghost var t := tab[..];
    NoNarrowedRows(t, t, d, s, w);
    OnlySame(t, d, 3 * (h * w));
    var y, dd, ss := 0, d, s;
    while y < h
      invariant 0 <= y <= h && dd == d + 3 * (y * w) && ss == s + 6 * (y * w)
      invariant Only(t, tab[..], d, 3 * (h * w)) && NarrowedRows(t, tab[..], d, s, w, y)
    {
      RowRoom(w, h, y);
      ghost var t1 := tab[..];
      AveragePairs(tab, dd, ss, w);
      OnlyMore(t, t1, tab[..], d, 3 * (h * w), dd, 3 * w);
      SourceKept(t, t1, d, 3 * (h * w), s, 6 * (h * w));
      forall x | 0 <= x < w
        ensures Pixel(tab[..], d + 3 * (y * w) + 3 * x) ==
                Average(Pixel(t, s + 6 * (y * w) + 6 * x), Pixel(t, s + 6 * (y * w) + 6 * x + 3))
      {
        assert Pixel(tab[..], dd + 3 * x) == Average(Pixel(t1, ss + 6 * x), Pixel(t1, ss + 6 * x + 3));
        KeptPixel(t, t1, s, 6 * (h * w), ss + 6 * x);
        KeptPixel(t, t1, s, 6 * (h * w), ss + 6 * x + 3);
      }
      NarrowedRow(t, t1, tab[..], d, s, w, h, y);
      y, dd, ss := y + 1, dd + 3 * w, ss + 6 * w;
    }
  }

  lemma RowRoom(w: nat, h: nat, y: nat)
    requires y < h
    ensures 3 * (y * w) + 3 * w <= 3 * (h * w) && (y + 1) * w == y * w + w
  {
    Times(w, y + 1, h);
  }

  lemma SourceKept(t: seq<Byte>, t1: seq<Byte>, d: nat, n: nat, s: nat, m: nat)
    requires Only(t, t1, d, n) && s + m <= |t| && Apart(d, n, s, m)
    ensures Kept(t, t1, s, m)
  {
    OnlyKeeps(t, t1, d, n, s, m);
  }

  /** Fills a block of w * h pixels from one of twice the height. */
  method HalveHeight(tab: array<Byte>, d: nat, s: nat, w: nat, h: nat)
    requires d + 3 * (h * w) <= tab.Length && s + 6 * (h * w) <= tab.Length && Apart(d, 3 * (h * w), s, 6 * (h * w))
    modifies tab
    ensures Only(old(tab[..]), tab[..], d, 3 * (h * w))
    ensures LoweredRows(old(tab[..]), tab[..], d, s, w, h)
  {
    hide Pixel, Average, Address, Only, Kept, LoweredRows;
    ghost var t := tab[..];
    NoLoweredRows(t, t, d, s, w);
    OnlySame(t, d, 3 * (h * w));
    var y, dd, ss := 0, d, s;
    while y < h
      invariant 0 <= y <= h && dd == d + 3 * (y * w) && ss == s + 6 * (y * w)
      invariant Only(t, tab[..], d, 3 * (h * w)) && LoweredRows(t, tab[..], d, s, w, y)
    {
      RowRoom(w, h, y);
      ghost var t1 := tab[..];
      AverageLines(tab, dd, ss, w);
      OnlyMore(t, t1, tab[..], d, 3 * (h * w), dd, 3 * w);
      SourceKept(t, t1, d, 3 * (h * w), s, 6 * (h * w));
      forall x | 0 <= x < w
        ensures Pixel(tab[..], d + 3 * (y * w) + 3 * x) ==
                Average(Pixel(t, s + 6 * (y * w) + 3 * x), Pixel(t, s + 6 * (y * w) + 3 * w + 3 * x))
      {
        assert Pixel(tab[..], dd + 3 * x) == Average(Pixel(t1, ss + 3 * x), Pixel(t1, ss + 3 * w + 3 * x));
        KeptPixel(t, t1, s, 6 * (h * w), ss + 3 * x);
        KeptPixel(t, t1, s, 6 * (h * w), ss + 3 * w + 3 * x);
      }
      LoweredRow(t, t1, tab[..], d, s, w, h, y);
      y, dd, ss := y + 1, dd + 3 * w, ss + 6 * w;
    }
  }

  lemma SourcePixels(w: nat, h: nat, x: nat, y: nat)
    requires x < w && y < h
    ensures Address(w, x, y) + 3 <= 3 * (h * w)
    ensures Address(2 * w, 2 * x, y) + 6 <= 6 * (h * w) && Address(2 * w, 2 * x + 1, y) + 3 <= 6 * (h * w)
    ensures Address(w, x, 2 * y) + 3 <= 6 * (h * w) && Address(w, x, 2 * y + 1) + 3 <= 6 * (h * w)
  {
    hide Address;
    Rows(w, h, x, y, y + 1);
    DoubleRow(w, x, y);
  }

  /** The relation of two blocks, if they are kept. */
  lemma NarrowedKept(t: seq<Byte>, t1: seq<Byte>, tab: seq<Byte>, d: nat, s: nat, w: nat, h: nat)
    requires NarrowedRows(t, t1, d, s, w, h) && Kept(t1, tab, d, 3 * (h * w)) && Kept(t, tab, s, 6 * (h * w))
    ensures Narrowed(tab, d, s, w, h)
  {
    hide Pixel, Average, Address, Kept;
    forall x, y | 0 <= x < w && 0 <= y < h
      ensures Pixel(tab, d + Address(w, x, y)) ==
              Average(Pixel(tab, s + Address(2 * w, 2 * x, y)), Pixel(tab, s + Address(2 * w, 2 * x + 1, y)))
    {
      SourcePixels(w, h, x, y);
      KeptPixel(t1, tab, d, 3 * (h * w), d + Address(w, x, y));
      KeptPixel(t, tab, s, 6 * (h * w), s + Address(2 * w, 2 * x, y));
      KeptPixel(t, tab, s, 6 * (h * w), s + Address(2 * w, 2 * x + 1, y));
    }
  }

  lemma LoweredKept(t: seq<Byte>, t1: seq<Byte>, tab: seq<Byte>, d: nat, s: nat, w: nat, h: nat)
    requires LoweredRows(t, t1, d, s, w, h) && Kept(t1, tab, d, 3 * (h * w)) && Kept(t, tab, s, 6 * (h * w))
    ensures Lowered(tab, d, s, w, h)
  {
    hide Pixel, Average, Address, Kept;
    forall x, y | 0 <= x < w && 0 <= y < h
      ensures Pixel(tab, d + Address(w, x, y)) ==
              Average(Pixel(tab, s + Address(w, x, 2 * y)), Pixel(tab, s + Address(w, x, 2 * y + 1)))
    {
      SourcePixels(w, h, x, y);
      KeptPixel(t1, tab, d, 3 * (h * w), d + Address(w, x, y));
      KeptPixel(t, tab, s, 6 * (h * w), s + Address(w, x, 2 * y));
      KeptPixel(t, tab, s, 6 * (h * w), s + Address(w, x, 2 * y + 1));
    }
  }

  // ----- the whole pyramid -----

  /** The block of the bottom row is averaged from its right neighbour. */
  ghost predicate NarrowBlock(tab: seq<Byte>, cols: nat, rows: nat, col: nat) {
    Narrowed(tab, Place(cols, col, rows), Place(cols, col + 1, rows), Pow2(col), Pow2(rows))
  }

  /** The block is averaged from the one below. */
  ghost predicate LowBlock(tab: seq<Byte>, cols: nat, col: nat, row: nat) {
    Lowered(tab, Place(cols, col, row), Place(cols, col, row + 1), Pow2(col), Pow2(row))
  }

  ghost predicate KeptBlock(t: seq<Byte>, tab: seq<Byte>, cols: nat, col: nat, row: nat) {
    Kept(t, tab, Place(cols, col, row), Size(col, row))
  }

  lemma Sizes(col: nat, row: nat)
    ensures Size(col, row) == 3 * (Pow2(row) * Pow2(col))
    ensures Size(col + 1, row) == 6 * (Pow2(row) * Pow2(col)) && Size(col, row + 1) == 6 * (Pow2(row) * Pow2(col))
  {
    Pow2Add(row, col);
  }

  /** Writing one block keeps the others. */
  lemma OtherBlock(t: seq<Byte>, tab: seq<Byte>, cols: nat, rows: nat, c: nat, r: nat, col: nat, row: nat)
    requires c <= cols && r <= rows && col <= cols && row <= rows && (c != col || r != row)
    requires |t| >= TableSize(cols, rows) && Only(t, tab, Place(cols, c, r), Size(c, r))
    ensures KeptBlock(t, tab, cols, col, row)
  {
    hide Place, Size, TableSize;
    Disjoint(cols, c, r, col, row);
    InTable(cols, rows, col, row);
    OnlyKeeps(t, tab, Place(cols, c, r), Size(c, r), Place(cols, col, row), Size(col, row));
  }

  lemma NarrowBlockKept(t: seq<Byte>, tab: seq<Byte>, cols: nat, rows: nat, col: nat)
    requires NarrowBlock(t, cols, rows, col) && KeptBlock(t, tab, cols, col, rows)
             && KeptBlock(t, tab, cols, col + 1, rows)
    ensures NarrowBlock(tab, cols, rows, col)
  {
    hide Place, Size, Kept;
    Sizes(col, rows);
    NarrowedKept(t, t, tab, Place(cols, col, rows), Place(cols, col + 1, rows), Pow2(col), Pow2(rows));
  }

  lemma LowBlockKept(t: seq<Byte>, tab: seq<Byte>, cols: nat, col: nat, row: nat)
    requires LowBlock(t, cols, col, row) && KeptBlock(t, tab, cols, col, row) && KeptBlock(t, tab, cols, col, row + 1)
    ensures LowBlock(tab, cols, col, row)
  {
    hide Place, Size, Kept;
    Sizes(col, row);
    LoweredKept(t, t, tab, Place(cols, col, row), Place(cols, col, row + 1), Pow2(col), Pow2(row));
  }

  method FillNarrow(tab: array<Byte>, cols: nat, rows: nat, col: nat)
    requires tab.Length >= TableSize(cols, rows) && col < cols
    modifies tab
    ensures Only(old(tab[..]), tab[..], Place(cols, col, rows), Size(col, rows))
            && NarrowBlock(tab[..], cols, rows, col)
  {
    hide Place, Size, TableSize, Kept, Only, Narrowed, NarrowedRows, Apart;
    ghost var t := tab[..];
    Sizes(col, rows);
    Disjoint(cols, col, rows, col + 1, rows);
    InTable(cols, rows, col, rows);
    InTable(cols, rows, col + 1, rows);
    var d, s := Place(cols, col, rows), Place(cols, col + 1, rows);
    HalveWidth(tab, d, s, Pow2(col), Pow2(rows));
    SourceKept(t, tab[..], d, Size(col, rows), s, Size(col + 1, rows));
    KeptSelf(tab[..], d, Size(col, rows));
    NarrowedKept(t, tab[..], tab[..], d, s, Pow2(col), Pow2(rows));
  }

  method FillLow(tab: array<Byte>, cols: nat, rows: nat, col: nat, row: nat)
    requires tab.Length >= TableSize(cols, rows) && col <= cols && row < rows
    modifies tab
    ensures Only(old(tab[..]), tab[..], Place(cols, col, row), Size(col, row)) && LowBlock(tab[..], cols, col, row)
  {
    hide Place, Size, TableSize, Kept, Only, Lowered, LoweredRows, Apart;
    ghost var t := tab[..];
    Sizes(col, row);
    Disjoint(cols, col, row, col, row + 1);
    InTable(cols, rows, col, row);
    InTable(cols, rows, col, row + 1);
    var d, s := Place(cols, col, row), Place(cols, col, row + 1);
    HalveHeight(tab, d, s, Pow2(col), Pow2(row));
    SourceKept(t, tab[..], d, Size(col, row), s, Size(col, row + 1));
    KeptSelf(tab[..], d, Size(col, row));
    LoweredKept(t, tab[..], tab[..], d, s, Pow2(col), Pow2(row));
  }

  lemma KeptSelf(tab: seq<Byte>, d: nat, n: nat)
    requires d + n <= |tab|
    ensures Kept(tab, tab, d, n)
  {
  }

  lemma KeptTrans(t: seq<Byte>, t1: seq<Byte>, t2: seq<Byte>, cols: nat, col: nat, row: nat)
    requires KeptBlock(t, t1, cols, col, row) && KeptBlock(t1, t2, cols, col, row)
    ensures KeptBlock(t, t2, cols, col, row)
  {
  }

  /** Completes the bottom row, from the widest block on. */
  method BottomRow(tab: array<Byte>, cols: nat, rows: nat)
    requires tab.Length >= TableSize(cols, rows)
    modifies tab
    ensures forall c :: 0 <= c < cols ==> NarrowBlock(tab[..], cols, rows, c)
    ensures KeptBlock(old(tab[..]), tab[..], cols, cols, rows)
  {
    hide TableSize, NarrowBlock, KeptBlock, Place, Size, Only;
    ghost var t := tab[..];
    KeptStart(t, cols, rows);
    var i := cols;
    while i > 0
      invariant 0 <= i <= cols && KeptBlock(t, tab[..], cols, cols, rows)
      invariant forall c :: i <= c < cols ==> NarrowBlock(tab[..], cols, rows, c)
    {
      i := i - 1;
      ghost var t1 := tab[..];
      FillNarrow(tab, cols, rows, i);
      OtherBlock(t1, tab[..], cols, rows, i, rows, cols, rows);
      KeptTrans(t, t1, tab[..], cols, cols, rows);
      forall c | i < c < cols ensures NarrowBlock(tab[..], cols, rows, c) {
        OtherBlock(t1, tab[..], cols, rows, i, rows, c, rows);
        OtherBlock(t1, tab[..], cols, rows, i, rows, c + 1, rows);
        NarrowBlockKept(t1, tab[..], cols, rows, c);
      }
    }
  }

  lemma KeptStart(t: seq<Byte>, cols: nat, rows: nat)
    requires |t| >= TableSize(cols, rows)
    ensures KeptBlock(t, t, cols, cols, rows)
  {
    InTable(cols, rows, cols, rows);
  }

  /** The blocks above the bottom row that have been filled when column i is complete above row j. */
  ghost predicate Filled(tab: seq<Byte>, cols: nat, rows: nat, i: nat, j: nat) {
    && (forall c :: 0 <= c < cols ==> NarrowBlock(tab, cols, rows, c))
    && (forall c, r :: 0 <= c < i && 0 <= r < rows ==> LowBlock(tab, cols, c, r))
    && (forall r :: j <= r < rows ==> LowBlock(tab, cols, i, r))
  }

  lemma FilledMore(t: seq<Byte>, tab: seq<Byte>, cols: nat, rows: nat, i: nat, j: nat)
    requires i <= cols && 0 < j <= rows && |t| >= TableSize(cols, rows) && Filled(t, cols, rows, i, j)
    requires Only(t, tab, Place(cols, i, j - 1), Size(i, j - 1)) && LowBlock(tab, cols, i, j - 1)
    ensures Filled(tab, cols, rows, i, j - 1)
  {
    hide TableSize, NarrowBlock, LowBlock, KeptBlock, Place, Size, Only;
    forall c | 0 <= c < cols ensures NarrowBlock(tab, cols, rows, c) {
      OtherBlock(t, tab, cols, rows, i, j - 1, c, rows);
      OtherBlock(t, tab, cols, rows, i, j - 1, c + 1, rows);
      NarrowBlockKept(t, tab, cols, rows, c);
    }
    forall c, r | 0 <= c <= i && 0 <= r < rows && (c < i || j <= r) ensures LowBlock(tab, cols, c, r) {
      OtherBlock(t, tab, cols, rows, i, j - 1, c, r);
      OtherBlock(t, tab, cols, rows, i, j - 1, c, r + 1);
      LowBlockKept(t, tab, cols, c, r);
    }
  }

  /** Every block but that of the scaled image is the average of the one it was filled from. */
  ghost predicate Built(tab: seq<Byte>, cols: nat, rows: nat) {
    && (forall c :: 0 <= c < cols ==> NarrowBlock(tab, cols, rows, c))
    && (forall c, r :: 0 <= c <= cols && 0 <= r < rows ==> LowBlock(tab, cols, c, r))
  }

  /** Builds the pyramid on the block for the scaled image, which must be there. In the end each
      other block is the average of the one it was filled from. */
  method Build(tab: array<Byte>, cols: nat, rows: nat)
    requires tab.Length >= TableSize(cols, rows)
    modifies tab
    ensures KeptBlock(old(tab[..]), tab[..], cols, cols, rows) && Built(tab[..], cols, rows)
  {
    hide TableSize, NarrowBlock, LowBlock, KeptBlock, Place, Size, Only;
    ghost var t := tab[..];
    BottomRow(tab, cols, rows);
    var i := 0;
    while i <= cols
      invariant 0 <= i <= cols + 1 && KeptBlock(t, tab[..], cols, cols, rows)
      invariant Filled(tab[..], cols, rows, i, rows)
    {
      var j := rows;
      while j > 0
        invariant 0 <= j <= rows && KeptBlock(t, tab[..], cols, cols, rows) && Filled(tab[..], cols, rows, i, j)
      {
        j := j - 1;
        ghost var t1 := tab[..];
        FillLow(tab, cols, rows, i, j);
        OtherBlock(t1, tab[..], cols, rows, i, j, cols, rows);
        KeptTrans(t, t1, tab[..], cols, cols, rows);
        FilledMore(t1, tab[..], cols, rows, i, j + 1);
      }
      i := i + 1;
    }
  }
}
