/**
 What the blocks of a complete pyramid are: each pixel is the mean of the area of the scaled image
 that it covers, rounded down by less than one half for each halving on the way.
 */
module DupArea {
  import opened Powers
  import opened Sums
  import opened DupPyramid
  import opened DupBuild

  /** One of the three colours of a pixel. */
  function Colour(p: Rgb, k: nat): (c: int)
    ensures (k == 0 ==> c == p.0) && (k == 1 ==> c == p.1) && (k == 2 ==> c == p.2)
  {
    if k == 0 then p.0 else if k == 1 then p.1 else p.2
  }

  /** A colour of a pixel of a block. */
  ghost function At(tab: seq<Byte>, cols: nat, c: nat, r: nat, x: nat, y: nat, k: nat): int {
    Colour(Pixel(tab, Place(cols, c, r) + Address(Pow2(c), x, y)), k)
  }

  /** The three colours of a pixel are adjacent bytes of the table. */
  lemma AtIs(tab: seq<Byte>, cols: nat, c: nat, r: nat, x: nat, y: nat, k: nat)
    requires Place(cols, c, r) + Address(Pow2(c), x, y) + 3 <= |tab| && k < 3
    ensures At(tab, cols, c, r, x, y, k) == tab[Place(cols, c, r) + Address(Pow2(c), x, y) + k]
  {
    hide Place, Address, Pow2;
  }

  // ----- areas of the scaled image -----

  ghost function RowSum(tab: seq<Byte>, cols: nat, rows: nat, k: nat, x: nat, w: nat, y: nat): int {
    if w == 0 then 0 else RowSum(tab, cols, rows, k, x, w - 1, y) + At(tab, cols, cols, rows, x + w - 1, y, k)
  }

  /** The sum of a colour over w * h pixels. */
  ghost function AreaSum(tab: seq<Byte>, cols: nat, rows: nat, k: nat, x: nat, w: nat, y: nat, h: nat): int {
    if h == 0 then 0
    else AreaSum(tab, cols, rows, k, x, w, y, h - 1) + RowSum(tab, cols, rows, k, x, w, y + h - 1)
  }

  lemma {:induction false} RowSplit(tab: seq<Byte>, cols: nat, rows: nat, k: nat, x: nat, v: nat, w: nat, y: nat)
    ensures RowSum(tab, cols, rows, k, x, v + w, y) ==
            RowSum(tab, cols, rows, k, x, v, y) + RowSum(tab, cols, rows, k, x + v, w, y)
  {
    hide At;
    if w > 0 {
      RowSplit(tab, cols, rows, k, x, v, w - 1, y);
    }
  }

  lemma {:induction false} AreaSplit(tab: seq<Byte>, cols: nat, rows: nat, k: nat, x: nat, w: nat, y: nat, g: nat,
                                     h: nat)
    ensures AreaSum(tab, cols, rows, k, x, w, y, g + h) ==
            AreaSum(tab, cols, rows, k, x, w, y, g) + AreaSum(tab, cols, rows, k, x, w, y + g, h)
  {
    hide RowSum;
    if h > 0 {
      AreaSplit(tab, cols, rows, k, x, w, y, g, h - 1);
    }
  }

  // ----- means -----

  /** The value is the mean of n numbers with the given sum, less at most `levels` / 2. */
  ghost predicate IsMean(value: int, n: nat, sum: int, levels: nat) {
    2 * (n * value) <= 2 * sum <= 2 * (n * value) + n * levels
  }

  /** The mean of two means. */
  lemma MeanOfMeans(p: int, a: int, b: int, n: nat, s: int, t: int, levels: nat)
    requires 2 * p <= a + b <= 2 * p + 1 && IsMean(a, n, s, levels) && IsMean(b, n, t, levels)
    ensures IsMean(p, 2 * n, s + t, levels + 1)
  {
    Distribute(n, a, b);
    Times(n, 2 * p, a + b);
    Times(n, a + b, 2 * p + 1);
    Distribute(n, 2 * p, 1);
    Distribute(n, levels, 1);
    assert 2 * n * p == n * (2 * p) && 2 * n * (levels + 1) == 2 * (n * (levels + 1));
  }

  /** Which colours an average has. */
  lemma AverageColour(p: Rgb, q: Rgb, k: nat)
    ensures var m := Colour(Average(p, q), k); 2 * m <= Colour(p, k) + Colour(q, k) <= 2 * m + 1
  {
  }

  lemma LowAt(tab: seq<Byte>, cols: nat, rows: nat, c: nat, r: nat, x: nat, y: nat, k: nat)
    requires Built(tab, cols, rows) && c <= cols && r < rows && x < Pow2(c) && y < Pow2(r)
    ensures var m := At(tab, cols, c, r, x, y, k);
            2 * m <= At(tab, cols, c, r + 1, x, 2 * y, k) + At(tab, cols, c, r + 1, x, 2 * y + 1, k) <= 2 * m + 1
  {
    hide Pixel, Place, Address, Average, Colour, Pow2;
    assert LowBlock(tab, cols, c, r);
    var s, w := Place(cols, c, r + 1), Pow2(c);
    AverageColour(Pixel(tab, s + Address(w, x, 2 * y)), Pixel(tab, s + Address(w, x, 2 * y + 1)), k);
  }

  lemma NarrowPixel(tab: seq<Byte>, cols: nat, rows: nat, c: nat, x: nat, y: nat)
    requires Built(tab, cols, rows) && c < cols && x < Pow2(c) && y < Pow2(rows)
    ensures var s, w := Place(cols, c + 1, rows), Pow2(c);
            Pixel(tab, Place(cols, c, rows) + Address(w, x, y)) ==
            Average(Pixel(tab, s + Address(2 * w, 2 * x, y)), Pixel(tab, s + Address(2 * w, 2 * x + 1, y)))
  {
    hide Pixel, Place, Address, Average, Pow2;
    assert NarrowBlock(tab, cols, rows, c);
  }

  lemma NarrowAt(tab: seq<Byte>, cols: nat, rows: nat, c: nat, x: nat, y: nat, k: nat)
    requires Built(tab, cols, rows) && c < cols && x < Pow2(c) && y < Pow2(rows)
    ensures var m := At(tab, cols, c, rows, x, y, k);
            2 * m <= At(tab, cols, c + 1, rows, 2 * x, y, k) + At(tab, cols, c + 1, rows, 2 * x + 1, y, k) <= 2 * m + 1
  {
    hide Pixel, Place, Address, Average, Colour, Pow2, Built, NarrowBlock, Narrowed;
    var s, w := Place(cols, c + 1, rows), Pow2(c);
    var p, q := Pixel(tab, s + Address(2 * w, 2 * x, y)), Pixel(tab, s + Address(2 * w, 2 * x + 1, y));
    assert At(tab, cols, c + 1, rows, 2 * x, y, k) == Colour(p, k) by { Doubled(c); }
    assert At(tab, cols, c + 1, rows, 2 * x + 1, y, k) == Colour(q, k) by { Doubled(c); }
    assert At(tab, cols, c, rows, x, y, k) == Colour(Average(p, q), k) by { NarrowPixel(tab, cols, rows, c, x, y); }
    AverageColour(p, q, k);
  }

  lemma Doubled(n: nat)
    ensures Pow2(n + 1) == 2 * Pow2(n) && Pow2(0) == 1
  {
  }

  lemma DoubledPosition(x: nat, w: nat)
    ensures x * (2 * w) == 2 * x * w && (2 * x + 1) * w == 2 * x * w + w
  {
    Distribute(w, 2 * x, 1);
  }

  /** A pixel of the bottom row of blocks is the mean of a piece of a line. */
  lemma {:induction false} MeanOfLine(tab: seq<Byte>, cols: nat, rows: nat, c: nat, x: nat, y: nat, k: nat)
    requires Built(tab, cols, rows) && c <= cols && x < Pow2(c) && y < Pow2(rows)
    ensures var w := Pow2(cols - c);
            IsMean(At(tab, cols, c, rows, x, y, k), w, RowSum(tab, cols, rows, k, x * w, w, y), cols - c)
    decreases cols - c
  {
    hide At, RowSum, Built, Pow2;
    if c == cols {
      OnePixel(tab, cols, rows, x, y, k);
      assert x * 1 == x;
    } else {
      hide IsMean;
      var w := Pow2(cols - c - 1);
      Doubled(cols - c - 1);
      Doubled(c);
      NarrowAt(tab, cols, rows, c, x, y, k);
      MeanOfLine(tab, cols, rows, c + 1, 2 * x, y, k);
      MeanOfLine(tab, cols, rows, c + 1, 2 * x + 1, y, k);
      DoubledPosition(x, w);
      RowSplit(tab, cols, rows, k, 2 * x * w, w, w, y);
      MeanOfMeans(At(tab, cols, c, rows, x, y, k), At(tab, cols, c + 1, rows, 2 * x, y, k),
                  At(tab, cols, c + 1, rows, 2 * x + 1, y, k), w, RowSum(tab, cols, rows, k, 2 * x * w, w, y),
                  RowSum(tab, cols, rows, k, 2 * x * w + w, w, y), cols - c - 1);
    }
  }

  lemma OnePixel(tab: seq<Byte>, cols: nat, rows: nat, x: nat, y: nat, k: nat)
    ensures Pow2(0) == 1 && RowSum(tab, cols, rows, k, x, 1, y) == At(tab, cols, cols, rows, x, y, k)
  {
    hide At;
    assert RowSum(tab, cols, rows, k, x, 0, y) == 0;
  }

  lemma OneLine(tab: seq<Byte>, cols: nat, rows: nat, k: nat, x: nat, w: nat, y: nat)
    ensures Pow2(0) == 1 && AreaSum(tab, cols, rows, k, x, w, y, 1) == RowSum(tab, cols, rows, k, x, w, y)
  {
    hide RowSum;
    assert AreaSum(tab, cols, rows, k, x, w, y, 0) == 0;
  }

  /** Every pixel of every block is the mean of the area of the scaled image that it covers. */
  lemma {:induction false} MeanOfArea(tab: seq<Byte>, cols: nat, rows: nat, c: nat, r: nat, x: nat, y: nat, k: nat)
    requires Built(tab, cols, rows) && c <= cols && r <= rows && x < Pow2(c) && y < Pow2(r)
    ensures var w, h := Pow2(cols - c), Pow2(rows - r);
            IsMean(At(tab, cols, c, r, x, y, k), w * h, AreaSum(tab, cols, rows, k, x * w, w, y * h, h),
                   cols - c + rows - r)
    decreases rows - r
  {
    hide IsMean, At, RowSum, AreaSum, Built, Pow2;
    var w := Pow2(cols - c);
    if r == rows {
      MeanOfLine(tab, cols, rows, c, x, y, k);
      OneLine(tab, cols, rows, k, x * w, w, y);
      assert y * 1 == y && w * 1 == w;
    } else {
      var h := Pow2(rows - r - 1);
      Doubled(rows - r - 1);
      Doubled(r);
      LowAt(tab, cols, rows, c, r, x, y, k);
      MeanOfArea(tab, cols, rows, c, r + 1, x, 2 * y, k);
      MeanOfArea(tab, cols, rows, c, r + 1, x, 2 * y + 1, k);
      DoubledPosition(y, h);
      AreaSplit(tab, cols, rows, k, x * w, w, 2 * y * h, h, h);
      MeanOfMeans(At(tab, cols, c, r, x, y, k), At(tab, cols, c, r + 1, x, 2 * y, k),
                  At(tab, cols, c, r + 1, x, 2 * y + 1, k), w * h,
                  AreaSum(tab, cols, rows, k, x * w, w, 2 * y * h, h),
                  AreaSum(tab, cols, rows, k, x * w, w, 2 * y * h + h, h), cols - c + rows - r - 1);
      assert w * (2 * h) == 2 * (w * h);
    }
  }

  // ----- bounds -----

  /** All pixels of an area lie within bounds. */
  ghost predicate Within(tab: seq<Byte>, cols: nat, rows: nat, k: nat, x: nat, w: nat, y: nat, h: nat, low: int,
                         high: int)
  {
    forall i, j :: x <= i < x + w && y <= j < y + h ==> low <= At(tab, cols, cols, rows, i, j, k) <= high
  }

  /** Every pixel lies between the least and the greatest of those it was made from. */
  lemma {:induction false} BetweenOfArea(tab: seq<Byte>, cols: nat, rows: nat, c: nat, r: nat, x: nat, y: nat, k: nat,
                                         low: int, high: int)
    requires Built(tab, cols, rows) && c <= cols && r <= rows && x < Pow2(c) && y < Pow2(r)
    requires var w, h := Pow2(cols - c), Pow2(rows - r);
             Within(tab, cols, rows, k, x * w, w, y * h, h, low, high)
    ensures low <= At(tab, cols, c, r, x, y, k) <= high
    decreases cols - c + rows - r
  {
    hide At, Built, Pow2;
    var w, h := Pow2(cols - c), Pow2(rows - r);
    if r < rows {
      var g := Pow2(rows - r - 1);
      Doubled(rows - r - 1);
      Doubled(r);
      DoubledPosition(y, g);
      LowAt(tab, cols, rows, c, r, x, y, k);
      BetweenOfArea(tab, cols, rows, c, r + 1, x, 2 * y, k, low, high);
      BetweenOfArea(tab, cols, rows, c, r + 1, x, 2 * y + 1, k, low, high);
    } else if c < cols {
      var v := Pow2(cols - c - 1);
      Doubled(cols - c - 1);
      Doubled(c);
      DoubledPosition(x, v);
      NarrowAt(tab, cols, rows, c, x, y, k);
      BetweenOfArea(tab, cols, rows, c + 1, r, 2 * x, y, k, low, high);
      BetweenOfArea(tab, cols, rows, c + 1, r, 2 * x + 1, y, k, low, high);
    } else {
      Doubled(0);
      assert x * 1 == x && y * 1 == y;
    }
  }
}
