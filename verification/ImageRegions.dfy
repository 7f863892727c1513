/**
 Regions of image blocks: each keeps a list of its blocks, their number and, for each of the six
 features, the sum and the sum of squares. With fewer than 65536 blocks all of these are exact in
 32 bits.
 */
module ImageRegions {
  import opened Powers
  import opened Sums

  const AXES := 6
  const MAX_BLOCKS := 0x1_0000
  const REG_MAX := 16

  /** The features of a block. */
  type Vector = v: seq<Byte> | |v| == 6 witness [0, 0, 0, 0, 0, 0]

  /** `blocks` is the list of the numbers of its blocks, `a` the pivot. */
  datatype Region = Region(blocks: seq<nat>, count: Word, b: seq<Word>, c: seq<Word>, e: Long, a: seq<Word>)

  const EMPTY := Region([], 0, [0, 0, 0, 0, 0, 0], [0, 0, 0, 0, 0, 0], 0, [0, 0, 0, 0, 0, 0])

  predicate Listed(img: seq<Vector>, list: seq<nat>) {
    forall k :: 0 <= k < |list| ==> list[k] < |img|
  }

  /** One feature of all listed blocks. */
  function Values(img: seq<Vector>, list: seq<nat>, axis: nat): (s: seq<nat>)
    requires Listed(img, list) && axis < AXES
    ensures |s| == |list|
  {
    seq(|list|, k requires 0 <= k < |list| && Listed(img, list) && axis < AXES => img[list[k]][axis])
  }

  /** The numbers kept are those of the blocks listed. */
  ghost predicate Exact(img: seq<Vector>, r: Region) {
    && Listed(img, r.blocks) && r.count == |r.blocks| && |r.b| == |r.c| == |r.a| == AXES
    && forall i :: 0 <= i < AXES ==>
         r.b[i] == Sum(Values(img, r.blocks, i)) && r.c[i] == SumSq(Values(img, r.blocks, i))
  }

  lemma ValuesMore(img: seq<Vector>, list: seq<nat>, k: nat, axis: nat)
    requires Listed(img, list) && k < |img| && axis < AXES
    ensures Listed(img, [k] + list)
    ensures Sum(Values(img, [k] + list, axis)) == img[k][axis] + Sum(Values(img, list, axis))
    ensures SumSq(Values(img, [k] + list, axis)) == img[k][axis] * img[k][axis] + SumSq(Values(img, list, axis))
  {
    var s, t := Values(img, [k] + list, axis), Values(img, list, axis);
    assert s[1..] == t && s[0] == img[k][axis];
  }

  lemma {:induction false} Bounds(s: seq<nat>)
    requires forall i :: 0 <= i < |s| ==> s[i] < 256
    ensures Sum(s) <= 255 * |s| && SumSq(s) <= 65025 * |s|
  {
    if s != [] {
      Bounds(s[1..]);
      Times(s[0], s[0], 255);
    }
  }

  /** No overflow as long as there are fewer than 65536 blocks. */
  lemma Fits(img: seq<Vector>, list: seq<nat>, axis: nat)
    requires Listed(img, list) && axis < AXES && |list| < MAX_BLOCKS
    ensures Sum(Values(img, list, axis)) < 0x100_0000
    ensures SumSq(Values(img, list, axis)) < 0x1_0000_0000
  {
    Bounds(Values(img, list, axis));
  }

  /** Adds a block at the head of the list. */
  method AddBlock(img: seq<Vector>, r: Region, k: nat) returns (r': Region)
    requires Exact(img, r) && k < |img| && |r.blocks| + 1 < MAX_BLOCKS
    ensures Exact(img, r') && r'.blocks == [k] + r.blocks && r'.a == r.a
  {
    hide Values;
    var list := [k] + r.blocks;
    var b: seq<Word>, c: seq<Word> := r.b, r.c;
    var i := 0;
    while i < AXES
      invariant 0 <= i <= AXES && |b| == |c| == AXES && Listed(img, list)
      invariant forall j :: i <= j < AXES ==> b[j] == r.b[j] && c[j] == r.c[j]
      invariant forall j :: 0 <= j < i ==> b[j] == Sum(Values(img, list, j)) && c[j] == SumSq(Values(img, list, j))
    {
      ValuesMore(img, r.blocks, k, i);
      Fits(img, list, i);
      var v: int := img[k][i];
      var sum: int, squares: int := b[i] + v, c[i] + v * v;
      b := b[i := sum];
      c := c[i := squares];
      i := i + 1;
    }
    r' := r.(blocks := list, count := |list|, b := b, c := c);
  }

  // ----- the quadratic error -----

  /** The sum of squares of all features. */
  ghost function AllSquares(img: seq<Vector>, list: seq<nat>, n: nat): nat
    requires Listed(img, list) && n <= AXES
  {
    if n == 0 then 0 else AllSquares(img, list, n - 1) + SumSq(Values(img, list, n - 1))
  }

  /** The squares of the sums of the features. */
  ghost function SquaredSums(img: seq<Vector>, list: seq<nat>, n: nat): nat
    requires Listed(img, list) && n <= AXES
  {
    if n == 0 then 0
    else SquaredSums(img, list, n - 1) + Sum(Values(img, list, n - 1)) * Sum(Values(img, list, n - 1))
  }

  /** Squared sums are never too large, so that no difference is negative. */
  lemma {:induction false} NoUnderflow(img: seq<Vector>, list: seq<nat>, n: nat)
    requires Listed(img, list) && n <= AXES
    ensures SquaredSums(img, list, n) <= |list| * AllSquares(img, list, n)
  {
    if n > 0 {
      NoUnderflow(img, list, n - 1);
      CauchySchwarz(Values(img, list, n - 1));
      Distribute(|list|, AllSquares(img, list, n - 1), SumSq(Values(img, list, n - 1)));
    }
  }

  /** The error of a region, rounded up: the sum of squared distances from the mean. */
  ghost function QuadraticError(img: seq<Vector>, list: seq<nat>): int
    requires Listed(img, list)
  {
    if |list| < 2 then 0 else AllSquares(img, list, AXES) - SquaredSums(img, list, AXES) / |list|
  }

  /** Computes the error of a region. */
  method FinishRegion(img: seq<Vector>, r: Region) returns (r': Region)
    requires Exact(img, r) && |r.blocks| < MAX_BLOCKS
    ensures Exact(img, r') && r' == r.(e := r'.e) && r'.e == QuadraticError(img, r.blocks)
  {
    hide Values;
    if r.count < 2 {
      return r.(e := 0);
    }
    var a: Long, e: Long := 0, 0;
    var i := 0;
    while i < AXES
      invariant 0 <= i <= AXES
      invariant e == AllSquares(img, r.blocks, i) <= i * 0x1_0000_0000
      invariant a == SquaredSums(img, r.blocks, i) <= i * 0x1_0000_0000_0000
    {
      Fits(img, r.blocks, i);
      SmallSquare(r.b[i]);
      e := e + r.c[i];
      var sum: int := r.b[i];
      a := a + sum * sum;
      i := i + 1;
    }
    NoUnderflow(img, r.blocks, AXES);
    NotMore(a, e, r.count);
    r' := r.(e := e - a / r.count);
  }

  lemma SmallSquare(x: nat)
    requires x < 0x100_0000
    ensures x * x < 0x1_0000_0000_0000
  {
    Times(x, x, 0x100_0000);
    Times(0x100_0000, x, 0x100_0000);
  }

  lemma NotMore(a: nat, e: nat, n: nat)
    requires n > 0 && a <= n * e
    ensures 0 <= a / n <= e
  {
    Distribute(n, e, 1);
    QuotientBelow(a, e + 1, n);
  }

  /** The error is the total variance divided by the number of blocks, rounded up. */
  lemma ErrorIs(img: seq<Vector>, list: seq<nat>)
    requires Listed(img, list) && |list| >= 2
    ensures var e, n := QuadraticError(img, list), |list|;
            e >= 0 && n * (e - 1) < TotalVariance(img, list, AXES) <= n * e
  {
    hide AllSquares, SquaredSums, TotalVariance;
    NoUnderflow(img, list, AXES);
    VarianceIs(img, list, AXES);
    RoundedUp(|list|, AllSquares(img, list, AXES), SquaredSums(img, list, AXES));
  }

  lemma RoundedUp(n: nat, q: nat, s: nat)
    requires n > 0 && s <= n * q
    ensures var e := q - s / n; e >= 0 && n * (e - 1) < n * q - s <= n * e
  {
    NotMore(s, q, n);
    Quotient(s, n);
    var d: nat := s / n;
    Distribute(n, q, -(d as int));
    Distribute(n, q - d, -1);
  }

  ghost function TotalVariance(img: seq<Vector>, list: seq<nat>, n: nat): int
    requires Listed(img, list) && n <= AXES
  {
    if n == 0 then 0 else TotalVariance(img, list, n - 1) + Variance(Values(img, list, n - 1))
  }

  lemma {:induction false} VarianceIs(img: seq<Vector>, list: seq<nat>, n: nat)
    requires Listed(img, list) && n <= AXES
    ensures TotalVariance(img, list, n) == |list| * AllSquares(img, list, n) - SquaredSums(img, list, n)
  {
    if n > 0 {
      VarianceIs(img, list, n - 1);
      Distribute(|list|, AllSquares(img, list, n - 1), SumSq(Values(img, list, n - 1)));
    }
  }

  // ----- the axis to split -----

  /** The variance of a feature, as kept by the region. */
  function Cov(r: Region, i: nat): int
    requires i < AXES && |r.b| == |r.c| == AXES
  {
    var b: int, c: int, n: int := r.b[i], r.c[i], r.count;
    n * c - b * b
  }

  /** All variances are zero once those but the first are cut to 32 bits: then the first axis is
      taken although it has just one value, and the split divides by zero. */
  predicate Stuck(r: Region)
    requires |r.b| == |r.c| == AXES
  {
    Cov(r, 0) == 0 && forall i :: 1 <= i < AXES ==> Cut(Cov(r, i)) == 0
  }

  /** Conversion to 32 bits. */
  function Cut(x: int): int {
    x % 0x1_0000_0000
  }

  lemma CutIs(x: int)
    requires x >= 0
    ensures 0 <= Cut(x) < 0x1_0000_0000 && (x < 0x1_0000_0000 ==> Cut(x) == x) && (Cut(x) > 0 ==> x > 0)
  {
  }

  lemma AxesOf(img: seq<Vector>, r: Region)
    requires Exact(img, r)
    ensures |r.b| == |r.c| == AXES && Listed(img, r.blocks)
  {
  }

  lemma CovIs(img: seq<Vector>, r: Region, i: nat)
    requires Exact(img, r) && i < AXES
    ensures Cov(r, i) == Variance(Values(img, r.blocks, i)) >= 0
    ensures Cov(r, i) == 0 <==> Constant(Values(img, r.blocks, i))
  {
    hide Values;
    CauchySchwarz(Values(img, r.blocks, i));
  }

  lemma CovFits(img: seq<Vector>, r: Region, i: nat)
    requires Exact(img, r) && i < AXES && |r.blocks| < MAX_BLOCKS
    ensures 0 <= Cov(r, i) < 0x1_0000_0000_0000_0000
  {
    hide Values;
    CovIs(img, r, i);
    Fits(img, r.blocks, i);
    Times(r.count, r.c[i], 0x1_0000_0000);
    Times(0x1_0000_0000, r.count, 0x1_0000);
    Square(r.b[i]);
  }

  /** The variance that is compared: all but the first are cut to 32 bits. */
  function Compared(r: Region, i: nat): int
    requires i < AXES && |r.b| == |r.c| == AXES
  {
    if i == 0 then Cov(r, 0) else Cut(Cov(r, i))
  }

  /** The axis is at least as good as the other, and better if that comes before it. Where nothing is
      cut, this is so for the variances themselves. */
  ghost predicate Preferred(r: Region, axis: nat, i: nat)
    requires axis < AXES && i < AXES && |r.b| == |r.c| == AXES
  {
    && Compared(r, i) <= Compared(r, axis) && (i < axis ==> Compared(r, i) < Compared(r, axis))
    && ((forall j :: 0 <= j < AXES ==> Cov(r, j) < 0x1_0000_0000) ==>
          Cov(r, i) <= Cov(r, axis) && (i < axis ==> Cov(r, i) < Cov(r, axis)))
  }

  /** Selects the first axis with the largest variance, all but the first cut to 32 bits. */
  method SelectAxis(img: seq<Vector>, r: Region) returns (axis: nat)
    requires Exact(img, r) && |r.blocks| < MAX_BLOCKS
    ensures axis < AXES
    ensures Constant(Values(img, r.blocks, axis)) <==> Stuck(r)
    ensures forall i :: 0 <= i < AXES ==> Preferred(r, axis, i)
  {
    AxesOf(img, r);
    hide Exact, Values, Constant, Cov, Cut;
    axis := 0;
    CovFits(img, r, 0);
    var cov: Long := Cov(r, 0);
    var i := 1;
    while i < AXES
      invariant 1 <= i <= AXES && axis < i
      invariant axis == 0 ==> cov == Cov(r, 0)
      invariant axis > 0 ==> 0 < cov == Cut(Cov(r, axis))
      invariant forall k :: 1 <= k < i ==> Cut(Cov(r, k)) <= cov && (k < axis ==> Cut(Cov(r, k)) < cov)
      invariant Cov(r, 0) <= cov && (axis > 0 ==> Cov(r, 0) < cov)
    {
      CovFits(img, r, i);
      CutIs(Cov(r, i));
      var j := Cut(Cov(r, i));
      if j > cov {
        axis, cov := i, j;
      }
      i := i + 1;
    }
    CovIs(img, r, axis);
    CutIs(Cov(r, axis));
    forall k | 0 <= k < AXES
      ensures Cov(r, k) >= 0 && Cut(Cov(r, k)) >= 0 && (Cov(r, k) < 0x1_0000_0000 ==> Cut(Cov(r, k)) == Cov(r, k))
    {
      CovIs(img, r, k);
      CutIs(Cov(r, k));
    }
  }
}
