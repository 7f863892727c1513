/**
 What the features of a whole image say about the regions cut out of it: the sums of a region do
 not depend on the order of its blocks, and no part of a region has a larger variance than the
 region. So if on no axis but the first the variance of the image needs more than 32 bits, the
 variances of its regions are never cut.
 */
module ImageCalm {
  import opened Powers
  import opened Sums
  import opened ImageRegions

  /** One feature of all blocks. */
  function Column(img: seq<Vector>, axis: nat): (s: seq<nat>)
    requires axis < AXES
    ensures |s| == |img|
  {
    seq(|img|, k requires 0 <= k < |img| && axis < AXES => img[k][axis])
  }

  /** The numbers of n blocks. */
  function Numbers(n: nat): (s: seq<nat>)
    ensures |s| == n
  {
    seq(n, k => k)
  }

  lemma ColumnIs(img: seq<Vector>, axis: nat)
    requires axis < AXES
    ensures Listed(img, Numbers(|img|)) && Values(img, Numbers(|img|), axis) == Column(img, axis)
  {
  }

  // ----- the order of the blocks -----

  lemma ValuesConcat(img: seq<Vector>, a: seq<nat>, b: seq<nat>, axis: nat)
    requires Listed(img, a) && Listed(img, b) && axis < AXES
    ensures Listed(img, a + b) && Values(img, a + b, axis) == Values(img, a, axis) + Values(img, b, axis)
  {
  }

  /** The sums without one of the blocks. */
  lemma ValuesWithout(img: seq<Vector>, a: seq<nat>, k: nat, b: seq<nat>, axis: nat)
    requires Listed(img, a + [k] + b) && axis < AXES
    ensures k < |img| && Listed(img, a + b)
    ensures Sum(Values(img, a + [k] + b, axis)) == img[k][axis] + Sum(Values(img, a + b, axis))
    ensures SumSq(Values(img, a + [k] + b, axis)) == img[k][axis] * img[k][axis] + SumSq(Values(img, a + b, axis))
  {
    Middle(img, a, k, b);
    hide Values, Listed;
    assert a + [k] + b == a + ([k] + b);
    ValuesMore(img, b, k, axis);
    ValuesConcat(img, a, [k] + b, axis);
    ValuesConcat(img, a, b, axis);
    var s, t, u := Values(img, a, axis), Values(img, b, axis), Values(img, [k] + b, axis);
    SumConcat(s, u);
    SumConcat(s, t);
    SumSqConcat(s, u);
    SumSqConcat(s, t);
  }

  lemma Middle(img: seq<Vector>, a: seq<nat>, k: nat, b: seq<nat>)
    requires Listed(img, a + [k] + b)
    ensures k < |img| && Listed(img, a) && Listed(img, b) && Listed(img, a + b)
  {
    var s := a + [k] + b;
    assert s[|a|] == k;
    assert forall i :: 0 <= i < |a| ==> s[i] == a[i];
    assert forall i :: 0 <= i < |b| ==> s[|a| + 1 + i] == b[i];
  }

  /** The sums do not depend on the order of the blocks. */
  lemma {:induction false} Permuted(img: seq<Vector>, a: seq<nat>, b: seq<nat>, axis: nat)
    requires Listed(img, a) && Listed(img, b) && multiset(a) == multiset(b) && axis < AXES
    ensures |a| == |b|
    ensures Sum(Values(img, a, axis)) == Sum(Values(img, b, axis))
    ensures SumSq(Values(img, a, axis)) == SumSq(Values(img, b, axis))
    decreases |a|
  {
    SameLength(a, b);
    if a == [] {
      assert a == b;
    } else {
      var c, d := Taken(a, b);
      ValuesWithout(img, [], a[0], a[1..], axis);
      ValuesWithout(img, c, a[0], d, axis);
      Permuted(img, a[1..], c + d, axis);
      assert [] + [a[0]] + a[1..] == a && [] + a[1..] == a[1..];
    }
  }

  lemma SameLength(a: seq<nat>, b: seq<nat>)
    requires multiset(a) == multiset(b)
    ensures |a| == |b|
  {
    assert |multiset(a)| == |a|;
  }

  /** The first of one list is somewhere in the other. */
  lemma Taken(a: seq<nat>, b: seq<nat>) returns (c: seq<nat>, d: seq<nat>)
    requires a != [] && multiset(a) == multiset(b)
    ensures b == c + [a[0]] + d && multiset(a[1..]) == multiset(c + d)
  {
    assert a[0] in multiset(b);
    var j :| 0 <= j < |b| && b[j] == a[0];
    c, d := b[..j], b[j + 1..];
    assert a == [a[0]] + a[1..];
    assert b == c + [a[0]] + d;
    forall x: nat ensures multiset(a[1..])[x] == multiset(c + d)[x] {
      assert multiset(b)[x] == multiset(c)[x] + multiset([a[0]])[x] + multiset(d)[x];
    }
  }

  lemma {:induction false} ErrorPermuted(img: seq<Vector>, a: seq<nat>, b: seq<nat>, n: nat)
    requires Listed(img, a) && Listed(img, b) && multiset(a) == multiset(b) && n <= AXES
    ensures AllSquares(img, a, n) == AllSquares(img, b, n) && SquaredSums(img, a, n) == SquaredSums(img, b, n)
  {
    if n > 0 {
      ErrorPermuted(img, a, b, n - 1);
      Permuted(img, a, b, n - 1);
    }
  }

  // ----- parts of a region -----

  /** A part of a list has no larger variance than the whole. */
  lemma PartCalmer(img: seq<Vector>, all: seq<nat>, part: seq<nat>, rest: seq<nat>, axis: nat)
    requires Listed(img, all) && Listed(img, part) && Listed(img, rest) && axis < AXES
    requires multiset(part) + multiset(rest) == multiset(all)
    ensures Variance(Values(img, part, axis)) <= Variance(Values(img, all, axis))
  {
    hide Values;
    ValuesConcat(img, rest, part, axis);
    assert multiset(rest + part) == multiset(all);
    Permuted(img, rest + part, all, axis);
    VarianceGrows(Values(img, rest, axis), Values(img, part, axis));
  }

  /** No variance but the first needs more than 32 bits. */
  ghost predicate Calm(img: seq<Vector>) {
    forall i :: 1 <= i < AXES ==> Variance(Column(img, i)) < WORD
  }

  ghost predicate CalmRegion(img: seq<Vector>, r: Region) {
    Listed(img, r.blocks) && forall i :: 1 <= i < AXES ==> Variance(Values(img, r.blocks, i)) < WORD
  }

  lemma CalmAtFirst(img: seq<Vector>, r: Region)
    requires Calm(img) && Listed(img, r.blocks) && multiset(r.blocks) == multiset(Numbers(|img|))
    ensures CalmRegion(img, r)
  {
    hide Values, Column, Numbers;
    forall i | 1 <= i < AXES ensures Variance(Values(img, r.blocks, i)) < WORD {
      ColumnIs(img, i);
      Permuted(img, r.blocks, Numbers(|img|), i);
    }
  }

  lemma CalmParts(img: seq<Vector>, r: Region, low: Region, high: Region)
    requires CalmRegion(img, r) && Listed(img, low.blocks) && Listed(img, high.blocks)
    requires multiset(low.blocks) + multiset(high.blocks) == multiset(r.blocks)
    ensures CalmRegion(img, low) && CalmRegion(img, high)
  {
    hide Values, Variance;
    forall i | 1 <= i < AXES
      ensures Variance(Values(img, low.blocks, i)) < WORD && Variance(Values(img, high.blocks, i)) < WORD
    {
      PartCalmer(img, r.blocks, low.blocks, high.blocks, i);
      PartCalmer(img, r.blocks, high.blocks, low.blocks, i);
    }
  }

  /** A calm region is stuck only if all of its blocks are alike, and then it has no error. */
  lemma CalmNotStuck(img: seq<Vector>, r: Region)
    requires Exact(img, r) && CalmRegion(img, r) && |r.blocks| >= 2
    ensures Stuck(r) ==> QuadraticError(img, r.blocks) == 0
  {
    AxesOf(img, r);
    hide Exact, Values, Variance, Cov, QuadraticError, Constant, TotalVariance;
    if Stuck(r) {
      forall i | 0 <= i < AXES ensures Variance(Values(img, r.blocks, i)) == 0 {
        CovIs(img, r, i);
      }
      NoVariance(img, r.blocks, AXES);
      NoError(img, r.blocks);
    }
  }

  lemma NoError(img: seq<Vector>, list: seq<nat>)
    requires Listed(img, list) && |list| >= 2 && TotalVariance(img, list, AXES) == 0
    ensures QuadraticError(img, list) == 0
  {
    hide QuadraticError, TotalVariance, Values;
    ErrorIs(img, list);
    var e := QuadraticError(img, list);
    if e > 0 {
      Times(|list|, 0, e - 1);
    }
  }

  lemma {:induction false} NoVariance(img: seq<Vector>, list: seq<nat>, n: nat)
    requires Listed(img, list) && n <= AXES
    requires forall i :: 0 <= i < n ==> Variance(Values(img, list, i)) == 0
    ensures TotalVariance(img, list, n) == 0
  {
    if n > 0 {
      NoVariance(img, list, n - 1);
    }
  }

  // ----- the first region -----

  /** All blocks together are stuck. */
  ghost predicate StuckImage(img: seq<Vector>) {
    Variance(Column(img, 0)) == 0 && forall i :: 1 <= i < AXES ==> Cut(Variance(Column(img, i))) == 0
  }

  /** The error of all blocks together. */
  ghost function ImageError(img: seq<Vector>): int {
    QuadraticError(img, Numbers(|img|))
  }

  lemma StuckAtFirst(img: seq<Vector>, r: Region)
    requires Exact(img, r) && multiset(r.blocks) == multiset(Numbers(|img|))
    ensures r.count == |img| && QuadraticError(img, r.blocks) == ImageError(img)
    ensures Stuck(r) <==> StuckImage(img)
  {
    AxesOf(img, r);
    SameLength(r.blocks, Numbers(|img|));
    ColumnIs(img, 0);
    ErrorPermuted(img, r.blocks, Numbers(|img|), AXES);
    hide Values, Column, Numbers;
    forall i | 0 <= i < AXES ensures Cov(r, i) == Variance(Column(img, i)) {
      ColumnIs(img, i);
      CovIs(img, r, i);
      Permuted(img, r.blocks, Numbers(|img|), i);
    }
  }

  // ----- small images -----

  /** Images of up to 514 blocks are calm. */
  lemma SmallImage(img: seq<Vector>)
    requires |img| <= 514
    ensures Calm(img)
  {
    forall i | 1 <= i < AXES ensures Variance(Column(img, i)) < WORD {
      SmallVariance(Column(img, i));
    }
  }

  lemma SmallVariance(s: seq<nat>)
    requires |s| <= 514 && forall i :: 0 <= i < |s| ==> s[i] < 256
    ensures Variance(s) < WORD
  {
    SquaresBySum(s);
    Bounds(s);
    var n, t := |s|, Sum(s);
    Times(n, SumSq(s), 255 * t);
    assert n * (255 * t) == t * (255 * n);
    Distribute(t, 255 * n, -t);
    Balanced(t, 255 * n);
    Times(255 * n, 255 * n, 255 * 514);
    Times(255 * 514, 255 * n, 255 * 514);
  }

  lemma {:induction false} SquaresBySum(s: seq<nat>)
    requires forall i :: 0 <= i < |s| ==> s[i] < 256
    ensures SumSq(s) <= 255 * Sum(s)
  {
    if s != [] {
      SquaresBySum(s[1..]);
      Times(s[0], s[0], 255);
    }
  }

  /** A product is largest for equal factors. */
  lemma Balanced(t: nat, m: nat)
    ensures 4 * (t * (m - t)) <= m * m
  {
    var d := m - 2 * t;
    Square(d);
    SquareOfDifference(m, 2 * t);
    var u: int := t;
    Distribute(t, m, -u);
    assert 2 * t * (2 * t) == 4 * (t * t) && 2 * t * m == 2 * (t * m);
  }

  // ----- images of two kinds of blocks -----

  predicate TwoKinds(img: seq<Vector>, v: Vector, w: Vector) {
    forall k :: 0 <= k < |img| ==> img[k] == v || img[k] == w
  }

  /** The number of blocks with the features w. */
  function Number(img: seq<Vector>, w: Vector): (n: nat)
    ensures n <= |img|
  {
    if img == [] then 0 else (if img[0] == w then 1 else 0) + Number(img[1..], w)
  }

  /** The sum of m values x and n values y, and that of their squares. */
  function Mixed(m: nat, n: nat, x: nat, y: nat): nat { m * x + n * y }
  function MixedSq(m: nat, n: nat, x: nat, y: nat): nat { m * (x * x) + n * (y * y) }

  lemma MixedMore(m: nat, n: nat, x: nat, y: nat)
    ensures Mixed(m + 1, n, x, y) == x + Mixed(m, n, x, y) && Mixed(m, n + 1, x, y) == y + Mixed(m, n, x, y)
    ensures MixedSq(m + 1, n, x, y) == x * x + MixedSq(m, n, x, y)
    ensures MixedSq(m, n + 1, x, y) == y * y + MixedSq(m, n, x, y)
  {
    Distribute(x, m, 1);
    Distribute(y, n, 1);
    Distribute(x * x, m, 1);
    Distribute(y * y, n, 1);
  }

  lemma {:induction false} KindsSums(img: seq<Vector>, v: Vector, w: Vector, axis: nat)
    requires TwoKinds(img, v, w) && axis < AXES
    ensures var m, n, s := |img| - Number(img, w), Number(img, w), Column(img, axis);
            Sum(s) == Mixed(m, n, v[axis], w[axis]) && SumSq(s) == MixedSq(m, n, v[axis], w[axis])
  {
    if img != [] {
      KindsSums(img[1..], v, w, axis);
      assert Column(img, axis)[1..] == Column(img[1..], axis) && Column(img, axis)[0] == img[0][axis];
      MixedMore(|img| - 1 - Number(img[1..], w), Number(img[1..], w), v[axis], w[axis]);
      hide Mixed, MixedSq, Column;
    }
  }

  /** What two kinds of blocks, m of one and n of the other, add to the variance. */
  function Apart(m: nat, n: nat, x: nat, y: nat): int {
    m * n * ((y - x) * (y - x))
  }

  lemma ApartIs(m: nat, n: nat, x: nat, y: nat)
    ensures (m + n) * MixedSq(m, n, x, y) - Mixed(m, n, x, y) * Mixed(m, n, x, y) == Apart(m, n, x, y)
  {
    var mn, p, q := m * n, m * (x * x), n * (y * y);
    SquareOfSum(m * x, n * y);
    Products(m, n, x, y);
    Distribute(m + n, p, q);
    Distribute(p, m, n);
    Distribute(q, m, n);
    SquareOfDifference(y, x);
    Distribute(mn, y * y - 2 * (x * y), x * x);
    Distribute(mn, y * y, -2 * (x * y));
    assert mn * (-2 * (x * y)) == -2 * (mn * (x * y));
  }

  lemma Products(m: nat, n: nat, x: nat, y: nat)
    ensures m * x * (n * y) == m * n * (x * y)
    ensures m * x * (m * x) == m * (m * (x * x)) && n * y * (n * y) == n * (n * (y * y))
    ensures n * (m * (x * x)) == m * n * (x * x) && m * (n * (y * y)) == m * n * (y * y)
  {
  }

  /** The variance of an image of two kinds on an axis. */
  ghost function KindsVariance(img: seq<Vector>, v: Vector, w: Vector, axis: nat): int
    requires axis < AXES
  {
    Apart(|img| - Number(img, w), Number(img, w), v[axis], w[axis])
  }

  lemma KindsVarianceIs(img: seq<Vector>, v: Vector, w: Vector, axis: nat)
    requires TwoKinds(img, v, w) && axis < AXES
    ensures Variance(Column(img, axis)) == KindsVariance(img, v, w, axis)
  {
    hide Number, Column;
    KindsSums(img, v, w, axis);
    ApartIs(|img| - Number(img, w), Number(img, w), v[axis], w[axis]);
  }

  ghost function KindsTotal(img: seq<Vector>, v: Vector, w: Vector, n: nat): int
    requires n <= AXES
  {
    if n == 0 then 0 else KindsTotal(img, v, w, n - 1) + KindsVariance(img, v, w, n - 1)
  }

  lemma {:induction false} KindsTotalIs(img: seq<Vector>, v: Vector, w: Vector, n: nat)
    requires TwoKinds(img, v, w) && n <= AXES
    ensures Listed(img, Numbers(|img|)) && TotalVariance(img, Numbers(|img|), n) == KindsTotal(img, v, w, n)
  {
    ColumnIs(img, 0);
    hide KindsVariance, Numbers, Column;
    if n > 0 {
      KindsTotalIs(img, v, w, n - 1);
      KindsVarianceIs(img, v, w, n - 1);
      ColumnIs(img, n - 1);
    }
  }

  /** Exactly when the blocks of such an image are stuck. */
  lemma KindsStuck(img: seq<Vector>, v: Vector, w: Vector)
    requires TwoKinds(img, v, w)
    ensures StuckImage(img) <==>
            KindsVariance(img, v, w, 0) == 0 && forall i :: 1 <= i < AXES ==> Cut(KindsVariance(img, v, w, i)) == 0
  {
    hide KindsVariance, Variance, Column, Cut;
    forall i | 0 <= i < AXES ensures Variance(Column(img, i)) == KindsVariance(img, v, w, i) {
      KindsVarianceIs(img, v, w, i);
    }
  }

  /** The error of such an image. */
  lemma KindsError(img: seq<Vector>, v: Vector, w: Vector)
    requires TwoKinds(img, v, w) && |img| >= 2
    ensures var e := ImageError(img);
            e >= 0 && |img| * (e - 1) < KindsTotal(img, v, w, AXES) <= |img| * e
  {
    hide KindsTotal, TotalVariance, QuadraticError, Numbers;
    KindsTotalIs(img, v, w, AXES);
    ErrorIs(img, Numbers(|img|));
  }

  /** The features are the same but for one axis. */
  predicate DifferOn(v: Vector, w: Vector, axis: nat) {
    axis < AXES && forall i :: 0 <= i < AXES && i != axis ==> v[i] == w[i]
  }

  /** Two kinds that differ by d on one axis but the first are stuck exactly if the product of their
      numbers and the square of d is a multiple of 2^32. */
  lemma OneAxisStuck(img: seq<Vector>, v: Vector, w: Vector, axis: nat)
    requires TwoKinds(img, v, w) && 1 <= axis < AXES && DifferOn(v, w, axis)
    ensures var p := Apart(|img| - Number(img, w), Number(img, w), v[axis], w[axis]);
            (StuckImage(img) <==> p % 0x1_0000_0000 == 0) && KindsTotal(img, v, w, AXES) == p
  {
    hide Number, Cut, StuckImage, KindsTotal;
    KindsStuck(img, v, w);
    forall i | 0 <= i < AXES && i != axis ensures KindsVariance(img, v, w, i) == 0 {
      NotApart(|img| - Number(img, w), Number(img, w), v[i]);
    }
    OneTerm(img, v, w, axis, AXES);
    hide KindsVariance;
    CutZero(KindsVariance(img, v, w, axis));
  }

  lemma NotApart(m: nat, n: nat, x: nat)
    ensures Apart(m, n, x, x) == 0
  {
  }

  lemma CutZero(x: int)
    ensures Cut(0) == 0 && Cut(x) == x % 0x1_0000_0000
  {
  }

  lemma {:induction false} OneTerm(img: seq<Vector>, v: Vector, w: Vector, axis: nat, n: nat)
    requires axis < AXES && n <= AXES
    requires forall i :: 0 <= i < AXES && i != axis ==> KindsVariance(img, v, w, i) == 0
    ensures KindsTotal(img, v, w, n) == if n <= axis then 0 else KindsVariance(img, v, w, axis)
  {
    hide KindsVariance;
    if n > 0 {
      OneTerm(img, v, w, axis, n - 1);
    }
  }

  // ----- putting such images together -----

  function Repeat(v: Vector, n: nat): (img: seq<Vector>)
    ensures |img| == n
  {
    seq(n, _ => v)
  }

  lemma {:induction false} NumberConcat(a: seq<Vector>, b: seq<Vector>, w: Vector)
    ensures Number(a + b, w) == Number(a, w) + Number(b, w)
  {
    if a == [] {
      assert a + b == b;
    } else {
      NumberConcat(a[1..], b, w);
      assert (a + b)[1..] == a[1..] + b;
    }
  }

  lemma {:induction false} NumberRepeat(v: Vector, n: nat, w: Vector)
    ensures Number(Repeat(v, n), w) == if v == w then n else 0
  {
    if n > 0 {
      NumberRepeat(v, n - 1, w);
      assert Repeat(v, n)[1..] == Repeat(v, n - 1);
    }
  }
}
