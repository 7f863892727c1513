/**
 Comparison of image signatures by integrated region matching: the weights of the regions are
 normalised to 128, and a greedy transport moves them from one image to the other in the order
 of increasing distance of regions. The transport loop checks no bounds; it stays within the
 matrix of distances because of how the weights were normalised.
 */
module ImageMatch {
  import opened Powers
  import opened Sums
  import opened ImageRegions

  const TOTAL := 128

  // ----- weights of regions -----

  function Clamp(x: int, min: int, max: int): int {
    if x < min then min else if x > max then max else x
  }

  /** The weights of the last regions: each is its share, but at least 1 and so small that
      something is left for every region before it. */
  ghost predicate Clamped(shares: seq<nat>, weights: seq<nat>) {
    |weights| <= |shares| &&
    (weights != [] ==> Clamped(shares, weights[1..]) && weights[0] == Capped(shares, weights[1..]))
  }

  /** The weight of the region before those with the given weights. */
  function Capped(shares: seq<nat>, after: seq<nat>): int
    requires |after| < |shares|
  {
    var i := |shares| - 1 - |after|;
    Clamp(shares[i], 1, TOTAL - Sum(after) - i)
  }

  /** The weights for given shares: positive with sum 128, and all but the first are the shares as
      far as there is room for them. Where every share is positive and they do not exceed 128
      together, as is the case for shares of a whole, the weights are the shares except that the
      first region gets what rounding lost. */
  ghost predicate Normalized(shares: seq<nat>, weights: seq<nat>) {
    && |weights| == |shares| >= 1 && Sum(weights) == TOTAL && Clamped(shares, weights[1..])
    && (forall i :: 0 <= i < |weights| ==> 1 <= weights[i] <= TOTAL)
    && (Sum(shares) <= TOTAL && (forall i :: 0 <= i < |shares| ==> shares[i] >= 1) ==>
          weights[1..] == shares[1..] && weights[0] == shares[0] + (TOTAL - Sum(shares)))
  }

  /** Makes weights of shares in units of 1/128, rounded down. */
  method NormalizeWeights(shares: seq<nat>) returns (weights: seq<nat>)
    requires 1 <= |shares| <= REG_MAX
    ensures Normalized(shares, weights)
  {
    hide Sum, Normalized, Clamped, Clamp;
    weights := [];
    var w: nat := TOTAL;
    Nothing(shares);
    var i := |shares| - 1;
    ghost var exact := Sum(shares) <= TOTAL && forall i :: 0 <= i < |shares| ==> shares[i] >= 1;
    while i > 0
      invariant 0 <= i < |shares| && w >= i + 1 && |weights| == |shares| - 1 - i
      invariant w + Sum(weights) == TOTAL && Clamped(shares, weights)
      invariant forall j :: 0 <= j < |weights| ==> weights[j] >= 1
      invariant exact ==> weights == shares[i + 1..]
    {
      if exact {
        ShareFits(shares, i);
      }
      ClampBounds(shares[i], w - i);
      var v: nat := Clamp(shares[i], 1, w - i);
      ClampedMore(shares, weights, w);
      assert shares[i..] == [shares[i]] + shares[i + 1..];
      weights := [v] + weights;
      w := w - v;
      i := i - 1;
    }
    NormalizedIs(shares, weights, w, exact);
    weights := [w] + weights;
  }

  lemma Nothing(shares: seq<nat>)
    ensures Clamped(shares, []) && Sum([]) == 0
  {
  }

  lemma ClampBounds(share: nat, room: nat)
    requires room >= 1
    ensures 1 <= Clamp(share, 1, room) <= room && (1 <= share <= room ==> Clamp(share, 1, room) == share)
  {
  }

  /** One region more, of those from the last one on. */
  lemma ClampedMore(shares: seq<nat>, weights: seq<nat>, w: nat)
    requires |weights| < |shares| && w + Sum(weights) == TOTAL && Clamped(shares, weights)
    requires w >= |shares| - |weights|
    ensures var i := |shares| - 1 - |weights|;
            var v: nat := Clamp(shares[i], 1, w - i);
            Clamped(shares, [v] + weights) && Sum([v] + weights) == v + Sum(weights)
  {
    hide Sum, Clamp, Clamped;
    var i := |shares| - 1 - |weights|;
    ClampBounds(shares[i], w - i);
    var v: nat := Clamp(shares[i], 1, w - i);
    Prepend(v, weights);
    ClampedCons(shares, weights, v);
  }

  lemma ClampedCons(shares: seq<nat>, weights: seq<nat>, v: nat)
    requires |weights| < |shares| && Clamped(shares, weights) && v == Capped(shares, weights)
    ensures Clamped(shares, [v] + weights)
  {
    hide Capped;
    assert ([v] + weights)[1..] == weights;
  }

  /** The first region gets what is left. */
  lemma NormalizedIs(shares: seq<nat>, weights: seq<nat>, w: nat, exact: bool)
    requires |shares| == |weights| + 1 && w >= 1 && w + Sum(weights) == TOTAL && Clamped(shares, weights)
    requires forall j :: 0 <= j < |weights| ==> weights[j] >= 1
    requires exact <==> Sum(shares) <= TOTAL && forall i :: 0 <= i < |shares| ==> shares[i] >= 1
    requires exact ==> weights == shares[1..]
    ensures Normalized(shares, [w] + weights)
  {
    hide Sum, Clamped;
    Prepend(w, weights);
    Prepend(shares[0], shares[1..]);
    assert shares == [shares[0]] + shares[1..];
    forall j | 0 <= j < |[w] + weights| ensures 1 <= ([w] + weights)[j] <= TOTAL {
      TermBound([w] + weights, j);
    }
  }

  lemma Prepend(v: nat, s: seq<nat>)
    ensures Sum([v] + s) == v + Sum(s) && ([v] + s)[1..] == s
  {
    assert ([v] + s)[1..] == s;
  }

  /** Positive shares with a sum up to 128 leave room for those before and after. */
  lemma ShareFits(shares: seq<nat>, i: nat)
    requires i < |shares| && forall i :: 0 <= i < |shares| ==> shares[i] >= 1
    ensures shares[i] + Sum(shares[i + 1..]) + i <= Sum(shares)
  {
    hide Sum;
    assert shares == shares[..i] + ([shares[i]] + shares[i + 1..]);
    SumConcat(shares[..i], [shares[i]] + shares[i + 1..]);
    Prepend(shares[i], shares[i + 1..]);
    SumAtLeast(shares[..i]);
  }

  // ----- the matrix of distances -----

  /** An entry of the matrix: the distance and the numbers of the two regions in one word. A
      distance over 24 bits loses its top. */
  function Pack(d: nat, i: nat, j: nat): (e: Word)
    requires i < 16 && j < 16
    ensures First(e) == i && Second(e) == j && Distance(e) == d % 0x100_0000
  {
    PackParts(d, i, j);
    (d * 256 + i + 16 * j) % WORD
  }

  function First(e: Word): nat { e % 16 }
  function Second(e: Word): nat { e / 16 % 16 }
  function Distance(e: Word): nat { e / 256 }

  lemma PackParts(d: nat, i: nat, j: nat)
    requires i < 16 && j < 16
    ensures var e := (d * 256 + i + 16 * j) % WORD;
            e % 16 == i && e / 16 % 16 == j && e / 256 == d % 0x100_0000
  {
    var low := d % 0x100_0000;
    Division(d * 256 + i + 16 * j, d / 0x100_0000, 256 * low + i + 16 * j, WORD);
    var e := 256 * low + i + 16 * j;
    Division(e, low * 16 + j, i, 16);
    Division(low * 16 + j, low, j, 16);
    Division(e, low, i + 16 * j, 256);
  }

  /** The entry of a pair of regions. */
  ghost predicate IsEntry(d: (nat, nat) -> nat, e: Word, len1: nat, len2: nat)
    requires len1 <= REG_MAX && len2 <= REG_MAX
  {
    First(e) < len1 && Second(e) < len2 && e == Pack(d(First(e), Second(e)), First(e), Second(e))
  }

  /** The matrix of distances, in any order: entries of pairs of regions, one for each pair. */
  ghost predicate IsMatrix(d: (nat, nat) -> nat, dist: seq<Word>, len1: nat, len2: nat)
    requires len1 <= REG_MAX && len2 <= REG_MAX
  {
    && (forall k :: 0 <= k < |dist| ==> IsEntry(d, dist[k], len1, len2))
    && (forall k, m :: 0 <= k < m < |dist| ==> First(dist[k]) != First(dist[m]) || Second(dist[k]) != Second(dist[m]))
    && (forall i, j :: 0 <= i < len1 && 0 <= j < len2 ==> HasEntry(dist, i, j))
  }

  ghost predicate HasEntry(dist: seq<Word>, i: nat, j: nat) {
    exists k :: 0 <= k < |dist| && First(dist[k]) == i && Second(dist[k]) == j
  }

  /** The matrix as far as it has been filled: up to region j of the second image, and for this one
      up to region i of the first. */
  ghost predicate Filled(d: (nat, nat) -> nat, dist: seq<Word>, len1: nat, len2: nat, i: nat, j: nat)
    requires len1 <= REG_MAX && len2 <= REG_MAX
  {
    && (forall k :: 0 <= k < |dist| ==> IsEntry(d, dist[k], len1, len2) && Before(dist[k], i, j))
    && (forall k, m :: 0 <= k < m < |dist| ==> First(dist[k]) != First(dist[m]) || Second(dist[k]) != Second(dist[m]))
    && (forall i', j' :: 0 <= i' < len1 && 0 <= j' < len2 && (j' < j || (j' == j && i' < i)) ==> HasEntry(dist, i', j'))
  }

  predicate Before(e: Word, i: nat, j: nat) {
    Second(e) < j || (Second(e) == j && First(e) < i)
  }

  lemma FilledMore(d: (nat, nat) -> nat, dist: seq<Word>, len1: nat, len2: nat, i: nat, j: nat)
    requires len1 <= REG_MAX && len2 <= REG_MAX && i < len1 && j < len2 && Filled(d, dist, len1, len2, i, j)
    ensures Filled(d, dist + [Pack(d(i, j), i, j)], len1, len2, i + 1, j)
  {
    var e := Pack(d(i, j), i, j);
    hide First, Second, Pack;
    var more := dist + [e];
    assert more[|dist|] == e;
    forall i', j' | 0 <= i' < len1 && 0 <= j' < len2 && (j' < j || (j' == j && i' < i + 1))
      ensures HasEntry(more, i', j')
    {
      if i' != i || j' != j {
        assert HasEntry(dist, i', j');
        var k :| 0 <= k < |dist| && First(dist[k]) == i' && Second(dist[k]) == j';
        assert more[k] == dist[k];
      }
    }
  }

  /** Distances between all pairs of regions, in the order of the regions. */
  method DistanceMatrix(d: (nat, nat) -> nat, len1: nat, len2: nat) returns (dist: seq<Word>)
    requires len1 <= REG_MAX && len2 <= REG_MAX
    ensures |dist| == len1 * len2 && IsMatrix(d, dist, len1, len2)
  {
    hide IsEntry, First, Second, Pack;
    dist := [];
    var j := 0;
    while j < len2
      invariant 0 <= j <= len2 && |dist| == len1 * j && Filled(d, dist, len1, len2, 0, j)
    {
      var i := 0;
      while i < len1
        invariant 0 <= i <= len1 && |dist| == len1 * j + i && Filled(d, dist, len1, len2, i, j)
      {
        FilledMore(d, dist, len1, len2, i, j);
        dist := dist + [Pack(d(i, j), i, j)];
        i := i + 1;
      }
      RowFilled(d, dist, len1, len2, j);
      j := j + 1;
    }
  }

  lemma RowFilled(d: (nat, nat) -> nat, dist: seq<Word>, len1: nat, len2: nat, j: nat)
    requires len1 <= REG_MAX && len2 <= REG_MAX && Filled(d, dist, len1, len2, len1, j)
    ensures Filled(d, dist, len1, len2, 0, j + 1)
  {
    hide First, Second, Pack;
  }

  // ----- the transport -----

  /** The matrix, in any order: it names only regions there are, and every pair of them. */
  ghost predicate Complete(dist: seq<Word>, len1: nat, len2: nat) {
    && (forall k :: 0 <= k < |dist| ==> First(dist[k]) < len1 && Second(dist[k]) < len2)
    && (forall i, j :: 0 <= i < len1 && 0 <= j < len2 ==>
          HasEntry(dist, i, j))
  }

  /** What has been moved from region i of the first image. */
  function Sent(dist: seq<Word>, moved: seq<nat>, i: nat): nat
    requires |dist| >= |moved|
  {
    if moved == [] then 0
    else
      var k := |moved| - 1;
      Sent(dist, moved[..k], i) + if First(dist[k]) == i then moved[k] else 0
  }

  /** What has been moved to region j of the second image. */
  function Received(dist: seq<Word>, moved: seq<nat>, j: nat): nat
    requires |dist| >= |moved|
  {
    if moved == [] then 0
    else
      var k := |moved| - 1;
      Received(dist, moved[..k], j) + if Second(dist[k]) == j then moved[k] else 0
  }

  /** The cost of the moves. */
  function Cost(dist: seq<Word>, moved: seq<nat>): nat
    requires |dist| >= |moved|
  {
    if moved == [] then 0
    else
      var k := |moved| - 1;
      Cost(dist, moved[..k]) + moved[k] * Distance(dist[k])
  }

  /** What has been moved from region i of the first image to region j of the second. */
  function Amount(dist: seq<Word>, moved: seq<nat>, i: nat, j: nat): nat
    requires |dist| >= |moved|
  {
    if moved == [] then 0
    else
      var k := |moved| - 1;
      Amount(dist, moved[..k], i, j) + if First(dist[k]) == i && Second(dist[k]) == j then moved[k] else 0
  }

  /** Each move takes as much as both regions still have. */
  ghost predicate Greedy(dist: seq<Word>, moved: seq<nat>, p: seq<nat>, q: seq<nat>) {
    |moved| <= |dist| && forall k :: 0 <= k < |moved| ==> GreedyAt(dist, moved, p, q, k)
  }

  ghost predicate GreedyAt(dist: seq<Word>, moved: seq<nat>, p: seq<nat>, q: seq<nat>, k: nat)
    requires k < |moved| <= |dist|
  {
    && First(dist[k]) < |p| && Second(dist[k]) < |q|
    && var a, b := Left(dist, moved, p, k), LeftTo(dist, moved, q, k);
       moved[k] == if a <= b then a else b
  }

  /** What the region of entry k can still send, or receive, after the moves before it. */
  ghost function Left(dist: seq<Word>, moved: seq<nat>, p: seq<nat>, k: nat): int
    requires k <= |moved| && k < |dist| && First(dist[k]) < |p|
  {
    p[First(dist[k])] - Sent(dist, moved[..k], First(dist[k]))
  }

  ghost function LeftTo(dist: seq<Word>, moved: seq<nat>, q: seq<nat>, k: nat): int
    requires k <= |moved| && k < |dist| && Second(dist[k]) < |q|
  {
    q[Second(dist[k])] - Received(dist, moved[..k], Second(dist[k]))
  }

  lemma GreedyMore(dist: seq<Word>, moved: seq<nat>, p: seq<nat>, q: seq<nat>, s: nat)
    requires Greedy(dist, moved, p, q) && |moved| < |dist|
    requires First(dist[|moved|]) < |p| && Second(dist[|moved|]) < |q|
    requires var i, j := First(dist[|moved|]), Second(dist[|moved|]);
             var a, b := p[i] - Sent(dist, moved, i), q[j] - Received(dist, moved, j);
             s == if a <= b then a else b
    ensures Greedy(dist, moved + [s], p, q)
  {
    hide First, Second, Sent, Received;
    var n := moved + [s];
    assert n[..|moved|] == moved;
    forall k | 0 <= k < |n| ensures GreedyAt(dist, n, p, q, k) {
      assert k < |moved| ==> n[..k] == moved[..k] && GreedyAt(dist, moved, p, q, k);
    }
  }

  /** Of the weights p0 and q0 there are p and q left; every entry before has been used up. */
  ghost predicate Moving(dist: seq<Word>, moved: seq<nat>, p0: seq<nat>, q0: seq<nat>, p: seq<nat>, q: seq<nat>) {
    && |p| == |p0| && |q| == |q0| && Greedy(dist, moved, p0, q0)
    && (forall m :: 0 <= m < |moved| ==> UsedUp(dist[m], p, q))
    && (forall i :: 0 <= i < |p| ==> p[i] + Sent(dist, moved, i) == p0[i])
    && (forall j :: 0 <= j < |q| ==> q[j] + Received(dist, moved, j) == q0[j])
  }

  ghost predicate UsedUp(e: Word, p: seq<nat>, q: seq<nat>) {
    First(e) < |p| && Second(e) < |q| && (p[First(e)] == 0 || q[Second(e)] == 0)
  }

  lemma MovingNone(dist: seq<Word>, p: seq<nat>, q: seq<nat>)
    ensures Moving(dist, [], p, q, p, q)
  {
    NothingMoved(dist);
  }

  /** One more move, of as much as both regions have. */
  lemma MovingMore(dist: seq<Word>, moved: seq<nat>, p0: seq<nat>, q0: seq<nat>, p: seq<nat>, q: seq<nat>, s: nat)
    requires Moving(dist, moved, p0, q0, p, q) && |moved| < |dist|
    requires First(dist[|moved|]) < |p| && Second(dist[|moved|]) < |q|
    requires var i, j := First(dist[|moved|]), Second(dist[|moved|]); s == if p[i] <= q[j] then p[i] else q[j]
    ensures var i, j := First(dist[|moved|]), Second(dist[|moved|]);
            Moving(dist, moved + [s], p0, q0, p[i := p[i] - s], q[j := q[j] - s])
  {
    hide First, Second, Distance, Sent, Received, Cost, Sum, Greedy;
    GreedyMore(dist, moved, p0, q0, s);
    MovedMore(dist, moved, s);
    var i, j := First(dist[|moved|]), Second(dist[|moved|]);
    forall m | 0 <= m < |moved + [s]| ensures UsedUp(dist[m], p[i := p[i] - s], q[j := q[j] - s]) {
      assert m < |moved| ==> UsedUp(dist[m], p, q);
    }
  }

  /** In the end everything has been moved. */
  lemma AllMoved(dist: seq<Word>, moved: seq<nat>, p0: seq<nat>, q0: seq<nat>, p: seq<nat>, q: seq<nat>)
    requires Moving(dist, moved, p0, q0, p, q) && Sum(p) == 0 && Sum(q) == 0
    ensures |p| == |p0| && |q| == |q0| && Greedy(dist, moved, p0, q0)
    ensures forall i :: 0 <= i < |p| ==> p[i] == 0 && Sent(dist, moved, i) == p0[i]
    ensures forall j :: 0 <= j < |q| ==> q[j] == 0 && Received(dist, moved, j) == q0[j]
  {
    hide Sent, Received, Greedy, UsedUp, Sum;
    AllZero(p);
    AllZero(q);
  }

  /** While something is left to be moved there is an entry of the matrix that has not been used. */
  lemma EntryLeft(dist: seq<Word>, moved: seq<nat>, p0: seq<nat>, q0: seq<nat>, p: seq<nat>, q: seq<nat>)
    requires Moving(dist, moved, p0, q0, p, q) && Complete(dist, |p|, |q|) && Sum(p) > 0 && Sum(q) > 0
    ensures |moved| < |dist|
  {
    hide First, Second, Sent, Received, Sum;
    var i := Positive(p);
    var j := Positive(q);
    assert HasEntry(dist, i, j);
    var m :| 0 <= m < |dist| && First(dist[m]) == i && Second(dist[m]) == j;
    assert m < |moved| ==> UsedUp(dist[m], p, q);
  }

  /** The cost fits into 32 bits. */
  lemma {:induction false} CostBound(dist: seq<Word>, moved: seq<nat>)
    requires |dist| >= |moved|
    ensures Cost(dist, moved) <= Sum(moved) * 0xff_ffff
  {
    if moved != [] {
      var k := |moved| - 1;
      CostBound(dist, moved[..k]);
      assert moved == moved[..k] + [moved[k]];
      SumConcat(moved[..k], [moved[k]]);
      assert Distance(dist[k]) <= 0xff_ffff;
      Times(moved[k], Distance(dist[k]), 0xff_ffff);
    }
  }

  lemma CostFits(dist: seq<Word>, moved: seq<nat>)
    requires |dist| >= |moved| && Sum(moved) <= TOTAL
    ensures Cost(dist, moved) < 0x1_0000_0000
  {
    CostBound(dist, moved);
    Times(0xff_ffff, Sum(moved), TOTAL);
  }

  /** Moves the weights p to the weights q along the entries of the matrix. It ends within the
      matrix, whatever its order, and then exactly the weights have been moved. */
  method Transport(dist: seq<Word>, p: array<nat>, q: array<nat>) returns (sum: Word, ghost moved: seq<nat>)
    requires p != q && Complete(dist, p.Length, q.Length)
    requires Sum(p[..]) == TOTAL && Sum(q[..]) == TOTAL
    modifies p, q
    ensures |moved| <= |dist| && Sum(moved) == TOTAL
    ensures forall i :: 0 <= i < p.Length ==> p[i] == 0 && Sent(dist, moved, i) == old(p[i])
    ensures forall j :: 0 <= j < q.Length ==> q[j] == 0 && Received(dist, moved, j) == old(q[j])
    ensures sum == Cost(dist, moved) && Greedy(dist, moved, old(p[..]), old(q[..]))
  {
    hide *;
    hide First, Second, Distance;
    sum, moved := 0, [];
    var k, l := 0, TOTAL;
    ghost var p0, q0 := p[..], q[..];
    NothingMoved(dist);
    MovingNone(dist, p0, q0);
    while l > 0
      invariant |moved| == k <= |dist| && l >= 0
      invariant Sum(p[..]) == l && Sum(q[..]) == l && Sum(moved) == TOTAL - l
      invariant sum == Cost(dist, moved) && Moving(dist, moved, p0, q0, p[..], q[..])
      decreases |dist| - k
    {
      EntryLeft(dist, moved, p0, q0, p[..], q[..]);
      var i, j, d := First(dist[k]), Second(dist[k]), Distance(dist[k]);
      InMatrix(dist, p.Length, q.Length, k);
      ghost var p1, q1 := p[..], q[..];
      var s := Move(p, q, i, j);
      assert p[..] == p1[i := p1[i] - s] && q[..] == q1[j := q1[j] - s];
      MovingMore(dist, moved, p0, q0, p1, q1, s);
      MovedMore(dist, moved, s);
      CostFits(dist, moved + [s]);
      l := l - s;
      sum := sum + s * d;
      moved := moved + [s];
      k := k + 1;
    }
    AllMoved(dist, moved, p0, q0, p[..], q[..]);
    assert forall i :: 0 <= i < p.Length ==> p[i] == p[..][i] && old(p[i]) == p0[i];
    assert forall j :: 0 <= j < q.Length ==> q[j] == q[..][j] && old(q[j]) == q0[j];
  }

  /** Moves as much as possible between two regions. */
  method Move(p: array<nat>, q: array<nat>, i: nat, j: nat) returns (s: nat)
    requires p != q && i < p.Length && j < q.Length
    modifies p, q
    ensures s == if old(p[i]) <= old(q[j]) then old(p[i]) else old(q[j])
    ensures p[i] == old(p[i]) - s && forall m :: 0 <= m < p.Length && m != i ==> p[m] == old(p[m])
    ensures q[j] == old(q[j]) - s && forall m :: 0 <= m < q.Length && m != j ==> q[m] == old(q[m])
    ensures Sum(p[..]) == old(Sum(p[..])) - s && Sum(q[..]) == old(Sum(q[..])) - s
  {
    hide Sum;
    ghost var p0, q0 := p[..], q[..];
    if p[i] <= q[j] {
      s := p[i];
      q[j] := q[j] - p[i];
      p[i] := 0;
    } else {
      s := q[j];
      p[i] := p[i] - q[j];
      q[j] := 0;
    }
    assert p[..] == p0[i := p0[i] - s] && q[..] == q0[j := q0[j] - s];
    SumChanged(p0, i, p0[i] - s);
    SumChanged(q0, j, q0[j] - s);
  }

  lemma NothingMoved(dist: seq<Word>)
    ensures Sum([]) == 0 && Cost(dist, []) == 0
    ensures forall i :: Sent(dist, [], i) == 0
    ensures forall j :: Received(dist, [], j) == 0
  {
  }

  lemma InMatrix(dist: seq<Word>, len1: nat, len2: nat, k: nat)
    requires Complete(dist, len1, len2) && k < |dist|
    ensures First(dist[k]) < len1 && Second(dist[k]) < len2
  {
    hide First, Second;
  }

  lemma MovedMore(dist: seq<Word>, moved: seq<nat>, s: nat)
    requires |moved| < |dist|
    ensures var k := |moved|;
            && Sum(moved + [s]) == Sum(moved) + s
            && Cost(dist, moved + [s]) == Cost(dist, moved) + s * Distance(dist[k])
            && (forall i :: Sent(dist, moved + [s], i) == Sent(dist, moved, i) + if First(dist[k]) == i then s else 0)
            && (forall j :: Received(dist, moved + [s], j) ==
                            Received(dist, moved, j) + if Second(dist[k]) == j then s else 0)
  {
    SumConcat(moved, [s]);
    hide First, Second, Distance;
    assert (moved + [s])[..|moved|] == moved;
  }

  // ----- two signatures -----

  function SortedWords(s: seq<Word>): (r: seq<Word>)
    ensures multiset(r) == multiset(s) && Ordered(r)
  {
    var r := Sorted(s);
    assert forall k :: 0 <= k < |r| ==> r[k] in multiset(s);
    r
  }

  /** Sorting keeps the matrix. */
  lemma PermutedMatrix(d: (nat, nat) -> nat, dist: seq<Word>, sorted: seq<Word>, len1: nat, len2: nat)
    requires len1 <= REG_MAX && len2 <= REG_MAX && multiset(sorted) == multiset(dist)
    requires IsMatrix(d, dist, len1, len2)
    ensures IsMatrix(d, sorted, len1, len2) && Complete(sorted, len1, len2)
  {
    hide First, Second, Pack;
    assert forall e :: e in sorted <==> e in multiset(sorted);
    assert forall e :: e in dist <==> e in multiset(dist);
    forall k | 0 <= k < |sorted| ensures IsEntry(d, sorted[k], len1, len2) {
      assert sorted[k] in dist;
    }
    forall i, j | 0 <= i < len1 && 0 <= j < len2 ensures HasEntry(sorted, i, j) {
      assert HasEntry(dist, i, j);
      var k :| 0 <= k < |dist| && First(dist[k]) == i && Second(dist[k]) == j;
      assert dist[k] in sorted;
      var m :| 0 <= m < |sorted| && sorted[m] == dist[k];
    }
    forall k, m | 0 <= k < m < |sorted|
      ensures First(sorted[k]) != First(sorted[m]) || Second(sorted[k]) != Second(sorted[m])
    {
      if sorted[k] == sorted[m] {
        Twice(sorted, k, m);
        Once(dist, sorted[k]);
      }
    }
  }

  lemma Twice(s: seq<Word>, k: nat, m: nat)
    requires k < m < |s| && s[k] == s[m]
    ensures multiset(s)[s[k]] >= 2
  {
    assert s == s[..k] + [s[k]] + s[k + 1..m] + [s[m]] + s[m + 1..];
  }

  lemma {:induction false} Once(s: seq<Word>, e: Word)
    requires forall k, m :: 0 <= k < m < |s| ==> First(s[k]) != First(s[m]) || Second(s[k]) != Second(s[m])
    ensures multiset(s)[e] <= 1
  {
    hide First, Second;
    if s != [] {
      Once(s[1..], e);
      assert s == [s[0]] + s[1..];
      forall k | 0 <= k < |s[1..]| ensures s[1..][k] != s[0] {
        assert s[1..][k] == s[k + 1];
      }
    }
  }

  /** The cost of all that goes to region j from the first n regions: each unit costs the low 24 bits
      of the distance. */
  function CostTo(d: (nat, nat) -> nat, dist: seq<Word>, moved: seq<nat>, n: nat, j: nat): nat
    requires |dist| >= |moved|
  {
    if n == 0 then 0
    else CostTo(d, dist, moved, n - 1, j) + Amount(dist, moved, n - 1, j) * (d(n - 1, j) % 0x100_0000)
  }

  /** The cost of all that goes from the regions of the first image to the first n of the second. */
  function PairCost(d: (nat, nat) -> nat, dist: seq<Word>, moved: seq<nat>, len1: nat, n: nat): nat
    requires |dist| >= |moved|
  {
    if n == 0 then 0 else PairCost(d, dist, moved, len1, n - 1) + CostTo(d, dist, moved, len1, n - 1)
  }

  lemma {:induction false} CostToMore(d: (nat, nat) -> nat, dist: seq<Word>, moved: seq<nat>, n: nat, j: nat)
    requires 0 < |moved| <= |dist|
    ensures var k := |moved| - 1; var i := First(dist[k]);
            CostTo(d, dist, moved, n, j) ==
            CostTo(d, dist, moved[..k], n, j) +
            if i < n && Second(dist[k]) == j then moved[k] * (d(i, j) % 0x100_0000) else 0
  {
    hide First, Second;
    if n > 0 {
      CostToMore(d, dist, moved, n - 1, j);
      var k := |moved| - 1;
      Distribute(d(n - 1, j) % 0x100_0000, Amount(dist, moved[..k], n - 1, j), moved[k]);
    }
  }

  lemma {:induction false} PairCostMore(d: (nat, nat) -> nat, dist: seq<Word>, moved: seq<nat>, len1: nat, n: nat)
    requires 0 < |moved| <= |dist| && First(dist[|moved| - 1]) < len1
    ensures var k := |moved| - 1; var i, j := First(dist[k]), Second(dist[k]);
            PairCost(d, dist, moved, len1, n) ==
            PairCost(d, dist, moved[..k], len1, n) + if j < n then moved[k] * (d(i, j) % 0x100_0000) else 0
  {
    hide First, Second, CostTo;
    if n > 0 {
      PairCostMore(d, dist, moved, len1, n - 1);
      CostToMore(d, dist, moved, len1, n - 1);
    }
  }

  lemma {:induction false} NoPairCost(d: (nat, nat) -> nat, dist: seq<Word>, len1: nat, n: nat)
    ensures PairCost(d, dist, [], len1, n) == 0
  {
    if n > 0 {
      NoPairCost(d, dist, len1, n - 1);
      NoCostTo(d, dist, len1, n - 1);
    }
  }

  lemma {:induction false} NoCostTo(d: (nat, nat) -> nat, dist: seq<Word>, n: nat, j: nat)
    ensures CostTo(d, dist, [], n, j) == 0
  {
    if n > 0 {
      NoCostTo(d, dist, n - 1, j);
    }
  }

  /** The cost of the moves is that of what goes from each region to each other. */
  lemma {:induction false} CostByPairs(d: (nat, nat) -> nat, dist: seq<Word>, moved: seq<nat>, len1: nat, len2: nat)
    requires len1 <= REG_MAX && len2 <= REG_MAX && IsMatrix(d, dist, len1, len2) && |moved| <= |dist|
    ensures Cost(dist, moved) == PairCost(d, dist, moved, len1, len2)
  {
    hide PairCost, IsMatrix;
    if moved == [] {
      NoPairCost(d, dist, len1, len2);
    } else {
      var k := |moved| - 1;
      CostByPairs(d, dist, moved[..k], len1, len2);
      EntryAt(d, dist, len1, len2, k);
      hide First, Second, Distance;
      PairCostMore(d, dist, moved, len1, len2);
    }
  }

  lemma EntryAt(d: (nat, nat) -> nat, dist: seq<Word>, len1: nat, len2: nat, k: nat)
    requires len1 <= REG_MAX && len2 <= REG_MAX && IsMatrix(d, dist, len1, len2) && k < |dist|
    ensures First(dist[k]) < len1 && Second(dist[k]) < len2
    ensures Distance(dist[k]) == d(First(dist[k]), Second(dist[k])) % 0x100_0000
  {
    hide First, Second, Distance;
  }

  /** The match of two signatures: the matrix of their distances in ascending order, and greedy moves
      along it that match the whole weight of every region. */
  ghost predicate IsMatch(shares1: seq<nat>, shares2: seq<nat>, d: (nat, nat) -> nat, weights1: seq<nat>,
                          weights2: seq<nat>, dist: seq<Word>, moved: seq<nat>)
    requires |shares1| <= REG_MAX && |shares2| <= REG_MAX
  {
    && Normalized(shares1, weights1) && Normalized(shares2, weights2)
    && Ordered(dist) && |dist| == |shares1| * |shares2| && IsMatrix(d, dist, |shares1|, |shares2|)
    && |moved| <= |dist| && Sum(moved) == TOTAL && Greedy(dist, moved, weights1, weights2)
    && (forall i :: 0 <= i < |shares1| ==> Sent(dist, moved, i) == weights1[i])
    && (forall j :: 0 <= j < |shares2| ==> Received(dist, moved, j) == weights2[j])
  }

  /** Compares two signatures with regions of the given shares: the result is the cost of matching
      the whole weight of every region. Without regions in one of the images it is the largest
      number. */
  method IntegratedMatch(shares1: seq<nat>, shares2: seq<nat>, d: (nat, nat) -> nat)
    returns (sum: Word, ghost weights1: seq<nat>, ghost weights2: seq<nat>, ghost dist: seq<Word>,
             ghost moved: seq<nat>)
    requires |shares1| <= REG_MAX && |shares2| <= REG_MAX
    ensures shares1 == [] || shares2 == [] ==> sum == 0xffff_ffff
    ensures shares1 != [] && shares2 != [] ==>
              && IsMatch(shares1, shares2, d, weights1, weights2, dist, moved)
              && sum == PairCost(d, dist, moved, |shares1|, |shares2|)
  {
    var matrix := DistanceMatrix(d, |shares1|, |shares2|);
    NoEntries(|shares1|, |shares2|);
    if |matrix| == 0 {
      return 0xffff_ffff, [], [], [], [];
    }
    hide *;
    var w1 := NormalizeWeights(shares1);
    var w2 := NormalizeWeights(shares2);
    weights1, weights2 := w1, w2;
    NormalizedLength(shares1, w1);
    NormalizedLength(shares2, w2);
    var p := new nat[|w1|](i requires 0 <= i < |w1| => w1[i]);
    var q := new nat[|w2|](i requires 0 <= i < |w2| => w2[i]);
    assert p[..] == weights1 && q[..] == weights2;
    var entries := SortedWords(matrix);
    PermutedMatrix(d, matrix, entries, |shares1|, |shares2|);
    assert |entries| == |multiset(entries)| == |matrix|;
    dist := entries;
    sum, moved := Transport(entries, p, q);
    CostByPairs(d, dist, moved, |shares1|, |shares2|);
    Matched(shares1, shares2, d, weights1, weights2, dist, moved);
  }

  lemma NoEntries(m: nat, n: nat)
    ensures m * n == 0 <==> m == 0 || n == 0
  {
  }

  lemma NormalizedLength(shares: seq<nat>, weights: seq<nat>)
    requires Normalized(shares, weights)
    ensures |weights| == |shares| && Sum(weights) == TOTAL
  {
  }

  lemma Matched(shares1: seq<nat>, shares2: seq<nat>, d: (nat, nat) -> nat, weights1: seq<nat>, weights2: seq<nat>,
                dist: seq<Word>, moved: seq<nat>)
    requires |shares1| <= REG_MAX && |shares2| <= REG_MAX
    requires Normalized(shares1, weights1) && Normalized(shares2, weights2)
    requires Ordered(dist) && |dist| == |shares1| * |shares2| && IsMatrix(d, dist, |shares1|, |shares2|)
    requires |moved| <= |dist| && Sum(moved) == TOTAL && Greedy(dist, moved, weights1, weights2)
    requires forall i :: 0 <= i < |shares1| ==> Sent(dist, moved, i) == weights1[i]
    requires forall j :: 0 <= j < |shares2| ==> Received(dist, moved, j) == weights2[j]
    ensures IsMatch(shares1, shares2, d, weights1, weights2, dist, moved)
  {
  }
}
