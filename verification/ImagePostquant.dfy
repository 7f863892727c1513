/**
 Post-quantisation: a few rounds that move each block to the region with the nearest pivot, drop
 regions that become empty and compute new pivots.
 */
module ImagePostquant {
  import opened Powers
  import opened Sums
  import opened ImageRegions
  import opened ImageCalm
  import opened ImageSegment

  /** The term of the segmentation error is not negative. */
  lemma TermNotNegative(img: seq<Vector>, r: Region, i: nat)
    requires Exact(img, r) && 0 < |r.blocks| < MAX_BLOCKS && i < AXES
    ensures PivotOf(r.b[i], r.count) <= 255
    ensures PivotOf(r.b[i], r.count) * r.b[i] <= r.c[i]
  {
    hide Values;
    var s := Values(img, r.blocks, i);
    Fits(img, r.blocks, i);
    SmallValues(img, r.blocks, i);
    Bounds(s);
    CauchySchwarz(s);
    PivotIsMean(r.b[i], r.count);
    hide PivotOf;
    Product(PivotOf(r.b[i], r.count), r.b[i], r.c[i], r.count);
  }

  lemma Product(a: nat, b: nat, c: nat, n: nat)
    requires n > 0 && a <= b / n && b * b <= n * c && b <= 255 * n
    ensures a <= 255 && a * b <= c
  {
    Quotient(b, n);
    Times(n, a, b / n);
    assert n * a <= b;
    Times(b, n * a, b);
    assert b * (n * a) == n * (a * b);
    if c < a * b {
      Times(n, c + 1, a * b);
      Distribute(n, c, 1);
      assert false;
    }
    if a > 255 {
      Times(n, 256, a);
      assert false;
    }
  }

  ghost predicate IsPivot(r: Region) {
    && |r.a| == |r.b| == AXES && r.count > 0
    && forall i :: 0 <= i < AXES ==> r.a[i] == PivotOf(r.b[i], r.count)
  }

  predicate SmallPivot(r: Region) {
    |r.a| == AXES && forall i :: 0 <= i < AXES ==> r.a[i] <= 255
  }

  /** The part of the segmentation error that a feature of the listed blocks makes up: their squares
      less the pivot times their sum. */
  ghost function AxisError(img: seq<Vector>, list: seq<nat>, axis: nat): int
    requires Listed(img, list) && list != [] && axis < AXES
  {
    SumSq(Values(img, list, axis)) - PivotOf(Sum(Values(img, list, axis)), |list|) * Sum(Values(img, list, axis))
  }

  ghost function RegionError(img: seq<Vector>, list: seq<nat>, n: nat): int
    requires Listed(img, list) && list != [] && n <= AXES
  {
    if n == 0 then 0 else RegionError(img, list, n - 1) + AxisError(img, list, n - 1)
  }

  /** The segmentation error of the listed regions. */
  ghost function TotalError(img: seq<Vector>, lists: seq<seq<nat>>): int
    requires forall i :: 0 <= i < |lists| ==> Listed(img, lists[i]) && lists[i] != []
  {
    if lists == [] then 0
    else
      var n := |lists| - 1;
      TotalError(img, lists[..n]) + RegionError(img, lists[n], AXES)
  }

  function Wrapped(x: int): Word { x % 0x1_0000_0000 }

  lemma WrappedSum(x: int, y: int)
    ensures Wrapped(Wrapped(x) + y) == Wrapped(x + y)
  {
  }

  /** Computes the pivot of a region and adds its part of the error, modulo 2^32. */
  method SetPivot(img: seq<Vector>, r: Region, error: Word) returns (r': Region, error': Word)
    requires Exact(img, r) && 0 < |r.blocks| < MAX_BLOCKS
    ensures Exact(img, r') && r'.blocks == r.blocks && IsPivot(r') && SmallPivot(r')
    ensures error' == Wrapped(error + RegionError(img, r.blocks, AXES))
  {
    hide Values, PivotOf, Wrapped;
    var a: seq<Word> := r.a;
    error' := error;
    var i := 0;
    Unwrapped(error);
    while i < AXES
      invariant 0 <= i <= AXES && |a| == AXES
      invariant forall j :: 0 <= j < i ==> a[j] == PivotOf(r.b[j], r.count) <= 255
      invariant error' == Wrapped(error + RegionError(img, r.blocks, i))
    {
      TermNotNegative(img, r, i);
      var p := PivotOf(r.b[i], r.count);
      a := a[i := p];
      var c: nat, b: nat := r.c[i], r.b[i];
      var term: nat := c - p * b;
      WrappedSum(error + RegionError(img, r.blocks, i), term);
      error' := Wrapped(error' + term);
      i := i + 1;
    }
    r' := r.(a := a);
  }

  lemma Unwrapped(x: Word)
    ensures Wrapped(x) == x
  {
  }

  // ----- assignment to the nearest pivot -----

  function Squared(x: nat, y: nat): (d: nat)
    requires x <= 255 && y <= 255
    ensures d <= 65025 && d == SquaredGap(x, y)
  {
    var d := x - y;
    Square(d);
    SmallDifference(d);
    d * d
  }

  /** The sum of squared differences on the first n axes. */
  ghost function SquaredDistance(x: seq<int>, y: seq<int>, n: nat): int
    requires n <= |x| && n <= |y|
  {
    if n == 0 then 0 else SquaredDistance(x, y, n - 1) + SquaredGap(x[n - 1], y[n - 1])
  }

  ghost function SquaredGap(x: int, y: int): int { (x - y) * (x - y) }

  lemma SixAxes(x: seq<int>, y: seq<int>)
    requires |x| == |y| == AXES
    ensures SquaredDistance(x, y, AXES) ==
            SquaredGap(x[0], y[0]) + SquaredGap(x[1], y[1]) + SquaredGap(x[2], y[2])
            + SquaredGap(x[3], y[3]) + SquaredGap(x[4], y[4]) + SquaredGap(x[5], y[5])
  {
    hide SquaredGap;
    assert SquaredDistance(x, y, 1) == SquaredGap(x[0], y[0]);
    assert SquaredDistance(x, y, 2) == SquaredGap(x[0], y[0]) + SquaredGap(x[1], y[1]);
    assert SquaredDistance(x, y, 3) == SquaredDistance(x, y, 2) + SquaredGap(x[2], y[2]);
    assert SquaredDistance(x, y, 4) == SquaredDistance(x, y, 2) + SquaredGap(x[2], y[2]) + SquaredGap(x[3], y[3]);
  }

  /** The squared distance of a block from a pivot. */
  function Dist(v: Vector, r: Region): (d: nat)
    requires SmallPivot(r)
    ensures d < 0x1_0000_0000 && d == SquaredDistance(v, r.a, AXES)
  {
    SixAxes(v, r.a);
    Squared(v[0], r.a[0]) + Squared(v[1], r.a[1]) + Squared(v[2], r.a[2])
    + Squared(v[3], r.a[3]) + Squared(v[4], r.a[4]) + Squared(v[5], r.a[5])
  }

  ghost predicate Pivots(regions: seq<Region>) {
    forall i :: 0 <= i < |regions| ==> SmallPivot(regions[i])
  }

  /** No pivot is nearer to the block, and of several nearest ones it is the last. */
  ghost predicate IsNearest(v: Vector, regions: seq<Region>, i: nat)
    requires Pivots(regions) && i < |regions|
  {
    forall j :: 0 <= j < |regions| ==>
      Dist(v, regions[i]) <= Dist(v, regions[j]) && (i < j ==> Dist(v, regions[i]) < Dist(v, regions[j]))
  }

  /** There is always a nearest region; of several the last is taken. */
  method Nearest(v: Vector, regions: seq<Region>) returns (best: nat)
    requires Pivots(regions) && regions != []
    ensures best < |regions| && IsNearest(v, regions, best)
  {
    hide Dist;
    var bestDist := 0xffff_ffff;
    best := |regions|;
    var i := 0;
    while i < |regions|
      invariant 0 <= i <= |regions|
      invariant i == 0 ==> bestDist == 0xffff_ffff
      invariant i > 0 ==> best < i && bestDist == Dist(v, regions[best])
      invariant forall j :: 0 <= j < i ==> bestDist <= Dist(v, regions[j])
      invariant forall j :: best < j < i ==> bestDist < Dist(v, regions[j])
    {
      var dist := Dist(v, regions[i]);
      if dist <= bestDist {
        bestDist, best := dist, i;
      }
      i := i + 1;
    }
  }

  /** The pivots are the same. */
  ghost predicate SamePivots(r: seq<Region>, s: seq<Region>) {
    |r| == |s| && forall i :: 0 <= i < |r| ==> r[i].a == s[i].a
  }

  lemma SameNearest(v: Vector, r: seq<Region>, s: seq<Region>, i: nat)
    requires Pivots(r) && SamePivots(r, s) && i < |r| && IsNearest(v, r, i)
    ensures Pivots(s) && IsNearest(v, s, i)
  {
    forall j | 0 <= j < |s| ensures SmallPivot(s[j]) && Dist(v, s[j]) == Dist(v, r[j]) {
      assert s[j].a == r[j].a;
    }
  }

  function Cleared(r: Region): Region {
    r.(blocks := [], count := 0, b := EMPTY.b, c := EMPTY.c)
  }

  lemma {:induction false} NoMembers(regions: seq<Region>)
    requires forall i :: 0 <= i < |regions| ==> regions[i].blocks == []
    ensures Members(regions) == multiset{}
  {
    if regions != [] {
      NoMembers(regions[1..]);
    }
  }

  lemma ClearedExact(img: seq<Vector>, r: Region)
    requires |r.a| == AXES
    ensures Exact(img, Cleared(r))
  {
  }

  ghost predicate NearestOf(img: seq<Vector>, regions: seq<Region>, i: nat, k: nat)
    requires Pivots(regions) && i < |regions|
  {
    k < |img| && IsNearest(img[k], regions, i)
  }

  /** Every block in a region has this region's pivot as its nearest. */
  ghost predicate AllNearest(img: seq<Vector>, regions: seq<Region>) {
    Pivots(regions) && forall i, k :: 0 <= i < |regions| && k in regions[i].blocks ==> NearestOf(img, regions, i, k)
  }

  /** Clears the regions and assigns each block to the nearest pivot. */
  method Assign(img: seq<Vector>, given: seq<Region>) returns (regions: seq<Region>)
    requires 0 < |img| < MAX_BLOCKS && given != [] && Pivots(given)
    ensures Segmented(img, regions) && |regions| == |given| && SamePivots(given, regions) && AllNearest(img, regions)
  {
    hide Exact, Members;
    regions := Clear(img, given);
    var k := 0;
    while k < |img|
      invariant 0 <= k <= |img| && Assigned(img, given, regions, k)
    {
      ThereAre(img, given, regions, k);
      var best := Nearest(img[k], regions);
      RoomFor(img, given, regions, k, best);
      var r := AddBlock(img, regions[best], k);
      AssignStep(img, given, regions, k, best, r);
      regions := regions[best := r];
      k := k + 1;
    }
  }

  /** The first k blocks have been assigned. */
  ghost predicate Assigned(img: seq<Vector>, given: seq<Region>, regions: seq<Region>, k: nat) {
    && SamePivots(given, regions) && Members(regions) == Everything(k) && AllNearest(img, regions)
    && forall i :: 0 <= i < |regions| ==> Exact(img, regions[i])
  }

  lemma ThereAre(img: seq<Vector>, given: seq<Region>, regions: seq<Region>, k: nat)
    requires Assigned(img, given, regions, k) && given != []
    ensures Pivots(regions) && regions != []
  {
  }

  lemma RoomFor(img: seq<Vector>, given: seq<Region>, regions: seq<Region>, k: nat, i: nat)
    requires Assigned(img, given, regions, k) && i < |regions|
    ensures |regions[i].blocks| <= k && Exact(img, regions[i])
  {
    MembersAtLeast(regions, i);
    EverythingIs(k);
  }

  lemma AssignStep(img: seq<Vector>, given: seq<Region>, regions: seq<Region>, k: nat, best: nat, r: Region)
    requires Assigned(img, given, regions, k) && k < |img| && best < |regions| && Exact(img, r)
    requires r.blocks == [k] + regions[best].blocks && r.a == regions[best].a
    requires Pivots(regions) && IsNearest(img[k], regions, best)
    ensures Assigned(img, given, regions[best := r], k + 1)
  {
    hide Exact, Members, IsNearest, SmallPivot;
    var after := regions[best := r];
    MembersChanged(regions, best, r);
    OneMore(Members(after), multiset(regions[best].blocks), Members(regions), k);
    assert SamePivots(regions, after);
    KeepsPivots(regions, after);
    forall i, m | 0 <= i < |after| && m in after[i].blocks ensures NearestOf(img, after, i, m) {
      if i == best && m == k {
        SameNearest(img[k], regions, after, best);
      } else {
        Near(img, regions, i, m);
        SameNearest(img[m], regions, after, i);
      }
    }
  }

  lemma Near(img: seq<Vector>, regions: seq<Region>, i: nat, k: nat)
    requires AllNearest(img, regions) && i < |regions| && k in regions[i].blocks
    ensures k < |img| && IsNearest(img[k], regions, i)
  {
  }

  lemma KeepsPivots(r: seq<Region>, s: seq<Region>)
    requires Pivots(r) && SamePivots(r, s)
    ensures Pivots(s)
  {
    forall j | 0 <= j < |s| ensures SmallPivot(s[j]) {
      assert s[j].a == r[j].a;
    }
  }

  lemma OneMore(after: multiset<nat>, blocks: multiset<nat>, before: multiset<nat>, k: nat)
    requires after + blocks == before + (multiset{k} + blocks)
    ensures after == before + multiset{k}
  {
    forall x: nat ensures after[x] == (before + multiset{k})[x] {
      assert (after + blocks)[x] == (before + (multiset{k} + blocks))[x];
    }
  }

  /** All regions without blocks. */
  method Clear(img: seq<Vector>, given: seq<Region>) returns (regions: seq<Region>)
    requires Pivots(given)
    ensures Assigned(img, given, regions, 0)
  {
    hide Exact;
    regions := [];
    var i := 0;
    while i < |given|
      invariant 0 <= i <= |given| && |regions| == i
      invariant forall j :: 0 <= j < i ==>
                  Exact(img, regions[j]) && regions[j].a == given[j].a && regions[j].blocks == []
    {
      ClearedExact(img, given[i]);
      regions := regions + [Cleared(given[i])];
      i := i + 1;
    }
    NoMembers(regions);
    KeepsPivots(given, regions);
  }

  // ----- dropping empty regions -----

  /** Moving the last region to the place of an empty one loses no block. */
  lemma DropEmpty(img: seq<Vector>, regions: seq<Region>, i: nat)
    requires Segmented(img, regions) && i < |regions| && regions[i].blocks == []
    ensures var n := |regions| - 1; Segmented(img, regions[i := regions[n]][..n])
  {
    hide Exact, Members;
    var n := |regions| - 1;
    var last := regions[n];
    var moved := regions[i := last];
    MembersChanged(regions, i, last);
    assert moved == moved[..n] + [last];
    MembersMore(moved[..n], last);
    Same(Members(moved[..n]), multiset(last.blocks), Members(regions));
  }

  lemma Same(a: multiset<nat>, l: multiset<nat>, m: multiset<nat>)
    requires a + l == m + l
    ensures a == m
  {
    forall x: nat ensures a[x] == m[x] {
      assert (a + l)[x] == (m + l)[x];
    }
  }

  lemma PivotKeeps(img: seq<Vector>, regions: seq<Region>, i: nat, r: Region)
    requires Segmented(img, regions) && i < |regions| && Exact(img, r) && r.blocks == regions[i].blocks
    ensures Segmented(img, regions[i := r])
  {
    hide Exact, Members;
    MembersChanged(regions, i, r);
    Same(Members(regions[i := r]), multiset(r.blocks), Members(regions));
  }

  /** The regions have the pivots of their own blocks. */
  ghost predicate AllPivots(regions: seq<Region>) {
    forall i :: 0 <= i < |regions| ==> IsPivot(regions[i])
  }

  /** The blocks of the regions. */
  function Lists(regions: seq<Region>): (lists: seq<seq<nat>>)
    ensures |lists| == |regions| && forall i :: 0 <= i < |lists| ==> lists[i] == regions[i].blocks
  {
    seq(|regions|, i requires 0 <= i < |regions| => regions[i].blocks)
  }

  /** Without the empty lists: from position i on, an empty list is replaced by the last one. */
  function Compacted(lists: seq<seq<nat>>, i: nat): seq<seq<nat>>
    decreases |lists| - i
  {
    if i >= |lists| then lists
    else if lists[i] != [] then Compacted(lists, i + 1)
    else var n := |lists| - 1; Compacted(lists[i := lists[n]][..n], i)
  }

  /** What this means: no list is empty any more, and one that was not stays in its place unless it is
      moved to that of an empty one before it. */
  lemma {:induction false} CompactedIs(lists: seq<seq<nat>>, i: nat)
    requires i <= |lists| && forall j :: 0 <= j < i ==> lists[j] != []
    ensures var c := Compacted(lists, i);
            && |c| <= |lists| && (forall j :: 0 <= j < |c| ==> c[j] != [])
            && (forall j :: 0 <= j < |c| && lists[j] != [] ==> c[j] == lists[j])
            && (forall l :: l in lists && l != [] <==> l in c)
    decreases |lists| - i
  {
    if i < |lists| {
      if lists[i] != [] {
        CompactedIs(lists, i + 1);
      } else {
        var n := |lists| - 1;
        var moved := lists[i := lists[n]][..n];
        CompactedIs(moved, i);
        forall l | l != [] ensures l in lists <==> l in moved {
          if l in lists {
            var k :| 0 <= k < |lists| && lists[k] == l;
            if k < n {
              assert moved[k] == l;
            } else {
              assert i < n ==> moved[i] == l;
            }
          }
        }
      }
    } else {
      assert forall l :: l in lists ==> exists j :: 0 <= j < |lists| && lists[j] == l;
    }
  }

  /** Drops empty regions and computes the pivots of the others and the segmentation error. */
  method Finish(img: seq<Vector>, given: seq<Region>) returns (regions: seq<Region>, error: Word)
    requires 0 < |img| < MAX_BLOCKS && Segmented(img, given)
    ensures Finished(img, given, regions, error) && Pivots(regions) && 1 <= |regions| <= |given|
  {
    hide Exact, Segmented, SmallPivot, IsPivot, Compacted, TotalError, RegionError, Wrapped;
    regions, error := given, 0;
    var i := 0;
    NoError(img, Lists(regions));
    while i < |regions|
      invariant 0 <= i <= |regions| <= |given| && Segmented(img, regions)
      invariant Compacted(Lists(given), 0) == Compacted(Lists(regions), i)
      invariant forall j :: 0 <= j < i ==> regions[j].blocks != [] && SmallPivot(regions[j]) && IsPivot(regions[j])
      invariant ErrorSoFar(img, Lists(regions), i, error)
      decreases |regions| - i
    {
      SmallRegion(img, regions, i);
      ExactList(img, regions[i]);
      CompactedStep(Lists(regions), i);
      if regions[i].count != 0 {
        var r;
        ghost var before := error;
        r, error := SetPivot(img, regions[i], error);
        PivotKeeps(img, regions, i, r);
        ErrorMore(img, Lists(regions), i, before, error);
        SameLists(regions, regions[i := r]);
        regions := regions[i := r];
        i := i + 1;
      } else {
        DropEmpty(img, regions, i);
        var n := |regions| - 1;
        ErrorSame(img, Lists(regions), Lists(regions[i := regions[n]][..n]), i, error);
        assert Lists(regions[i := regions[n]][..n]) == Lists(regions)[i := Lists(regions)[n]][..n];
        regions := regions[i := regions[n]][..n];
      }
    }
    SomeRegion(img, regions);
    CompactedEnd(Lists(regions), i);
  }

  /** The error of the first i regions has been added up. */
  ghost predicate ErrorSoFar(img: seq<Vector>, lists: seq<seq<nat>>, i: nat, error: Word) {
    && i <= |lists| && (forall j :: 0 <= j < i ==> Listed(img, lists[j]) && lists[j] != [])
    && error == Wrapped(TotalError(img, lists[..i]))
  }

  lemma NoError(img: seq<Vector>, lists: seq<seq<nat>>)
    ensures ErrorSoFar(img, lists, 0, 0)
  {
  }

  lemma ErrorMore(img: seq<Vector>, lists: seq<seq<nat>>, i: nat, before: Word, error: Word)
    requires ErrorSoFar(img, lists, i, before) && i < |lists| && Listed(img, lists[i]) && lists[i] != []
    requires error == Wrapped(before + RegionError(img, lists[i], AXES))
    ensures ErrorSoFar(img, lists, i + 1, error)
  {
    hide RegionError, Wrapped;
    assert lists[..i + 1][..i] == lists[..i];
    WrappedSum(TotalError(img, lists[..i]), RegionError(img, lists[i], AXES));
  }

  lemma ErrorSame(img: seq<Vector>, a: seq<seq<nat>>, b: seq<seq<nat>>, i: nat, error: Word)
    requires ErrorSoFar(img, a, i, error) && i <= |b| && a[..i] == b[..i]
    ensures ErrorSoFar(img, b, i, error)
  {
    assert forall j :: 0 <= j < i ==> a[j] == a[..i][j] && b[j] == b[..i][j];
  }

  lemma SameLists(r: seq<Region>, s: seq<Region>)
    requires |r| == |s| && forall i :: 0 <= i < |r| ==> r[i].blocks == s[i].blocks
    ensures Lists(r) == Lists(s)
  {
  }

  lemma CompactedStep(lists: seq<seq<nat>>, i: nat)
    requires i < |lists|
    ensures var n := |lists| - 1;
            && (lists[i] != [] ==> Compacted(lists, i) == Compacted(lists, i + 1))
            && (lists[i] == [] ==> Compacted(lists, i) == Compacted(lists[i := lists[n]][..n], i))
  {
  }

  lemma CompactedEnd(lists: seq<seq<nat>>, i: nat)
    requires i == |lists|
    ensures Compacted(lists, i) == lists && lists[..i] == lists
  {
  }

  /** The regions with their pivots and the segmentation error, once empty ones have been dropped. */
  ghost predicate Finished(img: seq<Vector>, given: seq<Region>, regions: seq<Region>, error: Word) {
    && Segmented(img, regions) && NonEmpty(regions) && AllPivots(regions)
    && Lists(regions) == Compacted(Lists(given), 0)
    && ErrorSoFar(img, Lists(regions), |regions|, error)
  }

  lemma SomeRegion(img: seq<Vector>, regions: seq<Region>)
    requires Segmented(img, regions) && |img| > 0
    ensures regions != []
  {
    EverythingIs(|img|);
  }

  /** A state between rounds: the regions to which the blocks were assigned, and what they were made
      to after that. */
  datatype State = State(nearest: seq<Region>, regions: seq<Region>, error: Word)

  /** A round: each block goes to the region with the nearest of the pivots before, and then the
      regions are finished. */
  ghost predicate IsRound(img: seq<Vector>, s: State, t: State) {
    && SamePivots(s.regions, t.nearest) && Segmented(img, t.nearest) && AllNearest(img, t.nearest)
    && Finished(img, t.nearest, t.regions, t.error)
  }

  /** After step k another one follows: there have not been enough of them, or the error has become
      smaller by enough. */
  predicate GoesOn(minSteps: nat, threshold: Word, k: nat, last: Word, error: Word) {
    k < minSteps || (error <= last && (last - error) * threshold >= last * 100)
  }

  /** The states of post-quantisation, from that of the given regions: it goes on as long as each
      step makes the error smaller by enough, and ends only with the first that does not or with the
      last one allowed. */
  ghost predicate IsRounds(img: seq<Vector>, given: seq<Region>, minSteps: nat, maxSteps: nat, threshold: Word,
                           run: seq<State>)
  {
    && Rounds(img, given, minSteps, threshold, run) && |run| - 1 <= maxSteps
    && (|run| - 1 == maxSteps ||
        (|run| >= 2 && !GoesOn(minSteps, threshold, |run| - 2, run[|run| - 2].error, run[|run| - 1].error)))
  }

  /** All steps but the last have let it go on. */
  ghost predicate Rounds(img: seq<Vector>, given: seq<Region>, minSteps: nat, threshold: Word, run: seq<State>) {
    && run != [] && run[0].nearest == given && Finished(img, given, run[0].regions, run[0].error)
    && (forall k :: 0 <= k < |run| - 1 ==> IsRound(img, run[k], run[k + 1]))
    && (forall k :: 0 <= k < |run| - 2 ==> GoesOn(minSteps, threshold, k, run[k].error, run[k + 1].error))
  }

  lemma RoundsMore(img: seq<Vector>, given: seq<Region>, minSteps: nat, threshold: Word, run: seq<State>, t: State)
    requires Rounds(img, given, minSteps, threshold, run) && IsRound(img, run[|run| - 1], t)
    requires |run| >= 2 ==> GoesOn(minSteps, threshold, |run| - 2, run[|run| - 2].error, run[|run| - 1].error)
    ensures Rounds(img, given, minSteps, threshold, run + [t])
  {
    hide IsRound, GoesOn, Finished;
    var more := run + [t];
    forall k | 0 <= k < |more| - 1 ensures IsRound(img, more[k], more[k + 1]) {
      assert more[k] == run[k];
      assert k < |run| - 1 ==> more[k + 1] == run[k + 1];
    }
    forall k | 0 <= k < |more| - 2 ensures GoesOn(minSteps, threshold, k, more[k].error, more[k + 1].error) {
      assert more[k] == run[k] && more[k + 1] == run[k + 1];
    }
  }

  /** Post-quantisation keeps the partition; only regions without blocks are dropped. In the end each
      region has the pivot of its own blocks, each block is where the pivots of the round before put
      it, and the rounds have ended when they should. It relies on the regions it is given not being
      empty. */
  method Postquant(img: seq<Vector>, given: seq<Region>, minSteps: nat, maxSteps: nat, threshold: Word)
    returns (regions: seq<Region>, ghost run: seq<State>)
    requires 0 < |img| < MAX_BLOCKS && Segmented(img, given) && NonEmpty(given)
    ensures Segmented(img, regions) && NonEmpty(regions) && 1 <= |regions| <= |given| && AllPivots(regions)
    ensures IsRounds(img, given, minSteps, maxSteps, threshold, run) && run[|run| - 1].regions == regions
  {
    hide Finished, Pivots, AllNearest, SamePivots, IsRound, Rounds, Segmented, NonEmpty, AllPivots;
    var error: Word;
    regions, error := Finish(img, given);
    run := [State(given, regions, error)];
    RoundsFirst(img, given, minSteps, threshold, run[0]);
    var step := 0;
    while step < maxSteps
      invariant step <= maxSteps && |run| == step + 1 && Rounds(img, given, minSteps, threshold, run)
      invariant Finished(img, run[step].nearest, regions, error) && Pivots(regions) && 1 <= |regions| <= |given|
      invariant run[step].regions == regions && run[step].error == error
      invariant step > 0 ==> GoesOn(minSteps, threshold, step - 1, run[step - 1].error, error)
      decreases maxSteps - step
    {
      var last := error;
      var nearest := Assign(img, regions);
      regions, error := Finish(img, nearest);
      RoundNow(img, run[step], State(nearest, regions, error));
      RoundsMore(img, given, minSteps, threshold, run, State(nearest, regions, error));
      run := run + [State(nearest, regions, error)];
      if step >= minSteps {
        if error > last {
          break;
        }
        var dif := last - error;
        if dif * threshold < last * 100 {
          break;
        }
      }
      step := step + 1;
    }
    FinishedIs(img, run[|run| - 1].nearest, regions, error);
  }

  lemma RoundsFirst(img: seq<Vector>, given: seq<Region>, minSteps: nat, threshold: Word, s: State)
    requires s.nearest == given && Finished(img, given, s.regions, s.error)
    ensures Rounds(img, given, minSteps, threshold, [s])
  {
    hide Finished;
  }

  lemma RoundNow(img: seq<Vector>, s: State, t: State)
    requires SamePivots(s.regions, t.nearest) && Segmented(img, t.nearest) && AllNearest(img, t.nearest)
    requires Finished(img, t.nearest, t.regions, t.error)
    ensures IsRound(img, s, t)
  {
    hide SamePivots, Segmented, AllNearest, Finished;
  }

  lemma FinishedIs(img: seq<Vector>, given: seq<Region>, regions: seq<Region>, error: Word)
    requires Finished(img, given, regions, error)
    ensures Segmented(img, regions) && NonEmpty(regions) && AllPivots(regions)
  {
    hide Segmented, NonEmpty, AllPivots;
  }

  /** Segmentation of an image that is not too large: unless it divides by zero at a region that
      is stuck, each block ends up in exactly one of at most 16 regions, none of them empty, and
      each region has the pivot of its blocks.

      On calm images, in particular on those of up to 514 blocks, with positive thresholds it never
      divides by zero. It does if all blocks together are worth splitting and stuck; with a single
      threshold only then. */
  method Segmentation(img: seq<Vector>, thresholds: seq<Word>, minSteps: nat, maxSteps: nat, threshold: Word)
    returns (regions: seq<Region>, crashed: bool, ghost stuck: Region, ghost splits: seq<seq<Region>>,
             ghost rounds: seq<State>)
    requires 0 < |img| < MAX_BLOCKS
    ensures !crashed ==> Segmented(img, regions) && NonEmpty(regions) && 1 <= |regions| <= REG_MAX && AllPivots(regions)
    ensures IsRun(img, thresholds, splits)
    ensures !crashed ==> Stopped(splits[|splits| - 1], thresholds, |img|)
    ensures !crashed ==> IsRounds(img, splits[|splits| - 1], minSteps, maxSteps, threshold, rounds)
    ensures !crashed ==> rounds[|rounds| - 1].regions == regions
    ensures crashed ==> Exact(img, stuck) && |stuck.blocks| >= 2 && Stuck(stuck)
    ensures crashed ==> OfLargestError(splits[|splits| - 1], stuck)
    ensures (Calm(img) || |img| <= 514) && Selective(thresholds, |img|) ==> !crashed
    ensures StuckAtOnce(img, thresholds) ==> crashed
    ensures |thresholds| <= 1 ==> (crashed <==> StuckAtOnce(img, thresholds))
  {
    hide Segmented, Exact, Stuck, Calm, Selective, StuckAtOnce, AllPivots, NonEmpty;
    hide Measured, Stopped, Bound, OfLargestError, IsRounds, IsRun;
    if |img| <= 514 {
      SmallImage(img);
    }
    regions, crashed, stuck, splits := Prequant(img, thresholds);
    rounds := [];
    if !crashed {
      regions, rounds := Postquant(img, regions, minSteps, maxSteps, threshold);
    }
  }

  /** The images of the example cannot be segmented with the thresholds of the configuration that
      comes with the library. */
  method SegmentExample(b: Vector, minSteps: nat, maxSteps: nat, threshold: Word) returns (crashed: bool)
    requires b[1] <= 247
    ensures crashed
  {
    StuckExample(b);
    hide *;
    var _, failed, _, _, _ := Segmentation(Example(b), THRESHOLDS, minSteps, maxSteps, threshold);
    crashed := failed;
  }

  /** What a partition means: each block is in one region, and the regions' numbers add up. */
  lemma InOneRegion(img: seq<Vector>, regions: seq<Region>, k: nat)
    requires Segmented(img, regions) && k < |img|
    ensures exists i :: 0 <= i < |regions| && k in regions[i].blocks
    ensures forall i, j ::
              0 <= i < |regions| && 0 <= j < |regions| && k in regions[i].blocks && k in regions[j].blocks ==> i == j
  {
    hide Exact;
    EverythingIs(|img|);
    Somewhere(regions, k);
    forall i, j | 0 <= i < j < |regions| && k in regions[i].blocks && k in regions[j].blocks ensures false {
      Twice(regions, i, j, k);
    }
  }

  lemma {:induction false} Somewhere(regions: seq<Region>, k: nat)
    requires Members(regions)[k] > 0
    ensures exists i :: 0 <= i < |regions| && k in regions[i].blocks
  {
    if regions[0].blocks != [] && k in regions[0].blocks {
    } else {
      assert k !in multiset(regions[0].blocks);
      Somewhere(regions[1..], k);
      var i :| 0 <= i < |regions[1..]| && k in regions[1..][i].blocks;
      assert k in regions[i + 1].blocks;
    }
  }

  lemma {:induction false} Twice(regions: seq<Region>, i: nat, j: nat, k: nat)
    requires i < j < |regions| && k in regions[i].blocks && k in regions[j].blocks
    ensures Members(regions)[k] >= 2
  {
    if i > 0 {
      Twice(regions[1..], i - 1, j - 1, k);
    } else {
      MembersAtLeast(regions[1..], j - 1);
      assert k in multiset(regions[i].blocks) && k in multiset(regions[j].blocks);
    }
  }
}
