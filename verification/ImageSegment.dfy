/**
 Segmentation of an image: pre-quantisation splits regions with a large error, and
 post-quantisation moves the blocks to the nearest pivot a few times. Throughout the regions are
 a partition of the blocks.
 */
module ImageSegment {
  import opened Powers
  import opened Sums
  import opened ImageRegions
  import opened ImageCalm
  import opened ImageSplit

  // ----- partitions -----

  /** The blocks of all regions. */
  ghost function Members(regions: seq<Region>): multiset<nat> {
    if regions == [] then multiset{} else multiset(regions[0].blocks) + Members(regions[1..])
  }

  lemma {:induction false} MembersChanged(regions: seq<Region>, i: nat, r: Region)
    requires i < |regions|
    ensures Members(regions[i := r]) + multiset(regions[i].blocks) == Members(regions) + multiset(r.blocks)
  {
    if i == 0 {
      assert regions[i := r][1..] == regions[1..];
    } else {
      MembersChanged(regions[1..], i - 1, r);
      assert regions[i := r][1..] == regions[1..][i - 1 := r];
      AddToBoth(multiset(regions[0].blocks), Members(regions[1..][i - 1 := r]), multiset(regions[i].blocks),
                Members(regions[1..]), multiset(r.blocks));
    }
  }

  lemma AddToBoth(h: multiset<nat>, a: multiset<nat>, b: multiset<nat>, c: multiset<nat>, d: multiset<nat>)
    requires a + b == c + d
    ensures h + a + b == h + c + d
  {
    assert h + a + b == h + (a + b);
  }

  lemma {:induction false} MembersMore(regions: seq<Region>, r: Region)
    ensures Members(regions + [r]) == Members(regions) + multiset(r.blocks)
  {
    if regions == [] {
      assert regions + [r] == [r];
    } else {
      MembersMore(regions[1..], r);
      assert (regions + [r])[1..] == regions[1..] + [r];
    }
  }

  lemma {:induction false} MembersAtLeast(regions: seq<Region>, i: nat)
    requires i < |regions|
    ensures multiset(regions[i].blocks) <= Members(regions) && |regions[i].blocks| <= |Members(regions)|
  {
    if i > 0 {
      MembersAtLeast(regions[1..], i - 1);
    }
  }

  /** The numbers of all blocks. */
  ghost function Everything(n: nat): multiset<nat> {
    if n == 0 then multiset{} else Everything(n - 1) + multiset{n - 1}
  }

  lemma {:induction false} EverythingIs(n: nat)
    ensures |Everything(n)| == n
    ensures forall k: nat :: k < n ==> Everything(n)[k] == 1
    ensures forall k: nat :: k >= n ==> Everything(n)[k] == 0
  {
    if n > 0 {
      EverythingIs(n - 1);
    }
  }

  lemma {:induction false} EverythingListed(n: nat)
    ensures Everything(n) == multiset(Numbers(n))
  {
    if n > 0 {
      EverythingListed(n - 1);
      assert Numbers(n) == Numbers(n - 1) + [n - 1];
    } else {
      assert Numbers(0) == [];
    }
  }

  /** Regions with exact numbers to which each block belongs once. */
  ghost predicate Segmented(img: seq<Vector>, regions: seq<Region>) {
    && (forall i :: 0 <= i < |regions| ==> Exact(img, regions[i]))
    && Members(regions) == Everything(|img|)
  }

  ghost predicate NonEmpty(regions: seq<Region>) {
    forall i :: 0 <= i < |regions| ==> regions[i].blocks != []
  }

  lemma SmallRegion(img: seq<Vector>, regions: seq<Region>, i: nat)
    requires Segmented(img, regions) && i < |regions| && |img| < MAX_BLOCKS
    ensures |regions[i].blocks| < MAX_BLOCKS && Exact(img, regions[i])
  {
    MembersAtLeast(regions, i);
    EverythingIs(|img|);
  }

  // ----- splitting a region -----

  /** All blocks listed have at most this value on the axis. */
  ghost predicate Below(img: seq<Vector>, list: seq<nat>, axis: nat, split: nat)
    requires axis < AXES
  {
    forall k :: k in list ==> k < |img| && img[k][axis] <= split
  }

  /** All blocks listed have more than this value on the axis. */
  ghost predicate Above(img: seq<Vector>, list: seq<nat>, axis: nat, split: nat)
    requires axis < AXES
  {
    forall k :: k in list ==> k < |img| && img[k][axis] > split
  }

  lemma NoneYet(img: seq<Vector>, axis: nat, split: nat)
    requires axis < AXES
    ensures Below(img, [], axis, split) && Above(img, [], axis, split)
  {
  }

  lemma BelowMore(img: seq<Vector>, list: seq<nat>, axis: nat, split: nat, k: nat)
    requires axis < AXES && Below(img, list, axis, split) && k < |img| && img[k][axis] <= split
    ensures Below(img, [k] + list, axis, split)
  {
  }

  lemma AboveMore(img: seq<Vector>, list: seq<nat>, axis: nat, split: nat, k: nat)
    requires axis < AXES && Above(img, list, axis, split) && k < |img| && img[k][axis] > split
    ensures Above(img, [k] + list, axis, split)
  {
  }

  /** Moves the blocks of a region to two new ones. */
  method Divide(img: seq<Vector>, r: Region, axis: nat, split: nat) returns (low: Region, high: Region)
    requires Exact(img, r) && |r.blocks| < MAX_BLOCKS && axis < AXES
    ensures Exact(img, low) && Exact(img, high)
    ensures multiset(low.blocks) + multiset(high.blocks) == multiset(r.blocks)
    ensures Below(img, low.blocks, axis, split) && Above(img, high.blocks, axis, split)
  {
    hide Exact, Listed, Below, Above;
    low, high := EMPTY, EMPTY;
    NoneYet(img, axis, split);
    EmptyExact(img);
    ExactList(img, r);
    var list := r.blocks;
    var n := 0;
    while n < |list|
      invariant 0 <= n <= |list| && Exact(img, low) && Exact(img, high)
      invariant multiset(low.blocks) + multiset(high.blocks) == multiset(list[..n])
      invariant |low.blocks| + |high.blocks| == n
      invariant Below(img, low.blocks, axis, split) && Above(img, high.blocks, axis, split)
    {
      var k := list[n];
      Moved(low.blocks, high.blocks, list, n);
      if img[k][axis] <= split {
        BelowMore(img, low.blocks, axis, split, k);
        low := AddBlock(img, low, k);
      } else {
        AboveMore(img, high.blocks, axis, split, k);
        high := AddBlock(img, high, k);
      }
      n := n + 1;
    }
    assert list[..n] == list;
  }

  lemma Moved(low: seq<nat>, high: seq<nat>, list: seq<nat>, n: nat)
    requires n < |list| && multiset(low) + multiset(high) == multiset(list[..n])
    ensures multiset([list[n]] + low) + multiset(high) == multiset(list[..n + 1])
    ensures multiset(low) + multiset([list[n]] + high) == multiset(list[..n + 1])
  {
    assert list[..n + 1] == list[..n] + [list[n]];
  }

  lemma EmptyExact(img: seq<Vector>)
    ensures Exact(img, EMPTY)
  {
  }

  lemma ExactList(img: seq<Vector>, r: Region)
    requires Exact(img, r)
    ensures Listed(img, r.blocks) && r.count == |r.blocks|
  {
  }

  lemma ValuesMembers(img: seq<Vector>, list: seq<nat>, axis: nat, split: nat)
    requires Listed(img, list) && axis < AXES && Divides(Values(img, list, axis), split)
    ensures exists k :: k in list && img[k][axis] <= split
    ensures exists k :: k in list && img[k][axis] > split
  {
    var s := Values(img, list, axis);
    LowMembers(s, split);
    var x, y := Low(s, split)[0], High(s, split)[0];
    assert x in Low(s, split) && y in High(s, split);
    var i :| 0 <= i < |s| && s[i] == x;
    var j :| 0 <= j < |s| && s[j] == y;
    assert list[i] in list && img[list[i]][axis] <= split;
    assert list[j] in list && img[list[j]][axis] > split;
  }

  lemma SmallValues(img: seq<Vector>, list: seq<nat>, axis: nat)
    requires Listed(img, list) && axis < AXES
    ensures forall i :: 0 <= i < |list| ==> Values(img, list, axis)[i] < 256
  {
  }

  /** The value leaves blocks on both sides, no other value on the axis makes the error of the parts
      smaller, and of several such values it is the smallest. */
  ghost predicate BestSplit(img: seq<Vector>, list: seq<nat>, axis: nat, split: nat) {
    && Listed(img, list) && axis < AXES && Divides(Values(img, list, axis), split)
    && split in Values(img, list, axis)
    && forall t :: t in Values(img, list, axis) && Divides(Values(img, list, axis), t) ==>
         NotWorse(Values(img, list, axis), split, t)
  }

  /** The error kept by a region is that of its blocks. */
  ghost predicate Measured(img: seq<Vector>, r: Region) {
    Listed(img, r.blocks) && r.e == QuadraticError(img, r.blocks)
  }

  /** One of the parts of a list that has members below and above a value is not empty. */
  lemma PartNotEmpty(all: seq<nat>, low: seq<nat>, high: seq<nat>, k: nat)
    requires multiset(low) + multiset(high) == multiset(all) && k in all && k !in high
    ensures low != []
  {
    assert k in multiset(all);
  }

  /** Splits a region along the axis with the largest error, where this error is reduced most. It
      divides by zero exactly if the region is stuck. */
  method SplitRegion(img: seq<Vector>, r: Region)
    returns (low: Region, high: Region, crashed: bool, ghost axis: nat, ghost split: nat)
    requires Exact(img, r) && 2 <= |r.blocks| < MAX_BLOCKS
    ensures crashed <==> Stuck(r)
    ensures !crashed ==> SplitBy(img, r, low, high, axis, split)
  {
    hide Exact, Stuck, Cov, Values, Constant, IsHistogram, Divides, Low, High, NotWorse, QuadraticError, Describes,
        Preferred;
    ExactList(img, r);
    var a := SelectAxis(img, r);
    var values := Values(img, r.blocks, a);
    SmallValues(img, r.blocks, a);
    var val, cnt;
    if r.count > 64 {
      val, cnt := CountValues(values);
    } else {
      val, cnt := SortValues(values);
    }
    Totals(img, r, a);
    var s;
    s, crashed := SelectSplit(values, val, cnt, Part(r.count, r.b[a], r.c[a]));
    low, high, axis, split := EMPTY, EMPTY, a, s;
    if !crashed {
      ValuesMembers(img, r.blocks, a, s);
      low, high := Divide(img, r, a, s);
      ghost var k1 :| k1 in r.blocks && img[k1][a] <= s;
      ghost var k2 :| k2 in r.blocks && img[k2][a] > s;
      PartNotEmpty(r.blocks, low.blocks, high.blocks, k1);
      PartNotEmpty(r.blocks, high.blocks, low.blocks, k2);
      SmallParts(r.blocks, low.blocks, high.blocks);
      low := FinishRegion(img, low);
      high := FinishRegion(img, high);
      ExactList(img, low);
      ExactList(img, high);
    }
  }

  /** The parts of a region on both sides of the best value on the preferred axis. */
  ghost predicate SplitBy(img: seq<Vector>, r: Region, low: Region, high: Region, axis: nat, split: nat) {
    && IsSplit(img, r, low, high) && Measured(img, low) && Measured(img, high)
    && BestSplit(img, r.blocks, axis, split)
    && Below(img, low.blocks, axis, split) && Above(img, high.blocks, axis, split)
    && |r.b| == |r.c| == AXES && forall i :: 0 <= i < AXES ==> Preferred(r, axis, i)
  }

  /** Two regions that are not empty and together have the blocks of a region. */
  ghost predicate IsSplit(img: seq<Vector>, r: Region, low: Region, high: Region) {
    && Exact(img, low) && Exact(img, high) && low.blocks != [] && high.blocks != []
    && multiset(low.blocks) + multiset(high.blocks) == multiset(r.blocks)
  }

  lemma Totals(img: seq<Vector>, r: Region, axis: nat)
    requires Exact(img, r) && axis < AXES
    ensures |r.b| == |r.c| == AXES && Describes(Part(r.count, r.b[axis], r.c[axis]), Values(img, r.blocks, axis))
  {
  }

  lemma SmallParts(all: seq<nat>, low: seq<nat>, high: seq<nat>)
    requires multiset(low) + multiset(high) == multiset(all)
    ensures |low| + |high| == |all|
  {
    assert |multiset(low) + multiset(high)| == |low| + |high|;
  }

  /** Replacing a region by its two parts keeps the partition. */
  lemma SplitKeeps(img: seq<Vector>, regions: seq<Region>, i: nat, low: Region, high: Region)
    requires Segmented(img, regions) && i < |regions| && IsSplit(img, regions[i], low, high)
    ensures Segmented(img, regions[i := low] + [high]) && low.blocks != [] && high.blocks != []
  {
    hide Exact;
    MembersChanged(regions, i, low);
    MembersMore(regions[i := low], high);
    Cancel(Members(regions[i := low]), multiset(low.blocks), multiset(high.blocks), Members(regions));
  }

  lemma Cancel(a: multiset<nat>, l: multiset<nat>, h: multiset<nat>, m: multiset<nat>)
    requires a + (l + h) == m + l
    ensures a + h == m
  {
    assert a + (l + h) == (a + h) + l;
    forall x: nat ensures (a + h)[x] == m[x] {
      assert ((a + h) + l)[x] == (m + l)[x];
    }
  }

  // ----- pre-quantisation -----

  /** All blocks in one region. */
  method FirstRegion(img: seq<Vector>) returns (r: Region)
    requires 0 < |img| < MAX_BLOCKS
    ensures Exact(img, r) && multiset(r.blocks) == Everything(|img|) && r.blocks != [] && Measured(img, r)
  {
    hide Exact, QuadraticError, Everything;
    assert multiset([]) == Everything(0) by { EverythingNone(); }
    r := EMPTY;
    EmptyExact(img);
    var k := 0;
    while k < |img|
      invariant 0 <= k <= |img| && Exact(img, r) && multiset(r.blocks) == Everything(k) && |r.blocks| == k
    {
      EverythingMore(r.blocks, k);
      r := AddBlock(img, r, k);
      k := k + 1;
    }
    r := FinishRegion(img, r);
    ExactList(img, r);
  }

  lemma EverythingNone()
    ensures Everything(0) == multiset{}
  {
  }

  lemma EverythingMore(list: seq<nat>, k: nat)
    requires multiset(list) == Everything(k)
    ensures multiset([k] + list) == Everything(k + 1)
  {
    assert multiset([k] + list) == multiset{k} + multiset(list);
  }

  /** The least error for which one of k regions is split. */
  function Bound(thresholds: seq<Word>, k: nat, n: nat): int
    requires 1 <= k <= |thresholds|
  {
    thresholds[k - 1] as int * n % 0x1_0000_0000
  }

  /** A region that is not worth splitting when there are n regions. */
  ghost predicate Settled(r: Region, thresholds: seq<Word>, n: nat, blocks: nat) {
    r.count < 2 || (1 <= n <= |thresholds| && r.e < Bound(thresholds, n, blocks))
  }

  /** There are as many regions as there may be, or none of them is worth splitting. */
  ghost predicate Stopped(regions: seq<Region>, thresholds: seq<Word>, blocks: nat) {
    || |regions| == REG_MAX || |regions| > |thresholds|
    || forall i :: 0 <= i < |regions| ==> Settled(regions[i], thresholds, |regions|, blocks)
  }

  /** A region without error is below every threshold that is looked at. */
  ghost predicate Selective(thresholds: seq<Word>, n: nat) {
    forall k :: 1 <= k <= |thresholds| && k < REG_MAX ==> Bound(thresholds, k, n) > 0
  }

  /** All blocks together are worth splitting and stuck. */
  ghost predicate StuckAtOnce(img: seq<Vector>, thresholds: seq<Word>) {
    && |img| >= 2 && |thresholds| >= 1
    && StuckImage(img) && ImageError(img) >= Bound(thresholds, 1, |img|)
  }

  /** What the whole image says about the region of all blocks. */
  lemma AtOnce(img: seq<Vector>, r: Region, thresholds: seq<Word>)
    requires Exact(img, r) && multiset(r.blocks) == Everything(|img|) && Measured(img, r)
    ensures |r.b| == |r.c| == AXES
    ensures Calm(img) ==> CalmRegion(img, r)
    ensures |thresholds| >= 1 ==>
              (StuckAtOnce(img, thresholds) <==> r.count >= 2 && r.e >= Bound(thresholds, 1, |img|) && Stuck(r))
  {
    hide Calm, CalmRegion, Stuck, StuckImage, ImageError, QuadraticError, Bound;
    ExactList(img, r);
    AxesOf(img, r);
    EverythingListed(|img|);
    StuckAtFirst(img, r);
    if Calm(img) {
      CalmAtFirst(img, r);
    }
  }

  /** What holds of the regions all the time. */
  ghost predicate Quantised(img: seq<Vector>, regions: seq<Region>) {
    && Segmented(img, regions) && NonEmpty(regions)
    && (forall i :: 0 <= i < |regions| ==> Measured(img, regions[i]))
    && (Calm(img) ==> forall i :: 0 <= i < |regions| ==> CalmRegion(img, regions[i]))
  }

  lemma QuantisedFirst(img: seq<Vector>, r: Region)
    requires Exact(img, r) && multiset(r.blocks) == Everything(|img|) && r.blocks != [] && Measured(img, r)
    ensures Quantised(img, [r])
  {
    hide Exact, Measured, Calm, CalmRegion, Segmented;
    OneRegion(img, r);
    AtOnce(img, r, []);
  }

  lemma QuantisedAt(img: seq<Vector>, regions: seq<Region>, i: nat)
    requires Quantised(img, regions) && i < |regions| && |img| < MAX_BLOCKS
    ensures var r := regions[i];
            && Exact(img, r) && r.count == |r.blocks| < MAX_BLOCKS && Measured(img, r)
            && (Calm(img) ==> CalmRegion(img, r))
  {
    hide Exact, Measured, Calm, CalmRegion, Segmented;
    SmallRegion(img, regions, i);
    ExactList(img, regions[i]);
  }

  lemma QuantisedMore(img: seq<Vector>, regions: seq<Region>, i: nat, low: Region, high: Region)
    requires Quantised(img, regions) && i < |regions| && IsSplit(img, regions[i], low, high)
    requires Measured(img, low) && Measured(img, high)
    ensures Quantised(img, regions[i := low] + [high])
  {
    hide Exact, Measured, Calm, CalmRegion, Segmented;
    SplitKeeps(img, regions, i, low, high);
    if Calm(img) {
      ExactList(img, low);
      ExactList(img, high);
      CalmParts(img, regions[i], low, high);
    }
  }

  /** A stuck region over a positive threshold is not calm. */
  lemma NotCalm(img: seq<Vector>, r: Region, thresholds: seq<Word>, n: nat)
    requires Exact(img, r) && Measured(img, r) && |r.blocks| >= 2 && Stuck(r)
    requires 1 <= n <= |thresholds| && n < REG_MAX && r.e >= Bound(thresholds, n, |img|)
    ensures !(CalmRegion(img, r) && Selective(thresholds, |img|))
  {
    hide Exact, Stuck, CalmRegion, QuadraticError, Bound;
    if CalmRegion(img, r) {
      CalmNotStuck(img, r);
    }
  }

  /** The heap holds regions, and those that are not in it are not worth splitting. Once a region of
      several blocks has left it, none of those in it is worth splitting either. */
  ghost predicate Watched(regions: seq<Region>, heap: set<nat>, thresholds: seq<Word>, blocks: nat) {
    && (forall i :: i in heap ==> i < |regions|)
    && (forall i :: 0 <= i < |regions| && i !in heap ==> Settled(regions[i], thresholds, |regions|, blocks))
    && (forall i, j :: 0 <= i < |regions| && i !in heap && regions[i].count >= 2 && j in heap ==>
          |regions| <= |thresholds| && regions[j].e < Bound(thresholds, |regions|, blocks))
  }

  /** The region that the heap gives first: one with the largest error. */
  predicate Top(regions: seq<Region>, heap: set<nat>, i: nat) {
    i in heap && forall j :: j in heap && j < |regions| && i < |regions| ==> regions[j].e <= regions[i].e
  }

  lemma {:induction false} SomeTop(regions: seq<Region>, heap: set<nat>) returns (i: nat)
    requires heap != {} && forall j :: j in heap ==> j < |regions|
    ensures Top(regions, heap, i)
    decreases |heap|
  {
    i :| i in heap;
    var rest := heap - {i};
    assert forall j :: j in heap ==> j == i || j in rest;
    if rest != {} {
      var k := SomeTop(regions, rest);
      if regions[k].e > regions[i].e {
        i := k;
      }
    }
  }

  /** A region is taken off the heap. */
  lemma WatchedLess(regions: seq<Region>, i: nat, heap: set<nat>, thresholds: seq<Word>, blocks: nat)
    requires Watched(regions, heap, thresholds, blocks) && 1 <= |regions| <= |thresholds| && Top(regions, heap, i)
    requires regions[i].count < 2 || regions[i].e < Bound(thresholds, |regions|, blocks)
    ensures Watched(regions, heap - {i}, thresholds, blocks)
  {
    hide Bound;
  }

  /** A region that is worth splitting is replaced by its parts. */
  lemma WatchedMore(regions: seq<Region>, i: nat, low: Region, high: Region, heap: set<nat>, thresholds: seq<Word>,
                    blocks: nat)
    requires Watched(regions, heap, thresholds, blocks) && i in heap
    requires 1 <= |regions| <= |thresholds| && regions[i].e >= Bound(thresholds, |regions|, blocks)
    ensures Watched(regions[i := low] + [high], heap + {|regions|}, thresholds, blocks)
  {
    hide Bound;
    var after, more := regions[i := low] + [high], heap + {|regions|};
    forall j | 0 <= j < |after| && j !in more ensures after[j].count < 2 {
      assert after[j] == regions[j];
    }
  }

  /** A region of largest error. */
  ghost predicate Largest(regions: seq<Region>, i: nat) {
    i < |regions| && forall j :: 0 <= j < |regions| ==> regions[j].e <= regions[i].e
  }

  ghost predicate OfLargestError(regions: seq<Region>, r: Region) {
    exists i: nat :: Largest(regions, i) && regions[i] == r
  }

  /** A region that is worth splitting and on top of the heap has the largest error of all. */
  lemma TopIsLargest(img: seq<Vector>, regions: seq<Region>, i: nat, heap: set<nat>, thresholds: seq<Word>)
    requires Quantised(img, regions) && Watched(regions, heap, thresholds, |img|) && Top(regions, heap, i)
    requires 1 <= |regions| <= |thresholds| && regions[i].e >= Bound(thresholds, |regions|, |img|)
    ensures Largest(regions, i)
  {
    hide Bound, Calm, CalmRegion, Segmented, NonEmpty;
    forall j | 0 <= j < |regions| ensures regions[j].e <= regions[i].e {
      if j !in heap {
        assert regions[j].count < 2;
        Single(img, regions, j);
      }
    }
  }

  lemma Single(img: seq<Vector>, regions: seq<Region>, j: nat)
    requires Quantised(img, regions) && j < |regions| && regions[j].count < 2
    ensures regions[j].e == 0
  {
    hide Calm, CalmRegion, NonEmpty;
    ExactList(img, regions[j]);
  }

  /** One round: a region of largest error, which reaches the threshold for the number of regions, is
      split in two. */
  ghost predicate SplitAt(img: seq<Vector>, thresholds: seq<Word>, before: seq<Region>, i: nat, low: Region,
                          high: Region)
  {
    && Largest(before, i) && before[i].count >= 2 && 1 <= |before| <= |thresholds|
    && before[i].e >= Bound(thresholds, |before|, |img|)
    && exists axis, split :: SplitBy(img, before[i], low, high, axis, split)
  }

  ghost predicate Follows(img: seq<Vector>, thresholds: seq<Word>, before: seq<Region>, after: seq<Region>) {
    exists i: nat, low, high ::
      SplitAt(img, thresholds, before, i, low, high) && after == before[i := low] + [high]
  }

  /** The regions after each round, beginning with one of all blocks. */
  ghost predicate IsRun(img: seq<Vector>, thresholds: seq<Word>, run: seq<seq<Region>>) {
    && run != [] && |run[0]| == 1 && Segmented(img, run[0])
    && forall t :: 0 <= t < |run| - 1 ==> Follows(img, thresholds, run[t], run[t + 1])
  }

  lemma RunMore(img: seq<Vector>, thresholds: seq<Word>, run: seq<seq<Region>>, i: nat, low: Region, high: Region)
    requires IsRun(img, thresholds, run)
    requires SplitAt(img, thresholds, run[|run| - 1], i, low, high)
    ensures IsRun(img, thresholds, run + [run[|run| - 1][i := low] + [high]])
  {
    hide SplitAt;
    var last := run[|run| - 1];
    IndexOfSplit(img, thresholds, last, i, low, high);
    var more := run + [last[i := low] + [high]];
    assert Follows(img, thresholds, last, last[i := low] + [high]);
    forall t | 0 <= t < |more| - 1 ensures Follows(img, thresholds, more[t], more[t + 1]) {
      if t < |run| - 1 {
        assert more[t] == run[t] && more[t + 1] == run[t + 1];
      }
    }
  }

  lemma SplitNow(img: seq<Vector>, thresholds: seq<Word>, before: seq<Region>, i: nat, low: Region, high: Region,
                 axis: nat, split: nat)
    requires Largest(before, i) && before[i].count >= 2 && 1 <= |before| <= |thresholds|
    requires before[i].e >= Bound(thresholds, |before|, |img|) && SplitBy(img, before[i], low, high, axis, split)
    ensures SplitAt(img, thresholds, before, i, low, high)
  {
    hide SplitBy, Largest, Bound;
  }

  lemma IndexOfSplit(img: seq<Vector>, thresholds: seq<Word>, before: seq<Region>, i: nat, low: Region, high: Region)
    requires SplitAt(img, thresholds, before, i, low, high)
    ensures i < |before|
  {
  }

  /** As long as there is one region, it is that of all blocks. */
  lemma StillFirst(img: seq<Vector>, regions: seq<Region>, thresholds: seq<Word>)
    requires Quantised(img, regions) && |regions| == 1 && |thresholds| >= 1
    ensures var r := regions[0];
            && |r.b| == |r.c| == AXES
            && (StuckAtOnce(img, thresholds) <==> r.count >= 2 && r.e >= Bound(thresholds, 1, |img|) && Stuck(r))
  {
    hide Measured, Calm, CalmRegion, StuckAtOnce, Bound, Stuck, Exact;
    assert regions[1..] == [];
    assert Members(regions) == multiset(regions[0].blocks);
    AtOnce(img, regions[0], thresholds);
  }

  lemma OneRegion(img: seq<Vector>, r: Region)
    requires Exact(img, r) && multiset(r.blocks) == Everything(|img|)
    ensures Segmented(img, [r])
  {
    assert [r][1..] == [];
  }

  /** What holds before each step of the main loop. */
  ghost predicate InLoop(img: seq<Vector>, thresholds: seq<Word>, regions: seq<Region>, heap: set<nat>,
                         run: seq<seq<Region>>)
  {
    && Quantised(img, regions) && 1 <= |regions| <= REG_MAX && Watched(regions, heap, thresholds, |img|)
    && IsRun(img, thresholds, run) && run[|run| - 1] == regions
    && (StuckAtOnce(img, thresholds) ==> |regions| == 1 && heap != {})
  }

  lemma LoopFirst(img: seq<Vector>, thresholds: seq<Word>, r: Region)
    requires Exact(img, r) && multiset(r.blocks) == Everything(|img|) && r.blocks != [] && Measured(img, r)
    ensures InLoop(img, thresholds, [r], {0}, [[r]])
  {
    hide Exact, Measured, Quantised, StuckAtOnce, Settled, Everything, Segmented;
    QuantisedFirst(img, r);
    OneRegion(img, r);
  }

  /** The region taken off the heap. */
  lemma LoopTop(img: seq<Vector>, thresholds: seq<Word>, regions: seq<Region>, heap: set<nat>, run: seq<seq<Region>>)
    requires InLoop(img, thresholds, regions, heap, run) && heap != {} && |img| < MAX_BLOCKS
    ensures exists i :: i in heap && Top(regions, heap, i)
    ensures forall i :: i in heap ==>
              && i < |regions| && Exact(img, regions[i]) && Measured(img, regions[i])
              && regions[i].count == |regions[i].blocks| < MAX_BLOCKS
  {
    hide Exact, Measured, Quantised, StuckAtOnce, Settled, IsRun, Top, Calm, CalmRegion;
    var i := SomeTop(regions, heap);
    TopIn(regions, heap, i);
    forall j | j in heap
      ensures j < |regions| && Exact(img, regions[j]) && Measured(img, regions[j])
      ensures regions[j].count == |regions[j].blocks| < MAX_BLOCKS
    {
      QuantisedAt(img, regions, j);
    }
  }

  lemma TopIn(regions: seq<Region>, heap: set<nat>, i: nat)
    requires Top(regions, heap, i)
    ensures i in heap
  {
  }

  lemma LoopLess(img: seq<Vector>, thresholds: seq<Word>, regions: seq<Region>, heap: set<nat>, run: seq<seq<Region>>,
                 i: nat)
    requires InLoop(img, thresholds, regions, heap, run) && Top(regions, heap, i) && i < |regions| <= |thresholds|
    requires regions[i].count < 2 || regions[i].e < Bound(thresholds, |regions|, |img|)
    ensures InLoop(img, thresholds, regions, heap - {i}, run)
  {
    hide Quantised, StuckAtOnce, Settled, IsRun, Top, Watched, Bound, Stuck;
    WatchedLess(regions, i, heap, thresholds, |img|);
    if |regions| == 1 {
      StillFirst(img, regions, thresholds);
    }
  }

  lemma LoopMore(img: seq<Vector>, thresholds: seq<Word>, regions: seq<Region>, heap: set<nat>, run: seq<seq<Region>>,
                 i: nat, low: Region, high: Region, axis: nat, split: nat)
    requires InLoop(img, thresholds, regions, heap, run) && Top(regions, heap, i) && i < |regions| <= |thresholds|
    requires regions[i].count >= 2 && regions[i].e >= Bound(thresholds, |regions|, |img|) && |regions| < REG_MAX
    requires Exact(img, regions[i]) && !Stuck(regions[i]) && SplitBy(img, regions[i], low, high, axis, split)
    ensures var after := regions[i := low] + [high];
            InLoop(img, thresholds, after, heap + {|regions|}, run + [after])
  {
    hide Exact, Measured, Quantised, StuckAtOnce, Settled, IsRun, Top, Watched, Bound, Stuck, IsSplit, SplitAt, Largest;
    hide BestSplit, Below, Above, Preferred;
    TopIn(regions, heap, i);
    TopIsLargest(img, regions, i, heap, thresholds);
    QuantisedMore(img, regions, i, low, high);
    WatchedMore(regions, i, low, high, heap, thresholds, |img|);
    SplitNow(img, thresholds, regions, i, low, high, axis, split);
    RunMore(img, thresholds, run, i, low, high);
    if |regions| == 1 {
      StillFirst(img, regions, thresholds);
    }
  }

  lemma LoopFailed(img: seq<Vector>, thresholds: seq<Word>, regions: seq<Region>, heap: set<nat>,
                   run: seq<seq<Region>>, i: nat)
    requires InLoop(img, thresholds, regions, heap, run) && Top(regions, heap, i) && i < |regions| <= |thresholds|
    requires regions[i].count >= 2 && regions[i].e >= Bound(thresholds, |regions|, |img|) && |regions| < REG_MAX
    requires Exact(img, regions[i]) && Measured(img, regions[i]) && |regions[i].blocks| >= 2 && Stuck(regions[i])
    ensures Largest(regions, i) && !(Calm(img) && Selective(thresholds, |img|))
    ensures |thresholds| <= 1 ==> StuckAtOnce(img, thresholds)
  {
    hide Exact, Measured, StuckAtOnce, Settled, IsRun, Top, Watched, Bound, Stuck, Largest, Selective, CalmRegion;
    hide Segmented, NonEmpty, Calm;
    TopIsLargest(img, regions, i, heap, thresholds);
    NotCalm(img, regions[i], thresholds, |regions|);
    if |regions| == 1 {
      StillFirst(img, regions, thresholds);
    }
  }

  lemma LoopDone(img: seq<Vector>, thresholds: seq<Word>, regions: seq<Region>, heap: set<nat>, run: seq<seq<Region>>)
    requires InLoop(img, thresholds, regions, heap, run)
    ensures Segmented(img, regions) && NonEmpty(regions)
    ensures forall i :: 0 <= i < |regions| ==> Measured(img, regions[i])
    ensures IsRun(img, thresholds, run) && run[|run| - 1] == regions
    ensures heap == {} ==> forall i :: 0 <= i < |regions| ==> Settled(regions[i], thresholds, |regions|, |img|)
    ensures StuckAtOnce(img, thresholds) ==> |regions| == 1 <= |thresholds| && heap != {}
  {
    hide Exact, Measured, Settled, IsRun, Calm, CalmRegion, Bound, StuckImage, ImageError;
  }

  /** Splits the region of largest error as long as it is over the threshold for the number of
      regions. It divides by zero where it comes to a region that is stuck; if it does not, the
      regions are a partition into at most 16 parts that are not empty, and it only stops for their
      number or because no region is worth splitting.

      It never divides by zero on a calm image with positive thresholds, and always if all blocks
      together are worth splitting and stuck; with a single threshold only then. */
  method Prequant(img: seq<Vector>, thresholds: seq<Word>)
    returns (regions: seq<Region>, crashed: bool, ghost stuck: Region, ghost run: seq<seq<Region>>)
    requires 0 < |img| < MAX_BLOCKS
    ensures Segmented(img, regions) && NonEmpty(regions) && 1 <= |regions| <= REG_MAX
    ensures forall i :: 0 <= i < |regions| ==> Measured(img, regions[i])
    ensures IsRun(img, thresholds, run) && run[|run| - 1] == regions
    ensures !crashed ==> Stopped(regions, thresholds, |img|)
    ensures crashed ==> OfLargestError(regions, stuck)
    ensures crashed ==> Exact(img, stuck) && |stuck.blocks| >= 2 && Stuck(stuck)
    ensures crashed ==> |regions| <= |thresholds| && stuck.e >= Bound(thresholds, |regions|, |img|)
    ensures Calm(img) && Selective(thresholds, |img|) ==> !crashed
    ensures StuckAtOnce(img, thresholds) ==> crashed
    ensures |thresholds| <= 1 ==> (crashed <==> StuckAtOnce(img, thresholds))
  {
    hide InLoop, Exact, Stuck, Measured, Bound, Calm, StuckAtOnce, SplitBy, Settled, Segmented, NonEmpty, Selective;
    hide BestSplit, Cov, Largest, IsRun, Top, Everything, Below, Above;
    var r := FirstRegion(img);
    regions, crashed, stuck, run := [r], false, r, [[r]];
    LoopFirst(img, thresholds, r);
    var heap: set<nat> := {0};
    while |regions| < REG_MAX && |regions| <= |thresholds| && heap != {}
      invariant 1 <= |regions| <= REG_MAX && InLoop(img, thresholds, regions, heap, run) && !crashed
      decreases 2 * (REG_MAX - |regions|) + |heap|
    {
      LoopTop(img, thresholds, regions, heap, run);
      var i :| i in heap && Top(regions, heap, i);
      r := regions[i];
      if r.count < 2 || r.e < Bound(thresholds, |regions|, |img|) {
        LoopLess(img, thresholds, regions, heap, run, i);
        heap := heap - {i};
      } else {
        var low, high, failed, axis, split := SplitRegion(img, r);
        if failed {
          LoopFailed(img, thresholds, regions, heap, run, i);
          crashed, stuck := true, r;
          break;
        }
        LoopMore(img, thresholds, regions, heap, run, i, low, high, axis, split);
        heap := heap + {|regions|};
        regions := regions[i := low] + [high];
        run := run + [regions];
      }
    }
    LoopDone(img, thresholds, regions, heap, run);
  }

  // ----- post-quantisation -----

  /** The pivot of a region: about the mean of each feature, never above it. */
  function PivotOf(b: nat, n: nat): nat
    requires n > 0
  {
    Quotient(0xffff_ffff, n);
    b * (0xffff_ffff / n) / 0x1_0000_0000
  }

  lemma PivotIsMean(b: nat, n: nat)
    requires 0 < n < MAX_BLOCKS && b < 0x100_0000
    ensures b / n - 1 <= PivotOf(b, n) <= b / n
  {
    Quotient(0xffff_ffff, n);
    Quotient(b, n);
    var q, inv := b / n, 0xffff_ffff / n;
    PivotBelow(b, n, inv);
    if q > 0 {
      PivotAbove(b, n, q, inv);
    }
  }

  lemma PivotBelow(b: nat, n: nat, inv: nat)
    requires n > 0 && n * inv <= 0xffff_ffff
    ensures b * inv / 0x1_0000_0000 <= b / n
  {
    Quotient(b, n);
    var q: nat := b / n;
    Distribute(n, q, 1);
    Times(inv, b, n * (q + 1) - 1);
    Distribute(inv, n * (q + 1), -1);
    Rearrange(inv, n, q + 1);
    Times(q + 1, n * inv, 0xffff_ffff);
    QuotientBelow(b * inv, q + 1, 0x1_0000_0000);
  }

  lemma Rearrange(a: nat, b: nat, c: nat)
    ensures a * (b * c) == b * a * c && a * (b * c) == c * (b * a)
  {
  }

  lemma PivotAbove(b: nat, n: nat, q: nat, inv: nat)
    requires n * q <= b < 0x100_0000 && n * inv >= 0x1_0000_0000 - n
    ensures b * inv / 0x1_0000_0000 >= q - 1
  {
    var m: int := n;
    Times(inv, n * q, b);
    Rearrange(inv, n, q);
    Times(q, 0x1_0000_0000 - m, n * inv);
    Distribute(q, 0x1_0000_0000, -m);
    assert b * inv >= 0x1_0000_0000 * (q - 1);
  }

  // ----- a region that is stuck -----

  /** The thresholds of the configuration that comes with the library. */
  const THRESHOLDS: seq<Word> := [6, 12, 15, 20, 25, 25, 30, 30, 40, 40, 50, 50, 60, 60, 60]

  /** For images of two kinds of blocks it can be told exactly whether all blocks together are worth
      splitting and stuck. */
  lemma KindsAtOnce(img: seq<Vector>, v: Vector, w: Vector, thresholds: seq<Word>)
    requires TwoKinds(img, v, w) && |img| >= 2 && |thresholds| >= 1
    ensures StuckAtOnce(img, thresholds) <==>
            && KindsVariance(img, v, w, 0) == 0
            && (forall i :: 1 <= i < AXES ==> Cut(KindsVariance(img, v, w, i)) == 0)
            && KindsTotal(img, v, w, AXES) > |img| * (Bound(thresholds, 1, |img|) - 1)
  {
    hide KindsVariance, KindsTotal, StuckImage, ImageError, Bound, Cut;
    KindsStuck(img, v, w);
    KindsError(img, v, w);
    Reaches(|img|, ImageError(img), KindsTotal(img, v, w, AXES), Bound(thresholds, 1, |img|));
  }

  lemma Reaches(n: nat, e: int, total: int, bound: int)
    requires n > 0 && n * (e - 1) < total <= n * e
    ensures e >= bound <==> total > n * (bound - 1)
  {
    if e >= bound {
      Times(n, bound - 1, e - 1);
    } else {
      Times(n, e, bound - 1);
    }
  }

  /** An image of 32768 blocks of one kind and 16384 of another that differs by 8 on the second axis. */
  function Example(b: Vector): seq<Vector>
    requires b[1] <= 247
  {
    Repeat(b, 32768) + Repeat(Brighter(b), 16384)
  }

  function Brighter(b: Vector): Vector
    requires b[1] <= 247
  {
    b[1 := b[1] + 8]
  }

  lemma ExampleKinds(b: Vector)
    requires b[1] <= 247
    ensures TwoKinds(Example(b), b, Brighter(b)) && Number(Example(b), Brighter(b)) == 16384
  {
    assert b[1] != Brighter(b)[1];
    NumberConcat(Repeat(b, 32768), Repeat(Brighter(b), 16384), Brighter(b));
    NumberRepeat(b, 32768, Brighter(b));
    NumberRepeat(Brighter(b), 16384, Brighter(b));
  }

  /** The variance of such an image on the second axis is 2^35, which is zero in 32 bits, so the first
      axis is taken for the split of the region with all blocks, which is worth splitting. */
  lemma StuckExample(b: Vector)
    requires b[1] <= 247
    ensures |Example(b)| == 49152 && ImageError(Example(b)) == 699051 >= Bound(THRESHOLDS, 1, 49152)
    ensures !Constant(Column(Example(b), 1)) && StuckImage(Example(b)) && StuckAtOnce(Example(b), THRESHOLDS)
  {
    var img := Example(b);
    assert |img| == 49152;
    ExampleKinds(b);
    NotConstant(img, Column(img, 1));
    hide Example, StuckImage, ImageError, Number, Constant, Column, TwoKinds, KindsTotal;
    OneAxisStuck(img, b, Brighter(b), 1);
    assert Apart(32768, 16384, b[1], b[1] + 8) == 0x8_0000_0000;
    KindsError(img, b, Brighter(b));
  }

  lemma NotConstant(img: seq<Vector>, s: seq<nat>)
    requires |img| == |s| == 49152 && s[0] != s[49151]
    ensures !Constant(s)
  {
  }
}
