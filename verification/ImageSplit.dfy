/**
 Splitting a region of image blocks in two: the values on the chosen axis are counted and the
 value is found that makes the error of the two parts smallest.
 */
module ImageSplit {
  import opened Powers
  import opened Sums
  import opened ImageRegions

  // ----- the values up to a bound and those above it -----

  function Low(s: seq<nat>, t: int): seq<nat> {
    if s == [] then [] else (if s[0] <= t then [s[0]] else []) + Low(s[1..], t)
  }

  function High(s: seq<nat>, t: int): seq<nat> {
    if s == [] then [] else (if s[0] > t then [s[0]] else []) + High(s[1..], t)
  }

  function Count(s: seq<nat>, x: int): nat {
    if s == [] then 0 else (if s[0] == x then 1 else 0) + Count(s[1..], x)
  }

  lemma {:induction false} CountIs(s: seq<nat>, x: nat)
    ensures Count(s, x) == multiset(s)[x]
    ensures Count(s, x) > 0 <==> x in s
  {
    if s != [] {
      CountIs(s[1..], x);
      assert s == [s[0]] + s[1..];
    }
  }

  /** Both parts together. */
  lemma {:induction false} Parts(s: seq<nat>, t: int)
    ensures |Low(s, t)| + |High(s, t)| == |s|
    ensures Sum(Low(s, t)) + Sum(High(s, t)) == Sum(s)
    ensures SumSq(Low(s, t)) + SumSq(High(s, t)) == SumSq(s)
  {
    if s != [] {
      Parts(s[1..], t);
      var l, h := Low(s[1..], t), High(s[1..], t);
      assert ([s[0]] + l)[1..] == l && ([s[0]] + h)[1..] == h;
      assert [] + l == l && [] + h == h;
    }
  }

  /** With the next larger value, all its occurrences move from one part to the other. */
  lemma {:induction false} NextValue(s: seq<nat>, u: int, w: nat)
    requires u < w && forall i :: 0 <= i < |s| ==> s[i] <= u || s[i] >= w
    ensures |Low(s, w)| == |Low(s, u)| + Count(s, w)
    ensures Sum(Low(s, w)) == Sum(Low(s, u)) + w * Count(s, w)
    ensures SumSq(Low(s, w)) == SumSq(Low(s, u)) + w * w * Count(s, w)
  {
    if s != [] {
      NextValue(s[1..], u, w);
      var l, k := Low(s[1..], w), Low(s[1..], u);
      assert ([s[0]] + l)[1..] == l && ([s[0]] + k)[1..] == k;
      assert [] + l == l && [] + k == k;
      Distribute(w, 1, Count(s[1..], w));
      Distribute(w * w, 1, Count(s[1..], w));
    }
  }

  lemma {:induction false} NothingBelow(s: seq<nat>)
    ensures Low(s, -1) == []
  {
    if s != [] {
      NothingBelow(s[1..]);
    }
  }

  lemma {:induction false} LowMembers(s: seq<nat>, t: int)
    ensures forall x :: x in Low(s, t) <==> x in s && x <= t
    ensures forall x :: x in High(s, t) <==> x in s && x > t
  {
    if s != [] {
      LowMembers(s[1..], t);
      assert forall x :: x in s <==> x == s[0] || x in s[1..];
    }
  }

  /** The error of values about their mean, rounded up. */
  function PartError(s: seq<nat>): (e: nat)
    requires s != []
  {
    CauchySchwarz(s);
    NotMore(Sum(s) * Sum(s), SumSq(s), |s|);
    SumSq(s) - Sum(s) * Sum(s) / |s|
  }

  /** The bound leaves something on both sides. */
  ghost predicate Divides(s: seq<nat>, t: int) {
    Low(s, t) != [] && High(s, t) != []
  }

  ghost function SplitError(s: seq<nat>, t: int): nat
    requires Divides(s, t)
  {
    PartError(Low(s, t)) + PartError(High(s, t))
  }

  // ----- histograms -----

  ghost predicate Increasing(val: seq<nat>) {
    forall i, j :: 0 <= i < j < |val| ==> val[i] < val[j]
  }

  /** The distinct values below a bound in increasing order and how often each occurs. */
  ghost predicate Counted(m: multiset<nat>, val: seq<nat>, cnt: seq<nat>, bound: nat) {
    && |val| == |cnt| && Increasing(val)
    && (forall k :: 0 <= k < |val| ==> val[k] < bound && cnt[k] == m[val[k]] > 0)
    && (forall x :: x in m && x < bound ==> x in val)
  }

  ghost predicate IsHistogram(s: seq<nat>, val: seq<nat>, cnt: seq<nat>) {
    Counted(multiset(s), val, cnt, 256)
  }

  lemma CountedNone(m: multiset<nat>)
    ensures Counted(m, [], [], 0)
  {
  }

  lemma CountedNext(m: multiset<nat>, val: seq<nat>, cnt: seq<nat>, i: nat)
    requires Counted(m, val, cnt, i)
    ensures m[i] > 0 ==> Counted(m, val + [i], cnt + [m[i]], i + 1)
    ensures m[i] == 0 ==> Counted(m, val, cnt, i + 1)
  {
    assert i in m <==> m[i] > 0;
  }

  /** One more occurrence of the last value, or a first one of a larger value. */
  lemma CountedMore(m: multiset<nat>, val: seq<nat>, cnt: seq<nat>, x: nat)
    requires Counted(m, val, cnt, 256) && val != [] && val[|val| - 1] <= x < 256 && forall y :: y in m ==> y < 256
    ensures val[|val| - 1] == x ==>
              Counted(m + multiset{x}, val, cnt[|cnt| - 1 := cnt[|cnt| - 1] + 1], 256)
    ensures val[|val| - 1] < x ==> Counted(m + multiset{x}, val + [x], cnt + [1], 256)
  {
    var n := |val| - 1;
    forall y | y in m ensures y <= val[n] {
      var k :| 0 <= k < |val| && val[k] == y;
    }
    assert val[n] < x ==> x !in m;
  }

  /** For many values they are counted in a table, which is then packed in place. */
  method CountValues(s: seq<nat>) returns (val: seq<nat>, cnt: seq<nat>)
    requires forall i :: 0 <= i < |s| ==> s[i] < 256
    ensures IsHistogram(s, val, cnt)
  {
    var table := new nat[256](_ => 0);
    var k := 0;
    while k < |s|
      invariant 0 <= k <= |s|
      invariant forall x :: 0 <= x < 256 ==> table[x] == multiset(s[..k])[x]
    {
      assert s[..k + 1] == s[..k] + [s[k]];
      table[s[k]] := table[s[k]] + 1;
      k := k + 1;
    }
    assert s[..k] == s;
    val, cnt := Pack(table, s);
  }

  method Pack(table: array<nat>, ghost s: seq<nat>) returns (val: seq<nat>, cnt: seq<nat>)
    requires table.Length == 256 && forall i :: 0 <= i < |s| ==> s[i] < 256
    requires forall x :: 0 <= x < 256 ==> table[x] == multiset(s)[x]
    modifies table
    ensures IsHistogram(s, val, cnt)
  {
    var values := new nat[256];
    var cval, i := 0, 0;
    ghost var m := multiset(s);
    hide Counted;
    assert values[..0] == [] && table[..0] == [];
    CountedNone(m);
    while i < 256
      invariant 0 <= cval <= i <= 256
      invariant forall x :: i <= x < 256 ==> table[x] == m[x]
      invariant Counted(m, values[..cval], table[..cval], i)
    {
      CountedNext(m, values[..cval], table[..cval], i);
      if table[i] != 0 {
        PackOne(values, table, cval, i);
        cval := cval + 1;
      }
      i := i + 1;
    }
    val, cnt := values[..cval], table[..cval];
  }

  method PackOne(values: array<nat>, table: array<nat>, cval: nat, i: nat)
    requires values != table && cval <= i < values.Length == table.Length
    modifies values, table
    ensures values[..cval + 1] == old(values[..cval]) + [i]
    ensures table[..cval + 1] == old(table[..cval]) + [old(table[i])]
    ensures forall x :: i < x < table.Length ==> table[x] == old(table[x])
  {
    values[cval] := i;
    table[cval] := table[i];
  }

  /** Few values are sorted and equal ones counted. */
  method SortValues(s: seq<nat>) returns (val: seq<nat>, cnt: seq<nat>)
    requires s != [] && forall i :: 0 <= i < |s| ==> s[i] < 256
    ensures IsHistogram(s, val, cnt)
  {
    var sorted := SortedNats(s);
    SameMembers(s, sorted);
    val, cnt := RunLengths(sorted);
  }

  method RunLengths(sorted: seq<nat>) returns (val: seq<nat>, cnt: seq<nat>)
    requires sorted != [] && Ordered(sorted) && forall i :: 0 <= i < |sorted| ==> sorted[i] < 256
    ensures IsHistogram(sorted, val, cnt)
  {
    hide Counted;
    val, cnt := [sorted[0]], [1];
    var i := 1;
    assert sorted[..1] == [sorted[0]];
    CountedOne(sorted[0]);
    while i < |sorted|
      invariant 1 <= i <= |sorted| && |val| == |cnt| >= 1 && val[|val| - 1] == sorted[i - 1]
      invariant Counted(multiset(sorted[..i]), val, cnt, 256)
    {
      Prefix(sorted, i);
      CountedMore(multiset(sorted[..i]), val, cnt, sorted[i]);
      if sorted[i] == val[|val| - 1] {
        cnt := cnt[|cnt| - 1 := cnt[|cnt| - 1] + 1];
      } else {
        val, cnt := val + [sorted[i]], cnt + [1];
      }
      i := i + 1;
    }
    assert sorted[..i] == sorted;
  }

  lemma Prefix(sorted: seq<nat>, i: nat)
    requires 0 < i < |sorted| && Ordered(sorted) && forall i :: 0 <= i < |sorted| ==> sorted[i] < 256
    ensures multiset(sorted[..i + 1]) == multiset(sorted[..i]) + multiset{sorted[i]}
    ensures sorted[i - 1] <= sorted[i] < 256
    ensures forall y :: y in multiset(sorted[..i]) ==> y < 256
  {
    assert sorted[..i + 1] == sorted[..i] + [sorted[i]];
  }

  lemma CountedOne(x: nat)
    requires x < 256
    ensures Counted(multiset([x]), [x], [1], 256)
  {
  }

  lemma SameMembers(s: seq<nat>, sorted: seq<nat>)
    requires multiset(s) == multiset(sorted) && forall i :: 0 <= i < |s| ==> s[i] < 256
    ensures |s| == |sorted| && forall i :: 0 <= i < |sorted| ==> sorted[i] < 256
  {
    assert |s| == |multiset(s)| == |sorted|;
    assert forall i :: 0 <= i < |sorted| ==> sorted[i] in multiset(s);
  }

  function SortedNats(s: seq<nat>): (r: seq<nat>)
    ensures multiset(r) == multiset(s) && Ordered(r)
  {
    var r := Sorted(s);
    assert forall k :: 0 <= k < |r| ==> r[k] in multiset(s);
    r
  }

  // ----- the best split -----

  /** The number, sum and sum of squares of values, as the code keeps them in 32 bits. */
  datatype Part = Part(n: Word, b: Word, c: Word)

  ghost predicate Describes(p: Part, s: seq<nat>) {
    p.n == |s| && p.b == Sum(s) && p.c == SumSq(s)
  }

  /** The running sums are those of the values up to t and above it. */
  ghost predicate At(s: seq<nat>, t: int, p: Part, q: Part) {
    Describes(p, Low(s, t)) && Describes(q, High(s, t))
  }

  /** The sum and the sum of squares of n equal values. */
  function Weighted(w: nat, n: nat): nat { w * n }
  function Squares(w: nat, n: nat): nat { w * w * n }

  /** The next value can move on to the part below: there is enough of it in the part above, and
      nothing overflows as long as the sums of all values fit. */
  lemma AtEnough(s: seq<nat>, u: int, w: nat, n: nat, p: Part, q: Part, total: Part)
    requires At(s, u, p, q) && u < w && n == Count(s, w) && forall i :: 0 <= i < |s| ==> s[i] <= u || s[i] >= w
    requires Describes(total, s)
    ensures n <= q.n && Weighted(w, n) <= q.b && Squares(w, n) <= q.c
    ensures p.n + q.n == total.n && p.b + q.b == total.b && p.c + q.c == total.c
  {
    hide Low, High, Count;
    NextValue(s, u, w);
    Parts(s, u);
    Parts(s, w);
  }

  lemma AtNext(s: seq<nat>, u: int, w: nat, n: nat, p: Part, q: Part, p': Part, q': Part)
    requires At(s, u, p, q) && u < w && n == Count(s, w) && forall i :: 0 <= i < |s| ==> s[i] <= u || s[i] >= w
    requires p'.n == p.n + n && p'.b == p.b + Weighted(w, n) && p'.c == p.c + Squares(w, n)
    requires q'.n == q.n - n && q'.b == q.b - Weighted(w, n) && q'.c == q.c - Squares(w, n)
    ensures At(s, w, p', q')
  {
    hide Low, High, Count;
    NextValue(s, u, w);
    Parts(s, u);
    Parts(s, w);
  }

  lemma AtFirst(s: seq<nat>, total: Part)
    requires Describes(total, s)
    ensures At(s, -1, Part(0, 0, 0), total)
  {
    NothingBelow(s);
    Parts(s, -1);
  }

  /** Between neighbours in the histogram there are no values. */
  lemma Gap(s: seq<nat>, val: seq<nat>, cnt: seq<nat>, k: nat)
    requires IsHistogram(s, val, cnt) && k < |val| && forall i :: 0 <= i < |s| ==> s[i] < 256
    ensures var u: int := if k == 0 then -1 else val[k - 1];
            u < val[k] && forall i :: 0 <= i < |s| ==> s[i] <= u || s[i] >= val[k]
    ensures cnt[k] == Count(s, val[k]) > 0
  {
    forall i | 0 <= i < |s| ensures s[i] <= (if k == 0 then -1 else val[k - 1]) || s[i] >= val[k] {
      assert s[i] in multiset(s);
      var m :| 0 <= m < |val| && val[m] == s[i];
    }
    CountIs(s, val[k]);
  }

  /** All but the largest value divide. */
  lemma Dividing(s: seq<nat>, val: seq<nat>, cnt: seq<nat>, k: nat)
    requires IsHistogram(s, val, cnt) && k < |val| && forall i :: 0 <= i < |s| ==> s[i] < 256
    ensures Divides(s, val[k]) <==> k < |val| - 1
  {
    LowMembers(s, val[k]);
    assert val[k] in multiset(s) && val[k] in Low(s, val[k]);
    if k < |val| - 1 {
      assert val[k + 1] in multiset(s) && val[k + 1] in High(s, val[k]);
    } else {
      forall i | 0 <= i < |s| ensures s[i] <= val[k] {
        var m := IndexOf(s, val, cnt, s[i]);
      }
      NothingAbove(s, val[k]);
    }
  }

  lemma {:induction false} NothingAbove(s: seq<nat>, t: nat)
    requires forall i :: 0 <= i < |s| ==> s[i] <= t
    ensures High(s, t) == []
  {
    if s != [] {
      NothingAbove(s[1..], t);
    }
  }

  lemma TwoValues(s: seq<nat>, val: seq<nat>, cnt: seq<nat>)
    requires IsHistogram(s, val, cnt) && !Constant(s) && forall i :: 0 <= i < |s| ==> s[i] < 256
    ensures |val| >= 2
  {
    var i, j :| 0 <= i < |s| && 0 <= j < |s| && s[i] != s[j];
    assert s[i] in multiset(s) && s[j] in multiset(s);
    assert s[i] in val && s[j] in val;
  }

  /** Moves all blocks with the value w from the part above to the part below. */
  method Move(ghost s: seq<nat>, ghost u: int, w: nat, n: nat, p: Part, q: Part, ghost total: Part)
    returns (p': Part, q': Part)
    requires At(s, u, p, q) && u < w && n == Count(s, w) && forall i :: 0 <= i < |s| ==> s[i] <= u || s[i] >= w
    requires Describes(total, s)
    ensures At(s, w, p', q')
  {
    hide Low, High, Count, At, Describes, Weighted, Squares;
    AtEnough(s, u, w, n, p, q, total);
    var b0: Word, c0: Word := Weighted(w, n), Squares(w, n);
    p' := Part(p.n + n, p.b + b0, p.c + c0);
    q' := Part(q.n - n, q.b - b0, q.c - c0);
    AtNext(s, u, w, n, p, q, p', q');
  }

  /** The error as computed from the running sums, in 64 bits. */
  method Error(ghost s: seq<nat>, ghost t: int, p: Part, q: Part) returns (e: Long)
    requires At(s, t, p, q) && Divides(s, t)
    ensures e == SplitError(s, t)
  {
    hide Low, High;
    CauchySchwarz(Low(s, t));
    CauchySchwarz(High(s, t));
    NotMore(p.b * p.b, p.c, p.n);
    NotMore(q.b * q.b, q.c, q.n);
    e := p.c - p.b * p.b / p.n + q.c - q.b * q.b / q.n;
  }

  /** Nothing is above the smallest value exactly if it is the only one. */
  lemma FirstValue(s: seq<nat>, val: seq<nat>, cnt: seq<nat>, p: Part, q: Part)
    requires IsHistogram(s, val, cnt) && val != [] && forall i :: 0 <= i < |s| ==> s[i] < 256
    requires At(s, val[0], p, q)
    ensures q.n == 0 <==> Constant(s)
    ensures q.n > 0 ==> |val| >= 2
  {
    hide Low, High, Constant, IsHistogram;
    Dividing(s, val, cnt, 0);
    if Constant(s) {
      NotEmpty(s, val, cnt);
      OneValue(s, val, cnt);
      Parts(s, val[0]);
      Gap(s, val, cnt, 0);
      NothingBelow(s);
      NextValue(s, -1, val[0]);
    } else {
      TwoValues(s, val, cnt);
    }
  }

  lemma NotEmpty(s: seq<nat>, val: seq<nat>, cnt: seq<nat>)
    requires IsHistogram(s, val, cnt) && val != []
    ensures s != []
  {
    assert val[0] in multiset(s);
  }

  /** No other value makes the error smaller, and no smaller one makes it as small. */
  ghost predicate NotWorse(s: seq<nat>, split: int, t: int)
    requires Divides(s, split) && Divides(s, t)
  {
    SplitError(s, split) <= SplitError(s, t) && (t < split ==> SplitError(s, split) < SplitError(s, t))
  }

  /** Selects the value to split at. If there is just one value, the part above it is empty, and
      its error is a division by zero. Otherwise both parts get blocks, no other value makes the
      error smaller, and of several such values it is the smallest. */
  method SelectSplit(s: seq<nat>, val: seq<nat>, cnt: seq<nat>, total: Part) returns (split: nat, crashed: bool)
    requires IsHistogram(s, val, cnt) && s != [] && Describes(total, s) && forall i :: 0 <= i < |s| ==> s[i] < 256
    ensures crashed <==> Constant(s)
    ensures !crashed ==> split in s && Divides(s, split)
    ensures !crashed ==> forall t :: t in s && Divides(s, t) ==> NotWorse(s, split, t)
  {
    hide IsHistogram, Counted, Constant, At, Divides, SplitError, Count, Describes, Low, High, Weighted, Squares;
    SameSizes(s, val, cnt);
    AtFirst(s, total);
    Gap(s, val, cnt, 0);
    var p, q := Move(s, -1, val[0], cnt[0], Part(0, 0, 0), total, total);
    FirstValue(s, val, cnt, p, q);
    split, crashed := val[0], q.n == 0;
    if crashed {
      return;
    }
    Dividing(s, val, cnt, 0);
    var best := Error(s, val[0], p, q);
    ghost var at := 0;
    var k := 1;
    while k < |val| - 1
      invariant 1 <= k <= |val| - 1 && At(s, val[k - 1], p, q)
      invariant Divides(s, split) && best == SplitError(s, split) && 0 <= at < k && split == val[at]
      invariant forall m :: 0 <= m < k ==> Divides(s, val[m]) && best <= SplitError(s, val[m])
      invariant forall m :: 0 <= m < at ==> best < SplitError(s, val[m])
    {
      Gap(s, val, cnt, k);
      p, q := Move(s, val[k - 1], val[k], cnt[k], p, q, total);
      Dividing(s, val, cnt, k);
      var err := Error(s, val[k], p, q);
      if err < best {
        best, split := err, val[k];
        at := k;
      }
      k := k + 1;
    }
    ValueAt(s, val, cnt, at);
    forall t | t in s && Divides(s, t) ensures NotWorse(s, split, t) {
      var m := IndexOf(s, val, cnt, t);
      Dividing(s, val, cnt, m);
      if t < split {
        InOrder(s, val, cnt, m, at);
      }
    }
  }

  lemma ValueAt(s: seq<nat>, val: seq<nat>, cnt: seq<nat>, k: nat)
    requires IsHistogram(s, val, cnt) && k < |val|
    ensures val[k] in s
  {
    assert val[k] in multiset(s);
  }

  lemma InOrder(s: seq<nat>, val: seq<nat>, cnt: seq<nat>, m: nat, k: nat)
    requires IsHistogram(s, val, cnt) && m < |val| && k < |val| && val[m] < val[k]
    ensures m < k
  {
  }

  lemma SameSizes(s: seq<nat>, val: seq<nat>, cnt: seq<nat>)
    requires IsHistogram(s, val, cnt) && s != [] && forall i :: 0 <= i < |s| ==> s[i] < 256
    ensures |val| == |cnt| >= 1
  {
    assert s[0] in multiset(s);
  }

  lemma IndexOf(s: seq<nat>, val: seq<nat>, cnt: seq<nat>, t: nat) returns (m: nat)
    requires IsHistogram(s, val, cnt) && t in s && forall i :: 0 <= i < |s| ==> s[i] < 256
    ensures m < |val| && val[m] == t
  {
    assert t in multiset(s) && t < 256;
    m :| 0 <= m < |val| && val[m] == t;
  }

  /** On an axis with a single value the part above it is empty, and its error is a division by
      zero. */
  lemma OneValue(s: seq<nat>, val: seq<nat>, cnt: seq<nat>)
    requires IsHistogram(s, val, cnt) && s != [] && Constant(s) && forall i :: 0 <= i < |s| ==> s[i] < 256
    ensures |val| == |cnt| == 1 && |s| - cnt[0] == 0
  {
    var m := IndexOf(s, val, cnt, s[0]);
    if |val| > 1 {
      FirstTwo(val);
    }
    forall k | 0 <= k < |val| ensures val[k] == s[0] {
      assert val[k] in multiset(s);
    }
    AllEqual(s);
  }

  lemma FirstTwo(val: seq<nat>)
    requires Increasing(val) && |val| > 1
    ensures val[0] != val[1]
  {
  }

  lemma {:induction false} AllEqual(s: seq<nat>)
    requires s != [] && Constant(s)
    ensures multiset(s)[s[0]] == |s|
  {
    assert s == [s[0]] + s[1..];
    if |s| > 1 {
      AllEqual(s[1..]);
      assert s[1] == s[0];
    }
  }
}
