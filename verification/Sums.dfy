/** Sums, sums of squares and sorting, for the models of image signatures. */
module Sums {

  function Sum(s: seq<nat>): nat {
    if s == [] then 0 else s[0] + Sum(s[1..])
  }

  lemma {:induction false} SumChanged(s: seq<nat>, i: nat, v: nat)
    requires i < |s|
    ensures Sum(s[i := v]) == Sum(s) - s[i] + v
  {
    if i == 0 {
      assert s[i := v][1..] == s[1..];
    } else {
      SumChanged(s[1..], i - 1, v);
      assert s[i := v][1..] == s[1..][i - 1 := v];
    }
  }

  /** A positive sum has a positive term. */
  lemma {:induction false} Positive(s: seq<nat>) returns (i: nat)
    requires Sum(s) > 0
    ensures i < |s| && s[i] > 0
  {
    if s[0] > 0 {
      i := 0;
    } else {
      i := Positive(s[1..]);
      i := i + 1;
    }
  }

  lemma {:induction false} TermBound(s: seq<nat>, i: nat)
    requires i < |s|
    ensures s[i] <= Sum(s)
  {
    if i > 0 {
      TermBound(s[1..], i - 1);
    }
  }

  lemma {:induction false} SumAtLeast(s: seq<nat>)
    requires forall i :: 0 <= i < |s| ==> s[i] >= 1
    ensures Sum(s) >= |s|
  {
    if s != [] {
      SumAtLeast(s[1..]);
    }
  }

  lemma {:induction false} SumConcat(a: seq<nat>, b: seq<nat>)
    ensures Sum(a + b) == Sum(a) + Sum(b)
  {
    if a == [] {
      assert a + b == b;
    } else {
      SumConcat(a[1..], b);
      assert (a + b)[1..] == a[1..] + b;
    }
  }

  lemma {:induction false} AllZero(s: seq<nat>)
    requires Sum(s) == 0
    ensures forall i :: 0 <= i < |s| ==> s[i] == 0
  {
    forall i | 0 <= i < |s| ensures s[i] == 0 {
      TermBound(s, i);
    }
  }

  // ----- squares -----

  function SumSq(s: seq<nat>): nat {
    if s == [] then 0 else s[0] * s[0] + SumSq(s[1..])
  }

  /** The sum of squared distances from x. */
  function Deviation(s: seq<nat>, x: nat): (r: int)
    ensures r >= 0
  {
    if s == [] then 0 else (s[0] - x) * (s[0] - x) + Deviation(s[1..], x)
  }

  /** The number of terms times their squares, less the square of their sum. */
  function Variance(s: seq<nat>): int {
    |s| * SumSq(s) - Sum(s) * Sum(s)
  }

  predicate Constant(s: seq<nat>) {
    forall i, j :: 0 <= i < |s| && 0 <= j < |s| ==> s[i] == s[j]
  }

  lemma {:induction false} DeviationIs(s: seq<nat>, x: nat)
    ensures Deviation(s, x) == SumSq(s) - 2 * (x * Sum(s)) + |s| * (x * x)
  {
    if s != [] {
      DeviationIs(s[1..], x);
      SquareOfDifference(s[0], x);
      Distribute(x, s[0], Sum(s[1..]));
      Distribute(x * x, |s| - 1, 1);
    }
  }

  lemma Distribute(a: int, b: int, c: int)
    ensures a * (b + c) == a * b + a * c && (b + c) * a == b * a + c * a
  {
  }

  lemma SquareOfDifference(y: int, x: int)
    ensures (y - x) * (y - x) == y * y - 2 * (x * y) + x * x
  {
    Distribute(y - x, y, -x);
  }

  lemma SquareOfSum(y: int, t: int)
    ensures (y + t) * (y + t) == y * y + 2 * (y * t) + t * t
  {
    Distribute(y + t, y, t);
    Distribute(y, y, t);
    Distribute(t, y, t);
  }

  lemma {:induction false} NoDeviation(s: seq<nat>, x: nat)
    ensures Deviation(s, x) == 0 <==> forall i :: 0 <= i < |s| ==> s[i] == x
  {
    if s != [] {
      NoDeviation(s[1..], x);
      var d := s[0] - x;
      assert d * d >= 0 && (d * d == 0 <==> d == 0) by { Square(d); }
      if forall i :: 0 <= i < |s| ==> s[i] == x {
        assert forall i :: 0 <= i < |s[1..]| ==> s[1..][i] == s[i + 1];
      } else {
        var i :| 0 <= i < |s| && s[i] != x;
        assert i > 0 ==> s[1..][i - 1] == s[i];
      }
    }
  }

  lemma Square(d: int)
    ensures d * d >= 0 && (d * d == 0 <==> d == 0)
  {
  }

  lemma VarianceStep(s: seq<nat>)
    requires s != []
    ensures Variance(s) == Variance(s[1..]) + Deviation(s[1..], s[0])
  {
    var y, n, t, q := s[0], |s| - 1, Sum(s[1..]), SumSq(s[1..]);
    DeviationIs(s[1..], y);
    Distribute(n + 1, y * y, q);
    Distribute(y * y, n, 1);
    Distribute(q, n, 1);
    SquareOfSum(y, t);
  }

  /** The inequality of Cauchy and Schwarz, which is an equality only for equal terms. */
  lemma {:induction false} CauchySchwarz(s: seq<nat>)
    ensures Sum(s) * Sum(s) <= |s| * SumSq(s)
    ensures Variance(s) == 0 <==> Constant(s)
  {
    if s != [] {
      CauchySchwarz(s[1..]);
      VarianceStep(s);
      NoDeviation(s[1..], s[0]);
      assert forall i :: 0 <= i < |s[1..]| ==> s[1..][i] == s[i + 1];
      if Constant(s) {
        assert Constant(s[1..]);
      }
    }
  }

  /** More terms never make the variance smaller. */
  lemma {:induction false} VarianceGrows(a: seq<nat>, b: seq<nat>)
    ensures Variance(b) <= Variance(a + b)
  {
    if a == [] {
      assert a + b == b;
    } else {
      VarianceGrows(a[1..], b);
      VarianceStep(a + b);
      assert (a + b)[1..] == a[1..] + b;
    }
  }

  lemma {:induction false} SumOfEqual(s: seq<nat>, x: nat)
    requires forall i :: 0 <= i < |s| ==> s[i] == x
    ensures Sum(s) == |s| * x && SumSq(s) == |s| * (x * x)
  {
    if s != [] {
      SumOfEqual(s[1..], x);
      Distribute(x, |s| - 1, 1);
      Distribute(x * x, |s| - 1, 1);
    }
  }

  lemma {:induction false} SumSqConcat(a: seq<nat>, b: seq<nat>)
    ensures SumSq(a + b) == SumSq(a) + SumSq(b)
  {
    if a == [] {
      assert a + b == b;
    } else {
      SumSqConcat(a[1..], b);
      assert (a + b)[1..] == a[1..] + b;
    }
  }

  // ----- sorting -----

  ghost predicate Ordered(s: seq<int>) {
    forall k, m :: 0 <= k < m < |s| ==> s[k] <= s[m]
  }

  /** Stands for the sorter, of which only an ordered permutation is asked. */
  function Sorted(s: seq<int>): (r: seq<int>)
    ensures multiset(r) == multiset(s) && Ordered(r)
  {
    if s == [] then []
    else
      assert s == [s[0]] + s[1..];
      Inserted(Sorted(s[1..]), s[0])
  }

  function Inserted(s: seq<int>, x: int): (r: seq<int>)
    requires Ordered(s)
    ensures multiset(r) == multiset(s) + multiset{x} && Ordered(r)
  {
    if s == [] then [x]
    else if x <= s[0] then [x] + s
    else
      var r := Inserted(s[1..], x);
      InFront(s, x, r);
      [s[0]] + r
  }

  lemma InFront(s: seq<int>, x: int, r: seq<int>)
    requires s != [] && Ordered(s) && x > s[0] && Ordered(r) && multiset(r) == multiset(s[1..]) + multiset{x}
    ensures Ordered([s[0]] + r) && multiset([s[0]] + r) == multiset(s) + multiset{x}
  {
    assert s == [s[0]] + s[1..];
    forall k | 0 <= k < |r| ensures s[0] <= r[k] {
      assert r[k] in multiset(r);
      assert r[k] == x || r[k] in s[1..];
    }
  }
}
