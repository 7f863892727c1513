/**
 What the binomial-heap invariant means: sizes of trees, the traversal of all nodes with
 a fixed stack, and sorting by filling and draining a heap.
 */
module BinHeapShape {
  import opened BinHeap
  import opened Powers

  /** All trees of the list have orders below `bound`. */
  ghost predicate Below(f: Forest, l: seq<Node>, bound: nat) {
    forall i :: 0 <= i < |l| ==> l[i] in f.kids && Order(f, l[i]) < bound
  }

  lemma SonsBelow(less: (Key, Key) -> bool, f: Forest, x: Node)
    requires Binomial(less, f) && x in f.kids
    ensures Below(f, f.kids[x], Order(f, x))
    ensures forall i :: 0 <= i < |f.kids[x]| ==> Order(f, f.kids[x][i]) == i
  {
    assert forall i :: 0 <= i < |f.kids[x]| ==> IsSon(less, f, x, i, f.kids[x][i]);
  }

  /** The nodes of the tree of x in preorder. */
  ghost function Tree(less: (Key, Key) -> bool, f: Forest, x: Node): seq<Node>
    requires Binomial(less, f) && x in f.kids
    decreases Order(f, x), 1, 0
  {
    SonsBelow(less, f, x);
    [x] + Trees(less, f, f.kids[x], Order(f, x))
  }

  /** The nodes of a list of trees, one tree after another. */
  ghost function Trees(less: (Key, Key) -> bool, f: Forest, l: seq<Node>, bound: nat): seq<Node>
    requires Binomial(less, f) && Below(f, l, bound)
    decreases bound, 0, |l|
  {
    if l == [] then [] else Tree(less, f, l[0]) + Trees(less, f, l[1..], bound)
  }

  lemma {:induction false} BoundIrrelevant(less: (Key, Key) -> bool, f: Forest, l: seq<Node>, b: nat, c: nat)
    requires Binomial(less, f) && Below(f, l, b) && Below(f, l, c)
    ensures Trees(less, f, l, b) == Trees(less, f, l, c)
  {
    if l != [] {
      BoundIrrelevant(less, f, l[1..], b, c);
    }
  }

  // ----- sizes -----

  ghost function Weight(f: Forest, l: seq<Node>): nat
    requires forall i :: 0 <= i < |l| ==> l[i] in f.kids
  {
    if l == [] then 0 else Pow2(Order(f, l[0])) + Weight(f, l[1..])
  }

  /** Trees of orders i..k-1 have 2^k - 2^i nodes together. */
  lemma {:induction false} ConsecutiveWeight(f: Forest, l: seq<Node>, i: nat, k: nat)
    requires |l| == k - i && i <= k
    requires forall j :: 0 <= j < |l| ==> l[j] in f.kids && Order(f, l[j]) == i + j
    ensures Weight(f, l) == Pow2(k) - Pow2(i)
  {
    if l != [] {
      ConsecutiveWeight(f, l[1..], i + 1, k);
    }
  }

  /** A tree of order k has exactly 2^k nodes. */
  lemma {:induction false} TreeSize(less: (Key, Key) -> bool, f: Forest, x: Node)
    requires Binomial(less, f) && x in f.kids
    ensures |Tree(less, f, x)| == Pow2(Order(f, x))
    decreases Order(f, x), 1, 0
  {
    SonsBelow(less, f, x);
    TreesSize(less, f, f.kids[x], Order(f, x));
    ConsecutiveWeight(f, f.kids[x], 0, Order(f, x));
  }

  lemma {:induction false} TreesSize(less: (Key, Key) -> bool, f: Forest, l: seq<Node>, bound: nat)
    requires Binomial(less, f) && Below(f, l, bound)
    ensures |Trees(less, f, l, bound)| == Weight(f, l)
    decreases bound, 0, |l|
  {
    if l != [] {
      TreeSize(less, f, l[0]);
      TreesSize(less, f, l[1..], bound);
    }
  }

  // ----- every node is in exactly one place -----

  /** A node of a tree is its root, or its parent is in the tree as well. */
  lemma {:induction false} InTree(less: (Key, Key) -> bool, f: Forest, x: Node, y: Node)
    requires Binomial(less, f) && x in f.kids && y in Tree(less, f, x)
    ensures y in f.kids && Order(f, y) <= Order(f, x)
    ensures y == x || (Order(f, y) < Order(f, x) && y in f.up && f.up[y] in Tree(less, f, x))
    decreases Order(f, x), 1, 0
  {
    if y != x {
      SonsBelow(less, f, x);
      var c := InTrees(less, f, f.kids[x], Order(f, x), y);
      InTree(less, f, c, y);
      var i :| 0 <= i < |f.kids[x]| && f.kids[x][i] == c;
      assert IsSon(less, f, x, i, c);
      if y != c {
        TreeOfMember(less, f, f.kids[x], Order(f, x), c, f.up[y]);
      }
    }
  }

  lemma {:induction false} InTrees(less: (Key, Key) -> bool, f: Forest, l: seq<Node>, bound: nat, y: Node)
    returns (c: Node)
    requires Binomial(less, f) && Below(f, l, bound) && y in Trees(less, f, l, bound)
    ensures c in l && c in f.kids && y in Tree(less, f, c) && Order(f, c) < bound
    decreases bound, 0, |l|
  {
    if y in Tree(less, f, l[0]) {
      c := l[0];
    } else {
      c := InTrees(less, f, l[1..], bound, y);
    }
  }

  lemma {:induction false} TreeOfMember(less: (Key, Key) -> bool, f: Forest, l: seq<Node>, bound: nat, c: Node, y: Node)
    requires Binomial(less, f) && Below(f, l, bound) && c in l && c in f.kids && y in Tree(less, f, c)
    ensures y in Trees(less, f, l, bound)
  {
    if c != l[0] {
      TreeOfMember(less, f, l[1..], bound, c, y);
    }
  }

  /** Trees of two roots, or of two sons of one node, share no node. */
  lemma {:induction false} TreesDisjoint(less: (Key, Key) -> bool, f: Forest, x: Node, z: Node, y: Node)
    requires Binomial(less, f) && x in f.kids && z in f.kids && x != z
    requires (x !in f.up && z !in f.up) || (x in f.up && z in f.up && f.up[x] == f.up[z])
    ensures !(y in Tree(less, f, x) && y in Tree(less, f, z))
    decreases set m | m in f.kids && y in f.kids && Order(f, m) > Order(f, y)
  {
    if y in Tree(less, f, x) && y in Tree(less, f, z) {
      InTree(less, f, x, y);
      InTree(less, f, z, y);
      if y == x {
        InTree(less, f, z, f.up[x]);
      } else if y == z {
        InTree(less, f, x, f.up[z]);
      } else {
        var above := set m | m in f.kids && f.up[y] in f.kids && Order(f, m) > Order(f, f.up[y]);
        assert f.up[y] !in above;
        assert f.up[y] in set m | m in f.kids && y in f.kids && Order(f, m) > Order(f, y);
        TreesDisjoint(less, f, x, z, f.up[y]);
      }
    }
  }

  ghost predicate Distinct(l: seq<Node>) {
    forall i, j :: 0 <= i < j < |l| ==> l[i] != l[j]
  }

  lemma DistinctAppend(l: seq<Node>, m: seq<Node>)
    requires Distinct(l) && Distinct(m) && forall x :: x in l ==> x !in m
    ensures Distinct(l + m)
  {
    forall i, j | 0 <= i < j < |l + m|
      ensures (l + m)[i] != (l + m)[j]
    {
      if i < |l| <= j {
        assert l[i] in l && (l + m)[j] == m[j - |l|];
      }
    }
  }

  /** Either all nodes of the list are roots, or all are sons of one node. */
  ghost predicate Siblings(f: Forest, l: seq<Node>) {
    forall i, j :: 0 <= i < |l| && 0 <= j < |l| ==>
      (l[i] !in f.up && l[j] !in f.up) || (l[i] in f.up && l[j] in f.up && f.up[l[i]] == f.up[l[j]])
  }

  lemma {:induction false} TreeDistinct(less: (Key, Key) -> bool, f: Forest, x: Node)
    requires Binomial(less, f) && x in f.kids
    ensures Distinct(Tree(less, f, x))
    decreases Order(f, x), 1, 0
  {
    SonsBelow(less, f, x);
    var l := f.kids[x];
    assert forall i :: 0 <= i < |l| ==> IsSon(less, f, x, i, l[i]);
    assert Distinct(l) && Siblings(f, l);
    var s := Trees(less, f, l, Order(f, x));
    TreesDistinct(less, f, l, Order(f, x));
    if x in s {
      var c := InTrees(less, f, l, Order(f, x), x);
      InTree(less, f, c, x);
    }
    DistinctAppend([x], s);
  }

  lemma {:induction false} TreesDistinct(less: (Key, Key) -> bool, f: Forest, l: seq<Node>, bound: nat)
    requires Binomial(less, f) && Below(f, l, bound) && Distinct(l) && Siblings(f, l)
    ensures Distinct(Trees(less, f, l, bound))
    decreases bound, 0, |l|
  {
    if l != [] {
      TreeDistinct(less, f, l[0]);
      TreesDistinct(less, f, l[1..], bound);
      forall y | y in Tree(less, f, l[0])
        ensures y !in Trees(less, f, l[1..], bound)
      {
        if y in Trees(less, f, l[1..], bound) {
          var c := InTrees(less, f, l[1..], bound, y);
          TreesDisjoint(less, f, l[0], c, y);
        }
      }
      DistinctAppend(Tree(less, f, l[0]), Trees(less, f, l[1..], bound));
    }
  }

  /** A tree contains the sons of its nodes. */
  lemma {:induction false} SonInTree(less: (Key, Key) -> bool, f: Forest, x: Node, z: Node, c: Node)
    requires Binomial(less, f) && x in f.kids && z in Tree(less, f, x) && z in f.kids && c in f.kids[z]
    ensures c in Tree(less, f, x)
    decreases Order(f, x)
  {
    SonsBelow(less, f, x);
    if z == x {
      var i :| 0 <= i < |f.kids[x]| && f.kids[x][i] == c;
      assert c == Tree(less, f, c)[0];
      TreeOfMember(less, f, f.kids[x], Order(f, x), c, c);
    } else {
      var d := InTrees(less, f, f.kids[x], Order(f, x), z);
      SonInTree(less, f, d, z, c);
      TreeOfMember(less, f, f.kids[x], Order(f, x), d, c);
    }
  }

  lemma {:induction false} TreeAbove(less: (Key, Key) -> bool, f: Forest, y: Node) returns (r: Node)
    requires Binomial(less, f) && y in f.kids
    ensures r in Roots(f) && y in Tree(less, f, r)
    decreases set m | m in f.kids && Order(f, m) > Order(f, y)
  {
    if y in f.up {
      var above := set m | m in f.kids && Order(f, m) > Order(f, f.up[y]);
      assert f.up[y] !in above;
      r := TreeAbove(less, f, f.up[y]);
      SonInTree(less, f, r, f.up[y], y);
    } else {
      r := y;
      assert y == Tree(less, f, y)[0];
    }
  }

  /** The forest of a heap, its trees in the order of the root list. */
  ghost function AllNodes(less: (Key, Key) -> bool, f: Forest, list: seq<Node>, bound: nat): seq<Node>
    requires Lists(f, [], list, []).Valid(less) && Below(f, list, bound)
  {
    Trees(less, f, list, bound)
  }

  /** Every node of a heap occurs exactly once in the trees of its roots. */
  lemma EveryNodeOnce(less: (Key, Key) -> bool, f: Forest, list: seq<Node>, bound: nat)
    requires Lists(f, [], list, []).Valid(less) && Below(f, list, bound)
    ensures Distinct(AllNodes(less, f, list, bound))
    ensures forall y :: y in AllNodes(less, f, list, bound) <==> y in f.kids
  {
    assert forall i :: 0 <= i < |list| ==> list[i] in Roots(f);
    assert Siblings(f, list) && Distinct(list);
    TreesDistinct(less, f, list, bound);
    forall y | y in f.kids
      ensures y in Trees(less, f, list, bound)
    {
      var r := TreeAbove(less, f, y);
      assert r in list;
      TreeOfMember(less, f, list, bound, r, y);
    }
    forall y | y in Trees(less, f, list, bound)
      ensures y in f.kids
    {
      var c := InTrees(less, f, list, bound, y);
      InTree(less, f, c, y);
    }
  }

  lemma {:induction false} DistinctCardinality(l: seq<Node>, s: set<Node>)
    requires Distinct(l) && forall x :: x in l <==> x in s
    ensures |l| == |s|
  {
    if l == [] {
      assert s == {};
    } else {
      var m := l[1..];
      assert forall x :: x in m <==> x in s - {l[0]};
      DistinctCardinality(m, s - {l[0]});
    }
  }

  /** Some bound on the orders of a list exists. */
  lemma {:induction false} BoundExists(f: Forest, l: seq<Node>) returns (bound: nat)
    requires forall i :: 0 <= i < |l| ==> l[i] in f.kids
    ensures Below(f, l, bound)
  {
    if l == [] {
      bound := 0;
    } else {
      bound := BoundExists(f, l[1..]);
      bound := if Order(f, l[0]) < bound then bound else Order(f, l[0]) + 1;
      forall i | 0 <= i < |l| ensures Order(f, l[i]) < bound { assert i > 0 ==> l[i] == l[1..][i - 1]; }
    }
  }

  lemma {:induction false} WeightOfMember(f: Forest, l: seq<Node>, i: nat)
    requires forall j :: 0 <= j < |l| ==> l[j] in f.kids
    requires i < |l|
    ensures Pow2(Order(f, l[i])) <= Weight(f, l)
  {
    if i > 0 {
      WeightOfMember(f, l[1..], i - 1);
    }
  }

  /** The number of nodes is the sum of 2^order over the roots, all orders being different. */
  lemma HeapSize(less: (Key, Key) -> bool, f: Forest, list: seq<Node>)
    requires Lists(f, [], list, []).Valid(less)
    ensures |f.kids.Keys| == Weight(f, list)
    ensures forall i :: 0 <= i < |list| ==> Pow2(Order(f, list[i])) <= |f.kids.Keys|
  {
    var bound := BoundExists(f, list);
    EveryNodeOnce(less, f, list, bound);
    DistinctCardinality(AllNodes(less, f, list, bound), f.kids.Keys);
    TreesSize(less, f, list, bound);
    forall i | 0 <= i < |list|
      ensures Pow2(Order(f, list[i])) <= |f.kids.Keys|
    {
      WeightOfMember(f, list, i);
    }
  }

  // ----- the traversal with an explicit stack -----

  const STACK_SIZE := 32

  /** What the stack entries, from bottom to top, stand for: suffixes of sibling lists. Entry
      number j only holds trees of orders at most 31 - j. */
  ghost predicate Pending(f: Forest, stk: seq<seq<Node>>)
    reads f.kids.Keys
  {
    && |stk| <= STACK_SIZE
    && (forall j :: 0 <= j < |stk| ==> Suffix(f, stk[j], STACK_SIZE - j))
  }

  ghost predicate Suffix(f: Forest, l: seq<Node>, bound: int)
    reads f.kids.Keys
  {
    l != [] && 0 <= bound && Below(f, l, bound) && Segment(l, null)
  }

  /** The nodes still to be visited. */
  ghost function Remaining(less: (Key, Key) -> bool, f: Forest, stk: seq<seq<Node>>): seq<Node>
    requires Binomial(less, f) && Fits(f, stk)
    decreases |stk|
  {
    if stk == [] then []
    else
      var top := |stk| - 1;
      Trees(less, f, stk[top], STACK_SIZE - top) + Remaining(less, f, stk[..top])
  }

  /** A list is pushed unless it is empty. */
  ghost function Pushed(stk: seq<seq<Node>>, l: seq<Node>): seq<seq<Node>> {
    if l == [] then stk else stk + [l]
  }

  /** One visit: the first node of the top list is replaced by its siblings and, above them, its sons. */
  ghost function Visited(f: Forest, stk: seq<seq<Node>>): seq<seq<Node>>
    requires stk != [] && stk[|stk| - 1] != [] && stk[|stk| - 1][0] in f.kids
  {
    var l := stk[|stk| - 1];
    Pushed(Pushed(stk[..|stk| - 1], l[1..]), f.kids[l[0]])
  }

  lemma VisitPending(less: (Key, Key) -> bool, f: Forest, stk: seq<seq<Node>>)
    requires Binomial(less, f) && Linked(f) && Pending(f, stk) && stk != []
    ensures Fits(f, stk) && stk[|stk| - 1] != [] && stk[|stk| - 1][0] in f.kids
    ensures Pending(f, Visited(f, stk)) && Fits(f, Visited(f, stk))
    ensures forall j :: 0 <= j < |Visited(f, stk)| ==> Visited(f, stk)[j] != []
    ensures var l := stk[|stk| - 1];
            l[0].nextSibling == Head(l[1..], null) && l[0].firstSon == Head(f.kids[l[0]], null)
  {
    var j := |stk| - 1;
    var l := stk[j];
    assert Suffix(f, l, STACK_SIZE - j);
    SegmentTail(l, null);
    assert Below(f, l[1..], STACK_SIZE - j);
    assert NodeLinked(f, l[0]);
    SonsBelow(less, f, l[0]);
    assert Below(f, f.kids[l[0]], Order(f, l[0]));
    assert f.kids[l[0]] != [] ==> Suffix(f, f.kids[l[0]], STACK_SIZE - j - 1);
    assert |l| > 1 ==> Suffix(f, l[1..], STACK_SIZE - j);
    assert f.kids[l[0]] != [] ==> Order(f, l[0]) > 0;
  }

  ghost predicate Fits(f: Forest, stk: seq<seq<Node>>) {
    |stk| <= STACK_SIZE && forall j :: 0 <= j < |stk| ==> Below(f, stk[j], STACK_SIZE - j)
  }

  lemma RemainingPush(less: (Key, Key) -> bool, f: Forest, stk: seq<seq<Node>>, l: seq<Node>, bound: nat)
    requires Binomial(less, f) && Fits(f, Pushed(stk, l)) && Below(f, l, bound)
    ensures Fits(f, stk)
    ensures Remaining(less, f, Pushed(stk, l)) == Trees(less, f, l, bound) + Remaining(less, f, stk)
  {
    if l != [] {
      assert (stk + [l])[..|stk|] == stk && (stk + [l])[|stk|] == l;
      assert forall j :: 0 <= j < |stk| ==> (stk + [l])[j] == stk[j];
      BoundIrrelevant(less, f, l, STACK_SIZE - |stk|, bound);
    }
  }

  lemma TreesUnfold(less: (Key, Key) -> bool, f: Forest, l: seq<Node>, bound: nat)
    requires Binomial(less, f) && Below(f, l, bound) && l != []
    ensures Below(f, l[1..], bound) && Below(f, f.kids[l[0]], Order(f, l[0]))
    ensures Trees(less, f, l, bound) ==
            [l[0]] + (Trees(less, f, f.kids[l[0]], Order(f, l[0])) + Trees(less, f, l[1..], bound))
  {
    SonsBelow(less, f, l[0]);
  }

  lemma VisitRemaining(less: (Key, Key) -> bool, f: Forest, stk: seq<seq<Node>>)
    requires Binomial(less, f) && Fits(f, stk) && stk != [] && stk[|stk| - 1] != []
    requires stk[|stk| - 1][0] in f.kids && Fits(f, Visited(f, stk))
    ensures Remaining(less, f, stk) == [stk[|stk| - 1][0]] + Remaining(less, f, Visited(f, stk))
  {
    hide Binomial, IsSon, Remaining, Trees, Tree;
    var j := |stk| - 1;
    var l, below := stk[j], stk[..j];
    var sons, mid := f.kids[l[0]], Pushed(below, l[1..]);
    TreesUnfold(less, f, l, STACK_SIZE - j);
    assert stk == Pushed(below, l);
    RemainingPush(less, f, below, l, STACK_SIZE - j);
    RemainingPush(less, f, mid, sons, Order(f, l[0]));
    RemainingPush(less, f, below, l[1..], STACK_SIZE - j);
    hide Below, Fits, Pushed;
    var ts, tr := Trees(less, f, sons, Order(f, l[0])), Trees(less, f, l[1..], STACK_SIZE - j);
    var rb := Remaining(less, f, below);
    assert ([l[0]] + (ts + tr)) + rb == [l[0]] + (ts + (tr + rb));
  }

  lemma FirstRemaining(less: (Key, Key) -> bool, f: Forest, list: seq<Node>)
    requires Binomial(less, f) && Below(f, list, STACK_SIZE)
    ensures Fits(f, Pushed([], list)) && Remaining(less, f, Pushed([], list)) == Trees(less, f, list, STACK_SIZE)
  {
    assert forall j :: 0 <= j < |Pushed([], list)| ==> Pushed([], list)[j] == list;
    hide Below, Trees, Binomial;
    RemainingPush(less, f, [], list, STACK_SIZE);
    assert Remaining(less, f, []) == [];
  }

  /** The loop body: pop a node, push its next sibling and its first son. */
  method Visit(stack: array<Node?>, top: nat, ghost f: Forest, ghost stk: seq<seq<Node>>)
    returns (x: Node, sp: nat)
    requires stk != [] && stk[|stk| - 1] != [] && stk[|stk| - 1][0] in f.kids && |stk| <= stack.Length == 32
    requires |Visited(f, stk)| <= 32
    requires var l := stk[|stk| - 1];
             l[0].nextSibling == Head(l[1..], null) && l[0].firstSon == Head(f.kids[l[0]], null)
    requires top == |stk| && forall j :: 0 <= j < top ==> stk[j] != [] && stack[j] == stk[j][0]
    modifies stack
    ensures x == stk[|stk| - 1][0] && sp == |Visited(f, stk)|
    ensures forall j :: 0 <= j < sp ==> Visited(f, stk)[j] != [] && stack[j] == Visited(f, stk)[j][0]
  {
    sp := top - 1;
    x := stack[sp];
    if x.nextSibling != null {
      stack[sp] := x.nextSibling;
      sp := sp + 1;
    }
    if x.firstSon != null {
      stack[sp] := x.firstSon;
      sp := sp + 1;
    }
  }

  lemma TraversalStart(h: Heap) returns (all: seq<Node>)
    requires h.Valid() && |h.Nodes()| < 0x1_0000_0000
    ensures Binomial(h.less, h.f) && Linked(h.f)
    ensures h.root.firstSon == Head(h.list, null)
    ensures Pending(h.f, Pushed([], h.list)) && Fits(h.f, Pushed([], h.list))
    ensures Remaining(h.less, h.f, Pushed([], h.list)) == all
    ensures Distinct(all) && forall n :: n in all <==> n in h.Nodes()
  {
    var less, f, list := h.less, h.f, h.list;
    OrdersBelow32(less, f, list);
    EveryNodeOnce(less, f, list, STACK_SIZE);
    all := AllNodes(less, f, list, STACK_SIZE);
    FirstRemaining(less, f, list);
    assert list != [] ==> Suffix(f, list, STACK_SIZE);
  }

  lemma NothingRemains(less: (Key, Key) -> bool, f: Forest, stk: seq<seq<Node>>)
    requires Binomial(less, f) && Fits(f, stk) && stk == []
    ensures Remaining(less, f, stk) == []
  {
  }

  /** The loop over the stack, started with the first root. */
  method Walk(first: Node?, ghost less: (Key, Key) -> bool, ghost f: Forest, ghost start: seq<seq<Node>>)
    returns (visited: seq<Node>)
    requires Binomial(less, f) && Linked(f) && Pending(f, start) && Fits(f, start)
    requires if first == null then start == [] else |start| == 1 && start[0] != [] && start[0][0] == first
    ensures visited == Remaining(less, f, start)
  {
    hide Binomial, Linked, Segment, Fits, Trees, Tree, Remaining, Suffix, Below, Visited;
    ghost var stk := start;
    var stack := new Node?[STACK_SIZE];
    var sp := 0;
    visited := [];
    stack[0] := first;
    if stack[0] != null {
      sp := 1;
    }
    while sp > 0
      invariant sp == |stk| && Pending(f, stk) && Fits(f, stk)
      invariant forall j :: 0 <= j < sp ==> stk[j] != [] && stack[j] == stk[j][0]
      invariant visited + Remaining(less, f, stk) == Remaining(less, f, start)
      decreases |Remaining(less, f, stk)|
    {
      VisitPending(less, f, stk);
      VisitRemaining(less, f, stk);
      var x;
      x, sp := Visit(stack, sp, f, stk);
      visited := visited + [x];
      stk := Visited(f, stk);
    }
    NothingRemains(less, f, stk);
  }

  /** Visits every node exactly once, in preorder; 32 stack entries are enough for fewer than
      2^32 nodes. */
  method ForAll(h: Heap) returns (visited: seq<Node>)
    requires h.Valid() && |h.Nodes()| < 0x1_0000_0000
    ensures Distinct(visited)
    ensures forall n :: n in visited <==> n in h.Nodes()
  {
    ghost var all := TraversalStart(h);
    hide Heap.Valid, Binomial, Linked, Fits, Remaining, Pending;
    visited := Walk(h.root.firstSon, h.less, h.f, Pushed([], h.list));
  }

  lemma OrdersBelow32(less: (Key, Key) -> bool, f: Forest, list: seq<Node>)
    requires Lists(f, [], list, []).Valid(less) && |f.kids.Keys| < 0x1_0000_0000
    ensures Below(f, list, 32)
  {
    hide Binomial, Lists.Covers;
    HeapSize(less, f, list);
    Pow2Of32();
    forall i | 0 <= i < |list|
      ensures Order(f, list[i]) < 32
    {
      if Order(f, list[i]) >= 32 {
        Pow2Monotonic(32, Order(f, list[i]));
      }
    }
  }

  // ----- filling and draining -----

  method Fill(less: (Key, Key) -> bool, input: seq<Node>) returns (h: Heap)
    requires StrictWeakOrder(less) && Distinct(input)
    modifies input
    ensures h.Valid() && h.less == less && fresh(h) && fresh(h.root)
    ensures h.Nodes() == set n | n in input
  {
    hide Heap.Valid, StrictWeakOrder;
    h := new Heap(less);
    for k := 0 to |input|
      invariant h.Valid() && h.less == less && fresh(h) && fresh(h.root)
      invariant h.Nodes() == set n | n in input[..k]
    {
      assert input[k] !in input[..k];
      h.Insert(input[k]);
      assert input[..k + 1] == input[..k] + [input[k]];
    }
    assert input[..|input|] == input;
  }

  /** Keys never decrease along the list. */
  ghost predicate Ascending(less: (Key, Key) -> bool, l: seq<Node>) {
    forall i, j :: 0 <= i < j < |l| ==> !less(l[j].key, l[i].key)
  }

  /** `output` and then p have been taken from `all`, in order, and `rest` is left. */
  ghost predicate Drained(less: (Key, Key) -> bool, all: set<Node>, output: seq<Node>, p: Node?, rest: set<Node>) {
    && Distinct(output) && Ascending(less, output)
    && (forall n :: n in all ==> n in output || n == p || n in rest)
    && (forall n :: n in output ==> n in all) && (p != null ==> p in all) && rest <= all
    && (forall n :: n in output ==> n != p && n !in rest)
    && p !in rest
    && (forall i, n :: 0 <= i < |output| && n in rest ==> !less(n.key, output[i].key))
    && (p != null ==> forall i :: 0 <= i < |output| ==> !less(p.key, output[i].key))
    && (p == null ==> rest == {})
    && (p != null ==> forall n :: n in rest ==> !less(n.key, p.key))
  }

  lemma DrainStart(less: (Key, Key) -> bool, all: set<Node>, p: Node?, rest: set<Node>)
    requires if p == null then all == {} == rest else p in all && rest == all - {p}
    requires p != null ==> forall n :: n in all ==> !less(n.key, p.key)
    ensures Drained(less, all, [], p, rest)
  {
  }

  lemma DrainStep(less: (Key, Key) -> bool, all: set<Node>, output: seq<Node>, p: Node, rest: set<Node>,
                  q: Node?, rest': set<Node>)
    requires Drained(less, all, output, p, rest)
    requires if q == null then rest == {} == rest' else q in rest && rest' == rest - {q}
    requires q != null ==> forall n :: n in rest ==> !less(n.key, q.key)
    ensures Drained(less, all, output + [p], q, rest')
  {
    var out := output + [p];
    assert forall n :: n in out <==> n in output || n == p;
  }

  method Drain(h: Heap) returns (output: seq<Node>)
    requires h.Valid()
    modifies h, h.root, h.Nodes()
    ensures Distinct(output) && Ascending(h.less, output)
    ensures forall n :: n in output <==> n in old(h.Nodes())
  {
    hide Heap.Valid, Drained;
    ghost var less, all := h.less, h.Nodes();
    output := [];
    var p := h.DeleteMin();
    DrainStart(less, all, p, h.Nodes());
    while p != null
      invariant h.Valid() && h.Nodes() <= all
      invariant Drained(less, all, output, p, h.Nodes())
      decreases |h.Nodes()|, p != null
    {
      ghost var rest := h.Nodes();
      var q := h.DeleteMin();
      DrainStep(less, all, output, p, rest, q, h.Nodes());
      output := output + [p];
      p := q;
    }
    AllDrained(less, all, output, h.Nodes());
  }

  lemma AllDrained(less: (Key, Key) -> bool, all: set<Node>, output: seq<Node>, rest: set<Node>)
    requires Drained(less, all, output, null, rest)
    ensures Distinct(output) && Ascending(less, output) && forall n :: n in output <==> n in all
  {
  }

  /** Inserting nodes and removing least ones until none is left sorts them. */
  method Sort(less: (Key, Key) -> bool, input: seq<Node>) returns (output: seq<Node>)
    requires StrictWeakOrder(less) && Distinct(input)
    modifies input
    ensures multiset(output) == multiset(input)
    ensures Ascending(less, output)
  {
    hide Heap.Valid;
    var h := Fill(less, input);
    output := Drain(h);
    SameElements(output, input);
  }

  lemma {:induction false} SameElements(l: seq<Node>, m: seq<Node>)
    requires Distinct(l) && Distinct(m) && forall x :: x in l <==> x in m
    ensures multiset(l) == multiset(m)
  {
    forall x
      ensures multiset(l)[x] == multiset(m)[x]
    {
      DistinctOnce(l, x);
      DistinctOnce(m, x);
    }
  }

  lemma {:induction false} DistinctOnce(l: seq<Node>, x: Node)
    requires Distinct(l)
    ensures multiset(l)[x] == if x in l then 1 else 0
  {
    if l != [] {
      assert l == [l[0]] + l[1..];
      DistinctOnce(l[1..], x);
    }
  }
}
