/**
 Binomial heaps: nodes linked by firstSon / lastSon / nextSibling, a destructive
 merge of two sibling lists sorted by order, and the operations built on it.

 The pointer structure is described by a ghost value, a Forest: `kids` lists the sons of
 every node in sibling order and `up` gives the parent of every node that is not a root.
 Everything about shape, size, heap order and traversal order is proved about that value;
 Linked ties it to the fields of the nodes.
 */
module BinHeap {

  type Key(0, !new)


  class Node {
    const key: Key
    var firstSon: Node?
    var lastSon: Node?
    var nextSibling: Node?
    var order: nat

    constructor (key: Key)
      ensures this.key == key
    {
      this.key := key;
      firstSon, lastSon, nextSibling, order := null, null, null, 0;
    }

    /** A list header; its key plays no role. */
    constructor Header()
      ensures firstSon == null
    {
      var k: Key := *;
      key := k;
      firstSon, lastSon, nextSibling, order := null, null, null, 0;
    }
  }

  /** `less` is a strict weak order. */
  ghost predicate StrictWeakOrder(less: (Key, Key) -> bool) {
    && (forall x :: !less(x, x))
    && (forall x, y, z :: less(x, y) && less(y, z) ==> less(x, z))
    && (forall x, y, z :: !less(x, y) && !less(y, z) ==> !less(x, z))
  }

  lemma Asymmetric(less: (Key, Key) -> bool, x: Key, y: Key)
    requires StrictWeakOrder(less) && less(x, y)
    ensures !less(y, x)
  {
    assert less(x, y) && less(y, x) ==> less(x, x);
  }

  datatype Forest = Forest(kids: map<Node, seq<Node>>, up: map<Node, Node>)

  ghost function Roots(f: Forest): set<Node> {
    f.kids.Keys - f.up.Keys
  }

  /** The order of a node is the number of its sons. */
  ghost function Order(f: Forest, n: Node): nat
    requires n in f.kids
  {
    |f.kids[n]|
  }

  /** Sons of a node of order k have orders 0..k-1 and are not less than it;
      `up` is exactly the inverse of `kids`. */
  ghost predicate Binomial(less: (Key, Key) -> bool, f: Forest) {
    && (forall n, i :: n in f.kids && 0 <= i < |f.kids[n]| ==> IsSon(less, f, n, i, f.kids[n][i]))
    && (forall c :: c in f.up ==>
          c in f.kids && f.up[c] in f.kids && Order(f, c) < Order(f, f.up[c]) && f.kids[f.up[c]][Order(f, c)] == c)
  }

  ghost predicate IsSon(less: (Key, Key) -> bool, f: Forest, n: Node, i: nat, c: Node) {
    c in f.kids && Order(f, c) == i && !less(c.key, n.key) && c in f.up && f.up[c] == n
  }

  /** A list of nodes of strictly increasing orders. */
  ghost predicate Increasing(f: Forest, l: seq<Node>) {
    && (forall i :: 0 <= i < |l| ==> l[i] in f.kids)
    && (forall i, j :: 0 <= i < j < |l| ==> Order(f, l[i]) < Order(f, l[j]))
  }

  function Head(l: seq<Node>, end: Node?): Node? {
    if l == [] then end else l[0]
  }

  /** The nodes of `l` are chained by nextSibling and the last one points to `end`. */
  ghost predicate Segment(l: seq<Node>, end: Node?)
    reads l
  {
    forall i {:trigger l[i].nextSibling} :: 0 <= i < |l| ==>
      l[i].nextSibling == if i + 1 < |l| then l[i + 1] else end
  }

  /** Orders and son lists of all nodes are what the forest says. */
  ghost predicate Linked(f: Forest)
    reads f.kids.Keys
  {
    && (forall n, i :: n in f.kids && 0 <= i < |f.kids[n]| ==> f.kids[n][i] in f.kids)
    && (forall n {:trigger NodeLinked(f, n)} :: n in f.kids ==> NodeLinked(f, n))
  }

  ghost predicate NodeLinked(f: Forest, n: Node)
    requires n in f.kids
    reads n, f.kids[n]
  {
    && n.order == Order(f, n)
    && n.firstSon == Head(f.kids[n], null)
    && n.lastSon == (if f.kids[n] == [] then null else f.kids[n][|f.kids[n]| - 1])
    && Segment(f.kids[n], null)
  }

  lemma FieldOrders(f: Forest)
    requires Linked(f)
    ensures forall n :: n in f.kids ==> n.order == Order(f, n)
  {
    assert forall n :: n in f.kids ==> NodeLinked(f, n);
  }

  // ----- the carry step -----

  ghost function Hang(f: Forest, s: Node, r: Node): Forest
    requires s in f.kids
  {
    Forest(f.kids[s := f.kids[s] + [r]], f.up[r := s])
  }

  lemma HangBinomial(less: (Key, Key) -> bool, f: Forest, s: Node, r: Node)
    requires Binomial(less, f)
    requires s in Roots(f) && r in Roots(f) && s != r && Order(f, s) == Order(f, r)
    requires !less(r.key, s.key)
    ensures Binomial(less, Hang(f, s, r))
    ensures Roots(Hang(f, s, r)) == Roots(f) - {r}
  {
    var g := Hang(f, s, r);
    forall n, i | n in g.kids && 0 <= i < |g.kids[n]|
      ensures IsSon(less, g, n, i, g.kids[n][i])
    {
      if n != s || i < |f.kids[s]| {
        assert g.kids[n][i] == f.kids[n][i];
      }
    }
  }

  /** One carry: the tree r is to become the last son of the tree s of the same order. */
  datatype Carry = Carry(less: (Key, Key) -> bool, f: Forest, s: Node, r: Node) {
    ghost predicate Valid() {
      && Binomial(less, f)
      && s in Roots(f) && r in Roots(f) && s != r && Order(f, s) == Order(f, r)
      && !less(r.key, s.key)
    }
  }

  /** What a carry changes in the node fields, and what it leaves alone. */
  twostate predicate Hung(c: Carry)
    requires c.Valid()
    reads c.f.kids.Keys
  {
    && c.s.order == old(c.s.order) + 1
    && c.s.firstSon == (if c.f.kids[c.s] == [] then c.r else old(c.s.firstSon))
    && c.s.lastSon == c.r
    && c.r.nextSibling == null
    && (old(c.s.lastSon) in c.f.kids ==> old(c.s.lastSon).nextSibling == c.r)
    && (forall x :: x in c.f.kids && x != c.s ==>
          x.order == old(x.order) && x.firstSon == old(x.firstSon) && x.lastSon == old(x.lastSon))
    && (forall x :: x in c.f.kids && x != c.r && x != old(c.s.lastSon) ==> x.nextSibling == old(x.nextSibling))
  }

  twostate lemma HungParent(c: Carry)
    requires c.Valid() && old(Linked(c.f)) && Hung(c)
    ensures NodeLinked(Hang(c.f, c.s, c.r), c.s)
  {
    assert old(NodeLinked(c.f, c.s));
    HungSons(c);
    hide Binomial, Linked, Segment;
  }

  twostate lemma HungSons(c: Carry)
    requires c.Valid() && old(Linked(c.f)) && Hung(c)
    ensures Segment(c.f.kids[c.s] + [c.r], null)
  {
    var l := c.f.kids[c.s];
    assert old(NodeLinked(c.f, c.s));
    SonsApart(c);
    hide Binomial, Carry.Valid, Linked;
    forall i | 0 <= i < |l|
      ensures l[i].nextSibling == if i + 1 < |l| then l[i + 1] else c.r
    {
      if i + 1 < |l| {
        assert l[i] != l[|l| - 1];
      }
    }
  }

  /** The sons of c.s are different nodes, and none of them is c.r or c.s. */
  lemma SonsApart(c: Carry)
    requires c.Valid()
    ensures c.s in c.f.kids && c.r in c.f.kids
    ensures forall i :: 0 <= i < |c.f.kids[c.s]| ==>
              c.f.kids[c.s][i] in c.f.kids && c.f.kids[c.s][i] != c.r && c.f.kids[c.s][i] != c.s
    ensures forall i, j :: 0 <= i < j < |c.f.kids[c.s]| ==> c.f.kids[c.s][i] != c.f.kids[c.s][j]
  {
    var l := c.f.kids[c.s];
    assert forall i :: 0 <= i < |l| ==> IsSon(c.less, c.f, c.s, i, l[i]);
  }

  twostate lemma HungOther(cn: (Carry, Node))
    requires cn.0.Valid() && old(Linked(cn.0.f)) && Hung(cn.0)
    requires cn.1 in cn.0.f.kids && cn.1 != cn.0.s
    ensures NodeLinked(Hang(cn.0.f, cn.0.s, cn.0.r), cn.1)
  {
    var (c, n) := cn;
    var l := c.f.kids[n];
    assert old(NodeLinked(c.f, n)) && old(NodeLinked(c.f, c.s));
    forall i | 0 <= i < |l|
      ensures l[i].nextSibling == if i + 1 < |l| then l[i + 1] else null
    {
      assert IsSon(c.less, c.f, n, i, l[i]);
    }
  }

  twostate lemma HungLinked(c: Carry)
    requires c.Valid() && old(Linked(c.f)) && Hung(c)
    ensures Linked(Hang(c.f, c.s, c.r))
  {
    var g := Hang(c.f, c.s, c.r);
    assert forall n, i :: n in g.kids && 0 <= i < |g.kids[n]| ==> g.kids[n][i] in g.kids by {
      HangBinomial(c.less, c.f, c.s, c.r);
    }
    HungParent(c);
    forall n | n in c.f.kids && n != c.s
      ensures NodeLinked(g, n)
    {
      HungOther((c, n));
    }
  }

  /** Appends the tree c.r to the sons of c.s. */
  method HangBelow(s: Node, r: Node, ghost c: Carry)
    requires c.Valid() && s == c.s && r == c.r && Linked(c.f)
    modifies s, r, c.f.kids[c.s]
    ensures forall x :: x in Roots(c.f) && x != r ==> x.nextSibling == old(x.nextSibling)
    ensures Linked(Hang(c.f, s, r))
  {
    assert NodeLinked(c.f, s);
    if s.lastSon != null {
      assert IsSon(c.less, c.f, s, |c.f.kids[s]| - 1, s.lastSon);
      s.lastSon.nextSibling := r;
    } else {
      s.firstSon := r;
    }
    s.lastSon := r;
    s.order := s.order + 1;
    r.nextSibling := null;
    HungLinked(c);
  }

  // ----- merge -----

  /** The three lists of a merge in progress: `done` and `rest` make up a's list, cut where
      the pointer `pp` of the merge points to, and `other` is what is left of b's list. */
  datatype Lists = Lists(f: Forest, done: seq<Node>, rest: seq<Node>, other: seq<Node>) {
    ghost predicate Valid(less: (Key, Key) -> bool) {
      Binomial(less, f) && Sorted() && Covers()
    }

    /** Orders increase in each list. The last finished tree is smaller than what follows,
        or of the same order as the first tree of both lists (the 3-collision). */
    ghost predicate Sorted() {
      && Increase()
      && (done != [] ==>
            var k := Order(f, done[|done| - 1]);
            || ((rest != [] ==> k < Order(f, rest[0])) && (other != [] ==> k < Order(f, other[0])))
            || (rest != [] && other != [] && k == Order(f, rest[0]) == Order(f, other[0])))
    }

    ghost predicate Increase() {
      Increasing(f, done) && Increasing(f, rest) && Increasing(f, other)
    }

    /** Every root is in exactly one of the lists, and nothing else is. */
    ghost predicate Covers() {
      && Apart()
      && (forall x :: x in Roots(f) ==> x in done || x in rest || x in other)
    }

    ghost predicate Apart() {
      && (forall i, j :: 0 <= i < j < |done| ==> done[i] != done[j])
      && (forall x :: x in done ==> x in Roots(f) && x !in rest && x !in other)
      && (forall x :: x in rest ==> x in Roots(f) && x !in other)
      && (forall x :: x in other ==> x in Roots(f))
    }

    ghost predicate Laid(a: Node, prev: Node?, q: Node?)
      reads a, f.kids.Keys, done, rest, other
    {
      && a !in f.kids
      && prev == (if done == [] then null else done[|done| - 1])
      && a.firstSon == Head(done, Head(rest, null))
      && q == Head(other, null)
      && Segment(done, Head(rest, null)) && Segment(rest, null) && Segment(other, null)
    }
  }

  lemma SkipValid(less: (Key, Key) -> bool, t: Lists)
    requires t.Valid(less)
    requires t.rest != [] && t.other != [] && Order(t.f, t.rest[0]) < Order(t.f, t.other[0])
    ensures t.(done := t.done + [t.rest[0]], rest := t.rest[1..]).Valid(less)
  {
  }

  lemma TakeValid(less: (Key, Key) -> bool, t: Lists)
    requires t.Valid(less)
    requires t.rest != [] && t.other != [] && Order(t.f, t.rest[0]) > Order(t.f, t.other[0])
    ensures t.(done := t.done + [t.other[0]], other := t.other[1..]).Valid(less)
  {
  }

  /** Where the result of a carry goes: into b's list if it fits before the rest of it, else
      into a's list, and there past it if the next tree of a has the same order. */
  ghost function Placed(t: Lists, s: Node): Lists
    requires t.Increase() && s in t.f.kids
  {
    if t.other == [] || Order(t.f, t.other[0]) > Order(t.f, s) then t.(other := [s] + t.other)
    else if t.rest != [] && Order(t.f, t.rest[0]) == Order(t.f, s) then t.(done := t.done + [s])
    else t.(rest := [s] + t.rest)
  }

  /** The lists between unlinking p and q and placing their sum. */
  ghost function Carrying(t: Lists, s: Node, r: Node): Lists
    requires t.rest != [] && t.other != [] && s in t.f.kids
  {
    Lists(Hang(t.f, s, r), t.done, t.rest[1..], t.other[1..])
  }

  lemma HangIncreasing(f: Forest, s: Node, r: Node, l: seq<Node>)
    requires s in f.kids && s !in l && Increasing(f, l)
    ensures Increasing(Hang(f, s, r), l)
    ensures forall i :: 0 <= i < |l| ==> Order(Hang(f, s, r), l[i]) == Order(f, l[i])
  {
  }

  lemma IncreasingTail(f: Forest, l: seq<Node>)
    requires Increasing(f, l) && l != []
    ensures Increasing(f, l[1..])
    ensures forall x :: x in l <==> x == l[0] || x in l[1..]
    ensures l[0] !in l[1..]
  {
  }

  lemma IncreasingCons(f: Forest, s: Node, l: seq<Node>)
    requires Increasing(f, l) && s in f.kids && (l == [] || Order(f, s) < Order(f, l[0]))
    ensures Increasing(f, [s] + l)
  {
  }

  lemma IncreasingSnoc(f: Forest, l: seq<Node>, s: Node)
    requires Increasing(f, l) && s in f.kids && (l == [] || Order(f, l[|l| - 1]) < Order(f, s))
    ensures Increasing(f, l + [s])
  {
  }

  lemma PlacedSorted(t: Lists, s: Node)
    requires t.Increase() && s in t.f.kids
    requires t.done != [] ==> Order(t.f, t.done[|t.done| - 1]) < Order(t.f, s)
    requires t.rest != [] ==> Order(t.f, s) <= Order(t.f, t.rest[0])
    requires t.other != [] ==> Order(t.f, s) <= Order(t.f, t.other[0])
    ensures Placed(t, s).Sorted()
  {
    if t.other == [] || Order(t.f, t.other[0]) > Order(t.f, s) {
      IncreasingCons(t.f, s, t.other);
    } else if t.rest != [] && Order(t.f, t.rest[0]) == Order(t.f, s) {
      IncreasingSnoc(t.f, t.done, s);
    } else {
      IncreasingCons(t.f, s, t.rest);
    }
  }

  lemma CarryingIncreases(t: Lists, s: Node, r: Node)
    requires t.Sorted() && t.rest != [] && t.other != []
    requires Order(t.f, t.rest[0]) == Order(t.f, t.other[0])
    requires s == t.rest[0] || s == t.other[0]
    requires s !in t.done && s !in t.rest[1..] && s !in t.other[1..]
    ensures Carrying(t, s, r).Increase()
    ensures Placed(Carrying(t, s, r), s).Sorted()
  {
    HangIncreasing(t.f, s, r, t.done);
    HangIncreasing(t.f, s, r, t.rest[1..]);
    HangIncreasing(t.f, s, r, t.other[1..]);
    PlacedSorted(Carrying(t, s, r), s);
  }

  lemma CarryingCovers(t: Lists, s: Node, r: Node)
    requires t.Increase() && t.Covers() && t.rest != [] && t.other != []
    requires (s == t.rest[0] && r == t.other[0]) || (s == t.other[0] && r == t.rest[0])
    ensures var u := Carrying(t, s, r);
            u.Apart() && s in Roots(u.f) && s !in u.done && s !in u.rest && s !in u.other
    ensures var u := Carrying(t, s, r);
            forall x :: x in Roots(u.f) ==> x == s || x in u.done || x in u.rest || x in u.other
  {
    IncreasingTail(t.f, t.rest);
    IncreasingTail(t.f, t.other);
    assert t.rest[0] in t.rest && t.other[0] in t.other;
    assert Roots(Carrying(t, s, r).f) == Roots(t.f) - {r};
  }

  lemma PlacedCovers(t: Lists, s: Node)
    requires t.Increase() && t.Apart()
    requires s in Roots(t.f) && s !in t.done && s !in t.rest && s !in t.other
    requires forall x :: x in Roots(t.f) ==> x == s || x in t.done || x in t.rest || x in t.other
    ensures Placed(t, s).Covers()
  {
  }

  lemma CarryValid(less: (Key, Key) -> bool, t: Lists, s: Node, r: Node)
    requires t.Valid(less) && t.rest != [] && t.other != []
    requires Order(t.f, t.rest[0]) == Order(t.f, t.other[0])
    requires (s == t.rest[0] && r == t.other[0]) || (s == t.other[0] && r == t.rest[0])
    requires !less(r.key, s.key)
    ensures t.Increase() && t.Apart() && s in t.f.kids && r in t.f.kids
    ensures Carry(less, t.f, s, r).Valid() && Binomial(less, t.f) && Binomial(less, Hang(t.f, s, r))
    ensures var u := Carrying(t, s, r);
            u.Increase() && u.Apart() && s in Roots(u.f) && s !in u.done && s !in u.rest && s !in u.other
    ensures var u := Placed(Carrying(t, s, r), s);
            && u.Valid(less) && u.f == Carrying(t, s, r).f == Hang(t.f, s, r) && u.f.kids.Keys == t.f.kids.Keys
            && |u.rest| + |u.other| < |t.rest| + |t.other|
  {
    hide Binomial, Increasing, IsSon;
    CarryingCovers(t, s, r);
    CarryingIncreases(t, s, r);
    PlacedCovers(Carrying(t, s, r), s);
    HangBinomial(less, t.f, s, r);
  }

  /** Only nextSibling fields of roots have changed. */
  twostate predicate RootsRelinked(f: Forest)
    reads f.kids.Keys
  {
    forall x :: x in f.kids ==>
      && x.order == old(x.order) && x.firstSon == old(x.firstSon) && x.lastSon == old(x.lastSon)
      && (x in f.up ==> x.nextSibling == old(x.nextSibling))
  }

  twostate lemma RelinkingKeepsLinked(lf: ((Key, Key) -> bool, Forest))
    requires Binomial(lf.0, lf.1) && old(Linked(lf.1)) && RootsRelinked(lf.1)
    ensures Linked(lf.1)
  {
    var (less, f) := lf;
    forall n | n in f.kids
      ensures NodeLinked(f, n)
    {
      assert old(NodeLinked(f, n));
      var l := f.kids[n];
      forall i | 0 <= i < |l|
        ensures l[i].nextSibling == if i + 1 < |l| then l[i + 1] else null
      {
        assert IsSon(less, f, n, i, l[i]);
        assert l[i].nextSibling == old(l[i].nextSibling);
      }
    }
  }

  lemma SegmentEmpty(end: Node?)
    ensures Segment([], end)
  {
  }

  lemma SegmentTail(l: seq<Node>, end: Node?)
    requires l != [] && Segment(l, end)
    ensures l[0].nextSibling == Head(l[1..], end) && Segment(l[1..], end)
  {
    assert forall i :: 0 <= i < |l| - 1 ==> l[1..][i].nextSibling == l[i + 1].nextSibling;
  }

  lemma SegmentCons(x: Node, l: seq<Node>, end: Node?)
    requires Segment(l, end) && x.nextSibling == Head(l, end)
    ensures Segment([x] + l, end)
  {
    assert forall i :: 0 < i < |l| + 1 ==> ([x] + l)[i].nextSibling == l[i - 1].nextSibling;
  }

  lemma SegmentSnoc(l: seq<Node>, x: Node, end: Node?)
    requires Segment(l, x) && x.nextSibling == end
    ensures Segment(l + [x], end)
  {
    assert forall i :: 0 <= i < |l| ==> (l + [x])[i].nextSibling == l[i].nextSibling;
  }

  /** `*pp = x`, where pp is a's firstSon or the nextSibling of `prev`. */
  method SetCell(a: Node, prev: Node?, x: Node?, ghost done: seq<Node>, ghost end: Node?)
    requires forall i, j :: 0 <= i < j < |done| ==> done[i] != done[j]
    requires prev == (if done == [] then null else done[|done| - 1])
    requires a.firstSon == Head(done, end) && Segment(done, end)
    modifies a`firstSon, (if prev == null then {} else {prev})`nextSibling
    ensures a.firstSon == Head(done, x) && Segment(done, x)
  {
    if prev == null {
      a.firstSon := x;
    } else {
      prev.nextSibling := x;
    }
  }

  /** The first tree of b's list is smaller: it moves in front of p. */
  method TakeStep(a: Node, prev: Node?, p: Node, q: Node, ghost t: Lists) returns (q': Node?)
    requires t.Increase() && t.Apart() && t.Laid(a, prev, q)
    requires t.rest != [] && t.other != [] && p == t.rest[0]
    modifies a`firstSon, Roots(t.f)`nextSibling
    ensures t.(done := t.done + [q], other := t.other[1..]).Laid(a, q, q')
  {
    assert q in t.other && (prev != null ==> prev in t.done);
    IncreasingTail(t.f, t.other);
    SegmentTail(t.other, null);
    q' := q.nextSibling;
    q.nextSibling := p;
    SetCell(a, prev, q, t.done, p);
    SegmentSnoc(t.done, q, p);
  }

  /** The first trees p and q of both lists are unlinked. */
  method Unlink(a: Node, prev: Node?, p: Node, q: Node, ghost t: Lists) returns (q': Node?)
    requires t.Increase() && t.Apart() && t.Laid(a, prev, q)
    requires t.rest != [] && t.other != [] && p == t.rest[0]
    modifies a`firstSon, Roots(t.f)`nextSibling
    ensures t.(rest := t.rest[1..], other := t.other[1..]).Laid(a, prev, q')
  {
    assert prev != null ==> prev in t.done;
    IncreasingTail(t.f, t.rest);
    IncreasingTail(t.f, t.other);
    SegmentTail(t.rest, null);
    SegmentTail(t.other, null);
    SetCell(a, prev, p.nextSibling, t.done, p);
    q' := q.nextSibling;
  }

  /** The result s of a carry goes into a's list. */
  method PlaceInA(a: Node, prev: Node?, q: Node?, s: Node, ghost t: Lists) returns (prev': Node?)
    requires t.Apart() && t.Laid(a, prev, q)
    requires s in Roots(t.f) && s !in t.done && s !in t.rest && s !in t.other
    requires s.order == Order(t.f, s)
             && (t.rest != [] ==> t.rest[0] in t.f.kids && t.rest[0].order == Order(t.f, t.rest[0]))
    modifies a`firstSon, Roots(t.f)`nextSibling
    ensures if t.rest != [] && Order(t.f, t.rest[0]) == Order(t.f, s)
            then t.(done := t.done + [s]).Laid(a, prev', q)
            else t.(rest := [s] + t.rest).Laid(a, prev', q)
  {
    var p := if prev == null then a.firstSon else prev.nextSibling;
    assert prev != null ==> prev in t.done;
    assert p == Head(t.rest, null);
    s.nextSibling := p;
    SetCell(a, prev, s, t.done, p);
    if p != null && p.order == s.order {
      prev' := s;
      SegmentSnoc(t.done, s, p);
    } else {
      prev' := prev;
      SegmentCons(s, t.rest, null);
    }
  }

  /** The result s of a carry is linked into one of the lists. */
  method Place(a: Node, prev: Node?, q: Node?, s: Node, ghost t: Lists) returns (prev': Node?, q': Node?)
    requires t.Increase() && t.Apart() && t.Laid(a, prev, q)
    requires s in Roots(t.f) && s !in t.done && s !in t.rest && s !in t.other
    requires forall x :: x in Roots(t.f) ==> x.order == Order(t.f, x)
    modifies a`firstSon, Roots(t.f)`nextSibling
    ensures Placed(t, s).Laid(a, prev', q')
  {
    assert q != null ==> q in t.other;
    if q == null || q.order > s.order {
      s.nextSibling := q;
      SegmentCons(s, t.other, null);
      prev', q' := prev, s;
    } else {
      prev' := PlaceInA(a, prev, q, s, t);
      q' := q;
    }
  }

  /** Roots other than r keep their siblings. */
  lemma ListsAreOtherRoots(t: Lists, r: Node)
    requires t.Apart() && r !in t.done && r !in t.rest && r !in t.other
    ensures forall i :: 0 <= i < |t.done| ==> t.done[i] in Roots(t.f) && t.done[i] != r
    ensures forall i :: 0 <= i < |t.rest| ==> t.rest[i] in Roots(t.f) && t.rest[i] != r
    ensures forall i :: 0 <= i < |t.other| ==> t.other[i] in Roots(t.f) && t.other[i] != r
  {
  }

  /** The tree r of c is hung below c.s, both being outside of the lists. */
  method HangUnlinked(a: Node, prev: Node?, q: Node?, ghost c: Carry, s: Node, r: Node, ghost v: Lists)
    requires c.Valid() && s == c.s && r == c.r && Linked(c.f)
    requires v.f == Hang(c.f, s, r) && v.Apart()
    requires v.(f := c.f).Laid(a, prev, q)
    modifies c.f.kids.Keys
    ensures Linked(v.f) && v.Laid(a, prev, q)
  {
    assert r in c.f.kids && s in c.f.kids;
    assert v.f.up.Keys == c.f.up.Keys + {r} && v.f.kids.Keys == c.f.kids.Keys;
    assert r !in v.done && r !in v.rest && r !in v.other;
    ListsAreOtherRoots(v, r);
    HangBelow(s, r, c);
  }

  /** The first trees of both lists are unlinked and r is hung below s. */
  method UnlinkAndHang(a: Node, prev: Node?, p: Node, q: Node, s: Node, r: Node,
                       ghost less: (Key, Key) -> bool, ghost t: Lists)
    returns (q': Node?)
    requires t.Increase() && t.Apart() && Linked(t.f) && t.Laid(a, prev, q)
    requires t.rest != [] && t.other != [] && p == t.rest[0]
    requires Carry(less, t.f, s, r).Valid() && Carrying(t, s, r).Apart()
    modifies a`firstSon, t.f.kids.Keys
    ensures Linked(Carrying(t, s, r).f) && Carrying(t, s, r).Laid(a, prev, q')
  {
    hide Binomial, Increasing, IsSon, Segment, Linked, NodeLinked, Lists.Apart;
    ghost var v := Carrying(t, s, r);
    assert v.(f := t.f) == t.(rest := t.rest[1..], other := t.other[1..]);
    label Before:
    q' := Unlink(a, prev, p, q, t);
    RelinkingKeepsLinked@Before((less, t.f));
    HangUnlinked(a, prev, q', Carry(less, t.f, s, r), s, r, v);
  }

  /** The first trees of both lists have the same order: one is hung below the other. */
  method CarryStep(a: Node, prev: Node?, p: Node, q: Node, less: (Key, Key) -> bool, ghost t: Lists)
    returns (prev': Node?, q': Node?, ghost u: Lists)
    requires StrictWeakOrder(less)
    requires t.Valid(less) && Linked(t.f) && t.Laid(a, prev, q)
    requires t.rest != [] && t.other != [] && p == t.rest[0]
    requires Order(t.f, p) == Order(t.f, q)
    modifies a`firstSon, t.f.kids.Keys
    ensures u.f.kids.Keys == t.f.kids.Keys
    ensures u.Valid(less) && Linked(u.f) && u.Laid(a, prev', q')
    ensures |u.rest| + |u.other| < |t.rest| + |t.other|
  {
    hide Binomial, Increasing, IsSon, Segment, Linked, NodeLinked, Lists.Covers, Lists.Sorted, Lists.Apart;
    var r, s := p, q;
    if less(p.key, q.key) {
      r, s := q, p;
      Asymmetric(less, p.key, q.key);
    }
    CarryValid(less, t, s, r);
    ghost var v := Carrying(t, s, r);
    u := Placed(v, s);
    q' := UnlinkAndHang(a, prev, p, q, s, r, less, t);
    FieldOrders(v.f);
    label Before:
    prev', q' := Place(a, prev, q', s, v);
    RelinkingKeepsLinked@Before((less, v.f));
  }

  /** The cell after the finished trees points to the rest of a's list. */
  lemma CellOfRest(a: Node, prev: Node?, q: Node?, t: Lists)
    requires t.Laid(a, prev, q)
    ensures (if prev == null then a.firstSon else prev.nextSibling) == Head(t.rest, null)
  {
    if prev != null {
      assert t.done[|t.done| - 1].nextSibling == Head(t.rest, null);
    }
  }

  lemma IncreasingAppend(f: Forest, l: seq<Node>, m: seq<Node>)
    requires Increasing(f, l) && Increasing(f, m)
    requires l != [] && m != [] ==> Order(f, l[|l| - 1]) < Order(f, m[0])
    ensures Increasing(f, l + m)
  {
    forall i, j | 0 <= i < j < |l + m|
      ensures (l + m)[i] in f.kids && (l + m)[j] in f.kids && Order(f, (l + m)[i]) < Order(f, (l + m)[j])
    {
      if i < |l| <= j {
        assert Order(f, l[i]) <= Order(f, l[|l| - 1]) && Order(f, m[0]) <= Order(f, m[j - |l|]);
      }
    }
  }

  /** When one of the lists has run out, what is left of the other one follows the finished trees. */
  lemma JoinedValid(less: (Key, Key) -> bool, t: Lists)
    requires t.Valid(less) && (t.rest == [] || t.other == [])
    ensures Lists(t.f, [], t.done + t.rest + t.other, []).Valid(less)
  {
    hide Binomial;
    var m := if t.rest == [] then t.other else t.rest;
    assert t.done + t.rest + t.other == t.done + m;
    assert Increasing(t.f, m) && (m != [] ==> m[0] in t.f.kids);
    hide Increasing;
    IncreasingAppend(t.f, t.done, m);
  }

  lemma SegmentJoin(l: seq<Node>, m: seq<Node>, end: Node?)
    requires Segment(l, Head(m, end)) && Segment(m, end)
    ensures Segment(l + m, end)
  {
    forall i | 0 <= i < |l + m|
      ensures (l + m)[i].nextSibling == if i + 1 < |l + m| then (l + m)[i + 1] else end
    {
      if i < |l| {
        assert l[i].nextSibling == if i + 1 < |l| then l[i + 1] else Head(m, end);
      } else {
        assert m[i - |l|].nextSibling == if i - |l| + 1 < |m| then m[i - |l| + 1] else end;
      }
    }
  }

  /** What is left of b's list is appended if a's list has run out. */
  method Finish(a: Node, prev: Node?, p: Node?, q: Node?, ghost t: Lists)
    requires t.Increase() && t.Apart() && t.Laid(a, prev, q)
    requires p == Head(t.rest, null) && (p == null || q == null)
    modifies a`firstSon, Roots(t.f)`nextSibling
    ensures Lists(t.f, [], t.done + t.rest + t.other, []).Laid(a, null, null)
  {
    hide Increasing, Linked;
    assert prev != null ==> prev in t.done;
    if p == null {
      SetCell(a, prev, q, t.done, null);
      SegmentJoin(t.done, t.other, null);
      assert t.done + t.rest + t.other == t.done + t.other;
    } else {
      SegmentJoin(t.done, t.rest, null);
      assert t.done + t.rest + t.other == t.done + t.rest;
    }
  }

  /** Merges b's list of trees into a's list. */
  method Merge(a: Node, b: Node, less: (Key, Key) -> bool, ghost f: Forest, ghost listA: seq<Node>,
               ghost listB: seq<Node>)
    returns (ghost g: Forest, ghost l: seq<Node>)
    requires StrictWeakOrder(less)
    requires Lists(f, [], listA, listB).Valid(less) && Linked(f)
    requires Lists(f, [], listA, listB).Laid(a, null, b.firstSon)
    modifies a`firstSon, f.kids.Keys
    ensures g.kids.Keys == f.kids.Keys
    ensures Lists(g, [], l, []).Valid(less) && Linked(g)
    ensures Lists(g, [], l, []).Laid(a, null, null)
  {
    hide Binomial, Increasing, IsSon, Segment, Linked, NodeLinked;
    ghost var t := Lists(f, [], listA, listB);
    var prev: Node?, q := null, b.firstSon;
    var p := a.firstSon;
    while p != null && q != null
      invariant t.f.kids.Keys == f.kids.Keys
      invariant t.Valid(less) && Linked(t.f) && t.Laid(a, prev, q)
      invariant p == Head(t.rest, null)
      decreases |t.rest| + |t.other|
    {
      FieldOrders(t.f);
      assert p in t.rest && q in t.other;
      if p.order < q.order {
        SkipValid(less, t);
        SegmentTail(t.rest, null);
        SegmentSnoc(t.done, p, p.nextSibling);
        t := t.(done := t.done + [p], rest := t.rest[1..]);
        prev := p;
      } else if p.order > q.order {
        TakeValid(less, t);
        label Before:
        var q' := TakeStep(a, prev, p, q, t);
        RelinkingKeepsLinked@Before((less, t.f));
        t := t.(done := t.done + [q], other := t.other[1..]);
        prev, q := q, q';
      } else {
        prev, q, t := CarryStep(a, prev, p, q, less, t);
      }
      CellOfRest(a, prev, q, t);
      p := if prev == null then a.firstSon else prev.nextSibling;
    }
    JoinedValid(less, t);
    g, l := t.f, t.done + t.rest + t.other;
    label Before:
    Finish(a, prev, p, q, t);
    RelinkingKeepsLinked@Before((less, t.f));
  }

  // ----- heap operations -----

  ghost function Single(f: Forest, a: Node): Forest {
    f.(kids := f.kids[a := []])
  }

  lemma SingleValid(less: (Key, Key) -> bool, f: Forest, l: seq<Node>, a: Node)
    requires Lists(f, [], l, []).Valid(less) && a !in f.kids
    ensures Lists(Single(f, a), [], l, [a]).Valid(less)
  {
    var g := Single(f, a);
    forall n, i | n in g.kids && 0 <= i < |g.kids[n]|
      ensures IsSon(less, g, n, i, g.kids[n][i])
    {
      assert IsSon(less, f, n, i, f.kids[n][i]);
    }
  }

  lemma SingleLinked(f: Forest, a: Node)
    requires Linked(f) && a !in f.kids
    requires a.firstSon == null && a.lastSon == null && a.order == 0
    ensures Linked(Single(f, a))
  {
    var g := Single(f, a);
    forall n | n in g.kids
      ensures NodeLinked(g, n)
    {
      assert n != a ==> NodeLinked(f, n);
    }
  }

  ghost function Without(f: Forest, p: Node): Forest
    requires p in f.kids
  {
    Forest(f.kids - {p}, f.up - (set c | c in f.kids[p]))
  }

  lemma WithoutBinomial(less: (Key, Key) -> bool, f: Forest, p: Node)
    requires Binomial(less, f) && p in Roots(f)
    ensures Binomial(less, Without(f, p))
    ensures Increasing(Without(f, p), f.kids[p])
    ensures forall x :: x in Roots(Without(f, p)) <==> (x in Roots(f) && x != p) || x in f.kids[p]
  {
    var g := Without(f, p);
    forall n, i | n in f.kids && 0 <= i < |f.kids[n]|
      ensures f.kids[n][i] != p && (n != p ==> f.kids[n][i] !in f.kids[p])
    {
      assert IsSon(less, f, n, i, f.kids[n][i]);
    }
    forall n, i | n in g.kids && 0 <= i < |g.kids[n]|
      ensures IsSon(less, g, n, i, g.kids[n][i])
    {
      assert IsSon(less, f, n, i, f.kids[n][i]);
    }
    forall i | 0 <= i < |f.kids[p]|
      ensures f.kids[p][i] in g.kids && Order(g, f.kids[p][i]) == i
    {
      assert IsSon(less, f, p, i, f.kids[p][i]);
    }
  }

  lemma WithoutValid(less: (Key, Key) -> bool, f: Forest, l: seq<Node>, k: nat)
    requires Lists(f, [], l, []).Valid(less) && k < |l|
    ensures Lists(Without(f, l[k]), [], l[..k] + l[k + 1..], f.kids[l[k]]).Valid(less)
  {
    var p, m := l[k], l[..k] + l[k + 1..];
    var g := Without(f, p);
    WithoutBinomial(less, f, p);
    assert forall x :: x in m <==> x in l && x != p;
    forall i | 0 <= i < |f.kids[p]|
      ensures f.kids[p][i] !in Roots(f)
    {
      assert IsSon(less, f, p, i, f.kids[p][i]);
    }
    forall i | 0 <= i < |m|
      ensures m[i] in g.kids && m[i] == l[if i < k then i else i + 1]
    {
    }
    hide Binomial, IsSon;
    assert Increasing(g, m);
  }

  /** No node is less than the root above it. */
  lemma RootAbove(less: (Key, Key) -> bool, f: Forest, n: Node) returns (r: Node)
    requires StrictWeakOrder(less) && Binomial(less, f) && n in f.kids
    ensures r in Roots(f) && !less(n.key, r.key)
    decreases set m | m in f.kids && Order(f, m) > Order(f, n)
  {
    if n in f.up {
      var above := set m | m in f.kids && Order(f, m) > Order(f, f.up[n]);
      assert f.up[n] !in above;
      r := RootAbove(less, f, f.up[n]);
      assert IsSon(less, f, f.up[n], Order(f, n), n);
    } else {
      r := n;
    }
  }

  lemma Irreflexive(less: (Key, Key) -> bool, x: Key)
    requires StrictWeakOrder(less)
    ensures !less(x, x)
  {
  }

  /** A new best key keeps all keys seen so far not less than it. */
  lemma LessThanBest(less: (Key, Key) -> bool, l: seq<Node>, i: nat, q: Node, best: Node)
    requires StrictWeakOrder(less) && i < |l| && l[i] == q && less(q.key, best.key)
    requires forall j :: 0 <= j < i ==> !less(l[j].key, best.key)
    ensures forall j :: 0 <= j <= i ==> !less(l[j].key, q.key)
  {
  }

  lemma LeastRoot(less: (Key, Key) -> bool, f: Forest, l: seq<Node>, best: Node)
    requires StrictWeakOrder(less) && Lists(f, [], l, []).Valid(less)
    requires forall i :: 0 <= i < |l| ==> !less(l[i].key, best.key)
    ensures forall n :: n in f.kids ==> !less(n.key, best.key)
  {
    forall n | n in f.kids
      ensures !less(n.key, best.key)
    {
      var r := RootAbove(less, f, n);
      assert r in l;
    }
  }

  lemma EmptyList(less: (Key, Key) -> bool, f: Forest, l: seq<Node>)
    requires StrictWeakOrder(less) && Lists(f, [], l, []).Valid(less)
    ensures l == [] <==> f.kids.Keys == {}
  {
    if n :| n in f.kids {
      var r := RootAbove(less, f, n);
      assert r in l;
    }
    if l != [] {
      assert l[0] in f.kids;
    }
  }

  /** The node a becomes a tree of order 0, the only one in b's list. */
  method MakeSingle(root: Node, b: Node, a: Node, ghost less: (Key, Key) -> bool, ghost f: Forest,
                    ghost list: seq<Node>)
    requires HeapOf(root, less, f, list) && a !in f.kids && a != root && b != a && b != root && b !in f.kids
    modifies a, b`firstSon
    ensures Lists(Single(f, a), [], list, [a]).Valid(less) && Linked(Single(f, a))
    ensures Lists(Single(f, a), [], list, [a]).Laid(root, null, b.firstSon)
    ensures Single(f, a).kids.Keys == f.kids.Keys + {a}
  {
    ListsAreOtherRoots(Lists(f, [], list, []), a);
    SingleValid(less, f, list, a);
    hide Binomial, Increasing, IsSon, Linked, StrictWeakOrder, Lists.Valid;
    SingleKeys(f, a);
    b.firstSon := a;
    a.firstSon, a.lastSon, a.nextSibling := null, null, null;
    a.order := 0;
    SingleLinked(f, a);
    hide Single;
  }

  lemma SingleKeys(f: Forest, a: Node)
    ensures Single(f, a).kids.Keys == f.kids.Keys + {a}
  {
  }

  /** The header `root` holds the forest f, its roots being `list`. */
  ghost predicate HeapOf(root: Node, less: (Key, Key) -> bool, f: Forest, list: seq<Node>)
    reads root, f.kids.Keys, list
  {
    && StrictWeakOrder(less)
    && Lists(f, [], list, []).Valid(less)
    && Linked(f)
    && Lists(f, [], list, []).Laid(root, null, null)
  }

  /** `*pp = (*pp)->nextSibling` for the cell of index k of the list at root. */
  method Cut(root: Node, prev: Node?, p: Node, ghost l: seq<Node>, ghost k: nat)
    requires forall i, j :: 0 <= i < j < |l| ==> l[i] != l[j]
    requires root.firstSon == Head(l, null) && Segment(l, null)
    requires k < |l| && p == l[k] && prev == (if k == 0 then null else l[k - 1])
    modifies root`firstSon, (if prev == null then {} else {prev})`nextSibling
    ensures root.firstSon == Head(l[..k] + l[k + 1..], null) && Segment(l[..k] + l[k + 1..], null)
  {
    if prev == null {
      root.firstSon := p.nextSibling;
    } else {
      prev.nextSibling := p.nextSibling;
    }
    ghost var m := l[..k] + l[k + 1..];
    forall i | 0 <= i < |m|
      ensures m[i].nextSibling == if i + 1 < |m| then m[i + 1] else null
    {
      assert m[i] == l[if i < k then i else i + 1];
      assert m[i] == prev <==> i + 1 == k;
    }
  }

  lemma DetachShape(root: Node, prev: Node?, less: (Key, Key) -> bool, f: Forest, list: seq<Node>, k: nat)
    requires HeapOf(root, less, f, list) && k < |list| && prev == (if k == 0 then null else list[k - 1])
    ensures list[k] in Roots(f) && (prev != null ==> prev in Roots(f))
    ensures Without(f, list[k]).kids.Keys == f.kids.Keys - {list[k]}
    ensures Binomial(less, f) && Linked(f) && root !in f.kids
    ensures forall i, j :: 0 <= i < j < |list| ==> list[i] != list[j]
    ensures root.firstSon == Head(list, null) && Segment(list, null)
    ensures Lists(Without(f, list[k]), [], list[..k] + list[k + 1..], f.kids[list[k]]).Valid(less)
    ensures forall x :: x in Roots(f) ==> x in f.kids && x !in f.up
  {
    WithoutValid(less, f, list, k);
    ListsAreOtherRoots(Lists(f, [], list, []), root);
    assert k > 0 ==> list[k - 1] in list;
  }

  lemma WithoutLinked(less: (Key, Key) -> bool, f: Forest, p: Node)
    requires Binomial(less, f) && Linked(f) && p in Roots(f)
    ensures Linked(Without(f, p))
    ensures p.firstSon == Head(f.kids[p], null) && Segment(f.kids[p], null)
  {
    var g := Without(f, p);
    WithoutBinomial(less, f, p);
    assert NodeLinked(f, p);
    forall n, i | n in g.kids && 0 <= i < |g.kids[n]|
      ensures g.kids[n][i] in g.kids
    {
      assert IsSon(less, g, n, i, g.kids[n][i]);
    }
    forall n | n in g.kids
      ensures NodeLinked(g, n)
    {
      assert NodeLinked(f, n);
    }
  }

  lemma HeadLaid(root: Node, less: (Key, Key) -> bool, t: Lists, q: Node?)
    requires t.Valid(less) && root !in t.f.kids && t.done == []
    requires root.firstSon == Head(t.rest, null) && Segment(t.rest, null)
    requires q == Head(t.other, null) && Segment(t.other, null)
    ensures t.Laid(root, null, q)
  {
    SegmentEmpty(Head(t.rest, null));
  }

  /** The tree of index k is unlinked from the root list; its sons are the other list. */
  method Detach(root: Node, prev: Node?, p: Node, ghost less: (Key, Key) -> bool, ghost f: Forest,
                ghost list: seq<Node>, ghost k: nat)
    requires HeapOf(root, less, f, list)
    requires k < |list| && p == list[k] && prev == (if k == 0 then null else list[k - 1])
    modifies root`firstSon, Roots(f)`nextSibling
    ensures var t := Lists(Without(f, p), [], list[..k] + list[k + 1..], f.kids[p]);
            t.Valid(less) && Linked(t.f) && t.Laid(root, null, p.firstSon) && t.f.kids.Keys == f.kids.Keys - {p}
  {
    DetachShape(root, prev, less, f, list, k);
    hide Binomial, Increasing, IsSon, Segment, Linked, NodeLinked, StrictWeakOrder, Lists.Valid, Lists.Laid, HeapOf,
      Without, Roots, Head;
    label Before:
    Cut(root, prev, p, list, k);
    RelinkingKeepsLinked@Before((less, f));
    WithoutLinked(less, f, p);
    HeadLaid(root, less, Lists(Without(f, p), [], list[..k] + list[k + 1..], f.kids[p]), p.firstSon);
  }

  /** The root of index k is removed; its sons are merged back. */
  method RemoveRoot(root: Node, prev: Node?, p: Node, less: (Key, Key) -> bool, ghost f: Forest, ghost list: seq<Node>,
                    ghost k: nat)
    returns (ghost g: Forest, ghost l: seq<Node>)
    requires HeapOf(root, less, f, list)
    requires k < |list| && p == list[k] && prev == (if k == 0 then null else list[k - 1])
    modifies root`firstSon, f.kids.Keys
    ensures HeapOf(root, less, g, l)
    ensures p in f.kids && g.kids.Keys == f.kids.Keys - {p}
  {
    hide Binomial, Increasing, IsSon, Linked, StrictWeakOrder, Segment, Lists.Sorted, Lists.Covers;
    DetachShape(root, prev, less, f, list, k);
    Detach(root, prev, p, less, f, list, k);
    g, l := Merge(root, p, less, Without(f, p), list[..k] + list[k + 1..], f.kids[p]);
  }

  class Heap {
    const less: (Key, Key) -> bool
    const root: Node
    ghost var f: Forest
    ghost var list: seq<Node>

    ghost predicate Valid()
      reads this, root, f.kids.Keys, list
    {
      HeapOf(root, less, f, list)
    }

    ghost function Nodes(): set<Node>
      reads this
    {
      f.kids.Keys
    }

    constructor (less: (Key, Key) -> bool)
      requires StrictWeakOrder(less)
      ensures Valid() && fresh(root) && this.less == less
      ensures Nodes() == {}
    {
      this.less := less;
      root := new Node.Header();
      f := Forest(map[], map[]);
      list := [];
    }

    /** Adds exactly the node a. */
    method Insert(a: Node)
      requires Valid() && a !in Nodes() && a != root
      modifies this, root, a, Nodes()
      ensures Valid()
      ensures Nodes() == old(Nodes()) + {a}
    {
      hide Binomial, Increasing, IsSon, Segment, Linked, StrictWeakOrder, Single, Lists.Valid, Lists.Laid;
      var sh := new Node.Header();
      MakeSingle(root, sh, a, less, f, list);
      f, list := Merge(root, sh, less, Single(f, a), list, [a]);
    }

    /** Any root of least key, or null if the heap is empty. */
    method FindMin() returns (best: Node?)
      requires Valid()
      ensures best == null <==> Nodes() == {}
      ensures best != null ==> best in Nodes() && forall n :: n in Nodes() ==> !less(n.key, best.key)
    {
      best := null;
      var p := root.firstSon;
      ghost var i := 0;
      while p != null
        invariant i <= |list| && p == (if i < |list| then list[i] else null)
        invariant best == null <==> i == 0
        invariant best != null ==> best in list && forall j :: 0 <= j < i ==> !less(list[j].key, best.key)
        decreases |list| - i
      {
        if best == null || less(p.key, best.key) {
          if best != null {
            Asymmetric(less, p.key, best.key);
          }
          best := p;
        }
        p := p.nextSibling;
        i := i + 1;
      }
      if best != null {
        LeastRoot(less, f, list, best);
      } else {
        EmptyList(less, f, list);
      }
    }

    /** Removes and returns a least node, or returns null if the heap is empty. */
    method DeleteMin() returns (p: Node?)
      requires Valid()
      modifies this, root, Nodes()
      ensures Valid()
      ensures p == null ==> old(Nodes()) == {} == Nodes()
      ensures p != null ==> p in old(Nodes()) && Nodes() == old(Nodes()) - {p}
      ensures p != null ==> forall n :: n in old(Nodes()) ==> !less(n.key, p.key)
    {
      hide Binomial, Increasing, IsSon, Linked, StrictWeakOrder, Lists.Sorted, Lists.Covers;
      // pp and bestp are cells: firstSon of the root if no node is given, else nextSibling of the node
      var pp: Node?, bestp: Node? := null, null;
      var best: Node? := null;
      var q := root.firstSon;
      ghost var i, k := 0, 0;
      while q != null
        invariant i <= |list| && q == (if i < |list| then list[i] else null)
        invariant pp == if i == 0 then null else list[i - 1]
        invariant best == null <==> i == 0
        invariant best != null ==> k < |list| && best == list[k] && bestp == if k == 0 then null else list[k - 1]
        invariant best != null ==> forall j :: 0 <= j < i ==> !less(list[j].key, best.key)
        modifies {}
        decreases |list| - i
      {
        if best == null || less(q.key, best.key) {
          if best != null {
            LessThanBest(less, list, i, q, best);
          } else {
            Irreflexive(less, q.key);
          }
          bestp, best, k := pp, q, i;
        }
        pp := q;
        q := q.nextSibling;
        i := i + 1;
      }
      if best == null {
        EmptyList(less, f, list);
        return null;
      }
      LeastRoot(less, f, list, best);
      p := if bestp == null then root.firstSon else bestp.nextSibling;
      assert p == best;
      f, list := RemoveRoot(root, bestp, p, less, f, list, k);
    }
  }
}
