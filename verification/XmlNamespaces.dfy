/**
 XML namespaces: a table of prefixes that is overwritten by declarations and restored from
 a stack of undo records, against lexical scoping over the tree of elements.
 */
module XmlNamespaces {
  import opened Basics

  datatype Attr = Attr(name: string, val: string)
  datatype Element = Element(name: string, attrs: seq<Attr>, sons: seq<Element>)

  const XMLNS_URI := "http://www.w3.org/2000/xmlns/"
  const XML_URI := "http://www.w3.org/XML/1998/namespace"
  const NS_NONE := 0
  const NS_XMLNS := 1
  const NS_XML := 2

  // ----- lexical scoping -----

  /** What an attribute declares: the default namespace (None) or a prefix. */
  datatype Declaration = Declaration(prefix: Option<string>, uri: string)

  predicate HasPrefix(s: string, p: string) { p <= s }

  /** A valid declaration: xmlns="..." or xmlns:p="..." with a prefix and a non-empty name. */
  function Declared(a: Attr): Option<Declaration> {
    if a.name == "xmlns" then Some(Declaration(None, a.val))
    else if HasPrefix(a.name, "xmlns:") && |a.name| > 6 && a.val != "" then Some(Declaration(Some(a.name[6..]), a.val))
    else None
  }

  /** The last declaration of a prefix among the attributes of one element. */
  function LastDeclared(attrs: seq<Attr>, prefix: Option<string>): Option<string> {
    if attrs == [] then None
    else
      var d := Declared(attrs[|attrs| - 1]);
      if d.Some? && d.value.prefix == prefix then Some(d.value.uri) else LastDeclared(attrs[..|attrs| - 1], prefix)
  }

  function Predeclared(prefix: Option<string>): string {
    if prefix == Some("xmlns") then XMLNS_URI else if prefix == Some("xml") then XML_URI else ""
  }

  /** The namespace name of a prefix (or of no prefix): that of the nearest enclosing element
      with a declaration. Scopes are listed from the root inwards; "" stands for no namespace. */
  function InScope(scopes: seq<seq<Attr>>, prefix: Option<string>): string {
    if scopes == [] then Predeclared(prefix)
    else
      var d := LastDeclared(scopes[|scopes| - 1], prefix);
      if d.Some? then d.value else InScope(scopes[..|scopes| - 1], prefix)
  }

  /** The position of the first colon, or the length of the name. */
  function Colon(name: string): (k: nat)
    ensures k <= |name| && (k < |name| ==> name[k] == ':')
    ensures forall i :: 0 <= i < k ==> name[i] != ':'
  {
    if name == [] || name[0] == ':' then 0 else 1 + Colon(name[1..])
  }

  /** An expanded name; a name with an unknown prefix stays as it is and is reported. */
  datatype Expanded = Expanded(uri: string, local: string, unknownPrefix: bool)

  function Expand(scopes: seq<seq<Attr>>, name: string, default: string): Expanded {
    var k := Colon(name);
    if k == |name| then Expanded(default, name, false)
    else
      var uri := InScope(scopes, Some(name[..k]));
      if uri == "" then Expanded("", name, true) else Expanded(uri, name[k + 1..], false)
  }

  /** The expanded name of an element and of its attributes. */
  datatype Tag = Tag(name: Expanded, attrs: seq<Expanded>)

  function ExpandTag(scopes: seq<seq<Attr>>, e: Element): Tag {
    Tag(Expand(scopes, e.name, InScope(scopes, None)),
        seq(|e.attrs|, i requires 0 <= i < |e.attrs| => Expand(scopes, e.attrs[i].name, "")))
  }

  /** All tags of a tree in document order, by lexical scoping. */
  function Scoped(scopes: seq<seq<Attr>>, e: Element): seq<Tag>
    decreases e, 0
  {
    var inner := scopes + [e.attrs];
    [ExpandTag(inner, e)] + ScopedAll(inner, e.sons)
  }

  function ScopedAll(scopes: seq<seq<Attr>>, es: seq<Element>): seq<Tag>
    decreases es, 0
  {
    if es == [] then [] else Scoped(scopes, es[0]) + ScopedAll(scopes, es[1..])
  }

  // ----- what lexical scoping means -----

  /** The attribute declares the prefix, or the default namespace: a prefix must not be empty nor
      declared as no namespace. */
  predicate Declares(a: Attr, prefix: Option<string>) {
    match prefix
    case None => a.name == "xmlns"
    case Some(p) => a.name == "xmlns:" + p && p != "" && a.val != ""
  }

  /** Attribute j of scope i is the innermost declaration of the prefix, the last of its element. */
  ghost predicate Binds(scopes: seq<seq<Attr>>, prefix: Option<string>, i: nat, j: nat) {
    && i < |scopes| && j < |scopes[i]| && Declares(scopes[i][j], prefix)
    && (forall k, l :: 0 <= k < |scopes| && 0 <= l < |scopes[k]| && Declares(scopes[k][l], prefix) ==>
          k < i || (k == i && l <= j))
  }

  ghost predicate Undeclared(scopes: seq<seq<Attr>>, prefix: Option<string>) {
    forall k, l :: 0 <= k < |scopes| && 0 <= l < |scopes[k]| ==> !Declares(scopes[k][l], prefix)
  }

  /** The namespace of a prefix, or of none: what the innermost declaration says. Without one there
      are the two namespaces that are always known, and otherwise there is none. */
  ghost predicate Means(scopes: seq<seq<Attr>>, prefix: Option<string>, uri: string) {
    || (exists i: nat, j: nat :: Binds(scopes, prefix, i, j) && uri == scopes[i][j].val)
    || (Undeclared(scopes, prefix) &&
        uri == if prefix == Some("xml") then "http://www.w3.org/XML/1998/namespace"
               else if prefix == Some("xmlns") then "http://www.w3.org/2000/xmlns/" else "")
  }

  /** The name has this prefix, before its first colon. */
  ghost predicate Prefixed(name: string, prefix: string, local: string) {
    name == prefix + ":" + local && ':' !in prefix
  }

  /** The expanded form of a name. Without a prefix it has no namespace, or for elements the default
      one. With a prefix that means nothing it stays as it is. */
  ghost predicate IsExpanded(scopes: seq<seq<Attr>>, name: string, element: bool, x: Expanded) {
    if ':' !in name then
      x.local == name && !x.unknownPrefix && if element then Means(scopes, None, x.uri) else x.uri == ""
    else if x.unknownPrefix then
      x.local == name && x.uri == "" && exists p, l :: Prefixed(name, p, l) && Means(scopes, Some(p), "")
    else
      x.uri != "" && exists p :: Prefixed(name, p, x.local) && Means(scopes, Some(p), x.uri)
  }

  /** The tag of an element. */
  ghost predicate IsTag(scopes: seq<seq<Attr>>, e: Element, tag: Tag) {
    && IsExpanded(scopes, e.name, true, tag.name) && |tag.attrs| == |e.attrs|
    && forall i :: 0 <= i < |e.attrs| ==> IsExpanded(scopes, e.attrs[i].name, false, tag.attrs[i])
  }

  /** The tags of a tree in document order. */
  ghost predicate AreTags(scopes: seq<seq<Attr>>, e: Element, tags: seq<Tag>)
    decreases e, 0
  {
    tags != [] && IsTag(scopes + [e.attrs], e, tags[0]) && AreTagsOf(scopes + [e.attrs], e.sons, tags[1..])
  }

  ghost predicate AreTagsOf(scopes: seq<seq<Attr>>, es: seq<Element>, tags: seq<Tag>)
    decreases es, 0
  {
    if es == [] then tags == []
    else exists k :: 0 <= k <= |tags| && AreTags(scopes, es[0], tags[..k]) && AreTagsOf(scopes, es[1..], tags[k..])
  }

  lemma DeclaredIs(a: Attr, prefix: Option<string>)
    ensures Declares(a, prefix) <==> Declared(a).Some? && Declared(a).value.prefix == prefix
    ensures Declares(a, prefix) ==> Declared(a).value.uri == a.val
  {
    if prefix.Some? && a.name == "xmlns:" + prefix.value {
      assert a.name[6..] == prefix.value && a.name[..6] == "xmlns:";
      assert a.name[5] == ':';
    }
    if HasPrefix(a.name, "xmlns:") {
      assert a.name == "xmlns:" + a.name[6..];
      assert a.name[5] == ':';
    }
  }

  /** The last declaration among the attributes of an element. */
  lemma {:induction false} LastIs(attrs: seq<Attr>, prefix: Option<string>) returns (j: nat)
    ensures var d := LastDeclared(attrs, prefix);
            && (d.Some? ==> j < |attrs| && Declares(attrs[j], prefix) && d.value == attrs[j].val)
            && (d.Some? ==> forall l :: j < l < |attrs| ==> !Declares(attrs[l], prefix))
            && (d.None? ==> forall l :: 0 <= l < |attrs| ==> !Declares(attrs[l], prefix))
  {
    j := 0;
    if attrs != [] {
      var n := |attrs| - 1;
      DeclaredIs(attrs[n], prefix);
      hide Declares, Declared;
      if LastDeclared(attrs, prefix) != LastDeclared(attrs[..n], prefix) || Declares(attrs[n], prefix) {
        j := n;
      } else {
        j := LastIs(attrs[..n], prefix);
      }
    }
  }

  /** The innermost declaration decides. */
  lemma {:induction false} InScopeMeans(scopes: seq<seq<Attr>>, prefix: Option<string>)
    ensures Means(scopes, prefix, InScope(scopes, prefix))
  {
    hide Declares, LastDeclared;
    if scopes == [] {
    } else {
      var n := |scopes| - 1;
      var j := LastIs(scopes[n], prefix);
      if LastDeclared(scopes[n], prefix).Some? {
        assert Binds(scopes, prefix, n, j);
      } else {
        var outer := scopes[..n];
        InScopeMeans(outer, prefix);
        if i: nat, l: nat :| Binds(outer, prefix, i, l) && InScope(outer, prefix) == outer[i][l].val {
          assert Binds(scopes, prefix, i, l);
        } else {
          assert Undeclared(scopes, prefix);
        }
      }
    }
  }

  /** Only one namespace is meant. */
  lemma MeansOne(scopes: seq<seq<Attr>>, prefix: Option<string>, u: string, v: string)
    requires Means(scopes, prefix, u) && Means(scopes, prefix, v)
    ensures u == v
  {
    hide Declares;
    if i: nat, j: nat :| Binds(scopes, prefix, i, j) && u == scopes[i][j].val {
      var k: nat, l: nat :| Binds(scopes, prefix, k, l) && v == scopes[k][l].val;
      assert Declares(scopes[i][j], prefix) && Declares(scopes[k][l], prefix);
    } else {
      assert Undeclared(scopes, prefix);
    }
  }

  lemma {:induction false} FirstColon(name: string)
    ensures Colon(name) == |name| <==> ':' !in name
  {
    if Colon(name) < |name| {
      assert name[Colon(name)] == ':';
    }
  }

  lemma ExpandIs(scopes: seq<seq<Attr>>, name: string, element: bool)
    ensures IsExpanded(scopes, name, element, Expand(scopes, name, if element then InScope(scopes, None) else ""))
  {
    hide InScope, Means, IsExpanded, Prefixed;
    FirstColon(name);
    var k := Colon(name);
    if k == |name| {
      InScopeMeans(scopes, None);
      PlainIs(scopes, name, element, if element then InScope(scopes, None) else "");
    } else {
      assert Prefixed(name, name[..k], name[k + 1..]) by { ColonSplits(name); }
      InScopeMeans(scopes, Some(name[..k]));
      PrefixedIs(scopes, name, element, name[..k], name[k + 1..], InScope(scopes, Some(name[..k])));
    }
  }

  lemma ColonSplits(name: string)
    requires Colon(name) < |name|
    ensures var k := Colon(name); Prefixed(name, name[..k], name[k + 1..])
  {
    hide Colon;
    var k := Colon(name);
    var p := name[..k];
    forall i | 0 <= i < |p| ensures p[i] != ':' {
      assert p[i] == name[i];
    }
    Pieces(name, k);
  }

  lemma Pieces(name: string, k: nat)
    requires k < |name| && name[k] == ':'
    ensures name == name[..k] + ":" + name[k + 1..]
  {
    assert name == name[..k] + (":" + name[k + 1..]) == name[..k] + ":" + name[k + 1..];
  }

  lemma PlainIs(scopes: seq<seq<Attr>>, name: string, element: bool, uri: string)
    requires ':' !in name && if element then Means(scopes, None, uri) else uri == ""
    ensures IsExpanded(scopes, name, element, Expanded(uri, name, false))
  {
  }

  lemma PrefixedIs(scopes: seq<seq<Attr>>, name: string, element: bool, p: string, l: string, uri: string)
    requires Prefixed(name, p, l) && Means(scopes, Some(p), uri)
    ensures IsExpanded(scopes, name, element, if uri == "" then Expanded("", name, true) else Expanded(uri, l, false))
  {
    hide Means;
    assert name[|p|] == ':';
  }

  lemma FirstIs(name: string, p: string, l: string)
    requires Prefixed(name, p, l)
    ensures |p| < |name| && name[|p|] == ':' && forall i :: 0 <= i < |p| ==> name[i] != ':'
  {
    forall i | 0 <= i < |p| ensures name[i] != ':' {
      assert name[i] == p[i] && p[i] in p;
    }
  }

  lemma PrefixedOne(name: string, p: string, l: string, q: string, m: string)
    requires Prefixed(name, p, l) && Prefixed(name, q, m)
    ensures p == q && l == m
  {
    FirstIs(name, p, l);
    FirstIs(name, q, m);
    assert p == name[..|p|] && q == name[..|q|] && l == name[|p| + 1..] && m == name[|q| + 1..];
  }

  /** A name has one expanded form. */
  lemma ExpandedOne(scopes: seq<seq<Attr>>, name: string, element: bool, x: Expanded, y: Expanded)
    requires IsExpanded(scopes, name, element, x) && IsExpanded(scopes, name, element, y)
    ensures x == y
  {
    hide Means, Prefixed;
    if ':' !in name {
      if element {
        MeansOne(scopes, None, x.uri, y.uri);
      }
    } else {
      var p, l :| Prefixed(name, p, l) && (x.unknownPrefix || l == x.local) && Means(scopes, Some(p), x.uri);
      var q, m :| Prefixed(name, q, m) && (y.unknownPrefix || m == y.local) && Means(scopes, Some(q), y.uri);
      PrefixedOne(name, p, l, q, m);
      MeansOne(scopes, Some(p), x.uri, y.uri);
    }
  }

  /** An element has one tag. */
  lemma TagOne(scopes: seq<seq<Attr>>, e: Element, tag: Tag)
    ensures IsTag(scopes, e, tag) <==> tag == ExpandTag(scopes, e)
  {
    TagIs(scopes, e);
    hide IsExpanded, ExpandTag;
    if IsTag(scopes, e, tag) {
      var t := ExpandTag(scopes, e);
      ExpandedOne(scopes, e.name, true, tag.name, t.name);
      forall i | 0 <= i < |e.attrs| ensures tag.attrs[i] == t.attrs[i] {
        ExpandedOne(scopes, e.attrs[i].name, false, tag.attrs[i], t.attrs[i]);
      }
      assert tag.attrs == t.attrs;
    }
  }

  /** A tree has one sequence of tags. */
  lemma {:induction false} TagsOne(scopes: seq<seq<Attr>>, e: Element, tags: seq<Tag>)
    requires AreTags(scopes, e, tags)
    ensures tags == Scoped(scopes, e)
    decreases e, 0
  {
    hide IsTag, ExpandTag;
    TagOne(scopes + [e.attrs], e, tags[0]);
    AllTagsOne(scopes + [e.attrs], e.sons, tags[1..]);
    assert tags == [tags[0]] + tags[1..];
  }

  lemma {:induction false} AllTagsOne(scopes: seq<seq<Attr>>, es: seq<Element>, tags: seq<Tag>)
    requires AreTagsOf(scopes, es, tags)
    ensures tags == ScopedAll(scopes, es)
    decreases es, 0
  {
    hide AreTags;
    if es != [] {
      var k :| 0 <= k <= |tags| && AreTags(scopes, es[0], tags[..k]) && AreTagsOf(scopes, es[1..], tags[k..]);
      TagsOne(scopes, es[0], tags[..k]);
      AllTagsOne(scopes, es[1..], tags[k..]);
      assert tags == tags[..k] + tags[k..];
    }
  }

  lemma TagIs(scopes: seq<seq<Attr>>, e: Element)
    ensures IsTag(scopes, e, ExpandTag(scopes, e))
  {
    hide Expand, IsExpanded, InScope;
    ExpandIs(scopes, e.name, true);
    forall i | 0 <= i < |e.attrs| ensures IsExpanded(scopes, e.attrs[i].name, false, ExpandTag(scopes, e).attrs[i]) {
      ExpandIs(scopes, e.attrs[i].name, false);
    }
  }

  lemma {:induction false} ScopedAre(scopes: seq<seq<Attr>>, e: Element)
    ensures AreTags(scopes, e, Scoped(scopes, e))
    decreases e, 0
  {
    hide ExpandTag, IsTag;
    TagIs(scopes + [e.attrs], e);
    ScopedAllAre(scopes + [e.attrs], e.sons);
    assert Scoped(scopes, e)[1..] == ScopedAll(scopes + [e.attrs], e.sons);
  }

  lemma {:induction false} ScopedAllAre(scopes: seq<seq<Attr>>, es: seq<Element>)
    ensures AreTagsOf(scopes, es, ScopedAll(scopes, es))
    decreases es, 0
  {
    hide AreTags;
    if es != [] {
      ScopedAre(scopes, es[0]);
      ScopedAllAre(scopes, es[1..]);
      var tags, k := ScopedAll(scopes, es), |Scoped(scopes, es[0])|;
      assert tags[..k] == Scoped(scopes, es[0]) && tags[k..] == ScopedAll(scopes, es[1..]);
    }
  }

  /** An attribute that looks like the declaration of a prefix but is none is an error. */
  predicate Faulty(a: Attr) {
    "xmlns:" <= a.name && (a.name == "xmlns:" || a.val == "")
  }

  function Faults(attrs: seq<Attr>): nat {
    if attrs == [] then 0 else Faults(attrs[..|attrs| - 1]) + if Faulty(attrs[|attrs| - 1]) then 1 else 0
  }

  /** So is every unknown prefix. */
  function Unknown(xs: seq<Expanded>): nat {
    if xs == [] then 0 else Unknown(xs[..|xs| - 1]) + if xs[|xs| - 1].unknownPrefix then 1 else 0
  }

  /** A prefix is unknown exactly if it is not declared and none of the two that are always known. */
  lemma UnknownIff(scopes: seq<seq<Attr>>, prefix: string)
    ensures
      Means(scopes, Some(prefix), "") <==> Undeclared(scopes, Some(prefix)) && prefix != "xml" && prefix != "xmlns"
  {
    assert "http://www.w3.org/XML/1998/namespace"[0] == 'h' && "http://www.w3.org/2000/xmlns/"[0] == 'h';
    InScopeMeans(scopes, Some(prefix));
  }

  // ----- the table and its undo records -----

  /** An undo record: the element that made the declaration, the prefix (None for the default
      namespace) and the ID it had before. */
  datatype Record = Record(e: nat, prefix: Option<string>, prevNs: nat)

  datatype Table = Table(byPrefix: map<string, nat>, default: nat)

  /** The ID a table gives; an entry with ID 0 is as good as none. */
  function Lookup(t: Table, prefix: Option<string>): nat {
    match prefix
    case None => t.default
    case Some(p) => if p in t.byPrefix then t.byPrefix[p] else NS_NONE
  }

  function Assign(t: Table, prefix: Option<string>, ns: nat): Table {
    match prefix
    case None => t.(default := ns)
    case Some(p) => t.(byPrefix := t.byPrefix[p := ns])
  }

  /** Undoes all records, the last one first. */
  function Undo(t: Table, records: seq<Record>): Table
    decreases |records|
  {
    if records == [] then t
    else
      var r := records[|records| - 1];
      Undo(Assign(t, r.prefix, r.prevNs), records[..|records| - 1])
  }

  ghost predicate SameTable(t: Table, u: Table) {
    forall p :: Lookup(t, p) == Lookup(u, p)
  }

  lemma AssignLookup(t: Table, prefix: Option<string>, ns: nat)
    ensures forall p :: Lookup(Assign(t, prefix, ns), p) == if p == prefix then ns else Lookup(t, p)
  {
  }

  lemma {:induction false} UndoRespectsLookup(t: Table, u: Table, records: seq<Record>)
    requires SameTable(t, u)
    ensures SameTable(Undo(t, records), Undo(u, records))
    decreases |records|
  {
    if records != [] {
      var r := records[|records| - 1];
      AssignLookup(t, r.prefix, r.prevNs);
      AssignLookup(u, r.prefix, r.prevNs);
      UndoRespectsLookup(Assign(t, r.prefix, r.prevNs), Assign(u, r.prefix, r.prevNs), records[..|records| - 1]);
    }
  }

  /** A new assignment and its undo record cancel out. */
  lemma UndoAssign(t: Table, records: seq<Record>, e: nat, prefix: Option<string>, ns: nat)
    ensures SameTable(Undo(Assign(t, prefix, ns), records + [Record(e, prefix, Lookup(t, prefix))]), Undo(t, records))
  {
    var r := Record(e, prefix, Lookup(t, prefix));
    var more := records + [r];
    assert more[..|more| - 1] == records;
    var back := Assign(Assign(t, prefix, ns), prefix, r.prevNs);
    AssignLookup(t, prefix, ns);
    AssignLookup(Assign(t, prefix, ns), prefix, r.prevNs);
    UndoRespectsLookup(back, t, records);
  }

  // ----- interning of names -----

  /** IDs and names are in bijection and the well-known names have their IDs. */
  ghost predicate Interned(byId: seq<string>, byName: map<string, nat>) {
    && (forall name :: name in byName ==> byName[name] < |byId| && byId[byName[name]] == name)
    && (forall i :: 0 <= i < |byId| ==> byId[i] in byName && byName[byId[i]] == i)
    && |byId| >= 3 && byId[NS_NONE] == "" && byId[NS_XMLNS] == XMLNS_URI && byId[NS_XML] == XML_URI
  }

  /** The table gives the IDs of the namespace names that are in scope. */
  ghost predicate Agrees(byId: seq<string>, t: Table, scopes: seq<seq<Attr>>) {
    forall p :: Lookup(t, p) < |byId| && byId[Lookup(t, p)] == InScope(scopes, p)
  }

  class Namespaces {
    var byId: seq<string>
    var byName: map<string, nat>
    var byPrefix: map<string, nat>
    var default: nat
    var stack: seq<Record>          // the top is at the end
    var nextNode: nat               // nodes are numbered as they are created
    var errors: nat

    ghost predicate Valid()
      reads this
    {
      && Interned(byId, byName)
      && (forall i :: 0 <= i < |stack| ==> stack[i].e < nextNode)
      && (forall i :: 0 <= i < |stack| && stack[i].prefix.Some? ==> stack[i].prefix.value in byPrefix)
    }

    ghost function Tab(): Table
      reads this
    {
      Table(byPrefix, default)
    }

    constructor ()
      ensures Valid() && stack == [] && nextNode == 0 && errors == 0
      ensures Agrees(byId, Tab(), [])
    {
      byId := ["", XMLNS_URI, XML_URI];
      byName := map["" := NS_NONE, XMLNS_URI := NS_XMLNS, XML_URI := NS_XML];
      byPrefix := map["xmlns" := NS_XMLNS, "xml" := NS_XML];
      default, stack, nextNode, errors := 0, [], 0, 0;
      new;
      assert XMLNS_URI[11] == 'w' && |XMLNS_URI| == 29 && |XML_URI| == 36;
    }

    method ByName(name: string) returns (ns: nat)
      requires Valid()
      modifies this`byId, this`byName
      ensures Valid() && old(byId) <= byId
      ensures ns < |byId| && byId[ns] == name
      ensures name in old(byName) ==> byId == old(byId)
    {
      if name !in byName {
        byName := byName[name := |byId|];
        byId := byId + [name];
      }
      ns := byName[name];
    }

    method ById(ns: nat) returns (name: string)
      requires Valid() && ns < |byId|
      ensures name in byName && byName[name] == ns
    {
      name := byId[ns];
    }

    /** Overwrites the entry of a prefix and remembers what was there. */
    method Declare(node: nat, prefix: Option<string>, ns: nat)
      requires Valid() && node < nextNode
      modifies this`byPrefix, this`default, this`stack
      ensures Valid()
      ensures stack == old(stack) + [Record(node, prefix, Lookup(old(Tab()), prefix))]
      ensures Tab() == Assign(old(Tab()), prefix, ns)
    {
      match prefix
      case Some(p) =>
        if p !in byPrefix {
          byPrefix := byPrefix[p := NS_NONE];
        }
        stack := stack + [Record(node, prefix, byPrefix[p])];
        byPrefix := byPrefix[p := ns];
        assert byPrefix == old(byPrefix)[p := ns];
      case None =>
        stack := stack + [Record(node, None, default)];
        default := ns;
    }

    /** One attribute of an element that is being opened. */
    method ScanAttr(node: nat, a: Attr)
      requires Valid() && node < nextNode
      modifies this`byId, this`byName, this`byPrefix, this`default, this`stack, this`errors
      ensures Valid() && old(byId) <= byId && errors == old(errors) + if Faulty(a) then 1 else 0
      ensures Declared(a).None? ==> Tab() == old(Tab()) && stack == old(stack)
      ensures Declared(a).Some? ==>
                var d := Declared(a).value;
                && stack == old(stack) + [Record(node, d.prefix, Lookup(old(Tab()), d.prefix))]
                && exists ns :: Interns(d.uri, ns) && Tab() == Assign(old(Tab()), d.prefix, ns)
    {
      if HasPrefix(a.name, "xmlns") {
        var ns := ByName(a.val);
        assert Interns(a.val, ns);
        if |a.name| > 5 && a.name[5] == ':' {
          assert a.name[..6] == "xmlns:";
          if ns == NS_NONE {
            errors := errors + 1;
          } else if |a.name| > 6 {
            Declare(node, Some(a.name[6..]), ns);
          } else {
            errors := errors + 1;
          }
        } else if |a.name| == 5 {
          assert a.name == "xmlns";
          Declare(node, None, ns);
        }
      }
    }

    ghost predicate Interns(uri: string, ns: nat)
      reads this
    {
      ns < |byId| && byId[ns] == uri
    }

    /** Resolves a name against the table. */
    method Resolve(name: string, defaultNs: nat) returns (ns: nat, local: string, bad: bool)
      requires Valid()
      modifies this`errors
      ensures errors == old(errors) + if bad then 1 else 0
      ensures var k := Colon(name);
              if k == |name| then ns == defaultNs && local == name && !bad
              else
                var id := Lookup(Tab(), Some(name[..k]));
                if id == NS_NONE then ns == NS_NONE && local == name && bad
                else ns == id && local == name[k + 1..] && !bad
    {
      var k := Colon(name);
      if k < |name| {
        var prefix := name[..k];
        if prefix in byPrefix && byPrefix[prefix] != NS_NONE {
          return byPrefix[prefix], name[k + 1..], false;
        }
        errors := errors + 1;
        return NS_NONE, name, true;
      }
      return defaultNs, name, false;
    }

    /** Resolves a name and looks its namespace up. */
    method ExpandName(name: string, defaultNs: nat, ghost scopes: seq<seq<Attr>>) returns (x: Expanded)
      requires Valid() && Agrees(byId, Tab(), scopes) && defaultNs < |byId|
      modifies this`errors
      ensures Valid() && Agrees(byId, Tab(), scopes)
      ensures x == Expand(scopes, name, byId[defaultNs]) && errors == old(errors) + if x.unknownPrefix then 1 else 0
    {
      var ns, local, bad := Resolve(name, defaultNs);
      ghost var p := Some(name[..Colon(name)]);
      assert Lookup(Tab(), p) < |byId| && byId[Lookup(Tab(), p)] == InScope(scopes, p);
      assert InScope(scopes, p) == "" <==> Lookup(Tab(), p) == NS_NONE;
      x := Expanded(byId[ns], local, bad);
    }

    /** Opens an element: its declarations are put into the table and all names are resolved.
        Undoing the new records would give the table before the call. */
    method PushElement(e: Element, ghost scopes: seq<seq<Attr>>) returns (node: nat, tag: Tag)
      requires Valid() && Agrees(byId, Tab(), scopes)
      modifies this
      ensures Valid() && old(byId) <= byId
      ensures node == old(nextNode) && nextNode == old(nextNode) + 1
      ensures errors == old(errors) + Faults(e.attrs) + Unknown([tag.name] + tag.attrs)
      ensures Agrees(byId, Tab(), scopes + [e.attrs])
      ensures tag == ExpandTag(scopes + [e.attrs], e) && IsTag(scopes + [e.attrs], e, tag)
      ensures old(stack) <= stack && forall i :: |old(stack)| <= i < |stack| ==> stack[i].e == node
      ensures SameTable(Undo(Tab(), stack[|old(stack)|..]), old(Tab()))
    {
      hide Agrees, SameTable, Undo, ExpandTag, IsTag;
      TagIs(scopes + [e.attrs], e);
      node := nextNode;
      nextNode := nextNode + 1;
      ScanAttrs(node, e.attrs, scopes);
      tag := ExpandElement(e, scopes + [e.attrs]);
    }

    /** Resolves the names of an element and its attributes. */
    method ExpandElement(e: Element, ghost scopes: seq<seq<Attr>>) returns (tag: Tag)
      requires Valid() && Agrees(byId, Tab(), scopes)
      modifies this`errors
      ensures tag == ExpandTag(scopes, e) && errors == old(errors) + Unknown([tag.name] + tag.attrs)
    {
      DefaultInScope(byId, Tab(), scopes);
      assert NS_NONE < |byId| && byId[NS_NONE] == "";
      hide Valid, Tab, Agrees, Expand, InScope, Unknown, ExpandTag, Expanding;
      var name := ExpandName(e.name, default, scopes);
      var all := [name];
      ghost var bad := errors - old(errors);
      ExpandingName(scopes, e, name);
      for i := 0 to |e.attrs|
        invariant Valid() && Agrees(byId, Tab(), scopes)
        invariant Expanding(scopes, e, i, all, bad) && errors == old(errors) + bad
      {
        var x := ExpandName(e.attrs[i].name, NS_NONE, scopes);
        ExpandingMore(scopes, e, i, all, bad, x);
        all := all + [x];
        bad := errors - old(errors);
      }
      ExpandingAll(scopes, e, all, bad);
      tag := Tag(all[0], all[1..]);
    }

    method ScanAttrs(node: nat, attrs: seq<Attr>, ghost scopes: seq<seq<Attr>>)
      requires Valid() && Agrees(byId, Tab(), scopes) && node < nextNode
      modifies this`byId, this`byName, this`byPrefix, this`default, this`stack, this`errors
      ensures Valid() && old(byId) <= byId
      ensures Agrees(byId, Tab(), scopes + [attrs]) && errors == old(errors) + Faults(attrs)
      ensures old(stack) <= stack && forall i :: |old(stack)| <= i < |stack| ==> stack[i].e == node
      ensures SameTable(Undo(Tab(), stack[|old(stack)|..]), old(Tab()))
    {
      hide Agrees, SameTable, Undo;
      ghost var t0, n := Tab(), |stack|;
      assert attrs[..0] == [];
      EmptyScope(byId, Tab(), scopes);
      NothingToUndo(Tab(), stack[n..]);
      for k := 0 to |attrs|
        invariant Valid() && old(byId) <= byId && node < nextNode
        invariant old(stack) <= stack && Scanning(scopes, attrs[..k], node, n, t0)
        invariant errors == old(errors) + Faults(attrs[..k])
      {
        assert attrs[..k + 1] == attrs[..k] + [attrs[k]];
        FaultsMore(attrs[..k], attrs[k]);
        ScanOne(node, attrs[k], scopes, attrs[..k], n, t0);
      }
      assert attrs[..|attrs|] == attrs;
    }

    /** Some attributes of an element have been scanned, which made the records from n on. */
    ghost predicate Scanning(scopes: seq<seq<Attr>>, scanned: seq<Attr>, node: nat, n: nat, t0: Table)
      reads this
    {
      && n <= |stack| && (forall i :: n <= i < |stack| ==> stack[i].e == node)
      && Agrees(byId, Tab(), scopes + [scanned])
      && SameTable(Undo(Tab(), stack[n..]), t0)
    }

    method ScanOne(node: nat, a: Attr, ghost scopes: seq<seq<Attr>>, ghost scanned: seq<Attr>, ghost n: nat,
                   ghost t0: Table)
      requires Valid() && node < nextNode && Scanning(scopes, scanned, node, n, t0)
      modifies this`byId, this`byName, this`byPrefix, this`default, this`stack, this`errors
      ensures Valid() && old(byId) <= byId && old(stack) <= stack && errors == old(errors) + if Faulty(a) then 1 else 0
      ensures Scanning(scopes, scanned + [a], node, n, t0)
    {
      hide Agrees, SameTable, Undo, InScope;
      ghost var t, records, byId0 := Tab(), stack[n..], byId;
      ScanAttr(node, a);
      if Declared(a).Some? {
        ghost var d := Declared(a).value;
        ghost var ns :| Interns(d.uri, ns) && Tab() == Assign(t, d.prefix, ns);
        UndoAssign(t, records, node, d.prefix, ns);
        assert stack[n..] == records + [Record(node, d.prefix, Lookup(t, d.prefix))];
        SameTwice(Undo(Tab(), stack[n..]), Undo(t, records), t0);
        DeclaredScope(byId0, byId, t, scopes, scanned, a, ns);
      } else {
        UndeclaredScope(byId0, byId, t, scopes, scanned, a);
      }
    }

    /** Closes an element: the records it made, all on top of the stack, are undone. */
    method PopElement(node: nat, ghost n: nat)
      requires Valid() && n <= |stack|
      requires forall i :: n <= i < |stack| ==> stack[i].e == node
      requires forall i :: 0 <= i < n ==> stack[i].e != node
      modifies this`byPrefix, this`default, this`stack
      ensures Valid()
      ensures stack == old(stack)[..n]
      ensures Tab() == Undo(old(Tab()), old(stack)[n..])
    {
      ghost var t, s := Tab(), stack;
      while stack != [] && stack[|stack| - 1].e == node
        invariant Valid() && n <= |stack| && stack == s[..|stack|]
        invariant Undo(Tab(), stack[n..]) == Undo(t, s[n..])
        decreases |stack|
      {
        var px := stack[|stack| - 1];
        match px.prefix {
          case Some(p) => byPrefix := byPrefix[p := px.prevNs];
          case None => default := px.prevNs;
        }
        ghost var records := stack[n..];
        stack := stack[..|stack| - 1];
        assert records[|records| - 1] == px && records[..|records| - 1] == stack[n..];
      }
    }

    /** Processes the tags of a tree. Every name gets the namespace of the nearest enclosing
        declaration, and afterwards the table and the stack are as they were. */
    method Process(e: Element, ghost scopes: seq<seq<Attr>>) returns (tags: seq<Tag>)
      requires Valid() && Agrees(byId, Tab(), scopes)
      modifies this
      ensures Valid() && old(byId) <= byId
      ensures tags == Scoped(scopes, e) && AreTags(scopes, e, tags)
      ensures stack == old(stack) && SameTable(Tab(), old(Tab())) && old(nextNode) <= nextNode
      decreases e, 0
    {
      hide AreTags, IsTag;
      ScopedAre(scopes, e);
      ghost var n := |stack|;
      var node, tag := PushElement(e, scopes);
      ghost var t := Tab();
      var inner := ProcessAll(e.sons, scopes + [e.attrs]);
      UndoRespectsLookup(Tab(), t, stack[n..]);
      PopElement(node, n);
      tags := [tag] + inner;
    }

    method ProcessAll(es: seq<Element>, ghost scopes: seq<seq<Attr>>) returns (tags: seq<Tag>)
      requires Valid() && Agrees(byId, Tab(), scopes)
      modifies this
      ensures Valid() && old(byId) <= byId
      ensures tags == ScopedAll(scopes, es)
      ensures stack == old(stack) && SameTable(Tab(), old(Tab())) && old(nextNode) <= nextNode
      decreases es, 0
    {
      if es == [] {
        return [];
      }
      var first := Process(es[0], scopes);
      StillAgrees(old(byId), byId, old(Tab()), Tab(), scopes);
      var others := ProcessAll(es[1..], scopes);
      tags := first + others;
    }
  }

  lemma FaultsMore(attrs: seq<Attr>, a: Attr)
    ensures Faults(attrs + [a]) == Faults(attrs) + if Faulty(a) then 1 else 0
  {
    assert (attrs + [a])[..|attrs|] == attrs;
  }

  lemma UnknownMore(xs: seq<Expanded>, x: Expanded)
    ensures Unknown(xs + [x]) == Unknown(xs) + if x.unknownPrefix then 1 else 0
  {
    assert (xs + [x])[..|xs|] == xs;
  }

  // ----- expanding the names of an element -----

  /** The names of an element and of its first n attributes are expanded, with `bad` unknown prefixes. */
  ghost predicate Expanding(scopes: seq<seq<Attr>>, e: Element, n: nat, all: seq<Expanded>, bad: int) {
    && n <= |e.attrs| && |all| == n + 1 && bad == Unknown(all)
    && all[0] == Expand(scopes, e.name, InScope(scopes, None))
    && forall i :: 0 <= i < n ==> all[i + 1] == Expand(scopes, e.attrs[i].name, "")
  }

  lemma ExpandingName(scopes: seq<seq<Attr>>, e: Element, name: Expanded)
    requires name == Expand(scopes, e.name, InScope(scopes, None))
    ensures Expanding(scopes, e, 0, [name], if name.unknownPrefix then 1 else 0)
  {
    hide Expand, InScope;
    UnknownMore([], name);
    assert [] + [name] == [name];
  }

  lemma ExpandingMore(scopes: seq<seq<Attr>>, e: Element, n: nat, all: seq<Expanded>, bad: int, x: Expanded)
    requires Expanding(scopes, e, n, all, bad) && n < |e.attrs| && x == Expand(scopes, e.attrs[n].name, "")
    ensures Expanding(scopes, e, n + 1, all + [x], bad + if x.unknownPrefix then 1 else 0)
  {
    hide Expand, InScope, Unknown;
    UnknownMore(all, x);
  }

  lemma ExpandingAll(scopes: seq<seq<Attr>>, e: Element, all: seq<Expanded>, bad: int)
    requires Expanding(scopes, e, |e.attrs|, all, bad)
    ensures |all| == |e.attrs| + 1
    ensures var tag := Tag(all[0], all[1..]); tag == ExpandTag(scopes, e) && bad == Unknown([tag.name] + tag.attrs)
  {
    hide Expand, InScope, Unknown;
    assert all[1..] == ExpandTag(scopes, e).attrs;
    assert [all[0]] + all[1..] == all;
  }

  // ----- how scopes and tables change together -----

  lemma EmptyScope(byId: seq<string>, t: Table, scopes: seq<seq<Attr>>)
    requires Agrees(byId, t, scopes)
    ensures Agrees(byId, t, scopes + [[]])
  {
    forall p
      ensures InScope(scopes + [[]], p) == InScope(scopes, p)
    {
      InScopeSplit(scopes, [], p);
    }
  }

  lemma InScopeSplit(scopes: seq<seq<Attr>>, attrs: seq<Attr>, p: Option<string>)
    ensures InScope(scopes + [attrs], p) ==
            if LastDeclared(attrs, p).Some? then LastDeclared(attrs, p).value else InScope(scopes, p)
  {
    var inner := scopes + [attrs];
    assert inner[..|inner| - 1] == scopes;
  }

  lemma InScopeStep(scopes: seq<seq<Attr>>, attrs: seq<Attr>, a: Attr, p: Option<string>)
    ensures InScope(scopes + [attrs + [a]], p) ==
            if Declared(a).Some? && Declared(a).value.prefix == p then Declared(a).value.uri
            else InScope(scopes + [attrs], p)
  {
    var more := attrs + [a];
    assert more[..|more| - 1] == attrs;
    InScopeSplit(scopes, attrs, p);
    InScopeSplit(scopes, more, p);
  }

  lemma DeclaredScope(byId: seq<string>, byId': seq<string>, t: Table, scopes: seq<seq<Attr>>, attrs: seq<Attr>,
                      a: Attr, ns: nat)
    requires Agrees(byId, t, scopes + [attrs]) && byId <= byId' && Declared(a).Some?
    requires ns < |byId'| && byId'[ns] == Declared(a).value.uri
    ensures Agrees(byId', Assign(t, Declared(a).value.prefix, ns), scopes + [attrs + [a]])
  {
    AssignLookup(t, Declared(a).value.prefix, ns);
    forall p
      ensures var id := Lookup(Assign(t, Declared(a).value.prefix, ns), p);
              id < |byId'| && byId'[id] == InScope(scopes + [attrs + [a]], p)
    {
      InScopeStep(scopes, attrs, a, p);
      assert Lookup(t, p) < |byId|;
    }
  }

  lemma UndeclaredScope(byId: seq<string>, byId': seq<string>, t: Table, scopes: seq<seq<Attr>>, attrs: seq<Attr>,
                        a: Attr)
    requires Agrees(byId, t, scopes + [attrs]) && byId <= byId' && Declared(a).None?
    ensures Agrees(byId', t, scopes + [attrs + [a]])
  {
    forall p
      ensures Lookup(t, p) < |byId'| && byId'[Lookup(t, p)] == InScope(scopes + [attrs + [a]], p)
    {
      InScopeStep(scopes, attrs, a, p);
      assert Lookup(t, p) < |byId|;
    }
  }

  lemma StillAgrees(byId: seq<string>, byId': seq<string>, t: Table, t': Table, scopes: seq<seq<Attr>>)
    requires Agrees(byId, t, scopes) && byId <= byId' && SameTable(t, t')
    ensures Agrees(byId', t', scopes)
  {
    forall p
      ensures Lookup(t', p) < |byId'| && byId'[Lookup(t', p)] == InScope(scopes, p)
    {
      assert Lookup(t, p) == Lookup(t', p) < |byId|;
    }
  }

  lemma DefaultInScope(byId: seq<string>, t: Table, scopes: seq<seq<Attr>>)
    requires Agrees(byId, t, scopes)
    ensures t.default < |byId| && byId[t.default] == InScope(scopes, None)
  {
    assert Lookup(t, None) == t.default;
  }

  lemma SameTwice(t: Table, u: Table, v: Table)
    requires SameTable(t, u) && SameTable(u, v)
    ensures SameTable(t, v)
  {
  }

  lemma NothingToUndo(t: Table, records: seq<Record>)
    requires records == []
    ensures SameTable(Undo(t, records), t)
  {
  }
}
