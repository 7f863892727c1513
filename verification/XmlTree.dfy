/**
 Well-formed documents as trees: the lexical items of a tree are read without a fatal error,
 and their events are those of a walk through the tree.
 */
module XmlTree {
  import opened Basics
  import opened XmlEvents
  import XmlPull

  /** A node of a well-formed document; `Ref` is an entity whose replacement text is well-formed. */
  datatype Node =
    | Element(name: string, kids: seq<Node>)
    | EmptyElement(name: string)
    | TextNode(s: string)
    | CDataNode(s: string)
    | PI(s: string)
    | Comment(s: string)
    | Ref(kids: seq<Node>)

  /** The lexical items a node is written as. */
  function Written(n: Node): seq<Piece> {
    match n
    case Element(name, kids) => [STag(name, false)] + WrittenAll(kids) + [ETag(name)]
    case EmptyElement(name) => [STag(name, true)]
    case TextNode(s) => [Text(s)]
    case CDataNode(s) => [CData(s)]
    case PI(s) => [Piece.PI(s)]
    case Comment(s) => [Piece.Comment(s)]
    case Ref(kids) => [EntityRef(WrittenAll(kids))]
  }

  function WrittenAll(ns: seq<Node>): seq<Piece> {
    if ns == [] then [] else Written(ns[0]) + WrittenAll(ns[1..])
  }

  /** Events so far and the character data that waits for the next markup. */
  datatype Walked = Walked(events: seq<Event>, text: string)

  /** The walk through a node, with character data `text` already collected. */
  function Walk(cfg: Config, n: Node, text: string): Walked {
    match n
    case Element(name, kids) =>
      var inner := WalkAll(cfg, kids, "");
      Walked(Flush(cfg, text) + [Start(name)] + inner.events + Flush(cfg, inner.text) + [Stop(name)], "")
    case EmptyElement(name) => Walked(Flush(cfg, text) + [Start(name), Stop(name)], "")
    case TextNode(s) => Walked([], text + s)
    case CDataNode(s) => Walked([], text + s)
    case PI(s) =>
      if cfg.reportPis || cfg.allocPis then Walked(Flush(cfg, text) + [PINode(s)], "") else Walked([], text)
    case Comment(s) =>
      if cfg.reportComments || cfg.allocComments then Walked(Flush(cfg, text) + [CommentNode(s)], "")
      else Walked([], text)
    case Ref(kids) => WalkAll(cfg, kids, text)
  }

  function WalkAll(cfg: Config, ns: seq<Node>, text: string): Walked {
    if ns == [] then Walked([], text)
    else
      var w := Walk(cfg, ns[0], text);
      var v := WalkAll(cfg, ns[1..], w.text);
      Walked(w.events + v.events, v.text)
  }

  lemma {:induction false} FlatConcat(a: seq<Piece>, b: seq<Piece>)
    ensures Flat(a + b) == Flat(a) + Flat(b)
  {
    hide FlatPiece;
    if a == [] {
      assert a + b == b;
    } else {
      FlatConcat(a[1..], b);
      assert (a + b)[0] == a[0] && (a + b)[1..] == a[1..] + b;
      Assoc(FlatPiece(a[0]), Flat(a[1..]), Flat(b));
    }
  }

  lemma FlatOne(p: Piece)
    ensures Flat([p]) == FlatPiece(p)
  {
    assert [p][1..] == [];
    assert FlatPiece(p) + Flat([]) == FlatPiece(p);
  }

  lemma ThenThen(a: seq<Event>, b: seq<Event>, t: Trace)
    ensures Then(a, Then(b, t)) == Then(a + b, t)
  {
    assert a + (b + t.events) == a + b + t.events;
  }

  /** A well-formed node inside of an element: its events are reported and whatever is open
      stays open. */
  lemma {:induction false} NodeRead(cfg: Config, n: Node, rest: seq<Item>, text: string, open: seq<Level>)
    requires open != []
    ensures var w := Walk(cfg, n, text);
            Content(cfg, Flat(Written(n)) + rest, text, open) == Then(w.events, Content(cfg, rest, w.text, open))
    decreases n, 3
  {
    match n
    case Element(name, kids) => ElementRead(cfg, n, rest, text, open);
    case Ref(kids) => RefRead(cfg, n, rest, text, open);
    case EmptyElement(name) =>
      FlatOne(STag(name, true));
      XmlPull.ContentStep(cfg, Plain(STag(name, true)), rest, text, open);
      XmlPull.OpenTail(name, open);
      ThenThen(Flush(cfg, text) + [Start(name)], [Stop(name)], Content(cfg, rest, "", open));
      Assoc(Flush(cfg, text), [Start(name)], [Stop(name)]);
      assert [Start(name)] + [Stop(name)] == [Start(name), Stop(name)];
    case TextNode(s) =>
      FlatOne(Text(s));
      XmlPull.ContentStep(cfg, Plain(Text(s)), rest, text, open);
    case CDataNode(s) =>
      FlatOne(CData(s));
      XmlPull.ContentStep(cfg, Plain(CData(s)), rest, text, open);
    case PI(s) =>
      FlatOne(Piece.PI(s));
      XmlPull.ContentStep(cfg, Plain(Piece.PI(s)), rest, text, open);
    case Comment(s) =>
      FlatOne(Piece.Comment(s));
      XmlPull.ContentStep(cfg, Plain(Piece.Comment(s)), rest, text, open);
  }

  /** The same for all the children of a node. */
  lemma {:induction false} NodesRead(cfg: Config, ns: seq<Node>, rest: seq<Item>, text: string, open: seq<Level>)
    requires open != []
    ensures var w := WalkAll(cfg, ns, text);
            Content(cfg, Flat(WrittenAll(ns)) + rest, text, open) == Then(w.events, Content(cfg, rest, w.text, open))
    decreases ns, 4
  {
    hide Content;
    if ns == [] {
      assert Flat([]) + rest == rest;
    } else {
      var w := Walk(cfg, ns[0], text);
      FlatConcat(Written(ns[0]), WrittenAll(ns[1..]));
      Assoc(Flat(Written(ns[0])), Flat(WrittenAll(ns[1..])), rest);
      NodeRead(cfg, ns[0], Flat(WrittenAll(ns[1..])) + rest, text, open);
      NodesRead(cfg, ns[1..], rest, w.text, open);
      var v := WalkAll(cfg, ns[1..], w.text);
      ThenThen(w.events, v.events, Content(cfg, rest, v.text, open));
    }
  }

  lemma {:induction false} ElementRead(cfg: Config, n: Node, rest: seq<Item>, text: string, open: seq<Level>)
    requires n.Element? && open != []
    ensures var w := Walk(cfg, n, text);
            Content(cfg, Flat(Written(n)) + rest, text, open) == Then(w.events, Content(cfg, rest, w.text, open))
    decreases n, 2
  {
    hide Content, Flat, WalkAll;
    RootRead(cfg, n, rest, text, open);
    XmlPull.OpenTail(n.name, open);
  }

  /** An element, also the root element: after it, whatever follows the end of an element. */
  lemma {:induction false} RootRead(cfg: Config, n: Node, rest: seq<Item>, text: string, open: seq<Level>)
    requires n.Element?
    ensures var w := Walk(cfg, n, text);
            Content(cfg, Flat(Written(n)) + rest, text, open) ==
                Then(w.events, Closed(cfg, rest, [Elem(n.name)] + open))
    decreases n, 1
  {
    hide Content, Flat, WalkAll, Closed, Flush;
    var name, kids := n.name, n.kids;
    var inner := WalkAll(cfg, kids, "");
    var inside := [Elem(name)] + open;
    var after := [Plain(ETag(name))] + rest;
    WrittenElement(n, rest);
    XmlPull.ContentStep(cfg, Plain(STag(name, false)), Flat(WrittenAll(kids)) + after, text, open);
    NodesRead(cfg, kids, after, "", inside);
    XmlPull.ContentStep(cfg, Plain(ETag(name)), rest, inner.text, inside);
    var f, g, t := Flush(cfg, text) + [Start(name)], Flush(cfg, inner.text) + [Stop(name)], Closed(cfg, rest, inside);
    ThenThen(inner.events, g, t);
    ThenThen(f, inner.events + g, t);
    Assoc(f + inner.events, Flush(cfg, inner.text), [Stop(name)]);
    Assoc(f, inner.events, g);
  }

  lemma WrittenElement(n: Node, rest: seq<Item>)
    requires n.Element?
    ensures Flat(Written(n)) + rest ==
            [Plain(STag(n.name, false))] + (Flat(WrittenAll(n.kids)) + ([Plain(ETag(n.name))] + rest))
  {
    var s, k, e := [STag(n.name, false)], WrittenAll(n.kids), [ETag(n.name)];
    FlatConcat(s + k, e);
    FlatConcat(s, k);
    FlatOne(STag(n.name, false));
    FlatOne(ETag(n.name));
  }

  lemma {:induction false} RefRead(cfg: Config, n: Node, rest: seq<Item>, text: string, open: seq<Level>)
    requires n.Ref? && open != []
    ensures var w := Walk(cfg, n, text);
            Content(cfg, Flat(Written(n)) + rest, text, open) == Then(w.events, Content(cfg, rest, w.text, open))
    decreases n, 1
  {
    hide Content, WalkAll;
    var inside := Flat(WrittenAll(n.kids));
    var w := WalkAll(cfg, n.kids, text);
    FlatOne(EntityRef(WrittenAll(n.kids)));
    assert Flat(Written(n)) + rest == [Enter] + (inside + ([Leave] + rest));
    XmlPull.ContentStep(cfg, Enter, inside + ([Leave] + rest), text, open);
    NodesRead(cfg, n.kids, [Leave] + rest, text, [Entity] + open);
    XmlPull.ContentStep(cfg, Leave, rest, w.text, [Entity] + open);
    assert ([Entity] + open)[1..] == open;
  }

  /** An end tag inside of an entity in which no element is open is first reported as the end of the
      innermost element, and the fatal error follows. */
  lemma EndTagInEntity(cfg: Config, name: string, rest: seq<Item>, text: string, open: seq<Level>)
    ensures Content(cfg, [Plain(ETag(name))] + rest, text, [Entity] + open) ==
            Trace(Flush(cfg, text) + [Stop(Innermost(open))], FatalError)
  {
    hide Content;
    XmlPull.ContentStep(cfg, Plain(ETag(name)), rest, text, [Entity] + open);
    assert ([Entity] + open)[1..] == open;
    assert Innermost([Entity] + open) == Innermost(open);
  }

  // ----- whole documents -----

  type White = s: string | IsWhite(s)

  /** What may stand around the root element. */
  datatype Misc = Space(white: White) | Instruction(s: string) | Remark(s: string)

  type Root = n: Node | n.Element? || n.EmptyElement? witness EmptyElement("")

  /** A well-formed document after its declaration; `doctype` is what follows a document type
      declaration, if there is one. */
  datatype Doc = Doc(before: seq<Misc>, doctype: Option<seq<Misc>>, root: Root, after: seq<Misc>)

  function MiscPiece(m: Misc): (p: Piece)
    ensures !p.EntityRef?
  {
    match m
    case Space(s) => Text(s)
    case Instruction(s) => Piece.PI(s)
    case Remark(s) => Piece.Comment(s)
  }

  function MiscPieces(ms: seq<Misc>): seq<Piece> {
    if ms == [] then [] else [MiscPiece(ms[0])] + MiscPieces(ms[1..])
  }

  function DoctypePieces(doctype: Option<seq<Misc>>): seq<Piece> {
    match doctype
    case None => []
    case Some(ms) => [Doctype] + MiscPieces(ms)
  }

  function WrittenDoc(d: Doc): seq<Piece> {
    MiscPieces(d.before) + (DoctypePieces(d.doctype) + (Written(d.root) + MiscPieces(d.after)))
  }

  /** Around the root element, instructions and comments are events only if they are reported. */
  function MiscEvent(cfg: Config, m: Misc): seq<Event> {
    match m
    case Space(_) => []
    case Instruction(s) => if cfg.reportPis then [PINode(s)] else []
    case Remark(s) => if cfg.reportComments then [CommentNode(s)] else []
  }

  function MiscEvents(cfg: Config, ms: seq<Misc>): seq<Event> {
    if ms == [] then [] else MiscEvent(cfg, ms[0]) + MiscEvents(cfg, ms[1..])
  }

  function DoctypeEvents(cfg: Config, doctype: Option<seq<Misc>>): seq<Event> {
    match doctype
    case None => []
    case Some(ms) => [DoctypeDecl] + MiscEvents(cfg, ms)
  }

  /** The walk through a document. */
  function WalkDoc(cfg: Config, d: Doc): seq<Event> {
    MiscEvents(cfg, d.before)
    + (DoctypeEvents(cfg, d.doctype) + (Walk(cfg, d.root, "").events + MiscEvents(cfg, d.after)))
  }

  lemma FlatMisc(ms: seq<Misc>, rest: seq<Item>)
    requires ms != []
    ensures Flat(MiscPieces(ms)) + rest == [Plain(MiscPiece(ms[0]))] + (Flat(MiscPieces(ms[1..])) + rest)
  {
    assert MiscPieces(ms)[1..] == MiscPieces(ms[1..]);
  }

  lemma {:induction false} PrologMisc(cfg: Config, ms: seq<Misc>, rest: seq<Item>, doctype: bool)
    ensures Prolog(cfg, Flat(MiscPieces(ms)) + rest, doctype) ==
            Then(MiscEvents(cfg, ms), Prolog(cfg, rest, doctype))
  {
    if ms == [] {
      assert Flat([]) + rest == rest;
    } else {
      var tail := Flat(MiscPieces(ms[1..])) + rest;
      FlatMisc(ms, rest);
      assert ([Plain(MiscPiece(ms[0]))] + tail)[1..] == tail;
      PrologMisc(cfg, ms[1..], rest, doctype);
      hide Flat, MiscPieces;
      ThenThen(MiscEvent(cfg, ms[0]), MiscEvents(cfg, ms[1..]), Prolog(cfg, rest, doctype));
      assert Prolog(cfg, [Plain(MiscPiece(ms[0]))] + tail, doctype)
          == Then(MiscEvent(cfg, ms[0]), Prolog(cfg, tail, doctype));
    }
  }

  lemma {:induction false} EpilogMisc(cfg: Config, ms: seq<Misc>)
    ensures Epilog(cfg, Flat(MiscPieces(ms))) == Trace(MiscEvents(cfg, ms), Complete)
  {
    if ms != [] {
      var tail := Flat(MiscPieces(ms[1..]));
      FlatMisc(ms, []);
      assert Flat(MiscPieces(ms)) == [Plain(MiscPiece(ms[0]))] + tail;
      assert ([Plain(MiscPiece(ms[0]))] + tail)[1..] == tail;
      EpilogMisc(cfg, ms[1..]);
      hide Flat, MiscPieces;
      assert Epilog(cfg, [Plain(MiscPiece(ms[0]))] + tail) == Then(MiscEvent(cfg, ms[0]), Epilog(cfg, tail));
    }
  }

  lemma DoctypeStep(cfg: Config, tail: seq<Item>)
    ensures Prolog(cfg, [Plain(Doctype)] + tail, false) == Then([DoctypeDecl], Prolog(cfg, tail, true))
  {
    assert ([Plain(Doctype)] + tail)[1..] == tail;
  }

  lemma PrologDoctype(cfg: Config, doctype: Option<seq<Misc>>, rest: seq<Item>)
    ensures Prolog(cfg, Flat(DoctypePieces(doctype)) + rest, false) ==
            Then(DoctypeEvents(cfg, doctype), Prolog(cfg, rest, doctype.Some?))
  {
    hide Prolog, Flat;
    if doctype.None? {
      assert Flat([]) + rest == rest by { NoItems(); }
    } else {
      var ms := doctype.value;
      FlatConcat([Doctype], MiscPieces(ms));
      FlatOne(Doctype);
      Assoc([Plain(Doctype)], Flat(MiscPieces(ms)), rest);
      DoctypeStep(cfg, Flat(MiscPieces(ms)) + rest);
      PrologMisc(cfg, ms, rest, true);
      ThenThen([DoctypeDecl], MiscEvents(cfg, ms), Prolog(cfg, rest, true));
    }
  }

  lemma NoItems()
    ensures Flat([]) == []
  {
  }

  /** The root element, in either form, ends the prolog, and after it comes the epilog. */
  lemma PrologRoot(cfg: Config, root: Root, rest: seq<Item>, doctype: bool)
    ensures Prolog(cfg, Flat(Written(root)) + rest, doctype) ==
            Then(Walk(cfg, root, "").events, Epilog(cfg, rest))
  {
    hide Content, Walk, WalkAll, Epilog;
    assert [Elem(root.name)] + [] == [Elem(root.name)];
    if root.Element? {
      WrittenElement(root, rest);
      RootRead(cfg, root, rest, "", []);
    } else {
      EmptyRoot(cfg, root.name, rest);
    }
  }

  lemma EmptyRoot(cfg: Config, name: string, rest: seq<Item>)
    ensures Flat(Written(EmptyElement(name))) + rest == [Plain(STag(name, true))] + rest
    ensures Content(cfg, [Plain(STag(name, true))] + rest, "", []) ==
            Then(Walk(cfg, EmptyElement(name), "").events, Epilog(cfg, rest))
  {
    FlatOne(STag(name, true));
    assert ([Plain(STag(name, true))] + rest)[1..] == rest;
    assert [Elem(name)] + [] == [Elem(name)];
  }

  /** A well-formed document has the events of the walk through it and ends well. */
  lemma DocumentRead(cfg: Config, d: Doc)
    ensures Document(cfg, true, WrittenDoc(d)) == Trace([XmlDecl] + WalkDoc(cfg, d), Complete)
  {
    hide Content, Prolog, Epilog, Flat, Written, Walk, MiscPieces, MiscEvents, DoctypePieces, DoctypeEvents;
    var b, t, r, e := MiscPieces(d.before), DoctypePieces(d.doctype), Written(d.root), MiscPieces(d.after);
    FlatConcat(b, t + (r + e));
    FlatConcat(t, r + e);
    FlatConcat(r, e);
    PrologMisc(cfg, d.before, Flat(t) + (Flat(r) + Flat(e)), false);
    PrologDoctype(cfg, d.doctype, Flat(r) + Flat(e));
    PrologRoot(cfg, d.root, Flat(e), d.doctype.Some?);
    EpilogMisc(cfg, d.after);
  }

  /** The parser, called with any masks on any well-formed document, stops at the events of the
      walk that the masks let through. */
  method PullTree(cfg: Config, d: Doc, masks: seq<set<Kind>>) returns (stops: seq<Event>, end: XmlPull.Outcome)
    ensures stops == Stops([XmlDecl] + WalkDoc(cfg, d), masks)
    ensures end.Stopped? || end == XmlPull.Finished
  {
    stops, end := XmlPull.PullAll(cfg, true, WrittenDoc(d), masks);
    DocumentRead(cfg, d);
  }

  // ----- the failed assertion -----

  /** An end tag stands where the root element should. */
  ghost predicate EndTagFirst(ps: seq<Piece>, before: seq<Misc>, doctype: Option<seq<Misc>>, name: string,
                              rest: seq<Piece>)
  {
    ps == MiscPieces(before) + (DoctypePieces(doctype) + ([ETag(name)] + rest))
  }

  lemma EndTagFails(cfg: Config, before: seq<Misc>, doctype: Option<seq<Misc>>, name: string, rest: seq<Piece>)
    ensures var ps := MiscPieces(before) + (DoctypePieces(doctype) + ([ETag(name)] + rest));
            Document(cfg, true, ps).end == AssertionFailed
  {
    hide Flat, MiscPieces, DoctypePieces, MiscEvents, DoctypeEvents;
    var b, t, e := MiscPieces(before), DoctypePieces(doctype), [ETag(name)] + rest;
    FlatConcat(b, t + e);
    FlatConcat(t, e);
    FlatConcat([ETag(name)], rest);
    FlatOne(ETag(name));
    PrologMisc(cfg, before, Flat(t) + Flat(e), false);
    PrologDoctype(cfg, doctype, Flat(e));
  }

  /** Within the root element and after it no assertion fails. */
  lemma {:induction false} EpilogAsserts(cfg: Config, items: seq<Item>)
    ensures Epilog(cfg, items).end != AssertionFailed
  {
    if items != [] {
      EpilogAsserts(cfg, items[1..]);
    }
  }

  lemma {:induction false} ContentAsserts(cfg: Config, items: seq<Item>, text: string, open: seq<Level>)
    ensures Content(cfg, items, text, open).end != AssertionFailed
    decreases |items|, 1
  {
    if items != [] {
      var rest := items[1..];
      match items[0]
      case Enter => ContentAsserts(cfg, rest, text, [Entity] + open);
      case Leave =>
        if open != [] {
          ContentAsserts(cfg, rest, text, open[1..]);
        }
      case Plain(p) =>
        match p
        case Text(s) => ContentAsserts(cfg, rest, text + s, open);
        case CData(s) => ContentAsserts(cfg, rest, text + s, open);
        case STag(name, empty) =>
          ClosedAsserts(cfg, rest, [Elem(name)] + open);
          ContentAsserts(cfg, rest, "", [Elem(name)] + open);
        case ETag(_) => ClosedAsserts(cfg, rest, open);
        case _ =>
          ContentAsserts(cfg, rest, text, open);
          ContentAsserts(cfg, rest, "", open);
    }
  }

  lemma {:induction false} ClosedAsserts(cfg: Config, items: seq<Item>, open: seq<Level>)
    ensures Closed(cfg, items, open).end != AssertionFailed
    decreases |items|, 2
  {
    EpilogAsserts(cfg, items);
    if open != [] {
      ContentAsserts(cfg, items, "", open[1..]);
    }
  }

  lemma MiscFirst(m: Misc, ps: seq<Piece>, before: seq<Misc>, doctype: Option<seq<Misc>>, name: string,
                  rest: seq<Piece>)
    requires EndTagFirst(ps, before, doctype, name, rest)
    ensures EndTagFirst([MiscPiece(m)] + ps, [m] + before, doctype, name, rest)
  {
    assert ([m] + before)[1..] == before;
    Assoc([MiscPiece(m)], MiscPieces(before), DoctypePieces(doctype) + ([ETag(name)] + rest));
  }

  lemma DoctypeFirst(ps: seq<Piece>, before: seq<Misc>, name: string, rest: seq<Piece>)
    requires EndTagFirst(ps, before, None, name, rest)
    ensures EndTagFirst([Doctype] + ps, [], Some(before), name, rest)
  {
    var tail := [ETag(name)] + rest;
    assert [] + tail == tail && ps == MiscPieces(before) + tail;
    Assoc([Doctype], MiscPieces(before), tail);
    assert [] + (DoctypePieces(Some(before)) + tail) == DoctypePieces(Some(before)) + tail;
  }

  /** The first of the items decides how the prolog goes on. */
  lemma FirstPiece(cfg: Config, ps: seq<Piece>, doctype: bool)
    requires ps != [] && Prolog(cfg, Flat(ps), doctype).end == AssertionFailed
    ensures match ps[0]
            case Text(s) => IsWhite(s) && Prolog(cfg, Flat(ps[1..]), doctype).end == AssertionFailed
            case PI(_) => Prolog(cfg, Flat(ps[1..]), doctype).end == AssertionFailed
            case Comment(_) => Prolog(cfg, Flat(ps[1..]), doctype).end == AssertionFailed
            case Doctype => !doctype && Prolog(cfg, Flat(ps[1..]), true).end == AssertionFailed
            case ETag(_) => true
            case _ => false
  {
    hide Content;
    var items := Flat(ps);
    assert !ps[0].EntityRef? ==> items[0] == Plain(ps[0]) && items[1..] == Flat(ps[1..]);
    ContentAsserts(cfg, items, "", []);
  }

  /** Where an assertion fails before the root element, an end tag stands in its place. */
  lemma {:induction false} PrologAsserts(cfg: Config, ps: seq<Piece>, doctype: bool)
    returns (before: seq<Misc>, after: Option<seq<Misc>>, name: string, rest: seq<Piece>)
    requires Prolog(cfg, Flat(ps), doctype).end == AssertionFailed
    ensures EndTagFirst(ps, before, after, name, rest) && (doctype ==> after.None?)
    decreases |ps|
  {
    before, after, name, rest := [], None, "", [];
    if ps != [] {
      FirstPiece(cfg, ps, doctype);
      hide Prolog, Flat, EndTagFirst;
      assert ps == [ps[0]] + ps[1..];
      match ps[0]
      case ETag(n) =>
        name, rest := n, ps[1..];
        EndTagNow(n, rest);
      case Doctype =>
        before, after, name, rest := PrologAsserts(cfg, ps[1..], true);
        DoctypeFirst(ps[1..], before, name, rest);
        before, after := [], Some(before);
      case Text(s) =>
        before, after, name, rest := PrologAsserts(cfg, ps[1..], doctype);
        MiscFirst(Space(s), ps[1..], before, after, name, rest);
        before := [Space(s)] + before;
      case PI(s) =>
        before, after, name, rest := PrologAsserts(cfg, ps[1..], doctype);
        MiscFirst(Instruction(s), ps[1..], before, after, name, rest);
        before := [Instruction(s)] + before;
      case Comment(s) =>
        before, after, name, rest := PrologAsserts(cfg, ps[1..], doctype);
        MiscFirst(Remark(s), ps[1..], before, after, name, rest);
        before := [Remark(s)] + before;
    }
  }

  lemma EndTagNow(name: string, rest: seq<Piece>)
    ensures EndTagFirst([ETag(name)] + rest, [], None, name, rest)
  {
    assert [] + ([] + ([ETag(name)] + rest)) == [ETag(name)] + rest;
  }

  /** The assertion in the parser of end tags fails exactly for documents in which nothing but what
      may stand before the root element comes before an end tag. */
  lemma AssertionIff(cfg: Config, ps: seq<Piece>)
    ensures Document(cfg, true, ps).end == AssertionFailed <==>
            exists before, doctype, name, rest :: EndTagFirst(ps, before, doctype, name, rest)
  {
    hide Prolog;
    if Document(cfg, true, ps).end == AssertionFailed {
      var before, doctype, name, rest := PrologAsserts(cfg, ps, false);
    }
    forall before, doctype, name, rest | EndTagFirst(ps, before, doctype, name, rest)
      ensures Document(cfg, true, ps).end == AssertionFailed
    {
      EndTagFails(cfg, before, doctype, name, rest);
    }
  }
}
