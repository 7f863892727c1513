/**
 What the events of a document keep of it: every character and every piece of markup that is
 reported, in the order of the document, with the characters between two pieces of markup always
 in one event.
 */
module XmlFidelity {
  import opened Basics
  import opened XmlEvents
  import opened XmlTree

  /** A character of the text, or a piece of markup. */
  datatype Atom = Character(c: char) | Mark(e: Event)

  function Characters(s: string): seq<Atom> {
    if s == "" then [] else [Character(s[0])] + Characters(s[1..])
  }

  predicate ShowsChars(cfg: Config) { cfg.reportChars || cfg.allocChars }

  /** The text as far as it is to be seen. */
  function Shown(cfg: Config, s: string): seq<Atom> {
    if ShowsChars(cfg) then Characters(s) else []
  }

  /** Everything in a node that is to be seen. */
  function Atoms(cfg: Config, n: Node): seq<Atom>
    decreases n, 0
  {
    match n
    case Element(name, kids) => [Mark(Start(name))] + AtomsOf(cfg, kids) + [Mark(Stop(name))]
    case EmptyElement(name) => [Mark(Start(name)), Mark(Stop(name))]
    case TextNode(s) => Shown(cfg, s)
    case CDataNode(s) => Shown(cfg, s)
    case PI(s) => if cfg.reportPis || cfg.allocPis then [Mark(PINode(s))] else []
    case Comment(s) => if cfg.reportComments || cfg.allocComments then [Mark(CommentNode(s))] else []
    case Ref(kids) => AtomsOf(cfg, kids)
  }

  function AtomsOf(cfg: Config, ns: seq<Node>): seq<Atom>
    decreases ns, 0
  {
    if ns == [] then [] else Atoms(cfg, ns[0]) + AtomsOf(cfg, ns[1..])
  }

  /** What an event stands for. */
  function EventAtoms(e: Event): seq<Atom> {
    if e.Chars? then Characters(e.text) else [Mark(e)]
  }

  function AllAtoms(es: seq<Event>): seq<Atom> {
    if es == [] then [] else EventAtoms(es[0]) + AllAtoms(es[1..])
  }

  lemma {:induction false} AllAtomsConcat(a: seq<Event>, b: seq<Event>)
    ensures AllAtoms(a + b) == AllAtoms(a) + AllAtoms(b)
  {
    hide EventAtoms;
    if a == [] {
      assert a + b == b;
    } else {
      AllAtomsConcat(a[1..], b);
      assert (a + b)[1..] == a[1..] + b;
      Assoc(EventAtoms(a[0]), AllAtoms(a[1..]), AllAtoms(b));
    }
  }

  lemma {:induction false} CharactersConcat(s: string, t: string)
    ensures Characters(s + t) == Characters(s) + Characters(t)
  {
    if s == "" {
      assert s + t == t;
    } else {
      CharactersConcat(s[1..], t);
      assert (s + t)[1..] == s[1..] + t;
      Assoc([Character(s[0])], Characters(s[1..]), Characters(t));
    }
  }

  lemma ShownConcat(cfg: Config, s: string, t: string)
    ensures Shown(cfg, s + t) == Shown(cfg, s) + Shown(cfg, t)
  {
    CharactersConcat(s, t);
  }

  lemma FlushAtoms(cfg: Config, text: string)
    ensures AllAtoms(Flush(cfg, text)) == Shown(cfg, text)
  {
    if Flush(cfg, text) != [] {
      assert [Chars(text)][1..] == [];
      assert Characters(text) + [] == Characters(text);
    }
  }

  lemma OneAtom(e: Event)
    requires !e.Chars?
    ensures AllAtoms([e]) == [Mark(e)]
  {
    assert [e][1..] == [];
  }

  /** Text that was collected, then a piece of markup. */
  lemma Marked(cfg: Config, text: string, e: Event)
    requires !e.Chars?
    ensures AllAtoms(Flush(cfg, text) + [e]) == Shown(cfg, text) + [Mark(e)]
  {
    hide AllAtoms, Flush, Shown;
    FlushAtoms(cfg, text);
    OneAtom(e);
    AllAtomsConcat(Flush(cfg, text), [e]);
  }

  /** Nothing is lost, added or moved on the walk through a node; text that was collected before comes
      first, and what is collected at the end comes last. */
  lemma {:induction false} WalkKeeps(cfg: Config, n: Node, text: string)
    ensures var w := Walk(cfg, n, text);
            AllAtoms(w.events) + Shown(cfg, w.text) == Shown(cfg, text) + Atoms(cfg, n)
    decreases n, 2
  {
    var w := Walk(cfg, n, text);
    assert Shown(cfg, "") == [];
    match n
    case Element(name, kids) => ElementKeeps(cfg, n, text);
    case EmptyElement(name) =>
      Marked(cfg, text, Start(name));
      OneAtom(Stop(name));
      AllAtomsConcat(Flush(cfg, text) + [Start(name)], [Stop(name)]);
      assert w.events == (Flush(cfg, text) + [Start(name)]) + [Stop(name)];
      hide Shown, Flush;
    case TextNode(s) => ShownConcat(cfg, text, s);
    case CDataNode(s) => ShownConcat(cfg, text, s);
    case PI(s) =>
      Marked(cfg, text, PINode(s));
      hide Shown, Flush;
      assert [] + Shown(cfg, text) == Shown(cfg, text);
    case Comment(s) =>
      Marked(cfg, text, CommentNode(s));
      hide Shown, Flush;
      assert [] + Shown(cfg, text) == Shown(cfg, text);
    case Ref(kids) => WalkAllKeeps(cfg, kids, text);
  }

  lemma {:induction false} ElementKeeps(cfg: Config, n: Node, text: string)
    requires n.Element?
    ensures var w := Walk(cfg, n, text);
            AllAtoms(w.events) + Shown(cfg, w.text) == Shown(cfg, text) + Atoms(cfg, n)
    decreases n, 1
  {
    var name, inner := n.name, WalkAll(cfg, n.kids, "");
    assert Shown(cfg, "") == [];
    WalkAllKeeps(cfg, n.kids, "");
    Marked(cfg, text, Start(name));
    Marked(cfg, inner.text, Stop(name));
    hide AllAtoms, Shown, Flush, WalkAll, AtomsOf;
    var a, b, c := Flush(cfg, text) + [Start(name)], inner.events, Flush(cfg, inner.text) + [Stop(name)];
    AllAtomsConcat(a, b);
    AllAtomsConcat(a + b, c);
    Assoc(a + b, Flush(cfg, inner.text), [Stop(name)]);
    assert Walk(cfg, n, text).events == (a + b) + c;
    assert [] + AtomsOf(cfg, n.kids) == AtomsOf(cfg, n.kids);
    Enclosed(Shown(cfg, text), [Mark(Start(name))], AllAtoms(b), Shown(cfg, inner.text), AtomsOf(cfg, n.kids),
             [Mark(Stop(name))]);
  }

  lemma Enclosed(before: seq<Atom>, start: seq<Atom>, a: seq<Atom>, b: seq<Atom>, inside: seq<Atom>, stop: seq<Atom>)
    requires a + b == inside
    ensures ((before + start) + a) + (b + stop) + [] == before + (start + inside + stop)
  {
    assert ((before + start) + a) + (b + stop) == (before + start) + ((a + b) + stop);
  }

  lemma {:induction false} WalkAllKeeps(cfg: Config, ns: seq<Node>, text: string)
    ensures var w := WalkAll(cfg, ns, text);
            AllAtoms(w.events) + Shown(cfg, w.text) == Shown(cfg, text) + AtomsOf(cfg, ns)
    decreases ns, 1
  {
    hide Shown, Walk, Atoms;
    if ns == [] {
      assert [] + Shown(cfg, text) == Shown(cfg, text) + [];
    } else {
      var w := Walk(cfg, ns[0], text);
      var v := WalkAll(cfg, ns[1..], w.text);
      WalkKeeps(cfg, ns[0], text);
      WalkAllKeeps(cfg, ns[1..], w.text);
      AllAtomsConcat(w.events, v.events);
      Assoc(AllAtoms(w.events), AllAtoms(v.events), Shown(cfg, v.text));
      Assoc(AllAtoms(w.events), Shown(cfg, w.text), AtomsOf(cfg, ns[1..]));
      Assoc(Shown(cfg, text), Atoms(cfg, ns[0]), AtomsOf(cfg, ns[1..]));
    }
  }

  // ----- grouping -----

  /** No event is without text, and of two that follow each other one is markup. */
  ghost predicate Grouped(es: seq<Event>) {
    && (forall i :: 0 <= i < |es| && es[i].Chars? ==> es[i].text != "")
    && (forall i :: 0 <= i < |es| - 1 ==> !es[i].Chars? || !es[i + 1].Chars?)
  }

  /** Such events that end with markup. */
  ghost predicate Closes(es: seq<Event>) {
    Grouped(es) && (es != [] ==> !es[|es| - 1].Chars?)
  }

  lemma ClosesConcat(a: seq<Event>, b: seq<Event>)
    requires Closes(a) && Closes(b)
    ensures Closes(a + b)
  {
    var c := a + b;
    forall i | 0 <= i < |c| - 1 ensures !c[i].Chars? || !c[i + 1].Chars? {
      if i + 1 < |a| {
        assert c[i] == a[i] && c[i + 1] == a[i + 1];
      } else if i >= |a| {
        assert c[i] == b[i - |a|] && c[i + 1] == b[i + 1 - |a|];
      } else {
        assert c[i] == a[|a| - 1];
      }
    }
  }

  lemma FlushCloses(cfg: Config, text: string, e: Event)
    requires !e.Chars?
    ensures Closes(Flush(cfg, text) + [e]) && Closes([e])
  {
  }

  lemma {:induction false} WalkGrouped(cfg: Config, n: Node, text: string)
    ensures Closes(Walk(cfg, n, text).events)
    decreases n, 0
  {
    match n
    case Element(name, kids) =>
      var inner := WalkAll(cfg, kids, "");
      WalkAllGrouped(cfg, kids, "");
      FlushCloses(cfg, text, Start(name));
      FlushCloses(cfg, inner.text, Stop(name));
      hide Closes, Flush, WalkAll;
      var a, c := Flush(cfg, text) + [Start(name)], Flush(cfg, inner.text) + [Stop(name)];
      ClosesConcat(a, inner.events);
      ClosesConcat(a + inner.events, c);
      Assoc(a + inner.events, Flush(cfg, inner.text), [Stop(name)]);
    case EmptyElement(name) =>
      FlushCloses(cfg, text, Start(name));
      FlushCloses(cfg, "", Stop(name));
      hide Closes, Flush;
      ClosesConcat(Flush(cfg, text) + [Start(name)], [Stop(name)]);
      assert Flush(cfg, text) + [Start(name), Stop(name)] == (Flush(cfg, text) + [Start(name)]) + [Stop(name)];
    case PI(s) => FlushCloses(cfg, text, PINode(s));
    case Comment(s) => FlushCloses(cfg, text, CommentNode(s));
    case Ref(kids) => WalkAllGrouped(cfg, kids, text);
    case _ =>
  }

  lemma {:induction false} WalkAllGrouped(cfg: Config, ns: seq<Node>, text: string)
    ensures Closes(WalkAll(cfg, ns, text).events)
    decreases ns, 1
  {
    hide Walk;
    if ns != [] {
      var w := Walk(cfg, ns[0], text);
      WalkGrouped(cfg, ns[0], text);
      WalkAllGrouped(cfg, ns[1..], w.text);
      ClosesConcat(w.events, WalkAll(cfg, ns[1..], w.text).events);
    }
  }

  // ----- whole documents -----

  function MiscAtoms(cfg: Config, ms: seq<Misc>): seq<Atom> {
    if ms == [] then [] else MiscAtom(cfg, ms[0]) + MiscAtoms(cfg, ms[1..])
  }

  function MiscAtom(cfg: Config, m: Misc): seq<Atom> {
    match m
    case Space(_) => []
    case Instruction(s) => if cfg.reportPis then [Mark(PINode(s))] else []
    case Remark(s) => if cfg.reportComments then [Mark(CommentNode(s))] else []
  }

  /** Everything in a document that is to be seen. */
  function DocAtoms(cfg: Config, d: Doc): seq<Atom> {
    MiscAtoms(cfg, d.before)
    + ((if d.doctype.None? then [] else [Mark(DoctypeDecl)] + MiscAtoms(cfg, d.doctype.value))
       + (Atoms(cfg, d.root) + MiscAtoms(cfg, d.after)))
  }

  lemma {:induction false} MiscKeeps(cfg: Config, ms: seq<Misc>)
    ensures AllAtoms(MiscEvents(cfg, ms)) == MiscAtoms(cfg, ms) && Closes(MiscEvents(cfg, ms))
  {
    if ms != [] {
      MiscKeeps(cfg, ms[1..]);
      MiscOne(cfg, ms[0]);
      hide MiscEvent, MiscAtom, Closes;
      AllAtomsConcat(MiscEvent(cfg, ms[0]), MiscEvents(cfg, ms[1..]));
      ClosesConcat(MiscEvent(cfg, ms[0]), MiscEvents(cfg, ms[1..]));
    }
  }

  lemma MiscOne(cfg: Config, m: Misc)
    ensures AllAtoms(MiscEvent(cfg, m)) == MiscAtom(cfg, m) && Closes(MiscEvent(cfg, m))
  {
    match m
    case Space(_) =>
    case Instruction(s) => OneAtom(PINode(s));
    case Remark(s) => OneAtom(CommentNode(s));
  }

  lemma RootKeeps(cfg: Config, root: Root)
    ensures AllAtoms(Walk(cfg, root, "").events) == Atoms(cfg, root) && Closes(Walk(cfg, root, "").events)
  {
    WalkKeeps(cfg, root, "");
    WalkGrouped(cfg, root, "");
    assert Shown(cfg, "") == [];
    assert Walk(cfg, root, "").text == "";
    hide Walk, Atoms, AllAtoms, Shown;
    assert AllAtoms(Walk(cfg, root, "").events) + [] == AllAtoms(Walk(cfg, root, "").events);
    assert [] + Atoms(cfg, root) == Atoms(cfg, root);
  }

  lemma DoctypeKeeps(cfg: Config, doctype: Option<seq<Misc>>)
    ensures AllAtoms(DoctypeEvents(cfg, doctype)) ==
            if doctype.None? then [] else [Mark(DoctypeDecl)] + MiscAtoms(cfg, doctype.value)
    ensures Closes(DoctypeEvents(cfg, doctype))
  {
    if doctype.Some? {
      MiscKeeps(cfg, doctype.value);
      OneAtom(DoctypeDecl);
      AllAtomsConcat([DoctypeDecl], MiscEvents(cfg, doctype.value));
      ClosesConcat([DoctypeDecl], MiscEvents(cfg, doctype.value));
    }
  }

  /** The events of a document are what is to be seen of it, in its order, grouped. */
  lemma DocumentKeeps(cfg: Config, d: Doc)
    ensures AllAtoms(WalkDoc(cfg, d)) == DocAtoms(cfg, d) && Grouped(WalkDoc(cfg, d))
  {
    hide AllAtoms, Closes, Walk, MiscEvents, DoctypeEvents, Atoms, MiscAtoms;
    var a, b, c, e := MiscEvents(cfg, d.before), DoctypeEvents(cfg, d.doctype), Walk(cfg, d.root, "").events,
                      MiscEvents(cfg, d.after);
    MiscKeeps(cfg, d.before);
    DoctypeKeeps(cfg, d.doctype);
    RootKeeps(cfg, d.root);
    MiscKeeps(cfg, d.after);
    AllAtomsConcat(c, e);
    AllAtomsConcat(b, c + e);
    AllAtomsConcat(a, b + (c + e));
    ClosesConcat(c, e);
    ClosesConcat(b, c + e);
    ClosesConcat(a, b + (c + e));
    GroupedOf(WalkDoc(cfg, d));
  }

  lemma GroupedOf(es: seq<Event>)
    requires Closes(es)
    ensures Grouped(es)
  {
  }
}
