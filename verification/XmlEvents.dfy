/**
 What a pull parser has to report: the events of a document, as a function of its lexical
 items and of the reporting flags, without any parser state.
 */
module XmlEvents {

  /** A lexical item of a document or of the replacement text of an entity. */
  datatype Piece =
    | Text(s: string)
    | CData(s: string)
    | PI(s: string)
    | Comment(s: string)
    | Doctype
    | STag(name: string, empty: bool)
    | ETag(name: string)
    | EntityRef(content: seq<Piece>)

  /** The same with references replaced by the borders of the entity. */
  datatype Item = Plain(p: Piece) | Enter | Leave

  function Flat(ps: seq<Piece>): seq<Item> {
    if ps == [] then []
    else FlatPiece(ps[0]) + Flat(ps[1..])
  }

  function FlatPiece(p: Piece): seq<Item> {
    match p
    case EntityRef(content) => [Enter] + Flat(content) + [Leave]
    case _ => [Plain(p)]
  }

  /** Reporting and DOM construction flags. */
  datatype Config = Config(reportPis: bool, allocPis: bool, reportComments: bool, allocComments: bool,
                           reportChars: bool, allocChars: bool)

  datatype Event =
    | XmlDecl | DoctypeDecl | Chars(text: string) | Start(name: string) | Stop(name: string)
    | CommentNode(s: string) | PINode(s: string)

  /** How a document ends: well, in a fatal error, or in a failed assertion. */
  datatype End = Complete | FatalError | AssertionFailed

  datatype Trace = Trace(events: seq<Event>, end: End)

  const FATAL := Trace([], FatalError)
  const ASSERTION := Trace([], AssertionFailed)

  function Then(es: seq<Event>, t: Trace): Trace {
    Trace(es + t.events, t.end)
  }

  predicate IsWhite(s: string) {
    forall i :: 0 <= i < |s| ==> s[i] == ' ' || s[i] == '\t' || s[i] == '\n' || s[i] == '\r'
  }

  /** What is open: elements by name, and entities. */
  datatype Level = Elem(name: string) | Entity

  function Flush(cfg: Config, text: string): seq<Event> {
    if text == "" || !(cfg.reportChars || cfg.allocChars) then [] else [Chars(text)]
  }

  /** Element content, `open` listing what is open, the innermost first. Adjacent character data,
      also from CDATA sections, across borders of entities and across what is skipped, is one
      event. An element must end in the entity it started in. */
  function Content(cfg: Config, items: seq<Item>, text: string, open: seq<Level>): Trace
    decreases |items|, 1
  {
    if items == [] then FATAL
    else
      var rest := items[1..];
      match items[0]
      case Enter => Content(cfg, rest, text, [Entity] + open)
      case Leave => if open != [] && open[0] == Entity then Content(cfg, rest, text, open[1..]) else FATAL
      case Plain(p) =>
        match p
        case Text(s) => Content(cfg, rest, text + s, open)
        case CData(s) => Content(cfg, rest, text + s, open)
        case PI(s) =>
          if !(cfg.reportPis || cfg.allocPis) then Content(cfg, rest, text, open)
          else Then(Flush(cfg, text) + [PINode(s)], Content(cfg, rest, "", open))
        case Comment(s) =>
          if !(cfg.reportComments || cfg.allocComments) then Content(cfg, rest, text, open)
          else Then(Flush(cfg, text) + [CommentNode(s)], Content(cfg, rest, "", open))
        case STag(name, empty) =>
          if empty then Then(Flush(cfg, text) + [Start(name), Stop(name)], Closed(cfg, rest, [Elem(name)] + open))
          else Then(Flush(cfg, text) + [Start(name)], Content(cfg, rest, "", [Elem(name)] + open))
        case ETag(_) =>
          Then(Flush(cfg, text) + [Stop(Innermost(open))], Closed(cfg, rest, open))
        case _ => FATAL
  }

  /** The name of the innermost open element. */
  function Innermost(open: seq<Level>): string {
    if open == [] then "" else if open[0].Elem? then open[0].name else Innermost(open[1..])
  }

  /** After the end of the innermost element. */
  function Closed(cfg: Config, items: seq<Item>, open: seq<Level>): Trace
    decreases |items|, 2
  {
    if open == [] || open[0] == Entity then FATAL
    else if |open| == 1 then Epilog(cfg, items)
    else Content(cfg, items, "", open[1..])
  }

  function Epilog(cfg: Config, items: seq<Item>): Trace {
    if items == [] then Trace([], Complete)
    else
      match items[0]
      case Plain(Text(s)) => if IsWhite(s) then Epilog(cfg, items[1..]) else FATAL
      case Plain(PI(s)) =>
        if cfg.reportPis then Then([PINode(s)], Epilog(cfg, items[1..])) else Epilog(cfg, items[1..])
      case Plain(Comment(s)) =>
        if cfg.reportComments then Then([CommentNode(s)], Epilog(cfg, items[1..])) else Epilog(cfg, items[1..])
      case _ => FATAL
  }

  /** Whatever is taken for the root element must not be an end tag. */
  function Prolog(cfg: Config, items: seq<Item>, doctype: bool): Trace {
    if items == [] then FATAL
    else
      match items[0]
      case Plain(Text(s)) => if IsWhite(s) then Prolog(cfg, items[1..], doctype) else FATAL
      case Plain(PI(s)) =>
        if cfg.reportPis then Then([PINode(s)], Prolog(cfg, items[1..], doctype)) else Prolog(cfg, items[1..], doctype)
      case Plain(Comment(s)) =>
        if cfg.reportComments then Then([CommentNode(s)], Prolog(cfg, items[1..], doctype))
        else Prolog(cfg, items[1..], doctype)
      case Plain(Doctype) => if doctype then FATAL else Then([DoctypeDecl], Prolog(cfg, items[1..], true))
      case Plain(STag(_, _)) => Content(cfg, items, "", [])
      case Plain(ETag(_)) => ASSERTION
      case _ => FATAL
  }

  function Document(cfg: Config, hasDecl: bool, pieces: seq<Piece>): Trace {
    if hasDecl then Then([XmlDecl], Prolog(cfg, Flat(pieces), false)) else FATAL
  }

  // ----- filtering by masks -----

  datatype Kind = KXmlDecl | KDoctype | KChars | KStart | KStop | KComment | KPI

  function KindOf(e: Event): (k: Kind)
    ensures (k == KStart <==> e.Start?) && (k == KStop <==> e.Stop?) && (k == KChars <==> e.Chars?)
    ensures (k == KComment <==> e.CommentNode?) && (k == KPI <==> e.PINode?) && (k == KDoctype <==> e.DoctypeDecl?)
  {
    match e
    case XmlDecl => KXmlDecl
    case DoctypeDecl => KDoctype
    case Chars(_) => KChars
    case Start(_) => KStart
    case Stop(_) => KStop
    case CommentNode(_) => KComment
    case PINode(_) => KPI
  }

  /** The position of the first event the mask lets through, or the number of events. */
  function First(es: seq<Event>, mask: set<Kind>): (k: nat)
    ensures k <= |es|
  {
    if es == [] || KindOf(es[0]) in mask then 0 else 1 + First(es[1..], mask)
  }

  lemma {:induction false} FirstIs(es: seq<Event>, mask: set<Kind>)
    ensures var k := First(es, mask); k < |es| ==> KindOf(es[k]) in mask
    ensures forall i :: 0 <= i < First(es, mask) ==> KindOf(es[i]) !in mask
  {
    if es != [] && KindOf(es[0]) !in mask {
      FirstIs(es[1..], mask);
      forall i | 0 < i < First(es, mask) ensures KindOf(es[i]) !in mask {
        assert es[i] == es[1..][i - 1];
      }
    }
  }

  /** What a sequence of calls with the given masks returns: each call goes on where the last
      one stopped, to the next event its own mask lets through. */
  function Stops(es: seq<Event>, masks: seq<set<Kind>>): seq<Event> {
    if |masks| == 0 then []
    else
      var k := First(es, masks[0]);
      if k == |es| then [] else [es[k]] + Stops(es[k + 1..], masks[1..])
  }

  function Filter(es: seq<Event>, mask: set<Kind>): seq<Event> {
    if es == [] then []
    else if KindOf(es[0]) in mask then [es[0]] + Filter(es[1..], mask)
    else Filter(es[1..], mask)
  }

  lemma {:induction false} FilterFirst(es: seq<Event>, mask: set<Kind>)
    ensures var k := First(es, mask);
            if k == |es| then Filter(es, mask) == [] else Filter(es, mask) == [es[k]] + Filter(es[k + 1..], mask)
  {
    hide KindOf;
    if es != [] && KindOf(es[0]) !in mask {
      FilterFirst(es[1..], mask);
      var k := First(es, mask);
      assert k < |es| ==> es[k] == es[1..][k - 1] && es[k + 1..] == es[1..][k..];
    }
  }

  /** With one mask all the time, the stops are the events of the kinds in the mask. */
  lemma {:induction false} StopsAreFiltered(es: seq<Event>, mask: set<Kind>, masks: seq<set<Kind>>)
    requires forall i :: 0 <= i < |masks| ==> masks[i] == mask
    requires |masks| >= |Filter(es, mask)|
    ensures Stops(es, masks) == Filter(es, mask)
    decreases |masks|
  {
    FilterFirst(es, mask);
    var k := First(es, mask);
    if masks != [] && k < |es| {
      StopsAreFiltered(es[k + 1..], mask, masks[1..]);
    }
  }
}
