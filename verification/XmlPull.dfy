/**
 The pull parser: a state machine that stops after each event the caller asks for and goes
 on from there at the next call. Input comes from a stack of sources (the document and the
 entities being read); a single list of records saves the flags for elements, other nodes
 and sources.
 */
module XmlPull {
  import opened XmlEvents

  datatype State =
    | SStart | SXmlDecl | SDoctype | SStag | SEtag | SComment | SPi
    | SCharsBeforeStag | SCharsBeforeEtag | SCharsBeforeComment | SCharsBeforePi
    | SPrologComment | SPrologPi | SEpilogComment | SEpilogPi | SEof

  datatype Flags = Flags(emptyTag: bool, document: bool)

  /** An entry of the common stack: a DOM node (an element, or another node that is only on the
      stack between two stops) or a source. Each saves the flags. */
  datatype Record = ElemRecord(name: string, flags: Flags) | LeafRecord(flags: Flags) | SourceRecord(flags: Flags)

  datatype Source = Source(rest: seq<Piece>, savedDepth: nat)

  /** What a step of the machine comes to. */
  datatype Outcome = Stopped(event: Event) | Finished | Fatal | Aborted

  function OutcomeOf(end: End): Outcome {
    match end
    case Complete => Finished
    case FatalError => Fatal
    case AssertionFailed => Aborted
  }

  // ----- the records and the depth counter -----

  /** The flags between two tags: `document` tells whether the document itself is being read. */
  ghost function PlainFlags(sources: seq<Source>): Flags {
    Flags(false, |sources| == 1)
  }

  /** The stack, top first, is made of layers, one for each source: the elements opened in that
      source, counted by the depth, and below them the record of the source. Each record holds
      the flags that are right for what is below it. */
  ghost predicate Layered(stack: seq<Record>, sources: seq<Source>, depth: nat)
    decreases |stack|
  {
    stack != [] &&
    match stack[0]
    case LeafRecord(_) => false
    case ElemRecord(_, f) => f == PlainFlags(sources) && depth > 0 && Layered(stack[1..], sources, depth - 1)
    case SourceRecord(f) =>
      && depth == 0 && sources != []
      && (if |sources| == 1 then |stack| == 1
          else f == PlainFlags(sources[1..]) && Layered(stack[1..], sources[1..], sources[0].savedDepth))
  }

  lemma {:induction false} LayeredSources(stack: seq<Record>, sources: seq<Source>, depth: nat)
    requires Layered(stack, sources, depth)
    ensures sources != []
    decreases |stack|
  {
    if stack[0].ElemRecord? {
      LayeredSources(stack[1..], sources, depth - 1);
    }
  }

  /** Reading on within the current source changes nothing about the layers. */
  lemma {:induction false} LayeredConsumed(stack: seq<Record>, sources: seq<Source>, depth: nat, rest: seq<Piece>)
    requires Layered(stack, sources, depth)
    ensures sources != [] && Layered(stack, [sources[0].(rest := rest)] + sources[1..], depth)
    decreases |stack|
  {
    LayeredSources(stack, sources, depth);
    var so := [sources[0].(rest := rest)] + sources[1..];
    assert so[1..] == sources[1..] && |so| == |sources|;
    if stack[0].ElemRecord? {
      LayeredConsumed(stack[1..], sources, depth - 1, rest);
    }
  }

  lemma BareStack(stack: seq<Record>, sources: seq<Source>)
    requires |stack| == 1 && |sources| == 1
    ensures Layered(stack, sources, 0) <==> stack[0].SourceRecord?
    ensures Layered(stack, sources, 0) ==> Names(stack) == [] && Rooted(stack)
  {
  }

  /** What is open according to the stack; the record of the document itself does not count. */
  ghost function Open(stack: seq<Record>): seq<Level> {
    if |stack| <= 1 then []
    else
      match stack[0]
      case ElemRecord(name, _) => [Elem(name)] + Open(stack[1..])
      case SourceRecord(_) => [Entity] + Open(stack[1..])
      case LeafRecord(_) => Open(stack[1..])
  }

  /** The items still to be read from all sources. */
  ghost function Items(sources: seq<Source>): seq<Item> {
    if sources == [] then []
    else Flat(sources[0].rest) + (if |sources| == 1 then [] else [Leave] + Items(sources[1..]))
  }

  /** The names of the open elements, innermost first: the chain of nodes from the current one up. */
  ghost function Names(stack: seq<Record>): seq<string> {
    if stack == [] then []
    else if stack[0].ElemRecord? then [stack[0].name] + Names(stack[1..])
    else Names(stack[1..])
  }

  lemma {:induction false} NamesInnermost(stack: seq<Record>, sources: seq<Source>, depth: nat)
    requires Layered(stack, sources, depth)
    ensures Names(stack) == [] ==> forall i :: 0 <= i < |Open(stack)| ==> Open(stack)[i] == Entity
    ensures Names(stack) != [] ==> Names(stack)[0] == Innermost(Open(stack))
    ensures Names(stack) == [] <==> (forall i :: 0 <= i < |stack| ==> !stack[i].ElemRecord?)
    decreases |stack|
  {
    if |stack| > 1 {
      match stack[0]
      case ElemRecord(_, _) => NamesInnermost(stack[1..], sources, depth - 1);
      case SourceRecord(_) => NamesInnermost(stack[1..], sources[1..], sources[0].savedDepth);
    }
  }

  /** Entities are only entered inside of the root element. */
  ghost predicate Rooted(stack: seq<Record>) {
    |stack| >= 2 ==> stack[|stack| - 2].ElemRecord?
  }

  // ----- reading pieces -----

  /** Markup within the root element that is reported or kept in the tree. */
  predicate Shown(cfg: Config, p: Piece) {
    match p
    case PI(_) => cfg.reportPis || cfg.allocPis
    case Comment(_) => cfg.reportComments || cfg.allocComments
    case STag(_, _) => true
    case ETag(_) => true
    case _ => false
  }

  function Before(p: Piece): State
    requires p.PI? || p.Comment? || p.STag? || p.ETag?
  {
    match p
    case PI(_) => SCharsBeforePi
    case Comment(_) => SCharsBeforeComment
    case STag(_, _) => SCharsBeforeStag
    case ETag(_) => SCharsBeforeEtag
  }

  function Consumed(sources: seq<Source>): seq<Source>
    requires sources != [] && sources[0].rest != []
  {
    [sources[0].(rest := sources[0].rest[1..])] + sources[1..]
  }

  lemma ItemsPlain(sources: seq<Source>)
    requires sources != [] && sources[0].rest != [] && !sources[0].rest[0].EntityRef?
    ensures Items(sources) == [Plain(sources[0].rest[0])] + Items(Consumed(sources))
  {
    var tail := if |sources| == 1 then [] else [Leave] + Items(sources[1..]);
    assert Consumed(sources)[1..] == sources[1..];
    FlatPlain(sources[0].rest);
    hide Flat;
    var p, f := [Plain(sources[0].rest[0])], Flat(sources[0].rest[1..]);
    assert (p + f) + tail == p + (f + tail);
  }

  lemma FlatPlain(ps: seq<Piece>)
    requires ps != [] && !ps[0].EntityRef?
    ensures Flat(ps) == [Plain(ps[0])] + Flat(ps[1..])
  {
  }

  lemma FlatEntity(ps: seq<Piece>)
    requires ps != [] && ps[0].EntityRef?
    ensures Flat(ps) == ([Enter] + Flat(ps[0].content) + [Leave]) + Flat(ps[1..])
  {
  }

  lemma ItemsEnter(sources: seq<Source>, saved: nat)
    requires sources != [] && sources[0].rest != [] && sources[0].rest[0].EntityRef?
    ensures Items(sources) == [Enter] + Items([Source(sources[0].rest[0].content, saved)] + Consumed(sources))
  {
    var rest, below := sources[0].rest, Consumed(sources);
    var inner := [Source(rest[0].content, saved)] + below;
    assert below[1..] == sources[1..] && inner[1..] == below;
    var c, f := Flat(rest[0].content), Flat(rest[1..]);
    var tail := if |sources| == 1 then [] else [Leave] + Items(sources[1..]);
    FlatEntity(rest);
    hide Flat;
    assert Items(below) == f + tail;
    assert Items(inner) == c + ([Leave] + (f + tail));
    assert (([Enter] + c + [Leave]) + f) + tail == [Enter] + (c + ([Leave] + (f + tail)));
  }

  lemma ItemsLeave(sources: seq<Source>)
    requires |sources| > 1 && sources[0].rest == []
    ensures Items(sources) == [Leave] + Items(sources[1..])
  {
  }

  lemma ItemsEnd(sources: seq<Source>)
    requires |sources| == 1 && sources[0].rest == []
    ensures Items(sources) == []
  {
  }

  // ----- single steps of the event function -----

  lemma ThenOne(e: Event, t: Trace)
    ensures Then([e], t).events == [e] + t.events && Then([e], t).events[1..] == t.events && Then([e], t).end == t.end
  {
  }

  lemma ThenFlush(cfg: Config, text: string, es: seq<Event>, t: Trace)
    ensures Then(Flush(cfg, text) + es, t) ==
            if Flush(cfg, text) == [] then Then(es, t) else Then([Chars(text)], Then(es, t))
  {
    if Flush(cfg, text) == [] {
      assert [] + es == es;
    } else {
      assert [Chars(text)] + es + t.events == [Chars(text)] + (es + t.events);
    }
  }

  /** Content with its first item taken off, in the order in which the parser reports it. */
  ghost function ContentOne(cfg: Config, i: Item, items: seq<Item>, text: string, open: seq<Level>): Trace {
    match i
    case Enter => Content(cfg, items, text, [Entity] + open)
    case Leave => if open != [] && open[0] == Entity then Content(cfg, items, text, open[1..]) else FATAL
    case Plain(Text(s)) => Content(cfg, items, text + s, open)
    case Plain(CData(s)) => Content(cfg, items, text + s, open)
    case Plain(PI(s)) =>
      if !(cfg.reportPis || cfg.allocPis) then Content(cfg, items, text, open)
      else Then(Flush(cfg, text) + [PINode(s)], Content(cfg, items, "", open))
    case Plain(Comment(s)) =>
      if !(cfg.reportComments || cfg.allocComments) then Content(cfg, items, text, open)
      else Then(Flush(cfg, text) + [CommentNode(s)], Content(cfg, items, "", open))
    case Plain(STag(name, empty)) => Then(Flush(cfg, text) + [Start(name)], AfterTag(cfg, items, open, name, empty))
    case Plain(ETag(_)) => Then(Flush(cfg, text) + [Stop(Innermost(open))], Closed(cfg, items, open))
    case _ => FATAL
  }

  /** What follows the start of an element. */
  ghost function AfterTag(cfg: Config, items: seq<Item>, open: seq<Level>, name: string, empty: bool): Trace {
    if empty then Then([Stop(name)], Closed(cfg, items, [Elem(name)] + open))
    else Content(cfg, items, "", [Elem(name)] + open)
  }

  lemma ContentStep(cfg: Config, i: Item, items: seq<Item>, text: string, open: seq<Level>)
    ensures Content(cfg, [i] + items, text, open) == ContentOne(cfg, i, items, text, open)
  {
    assert ([i] + items)[1..] == items;
    if i.Plain? && i.p.STag? && i.p.empty {
      var f, t := Flush(cfg, text), Closed(cfg, items, [Elem(i.p.name)] + open);
      assert (f + [Start(i.p.name), Stop(i.p.name)]) + t.events ==
             (f + [Start(i.p.name)]) + ([Stop(i.p.name)] + t.events);
    }
  }

  /** Character data before markup is reported on its own. */
  lemma CharsFirst(cfg: Config, p: Piece, items: seq<Item>, text: string, open: seq<Level>)
    requires Shown(cfg, p)
    ensures var after := Content(cfg, [Plain(p)] + items, "", open);
            Content(cfg, [Plain(p)] + items, text, open) ==
            if Flush(cfg, text) == [] then after else Then([Chars(text)], after)
  {
    hide Content, Closed, Innermost, Flush;
    ContentStep(cfg, Plain(p), items, text, open);
    ContentStep(cfg, Plain(p), items, "", open);
    assert Flush(cfg, "") == [] by { FlushNothing(cfg); }
    var es := match p {
      case PI(s) => [PINode(s)]
      case Comment(s) => [CommentNode(s)]
      case STag(name, _) => [Start(name)]
      case ETag(_) => [Stop(Innermost(open))]
    };
    var t := match p {
      case STag(name, empty) => AfterTag(cfg, items, open, name, empty)
      case ETag(_) => Closed(cfg, items, open)
      case _ => Content(cfg, items, "", open)
    };
    ThenFlush(cfg, text, es, t);
    ThenFlush(cfg, "", es, t);
  }

  lemma FlushNothing(cfg: Config)
    ensures Flush(cfg, "") == []
  {
  }

  class Parser {
    const cfg: Config
    const hasDecl: bool
    var state: State
    var sources: seq<Source>            // the current one first
    var stack: seq<Record>              // the top first
    var nodes: seq<string>              // the chain of open elements from the current node up
    var depth: nat
    var flags: Flags
    var chars: string
    var doctype: bool
    var errors: nat

    /** States in which a leaf node is on the stack. */
    predicate AtLeaf()
      reads this
    {
      state in {SComment, SPi, SCharsBeforeStag, SCharsBeforeEtag, SCharsBeforeComment, SCharsBeforePi,
                SPrologComment, SPrologPi, SEpilogComment, SEpilogPi}
    }

    predicate BeforeRoot()
      reads this
    {
      state in {SStart, SXmlDecl, SDoctype, SPrologComment, SPrologPi}
    }

    predicate AfterRoot()
      reads this
    {
      state in {SEpilogComment, SEpilogPi}
    }

    /** The stack without a leaf on top. */
    ghost function Base(): seq<Record>
      reads this
    {
      if AtLeaf() && stack != [] then stack[1..] else stack
    }

    /** The records match what is open, and the depth counts it; inside of a construct the depth
        is one more. */
    ghost predicate Held(base: seq<Record>, net: nat)
      reads this
    {
      && Layered(base, sources, net)
      && Rooted(base)
      && nodes == Names(base)
    }

    ghost predicate Valid()
      reads this
    {
      state != SEof ==>
        && chars == ""
        && (AtLeaf() ==> stack != [] && stack[0] == LeafRecord(PlainFlags(sources)))
        && (if AtLeaf() || state == SDoctype then depth > 0 && Held(Base(), depth - 1) else Held(Base(), depth))
        && (BeforeRoot() || AfterRoot() ==> |Base()| == 1)
        && (!BeforeRoot() && !AfterRoot() ==> |Base()| > 1)
        && (state == SStag ==> stack[0].ElemRecord?)
        && (state != SStart ==> flags.document == (|sources| == 1))
        && (flags.emptyTag ==> state == SStag || state == SEtag)
        && (AtChars() ==> NextShown() && state == Before(sources[0].rest[0]))
    }

    /** Stopped at character data that a tag, a comment or a processing instruction has ended. */
    predicate AtChars()
      reads this
    {
      state in {SCharsBeforeStag, SCharsBeforeEtag, SCharsBeforeComment, SCharsBeforePi}
    }

    /** Some markup that is not to be skipped follows. */
    ghost predicate NextShown()
      reads this
    {
      sources != [] && sources[0].rest != [] && Shown(cfg, sources[0].rest[0])
    }

    /** The events still to come. */
    ghost function Remaining(): Trace
      reads this
    {
      match state
      case SStart => if hasDecl then Then([XmlDecl], Prolog(cfg, Items(sources), doctype)) else FATAL
      case SXmlDecl => Prolog(cfg, Items(sources), doctype)
      case SDoctype => Prolog(cfg, Items(sources), doctype)
      case SPrologComment => Prolog(cfg, Items(sources), doctype)
      case SPrologPi => Prolog(cfg, Items(sources), doctype)
      case SStag =>
        if flags.emptyTag && nodes != [] then Then([Stop(nodes[0])], Closed(cfg, Items(sources), Open(stack)))
        else Content(cfg, Items(sources), "", Open(stack))
      case SEtag => Closed(cfg, Items(sources), Open(stack))
      case SEpilogComment => Epilog(cfg, Items(sources))
      case SEpilogPi => Epilog(cfg, Items(sources))
      case SEof => Trace([], Complete)
      case _ => Content(cfg, Items(sources), "", Open(Base()))
    }

    constructor (cfg: Config, hasDecl: bool, document: seq<Piece>)
      ensures Valid() && this.cfg == cfg && this.hasDecl == hasDecl
      ensures Remaining() == Document(cfg, hasDecl, document)
    {
      this.cfg, this.hasDecl := cfg, hasDecl;
      state := SStart;
      sources := [Source(document, 0)];
      stack := [SourceRecord(Flags(false, false))];
      nodes, depth, flags, chars, doctype, errors := [], 0, Flags(false, false), "", false, 0;
      new;
      assert Flat(document) + [] == Flat(document);
    }

    /** The outcome is the first of the given events and the others remain. */
    ghost predicate Produces(t: Trace, o: Outcome)
      reads this
    {
      match o
      case Stopped(e) => state != SEof && Valid() && t.events != [] && t.events[0] == e
                         && Remaining() == Trace(t.events[1..], t.end)
      case Finished => state == SEof && t == Trace([], Complete)
      case Fatal => state == SEof && t == FATAL
      case Aborted => state == SEof && t == ASSERTION
    }

    method Fail() returns (o: Outcome)
      modifies this`state
      ensures o == Fatal && state == SEof
    {
      state := SEof;
      o := Fatal;
    }

    /** Puts a leaf node on the stack. */
    method PushLeaf()
      modifies this`stack
      ensures stack == [LeafRecord(flags)] + old(stack)
    {
      stack := [LeafRecord(flags)] + stack;
    }

    /** Takes the top node off the stack and restores the flags. */
    method PopDom()
      requires stack != []
      modifies this`stack, this`flags
      ensures stack == old(stack)[1..] && flags == old(stack)[0].flags
    {
      flags := stack[0].flags;
      stack := stack[1..];
    }

    method Consume()
      requires sources != [] && sources[0].rest != []
      modifies this`sources
      ensures sources == Consumed(old(sources))
    {
      sources := [sources[0].(rest := sources[0].rest[1..])] + sources[1..];
    }

    /** Ends the current block of character data; true if it is to be reported. */
    method FlushChars() returns (text: string, report: bool)
      modifies this`chars
      ensures chars == "" && text == old(chars)
      ensures report <==> Flush(cfg, text) != []
    {
      text := chars;
      chars := "";
      report := text != "" && (cfg.allocChars || cfg.reportChars);
    }

    /** Inside of element content. */
    ghost predicate InContent(net: nat)
      reads this
    {
      sources != [] && Held(stack, net) && |stack| > 1 && flags == PlainFlags(sources)
    }

    /** Starts reading an entity. */
    method PushSource(content: seq<Piece>)
      requires InContent(depth)
      modifies this`sources, this`stack, this`depth, this`flags
      ensures InContent(depth)
      ensures sources == [Source(content, old(depth))] + old(sources)
      ensures Open(stack) == [Entity] + Open(old(stack))
    {
      ghost var st, so := stack, sources;
      LayeredSources(stack, sources, depth);
      stack := [SourceRecord(flags)] + stack;
      sources := [Source(content, depth)] + sources;
      flags := Flags(false, false);
      depth := 0;
      assert stack[1..] == st && sources[1..] == so;
    }

    /** Goes back to the source that referred to the entity: nothing may be open in the entity,
        and then the top record is that of the source. */
    method PopSource() returns (ok: bool)
      requires InContent(depth) && |sources| > 1
      modifies this`sources, this`stack, this`depth, this`flags
      ensures ok <==> Open(old(stack))[0] == Entity
      ensures ok ==> InContent(depth) && sources == old(sources)[1..] && Open(old(stack)) == [Entity] + Open(stack)
      ensures ok ==> old(stack)[0].SourceRecord?
    {
      if depth != 0 {
        return false;
      }
      depth := sources[0].savedDepth;
      sources := sources[1..];
      flags := stack[0].flags;
      stack := stack[1..];
      ok := true;
    }

    /** Reads a processing instruction or a comment whose start has been read, as a leaf node. */
    method PushNode(next: State) returns (o: Outcome)
      requires sources != [] && sources[0].rest != [] && (sources[0].rest[0].PI? || sources[0].rest[0].Comment?)
      requires next == if sources[0].rest[0].PI? then SPi else SComment
      requires depth > 0 && InContent(depth - 1) && chars == ""
      modifies this`sources, this`stack, this`state
      ensures Valid() && state == next
      ensures var p := old(sources)[0].rest[0];
              o == Stopped(if p.PI? then PINode(p.s) else CommentNode(p.s))
      ensures Remaining() == Content(cfg, Items(Consumed(old(sources))), "", Open(old(stack)))
    {
      var p := sources[0].rest[0];
      LayeredConsumed(stack, sources, depth - 1, sources[0].rest[1..]);
      ghost var st := stack;
      PushLeaf();
      Consume();
      assert stack[1..] == st;
      state := next;
      o := Stopped(if p.PI? then PINode(p.s) else CommentNode(p.s));
    }

    /** Reads a tag that starts an element. */
    method PushElement() returns (o: Outcome)
      requires sources != [] && sources[0].rest != [] && sources[0].rest[0].STag?
      requires depth > 0 && Held(stack, depth - 1) && flags == PlainFlags(sources) && chars == ""
      modifies this`sources, this`stack, this`nodes, this`flags, this`state
      ensures Valid() && state == SStag
      ensures var p := old(sources)[0].rest[0];
              && o == Stopped(Start(p.name))
              && stack == [ElemRecord(p.name, old(flags))] + old(stack)
              && Remaining() == AfterTag(cfg, Items(Consumed(old(sources))), Open(old(stack)), p.name, p.empty)
    {
      var p := sources[0].rest[0];
      LayeredConsumed(stack, sources, depth - 1, sources[0].rest[1..]);
      ghost var st := stack;
      Consume();
      stack := [ElemRecord(p.name, flags)] + stack;
      assert stack[1..] == st;
      nodes := [p.name] + nodes;
      if p.empty {
        flags := flags.(emptyTag := true);
      }
      state := SStag;
      o := Stopped(Start(p.name));
    }

    /** Reads a tag that ends an element; a wrong name is reported and ignored. */
    method ParseEtag() returns (o: Outcome)
      requires sources != [] && sources[0].rest != [] && sources[0].rest[0].ETag?
      requires depth > 0 && InContent(depth - 1) && chars == ""
      modifies this`sources, this`depth, this`errors, this`state
      ensures Valid() && state == SEtag
      ensures o == Stopped(Stop(Innermost(Open(old(stack)))))
      ensures Remaining() == Closed(cfg, Items(Consumed(old(sources))), Open(old(stack)))
      ensures errors ==
              old(errors) + if old(sources)[0].rest[0].name == Innermost(Open(old(stack))) then 0 else 1
    {
      LayeredConsumed(stack, sources, depth - 1, sources[0].rest[1..]);
      RootOpen(stack, sources, depth - 1);
      NamesInnermost(stack, sources, depth - 1);
      hide Layered, Names, Open, Items, Closed, Content, Innermost, Prolog, Epilog;
      var p := sources[0].rest[0];
      Consume();
      if p.name != nodes[0] {
        errors := errors + 1;
      }
      depth := depth - 1;
      state := SEtag;
      o := Stopped(Stop(nodes[0]));
    }

    /** Reads markup of the content, after the character data before it. */
    method Markup() returns (o: Outcome)
      requires NextShown() && depth > 0 && InContent(depth - 1) && chars == ""
      modifies this
      ensures o != Finished
      ensures Produces(Content(cfg, Items(old(sources)), "", Open(old(stack))), o)
    {
      hide Valid, Remaining, Held, Layered, Rooted, Names, Open, Items, Content, Closed, Innermost;
      ghost var p, items, open := sources[0].rest[0], Items(Consumed(sources)), Open(stack);
      ItemsPlain(sources);
      ContentStep(cfg, Plain(p), items, "", open);
      if sources[0].rest[0].PI? {
        o := PushNode(SPi);
        ThenFlush(cfg, "", [PINode(p.s)], Content(cfg, items, "", open));
      } else if sources[0].rest[0].Comment? {
        o := PushNode(SComment);
        ThenFlush(cfg, "", [CommentNode(p.s)], Content(cfg, items, "", open));
      } else if sources[0].rest[0].STag? {
        o := PushElement();
        ThenFlush(cfg, "", [Start(p.name)], AfterTag(cfg, items, open, p.name, p.empty));
      } else {
        o := ParseEtag();
        ThenFlush(cfg, "", [Stop(Innermost(open))], Closed(cfg, items, open));
      }
      ThenOne(o.event, Remaining());
    }

    /** Stops at the character data read so far. */
    method StopAtChars(text: string) returns (o: Outcome)
      requires NextShown() && depth > 0 && InContent(depth - 1) && chars == ""
      modifies this`state, this`stack
      ensures Valid() && state != SEof && o == Stopped(Chars(text))
      ensures Remaining() == Content(cfg, Items(sources), "", Open(old(stack)))
    {
      ghost var st := stack;
      PushLeaf();
      assert stack[1..] == st;
      state := Before(sources[0].rest[0]);
      o := Stopped(Chars(text));
    }

    /** What remains of the content, with character data that has not been reported yet. */
    ghost function Ahead(): Trace
      reads this
    {
      Content(cfg, Items(sources), chars, Open(stack))
    }

    /** At the end of a source: back to the source below. */
    method EndOfSource() returns (ok: bool)
      requires InContent(depth) && sources[0].rest == []
      modifies this`sources, this`stack, this`depth, this`flags
      ensures !ok ==> old(Ahead()) == FATAL
      ensures ok ==> InContent(depth) && Ahead() == old(Ahead()) && |Items(sources)| < |Items(old(sources))|
    {
      hide Content, Held, Layered, Open, Items;
      ghost var open := Open(stack);
      if |sources| == 1 {
        ItemsEnd(sources);
        ContentEnd(cfg, chars, open);
        return false;
      }
      ItemsLeave(sources);
      ContentStep(cfg, Leave, Items(sources[1..]), chars, open);
      OpenTop(stack, sources);
      ok := PopSource();
      if ok {
        assert open[1..] == Open(stack);
      }
    }

    /** Character data is collected. */
    method AppendChars()
      requires InContent(depth) && sources[0].rest != []
      requires sources[0].rest[0].Text? || sources[0].rest[0].CData?
      modifies this`sources, this`chars
      ensures InContent(depth) && Ahead() == old(Ahead()) && |Items(sources)| < |Items(old(sources))|
    {
      hide Content, Layered, Open, Items;
      var p := sources[0].rest[0];
      ItemsPlain(sources);
      ContentStep(cfg, Plain(p), Items(Consumed(sources)), chars, Open(stack));
      LayeredConsumed(stack, sources, depth, sources[0].rest[1..]);
      Consume();
      chars := chars + p.s;
    }

    /** A reference to an entity. */
    method ParseRef()
      requires InContent(depth) && sources[0].rest != [] && sources[0].rest[0].EntityRef?
      modifies this`sources, this`stack, this`depth, this`flags
      ensures InContent(depth) && Ahead() == old(Ahead()) && |Items(sources)| < |Items(old(sources))|
    {
      hide Content, Layered, Open, Items;
      var p := sources[0].rest[0];
      ItemsEnter(sources, depth);
      ContentStep(cfg, Enter, Items([Source(p.content, depth)] + Consumed(sources)), chars, Open(stack));
      LayeredConsumed(stack, sources, depth, sources[0].rest[1..]);
      Consume();
      PushSource(p.content);
    }

    /** A comment or processing instruction that nobody wants. */
    method SkipMarkup()
      requires InContent(depth) && sources[0].rest != [] && !Shown(cfg, sources[0].rest[0])
      requires sources[0].rest[0].PI? || sources[0].rest[0].Comment?
      modifies this`sources, this`depth
      ensures InContent(depth) && Ahead() == old(Ahead()) && |Items(sources)| < |Items(old(sources))|
    {
      hide Content, Layered, Open, Items;
      ItemsPlain(sources);
      ContentStep(cfg, Plain(sources[0].rest[0]), Items(Consumed(sources)), chars, Open(stack));
      LayeredConsumed(stack, sources, depth, sources[0].rest[1..]);
      depth := depth + 1;
      Consume();
      depth := depth - 1;
    }

    /** Markup that is reported, after the character data before it. */
    method CharsOrMarkup() returns (o: Outcome)
      requires InContent(depth) && NextShown()
      modifies this
      ensures o != Finished
      ensures Produces(old(Ahead()), o)
    {
      hide Content, Layered, Open, Items, Valid, Remaining, Names, Rooted;
      ghost var items, open := Items(Consumed(sources)), Open(stack);
      ItemsPlain(sources);
      CharsFirst(cfg, sources[0].rest[0], items, chars, open);
      depth := depth + 1;
      var text, report := FlushChars();
      if report {
        o := StopAtChars(text);
        ThenOne(o.event, Remaining());
      } else {
        o := Markup();
      }
    }

    /** Reads the content of elements up to the next event. */
    method RunContent() returns (o: Outcome)
      requires InContent(depth)
      modifies this
      ensures o != Finished
      ensures Produces(old(Ahead()), o)
    {
      hide *;
      ghost var t := Ahead();
      while true
        invariant InContent(depth) && Ahead() == t
        decreases |Items(sources)|
      {
        NotEmpty();
        if sources[0].rest == [] {
          var ok := EndOfSource();
          if !ok {
            o := Fail();
            FailProduces(t, o);
            return;
          }
        } else if sources[0].rest[0].Text? || sources[0].rest[0].CData? {
          AppendChars();
        } else if sources[0].rest[0].EntityRef? {
          ParseRef();
        } else if Shown(cfg, sources[0].rest[0]) {
          o := CharsOrMarkup();
          return;
        } else if sources[0].rest[0].PI? || sources[0].rest[0].Comment? {
          SkipMarkup();
        } else {
          NoDoctype();
          o := Fail();
          FailProduces(t, o);
          return;
        }
      }
    }

    lemma NotEmpty()
      requires InContent(depth)
      ensures sources != []
      ensures sources[0].rest != [] && Shown(cfg, sources[0].rest[0]) ==> NextShown()
    {
    }

    lemma FailProduces(t: Trace, o: Outcome)
      requires o == Fatal && state == SEof && t == FATAL
      ensures Produces(t, o)
    {
    }

    lemma NoDoctype()
      requires InContent(depth) && sources != [] && sources[0].rest != [] && !Shown(cfg, sources[0].rest[0])
      requires var p := sources[0].rest[0]; !p.Text? && !p.CData? && !p.EntityRef? && !p.PI? && !p.Comment?
      ensures Ahead() == FATAL
    {
      ItemsPlain(sources);
      ContentStep(cfg, Plain(sources[0].rest[0]), Items(Consumed(sources)), chars, Open(stack));
    }

    /** Outside of the root element there is just the record of the document. */
    ghost predicate Outside()
      reads this
    {
      && |sources| == 1 && |stack| == 1 && stack[0].SourceRecord?
      && depth == 0 && nodes == [] && chars == "" && flags == Flags(false, true)
    }

    /** Reads a processing instruction or a comment outside of the root element. */
    method PushMisc(next: State) returns (o: Outcome)
      requires Outside() && sources[0].rest != [] && (sources[0].rest[0].PI? || sources[0].rest[0].Comment?)
      requires next in {SPrologComment, SPrologPi, SEpilogComment, SEpilogPi}
      modifies this`sources, this`stack, this`depth, this`state
      ensures Valid() && state == next && doctype == old(doctype)
      ensures var p := old(sources)[0].rest[0];
              o == Stopped(if p.PI? then PINode(p.s) else CommentNode(p.s))
      ensures Remaining() == if next.SPrologComment? || next.SPrologPi?
                             then Prolog(cfg, Items(Consumed(old(sources))), doctype)
                             else Epilog(cfg, Items(Consumed(old(sources))))
    {
      hide Items, Prolog, Epilog, Content, Closed, Open;
      var p := sources[0].rest[0];
      ghost var st := stack;
      depth := depth + 1;
      PushLeaf();
      Consume();
      assert stack[1..] == st;
      BareStack(st, sources);
      state := next;
      o := Stopped(if p.PI? then PINode(p.s) else CommentNode(p.s));
    }

    /** The root element follows. */
    method EnterRoot() returns (o: Outcome)
      requires Outside() && sources[0].rest != [] && sources[0].rest[0].STag?
      modifies this
      ensures o != Finished
      ensures Produces(Prolog(cfg, Items(old(sources)), doctype), o)
    {
      hide Items, Content, Closed, Valid, Remaining;
      ghost var p, items := sources[0].rest[0], Items(Consumed(sources));
      ItemsPlain(sources);
      ContentStep(cfg, Plain(p), items, "", []);
      ThenFlush(cfg, "", [Start(p.name)], AfterTag(cfg, items, [], p.name, p.empty));
      depth := depth + 1;
      o := PushElement();
      ThenOne(o.event, Remaining());
    }

    /** The declaration of the document type; at most one. */
    method ParseDoctype() returns (o: Outcome)
      requires Outside() && sources[0].rest != [] && sources[0].rest[0].Doctype?
      modifies this
      ensures o != Finished
      ensures Produces(Prolog(cfg, Items(old(sources)), old(doctype)), o)
    {
      hide Items, Content, Closed, Open;
      ItemsPlain(sources);
      ghost var t := Prolog(cfg, Items(Consumed(sources)), true);
      assert Prolog(cfg, Items(sources), doctype) == if doctype then FATAL else Then([DoctypeDecl], t);
      if doctype {
        o := Fail();
        return;
      }
      depth := depth + 1;
      doctype := true;
      Consume();
      BareStack(stack, sources);
      state := SDoctype;
      o := Stopped(DoctypeDecl);
      ThenOne(DoctypeDecl, t);
    }

    /** Reads what precedes the root element, up to the next event. */
    method RunProlog() returns (o: Outcome)
      requires Outside()
      modifies this
      ensures o != Finished
      ensures Produces(old(Prolog(cfg, Items(sources), doctype)), o)
    {
      hide Items, Content, Closed, Open, Valid, Remaining;
      ghost var t := Prolog(cfg, Items(sources), doctype);
      while true
        invariant Outside() && Prolog(cfg, Items(sources), doctype) == t
        decreases |Items(sources)|
      {
        if sources[0].rest == [] {
          ItemsEnd(sources);
          o := Fail();
          return;
        }
        var p := sources[0].rest[0];
        if p.EntityRef? {
          ItemsEnter(sources, 0);
          o := Fail();
          return;
        }
        ItemsPlain(sources);
        if p.STag? {
          o := EnterRoot();
          return;
        } else if p.Doctype? {
          o := ParseDoctype();
          return;
        } else if p.Text? && IsWhite(p.s) {
          Consume();
        } else if (p.PI? && !cfg.reportPis) || (p.Comment? && !cfg.reportComments) {
          depth := depth + 1;
          Consume();
          depth := depth - 1;
        } else if p.PI? || p.Comment? {
          o := PushMisc(if p.PI? then SPrologPi else SPrologComment);
          ThenOne(o.event, Remaining());
          return;
        } else if p.ETag? {
          state, o := SEof, Aborted;
          return;
        } else {
          o := Fail();
          return;
        }
      }
    }

    /** At the end of the document its record is popped as well and nothing is left. */
    method EndOfDocument() returns (o: Outcome)
      requires Outside()
      modifies this
      ensures o == Finished && state == SEof && stack == [] && sources == [] && nodes == [] && depth == 0
      ensures flags == old(stack)[0].flags
    {
      flags := stack[0].flags;
      stack := stack[1..];
      sources := sources[1..];
      state := SEof;
      o := Finished;
    }

    /** Reads what follows the root element, up to the next event. */
    method RunEpilog() returns (o: Outcome)
      requires Outside()
      modifies this
      ensures Produces(old(Epilog(cfg, Items(sources))), o)
      ensures o == Finished ==>
                stack == [] && sources == [] && nodes == [] && depth == 0 && flags == old(stack)[0].flags
    {
      hide Items, Content, Closed, Open, Valid, Remaining;
      ghost var t := Epilog(cfg, Items(sources));
      while true
        invariant Outside() && Epilog(cfg, Items(sources)) == t && stack == old(stack)
        decreases |Items(sources)|
      {
        if sources[0].rest == [] {
          ItemsEnd(sources);
          o := EndOfDocument();
          return;
        }
        var p := sources[0].rest[0];
        if p.EntityRef? {
          ItemsEnter(sources, 0);
          o := Fail();
          return;
        }
        ItemsPlain(sources);
        if p.Text? && IsWhite(p.s) {
          Consume();
        } else if (p.PI? && !cfg.reportPis) || (p.Comment? && !cfg.reportComments) {
          depth := depth + 1;
          Consume();
          depth := depth - 1;
        } else if p.PI? || p.Comment? {
          o := PushMisc(if p.PI? then SEpilogPi else SEpilogComment);
          ThenOne(o.event, Remaining());
          return;
        } else {
          o := Fail();
          return;
        }
      }
    }

    lemma HeldOutside(net: nat)
      requires |stack| == 1 && Held(stack, net)
      ensures net == 0 && |sources| == 1 && stack[0].SourceRecord? && nodes == []
    {
      assert stack[1..] == [] && Names(stack[1..]) == [];
      assert net > 0 ==> !Layered(stack[1..], sources, net - 1);
      assert |sources| > 1 ==> !Layered(stack[1..], sources[1..], sources[0].savedDepth);
    }

    /** Ends the innermost element. The top record and the current node are popped before it turns
        out whether the element started in the current source: only then was the record its own. */
    method PopElement() returns (ok: bool)
      requires Valid() && state == SEtag
      modifies this`stack, this`flags, this`nodes, this`depth
      ensures ok <==> Open(old(stack))[0].Elem?
      ensures stack == old(stack)[1..] && flags == old(stack)[0].flags && old(nodes) != [] && nodes == old(nodes)[1..]
      ensures ok ==> old(stack)[0].ElemRecord? && old(stack)[0].name == old(nodes)[0]
      ensures !ok ==> old(stack)[0].SourceRecord?
      ensures ok ==> Open(old(stack)) == [Elem(old(nodes)[0])] + Open(stack)
      ensures ok ==> if nodes == [] then Outside() else InContent(depth)
    {
      hide Items, Content, Closed, Remaining;
      OpenTop(stack, sources);
      LayeredSources(stack, sources, depth);
      RootOpen(stack, sources, depth);
      nodes := nodes[1..];
      flags := stack[0].flags;
      stack := stack[1..];
      if depth == 0 {
        return false;
      }
      depth := depth - 1;
      ok := true;
      if |stack| > 1 {
        RootOpen(stack, sources, depth);
      } else {
        HeldOutside(depth);
      }
    }

    /** Goes on after the end of an element. */
    method AfterEtag() returns (o: Outcome)
      requires Valid() && state == SEtag
      modifies this
      ensures Produces(old(Remaining()), o)
      ensures o == Finished ==> Drained()
    {
      hide Items, Content, Layered, Open, Epilog, Names, Rooted;
      OpenMany(stack, sources, depth);
      ghost var open := Open(stack);
      var ok := PopElement();
      if !ok {
        o := Fail();
      } else if nodes == [] {
        assert Open(stack) == [] by { OpenMany(stack, sources, depth); }
        o := RunEpilog();
      } else {
        assert Open(stack) != [] && open[1..] == Open(stack) by { OpenMany(stack, sources, depth); }
        o := RunContent();
      }
    }

    /** Nothing is left on any stack. */
    ghost predicate Drained()
      reads this
    {
      stack == [] && sources == [] && nodes == [] && depth == 0
    }

    /** Takes a leaf node off again, which restores the flags. */
    method PopLeaf()
      requires Valid() && AtLeaf()
      modifies this`stack, this`flags
      ensures stack == old(Base()) && flags == PlainFlags(sources)
    {
      PopDom();
    }

    /** The document starts with its XML declaration. */
    method Begin() returns (o: Outcome)
      requires Valid() && state == SStart
      modifies this
      ensures o != Finished
      ensures Produces(old(Remaining()), o)
    {
      hide Items, Content, Closed, Open, Epilog, Prolog, Rooted;
      flags := flags.(document := true);
      HeldOutside(depth);
      if hasDecl {
        state := SXmlDecl;
        o := Stopped(XmlDecl);
        ThenOne(XmlDecl, Remaining());
      } else {
        o := Fail();
      }
    }

    /** After the tag of an element without content its end is reported. */
    method AfterStag() returns (o: Outcome)
      requires Valid() && state == SStag
      modifies this
      ensures o != Finished
      ensures Produces(old(Remaining()), o)
    {
      hide Items, Content, Closed, Layered, Open, Epilog, Prolog, Names, Rooted;
      LayeredSources(stack, sources, depth);
      RootOpen(stack, sources, depth);
      if flags.emptyTag {
        ThenOne(Stop(nodes[0]), Closed(cfg, Items(sources), Open(stack)));
        state := SEtag;
        o := Stopped(Stop(nodes[0]));
      } else {
        o := RunContent();
      }
    }

    /** Goes on after a node without content. */
    method AfterLeaf() returns (o: Outcome)
      requires Valid() && AtLeaf()
      modifies this
      ensures Produces(old(Remaining()), o)
      ensures o == Finished ==> Drained()
    {
      hide Items, Content, Closed, Layered, Open, Epilog, Prolog, Names, Rooted;
      PopLeaf();
      if AtChars() {
        LayeredSources(stack, sources, depth - 1);
        o := Markup();
        return;
      }
      depth := depth - 1;
      if state in {SComment, SPi} {
        LayeredSources(stack, sources, depth);
        o := RunContent();
        return;
      }
      HeldOutside(depth);
      if BeforeRoot() {
        o := RunProlog();
      } else {
        o := RunEpilog();
      }
    }

    /** Goes on from one event to the next. */
    method Step() returns (o: Outcome)
      requires Valid()
      modifies this
      ensures Produces(old(Remaining()), o)
      ensures o == Finished && old(state) != SEof ==> Drained()
    {
      hide Items, Content, Closed, Layered, Open, Epilog, Prolog, Names, Rooted;
      match state
      case SStart =>
        o := Begin();
      case SXmlDecl =>
        HeldOutside(depth);
        o := RunProlog();
      case SDoctype =>
        depth := depth - 1;
        HeldOutside(depth);
        o := RunProlog();
      case SStag =>
        o := AfterStag();
      case SEtag =>
        o := AfterEtag();
      case SEof =>
        o := Finished;
      case _ =>
        o := AfterLeaf();
    }

    /** The next event of a kind the mask lets through; the events in between are not seen. */
    method Next(pull: set<Kind>) returns (o: Outcome)
      requires Valid()
      modifies this
      ensures Valid()
      ensures ReturnsFirst(old(Remaining()), pull, o)
      ensures o == Finished && old(state) != SEof ==> Drained()
    {
      hide Valid, Remaining, Drained;
      ghost var t := Remaining();
      o := Step();
      while o.Stopped? && KindOf(o.event) !in pull
        invariant o.Stopped? ==> Valid() && state != SEof
        invariant o.Stopped? ==> t.events != [] && Remaining() == Trace(t.events[1..], t.end) && t.events[0] == o.event
        invariant First(old(Remaining()).events, pull) ==
                  (|old(Remaining()).events| - |t.events|) + First(t.events, pull)
        invariant |t.events| <= |old(Remaining()).events|
        invariant t == Trace(old(Remaining()).events[|old(Remaining()).events| - |t.events|..], old(Remaining()).end)
        invariant !o.Stopped? ==> state == SEof && t.events == [] && o == OutcomeOf(t.end)
        invariant o == Finished && old(state) != SEof ==> Drained()
        decreases |t.events|, o.Stopped?
      {
        t := Remaining();
        o := Step();
      }
      if !o.Stopped? {
        EndValid();
      }
    }

    lemma EndValid()
      requires state == SEof
      ensures Valid() && Remaining() == Trace([], Complete)
    {
    }

    /** The outcome is the first event the mask lets through and what follows it remains; or no
        event is, and the outcome tells how the document ends. */
    ghost predicate ReturnsFirst(t: Trace, pull: set<Kind>, o: Outcome)
      reads this
    {
      var k := First(t.events, pull);
      if k < |t.events| then o == Stopped(t.events[k]) && Remaining() == Trace(t.events[k + 1..], t.end)
      else o == OutcomeOf(t.end) && state == SEof
    }
  }

  /** The stops of a parser called with any masks, one after the other, are those of the events
      of the document. */
  method PullAll(cfg: Config, hasDecl: bool, document: seq<Piece>, masks: seq<set<Kind>>)
    returns (stops: seq<Event>, end: Outcome)
    ensures stops == Stops(Document(cfg, hasDecl, document).events, masks)
    ensures end.Stopped? <==> |stops| == |masks|
    ensures !end.Stopped? ==> end == OutcomeOf(Document(cfg, hasDecl, document).end)
  {
    hide Document, Stops, First, Parser.Valid, Parser.Remaining;
    var parser := new Parser(cfg, hasDecl, document);
    ghost var t := Document(cfg, hasDecl, document);
    stops, end := [], Stopped(XmlDecl);
    while |stops| < |masks|
      invariant fresh(parser) && parser.Valid() && end.Stopped? && |stops| <= |masks|
      invariant parser.Remaining().end == t.end
      invariant stops + Stops(parser.Remaining().events, masks[|stops|..]) == Stops(t.events, masks)
    {
      ghost var rest, left := parser.Remaining().events, masks[|stops|..];
      var mask := masks[|stops|];
      var o := parser.Next(mask);
      if !o.Stopped? {
        StopsEnd(rest, left);
        assert stops + [] == stops;
        return stops, o;
      }
      StopsMore(rest, left, First(rest, mask));
      assert left[1..] == masks[|stops| + 1..];
      ghost var later := Stops(parser.Remaining().events, left[1..]);
      assert (stops + [o.event]) + later == stops + ([o.event] + later);
      stops := stops + [o.event];
    }
    StopsNone(parser.Remaining().events);
    assert masks[|stops|..] == [] && stops + [] == stops;
  }

  lemma StopsNone(es: seq<Event>)
    ensures Stops(es, []) == []
  {
  }

  lemma StopsEnd(es: seq<Event>, masks: seq<set<Kind>>)
    requires |masks| > 0 && First(es, masks[0]) == |es|
    ensures Stops(es, masks) == []
  {
    hide First;
  }

  lemma StopsMore(es: seq<Event>, masks: seq<set<Kind>>, k: nat)
    requires |masks| > 0 && First(es, masks[0]) == k < |es|
    ensures Stops(es, masks) == [es[k]] + Stops(es[k + 1..], masks[1..])
  {
    hide First;
  }

  lemma RootOpen(stack: seq<Record>, sources: seq<Source>, depth: nat)
    requires Layered(stack, sources, depth) && Rooted(stack) && |stack| > 1
    ensures Names(stack) != []
  {
    NamesInnermost(stack, sources, depth);
  }

  lemma ContentEnd(cfg: Config, text: string, open: seq<Level>)
    ensures Content(cfg, [], text, open) == FATAL
  {
  }

  lemma OpenTop(stack: seq<Record>, sources: seq<Source>)
    requires |stack| > 1
    ensures stack[0].SourceRecord? ==> Open(stack) == [Entity] + Open(stack[1..])
    ensures !stack[0].LeafRecord? ==> Open(stack) != []
  {
  }

  lemma {:induction false} OpenMany(stack: seq<Record>, sources: seq<Source>, depth: nat)
    requires Layered(stack, sources, depth)
    ensures |Open(stack)| == |stack| - 1
    decreases |stack|
  {
    if |stack| > 1 {
      if stack[0].ElemRecord? {
        OpenMany(stack[1..], sources, depth - 1);
      } else {
        OpenMany(stack[1..], sources[1..], sources[0].savedDepth);
      }
    }
  }

  /** Below the end of an element that is not the root its parent goes on. */
  lemma OpenTail(name: string, open: seq<Level>)
    requires open != []
    ensures forall cfg: Config, items: seq<Item> ::
              Closed(cfg, items, [Elem(name)] + open) == Content(cfg, items, "", open)
  {
    assert ([Elem(name)] + open)[1..] == open;
  }
}
