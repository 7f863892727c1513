/**
 Reading what has been written, for every tree and all format options.
 */
module JsonRoundTrip {
  import opened Basics
  import opened JsonText
  import opened JsonNumber
  import opened JsonValue

  /** What a tree means once written: its strings and keys are replaced by their meanings. */
  ghost function TreeMeaning(o: Options, v: Json): (r: Json)
    requires Printable(v)
    ensures Printable(r)
    decreases v, 0
  {
    match v
    case String(s) => String(Meaning(o, s))
    case Array(es) => Array(ElementsMeaning(o, es))
    case Object(ps) => Object(PairsMeaning(o, ps))
    case _ => v
  }

  ghost function ElementsMeaning(o: Options, es: seq<Json>): (r: seq<Json>)
    requires forall i :: 0 <= i < |es| ==> Printable(es[i])
    ensures |r| == |es| && forall i :: 0 <= i < |r| ==> Printable(r[i])
    decreases es, 0
  {
    if es == [] then [] else [TreeMeaning(o, es[0])] + ElementsMeaning(o, es[1..])
  }

  ghost function PairsMeaning(o: Options, ps: seq<Pair>): (r: seq<Pair>)
    requires forall i :: 0 <= i < |ps| ==> IsText(ps[i].key) && Printable(ps[i].value)
    ensures |r| == |ps| && forall i :: 0 <= i < |r| ==> IsText(r[i].key) && Printable(r[i].value)
    decreases ps, 0
  {
    if ps == [] then [] else [Pair(Meaning(o, ps[0].key), TreeMeaning(o, ps[0].value))] + PairsMeaning(o, ps[1..])
  }

  /** Numbers are in range, strings and keys consist of readable code points and the keys of each
      object differ. */
  ghost predicate Acceptable(fits: Range, o: Options, v: Json)
    decreases v
  {
    match v
    case Number(t) => fits(t)
    case String(s) => AllReadable(o, s)
    case Array(es) => forall i :: 0 <= i < |es| ==> Acceptable(fits, o, es[i])
    case Object(ps) =>
      && (forall i :: 0 <= i < |ps| ==> AllReadable(o, ps[i].key) && Acceptable(fits, o, ps[i].value))
      && (forall i, j :: 0 <= i < j < |ps| ==> ps[i].key != ps[j].key)
    case _ => true
  }

  // ----- tokens -----

  /** What the writer puts after a value: a comma or white space. */
  predicate Follows(rest: seq<int>) {
    rest != [] && (rest[0] == COMMA || rest[0] == BLANK || rest[0] == NEWLINE)
  }

  lemma {:induction false} SkipTabs(n: nat, s: seq<int>)
    ensures SkipWhite(Tabs(n) + s) == SkipWhite(s)
  {
    if n == 0 {
      assert Tabs(n) + s == s;
    } else {
      SkipTabs(n - 1, s);
      assert (Tabs(n) + s)[1..] == Tabs(n - 1) + s;
    }
  }

  /** White space before a token is skipped. */
  lemma LexSpace(fits: Range, o: Options, n: nat, s: seq<int>)
    ensures Lex(fits, Space(o, n) + s) == Lex(fits, s)
  {
    SkipTabs(n, s);
    assert (Space(o, n) + s)[1..] == if o.indent then Tabs(n) + s else s;
  }

  /** A punctuation character. */
  lemma LexPunctuation(fits: Range, c: int, s: seq<int>)
    ensures c == OPEN_ARRAY ==> Lex(fits, [c] + s) == Lexed(BeginArray, s)
    ensures c == CLOSE_ARRAY ==> Lex(fits, [c] + s) == Lexed(EndArray, s)
    ensures c == OPEN_OBJECT ==> Lex(fits, [c] + s) == Lexed(BeginObject, s)
    ensures c == CLOSE_OBJECT ==> Lex(fits, [c] + s) == Lexed(EndObject, s)
    ensures c == COLON ==> Lex(fits, [c] + s) == Lexed(NameSep, s)
    ensures c == COMMA ==> Lex(fits, [c] + s) == Lexed(ValueSep, s)
  {
    assert ([c] + s)[1..] == s;
  }

  lemma LexLetters(fits: Range, name: seq<int>, rest: seq<int>)
    requires name != [] && Follows(rest) && forall i :: 0 <= i < |name| ==> IsLower(name[i])
    ensures Lex(fits, name + rest) == LexName(name + rest)
    ensures Letters(name + rest) == name && (name + rest)[|name|..] == rest
  {
    hide LexName, ScanNumber, ScanChars;
    LettersOf(name, rest);
    assert (name + rest)[0] == name[0];
  }

  lemma LexNames(fits: Range, rest: seq<int>)
    requires Follows(rest)
    ensures Lex(fits, NULL_NAME + rest) == Lexed(Elementary(Null), rest)
    ensures Lex(fits, TRUE_NAME + rest) == Lexed(Elementary(Boolean(true)), rest)
    ensures Lex(fits, FALSE_NAME + rest) == Lexed(Elementary(Boolean(false)), rest)
  {
    hide Lex, Letters;
    LexLetters(fits, NULL_NAME, rest);
    LexLetters(fits, TRUE_NAME, rest);
    LexLetters(fits, FALSE_NAME, rest);
    assert NULL_NAME[0] == 0x6e && TRUE_NAME[0] == 0x74 && FALSE_NAME[0] == 0x66;
  }

  lemma LexNumber(fits: Range, t: seq<int>, rest: seq<int>)
    requires IsNumber(t) && Follows(rest)
    ensures fits(t) ==> Lex(fits, t + rest) == Lexed(Elementary(Number(t)), rest)
    ensures !fits(t) ==> Lex(fits, t + rest) == LexError(OutOfRange)
  {
    hide ScanNumber;
    var n: Numeral :| n.Valid() && n.Text() == t;
    NumberScanned(n, rest);
    assert IsDigit(n.whole[0]);
    assert Peek(t + rest) == MINUS || IsDigit(Peek(t + rest));
  }

  /** A written string is read as its meaning or refused. */
  lemma LexString(fits: Range, o: Options, s: seq<int>, rest: seq<int>)
    requires IsText(s) && Meaning(o, s) == s
    ensures var r := Lex(fits, PrintString(o, s) + rest);
            if AllReadable(o, s) then r == Lexed(Elementary(String(s)), rest) else r.LexError?
  {
    CharsRoundTrip(o, s, rest);
    hide PrintChars, ScanChars, AllReadable, Meaning, ScanNumber, LexName;
    var p := PrintChars(o, s);
    Assoc([QUOTE], p + [QUOTE], rest);
    Assoc(p, [QUOTE], rest);
    Assoc([QUOTE], p, [QUOTE]);
    var t := [QUOTE] + (p + ([QUOTE] + rest));
    assert t[1..] == p + ([QUOTE] + rest);
    assert SkipWhite(t) == t;
  }

  /** No value starts with a closing bracket. */
  lemma StartsValue(fits: Range, o: Options, n: nat, v: Json, rest: seq<int>)
    requires Printable(v)
    ensures var r := Lex(fits, Print(o, n, v) + rest);
            r.Lexed? ==> r.token != EndArray && r.token != EndObject && r.token != Eof
  {
    var s := Print(o, n, v) + rest;
    if v.Number? {
      var m: Numeral :| m.Valid() && m.Text() == v.text;
      assert IsDigit(m.whole[0]);
      assert Peek(s) == MINUS || IsDigit(Peek(s));
    }
    assert Peek(s) == Print(o, n, v)[0];
    assert SkipWhite(s) == s;
  }

  // ----- single steps of the reader -----

  lemma ElementsStep(fits: Range, s: seq<int>, acc: seq<Json>, rest': seq<int>)
    ensures var p := ParseValue(fits, s); var r := ParseElements(fits, s, acc);
            && (p.Err? ==> r.Err?)
            && (p.Ok? && Lex(fits, p.rest) == Lexed(EndArray, rest') ==> r == Ok(Array(acc + [p.v]), rest'))
            && (p.Ok? && Lex(fits, p.rest) == Lexed(ValueSep, rest') ==> r == ParseElements(fits, rest', acc + [p.v]))
  {
  }

  lemma PairsStep(fits: Range, s: seq<int>, acc: seq<Pair>, rest': seq<int>)
    ensures var p := ParseValue(fits, s); var r := ParsePairs(fits, s, acc);
            && (p.Err? ==> r.Err?)
            && (p.Ok? && p.v.String? && Lex(fits, p.rest) == Lexed(NameSep, rest') ==>
                r == ParsePairValue(fits, rest', acc, p.v.s))
  {
  }

  lemma PairValueStep(fits: Range, s: seq<int>, acc: seq<Pair>, key: seq<int>, rest': seq<int>)
    ensures var p := ParseValue(fits, s); var r := ParsePairValue(fits, s, acc, key);
            && (p.Err? || HasKey(acc, key) ==> r.Err?)
            && (p.Ok? && !HasKey(acc, key) && Lex(fits, p.rest) == Lexed(EndObject, rest') ==>
                  r == Ok(Object(acc + [Pair(key, p.v)]), rest'))
            && (p.Ok? && !HasKey(acc, key) && Lex(fits, p.rest) == Lexed(ValueSep, rest') ==>
                  r == ParsePairs(fits, rest', acc + [Pair(key, p.v)]))
  {
  }

  /** An opening bracket followed by something else than the closing one. */
  lemma OpenStep(fits: Range, s: seq<int>)
    ensures (Lex(fits, s).Lexed? ==> Lex(fits, s).token != EndArray) ==>
              ParseValue(fits, [OPEN_ARRAY] + s) == ParseElements(fits, s, [])
    ensures (Lex(fits, s).Lexed? ==> Lex(fits, s).token != EndObject) ==>
              ParseValue(fits, [OPEN_OBJECT] + s) == ParsePairs(fits, s, [])
  {
    LexPunctuation(fits, OPEN_ARRAY, s);
    LexPunctuation(fits, OPEN_OBJECT, s);
    hide LexToken, SkipWhite;
    if Lex(fits, s).LexError? {
      assert ParseValue(fits, s) == Err(Lex(fits, s).error);
      assert ParseElements(fits, s, []) == Err(Lex(fits, s).error);
      assert ParsePairs(fits, s, []) == Err(Lex(fits, s).error);
    }
  }

  lemma EmptyBrackets(fits: Range, rest: seq<int>)
    ensures ParseValue(fits, [OPEN_ARRAY, CLOSE_ARRAY] + rest) == Ok(Array([]), rest)
    ensures ParseValue(fits, [OPEN_OBJECT, CLOSE_OBJECT] + rest) == Ok(Object([]), rest)
  {
    hide Lex;
    LexPunctuation(fits, CLOSE_ARRAY, rest);
    LexPunctuation(fits, CLOSE_OBJECT, rest);
    LexPunctuation(fits, OPEN_ARRAY, [CLOSE_ARRAY] + rest);
    LexPunctuation(fits, OPEN_OBJECT, [CLOSE_OBJECT] + rest);
    assert [OPEN_ARRAY, CLOSE_ARRAY] + rest == [OPEN_ARRAY] + ([CLOSE_ARRAY] + rest);
    assert [OPEN_OBJECT, CLOSE_OBJECT] + rest == [OPEN_OBJECT] + ([CLOSE_OBJECT] + rest);
  }

  ghost predicate AllAcceptable(fits: Range, o: Options, es: seq<Json>) {
    forall i :: 0 <= i < |es| ==> Acceptable(fits, o, es[i])
  }

  lemma AllAcceptableSplit(fits: Range, o: Options, es: seq<Json>)
    requires es != []
    ensures AllAcceptable(fits, o, es) <==> Acceptable(fits, o, es[0]) && AllAcceptable(fits, o, es[1..])
  {
    hide Acceptable;
    if AllAcceptable(fits, o, es[1..]) {
      assert forall i :: 1 <= i < |es| ==> es[i] == es[1..][i - 1];
    }
  }

  ghost predicate AcceptablePairs(fits: Range, o: Options, ps: seq<Pair>) {
    forall i :: 0 <= i < |ps| ==> AllReadable(o, ps[i].key) && Acceptable(fits, o, ps[i].value)
  }

  lemma AcceptablePairsSplit(fits: Range, o: Options, ps: seq<Pair>)
    requires ps != []
    ensures AcceptablePairs(fits, o, ps) <==>
            AllReadable(o, ps[0].key) && Acceptable(fits, o, ps[0].value) && AcceptablePairs(fits, o, ps[1..])
  {
    hide Acceptable, AllReadable;
    if AcceptablePairs(fits, o, ps[1..]) {
      assert forall i :: 1 <= i < |ps| ==> ps[i] == ps[1..][i - 1];
    }
  }

  ghost predicate AllPrintable(es: seq<Json>) {
    forall i :: 0 <= i < |es| ==> Printable(es[i])
  }

  ghost predicate PrintablePairs(ps: seq<Pair>) {
    forall i :: 0 <= i < |ps| ==> IsText(ps[i].key) && Printable(ps[i].value)
  }

  lemma ElementsMeaningSplit(o: Options, es: seq<Json>)
    requires es != [] && AllPrintable(es) && ElementsMeaning(o, es) == es
    ensures Printable(es[0]) && AllPrintable(es[1..])
    ensures TreeMeaning(o, es[0]) == es[0] && ElementsMeaning(o, es[1..]) == es[1..]
  {
    assert es == [es[0]] + es[1..];
  }

  lemma PairsMeaningSplit(o: Options, ps: seq<Pair>)
    requires ps != [] && PrintablePairs(ps) && PairsMeaning(o, ps) == ps
    ensures IsText(ps[0].key) && Printable(ps[0].value) && PrintablePairs(ps[1..])
    ensures Meaning(o, ps[0].key) == ps[0].key && TreeMeaning(o, ps[0].value) == ps[0].value
    ensures PairsMeaning(o, ps[1..]) == ps[1..]
  {
    assert ps == [ps[0]] + ps[1..];
  }

  // ----- values -----

  /** ParseValue only looks at the input through its first token. */
  lemma ParseSpace(fits: Range, o: Options, n: nat, s: seq<int>)
    ensures ParseValue(fits, Space(o, n) + s) == ParseValue(fits, s)
  {
    LexSpace(fits, o, n, s);
  }

  /** The outcome of reading v back: v itself if acceptable, else an error. */
  ghost predicate ReadBack(fits: Range, o: Options, v: Json, rest: seq<int>, r: Parsed) {
    if Acceptable(fits, o, v) then r == Ok(v, rest) else r.Err?
  }

  lemma {:induction false} ValueReadBack(fits: Range, o: Options, n: nat, v: Json, rest: seq<int>)
    requires Printable(v) && TreeMeaning(o, v) == v && Follows(rest)
    ensures ReadBack(fits, o, v, rest, ParseValue(fits, Print(o, n, v) + rest))
    decreases v, 0
  {
    match v
    case Null => LexNames(fits, rest);
    case Boolean(_) => LexNames(fits, rest);
    case Number(t) => LexNumber(fits, t, rest);
    case String(s) => LexString(fits, o, s, rest);
    case Array(es) => ArrayReadBack(fits, o, n, es, rest);
    case Object(ps) => ObjectReadBack(fits, o, n, ps, rest);
  }

  lemma {:induction false} ArrayReadBack(fits: Range, o: Options, n: nat, es: seq<Json>, rest: seq<int>)
    requires AllPrintable(es) && ElementsMeaning(o, es) == es && Follows(rest)
    ensures ReadBack(fits, o, Array(es), rest, ParseValue(fits, Print(o, n, Array(es)) + rest))
    decreases es, 2
  {
    LexPunctuation(fits, CLOSE_ARRAY, rest);
    hide Lex, ParseValue, ParseElements, PrintElements, Printable;
    if es == [] {
      EmptyBrackets(fits, rest);
    } else {
      var tail := Space(o, n) + ([CLOSE_ARRAY] + rest);
      var s := PrintElements(o, n + 1, es) + tail;
      ArrayText(o, n, es, rest);
      LexSpace(fits, o, n, [CLOSE_ARRAY] + rest);
      ElementsStart(fits, o, n + 1, es, tail);
      OpenStep(fits, s);
      ElementsReadBack(fits, o, n + 1, es, [], tail, rest);
      assert [] + es == es;
      assert Acceptable(fits, o, Array(es)) == AllAcceptable(fits, o, es);
    }
  }

  lemma ArrayText(o: Options, n: nat, es: seq<Json>, rest: seq<int>)
    requires AllPrintable(es) && es != []
    ensures Print(o, n, Array(es)) + rest ==
            [OPEN_ARRAY] + (PrintElements(o, n + 1, es) + (Space(o, n) + ([CLOSE_ARRAY] + rest)))
  {
    var p, w := PrintElements(o, n + 1, es), Space(o, n);
    hide PrintElements;
    Assoc([OPEN_ARRAY], p + (w + [CLOSE_ARRAY]), rest);
    Assoc(p, w + [CLOSE_ARRAY], rest);
    Assoc(w, [CLOSE_ARRAY], rest);
  }

  /** One element, what follows it, and the elements after that. */
  lemma ElementsText(o: Options, n: nat, es: seq<Json>, tail: seq<int>)
    requires es != [] && forall i :: 0 <= i < |es| ==> Printable(es[i])
    ensures |es| == 1 ==> PrintElements(o, n, es) + tail == Space(o, n) + (Print(o, n, es[0]) + tail)
    ensures |es| > 1 ==>
              PrintElements(o, n, es) + tail ==
              Space(o, n) + (Print(o, n, es[0]) + ([COMMA] + (PrintElements(o, n, es[1..]) + tail)))
  {
    var w, p := Space(o, n), Print(o, n, es[0]);
    hide Print, Space;
    if |es| == 1 {
      assert p + [] == p;
      Assoc(w, p, tail);
    } else {
      var q := PrintElements(o, n, es[1..]);
      Assoc(w, p + ([COMMA] + q), tail);
      Assoc(p, [COMMA] + q, tail);
      Assoc([COMMA], q, tail);
    }
  }

  lemma ElementsStart(fits: Range, o: Options, n: nat, es: seq<Json>, tail: seq<int>)
    requires es != [] && forall i :: 0 <= i < |es| ==> Printable(es[i])
    ensures var r := Lex(fits, PrintElements(o, n, es) + tail); r.Lexed? ==> r.token != EndArray
  {
    ElementsText(o, n, es, tail);
    var next := if |es| == 1 then tail else [COMMA] + (PrintElements(o, n, es[1..]) + tail);
    hide PrintElements, Print;
    StartsValue(fits, o, n, es[0], next);
    LexSpace(fits, o, n, Print(o, n, es[0]) + next);
  }

  lemma {:induction false} ElementsReadBack(fits: Range, o: Options, n: nat, es: seq<Json>, acc: seq<Json>,
                                            tail: seq<int>, rest: seq<int>)
    requires es != [] && AllPrintable(es) && ElementsMeaning(o, es) == es
    requires Follows(tail) && Lex(fits, tail) == Lexed(EndArray, rest)
    ensures var r := ParseElements(fits, PrintElements(o, n, es) + tail, acc);
            if AllAcceptable(fits, o, es) then r == Ok(Array(acc + es), rest) else r.Err?
    decreases es, 1
  {
    hide Lex, Print, PrintElements, Space, IsNumber, Acceptable, AllAcceptable, Printable, ParseValue, ParseElements,
      ElementsMeaning, TreeMeaning;
    ElementsText(o, n, es, tail);
    ElementsMeaningSplit(o, es);
    AllAcceptableSplit(fits, o, es);
    var rest' := if |es| == 1 then rest else PrintElements(o, n, es[1..]) + tail;
    var next := if |es| == 1 then tail else [COMMA] + rest';
    ParseSpace(fits, o, n, Print(o, n, es[0]) + next);
    ValueReadBack(fits, o, n, es[0], next);
    var s := Space(o, n) + (Print(o, n, es[0]) + next);
    assert s == PrintElements(o, n, es) + tail;
    if |es| > 1 {
      LexPunctuation(fits, COMMA, rest');
      ElementsStep(fits, s, acc, rest');
      ElementsReadBack(fits, o, n, es[1..], acc + [es[0]], tail, rest);
      assert acc + [es[0]] + es[1..] == acc + es;
    } else {
      ElementsStep(fits, s, acc, rest);
      assert es == [es[0]];
      assert AllAcceptable(fits, o, es[1..]) by {
        NoElements(fits, o, es[1..]);
      }
    }
  }

  lemma NoElements(fits: Range, o: Options, es: seq<Json>)
    requires es == []
    ensures AllAcceptable(fits, o, es)
  {
  }

  // ----- objects -----

  lemma {:induction false} ObjectReadBack(fits: Range, o: Options, n: nat, ps: seq<Pair>, rest: seq<int>)
    requires PrintablePairs(ps) && PairsMeaning(o, ps) == ps && Follows(rest)
    ensures ReadBack(fits, o, Object(ps), rest, ParseValue(fits, Print(o, n, Object(ps)) + rest))
    decreases ps, 2
  {
    LexPunctuation(fits, CLOSE_OBJECT, rest);
    hide Lex, ParseValue, ParsePairs, PrintPairs, Printable, IsText, AllReadable;
    if ps == [] {
      EmptyBrackets(fits, rest);
    } else {
      var tail := Space(o, n) + ([CLOSE_OBJECT] + rest);
      var s := PrintPairs(o, n + 1, ps) + tail;
      ObjectText(o, n, ps, rest);
      LexSpace(fits, o, n, [CLOSE_OBJECT] + rest);
      PairsStart(fits, o, n + 1, ps, tail);
      OpenStep(fits, s);
      PairsReadBack(fits, o, n + 1, ps, [], tail, rest);
      assert [] + ps == ps;
      assert Acceptable(fits, o, Object(ps)) == (AcceptablePairs(fits, o, ps) && FreshKeys([], ps));
    }
  }

  /** No key of `ps` occurs earlier in it or in `acc`. */
  ghost predicate FreshKeys(acc: seq<Pair>, ps: seq<Pair>) {
    && (forall i, j :: 0 <= i < |acc| && 0 <= j < |ps| ==> acc[i].key != ps[j].key)
    && (forall i, j :: 0 <= i < j < |ps| ==> ps[i].key != ps[j].key)
  }

  lemma FreshIsDistinct(acc: seq<Pair>, ps: seq<Pair>)
    ensures ps != [] ==> (FreshKeys(acc, ps) <==> !HasKey(acc, ps[0].key) && FreshKeys(acc + [ps[0]], ps[1..]))
  {
    if ps != [] {
      var bcc, qs := acc + [ps[0]], ps[1..];
      if FreshKeys(acc, ps) {
        forall i, j | 0 <= i < |bcc| && 0 <= j < |qs|
          ensures bcc[i].key != qs[j].key
        {
          assert qs[j] == ps[j + 1];
        }
      }
      if !HasKey(acc, ps[0].key) && FreshKeys(bcc, qs) {
        forall i, j | 0 <= i < |acc| && 0 <= j < |ps|
          ensures acc[i].key != ps[j].key
        {
          assert bcc[i] == acc[i];
          assert j > 0 ==> ps[j] == qs[j - 1];
        }
        forall i, j | 0 <= i < j < |ps|
          ensures ps[i].key != ps[j].key
        {
          assert bcc[|acc|] == ps[0] && ps[j] == qs[j - 1];
          assert i > 0 ==> ps[i] == qs[i - 1];
        }
      }
    }
  }

  lemma ObjectText(o: Options, n: nat, ps: seq<Pair>, rest: seq<int>)
    requires PrintablePairs(ps) && ps != []
    ensures Print(o, n, Object(ps)) + rest ==
            [OPEN_OBJECT] + (PrintPairs(o, n + 1, ps) + (Space(o, n) + ([CLOSE_OBJECT] + rest)))
  {
    var p, w := PrintPairs(o, n + 1, ps), Space(o, n);
    hide PrintPairs;
    Assoc([OPEN_OBJECT], p + (w + [CLOSE_OBJECT]), rest);
    Assoc(p, w + [CLOSE_OBJECT], rest);
    Assoc(w, [CLOSE_OBJECT], rest);
  }

  /** What follows the value of the first attribute. */
  ghost function AfterPair(o: Options, n: nat, ps: seq<Pair>, tail: seq<int>): seq<int>
    requires ps != [] && forall i :: 0 <= i < |ps| ==> IsText(ps[i].key) && Printable(ps[i].value)
  {
    if |ps| == 1 then tail else [COMMA] + (PrintPairs(o, n, ps[1..]) + tail)
  }

  lemma PairsText(o: Options, n: nat, ps: seq<Pair>, tail: seq<int>)
    requires ps != [] && forall i :: 0 <= i < |ps| ==> IsText(ps[i].key) && Printable(ps[i].value)
    ensures PrintPairs(o, n, ps) + tail ==
            Space(o, n) + (PrintString(o, ps[0].key) +
                           ([COLON] + ([BLANK] + (Print(o, n, ps[0].value) + AfterPair(o, n, ps, tail)))))
  {
    var w, k, p := Space(o, n), PrintString(o, ps[0].key), Print(o, n, ps[0].value);
    var q := if |ps| == 1 then [] else [COMMA] + PrintPairs(o, n, ps[1..]);
    assert PrintPairs(o, n, ps) == w + (k + ([COLON, BLANK] + (p + q)));
    assert q + tail == AfterPair(o, n, ps, tail) by {
      if |ps| > 1 {
        Assoc([COMMA], PrintPairs(o, n, ps[1..]), tail);
      } else {
        assert [] + tail == tail;
      }
    }
    hide *;
    var cb := [COLON, BLANK];
    Assoc(w, k + (cb + (p + q)), tail);
    Assoc(k, cb + (p + q), tail);
    Assoc(cb, p + q, tail);
    Assoc(p, q, tail);
    Assoc([COLON], [BLANK], p + (q + tail));
    assert cb == [COLON] + [BLANK];
  }

  lemma PairsStart(fits: Range, o: Options, n: nat, ps: seq<Pair>, tail: seq<int>)
    requires ps != [] && forall i :: 0 <= i < |ps| ==> IsText(ps[i].key) && Printable(ps[i].value)
    ensures var r := Lex(fits, PrintPairs(o, n, ps) + tail); r.Lexed? ==> r.token != EndObject
  {
    PairsText(o, n, ps, tail);
    var next := [COLON] + ([BLANK] + (Print(o, n, ps[0].value) + AfterPair(o, n, ps, tail)));
    hide PrintPairs, AfterPair;
    StartsValue(fits, o, n, String(ps[0].key), next);
    LexSpace(fits, o, n, PrintString(o, ps[0].key) + next);
  }

  lemma {:induction false} PairsReadBack(fits: Range, o: Options, n: nat, ps: seq<Pair>, acc: seq<Pair>,
                                         tail: seq<int>, rest: seq<int>)
    requires ps != [] && PrintablePairs(ps) && PairsMeaning(o, ps) == ps
    requires Follows(tail) && Lex(fits, tail) == Lexed(EndObject, rest)
    ensures var r := ParsePairs(fits, PrintPairs(o, n, ps) + tail, acc);
            if AcceptablePairs(fits, o, ps) && FreshKeys(acc, ps) then r == Ok(Object(acc + ps), rest) else r.Err?
    decreases ps, 1
  {
    PairsText(o, n, ps, tail);
    PairsMeaningSplit(o, ps);
    AcceptablePairsSplit(fits, o, ps);
    PairValueReadBack(fits, o, n, ps, acc, tail, rest);
    var key, v := ps[0].key, ps[0].value;
    var afterColon := [BLANK] + (Print(o, n, v) + AfterPair(o, n, ps, tail));
    var s := PrintString(o, key) + ([COLON] + afterColon);
    ParseSpace(fits, o, n, s);
    LexString(fits, o, key, [COLON] + afterColon);
    StringValue(fits, s);
    LexPunctuation(fits, COLON, afterColon);
    PairsStep(fits, Space(o, n) + s, acc, afterColon);
    hide Lex, ParsePairs, ParseValue, ParsePairValue, Print, PrintPairs, PrintString, AfterPair, Space, Acceptable,
      AcceptablePairs, AllReadable, FreshKeys, Printable, PairsMeaning, IsText;
    assert PrintPairs(o, n, ps) + tail == Space(o, n) + s;
  }

  /** An elementary token is a value. */
  lemma StringValue(fits: Range, s: seq<int>)
    ensures Lex(fits, s).LexError? ==> ParseValue(fits, s).Err?
    ensures Lex(fits, s).Lexed? && Lex(fits, s).token.Elementary? ==>
              ParseValue(fits, s) == Ok(Lex(fits, s).token.v, Lex(fits, s).rest)
  {
  }

  lemma {:induction false} PairValueReadBack(fits: Range, o: Options, n: nat, ps: seq<Pair>, acc: seq<Pair>,
                                             tail: seq<int>, rest: seq<int>)
    requires ps != [] && PrintablePairs(ps) && PairsMeaning(o, ps) == ps
    requires Follows(tail) && Lex(fits, tail) == Lexed(EndObject, rest)
    ensures var text := [BLANK] + (Print(o, n, ps[0].value) + AfterPair(o, n, ps, tail));
            var r := ParsePairValue(fits, text, acc, ps[0].key);
            if Acceptable(fits, o, ps[0].value) && FreshKeys(acc, ps) && AcceptablePairs(fits, o, ps[1..])
            then r == Ok(Object(acc + ps), rest) else r.Err?
    decreases ps, 0
  {
    hide Lex, ParsePairs, ParseValue, ParsePairValue, Print, PrintPairs, AfterPair, Acceptable, Space, Follows,
      AcceptablePairs, FreshKeys, HasKey, Printable, PrintablePairs, PairsMeaning, TreeMeaning, Meaning, IsText;
    PairsMeaningSplit(o, ps);
    FreshIsDistinct(acc, ps);
    NoPairs(fits, o, acc + [ps[0]], ps[1..]);
    AfterPairText(fits, o, n, ps, tail);
    var v := ps[0].value;
    var text := Print(o, n, v) + AfterPair(o, n, ps, tail);
    ParseSpace(fits, Options(false, false), 0, text);
    BlankSpace();
    ValueReadBack(fits, o, n, v, AfterPair(o, n, ps, tail));
    assert ps[0] == Pair(ps[0].key, v);
    if |ps| > 1 {
      PairValueStep(fits, [BLANK] + text, acc, ps[0].key, PrintPairs(o, n, ps[1..]) + tail);
      PairsReadBack(fits, o, n, ps[1..], acc + [ps[0]], tail, rest);
      assert acc + [ps[0]] + ps[1..] == acc + ps;
    } else {
      PairValueStep(fits, [BLANK] + text, acc, ps[0].key, rest);
      assert [ps[0]] == ps;
    }
  }

  lemma BlankSpace()
    ensures Space(Options(false, false), 0) == [BLANK]
  {
  }

  lemma AfterPairText(fits: Range, o: Options, n: nat, ps: seq<Pair>, tail: seq<int>)
    requires ps != [] && PrintablePairs(ps) && Follows(tail)
    ensures Follows(AfterPair(o, n, ps, tail))
    ensures |ps| == 1 ==> AfterPair(o, n, ps, tail) == tail
    ensures |ps| > 1 ==> Lex(fits, AfterPair(o, n, ps, tail)) == Lexed(ValueSep, PrintPairs(o, n, ps[1..]) + tail)
  {
    if |ps| > 1 {
      LexPunctuation(fits, COMMA, PrintPairs(o, n, ps[1..]) + tail);
    }
  }

  lemma NoPairs(fits: Range, o: Options, acc: seq<Pair>, ps: seq<Pair>)
    ensures ps == [] ==> FreshKeys(acc, ps) && AcceptablePairs(fits, o, ps)
  {
  }

  // ----- the theorem -----

  lemma {:induction false} TreePrintMeaning(o: Options, n: nat, v: Json)
    requires Printable(v)
    ensures Print(o, n, TreeMeaning(o, v)) == Print(o, n, v)
    decreases v, 0
  {
    match v
    case String(s) => PrintMeaning(o, s);
    case Array(es) => if es != [] { ElementsPrintMeaning(o, n + 1, es); }
    case Object(ps) => if ps != [] { PairsPrintMeaning(o, n + 1, ps); }
    case _ =>
  }

  lemma {:induction false} ElementsPrintMeaning(o: Options, n: nat, es: seq<Json>)
    requires es != [] && forall i :: 0 <= i < |es| ==> Printable(es[i])
    ensures PrintElements(o, n, ElementsMeaning(o, es)) == PrintElements(o, n, es)
    decreases es, 0
  {
    TreePrintMeaning(o, n, es[0]);
    assert ElementsMeaning(o, es)[1..] == ElementsMeaning(o, es[1..]);
    if |es| > 1 {
      ElementsPrintMeaning(o, n, es[1..]);
    }
  }

  lemma {:induction false} PairsPrintMeaning(o: Options, n: nat, ps: seq<Pair>)
    requires ps != [] && forall i :: 0 <= i < |ps| ==> IsText(ps[i].key) && Printable(ps[i].value)
    ensures PrintPairs(o, n, PairsMeaning(o, ps)) == PrintPairs(o, n, ps)
    decreases ps, 0
  {
    PrintMeaning(o, ps[0].key);
    TreePrintMeaning(o, n, ps[0].value);
    assert PairsMeaning(o, ps)[1..] == PairsMeaning(o, ps[1..]);
    if |ps| > 1 {
      PairsPrintMeaning(o, n, ps[1..]);
    }
  }

  lemma {:induction false} TreeMeaningIdempotent(o: Options, v: Json)
    requires Printable(v)
    ensures TreeMeaning(o, TreeMeaning(o, v)) == TreeMeaning(o, v)
    decreases v, 0
  {
    match v
    case String(s) => MeaningIdempotent(o, s);
    case Array(es) => ElementsMeaningIdempotent(o, es);
    case Object(ps) => PairsMeaningIdempotent(o, ps);
    case _ =>
  }

  lemma {:induction false} ElementsMeaningIdempotent(o: Options, es: seq<Json>)
    requires forall i :: 0 <= i < |es| ==> Printable(es[i])
    ensures ElementsMeaning(o, ElementsMeaning(o, es)) == ElementsMeaning(o, es)
    decreases es, 0
  {
    if es != [] {
      TreeMeaningIdempotent(o, es[0]);
      ElementsMeaningIdempotent(o, es[1..]);
      assert ElementsMeaning(o, es)[1..] == ElementsMeaning(o, es[1..]);
    }
  }

  lemma {:induction false} PairsMeaningIdempotent(o: Options, ps: seq<Pair>)
    requires forall i :: 0 <= i < |ps| ==> IsText(ps[i].key) && Printable(ps[i].value)
    ensures PairsMeaning(o, PairsMeaning(o, ps)) == PairsMeaning(o, ps)
    decreases ps, 0
  {
    if ps != [] {
      MeaningIdempotent(o, ps[0].key);
      TreeMeaningIdempotent(o, ps[0].value);
      PairsMeaningIdempotent(o, ps[1..]);
      assert PairsMeaning(o, ps)[1..] == PairsMeaning(o, ps[1..]);
    }
  }

  /** What the reader makes of a written file: the meaning of the tree if that is acceptable,
      an error otherwise. Holds for every tree and every combination of format options. */
  lemma ReadWritten(fits: Range, o: Options, n: nat, v: Json)
    requires Printable(v)
    ensures var m := TreeMeaning(o, v); var r := Parse(fits, Print(o, n, v) + [NEWLINE]);
            if Acceptable(fits, o, m) then r == Ok(m, []) else r.Err?
  {
    var m := TreeMeaning(o, v);
    TreePrintMeaning(o, n, v);
    TreeMeaningIdempotent(o, v);
    ValueReadBack(fits, o, n, m, [NEWLINE]);
    assert [NEWLINE][1..] == [];
  }

  lemma {:induction false} AcceptableIsFixed(fits: Range, o: Options, v: Json)
    requires Printable(v) && Acceptable(fits, o, v)
    ensures TreeMeaning(o, v) == v
    decreases v
  {
    match v
    case String(s) => MeaningReadable(o, s);
    case Array(es) => ElementsFixed(fits, o, es);
    case Object(ps) => PairsFixed(fits, o, ps);
    case _ =>
  }

  lemma {:induction false} ElementsFixed(fits: Range, o: Options, es: seq<Json>)
    requires forall i :: 0 <= i < |es| ==> Printable(es[i]) && Acceptable(fits, o, es[i])
    ensures ElementsMeaning(o, es) == es
    decreases es
  {
    if es != [] {
      AcceptableIsFixed(fits, o, es[0]);
      ElementsFixed(fits, o, es[1..]);
    }
  }

  lemma {:induction false} PairsFixed(fits: Range, o: Options, ps: seq<Pair>)
    requires forall i :: 0 <= i < |ps| ==> IsText(ps[i].key) && Printable(ps[i].value)
    requires forall i :: 0 <= i < |ps| ==> AllReadable(o, ps[i].key) && Acceptable(fits, o, ps[i].value)
    ensures PairsMeaning(o, ps) == ps
    decreases ps
  {
    if ps != [] {
      MeaningReadable(o, ps[0].key);
      AcceptableIsFixed(fits, o, ps[0].value);
      PairsFixed(fits, o, ps[1..]);
    }
  }

  /** The writer and the reader undo each other exactly on the acceptable trees. */
  lemma RoundTrip(fits: Range, o: Options, n: nat, v: Json)
    requires Printable(v)
    ensures Parse(fits, Print(o, n, v) + [NEWLINE]) == Ok(v, []) <==> Acceptable(fits, o, v)
  {
    ReadWritten(fits, o, n, v);
    if Acceptable(fits, o, v) {
      AcceptableIsFixed(fits, o, v);
    }
  }

  /** What has been read from a written file is written and read without change from then on. */
  lemma ReadIsStable(fits: Range, o: Options, n: nat, v: Json, w: Json, rest: seq<int>, m: nat)
    requires Printable(v) && Parse(fits, Print(o, n, v) + [NEWLINE]) == Ok(w, rest)
    ensures Printable(w) && Parse(fits, Print(o, m, w) + [NEWLINE]) == Ok(w, [])
  {
    hide Parse, Print, Acceptable;
    ReadWritten(fits, o, n, v);
    TreePrintMeaning(o, n, v);
    RoundTrip(fits, o, m, w);
  }
}
