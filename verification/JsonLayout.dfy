/** What written JSON texts look like: which characters they consist of, and where lines end. */
module JsonLayout {
  import opened Basics
  import opened JsonText
  import opened JsonNumber
  import opened JsonValue
  import opened JsonGrammar
  import opened JsonSyntax

  /** No control characters but those of the layout, and with escapes only ASCII. */
  predicate Plain(o: Options, c: int) {
    c == Code('\t') || c == Code('\n') || (0x20 <= c && (o.escapeNonAscii ==> c <= 0x7e))
  }

  predicate AllPlain(o: Options, s: seq<int>) {
    forall i :: 0 <= i < |s| ==> Plain(o, s[i])
  }

  lemma PlainConcat(o: Options, s: seq<int>, t: seq<int>)
    requires AllPlain(o, s) && AllPlain(o, t)
    ensures AllPlain(o, s + t)
  {
    hide Plain;
  }

  lemma PlainChar(o: Options, u: nat)
    requires u > 0
    ensures AllPlain(o, PrintChar(o, u))
  {
  }

  lemma {:induction false} PlainChars(o: Options, s: seq<int>)
    requires IsText(s)
    ensures AllPlain(o, PrintChars(o, s))
  {
    hide Plain, PrintChar;
    if s != [] {
      PlainChar(o, s[0]);
      PlainChars(o, s[1..]);
      PlainConcat(o, PrintChar(o, s[0]), PrintChars(o, s[1..]));
    }
  }

  lemma PlainString(o: Options, s: seq<int>)
    requires IsText(s)
    ensures AllPlain(o, PrintString(o, s))
  {
    PlainChars(o, s);
    assert AllPlain(o, [QUOTE]);
    hide AllPlain, PrintChars;
    PlainConcat(o, [QUOTE], PrintChars(o, s));
    PlainConcat(o, [QUOTE] + PrintChars(o, s), [QUOTE]);
  }

  lemma PlainNumber(o: Options, n: Numeral)
    requires n.Valid()
    ensures AllPlain(o, n.Text())
  {
    PlainExponent(o, n);
    var sign := if n.minus then [MINUS] else [];
    assert AllPlain(o, sign) && AllPlain(o, n.whole) && AllPlain(o, n.FractionText());
    hide AllPlain, ExponentOf, FractionOf;
    PlainConcat(o, n.FractionText(), n.ExponentText());
    PlainConcat(o, n.whole, n.FractionText() + n.ExponentText());
    PlainConcat(o, sign, n.whole + (n.FractionText() + n.ExponentText()));
  }

  lemma PlainExponent(o: Options, n: Numeral)
    requires n.Valid()
    ensures AllPlain(o, n.ExponentText())
  {
  }

  lemma {:induction false} PlainTabs(o: Options, n: nat)
    ensures AllPlain(o, Tabs(n))
  {
    if n > 0 {
      PlainTabs(o, n - 1);
    }
  }

  lemma PlainSpace(o: Options, n: nat)
    ensures AllPlain(o, Space(o, n))
  {
    PlainTabs(o, n);
  }

  /** Every text that is written is plain. */
  lemma {:induction false} PlainText(o: Options, n: nat, v: Json)
    requires Printable(v)
    ensures AllPlain(o, Print(o, n, v))
    decreases v, 1
  {
    match v
    case Number(t) =>
      var m: Numeral :| m.Valid() && m.Text() == t;
      PlainNumber(o, m);
    case String(s) => PlainString(o, s);
    case Array(es) =>
      assert AllPlain(o, [OPEN_ARRAY]) && AllPlain(o, [CLOSE_ARRAY]) && AllPlain(o, [OPEN_ARRAY, CLOSE_ARRAY]);
      if es != [] {
        PlainElements(o, n + 1, es);
        PlainSpace(o, n);
        hide AllPlain, PrintElements, Space;
        PlainConcat(o, Space(o, n), [CLOSE_ARRAY]);
        PlainConcat(o, PrintElements(o, n + 1, es), Space(o, n) + [CLOSE_ARRAY]);
        PlainConcat(o, [OPEN_ARRAY], PrintElements(o, n + 1, es) + (Space(o, n) + [CLOSE_ARRAY]));
      }
    case Object(ps) =>
      assert AllPlain(o, [OPEN_OBJECT]) && AllPlain(o, [CLOSE_OBJECT]) && AllPlain(o, [OPEN_OBJECT, CLOSE_OBJECT]);
      if ps != [] {
        PlainPairs(o, n + 1, ps);
        PlainSpace(o, n);
        hide AllPlain, PrintPairs, Space;
        PlainConcat(o, Space(o, n), [CLOSE_OBJECT]);
        PlainConcat(o, PrintPairs(o, n + 1, ps), Space(o, n) + [CLOSE_OBJECT]);
        PlainConcat(o, [OPEN_OBJECT], PrintPairs(o, n + 1, ps) + (Space(o, n) + [CLOSE_OBJECT]));
      }
    case _ =>
  }

  lemma {:induction false} PlainElements(o: Options, n: nat, es: seq<Json>)
    requires es != [] && forall i :: 0 <= i < |es| ==> Printable(es[i])
    ensures AllPlain(o, PrintElements(o, n, es))
    decreases es, 0
  {
    PlainText(o, n, es[0]);
    PlainSpace(o, n);
    var rest: seq<int> := [];
    assert AllPlain(o, [COMMA]) && AllPlain(o, rest);
    hide AllPlain, Print, Space;
    if |es| > 1 {
      PlainElements(o, n, es[1..]);
      PlainConcat(o, [COMMA], PrintElements(o, n, es[1..]));
      rest := [COMMA] + PrintElements(o, n, es[1..]);
    }
    PlainConcat(o, Print(o, n, es[0]), rest);
    PlainConcat(o, Space(o, n), Print(o, n, es[0]) + rest);
  }

  lemma {:induction false} PlainPairs(o: Options, n: nat, ps: seq<JsonValue.Pair>)
    requires ps != [] && forall i :: 0 <= i < |ps| ==> IsText(ps[i].key) && Printable(ps[i].value)
    ensures AllPlain(o, PrintPairs(o, n, ps))
    decreases ps, 0
  {
    PlainText(o, n, ps[0].value);
    PlainString(o, ps[0].key);
    PlainSpace(o, n);
    var rest: seq<int> := [];
    assert AllPlain(o, [COMMA]) && AllPlain(o, rest) && AllPlain(o, [COLON, BLANK]);
    hide AllPlain, Print, Space, PrintString;
    if |ps| > 1 {
      PlainPairs(o, n, ps[1..]);
      PlainConcat(o, [COMMA], PrintPairs(o, n, ps[1..]));
      rest := [COMMA] + PrintPairs(o, n, ps[1..]);
    }
    PlainConcat(o, Print(o, n, ps[0].value), rest);
    PlainConcat(o, [COLON, BLANK], Print(o, n, ps[0].value) + rest);
    PlainConcat(o, PrintString(o, ps[0].key), [COLON, BLANK] + (Print(o, n, ps[0].value) + rest));
    PlainConcat(o, Space(o, n), PrintString(o, ps[0].key) + ([COLON, BLANK] + (Print(o, n, ps[0].value) + rest)));
  }

  /** The short escapes, and lower-case digits in all others. */
  lemma EscapesAre(o: Options)
    ensures PrintChar(o, 0x22) == Codes("\\\"") && PrintChar(o, 0x5c) == Codes("\\\\")
    ensures PrintChar(o, 0x09) == Codes("\\t") && PrintChar(o, 0x0a) == Codes("\\n")
            && PrintChar(o, 0x0d) == Codes("\\r")
    ensures PrintChar(o, 0x08) == Codes("\\u0008") && PrintChar(o, 0x1f) == Codes("\\u001f")
    ensures o.escapeNonAscii ==> PrintChar(o, 0x7f) == Codes("\\u007f") && PrintChar(o, 0xabcd) == Codes("\\uabcd")
    ensures !o.escapeNonAscii ==> PrintChar(o, 0x7f) == [0x7f]
    ensures PrintChar(o, 0x2f) == Codes("/")
  {
  }

  /** White space: a line end and as many tabs as there are open brackets, or a blank. */
  lemma {:induction false} SpaceIs(o: Options, n: nat)
    ensures !o.indent ==> Space(o, n) == Codes(" ")
    ensures o.indent ==> |Space(o, n)| == n + 1 && Space(o, n)[0] == Code('\n')
    ensures o.indent ==> forall i :: 1 <= i <= n ==> Space(o, n)[i] == Code('\t')
  {
    TabsAre(n);
  }

  lemma {:induction false} TabsAre(n: nat)
    ensures |Tabs(n)| == n && forall i :: 0 <= i < n ==> Tabs(n)[i] == Code('\t')
  {
    if n > 0 {
      TabsAre(n - 1);
    }
  }

  /** Texts with commas between them. */
  function Listed(ts: seq<seq<int>>): seq<int> {
    if ts == [] then [] else if |ts| == 1 then ts[0] else ts[0] + (Codes(",") + Listed(ts[1..]))
  }

  ghost function ElementTexts(o: Options, n: nat, es: seq<Json>): seq<seq<int>>
    requires forall i :: 0 <= i < |es| ==> Printable(es[i])
  {
    if es == [] then [] else [Space(o, n) + Print(o, n, es[0])] + ElementTexts(o, n, es[1..])
  }

  ghost function PairTexts(o: Options, n: nat, ps: seq<JsonValue.Pair>): seq<seq<int>>
    requires forall i :: 0 <= i < |ps| ==> IsText(ps[i].key) && Printable(ps[i].value)
  {
    if ps == [] then []
    else
      [Space(o, n) + (PrintString(o, ps[0].key) + (Codes(": ") + Print(o, n, ps[0].value)))]
      + PairTexts(o, n, ps[1..])
  }

  lemma {:induction false} ElementsListed(o: Options, n: nat, es: seq<Json>)
    requires es != [] && forall i :: 0 <= i < |es| ==> Printable(es[i])
    ensures PrintElements(o, n, es) == Listed(ElementTexts(o, n, es))
  {
    hide Print, Space, Printable;
    var a, b := Space(o, n), Print(o, n, es[0]);
    var ts := ElementTexts(o, n, es);
    assert ts[1..] == ElementTexts(o, n, es[1..]);
    if |es| == 1 {
      assert b + [] == b;
    } else {
      ElementsListed(o, n, es[1..]);
      Assoc(a, b, [COMMA] + PrintElements(o, n, es[1..]));
      assert Codes(",") == [COMMA];
    }
  }

  lemma {:induction false} PairsListed(o: Options, n: nat, ps: seq<JsonValue.Pair>)
    requires ps != [] && forall i :: 0 <= i < |ps| ==> IsText(ps[i].key) && Printable(ps[i].value)
    ensures PrintPairs(o, n, ps) == Listed(PairTexts(o, n, ps))
  {
    hide Print, Space, Printable, PrintString;
    var a, k, c, b := Space(o, n), PrintString(o, ps[0].key), [COLON, BLANK], Print(o, n, ps[0].value);
    var ts := PairTexts(o, n, ps);
    assert Codes(": ") == c && Codes(",") == [COMMA];
    assert ts[1..] == PairTexts(o, n, ps[1..]);
    if |ps| == 1 {
      assert b + [] == b;
    } else {
      PairsListed(o, n, ps[1..]);
      var rest := [COMMA] + PrintPairs(o, n, ps[1..]);
      Assoc(c, b, rest);
      Assoc(k, c + b, rest);
      Assoc(a, k + (c + b), rest);
    }
  }

  /** The layout of arrays and objects: each element or attribute on a line of its own, one tab further
      in, with a comma at the end of each but the last. */
  lemma LayoutIs(o: Options, n: nat, v: Json)
    requires Printable(v)
    ensures v == Array([]) ==> Print(o, n, v) == Codes("[]")
    ensures v == Object([]) ==> Print(o, n, v) == Codes("{}")
    ensures v.Array? && v.elements != [] ==>
              Print(o, n, v) == Codes("[") + (Listed(ElementTexts(o, n + 1, v.elements)) + (Space(o, n) + Codes("]")))
    ensures v.Object? && v.pairs != [] ==>
              Print(o, n, v) == Codes("{") + (Listed(PairTexts(o, n + 1, v.pairs)) + (Space(o, n) + Codes("}")))
  {
    assert Codes("[") == [OPEN_ARRAY] && Codes("]") == [CLOSE_ARRAY] && Codes("[]") == [OPEN_ARRAY, CLOSE_ARRAY];
    assert Codes("{") == [OPEN_OBJECT] && Codes("}") == [CLOSE_OBJECT] && Codes("{}") == [OPEN_OBJECT, CLOSE_OBJECT];
    if v.Array? && v.elements != [] {
      ElementsListed(o, n + 1, v.elements);
    }
    if v.Object? && v.pairs != [] {
      PairsListed(o, n + 1, v.pairs);
    }
  }
}
