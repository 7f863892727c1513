/**
 What is read from any text: its strings consist of code points that the reader accepts, its
 numbers are grammatical and the keys of its objects differ. So it can be written and is read back
 without change.
 */
module JsonStable {
  import opened JsonText
  import opened JsonNumber
  import opened JsonValue
  import opened JsonRoundTrip

  // ----- strings -----

  lemma {:induction false} HexBound(s: seq<int>, x: nat, k: nat)
    ensures var r := ScanHex(s, x, k); r.One? ==> r.c < (x + 1) * Powers.Pow2(4 * k)
    decreases k
  {
    if k > 0 && HexValue(Peek(s)) >= 0 {
      var d := HexValue(s[0]);
      HexBound(s[1..], 0x10 * x + d, k - 1);
      Sixteen(4 * k - 4);
      hide Powers.Pow2;
      HexStep(x, d, Powers.Pow2(4 * k - 4));
    }
  }

  lemma Sixteen(k: nat)
    ensures Powers.Pow2(k + 4) == 16 * Powers.Pow2(k)
  {
    assert Powers.Pow2(k + 2) == 4 * Powers.Pow2(k);
  }

  lemma HexStep(x: nat, d: nat, p: nat)
    requires d < 16
    ensures (0x10 * x + d + 1) * p <= (x + 1) * (16 * p)
  {
    Powers.Times(p, 0x10 * x + d + 1, 16 * (x + 1));
  }

  lemma UnicodeReadable(o: Options, s: seq<int>)
    requires o.escapeNonAscii
    ensures var r := ScanUnicode(s); r.One? ==> Readable(o, r.c)
  {
    HexBound(s, 0, 4);
    Powers.Pow2Of16();
  }

  lemma CharReadable(o: Options, s: seq<int>)
    requires o.escapeNonAscii
    ensures var r := ScanChar(s); r.One? ==> Readable(o, r.c)
  {
    hide ScanUnicode;
    if s != [] && |s| > 1 {
      UnicodeReadable(o, s[1..][1..]);
    }
  }

  lemma {:induction false} CharsReadable(o: Options, s: seq<int>)
    requires o.escapeNonAscii
    ensures var r := ScanChars(s); r.Scanned? ==> IsText(r.text) && AllReadable(o, r.text)
    decreases |s|
  {
    hide ScanChar;
    CharReadable(o, s);
    var r := ScanChar(s);
    if Peek(s) != QUOTE && r.One? {
      CharsReadable(o, r.rest);
    }
  }

  // ----- values -----

  /** What can be written and will be accepted by the reader. */
  ghost predicate Clean(fits: Range, o: Options, v: Json) {
    Printable(v) && Acceptable(fits, o, v)
  }

  ghost predicate CleanKey(o: Options, key: seq<int>) {
    IsText(key) && AllReadable(o, key)
  }

  lemma TokenClean(fits: Range, o: Options, s: seq<int>)
    requires o.escapeNonAscii
    ensures var r := Lex(fits, s); r.Lexed? && r.token.Elementary? ==> Clean(fits, o, r.token.v)
  {
    hide ScanChars, ScanNumber, SkipWhite;
    var w := SkipWhite(s);
    if w != [] {
      if IsDigit(w[0]) || w[0] == MINUS {
        ScannedIsNumber(w);
      }
      CharsReadable(o, w[1..]);
    }
  }

  lemma {:induction false} ValueClean(fits: Range, o: Options, s: seq<int>)
    requires o.escapeNonAscii
    ensures var r := ParseValue(fits, s); r.Ok? ==> Clean(fits, o, r.v)
    decreases |s|, 0
  {
    hide Lex;
    TokenClean(fits, o, s);
    LexConsumes(fits, s);
    var r := Lex(fits, s);
    if r.Lexed? && r.token == BeginArray {
      ElementsClean(fits, o, r.rest, []);
    } else if r.Lexed? && r.token == BeginObject {
      PairsClean(fits, o, r.rest, []);
    }
  }

  lemma {:induction false} ElementsClean(fits: Range, o: Options, s: seq<int>, acc: seq<Json>)
    requires o.escapeNonAscii && forall i :: 0 <= i < |acc| ==> Clean(fits, o, acc[i])
    ensures var r := ParseElements(fits, s, acc); r.Ok? ==> Clean(fits, o, r.v)
    decreases |s|, 1
  {
    hide Lex;
    ValueClean(fits, o, s);
    var p := ParseValue(fits, s);
    if p.Ok? {
      LexConsumes(fits, p.rest);
      var r := Lex(fits, p.rest);
      if r.Lexed? && r.token == ValueSep {
        ElementsClean(fits, o, r.rest, acc + [p.v]);
      }
    }
  }

  ghost predicate CleanPairs(fits: Range, o: Options, ps: seq<Pair>) {
    && (forall i :: 0 <= i < |ps| ==> CleanKey(o, ps[i].key) && Clean(fits, o, ps[i].value))
    && (forall i, j :: 0 <= i < j < |ps| ==> ps[i].key != ps[j].key)
  }

  lemma {:induction false} PairsClean(fits: Range, o: Options, s: seq<int>, acc: seq<Pair>)
    requires o.escapeNonAscii && CleanPairs(fits, o, acc)
    ensures var r := ParsePairs(fits, s, acc); r.Ok? ==> Clean(fits, o, r.v)
    decreases |s|, 1
  {
    hide Lex, CleanPairs;
    ValueClean(fits, o, s);
    var p := ParseValue(fits, s);
    if p.Ok? && p.v.String? {
      LexConsumes(fits, p.rest);
      var r := Lex(fits, p.rest);
      if r.Lexed? && r.token == NameSep {
        PairValueClean(fits, o, r.rest, acc, p.v.s);
      }
    }
  }

  lemma {:induction false} PairValueClean(fits: Range, o: Options, s: seq<int>, acc: seq<Pair>, key: seq<int>)
    requires o.escapeNonAscii && CleanPairs(fits, o, acc) && CleanKey(o, key)
    ensures var r := ParsePairValue(fits, s, acc, key); r.Ok? ==> Clean(fits, o, r.v)
    decreases |s|, 2
  {
    hide Lex, CleanPairs;
    ValueClean(fits, o, s);
    var p := ParseValue(fits, s);
    if p.Ok? && !HasKey(acc, key) {
      CleanMore(fits, o, acc, key, p.v);
      CleanObject(fits, o, acc + [Pair(key, p.v)]);
      LexConsumes(fits, p.rest);
      var r := Lex(fits, p.rest);
      if r.Lexed? && r.token == ValueSep {
        PairsClean(fits, o, r.rest, acc + [Pair(key, p.v)]);
      }
    }
  }

  lemma CleanMore(fits: Range, o: Options, acc: seq<Pair>, key: seq<int>, v: Json)
    requires CleanPairs(fits, o, acc) && CleanKey(o, key) && Clean(fits, o, v) && !HasKey(acc, key)
    ensures CleanPairs(fits, o, acc + [Pair(key, v)])
  {
    hide Clean, CleanKey;
  }

  lemma CleanObject(fits: Range, o: Options, ps: seq<Pair>)
    requires CleanPairs(fits, o, ps)
    ensures Clean(fits, o, Object(ps))
  {
  }

  // ----- writing without escapes -----

  /** The last code point that can only be read from an escape. */
  const ESCAPED_ONLY := 0xf0000

  /** No string and no key holds the code point. */
  ghost predicate Without(v: Json, u: int)
    decreases v
  {
    match v
    case String(s) => u !in s
    case Array(es) => forall i :: 0 <= i < |es| ==> Without(es[i], u)
    case Object(ps) => forall i :: 0 <= i < |ps| ==> u !in ps[i].key && Without(ps[i].value, u)
    case _ => true
  }

  lemma TextWithout(o: Options, p: Options, s: seq<int>)
    requires o.escapeNonAscii && !p.escapeNonAscii && AllReadable(o, s)
    ensures AllReadable(p, s) <==> ESCAPED_ONLY !in s
  {
    forall i | 0 <= i < |s| ensures Readable(p, s[i]) <==> s[i] != ESCAPED_ONLY {
      assert Readable(o, s[i]);
    }
  }

  /** Without escapes the writer and the reader differ from those with escapes by one code point. */
  lemma {:induction false} AcceptableWithout(fits: Range, o: Options, p: Options, v: Json)
    requires o.escapeNonAscii && !p.escapeNonAscii && Acceptable(fits, o, v)
    ensures Acceptable(fits, p, v) <==> Without(v, ESCAPED_ONLY)
    decreases v
  {
    hide AllReadable;
    match v
    case String(s) => TextWithout(o, p, s);
    case Array(es) =>
      forall i | 0 <= i < |es| ensures Acceptable(fits, p, es[i]) <==> Without(es[i], ESCAPED_ONLY) {
        AcceptableWithout(fits, o, p, es[i]);
      }
    case Object(ps) =>
      forall i | 0 <= i < |ps|
        ensures AllReadable(p, ps[i].key) <==> ESCAPED_ONLY !in ps[i].key
        ensures Acceptable(fits, p, ps[i].value) <==> Without(ps[i].value, ESCAPED_ONLY)
      {
        TextWithout(o, p, ps[i].key);
        AcceptableWithout(fits, o, p, ps[i].value);
      }
    case _ =>
  }

  /** Whatever is read from any text can be written. With escapes it is always read back as it is,
      without them exactly if no string holds 0xF0000, which only an escape can give. */
  lemma ReadIsWritable(fits: Range, s: seq<int>, v: Json, rest: seq<int>, o: Options, n: nat)
    requires Parse(fits, s) == Ok(v, rest)
    ensures Printable(v)
    ensures Parse(fits, Print(o, n, v) + [NEWLINE]) == Ok(v, []) <==> o.escapeNonAscii || Without(v, ESCAPED_ONLY)
  {
    hide Acceptable, Print, Without, Printable, ParseValue;
    var e := Options(true, o.indent);
    ValueClean(fits, e, s);
    assert ParseValue(fits, s).Ok? && ParseValue(fits, s).v == v;
    RoundTrip(fits, o, n, v);
    if o.escapeNonAscii {
      assert o == e;
    } else {
      AcceptableWithout(fits, e, o, v);
    }
  }
}
