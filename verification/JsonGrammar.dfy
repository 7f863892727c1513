/**
 The grammar of strings (section 7 of RFC 7159) with all the spellings of each character. The reader
 accepts exactly the strings of this grammar, except for a few code points, and gives what they mean.
 */
module JsonGrammar {
  import opened Basics
  import opened JsonText

  function Code(c: char): int { c as int }

  // ----- strings: section 7 -----

  /** How one character of a string is written. */
  datatype Spelling =
    | Raw(c: int)
    | Short(e: char)
    | Escaped(digits: seq<int>, value: int)
    | Surrogates(high: seq<int>, x: int, low: seq<int>, y: int)

  /** A hexadecimal digit, of either case, and its value. */
  predicate IsHexDigit(c: int, v: int) {
    || (0 <= v < 10 && c == Code('0') + v)
    || (10 <= v < 16 && (c == Code('a') + v - 10 || c == Code('A') + v - 10))
  }

  predicate IsHex4(d: seq<int>, v: int) {
    && |d| == 4 && 0 <= v < 0x10000
    && IsHexDigit(d[0], v / 0x1000) && IsHexDigit(d[1], v / 0x100 % 0x10)
    && IsHexDigit(d[2], v / 0x10 % 0x10) && IsHexDigit(d[3], v % 0x10)
  }

  predicate IsSpelling(p: Spelling) {
    match p
    case Raw(c) => 0x20 <= c <= 0x21 || 0x23 <= c <= 0x5b || 0x5d <= c <= 0x10ffff
    case Short(e) => e in "\"\\/bfnrt"
    case Escaped(d, v) => IsHex4(d, v)
    case Surrogates(d, x, e, y) => IsHex4(d, x) && IsHex4(e, y) && 0xd800 <= x <= 0xdbff && 0xdc00 <= y <= 0xdfff
  }

  function SpellingText(p: Spelling): seq<int> {
    match p
    case Raw(c) => [c]
    case Short(e) => [Code('\\'), Code(e)]
    case Escaped(d, _) => [Code('\\'), Code('u')] + d
    case Surrogates(d, _, e, _) => [Code('\\'), Code('u')] + (d + ([Code('\\'), Code('u')] + e))
  }

  function SpellingValue(p: Spelling): int {
    match p
    case Raw(c) => c
    case Short(e) =>
      if e == 'b' then 0x08 else if e == 't' then 0x09 else if e == 'n' then 0x0a
      else if e == 'f' then 0x0c else if e == 'r' then 0x0d else Code(e)
    case Escaped(_, v) => v
    case Surrogates(_, x, _, y) => 0x10000 + (x - 0xd800) * 0x400 + (y - 0xdc00)
  }

  /** What the reader does not refuse: no zero, no lone surrogates and no characters for private use,
      the first of which in plane 15 may be escaped though. */
  predicate Allowed(p: Spelling) {
    match p
    case Raw(c) => c < 0xd800 || 0xf900 <= c < 0xf0000
    case Short(_) => true
    case Escaped(_, v) => 0 < v < 0xd800 || 0xf900 <= v
    case Surrogates(_, _, _, _) => SpellingValue(p) <= 0xf0000
  }

  predicate AllowedChars(ps: seq<Spelling>) {
    forall i :: 0 <= i < |ps| ==> IsSpelling(ps[i]) && Allowed(ps[i])
  }

  function CharsText(ps: seq<Spelling>): seq<int> {
    if ps == [] then [] else SpellingText(ps[0]) + CharsText(ps[1..])
  }

  function CharsValue(ps: seq<Spelling>): seq<int> {
    if ps == [] then [] else [SpellingValue(ps[0])] + CharsValue(ps[1..])
  }

  lemma HexDigitIs(c: int, v: nat)
    ensures HexValue(c) == v <==> IsHexDigit(c, v)
    ensures HexValue(c) < 16
  {
  }

  lemma HexRead(d: seq<int>, v: int, rest: seq<int>)
    requires IsHex4(d, v)
    ensures ScanHex(d + rest, 0, 4) == One(v, rest)
  {
    hide HexValue, ScanHex, IsHexDigit;
    var a, b, c, e := v / 0x1000, v / 0x100 % 0x10, v / 0x10 % 0x10, v % 0x10;
    HexDigitIs(d[0], a);
    HexDigitIs(d[1], b);
    HexDigitIs(d[2], c);
    HexDigitIs(d[3], e);
    FourDigits(v);
    var s3 := [d[3]] + rest;
    var s2 := [d[2]] + s3;
    var s1 := [d[1]] + s2;
    assert d + rest == [d[0]] + s1;
    HexOne(d[0], s1, 0, 3);
    HexOne(d[1], s2, a, 2);
    HexOne(d[2], s3, 0x10 * a + b, 1);
    HexOne(d[3], rest, 0x100 * a + 0x10 * b + c, 0);
    HexDone(rest, v);
  }

  lemma HexOne(c: int, s: seq<int>, x: nat, k: nat)
    requires HexValue(c) >= 0
    ensures ScanHex([c] + s, x, k + 1) == ScanHex(s, 0x10 * x + HexValue(c), k)
  {
    assert ([c] + s)[1..] == s;
  }

  lemma HexIs(s: seq<int>) returns (d: seq<int>)
    requires ScanHex(s, 0, 4).One?
    ensures var r := ScanHex(s, 0, 4); IsHex4(d, r.c) && s == d + r.rest
  {
    hide HexValue, ScanHex, IsHexDigit;
    var x0 := HexTaken(s, 0, 4);
    var x1 := HexTaken(s[1..], x0, 3);
    var x2 := HexTaken(s[2..], 0x10 * x0 + x1, 2);
    var x3 := HexTaken(s[3..], 0x100 * x0 + 0x10 * x1 + x2, 1);
    d := s[..4];
    FourValues(x0, x1, x2, x3);
    assert s[1..][1..] == s[2..] && s[2..][1..] == s[3..] && s[3..][1..] == s[4..];
    assert ScanHex(s[4..], 0x1000 * x0 + 0x100 * x1 + 0x10 * x2 + x3, 0) ==
           One(0x1000 * x0 + 0x100 * x1 + 0x10 * x2 + x3, s[4..]) by {
      HexDone(s[4..], 0x1000 * x0 + 0x100 * x1 + 0x10 * x2 + x3);
    }
    assert s == d + s[4..];
  }

  lemma HexDone(s: seq<int>, x: nat)
    ensures ScanHex(s, x, 0) == One(x, s)
  {
  }

  lemma HexTaken(s: seq<int>, x: nat, k: nat) returns (v: nat)
    requires k > 0 && ScanHex(s, x, k).One?
    ensures s != [] && v < 16 && IsHexDigit(s[0], v)
    ensures ScanHex(s, x, k) == ScanHex(s[1..], 0x10 * x + v, k - 1)
  {
    v := HexValue(s[0]);
    HexDigitIs(s[0], v);
  }

  lemma FourValues(a: nat, b: nat, c: nat, d: nat)
    requires a < 16 && b < 16 && c < 16 && d < 16
    ensures var v := 0x1000 * a + 0x100 * b + 0x10 * c + d;
            v < 0x10000 && v / 0x1000 == a && v / 0x100 % 0x10 == b && v / 0x10 % 0x10 == c && v % 0x10 == d
  {
    var v := 0x1000 * a + 0x100 * b + 0x10 * c + d;
    Powers.Division(v, a, 0x100 * b + 0x10 * c + d, 0x1000);
    Powers.Division(v, 0x10 * a + b, 0x10 * c + d, 0x100);
    Powers.Division(v, 0x100 * a + 0x10 * b + c, d, 0x10);
    Powers.Division(0x10 * a + b, a, b, 0x10);
    Powers.Division(0x100 * a + 0x10 * b + c, 0x10 * a + b, c, 0x10);
  }

  lemma PairValue(x: int, y: int)
    requires 0xd800 <= x <= 0xdbff && 0xdc00 <= y <= 0xdfff
    ensures Combine(x, y) == 0x10000 + (x - 0xd800) * 0x400 + (y - 0xdc00)
  {
  }

  lemma EscapeStep(t: seq<int>)
    ensures ScanChar([BACKSLASH] + t) == ScanEscape(t)
  {
    hide ScanEscape;
    assert ([BACKSLASH] + t)[1..] == t;
  }

  lemma UnicodeStep(t: seq<int>)
    ensures ScanEscape([0x75] + t) == ScanUnicode(t)
  {
    hide ScanUnicode;
    assert ([0x75] + t)[1..] == t;
  }

  lemma ShortSpelled(e: char, tail: seq<int>)
    requires e in "\"\\/bfnrt"
    ensures ScanEscape([Code(e)] + tail) == One(SpellingValue(Short(e)), tail)
  {
    hide ScanUnicode;
    assert ([Code(e)] + tail)[1..] == tail;
  }

  lemma EscapedSpelled(d: seq<int>, v: int, tail: seq<int>)
    requires IsHex4(d, v) && Allowed(Escaped(d, v))
    ensures ScanUnicode(d + tail) == One(v, tail)
  {
    HexRead(d, v, tail);
    hide ScanHex, ScanLow, IsHex4;
  }

  lemma SurrogatesSpelled(d: seq<int>, x: int, e: seq<int>, y: int, tail: seq<int>)
    requires IsSpelling(Surrogates(d, x, e, y)) && Allowed(Surrogates(d, x, e, y))
    ensures ScanUnicode(d + ([BACKSLASH, 0x75] + (e + tail))) == One(SpellingValue(Surrogates(d, x, e, y)), tail)
  {
    var low := [BACKSLASH, 0x75] + (e + tail);
    HexRead(d, x, low);
    HexRead(e, y, tail);
    PairValue(x, y);
    hide ScanHex, Combine, IsHex4;
    assert low[2..] == e + tail && low[1..][0] == 0x75;
  }

  /** A spelling that is allowed is scanned to its end. */
  lemma CharSpelled(p: Spelling, tail: seq<int>)
    requires IsSpelling(p) && Allowed(p)
    ensures ScanChar(SpellingText(p) + tail) == One(SpellingValue(p), tail)
    ensures SpellingText(p) != [] && SpellingText(p)[0] != QUOTE
  {
    hide ScanEscape, ScanUnicode, IsHex4;
    match p
    case Raw(c) => assert ([c] + tail)[1..] == tail;
    case Short(e) =>
      ShortSpelled(e, tail);
      EscapeStep([Code(e)] + tail);
      hide *;
      assert [Code('\\'), Code(e)] + tail == [Code('\\')] + ([Code(e)] + tail);
    case Escaped(d, v) =>
      EscapedSpelled(d, v, tail);
      UnicodeStep(d + tail);
      EscapeStep([0x75] + (d + tail));
      assert ([BACKSLASH, 0x75] + d) + tail == [BACKSLASH] + ([0x75] + (d + tail));
    case Surrogates(d, x, e, y) =>
      SurrogatesSpelled(d, x, e, y, tail);
      var t := d + ([BACKSLASH, 0x75] + (e + tail));
      UnicodeStep(t);
      EscapeStep([0x75] + t);
      assert ([BACKSLASH, 0x75] + (d + ([BACKSLASH, 0x75] + e))) + tail == [BACKSLASH] + ([0x75] + t);
  }

  /** Whatever is scanned as a character is a spelling that is allowed. */
  lemma CharIs(s: seq<int>) returns (p: Spelling)
    requires ScanChar(s).One? && s != [] && s[0] != QUOTE
    ensures var r := ScanChar(s);
            IsSpelling(p) && Allowed(p) && s == SpellingText(p) + r.rest && SpellingValue(p) == r.c
  {
    if s[0] != BACKSLASH {
      p := Raw(s[0]);
    } else {
      p := EscapeIs(s[1..]);
      assert s == [s[0]] + s[1..];
    }
  }

  lemma EscapeIs(s: seq<int>) returns (p: Spelling)
    requires ScanEscape(s).One?
    ensures var r := ScanEscape(s);
            && IsSpelling(p) && Allowed(p) && SpellingValue(p) == r.c && !p.Raw?
            && [BACKSLASH] + s == SpellingText(p) + r.rest
  {
    hide ScanEscape, ScanUnicode, SpellingText, SpellingValue, IsSpelling, Allowed;
    NotEmpty(s);
    assert s == [s[0]] + s[1..];
    if s[0] == 0x75 {
      UnicodeStep(s[1..]);
      p := UnicodeIs(s[1..]);
    } else {
      p := ShortIs(s);
    }
    assert [BACKSLASH] + ([s[0]] + s[1..]) == [BACKSLASH, s[0]] + s[1..];
  }

  lemma NotEmpty(s: seq<int>)
    requires ScanEscape(s).One?
    ensures s != []
  {
  }

  lemma ShortIs(s: seq<int>) returns (p: Spelling)
    requires ScanEscape(s).One? && s != [] && s[0] != 0x75
    ensures var r := ScanEscape(s);
            && p.Short? && IsSpelling(p) && Allowed(p) && SpellingText(p) == [BACKSLASH, s[0]]
            && SpellingValue(p) == r.c && r.rest == s[1..]
  {
    hide ScanUnicode;
    var c := s[0];
    p := if c == 0x22 then Short('"') else if c == 0x5c then Short('\\') else if c == 0x2f then Short('/')
         else if c == 0x62 then Short('b') else if c == 0x66 then Short('f') else if c == 0x6e then Short('n')
         else if c == 0x72 then Short('r') else Short('t');
  }

  lemma UnicodeIs(s: seq<int>) returns (p: Spelling)
    requires ScanUnicode(s).One?
    ensures var r := ScanUnicode(s);
            && IsSpelling(p) && Allowed(p) && SpellingValue(p) == r.c && !p.Raw? && !p.Short?
            && [BACKSLASH, 0x75] + s == SpellingText(p) + r.rest
  {
    hide IsHex4, ScanHex, ScanLow;
    var d := HexIs(s);
    var h := ScanHex(s, 0, 4);
    if IsHigh(h.c) {
      p := SurrogatesAre(s, d);
    } else {
      p := Escaped(d, h.c);
      Assoc([BACKSLASH, 0x75], d, h.rest);
    }
  }

  lemma SurrogatesAre(s: seq<int>, d: seq<int>) returns (p: Spelling)
    requires ScanHex(s, 0, 4).One? && IsHigh(ScanHex(s, 0, 4).c) && ScanUnicode(s).One?
    requires IsHex4(d, ScanHex(s, 0, 4).c) && s == d + ScanHex(s, 0, 4).rest
    ensures var r := ScanUnicode(s);
            && p.Surrogates? && IsSpelling(p) && Allowed(p) && SpellingValue(p) == r.c
            && [BACKSLASH, 0x75] + s == SpellingText(p) + r.rest
  {
    var h := ScanHex(s, 0, 4);
    hide IsHex4, ScanHex, Combine;
    var t := h.rest[2..];
    var e := HexIs(t);
    var l := ScanHex(t, 0, 4);
    p := Surrogates(d, h.c, e, l.c);
    PairValue(h.c, l.c);
    assert h.rest == [BACKSLASH, 0x75] + t;
    var u := [BACKSLASH, 0x75];
    Assoc(u, e, l.rest);
    Assoc(d, u + e, l.rest);
    Assoc(u, d + (u + e), l.rest);
  }

  lemma {:induction false} CharsSpelled(ps: seq<Spelling>, rest: seq<int>)
    requires AllowedChars(ps)
    ensures ScanChars(CharsText(ps) + ([QUOTE] + rest)) == Scanned(CharsValue(ps), rest)
  {
    hide ScanChar, SpellingText, SpellingValue, IsSpelling, Allowed;
    if ps == [] {
      assert CharsText(ps) + ([QUOTE] + rest) == [QUOTE] + rest;
      assert ([QUOTE] + rest)[1..] == rest;
    } else {
      var tail := CharsText(ps[1..]) + ([QUOTE] + rest);
      CharsSpelled(ps[1..], rest);
      CharSpelled(ps[0], tail);
      Assoc(SpellingText(ps[0]), CharsText(ps[1..]), [QUOTE] + rest);
      assert (SpellingText(ps[0]) + tail)[0] == SpellingText(ps[0])[0];
    }
  }

  lemma {:induction false} CharsAre(s: seq<int>) returns (ps: seq<Spelling>)
    requires ScanChars(s).Scanned?
    ensures var r := ScanChars(s);
            AllowedChars(ps) && s == CharsText(ps) + ([QUOTE] + r.rest) && CharsValue(ps) == r.text
    decreases |s|
  {
    hide SpellingText, SpellingValue, IsSpelling, Allowed, ScanChar;
    if Peek(s) == QUOTE {
      ps := [];
      assert s == [QUOTE] + s[1..];
      assert CharsText([]) + s == s;
    } else {
      NotAtEnd(s);
      var p := CharIs(s);
      var r := ScanChar(s);
      var qs := CharsAre(r.rest);
      ps := [p] + qs;
      assert ps[1..] == qs;
      Assoc(SpellingText(p), CharsText(qs), [QUOTE] + ScanChars(r.rest).rest);
    }
  }

  lemma NotAtEnd(s: seq<int>)
    requires ScanChars(s).Scanned? && Peek(s) != QUOTE
    ensures s != [] && ScanChar(s).One?
  {
  }

  /** Exactly the strings of the grammar that are allowed are read, as what they mean. */
  lemma StringsAre(s: seq<int>, t: seq<int>, rest: seq<int>)
    ensures ScanChars(s) == Scanned(t, rest) <==>
            exists ps :: AllowedChars(ps) && s == CharsText(ps) + ([QUOTE] + rest) && t == CharsValue(ps)
  {
    hide ScanChars, AllowedChars, CharsText, CharsValue;
    if ScanChars(s) == Scanned(t, rest) {
      var ps := CharsAre(s);
    }
    forall ps | AllowedChars(ps) && s == CharsText(ps) + ([QUOTE] + rest) && t == CharsValue(ps)
      ensures ScanChars(s) == Scanned(t, rest)
    {
      CharsSpelled(ps, rest);
    }
  }
}
