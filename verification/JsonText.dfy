/**
 Strings of the JSON reader and writer, at the level of Unicode code points. An input
 sequence holds code points; a negative element stands for a malformed UTF-8 sequence.
 */
module JsonText {
  import opened Basics
  import Powers

  const QUOTE := 0x22
  const BACKSLASH := 0x5c
  const SLASH := 0x2f

  datatype Options = Options(escapeNonAscii: bool, indent: bool)

  datatype Error =
    | Malformed | JustMinus | LeadingZero | NoFraction | EmptyExponent
    | InvalidName | InvalidEscape | InvalidHex | UnterminatedString | ControlCharacter
    | Surrogate | PrivateUse | NonUnicode | ZeroByte | LoneHighSurrogate | LoneLowSurrogate
    | InvalidCharacter | UnterminatedArray | UnterminatedObject | KeyNotString | ColonExpected
    | CommaExpected | KeyAlreadySet | Misplaced | EmptyInput | TrailingValue | OutOfRange

  /** The next character, -1 at the end of input. */
  function Peek(s: seq<int>): int {
    if s == [] then -1 else s[0]
  }

  /** An error at the next character; reading a malformed one fails first. */
  function ErrorAt(s: seq<int>, e: Error): Error {
    if s != [] && s[0] < 0 then Malformed else e
  }

  // ----- writing -----

  function HexDigit(d: nat): int
    requires d < 16
  {
    if d < 10 then 0x30 + d else 0x61 + d - 10
  }

  /** "%04x" for a number of at most 16 bits. */
  function Hex4(u: nat): seq<int>
    requires u < 0x10000
  {
    [HexDigit(u / 0x1000), HexDigit(u / 0x100 % 0x10), HexDigit(u / 0x10 % 0x10), HexDigit(u % 0x10)]
  }

  function UnicodeEscape(u: nat): seq<int>
    requires u < 0x10000
  {
    [BACKSLASH, 0x75] + Hex4(u)
  }

  function PrintChar(o: Options, u: nat): seq<int>
    requires u > 0
  {
    if u == QUOTE || u == BACKSLASH then [BACKSLASH, u]
    else if u < 0x20 then
      if u == 0x09 then [BACKSLASH, 0x74]
      else if u == 0x0a then [BACKSLASH, 0x6e]
      else if u == 0x0d then [BACKSLASH, 0x72]
      else UnicodeEscape(u)
    else if u >= 0x7f && o.escapeNonAscii then
      if u < 0x10000 then UnicodeEscape(u)
      else if u < 0x110000 then UnicodeEscape(0xd800 + (u - 0x10000) / 0x400) + UnicodeEscape(0xdc00 + u % 0x400)
      else UnicodeEscape(REPLACEMENT)
    else [u]
  }

  /** C strings: no zero code point. */
  predicate IsText(s: seq<int>) {
    forall i :: 0 <= i < |s| ==> s[i] > 0
  }

  function PrintChars(o: Options, s: seq<int>): seq<int>
    requires IsText(s)
  {
    if s == [] then [] else PrintChar(o, s[0]) + PrintChars(o, s[1..])
  }

  function PrintString(o: Options, s: seq<int>): seq<int>
    requires IsText(s)
  {
    [QUOTE] + PrintChars(o, s) + [QUOTE]
  }

  // ----- reading -----

  datatype Scan = Scanned(text: seq<int>, rest: seq<int>) | Failed(error: Error)
  datatype ScanOne = One(c: int, rest: seq<int>) | Bad(error: Error)

  function HexValue(c: int): int {
    if 0x30 <= c <= 0x39 then c - 0x30
    else if 0x61 <= c <= 0x66 then c - 0x61 + 10
    else if 0x41 <= c <= 0x46 then c - 0x41 + 10
    else -1
  }

  /** k more hexadecimal digits after the value x. */
  function ScanHex(s: seq<int>, x: nat, k: nat): (r: ScanOne)
    ensures r.One? ==> |r.rest| == |s| - k && r.c >= 0
    decreases k
  {
    if k == 0 then One(x, s)
    else if HexValue(Peek(s)) < 0 then Bad(ErrorAt(s, InvalidHex))
    else ScanHex(s[1..], 0x10 * x + HexValue(s[0]), k - 1)
  }

  predicate IsHigh(x: int) { 0xd800 <= x < 0xdc00 }
  predicate IsLow(x: int) { 0xdc00 <= x < 0xe000 }

  function Combine(x: int, y: int): int {
    0x10000 + (x % 0x400) * 0x400 + y % 0x400
  }

  /** After a high surrogate x: an escaped low surrogate must follow. */
  function ScanLow(s: seq<int>, x: nat): (r: ScanOne)
    ensures r.One? ==> |r.rest| < |s| && r.c > 0
  {
    if Peek(s) != BACKSLASH then Bad(ErrorAt(s, LoneHighSurrogate))
    else if Peek(s[1..]) != 0x75 then Bad(ErrorAt(s[1..], LoneHighSurrogate))
    else
      match ScanHex(s[2..], 0, 4)
      case Bad(e) => Bad(e)
      case One(y, rest) =>
        if !IsLow(y) then Bad(LoneHighSurrogate)
        else if Combine(x, y) > 0xf0000 then Bad(PrivateUse)
        else One(Combine(x, y), rest)
  }

  /** After "\u". */
  function ScanUnicode(s: seq<int>): (r: ScanOne)
    ensures r.One? ==> |r.rest| < |s| && r.c > 0
  {
    match ScanHex(s, 0, 4)
    case Bad(e) => Bad(e)
    case One(x, rest) =>
      if x == 0 then Bad(ZeroByte)
      else if IsHigh(x) then ScanLow(rest, x)
      else if IsLow(x) then Bad(LoneLowSurrogate)
      else if 0xe000 <= x < 0xf900 then Bad(PrivateUse)
      else One(x, rest)
  }

  /** After a backslash. */
  function ScanEscape(s: seq<int>): (r: ScanOne)
    ensures r.One? ==> |r.rest| < |s| && r.c > 0
  {
    var c := Peek(s);
    if c == QUOTE || c == BACKSLASH || c == SLASH then One(c, s[1..])
    else if c == 0x62 then One(0x08, s[1..])
    else if c == 0x66 then One(0x0c, s[1..])
    else if c == 0x6e then One(0x0a, s[1..])
    else if c == 0x72 then One(0x0d, s[1..])
    else if c == 0x74 then One(0x09, s[1..])
    else if c == 0x75 then ScanUnicode(s[1..])
    else Bad(ErrorAt(s, InvalidEscape))
  }

  /** The code point that may stand unescaped in a string, or the complaint about it. */
  function RawError(c: int): (e: Error)
    requires !RawValid(c)
  {
    if c < 0x20 then
      if c < 0 || c == 0x0d || c == 0x0a then UnterminatedString else ControlCharacter
    else if c < 0xe000 then Surrogate
    else if c < 0xf900 then PrivateUse
    else if c > 0x10ffff then NonUnicode
    else PrivateUse
  }

  predicate RawValid(c: int) {
    0x20 <= c < 0xd800 || 0xf900 <= c < 0xf0000
  }

  /** One character of a string, escaped or not. */
  function ScanChar(s: seq<int>): (r: ScanOne)
    ensures r.One? ==> |r.rest| < |s| && r.c > 0
  {
    if !RawValid(Peek(s)) then Bad(ErrorAt(s, RawError(Peek(s))))
    else if s[0] == BACKSLASH then ScanEscape(s[1..])
    else One(s[0], s[1..])
  }

  /** The rest of a string after its opening quote. */
  function ScanChars(s: seq<int>): (r: Scan)
    ensures r.Scanned? ==> |r.rest| < |s|
    decreases |s|
  {
    if Peek(s) == QUOTE then Scanned([], s[1..])
    else
      match ScanChar(s)
      case Bad(e) => Failed(e)
      case One(c, rest) =>
        match ScanChars(rest)
        case Failed(e) => Failed(e)
        case Scanned(t, rest') => Scanned([c] + t, rest')
  }

  // ----- round trip -----

  /** What a string means once written: with escaping, a pair of surrogates becomes one code
      point and a value outside Unicode becomes the replacement character. */
  function Meaning(o: Options, s: seq<int>): (t: seq<int>)
    requires IsText(s)
    ensures IsText(t)
  {
    if s == [] then []
    else if o.escapeNonAscii && |s| >= 2 && IsHigh(s[0]) && IsLow(s[1]) then [Combine(s[0], s[1])] + Meaning(o, s[2..])
    else if o.escapeNonAscii && s[0] >= 0x110000 then [REPLACEMENT] + Meaning(o, s[1..])
    else [s[0]] + Meaning(o, s[1..])
  }

  /** A code point the reader accepts from the writer. */
  predicate Readable(o: Options, u: int) {
    0 < u < 0xd800 || 0xf900 <= u < (if o.escapeNonAscii then 0xf0001 else 0xf0000)
  }

  predicate AllReadable(o: Options, s: seq<int>) {
    forall i :: 0 <= i < |s| ==> Readable(o, s[i])
  }

  lemma ScanHexStep(d: nat, s: seq<int>, x: nat, k: nat)
    requires d < 16
    ensures ScanHex([HexDigit(d)] + s, x, k + 1) == ScanHex(s, 0x10 * x + d, k)
  {
    assert ([HexDigit(d)] + s)[1..] == s;
  }

  lemma HexRoundTrip(u: nat, rest: seq<int>)
    requires u < 0x10000
    ensures ScanHex(Hex4(u) + rest, 0, 4) == One(u, rest)
  {
    hide HexDigit, ScanHex;
    var a, b, c, d := u / 0x1000, u / 0x100 % 0x10, u / 0x10 % 0x10, u % 0x10;
    FourDigits(u);
    var s3 := [HexDigit(d)] + rest;
    var s2 := [HexDigit(c)] + s3;
    var s1 := [HexDigit(b)] + s2;
    assert Hex4(u) + rest == [HexDigit(a)] + s1;
    ScanHexStep(a, s1, 0, 3);
    ScanHexStep(b, s2, a, 2);
    ScanHexStep(c, s3, 0x10 * a + b, 1);
    ScanHexStep(d, rest, 0x10 * (0x10 * a + b) + c, 0);
    ScanNoHex(rest, u);
  }

  lemma FourDigits(u: nat)
    ensures u == 0x10 * (0x10 * (0x10 * (u / 0x1000) + u / 0x100 % 0x10) + u / 0x10 % 0x10) + u % 0x10
  {
    Powers.DivideTwice(u, 0x10, 0x10);
    Powers.DivideTwice(u, 0x100, 0x10);
    var v, w := u / 0x10, u / 0x100;
    assert u == 0x10 * v + u % 0x10;
    assert v == 0x10 * w + v % 0x10;
    assert w == 0x10 * (u / 0x1000) + w % 0x10;
  }

  lemma ScanNoHex(s: seq<int>, x: nat)
    ensures ScanHex(s, x, 0) == One(x, s)
  {
  }

  /** Surrogate pairs invert each other. */
  lemma SurrogatesInvert(u: int)
    requires 0x10000 <= u < 0x110000
    ensures IsHigh(0xd800 + (u - 0x10000) / 0x400) && IsLow(0xdc00 + u % 0x400)
    ensures Combine(0xd800 + (u - 0x10000) / 0x400, 0xdc00 + u % 0x400) == u
  {
  }

  lemma CombineInverts(x: int, y: int)
    requires IsHigh(x) && IsLow(y)
    ensures 0x10000 <= Combine(x, y) < 0x110000
    ensures 0xd800 + (Combine(x, y) - 0x10000) / 0x400 == x && 0xdc00 + Combine(x, y) % 0x400 == y
  {
  }

  lemma ScanUnicodeEscape(u: nat, rest: seq<int>)
    requires u < 0x10000
    ensures ScanChar(UnicodeEscape(u) + rest) ==
            if u == 0 then Bad(ZeroByte)
            else if IsHigh(u) then ScanLow(rest, u)
            else if IsLow(u) then Bad(LoneLowSurrogate)
            else if 0xe000 <= u < 0xf900 then Bad(PrivateUse)
            else One(u, rest)
  {
    var s := UnicodeEscape(u) + rest;
    assert s[1..][1..] == Hex4(u) + rest;
    HexRoundTrip(u, rest);
  }

  lemma ScanLowEscape(x: nat, y: nat, rest: seq<int>)
    requires y < 0x10000
    ensures ScanLow(UnicodeEscape(y) + rest, x) ==
            if !IsLow(y) then Bad(LoneHighSurrogate)
            else if Combine(x, y) > 0xf0000 then Bad(PrivateUse)
            else One(Combine(x, y), rest)
  {
    var s := UnicodeEscape(y) + rest;
    assert s[2..] == Hex4(y) + rest && s[1..][0] == 0x75;
    HexRoundTrip(y, rest);
  }

  /** One written character is read back exactly if it is readable. A pair of surrogates never
      comes about, as the next character is not a low surrogate. */
  lemma CharRoundTrip(o: Options, u: nat, rest: seq<int>)
    requires 0 < u && (o.escapeNonAscii ==> u < 0x110000)
    requires o.escapeNonAscii && IsHigh(u) ==> NoLowNext(rest)
    ensures ScanChar(PrintChar(o, u) + rest) == One(u, rest) || ScanChar(PrintChar(o, u) + rest).Bad?
    ensures ScanChar(PrintChar(o, u) + rest).One? <==> Readable(o, u)
  {
    var p := PrintChar(o, u);
    var s := p + rest;
    if p == [u] {
      assert s[1..] == rest;
    } else if |p| == 2 {
      assert s[1..][1..] == rest;
    } else if u < 0x10000 {
      EscapeRoundTrip(o, u, rest);
    } else {
      PairRoundTrip(o, u, rest);
    }
  }

  lemma EscapeRoundTrip(o: Options, u: nat, rest: seq<int>)
    requires 0 < u < 0x10000 && PrintChar(o, u) == UnicodeEscape(u)
             && (o.escapeNonAscii && IsHigh(u) ==> NoLowNext(rest))
    ensures ScanChar(PrintChar(o, u) + rest) == One(u, rest) || ScanChar(PrintChar(o, u) + rest).Bad?
    ensures ScanChar(PrintChar(o, u) + rest).One? <==> Readable(o, u)
  {
    ScanUnicodeEscape(u, rest);
    if IsHigh(u) {
      NoLow(rest, u);
    }
    hide ScanChar, UnicodeEscape, ScanLow, NoLowNext;
  }

  lemma PairRoundTrip(o: Options, u: nat, rest: seq<int>)
    requires 0x10000 <= u < 0x110000 && o.escapeNonAscii
    ensures ScanChar(PrintChar(o, u) + rest) == One(u, rest) || ScanChar(PrintChar(o, u) + rest).Bad?
    ensures ScanChar(PrintChar(o, u) + rest).One? <==> Readable(o, u)
  {
    hide ScanChar, UnicodeEscape, ScanLow;
    var x, y := 0xd800 + (u - 0x10000) / 0x400, 0xdc00 + u % 0x400;
    SurrogatesInvert(u);
    assert PrintChar(o, u) + rest == UnicodeEscape(x) + (UnicodeEscape(y) + rest);
    ScanUnicodeEscape(x, UnicodeEscape(y) + rest);
    ScanLowEscape(x, y, rest);
  }

  /** What follows cannot be read as an escaped low surrogate. */
  ghost predicate NoLowNext(rest: seq<int>) {
    Peek(rest) == BACKSLASH && Peek(rest[1..]) == 0x75 ==>
      forall y, t :: ScanHex(rest[2..], 0, 4) == One(y, t) ==> !IsLow(y)
  }

  lemma NoLow(rest: seq<int>, x: nat)
    requires NoLowNext(rest)
    ensures ScanLow(rest, x).Bad?
  {
  }

  lemma PrintedCharNoLow(o: Options, u: nat, rest: seq<int>)
    requires 0 < u && !IsLow(u) && (o.escapeNonAscii ==> u < 0x110000)
    ensures NoLowNext(PrintChar(o, u) + rest)
  {
    var p := PrintChar(o, u);
    var s := p + rest;
    if |p| > 2 {
      var x := if u < 0x10000 then u else 0xd800 + (u - 0x10000) / 0x400;
      if u >= 0x10000 {
        SurrogatesInvert(u);
        var y := 0xdc00 + u % 0x400;
        assert s == UnicodeEscape(x) + (UnicodeEscape(y) + rest);
        assert s[2..] == Hex4(x) + (UnicodeEscape(y) + rest);
        HexRoundTrip(x, UnicodeEscape(y) + rest);
      } else {
        assert s[2..] == Hex4(x) + rest;
        HexRoundTrip(x, rest);
      }
    }
  }

  /** Strings that are their own meaning. */
  lemma MeaningIsFixed(o: Options, s: seq<int>)
    requires IsText(s) && Meaning(o, s) == s
    ensures s != [] ==> Meaning(o, s[1..]) == s[1..]
    ensures o.escapeNonAscii ==> forall i :: 0 <= i < |s| ==> s[i] < 0x110000
    ensures o.escapeNonAscii ==> forall i :: 0 <= i < |s| - 1 ==> !(IsHigh(s[i]) && IsLow(s[i + 1]))
  {
  }

  lemma PrintPair(o: Options, x: int, y: int)
    requires o.escapeNonAscii && IsHigh(x) && IsLow(y)
    ensures Combine(x, y) > 0 && PrintChar(o, Combine(x, y)) == PrintChar(o, x) + PrintChar(o, y)
  {
    CombineInverts(x, y);
  }

  lemma {:induction false} PrintMeaning(o: Options, s: seq<int>)
    requires IsText(s)
    ensures PrintChars(o, Meaning(o, s)) == PrintChars(o, s)
  {
    hide PrintChar, Combine;
    if s == [] {
    } else if o.escapeNonAscii && |s| >= 2 && IsHigh(s[0]) && IsLow(s[1]) {
      PrintPair(o, s[0], s[1]);
      PrintMeaning(o, s[2..]);
      var c, t, p := Combine(s[0], s[1]), Meaning(o, s[2..]), PrintChars(o, s[2..]);
      assert ([c] + t)[1..] == t && s[1..][1..] == s[2..];
      assert PrintChars(o, s[1..]) == PrintChar(o, s[1]) + p;
      assert PrintChar(o, s[0]) + (PrintChar(o, s[1]) + p) == (PrintChar(o, s[0]) + PrintChar(o, s[1])) + p;
    } else {
      PrintMeaning(o, s[1..]);
      var t := Meaning(o, s[1..]);
      var c := Meaning(o, s)[0];
      assert Meaning(o, s) == [c] + t && ([c] + t)[1..] == t;
      assert PrintChar(o, c) == PrintChar(o, s[0]) by {
        ReplacedChar(o, s[0]);
      }
    }
  }

  lemma ReplacedChar(o: Options, u: int)
    requires u > 0
    ensures o.escapeNonAscii && u >= 0x110000 ==> PrintChar(o, u) == PrintChar(o, REPLACEMENT)
  {
  }

  lemma {:induction false} MeaningHead(o: Options, s: seq<int>)
    requires IsText(s) && s != [] && !IsLow(s[0])
    ensures Meaning(o, s) != [] && !IsLow(Meaning(o, s)[0])
  {
  }

  /** Writing and reading a second time changes nothing more. */
  lemma {:induction false} MeaningIdempotent(o: Options, s: seq<int>)
    requires IsText(s)
    ensures Meaning(o, Meaning(o, s)) == Meaning(o, s)
  {
    if s != [] {
      var pair := o.escapeNonAscii && |s| >= 2 && IsHigh(s[0]) && IsLow(s[1]);
      var rest := if pair then s[2..] else s[1..];
      var t, m := Meaning(o, rest), Meaning(o, s);
      MeaningIdempotent(o, rest);
      assert m == [m[0]] + t && m[1..] == t;
      if o.escapeNonAscii && IsHigh(m[0]) && t != [] {
        assert !pair && m[0] == s[0] && rest != [] && !IsLow(rest[0]);
        MeaningHead(o, rest);
      }
    }
  }

  /** A written string is read back as its meaning if that consists of readable code points,
      and refused otherwise. */
  lemma {:induction false} CharsRoundTrip(o: Options, s: seq<int>, rest: seq<int>)
    requires IsText(s) && Meaning(o, s) == s
    ensures var r := ScanChars(PrintChars(o, s) + ([QUOTE] + rest));
            if AllReadable(o, s) then r == Scanned(s, rest) else r.Failed?
  {
    var tail := [QUOTE] + rest;
    if s == [] {
      assert PrintChars(o, s) + tail == tail && tail[1..] == rest;
    } else {
      MeaningIsFixed(o, s);
      var next := PrintChars(o, s[1..]) + tail;
      assert PrintChars(o, s) + tail == PrintChar(o, s[0]) + next;
      if o.escapeNonAscii && IsHigh(s[0]) {
        FollowsHigh(o, s, tail);
      }
      CharRoundTrip(o, s[0], next);
      CharsRoundTrip(o, s[1..], rest);
      NotQuote(o, s[0], next);
      assert AllReadable(o, s) <==> Readable(o, s[0]) && AllReadable(o, s[1..]) by {
        assert forall i :: 0 < i < |s| ==> s[i] == s[1..][i - 1];
      }
      assert [s[0]] + s[1..] == s;
    }
  }

  lemma NotQuote(o: Options, u: nat, rest: seq<int>)
    requires 0 < u
    ensures Peek(PrintChar(o, u) + rest) != QUOTE
  {
  }

  lemma FollowsHigh(o: Options, s: seq<int>, tail: seq<int>)
    requires IsText(s) && Meaning(o, s) == s && s != [] && o.escapeNonAscii && IsHigh(s[0])
    requires tail != [] && tail[0] == QUOTE
    ensures NoLowNext(PrintChars(o, s[1..]) + tail)
  {
    hide Meaning, PrintChar, NoLowNext, IsHigh, IsLow, ScanHex;
    AfterHigh(o, s);
    var rest := s[1..];
    if rest == [] {
      assert PrintChars(o, rest) + tail == tail;
      QuoteNext(tail);
    } else {
      PrintedCharNoLow(o, rest[0], PrintChars(o, rest[1..]) + tail);
      assert PrintChars(o, rest) + tail == PrintChar(o, rest[0]) + (PrintChars(o, rest[1..]) + tail);
    }
  }

  lemma AfterHigh(o: Options, s: seq<int>)
    requires IsText(s) && Meaning(o, s) == s && s != [] && o.escapeNonAscii && IsHigh(s[0])
    ensures |s| > 1 ==> 0 < s[1] < 0x110000 && !IsLow(s[1])
  {
    hide Meaning;
    MeaningIsFixed(o, s);
    assert |s| > 1 ==> IsHigh(s[0]) && !IsLow(s[0 + 1]);
  }

  lemma QuoteNext(tail: seq<int>)
    requires tail != [] && tail[0] == QUOTE
    ensures NoLowNext(tail)
  {
  }

  /** A string of readable code points is its own meaning. */
  lemma MeaningReadable(o: Options, s: seq<int>)
    requires IsText(s) && AllReadable(o, s)
    ensures Meaning(o, s) == s
  {
  }
}
