/**
 Numbers of the JSON reader, carried as their text.
 */
module JsonNumber {
  import opened Basics
  import opened JsonText

  const MINUS := 0x2d
  const PLUS := 0x2b
  const DOT := 0x2e
  const ZERO := 0x30

  predicate IsDigit(c: int) { ZERO <= c <= 0x39 }
  predicate IsE(c: int) { c == 0x65 || c == 0x45 }
  predicate IsSign(c: int) { c == PLUS || c == MINUS }

  // ----- the grammar of section 6 of RFC 7159 -----

  datatype Exponent = Exponent(mark: int, sign: seq<int>, digits: seq<int>) {
    predicate Valid() {
      IsE(mark) && IsDigits(digits) && (sign == [] || sign == [PLUS] || sign == [MINUS])
    }
  }

  datatype Numeral = Numeral(minus: bool, whole: seq<int>, fraction: Option<seq<int>>, exponent: Option<Exponent>) {
    predicate Valid() {
      && IsDigits(whole) && (whole[0] == ZERO ==> |whole| == 1)
      && (fraction.Some? ==> IsDigits(fraction.value))
      && (exponent.Some? ==> exponent.value.Valid())
    }

    function Text(): seq<int> {
      (if minus then [MINUS] else []) + (whole + (FractionText() + ExponentText()))
    }

    function FractionText(): seq<int> { FractionOf(fraction) }

    function ExponentText(): seq<int> { ExponentOf(exponent) }
  }

  function FractionOf(fraction: Option<seq<int>>): seq<int> {
    if fraction.None? then [] else [DOT] + fraction.value
  }

  function ExponentOf(exponent: Option<Exponent>): seq<int> {
    if exponent.None? then [] else [exponent.value.mark] + (exponent.value.sign + exponent.value.digits)
  }

  predicate IsDigits(s: seq<int>) {
    s != [] && forall i :: 0 <= i < |s| ==> IsDigit(s[i])
  }

  ghost predicate IsNumber(text: seq<int>) {
    exists n: Numeral :: n.Valid() && n.Text() == text
  }

  // ----- scanning -----

  /** Which numbers are in the range of double precision, as the C library tells. */
  type Range = seq<int> -> bool

  /** A number out of range is refused. */
  function Checked(fits: Range, r: Scan): Scan {
    if r.Scanned? && !fits(r.text) then Failed(OutOfRange) else r
  }

  /** The leading digits of s. */
  function Digits(s: seq<int>): (d: seq<int>)
    ensures |d| <= |s| && s[..|d|] == d
    ensures d != [] <==> IsDigit(Peek(s))
    ensures d != [] ==> IsDigits(d)
    ensures !IsDigit(Peek(s[|d|..]))
  {
    if IsDigit(Peek(s)) then [s[0]] + Digits(s[1..]) else []
  }

  function AfterDigits(s: seq<int>): seq<int> {
    s[|Digits(s)|..]
  }

  function Prepend(p: seq<int>, r: Scan): Scan {
    if r.Scanned? then Scanned(p + r.text, r.rest) else r
  }

  function ScanNumber(s: seq<int>): Scan {
    if Peek(s) == MINUS then
      if IsDigit(Peek(s[1..])) then Prepend([MINUS], ScanWhole(s[1..])) else Failed(ErrorAt(s[1..], JustMinus))
    else ScanWhole(s)
  }

  function ScanWhole(s: seq<int>): Scan {
    if Peek(s) == ZERO then
      if IsDigit(Peek(s[1..])) then Failed(LeadingZero) else Prepend([ZERO], ScanFraction(s[1..]))
    else Prepend(Digits(s), ScanFraction(AfterDigits(s)))
  }

  function ScanFraction(s: seq<int>): Scan {
    if Peek(s) == DOT then
      if IsDigit(Peek(s[1..])) then Prepend([DOT] + Digits(s[1..]), ScanExponent(AfterDigits(s[1..])))
      else Failed(ErrorAt(s[1..], NoFraction))
    else ScanExponent(s)
  }

  function ScanExponent(s: seq<int>): Scan {
    if IsE(Peek(s)) then
      if IsSign(Peek(s[1..])) then Prepend([s[0]] + [s[1]], ScanPower(s[2..]))
      else Prepend([s[0]], ScanPower(s[1..]))
    else ScanEnd(s)
  }

  function ScanPower(s: seq<int>): Scan {
    if IsDigit(Peek(s)) then Prepend(Digits(s), ScanEnd(AfterDigits(s))) else Failed(ErrorAt(s, EmptyExponent))
  }

  /** The character after the number has been read already; it must not be malformed. */
  function ScanEnd(s: seq<int>): Scan {
    if s != [] && s[0] < 0 then Failed(Malformed) else Scanned([], s)
  }

  // ----- what is scanned is a number, and every number is scanned -----

  /** A character that ends a number. */
  predicate EndsNumber(rest: seq<int>) {
    rest == [] || (rest[0] >= 0 && !IsDigit(rest[0]) && rest[0] != DOT && !IsE(rest[0]))
  }

  lemma {:induction false} DigitsOf(d: seq<int>, rest: seq<int>)
    requires forall i :: 0 <= i < |d| ==> IsDigit(d[i])
    requires !IsDigit(Peek(rest))
    ensures Digits(d + rest) == d && AfterDigits(d + rest) == rest
  {
    if d != [] {
      DigitsOf(d[1..], rest);
      assert (d + rest)[1..] == d[1..] + rest;
      assert [d[0]] + d[1..] == d;
    } else {
      assert d + rest == rest;
    }
  }

  /** The text of a numeral is scanned to its end. */
  lemma NumberScanned(n: Numeral, rest: seq<int>)
    requires n.Valid() && EndsNumber(rest)
    ensures ScanNumber(n.Text() + rest) == Scanned(n.Text(), rest)
  {
    var sign := if n.minus then [MINUS] else [];
    var w, f, x := n.whole, n.FractionText(), n.ExponentText();
    ExponentScanned(n, rest);
    FractionScanned(n, x + rest);
    WholeScanned(w, f + (x + rest));
    Assoc(f, x, rest);
    Assoc(w, f + x, rest);
    Assoc(sign, w + (f + x), rest);
    hide ScanWhole, ScanFraction, ScanExponent, FractionOf, ExponentOf;
    var s := w + (f + (x + rest));
    assert ScanWhole(s) == Scanned(w + (f + x), rest);
    if n.minus {
      assert (sign + s)[1..] == s && IsDigit(s[0]);
    } else {
      assert sign + s == s && sign + (w + (f + x)) == w + (f + x) && IsDigit(s[0]);
    }
  }

  lemma WholeScanned(whole: seq<int>, s: seq<int>)
    requires IsDigits(whole) && (whole[0] == ZERO ==> |whole| == 1) && !IsDigit(Peek(s))
    ensures ScanWhole(whole + s) == Prepend(whole, ScanFraction(s))
  {
    hide ScanFraction;
    DigitsOf(whole, s);
    if whole[0] == ZERO {
      assert whole == [ZERO] && (whole + s)[1..] == s;
    }
  }

  lemma FractionScanned(n: Numeral, s: seq<int>)
    requires n.Valid() && !IsDigit(Peek(s)) && Peek(s) != DOT
    ensures ScanExponent(s).Scanned? ==>
            ScanFraction(n.FractionText() + s) == Scanned(n.FractionText() + ScanExponent(s).text, ScanExponent(s).rest)
  {
    hide ScanExponent, Digits, ExponentOf;
    if n.fraction.Some? {
      var d := n.fraction.value;
      DigitsOf(d, s);
      Assoc([DOT], d, s);
      assert ([DOT] + (d + s))[1..] == d + s;
    } else {
      assert n.FractionText() + s == s;
      if ScanExponent(s).Scanned? {
        assert [] + ScanExponent(s).text == ScanExponent(s).text;
      }
    }
  }

  lemma ExponentScanned(n: Numeral, rest: seq<int>)
    requires n.Valid() && EndsNumber(rest)
    ensures ScanExponent(n.ExponentText() + rest) == Scanned(n.ExponentText(), rest)
  {
    hide FractionOf, Digits, ScanPower, ScanExponent, IsDigits, EndsNumber;
    if n.exponent.Some? {
      var x := n.exponent.value;
      PowerScanned(x.digits, rest);
      FirstDigit(x.digits, rest);
      Assoc([x.mark], x.sign + x.digits, rest);
      Assoc(x.sign, x.digits, rest);
      if x.sign == [] {
        assert x.sign + x.digits == x.digits && x.sign + (x.digits + rest) == x.digits + rest;
        UnsignedScanned(x.mark, x.digits + rest, x.digits, rest);
      } else {
        SignedScanned(x.mark, x.sign[0], x.digits + rest, x.digits, rest);
        assert x.sign == [x.sign[0]];
      }
    } else {
      assert n.ExponentText() + rest == rest;
      NoExponent(rest);
    }
  }

  lemma NoExponent(rest: seq<int>)
    requires EndsNumber(rest)
    ensures ScanExponent(rest) == Scanned([], rest)
  {
  }

  lemma UnsignedScanned(mark: int, tail: seq<int>, d: seq<int>, rest: seq<int>)
    requires IsE(mark) && IsDigit(Peek(tail)) && ScanPower(tail) == Scanned(d, rest)
    ensures ScanExponent([mark] + tail) == Scanned([mark] + d, rest)
  {
    hide ScanPower;
    assert ([mark] + tail)[1..] == tail;
  }

  lemma SignedScanned(mark: int, sign: int, tail: seq<int>, d: seq<int>, rest: seq<int>)
    requires IsE(mark) && IsSign(sign) && ScanPower(tail) == Scanned(d, rest)
    ensures ScanExponent([mark] + ([sign] + tail)) == Scanned([mark] + ([sign] + d), rest)
  {
    hide ScanPower;
    var s := [mark] + ([sign] + tail);
    assert s[1..] == [sign] + tail && s[2..] == tail;
    Assoc([mark], [sign], d);
  }

  lemma FirstDigit(d: seq<int>, rest: seq<int>)
    requires IsDigits(d)
    ensures IsDigit(Peek(d + rest))
  {
  }

  lemma PowerScanned(d: seq<int>, rest: seq<int>)
    requires IsDigits(d) && EndsNumber(rest)
    ensures ScanPower(d + rest) == Scanned(d, rest)
  {
    DigitsOf(d, rest);
    assert d + [] == d;
  }

  /** Each step of the scan takes one part of a numeral off the input. */
  lemma PowerIsNumber(s: seq<int>)
    ensures var r := ScanPower(s); r.Scanned? ==> IsDigits(r.text) && s == r.text + r.rest
  {
  }

  lemma ExponentIsNumber(s: seq<int>) returns (x: Option<Exponent>)
    ensures var r := ScanExponent(s); r.Scanned? ==>
            (x.Some? ==> x.value.Valid()) && r.text == ExponentOf(x) && s == r.text + r.rest
  {
    hide ScanPower, Digits;
    x := None;
    if IsE(Peek(s)) {
      var signed := IsSign(Peek(s[1..]));
      var tail := if signed then s[2..] else s[1..];
      PowerIsNumber(tail);
      var r := ScanPower(tail);
      if r.Scanned? {
        var sign := if signed then [s[1]] else [];
        x := Some(Exponent(s[0], sign, r.text));
        Assoc([s[0]], sign, r.text);
        Assoc([s[0]] + sign, r.text, r.rest);
        assert [s[0]] + [] == [s[0]];
        assert s == ([s[0]] + sign) + tail;
      }
    }
  }

  lemma DigitsSplit(s: seq<int>)
    ensures s == Digits(s) + AfterDigits(s)
    ensures IsDigit(Peek(s)) ==> IsDigits(Digits(s))
  {
  }

  lemma FractionIsNumber(s: seq<int>) returns (f: Option<seq<int>>, x: Option<Exponent>)
    ensures var r := ScanFraction(s); r.Scanned? ==>
            && (f.Some? ==> IsDigits(f.value)) && (x.Some? ==> x.value.Valid())
            && r.text == FractionOf(f) + ExponentOf(x) && s == r.text + r.rest
  {
    hide ScanExponent, Digits, AfterDigits, IsDigits, IsDigit, ExponentOf, Exponent.Valid;
    if Peek(s) == DOT {
      var d, tail := Digits(s[1..]), AfterDigits(s[1..]);
      DigitsSplit(s[1..]);
      x := ExponentIsNumber(tail);
      f := Some(d);
      var r := ScanExponent(tail);
      if r.Scanned? && IsDigit(Peek(s[1..])) {
        assert s == [DOT] + s[1..];
        Assoc([DOT], d, tail);
        Assoc([DOT] + d, r.text, r.rest);
      }
    } else {
      f := None;
      x := ExponentIsNumber(s);
      var r := ScanExponent(s);
      if r.Scanned? {
        assert [] + r.text == r.text;
      }
    }
  }

  lemma WholeIsNumber(s: seq<int>) returns (n: Numeral)
    requires IsDigit(Peek(s))
    ensures var r := ScanWhole(s); r.Scanned? ==>
            && n.Valid() && !n.minus && r.text == n.whole + (n.FractionText() + n.ExponentText())
            && s == r.text + r.rest
  {
    hide ScanFraction, FractionOf, ExponentOf, Exponent.Valid;
    DigitsSplit(s);
    var w := if Peek(s) == ZERO then [ZERO] else Digits(s);
    var tail := s[|w|..];
    assert s == w + tail;
    var f, x := FractionIsNumber(tail);
    n := Numeral(false, w, f, x);
    var r := ScanFraction(tail);
    if r.Scanned? {
      Assoc(w, r.text, r.rest);
    }
  }

  /** What is scanned as a number is a prefix of the input and has the grammar of a number. */
  lemma ScannedIsNumber(s: seq<int>)
    requires Peek(s) == MINUS || IsDigit(Peek(s))
    ensures var r := ScanNumber(s); r.Scanned? ==> IsNumber(r.text) && s == r.text + r.rest && r.text != []
  {
    hide ScanWhole, FractionOf, ExponentOf;
    var r := ScanNumber(s);
    if r.Scanned? {
      var t := if Peek(s) == MINUS then s[1..] else s;
      var n := WholeIsNumber(t);
      var m := n.(minus := Peek(s) == MINUS);
      var w := ScanWhole(t);
      SignedText(m, w.text);
      hide Numeral.Valid, Numeral.Text;
      if Peek(s) == MINUS {
        assert s == [MINUS] + s[1..];
        Assoc([MINUS], w.text, w.rest);
      }
      assert m.Valid() && m.Text() == r.text;
    }
  }

  lemma SignedText(n: Numeral, text: seq<int>)
    requires n.Valid() || n.(minus := false).Valid()
    requires text == n.whole + (n.FractionText() + n.ExponentText())
    ensures n.Valid() && n.Text() == (if n.minus then [MINUS] + text else text) && text != []
  {
    assert [] + text == text;
  }
}
