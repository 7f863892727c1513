/**
 The JSON reader as it works: one character and one token of look-ahead, and one shared
 node for all tokens without a value. Each method is tied to the scanning functions.
 */
module JsonReader {
  import opened Basics
  import opened JsonText
  import opened JsonNumber
  import opened JsonValue
  import opened JsonObject

  /** A pointer to a node: the shared trivial token of the reader, or a real value. */
  datatype NodeRef = Trivial | Node(v: Json)

  /** A value or, in the place of an exception, an error. */
  datatype Result<T> = Done(value: T) | Throw(error: Error)

  class Reader {
    const input: seq<int>
    const fits: Range
    var pos: nat
    var inEof: bool
    var nextChar: int
    var nextToken: Option<NodeRef>
    var trivial: Option<Token>          // type of the trivial token, None before its first use

    constructor (input: seq<int>, fits: Range)
      ensures Valid() && this.input == input && this.fits == fits && Fresh()
    {
      this.input, this.fits := input, fits;
      pos, inEof, nextChar, nextToken, trivial := 0, false, -1, None, None;
    }

    /** The state set up by json_set_input. */
    ghost predicate Fresh()
      reads this
    {
      pos == 0 && !inEof && nextChar == -1 && nextToken == None
    }

    ghost predicate Valid()
      reads this
    {
      && pos <= |input|
      && (inEof ==> pos == |input| && nextChar < 0)
      && (trivial.Some? ==> !trivial.value.Elementary?)
      && (nextToken == Some(Trivial) ==> trivial.Some?)
    }

    /** The unread part of the file. */
    ghost function Tail(): seq<int>
      requires pos <= |input|
      reads this
    {
      input[pos..]
    }

    /** The unread text if c is the current character, -1 standing for the end of input. */
    ghost function Cur(c: int): seq<int>
      requires pos <= |input|
      reads this
    {
      if c < 0 then Tail() else [c] + Tail()
    }

    /** c is the current character, already taken off the file. */
    ghost predicate Current(c: int)
      reads this
    {
      Valid() && nextChar < 0 && if c < 0 then c == -1 && Tail() == [] else !inEof
    }

    /** The token a node pointer denotes at present. */
    function TypeOf(t: NodeRef): Token
      requires t.Trivial? ==> trivial.Some?
      reads this
    {
      match t
      case Trivial => trivial.value
      case Node(v) => Elementary(v)
    }

    /** The reader is about to read the text s, of which a token may have been peeked at. */
    ghost predicate Reads(s: seq<int>)
      reads this
    {
      && Valid()
      && match nextToken
         case None => Cur(nextChar) == s
         case Some(t) => Lex(fits, s) == Lexed(TypeOf(t), Cur(nextChar))
    }

    /** Reads a character; -1 at the end of input. Not ok if it is malformed. */
    method GetChar() returns (c: int, ok: bool)
      requires Valid() && nextChar < 0
      modifies this`pos, this`inEof
      ensures Valid() && old(pos) <= pos
      ensures ok <==> !(old(Tail()) != [] && old(Tail())[0] < 0)
      ensures !ok ==> Tail() == old(Tail())
      ensures ok ==> c == Peek(old(Tail())) && Cur(c) == old(Tail())
      ensures ok && c >= 0 ==> pos == old(pos) + 1 && inEof == old(inEof)
      ensures ok && c < 0 ==> old(Tail()) == [] == Tail() && inEof
    {
      if pos == |input| {
        inEof := true;
        return -1, true;
      }
      c := input[pos];
      if c < 0 {
        return c, false;
      }
      pos := pos + 1;
      ok := true;
    }

    method TrivToken(t: Token) returns (r: Result<NodeRef>)
      requires Valid() && !t.Elementary?
      modifies this`trivial
      ensures Valid() && r == Done(Trivial) && trivial == Some(t)
    {
      trivial := Some(t);
      r := Done(Trivial);
    }

    /** Appends all digits from the current character c on. */
    method TakeDigits(c: int, p: seq<int>) returns (c': int, p': seq<int>, ok: bool)
      requires Current(c)
      modifies this`pos, this`inEof
      ensures Valid() && (ok ==> Current(c'))
      ensures var s := old(Cur(c));
              && p' == p + Digits(s)
              && (ok ==> Cur(c') == AfterDigits(s))
              && (!ok ==> AfterDigits(s) != [] && AfterDigits(s)[0] < 0)
    {
      c', p', ok := c, p, true;
      ghost var s := Cur(c);
      ghost var d: seq<int> := [];
      assert s == [] + s;
      while IsDigit(c')
        invariant Current(c')
        invariant s == d + Cur(c') && p' == p + d && forall i :: 0 <= i < |d| ==> IsDigit(d[i])
        decreases |input| - pos, c' >= 0
      {
        p', d := p' + [c'], d + [c'];
        ghost var rest := Tail();
        c', ok := GetChar();
        assert s == d + rest;
        if !ok {
          DigitsOf(d, rest);
          return;
        }
      }
      DigitsOf(d, Cur(c'));
    }

    /** Reads the next character; in the scan, what is left after c. */
    method Advance(ghost c: int) returns (c': int, ok: bool)
      requires Current(c) && c >= 0
      modifies this`pos, this`inEof
      ensures Valid() && (ok ==> Current(c'))
      ensures ok ==> Cur(c') == old(Tail()) && c' == Peek(old(Tail()))
      ensures !ok ==> old(Tail()) != [] && old(Tail())[0] < 0
    {
      c', ok := GetChar();
    }

    method ParseNumber(c0: int) returns (r: Result<seq<int>>)
      requires Current(c0) && (c0 == MINUS || IsDigit(c0))
      modifies this`pos, this`inEof, this`nextChar
      ensures Valid() && Outcome(Checked(fits, ScanNumber([c0] + old(Tail()))), r)
    {
      hide ScanWhole;
      ghost var s := Cur(c0);
      assert s[1..] == Tail();
      var c, p, ok := c0, [], true;
      if c == MINUS {
        p := p + [c];
        c, ok := Advance(c);
        if !ok { return Throw(Malformed); }
        if !IsDigit(c) { return Throw(JustMinus); }
        assert Cur(c) == s[1..];
      }
      r := ParseWhole(c, p);
      if r.Done? {
        ghost var t := ScanWhole(if c0 == MINUS then s[1..] else s).text;
        assert [] + t == t && [] + [c0] == [c0];
        if !fits(r.value) { return Throw(OutOfRange); }
      }
    }

    /** The text has been scanned and the rest is left to be read. */
    ghost predicate Outcome(scan: Scan, r: Result<seq<int>>)
      requires pos <= |input|
      reads this
    {
      match scan
      case Failed(e) => r == Throw(e)
      case Scanned(t, rest) => r == Done(t) && Cur(nextChar) == rest
    }

    /** The integer part and what follows it; p is the sign, if any. */
    method ParseWhole(c0: int, p0: seq<int>) returns (r: Result<seq<int>>)
      requires Current(c0) && IsDigit(c0)
      modifies this`pos, this`inEof, this`nextChar
      ensures Valid() && Outcome(Prepend(p0, ScanWhole([c0] + old(Tail()))), r)
    {
      hide ScanFraction, Digits;
      ghost var s := Cur(c0);
      ghost var w := if c0 == ZERO then [ZERO] else Digits(s);
      var c, p, ok := c0, p0, true;
      if c == ZERO {
        p := p + [c];
        assert s[1..] == Tail();
        c, ok := Advance(c);
        if !ok { EndsMalformed(s[1..]); return Throw(Malformed); }
        if IsDigit(c) { return Throw(LeadingZero); }
      } else {
        c, p, ok := TakeDigits(c, p);
        if !ok { EndsMalformed(AfterDigits(s)); return Throw(Malformed); }
      }
      r := ParseFraction(c, p);
      if r.Done? {
        Assoc(p0, w, ScanFraction(s[|w|..]).text);
      }
    }

    method ParseFraction(c0: int, p0: seq<int>) returns (r: Result<seq<int>>)
      requires Current(c0)
      modifies this`pos, this`inEof, this`nextChar
      ensures Valid() && Outcome(Prepend(p0, ScanFraction(old(Cur(c0)))), r)
    {
      hide ScanExponent, Digits;
      ghost var s := Cur(c0);
      var c, p, ok := c0, p0, true;
      if c == DOT {
        p := p + [c];
        assert s[1..] == Tail();
        c, ok := Advance(c);
        if !ok { return Throw(Malformed); }
        if !IsDigit(c) { return Throw(NoFraction); }
        c, p, ok := TakeDigits(c, p);
        ghost var d, e := Digits(s[1..]), AfterDigits(s[1..]);
        if !ok { EndsMalformed(e); return Throw(Malformed); }
        r := ParseExponent(c, p);
        if r.Done? {
          Assoc(p0, [DOT], d);
          Assoc(p0, [DOT] + d, ScanExponent(e).text);
        }
      } else {
        r := ParseExponent(c, p);
      }
    }

    method ParseExponent(c0: int, p0: seq<int>) returns (r: Result<seq<int>>)
      requires Current(c0)
      modifies this`pos, this`inEof, this`nextChar
      ensures Valid() && Outcome(Prepend(p0, ScanExponent(old(Cur(c0)))), r)
    {
      hide ScanPower;
      ghost var s := Cur(c0);
      var c, p, ok := c0, p0, true;
      if IsE(c) {
        p := p + [c];
        assert s[1..] == Tail();
        c, ok := Advance(c);
        if !ok { PowerMalformed(s[1..]); return Throw(Malformed); }
        if IsSign(c) {
          p := p + [c];
          assert s[2..] == Tail();
          c, ok := Advance(c);
          if !ok { PowerMalformed(s[2..]); return Throw(Malformed); }
          r := ParsePower(c, p);
          if r.Done? {
            Assoc(p0, [s[0]], [s[1]]);
            Assoc(p0, [s[0]] + [s[1]], ScanPower(s[2..]).text);
          }
        } else {
          r := ParsePower(c, p);
          if r.Done? {
            Assoc(p0, [s[0]], ScanPower(s[1..]).text);
          }
        }
      } else {
        nextChar := c;
        r := Done(p);
        assert p0 + [] == p0;
      }
    }

    /** The digits of an exponent and the end of the number. */
    method ParsePower(c0: int, p0: seq<int>) returns (r: Result<seq<int>>)
      requires Current(c0)
      modifies this`pos, this`inEof, this`nextChar
      ensures Valid() && Outcome(Prepend(p0, ScanPower(old(Cur(c0)))), r)
    {
      hide Digits;
      ghost var s := Cur(c0);
      if !IsDigit(c0) { return Throw(EmptyExponent); }
      var c, p, ok := TakeDigits(c0, p0);
      if !ok { return Throw(Malformed); }
      nextChar := c;
      r := Done(p);
      assert Digits(s) + [] == Digits(s);
    }

    /** Collects letters; the buffer keeps the first 15 of them. */
    method TakeName(c0: int) returns (c: int, name: seq<int>, ghost read: seq<int>, ok: bool)
      requires Current(c0)
      modifies this`pos, this`inEof
      ensures Valid() && (ok ==> Current(c) && !IsLower(c))
      ensures forall i :: 0 <= i < |read| ==> IsLower(read[i])
      ensures if |read| < 15 then name == read else |name| == 15
      ensures old(Cur(c0)) == read + (if ok then Cur(c) else Tail())
      ensures !ok ==> Tail() != [] && Tail()[0] < 0
    {
      c, ok, name, read := c0, true, [], [];
      ghost var s := Cur(c0);
      assert s == [] + s;
      while IsLower(c)
        invariant Current(c) && ok
        invariant s == read + Cur(c) && forall i :: 0 <= i < |read| ==> IsLower(read[i])
        invariant if |read| < 15 then name == read else |name| == 15
        decreases |input| - pos, c >= 0
      {
        if |name| < 15 {
          name := name + [c];
        }
        read := read + [c];
        ghost var rest := Tail();
        c, ok := GetChar();
        assert s == read + rest;
        if !ok {
          return;
        }
      }
    }

    method ParseName(c0: int) returns (r: Result<NodeRef>)
      requires Current(c0) && IsLower(c0)
      modifies this`pos, this`inEof, this`nextChar
      ensures Valid() && Becomes(LexName([c0] + old(Tail())), r)
    {
      hide LexName, Letters, Named;
      var c, name, read, ok := TakeName(c0);
      NameOf(read, if ok then Cur(c) else Tail());
      if !ok { return Throw(Malformed); }
      if |name| >= 15 {
        return Throw(InvalidName);
      }
      nextChar := c;
      r := Named(name);
    }

    /** The token read is an elementary one, in a node of its own. */
    ghost predicate Becomes(lex: LexResult, r: Result<NodeRef>)
      requires pos <= |input|
      reads this
    {
      match lex
      case LexError(e) => r == Throw(e)
      case Lexed(Elementary(v), rest) => r == Done(Node(v)) && Cur(nextChar) == rest
      case Lexed(t, rest) => r == Done(Trivial) && trivial == Some(t) && Cur(nextChar) == rest
    }

    method ParseHex4() returns (r: Result<int>)
      requires Valid() && nextChar < 0 && !inEof
      modifies this`pos, this`inEof
      ensures Valid() && Char(ScanHex(old(Tail()), 0, 4), r)
    {
      ghost var s := Tail();
      var x := 0;
      for i := 0 to 4
        invariant Valid() && !inEof && x >= 0
        invariant ScanHex(s, 0, 4) == ScanHex(Tail(), x, 4 - i)
      {
        ghost var rest := Tail();
        var c, ok := GetChar();
        if !ok { return Throw(Malformed); }
        if HexValue(c) < 0 { return Throw(InvalidHex); }
        x := 0x10 * x + HexValue(c);
        assert rest[1..] == Tail();
      }
      r := Done(x);
    }

    /** One scanned character leaves the rest to be read. */
    ghost predicate Char(scan: ScanOne, r: Result<int>)
      requires pos <= |input|
      reads this
    {
      match scan
      case Bad(e) => r == Throw(e)
      case One(c, rest) => r == Done(c) && Tail() == rest && !inEof
    }

    /** After a backslash. */
    method ParseEscape() returns (r: Result<int>)
      requires Valid() && nextChar < 0 && !inEof
      modifies this`pos, this`inEof
      ensures Valid() && Char(ScanEscape(old(Tail())), r)
    {
      ghost var s := Tail();
      var c, ok := GetChar();
      if !ok { return Throw(Malformed); }
      assert c >= 0 ==> Tail() == s[1..];
      if c == QUOTE || c == BACKSLASH || c == SLASH {
        return Done(c);
      } else if c == 0x62 {
        return Done(0x08);
      } else if c == 0x66 {
        return Done(0x0c);
      } else if c == 0x6e {
        return Done(0x0a);
      } else if c == 0x72 {
        return Done(0x0d);
      } else if c == 0x74 {
        return Done(0x09);
      } else if c != 0x75 {
        return Throw(InvalidEscape);
      }
      r := ParseUnicode();
    }

    /** After "\u": a code point, or a pair of surrogates. */
    method ParseUnicode() returns (r: Result<int>)
      requires Valid() && nextChar < 0 && !inEof
      modifies this`pos, this`inEof
      ensures Valid() && Char(ScanUnicode(old(Tail())), r)
    {
      hide ScanHex;
      r := ParseHex4();
      if r.Throw? { return; }
      var x := r.value;
      if x == 0 { return Throw(ZeroByte); }
      if 0xd800 <= x < 0xf900 {
        if x < 0xdc00 {
          ghost var s := Tail();
          var c, ok := GetChar();
          if !ok { return Throw(Malformed); }
          if c != BACKSLASH { return Throw(LoneHighSurrogate); }
          assert Tail() == s[1..];
          c, ok := GetChar();
          if !ok { return Throw(Malformed); }
          if c != 0x75 { return Throw(LoneHighSurrogate); }
          assert Tail() == s[2..];
          r := ParseHex4();
          if r.Throw? { return; }
          var y := r.value;
          if !(0xdc00 <= y < 0xe000) { return Throw(LoneHighSurrogate); }
          if Combine(x, y) > 0xf0000 { return Throw(PrivateUse); }
          return Done(Combine(x, y));
        } else if x < 0xe000 {
          return Throw(LoneLowSurrogate);
        } else {
          return Throw(PrivateUse);
        }
      }
    }

    /** After the opening quote. */
    method ParseString() returns (r: Result<seq<int>>)
      requires Valid() && nextChar < 0 && !inEof
      modifies this`pos, this`inEof, this`nextChar
      ensures Valid() && Outcome(ScanChars(old(Tail())), r)
    {
      hide ScanChar;
      ghost var s := Tail();
      var p: seq<int> := [];
      var c, ok := GetChar();
      if !ok { BadChar(s); return Throw(Malformed); }
      while c != QUOTE
        invariant Current(c)
        invariant Continues(s, p, Cur(c))
        decreases |input| - pos, c >= 0
      {
        ghost var t := Cur(c);
        if !RawValid(c) {
          BadChar(t);
          return Throw(RawError(c));
        }
        if c == BACKSLASH {
          assert Tail() == t[1..];
          var e := ParseEscape();
          EscapedChar(t);
          if e.Throw? { return Throw(e.error); }
          c := e.value;
        } else {
          RawChar(t);
        }
        p := p + [c];
        ContinuesStep(s, p[..|p| - 1], t);
        ghost var rest := Tail();
        c, ok := GetChar();
        if !ok { BadChar(rest); return Throw(Malformed); }
      }
      assert Cur(c)[1..] == Tail();
      r := Done(p);
      assert p + [] == p;
    }

    /** The token of a scanned number or string. */
    method Wrap(t: Result<seq<int>>, number: bool) returns (r: Result<NodeRef>)
      ensures r == match t
                   case Throw(e) => Throw(e)
                   case Done(u) => Done(Node(if number then Number(u) else String(u)))
    {
      match t
      case Throw(e) => r := Throw(e);
      case Done(u) => r := Done(Node(if number then Number(u) else String(u)));
    }

    method ReadToken() returns (r: Result<NodeRef>)
      requires Valid() && nextToken == None
      modifies this
      ensures Valid() && nextToken == None
      ensures Becomes(Lex(fits, old(Cur(nextChar))), r)
    {
      hide LexToken, SkipWhite;
      ghost var s := Cur(nextChar);
      if inEof {
        r := TrivToken(Eof);
        EofLexed(fits, s);
        return;
      }
      var c, ok := nextChar, true;
      if c >= 0 {
        nextChar := -1;
      } else {
        nextChar := -1;
        c, ok := GetChar();
        if !ok { MalformedLexed(fits, s); return Throw(Malformed); }
      }
      while IsWhite(c)
        invariant Current(c) && nextToken == None
        invariant Lex(fits, s) == Lex(fits, Cur(c))
        decreases |input| - pos, c >= 0
      {
        ghost var t := Cur(c);
        WhiteSkipped(fits, t);
        assert t[1..] == Tail();
        c, ok := Advance(c);
        if !ok { MalformedLexed(fits, t[1..]); return Throw(Malformed); }
      }
      r := TokenAt(c);
    }

    /** A token starting with c, which is not white space. */
    method TokenAt(c: int) returns (r: Result<NodeRef>)
      requires Current(c) && nextToken == None && !IsWhite(c)
      modifies this
      ensures Valid() && nextToken == None
      ensures Becomes(Lex(fits, old(Cur(c))), r)
    {
      hide ScanNumber, LexName, ScanChars;
      ghost var s := Cur(c);
      assert Peek(s) == c && SkipWhite(s) == s;
      if c < 0 {
        r := TrivToken(Eof);
      } else if IsDigit(c) || c == MINUS {
        var t := ParseNumber(c);
        r := Wrap(t, true);
      } else if IsLower(c) {
        r := ParseName(c);
      } else if c == QUOTE {
        assert s[1..] == Tail();
        var t := ParseString();
        r := Wrap(t, false);
      } else {
        assert s[1..] == Tail();
        if c == OPEN_ARRAY { r := TrivToken(BeginArray); }
        else if c == CLOSE_ARRAY { r := TrivToken(EndArray); }
        else if c == OPEN_OBJECT { r := TrivToken(BeginObject); }
        else if c == CLOSE_OBJECT { r := TrivToken(EndObject); }
        else if c == COLON { r := TrivToken(NameSep); }
        else if c == COMMA { r := TrivToken(ValueSep); }
        else { r := Throw(InvalidCharacter); }
      }
    }

    /** Looks at the next token and keeps it. */
    method PeekToken(ghost s: seq<int>) returns (r: Result<NodeRef>)
      requires Reads(s)
      modifies this
      ensures Valid()
      ensures match Lex(fits, s)
              case LexError(e) => r == Throw(e)
              case Lexed(t, rest) =>
                && r.Done? && (r.value.Trivial? ==> trivial.Some?) && TypeOf(r.value) == t && nextToken == Some(r.value)
                && Reads(s) && Cur(nextChar) == rest
    {
      hide Lex;
      if nextToken == None {
        r := ReadToken();
        if r.Throw? { return; }
        nextToken := Some(r.value);
      } else {
        r := Done(nextToken.value);
      }
    }

    /** Takes the next token. */
    method NextToken(ghost s: seq<int>) returns (r: Result<NodeRef>)
      requires Reads(s)
      modifies this
      ensures Valid()
      ensures match Lex(fits, s)
              case LexError(e) => r == Throw(e)
              case Lexed(t, rest) =>
                r.Done? && (r.value.Trivial? ==> trivial.Some?) && TypeOf(r.value) == t && Reads(rest)
    {
      hide Lex;
      if nextToken.Some? {
        r := Done(nextToken.value);
        nextToken := None;
      } else {
        r := ReadToken();
      }
    }

    /** The next value. It is never the shared trivial token: the result is a node holding the
        tree, or nothing at the end of input. */
    method NextValue(ghost s: seq<int>) returns (r: Result<Option<NodeRef>>)
      requires Reads(s)
      modifies this
      ensures Valid() && Returned(ParseValue(fits, s), r)
      decreases |s|, 0
    {
      hide Lex;
      ParseValueSteps(fits, s);
      LexConsumes(fits, s);
      var t := NextToken(s);
      if t.Throw? { return Throw(t.error); }
      match TypeOf(t.value)
      case Eof => r := Done(None);
      case Elementary(v) => r := Done(Some(t.value));
      case BeginArray => r := NextArray(Lex(fits, s).rest);
      case BeginObject => r := NextObject(Lex(fits, s).rest);
      case _ => r := Throw(Misplaced);
    }

    method NextArray(ghost s: seq<int>) returns (r: Result<Option<NodeRef>>)
      requires Reads(s)
      modifies this
      ensures Valid() && Returned(ParseArray(fits, s), r)
      decreases |s|, 2
    {
      hide Lex, ParseElements;
      var t := PeekToken(s);
      if t.Throw? { return Throw(t.error); }
      if TypeOf(t.value) == EndArray {
        t := NextToken(s);
        return Done(Some(Node(Array([]))));
      }
      r := NextElements(s);
    }

    /** The elements of an array up to its closing bracket. */
    method NextElements(ghost s: seq<int>) returns (r: Result<Option<NodeRef>>)
      requires Reads(s)
      modifies this
      ensures Valid() && Returned(ParseElements(fits, s, []), r)
      decreases |s|, 1
    {
      hide Lex, ParseElements, ParseValue;
      var a: seq<Json> := [];
      ghost var cur := s;
      while true
        invariant Reads(cur) && |cur| <= |s|
        invariant ParseElements(fits, cur, a) == ParseElements(fits, s, [])
        decreases |cur|
      {
        ElementsUnfold(fits, cur, a);
        var v := NextValue(cur);
        if v.Throw? { return Throw(v.error); }
        if v.value.None? { return Throw(UnterminatedArray); }
        ghost var rest := ParseValue(fits, cur).rest;
        LexConsumes(fits, rest);
        a := a + [v.value.value.v];
        var t := NextToken(rest);
        if t.Throw? { return Throw(t.error); }
        if TypeOf(t.value) == EndArray {
          return Done(Some(Node(Array(a))));
        }
        if TypeOf(t.value) != ValueSep { return Throw(CommaExpected); }
        cur := Lex(fits, rest).rest;
      }
    }

    method NextObject(ghost s: seq<int>) returns (r: Result<Option<NodeRef>>)
      requires Reads(s)
      modifies this
      ensures Valid() && Returned(ParseObject(fits, s), r)
      decreases |s|, 2
    {
      hide Lex, ParsePairs;
      var t := PeekToken(s);
      if t.Throw? { return Throw(t.error); }
      if TypeOf(t.value) == EndObject {
        t := NextToken(s);
        return Done(Some(Node(Object([]))));
      }
      r := NextPairs(s);
    }

    /** The attributes of an object up to its closing bracket. */
    method NextPairs(ghost s: seq<int>) returns (r: Result<Option<NodeRef>>)
      requires Reads(s)
      modifies this
      ensures Valid() && Returned(ParsePairs(fits, s, []), r)
      decreases |s|, 1
    {
      hide Lex, ParsePairs, ParsePairValue, ParseValue;
      var o := new ObjectNode();
      ghost var cur := s;
      while true
        invariant Reads(cur) && |cur| <= |s| && fresh(o) && o.Valid()
        invariant ParsePairs(fits, cur, o.pairs) == ParsePairs(fits, s, [])
        decreases |cur|
      {
        PairsUnfold(fits, cur, o.pairs);
        var k := NextValue(cur);
        if k.Throw? { return Throw(k.error); }
        if k.value.None? { return Throw(UnterminatedObject); }
        if !k.value.value.v.String? { return Throw(KeyNotString); }
        var key := k.value.value.v.s;
        ghost var rest := ParseValue(fits, cur).rest;
        LexConsumes(fits, rest);
        var t := NextToken(rest);
        if t.Throw? { return Throw(t.error); }
        if TypeOf(t.value) != NameSep { return Throw(ColonExpected); }
        rest := Lex(fits, rest).rest;
        PairValueUnfold(fits, rest, o.pairs, key);
        var v := NextValue(rest);
        if v.Throw? { return Throw(v.error); }
        if v.value.None? { return Throw(UnterminatedObject); }
        var present := o.Get(key);
        if present.Some? { return Throw(KeyAlreadySet); }
        o.Set(key, Some(v.value.value.v));
        rest := ParseValue(fits, rest).rest;
        LexConsumes(fits, rest);
        t := NextToken(rest);
        if t.Throw? { return Throw(t.error); }
        if TypeOf(t.value) == EndObject {
          return Done(Some(Node(Object(o.pairs))));
        }
        if TypeOf(t.value) != ValueSep { return Throw(CommaExpected); }
        cur := Lex(fits, rest).rest;
      }
    }

    /** Reads a whole file: exactly what Parse says, and the tree returned never contains the
        shared token. */
    method ParseFile() returns (r: Result<NodeRef>)
      requires Valid() && Fresh()
      modifies this
      ensures match Parse(fits, input)
              case Err(e) => r == Throw(e)
              case Ok(v, _) => r == Done(Node(v))
              case End => false
    {
      hide Lex, ParseValue;
      assert Tail() == input;
      var n := NextValue(input);
      if n.Throw? { return Throw(n.error); }
      if n.value.None? { return Throw(EmptyInput); }
      var t := NextToken(ParseValue(fits, input).rest);
      if t.Throw? { return Throw(t.error); }
      if TypeOf(t.value) != Eof { return Throw(TrailingValue); }
      r := Done(n.value.value);
    }

    ghost predicate Returned(p: Parsed, r: Result<Option<NodeRef>>)
      reads this
    {
      match p
      case Err(e) => r == Throw(e)
      case End => r == Done(None)
      case Ok(v, rest) => r == Done(Some(Node(v))) && Reads(rest)
    }
  }

  /** The value a name stands for. */
  function Named(name: seq<int>): (r: Result<NodeRef>)
    ensures match r
            case Throw(e) => e == InvalidName
            case Done(n) => n.Node?
  {
    if name == NULL_NAME then Done(Node(Null))
    else if name == FALSE_NAME then Done(Node(Boolean(false)))
    else if name == TRUE_NAME then Done(Node(Boolean(true)))
    else Throw(InvalidName)
  }

  lemma NameOf(name: seq<int>, rest: seq<int>)
    requires (forall i :: 0 <= i < |name| ==> IsLower(name[i])) && !IsLower(Peek(rest))
    ensures LexName(name + rest) ==
            if rest != [] && rest[0] < 0 then LexError(Malformed)
            else if |name| >= 15 || Named(name).Throw? then LexError(InvalidName)
            else Lexed(Elementary(Named(name).value.v), rest)
  {
    LettersOf(name, rest);
  }

  /** What ParseValue does for each kind of token. */
  lemma ParseValueSteps(fits: Range, s: seq<int>)
    ensures match Lex(fits, s)
            case LexError(e) => ParseValue(fits, s) == Err(e)
            case Lexed(Eof, _) => ParseValue(fits, s) == End
            case Lexed(Elementary(v), rest) => ParseValue(fits, s) == Ok(v, rest)
            case Lexed(BeginArray, rest) => ParseValue(fits, s) == ParseArray(fits, rest)
            case Lexed(BeginObject, rest) => ParseValue(fits, s) == ParseObject(fits, rest)
            case _ => ParseValue(fits, s) == Err(Misplaced)
  {
  }

  /** After an opening bracket. */
  ghost function ParseArray(fits: Range, s: seq<int>): Parsed {
    match Lex(fits, s)
    case LexError(e) => Err(e)
    case Lexed(EndArray, rest) => Ok(Array([]), rest)
    case _ => ParseElements(fits, s, [])
  }

  ghost function ParseObject(fits: Range, s: seq<int>): Parsed {
    match Lex(fits, s)
    case LexError(e) => Err(e)
    case Lexed(EndObject, rest) => Ok(Object([]), rest)
    case _ => ParsePairs(fits, s, [])
  }

  lemma ElementsUnfold(fits: Range, s: seq<int>, acc: seq<Json>)
    ensures var p := ParseValue(fits, s); var r := ParseElements(fits, s, acc);
            && (p.End? ==> r == Err(UnterminatedArray))
            && (p.Err? ==> r == Err(p.error))
            && (p.Ok? ==> r == AfterElement(fits, Lex(fits, p.rest), acc + [p.v]))
  {
  }

  ghost function AfterElement(fits: Range, t: LexResult, acc: seq<Json>): Parsed {
    match t
    case LexError(e) => Err(e)
    case Lexed(EndArray, rest) => Ok(Array(acc), rest)
    case Lexed(ValueSep, rest) => ParseElements(fits, rest, acc)
    case _ => Err(CommaExpected)
  }

  lemma PairsUnfold(fits: Range, s: seq<int>, acc: seq<Pair>)
    ensures var p := ParseValue(fits, s); var r := ParsePairs(fits, s, acc);
            && (p.End? ==> r == Err(UnterminatedObject))
            && (p.Err? ==> r == Err(p.error))
            && (p.Ok? && !p.v.String? ==> r == Err(KeyNotString))
            && (p.Ok? && p.v.String? ==> r == AfterKey(fits, Lex(fits, p.rest), acc, p.v.s))
  {
  }

  ghost function AfterKey(fits: Range, t: LexResult, acc: seq<Pair>, key: seq<int>): Parsed {
    match t
    case LexError(e) => Err(e)
    case Lexed(NameSep, rest) => ParsePairValue(fits, rest, acc, key)
    case _ => Err(ColonExpected)
  }

  lemma PairValueUnfold(fits: Range, s: seq<int>, acc: seq<Pair>, key: seq<int>)
    ensures var p := ParseValue(fits, s); var r := ParsePairValue(fits, s, acc, key);
            && (p.End? ==> r == Err(UnterminatedObject))
            && (p.Err? ==> r == Err(p.error))
            && (p.Ok? && HasKey(acc, key) ==> r == Err(KeyAlreadySet))
            && (p.Ok? && !HasKey(acc, key) ==> r == AfterAttribute(fits, Lex(fits, p.rest), acc + [Pair(key, p.v)]))
  {
  }

  ghost function AfterAttribute(fits: Range, t: LexResult, acc: seq<Pair>): Parsed {
    match t
    case LexError(e) => Err(e)
    case Lexed(EndObject, rest) => Ok(Object(acc), rest)
    case Lexed(ValueSep, rest) => ParsePairs(fits, rest, acc)
    case _ => Err(CommaExpected)
  }

  lemma EofLexed(fits: Range, s: seq<int>)
    requires s == []
    ensures Lex(fits, s) == Lexed(Eof, [])
  {
  }

  lemma MalformedLexed(fits: Range, s: seq<int>)
    requires s != [] && s[0] < 0
    ensures Lex(fits, s) == LexError(Malformed)
  {
  }

  lemma WhiteSkipped(fits: Range, s: seq<int>)
    requires IsWhite(Peek(s))
    ensures Lex(fits, s) == Lex(fits, s[1..])
  {
  }

  /** The scan of s has taken p and goes on with t. */
  ghost predicate Continues(s: seq<int>, p: seq<int>, t: seq<int>) {
    match ScanChars(t)
    case Failed(e) => ScanChars(s) == Failed(e)
    case Scanned(u, rest) => ScanChars(s) == Scanned(p + u, rest)
  }

  lemma ContinuesStep(s: seq<int>, p: seq<int>, t: seq<int>)
    requires Continues(s, p, t) && ScanChar(t).One? && Peek(t) != QUOTE
    ensures Continues(s, p + [ScanChar(t).c], ScanChar(t).rest)
  {
    hide ScanChar;
    var c, rest := ScanChar(t).c, ScanChar(t).rest;
    if ScanChars(rest).Scanned? {
      Assoc(p, [c], ScanChars(rest).text);
    }
  }

  lemma BadChar(t: seq<int>)
    requires !RawValid(Peek(t))
    ensures ScanChars(t) == Failed(ErrorAt(t, RawError(Peek(t))))
  {
  }

  lemma EscapedChar(t: seq<int>)
    requires Peek(t) == BACKSLASH
    ensures ScanChar(t) == ScanEscape(t[1..])
    ensures ScanEscape(t[1..]).Bad? ==> ScanChars(t) == Failed(ScanEscape(t[1..]).error)
  {
  }

  lemma RawChar(t: seq<int>)
    requires RawValid(Peek(t)) && Peek(t) != BACKSLASH
    ensures ScanChar(t) == One(t[0], t[1..])
  {
  }

  lemma PowerMalformed(s: seq<int>)
    requires s != [] && s[0] < 0
    ensures ScanPower(s) == Failed(Malformed)
  {
  }

  /** A malformed character after a complete part of a number. */
  lemma EndsMalformed(s: seq<int>)
    requires s != [] && s[0] < 0
    ensures ScanFraction(s) == ScanExponent(s) == Failed(Malformed)
  {
  }
}
