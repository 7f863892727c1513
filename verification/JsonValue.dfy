/**
 JSON trees: what the writer prints for a tree and what the reader makes of a text, and
 that the two undo each other.
 */
module JsonValue {
  import opened JsonText
  import opened JsonNumber

  datatype Json =
    | Null
    | Boolean(b: bool)
    | Number(text: seq<int>)
    | String(s: seq<int>)
    | Array(elements: seq<Json>)
    | Object(pairs: seq<Pair>)

  /** An attribute of an object. */
  datatype Pair = Pair(key: seq<int>, value: Json)

  // ----- writing -----

  const NULL_NAME := [0x6e, 0x75, 0x6c, 0x6c]
  const TRUE_NAME := [0x74, 0x72, 0x75, 0x65]
  const FALSE_NAME := [0x66, 0x61, 0x6c, 0x73, 0x65]
  const COMMA := 0x2c
  const COLON := 0x3a
  const OPEN_ARRAY := 0x5b
  const CLOSE_ARRAY := 0x5d
  const OPEN_OBJECT := 0x7b
  const CLOSE_OBJECT := 0x7d
  const NEWLINE := 0x0a
  const TAB := 0x09
  const BLANK := 0x20

  /** All strings and keys are C strings, all numbers are grammatical. */
  ghost predicate Printable(v: Json) {
    match v
    case Null => true
    case Boolean(_) => true
    case Number(t) => IsNumber(t)
    case String(s) => IsText(s)
    case Array(es) => forall i :: 0 <= i < |es| ==> Printable(es[i])
    case Object(ps) => forall i :: 0 <= i < |ps| ==> IsText(ps[i].key) && Printable(ps[i].value)
  }

  function Tabs(n: nat): seq<int> {
    if n == 0 then [] else [TAB] + Tabs(n - 1)
  }

  function Space(o: Options, n: nat): seq<int> {
    if o.indent then [NEWLINE] + Tabs(n) else [BLANK]
  }

  ghost function Print(o: Options, n: nat, v: Json): seq<int>
    requires Printable(v)
    decreases v, 0
  {
    match v
    case Null => NULL_NAME
    case Boolean(b) => if b then TRUE_NAME else FALSE_NAME
    case Number(t) => t
    case String(s) => PrintString(o, s)
    case Array(es) =>
      if es == [] then [OPEN_ARRAY, CLOSE_ARRAY]
      else [OPEN_ARRAY] + (PrintElements(o, n + 1, es) + (Space(o, n) + [CLOSE_ARRAY]))
    case Object(ps) =>
      if ps == [] then [OPEN_OBJECT, CLOSE_OBJECT]
      else [OPEN_OBJECT] + (PrintPairs(o, n + 1, ps) + (Space(o, n) + [CLOSE_OBJECT]))
  }

  ghost function PrintElements(o: Options, n: nat, es: seq<Json>): seq<int>
    requires es != [] && forall i :: 0 <= i < |es| ==> Printable(es[i])
    decreases es, 0
  {
    Space(o, n) + (Print(o, n, es[0]) + if |es| == 1 then [] else [COMMA] + PrintElements(o, n, es[1..]))
  }

  ghost function PrintPairs(o: Options, n: nat, ps: seq<Pair>): seq<int>
    requires ps != [] && forall i :: 0 <= i < |ps| ==> IsText(ps[i].key) && Printable(ps[i].value)
    decreases ps, 0
  {
    var rest := if |ps| == 1 then [] else [COMMA] + PrintPairs(o, n, ps[1..]);
    Space(o, n) + (PrintString(o, ps[0].key) + ([COLON, BLANK] + (Print(o, n, ps[0].value) + rest)))
  }

  // ----- reading tokens -----

  datatype Token =
    | Elementary(v: Json)
    | BeginArray | EndArray | BeginObject | EndObject | NameSep | ValueSep | Eof

  datatype LexResult = Lexed(token: Token, rest: seq<int>) | LexError(error: Error)

  predicate IsWhite(c: int) { c == 0x20 || c == 0x09 || c == 0x0a || c == 0x0d }
  predicate IsLower(c: int) { 0x61 <= c <= 0x7a }

  function SkipWhite(s: seq<int>): (r: seq<int>)
    ensures |r| <= |s| && !IsWhite(Peek(r))
  {
    if IsWhite(Peek(s)) then SkipWhite(s[1..]) else s
  }

  function Letters(s: seq<int>): (n: seq<int>)
    ensures |n| <= |s| && s[..|n|] == n
    ensures n != [] <==> IsLower(Peek(s))
  {
    if IsLower(Peek(s)) then [s[0]] + Letters(s[1..]) else []
  }

  lemma {:induction false} LettersOf(name: seq<int>, rest: seq<int>)
    requires forall i :: 0 <= i < |name| ==> IsLower(name[i])
    requires !IsLower(Peek(rest))
    ensures Letters(name + rest) == name && (name + rest)[|name|..] == rest
  {
    if name != [] {
      LettersOf(name[1..], rest);
      assert (name + rest)[1..] == name[1..] + rest;
      assert [name[0]] + name[1..] == name;
    } else {
      assert name + rest == rest;
    }
  }

  /** The name buffer holds 15 letters; a name that fills it is refused. */
  function LexName(s: seq<int>): LexResult {
    var name, rest := Letters(s), s[|Letters(s)|..];
    if rest != [] && rest[0] < 0 then LexError(Malformed)
    else if |name| >= 15 then LexError(InvalidName)
    else if name == NULL_NAME then Lexed(Elementary(Null), rest)
    else if name == FALSE_NAME then Lexed(Elementary(Boolean(false)), rest)
    else if name == TRUE_NAME then Lexed(Elementary(Boolean(true)), rest)
    else LexError(InvalidName)
  }

  function FromScan(r: Scan, number: bool): LexResult {
    match r
    case Failed(e) => LexError(e)
    case Scanned(t, rest) => Lexed(Elementary(if number then Number(t) else String(t)), rest)
  }

  /** A token at the start of s, which is not white space. */
  function LexToken(fits: Range, s: seq<int>): LexResult {
    var c := Peek(s);
    if s == [] then Lexed(Eof, [])
    else if c < 0 then LexError(Malformed)
    else if IsDigit(c) || c == MINUS then FromScan(Checked(fits, ScanNumber(s)), true)
    else if IsLower(c) then LexName(s)
    else if c == QUOTE then FromScan(ScanChars(s[1..]), false)
    else if c == OPEN_ARRAY then Lexed(BeginArray, s[1..])
    else if c == CLOSE_ARRAY then Lexed(EndArray, s[1..])
    else if c == OPEN_OBJECT then Lexed(BeginObject, s[1..])
    else if c == CLOSE_OBJECT then Lexed(EndObject, s[1..])
    else if c == COLON then Lexed(NameSep, s[1..])
    else if c == COMMA then Lexed(ValueSep, s[1..])
    else LexError(InvalidCharacter)
  }

  function Lex(fits: Range, s: seq<int>): LexResult {
    LexToken(fits, SkipWhite(s))
  }

  /** Every token but the end of input consumes something. */
  lemma LexConsumes(fits: Range, s: seq<int>)
    ensures Lex(fits, s).Lexed? && Lex(fits, s).token != Eof ==> |Lex(fits, s).rest| < |s|
    ensures Lex(fits, s).Lexed? && Lex(fits, s).token == Eof ==> SkipWhite(s) == []
  {
    var w := SkipWhite(s);
    if w != [] && (IsDigit(w[0]) || w[0] == MINUS) {
      ScannedIsNumber(w);
    }
  }

  // ----- reading values -----

  datatype Parsed = Ok(v: Json, rest: seq<int>) | End | Err(error: Error)

  function HasKey(ps: seq<Pair>, key: seq<int>): bool {
    exists i :: 0 <= i < |ps| && ps[i].key == key
  }

  /** The next value, or End at the end of input. */
  function ParseValue(fits: Range, s: seq<int>): (r: Parsed)
    ensures r.Ok? ==> |r.rest| < |s|
    decreases |s|, 0
  {
    LexConsumes(fits, s);
    match Lex(fits, s)
    case LexError(e) => Err(e)
    case Lexed(Eof, _) => End
    case Lexed(Elementary(v), rest) => Ok(v, rest)
    case Lexed(BeginArray, rest) =>
      LexConsumes(fits, rest);
      (match Lex(fits, rest)
       case LexError(e) => Err(e)
       case Lexed(EndArray, rest') => Ok(Array([]), rest')
       case _ => ParseElements(fits, rest, []))
    case Lexed(BeginObject, rest) =>
      LexConsumes(fits, rest);
      (match Lex(fits, rest)
       case LexError(e) => Err(e)
       case Lexed(EndObject, rest') => Ok(Object([]), rest')
       case _ => ParsePairs(fits, rest, []))
    case _ => Err(Misplaced)
  }

  function ParseElements(fits: Range, s: seq<int>, acc: seq<Json>): (r: Parsed)
    ensures r.Ok? ==> |r.rest| < |s|
    ensures !r.End?
    decreases |s|, 1
  {
    match ParseValue(fits, s)
    case End => Err(UnterminatedArray)
    case Err(e) => Err(e)
    case Ok(v, rest) =>
      LexConsumes(fits, rest);
      match Lex(fits, rest)
      case LexError(e) => Err(e)
      case Lexed(EndArray, rest') => Ok(Array(acc + [v]), rest')
      case Lexed(ValueSep, rest') => ParseElements(fits, rest', acc + [v])
      case _ => Err(CommaExpected)
  }

  function ParsePairs(fits: Range, s: seq<int>, acc: seq<Pair>): (r: Parsed)
    ensures r.Ok? ==> |r.rest| < |s|
    ensures !r.End?
    decreases |s|, 1
  {
    match ParseValue(fits, s)
    case End => Err(UnterminatedObject)
    case Err(e) => Err(e)
    case Ok(k, rest) =>
      if !k.String? then Err(KeyNotString)
      else
        LexConsumes(fits, rest);
        match Lex(fits, rest)
        case LexError(e) => Err(e)
        case Lexed(NameSep, afterColon) => ParsePairValue(fits, afterColon, acc, k.s)
        case _ => Err(ColonExpected)
  }

  /** The value of an attribute and what follows it. */
  function ParsePairValue(fits: Range, s: seq<int>, acc: seq<Pair>, key: seq<int>): (r: Parsed)
    ensures r.Ok? ==> |r.rest| < |s|
    ensures !r.End?
    decreases |s|, 2
  {
    match ParseValue(fits, s)
    case End => Err(UnterminatedObject)
    case Err(e) => Err(e)
    case Ok(v, rest) =>
      if HasKey(acc, key) then Err(KeyAlreadySet)
      else
        LexConsumes(fits, rest);
        match Lex(fits, rest)
        case LexError(e) => Err(e)
        case Lexed(EndObject, rest') => Ok(Object(acc + [Pair(key, v)]), rest')
        case Lexed(ValueSep, rest') => ParsePairs(fits, rest', acc + [Pair(key, v)])
        case _ => Err(CommaExpected)
  }

  /** A whole file. */
  function Parse(fits: Range, s: seq<int>): Parsed {
    match ParseValue(fits, s)
    case End => Err(EmptyInput)
    case Err(e) => Err(e)
    case Ok(v, rest) =>
      match Lex(fits, rest)
      case LexError(e) => Err(e)
      case Lexed(Eof, _) => Ok(v, [])
      case _ => Err(TrailingValue)
  }
}
