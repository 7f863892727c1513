/**
 The syntax of whole JSON texts (sections 2 to 5 of RFC 7159): values with white space around every
 token. The reader accepts exactly the texts with this syntax in which strings are allowed, numbers
 are in range and the keys of each object differ, and it returns what they mean.
 */
module JsonSyntax {
  import opened Basics
  import opened JsonText
  import opened JsonNumber
  import opened JsonValue
  import opened JsonRoundTrip
  import opened JsonGrammar

  datatype Syntax =
    | SNull
    | SBoolean(b: bool)
    | SNumber(n: Numeral)
    | SString(chars: seq<Spelling>)
    | SArray(space: seq<int>, items: seq<Item>)
    | SObject(space: seq<int>, members: seq<Member>)

  /** An element of an array with the white space around it. */
  datatype Item = Item(before: seq<int>, value: Syntax, after: seq<int>)

  /** A member of an object; there may also be white space around the colon. */
  datatype Member = Member(before: seq<int>, key: seq<Spelling>, middle: seq<int>, next: seq<int>, value: Syntax,
                           after: seq<int>)

  function Codes(s: string): seq<int> {
    seq(|s|, i requires 0 <= i < |s| => s[i] as int)
  }

  predicate IsSpaceChar(c: int) {
    c == Code(' ') || c == Code('\t') || c == Code('\n') || c == Code('\r')
  }

  predicate IsSpace(w: seq<int>) {
    forall i :: 0 <= i < |w| ==> IsSpaceChar(w[i])
  }

  // ----- the texts -----

  function Text(v: Syntax): seq<int>
    decreases v, 0
  {
    match v
    case SNull => Codes("null")
    case SBoolean(b) => if b then Codes("true") else Codes("false")
    case SNumber(n) => n.Text()
    case SString(ps) => Quoted(ps)
    case SArray(w, items) => [Code('[')] + ((if items == [] then w else ItemsText(items)) + [Code(']')])
    case SObject(w, members) => [Code('{')] + ((if members == [] then w else MembersText(members)) + [Code('}')])
  }

  function Quoted(ps: seq<Spelling>): seq<int> {
    [Code('"')] + (CharsText(ps) + [Code('"')])
  }

  function ItemText(i: Item): seq<int>
    decreases i, 1
  {
    i.before + (Text(i.value) + i.after)
  }

  function ItemsText(items: seq<Item>): seq<int>
    requires items != []
    decreases items, 2
  {
    ItemText(items[0]) + if |items| == 1 then [] else [Code(',')] + ItemsText(items[1..])
  }

  function MemberText(m: Member): seq<int>
    decreases m, 1
  {
    m.before + (Quoted(m.key) + (m.middle + ([Code(':')] + (m.next + (Text(m.value) + m.after)))))
  }

  function MembersText(members: seq<Member>): seq<int>
    requires members != []
    decreases members, 2
  {
    MemberText(members[0]) + if |members| == 1 then [] else [Code(',')] + MembersText(members[1..])
  }

  // ----- what they mean -----

  function ValueOf(v: Syntax): Json
    decreases v, 0
  {
    match v
    case SNull => Null
    case SBoolean(b) => Boolean(b)
    case SNumber(n) => Number(n.Text())
    case SString(ps) => String(CharsValue(ps))
    case SArray(_, items) => Array(ItemsValue(items))
    case SObject(_, members) => Object(MembersValue(members))
  }

  function ItemsValue(items: seq<Item>): seq<Json>
    decreases items, 1
  {
    if items == [] then [] else [ValueOf(items[0].value)] + ItemsValue(items[1..])
  }

  function MembersValue(members: seq<Member>): seq<Pair>
    decreases members, 1
  {
    if members == [] then []
    else [JsonValue.Pair(CharsValue(members[0].key), ValueOf(members[0].value))] + MembersValue(members[1..])
  }

  // ----- which of them are accepted -----

  ghost predicate Good(fits: Range, v: Syntax)
    decreases v, 0
  {
    match v
    case SNull => true
    case SBoolean(_) => true
    case SNumber(n) => n.Valid() && fits(n.Text())
    case SString(ps) => AllowedChars(ps)
    case SArray(w, items) => IsSpace(w) && GoodItems(fits, items)
    case SObject(w, members) => IsSpace(w) && GoodMembers(fits, members) && DistinctKeys(MembersValue(members))
  }

  ghost predicate GoodItem(fits: Range, i: Item)
    decreases i, 1
  {
    IsSpace(i.before) && Good(fits, i.value) && IsSpace(i.after)
  }

  ghost predicate GoodItems(fits: Range, items: seq<Item>)
    decreases items, 2
  {
    forall i :: 0 <= i < |items| ==> GoodItem(fits, items[i])
  }

  ghost predicate GoodMember(fits: Range, m: Member)
    decreases m, 1
  {
    && IsSpace(m.before) && AllowedChars(m.key) && IsSpace(m.middle) && IsSpace(m.next)
    && Good(fits, m.value) && IsSpace(m.after)
  }

  ghost predicate GoodMembers(fits: Range, members: seq<Member>)
    decreases members, 2
  {
    forall i :: 0 <= i < |members| ==> GoodMember(fits, members[i])
  }

  ghost predicate DistinctKeys(ps: seq<JsonValue.Pair>) {
    forall i, j :: 0 <= i < j < |ps| ==> ps[i].key != ps[j].key
  }

  // ----- tokens -----

  lemma {:induction false} SpaceSkipped(w: seq<int>, s: seq<int>)
    requires IsSpace(w)
    ensures SkipWhite(w + s) == SkipWhite(s)
  {
    if w == [] {
      assert w + s == s;
    } else {
      SpaceSkipped(w[1..], s);
      assert (w + s)[1..] == w[1..] + s;
    }
  }

  lemma LexSkips(fits: Range, w: seq<int>, s: seq<int>)
    requires IsSpace(w)
    ensures Lex(fits, w + s) == Lex(fits, s)
  {
    hide LexToken, SkipWhite;
    SpaceSkipped(w, s);
  }

  lemma {:induction false} SpaceIs(s: seq<int>) returns (w: seq<int>)
    ensures IsSpace(w) && s == w + SkipWhite(s)
  {
    if IsWhite(Peek(s)) {
      w := SpaceIs(s[1..]);
      w := [s[0]] + w;
    } else {
      w := [];
    }
  }

  /** The character of a token of punctuation. */
  function Punctuation(t: Token): int
    requires !t.Elementary? && t != Eof
  {
    match t
    case BeginArray => Code('[')
    case EndArray => Code(']')
    case BeginObject => Code('{')
    case EndObject => Code('}')
    case NameSep => Code(':')
    case ValueSep => Code(',')
  }

  lemma PunctuationRead(fits: Range, t: Token, w: seq<int>, s: seq<int>)
    requires !t.Elementary? && t != Eof && IsSpace(w)
    ensures Lex(fits, w + ([Punctuation(t)] + s)) == Lexed(t, s)
  {
    LexSkips(fits, w, [Punctuation(t)] + s);
    LexPunctuation(fits, Punctuation(t), s);
    hide Lex;
    OtherPunctuation(fits, t, s);
  }

  lemma OtherPunctuation(fits: Range, t: Token, s: seq<int>)
    requires !t.Elementary? && t != Eof
    ensures Lex(fits, [Punctuation(t)] + s) == Lexed(t, s)
  {
    assert ([Punctuation(t)] + s)[1..] == s;
  }

  lemma PunctuationIs(fits: Range, s: seq<int>, t: Token, rest: seq<int>) returns (w: seq<int>)
    requires Lex(fits, s) == Lexed(t, rest) && !t.Elementary? && t != Eof
    ensures IsSpace(w) && s == w + ([Punctuation(t)] + rest)
  {
    w := SpaceIs(s);
    hide SkipWhite, ScanNumber, ScanChars;
    var u := SkipWhite(s);
    assert u == [u[0]] + u[1..];
  }

  lemma EofIs(fits: Range, s: seq<int>, rest: seq<int>)
    ensures Lex(fits, s) == Lexed(Eof, []) <==> IsSpace(s)
    ensures Lex(fits, s) == Lexed(Eof, rest) ==> IsSpace(s)
  {
    var w := SpaceIs(s);
    hide SkipWhite, LexToken;
    EofToken(fits, SkipWhite(s), rest);
    EofToken(fits, SkipWhite(s), []);
    if IsSpace(s) {
      SpaceSkipped(s, []);
      NothingToSkip();
      assert s + [] == s;
    }
    if SkipWhite(s) == [] {
      assert w + [] == w;
    }
  }

  lemma NothingToSkip()
    ensures SkipWhite([]) == []
  {
  }

  lemma EofToken(fits: Range, s: seq<int>, rest: seq<int>)
    ensures LexToken(fits, s) == Lexed(Eof, rest) ==> s == []
    ensures s == [] ==> LexToken(fits, s) == Lexed(Eof, [])
  {
    hide ScanNumber, ScanChars, LexName;
    NoEof(s);
  }

  lemma NoEof(s: seq<int>)
    ensures LexName(s).Lexed? ==> LexName(s).token != Eof
  {
    hide Letters;
  }

  /** A character that may follow a value. */
  predicate Ends(rest: seq<int>) {
    rest == [] || IsSpaceChar(rest[0]) || rest[0] == Code(',') || rest[0] == Code(']') || rest[0] == Code('}')
  }

  lemma SpaceEnds(w: seq<int>, rest: seq<int>)
    requires IsSpace(w) && Ends(rest)
    ensures Ends(w + rest)
  {
    if w == [] {
      assert w + rest == rest;
    }
  }

  /** Values without parts. */
  predicate Simple(v: Syntax) {
    !v.SArray? && !v.SObject?
  }

  lemma SimpleRead(fits: Range, v: Syntax, rest: seq<int>)
    requires Simple(v) && Good(fits, v) && Ends(rest)
    ensures Lex(fits, Text(v) + rest) == Lexed(Elementary(ValueOf(v)), rest)
  {
    match v
    case SNull => NameRead(fits, NULL_NAME, "null", rest);
    case SBoolean(b) =>
      if b {
        NameRead(fits, TRUE_NAME, "true", rest);
      } else {
        NameRead(fits, FALSE_NAME, "false", rest);
      }
    case SNumber(n) => NumberRead(fits, n, rest);
    case SString(ps) => StringRead(fits, ps, rest);
  }

  lemma NameRead(fits: Range, name: seq<int>, s: string, rest: seq<int>)
    requires
      || (name == NULL_NAME && s == "null")
      || (name == TRUE_NAME && s == "true")
      || (name == FALSE_NAME && s == "false")
    requires Ends(rest)
    ensures Codes(s) == name
    ensures name == NULL_NAME ==> Lex(fits, name + rest) == Lexed(Elementary(Null), rest)
    ensures name == TRUE_NAME ==> Lex(fits, name + rest) == Lexed(Elementary(Boolean(true)), rest)
    ensures name == FALSE_NAME ==> Lex(fits, name + rest) == Lexed(Elementary(Boolean(false)), rest)
  {
    LettersOf(name, rest);
    assert name[0] == 0x6e || name[0] == 0x74 || name[0] == 0x66;
    hide Letters, ScanNumber, ScanChars;
    assert (name + rest)[0] == name[0];
  }

  lemma NumberRead(fits: Range, n: Numeral, rest: seq<int>)
    requires n.Valid() && fits(n.Text()) && Ends(rest)
    ensures Lex(fits, n.Text() + rest) == Lexed(Elementary(Number(n.Text())), rest)
  {
    NumberScanned(n, rest);
    assert IsDigit(n.whole[0]);
    assert Peek(n.Text() + rest) == MINUS || IsDigit(Peek(n.Text() + rest));
    hide ScanNumber;
  }

  lemma StringRead(fits: Range, ps: seq<Spelling>, rest: seq<int>)
    requires AllowedChars(ps)
    ensures Lex(fits, Quoted(ps) + rest) == Lexed(Elementary(String(CharsValue(ps))), rest)
  {
    CharsSpelled(ps, rest);
    hide ScanChars, CharsText, CharsValue, ScanNumber;
    var t := CharsText(ps) + ([QUOTE] + rest);
    assert Quoted(ps) + rest == [QUOTE] + t;
    assert ([QUOTE] + t)[1..] == t;
  }

  lemma SimpleIs(fits: Range, s: seq<int>) returns (w: seq<int>, v: Syntax)
    requires Lex(fits, s).Lexed? && Lex(fits, s).token.Elementary?
    ensures var r := Lex(fits, s);
            && Simple(v) && Good(fits, v) && IsSpace(w)
            && s == w + (Text(v) + r.rest) && ValueOf(v) == r.token.v
  {
    w := SpaceIs(s);
    hide SkipWhite;
    v := TokenIs(fits, SkipWhite(s));
  }

  lemma TokenIs(fits: Range, s: seq<int>) returns (v: Syntax)
    requires LexToken(fits, s).Lexed? && LexToken(fits, s).token.Elementary?
    ensures var r := LexToken(fits, s);
            Simple(v) && Good(fits, v) && s == Text(v) + r.rest && ValueOf(v) == r.token.v
  {
    if IsDigit(s[0]) || s[0] == MINUS {
      v := NumberIs(fits, s);
    } else if s[0] == QUOTE {
      v := StringIs(fits, s);
    } else {
      v := NameIs(fits, s);
    }
  }

  lemma NumberIs(fits: Range, s: seq<int>) returns (v: Syntax)
    requires LexToken(fits, s).Lexed? && s != [] && (IsDigit(s[0]) || s[0] == MINUS)
    ensures var r := LexToken(fits, s);
            && v.SNumber? && Good(fits, v) && s == Text(v) + r.rest && r.token.Elementary?
            && ValueOf(v) == r.token.v
  {
    ScannedIsNumber(s);
    hide ScanNumber;
    var n: Numeral :| n.Valid() && n.Text() == ScanNumber(s).text;
    v := SNumber(n);
  }

  lemma StringIs(fits: Range, s: seq<int>) returns (v: Syntax)
    requires LexToken(fits, s).Lexed? && s != [] && s[0] == QUOTE
    ensures var r := LexToken(fits, s);
            && v.SString? && Good(fits, v) && s == Text(v) + r.rest && r.token.Elementary?
            && ValueOf(v) == r.token.v
  {
    var ps := CharsAre(s[1..]);
    hide ScanChars, CharsText, CharsValue;
    v := SString(ps);
    assert s == [QUOTE] + s[1..];
  }

  lemma NameIs(fits: Range, s: seq<int>) returns (v: Syntax)
    requires LexToken(fits, s).Lexed? && LexToken(fits, s).token.Elementary?
    requires s != [] && s[0] != QUOTE && s[0] != MINUS && !IsDigit(s[0])
    ensures var r := LexToken(fits, s);
            && (v.SNull? || v.SBoolean?) && s == Text(v) + r.rest && ValueOf(v) == r.token.v
  {
    hide Letters;
    var name := Letters(s);
    assert s == name + s[|name|..];
    v := if name == NULL_NAME then SNull else SBoolean(name == TRUE_NAME);
    assert Codes("null") == NULL_NAME && Codes("true") == TRUE_NAME && Codes("false") == FALSE_NAME;
  }

  // ----- texts of the syntax are read -----

  lemma SimpleValue(fits: Range, s: seq<int>)
    requires Lex(fits, s).Lexed?
    ensures Lex(fits, s).token.Elementary? ==> ParseValue(fits, s) == Ok(Lex(fits, s).token.v, Lex(fits, s).rest)
    ensures Lex(fits, s).token == Eof ==> ParseValue(fits, s) == End
  {
    hide Lex;
  }

  /** A value with white space before it. */
  lemma ValueSkips(fits: Range, w: seq<int>, s: seq<int>)
    requires IsSpace(w)
    ensures ParseValue(fits, w + s) == ParseValue(fits, s)
  {
    LexSkips(fits, w, s);
    hide Lex;
  }

  lemma {:induction false} ValueRead(fits: Range, v: Syntax, rest: seq<int>)
    requires Good(fits, v) && Ends(rest)
    ensures ParseValue(fits, Text(v) + rest) == Ok(ValueOf(v), rest)
    decreases v, 1
  {
    hide Lex, ParseValue;
    match v
    case SArray(w, items) => ArrayRead(fits, v, rest);
    case SObject(w, members) => ObjectRead(fits, v, rest);
    case _ =>
      SimpleRead(fits, v, rest);
      SimpleValue(fits, Text(v) + rest);
  }

  lemma {:induction false} ArrayRead(fits: Range, v: Syntax, rest: seq<int>)
    requires v.SArray? && Good(fits, v)
    ensures ParseValue(fits, Text(v) + rest) == Ok(ValueOf(v), rest)
    decreases v, 0
  {
    hide Lex, ParseValue, ParseElements, ItemsText, ItemsValue;
    var inner := if v.items == [] then v.space else ItemsText(v.items);
    assert Text(v) + rest == [Code('[')] + (inner + ([Code(']')] + rest));
    if v.items == [] {
      PunctuationRead(fits, EndArray, v.space, rest);
      EmptyArray(fits, v.space + ([Code(']')] + rest), rest);
      assert ItemsValue([]) == [] by { NoValues(); }
    } else {
      ItemsRead(fits, v.items, [], rest);
      OpenArray(fits, inner + ([Code(']')] + rest));
      assert [] + ItemsValue(v.items) == ItemsValue(v.items);
    }
  }

  lemma NoValues()
    ensures ItemsValue([]) == [] && MembersValue([]) == []
  {
  }

  lemma EmptyArray(fits: Range, s: seq<int>, rest: seq<int>)
    requires Lex(fits, s) == Lexed(EndArray, rest)
    ensures ParseValue(fits, [Code('[')] + s) == Ok(Array([]), rest)
  {
    OtherPunctuation(fits, BeginArray, s);
    hide Lex;
  }

  lemma EmptyObject(fits: Range, s: seq<int>, rest: seq<int>)
    requires Lex(fits, s) == Lexed(EndObject, rest)
    ensures ParseValue(fits, [Code('{')] + s) == Ok(Object([]), rest)
  {
    OtherPunctuation(fits, BeginObject, s);
    hide Lex;
  }

  /** Where elements can be read, the array is not at its end. */
  lemma OpenArray(fits: Range, s: seq<int>)
    requires ParseElements(fits, s, []).Ok?
    ensures ParseValue(fits, [Code('[')] + s) == ParseElements(fits, s, [])
  {
    OpenStep(fits, s);
    hide Lex;
  }

  lemma OpenObject(fits: Range, s: seq<int>)
    requires ParsePairs(fits, s, []).Ok?
    ensures ParseValue(fits, [Code('{')] + s) == ParsePairs(fits, s, [])
  {
    OpenStep(fits, s);
    hide Lex;
  }

  lemma {:induction false} ItemsRead(fits: Range, items: seq<Item>, acc: seq<Json>, rest: seq<int>)
    requires items != [] && GoodItems(fits, items)
    ensures
      ParseElements(fits, ItemsText(items) + ([Code(']')] + rest), acc) == Ok(Array(acc + ItemsValue(items)), rest)
    decreases items, 1
  {
    hide Lex, ParseValue, ParseElements, Text, ValueOf, Good;
    var i := items[0];
    assert GoodItem(fits, i);
    if |items| == 1 {
      var tail := [Code(']')] + rest;
      ItemRead(fits, i, tail);
      PunctuationRead(fits, EndArray, i.after, rest);
      ElementsStep(fits, ItemsText(items) + tail, acc, rest);
      assert ItemsText(items) == ItemText(i) by { assert ItemText(i) + [] == ItemText(i); }
      assert ItemsValue(items) == [ValueOf(i.value)];
    } else {
      var more := ItemsText(items[1..]) + ([Code(']')] + rest);
      var tail := [Code(',')] + more;
      ItemRead(fits, i, tail);
      PunctuationRead(fits, ValueSep, i.after, more);
      ItemsUnfold(items, [Code(']')] + rest);
      ElementsStep(fits, ItemText(i) + tail, acc, more);
      ItemsRead(fits, items[1..], acc + [ValueOf(i.value)], rest);
      Assoc(acc, [ValueOf(i.value)], ItemsValue(items[1..]));
    }
  }

  lemma ItemsUnfold(items: seq<Item>, tail: seq<int>)
    requires |items| > 1
    ensures ItemsText(items) + tail == ItemText(items[0]) + ([Code(',')] + (ItemsText(items[1..]) + tail))
  {
    hide ItemText;
    Assoc(ItemText(items[0]), [Code(',')] + ItemsText(items[1..]), tail);
    Assoc([Code(',')], ItemsText(items[1..]), tail);
  }

  /** An element is read up to the white space after it. */
  lemma {:induction false} ItemRead(fits: Range, i: Item, tail: seq<int>)
    requires GoodItem(fits, i) && Ends(tail)
    ensures ParseValue(fits, ItemText(i) + tail) == Ok(ValueOf(i.value), i.after + tail)
    decreases i, 1
  {
    hide ParseValue, Text, ValueOf, Good;
    SpaceEnds(i.after, tail);
    ValueRead(fits, i.value, i.after + tail);
    ValueSkips(fits, i.before, Text(i.value) + (i.after + tail));
    assert ItemText(i) + tail == i.before + (Text(i.value) + (i.after + tail));
  }

  lemma {:induction false} ObjectRead(fits: Range, v: Syntax, rest: seq<int>)
    requires v.SObject? && Good(fits, v)
    ensures ParseValue(fits, Text(v) + rest) == Ok(ValueOf(v), rest)
    decreases v, 0
  {
    hide Lex, ParseValue, ParsePairs, MembersText, MembersValue;
    var inner := if v.members == [] then v.space else MembersText(v.members);
    assert Text(v) + rest == [Code('{')] + (inner + ([Code('}')] + rest));
    if v.members == [] {
      PunctuationRead(fits, EndObject, v.space, rest);
      EmptyObject(fits, v.space + ([Code('}')] + rest), rest);
      assert MembersValue([]) == [] by { NoValues(); }
    } else {
      assert [] + MembersValue(v.members) == MembersValue(v.members);
      MembersRead(fits, v.members, [], rest);
      OpenObject(fits, inner + ([Code('}')] + rest));
    }
  }

  lemma {:induction false} MembersRead(fits: Range, members: seq<Member>, acc: seq<JsonValue.Pair>, rest: seq<int>)
    requires members != [] && GoodMembers(fits, members) && DistinctKeys(acc + MembersValue(members))
    ensures ParsePairs(fits, MembersText(members) + ([Code('}')] + rest), acc) ==
            Ok(Object(acc + MembersValue(members)), rest)
    decreases members, 1
  {
    hide Lex, ParseValue, ParsePairs, ParsePairValue, Text, ValueOf, Good;
    var m := members[0];
    assert GoodMember(fits, m);
    var p := JsonValue.Pair(CharsValue(m.key), ValueOf(m.value));
    NewKey(acc, p, MembersValue(members[1..]));
    if |members| == 1 {
      var tail := [Code('}')] + rest;
      assert MembersText(members) == MemberText(m) by { assert MemberText(m) + [] == MemberText(m); }
      MemberRead(fits, m, acc, tail);
      PunctuationRead(fits, EndObject, m.after, rest);
      PairValueStep(fits, ValuePart(m, tail), acc, p.key, rest);
      assert MembersValue(members) == [p];
    } else {
      var more := MembersText(members[1..]) + ([Code('}')] + rest);
      var tail := [Code(',')] + more;
      MembersUnfold(members, [Code('}')] + rest);
      MemberRead(fits, m, acc, tail);
      PunctuationRead(fits, ValueSep, m.after, more);
      PairValueStep(fits, ValuePart(m, tail), acc, p.key, more);
      Assoc(acc, [p], MembersValue(members[1..]));
      MembersRead(fits, members[1..], acc + [p], rest);
    }
  }

  lemma NewKey(acc: seq<JsonValue.Pair>, p: JsonValue.Pair, more: seq<JsonValue.Pair>)
    requires DistinctKeys(acc + ([p] + more))
    ensures !HasKey(acc, p.key)
  {
    var all := acc + ([p] + more);
    assert all[|acc|] == p;
    forall i | 0 <= i < |acc| ensures acc[i].key != p.key {
      assert all[i] == acc[i];
    }
  }

  lemma MembersUnfold(members: seq<Member>, tail: seq<int>)
    requires |members| > 1
    ensures MembersText(members) + tail == MemberText(members[0]) + ([Code(',')] + (MembersText(members[1..]) + tail))
  {
    hide MemberText;
    Assoc(MemberText(members[0]), [Code(',')] + MembersText(members[1..]), tail);
    Assoc([Code(',')], MembersText(members[1..]), tail);
  }

  /** What follows the colon of a member. */
  function ValuePart(m: Member, tail: seq<int>): seq<int> {
    m.next + (Text(m.value) + (m.after + tail))
  }

  /** The key of a member is read, and then its value up to the white space after it. */
  lemma {:induction false} MemberRead(fits: Range, m: Member, acc: seq<JsonValue.Pair>, tail: seq<int>)
    requires GoodMember(fits, m) && Ends(tail)
    ensures ParsePairs(fits, MemberText(m) + tail, acc) ==
            ParsePairValue(fits, ValuePart(m, tail), acc, CharsValue(m.key))
    ensures ParseValue(fits, ValuePart(m, tail)) == Ok(ValueOf(m.value), m.after + tail)
    decreases m, 1
  {
    hide Lex, ParseValue, ParsePairs, ParsePairValue, Text, ValueOf, Good, Quoted, CharsValue;
    SpaceEnds(m.after, tail);
    ValueRead(fits, m.value, m.after + tail);
    ValueSkips(fits, m.next, Text(m.value) + (m.after + tail));
    var colon := m.middle + ([Code(':')] + ValuePart(m, tail));
    MemberParts(m, tail);
    ValueSkips(fits, m.before, Quoted(m.key) + colon);
    StringRead(fits, m.key, colon);
    SimpleValue(fits, Quoted(m.key) + colon);
    PunctuationRead(fits, NameSep, m.middle, ValuePart(m, tail));
    PairsStep(fits, MemberText(m) + tail, acc, ValuePart(m, tail));
  }

  lemma MemberParts(m: Member, tail: seq<int>)
    ensures MemberText(m) + tail == m.before + (Quoted(m.key) + (m.middle + ([Code(':')] + ValuePart(m, tail))))
  {
    hide Text, Quoted;
    var a, b := Text(m.value), [Code(':')];
    assert m.next + (a + m.after) + tail == ValuePart(m, tail);
    Assoc(b, m.next + (a + m.after), tail);
    Assoc(m.middle, b + (m.next + (a + m.after)), tail);
    Assoc(Quoted(m.key), m.middle + (b + (m.next + (a + m.after))), tail);
    Assoc(m.before, Quoted(m.key) + (m.middle + (b + (m.next + (a + m.after)))), tail);
  }

  // ----- what is read has the syntax -----

  lemma {:induction false} ValueIs(fits: Range, s: seq<int>) returns (w: seq<int>, v: Syntax)
    requires ParseValue(fits, s).Ok?
    ensures var r := ParseValue(fits, s);
            IsSpace(w) && Good(fits, v) && s == w + (Text(v) + r.rest) && ValueOf(v) == r.v
    decreases |s|, 0
  {
    hide Lex, ParseElements, ParsePairs;
    LexConsumes(fits, s);
    var t := Lex(fits, s);
    if t.token.Elementary? {
      hide Text, ValueOf, Good;
      w, v := SimpleIs(fits, s);
    } else if t.token == BeginArray {
      w := PunctuationIs(fits, s, BeginArray, t.rest);
      v := ArrayIs(fits, t.rest, ParseValue(fits, s));
      hide Text, ValueOf, Good;
    } else {
      w := PunctuationIs(fits, s, BeginObject, t.rest);
      v := ObjectIs(fits, t.rest, ParseValue(fits, s));
      hide Text, ValueOf, Good;
    }
  }

  lemma {:induction false} ArrayIs(fits: Range, s: seq<int>, r: Parsed) returns (v: Syntax)
    requires r.Ok? && Lex(fits, s).Lexed?
    requires if Lex(fits, s).token == EndArray then r == Ok(Array([]), Lex(fits, s).rest)
             else r == ParseElements(fits, s, [])
    ensures Good(fits, v) && [Code('[')] + s == Text(v) + r.rest && ValueOf(v) == r.v
    decreases |s|, 2
  {
    hide Lex, ParseElements, ItemsText, ItemsValue;
    if Lex(fits, s).token == EndArray {
      var w := PunctuationIs(fits, s, EndArray, r.rest);
      v := SArray(w, []);
      NoValues();
    } else {
      var items := ItemsAre(fits, s, []);
      v := SArray([], items);
      assert [] + ItemsValue(items) == ItemsValue(items);
      assert [Code('[')] + (ItemsText(items) + ([Code(']')] + r.rest)) == Text(v) + r.rest;
    }
  }

  lemma {:induction false} ItemsAre(fits: Range, s: seq<int>, acc: seq<Json>) returns (items: seq<Item>)
    requires ParseElements(fits, s, acc).Ok?
    ensures var r := ParseElements(fits, s, acc);
            && items != [] && GoodItems(fits, items) && s == ItemsText(items) + ([Code(']')] + r.rest)
            && r.v == Array(acc + ItemsValue(items))
    decreases |s|, 1
  {
    hide Lex, ParseValue, Text, ValueOf, Good;
    var p := ParseValue(fits, s);
    var w, v := ValueIs(fits, s);
    LexConsumes(fits, p.rest);
    var t := Lex(fits, p.rest);
    var after := PunctuationIs(fits, p.rest, t.token, t.rest);
    var i := Item(w, v, after);
    hide ParseElements;
    ItemsStep(fits, s, acc, i, p, t);
    if t.token == EndArray {
      items := [i];
      assert ItemsText(items) == ItemText(i) by { assert ItemText(i) + [] == ItemText(i); }
      assert ItemsValue(items) == [ValueOf(v)];
    } else {
      var more := ItemsAre(fits, t.rest, acc + [ValueOf(v)]);
      items := [i] + more;
      assert items[1..] == more;
      ItemsUnfold(items, [Code(']')] + ParseElements(fits, s, acc).rest);
      Assoc(acc, [ValueOf(v)], ItemsValue(more));
    }
  }

  lemma ItemsStep(fits: Range, s: seq<int>, acc: seq<Json>, i: Item, p: Parsed, t: LexResult)
    requires p == ParseValue(fits, s) && p.Ok? && t == Lex(fits, p.rest) && ParseElements(fits, s, acc).Ok?
    requires t.Lexed? && !t.token.Elementary? && t.token != Eof && p.v == ValueOf(i.value)
    requires s == i.before + (Text(i.value) + p.rest) && p.rest == i.after + ([Punctuation(t.token)] + t.rest)
    ensures s == ItemText(i) + ([Punctuation(t.token)] + t.rest)
    ensures t.token == EndArray || t.token == ValueSep
    ensures t.token == EndArray ==> ParseElements(fits, s, acc) == Ok(Array(acc + [ValueOf(i.value)]), t.rest)
    ensures t.token == ValueSep ==> ParseElements(fits, s, acc) == ParseElements(fits, t.rest, acc + [ValueOf(i.value)])
  {
    hide Lex, ParseValue, Text, ValueOf;
    var tail := [Punctuation(t.token)] + t.rest;
    Assoc(i.before, Text(i.value) + i.after, tail);
    Assoc(Text(i.value), i.after, tail);
  }

  lemma {:induction false} ObjectIs(fits: Range, s: seq<int>, r: Parsed) returns (v: Syntax)
    requires r.Ok? && Lex(fits, s).Lexed?
    requires if Lex(fits, s).token == EndObject then r == Ok(Object([]), Lex(fits, s).rest)
             else r == ParsePairs(fits, s, [])
    ensures Good(fits, v) && [Code('{')] + s == Text(v) + r.rest && ValueOf(v) == r.v
    decreases |s|, 4
  {
    hide Lex, ParsePairs, MembersText, MembersValue;
    if Lex(fits, s).token == EndObject {
      var w := PunctuationIs(fits, s, EndObject, r.rest);
      v := SObject(w, []);
      NoValues();
    } else {
      var members := MembersAre(fits, s, []);
      v := SObject([], members);
      assert [] + MembersValue(members) == MembersValue(members);
      assert [Code('{')] + (MembersText(members) + ([Code('}')] + r.rest)) == Text(v) + r.rest;
    }
  }

  lemma {:induction false} MembersAre(fits: Range, s: seq<int>, acc: seq<JsonValue.Pair>) returns (members: seq<Member>)
    requires ParsePairs(fits, s, acc).Ok? && DistinctKeys(acc)
    ensures var r := ParsePairs(fits, s, acc);
            && members != [] && GoodMembers(fits, members) && s == MembersText(members) + ([Code('}')] + r.rest)
            && r.v == Object(acc + MembersValue(members)) && DistinctKeys(acc + MembersValue(members))
    decreases |s|, 3
  {
    hide Lex, ParseValue, Text, ValueOf, Good, ParsePairValue, MemberText;
    var m, t := MemberIs(fits, s, acc);
    hide ParsePairs;
    var p := JsonValue.Pair(CharsValue(m.key), ValueOf(m.value));
    MoreKeys(acc, p);
    if t.token == EndObject {
      members := [m];
      assert MembersText(members) == MemberText(m) by { assert MemberText(m) + [] == MemberText(m); }
      assert MembersValue(members) == [p];
    } else {
      var more := MembersAre(fits, t.rest, acc + [p]);
      members := [m] + more;
      assert members[1..] == more;
      MembersUnfold(members, [Code('}')] + ParsePairs(fits, s, acc).rest);
      Assoc(acc, [p], MembersValue(more));
    }
  }

  lemma MoreKeys(acc: seq<JsonValue.Pair>, p: JsonValue.Pair)
    requires DistinctKeys(acc) && !HasKey(acc, p.key)
    ensures DistinctKeys(acc + [p])
  {
  }

  /** The first member and the token behind it. */
  lemma {:induction false} MemberIs(fits: Range, s: seq<int>, acc: seq<JsonValue.Pair>)
    returns (m: Member, t: LexResult)
    requires ParsePairs(fits, s, acc).Ok?
    ensures GoodMember(fits, m) && !HasKey(acc, CharsValue(m.key)) && t.Lexed? && |t.rest| < |s|
    ensures t.token == EndObject || t.token == ValueSep
    ensures s == MemberText(m) + ([Punctuation(t.token)] + t.rest)
    ensures var more := acc + [JsonValue.Pair(CharsValue(m.key), ValueOf(m.value))];
            && (t.token == EndObject ==> ParsePairs(fits, s, acc) == Ok(Object(more), t.rest))
            && (t.token == ValueSep ==> ParsePairs(fits, s, acc) == ParsePairs(fits, t.rest, more))
    decreases |s|, 2
  {
    hide Lex, ParseValue, Text, ValueOf, Good, CharsValue, CharsText;
    var k := ParseValue(fits, s);
    var w, key := KeyIs(fits, s);
    LexConsumes(fits, k.rest);
    var colon := Lex(fits, k.rest);
    var middle := PunctuationIs(fits, k.rest, NameSep, colon.rest);
    var p := ParseValue(fits, colon.rest);
    assert ParsePairs(fits, s, acc) == ParsePairValue(fits, colon.rest, acc, k.v.s);
    var next, v := ValueIs(fits, colon.rest);
    LexConsumes(fits, p.rest);
    t := Lex(fits, p.rest);
    var after := PunctuationIs(fits, p.rest, t.token, t.rest);
    m := Member(w, key, middle, next, v, after);
    hide ParsePairs, ParsePairValue;
    var tail := [Punctuation(t.token)] + t.rest;
    assert colon.rest == ValuePart(m, tail);
    MemberParts(m, tail);
  }

  /** A key is a string. */
  lemma {:induction false} KeyIs(fits: Range, s: seq<int>) returns (w: seq<int>, key: seq<Spelling>)
    requires ParseValue(fits, s).Ok? && ParseValue(fits, s).v.String?
    ensures var r := ParseValue(fits, s);
            IsSpace(w) && AllowedChars(key) && s == w + (Quoted(key) + r.rest) && CharsValue(key) == r.v.s
    decreases |s|, 1
  {
    var v;
    w, v := ValueIs(fits, s);
    hide ParseValue, CharsValue, CharsText, Quoted, ItemsValue, MembersValue, ItemsText, MembersText;
    key := v.chars;
  }

  /** The reader accepts exactly the texts of the syntax, and returns what they mean. */
  lemma TextsAre(fits: Range, s: seq<int>, v: Json)
    ensures Parse(fits, s) == Ok(v, []) <==>
            exists w, t, u :: IsSpace(w) && Good(fits, t) && IsSpace(u) && s == w + (Text(t) + u) && ValueOf(t) == v
  {
    hide ParseValue, Lex, Text, ValueOf, Good;
    if Parse(fits, s) == Ok(v, []) {
      var w, t := ValueIs(fits, s);
      EofIs(fits, ParseValue(fits, s).rest, Lex(fits, ParseValue(fits, s).rest).rest);
    }
    forall w, t, u | IsSpace(w) && Good(fits, t) && IsSpace(u) && s == w + (Text(t) + u) && ValueOf(t) == v
      ensures Parse(fits, s) == Ok(v, [])
    {
      SpaceEnds(u, []);
      assert u + [] == u;
      ValueSkips(fits, w, Text(t) + u);
      ValueRead(fits, t, u);
      EofIs(fits, u, []);
    }
  }
}
