/**
 The base-64 code (section 4 of RFC 4648). The decoder skips characters that are not in the
 alphabet, takes a space for a plus and stops at the padding.
 */
module Base64 {
  import opened Basics

  const PAD: bv8 := 0x3d
  const SPACE: bv8 := 0x20
  const PLUS: bv8 := 0x2b
  const NONE: bv8 := 0xff

  /** The character for a value below 64. */
  function Symbol(v: bv8): bv8 {
    if v < 26 then v + 65 else if v < 52 then v + 71 else if v < 62 then v - 4 else if v == 62 then PLUS else 0x2f
  }

  /** The reverse table. It was made by a search that also finds the zero which ends the alphabet. */
  function Reverse(c: bv8): bv8 {
    if 65 <= c <= 90 then c - 65
    else if 97 <= c <= 122 then c - 71
    else if 48 <= c <= 57 then c + 4
    else if c == PLUS then 62
    else if c == 0x2f then 63
    else if c == 0 then 64
    else NONE
  }

  /** The alphabet and the padding of section 4 of RFC 4648. */
  lemma Alphabet(v: bv8)
    requires v < 64
    ensures v < 26 ==> Symbol(v) == Ascii('A') + v
    ensures 26 <= v < 52 ==> Symbol(v) == Ascii('a') + (v - 26)
    ensures 52 <= v < 62 ==> Symbol(v) == Ascii('0') + (v - 52)
    ensures v == 62 ==> Symbol(v) == Ascii('+')
    ensures v == 63 ==> Symbol(v) == Ascii('/')
    ensures PAD == Ascii('=') && SPACE == Ascii(' ')
  {
    Letters();
  }

  /** The code of an ASCII character. */
  function Ascii(c: char): bv8 {
    if c as int < 128 then c as int as bv8 else 0
  }

  lemma Letters()
    ensures Ascii('A') == 65 && Ascii('a') == 97 && Ascii('0') == 48 && Ascii('+') == 43 && Ascii('/') == 47
    ensures Ascii('=') == 61 && Ascii(' ') == 32
  {
  }

  lemma SymbolReverse(v: bv8)
    requires v < 64
    ensures Reverse(Symbol(v)) == v && Symbol(v) != PAD && Symbol(v) != SPACE
  {
  }

  /** The value of a character that is no padding. */
  function Sextet(c: bv8): bv8 {
    Reverse(if c == SPACE then PLUS else c)
  }

  // ----- encoding -----

  function First(a: bv8): bv8 { a >> 2 }
  function Second(a: bv8, b: bv8): bv8 { ((a & 0x03) << 4) + (b >> 4) }
  function Third(b: bv8, c: bv8): bv8 { ((b & 0x0f) << 2) + (c >> 6) }
  function Fourth(c: bv8): bv8 { c & 0x3f }

  function Encoded(src: seq<bv8>): seq<bv8> {
    if src == [] then []
    else if |src| == 1 then [Symbol(First(src[0])), Symbol(Second(src[0], 0)), PAD, PAD]
    else if |src| == 2 then
      [Symbol(First(src[0])), Symbol(Second(src[0], src[1])), Symbol(Third(src[1], 0)), PAD]
    else
      [Symbol(First(src[0])), Symbol(Second(src[0], src[1])), Symbol(Third(src[1], src[2])), Symbol(Fourth(src[2]))]
      + Encoded(src[3..])
  }

  lemma {:induction false} EncodedLength(src: seq<bv8>)
    ensures |Encoded(src)| == (|src| + 2) / 3 * 4
  {
    if |src| > 2 {
      EncodedLength(src[3..]);
    }
  }

  /** The examples of section 10 of RFC 4648, "f" to "foobar". */
  lemma Examples()
    ensures Encoded([0x66]) == [0x5a, 0x67, 0x3d, 0x3d]
    ensures Encoded([0x66, 0x6f]) == [0x5a, 0x6d, 0x38, 0x3d]
    ensures Encoded([0x66, 0x6f, 0x6f]) == [0x5a, 0x6d, 0x39, 0x76]
    ensures Encoded([0x66, 0x6f, 0x6f, 0x62, 0x61, 0x72]) == [0x5a, 0x6d, 0x39, 0x76, 0x59, 0x6d, 0x46, 0x79]
  {
    var s: seq<bv8> := [0x66, 0x6f, 0x6f, 0x62, 0x61, 0x72];
    var t: seq<bv8> := [0x66, 0x6f, 0x6f];
    assert s[3..] == [0x62, 0x61, 0x72] && s[3..][3..] == [] && t[3..] == [];
    assert Encoded([0x62, 0x61, 0x72]) == [0x59, 0x6d, 0x46, 0x79] + Encoded(s[3..][3..]);
  }

  // ----- decoding -----

  /** The values of the characters that count. */
  function Sextets(text: seq<bv8>): seq<bv8> {
    if text == [] || text[0] == PAD then []
    else (if Sextet(text[0]) == NONE then [] else [Sextet(text[0])]) + Sextets(text[1..])
  }

  function FromFirst(v: bv8, w: bv8): bv8 { (v << 2) | (w >> 4) }
  function FromSecond(v: bv8, w: bv8): bv8 { ((v & 0x0f) << 4) | (w >> 2) }
  function FromThird(v: bv8, w: bv8): bv8 { ((v & 0x03) << 6) | w }

  /** The bytes that are complete. */
  function Assembled(v: seq<bv8>): seq<bv8> {
    if |v| < 2 then []
    else if |v| == 2 then [FromFirst(v[0], v[1])]
    else if |v| == 3 then [FromFirst(v[0], v[1]), FromSecond(v[1], v[2])]
    else [FromFirst(v[0], v[1]), FromSecond(v[1], v[2]), FromThird(v[2], v[3])] + Assembled(v[4..])
  }

  lemma GroupRoundTrip(a: bv8, b: bv8, c: bv8)
    ensures First(a) < 64 && Second(a, b) < 64 && Third(b, c) < 64 && Fourth(c) < 64
    ensures FromFirst(First(a), Second(a, b)) == a
    ensures FromSecond(Second(a, b), Third(b, c)) == b
    ensures FromThird(Third(b, c), Fourth(c)) == c
  {
  }

  lemma SextetsSymbol(v: bv8, text: seq<bv8>)
    requires v < 64
    ensures Sextets([Symbol(v)] + text) == [v] + Sextets(text)
  {
    SymbolReverse(v);
    assert ([Symbol(v)] + text)[1..] == text;
  }

  lemma SextetsFour(v: seq<bv8>, text: seq<bv8>)
    requires |v| == 4 && forall i :: 0 <= i < 4 ==> v[i] < 64
    ensures Sextets([Symbol(v[0]), Symbol(v[1]), Symbol(v[2]), Symbol(v[3])] + text) == v + Sextets(text)
  {
    hide Symbol, Sextets;
    var t3 := [Symbol(v[3])] + text;
    var t2 := [Symbol(v[2])] + t3;
    var t1 := [Symbol(v[1])] + t2;
    SextetsSymbol(v[3], text);
    SextetsSymbol(v[2], t3);
    SextetsSymbol(v[1], t2);
    SextetsSymbol(v[0], t1);
    assert [Symbol(v[0]), Symbol(v[1]), Symbol(v[2]), Symbol(v[3])] + text == [Symbol(v[0])] + t1;
    var rest := Sextets(text);
    assert [v[0]] + ([v[1]] + ([v[2]] + ([v[3]] + rest))) == v + rest;
  }

  /** Decoding undoes encoding. */
  lemma {:induction false} RoundTrip(src: seq<bv8>)
    ensures Assembled(Sextets(Encoded(src))) == src
  {
    hide First, Second, Third, Fourth, Symbol, Sextets, Assembled;
    if src == [] {
      NoneLeft();
    } else if |src| == 1 {
      LastOne(src[0]);
    } else if |src| == 2 {
      LastTwo(src[0], src[1]);
    } else {
      NextThree(src[0], src[1], src[2], Encoded(src[3..]));
      RoundTrip(src[3..]);
      assert src == [src[0], src[1], src[2]] + src[3..];
    }
  }

  lemma NoneLeft()
    ensures Assembled(Sextets([])) == []
  {
  }

  lemma NextThree(a: bv8, b: bv8, c: bv8, text: seq<bv8>)
    ensures Assembled(Sextets(
              [Symbol(First(a)), Symbol(Second(a, b)), Symbol(Third(b, c)), Symbol(Fourth(c))] + text)) ==
            [a, b, c] + Assembled(Sextets(text))
  {
    hide First, Second, Third, Fourth, FromFirst, FromSecond, FromThird, Symbol, Sextets;
    GroupRoundTrip(a, b, c);
    var v := [First(a), Second(a, b), Third(b, c), Fourth(c)];
    SextetsFour(v, text);
    assert (v + Sextets(text))[4..] == Sextets(text);
  }

  lemma LastOne(a: bv8)
    ensures Assembled(Sextets([Symbol(First(a)), Symbol(Second(a, 0)), PAD, PAD])) == [a]
  {
    hide First, Second, FromFirst, Symbol;
    GroupRoundTrip(a, 0, 0);
    SextetsSymbol(First(a), [Symbol(Second(a, 0)), PAD, PAD]);
    SextetsSymbol(Second(a, 0), [PAD, PAD]);
    assert [Symbol(First(a)), Symbol(Second(a, 0)), PAD, PAD] == [Symbol(First(a))] + [Symbol(Second(a, 0)), PAD, PAD];
    assert [Symbol(Second(a, 0)), PAD, PAD] == [Symbol(Second(a, 0))] + [PAD, PAD];
  }

  lemma LastTwo(a: bv8, b: bv8)
    ensures Assembled(Sextets([Symbol(First(a)), Symbol(Second(a, b)), Symbol(Third(b, 0)), PAD])) == [a, b]
  {
    hide First, Second, Third, FromFirst, FromSecond, Symbol;
    GroupRoundTrip(a, b, 0);
    var t2 := [Symbol(Third(b, 0))] + [PAD];
    var t1 := [Symbol(Second(a, b))] + t2;
    SextetsSymbol(First(a), t1);
    SextetsSymbol(Second(a, b), t2);
    SextetsSymbol(Third(b, 0), [PAD]);
    assert [Symbol(First(a)), Symbol(Second(a, b)), Symbol(Third(b, 0)), PAD] == [Symbol(First(a))] + t1;
  }

  /** Characters that the decoder skips. */
  predicate Skipped(c: bv8) {
    c != PAD && Sextet(c) == NONE
  }

  /** They are all those that are neither in the alphabet nor padding, a space or zero. */
  lemma SkippedAre(c: bv8)
    ensures Skipped(c) <==> c != PAD && c != SPACE && c != 0 && (forall v: bv8 :: v < 64 ==> c != Symbol(v))
  {
    if !Skipped(c) && c != PAD && c != SPACE && c != 0 {
      assert Symbol(Reverse(c)) == c && Reverse(c) < 64;
    }
    forall v: bv8 | v < 64 && c == Symbol(v) ensures !Skipped(c) {
      SymbolReverse(v);
    }
  }

  /** Such characters can be inserted anywhere. */
  lemma {:induction false} SkipAnywhere(a: seq<bv8>, c: bv8, b: seq<bv8>)
    requires Skipped(c)
    ensures Sextets(a + [c] + b) == Sextets(a + b)
  {
    hide Sextet, Skipped;
    if a == [] {
      assert a + [c] + b == [c] + b && a + b == b && ([c] + b)[1..] == b;
      SkipFirst(c, b);
    } else {
      SkipAnywhere(a[1..], c, b);
      assert (a + [c] + b)[1..] == a[1..] + [c] + b && (a + b)[1..] == a[1..] + b;
    }
  }

  lemma SkipFirst(c: bv8, b: seq<bv8>)
    requires Skipped(c)
    ensures Sextets([c] + b) == Sextets(b)
  {
    assert ([c] + b)[1..] == b;
  }

  // ----- the loops -----

  method PutFour(dest: array<bv8>, i: nat, w: bv8, x: bv8, y: bv8, z: bv8)
    requires i + 4 <= dest.Length
    modifies dest
    ensures dest[..i + 4] == old(dest[..i]) + [w, x, y, z]
  {
    dest[i] := w;
    dest[i + 1] := x;
    dest[i + 2] := y;
    dest[i + 3] := z;
  }

  /** Encodes into a buffer of the size the code needs. */
  method Encode(dest: array<bv8>, src: seq<bv8>) returns (i: nat)
    requires dest.Length >= (|src| + 2) / 3 * 4
    modifies dest
    ensures i <= dest.Length && dest[..i] == Encoded(src)
  {
    hide First, Second, Third, Fourth, Symbol, Encoded;
    i := 0;
    var k := 0;
    assert src[0..] == src && dest[..0] + Encoded(src) == Encoded(src);
    while |src| - k > 2
      invariant 0 <= k <= |src| && 3 * i == 4 * k && k % 3 == 0
      invariant i <= dest.Length && dest[..i] + Encoded(src[k..]) == Encoded(src)
    {
      Group(src[k..]);
      assert src[k..][3..] == src[k + 3..];
      var a, b, c := src[k], src[k + 1], src[k + 2];
      ghost var four := [Symbol(First(a)), Symbol(Second(a, b)), Symbol(Third(b, c)), Symbol(Fourth(c))];
      Assoc(dest[..i], four, Encoded(src[k + 3..]));
      PutFour(dest, i, Symbol(First(a)), Symbol(Second(a, b)), Symbol(Third(b, c)), Symbol(Fourth(c)));
      i, k := i + 4, k + 3;
    }
    Tail(src[k..]);
    if |src| - k == 2 {
      PutFour(dest, i, Symbol(First(src[k])), Symbol(Second(src[k], src[k + 1])), Symbol(Third(src[k + 1], 0)), PAD);
      i := i + 4;
    } else if |src| - k == 1 {
      PutFour(dest, i, Symbol(First(src[k])), Symbol(Second(src[k], 0)), PAD, PAD);
      i := i + 4;
    } else {
      assert dest[..i] + [] == dest[..i];
    }
  }

  lemma Group(src: seq<bv8>)
    requires |src| > 2
    ensures Encoded(src) ==
            [Symbol(First(src[0])), Symbol(Second(src[0], src[1])), Symbol(Third(src[1], src[2])),
             Symbol(Fourth(src[2]))]
            + Encoded(src[3..])
  {
  }

  lemma Tail(src: seq<bv8>)
    ensures src == [] ==> Encoded(src) == []
    ensures |src| == 1 ==> Encoded(src) == [Symbol(First(src[0])), Symbol(Second(src[0], 0)), PAD, PAD]
    ensures |src| == 2 ==>
              Encoded(src) == [Symbol(First(src[0])), Symbol(Second(src[0], src[1])), Symbol(Third(src[1], 0)), PAD]
  {
  }

  /** What one more value completes: a byte, except for the first of four. */
  function Completed(v: seq<bv8>, c: bv8): seq<bv8> {
    if |v| % 4 == 0 then []
    else if |v| % 4 == 1 then [FromFirst(v[|v| - 1], c)]
    else if |v| % 4 == 2 then [FromSecond(v[|v| - 1], c)]
    else [FromThird(v[|v| - 1], c)]
  }

  lemma {:induction false} AssembledMore(v: seq<bv8>, c: bv8)
    ensures Assembled(v + [c]) == Assembled(v) + Completed(v, c)
    ensures |Assembled(v)| == |v| * 3 / 4
    decreases |v|
  {
    hide FromFirst, FromSecond, FromThird, Assembled, Completed;
    if |v| < 4 {
      AssembledFew(v, c);
    } else {
      assert (v + [c])[4..] == v[4..] + [c];
      AssembledMore(v[4..], c);
      SameCompleted(v, c);
      AssembledFour(v);
      AssembledFour(v + [c]);
      Assoc([FromFirst(v[0], v[1]), FromSecond(v[1], v[2]), FromThird(v[2], v[3])], Assembled(v[4..]), Completed(v, c));
    }
  }

  lemma SameCompleted(v: seq<bv8>, c: bv8)
    requires |v| >= 4
    ensures Completed(v[4..], c) == Completed(v, c)
  {
    hide FromFirst, FromSecond, FromThird;
  }

  lemma AssembledFour(v: seq<bv8>)
    requires |v| >= 4
    ensures Assembled(v) == [FromFirst(v[0], v[1]), FromSecond(v[1], v[2]), FromThird(v[2], v[3])] + Assembled(v[4..])
  {
  }

  lemma AssembledFew(v: seq<bv8>, c: bv8)
    requires |v| < 4
    ensures Assembled(v + [c]) == Assembled(v) + Completed(v, c)
    ensures |Assembled(v)| == |v| * 3 / 4
  {
    hide FromFirst, FromSecond, FromThird, Assembled, Completed;
    if |v| == 0 {
      Few0(v, c);
    } else if |v| == 1 {
      Few1(v, c);
    } else if |v| == 2 {
      Few2(v, c);
    } else {
      Few3(v, c);
    }
  }

  lemma Few0(v: seq<bv8>, c: bv8)
    requires |v| == 0
    ensures Assembled(v + [c]) == Assembled(v) + Completed(v, c) && |Assembled(v)| == 0
  {
    hide Assembled;
    AssembledNone(v);
    AssembledNone(v + [c]);
  }

  lemma Few1(v: seq<bv8>, c: bv8)
    requires |v| == 1
    ensures Assembled(v + [c]) == Assembled(v) + Completed(v, c) && |Assembled(v)| == 0
  {
    hide Assembled, FromFirst;
    AssembledNone(v);
    AssembledOne(v + [c]);
    assert [] + [FromFirst(v[0], c)] == [FromFirst(v[0], c)];
  }

  lemma Few2(v: seq<bv8>, c: bv8)
    requires |v| == 2
    ensures Assembled(v + [c]) == Assembled(v) + Completed(v, c) && |Assembled(v)| == 1
  {
    hide Assembled, FromFirst, FromSecond;
    AssembledOne(v);
    AssembledTwo(v + [c]);
    Pair(FromFirst(v[0], v[1]), FromSecond(v[1], c));
  }

  lemma Few3(v: seq<bv8>, c: bv8)
    requires |v| == 3
    ensures Assembled(v + [c]) == Assembled(v) + Completed(v, c) && |Assembled(v)| == 2
  {
    hide Assembled, FromFirst, FromSecond, FromThird;
    AssembledTwo(v);
    AssembledFour(v + [c]);
    AssembledNone((v + [c])[4..]);
    Triple(FromFirst(v[0], v[1]), FromSecond(v[1], v[2]), FromThird(v[2], c));
  }

  lemma Pair(a: bv8, b: bv8)
    ensures [a] + [b] == [a, b]
  {
  }

  lemma Triple(a: bv8, b: bv8, c: bv8)
    ensures [a, b, c] + [] == [a, b] + [c]
  {
  }

  lemma AssembledNone(v: seq<bv8>)
    requires |v| < 2
    ensures Assembled(v) == []
  {
  }

  lemma AssembledOne(v: seq<bv8>)
    requires |v| == 2
    ensures Assembled(v) == [FromFirst(v[0], v[1])]
  {
  }

  lemma AssembledTwo(v: seq<bv8>)
    requires |v| == 3
    ensures Assembled(v) == [FromFirst(v[0], v[1]), FromSecond(v[1], v[2])]
  {
  }

  lemma {:induction false} SextetsMore(text: seq<bv8>, c: bv8)
    requires PAD !in text
    ensures Sextets(text + [c]) == Sextets(text) + if c == PAD || Sextet(c) == NONE then [] else [Sextet(c)]
    ensures |Sextets(text)| <= |text|
  {
    hide Sextet;
    if text == [] {
      assert text + [c] == [c] && [c][1..] == [];
    } else {
      SextetsMore(text[1..], c);
      assert (text + [c])[1..] == text[1..] + [c];
    }
  }

  lemma {:induction false} SextetsStop(text: seq<bv8>, more: seq<bv8>)
    requires PAD !in text
    ensures Sextets(text + [PAD] + more) == Sextets(text)
  {
    hide Sextet;
    if text == [] {
      assert text + [PAD] + more == [PAD] + more;
    } else {
      SextetsStop(text[1..], more);
      assert (text + [PAD] + more)[1..] == text[1..] + [PAD] + more;
    }
  }

  /** The bits of the last value that belong to the byte being put together. */
  function Started(v: seq<bv8>): bv8
    requires v != []
  {
    var c := v[|v| - 1];
    if |v| % 4 == 1 then c << 2 else if |v| % 4 == 2 then (c & 0x0f) << 4 else (c & 0x03) << 6
  }

  /** The values v have been read. */
  ghost predicate Reading(dest: seq<bv8>, v: seq<bv8>, i: nat, j: nat) {
    && i == |v| && j == |v| * 3 / 4 && j <= |dest| && dest[..j] == Assembled(v)
    && (i % 4 != 0 ==> j < |dest| && dest[j] == Started(v))
  }

  /** The buffer has room for the group of value i. */
  predicate Fits(length: nat, i: nat) {
    length >= (i + 4) / 4 * 3
  }

  method Put(dest: array<bv8>, j: nat, x: bv8)
    requires j < dest.Length
    modifies dest
    ensures dest[..] == old(dest[..])[j := x]
  {
    dest[j] := x;
  }

  /** Adds a value. */
  method PutSextet(dest: array<bv8>, i: nat, j: nat, ch: bv8, ghost v: seq<bv8>) returns (j': nat)
    requires Reading(dest[..], v, i, j) && Fits(dest.Length, i)
    modifies dest
    ensures Reading(dest[..], v + [ch], i + 1, j')
  {
    hide Assembled, Started, Completed, Reading, Fits;
    Position(dest[..], v, i, j);
    var phase := i % 4;
    if phase == 0 {
      ReadFirst(dest[..], v, i, j, ch);
      Put(dest, j, ch << 2);
      j' := j;
    } else if phase == 1 {
      ReadMiddle(dest[..], v, i, j, ch, ch >> 4, (ch & 0x0f) << 4);
      Put(dest, j, dest[j] | (ch >> 4));
      Put(dest, j + 1, (ch & 0x0f) << 4);
      j' := j + 1;
    } else if phase == 2 {
      ReadMiddle(dest[..], v, i, j, ch, ch >> 2, (ch & 0x03) << 6);
      Put(dest, j, dest[j] | (ch >> 2));
      Put(dest, j + 1, (ch & 0x03) << 6);
      j' := j + 1;
    } else {
      ReadLast(dest[..], v, i, j, ch);
      Put(dest, j, dest[j] | ch);
      j' := j + 1;
    }
  }

  lemma Position(dest: seq<bv8>, v: seq<bv8>, i: nat, j: nat)
    requires Reading(dest, v, i, j) && Fits(|dest|, i)
    ensures i == |v| && j < |dest| && (i % 4 == 1 || i % 4 == 2 ==> j + 1 < |dest|)
  {
    Places(i, j);
  }

  lemma Places(i: nat, j: nat)
    requires j == i * 3 / 4
    ensures j < (i + 4) / 4 * 3 && (i % 4 == 1 || i % 4 == 2 ==> j + 1 < (i + 4) / 4 * 3)
  {
  }

  lemma ReadFirst(dest: seq<bv8>, v: seq<bv8>, i: nat, j: nat, ch: bv8)
    requires Reading(dest, v, i, j) && i % 4 == 0 && j < |dest|
    ensures Reading(dest[j := ch << 2], v + [ch], i + 1, j)
  {
    hide Assembled, Started, Completed;
    AfterNone(v, ch);
    AssembledMore(v, ch);
    var x := ch << 2;
    KeepBelow(dest, j, x);
    assert Assembled(v) + [] == Assembled(v);
  }

  lemma ReadMiddle(dest: seq<bv8>, v: seq<bv8>, i: nat, j: nat, ch: bv8, low: bv8, next: bv8)
    requires Reading(dest, v, i, j) && (i % 4 == 1 || i % 4 == 2) && j + 1 < |dest|
    requires low == (if i % 4 == 1 then ch >> 4 else ch >> 2)
             && next == if i % 4 == 1 then (ch & 0x0f) << 4 else (ch & 0x03) << 6
    ensures Reading(dest[j := dest[j] | low][j + 1 := next], v + [ch], i + 1, j + 1)
  {
    hide Assembled, Started, Completed;
    AfterSome(v, ch, low);
    AssembledMore(v, ch);
    var x := dest[j] | low;
    AppendAt(dest, j, x);
    KeepBelow(dest[j := x], j + 1, next);
  }

  lemma ReadLast(dest: seq<bv8>, v: seq<bv8>, i: nat, j: nat, ch: bv8)
    requires Reading(dest, v, i, j) && i % 4 == 3 && j < |dest|
    ensures Reading(dest[j := dest[j] | ch], v + [ch], i + 1, j + 1)
  {
    hide Assembled, Started, Completed;
    AfterSome(v, ch, ch);
    AssembledMore(v, ch);
    AppendAt(dest, j, dest[j] | ch);
  }

  lemma KeepBelow(dest: seq<bv8>, j: nat, x: bv8)
    requires j < |dest|
    ensures dest[j := x][..j] == dest[..j] && dest[j := x][j] == x
  {
  }

  lemma AppendAt(dest: seq<bv8>, j: nat, x: bv8)
    requires j < |dest|
    ensures dest[j := x][..j + 1] == dest[..j] + [x]
  {
  }

  lemma AfterNone(v: seq<bv8>, ch: bv8)
    requires |v| % 4 == 0
    ensures Started(v + [ch]) == ch << 2 && Completed(v, ch) == []
  {
    assert |v + [ch]| % 4 == 1;
  }

  lemma AfterSome(v: seq<bv8>, ch: bv8, low: bv8)
    requires |v| % 4 != 0
    requires low == if |v| % 4 == 1 then ch >> 4 else if |v| % 4 == 2 then ch >> 2 else ch
    ensures Completed(v, ch) == [Started(v) | low]
    ensures |v| % 4 == 1 ==> Started(v + [ch]) == (ch & 0x0f) << 4
    ensures |v| % 4 == 2 ==> Started(v + [ch]) == (ch & 0x03) << 6
  {
    var w, last := v + [ch], v[|v| - 1];
    assert w[|w| - 1] == ch;
    if |v| % 4 == 1 {
      assert |w| % 4 == 2 && Started(v) == last << 2;
    } else if |v| % 4 == 2 {
      assert |w| % 4 == 3 && Started(v) == (last & 0x0f) << 4;
    } else {
      assert Started(v) == (last & 0x03) << 6;
    }
  }

  /** Decodes into a buffer of the size of whole groups. */
  method Decode(dest: array<bv8>, text: seq<bv8>) returns (j: nat)
    requires dest.Length >= (|text| + 3) / 4 * 3
    modifies dest
    ensures j <= dest.Length && dest[..j] == Assembled(Sextets(text))
  {
    hide Assembled, Sextets, Sextet, Started, Reading, Fits;
    var i, k := 0, 0;
    j := 0;
    ReadNothing(dest[..]);
    assert text[..0] == [];
    while k < |text|
      invariant 0 <= k <= |text| && PAD !in text[..k]
      invariant Reading(dest[..], Sextets(text[..k]), i, j) && i <= k
    {
      var ch := text[k];
      assert text[..k + 1] == text[..k] + [ch];
      if ch == PAD {
        assert text == text[..k] + [PAD] + text[k + 1..];
        SextetsStop(text[..k], text[k + 1..]);
        break;
      }
      SextetsMore(text[..k], ch);
      k := k + 1;
      ch := Sextet(ch);
      if ch == NONE {
        assert Sextets(text[..k - 1]) + [] == Sextets(text[..k - 1]);
        continue;
      }
      Room(dest.Length, |text|, i);
      j := PutSextet(dest, i, j, ch, Sextets(text[..k - 1]));
      i := i + 1;
    }
    assert k == |text| ==> text[..k] == text;
    ReadAll(dest[..], Sextets(text), i, j);
    assert dest[..][..j] == dest[..j];
  }

  lemma Room(length: nat, n: nat, i: nat)
    requires length >= (n + 3) / 4 * 3 && i < n
    ensures Fits(length, i)
  {
  }

  lemma ReadNothing(dest: seq<bv8>)
    ensures Reading(dest, Sextets([]), 0, 0)
  {
  }

  lemma ReadAll(dest: seq<bv8>, v: seq<bv8>, i: nat, j: nat)
    requires Reading(dest, v, i, j)
    ensures j <= |dest| && dest[..j] == Assembled(v)
  {
  }

  /** Decoding what has been encoded gives the original string. */
  method EncodeDecode(src: seq<bv8>) returns (code: seq<bv8>, result: seq<bv8>)
    ensures |code| == (|src| + 2) / 3 * 4 && result == src
  {
    hide *;
    var buffer := new bv8[(|src| + 2) / 3 * 4];
    var n := Encode(buffer, src);
    code := buffer[..n];
    EncodedLength(src);
    RoundTrip(src);
    var dest := new bv8[(|code| + 3) / 4 * 3];
    var d := Decode(dest, code);
    result := dest[..d];
  }
}
