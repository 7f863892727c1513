/**
 The base-224 code: blocks of 39 bits become 5 bytes from 0x20 to 0xff. Of each byte the lower
 5 bits carry source bits directly; the other 14 bits of the block are written in base 7.
 */
module Base224 {
  import opened Basics
  import opened Powers

  const BLOCK := 0x80_0000_0000          // 2^39

  // ----- byte strings as numbers, the least significant byte first -----

  function Value(s: seq<Byte>): nat {
    if s == [] then 0 else s[0] + 256 * Value(s[1..])
  }

  function Bytes(v: nat, n: nat): (s: seq<Byte>)
    ensures |s| == n
  {
    if n == 0 then [] else [v % 256] + Bytes(v / 256, n - 1)
  }

  lemma {:induction false} BytesOfValue(s: seq<Byte>)
    ensures Bytes(Value(s), |s|) == s
    ensures Value(s) < Pow2(8 * |s|)
  {
    if s != [] {
      BytesOfValue(s[1..]);
      Division(Value(s), Value(s[1..]), s[0], 256);
      Pow2Add(8, 8 * |s| - 8);
      Pow2Of8();
    }
  }

  lemma {:induction false} ValueConcat(a: seq<Byte>, b: seq<Byte>)
    ensures Value(a + b) == Value(a) + Pow2(8 * |a|) * Value(b)
  {
    if a == [] {
      assert a + b == b;
    } else {
      ValueConcat(a[1..], b);
      assert (a + b)[1..] == a[1..] + b && (a + b)[0] == a[0];
      ByteAbove(|a|);
      hide Pow2;
      Regroup(Pow2(8 * |a|), 256, Pow2(8 * |a| - 8), Value(b));
    }
  }

  lemma ByteAbove(n: nat)
    requires n > 0
    ensures Pow2(8 * n) == 256 * Pow2(8 * n - 8)
  {
    Pow2Add(8, 8 * n - 8);
    Pow2Of8();
  }

  /** v without its n lowest bytes. */
  function Above(v: nat, n: nat): nat {
    Quotient(v, Pow2(8 * n));
    v / Pow2(8 * n)
  }

  lemma BytesDown(w: nat, n: nat)
    requires n > 0
    ensures Bytes(w, n) == [w % 256] + Bytes(w / 256, n - 1)
    ensures Above(w, n) == Above(w / 256, n - 1)
  {
    ByteAbove(n);
    hide Pow2;
    DivideTwice(w, 256, Pow2(8 * n - 8));
  }

  lemma BytesNone(w: nat)
    ensures Bytes(w, 0) == [] && Above(w, 0) == w
  {
    assert Pow2(0) == 1;
  }

  /** The low bytes come first; bits above them do not matter. */
  lemma {:induction false} BytesSplit(v: nat, high: nat, m: nat, n: nat)
    ensures Bytes(v + Pow2(8 * m) * high, m + n) == Bytes(v, m) + Bytes(Above(v, m) + high, n)
    decreases m
  {
    hide Bytes, Above, Pow2;
    if m == 0 {
      BytesNone(v);
      assert Pow2(0) == 1 by { OnePower(); }
      assert [] + Bytes(v + high, n) == Bytes(v + high, n);
    } else {
      var q := Pow2(8 * m - 8);
      ByteAbove(m);
      Regroup(Pow2(8 * m), 256, q, high);
      DivideMultiple(v, q * high, 256);
      BytesDown(v + Pow2(8 * m) * high, m + n);
      BytesDown(v, m);
      BytesSplit(v / 256, high, m - 1, n);
      Assoc([v % 256], Bytes(v / 256, m - 1), Bytes(Above(v, m) + high, n));
    }
  }

  lemma OnePower()
    ensures Pow2(0) == 1
  {
  }

  // ----- one block -----

  /** Some bits of v: `place` and `size` are powers of two. */
  function Field(v: nat, place: nat, size: nat): (f: nat)
    requires place > 0 && size > 0
    ensures f < size
  {
    v / place % size
  }

  /** The bits of a block that are written in base 7. */
  function Stars(v: nat): nat {
    Field(v, 0x20, 4) + 4 * Field(v, 0x1000, 8) + 32 * Field(v, 0x10_0000, 8)
    + 256 * Field(v, 0x1000_0000, 8) + 2048 * Field(v, 0x10_0000_0000, 8)
  }

  /** The bits of the number x in their places within the block. */
  function Spread(x: nat): nat {
    0x20 * (x % 4) + 0x1000 * (x / 4 % 8) + 0x10_0000 * (x / 32 % 8)
    + 0x1000_0000 * (x / 256 % 8) + 0x10_0000_0000 * (x / 2048 % 8)
  }

  function Digit(five: nat, seven: nat): (d: Byte)
    requires five < 32 && seven < 7
    ensures d >= 0x20
  {
    0x20 + five + 32 * seven
  }

  /** The five bytes for a block; bits from 39 up do not matter. */
  function Digits(v: nat): (ds: seq<Byte>)
    ensures |ds| == 5 && forall j :: 0 <= j < 5 ==> ds[j] >= 0x20
  {
    var x := Stars(v);
    [Digit(Field(v, 1, 32), x % 7),
     Digit(Field(v, 0x80, 32), x / 7 % 7),
     Digit(Field(v, 0x8000, 32), x / 49 % 7),
     Digit(Field(v, 0x80_0000, 32), x / 343 % 7),
     Digit(Field(v, 0x8000_0000, 32), x / 2401 % 7)]
  }

  /** A digit of an incomplete block that is not there counts as zero. */
  function Part(ds: seq<Byte>, j: nat): Byte {
    if j < |ds| then ds[j] else 0x20
  }

  predicate Readable(ds: seq<Byte>) {
    forall i :: 0 <= i < |ds| ==> ds[i] >= 0x20
  }

  /** The two parts of a digit. */
  function Lower(d: Byte): (r: nat)
    ensures r < 32
  {
    d % 32
  }

  function Upper(d: Byte): (r: nat)
    requires d >= 0x20
    ensures r < 7
  {
    d / 32 - 1
  }

  /** The number in base 7. */
  function Sevens(ds: seq<Byte>): nat
    requires Readable(ds)
  {
    Upper(Part(ds, 0)) + 7 * Upper(Part(ds, 1)) + 49 * Upper(Part(ds, 2)) + 343 * Upper(Part(ds, 3))
        + 2401 * Upper(Part(ds, 4))
  }

  function Fives(ds: seq<Byte>): nat {
    Lower(Part(ds, 0)) + 0x80 * Lower(Part(ds, 1)) + 0x8000 * Lower(Part(ds, 2))
    + 0x80_0000 * Lower(Part(ds, 3)) + 0x8000_0000 * Lower(Part(ds, 4))
  }

  /** The block the given digits, at most five, stand for. */
  function Joined(ds: seq<Byte>): nat
    requires Readable(ds)
  {
    Fives(ds) + Spread(Sevens(ds))
  }

  lemma SevensOfDigits(x: nat)
    requires x < 16807
    ensures x % 7 + 7 * (x / 7 % 7) + 49 * (x / 49 % 7) + 343 * (x / 343 % 7) + 2401 * (x / 2401 % 7) == x
  {
    DivideTwice(x, 7, 7);
    DivideTwice(x, 49, 7);
    DivideTwice(x, 343, 7);
    DivideTwice(x, 2401, 7);
  }

  /** The fields of a block, five to be taken as they are and five for base 7. */
  lemma Fields(v: nat)
    requires v < BLOCK
    ensures v == Field(v, 1, 32) + 0x20 * Field(v, 0x20, 4) + 0x80 * Field(v, 0x80, 32) + 0x1000 * Field(v, 0x1000, 8)
                 + 0x8000 * Field(v, 0x8000, 32) + 0x10_0000 * Field(v, 0x10_0000, 8)
                 + 0x80_0000 * Field(v, 0x80_0000, 32) + 0x1000_0000 * Field(v, 0x1000_0000, 8)
                 + 0x8000_0000 * Field(v, 0x8000_0000, 32) + 0x10_0000_0000 * Field(v, 0x10_0000_0000, 8)
  {
    DivideTwice(v, 0x20, 4);
    DivideTwice(v, 0x80, 0x20);
    DivideTwice(v, 0x1000, 8);
    DivideTwice(v, 0x8000, 0x20);
    DivideTwice(v, 0x10_0000, 8);
    DivideTwice(v, 0x80_0000, 0x20);
    DivideTwice(v, 0x1000_0000, 8);
    DivideTwice(v, 0x8000_0000, 0x20);
    DivideTwice(v, 0x10_0000_0000, 8);
  }

  lemma StarsInPlace(v: nat)
    ensures Spread(Stars(v)) ==
            0x20 * Field(v, 0x20, 4) + 0x1000 * Field(v, 0x1000, 8) + 0x10_0000 * Field(v, 0x10_0000, 8)
                                + 0x1000_0000 * Field(v, 0x1000_0000, 8) + 0x10_0000_0000 * Field(v, 0x10_0000_0000, 8)
    ensures Stars(v) < 16384
  {
    hide Spread, Field;
    SpreadOfStars(Field(v, 0x20, 4), Field(v, 0x1000, 8), Field(v, 0x10_0000, 8), Field(v, 0x1000_0000, 8),
                  Field(v, 0x10_0000_0000, 8));
  }

  lemma SpreadOfStars(a: nat, b: nat, c: nat, d: nat, e: nat)
    requires a < 4 && b < 8 && c < 8 && d < 8 && e < 8
    ensures Spread(a + 4 * b + 32 * c + 256 * d + 2048 * e) ==
            0x20 * a + 0x1000 * b + 0x10_0000 * c + 0x1000_0000 * d + 0x10_0000_0000 * e
  {
    var x1 := c + 8 * d + 64 * e;
    var x := a + 4 * (b + 8 * x1);
    Division(x, b + 8 * x1, a, 4);
    Division(b + 8 * x1, x1, b, 8);
    Division(x, x1, a + 4 * b, 32);
    Division(x1, d + 8 * e, c, 8);
    Division(x, d + 8 * e, a + 4 * b + 32 * c, 256);
    Division(d + 8 * e, e, d, 8);
    Division(x, e, a + 4 * b + 32 * c + 256 * d, 2048);
  }

  lemma TwoParts(five: nat, seven: nat)
    requires five < 32 && seven < 7
    ensures Lower(Digit(five, seven)) == five && Upper(Digit(five, seven)) == seven
  {
  }

  lemma PartsOfFive(f: seq<nat>, s: seq<nat>)
    requires |f| == |s| == 5 && forall j :: 0 <= j < 5 ==> f[j] < 32 && s[j] < 7
    ensures var ds := [Digit(f[0], s[0]), Digit(f[1], s[1]), Digit(f[2], s[2]), Digit(f[3], s[3]), Digit(f[4], s[4])];
            && Fives(ds) == f[0] + 0x80 * f[1] + 0x8000 * f[2] + 0x80_0000 * f[3] + 0x8000_0000 * f[4]
            && Sevens(ds) == s[0] + 7 * s[1] + 49 * s[2] + 343 * s[3] + 2401 * s[4]
  {
    TwoParts(f[0], s[0]);
    TwoParts(f[1], s[1]);
    TwoParts(f[2], s[2]);
    TwoParts(f[3], s[3]);
    TwoParts(f[4], s[4]);
    hide Digit, Lower, Upper;
  }

  lemma PartsOfDigits(v: nat)
    ensures Fives(Digits(v)) == Field(v, 1, 32) + 0x80 * Field(v, 0x80, 32) + 0x8000 * Field(v, 0x8000, 32)
                                + 0x80_0000 * Field(v, 0x80_0000, 32) + 0x8000_0000 * Field(v, 0x8000_0000, 32)
    ensures Sevens(Digits(v)) == Stars(v)
  {
    hide Fives, Sevens, Digit, Field;
    StarsInPlace(v);
    hide Stars;
    var x := Stars(v);
    SevensOfDigits(x);
    PartsOfFive([Field(v, 1, 32), Field(v, 0x80, 32), Field(v, 0x8000, 32), Field(v, 0x80_0000, 32),
                 Field(v, 0x8000_0000, 32)],
                [x % 7, x / 7 % 7, x / 49 % 7, x / 343 % 7, x / 2401 % 7]);
  }

  /** A block is read back from its digits. */
  lemma BlockRoundTrip(v: nat)
    requires v < BLOCK
    ensures Joined(Digits(v)) == v
  {
    hide Digits, Fives, Sevens, Spread, Stars, Field;
    PartsOfDigits(v);
    StarsInPlace(v);
    Fields(v);
  }

  lemma Vanishes(v: nat, d: nat)
    requires v < d
    ensures v / d == 0
  {
  }

  /** The parts of the digits left out of an incomplete block are zero. The base-7 digits that
      are written suffice for the bits because 4 < 7, 32 < 49, 256 < 343 and 2048 < 2401. */
  lemma DroppedParts(v: nat, n: nat)
    requires 1 <= n <= 4 && v < Pow2(8 * n - 1)
    ensures n <= 1 ==> v / 0x80 == 0 && Stars(v) / 7 == 0
    ensures n <= 2 ==> v / 0x8000 == 0 && Stars(v) / 49 == 0
    ensures n <= 3 ==> v / 0x80_0000 == 0 && Stars(v) / 343 == 0
    ensures v / 0x8000_0000 == 0 && Stars(v) / 2401 == 0
  {
    Pow2Of8();
    Pow2Of16();
    Pow2Of32();
    Vanishes(v, 0x8000_0000);
    Vanishes(v, 0x10_0000_0000);
    if n <= 3 {
      Vanishes(v, 0x80_0000);
      Vanishes(v, 0x1000_0000);
    }
    if n <= 2 {
      Vanishes(v, 0x8000);
      Vanishes(v, 0x10_0000);
    }
    if n <= 1 {
      Vanishes(v, 0x80);
      Vanishes(v, 0x1000);
    }
  }

  lemma DroppedDigits(v: nat, n: nat)
    requires 1 <= n <= 5 && v < Pow2(8 * n - 1)
    ensures forall j :: n <= j < 5 ==> Digits(v)[j] == 0x20
  {
    if n < 5 {
      DroppedParts(v, n);
      hide Stars;
    }
  }

  /** So an incomplete block, too, is read back from the digits written. */
  lemma PartialRoundTrip(v: nat, n: nat)
    requires 1 <= n <= 5 && v < Pow2(8 * n - 1)
    ensures Joined(Digits(v)[..n]) == v
  {
    hide Digits, Spread;
    Pow2Of39();
    Pow2Monotonic(8 * n - 1, 39);
    DroppedDigits(v, n);
    BlockRoundTrip(v);
    var ds := Digits(v);
    assert forall j :: 0 <= j < 5 ==> Part(ds[..n], j) == Part(ds, j);
  }

  // ----- whole strings -----

  /** The code of the lowest `bits` bits of v. The last block may be incomplete and then takes
      just as many bytes as its bits need. */
  function Code(v: nat, bits: nat): seq<Byte> {
    if bits == 0 then []
    else if bits < 39 then Digits(v)[..bits / 8 + 1]
    else Digits(v) + Code(v / BLOCK, bits - 39)
  }

  /** How the digits come from the bits, as the picture in the source has it: each has five bits below,
      and the 14 others are a number written in base 7 above. */
  lemma DigitsAre(v: nat)
    ensures var d := Digits(v);
            && Lower(d[0]) == v % 32 && Lower(d[1]) == v / 0x80 % 32 && Lower(d[2]) == v / 0x8000 % 32
            && Lower(d[3]) == v / 0x80_0000 % 32 && Lower(d[4]) == v / 0x8000_0000 % 32
            && Upper(d[0]) + 7 * Upper(d[1]) + 49 * Upper(d[2]) + 343 * Upper(d[3]) + 2401 * Upper(d[4]) ==
               v / 0x20 % 4 + 4 * (v / 0x1000 % 8) + 32 * (v / 0x10_0000 % 8) + 256 * (v / 0x1000_0000 % 8)
               + 2048 * (v / 0x10_0000_0000 % 8)
    ensures forall j :: 0 <= j < 5 ==> Digits(v)[j] == 0x20 + Lower(Digits(v)[j]) + 32 * Upper(Digits(v)[j])
  {
    var x := Stars(v);
    hide Field, Digit, Stars, Lower, Upper;
    TwoParts(Field(v, 1, 32), x % 7);
    TwoParts(Field(v, 0x80, 32), x / 7 % 7);
    TwoParts(Field(v, 0x8000, 32), x / 49 % 7);
    TwoParts(Field(v, 0x80_0000, 32), x / 343 % 7);
    TwoParts(Field(v, 0x8000_0000, 32), x / 2401 % 7);
    StarsBelow(v);
    SevensOfDigits(x);
    FieldsAre(v);
    forall j | 0 <= j < 5 ensures Digits(v)[j] == 0x20 + Lower(Digits(v)[j]) + 32 * Upper(Digits(v)[j]) {
      WholeDigit(Digits(v)[j]);
    }
  }

  lemma WholeDigit(d: Byte)
    requires d >= 0x20
    ensures d == 0x20 + Lower(d) + 32 * Upper(d)
  {
  }

  lemma StarsBelow(v: nat)
    ensures Stars(v) < 16807
  {
  }

  lemma FieldsAre(v: nat)
    ensures Field(v, 1, 32) == v % 32 && Field(v, 0x80, 32) == v / 0x80 % 32 && Field(v, 0x8000, 32) == v / 0x8000 % 32
    ensures Field(v, 0x80_0000, 32) == v / 0x80_0000 % 32 && Field(v, 0x8000_0000, 32) == v / 0x8000_0000 % 32
    ensures Stars(v) == v / 0x20 % 4 + 4 * (v / 0x1000 % 8) + 32 * (v / 0x10_0000 % 8) + 256 * (v / 0x1000_0000 % 8)
                        + 2048 * (v / 0x10_0000_0000 % 8)
  {
  }

  /** The bits of v above the i bits of w. */
  function Stacked(w: nat, i: nat, v: nat): nat {
    w + Pow2(i) * v
  }

  /** What is decoded when the i lowest bits of w are left over from the previous blocks. A block
      of n digits counts for 8n - 1 bits, and whole bytes are put out. */
  function Decoded(ds: seq<Byte>, w: nat, i: nat): seq<Byte>
    requires Readable(ds)
  {
    if ds == [] then []
    else
      var n := if |ds| < 5 then |ds| else 5;
      var v, bits := Stacked(w, i, Joined(ds[..n])), i + 8 * n - 1;
      Bytes(v, bits / 8) + if n < 5 then [] else Decoded(ds[5..], Above(v, bits / 8), bits % 8)
  }

  /** The number of bits n digits stand for. */
  function DigitBits(n: nat): nat {
    39 * (n / 5) + if n % 5 == 0 then 0 else 8 * (n % 5) - 1
  }

  /** The length of the result depends on the number of digits only. */
  lemma {:induction false} DecodedLength(ds: seq<Byte>, w: nat, i: nat)
    requires Readable(ds) && i < 8
    ensures |Decoded(ds, w, i)| == (i + DigitBits(|ds|)) / 8
  {
    hide Bytes, Above, Stacked, Joined;
    if |ds| >= 5 {
      var v, bits := Stacked(w, i, Joined(ds[..5])), i + 39;
      DecodedLength(ds[5..], Above(v, bits / 8), bits % 8);
      assert DigitBits(|ds|) == 39 + DigitBits(|ds| - 5);
    }
  }

  lemma {:induction false} CodeReadable(v: nat, bits: nat)
    ensures Readable(Code(v, bits))
  {
    hide Digits;
    if bits >= 39 {
      CodeReadable(v / BLOCK, bits - 39);
    }
  }

  /** Only the low 39 bits matter for a block. */
  lemma HighBits(v: nat, high: nat)
    ensures Digits(v + BLOCK * high) == Digits(v)
  {
    hide Digit, Field;
    FieldBelow(v, high, 1, 32, 0x4_0000_0000);
    FieldBelow(v, high, 0x20, 4, 0x1_0000_0000);
    FieldBelow(v, high, 0x80, 32, 0x800_0000);
    FieldBelow(v, high, 0x1000, 8, 0x100_0000);
    FieldBelow(v, high, 0x8000, 32, 0x8_0000);
    FieldBelow(v, high, 0x10_0000, 8, 0x1_0000);
    FieldBelow(v, high, 0x80_0000, 32, 0x800);
    FieldBelow(v, high, 0x1000_0000, 8, 0x100);
    FieldBelow(v, high, 0x8000_0000, 32, 8);
    FieldBelow(v, high, 0x10_0000_0000, 8, 1);
  }

  lemma FieldBelow(v: nat, high: nat, place: nat, size: nat, above: nat, total: nat := BLOCK)
    requires place > 0 && size > 0 && place * size * above == total
    ensures Field(v + total * high, place, size) == Field(v, place, size)
  {
    assert place * size * above * high == place * (size * (above * high));
    DivideMultiple(v, size * (above * high), place);
    DivideMultiple(v / place, above * high, size);
  }

  lemma {:induction false} DecodedCode(v: nat, bits: nat, w: nat, i: nat)
    requires v < Pow2(bits) && w < Pow2(i) && i < 8 && (i + bits) % 8 == 0
    ensures Readable(Code(v, bits))
    ensures Decoded(Code(v, bits), w, i) == Bytes(Stacked(w, i, v), (i + bits) / 8)
    decreases bits
  {
    hide Digits, Joined, Decoded, Bytes, Pow2, Above, Stacked, Code;
    CodeReadable(v, bits);
    if bits == 0 {
      CodeNone(v);
      DecodedNothing(w, i, v);
    } else if bits < 39 {
      LastBlock(v, bits, w, i);
    } else {
      var low, high := v % BLOCK, v / BLOCK;
      var n, j := (i + 39) / 8, (i + 39) % 8;
      var v1 := Stacked(w, i, low);
      assert v == low + BLOCK * high;
      HighBits(low, high);
      BlockRoundTrip(low);
      CodeBlock(v, bits);
      CodeReadable(high, bits - 39);
      DecodedFull(Digits(v), Code(high, bits - 39), w, i, v1, n, j);
      BlockBounds(low, high, bits, w, i, n, j);
      DecodedCode(high, bits - 39, Above(v1, n), j);
      BlockBytes(low, high, bits, w, i, n, j);
    }
  }

  lemma DecodedNothing(w: nat, i: nat, v: nat)
    requires i == 0
    ensures Decoded([], w, i) == Bytes(Stacked(w, i, v), i / 8)
  {
  }

  lemma DecodedFull(ds: seq<Byte>, rest: seq<Byte>, w: nat, i: nat, v: nat, n: nat, j: nat)
    requires |ds| == 5 && Readable(ds) && Readable(rest)
    requires v == Stacked(w, i, Joined(ds)) && 8 * n + j == i + 39 && j < 8
    ensures Readable(ds + rest)
    ensures Decoded(ds + rest, w, i) == Bytes(v, n) + Decoded(rest, Above(v, n), j)
  {
    hide Joined, Bytes, Above;
    assert (ds + rest)[..5] == ds && (ds + rest)[5..] == rest;
    assert (i + 8 * 5 - 1) / 8 == n && (i + 8 * 5 - 1) % 8 == j;
  }

  lemma LastBlock(v: nat, bits: nat, w: nat, i: nat)
    requires v < Pow2(bits) && i < 8 && (i + bits) % 8 == 0 && 0 < bits < 39
    ensures Readable(Code(v, bits))
    ensures Decoded(Code(v, bits), w, i) == Bytes(Stacked(w, i, v), (i + bits) / 8)
  {
    hide Digits, Joined, Bytes;
    CodeReadable(v, bits);
    var n := bits / 8 + 1;
    var ds := Digits(v)[..n];
    Pow2Monotonic(bits, 8 * n - 1);
    PartialRoundTrip(v, n);
    assert ds[..n] == ds && |ds| == n;
    assert (i + 8 * n - 1) / 8 == (i + bits) / 8;
    if n == 5 {
      assert ds[5..] == [];
    }
    assert Bytes(Stacked(w, i, v), (i + bits) / 8) + [] == Bytes(Stacked(w, i, v), (i + bits) / 8);
  }

  /** What is left over after a full block is small enough. */
  lemma BlockBounds(low: nat, high: nat, bits: nat, w: nat, i: nat, n: nat, j: nat)
    requires low < BLOCK && low + BLOCK * high < Pow2(bits) && w < Pow2(i) && bits >= 39 && 8 * n + j == i + 39
    ensures high < Pow2(bits - 39)
    ensures Above(Stacked(w, i, low), n) < Pow2(j)
  {
    hide Pow2;
    Pow2Of39();
    Pow2Add(i, 39);
    Pow2Add(8 * n, j);
    Pow2Add(39, bits - 39);
    Below(high, Pow2(bits - 39), BLOCK);
    Times(Pow2(i), low + 1, BLOCK);
    Nested(Pow2(i), 0, 0, low);
    hide Above;
    AboveBelow(Stacked(w, i, low), n, Pow2(j));
  }

  lemma AboveBelow(v: nat, n: nat, b: nat)
    requires v < Pow2(8 * n) * b
    ensures Above(v, n) < b
  {
    hide Pow2;
    QuotientBelow(v, b, Pow2(8 * n));
  }

  /** The bytes put out after a full block are final. */
  lemma BlockBytes(low: nat, high: nat, bits: nat, w: nat, i: nat, n: nat, j: nat)
    requires bits >= 39 && 8 * n + j == i + 39 && (i + bits) % 8 == 0
    ensures var v := Stacked(w, i, low);
            Bytes(Stacked(w, i, low + BLOCK * high), (i + bits) / 8) ==
            Bytes(v, n) + Bytes(Stacked(Above(v, n), j, high), (j + bits - 39) / 8)
  {
    hide Pow2, Bytes;
    Pow2Of39();
    Pow2Add(i, 39);
    Pow2Add(8 * n, j);
    Shuffle(Pow2(i), low, high, Pow2(8 * n), Pow2(j));
    var k := (j + bits - 39) / 8;
    BytesSplit(w + Pow2(i) * low, Pow2(j) * high, n, k);
    assert n + k == (i + bits) / 8;
  }

  lemma Shuffle(a: nat, low: nat, high: nat, p: nat, q: nat)
    requires p * q == a * BLOCK
    ensures a * (low + BLOCK * high) == a * low + p * (q * high)
  {
    assert a * (BLOCK * high) == a * BLOCK * high;
    assert p * (q * high) == p * q * high;
  }

  /** Decoding undoes encoding, for every string of bytes. */
  lemma RoundTrip(s: seq<Byte>)
    ensures Readable(Code(Value(s), 8 * |s|))
    ensures Decoded(Code(Value(s), 8 * |s|), 0, 0) == s
  {
    hide Code, Decoded, Value, Bytes;
    BytesOfValue(s);
    DecodedCode(Value(s), 8 * |s|, 0, 0);
    assert Pow2(0) == 1;
  }

  /** The length of the code, which is at most that of whole blocks. */
  lemma {:induction false} CodeLength(v: nat, bits: nat)
    ensures |Code(v, bits)| == 5 * (bits / 39) + (if bits % 39 == 0 then 0 else bits % 39 / 8 + 1)
    ensures |Code(v, bits)| <= (bits + 38) / 39 * 5
  {
    hide Digits;
    if bits >= 39 {
      CodeLength(v / BLOCK, bits - 39);
    }
  }

  lemma {:induction false} CodeConcat(v: nat, blocks: nat, u: nat, bits: nat)
    requires v < Pow2(39 * blocks)
    ensures Code(v + Pow2(39 * blocks) * u, 39 * blocks + bits) == Code(v, 39 * blocks) + Code(u, bits)
    decreases blocks
  {
    hide Digits, Pow2, Code;
    if blocks == 0 {
      OnePower();
      CodeNone(v);
      assert [] + Code(u, bits) == Code(u, bits);
    } else {
      var p := Pow2(39 * blocks - 39);
      Pow2Add(39, 39 * blocks - 39);
      Pow2Of39();
      Regroup(Pow2(39 * blocks), BLOCK, p, u);
      HighBits(v, p * u);
      DivideMultiple(v, p * u, BLOCK);
      QuotientBelow(v, p, BLOCK);
      CodeBlock(v, 39 * blocks);
      CodeBlock(v + Pow2(39 * blocks) * u, 39 * blocks + bits);
      CodeConcat(v / BLOCK, blocks - 1, u, bits);
      Assoc(Digits(v), Code(v / BLOCK, 39 * blocks - 39), Code(u, bits));
    }
  }

  lemma CodeNone(v: nat)
    ensures Code(v, 0) == []
  {
  }

  lemma CodeBlock(v: nat, bits: nat)
    requires bits >= 39
    ensures Code(v, bits) == Digits(v) + Code(v / BLOCK, bits - 39)
  {
  }

  /** Chunks of a multiple of 39 bytes can be encoded on their own and take 40 bytes for each 39. */
  lemma Chunks(a: seq<Byte>, b: seq<Byte>)
    requires |a| % 39 == 0
    ensures Code(Value(a + b), 8 * |a + b|) == Code(Value(a), 8 * |a|) + Code(Value(b), 8 * |b|)
    ensures |Code(Value(a), 8 * |a|)| == |a| / 39 * 40
  {
    ValueConcat(a, b);
    BytesOfValue(a);
    var n := 8 * (|a| / 39);
    assert 8 * |a| == 39 * n;
    CodeConcat(Value(a), n, Value(b), 8 * |b|);
    CodeLength(Value(a), 8 * |a|);
  }
}
