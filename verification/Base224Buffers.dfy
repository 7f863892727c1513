/**
 The base-224 encoder and decoder as they work: a window of 64 bits in two words, moved along
 the input, and a buffer for the output.
 */
module Base224Buffers {
  import opened Basics
  import opened Powers
  import opened Base224

  /** The number in the two words of the window. */
  function Window(hi: Word, lo: Word): nat {
    hi * WORD + lo
  }

  /** Bitwise or where the lower operand ends below bit k and the upper one starts there. */
  function Or(low: Word, high: Word, k: nat): (r: Word)
    requires low < Pow2(k) && high % Pow2(k) == 0 && k <= 32
    ensures r == low + high
  {
    OrFits(low, high, k);
    low + high
  }

  lemma OrFits(low: Word, high: Word, k: nat)
    requires low < Pow2(k) && high % Pow2(k) == 0 && k <= 32
    ensures low + high < WORD
  {
    hide Pow2;
    Pow2Add(k, 32 - k);
    Pow2Of32();
    Room(low, high, Pow2(k), Pow2(32 - k));
  }

  /** A shift to the left within a word. */
  function Shl(x: Word, i: nat): Word
    requires i <= 32
  {
    x * Pow2(i) % WORD
  }

  /** A shift to the right. */
  function Shr(x: Word, i: nat): (r: Word) {
    Smaller(x, Pow2(i));
    x / Pow2(i)
  }

  lemma Smaller(x: nat, d: nat)
    requires d > 0
    ensures 0 <= x / d <= x
  {
    Quotient(x, d);
    Times(x + 1, 1, d);
    QuotientBelow(x, x + 1, d);
  }

  /** What a shift to the left moves out of a word is the rest of it shifted to the right. */
  lemma Shifted(x: Word, i: nat)
    requires i <= 32
    ensures Window(Shr(x, 32 - i), Shl(x, i)) == Pow2(i) * x
    ensures Shl(x, i) % Pow2(i) == 0
  {
    hide Pow2;
    Pow2Add(i, 32 - i);
    Pow2Of32();
    ShiftOut(x, Pow2(i), Pow2(32 - i));
  }

  /** Adds a byte above the i bits of the window. */
  method PutByte(hi: Word, lo: Word, i: nat, x: Byte) returns (hi': Word, lo': Word)
    requires i < 39 && Window(hi, lo) < Pow2(i)
    ensures Window(hi', lo') == Window(hi, lo) + Pow2(i) * x
  {
    hi', lo' := hi, lo;
    if i < 32 {
      Pow2Of32();
      Pow2Monotonic(i, 32);
      Shifted(x, i);
      hide Pow2, Shl, Shr;
      assert hi == 0;
      lo' := Or(lo, Shl(x, i), i);
      if i > 24 {
        hi' := Shr(x, 32 - i);
      } else {
        NothingOut(x, i);
      }
    } else {
      hide Pow2;
      Pow2Add(i - 32, 32);
      Pow2Of32();
      Below(hi, Pow2(i - 32), WORD);
      Regroup(Pow2(i), WORD, Pow2(i - 32), x);
      ByteShifted(x, i - 32);
      hide Shl;
      hi' := Or(hi, Shl(x, i - 32), i - 32);
    }
  }

  lemma NothingOut(x: Byte, i: nat)
    requires i <= 24
    ensures Shr(x, 32 - i) == 0
  {
    Pow2Of8();
    Pow2Monotonic(8, 32 - i);
    hide Pow2;
    Division(x, 0, x, Pow2(32 - i));
  }

  lemma ByteShifted(x: Byte, i: nat)
    requires i <= 24
    ensures Shl(x, i) == Pow2(i) * x && Shl(x, i) % Pow2(i) == 0
  {
    hide Pow2, Shl, Shr;
    Shifted(x, i);
    NothingOut(x, i);
  }

  // ----- encoding -----

  function Sevenths(x: nat, j: nat): nat {
    if j == 0 then x else Sevenths(x, j - 1) / 7
  }

  /** The part of a block that goes to digit j as it is. */
  function Five(v: nat, j: nat): (f: nat)
    requires j < 5
    ensures f < 32
  {
    match j
    case 0 => Field(v, 1, 32)
    case 1 => Field(v, 0x80, 32)
    case 2 => Field(v, 0x8000, 32)
    case 3 => Field(v, 0x80_0000, 32)
    case _ => Field(v, 0x8000_0000, 32)
  }

  lemma DigitAt(v: nat, j: nat)
    requires j < 5
    ensures Digits(v)[j] == Digit(Five(v, j), Sevenths(Stars(v), j) % 7)
  {
    hide Digit, Field, Stars;
    var x := Stars(v);
    DivideTwice(x, 7, 7);
    DivideTwice(x, 49, 7);
    DivideTwice(x, 343, 7);
    assert Sevenths(x, 0) == x;
    assert Sevenths(x, 1) == x / 7;
    assert Sevenths(x, 2) == x / 49;
    assert Sevenths(x, 3) == x / 343;
    assert Sevenths(x, 4) == x / 2401;
  }

  /** The fields of a block, from the words. */
  lemma FieldsOfWords(hi: Word, lo: Word)
    ensures forall j :: 0 <= j < 4 ==> Five(Window(hi, lo), j) == Five(lo, j)
    ensures Five(Window(hi, lo), 4) == lo / 0x8000_0000 + 2 * (hi % 16)
    ensures Stars(Window(hi, lo)) == lo / 0x20 % 4 + 4 * (lo / 0x1000 % 8) + 32 * (lo / 0x10_0000 % 8)
                                     + 256 * (lo / 0x1000_0000 % 8) + 2048 * (hi / 16 % 8)
  {
    FieldAcross(hi, lo);
    FieldAbove(hi, lo);
    hide Window, Field;
    assert Window(hi, lo) == lo + WORD * hi by { WindowSum(hi, lo); }
    FieldBelow(lo, hi, 1, 32, 0x800_0000, WORD);
    FieldBelow(lo, hi, 0x20, 4, 0x200_0000, WORD);
    FieldBelow(lo, hi, 0x80, 32, 0x10_0000, WORD);
    FieldBelow(lo, hi, 0x1000, 8, 0x2_0000, WORD);
    FieldBelow(lo, hi, 0x8000, 32, 0x1000, WORD);
    FieldBelow(lo, hi, 0x10_0000, 8, 0x200, WORD);
    FieldBelow(lo, hi, 0x80_0000, 32, 0x10, WORD);
    FieldBelow(lo, hi, 0x1000_0000, 8, 2, WORD);
    FieldIs(lo);
  }

  lemma WindowSum(hi: Word, lo: Word)
    ensures Window(hi, lo) == lo + WORD * hi
  {
  }

  lemma FieldIs(lo: nat)
    ensures Field(lo, 0x20, 4) == lo / 0x20 % 4 && Field(lo, 0x1000, 8) == lo / 0x1000 % 8
    ensures Field(lo, 0x10_0000, 8) == lo / 0x10_0000 % 8 && Field(lo, 0x1000_0000, 8) == lo / 0x1000_0000 % 8
  {
  }

  lemma FieldAcross(hi: Word, lo: Word)
    ensures Field(Window(hi, lo), 0x8000_0000, 32) == lo / 0x8000_0000 + 2 * (hi % 16)
  {
    DivideMultiple(lo, 2 * hi, 0x8000_0000);
    Division(lo / 0x8000_0000 + 2 * hi, hi / 16, lo / 0x8000_0000 + 2 * (hi % 16), 32);
  }

  lemma FieldAbove(hi: Word, lo: Word)
    ensures Field(Window(hi, lo), 0x10_0000_0000, 8) == hi / 16 % 8
  {
    Division(Window(hi, lo), hi, lo, WORD);
    DivideTwice(Window(hi, lo), WORD, 16);
  }

  /** Writes the five digits of a block. */
  method EncodeBlock(dest: array<Byte>, w: nat, hi: Word, lo: Word)
    requires w + 5 <= dest.Length
    modifies dest
    ensures dest[w..w + 5] == Digits(Window(hi, lo))
    ensures dest[..w] == old(dest[..w])
  {
    hide Digits, Digit, Field, Stars, Window;
    ghost var v := Window(hi, lo);
    FieldsOfWords(hi, lo);
    FirstFives(lo);
    dest[w] := lo % 0x20;
    dest[w + 1] := lo / 0x80 % 0x20;
    dest[w + 2] := lo / 0x8000 % 0x20;
    dest[w + 3] := lo / 0x80_0000 % 0x20;
    dest[w + 4] := lo / 0x8000_0000 + 2 * (hi % 16);
    var x := lo / 0x20 % 4 + 4 * (lo / 0x1000 % 8) + 32 * (lo / 0x10_0000 % 8)
             + 256 * (lo / 0x1000_0000 % 8) + 2048 * (hi / 16 % 8);
    assert forall j :: 0 <= j < 5 ==> dest[w + j] == Five(v, j);
    hide Five;
    var y := 0;
    while y < 5
      invariant 0 <= y <= 5 && x == Sevenths(Stars(v), y)
      invariant forall j :: 0 <= j < y ==> dest[w + j] == Digits(v)[j]
      invariant forall j :: y <= j < 5 ==> dest[w + j] == Five(v, j)
      invariant dest[..w] == old(dest[..w])
    {
      DigitAt(v, y);
      DigitSum(Five(v, y), x % 7);
      dest[w + y] := dest[w + y] + 0x20 + 32 * (x % 7);
      x := x / 7;
      y := y + 1;
    }
  }

  lemma FirstFives(lo: nat)
    ensures Five(lo, 0) == lo % 0x20 && Five(lo, 1) == lo / 0x80 % 0x20 && Five(lo, 2) == lo / 0x8000 % 0x20
    ensures Five(lo, 3) == lo / 0x80_0000 % 0x20
  {
  }

  lemma DigitSum(five: nat, seven: nat)
    requires five < 32 && seven < 7
    ensures Digit(five, seven) == five + 0x20 + 32 * seven
  {
  }

  /** The code of what is left: i bits in the window and the rest of the input. */
  function Left(w: nat, i: nat, rest: seq<Byte>): seq<Byte> {
    Code(w + Pow2(i) * Value(rest), i + 8 * |rest|)
  }

  /** Reading a byte into the window does not change what is to be encoded. */
  lemma ByteRead(w: nat, i: nat, rest: seq<Byte>)
    requires rest != [] && w < Pow2(i)
    ensures Left(w, i, rest) == Left(w + Pow2(i) * rest[0], i + 8, rest[1..])
    ensures w + Pow2(i) * rest[0] < Pow2(i + 8)
  {
    hide Pow2, Code;
    Pow2Add(i, 8);
    Pow2Of8();
    ByteAndRest(w, Pow2(i), rest[0], Value(rest[1..]));
  }

  lemma ByteAndRest(w: nat, p: nat, x: Byte, v: nat)
    requires w < p
    ensures p * (x + 256 * v) == p * x + p * 256 * v
    ensures w + p * x < p * 256
  {
    var y: nat := x;
    Times(p, y + 1, 256);
  }

  /** A block in the window is encoded, and what is above it stays. */
  lemma BlockWritten(hi: Word, lo: Word, i: nat, rest: seq<Byte>)
    requires i >= 39 && Window(hi, lo) < Pow2(i)
    ensures Left(Window(hi, lo), i, rest) == Digits(Window(hi, lo)) + Left(Window(0, hi / 128), i - 39, rest)
    ensures Window(0, hi / 128) < Pow2(i - 39)
  {
    hide Digits, Pow2, Value;
    var w, v := Window(hi, lo), Value(rest);
    Pow2Add(39, i - 39);
    Pow2Of39();
    assert Pow2(i) * v == BLOCK * (Pow2(i - 39) * v) by {
      assert BLOCK * Pow2(i - 39) * v == BLOCK * (Pow2(i - 39) * v);
    }
    HighBits(w, Pow2(i - 39) * v);
    DivideMultiple(w, Pow2(i - 39) * v, BLOCK);
    AboveBlock(hi, lo);
    QuotientBelow(w, Pow2(i - 39), BLOCK);
  }

  lemma AboveBlock(hi: Word, lo: Word)
    ensures Window(hi, lo) / BLOCK == hi / 128
  {
    Division(Window(hi, lo), hi, lo, WORD);
    DivideTwice(Window(hi, lo), WORD, 128);
  }

  /** Appends a block to what has been written. */
  method AppendBlock(dest: array<Byte>, n: nat, hi: Word, lo: Word)
    requires n + 5 <= dest.Length
    modifies dest
    ensures dest[..n + 5] == old(dest[..n]) + Digits(Window(hi, lo))
  {
    hide *;
    EncodeBlock(dest, n, hi, lo);
    assert dest[..n + 5] == dest[..n] + dest[n..n + 5];
  }

  /** Encodes a string. The buffer must hold whole blocks, as an incomplete last block is written
      in full although only a part of it is used. */
  method Encode(dest: array<Byte>, src: seq<Byte>) returns (n: nat)
    requires dest.Length >= (8 * |src| + 38) / 39 * 5
    modifies dest
    ensures n <= dest.Length && dest[..n] == Code(Value(src), 8 * |src|)
  {
    hide *;
    var hi: Word, lo: Word := 0, 0;
    var i, k := 0, 0;
    ghost var blocks := 0;
    n := 0;
    Start(src);
    assert dest[..0] + Left(0, 0, src) == Left(0, 0, src);
    while k < |src|
      invariant 0 <= k <= |src| && 0 <= i < 39 && Window(hi, lo) < Pow2(i)
      invariant n == 5 * blocks && 39 * blocks + i == 8 * k && n <= dest.Length
      invariant dest[..n] + Left(Window(hi, lo), i, src[k..]) == Code(Value(src), 8 * |src|)
    {
      ByteRead(Window(hi, lo), i, src[k..]);
      assert src[k..][0] == src[k] && src[k..][1..] == src[k + 1..];
      hi, lo := PutByte(hi, lo, i, src[k]);
      k, i := k + 1, i + 8;
      if i >= 39 {
        BlockWritten(hi, lo, i, src[k..]);
        Enough(blocks, 8 * |src|);
        Assoc(dest[..n], Digits(Window(hi, lo)), Left(Window(0, hi / 128), i - 39, src[k..]));
        AppendBlock(dest, n, hi, lo);
        n, blocks := n + 5, blocks + 1;
        lo := hi / 128;
        hi := 0;
        i := i - 39;
      }
    }
    assert src[k..] == [];
    Finish(Window(hi, lo), i);
    if i > 0 {
      Enough(blocks, 8 * |src|);
      ghost var before := dest[..n];
      AppendBlock(dest, n, hi, lo);
      var m := (i + 8) / 8;
      assert dest[..n + m] == dest[..n + 5][..n + m] == before + Digits(Window(hi, lo))[..m];
      n := n + m;
    } else {
      assert dest[..n] + [] == dest[..n];
    }
  }

  lemma Start(src: seq<Byte>)
    ensures Window(0, 0) == 0 < Pow2(0) && src[0..] == src
    ensures Left(0, 0, src) == Code(Value(src), 8 * |src|)
  {
    assert src[0..] == src;
    assert Pow2(0) == 1;
  }

  /** There is room for another block while source bits are left for it. */
  lemma Enough(blocks: nat, bits: nat)
    requires 39 * blocks < bits
    ensures 5 * blocks + 5 <= (bits + 38) / 39 * 5
  {
  }

  lemma Finish(w: nat, i: nat)
    requires i < 39
    ensures Left(w, i, []) == if i == 0 then [] else Digits(w)[..i / 8 + 1]
  {
    assert Value([]) == 0;
    assert Pow2(i) * 0 == 0;
  }

  // ----- decoding -----

  /** Puts the number written in base 7 in its places. */
  method PlaceStars(h: Word, l: Word, x: nat, ghost ds: seq<Byte>) returns (h': Word, l': Word)
    requires Readable(ds) && x == Sevens(ds) && Window(h, l) == Fives(ds)
    ensures Window(h', l') == Joined(ds) && h' < 128
  {
    FivesInWords(h, l, ds);
    l' := l + 0x20 * (x % 4) + 0x1000 * (x / 4 % 8) + 0x10_0000 * (x / 32 % 8) + 0x1000_0000 * (x / 256 % 8);
    h' := h + 16 * (x / 2048 % 8);
  }

  lemma FivesInWords(h: Word, l: Word, ds: seq<Byte>)
    requires Window(h, l) == Fives(ds)
    ensures h < 16 && l <= 31 + 31 * 0x80 + 31 * 0x8000 + 31 * 0x80_0000 + 0x8000_0000
  {
    hide Lower;
    var e := Lower(Part(ds, 4));
    var low := Lower(Part(ds, 0)) + 0x80 * Lower(Part(ds, 1)) + 0x8000 * Lower(Part(ds, 2))
               + 0x80_0000 * Lower(Part(ds, 3));
    SameQuotient(h, l, e / 2, low + 0x8000_0000 * (e % 2), WORD);
  }

  lemma ZeroDigit()
    ensures Lower(0x20) == 0 && Upper(0x20) == 0
  {
  }

  lemma PartAt(src: seq<Byte>, p: nat, n: nat, j: nat)
    requires p + n <= |src| && j < 5
    ensures Part(src[p..p + n], j) == if j < n then src[p + j] else 0x20
  {
  }

  /** The number of digits of the block at p. */
  function Count(src: seq<Byte>, p: nat): nat
    requires p <= |src|
  {
    if |src| - p < 5 then |src| - p else 5
  }

  /** Reads one block, of at most five digits. Each byte is asserted to be a digit. */
  method DecodeBlock(src: seq<Byte>, p: nat) returns (h: Word, l: Word, n: nat, failed: bool)
    requires p < |src|
    ensures n == Count(src, p)
    ensures failed <==> !Readable(src[p..p + n])
    ensures !failed ==> h < 128 && Window(h, l) == Joined(src[p..p + n]) && Window(h, l) < BLOCK
  {
    ZeroDigit();
    hide Joined, Spread, Lower, Upper;
    h, l, n, failed := 0, 0, Count(src, p), true;
    ghost var ds := src[p..p + n];
    PartAt(src, p, n, 0);
    PartAt(src, p, n, 1);
    PartAt(src, p, n, 2);
    PartAt(src, p, n, 3);
    PartAt(src, p, n, 4);
    hide Part;
    assert forall j :: 0 <= j < n ==> ds[j] == src[p + j];
    if src[p] < 0x20 { return; }
    l := Lower(src[p]);
    var x := Upper(src[p]);
    if n >= 2 {
      if src[p + 1] < 0x20 { return; }
      l := l + 0x80 * Lower(src[p + 1]);
      x := x + 7 * Upper(src[p + 1]);
      if n >= 3 {
        if src[p + 2] < 0x20 { return; }
        l := l + 0x8000 * Lower(src[p + 2]);
        x := x + 49 * Upper(src[p + 2]);
        if n >= 4 {
          if src[p + 3] < 0x20 { return; }
          l := l + 0x80_0000 * Lower(src[p + 3]);
          x := x + 343 * Upper(src[p + 3]);
          if n == 5 {
            if src[p + 4] < 0x20 { return; }
            l := l + 0x8000_0000 * (Lower(src[p + 4]) % 2);
            h := Lower(src[p + 4]) / 2;
            x := x + 2401 * Upper(src[p + 4]);
          }
        }
      }
    }
    h, l := PlaceStars(h, l, x, ds);
    failed := false;
  }

  /** Adds a block above the i bits of the window. */
  method PutBlock(hi: Word, lo: Word, i: nat, h: Word, l: Word) returns (hi': Word, lo': Word)
    requires i < 8 && Window(hi, lo) < Pow2(i) && h < 128
    ensures Window(hi', lo') == Stacked(Window(hi, lo), i, Window(h, l))
  {
    Pow2Of8();
    Pow2Monotonic(i, 8);
    assert hi == 0 && lo < Pow2(i);
    Shifted(l, i);
    ByteShifted(h, i);
    ShiftedOut(l, i);
    hide Pow2, Shl, Shr;
    lo' := Or(lo, Shl(l, i), i);
    hi' := Shl(h, i);
    if i > 0 {
      hi' := Or(Shr(l, 32 - i), hi', i);
    }
    assert Pow2(i) * Window(h, l) == WORD * (Pow2(i) * h) + Pow2(i) * l by { Spill(Pow2(i), h, l); }
  }

  lemma Spill(p: nat, h: Word, l: Word)
    ensures p * Window(h, l) == WORD * (p * h) + p * l
  {
    assert p * (h * WORD + l) == p * (h * WORD) + p * l;
    assert p * (h * WORD) == WORD * (p * h);
  }

  lemma ShiftedOut(l: Word, i: nat)
    requires i <= 32
    ensures Shr(l, 32 - i) < Pow2(i)
    ensures i == 0 ==> Shr(l, 32) == 0
  {
    hide Pow2;
    Pow2Add(32 - i, i);
    Pow2Of32();
    QuotientBelow(l, Pow2(i), Pow2(32 - i));
    if i == 0 {
      Division(l, 0, l, Pow2(32));
    }
  }

  /** The window moved down by a byte. */
  lemma WindowDown(hi: Word, lo: Word)
    ensures lo / 256 + 0x100_0000 * (hi % 256) < WORD
    ensures Window(hi / 256, lo / 256 + 0x100_0000 * (hi % 256)) == Window(hi, lo) / 256
    ensures Window(hi, lo) % 256 == lo % 256
  {
    var q := Window(hi / 256, lo / 256 + 0x100_0000 * (hi % 256));
    Division(Window(hi, lo), q, lo % 256, 256);
  }

  /** Puts out the whole bytes in the window. */
  method PutOut(dest: array<Byte>, d: nat, hi: Word, lo: Word, i: nat) returns (d': nat, hi': Word, lo': Word, i': nat)
    requires d + i / 8 <= dest.Length
    modifies dest
    ensures d' == d + i / 8 && i' == i % 8
    ensures dest[..d'] == old(dest[..d]) + Bytes(Window(hi, lo), i / 8)
    ensures Window(hi', lo') == Above(Window(hi, lo), i / 8)
  {
    hide *;
    d', hi', lo', i' := d, hi, lo, i;
    ghost var all := dest[..d] + Bytes(Window(hi, lo), i / 8);
    while i' >= 8
      invariant i' % 8 == i % 8 && d' + i' / 8 == d + i / 8
      invariant dest[..d'] + Bytes(Window(hi', lo'), i' / 8) == all
      invariant Above(Window(hi', lo'), i' / 8) == Above(Window(hi, lo), i / 8)
    {
      WindowDown(hi', lo');
      BytesDown(Window(hi', lo'), i' / 8);
      assert (i' - 8) / 8 == i' / 8 - 1;
      Assoc(dest[..d'], [lo' % 256], Bytes(Window(hi', lo') / 256, i' / 8 - 1));
      ghost var before := dest[..d'];
      dest[d'] := lo' % 256;
      assert dest[..d' + 1] == before + [lo' % 256];
      d' := d' + 1;
      hi', lo' := hi' / 256, lo' / 256 + 0x100_0000 * (hi' % 256);
      i' := i' - 8;
    }
    BytesNone(Window(hi', lo'));
    assert dest[..d'] + [] == dest[..d'];
  }

  /** The value of n digits at p. */
  ghost function Block(src: seq<Byte>, p: nat, n: nat): nat
    requires Readable(src) && p + n <= |src|
  {
    Joined(src[p..p + n])
  }

  /** One block of the digits that are left. */
  lemma DecodedBlock(src: seq<Byte>, p: nat, n: nat, w: nat, i: nat, v: nat, bits: nat)
    requires p < |src| && Readable(src) && n == Count(src, p)
    requires v == Stacked(w, i, Block(src, p, n)) && bits == i + 8 * n - 1
    ensures ReadableTail(src, p) && ReadableTail(src, p + n)
    ensures Decoded(src[p..], w, i) ==
            Bytes(v, bits / 8) + if n < 5 then [] else Decoded(src[p + n..], Above(v, bits / 8), bits % 8)
  {
    hide Bytes, Above, Joined, Stacked;
    assert src[p..][..n] == src[p..p + n];
    if n == 5 {
      assert src[p..][5..] == src[p + n..];
    }
  }

  /** After a full block fewer than 8 bits are left. */
  lemma LeftOver(w: nat, i: nat, block: nat)
    requires w < Pow2(i) && block < BLOCK
    ensures Above(Stacked(w, i, block), (i + 39) / 8) < Pow2((i + 39) % 8)
  {
    Pow2Of39();
    hide Pow2, Above;
    BlockBounds(block, 0, 39, w, i, (i + 39) / 8, (i + 39) % 8);
  }

  lemma DecodedNone(w: nat, i: nat)
    ensures Decoded([], w, i) == []
  {
  }

  ghost predicate ReadableTail(src: seq<Byte>, p: nat) {
    p <= |src| && Readable(src[p..])
  }

  /** What has been put out, followed by what the remaining digits give, is the result. */
  ghost predicate Decoding(src: seq<Byte>, p: nat, out: seq<Byte>, w: nat, i: nat)
    requires Readable(src)
  {
    && i < 8 && w < Pow2(i) && ReadableTail(src, p)
    && out + Decoded(src[p..], w, i) == Decoded(src, 0, 0)
  }

  lemma DecodingStart(src: seq<Byte>)
    requires Readable(src)
    ensures Decoding(src, 0, [], Window(0, 0), 0)
  {
    hide Decoded;
    assert src[0..] == src && Pow2(0) == 1;
  }

  lemma DecodingEnd(src: seq<Byte>, out: seq<Byte>, w: nat, i: nat)
    requires Readable(src) && Decoding(src, |src|, out, w, i)
    ensures out == Decoded(src, 0, 0)
  {
    assert src[|src|..] == [];
    DecodedNone(w, i);
    assert out + [] == out;
  }

  lemma DecodingStep(src: seq<Byte>, p: nat, n: nat, out: seq<Byte>, w: nat, i: nat, block: nat, v: nat, m: nat)
    requires Readable(src) && Decoding(src, p, out, w, i) && p < |src|
    requires n == Count(src, p) && block == Block(src, p, n) && block < BLOCK
    requires v == Stacked(w, i, block) && m == (i + 8 * n - 1) / 8
    ensures |out| + m <= |Decoded(src, 0, 0)|
    ensures n < 5 ==> out + Bytes(v, m) == Decoded(src, 0, 0)
    ensures n == 5 ==> Decoding(src, p + n, out + Bytes(v, m), Above(v, m), (i + 8 * n - 1) % 8)
  {
    hide Decoded, Bytes, Above, Block, Stacked, Pow2, Readable;
    DecodedBlock(src, p, n, w, i, v, i + 8 * n - 1);
    if n == 5 {
      LeftOver(w, i, block);
      DecodingOn(src, p + n, out, Bytes(v, m), Decoded(src[p..], w, i), Above(v, m), (i + 8 * n - 1) % 8);
    } else {
      assert Bytes(v, m) + [] == Bytes(v, m);
    }
  }

  lemma DecodingOn(src: seq<Byte>, p: nat, out: seq<Byte>, more: seq<Byte>, rest: seq<Byte>, w: nat, i: nat)
    requires Readable(src) && ReadableTail(src, p) && i < 8 && w < Pow2(i)
    requires out + rest == Decoded(src, 0, 0) && rest == more + Decoded(src[p..], w, i)
    ensures Decoding(src, p, out + more, w, i) && |out| + |more| <= |Decoded(src, 0, 0)|
  {
    hide Decoded;
    Assoc(out, more, Decoded(src[p..], w, i));
  }

  /** The whole blocks before the first byte that is not a digit, or everything. */
  function Sound(src: seq<Byte>): (q: nat)
    ensures q <= |src| && Readable(src[..q])
    ensures q == |src| <==> Readable(src)
    ensures q < |src| ==> q % 5 == 0 && !Readable(src[q..q + Count(src, q)])
  {
    SoundFrom(src, 0)
  }

  function SoundFrom(src: seq<Byte>, p: nat): (q: nat)
    requires p <= |src| && p % 5 == 0 && Readable(src[..p])
    ensures p <= q <= |src| && Readable(src[..q])
    ensures q == |src| <==> Readable(src)
    ensures q < |src| ==> q % 5 == 0 && !Readable(src[q..q + Count(src, q)])
    decreases |src| - p
  {
    var n := Count(src, p);
    assert src[..p + n] == src[..p] + src[p..p + n];
    if p == |src| then assert src[..p] == src; p
    else if !Readable(src[p..p + n]) then p
    else if n < 5 then assert src[..p + n] == src; p + n
    else SoundFrom(src, p + 5)
  }

  /** Decodes any string into a buffer that can hold as much as its length allows for. The assertions
      hold exactly for strings of digits; otherwise one fails after the whole blocks before the
      first other byte have been decoded. */
  method Decode(dest: array<Byte>, src: seq<Byte>) returns (d: nat, failed: bool)
    requires dest.Length >= DigitBits(|src|) / 8
    modifies dest
    ensures failed <==> !Readable(src)
    ensures !failed ==> d <= dest.Length && dest[..d] == Decoded(src, 0, 0)
    ensures failed ==> d <= dest.Length && dest[..d] == Decoded(src[..Sound(src)], 0, 0)
  {
    hide *;
    hide Sound;
    var hi: Word, lo: Word := 0, 0;
    var i, p := 0, 0;
    var more := true;
    d, failed := 0, false;
    ghost var good := src[..Sound(src)];
    DecodingStart(good);
    RoomFor(src, good);
    assert dest[..0] == [];
    while more && p < |src|
      invariant 0 <= p <= |good| <= |src| && d <= dest.Length && (more ==> p % 5 == 0) && !failed
      invariant if more then Decoding(good, p, dest[..d], Window(hi, lo), i)
                else good == src && dest[..d] == Decoded(good, 0, 0)
    {
      SmallWindow(good, p, dest[..d], Window(hi, lo), i);
      var h, l, n, bad := DecodeBlock(src, p);
      GoodBlock(src, p, good, n);
      if bad {
        failed := true;
        DecodingEnd(good, dest[..d], Window(hi, lo), i);
        return;
      }
      ghost var w := Window(hi, lo);
      hi, lo := PutBlock(hi, lo, i, h, l);
      DecodingStep(good, p, n, dest[..d], w, i, Window(h, l), Window(hi, lo), (i + 8 * n - 1) / 8);
      d, hi, lo, i := PutOut(dest, d, hi, lo, i + 8 * n - 1);
      more := n == 5;
      p := p + n;
    }
    if more {
      DecodingEnd(good, dest[..d], Window(hi, lo), i);
    }
  }

  /** There is room for what is decoded. */
  lemma RoomFor(src: seq<Byte>, good: seq<Byte>)
    requires good == src[..Sound(src)]
    ensures Readable(good) && |good| <= |src| && |Decoded(good, 0, 0)| <= DigitBits(|src|) / 8
    ensures |good| == |src| ==> good == src
  {
    hide Decoded;
    DecodedLength(good, 0, 0);
  }

  /** The assertions hold in the blocks before the first byte that is not a digit, and only there. */
  lemma GoodBlock(src: seq<Byte>, p: nat, good: seq<Byte>, n: nat)
    requires good == src[..Sound(src)] && p <= |good| && p < |src| && p % 5 == 0 && n == Count(src, p)
    ensures p == |good| ==> !Readable(src[p..p + n]) && !Readable(src)
    ensures Readable(good) && 1 <= n <= 5
    ensures p < |good| ==> n == Count(good, p) && Readable(src[p..p + n]) && p + n <= |good|
    ensures p < |good| ==> Block(good, p, n) == Joined(src[p..p + n])
    ensures p < |good| && n < 5 ==> good == src
  {
    hide Joined, Sound;
    var q := Sound(src);
    if p < q {
      assert q < |src| ==> p + 5 <= q by { NextMultiple(p, q); }
      assert p + n <= q;
      SamePart(src, good, q, p, n);
    }
  }

  lemma NextMultiple(p: nat, q: nat)
    requires p % 5 == 0 && p < q
    ensures q % 5 == 0 ==> p + 5 <= q
  {
  }

  lemma SamePart(src: seq<Byte>, good: seq<Byte>, q: nat, p: nat, n: nat)
    requires q <= |src| && good == src[..q] && p + n <= q && Readable(good)
    ensures src[p..p + n] == good[p..p + n] && Readable(src[p..p + n])
  {
    var a, b := src[p..p + n], good[p..p + n];
    assert forall k :: 0 <= k < n ==> a[k] == src[p + k] && b[k] == good[p + k];
    assert a == b;
  }

  /** A byte that is not a digit is not ignored. */
  method DecodeInvalid() returns (failed: bool)
    ensures failed
  {
    var src: seq<Byte> := [0x1f];
    var dest := new Byte[1];
    assert !Readable(src) by { assert src[0] < 0x20; }
    hide *;
    var _, f := Decode(dest, src);
    failed := f;
  }

  lemma SmallWindow(src: seq<Byte>, p: nat, out: seq<Byte>, w: nat, i: nat)
    requires Readable(src) && Decoding(src, p, out, w, i)
    ensures i < 8 && w < Pow2(i)
  {
  }

  /** Decoding what has been encoded gives the original string. */
  method EncodeDecode(src: seq<Byte>) returns (code: seq<Byte>, result: seq<Byte>)
    ensures forall k :: 0 <= k < |code| ==> 0x20 <= code[k] <= 0xff
    ensures |code| <= (8 * |src| + 38) / 39 * 5
    ensures result == src
  {
    hide *;
    hide Code, Decoded, Value;
    var buffer := new Byte[(8 * |src| + 38) / 39 * 5];
    var n := Encode(buffer, src);
    code := buffer[..n];
    RoundTrip(src);
    CodeLength(Value(src), 8 * |src|);
    DecodedLength(code, 0, 0);
    var dest := new Byte[|src|];
    var d, _ := Decode(dest, code);
    result := dest[..d];
    Digits8(code);
  }

  lemma Digits8(code: seq<Byte>)
    requires Readable(code)
    ensures forall k :: 0 <= k < |code| ==> 0x20 <= code[k] <= 0xff
  {
  }
}
