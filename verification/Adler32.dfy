/**
 The Adler-32 checksum (sections 2.2 and 8.2 of RFC 1950): sums are reduced only once in a
 block that is just short enough for 32 bits, and bytes are added sixteen at a time.
 */
module Adler32 {
  import opened Basics
  import opened Powers

  const BASE := 65521
  const NMAX := 5552

  datatype Sums = Sums(s1: nat, s2: nat)

  /** The definition of the checksum: both sums are reduced with every byte. */
  function Checksum(s: Sums, data: seq<Byte>): Sums {
    if data == [] then s
    else
      var n := |data| - 1;
      var t := Checksum(s, data[..n]);
      var s1 := (t.s1 + data[n]) % BASE;
      Sums(s1, (t.s2 + s1) % BASE)
  }

  /** The same without reduction. */
  function Exact(s: Sums, data: seq<Byte>): Sums {
    if data == [] then s
    else
      var n := |data| - 1;
      var t := Exact(s, data[..n]);
      Sums(t.s1 + data[n], t.s2 + t.s1 + data[n])
  }

  function Reduced(s: Sums): Sums {
    Sums(s.s1 % BASE, s.s2 % BASE)
  }

  lemma ReduceSum(a: nat, b: nat, c: nat)
    requires a % BASE == b % BASE
    ensures (a + c) % BASE == (b + c) % BASE
  {
    DivideMultiple(a % BASE + c, a / BASE, BASE);
    DivideMultiple(b % BASE + c, b / BASE, BASE);
  }

  /** The sum of the bytes. */
  function Sum(data: seq<Byte>): nat {
    if data == [] then 0 else Sum(data[..|data| - 1]) + data[|data| - 1]
  }

  /** The sum of the bytes, the last one counted once, the one before it twice and so on. */
  function Weighted(data: seq<Byte>): nat {
    if data == [] then 0 else Weighted(data[..|data| - 1]) + Sum(data)
  }

  lemma {:induction false} ExactIs(s: Sums, data: seq<Byte>)
    ensures Exact(s, data) == Sums(s.s1 + Sum(data), s.s2 + |data| * s.s1 + Weighted(data))
  {
    if data != [] {
      var n := |data| - 1;
      ExactIs(s, data[..n]);
      assert (n + 1) * s.s1 == n * s.s1 + s.s1;
    }
  }

  /** It does not matter when the sums are reduced. */
  lemma {:induction false} DelayedReduction(s: Sums, t: Sums, data: seq<Byte>)
    requires Reduced(s) == Reduced(t)
    ensures Reduced(Exact(s, data)) == Reduced(Checksum(t, data))
    ensures data != [] ==> Checksum(t, data) == Reduced(Checksum(t, data))
  {
    if data != [] {
      var n := |data| - 1;
      DelayedReduction(s, t, data[..n]);
      var e, c, x := Exact(s, data[..n]), Checksum(t, data[..n]), data[n];
      ReduceSum(e.s1, c.s1, x);
      var s1 := (c.s1 + x) % BASE;
      ReduceSum(e.s1 + x, s1, e.s2);
      ReduceSum(e.s2, c.s2, s1);
      assert (e.s2 + e.s1 + x) % BASE == (c.s2 + s1) % BASE;
    }
  }

  lemma {:induction false} ChecksumConcat(s: Sums, a: seq<Byte>, b: seq<Byte>)
    ensures Checksum(s, a + b) == Checksum(Checksum(s, a), b)
    ensures Exact(s, a + b) == Exact(Exact(s, a), b)
  {
    if b == [] {
      assert a + b == a;
    } else {
      var n := |b| - 1;
      ChecksumConcat(s, a, b[..n]);
      assert (a + b)[..|a + b| - 1] == a + b[..n];
    }
  }

  /** Sums after n bytes, from sums of at most 16 bits each. */
  lemma {:induction false} ExactBound(s: Sums, data: seq<Byte>)
    requires s.s1 <= 0xffff && s.s2 <= 0xffff
    ensures Exact(s, data).s1 <= 0xffff + 255 * |data|
    ensures 2 * Exact(s, data).s2 <= 2 * 0xffff * (|data| + 1) + 255 * (|data| * (|data| + 1))
  {
    if data != [] {
      var n := |data| - 1;
      ExactBound(s, data[..n]);
      NextSquare(n);
    }
  }

  lemma NextSquare(n: nat)
    ensures (n + 1) * (n + 2) == n * (n + 1) + 2 * (n + 1)
  {
  }

  lemma NextProduct(a: nat, n: nat)
    ensures a * (n + 1) == a * n + a
  {
  }

  /** In a block of at most NMAX bytes nothing overflows. */
  lemma BlockFits(s: Sums, data: seq<Byte>)
    requires s.s1 <= 0xffff && s.s2 <= 0xffff && |data| <= NMAX
    ensures Exact(s, data).s1 < 0x1_0000_0000 && Exact(s, data).s2 < 0x1_0000_0000
  {
    ExactBound(s, data);
    var n := |data|;
    assert n * (n + 1) <= NMAX * (NMAX + 1) by {
      Times(n, n + 1, NMAX + 1);
      Times(NMAX + 1, n, NMAX);
    }
  }

  /** A longer block could overflow: NMAX is the largest bound for reduced sums. */
  lemma NmaxIsLargest(data: seq<Byte>)
    requires |data| == NMAX + 1 && forall i :: 0 <= i < |data| ==> data[i] == 255
    ensures Exact(Sums(BASE - 1, BASE - 1), data).s2 >= 0x1_0000_0000
  {
    AllOnes(Sums(BASE - 1, BASE - 1), data);
  }

  lemma {:induction false} AllOnes(s: Sums, data: seq<Byte>)
    requires forall i :: 0 <= i < |data| ==> data[i] == 255
    ensures Exact(s, data).s1 == s.s1 + 255 * |data|
    ensures 2 * Exact(s, data).s2 == 2 * s.s2 + 2 * (s.s1 * |data|) + 255 * (|data| * (|data| + 1))
  {
    if data != [] {
      var n := |data| - 1;
      AllOnes(s, data[..n]);
      NextSquare(n);
      NextProduct(s.s1, n);
    }
  }

  // ----- the implementation -----

  /** The sums of a block that started at `start` with sums s, after the bytes before i. */
  ghost predicate In(s: Sums, data: seq<Byte>, start: nat, i: nat, s1: nat, s2: nat) {
    start <= i <= |data| && Sums(s1, s2) == Exact(s, data[start..i])
  }

  method Do1(data: seq<Byte>, i: nat, a: Word, b: Word, ghost s: Sums, ghost start: nat) returns (s1: Word, s2: Word)
    requires In(s, data, start, i, a, b) && i < |data| && i + 1 <= start + NMAX && s.s1 <= 0xffff && s.s2 <= 0xffff
    ensures In(s, data, start, i + 1, s1, s2)
  {
    BlockFits(s, data[start..i + 1]);
    assert data[start..i + 1][..i - start] == data[start..i];
    s1 := a + data[i];
    s2 := b + s1;
  }

  method Do2(data: seq<Byte>, i: nat, a: Word, b: Word, ghost s: Sums, ghost start: nat) returns (s1: Word, s2: Word)
    requires In(s, data, start, i, a, b) && i + 2 <= |data| && i + 2 <= start + NMAX && s.s1 <= 0xffff && s.s2 <= 0xffff
    ensures In(s, data, start, i + 2, s1, s2)
  {
    hide *;
    s1, s2 := Do1(data, i, a, b, s, start);
    s1, s2 := Do1(data, i + 1, s1, s2, s, start);
  }

  method Do4(data: seq<Byte>, i: nat, a: Word, b: Word, ghost s: Sums, ghost start: nat) returns (s1: Word, s2: Word)
    requires In(s, data, start, i, a, b) && i + 4 <= |data| && i + 4 <= start + NMAX && s.s1 <= 0xffff && s.s2 <= 0xffff
    ensures In(s, data, start, i + 4, s1, s2)
  {
    hide *;
    s1, s2 := Do2(data, i, a, b, s, start);
    s1, s2 := Do2(data, i + 2, s1, s2, s, start);
  }

  method Do8(data: seq<Byte>, i: nat, a: Word, b: Word, ghost s: Sums, ghost start: nat) returns (s1: Word, s2: Word)
    requires In(s, data, start, i, a, b) && i + 8 <= |data| && i + 8 <= start + NMAX && s.s1 <= 0xffff && s.s2 <= 0xffff
    ensures In(s, data, start, i + 8, s1, s2)
  {
    hide *;
    s1, s2 := Do4(data, i, a, b, s, start);
    s1, s2 := Do4(data, i + 4, s1, s2, s, start);
  }

  method Do16(data: seq<Byte>, i: nat, a: Word, b: Word, ghost s: Sums, ghost start: nat) returns (s1: Word, s2: Word)
    requires In(s, data, start, i, a, b) && i + 16 <= |data| && i + 16 <= start + NMAX && s.s1 <= 0xffff
             && s.s2 <= 0xffff
    ensures In(s, data, start, i + 16, s1, s2)
  {
    hide *;
    s1, s2 := Do8(data, i, a, b, s, start);
    s1, s2 := Do8(data, i + 8, s1, s2, s, start);
  }

  /** A block of k bytes, without reduction. */
  method Block(data: seq<Byte>, start: nat, size: nat, a: Word, b: Word) returns (s1: Word, s2: Word)
    requires start + size <= |data| && size <= NMAX && a <= 0xffff && b <= 0xffff
    ensures In(Sums(a, b), data, start, start + size, s1, s2)
  {
    ghost var s := Sums(a, b);
    s1, s2 := a, b;
    assert data[start..start] == [];
    assert In(s, data, start, start, s1, s2);
    var k, i := size, start;
    hide In, Exact;
    while k >= 16
      invariant 0 <= k <= size && i + k == start + size && In(s, data, start, i, s1, s2)
    {
      s1, s2 := Do16(data, i, s1, s2, s, start);
      i, k := i + 16, k - 16;
    }
    while k != 0
      invariant 0 <= k <= size && i + k == start + size && In(s, data, start, i, s1, s2)
    {
      s1, s2 := Do1(data, i, s1, s2, s, start);
      i, k := i + 1, k - 1;
    }
  }

  function Packed(s: Sums): Word
    requires s.s1 < 0x1_0000 && s.s2 < 0x1_0000
  {
    s.s2 * 0x1_0000 + s.s1
  }

  function Unpacked(adler: Word): (s: Sums)
    ensures s.s1 < 0x1_0000 && s.s2 < 0x1_0000 && Packed(s) == adler
  {
    Sums(adler % 0x1_0000, adler / 0x1_0000)
  }

  lemma {:induction false} ChecksumSmall(s: Sums, data: seq<Byte>)
    requires s.s1 < 0x1_0000 && s.s2 < 0x1_0000
    ensures Checksum(s, data).s1 < 0x1_0000 && Checksum(s, data).s2 < 0x1_0000
  {
  }

  /** The checksum of more data; without data it stays as it is, even if it was not reduced. */
  function Updated(adler: Word, data: seq<Byte>): Word {
    ChecksumSmall(Unpacked(adler), data);
    Packed(Checksum(Unpacked(adler), data))
  }

  /** Without a buffer, the checksum of no data at all; with one, the definition that reduces with
      every byte. */
  method Update(adler: Word, buf: Option<seq<Byte>>) returns (r: Word)
    ensures buf.None? ==> r == Updated(1, [])
    ensures buf.Some? ==> r == Updated(adler, buf.value)
  {
    if buf.None? {
      UpdateConcat(1, [], []);
      return 1;
    }
    var data := buf.value;
    var s1: Word, s2: Word := adler % 0x1_0000, adler / 0x1_0000 % 0x1_0000;
    ghost var s := Unpacked(adler);
    var len, i := |data|, 0;
    assert data[..0] == [];
    ChecksumSmall(s, data);
    hide In, Exact, Checksum;
    assert Checksum(s, []) == s by { NoData(s); }
    while len > 0
      invariant 0 <= len <= |data| && i + len == |data| && s1 <= 0xffff && s2 <= 0xffff
      invariant Sums(s1, s2) == Checksum(s, data[..i])
    {
      var k := if len < NMAX then len else NMAX;
      len := len - k;
      ghost var t := Sums(s1, s2);
      s1, s2 := Block(data, i, k, s1, s2);
      BlockReduced(s, data, i, k, t, s1, s2);
      i := i + k;
      s1 := s1 % BASE;
      s2 := s2 % BASE;
    }
    assert data[..i] == data;
    r := s2 * 0x1_0000 + s1;
  }

  lemma NoData(s: Sums)
    ensures Checksum(s, []) == s
  {
  }

  lemma BlockReduced(s: Sums, data: seq<Byte>, i: nat, k: nat, t: Sums, s1: nat, s2: nat)
    requires i + k <= |data| && k > 0 && t == Checksum(s, data[..i]) && In(t, data, i, i + k, s1, s2)
    ensures Sums(s1 % BASE, s2 % BASE) == Checksum(s, data[..i + k])
  {
    hide Exact, Checksum;
    assert data[..i + k] == data[..i] + data[i..i + k];
    ChecksumConcat(s, data[..i], data[i..i + k]);
    DelayedReduction(t, t, data[i..i + k]);
  }

  /** The checksum as section 8.2 of RFC 1950 has it: from 1 and 0, the sum of the bytes and the sum of
      all those sums, both modulo 65521 and the second in the upper half. */
  lemma ClosedForm(data: seq<Byte>)
    ensures Updated(1, data) == (|data| + Weighted(data)) % 65521 * 65536 + (1 + Sum(data)) % 65521
  {
    var s := Sums(1, 0);
    Repacked(s);
    assert Unpacked(1) == s;
    ChecksumSmall(s, data);
    hide Exact, Checksum, Sum, Weighted;
    ExactIs(s, data);
    DelayedReduction(s, s, data);
    if data == [] {
      NoData(s);
      assert Sum([]) == 0 && Weighted([]) == 0 by { NoSum(); }
    }
  }

  lemma NoSum()
    ensures Sum([]) == 0 && Weighted([]) == 0
  {
  }

  /** Checksums of consecutive pieces are that of the whole. */
  lemma UpdateConcat(adler: Word, a: seq<Byte>, b: seq<Byte>)
    ensures Updated(Updated(adler, a), b) == Updated(adler, a + b)
    ensures Updated(adler, []) == adler
  {
    hide Checksum;
    var s := Unpacked(adler);
    ChecksumSmall(s, a);
    ChecksumConcat(s, a, b);
    Repacked(Checksum(s, a));
    NoData(s);
  }

  lemma Repacked(s: Sums)
    requires s.s1 < 0x1_0000 && s.s2 < 0x1_0000
    ensures Unpacked(Packed(s)) == s
  {
    Division(s.s2 * 0x1_0000 + s.s1, s.s2, s.s1, 0x1_0000);
  }
}
