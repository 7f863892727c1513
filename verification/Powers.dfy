/** Machine words, powers of two and division, shared by the models that work with bits. */
module Powers {

  type Byte = x: int | 0 <= x < 256
  type Word = x: int | 0 <= x < 0x1_0000_0000
  type Long = x: int | 0 <= x < 0x1_0000_0000_0000_0000

  const WORD := 0x1_0000_0000

  function Pow2(k: nat): (r: nat)
    ensures r >= 1
  {
    if k == 0 then 1 else 2 * Pow2(k - 1)
  }

  lemma {:induction false} Pow2Monotonic(i: nat, j: nat)
    requires i <= j
    ensures Pow2(i) <= Pow2(j)
  {
    if i < j {
      Pow2Monotonic(i, j - 1);
    }
  }

  lemma {:induction false} Pow2Add(i: nat, j: nat)
    ensures Pow2(i + j) == Pow2(i) * Pow2(j)
  {
    if j > 0 {
      Pow2Add(i, j - 1);
    }
  }

  lemma Pow2Of8()
    ensures Pow2(5) == 32 && Pow2(7) == 128 && Pow2(8) == 256
  {
  }

  lemma Pow2Of16()
    ensures Pow2(12) == 0x1000 && Pow2(15) == 0x8000 && Pow2(16) == 0x1_0000
  {
    Pow2Of8();
  }

  lemma Pow2Of32()
    ensures Pow2(20) == 0x10_0000 && Pow2(23) == 0x80_0000 && Pow2(24) == 0x100_0000
    ensures Pow2(28) == 0x1000_0000 && Pow2(31) == 0x8000_0000 && Pow2(32) == 0x1_0000_0000
  {
    Pow2Of16();
  }

  lemma Pow2Of39()
    ensures Pow2(36) == 0x10_0000_0000 && Pow2(39) == 0x80_0000_0000
  {
    Pow2Of32();
  }

  lemma Times(d: nat, a: int, b: int)
    requires a <= b
    ensures d * a <= d * b
  {
  }

  /** The square of a difference of bytes. */
  lemma SmallDifference(d: int)
    requires -255 <= d <= 255
    ensures 0 <= d * d <= 65025
  {
    var e := if d < 0 then -d else d;
    assert d * d == e * e;
    Times(e, e, 255);
  }

  /** Division with remainder is unique. */
  lemma Division(a: nat, q: nat, r: nat, d: nat)
    requires a == d * q + r && r < d
    ensures a / d == q && a % d == r
  {
    SameQuotient(q, r, a / d, a % d, d);
  }

  lemma SameQuotient(q: int, r: int, s: int, t: int, d: nat)
    requires d * q + r == d * s + t && 0 <= r < d && 0 <= t < d
    ensures q == s && r == t
  {
    if q < s {
      Times(d, q + 1, s);
    } else if s < q {
      Times(d, s + 1, q);
    }
  }

  lemma DivideMultiple(a: nat, q: nat, d: nat)
    requires d > 0
    ensures (a + d * q) / d == a / d + q && (a + d * q) % d == a % d
  {
    Division(a + d * q, a / d + q, a % d, d);
  }

  lemma DivideTwice(a: nat, d: nat, e: nat)
    requires d > 0 && e > 0
    ensures d * e > 0 && a / d / e == a / (d * e)
    ensures a % (d * e) == a % d + d * (a / d % e)
  {
    var q, r := a / d, a % d;
    var t, s := q / e, q % e;
    Quotient(a, d);
    Nested(d, e, t, s);
    Times(d, s + 1, e);
    Division(a, t, d * s + r, d * e);
  }

  lemma Nested(d: nat, e: nat, t: int, s: int)
    ensures d * (e * t + s) == d * e * t + d * s && d * (s + 1) == d * s + d
  {
  }

  lemma Below(a: nat, b: nat, d: nat)
    requires d * a < d * b
    ensures a < b
  {
    if b <= a {
      Times(d, b, a);
    }
  }

  lemma QuotientBelow(a: nat, b: nat, d: nat)
    requires d > 0 && a < d * b
    ensures a / d < b
  {
    if b <= a / d {
      Times(d, b, a / d);
    }
  }

  /** A multiple of p below p q leaves room for a number below p. */
  lemma Room(low: nat, high: nat, p: nat, q: nat)
    requires low < p && high % p == 0 && high < p * q
    ensures low + high < p * q
  {
    var t := high / p;
    assert high == p * t;
    Below(t, q, p);
    Times(p, t + 1, q);
    assert p * (t + 1) == p * t + p;
  }

  /** Multiplying by p moves the part of x above q out of the numbers below p q. */
  lemma ShiftOut(x: nat, p: nat, q: nat)
    requires p > 0 && q > 0
    ensures p * q > 0 && (x * p) % (p * q) == p * (x % q) && (x * p) / (p * q) == x / q
    ensures (p * (x % q)) % p == 0
    ensures x * p == p * q * (x / q) + p * (x % q)
  {
    var t, r := x / q, x % q;
    assert x == q * t + r;
    assert x * p == p * q * t + p * r by {
      assert (q * t + r) * p == q * t * p + r * p;
      assert q * t * p == p * q * t;
    }
    Times(p, r + 1, q);
    assert p * (r + 1) == p * r + p;
    Division(x * p, t, p * r, p * q);
    Division(p * r, r, 0, p);
  }

  lemma Quotient(a: nat, d: nat)
    requires d > 0
    ensures a / d >= 0 && d * (a / d) <= a < d * (a / d) + d
  {
    if a / d < 0 {
      Times(d, a / d, -1);
    }
  }

  lemma Regroup(p: nat, c: nat, q: nat, v: nat)
    requires p == c * q
    ensures p * v == c * (q * v)
  {
  }
}
