/** C `int`, 64-bit registers, and the arithmetic the processor does on them. */
module Words {
  const TWO_31: int := 0x8000_0000
  const TWO_32: int := 0x1_0000_0000
  const TWO_63: int := 0x8000_0000_0000_0000
  const TWO_64: int := 0x1_0000_0000_0000_0000

  type Int32 = x: int | -TWO_31 <= x < TWO_31
  type Int64 = x: int | -TWO_63 <= x < TWO_63

  /** The low 32 (64) bits of `x`, read as a signed number. */
  function Wrap32(x: int): Int32 {
    (x + TWO_31) % TWO_32 - TWO_31
  }

  function Wrap64(x: int): Int64 {
    (x + TWO_63) % TWO_64 - TWO_63
  }

  /** Division as C and `idivq` do it: the quotient is truncated toward zero. */
  function TruncDiv(a: int, b: int): int
    requires b != 0
  {
    if (a < 0) == (b < 0) then Abs(a) / Abs(b) else -(Abs(a) / Abs(b))
  }

  function Abs(a: int): nat {
    if a < 0 then -a else a
  }

  /** The remainder is closer to zero than the divisor and has the sign of the dividend. */
  predicate IsQuotient(a: int, b: int, q: int) {
    var r := a - b * q;
    && (if b < 0 then b < r < -b else -b < r < b)
    && (if a < 0 then r <= 0 else r >= 0)
  }

  /** What makes truncation the C division: no other quotient leaves such a remainder. */
  lemma TruncDivMeaning(a: int, b: int, q: int)
    requires b != 0
    ensures q == TruncDiv(a, b) <==> IsQuotient(a, b, q)
  {
    TruncRemainder(a, b);
    var t := TruncDiv(a, b);
    hide TruncDiv;
    if IsQuotient(a, b, q) {
      OneQuotient(b, t, a - b * t, q, a - b * q);
    }
  }

  lemma OneQuotient(b: int, t: int, r: int, q: int, s: int)
    requires b * t + r == b * q + s
    requires Abs(r) < Abs(b) && Abs(s) < Abs(b) && ((r <= 0 && s <= 0) || (r >= 0 && s >= 0))
    ensures t == q
  {
    if t != q {
      assert b * (t - q) == b * t - b * q == s - r;
      assert Abs(s - r) < Abs(b);
      Multiple(b, t - q);
    }
  }

  lemma SmallerQuotient(x: nat, y: nat)
    requires y > 0
    ensures x / y <= x
  {
    var q, r := x / y, x % y;
    assert x == y * q + r;
    AtLeastOnce(q, y);
    assert q * y == y * q;
  }

  lemma TruncDivSmaller(a: int, b: int)
    requires b != 0
    ensures Abs(TruncDiv(a, b)) <= Abs(a)
  {
    SmallerQuotient(Abs(a), Abs(b));
  }

  lemma {:induction false} AtLeastOnce(x: nat, n: nat)
    requires n > 0
    ensures x <= x * n
  {
    if n > 1 {
      AtLeastOnce(x, n - 1);
      assert x * n == x * (n - 1) + x;
    }
  }

  /** No multiple of `b` but zero is closer to zero than `b`. */
  lemma Multiple(b: int, d: int)
    requires d != 0
    ensures Abs(b * d) >= Abs(b)
  {
    AtLeastOnce(Abs(b), Abs(d));
    if b >= 0 {
      assert d < 0 ==> b * -d == -(b * d);
    } else {
      assert d > 0 ==> -b * d == -(b * d);
      assert d < 0 ==> -b * -d == b * d;
    }
  }

  lemma TruncRemainder(a: int, b: int)
    requires b != 0
    ensures IsQuotient(a, b, TruncDiv(a, b))
  {
    var q, rem := Abs(a) / Abs(b), Abs(a) % Abs(b);
    assert Abs(a) == Abs(b) * q + rem;
    if (a < 0) == (b < 0) {
      assert b * q == if b < 0 then -(Abs(b) * q) else Abs(b) * q;
    } else {
      assert b * -q == if b < 0 then Abs(b) * q else -(Abs(b) * q);
    }
  }

  /** The only quotient of 64-bit numbers that is none is that of -2^63 by -1. */
  lemma QuotientRange(a: Int64, b: Int64)
    requires b != 0
    ensures -TWO_63 <= TruncDiv(a, b) < TWO_63 <==> !(a == -TWO_63 && b == -1)
  {
    if a > -TWO_63 {
      hide TruncDiv;
      TruncDivSmaller(a, b);
    } else if b < -1 || b > 1 {
      HalvedQuotient(Abs(a), Abs(b));
      assert Abs(TruncDiv(a, b)) == Abs(a) / Abs(b);
    } else {
      assert Abs(a) / 1 == TWO_63;
    }
  }

  lemma HalvedQuotient(x: nat, y: nat)
    requires y >= 2
    ensures 2 * (x / y) <= x
  {
    var q, r := x / y, x % y;
    assert x == y * q + r;
    assert y * q == 2 * q + (y - 2) * q;
    AtLeastZero(y - 2, q);
  }

  lemma AbsProduct(a: int, b: int)
    ensures Abs(a * b) == Abs(a) * Abs(b)
  {
    AtLeastZero(Abs(a), Abs(b));
    assert a < 0 && b < 0 ==> -a * -b == a * b;
    assert a < 0 && b >= 0 ==> -a * b == -(a * b);
    assert a >= 0 && b < 0 ==> a * -b == -(a * b);
  }

  lemma ProductBound(x: nat, y: nat, m: nat)
    requires x <= m && y <= m
    ensures x * y <= m * m
  {
    AtLeastZero(m, m - y);
    AtLeastZero(m - x, y);
    assert m * m - x * y == m * (m - y) + (m - x) * y;
  }

  lemma AtLeastZero(x: nat, y: nat)
    ensures x * y >= 0
  {
  }

  /** The low byte of a register, extended with zeros. */
  function LowByte(v: Int64): Int64 {
    v % 256
  }

  /** A register after its low byte was set to 1 or 0. */
  function WithLowByte(v: Int64, bit: bool): Int64 {
    v - v % 256 + if bit then 1 else 0
  }

  /** Setting the low byte leaves the other bytes; extending it drops them. */
  lemma LowByteSet(v: Int64, bit: bool)
    ensures LowByte(WithLowByte(v, bit)) == if bit then 1 else 0
    ensures WithLowByte(v, bit) / 256 == v / 256
    ensures 0 <= LowByte(v) <= 255 && (v - LowByte(v)) % 256 == 0
  {
  }

  /** Wrapping a number finds the one word that is congruent to it. */
  lemma WrapMeaning(x: int, v: int)
    ensures v == Wrap64(x) <==>
            -0x8000_0000_0000_0000 <= v <= 0x7fff_ffff_ffff_ffff && (x - v) % 0x1_0000_0000_0000_0000 == 0
    ensures v == Wrap32(x) <==> -0x8000_0000 <= v <= 0x7fff_ffff && (x - v) % 0x1_0000_0000 == 0
  {
    OneResidue(x, v, TWO_63);
    OneResidue(x, v, TWO_31);
  }

  lemma OneResidue(x: int, v: int, half: int)
    requires half > 0
    ensures v == (x + half) % (2 * half) - half <==> -half <= v < half && (x - v) % (2 * half) == 0
  {
    var n := 2 * half;
    var q, r := (x + half) / n, (x + half) % n;
    assert x + half == n * q + r;
    if v == r - half {
      MultipleHasNoRest(n, q);
      assert x - v == n * q;
    } else if -half <= v < half && (x - v) % n == 0 {
      var p := (x - v) / n;
      assert x - v == n * p;
      assert n * (q - p) == n * q - n * p == v + half - r;
      if q != p {
        assert Abs(v + half - r) < n;
        Multiple(n, q - p);
      }
    }
  }

  lemma MultipleHasNoRest(n: int, q: int)
    requires n > 0
    ensures (n * q) % n == 0
  {
    var p, r := (n * q) / n, (n * q) % n;
    assert n * (q - p) == r;
    if q != p {
      Multiple(n, q - p);
    }
  }

  // Wrapping is reduction modulo 2^32 (2^64): it may be done early, late or twice.

  ghost predicate SameLow32(a: int, b: int) {
    exists k: int :: a - b == TWO_32 * k
  }

  lemma Wrap32IsLow32(a: int)
    ensures SameLow32(a, Wrap32(a))
  {
    assert a - Wrap32(a) == TWO_32 * ((a + TWO_31) / TWO_32);
  }

  lemma Wrap64KeepsLow32(a: int)
    ensures SameLow32(a, Wrap64(a))
  {
    assert a - Wrap64(a) == TWO_32 * (TWO_32 * ((a + TWO_63) / TWO_64));
  }

  lemma SameLow32SameWrap(a: int, b: int)
    requires SameLow32(a, b)
    ensures Wrap32(a) == Wrap32(b)
  {
    var k: int :| a - b == TWO_32 * k;
    var r, q := (b + TWO_31) % TWO_32, (b + TWO_31) / TWO_32;
    assert a + TWO_31 == TWO_32 * (q + k) + r;
    assert (a + TWO_31) / TWO_32 == q + k;
  }

  lemma SameLow32Symmetric(a: int, b: int)
    requires SameLow32(a, b)
    ensures SameLow32(b, a)
  {
    var k: int :| a - b == TWO_32 * k;
    assert b - a == TWO_32 * (-k);
  }

  lemma SameLow32Transitive(a: int, b: int, c: int)
    requires SameLow32(a, b) && SameLow32(b, c)
    ensures SameLow32(a, c)
  {
    var k: int :| a - b == TWO_32 * k;
    var l: int :| b - c == TWO_32 * l;
    assert a - c == TWO_32 * (k + l);
  }

  lemma SameLow32Add(a: int, b: int, c: int, d: int)
    requires SameLow32(a, c) && SameLow32(b, d)
    ensures SameLow32(a + b, c + d) && SameLow32(a - b, c - d)
  {
    var k: int :| a - c == TWO_32 * k;
    var l: int :| b - d == TWO_32 * l;
    assert (a + b) - (c + d) == TWO_32 * (k + l);
    assert (a - b) - (c - d) == TWO_32 * (k - l);
  }

  lemma SameLow32Mul(a: int, b: int, c: int, d: int)
    requires SameLow32(a, c) && SameLow32(b, d)
    ensures SameLow32(a * b, c * d)
  {
    var k: int :| a - c == TWO_32 * k;
    var l: int :| b - d == TWO_32 * l;
    calc {
      a * b - c * d;
      (c + TWO_32 * k) * b - c * d;
      c * (b - d) + TWO_32 * k * b;
      c * (TWO_32 * l) + TWO_32 * k * b;
      TWO_32 * (c * l + k * b);
    }
  }
}
