/** Little-endian numbers and their bits. */
module Words {
  import opened Bytes
  import opened Bits

  /** The number whose little-endian bytes are `s`. */
  function Le(s: seq<byte>): nat {
    if s == [] then 0 else s[0] as int + 256 * Le(s[1..])
  }

  lemma LeStep(s: seq<byte>)
    ensures Le(s) == if s == [] then 0 else s[0] as int + 256 * Le(s[1..])
  {
  }

  lemma Le2(b: seq<byte>, o: nat)
    requires o + 2 <= |b|
    ensures Le(b[o..o + 2]) == Rd16(b, o)
  {
    hide Le;
    var s := b[o..o + 2];
    LeStep(s);
    LeStep(s[1..]);
    LeStep(s[1..][1..]);
  }

  lemma Le4(b: seq<byte>, o: nat)
    requires o + 4 <= |b|
    ensures Le(b[o..o + 4]) == Rd32(b, o)
  {
    hide Le;
    var s := b[o..o + 4];
    LeStep(s);
    LeStep(s[1..]);
    assert s[1..][1..] == b[o + 2..o + 4];
    Le2(b, o + 2);
  }

  /** A word has one spelling in bytes. */
  lemma DigitsAgree(a: byte, b: byte, c: byte, d: byte, a': byte, b': byte, c': byte, d': byte)
    requires a as int + 0x100 * b as int + 0x1_0000 * c as int + 0x100_0000 * d as int
             == a' as int + 0x100 * b' as int + 0x1_0000 * c' as int + 0x100_0000 * d' as int
    ensures a == a' && b == b' && c == c' && d == d'
  {
    var y, y' := c as int + 0x100 * d as int, c' as int + 0x100 * d' as int;
    LowDigit(a, b as int + 0x100 * y, a', b' as int + 0x100 * y');
    LowDigit(b, y, b', y');
    LowDigit(c, d as int, c', d' as int);
  }

  lemma LowDigit(a: byte, x: int, a': byte, x': int)
    requires a as int + 0x100 * x == a' as int + 0x100 * x'
    ensures a == a' && x == x'
  {
  }

  // ---- Powers of two ----

  lemma {:induction false} PowAdd(a: nat, b: nat)
    ensures Pow2(a + b) == Pow2(a) * Pow2(b)
  {
    if a > 0 {
      PowAdd(a - 1, b);
      MulAssoc(2, Pow2(a - 1), Pow2(b));
    }
  }

  lemma MulAssoc(x: int, y: int, z: int)
    ensures x * y * z == x * (y * z)
  {
  }

  lemma MulSub(m: int, a: int, b: int)
    ensures m * a - m * b == m * (a - b)
  {
  }

  lemma MulGrows(m: int, d: int)
    requires m >= 0
    ensures d >= 1 ==> m * d >= m
    ensures d <= -1 ==> m * d <= -m
  {
    if d >= 1 {
      MulSub(m, d, 1);
      assert m * (d - 1) >= 0;
    } else if d <= -1 {
      MulSub(m, -1, d);
      assert m * (-1 - d) >= 0;
    }
  }

  lemma QuotientIs(x: nat, m: nat, q: nat, r: nat)
    requires x == m * q + r && r < m
    ensures x / m == q && x % m == r
  {
    var q', r' := x / m, x % m;
    assert x == m * q' + r' && 0 <= r' < m;
    MulSub(m, q', q);
    MulGrows(m, q' - q);
  }

  /** Adding a multiple of `m` moves the quotient and keeps the remainder. */
  lemma DivModAdd(x: nat, m: nat, k: nat)
    requires m > 0
    ensures (x + m * k) / m == x / m + k && (x + m * k) % m == x % m
  {
    assert x == m * (x / m) + x % m;
    var q := x / m;
    assert m * q + m * k == m * (q + k);
    QuotientIs(x + m * k, m, x / m + k, x % m);
  }

  lemma HalfThenDiv(x: nat, m: nat)
    requires m > 0
    ensures x / 2 / m == x / (2 * m) && x % (2 * m) == 2 * (x / 2 % m) + x % 2
  {
    var h := x / 2;
    var q, r := h / m, h % m;
    assert h == m * q + r;
    assert x == 2 * (m * q) + 2 * r + x % 2;
    MulAssoc(2, m, q);
    QuotientIs(x, 2 * m, q, 2 * r + x % 2);
  }

  lemma {:induction false} BitIsDigit(a: nat, i: nat)
    ensures BitOf(a, i) == a / Pow2(i) % 2
    ensures a % Pow2(i + 1) == a % Pow2(i) + Pow2(i) * BitOf(a, i)
    decreases i
  {
    if i > 0 {
      BitIsDigit(a / 2, i - 1);
      HalfThenDiv(a, Pow2(i - 1));
      HalfThenDiv(a, Pow2(i));
      MulAssoc(2, Pow2(i - 1), BitOf(a, i));
    }
  }

  /** `a >> n` */
  function Shr(a: nat, n: nat): nat {
    if n == 0 then a else Shr(a / 2, n - 1)
  }

  lemma {:induction false} ShrIsDiv(a: nat, n: nat)
    ensures Shr(a, n) == a / Pow2(n)
  {
    if n > 0 {
      ShrIsDiv(a / 2, n - 1);
      HalfThenDiv(a, Pow2(n - 1));
    }
  }

  lemma {:induction false} BitOfShr(a: nat, off: nat, i: nat)
    ensures BitOf(Shr(a, off), i) == BitOf(a, off + i)
    decreases off
  {
    if off > 0 {
      BitOfShr(a / 2, off - 1, i);
    }
  }

  /** Bit `b` of a number is bit `b % 8` of its byte `b / 8`. */
  lemma {:induction false} LeBit(s: seq<byte>, b: nat)
    requires b < 8 * |s|
    ensures BitOf(Le(s), b) == BitOf(s[b / 8], b % 8)
    decreases |s|
  {
    var lo, hi := s[0], Le(s[1..]);
    if b < 8 {
      LowByteBit(lo, hi, b);
    } else {
      LeBit(s[1..], b - 8);
      assert (b - 8) / 8 == b / 8 - 1 && (b - 8) % 8 == b % 8;
      BitOfShr(Le(s), 8, b - 8);
      ShrIsDiv(Le(s), 8);
      assert Pow2(8) == 256;
      assert Le(s) / 256 == hi;
    }
  }

  lemma {:induction false} LowByteBit(lo: nat, hi: nat, b: nat)
    requires b < 8 && lo < 256
    ensures BitOf(lo + 256 * hi, b) == BitOf(lo, b)
  {
    BitOfLow(lo, 128 * hi, b, 7);
  }

  lemma {:induction false} BitOfLow(lo: nat, h: nat, b: nat, k: nat)
    requires b <= k && h % Pow2(k) == 0
    ensures BitOf(lo + 2 * h, b) == BitOf(lo, b)
    decreases b
  {
    if b > 0 {
      assert (lo + 2 * h) / 2 == lo / 2 + h;
      HalfOfMultiple(h, Pow2(k - 1));
      BitOfLow(lo / 2, h / 2, b - 1, k - 1);
    }
  }

  lemma HalfOfMultiple(h: nat, m: nat)
    requires m > 0 && h % (2 * m) == 0
    ensures h % 2 == 0 && h / 2 % m == 0
  {
    HalfThenDiv(h, m);
  }
}
