/** Bit fields of HID reports: the extraction loops, and the packing they undo. */
module HidBits {
  import opened Bytes
  import opened Bits
  import opened Words

  /** Bits `off` to `off + bits - 1` of a report, as an unsigned number. */
  function Field(report: seq<byte>, off: nat, bits: nat): (u: nat)
    ensures u < Pow2(bits)
  {
    Shr(Le(report), off) % Pow2(bits)
  }

  /** Two's-complement reading of a `bits`-bit number. */
  function Signed(u: nat, bits: nat): int
    requires bits >= 1
  {
    if u >= Pow2(bits - 1) then u - Pow2(bits) else u
  }

  /** The cast of a 32-bit word to a signed one. */
  function Int32(u: nat): int
  {
    if u >= 0x8000_0000 then u - 0x1_0000_0000 else u
  }

  lemma FieldNext(report: seq<byte>, off: nat, i: nat)
    requires off + i < 8 * |report|
    ensures Field(report, off, i + 1) == Field(report, off, i) + Pow2(i) * BitOf(report[(off + i) / 8], (off + i) % 8)
  {
    hide Pow2, BitOf, Shr, Le;
    var n := Shr(Le(report), off);
    BitIsDigit(n, i);
    BitOfShr(Le(report), off, i);
    LeBit(report, off + i);
  }

  lemma PowFacts()
    ensures Pow2(0) == 1 && Pow2(31) == 0x8000_0000 && Pow2(32) == 0x1_0000_0000
  {
    assert Pow2(8) == 256;
    assert Pow2(16) == 65536 by {
      PowAdd(8, 8);
    }
    PowAdd(16, 16);
    assert Pow2(32) == 2 * Pow2(31);
  }

  /** `xhci_hid_get_bits_u32`: at most 32 bits are taken. */
  method GetBitsU32(buf: seq<byte>, bitoff: nat, bits: nat) returns (v: nat)
    requires bits > 0 ==> bitoff + (if bits < 32 then bits else 32) <= 8 * |buf|
    ensures v == Field(buf, bitoff, if bits < 32 then bits else 32)
  {
    hide Pow2, Field, Or;
    v := 0;
    var i := 0;
    FieldNone(buf, bitoff);
    while i < bits && i < 32
      invariant 0 <= i <= 32 && i <= bits
      invariant v == Field(buf, bitoff, i)
      decreases bits - i
    {
      var b := bitoff + i;
      var bitv := BitOf(buf[b / 8], b % 8);
      FieldNext(buf, bitoff, i);
      OrDisjoint(bitv, v, i);
      Commute(bitv, Pow2(i));
      v := Or(v, bitv * Pow2(i));
      i := i + 1;
    }
  }

  lemma FieldNone(buf: seq<byte>, off: nat)
    ensures Field(buf, off, 0) == 0
  {
    PowFacts();
  }

  lemma Commute(a: nat, b: nat)
    ensures a * b == b * a && a * b >= 0
  {
  }

  /** Setting every bit from `bits` up makes the 32-bit word of the negative number. */
  lemma SignExtend(u: nat, bits: nat)
    requires 1 <= bits < 32 && u < Pow2(bits)
    ensures Pow2(bits) <= 0x8000_0000
    ensures u >= Pow2(bits - 1) ==> Int32(Or(u, 0x1_0000_0000 - Pow2(bits))) == Signed(u, bits)
    ensures u < Pow2(bits - 1) ==> Int32(u) == Signed(u, bits)
  {
    PowFacts();
    PowAdd(bits, 32 - bits);
    PowAdd(bits, 31 - bits);
    var m, k, h := Pow2(bits), Pow2(32 - bits), Pow2(31 - bits);
    MulGrows(m, h);
    MulSub(m, k, 1);
    OrDisjoint(k - 1, u, bits);
    Commute(k - 1, m);
    assert m == 2 * Pow2(bits - 1);
  }

  /** The sign bit is set exactly in the upper half of the range. */
  lemma TopBit(u: nat, bits: nat)
    requires bits >= 1 && u < Pow2(bits)
    ensures BitOf(u, bits - 1) == 1 <==> u >= Pow2(bits - 1)
  {
    BitIsDigit(u, bits - 1);
    var m := Pow2(bits - 1);
    if u >= m {
      QuotientIs(u, m, 1, u - m);
    } else {
      SmallDiv(u, m);
    }
  }

  /** `xhci_hid_get_bits_s32` */
  method GetBitsS32(buf: seq<byte>, bitoff: nat, bits: nat) returns (r: int)
    requires 1 <= bits <= 32 ==> bitoff + bits <= 8 * |buf|
    ensures 1 <= bits <= 32 ==> r == Signed(Field(buf, bitoff, bits), bits)
    ensures bits == 0 || bits > 32 ==> r == 0
  {
    hide Pow2, Field, Or;
    if bits == 0 || bits > 32 {
      return 0;
    }
    PowFacts();
    var u := GetBitsU32(buf, bitoff, bits);
    if bits < 32 {
      SignExtend(u, bits);
      TopBit(u, bits);
      if BitOf(u, bits - 1) == 1 {
        u := Or(u, 0x1_0000_0000 - Pow2(bits));
      }
    }
    r := Int32(u);
  }

  /** The copy of the extraction in the event loop; it agrees for every width up to 32. */
  method ExtractAxis(r: seq<byte>, bitoff: nat, bits: nat) returns (d: int)
    requires bits > 0 ==> bitoff + (if bits < 32 then bits else 32) <= 8 * |r|
    ensures 1 <= bits <= 32 ==> d == Signed(Field(r, bitoff, bits), bits)
    ensures bits == 0 ==> d == 0
    ensures bits > 32 ==> d == Signed(Field(r, bitoff, 32), 32)
  {
    hide Pow2, Field, Or;
    var u := 0;
    var i := 0;
    PowFacts();
    FieldNone(r, bitoff);
    while i < bits && i < 32
      invariant 0 <= i <= 32 && i <= bits
      invariant u == Field(r, bitoff, i)
      decreases bits - i
    {
      var b := bitoff + i;
      var bitv := BitOf(r[b / 8], b % 8);
      FieldNext(r, bitoff, i);
      OrDisjoint(bitv, u, i);
      Commute(bitv, Pow2(i));
      u := Or(u, bitv * Pow2(i));
      i := i + 1;
    }
    if bits != 0 && bits < 32 {
      SignExtend(u, bits);
      TopBit(u, bits);
      if BitOf(u, bits - 1) == 1 {
        u := Or(u, 0x1_0000_0000 - Pow2(bits));
      }
    }
    d := Int32(u);
  }

  // ---- Packing ----

  /** A value and the number of bits it is given. */
  datatype Slot = Slot(value: nat, bits: nat)

  function Pack(vs: seq<Slot>): nat {
    if vs == [] then 0 else vs[0].value + Pow2(vs[0].bits) * Pack(vs[1..])
  }

  function Width(vs: seq<Slot>): nat {
    if vs == [] then 0 else vs[0].bits + Width(vs[1..])
  }

  predicate SlotsOk(vs: seq<Slot>) {
    forall k :: 0 <= k < |vs| ==> vs[k].value < Pow2(vs[k].bits)
  }

  lemma {:induction false} PackBound(vs: seq<Slot>)
    requires SlotsOk(vs)
    ensures Pack(vs) < Pow2(Width(vs))
  {
    hide Pow2;
    if vs == [] {
      PowFacts();
    } else {
      PackBound(vs[1..]);
      PowAdd(vs[0].bits, Width(vs[1..]));
      DigitBound(vs[0].value, Pow2(vs[0].bits), Pack(vs[1..]), Pow2(Width(vs[1..])));
    }
  }

  /** A low digit and a high part below their bounds make a number below the product. */
  lemma DigitBound(v: nat, m: nat, p: nat, k: nat)
    requires v < m && p < k
    ensures v + m * p < m * k
  {
    MulSub(m, k, p);
    MulGrows(m, k - p);
  }

  lemma {:induction false} PackConcat(a: seq<Slot>, b: seq<Slot>)
    ensures Pack(a + b) == Pack(a) + Pow2(Width(a)) * Pack(b) && Width(a + b) == Width(a) + Width(b)
  {
    hide Pow2;
    if a == [] {
      assert a + b == b;
      PowFacts();
    } else {
      assert (a + b)[1..] == a[1..] + b;
      PackConcat(a[1..], b);
      var m, w, p, q := Pow2(a[0].bits), Pow2(Width(a[1..])), Pack(a[1..]), Pack(b);
      PowAdd(a[0].bits, Width(a[1..]));
      MulAssoc(m, w, q);
      assert m * (p + w * q) == m * p + m * (w * q);
    }
  }

  /** Any stretch of the values sits at the sum of the widths before it, cut to as many bits as are read. */
  lemma PackedStretch(vs: seq<Slot>, a: nat, b: nat, bits: nat)
    requires SlotsOk(vs) && a <= b <= |vs| && bits <= Width(vs[a..b])
    ensures Shr(Pack(vs), Width(vs[..a])) % Pow2(bits) == Pack(vs[a..b]) % Pow2(bits)
  {
    hide Pow2, Shr, Pack, Width;
    var before, mid, after := vs[..a], vs[a..b], vs[b..];
    assert vs == before + (mid + after);
    PackConcat(before, mid + after);
    PackConcat(mid, after);
    PackBound(before);
    ShrIsDiv(Pack(vs), Width(before));
    DivModAdd(Pack(before), Pow2(Width(before)), Pack(mid + after));
    SmallDiv(Pack(before), Pow2(Width(before)));
    PowAdd(bits, Width(mid) - bits);
    MulAssoc(Pow2(bits), Pow2(Width(mid) - bits), Pack(after));
    DivModAdd(Pack(mid), Pow2(bits), Pow2(Width(mid) - bits) * Pack(after));
  }

  /** Each value sits at the sum of the widths before it. */
  lemma PackedValue(vs: seq<Slot>, k: nat)
    requires SlotsOk(vs) && k < |vs|
    ensures Shr(Pack(vs), Width(vs[..k])) % Pow2(vs[k].bits) == vs[k].value
  {
    hide Pow2, Shr;
    var one := vs[k..k + 1];
    assert one[1..] == [] && one[0] == vs[k];
    PackedStretch(vs, k, k + 1, vs[k].bits);
    SmallDiv(vs[k].value, Pow2(vs[k].bits));
  }

  lemma SmallDiv(x: nat, m: nat)
    requires x < m
    ensures x / m == 0 && x % m == x
  {
  }

  lemma {:induction false} ShrShr(a: nat, m: nat, n: nat)
    ensures Shr(Shr(a, m), n) == Shr(a, m + n)
    decreases m
  {
    if m > 0 {
      ShrShr(a / 2, m - 1, n);
    }
  }
}
