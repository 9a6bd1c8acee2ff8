/**
 * Stored-block inflate: the bit reader, the decoder of section 3.2.4 of RFC 1951 inside the two
 * zlib header bytes, and the encodings it inverts.
 */
module Inflate {
  import opened Bytes
  import opened Bits
  import opened Words

  // ---- The bit reader ----

  class BitReader {
    const src: seq<byte>
    var pos: nat
    var bitbuf: nat
    var bitcount: nat

    ghost predicate Valid()
      reads this
    {
      pos <= |src| && bitbuf < Pow2(bitcount)
    }

    /** Everything still to be read, as one number with the next bit lowest. */
    ghost function Pending(): nat
      requires Valid()
      reads this
    {
      bitbuf + Pow2(bitcount) * Le(src[pos..])
    }

    constructor (src: seq<byte>, pos: nat)
      requires pos <= |src|
      ensures Valid() && this.src == src && this.pos == pos && bitbuf == 0 && bitcount == 0
    {
      this.src := src;
      this.pos := pos;
      bitbuf := 0;
      bitcount := 0;
    }

    /** `tinf_get_bits`: takes the lowest `n` pending bits; past the end of the input, zeros. */
    method GetBits(n: nat) returns (val: nat)
      requires Valid() && n <= 24
      modifies this
      ensures Valid()
      ensures val == old(Pending()) % Pow2(n) && Pending() == old(Pending()) / Pow2(n)
      ensures old(bitcount) >= n ==> pos == old(pos) && bitcount == old(bitcount) - n
      ensures old(bitcount) == 0 && 0 < n <= 8 ==>
        bitcount == 8 - n && pos == (if old(pos) < |src| then old(pos) + 1 else old(pos))
    {
      hide Or, Pow2, Le;
      ghost var all, count := Pending(), bitcount;
      while bitcount < n
        invariant Valid() && Pending() == all
        invariant bitcount >= count && (bitcount == count ==> pos == old(pos))
        invariant count == 0 && bitcount > 0 && n <= 8 ==>
          bitcount == 8 && pos == (if old(pos) < |src| then old(pos) + 1 else old(pos))
        invariant count >= n ==> bitcount == count
        decreases n - bitcount
      {
        var b: byte := 0;
        ghost var rest := src[pos..];
        if pos < |src| {
          b := src[pos];
          pos := pos + 1;
        }
        PendingByte(bitbuf, bitcount, b, rest, src[pos..]);
        bitbuf := Or(bitbuf, b * Pow2(bitcount));
        bitcount := bitcount + 8;
      }
      TakeBits(bitbuf, bitcount, Le(src[pos..]), n);
      val := bitbuf % Pow2(n);
      bitbuf := bitbuf / Pow2(n);
      bitcount := bitcount - n;
    }

    /** `tinf_align_byte` */
    method AlignByte()
      requires Valid()
      modifies this
      ensures Valid() && pos == old(pos) && bitbuf == 0 && bitcount == 0
    {
      bitbuf := 0;
      bitcount := 0;
    }
  }

  lemma ShiftIn(p: nat, buf: nat, b: nat, l: nat)
    requires buf < p && b < 256
    ensures 0 <= b * p && b * p + buf < p * 256
    ensures (b * p + buf) + p * 256 * l == buf + p * (b + 256 * l)
  {
    assert b * p == p * b;
    MulSub(p, 256, b);
    MulGrows(p, 256 - b);
    MulGrows(p, b);
    MulAssoc(p, 256, l);
    assert p * (b + 256 * l) == p * b + p * (256 * l);
  }

  /** Moving a byte from the input into the buffer leaves the pending number as it was. */
  lemma PendingByte(buf: nat, count: nat, b: byte, rest: seq<byte>, rest': seq<byte>)
    requires buf < Pow2(count)
    requires if rest == [] then b == 0 && rest' == [] else b == rest[0] && rest' == rest[1..]
    ensures b * Pow2(count) >= 0
    ensures Or(buf, b * Pow2(count)) < Pow2(count + 8)
    ensures Or(buf, b * Pow2(count)) + Pow2(count + 8) * Le(rest') == buf + Pow2(count) * Le(rest)
  {
    hide Or, Pow2, Le;
    PowEight();
    PowAdd(count, 8);
    OrDisjoint(b, buf, count);
    LeHead(rest);
    ShiftIn(Pow2(count), buf, b, Le(rest'));
  }

  lemma TakeBits(buf: nat, count: nat, rest: nat, n: nat)
    requires n <= count && buf < Pow2(count)
    ensures buf % Pow2(n) == (buf + Pow2(count) * rest) % Pow2(n)
    ensures 0 <= buf / Pow2(n) < Pow2(count - n) && 0 <= buf % Pow2(n)
    ensures buf / Pow2(n) + Pow2(count - n) * rest == (buf + Pow2(count) * rest) / Pow2(n)
  {
    hide Pow2;
    PowAdd(n, count - n);
    TakeParts(buf, Pow2(n), Pow2(count - n), rest);
  }

  lemma TakeParts(buf: nat, m: nat, k: nat, rest: nat)
    requires m > 0 && buf < m * k
    ensures 0 <= buf / m < k && 0 <= buf % m == (buf + m * k * rest) % m
    ensures buf / m + k * rest == (buf + m * k * rest) / m
  {
    MulAssoc(m, k, rest);
    DivModAdd(buf, m, k * rest);
    var q := buf / m;
    assert buf == m * q + buf % m;
    MulSub(m, q, k);
    MulGrows(m, q - k);
    MulGrows(m, q);
  }

  lemma PowEight()
    ensures Pow2(8) == 256
  {
  }

  lemma LeHead(s: seq<byte>)
    ensures s == [] ==> Le(s) == 0
    ensures s != [] ==> Le(s) == s[0] as int + 256 * Le(s[1..])
  {
  }

  // ---- Stored blocks ----

  datatype Inflated = Failed | Bytes(out: seq<byte>)

  function Prepend(a: seq<byte>, r: Inflated): Inflated {
    match r
    case Failed => Failed
    case Bytes(b) => Bytes(a + b)
  }

  /** The data of the stored blocks from `pos` on. */
  function InflateFrom(z: seq<byte>, pos: nat): Inflated
    decreases |z| - pos
  {
    if pos + 5 > |z| || z[pos] / 2 % 4 != 0 then Failed
    else
      var len := Rd16(z, pos + 1);
      if Rd16(z, pos + 3) != 0xFFFF - len || pos + 5 + len > |z| then Failed
      else if z[pos] % 2 == 1 then Bytes(z[pos + 5..pos + 5 + len])
      else Prepend(z[pos + 5..pos + 5 + len], InflateFrom(z, pos + 5 + len))
  }

  function InflateSpec(z: seq<byte>): Inflated {
    if |z| < 2 then Failed else InflateFrom(z, 2)
  }

  /** A stored block as an encoder may write it: any padding bits, up to 65535 bytes. */
  datatype StoredBlock = StoredBlock(padding: nat, data: seq<byte>)

  predicate BlockOk(b: StoredBlock) {
    b.padding < 32 && |b.data| <= 0xFFFF
  }

  function EncBlock(b: StoredBlock, final: bool): seq<byte>
    requires BlockOk(b)
  {
    [8 * b.padding + (if final then 1 else 0)] + Le16(|b.data|) + Le16(0xFFFF - |b.data|) + b.data
  }

  function EncBlocks(bs: seq<StoredBlock>): seq<byte>
    requires forall b :: b in bs ==> BlockOk(b)
  {
    if bs == [] then [] else EncBlock(bs[0], |bs| == 1) + EncBlocks(bs[1..])
  }

  function DataOf(bs: seq<StoredBlock>): seq<byte> {
    if bs == [] then [] else bs[0].data + DataOf(bs[1..])
  }

  /** A stored block of RFC 1951: a bit for the last one, type 0, the length and its complement, the data. */
  lemma BlockBytes(b: StoredBlock, final: bool)
    requires BlockOk(b)
    ensures var e, n := EncBlock(b, final), |b.data|;
      && |e| == n + 5 && e[0] % 2 == (if final then 1 else 0) && e[0] / 2 % 4 == 0
      && e[1] as int + 0x100 * e[2] as int == n && e[3] as int + 0x100 * e[4] as int == 0xFFFF - n
      && e[5..] == b.data
  {
    var e := EncBlock(b, final);
    assert e[0] == 8 * b.padding + if final then 1 else 0;
  }

  lemma BlockHeader(z: seq<byte>, pos: nat, b: StoredBlock, final: bool)
    requires BlockOk(b) && pos + |EncBlock(b, final)| <= |z|
    requires z[pos..pos + |EncBlock(b, final)|] == EncBlock(b, final)
    ensures var n := |b.data|;
      && z[pos] / 2 % 4 == 0 && (z[pos] % 2 == 1 <==> final)
      && Rd16(z, pos + 1) == n && Rd16(z, pos + 3) == 0xFFFF - n
      && z[pos + 5..pos + 5 + n] == b.data
  {
    var e, n := EncBlock(b, final), |b.data|;
    var cut := z[pos..pos + |e|];
    assert cut[0] == z[pos] && cut[1] == z[pos + 1] && cut[2] == z[pos + 2] && cut[3] == z[pos + 3] && cut[4] == z[pos + 4];
    assert e[0] == z[pos] && e[1] == z[pos + 1] && e[2] == z[pos + 2] && e[3] == z[pos + 3] && e[4] == z[pos + 4];
    assert e[1..3] == Le16(n) && e[3..5] == Le16(0xFFFF - n) && e[5..] == b.data;
    assert e[1] == n % 256 && e[2] == n / 256;
    assert e[3] == (0xFFFF - n) % 256 && e[4] == (0xFFFF - n) / 256;
    assert z[pos + 5..pos + 5 + n] == e[5..];
  }

  /** Whatever the split into stored blocks, decoding gives their data in order. */
  lemma {:induction false} InflateInverts(z: seq<byte>, pos: nat, bs: seq<StoredBlock>)
    requires bs != [] && forall b :: b in bs ==> BlockOk(b)
    requires pos + |EncBlocks(bs)| <= |z| && z[pos..pos + |EncBlocks(bs)|] == EncBlocks(bs)
    ensures InflateFrom(z, pos) == Bytes(DataOf(bs))
    decreases |bs|
  {
    hide EncBlock, InflateFrom, Rd16;
    var e, rest := EncBlock(bs[0], |bs| == 1), EncBlocks(bs[1..]);
    assert EncBlocks(bs) == e + rest;
    SplitAt(z, pos, e, rest);
    BlockHeader(z, pos, bs[0], |bs| == 1);
    EncBlockSize(bs[0], |bs| == 1);
    InflateStep(z, pos);
    if |bs| > 1 {
      InflateInverts(z, pos + |e|, bs[1..]);
    } else {
      assert DataOf(bs[1..]) == [];
    }
  }

  lemma EncBlockSize(b: StoredBlock, final: bool)
    requires BlockOk(b)
    ensures |EncBlock(b, final)| == 5 + |b.data|
  {
  }

  lemma SplitAt(z: seq<byte>, pos: nat, a: seq<byte>, b: seq<byte>)
    requires pos + |a + b| <= |z| && z[pos..pos + |a + b|] == a + b
    ensures z[pos..pos + |a|] == a && z[pos + |a|..pos + |a| + |b|] == b
  {
    var s := z[pos..pos + |a + b|];
    assert z[pos..pos + |a|] == s[..|a|];
    assert z[pos + |a|..pos + |a| + |b|] == s[|a|..];
  }

  /** Makes room for `need` bytes by doubling, keeping the first `w`. */
  method Grow(buf: array<byte>, w: nat, need: nat) returns (nb: array<byte>)
    requires w <= buf.Length && w <= need <= 0x8000_0000
    ensures nb.Length >= need && nb[..w] == buf[..w] && (nb == buf || fresh(nb))
  {
    if need <= buf.Length {
      return buf;
    }
    var cap := if buf.Length != 0 then buf.Length else 4096;
    while cap < need
      invariant cap > 0
      decreases need - cap
    {
      cap := cap * 2;
    }
    nb := new byte[cap](_ => 0);
    for i := 0 to w
      invariant nb[..i] == buf[..i]
    {
      nb[i] := buf[i];
    }
  }

  method CopyData(st: BitReader, nb: array<byte>, n: nat, len: nat)
    requires st.Valid() && st.bitbuf == 0 && st.bitcount == 0
    requires st.pos + len <= |st.src| && n + len <= nb.Length
    modifies st, nb
    ensures st.Valid() && st.bitbuf == 0 && st.bitcount == 0 && st.pos == old(st.pos) + len
    ensures nb[..n] == old(nb[..n]) && nb[n..n + len] == st.src[old(st.pos)..st.pos]
  {
    ghost var from := st.pos;
    for i := 0 to len
      invariant st.Valid() && st.pos == from + i && st.bitbuf == 0 && st.bitcount == 0
      invariant nb[..n] == old(nb[..n])
      invariant forall k :: n <= k < n + i ==> nb[k] == st.src[from + (k - n)]
    {
      nb[n + i] := st.src[st.pos];
      st.pos := st.pos + 1;
    }
  }

  /** One block: its header, its length fields and its data, appended to `out`. */
  method ReadBlock(st: BitReader, out: array<byte>, n: nat) returns (ok: bool, final: bool, nb: array<byte>, m: nat)
    requires st.Valid() && st.bitbuf == 0 && st.bitcount == 0
    requires n <= st.pos && n <= out.Length && |st.src| <= 0x8000_0000
    modifies st, out
    ensures n <= m <= nb.Length && (nb == out || fresh(nb))
    ensures !ok ==> InflateFrom(st.src, old(st.pos)) == Failed
    ensures ok ==>
      && st.Valid() && st.bitbuf == 0 && st.bitcount == 0 && m <= st.pos && old(st.pos) < st.pos
      && nb[..n] == old(out[..n])
      && InflateFrom(st.src, old(st.pos)) ==
           if final then Bytes(nb[n..m]) else Prepend(nb[n..m], InflateFrom(st.src, st.pos))
  {
    hide InflateFrom, Pow2, Le, Rd16;
    ghost var z, pos, done := st.src, st.pos, out[..n];
    nb, m, final := out, n, false;
    FirstBits(z, pos);
    InflateStep(z, pos);
    var bfinal := st.GetBits(1);
    var btype := st.GetBits(2);
    if btype != 0 {
      return false, false, nb, n;
    }
    st.AlignByte();
    if st.pos + 4 > |st.src| {
      return false, false, nb, n;
    }
    var len := Rd16(st.src, st.pos);
    var nlen := Rd16(st.src, st.pos + 2);
    st.pos := st.pos + 4;
    // `len ^ 0xFFFF` of a 16-bit length is its complement.
    if 0xFFFF - len != nlen {
      return false, false, nb, n;
    }
    if st.pos + len > |st.src| {
      return false, false, nb, n;
    }
    nb := Grow(out, n, n + len);
    CopyData(st, nb, n, len);
    ok, final, m := true, bfinal != 0, n + len;
  }

  /** `zlib_inflate_uncompressed` */
  method ZlibInflate(z: seq<byte>) returns (ok: bool, out: array<byte>, n: nat)
    requires |z| <= 0x8000_0000
    ensures n <= out.Length
    ensures if ok then InflateSpec(z) == Bytes(out[..n]) else InflateSpec(z) == Failed
  {
    hide InflateFrom, Pow2;
    out := new byte[0];
    n := 0;
    if |z| < 2 {
      return false, out, 0;
    }
    var st := new BitReader(z, 2);
    var final := false;
    ghost var all := InflateFrom(z, 2);
    while !final
      invariant st.Valid() && st.src == z && st.bitbuf == 0 && st.bitcount == 0
      invariant n <= st.pos && n <= out.Length
      invariant fresh(out) && fresh(st)
      invariant all == if final then Bytes(out[..n]) else Prepend(out[..n], InflateFrom(z, st.pos))
      decreases |z| - st.pos
    {
      ghost var before := out[..n];
      var nb, m;
      ok, final, nb, m := ReadBlock(st, out, n);
      if !ok {
        return false, nb, n;
      }
      assert nb[..m] == before + nb[n..m];
      out, n := nb, m;
    }
    ok := true;
  }

  lemma InflateStep(z: seq<byte>, pos: nat)
    ensures InflateFrom(z, pos) ==
      if pos + 5 > |z| || z[pos] / 2 % 4 != 0 then Failed
      else
        var len := Rd16(z, pos + 1);
        if Rd16(z, pos + 3) != 0xFFFF - len || pos + 5 + len > |z| then Failed
        else if z[pos] % 2 == 1 then Bytes(z[pos + 5..pos + 5 + len])
        else Prepend(z[pos + 5..pos + 5 + len], InflateFrom(z, pos + 5 + len))
  {
  }

  /** The three header bits of a block are the low bits of its first byte. */
  lemma FirstBits(z: seq<byte>, pos: nat)
    requires pos <= |z|
    ensures Pow2(0) == 1 && Pow2(1) == 2 && Pow2(2) == 4
    ensures pos < |z| ==> Le(z[pos..]) % 2 == z[pos] % 2 && Le(z[pos..]) / 2 % 4 == z[pos] / 2 % 4
    ensures pos == |z| ==> Le(z[pos..]) == 0
  {
    if pos < |z| {
      LeHead(z[pos..]);
      assert z[pos..][0] == z[pos];
      var b, hi := z[pos] as int, Le(z[pos..][1..]);
      assert b + 256 * hi == 2 * (128 * hi + b / 2) + b % 2;
      assert (b + 256 * hi) / 2 == 4 * (32 * hi) + b / 2;
    }
  }
}
