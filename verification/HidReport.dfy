/** Reports of a mouse: decoding by the recorded fields undoes the packing the descriptor describes. */
module HidReport {
  import opened Bytes
  import opened Bits
  import opened Words
  import opened HidBits
  import opened HidDescriptor
  import opened HidMouse

  // ---- Fields follow one another ----

  /** Where field `k` has to start, by the one before it. */
  function StartOf(fs: seq<FieldDesc>, off: nat, k: nat): nat
    requires k <= |fs|
  {
    if k == 0 then off else fs[k - 1].off + fs[k - 1].bits
  }

  predicate Contiguous(fs: seq<FieldDesc>, off: nat) {
    forall k :: 0 <= k < |fs| ==> fs[k].off == StartOf(fs, off, k)
  }

  function EndOf(fs: seq<FieldDesc>, off: nat): nat {
    if fs == [] then off else fs[|fs| - 1].off + fs[|fs| - 1].bits
  }

  lemma ContiguousConcat(a: seq<FieldDesc>, b: seq<FieldDesc>, off: nat)
    requires Contiguous(a, off) && Contiguous(b, EndOf(a, off))
    ensures Contiguous(a + b, off) && EndOf(a + b, off) == EndOf(b, EndOf(a, off))
  {
    var fs, mid := a + b, EndOf(a, off);
    forall k | 0 <= k < |fs|
      ensures fs[k].off == StartOf(fs, off, k)
    {
      if k < |a| {
        assert fs[k] == a[k] && a[k].off == StartOf(a, off, k);
        assert k > 0 ==> fs[k - 1] == a[k - 1];
      } else {
        var j := k - |a|;
        assert fs[k] == b[j] && b[j].off == StartOf(b, mid, j);
        assert j > 0 ==> fs[k - 1] == b[j - 1];
        assert j == 0 && k > 0 ==> fs[k - 1] == a[k - 1];
      }
    }
    assert b != [] ==> fs[|fs| - 1] == b[|b| - 1];
    assert b == [] ==> fs == a;
  }

  lemma NextField(n: nat, size: nat)
    requires n > 0
    ensures n * size == (n - 1) * size + size && (n - 1) * size >= 0
    ensures n == 1 ==> (n - 1) * size == 0
  {
  }

  lemma OneContiguous(f: FieldDesc)
    ensures Contiguous([f], f.off) && EndOf([f], f.off) == f.off + f.bits
  {
  }

  lemma {:induction false} FieldsOfContiguous(g: Group, off: nat, n: nat)
    requires g.Ok()
    ensures Contiguous(FieldsOf(g, off, n), off) && |FieldsOf(g, off, n)| == n
    ensures EndOf(FieldsOf(g, off, n), off) == off + n * g.size
    ensures forall k :: 0 <= k < n ==> FieldsOf(g, off, n)[k].bits == g.size
    ensures n > 0 ==> FieldsOf(g, off, n)[0].off == off
  {
    hide Contiguous, EndOf;
    if n == 0 {
      NoneContiguous(off);
      assert FieldsOf(g, off, 0) == [];
    } else {
      var front, all := FieldsOf(g, off, n - 1), FieldsOf(g, off, n);
      FieldsOfContiguous(g, off, n - 1);
      NextField(n, g.size);
      var last := all[n - 1];
      assert all == front + [last] && last.off == off + (n - 1) * g.size && last.bits == g.size;
      OneContiguous(last);
      ContiguousConcat(front, [last], off);
    }
  }

  lemma {:induction false} AllFieldsContiguous(gs: seq<Group>, off: nat)
    requires forall g :: g in gs ==> g.Ok()
    ensures Contiguous(AllFields(gs, off), off) && EndOf(AllFields(gs, off), off) == off + TotalBits(gs)
    decreases |gs|
  {
    hide FieldsOf, Contiguous, EndOf;
    if gs == [] {
      NoneContiguous(off);
    } else {
      var g := gs[0];
      assert g in gs;
      FieldsOfContiguous(g, off, g.count);
      AllFieldsContiguous(gs[1..], off + g.Bits());
      ContiguousConcat(FieldsOf(g, off, g.count), AllFields(gs[1..], off + g.Bits()), off);
    }
  }

  lemma NoneContiguous(off: nat)
    ensures Contiguous([], off) && EndOf([], off) == off
  {
  }

  // ---- Reports ----

  /** Values for the fields of a report, and whatever padding follows them. */
  predicate Fills(vs: seq<Slot>, fs: seq<FieldDesc>) {
    SlotsOk(vs) && |fs| <= |vs| && forall k :: 0 <= k < |fs| ==> vs[k].bits == fs[k].bits
  }

  lemma {:induction false} OffsetIsWidth(vs: seq<Slot>, fs: seq<FieldDesc>, k: nat)
    requires Fills(vs, fs) && Contiguous(fs, 0) && k <= |fs|
    ensures Width(vs[..k]) == if k < |fs| then fs[k].off else EndOf(fs, 0)
    decreases k
  {
    hide Width, Pow2;
    if k > 0 {
      OffsetIsWidth(vs, fs, k - 1);
      OneWider(vs, k);
      assert fs[k - 1].bits == vs[k - 1].bits;
      assert k < |fs| ==> fs[k].off == StartOf(fs, 0, k);
    } else {
      NoWidth(vs);
    }
  }

  lemma OneWider(vs: seq<Slot>, k: nat)
    requires 0 < k <= |vs|
    ensures Width(vs[..k]) == Width(vs[..k - 1]) + vs[k - 1].bits
  {
    var v := vs[k - 1];
    assert vs[..k] == vs[..k - 1] + [v];
    PackConcat(vs[..k - 1], [v]);
    assert [v][1..] == [];
  }

  lemma NoWidth(vs: seq<Slot>)
    ensures Width(vs[..0]) == 0
  {
  }

  /** The report carries the values, after a byte for the ID if there is one. */
  predicate Carrying(r: seq<byte>, d: Descriptor, vs: seq<Slot>) {
    && (d.Ids() != [] ==> r != [] && r[0] == d.Ids()[|d.Ids()| - 1])
    && Shr(Le(r), if d.Ids() != [] then 8 else 0) == Pack(vs)
  }

  /** The report a device with this descriptor sends for the values, in as few bytes as hold them. */
  function PackReport(d: Descriptor, vs: seq<Slot>): seq<byte>
    requires d.Ok()
  {
    (if d.Ids() != [] then [d.Ids()[|d.Ids()| - 1]] else []) + LeBytes(Pack(vs), (Width(vs) + 7) / 8)
  }

  lemma {:induction false} LeBytesOfAny(v: nat, n: nat)
    requires v < Pow2(8 * n)
    ensures Le(LeBytes(v, n)) == v
  {
    hide Pow2;
    PowFacts();
    if n > 0 {
      PowAdd(8 * (n - 1), 8);
      ByteBelow(v, Pow2(8 * (n - 1)));
      LeBytesOfAny(v / 0x100, n - 1);
      LeOf(v, n);
    }
  }

  lemma ByteBelow(v: nat, m: nat)
    requires v < m * Pow2(8)
    ensures v / 0x100 < m
  {
    assert Pow2(8) == 256;
  }

  lemma WiderStill(a: nat, b: nat)
    requires a <= b
    ensures Pow2(a) <= Pow2(b)
    decreases b - a
  {
    if a < b {
      WiderStill(a + 1, b);
    }
  }

  lemma ShrByte(b: byte, s: seq<byte>)
    ensures Shr(Le([b] + s), 8) == Le(s) && Shr(Le(s), 0) == Le(s)
  {
    assert ([b] + s)[1..] == s;
    ShrIsDiv(Le([b] + s), 8);
    assert Pow2(8) == 256;
  }

  /** Such a report carries its values. */
  lemma PackReportCarries(d: Descriptor, vs: seq<Slot>)
    requires d.Ok() && SlotsOk(vs)
    ensures Carrying(PackReport(d, vs), d, vs)
  {
    hide Pow2, Pack, Width, Shr, Le;
    var n := (Width(vs) + 7) / 8;
    PackBound(vs);
    WiderStill(Width(vs), 8 * n);
    LeBytesOfAny(Pack(vs), n);
    var body := LeBytes(Pack(vs), n);
    assert [] + body == body;
    ShrByte(if d.Ids() != [] then d.Ids()[|d.Ids()| - 1] else 0, body);
  }

  lemma FieldIsValue(r: seq<byte>, base: nat, vs: seq<Slot>, fs: seq<FieldDesc>, k: nat)
    requires Fills(vs, fs) && Contiguous(fs, 0) && k < |fs| && Shr(Le(r), base) == Pack(vs)
    ensures Field(r, fs[k].off + base, fs[k].bits) == vs[k].value
  {
    OffsetIsWidth(vs, fs, k);
    PackedValue(vs, k);
    ShrShr(Le(r), base, fs[k].off);
  }

  // ---- Decoding ----

  datatype MouseEvent = Ignored | Moved(dx: int, dy: int, wheel: int, buttons: nat)

  function Min32(n: nat): nat { if n < 32 then n else 32 }

  function AxisValue(r: seq<byte>, a: Axis, base: nat): int {
    if a.bits == 0 then 0 else Signed(Field(r, a.off + base, Min32(a.bits)), Min32(a.bits))
  }

  /** What the event loop makes of a report of a mouse whose descriptor it has parsed. */
  function DecodeSpec(m: Mouse, r: seq<byte>, len: nat): MouseEvent {
    if m.hasId && (len < 1 || r == [] || r[0] != m.id) then Ignored
    else
      var base := if m.hasId then 8 else 0;
      Moved(AxisValue(r, m.x, base), AxisValue(r, m.y, base), AxisValue(r, m.wheel, base),
            if m.buttonsBits == 0 then 0 else Field(r, m.buttonsOff + base, Min32(m.buttonsBits)))
  }

  /** The value packed for the first field with a usage, read as a signed number. */
  function Sent(fs: seq<FieldDesc>, vs: seq<Slot>, usage: nat): int
    requires |fs| <= |vs| && Widths(fs)
  {
    var k := FirstField(fs, usage);
    if k == |fs| then 0 else Signed(vs[k].value, fs[k].bits)
  }

  lemma AxisIsSent(r: seq<byte>, base: nat, vs: seq<Slot>, fs: seq<FieldDesc>, usage: nat)
    requires Fills(vs, fs) && Contiguous(fs, 0) && Widths(fs) && Shr(Le(r), base) == Pack(vs)
    ensures AxisValue(r, FirstAxis(fs, usage), base) == Sent(fs, vs, usage)
  {
    hide Field, Signed, Pack, Shr;
    var k := FirstField(fs, usage);
    if k < |fs| {
      FieldIsValue(r, base, vs, fs, k);
    }
  }

  // ---- Buttons ----

  /** Index of the first button group, or the number of groups. */
  function FirstButtons(gs: seq<Group>): (i: nat)
    ensures i <= |gs| && (i < |gs| ==> gs[i].page == 9)
  {
    if gs == [] || gs[0].page == 9 then 0 else 1 + FirstButtons(gs[1..])
  }

  lemma {:induction false} AllButtonsIsFirst(m: Mouse, gs: seq<Group>, off: nat)
    requires m.buttonsBits == 0 && forall g :: g in gs ==> g.Ok()
    ensures var r, i := AllButtons(m, gs, off), FirstButtons(gs);
      if i == |gs| then r == m
      else r == m.(buttonsOff := off + TotalBits(gs[..i]), buttonsBits := gs[i].Bits()) && gs[i].Bits() > 0
    decreases |gs|
  {
    if gs != [] {
      assert gs[0] in gs;
      if gs[0].page == 9 {
        BitsPositive(gs[0]);
        ButtonsStay(m.(buttonsOff := off, buttonsBits := gs[0].Bits()), gs[1..], off + gs[0].Bits());
        assert gs[..0] == [];
      } else {
        AllButtonsIsFirst(m, gs[1..], off + gs[0].Bits());
        var i := FirstButtons(gs[1..]);
        assert gs[..i + 1][1..] == gs[1..][..i];
      }
    }
  }

  lemma BitsPositive(g: Group)
    requires g.Ok()
    ensures g.Bits() > 0
  {
    MulGrows(g.size, g.count);
  }

  lemma {:induction false} ButtonsStay(m: Mouse, gs: seq<Group>, off: nat)
    requires m.buttonsBits != 0
    ensures AllButtons(m, gs, off) == m
    decreases |gs|
  {
    if gs != [] {
      ButtonsStay(m, gs[1..], off + gs[0].Bits());
    }
  }

  /** Where the fields of group `i` start among all fields. */
  function FieldStart(gs: seq<Group>, i: nat): nat
    requires i <= |gs|
  {
    |AllFields(gs[..i], 0)|
  }

  lemma {:induction false} AllFieldsConcat(a: seq<Group>, b: seq<Group>, off: nat)
    ensures AllFields(a + b, off) == AllFields(a, off) + AllFields(b, off + TotalBits(a))
    decreases |a|
  {
    hide FieldsOf;
    if a == [] {
      assert a + b == b;
    } else {
      assert (a + b)[1..] == a[1..] + b;
      AllFieldsConcat(a[1..], b, off + a[0].Bits());
    }
  }

  lemma GroupAmongFields(gs: seq<Group>, i: nat)
    requires (forall g :: g in gs ==> g.Ok()) && i < |gs|
    ensures var k, n, fs := FieldStart(gs, i), gs[i].count, AllFields(gs, 0);
      && k < k + n <= |fs| && fs[k].off == TotalBits(gs[..i])
      && (forall j :: k <= j < k + n ==> fs[j].bits == gs[i].size)
  {
    hide FieldsOf, Contiguous, EndOf;
    var g, at := gs[i], TotalBits(gs[..i]);
    assert g in gs;
    assert gs == gs[..i] + gs[i..];
    AllFieldsConcat(gs[..i], gs[i..], 0);
    FieldsOfContiguous(g, at, g.count);
    var a, b, c := AllFields(gs[..i], 0), FieldsOf(g, at, g.count), AllFields(gs[i..][1..], at + g.Bits());
    assert AllFields(gs, 0) == a + (b + c);
    var fs := AllFields(gs, 0);
    assert fs[|a|] == b[0] && b[0].off == at;
    forall j | |a| <= j < |a| + |b|
      ensures fs[j].bits == g.size
    {
      assert fs[j] == b[j - |a|];
    }
  }

  lemma {:induction false} EqualWidths(vs: seq<Slot>, size: nat)
    requires forall k :: 0 <= k < |vs| ==> vs[k].bits == size
    ensures Width(vs) == |vs| * size
  {
    if vs != [] {
      EqualWidths(vs[1..], size);
      assert |vs| * size == (|vs| - 1) * size + size;
    }
  }

  /** The values packed for the first button group, cut to 32 bits. */
  function SentButtons(gs: seq<Group>, vs: seq<Slot>): nat {
    var i := FirstButtons(gs);
    if i == |gs| then 0
    else
      var k, n := FieldStart(gs, i), gs[i].count;
      if k + n <= |vs| then Pack(vs[k..k + n]) % Pow2(Min32(gs[i].Bits())) else 0
  }

  lemma ButtonsAreSent(r: seq<byte>, base: nat, vs: seq<Slot>, gs: seq<Group>)
    requires (forall g :: g in gs ==> g.Ok()) && Fills(vs, AllFields(gs, 0)) && Shr(Le(r), base) == Pack(vs)
    ensures var m := AllButtons(NoMouse, gs, 0);
      (if m.buttonsBits == 0 then 0 else Field(r, m.buttonsOff + base, Min32(m.buttonsBits))) == SentButtons(gs, vs)
  {
    hide Pow2, Shr, Pack, AllFields, Contiguous, EndOf, Width;
    AllButtonsIsFirst(NoMouse, gs, 0);
    var i, fs := FirstButtons(gs), AllFields(gs, 0);
    if i < |gs| {
      var k, n := FieldStart(gs, i), gs[i].count;
      GroupAmongFields(gs, i);
      AllFieldsContiguous(gs, 0);
      OffsetIsWidth(vs, fs, k);
      EqualWidths(vs[k..k + n], gs[i].size);
      PackedStretch(vs, k, k + n, Min32(gs[i].Bits()));
      ShrShr(Le(r), base, TotalBits(gs[..i]));
    }
  }

  /** The descriptor has an X and a Y field. */
  predicate HasAxes(d: Descriptor) {
    var fs := AllFields(d.InputGroups(), 0);
    FirstField(fs, 0x30) < |fs| && FirstField(fs, 0x31) < |fs|
  }

  /**
   * What was packed is what is read: for every supported descriptor with an X and a Y field and
   * every report that carries values for its fields, the event loop reports exactly the values of
   * the X, Y, wheel and button fields.
   */
  lemma DecodingInvertsPacking(d: Descriptor, vs: seq<Slot>, r: seq<byte>, len: nat)
    requires d.Ok() && HasAxes(d) && Fills(vs, AllFields(d.InputGroups(), 0)) && Carrying(r, d, vs) && len >= 1
    ensures Widths(AllFields(d.InputGroups(), 0)) && forall it :: it in d.Items() ==> ItemOk(it)
    ensures var fs := AllFields(d.InputGroups(), 0);
      DecodeSpec(ParseSpec(EncItems(d.Items())), r, len) ==
      Moved(Sent(fs, vs, 0x30), Sent(fs, vs, 0x31), Sent(fs, vs, 0x38), SentButtons(d.InputGroups(), vs))
  {
    hide AllFields, FirstAxis, AxisValue, Field, Pack, Shr, Widths, EncItems, ParseSpec, PartsOk, Values, Groups, FirstField;
    hide AllButtons, TotalBits, Contiguous, EndOf, Sent, SentButtons, Leads, PartItems, Stated, Le;
    var gs := d.InputGroups();
    var fs, base := AllFields(gs, 0), if d.Ids() != [] then 8 else 0;
    ParserFindsFields(d);
    GroupsAreOk(d.parts, d.First(), 1, false);
    AllFieldsWidths(gs, 0);
    AllFieldsContiguous(gs, 0);
    AxisIsSent(r, base, vs, fs, 0x30);
    AxisIsSent(r, base, vs, fs, 0x31);
    AxisIsSent(r, base, vs, fs, 0x38);
    ButtonsAreSent(r, base, vs, gs);
  }
}
