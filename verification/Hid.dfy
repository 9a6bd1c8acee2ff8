/** The HID parser and report decoder as they run, over a device record. */
module Hid {
  import opened Bytes
  import opened Bits
  import opened Words
  import opened HidBits
  import opened HidDescriptor
  import opened HidMouse
  import opened HidReport

  /** The usage of field `f`: from the range, from the list, or none. */
  method FieldUsage(s: State, f: nat) returns (u: u32)
    ensures u == UsageOf(s, f)
  {
    u := 0;
    if s.hasRange {
      var uu := U32(s.usageMin + f);
      if uu <= s.usageMax {
        u := uu;
      }
    } else if f < |s.usages| {
      u := s.usages[f];
    }
  }

  /** One round of the field loop outside the button page. */
  method NoteField(s: State, f: nat, rel: bool) returns (m: Mouse)
    ensures m == Note(s, f, rel)
  {
    hide UsageOf;
    m := s.m;
    var u := FieldUsage(s, f);
    if s.page == 1 {
      MulNonNegative(f, s.size);
      var axis := Axis(U16(U32(s.bitpos + U32(f * s.size))), U8(s.size), rel);
      if u == 0x30 && m.x.bits == 0 {
        m := m.(x := axis);
      } else if u == 0x31 && m.y.bits == 0 {
        m := m.(y := axis);
      } else if u == 0x38 && m.wheel.bits == 0 {
        m := m.(wheel := axis);
      }
    }
  }

  /** The field loop of an Input item outside the button page; `s` is the parser's local state. */
  method NoteInput(s: State, rel: bool) returns (m: Mouse)
    ensures m == NoteFields(s, s.count, rel)
  {
    hide Note;
    var t := s;
    var f := 0;
    while f < s.count
      invariant 0 <= f <= s.count && t == s.(m := NoteFields(s, f, rel))
      decreases s.count - f
    {
      var noted := NoteField(t, f, rel);
      t := t.(m := noted);
      f := f + 1;
    }
    m := t.m;
  }

  lemma MulNonNegative(a: nat, b: nat)
    ensures 0 <= a * b
  {
  }

  /** The little-endian value of an item, byte by byte. */
  method ItemValue(d: seq<byte>, i: nat, sz: nat) returns (v: nat)
    requires i + sz <= |d|
    ensures v == Le(d[i..i + sz])
  {
    hide Pow2, Or;
    v := 0;
    PowFacts();
    assert d[i..i] == [];
    for k := 0 to sz
      invariant v == Le(d[i..i + k]) && v < Pow2(8 * k)
    {
      LeShift(d[i..i + k], d[i + k]);
      LeBelow(d[i..i + k + 1]);
      assert d[i..i + k] + [d[i + k]] == d[i..i + k + 1];
      OrDisjoint(d[i + k], v, 8 * k);
      MulNonNegative(d[i + k], Pow2(8 * k));
      v := Or(v, d[i + k] * Pow2(8 * k));
    }
  }

  lemma {:induction false} LeBelow(s: seq<byte>)
    ensures Le(s) < Pow2(8 * |s|)
  {
    hide Pow2;
    PowFacts();
    if s != [] {
      LeBelow(s[1..]);
      EightMore(8 * |s[1..]|);
    }
  }

  lemma EightMore(n: nat)
    ensures Pow2(n + 8) == 256 * Pow2(n)
  {
    PowAdd(n, 8);
    assert Pow2(8) == 256;
  }

  lemma {:induction false} LeShift(s: seq<byte>, b: byte)
    ensures Le(s + [b]) == Le(s) + b * Pow2(8 * |s|)
  {
    if s == [] {
      assert [b][1..] == [];
      assert Pow2(0) == 1;
    } else {
      assert (s + [b])[1..] == s[1..] + [b];
      LeShift(s[1..], b);
      PowAdd(8, 8 * |s[1..]|);
      assert Pow2(8) == 256;
      MulAssoc(b, 256, Pow2(8 * |s[1..]|));
      MulAssoc(256, b, Pow2(8 * |s[1..]|));
    }
  }

  /** A report whose first byte is not the ID of the mouse, or that has none. */
  predicate OtherReport(m: Mouse, r: seq<byte>, len: nat)
    requires len >= 1 ==> r != []
  {
    m.hasId && (len < 1 || r[0] != m.id)
  }

  /** The bits that are read of every field of the device record lie inside the report buffer. */
  predicate Within(m: Mouse, r: seq<byte>, len: nat) {
    var base := if m.hasId then 8 else 0;
    && (len >= 1 ==> r != [])
    && (OtherReport(m, r, len) ||
        (Inside(m.x.off + base, m.x.bits, r) && Inside(m.y.off + base, m.y.bits, r) &&
         Inside(m.wheel.off + base, m.wheel.bits, r) && Inside(m.buttonsOff + base, m.buttonsBits, r)))
  }

  predicate Inside(off: nat, bits: nat, r: seq<byte>) {
    bits > 0 ==> off + Min32(bits) <= 8 * |r|
  }

  /** The part of `xhci_device_state_t` that describes a mouse. */
  class HidDevice {
    var mouse: Mouse

    constructor ()
      ensures mouse == NoMouse
    {
      mouse := NoMouse;
    }

    /** A global or local item: the parser's tables of the current values. */
    method TableItem(s: State, it: Item) returns (t: State)
      requires it.ty != 0
      ensures t == StepItem(s, it) && t.m == s.m
    {
      t := s;
      if it.ty == 1 {
        if it.tag == 0x0 {
          t := t.(page := it.v);
        } else if it.tag == 0x7 {
          t := t.(size := it.v);
        } else if it.tag == 0x9 {
          t := t.(count := it.v);
        } else if it.tag == 0x8 {
          t := t.(id := it.v, hasId := true, bitpos := 0);
        }
      } else if it.ty == 2 {
        if it.tag == 0x0 {
          if |t.usages| < 16 {
            t := t.(usages := t.usages + [it.v]);
          }
        } else if it.tag == 0x1 {
          t := t.(usageMin := it.v, hasRange := true);
        } else if it.tag == 0x2 {
          t := t.(usageMax := it.v, hasRange := true);
        }
      }
    }

    /** A Collection, End Collection, Input or Output item. */
    method MainItem(s: State, it: Item) returns (t: State)
      requires it.ty == 0 && mouse == s.m
      modifies this
      ensures t == StepItem(s, it) && mouse == t.m
    {
      hide NoteFields;
      t := s;
      if it.tag == 0xA {
        var u: u32 := 0;
        if |t.usages| != 0 {
          u := t.usages[0];
        }
        if t.page == 0x01 && u == 0x02 {
          t := t.(seen := true);
        }
        if t.seen {
          if !t.inApp {
            t := t.(inApp := true);
          } else {
            t := t.(inPhys := true);
          }
        }
        t := t.(usages := [], hasRange := false);
      } else if it.tag == 0xC {
        if t.inPhys {
          t := t.(inPhys := false);
        } else if t.inApp {
          t := t.(inApp := false);
        }
        t := t.(usages := [], hasRange := false);
      } else if it.tag == 0x8 || it.tag == 0x9 {
        t := InputOrOutput(s, it.v);
      }
    }

    method InputOrOutput(s: State, v: u32) returns (t: State)
      requires mouse == s.m
      modifies this
      ensures t == InputItem(s, v) && mouse == t.m
    {
      hide NoteFields;
      var rel := v / 4 % 2 == 1;
      var count: nat, sizeBits: nat := s.count, s.size;
      if count == 0 || sizeBits == 0 {
        return s.(usages := [], hasRange := false);
      }
      MulNonNegative(count, sizeBits);
      var advance: u32 := U32(count * sizeBits);
      if s.inApp || s.inPhys {
        if s.page == 0x09 {
          if mouse.buttonsBits == 0 {
            mouse := mouse.(buttonsOff := U16(s.bitpos), buttonsBits := U16(advance));
          }
        } else {
          var noted := NoteInput(s, rel);
          mouse := noted;
        }
      }
      t := s.(m := mouse, bitpos := U32(s.bitpos + advance), usages := [], hasRange := false);
    }

    /** `xhci_hid_parse_report_desc_mouse` */
    method ParseReportDesc(d: seq<byte>)
      modifies this
      ensures mouse == ParseSpec(d)
    {
      hide Le, Pow2, Or, StepItem, ParseFrom, TokenAt;
      mouse := NoMouse;
      var s := Initial;
      var i := 0;
      while i < |d|
        invariant s.m == mouse
        invariant ParseFrom(d, 0, Initial) == ParseFrom(d, i, s)
        decreases |d| - i
      {
        ParseNext(d, i, s);
        var p := d[i];
        i := i + 1;
        if p == 0xFE {
          if i + 2 > |d| {
            break;
          }
          var skip := d[i];
          i := i + 2;
          if i + skip > |d| {
            break;
          }
          i := i + skip;
          continue;
        }
        var sz := if p % 4 == 3 then 4 else p % 4;
        if i + sz > |d| {
          break;
        }
        LeBound(d[i..i + sz]);
        var v: u32 := ItemValue(d, i, sz);
        i := i + sz;
        var it := Item(p / 4 % 4, p / 16, v, sz);
        ParseShort(d, i - 1 - sz, s, sz, v);
        if it.ty == 0 {
          s := MainItem(s, it);
        } else {
          s := TableItem(s, it);
        }
      }
      ParseDone(d, i, s);
      if mouse.x.bits != 0 && mouse.y.bits != 0 {
        mouse := mouse.(hasId := s.hasId, id := U8(s.id), valid := true);
      }
    }

    /** The mouse branch of the event loop: what it hands to the pointer for a report. */
    method DecodeReport(r: seq<byte>, len: nat) returns (e: MouseEvent)
      requires Within(mouse, r, len)
      ensures e == DecodeSpec(mouse, r, len)
    {
      hide Field, Signed, Pow2;
      var base := 0;
      if mouse.hasId {
        if len < 1 {
          return Ignored;
        }
        if r[0] != mouse.id {
          return Ignored;
        }
        base := 8;
      }
      var buttons := 0;
      if mouse.buttonsBits != 0 {
        buttons := GetBitsU32(r, mouse.buttonsOff + base, mouse.buttonsBits);
      }
      var dx := ExtractAxis(r, mouse.x.off + base, mouse.x.bits);
      var dy := ExtractAxis(r, mouse.y.off + base, mouse.y.bits);
      var wheel := 0;
      if mouse.wheel.bits != 0 {
        wheel := ExtractAxis(r, mouse.wheel.off + base, mouse.wheel.bits);
      }
      e := Moved(dx, dy, wheel, buttons);
    }
  }

  predicate LongItemFits(d: seq<byte>, i: nat)
    requires i < |d|
  {
    i + 3 <= |d| && i + 3 + d[i + 1] <= |d|
  }

  lemma ParseNext(d: seq<byte>, i: nat, s: State)
    requires i < |d|
    ensures d[i] == 0xFE && !LongItemFits(d, i) ==> ParseFrom(d, i, s) == s
    ensures d[i] == 0xFE && LongItemFits(d, i) ==> ParseFrom(d, i, s) == ParseFrom(d, i + 3 + d[i + 1], s)
    ensures d[i] != 0xFE && i + 1 + ItemBytes(d[i] % 4) > |d| ==> ParseFrom(d, i, s) == s
  {
  }

  lemma ParseDone(d: seq<byte>, i: nat, s: State)
    ensures i >= |d| ==> ParseFrom(d, i, s) == s
  {
  }

  lemma ParseShort(d: seq<byte>, i: nat, s: State, n: nat, v: u32)
    requires i < |d| && d[i] != 0xFE && n == ItemBytes(d[i] % 4) && i + 1 + n <= |d| && v == Le(d[i + 1..i + 1 + n])
    ensures ParseFrom(d, i, s) == ParseFrom(d, i + 1 + n, StepItem(s, Item(d[i] / 4 % 4, d[i] / 16, v, n)))
  {
    hide StepItem, Le;
  }

  // ---- A whole exchange ----

  lemma WidthUpto(vs: seq<Slot>, k: nat)
    requires k <= |vs|
    ensures Width(vs[..k]) <= Width(vs)
  {
    PackConcat(vs[..k], vs[k..]);
    assert vs[..k] + vs[k..] == vs;
  }

  lemma AxisInside(fs: seq<FieldDesc>, vs: seq<Slot>, usage: nat, base: nat, r: seq<byte>)
    requires Fills(vs, fs) && Contiguous(fs, 0) && base + Width(vs) <= 8 * |r|
    ensures Inside(FirstAxis(fs, usage).off + base, FirstAxis(fs, usage).bits, r)
  {
    hide Width, Contiguous;
    var k := FirstField(fs, usage);
    if k < |fs| {
      OffsetIsWidth(vs, fs, k);
      OneWider(vs, k + 1);
      WidthUpto(vs, k + 1);
    }
  }

  lemma ButtonsInside(gs: seq<Group>, vs: seq<Slot>, base: nat, r: seq<byte>)
    requires (forall g :: g in gs ==> g.Ok()) && Fills(vs, AllFields(gs, 0)) && base + Width(vs) <= 8 * |r|
    ensures var m := AllButtons(NoMouse, gs, 0); Inside(m.buttonsOff + base, m.buttonsBits, r)
  {
    hide AllFields, Contiguous, EndOf, Width;
    AllButtonsIsFirst(NoMouse, gs, 0);
    var i := FirstButtons(gs);
    if i < |gs| {
      var k, n := FieldStart(gs, i), gs[i].count;
      GroupAmongFields(gs, i);
      AllFieldsContiguous(gs, 0);
      OffsetIsWidth(vs, AllFields(gs, 0), k);
      EqualWidths(vs[k..k + n], gs[i].size);
      PackConcat(vs[..k], vs[k..k + n]);
      assert vs[..k + n] == vs[..k] + vs[k..k + n];
      WidthUpto(vs, k + n);
    }
  }

  lemma ReportLength(d: Descriptor, vs: seq<Slot>)
    requires d.Ok()
    ensures (if d.Ids() != [] then 8 else 0) + Width(vs) <= 8 * |PackReport(d, vs)|
  {
  }

  lemma SomeWidth(vs: seq<Slot>, fs: seq<FieldDesc>)
    requires Fills(vs, fs) && fs != [] && Widths(fs)
    ensures Width(vs) > 0
  {
    assert vs[0].bits == fs[0].bits;
  }

  /** A packed report holds every bit that is read of it. */
  lemma PackedReportIsWithin(d: Descriptor, vs: seq<Slot>)
    requires d.Ok() && Fills(vs, AllFields(d.InputGroups(), 0))
    ensures forall it :: it in d.Items() ==> ItemOk(it)
    ensures var r := PackReport(d, vs); Within(ParseSpec(EncItems(d.Items())), r, |r|)
  {
    hide AllFields, FirstAxis, EncItems, ParseSpec, PartsOk, Values, Groups, FirstField, AllButtons, TotalBits, Contiguous;
    hide Width, Pack, Fills, Inside;
    var gs, r := d.InputGroups(), PackReport(d, vs);
    var fs := AllFields(gs, 0);
    ParserFindsFields(d);
    var m := ParseSpec(EncItems(d.Items()));
    GroupsAreOk(d.parts, d.First(), 1, false);
    AllFieldsContiguous(gs, 0);
    var base := if m.hasId then 8 else 0;
    ReportLength(d, vs);
    AxisInside(fs, vs, 0x30, base, r);
    AxisInside(fs, vs, 0x31, base, r);
    AxisInside(fs, vs, 0x38, base, r);
    ButtonsInside(gs, vs, base, r);
  }

  /**
   * A device that has parsed a supported descriptor reports of the report packed for some values
   * exactly those values.
   */
  method ReceiveReport(d: Descriptor, vs: seq<Slot>) returns (e: MouseEvent)
    requires d.Ok() && HasAxes(d) && Fills(vs, AllFields(d.InputGroups(), 0))
    ensures Widths(AllFields(d.InputGroups(), 0))
    ensures var fs := AllFields(d.InputGroups(), 0);
      e == Moved(Sent(fs, vs, 0x30), Sent(fs, vs, 0x31), Sent(fs, vs, 0x38), SentButtons(d.InputGroups(), vs))
  {
    hide AllFields, EncItems, ParseSpec, PartsOk, Values, Groups, FirstField, Contiguous, Width, Pack, PackReport, Carrying;
    hide Sent, SentButtons, Within, DecodeSpec, Widths;
    GroupsAreOk(d.parts, d.First(), 1, false);
    AllFieldsWidths(d.InputGroups(), 0);
    PackedReportIsWithin(d, vs);
    PackReportCarries(d, vs);
    ReportLength(d, vs);
    SomeWidth(vs, AllFields(d.InputGroups(), 0));
    var r := PackReport(d, vs);
    DecodingInvertsPacking(d, vs, r, |r|);
    var dev := new HidDevice();
    dev.ParseReportDesc(EncItems(d.Items()));
    e := dev.DecodeReport(r, |r|);
  }

  // ---- Reports of other kinds ----

  /** The descriptor states report IDs, and the report is empty or starts with another one than the last. */
  predicate NotOfMouse(d: Descriptor, r: seq<byte>, len: nat)
    requires len >= 1 ==> r != []
  {
    d.Ids() != [] && (len == 0 || r[0] != d.Ids()[|d.Ids()| - 1])
  }

  /** The bits of a report: all fields of the descriptor, after a byte for the ID if there is one. */
  function ReportBits(d: Descriptor): nat {
    (if d.Ids() != [] then 8 else 0) + TotalBits(d.InputGroups())
  }

  /** A report is ignored if and only if it is not one of the mouse. */
  lemma IgnoredIff(d: Descriptor, r: seq<byte>, len: nat)
    requires d.Ok() && HasAxes(d) && (len >= 1 ==> r != [])
    ensures forall it :: it in d.Items() ==> ItemOk(it)
    ensures DecodeSpec(ParseSpec(EncItems(d.Items())), r, len) == Ignored <==> NotOfMouse(d, r, len)
  {
    hide ParseSpec, EncItems, AllFields, FirstAxis, FirstField, AllButtons, Values, PartsOk, Groups, AxisValue, Field;
    ParserFindsFields(d);
  }

  function Blank(fs: seq<FieldDesc>): seq<Slot> {
    seq<Slot>(|fs|, i requires 0 <= i < |fs| => Slot(0, fs[i].bits))
  }

  /** A buffer that holds a whole report holds every bit that is read of it. */
  lemma WholeReportIsWithin(d: Descriptor, r: seq<byte>, len: nat)
    requires d.Ok() && HasAxes(d) && (len >= 1 ==> r != [])
    requires NotOfMouse(d, r, len) || ReportBits(d) <= 8 * |r|
    ensures forall it :: it in d.Items() ==> ItemOk(it)
    ensures Within(ParseSpec(EncItems(d.Items())), r, len)
  {
    hide AllFields, FirstAxis, EncItems, ParseSpec, PartsOk, Values, Groups, FirstField, AllButtons, TotalBits, Contiguous;
    hide Width, Pow2, Inside, EndOf;
    ParserFindsFields(d);
    var gs, m := d.InputGroups(), ParseSpec(EncItems(d.Items()));
    var fs := AllFields(gs, 0);
    if !NotOfMouse(d, r, len) {
      var vs, base := Blank(fs), if m.hasId then 8 else 0;
      GroupsAreOk(d.parts, d.First(), 1, false);
      AllFieldsContiguous(gs, 0);
      BlankFills(fs);
      OffsetIsWidth(vs, fs, |fs|);
      assert vs[..|fs|] == vs;
      AxisInside(fs, vs, 0x30, base, r);
      AxisInside(fs, vs, 0x31, base, r);
      AxisInside(fs, vs, 0x38, base, r);
      ButtonsInside(gs, vs, base, r);
    }
  }

  lemma BlankFills(fs: seq<FieldDesc>)
    ensures Fills(Blank(fs), fs)
  {
    PowersArePositive();
  }

  lemma PowersArePositive()
    ensures forall n: nat :: Pow2(n) > 0
  {
    forall n: nat
      ensures Pow2(n) > 0
    {
    }
  }

  /** A device that has parsed a supported descriptor ignores exactly the reports that are not the mouse's. */
  method SortReport(d: Descriptor, r: seq<byte>, len: nat) returns (e: MouseEvent)
    requires d.Ok() && HasAxes(d) && (len >= 1 ==> r != [])
    requires NotOfMouse(d, r, len) || ReportBits(d) <= 8 * |r|
    ensures e == Ignored <==> NotOfMouse(d, r, len)
  {
    hide ParseSpec, EncItems, PartsOk, Values, Groups, FirstField, AllFields, Within, DecodeSpec, NotOfMouse, ReportBits;
    IgnoredIff(d, r, len);
    WholeReportIsWithin(d, r, len);
    var dev := new HidDevice();
    dev.ParseReportDesc(EncItems(d.Items()));
    e := dev.DecodeReport(r, len);
  }
}
