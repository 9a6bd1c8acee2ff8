/**
 * HID report descriptors (section 6.2.2 of USB HID 1.11) as bytes and as items, and the item-by-item
 * meaning that the mouse parser gives them.
 */
module HidDescriptor {
  import opened Bytes
  import opened Words

  // ---- What the parser keeps ----

  datatype Axis = Axis(off: nat, bits: nat, rel: bool)

  /** The fields of the device record that the parser fills. */
  datatype Mouse = Mouse(valid: bool, hasId: bool, id: byte, buttonsOff: nat, buttonsBits: nat,
                         x: Axis, y: Axis, wheel: Axis)

  const NoAxis: Axis := Axis(0, 0, false)
  const NoMouse: Mouse := Mouse(false, false, 0, 0, 0, NoAxis, NoAxis, NoAxis)

  /** The parser's local variables. */
  datatype State = State(page: u32, size: u32, count: u32, bitpos: u32, id: u32, hasId: bool,
                         usages: seq<u32>, usageMin: u32, usageMax: u32, hasRange: bool,
                         inApp: bool, inPhys: bool, seen: bool, m: Mouse)

  const Initial: State := State(0, 0, 0, 0, 0, false, [], 0, 0, false, false, false, false, NoMouse)

  // ---- Items ----

  /** A short item: type, tag, value and how many bytes carry it (0, 1, 2 or 4). */
  datatype Item = Item(ty: nat, tag: nat, v: u32, n: nat)

  /** What stands at an offset of the descriptor. */
  datatype Token = End | Long(next: nat) | Short(item: Item, next: nat)

  function ItemBytes(code: nat): nat { if code == 3 then 4 else code }

  lemma {:induction false} LeBound(s: seq<byte>)
    ensures |s| <= 4 ==> Le(s) < 0x1_0000_0000
    ensures |s| <= 2 ==> Le(s) < 0x1_0000
    ensures |s| <= 1 ==> Le(s) < 0x100
    ensures |s| <= 3 ==> Le(s) < 0x100_0000
  {
    if s != [] {
      LeBound(s[1..]);
    }
  }

  function TokenAt(d: seq<byte>, i: nat): Token
    requires i < |d|
  {
    var p := d[i];
    if p == 0xFE then
      if i + 3 > |d| || i + 3 + d[i + 1] > |d| then End else Long(i + 3 + d[i + 1])
    else
      var n := ItemBytes(p % 4);
      if i + 1 + n > |d| then End
      else
        LeBound(d[i + 1..i + 1 + n]);
        Short(Item(p / 4 % 4, p / 16, Le(d[i + 1..i + 1 + n]), n), i + 1 + n)
  }

  // ---- The meaning of an item ----

  function U16(x: nat): nat { x % 0x1_0000 }
  function U8(x: nat): byte { x % 0x100 }

  /** The usage of field `f` of the current main item. */
  function UsageOf(s: State, f: nat): u32 {
    if s.hasRange then
      if U32(s.usageMin + f) <= s.usageMax then U32(s.usageMin + f) else 0
    else if f < |s.usages| then s.usages[f] else 0
  }

  function AxisAt(s: State, f: nat, rel: bool): Axis {
    Axis(U16(U32(s.bitpos + U32(f * s.size))), U8(s.size), rel)
  }

  /** Field `f` of an Input item in the mouse collection. */
  function Note(s: State, f: nat, rel: bool): Mouse {
    var m, u := s.m, UsageOf(s, f);
    if s.page == 1 then
      if u == 0x30 && m.x.bits == 0 then m.(x := AxisAt(s, f, rel))
      else if u == 0x31 && m.y.bits == 0 then m.(y := AxisAt(s, f, rel))
      else if u == 0x38 && m.wheel.bits == 0 then m.(wheel := AxisAt(s, f, rel))
      else m
    else m
  }

  /** The first `n` fields of an Input item. */
  function NoteFields(s: State, n: nat, rel: bool): Mouse {
    if n == 0 then s.m else var t := s.(m := NoteFields(s, n - 1, rel)); Note(t, n - 1, rel)
  }

  function NoteButtons(s: State): Mouse {
    if s.m.buttonsBits == 0
    then s.m.(buttonsOff := U16(s.bitpos), buttonsBits := U16(U32(s.count * s.size)))
    else s.m
  }

  function ClearLocals(s: State): State { s.(usages := [], hasRange := false) }

  /** An Input or Output item with flags `v`. */
  function InputItem(s: State, v: u32): State {
    if s.count == 0 || s.size == 0 then ClearLocals(s)
    else
      var rel := v / 4 % 2 == 1;
      var m :=
        if !(s.inApp || s.inPhys) then s.m
        else if s.page == 9 then NoteButtons(s)
        else NoteFields(s, s.count, rel);
      ClearLocals(s.(m := m, bitpos := U32(s.bitpos + U32(s.count * s.size))))
  }

  function CollectionItem(s: State): State {
    var u := if s.usages == [] then 0 else s.usages[0];
    var seen := s.seen || (s.page == 1 && u == 2);
    ClearLocals(s.(seen := seen, inApp := s.inApp || seen, inPhys := s.inPhys || (seen && s.inApp)))
  }

  function EndItem(s: State): State {
    ClearLocals(if s.inPhys then s.(inPhys := false) else s.(inApp := false))
  }

  function StepItem(s: State, it: Item): State {
    if it.ty == 1 then
      if it.tag == 0 then s.(page := it.v)
      else if it.tag == 7 then s.(size := it.v)
      else if it.tag == 9 then s.(count := it.v)
      else if it.tag == 8 then s.(id := it.v, hasId := true, bitpos := 0)
      else s
    else if it.ty == 2 then
      if it.tag == 0 then (if |s.usages| < 16 then s.(usages := s.usages + [it.v]) else s)
      else if it.tag == 1 then s.(usageMin := it.v, hasRange := true)
      else if it.tag == 2 then s.(usageMax := it.v, hasRange := true)
      else s
    else if it.ty == 0 then
      if it.tag == 0xA then CollectionItem(s)
      else if it.tag == 0xC then EndItem(s)
      else if it.tag == 8 || it.tag == 9 then InputItem(s, it.v)
      else s
    else s
  }

  function ParseFrom(d: seq<byte>, i: nat, s: State): State
    decreases |d| - i
  {
    if i >= |d| then s
    else
      match TokenAt(d, i)
      case End => s
      case Long(next) => ParseFrom(d, next, s)
      case Short(it, next) => ParseFrom(d, next, StepItem(s, it))
  }

  function Finish(s: State): Mouse {
    if s.m.x.bits != 0 && s.m.y.bits != 0
    then s.m.(hasId := s.hasId, id := U8(s.id), valid := true)
    else s.m
  }

  /** What the parser records for a descriptor. */
  function ParseSpec(d: seq<byte>): Mouse {
    Finish(ParseFrom(d, 0, Initial))
  }

  // ---- Writing items ----

  function LeBytes(v: nat, n: nat): (b: seq<byte>)
    ensures |b| == n
  {
    if n == 0 then [] else [v % 0x100] + LeBytes(v / 0x100, n - 1)
  }

  predicate FitsIn(v: nat, n: nat) {
    (n == 0 && v == 0) || (n == 1 && v < 0x100) || (n == 2 && v < 0x1_0000) || (n == 4 && v < 0x1_0000_0000)
  }

  predicate ItemOk(it: Item) {
    it.ty < 3 && it.tag < 16 && FitsIn(it.v, it.n)
  }

  function EncItem(it: Item): (b: seq<byte>)
    requires ItemOk(it)
    ensures |b| == 1 + it.n
  {
    [it.tag * 16 + it.ty * 4 + (if it.n == 4 then 3 else it.n)] + LeBytes(it.v, it.n)
  }

  function EncItems(its: seq<Item>): seq<byte>
    requires forall it :: it in its ==> ItemOk(it)
  {
    if its == [] then [] else EncItem(its[0]) + EncItems(its[1..])
  }

  lemma LeBytesRoundTrip(v: nat, n: nat)
    requires FitsIn(v, n)
    ensures Le(LeBytes(v, n)) == v
  {
    var a := v / 0x100;
    var b := a / 0x100;
    var c := b / 0x100;
    LeOf(v, n);
    LeOf(a, 1);
    LeOf(a, 3);
    LeOf(b, 2);
    LeOf(c, 1);
  }

  lemma LeOf(v: nat, n: nat)
    ensures Le(LeBytes(v, n)) == if n == 0 then 0 else v % 0x100 + 0x100 * Le(LeBytes(v / 0x100, n - 1))
  {
    if n > 0 {
      assert LeBytes(v, n)[1..] == LeBytes(v / 0x100, n - 1);
    }
  }

  lemma TokenOfItem(d: seq<byte>, i: nat, it: Item)
    requires ItemOk(it) && i + |EncItem(it)| <= |d| && d[i..i + |EncItem(it)|] == EncItem(it)
    ensures TokenAt(d, i) == Short(it, i + |EncItem(it)|)
  {
    hide LeBytes;
    var e := EncItem(it);
    var cut := d[i..i + |e|];
    assert cut[0] == d[i];
    assert d[i + 1..i + 1 + it.n] == cut[1..] == LeBytes(it.v, it.n);
    LeBytesRoundTrip(it.v, it.n);
    Prefix(it);
  }

  lemma Prefix(it: Item)
    requires ItemOk(it)
    ensures var p := it.tag * 16 + it.ty * 4 + (if it.n == 4 then 3 else it.n);
      p < 256 && p != 0xFE && p / 16 == it.tag && p / 4 % 4 == it.ty && ItemBytes(p % 4) == it.n
  {
    assert it.tag * 16 + it.ty * 4 == 4 * (it.tag * 4 + it.ty);
  }

  function StepItems(s: State, its: seq<Item>): State
    decreases |its|
  {
    if its == [] then s else StepItems(StepItem(s, its[0]), its[1..])
  }

  /** Parsing written items is running through their meanings, whatever sizes carry their values. */
  lemma {:induction false} ParseItems(d: seq<byte>, i: nat, s: State, its: seq<Item>)
    requires forall it :: it in its ==> ItemOk(it)
    requires i <= |d| && d[i..] == EncItems(its)
    ensures ParseFrom(d, i, s) == StepItems(s, its)
    decreases |its|
  {
    hide StepItem, EncItem, TokenAt;
    if its != [] {
      var it := its[0];
      var e := EncItem(it);
      assert it in its;
      assert d[i..i + |e|] == d[i..][..|e|] && d[i + |e|..] == d[i..][|e|..];
      TokenOfItem(d, i, it);
      ParseItems(d, i + |e|, StepItem(s, it), its[1..]);
    }
  }

  lemma {:induction false} StepItemsConcat(s: State, a: seq<Item>, b: seq<Item>)
    ensures StepItems(s, a + b) == StepItems(StepItems(s, a), b)
    decreases |a|
  {
    hide StepItem;
    if a == [] {
      assert a + b == b;
    } else {
      assert (a + b)[1..] == a[1..] + b;
      StepItemsConcat(StepItem(s, a[0]), a[1..], b);
    }
  }
}
