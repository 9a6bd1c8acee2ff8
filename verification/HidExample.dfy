/** The example mouse of USB HID 1.11 (appendix E.10), as a descriptor of the supported kind. */
module HidExample {
  import opened Bytes
  import opened HidDescriptor
  import opened HidMouse

  /** An item that carries its value in one byte. */
  function One(ty: nat, tag: nat, v: byte): Item { Item(ty, tag, v, 1) }

  const End: Item := Item(0, 0xC, 0, 0)

  function Opening(): Part { Part([One(1, 0, 1), One(2, 0, 2)], One(0, 0xA, 1)) }

  function Pointer(): Part { Part([One(2, 0, 1)], One(0, 0xA, 0)) }

  function Buttons(): Part {
    Part([One(1, 0, 9), One(2, 1, 1), One(2, 2, 3), One(1, 1, 0), One(1, 2, 1), One(1, 9, 3), One(1, 7, 1)], One(0, 8, 2))
  }

  /** The padding states only a count and a size; the page is still that of the buttons. */
  function Padding(): Part { Part([One(1, 9, 1), One(1, 7, 5)], One(0, 8, 1)) }

  function Axes(): Part {
    Part([One(1, 0, 1), One(2, 0, 0x30), One(2, 0, 0x31), One(1, 1, 0x81), One(1, 2, 0x7F), One(1, 7, 8), One(1, 9, 2)],
         One(0, 8, 6))
  }

  function Example(): Descriptor {
    Descriptor(Opening(), [Pointer(), Buttons(), Padding(), Axes(), Part([], End), Part([], End)])
  }

  /** How far the first `n` items say what all further `n + 1` say. */
  lemma Upto(its: seq<Item>, n: nat, m: nat)
    requires n < |its| && m == n + 1
    ensures forall ty, tag, v ::
      Last(its[..m], ty, tag, v) == if Is(its[n], ty, tag) then its[n].v else Last(its[..n], ty, tag, v)
    ensures forall ty, tag ::
      Values(its[..m], ty, tag) == Values(its[..n], ty, tag) + if Is(its[n], ty, tag) then [its[n].v] else []
    ensures forall ty, tag :: Has(its[..m], ty, tag) <==> Has(its[..n], ty, tag) || Is(its[n], ty, tag)
  {
    assert its[..m] == its[..n] + [its[n]];
    More(its[..n], its[n]);
  }

  lemma Nothing()
    ensures forall ty, tag, v :: Last([], ty, tag, v) == v
    ensures forall ty, tag :: Values([], ty, tag) == [] && !Has([], ty, tag)
  {
  }

  lemma OpeningLead()
    ensures var its := Opening().lead;
      && Stated(its, NoGlobals) == Globals(1, 0, 0) && Values(its, 2, 0) == [2] && !Has(its, 1, 8)
      && forall it :: it in its ==> IsLead(it)
  {
    hide Last, Values, Has;
    var its := Opening().lead;
    assert its[..2] == its && its[..0] == [];
    Nothing();
    Upto(its, 0, 1);
    Upto(its, 1, 2);
  }

  lemma PointerLead(g: Globals)
    ensures var its := Pointer().lead; Stated(its, g) == g && !Has(its, 1, 8) && forall it :: it in its ==> IsLead(it)
  {
    hide Last, Values, Has;
    var its := Pointer().lead;
    assert its[..1] == its && its[..0] == [];
    Nothing();
    Upto(its, 0, 1);
  }

  lemma ButtonsLead(g: Globals)
    ensures var its := Buttons().lead;
      && Stated(its, g) == Globals(9, 1, 3) && Usages(its) == [1, 2, 3] && !Has(its, 1, 8)
      && forall it :: it in its ==> IsLead(it)
  {
    hide Last, Values, Has;
    var its := Buttons().lead;
    assert its[..7] == its && its[..0] == [];
    Nothing();
    Upto(its, 0, 1);
    Upto(its, 1, 2);
    Upto(its, 2, 3);
    Upto(its, 3, 4);
    Upto(its, 4, 5);
    Upto(its, 5, 6);
    Upto(its, 6, 7);
    assert Usages(its) == Span(1, 3);
  }

  lemma PaddingLead(g: Globals)
    ensures var its := Padding().lead;
      && Stated(its, g) == Globals(g.page, 5, 1) && Usages(its) == [] && !Has(its, 1, 8)
      && forall it :: it in its ==> IsLead(it)
  {
    hide Last, Values, Has;
    var its := Padding().lead;
    assert its[..2] == its && its[..0] == [];
    Nothing();
    Upto(its, 0, 1);
    Upto(its, 1, 2);
  }

  lemma AxesLead(g: Globals)
    ensures var its := Axes().lead;
      && Stated(its, g) == Globals(1, 8, 2) && Usages(its) == [0x30, 0x31] && UsagesOk(its) && !Has(its, 1, 8)
      && forall it :: it in its ==> IsLead(it)
  {
    hide Last, Values, Has;
    var its := Axes().lead;
    assert its[..7] == its && its[..0] == [];
    Nothing();
    Upto(its, 0, 1);
    Upto(its, 1, 2);
    Upto(its, 2, 3);
    Upto(its, 3, 4);
    Upto(its, 4, 5);
    Upto(its, 5, 6);
    Upto(its, 6, 7);
  }

  /** The Input items of the example: three buttons, five bits of padding, X and Y. */
  const ExampleGroups: seq<Group> :=
    [Group(9, 1, 3, [1, 2, 3], false), Group(9, 5, 1, [], false), Group(1, 8, 2, [0x30, 0x31], true)]

  lemma EndLead(g: Globals)
    ensures Stated([], g) == g && !Has([], 1, 8)
  {
  }

  /** The first part and the others. */
  lemma Next(p: Part, rest: seq<Part>, g: Globals, depth: nat, started: bool)
    ensures var g', parts := Stated(p.lead, g), [p] + rest;
      && (PartsOk(parts, g, depth, started) <==>
          PartOk(p, g', depth, started) && PartsOk(rest, g', Deeper(p, depth), started || p.main.tag == 8))
      && Groups(parts, g) == (if p.main.tag == 8 then [GroupOf(p, g')] else []) + Groups(rest, g')
      && Leads(parts) == p.lead + Leads(rest)
  {
    assert ([p] + rest)[1..] == rest;
  }

  lemma PointerIsOk()
    ensures PartOk(Pointer(), Globals(1, 0, 0), 1, false)
  {
    hide Last, Values, Has, Stated, IsLead;
    PointerLead(NoGlobals);
  }

  lemma ButtonsAreOk()
    ensures PartOk(Buttons(), Globals(9, 1, 3), 2, false)
  {
    hide Last, Values, Has, UsagesOk, Usages, Stated, IsLead;
    ButtonsLead(NoGlobals);
    assert ShortUsages(Buttons().lead);
    assert forall it :: it in Buttons().Items() ==> ItemOk(it);
  }

  lemma PaddingIsOk()
    ensures PartOk(Padding(), Globals(9, 5, 1), 2, true)
  {
    hide Last, Values, Has, UsagesOk, Usages, Stated, IsLead;
    PaddingLead(NoGlobals);
    assert ShortUsages(Padding().lead);
    assert forall it :: it in Padding().Items() ==> ItemOk(it);
  }

  lemma AxesAreOk()
    ensures PartOk(Axes(), Globals(1, 8, 2), 2, true)
  {
    hide Last, Values, Has, UsagesOk, Usages, Stated, IsLead;
    AxesLead(NoGlobals);
    assert ShortUsages(Axes().lead);
    assert forall it :: it in Axes().Items() ==> ItemOk(it);
  }

  lemma EndsAreOk()
    ensures PartOk(Part([], End), Globals(1, 8, 2), 2, true) && PartOk(Part([], End), Globals(1, 8, 2), 1, true)
  {
    EndLead(NoGlobals);
  }

  lemma ExampleParts()
    ensures var parts := Example().parts;
      && PartsOk(parts, Globals(1, 0, 0), 1, false) && Groups(parts, Globals(1, 0, 0)) == ExampleGroups
  {
    hide Last, Values, Has, UsagesOk, Usages, Stated, IsLead, PartOk, PartsOk, Groups, Leads;
    PointerIsOk();
    ButtonsAreOk();
    PaddingIsOk();
    AxesAreOk();
    EndsAreOk();
    var g0, g1, g2, g3 := Globals(1, 0, 0), Globals(9, 1, 3), Globals(9, 5, 1), Globals(1, 8, 2);
    PointerLead(g0);
    ButtonsLead(g0);
    PaddingLead(g1);
    AxesLead(g2);
    EndLead(g3);
    var end := Part([], End);
    var r5, r4 := [end], [end] + [end];
    var r3 := [Axes()] + r4;
    var r2 := [Padding()] + r3;
    var r1 := [Buttons()] + r2;
    NoParts(g3);
    assert [end] + [] == [end];
    Next(end, [], g3, 1, true);
    Next(end, r5, g3, 2, true);
    Next(Axes(), r4, g2, 2, true);
    Next(Padding(), r3, g1, 2, true);
    Next(Buttons(), r2, g0, 2, false);
    Next(Pointer(), r1, g0, 1, false);
    assert Example().parts == [Pointer()] + r1;
  }

  lemma NoParts(g: Globals)
    ensures PartsOk([], g, 0, true) && Groups([], g) == []
  {
  }

  /** It states no report ID. */
  lemma ExampleHasNoId()
    ensures Example().Ids() == []
  {
    hide Leads;
    var parts := Example().parts;
    assert forall p :: p in parts ==> !Has(p.lead, 1, 8);
    NoIdInLeads(parts);
    NoneStated(Example().opening.lead + Leads(parts));
  }

  lemma {:induction false} NoIdInLeads(parts: seq<Part>)
    requires forall p :: p in parts ==> !Has(p.lead, 1, 8)
    ensures !Has(Leads(parts), 1, 8)
  {
    if parts != [] {
      NoIdInLeads(parts[1..]);
    }
  }

  lemma {:induction false} NoneStated(its: seq<Item>)
    requires forall it :: it in its ==> !Is(it, 1, 8)
    ensures Values(its, 1, 8) == []
  {
    if its != [] {
      NoneStated(its[..|its| - 1]);
    }
  }

  // ---- Its bytes ----

  lemma OneBytes(ty: nat, tag: nat, v: byte)
    requires ty < 3 && tag < 16
    ensures ItemOk(One(ty, tag, v)) && EncItem(One(ty, tag, v)) == [16 * tag + 4 * ty + 1, v]
  {
    var it := One(ty, tag, v);
    assert LeBytes(it.v, 0) == [];
    assert LeBytes(it.v / 0x100, 0) == [];
    assert LeBytes(it.v, 1) == [v];
  }

  /** An item in one byte of value, and what follows it. */
  lemma Then(ty: nat, tag: nat, v: byte, rest: seq<Item>)
    requires ty < 3 && tag < 16 && forall it :: it in rest ==> ItemOk(it)
    ensures ItemOk(One(ty, tag, v))
    ensures forall it :: it in [One(ty, tag, v)] + rest ==> ItemOk(it)
    ensures EncItems([One(ty, tag, v)] + rest) == [16 * tag + 4 * ty + 1, v] + EncItems(rest)
  {
    OneBytes(ty, tag, v);
    assert ([One(ty, tag, v)] + rest)[1..] == rest;
  }

  lemma EndBytes()
    ensures ItemOk(End) && EncItems([End]) == [0xC0]
  {
    assert [End][1..] == [];
    assert LeBytes(0, 0) == [];
  }

  lemma {:induction false} EncConcat(a: seq<Item>, b: seq<Item>)
    requires forall it :: it in a + b ==> ItemOk(it)
    ensures (forall it :: it in a ==> ItemOk(it)) && forall it :: it in b ==> ItemOk(it)
    ensures EncItems(a + b) == EncItems(a) + EncItems(b)
    decreases |a|
  {
    hide EncItem, ItemOk;
    assert forall it :: it in b ==> it in a + b;
    assert forall it :: it in a ==> it in a + b;
    if a == [] {
      assert a + b == b;
    } else {
      assert (a + b)[1..] == a[1..] + b;
      EncConcat(a[1..], b);
    }
  }

  lemma NoBytes()
    ensures EncItems([]) == []
  {
  }

  lemma OpeningBytes()
    ensures forall it :: it in Opening().Items() ==> ItemOk(it)
    ensures EncItems(Opening().Items()) ==
      [0x05, 0x01, 0x09, 0x02, 0xA1, 0x01]
  {
    hide EncItem, ItemOk, EncItems;
    NoBytes();
    var its3: seq<Item> := [];
    Then(0, 10, 1, its3);
    var its2 := [One(0, 10, 1)] + its3;
    Then(2, 0, 2, its2);
    var its1 := [One(2, 0, 2)] + its2;
    Then(1, 0, 1, its1);
    var its0 := [One(1, 0, 1)] + its1;
    assert Opening().Items() == its0;
  }

  lemma PointerBytes()
    ensures forall it :: it in Pointer().Items() ==> ItemOk(it)
    ensures EncItems(Pointer().Items()) ==
      [0x09, 0x01, 0xA1, 0x00]
  {
    hide EncItem, ItemOk, EncItems;
    NoBytes();
    var its2: seq<Item> := [];
    Then(0, 10, 0, its2);
    var its1 := [One(0, 10, 0)] + its2;
    Then(2, 0, 1, its1);
    var its0 := [One(2, 0, 1)] + its1;
    assert Pointer().Items() == its0;
  }

  lemma ButtonsBytes()
    ensures forall it :: it in Buttons().Items() ==> ItemOk(it)
    ensures EncItems(Buttons().Items()) ==
      [0x05, 0x09, 0x19, 0x01, 0x29, 0x03, 0x15, 0x00, 0x25, 0x01, 0x95, 0x03, 0x75, 0x01, 0x81, 0x02]
  {
    hide EncItem, ItemOk, EncItems;
    NoBytes();
    var its8: seq<Item> := [];
    Then(0, 8, 2, its8);
    var its7 := [One(0, 8, 2)] + its8;
    Then(1, 7, 1, its7);
    var its6 := [One(1, 7, 1)] + its7;
    Then(1, 9, 3, its6);
    var its5 := [One(1, 9, 3)] + its6;
    Then(1, 2, 1, its5);
    var its4 := [One(1, 2, 1)] + its5;
    assert EncItems(its4) == [0x25, 0x01, 0x95, 0x03, 0x75, 0x01, 0x81, 0x02];
    Then(1, 1, 0, its4);
    var its3 := [One(1, 1, 0)] + its4;
    Then(2, 2, 3, its3);
    var its2 := [One(2, 2, 3)] + its3;
    Then(2, 1, 1, its2);
    var its1 := [One(2, 1, 1)] + its2;
    Then(1, 0, 9, its1);
    var its0 := [One(1, 0, 9)] + its1;
    assert Buttons().Items() == its0;
  }

  lemma PaddingBytes()
    ensures forall it :: it in Padding().Items() ==> ItemOk(it)
    ensures EncItems(Padding().Items()) ==
      [0x95, 0x01, 0x75, 0x05, 0x81, 0x01]
  {
    hide EncItem, ItemOk, EncItems;
    NoBytes();
    var its3: seq<Item> := [];
    Then(0, 8, 1, its3);
    var its2 := [One(0, 8, 1)] + its3;
    Then(1, 7, 5, its2);
    var its1 := [One(1, 7, 5)] + its2;
    Then(1, 9, 1, its1);
    var its0 := [One(1, 9, 1)] + its1;
    assert Padding().Items() == its0;
  }

  lemma AxesBytes()
    ensures forall it :: it in Axes().Items() ==> ItemOk(it)
    ensures EncItems(Axes().Items()) ==
      [0x05, 0x01, 0x09, 0x30, 0x09, 0x31, 0x15, 0x81, 0x25, 0x7F, 0x75, 0x08, 0x95, 0x02, 0x81, 0x06]
  {
    hide EncItem, ItemOk, EncItems;
    NoBytes();
    var its8: seq<Item> := [];
    Then(0, 8, 6, its8);
    var its7 := [One(0, 8, 6)] + its8;
    Then(1, 9, 2, its7);
    var its6 := [One(1, 9, 2)] + its7;
    Then(1, 7, 8, its6);
    var its5 := [One(1, 7, 8)] + its6;
    Then(1, 2, 0x7F, its5);
    var its4 := [One(1, 2, 0x7F)] + its5;
    assert EncItems(its4) == [0x25, 0x7F, 0x75, 0x08, 0x95, 0x02, 0x81, 0x06];
    Then(1, 1, 0x81, its4);
    var its3 := [One(1, 1, 0x81)] + its4;
    Then(2, 0, 0x31, its3);
    var its2 := [One(2, 0, 0x31)] + its3;
    Then(2, 0, 0x30, its2);
    var its1 := [One(2, 0, 0x30)] + its2;
    Then(1, 0, 1, its1);
    var its0 := [One(1, 0, 1)] + its1;
    assert Axes().Items() == its0;
  }

  /** The descriptor is, byte for byte, the one that the standard prints. */
  lemma ExampleBytes()
    ensures forall it :: it in Example().Items() ==> ItemOk(it)
    ensures EncItems(Example().Items()) ==
      [0x05, 0x01, 0x09, 0x02, 0xA1, 0x01] + (
      [0x09, 0x01, 0xA1, 0x00] + (
      [0x05, 0x09, 0x19, 0x01, 0x29, 0x03, 0x15, 0x00, 0x25, 0x01, 0x95, 0x03, 0x75, 0x01, 0x81, 0x02] + (
      [0x95, 0x01, 0x75, 0x05, 0x81, 0x01] + (
      [0x05, 0x01, 0x09, 0x30, 0x09, 0x31, 0x15, 0x81, 0x25, 0x7F, 0x75, 0x08, 0x95, 0x02, 0x81, 0x06] + [0xC0, 0xC0]))))
  {
    hide EncItem, ItemOk, EncItems, LeBytes;
    OpeningBytes();
    PointerBytes();
    ButtonsBytes();
    PaddingBytes();
    AxesBytes();
    EndBytes();
    ExampleItems();
    var e5 := [End] + [End];
    EncConcat([End], [End]);
    var e4 := Axes().Items() + e5;
    EncConcat(Axes().Items(), e5);
    var e3 := Padding().Items() + e4;
    EncConcat(Padding().Items(), e4);
    var e2 := Buttons().Items() + e3;
    EncConcat(Buttons().Items(), e3);
    var e1 := Pointer().Items() + e2;
    EncConcat(Pointer().Items(), e2);
    EncConcat(Opening().Items(), e1);
  }

  lemma ExampleItems()
    ensures Example().Items() == Opening().Items() + (Pointer().Items() + (Buttons().Items() +
      (Padding().Items() + (Axes().Items() + ([End] + [End])))))
  {
    var end := Part([], End);
    var parts := Example().parts;
    assert end.Items() == [End];
    PartsCons(end, []);
    PartsCons(end, [end]);
    PartsCons(Axes(), [end, end]);
    PartsCons(Padding(), [Axes(), end, end]);
    PartsCons(Buttons(), [Padding(), Axes(), end, end]);
    PartsCons(Pointer(), [Buttons(), Padding(), Axes(), end, end]);
    assert [end] + [] == [end] && [end] + [end] == [end, end];
    assert parts == [Pointer()] + [Buttons(), Padding(), Axes(), end, end];
    assert [End] + PartItems([]) == [End];
  }

  lemma PartsCons(p: Part, rest: seq<Part>)
    ensures PartItems([p] + rest) == p.Items() + PartItems(rest)
  {
    assert ([p] + rest)[1..] == rest;
  }

  /** The example is supported, and the parser finds its three buttons, X and Y. */
  lemma ExampleIsSupported()
    ensures Example().Ok() && (forall it :: it in Example().Items() ==> ItemOk(it))
    ensures var m := ParseSpec(EncItems(Example().Items()));
      && m.valid && !m.hasId && m.buttonsOff == 0 && m.buttonsBits == 3
      && m.x == Axis(8, 8, true) && m.y == Axis(16, 8, true) && m.wheel == NoAxis
  {
    hide Last, Values, Has, UsagesOk, Usages, Stated, IsLead, PartOk, PartsOk, Groups, Leads, AllFields, AllButtons;
    hide ParseSpec, EncItems, TotalBits, FirstField;
    OpeningLead();
    ExampleParts();
    ExampleHasNoId();
    ExampleFields();
    ParserFindsFields(Example());
  }

  /** Its six fields, at bits 0, 1, 2, 3, 8 and 16. */
  function ExampleFieldList(): seq<FieldDesc> {
    var gs := ExampleGroups;
    [FieldAt(gs[0], 0, 0), FieldAt(gs[0], 0, 1), FieldAt(gs[0], 0, 2), FieldAt(gs[1], 3, 0),
     FieldAt(gs[2], 8, 0), FieldAt(gs[2], 8, 1)]
  }

  /** The fields of a group and those of the groups after it. */
  lemma FirstGroup(g: Group, rest: seq<Group>, off: nat)
    ensures AllFields([g] + rest, off) == FieldsOf(g, off, g.count) + AllFields(rest, off + g.Bits())
    ensures TotalBits([g] + rest) == g.Bits() + TotalBits(rest)
  {
    assert ([g] + rest)[1..] == rest;
  }

  lemma NoGroups(off: nat)
    ensures AllFields([], off) == [] && TotalBits([]) == 0
  {
  }

  lemma ThreeFields(g: Group, off: nat)
    ensures FieldsOf(g, off, 1) == [FieldAt(g, off, 0)]
    ensures FieldsOf(g, off, 2) == [FieldAt(g, off, 0), FieldAt(g, off, 1)]
    ensures FieldsOf(g, off, 3) == [FieldAt(g, off, 0), FieldAt(g, off, 1), FieldAt(g, off, 2)]
  {
    hide FieldAt;
    assert FieldsOf(g, off, 0) == [];
  }

  lemma FieldsAre()
    ensures AllFields(ExampleGroups, 0) == ExampleFieldList() && TotalBits(ExampleGroups) == 24
  {
    hide AllFields, FieldsOf, TotalBits, FieldAt;
    var gs := ExampleGroups;
    var a, b, c := gs[0], gs[1], gs[2];
    assert a.Bits() == 3 && b.Bits() == 5 && c.Bits() == 16;
    ThreeFields(a, 0);
    ThreeFields(b, 3);
    ThreeFields(c, 8);
    NoGroups(24);
    FirstGroup(c, [], 8);
    FirstGroup(b, [c], 3);
    FirstGroup(a, [b] + [c], 0);
    assert [c] + [] == [c] && gs == [a] + ([b] + [c]);
  }

  lemma ExampleFields()
    ensures TotalBits(ExampleGroups) == 24
    ensures var fs, b := AllFields(ExampleGroups, 0), AllButtons(NoMouse, ExampleGroups, 0);
      && FirstAxis(fs, 0x30) == Axis(8, 8, true) && FirstAxis(fs, 0x31) == Axis(16, 8, true)
      && FirstAxis(fs, 0x38) == NoAxis && b.buttonsOff == 0 && b.buttonsBits == 3
  {
    hide AllFields, FirstField, TotalBits;
    FieldsAre();
    var gs, fs := ExampleGroups, ExampleFieldList();
    FirstIs(fs, 4, 0x30);
    FirstIs(fs, 5, 0x31);
    FirstIs(fs, 6, 0x38);
    assert gs[1..][1..] == gs[2..] && gs[2..][1..] == [];
    var m := WithButtons(NoMouse, gs[0], 0);
    assert AllButtons(m, gs[2..], 8) == m;
    assert AllButtons(m, gs[1..], 3) == m;
  }

  lemma FirstIs(fs: seq<FieldDesc>, k: nat, usage: nat)
    requires k <= |fs| && (forall j :: 0 <= j < k ==> !(fs[j].page == 1 && fs[j].usage == usage))
    requires k < |fs| ==> fs[k].page == 1 && fs[k].usage == usage
    ensures FirstField(fs, usage) == k
  {
  }
}
