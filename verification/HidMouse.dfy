/**
 * Mouse descriptors as section 6.2.2 of USB HID 1.11 reads them, and the theorem that the parser
 * finds in them the fields that are there.
 */
module HidMouse {
  import opened Bytes
  import opened Words
  import opened HidDescriptor

  // ---- Descriptors ----

  predicate Is(it: Item, ty: nat, tag: nat) { it.ty == ty && it.tag == tag }

  predicate Has(its: seq<Item>, ty: nat, tag: nat) {
    exists it :: it in its && Is(it, ty, tag)
  }

  /** The value last stated by items of one kind, or the one from before. */
  function Last(its: seq<Item>, ty: nat, tag: nat, before: u32): u32 {
    if its == [] then before
    else
      var it := its[|its| - 1];
      if Is(it, ty, tag) then it.v else Last(its[..|its| - 1], ty, tag, before)
  }

  /** All values stated by items of one kind, in order. */
  function Values(its: seq<Item>, ty: nat, tag: nat): seq<u32> {
    if its == [] then []
    else
      var it := its[|its| - 1];
      Values(its[..|its| - 1], ty, tag) + if Is(it, ty, tag) then [it.v] else []
  }

  /** A main item with the global and local items since the last one, in any order. */
  datatype Part = Part(lead: seq<Item>, main: Item) {
    function Items(): seq<Item> { lead + [main] }
  }

  /** Any global item but Push and Pop, any local item but delimiters. */
  predicate IsLead(it: Item) {
    (it.ty == 1 && it.tag < 10) || (it.ty == 2 && it.tag != 10)
  }

  /** The global values an Input item depends on; they persist until they are stated again. */
  datatype Globals = Globals(page: u32, size: u32, count: u32)

  const NoGlobals: Globals := Globals(0, 0, 0)

  function Stated(lead: seq<Item>, g: Globals): Globals {
    Globals(Last(lead, 1, 0, g.page), Last(lead, 1, 7, g.size), Last(lead, 1, 9, g.count))
  }

  /** The usages stated for one main item: a range or a list. */
  function Usages(lead: seq<Item>): seq<nat> {
    if Has(lead, 2, 1) then Span(Last(lead, 2, 1, 0), Last(lead, 2, 2, 0)) else Values(lead, 2, 0)
  }

  function Span(lo: nat, hi: nat): seq<nat> {
    if hi < lo then [] else seq<nat>(hi - lo + 1, i requires 0 <= i => lo + i)
  }

  /** At most 16 usages in a list, or a range of 16-bit usages stated whole, not both. */
  predicate UsagesOk(lead: seq<Item>) {
    if Has(lead, 2, 1) || Has(lead, 2, 2)
    then
      && Has(lead, 2, 1) && Has(lead, 2, 2) && !Has(lead, 2, 0)
      && Last(lead, 2, 1, 0) <= Last(lead, 2, 2, 0) < 0x1_0000
    else |Values(lead, 2, 0)| <= 16
  }

  /**
   * Usages of at most two bytes; one of four bytes states its page as well (section 6.2.2.8), which
   * the parser does not look at.
   */
  predicate ShortUsages(lead: seq<Item>) {
    forall it :: it in lead && it.ty == 2 && it.tag <= 2 ==> it.n <= 2
  }

  /** An Input item with the values in effect for it. */
  datatype Group = Group(page: nat, size: nat, count: nat, usages: seq<nat>, rel: bool) {
    function Bits(): nat { count * size }

    predicate Ok() { 1 <= size <= 32 && 1 <= count }

    /** The usage of field `f`: the last one stated serves for all further fields. */
    function UsageAt(f: nat): nat {
      if usages == [] then 0 else if f < |usages| then usages[f] else usages[|usages| - 1]
    }
  }

  function GroupOf(p: Part, g: Globals): Group {
    Group(g.page, g.size, g.count, Usages(p.lead), p.main.v / 4 % 2 == 1)
  }

  /** The Input items of some parts, given the globals in effect before them. */
  function Groups(parts: seq<Part>, g: Globals): seq<Group>
    decreases |parts|
  {
    if parts == [] then []
    else
      var p, g' := parts[0], Stated(parts[0].lead, g);
      (if p.main.tag == 8 then [GroupOf(p, g')] else []) + Groups(parts[1..], g')
  }

  predicate PartOk(p: Part, g: Globals, depth: nat, started: bool) {
    && (forall it :: it in p.lead ==> IsLead(it)) && (forall it :: it in p.Items() ==> ItemOk(it))
    && (started ==> !Has(p.lead, 1, 8))
    && p.main.ty == 0 && p.main.tag in {8, 0xA, 0xC}
    && (p.main.tag == 8 ==> GroupOf(p, g).Ok() && ShortUsages(p.lead) && (g.page == 1 ==> UsagesOk(p.lead)))
    && 1 <= depth <= 2 && (p.main.tag == 0xA ==> depth < 2)
  }

  function Deeper(p: Part, depth: nat): nat {
    if p.main.tag == 0xA then depth + 1 else if p.main.tag == 0xC && depth > 0 then depth - 1 else depth
  }

  /**
   * Input items, collections and their ends, inside one collection and at most one more within it;
   * report IDs stand before the first Input item.
   */
  predicate PartsOk(parts: seq<Part>, g: Globals, depth: nat, started: bool)
    decreases |parts|
  {
    parts == [] ||
    (var p, g' := parts[0], Stated(parts[0].lead, g);
     PartOk(p, g', depth, started) && PartsOk(parts[1..], g', Deeper(p, depth), started || p.main.tag == 8))
  }

  function PartItems(parts: seq<Part>): seq<Item> {
    if parts == [] then [] else parts[0].Items() + PartItems(parts[1..])
  }

  function Leads(parts: seq<Part>): seq<Item> {
    if parts == [] then [] else parts[0].lead + Leads(parts[1..])
  }

  /** A mouse collection: what opens it, and the rest up to its end. */
  datatype Descriptor = Descriptor(opening: Part, parts: seq<Part>) {
    function Items(): seq<Item> { opening.Items() + PartItems(parts) }

    function First(): Globals { Stated(opening.lead, NoGlobals) }

    function InputGroups(): seq<Group> { Groups(parts, First()) }

    /** The report IDs stated; the last one counts. */
    function Ids(): seq<u32> { Values(opening.lead + Leads(parts), 1, 8) }

    predicate Ok() {
      && (forall it :: it in opening.lead ==> IsLead(it)) && (forall it :: it in opening.Items() ==> ItemOk(it))
      && Is(opening.main, 0, 0xA) && First().page == 1
      && Values(opening.lead, 2, 0) != [] && Values(opening.lead, 2, 0)[0] == 2
      && PartsOk(parts, First(), 1, false) && TotalBits(InputGroups()) < 0x1_0000
      && (Ids() != [] ==> Ids()[|Ids()| - 1] < 0x100)
    }
  }

  function TotalBits(gs: seq<Group>): nat {
    if gs == [] then 0 else gs[0].Bits() + TotalBits(gs[1..])
  }

  // ---- The fields of a report ----

  /** A field as the descriptor lays it out: page, usage, place and width. */
  datatype FieldDesc = FieldDesc(page: nat, usage: nat, off: nat, bits: nat, rel: bool)

  function FieldAt(g: Group, off: nat, f: nat): FieldDesc {
    FieldDesc(g.page, g.UsageAt(f), off + f * g.size, g.size, g.rel)
  }

  /** The first `n` fields of a group whose report data starts at bit `off`. */
  function FieldsOf(g: Group, off: nat, n: nat): seq<FieldDesc> {
    if n == 0 then [] else FieldsOf(g, off, n - 1) + [FieldAt(g, off, n - 1)]
  }

  function AllFields(gs: seq<Group>, off: nat): seq<FieldDesc> {
    if gs == [] then [] else FieldsOf(gs[0], off, gs[0].count) + AllFields(gs[1..], off + gs[0].Bits())
  }

  /** Index of the first generic-desktop field with a usage, or the number of fields. */
  function FirstField(fs: seq<FieldDesc>, usage: nat): (k: nat)
    ensures k <= |fs| && (k < |fs| ==> fs[k].page == 1 && fs[k].usage == usage)
    ensures forall j :: 0 <= j < k ==> !(fs[j].page == 1 && fs[j].usage == usage)
  {
    if fs == [] || (fs[0].page == 1 && fs[0].usage == usage) then 0 else 1 + FirstField(fs[1..], usage)
  }

  function FirstAxis(fs: seq<FieldDesc>, usage: nat): Axis {
    var k := FirstField(fs, usage);
    if k == |fs| then NoAxis else Axis(fs[k].off, fs[k].bits, fs[k].rel)
  }

  lemma {:induction false} FirstFieldConcat(a: seq<FieldDesc>, b: seq<FieldDesc>, usage: nat)
    ensures FirstField(a + b, usage) ==
      if FirstField(a, usage) < |a| then FirstField(a, usage) else |a| + FirstField(b, usage)
  {
    if a == [] {
      assert a + b == b;
    } else {
      assert (a + b)[1..] == a[1..] + b;
      FirstFieldConcat(a[1..], b, usage);
    }
  }

  /** A recorded axis stays; otherwise the first field that has the usage is recorded. */
  function Prefer(a: Axis, b: Axis): Axis {
    if a.bits == 0 && b.bits != 0 then b else a
  }

  predicate Widths(fs: seq<FieldDesc>) {
    forall k :: 0 <= k < |fs| ==> 1 <= fs[k].bits <= 32
  }

  lemma FirstAxisConcat(a: seq<FieldDesc>, b: seq<FieldDesc>, usage: nat)
    requires Widths(a) && Widths(b)
    ensures FirstAxis(a + b, usage) == Prefer(FirstAxis(a, usage), FirstAxis(b, usage))
  {
    FirstFieldConcat(a, b, usage);
  }

  lemma {:induction false} FieldsOfWidths(g: Group, off: nat, n: nat)
    requires g.Ok()
    ensures |FieldsOf(g, off, n)| == n && Widths(FieldsOf(g, off, n))
    ensures g.page != 1 ==> forall u :: FirstAxis(FieldsOf(g, off, n), u) == NoAxis
  {
    if n > 0 {
      FieldsOfWidths(g, off, n - 1);
    }
    var fs := FieldsOf(g, off, n);
    assert forall k :: 0 <= k < |fs| ==> fs[k].page == g.page by {
      FieldsOfPage(g, off, n);
    }
  }

  lemma {:induction false} FieldsOfPage(g: Group, off: nat, n: nat)
    ensures forall k :: 0 <= k < |FieldsOf(g, off, n)| ==> FieldsOf(g, off, n)[k].page == g.page
  {
    if n > 0 {
      FieldsOfPage(g, off, n - 1);
    }
  }

  // ---- The parser over the items before a main item ----

  function First16(us: seq<u32>): seq<u32> { if |us| <= 16 then us else us[..16] }

  /** Globals as last stated, a list or a range of usages, and the report ID. */
  function AfterLead(s: State, lead: seq<Item>): State {
    s.(page := Last(lead, 1, 0, s.page), size := Last(lead, 1, 7, s.size), count := Last(lead, 1, 9, s.count),
       id := Last(lead, 1, 8, s.id), hasId := s.hasId || Has(lead, 1, 8),
       bitpos := if Has(lead, 1, 8) then 0 else s.bitpos,
       usages := First16(Values(lead, 2, 0)),
       usageMin := Last(lead, 2, 1, s.usageMin), usageMax := Last(lead, 2, 2, s.usageMax),
       hasRange := s.hasRange || Has(lead, 2, 1) || Has(lead, 2, 2))
  }

  lemma OneItem(s: State, a: Item)
    ensures StepItems(s, [a]) == StepItem(s, a)
  {
    hide StepItem;
    assert [a][1..] == [];
  }

  lemma HasMore(its: seq<Item>, it: Item, ty: nat, tag: nat)
    ensures Has(its + [it], ty, tag) <==> Has(its, ty, tag) || Is(it, ty, tag)
  {
    assert it in its + [it];
  }

  /** What one more item adds to what is stated. */
  lemma More(its: seq<Item>, it: Item)
    ensures forall ty, tag, v :: Last(its + [it], ty, tag, v) == if Is(it, ty, tag) then it.v else Last(its, ty, tag, v)
    ensures forall ty, tag :: Values(its + [it], ty, tag) == Values(its, ty, tag) + if Is(it, ty, tag) then [it.v] else []
    ensures forall ty, tag :: Has(its + [it], ty, tag) <==> Has(its, ty, tag) || Is(it, ty, tag)
  {
    hide Has;
    assert (its + [it])[..|its|] == its;
    forall ty, tag
      ensures Has(its + [it], ty, tag) <==> Has(its, ty, tag) || Is(it, ty, tag)
    {
      HasMore(its, it, ty, tag);
    }
  }

  lemma LastMore(its: seq<Item>, it: Item, ty: nat, tag: nat, before: u32)
    ensures Last(its + [it], ty, tag, before) == if Is(it, ty, tag) then it.v else Last(its, ty, tag, before)
    ensures Has(its + [it], ty, tag) <==> Has(its, ty, tag) || Is(it, ty, tag)
    ensures Values(its + [it], ty, tag) == if Is(it, ty, tag) then Values(its, ty, tag) + [it.v] else Values(its, ty, tag)
  {
    hide Last, Has, Values;
    More(its, it);
  }

  lemma AfterMore(s: State, lead: seq<Item>, it: Item)
    requires IsLead(it)
    ensures AfterLead(s, lead + [it]) == StepItem(AfterLead(s, lead), it)
  {
    hide Has, Last, Values;
    LastMore(lead, it, 1, 0, s.page);
    LastMore(lead, it, 1, 7, s.size);
    LastMore(lead, it, 1, 8, s.id);
    LastMore(lead, it, 1, 9, s.count);
    LastMore(lead, it, 2, 0, 0);
    LastMore(lead, it, 2, 1, s.usageMin);
    LastMore(lead, it, 2, 2, s.usageMax);
  }

  /** Whatever their order, the parser is left with the values last stated and the usages listed. */
  lemma {:induction false} LeadStep(s: State, lead: seq<Item>)
    requires s.usages == [] && forall it :: it in lead ==> IsLead(it)
    ensures StepItems(s, lead) == AfterLead(s, lead)
    decreases |lead|
  {
    hide AfterLead, StepItem;
    if lead == [] {
      NoLead(s);
    } else {
      var front, it := lead[..|lead| - 1], lead[|lead| - 1];
      assert lead == front + [it] && it in lead;
      LeadStep(s, front);
      StepItemsConcat(s, front, [it]);
      OneItem(AfterLead(s, front), it);
      AfterMore(s, front, it);
    }
  }

  lemma NoLead(s: State)
    requires s.usages == []
    ensures AfterLead(s, []) == s && StepItems(s, []) == s
  {
  }

  lemma {:induction false} LastStated(its: seq<Item>, ty: nat, tag: nat, a: u32, b: u32)
    requires Has(its, ty, tag)
    ensures Last(its, ty, tag, a) == Last(its, ty, tag, b)
  {
    if !Is(its[|its| - 1], ty, tag) {
      assert its == its[..|its| - 1] + [its[|its| - 1]];
      HasMore(its[..|its| - 1], its[|its| - 1], ty, tag);
      LastStated(its[..|its| - 1], ty, tag, a, b);
    }
  }

  /** The usage the parser gives a field is the one stated for it, by list or by range; beyond them, none. */
  lemma UsageSeen(s: State, lead: seq<Item>, f: nat)
    requires UsagesOk(lead) && !s.hasRange && f < 0x1_0000
    ensures var us := Usages(lead);
      UsageOf(AfterLead(s, lead), f) == if f < |us| then us[f] else 0
  {
    hide Has;
    if Has(lead, 2, 1) {
      LastStated(lead, 2, 1, s.usageMin, 0);
      LastStated(lead, 2, 2, s.usageMax, 0);
    }
  }

  lemma Small(f: nat, count: nat, size: nat, off: nat)
    requires f < count && off + count * size < 0x1_0000
    ensures 0 <= f * size && off + f * size < 0x1_0000
    ensures U16(U32(off + U32(f * size))) == off + f * size
    ensures U16(U32(count * size)) == count * size && U32(off + U32(count * size)) == off + count * size
  {
    MulGrows(size, f);
    MulGrows(size, count - f);
    MulSub(size, count, f);
  }

  function PreferAll(m: Mouse, fs: seq<FieldDesc>): Mouse {
    m.(x := Prefer(m.x, FirstAxis(fs, 0x30)), y := Prefer(m.y, FirstAxis(fs, 0x31)),
       wheel := Prefer(m.wheel, FirstAxis(fs, 0x38)))
  }

  lemma PreferConcat(m: Mouse, a: seq<FieldDesc>, b: seq<FieldDesc>)
    requires Widths(a) && Widths(b)
    ensures PreferAll(m, a + b) == PreferAll(PreferAll(m, a), b)
  {
    hide FirstAxis;
    FirstAxisConcat(a, b, 0x30);
    FirstAxisConcat(a, b, 0x31);
    FirstAxisConcat(a, b, 0x38);
  }

  // ---- The parser over an Input item ----

  /** The state at an Input item carries the group. */
  ghost predicate Carries(s: State, g: Group) {
    && g.Ok() && s.page == g.page && s.size == g.size && s.count == g.count
    && (s.page == 1 ==>
          forall f: nat :: f < g.count ==> UsageOf(s, f) == if f < |g.usages| then g.usages[f] else 0)
    && s.bitpos + g.Bits() < 0x1_0000
  }

  lemma NoteOne(s: State, g: Group, f: nat)
    requires Carries(s, g) && s.page == 1 && f < g.count && f < |g.usages|
    ensures Note(s, f, g.rel) == PreferAll(s.m, [FieldAt(g, s.bitpos, f)])
  {
    hide UsageOf;
    var last := FieldAt(g, s.bitpos, f);
    Small(f, g.count, g.size, s.bitpos);
    OneField(last, 0x30);
    OneField(last, 0x31);
    OneField(last, 0x38);
    hide FirstAxis;
  }

  lemma NoteNone(s: State, g: Group, f: nat)
    requires Carries(s, g) && s.page == 1 && |g.usages| <= f < g.count
    ensures Note(s, f, g.rel) == s.m
  {
    hide UsageOf;
  }

  /** A field whose usage has had a field before adds nothing to the record. */
  lemma KnownUsage(m: Mouse, fs: seq<FieldDesc>, k: nat, last: FieldDesc)
    requires Widths(fs) && k < |fs| && fs[k].page == last.page == 1 && fs[k].usage == last.usage
    ensures PreferAll(PreferAll(m, fs), [last]) == PreferAll(m, fs)
  {
    OneField(last, 0x30);
    OneField(last, 0x31);
    OneField(last, 0x38);
    assert FirstField(fs, last.usage) <= k;
  }

  lemma NoUsage(m: Mouse, last: FieldDesc)
    requires last.usage == 0
    ensures PreferAll(m, [last]) == m
  {
    OneField(last, 0x30);
    OneField(last, 0x31);
    OneField(last, 0x38);
  }

  lemma {:induction false} FieldsOfAt(g: Group, off: nat, n: nat, k: nat)
    requires k < n
    ensures |FieldsOf(g, off, n)| == n && FieldsOf(g, off, n)[k] == FieldAt(g, off, k)
  {
    hide FieldAt;
    FieldsOfCount(g, off, n - 1);
    if k < n - 1 {
      FieldsOfAt(g, off, n - 1, k);
    }
  }

  lemma {:induction false} FieldsOfCount(g: Group, off: nat, n: nat)
    ensures |FieldsOf(g, off, n)| == n
  {
    if n > 0 {
      FieldsOfCount(g, off, n - 1);
    }
  }

  /** The fields noted by an Input item are the group's first fields with each usage. */
  lemma {:induction false} NotesAreFirst(s: State, g: Group, n: nat)
    requires Carries(s, g) && s.page == 1 && n <= g.count
    ensures NoteFields(s, n, g.rel) == PreferAll(s.m, FieldsOf(g, s.bitpos, n))
  {
    hide Note, FirstAxis, FieldAt, PreferAll, UsageOf;
    if n > 0 {
      var f := n - 1;
      NotesAreFirst(s, g, f);
      var fs := FieldsOf(g, s.bitpos, f);
      FieldsOfWidths(g, s.bitpos, f);
      var t := s.(m := NoteFields(s, f, g.rel));
      SameUsages(s, t, g);
      if f < |g.usages| {
        NoteOne(t, g, f);
      } else {
        NoteNone(t, g, f);
        LateField(s.m, g, s.bitpos, f);
      }
      LastFieldWidth(g, s.bitpos, f);
      PreferConcat(s.m, fs, [FieldAt(g, s.bitpos, f)]);
    } else {
      NoFields(s.m);
    }
  }

  lemma SameUsages(s: State, t: State, g: Group)
    requires Carries(s, g) && t == s.(m := t.m)
    ensures Carries(t, g)
  {
    forall f: nat | f < g.count && s.page == 1
      ensures UsageOf(t, f) == UsageOf(s, f)
    {
    }
  }

  /** Fields past the stated usages share the last one, or have none. */
  lemma LateField(m: Mouse, g: Group, off: nat, f: nat)
    requires g.Ok() && g.page == 1 && |g.usages| <= f
    ensures var fs := FieldsOf(g, off, f);
      PreferAll(PreferAll(m, fs), [FieldAt(g, off, f)]) == PreferAll(m, fs)
  {
    hide PreferAll;
    var fs := FieldsOf(g, off, f);
    if g.usages == [] {
      NoUsage(PreferAll(m, fs), FieldAt(g, off, f));
    } else {
      var k := |g.usages| - 1;
      FieldsOfWidths(g, off, f);
      FieldsOfAt(g, off, f, k);
      KnownUsage(m, fs, k, FieldAt(g, off, f));
    }
  }

  lemma LastFieldWidth(g: Group, off: nat, f: nat)
    requires g.Ok()
    ensures Widths([FieldAt(g, off, f)])
  {
  }

  lemma NoFields(m: Mouse)
    ensures PreferAll(m, []) == m
  {
  }

  lemma OneField(f: FieldDesc, usage: nat)
    ensures FirstAxis([f], usage) == if f.page == 1 && f.usage == usage then Axis(f.off, f.bits, f.rel) else NoAxis
  {
    assert [f][1..] == [];
  }

  function WithButtons(m: Mouse, g: Group, off: nat): Mouse {
    if g.page == 9 && m.buttonsBits == 0 then m.(buttonsOff := off, buttonsBits := g.Bits()) else m
  }

  lemma OtherPagesNoteNothing(s: State, n: nat, rel: bool)
    requires s.page != 1
    ensures NoteFields(s, n, rel) == s.m
  {
  }

  lemma PreferNothing(m: Mouse, g: Group, off: nat, n: nat)
    requires g.Ok() && g.page != 1
    ensures PreferAll(m, FieldsOf(g, off, n)) == m
  {
    hide FieldsOf;
    FieldsOfWidths(g, off, n);
  }

  /** An Input item of a group in the mouse collection. */
  lemma InputStep(s: State, g: Group, v: u32)
    requires Carries(s, g) && (s.inApp || s.inPhys) && g.rel == (v / 4 % 2 == 1)
    ensures var t := InputItem(s, v);
      t == ClearLocals(s.(bitpos := s.bitpos + g.Bits(),
                          m := PreferAll(WithButtons(s.m, g, s.bitpos), FieldsOf(g, s.bitpos, g.count))))
  {
    hide PreferAll, FieldsOf, NoteFields, UsageOf;
    Small(0, g.count, g.size, s.bitpos);
    if s.page == 1 {
      NotesAreFirst(s, g, g.count);
    } else {
      OtherPagesNoteNothing(s, s.count, g.rel);
      PreferNothing(WithButtons(s.m, g, s.bitpos), g, s.bitpos, g.count);
    }
  }

  function AllButtons(m: Mouse, gs: seq<Group>, off: nat): Mouse
    decreases |gs|
  {
    if gs == [] then m else AllButtons(WithButtons(m, gs[0], off), gs[1..], off + gs[0].Bits())
  }

  lemma {:induction false} AllButtonsFrame(m: Mouse, fs: seq<FieldDesc>, gs: seq<Group>, off: nat)
    ensures AllButtons(PreferAll(m, fs), gs, off) == PreferAll(AllButtons(m, gs, off), fs)
    decreases |gs|
  {
    hide FirstAxis;
    if gs != [] {
      assert WithButtons(PreferAll(m, fs), gs[0], off) == PreferAll(WithButtons(m, gs[0], off), fs);
      AllButtonsFrame(WithButtons(m, gs[0], off), fs, gs[1..], off + gs[0].Bits());
    }
  }

  lemma {:induction false} AllFieldsWidths(gs: seq<Group>, off: nat)
    requires forall g :: g in gs ==> g.Ok()
    ensures Widths(AllFields(gs, off))
    decreases |gs|
  {
    if gs != [] {
      assert gs[0] in gs;
      FieldsOfWidths(gs[0], off, gs[0].count);
      AllFieldsWidths(gs[1..], off + gs[0].Bits());
    }
  }

  // ---- The parser over a descriptor ----

  /** Between main items: the globals in effect, no locals, and how deep in the mouse collection. */
  predicate Ready(s: State, g: Globals, depth: nat) {
    && s.page == g.page && s.size == g.size && s.count == g.count
    && s.usages == [] && !s.hasRange && s.seen && s.inApp == (depth >= 1) && s.inPhys == (depth >= 2)
  }

  /** What one part does to the record: an Input item adds its buttons and fields, all else nothing. */
  function Recorded(m: Mouse, p: Part, g: Globals, off: nat): Mouse {
    if p.main.tag == 8
    then PreferAll(WithButtons(m, GroupOf(p, g), off), FieldsOf(GroupOf(p, g), off, g.count))
    else m
  }

  function PartBits(p: Part, g: Globals): nat {
    if p.main.tag == 8 then GroupOf(p, g).Bits() else 0
  }

  lemma PartStep(s: State, p: Part, g: Globals, depth: nat, started: bool)
    requires Ready(s, g, depth) && PartOk(p, Stated(p.lead, g), depth, started)
    requires (!started ==> s.bitpos == 0) && s.bitpos + PartBits(p, Stated(p.lead, g)) < 0x1_0000
    ensures var t, g' := StepItems(s, p.Items()), Stated(p.lead, g);
      && Ready(t, g', Deeper(p, depth)) && t.bitpos == s.bitpos + PartBits(p, g')
      && t.id == Last(p.lead, 1, 8, s.id) && t.hasId == (s.hasId || Has(p.lead, 1, 8))
      && t.m == Recorded(s.m, p, g', s.bitpos)
  {
    hide Has, Last, Values, PreferAll, FieldsOf, WithButtons, UsageOf, InputItem, Usages, UsagesOk;
    var g' := Stated(p.lead, g);
    LeadStep(s, p.lead);
    StepItemsConcat(s, p.lead, [p.main]);
    var t := AfterLead(s, p.lead);
    OneItem(t, p.main);
    if p.main.tag == 8 {
      var grp := GroupOf(p, g');
      GroupCarried(s, p, g');
      InputStep(t, grp, p.main.v);
    }
  }

  lemma GroupCarried(s: State, p: Part, g: Globals)
    requires GroupOf(p, g).Ok() && (g.page == 1 ==> UsagesOk(p.lead)) && !s.hasRange
    requires var t := AfterLead(s, p.lead);
      t.page == g.page && t.size == g.size && t.count == g.count && t.bitpos + GroupOf(p, g).Bits() < 0x1_0000
    ensures Carries(AfterLead(s, p.lead), GroupOf(p, g))
  {
    hide AfterLead, UsageOf, Usages, UsagesOk;
    var grp, t := GroupOf(p, g), AfterLead(s, p.lead);
    MulGrows(grp.count, grp.size);
    if g.page == 1 {
      forall f: nat | f < grp.count
        ensures UsageOf(t, f) == if f < |grp.usages| then grp.usages[f] else 0
      {
        UsageSeen(s, p.lead, f);
      }
    }
  }

  lemma {:induction false} LastConcat(a: seq<Item>, b: seq<Item>, ty: nat, tag: nat, before: u32)
    ensures Last(a + b, ty, tag, before) == Last(b, ty, tag, Last(a, ty, tag, before))
    ensures Has(a + b, ty, tag) <==> Has(a, ty, tag) || Has(b, ty, tag)
    decreases |b|
  {
    if b == [] {
      assert a + b == a;
    } else {
      var front := b[..|b| - 1];
      assert (a + b)[..|a + b| - 1] == a + front && (a + b)[|a + b| - 1] == b[|b| - 1];
      LastConcat(a, front, ty, tag, before);
    }
  }

  lemma NoParts(s: State, g: Globals)
    ensures StepItems(s, PartItems([])) == s && Groups([], g) == []
    ensures PreferAll(AllButtons(s.m, [], s.bitpos), AllFields([], s.bitpos)) == s.m
    ensures Last([], 1, 8, s.id) == s.id && !Has([], 1, 8)
  {
    NoFields(s.m);
  }

  lemma {:induction false} PartsStep(s: State, parts: seq<Part>, g: Globals, depth: nat, started: bool)
    requires Ready(s, g, depth) && PartsOk(parts, g, depth, started)
    requires (!started ==> s.bitpos == 0) && s.bitpos + TotalBits(Groups(parts, g)) < 0x1_0000
    ensures var t, gs := StepItems(s, PartItems(parts)), Groups(parts, g);
      && t.m == PreferAll(AllButtons(s.m, gs, s.bitpos), AllFields(gs, s.bitpos))
      && t.id == Last(Leads(parts), 1, 8, s.id) && t.hasId == (s.hasId || Has(Leads(parts), 1, 8))
    decreases |parts|
  {
    hide Has, Last, PreferAll, StepItem, StepItems, PartOk, GroupOf, Ready, Stated, Groups, TotalBits, AllFields, AllButtons;
    if parts == [] {
      NoParts(s, g);
    } else {
      var p, g', rest := parts[0], Stated(parts[0].lead, g), parts[1..];
      GroupsNext(parts, g);
      PartStep(s, p, g, depth, started);
      StepItemsConcat(s, p.Items(), PartItems(rest));
      var t := StepItems(s, p.Items());
      PartsStep(t, rest, g', Deeper(p, depth), started || p.main.tag == 8);
      LastConcat(p.lead, Leads(rest), 1, 8, s.id);
      if p.main.tag == 8 {
        GroupsAreOk(parts, g, depth, started);
        assert Groups(parts, g)[0] == GroupOf(p, g');
        assert forall h :: h in Groups(rest, g') ==> h in Groups(parts, g);
        RecordJoins(s.m, GroupOf(p, g'), Groups(rest, g'), s.bitpos);
      }
    }
  }

  lemma GroupsNext(parts: seq<Part>, g: Globals)
    requires parts != []
    ensures var p, g' := parts[0], Stated(parts[0].lead, g);
      var grp, rest := GroupOf(p, g'), Groups(parts[1..], g');
      && grp.count == g'.count
      && Groups(parts, g) == (if p.main.tag == 8 then [grp] + rest else rest)
      && TotalBits(Groups(parts, g)) == PartBits(p, g') + TotalBits(rest)
  {
    var rest := Groups(parts[1..], Stated(parts[0].lead, g));
    var grp := GroupOf(parts[0], Stated(parts[0].lead, g));
    assert ([grp] + rest)[1..] == rest;
    assert [] + rest == rest;
  }

  /** Recording a group and then the rest is recording all of them. */
  lemma RecordJoins(m: Mouse, g: Group, gs: seq<Group>, off: nat)
    requires g.Ok() && forall h :: h in gs ==> h.Ok()
    ensures var m', off' := PreferAll(WithButtons(m, g, off), FieldsOf(g, off, g.count)), off + g.Bits();
      PreferAll(AllButtons(m', gs, off'), AllFields(gs, off')) ==
      PreferAll(AllButtons(m, [g] + gs, off), AllFields([g] + gs, off))
  {
    hide PreferAll, FieldsOf, WithButtons, FirstAxis, Widths;
    var fs, b, off' := FieldsOf(g, off, g.count), WithButtons(m, g, off), off + g.Bits();
    assert ([g] + gs)[1..] == gs;
    AllButtonsFrame(b, fs, gs, off');
    FieldsOfWidths(g, off, g.count);
    AllFieldsWidths(gs, off');
    PreferConcat(AllButtons(b, gs, off'), fs, AllFields(gs, off'));
  }

  lemma {:induction false} GroupsAreOk(parts: seq<Part>, g: Globals, depth: nat, started: bool)
    requires PartsOk(parts, g, depth, started)
    ensures forall h :: h in Groups(parts, g) ==> h.Ok()
    decreases |parts|
  {
    if parts != [] {
      var g' := Stated(parts[0].lead, g);
      GroupsAreOk(parts[1..], g', Deeper(parts[0], depth), started || parts[0].main.tag == 8);
    }
  }

  lemma {:induction false} ValuesAndLast(its: seq<Item>, ty: nat, tag: nat, before: u32)
    ensures Values(its, ty, tag) != [] <==> Has(its, ty, tag)
    ensures Values(its, ty, tag) != [] ==> Last(its, ty, tag, before) == Values(its, ty, tag)[|Values(its, ty, tag)| - 1]
  {
    if its != [] {
      var front, it := its[..|its| - 1], its[|its| - 1];
      assert its == front + [it];
      ValuesAndLast(front, ty, tag, before);
      HasMore(front, it, ty, tag);
    }
  }

  /** The opening leaves the parser in the mouse collection, at bit 0. */
  lemma OpeningStep(d: Descriptor)
    requires d.Ok()
    ensures var t, lead := StepItems(Initial, d.opening.Items()), d.opening.lead;
      && Ready(t, d.First(), 1) && t.bitpos == 0 && t.m == NoMouse
      && t.id == Last(lead, 1, 8, 0) && t.hasId == Has(lead, 1, 8)
  {
    hide Has, Last, Values;
    var p := d.opening;
    LeadStep(Initial, p.lead);
    StepItemsConcat(Initial, p.lead, [p.main]);
    OneItem(AfterLead(Initial, p.lead), p.main);
  }

  /**
   * For every supported mouse descriptor the parser records the place, width and kind of the first
   * X, Y and wheel field and of the first button group, as the fields before them add up.
   */
  lemma ParserFindsFields(d: Descriptor)
    requires d.Ok()
    ensures forall it :: it in d.Items() ==> ItemOk(it)
    ensures var m, gs := ParseSpec(EncItems(d.Items())), d.InputGroups();
      var fs, b := AllFields(gs, 0), AllButtons(NoMouse, gs, 0);
      && m.x == FirstAxis(fs, 0x30) && m.y == FirstAxis(fs, 0x31) && m.wheel == FirstAxis(fs, 0x38)
      && m.buttonsOff == b.buttonsOff && m.buttonsBits == b.buttonsBits
      && (m.valid <==> FirstField(fs, 0x30) < |fs| && FirstField(fs, 0x31) < |fs|)
      && (m.hasId <==> m.valid && d.Ids() != []) && (m.hasId ==> m.id == d.Ids()[|d.Ids()| - 1])
  {
    hide StepItem, StepItems, EncItems, AllFields, FirstField, Widths, Last, Has, Values, PartsOk, Groups, Ready, TotalBits;
    var its, gs := d.Items(), d.InputGroups();
    ItemsAreOk(d);
    var bytes := EncItems(its);
    assert bytes[0..] == bytes;
    ParseItems(bytes, 0, Initial, its);
    StepItemsConcat(Initial, d.opening.Items(), PartItems(d.parts));
    OpeningStep(d);
    var s := StepItems(Initial, d.opening.Items());
    PartsStep(s, d.parts, d.First(), 1, false);
    LastConcat(d.opening.lead, Leads(d.parts), 1, 8, 0);
    ValuesAndLast(d.opening.lead + Leads(d.parts), 1, 8, 0);
    GroupsAreOk(d.parts, d.First(), 1, false);
    AllFieldsWidths(gs, 0);
    FirstAxisWidth(AllFields(gs, 0), 0x30);
    FirstAxisWidth(AllFields(gs, 0), 0x31);
    FirstAxisWidth(AllFields(gs, 0), 0x38);
    AllButtonsKeepsAxes(NoMouse, gs, 0);
  }

  lemma {:induction false} PartItemsOk(parts: seq<Part>, g: Globals, depth: nat, started: bool)
    requires PartsOk(parts, g, depth, started)
    ensures forall it :: it in PartItems(parts) ==> ItemOk(it)
    decreases |parts|
  {
    if parts != [] {
      PartItemsOk(parts[1..], Stated(parts[0].lead, g), Deeper(parts[0], depth), started || parts[0].main.tag == 8);
    }
  }

  lemma ItemsAreOk(d: Descriptor)
    requires d.Ok()
    ensures forall it :: it in d.Items() ==> ItemOk(it)
  {
    PartItemsOk(d.parts, d.First(), 1, false);
  }

  lemma FirstAxisWidth(fs: seq<FieldDesc>, usage: nat)
    requires Widths(fs)
    ensures FirstAxis(fs, usage).bits != 0 <==> FirstField(fs, usage) < |fs|
    ensures Prefer(NoAxis, FirstAxis(fs, usage)) == FirstAxis(fs, usage)
  {
  }

  lemma {:induction false} AllButtonsKeepsAxes(m: Mouse, gs: seq<Group>, off: nat)
    ensures var r := AllButtons(m, gs, off);
      r.x == m.x && r.y == m.y && r.wheel == m.wheel && r.valid == m.valid && r.hasId == m.hasId && r.id == m.id
    decreases |gs|
  {
    if gs != [] {
      AllButtonsKeepsAxes(WithButtons(m, gs[0], off), gs[1..], off + gs[0].Bits());
    }
  }
}
