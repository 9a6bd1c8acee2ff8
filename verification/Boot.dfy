/** The memory part of `kernel_main`: reserve the bitmap, build the tables, grow the heap. */
module Boot {
  import opened Bits
  import opened Pmm
  import opened PageTables
  import opened Vmm

  const MAX_PREMAP: nat := 0x1000_0000

  datatype Outcome = Grown(base: nat) | OutOfMemory | NotContiguous(base: nat)

  /** A page range to identity-map, as the boot code lists them. */
  datatype Range = Range(start: nat, bytes: nat)

  function Pages(r: Range): nat { (r.bytes + 4095) / 4096 }

  predicate RangeOk(r: Range) {
    r.start % 4096 == 0 && r.start + Pages(r) * 4096 <= 0x1_0000_0000_0000_0000
  }

  // ---- The tables that the mapped ranges need ----

  /** The table at depth `k` for page `q` of a range. */
  function TablePath(start: nat, q: nat, k: nat): Path
    requires start + q * 4096 < 0x1_0000_0000_0000_0000 && k <= 3
  {
    Indices(start + q * 4096)[..k]
  }

  ghost function TablesFor(start: nat, pages: nat): set<Path>
    requires start + pages * 4096 <= 0x1_0000_0000_0000_0000
  {
    set q: nat, k: nat | q < pages && 1 <= k <= 3 :: TablePath(start, q, k)
  }

  ghost function RangeTables(r: Range): set<Path>
    requires RangeOk(r)
  {
    TablesFor(r.start, Pages(r))
  }

  /** Page `q` of a range. */
  function PageAt(start: nat, q: nat): u64
    requires start + q * 4096 < 0x1_0000_0000_0000_0000
  {
    start + q * 4096
  }

  ghost function PagesFor(start: nat, pages: nat): iset<u64>
    requires start + pages * 4096 <= 0x1_0000_0000_0000_0000
  {
    iset q: nat | q < pages :: PageAt(start, q)
  }

  ghost function RangePages(r: Range): iset<u64>
    requires RangeOk(r)
  {
    PagesFor(r.start, Pages(r))
  }

  ghost function AllPages(rs: seq<Range>): iset<u64>
    requires forall r :: r in rs ==> RangeOk(r)
  {
    if rs == [] then iset{} else AllPages(rs[..|rs| - 1]) + RangePages(rs[|rs| - 1])
  }

  ghost function AllTables(rs: seq<Range>): set<Path>
    requires forall r :: r in rs ==> RangeOk(r)
  {
    if rs == [] then {} else AllTables(rs[..|rs| - 1]) + RangeTables(rs[|rs| - 1])
  }

  lemma PathsOf(start: nat, q: nat)
    requires start + q * 4096 < 0x1_0000_0000_0000_0000
    ensures TablePaths(start + q * 4096) == set k: nat | 1 <= k <= 3 :: TablePath(start, q, k)
  {
    hide Indices;
    assert TablePaths(start + q * 4096) == {TablePath(start, q, 1), TablePath(start, q, 2), TablePath(start, q, 3)};
  }

  lemma OneMorePage(start: nat, pages: nat)
    requires start + (pages + 1) * 4096 <= 0x1_0000_0000_0000_0000
    ensures TablesFor(start, pages + 1) == TablesFor(start, pages) + TablePaths(start + pages * 4096)
    ensures PagesFor(start, pages + 1) == PagesFor(start, pages) + iset{start + pages * 4096}
  {
    hide TablePaths, TablePath;
    PathsOf(start, pages);
    assert PageAt(start, pages) in PagesFor(start, pages + 1);
  }

  /** The loop over low memory as its first round and the others. */
  lemma {:induction false} FirstPage(start: nat, pages: nat)
    requires start + (pages + 1) * 4096 <= 0x1_0000_0000_0000_0000
    ensures TablesFor(start, pages + 1) == TablePaths(start) + TablesFor(start + 4096, pages)
    ensures PagesFor(start, pages + 1) == iset{start} + PagesFor(start + 4096, pages)
  {
    hide TablesFor, TablePaths, PagesFor;
    OneMorePage(start, pages);
    if pages > 0 {
      FirstPage(start, pages - 1);
      OneMorePage(start + 4096, pages - 1);
      assert start + 4096 + (pages - 1) * 4096 == start + pages * 4096;
    } else {
      NoPages(start);
      NoPages(start + 4096);
    }
  }

  lemma TablesAt(start: nat, pages: nat, q: nat)
    requires start + pages * 4096 <= 0x1_0000_0000_0000_0000 && q < pages
    ensures TablePaths(start + q * 4096) <= TablesFor(start, pages) && start + q * 4096 in PagesFor(start, pages)
  {
    hide TablePaths, TablePath;
    assert PageAt(start, q) in PagesFor(start, pages);
    PathsOf(start, q);
  }

  // ---- Mapping the ranges ----

  /** An address leads to a page of `pages` with its own indices, writable, for the kernel only; or nowhere. */
  ghost predicate LeadsHome(mem: Memory, root: nat, pages: iset<u64>, u: u64) {
    || (Translate(mem, root, u) == Unmapped && forall v :: v in pages ==> Indices(v) != Indices(u))
    || exists v :: v in pages && Indices(v) == Indices(u) && Translate(mem, root, u) == Mapped(v, true, false)
  }

  /** Exactly the addresses in `pages` are mapped, each page to itself. */
  ghost predicate Identity(mem: Memory, root: nat, pages: iset<u64>) {
    forall u: u64 :: LeadsHome(mem, root, pages, u)
  }

  /**
   * The allocator has handed out the pages from `first` on for the tables `tables`, and nothing else,
   * and `pages` are mapped to themselves; when the pages below `lim` are too few for the tables, it
   * has none of those left.
   */
  ghost predicate Accounted(vm: AddressSpace, first: nat, lim: nat, tail: set<nat>, tables: set<Path>,
                            pages: iset<u64>)
    reads vm, vm.pmm.bitmap
  {
    && vm.Valid() && 0 !in vm.pmm.Free()
    && IsUpper(vm.pmm.Free(), first + |tables|, lim, tail)
    && (first + |tables| <= lim ==>
          vm.TreeOk() && KernelLinks(vm.mem, vm.dir) && vm.dir.Keys == tables && Identity(vm.mem, vm.pml4, pages))
  }

  /** One identity mapping adds its page, and the tables that it needs, at a page each. */
  method MapSelf(vm: AddressSpace, v: u64, ghost first: nat, ghost lim: nat, ghost tail: set<nat>,
                 ghost tables: set<Path>, ghost pages: iset<u64>)
    requires Accounted(vm, first, lim, tail, tables, pages) && v % 4096 == 0
    modifies vm`mem, vm`dir, vm.pmm.bitmap
    ensures Accounted(vm, first, lim, tail, tables + TablePaths(v), pages + iset{v})
    ensures vm.pmm.Free() <= old(vm.pmm.Free())
  {
    hide Writable, User, MapFlags, TablePaths, Missing, Tree, KernelLinks, FramesTaken, IsUpper, Identity, Indices;
    WriteFlag();
    ghost var free, k, k' := vm.pmm.Free(), first + |tables|, first + |tables + TablePaths(v)|;
    ghost var m0 := vm.mem;
    MissingCount(vm.dir, v);
    assert k <= k' by {
      MoreTables(tables, TablePaths(v));
    }
    if k <= lim {
      UpperSize(free, k, lim, tail);
    }
    ghost var ok := vm.MapPage(v, v, 2);
    if k > lim {
      BeyondLim(free, vm.pmm.Free(), k, k', lim, tail);
    } else if !ok {
      BeyondLim(free, vm.pmm.Free(), k, k', lim, tail);
    } else {
      OneMoreAtHome(m0, vm.mem, vm.pml4, pages, v);
    }
  }

  /** Mapping one more page to itself. */
  lemma OneMoreAtHome(m: Memory, m': Memory, root: nat, pages: iset<u64>, v: u64)
    requires Identity(m, root, pages)
    requires forall u: u64 ::
      Translate(m', root, u) == if Indices(u) == Indices(v) then Mapped(v, true, false) else Translate(m, root, u)
    ensures Identity(m', root, pages + iset{v})
  {
    hide Indices, Translate;
    forall u: u64
      ensures LeadsHome(m', root, pages + iset{v}, u)
    {
      assert LeadsHome(m, root, pages, u);
      if Indices(u) == Indices(v) {
        assert v in pages + iset{v};
      } else if Translate(m', root, u) != Unmapped {
        var w :| w in pages && Indices(w) == Indices(u) && Translate(m, root, u) == Mapped(w, true, false);
        assert w in pages + iset{v};
      }
    }
  }

  lemma MoreTables(s: set<Path>, t: set<Path>)
    ensures |s| <= |s + t|
  {
    assert |s + t| == |s| + |t - s|;
  }

  lemma BeyondLim(before: set<nat>, after: set<nat>, k: nat, k': nat, lim: nat, tail: set<nat>)
    requires IsUpper(before, k, lim, tail) && after <= before && k' > lim && (k > lim || after == {})
    ensures IsUpper(after, k', lim, tail)
  {
  }

  lemma WriteFlag()
    ensures MapFlags(2) && Writable(2) && !User(2)
  {
  }

  lemma AlignedSum(a: nat, b: nat)
    requires a % 4096 == 0 && b % 4096 == 0
    ensures (a + b) % 4096 == 0
  {
  }

  /** The identity-mapping loop. */
  method MapRange(vm: AddressSpace, r: Range, ghost first: nat, ghost lim: nat, ghost tail: set<nat>,
                  ghost tables: set<Path>, ghost pages: iset<u64>)
    requires RangeOk(r) && Accounted(vm, first, lim, tail, tables, pages)
    modifies vm`mem, vm`dir, vm.pmm.bitmap
    ensures Accounted(vm, first, lim, tail, tables + RangeTables(r), pages + RangePages(r))
    ensures vm.pmm.Free() <= old(vm.pmm.Free())
  {
    hide IsUpper, Tree, KernelLinks, FramesTaken, TablesFor, TablePaths, PagesFor, Identity;
    var i := 0;
    ghost var done := 0;
    assert tables + TablesFor(r.start, 0) == tables && pages + PagesFor(r.start, 0) == pages by {
      NoPages(r.start);
    }
    while i < r.bytes
      invariant i == done * 4096 && done <= Pages(r)
      invariant vm.Valid()
      invariant Accounted(vm, first, lim, tail, tables + TablesFor(r.start, done), pages + PagesFor(r.start, done))
      invariant vm.pmm.Free() <= old(vm.pmm.Free())
      decreases r.bytes - i
    {
      AlignedSum(r.start, i);
      MapSelf(vm, r.start + i, first, lim, tail, tables + TablesFor(r.start, done), pages + PagesFor(r.start, done));
      OneMorePage(r.start, done);
      assert pages + PagesFor(r.start, done) + iset{r.start + i} == pages + PagesFor(r.start, done + 1);
      assert tables + TablesFor(r.start, done) + TablePaths(r.start + i) == tables + TablesFor(r.start, done + 1);
      i, done := i + 4096, done + 1;
    }
  }

  lemma NoPages(start: nat)
    requires start <= 0x1_0000_0000_0000_0000
    ensures TablesFor(start, 0) == {} && PagesFor(start, 0) == iset{}
  {
  }

  // ---- The byte of the bitmap that the root table lies over ----

  /** The first byte of a little-endian entry. */
  function LowByte(e: nat): bv8 { (e % 256) as bv8 }

  /** The page from which on the bitmap is not in pages of its own. */
  function SolidPages(maxPages: nat): nat {
    if BitmapFits(maxPages) then maxPages else 32768 * BitmapPages(maxPages)
  }

  /** The pages from there on that read as free once the root table has its first entry. */
  function SpillTail(maxPages: nat): set<nat> {
    if BitmapFits(maxPages) then {} else set p: nat | p < maxPages && PastHidden(p, maxPages)
  }

  predicate PastHidden(p: nat, maxPages: nat) {
    p >= SolidPages(maxPages) + 2
  }

  /**
   * The root table's first entry, a table address with the present and write flags, reads as a
   * bitmap byte in which the first two pages after the solid ones are in use, although nobody was
   * given them.
   */
  lemma SpillHidesPages(before: set<nat>, after: set<nat>, k: nat, maxPages: nat, frame: nat)
    requires !BitmapFits(maxPages) && IsUpper(before, k, maxPages, {}) && k <= SolidPages(maxPages)
    requires frame % 4096 == 0
    requires var i, b := 4096 * BitmapPages(maxPages), LowByte(Or(frame, 3));
      forall p: nat :: p in after <==> p < maxPages && if p / 8 == i then !InUse(b, p % 8) else p in before
    ensures after <= before && IsUpper(after, k, SolidPages(maxPages), SpillTail(maxPages))
    ensures SolidPages(maxPages) in before && SolidPages(maxPages) !in after
  {
    hide Or, BitmapBytes, InUse, LowByte;
    BitmapFitsIff(maxPages);
    PresentAndWrite(frame);
    var solid := SolidPages(maxPages);
    forall p: nat
      ensures p / 8 == 4096 * BitmapPages(maxPages) <==> solid <= p < solid + 8
    {
    }
  }

  lemma PresentAndWrite(frame: nat)
    requires frame % 4096 == 0
    ensures forall j :: 0 <= j < 8 ==> (InUse(LowByte(Or(frame, 3)), j) <==> j < 2)
  {
    hide Or, InUse, LowByte;
    AddressAndFlags(frame, 3);
    LowByteIs(Or(frame, 3), 3);
    forall j | 0 <= j < 8
      ensures InUse(3, j) <==> j < 2
    {
      BitsOfThree(j);
    }
  }

  lemma LowByteIs(e: nat, flags: nat)
    requires e % 4096 == flags < 256
    ensures LowByte(e) == flags as bv8
  {
    var q := 16 * (e / 4096);
    assert e == 256 * q + flags;
    LowEight(q, flags);
  }

  lemma LowEight(q: nat, low: nat)
    requires low < 256
    ensures (256 * q + low) % 256 == low
  {
  }

  lemma BitsOfThree(j: nat)
    requires j < 8
    ensures InUse(3, j) <==> j < 2
  {
  }

  /** A cleared byte there changes nothing: those pages are free. */
  lemma ClearedSpill(before: set<nat>, after: set<nat>, k: nat, maxPages: nat)
    requires !BitmapFits(maxPages) && IsUpper(before, k, maxPages, {}) && k <= SolidPages(maxPages)
    requires forall p: nat :: p in after <==>
      p < maxPages && if p / 8 == 4096 * BitmapPages(maxPages) then !InUse(0, p % 8) else p in before
    ensures after == before
  {
    BitmapFitsIff(maxPages);
    assert forall j :: 0 <= j < 8 ==> !InUse(0, j);
  }

  lemma RootEntry(vm: AddressSpace) returns (frame: nat)
    requires vm.Valid() && vm.TreeOk() && KernelLinks(vm.mem, vm.dir) && Indices(0)[..1] in vm.dir
    ensures frame % 4096 == 0 && FrameAt(vm.mem, vm.pml4)[0] == Or(frame, 3)
  {
    hide Or, FrameAt;
    var e := EntryAt(vm.mem, vm.dir, [], 0);
    assert Indices(0)[..1] == Child([], 0);
    assert Linked(vm.mem, vm.dir, [], 0) && KernelLink(e);
    frame := AddrOf(e);
    assert e % 4096 == 3 by {
      Fields(e / 4096, 0, 7);
    }
    AddressAndFlags(frame, 3);
  }

  lemma RootAccounted(vm: AddressSpace, free: set<nat>, first: nat)
    requires vm.Valid() && IsUpper(free, first, vm.pmm.maxPages, {}) && 0 !in free
    requires Took(free, vm.pmm.Free(), if free == {} then 0 else 1) && vm.dir == map[[] := vm.pml4]
    requires free != {} ==> vm.TreeOk() && KernelLinks(vm.mem, vm.dir) && forall v :: vm.Walk(v) == Unmapped
    ensures Accounted(vm, first, vm.pmm.maxPages, {}, {[]}, iset{})
  {
    hide Tree, KernelLinks, FramesTaken;
    var none: Path := [];
    assert |{none}| == 1 && vm.dir.Keys == {none};
    assert free == {} ==> first !in free;
    forall u: u64 | free != {}
      ensures LeadsHome(vm.mem, vm.pml4, iset{}, u)
    {
      assert vm.Walk(u) == Unmapped;
    }
    assert IsUpper(free, first, vm.pmm.maxPages, {});
  }

  lemma FewTables()
    ensures |{[]} + TablePaths(0)| <= 4
  {
    hide Indices;
    var none: Path := [];
    var a, b, c := Indices(0)[..1], Indices(0)[..2], Indices(0)[..3];
    assert |a| == 1 && |b| == 2 && |c| == 3;
    ThreeMore({none}, a, b, c);
  }

  /**
   * `VMM_Init` and the first round of the mapping loop, which maps page 0. Where the bitmap spills,
   * they leave its last byte equal to the first byte of the root table.
   */
  method BuildRoot(pmm: Allocator, ghost first: nat) returns (vm: AddressSpace)
    requires pmm.Valid() && pmm.base % 4096 == 0 && 1 <= first
    requires forall p: nat :: p in pmm.Free() <==> first <= p < pmm.maxPages
    requires first == BitmapPages(pmm.maxPages)
    modifies pmm.bitmap
    ensures fresh(vm) && vm.pmm == pmm && pmm.Free() <= old(pmm.Free())
    ensures Accounted(vm, first, SolidPages(pmm.maxPages), SpillTail(pmm.maxPages), {[]} + TablePaths(0), iset{0})
  {
    hide Tree, KernelLinks, FramesTaken, TablePaths, IsUpper, MovedUp, Identity;
    ghost var free, max := pmm.Free(), pmm.maxPages;
    var spills := BitmapBytes(pmm.maxPages) > 4096 * BitmapPages(pmm.maxPages);
    BitmapFitsIff(max);
    vm := new AddressSpace(pmm);
    assert IsUpper(free, first, max, {}) by {
      AllUpper(free, first, max);
    }
    RootAccounted(vm, free, first);
    if spills {
      ghost var rooted := pmm.Free();
      pmm.Overwrite(4096 * BitmapPages(pmm.maxPages), 0);
      SolidIsMany(max);
      ClearedSpill(rooted, pmm.Free(), first + 1, max);
    }
    MapSelf(vm, 0, first, max, {}, {[]}, iset{});
    assert iset{} + iset{0} == iset{0};
    if spills {
      RootShowsThrough(vm, first);
    }
  }

  /** The root table's first entry as the last byte of the bitmap. */
  method RootShowsThrough(vm: AddressSpace, ghost first: nat)
    requires !BitmapFits(vm.pmm.maxPages) && first == BitmapPages(vm.pmm.maxPages)
    requires Accounted(vm, first, vm.pmm.maxPages, {}, {[]} + TablePaths(0), iset{0})
    modifies vm.pmm.bitmap
    ensures vm.Valid() && vm.pmm.Free() <= old(vm.pmm.Free())
    ensures Accounted(vm, first, SolidPages(vm.pmm.maxPages), SpillTail(vm.pmm.maxPages), {[]} + TablePaths(0), iset{0})
  {
    hide Identity, Tree, KernelLinks, FramesTaken, TablePaths, IsUpper, SolidPages, SpillTail, FrameAt, LowByte, Or, BitmapPages;
    ghost var mapped, k, max := vm.pmm.Free(), first + |{[]} + TablePaths(0)|, vm.pmm.maxPages;
    BitmapFitsIff(max);
    FewTables();
    RootHasTable();
    ghost var frame := RootEntry(vm);
    assert k <= SolidPages(max) <= max by {
      SolidIsMany(max);
    }
    vm.pmm.Overwrite(4096 * BitmapPages(vm.pmm.maxPages), LowByte(FrameAt(vm.mem, vm.pml4)[0]));
    SpillHidesPages(mapped, vm.pmm.Free(), k, max, frame);
    FramesStayTaken(vm.dir, vm.pmm.base, mapped, vm.pmm.Free());
  }

  lemma SolidIsMany(max: nat)
    requires !BitmapFits(max)
    ensures BitmapPages(max) + 4 <= SolidPages(max) <= max
  {
    BitmapFitsIff(max);
  }

  lemma RootHasTable()
    ensures Indices(0)[..1] in TablePaths(0)
  {
  }

  lemma AllUpper(free: set<nat>, first: nat, max: nat)
    requires forall p: nat :: p in free <==> first <= p < max
    ensures IsUpper(free, first, max, {})
  {
  }

  // ---- The heap ----

  /** The pages from `start` up to `end` of the region are mapped to themselves, writable, for the kernel only. */
  ghost predicate PagesMapped(vm: AddressSpace, start: nat, end: nat)
    requires vm.pmm.base + end * 4096 <= 0x1_0000_0000_0000
    reads vm
  {
    forall q: nat :: start <= q < end ==> SelfMapped(vm, vm.pmm.Addr(q))
  }

  ghost predicate SelfMapped(vm: AddressSpace, v: u64)
    reads vm
  {
    vm.Walk(v) == Mapped(v, true, false)
  }

  lemma OtherPage(u: nat, v: nat)
    requires u < v < 0x1_0000_0000_0000 && u % 4096 == 0 && v % 4096 == 0
    ensures Indices(u) != Indices(v)
  {
    hide Indices;
    SamePageIff(u, v);
    assert u / 4096 < v / 4096 < 0x10_0000_0000;
  }

  /** The pages below `lim` lie inside the part of the region that is mapped in advance. */
  ghost predicate Premapped(vm: AddressSpace, region: Range, lim: nat) {
    && RangeOk(region) && vm.pmm.base == region.start
    && lim * 4096 <= region.bytes && region.start + region.bytes <= 0x1_0000_0000_0000
  }

  /** The pages from `k` on are left, and the tables for the region stand. */
  ghost predicate HeapSoFar(vm: AddressSpace, k: nat, region: Range, lim: nat, tail: set<nat>, pages: iset<u64>)
    requires RangeOk(region)
    reads vm, vm.pmm.bitmap
  {
    && vm.Valid() && 0 !in vm.pmm.Free() && IsUpper(vm.pmm.Free(), k, lim, tail)
    && (k <= lim ==>
          && vm.TreeOk() && RangeTables(region) <= vm.dir.Keys
          && Identity(vm.mem, vm.pml4, pages) && RangePages(region) <= pages)
  }

  lemma NoneMissing(vm: AddressSpace, region: Range, page: nat, lim: nat)
    requires vm.Valid() && Premapped(vm, region, lim) && RangeTables(region) <= vm.dir.Keys && page < lim
    ensures Missing(vm.dir, vm.pmm.Addr(page)) == 0 && vm.pmm.Addr(page) in RangePages(region)
  {
    hide Indices, TablesFor, PagesFor;
    TablesAt(region.start, Pages(region), page);
  }

  /** One more heap page inside the range that is mapped in advance takes no frame. */
  method MapHeapPage(vm: AddressSpace, v: u64, ghost start: nat, ghost page: nat,
                     ghost region: Range, ghost lim: nat, ghost tail: set<nat>,
                     ghost pages: iset<u64>)
    requires vm.Valid() && v == vm.pmm.Addr(page) && start <= page && Premapped(vm, region, lim)
    modifies vm`mem, vm`dir, vm.pmm.bitmap
    ensures vm.Valid() && vm.pmm.Free() <= old(vm.pmm.Free())
    ensures page < lim && old(HeapSoFar(vm, page + 1, region, lim, tail, pages)) ==>
      && HeapSoFar(vm, page + 1, region, lim, tail, pages)
      && (old(PagesMapped(vm, start, page)) ==> PagesMapped(vm, start, page + 1))
  {
    hide Writable, User, Indices, MapFlags, IsUpper, Tree, FramesTaken, KernelLinks, TablePaths, TablesFor, Missing;
    hide Identity, PagesFor, Translate;
    WriteFlag();
    ghost var m0, inside := vm.mem, page < lim && HeapSoFar(vm, page + 1, region, lim, tail, pages);
    AlignedSum(vm.pmm.base, page * 4096);
    if inside {
      NoneMissing(vm, region, page, lim);
    }
    ghost var ok := vm.MapPage(v, v, 2);
    if inside {
      OneMoreAtHome(m0, vm.mem, vm.pml4, pages, v);
      assert pages + iset{v} == pages;
      forall q: nat | start <= q < page
        ensures vm.Walk(vm.pmm.Addr(q)) == old(vm.Walk(vm.pmm.Addr(q)))
      {
        AlignedSum(vm.pmm.base, q * 4096);
        OtherPage(vm.pmm.Addr(q), v);
      }
    }
  }

  /** The allocation of a heap page: page `k`, while only allocations were made and `k` lies below `lim`. */
  method TakeHeapPage(vm: AddressSpace, ghost k: nat, ghost region: Range, ghost lim: nat, ghost tail: set<nat>,
                      ghost pages: iset<u64>) returns (next: nat)
    requires vm.Valid() && 0 !in vm.pmm.Free() && RangeOk(region)
    modifies vm.pmm.bitmap
    ensures vm.pmm.Free() <= old(vm.pmm.Free())
    ensures next == 0 ==> vm.pmm.Free() == {}
    ensures next != 0 ==> exists page :: page in old(vm.pmm.Free()) && next == vm.pmm.Addr(page)
    ensures old(HeapSoFar(vm, k, region, lim, tail, pages)) && k < lim ==>
      next == vm.pmm.Addr(k) != 0 && HeapSoFar(vm, k + 1, region, lim, tail, pages)
    ensures old(HeapSoFar(vm, k, region, lim, tail, pages)) && k == lim ==>
      if tail == {} then next == 0 else exists page :: page in tail && next == vm.pmm.Addr(page) != 0
  {
    hide Tree, FramesTaken, KernelLinks, TablesFor, PagesFor, Identity, MovedUp;
    ghost var free := vm.pmm.Free();
    ghost var sofar := HeapSoFar(vm, k, region, lim, tail, pages);
    ghost var page;
    next, page := vm.pmm.AllocatePage();
    if sofar && k <= lim {
      assert k < lim ==> k in free;
      assert k == lim ==> free == tail;
      if free != {} {
        UpperTake(free, k, lim, tail, page);
        FramesStayTaken(vm.dir, vm.pmm.base, free, vm.pmm.Free());
      }
    }
  }

  /** The first heap page. */
  method StartHeap(vm: AddressSpace, ghost k: nat, ghost region: Range, ghost lim: nat, ghost tail: set<nat>,
                   ghost pages: iset<u64>) returns (heapBase: nat, ghost page: nat)
    requires vm.Valid() && Premapped(vm, region, lim) && HeapSoFar(vm, k, region, lim, tail, pages)
    requires vm.pmm.base + vm.pmm.maxPages * 4096 <= 0x1_0000_0000_0000
    modifies vm`mem, vm`dir, vm.pmm.bitmap
    ensures vm.Valid() && vm.pmm.Free() <= old(vm.pmm.Free())
    ensures heapBase == 0 ==> vm.pmm.Free() == {}
    ensures heapBase != 0 ==> page in old(vm.pmm.Free()) && heapBase == vm.pmm.Addr(page)
    ensures k < lim ==>
      heapBase != 0 && page == k && HeapSoFar(vm, k + 1, region, lim, tail, pages) && PagesMapped(vm, k, k + 1)
  {
    hide Tree, FramesTaken, KernelLinks, TablesFor, PagesFor, Identity, IsUpper, PagesMapped;
    ghost var free := vm.pmm.Free();
    heapBase := TakeHeapPage(vm, k, region, lim, tail, pages);
    page := 0;
    if heapBase != 0 {
      page :| page in free && heapBase == vm.pmm.Addr(page);
      if k < lim {
        NothingMapped(vm, k);
      }
      MapHeapPage(vm, heapBase, page, page, region, lim, tail, pages);
    }
  }

  /** One round of the growing loop. */
  method AddHeapPage(vm: AddressSpace, heapBase: nat, p: nat, ghost k: nat, ghost region: Range,
                     ghost lim: nat, ghost tail: set<nat>, ghost pages: iset<u64>) returns (r: Outcome)
    requires vm.Valid() && 0 !in vm.pmm.Free() && 1 <= p && Premapped(vm, region, lim)
    requires heapBase + p * 4096 < 0x1_0000_0000_0000_0000
    modifies vm`mem, vm`dir, vm.pmm.bitmap
    ensures vm.Valid() && vm.pmm.Free() <= old(vm.pmm.Free())
    ensures r == OutOfMemory || r == NotContiguous(heapBase) || r == Grown(heapBase)
    ensures r == OutOfMemory ==> vm.pmm.Free() == {}
    ensures r == Grown(heapBase) ==> exists page :: page in old(vm.pmm.Free()) && vm.pmm.Addr(page) == heapBase + p * 4096
    ensures old(HeapSoFar(vm, k + p, region, lim, tail, pages)) && heapBase == vm.pmm.Addr(k) && k + p < lim ==>
      && r == Grown(heapBase) && HeapSoFar(vm, k + p + 1, region, lim, tail, pages)
      && (old(PagesMapped(vm, k, k + p)) ==> PagesMapped(vm, k, k + p + 1))
    ensures old(HeapSoFar(vm, k + p, region, lim, tail, pages)) && heapBase == vm.pmm.Addr(k) && k + p == lim && lim !in tail ==>
      (r == if tail == {} then OutOfMemory else NotContiguous(heapBase)) && Identity(vm.mem, vm.pml4, pages)
  {
    hide Tree, FramesTaken, KernelLinks, TablesFor, PagesFor, Identity, IsUpper, PagesMapped;
    var next := TakeHeapPage(vm, k + p, region, lim, tail, pages);
    if next == 0 {
      return OutOfMemory;
    }
    var want := heapBase + p * 4096;
    if next != want {
      return NotContiguous(heapBase);
    }
    ghost var page: nat :| page in old(vm.pmm.Free()) && next == vm.pmm.Addr(page);
    MapHeapPage(vm, want, if k <= page then k else page, page, region, lim, tail, pages);
    r := Grown(heapBase);
  }

  /**
   * `kernel_main` takes the heap page by page and insists that each follows the last. With the pages
   * from `k` up to `lim` left, and those of `tail`, the outcome is settled: a heap that ends below
   * `lim` is grown and mapped, one that would have to pass it is not.
   */
  method GrowHeap(vm: AddressSpace, heapPages: nat, ghost k: nat, ghost region: Range, ghost lim: nat,
                  ghost tail: set<nat>, ghost pages: iset<u64>) returns (r: Outcome)
    requires heapPages >= 1 && heapPages * 4096 <= 0x1_0000_0000_0000
    requires vm.Valid() && Premapped(vm, region, lim) && HeapSoFar(vm, k, region, lim, tail, pages)
    requires vm.pmm.base + vm.pmm.maxPages * 4096 <= 0x1_0000_0000_0000
    modifies vm`mem, vm`dir, vm.pmm.bitmap
    ensures vm.Valid()
    ensures k + heapPages <= lim ==> r == Grown(vm.pmm.Addr(k)) && PagesMapped(vm, k, k + heapPages)
    ensures k < lim < k + heapPages && lim !in tail ==>
      r == if tail == {} then OutOfMemory else NotContiguous(vm.pmm.Addr(k))
    ensures k < lim && (k + heapPages <= lim || lim !in tail) ==> Identity(vm.mem, vm.pml4, pages)
    ensures r.OutOfMemory? ==> vm.pmm.Free() == {}
    ensures r.Grown? ==> exists page: nat :: r.base == vm.pmm.Addr(page) && AllIn(page, page + heapPages, old(vm.pmm.Free()))
  {
    hide Tree, FramesTaken, KernelLinks, TablesFor, PagesFor, Identity, IsUpper, PagesMapped;
    ghost var free := vm.pmm.Free();
    var heapBase;
    ghost var page;
    heapBase, page := StartHeap(vm, k, region, lim, tail, pages);
    if heapBase == 0 {
      return OutOfMemory;
    }
    ghost var settled := k < lim && (k + heapPages <= lim || lim !in tail);
    var p := 1;
    while p < heapPages
      invariant 1 <= p <= heapPages && vm.Valid() && vm.pmm.Free() <= free
      invariant AllIn(page, page + p, free)
      invariant settled ==> k + p <= lim && HeapSoFar(vm, k + p, region, lim, tail, pages) && PagesMapped(vm, k, k + p)
    {
      r := AddHeapPage(vm, heapBase, p, k, region, lim, tail, pages);
      if !r.Grown? {
        return;
      }
      p := p + 1;
    }
    r := Grown(heapBase);
  }

  lemma NothingMapped(vm: AddressSpace, k: nat)
    requires vm.pmm.base + k * 4096 <= 0x1_0000_0000_0000
    ensures PagesMapped(vm, k, k)
  {
  }

  ghost predicate AllIn(start: nat, end: nat, s: set<nat>) {
    forall q: nat :: start <= q < end ==> q in s
  }

  // ---- From the start to the heap ----

  function MappedBytes(memSize: nat): nat { if memSize > MAX_PREMAP then MAX_PREMAP else memSize }

  ghost predicate BootOk(memSize: nat, base: nat, others: seq<Range>) {
    && base % 4096 == 0 && base + memSize <= 0x1_0000_0000_0000
    && forall o :: o in others ==> RangeOk(o)
  }

  /** All tables of the kernel: the root, and what low memory, the region and the further ranges need. */
  ghost function BootTables(memSize: nat, base: nat, others: seq<Range>): set<Path>
    requires BootOk(memSize, base, others)
  {
    {[]} + TablesFor(0, 32768) + RangeTables(Range(base, MappedBytes(memSize))) + AllTables(others)
  }

  /** All pages that boot maps. */
  ghost function BootPages(memSize: nat, base: nat, others: seq<Range>): iset<u64>
    requires BootOk(memSize, base, others)
  {
    PagesFor(0, 32768) + RangePages(Range(base, MappedBytes(memSize))) + AllPages(others)
  }

  /** The page of the region at which the heap starts: after the bitmap and the tables. */
  ghost function HeapStart(memSize: nat, base: nat, others: seq<Range>): nat
    requires BootOk(memSize, base, others)
  {
    BitmapPages(memSize / 4096) + |BootTables(memSize, base, others)|
  }

  /** The page before which the heap has to end: the mapped part, and the pages the bitmap does not misreport. */
  function HeapRoom(maxPages: nat): nat {
    var mapped := MAX_PREMAP / 4096;
    if SolidPages(maxPages) < mapped then SolidPages(maxPages) else mapped
  }

  /** Only seven sizes of memory, a little over 128 MiB, leave less than the whole mapped part. */
  lemma HeapRoomIsWholeIff(maxPages: nat)
    ensures HeapRoom(maxPages) == (if maxPages < 65536 then maxPages else 65536) <==> !(32769 <= maxPages <= 32775)
    ensures 32769 <= maxPages <= 32775 ==> HeapRoom(maxPages) == 32768
  {
    BitmapFitsIff(maxPages);
    assert !BitmapFits(maxPages) ==> BitmapPages(maxPages) >= 1;
    assert 32769 <= maxPages <= 32775 ==> BitmapPages(maxPages) == 1;
  }

  /** Whether pages past the solid ones are left that read as free. */
  lemma TailOfSpill(maxPages: nat)
    requires maxPages <= 65536
    ensures SpillTail(maxPages) == {} <==> !(32771 <= maxPages <= 32775)
    ensures SolidPages(maxPages) <= maxPages && SolidPages(maxPages) !in SpillTail(maxPages)
    ensures HeapRoom(maxPages) == SolidPages(maxPages)
  {
    BitmapFitsIff(maxPages);
    HeapRoomIsWholeIff(maxPages);
    assert 32771 <= maxPages <= 32775 ==> 32770 in SpillTail(maxPages);
  }

  /** What is left below page `room`, and above it, when the heap is to be grown. */
  lemma LeftForHeap(free: set<nat>, k: nat, maxPages: nat) returns (tail: set<nat>)
    requires IsUpper(free, k, SolidPages(maxPages), SpillTail(maxPages))
    ensures IsUpper(free, k, HeapRoom(maxPages), tail)
    ensures maxPages <= 65536 && k < HeapRoom(maxPages) ==> tail == SpillTail(maxPages)
  {
    tail := set p | p in free && HeapRoom(maxPages) <= p;
    if maxPages <= 65536 {
      TailOfSpill(maxPages);
    }
  }

  lemma RegionHoldsRoom(memSize: nat)
    ensures HeapRoom(memSize / 4096) <= SolidPages(memSize / 4096)
    ensures HeapRoom(memSize / 4096) * 4096 <= MappedBytes(memSize)
  {
    BitmapFitsIff(memSize / 4096);
  }

  /** Eight or more pages in a row that read as free end before the pages that do not. */
  lemma RunsEndInTime(free: set<nat>, k: nat, maxPages: nat, page: nat, n: nat)
    requires IsUpper(free, k, SolidPages(maxPages), SpillTail(maxPages)) && AllIn(page, page + n, free) && n >= 8
    ensures k + n <= SolidPages(maxPages)
  {
    BitmapFitsIff(maxPages);
    var solid := SolidPages(maxPages);
    assert page in free && page + 7 in free;
    assert solid !in free;
  }

  /** The loops over the further ranges. */
  method MapAll(vm: AddressSpace, rs: seq<Range>, ghost first: nat, ghost lim: nat, ghost tail: set<nat>,
                ghost tables: set<Path>, ghost pages: iset<u64>)
    requires Accounted(vm, first, lim, tail, tables, pages) && forall r :: r in rs ==> RangeOk(r)
    modifies vm`mem, vm`dir, vm.pmm.bitmap
    ensures Accounted(vm, first, lim, tail, tables + AllTables(rs), pages + AllPages(rs))
  {
    hide IsUpper, Tree, KernelLinks, FramesTaken, TablesFor, TablePaths, PagesFor, Identity;
    assert tables + AllTables(rs[..0]) == tables && pages + AllPages(rs[..0]) == pages;
    for i := 0 to |rs|
      invariant vm.Valid() && Accounted(vm, first, lim, tail, tables + AllTables(rs[..i]), pages + AllPages(rs[..i]))
    {
      MapRange(vm, rs[i], first, lim, tail, tables + AllTables(rs[..i]), pages + AllPages(rs[..i]));
      assert rs[..i + 1][..i] == rs[..i];
      assert pages + AllPages(rs[..i + 1]) == pages + AllPages(rs[..i]) + RangePages(rs[i]);
      assert tables + AllTables(rs[..i + 1]) == tables + AllTables(rs[..i]) + RangeTables(rs[i]);
    }
    assert rs[..|rs|] == rs;
  }

  /** Everything after the bitmap's own pages is released; low memory, the region and `others` are mapped. */
  method BuildTables(memSize: nat, base: nat, others: seq<Range>) returns (vm: AddressSpace)
    requires BootOk(memSize, base, others)
    ensures fresh(vm) && fresh(vm.pmm.bitmap) && vm.pmm.base == base && vm.pmm.maxPages == memSize / 4096
    ensures var max := memSize / 4096;
      Accounted(vm, BitmapPages(max), SolidPages(max), SpillTail(max), BootTables(memSize, base, others),
                BootPages(memSize, base, others))
  {
    hide Identity, PagesFor, Tree, FramesTaken, KernelLinks, Indices, IsUpper, TablesFor, TablePaths, SpillTail, SolidPages;
    var pmm := new Allocator(memSize, base);
    var bitmapPages := BitmapPages(memSize / 4096);
    var count := U64(memSize / 4096 - bitmapPages);
    StartOf(bitmapPages, memSize);
    pmm.FreePages(base + bitmapPages * 4096, count);
    ghost var solid, tail, tables := SolidPages(pmm.maxPages), SpillTail(pmm.maxPages), {[]} + TablePaths(0);
    vm := BuildRoot(pmm, bitmapPages);
    MapRange(vm, Range(0x1000, 0x800_0000 - 0x1000), bitmapPages, solid, tail, tables, iset{0});
    FirstPage(0, 32767);
    tables := {[]} + TablesFor(0, 32768);
    assert tables == {[]} + TablePaths(0) + TablesFor(0x1000, 32767);
    ghost var pages := PagesFor(0, 32768);
    var bytes := if memSize > MAX_PREMAP then MAX_PREMAP else memSize;
    MapRange(vm, Range(base, bytes), bitmapPages, solid, tail, tables, pages);
    tables, pages := tables + RangeTables(Range(base, bytes)), pages + RangePages(Range(base, bytes));
    MapAll(vm, others, bitmapPages, solid, tail, tables, pages);
  }

  /** Address `u` lies in a page that one of the ranges starts in or reaches into. */
  predicate InRange(r: Range, u: nat) {
    r.start <= u - u % 4096 < r.start + r.bytes
  }

  ghost predicate InRanges(rs: seq<Range>, u: nat) {
    exists r :: r in rs && InRange(r, u)
  }

  /** Every 48-bit address leads to itself, page by page, if it lies in one of the ranges, and else nowhere. */
  ghost predicate IdentityMap(vm: AddressSpace, rs: seq<Range>)
    reads vm
  {
    forall u: u64 :: u < 0x1_0000_0000_0000 ==>
      vm.Walk(u) == if InRanges(rs, u) then Mapped(u - u % 4096, true, false) else Unmapped
  }

  /** What boot maps, range by range: low memory, the mapped part of the region, the further ranges. */
  function BootRanges(memSize: nat, base: nat, others: seq<Range>): seq<Range> {
    [Range(0, 0x800_0000), Range(base, MappedBytes(memSize))] + others
  }

  lemma PagesAre(r: Range, v: u64)
    requires RangeOk(r)
    ensures v in RangePages(r) <==> v % 4096 == 0 && r.start <= v < r.start + r.bytes
  {
    if v % 4096 == 0 && r.start <= v < r.start + r.bytes {
      var q := (v - r.start) / 4096;
      assert v == r.start + q * 4096;
      assert v == PageAt(r.start, q);
    }
  }

  lemma {:induction false} AllPagesAre(rs: seq<Range>, v: u64)
    requires forall r :: r in rs ==> RangeOk(r)
    ensures v in AllPages(rs) <==> exists r :: r in rs && v in RangePages(r)
  {
    hide RangePages;
    if rs != [] {
      AllPagesAre(rs[..|rs| - 1], v);
      assert rs == rs[..|rs| - 1] + [rs[|rs| - 1]];
    }
  }

  lemma BootPagesAre(memSize: nat, base: nat, others: seq<Range>, u: u64)
    requires BootOk(memSize, base, others)
    ensures u - u % 4096 in BootPages(memSize, base, others) <==> InRanges(BootRanges(memSize, base, others), u)
    ensures forall v :: v in BootPages(memSize, base, others) ==>
      v % 4096 == 0 && exists r :: r in BootRanges(memSize, base, others) && v < r.start + r.bytes
  {
    hide PagesFor, AllPages, RangePages;
    var low, region := Range(0, 0x800_0000), Range(base, MappedBytes(memSize));
    var rs := BootRanges(memSize, base, others);
    assert rs[0] == low && rs[1] == region && forall r :: r in others ==> r in rs;
    forall v: u64
      ensures v in BootPages(memSize, base, others) <==> exists r :: r in rs && v in RangePages(r)
    {
      AllPagesAre(others, v);
      LowPages();
    }
    forall r, v: u64 | r in rs
      ensures v in RangePages(r) <==> v % 4096 == 0 && r.start <= v < r.start + r.bytes
    {
      PagesAre(r, v);
    }
  }

  lemma LowPages()
    ensures RangePages(Range(0, 0x800_0000)) == PagesFor(0, 32768)
  {
  }

  /** Where all ranges lie below 2^48, a page with the indices of an address is that address's page. */
  lemma IdentityIsExact(vm: AddressSpace, memSize: nat, base: nat, others: seq<Range>)
    requires BootOk(memSize, base, others) && Identity(vm.mem, vm.pml4, BootPages(memSize, base, others))
    requires forall o :: o in others ==> o.start + o.bytes <= 0x1_0000_0000_0000
    ensures IdentityMap(vm, BootRanges(memSize, base, others))
  {
    hide Indices, Translate, BootPages;
    var pages, rs := BootPages(memSize, base, others), BootRanges(memSize, base, others);
    forall u: u64 | u < 0x1_0000_0000_0000
      ensures vm.Walk(u) == if InRanges(rs, u) then Mapped(u - u % 4096, true, false) else Unmapped
    {
      BootPagesAre(memSize, base, others, u);
      assert LeadsHome(vm.mem, vm.pml4, pages, u);
      var v := u - u % 4096;
      OwnPage(u, v);
      forall w | w in pages && Indices(w) == Indices(u)
        ensures w == v
      {
        OwnPage(u, w);
      }
    }
  }

  lemma OwnPage(u: u64, v: u64)
    requires u < 0x1_0000_0000_0000 && v < 0x1_0000_0000_0000 && v % 4096 == 0
    ensures Indices(u) == Indices(v) <==> v == u - u % 4096
  {
    hide Indices;
    SamePageIff(u, v);
    assert u / 4096 < 0x10_0000_0000 && v / 4096 < 0x10_0000_0000;
  }

  /**
   * The memory part of `kernel_main`, with its outcome: for memory of up to 256 MiB the heap is grown
   * exactly when the bitmap, the tables and the heap end within the room.
   */
  method StartMemory(memSize: nat, base: nat, others: seq<Range>, heapPages: nat)
    returns (r: Outcome, vm: AddressSpace)
    requires BootOk(memSize, base, others) && heapPages >= 1 && heapPages * 4096 <= 0x1_0000_0000_0000
    ensures vm.Valid() && vm.pmm.base == base && vm.pmm.maxPages == memSize / 4096
    ensures var start := HeapStart(memSize, base, others);
      start + heapPages <= HeapRoom(memSize / 4096) ==>
        && r == Grown(base + start * 4096)
        && base + (start + heapPages) * 4096 <= 0x1_0000_0000_0000 && PagesMapped(vm, start, start + heapPages)
    ensures memSize / 4096 <= 65536 && heapPages >= 8 ==>
      (r.Grown? <==> HeapStart(memSize, base, others) + heapPages <= HeapRoom(memSize / 4096))
    ensures r.Grown? && heapPages >= 8 ==> HeapStart(memSize, base, others) + heapPages <= SolidPages(memSize / 4096)
    ensures var start, max := HeapStart(memSize, base, others), memSize / 4096;
      max <= 65536 && start < HeapRoom(max) < start + heapPages ==>
        r == if 32771 <= max <= 32775 then NotContiguous(base + start * 4096) else OutOfMemory
    ensures r.OutOfMemory? ==> vm.pmm.Free() == {}
    ensures var start, max := HeapStart(memSize, base, others), memSize / 4096;
      (forall o :: o in others ==> o.start + o.bytes <= 0x1_0000_0000_0000) &&
      start < HeapRoom(max) && (max <= 65536 || start + heapPages <= HeapRoom(max)) ==>
        IdentityMap(vm, BootRanges(memSize, base, others))
  {
    hide Tree, FramesTaken, KernelLinks, IsUpper, TablesFor, PagesMapped, SpillTail, SolidPages, HeapRoom, BitmapPages, AllIn;
    hide Identity, IdentityMap, PagesFor;
    ghost var pages := BootPages(memSize, base, others);
    vm := BuildTables(memSize, base, others);
    ghost var max, start, free := memSize / 4096, HeapStart(memSize, base, others), vm.pmm.Free();
    ghost var tail := LeftForHeap(free, start, max);
    RegionHoldsRoom(memSize);
    if max <= 65536 {
      TailOfSpill(max);
    }
    r := GrowHeap(vm, heapPages, start, Range(base, MappedBytes(memSize)), HeapRoom(max), tail, pages);
    if (forall o :: o in others ==> o.start + o.bytes <= 0x1_0000_0000_0000) &&
      start < HeapRoom(max) && (max <= 65536 || start + heapPages <= HeapRoom(max)) {
      IdentityIsExact(vm, memSize, base, others);
    }
    if r.Grown? && heapPages >= 8 {
      ghost var page: nat :| r.base == vm.pmm.Addr(page) && AllIn(page, page + heapPages, free);
      RunsEndInTime(free, start, max, page, heapPages);
    }
  }

  lemma StartOf(bitmapPages: nat, memSize: nat)
    requires bitmapPages == BitmapPages(memSize / 4096) && memSize <= 0x1_0000_0000_0000
    ensures U64(bitmapPages * 4096) / 4096 == bitmapPages >= 1
    ensures var max := memSize / 4096;
      bitmapPages <= max ==> U64(max - bitmapPages) == max - bitmapPages
  {
  }

  // ---- A size of memory that is one page too many, and one that is not ----

  /** The last-level table for megabytes `2 * j` and `2 * j + 1`. */
  function LowTable(j: nat): Path { [0, 0, j] }

  ghost function LastTables(n: nat): set<Path> {
    set j: nat | j < n :: LowTable(j)
  }

  ghost function LowTables(n: nat): set<Path> {
    {[0], [0, 0]} + LastTables(n)
  }

  lemma LowPaths(v: u64)
    requires v < 0x4000_0000
    ensures TablePaths(v) == {[0], [0, 0], LowTable(v / 0x20_0000)}
  {
    var idx := Indices(v);
    assert idx[..1] == [0] && idx[..2] == [0, 0] && idx[..3] == LowTable(v / 0x20_0000);
  }

  /** A range that starts in the first two megabytes has one last-level table for each two megabytes up to its end. */
  lemma {:induction false} LowRange(start: nat, pages: nat)
    requires start < 0x20_0000 && start + pages * 4096 < 0x4000_0000 && pages >= 1
    ensures TablesFor(start, pages) == LowTables((start + (pages - 1) * 4096) / 0x20_0000 + 1)
  {
    hide TablesFor, TablePaths;
    var v := start + (pages - 1) * 4096;
    LowPaths(v);
    OneMorePage(start, pages - 1);
    if pages == 1 {
      NoPages(start);
    } else {
      LowRange(start, pages - 1);
      assert v / 0x20_0000 <= (v - 4096) / 0x20_0000 + 1;
    }
  }

  lemma {:induction false} LowCount(n: nat)
    ensures |LastTables(n)| == n
  {
    if n > 0 {
      LowCount(n - 1);
      assert LastTables(n) == LastTables(n - 1) + {LowTable(n - 1)};
    }
  }

  lemma WithTopTables(n: nat)
    ensures |{[]} + LowTables(n)| == n + 3
  {
    var root: Path := [];
    var a: Path, b: Path := [0], [0, 0];
    var lasts := LastTables(n);
    LowCount(n);
    assert forall p :: p in lasts ==> |p| == 3;
    ThreeMore(lasts, root, a, b);
    assert {root} + LowTables(n) == lasts + {root, a, b};
  }

  /** With a region of 127 to 129 megabytes from the second megabyte on there are 68 tables. */
  lemma TablesAtOneMegabyte(memSize: nat)
    requires 0x7F0_0000 < memSize <= 0x810_0000
    ensures |BootTables(memSize, 0x10_0000, [])| == 68
  {
    hide TablesFor, LowTables;
    var pages := Pages(Range(0x10_0000, memSize));
    LowRange(0, 32768);
    LowRange(0x10_0000, pages);
    assert (0x10_0000 + (pages - 1) * 4096) / 0x20_0000 == 64;
    assert LowTables(64) + LowTables(65) == LowTables(65) by {
      OneMoreLow(64);
    }
    WithTopTables(65);
    var root: Path := [];
    assert BootTables(memSize, 0x10_0000, []) == {root} + LowTables(65);
  }

  lemma OneMoreLow(n: nat)
    ensures LowTables(n) <= LowTables(n + 1)
  {
  }

  /**
   * A heap of 32700 pages is grown when memory has 32776 pages, and also needs no more than the 32706
   * that 32775 pages of memory leave for it; but then it is not.
   */
  method OnePageLess() returns (more: Outcome, less: Outcome)
    ensures HeapStart(32775 * 4096, 0x10_0000, []) + 32706 == 32775
    ensures more == Grown(0x10_0000 + 70 * 4096) && less == NotContiguous(0x10_0000 + 69 * 4096)
  {
    hide BootTables, HeapRoom;
    ghost var vm;
    TablesAtOneMegabyte(32775 * 4096);
    TablesAtOneMegabyte(32776 * 4096);
    HeapRoomIsWholeIff(32775);
    HeapRoomIsWholeIff(32776);
    more, vm := StartMemory(32776 * 4096, 0x10_0000, [], 32700);
    less, vm := StartMemory(32775 * 4096, 0x10_0000, [], 32700);
  }
}
