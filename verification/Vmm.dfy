/** The kernel's page-table builder, over the page allocator and physical memory. */
module Vmm {
  import opened Bits
  import opened Pmm
  import opened PageTables

  /** Flags a caller may pass: any of present, write and user. */
  predicate MapFlags(flags: nat) { flags < 8 }

  /** The tables below the root that the entry for `v` needs. */
  ghost function TablePaths(v: u64): set<Path> {
    {Indices(v)[..1], Indices(v)[..2], Indices(v)[..3]}
  }

  ghost function NewTables(dir: Dir, p: Path): nat {
    if p in dir then 0 else 1
  }

  /** How many of them a mapping of `v` has to add. */
  ghost function Missing(dir: Dir, v: u64): nat {
    NewTables(dir, Indices(v)[..1]) + NewTables(dir, Indices(v)[..2]) + NewTables(dir, Indices(v)[..3])
  }

  lemma MissingCount(dir: Dir, v: u64)
    ensures |dir.Keys + TablePaths(v)| == |dir.Keys| + Missing(dir, v)
  {
    hide Indices;
    var a, b, c := Indices(v)[..1], Indices(v)[..2], Indices(v)[..3];
    assert |a| == 1 && |b| == 2 && |c| == 3;
    ThreeMore(dir.Keys, a, b, c);
  }

  lemma ThreeMore<T>(s: set<T>, a: T, b: T, c: T)
    requires a != b && a != c && b != c
    ensures |s + {a, b, c}| == |s| + (if a in s then 0 else 1) + (if b in s then 0 else 1) + (if c in s then 0 else 1)
  {
    var t, u := s + {a}, s + {a} + {b};
    assert |t| == |s| + if a in s then 0 else 1 by { assert a in s ==> t == s; }
    assert |u| == |t| + if b in s then 0 else 1 by { assert b in s ==> u == t; }
    assert |u + {c}| == |u| + if c in s then 0 else 1 by { assert c in s ==> u + {c} == u; }
    assert s + {a, b, c} == u + {c};
  }

  class AddressSpace {
    const pmm: Allocator
    var mem: Memory
    var pml4: nat
    ghost var dir: Dir

    ghost predicate Valid() {
      pmm.Valid() && pmm.base % 4096 == 0
    }

    /** The tables form a tree, in frames that the allocator has handed out. */
    ghost predicate TreeOk()
      requires Valid()
      reads this, pmm.bitmap
    {
      && Tree(mem, pml4, dir)
      && FramesTaken(dir, pmm.base, pmm.Free())
    }

    /** All three tables above the entry for `v` exist. */
    ghost predicate HasTables(v: u64)
      reads this
    {
      Indices(v)[..3] in dir
    }

    /** The table for path `p` is at `a`, below user links if asked. */
    ghost predicate AtTable(a: nat, user: bool, p: Path)
      requires Valid()
      reads this, pmm.bitmap
    {
      TreeOk() && p in dir && dir[p] == a && (user ==> UserUpTo(mem, dir, p))
    }

    lemma AtRoot(user: bool)
      requires Valid() && TreeOk()
      ensures AtTable(pml4, user, [])
    {
      RootReady(mem, pml4, dir);
    }

    lemma AtLast(a: nat, user: bool, p: Path)
      requires Valid() && AtTable(a, user, p)
      ensures TreeOk() && p in dir && dir[p] == a && (user ==> UserUpTo(mem, dir, p))
    {
    }

    function Walk(v: u64): Walk
      reads this
    {
      Translate(mem, pml4, v)
    }

    /** `VMM_Init`: a cleared root table; nothing is mapped. */
    constructor (pmm: Allocator)
      requires pmm.Valid() && pmm.base % 4096 == 0
      modifies pmm.bitmap
      ensures Valid() && this.pmm == pmm
      ensures old(pmm.Free()) == {} ==> pmm.Free() == {}
      ensures old(pmm.Free()) != {} ==> TreeOk() && KernelLinks(mem, dir) && forall v :: Walk(v) == Unmapped
      ensures dir == map[[] := pml4] && Took(old(pmm.Free()), pmm.Free(), if old(pmm.Free()) == {} then 0 else 1)
    {
      hide Tree, KernelLinks, FramesTaken, Translate, MovedUp;
      this.pmm := pmm;
      ghost var page;
      mem := map[];
      dir := map[];
      pml4 := 0;
      new;
      pml4, page := pmm.AllocatePage();
      ClearPage(pml4);
      dir := map[[] := pml4];
      if old(pmm.Free()) != {} {
        RootOnly(pml4, pmm.base, old(pmm.Free()), page);
      }
    }

    method ClearPage(a: nat)
      modifies this`mem
      ensures mem == old(mem)[a := ZeroFrame()]
    {
      for i := 0 to 512
        invariant i == 0 ==> mem == old(mem)
        invariant i > 0 ==> mem == old(mem)[a := FrameAt(mem, a)]
        invariant forall k :: 0 <= k < i ==> FrameAt(mem, a)[k] == 0
      {
        mem := SetEntry(mem, a, i, 0);
      }
      assert FrameAt(mem, a) == ZeroFrame();
    }

    /**
     * One level of the descent: makes sure entry `i` of the table at `a` links to a table, with
     * user access if asked, and returns that table.
     */
    method NextTable(a: nat, i: nat, user: bool, ghost p: Path) returns (next: nat)
      requires Valid() && i < 512 && |p| < 3
      modifies this`mem, this`dir, pmm.bitmap
      ensures Valid() && pmm.Free() <= old(pmm.Free())
      ensures old(AtTable(a, user, p)) ==>
        if NewTables(old(dir), Child(p, i)) <= |old(pmm.Free())|
        then
          && AtTable(next, user, Child(p, i)) && dir.Keys == old(dir).Keys + {Child(p, i)}
          && Took(old(pmm.Free()), pmm.Free(), NewTables(old(dir), Child(p, i)))
          && (forall idx :: |idx| == 4 && InRange(idx) ==> LeafAt(mem, dir, idx) == old(LeafAt(mem, dir, idx)))
          && (!user && old(KernelLinks(mem, dir)) ==> KernelLinks(mem, dir))
        else pmm.Free() == {}
    {
      hide FrameAt, Or, LeafAt, Tree, KernelLinks, UserUpTo, SetEntry, MovedUp, InRange, FramesTaken;
      ghost var ok := AtTable(a, user, p) && NewTables(dir, Child(p, i)) <= |pmm.Free()|;
      TookNothing(pmm.Free());
      if AtTable(a, user, p) {
        EntryLinks(mem, pml4, dir, p, i);
      }
      if !Present(FrameAt(mem, a)[i]) {
        var frame, page := pmm.AllocatePage();
        var flags := if user then 7 else 3;
        if ok {
          FrameUnused(dir, pmm.base, old(pmm.Free()), page, Child(p, i));
          AddTable(mem, pml4, dir, p, i, frame, flags);
          if !user && KernelLinks(mem, dir) {
            AddKernelTable(mem, pml4, dir, p, i, frame);
          }
          AddressAndFlags(frame, flags);
        }
        ClearPage(frame);
        SetEntryAt(mem, a, i, Or(frame, flags));
        mem := SetEntry(mem, a, i, Or(frame, flags));
        dir := dir[Child(p, i) := frame];
      } else if user {
        if ok {
          UpgradeLink(mem, pml4, dir, p, i);
          SetUser(FrameAt(mem, a)[i]);
        }
        SetEntryAt(mem, a, i, Or(FrameAt(mem, a)[i], 4));
        mem := SetEntry(mem, a, i, Or(FrameAt(mem, a)[i], 4));
      }
      if ok {
        LinkLeads(mem, pml4, dir, p, i);
      }
      next := AddrOf(FrameAt(mem, a)[i]);
    }

    /** The descent of `VMM_MapPage` to the last-level table of `v`, adding what is missing. */
    method Descend(v: u64, user: bool) returns (pt: nat, ghost ok: bool)
      requires Valid()
      modifies this`mem, this`dir, pmm.bitmap
      ensures Valid()
      ensures pmm.Free() <= old(pmm.Free())
      ensures old(TreeOk()) ==> (ok <==> Missing(old(dir), v) <= |old(pmm.Free())|)
      ensures old(TreeOk()) && !ok ==> pmm.Free() == {}
      ensures old(TreeOk()) && ok ==>
        && TreeOk() && HasTables(v) && pt == dir[Indices(v)[..3]]
        && (user ==> UserUpTo(mem, dir, Indices(v)[..3]))
        && dir.Keys == old(dir).Keys + TablePaths(v)
        && Took(old(pmm.Free()), pmm.Free(), Missing(old(dir), v))
        && (forall idx :: |idx| == 4 && InRange(idx) ==> LeafAt(mem, dir, idx) == old(LeafAt(mem, dir, idx)))
        && (!user && old(KernelLinks(mem, dir)) ==> KernelLinks(mem, dir))
    {
      hide FrameAt, LeafAt, Tree, KernelLinks, UserUpTo, SetEntry, Or, MovedUp, Indices, FramesTaken, AtTable;
      var ix := Indices(v);
      ghost var p0, p1, p2, p3 := ix[..0], ix[..1], ix[..2], ix[..3];
      assert p1 == Child(p0, ix[0]) && p2 == Child(p1, ix[1]) && p3 == Child(p2, ix[2]);
      ghost var f0, n1, n2, n3 := pmm.Free(), NewTables(dir, p1), NewTables(dir, p2), NewTables(dir, p3);
      if TreeOk() {
        AtRoot(user);
      }
      ok := TreeOk() && n1 <= |f0|;
      var pdp := NextTable(pml4, ix[0], user, p0);
      ghost var f1 := pmm.Free();
      ok := ok && n2 <= |f1|;
      var pd := NextTable(pdp, ix[1], user, p1);
      ghost var f2 := pmm.Free();
      if ok {
        TookTwice(f0, f1, f2, n1, n2);
      }
      ok := ok && n3 <= |f2|;
      pt := NextTable(pd, ix[2], user, p2);
      if ok {
        TookTwice(f0, f2, pmm.Free(), n1 + n2, n3);
        AtLast(pt, user, p3);
      }
    }

    /**
     * `VMM_MapPage`: maps the page of `v` to `p` with exactly the given rights; every other page
     * keeps its translation and its effective rights. `ok` says that a frame was found for every
     * missing table; when it is false the allocator has run dry.
     */
    method MapPage(v: u64, p: nat, flags: nat) returns (ghost ok: bool)
      requires Valid() && p % 4096 == 0 && MapFlags(flags)
      modifies this`mem, this`dir, pmm.bitmap
      ensures Valid()
      ensures pmm.Free() <= old(pmm.Free())
      ensures old(TreeOk()) ==> (ok <==> Missing(old(dir), v) <= |old(pmm.Free())|)
      ensures old(TreeOk()) && !ok ==> pmm.Free() == {}
      ensures old(TreeOk()) && ok ==>
        && TreeOk() && HasTables(v) && dir.Keys == old(dir).Keys + TablePaths(v)
        && Took(old(pmm.Free()), pmm.Free(), Missing(old(dir), v))
        && (!User(flags) && old(KernelLinks(mem, dir)) ==> KernelLinks(mem, dir))
        && (forall u :: Walk(u) ==
              if Indices(u) == Indices(v) then Mapped(p, Writable(flags), User(flags)) else old(Walk(u)))
    {
      hide FrameAt, LeafAt, Tree, KernelLinks, UserUpTo, SetEntry, Or, Indices, FramesTaken;
      var ix := Indices(v);
      ghost var d0, m0, was := dir, mem, TreeOk();
      var pt;
      pt, ok := Descend(v, User(flags));
      var e := Or(Or(p, flags), 1);
      LeafEntry(p, flags);
      if was && ok {
        SetLeaf(mem, pml4, dir, ix[..3], ix[3], e);
        if KernelLinks(mem, dir) {
          SetKernelLeaf(mem, pml4, dir, ix[..3], ix[3], e);
        }
        assert ix == Child(ix[..3], ix[3]);
      }
      mem := SetEntry(mem, pt, ix[3], e);
      if was && ok {
        forall u
          ensures Walk(u) ==
            if Indices(u) == ix then Mapped(p, Writable(flags), User(flags)) else Translate(m0, pml4, u)
        {
          TranslateIsLeaf(m0, pml4, d0, u);
          TranslateIsLeaf(mem, pml4, dir, u);
        }
      }
    }
  }

  lemma RootOnly(frame: nat, base: nat, before: set<nat>, page: nat)
    requires Least(page, before) && frame == base + page * 4096 && base % 4096 == 0
    ensures Tree(map[frame := ZeroFrame()], frame, map[[] := frame])
    ensures KernelLinks(map[frame := ZeroFrame()], map[[] := frame])
    ensures FramesTaken(map[[] := frame], base, before - {page})
    ensures forall v :: Translate(map[frame := ZeroFrame()], frame, v) == Unmapped
  {
    var mem, dir: Dir := map[frame := ZeroFrame()], map[[] := frame];
    assert Tree(mem, frame, dir);
    forall v
      ensures Translate(mem, frame, v) == Unmapped
    {
      TranslateIsLeaf(mem, frame, dir, v);
    }
  }

  lemma RootReady(mem: Memory, root: nat, dir: Dir)
    requires Tree(mem, root, dir)
    ensures [] in dir && dir[[]] == root && UserUpTo(mem, dir, [])
  {
  }

  lemma TablesAbove(mem: Memory, root: nat, dir: Dir, p: Path)
    requires Tree(mem, root, dir) && p in dir && |p| == 3
    ensures p[..1] in dir && p[..2] in dir
  {
    PrefixIn(dir, p, 1);
    PrefixIn(dir, p, 2);
  }

  lemma NoneMissing(vm: AddressSpace, v: u64)
    requires vm.Valid() && vm.TreeOk() && vm.HasTables(v)
    ensures Missing(vm.dir, v) == 0
  {
    var p := Indices(v)[..3];
    assert p[..1] == Indices(v)[..1] && p[..2] == Indices(v)[..2];
    TablesAbove(vm.mem, vm.pml4, vm.dir, p);
  }

  lemma EntryLinks(mem: Memory, root: nat, dir: Dir, p: Path, i: nat)
    requires Tree(mem, root, dir) && p in dir && |p| < 3 && i < 512
    ensures Present(FrameAt(mem, dir[p])[i]) <==> Child(p, i) in dir
  {
    assert Linked(mem, dir, p, i);
  }

  /** No table stands in a free page. */
  ghost predicate FramesTaken(dir: Dir, base: nat, free: set<nat>) {
    forall q, page :: q in dir && page in free ==> dir[q] != base + page * 4096
  }

  lemma FramesStayTaken(dir: Dir, base: nat, before: set<nat>, after: set<nat>)
    requires FramesTaken(dir, base, before) && after <= before
    ensures FramesTaken(dir, base, after)
  {
  }

  /** A page that is taken for a new table was no table before, and is no free page after. */
  lemma FrameUnused(dir: Dir, base: nat, before: set<nat>, page: nat, c: Path)
    requires FramesTaken(dir, base, before) && page in before && base % 4096 == 0
    ensures base + page * 4096 !in dir.Values && (base + page * 4096) % 4096 == 0
    ensures FramesTaken(dir[c := base + page * 4096], base, before - {page})
  {
  }
}
