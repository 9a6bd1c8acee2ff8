/**
 * Four-level page tables in physical memory: what the processor's walk finds, and the tree that
 * the kernel's tables form.
 */
module PageTables {
  import opened Bits

  type u64 = x: int | 0 <= x < 0x1_0000_0000_0000_0000
  type Frame = t: seq<nat> | |t| == 512 witness seq(512, _ => 0)

  /** Physical memory, one frame of 512 entries per page-aligned address. */
  type Memory = map<nat, Frame>

  function ZeroFrame(): Frame { seq(512, _ => 0) }

  function FrameAt(mem: Memory, a: nat): Frame {
    if a in mem then mem[a] else ZeroFrame()
  }

  // ---- Entries ----

  predicate Present(e: nat) { e % 2 == 1 }
  predicate Writable(e: nat) { e / 2 % 2 == 1 }
  predicate User(e: nat) { e / 4 % 2 == 1 }

  /** `e & ~0xFFF` */
  function AddrOf(e: nat): nat { e - e % 4096 }

  /** The three flag bits and the address part of an entry, read off its digits. */
  lemma Fields(h: nat, k: nat, l: nat)
    requires k < 512 && l < 8
    ensures var e := 4096 * h + 8 * k + l;
      && (Present(e) <==> l % 2 == 1) && (Writable(e) <==> l / 2 % 2 == 1) && (User(e) <==> l >= 4)
      && AddrOf(e) == 4096 * h
  {
    LowBits(512 * h + k, l);
    Aligned(h, 8 * k + l);
  }

  lemma LowBits(m: nat, l: nat)
    requires l < 8
    ensures var e := 8 * m + l;
      (Present(e) <==> l % 2 == 1) && (Writable(e) <==> l / 2 % 2 == 1) && (User(e) <==> l >= 4)
  {
    var e := 8 * m + l;
    Halves(4 * m, l);
    Halves(2 * m, l / 2);
    Halves(m, l / 4);
    assert e == 2 * (4 * m) + l && e / 4 == e / 2 / 2;
  }

  lemma Halves(a: nat, b: nat)
    ensures (2 * a + b) / 2 == a + b / 2 && (2 * a + b) % 2 == b % 2
  {
  }

  lemma Aligned(h: nat, low: nat)
    requires low < 4096
    ensures AddrOf(4096 * h + low) == 4096 * h
  {
  }

  /** An aligned address or-ed with flag bits keeps both apart. */
  lemma AddressAndFlags(a: nat, f: nat)
    requires a % 4096 == 0 && f < 4096
    ensures Or(a, f) == a + f && AddrOf(Or(a, f)) == a && Or(a, f) % 4096 == f
    ensures Present(Or(a, f)) == Present(f) && Writable(Or(a, f)) == Writable(f) && User(Or(a, f)) == User(f)
  {
    hide Or, Present, Writable, User, AddrOf;
    assert Pow2(12) == 4096;
    OrDisjoint(a / 4096, f, 12);
    Fields(a / 4096, f / 8, f % 8);
    Fields(0, f / 8, f % 8);
  }

  /** `e | PAGE_USER` sets the one bit. */
  lemma SetUser(e: nat)
    ensures User(Or(e, 4)) && AddrOf(Or(e, 4)) == AddrOf(e)
    ensures Present(Or(e, 4)) == Present(e) && Writable(Or(e, 4)) == Writable(e)
    ensures TableFlags(e % 4096) ==> TableFlags(Or(e, 4) % 4096)
  {
    hide Or, Present, Writable, User, AddrOf, TableFlags;
    var m, l := e / 8, e % 8;
    var h, k := m / 512, m % 512;
    OrFour(m, l);
    Fields(h, k, l);
    Fields(h, k, 4 + l % 4);
    UpgradedFlags(h, k, l);
  }

  lemma UpgradedFlags(h: nat, k: nat, l: nat)
    requires k < 512 && l < 8
    ensures TableFlags((4096 * h + 8 * k + l) % 4096) ==> TableFlags((4096 * h + 8 * k + (4 + l % 4)) % 4096)
  {
    LowTwelve(h, 8 * k + l);
    LowTwelve(h, 8 * k + (4 + l % 4));
  }

  lemma LowTwelve(h: nat, low: nat)
    requires low < 4096
    ensures (4096 * h + low) % 4096 == low
  {
  }

  lemma OrFour(m: nat, l: nat)
    requires l < 8
    ensures Or(8 * m + l, 4) == 8 * m + (4 + l % 4)
  {
    hide Or;
    var e := 8 * m + l;
    OrUnfold(e, 4);
    OrUnfold(e / 2, 2);
    assert e / 2 == 4 * m + l / 2 && e / 2 / 2 == 2 * m + l / 4;
    OrUnfold(2 * m + l / 4, 1);
    OrZero(m);
  }

  /** `p | flags | PAGE_PRESENT` */
  lemma LeafEntry(p: nat, flags: nat)
    requires p % 4096 == 0 && flags < 8
    ensures var e := Or(Or(p, flags), 1);
      Present(e) && AddrOf(e) == p && Writable(e) == Writable(flags) && User(e) == User(flags)
  {
    hide Or, Present, Writable, User, AddrOf;
    var h := p / 4096;
    AddressAndFlags(p, flags);
    OrUnfold(p + flags, 1);
    OrZero((p + flags) / 2);
    assert Or(p + flags, 1) == p + flags + (1 - flags % 2) by {
      assert p + flags == 2 * (2048 * h + flags / 2) + flags % 2;
    }
    Fields(h, 0, flags + (1 - flags % 2));
    Fields(0, 0, flags);
  }

  // ---- Walks ----

  /** Where a virtual page leads, with its effective rights: allowed at every level. */
  datatype Walk = Unmapped | Mapped(phys: nat, write: bool, user: bool)

  predicate InRange(idx: seq<nat>) {
    forall k :: 0 <= k < |idx| ==> idx[k] < 512
  }

  /** The walk of the index path `idx` from the table at `a`. */
  function WalkFrom(mem: Memory, a: nat, idx: seq<nat>): Walk
    requires 0 < |idx| && InRange(idx)
    decreases |idx|
  {
    var e := FrameAt(mem, a)[idx[0]];
    if !Present(e) then Unmapped
    else if |idx| == 1 then Mapped(AddrOf(e), Writable(e), User(e))
    else
      match WalkFrom(mem, AddrOf(e), idx[1..])
      case Unmapped => Unmapped
      case Mapped(p, w, u) => Mapped(p, w && Writable(e), u && User(e))
  }

  /** The four table indices of a virtual address. */
  function Indices(v: u64): (idx: seq<nat>)
    ensures |idx| == 4 && InRange(idx)
  {
    [v / 0x80_0000_0000 % 512, v / 0x4000_0000 % 512, v / 0x20_0000 % 512, v / 0x1000 % 512]
  }

  // ---- The tree ----

  /** Table indices from the root to a table; `dir` names the frame of every table by its path. */
  type Path = seq<nat>
  type Dir = map<Path, nat>

  predicate IsPath(p: Path, depth: nat) {
    |p| <= depth && InRange(p)
  }

  function Child(p: Path, i: nat): Path { p + [i] }

  function Parent(p: Path): Path
    requires p != []
  {
    p[..|p| - 1]
  }

  function Last(p: Path): nat
    requires p != []
  {
    p[|p| - 1]
  }

  function EntryAt(mem: Memory, dir: Dir, p: Path, i: nat): nat
    requires p in dir && i < 512
  {
    FrameAt(mem, dir[p])[i]
  }

  /** Present and writable, with or without user access. */
  predicate TableFlags(f: nat) { f == 3 || f == 7 }

  /** An entry above the last level is present exactly when it links to a sub-table, writable. */
  ghost predicate Linked(mem: Memory, dir: Dir, p: Path, i: nat)
    requires p in dir && i < 512
  {
    var e := EntryAt(mem, dir, p, i);
    && (Present(e) <==> Child(p, i) in dir)
    && (Present(e) ==> Writable(e) && TableFlags(e % 4096) && AddrOf(e) == dir[Child(p, i)])
  }

  /** The entry that links to a table is a user entry if any entry in the table is. */
  ghost predicate UserBelow(mem: Memory, dir: Dir, p: Path, i: nat)
    requires p in dir && p != [] && Last(p) < 512 && i < 512
  {
    var e := EntryAt(mem, dir, p, i);
    Parent(p) in dir && (Present(e) && User(e) ==> User(EntryAt(mem, dir, Parent(p), Last(p))))
  }

  ghost predicate Paths(dir: Dir) {
    && [] in dir
    && (forall p :: p in dir ==> IsPath(p, 3) && dir[p] % 4096 == 0)
    && (forall p :: p in dir && p != [] ==> Parent(p) in dir)
  }

  /** No table frame has two parents. */
  ghost predicate NoSharing(dir: Dir) {
    forall p, q :: p in dir && q in dir && dir[p] == dir[q] ==> p == q
  }

  /** The kernel's tables form a tree: one frame per path, one path per frame. */
  ghost predicate Tree(mem: Memory, root: nat, dir: Dir) {
    && Paths(dir) && dir[[]] == root && NoSharing(dir)
    && (forall p: Path, i: nat :: p in dir && |p| < 3 && i < 512 ==> Linked(mem, dir, p, i))
    && (forall p: Path, i: nat :: p in dir && p != [] && i < 512 ==> UserBelow(mem, dir, p, i))
  }

  // ---- The tree as a page map ----

  /** The last-level entry for an index path; 0 where the tables for it are missing. */
  function LeafAt(mem: Memory, dir: Dir, idx: seq<nat>): nat
    requires |idx| == 4 && InRange(idx)
  {
    if idx[..3] in dir then EntryAt(mem, dir, idx[..3], idx[3]) else 0
  }

  function FromLeaf(e: nat): Walk {
    if Present(e) then Mapped(AddrOf(e), Writable(e), User(e)) else Unmapped
  }

  lemma {:induction false} PrefixIn(dir: Dir, q: Path, k: nat)
    requires Paths(dir) && q in dir && k <= |q|
    ensures q[..k] in dir
    decreases |q|
  {
    if k < |q| {
      assert Parent(q)[..k] == q[..k];
      PrefixIn(dir, Parent(q), k);
    } else {
      assert q[..k] == q;
    }
  }

  /** In a tree the effective rights of a page are those of its last-level entry alone. */
  lemma {:induction false} WalkIsLeaf(mem: Memory, root: nat, dir: Dir, idx: seq<nat>, k: nat)
    requires Tree(mem, root, dir) && |idx| == 4 && InRange(idx) && k <= 3 && idx[..k] in dir
    ensures WalkFrom(mem, dir[idx[..k]], idx[k..]) == FromLeaf(LeafAt(mem, dir, idx))
    ensures var e := LeafAt(mem, dir, idx);
      Present(e) && User(e) ==>
        Present(EntryAt(mem, dir, idx[..k], idx[k])) && User(EntryAt(mem, dir, idx[..k], idx[k]))
    decreases 3 - k
  {
    var q := idx[..k];
    var e := EntryAt(mem, dir, q, idx[k]);
    assert idx[k..][0] == idx[k];
    if k < 3 {
      assert Child(q, idx[k]) == idx[..k + 1];
      assert Linked(mem, dir, q, idx[k]);
      if Present(e) {
        WalkIsLeaf(mem, root, dir, idx, k + 1);
        assert idx[k..][1..] == idx[k + 1..];
        assert UserBelow(mem, dir, idx[..k + 1], idx[k + 1]);
        assert Parent(idx[..k + 1]) == q;
      } else if idx[..3] in dir {
        assert idx[..3][..k + 1] == idx[..k + 1];
        PrefixIn(dir, idx[..3], k + 1);
      }
    }
  }

  /** The address space: what the walk from the root finds for a virtual address. */
  function Translate(mem: Memory, root: nat, v: u64): Walk {
    WalkFrom(mem, root, Indices(v))
  }

  lemma TranslateIsLeaf(mem: Memory, root: nat, dir: Dir, v: u64)
    requires Tree(mem, root, dir)
    ensures Translate(mem, root, v) == FromLeaf(LeafAt(mem, dir, Indices(v)))
  {
    WalkIsLeaf(mem, root, dir, Indices(v), 0);
    assert Indices(v)[..0] == [] && Indices(v)[0..] == Indices(v);
  }

  /** Two addresses share their indices exactly when they lie in one 48-bit virtual page. */
  lemma SamePageIff(u: u64, v: u64)
    ensures Indices(u) == Indices(v) <==> u / 4096 % 0x10_0000_0000 == v / 4096 % 0x10_0000_0000
  {
    hide Indices;
    Digits(u);
    Digits(v);
    var a, b := Indices(u), Indices(v);
    if u / 4096 % 0x10_0000_0000 == v / 4096 % 0x10_0000_0000 {
      DigitsUnique(a[0], a[1], a[2], a[3], b[0], b[1], b[2], b[3]);
    }
    assert a == [a[0], a[1], a[2], a[3]] && b == [b[0], b[1], b[2], b[3]];
  }

  lemma DigitsUnique(a: nat, b: nat, c: nat, d: nat, a': nat, b': nat, c': nat, d': nat)
    requires b < 512 && c < 512 && d < 512 && b' < 512 && c' < 512 && d' < 512
    requires 0x800_0000 * a + 0x4_0000 * b + 512 * c + d == 0x800_0000 * a' + 0x4_0000 * b' + 512 * c' + d'
    ensures a == a' && b == b' && c == c' && d == d'
  {
  }

  lemma Digits(v: u64)
    ensures v / 4096 % 0x10_0000_0000 ==
      0x800_0000 * Indices(v)[0] + 0x4_0000 * Indices(v)[1] + 512 * Indices(v)[2] + Indices(v)[3]
  {
    var a := v / 4096;
    var b := a / 512;
    var c := b / 512;
    var e := c / 512;
    assert v / 0x20_0000 == b && v / 0x4000_0000 == c && v / 0x80_0000_0000 == e;
    FourDigits(e / 512, e % 512, c % 512, b % 512, a % 512);
  }

  lemma FourDigits(f: nat, e: nat, c: nat, b: nat, a: nat)
    requires e < 512 && c < 512 && b < 512 && a < 512
    ensures (512 * (512 * (512 * (512 * f + e) + c) + b) + a) % 0x10_0000_0000 == 0x800_0000 * e + 0x4_0000 * c + 512 * b + a
  {
    var low := 0x800_0000 * e + 0x4_0000 * c + 512 * b + a;
    assert 512 * (512 * (512 * (512 * f + e) + c) + b) + a == 0x10_0000_0000 * f + low;
    assert low < 0x10_0000_0000;
  }

  // ---- Changes of the tree ----

  function SetEntry(mem: Memory, a: nat, i: nat, e: nat): Memory
    requires i < 512
  {
    mem[a := FrameAt(mem, a)[i := e]]
  }

  lemma SetEntryAt(mem: Memory, a: nat, i: nat, e: nat)
    requires i < 512
    ensures FrameAt(SetEntry(mem, a, i, e), a)[i] == e
  {
  }

  /** A link that stands in a tree leads where `dir` says, through user links if it is one. */
  lemma LinkLeads(mem: Memory, root: nat, dir: Dir, p: Path, i: nat)
    requires Tree(mem, root, dir) && p in dir && |p| < 3 && i < 512 && Child(p, i) in dir
    ensures AddrOf(FrameAt(mem, dir[p])[i]) == dir[Child(p, i)]
    ensures User(FrameAt(mem, dir[p])[i]) ==> UserUpTo(mem, dir, Child(p, i))
  {
    assert Linked(mem, dir, p, i);
    assert Parent(Child(p, i)) == p && Last(Child(p, i)) == i;
  }

  /** The links above a user entry are user links already. */
  ghost predicate UserUpTo(mem: Memory, dir: Dir, p: Path) {
    p in dir && IsPath(p, 3) &&
    (p != [] ==> Parent(p) in dir && User(EntryAt(mem, dir, Parent(p), Last(p))))
  }

  lemma AddTableEntries(mem: Memory, dir: Dir, p: Path, i: nat, frame: nat, e: nat)
    requires NoSharing(dir) && p in dir && i < 512 && Child(p, i) !in dir && frame !in dir.Values
    ensures var mem' := SetEntry(mem[frame := ZeroFrame()], dir[p], i, e);
      var dir' := dir[Child(p, i) := frame];
      forall q, j: nat :: q in dir' && j < 512 ==>
        EntryAt(mem', dir', q, j) ==
          if q == Child(p, i) then 0 else if q == p && j == i then e else EntryAt(mem, dir, q, j)
  {
    var mem' := SetEntry(mem[frame := ZeroFrame()], dir[p], i, e);
    assert dir[p] in dir.Values;
    forall q | q in dir
      ensures FrameAt(mem', dir[q]) == if q == p then FrameAt(mem, dir[p])[i := e] else FrameAt(mem, dir[q])
    {
      assert dir[q] in dir.Values;
    }
    assert FrameAt(mem', frame) == ZeroFrame();
  }

  lemma AddTableLinked(mem: Memory, root: nat, dir: Dir, p: Path, i: nat, frame: nat, f: nat, q: Path, j: nat)
    requires Tree(mem, root, dir) && p in dir && |p| < 3 && i < 512 && Child(p, i) !in dir
    requires frame % 4096 == 0 && frame !in dir.Values && TableFlags(f)
    requires (q in dir || q == Child(p, i)) && |q| < 3 && j < 512
    ensures Linked(SetEntry(mem[frame := ZeroFrame()], dir[p], i, Or(frame, f)), dir[Child(p, i) := frame], q, j)
  {
    hide SetEntry, FrameAt, UserBelow, Or;
    AddressAndFlags(frame, f);
    AddTableEntries(mem, dir, p, i, frame, Or(frame, f));
    assert Parent(Child(q, j)) == q && Last(Child(q, j)) == j;
    assert Parent(Child(p, i)) == p && Last(Child(p, i)) == i;
    if q != Child(p, i) {
      assert Linked(mem, dir, q, j);
    }
  }

  lemma AddTableUser(mem: Memory, root: nat, dir: Dir, p: Path, i: nat, frame: nat, f: nat, q: Path, j: nat)
    requires Tree(mem, root, dir) && p in dir && |p| < 3 && i < 512 && Child(p, i) !in dir
    requires frame % 4096 == 0 && frame !in dir.Values && TableFlags(f)
    requires f == 7 ==> UserUpTo(mem, dir, p)
    requires (q in dir || q == Child(p, i)) && q != [] && Last(q) < 512 && j < 512
    ensures UserBelow(SetEntry(mem[frame := ZeroFrame()], dir[p], i, Or(frame, f)), dir[Child(p, i) := frame], q, j)
  {
    hide SetEntry, FrameAt, Linked, Or;
    AddressAndFlags(frame, f);
    AddTableEntries(mem, dir, p, i, frame, Or(frame, f));
    assert q == Child(Parent(q), Last(q));
    assert Parent(Child(p, i)) == p;
    if q != Child(p, i) {
      assert UserBelow(mem, dir, q, j);
    }
  }

  /** Hanging a cleared, unused frame below a missing entry keeps the tree and every translation. */
  lemma AddTable(mem: Memory, root: nat, dir: Dir, p: Path, i: nat, frame: nat, f: nat)
    requires Tree(mem, root, dir) && p in dir && |p| < 3 && i < 512 && Child(p, i) !in dir
    requires frame % 4096 == 0 && frame !in dir.Values && TableFlags(f)
    requires f == 7 ==> UserUpTo(mem, dir, p)
    ensures var mem' := SetEntry(mem[frame := ZeroFrame()], dir[p], i, Or(frame, f));
      var dir' := dir[Child(p, i) := frame];
      && Tree(mem', root, dir')
      && (forall idx :: |idx| == 4 && InRange(idx) ==> LeafAt(mem', dir', idx) == LeafAt(mem, dir, idx))
  {
    hide SetEntry, FrameAt, Or, Linked, UserBelow;
    var mem' := SetEntry(mem[frame := ZeroFrame()], dir[p], i, Or(frame, f));
    var dir' := dir[Child(p, i) := frame];
    assert Parent(Child(p, i)) == p;
    AddTableEntries(mem, dir, p, i, frame, Or(frame, f));
    forall q: Path, j: nat | q in dir' && |q| < 3 && j < 512
      ensures Linked(mem', dir', q, j)
    {
      AddTableLinked(mem, root, dir, p, i, frame, f, q, j);
    }
    forall q: Path, j: nat | q in dir' && q != [] && j < 512
      ensures UserBelow(mem', dir', q, j)
    {
      AddTableUser(mem, root, dir, p, i, frame, f, q, j);
    }
    assert NoSharing(dir') by {
      assert forall q :: q in dir ==> dir[q] in dir.Values;
    }
  }

  /** No link gives user access. */
  ghost predicate KernelLinks(mem: Memory, dir: Dir) {
    forall p: Path, i: nat :: p in dir && |p| < 3 && i < 512 ==> KernelLink(EntryAt(mem, dir, p, i))
  }

  predicate KernelLink(e: nat) {
    Present(e) ==> !User(e)
  }

  lemma AddKernelTable(mem: Memory, root: nat, dir: Dir, p: Path, i: nat, frame: nat)
    requires Tree(mem, root, dir) && p in dir && i < 512 && Child(p, i) !in dir
    requires frame % 4096 == 0 && frame !in dir.Values && KernelLinks(mem, dir)
    ensures KernelLinks(SetEntry(mem[frame := ZeroFrame()], dir[p], i, Or(frame, 3)), dir[Child(p, i) := frame])
  {
    hide SetEntry, FrameAt, Or;
    AddressAndFlags(frame, 3);
    AddTableEntries(mem, dir, p, i, frame, Or(frame, 3));
  }

  lemma SetKernelLeaf(mem: Memory, root: nat, dir: Dir, p: Path, i: nat, e: nat)
    requires Tree(mem, root, dir) && p in dir && |p| == 3 && i < 512 && KernelLinks(mem, dir)
    ensures KernelLinks(SetEntry(mem, dir[p], i, e), dir)
  {
    var mem' := SetEntry(mem, dir[p], i, e);
    forall q: Path, j: nat | q in dir && |q| < 3 && j < 512
      ensures KernelLink(EntryAt(mem', dir, q, j))
    {
      assert EntryAt(mem', dir, q, j) == EntryAt(mem, dir, q, j);
    }
  }

  /** Making a link user-accessible below user links keeps the tree and every translation. */
  lemma UpgradeLink(mem: Memory, root: nat, dir: Dir, p: Path, i: nat)
    requires Tree(mem, root, dir) && |p| < 3 && i < 512 && UserUpTo(mem, dir, p) && Child(p, i) in dir
    ensures var mem' := SetEntry(mem, dir[p], i, Or(EntryAt(mem, dir, p, i), 4));
      && Tree(mem', root, dir)
      && (forall idx :: |idx| == 4 && InRange(idx) ==> LeafAt(mem', dir, idx) == LeafAt(mem, dir, idx))
  {
    var e := EntryAt(mem, dir, p, i);
    var mem' := SetEntry(mem, dir[p], i, Or(e, 4));
    SetUser(e);
    forall q, j: nat | q in dir && j < 512
      ensures EntryAt(mem', dir, q, j) == if q == p && j == i then Or(e, 4) else EntryAt(mem, dir, q, j)
    {
    }
    forall q: Path, j: nat | q in dir && |q| < 3 && j < 512
      ensures Linked(mem', dir, q, j)
    {
      assert Linked(mem, dir, q, j);
    }
    forall q: Path, j: nat | q in dir && q != [] && j < 512
      ensures UserBelow(mem', dir, q, j)
    {
      assert UserBelow(mem, dir, q, j);
    }
  }

  /** Setting a last-level entry keeps the tree and changes that leaf only. */
  lemma SetLeaf(mem: Memory, root: nat, dir: Dir, p: Path, i: nat, e: nat)
    requires Tree(mem, root, dir) && p in dir && |p| == 3 && i < 512
    requires User(e) ==> UserUpTo(mem, dir, p)
    ensures var mem' := SetEntry(mem, dir[p], i, e);
      && Tree(mem', root, dir)
      && (forall idx :: |idx| == 4 && InRange(idx) ==>
            LeafAt(mem', dir, idx) == if idx == Child(p, i) then e else LeafAt(mem, dir, idx))
  {
    var mem' := SetEntry(mem, dir[p], i, e);
    forall q, j: nat | q in dir && j < 512
      ensures EntryAt(mem', dir, q, j) == if q == p && j == i then e else EntryAt(mem, dir, q, j)
    {
    }
    forall q: Path, j: nat | q in dir && |q| < 3 && j < 512
      ensures Linked(mem', dir, q, j)
    {
      assert Linked(mem, dir, q, j);
    }
    forall q: Path, j: nat | q in dir && q != [] && j < 512
      ensures UserBelow(mem', dir, q, j)
    {
      assert UserBelow(mem, dir, q, j);
      assert |Parent(q)| < 3;
    }
    forall idx | |idx| == 4 && InRange(idx)
      ensures LeafAt(mem', dir, idx) == if idx == Child(p, i) then e else LeafAt(mem, dir, idx)
    {
      assert idx == Child(idx[..3], idx[3]);
    }
  }
}
