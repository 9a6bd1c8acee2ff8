/**
 * What a write of a file does to an SFS volume, as the sequence of its sector writes, and what a
 * mount makes of the disk after any prefix of that sequence.
 */
module SfsVolume {
  import opened Bytes
  import opened Words
  import opened BlockDevice
  import opened SfsLayout

  // ---- Invariants ----

  predicate Geometry(sb: Super) {
    && sb.magic == MAGIC && sb.version == VERSION
    && sb.tableLba == 1 && sb.tableSectors == 8 && sb.dataLba == 9
    && 9 <= sb.nextFree <= LBA28_LIMIT
  }

  predicate ValidName(n: seq<byte>) {
    0 < |n| < 32 && 0 !in n
  }

  /** A used entry has a terminated non-empty name and an extent below `nextFree`. */
  predicate EntryOk(e: Entry, nextFree: nat) {
    e.used != 0 ==>
      && 0 in e.name && CStr(e.name) != []
      && 9 <= e.start && e.start + Allocated(e.size) <= nextFree
  }

  predicate Apart(a: Entry, b: Entry) {
    a.used != 0 && b.used != 0 ==>
      && CStr(a.name) != CStr(b.name)
      && (a.start + Allocated(a.size) <= b.start || b.start + Allocated(b.size) <= a.start)
  }

  /** Every used entry is in order; two of them share neither a name nor a sector. */
  predicate TableOk(t: Table, nextFree: nat) {
    && (forall i :: 0 <= i < 64 ==> EntryOk(t[i], nextFree))
    && (forall i, j :: 0 <= i < j < 64 ==> Apart(t[i], t[j]))
  }

  predicate VolumeOk(sb: Super, t: Table) {
    Geometry(sb) && TableOk(t, sb.nextFree)
  }

  /** The disk holds exactly this superblock and this table. */
  ghost predicate OnDisk(d: Blocks, sb: Super, t: Table) {
    && At(d, 0) == SuperSector(sb)
    && (forall lba :: 1 <= lba < 9 ==> At(d, lba) == TableSector(t, lba - 1))
  }

  // ---- Mounting ----

  /** The superblock and the table a mount of `d` reads. */
  function MountedSuper(d: Blocks): Super {
    DecSuper(At(d, 0))
  }

  function MountedTable(d: Blocks): Table {
    seq<Entry>(64, (i: nat) => EntryAt(d, 1, i))
  }

  function MountedView(d: Blocks): map<seq<byte>, seq<byte>> {
    View(d, MountedTable(d))
  }

  lemma MountedEntries(d: Blocks, t: Table)
    requires forall i: nat :: i < 64 ==> EntryAt(d, 1, i) == t[i]
    ensures MountedTable(d) == t
  {
  }

  /** Store then load is the identity on the superblock and on all 64 entries. */
  lemma StoreLoadRoundTrip(d: Blocks, sb: Super, t: Table)
    requires OnDisk(d, sb, t)
    ensures MountedSuper(d) == sb && MountedTable(d) == t
  {
    hide TableSector, EntryAt, SuperSector, DecSuper;
    SuperRoundTrip(sb);
    forall i: nat | i < 64
      ensures EntryAt(d, 1, i) == t[i]
    {
      EntryInSector(d, 1, t, i);
    }
    MountedEntries(d, t);
  }

  // ---- The volume byte by byte ----

  /** The 45 bytes of slot `i`: eleven to a sector, from sector 1 on. */
  function SlotBytes(d: Blocks, i: nat): (c: seq<byte>)
    ensures |c| == 45
  {
    At(d, 1 + i / 11)[45 * (i % 11)..45 * (i % 11) + 45]
  }

  /** A slot in use whose name field holds `n`, up to a NUL or to its end. */
  predicate SlotNamed(c: seq<byte>, n: seq<byte>)
    requires |c| == 45
  {
    c[0] != 0 && |n| <= 32 && 0 !in n && c[1..1 + |n|] == n && (|n| < 32 ==> c[1 + |n|] == 0)
  }

  /** What is stored: every slot at its place with its fields, and the superblock with its magic first. */
  lemma StoredBytes(d: Blocks, sb: Super, t: Table)
    requires OnDisk(d, sb, t)
    ensures SuperBytes(At(d, 0), sb)
    ensures sb.magic == MAGIC ==> At(d, 0)[..4] == [0x53, 0x53, 0x46, 0x31]
    ensures forall i: nat :: i < 64 ==> EntryBytes(SlotBytes(d, i), t[i])
  {
    hide TableSector, EntryAt, SuperSector, DecSuper, EntryBytes, SuperBytes, Le;
    StoreLoadRoundTrip(d, sb, t);
    ReadSuperBytes(At(d, 0));
    MagicBytes(At(d, 0), sb);
    forall i: nat | i < 64
      ensures EntryBytes(SlotBytes(d, i), t[i])
    {
      SlotIsEntry(d, i);
      assert MountedTable(d)[i] == t[i];
    }
  }

  lemma SlotIsEntry(d: Blocks, i: nat)
    requires i < 64
    ensures MountedTable(d)[i] == EntryAt(d, 1, i) && EntryBytes(SlotBytes(d, i), EntryAt(d, 1, i))
  {
    hide EntryBytes, DecEntry;
    ReadEntryBytes(SlotBytes(d, i));
    assert SlotBytes(d, i) == Cell(At(d, 1 + i / 11), i % 11);
  }

  lemma MagicBytes(b: Sector, sb: Super)
    requires SuperBytes(b, sb)
    ensures sb.magic == MAGIC ==> b[..4] == [0x53, 0x53, 0x46, 0x31]
  {
    hide Le;
    Le4(b, 0);
    if sb.magic == MAGIC {
      DigitsAgree(b[0], b[1], b[2], b[3], 0x53, 0x53, 0x46, 0x31);
    }
  }

  lemma NamedIsHeld(c: seq<byte>, e: Entry, n: seq<byte>)
    requires EntryBytes(c, e)
    ensures SlotNamed(c, n) <==> Holds(e, n)
  {
    hide Le, CStr;
    var t := CStr(e.name);
    if SlotNamed(c, n) {
      assert c[1..1 + |n|] == e.name[..|n|];
      if |n| < 32 {
        CStrIs(e.name, |n|);
      } else {
        assert e.name[..|n|] == e.name;
        WholeText(e.name);
      }
    }
    if Holds(e, n) {
      assert c[1..1 + |t|] == e.name[..|t|];
    }
  }

  lemma WholeText(s: seq<byte>)
    requires 0 !in s
    ensures CStr(s) == s
  {
    hide CStr;
    assert forall i :: 0 <= i < |s| ==> s[i] != 0;
  }

  /**
   * What a mount shows, read off the disk: the first slot with a name says where the file starts and
   * how long it is, and its bytes follow there, 512 to a sector; a name without a slot is not shown.
   */
  lemma MountedFile(d: Blocks, n: seq<byte>, i: nat)
    requires FirstSlot(d, n, i)
    ensures n in MountedView(d) <==> i < 64
    ensures n in MountedView(d) ==> FileIs(d, SlotBytes(d, i), MountedView(d)[n])
  {
    hide EntryAt, Le, Readable, Holds, SlotNamed, Stored, EntryBytes, SlotBytes, FileIs, MountedTable, Find;
    var t := MountedTable(d);
    forall k: nat | k < 64
      ensures EntryBytes(SlotBytes(d, k), t[k]) && (SlotNamed(SlotBytes(d, k), n) <==> Holds(t[k], n))
    {
      SlotIsEntry(d, k);
      NamedIsHeld(SlotBytes(d, k), t[k], n);
    }
    assert Find(t, n) == i;
    NameFound(t, n);
    if i < 64 {
      StoredIs(d, SlotBytes(d, i), t[i]);
    }
  }

  /** Slot `i` is the first with the name, or there is none and `i` is 64. */
  predicate FirstSlot(d: Blocks, n: seq<byte>, i: nat) {
    && i <= 64 && (forall k: nat :: k < i ==> !SlotNamed(SlotBytes(d, k), n))
    && (i < 64 ==> SlotNamed(SlotBytes(d, i), n))
  }

  /** The file that a slot's bytes describe. */
  predicate FileIs(d: Blocks, c: seq<byte>, file: seq<byte>)
    requires |c| == 45
  {
    var start, size := Le(c[33..37]), Le(c[37..41]);
    && size < 0x1_0000_0000 && |file| == Readable(size)
    && forall k :: 0 <= k < |file| ==> file[k] == At(d, start + k / 512)[k % 512]
  }

  lemma StoredIs(d: Blocks, c: seq<byte>, e: Entry)
    requires EntryBytes(c, e)
    ensures FileIs(d, c, Stored(d, e))
  {
    hide Le, Readable;
  }

  // ---- The writes of one `simplefs_write_file` ----

  /** What `str_copy` leaves in a name field: the name, a NUL, and what was beyond it. */
  function CopyName(was: NameField, n: seq<byte>): (r: NameField)
    requires ValidName(n)
    ensures CStr(r) == n && 0 in r
  {
    CStrTerminated(n, was[|n| + 1..]);
    assert (n + [0] + was[|n| + 1..])[|n|] == 0;
    n + [0] + was[|n| + 1..]
  }

  /** The sector writes that store a table. */
  function TableWritesOf(t: Table): seq<Write> {
    seq<Write>(8, (s: nat) => Write(1 + s, TableSector(t, s)))
  }

  lemma TableStored(d: Blocks, t: Table)
    ensures forall lba :: 1 <= lba < 9 ==> At(Apply(d, TableWritesOf(t)[..8]), lba) == TableSector(t, lba - 1)
    ensures At(Apply(d, TableWritesOf(t)[..8]), 0) == At(d, 0)
  {
    hide TableSector;
    var ws := TableWritesOf(t);
    assert ws[..8] == ws;
    forall lba | 1 <= lba < 9
      ensures At(Apply(d, ws), lba) == TableSector(t, lba - 1)
    {
      assert ws[lba - 1].lba == lba;
      ApplyHit(d, ws, lba - 1);
    }
    ApplyFrame(d, ws, 0);
  }

  type FileData = s: seq<byte> | |s| < 0x1_0000_0000

  /** A write of `data` under `name`, on a volume whose superblock and table are in memory. */
  datatype Job = Job(sb: Super, t: Table, name: seq<byte>, data: FileData) {
    /** The name is usable and a slot is left for it. */
    predicate Accepted() {
      ValidName(name) && Slot(t, name) < 64
    }

    /** ... and the data fits below the last LBA the drive can address. */
    predicate Fits() {
      Accepted() && sb.nextFree + Count() <= LBA28_LIMIT
    }

    /** The first `k` writes of the plan can reach the disk: none of them is past the last LBA. */
    predicate Reaches(k: nat) {
      Accepted() && k <= Count() + 9 && (Fits() || sb.nextFree + k <= LBA28_LIMIT)
    }

    function Start(): nat { sb.nextFree }

    function Count(): (c: nat)
      ensures c >= 1
    {
      Allocated(|data|)
    }

    function NewEntry(): Entry
      requires Accepted()
    {
      var was := t[Slot(t, name)];
      Entry(1, CopyName(was.name, name), sb.nextFree, |data|, was.rsvd)
    }

    function NewTable(): Table
      requires Accepted()
    {
      t[Slot(t, name) := NewEntry()]
    }

    function NewSuper(): Super {
      sb.(nextFree := U32(sb.nextFree + Count()))
    }

    function DataWrites(): seq<Write> {
      seq<Write>(Count(), (s: nat) => Write(sb.nextFree + s, DataSector(data, s)))
    }

    function TableWrites(): seq<Write>
      requires Accepted()
    {
      TableWritesOf(NewTable())
    }

    /** All its sector writes, in order: data, table, superblock. */
    function Plan(): (ws: seq<Write>)
      requires Accepted()
      ensures |ws| == Count() + 9
    {
      DataWrites() + TableWrites() + [Write(0, SuperSector(NewSuper()))]
    }

    function WriteAt(i: nat): Write
      requires Accepted() && i < Count() + 9
    {
      if i < Count() then Write(sb.nextFree + i, DataSector(data, i))
      else if i < Count() + 8 then Write(1 + (i - Count()), TableSector(NewTable(), i - Count()))
      else Write(0, SuperSector(NewSuper()))
    }

    lemma PlanAt(i: nat)
      requires Accepted() && i < |Plan()|
      ensures Plan()[i] == WriteAt(i)
    {
    }

    /** The three stages of the plan, each up to any number of its writes. */
    lemma PlanStages(i: nat)
      requires Accepted()
      ensures i <= Count() ==> Plan()[..i] == DataWrites()[..i]
      ensures i <= 8 ==> Plan()[..Count() + i] == DataWrites() + TableWrites()[..i]
      ensures Plan() == Plan()[..Count() + 8] + [Write(0, SuperSector(NewSuper()))]
    {
      hide DataSector, TableSector, SuperSector;
    }

    /** The disk once the first `k` writes have reached it. */
    function Cut(d: Blocks, k: nat): Blocks
      requires Accepted() && k <= |Plan()|
    {
      Apply(d, Plan()[..k])
    }

    /** Sector `lba` of that disk, said outright. */
    function SectorAfter(d: Blocks, k: nat, lba: nat): Sector
      requires Accepted()
    {
      if Start() <= lba < Start() + Count() && lba < Start() + k then DataSector(data, lba - Start())
      else if 1 <= lba < 9 && Count() + lba <= k then TableSector(NewTable(), lba - 1)
      else if lba == 0 && k == Count() + 9 then SuperSector(NewSuper())
      else At(d, lba)
    }

    lemma NextSector(d: Blocks, k: nat, lba: nat)
      requires Accepted() && 9 <= Start() && k < Count() + 9
      ensures SectorAfter(d, k + 1, lba) ==
        if lba == WriteAt(k).lba then WriteAt(k).data else SectorAfter(d, k, lba)
    {
      hide TableSector, DataSector, SuperSector;
    }

    lemma {:induction false} CutSectors(d: Blocks, k: nat)
      requires Accepted() && 9 <= Start() && k <= |Plan()|
      ensures forall lba: nat :: At(Cut(d, k), lba) == SectorAfter(d, k, lba)
    {
      hide TableSector, DataSector, SuperSector;
      if k > 0 {
        CutSectors(d, k - 1);
        ApplyNext(d, Plan(), k - 1);
        PlanAt(k - 1);
        forall lba: nat
          ensures At(Cut(d, k), lba) == SectorAfter(d, k, lba)
        {
          assert At(Cut(d, k - 1), lba) == SectorAfter(d, k - 1, lba);
          NextSector(d, k - 1, lba);
        }
      }
    }

    /** Number of writes before the one that switches the directory: the table sector of the slot. */
    function SwitchPoint(): (p: nat)
      requires Accepted()
      ensures Count() <= p <= Count() + 5
    {
      Count() + Slot(t, name) / 11
    }

    /** The table a mount finds after `k` writes. */
    function TableAfter(k: nat): Table
      requires Accepted()
    {
      if k <= SwitchPoint() then t else NewTable()
    }

    function SuperAfter(k: nat): Super {
      if k == Count() + 9 then NewSuper() else sb
    }

    /** What reads will deliver of the data: all of it, or nothing when the sector count wrapped. */
    function Delivered(): seq<byte> {
      data[..Readable(|data|)]
    }
  }

  lemma DeliveredIff(j: Job)
    ensures j.Delivered() == j.data <==> |j.data| <= MAX_LEN
  {
    SectorsCover(|j.data|);
  }

  // ---- What a change of the table does to the map ----

  ghost predicate SameBelow(d: Blocks, d': Blocks, nextFree: nat) {
    forall lba :: 9 <= lba < nextFree ==> At(d', lba) == At(d, lba)
  }

  ghost predicate DataIn(d: Blocks, start: nat, data: FileData) {
    forall lba :: start <= lba < start + Allocated(|data|) ==> At(d, lba) == DataSector(data, lba - start)
  }

  /** Extents below `nextFree` fix the contents of every file. */
  lemma FrameView(d: Blocks, d': Blocks, t: Table, nextFree: nat)
    requires TableOk(t, nextFree) && SameBelow(d, d', nextFree)
    ensures View(d', t) == View(d, t)
  {
    forall n | n in Names(t)
      ensures Lookup(d', t, n) == Lookup(d, t, n)
    {
      NameFound(t, n);
      FrameStored(d, d', t[Find(t, n)], nextFree);
    }
  }

  lemma FrameStored(d: Blocks, d': Blocks, e: Entry, nextFree: nat)
    requires e.used != 0 && EntryOk(e, nextFree) && SameBelow(d, d', nextFree)
    ensures Stored(d', e) == Stored(d, e)
  {
    forall i | 0 <= i < Readable(e.size)
      ensures DiskByte(d', e.start, i) == DiskByte(d, e.start, i)
    {
      assert i / 512 < SectorsFor(e.size);
    }
  }

  lemma StoredNew(d: Blocks, e: Entry, data: FileData)
    requires e.size == |data| && DataIn(d, e.start, data)
    ensures Stored(d, e) == data[..Readable(|data|)]
  {
    forall i | 0 <= i < Readable(|data|)
      ensures DiskByte(d, e.start, i) == data[i]
    {
      assert i / 512 < SectorsFor(|data|) && 512 * (i / 512) + i % 512 == i;
      assert At(d, e.start + i / 512)[i % 512] == DataByte(data, i / 512, i % 512);
    }
  }

  /** In a table in order, only the slot of a name can hold it. */
  lemma OnlySlotHolds(t: Table, nextFree: nat, n: seq<byte>, i: nat)
    requires TableOk(t, nextFree) && i < 64 && i != Slot(t, n)
    ensures !Holds(t[i], n)
  {
    var f := Find(t, n);
    if f < 64 {
      assert Apart(t[i], t[f]) || Apart(t[f], t[i]);
    }
  }

  /** The new entry has its name to itself; every other name keeps its entry. */
  lemma NewTableFinds(j: Job, nextFree: nat, m: seq<byte>)
    requires TableOk(j.t, nextFree) && j.Accepted()
    ensures m == j.name ==> Find(j.NewTable(), m) == Slot(j.t, m)
    ensures m != j.name ==> Find(j.NewTable(), m) == Find(j.t, m)
    ensures m != j.name && Find(j.t, m) < 64 ==> j.NewTable()[Find(j.t, m)] == j.t[Find(j.t, m)]
  {
    var idx, t' := Slot(j.t, j.name), j.NewTable();
    assert Holds(t'[idx], j.name);
    forall i: nat | i < 64 && i != idx
      ensures !Holds(t'[i], j.name)
    {
      OnlySlotHolds(j.t, nextFree, j.name, i);
    }
    if m != j.name {
      assert forall i :: 0 <= i < 64 && i != idx ==> Holds(t'[i], m) == Holds(j.t[i], m);
      assert !Holds(t'[idx], m);
      assert !Holds(j.t[idx], m);
    }
  }

  lemma NewTableNames(j: Job)
    requires TableOk(j.t, j.sb.nextFree) && j.Accepted()
    ensures Names(j.NewTable()) == Names(j.t) + {j.name}
  {
    forall m
      ensures m in Names(j.NewTable()) <==> m in Names(j.t) + {j.name}
    {
      NewTableFinds(j, j.sb.nextFree, m);
      NameFound(j.t, m);
      NameFound(j.NewTable(), m);
    }
  }

  lemma NewTableOk(j: Job)
    requires VolumeOk(j.sb, j.t) && j.Fits()
    ensures VolumeOk(j.NewSuper(), j.NewTable())
  {
    var idx, t' := Slot(j.t, j.name), j.NewTable();
    assert forall i :: 0 <= i < 64 ==> EntryOk(j.t[i], j.sb.nextFree);
    forall i, k | 0 <= i < k < 64
      ensures Apart(t'[i], t'[k])
    {
      assert Apart(j.t[i], j.t[k]);
      if i == idx {
        OnlySlotHolds(j.t, j.sb.nextFree, j.name, k);
      } else if k == idx {
        OnlySlotHolds(j.t, j.sb.nextFree, j.name, i);
      }
    }
  }

  lemma SwitchLookup(d: Blocks, d': Blocks, j: Job, m: seq<byte>)
    requires VolumeOk(j.sb, j.t) && j.Fits()
    requires SameBelow(d, d', j.Start()) && DataIn(d', j.Start(), j.data)
    requires m in Names(j.t) || m == j.name
    ensures Lookup(d', j.NewTable(), m) == if m == j.name then j.Delivered() else Lookup(d, j.t, m)
  {
    hide Stored;
    NewTableFinds(j, j.sb.nextFree, m);
    if m == j.name {
      StoredNew(d', j.NewEntry(), j.data);
    } else {
      NameFound(j.t, m);
      FrameStored(d, d', j.t[Find(j.t, m)], j.Start());
    }
  }

  /** With the data in fresh sectors, switching the table to the new entry updates one name. */
  lemma SwitchView(d: Blocks, d': Blocks, j: Job)
    requires VolumeOk(j.sb, j.t) && j.Fits()
    requires SameBelow(d, d', j.Start()) && DataIn(d', j.Start(), j.data)
    ensures View(d', j.NewTable()) == View(d, j.t)[j.name := j.Delivered()]
  {
    hide Lookup, TableOk, Names;
    NewTableNames(j);
    forall m | m in Names(j.t) || m == j.name
      ensures Lookup(d', j.NewTable(), m) == if m == j.name then j.Delivered() else Lookup(d, j.t, m)
    {
      SwitchLookup(d, d', j, m);
    }
  }

  // ---- Crashes ----

  /** Cut after `k` sector writes, the disk holds the old table or the new one, whole. */
  lemma CutTable(d: Blocks, j: Job, k: nat)
    requires VolumeOk(j.sb, j.t) && OnDisk(d, j.sb, j.t) && j.Accepted() && k <= |j.Plan()|
    ensures MountedTable(j.Cut(d, k)) == j.TableAfter(k)
    ensures MountedSuper(j.Cut(d, k)) == j.SuperAfter(k)
  {
    hide TableSector, DataSector, SuperSector, EncEntry, DecEntry, DecSuper, TableOk;
    var d' := j.Cut(d, k);
    j.CutSectors(d, k);
    SuperRoundTrip(j.SuperAfter(k));
    assert At(d', 0) == SuperSector(j.SuperAfter(k));
    forall i: nat | i < 64
      ensures EntryAt(d', 1, i) == j.TableAfter(k)[i]
    {
      CutEntry(d, d', j, k, i);
    }
    MountedEntries(d', j.TableAfter(k));
  }

  lemma CutEntry(d: Blocks, d': Blocks, j: Job, k: nat, i: nat)
    requires OnDisk(d, j.sb, j.t) && j.Accepted() && 9 <= j.Start() && i < 64
    requires At(d', 1 + i / 11) == j.SectorAfter(d, k, 1 + i / 11)
    ensures EntryAt(d', 1, i) == j.TableAfter(k)[i]
  {
    hide TableSector, DataSector, SuperSector, EncEntry, DecEntry;
    var lba := 1 + i / 11;
    if j.Count() + lba <= k {
      EntryInSector(d', 1, j.NewTable(), i);
    } else {
      assert At(d, lba) == TableSector(j.t, i / 11);
      EntryInSector(d', 1, j.t, i);
    }
  }

  lemma CutData(d: Blocks, j: Job, k: nat)
    requires j.Accepted() && 9 <= j.Start() && k <= |j.Plan()|
    ensures SameBelow(d, j.Cut(d, k), j.Start())
    ensures j.Count() <= k ==> DataIn(j.Cut(d, k), j.Start(), j.data)
  {
    hide TableSector, DataSector, SuperSector, Slot;
    j.CutSectors(d, k);
    var d' := j.Cut(d, k);
    assert forall lba: nat :: At(d', lba) == j.SectorAfter(d, k, lba);
    forall lba | 9 <= lba < j.Start()
      ensures At(d', lba) == At(d, lba)
    {
      assert At(d', lba) == j.SectorAfter(d, k, lba);
    }
  }

  /**
   * Crash atomicity: whatever prefix of its sector writes reached the disk, a remount gives the
   * map from before the write or the map after it, and the one table write at the switch point
   * decides which.
   */
  lemma CrashOldOrNew(d: Blocks, j: Job, k: nat)
    requires VolumeOk(j.sb, j.t) && OnDisk(d, j.sb, j.t) && j.Reaches(k)
    ensures MountedView(j.Cut(d, k)) ==
      if k <= j.SwitchPoint() then View(d, j.t) else View(d, j.t)[j.name := j.Delivered()]
  {
    CutTable(d, j, k);
    CutData(d, j, k);
    if k <= j.SwitchPoint() {
      FrameView(d, j.Cut(d, k), j.t, j.Start());
    } else {
      SwitchView(d, j.Cut(d, k), j);
    }
  }

  /**
   * After the crash the remounted volume is fit for further writes exactly when the cut was not
   * between the switch and the last write: there the new file lies above a stale `nextFree`.
   */
  lemma CrashLeavesVolumeOkIff(d: Blocks, j: Job, k: nat)
    requires VolumeOk(j.sb, j.t) && OnDisk(d, j.sb, j.t) && j.Reaches(k)
    ensures VolumeOk(MountedSuper(j.Cut(d, k)), MountedTable(j.Cut(d, k))) <==>
      k <= j.SwitchPoint() || k == |j.Plan()|
  {
    CutTable(d, j, k);
    if k == |j.Plan()| {
      NewTableOk(j);
    } else if k > j.SwitchPoint() {
      assert !EntryOk(j.NewTable()[Slot(j.t, j.name)], j.sb.nextFree);
    }
  }

  /** A finished write leaves a volume in order, stored whole, with one name updated. */
  lemma FinishedWrite(d: Blocks, j: Job)
    requires VolumeOk(j.sb, j.t) && j.Fits()
    ensures VolumeOk(j.NewSuper(), j.NewTable())
    ensures OnDisk(Apply(d, j.Plan()), j.NewSuper(), j.NewTable())
    ensures View(Apply(d, j.Plan()), j.NewTable()) == View(d, j.t)[j.name := j.Delivered()]
  {
    assert j.Plan()[..|j.Plan()|] == j.Plan();
    j.CutSectors(d, |j.Plan()|);
    NewTableOk(j);
    CutData(d, j, |j.Plan()|);
    SwitchView(d, Apply(d, j.Plan()), j);
  }

  /** What reads through the table in memory see while the write is under way, and after it fails. */
  lemma CutKeepsFiles(d: Blocks, j: Job, k: nat)
    requires VolumeOk(j.sb, j.t) && j.Accepted() && k <= |j.Plan()|
    ensures k < j.Count() ==> View(j.Cut(d, k), j.t) == View(d, j.t)
    ensures k >= j.Count() && j.Fits() ==>
      && View(j.Cut(d, k), j.NewTable()) == View(d, j.t)[j.name := j.Delivered()]
      && VolumeOk(j.NewSuper(), j.NewTable())
  {
    CutData(d, j, k);
    if k < j.Count() {
      FrameView(d, j.Cut(d, k), j.t, j.Start());
    } else if j.Fits() {
      SwitchView(d, j.Cut(d, k), j);
      NewTableOk(j);
    }
  }

  /**
   * What the stale `nextFree` costs: after such a cut, the next finished write, of any other name,
   * overwrites the file that the remount still showed as new.
   */
  lemma StaleSuperblockClobbers(d: Blocks, j: Job, k: nat, next: Job)
    requires VolumeOk(j.sb, j.t) && OnDisk(d, j.sb, j.t) && j.Fits()
    requires j.SwitchPoint() < k < |j.Plan()|
    requires next.sb == MountedSuper(j.Cut(d, k)) && next.t == MountedTable(j.Cut(d, k))
    requires next.Fits() && next.name != j.name
    ensures var seen := MountedView(next.Cut(j.Cut(d, k), |next.Plan()|));
      && j.name in seen
      && |seen[j.name]| == |j.Delivered()|
      && forall i :: 0 <= i < |seen[j.name]| && i < 512 ==> seen[j.name][i] == DataByte(next.data, 0, i)
  {
    CutTable(d, j, k);
    NewTableOk(j);
    NewTableFinds(j, j.sb.nextFree, j.name);
    ClobberedEntry(j.Cut(d, k), next, j.NewSuper().nextFree, j.name);
  }

  /** A finished write over a table whose file `m` starts at the stale `nextFree`. */
  lemma ClobberedEntry(d: Blocks, next: Job, nextFree: nat, m: seq<byte>)
    requires next.Fits() && 9 <= next.Start() && TableOk(next.t, nextFree)
    requires m != next.name && Find(next.t, m) < 64 && next.t[Find(next.t, m)].start == next.Start()
    ensures var seen := MountedView(next.Cut(d, |next.Plan()|));
      && m in seen
      && |seen[m]| == Readable(next.t[Find(next.t, m)].size)
      && forall i :: 0 <= i < |seen[m]| && i < 512 ==> seen[m][i] == DataByte(next.data, 0, i)
  {
    hide TableOk, DecEntry, EncEntry, TableSector, CopyName, Stored;
    var d', e := next.Cut(d, |next.Plan()|), next.t[Find(next.t, m)];
    FullTable(d, next);
    NewTableFinds(next, nextFree, m);
    NameFound(next.NewTable(), m);
    CutData(d, next, |next.Plan()|);
    FirstSectorOf(d', e, next.data);
    assert MountedView(d')[m] == Stored(d', e);
  }

  lemma FirstSectorOf(d: Blocks, e: Entry, data: FileData)
    requires DataIn(d, e.start, data)
    ensures forall i :: 0 <= i < Readable(e.size) && i < 512 ==> Stored(d, e)[i] == DataByte(data, 0, i)
  {
    assert At(d, e.start) == DataSector(data, 0);
    forall i | 0 <= i < Readable(e.size) && i < 512
      ensures Stored(d, e)[i] == DataByte(data, 0, i)
    {
      assert e.start + i / 512 == e.start && i % 512 == i;
    }
  }

  lemma FullTable(d: Blocks, j: Job)
    requires j.Accepted() && 9 <= j.Start()
    ensures MountedTable(j.Cut(d, |j.Plan()|)) == j.NewTable()
  {
    hide TableSector, DataSector, SuperSector, EncEntry, DecEntry;
    var d' := j.Cut(d, |j.Plan()|);
    j.CutSectors(d, |j.Plan()|);
    forall i: nat | i < 64
      ensures EntryAt(d', 1, i) == j.NewTable()[i]
    {
      assert At(d', 1 + i / 11) == TableSector(j.NewTable(), i / 11);
      EntryInSector(d', 1, j.NewTable(), i);
    }
    MountedEntries(d', j.NewTable());
  }

  /** Writing a name again over its own new entry is writing it over the old table. */
  lemma SameNameAgain(j: Job, next: Job)
    requires TableOk(j.t, j.sb.nextFree) && j.Accepted() && next.Accepted()
    requires next.sb == j.sb && next.t == j.NewTable() && next.name == j.name
    ensures next.NewTable() == Job(j.sb, j.t, j.name, next.data).NewTable()
  {
    NewTableFinds(j, j.sb.nextFree, j.name);
    var was := j.t[Slot(j.t, j.name)];
    assert CopyName(CopyName(was.name, j.name), j.name) == CopyName(was.name, j.name);
  }

  /** Two files that start at the same sector are not apart. */
  lemma SameStartNotOk(t: Table, nextFree: nat, a: nat, b: nat)
    requires a < 64 && b < 64 && a != b && t[a].used != 0 && t[b].used != 0 && t[a].start == t[b].start
    ensures !TableOk(t, nextFree)
  {
    var i, k := if a < b then a else b, if a < b then b else a;
    assert !Apart(t[i], t[k]);
  }

  /**
   * When the stale `nextFree` is repaired: after such a cut, the next finished write leaves the volume
   * in order if and only if it is of the same name; the map is then as if that write alone had been made.
   */
  lemma StaleRepairedIff(d: Blocks, j: Job, k: nat, next: Job)
    requires VolumeOk(j.sb, j.t) && OnDisk(d, j.sb, j.t) && j.Fits()
    requires j.SwitchPoint() < k < |j.Plan()|
    requires next.sb == MountedSuper(j.Cut(d, k)) && next.t == MountedTable(j.Cut(d, k)) && next.Fits()
    ensures var r := next.Cut(j.Cut(d, k), |next.Plan()|);
      && (VolumeOk(MountedSuper(r), MountedTable(r)) <==> next.name == j.name)
      && (next.name == j.name ==> MountedView(r) == View(d, j.t)[j.name := next.Delivered()])
  {
    hide TableOk, TableSector, DataSector, SuperSector, EncEntry, DecEntry, DecSuper, OnDisk, View, Slot, Find, CopyName;
    var d' := j.Cut(d, k);
    var r := next.Cut(d', |next.Plan()|);
    CutTable(d, j, k);
    NewTableOk(j);
    if next.name == j.name {
      var again := Job(j.sb, j.t, j.name, next.data);
      SameNameAgain(j, next);
      assert next.Plan() == again.Plan() && again.Fits();
      assert next.Plan()[..|next.Plan()|] == next.Plan();
      FinishedWrite(d', again);
      StoreLoadRoundTrip(r, again.NewSuper(), again.NewTable());
      CutData(d, j, k);
      FrameView(d, d', j.t, j.sb.nextFree);
    } else {
      FullTable(d', next);
      NewTableFinds(j, j.sb.nextFree, j.name);
      NewTableFinds(next, j.NewSuper().nextFree, j.name);
      NewTableFinds(next, j.NewSuper().nextFree, next.name);
      var a, b := Slot(j.t, j.name), Slot(next.t, next.name);
      SameStartNotOk(next.NewTable(), MountedSuper(r).nextFree, a, b);
    }
  }
}
