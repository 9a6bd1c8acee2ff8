/** The storage layer as it runs: `g_sb`, `g_table` and the sector loops over the drive. */
module SimpleFs {
  import opened Bytes
  import opened Words
  import opened BlockDevice
  import opened SfsLayout
  import opened SfsVolume
  import opened SfsRuns
  import FatDisk
  import FatLayout
  import Fat32

  datatype FsKind = NoFs | Sfs | Fat

  method MemZero(p: array<byte>)
    modifies p
    ensures p[..] == Zeros(p.Length)
  {
    for i := 0 to p.Length
      invariant p[..i] == Zeros(i)
    {
      p[i] := 0;
    }
  }

  /** `p[at..at + |b|]` becomes `b`. */
  method StoreBytes(p: array<byte>, at: nat, b: seq<byte>)
    requires at + |b| <= p.Length
    modifies p
    ensures p[..] == old(p[..at]) + b + old(p[at + |b|..])
  {
    for i := 0 to |b|
      invariant p[..] == old(p[..at]) + b[..i] + old(p[at + i..])
    {
      p[at + i] := b[i];
    }
  }

  const FreshSuper: Super := Super(MAGIC, VERSION, 1, 8, 9, 9, 0, 0)

  /** The test a mount makes of a superblock before it trusts it. */
  predicate Recognised(sb: Super) {
    sb.magic == MAGIC && sb.version == VERSION && 0 < sb.tableSectors <= 64
  }

  /** A volume is recognised by the first eight bytes of sector 0, magic and version, and its table size. */
  lemma RecognisedIff(b: Sector)
    ensures Recognised(DecSuper(b)) <==>
      b[..8] == [0x53, 0x53, 0x46, 0x31, 1, 0, 0, 0] && 0 < Le(b[12..16]) <= 64
  {
    hide Le;
    Le4(b, 12);
    if Rd32(b, 0) == MAGIC {
      DigitsAgree(b[0], b[1], b[2], b[3], 0x53, 0x53, 0x46, 0x31);
    }
    if Rd32(b, 4) == VERSION {
      DigitsAgree(b[4], b[5], b[6], b[7], 1, 0, 0, 0);
    }
    var t := [0x53, 0x53, 0x46, 0x31, 1, 0, 0, 0];
    assert b[..8] == t <==> forall i :: 0 <= i < 8 ==> b[i] == t[i];
  }

  /** The table sectors that a mount reads, at most six, can all be addressed. */
  predicate TableAddressable(sb: Super) {
    sb.tableSectors == 0 || sb.tableLba + (if sb.tableSectors < 6 then sb.tableSectors else 6) <= LBA28_LIMIT
  }

  /** The read of one of those sectors is refused, with the drive's log before and after. */
  ghost predicate TableRefused(sb: Super, before: seq<nat>, after: seq<nat>) {
    exists s :: TableSectorRefused(sb, s, before, after)
  }

  predicate TableSectorRefused(sb: Super, s: nat, before: seq<nat>, after: seq<nat>) {
    s < 6 && s < sb.tableSectors && Refused(before, after, sb.tableLba + s)
  }

  /** A loaded table: the entries that its sectors hold, and what was in memory for the rest. */
  ghost predicate Loaded(d: Blocks, sb: Super, was: Table, t: Table) {
    forall i: nat :: i < 64 ==> t[i] == if i < 11 * sb.tableSectors then EntryAt(d, sb.tableLba, i) else was[i]
  }

  /** An SFS superblock is never taken for a FAT32 boot sector. */
  lemma SuperIsNotFat(sb: Super)
    ensures !FatLayout.IsBootSector(SuperSector(sb))
  {
    assert SuperSector(sb)[510] == 0;
  }

  /** A formatted volume is in order and holds no files. */
  lemma FreshVolumeOk(d: Blocks)
    ensures VolumeOk(FreshSuper, EmptyTable) && View(d, EmptyTable) == map[]
  {
    assert forall i :: 0 <= i < 64 ==> EmptyTable[i].used == 0;
    assert Names(EmptyTable) == {};
  }

  class Storage {
    const dev: Device
    const fat: Fat32.FatVolume
    const table: array<Entry>
    var sb: Super
    var kind: FsKind

    ghost predicate Valid()
      reads this, table, fat, fat.files
    {
      table.Length == 64 && fat.dev == dev && fat.Valid()
    }

    ghost function Tab(): Table
      requires Valid()
      reads this, table, fat, fat.files
    {
      table[..]
    }

    /** The name-to-contents map that reads see. */
    ghost function Files(): map<seq<byte>, seq<byte>>
      requires Valid()
      reads this, table, fat, fat.files, dev`blocks
    {
      View(dev.blocks, Tab())
    }

    constructor (dev: Device)
      ensures Valid() && this.dev == dev && kind == NoFs && fresh(table) && fresh(fat) && fresh(fat.files)
    {
      this.dev := dev;
      var v := new Fat32.FatVolume(dev);
      fat := v;
      table := new Entry[64](_ => EmptyEntry);
      sb := Super(0, 0, 0, 0, 0, 0, 0, 0);
      kind := NoFs;
    }

    // ---- Superblock and table ----

    method StoreSuperblock() returns (ok: bool)
      modifies dev`blocks
      ensures ok ==> dev.blocks == old(dev.blocks)[0 := SuperSector(sb)] && SuperBytes(At(dev.blocks, 0), sb)
      ensures !ok ==> dev.blocks == old(dev.blocks)
      ensures dev.reliable ==> ok
    {
      var sector := new byte[512](_ => 0);
      MemZero(sector);
      StoreBytes(sector, 0, EncSuper(sb));
      assert sector[..] == SuperSector(sb);
      SuperRoundTrip(sb);
      ReadSuperBytes(sector[..]);
      ok := dev.WriteSector(0, sector);
    }

    method LoadSuperblock() returns (ok: bool)
      modifies this`sb, dev`refusals
      ensures ok ==> sb == MountedSuper(dev.blocks) && dev.refusals == old(dev.refusals)
      ensures ok ==> SuperBytes(At(dev.blocks, 0), sb)
      ensures !ok ==> Refused(old(dev.refusals), dev.refusals, 0)
      ensures dev.reliable ==> ok
    {
      var sector := new byte[512](_ => 0);
      ok := dev.ReadSector(0, sector);
      if ok {
        sb := DecSuper(sector[..]);
        ReadSuperBytes(sector[..]);
      }
    }

    /** Packs the entries of table sector `s`, the first of which is `idx`. */
    method FillTableSector(sector: array<byte>, idx: nat, ghost s: nat) returns (idx': nat)
      requires Valid() && sector.Length == 512 && (sector as object) != table
      requires idx == if 11 * s < 64 then 11 * s else 64
      modifies sector
      ensures sector[..] == TableSector(Tab(), s)
      ensures forall k: nat :: k < 11 && 11 * s + k < 64 ==> EntryBytes(Cell(sector[..], k), Tab()[11 * s + k])
      ensures idx' == if 11 * (s + 1) < 64 then 11 * (s + 1) else 64
    {
      hide TableSector, EncEntry;
      MemZero(sector);
      idx' := idx;
      var off := 0;
      ghost var k := 0;
      ghost var want := TableSector(Tab(), s);
      while off + 45 <= 512
        invariant 0 <= k <= 11 && off == 45 * k
        invariant k > 0 ==> 11 * s + k <= 64
        invariant idx' == if 11 * s + k < 64 then 11 * s + k else 64
        invariant sector[..] == want[..off] + Zeros(512 - off)
      {
        if idx' >= 64 {
          break;
        }
        TableHead(Tab(), s, k);
        StoreBytes(sector, off, EncEntry(table[idx']));
        idx' := idx' + 1;
        off := off + 45;
        k := k + 1;
      }
      TableTail(Tab(), s, k);
      assert want == want[..45 * k] + want[45 * k..];
      SectorBytes(Tab(), s);
    }

    /** Writes the whole table; `n` of its sectors reach the disk. */
    method StoreTable() returns (ok: bool, ghost n: nat)
      requires Valid() && sb.tableLba == 1 && sb.tableSectors == 8
      modifies dev`blocks
      ensures n <= 8 && (ok <==> n == 8)
      ensures dev.blocks == Apply(old(dev.blocks), TableWritesOf(Tab())[..n])
      ensures dev.reliable ==> ok
    {
      hide TableSector;
      ghost var ws := TableWritesOf(Tab());
      var idx := 0;
      n := 0;
      for s := 0 to sb.tableSectors
        invariant n == s && idx == if 11 * s < 64 then 11 * s else 64
        invariant dev.blocks == Apply(old(dev.blocks), ws[..s])
        invariant Valid() && Tab() == old(Tab())
      {
        var sector := new byte[512](_ => 0);
        idx := FillTableSector(sector, idx, s);
        ok := dev.WriteSector(U32(sb.tableLba + s), sector);
        if !ok {
          return;
        }
        ApplyNext(old(dev.blocks), ws, s);
        n := n + 1;
      }
      ok := true;
    }

    /** Copies the entries of table sector `s` from `bytes`, up to the 64th. */
    method LoadTableSector(bytes: Sector, idx: nat, ghost s: nat) returns (idx': nat)
      requires Valid() && idx == if 11 * s < 64 then 11 * s else 64
      requires bytes == At(dev.blocks, sb.tableLba + s)
      modifies table
      ensures idx' == if 11 * (s + 1) < 64 then 11 * (s + 1) else 64
      ensures forall i: nat :: idx <= i < idx' ==> table[i] == EntryAt(dev.blocks, sb.tableLba, i)
      ensures forall i: nat :: idx <= i < idx' ==> EntryBytes(Cell(bytes, i % 11), table[i])
      ensures forall i: nat :: i < idx || idx' <= i < 64 ==> table[i] == old(table[i])
    {
      hide DecEntry, EntryBytes;
      idx' := idx;
      var off := 0;
      ghost var k := 0;
      while off + 45 <= 512
        invariant 0 <= k <= 11 && off == 45 * k
        invariant k > 0 ==> 11 * s + k <= 64
        invariant idx' == if 11 * s + k < 64 then 11 * s + k else 64
        invariant forall i: nat :: idx <= i < idx' ==> table[i] == EntryAt(dev.blocks, sb.tableLba, i)
        invariant forall i: nat :: idx <= i < idx' ==> EntryBytes(Cell(bytes, i % 11), table[i])
        invariant forall i: nat :: i < idx || idx' <= i < 64 ==> table[i] == old(table[i])
      {
        if idx' >= 64 {
          return;
        }
        assert idx' / 11 == s && idx' % 11 == k;
        table[idx'] := DecEntry(bytes[off..off + 45]);
        ReadEntryBytes(bytes[off..off + 45]);
        idx' := idx' + 1;
        off := off + 45;
        k := k + 1;
      }
    }

    method LoadTable() returns (ok: bool)
      requires Valid()
      modifies table, dev`refusals
      ensures ok ==> TableAddressable(sb) && Loaded(dev.blocks, sb, old(Tab()), Tab())
      ensures ok ==> forall i: nat :: i < 64 && i < 11 * sb.tableSectors ==>
        EntryBytes(Cell(At(dev.blocks, sb.tableLba + i / 11), i % 11), Tab()[i])
      ensures ok || dev.reliable ==> dev.refusals == old(dev.refusals)
      ensures !ok ==> TableRefused(sb, old(dev.refusals), dev.refusals)
    {
      hide EntryAt, EntryBytes;
      LoadedBytes(dev.blocks, sb.tableLba);
      var idx := 0;
      for s := 0 to sb.tableSectors
        invariant idx == if 11 * s < 64 then 11 * s else 64
        invariant idx < 64 && (s > 0 ==> sb.tableLba + s <= LBA28_LIMIT)
        invariant dev.refusals == old(dev.refusals)
        invariant forall i: nat :: i < idx ==> table[i] == EntryAt(dev.blocks, sb.tableLba, i)
        invariant forall i: nat :: idx <= i < 64 ==> table[i] == old(table[i])
      {
        var sector := new byte[512](_ => 0);
        ok := dev.ReadSector(U32(sb.tableLba + s), sector);
        if !ok {
          assert TableSectorRefused(sb, s, old(dev.refusals), dev.refusals);
          return;
        }
        idx := LoadTableSector(sector[..], idx, s);
        if idx >= 64 {
          return true;
        }
      }
      ok := true;
    }

    method Format() returns (ok: bool)
      requires Valid()
      modifies this`sb, table, dev`blocks
      ensures sb == FreshSuper && Tab() == EmptyTable
      ensures ok ==> OnDisk(dev.blocks, FreshSuper, EmptyTable)
      ensures dev.reliable ==> ok
    {
      for i := 0 to 64
        invariant forall k :: 0 <= k < i ==> table[k] == EmptyEntry
      {
        table[i] := EmptyEntry;
      }
      sb := FreshSuper;
      ok := StoreSuperblock();
      if !ok {
        return;
      }
      ghost var d := dev.blocks;
      ghost var n;
      ok, n := StoreTable();
      if ok {
        TableStored(d, EmptyTable);
      }
    }

    // ---- Mounting ----

    /**
     * `simplefs_init` once a drive is present. A disk that mounts as FAT32 is left alone, and so is
     * one that holds a volume. When the superblock was read (`got`), the disk is formatted exactly
     * when the superblock is not recognised or the read of a table sector was refused. `mid` is the
     * drive's log after the attempt to mount FAT32.
     */
    method Init() returns (ok: bool, ghost formatted: bool, ghost got: bool, ghost mid: seq<nat>)
      requires Valid()
      modifies this`sb, this`kind, table, fat`info, fat`count, fat.files, dev`blocks, dev`refusals
      ensures Valid() && kind != NoFs
      ensures dev.reliable ==> dev.refusals == mid == old(dev.refusals)
      ensures kind == Fat ==> ok && !formatted && dev.refusals == old(dev.refusals)
      ensures kind == Fat ==> FatLayout.Mountable(dev.blocks) && fat.info == FatLayout.InfoOf(At(dev.blocks, 0))
      ensures kind == Fat ==> FatLayout.ListsRoot(dev.blocks, fat.info, fat.Files())
      ensures kind == Sfs ==>
        exists cs, n, lba :: FatLayout.NotMounted(old(dev.blocks), cs, n, lba, old(dev.refusals), mid)
      ensures kind == Sfs && !got ==> !ok && !formatted && Refused(mid, dev.refusals, 0)
      ensures var there := MountedSuper(old(dev.blocks));
        kind == Sfs && got ==> (formatted <==> !Recognised(there) || TableRefused(there, mid, dev.refusals))
      ensures !formatted ==> dev.blocks == old(dev.blocks)
      ensures formatted ==> sb == FreshSuper && Tab() == EmptyTable && (ok ==> OnDisk(dev.blocks, sb, Tab()))
      ensures var d := dev.blocks;
        kind == Sfs && got && !formatted ==>
          && ok && dev.refusals == mid && TableAddressable(sb)
          && sb == MountedSuper(d) && Loaded(d, sb, old(Tab()), Tab())
      ensures dev.reliable ==> ok && (kind == Fat <==> FatLayout.Mountable(old(dev.blocks))) && (kind == Sfs ==> got)
      ensures Geometry(MountedSuper(old(dev.blocks))) && kind == Sfs && got && !formatted ==>
        Tab() == MountedTable(dev.blocks)
    {
      hide EntryAt, FatLayout.NotMounted, FatLayout.RootScan, FatLayout.ScanReadable, TableSectorRefused;
      ghost var d, cs, n, stuck := dev.blocks, [], 0, 0;
      formatted, got := false, false;
      ok, cs, n, stuck := fat.MountAndScanRoot();
      mid := dev.refusals;
      if ok {
        kind := Fat;
        return;
      }
      kind := Sfs;
      if dev.reliable {
        FatLayout.NotMountedIsUnmountable(d, cs, n, stuck, mid);
      }
      ok := LoadSuperblock();
      if !ok {
        return;
      }
      got := true;
      if !Recognised(sb) {
        formatted := true;
        ok := Format();
        return;
      }
      ok := LoadTable();
      if !ok {
        formatted := true;
        ok := Format();
      } else {
        AddressableIsRead(sb, mid);
        if Geometry(sb) {
          MountedEntries(d, Tab());
        }
      }
    }

    // ---- Files ----

    method FindName(name: seq<byte>) returns (found: bool, idx: nat)
      requires Valid()
      ensures idx == Find(Tab(), name) && (found <==> idx < 64)
    {
      idx := 0;
      while idx < 64
        invariant idx <= 64 && FindFrom(Tab(), name, idx) == Find(Tab(), name)
      {
        if table[idx].used != 0 && CStr(table[idx].name) == name {
          return true, idx;
        }
        idx := idx + 1;
      }
      found := false;
    }

    method AllocEntry() returns (found: bool, idx: nat)
      requires Valid()
      ensures idx == FreeFrom(Tab(), 0) && (found <==> idx < 64)
    {
      idx := 0;
      while idx < 64
        invariant idx <= 64 && FreeFrom(Tab(), idx) == FreeFrom(Tab(), 0)
      {
        if table[idx].used == 0 {
          return true, idx;
        }
        idx := idx + 1;
      }
      found := false;
    }

    /** Writes the data sectors; `k` of them reach the disk. */
    method WriteData(data: FileData, count: nat, ghost j: Job) returns (ok: bool, ghost k: nat)
      requires Valid() && j.Accepted() && j.sb == sb && j.data == data && count == j.Count()
      modifies dev`blocks
      ensures k <= count && (ok <==> k == count)
      ensures dev.blocks == Apply(old(dev.blocks), j.DataWrites()[..k])
      ensures ok ==> j.Fits()
      ensures k > 0 ==> j.sb.nextFree + k <= LBA28_LIMIT
      ensures dev.reliable && j.Fits() ==> ok
      ensures dev.reliable && !j.Fits() && j.sb.nextFree <= LBA28_LIMIT ==> k == LBA28_LIMIT - j.sb.nextFree
    {
      hide DataSector;
      var start := sb.nextFree;
      k := 0;
      for s := 0 to count
        invariant k == s && (s > 0 ==> start + s <= LBA28_LIMIT)
        invariant dev.blocks == Apply(old(dev.blocks), j.DataWrites()[..s])
      {
        var sector := new byte[512](_ => 0);
        FillDataSector(sector, data, s);
        ok := dev.WriteSector(U32(start + s), sector);
        if !ok {
          return;
        }
        ApplyNext(old(dev.blocks), j.DataWrites(), s);
        k := k + 1;
      }
      ok := true;
    }

    /** The slot a write of `name` uses. */
    method PickSlot(name: seq<byte>) returns (found: bool, idx: nat)
      requires Valid()
      ensures idx == Slot(Tab(), name) && (found <==> idx < 64)
    {
      found, idx := FindName(name);
      if !found {
        found, idx := AllocEntry();
      }
    }

    /** Stores table and superblock once the data is out; `n` of these nine writes reach the disk. */
    method Commit(ghost d: Blocks, ghost j: Job) returns (ok: bool, ghost n: nat)
      requires Valid() && j.Accepted() && Geometry(j.sb)
      requires Tab() == j.NewTable() && sb == j.NewSuper()
      requires dev.blocks == Apply(d, j.DataWrites())
      modifies dev`blocks
      ensures n <= 9 && (ok <==> n == 9)
      ensures dev.blocks == j.Cut(d, j.Count() + n)
      ensures dev.reliable ==> ok
    {
      hide TableSector, SuperSector, DataSector, Slot, Allocated, Apply;
      ok, n := StoreTable();
      j.PlanStages(n);
      ApplyConcat(d, j.DataWrites(), j.TableWrites()[..n]);
      if !ok {
        return;
      }
      ghost var last := [Write(0, SuperSector(sb))];
      ghost var d2 := dev.blocks;
      ok := StoreSuperblock();
      if !ok {
        return;
      }
      n := n + 1;
      assert j.Plan()[..|j.Plan()|] == j.Plan();
      ApplyConcat(d, j.Plan()[..j.Count() + 8], last);
      ApplyOne(d2, 0, SuperSector(sb));
    }

    /** The entry of the new file and the new `nextFree`, in memory and then on the disk. */
    method EnterFile(idx: nat, name: seq<byte>, size: u32, start: u32, sectors: nat, ghost d: Blocks, ghost j: Job)
      returns (ok: bool, ghost n: nat)
      requires Valid() && ValidName(name) && j == Job(sb, Tab(), name, j.data) && size == |j.data|
      requires j.Accepted() && Geometry(sb) && idx == Slot(Tab(), name) && start == sb.nextFree && sectors == j.Count()
      requires dev.blocks == Apply(d, j.DataWrites())
      modifies this`sb, table, dev`blocks
      ensures Valid() && Tab() == j.NewTable() && sb == j.NewSuper()
      ensures n <= 9 && (ok <==> n == 9) && dev.blocks == j.Cut(d, j.Count() + n)
      ensures dev.reliable ==> ok
    {
      hide DataSector, TableSector, SuperSector, Slot, Allocated, Apply, CopyName;
      var e := table[idx];
      table[idx] := Entry(1, CopyName(e.name, name), start, size, e.rsvd);
      sb := sb.(nextFree := U32(start + sectors));
      assert Tab() == j.NewTable() && sb == j.NewSuper();
      ok, n := Commit(d, j);
    }

    /**
     * Writes a file. Of the plan's sector writes the first `k` reach the disk, and it succeeds
     * when all do; the table and superblock in memory change once the data is out.
     */
    method WriteFile(name: seq<byte>, data: FileData) returns (ok: bool, ghost k: nat)
      requires Valid() && 0 !in name
      requires kind == Sfs ==> VolumeOk(sb, Tab())
      modifies this`sb, table, dev`blocks
      ensures Valid()
      ensures var j := Job(old(sb), old(Tab()), name, data);
        if kind != Sfs || !j.Accepted()
        then !ok && sb == old(sb) && Tab() == old(Tab()) && dev.blocks == old(dev.blocks)
        else
          && k <= |j.Plan()| && (ok <==> k == |j.Plan()|)
          && dev.blocks == j.Cut(old(dev.blocks), k)
          && sb == (if k < j.Count() then j.sb else j.NewSuper())
          && Tab() == (if k < j.Count() then j.t else j.NewTable())
          && Files() == (if k < j.Count() then old(Files()) else old(Files())[name := j.Delivered()])
          && VolumeOk(sb, Tab())
          && (ok ==> OnDisk(dev.blocks, sb, Tab()))
          && (dev.reliable && j.Fits() ==> ok)
      ensures kind == Sfs && (ok || dev.reliable) ==>
        Volume(dev.blocks, sb, Tab()) == Step(Volume(old(dev.blocks), old(sb), old(Tab())), Put(name, data))
      ensures kind == Sfs && !ok ==>
        Volume(dev.blocks, sb, Tab()) == Step(Volume(old(dev.blocks), old(sb), old(Tab())), Fail(name, data, k))
    {
      hide DataSector, TableSector, SuperSector, Slot, View, TableOk, Allocated, OnDisk, Apply, Readable, Step, CStr, Find, CopyName;
      k := 0;
      if kind != Sfs {
        return false, 0;
      }
      ghost var d, j := dev.blocks, Job(sb, Tab(), name, data);
      ghost var v := Volume(d, sb, Tab());
      StepOfPut(v, j);
      StepOfFail(v, j, 0);
      if |name| == 0 || |name| >= 32 {
        return false, 0;
      }
      var found, idx := PickSlot(name);
      if !found {
        return false, 0;
      }
      var sectors := U32(|data| + 511) / 512;
      if sectors == 0 {
        sectors := 1;
      }
      AllocatedIs(|data|, sectors);
      var start := sb.nextFree;
      ok, k := WriteData(data, sectors, j);
      j.PlanStages(k);
      CutKeepsFiles(d, j, k);
      if !ok {
        StepOfFail(v, j, k);
        return;
      }
      assert j.DataWrites()[..j.Count()] == j.DataWrites();
      ghost var n;
      ok, n := EnterFile(idx, name, |data|, start, sectors, d, j);
      k := k + n;
      StepOfFail(v, j, k);
      CutKeepsFiles(d, j, k);
      assert j.Plan()[..|j.Plan()|] == j.Plan();
      FinishedWrite(d, j);
    }

    /** Reads the first `len` bytes of the extent of `e`. */
    method ReadExtent(e: Entry, len: nat, out: array<byte>) returns (ok: bool)
      requires len <= e.size && len <= out.Length
      modifies out, dev`refusals
      ensures ok ==> out[..] == Prefix(Stored(dev.blocks, e), len) + old(out[|Prefix(Stored(dev.blocks, e), len)|..])
      ensures !ok && dev.reliable ==> e.start + SectorsFor(e.size) > LBA28_LIMIT
    {
      hide Stored, SectorsFor, At, Readable, Prefix, U32;
      var sectors := U32(e.size + 511) / 512;
      ReadableIs(e.size, sectors);
      ghost var seen := Stored(dev.blocks, e);
      ghost var was := out[..];
      var copied := 0;
      var s := 0;
      while s < sectors && copied < len
        invariant 0 <= s <= sectors && copied <= len
        invariant copied == if 512 * s < len then 512 * s else len
        invariant copied <= |seen| && out[..copied] == seen[..copied]
        invariant out[copied..] == was[copied..]
        invariant s > 0 ==> e.start + s <= LBA28_LIMIT
      {
        var copy := len - copied;
        if copy > 512 {
          copy := 512;
        }
        StoredSector(dev.blocks, e, s, copy);
        DropMore(out[copied..], was[copied..], out[..], was, copied, copy);
        ok := Fat32.ReadPart(dev, U32(e.start + s), out, copied, copy);
        if !ok {
          return;
        }
        copied := copied + copy;
        s := s + 1;
      }
      ok := true;
      PrefixIs(seen, len, copied);
      assert out[..] == out[..copied] + out[copied..];
    }

    /**
     * Reads a file: the bytes the map holds for it up to `maxlen`, with the recorded size in
     * `outLen`. On a FAT32 disk it is the chain read.
     */
    method ReadFile(name: seq<byte>, out: array<byte>, maxlen: u32) returns (ok: bool, outLen: u32)
      requires Valid() && maxlen <= out.Length
      modifies out, dev`refusals
      ensures kind == NoFs ==> !ok && out[..] == old(out[..])
      ensures kind == Fat && FatLayout.IndexOf(fat.Files(), name) == fat.count ==> !ok && out[..] == old(out[..])
      ensures kind == Fat && FatLayout.IndexOf(fat.Files(), name) < fat.count ==>
        var f := fat.Files()[FatLayout.IndexOf(fat.Files(), name)];
        var want := FatLayout.Wanted(f, maxlen);
        && outLen == f.size && FatLayout.DeliversFile(dev.blocks, fat.info, f, maxlen, dev.reliable, ok, out[..])
        && out[want..] == old(out[want..]) && (want == 0 ==> ok)
      ensures kind == Sfs && name !in Files() ==> !ok && out[..] == old(out[..])
      ensures kind == Sfs && name in Files() ==>
        var got := Prefix(Files()[name], maxlen);
        && Find(Tab(), name) < 64 && outLen == Tab()[Find(Tab(), name)].size
        && (ok ==> out[..] == got + old(out[|got|..]))
        && (dev.reliable && VolumeOk(sb, Tab()) ==> ok)
    {
      hide Stored, FindFrom, TableOk, FatLayout.DeliversFile;
      if kind == NoFs {
        return false, 0;
      }
      if kind == Fat {
        ok, outLen := fat.ReadFile(name, out, maxlen);
        return;
      }
      ghost var t, d := Tab(), dev.blocks;
      NameFound(t, name);
      var found, idx := FindName(name);
      if !found {
        return false, 0;
      }
      var e := table[idx];
      outLen := e.size;
      var len := if e.size > maxlen then maxlen else e.size;
      PrefixOfStored(d, e, maxlen);
      ok := ReadExtent(e, len, out);
      assert Tab() == t;
      if VolumeOk(sb, t) {
        EntryOf(t, sb.nextFree, idx);
      }
    }
  }

  function Prefix(s: seq<byte>, n: nat): seq<byte> {
    if |s| <= n then s else s[..n]
  }

  lemma PrefixIs(s: seq<byte>, n: nat, k: nat)
    requires k == if |s| <= n then |s| else n
    ensures Prefix(s, n) == s[..k]
  {
  }

  /** Two buffers that agree from `at` on agree from `at + n` on. */
  lemma DropMore(a: seq<byte>, b: seq<byte>, x: seq<byte>, y: seq<byte>, at: nat, n: nat)
    requires at + n <= |x| && at + n <= |y| && a == x[at..] && b == y[at..] && a == b
    ensures x[at + n..] == y[at + n..]
  {
    assert x[at + n..] == a[n..];
    assert y[at + n..] == b[n..];
  }

  lemma PrefixOfStored(d: Blocks, e: Entry, maxlen: u32)
    ensures Prefix(Stored(d, e), if e.size > maxlen then maxlen else e.size) == Prefix(Stored(d, e), maxlen)
  {
  }

  method FillDataSector(sector: array<byte>, data: FileData, s: nat)
    requires sector.Length == 512 && (512 * s < |data| || s == 0)
    modifies sector
    ensures sector[..] == DataSector(data, s)
  {
    MemZero(sector);
    var copy := 512;
    var remain := |data| - s * 512;
    if remain < copy {
      copy := remain;
    }
    for i := 0 to copy
      invariant forall j :: 0 <= j < i ==> sector[j] == data[s * 512 + j]
      invariant forall j :: i <= j < 512 ==> sector[j] == 0
    {
      sector[i] := data[s * 512 + i];
    }
    assert sector[..] == DataSector(data, s);
  }

  lemma AllocatedIs(len: u32, sectors: nat)
    requires sectors == if U32(len + 511) / 512 == 0 then 1 else U32(len + 511) / 512
    ensures sectors == Allocated(len)
    ensures forall s :: 0 < s < sectors ==> 512 * s < len
  {
  }

  lemma ReadableIs(len: u32, sectors: nat)
    requires sectors == U32(len + 511) / 512
    ensures SectorsFor(len) == sectors
    ensures Readable(len) == if 512 * sectors < len then 512 * sectors else len
  {
  }

  lemma EntryOf(t: Table, nextFree: nat, idx: nat)
    requires TableOk(t, nextFree) && idx < 64
    ensures EntryOk(t[idx], nextFree)
  {
  }

  lemma StoredSector(d: Blocks, e: Entry, s: nat, k: nat)
    requires k <= 512 && 512 * s + k <= Readable(e.size)
    ensures Stored(d, e)[..512 * s + k] == Stored(d, e)[..512 * s] + At(d, e.start + s)[..k]
  {
    forall i | 512 * s <= i < 512 * s + k
      ensures Stored(d, e)[i] == At(d, e.start + s)[..k][i - 512 * s]
    {
      assert i / 512 == s && i % 512 == i - 512 * s;
    }
  }

  /**
   * The crash theorem for the code: a start on a disk that a crash left in the middle of a write
   * mounts it, writes nothing, and shows the old files up to the switch point and the new ones
   * after it.
   */
  method StartAfterCrash(fs: Storage, ghost d: Blocks, ghost j: Job, ghost k: nat) returns (ok: bool)
    requires fs.Valid() && fs.dev.reliable
    requires VolumeOk(j.sb, j.t) && OnDisk(d, j.sb, j.t) && j.Reaches(k) && fs.dev.blocks == j.Cut(d, k)
    modifies fs`sb, fs`kind, fs.table, fs.fat`info, fs.fat`count, fs.fat.files, fs.dev`blocks, fs.dev`refusals
    ensures fs.Valid() && ok && fs.kind == Sfs && fs.dev.blocks == old(fs.dev.blocks)
    ensures fs.Files() == if k <= j.SwitchPoint() then View(d, j.t) else View(d, j.t)[j.name := j.Delivered()]
  {
    hide OnDisk, View, TableOk, SuperSector, MountedTable;
    CrashOldOrNew(d, j, k);
    CutTable(d, j, k);
    CutIsNotFat(d, j, k);
    ghost var formatted, got, mid;
    ok, formatted, got, mid := fs.Init();
    AddressableIsRead(j.SuperAfter(k), mid);
  }

  /** A table that can be addressed is not refused without an entry in the log. */
  lemma AddressableIsRead(sb: Super, log: seq<nat>)
    requires TableAddressable(sb)
    ensures !TableRefused(sb, log, log)
  {
  }

  /**
   * What one failed read costs: a start on a drive that holds a volume in order shows its files,
   * unless the read of a table sector is refused; then they are gone from the disk as well.
   */
  method StartOnVolume(fs: Storage, ghost v: Super, ghost t: Table) returns (ok: bool, ghost mid: seq<nat>)
    requires fs.Valid() && VolumeOk(v, t) && OnDisk(fs.dev.blocks, v, t)
    modifies fs`sb, fs`kind, fs.table, fs.fat`info, fs.fat`count, fs.fat.files, fs.dev`blocks, fs.dev`refusals
    ensures fs.Valid() && fs.kind == Sfs && (fs.dev.reliable ==> ok && fs.dev.refusals == mid)
    ensures ok && !TableRefused(v, mid, fs.dev.refusals) ==>
      fs.dev.blocks == old(fs.dev.blocks) && fs.Files() == View(old(fs.dev.blocks), t)
    ensures ok && TableRefused(v, mid, fs.dev.refusals) ==> fs.Files() == map[] && MountedView(fs.dev.blocks) == map[]
  {
    hide View, TableOk, SuperSector, MountedTable, TableRefused;
    ghost var d := fs.dev.blocks;
    StoreLoadRoundTrip(d, v, t);
    SuperIsNotFat(v);
    ghost var formatted, got;
    ok, formatted, got, mid := fs.Init();
    AddressableIsRead(v, mid);
    FreshVolumeOk(fs.dev.blocks);
    if formatted && ok {
      StoreLoadRoundTrip(fs.dev.blocks, FreshSuper, EmptyTable);
    }
  }

  /** A start on any other disk, on a drive that completes every command, makes an empty volume of it. */
  method StartOnNewDisk(fs: Storage) returns (ok: bool)
    requires fs.Valid() && fs.dev.reliable
    requires !FatLayout.Mountable(fs.dev.blocks) && !Recognised(MountedSuper(fs.dev.blocks))
    modifies fs`sb, fs`kind, fs.table, fs.fat`info, fs.fat`count, fs.fat.files, fs.dev`blocks, fs.dev`refusals
    ensures fs.Valid() && ok && fs.kind == Sfs && VolumeOk(fs.sb, fs.Tab()) && OnDisk(fs.dev.blocks, fs.sb, fs.Tab())
    ensures fs.Files() == map[]
  {
    ghost var formatted, got, mid;
    ok, formatted, got, mid := fs.Init();
    FreshVolumeOk(fs.dev.blocks);
  }

  /**
   * On a drive that completes every command, a start on a disk that holds a FAT32 volume lists exactly
   * its files: the first 128 of the root directory, in order.
   */
  method StartOnFat32(fs: Storage, ghost g: FatDisk.Geometry, ghost root: seq<u32>, ghost slots: seq<FatDisk.Slot>)
    returns (ok: bool)
    requires fs.Valid() && fs.dev.reliable && FatDisk.Holds(fs.dev.blocks, g, root, slots) && |root| <= 256
    modifies fs`sb, fs`kind, fs.table, fs.fat`info, fs.fat`count, fs.fat.files, fs.dev`blocks, fs.dev`refusals
    ensures fs.Valid() && ok && fs.kind == Fat && fs.dev.blocks == old(fs.dev.blocks)
    ensures FatDisk.Matches(fs.fat.Files(), FatDisk.Shown(slots))
    ensures g.Ok() && fs.fat.info == FatDisk.InfoFor(g)
  {
    hide FatDisk.Holds, FatLayout.NotMounted, FatLayout.ListsRoot, FatLayout.Mountable, FatDisk.Matches, FatDisk.Shown;
    ghost var d := fs.dev.blocks;
    FatDisk.VolumeStaysMounted(d, g, root, slots);
    FatDisk.VolumeInfo(d, g, root, slots);
    ghost var formatted, got, mid;
    ok, formatted, got, mid := fs.Init();
    FatDisk.RootIsShown(d, g, root, slots, fs.fat.Files());
  }

  /**
   * ... and a read of a name then delivers exactly the data of the first shown file that has it, up to
   * `maxlen` and as far as 4096 clusters reach.
   */
  method ReadFromFat32(fs: Storage, name: seq<byte>, out: array<byte>, maxlen: u32,
                       ghost g: FatDisk.Geometry, ghost root: seq<u32>, ghost slots: seq<FatDisk.Slot>)
    returns (ok: bool, outLen: u32)
    requires fs.Valid() && fs.dev.reliable && FatDisk.Holds(fs.dev.blocks, g, root, slots) && |root| <= 256
    requires maxlen <= out.Length
    modifies fs`sb, fs`kind, fs.table, fs.fat`info, fs.fat`count, fs.fat.files, fs.dev`blocks, fs.dev`refusals, out
    ensures var files := FatDisk.Shown(slots);
      FatDisk.FirstNamed(files, name) == |files| ==> !ok && out[..] == old(out[..])
    ensures var files, k := FatDisk.Shown(slots), FatDisk.FirstNamed(FatDisk.Shown(slots), name);
      k < |files| ==>
        var data := files[k].data;
        var want := if |data| < maxlen then |data| else maxlen;
        && outLen == |data| && out[want..] == old(out[want..])
        && (want <= 4096 * g.spc * 512 ==> ok && out[..want] == data[..want])
  {
    hide FatDisk.Holds, FatDisk.FilesOf, FatDisk.FileData, FatLayout.DeliversFile;
    ghost var d, was := fs.dev.blocks, out[..];
    var mounted := StartOnFat32(fs, g, root, slots);
    ghost var files, listed := FatDisk.Shown(slots), fs.fat.Files();
    ghost var k := FatDisk.FirstNamed(files, name);
    FatDisk.FoundByName(listed, files, name);
    ok, outLen := fs.ReadFile(name, out, maxlen);
    if k < |files| {
      FatDisk.ShownData(d, g, root, slots, k);
      if FatLayout.Wanted(listed[k], maxlen) <= 4096 * g.spc * 512 {
        FatDisk.DeliveryIsData(d, g, files[k], listed[k], maxlen, ok, out[..]);
      }
    }
  }

  lemma CutIsNotFat(d: Blocks, j: Job, k: nat)
    requires VolumeOk(j.sb, j.t) && OnDisk(d, j.sb, j.t) && j.Reaches(k)
    ensures !FatLayout.IsBootSector(At(j.Cut(d, k), 0)) && Geometry(j.SuperAfter(k))
  {
    hide SuperSector, DataSector, TableSector;
    j.CutSectors(d, k);
    SuperIsNotFat(j.SuperAfter(k));
    assert At(j.Cut(d, k), 0) == j.SectorAfter(d, k, 0);
  }
}
