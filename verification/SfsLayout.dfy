/**
 * The on-disk form of the SFS volume: a superblock in sector 0 and a table of 64 packed 45-byte
 * entries, 11 to a sector.
 */
module SfsLayout {
  import opened Bytes
  import opened Words
  import opened BlockDevice

  const MAGIC: u32 := 0x31465353
  const VERSION: u32 := 1

  type NameField = s: seq<byte> | |s| == 32 witness Zeros(32)

  datatype Super = Super(magic: u32, version: u32, tableLba: u32, tableSectors: u32,
                         dataLba: u32, nextFree: u32, fileCount: u32, rsvd: u32)

  datatype Entry = Entry(used: byte, name: NameField, start: u32, size: u32, rsvd: u32)

  type Table = t: seq<Entry> | |t| == 64 witness seq(64, _ => EmptyEntry)

  const EmptyEntry: Entry := Entry(0, Zeros(32), 0, 0, 0)
  const EmptyTable: Table := seq(64, _ => EmptyEntry)

  // ---- Packed structures ----

  function EncEntry(e: Entry): (b: seq<byte>)
    ensures |b| == 45
  {
    [e.used] + e.name + Le32(e.start) + Le32(e.size) + Le32(e.rsvd)
  }

  function DecEntry(b: seq<byte>): Entry
    requires |b| == 45
  {
    Entry(b[0], b[1..33], Rd32(b, 33), Rd32(b, 37), Rd32(b, 41))
  }

  lemma EntryRoundTrip(e: Entry)
    ensures DecEntry(EncEntry(e)) == e
  {
    var b := EncEntry(e);
    var upToStart := [e.used] + e.name;
    var upToSize := upToStart + Le32(e.start);
    var upToRsvd := upToSize + Le32(e.size);
    assert upToStart[1..33] == e.name;
    assert b == upToRsvd + Le32(e.rsvd) && b[41..45] == Le32(e.rsvd);
    assert b[37..41] == upToRsvd[37..41] == Le32(e.size);
    assert b[33..37] == upToSize[33..37] == Le32(e.start);
    assert b[1..33] == e.name;
    WordAt(b, 33, e.start);
    WordAt(b, 37, e.size);
    WordAt(b, 41, e.rsvd);
  }

  function EncSuper(sb: Super): (b: seq<byte>)
    ensures |b| == 32
  {
    Le32(sb.magic) + Le32(sb.version) + Le32(sb.tableLba) + Le32(sb.tableSectors) +
    Le32(sb.dataLba) + Le32(sb.nextFree) + Le32(sb.fileCount) + Le32(sb.rsvd)
  }

  function DecSuper(b: seq<byte>): Super
    requires |b| >= 32
  {
    Super(Rd32(b, 0), Rd32(b, 4), Rd32(b, 8), Rd32(b, 12), Rd32(b, 16), Rd32(b, 20), Rd32(b, 24), Rd32(b, 28))
  }

  // ---- The same, byte by byte ----

  /** The 45 bytes of an entry: the used flag, 32 bytes of name, then start, size and the reserved word. */
  predicate EntryBytes(c: seq<byte>, e: Entry) {
    && |c| == 45 && c[0] == e.used && c[1..33] == e.name
    && Le(c[33..37]) == e.start && Le(c[37..41]) == e.size && Le(c[41..45]) == e.rsvd
  }

  /** The eight little-endian words at the start of sector 0. */
  predicate SuperBytes(b: seq<byte>, sb: Super) {
    && |b| >= 32
    && Le(b[0..4]) == sb.magic && Le(b[4..8]) == sb.version && Le(b[8..12]) == sb.tableLba
    && Le(b[12..16]) == sb.tableSectors && Le(b[16..20]) == sb.dataLba && Le(b[20..24]) == sb.nextFree
    && Le(b[24..28]) == sb.fileCount && Le(b[28..32]) == sb.rsvd
  }

  lemma ReadEntryBytes(c: seq<byte>)
    requires |c| == 45
    ensures EntryBytes(c, DecEntry(c))
  {
    hide Le;
    Le4(c, 33);
    Le4(c, 37);
    Le4(c, 41);
  }

  lemma WrittenEntryBytes(e: Entry)
    ensures EntryBytes(EncEntry(e), e)
  {
    hide EncEntry, DecEntry, EntryBytes;
    ReadEntryBytes(EncEntry(e));
    EntryRoundTrip(e);
  }

  lemma ReadSuperBytes(b: seq<byte>)
    requires |b| >= 32
    ensures SuperBytes(b, DecSuper(b))
  {
    hide Le;
    Le4(b, 0);
    Le4(b, 4);
    Le4(b, 8);
    Le4(b, 12);
    Le4(b, 16);
    Le4(b, 20);
    Le4(b, 24);
    Le4(b, 28);
  }

  /** The bytes say which entry it is, and the entry which bytes they are. */
  lemma EntryBytesIff(c: seq<byte>, e: Entry)
    requires |c| == 45
    ensures EntryBytes(c, e) <==> e == DecEntry(c)
    ensures EntryBytes(c, e) <==> c == EncEntry(e)
  {
    hide Le;
    ReadEntryBytes(c);
    WrittenEntryBytes(e);
    if EntryBytes(c, e) {
      SameWord(c, EncEntry(e), 33);
      SameWord(c, EncEntry(e), 37);
      SameWord(c, EncEntry(e), 41);
      assert c == [c[0]] + c[1..33] + c[33..37] + c[37..41] + c[41..45];
      var b := EncEntry(e);
      assert b == [b[0]] + b[1..33] + b[33..37] + b[37..41] + b[41..45];
    }
  }

  lemma SameWord(a: seq<byte>, b: seq<byte>, o: nat)
    requires o + 4 <= |a| == |b| && Le(a[o..o + 4]) == Le(b[o..o + 4])
    ensures a[o..o + 4] == b[o..o + 4]
  {
    hide Le;
    Le4(a, o);
    Le4(b, o);
    DigitsAgree(a[o], a[o + 1], a[o + 2], a[o + 3], b[o], b[o + 1], b[o + 2], b[o + 3]);
  }

  // ---- Sectors ----

  function SuperSector(sb: Super): Sector {
    EncSuper(sb) + Zeros(512 - 32)
  }

  lemma WordAt(b: seq<byte>, off: nat, v: u32)
    requires off + 4 <= |b| && b[off..off + 4] == Le32(v)
    ensures Rd32(b, off) == v
  {
    Le32RoundTrip(v);
    var w := b[off..off + 4];
    assert w[0] == b[off] && w[1] == b[off + 1] && w[2] == b[off + 2] && w[3] == b[off + 3];
  }

  lemma SuperRoundTrip(sb: Super)
    ensures DecSuper(SuperSector(sb)) == sb
  {
    var s := SuperSector(sb);
    WordAt(s, 0, sb.magic);
    WordAt(s, 4, sb.version);
    WordAt(s, 8, sb.tableLba);
    WordAt(s, 12, sb.tableSectors);
    WordAt(s, 16, sb.dataLba);
    WordAt(s, 20, sb.nextFree);
    WordAt(s, 24, sb.fileCount);
    WordAt(s, 28, sb.rsvd);
  }

  /** Byte `i` of table sector `s`; the 17 bytes after the eleventh entry stay zero. */
  function TableByte(t: Table, s: nat, i: nat): byte {
    if i < 11 * 45 && 11 * s + i / 45 < 64
    then EncEntry(t[11 * s + i / 45])[i % 45]
    else 0
  }

  function TableSector(t: Table, s: nat): Sector {
    seq<byte>(512, (i: nat) => TableByte(t, s, i))
  }

  /** The 45 bytes of entry `k` of a table sector. */
  function Cell(b: Sector, k: nat): (c: seq<byte>)
    requires k < 11
    ensures |c| == 45
  {
    b[45 * k..45 * k + 45]
  }

  /** Entry `idx` of a table stored from `tableLba`. */
  function EntryAt(d: Blocks, tableLba: nat, idx: nat): Entry {
    DecEntry(Cell(At(d, tableLba + idx / 11), idx % 11))
  }

  lemma LoadedBytes(d: Blocks, tableLba: nat)
    ensures forall i: nat :: EntryBytes(Cell(At(d, tableLba + i / 11), i % 11), EntryAt(d, tableLba, i))
  {
    hide EntryBytes, DecEntry;
    forall i: nat
      ensures EntryBytes(Cell(At(d, tableLba + i / 11), i % 11), EntryAt(d, tableLba, i))
    {
      ReadEntryBytes(Cell(At(d, tableLba + i / 11), i % 11));
    }
  }

  lemma EntrySlice(t: Table, s: nat, k: nat)
    requires k < 11 && 11 * s + k < 64
    ensures Cell(TableSector(t, s), k) == EncEntry(t[11 * s + k])
  {
    var b := Cell(TableSector(t, s), k);
    var e := EncEntry(t[11 * s + k]);
    forall i | 0 <= i < 45
      ensures b[i] == e[i]
    {
      TableByteOf(t, s, k, i);
    }
  }

  /** Each entry lies wholly in one table sector, so that sector alone decides it. */
  lemma EntryInSector(d: Blocks, tableLba: nat, t: Table, idx: nat)
    requires idx < 64
    requires At(d, tableLba + idx / 11) == TableSector(t, idx / 11)
    ensures EntryAt(d, tableLba, idx) == t[idx]
  {
    hide TableSector, EncEntry;
    var s, k := idx / 11, idx % 11;
    assert 11 * s + k == idx;
    var c := Cell(At(d, tableLba + s), k);
    EntrySlice(t, s, k);
    assert c == EncEntry(t[idx]);
    EntryRoundTrip(t[idx]);
    assert DecEntry(c) == t[idx];
  }

  /** The cells of a stored table sector. */
  lemma SectorBytes(t: Table, s: nat)
    ensures forall k: nat :: k < 11 && 11 * s + k < 64 ==> EntryBytes(Cell(TableSector(t, s), k), t[11 * s + k])
  {
    hide EntryBytes, EncEntry, TableSector;
    forall k: nat | k < 11 && 11 * s + k < 64
      ensures EntryBytes(Cell(TableSector(t, s), k), t[11 * s + k])
    {
      EntrySlice(t, s, k);
      WrittenEntryBytes(t[11 * s + k]);
    }
  }

  lemma TableByteOf(t: Table, s: nat, k: nat, i: nat)
    requires k < 11 && i < 45 && 11 * s + k < 64
    ensures TableByte(t, s, 45 * k + i) == EncEntry(t[11 * s + k])[i]
  {
    Offset(k, i);
  }

  lemma Offset(k: nat, i: nat)
    requires k < 11 && i < 45
    ensures (45 * k + i) / 45 == k && (45 * k + i) % 45 == i
    ensures 45 * k + i < 11 * 45
  {
  }

  /** Past the last entry of a sector, or of the table, the sector is zero. */
  lemma TableTail(t: Table, s: nat, k: nat)
    requires k <= 11 && (k == 11 || 11 * s + k >= 64)
    ensures TableSector(t, s)[45 * k..] == Zeros(512 - 45 * k)
  {
    forall i: nat | 45 * k <= i < 512
      ensures TableByte(t, s, i) == 0
    {
      assert i < 495 ==> k <= i / 45;
    }
  }

  /** One more entry of a table sector. */
  lemma TableHead(t: Table, s: nat, k: nat)
    requires k < 11 && 11 * s + k < 64
    ensures TableSector(t, s)[..45 * k + 45] == TableSector(t, s)[..45 * k] + EncEntry(t[11 * s + k])
  {
    EntrySlice(t, s, k);
    var b := TableSector(t, s);
    assert b[..45 * k + 45] == b[..45 * k] + Cell(b, k);
  }

  // ---- File contents ----

  /** Sector count as the 32-bit sum computes it: it wraps to 0 for the last 511 lengths. */
  function SectorsFor(len: u32): nat {
    U32(len + 511) / 512
  }

  /** Sectors a write allocates: at least one. */
  function Allocated(len: u32): nat {
    if SectorsFor(len) == 0 then 1 else SectorsFor(len)
  }

  const MAX_LEN: nat := 0xFFFF_FE00

  lemma SectorsCover(len: u32)
    ensures len <= MAX_LEN ==> 512 * SectorsFor(len) - 512 < len <= 512 * SectorsFor(len)
    ensures len > MAX_LEN ==> SectorsFor(len) == 0
  {
  }

  /** Byte `i` of data sector `s`; the last sector is padded with zeros. */
  function DataByte(data: seq<byte>, s: nat, i: nat): byte {
    if 512 * s + i < |data| then data[512 * s + i] else 0
  }

  function DataSector(data: seq<byte>, s: nat): Sector {
    seq<byte>(512, (i: nat) => DataByte(data, s, i))
  }

  /** Bytes a read of a file of recorded size `len` can deliver. */
  function Readable(len: u32): (n: nat)
    ensures n <= len
  {
    if 512 * SectorsFor(len) < len then 512 * SectorsFor(len) else len
  }

  function DiskByte(d: Blocks, start: nat, i: nat): byte {
    At(d, start + i / 512)[i % 512]
  }

  /** The bytes stored for an entry. */
  function Stored(d: Blocks, e: Entry): (b: seq<byte>)
    ensures |b| == Readable(e.size)
  {
    seq<byte>(Readable(e.size), (i: nat) => DiskByte(d, e.start, i))
  }

  // ---- The table as a directory ----

  predicate Holds(e: Entry, n: seq<byte>) {
    e.used != 0 && CStr(e.name) == n
  }

  /** Slot of the first entry from `i` on that holds `n`, or 64. */
  function FindFrom(t: Table, n: seq<byte>, i: nat): (r: nat)
    requires i <= 64
    ensures i <= r <= 64
    ensures forall j :: i <= j < r ==> !Holds(t[j], n)
    ensures r < 64 ==> Holds(t[r], n)
    decreases 64 - i
  {
    if i == 64 || Holds(t[i], n) then i else FindFrom(t, n, i + 1)
  }

  function Find(t: Table, n: seq<byte>): (r: nat)
    ensures r <= 64
    ensures forall j :: 0 <= j < r ==> !Holds(t[j], n)
    ensures r < 64 ==> Holds(t[r], n)
  {
    FindFrom(t, n, 0)
  }

  function FreeFrom(t: Table, i: nat): (r: nat)
    requires i <= 64
    ensures i <= r <= 64
    ensures forall j :: i <= j < r ==> t[j].used != 0
    ensures r < 64 ==> t[r].used == 0
    decreases 64 - i
  {
    if i == 64 || t[i].used == 0 then i else FreeFrom(t, i + 1)
  }

  /** Slot a write of `n` uses: the entry that has the name, else the first unused one, else 64. */
  function Slot(t: Table, n: seq<byte>): (r: nat)
    ensures r <= 64
  {
    if Find(t, n) < 64 then Find(t, n) else FreeFrom(t, 0)
  }

  function Names(t: Table): set<seq<byte>> {
    set i | 0 <= i < 64 && t[i].used != 0 :: CStr(t[i].name)
  }

  lemma NameFound(t: Table, n: seq<byte>)
    ensures n in Names(t) <==> Find(t, n) < 64
  {
    if n in Names(t) {
      var i :| 0 <= i < 64 && t[i].used != 0 && CStr(t[i].name) == n;
      assert Holds(t[i], n);
    }
  }

  /** What a read of `n` delivers. */
  function Lookup(d: Blocks, t: Table, n: seq<byte>): seq<byte> {
    if Find(t, n) < 64 then Stored(d, t[Find(t, n)]) else []
  }

  /** The volume as a finite map from names to contents: what reads deliver. */
  function View(d: Blocks, t: Table): map<seq<byte>, seq<byte>> {
    map n | n in Names(t) :: Lookup(d, t, n)
  }
}
