/**
 * FAT32 volumes by their sectors and bytes, after the FAT32 on-disk format, and the theorem that the
 * driver's own arithmetic finds on such a disk exactly the names, sizes and contents that are there.
 */
module FatDisk {
  import opened Bytes
  import opened Words
  import opened BlockDevice
  import opened FatLayout

  // ---- The format ----

  /** Reserved sectors, then `fats` copies of the FAT, then the clusters, the first of which is number 2. */
  datatype Geometry = Geometry(reserved: nat, fats: nat, fatSize: nat, spc: nat, clusters: nat, root: u32) {
    function DataStart(): nat { reserved + fats * fatSize }

    function ClusterStart(n: nat): nat
      requires 2 <= n
    {
      DataStart() + (n - 2) * spc
    }

    predicate Ok() {
      && reserved < 0x1_0000 && 0 < fats < 256 && 0 < fatSize < 0x1_0000_0000 && 0 < spc < 256
      && 4 * (clusters + 2) <= 512 * fatSize && clusters + 2 <= 0x0FFF_FFF7
      && DataStart() + clusters * spc <= LBA28_LIMIT
    }

    predicate IsCluster(n: u32) { 2 <= n < clusters + 2 }
  }

  /** The fields of the boot sector. */
  predicate BootFields(b: Sector, g: Geometry) {
    && b[11..13] == [0x00, 0x02] && b[13] == g.spc && Le(b[14..16]) == g.reserved && b[16] == g.fats
    && b[17..19] == [0, 0] && b[22..24] == [0, 0] && Le(b[36..40]) == g.fatSize && Le(b[44..48]) == g.root
    && b[82..87] == [0x46, 0x41, 0x54, 0x33, 0x32] && b[510..512] == [0x55, 0xAA]
  }

  /** The four bytes at byte `4 * n` of the FAT, 128 links to a sector, without the four bits that are not part of the link. */
  function Link(d: Blocks, g: Geometry, n: u32): nat {
    var o := 4 * (n % 128);
    Le(At(d, g.reserved + n / 128)[o..o + 4]) % 0x1000_0000
  }

  /** A chain of clusters of the volume, linked up to an end mark. */
  predicate Chain(d: Blocks, g: Geometry, cs: seq<u32>) {
    && cs != [] && (forall i :: 0 <= i < |cs| ==> g.IsCluster(cs[i]))
    && (forall i :: 0 < i < |cs| ==> Link(d, g, cs[i - 1]) == cs[i])
    && Link(d, g, cs[|cs| - 1]) >= 0x0FFF_FFF8
  }

  function SectorRun(d: Blocks, lba: nat, n: nat): (bytes: seq<byte>) {
    if n == 0 then [] else SectorRun(d, lba, n - 1) + At(d, lba + n - 1)
  }

  function ClusterBytes(d: Blocks, g: Geometry, n: u32): seq<byte>
    requires g.IsCluster(n)
  {
    SectorRun(d, g.ClusterStart(n), g.spc)
  }

  function ChainBytes(d: Blocks, g: Geometry, cs: seq<u32>): seq<byte>
    requires forall i :: 0 <= i < |cs| ==> g.IsCluster(cs[i])
  {
    if cs == [] then [] else ChainBytes(d, g, cs[..|cs| - 1]) + ClusterBytes(d, g, cs[|cs| - 1])
  }

  /** A directory entry that is no short-name file, or a file with its clusters and its data. */
  datatype Slot =
    | Other
    | File(base: seq<byte>, ext: seq<byte>, attr: byte, first: u32, clusters: seq<u32>, data: seq<byte>)
  {
    function Name(): seq<byte>
      requires File?
    {
      if ext == [] then base else base + [0x2E] + ext
    }
  }

  function Spaces(n: nat): seq<byte> { seq(n, _ => 0x20) }

  /** Text of a field that is padded with spaces. */
  predicate Padded(field: seq<byte>, text: seq<byte>) {
    && |text| <= |field| && field == text + Spaces(|field| - |text|)
    && 0 !in text && (text != [] ==> text[|text| - 1] != 0x20)
  }

  predicate Marked(attr: byte) {
    attr == 0x0F || attr / 0x08 % 2 == 1 || attr / 0x10 % 2 == 1
  }

  /** The 32 bytes of an entry: deleted, a long-name part, a label or a directory; or a file. */
  predicate EntryIs(e: RawEntry, s: Slot) {
    && e[0] != 0
    && if s.Other? then e[0] == 0xE5 || Marked(e[11])
       else
         && s.base != [] && e[0] != 0xE5 && Padded(e[..8], s.base) && Padded(e[8..11], s.ext)
         && e[11] == s.attr && !Marked(s.attr)
         && Le(e[26..28]) + 0x1_0000 * Le(e[20..22]) == s.first && Le(e[28..32]) == |s.data|
  }

  /** The data of a file stands in its clusters. */
  predicate FileData(d: Blocks, g: Geometry, s: Slot)
    requires s.File?
  {
    s.data != [] ==>
      && Chain(d, g, s.clusters) && s.clusters[0] == s.first
      && s.data <= ChainBytes(d, g, s.clusters)
  }

  function EntryOf(dir: seq<byte>, k: nat): RawEntry
    requires 32 * k + 32 <= |dir|
  {
    dir[32 * k..32 * k + 32]
  }

  /** A directory with these entries, up to its end marker or its last byte. */
  predicate Directory(dir: seq<byte>, slots: seq<Slot>) {
    && 32 * |slots| <= |dir|
    && (forall k: nat :: k < |slots| ==> EntryIs(EntryOf(dir, k), slots[k]))
    && (32 * |slots| < |dir| ==> dir[32 * |slots|] == 0)
  }

  /** The disk holds a FAT32 volume: geometry, clusters of the root directory, and its entries. */
  ghost predicate Holds(d: Blocks, g: Geometry, root: seq<u32>, slots: seq<Slot>) {
    && g.Ok() && BootFields(At(d, 0), g)
    && Chain(d, g, root) && root[0] == g.root && Directory(ChainBytes(d, g, root), slots)
    && forall s :: s in slots && s.File? ==> FileData(d, g, s)
  }

  /** The files of a directory, in order. */
  function FilesOf(slots: seq<Slot>): (fs: seq<Slot>)
    ensures forall f :: f in fs ==> f.File? && f in slots
  {
    if slots == [] then []
    else
      var last := slots[|slots| - 1];
      FilesOf(slots[..|slots| - 1]) + if last.File? then [last] else []
  }

  // ---- The driver's numbers ----

  function InfoFor(g: Geometry): FatInfo
    requires g.Ok()
  {
    FatInfo(g.spc, g.reserved, g.DataStart(), g.root)
  }

  /** The boot sector is accepted and its fields are read as they are. */
  lemma BootIsUsable(b: Sector, g: Geometry)
    requires g.Ok() && BootFields(b, g) && g.root >= 2
    ensures UsableBootSector(b) && InfoOf(b) == InfoFor(g)
  {
    hide Le;
    Le2(b, 14);
    Le4(b, 36);
    Le4(b, 44);
    assert b[11] == b[11..13][0] && b[12] == b[11..13][1];
    assert b[17] == b[17..19][0] && b[18] == b[17..19][1];
    assert b[22] == b[22..24][0] && b[23] == b[22..24][1];
    assert b[510] == b[510..512][0] && b[511] == b[510..512][1];
    var t := b[82..87];
    assert b[82] == t[0] && b[83] == t[1] && b[84] == t[2] && b[85] == t[3] && b[86] == t[4];
  }

  lemma TimesGrows(a: nat, b: nat, m: nat)
    requires a <= b
    ensures 0 <= a * m <= b * m
  {
    assert b * m == a * m + (b - a) * m;
  }

  lemma ClusterInside(g: Geometry, n: u32)
    requires g.Ok() && g.IsCluster(n)
    ensures 0 <= (n - 2) * g.spc && g.ClusterStart(n) + g.spc <= LBA28_LIMIT
  {
    TimesGrows(n - 1, g.clusters, g.spc);
    OneMoreTimes(n - 2, g.spc);
  }

  lemma OneMoreTimes(a: nat, m: nat)
    ensures (a + 1) * m == a * m + m && a * m >= 0
  {
  }

  /** The driver's sector of a cluster and of its link are those of the format. */
  lemma DriverFinds(d: Blocks, g: Geometry, n: u32)
    requires g.Ok() && g.IsCluster(n)
    ensures ClusterLba(InfoFor(g), n) == g.ClusterStart(n)
    ensures FatSector(InfoFor(g), n) == g.reserved + n / 128 < LBA28_LIMIT
    ensures Next(d, InfoFor(g), n) == Link(d, g, n)
  {
    hide Le, At;
    ClusterInside(g, n);
    TimesGrows(1, g.fats, g.fatSize);
    assert n / 128 < g.fatSize;
    assert 4 * n / 512 == n / 128 && 4 * n % 512 == 4 * (n % 128);
    Le4(At(d, g.reserved + n / 128), 4 * (n % 128));
  }

  /** A chain of the format is one of the driver's. */
  lemma DriverChain(d: Blocks, g: Geometry, cs: seq<u32>)
    requires g.Ok() && Chain(d, g, cs)
    ensures IsChain(d, InfoFor(g), cs)
    ensures forall i :: 0 <= i < |cs| ==> Next(d, InfoFor(g), cs[i]) == Link(d, g, cs[i])
    ensures forall i :: 0 <= i < |cs| ==> FatSector(InfoFor(g), cs[i]) < LBA28_LIMIT
  {
    hide Link, Next, FatSector;
    forall i | 0 <= i < |cs|
      ensures Next(d, InfoFor(g), cs[i]) == Link(d, g, cs[i]) && FatSector(InfoFor(g), cs[i]) < LBA28_LIMIT
    {
      DriverFinds(d, g, cs[i]);
    }
    forall i | 1 <= i < |cs|
      ensures Next(d, InfoFor(g), cs[i - 1]) == cs[i] && 2 <= cs[i] < END_OF_CHAIN
    {
    }
  }

  // ---- The bytes of a chain ----

  lemma {:induction false} RunBytes(d: Blocks, lbas: seq<u32>, lba: nat, n: nat)
    requires n <= |lbas| && forall s :: 0 <= s < n ==> lbas[s] == lba + s
    ensures FirstBytes(d, lbas, 512 * n) == SectorRun(d, lba, n)
  {
    hide FirstBytes;
    if n > 0 {
      RunBytes(d, lbas, lba, n - 1);
      FirstBytesNext(d, lbas, n - 1, 512);
      var last := At(d, lba + n - 1);
      assert last[..512] == last;
    }
  }

  lemma BytesConcat(d: Blocks, a: seq<u32>, b: seq<u32>)
    ensures FirstBytes(d, a + b, 512 * |a + b|) == FirstBytes(d, a, 512 * |a|) + FirstBytes(d, b, 512 * |b|)
  {
    var all, both := FirstBytes(d, a + b, 512 * |a + b|), FirstBytes(d, a, 512 * |a|) + FirstBytes(d, b, 512 * |b|);
    forall i | 0 <= i < |all|
      ensures all[i] == both[i]
    {
      if i >= 512 * |a| {
        var j := i - 512 * |a|;
        assert i / 512 == |a| + j / 512 && i % 512 == j % 512;
      }
    }
  }

  /** The sectors the driver reads along a chain are addressable and hold its bytes. */
  lemma {:induction false} ChainSectors(d: Blocks, g: Geometry, cs: seq<u32>)
    requires g.Ok() && forall i :: 0 <= i < |cs| ==> g.IsCluster(cs[i])
    ensures var lbas := Sectors(InfoFor(g), cs);
      && FirstBytes(d, lbas, 512 * |lbas|) == ChainBytes(d, g, cs)
      && forall i :: 0 <= i < |lbas| ==> lbas[i] < LBA28_LIMIT
  {
    hide FirstBytes, At, ClusterLba, SectorRun;
    if cs != [] {
      var front, c := cs[..|cs| - 1], cs[|cs| - 1];
      ChainSectors(d, g, front);
      ClusterSectorsAre(g, c);
      var run := ClusterSectors(InfoFor(g), c, g.spc);
      RunBytes(d, run, g.ClusterStart(c), g.spc);
      BytesConcat(d, Sectors(InfoFor(g), front), run);
    }
  }

  lemma ClusterSectorsAre(g: Geometry, c: u32)
    requires g.Ok() && g.IsCluster(c)
    ensures forall s :: 0 <= s < g.spc ==>
      ClusterSectors(InfoFor(g), c, g.spc)[s] == g.ClusterStart(c) + s < LBA28_LIMIT
  {
    hide ClusterLba;
    DriverFinds(map[], g, c);
    ClusterInside(g, c);
    var lba, run := g.ClusterStart(c), ClusterSectors(InfoFor(g), c, g.spc);
    forall s | 0 <= s < g.spc
      ensures run[s] == lba + s < LBA28_LIMIT
    {
      assert U32(lba + s) == lba + s;
    }
  }

  lemma RawIsEntry(d: Blocks, lbas: seq<u32>, k: nat)
    requires k < 16 * |lbas|
    ensures RawAt(d, lbas, k) == EntryOf(FirstBytes(d, lbas, 512 * |lbas|), k)
  {
    var e, r := EntryOf(FirstBytes(d, lbas, 512 * |lbas|), k), RawAt(d, lbas, k);
    forall i | 0 <= i < 32
      ensures e[i] == r[i]
    {
      var j := 32 * k + i;
      assert j / 512 == k / 16 && j % 512 == 32 * (k % 16) + i;
    }
  }

  // ---- Entries ----

  lemma {:induction false} TrimPadded(text: seq<byte>, n: nat)
    requires text != [] ==> text[|text| - 1] != 0x20
    ensures Trim(text + Spaces(n)) == text
  {
    var s := text + Spaces(n);
    if n > 0 {
      TrimPadded(text, n - 1);
      assert s[..|s| - 1] == text + Spaces(n - 1);
    } else {
      assert s == text;
    }
  }

  lemma CStrWhole(s: seq<byte>)
    requires 0 !in s
    ensures CStr(s) == s
  {
    assert forall i :: 0 <= i < |s| ==> s[i] != 0;
  }

  lemma PaddedText(field: seq<byte>, text: seq<byte>)
    requires Padded(field, text)
    ensures Trim(CStr(field)) == text
  {
    hide CStr, Trim;
    CStrWhole(field);
    TrimPadded(text, |field| - |text|);
  }

  function Entered(s: Slot): FatFile
    requires s.File? && |s.data| < 0x1_0000_0000
  {
    FatFile(s.Name(), s.first, |s.data|, s.attr)
  }

  /** An entry of the format is listed as what it is. */
  lemma EntryMeans(e: RawEntry, s: Slot)
    requires EntryIs(e, s)
    ensures s.Other? ==> !IsFile(e)
    ensures s.File? ==> |s.data| < 0x1_0000_0000 && IsFile(e) && FileOf(e) == Entered(s)
  {
    hide Le, Trim, CStr, Padded;
    if s.File? {
      PaddedText(e[..8], s.base);
      PaddedText(e[8..11], s.ext);
      Le2(e, 20);
      Le2(e, 26);
      Le4(e, 28);
    }
  }

  // ---- Listing the root directory ----

  /** Listed files with the names, attributes, first clusters and sizes of those of the disk. */
  predicate Matches(listed: seq<FatFile>, fs: seq<Slot>)
    requires forall i :: 0 <= i < |fs| ==> fs[i].File?
  {
    && |listed| == |fs|
    && forall i :: 0 <= i < |fs| ==>
         && listed[i].name == fs[i].Name() && listed[i].attr == fs[i].attr
         && listed[i].firstCluster == fs[i].first && listed[i].size == |fs[i].data|
  }

  lemma MatchesMore(listed: seq<FatFile>, fs: seq<Slot>, f: FatFile, s: Slot)
    requires (forall i :: 0 <= i < |fs| ==> fs[i].File?) && Matches(listed, fs)
    requires s.File? && |s.data| < 0x1_0000_0000 && f == Entered(s)
    ensures Matches(listed + [f], fs + [s])
  {
  }

  lemma FilesNext(slots: seq<Slot>, n: nat)
    requires 0 < n <= |slots|
    ensures FilesOf(slots[..n]) == FilesOf(slots[..n - 1]) + if slots[n - 1].File? then [slots[n - 1]] else []
  {
    assert slots[..n][..n - 1] == slots[..n - 1];
  }

  lemma {:induction false} ListedUpTo(d: Blocks, lbas: seq<u32>, slots: seq<Slot>, n: nat)
    requires n <= |slots| && |slots| <= 16 * |lbas|
    requires forall k: nat :: k < |slots| ==> EntryIs(RawAt(d, lbas, k), slots[k])
    ensures Matches(Listed(RawEntries(d, lbas, n)), FilesOf(slots[..n]))
  {
    hide RawAt, EntryIs, IsFile, FileOf, Entered, Matches, FilesOf;
    if n > 0 {
      var e, s := RawAt(d, lbas, n - 1), slots[n - 1];
      ListedUpTo(d, lbas, slots, n - 1);
      ListedNext(d, lbas, n - 1);
      FilesNext(slots, n);
      EntryMeans(e, s);
      if s.File? {
        MatchesMore(Listed(RawEntries(d, lbas, n - 1)), FilesOf(slots[..n - 1]), FileOf(e), s);
      } else {
        var listed, files := Listed(RawEntries(d, lbas, n - 1)), FilesOf(slots[..n - 1]);
        assert listed + [] == listed && files + [] == files;
      }
    } else {
      NothingListed(slots);
    }
  }

  lemma NothingListed(slots: seq<Slot>)
    ensures FilesOf(slots[..0]) == [] && Matches([], [])
  {
  }

  /** The directory as the driver sees it: its entries, and its end. */
  lemma DirectorySeen(d: Blocks, g: Geometry, root: seq<u32>, slots: seq<Slot>)
    requires Holds(d, g, root, slots)
    ensures var lbas := Sectors(InfoFor(g), root);
      EndsAt(d, lbas, |slots|) && forall k: nat :: k < |slots| ==> EntryIs(RawAt(d, lbas, k), slots[k])
  {
    hide FirstBytes, RawAt, EntryIs;
    ChainSectors(d, g, root);
    var lbas, dir := Sectors(InfoFor(g), root), ChainBytes(d, g, root);
    forall k: nat | k < 16 * |lbas|
      ensures RawAt(d, lbas, k) == EntryOf(dir, k)
    {
      RawIsEntry(d, lbas, k);
    }
    forall k: nat | k < |slots|
      ensures EntryIs(RawAt(d, lbas, k), slots[k]) && RawAt(d, lbas, k)[0] != 0
    {
      assert EntryIs(EntryOf(dir, k), slots[k]);
      NotTheEnd(EntryOf(dir, k), slots[k]);
    }
  }

  lemma NotTheEnd(e: RawEntry, s: Slot)
    requires EntryIs(e, s)
    ensures e[0] != 0
  {
  }

  /** A whole scan of the root lists exactly the files of the disk. */
  lemma ScanListsFiles(d: Blocks, g: Geometry, root: seq<u32>, slots: seq<Slot>, cs: seq<u32>, n: nat)
    requires Holds(d, g, root, slots) && |root| <= 256 && RootScan(d, InfoFor(g), cs, n)
    ensures Matches(Listed(RawEntries(d, Sectors(InfoFor(g), cs), n)), FilesOf(slots))
  {
    hide RawAt, RawEntries, EntryIs, Listed, Next, Sectors, Link, BootFields;
    DriverChain(d, g, root);
    DirectorySeen(d, g, root, slots);
    ScanSeesWholeRoot(d, InfoFor(g), cs, n, root, |slots|);
    ListedUpTo(d, Sectors(InfoFor(g), root), slots, |slots|);
    assert slots[..|slots|] == slots;
  }

  /** Where no read is refused such a disk is never left unmounted. */
  lemma VolumeIsMounted(d: Blocks, g: Geometry, root: seq<u32>, slots: seq<Slot>, cs: seq<u32>, n: nat, lba: nat, log: seq<nat>)
    requires Holds(d, g, root, slots) && |root| <= 256
    ensures !NotMounted(d, cs, n, lba, log, log)
  {
    hide RawAt, EntryIs, Next, Sectors, Link, FatSector, Directory, FirstBytes, NoMarker, BootFields;
    var info := InfoFor(g);
    BootIsUsable(At(d, 0), g);
    DriverChain(d, g, root);
    ChainSectors(d, g, root);
    if RootWalk(d, info, cs) {
      EndedChainIsLongest(d, info, cs, root);
      ChainPrefix(d, info, cs, root);
      var last := |cs| - 1;
      assert |cs| < |root| ==> Next(d, info, root[last]) == root[|cs|];
      if n < 16 * |Sectors(info, cs)| {
        assert Sectors(info, cs)[n / 16] == Sectors(info, root)[n / 16];
      }
    }
  }

  lemma VolumeStaysMounted(d: Blocks, g: Geometry, root: seq<u32>, slots: seq<Slot>)
    requires Holds(d, g, root, slots) && |root| <= 256
    ensures forall cs, n: nat, lba: nat, log :: !NotMounted(d, cs, n, lba, log, log)
  {
    hide NotMounted, Holds;
    forall cs, n: nat, lba: nat, log
      ensures !NotMounted(d, cs, n, lba, log, log)
    {
      VolumeIsMounted(d, g, root, slots, cs, n, lba, log);
    }
  }

  // ---- Reading a file ----

  lemma {:induction false} ChainLength(g: Geometry, cs: seq<u32>)
    requires g.Ok()
    ensures |Sectors(InfoFor(g), cs)| == |cs| * g.spc
  {
    if cs != [] {
      ChainLength(g, cs[..|cs| - 1]);
      OneMoreTimes(|cs| - 1, g.spc);
    }
  }

  /** The clusters of a file cover what is wanted of it, and the driver's bytes along them are its data. */
  lemma FileCovered(d: Blocks, g: Geometry, s: Slot, want: nat) returns (full: seq<u32>)
    requires g.Ok() && s.File? && FileData(d, g, s) && 0 < want <= |s.data| && want <= 4096 * g.spc * 512
    ensures Covers(d, InfoFor(g), s.first, want, full) && Addressable(InfoFor(g), full)
    ensures FirstBytes(d, Sectors(InfoFor(g), full), want) == s.data[..want]
  {
    hide Next, FatSector, Link, FirstBytes, Sectors;
    var cs, info := s.clusters, InfoFor(g);
    full := if |cs| <= 4096 then cs else cs[..4096];
    DriverChain(d, g, cs);
    ChainSectors(d, g, cs);
    ChainSectors(d, g, full);
    ChainLength(g, full);
    ChainLength(g, cs);
    SectorsPrefix(info, full, cs);
    var lbas, all := Sectors(info, full), Sectors(info, cs);
    FirstBytesPrefix(d, lbas, all, want);
    FirstOfFirst(d, all, want, 512 * |all|);
    assert s.data[..want] == ChainBytes(d, g, cs)[..want];
    assert forall i :: 0 <= i < |full| ==> full[i] == cs[i];
  }

  lemma FirstOfFirst(d: Blocks, lbas: seq<u32>, n: nat, m: nat)
    requires n <= m <= 512 * |lbas|
    ensures FirstBytes(d, lbas, m)[..n] == FirstBytes(d, lbas, n)
  {
  }

  /** What a read delivers of a file of the disk. */
  lemma DeliveryIsData(d: Blocks, g: Geometry, s: Slot, f: FatFile, maxlen: u32, ok: bool, out: seq<byte>)
    requires g.Ok() && s.File? && FileData(d, g, s) && maxlen <= |out|
    requires f.firstCluster == s.first && f.size == |s.data| && Wanted(f, maxlen) <= 4096 * g.spc * 512
    requires DeliversFile(d, InfoFor(g), f, maxlen, true, ok, out) && (Wanted(f, maxlen) == 0 ==> ok)
    ensures ok && out[..Wanted(f, maxlen)] == s.data[..Wanted(f, maxlen)]
  {
    hide FirstBytes, Sectors, FileData, Addressable;
    var want := Wanted(f, maxlen);
    if want > 0 {
      var full := FileCovered(d, g, s, want);
      assert Delivers(d, InfoFor(g), want, full, true, ok, out);
    }
  }

  /** Index of the first file with a name, or the number of files. */
  function FirstNamed(fs: seq<Slot>, name: seq<byte>): (k: nat)
    requires forall i :: 0 <= i < |fs| ==> fs[i].File?
    ensures k <= |fs| && (k < |fs| ==> fs[k].Name() == name) && forall i :: 0 <= i < k ==> fs[i].Name() != name
  {
    if fs == [] || fs[0].Name() == name then 0 else 1 + FirstNamed(fs[1..], name)
  }

  /** Looking a name up in the listing finds the first file of the disk that has it. */
  lemma FoundByName(listed: seq<FatFile>, fs: seq<Slot>, name: seq<byte>)
    requires (forall i :: 0 <= i < |fs| ==> fs[i].File?) && Matches(listed, fs)
    ensures IndexOf(listed, name) == FirstNamed(fs, name)
  {
    var j, k := IndexOf(listed, name), FirstNamed(fs, name);
    assert j < |fs| ==> listed[j].name == fs[j].Name();
    assert k < |fs| ==> listed[k].name == fs[k].Name();
  }

  /** As many of the files as are listed. */
  function Shown(slots: seq<Slot>): (fs: seq<Slot>)
    ensures forall i :: 0 <= i < |fs| ==> fs[i].File? && fs[i] in slots
  {
    var fs := FilesOf(slots);
    if |fs| <= 128 then fs else fs[..128]
  }

  lemma RootIsShown(d: Blocks, g: Geometry, root: seq<u32>, slots: seq<Slot>, listed: seq<FatFile>)
    requires g.Ok() && Holds(d, g, root, slots) && |root| <= 256 && ListsRoot(d, InfoFor(g), listed)
    ensures Matches(listed, Shown(slots))
  {
    hide Holds, Matches, Listed, RawEntries, RawAt, Next;
    var cs, n: nat :| RootScan(d, InfoFor(g), cs, n) &&
      listed == Capped(Listed(RawEntries(d, Sectors(InfoFor(g), cs), n)));
    ScanListsFiles(d, g, root, slots, cs, n);
    ShownMatches(Listed(RawEntries(d, Sectors(InfoFor(g), cs), n)), slots);
  }

  lemma ShownData(d: Blocks, g: Geometry, root: seq<u32>, slots: seq<Slot>, k: nat)
    requires Holds(d, g, root, slots) && k < |Shown(slots)|
    ensures g.Ok() && FileData(d, g, Shown(slots)[k])
  {
    hide FileData, Directory, BootFields;
  }

  lemma VolumeInfo(d: Blocks, g: Geometry, root: seq<u32>, slots: seq<Slot>)
    requires Holds(d, g, root, slots)
    ensures g.Ok() && InfoOf(At(d, 0)) == InfoFor(g)
  {
    BootIsUsable(At(d, 0), g);
  }

  lemma ShownMatches(listed: seq<FatFile>, slots: seq<Slot>)
    requires Matches(listed, FilesOf(slots))
    ensures Matches(Capped(listed), Shown(slots))
  {
  }
}
