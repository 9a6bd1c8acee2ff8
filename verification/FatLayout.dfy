/** The read-only FAT32 side: boot sector, cluster chains and 8.3 directory entries. */
module FatLayout {
  import opened Bytes
  import opened BlockDevice

  const END_OF_CHAIN: u32 := 0x0FFF_FFF8
  const MAX_LISTED: nat := 128

  datatype FatInfo = FatInfo(sectorsPerCluster: byte, fatStart: u32, dataStart: u32, rootCluster: u32)

  datatype FatFile = FatFile(name: seq<byte>, firstCluster: u32, size: u32, attr: byte)

  predicate IsBootSector(b: Sector) {
    && b[510] == 0x55 && b[511] == 0xAA
    && Rd16(b, 11) == 512 && Rd16(b, 17) == 0 && Rd16(b, 22) == 0 && Rd32(b, 36) != 0
    && b[82] == 0x46 && b[83] == 0x41 && b[84] == 0x54 && b[85] == 0x33 && b[86] == 0x32
  }

  predicate UsableBootSector(b: Sector) {
    IsBootSector(b) && b[13] != 0 && b[16] != 0 && Rd32(b, 44) >= 2
  }

  function InfoOf(b: Sector): FatInfo {
    FatInfo(b[13], Rd16(b, 14), U32(Rd16(b, 14) + U32(b[16] * Rd32(b, 36))), Rd32(b, 44))
  }

  // ---- Cluster chains ----

  function ClusterLba(info: FatInfo, cluster: u32): u32 {
    U32(info.dataStart + ((if cluster < 2 then 2 else cluster) - 2) * info.sectorsPerCluster)
  }

  function FatSector(info: FatInfo, cluster: u32): u32 {
    U32(info.fatStart + U32(cluster * 4) / 512)
  }

  /** The FAT's 28-bit link of a cluster. */
  function Next(d: Blocks, info: FatInfo, cluster: u32): u32 {
    Rd32(At(d, FatSector(info, cluster)), U32(cluster * 4) % 512) % 0x1000_0000
  }

  /** A run of clusters, each linked to the one after it. */
  predicate IsChain(d: Blocks, info: FatInfo, cs: seq<u32>) {
    forall i :: 1 <= i < |cs| ==> Next(d, info, cs[i - 1]) == cs[i] && 2 <= cs[i] < END_OF_CHAIN
  }

  /** Two chains from one cluster differ only in how far they go. */
  lemma {:induction false} ChainsAgree(d: Blocks, info: FatInfo, a: seq<u32>, b: seq<u32>, k: nat)
    requires IsChain(d, info, a) && IsChain(d, info, b)
    requires k < |a| && k < |b| && a[0] == b[0]
    ensures a[k] == b[k]
  {
    if k > 0 {
      ChainsAgree(d, info, a, b, k - 1);
    }
  }

  function ClusterSectors(info: FatInfo, cluster: u32, n: nat): (lbas: seq<u32>)
    ensures |lbas| == n
  {
    seq<u32>(n, (s: nat) => U32(ClusterLba(info, cluster) + s))
  }

  /** The sectors of a run of clusters, in reading order. */
  function Sectors(info: FatInfo, cs: seq<u32>): (lbas: seq<u32>) {
    if cs == [] then []
    else Sectors(info, cs[..|cs| - 1]) + ClusterSectors(info, cs[|cs| - 1], info.sectorsPerCluster)
  }

  lemma SectorsNext(info: FatInfo, cs: seq<u32>, c: u32)
    ensures Sectors(info, cs + [c]) == Sectors(info, cs) + ClusterSectors(info, c, info.sectorsPerCluster)
  {
    assert (cs + [c])[..|cs|] == cs;
  }

  lemma {:induction false} SectorsPrefix(info: FatInfo, a: seq<u32>, b: seq<u32>)
    requires a <= b
    ensures Sectors(info, a) <= Sectors(info, b)
  {
    if |a| < |b| {
      SectorsPrefix(info, a, b[..|b| - 1]);
    } else {
      assert a == b;
    }
  }

  /** Byte `i` of the concatenated sectors. */
  function ByteOf(d: Blocks, lbas: seq<u32>, i: nat): byte
    requires i < 512 * |lbas|
  {
    At(d, lbas[i / 512])[i % 512]
  }

  lemma {:induction false} ChainPrefix(d: Blocks, info: FatInfo, a: seq<u32>, b: seq<u32>)
    requires IsChain(d, info, a) && IsChain(d, info, b)
    requires |a| <= |b| && (a != [] ==> a[0] == b[0])
    ensures a <= b && Sectors(info, a) <= Sectors(info, b)
  {
    forall k: nat | k < |a|
      ensures a[k] == b[k]
    {
      ChainsAgree(d, info, a, b, k);
    }
    SectorsPrefix(info, a, b);
  }

  /** A chain of at most 4096 clusters that holds the first `want` bytes of a file. */
  predicate Covers(d: Blocks, info: FatInfo, first: u32, want: nat, full: seq<u32>) {
    && IsChain(d, info, full) && 0 < |full| <= 4096 && full[0] == first
    && want <= 512 * |Sectors(info, full)|
  }

  /** All sectors a read of the chain touches can be addressed by the drive. */
  predicate Addressable(info: FatInfo, full: seq<u32>) {
    && (forall lba :: lba in Sectors(info, full) ==> lba < LBA28_LIMIT)
    && (forall c :: c in full ==> FatSector(info, c) < LBA28_LIMIT)
  }

  /** The clusters a chain read has visited: a chain from the first, each visited because bytes were wanted. */
  predicate Visited(d: Blocks, info: FatInfo, first: u32, want: nat, cs: seq<u32>) {
    && IsChain(d, info, cs) && (cs != [] ==> cs[0] == first)
    && (cs != [] ==> 512 * |Sectors(info, cs[..|cs| - 1])| < want)
  }

  /** Where a chain read stopped. */
  predicate StoppedRead(d: Blocks, info: FatInfo, first: u32, want: nat, cs: seq<u32>) {
    Visited(d, info, first, want, cs) && |cs| <= 4096 && (want > 0 ==> cs != [])
  }

  /** The next cluster, reached by the link of the last one while bytes are wanted. */
  predicate Follows(d: Blocks, info: FatInfo, first: u32, cs: seq<u32>, c: u32) {
    if cs == [] then c == first else Next(d, info, cs[|cs| - 1]) == c && 2 <= c < END_OF_CHAIN
  }

  lemma VisitNext(d: Blocks, info: FatInfo, first: u32, want: nat, cs: seq<u32>, c: u32)
    requires Visited(d, info, first, want, cs) && Follows(d, info, first, cs, c) && 512 * |Sectors(info, cs)| < want
    ensures Visited(d, info, first, want, cs + [c])
    ensures Sectors(info, cs + [c]) == Sectors(info, cs) + ClusterSectors(info, c, info.sectorsPerCluster)
  {
    hide Next, Sectors, ClusterSectors;
    SectorsNext(info, cs, c);
    assert (cs + [c])[..|cs|] == cs;
  }

  /** The first `n` bytes of the concatenated sectors. */
  function FirstBytes(d: Blocks, lbas: seq<u32>, n: nat): (r: seq<byte>)
    requires n <= 512 * |lbas|
    ensures |r| == n
  {
    seq<byte>(n, i requires 0 <= i < n => ByteOf(d, lbas, i))
  }

  lemma FirstBytesPrefix(d: Blocks, a: seq<u32>, b: seq<u32>, n: nat)
    requires a <= b && n <= 512 * |a|
    ensures FirstBytes(d, a, n) == FirstBytes(d, b, n)
  {
  }

  lemma FirstBytesNext(d: Blocks, lbas: seq<u32>, s: nat, k: nat)
    requires s < |lbas| && k <= 512
    ensures FirstBytes(d, lbas, 512 * s + k) == FirstBytes(d, lbas, 512 * s) + At(d, lbas[s])[..k]
  {
    forall i | 512 * s <= i < 512 * s + k
      ensures ByteOf(d, lbas, i) == At(d, lbas[s])[..k][i - 512 * s]
    {
      assert i / 512 == s && i % 512 == i - 512 * s;
    }
  }

  /** The chain ends, or the budget of 4096 clusters does, before the wanted bytes. */
  predicate ChainExhausted(d: Blocks, info: FatInfo, want: nat, cs: seq<u32>)
    requires want > 0 ==> cs != []
  {
    && 512 * |Sectors(info, cs)| < want
    && (|cs| == 4096 || Next(d, info, cs[|cs| - 1]) >= END_OF_CHAIN)
  }

  /** A sector of the chain or of its FAT cannot be addressed, or a link is below 2. */
  predicate ChainBroken(d: Blocks, info: FatInfo, want: nat, cs: seq<u32>)
    requires want > 0 ==> cs != []
  {
    || (exists lba :: lba in Sectors(info, cs) && lba >= LBA28_LIMIT)
    || (512 * |Sectors(info, cs)| < want &&
        (FatSector(info, cs[|cs| - 1]) >= LBA28_LIMIT || Next(d, info, cs[|cs| - 1]) < 2))
  }

  /** If a covering chain exists at all, a read that stopped normally has delivered every wanted byte. */
  lemma ReadWholePrefix(d: Blocks, info: FatInfo, first: u32, want: nat, cs: seq<u32>, full: seq<u32>)
    requires StoppedRead(d, info, first, want, cs) && Covers(d, info, first, want, full)
    requires want <= 512 * |Sectors(info, cs)| || ChainExhausted(d, info, want, cs)
    ensures want <= 512 * |Sectors(info, cs)|
    ensures FirstBytes(d, Sectors(info, cs), want) == FirstBytes(d, Sectors(info, full), want)
  {
    hide FirstBytes, Sectors, Next;
    if |cs| <= |full| {
      ChainPrefix(d, info, cs, full);
      if |cs| < |full| && cs != [] {
        assert Next(d, info, full[|cs| - 1]) == full[|cs|];
      }
      assert |cs| == |full| ==> cs == full;
      FirstBytesPrefix(d, Sectors(info, cs), Sectors(info, full), want);
    } else {
      ChainPrefix(d, info, full, cs);
      FirstBytesPrefix(d, Sectors(info, full), Sectors(info, cs), want);
    }
  }

  /** On a reliable drive only a broken or unaddressable chain makes a read fail. */
  lemma ReadCannotFail(d: Blocks, info: FatInfo, first: u32, want: nat, cs: seq<u32>, full: seq<u32>)
    requires want > 0 && StoppedRead(d, info, first, want, cs) && Covers(d, info, first, want, full)
    requires ChainBroken(d, info, want, cs)
    ensures !Addressable(info, full)
  {
    hide Sectors, Next, FatSector;
    var k := |cs| - 1;
    if |full| <= k {
      ChainPrefix(d, info, full, cs[..k]);
    } else {
      ChainPrefix(d, info, cs, full);
      assert full[k] in full && full[k] == cs[k];
      if lba :| lba in Sectors(info, cs) && lba >= LBA28_LIMIT {
        assert lba in Sectors(info, full);
      } else {
        assert |cs| == |full| ==> cs == full;
        assert |cs| < |full| ==> Next(d, info, full[k]) == full[k + 1];
      }
    }
  }

  // ---- Directory entries ----

  type RawEntry = s: seq<byte> | |s| == 32 witness Zeros(32)

  /** Directory entry `k` of the concatenated sectors, 16 to a sector. */
  function RawAt(d: Blocks, lbas: seq<u32>, k: nat): RawEntry
    requires k < 16 * |lbas|
  {
    At(d, lbas[k / 16])[32 * (k % 16)..32 * (k % 16) + 32]
  }

  function RawEntries(d: Blocks, lbas: seq<u32>, n: nat): (es: seq<RawEntry>)
    requires n <= 16 * |lbas|
    ensures |es| == n
  {
    seq<RawEntry>(n, i requires 0 <= i < n => RawAt(d, lbas, i))
  }

  function Bit(b: byte, mask: nat): bool
    requires mask > 0
  {
    b / mask % 2 == 1
  }

  /** The text without its trailing spaces. */
  function Trim(s: seq<byte>): (r: seq<byte>)
    ensures r <= s
    ensures r != [] ==> r[|r| - 1] != 0x20
    ensures forall i :: |r| <= i < |s| ==> s[i] == 0x20
  {
    if s == [] || s[|s| - 1] != 0x20 then s else Trim(s[..|s| - 1])
  }

  /** The trimmed 8.3 name. */
  function ShortName(e: RawEntry): seq<byte> {
    var base, ext := Trim(CStr(e[..8])), Trim(CStr(e[8..11]));
    if ext == [] then base else base + [0x2E] + ext
  }

  /** A live short-name file: not deleted, not a long-name part, a label or a directory. */
  predicate IsFile(e: RawEntry) {
    && e[0] != 0xE5 && e[11] != 0x0F && !Bit(e[11], 0x08) && !Bit(e[11], 0x10)
    && ShortName(e) != []
  }

  function FileOf(e: RawEntry): FatFile {
    FatFile(ShortName(e), Rd16(e, 20) * 0x1_0000 + Rd16(e, 26), Rd32(e, 28), e[11])
  }

  function Listed(es: seq<RawEntry>): seq<FatFile> {
    if es == [] then []
    else
      var last := es[|es| - 1];
      Listed(es[..|es| - 1]) + (if IsFile(last) then [FileOf(last)] else [])
  }

  function Capped(fs: seq<FatFile>): seq<FatFile> {
    if |fs| <= MAX_LISTED then fs else fs[..MAX_LISTED]
  }

  lemma CappedNext(fs: seq<FatFile>, f: FatFile)
    ensures Capped(fs + [f]) == if |Capped(fs)| < MAX_LISTED then Capped(fs) + [f] else Capped(fs)
    ensures |Capped(fs)| <= MAX_LISTED
  {
  }

  /** Where the listing ends: the first entry that starts with a zero byte, or `n`. */
  predicate EndsAt(d: Blocks, lbas: seq<u32>, n: nat) {
    && n <= 16 * |lbas|
    && (forall k :: 0 <= k < n ==> RawAt(d, lbas, k)[0] != 0)
    && (n < 16 * |lbas| ==> RawAt(d, lbas, n)[0] == 0)
  }

  lemma ListedNext(d: Blocks, lbas: seq<u32>, n: nat)
    requires n < 16 * |lbas|
    ensures var e := RawAt(d, lbas, n);
      Listed(RawEntries(d, lbas, n + 1)) ==
      Listed(RawEntries(d, lbas, n)) + (if IsFile(e) then [FileOf(e)] else [])
  {
    hide IsFile, FileOf, RawAt;
    assert RawEntries(d, lbas, n + 1)[..n] == RawEntries(d, lbas, n);
  }

  /** The first `n` entries of a run of sectors do not depend on what follows the run. */
  lemma RawPrefix(d: Blocks, a: seq<u32>, b: seq<u32>, n: nat)
    requires a <= b && n <= 16 * |a|
    ensures RawEntries(d, a, n) == RawEntries(d, b, n)
    ensures forall k :: 0 <= k < 16 * |a| ==> RawAt(d, a, k) == RawAt(d, b, k)
  {
  }

  /** A walk along the root chain, of at most 256 clusters. */
  predicate RootWalk(d: Blocks, info: FatInfo, cs: seq<u32>) {
    IsChain(d, info, cs) && 0 < |cs| <= 256 && cs[0] == info.rootCluster
  }

  /** None of the first `n` entries is the end marker. */
  predicate NoMarker(d: Blocks, lbas: seq<u32>, n: nat)
    requires n <= 16 * |lbas|
  {
    forall k :: 0 <= k < n ==> RawAt(d, lbas, k)[0] != 0
  }

  lemma SectorInRun(info: FatInfo, cluster: u32, lbas: seq<u32>, at: nat, s: nat)
    requires at <= |lbas| && lbas[at..] == ClusterSectors(info, cluster, info.sectorsPerCluster)
    requires s < info.sectorsPerCluster
    ensures at + s < |lbas| && lbas[at + s] == U32(ClusterLba(info, cluster) + s)
  {
    assert lbas[at + s] == lbas[at..][s];
  }

  lemma AllScanned(d: Blocks, lbas: seq<u32>)
    ensures NoMarker(d, lbas, 16 * |lbas|) ==> EndsAt(d, lbas, 16 * |lbas|)
  {
    hide RawAt;
  }

  /** Entries in the clusters before the last. */
  function Before(info: FatInfo, cs: seq<u32>): nat
    requires cs != []
  {
    16 * |Sectors(info, cs[..|cs| - 1])|
  }

  /** A whole root scan: up to the end marker in the last cluster, the end of the chain, or 256 clusters. */
  predicate RootScan(d: Blocks, info: FatInfo, cs: seq<u32>, n: nat) {
    && RootWalk(d, info, cs) && EndsAt(d, Sectors(info, cs), n) && Before(info, cs) <= n
    && (n < 16 * |Sectors(info, cs)| || Next(d, info, cs[|cs| - 1]) >= END_OF_CHAIN ||
        (|cs| == 256 && Next(d, info, cs[|cs| - 1]) >= 2))
  }

  /** Every sector that such a scan reads, of the directory and of the FAT, can be addressed. */
  predicate ScanReadable(info: FatInfo, cs: seq<u32>, n: nat) {
    var lbas := Sectors(info, cs);
    && (forall i :: 0 <= i < |lbas| && 16 * i <= n ==> lbas[i] < LBA28_LIMIT)
    && (forall j :: 0 <= j < |cs| && (j < |cs| - 1 || n == 16 * |lbas|) ==> FatSector(info, cs[j]) < LBA28_LIMIT)
  }

  /** A scan that came as far as `n` entries and then needed sector `lba`. */
  predicate ScanAt(d: Blocks, info: FatInfo, cs: seq<u32>, n: nat, lba: nat) {
    var lbas := Sectors(info, cs);
    && RootWalk(d, info, cs) && Before(info, cs) <= n <= 16 * |lbas| && NoMarker(d, lbas, n)
    && (if n < 16 * |lbas| then n % 16 == 0 && lba == lbas[n / 16] else lba == FatSector(info, cs[|cs| - 1]))
  }

  /** A scan that came to a link below 2. */
  predicate BadLink(d: Blocks, info: FatInfo, cs: seq<u32>) {
    && RootWalk(d, info, cs) && NoMarker(d, Sectors(info, cs), 16 * |Sectors(info, cs)|)
    && Next(d, info, cs[|cs| - 1]) < 2
  }

  /**
   * Why a disk was not mounted, with the drive's log before and after: the boot sector could not be
   * read or does not serve, the scan came to a sector that was refused, or to a link below 2.
   */
  predicate NotMounted(d: Blocks, cs: seq<u32>, n: nat, lba: nat, before: seq<nat>, after: seq<nat>) {
    var boot := At(d, 0);
    || Refused(before, after, 0)
    || (!UsableBootSector(boot) && after == before)
    || (UsableBootSector(boot) && ScanAt(d, InfoOf(boot), cs, n, lba) && Refused(before, after, lba))
    || (UsableBootSector(boot) && BadLink(d, InfoOf(boot), cs) && after == before)
  }

  /** The disk has a root directory that can be scanned to its end. */
  ghost predicate Mountable(d: Blocks) {
    && UsableBootSector(At(d, 0))
    && exists cs, n :: RootScan(d, InfoOf(At(d, 0)), cs, n) && ScanReadable(InfoOf(At(d, 0)), cs, n)
  }

  /** The files of a whole scan of the root directory, as far as they are listed. */
  ghost predicate ListsRoot(d: Blocks, info: FatInfo, fs: seq<FatFile>) {
    exists cs, n :: RootScan(d, info, cs, n) && fs == Capped(Listed(RawEntries(d, Sectors(info, cs), n)))
  }

  /** No walk without an end marker gets past a whole scan. */
  lemma WalkInsideScan(d: Blocks, info: FatInfo, cs: seq<u32>, n: nat, full: seq<u32>, m: nat)
    requires RootWalk(d, info, cs) && Before(info, cs) <= n <= 16 * |Sectors(info, cs)|
    requires NoMarker(d, Sectors(info, cs), n) && RootScan(d, info, full, m)
    ensures cs <= full && n <= m && Sectors(info, cs) <= Sectors(info, full)
    ensures |cs| < |full| ==> Next(d, info, cs[|cs| - 1]) == full[|cs|] >= 2
  {
    hide RawAt, Next, Sectors;
    if |cs| <= |full| {
      ChainPrefix(d, info, cs, full);
      RawPrefix(d, Sectors(info, cs), Sectors(info, full), 0);
      assert |cs| < |full| ==> Next(d, info, full[|cs| - 1]) == full[|cs|];
    } else {
      ChainPrefix(d, info, full, cs);
      var front := cs[..|cs| - 1];
      ChainPrefix(d, info, full, front);
      RawPrefix(d, Sectors(info, full), Sectors(info, front), 0);
      SectorsPrefix(info, front, cs);
      RawPrefix(d, Sectors(info, full), Sectors(info, cs), 0);
      assert false;
    }
  }

  /** Where a whole scan can be read, none comes to an unaddressable sector. */
  lemma ScanCannotFail(d: Blocks, info: FatInfo, cs: seq<u32>, n: nat, lba: nat, full: seq<u32>, m: nat)
    requires RootScan(d, info, full, m) && ScanReadable(info, full, m) && ScanAt(d, info, cs, n, lba)
    ensures lba < LBA28_LIMIT
  {
    hide RawAt, Next, Sectors, FatSector, NoMarker;
    var lbas := Sectors(info, cs);
    WalkInsideScan(d, info, cs, n, full, m);
    if n < 16 * |lbas| {
      assert Sectors(info, full)[n / 16] == lbas[n / 16];
    } else {
      var j := |cs| - 1;
      assert FatSector(info, full[j]) == FatSector(info, cs[j]) == lba;
      assert j == |full| - 1 ==> cs == full;
      assert j == |full| - 1 ==> m == 16 * |Sectors(info, full)|;
    }
  }

  /** Nor to a link below 2. */
  lemma LinkIsGood(d: Blocks, info: FatInfo, cs: seq<u32>, full: seq<u32>, m: nat)
    requires RootWalk(d, info, cs) && NoMarker(d, Sectors(info, cs), 16 * |Sectors(info, cs)|)
    requires RootScan(d, info, full, m)
    ensures Next(d, info, cs[|cs| - 1]) >= 2
  {
    hide RawAt, Next, Sectors, NoMarker;
    BeforeIsLess(info, cs);
    WalkInsideScan(d, info, cs, 16 * |Sectors(info, cs)|, full, m);
    assert |cs| == |full| ==> cs == full;
  }

  lemma BeforeIsLess(info: FatInfo, cs: seq<u32>)
    requires cs != []
    ensures Before(info, cs) <= 16 * |Sectors(info, cs)|
  {
    SectorsPrefix(info, cs[..|cs| - 1], cs);
  }

  /** Without a refused read, only a disk that cannot be mounted is not. */
  lemma NotMountedIsUnmountable(d: Blocks, cs: seq<u32>, n: nat, lba: nat, log: seq<nat>)
    requires NotMounted(d, cs, n, lba, log, log)
    ensures !Mountable(d)
  {
    hide ScanAt, BadLink, RootScan, ScanReadable;
    var info := InfoOf(At(d, 0));
    forall full, m | RootScan(d, info, full, m) && ScanReadable(info, full, m)
      ensures !(ScanAt(d, info, cs, n, lba) && lba >= LBA28_LIMIT) && !BadLink(d, info, cs)
    {
      if ScanAt(d, info, cs, n, lba) {
        ScanCannotFail(d, info, cs, n, lba, full, m);
      }
      NoBadLink(d, info, cs, full, m);
    }
  }

  lemma NoBadLink(d: Blocks, info: FatInfo, cs: seq<u32>, full: seq<u32>, m: nat)
    requires RootScan(d, info, full, m)
    ensures !BadLink(d, info, cs)
  {
    if RootWalk(d, info, cs) && NoMarker(d, Sectors(info, cs), 16 * |Sectors(info, cs)|) {
      LinkIsGood(d, info, cs, full, m);
    }
  }

  lemma EndsOnce(d: Blocks, lbas: seq<u32>, n: nat, m: nat)
    requires EndsAt(d, lbas, n) && EndsAt(d, lbas, m)
    ensures n == m
  {
  }

  /** On a root chain that ends within 256 clusters the scan has seen the whole listing. */
  lemma ScanSeesWholeRoot(d: Blocks, info: FatInfo, cs: seq<u32>, n: nat, full: seq<u32>, m: nat)
    requires RootScan(d, info, cs, n)
    requires IsChain(d, info, full) && 0 < |full| <= 256 && full[0] == info.rootCluster
    requires Next(d, info, full[|full| - 1]) >= END_OF_CHAIN && EndsAt(d, Sectors(info, full), m)
    ensures n == m && RawEntries(d, Sectors(info, cs), n) == RawEntries(d, Sectors(info, full), m)
  {
    hide RawEntries, RawAt, Next, Sectors;
    var a, b := Sectors(info, cs), Sectors(info, full);
    EndedChainIsLongest(d, info, cs, full);
    ChainPrefix(d, info, cs, full);
    RawPrefix(d, a, b, n);
    if |cs| == |full| {
      assert cs == full;
    } else {
      assert Next(d, info, full[|cs| - 1]) == full[|cs|];
      assert n < 16 * |a|;
    }
    EndsOnce(d, b, n, m);
  }

  lemma EndedChainIsLongest(d: Blocks, info: FatInfo, cs: seq<u32>, full: seq<u32>)
    requires IsChain(d, info, cs) && IsChain(d, info, full) && cs != [] && full != [] && cs[0] == full[0]
    requires Next(d, info, full[|full| - 1]) >= END_OF_CHAIN
    ensures |cs| <= |full|
  {
    hide Next;
    if |cs| > |full| {
      assert Next(d, info, cs[|full| - 1]) == cs[|full|];
      ChainsAgree(d, info, cs, full, |full| - 1);
    }
  }

  // ---- Finding and reading a listed file ----

  /** Index of the first file called `name`, or the number of files. */
  function IndexOf(fs: seq<FatFile>, name: seq<byte>): (i: nat)
    ensures i <= |fs| && (i < |fs| ==> fs[i].name == name)
    ensures forall k :: 0 <= k < i ==> fs[k].name != name
  {
    if fs == [] || fs[0].name == name then 0 else 1 + IndexOf(fs[1..], name)
  }

  function Wanted(f: FatFile, maxlen: u32): u32 {
    if f.size > maxlen then maxlen else f.size
  }

  /** A read delivers the wanted prefix of the chain `full`, and fails only for a stated reason. */
  predicate Delivers(d: Blocks, info: FatInfo, want: nat, full: seq<u32>, reliable: bool, ok: bool, out: seq<byte>)
    requires want <= |out| && want <= 512 * |Sectors(info, full)|
  {
    && (ok ==> out[..want] == FirstBytes(d, Sectors(info, full), want))
    && (reliable && Addressable(info, full) ==> ok)
  }

  /** A read of a listed file, along whatever chain covers what is wanted of it. */
  ghost predicate DeliversFile(d: Blocks, info: FatInfo, f: FatFile, maxlen: u32, reliable: bool, ok: bool, out: seq<byte>)
    requires maxlen <= |out|
  {
    forall full | Covers(d, info, f.firstCluster, Wanted(f, maxlen), full) ::
      Delivers(d, info, Wanted(f, maxlen), full, reliable, ok, out)
  }
}
