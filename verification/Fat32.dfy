/** The FAT32 driver as it runs: the fields it fills at mount and the loops that walk the disk. */
module Fat32 {
  import opened Bytes
  import opened BlockDevice
  import opened FatLayout

  /** Removes trailing spaces from a NUL-terminated field, in place. */
  method TrimSpace(s: array<byte>)
    requires 0 in s[..]
    modifies s
    ensures CStr(s[..]) == Trim(CStr(old(s[..]))) && 0 in s[..]
  {
    hide CStr;
    ghost var was := s[..];
    var n := 0;
    while s[n] != 0
      invariant 0 <= n < s.Length
      invariant 0 !in s[..n]
      decreases s.Length - n
    {
      assert s[..n + 1] == s[..n] + [s[n]];
      n := n + 1;
    }
    CStrIs(was, n);
    ghost var text := was[..n];
    while n != 0 && s[n - 1] == 0x20
      invariant 0 <= n <= |text| < s.Length && s[n] == 0
      invariant s[..n] == text[..n]
      invariant Trim(text[..n]) == Trim(text)
    {
      assert text[..n][..n - 1] == text[..n - 1];
      assert text[..n][n - 1] == s[..n][n - 1];
      s[n - 1] := 0;
      n := n - 1;
    }
    CStrIs(s[..], n);
  }

  /** The trimmed 8.3 name of a directory entry. */
  method BuildShortName(ent: RawEntry) returns (name: seq<byte>)
    ensures name == ShortName(ent)
  {
    hide Trim, CStr;
    var base := new byte[9](i requires 0 <= i => if i < 8 then ent[i] else 0);
    var ext := new byte[4](i requires 0 <= i => if i < 3 then ent[8 + i] else 0);
    FieldText(base[..], ent[..8]);
    FieldText(ext[..], ent[8..11]);
    TrimSpace(base);
    TrimSpace(ext);
    name := [];
    var i := 0;
    while base[i] != 0 && |name| + 1 < 32
      invariant 0 <= i < 9 && 0 !in base[..i] && name == base[..i]
      decreases 9 - i
    {
      assert base[..i + 1] == base[..i] + [base[i]];
      name := name + [base[i]];
      i := i + 1;
    }
    CStrIs(base[..], i);
    ghost var stem := name;
    if ext[0] != 0 && |name| + 1 < 32 {
      name := name + [0x2E];
      i := 0;
      while ext[i] != 0 && |name| + 1 < 32
        invariant 0 <= i < 4 && 0 !in ext[..i] && name == stem + [0x2E] + ext[..i] && |stem| < 9
        decreases 4 - i
      {
        assert ext[..i + 1] == ext[..i] + [ext[i]];
        name := name + [ext[i]];
        i := i + 1;
      }
      CStrIs(ext[..], i);
    } else {
      CStrIs(ext[..], 0);
    }
  }

  /** Copying a field and appending a NUL keeps its text. */
  lemma FieldText(s: seq<byte>, field: seq<byte>)
    requires s == field + [0]
    ensures CStr(s) == CStr(field) && 0 in s
  {
    var t := CStr(field);
    if |t| < |field| {
      assert s[..|t|] == t && s[|t|] == 0;
    } else {
      assert t == field;
    }
    assert s[..|t|] == t;
    CStrIs(s, |t|);
    assert s[|field|] == 0;
  }

  class FatVolume {
    const dev: Device
    var info: FatInfo
    const files: array<FatFile>
    var count: nat

    ghost predicate Valid()
      reads this, files
    {
      files.Length == MAX_LISTED && count <= MAX_LISTED
    }

    ghost function Files(): seq<FatFile>
      requires Valid()
      reads this, files
    {
      files[..count]
    }

    constructor (dev: Device)
      ensures Valid() && this.dev == dev && fresh(files) && count == 0
    {
      this.dev := dev;
      info := FatInfo(0, 0, 0, 0);
      files := new FatFile[MAX_LISTED](_ => FatFile([], 0, 0, 0));
      count := 0;
    }

    method GetFatEntry(cluster: u32) returns (ok: bool, next: u32)
      modifies dev`refusals
      ensures ok ==> next == Next(dev.blocks, info, cluster) && FatSector(info, cluster) < LBA28_LIMIT
      ensures ok || dev.reliable ==> dev.refusals == old(dev.refusals)
      ensures !ok ==> Refused(old(dev.refusals), dev.refusals, FatSector(info, cluster))
    {
      hide U32, Rd32, At;
      EntryOffset(cluster);
      var fatOff := U32(cluster * 4);
      var buf := new byte[512](_ => 0);
      ok := dev.ReadSector(U32(info.fatStart + fatOff / 512), buf);
      next := 0;
      if ok {
        next := Rd32(buf[..], fatOff % 512) % 0x1000_0000;
      }
    }

    /** Lists one directory entry. */
    method AddEntry(ent: RawEntry, ghost fs: seq<FatFile>)
      requires Valid() && Files() == Capped(fs)
      modifies this`count, files
      ensures Valid() && Files() == Capped(fs + (if IsFile(ent) then [FileOf(ent)] else []))
    {
      hide ShortName;
      assert fs + [] == fs;
      CappedNext(fs, FileOf(ent));
      if ent[0] == 0xE5 || ent[11] == 0x0F || Bit(ent[11], 0x08) || Bit(ent[11], 0x10) {
        return;
      }
      if count >= MAX_LISTED {
        return;
      }
      var name := BuildShortName(ent);
      if name == [] {
        return;
      }
      files[count] := FatFile(name, Rd16(ent, 20) * 0x1_0000 + Rd16(ent, 26), Rd32(ent, 28), ent[11]);
      count := count + 1;
    }

    /** Lists the 16 entries of sector `s` of the root directory, up to the end marker. */
    method ScanSector(sec: array<byte>, ghost lbas: seq<u32>, ghost s: nat) returns (ended: bool, ghost n: nat)
      requires Valid() && sec.Length == 512 && s < |lbas| && sec[..] == At(dev.blocks, lbas[s])
      requires Files() == Capped(Listed(RawEntries(dev.blocks, lbas, 16 * s)))
      requires NoMarker(dev.blocks, lbas, 16 * s)
      modifies this`count, files
      ensures Valid() && 16 * s <= n <= 16 * s + 16
      ensures Files() == Capped(Listed(RawEntries(dev.blocks, lbas, n)))
      ensures NoMarker(dev.blocks, lbas, n)
      ensures if ended then n < 16 * s + 16 && EndsAt(dev.blocks, lbas, n) else n == 16 * s + 16
    {
      hide RawEntries, Listed, IsFile, FileOf, Capped;
      ghost var d := dev.blocks;
      var bytes := sec[..];
      n := 16 * s;
      var off := 0;
      while off + 32 <= 512
        invariant 0 <= off <= 512 && off % 32 == 0 && n == 16 * s + off / 32
        invariant Valid() && Files() == Capped(Listed(RawEntries(d, lbas, n)))
        invariant NoMarker(d, lbas, n)
      {
        var ent := bytes[off..off + 32];
        assert n / 16 == s && 32 * (n % 16) == off;
        assert ent == RawAt(d, lbas, n);
        if ent[0] == 0 {
          return true, n;
        }
        ListedNext(d, lbas, n);
        AddEntry(ent, Listed(RawEntries(d, lbas, n)));
        n := n + 1;
        off := off + 32;
      }
      ended := false;
    }

    /**
     * Mounts a FAT32 disk: checks the boot sector and lists the root directory. `cs` is the
     * clusters scanned and `n` the number of directory entries before the scan stopped. It succeeds
     * after a whole scan, and fails for a reason that the disk or the drive's log shows; `stuck` is
     * the sector it could not read.
     */
    method MountAndScanRoot() returns (ok: bool, ghost cs: seq<u32>, ghost n: nat, ghost stuck: nat)
      requires Valid()
      modifies this`info, this`count, files, dev`refusals
      ensures Valid()
      ensures ok || dev.reliable ==> dev.refusals == old(dev.refusals)
      ensures ok ==> UsableBootSector(At(dev.blocks, 0)) && info == InfoOf(At(dev.blocks, 0))
      ensures ok ==> RootScan(dev.blocks, info, cs, n) && ScanReadable(info, cs, n)
      ensures ok ==> Files() == Capped(Listed(RawEntries(dev.blocks, Sectors(info, cs), n)))
      ensures !ok ==> NotMounted(dev.blocks, cs, n, stuck, old(dev.refusals), dev.refusals)
    {
      hide RawEntries, Listed, Next, Capped, Sectors, RawAt, FatSector, RootScan, ScanReadable, ScanAt, BadLink, Scanning;
      cs, n, stuck := [], 0, 0;
      ghost var d := dev.blocks;
      var b := new byte[512](_ => 0);
      ok := dev.ReadSector(0, b);
      if !ok {
        return;
      }
      var boot: Sector := b[..];
      if !IsBootSector(boot) {
        ok := false;
        return;
      }
      info := InfoOf(boot);
      if boot[13] == 0 || boot[16] == 0 || Rd32(boot, 44) < 2 {
        ok := false;
        return;
      }
      count := 0;
      EmptyListing(d, info);
      StartScan(d, info);
      var cluster: u32 := info.rootCluster;
      var budget := 256;
      while budget > 0
        invariant 0 <= budget <= 256 && |cs| == 256 - budget && info == InfoOf(boot)
        invariant dev.refusals == old(dev.refusals) && n == 16 * |Sectors(info, cs)|
        invariant budget > 0 ==> Scanning(d, info, cs, cluster)
        invariant budget == 0 ==> RootScan(d, info, cs, n) && ScanReadable(info, cs, n)
        invariant Valid() && Files() == Capped(Listed(RawEntries(d, Sectors(info, cs), n)))
        decreases budget
      {
        budget := budget - 1;
        var done, next;
        ok, done, next, n, stuck := ScanLink(cluster, cs);
        cs := cs + [cluster];
        if !ok || done {
          return;
        }
        cluster := next;
      }
      ok := true;
    }

    /** One round of the root scan: the next cluster after `cs`, and the link to the one after it. */
    method ScanLink(cluster: u32, ghost cs: seq<u32>)
      returns (ok: bool, done: bool, next: u32, ghost n: nat, ghost stuck: nat)
      requires Valid() && |cs| < 256 && Scanning(dev.blocks, info, cs, cluster)
      requires Files() == Capped(Listed(RawEntries(dev.blocks, Sectors(info, cs), 16 * |Sectors(info, cs)|)))
      modifies this`count, files, dev`refusals
      ensures Valid() && n <= 16 * |Sectors(info, cs + [cluster])|
      ensures ok || dev.reliable ==> dev.refusals == old(dev.refusals)
      ensures ok ==> Files() == Capped(Listed(RawEntries(dev.blocks, Sectors(info, cs + [cluster]), n)))
      ensures ok && (done || |cs| == 255) ==>
        RootScan(dev.blocks, info, cs + [cluster], n) && ScanReadable(info, cs + [cluster], n)
      ensures ok && !done ==>
        n == 16 * |Sectors(info, cs + [cluster])| && Scanning(dev.blocks, info, cs + [cluster], next)
      ensures !ok ==>
        || (ScanAt(dev.blocks, info, cs + [cluster], n, stuck) && Refused(old(dev.refusals), dev.refusals, stuck))
        || (BadLink(dev.blocks, info, cs + [cluster]) && dev.refusals == old(dev.refusals))
    {
      hide RawEntries, Listed, Next, Capped, Sectors, ClusterSectors, RawAt, FatSector, RootScan, ScanReadable;
      hide ScanAt, BadLink, Scanning, EndsAt, NoMarker;
      ghost var d, before, lbas := dev.blocks, Sectors(info, cs), Sectors(info, cs + [cluster]);
      ScanNext(d, info, cs, cluster);
      RawPrefix(d, before, lbas, 16 * |before|);
      done, next, stuck := true, 0, 0;
      var ended;
      ok, ended, n := ScanCluster(cluster, |before|, lbas);
      ScanStops(d, info, cs, cluster, n);
      if !ok {
        stuck := lbas[n / 16];
        return;
      }
      EndsInside(d, lbas, n);
      if ended {
        ScanWhole(d, info, cs, cluster, n);
        return;
      }
      ok, next := GetFatEntry(cluster);
      if !ok {
        stuck := FatSector(info, cluster);
        return;
      }
      ScanWhole(d, info, cs, cluster, n);
      if next >= END_OF_CHAIN {
        return;
      }
      if next < 2 {
        ok := false;
        return;
      }
      done := false;
    }

    /**
     * Lists the sectors of one root cluster, which stand in `lbas` from index `at` on. When it fails
     * it has listed `n` entries, all those of the sectors before the one it could not read.
     */
    method ScanCluster(cluster: u32, ghost at: nat, ghost lbas: seq<u32>)
      returns (ok: bool, ended: bool, ghost n: nat)
      requires Valid() && |lbas| == at + info.sectorsPerCluster
      requires lbas[at..] == ClusterSectors(info, cluster, info.sectorsPerCluster)
      requires Files() == Capped(Listed(RawEntries(dev.blocks, lbas, 16 * at)))
      requires NoMarker(dev.blocks, lbas, 16 * at)
      modifies this`count, files, dev`refusals
      ensures Valid() && 16 * at <= n <= 16 * |lbas| && NoMarker(dev.blocks, lbas, n)
      ensures ok || dev.reliable ==> dev.refusals == old(dev.refusals)
      ensures !ok ==> n < 16 * |lbas| && n % 16 == 0 && Refused(old(dev.refusals), dev.refusals, lbas[n / 16])
      ensures ok ==> EndsAt(dev.blocks, lbas, n) && (ended <==> n < 16 * |lbas|)
      ensures ok ==> forall i :: at <= i < |lbas| && 16 * i <= n ==> lbas[i] < LBA28_LIMIT
      ensures ok ==> Files() == Capped(Listed(RawEntries(dev.blocks, lbas, n)))
    {
      hide RawEntries, Listed, Capped, RawAt, ClusterLba, U32, NoMarker, EndsAt, ClusterSectors;
      ghost var d := dev.blocks;
      var lba0 := ClusterLba(info, cluster);
      ended, n := false, 16 * at;
      var s := 0;
      while s < info.sectorsPerCluster
        invariant 0 <= s <= info.sectorsPerCluster && n == 16 * (at + s)
        invariant dev.refusals == old(dev.refusals)
        invariant Valid() && Files() == Capped(Listed(RawEntries(d, lbas, n)))
        invariant NoMarker(d, lbas, n)
        invariant forall i :: at <= i < at + s ==> lbas[i] < LBA28_LIMIT
        decreases info.sectorsPerCluster - s
      {
        var sec := new byte[512](_ => 0);
        ok := dev.ReadSector(U32(lba0 + s), sec);
        SectorInRun(info, cluster, lbas, at, s);
        if !ok {
          return;
        }
        ended, n := ScanSector(sec, lbas, at + s);
        if ended {
          return;
        }
        s := s + 1;
      }
      AllScanned(d, lbas);
      ok := true;
    }

    /** Index of the first listed file called `name`. */
    method FindFile(name: seq<byte>) returns (found: bool, idx: nat)
      requires Valid()
      ensures idx == IndexOf(Files(), name) && (found <==> idx < count)
    {
      idx := 0;
      while idx < count
        invariant idx <= count
        invariant forall i :: 0 <= i < idx ==> Files()[i].name != name
      {
        if files[idx].name == name {
          return true, idx;
        }
        idx := idx + 1;
      }
      found := false;
    }

    /** Reads sectors `s..` of one cluster while bytes are wanted; `done` is the sectors before the cluster. */
    method ReadCluster(cluster: u32, want: nat, already: nat, out: array<byte>, ghost done: seq<u32>)
      returns (ok: bool, copied: nat)
      requires already < want <= out.Length && already == 512 * |done|
      requires out[..already] == FirstBytes(dev.blocks, done, already)
      modifies out, dev`refusals
      ensures var lbas := done + ClusterSectors(info, cluster, info.sectorsPerCluster);
        && already <= copied <= want && copied <= 512 * |lbas|
        && out[..copied] == FirstBytes(dev.blocks, lbas, copied)
        && (ok ==> copied == want || copied == 512 * |lbas|)
        && (!ok && dev.reliable ==> exists lba :: lba in lbas && lba >= LBA28_LIMIT)
      ensures out[copied..] == old(out[copied..])
    {
      hide FirstBytes, ClusterLba, U32, ClusterSectors;
      ghost var d, lbas := dev.blocks, done + ClusterSectors(info, cluster, info.sectorsPerCluster);
      FirstBytesPrefix(d, done, lbas, already);
      assert lbas[|done|..] == ClusterSectors(info, cluster, info.sectorsPerCluster);
      var lba0 := ClusterLba(info, cluster);
      var s := 0;
      copied := already;
      while s < info.sectorsPerCluster && copied < want
        invariant 0 <= s <= info.sectorsPerCluster && already <= copied
        invariant copied == if 512 * (|done| + s) < want then 512 * (|done| + s) else want
        invariant out[..copied] == FirstBytes(d, lbas, copied)
        invariant out[copied..] == old(out[copied..])
        decreases info.sectorsPerCluster - s
      {
        var copy := want - copied;
        if copy > 512 {
          copy := 512;
        }
        SectorInRun(info, cluster, lbas, |done|, s);
        assert out[copied..][copy..] == out[copied + copy..];
        assert old(out[copied..])[copy..] == old(out[copied + copy..]);
        ok := ReadPart(dev, U32(lba0 + s), out, copied, copy);
        if !ok {
          assert lbas[|done| + s] in lbas;
          return;
        }
        FirstBytesNext(d, lbas, |done| + s, copy);
        copied := copied + copy;
        s := s + 1;
      }
      ok := true;
    }

    /** Copies the first `want` bytes of the chain that starts at `first`; `cs` is the clusters it visited. */
    method ReadChain(first: u32, want: u32, out: array<byte>) returns (ok: bool, copied: nat, ghost cs: seq<u32>)
      requires want <= out.Length
      modifies out, dev`refusals
      ensures StoppedRead(dev.blocks, info, first, want, cs)
      ensures copied <= want && copied <= 512 * |Sectors(info, cs)|
      ensures out[..copied] == FirstBytes(dev.blocks, Sectors(info, cs), copied)
      ensures out[copied..] == old(out[copied..])
      ensures ok ==> copied == want || (copied == 512 * |Sectors(info, cs)| && ChainExhausted(dev.blocks, info, want, cs))
      ensures want == 0 ==> ok
      ensures !ok && dev.reliable ==> want > 0 && ChainBroken(dev.blocks, info, want, cs)
    {
      hide FirstBytes, Next, Sectors, ClusterSectors, FatSector, Visited, Follows;
      copied, cs := 0, [];
      var cluster: u32 := first;
      var budget := 4096;
      ghost var d := dev.blocks;
      NoSectors(info);
      NoVisits(d, info, first, want);
      while copied < want && budget > 0
        invariant 0 <= budget <= 4096 && |cs| == 4096 - budget
        invariant Visited(d, info, first, want, cs)
        invariant copied < want ==> Follows(d, info, first, cs, cluster)
        invariant copied == if 512 * |Sectors(info, cs)| < want then 512 * |Sectors(info, cs)| else want
        invariant out[..copied] == FirstBytes(d, Sectors(info, cs), copied)
        invariant out[copied..] == old(out[copied..])
        decreases budget
      {
        budget := budget - 1;
        VisitNext(d, info, first, want, cs, cluster);
        ok, copied := ReadCluster(cluster, want, copied, out, Sectors(info, cs));
        cs := cs + [cluster];
        if !ok {
          return;
        }
        if copied >= want {
          break;
        }
        var next;
        ok, next := GetFatEntry(cluster);
        if !ok {
          return;
        }
        if next >= END_OF_CHAIN {
          break;
        }
        if next < 2 {
          ok := false;
          return;
        }
        LinkFollows(d, info, first, cs, next);
        cluster := next;
      }
      ok := true;
    }

    /**
     * Reads a listed file. When some chain covers the wanted bytes, a successful read delivers
     * exactly the first `min(size, maxlen)` bytes of its concatenated clusters, and on a reliable
     * drive that can address the chain it succeeds.
     */
    method ReadFile(name: seq<byte>, out: array<byte>, maxlen: u32) returns (ok: bool, outLen: u32)
      requires Valid() && maxlen <= out.Length
      modifies out, dev`refusals
      ensures IndexOf(Files(), name) == count ==> !ok && out[..] == old(out[..])
      ensures IndexOf(Files(), name) < count ==>
        var f := Files()[IndexOf(Files(), name)];
        && outLen == f.size && DeliversFile(dev.blocks, info, f, maxlen, dev.reliable, ok, out[..])
        && out[Wanted(f, maxlen)..] == old(out[Wanted(f, maxlen)..]) && (Wanted(f, maxlen) == 0 ==> ok)
    {
      hide FirstBytes, Sectors, StoppedRead, ChainExhausted, ChainBroken, Addressable, IsChain;
      outLen := 0;
      var found, idx := FindFile(name);
      if !found {
        return false, 0;
      }
      var f := files[idx];
      outLen := f.size;
      var want := Wanted(f, maxlen);
      ghost var list, d := Files(), dev.blocks;
      var copied;
      ghost var cs;
      ok, copied, cs := ReadChain(f.firstCluster, want, out);
      assert out[want..] == out[copied..][want - copied..];
      assert old(out[want..]) == old(out[copied..])[want - copied..];
      assert out as object != files;
      assert Files() == list;
      forall full | Covers(d, info, f.firstCluster, want, full)
        ensures Delivers(d, info, want, full, dev.reliable, ok, out[..])
      {
        if ok {
          ReadWholePrefix(d, info, f.firstCluster, want, cs, full);
          assert out[..][..want] == out[..want];
        } else if dev.reliable {
          ReadCannotFail(d, info, f.firstCluster, want, cs, full);
        }
      }
    }
  }

  lemma EntryOffset(cluster: u32)
    ensures U32(cluster * 4) % 512 <= 508
  {
    var x := U32(cluster * 4);
    assert x % 4 == 0;
    assert x % 512 % 4 == 0;
  }

  // ---- The root scan, step by step ----

  /** The clusters scanned so far hold no end marker, and `c` is the next one. */
  predicate Scanning(d: Blocks, info: FatInfo, cs: seq<u32>, c: u32) {
    && IsChain(d, info, cs) && (if cs == [] then c == info.rootCluster else cs[0] == info.rootCluster)
    && (cs != [] ==> Next(d, info, cs[|cs| - 1]) == c && 2 <= c < END_OF_CHAIN)
    && NoMarker(d, Sectors(info, cs), 16 * |Sectors(info, cs)|)
    && (forall i :: 0 <= i < |Sectors(info, cs)| ==> Sectors(info, cs)[i] < LBA28_LIMIT)
    && (forall j :: 0 <= j < |cs| ==> FatSector(info, cs[j]) < LBA28_LIMIT)
  }

  lemma EndsInside(d: Blocks, lbas: seq<u32>, n: nat)
    requires EndsAt(d, lbas, n)
    ensures n <= 16 * |lbas| && NoMarker(d, lbas, n)
  {
  }

  lemma StartScan(d: Blocks, info: FatInfo)
    ensures Scanning(d, info, [], info.rootCluster)
  {
  }

  lemma ScanNext(d: Blocks, info: FatInfo, cs: seq<u32>, c: u32)
    requires Scanning(d, info, cs, c) && |cs| < 256
    ensures RootWalk(d, info, cs + [c]) && Before(info, cs + [c]) == 16 * |Sectors(info, cs)|
    ensures Sectors(info, cs + [c]) == Sectors(info, cs) + ClusterSectors(info, c, info.sectorsPerCluster)
    ensures NoMarker(d, Sectors(info, cs + [c]), 16 * |Sectors(info, cs)|)
  {
    hide Next, RawAt, FatSector;
    SectorsNext(info, cs, c);
    assert (cs + [c])[..|cs|] == cs;
    RawPrefix(d, Sectors(info, cs), Sectors(info, cs + [c]), 0);
  }

  /** What is known when the scan of a cluster is over, with `n` entries before where it stopped. */
  lemma ScanStops(d: Blocks, info: FatInfo, cs: seq<u32>, c: u32, n: nat)
    requires Scanning(d, info, cs, c) && |cs| < 256
    requires var lbas := Sectors(info, cs + [c]);
      16 * |Sectors(info, cs)| <= n <= 16 * |lbas| && NoMarker(d, lbas, n)
    ensures var all, lbas := cs + [c], Sectors(info, cs + [c]);
      && (n < 16 * |lbas| && n % 16 == 0 ==> ScanAt(d, info, all, n, lbas[n / 16]))
      && (n == 16 * |lbas| ==> ScanAt(d, info, all, n, FatSector(info, c)))
      && (n == 16 * |lbas| && Next(d, info, c) < 2 ==> BadLink(d, info, all))
  {
    hide Next, RawAt, FatSector, Sectors;
    ScanNext(d, info, cs, c);
  }

  /** A cluster that was scanned to the marker, or whose link was read, makes a whole or a longer scan. */
  lemma ScanWhole(d: Blocks, info: FatInfo, cs: seq<u32>, c: u32, n: nat)
    requires Scanning(d, info, cs, c) && |cs| < 256
    requires var lbas := Sectors(info, cs + [c]);
      && 16 * |Sectors(info, cs)| <= n && EndsAt(d, lbas, n)
      && (forall i :: |Sectors(info, cs)| <= i < |lbas| && 16 * i <= n ==> lbas[i] < LBA28_LIMIT)
      && (n == 16 * |lbas| ==> FatSector(info, c) < LBA28_LIMIT)
    ensures ScanReadable(info, cs + [c], n)
    ensures var link := Next(d, info, c);
      && (n < 16 * |Sectors(info, cs + [c])| || link >= END_OF_CHAIN || (|cs| == 255 && link >= 2) ==>
            RootScan(d, info, cs + [c], n))
      && (n == 16 * |Sectors(info, cs + [c])| && 2 <= link < END_OF_CHAIN ==> Scanning(d, info, cs + [c], link))
  {
    hide Next, RawAt, FatSector, Sectors;
    ScanNext(d, info, cs, c);
  }

  lemma NoVisits(d: Blocks, info: FatInfo, first: u32, want: nat)
    ensures Visited(d, info, first, want, []) && Follows(d, info, first, [], first)
  {
  }

  lemma LinkFollows(d: Blocks, info: FatInfo, first: u32, cs: seq<u32>, next: u32)
    requires cs != [] && Next(d, info, cs[|cs| - 1]) == next && 2 <= next < END_OF_CHAIN
    ensures Follows(d, info, first, cs, next)
  {
  }

  lemma NoSectors(info: FatInfo)
    ensures Sectors(info, []) == []
  {
  }

  lemma EmptyListing(d: Blocks, info: FatInfo)
    ensures Sectors(info, []) == [] && Capped(Listed(RawEntries(d, [], 0))) == []
  {
  }

  /** Reads a sector and copies its first `n` bytes to `out[at..]`. */
  method ReadPart(dev: Device, lba: u32, out: array<byte>, at: nat, n: nat) returns (ok: bool)
    requires at + n <= out.Length && n <= 512
    modifies out, dev`refusals
    ensures ok ==> lba < LBA28_LIMIT
    ensures ok ==> out[..at + n] == old(out[..at]) + At(dev.blocks, lba)[..n]
    ensures out[at + n..] == old(out[at + n..])
    ensures !ok ==> out[..] == old(out[..])
    ensures dev.reliable && lba < LBA28_LIMIT ==> ok
  {
    hide At;
    var sec := new byte[512](_ => 0);
    ok := dev.ReadSector(lba, sec);
    if ok {
      ghost var head, rest := out[..at], out[at + n..];
      CopyBytes(out, at, sec, n);
      assert out[..at + n] == out[..][..at + n] == head + sec[..n];
      assert out[at + n..] == out[..][at + n..] == rest;
    } else {
      assert out[at + n..] == out[..][at + n..];
    }
  }

  /** `out[at..at + n]` becomes the first `n` bytes of `sec`. */
  method CopyBytes(out: array<byte>, at: nat, sec: array<byte>, n: nat)
    requires at + n <= out.Length && n <= sec.Length && out != sec
    modifies out
    ensures out[..] == old(out[..at]) + sec[..n] + old(out[at + n..])
  {
    for i := 0 to n
      invariant out[..] == old(out[..at]) + sec[..i] + old(out[at + i..])
    {
      out[at + i] := sec[i];
    }
  }
}
