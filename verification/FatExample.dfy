/** A smallest FAT32 volume: one file of up to 512 bytes, with whatever data; so there are disks to mount. */
module FatExample {
  import opened Bytes
  import opened Words
  import opened BlockDevice
  import opened FatDisk

  /** One reserved sector, one FAT of one sector, two clusters of one sector: the root and the file. */
  const Geo: Geometry := Geometry(1, 1, 1, 1, 2, 2)

  function BootByte(i: nat): byte {
    if i == 12 then 2 else if i == 13 || i == 14 || i == 16 || i == 36 then 1 else if i == 44 then 2
    else if i == 82 then 0x46 else if i == 83 then 0x41 else if i == 84 then 0x54 else if i == 85 then 0x33
    else if i == 86 then 0x32 else if i == 510 then 0x55 else if i == 511 then 0xAA else 0
  }

  function Boot(): Sector { seq<byte>(512, (i: nat) => BootByte(i)) }

  /** End marks for clusters 2 and 3. */
  function FatByte(i: nat): byte {
    if i == 11 || i == 15 then 0x0F else if 8 <= i < 16 then 0xFF else 0
  }

  function Fat(): Sector { seq<byte>(512, (i: nat) => FatByte(i)) }

  function RootByte(name: byte, size: u32, i: nat): byte {
    if i == 0 then name else if i < 11 then 0x20 else if i == 11 then 0x20 else if i == 26 then 3
    else if 28 <= i < 32 then Le32(size)[i - 28] else 0
  }

  function Root(name: byte, size: u32): Sector { seq<byte>(512, (i: nat) => RootByte(name, size, i)) }

  function Disk(name: byte, data: seq<byte>): Blocks
    requires |data| <= 512
  {
    map[0 := Boot(), 1 := Fat(), 2 := Root(name, |data|), 3 := data + Zeros(512 - |data|)]
  }

  function TheFile(name: byte, data: seq<byte>): Slot {
    File([name], [], 0x20, 3, [3], data)
  }

  lemma BootIs()
    ensures Geo.Ok() && BootFields(Boot(), Geo)
  {
    hide Le;
    var b := Boot();
    Le2(b, 14);
    Le4(b, 36);
    Le4(b, 44);
    assert b[11..13] == [0, 2] && b[17..19] == [0, 0] && b[22..24] == [0, 0] && b[510..512] == [0x55, 0xAA];
    assert b[82..87] == [0x46, 0x41, 0x54, 0x33, 0x32];
  }

  lemma LinkIs(d: Blocks, n: u32)
    requires At(d, 1) == Fat() && (n == 2 || n == 3)
    ensures Chain(d, Geo, [n])
  {
    hide Le;
    Le4(Fat(), 4 * n);
    assert 4 * (n % 128) == 4 * n && n / 128 == 0;
  }

  lemma EntryOk(name: byte, data: seq<byte>)
    requires |data| <= 512 && name != 0 && name != 0x20 && name != 0xE5
    ensures Directory(Root(name, |data|), [TheFile(name, data)])
  {
    hide Le;
    var dir := Root(name, |data|);
    var e, s := EntryOf(dir, 0), TheFile(name, data);
    Le2(e, 20);
    Le2(e, 26);
    Le4(e, 28);
    Le32RoundTrip(|data|);
    assert e[..8] == [name] + Spaces(7) && e[8..11] == Spaces(3);
    assert Padded(e[..8], s.base) && Padded(e[8..11], s.ext);
    assert EntryIs(e, s);
  }

  /** Where the sectors are. */
  lemma Sectors(name: byte, data: seq<byte>)
    requires |data| <= 512
    ensures var d := Disk(name, data);
            At(d, 0) == Boot() && At(d, 1) == Fat() && At(d, 2) == Root(name, |data|) && data <= At(d, 3)
  {
    hide Boot, Fat, Root, Zeros;
  }

  lemma FileIsThere(d: Blocks, s: Slot)
    requires s.File? && s.first == 3 && s.clusters == [3] && Chain(d, Geo, [3]) && s.data <= At(d, 3)
    ensures FileData(d, Geo, s)
  {
    hide Chain, ChainBytes, At;
    OneCluster(d, 3);
  }

  /** The disk holds a volume with that file, and nothing else in its root. */
  lemma ExampleHolds(name: byte, data: seq<byte>)
    requires |data| <= 512 && name != 0 && name != 0x20 && name != 0xE5
    ensures Holds(Disk(name, data), Geo, [2], [TheFile(name, data)])
  {
    hide BootFields, Directory, Chain, ChainBytes, FileData, At, Boot, Fat, Root, Disk;
    var d := Disk(name, data);
    Sectors(name, data);
    BootIs();
    LinkIs(d, 2);
    LinkIs(d, 3);
    EntryOk(name, data);
    OneCluster(d, 2);
    FileIsThere(d, TheFile(name, data));
  }

  lemma OneCluster(d: Blocks, n: u32)
    requires n == 2 || n == 3
    ensures ChainBytes(d, Geo, [n]) == At(d, n)
  {
    hide At, SectorRun, ChainBytes;
    ChainOfOne(d, Geo, n);
    assert Geo.ClusterStart(n) == n;
    RunOfOne(d, n);
  }

  lemma ChainOfOne(d: Blocks, g: Geometry, c: u32)
    requires g.IsCluster(c)
    ensures ChainBytes(d, g, [c]) == ClusterBytes(d, g, c)
  {
    hide ClusterBytes;
    var none: seq<u32>, bytes := [], ClusterBytes(d, g, c);
    assert [c][..0] == none;
    assert ChainBytes(d, g, none) + bytes == bytes;
  }

  lemma RunOfOne(d: Blocks, lba: nat)
    ensures SectorRun(d, lba, 1) == At(d, lba)
  {
    hide At;
    assert SectorRun(d, lba, 0) == [];
    assert [] + At(d, lba) == At(d, lba);
  }
}
