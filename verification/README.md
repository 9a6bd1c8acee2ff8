# Verified model of a small 64-bit kernel

The kernel boots into its own page tables and heap, keeps files on an ATA disk, decodes PNG images,
drives USB mice and keyboards through an xHCI controller and switches tasks round robin. This project
models these subsystems in Dafny and proves what they are for: that a crash leaves either the old or
the new directory, that mapping a page changes no other page, that decoding undoes encoding, that ring
partners agree in every interleaving.

Each subsystem has a specification on values and an imperative form that is proved against it. The
imperative form follows the source: classes for what the source keeps in globals and device records,
arrays for its buffers and tables, loops where it loops.

| modules | part of the kernel |
|---|---|
| BlockDevice, SfsLayout, SfsVolume, SfsRuns, SfsFailures, SimpleFs | the SFS volume: sectors, packed layout, one write and its crashes, whole runs, failed writes, the code |
| FatLayout, Fat32, FatDisk, FatExample | the read-only FAT32 side; the on-disk format and what the driver shows of it |
| Pmm, PageTables, Vmm, Boot | page frames, page tables, the memory part of the boot sequence |
| HeapBlocks, Heap | the kernel heap |
| Inflate, PngFilter, PngFormat, Png | the PNG decoder and the encodings it inverts |
| XhciRings | event, command and transfer rings |
| HidBits, HidDescriptor, HidMouse, HidExample, HidReport, Hid | report descriptors and mouse reports |
| Keyboard | keyboard reports and the character queue |
| TaskRing, TaskContext, Tasks | the scheduler |
| Bytes, Bits, Words | bytes, bitwise or as arithmetic, powers of two |

The disk is a map from sector numbers to sectors. A sector transfer may fail at any time unless the
drive is marked reliable; a ghost log tells which reads it refused. Each sector write happens wholly or
not at all. 32-bit wrap-around is written out wherever the source computes in 32 bits. Physical memory
is a map from frame addresses to 512 entries for page tables, from node addresses to headers for the
heap, and from addresses to words for task stacks. Where a format has a reader and a writer or comes
from a standard (SFS, FAT32, PNG and its filters, HID descriptors, the Link TRB, saved frames), it is
also stated byte by byte, apart from the functions that compute with it.

## Where the code does less than one would hope

Each of these is a theorem with its exact condition:

- A crash between the table sector that shows a new file and the superblock write leaves the directory
  readable but the free pointer stale (`SfsVolume.CrashLeavesVolumeOkIff`); the next write then lands on
  the new file (`SfsVolume.StaleSuperblockClobbers`) unless it is of the same name, which repairs it
  (`SfsVolume.StaleRepairedIff`).
- A file longer than 0xFFFFFE00 bytes is recorded with its full size but reads back empty
  (`SfsVolume.DeliveredIff`).
- The boot code keeps back too few pages for the page bitmap for some memory sizes
  (`Pmm.BitmapFitsIff`); the spilled byte is then in the first page given out, the root page table
  (`Pmm.SpillIsInFirstPage`), and two pages read as in use that nobody was given
  (`Boot.SpillHidesPages`). With 32769 to 32775 pages this ends the room of the heap at 128 MiB
  (`Boot.HeapRoomIsWholeIff`), and a heap that would pass it is not grown although pages are left
  (`Boot.StartMemory`, `Boot.OnePageLess`).
- A mount formats a disk that is not mounted as FAT32 exactly when its superblock is read and not
  recognised, or the read of a table sector is refused (`SimpleFs.Storage.Init`). So one refused read of
  the table of a volume in order loses every file (`SimpleFs.StartOnVolume`), and one refused read of its
  boot sector, root directory or FAT makes a good FAT32 disk count as none; without a refused read only
  disks that cannot be mounted do (`FatLayout.NotMountedIsUnmountable`).
- A write that fails after its data is out stays visible in memory, but a crash before the next finished
  write loses it if neither it nor a later one wrote the table sector of its slot
  (`SfsFailures.CrashAfterFailures`).
- The superblock's magic number is stored as the bytes 53 53 46 31, "SSF1", not as the "SFS1" that the
  comment at src/kernel/core/simplefs.c:13 gives; the comment does not allow for the word's byte order
  (`SfsVolume.StoredBytes`, `SimpleFs.RecognisedIff`).
- The push functions never rewrite the Link TRB, so a ring carries 510 TRBs and no more
  (`XhciRings.First510Delivered`, `XhciRings.NeverMoreThan510`).
- A keyboard report that lists a newly pressed key twice types it twice
  (`Keyboard.OneStrokePerPressIff`), and characters are dropped exactly when more than 255 would wait
  (`Keyboard.AllAcceptedIff`).

## Model

| member | source | states |
|---|---|---|
| SimpleFs.StartAfterCrash | src/kernel/core/simplefs.c:422-462 | Crash atomicity of the code: a start of the storage layer on a disk that any prefix of a write reached mounts it, writes nothing, and shows exactly the old files up to the switch point and the updated ones after it |
| SfsVolume.CrashOldOrNew | src/kernel/core/simplefs.c:581-629 | Cutting a write after any prefix of its sector writes and reading back superblock and table shows exactly the old map or exactly the old map with the one name updated; which of the two is decided by one write, the table sector that holds the slot; a write that runs past the last addressable sector included |
| SfsVolume.CrashLeavesVolumeOkIff | src/kernel/core/simplefs.c:617-626 | After a cut, the mounted volume satisfies the volume invariant if and only if the cut was not after the directory switch and before the superblock write |
| SfsVolume.StaleSuperblockClobbers | src/kernel/core/simplefs.c:601-626 | For every cut inside that window, the next finished write under any other name puts its data over the file that the mount had shown as new |
| SfsVolume.StaleRepairedIff | src/kernel/core/simplefs.c:581-629 | For every cut inside that window, the next finished write puts the volume in order again if and only if it is of the same name; the map is then as if that write alone had been made |
| SfsVolume.FinishedWrite | src/kernel/core/simplefs.c:581-629 | A write whose sectors all reach the disk leaves names distinct and extents disjoint below the free pointer, the superblock and table on disk equal to those in memory, and the map updated at one name |
| SfsVolume.CutKeepsFiles | src/kernel/core/simplefs.c:603-626 | While a write is under way, or after it failed, reads through the table in memory still see the old map, and from the point where the data is out the new one |
| SfsVolume.NewTableOk | src/kernel/core/simplefs.c:617-622 | The table after a write keeps every invariant: terminated distinct names, disjoint extents below the advanced free pointer |
| SfsVolume.NewTableFinds | src/kernel/core/simplefs.c:591-620 | After the table change, looking up the written name finds the new entry and looking up any other name finds what it found before |
| SfsVolume.NewTableNames | src/kernel/core/simplefs.c:591-620 | The set of used names gains exactly the written name |
| SfsVolume.SwitchView | src/kernel/core/simplefs.c:591-622 | Replacing the one entry changes the map at that name only, when the data lies in fresh sectors |
| SfsVolume.FrameView | src/kernel/core/simplefs.c:485-494 | The map depends only on the sectors below the free pointer, so writing fresh sectors cannot change it |
| SfsVolume.CutTable | src/kernel/core/simplefs.c:321-389 | What a mount reads back after any prefix of the writes: the old table up to the switch and the new one after it, although the table is stored in eight separate sector writes |
| SfsVolume.CutData | src/kernel/core/simplefs.c:601-615 | A prefix of the writes changes no sector of an existing file, and once the data writes are done the whole new content stands in its extent |
| SfsVolume.StoreLoadRoundTrip | src/kernel/core/simplefs.c:321-399 | Storing superblock and table and loading them is the identity on every field and on all 64 entries |
| SfsVolume.StoredBytes | src/kernel/core/simplefs.c:13-36 | What a stored volume is on the disk, by bytes: the superblock is eight little-endian words in sector 0 that begin with 0x53 0x53 0x46 0x31, and slot i is the 45 bytes at 45 * (i mod 11) of sector 1 + i / 11 with the use byte, 32 bytes of name, and start, size and reserve as little-endian words at 33, 37 and 41 |
| SfsVolume.MountedFile | src/kernel/core/simplefs.c:485-494 | What a mount shows, by bytes: a name is shown if and only if a slot in use carries it, and its content is what follows the start sector of the first such slot, as long as the size word and the allocated sectors reach |
| SfsVolume.DeliveredIff | src/kernel/core/simplefs.c:597-599 | A written file is read back whole if and only if its length is at most 0xFFFFFE00; above that the 32-bit sector count wraps to one allocated sector and reads deliver nothing |
| SfsVolume.CopyName | src/kernel/core/simplefs.c:302-312 | A copied name reads back as the same C string and is terminated |
| SfsVolume.Job.CutSectors | src/kernel/core/simplefs.c:581-629 | The content of every sector after any number of the planned writes, said outright |
| SfsRuns.RunRefinesMap | src/kernel/core/simplefs.c:422-629 | Every run of writes, writes that fail half-way with the volume still in use, crashes and mounts shows exactly the finite map that the landed writes build, and the free pointer is the sum of the allocated sectors, as long as a crash finds the memory stored and does not fall in the window above |
| SfsRuns.StepRefines | src/kernel/core/simplefs.c:422-629 | One step of such a run keeps the volume in order and acts on the map as the abstract step does, including rejected names, a full table, a full disk and failed writes; a finished write stores the whole volume again |
| SfsFailures.CrashAfterFailures | src/kernel/core/simplefs.c:422-629 | However many writes failed since the last finished one, and after however many sectors each, a mount of the disk they leave shows each file exactly as it was after the last of them that wrote the table sector of its slot (after the last finished write if none did), present or missing; a name without a slot is not shown |
| SfsFailures.FailStaysBehind | src/kernel/core/simplefs.c:581-629 | A failed write leaves every entry on disk that of the past table its sector was last written from, and the contents of all past tables intact |
| SfsFailures.EachFileFromPast | src/kernel/core/simplefs.c:321-339 | A mount of such a disk finds the file of a slot as the table has it that the sector of the slot was written from |
| SfsRuns.SlotIffRoom | src/kernel/core/simplefs.c:485-505 | A write finds a slot if and only if the name is already used or fewer than 64 names are |
| SfsRuns.NamesCounted | src/kernel/core/simplefs.c:496-505 | The number of used entries is the number of distinct names |
| SfsLayout.EntryRoundTrip | src/kernel/core/simplefs.c:30-36 | A packed 45-byte entry unpacks to the same entry |
| SfsLayout.EntryBytesIff | src/kernel/core/simplefs.c:30-36 | Packing gives exactly the 45 bytes, and unpacking exactly the entry, with the use byte first, the name at 1, and start, size and reserve as little-endian words at 33, 37 and 41 |
| SfsLayout.SuperRoundTrip | src/kernel/core/simplefs.c:382-399 | A stored superblock loads as the same superblock |
| SfsLayout.EntryInSector | src/kernel/core/simplefs.c:321-380 | Each of the 64 entries lies wholly in one table sector, so that sector alone decides it |
| SfsLayout.NameFound | src/kernel/core/simplefs.c:485-494 | The search finds an entry if and only if some used entry has the name |
| SimpleFs.SuperIsNotFat | src/kernel/core/simplefs.c:145-166 | No SFS superblock is ever taken for a FAT32 boot sector |
| SimpleFs.FreshVolumeOk | src/kernel/core/simplefs.c:401-420 | A formatted volume satisfies the invariant and holds no files |
| SimpleFs.RecognisedIff | src/kernel/core/simplefs.c:447-448 | A volume is recognised if and only if sector 0 begins with 53 53 46 31 01 00 00 00 and its fourth word is 1 to 64 |
| SimpleFs.Storage.StoreSuperblock | src/kernel/core/simplefs.c:382-389 | On success sector 0 holds the eight words of the superblock, least byte first, and zeros; on failure the disk is unchanged |
| SimpleFs.Storage.LoadSuperblock | src/kernel/core/simplefs.c:391-399 | Loads the eight words that the bytes of sector 0 spell, or the read of sector 0 was refused |
| SimpleFs.Storage.FillTableSector | src/kernel/core/simplefs.c:366-375 | Packs eleven entries per sector, each byte field at its place, zero after the last |
| SimpleFs.Storage.StoreTable | src/kernel/core/simplefs.c:363-380 | The sectors that reach the disk are a prefix of the eight table writes, all of them on success |
| SimpleFs.Storage.LoadTableSector | src/kernel/core/simplefs.c:327-336 | Copies exactly the entries of one table sector, as its bytes spell them, and leaves the others alone |
| SimpleFs.Storage.LoadTable | src/kernel/core/simplefs.c:321-339 | Every entry covered by the stored sectors is the one its 45 bytes on disk spell and the rest are unchanged; it fails only when the drive refused to read one of the table sectors, which on a reliable drive means that the sector cannot be addressed |
| SimpleFs.Storage.Format | src/kernel/core/simplefs.c:401-420 | On success the disk holds a fresh superblock and an empty table |
| SimpleFs.Storage.Init | src/kernel/core/simplefs.c:422-462 | Exactly when a mount writes, on any drive: a disk that mounts as FAT32 is left alone; otherwise, once the superblock is read, it is formatted if and only if the superblock is not recognised or the read of a table sector was refused. On a reliable drive it mounts as FAT32 if and only if the disk has a boot sector that serves and a root directory that can be scanned to its end; on any drive a disk that is not mounted has a refused read or a defect to show for it. A mount that does not format leaves the disk alone and holds the superblock and entries that are there |
| SimpleFs.StartOnVolume | src/kernel/core/simplefs.c:422-462 | A start on a drive that holds a volume in order shows its files and writes nothing, unless the read of a table sector is refused; then no file is left, in memory or on the disk |
| SimpleFs.StartOnNewDisk | src/kernel/core/simplefs.c:422-462 | On a reliable drive, a start on a disk that is neither FAT32 nor a volume leaves an empty volume in order, stored whole |
| SimpleFs.StartOnFat32 | src/kernel/core/simplefs.c:168-257 | On a reliable drive, a start on a disk that holds a FAT32 volume, by its sectors and bytes, mounts it, writes nothing and lists exactly the first 128 files of its root directory, in order, with their names, attributes, first clusters and sizes |
| SimpleFs.ReadFromFat32 | src/kernel/core/simplefs.c:636-679 | A read from such a disk delivers exactly the data of the first listed file with the name, up to maxlen, touches nothing beyond it, and succeeds; an unknown name fails with the buffer untouched |
| SimpleFs.Storage.FindName | src/kernel/core/simplefs.c:485-494 | The first used entry with the name, or none |
| SimpleFs.Storage.AllocEntry | src/kernel/core/simplefs.c:496-505 | The first unused entry, or none |
| SimpleFs.Storage.PickSlot | src/kernel/core/simplefs.c:591-595 | The slot a write uses: that of the name, else the first unused one |
| SimpleFs.Storage.WriteData | src/kernel/core/simplefs.c:603-615 | The data sectors that reach the disk are a prefix of those planned; all of them exactly on success |
| SimpleFs.FillDataSector | src/kernel/core/simplefs.c:606-612 | A data sector holds its 512 bytes of the file, zero-padded |
| SimpleFs.Storage.Commit | src/kernel/core/simplefs.c:622-626 | Table and superblock are stored after the data, stopping at the first failed write |
| SimpleFs.Storage.WriteFile | src/kernel/core/simplefs.c:581-629 | The writes that reach the disk are a prefix of the plan and the call succeeds exactly when all do; memory, map and invariant in every case, including rejection; every call, failed or not, is a step of the runs above |
| SimpleFs.Storage.ReadExtent | src/kernel/core/simplefs.c:692-709 | Delivers the stored prefix and touches nothing beyond it |
| SimpleFs.Storage.ReadFile | src/kernel/core/simplefs.c:631-713 | A file that the map holds is delivered up to maxlen with the recorded size reported, and on a reliable drive with an intact volume the read succeeds; the rest of the buffer is untouched, and for an unknown name all of it; on FAT32 the chain read below |
| FatLayout.ReadWholePrefix | src/kernel/core/simplefs.c:648-678 | If a chain of at most 4096 clusters covers the wanted bytes, a read that stopped normally has delivered all of them, equal to the prefix of the concatenated clusters |
| FatLayout.ReadCannotFail | src/kernel/core/simplefs.c:648-678 | On a reliable drive, with a covering chain whose sectors can be addressed, the read does not fail |
| FatLayout.ScanSeesWholeRoot | src/kernel/core/simplefs.c:199-256 | If the root chain ends within 256 clusters, the entries the scan listed are exactly those before the end marker along the whole chain |
| FatLayout.ScanCannotFail | src/kernel/core/simplefs.c:199-256 | When the root directory can be scanned to its end through addressable sectors, no scan comes to a sector that cannot be addressed |
| FatLayout.LinkIsGood | src/kernel/core/simplefs.c:247-254 | Nor to a link below 2 |
| FatLayout.NotMountedIsUnmountable | src/kernel/core/simplefs.c:168-257 | If no read was refused, a disk that was not mounted has no usable boot sector or no root directory that can be scanned to its end |
| FatLayout.EndedChainIsLongest | src/kernel/core/simplefs.c:247-254 | No walk gets past a cluster whose link is an end mark |
| FatLayout.ChainPrefix | src/kernel/core/simplefs.c:85-104 | Two walks from one cluster visit the same clusters as far as both go |
| FatDisk.BootIsUsable | src/kernel/core/simplefs.c:168-197 | A boot sector with the fields of a volume at their offsets is accepted and read as those fields |
| FatDisk.DriverFinds | src/kernel/core/simplefs.c:85-104 | The driver looks for cluster n at reserved + fats * size + (n - 2) * spc and for its link in the four bytes at byte 4n of the first FAT |
| FatDisk.ChainSectors | src/kernel/core/simplefs.c:649-665 | The sectors it reads along a chain of a volume can be addressed and hold the bytes of the chain |
| FatDisk.EntryMeans | src/kernel/core/simplefs.c:209-244 | The 32 bytes of a file entry are listed with its name, attributes, first cluster and size, and those of any other entry are not listed |
| FatDisk.ScanListsFiles | src/kernel/core/simplefs.c:199-256 | On a disk that holds a volume, a whole scan of the root lists exactly its files |
| FatDisk.VolumeIsMounted | src/kernel/core/simplefs.c:168-257 | If no read was refused, a disk that holds a volume is not left unmounted |
| FatDisk.FileCovered | src/kernel/core/simplefs.c:648-678 | The clusters of a file of the disk cover what is wanted of it, and the bytes read along them are its data |
| FatDisk.DeliveryIsData | src/kernel/core/simplefs.c:636-679 | What a read delivers of a file of the disk is its data |
| FatExample.ExampleHolds | src/kernel/core/simplefs.c:168-257 | There are disks that hold a volume: one with a file of any data of up to 512 bytes is given byte by byte |
| Fat32.TrimSpace | src/kernel/core/simplefs.c:106-116 | Removes exactly the trailing spaces of a field |
| Fat32.BuildShortName | src/kernel/core/simplefs.c:118-143 | The trimmed 8.3 name, with a dot only before a non-empty extension |
| Fat32.FatVolume.GetFatEntry | src/kernel/core/simplefs.c:91-104 | The 28-bit link of a cluster; fails on a reliable drive only for an unaddressable sector |
| Fat32.FatVolume.AddEntry | src/kernel/core/simplefs.c:209-244 | Appends the file an entry describes, unless it is deleted, an LFN part, a label, a directory, nameless, or past the 128th |
| Fat32.FatVolume.ScanSector | src/kernel/core/simplefs.c:207-245 | Lists the entries of one sector in order, up to the end marker |
| Fat32.FatVolume.ScanCluster | src/kernel/core/simplefs.c:202-246 | Lists the sectors of one cluster up to the end marker, or all those before the first sector that the drive refuses to read |
| Fat32.FatVolume.ScanLink | src/kernel/core/simplefs.c:199-256 | One round of the scan: the cluster is listed and the link followed, the scan is whole, or the sector refused or the bad link is the one the walk has come to |
| Fat32.FatVolume.MountAndScanRoot | src/kernel/core/simplefs.c:168-257 | On success the boot sector serves, its numbers are kept, the scan was whole, through addressable sectors, and the listing is exactly the first 128 file entries, in order, before the end marker or the end of at most 256 clusters of the root chain; on failure the boot sector was refused or does not serve, or a walk from the root cluster without an end marker came to a sector that the drive refused or to a link below 2 |
| Fat32.FatVolume.FindFile | src/kernel/core/simplefs.c:259-270 | The first listed file with the name, or none |
| Fat32.FatVolume.ReadCluster | src/kernel/core/simplefs.c:653-665 | Extends the delivered prefix by one cluster, or to the wanted length |
| Fat32.FatVolume.ReadChain | src/kernel/core/simplefs.c:649-678 | The bytes delivered are the first ones of the clusters visited, the visited clusters are a chain from the first, and why it stopped; it ends on every FAT, cyclic ones included |
| Fat32.FatVolume.ReadFile | src/kernel/core/simplefs.c:636-679 | With a covering chain, a successful read is exactly the first min(size, maxlen) bytes, and on a reliable drive it succeeds; the rest of the buffer is untouched |
| Pmm.Allocator.constructor | src/kernel/mem/pmm.c:26-39 | Every page starts in use |
| Pmm.Allocator.FreePages | src/kernel/mem/pmm.c:42-54 | Frees exactly the pages of the range that exist |
| Pmm.Allocator.FreePage | src/kernel/mem/pmm.c:67-71 | Frees exactly the page of the address, or nothing for an address outside the region |
| Pmm.Allocator.AllocatePage | src/kernel/mem/pmm.c:56-65 | Takes the least free page out of the free set and nothing else; NULL exactly when the set is empty |
| Pmm.SetBit | src/kernel/mem/pmm.c:58-60 | Setting one bit of a bitmap byte changes no other page |
| Pmm.ClearBit | src/kernel/mem/pmm.c:50-53 | Clearing one bit of a bitmap byte changes no other page |
| Pmm.UpperTake | src/kernel/mem/pmm.c:56-65 | Taking the least page of an upper interval of the region leaves the upper interval that starts one page later |
| Pmm.BitmapFitsIff | src/kernel/core/main.c:136-165 | The pages kept back hold the bitmap if and only if max_pages < 32768 or max_pages mod 32768 is not in 1..7 |
| Pmm.SpillIsInFirstPage | src/kernel/core/main.c:138-165 | Where they do not, the spilled byte lies in the first page the allocator gives out |
| PageTables.WalkIsLeaf | src/kernel/mem/vmm.c:21-69 | In a tree of tables the effective rights of a page, allowed at every level, are those of its last-level entry alone |
| PageTables.TranslateIsLeaf | src/kernel/mem/vmm.c:21-69 | The four-level walk of a virtual address finds what its last-level entry says |
| PageTables.SamePageIff | src/kernel/mem/vmm.c:30-33 | Two addresses use the same four indices if and only if they lie in the same 48-bit virtual page |
| PageTables.AddTable | src/kernel/mem/vmm.c:36-39 | Hanging a cleared unused frame below a missing entry keeps the tree (no shared frames, user access on the whole path) and every translation |
| PageTables.UpgradeLink | src/kernel/mem/vmm.c:40-42 | Making an upper entry user-accessible keeps the tree and every page's translation and effective rights |
| PageTables.SetLeaf | src/kernel/mem/vmm.c:68-69 | Setting a last-level entry keeps the tree and changes that page only |
| PageTables.AddKernelTable | src/kernel/mem/vmm.c:36-39 | A table added for the kernel leaves all links without user access |
| PageTables.AddressAndFlags | src/kernel/mem/vmm.c:36-44 | Or-ing flags into an aligned address and masking them off again gives address and flags back |
| PageTables.LeafEntry | src/kernel/mem/vmm.c:69 | The stored entry has the page's address and exactly the given write and user rights, and is present |
| Vmm.AddressSpace.constructor | src/kernel/mem/vmm.c:16-19 | The fresh root is a tree that maps nothing |
| Vmm.AddressSpace.ClearPage | src/kernel/mem/vmm.c:9-14 | All 512 entries of the page are zero and no other page changes |
| Vmm.AddressSpace.NextTable | src/kernel/mem/vmm.c:35-66 | One level of the descent: while frames last, the entry leads to a table with the asked access, the least free frame is used exactly if the table was missing, and no translation changes; otherwise memory is used up |
| Vmm.AddressSpace.Descend | src/kernel/mem/vmm.c:29-66 | The descent reaches the last-level table if and only if there are as many free frames as missing tables; it uses exactly those, the least ones, adds exactly the tables on the way, changes no translation, and gives no link user access unless asked |
| Vmm.AddressSpace.MapPage | src/kernel/mem/vmm.c:21-73 | A point update of the abstract page map: the page of v leads to p with exactly the given rights, every other page keeps translation and effective write and user rights; it succeeds if and only if there are as many free frames as missing tables, and takes those frames from the bottom |
| Boot.StartMemory | src/kernel/core/main.c:136-285 | The outcome of boot for every size of memory: with the heap starting after the bitmap and the tables, it is grown there, each page mapped to itself, writable and kernel-only, whenever it ends within the room; with up to 256 MiB of memory a heap of 8 or more pages (the kernel asks for 2048 or more) is grown if and only if it does, and one that starts within the room and would pass it stops boot, for want of contiguity at five sizes of memory and for want of memory at all others. While the heap stays in the mapped part of the region, every address below 2^48 of low memory, that part and the further ranges leads to itself, writable and kernel-only, and every other one is unmapped |
| Boot.BuildTables | src/kernel/core/main.c:136-210 | All memory after the bitmap is given out from the bottom, one page for each table of the root, low memory, the region and the further ranges, no more and no fewer, and exactly the pages of these ranges are mapped, each to itself, writable and kernel-only; or memory is too little for the tables |
| Boot.HeapRoomIsWholeIff | src/kernel/core/main.c:138-185 | The room is the whole mapped part of the region if and only if memory is not 32769 to 32775 pages; for those it ends at 128 MiB |
| Boot.OnePageLess | src/kernel/core/main.c:136-285 | The instance: of two memories that both leave enough pages, the one of 32776 pages gets its heap of 32700 pages and the one of 32775 pages is found not contiguous |
| Boot.TablesAtOneMegabyte | src/kernel/core/main.c:171-185 | A region of 127 to 129 MiB from the second megabyte on needs 68 tables |
| Boot.LowRange | src/kernel/mem/vmm.c:30-33 | A range below 1 GiB that starts in the first two megabytes needs one last-level table for each two megabytes up to its end |
| Boot.SpillHidesPages | src/kernel/core/main.c:138-185 | For a spilling bitmap, the root table entry of page 0 makes the first two pages after the solid ones read as in use: what is left is all pages below them, and those above |
| Boot.BuildRoot | src/kernel/core/main.c:169-174 | The root table and its first mapping, with the byte of the bitmap that they overwrite where it spills: a page goes for the root and for each table of page 0, from the bottom, nothing becomes free, and the two pages after the solid ones read as in use |
| Boot.RootEntry | src/kernel/mem/vmm.c:36-44 | In kernel tables the first root entry is the address of its table with exactly the present and write flags |
| Boot.MapSelf | src/kernel/core/main.c:171-185 | One identity mapping adds exactly its page, led to itself, writable and kernel-only, to the pages mapped so, every other page staying as it was, and takes a page for each table it is the first to need; or memory is too little |
| Boot.MapRange | src/kernel/core/main.c:171-191 | The identity-mapping loop adds exactly the pages of the range, each led to itself, and takes a page for each table that is needed and not there yet; or memory is too little |
| Boot.MapAll | src/kernel/core/main.c:182-210 | The same for a list of ranges |
| Boot.OneMoreAtHome | src/kernel/mem/vmm.c:68-69 | Leading one page to itself adds that page to a map of pages that lead to themselves, and nothing else |
| Boot.IdentityIsExact | src/kernel/core/main.c:171-210 | Where all ranges lie below 2^48, an address leads to its own page if a range holds that page and is unmapped if none does |
| Boot.MapHeapPage | src/kernel/core/main.c:267-282 | Mapping a heap page inside the mapped range takes no frame; earlier heap pages stay mapped to themselves |
| Boot.TakeHeapPage | src/kernel/core/main.c:244-275 | While only allocations were made, the page handed out is the one after the last, and past the limit one of the tail or none |
| Boot.StartHeap | src/kernel/core/main.c:244-267 | The first heap page is the first page that is left |
| Boot.AddHeapPage | src/kernel/core/main.c:268-283 | One round of the growing loop: below the limit it always succeeds and keeps the identity map, and at a limit that reads as in use it never does |
| Boot.GrowHeap | src/kernel/core/main.c:244-283 | A heap that ends below the limit is grown from the first page left, and one that would pass a page that reads as in use is not: memory runs out, or the next page does not follow; a heap that is grown consists of pages that were free, and the identity map is kept |
| Boot.RunsEndInTime | src/kernel/core/main.c:244-283 | Eight or more consecutive pages that read as free all lie before the misreported ones |
| Pmm.Allocator.Overwrite | src/kernel/core/main.c:138-170 | What a store over one bitmap byte does to the set of free pages |
| HeapBlocks.RunInvariant | src/kernel/mem/heap.c:19-56 | Over every run of valid requests and releases the blocks tile the arena, no two free blocks touch, and the live payloads are exactly those handed out and not yet released |
| HeapBlocks.RunBackToInitial | src/kernel/mem/heap.c:12-56 | Any run after which nothing is held leaves the single initial block |
| HeapBlocks.AllocGrants | src/kernel/mem/heap.c:19-39 | A granted payload is new, between size and size + 40 bytes, and changes no other |
| HeapBlocks.AllocFailsIff | src/kernel/mem/heap.c:20-38 | No block is granted if and only if no free block is large enough |
| HeapBlocks.ReleaseRemoves | src/kernel/mem/heap.c:41-56 | Releasing removes that payload and no other, wherever blocks are merged |
| HeapBlocks.ReleaseUndoesAlloc | src/kernel/mem/heap.c:19-56 | Freeing what was just allocated restores the exact list of blocks from before |
| HeapBlocks.AllFreeIsInitial | src/kernel/mem/heap.c:46-55 | With nothing live the heap is its single initial block |
| HeapBlocks.CoalesceSettles | src/kernel/mem/heap.c:46-55 | One forward pass suffices: afterwards no two neighbours are free, the total is unchanged, and the live payloads are where they were |
| HeapBlocks.LiveInside | src/kernel/mem/heap.c:19-39 | Live payloads lie inside the arena and apart from each other, headers included |
| Heap.KernelHeap.constructor | src/kernel/mem/heap.c:12-17 | One free block over the whole arena |
| Heap.KernelHeap.Kmalloc | src/kernel/mem/heap.c:19-39 | The linked nodes after the call are those of the block sequence; NULL with nothing changed exactly when nothing fits; otherwise a payload nobody holds |
| Heap.KernelHeap.Kfree | src/kernel/mem/heap.c:41-56 | The linked nodes after marking and merging are the coalesced block sequence, and only that payload is gone |
| PngFormat.DecodeInvertsEncoding | src/kernel/core/png.c:158-281 | Round trip: for every 8-bit RGB or RGBA picture, every filter 0 to 4 per row, every split into stored blocks and every split into IDAT chunks among other chunks, decoding gives the picture back |
| PngFormat.EveryPictureEncodes | src/kernel/core/png.c:158-281 | Every picture whose image data fits in one chunk has such a file, for every choice of filters, so the round trip is never about nothing |
| PngFormat.FileHead | src/kernel/core/png.c:163-195 | The files of the round trip begin with the signature and an IHDR chunk of 13 bytes that holds width and height, high byte first, depth 8, colour type 2 or 6 and three zeros |
| PngFormat.ChunkBytes | src/kernel/core/png.c:172-186 | A chunk is its length, high byte first, its type, its body and four bytes more |
| PngFormat.DecodedSample | src/kernel/core/png.c:260-267 | Every sample of every pixel of the decoded image is the original one, with alpha 255 where the picture has none |
| PngFormat.DecodeRowsInverts | src/kernel/core/png.c:254-272 | Decoding filtered rows gives the rows, each undone against the row above it |
| PngFormat.ParseMiddle | src/kernel/core/png.c:176-219 | The IDAT bodies are collected in order across any interleaving with other chunks |
| PngFormat.HeaderRoundTrip | src/kernel/core/png.c:188-195 | The header of a picture is read back as written |
| Inflate.InflateInverts | src/kernel/core/png.c:60-96 | Whatever the split into stored blocks, their data comes out in order |
| Inflate.BlockBytes | src/kernel/core/png.c:61-75 | A stored block is a byte with the final bit and type 0, the length and its complement, low byte first, and the data |
| Inflate.BitReader.constructor | src/kernel/core/png.c:49-54 | Nothing is buffered at first |
| Inflate.BitReader.GetBits | src/kernel/core/png.c:26-38 | Takes the low n bits off the number formed by everything still to be read, zeros past the end |
| Inflate.BitReader.AlignByte | src/kernel/core/png.c:40-43 | Drops the buffered bits and no byte |
| Inflate.Grow | src/kernel/core/png.c:77-88 | A buffer of at least the needed size with the same leading bytes |
| Inflate.ReadBlock | src/kernel/core/png.c:61-95 | One stored block: rejected, or its data appended and its final bit reported |
| Inflate.ZlibInflate | src/kernel/core/png.c:45-101 | The data of all stored blocks, or failure, exactly as the block format says |
| PngFilter.UnfilterInverts | src/kernel/core/png.c:103-156 | For every filter type, undoing the filter gives the row back, byte by byte |
| PngFilter.UnfilterIsRebuilt | src/kernel/core/png.c:103-156 | The undone row is that of section 9 of the PNG standard, stated for each type by left, above and upper left |
| PngFilter.FilterIsStandard | src/kernel/core/png.c:103-156 | The filter that is undone is that of the standard as well |
| PngFilter.UnfilterScanline | src/kernel/core/png.c:103-156 | For every byte of the row, outright: type 1 adds the byte to the left, type 2 the one above, type 3 half their sum, type 4 the one of left, above and upper left that is nearest to left + above - upper left, ties in that order, modulo 256; every other type copies |
| PngFilter.UnfilterSub | src/kernel/core/png.c:111-117 | Every byte becomes the sum, modulo 256, of the filtered one and the byte bpp places to the left of it in the result |
| PngFilter.UnfilterUp | src/kernel/core/png.c:118-124 | Every byte becomes the sum, modulo 256, of the filtered one and the byte above |
| PngFilter.UnfilterAverage | src/kernel/core/png.c:125-133 | Every byte becomes the sum, modulo 256, of the filtered one and half the sum of left and above |
| PngFilter.UnfilterPaeth | src/kernel/core/png.c:134-153 | Every byte becomes the sum, modulo 256, of the filtered one and the nearest of left, above and upper left |
| Png.ParseChunks | src/kernel/core/png.c:166-219 | The header and image data that the chunk sequence means, or the reason it is refused |
| Png.AppendIdat | src/kernel/core/png.c:196-211 | The image data so far followed by the new body |
| Png.ExpandRow | src/kernel/core/png.c:260-267 | A row becomes RGBA at its place in the picture; the other rows stay |
| Png.DecodeRow | src/kernel/core/png.c:255-267 | One filtered row is undone and expanded |
| Png.DecodeImage | src/kernel/core/png.c:254-272 | All rows, with the two row buffers changing places after each |
| Png.PngDecodeRgba | src/kernel/core/png.c:158-281 | On every input of at most 2^31 bytes the outcome and the pixels are those of the format: image, rejection, or a size whose 32-bit arithmetic wraps |
| XhciRings.EventsDeliveredInOrder | src/kernel/drivers/usb/xhci/xhci_events.c:53-70 | In every interleaving with a controller that wraps at 256 and never overruns, the polled events are a prefix of the posted ones, and a poll fails exactly when nothing is outstanding |
| XhciRings.EventStepInv | src/kernel/drivers/usb/xhci/xhci_events.c:53-70 | One post or poll keeps the agreement of slots, indices and cycle states |
| XhciRings.EventRing.constructor | src/kernel/drivers/usb/xhci/xhci.c:1149-1163 | The cleared ring with cycle state 1 |
| XhciRings.EventRing.PollEvent | src/kernel/drivers/usb/xhci/xhci_events.c:53-70 | Returns the next event, advancing index and cycle state, exactly when its cycle bit matches |
| XhciRings.First510Delivered | src/kernel/drivers/usb/xhci/xhci.c:326-344 | With a controller that goes where the Link TRB points and at most 255 outstanding, it receives exactly the pushed TRBs in order, and while fewer than 510 have arrived an outstanding one arrives after at most two looks; at 510 nothing more arrives |
| XhciRings.NeverMoreThan510 | src/kernel/drivers/usb/xhci/xhci.c:1137-1142 | In no interleaving does the controller receive a 511th TRB: the Link TRB keeps the cycle bit of its allocation |
| XhciRings.TwoLooks | src/kernel/drivers/usb/xhci/xhci.c:326-344 | Another TRB arrives within two looks if and only if one is outstanding and fewer than 510 have arrived |
| XhciRings.DeliveringStep | src/kernel/drivers/usb/xhci/xhci.c:725-736 | One push or look keeps delivery in order |
| XhciRings.Stamp | src/kernel/drivers/usb/xhci/xhci_hid.c:237-240 | Forcing the cycle bit changes no other bit of a TRB |
| XhciRings.TransferRing.constructor | src/kernel/drivers/usb/xhci/xhci.c:704-716 | A cleared ring whose last slot holds the address of the first one and the control word 0x1803 |
| XhciRings.LinkFields | src/kernel/drivers/usb/xhci/xhci.c:704-716 | That word is a Link TRB with the toggle bit and cycle bit 1, and its pointer is the ring's own first slot |
| XhciRings.TransferRing.PushTrb | src/kernel/drivers/usb/xhci/xhci.c:326-344 | Writes the stamped TRB at the index, which wraps before the Link TRB with the cycle state toggled; the EP0 and interrupt rings push alike |
| HidReport.DecodingInvertsPacking | src/kernel/drivers/usb/xhci/xhci_events.c:159-247 | For every supported mouse descriptor with an X and a Y field and every report that packs values for its fields, the event loop reports exactly the packed X, Y, wheel and button values |
| Hid.ReceiveReport | src/kernel/drivers/usb/xhci/xhci_events.c:159-247 | End to end: a device that has parsed the bytes of a supported descriptor reports of the bytes packed for any field values exactly those values |
| Hid.IgnoredIff | src/kernel/drivers/usb/xhci/xhci_events.c:163-168 | For every supported descriptor with X and Y, a report is ignored if and only if the descriptor states report IDs and the report is empty or does not begin with the last of them |
| Hid.SortReport | src/kernel/drivers/usb/xhci/xhci_hid.c:33-207 | End to end: a device that has parsed the bytes of such a descriptor ignores exactly those reports |
| Hid.WholeReportIsWithin | src/kernel/drivers/usb/xhci/xhci_events.c:159-247 | A buffer as long as the fields of the descriptor holds every bit that is read of it |
| Hid.PackedReportIsWithin | src/kernel/drivers/usb/xhci/xhci_events.c:159-247 | A packed report reaches to the end of every field that the record has, so the decoder reads nothing beyond it |
| HidMouse.ParserFindsFields | src/kernel/drivers/usb/xhci/xhci_hid.c:33-207 | For every supported descriptor, with page, size and count stated in any order and persisting from item to item, the parser records the place, width and kind of the first X, Y and wheel field and of the first button group as the widths before them add up, and the last report ID stated; it is valid exactly when there are an X and a Y field |
| HidMouse.PartsStep | src/kernel/drivers/usb/xhci/xhci_hid.c:70-200 | The same from any state inside the mouse collection, part by part: a main item with what was stated since the last one |
| HidExample.ExampleIsSupported | src/kernel/drivers/usb/xhci/xhci_hid.c:33-207 | The example mouse of USB HID 1.11 (appendix E.10) is supported; its three buttons are found at bit 0, X at 8 and Y at 16, both 8 bits and relative |
| HidExample.ExampleBytes | src/kernel/drivers/usb/xhci/xhci_hid.c:70-94 | Its items are written as exactly the fifty bytes that the standard prints |
| HidReport.PackReportCarries | src/kernel/drivers/usb/xhci/xhci_events.c:159-247 | For every list of field values there is a report that packs them, so the statement above is never about nothing |
| HidReport.FieldIsValue | src/kernel/drivers/usb/xhci/xhci_events.c:188-247 | A field extracted at the sum of the widths before it is the value packed there |
| HidReport.ButtonsAreSent | src/kernel/drivers/usb/xhci/xhci_events.c:172-183 | The button field is the packed button values, cut to 32 bits |
| HidDescriptor.ParseItems | src/kernel/drivers/usb/xhci/xhci_hid.c:70-94 | Parsing the bytes of a list of items is running through their meanings in order |
| HidDescriptor.TokenOfItem | src/kernel/drivers/usb/xhci/xhci_hid.c:71-94 | A written short item is read as that item |
| HidDescriptor.LeBytesRoundTrip | src/kernel/drivers/usb/xhci/xhci_hid.c:90-94 | A little-endian item value of 0, 1, 2 or 4 bytes reads back |
| HidBits.GetBitsU32 | src/kernel/drivers/usb/xhci/xhci_hid.c:4-15 | The bit loop is (N / 2^bitoff) mod 2^min(bits, 32) of the little-endian number N of the buffer |
| HidBits.GetBitsS32 | src/kernel/drivers/usb/xhci/xhci_hid.c:17-31 | The signed version is the two's-complement value for widths 1 to 32, and 0 otherwise |
| HidBits.ExtractAxis | src/kernel/drivers/usb/xhci/xhci_events.c:188-207 | The inlined copy computes the same for widths up to 32, and reads 32 bits of wider fields |
| HidBits.PackedValue | src/kernel/drivers/usb/xhci/xhci_events.c:188-247 | Packing values one after another and taking the bits at the sum of the widths before one gives that value |
| HidBits.PackedStretch | src/kernel/drivers/usb/xhci/xhci_events.c:172-183 | Any stretch of packed values sits at the sum of the widths before it |
| HidMouse.UsageSeen | src/kernel/drivers/usb/xhci/xhci_hid.c:159-167 | The usage the parser gives field f of an Input item is the f-th one stated for that item, by a list or by a range, and none past them |
| HidMouse.NotesAreFirst | src/kernel/drivers/usb/xhci/xhci_hid.c:158-193 | What an Input item adds to the record is exactly, for each axis not recorded before, the first of its fields with that usage; the last stated usage serves for all further fields |
| Hid.NoteInput | src/kernel/drivers/usb/xhci/xhci_hid.c:158-193 | All fields of an Input item, in order |
| Hid.ItemValue | src/kernel/drivers/usb/xhci/xhci_hid.c:90-93 | The item value is the little-endian number of its bytes |
| HidMouse.LeadStep | src/kernel/drivers/usb/xhci/xhci_hid.c:96-119 | After any global and local items in any order, the parser holds for page, size, count and report ID the value last stated, or the one from before, and the usages listed |
| Hid.HidDevice.MainItem | src/kernel/drivers/usb/xhci/xhci_hid.c:120-199 | Collections, their ends, and Input or Output items |
| Hid.HidDevice.InputOrOutput | src/kernel/drivers/usb/xhci/xhci_hid.c:146-198 | Records fields inside a mouse collection and advances the bit position by count times size |
| Hid.HidDevice.ParseReportDesc | src/kernel/drivers/usb/xhci/xhci_hid.c:33-207 | On every descriptor, malformed ones included, the record left is the one the items mean |
| Hid.HidDevice.DecodeReport | src/kernel/drivers/usb/xhci/xhci_events.c:159-247 | A report is ignored if and only if the record has an ID and the report is empty or begins with another; otherwise the signed axis fields and the button field of the record |
| Keyboard.KeystrokesDelivered | src/kernel/drivers/usb/xhci/xhci_events.c:282-305 | In any interleaving of reports and reads that never leaves more than 255 characters outstanding, what was read followed by what waits is what the reports type, in order, with one character for each time a mapped key went down |
| Keyboard.RunEnqueuesAll | src/kernel/drivers/usb/xhci/xhci_events.c:289-299 | Pushing what a report types, one character at a time in a run, leaves the queue that the report handler leaves |
| Keyboard.AllAcceptedIff | src/kernel/core/input.c:65-72 | No pushed character is dropped if and only if an unbounded queue would never have held more than 255 |
| Keyboard.PoppedIsPrefixOfAccepted | src/kernel/core/input.c:65-84 | In every interleaving of pushes and pops, what was accepted is what was popped followed by what waits, at most 255 characters |
| Keyboard.TypedOncePerPress | src/kernel/drivers/usb/xhci/xhci_events.c:289-304 | Over a run of reports that repeat no key, each mapped key types its character exactly once per transition from up to down |
| Keyboard.OneStrokePerPressIff | src/kernel/drivers/usb/xhci/xhci_events.c:4-12 | One report strikes every key exactly once for going down if and only if no such key is listed twice in it |
| Keyboard.StrokesInOrder | src/kernel/drivers/usb/xhci/xhci_events.c:289-299 | Strokes keep the order of the report |
| Keyboard.CharactersIdentifyKeys | src/kernel/drivers/usb/xhci/xhci_events.c:14-46 | In the table of characters no two keys type the same one, whatever the shift state |
| Keyboard.TypesIffMapped | src/kernel/drivers/usb/xhci/xhci_events.c:14-46 | Exactly the key codes 0x04 to 0x38 other than 0x29 and 0x32 have a character in the table |
| Keyboard.AsciiIsKeyCap | src/kernel/drivers/usb/xhci/xhci_events.c:14-46 | Every key types, with and without shift, the character that the table of a US keyboard has for it, said outright as two strings |
| Keyboard.ShiftKeys | src/kernel/drivers/usb/xhci/xhci_events.c:286 | Shift is held exactly when bit 1 or bit 5 of the modifiers is set |
| Keyboard.CharRing.constructor | src/kernel/core/input.c:29-30 | The queue starts empty |
| Keyboard.CharRing.PushChar | src/kernel/core/input.c:65-72 | Appends the character, or drops it when 255 wait |
| Keyboard.CharRing.PopChar | src/kernel/core/input.c:74-84 | Takes the oldest character; fails exactly when the queue is empty |
| Keyboard.KeyboardDevice.HandleReport | src/kernel/drivers/usb/xhci/xhci_events.c:282-305 | Pushes exactly the characters that the table has for the keys newly down, with shift when bit 1 or 5 of the modifiers is set, and remembers the keys; short transfers do nothing |
| TaskContext.ContextConserved | src/kernel/tasking/task.c:12-65 | In every run in which tasks leave each other's saved frames alone, a switch turns to an active task that continues with exactly the registers it was last suspended with, or the fresh ones of its creation |
| TaskContext.FramesAreOwed | src/kernel/tasking/task.c:12-65 | At every point of such a run each waiting task has its last registers in its frame |
| TaskContext.ExitedNeverRuns | src/kernel/tasking/task.c:56-65 | A task that has exited never runs again, whatever is scheduled or created later |
| TaskContext.RunIsGood | src/kernel/tasking/task.c:12-65 | After every event the current task is active, unless the machine has halted |
| TaskContext.ResumeUndoesSave | src/kernel/arch/interrupt_stubs.s:39-110 | Popping a pushed interrupt frame restores all fifteen registers and the five words of iretq |
| TaskContext.SavedFrame | src/kernel/arch/interrupt_stubs.s:39-110 | Pushing an interrupt frame puts each register and each word of iretq at its own place below the stack pointer and changes no other word |
| TaskRing.WaitIsExact | src/kernel/tasking/task.c:19-65 | Whatever the others do, exits and creations included, a task runs after exactly as many interruptions and exits as there were active tasks ahead of it and tasks created ahead of it meanwhile, and not before |
| TaskRing.SpawnStep | src/kernel/tasking/task.c:19-41 | A created task makes the wait one turn longer for exactly those whose turn comes after the end of the table |
| TaskRing.RoundRobin | src/kernel/tasking/task.c:43-54 | With k active tasks, any k consecutive interruptions choose every active task exactly once |
| TaskRing.StepBringsCloser | src/kernel/tasking/task.c:43-65 | One interruption or exit brings the turn of every other task exactly one step closer |
| TaskRing.SearchSkipsInactive | src/kernel/tasking/task.c:45-51 | The search finds the first active task after the current one, or there is none |
| Tasks.Scheduler.constructor | src/kernel/tasking/task.c:8-10 | The table starts cleared |
| Tasks.Scheduler.Init | src/kernel/tasking/task.c:12-17 | The running code becomes the only, active, task |
| Tasks.Scheduler.CreateTask | src/kernel/tasking/task.c:19-41 | Writes the initial frame below the stack top, word by word: fifteen zero registers, the entry point, the selectors 0x08 and 0x10, flags 0x202 and the stack top; and adds an active task there; with ten tasks nothing happens |
| Tasks.Scheduler.ScheduleTask | src/kernel/tasking/task.c:43-54 | Saves the stack pointer of the running task and returns that of the next active one |
| Tasks.Scheduler.ExitTask | src/kernel/tasking/task.c:56-70 | Deactivates the running task and turns to the next active one, or halts when none is left |

## Left out

- The null-pointer guards of the C functions and the missing-drive case: objects are always there.
- Transfers that fail halfway through a sector: each sector write is atomic. What a failed read leaves in the sector buffer is arbitrary.
- SfsVolume.CrashOldOrNew: starts from a disk that formatting and earlier finished writes produced, because mounting does not check the layout it finds.
- SfsRuns.RunRefinesMap: excludes crashes inside the window of the stale free pointer, for which `SfsVolume.CrashLeavesVolumeOkIff`, `SfsVolume.StaleSuperblockClobbers` and `SfsVolume.StaleRepairedIff` say what happens instead, and crashes between a write that failed half-way and the next finished one, for which `SfsFailures.CrashAfterFailures` does.
- SimpleFs.ReadFromFat32: root directories of more than 256 clusters and what is wanted of a file beyond 4096 clusters, where the driver stops; it shows 128 files. Volumes lie below sector 2^28.
- The listing, counting and size queries of the storage layer: plain scans of the same table.
- Vmm.AddressSpace.MapPage: claims nothing about translations once the allocator has run dry; the code then links frame 0 as a table. TLB entries, `invlpg` and CR3 are not modelled.
- The bitmap of the page allocator is an array of its own. Where its last byte lies under the root table, what the table stores there is written to it (`Boot.BuildRoot`); the reverse, the root entry changing when a page of that byte is handed out, is not modelled: that happens only once all pages below are used up, and from then on nothing is claimed of the tables.
- Boot.StartMemory: the framebuffer, code and stack ranges are parameters; region and heap sizes are at most 2^48, the width of a virtual address. With more than 256 MiB of memory, a heap that passes the mapped part of the region may or may not be grown, depending on the further ranges; nothing is claimed of it. What each address leads to is stated when the further ranges lie below 2^48, since the tables tell no others apart, and while the heap stays in the mapped part.
- Heap.KernelHeap.Kmalloc: sizes are unbounded numbers; the sum `size + 40` wraps in the source only for requests within 40 bytes of 2^64, which no arena can meet.
- Heap headers stand in a map from node address to header, so overwriting a header through a payload is not modelled.
- CRC, Adler-32 and compressed deflate blocks, which the decoder ignores or rejects.
- PngFormat.DecodeInvertsEncoding: files are at most 2^31 bytes, so that the capacity-doubling loops end; allocation failure during decoding is not modelled.
- PngFilter.UnfilterScanline: the row above is always present, as in the only caller.
- A decoded size whose 32-bit products wrap is reported as its own outcome; what the C code computes there is not modelled.
- A ring push that rewrites the Link TRB would deliver without bound; only the push the kernel has is modelled.
- Doorbells, completion codes, slot and endpoint checks, and the re-arming of the interrupt ring in the event loop.
- XhciRings.EventsDeliveredInOrder: the controller keeps at most 256 events outstanding; a controller that overruns the driver is not modelled.
- HidMouse.ParserFindsFields: the descriptor is one mouse collection with at most one more collection open inside it at a time; its main items are Input items, collections and their ends; report IDs are single bytes and stand before the first Input item; every Input item has 1 or more fields of 1 to 32 bits, fewer than 65536 bits in all; the usages of Input items, in lists as in ranges, are 16-bit (a four-byte usage states its page as well, which the parser ignores), and generic-desktop Input items have at most 16 listed usages or a whole range; Push, Pop, delimiters and long items do not occur. On other descriptors `Hid.HidDevice.ParseReportDesc` still says what the parser records.
- Hid.HidDevice.DecodeReport: reports that are not ignored and whose recorded fields reach past the end of the transfer buffer, where the code reads whatever memory follows.
- The button page ends the field loop of an Input item in its first round; the model takes that round without the loop.
- Absolute pointer scaling, pointer clamping and the boot-protocol mouse: short arithmetic on the decoded values.
- TaskContext.ContextConserved: assumes that tasks leave each other's saved frames alone, since nothing in the kernel enforces it; frames are 8-byte words and stack tops are at least 160.
- The in-memory file store, the desktop, console, setup wizard, descriptor tables, system calls, PCI and AHCI code, the boot loader and the flashing tool.
