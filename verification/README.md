# Verified model of zinix memory management and FAT storage

zinix is a RISC-V teaching kernel in Rust that vendors the rust-fatfs library. This project models four of
its components in Dafny and proves what they are relied upon for.

**Page frames.** The buddy allocator keeps eleven free lists and one parity bit per pair of buddies. The
model keeps the lists, counters and bit vectors as the code has them and ties them to two ghost sets: the
free blocks of each order and the pages handed out. The lists are proved to be a function of the pages in
use. Every run of requests and returns is a trace in which each reply is the one the pages in use call for, and
whatever is held at the end, returning it restores the initial lists, for any page count.

**FAT storage.** A tower of refinements, one module per layer: 512-byte blocks, flat bytes, a mirrored slice
of the disk, packed 12-, 16- and 32-bit FAT entries, scans that decode from rolling bytes, cluster chains,
the mounted volume with its cached free count, files, and directories. For files the top states that every run
of reads, writes, seeks and truncations, single calls and whole transfers alike, is the same run on one flat byte
sequence with a cursor, and that every other file keeps its chain and its bytes. A directory is the 32-byte slots
of such a stream, or of the fixed root region. Storing an entry inserts it into the listing a reader sees and
changes nothing else, if and only if what the directory grew by is quiet; creating a file looks the name up,
finds a short name nobody has and stores the entry, which keeps the short names of a clean directory distinct
unless its chain, having no entry of its own, has to grow. Beside the tower stand volume formatting (for which sizes
it succeeds, and that mounting reads the header, the FATs and the root it writes back off the device as an empty
volume), long names (round trip through slots, and what an arbitrary row of slots can spell) and short names (never a
duplicate, and the retries end). The two come together in one theorem: on every device that can be formatted, the
root directory found through the header is empty, takes a file of any acceptable name, and then lists that file alone.

**Address space.** First-fit search over ordered virtual-memory areas, insertion, removal and heap growth.

**Pipes.** The ring buffer as a bounded FIFO queue with a log of everything written and read.

Code that updates state is modelled by classes with the same fields and by loops; what a state means is a
ghost field or a specification function, and the laws are lemmas about those. Machine words are naturals with
their bounds written out (64-bit bitmap words, 32-bit offsets, wrapping checksums). The disk has no faults,
time stamps and setting the dirty flag are not modelled, and character comparison of names is a parameter.

Where code and documentation differ, the model follows the code. Properties that are false of the code are
stated with the exact condition under which they hold, each beside a lemma at an input where it fails:

| property | holds if and only if | fails at |
|---|---|---|
| a fixed placement is clear | `Vmas.FixedClearIff` | `Vmas.FixedCanOverlap` |
| a search does not subtract below zero | `Vmas.SearchDown`, `Vmas.SearchUp` | `Vmas.SegmentUnderflows` |
| unchecked insertion keeps areas disjoint | `Vmas.InsertedSafeIff` | `Vmas.InsertCanOverlap` |
| growing the heap looks over a forward range | `Vmas.MmStruct.ExpandBrk` | `Vmas.HeapAboveTop` |
| growth of the bit vector ends | `Bitmaps.DoublingReaches` | `Bitmaps.EmptyNeverReaches` |
| freeing counts what it frees | `FatTables.FreeCountExactIff` | `FatTables.CycleIsMiscounted` |
| the default format succeeds | `BootSectors.FormatSucceedsIff` | `BootSectors.GapIsRefused` |
| a formatted volume has all clusters free | `Formats.FormattedFreeIff` | `Mounts.LargestHasMarks` |
| a boot sector reads back | `BootRecords.BootSurvivesIff` | `BootRecords.LongCodeIsCut` |
| an information sector reads back | `BootRecords.InfoSurvivesIff` | `BootRecords.ReservedHintIsLost` |
| a long name reads back | `LongNames.NameSurvivesIff` | `LongNames.FillerIsLost` |
| only the slots written come into use | `Directories.OnlyAddsIff` | `DirStreams.RootGrowthExposes` |

The last one concerns the FAT32 root: only a directory that has an entry of its own gets zeroed clusters, so a
growing root exposes what its new cluster held before.

## Model

| member | source | states |
|---|---|---|
| `Bitmaps.AddedMaskInserts` | kernel/src/mm/bitmap.rs:66-77 | adding the mask of a clear bit inserts that position and touches no other |
| `Bitmaps.ClearedMaskRemoves` | kernel/src/mm/bitmap.rs:78-90 | masking a word removes that position and touches no other |
| `Bitmaps.DoublingReaches` | kernel/src/mm/bitmap.rs:41-49 | repeated doubling reaches a position if and only if there is a word to double |
| `Bitmaps.EmptyNeverReaches` | kernel/src/mm/bitmap.rs:41-49 | no number of doublings of an empty vector reaches position 0 |
| `Bitmaps.Bitmap.constructor` | kernel/src/mm/bitmap.rs:21-35 | just enough words for the length; the empty set |
| `Bitmaps.Bitmap.ExpandCapFor` | kernel/src/mm/bitmap.rs:45-49 | the vector is doubled until it holds the position, no further than that takes, and not at all if it held it; the set does not change |
| `Bitmaps.Bitmap.Set` | kernel/src/mm/bitmap.rs:66-77 | set insertion at any position |
| `Bitmaps.Bitmap.Clear` | kernel/src/mm/bitmap.rs:78-90 | set removal at any position |
| `Bitmaps.Bitmap.Get` | kernel/src/mm/bitmap.rs:91-107 | membership; the vector may grow, the set does not |
| `Bitmaps.Bitmap.TurnOver` | kernel/src/mm/bitmap.rs:108-115 | symmetric difference with one position |
| `BuddyRegion.Take` | kernel/src/mm/buddy.rs:91-120 | a listed block is an aligned run of pages not in use, and taking it keeps the partition of the region |
| `BuddyRegion.Release` | kernel/src/mm/buddy.rs:121-146 | giving back a block whose buddy is not listed keeps the partition and the no-two-buddies rule |
| `BuddyRegion.Containing` | kernel/src/mm/buddy.rs:91-120 | every aligned free run lies inside one listed block of at least its order |
| `BuddyRegion.ListedIffMaximal` | kernel/src/mm/buddy.rs:121-146 | a block is listed exactly when it is a maximal aligned free run |
| `BuddyRegion.Canonical` | kernel/src/mm/buddy.rs:121-146 | two reachable states with the same pages in use list the same blocks |
| `BuddyRegion.DrainedIsInitial` | kernel/src/mm/buddy.rs:47-79 | with no page in use, the lists are the initial ones, for any page count |
| `BuddyRegion.PagesConserved` | kernel/src/mm/buddy.rs:39-46 | pages in listed blocks and pages in use add up to the region |
| `Buddies.Pages2Order` | kernel/src/utils.rs:58-74 | the least order whose blocks are large enough, or the order count when none is |
| `Buddies.PairBitFlips` | kernel/src/mm/buddy.rs:212-256 | listing or unlisting a block flips its own pair's parity and no other, and the parity tells whether the buddy is listed |
| `Buddies.FreeArea.GetBitmapIndex` | kernel/src/mm/buddy.rs:260-273 | defined exactly on the block grid, and shared by a block and its buddy alone |
| `Buddies.FreeArea.AllocArea` | kernel/src/mm/buddy.rs:192-211 | takes the last listed block, with counter and parity bits in step; fails exactly on an empty list |
| `Buddies.FreeArea.InsertArea` | kernel/src/mm/buddy.rs:212-256 | merges exactly when the buddy is listed below the top order, and then the buddy is found in the list |
| `Buddies.NothingToSplit` | kernel/src/mm/buddy.rs:91-120 | all lists from an order up are empty exactly when the region has no aligned free run of that order |
| `Buddies.BuddyAllocator.constructor` | kernel/src/mm/buddy.rs:47-90 | manages the whole 4096-byte pages between two addresses: it starts at the first page boundary not below the one, and less than a page is left below the other; lists are the greedy decomposition |
| `Buddies.BuddyAllocator.ListOrder` | kernel/src/mm/buddy.rs:47-79 | one order of the greedy listing: no insertion merges, and the listed prefix ends at the next base |
| `Buddies.BuddyAllocator.AllocPages` | kernel/src/mm/buddy.rs:91-120 | a successful result was a free aligned run, exactly its pages come into use, and the split never merges back |
| `Buddies.BuddyAllocator.FreePages` | kernel/src/mm/buddy.rs:121-146 | malformed requests are refused and change nothing; a block in use is always taken back, whatever merges follow |
| `Buddies.BuddyAllocator.AllocArea` | kernel/src/mm/buddy.rs:91-120 | by address: fails exactly when no aligned run of the order is free |
| `Buddies.BuddyAllocator.FreeAreaAt` | kernel/src/mm/buddy.rs:121-146 | by address: accepted exactly for orders in range and aligned addresses from the region's start on |
| `Buddies.BuddyAllocator.GetFreePagesCnt` | kernel/src/mm/buddy.rs:39-46 | the counters give exactly the pages not in use |
| `Buddies.BuddyAllocator.Session` | kernel/src/mm/buddy.rs:91-146 | a client that holds nothing makes any moves and returns the rest: a trace of exact replies, and the initial lists at the end |
| `Buddies.BuddyAllocator.Perform` | kernel/src/mm/buddy.rs:91-146 | one move: a request is refused exactly when no aligned run of its order is free, else a free run comes into use and is held; a return takes exactly its block out of use |
| `Buddies.BuddyAllocator.RunMoves` | kernel/src/mm/buddy.rs:91-146 | any sequence of moves from any state, with whatever is held: every reply and every situation in between |
| `Buddies.BuddyAllocator.ReturnAll` | kernel/src/mm/buddy.rs:121-146 | whatever blocks are in use, returning them in turn ends in the initial lists |
| `Buddies.TraceHolds` | kernel/src/mm/buddy.rs:91-146 | at every point of a run the blocks held are apart and are exactly the pages in use |
| `Pipes.PipeRingBuffer.constructor` | kernel/src/fs/pipe.rs:127-136 | an empty queue |
| `Pipes.PipeRingBuffer.WriteByte` | kernel/src/fs/pipe.rs:137-144 | appends to the queue and the log; on a full ring all that was queued is lost, and order is kept exactly when the ring was not full |
| `Pipes.PipeRingBuffer.ReadByte` | kernel/src/fs/pipe.rs:145-153 | removes the oldest byte and logs it; on an empty ring 1023 stale bytes come up, and order is kept exactly when the ring was not empty |
| `Pipes.PipeRingBuffer.AvailableWrite` | kernel/src/fs/pipe.rs:154-171 | room and contents always add up to 1024, in all three states |
| `Pipes.PipeRingBuffer.Read` | kernel/src/fs/pipe.rs:172-182 | fills a prefix of the caller's buffer with the oldest bytes, as many as there are, and leaves the rest alone |
| `Pipes.PipeRingBuffer.Write` | kernel/src/fs/pipe.rs:183-193 | queues the longest prefix that fits |
| `Vmas.SearchUp` | kernel/src/mm/mm.rs:271-327 | the lowest gap among the areas that start in the range, if any; subtracts below zero if and only if the request is shorter than the range, there is no gap and an area crosses the upper end |
| `Vmas.SearchDown` | kernel/src/mm/mm.rs:271-327 | the highest such gap; subtracts below zero if and only if the request is shorter than the range and an area crosses the upper end |
| `Vmas.SegmentUnderflows` | kernel/src/mm/mm.rs:429-475 | a segment that the loader is granted across the top of the mmap range is such an area |
| `Vmas.LowestClearIff` | kernel/src/mm/mm.rs:294-309 | the lowest place is clear of all areas if and only if none reaches into the range from below or its bottom is taken anyway |
| `Vmas.HighestClearIff` | kernel/src/mm/mm.rs:310-326 | the highest place is clear of all areas if and only if some place is |
| `Vmas.WithinIsSafe` | kernel/src/mm/mm.rs:354-379 | where all areas come from searches of one range, as in the kernel map area, a search never subtracts below zero, what it finds is clear, and inserting that keeps it so |
| `Vmas.FixedClearIff` | kernel/src/mm/mm.rs:260-270 | a granted fixed placement overlaps nothing if and only if no area straddles its address |
| `Vmas.FixedFitsIff` | kernel/src/mm/mm.rs:260-291 | a place fits the range and is clear exactly when its address is in the range, granted and straddled by no area; an address below the range is not refused |
| `Vmas.FixedCanOverlap` | kernel/src/mm/mm.rs:260-270 | an area below the address that reaches past it is not seen |
| `Vmas.InsertedSafeIff` | kernel/src/mm/mm.rs:257-259 | unchecked insertion keeps the areas disjoint and loses none if and only if the new area overlaps none |
| `Vmas.InsertCanOverlap` | kernel/src/mm/mm.rs:257-259 | two page-aligned areas that overlap after insertion |
| `Vmas.MmStruct.AllocUnmapped` | kernel/src/mm/mm.rs:271-327 | dispatch of the three searches, with all outcomes: placed and where, no gap, or below zero; and exactly when the place is clear of all areas |
| `Vmas.MmStruct.InsertNoCheck` | kernel/src/mm/mm.rs:257-259 | inserting a gap that was found keeps all areas disjoint and adds just that one |
| `Vmas.MmStruct.DropVma` | kernel/src/mm/mm.rs:380-382 | removes the area that starts at the address, if any, and no other |
| `Vmas.MmStruct.FindVma` | kernel/src/mm/mm.rs:231-239 | the one area that contains the address, or none does |
| `Vmas.MmStruct.ExpandBrk` | kernel/src/mm/mm.rs:187-204 | granted exactly when no area stands in the way; then only the heap area's end moves and areas stay disjoint; the range runs backwards exactly for a heap above the mmap top |
| `Vmas.HeapAboveTop` | kernel/src/mm/mm.rs:476-497 | the loader is granted such a heap behind a segment that crosses the top |
| `FatTypes.FromClusters` | deps/rust-fatfs/src/fs.rs:41-79 | the type's bounds contain the count it was chosen for |
| `Geometry.FatHasRoom` | deps/rust-fatfs/src/boot_sector.rs:524-578 | the sized FAT has an entry for every cluster left after it is laid out, and two more |
| `Geometry.FatsFit` | deps/rust-fatfs/src/boot_sector.rs:580-626 | with one or two FATs the subtraction of their sectors never underflows |
| `Geometry.FatIsTight` | deps/rust-fatfs/src/boot_sector.rs:524-578 | for FAT16 and FAT32 at most two sectors' worth of entries are spare |
| `Geometry.Fat12IsTight` | deps/rust-fatfs/src/boot_sector.rs:524-578 | the same for FAT12, whose entries straddle sectors, when the cluster count is a FAT12 one |
| `BootSectors.SectorsPerFatIsSound` | deps/rust-fatfs/src/boot_sector.rs:524-626 | the computed FAT size satisfies the three sizing laws, with the quotients the code takes |
| `BootSectors.DefaultClusterSize` | deps/rust-fatfs/src/boot_sector.rs:491-522 | the rounded-up powers of two amount to a step function of the sector count |
| `BootSectors.ClusterSizeFat12` | deps/rust-fatfs/src/boot_sector.rs:491-522 | cluster sizes for a FAT12 volume of any size up to 4 MiB |
| `BootSectors.ClusterSizeFat16` | deps/rust-fatfs/src/boot_sector.rs:491-522 | cluster sizes for a FAT16 volume of any size |
| `BootSectors.ClusterSizeFat32` | deps/rust-fatfs/src/boot_sector.rs:491-522 | cluster sizes for a FAT32 volume of any size |
| `BootSectors.ValidSizesIff` | deps/rust-fatfs/src/boot_sector.rs:127-173 | sectors of 512 to 4096 bytes and clusters of 1 to 128 sectors pass, powers of two only |
| `BootSectors.SpoiltIsRefused` | deps/rust-fatfs/src/boot_sector.rs:175-303 | a valid block with one field spoilt is refused; information sector and copy may be any reserved sector |
| `BootSectors.MostClusters` | deps/rust-fatfs/src/boot_sector.rs:279-303 | a FAT32 block passes exactly from 65525 clusters to as many as there are numbers |
| `BootSectors.DefaultGeometry` | deps/rust-fatfs/src/boot_sector.rs:637-661 | which type each default volume gets, and that its FAT size and cluster count suit that type |
| `BootSectors.FormatSucceedsIff` | deps/rust-fatfs/src/boot_sector.rs:663-761 | formatting succeeds if and only if there are 42 sectors or more and not 8227 to 8234: between the largest FAT12 and the smallest FAT16 volume no type fits |
| `BootSectors.GapIsRefused` | deps/rust-fatfs/src/boot_sector.rs:637-661 | a volume of 8230 sectors is refused |
| `BootSectors.FormattedIsValid` | deps/rust-fatfs/src/boot_sector.rs:304-318 | a formatted block passes every mount check, keeps 16- and 32-bit fields in range, and its FAT covers its clusters |
| `Mounts.LayoutIsOk` | deps/rust-fatfs/src/fs.rs:736-750 | a valid block whose FAT covers its clusters puts the active FAT at its place in the row of FATs, the FATs before the data, and all clusters, made of whole slots, inside the volume with no room for one more |
| `Mounts.FlagsOf` | deps/rust-fatfs/src/boot_sector.rs:320-330 | digit 7 of the flags turns mirroring off, digits 0 to 3 then name the active FAT |
| `Mounts.FormattedMounts` | deps/rust-fatfs/src/boot_sector.rs:663-761 | every volume the default formatting produces can be mounted with the type it was formatted for |
| `Mounts.RegionsOf` | deps/rust-fatfs/src/fs.rs:1164-1194 | the positions formatting computes from sectors are those of the layout: first FAT, behind the FATs, first cluster |
| `Mounts.DefaultLayoutFits` | deps/rust-fatfs/src/fs.rs:1118-1174 | a default volume has a cluster, all of it fits the device, and no cluster is numbered like a mark |
| `Mounts.LargestHasMarks` | deps/rust-fatfs/src/table.rs:223-235 | the volume with the most clusters passes every check, and formatting marks some of them bad |
| `BootRecords.BootRoundTrip` | deps/rust-fatfs/src/boot_sector.rs:48-123 | a boot sector is read back as written, less the fields, code bytes and labels the disk has no place for |
| `BootRecords.BootSurvivesIff` | deps/rust-fatfs/src/boot_sector.rs:424-455 | and unchanged if and only if it uses none of those |
| `BootRecords.LongCodeIsCut` | deps/rust-fatfs/src/boot_sector.rs:440-455 | 448 bytes of boot code do not survive on a FAT32 volume |
| `BootRecords.DeserializeInfo` | deps/rust-fatfs/src/fs.rs:142-180 | refused exactly without its three signatures; a hint it gives is a cluster number |
| `BootRecords.InfoSurvivesIff` | deps/rust-fatfs/src/fs.rs:142-194 | the information sector is read back unchanged if and only if its numbers are not those that stand for none |
| `BootRecords.InfoSignatures` | deps/rust-fatfs/src/fs.rs:138-140 | the three signatures as bytes |
| `BootRecords.ReservedHintIsLost` | deps/rust-fatfs/src/fs.rs:160-168 | a hint of 1 is not read back |
| `Volumes.ReadHeader` | deps/rust-fatfs/src/fs.rs:365-398 | the header read a sector at a time: refusals, the block, and the count and hint that are believed |
| `Volumes.WriteHeader` | deps/rust-fatfs/src/fs.rs:1137-1161 | boot sector, and for FAT32 information sector and backup, each at its sector and none over another |
| `Volumes.HeaderIsRead` | deps/rust-fatfs/src/fs.rs:365-398 | mounting reads the very block on the device; the count is believed exactly on a clean volume and up to the clusters there are, the hint exactly for cluster numbers and the next one |
| `Volumes.FormatVolume` | deps/rust-fatfs/src/fs.rs:1118-1207 | refused exactly for sizes no type suits, changing nothing; else the device has a signed header with the labels asked for, copy and information sector in their sectors, formatted FATs, and an empty root: on FAT32 the cluster the header names is a chain of its own and zeroed |
| `Volumes.Mount` | deps/rust-fatfs/src/fs.rs:365-414 | fails exactly with the header's error; else a volume with the block, layout, count and hint of the header |
| `Volumes.FormatAndMount` | deps/rust-fatfs/src/fs.rs:1118-1207 | from any device to an empty volume, exactly for the sizes that can be formatted, with everything read off the device; the root that the header names is the empty one |
| `Formats.WriteZeros` | deps/rust-fatfs/src/fs.rs:906-914 | one splice of zeros, whatever the length |
| `Formats.IdentityOnly` | deps/rust-fatfs/src/table.rs:207-221 | in an empty FAT the media entry and the ones behind it are read back, and every cluster is free |
| `Formats.FormatFat` | deps/rust-fatfs/src/table.rs:194-236 | clusters free, entries behind the last cluster taken, numbers among the marks bad; only the FATs change, and mirrors that agreed still do |
| `Formats.MarksIff` | deps/rust-fatfs/src/table.rs:222-235 | bad are exactly the last sixteen numbers of FAT32, taken the other entries behind the last cluster |
| `Formats.FormatFats` | deps/rust-fatfs/src/fs.rs:1164-1175 | the zeroed FATs agree and are formatted; the bytes before and behind them stay |
| `Formats.AllocRoot` | deps/rust-fatfs/src/fs.rs:1183-1188 | the search over one cluster finds it free: the root directory gets cluster 2 |
| `Formats.FormatRegions` | deps/rust-fatfs/src/fs.rs:1164-1195 | all regions together: formatted FATs, and an empty root region or root cluster |
| `Formats.FormattedTable` | deps/rust-fatfs/src/fs.rs:1164-1195 | every entry of a formatted volume as mounting decodes it; no link leads out of range |
| `Formats.FormattedFreeIff` | deps/rust-fatfs/src/table.rs:223-235 | all clusters but the root are free if and only if none is numbered like a mark; a FAT32 root is a chain of one |
| `Formats.FormattedIsEmpty` | deps/rust-fatfs/src/fs.rs:365-414 | a formatted volume, once mounted, is empty: all clusters free but the root's, and the root zeroed |
| `Formats.FormattedRoot` | deps/rust-fatfs/src/fs.rs:1183-1194 | on FAT32 cluster 2 is a chain of its own and holds zeros |
| `Roots.RootHolds` | deps/rust-fatfs/src/boot_sector.rs:364-367 | the fixed root is whole sectors, as few as hold its entries, and whole slots; FAT32 has none |
| `Roots.OpenRoot` | deps/rust-fatfs/src/fs.rs:609-624 | the root directory is the chain that starts at the cluster the header names, or the region in front of the first cluster |
| `Roots.EmptyRoot` | deps/rust-fatfs/src/fs.rs:609-624 | the root of an empty volume holds zeros only |
| `Roots.DefaultRootRoom` | deps/rust-fatfs/src/boot_sector.rs:663-761 | the root of every default volume has room for the longest entry; a fixed one has 512 slots |
| `Roots.FormatAndOpen` | deps/rust-fatfs/src/fs.rs:1118-1207 | from any device to the root directory its header names, which lists nothing |
| `Roots.FirstListing` | deps/rust-fatfs/src/dir.rs:252-273 | the first file goes to the front of a blank directory and is all that is listed |
| `Roots.CreateInBlank` | deps/rust-fatfs/src/dir.rs:252-273 | a blank directory takes any acceptable name and no other |
| `Roots.CreateFirstFile` | deps/rust-fatfs/src/fs.rs:609-624 | from any device that can be formatted to its first file: stored exactly if the name is acceptable, and then the root lists that file under its long name and a well-formed short name made from it, and nothing else |
| `DirStreams.ZerosAreEmpty` | deps/rust-fatfs/src/fs.rs:1177-1195 | the zeroed root is an empty and clean directory |
| `Storages.BlkStorage.Read` | kernel/src/fs/fat.rs:83-103 | across any number of blocks, exactly the flat bytes at the position |
| `Storages.BlkStorage.Write` | kernel/src/fs/fat.rs:104-127 | read-modify-write of blocks is one splice of the flat bytes: nothing outside the range changes |
| `DiskSlices.MirroredElsewhere` | deps/rust-fatfs/src/fs.rs:818-832 | a mirrored write changes nothing outside the mirrors |
| `DiskSlices.MirroredEach` | deps/rust-fatfs/src/fs.rs:818-832 | every mirror receives the same splice |
| `DiskSlices.MirrorsKeepAgreeing` | deps/rust-fatfs/src/fs.rs:818-832 | mirrors that agree keep agreeing |
| `DiskSlices.DiskSlice.Seek` | deps/rust-fatfs/src/fs.rs:840-864 | from the start, the position or the end, the distance moved is the one asked for; refused exactly outside the slice, whose end is inside |
| `DiskSlices.DiskSlice.Read` | deps/rust-fatfs/src/fs.rs:807-817 | what a reader sees is the first mirror, clipped to the slice |
| `DiskSlices.DiskSlice.Write` | deps/rust-fatfs/src/fs.rs:818-832 | writes all mirrors, and a later read sees it |
| `DiskSlices.DiskSlice.ReadExact` | deps/rust-fatfs/src/io.rs:56-74 | all the bytes asked for, or failure exactly past the end |
| `DiskSlices.DiskSlice.WriteAll` | deps/rust-fatfs/src/io.rs:102-115 | all the bytes in every mirror, or failure exactly past the end |
| `FatEntries.SetGet12` | deps/rust-fatfs/src/table.rs:239-300 | a 12-bit entry reads back and leaves every other entry alone, though neighbours share a byte |
| `FatEntries.SetGet32` | deps/rust-fatfs/src/table.rs:457-544 | a 28-bit entry reads back, others are untouched, and the reserved top bits stay |
| `FatEntries.SetGet` | deps/rust-fatfs/src/table.rs:28-63 | the array law for all three widths |
| `FatEntries.EntryIsBits` | deps/rust-fatfs/src/table.rs:239-252 | entries of 12, 16 or 32 bits follow each other without a gap: bit `i` of entry `c` is the one `c` widths and `i` further on in the FAT |
| `FatEntries.U32Bits` | deps/rust-fatfs/src/table.rs:457-470 | a little-endian integer is the bits of its bytes, lowest first |
| `FatEntries.DecodeIff` | deps/rust-fatfs/src/table.rs:254-283 | zero is a free cluster, the nine highest values are marks with the bad one lowest, any other value is a link |
| `FatEntries.EndIsOnes` | deps/rust-fatfs/src/table.rs:536-541 | the end of a chain is written as a row of ones |
| `FatEntries.Encode` | deps/rust-fatfs/src/table.rs:254-283 | encoding is undone by decoding |
| `FatEntries.ClustersEncodable` | deps/rust-fatfs/src/fs.rs:41-79 | no cluster number of a volume collides with its type's marks for bad clusters and chain ends |
| `FatEntries.TypeByMarks` | deps/rust-fatfs/src/fs.rs:41-79 | a type is left for the next wider one exactly when its entries come to number the mark of a bad cluster; the bounds that formatting goes by are the same |
| `FatEntries.TableSet` | deps/rust-fatfs/src/table.rs:65-90 | storing one packed entry updates one element of the decoded table |
| `FatScans.ReadFat` | deps/rust-fatfs/src/table.rs:65-77 | decodes the entry with the masks and shifts the code uses, reporting free entries of clusters numbered like marks as bad; fails exactly past the FAT's end |
| `FatScans.MarkIff` | deps/rust-fatfs/src/table.rs:472-500 | the clusters never reported free or linked are those whose number would read as a mark in an entry |
| `FatScans.MergedIsPacked` | deps/rust-fatfs/src/table.rs:284-300 | the masked read-modify-write word is the packed entry |
| `FatScans.WriteFat` | deps/rust-fatfs/src/table.rs:78-91 | one packed entry changes, in every mirror |
| `FatScans.FindFree12` | deps/rust-fatfs/src/table.rs:302-331 | the rolling two-byte window finds the same first free entry as looking entries up one by one |
| `FatScans.FindFreeWide` | deps/rust-fatfs/src/table.rs:418-434 | the first free entry of the range, for 16- and 32-bit entries |
| `FatScans.OddIsZero` | deps/rust-fatfs/src/table.rs:333-363 | the value the counting loop computes for odd entries is not the entry, but is zero exactly when it is |
| `FatScans.CountFree12` | deps/rust-fatfs/src/table.rs:333-363 | the rolling count is the number of free entries |
| `FatScans.CountFreeWide` | deps/rust-fatfs/src/table.rs:564-581 | the number of free entries, for 16- and 32-bit entries |
| `FatTables.AllocExtendsChain` | deps/rust-fatfs/src/table.rs:123-153 | allocation behind a chain's last cluster appends to that chain |
| `FatTables.FreeChainExact` | deps/rust-fatfs/src/table.rs:625-633 | on an acyclic chain exactly the members are freed and counted |
| `FatTables.FreeCountExactIff` | deps/rust-fatfs/src/table.rs:625-633 | the count returned is the number of clusters freed, and one more if and only if the start does not head an acyclic chain |
| `FatTables.CycleIsMiscounted` | deps/rust-fatfs/src/table.rs:625-633 | two clusters that link to each other are counted as three |
| `FatTables.FreeingMoves` | deps/rust-fatfs/src/fs.rs:485-491 | on any links in range, the free count and the number returned add up to the new count and the surplus |
| `FatTables.CuttingMoves` | deps/rust-fatfs/src/fs.rs:477-483 | the same for a cut, whose surplus also counts a cut at a free cluster |
| `FatTables.ChainCutsClean` | deps/rust-fatfs/src/fs.rs:477-483 | cutting an acyclic chain anywhere leaves no surplus |
| `FatTables.TruncateFrees` | deps/rust-fatfs/src/table.rs:612-623 | truncation frees and counts exactly the elements after the cut |
| `FatTables.TruncateKeeps` | deps/rust-fatfs/src/table.rs:612-623 | the elements up to the cut remain a chain |
| `FatTables.FreedKeepsOthers` | deps/rust-fatfs/src/table.rs:612-633 | every disjoint chain survives |
| `FatTables.FreeCountPositive` | deps/rust-fatfs/src/table.rs:123-153 | a positive count means there is a free cluster, and conversely |
| `FatTables.AllocatedCount` | deps/rust-fatfs/src/fs.rs:493-509 | allocation takes one from the count, whatever the predecessor |
| `FatTables.FreedFreeCount` | deps/rust-fatfs/src/fs.rs:485-491 | freeing a chain gives its length back |
| `FatTables.TruncateCount` | deps/rust-fatfs/src/fs.rs:477-483 | truncating gives back the number of elements cut off |
| `FatFs.RepresentsSet` | deps/rust-fatfs/src/table.rs:78-91 | on the disk, storing an entry updates the decoded FAT, keeps the mirrors equal and no cluster changes |
| `FatFs.RepresentsWrite` | deps/rust-fatfs/src/fs.rs:440-458 | writing inside a cluster changes that cluster, no other and no FAT entry |
| `FatFs.FileSystem.constructor` | deps/rust-fatfs/src/fs.rs:365-414 | a volume whose parts are where the layout says is represented by a table and clusters |
| `FatFs.FileSystem.NextCluster` | deps/rust-fatfs/src/table.rs:92-103 | one step along the decoded table |
| `FatFs.FileSystem.FindFreeCluster` | deps/rust-fatfs/src/table.rs:105-121 | the first free cluster of a range of the decoded table, for every width |
| `FatFs.FileSystem.CountFreeClusters` | deps/rust-fatfs/src/table.rs:180-192 | a full scan counts the free clusters |
| `FatFs.FileSystem.FindFromHint` | deps/rust-fatfs/src/table.rs:123-145 | first free cluster from the hint on, else from the start; none exactly when no cluster is free |
| `FatFs.FileSystem.AllocCluster` | deps/rust-fatfs/src/fs.rs:493-509 | fails exactly on a full volume, changing nothing; else links one cluster, keeps the cached count exact without underflow, and moves the hint |
| `FatFs.FileSystem.ZeroCluster` | deps/rust-fatfs/src/fs.rs:906-914 | the whole cluster and nothing else becomes zero |
| `FatFs.FileSystem.FreeFromCursor` | deps/rust-fatfs/src/table.rs:625-633 | terminates on every table with links in range, cyclic or not, and does what the chain lemmas speak of |
| `FatFs.FileSystem.FreeClusterChain` | deps/rust-fatfs/src/fs.rs:485-491 | what hangs on the cluster is free, the rest as before; the cached count equals a full scan, or is one too high exactly on a cycle |
| `FatFs.FileSystem.TruncateClusterChain` | deps/rust-fatfs/src/fs.rs:477-483 | the chain ends at the cut and what hung behind it is free; the cached count is off by exactly the surplus of the cut |
| `FatFs.FileSystem.Stats` | deps/rust-fatfs/src/fs.rs:533-553 | the cached count and a scan give the same answer, which is cached from then on |
| `FatFs.FileSystem.ReadCluster` | deps/rust-fatfs/src/fs.rs:440-458 | the bytes of that cluster |
| `FatFs.FileSystem.WriteCluster` | deps/rust-fatfs/src/fs.rs:440-458 | a splice of that cluster; no other cluster and no FAT entry changes |
| `FileChains.JoinedWrite` | deps/rust-fatfs/src/file.rs:368-375 | writing inside one cluster of a chain is a splice of the file's bytes |
| `FileChains.Within` | deps/rust-fatfs/src/file.rs:121-140 | what the remainder of the offset tells: the position ends a cluster, or lies inside the last one behind it |
| `FileChains.ClustersBehind` | deps/rust-fatfs/src/boot_sector.rs:400-403 | the rounded-up quotient is the number of clusters needed to reach an offset |
| `FileChains.ChainedAlloc` | deps/rust-fatfs/src/file.rs:348-356 | a new cluster's bytes follow the file's, and allocated clusters of others keep entry and bytes |
| `FileChains.ChainedTruncate` | deps/rust-fatfs/src/file.rs:74-77 | cutting the chain cuts the bytes, and clusters of others keep entry and bytes |
| `FileChains.OthersKept` | deps/rust-fatfs/src/file.rs:63-86 | a chain disjoint from the file's stays a chain, disjoint, with the same bytes |
| `FileChains.HeadDetermines` | deps/rust-fatfs/src/table.rs:636-659 | the first cluster, all that an entry records, determines the chain and the bytes |
| `FileChains.ExtendsTwice` | deps/rust-fatfs/src/io.rs:102-115 | two writes in a row, growing the chain or not, are one write of both pieces |
| `FatFiles.StepsReadBack` | deps/rust-fatfs/src/file.rs:259-384 | on the flat model, a write that fits, a seek back and a read return the bytes |
| `FatFiles.StepOk` | deps/rust-fatfs/src/file.rs:63-471 | commands keep the flat stream well formed and its limit, what the chain and the volume can hold, fixed |
| `FatFiles.WriteReadsBack` | deps/rust-fatfs/src/file.rs:259-471 | the same as a run, with all three replies |
| `FatFiles.SeekLands` | deps/rust-fatfs/src/file.rs:410-471 | a relative seek is the absolute one to the sum of base and distance; each refusal in arithmetic |
| `FatFiles.ReadAgain` | deps/rust-fatfs/src/file.rs:410-471 | going back by what was read undoes the read, and the same bytes are read again |
| `FatFiles.ReadLast` | deps/rust-fatfs/src/file.rs:410-471 | from the end by minus `k`, a file reads its last `k` bytes and no more |
| `FatFiles.File.constructor` | deps/rust-fatfs/src/file.rs:40-52 | the handle starts at offset 0 with no current cluster |
| `FatFiles.File.Locate` | deps/rust-fatfs/src/file.rs:262-279 | the cluster that holds the next byte, or none exactly at the end of the chain |
| `FatFiles.File.Read` | deps/rust-fatfs/src/file.rs:259-309 | the next bytes of the contents, as many as the request, the cluster and the file allow |
| `FatFiles.File.AbsPos` | deps/rust-fatfs/src/file.rs:121-140 | the disk bytes before it are the file bytes before the offset, back to the start of the cluster |
| `FatFiles.File.Grow` | deps/rust-fatfs/src/file.rs:348-356 | adds one cluster to this chain only; zeroed for a directory with an entry, otherwise with its old bytes |
| `FatFiles.File.ClusterForWrite` | deps/rust-fatfs/src/file.rs:337-367 | fails exactly when the offset has reached all own and free clusters |
| `FatFiles.File.Write` | deps/rust-fatfs/src/file.rs:323-384 | the bytes lie over what the chain held and, as it grows, over fresh or old cluster bytes; for files over the contents; the only failure is a full volume and it changes nothing; capacity is conserved |
| `FatFiles.File.Walk` | deps/rust-fatfs/src/file.rs:447-466 | following links reaches the cluster the target ends in, or the chain's end |
| `FatFiles.File.Seek` | deps/rust-fatfs/src/file.rs:410-471 | accepted exactly when the sum of base and distance is a 32-bit offset, and from the end only with a size; goes to that sum or to the end of the contents, whichever comes first |
| `FatFiles.File.Truncate` | deps/rust-fatfs/src/file.rs:63-86 | contents end at the offset, just the clusters needed are kept, the others are free again |
| `FatFiles.File.ReadExact` | deps/rust-fatfs/src/io.rs:56-74 | all bytes asked for, or end of file exactly when they are not there, with the position at the end |
| `FatFiles.File.WriteAll` | deps/rust-fatfs/src/io.rs:102-115 | for files and directories, writes all that fits below the 4 GiB limit and on the volume; succeeds exactly when that is all |
| `FatFiles.File.Perform` | deps/rust-fatfs/src/file.rs:259-471 | one command, single or whole transfers, on chain and volume is one step of the flat stream |
| `FatFiles.File.RunAll` | deps/rust-fatfs/src/file.rs:63-471 | every run of commands on a file or a directory with an entry gives the replies and contents of the flat stream, and leaves all other chains alone |
| `LongNames.SerializeRoundTrip` | deps/rust-fatfs/src/dir_entry.rs:311-415 | a serialized long-name slot is recognised as one and reads back |
| `LongNames.SlotPlaces` | deps/rust-fatfs/src/dir_entry.rs:324-346 | where order, units, attributes and checksum lie in the slot |
| `LongNames.OrderOf` | deps/rust-fatfs/src/dir.rs:880-912 | digits 0 to 4 of the order byte number the part, digit 6 marks the last one |
| `LongNames.ChecksumStepIs` | deps/rust-fatfs/src/dir.rs:721-727 | a step of the checksum moves the eight digits round by one place and adds the byte, wrapping around |
| `LongNames.ChecksumTellsApart` | deps/rust-fatfs/src/dir.rs:721-727 | short names that differ in one byte have different checksums |
| `LongNames.ChangedNameIsDropped` | deps/rust-fatfs/src/dir.rs:721-727 | so of two such names at most one gets a long name from the same slots |
| `LongNames.ValidateLongName` | deps/rust-fatfs/src/dir.rs:700-719 | accepts exactly names of 1 to 255 bytes of allowed characters, and those have 1 to 255 units |
| `LongNames.LongAllowedIff` | deps/rust-fatfs/src/dir.rs:708-716 | everything of the basic plane from the space on, but for nine marks and the delete character |
| `LongNames.LongestName` | deps/rust-fatfs/src/dir.rs:700-707 | 255 ASCII characters are accepted, 256 and none are not; 20 parts hold them |
| `LongNames.Utf8Least` | deps/rust-fatfs/src/dir.rs:700-707 | a character counts for as few bytes as carry its bits |
| `LongNames.UnitsTell` | deps/rust-fatfs/src/dir.rs:505-507 | a character is one unit or a surrogate pair, and these tell it |
| `LongNames.Utf16TellsApart` | deps/rust-fatfs/src/dir.rs:505-507 | no two names are stored as the same units |
| `LongNames.LfnEntriesGenerator.Next` | deps/rust-fatfs/src/dir.rs:970-1000 | parts from the last to the first, numbered down to one, the first emitted carrying the flag, short parts terminated and filled |
| `LongNames.WriteLfnEntries` | deps/rust-fatfs/src/dir.rs:513-531 | as many slots as the name needs, none of which reads as deleted or as the end |
| `LongNames.RunIsSuffix` | deps/rust-fatfs/src/dir.rs:880-912 | after any entries, what is under construction is a descending run with one checksum that ends here |
| `LongNames.RunIsFound` | deps/rust-fatfs/src/dir.rs:880-912 | every such run is found, whatever precedes it |
| `LongNames.NameIsWholeRun` | deps/rust-fatfs/src/dir.rs:838-925 | a name that is not empty comes wholly from one run n..1 with the short entry's checksum |
| `LongNames.WholeRunIsName` | deps/rust-fatfs/src/dir.rs:838-925 | and every such run gives its name |
| `LongNames.LongNameBuilder.Process` | deps/rust-fatfs/src/dir.rs:880-912 | the buffer behind the current index is the text of the run, stale units notwithstanding |
| `LongNames.LongNameBuilder.ValidateChksum` | deps/rust-fatfs/src/dir.rs:914-925 | a run survives exactly with the short name's checksum |
| `LongNames.LongNameBuilder.IntoBuf` | deps/rust-fatfs/src/dir.rs:853-872 | a name only from a run that came down to part one |
| `LongNames.LongNameBuilder.Truncate` | deps/rust-fatfs/src/dir.rs:864-872 | removes trailing zeros and filler, nothing else |
| `LongNames.NameRoundTrip` | deps/rust-fatfs/src/dir.rs:951-1000 | the entries of any name of 1 to 255 units read back as the name less trailing filler, whatever entries precede them |
| `LongNames.NameSurvivesIff` | deps/rust-fatfs/src/dir.rs:864-872 | a name survives the round trip if and only if it does not end in zero or 0xFFFF |
| `LongNames.FillerIsLost` | deps/rust-fatfs/src/dir.rs:864-872 | a name ending in U+FFFF, which validation lets through, comes back without it |
| `Directories.EntriesAreRead` | deps/rust-fatfs/src/dir.rs:614-665 | long-name slots in a row are read as the entries they were written from |
| `Directories.WrittenIsFound` | deps/rust-fatfs/src/dir.rs:513-560 | a stored name is what the reader finds there, coming from anywhere before, across any unfinished runs |
| `Directories.RoomKeeps` | deps/rust-fatfs/src/dir.rs:453-486 | slots put into room that was found displace no slot in use, whether all or only some of them could be written |
| `Directories.OnlyAddsIff` | deps/rust-fatfs/src/dir.rs:533-560 | nothing but the new slots comes into use if and only if they replace deleted ones or the directory, as far as it has grown, is quiet behind them |
| `Directories.CleanIsHarmless` | deps/rust-fatfs/src/dir.rs:453-486 | which holds in a directory with nothing behind its end that need not grow |
| `Directories.PutKeepsClean` | deps/rust-fatfs/src/dir.rs:533-560 | and such a directory stays so if it grows by end markers or is filled up |
| `Directories.GrowthExposesOldSlots` | deps/rust-fatfs/src/file.rs:348-356 | a full directory that grows by used slots gets one of them into use behind the new entry |
| `Directories.ListingInserted` | deps/rust-fatfs/src/dir.rs:533-560 | from any earlier place, the reader lists the old entries in order with the new one put in, under its long name |
| `Directories.AttributesOf` | deps/rust-fatfs/src/dir_entry.rs:20-34 | the digits that make a slot a volume label, a directory or part of a long name, and the bytes that end a directory or delete a slot |
| `Directories.IsShortEntryIff` | deps/rust-fatfs/src/dir.rs:603-640 | the reader returns a slot exactly if it is in use and has no volume digit, which long-name slots have too |
| `Directories.ListingUnchanged` | deps/rust-fatfs/src/dir.rs:513-531 | long-name slots left without their short entry at the end of the directory change no listing |
| `Directories.StoringIs` | deps/rust-fatfs/src/dir.rs:533-560 | storing an entry all told: the slots are there, what else comes into use, and the new listing |
| `Directories.InsertedDistinct` | deps/rust-fatfs/src/dir.rs:252-273 | a listing with distinct short names keeps them distinct when one is put in that it does not have |
| `DirStreams.SlotsSpliced` | deps/rust-fatfs/src/dir.rs:59-81 | a write of whole slots to a byte stream lays those slots over its slots |
| `DirStreams.GrowthOf` | deps/rust-fatfs/src/file.rs:348-356 | a write to a chain that grows puts the slots over the old ones and the slots of the new clusters, zeroed or as they were |
| `DirStreams.ZeroedIsEnd` | deps/rust-fatfs/src/fs.rs:906-914 | clusters that are zeroed hold end markers only |
| `DirStreams.RootGrowthExposes` | deps/rust-fatfs/src/fs.rs:606-624 | on the smallest FAT32 volume a full root of one cluster takes a free cluster that still holds data, and that is not harmless |
| `DirStreams.DirRawStream.constructor` | deps/rust-fatfs/src/dir.rs:24-53 | a chain or the fixed root region as a row of slots, at its first |
| `DirStreams.DirRawStream.ReadSlot` | deps/rust-fatfs/src/dir.rs:59-66 | the next slot, or the end exactly behind the last |
| `DirStreams.DirRawStream.SeekSlot` | deps/rust-fatfs/src/dir.rs:83-90 | goes to a slot; the directory is as before |
| `DirStreams.DirRawStream.WriteSlots` | deps/rust-fatfs/src/dir.rs:68-81 | succeeds exactly when the slots fit below the limit; on failure a prefix fills the directory up; other chains keep links and bytes |
| `Dirs.DirIter.ReadDirEntry` | deps/rust-fatfs/src/dir.rs:603-665 | the next short entry, the name spelt since the last skipped slot, its kind, and the slots the pair occupies |
| `Dirs.FindFreeEntries` | deps/rust-fatfs/src/dir.rs:453-486 | the first room there is: a row of deleted slots long enough, or the deleted slots that run up to the end |
| `Dirs.WriteEntry` | deps/rust-fatfs/src/dir.rs:533-560 | refused exactly for bad names and when the directory has no room within what it can come to have, with the listing as before; else the pair is stored in the first room and found; every slot in use and every other chain is kept, and nothing else comes into use in a clean directory that does not grow, is a fixed root or has an entry |
| `Dirs.FindEntry` | deps/rust-fatfs/src/dir.rs:126-153 | one pass: the first entry of that name if it is of the kind asked for, a mismatch if it is not, else every short name of the listing has been recorded |
| `Dirs.CheckForExistence` | deps/rust-fatfs/src/dir.rs:166-191 | terminates; the outcome of the lookup, or a well-formed short name made from the name that the listing does not have, the name itself if it is an 8.3 name and not listed |
| `Dirs.CreatedDistinct` | deps/rust-fatfs/src/dir.rs:252-273 | a created file that is harmless to store keeps the short names of the listing distinct |
| `Dirs.StoreFile` | deps/rust-fatfs/src/dir.rs:262-273 | a new file is stored in the first room exactly when its name is good and there is room, without growing if that room is there; every slot in use and every other chain is kept |
| `Dirs.CreateFile` | deps/rust-fatfs/src/dir.rs:252-273 | opens the file of that name, refuses a directory, or inserts a new entry, exactly when the name is good and there is room; every slot in use and every other chain is kept, and a clean directory with distinct short names stays so, whatever the outcome, unless it is a chain without an entry and grows |
| `ShortNames.HexRoundTrip` | deps/rust-fatfs/src/dir.rs:1222-1235 | the four hexadecimal digits parse back to the checksum |
| `ShortNames.PlusIsZero` | deps/rust-fatfs/src/dir.rs:1146-1163 | the parser takes a plus sign for a leading zero |
| `ShortNames.DigitIff` | deps/rust-fatfs/src/dir.rs:1131-1163 | digits and letters below the radix are digits, and nothing else is; case makes no difference |
| `ShortNames.LongFormTakes` | deps/rust-fatfs/src/dir.rs:1131-1144 | the long-prefix form with a number is recognised as taking that number |
| `ShortNames.SumFormTakes` | deps/rust-fatfs/src/dir.rs:1146-1163 | the checksum form with a number is recognised as taking that number of that checksum |
| `ShortNames.CopyShortNamePart` | deps/rust-fatfs/src/dir.rs:1087-1117 | the part is the source without spaces and dots, in capitals, with an underscore for each other character that is not allowed, cut or padded; it fits exactly if there is room left at every character and is lossy exactly if one there was room for is not allowed; lossless parts spell the source |
| `ShortNames.AllowedIff` | deps/rust-fatfs/src/dir.rs:1097-1108 | printable ASCII but for sixteen marks |
| `ShortNames.UpperIff` | deps/rust-fatfs/src/dir.rs:1111-1113 | two characters leave the same byte if and only if they are the same letter; the byte is the character itself exactly when that is no small letter |
| `ShortNames.CaseDoesNotMatter` | deps/rust-fatfs/src/dir.rs:1087-1117 | names that differ in case only leave the same bytes, and of names of allowed characters no others do |
| `ShortNames.ShortOfSame` | deps/rust-fatfs/src/dir.rs:1048-1063 | names that differ in case only have the same 8.3 name, extension and all |
| `ShortNames.ShortExample` | deps/rust-fatfs/src/dir.rs:1249-1269 | the numbered form of `Foo+1.baR` is `FOO_1~1.BAR` |
| `ShortNames.SplitName` | deps/rust-fatfs/src/dir.rs:1048-1063 | base and extension, cleaned, cut and padded; fits without loss exactly for names of 8 and 3 allowed characters |
| `ShortNames.ChecksumTellsApart` | deps/rust-fatfs/src/dir.rs:1165-1172 | names of one length that differ in one character have different checksums |
| `ShortNames.BsdStepIs` | deps/rust-fatfs/src/dir.rs:1165-1172 | a step of the checksum moves the sixteen digits round by one place and adds the character, wrapping around |
| `ShortNames.ChecksumExample` | deps/rust-fatfs/src/dir.rs:1318-1340 | the checksum of `x.txt` is 40DA |
| `ShortNames.ShortNameGenerator.constructor` | deps/rust-fatfs/src/dir.rs:1048-1072 | starts with the 8.3 form and the checksum of the name, nothing seen and the bitmaps empty |
| `ShortNames.ShortNameGenerator.AddExisting` | deps/rust-fatfs/src/dir.rs:1119-1129 | the bitmaps stay exactly the numbers taken by the names seen |
| `ShortNames.ShortNameGenerator.Generate` | deps/rust-fatfs/src/dir.rs:1174-1194 | a name nobody seen has, the first in order of preference: a base of one to eight capitals, digits and marks, padding, an extension of up to three; fails exactly when all forms are taken |
| `ShortNames.ShortNameGenerator.NextIteration` | deps/rust-fatfs/src/dir.rs:1196-1202 | next checksum, bitmaps forgotten, an exact match remembered |
| `ShortNames.NineNames` | deps/rust-fatfs/src/dir.rs:1174-1194 | exhausting a checksum takes nine names |
| `ShortNames.CountNextSum` | deps/rust-fatfs/src/dir.rs:1146-1163 | no name counts for two checksums |
| `ShortNames.SumsLeft` | deps/rust-fatfs/src/dir.rs:166-191 | with fewer than nine names per checksum, an untried checksum is always left |

## Left out

- Faults of the disk: reads and writes of the storage always succeed.
- Pipes: the exact-transfer loops and sleeping; each round passes the whole buffer again, and the scheduler is not part of this model.
- Address space: shrinking the heap, fork and copy-on-write, page tables and ELF loading; the files they rest on are not part of this model.
- Vmas.MmStruct.AllocUnmapped: the assertions of unoptimized builds (alignment, an address inside the range) are not modelled; a subtraction below zero ends the search, as it does where overflow is checked.
- Buddies.BuddyAllocator.FreePages: a well-formed block given back is in use; the code does not check that.
- Buddies.BuddyAllocator.FreeAreaAt: the same.
- Bitmaps.Bitmap.Set and the other operations: ask for a non-empty vector, without which growth never ends (`Bitmaps.DoublingReaches`).
- BootSectors.FormatSucceedsIff: default options and 512-byte sectors; the sizing laws hold for all options.
- BootSectors.FormattedIsValid: the same.
- Mounts.FormattedMounts: the same.
- Volumes.FormatVolume: default options and 512-byte sectors; boot code, labels and drive data come from a template, and no volume label entry is written.
- Volumes.ReadHeader: sums of sector counts are not cut at 32 bits.
- Volumes.Mount: as for FatFs.FileSystem.constructor, the code believes the volume behind the header.
- Formats.FormatFat: a FAT with room for at most 0x4000_0000 entries, above which the 32-bit byte offset would overflow.
- Mounts.LayoutIsOk: an active FAT that exists; the code does not check its number.
- FatFs.FileSystem.constructor: links of clusters lead to clusters of the volume, mirrors agree, there is at least one cluster, and a free count stored on the volume is right; the code believes all four.
- FatScans.ReadFat: cluster numbers below 0x4000_0000, above which the 32-bit byte offset would overflow.
- FatScans.WriteFat: the same, and a cluster whose number is a mark is not freed; the code panics there.
- FatFiles.File.Read: a directory stream is shorter than 4 GiB, else the 32-bit offset would wrap.
- FatFiles.File.ReadExact: the same.
- FatFiles.File.Truncate: needs a directory entry; the code panics without one.
- FatFiles.File.Perform: a stream with an entry, for a directory on less than 4 GiB; the root directory's stream has the contracts of FatFiles.File.Write and FatFiles.File.WriteAll.
- FatFiles.File.RunAll: the same.
- FatFiles.File: one handle per chain at a time; two handles on one file keep separate offsets and sizes.
- DirStreams.DirRawStream.ReadSlot and the other operations: the directory and one more entry stay below 4 GiB, else the 32-bit offset would wrap.
- Dirs.WriteEntry: flushing and time stamps are not modelled, and the directory's handle is the only one on its chain.
- Directories: removal, renaming, walking of paths and the dot entries of a new directory.
- ShortNames.ShortNameGenerator.constructor: the name is not empty and starts with a single-byte character; the code slices it at byte 1.
- Dirs.CheckForExistence: comparing names (case folding, code pages) is a parameter, the name is as for the generator, and the directory has fewer than nine entries for each of the 65536 checksums, without which the code may try for ever.
- Dirs.CreateFile: the same; the bytes of the new slot behind name and attributes are a parameter.
- LongNames.LfnEntriesGenerator.Next: names of at most 255 units, which is what validation lets through.
- Roots.CreateFirstFile: as for Volumes.FormatVolume and Dirs.CreateFile.
- Roots.CreateInBlank: as for Dirs.CreateFile.
- Volume label entries, setting and clearing the dirty flag, OEM code pages and Unicode upper-casing: easy or library-defined detail.
- The inode cache, devices, drivers, locks, assembly, logging and `kernel/kflash.py`: no property of this kind.
