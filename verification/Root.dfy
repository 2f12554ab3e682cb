/** The root directory of a mounted volume (deps/rust-fatfs/src/fs.rs, `root_dir`), and a new volume from the blank
    device to its first file. */
module Roots {
  import opened Wrappers
  import opened Storages
  import opened DiskSlices
  import opened FatTypes
  import FatEntries
  import opened FatTables
  import opened FatFs
  import opened FileChains
  import opened FatFiles
  import opened LongNames
  import opened ShortNames
  import opened Directories
  import opened DirStreams
  import opened Dirs
  import Bits
  import Geometry
  import BootSectors
  import BootRecords
  import Mounts
  import Formats
  import Volumes

  /** Size of the fixed root region in bytes. */
  function RootSize(b: BootSectors.Bpb): nat
    requires b.bytesPerSector > 0
  {
    b.RootDirSectors() * b.bytesPerSector
  }

  lemma RoundedUp(n: nat, d: nat)
    requires d > 0
    ensures n <= (n + d - 1) / d * d < n + d
  {
    assert n + d - 1 == d * ((n + d - 1) / d) + (n + d - 1) % d;
  }

  /** The fixed root has whole sectors, as few as hold the entries that the parameter block gives; FAT32 has none. */
  lemma RootHolds(b: BootSectors.Bpb)
    requires b.Validate()
    ensures DIR_ENTRY_SIZE * b.rootEntries <= RootSize(b) < DIR_ENTRY_SIZE * b.rootEntries + b.bytesPerSector
    ensures InSlots(RootSize(b)) && (b.IsFat32() ==> RootSize(b) == 0)
  {
    hide BootSectors.Bpb.ValidTotalClusters, BootSectors.Bpb.ValidTotalSectors;
    Mounts.SlotsInCluster(b.RootDirSectors(), b.bytesPerSector);
    hide Geometry.IsPowerOfTwo;
    RoundedUp(b.rootEntries * DIR_ENTRY_SIZE, b.bytesPerSector);
    if b.IsFat32() {
      Bits.ModUnique(b.bytesPerSector - 1, b.bytesPerSector, 0, b.bytesPerSector - 1);
    }
  }

  /** The region is the sectors in front of the first cluster. */
  function RootBegin(b: BootSectors.Bpb): nat
    requires b.bytesPerSector > 0
  {
    Distribute(0, b.fats, b.SectorsPerFat());
    var sectors: nat := b.FirstDataSector() - b.RootDirSectors();
    Distribute(0, sectors, b.bytesPerSector);
    sectors * b.bytesPerSector
  }

  lemma RootInside(b: BootSectors.Bpb)
    requires b.Validate()
    ensures RootBegin(b) + RootSize(b) == Mounts.LayoutOf(b).dataStart
  {
    hide BootSectors.Bpb.ValidTotalClusters, BootSectors.Bpb.RootDirSectors;
    Distribute(b.FirstDataSector() - b.RootDirSectors(), b.RootDirSectors(), b.bytesPerSector);
  }

  /** What it takes to open the root: for FAT32, a chain that starts where the parameter block says. */
  ghost predicate HasRoot(fs: FileSystem, b: BootSectors.Bpb, chain: seq<nat>)
    reads fs, fs.storage
  {
    && fs.Valid() && b.Validate() && fs.layout == Mounts.LayoutOf(b)
    && (fs.layout.fatType == Fat32 ==> IsChain(fs.table, chain) && chain[0] == b.rootDirFirstCluster)
  }

  /** The root directory's slots are those of its chain or of the region in front of the first cluster. */
  ghost predicate IsRootOf(fs: FileSystem, b: BootSectors.Bpb, chain: seq<nat>, root: DirRawStream)
    requires root.Valid() && b.bytesPerSector > 0
    reads root, root.Footprint()
  {
    match root.kind
    case OfFile(f) => f.fs == fs && f.chain == chain && f.entry == None && fs.layout.fatType == Fat32
    case OfRoot(s) =>
      && s.inner == fs.storage && s.mirrors == 1 && s.size == RootSize(b) && s.begin + s.size == fs.layout.dataStart
      && fs.layout.fatType != Fat32
  }

  lemma RootFits(fs: FileSystem, b: BootSectors.Bpb, chain: seq<nat>)
    requires HasRoot(fs, b, chain)
    ensures b.bytesPerSector > 0 && fs.storage.Valid()
    ensures InSlots(fs.layout.clusterSize) && InSlots(RootSize(b))
    ensures SlotStart(RootBegin(b), RootSize(b), 1) == fs.layout.dataStart <= |fs.storage.bytes|
    ensures fs.layout.fatType == Fat32 ==> chain != [] && fs.Valid() && Head(chain) == Some(b.rootDirFirstCluster)
  {
    hide BootSectors.Bpb.ValidTotalClusters, FreeCount, LinksInRange, MirrorsAgree, Divided, FatEntries.Table;
    Mounts.SlotsInCluster(b.sectorsPerCluster, b.bytesPerSector);
    hide Geometry.IsPowerOfTwo;
    RootHolds(b);
    RootInside(b);
  }

  method OpenRootFile(fs: FileSystem, b: BootSectors.Bpb, ghost chain: seq<nat>) returns (file: File)
    requires HasRoot(fs, b, chain) && fs.layout.fatType == Fat32
    ensures fresh(file) && IsDirFile(file) && file.offset == 0 && b.bytesPerSector > 0
    ensures file.fs == fs && file.chain == chain && file.entry == None
  {
    RootFits(fs, b, chain);
    assert IsChain(fs.table, chain);
    hide HasRoot, FileSystem.Valid, IsChain, InSlots, File.Valid, IsDirFile, SlotStart, Head;
    file := new File(fs, None, Some(b.rootDirFirstCluster), chain);
    IsDirAtStart(file);
  }

  method OpenChainRoot(fs: FileSystem, b: BootSectors.Bpb, ghost chain: seq<nat>) returns (root: DirRawStream)
    requires HasRoot(fs, b, chain) && fs.layout.fatType == Fat32
    ensures fresh(root) && fresh(root.Footprint() - {fs, fs.storage})
    ensures root.Valid() && root.at == 0 && root.kind.OfFile? && IsRootOf(fs, b, chain, root)
  {
    hide HasRoot, DirRawStream.Valid, IsDirFile, SlotsOf, InSlots, IsRootOf;
    var file := OpenRootFile(fs, b, chain);
    root := new DirRawStream(OfFile(file));
    ChainRootIs(fs, b, chain, root, file);
  }

  lemma ChainRootIs(fs: FileSystem, b: BootSectors.Bpb, chain: seq<nat>, root: DirRawStream, file: File)
    requires root.Valid() && b.bytesPerSector > 0 && root.kind == OfFile(file) && fs.layout.fatType == Fat32
    requires file.fs == fs && file.chain == chain && file.entry == None
    ensures IsRootOf(fs, b, chain, root)
  {
    hide DirRawStream.Valid;
  }

  lemma IsDirAtStart(file: File)
    requires file.Valid() && file.entry == None && file.offset == 0 && InSlots(file.fs.layout.clusterSize)
    ensures IsDirFile(file)
  {
    hide File.Valid;
  }

  method OpenFixedRoot(fs: FileSystem, b: BootSectors.Bpb) returns (root: DirRawStream)
    requires HasRoot(fs, b, []) && fs.layout.fatType != Fat32
    ensures fresh(root) && fresh(root.Footprint() - {fs, fs.storage})
    ensures root.Valid() && root.at == 0 && root.kind.OfRoot? && IsRootOf(fs, b, [], root)
  {
    RootFits(fs, b, []);
    hide HasRoot, SlotsOf, InSlots, RootSize, RootBegin, Storages.Flat;
    var slice := new DiskSlice(RootBegin(b), RootSize(b), 1, fs.storage);
    root := new DirRawStream(OfRoot(slice));
  }

  /** Opens the root directory. */
  method OpenRoot(fs: FileSystem, b: BootSectors.Bpb, ghost chain: seq<nat>) returns (root: DirRawStream)
    requires HasRoot(fs, b, chain)
    ensures fresh(root) && fresh(root.Footprint() - {fs, fs.storage})
    ensures root.Valid() && root.at == 0 && b.bytesPerSector > 0 && IsRootOf(fs, b, chain, root)
    ensures root.kind.OfFile? <==> fs.layout.fatType == Fat32
  {
    hide FileSystem.Valid, IsChain, DirRawStream.Valid, Joined;
    if fs.layout.fatType == Fat32 {
      root := OpenChainRoot(fs, b, chain);
    } else {
      root := OpenFixedRoot(fs, b);
    }
  }

  // ----- a new volume's root

  /** There is room for any entry in the root of a default volume. */
  lemma DefaultRootRoom(ts: nat, b: BootSectors.Bpb)
    requires ts < Geometry.U32_LIMIT && BootSectors.Formattable(ts)
    requires BootSectors.FormatBpb(BootSectors.DEFAULT_OPTIONS, ts, 512).Ok?
    requires b == BootSectors.FormatBpb(BootSectors.DEFAULT_OPTIONS, ts, 512).value.0
    ensures b.Validate() && Mounts.MirroringEnabled(b)
    ensures b.IsFat32() ==> 4096 <= Mounts.LayoutOf(b).clusterSize <= 32768
    ensures !b.IsFat32() ==> b.rootEntries == 512 && RootSize(b) == 16384
  {
    hide BootSectors.FormatBpb, BootSectors.Bpb.Validate, BootSectors.Suits, BootSectors.Bpb.FitsWidths;
    Mounts.FormattedMounts(ts);
    var spf, c := Mounts.FormatsDefault(ts);
    BootSectors.SuitableBpbLayout(ts, spf, c);
    hide BootSectors.Bpb.TotalClusters;
  }

  lemma EmptyChain(root: DirRawStream, f: File, c: nat)
    requires root.Valid() && root.kind == OfFile(f) && f.chain == [c]
    requires c < |f.fs.clusters| && f.fs.clusters[c] == Zeros(f.fs.layout.clusterSize)
    ensures var n := f.fs.layout.clusterSize; InSlots(n) && root.slots == SlotsOf(Zeros(n))
  {
    hide FileSystem.Valid, IsChain, SlotsOf, FreeCount, SlotStart, Behind, Sized, InSlots, File.Capacity;
    assert Joined(f.fs.clusters, [c]) == f.fs.clusters[c] by {
      assert [c][..0] == [];
    }
  }

  lemma EmptyRegion(root: DirRawStream, s: DiskSlice)
    requires root.Valid() && root.kind == OfRoot(s) && s.View() == Zeros(s.size)
    ensures InSlots(s.size) && root.slots == SlotsOf(Zeros(s.size))
  {}

  /** An empty volume's root holds nothing but zeros. */
  lemma EmptyRoot(fs: FileSystem, b: BootSectors.Bpb, root: DirRawStream)
    requires b.Validate() && fs.layout == Mounts.LayoutOf(b) && Formats.IsEmptyVolume(fs, b.rootDirFirstCluster)
    requires root.Valid() && IsRootOf(fs, b, [b.rootDirFirstCluster], root) && Mounts.MirroringEnabled(b)
    ensures var n := if root.kind.OfFile? then fs.layout.clusterSize else RootSize(b);
            InSlots(n) && root.slots == SlotsOf(Zeros(n))
  {
    hide IsChain, SlotsOf, FreeCount, BootSectors.Bpb.Validate, FileSystem.Valid, InSlots, DirRawStream.Valid;
    match root.kind {
      case OfFile(f) =>
        EmptyChain(root, f, b.rootDirFirstCluster);
      case OfRoot(s) =>
        RegionIsZero(fs, b, s);
        EmptyRegion(root, s);
    }
  }

  lemma RegionIsZero(fs: FileSystem, b: BootSectors.Bpb, s: DiskSlice)
    requires b.Validate() && fs.layout == Mounts.LayoutOf(b) && Formats.IsEmptyVolume(fs, b.rootDirFirstCluster)
    requires s.inner == fs.storage && s.size == RootSize(b) && s.begin + s.size == fs.layout.dataStart
    requires Mounts.MirroringEnabled(b) && fs.layout.fatType != Fat32
    ensures s.begin + s.size <= |s.inner.bytes| && s.View() == Zeros(s.size)
  {
    hide FileSystem.Valid, FreeCount, BootSectors.Bpb.ValidTotalClusters, Geometry.IsPowerOfTwo;
    Mounts.RegionsOf(b);
    RootInside(b);
  }

  /** Nothing is stored, and there is room for an entry. */
  predicate IsBlank(slots: seq<Slot>) {
    AllEnd(slots) && MAX_ENTRY_SLOTS <= |slots| <= 1024
  }

  lemma BlankZeros(n: nat)
    requires InSlots(n) && DIR_ENTRY_SIZE * MAX_ENTRY_SLOTS <= n <= 32768
    ensures IsBlank(SlotsOf(Zeros(n))) && Listing(SlotsOf(Zeros(n)), 0, true) == []
  {
    ZerosAreEmpty(n, true);
  }

  /** From a blank device to the root directory that its header names: it lists nothing. */
  method FormatAndOpen(storage: BlkStorage, template: BootRecords.BootSector) returns (r: Option<DirRawStream>)
    requires storage.Valid() && template.Fits()
    modifies storage
    ensures |storage.bytes| == |old(storage.bytes)|
    ensures var ts := |storage.bytes| / BLOCK; r.Some? <==> ts < Geometry.U32_LIMIT && BootSectors.Formattable(ts)
    ensures r.Some? ==> fresh(r.value) && fresh(r.value.Footprint() - {storage}) && r.value.Valid()
    ensures r.Some? ==> IsBlank(r.value.slots) && Listing(r.value.slots, 0, true) == []
  {
    hide BootSectors.FormatBpb, BootSectors.Bpb.Validate, SlotsOf, DirRawStream.Valid, IsBlank, Listing, Storages.Flat;
    hide Volumes.HeaderOf, Mounts.LayoutOf, Formats.IsEmptyVolume, HasRoot, IsRootOf, RootSize, InSlots;
    hide Mounts.MirroringEnabled, BootRecords.BootSector.Fits;
    var mounted := Volumes.FormatAndMount(storage, template);
    if mounted.None? {
      return None;
    }
    var fs, b := mounted.value.fs, mounted.value.bpb;
    DefaultRootRoom(|storage.bytes| / BLOCK, b);
    HasEmptyRoot(fs, b);
    var root := OpenRoot(fs, b, [b.rootDirFirstCluster]);
    EmptyRoot(fs, b, root);
    BlankZeros(if root.kind.OfFile? then fs.layout.clusterSize else RootSize(b));
    r := Some(root);
  }

  lemma HasEmptyRoot(fs: FileSystem, b: BootSectors.Bpb)
    requires b.Validate() && fs.layout == Mounts.LayoutOf(b) && Formats.IsEmptyVolume(fs, b.rootDirFirstCluster)
    ensures HasRoot(fs, b, [b.rootDirFirstCluster])
    ensures b.IsFat32() <==> fs.layout.fatType == Fat32
  {
    hide FileSystem.Valid, FreeCount, IsChain;
  }

  /** The first file goes to the front of a blank directory and is all that is listed. */
  lemma FirstListing(before: seq<Slot>, volume: Volume, root: DirRawStream, name: string, start: nat,
                     added: seq<Slot>, es: seq<Lfn>, short: Slot) returns (f: Found)
    requires IsBlank(before) && Listing(before, 0, true) == []
    requires StoresFile(before, volume, root, name, Ok(()), start, added, es, short)
    ensures Listing(root.slots, 0, true) == [f] && IsFor(f, Utf16(name), short)
    ensures IsFresh([], name, f.shortName) && !f.isDir && start == 0 && added == []
  {
    hide Listing, IsFresh, IsGrowth, VolumeKept, IsDirectory, IsEnd, Utf16, Trim, IsStored, OnlyAdds;
    assert IsRoom(before, 0, |es| + 1) by {
      assert AllDeleted(before, 0, 0);
    }
    assert start == 0 && added == [];
    assert Clean(before);
    f :| IsInserted([], Listing(root.slots, 0, true), f) && IsFor(f, Utf16(name), short);
  }

  lemma BlankHasRoom(slots: seq<Slot>, num: nat, limit: nat)
    requires IsBlank(slots) && num <= MAX_ENTRY_SLOTS && |slots| <= limit
    ensures HasRoom(slots, num, limit)
  {
    assert AllDeleted(slots, 0, 0);
    assert IsRoom(slots, 0, num);
  }

  lemma BlankIsShort(root: DirRawStream)
    requires IsBlank(root.slots)
    ensures root.Short()
  {}

  /** The directory lists a file of that name, under a short name made from it, and nothing else; or the name is not
      acceptable and nothing is listed. */
  ghost predicate IsFirstFile(slots: seq<Slot>, name: string, created: bool) {
    && (created <==> IsLongName(name))
    && if created then exists f :: Listing(slots, 0, true) == [f] && IsFileOf(f, name)
       else Listing(slots, 0, true) == []
  }

  ghost predicate IsFileOf(f: Found, name: string) {
    f.longName == Trim(Utf16(name)) && !f.isDir && |f.shortName| == SFN_SIZE && IsFresh([], name, f.shortName)
  }

  lemma FirstFileIs(before: seq<Slot>, volume: Volume, root: DirRawStream, name: string, r: Result<(), DirError>,
                    start: nat, added: seq<Slot>, es: seq<Lfn>, short: Slot)
    requires IsBlank(before) && Listing(before, 0, true) == [] && |before| <= root.limit
    requires StoresFile(before, volume, root, name, r, start, added, es, short)
    ensures IsFirstFile(root.slots, name, r.Ok?)
  {
    hide Listing, IsFresh, IsGrowth, VolumeKept, Utf16, Trim, IsPlace, Harmless, Clean, IsBlank, HasRoom, IsCreated;
    hide HasDistinctNames;
    if IsLongName(name) {
      PartsAreFew(name);
      BlankHasRoom(before, NumParts(Utf16(name)) + 1, root.limit);
      var f := FirstListing(before, volume, root, name, start, added, es, short);
      assert IsFileOf(f, name);
    }
  }

  lemma PartsAreFew(name: string)
    requires IsLongName(name)
    ensures NumParts(Utf16(name)) + 1 <= MAX_ENTRY_SLOTS
  {}

  /** Stores the first file of a blank directory. */
  method CreateInBlank(root: DirRawStream, name: string, rest: seq<Byte>, same: Found -> bool) returns (created: bool)
    requires root.Valid() && IsBlank(root.slots) && Listing(root.slots, 0, true) == []
    requires |rest| == SFN_REST && name != [] && name[0] as int < 0x80
    modifies root, root.Footprint()
    ensures root.Valid() && IsFirstFile(root.slots, name, created)
  {
    hide DirRawStream.Valid, IsBlank, Listing, StoresFile, Kept, IsFirstFile;
    BlankIsShort(root);
    root.WithinLimit();
    ghost var slots, volume := root.slots, root.volume;
    var made;
    ghost var lookup, start, added, es, short;
    made, lookup, start, added, es, short := CreateFile(root, name, rest, same);
    created := made.Ok?;
    FirstFileIs(slots, volume, root, name, if made.Ok? then Ok(()) else Err(made.error), start, added, es, short);
  }

  /** From a blank device to its first file: any acceptable name can be stored. */
  method CreateFirstFile(storage: BlkStorage, template: BootRecords.BootSector, name: string, rest: seq<Byte>,
                         same: Found -> bool)
    returns (r: Option<(DirRawStream, bool)>)
    requires storage.Valid() && template.Fits() && |rest| == SFN_REST && name != [] && name[0] as int < 0x80
    modifies storage
    ensures var ts := |old(storage.bytes)| / BLOCK;
            r.Some? <==> ts < Geometry.U32_LIMIT && BootSectors.Formattable(ts)
    ensures r.Some? ==> r.value.0.Valid() && IsFirstFile(r.value.0.slots, name, r.value.1)
  {
    hide DirRawStream.Valid, IsBlank, Listing, IsFirstFile;
    var root := FormatAndOpen(storage, template);
    if root.None? {
      return None;
    }
    var created := CreateInBlank(root.value, name, rest, same);
    r := Some((root.value, created));
  }
}
