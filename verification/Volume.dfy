/** A volume from an empty device to its mount (deps/rust-fatfs/src/fs.rs): the header that formatting writes, what
    mounting reads off the device, and that the one leads to the other. */
module Volumes {
  import opened Wrappers
  import opened Storages
  import opened FatTypes
  import opened Geometry
  import opened BootSectors
  import opened BootRecords
  import opened Mounts
  import opened Formats
  import Bits
  import DiskSlices
  import FatEntries
  import FatTables
  import FatFs

  const BOOT_SIG: seq<Byte> := [0x55, 0xAA]

  // ----- reading

  /** What mounting learns from the header. */
  datatype Header = Header(bpb: Bpb, freeCount: Option<nat>, hint: Option<nat>)

  datatype MountError = UnexpectedEof | CorruptedFileSystem

  /** The numbers of the information sector that are believed: a dirty volume's count is not, nor one that exceeds
      the clusters. */
  function Believed(info: FsInfo, dirty: bool, totalClusters: nat): (r: FsInfo)
    ensures r.freeClusterCount.Some? ==> !dirty && r.freeClusterCount.value <= totalClusters
  {
    var count, next := info.freeClusterCount, info.nextFreeCluster;
    FsInfo(if dirty || (count.Some? && count.value > totalClusters) then None else count,
           if next.Some? && next.value > totalClusters + RESERVED_FAT_ENTRIES then None else next)
  }

  /** The header on a device. */
  function HeaderOf(bytes: seq<Byte>): Result<Header, MountError> {
    if |bytes| < BLOCK then Err(UnexpectedEof) else HeaderFrom(Deserialize(bytes[..BLOCK]), bytes)
  }

  function HeaderFrom(boot: BootSector, bytes: seq<Byte>): Result<Header, MountError> {
    if boot.bootSig != BOOT_SIG || !boot.bpb.Validate() then Err(CorruptedFileSystem)
    else if FromClusters(boot.bpb.TotalClusters()) != Fat32 then Ok(Header(boot.bpb, None, None))
    else
      var at := boot.bpb.fsInfoSector * boot.bpb.bytesPerSector;
      if at + BLOCK > |bytes| then Err(UnexpectedEof)
      else
        var info := DeserializeInfo(bytes[at..at + BLOCK]);
        if info.None? then Err(CorruptedFileSystem)
        else
          var b := Believed(info.value, boot.reserved1 as int % 2 == 1, boot.bpb.TotalClusters());
          Ok(Header(boot.bpb, b.freeClusterCount, b.nextFreeCluster))
  }

  /** Reads the header, a sector at a time. */
  method ReadHeader(storage: BlkStorage) returns (r: Result<Header, MountError>)
    requires storage.Valid()
    modifies storage`pos
    ensures r == HeaderOf(storage.bytes)
    ensures r.Ok? ==> r.value.bpb.Validate() && (r.value.hint.Some? ==> r.value.hint.value >= RESERVED_FAT_ENTRIES)
  {
    hide Deserialize, Bpb.Validate, DeserializeInfo, Flat;
    FlatSize(storage.blocks, storage.bytes);
    if |storage.blocks| == 0 {
      return Err(UnexpectedEof);
    }
    storage.SeekStart(0);
    var sector := storage.Read(BLOCK);
    assert sector == storage.bytes[..BLOCK];
    var boot := Deserialize(sector);
    if boot.bootSig != BOOT_SIG || !boot.bpb.Validate() {
      return Err(CorruptedFileSystem);
    }
    ValidHasClusters(boot.bpb);
    var total := boot.bpb.TotalClusters();
    if FromClusters(total) != Fat32 {
      return Ok(Header(boot.bpb, None, None));
    }
    var at := boot.bpb.fsInfoSector * boot.bpb.bytesPerSector;
    if at + BLOCK > BLOCK * |storage.blocks| {
      return Err(UnexpectedEof);
    }
    storage.SeekStart(at);
    sector := storage.Read(BLOCK);
    var info := DeserializeInfo(sector);
    if info.None? {
      return Err(CorruptedFileSystem);
    }
    var believed := Believed(info.value, boot.reserved1 as int % 2 == 1, total);
    r := Ok(Header(boot.bpb, believed.freeClusterCount, believed.nextFreeCluster));
  }

  lemma ValidHasClusters(b: Bpb)
    requires b.Validate()
    ensures b.bytesPerSector > 0 && b.sectorsPerCluster > 0 && b.FirstDataSector() <= b.TotalSectors()
  {}

  // ----- writing

  /** `data` at the start of sector `n`, zeros behind it, and nothing else has changed. */
  ghost predicate IsSectorWritten(before: seq<Byte>, after: seq<Byte>, n: nat, bps: nat, data: seq<Byte>) {
    var lo, hi := DiskSlices.SlotStart(0, bps, n), DiskSlices.SlotStart(0, bps, n) + bps;
    && hi <= |after| == |before| && |data| <= bps
    && after == Splice(before, lo, data + Zeros(bps - |data|))
  }

  /** Writes a 512-byte record into a sector and fills the rest of it with zeros. */
  method WriteSector(storage: BlkStorage, n: nat, bps: nat, data: seq<Byte>)
    requires storage.Valid() && |data| == BLOCK <= bps && DiskSlices.SlotStart(0, bps, n) + bps <= |storage.bytes|
    modifies storage
    ensures storage.Valid() && IsSectorWritten(old(storage.bytes), storage.bytes, n, bps, data)
  {
    hide Flat, Splice;
    var at := n * bps;
    storage.SeekStart(at);
    storage.Write(data);
    SectorLeft(n, bps);
    var left := bps - storage.pos % bps;
    SpliceTwice(old(storage.bytes), at, data, Zeros(bps - BLOCK));
    if left != bps {
      WriteZeros(storage, left);
    } else {
      assert data + Zeros(bps - BLOCK) == data;
    }
  }

  lemma SectorLeft(n: nat, bps: nat)
    requires bps >= BLOCK
    ensures (n * bps + BLOCK) % bps == if bps == BLOCK then 0 else BLOCK
  {
    if bps == BLOCK {
      Bits.ModUnique(n * bps + BLOCK, bps, n + 1, 0);
    } else {
      Bits.ModUnique(n * bps + BLOCK, bps, n, BLOCK);
    }
  }

  lemma SectorReads(before: seq<Byte>, after: seq<Byte>, n: nat, bps: nat, data: seq<Byte>, m: nat)
    requires IsSectorWritten(before, after, n, bps, data) && |data| == BLOCK <= bps
    requires DiskSlices.SlotStart(0, bps, m) + bps <= |before|
    ensures var at := DiskSlices.SlotStart(0, bps, m);
            after[at..at + BLOCK] == if m == n then data else before[at..at + BLOCK]
  {
    hide DiskSlices.SlotStart, Splice;
    var at, lo := DiskSlices.SlotStart(0, bps, m), DiskSlices.SlotStart(0, bps, n);
    var piece := data + Zeros(bps - BLOCK);
    if m == n {
      SpliceWindow(before, lo, piece, lo, lo + bps);
      assert after[lo..lo + bps] == piece by {
        FatFs.SpliceAll(before[lo..lo + bps], piece);
      }
      SliceOfSlice(after, lo, lo + bps, 0, BLOCK);
      assert piece[0..BLOCK] == data;
    } else {
      if m < n {
        DiskSlices.SlotOrder(0, bps, m, n);
      } else {
        DiskSlices.SlotOrder(0, bps, n, m);
      }
      SpliceElsewhere(before, lo, piece, at, at + BLOCK);
    }
  }

  const KNOWS_NOTHING := FsInfo(None, None)

  /** The sectors that a header has, each at its place: the boot sector and, for FAT32, an information sector and a
      copy of the boot sector. */
  ghost predicate HasHeader(bytes: seq<Byte>, boot: BootSector, info: FsInfo)
    requires boot.Fits() && info.Fits()
  {
    var b := boot.bpb;
    var at, copy := DiskSlices.SlotStart(0, b.bytesPerSector, b.fsInfoSector),
                    DiskSlices.SlotStart(0, b.bytesPerSector, b.backupBootSector);
    && |bytes| >= BLOCK && bytes[..BLOCK] == Serialize(boot)
    && (b.IsFat32() ==>
          && at + BLOCK <= |bytes| && bytes[at..at + BLOCK] == SerializeInfo(info)
          && copy + BLOCK <= |bytes| && bytes[copy..copy + BLOCK] == Serialize(boot))
  }

  /** The header's sectors are different ones, all of them reserved. */
  predicate HeaderApart(b: Bpb) {
    && b.reservedSectors > 0 && b.bytesPerSector >= BLOCK
    && (b.IsFat32() ==>
          && 0 < b.fsInfoSector < b.reservedSectors && 0 < b.backupBootSector < b.reservedSectors
          && b.fsInfoSector != b.backupBootSector)
  }

  method WriteHeader(storage: BlkStorage, boot: BootSector)
    requires storage.Valid() && boot.Fits() && HeaderApart(boot.bpb)
    requires DiskSlices.SlotStart(0, boot.bpb.bytesPerSector, boot.bpb.reservedSectors) <= |storage.bytes|
    modifies storage
    ensures storage.Valid() && |storage.bytes| == |old(storage.bytes)| && HasHeader(storage.bytes, boot, KNOWS_NOTHING)
  {
    hide Flat, Serialize, SerializeInfo, DiskSlices.SlotStart, BootSector.Fits, IsSectorWritten, HasHeader;
    var b := boot.bpb;
    var bps, record := b.bytesPerSector, Serialize(boot);
    ReservedInside(b, |storage.bytes|);
    ghost var bytes0 := storage.bytes;
    WriteSector(storage, 0, bps, record);
    ghost var bytes1 := storage.bytes;
    SameSize(bytes0, bytes1, 0, bps, record);
    if b.IsFat32() {
      var info := SerializeInfo(KNOWS_NOTHING);
      WriteSector(storage, b.fsInfoSector, bps, info);
      ghost var bytes2 := storage.bytes;
      SameSize(bytes1, bytes2, b.fsInfoSector, bps, info);
      WriteSector(storage, b.backupBootSector, bps, record);
      SameSize(bytes2, storage.bytes, b.backupBootSector, bps, record);
      HeaderWritten32(bytes0, bytes1, bytes2, storage.bytes, boot, info);
    } else {
      HeaderWritten(bytes0, bytes1, boot);
    }
  }

  lemma ReservedInside(b: Bpb, size: nat)
    requires HeaderApart(b) && DiskSlices.SlotStart(0, b.bytesPerSector, b.reservedSectors) <= size
    ensures DiskSlices.SlotStart(0, b.bytesPerSector, 0) + b.bytesPerSector <= size
    ensures b.IsFat32() ==>
              && DiskSlices.SlotStart(0, b.bytesPerSector, b.fsInfoSector) + b.bytesPerSector <= size
              && DiskSlices.SlotStart(0, b.bytesPerSector, b.backupBootSector) + b.bytesPerSector <= size
  {
    hide DiskSlices.SlotStart;
    DiskSlices.SlotOrder(0, b.bytesPerSector, 0, b.reservedSectors);
    if b.IsFat32() {
      DiskSlices.SlotOrder(0, b.bytesPerSector, b.fsInfoSector, b.reservedSectors);
      DiskSlices.SlotOrder(0, b.bytesPerSector, b.backupBootSector, b.reservedSectors);
    }
  }

  lemma SameSize(before: seq<Byte>, after: seq<Byte>, n: nat, bps: nat, data: seq<Byte>)
    requires IsSectorWritten(before, after, n, bps, data)
    ensures |after| == |before|
  {}

  lemma HeaderWritten(before: seq<Byte>, after: seq<Byte>, boot: BootSector)
    requires boot.Fits() && HeaderApart(boot.bpb) && !boot.bpb.IsFat32()
    requires IsSectorWritten(before, after, 0, boot.bpb.bytesPerSector, Serialize(boot))
    ensures HasHeader(after, boot, KNOWS_NOTHING)
  {
    hide Serialize, SerializeInfo, BootSector.Fits, Splice;
    SectorReads(before, after, 0, boot.bpb.bytesPerSector, Serialize(boot), 0);
    assert after[..BLOCK] == after[0..BLOCK];
  }

  lemma HeaderWritten32(bytes0: seq<Byte>, bytes1: seq<Byte>, bytes2: seq<Byte>, bytes3: seq<Byte>, boot: BootSector,
                        info: seq<Byte>)
    requires boot.Fits() && HeaderApart(boot.bpb) && boot.bpb.IsFat32() && info == SerializeInfo(KNOWS_NOTHING)
    requires IsSectorWritten(bytes0, bytes1, 0, boot.bpb.bytesPerSector, Serialize(boot))
    requires IsSectorWritten(bytes1, bytes2, boot.bpb.fsInfoSector, boot.bpb.bytesPerSector, info)
    requires IsSectorWritten(bytes2, bytes3, boot.bpb.backupBootSector, boot.bpb.bytesPerSector, Serialize(boot))
    requires DiskSlices.SlotStart(0, boot.bpb.bytesPerSector, boot.bpb.reservedSectors) <= |bytes0|
    ensures HasHeader(bytes3, boot, KNOWS_NOTHING)
  {
    hide Serialize, SerializeInfo, BootSector.Fits, IsSectorWritten, DiskSlices.SlotStart;
    var b, bps, record := boot.bpb, boot.bpb.bytesPerSector, Serialize(boot);
    ReservedInside(b, |bytes0|);
    SameSize(bytes0, bytes1, 0, bps, record);
    SameSize(bytes1, bytes2, b.fsInfoSector, bps, info);
    SameSize(bytes2, bytes3, b.backupBootSector, bps, record);
    SectorReads(bytes0, bytes1, 0, bps, record, 0);
    SectorReads(bytes1, bytes2, b.fsInfoSector, bps, info, 0);
    SectorReads(bytes1, bytes2, b.fsInfoSector, bps, info, b.fsInfoSector);
    SectorReads(bytes2, bytes3, b.backupBootSector, bps, record, 0);
    SectorReads(bytes2, bytes3, b.backupBootSector, bps, record, b.fsInfoSector);
    SectorReads(bytes2, bytes3, b.backupBootSector, bps, record, b.backupBootSector);
    assert bytes3[..BLOCK] == bytes3[0..BLOCK];
  }

  /** What mounting makes of a header. The count is believed if the volume is not dirty, which digit 0 of the status
      says, and it does not exceed the clusters; the hint if it is the number of a cluster or the next one. */
  lemma HeaderIsRead(bytes: seq<Byte>, boot: BootSector, info: FsInfo)
    requires boot.Fits() && info.Fits() && HasHeader(bytes, boot, info) && boot.bootSig == BOOT_SIG
    requires boot.bpb.Validate() && Kept(boot).bpb == boot.bpb
    ensures HeaderOf(bytes).Ok?
    ensures var h, b := HeaderOf(bytes).value, boot.bpb;
            && h.bpb == b
            && (h.freeCount.Some? <==>
                  && b.IsFat32() && info.freeClusterCount.Some? && !Bits.On(boot.reserved1 as int, 0)
                  && info.freeClusterCount.value <= b.TotalClusters())
            && (h.freeCount.Some? ==> h.freeCount == info.freeClusterCount)
            && (h.hint.Some? <==>
                  && b.IsFat32() && info.nextFreeCluster.Some?
                  && RESERVED_FAT_ENTRIES <= info.nextFreeCluster.value <= b.TotalClusters() + RESERVED_FAT_ENTRIES)
            && (h.hint.Some? ==> h.hint == info.nextFreeCluster)
  {
    hide Serialize, Deserialize, SerializeInfo, BootSector.Fits, IsPowerOfTwo, FatEntries.U32At;
    BootRoundTrip(boot);
    InfoFields(info);
  }

  /** Changes behind the reserved sectors leave the header alone. */
  lemma HeaderStays(before: seq<Byte>, after: seq<Byte>, boot: BootSector, info: FsInfo)
    requires boot.Fits() && info.Fits() && HasHeader(before, boot, info) && HeaderApart(boot.bpb) && |after| == |before|
    requires var n := DiskSlices.SlotStart(0, boot.bpb.bytesPerSector, boot.bpb.reservedSectors);
             n <= |before| && after[..n] == before[..n]
    ensures HasHeader(after, boot, info)
  {
    hide Serialize, SerializeInfo, DiskSlices.SlotStart, BootSector.Fits;
    var b := boot.bpb;
    var n := DiskSlices.SlotStart(0, b.bytesPerSector, b.reservedSectors);
    DiskSlices.SlotOrder(0, b.bytesPerSector, 0, b.reservedSectors);
    SameBelow(before, after, n, 0, BLOCK);
    assert after[..BLOCK] == after[0..BLOCK] && before[..BLOCK] == before[0..BLOCK];
    if b.IsFat32() {
      var at, copy := DiskSlices.SlotStart(0, b.bytesPerSector, b.fsInfoSector),
                      DiskSlices.SlotStart(0, b.bytesPerSector, b.backupBootSector);
      DiskSlices.SlotOrder(0, b.bytesPerSector, b.fsInfoSector, b.reservedSectors);
      DiskSlices.SlotOrder(0, b.bytesPerSector, b.backupBootSector, b.reservedSectors);
      SameBelow(before, after, n, at, at + BLOCK);
      SameBelow(before, after, n, copy, copy + BLOCK);
    }
  }

  lemma SameBelow(before: seq<Byte>, after: seq<Byte>, n: nat, lo: nat, hi: nat)
    requires lo <= hi <= n <= |before| == |after| && after[..n] == before[..n]
    ensures after[lo..hi] == before[lo..hi]
  {
    assert after[lo..hi] == after[..n][lo..hi] && before[lo..hi] == before[..n][lo..hi];
  }

  // ----- formatting

  /** The boot sector of a default volume; code, labels and drive data come from a template. */
  function FormatBootSector(template: BootSector, b: Bpb): BootSector {
    template.(bpb := b, reserved1 := 0, extSig := 0x29, bootSig := BOOT_SIG)
  }

  lemma DefaultBootFits(ts: nat, template: BootSector, b: Bpb, t: FatType)
    requires ts < U32_LIMIT && Formattable(ts) && FormatBpb(DEFAULT_OPTIONS, ts, 512) == Ok((b, t)) && template.Fits()
    ensures var boot := FormatBootSector(template, b);
            && boot.Fits() && HeaderApart(b) && Kept(boot).bpb == b && MirroringEnabled(b) && b.bytesPerSector == 512
            && (b.IsFat32() <==> t == Fat32)
            && (t == Fat32 ==>
                  && b.rootDirFirstCluster == RESERVED_FAT_ENTRIES && b.fsInfoSector == 1 && b.backupBootSector == 6)
  {
    hide FormatBpb, Kept;
    var spf, c := FormatsDefault(ts);
    SuitableBpbLayout(ts, spf, c);
    KeptBlock(FormatBootSector(template, b));
  }

  lemma KeptBlock(boot: BootSector)
    requires boot.Fits()
    requires !boot.bpb.IsFat32() ==>
               && boot.bpb.sectorsPerFat32 == 0 && boot.bpb.extendedFlags == 0 && boot.bpb.fsVersion == 0
               && boot.bpb.rootDirFirstCluster == 0 && boot.bpb.fsInfoSector == 0 && boot.bpb.backupBootSector == 0
    ensures Kept(boot).bpb == boot.bpb
  {}

  /** The header of a new volume, where FAT drivers look for it: signed, clean, with the labels that were asked for,
      and on FAT32 with an information sector behind it and a copy in sector 6. */
  ghost predicate IsNewHeader(bytes: seq<Byte>, template: BootSector) {
    && |bytes| >= BLOCK && bytes[..BLOCK][510..] == [0x55, 0xAA]
    && var boot := Deserialize(bytes[..BLOCK]);
       && boot.volumeLabel == template.volumeLabel && boot.volumeId == template.volumeId && boot.reserved1 == 0
       && (boot.bpb.IsFat32() ==>
             && |bytes| >= 7 * BLOCK && bytes[6 * BLOCK..7 * BLOCK] == bytes[..BLOCK]
             && DeserializeInfo(bytes[BLOCK..2 * BLOCK]) == Some(KNOWS_NOTHING))
  }

  lemma NewBoot(boot: BootSector)
    requires boot.Fits() && boot.extSig == 0x29 && boot.bootSig == BOOT_SIG && Kept(boot).bpb == boot.bpb
    ensures var r := Serialize(boot);
            && r[510..] == [0x55, 0xAA] && Deserialize(r).bpb == boot.bpb && Deserialize(r).reserved1 == boot.reserved1
            && Deserialize(r).volumeLabel == boot.volumeLabel && Deserialize(r).volumeId == boot.volumeId
  {
    hide Serialize, Deserialize, BootSector.Fits;
    BootRoundTrip(boot);
    SerializedParts(boot);
  }

  lemma NewInfo()
    ensures DeserializeInfo(SerializeInfo(KNOWS_NOTHING)) == Some(KNOWS_NOTHING)
  {
    hide SerializeInfo, DeserializeInfo;
    InfoSurvivesIff(KNOWS_NOTHING);
  }

  lemma FarSectors(bytes: seq<Byte>, boot: BootSector)
    requires boot.Fits() && HasHeader(bytes, boot, KNOWS_NOTHING) && boot.bpb.bytesPerSector == BLOCK
    requires boot.bpb.IsFat32() && boot.bpb.fsInfoSector == 1 && boot.bpb.backupBootSector == 6
    ensures |bytes| >= 7 * BLOCK && bytes[BLOCK..2 * BLOCK] == SerializeInfo(KNOWS_NOTHING)
    ensures bytes[6 * BLOCK..7 * BLOCK] == Serialize(boot)
  {
    hide Serialize, SerializeInfo, BootSector.Fits;
  }

  lemma NewHeader(bytes: seq<Byte>, template: BootSector, b: Bpb)
    requires FormatBootSector(template, b).Fits() && HasHeader(bytes, FormatBootSector(template, b), KNOWS_NOTHING)
    requires Kept(FormatBootSector(template, b)).bpb == b && b.bytesPerSector == BLOCK
    requires b.IsFat32() ==> b.fsInfoSector == 1 && b.backupBootSector == 6
    ensures IsNewHeader(bytes, template)
  {
    hide Serialize, Deserialize, SerializeInfo, DeserializeInfo, BootSector.Fits, Kept, DiskSlices.SlotStart;
    var boot := FormatBootSector(template, b);
    NewBoot(boot);
    assert bytes[..BLOCK] == Serialize(boot);
    if b.IsFat32() {
      FarSectors(bytes, boot);
      NewInfo();
    }
  }

  /** Formats a whole device with default options. Refused exactly for sizes that no type suits, and then nothing
      changes; else the device has a header that mounting reads, formatted FATs and an empty root. */
  method FormatVolume(storage: BlkStorage, template: BootSector) returns (r: Result<Bpb, Error>)
    requires storage.Valid() && template.Fits()
    modifies storage
    ensures storage.Valid() && |storage.bytes| == |old(storage.bytes)|
    ensures var ts := |storage.bytes| / BLOCK; r.Ok? <==> ts < U32_LIMIT && Formattable(ts)
    ensures r.Err? ==> storage.bytes == old(storage.bytes)
    ensures r.Ok? ==> FormatBpb(DEFAULT_OPTIONS, |storage.bytes| / BLOCK, 512).Ok?
                      && r.value == FormatBpb(DEFAULT_OPTIONS, |storage.bytes| / BLOCK, 512).value.0
    ensures r.Ok? ==> IsNewVolume(storage.bytes, r.value, template.media)
    ensures r.Ok? ==> IsNewHeader(storage.bytes, template)
    ensures r.Ok? ==> var boot := FormatBootSector(template, r.value);
                      boot.Fits() && HasHeader(storage.bytes, boot, KNOWS_NOTHING)
  {
    hide FormatBpb, IsPowerOfTwo, Bpb.ValidTotalClusters, FatFs.Layout.Ok, IsFormatted, LayoutOf, HasHeader, HeaderOf;
    hide DiskSlices.SlotStart, Flat, EntryRoom, Kept, HasEmptyRoot;
    var ts := |storage.blocks|;
    FlatSize(storage.blocks, storage.bytes);
    if ts >= U32_LIMIT {
      return Err(InvalidInput);
    }
    FormatSucceedsIff(ts);
    var formatted := FormatBpb(DEFAULT_OPTIONS, ts, 512);
    if formatted.Err? {
      return Err(InvalidInput);
    }
    var (b, t) := formatted.value;
    DefaultLayoutFits(ts, b, t);
    DefaultBootFits(ts, template, b, t);
    RegionsOf(b);
    ReservedFit(b, LayoutOf(b));
    var boot := FormatBootSector(template, b);
    WriteHeader(storage, boot);
    ghost var bytes := storage.bytes;
    FormatRegions(storage, LayoutOf(b), template.media);
    HeaderStays(bytes, storage.bytes, boot, KNOWS_NOTHING);
    HeaderIsRead(storage.bytes, boot, KNOWS_NOTHING);
    NewHeader(storage.bytes, template, b);
    FormattedRoot(LayoutOf(b), storage.bytes, template.media, b.rootDirFirstCluster);
    r := Ok(b);
  }

  lemma ReservedFit(b: Bpb, l: FatFs.Layout)
    requires l.Ok() && l.fatBegin == b.reservedSectors * b.bytesPerSector
    ensures DiskSlices.SlotStart(0, b.bytesPerSector, b.reservedSectors) == l.fatBegin <= l.dataStart
  {}

  /** What formatting leaves: a header that reads back, and formatted regions where it says. */
  ghost predicate IsNewVolume(bytes: seq<Byte>, b: Bpb, media: Byte) {
    && HeaderOf(bytes) == Ok(Header(b, None, None)) && b.Validate() && LayoutOf(b).Ok()
    && IsFormatted(LayoutOf(b), bytes, media) && LayoutOf(b).Entries() <= BAD_START
    && HasEmptyRoot(LayoutOf(b), bytes, b.rootDirFirstCluster)
    && DiskSlices.SlotStart(LayoutOf(b).dataStart, LayoutOf(b).clusterSize, LayoutOf(b).totalClusters) <= |bytes|
  }

  // ----- mounting

  /** What mounting believes of a device beside its header: everything lies inside, mirrors agree, links lead to
      clusters, and a count is right. */
  ghost predicate IsSound(bytes: seq<Byte>, h: Header) {
    && h.bpb.Validate() && LayoutOf(h.bpb).Ok()
    && var l := LayoutOf(h.bpb);
       && l.dataStart <= |bytes| && DiskSlices.SlotStart(l.dataStart, l.clusterSize, l.totalClusters) <= |bytes|
       && DiskSlices.MirrorsAgree(bytes, l.fatBegin, l.fatSize, l.mirrors)
       && var table := FatEntries.Table(bytes[l.fatBegin..l.fatBegin + l.fatSize], l.fatType, l.Entries());
          FatTables.LinksInRange(table) && (h.freeCount.Some? ==> h.freeCount.value == FatTables.FreeCount(table))
  }

  /** A mounted volume and the parameter block it was mounted by. */
  datatype Mounted = Mounted(fs: FatFs.FileSystem, bpb: Bpb)

  /** Mounts a device: the layout, the count and the hint are the ones its header gives. */
  method Mount(storage: BlkStorage) returns (r: Result<Mounted, MountError>)
    requires storage.Valid() && (HeaderOf(storage.bytes).Ok? ==> IsSound(storage.bytes, HeaderOf(storage.bytes).value))
    modifies storage`pos
    ensures r.Err? <==> HeaderOf(storage.bytes).Err?
    ensures r.Err? ==> r.error == HeaderOf(storage.bytes).error
    ensures r.Ok? ==> var fs := r.value.fs; fresh(fs) && fs.Valid() && fs.storage == storage
    ensures r.Ok? ==> var h, fs := HeaderOf(storage.bytes).value, r.value.fs;
                      && r.value.bpb == h.bpb && h.bpb.Validate() && fs.layout == LayoutOf(h.bpb)
                      && fs.freeClusterCount == h.freeCount && fs.nextFreeCluster == h.hint
  {
    hide HeaderOf, FatFs.Layout.Ok, Flat, DiskSlices.SlotStart, DiskSlices.MirrorsAgree, FatEntries.Table, LayoutOf;
    hide FatTables.LinksInRange, FatTables.FreeCount, FatFs.FileSystem.Valid, IsPowerOfTwo;
    var header := ReadHeader(storage);
    if header.Err? {
      return Err(header.error);
    }
    var h := header.value;
    var fs := new FatFs.FileSystem(storage, LayoutOf(h.bpb), h.freeCount, h.hint);
    r := Ok(Mounted(fs, h.bpb));
  }

  lemma NewIsSound(bytes: seq<Byte>, b: Bpb, media: Byte)
    requires IsNewVolume(bytes, b, media)
    ensures IsSound(bytes, Header(b, None, None))
  {
    hide FatFs.Layout.Ok, DiskSlices.SlotStart, DiskSlices.MirrorsAgree, FatEntries.Table, HasEntries, HasIdentity;
    hide LayoutOf, HeaderOf, HasEmptyRoot, FatTables.LinksInRange, Bpb.ValidTotalClusters, IsPowerOfTwo;
    FormattedTable(LayoutOf(b), bytes, media);
  }

  /** From a blank device to an empty volume: it works exactly for the sizes that can be formatted, and everything
      that mounting needs is read off the device. */
  method FormatAndMount(storage: BlkStorage, template: BootSector) returns (r: Option<Mounted>)
    requires storage.Valid() && template.Fits()
    modifies storage
    ensures storage.Valid() && |storage.bytes| == |old(storage.bytes)|
    ensures var ts := |storage.bytes| / BLOCK; r.Some? <==> ts < U32_LIMIT && Formattable(ts)
    ensures r.Some? ==> var fs := r.value.fs; fresh(fs) && fs.storage == storage
    ensures r.Some? ==> var fs, b := r.value.fs, r.value.bpb;
                        && b.Validate() && fs.layout == LayoutOf(b) && IsEmptyVolume(fs, b.rootDirFirstCluster)
                        && HeaderOf(storage.bytes) == Ok(Header(b, None, None))
                        && FormatBpb(DEFAULT_OPTIONS, |storage.bytes| / BLOCK, 512).Ok?
                        && b == FormatBpb(DEFAULT_OPTIONS, |storage.bytes| / BLOCK, 512).value.0
  {
    hide HeaderOf, IsFormatted, FatFs.Layout.Ok, Flat, DiskSlices.SlotStart, LayoutOf, FatFs.FileSystem.Valid;
    hide IsSound, IsPowerOfTwo, HasHeader, Bpb.ValidTotalClusters, IsEmptyVolume, HasEmptyRoot, FormatBpb;
    var formatted := FormatVolume(storage, template);
    if formatted.Err? {
      return None;
    }
    NewIsSound(storage.bytes, formatted.value, template.media);
    var mounted := Mount(storage);
    FormattedIsEmpty(mounted.value.fs, template.media, formatted.value.rootDirFirstCluster);
    r := Some(mounted.value);
  }
}
