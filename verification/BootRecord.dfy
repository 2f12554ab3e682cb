/** The boot sector and the information sector on disk (deps/rust-fatfs/src/boot_sector.rs and fs.rs): how they are
    written, and what is read back. */
module BootRecords {
  import opened Wrappers
  import opened Geometry
  import opened BootSectors
  import opened FatEntries
  import opened Storages

  datatype BootSector = BootSector(
    jump: seq<Byte>, oemName: seq<Byte>, bpb: Bpb, media: Byte, sectorsPerTrack: nat, heads: nat, hiddenSectors: nat,
    reserved0: seq<Byte>, driveNum: Byte, reserved1: Byte, extSig: Byte, volumeId: nat, volumeLabel: seq<Byte>,
    typeLabel: seq<Byte>, bootCode: seq<Byte>, bootSig: seq<Byte>)
  {
    /** Every field fits its place. */
    predicate Fits() {
      && |jump| == 3 && |oemName| == 8 && FitsHead() && FitsExtension()
      && volumeId < U32_LIMIT && |volumeLabel| == 11 && |typeLabel| == 8 && |bootCode| == 448 && |bootSig| == 2
    }

    predicate FitsHead() {
      && bpb.bytesPerSector < U16_LIMIT && bpb.sectorsPerCluster < 256 && bpb.reservedSectors < U16_LIMIT
      && bpb.fats < 256 && bpb.rootEntries < U16_LIMIT && bpb.totalSectors16 < U16_LIMIT
      && bpb.sectorsPerFat16 < U16_LIMIT && sectorsPerTrack < U16_LIMIT && heads < U16_LIMIT
      && hiddenSectors < U32_LIMIT && bpb.totalSectors32 < U32_LIMIT
    }

    predicate FitsExtension() {
      && bpb.sectorsPerFat32 < U32_LIMIT && bpb.extendedFlags < U16_LIMIT && bpb.fsVersion < U16_LIMIT
      && bpb.rootDirFirstCluster < U32_LIMIT && bpb.fsInfoSector < U16_LIMIT && bpb.backupBootSector < U16_LIMIT
      && |reserved0| == 12
    }
  }

  // ----- the fields in order

  function Front(b: BootSector): (r: seq<Byte>)
    requires b.FitsHead()
    ensures |r| == 11
  {
    Le16(b.bpb.bytesPerSector) + [b.bpb.sectorsPerCluster as Byte] + Le16(b.bpb.reservedSectors) + [b.bpb.fats as Byte]
    + Le16(b.bpb.rootEntries) + Le16(b.bpb.totalSectors16) + [b.media]
  }

  function Back(b: BootSector): (r: seq<Byte>)
    requires b.FitsHead()
    ensures |r| == 14
  {
    Le16(b.bpb.sectorsPerFat16) + Le16(b.sectorsPerTrack) + Le16(b.heads) + Le32(b.hiddenSectors)
    + Le32(b.bpb.totalSectors32)
  }

  /** FAT32 volumes only. */
  function Extension(b: BootSector): (r: seq<Byte>)
    requires b.FitsExtension()
    ensures |r| == 28
  {
    Le32(b.bpb.sectorsPerFat32) + Le16(b.bpb.extendedFlags) + Le16(b.bpb.fsVersion) + Le32(b.bpb.rootDirFirstCluster)
    + Le16(b.bpb.fsInfoSector) + Le16(b.bpb.backupBootSector) + b.reserved0
  }

  function Tail(b: BootSector): (r: seq<Byte>)
    requires b.volumeId < U32_LIMIT && |b.volumeLabel| == 11 && |b.typeLabel| == 8
    ensures |r| == 26
  {
    [b.driveNum, b.reserved1, b.extSig] + Le32(b.volumeId) + b.volumeLabel + b.typeLabel
  }

  lemma FrontFields(b: BootSector)
    requires b.FitsHead()
    ensures var f := Front(b);
            && U16At(f, 0) == b.bpb.bytesPerSector && f[2] as int == b.bpb.sectorsPerCluster
            && U16At(f, 3) == b.bpb.reservedSectors && f[5] as int == b.bpb.fats && U16At(f, 6) == b.bpb.rootEntries
            && U16At(f, 8) == b.bpb.totalSectors16 && f[10] == b.media
  {}

  lemma BackFields(b: BootSector)
    requires b.FitsHead()
    ensures var f := Back(b);
            && U16At(f, 0) == b.bpb.sectorsPerFat16 && U16At(f, 2) == b.sectorsPerTrack && U16At(f, 4) == b.heads
            && U32At(f, 6) == b.hiddenSectors && U32At(f, 10) == b.bpb.totalSectors32
  {}

  lemma ExtensionFields(b: BootSector)
    requires b.FitsExtension()
    ensures var f := Extension(b);
            && U32At(f, 0) == b.bpb.sectorsPerFat32 && U16At(f, 4) == b.bpb.extendedFlags
            && U16At(f, 6) == b.bpb.fsVersion && U32At(f, 8) == b.bpb.rootDirFirstCluster
            && U16At(f, 12) == b.bpb.fsInfoSector && U16At(f, 14) == b.bpb.backupBootSector && f[16..] == b.reserved0
  {}

  lemma TailFields(b: BootSector)
    requires b.volumeId < U32_LIMIT && |b.volumeLabel| == 11 && |b.typeLabel| == 8
    ensures var f := Tail(b);
            && f[0] == b.driveNum && f[1] == b.reserved1 && f[2] == b.extSig && U32At(f, 3) == b.volumeId
            && f[7..18] == b.volumeLabel && f[18..] == b.typeLabel
  {}

  // ----- the boot sector

  /** Boot code is shorter where the extension takes its place. */
  function CodeSize(isFat32: bool): nat {
    if isFat32 then 420 else 448
  }

  function Serialize(b: BootSector): (r: seq<Byte>)
    requires b.Fits()
    ensures |r| == BLOCK
  {
    b.jump + b.oemName + Front(b) + Back(b) + (if b.bpb.IsFat32() then Extension(b) else []) + Tail(b)
    + b.bootCode[..CodeSize(b.bpb.IsFat32())] + b.bootSig
  }

  /** What the fields up to the extension say, and the extension if there is one. */
  function ReadBlock(front: seq<Byte>, back: seq<Byte>, extension: seq<Byte>): Bpb
    requires |front| == 11 && |back| == 14 && (U16At(back, 0) == 0 ==> |extension| == 28)
  {
    if U16At(back, 0) == 0 then
      Bpb(U16At(front, 0), front[2] as int, U16At(front, 3), front[5] as int, U16At(front, 6), U16At(front, 8), 0,
          U32At(back, 10), U32At(extension, 0), U16At(extension, 4), U16At(extension, 6), U32At(extension, 8),
          U16At(extension, 12), U16At(extension, 14))
    else
      Bpb(U16At(front, 0), front[2] as int, U16At(front, 3), front[5] as int, U16At(front, 6), U16At(front, 8),
          U16At(back, 0), U32At(back, 10), 0, 0, 0, 0, 0, 0)
  }

  /** Reads a boot sector. Fields that are not on the disk are zero, and so are the identifier and the labels unless
      the signature before them is there. */
  function Deserialize(bytes: seq<Byte>): BootSector
    requires |bytes| == BLOCK
  {
    var front, back := bytes[11..22], bytes[22..36];
    var isFat32 := U16At(back, 0) == 0;
    var at := if isFat32 then 64 else 36;
    var tail, code := bytes[at..at + 26], bytes[at + 26..510];
    var signed := tail[2] == 0x29;
    BootSector(
      bytes[..3], bytes[3..11], ReadBlock(front, back, bytes[36..64]), front[10], U16At(back, 2), U16At(back, 4),
      U32At(back, 6), if isFat32 then bytes[52..64] else Zeros(12), tail[0], tail[1], tail[2],
      if signed then U32At(tail, 3) else 0, if signed then tail[7..18] else Zeros(11),
      if signed then tail[18..] else Zeros(8), code + Zeros(448 - |code|), bytes[510..])
  }

  /** A boot sector less what the disk has no place for. */
  function Kept(b: BootSector): BootSector
    requires b.Fits()
  {
    var block :=
      if b.bpb.IsFat32() then b.bpb
      else b.bpb.(sectorsPerFat32 := 0, extendedFlags := 0, fsVersion := 0, rootDirFirstCluster := 0,
                  fsInfoSector := 0, backupBootSector := 0);
    var n := CodeSize(b.bpb.IsFat32());
    var signed := b.extSig == 0x29;
    b.(bpb := block, reserved0 := if b.bpb.IsFat32() then b.reserved0 else Zeros(12),
       volumeId := if signed then b.volumeId else 0, volumeLabel := if signed then b.volumeLabel else Zeros(11),
       typeLabel := if signed then b.typeLabel else Zeros(8), bootCode := b.bootCode[..n] + Zeros(448 - n))
  }

  /** Where the parts lie. */
  lemma SerializedParts(b: BootSector)
    requires b.Fits()
    ensures var r := Serialize(b);
            var at := if b.bpb.IsFat32() then 64 else 36;
            && r[..3] == b.jump && r[3..11] == b.oemName && r[11..22] == Front(b) && r[22..36] == Back(b)
            && (b.bpb.IsFat32() ==> r[36..64] == Extension(b)) && r[at..at + 26] == Tail(b)
            && r[at + 26..510] == b.bootCode[..CodeSize(b.bpb.IsFat32())] && r[510..] == b.bootSig
  {
    hide Front, Back, Extension, Tail;
  }

  /** What is written is read back, less what the disk has no place for. */
  lemma BootRoundTrip(b: BootSector)
    requires b.Fits()
    ensures Deserialize(Serialize(b)) == Kept(b)
  {
    hide Serialize, Front, Back, Extension, Tail, U16At, U32At;
    SerializedParts(b);
    FrontFields(b);
    BackFields(b);
    TailFields(b);
    var r := Serialize(b);
    if b.bpb.IsFat32() {
      ExtensionFields(b);
      assert r[52..64] == r[36..64][16..];
    }
  }

  /** So a boot sector survives exactly when it uses nothing else. */
  lemma BootSurvivesIff(b: BootSector)
    requires b.Fits()
    ensures Deserialize(Serialize(b)) == b
            <==> && (!b.bpb.IsFat32() ==>
                       && b.bpb.sectorsPerFat32 == 0 && b.bpb.extendedFlags == 0 && b.bpb.fsVersion == 0
                       && b.bpb.rootDirFirstCluster == 0 && b.bpb.fsInfoSector == 0 && b.bpb.backupBootSector == 0
                       && b.reserved0 == Zeros(12))
                 && (b.bpb.IsFat32() ==> b.bootCode[420..] == Zeros(28))
                 && (b.extSig != 0x29 ==>
                       b.volumeId == 0 && b.volumeLabel == Zeros(11) && b.typeLabel == Zeros(8))
  {
    hide Serialize, Deserialize;
    BootRoundTrip(b);
    CodeKeptIff(b.bootCode, CodeSize(b.bpb.IsFat32()));
  }

  /** Boot code that fills all its bytes loses the last ones on a FAT32 volume. */
  lemma LongCodeIsCut(b: BootSector)
    requires b.Fits() && b.bpb.IsFat32() && b.bootCode == seq(448, i => 0x90 as Byte)
    ensures Deserialize(Serialize(b)) != b
  {
    hide Serialize, Deserialize;
    BootSurvivesIff(b);
    assert b.bootCode[420..][0] == 0x90;
  }

  lemma CodeKeptIff(code: seq<Byte>, n: nat)
    requires n <= |code| == 448
    ensures code[..n] + Zeros(448 - n) == code <==> code[n..] == Zeros(448 - n)
  {
    assert code == code[..n] + code[n..];
    assert (code[..n] + Zeros(448 - n))[n..] == Zeros(448 - n);
  }

  // ----- the information sector

  const LEAD_SIG := 0x4161_5252
  const STRUC_SIG := 0x6141_7272
  const TRAIL_SIG := 0xAA55_0000
  const UNKNOWN := 0xFFFF_FFFF

  datatype FsInfo = FsInfo(freeClusterCount: Option<nat>, nextFreeCluster: Option<nat>) {
    predicate Fits() {
      && (freeClusterCount.Some? ==> freeClusterCount.value < U32_LIMIT)
      && (nextFreeCluster.Some? ==> nextFreeCluster.value < U32_LIMIT)
    }
  }

  function SerializeInfo(info: FsInfo): (r: seq<Byte>)
    requires info.Fits()
    ensures |r| == BLOCK
  {
    Le32(LEAD_SIG) + Zeros(480) + Le32(STRUC_SIG) + Le32(GetOr(info.freeClusterCount, UNKNOWN))
    + Le32(GetOr(info.nextFreeCluster, UNKNOWN)) + Zeros(12) + Le32(TRAIL_SIG)
  }

  /** Refused exactly when one of the three signatures is missing. */
  function DeserializeInfo(bytes: seq<Byte>): (r: Option<FsInfo>)
    requires |bytes| == BLOCK
    ensures r.Some? <==> U32At(bytes, 0) == LEAD_SIG && U32At(bytes, 484) == STRUC_SIG && U32At(bytes, 508) == TRAIL_SIG
    ensures r.Some? && r.value.nextFreeCluster.Some? ==> r.value.nextFreeCluster.value >= 2
  {
    if U32At(bytes, 0) != LEAD_SIG || U32At(bytes, 484) != STRUC_SIG || U32At(bytes, 508) != TRAIL_SIG then None
    else
      var count, next := U32At(bytes, 488), U32At(bytes, 492);
      Some(FsInfo(if count == UNKNOWN then None else Some(count),
                  if next == UNKNOWN || next < 2 then None else Some(next)))
  }

  lemma InfoFields(info: FsInfo)
    requires info.Fits()
    ensures var r := SerializeInfo(info);
            && U32At(r, 0) == LEAD_SIG && U32At(r, 484) == STRUC_SIG && U32At(r, 508) == TRAIL_SIG
            && U32At(r, 488) == GetOr(info.freeClusterCount, UNKNOWN)
            && U32At(r, 492) == GetOr(info.nextFreeCluster, UNKNOWN)
  {}

  /** The signatures: RRaA, rrAa and, at the end, the one of a boot sector. */
  lemma InfoSignatures(info: FsInfo)
    requires info.Fits()
    ensures var r := SerializeInfo(info);
            && r[..4] == [0x52, 0x52, 0x61, 0x41] && r[484..488] == [0x72, 0x72, 0x41, 0x61]
            && r[508..] == [0, 0, 0x55, 0xAA]
  {
    SignatureBytes();
    hide Le32;
  }

  lemma SignatureBytes()
    ensures Le32(LEAD_SIG) == [0x52, 0x52, 0x61, 0x41] && Le32(STRUC_SIG) == [0x72, 0x72, 0x41, 0x61]
    ensures Le32(TRAIL_SIG) == [0, 0, 0x55, 0xAA]
  {}

  /** The information sector survives exactly when its numbers are not the ones that stand for none. */
  lemma InfoSurvivesIff(info: FsInfo)
    requires info.Fits()
    ensures DeserializeInfo(SerializeInfo(info)).Some?
    ensures DeserializeInfo(SerializeInfo(info)) == Some(info)
            <==> && info.freeClusterCount != Some(UNKNOWN) && info.nextFreeCluster != Some(UNKNOWN)
                 && info.nextFreeCluster != Some(0) && info.nextFreeCluster != Some(1)
  {
    hide SerializeInfo, U32At;
    InfoFields(info);
  }

  /** A hint that names a reserved entry is lost. */
  lemma ReservedHintIsLost()
    ensures var info := FsInfo(None, Some(1)); info.Fits() && DeserializeInfo(SerializeInfo(info)) != Some(info)
  {
    InfoSurvivesIff(FsInfo(None, Some(1)));
  }
}
