/** Formatting parameters and the BIOS parameter block (deps/rust-fatfs/src/boot_sector.rs). */
module BootSectors {
  import opened Wrappers
  import opened Bits
  import opened FatTypes
  import opened Geometry

  datatype Error = InvalidInput

  datatype Bpb = Bpb(
    bytesPerSector: nat, sectorsPerCluster: nat, reservedSectors: nat, fats: nat, rootEntries: nat,
    totalSectors16: nat, sectorsPerFat16: nat, totalSectors32: nat, sectorsPerFat32: nat,
    extendedFlags: nat, fsVersion: nat, rootDirFirstCluster: nat, fsInfoSector: nat, backupBootSector: nat)
  {
    predicate IsFat32() {
      sectorsPerFat16 == 0
    }

    function SectorsPerFat(): nat {
      if IsFat32() then sectorsPerFat32 else sectorsPerFat16
    }

    function TotalSectors(): nat {
      if totalSectors16 == 0 then totalSectors32 else totalSectors16
    }

    function RootDirSectors(): nat
      requires bytesPerSector > 0
    {
      (rootEntries * DIR_ENTRY_SIZE + bytesPerSector - 1) / bytesPerSector
    }

    function FirstDataSector(): nat
      requires bytesPerSector > 0
    {
      reservedSectors + fats * SectorsPerFat() + RootDirSectors()
    }

    function TotalClusters(): nat
      requires bytesPerSector > 0 && sectorsPerCluster > 0 && FirstDataSector() <= TotalSectors()
    {
      (TotalSectors() - FirstDataSector()) / sectorsPerCluster
    }

    predicate ValidBytesPerSector() {
      IsPowerOfTwo(bytesPerSector) && 512 <= bytesPerSector <= 4096
    }

    predicate ValidSectorsPerCluster() {
      IsPowerOfTwo(sectorsPerCluster) && 1 <= sectorsPerCluster <= 128
    }

    predicate ValidReservedSectors() {
      reservedSectors >= 1 && (IsFat32() ==> backupBootSector < reservedSectors && fsInfoSector < reservedSectors)
    }

    predicate ValidRootEntries() {
      rootEntries == 0 <==> IsFat32()
    }

    predicate ValidTotalSectors()
      requires bytesPerSector > 0
    {
      && (IsFat32() ==> totalSectors16 == 0)
      && (totalSectors16 == 0) != (totalSectors32 == 0)
      && FirstDataSector() < TotalSectors()
    }

    predicate ValidTotalClusters()
      requires bytesPerSector > 0 && sectorsPerCluster > 0 && FirstDataSector() < TotalSectors()
    {
      var t := FromClusters(TotalClusters());
      (IsFat32() <==> t == Fat32) && (t == Fat32 ==> TotalClusters() <= 0x0FFF_FFFF)
    }

    /** The checks made when a volume is mounted. */
    predicate Validate() {
      && fsVersion == 0
      && ValidBytesPerSector()
      && ValidSectorsPerCluster()
      && ValidReservedSectors()
      && fats != 0
      && ValidRootEntries()
      && ValidTotalSectors()
      && (IsFat32() ==> sectorsPerFat32 != 0)
      && ValidTotalClusters()
    }

    /** Every field fits its on-disk width, and so does every product the validation computes. */
    predicate FitsWidths() {
      && bytesPerSector < U16_LIMIT && sectorsPerCluster < 256 && reservedSectors < U16_LIMIT && fats < 256
      && rootEntries < U16_LIMIT && totalSectors16 < U16_LIMIT && sectorsPerFat16 < U16_LIMIT
      && totalSectors32 < U32_LIMIT && sectorsPerFat32 < U32_LIMIT
      && SectorsPerFat() * bytesPerSector * 8 < U32_LIMIT
    }

    /** The FAT addresses every cluster: entries for all of them plus the reserved two. */
    predicate FatCoversClusters()
      requires bytesPerSector > 0 && sectorsPerCluster > 0 && FirstDataSector() <= TotalSectors()
    {
      var t := FromClusters(TotalClusters());
      TotalClusters() + RESERVED_FAT_ENTRIES <= SectorsPerFat() * bytesPerSector * 8 / t.BitsPerFatEntry()
    }
  }

  datatype FormatOptions = FormatOptions(
    bytesPerCluster: Option<nat>, fatType: Option<FatType>, maxRootDirEntries: Option<nat>, fats: Option<nat>)

  const DEFAULT_OPTIONS := FormatOptions(None, None, None, None)

  function GetOr<T>(o: Option<T>, default: T): T {
    if o.Some? then o.value else default
  }

  /** Clusters left once the FATs are laid out in `t0` sectors. */
  function ClustersLeft(t0: nat, spc: nat, fats: nat, spf: nat): nat
    requires spc > 0 && fats * spf <= t0
  {
    (t0 - fats * spf) / spc
  }

  function ReservedSectorsFor(fatType: FatType): nat {
    if fatType == Fat32 then 8 else 1
  }

  function EntriesIn(bps: nat, spc: nat, t: FatType): nat {
    spc * bps * 8 / t.BitsPerFatEntry()
  }

  lemma SizingFacts(totalSectors: nat, bps: nat, spc: nat, t: FatType, reserved: nat, root: nat, fats: nat)
    requires totalSectors > reserved + root + 8 && bps >= 512 && spc > 0 && 1 <= fats <= 2
    ensures IsFloor(EntriesIn(bps, spc, t), spc * bps * 8, t.BitsPerFatEntry())
    ensures var t0 := totalSectors - reserved - root;
            var spf := DetermineSectorsPerFat(totalSectors, bps, spc, t, reserved, root, fats);
            && IsCeil(spf, t0 + 2 * spc, EntriesIn(bps, spc, t) + fats) && 0 < spf && fats * spf < t0
            && IsFloor(ClustersLeft(t0, spc, fats, spf), t0 - fats * spf, spc)
  {
    var t0 := totalSectors - reserved - root;
    var spf := DetermineSectorsPerFat(totalSectors, bps, spc, t, reserved, root, fats);
    var e := EntriesIn(bps, spc, t);
    FloorDiv(spc * bps * 8, t.BitsPerFatEntry());
    EntriesPerCluster(bps, spc, t.BitsPerFatEntry(), e);
    CeilDiv(t0 + 2 * spc, e + fats);
    FatsFit(t0, spc, e, fats, spf);
    FloorDiv(t0 - fats * spf, spc);
  }

  /** For every volume and cluster size: the FATs fit, the FAT has an entry for every cluster left plus
      the reserved two, and it wastes less than two sectors' worth of entries. */
  lemma SectorsPerFatIsSound(totalSectors: nat, bps: nat, spc: nat, t: FatType, reserved: nat, root: nat, fats: nat)
    requires totalSectors > reserved + root + 8 && bps >= 512 && bps % 4 == 0 && spc > 0 && 1 <= fats <= 2
    ensures var t0 := totalSectors - reserved - root;
            var spf := DetermineSectorsPerFat(totalSectors, bps, spc, t, reserved, root, fats);
            && 0 < spf && fats * spf < t0
            && var clusters := ClustersLeft(t0, spc, fats, spf);
            && (clusters + RESERVED_FAT_ENTRIES) * t.BitsPerFatEntry() <= spf * bps * 8
            && (t != Fat12 || FromClusters(clusters) == Fat12 ==>
                  spf * bps * 8 / t.BitsPerFatEntry() - RESERVED_FAT_ENTRIES
                  <= clusters + 2 * (bps * 8 / t.BitsPerFatEntry()))
  {
    var t0 := totalSectors - reserved - root;
    var spf := DetermineSectorsPerFat(totalSectors, bps, spc, t, reserved, root, fats);
    var e := EntriesIn(bps, spc, t);
    SizingFacts(totalSectors, bps, spc, t, reserved, root, fats);
    var clusters := ClustersLeft(t0, spc, fats, spf);
    FatHasRoom(t0, bps, spc, t.BitsPerFatEntry(), fats, e, spf, clusters);
    if t == Fat12 {
      if FromClusters(clusters) == Fat12 {
        Fat12IsTight(t0, bps, spc, fats, e, spf, clusters);
      }
    } else {
      var eps := bps * 8 / t.BitsPerFatEntry();
      WholeEntries(bps, spc, t.BitsPerFatEntry(), eps, e);
      WholeEntries(bps, spf, t.BitsPerFatEntry(), eps, spf * bps * 8 / t.BitsPerFatEntry());
      FatIsTight(t0, eps, spc, fats, spf, clusters);
    }
  }

  /** Sixteen- and thirty-two-bit entries divide a sector evenly. */
  lemma WholeEntries(bps: nat, m: nat, bits: nat, eps: nat, q: nat)
    requires (bits == 16 || bits == 32) && bps % 4 == 0 && eps == bps * 8 / bits
    requires q == m * bps * 8 / bits
    ensures q == m * eps
  {
    var h := bps / 4;
    var p := m * h;
    assert bps == 4 * h && m * (4 * h) == 4 * p && m * (2 * h) == 2 * p;
    assert m * bps * 8 == 32 * p;
    assert eps == if bits == 16 then 2 * h else h;
  }

  /** Reserved sectors and FAT size for one candidate type, if the clusters then left match it. */
  function TryFsGeometry(
    totalSectors: nat, bps: nat, spc: nat, fatType: FatType, rootDirSectors: nat, fats: nat): (g: Option<(nat, nat)>)
    requires bps >= 512 && spc > 0 && 1 <= fats <= 2
    ensures g.Some? ==> g.value.0 + rootDirSectors + fats * g.value.1 <= totalSectors
  {
    var reserved := ReservedSectorsFor(fatType);
    if totalSectors <= reserved + rootDirSectors + 8 then None
    else
      var spf := DetermineSectorsPerFat(totalSectors, bps, spc, fatType, reserved, rootDirSectors, fats);
      var t0 := totalSectors - reserved - rootDirSectors;
      SizingFacts(totalSectors, bps, spc, fatType, reserved, rootDirSectors, fats);
      var totalClusters := ClustersLeft(t0, spc, fats, spf);
      if fatType != FromClusters(totalClusters) then None
      else if totalClusters > fatType.MaxClusters() then None
      else Some((reserved, spf))
  }

  function DetermineRootDirSectors(rootDirEntries: nat, bps: nat, fatType: FatType): nat
    requires bps > 0
  {
    if fatType == Fat32 then 0 else (rootDirEntries * DIR_ENTRY_SIZE + bps - 1) / bps
  }

  /** The first of FAT32, FAT16, FAT12 whose geometry works out. */
  function DetermineFsGeometry(
    totalSectors: nat, bps: nat, spc: nat, rootDirEntries: nat, fats: nat): (g: Result<(FatType, nat, nat), Error>)
    requires bps >= 512 && spc > 0 && 1 <= fats <= 2
    ensures g.Ok? ==> var (t, reserved, spf) := g.value;
              reserved + DetermineRootDirSectors(rootDirEntries, bps, t) + fats * spf <= totalSectors
  {
    var g32 := TryFsGeometry(totalSectors, bps, spc, Fat32, DetermineRootDirSectors(rootDirEntries, bps, Fat32), fats);
    var g16 := TryFsGeometry(totalSectors, bps, spc, Fat16, DetermineRootDirSectors(rootDirEntries, bps, Fat16), fats);
    var g12 := TryFsGeometry(totalSectors, bps, spc, Fat12, DetermineRootDirSectors(rootDirEntries, bps, Fat12), fats);
    if g32.Some? then Ok((Fat32, g32.value.0, g32.value.1))
    else if g16.Some? then Ok((Fat16, g16.value.0, g16.value.1))
    else if g12.Some? then Ok((Fat12, g12.value.0, g12.value.1))
    else Err(InvalidInput)
  }

  lemma MadeBpbFits(totalSectors: nat, bps: nat, spc: nat, rootDirEntries: nat, fats: nat,
                    fatType: FatType, reserved: nat, spf: nat)
    requires bps > 0 && reserved + DetermineRootDirSectors(rootDirEntries, bps, fatType) + fats * spf <= totalSectors
    ensures var b := MakeBpb(totalSectors, bps, spc, rootDirEntries, fats, fatType, reserved, spf);
            b.FirstDataSector() <= b.TotalSectors()
  {
    MulLe(spf % U16_LIMIT, spf, fats);
  }

  function MakeBpb(totalSectors: nat, bps: nat, spc: nat, rootDirEntries: nat, fats: nat,
                   fatType: FatType, reserved: nat, spf: nat): Bpb {
    var isFat32 := fatType == Fat32;
    Bpb(bps, spc, reserved, fats, if isFat32 then 0 else rootDirEntries,
        if totalSectors < 0x10000 then totalSectors else 0,
        if isFat32 then 0 else spf % U16_LIMIT,
        if totalSectors >= 0x10000 then totalSectors else 0,
        if isFat32 then spf else 0,
        0, 0, if isFat32 then 2 else 0, if isFat32 then 1 else 0, if isFat32 then 6 else 0)
  }

  function FormatBpb(o: FormatOptions, totalSectors: nat, bps: nat): Result<(Bpb, FatType), Error>
    requires 512 <= bps <= 4096 && 1 <= GetOr(o.fats, 2) <= 2
    requires o.bytesPerCluster.Some? ==> o.bytesPerCluster.value >= bps
  {
    var bytesPerCluster := GetOr(o.bytesPerCluster, DetermineBytesPerCluster(totalSectors * bps, bps, o.fatType));
    var spc := bytesPerCluster / bps;
    var fats := GetOr(o.fats, 2);
    var rootDirEntries := GetOr(o.maxRootDirEntries, 512);
    assert spc > 0;
    var g := DetermineFsGeometry(totalSectors, bps, spc, rootDirEntries, fats);
    if g.Err? then Err(g.error)
    else
      var (fatType, reserved, spf) := g.value;
      var bpb := MakeBpb(totalSectors, bps, spc, rootDirEntries, fats, fatType, reserved, spf);
      MadeBpbFits(totalSectors, bps, spc, rootDirEntries, fats, fatType, reserved, spf);
      if FromClusters(bpb.TotalClusters()) != fatType then Err(InvalidInput) else Ok((bpb, fatType))
  }

  // ----- cluster size for default options and 512-byte sectors

  /** Sectors per cluster, by volume size in sectors. */
  function DefaultSectorsPerCluster(ts: nat): nat {
    if ts <= 2048 then 1
    else if ts <= 4096 then 2
    else if ts < 8192 then 4
    else if ts <= 32768 then 2
    else if ts <= 262144 then 4
    else if ts <= 524288 then 8
    else if ts < 1048576 then 16
    else if ts <= 16777216 then 8
    else if ts <= 33554432 then 16
    else if ts <= 67108864 then 32
    else 64
  }

  /** Doubling from one passes through every smaller power of two. */
  lemma {:induction false} DoublesPast(j: nat, n: nat)
    requires Pow2(j) < 2 * n
    ensures NextPowerOfTwo(n) == DoubleUntil(Pow2(j), n)
  {
    if j > 0 {
      DoublesPast(j - 1, n);
    }
  }

  /** ... and stops no later than a power of two that is large enough. */
  lemma {:induction false} StopsBy(i: nat, j: nat, n: nat)
    requires i <= j && n <= Pow2(j)
    ensures n <= DoubleUntil(Pow2(i), n) <= Pow2(j)
    decreases j - i
  {
    if i < j {
      if Pow2(i) < n {
        StopsBy(i + 1, j, n);
      } else {
        Pow2Increases(i, j);
      }
    }
  }

  // The literal powers the size thresholds are made of.

  lemma PowersMB()
    ensures Pow2(20) == MB && Pow2(21) == 2 * MB
  {
    Pow2Byte(0); Pow2Byte(8);
    assert Pow2(18) == 4 * Pow2(16);
  }

  lemma Powers128MB()
    ensures Pow2(27) == 128 * MB && Pow2(28) == 256 * MB
  {
    PowersMB();
    Pow2Byte(20);
  }

  lemma Powers8GB()
    ensures Pow2(33) == 8 * GB && Pow2(34) == 16 * GB && Pow2(35) == 32 * GB && Pow2(41) == 2048 * GB
  {
    Powers128MB();
    assert Pow2(27) == 4 * Pow2(25);
    Pow2Byte(25); Pow2Byte(33);
  }

  /** The rounded-up size lies between consecutive powers. */
  lemma RoundsUpTo(j: nat, n: nat)
    requires Pow2(j) < n <= 2 * Pow2(j)
    ensures NextPowerOfTwo(n) == 2 * Pow2(j)
  {
    DoublesPast(j + 1, n);
  }

  lemma RoundsUpBelow(j: nat, n: nat)
    requires n <= Pow2(j)
    ensures n <= NextPowerOfTwo(n) <= Pow2(j)
  {
    StopsBy(0, j, n);
  }

  lemma DefaultClusterSize12(ts: nat)
    requires ts < 8192
    ensures DetermineBytesPerCluster(ts * 512, 512, None) == 512 * DefaultSectorsPerCluster(ts)
  {
    hide Pow2, NextPowerOfTwo;
    var n := ts * 512;
    PowersMB();
    if n <= MB {
      RoundsUpBelow(20, n);
    } else if n <= 2 * MB {
      RoundsUpTo(20, n);
    } else {
      RoundsUpTo(21, n);
    }
  }

  lemma DefaultClusterSize16(ts: nat)
    requires 8192 <= ts < 1048576
    ensures DetermineBytesPerCluster(ts * 512, 512, None) == 512 * DefaultSectorsPerCluster(ts)
  {
    hide Pow2, NextPowerOfTwo;
    var n := ts * 512;
    Powers128MB();
    if 128 * MB < n <= 256 * MB {
      RoundsUpTo(27, n);
    } else if 256 * MB < n {
      RoundsUpTo(28, n);
    }
  }

  lemma RoundedGigabytes(n: nat)
    requires 8 * GB < n <= 2048 * GB
    ensures n <= 64 * GB ==>
              NextPowerOfTwo(n) == if n <= 16 * GB then 16 * GB else if n <= 32 * GB then 32 * GB else 64 * GB
    ensures n > 64 * GB ==> 64 * GB < NextPowerOfTwo(n) <= 2048 * GB
  {
    hide Pow2, NextPowerOfTwo;
    Powers8GB();
    if n <= 16 * GB {
      RoundsUpTo(33, n);
    } else if n <= 32 * GB {
      RoundsUpTo(34, n);
    } else if n <= 64 * GB {
      RoundsUpTo(35, n);
    } else {
      RoundsUpBelow(41, n);
    }
  }

  lemma DefaultClusterSize32(ts: nat)
    requires 1048576 <= ts < U32_LIMIT
    ensures DetermineBytesPerCluster(ts * 512, 512, None) == 512 * DefaultSectorsPerCluster(ts)
  {
    if 8 * GB < ts * 512 {
      RoundedGigabytes(ts * 512);
    }
  }

  lemma DefaultClusterSize(ts: nat)
    requires ts < U32_LIMIT
    ensures DetermineBytesPerCluster(ts * 512, 512, None) == 512 * DefaultSectorsPerCluster(ts)
  {
    if ts < 8192 {
      DefaultClusterSize12(ts);
    } else if ts < 1048576 {
      DefaultClusterSize16(ts);
    } else {
      DefaultClusterSize32(ts);
    }
  }

  // ----- cluster size for a given type

  lemma PowersGB()
    ensures Pow2(29) == 512 * MB && Pow2(30) == 1024 * MB
  {
    Powers128MB();
    assert Pow2(30) == 4 * Pow2(28);
  }

  lemma RoundedSmall(n: nat)
    requires n <= 4 * MB
    ensures n <= MB ==> n <= NextPowerOfTwo(n) <= MB
    ensures MB < n ==> NextPowerOfTwo(n) == if n <= 2 * MB then 2 * MB else 4 * MB
  {
    hide Pow2, NextPowerOfTwo;
    PowersMB();
    if n <= MB {
      RoundsUpBelow(20, n);
    } else if n <= 2 * MB {
      RoundsUpTo(20, n);
    } else {
      RoundsUpTo(21, n);
    }
  }

  lemma SmallShares(n: nat, q: nat)
    requires q == n / MB && n <= 4 * MB
    ensures MB * q <= n < MB * q + MB && q * 512 % U32_LIMIT == q * 512
  {}

  lemma ClusterSizeFat12(n: nat)
    requires n <= 4 * MB
    ensures DetermineBytesPerCluster(n, 512, Some(Fat12)) == if n <= MB then 512 else if n <= 2 * MB then KB else 2 * KB
  {
    hide NextPowerOfTwo;
    RoundedSmall(n);
    SmallShares(NextPowerOfTwo(n), NextPowerOfTwo(n) / MB);
  }

  lemma RoundedMegabytes(n: nat)
    requires 128 * MB < n <= 2048 * GB
    ensures n <= 512 * MB ==> NextPowerOfTwo(n) == if n <= 256 * MB then 256 * MB else 512 * MB
    ensures 512 * MB < n <= 2048 * MB ==> NextPowerOfTwo(n) == if n <= 1024 * MB then 1024 * MB else 2048 * MB
    ensures 2048 * MB < n ==> 2048 * MB < NextPowerOfTwo(n) <= 2048 * GB
  {
    hide Pow2, NextPowerOfTwo;
    Powers128MB();
    PowersGB();
    Powers8GB();
    if n <= 256 * MB {
      RoundsUpTo(27, n);
    } else if n <= 512 * MB {
      RoundsUpTo(28, n);
    } else if n <= 1024 * MB {
      RoundsUpTo(29, n);
    } else if n <= 2048 * MB {
      RoundsUpTo(30, n);
    } else {
      RoundsUpBelow(41, n);
    }
  }

  lemma ClusterSizeFat16(n: nat)
    requires n <= 2048 * GB
    ensures DetermineBytesPerCluster(n, 512, Some(Fat16))
            == if n <= 16 * MB then KB else if n <= 128 * MB then 2 * KB else if n <= 256 * MB then 4 * KB
               else if n <= 512 * MB then 8 * KB else if n <= 1024 * MB then 16 * KB else 32 * KB
  {
    hide NextPowerOfTwo;
    if 128 * MB < n {
      RoundedMegabytes(n);
      Shares(NextPowerOfTwo(n), NextPowerOfTwo(n) / (64 * MB));
    }
  }

  lemma Shares(n: nat, q: nat)
    requires q == n / (64 * MB) && n <= 2048 * GB
    ensures 64 * MB * q <= n < 64 * MB * q + 64 * MB && q % U32_LIMIT == q
  {}

  lemma ClusterSizeFat32(n: nat)
    requires n <= 2048 * GB
    ensures DetermineBytesPerCluster(n, 512, Some(Fat32))
            == if n <= 260 * MB then 512 else if n <= 8 * GB then 4 * KB else if n <= 16 * GB then 8 * KB
               else if n <= 32 * GB then 16 * KB else 32 * KB
  {
    if 8 * GB < n {
      RoundedGigabytes(n);
    }
  }

  // ----- the checks

  /** Sizes that pass: sectors and clusters of a few powers of two. */
  lemma ValidSizesIff(b: Bpb)
    ensures b.ValidBytesPerSector() <==> b.bytesPerSector in {512, 1024, 2048, 4096}
    ensures b.ValidSectorsPerCluster() <==> b.sectorsPerCluster in {1, 2, 4, 8, 16, 32, 64, 128}
  {
    PowersUpTo(b.bytesPerSector);
    PowersUpTo(b.sectorsPerCluster);
  }

  /** A valid block with one field spoilt is refused. The information sector and the copy may be anywhere among the
      reserved sectors, and matter for FAT32 only. */
  lemma SpoiltIsRefused(b: Bpb, n: nat)
    requires b.Validate()
    ensures b.(fsVersion := n).Validate() <==> n == 0
    ensures !b.(fats := 0).Validate() && !b.(reservedSectors := 0).Validate()
    ensures b.(fsInfoSector := n).Validate() <==> b.IsFat32() ==> n < b.reservedSectors
    ensures b.(backupBootSector := n).Validate() <==> b.IsFat32() ==> n < b.reservedSectors
    ensures b.IsFat32() ==> !b.(sectorsPerFat32 := 0).Validate()
    ensures b.IsFat32() && n > 0 ==> !b.(rootEntries := n).Validate() && !b.(totalSectors16 := n).Validate()
    ensures !b.IsFat32() ==> !b.(rootEntries := 0).Validate()
    ensures b.totalSectors16 > 0 ==> (b.(totalSectors32 := n).Validate() <==> n == 0)
    ensures b.totalSectors32 > 0 ==> !b.(totalSectors32 := 0).Validate()
    ensures b.totalSectors32 > 0 && n > 0 ==> !b.(totalSectors16 := n).Validate()
    ensures b.totalSectors16 > 0 ==> !b.(totalSectors16 := 0).Validate()
  {
    hide IsPowerOfTwo;
  }

  /** How many clusters a FAT32 block may have: more than the narrower types, and no more than there are numbers. */
  lemma MostClusters(ts: nat)
    requires ts > 4194312
    ensures var b := Bpb(512, 1, 8, 2, 0, 0, 0, ts, 2097152, 0, 0, 2, 1, 6);
            && b.TotalClusters() == ts - 4194312
            && (b.Validate() <==> FAT32_MIN_CLUSTERS <= b.TotalClusters() <= 0x0FFF_FFFF)
  {
    SmallPowers();
    hide IsPowerOfTwo;
    var b := Bpb(512, 1, 8, 2, 0, 0, 0, ts, 2097152, 0, 0, 2, 1, 6);
    assert b.RootDirSectors() == 0;
    assert b.TotalClusters() == ts - 4194312;
  }

  lemma PowersUpTo(n: nat)
    ensures IsPowerOfTwo(n) && n <= 4096 <==> n in {1, 2, 4, 8, 16, 32, 64, 128, 256, 512, 1024, 2048, 4096}
  {
    hide IsPowerOfTwo;
    PowerBelow16(n);
    PowerBelow16(n / 16);
    PowerBelow16(n / 256);
    PowerBelow16(n / 4096);
    if n >= 16 { PowerAbove16(n); }
    if n >= 256 { PowerAbove16(n / 16); }
    if n >= 4096 { PowerAbove16(n / 256); }
  }

  lemma PowerBelow16(n: nat)
    ensures n < 16 ==> (IsPowerOfTwo(n) <==> n in {1, 2, 4, 8})
  {
    assert IsPowerOfTwo(n) <==> n == 1 || (n > 1 && n % 2 == 0 && IsPowerOfTwo(n / 2));
    assert IsPowerOfTwo(n / 2) <==> n / 2 == 1 || (n / 2 > 1 && n / 2 % 2 == 0 && IsPowerOfTwo(n / 4));
  }

  lemma PowerAbove16(n: nat)
    requires n >= 16
    ensures IsPowerOfTwo(n) <==> n % 16 == 0 && IsPowerOfTwo(n / 16)
  {
    var a := n / 2;
    var b := a / 2;
    var c := b / 2;
    PowerHalf(n);
    PowerHalf(a);
    PowerHalf(b);
    PowerHalf(c);
    hide IsPowerOfTwo;
    ModUnique(n, 16, c / 2, 8 * (c % 2) + 4 * (b % 2) + 2 * (a % 2) + n % 2);
  }

  lemma PowerHalf(n: nat)
    requires n > 1
    ensures IsPowerOfTwo(n) <==> n % 2 == 0 && IsPowerOfTwo(n / 2)
  {}

  // ----- which default volumes can be formatted

  /** First sector past the reserved area and the root directory of a default volume. */
  function DefaultOverhead(t: FatType): nat {
    if t == Fat32 then 8 else 33
  }

  /** Linear bounds that tie a FAT size and a cluster count to a default volume; `e` is the number of FAT
      entries a cluster holds. */
  predicate Bounds(ts: nat, spc: nat, t: FatType, e: nat, spf: nat, c: nat) {
    && spf > 0
    && spf * (e + 2) >= ts - DefaultOverhead(t) + 2 * spc > (spf - 1) * (e + 2)
    && c * spc <= ts - DefaultOverhead(t) - 2 * spf < c * spc + spc
  }

  /** The FAT size and cluster count a candidate type would get, and the acceptance test in terms of
      that count. */
  lemma DefaultEstimate(ts: nat, spc: nat, t: FatType) returns (spf: nat, c: nat)
    requires ts > DefaultOverhead(t) + 8 && spc > 0
    ensures Bounds(ts, spc, t, EntriesIn(512, spc, t), spf, c)
    ensures 2 * spf < ts - DefaultOverhead(t) && c == ClustersLeft(ts - DefaultOverhead(t), spc, 2, spf)
    ensures (c + 2) * t.BitsPerFatEntry() <= spf * 4096
    ensures TryFsGeometry(ts, 512, spc, t, if t == Fat32 then 0 else 32, 2)
            == if FromClusters(c) == t && c <= t.MaxClusters() then Some((ReservedSectorsFor(t), spf)) else None
  {
    var root := if t == Fat32 then 0 else 32;
    spf := DetermineSectorsPerFat(ts, 512, spc, t, ReservedSectorsFor(t), root, 2);
    SizingFacts(ts, 512, spc, t, ReservedSectorsFor(t), root, 2);
    c := ClustersLeft(ts - DefaultOverhead(t), spc, 2, spf);
    FatHasRoom(ts - DefaultOverhead(t), 512, spc, t.BitsPerFatEntry(), 2, EntriesIn(512, spc, t), spf, c);
  }

  /** FAT32 has too few clusters below 512 MB, and never too many above. */
  lemma Count32(ts: nat, spf: nat, c: nat)
    requires 41 < ts < U32_LIMIT
    requires Bounds(ts, DefaultSectorsPerCluster(ts), Fat32, DefaultSectorsPerCluster(ts) * 128, spf, c)
    ensures FAT32_MIN_CLUSTERS <= c <==> ts >= 1048576
    ensures c <= FAT32_MAX_CLUSTERS && spf * 4096 < U32_LIMIT
  {
    var spc := DefaultSectorsPerCluster(ts);
    assert Bounds(ts, 1, Fat32, 128, spf, c) || spc != 1;
    assert Bounds(ts, 2, Fat32, 256, spf, c) || spc != 2;
    assert Bounds(ts, 4, Fat32, 512, spf, c) || spc != 4;
    assert Bounds(ts, 8, Fat32, 1024, spf, c) || spc != 8;
    assert Bounds(ts, 16, Fat32, 2048, spf, c) || spc != 16;
    assert Bounds(ts, 32, Fat32, 4096, spf, c) || spc != 32;
    assert Bounds(ts, 64, Fat32, 8192, spf, c) || spc != 64;
  }

  /** FAT16 needs 8235 sectors, and fits up to 512 MB. */
  lemma Count16(ts: nat, spf: nat, c: nat)
    requires 41 < ts < 1048576
    requires Bounds(ts, DefaultSectorsPerCluster(ts), Fat16, DefaultSectorsPerCluster(ts) * 256, spf, c)
    ensures FAT16_MIN_CLUSTERS <= c <==> ts >= 8235
    ensures c < FAT32_MIN_CLUSTERS && spf < 4096
  {
    var spc := DefaultSectorsPerCluster(ts);
    assert Bounds(ts, 1, Fat16, 256, spf, c) || spc != 1;
    assert Bounds(ts, 2, Fat16, 512, spf, c) || spc != 2;
    assert Bounds(ts, 4, Fat16, 1024, spf, c) || spc != 4;
    assert Bounds(ts, 8, Fat16, 2048, spf, c) || spc != 8;
    assert Bounds(ts, 16, Fat16, 4096, spf, c) || spc != 16;
  }

  /** Below that, FAT12 fits up to 8226 sectors: eight sizes are left without a type. */
  lemma Count12(ts: nat, spf: nat, c: nat)
    requires 41 < ts < 8235
    requires Bounds(ts, DefaultSectorsPerCluster(ts), Fat12, DefaultSectorsPerCluster(ts) * 4096 / 12, spf, c)
    ensures c < FAT16_MIN_CLUSTERS <==> ts <= 8226
    ensures spf < 4096 && c > 0
  {
    var spc := DefaultSectorsPerCluster(ts);
    assert Bounds(ts, 1, Fat12, 341, spf, c) || spc != 1;
    assert Bounds(ts, 2, Fat12, 682, spf, c) || spc != 2;
    assert Bounds(ts, 4, Fat12, 1365, spf, c) || spc != 4;
  }

  /** Sector counts for which the default options can be formatted: too small, or in the gap between the
      largest FAT12 and the smallest FAT16 volume, is refused. */
  predicate Formattable(ts: nat) {
    42 <= ts && !(8227 <= ts <= 8234)
  }

  function DefaultType(ts: nat): FatType {
    if ts >= 1048576 then Fat32 else if ts >= 8235 then Fat16 else Fat12
  }

  /** The FAT size and cluster count are the right ones for type `t`. */
  predicate Suits(ts: nat, t: FatType, spf: nat, c: nat) {
    && 0 < 2 * spf < ts - DefaultOverhead(t) && c > 0
    && c == ClustersLeft(ts - DefaultOverhead(t), DefaultSectorsPerCluster(ts), 2, spf)
    && FromClusters(c) == t && (c + 2) * t.BitsPerFatEntry() <= spf * 4096 < U32_LIMIT
    && (t != Fat32 ==> spf < U16_LIMIT)
  }

  lemma Decide32(ts: nat) returns (spf: nat, c: nat)
    requires 41 < ts < U32_LIMIT
    ensures TryFsGeometry(ts, 512, DefaultSectorsPerCluster(ts), Fat32, 0, 2)
            == if ts >= 1048576 then Some((8, spf)) else None
    ensures ts >= 1048576 ==> Suits(ts, Fat32, spf, c)
  {
    hide TryFsGeometry;
    spf, c := DefaultEstimate(ts, DefaultSectorsPerCluster(ts), Fat32);
    Count32(ts, spf, c);
    hide DefaultSectorsPerCluster;
  }

  lemma Decide16(ts: nat) returns (spf: nat, c: nat)
    requires 41 < ts < 1048576
    ensures TryFsGeometry(ts, 512, DefaultSectorsPerCluster(ts), Fat16, 32, 2)
            == if ts >= 8235 then Some((1, spf)) else None
    ensures ts >= 8235 ==> Suits(ts, Fat16, spf, c)
  {
    hide TryFsGeometry;
    spf, c := DefaultEstimate(ts, DefaultSectorsPerCluster(ts), Fat16);
    Count16(ts, spf, c);
  }

  lemma Decide12(ts: nat) returns (spf: nat, c: nat)
    requires 41 < ts < 8235
    ensures TryFsGeometry(ts, 512, DefaultSectorsPerCluster(ts), Fat12, 32, 2)
            == if ts <= 8226 then Some((1, spf)) else None
    ensures ts <= 8226 ==> Suits(ts, Fat12, spf, c)
  {
    hide TryFsGeometry;
    spf, c := DefaultEstimate(ts, DefaultSectorsPerCluster(ts), Fat12);
    Count12(ts, spf, c);
  }

  /** Type, FAT size and cluster count of every default volume; the sizes in the gap have none. */
  lemma DefaultGeometry(ts: nat) returns (spf: nat, c: nat)
    requires 41 < ts < U32_LIMIT
    ensures var t := DefaultType(ts);
            DetermineFsGeometry(ts, 512, DefaultSectorsPerCluster(ts), 512, 2)
            == if Formattable(ts) then Ok((t, ReservedSectorsFor(t), spf)) else Err(InvalidInput)
    ensures Formattable(ts) ==> Suits(ts, DefaultType(ts), spf, c)
  {
    hide TryFsGeometry, Suits;
    spf, c := Decide32(ts);
    if ts < 1048576 {
      spf, c := Decide16(ts);
      if ts < 8235 {
        spf, c := Decide12(ts);
      }
    }
  }

  lemma TooSmall(ts: nat)
    requires ts <= 41
    ensures DetermineFsGeometry(ts, 512, DefaultSectorsPerCluster(ts), 512, 2).Err?
  {
    if ts > 16 {
      var spf, c := DefaultEstimate(ts, 1, Fat32);
    }
  }

  lemma DefaultSectorsPerClusterIsPower(ts: nat)
    ensures IsPowerOfTwo(DefaultSectorsPerCluster(ts)) && 1 <= DefaultSectorsPerCluster(ts) <= 64
  {
    SmallPowers();
  }

  lemma RoundDown(x: nat, y: nat, d: nat)
    requires d > 0 && x * d <= y
    ensures x <= y / d
  {
    FloorDiv(y, d);
    assert (y / d + 1) * d == y / d * d + d;
    CancelStrict(x, y / d + 1, d);
  }

  function DefaultBpb(ts: nat, spf: nat): Bpb {
    var t := DefaultType(ts);
    MakeBpb(ts, 512, DefaultSectorsPerCluster(ts), 512, 2, t, ReservedSectorsFor(t), spf)
  }

  lemma SuitableBpbLayout(ts: nat, spf: nat, c: nat)
    requires Formattable(ts) && ts < U32_LIMIT && Suits(ts, DefaultType(ts), spf, c)
    ensures var b := DefaultBpb(ts, spf);
      && b.TotalSectors() == ts && b.SectorsPerFat() == spf && (b.IsFat32() <==> DefaultType(ts) == Fat32)
      && b.FirstDataSector() == DefaultOverhead(DefaultType(ts)) + 2 * spf < ts
      && b.TotalClusters() == c && b.FitsWidths()
  {
    hide DefaultSectorsPerCluster;
    DefaultSectorsPerClusterIsPower(ts);
  }

  /** The block made for a suitable geometry passes every check. */
  lemma SuitableBpbIsValid(ts: nat, spf: nat, c: nat)
    requires Formattable(ts) && ts < U32_LIMIT && Suits(ts, DefaultType(ts), spf, c)
    ensures var b := DefaultBpb(ts, spf);
            b.Validate() && b.FitsWidths() && b.TotalSectors() == ts
            && b.TotalClusters() == c && b.FatCoversClusters()
  {
    hide DefaultSectorsPerCluster, IsPowerOfTwo;
    SmallPowers();
    DefaultSectorsPerClusterIsPower(ts);
    SuitableBpbLayout(ts, spf, c);
    hide Bpb.TotalClusters, Bpb.FirstDataSector, Bpb.TotalSectors, Bpb.FitsWidths;
    RoundDown(c + 2, spf * 4096, DefaultType(ts).BitsPerFatEntry());
  }

  /** With default options and 512-byte sectors, formatting succeeds exactly on the formattable sizes, and
      picks the type by size alone. */
  lemma FormatSucceedsIff(ts: nat)
    requires ts < U32_LIMIT
    ensures FormatBpb(DEFAULT_OPTIONS, ts, 512).Ok? <==> Formattable(ts)
    ensures Formattable(ts) ==> FormatBpb(DEFAULT_OPTIONS, ts, 512).value.1 == DefaultType(ts)
  {
    hide DetermineFsGeometry, DetermineBytesPerCluster, DefaultSectorsPerCluster;
    DefaultClusterSize(ts);
    if ts > 41 {
      var spf, c := DefaultGeometry(ts);
      if Formattable(ts) {
        SuitableBpbIsValid(ts, spf, c);
      }
    } else {
      TooSmall(ts);
    }
  }

  lemma SmallPowers()
    ensures IsPowerOfTwo(1) && IsPowerOfTwo(2) && IsPowerOfTwo(4) && IsPowerOfTwo(8) && IsPowerOfTwo(16)
    ensures IsPowerOfTwo(32) && IsPowerOfTwo(64) && IsPowerOfTwo(512)
  {
    assert IsPowerOfTwo(128);
  }

  /** What is formatted can be mounted: every successful default format passes all the mount-time checks,
      fits the on-disk field widths without a 32-bit overflow, and has a FAT entry for every cluster. */
  lemma FormattedIsValid(ts: nat)
    requires ts < U32_LIMIT && Formattable(ts)
    ensures FormatBpb(DEFAULT_OPTIONS, ts, 512).Ok?
    ensures var (b, t) := FormatBpb(DEFAULT_OPTIONS, ts, 512).value;
            b.Validate() && b.FitsWidths() && b.TotalSectors() == ts
            && FromClusters(b.TotalClusters()) == t && b.FatCoversClusters()
  {
    hide DetermineFsGeometry, DetermineBytesPerCluster, DefaultSectorsPerCluster, IsPowerOfTwo;
    hide Bpb.Validate, Bpb.FitsWidths, Bpb.FatCoversClusters, Suits;
    FormatSucceedsIff(ts);
    DefaultClusterSize(ts);
    var spf, c := DefaultGeometry(ts);
    SuitableBpbIsValid(ts, spf, c);
  }

  /** ... while a volume of 8230 sectors, a little over 4 MB, cannot be formatted at all. */
  lemma GapIsRefused()
    ensures FormatBpb(DEFAULT_OPTIONS, 8230, 512) == Err(InvalidInput)
  {
    hide DetermineFsGeometry, DetermineBytesPerCluster, DefaultSectorsPerCluster;
    DefaultClusterSize(8230);
    var spf, c := DefaultGeometry(8230);
  }
}
