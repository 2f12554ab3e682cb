/** From the boot sector to the mounted volume (deps/rust-fatfs/src/fs.rs): where a parameter block puts
    the FAT mirrors and the clusters. */
module Mounts {
  import opened Wrappers
  import opened Bits
  import opened FatTypes
  import opened Geometry
  import opened BootSectors
  import DiskSlices
  import FatEntries
  import FatFs
  import Formats

  predicate MirroringEnabled(b: Bpb) {
    b.extendedFlags / 0x80 % 2 == 0
  }

  function ActiveFat(b: Bpb): nat {
    if MirroringEnabled(b) then 0 else b.extendedFlags % 0x10
  }

  function FatFirstSector(b: Bpb): nat {
    b.reservedSectors + ActiveFat(b) * b.SectorsPerFat()
  }

  /** The FAT slice covers all mirrors, or the one active FAT when mirroring is off. */
  function LayoutOf(b: Bpb): FatFs.Layout
    requires b.bytesPerSector > 0 && b.sectorsPerCluster > 0 && b.FirstDataSector() <= b.TotalSectors()
  {
    FatFs.Layout(
      FromClusters(b.TotalClusters()), b.TotalClusters(),
      FatFirstSector(b) * b.bytesPerSector, b.SectorsPerFat() * b.bytesPerSector,
      if MirroringEnabled(b) then b.fats else 1,
      b.FirstDataSector() * b.bytesPerSector, b.sectorsPerCluster * b.bytesPerSector)
  }

  /** The flags that FAT32 keeps about mirroring: digit 7 turns it off, digits 0 to 3 name the active FAT. */
  lemma FlagsOf(b: Bpb)
    ensures MirroringEnabled(b) <==> !On(b.extendedFlags, 7)
    ensures MirroringEnabled(b) ==> ActiveFat(b) == 0
    ensures !MirroringEnabled(b) ==>
              ActiveFat(b) < 16 && forall i :: 0 <= i < 4 ==> (On(ActiveFat(b), i) <==> On(b.extendedFlags, i))
  {
    SmallPow2();
    OnAt(b.extendedFlags, 7);
    hide On, Pow2;
    forall i | 0 <= i < 4 ensures On(b.extendedFlags % 0x10, i) <==> On(b.extendedFlags, i) {
      OnLow(b.extendedFlags, 4, i);
    }
  }

  /** A parameter block that validates, whose FAT covers its clusters and whose active FAT exists, lays out
      FATs that hold every entry, then a data region with every cluster inside the volume and no room for one more.
      The active FAT is in its place in the row of FATs. Clusters are made of whole directory slots. */
  lemma LayoutIsOk(b: Bpb)
    requires b.Validate() && b.FatCoversClusters() && ActiveFat(b) < b.fats
    requires 0 < b.TotalClusters() <= FAT32_MAX_CLUSTERS
    ensures var l := LayoutOf(b);
            && l.Ok() && l.clusterSize % DIR_ENTRY_SIZE == 0
            && l.fatBegin == DiskSlices.SlotStart(b.reservedSectors * b.bytesPerSector, l.fatSize, ActiveFat(b))
            && l.dataStart == DiskSlices.SlotStart(b.reservedSectors * b.bytesPerSector, l.fatSize, b.fats)
                              + b.RootDirSectors() * b.bytesPerSector
            && DiskSlices.SlotStart(l.dataStart, l.clusterSize, l.totalClusters) <= b.TotalSectors() * b.bytesPerSector
               < DiskSlices.SlotStart(l.dataStart, l.clusterSize, l.totalClusters + 1)
  {
    hide IsPowerOfTwo, Bpb.RootDirSectors, Bpb.ValidTotalClusters, Bpb.ValidTotalSectors;
    var l, bps, c := LayoutOf(b), b.bytesPerSector, b.TotalClusters();
    EveryEntryHeld(c, l.fatSize);
    DiskSlices.SlotOrder(l.fatBegin, l.fatSize, 0, l.mirrors);
    MirrorsEnd(b.reservedSectors, ActiveFat(b), l.mirrors, b.fats, b.SectorsPerFat(), b.RootDirSectors(), bps);
    PositiveProduct(b.sectorsPerCluster, bps);
    FatsInRow(b.reservedSectors, ActiveFat(b), b.SectorsPerFat(), 0, bps);
    FatsInRow(b.reservedSectors, b.fats, b.SectorsPerFat(), b.RootDirSectors(), bps);
    SlotsInCluster(b.sectorsPerCluster, bps);
    ClustersFit(b.TotalSectors(), b.FirstDataSector(), b.sectorsPerCluster, bps, c);
  }

  lemma SlotsInCluster(spc: nat, bps: nat)
    requires IsPowerOfTwo(bps) && bps >= 512
    ensures spc * bps % DIR_ENTRY_SIZE == 0
  {
    assert IsPowerOfTwo(32) by {
      assert IsPowerOfTwo(8);
    }
    PowerDivides(bps, 32);
    hide IsPowerOfTwo;
    var q := bps / 32;
    Reorder(spc, 32, q);
    ModUnique(spc * bps, 32, spc * q, 0);
  }

  lemma {:induction false} PowerDivides(n: nat, p: nat)
    requires IsPowerOfTwo(n) && IsPowerOfTwo(p) && p <= n
    ensures n % p == 0
  {
    if p > 1 {
      PowerDivides(n / 2, p / 2);
      var h, q := p / 2, n / 2 / (p / 2);
      assert n / 2 == q * h;
      assert n == q * p;
      ModUnique(n, p, q, 0);
    }
  }

  lemma EveryEntryHeld(c: nat, size: nat)
    requires c + RESERVED_FAT_ENTRIES <= size * 8 / FromClusters(c).BitsPerFatEntry()
    ensures FatEntries.Holds(FromClusters(c), c + 1, size)
  {
    var t := FromClusters(c);
    assert (c + 2) * t.BitsPerFatEntry() <= size * 8;
    FatEntries.RoomHolds(t, c + 2, size);
  }

  lemma PositiveProduct(a: nat, b: nat)
    requires a > 0 && b > 0
    ensures a * b > 0
  {}

  lemma MirrorsEnd(reserved: nat, active: nat, mirrors: nat, fats: nat, spf: nat, root: nat, bps: nat)
    requires active + mirrors <= fats
    ensures DiskSlices.SlotStart((reserved + active * spf) * bps, spf * bps, mirrors)
            <= (reserved + fats * spf + root) * bps
  {
    Distribute(active + mirrors, fats - active - mirrors, spf);
    Distribute(active, mirrors, spf);
    var spare := (fats - active - mirrors) * spf + root;
    Distribute(reserved + active * spf + mirrors * spf, spare, bps);
    Distribute(reserved + active * spf, mirrors * spf, bps);
    assert mirrors * (spf * bps) == mirrors * spf * bps;
  }

  lemma FatsInRow(reserved: nat, fats: nat, spf: nat, root: nat, bps: nat)
    ensures (reserved + fats * spf + root) * bps
            == DiskSlices.SlotStart(reserved * bps, spf * bps, fats) + root * bps
  {
    Distribute(reserved + fats * spf, root, bps);
    Distribute(reserved, fats * spf, bps);
    Reorder(fats, spf, bps);
  }

  lemma ClustersFit(total: nat, first: nat, spc: nat, bps: nat, c: nat)
    requires first <= total && spc > 0 && c == (total - first) / spc && bps > 0
    ensures DiskSlices.SlotStart(first * bps, spc * bps, c) <= total * bps
            < DiskSlices.SlotStart(first * bps, spc * bps, c + 1)
  {
    assert c * spc <= total - first;
    NoMore(total, first, spc, bps, c);
    Distribute(c * spc, total - first - c * spc, bps);
    Distribute(first, total - first, bps);
    assert c * (spc * bps) == c * spc * bps;
  }

  lemma NoMore(total: nat, first: nat, spc: nat, bps: nat, c: nat)
    requires first <= total && spc > 0 && c == (total - first) / spc && bps > 0
    ensures total * bps < DiskSlices.SlotStart(first * bps, spc * bps, c + 1)
  {
    var left := (c + 1) * spc - (total - first);
    assert left > 0;
    PositiveProduct(left, bps);
    Distribute(total - first, left, bps);
    Distribute(first, total - first, bps);
    assert (c + 1) * (spc * bps) == (c + 1) * spc * bps;
  }

  /** Every volume the default formatting produces can be mounted. */
  lemma FormattedMounts(ts: nat)
    requires ts < U32_LIMIT && Formattable(ts)
    ensures FormatBpb(DEFAULT_OPTIONS, ts, 512).Ok?
    ensures var b := FormatBpb(DEFAULT_OPTIONS, ts, 512).value.0;
            && b.Validate() && LayoutOf(b).Ok() && LayoutOf(b).fatType == FormatBpb(DEFAULT_OPTIONS, ts, 512).value.1
            && DiskSlices.SlotStart(LayoutOf(b).dataStart, LayoutOf(b).clusterSize, LayoutOf(b).totalClusters)
               <= ts * 512
  {
    hide FormatBpb, FatFs.Layout.Ok;
    var spf, c := FormatsDefault(ts);
    SuitableBpbIsValid(ts, spf, c);
    SuitableCount(ts, spf, c);
    hide Suits, Bpb.FatCoversClusters, Bpb.FitsWidths, IsPowerOfTwo;
    var b := DefaultBpb(ts, spf);
    LayoutIsOk(b);
  }

  lemma SuitableCount(ts: nat, spf: nat, c: nat)
    requires Formattable(ts) && ts < U32_LIMIT && Suits(ts, DefaultType(ts), spf, c)
    ensures 0 < c <= FAT32_MAX_CLUSTERS
  {}

  // ----- formatting and mounting

  /** Where formatting goes by sectors, in bytes: to the first FAT, behind the FATs, and to the first cluster. */
  lemma RegionsOf(b: Bpb)
    requires b.bytesPerSector > 0 && b.sectorsPerCluster > 0 && b.FirstDataSector() <= b.TotalSectors()
    requires MirroringEnabled(b)
    ensures LayoutOf(b).fatBegin == b.reservedSectors * b.bytesPerSector
    ensures Formats.RootStart(LayoutOf(b)) == (b.reservedSectors + b.fats * b.SectorsPerFat()) * b.bytesPerSector
    ensures LayoutOf(b).dataStart
            == (b.reservedSectors + b.fats * b.SectorsPerFat() + b.RootDirSectors()) * b.bytesPerSector
  {
    hide Bpb.RootDirSectors, Bpb.TotalClusters, FromClusters;
    Distribute(b.reservedSectors, b.fats * b.SectorsPerFat(), b.bytesPerSector);
    Reorder(b.fats, b.SectorsPerFat(), b.bytesPerSector);
  }

  lemma FormatsDefault(ts: nat) returns (spf: nat, c: nat)
    requires ts < U32_LIMIT && Formattable(ts)
    ensures FormatBpb(DEFAULT_OPTIONS, ts, 512) == Ok((DefaultBpb(ts, spf), DefaultType(ts)))
    ensures Suits(ts, DefaultType(ts), spf, c)
  {
    hide DetermineFsGeometry, DetermineBytesPerCluster, DefaultSectorsPerCluster, Bpb.FitsWidths;
    FormatSucceedsIff(ts);
    DefaultClusterSize(ts);
    spf, c := DefaultGeometry(ts);
  }

  /** A default volume has one cluster at least, none numbered like a mark, and fits. */
  lemma DefaultLayoutFits(ts: nat, b: Bpb, t: FatType)
    requires ts < U32_LIMIT && Formattable(ts) && FormatBpb(DEFAULT_OPTIONS, ts, 512) == Ok((b, t))
    ensures b.Validate() && LayoutOf(b).fatType == t && LayoutOf(b).Ok()
    ensures var l := LayoutOf(b);
            && l.dataStart + l.clusterSize <= ts * 512 && l.Entries() <= Formats.BAD_START
            && DiskSlices.SlotStart(l.dataStart, l.clusterSize, l.totalClusters) <= ts * 512
            && Formats.EntryRoom(l.fatType, l.fatSize) <= 0x4000_0000
  {
    hide FormatBpb, Bpb.Validate, FatFs.Layout.Ok;
    FormattedMounts(ts);
    var spf, c := FormatsDefault(ts);
    SuitableBpbLayout(ts, spf, c);
    hide DefaultBpb, DiskSlices.SlotStart;
    var l := LayoutOf(b);
    DiskSlices.SlotOrder(l.dataStart, l.clusterSize, 0, c);
  }

  /** A volume with the most clusters that formatting admits: it passes every check, and yet some of its clusters are
      numbered like marks. */
  lemma LargestHasMarks()
    ensures var spf := 2097152;
            var b := Bpb(512, 1, 8, 2, 0, 0, 0, 8 + 2 * spf + FAT32_MAX_CLUSTERS, spf, 0, 0, 2, 1, 6);
            && b.Validate() && b.TotalClusters() == FAT32_MAX_CLUSTERS == Fat32.MaxClusters() && LayoutOf(b).Ok()
            && LayoutOf(b).Entries() > Formats.BAD_START && Formats.EntryRoom(Fat32, LayoutOf(b).fatSize) <= 0x4000_0000
            && Formats.Marks(Fat32, LayoutOf(b).fatSize, LayoutOf(b).Entries())(Formats.BAD_START) == FatEntries.Bad
  {
    var spf := 2097152;
    var b := Bpb(512, 1, 8, 2, 0, 0, 0, 8 + 2 * spf + FAT32_MAX_CLUSTERS, spf, 0, 0, 2, 1, 6);
    SmallPowers();
    hide IsPowerOfTwo;
    assert b.TotalClusters() == FAT32_MAX_CLUSTERS;
    LayoutIsOk(b);
  }
}
