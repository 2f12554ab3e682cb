/** Volume geometry: FAT sizing, the BIOS parameter block and its validation
    (deps/rust-fatfs/src/boot_sector.rs). Quantities are naturals; the widths the source uses are
    stated as bounds. */
module Geometry {
  import opened Wrappers
  import opened FatTypes

  const KB := 1024
  const MB := 1024 * 1024
  const GB := 1024 * 1024 * 1024
  const U16_LIMIT := 0x1_0000
  const U32_LIMIT := 0x1_0000_0000

  // ----- cluster size

  function DoubleUntil(p: nat, n: nat): nat
    requires p > 0
    decreases n - p
  {
    if p >= n then p else DoubleUntil(2 * p, n)
  }

  function NextPowerOfTwo(n: nat): nat {
    DoubleUntil(1, n)
  }

  predicate IsPowerOfTwo(n: nat) {
    n == 1 || (n > 1 && n % 2 == 0 && IsPowerOfTwo(n / 2))
  }

  function EstimateFatType(totalBytes: nat): FatType {
    if totalBytes < 4 * MB then Fat12
    else if totalBytes < 512 * MB then Fat16
    else Fat32
  }

  const MAX_CLUSTER_SIZE := 32 * KB

  function DetermineBytesPerCluster(totalBytes: nat, bytesPerSector: nat, fatType: Option<FatType>): nat {
    var t := if fatType.Some? then fatType.value else EstimateFatType(totalBytes);
    var bytesPerCluster := match t
      case Fat12 => NextPowerOfTwo(totalBytes) / MB * 512 % U32_LIMIT
      case Fat16 =>
        if totalBytes <= 16 * MB then KB
        else if totalBytes <= 128 * MB then 2 * KB
        else NextPowerOfTwo(totalBytes) / (64 * MB) % U32_LIMIT * KB
      case Fat32 =>
        if totalBytes <= 260 * MB then 512
        else if totalBytes <= 8 * GB then 4 * KB
        else NextPowerOfTwo(totalBytes) / (2 * GB) % U32_LIMIT * KB;
    Min(Max(bytesPerCluster, bytesPerSector), MAX_CLUSTER_SIZE)
  }

  // ----- size of the FAT

  function DetermineSectorsPerFat(
    totalSectors: nat, bytesPerSector: nat, sectorsPerCluster: nat, fatType: FatType,
    reservedSectors: nat, rootDirSectors: nat, fats: nat): nat
    requires totalSectors >= reservedSectors + rootDirSectors && fats > 0
  {
    var t0 := totalSectors - reservedSectors - rootDirSectors;
    var t1 := t0 + 2 * sectorsPerCluster;
    var bitsPerCluster := sectorsPerCluster * bytesPerSector * 8;
    var t2 := bitsPerCluster / fatType.BitsPerFatEntry() + fats;
    (t1 + t2 - 1) / t2
  }

  // ----- products instead of quotients

  /** `q` is `a / b` rounded up. */
  predicate IsCeil(q: nat, a: nat, b: nat) {
    q * b >= a && (q > 0 ==> (q - 1) * b < a)
  }

  /** `q` is `a / b` rounded down. */
  predicate IsFloor(q: nat, a: nat, b: nat) {
    q * b <= a < q * b + b
  }

  lemma CeilDiv(a: nat, b: nat)
    requires b > 0
    ensures IsCeil((a + b - 1) / b, a, b)
  {
    var q, r := (a + b - 1) / b, (a + b - 1) % b;
    assert a + b - 1 == b * q + r;
    Distribute(q, -1, b);
  }

  lemma FloorDiv(a: nat, b: nat)
    requires b > 0
    ensures IsFloor(a / b, a, b)
  {
    assert a == b * (a / b) + a % b;
    Distribute(a / b, 0, b);
  }

  lemma Reorder(a: int, b: int, c: int)
    ensures a * b * c == a * c * b && a * b * c == b * c * a && a * (b * c) == a * b * c
  {}

  lemma MulLe(a: int, b: int, c: nat)
    requires a <= b
    ensures a * c <= b * c
  {
    assert (b - a) * c >= 0;
  }

  lemma CancelStrict(a: int, b: int, c: nat)
    requires a * c < b * c
    ensures a < b
  {
    assert a >= b ==> (a - b) * c >= 0;
    Distribute(a, -b, c);
  }

  lemma CancelFactor(a: int, b: int, c: nat)
    requires c > 0 && a * c <= b * c
    ensures a <= b
  {
    Distribute(b, 1, c);
    CancelStrict(a, b + 1, c);
  }

  // ----- the sizing laws, for `e` FAT entries per cluster

  /** The FAT has an entry for every cluster that remains after it is laid out, plus the reserved two. */
  lemma FatHasRoom(t0: nat, bps: nat, spc: nat, bits: nat, fats: nat, e: nat, spf: nat, clusters: nat)
    requires spc > 0 && IsFloor(e, spc * bps * 8, bits) && IsCeil(spf, t0 + 2 * spc, e + fats)
    requires fats * spf <= t0 && IsFloor(clusters, t0 - fats * spf, spc)
    ensures (clusters + 2) * bits <= spf * bps * 8
  {
    Distribute(e, fats, spf);
    Distribute(clusters, 2, spc);
    ScaleBack(clusters + 2, spc, spf, e, bits, bps);
  }

  /** From cluster units to bits: `e` entries of `bits` bits fit the bits of a cluster. */
  lemma ScaleBack(m: nat, spc: nat, spf: nat, e: nat, bits: nat, bps: nat)
    requires spc > 0 && m * spc <= spf * e && e * bits <= spc * bps * 8
    ensures m * bits <= spf * bps * 8
  {
    MulLe(m * spc, spf * e, bits);
    MulLe(e * bits, spc * bps * 8, spf);
    Reorder(m, spc, bits);
    Reorder(spf, e, bits);
    Reorder(spc, bps * 8, spf);
    Reorder(spf, bps * 8, spc);
    CancelFactor(m * bits, spf * bps * 8, spc);
  }

  lemma EntriesPerCluster(bps: nat, spc: nat, bits: nat, e: nat)
    requires bps >= 512 && 0 < bits <= 32 && IsFloor(e, spc * bps * 8, bits)
    ensures e >= 128 * spc
  {
    MulLe(512, bps, spc);
    MulLe(bits, 32, 128 * spc);
    Distribute(e, 1, bits);
    CancelStrict(128 * spc, e + 1, bits);
  }

  /** With one or two FATs and at least nine sectors to divide, the FATs fit and leave data sectors. */
  lemma FatsFit(t0: nat, spc: nat, e: nat, fats: nat, spf: nat)
    requires t0 > 8 && spc > 0 && 1 <= fats <= 2 && e >= 128 * spc
    requires IsCeil(spf, t0 + 2 * spc, e + fats)
    ensures 0 < spf && fats * spf < t0
  {
    assert spf > 0 by {
      assert 0 * (e + fats) == 0;
    }
    FatsFitProduct(t0, spc, e + fats, spf - 1);
    MulLe(fats, 2, spf);
  }

  lemma FatsFitProduct(t0: nat, spc: nat, e: nat, k: nat)
    requires t0 > 8 && spc > 0 && e >= 128 * spc && k * e < t0 + 2 * spc
    ensures 2 * (k + 1) < t0
  {
    assert k * (128 * spc) <= k * e by {
      MulLe(128 * spc, e, k);
    }
    assert k * (128 * spc) == 128 * (k * spc);
    assert k <= k * spc by {
      MulLe(1, spc, k);
    }
    assert k > 0 ==> spc <= k * spc by {
      if k > 0 {
        MulLe(1, k, spc);
      }
    }
    FatsFitLinear(t0, spc, k, k * spc);
  }

  lemma FatsFitLinear(t0: nat, spc: nat, k: nat, ks: nat)
    requires t0 > 8 && 128 * ks < t0 + 2 * spc && k <= ks && (k > 0 ==> spc <= ks)
    ensures 2 * (k + 1) < t0
  {}

  /** A FAT one sector smaller would hold at most a few entries more than the clusters need. */
  lemma FatIsTightCore(t0: nat, e: nat, spc: nat, fats: nat, spf: nat, clusters: nat)
    requires spc > 0 && spf > 0 && IsCeil(spf, t0 + 2 * spc, e + fats)
    requires fats * spf <= t0 && IsFloor(clusters, t0 - fats * spf, spc)
    ensures (spf - 1) * e <= (clusters + 3 + fats) * spc
  {
    Distribute(e, fats, spf - 1);
    Distribute(spf, -1, fats);
    Distribute(clusters, 3 + fats, spc);
    Distribute(3, fats, spc);
    MulLe(1, spc, fats);
  }

  /** For FAT16 and FAT32, with `eps` entries per sector, the FAT is not wasteful: at most two sectors'
      worth of unusable entries. */
  lemma FatIsTight(t0: nat, eps: nat, spc: nat, fats: nat, spf: nat, clusters: nat)
    requires spc > 0 && fats <= 2 && eps >= 5 && spf > 0 && IsCeil(spf, t0 + 2 * spc, spc * eps + fats)
    requires fats * spf <= t0 && IsFloor(clusters, t0 - fats * spf, spc)
    ensures spf * eps - RESERVED_FAT_ENTRIES <= clusters + 2 * eps
  {
    FatIsTightCore(t0, spc * eps, spc, fats, spf, clusters);
    Reorder(spf - 1, spc, eps);
    CancelFactor((spf - 1) * eps, clusters + 3 + fats, spc);
    Distribute(spf, -1, eps);
  }

  /** For FAT12, whose entries straddle sectors, the same holds when the cluster count really is a
      FAT12 one. */
  lemma Fat12IsTight(t0: nat, bps: nat, spc: nat, fats: nat, e: nat, spf: nat, clusters: nat)
    requires spc > 0 && fats <= 2 && bps >= 512 && spf > 0
    requires IsFloor(e, spc * bps * 8, 12) && IsCeil(spf, t0 + 2 * spc, e + fats)
    requires fats * spf <= t0 && IsFloor(clusters, t0 - fats * spf, spc) && clusters < FAT16_MIN_CLUSTERS
    ensures spf * bps * 8 / 12 - RESERVED_FAT_ENTRIES <= clusters + 2 * (bps * 8 / 12)
  {
    var k := spf - 1;
    FatIsTightCore(t0, e, spc, fats, spf, clusters);
    Fat12Cancel(k, e, spc, bps, clusters + 3 + fats);
    MulLe(512, bps, k);
    Distribute(spf, -1, bps);
    Fat12TightLinear(bps, fats, k, k * bps, clusters);
  }

  lemma Fat12Cancel(k: nat, e: nat, spc: nat, bps: nat, c: nat)
    requires spc > 0 && k * e <= c * spc && spc * bps * 8 <= 12 * e + 11
    ensures k * bps * 8 <= 12 * c + 11 * k
  {
    var x, y := k * bps * 8, 12 * c + 11 * k;
    assert x * spc == spc * bps * 8 * k by {
      Reorder(k, bps * 8, spc);
      Reorder(spc, bps * 8, k);
    }
    MulLe(spc * bps * 8, 12 * e + 11, k);
    assert (12 * e + 11) * k == 12 * (k * e) + 11 * k by {
      Distribute(12 * e, 11, k);
      Reorder(12, e, k);
    }
    assert y * spc == 12 * (c * spc) + 11 * (k * spc) by {
      Distribute(12 * c, 11 * k, spc);
      Reorder(12, c, spc);
      Reorder(11, k, spc);
    }
    assert k <= k * spc by {
      MulLe(1, spc, k);
    }
    CancelFactor(x, y, spc);
  }

  lemma Fat12TightLinear(bps: nat, fats: nat, k: nat, kb: nat, clusters: nat)
    requires bps >= 512 && fats <= 2 && clusters <= 4084 && 512 * k <= kb
    requires kb * 8 <= 12 * (clusters + 3 + fats) + 11 * k
    ensures (kb + bps) * 8 / 12 - 2 <= clusters + 2 * (bps * 8 / 12)
  {}
}
