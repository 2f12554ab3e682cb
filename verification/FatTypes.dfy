/** The three FAT variants (deps/rust-fatfs/src/fs.rs), told apart by their cluster count alone. */
module FatTypes {

  datatype FatType = Fat12 | Fat16 | Fat32 {

    function BitsPerFatEntry(): nat {
      match this
      case Fat12 => 12
      case Fat16 => 16
      case Fat32 => 32
    }

    function MinClusters(): nat {
      match this
      case Fat12 => 0
      case Fat16 => FAT16_MIN_CLUSTERS
      case Fat32 => FAT32_MIN_CLUSTERS
    }

    function MaxClusters(): nat {
      match this
      case Fat12 => FAT16_MIN_CLUSTERS - 1
      case Fat16 => FAT32_MIN_CLUSTERS - 1
      case Fat32 => FAT32_MAX_CLUSTERS
    }
  }

  const FAT16_MIN_CLUSTERS := 4085
  const FAT32_MIN_CLUSTERS := 65525
  const FAT32_MAX_CLUSTERS := 0x0FFF_FFF4

  const RESERVED_FAT_ENTRIES := 2

  const DIR_ENTRY_SIZE := 32

  /** Type determination; the cluster count is never below the chosen type's minimum. */
  function FromClusters(totalClusters: nat): (t: FatType)
    ensures t.MinClusters() <= totalClusters
    ensures t != Fat32 ==> totalClusters <= t.MaxClusters()
  {
    if totalClusters < FAT16_MIN_CLUSTERS then Fat12
    else if totalClusters < FAT32_MIN_CLUSTERS then Fat16
    else Fat32
  }
}
