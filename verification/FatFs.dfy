/** A mounted FAT volume (deps/rust-fatfs/src/fs.rs): the FAT behind a mirrored slice, the data region
    divided into clusters, and the cached free-cluster count.

    Two ghost fields give the volume's meaning: `table`, the decoded FAT, and `clusters`, the bytes of each
    cluster. Everything above this module works on those. */
module FatFs {
  import opened Wrappers
  import opened Storages
  import opened DiskSlices
  import opened FatTypes
  import opened FatEntries
  import opened FatScans
  import opened FatTables

  ghost predicate FirstFreeIn(table: seq<FatValue>, start: nat, end: nat, r: Option<nat>)
    requires end <= |table|
  {
    match r
    case Some(c) => start <= c < end && table[c] == Free && forall d :: start <= d < c ==> table[d] != Free
    case None => forall d :: start <= d < end ==> table[d] != Free
  }

  /** The first free cluster from the hint on, or if there is none, from the first cluster on. */
  ghost predicate IsFirstFrom(table: seq<FatValue>, hint: Option<nat>, r: Option<nat>)
    requires hint.Some? ==> hint.value >= RESERVED_FAT_ENTRIES
  {
    var start := if hint.Some? && hint.value < |table| then hint.value else RESERVED_FAT_ENTRIES;
    && |table| > RESERVED_FAT_ENTRIES
    && (FirstFreeIn(table, start, |table|, r)
        || (FirstFreeIn(table, start, |table|, None) && FirstFreeIn(table, RESERVED_FAT_ENTRIES, start, r)))
  }

  lemma FirstFromIsFree(table: seq<FatValue>, hint: Option<nat>, r: Option<nat>)
    requires hint.Some? ==> hint.value >= RESERVED_FAT_ENTRIES
    requires IsFirstFrom(table, hint, r) && r.Some?
    ensures RESERVED_FAT_ENTRIES <= r.value < |table| && table[r.value] == Free
  {}

  lemma ScanFindsFirst(fat: seq<Byte>, t: FatType, n: nat, start: nat, end: nat, r: Option<nat>)
    requires end <= n && (n == 0 || Holds(t, n - 1, |fat|)) && FirstFree(fat, t, start, end, r)
    ensures FirstFreeIn(Table(fat, t, n), start, end, r)
  {
    hide GetRaw, Holds;
  }

  lemma {:induction false} ScanCounts(fat: seq<Byte>, t: FatType, n: nat)
    requires n == 0 || Holds(t, n - 1, |fat|)
    ensures RESERVED_FAT_ENTRIES < n ==> Holds(t, n - 1, |fat|)
    ensures FreeIn(fat, t, RESERVED_FAT_ENTRIES, n) == FreeCount(Table(fat, t, n))
  {
    hide GetRaw, Holds, Table;
    if n > RESERVED_FAT_ENTRIES {
      HoldsBelow(t, n - 1, n - 2, |fat|);
      ScanCounts(fat, t, n - 1);
      assert Table(fat, t, n)[..n - 1] == Table(fat, t, n - 1);
    }
  }

  /** First byte of a data cluster. */
  function ClusterStart(dataStart: nat, clusterSize: nat, c: nat): nat
    requires c >= RESERVED_FAT_ENTRIES
  {
    SlotStart(dataStart, clusterSize, c - RESERVED_FAT_ENTRIES)
  }

  ghost predicate IsCluster(bytes: seq<Byte>, at: nat, clusterSize: nat, data: seq<Byte>) {
    |data| == clusterSize && at + clusterSize <= |bytes| && data == bytes[at..at + clusterSize]
  }

  /** The clusters' bytes, read off the disk. */
  ghost predicate Divided(bytes: seq<Byte>, dataStart: nat, clusterSize: nat, clusters: seq<seq<Byte>>) {
    && |clusters| >= RESERVED_FAT_ENTRIES
    && forall c :: RESERVED_FAT_ENTRIES <= c < |clusters| ==>
         IsCluster(bytes, ClusterStart(dataStart, clusterSize, c), clusterSize, clusters[c])
  }

  /** The division of a data region into clusters. */
  ghost function ClustersOf(bytes: seq<Byte>, dataStart: nat, clusterSize: nat, n: nat): (r: seq<seq<Byte>>)
    requires n >= RESERVED_FAT_ENTRIES && SlotStart(dataStart, clusterSize, n - RESERVED_FAT_ENTRIES) <= |bytes|
    ensures |r| == n && Divided(bytes, dataStart, clusterSize, r)
  {
    if n == RESERVED_FAT_ENTRIES then [[], []]
    else
      SlotOrder(dataStart, clusterSize, n - 1 - RESERVED_FAT_ENTRIES, n - RESERVED_FAT_ENTRIES);
      var at := SlotStart(dataStart, clusterSize, n - 1 - RESERVED_FAT_ENTRIES);
      ClustersOf(bytes, dataStart, clusterSize, n - 1) + [bytes[at..at + clusterSize]]
  }

  lemma ClusterAt(bytes: seq<Byte>, dataStart: nat, clusterSize: nat, clusters: seq<seq<Byte>>, c: nat)
    requires Divided(bytes, dataStart, clusterSize, clusters) && RESERVED_FAT_ENTRIES <= c < |clusters|
    ensures IsCluster(bytes, ClusterStart(dataStart, clusterSize, c), clusterSize, clusters[c])
  {}

  /** Writing inside one cluster changes that cluster and no other. */
  lemma DividedWrite(bytes: seq<Byte>, dataStart: nat, clusterSize: nat, clusters: seq<seq<Byte>>,
                     c: nat, off: nat, buf: seq<Byte>)
    requires Divided(bytes, dataStart, clusterSize, clusters)
    requires RESERVED_FAT_ENTRIES <= c < |clusters| && off + |buf| <= clusterSize
    ensures ClusterStart(dataStart, clusterSize, c) + off + |buf| <= |bytes| && |clusters[c]| == clusterSize
    ensures Divided(Splice(bytes, ClusterStart(dataStart, clusterSize, c) + off, buf),
                    dataStart, clusterSize, clusters[c := Splice(clusters[c], off, buf)])
  {
    hide Splice, SlotStart;
    var at := ClusterStart(dataStart, clusterSize, c);
    assert IsCluster(bytes, at, clusterSize, clusters[c]);
    var bytes' := Splice(bytes, at + off, buf);
    var clusters' := clusters[c := Splice(clusters[c], off, buf)];
    forall d | RESERVED_FAT_ENTRIES <= d < |clusters|
      ensures IsCluster(bytes', ClusterStart(dataStart, clusterSize, d), clusterSize, clusters'[d])
    {
      var lo := ClusterStart(dataStart, clusterSize, d);
      assert IsCluster(bytes, lo, clusterSize, clusters[d]);
      if d == c {
        SpliceWindow(bytes, at + off, buf, at, at + clusterSize);
      } else {
        if d < c {
          SlotOrder(dataStart, clusterSize, d - RESERVED_FAT_ENTRIES, c - RESERVED_FAT_ENTRIES);
        } else {
          SlotOrder(dataStart, clusterSize, c - RESERVED_FAT_ENTRIES, d - RESERVED_FAT_ENTRIES);
        }
        SpliceElsewhere(bytes, at + off, buf, lo, lo + clusterSize);
      }
    }
  }

  /** Changes below the data region leave the clusters alone. */
  lemma DividedFrame(bytes: seq<Byte>, bytes': seq<Byte>, dataStart: nat, clusterSize: nat, clusters: seq<seq<Byte>>)
    requires Divided(bytes, dataStart, clusterSize, clusters) && |bytes'| == |bytes| && dataStart <= |bytes|
    requires bytes'[dataStart..] == bytes[dataStart..]
    ensures Divided(bytes', dataStart, clusterSize, clusters)
  {
    hide SlotStart;
    forall c | RESERVED_FAT_ENTRIES <= c < |clusters|
      ensures IsCluster(bytes', ClusterStart(dataStart, clusterSize, c), clusterSize, clusters[c])
    {
      var lo := ClusterStart(dataStart, clusterSize, c);
      assert IsCluster(bytes, lo, clusterSize, clusters[c]);
      SliceOfSlice(bytes, dataStart, |bytes|, lo - dataStart, lo - dataStart + clusterSize);
      SliceOfSlice(bytes', dataStart, |bytes|, lo - dataStart, lo - dataStart + clusterSize);
    }
  }

  lemma SpliceAll(s: seq<Byte>, buf: seq<Byte>)
    requires |buf| == |s|
    ensures Splice(s, 0, buf) == buf
  {}

  /** Where things are on a volume. */
  datatype Layout = Layout(fatType: FatType, totalClusters: nat, fatBegin: nat, fatSize: nat, mirrors: nat,
                           dataStart: nat, clusterSize: nat)
  {
    /** What mounting has checked: the type matches the cluster count, the FAT holds an entry for every
        cluster, and the mirrors end before the data region. */
    predicate Ok() {
      && 0 < totalClusters <= FAT32_MAX_CLUSTERS && fatType == FromClusters(totalClusters)
      && Holds(fatType, totalClusters + 1, fatSize)
      && mirrors > 0 && fatBegin + fatSize <= SlotStart(fatBegin, fatSize, mirrors) <= dataStart
      && clusterSize > 0
    }

    function Entries(): nat {
      totalClusters + RESERVED_FAT_ENTRIES
    }

    /** The disk represents a decoded FAT and the clusters' bytes, and the FAT mirrors agree. */
    ghost predicate Represents(bytes: seq<Byte>, table: seq<FatValue>, clusters: seq<seq<Byte>>)
      requires Ok()
    {
      && dataStart <= |bytes| && |table| == |clusters| == Entries()
      && table == Table(bytes[fatBegin..fatBegin + fatSize], fatType, Entries())
      && MirrorsAgree(bytes, fatBegin, fatSize, mirrors)
      && Divided(bytes, dataStart, clusterSize, clusters)
    }
  }

  /** Storing an entry in every mirror updates the table and nothing else. */
  lemma RepresentsSet(l: Layout, bytes: seq<Byte>, table: seq<FatValue>, clusters: seq<seq<Byte>>, c: nat, v: FatValue)
    requires l.Ok() && l.Represents(bytes, table, clusters)
    requires RESERVED_FAT_ENTRIES <= c < l.Entries() && Encodable(l.fatType, v)
    ensures Holds(l.fatType, c, l.fatSize)
    ensures var buf := Packed(bytes[l.fatBegin..l.fatBegin + l.fatSize], l.fatType, c, Encode(l.fatType, v));
            var bytes' := Mirrored(bytes, l.fatBegin, l.fatSize, l.mirrors, EntryOffset(l.fatType, c), buf);
            l.Represents(bytes', table[c := v], clusters)
  {
    hide Decode, GetRaw, Divided, Encode, Packed, Table, MirrorsAgree, Mirrored, Splice, Encodable, SlotStart;
    HoldsBelow(l.fatType, l.totalClusters + 1, c, l.fatSize);
    var view, off := bytes[l.fatBegin..l.fatBegin + l.fatSize], EntryOffset(l.fatType, c);
    var buf := Packed(view, l.fatType, c, Encode(l.fatType, v));
    var bytes' := Mirrored(bytes, l.fatBegin, l.fatSize, l.mirrors, off, buf);
    TableSet(view, l.fatType, l.Entries(), c, v);
    MirroredEach(bytes, l.fatBegin, l.fatSize, l.mirrors, off, buf, 0);
    assert Mirror(bytes, l.fatBegin, l.fatSize, 0) == view;
    MirrorsKeepAgreeing(bytes, l.fatBegin, l.fatSize, l.mirrors, off, buf);
    MirroredElsewhere(bytes, l.fatBegin, l.fatSize, l.mirrors, off, buf, l.dataStart, |bytes|);
    DividedFrame(bytes, bytes', l.dataStart, l.clusterSize, clusters);
  }

  /** Writing inside a cluster updates that cluster and nothing else. */
  lemma RepresentsWrite(l: Layout, bytes: seq<Byte>, table: seq<FatValue>, clusters: seq<seq<Byte>>,
                        c: nat, off: nat, buf: seq<Byte>)
    requires l.Ok() && l.Represents(bytes, table, clusters)
    requires RESERVED_FAT_ENTRIES <= c < l.Entries() && off + |buf| <= l.clusterSize
    ensures var at := ClusterStart(l.dataStart, l.clusterSize, c);
            at + l.clusterSize <= |bytes| && |clusters[c]| == l.clusterSize
            && clusters[c] == bytes[at..at + l.clusterSize]
            && l.Represents(Splice(bytes, at + off, buf), table, clusters[c := Splice(clusters[c], off, buf)])
  {
    hide Divided, Table, Splice, SlotStart, MirrorsAgree, Holds;
    var at := ClusterStart(l.dataStart, l.clusterSize, c);
    ClusterAt(bytes, l.dataStart, l.clusterSize, clusters, c);
    DividedWrite(bytes, l.dataStart, l.clusterSize, clusters, c, off, buf);
    var bytes' := Splice(bytes, at + off, buf);
    SpliceElsewhere(bytes, at + off, buf, l.fatBegin, l.fatBegin + l.fatSize);
    MirrorsFrame(bytes, bytes', l.fatBegin, l.fatSize, l.mirrors, at + off, buf);
  }

  lemma MirrorsFrame(bytes: seq<Byte>, bytes': seq<Byte>, begin: nat, size: nat, m: nat, at: nat, buf: seq<Byte>)
    requires m > 0 && SlotStart(begin, size, m) <= at && at + |buf| <= |bytes| && bytes' == Splice(bytes, at, buf)
    requires MirrorsAgree(bytes, begin, size, m)
    ensures MirrorsAgree(bytes', begin, size, m)
  {
    hide Splice, SlotStart;
    SlotOrder(begin, size, 0, m);
    forall i: nat | i < m && SlotStart(begin, size, i) + size <= |bytes|
      ensures Mirror(bytes', begin, size, i) == Mirror(bytes', begin, size, 0)
    {
      SlotOrder(begin, size, i, m);
      SpliceElsewhere(bytes, at, buf, SlotStart(begin, size, i), SlotStart(begin, size, i) + size);
      SpliceElsewhere(bytes, at, buf, SlotStart(begin, size, 0), SlotStart(begin, size, 0) + size);
    }
  }

  class FileSystem {
    const storage: BlkStorage
    const layout: Layout
    var freeClusterCount: Option<nat>
    var nextFreeCluster: Option<nat>
    ghost var table: seq<FatValue>
    ghost var clusters: seq<seq<Byte>>

    /** Mounts a volume whose FAT mirrors agree. A free-cluster count stored on the volume is believed,
        so it has to be right. */
    constructor (storage: BlkStorage, layout: Layout, freeCount: Option<nat>, hint: Option<nat>)
      requires storage.Valid() && layout.Ok() && layout.dataStart <= |storage.bytes|
      requires SlotStart(layout.dataStart, layout.clusterSize, layout.totalClusters) <= |storage.bytes|
      requires MirrorsAgree(storage.bytes, layout.fatBegin, layout.fatSize, layout.mirrors)
      requires var table := Table(storage.bytes[layout.fatBegin..layout.fatBegin + layout.fatSize], layout.fatType,
                                  layout.Entries());
               LinksInRange(table) && (freeCount.Some? ==> freeCount.value == FreeCount(table))
      requires hint.Some? ==> hint.value >= RESERVED_FAT_ENTRIES
      ensures Valid() && this.storage == storage && this.layout == layout
      ensures freeClusterCount == freeCount && nextFreeCluster == hint
    {
      hide LinksInRange, FreeCount, MirrorsAgree, Divided, Decode, GetRaw;
      this.storage, this.layout := storage, layout;
      freeClusterCount, nextFreeCluster := freeCount, hint;
      table := Table(storage.bytes[layout.fatBegin..layout.fatBegin + layout.fatSize], layout.fatType,
                     layout.Entries());
      clusters := ClustersOf(storage.bytes, layout.dataStart, layout.clusterSize, layout.Entries());
    }

    ghost predicate Mounted()
      reads this, storage
    {
      storage.Valid() && layout.Ok() && layout.Represents(storage.bytes, table, clusters)
    }

    /** The cached count, once known, is what a full scan would find, plus `surplus`. */
    ghost predicate CountsOff(surplus: nat)
      reads this
    {
      && (freeClusterCount.Some? ==> freeClusterCount.value == FreeCount(table) + surplus)
      && (nextFreeCluster.Some? ==> nextFreeCluster.value >= RESERVED_FAT_ENTRIES)
    }

    ghost predicate Valid()
      reads this, storage
    {
      Mounted() && LinksInRange(table) && CountsOff(0)
    }

    // ----- the FAT

    method FatSlice() returns (fat: DiskSlice)
      requires Mounted()
      ensures fresh(fat) && fat.Valid() && fat.inner == storage && fat.offset == 0
      ensures fat.begin == layout.fatBegin && fat.size == layout.fatSize && fat.mirrors == layout.mirrors
      ensures Table(fat.View(), layout.fatType, layout.Entries()) == table
    {
      hide Table, MirrorsAgree, Divided, SlotStart, Holds, Flat;
      fat := new DiskSlice(layout.fatBegin, layout.fatSize, layout.mirrors, storage);
    }

    /** Successor of a cluster: one step of the cluster iterator. */
    method NextCluster(c: nat) returns (r: Option<nat>)
      requires Mounted() && RESERVED_FAT_ENTRIES <= c < |table|
      modifies storage`pos
      ensures Mounted() && r == Next(table, c)
    {
      hide Decode, GetRaw, MirrorsAgree, Divided, SlotStart;
      HoldsBelow(layout.fatType, layout.totalClusters + 1, c, layout.fatSize);
      var fat := FatSlice();
      var v := ReadFat(fat, layout.fatType, c);
      r := if v.value.Data? then Some(v.value.next) else None;
    }

    /** Stores one entry in every mirror: the table changes there, the clusters not at all. */
    method SetEntry(c: nat, v: FatValue)
      requires Mounted() && RESERVED_FAT_ENTRIES <= c < |table|
      requires v.Data? ==> RESERVED_FAT_ENTRIES <= v.next < |table|
      modifies storage, this`table
      ensures Mounted() && table == old(table)[c := v]
    {
      hide Decode, GetRaw, Divided, SlotStart, Encode, SetRaw, Packed, MirrorsAgree, Table;
      if v.Data? {
        ClustersEncodable(layout.totalClusters, v.next);
      }
      RepresentsSet(layout, storage.bytes, table, clusters, c, v);
      var fat := FatSlice();
      var ok := WriteFat(fat, layout.fatType, c, v);
      table := table[c := v];
    }

    /** First free cluster of a range. */
    method FindFreeCluster(start: nat, end: nat) returns (r: Option<nat>)
      requires Mounted() && RESERVED_FAT_ENTRIES <= start < end <= |table|
      modifies storage`pos
      ensures Mounted() && FirstFreeIn(table, start, end, r)
    {
      hide Decode, GetRaw, MirrorsAgree, Divided, SlotStart, Table;
      HoldsBelow(layout.fatType, layout.totalClusters + 1, end - 1, layout.fatSize);
      var fat := FatSlice();
      if layout.fatType == Fat12 {
        r := FindFree12(fat, start, end);
      } else {
        r := FindFreeWide(fat, layout.fatType, start, end);
      }
      ScanFindsFirst(fat.View(), layout.fatType, |table|, start, end, r);
    }

    /** Full scan of the FAT. */
    method CountFreeClusters() returns (n: nat)
      requires Mounted()
      modifies storage`pos
      ensures Mounted() && n == FreeCount(table)
    {
      hide Decode, GetRaw, MirrorsAgree, Divided, SlotStart, Table;
      HoldsBelow(layout.fatType, layout.totalClusters + 1, RESERVED_FAT_ENTRIES, layout.fatSize);
      var fat := FatSlice();
      if layout.fatType == Fat12 {
        n := CountFree12(fat, layout.Entries());
      } else {
        n := CountFreeWide(fat, layout.fatType, layout.Entries());
      }
      ScanCounts(fat.View(), layout.fatType, |table|);
    }

    // ----- allocation and freeing

    /** Looks for a free cluster from the hint on, then below it. */
    method FindFromHint() returns (r: Option<nat>)
      requires Valid()
      modifies storage`pos
      ensures Valid()
      ensures IsFirstFrom(table, nextFreeCluster, r) && (r.Some? <==> FreeCount(table) > 0)
    {
      hide LinksInRange, Layout.Represents, FreeCount;
      FreeCountPositive(table);
      var end := layout.Entries();
      var start :=
        if nextFreeCluster.Some? && nextFreeCluster.value < end then nextFreeCluster.value else RESERVED_FAT_ENTRIES;
      TableSize();
      r := FindFreeCluster(start, end);
      if r.None? && start > RESERVED_FAT_ENTRIES {
        r := FindFreeCluster(RESERVED_FAT_ENTRIES, start);
      }
    }

    lemma TableSize()
      requires Mounted()
      ensures |table| == |clusters| == layout.Entries() >= 3
    {}

    /** Takes a free cluster, marks it as a chain's end and links it behind `prev`. Fails exactly on a full
        volume, and then changes nothing. */
    method AllocCluster(prev: Option<nat>, zero: bool) returns (r: Option<nat>)
      requires Valid()
      requires prev.Some? ==> RESERVED_FAT_ENTRIES <= prev.value < |table| && table[prev.value] != Free
      modifies storage, this
      ensures Valid() && (r.Some? <==> old(FreeCount(table)) > 0)
              && freeClusterCount.Some? == old(freeClusterCount.Some?)
      ensures IsFirstFrom(old(table), old(nextFreeCluster), r)
      ensures r.None? ==> table == old(table) && clusters == old(clusters) && nextFreeCluster == old(nextFreeCluster)
      ensures r.Some? ==>
                && RESERVED_FAT_ENTRIES <= r.value < |old(table)| && old(table)[r.value] == Free
                && r.value < |old(clusters)| && |old(clusters)[r.value]| == layout.clusterSize
                && table == Allocated(old(table), prev, r.value) && FreeCount(table) == old(FreeCount(table)) - 1
                && |clusters| == |old(clusters)| == |table| && nextFreeCluster == Some(r.value + 1)
                && clusters == if zero then old(clusters)[r.value := Zeros(layout.clusterSize)] else old(clusters)
    {
      hide FreeCount, Layout.Represents, IsFirstFrom;
      TableSize();
      r := FindFromHint();
      if r.None? {
        return;
      }
      var c := r.value;
      FirstFromIsFree(table, nextFreeCluster, r);
      ClusterSize(c);
      AllocatedCount(table, prev, c);
      SetEntry(c, EndOfChain);
      if prev.Some? {
        SetEntry(prev.value, Data(c));
      }
      if zero {
        ZeroCluster(c);
      }
      nextFreeCluster := Some(c + 1);
      if freeClusterCount.Some? {
        freeClusterCount := Some(freeClusterCount.value - 1);
      }
    }

    /** Overwrites a cluster with zeros, at most 512 bytes at a time. */
    method ZeroCluster(c: nat)
      requires Mounted() && RESERVED_FAT_ENTRIES <= c < |table|
      modifies storage, this`clusters
      ensures Mounted() && |old(clusters)| == |table|
      ensures clusters == old(clusters)[c := Zeros(layout.clusterSize)]
    {
      hide Layout.Represents, Layout.Ok, Splice;
      TableSize();
      var len, done := layout.clusterSize, 0;
      ClusterSize(c);
      SpliceNothing(clusters[c], 0);
      while len > 0
        invariant Mounted() && |clusters| == |old(clusters)| && done + len == layout.clusterSize == |old(clusters)[c]|
        invariant clusters == old(clusters)[c := Splice(old(clusters)[c], 0, Zeros(done))]
        decreases len
      {
        var n := Min(len, BLOCK);
        SpliceTwice(old(clusters)[c], 0, Zeros(done), Zeros(n));
        assert Zeros(done) + Zeros(n) == Zeros(done + n);
        WriteCluster(c, done, Zeros(n));
        len, done := len - n, done + n;
      }
      SpliceAll(old(clusters)[c], Zeros(done));
    }

    lemma ChainSized(cs: seq<nat>)
      requires Mounted() && (cs == [] || IsChain(table, cs))
      ensures |clusters| == |table|
      ensures forall i :: 0 <= i < |cs| ==> cs[i] < |clusters| && |clusters[cs[i]]| == layout.clusterSize
    {
      forall i | 0 <= i < |cs| ensures cs[i] < |clusters| && |clusters[cs[i]]| == layout.clusterSize {
        ClusterSize(cs[i]);
      }
    }

    lemma ClusterSize(c: nat)
      requires Mounted() && RESERVED_FAT_ENTRIES <= c < |table|
      ensures |clusters| == |table| && |clusters[c]| == layout.clusterSize
    {
      ClusterAt(storage.bytes, layout.dataStart, layout.clusterSize, clusters, c);
    }

    /** Frees everything reachable from the cursor and counts it, whatever the shape of the links. */
    method FreeFromCursor(cursor: Option<nat>) returns (n: nat)
      requires Mounted() && LinksInRange(table) && (cursor.Some? ==> RESERVED_FAT_ENTRIES <= cursor.value < |table|)
      modifies storage, this`table
      ensures Mounted() && LinksInRange(table) && (table, n) == old(FreeFrom(table, cursor))
    {
      hide Layout.Represents, Layout.Ok, NonFree;
      var at := cursor;
      n := 0;
      while at.Some?
        invariant Mounted() && LinksInRange(table) && (at.Some? ==> RESERVED_FAT_ENTRIES <= at.value < |table|)
        invariant FreeFrom(table, at).0 == old(FreeFrom(table, cursor).0)
        invariant n + FreeFrom(table, at).1 == old(FreeFrom(table, cursor).1)
        decreases NonFree(table) + if at.Some? then 1 else 0
      {
        var c := at.value;
        NonFreeUpdate(table, c, Free);
        at := NextCluster(c);
        SetEntry(c, Free);
        n := n + 1;
      }
    }

    /** Adds the number freed to the cached count. */
    method MapFreeClusters(n: nat)
      modifies this`freeClusterCount
      ensures freeClusterCount == if old(freeClusterCount).Some? then Some(old(freeClusterCount).value + n) else None
    {
      if freeClusterCount.Some? {
        freeClusterCount := Some(freeClusterCount.value + n);
      }
    }

    /** Gives everything that hangs on a cluster back. The cached count stays exact if the cluster heads an
        acyclic chain, and is one too high otherwise. */
    method FreeClusterChain(c: nat)
      requires Valid() && RESERVED_FAT_ENTRIES <= c < |table|
      modifies storage, this
      ensures Mounted() && LinksInRange(table) && table == FreeFrom(old(table), Some(c)).0 && clusters == old(clusters)
      ensures CountsOff(if HasChain(old(table), c) then 0 else 1)
      ensures freeClusterCount.Some? == old(freeClusterCount.Some?) && nextFreeCluster == old(nextFreeCluster)
    {
      hide FreeCount, Layout.Represents, Layout.Ok, FreeFrom, HasChain;
      FreeingMoves(table, c);
      var n := FreeFromCursor(Some(c));
      MapFreeClusters(n);
    }

    /** Ends a chain at a cluster and gives the rest back. */
    method TruncateClusterChain(c: nat)
      requires Valid() && RESERVED_FAT_ENTRIES <= c < |table|
      modifies storage, this
      ensures LinksInRange(old(table)[c := EndOfChain])
      ensures Mounted() && LinksInRange(table) && clusters == old(clusters)
      ensures Next(old(table), c).Some? ==> RESERVED_FAT_ENTRIES <= Next(old(table), c).value < |old(table)|
      ensures table == FreeFrom(old(table)[c := EndOfChain], Next(old(table), c)).0
      ensures CountsOff(CutSurplus(old(table), c))
      ensures freeClusterCount.Some? == old(freeClusterCount.Some?) && nextFreeCluster == old(nextFreeCluster)
    {
      hide FreeCount, Layout.Represents, Layout.Ok, FreeFrom, LinksInRange, CutSurplus;
      CuttingMoves(table, c);
      LinkInRange(c);
      var rest := NextCluster(c);
      SetEntry(c, EndOfChain);
      var n := FreeFromCursor(rest);
      MapFreeClusters(n);
    }

    lemma LinkInRange(c: nat)
      requires LinksInRange(table) && RESERVED_FAT_ENTRIES <= c < |table|
      ensures Next(table, c).Some? ==> RESERVED_FAT_ENTRIES <= Next(table, c).value < |table|
    {}

    // ----- statistics

    /** The cached count if there is one, else a full scan: the same number either way. */
    method Stats() returns (free: nat)
      requires Valid()
      modifies storage`pos, this`freeClusterCount
      ensures Valid() && free == FreeCount(table) && freeClusterCount == Some(free)
    {
      if freeClusterCount.Some? {
        free := freeClusterCount.value;
      } else {
        free := CountFreeClusters();
        freeClusterCount := Some(free);
      }
    }

    // ----- cluster data

    method ReadCluster(c: nat, off: nat, n: nat) returns (buf: seq<Byte>)
      requires Mounted() && RESERVED_FAT_ENTRIES <= c < |table| && off + n <= layout.clusterSize
      modifies storage`pos
      ensures Mounted() && |clusters| == |table| && |clusters[c]| == layout.clusterSize
      ensures buf == clusters[c][off..off + n]
    {
      hide SlotStart, Divided, Table;
      ClusterSize(c);
      ClusterAt(storage.bytes, layout.dataStart, layout.clusterSize, clusters, c);
      var at := ClusterStart(layout.dataStart, layout.clusterSize, c);
      storage.SeekStart(at + off);
      SliceOfSlice(storage.bytes, at, at + layout.clusterSize, off, off + n);
      buf := storage.Read(n);
    }

    method WriteCluster(c: nat, off: nat, buf: seq<Byte>)
      requires Mounted() && RESERVED_FAT_ENTRIES <= c < |table| && off + |buf| <= layout.clusterSize
      modifies storage, this`clusters
      ensures Mounted() && |old(clusters)| == |table| && |old(clusters)[c]| == layout.clusterSize
      ensures clusters == old(clusters)[c := Splice(old(clusters)[c], off, buf)]
    {
      hide SlotStart, Divided, Table, MirrorsAgree, Splice, Holds;
      RepresentsWrite(layout, storage.bytes, table, clusters, c, off, buf);
      storage.SeekStart(ClusterStart(layout.dataStart, layout.clusterSize, c) + off);
      storage.Write(buf);
      clusters := clusters[c := Splice(clusters[c], off, buf)];
    }
  }
}
