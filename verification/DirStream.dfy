/** The bytes behind a directory (deps/rust-fatfs/src/dir.rs, `DirRawStream`): a cluster chain, or the fixed
    root region of a FAT12 or FAT16 volume, read and written slot by slot. */
module DirStreams {
  import opened Wrappers
  import opened Storages
  import opened DiskSlices
  import opened FatTypes
  import opened FatEntries
  import opened FatTables
  import opened FatFs
  import opened FileChains
  import opened FatFiles
  import opened LongNames
  import opened Directories

  // ----- slots and bytes

  /** The first `n` slots of a byte string. */
  function Cut(bytes: seq<Byte>, n: nat): (r: seq<Slot>)
    requires DIR_ENTRY_SIZE * n <= |bytes|
    ensures |r| == n
  {
    if n == 0 then [] else Cut(bytes, n - 1) + [bytes[DIR_ENTRY_SIZE * (n - 1)..DIR_ENTRY_SIZE * n]]
  }

  lemma {:induction false} CutAt(bytes: seq<Byte>, n: nat, i: nat)
    requires DIR_ENTRY_SIZE * n <= |bytes| && i < n
    ensures Cut(bytes, n)[i] == bytes[DIR_ENTRY_SIZE * i..DIR_ENTRY_SIZE * (i + 1)]
  {
    if i < n - 1 {
      CutAt(bytes, n - 1, i);
    }
  }

  function Flatten(slots: seq<Slot>): (r: seq<Byte>)
    ensures |r| == DIR_ENTRY_SIZE * |slots|
  {
    if slots == [] then [] else Flatten(slots[..|slots| - 1]) + slots[|slots| - 1]
  }

  lemma {:induction false} FlattenAt(slots: seq<Slot>, i: nat)
    requires i < |slots|
    ensures Flatten(slots)[DIR_ENTRY_SIZE * i..DIR_ENTRY_SIZE * (i + 1)] == slots[i]
  {
    var init := slots[..|slots| - 1];
    if i < |slots| - 1 {
      FlattenAt(init, i);
    }
  }

  lemma FlattenOne(slots: seq<Slot>, k: nat)
    requires k < |slots|
    ensures Flatten(slots[..k + 1]) == Flatten(slots[..k]) + slots[k]
  {
    assert slots[..k + 1][..k] == slots[..k];
  }

  lemma SpliceWithin(s: seq<Byte>, at: nat, buf: seq<Byte>, a: nat, b: nat)
    requires at + |buf| <= |s| && a <= b <= |buf|
    ensures Splice(s, at, buf)[at + a..at + b] == buf[a..b]
  {}

  lemma CutInside(bytes: seq<Byte>, n: nat, i: nat, more: seq<Slot>, k: nat)
    requires DIR_ENTRY_SIZE * n <= |bytes| && i + |more| <= n && k < |more|
    ensures Cut(Splice(bytes, DIR_ENTRY_SIZE * i, Flatten(more)), n)[i + k] == more[k]
  {
    hide Splice, Cut, Flatten;
    var at, piece := DIR_ENTRY_SIZE * i, Flatten(more);
    CutAt(Splice(bytes, at, piece), n, i + k);
    FlattenAt(more, k);
    SpliceWithin(bytes, at, piece, DIR_ENTRY_SIZE * k, DIR_ENTRY_SIZE * (k + 1));
    assert at + DIR_ENTRY_SIZE * k == DIR_ENTRY_SIZE * (i + k);
    assert at + DIR_ENTRY_SIZE * (k + 1) == DIR_ENTRY_SIZE * (i + k + 1);
  }

  lemma CutOutside(bytes: seq<Byte>, n: nat, i: nat, more: seq<Slot>, j: nat)
    requires DIR_ENTRY_SIZE * n <= |bytes| && i + |more| <= n && j < n && (j < i || i + |more| <= j)
    ensures Cut(Splice(bytes, DIR_ENTRY_SIZE * i, Flatten(more)), n)[j] == Cut(bytes, n)[j]
  {
    hide Splice, Cut, Flatten;
    CutAt(Splice(bytes, DIR_ENTRY_SIZE * i, Flatten(more)), n, j);
    CutAt(bytes, n, j);
    SpliceElsewhere(bytes, DIR_ENTRY_SIZE * i, Flatten(more), DIR_ENTRY_SIZE * j, DIR_ENTRY_SIZE * (j + 1));
  }

  lemma OverlayAt(s: seq<Slot>, at: nat, more: seq<Slot>, j: nat)
    requires at + |more| <= |s|
    ensures |Overlay(s, at, more)| == |s|
    ensures j < |s| ==> Overlay(s, at, more)[j] == if at <= j < at + |more| then more[j - at] else s[j]
  {}

  lemma CutSplicedAt(bytes: seq<Byte>, n: nat, i: nat, more: seq<Slot>, j: nat)
    requires DIR_ENTRY_SIZE * n <= |bytes| && i + |more| <= n && j < n
    ensures |Overlay(Cut(bytes, n), i, more)| == n
    ensures Cut(Splice(bytes, DIR_ENTRY_SIZE * i, Flatten(more)), n)[j] == Overlay(Cut(bytes, n), i, more)[j]
  {
    hide Splice, Cut, Flatten, Overlay;
    OverlayAt(Cut(bytes, n), i, more, j);
    if i <= j < i + |more| {
      CutInside(bytes, n, i, more, j - i);
    } else {
      CutOutside(bytes, n, i, more, j);
    }
  }

  /** Bytes laid over at a slot boundary are slots laid over. */
  lemma CutSpliced(bytes: seq<Byte>, n: nat, i: nat, more: seq<Slot>)
    requires DIR_ENTRY_SIZE * n <= |bytes| && i + |more| <= n
    ensures Cut(Splice(bytes, DIR_ENTRY_SIZE * i, Flatten(more)), n) == Overlay(Cut(bytes, n), i, more)
  {
    hide Splice, Cut, Flatten, Overlay;
    var got, want := Cut(Splice(bytes, DIR_ENTRY_SIZE * i, Flatten(more)), n), Overlay(Cut(bytes, n), i, more);
    OverlayAt(Cut(bytes, n), i, more, 0);
    forall j | 0 <= j < n ensures got[j] == want[j] {
      CutSplicedAt(bytes, n, i, more, j);
    }
  }

  lemma CutConcat(a: seq<Byte>, n: nat, b: seq<Byte>, m: nat)
    requires DIR_ENTRY_SIZE * n == |a| && DIR_ENTRY_SIZE * m <= |b|
    ensures Cut(a + b, n + m) == Cut(a, n) + Cut(b, m)
  {
    hide Cut;
    var got, want := Cut(a + b, n + m), Cut(a, n) + Cut(b, m);
    forall j | 0 <= j < n + m ensures got[j] == want[j] {
      CutAt(a + b, n + m, j);
      if j < n {
        CutAt(a, n, j);
        ConcatSlice(a, b, DIR_ENTRY_SIZE * j, DIR_ENTRY_SIZE * (j + 1));
      } else {
        CutAt(b, m, j - n);
        ConcatSlice(a, b, DIR_ENTRY_SIZE * j, DIR_ENTRY_SIZE * (j + 1));
      }
    }
  }

  lemma ConcatSlice(a: seq<Byte>, b: seq<Byte>, lo: nat, hi: nat)
    requires lo <= hi <= |a + b|
    ensures hi <= |a| ==> (a + b)[lo..hi] == a[lo..hi]
    ensures |a| <= lo ==> (a + b)[lo..hi] == b[lo - |a|..hi - |a|]
  {}

  predicate InSlots(n: nat) {
    n % DIR_ENTRY_SIZE == 0
  }

  /** A byte string of whole slots. */
  function SlotsOf(bytes: seq<Byte>): (r: seq<Slot>)
    requires InSlots(|bytes|)
    ensures DIR_ENTRY_SIZE * |r| == |bytes|
  {
    Cut(bytes, |bytes| / DIR_ENTRY_SIZE)
  }

  lemma SlotAt(bytes: seq<Byte>, i: nat)
    requires InSlots(|bytes|) && DIR_ENTRY_SIZE * (i + 1) <= |bytes|
    ensures SlotsOf(bytes)[i] == bytes[DIR_ENTRY_SIZE * i..DIR_ENTRY_SIZE * (i + 1)]
  {
    hide Cut;
    CutAt(bytes, |bytes| / DIR_ENTRY_SIZE, i);
  }

  lemma SlotsSpliced(bytes: seq<Byte>, i: nat, more: seq<Slot>)
    requires InSlots(|bytes|) && DIR_ENTRY_SIZE * (i + |more|) <= |bytes|
    ensures SlotsOf(Splice(bytes, DIR_ENTRY_SIZE * i, Flatten(more))) == Overlay(SlotsOf(bytes), i, more)
  {
    hide Cut, Splice, Flatten, Overlay;
    CutSpliced(bytes, |bytes| / DIR_ENTRY_SIZE, i, more);
  }

  lemma SlotsConcat(a: seq<Byte>, b: seq<Byte>)
    requires InSlots(|a|) && InSlots(|b|)
    ensures InSlots(|a + b|) && SlotsOf(a + b) == SlotsOf(a) + SlotsOf(b)
  {
    hide Cut;
    CutConcat(a, |a| / DIR_ENTRY_SIZE, b, |b| / DIR_ENTRY_SIZE);
  }

  /** Whole clusters are whole slots. */
  lemma WholeSlotsInClusters(clusterSize: nat, n: nat)
    requires InSlots(clusterSize)
    ensures InSlots(SlotStart(0, clusterSize, n))
  {
    var q := clusterSize / DIR_ENTRY_SIZE;
    assert clusterSize == DIR_ENTRY_SIZE * q && n * (DIR_ENTRY_SIZE * q) == DIR_ENTRY_SIZE * (n * q);
  }

  // ----- writing slots

  /** A directory's chain at a slot boundary. */
  ghost predicate IsDirFile(file: File)
    reads file, file.fs, file.fs.storage
  {
    && file.Valid() && file.Size().None? && InSlots(file.fs.layout.clusterSize)
    && InSlots(file.offset)
  }

  /** The fixed root region at a slot boundary. */
  ghost predicate IsDirSlice(slice: DiskSlice)
    reads slice, slice.inner
  {
    slice.Valid() && InSlots(slice.size) && InSlots(slice.offset)
  }

  lemma CapacityInSlots(file: File)
    requires IsDirFile(file)
    ensures InSlots(file.Capacity()) && file.offset <= file.Capacity()
  {
    hide File.Valid, FreeCount, SlotStart;
    file.BelowLimit();
    WholeSlotsInClusters(file.fs.layout.clusterSize, |file.chain| + FreeCount(file.fs.table));
  }

  method ReadFromFile(file: File) returns (r: Option<Slot>)
    requires IsDirFile(file) && |file.data| <= MAX_FILE_SIZE
    modifies file`offset, file`currentCluster, file`behind, file.fs.storage`pos
    ensures IsDirFile(file)
    ensures r.None? <==> old(file.offset) == |file.data|
    ensures file.offset == if r.None? then old(file.offset) else old(file.offset) + DIR_ENTRY_SIZE
    ensures r.Some? ==> old(file.offset) + DIR_ENTRY_SIZE <= |file.data|
    ensures r.Some? ==> r.value == file.data[old(file.offset)..old(file.offset) + DIR_ENTRY_SIZE]
  {
    hide FileSystem.Valid, Chained, Behind, SlotStart;
    WholeSlotsInClusters(file.fs.layout.clusterSize, |file.chain|);
    var b := file.ReadExact(DIR_ENTRY_SIZE);
    r := if b.Ok? then Some(b.value) else None;
  }

  method ReadFromSlice(slice: DiskSlice) returns (r: Option<Slot>)
    requires IsDirSlice(slice)
    modifies slice, slice.inner`pos
    ensures IsDirSlice(slice)
    ensures r.None? <==> old(slice.offset) == slice.size
    ensures slice.offset == if r.None? then old(slice.offset) else old(slice.offset) + DIR_ENTRY_SIZE
    ensures r.Some? ==> old(slice.offset) + DIR_ENTRY_SIZE <= slice.size
    ensures r.Some? ==> r.value == slice.View()[old(slice.offset)..old(slice.offset) + DIR_ENTRY_SIZE]
  {
    hide SlotStart;
    SlotStep(slice.offset);
    if slice.offset < slice.size {
      SlotGap(slice.offset, slice.size);
    }
    hide InSlots;
    r := slice.ReadExact(DIR_ENTRY_SIZE);
  }

  lemma SlotStep(n: nat)
    requires InSlots(n)
    ensures InSlots(n + DIR_ENTRY_SIZE)
  {}

  lemma SlotGap(n: nat, m: nat)
    requires InSlots(n) && InSlots(m) && n < m
    ensures n + DIR_ENTRY_SIZE <= m
  {}

  lemma TimesInSlots(i: nat)
    ensures InSlots(DIR_ENTRY_SIZE * i) && DIR_ENTRY_SIZE * i / DIR_ENTRY_SIZE == i
  {}

  method SeekInFile(file: File, i: nat)
    requires IsDirFile(file) && DIR_ENTRY_SIZE * i <= |file.data| <= MAX_FILE_SIZE
    modifies file`offset, file`currentCluster, file`behind, file.fs.storage`pos
    ensures IsDirFile(file) && file.offset == DIR_ENTRY_SIZE * i
  {
    hide FileSystem.Valid, Chained, Behind, SlotStart, InSlots;
    TimesInSlots(i);
    var r := file.Seek(Start(DIR_ENTRY_SIZE * i));
  }

  method SeekInSlice(slice: DiskSlice, i: nat)
    requires IsDirSlice(slice) && DIR_ENTRY_SIZE * i <= slice.size
    modifies slice
    ensures IsDirSlice(slice) && slice.offset == DIR_ENTRY_SIZE * i
  {
    hide InSlots, SlotStart;
    TimesInSlots(i);
    var ok := slice.Seek(Start(DIR_ENTRY_SIZE * i));
  }

  /** Writes slots until the volume has no cluster left to give. */
  method WriteToFile(file: File, more: seq<Slot>) returns (r: Result<(), FileError>, ghost n: nat)
    requires IsDirFile(file) && file.offset + DIR_ENTRY_SIZE * |more| <= MAX_FILE_SIZE
    modifies file, file.fs, file.fs.storage
    ensures IsDirFile(file) && file.SameKind(old(file.entry)) && file.Capacity() == old(file.Capacity())
    ensures Untouched(old(file.fs.table), old(file.fs.clusters), old(file.chain),
                      file.fs.table, file.fs.clusters, file.chain)
    ensures n <= |more| && file.offset == old(file.offset) + DIR_ENTRY_SIZE * n
    ensures Extends(old(file.fs.clusters), old(file.chain), old(file.data), file.fs.clusters, file.chain, file.data,
                    file.IsDir(), old(file.offset), Flatten(more[..n]))
    ensures |file.chain| == |old(file.chain)| || |file.data| < file.offset + file.fs.layout.clusterSize
    ensures r.Ok? <==> n == |more|
    ensures r.Ok? <==> old(file.offset) + DIR_ENTRY_SIZE * |more| <= file.Capacity()
    ensures r.Err? ==> r.error == NotEnoughSpace && file.offset == file.Capacity()
  {
    hide FileSystem.Valid, Chained, Behind, SlotStart, File.Capacity, Extends, Untouched, Flatten, FreeCount;
    file.NothingExtended([]);
    file.UntouchedHere();
    assert more[..0] == [] && Flatten([]) == [];
    n := 0;
    for i := 0 to |more|
      invariant n == i && IsDirFile(file) && file.SameKind(old(file.entry)) && file.Capacity() == old(file.Capacity())
      invariant Untouched(old(file.fs.table), old(file.fs.clusters), old(file.chain),
                          file.fs.table, file.fs.clusters, file.chain)
      invariant file.offset == old(file.offset) + DIR_ENTRY_SIZE * i
      invariant Extends(old(file.fs.clusters), old(file.chain), old(file.data), file.fs.clusters, file.chain, file.data,
                        file.IsDir(), old(file.offset), Flatten(more[..i]))
      invariant |file.chain| == |old(file.chain)| || |file.data| < file.offset + file.fs.layout.clusterSize
    {
      ghost var table, clusters, chain, data := file.fs.table, file.fs.clusters, file.chain, file.data;
      CapacityInSlots(file);
      var w := file.WriteAll(more[i]);
      UntouchedTrans(old(file.fs.table), old(file.fs.clusters), old(file.chain), table, clusters, chain,
                     file.fs.table, file.fs.clusters, file.chain);
      file.TwoWrites(old(file.fs.clusters), old(file.chain), old(file.data), clusters, chain, data, old(file.offset),
                     Flatten(more[..i]), more[i][..file.offset - old(file.offset) - DIR_ENTRY_SIZE * i]);
      if w.Err? {
        assert Flatten(more[..i]) + [] == Flatten(more[..i]);
        return Err(w.error), n;
      }
      FlattenOne(more, i);
      assert more[i][..DIR_ENTRY_SIZE] == more[i];
      n := n + 1;
    }
    CapacityInSlots(file);
    assert more[..n] == more;
    r := Ok(());
  }

  /** Nothing outside the region differs. */
  ghost predicate SameOutside(slice: DiskSlice, before: seq<Byte>, after: seq<Byte>) {
    && var end := SlotStart(slice.begin, slice.size, slice.mirrors);
       && slice.begin <= end <= |before| == |after| && before[..slice.begin] == after[..slice.begin]
       && before[end..] == after[end..]
  }

  lemma NothingOutside(slice: DiskSlice, bytes: seq<Byte>)
    requires SlotStart(slice.begin, slice.size, slice.mirrors) <= |bytes|
    ensures SameOutside(slice, bytes, bytes)
  {}

  lemma WriteStaysInside(slice: DiskSlice, before: seq<Byte>, bytes: seq<Byte>, at: nat, piece: seq<Byte>)
    requires SameOutside(slice, before, bytes) && at + |piece| <= slice.size
    requires SlotStart(slice.begin, slice.size, slice.mirrors) <= |bytes|
    ensures SameOutside(slice, before, Mirrored(bytes, slice.begin, slice.size, slice.mirrors, at, piece))
  {
    hide Mirrored, SlotStart;
    MirroredElsewhere(bytes, slice.begin, slice.size, slice.mirrors, at, piece, 0, slice.begin);
    MirroredElsewhere(bytes, slice.begin, slice.size, slice.mirrors, at, piece,
                      SlotStart(slice.begin, slice.size, slice.mirrors), |bytes|);
  }

  /** Writes slots until the region is full. */
  method WriteToSlice(slice: DiskSlice, more: seq<Slot>) returns (r: Result<(), FileError>, ghost n: nat)
    requires IsDirSlice(slice)
    modifies slice, slice.inner
    ensures IsDirSlice(slice) && n <= |more| && slice.offset == old(slice.offset) + DIR_ENTRY_SIZE * n
    ensures slice.View() == Splice(old(slice.View()), old(slice.offset), Flatten(more[..n]))
    ensures |slice.inner.bytes| == |old(slice.inner.bytes)|
            && SameOutside(slice, old(slice.inner.bytes), slice.inner.bytes)
    ensures r.Ok? <==> n == |more|
    ensures r.Ok? <==> old(slice.offset) + DIR_ENTRY_SIZE * |more| <= slice.size
    ensures r.Err? ==> r.error == WriteZero && slice.offset == slice.size
  {
    hide Splice, Flatten, SlotStart, Mirrored, SameOutside;
    NothingOutside(slice, slice.inner.bytes);
    SpliceNothing(slice.View(), slice.offset);
    assert more[..0] == [] && Flatten([]) == [];
    n := 0;
    for i := 0 to |more|
      invariant n == i && IsDirSlice(slice) && slice.offset == old(slice.offset) + DIR_ENTRY_SIZE * i
      invariant slice.View() == Splice(old(slice.View()), old(slice.offset), Flatten(more[..i]))
      invariant |slice.inner.bytes| == |old(slice.inner.bytes)|
      invariant SameOutside(slice, old(slice.inner.bytes), slice.inner.bytes)
    {
      ghost var view, bytes := slice.View(), slice.inner.bytes;
      ghost var at := slice.offset;
      var ok := slice.WriteAll(more[i]);
      ghost var piece := more[i][..slice.offset - at];
      WriteStaysInside(slice, old(slice.inner.bytes), bytes, at, piece);
      if !ok {
        SpliceNothing(view, slice.offset);
        assert more[i][..0] == [];
        return Err(WriteZero), n;
      }
      FlattenOne(more, i);
      assert more[i][..DIR_ENTRY_SIZE] == more[i];
      SpliceTwice(old(slice.View()), old(slice.offset), Flatten(more[..i]), more[i]);
      n := n + 1;
    }
    assert more[..n] == more;
    r := Ok(());
  }

  // ----- growth, in slots

  /** A volume seen from one of its chains. */
  datatype Volume = Volume(table: seq<FatValue>, clusters: seq<seq<Byte>>, chain: seq<nat>)

  /** What a chain has grown by: the slots of its new clusters as they were before, or zeroed. */
  ghost predicate IsGrowth(before: Volume, after: Volume, zero: bool, added: seq<Slot>) {
    && before.chain <= after.chain && Below(after.chain, |before.clusters|)
    && var bytes := FreshBytes(before.clusters, before.chain, after.chain, zero);
       InSlots(|bytes|) && added == SlotsOf(bytes) && (added == [] <==> after.chain == before.chain)
  }

  /** Every other chain of the volume keeps its links and its bytes. */
  ghost predicate VolumeKept(before: Volume, after: Volume) {
    Untouched(before.table, before.clusters, before.chain, after.table, after.clusters, after.chain)
  }

  /** A write to a chain puts the slots there. */
  lemma GrowthOf(before: Volume, after: Volume, data: seq<Byte>, data': seq<Byte>, zero: bool, start: nat,
                 more: seq<Slot>, clusterSize: nat) returns (added: seq<Slot>)
    requires clusterSize > 0 && |data| == SlotStart(0, clusterSize, |before.chain|)
    requires |data'| == SlotStart(0, clusterSize, |after.chain|)
    requires InSlots(|data|) && InSlots(|data'|) && DIR_ENTRY_SIZE * start <= |data|
    requires Extends(before.clusters, before.chain, data, after.clusters, after.chain, data', zero,
                     DIR_ENTRY_SIZE * start, Flatten(more))
    requires |after.chain| == |before.chain| || |data'| < DIR_ENTRY_SIZE * (start + |more|) + clusterSize
    ensures IsGrowth(before, after, zero, added) && IsPut(SlotsOf(data), added, start, more, SlotsOf(data'))
  {
    hide SlotStart, Splice, SlotsOf, Flatten, FreshBytes, Overlay;
    var bytes := FreshBytes(before.clusters, before.chain, after.chain, zero);
    assert |data'| == |data| + |bytes|;
    added := SlotsOf(bytes);
    SlotsConcat(data, bytes);
    SlotsSpliced(data + bytes, start, more);
    if |after.chain| > |before.chain| {
      SlotOrder(0, clusterSize, |before.chain|, |after.chain|);
    } else {
      assert after.chain == before.chain;
    }
  }

  lemma PutInPlace(slots: seq<Slot>, start: nat, more: seq<Slot>)
    requires start + |more| <= |slots|
    ensures IsPut(slots, [], start, more, Overlay(slots, start, more))
  {
    assert slots + [] == slots;
  }

  /** At the capacity of the volume every cluster of it is in the chain. */
  lemma CapacityIsFull(file: File)
    requires IsDirFile(file)
    ensures file.offset == file.Capacity() ==> |file.data| == file.offset
  {
    hide FileSystem.Valid, Chained, FreeCount, SlotStart, Behind;
    BelowCapacity(|file.chain|, FreeCount(file.fs.table), file.fs.layout.clusterSize);
  }

  /** Clusters that are zeroed hold end markers. */
  lemma ZeroedIsEnd(before: Volume, after: Volume, added: seq<Slot>)
    requires IsGrowth(before, after, true, added)
    ensures AllEnd(added)
  {
    hide SlotsOf, FreshBytes;
    var bytes := FreshBytes(before.clusters, before.chain, after.chain, true);
    FreshZeros(before.clusters, before.chain, after.chain);
    forall i | 0 <= i < |added| ensures IsEnd(added[i]) {
      SlotAt(bytes, i);
    }
  }

  lemma FreshZeros(clusters: seq<seq<Byte>>, chain: seq<nat>, chain': seq<nat>)
    requires chain <= chain' && Below(chain', |clusters|)
    ensures var bytes := FreshBytes(clusters, chain, chain', true); bytes == Zeros(|bytes|)
  {}

  /** Zeroed bytes are an empty directory, and a clean one. */
  lemma ZerosAreEmpty(n: nat, skipVolume: bool)
    requires InSlots(n)
    ensures var slots := SlotsOf(Zeros(n)); AllEnd(slots) && Clean(slots) && Listing(slots, 0, skipVolume) == []
  {
    hide SlotsOf;
    var slots := SlotsOf(Zeros(n));
    forall i | 0 <= i < |slots| ensures IsEnd(slots[i]) {
      SlotAt(Zeros(n), i);
    }
    assert AllDeleted(slots, 0, 0);
    QuietIsEmpty(slots, 0, skipVolume);
  }

  /** On the smallest FAT32 volume, a full root of one cluster that takes another which still holds data: slots of
      that come into use behind the new entry. */
  lemma RootGrowthExposes() returns (before: Volume, after: Volume, added: seq<Slot>)
    ensures |before.table| == FAT32_MIN_CLUSTERS + RESERVED_FAT_ENTRIES && FromClusters(FAT32_MIN_CLUSTERS) == Fat32
    ensures before.chain == [2] && IsChain(before.table, [2]) && before.table[3] == Free
    ensures after == Volume(Allocated(before.table, Some(2), 3), before.clusters, [2, 3])
    ensures IsGrowth(before, after, false, added)
    ensures var full := seq(16, i => USED); Clean(full) && IsRoom(full, 16, 2) && !Harmless(full, added, 16, 2)
  {
    hide Quiet, Harmless, IsRoom, Clean, SlotsOf, Joined;
    var held := seq(512, i => 0x41 as Byte);
    var n := FAT32_MIN_CLUSTERS + RESERVED_FAT_ENTRIES;
    var table := seq(n, i => if i <= 2 then EndOfChain else Free);
    before := Volume(table, seq(n, i => held), [2]);
    after := Volume(Allocated(table, Some(2), 3), before.clusters, [2, 3]);
    assert [2, 3] == [2] + [3];
    FreshOne(before.clusters, [2], 3, false);
    added := SlotsOf(held);
    assert added == seq(16, i => USED) by {
      forall i | 0 <= i < 16 ensures added[i] == USED {
        SlotAt(held, i);
      }
    }
    GrowthExposesOldSlots();
  }

  // ----- both kinds of stream

  /** Slots an entry can take: twenty of long name and the short one. */
  const MAX_ENTRY_SLOTS := MAX_LONG_DIR_ENTRIES + 1

  /** A chain, or the fixed root region. */
  datatype StreamKind = OfFile(file: File) | OfRoot(slice: DiskSlice)

  class DirRawStream {
    const kind: StreamKind
    /** The directory as slots, and the slot the stream is at. */
    ghost var slots: seq<Slot>
    ghost var at: nat
    /** How many slots the directory can come to have. */
    ghost var limit: nat
    /** The volume around the directory's chain. */
    ghost var volume: Volume

    ghost function Footprint(): set<object> {
      match kind
      case OfFile(f) => {f, f.fs, f.fs.storage}
      case OfRoot(s) => {s, s.inner}
    }

    ghost predicate Valid()
      reads this, Footprint()
    {
      match kind
      case OfFile(f) =>
        && IsDirFile(f) && InSlots(|f.data|) && slots == SlotsOf(f.data) && at <= |slots|
        && f.offset == DIR_ENTRY_SIZE * at && f.Capacity() == DIR_ENTRY_SIZE * limit
        && volume == Volume(f.fs.table, f.fs.clusters, f.chain)
      case OfRoot(s) =>
        && IsDirSlice(s) && InSlots(|s.View()|) && slots == SlotsOf(s.View()) && at <= |slots|
        && s.offset == DIR_ENTRY_SIZE * at && s.size == DIR_ENTRY_SIZE * limit
    }

    /** Offsets are 32-bit: a directory leaves room below 4 GiB for one more entry. */
    ghost predicate Short()
      reads this
    {
      DIR_ENTRY_SIZE * (|slots| + MAX_ENTRY_SLOTS) <= MAX_FILE_SIZE
    }

    /** New clusters are zeroed for a directory with an entry of its own; the root has none. */
    ghost predicate HasEntry()
      reads Footprint()
    {
      kind.OfFile? && kind.file.entry.Some?
    }

    /** A directory's stream at its start. */
    constructor (kind: StreamKind)
      requires kind.OfFile? ==> IsDirFile(kind.file) && kind.file.offset == 0
      requires kind.OfRoot? ==> IsDirSlice(kind.slice) && kind.slice.offset == 0
      ensures Valid() && this.kind == kind && at == 0
      ensures kind.OfFile? ==> InSlots(|kind.file.data|) && slots == SlotsOf(kind.file.data)
      ensures kind.OfRoot? ==> InSlots(|kind.slice.View()|) && slots == SlotsOf(kind.slice.View())
    {
      hide FileSystem.Valid, Chained, Behind, SlotStart, FreeCount, SlotsOf, File.Capacity;
      this.kind, at := kind, 0;
      if kind.OfFile? {
        WholeSlotsInClusters(kind.file.fs.layout.clusterSize, |kind.file.chain|);
        CapacityInSlots(kind.file);
        slots, limit := SlotsOf(kind.file.data), kind.file.Capacity() / DIR_ENTRY_SIZE;
        volume := Volume(kind.file.fs.table, kind.file.fs.clusters, kind.file.chain);
      } else {
        slots, limit, volume := SlotsOf(kind.slice.View()), kind.slice.size / DIR_ENTRY_SIZE, Volume([], [], []);
      }
    }

    lemma WithinLimit()
      requires Valid()
      ensures at <= |slots| <= limit
    {
      hide FileSystem.Valid, Chained, Behind, SlotStart, FreeCount, SlotsOf, InSlots;
      if kind.OfFile? {
        BelowCapacity(|kind.file.chain|, FreeCount(kind.file.fs.table), kind.file.fs.layout.clusterSize);
      }
    }

    /** The number of the slot the stream is at. */
    method SlotNumber() returns (i: nat)
      requires Valid()
      ensures i == at
    {
      hide IsDirFile, IsDirSlice, SlotsOf;
      i := match kind case OfFile(f) => f.offset / DIR_ENTRY_SIZE case OfRoot(s) => s.offset / DIR_ENTRY_SIZE;
    }

    /** The next slot, or none at the end of the stream. */
    method ReadSlot() returns (r: Option<Slot>)
      requires Valid() && Short()
      modifies this`at, Footprint()
      ensures Valid() && HasEntry() == old(HasEntry())
      ensures r == if old(at) < |slots| then Some(slots[old(at)]) else None
      ensures at == if r.None? then old(at) else old(at) + 1
    {
      hide FileSystem.Valid, Chained, Behind, SlotStart, File.Capacity, FreeCount, SlotsOf, InSlots;
      if at < |slots| {
        SlotAt(if kind.OfFile? then kind.file.data else kind.slice.View(), at);
      }
      match kind {
        case OfFile(f) =>
          r := ReadFromFile(f);
        case OfRoot(s) =>
          r := ReadFromSlice(s);
      }
      at := if r.Some? then at + 1 else at;
    }

    /** Goes to a slot. */
    method SeekSlot(i: nat)
      requires Valid() && Short() && i <= |slots|
      modifies this`at, Footprint()
      ensures Valid() && HasEntry() == old(HasEntry()) && at == i
    {
      hide FileSystem.Valid, Chained, Behind, SlotStart, File.Capacity, FreeCount, SlotsOf, InSlots;
      match kind {
        case OfFile(f) =>
          SeekInFile(f, i);
        case OfRoot(s) =>
          SeekInSlice(s, i);
      }
      at := i;
    }

    /** Puts slots at the position, growing the directory as far as it can. */
    method WriteSlots(more: seq<Slot>) returns (r: Result<(), FileError>, ghost n: nat, ghost added: seq<Slot>)
      requires Valid() && Short() && |more| <= MAX_ENTRY_SLOTS
      modifies this, Footprint()
      ensures Valid() && limit == old(limit) && HasEntry() == old(HasEntry())
      ensures n <= |more| && IsPut(old(slots), added, old(at), more[..n], slots)
      ensures (r.Ok? <==> n == |more|) && (r.Ok? <==> old(at) + |more| <= limit)
      ensures r.Err? ==> |slots| == old(at) + n && r.error == if kind.OfFile? then NotEnoughSpace else WriteZero
      ensures kind.OfRoot? ==> added == []
      ensures kind.OfFile? ==> IsGrowth(old(volume), volume, HasEntry(), added) && VolumeKept(old(volume), volume)
    {
      hide Valid, SlotsOf, IsPut, IsGrowth, VolumeKept;
      if kind.OfFile? {
        r, n, added := WriteChainSlots(more);
      } else {
        r, n := WriteRootSlots(more);
        added := [];
      }
    }

    method WriteChainSlots(more: seq<Slot>) returns (r: Result<(), FileError>, ghost n: nat, ghost added: seq<Slot>)
      requires kind.OfFile? && Valid() && Short() && |more| <= MAX_ENTRY_SLOTS
      modifies this, Footprint()
      ensures Valid() && limit == old(limit) && HasEntry() == old(HasEntry())
      ensures n <= |more| && IsPut(old(slots), added, old(at), more[..n], slots)
      ensures (r.Ok? <==> n == |more|) && (r.Ok? <==> old(at) + |more| <= limit)
      ensures r.Err? ==> |slots| == old(at) + n && r.error == NotEnoughSpace
      ensures IsGrowth(old(volume), volume, HasEntry(), added) && VolumeKept(old(volume), volume)
    {
      hide FileSystem.Valid, Chained, Behind, SlotStart, File.Capacity, FreeCount, SlotsOf, Untouched, Extends, Splice;
      hide IsPut, IsGrowth, FreshBytes, Flatten, InSlots;
      var f := kind.file;
      ghost var data := f.data;
      r, n := WriteToFile(f, more);
      volume := Volume(f.fs.table, f.fs.clusters, f.chain);
      WholeSlotsInClusters(f.fs.layout.clusterSize, |f.chain|);
      added := GrowthOf(old(volume), volume, data, f.data, HasEntry(), at, more[..n], f.fs.layout.clusterSize);
      CapacityIsFull(f);
      slots, at := SlotsOf(f.data), at + n;
    }

    method WriteRootSlots(more: seq<Slot>) returns (r: Result<(), FileError>, ghost n: nat)
      requires kind.OfRoot? && Valid()
      modifies this, Footprint()
      ensures Valid() && limit == old(limit)
      ensures n <= |more| && IsPut(old(slots), [], old(at), more[..n], slots)
      ensures (r.Ok? <==> n == |more|) && (r.Ok? <==> old(at) + |more| <= limit)
      ensures r.Err? ==> |slots| == old(at) + n && r.error == WriteZero
    {
      hide SlotStart, SlotsOf, Splice, IsPut, Flatten, InSlots;
      var s := kind.slice;
      ghost var view := s.View();
      r, n := WriteToSlice(s, more);
      SlotsSpliced(view, at, more[..n]);
      PutInPlace(slots, at, more[..n]);
      slots, at := SlotsOf(s.View()), at + n;
    }
  }
}
