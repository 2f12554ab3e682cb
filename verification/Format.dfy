/** Formatting a volume (deps/rust-fatfs/src/fs.rs and table.rs): what is written behind the boot sector, and that
    the result mounts as an empty volume. */
module Formats {
  import opened Wrappers
  import opened Storages
  import opened DiskSlices
  import opened FatTypes
  import opened FatEntries
  import opened FatScans
  import opened FatTables
  import opened FatFs

  /** First of the cluster numbers that are marked bad where a FAT has entries for them, and the end of those. */
  const BAD_START := 0x0FFF_FFF0
  const BAD_END := 0x1000_0000

  /** Number of entries a FAT of `size` bytes has room for. */
  function EntryRoom(t: FatType, size: nat): nat {
    size * 8 / t.BitsPerFatEntry()
  }

  lemma EntryRoomHolds(t: FatType, size: nat, c: nat)
    requires c < EntryRoom(t, size)
    ensures Holds(t, c, size)
  {
    assert (c + 1) * t.BitsPerFatEntry() <= size * 8;
    RoomHolds(t, c + 1, size);
  }

  lemma HeldHasRoom(t: FatType, c: nat, size: nat)
    requires Holds(t, c, size)
    ensures c < EntryRoom(t, size)
  {
    assert (c + 1) * t.BitsPerFatEntry() <= size * 8;
  }

  /** Only the mirrors of the FAT have changed, and they agree if they did. */
  ghost predicate FatOnly(begin: nat, size: nat, m: nat, before: seq<Byte>, after: seq<Byte>) {
    && |after| == |before| && SlotStart(begin, size, m) <= |before| && begin <= |before|
    && after[..begin] == before[..begin] && after[SlotStart(begin, size, m)..] == before[SlotStart(begin, size, m)..]
    && (MirrorsAgree(before, begin, size, m) ==> MirrorsAgree(after, begin, size, m))
  }

  lemma MirroredIsFatOnly(begin: nat, size: nat, m: nat, before: seq<Byte>, off: nat, buf: seq<Byte>)
    requires m > 0 && off + |buf| <= size && SlotStart(begin, size, m) <= |before|
    ensures FatOnly(begin, size, m, before, Mirrored(before, begin, size, m, off, buf))
  {
    hide SlotStart, Mirrored, MirrorsAgree;
    var after, end := Mirrored(before, begin, size, m, off, buf), SlotStart(begin, size, m);
    MirroredElsewhere(before, begin, size, m, off, buf, 0, begin);
    MirroredElsewhere(before, begin, size, m, off, buf, end, |before|);
    assert after[..begin] == after[0..begin] && before[..begin] == before[0..begin];
    assert after[end..] == after[end..|before|] && before[end..] == before[end..|before|];
    if MirrorsAgree(before, begin, size, m) {
      MirrorsKeepAgreeing(before, begin, size, m, off, buf);
    }
  }

  // What the entries of a FAT stand for, while it is formatted and then.

  function AllFree(): nat -> FatValue {
    (c: nat) => Free
  }

  function EndsUpTo(start: nat, i: nat): nat -> FatValue {
    (c: nat) => if start <= c < i then EndOfChain else Free
  }

  function BadUpTo(start: nat, i: nat): nat -> FatValue {
    (c: nat) => if BAD_START <= c < i then Bad else if start <= c then EndOfChain else Free
  }

  function Marks(t: FatType, size: nat, start: nat): nat -> FatValue {
    BadUpTo(start, if BAD_START < EntryRoom(t, size) then BAD_END else BAD_START)
  }

  /** The last sixteen numbers of FAT32 are marked bad if there is room for one of them, everything else behind the
      last cluster is taken. */
  lemma MarksIff(t: FatType, size: nat, start: nat, c: nat)
    requires c < EntryRoom(t, size)
    ensures var v := Marks(t, size, start)(c);
            && (v == Bad <==> 0 < RawLimit(Fat32) - c <= 16)
            && (v == Free <==> c < start && v != Bad) && (v == EndOfChain <==> start <= c && v != Bad)
  {}

  /** Entry 0 holds the media byte in a row of ones, entry 1 ones only. */
  ghost predicate HasIdentity(fat: seq<Byte>, t: FatType, media: Byte) {
    && Holds(t, 0, |fat|) && Holds(t, 1, |fat|)
    && GetRaw(fat, t, 0) == RawLimit(t) - 0x100 + media as int && GetRaw(fat, t, 1) == RawLimit(t) - 1
  }

  /** The entries from the first cluster on, up to `n`. */
  ghost predicate HasEntries(fat: seq<Byte>, t: FatType, n: nat, value: nat -> FatValue) {
    forall c :: RESERVED_FAT_ENTRIES <= c < n ==> Holds(t, c, |fat|) && Decode(t, GetRaw(fat, t, c)) == value(c)
  }

  lemma StoredMark(fat: seq<Byte>, t: FatType, n: nat, c: nat, v: FatValue, media: Byte, value: nat -> FatValue,
                   value': nat -> FatValue)
    requires HasEntries(fat, t, n, value) && HasIdentity(fat, t, media)
    requires RESERVED_FAT_ENTRIES <= c < n && Encodable(t, v) && Holds(t, c, |fat|)
    requires forall d: nat :: value'(d) == if d == c then v else value(d)
    ensures HasEntries(SetRaw(fat, t, c, Encode(t, v)), t, n, value')
    ensures HasIdentity(SetRaw(fat, t, c, Encode(t, v)), t, media)
  {
    hide GetRaw, SetRaw, Encode, Decode, Encodable, Holds, RawLimit;
    var fat' := SetRaw(fat, t, c, Encode(t, v));
    SetGet(fat, t, c, Encode(t, v), 0);
    SetGet(fat, t, c, Encode(t, v), 1);
    forall d | RESERVED_FAT_ENTRIES <= d < n ensures Holds(t, d, |fat'|) && Decode(t, GetRaw(fat', t, d)) == value'(d) {
      SetGet(fat, t, c, Encode(t, v), d);
    }
  }

  // ----- the reserved entries

  /** The bytes of the two reserved entries. */
  function Identity(t: FatType, media: Byte): (r: seq<Byte>)
    ensures |r| == EntryOffset(t, RESERVED_FAT_ENTRIES)
  {
    match t
    case Fat12 => [media] + Le16(0xFFFF)
    case Fat16 => Le16(0xFF00 + media as int) + Le16(0xFFFF)
    case Fat32 => Le32(0x0FFF_FF00 + media as int) + Le32(0xFFFF_FFFF)
  }

  /** An empty FAT with these bytes in front is one whose clusters are all free. */
  lemma IdentityOnly(fat: seq<Byte>, t: FatType, media: Byte, n: nat)
    requires n >= RESERVED_FAT_ENTRIES && Holds(t, n - 1, |fat|)
    requires fat[..EntryOffset(t, RESERVED_FAT_ENTRIES)] == Identity(t, media)
    requires forall i :: EntryOffset(t, RESERVED_FAT_ENTRIES) <= i < |fat| ==> fat[i] == 0
    ensures HasIdentity(fat, t, media) && HasEntries(fat, t, n, AllFree())
  {
    hide Identity, GetRaw;
    IdentityRead(fat, t, media);
    forall c | RESERVED_FAT_ENTRIES <= c < n ensures Holds(t, c, |fat|) && Decode(t, GetRaw(fat, t, c)) == Free {
      HoldsBelow(t, n - 1, c, |fat|);
      ZeroEntry(fat, t, c);
    }
  }

  lemma ZeroEntry(fat: seq<Byte>, t: FatType, c: nat)
    requires Holds(t, c, |fat|)
    requires forall i :: EntryOffset(t, c) <= i < EntryOffset(t, c) + EntryWidth(t) ==> fat[i] == 0
    ensures GetRaw(fat, t, c) == 0
  {}

  lemma IdentityRead(fat: seq<Byte>, t: FatType, media: Byte)
    requires |Identity(t, media)| <= |fat| && fat[..|Identity(t, media)|] == Identity(t, media)
    ensures HasIdentity(fat, t, media)
  {
    hide Le16, Le32, U16At, U32At;
    var id := Identity(t, media);
    assert forall i :: 0 <= i < |id| ==> fat[i] == id[i];
    match t
    case Fat12 =>
      SamePair(fat, 1, id, 1, Le16(0xFFFF));
      Pair12(fat, media);
    case Fat16 =>
      SamePair(fat, 0, id, 0, Le16(0xFF00 + media as int));
      SamePair(fat, 2, id, 2, Le16(0xFFFF));
    case Fat32 =>
      SameQuad(fat, 0, id, Le32(0x0FFF_FF00 + media as int));
      SameQuad(fat, 4, id, Le32(0xFFFF_FFFF));
  }

  lemma SamePair(fat: seq<Byte>, at: nat, id: seq<Byte>, i: nat, word: seq<Byte>)
    requires at == i && i + 2 <= |id| <= |fat| && |word| == 2 && id[i..i + 2] == word
    requires forall k :: 0 <= k < |id| ==> fat[k] == id[k]
    ensures U16At(fat, at) == U16At(word, 0)
  {
    assert id[i..i + 2][0] == id[i] && id[i..i + 2][1] == id[i + 1];
  }

  lemma SameQuad(fat: seq<Byte>, at: nat, id: seq<Byte>, word: seq<Byte>)
    requires at + 4 <= |id| <= |fat| && |word| == 4 && id[at..at + 4] == word
    requires forall k :: 0 <= k < |id| ==> fat[k] == id[k]
    ensures U32At(fat, at) == U32At(word, 0)
  {
    var quad := id[at..at + 4];
    assert quad[0] == id[at] && quad[1] == id[at + 1] && quad[2] == id[at + 2] && quad[3] == id[at + 3];
  }

  lemma Pair12(fat: seq<Byte>, media: Byte)
    requires |fat| >= 3 && fat[0] == media && U16At(fat, 1) == 0xFFFF
    ensures U16At(fat, 0) % 0x1000 == 0x0F00 + media as int
  {
    assert fat[1] == 255;
    assert U16At(fat, 0) == media as int + 0x100 * 255;
  }

  lemma FatOnlyTwice(begin: nat, size: nat, m: nat, a: seq<Byte>, b: seq<Byte>, c: seq<Byte>)
    requires FatOnly(begin, size, m, a, b) && FatOnly(begin, size, m, b, c)
    ensures FatOnly(begin, size, m, a, c)
  {}

  /** Lays the next bytes over the FAT. */
  method Put(fat: DiskSlice, buf: seq<Byte>)
    requires fat.Valid() && fat.offset + |buf| <= fat.size
    modifies fat, fat.inner
    ensures fat.Valid() && fat.offset == old(fat.offset) + |buf|
    ensures fat.View() == Splice(old(fat.View()), old(fat.offset), buf)
    ensures FatOnly(fat.begin, fat.size, fat.mirrors, old(fat.inner.bytes), fat.inner.bytes)
  {
    hide Splice, SlotStart, FatOnly, Mirrored;
    MirroredIsFatOnly(fat.begin, fat.size, fat.mirrors, fat.inner.bytes, fat.offset, buf);
    var ok := fat.WriteAll(buf);
    assert buf[..|buf|] == buf;
  }

  method WriteIdentity(fat: DiskSlice, t: FatType, media: Byte)
    requires fat.Valid() && fat.offset == 0 && |Identity(t, media)| <= fat.size
    modifies fat, fat.inner
    ensures fat.Valid() && fat.View() == Splice(old(fat.View()), 0, Identity(t, media))
    ensures FatOnly(fat.begin, fat.size, fat.mirrors, old(fat.inner.bytes), fat.inner.bytes)
  {
    hide Splice, FatOnly, Le16, Le32, SlotStart, Flat;
    var first := match t
      case Fat12 => [media]
      case Fat16 => Le16(0xFF00 + media as int)
      case Fat32 => Le32(0x0FFF_FF00 + media as int);
    var second := if t == Fat32 then Le32(0xFFFF_FFFF) else Le16(0xFFFF);
    Put(fat, first);
    ghost var between := fat.inner.bytes;
    Put(fat, second);
    SpliceTwice(old(fat.View()), 0, first, second);
    FatOnlyTwice(fat.begin, fat.size, fat.mirrors, old(fat.inner.bytes), between, fat.inner.bytes);
  }

  lemma FrontOfZeros(size: nat, front: seq<Byte>)
    requires |front| <= size
    ensures var r := Splice(Zeros(size), 0, front);
            r[..|front|] == front && forall i :: |front| <= i < size ==> r[i] == 0
  {}

  /** Stores a mark in one entry of every mirror. */
  method Mark(fat: DiskSlice, t: FatType, c: nat, v: FatValue, ghost n: nat, ghost media: Byte,
              ghost value: nat -> FatValue, ghost value': nat -> FatValue)
    requires fat.Valid() && c < 0x4000_0000 && RESERVED_FAT_ENTRIES <= c < n && Holds(t, c, fat.size)
    requires v.Bad? || v.EndOfChain?
    requires HasEntries(fat.View(), t, n, value) && HasIdentity(fat.View(), t, media)
    requires forall d: nat :: value'(d) == if d == c then v else value(d)
    modifies fat, fat.inner
    ensures fat.Valid() && HasEntries(fat.View(), t, n, value') && HasIdentity(fat.View(), t, media)
    ensures FatOnly(fat.begin, fat.size, fat.mirrors, old(fat.inner.bytes), fat.inner.bytes)
  {
    hide HasEntries, HasIdentity, SlotStart, FatOnly, Mirrored, Packed, SetRaw, Encode;
    StoredMark(fat.View(), t, n, c, v, media, value, value');
    MirroredIsFatOnly(fat.begin, fat.size, fat.mirrors, fat.inner.bytes, EntryOffset(t, c),
                      Packed(fat.View(), t, c, Encode(t, v)));
    var ok := WriteFat(fat, t, c, v);
  }

  /** Formats a FAT that has been zeroed: every cluster is free, but for those numbered like marks; entries behind
      the last cluster are taken. */
  method FormatFat(fat: DiskSlice, t: FatType, media: Byte, totalClusters: nat)
    requires fat.Valid() && fat.offset == 0 && fat.View() == Zeros(fat.size)
    requires Holds(t, totalClusters + 1, fat.size) && EntryRoom(t, fat.size) <= 0x4000_0000
    modifies fat, fat.inner
    ensures fat.Valid() && FatOnly(fat.begin, fat.size, fat.mirrors, old(fat.inner.bytes), fat.inner.bytes)
    ensures HasIdentity(fat.View(), t, media)
    ensures HasEntries(fat.View(), t, EntryRoom(t, fat.size),
                       Marks(t, fat.size, totalClusters + RESERVED_FAT_ENTRIES))
  {
    hide HasEntries, HasIdentity, FatOnly, Splice, Zeros, Identity, Holds, EntryRoom, SlotStart, Flat;
    HeldHasRoom(t, totalClusters + 1, fat.size);
    EntryRoomHolds(t, fat.size, EntryRoom(t, fat.size) - 1);
    IdentityFits(t, totalClusters + 1, media, fat.size);
    WriteIdentity(fat, t, media);
    FrontOfZeros(fat.size, Identity(t, media));
    var start, end := totalClusters + RESERVED_FAT_ENTRIES, EntryRoom(t, fat.size);
    IdentityOnly(fat.View(), t, media, end);
    ghost var bytes := old(fat.inner.bytes);
    SameEntries(fat.View(), t, end, AllFree(), EndsUpTo(start, start));
    for i := start to end
      invariant fat.Valid() && FatOnly(fat.begin, fat.size, fat.mirrors, bytes, fat.inner.bytes)
      invariant HasIdentity(fat.View(), t, media)
      invariant HasEntries(fat.View(), t, end, EndsUpTo(start, i))
    {
      ghost var before := fat.inner.bytes;
      EntryRoomHolds(t, fat.size, i);
      Mark(fat, t, i, EndOfChain, end, media, EndsUpTo(start, i),
           EndsUpTo(start, i + 1));
      FatOnlyTwice(fat.begin, fat.size, fat.mirrors, bytes, before, fat.inner.bytes);
    }
    MarkBad(fat, t, start, end, media, bytes);
  }

  lemma IdentityFits(t: FatType, c: nat, media: Byte, size: nat)
    requires Holds(t, c, size) && c > 0
    ensures |Identity(t, media)| <= size
  {}

  lemma SameEntries(fat: seq<Byte>, t: FatType, n: nat, value: nat -> FatValue, value': nat -> FatValue)
    requires HasEntries(fat, t, n, value) && forall c: nat :: RESERVED_FAT_ENTRIES <= c < n ==> value'(c) == value(c)
    ensures HasEntries(fat, t, n, value')
  {}

  /** The numbers just below and among the marks are no clusters, where a FAT has entries for them. */
  method MarkBad(fat: DiskSlice, t: FatType, start: nat, end: nat, ghost media: Byte, ghost bytes: seq<Byte>)
    requires fat.Valid() && FatOnly(fat.begin, fat.size, fat.mirrors, bytes, fat.inner.bytes)
    requires HasIdentity(fat.View(), t, media) && end == EntryRoom(t, fat.size) <= 0x4000_0000 && start <= end
    requires HasEntries(fat.View(), t, end, EndsUpTo(start, end))
    modifies fat, fat.inner
    ensures fat.Valid() && FatOnly(fat.begin, fat.size, fat.mirrors, bytes, fat.inner.bytes)
    ensures HasIdentity(fat.View(), t, media)
    ensures HasEntries(fat.View(), t, end, Marks(t, fat.size, start))
  {
    hide HasEntries, HasIdentity, FatOnly, EntryRoom, SlotStart, Flat, Holds;
    if end > BAD_START {
      SameEntries(fat.View(), t, end, EndsUpTo(start, end),
                  BadUpTo(start, BAD_START));
      for i := BAD_START to Min(BAD_END, end)
        invariant fat.Valid() && FatOnly(fat.begin, fat.size, fat.mirrors, bytes, fat.inner.bytes)
        invariant HasIdentity(fat.View(), t, media)
        invariant HasEntries(fat.View(), t, end,
                             BadUpTo(start, i))
      {
        ghost var before := fat.inner.bytes;
        EntryRoomHolds(t, fat.size, i);
        Mark(fat, t, i, Bad, end, media,
             BadUpTo(start, i),
             BadUpTo(start, i + 1));
        FatOnlyTwice(fat.begin, fat.size, fat.mirrors, bytes, before, fat.inner.bytes);
      }
      SameEntries(fat.View(), t, end,
                  BadUpTo(start, Min(BAD_END, end)),
                  Marks(t, fat.size, start));
    } else {
      SameEntries(fat.View(), t, end, EndsUpTo(start, end),
                  Marks(t, fat.size, start));
    }
  }

  // ----- the volume

  /** Overwrites with zeros, at most 512 bytes at a time. */
  method WriteZeros(storage: BlkStorage, len: nat)
    requires storage.Valid() && storage.pos + len <= |storage.bytes|
    modifies storage
    ensures storage.Valid() && storage.pos == old(storage.pos) + len
    ensures storage.bytes == Splice(old(storage.bytes), old(storage.pos), Zeros(len))
  {
    hide Splice, Flat;
    var left, done := len, 0;
    SpliceNothing(storage.bytes, storage.pos);
    assert Zeros(0) == [];
    while left > 0
      invariant storage.Valid() && done + left == len && storage.pos == old(storage.pos) + done
      invariant storage.bytes == Splice(old(storage.bytes), old(storage.pos), Zeros(done))
      decreases left
    {
      var n := Min(left, BLOCK);
      SpliceTwice(old(storage.bytes), old(storage.pos), Zeros(done), Zeros(n));
      assert Zeros(done) + Zeros(n) == Zeros(done + n);
      storage.Write(Zeros(n));
      left, done := left - n, done + n;
    }
  }

  /** The FATs of a volume agree, and their entries stand for `value`. */
  ghost predicate FatReady(l: Layout, bytes: seq<Byte>, media: Byte, value: nat -> FatValue)
    requires l.Ok()
  {
    && l.dataStart <= |bytes| && MirrorsAgree(bytes, l.fatBegin, l.fatSize, l.mirrors)
    && var fat := bytes[l.fatBegin..l.fatBegin + l.fatSize];
       HasIdentity(fat, l.fatType, media) && HasEntries(fat, l.fatType, EntryRoom(l.fatType, l.fatSize), value)
  }

  /** Where the root directory's region begins: behind the FATs. */
  function RootStart(l: Layout): nat {
    SlotStart(l.fatBegin, l.fatSize, l.mirrors)
  }

  lemma FatReadyFrame(l: Layout, bytes: seq<Byte>, media: Byte, value: nat -> FatValue, at: nat, buf: seq<Byte>)
    requires l.Ok() && FatReady(l, bytes, media, value) && RootStart(l) <= at && at + |buf| <= |bytes|
    ensures FatReady(l, Splice(bytes, at, buf), media, value)
  {
    hide Splice, SlotStart, HasIdentity, HasEntries, MirrorsAgree, Holds, EntryRoom;
    SpliceElsewhere(bytes, at, buf, l.fatBegin, l.fatBegin + l.fatSize);
    MirrorsFrame(bytes, Splice(bytes, at, buf), l.fatBegin, l.fatSize, l.mirrors, at, buf);
  }

  /** Mirrors in a zeroed region agree. */
  lemma ZeroedMirrors(bytes: seq<Byte>, begin: nat, size: nat, m: nat)
    requires m > 0 && SlotStart(begin, size, m) <= |bytes|
    requires forall i :: begin <= i < SlotStart(begin, size, m) ==> bytes[i] == 0
    ensures MirrorsAgree(bytes, begin, size, m) && begin + size <= |bytes| && bytes[begin..begin + size] == Zeros(size)
  {
    hide SlotStart;
    SlotOrder(begin, size, 0, m);
    forall i: nat | i < m && SlotStart(begin, size, i) + size <= |bytes|
      ensures Mirror(bytes, begin, size, i) == Mirror(bytes, begin, size, 0)
    {
      SlotOrder(begin, size, i, m);
      assert Mirror(bytes, begin, size, i) == Zeros(size) && Mirror(bytes, begin, size, 0) == Zeros(size);
    }
    assert bytes[begin..begin + size] == Zeros(size);
  }

  /** Zeroes and formats the FATs; everything before and behind them stays. */
  method FormatFats(storage: BlkStorage, l: Layout, media: Byte)
    requires storage.Valid() && l.Ok() && l.dataStart <= |storage.bytes|
    requires EntryRoom(l.fatType, l.fatSize) <= 0x4000_0000
    modifies storage
    ensures storage.Valid() && |storage.bytes| == |old(storage.bytes)|
    ensures FatReady(l, storage.bytes, media, Marks(l.fatType, l.fatSize, l.Entries()))
    ensures storage.bytes[..l.fatBegin] == old(storage.bytes)[..l.fatBegin]
    ensures storage.bytes[RootStart(l)..] == old(storage.bytes)[RootStart(l)..]
  {
    hide Splice, Flat, HasEntries, HasIdentity, MirrorsAgree, EntryRoom, Marks, Holds, FromClusters;
    ghost var bytes := storage.bytes;
    storage.SeekStart(l.fatBegin);
    WriteZeros(storage, RootStart(l) - l.fatBegin);
    ZeroedRegion(bytes, l.fatBegin, RootStart(l));
    ZeroedMirrors(storage.bytes, l.fatBegin, l.fatSize, l.mirrors);
    var fat := new DiskSlice(l.fatBegin, l.fatSize, l.mirrors, storage);
    FormatFat(fat, l.fatType, media, l.totalClusters);
  }

  lemma ZeroedRegion(bytes: seq<Byte>, lo: nat, hi: nat)
    requires lo <= hi <= |bytes|
    ensures var r := Splice(bytes, lo, Zeros(hi - lo));
            && (forall i :: lo <= i < hi ==> r[i] == 0) && r[..lo] == bytes[..lo] && r[hi..] == bytes[hi..]
  {}

  /** The root directory takes the first cluster of a FAT32 volume. */
  function WithRoot(t: FatType, value: nat -> FatValue): nat -> FatValue {
    (c: nat) => if t == Fat32 && c == RESERVED_FAT_ENTRIES then EndOfChain else value(c)
  }

  /** A formatted volume: its FATs, and its root directory, the region behind the FATs or the first cluster, are
      empty. */
  ghost predicate IsFormatted(l: Layout, bytes: seq<Byte>, media: Byte)
    requires l.Ok()
  {
    && FatReady(l, bytes, media, WithRoot(l.fatType, Marks(l.fatType, l.fatSize, l.Entries())))
    && bytes[RootStart(l)..l.dataStart] == Zeros(l.dataStart - RootStart(l))
    && (l.fatType == Fat32 ==>
          && l.dataStart + l.clusterSize <= |bytes|
          && bytes[l.dataStart..l.dataStart + l.clusterSize] == Zeros(l.clusterSize))
  }

  /** Takes the first cluster for the root directory: the search, which looks at that one only, finds it. */
  method AllocRoot(storage: BlkStorage, l: Layout, ghost media: Byte, ghost value: nat -> FatValue)
    returns (c: Option<nat>)
    requires storage.Valid() && l.Ok() && l.fatType == Fat32 && FatReady(l, storage.bytes, media, value)
    requires value(RESERVED_FAT_ENTRIES) == Free
    modifies storage
    ensures storage.Valid() && c == Some(RESERVED_FAT_ENTRIES) && |storage.bytes| == |old(storage.bytes)|
    ensures FatReady(l, storage.bytes, media, WithRoot(l.fatType, value))
    ensures storage.bytes[RootStart(l)..] == old(storage.bytes)[RootStart(l)..]
    ensures storage.bytes[..l.fatBegin] == old(storage.bytes)[..l.fatBegin]
  {
    hide Flat, HasIdentity, MirrorsAgree, EntryRoom, Decode, GetRaw;
    HoldsBelow(l.fatType, l.totalClusters + 1, RESERVED_FAT_ENTRIES, l.fatSize);
    HeldHasRoom(l.fatType, RESERVED_FAT_ENTRIES, l.fatSize);
    var fat := new DiskSlice(l.fatBegin, l.fatSize, l.mirrors, storage);
    c := FindFreeWide(fat, l.fatType, RESERVED_FAT_ENTRIES, RESERVED_FAT_ENTRIES + 1);
    FirstIsFree(fat.View(), l.fatType, EntryRoom(l.fatType, l.fatSize), value, c);
    hide HasEntries;
    Mark(fat, l.fatType, c.value, EndOfChain, EntryRoom(l.fatType, l.fatSize), media, value,
         WithRoot(l.fatType, value));
  }

  lemma FirstIsFree(fat: seq<Byte>, t: FatType, n: nat, value: nat -> FatValue, c: Option<nat>)
    requires HasEntries(fat, t, n, value) && n > RESERVED_FAT_ENTRIES && value(RESERVED_FAT_ENTRIES) == Free
    requires FirstFree(fat, t, RESERVED_FAT_ENTRIES, RESERVED_FAT_ENTRIES + 1, c)
    ensures c == Some(RESERVED_FAT_ENTRIES)
  {
    assert Decode(t, GetRaw(fat, t, RESERVED_FAT_ENTRIES)) == Free;
  }

  /** Allocates and zeroes the root directory of a FAT32 volume. */
  method FormatRoot(storage: BlkStorage, l: Layout, ghost media: Byte, ghost value: nat -> FatValue)
    requires storage.Valid() && l.Ok() && l.fatType == Fat32 && FatReady(l, storage.bytes, media, value)
    requires value(RESERVED_FAT_ENTRIES) == Free && l.dataStart + l.clusterSize <= |storage.bytes|
    modifies storage
    ensures storage.Valid() && |storage.bytes| == |old(storage.bytes)|
    ensures FatReady(l, storage.bytes, media, WithRoot(l.fatType, value))
    ensures storage.bytes[RootStart(l)..l.dataStart] == old(storage.bytes)[RootStart(l)..l.dataStart]
    ensures storage.bytes[l.dataStart..l.dataStart + l.clusterSize] == Zeros(l.clusterSize)
    ensures storage.bytes[..l.fatBegin] == old(storage.bytes)[..l.fatBegin]
  {
    hide Splice, Flat, FatReady, SlotStart, Holds;
    ghost var before := storage.bytes;
    var c := AllocRoot(storage, l, media, value);
    ghost var bytes := storage.bytes;
    SameInside(before, bytes, RootStart(l), l.dataStart);
    storage.SeekStart(ClusterStart(l.dataStart, l.clusterSize, c.value));
    WriteZeros(storage, l.clusterSize);
    FatReadyFrame(l, bytes, media, WithRoot(l.fatType, value), l.dataStart, Zeros(l.clusterSize));
    ZeroedIs(bytes, l.fatBegin, RootStart(l), l.dataStart, l.dataStart + l.clusterSize);
  }

  lemma SameInside(a: seq<Byte>, b: seq<Byte>, lo: nat, hi: nat)
    requires |a| == |b| && lo <= hi <= |a| && b[lo..] == a[lo..]
    ensures b[lo..hi] == a[lo..hi]
  {
    assert a[lo..hi] == a[lo..][..hi - lo] && b[lo..hi] == b[lo..][..hi - lo];
  }

  lemma ZeroedIs(bytes: seq<Byte>, a: nat, b: nat, lo: nat, hi: nat)
    requires a <= b <= lo <= hi <= |bytes|
    ensures var r := Splice(bytes, lo, Zeros(hi - lo));
            r[lo..hi] == Zeros(hi - lo) && r[..a] == bytes[..a] && r[b..lo] == bytes[b..lo]
  {}

  lemma SameReady(l: Layout, bytes: seq<Byte>, media: Byte, value: nat -> FatValue, value': nat -> FatValue)
    requires l.Ok() && FatReady(l, bytes, media, value) && forall c: nat :: value'(c) == value(c)
    ensures FatReady(l, bytes, media, value')
  {
    hide MirrorsAgree, HasIdentity, HasEntries;
    SameEntries(bytes[l.fatBegin..l.fatBegin + l.fatSize], l.fatType, EntryRoom(l.fatType, l.fatSize), value, value');
  }

  /** Writes all of a volume that lies behind its reserved sectors. */
  method FormatRegions(storage: BlkStorage, l: Layout, media: Byte)
    requires storage.Valid() && l.Ok() && EntryRoom(l.fatType, l.fatSize) <= 0x4000_0000
    requires l.dataStart + l.clusterSize <= |storage.bytes|
    modifies storage
    ensures storage.Valid() && |storage.bytes| == |old(storage.bytes)| && IsFormatted(l, storage.bytes, media)
    ensures l.fatBegin <= |storage.bytes|
    ensures storage.bytes[..l.fatBegin] == old(storage.bytes)[..l.fatBegin]
  {
    hide Splice, Flat, FatReady, EntryRoom, SlotStart, Holds;
    FormatFats(storage, l, media);
    ghost var value := Marks(l.fatType, l.fatSize, l.Entries());
    ghost var bytes := storage.bytes;
    storage.SeekStart(RootStart(l));
    WriteZeros(storage, l.dataStart - RootStart(l));
    FatReadyFrame(l, bytes, media, value, RootStart(l), Zeros(l.dataStart - RootStart(l)));
    ZeroedIs(bytes, l.fatBegin, RootStart(l), RootStart(l), l.dataStart);
    if l.fatType == Fat32 {
      FormatRoot(storage, l, media, value);
    } else {
      SameReady(l, storage.bytes, media, value, WithRoot(l.fatType, value));
    }
  }

  // ----- the formatted volume is an empty one

  /** Mounting finds the clusters free, but for the root directory and for those numbered like marks. */
  lemma FormattedTable(l: Layout, bytes: seq<Byte>, media: Byte)
    requires l.Ok() && IsFormatted(l, bytes, media)
    ensures var value := WithRoot(l.fatType, Marks(l.fatType, l.fatSize, l.Entries()));
            var table := Table(bytes[l.fatBegin..l.fatBegin + l.fatSize], l.fatType, l.Entries());
            && LinksInRange(table) && forall c :: RESERVED_FAT_ENTRIES <= c < l.Entries() ==> table[c] == value(c)
  {
    hide GetRaw, Decode, MirrorsAgree, Holds, EntryRoom;
    HeldHasRoom(l.fatType, l.totalClusters + 1, l.fatSize);
  }

  lemma {:induction false} AllFreeCount(table: seq<FatValue>, taken: nat)
    requires |table| >= taken >= RESERVED_FAT_ENTRIES
    requires forall c :: RESERVED_FAT_ENTRIES <= c < |table| ==> (table[c] == Free <==> taken <= c)
    ensures FreeCount(table) == |table| - taken
    decreases |table|
  {
    if |table| > RESERVED_FAT_ENTRIES {
      var init := table[..|table| - 1];
      if |table| > taken {
        AllFreeCount(init, taken);
      } else {
        AllFreeCount(init, taken - 1);
      }
    }
  }

  /** Clusters that the root does not take are all free if and only if no cluster is numbered like a mark. */
  lemma FormattedFreeIff(l: Layout, bytes: seq<Byte>, media: Byte)
    requires l.Ok() && IsFormatted(l, bytes, media)
    ensures var table := Table(bytes[l.fatBegin..l.fatBegin + l.fatSize], l.fatType, l.Entries());
            var root := if l.fatType == Fat32 then 1 else 0;
            && (FreeCount(table) == l.totalClusters - root <==> l.Entries() <= BAD_START)
            && (l.fatType == Fat32 ==> IsChain(table, [RESERVED_FAT_ENTRIES]))
  {
    hide GetRaw, Decode, MirrorsAgree, Holds, Table, HasEntries, HasIdentity;
    FormattedTable(l, bytes, media);
    HeldHasRoom(l.fatType, l.totalClusters + 1, l.fatSize);
    var table := Table(bytes[l.fatBegin..l.fatBegin + l.fatSize], l.fatType, l.Entries());
    var root := if l.fatType == Fat32 then 1 else 0;
    if l.Entries() <= BAD_START {
      AllFreeCount(table, RESERVED_FAT_ENTRIES + root);
    } else {
      assert table[BAD_START] == Bad;
      FewerFree(table, RESERVED_FAT_ENTRIES + root, BAD_START);
    }
  }

  lemma {:induction false} FewerFree(table: seq<FatValue>, taken: nat, bad: nat)
    requires RESERVED_FAT_ENTRIES <= taken <= bad < |table| && table[bad] != Free
    requires forall c :: RESERVED_FAT_ENTRIES <= c < taken ==> table[c] != Free
    ensures FreeCount(table) < |table| - taken
    decreases |table|
  {
    var init := table[..|table| - 1];
    if bad < |table| - 1 {
      FewerFree(init, taken, bad);
    } else {
      AtMostFree(init, taken);
    }
  }

  lemma {:induction false} AtMostFree(table: seq<FatValue>, taken: nat)
    requires RESERVED_FAT_ENTRIES <= taken <= |table|
    requires forall c :: RESERVED_FAT_ENTRIES <= c < taken ==> table[c] != Free
    ensures FreeCount(table) <= |table| - taken
    decreases |table|
  {
    if |table| > RESERVED_FAT_ENTRIES {
      AtMostFree(table[..|table| - 1], if taken < |table| then taken else taken - 1);
    }
  }

  /** An empty volume: everything is free but the root directory, which is empty. */
  ghost predicate IsEmptyVolume(fs: FileSystem, root: nat)
    reads fs, fs.storage
  {
    && fs.Valid()
    && if fs.layout.fatType == Fat32 then
         && FreeCount(fs.table) == fs.layout.totalClusters - 1 && IsChain(fs.table, [root])
         && root < |fs.clusters| && fs.clusters[root] == Zeros(fs.layout.clusterSize)
       else
         var lo, hi := RootStart(fs.layout), fs.layout.dataStart;
         && FreeCount(fs.table) == fs.layout.totalClusters
         && lo <= hi <= |fs.storage.bytes| && fs.storage.bytes[lo..hi] == Zeros(hi - lo)
  }

  /** For FAT32, cluster `root` is a chain of its own and holds zeros. */
  ghost predicate HasEmptyRoot(l: Layout, bytes: seq<Byte>, root: nat)
    requires l.Ok()
  {
    l.fatType == Fat32 ==>
      && root >= RESERVED_FAT_ENTRIES && l.fatBegin + l.fatSize <= |bytes|
      && IsChain(Table(bytes[l.fatBegin..l.fatBegin + l.fatSize], l.fatType, l.Entries()), [root])
      && var at := SlotStart(l.dataStart, l.clusterSize, root - RESERVED_FAT_ENTRIES);
         at + l.clusterSize <= |bytes| && bytes[at..at + l.clusterSize] == Zeros(l.clusterSize)
  }

  lemma FormattedRoot(l: Layout, bytes: seq<Byte>, media: Byte, root: nat)
    requires l.Ok() && IsFormatted(l, bytes, media) && (l.fatType == Fat32 ==> root == RESERVED_FAT_ENTRIES)
    ensures HasEmptyRoot(l, bytes, root)
  {
    hide MirrorsAgree, Table, HasEntries, HasIdentity, EntryRoom, Marks;
    FormattedTable(l, bytes, media);
  }

  /** A formatted volume, once mounted, is an empty one. */
  lemma FormattedIsEmpty(fs: FileSystem, media: Byte, root: nat)
    requires fs.Valid() && fs.layout.Entries() <= BAD_START && IsFormatted(fs.layout, fs.storage.bytes, media)
    requires HasEmptyRoot(fs.layout, fs.storage.bytes, root)
    ensures IsEmptyVolume(fs, root)
  {
    hide LinksInRange, FreeCount, MirrorsAgree, Table, HasEntries, HasIdentity, EntryRoom, Marks, WithRoot;
    hide Flat, SlotStart, Holds, FromClusters, Divided;
    var l := fs.layout;
    FormattedFreeIff(l, fs.storage.bytes, media);
    if l.fatType == Fat32 {
      ClusterAt(fs.storage.bytes, l.dataStart, l.clusterSize, fs.clusters, root);
    }
  }
}
