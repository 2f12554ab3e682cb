/** Operations on a directory (deps/rust-fatfs/src/dir.rs): iterating over it, finding an entry or a short name
    for a new one, and storing that. Each starts from a copy of the directory's stream at its first slot. */
module Dirs {
  import opened Wrappers
  import opened FatTypes
  import opened FatFiles
  import opened LongNames
  import opened ShortNames
  import opened Directories
  import opened DirStreams

  class DirIter {
    const stream: DirRawStream
    const skipVolume: bool

    constructor (stream: DirRawStream, skipVolume: bool)
      ensures this.stream == stream && this.skipVolume == skipVolume
    {
      this.stream, this.skipVolume := stream, skipVolume;
    }

    /** The next short entry, with the long name the slots before it spell. */
    method ReadDirEntry() returns (r: Option<Found>)
      requires stream.Valid() && stream.Short() && stream.at <= |stream.slots|
      modifies stream`at, stream.Footprint()
      ensures stream.Valid() && stream.HasEntry() == old(stream.HasEntry())
      ensures IsNext(stream.slots, old(stream.at), skipVolume, r) && (r.Some? ==> stream.at == r.value.end)
    {
      hide DirRawStream.Valid, NextOf, IsEnd, Collected;
      ghost var slots, from := stream.slots, stream.at;
      var begin := stream.SlotNumber();
      var at := begin;
      var builder := NewBuilder(slots, from, skipVolume);
      while true
        invariant fresh(builder) && stream.Valid() && stream.HasEntry() == old(stream.HasEntry()) && stream.at == at
        invariant at <= |slots| && Collected(builder, slots, from, begin, at, skipVolume)
        decreases |slots| - at
      {
        var next := stream.ReadSlot();
        if next.None? || IsEnd(next.value) {
          CollectedAll(builder, slots, from, begin, at, skipVolume);
          return None;
        }
        var found;
        begin, found := Collect(builder, next.value, begin, at, skipVolume, slots, from);
        if found.Some? {
          return found;
        }
        at := at + 1;
      }
    }
  }

  /** The slots so far were passed over, and the builder holds the run they end in. */
  ghost predicate Collected(builder: LongNameBuilder, slots: seq<Slot>, from: nat, begin: nat, at: nat,
                            skipVolume: bool)
    reads builder
  {
    && builder.Valid() && begin <= at <= |slots| && Walked(slots, from, begin, at, skipVolume)
    && builder.run == RunAfter(Decoded(slots[begin..at]))
  }

  lemma CollectedAll(builder: LongNameBuilder, slots: seq<Slot>, from: nat, begin: nat, at: nat, skipVolume: bool)
    requires Collected(builder, slots, from, begin, at, skipVolume) && (at == |slots| || IsEnd(slots[at]))
    ensures from <= |slots| && NextOf(slots, from, skipVolume) == None
  {
    WalkedIsNext(slots, from, begin, at, skipVolume);
  }

  method NewBuilder(ghost slots: seq<Slot>, ghost from: nat, skipVolume: bool) returns (builder: LongNameBuilder)
    requires from <= |slots|
    ensures fresh(builder) && Collected(builder, slots, from, from, from, skipVolume)
  {
    WalkedNone(slots, from, skipVolume);
    NoRun(slots, from);
    builder := new LongNameBuilder();
  }

  /** Takes one slot that is not the end: passes over it, or returns the entry it completes. */
  method Collect(builder: LongNameBuilder, slot: Slot, begin: nat, at: nat, skipVolume: bool, ghost slots: seq<Slot>,
                 ghost from: nat)
    returns (begin': nat, r: Option<Found>)
    requires Collected(builder, slots, from, begin, at, skipVolume) && at < |slots| && slot == slots[at] && !IsEnd(slot)
    modifies builder
    ensures from <= |slots| && begin' <= at + 1
    ensures r.None? ==> Collected(builder, slots, from, begin', at + 1, skipVolume)
    ensures r.Some? ==> r == NextOf(slots, from, skipVolume) && r.value.end == at + 1
  {
    hide Deserialize, NameOf, ChecksumOf, LongNames.IsRun, Extend, IsLfnSlot, Walked, Skipped, Decoded, RunAfter;
    hide LongNameBuilder.Valid, NextOf, EntryAt, IsEnd;
    WalkedBounds(slots, from, begin, at, skipVolume);
    begin', r := begin, None;
    if Skipped(slot, skipVolume) {
      builder.Clear();
      WalkedSkip(slots, from, begin, at, skipVolume);
      begin' := at + 1;
      NoRun(slots, begin');
    } else if IsLfnSlot(slot) {
      RunOneMore(slots, begin, at);
      WalkedPast(slots, from, begin, at, skipVolume);
      builder.Process(Deserialize(slot));
    } else {
      WalkedIsNext(slots, from, begin, at, skipVolume);
      var longName := FinishName(builder, slot[..SFN_SIZE], Decoded(slots[begin..at]));
      IsEntryAt(slots, begin, at, longName);
      r := Some(Found(slot[..SFN_SIZE], IsDirectory(slot), longName, begin, at + 1));
    }
  }

  lemma WalkedBounds(slots: seq<Slot>, from: nat, begin: nat, at: nat, skipVolume: bool)
    requires Walked(slots, from, begin, at, skipVolume)
    ensures from <= begin <= at <= |slots|
  {}

  lemma IsEntryAt(slots: seq<Slot>, begin: nat, at: nat, longName: seq<Unit>)
    requires begin <= at < |slots| && longName == NameOf(Decoded(slots[begin..at]), ChecksumOf(slots[at][..SFN_SIZE]))
    ensures EntryAt(slots, begin, at) == Found(slots[at][..SFN_SIZE], IsDirectory(slots[at]), longName, begin, at + 1)
  {}

  method FinishName(builder: LongNameBuilder, shortName: seq<Byte>, ghost es: seq<Lfn>) returns (name: seq<Unit>)
    requires builder.Valid() && builder.run == RunAfter(es)
    modifies builder
    ensures name == NameOf(es, ChecksumOf(shortName))
  {
    hide RunAfter, ChecksumOf;
    builder.ValidateChksum(shortName);
    name := builder.IntoBuf();
  }

  // ----- storing an entry

  /** Finds room for `num` slots, as early as possible, and goes there. */
  method FindFreeEntries(stream: DirRawStream, num: nat) returns (ghost start: nat)
    requires stream.Valid() && stream.Short() && stream.at == 0 && num > 0
    modifies stream`at, stream.Footprint()
    ensures stream.Valid() && stream.HasEntry() == old(stream.HasEntry()) && stream.at == start
    ensures IsFirstRoom(stream.slots, start, num)
  {
    hide DirRawStream.Valid, IsEnd, IsDeleted;
    var firstFree, numFree, i := 0, 0, 0;
    while true
      invariant stream.Valid() && stream.HasEntry() == old(stream.HasEntry()) && stream.at == i <= |stream.slots|
      invariant numFree < num && Reached(stream.slots, i)
      invariant numFree <= i && AllDeleted(stream.slots, i - numFree, i) && (numFree > 0 ==> firstFree == i - numFree)
      invariant i > numFree ==> !IsDeleted(stream.slots[i - numFree - 1])
      invariant forall s: nat :: s < i - numFree ==> !RowAt(stream.slots, s, num)
      decreases |stream.slots| - i
    {
      var next := stream.ReadSlot();
      if next.None? || IsEnd(next.value) {
        if numFree == 0 {
          firstFree := i;
        }
        assert AllDeleted(stream.slots, firstFree, i);
        break;
      } else if IsDeleted(next.value) {
        if numFree == 0 {
          firstFree := i;
        }
        numFree := numFree + 1;
        if numFree == num {
          break;
        }
      } else {
        numFree := 0;
      }
      i := i + 1;
    }
    NoRoomBefore(stream.slots, firstFree, num);
    stream.SeekSlot(firstFree);
    start := firstFree;
  }

  datatype DirError = BadName(name: NameError) | NoRoom(cause: FileError) | WrongKind

  ghost predicate SameListing(before: seq<Slot>, after: seq<Slot>) {
    Listing(after, 0, true) == Listing(before, 0, true)
  }

  /** Where the entries of a name go: into the first room there is, and the row does not grow if that holds them. */
  ghost predicate IsPlace(before: seq<Slot>, added: seq<Slot>, start: nat, units: seq<Unit>, es: seq<Lfn>,
                          short: Slot) {
    && AreEntriesOf(es, units, short) && IsFirstRoom(before, start, |es| + 1)
    && (start + |es| + 1 <= |before| ==> added == [])
  }

  /** Stores a long name and its short entry. Refused exactly for names that are not acceptable and, with the
      listing as it was, when the directory cannot come to hold them; every slot in use is kept. */
  method WriteEntry(stream: DirRawStream, name: string, short: Slot)
    returns (r: Result<(), DirError>, ghost start: nat, ghost added: seq<Slot>, ghost es: seq<Lfn>)
    requires stream.Valid() && stream.Short() && stream.at == 0 && IsShortEntry(short, true)
    modifies stream, stream.Footprint()
    ensures stream.Valid() && stream.limit == old(stream.limit) && stream.HasEntry() == old(stream.HasEntry())
    ensures r.Err? && r.error.BadName? <==> !IsLongName(name)
    ensures r.Err? ==> SameListing(old(stream.slots), stream.slots)
    ensures r.Ok? ==> IsStoring(old(stream.slots), added, start, Utf16(name), es, short, stream.slots)
    ensures IsLongName(name) ==>
              && IsPlace(old(stream.slots), added, start, Utf16(name), es, short)
              && (r.Ok? <==> HasRoom(old(stream.slots), NumParts(Utf16(name)) + 1, stream.limit))
    ensures Kept(old(stream.slots), stream.slots)
    ensures Clean(old(stream.slots)) && (r.Err? || added == [] || stream.kind.OfRoot? || stream.HasEntry()) ==>
              Clean(stream.slots) && (r.Ok? ==> Harmless(old(stream.slots), added, start, |es| + 1))
    ensures stream.kind.OfRoot? ==> added == []
    ensures stream.kind.OfFile? && IsLongName(name) ==>
              && IsGrowth(old(stream.volume), stream.volume, stream.HasEntry(), added)
              && VolumeKept(old(stream.volume), stream.volume)
    ensures !IsLongName(name) ==> stream.slots == old(stream.slots) && stream.volume == old(stream.volume)
  {
    hide DirRawStream.Valid, IsLongName, Utf16, Listing, HasRoom, Kept, IsStoring, Harmless, IsShortEntry, IsGrowth;
    hide Clean, IsPlace, AreEntriesOf;
    NothingLost(stream.slots);
    hide NumParts, EntriesOf, ChecksumOf, AreSlotsOf, VolumeKept;
    start, added, es := 0, [], [];
    var bad := ValidateLongName(name);
    if bad.Some? {
      return Err(BadName(bad.value)), start, added, es;
    }
    var sum := LfnChecksum(short[..SFN_SIZE]);
    var units := Utf16(name);
    var lfn := WriteLfnEntries(units, sum);
    es := EntriesOf(units, sum, NumParts(units));
    EntriesAre(es, units, short, sum);
    AreSlotsSize(lfn, es);
    r, start, added := PutEntry(stream, lfn, units, es, short);
  }

  /** Puts the slots of a name into the first room. */
  method PutEntry(stream: DirRawStream, lfn: seq<Slot>, ghost units: seq<Unit>, ghost es: seq<Lfn>, short: Slot)
    returns (r: Result<(), DirError>, ghost start: nat, ghost added: seq<Slot>)
    requires stream.Valid() && stream.Short() && stream.at == 0 && IsShortEntry(short, true)
    requires AreEntriesOf(es, units, short) && AreSlotsOf(lfn, es) && |lfn| + 1 <= MAX_ENTRY_SLOTS
    modifies stream, stream.Footprint()
    ensures stream.Valid() && stream.limit == old(stream.limit) && stream.HasEntry() == old(stream.HasEntry())
    ensures r.Err? ==> r.error.NoRoom? && SameListing(old(stream.slots), stream.slots)
    ensures r.Ok? ==> IsStoring(old(stream.slots), added, start, units, es, short, stream.slots)
    ensures IsPlace(old(stream.slots), added, start, units, es, short)
    ensures r.Ok? <==> HasRoom(old(stream.slots), |lfn| + 1, stream.limit)
    ensures Kept(old(stream.slots), stream.slots)
    ensures Clean(old(stream.slots)) && (r.Err? || added == [] || stream.kind.OfRoot? || stream.HasEntry()) ==>
              Clean(stream.slots) && (r.Ok? ==> Harmless(old(stream.slots), added, start, |es| + 1))
    ensures stream.kind.OfRoot? ==> added == []
    ensures stream.kind.OfFile? ==>
              && IsGrowth(old(stream.volume), stream.volume, stream.HasEntry(), added)
              && VolumeKept(old(stream.volume), stream.volume)
  {
    hide DirRawStream.Valid, Listing, IsRoom, HasRoom, Kept, IsStoring, Harmless, IsShortEntry, IsPut, IsGrowth;
    hide Clean, IsPlace, IsFirstRoom, AreEntriesOf, AreSlotsOf, VolumeKept;
    AreSlotsSize(lfn, es);
    var more := lfn + [short];
    start := FindFreeEntries(stream, |lfn| + 1);
    FirstRoomDecides(stream.slots, start, |lfn| + 1, stream.limit);
    FirstIsRoom(stream.slots, start, |lfn| + 1);
    stream.WithinLimit();
    var written;
    ghost var n;
    written, n, added := stream.WriteSlots(more);
    EntryWritten(old(stream.slots), added, start, lfn, es, short, n, stream.slots);
    PutHarmless(stream.kind, old(stream.volume), stream.volume, stream.HasEntry(), old(stream.slots), added, start,
                |lfn| + 1, more[..n], stream.slots);
    PlaceIs(old(stream.slots), added, start, units, es, short);
    if written.Err? {
      FailedWrite(old(stream.slots), added, start, lfn, es, short, n, stream.slots);
      return Err(NoRoom(written.error)), start, added;
    }
    assert more[..n] == more;
    StoringIs(old(stream.slots), added, start, units, lfn, es, short, stream.slots);
    r := Ok(());
  }

  lemma EntriesAre(es: seq<Lfn>, units: seq<Unit>, short: Slot, sum: Byte)
    requires 1 <= |units| <= MAX_LONG_NAME_LEN && sum == ChecksumOf(short[..SFN_SIZE])
    requires NumParts(units) <= MAX_LONG_DIR_ENTRIES && es == EntriesOf(units, sum, NumParts(units))
    ensures AreEntriesOf(es, units, short)
  {
    hide EntriesOf, ChecksumOf;
  }

  lemma FirstIsRoom(slots: seq<Slot>, start: nat, num: nat)
    requires IsFirstRoom(slots, start, num)
    ensures IsRoom(slots, start, num) && start <= |slots|
  {}

  lemma PlaceIs(before: seq<Slot>, added: seq<Slot>, start: nat, units: seq<Unit>, es: seq<Lfn>, short: Slot)
    requires AreEntriesOf(es, units, short) && IsFirstRoom(before, start, |es| + 1)
    requires start + |es| + 1 <= |before| ==> added == []
    ensures IsPlace(before, added, start, units, es, short)
  {
    hide AreEntriesOf, IsFirstRoom;
  }

  lemma NothingLost(slots: seq<Slot>)
    ensures Kept(slots, slots)
  {}

  lemma EntryWritten(before: seq<Slot>, added: seq<Slot>, start: nat, lfn: seq<Slot>, es: seq<Lfn>, short: Slot, n: nat,
                     after: seq<Slot>)
    requires AreSlotsOf(lfn, es) && IsShortEntry(short, true) && n <= |lfn| + 1 && IsRoom(before, start, |lfn| + 1)
    requires IsPut(before, added, start, (lfn + [short])[..n], after)
    ensures Kept(before, after) && AllUsed((lfn + [short])[..n])
    ensures start + |lfn| + 1 <= |before| ==> added == []
  {
    hide AreSlotsOf, IsRoom, Kept;
    AreSlotsSize(lfn, es);
    ShortIsUsed(lfn, short);
    RoomKeeps(before, added, start, |lfn| + 1, (lfn + [short])[..n], after);
  }

  lemma FailedWrite(before: seq<Slot>, added: seq<Slot>, start: nat, lfn: seq<Slot>, es: seq<Lfn>, short: Slot, n: nat,
                    after: seq<Slot>)
    requires AreSlotsOf(lfn, es) && n <= |lfn| && IsRoom(before, start, |lfn| + 1) && |before| < start + |lfn| + 1
    requires IsPut(before, added, start, (lfn + [short])[..n], after) && |after| == start + n
    ensures SameListing(before, after)
  {
    hide IsRoom, IsPut, Listing, IsLfnSlot, Deserialize;
    assert (lfn + [short])[..n] == lfn[..n];
    FailedListingIs(before, added, start, |lfn| + 1, lfn[..n], es[..n], after);
  }

  /** The fixed root does not grow, and what a directory with an entry grows by is zeroed: a clean directory
      stays clean, and nothing but the new slots comes into use. So it is if it does not grow or is filled up. */
  lemma PutHarmless(kind: StreamKind, volume: Volume, volume': Volume, zero: bool, before: seq<Slot>, added: seq<Slot>,
                    start: nat, num: nat, more: seq<Slot>, after: seq<Slot>)
    requires IsRoom(before, start, num) && AllUsed(more) && IsPut(before, added, start, more, after)
    requires kind.OfRoot? ==> added == []
    requires kind.OfFile? ==> IsGrowth(volume, volume', zero, added)
    ensures Clean(before) && (added == [] || kind.OfRoot? || zero) ==>
              Clean(after) && (|more| == num ==> Harmless(before, added, start, num))
    ensures Clean(before) && |after| == start + |more| ==> Clean(after)
  {
    hide IsGrowth, Clean, Quiet, Harmless, AllUsed;
    if Clean(before) && |after| == start + |more| {
      PutKeepsClean(before, added, start, more, after);
    }
    if Clean(before) && (added == [] || kind.OfRoot? || zero) {
      if added != [] {
        ZeroedIsEnd(volume, volume', added);
      }
      PutKeepsClean(before, added, start, more, after);
      if |more| == num {
        if added == [] {
          CleanIsHarmless(before, start, num);
        } else {
          EndsAreHarmless(before, added, start, num);
        }
      }
    }
  }

  // ----- looking a name up

  ghost predicate HasShortNames(listing: seq<Found>) {
    forall i :: 0 <= i < |listing| ==> |listing[i].shortName| == SFN_SIZE
  }

  ghost function NamesOf(listing: seq<Found>): (r: seq<Sfn>)
    requires HasShortNames(listing)
    ensures |r| == |listing| && forall i :: 0 <= i < |listing| ==> r[i] == listing[i].shortName
  {
    if listing == [] then [] else NamesOf(listing[..|listing| - 1]) + [listing[|listing| - 1].shortName]
  }

  datatype Lookup = Existing(found: Found) | Mismatch | Missing

  /** The first entry of that name, if it is of the kind wanted. */
  ghost predicate IsLookup(listing: seq<Found>, same: Found -> bool, isDir: Option<bool>, r: Lookup) {
    if r.Missing? then forall i :: 0 <= i < |listing| ==> !same(listing[i])
    else
      exists k :: 0 <= k < |listing| && same(listing[k]) && (forall i :: 0 <= i < k ==> !same(listing[i]))
                  && (r.Mismatch? <==> isDir.Some? && listing[k].isDir != isDir.value)
                  && (r.Existing? ==> r.found == listing[k])
  }

  /** The entries before the reader, and then the ones it will read, are the listing. */
  ghost predicate IsReadUpTo(slots: seq<Slot>, done: seq<Found>, at: nat) {
    && at <= |slots| && HasShortNames(done) && Listing(slots, 0, true) == done + Listing(slots, at, true)
  }

  lemma ReadOneMore(slots: seq<Slot>, done: seq<Found>, at: nat, r: Option<Found>)
    requires IsReadUpTo(slots, done, at) && IsNext(slots, at, true, r)
    ensures r.None? ==> Listing(slots, 0, true) == done
    ensures r.Some? ==> IsReadUpTo(slots, done + [r.value], r.value.end) && at < r.value.end <= |slots|
    ensures r.Some? ==> |r.value.shortName| == SFN_SIZE
  {
    hide NextOf;
    if r.Some? {
      var tail := Listing(slots, r.value.end, true);
      assert done + ([r.value] + tail) == done + [r.value] + tail;
    }
  }

  lemma NamesOne(done: seq<Found>, f: Found)
    requires HasShortNames(done) && |f.shortName| == SFN_SIZE
    ensures HasShortNames(done + [f]) && NamesOf(done + [f]) == NamesOf(done) + [f.shortName]
  {
    assert (done + [f])[..|done|] == done;
  }

  /** One pass over the directory, from its start. */
  method FindEntry(stream: DirRawStream, gen: ShortNameGenerator, isDir: Option<bool>, same: Found -> bool)
    returns (r: Lookup)
    requires stream.Valid() && stream.Short() && gen.Valid() && gen.seen == [] && gen !in stream.Footprint()
    modifies stream`at, stream.Footprint(), gen`exactMatch, gen`longPrefixBitmap, gen`prefixChksumBitmap, gen`seen
    ensures stream.Valid() && stream.HasEntry() == old(stream.HasEntry()) && gen.Valid()
    ensures IsLookup(Listing(stream.slots, 0, true), same, isDir, r)
    ensures r.Missing? ==> gen.seen == NamesOf(Listing(stream.slots, 0, true))
    ensures r.Missing? && gen.exactMatch ==>
              old(gen.exactMatch) || IsListed(Listing(stream.slots, 0, true), gen.shortName)
  {
    hide DirRawStream.Valid, ShortNameGenerator.Valid, NextOf, Listing, NamesOf, IsReadUpTo, IsLookup, IsListed, IsNext;
    ghost var slots := stream.slots;
    stream.SeekSlot(0);
    var iter := new DirIter(stream, true);
    ghost var done: seq<Found> := [];
    NothingRead(slots);
    while true
      invariant stream.Valid() && stream.HasEntry() == old(stream.HasEntry()) && gen.Valid() && iter.stream == stream
                && iter.skipVolume
      invariant HasShortNames(done) && IsReadUpTo(slots, done, stream.at) && stream.at <= |slots|
      invariant gen.seen == NamesOf(done) && forall i :: 0 <= i < |done| ==> !same(done[i])
      invariant gen.exactMatch ==> old(gen.exactMatch) || IsListed(done, gen.shortName)
      decreases |slots| - stream.at
    {
      ghost var at := stream.at;
      var next := iter.ReadDirEntry();
      ReadOneMore(slots, done, at, next);
      if next.None? {
        NoneSame(done, same, isDir);
        return Missing;
      }
      var f := next.value;
      if same(f) {
        FirstSame(slots, done, f, stream.at, same, isDir);
        return if isDir.Some? && f.isDir != isDir.value then Mismatch else Existing(f);
      }
      NamesOne(done, f);
      ListedOne(done, f);
      gen.AddExisting(f.shortName);
      done := done + [f];
    }
  }

  ghost predicate IsListed(listing: seq<Found>, shortName: seq<Byte>) {
    exists i :: 0 <= i < |listing| && listing[i].shortName == shortName
  }

  lemma ListedOne(done: seq<Found>, f: Found)
    ensures IsListed(done + [f], f.shortName)
    ensures forall name :: IsListed(done, name) ==> IsListed(done + [f], name)
  {
    assert (done + [f])[|done|] == f;
    forall name | IsListed(done, name) ensures IsListed(done + [f], name) {
      var i :| 0 <= i < |done| && done[i].shortName == name;
      assert (done + [f])[i] == done[i];
    }
  }

  lemma NoneSame(listing: seq<Found>, same: Found -> bool, isDir: Option<bool>)
    requires forall i :: 0 <= i < |listing| ==> !same(listing[i])
    ensures IsLookup(listing, same, isDir, Missing)
  {}

  lemma NothingRead(slots: seq<Slot>)
    ensures IsReadUpTo(slots, [], 0) && NamesOf([]) == []
  {
    hide Listing;
    assert [] + Listing(slots, 0, true) == Listing(slots, 0, true);
  }

  lemma FirstSame(slots: seq<Slot>, done: seq<Found>, f: Found, at: nat, same: Found -> bool, isDir: Option<bool>)
    requires same(f) && (forall i :: 0 <= i < |done| ==> !same(done[i]))
    requires IsReadUpTo(slots, done + [f], at)
    ensures IsLookup(Listing(slots, 0, true), same, isDir,
                     if isDir.Some? && f.isDir != isDir.value then Mismatch else Existing(f))
  {
    hide Listing;
    var l := Listing(slots, 0, true);
    assert l == done + [f] + Listing(slots, at, true);
    assert l[|done|] == f && forall i :: 0 <= i < |done| ==> l[i] == done[i];
  }

  lemma NotNamed(listing: seq<Found>, shortName: Sfn)
    requires HasShortNames(listing)
    ensures IsListed(listing, shortName) <==> shortName in NamesOf(listing)
  {
    var names := NamesOf(listing);
    if shortName in names {
      var i :| 0 <= i < |names| && names[i] == shortName;
      assert listing[i].shortName == shortName;
    }
    if IsListed(listing, shortName) {
      var i :| 0 <= i < |listing| && listing[i].shortName == shortName;
      assert names[i] == shortName;
    }
  }

  datatype DirEntryOrShortName = DirEntry(entry: Found) | ShortName(shortName: Sfn)

  ghost predicate IsOutcome(listing: seq<Found>, same: Found -> bool, isDir: Option<bool>,
                            r: Result<DirEntryOrShortName, DirError>) {
    match r
    case Ok(DirEntry(entry)) => IsLookup(listing, same, isDir, Existing(entry))
    case Ok(ShortName(_)) => IsLookup(listing, same, isDir, Missing)
    case Err(error) => error == WrongKind && IsLookup(listing, same, isDir, Mismatch)
  }

  /** A short name for a new entry: well formed, listed nowhere, made from the name, and the name itself if that is
      an 8.3 name and not listed. */
  ghost predicate IsFresh(listing: seq<Found>, name: string, shortName: Sfn) {
    && !IsListed(listing, shortName) && IsShortName(shortName) && IsShortFor(shortName, name)
    && (Representable(name) ==>
          IsNameOf(shortName, name) || exists own: Sfn :: IsListed(listing, own) && IsNameOf(own, name))
  }

  /** What a generator made from `name` knows, whatever it has seen of the listing. */
  ghost predicate IsGenerator(gen: ShortNameGenerator, name: string, own: Sfn, len: nat, listing: seq<Found>)
    reads gen
  {
    && gen.Valid() && gen.shortName == own && gen.basenameLen == len && gen.chksum < SUMS && len <= 8
    && (gen.nameFits && !gen.lossyConv <==> Representable(name)) && (Representable(name) ==> IsNameOf(own, name))
    && (gen.exactMatch ==> IsListed(listing, own))
    && own == ShortOf(name) && len == Min(|Cleaned(Base(name))|, 8)
  }

  /** After a pass over the whole listing: a fresh name, or a checksum whose numbers are all taken. */
  method TryGenerate(gen: ShortNameGenerator, name: string, ghost own: Sfn, ghost len: nat, ghost listing: seq<Found>)
    returns (r: Option<Sfn>)
    requires IsGenerator(gen, name, own, len, listing) && HasShortNames(listing) && gen.seen == NamesOf(listing)
    ensures r.Some? ==> IsFresh(listing, name, r.value)
    ensures r.None? ==> forall d: nat :: 1 <= d <= 9 ==> SumTaken(own, len, gen.seen, gen.chksum, d)
  {
    hide LongTaken, SumTaken, IsPart, Representable, IsNameOf, ShortNameGenerator.IsChoice, ShortNameGenerator.Valid;
    hide NamesOf, IsListed, ShortOf, Cleaned, Base, IsFormOf, IsShortName;
    r := gen.Generate();
    if r.Some? {
      NotNamed(listing, r.value);
    }
  }

  /** Passes over the directory, with other checksums, until a name is found or can be given. */
  method FindOrGenerate(stream: DirRawStream, gen: ShortNameGenerator, name: string, isDir: Option<bool>,
                        same: Found -> bool)
    returns (r: Result<DirEntryOrShortName, DirError>)
    requires stream.Valid() && stream.Short() && |Listing(stream.slots, 0, true)| < 9 * SUMS
    requires gen.seen == [] && gen !in stream.Footprint()
    requires IsGenerator(gen, name, gen.shortName, gen.basenameLen, Listing(stream.slots, 0, true))
    modifies stream`at, stream.Footprint(), gen
    ensures stream.Valid() && stream.HasEntry() == old(stream.HasEntry())
    ensures IsOutcome(Listing(stream.slots, 0, true), same, isDir, r)
    ensures r.Ok? && r.value.ShortName? ==> IsFresh(Listing(stream.slots, 0, true), name, r.value.shortName)
  {
    hide SumTaken, Representable, IsNameOf, ShortNameGenerator.Valid, IsFresh, Tried, ShortOf, Cleaned, Base;
    hide DirRawStream.Valid, DirRawStream.HasEntry, Listing, NamesOf, IsListed, IsLookup;
    ghost var listing := Listing(stream.slots, 0, true);
    ghost var own, len, first, all := gen.shortName, gen.basenameLen, gen.chksum, NamesOf(listing);
    ghost var k := 0;
    NothingTried(own, len, all, first);
    while true
      invariant IsGenerator(gen, name, own, len, listing) && gen.seen == []
      invariant stream.Valid() && stream.HasEntry() == old(stream.HasEntry())
      invariant k < SUMS && Tried(own, len, all, first, k, gen.chksum)
      decreases SUMS - k
    {
      var found := FindEntry(stream, gen, isDir, same);
      match found {
        case Existing(entry) => return Ok(DirEntry(entry));
        case Mismatch => return Err(WrongKind);
        case Missing =>
      }
      var generated := TryGenerate(gen, name, own, len, listing);
      if generated.Some? {
        return Ok(ShortName(generated.value));
      }
      TriedOneMore(own, len, all, first, k, gen.chksum);
      gen.NextIteration();
      k := k + 1;
    }
  }

  /** The entry of that name, or a short name to create it under. */
  method CheckForExistence(stream: DirRawStream, name: string, isDir: Option<bool>, same: Found -> bool)
    returns (r: Result<DirEntryOrShortName, DirError>)
    requires stream.Valid() && stream.Short()
    requires name != [] && name[0] as int < 0x80 && |Listing(stream.slots, 0, true)| < 9 * SUMS
    modifies stream`at, stream.Footprint()
    ensures stream.Valid() && stream.HasEntry() == old(stream.HasEntry())
    ensures IsOutcome(Listing(stream.slots, 0, true), same, isDir, r)
    ensures r.Ok? && r.value.ShortName? ==> IsFresh(Listing(stream.slots, 0, true), name, r.value.shortName)
  {
    hide DirRawStream.Valid, Representable, IsNameOf, ShortNameGenerator.Valid, IsFresh, Listing, IsGenerator;
    hide IsOutcome, ShortOf, Cleaned, Base;
    var gen := new ShortNameGenerator(name);
    IsGeneratorNew(gen, name, Listing(stream.slots, 0, true));
    r := FindOrGenerate(stream, gen, name, isDir, same);
  }

  lemma IsGeneratorNew(gen: ShortNameGenerator, name: string, listing: seq<Found>)
    requires gen.Valid() && !gen.exactMatch && (gen.nameFits && !gen.lossyConv <==> Representable(name))
    requires Representable(name) ==> IsNameOf(gen.shortName, name)
    requires gen.shortName == ShortOf(name) && gen.basenameLen == Min(|Cleaned(Base(name))|, 8)
    ensures IsGenerator(gen, name, gen.shortName, gen.basenameLen, listing)
  {}

  /** After `k` checksums each has used up nine names. */
  ghost predicate Tried(own: Sfn, len: nat, all: seq<Sfn>, first: nat, k: nat, sum: nat)
    requires len <= 8 && first < SUMS
  {
    k < SUMS && sum == (first + k) % SUMS && 9 * k <= CountSums(own, len, all, first, k)
  }

  lemma NothingTried(own: Sfn, len: nat, all: seq<Sfn>, first: nat)
    requires len <= 8 && first < SUMS
    ensures Tried(own, len, all, first, 0, first)
  {}

  lemma TriedOneMore(own: Sfn, len: nat, all: seq<Sfn>, first: nat, k: nat, sum: nat)
    requires len <= 8 && first < SUMS && Tried(own, len, all, first, k, sum) && |all| < 9 * SUMS
    requires forall d: nat :: 1 <= d <= 9 ==> SumTaken(own, len, all, sum, d)
    ensures k + 1 < SUMS && Tried(own, len, all, first, k + 1, (sum + 1) % SUMS)
  {
    hide SumTaken, CountSums;
    SumsLeft(own, len, all, first, k, sum);
  }

  // ----- creating a file

  /** The rest of a slot behind name and attributes. */
  const SFN_REST := DIR_ENTRY_SIZE - SFN_SIZE - 1

  function FileSlot(shortName: Sfn, rest: seq<Byte>): (r: Slot)
    requires |rest| == SFN_REST
    ensures r[..SFN_SIZE] == shortName && r[SFN_SIZE] == 0 && r[SFN_SIZE + 1..] == rest && !IsDirectory(r)
    ensures IsShortName(shortName) ==> IsShortEntry(r, true)
  {
    assert IsShortName(shortName) ==> 0x21 <= shortName[0] <= 0x7E by {
      if IsShortName(shortName) {
        FirstByte(shortName);
      }
    }
    var r := shortName + [0] + rest;
    assert r[..SFN_SIZE] == shortName && r[0] == shortName[0] && r[SFN_SIZE] == 0;
    r
  }

  /** A file of that name has been stored under a short name that was not listed. */
  ghost predicate IsCreated(before: seq<Slot>, added: seq<Slot>, start: nat, name: string, es: seq<Lfn>, short: Slot,
                            after: seq<Slot>) {
    && IsStoring(before, added, start, Utf16(name), es, short, after)
    && IsFresh(Listing(before, 0, true), name, short[..SFN_SIZE]) && !IsDirectory(short)
  }

  ghost predicate HasDistinctNames(slots: seq<Slot>) {
    DistinctNames(Listing(slots, 0, true))
  }

  /** Whatever is in the directory, a new file that is harmless to store keeps the short names distinct. */
  lemma CreatedDistinct(before: seq<Slot>, added: seq<Slot>, start: nat, name: string, es: seq<Lfn>, short: Slot,
                        after: seq<Slot>)
    requires IsCreated(before, added, start, name, es, short, after) && Harmless(before, added, start, |es| + 1)
    requires HasDistinctNames(before)
    ensures HasDistinctNames(after)
  {
    hide Listing, IsInserted, Harmless, OnlyAdds, AreEntriesOf, IsStored, Utf16, Trim, DistinctNames, Representable;
    hide IsNameOf;
    var listing := Listing(before, 0, true);
    var f :| IsInserted(listing, Listing(after, 0, true), f) && IsFor(f, Utf16(name), short);
    InsertedDistinct(listing, Listing(after, 0, true), f);
  }

  /** What storing a new file does: the file is there, in the first room, or there is no room and nothing changes
      for a reader. A clean directory stays clean, and its short names distinct, unless it is a chain without an entry
      of its own that grows. */
  ghost predicate StoresFile(before: seq<Slot>, volume: Volume, stream: DirRawStream, name: string,
                             r: Result<(), DirError>, start: nat, added: seq<Slot>, es: seq<Lfn>, short: Slot)
    reads stream, stream.Footprint()
  {
    && (r.Err? && r.error.BadName? <==> !IsLongName(name))
    && (r.Ok? <==> IsLongName(name) && HasRoom(before, NumParts(Utf16(name)) + 1, stream.limit))
    && (r.Err? ==> SameListing(before, stream.slots))
    && (r.Ok? ==> IsCreated(before, added, start, name, es, short, stream.slots))
    && (IsLongName(name) ==> IsPlace(before, added, start, Utf16(name), es, short))
    && (!IsLongName(name) ==> stream.slots == before && stream.volume == volume)
    && (stream.kind.OfFile? && IsLongName(name) ==>
          && IsGrowth(volume, stream.volume, stream.HasEntry(), added)
          && VolumeKept(volume, stream.volume))
    && (Clean(before) && (r.Err? || added == [] || stream.kind.OfRoot? || stream.HasEntry()) ==>
          && Clean(stream.slots) && (r.Ok? ==> Harmless(before, added, start, |es| + 1))
          && (HasDistinctNames(before) ==> HasDistinctNames(stream.slots)))
  }

  method StoreFile(stream: DirRawStream, name: string, shortName: Sfn, rest: seq<Byte>)
    returns (r: Result<(), DirError>, ghost start: nat, ghost added: seq<Slot>, ghost es: seq<Lfn>, ghost short: Slot)
    requires stream.Valid() && stream.Short() && |rest| == SFN_REST
    requires IsFresh(Listing(stream.slots, 0, true), name, shortName)
    modifies stream, stream.Footprint()
    ensures stream.Valid() && stream.limit == old(stream.limit) && stream.HasEntry() == old(stream.HasEntry())
    ensures Kept(old(stream.slots), stream.slots) && (stream.kind.OfRoot? ==> added == [])
    ensures StoresFile(old(stream.slots), old(stream.volume), stream, name, r, start, added, es, short)
  {
    hide DirRawStream.Valid, DirRawStream.HasEntry, Listing, IsLongName, Utf16, IsStoring, IsRoom, HasRoom, Kept;
    hide Harmless, NumParts, IsShortEntry, IsDirectory, IsListed, Representable, IsNameOf, Clean, DistinctNames;
    hide IsGrowth, VolumeKept, FileSlot, IsPlace, IsShortName, IsShortFor;
    var slot := FileSlot(shortName, rest);
    short := slot;
    stream.SeekSlot(0);
    r, start, added, es := WriteEntry(stream, name, slot);
    if r.Ok? && HasDistinctNames(old(stream.slots)) && Harmless(old(stream.slots), added, start, |es| + 1) {
      CreatedDistinct(old(stream.slots), added, start, name, es, short, stream.slots);
    }
  }

  /** Opens the file of that name or creates it. */
  method CreateFile(stream: DirRawStream, name: string, rest: seq<Byte>, same: Found -> bool)
    returns (r: Result<Option<Found>, DirError>, ghost lookup: Lookup, ghost start: nat, ghost added: seq<Slot>,
             ghost es: seq<Lfn>, ghost short: Slot)
    requires stream.Valid() && stream.Short() && |rest| == SFN_REST
    requires name != [] && name[0] as int < 0x80 && |Listing(stream.slots, 0, true)| < 9 * SUMS
    modifies stream, stream.Footprint()
    ensures stream.Valid() && stream.limit == old(stream.limit) && stream.HasEntry() == old(stream.HasEntry())
    ensures IsLookup(Listing(old(stream.slots), 0, true), same, Some(false), lookup)
    ensures lookup.Existing? ==> r == Ok(Some(lookup.found))
    ensures lookup.Mismatch? ==> r == Err(WrongKind)
    ensures !lookup.Missing? ==> stream.slots == old(stream.slots) && stream.volume == old(stream.volume)
    ensures Kept(old(stream.slots), stream.slots) && (stream.kind.OfRoot? ==> added == [])
    ensures lookup.Missing? ==>
              && (r.Ok? ==> r.value == None)
              && StoresFile(old(stream.slots), old(stream.volume), stream, name,
                            if r.Ok? then Ok(()) else Err(r.error), start, added, es, short)
  {
    hide DirRawStream.Valid, DirRawStream.HasEntry, Listing, IsLookup, Kept, IsFresh, IsLongName, Utf16, IsStoring;
    hide HasRoom, Harmless, NumParts, Clean, DistinctNames, IsGrowth, VolumeKept, FileSlot, IsPlace, IsCreated;
    hide IsShortEntry, IsDirectory;
    NothingLost(stream.slots);
    lookup, start, added, es, short := Missing, 0, [], [], FileSlot(seq(SFN_SIZE, i => SFN_PADDING), rest);
    var chosen := CheckForExistence(stream, name, Some(false), same);
    if chosen.Err? {
      lookup := Mismatch;
      r := Err(chosen.error);
      return;
    }
    if chosen.value.DirEntry? {
      lookup := Existing(chosen.value.entry);
      r := Ok(Some(chosen.value.entry));
      return;
    }
    var stored;
    stored, start, added, es, short := StoreFile(stream, name, chosen.value.shortName, rest);
    r := if stored.Ok? then Ok(None) else Err(stored.error);
  }
}
