/** Directories as rows of 32-byte slots (deps/rust-fatfs/src/dir.rs): what a reader lists, where there is
    room for a new entry, and what putting one there does to the listing. */
module Directories {
  import opened Wrappers
  import opened Bits
  import opened FatTypes
  import opened LongNames

  predicate IsEnd(slot: Slot) {
    slot[0] == 0
  }

  predicate IsDeleted(slot: Slot) {
    slot[0] == DIR_ENTRY_DELETED_FLAG
  }

  predicate IsVolume(slot: Slot) {
    slot[11] as int / 8 % 2 == 1
  }

  predicate IsDirectory(slot: Slot) {
    slot[11] as int / 0x10 % 2 == 1
  }

  /** The first byte ends the directory or marks a deleted slot. Of the attribute byte, digit 3 marks a volume label,
      digit 4 a directory, and a long-name slot has the lowest four. */
  lemma AttributesOf(slot: Slot)
    ensures IsEnd(slot) <==> slot[0] == 0
    ensures IsDeleted(slot) <==> slot[0] == 0xE5
    ensures IsVolume(slot) <==> On(slot[11] as int, 3)
    ensures IsDirectory(slot) <==> On(slot[11] as int, 4)
    ensures var a := slot[11] as int; IsLfnSlot(slot) <==> On(a, 0) && On(a, 1) && On(a, 2) && On(a, 3)
  {
    var a := slot[11] as int;
    SmallPow2();
    OnAt(a, 3);
    OnAt(a, 4);
    OnLow(a, 4, 0);
    OnLow(a, 4, 1);
    OnLow(a, 4, 2);
    OnLow(a, 4, 3);
    AllFour(a % 0x10);
    hide On, Pow2;
  }

  lemma AllFour(r: nat)
    requires r < 0x10
    ensures r == 0x0F <==> On(r, 0) && On(r, 1) && On(r, 2) && On(r, 3)
  {
    assert On(r, 3) == On(r / 4, 1) && On(r, 2) == On(r / 4, 0);
  }

  predicate Skipped(slot: Slot, skipVolume: bool) {
    IsDeleted(slot) || (!IsLfnSlot(slot) && skipVolume && IsVolume(slot))
  }

  /** A slot the reader neither stops at nor returns. */
  predicate Passed(slot: Slot, skipVolume: bool) {
    !IsEnd(slot) && (Skipped(slot, skipVolume) || IsLfnSlot(slot))
  }

  /** A slot that stands for a file or directory. */
  predicate IsShortEntry(slot: Slot, skipVolume: bool) {
    !IsEnd(slot) && !Passed(slot, skipVolume)
  }

  /** A slot stands for a file or directory exactly if it is in use and has no volume digit: a long-name slot has that
      digit too. */
  lemma IsShortEntryIff(slot: Slot)
    ensures IsShortEntry(slot, true) <==> slot[0] != 0 && slot[0] != 0xE5 && !On(slot[11] as int, 3)
    ensures Passed(slot, true) <==> slot[0] == 0xE5 || (slot[0] != 0 && On(slot[11] as int, 3))
    ensures Skipped(slot, false) <==> slot[0] == 0xE5
  {
    hide On, IsVolume, IsDirectory, IsLfnSlot;
    AttributesOf(slot);
  }

  datatype Found = Found(shortName: seq<Byte>, isDir: bool, longName: seq<Unit>, begin: nat, end: nat)

  // ----- what a reader finds

  /** The long-name entries in a stretch of slots. */
  ghost function Decoded(slots: seq<Slot>): (es: seq<Lfn>)
    ensures |es| == |slots| && forall i :: 0 <= i < |slots| ==> es[i] == Deserialize(slots[i])
  {
    seq(|slots|, i requires 0 <= i < |slots| => Deserialize(slots[i]))
  }

  /** The first slot from `from` on that the reader does not pass over. */
  function StopAt(slots: seq<Slot>, from: nat, skipVolume: bool): (at: nat)
    requires from <= |slots|
    ensures from <= at <= |slots| && (at < |slots| ==> !Passed(slots[at], skipVolume))
    ensures forall i :: from <= i < at ==> Passed(slots[i], skipVolume)
    decreases |slots| - from
  {
    if from < |slots| && Passed(slots[from], skipVolume) then StopAt(slots, from + 1, skipVolume) else from
  }

  lemma StopUnique(slots: seq<Slot>, from: nat, at: nat, skipVolume: bool)
    requires from <= at <= |slots| && (at < |slots| ==> !Passed(slots[at], skipVolume))
    requires forall i :: from <= i < at ==> Passed(slots[i], skipVolume)
    ensures StopAt(slots, from, skipVolume) == at
  {
    hide Passed;
  }

  /** Where the last skipped slot before `at` ends. */
  function BeginOf(slots: seq<Slot>, from: nat, at: nat, skipVolume: bool): (begin: nat)
    requires from <= at <= |slots|
    ensures from <= begin <= at && (begin > from ==> Skipped(slots[begin - 1], skipVolume))
    ensures forall i :: begin <= i < at ==> !Skipped(slots[i], skipVolume)
    decreases at
  {
    if from < at && !Skipped(slots[at - 1], skipVolume) then BeginOf(slots, from, at - 1, skipVolume) else at
  }

  lemma BeginUnique(slots: seq<Slot>, from: nat, begin: nat, at: nat, skipVolume: bool)
    requires from <= begin <= at <= |slots| && (begin > from ==> Skipped(slots[begin - 1], skipVolume))
    requires forall i :: begin <= i < at ==> !Skipped(slots[i], skipVolume)
    ensures BeginOf(slots, from, at, skipVolume) == begin
  {
    hide Skipped;
  }

  /** The short entry at `at`, with the name that the long-name slots since `begin` spell. */
  ghost function EntryAt(slots: seq<Slot>, begin: nat, at: nat): Found
    requires begin <= at < |slots|
  {
    var shortName := slots[at][..SFN_SIZE];
    Found(shortName, IsDirectory(slots[at]), NameOf(Decoded(slots[begin..at]), ChecksumOf(shortName)), begin, at + 1)
  }

  /** What reading from slot `from` returns. */
  ghost function NextOf(slots: seq<Slot>, from: nat, skipVolume: bool): (r: Option<Found>)
    requires from <= |slots|
    ensures r.Some? ==> from < r.value.end <= |slots| && |r.value.shortName| == SFN_SIZE
  {
    var at := StopAt(slots, from, skipVolume);
    if at == |slots| || IsEnd(slots[at]) then None
    else Some(EntryAt(slots, BeginOf(slots, from, at, skipVolume), at))
  }

  ghost predicate IsNext(slots: seq<Slot>, from: nat, skipVolume: bool, r: Option<Found>) {
    from <= |slots| && r == NextOf(slots, from, skipVolume)
  }

  /** All that is read from slot `from` on. */
  ghost function Listing(slots: seq<Slot>, from: nat, skipVolume: bool): (r: seq<Found>)
    requires from <= |slots|
    ensures forall i :: 0 <= i < |r| ==> |r[i].shortName| == SFN_SIZE
    decreases |slots| - from
  {
    var next := NextOf(slots, from, skipVolume);
    if next.None? then [] else [next.value] + Listing(slots, next.value.end, skipVolume)
  }

  /** All slots from `from` to `at` are passed over, `begin` being where the last skipped one ends. */
  ghost predicate Walked(slots: seq<Slot>, from: nat, begin: nat, at: nat, skipVolume: bool) {
    && from <= begin <= at <= |slots|
    && (forall i :: from <= i < at ==> Passed(slots[i], skipVolume))
    && (forall i :: begin <= i < at ==> !Skipped(slots[i], skipVolume))
    && (begin > from ==> Skipped(slots[begin - 1], skipVolume))
  }

  lemma WalkedNone(slots: seq<Slot>, from: nat, skipVolume: bool)
    requires from <= |slots|
    ensures Walked(slots, from, from, from, skipVolume)
  {}

  lemma WalkedPast(slots: seq<Slot>, from: nat, begin: nat, at: nat, skipVolume: bool)
    requires Walked(slots, from, begin, at, skipVolume) && at < |slots|
    requires !IsEnd(slots[at]) && IsLfnSlot(slots[at]) && !Skipped(slots[at], skipVolume)
    ensures Walked(slots, from, begin, at + 1, skipVolume)
  {}

  lemma WalkedSkip(slots: seq<Slot>, from: nat, begin: nat, at: nat, skipVolume: bool)
    requires Walked(slots, from, begin, at, skipVolume) && at < |slots|
    requires !IsEnd(slots[at]) && Skipped(slots[at], skipVolume)
    ensures Walked(slots, from, at + 1, at + 1, skipVolume)
  {}

  /** Where the walk stops is what reading returns. */
  lemma WalkedIsNext(slots: seq<Slot>, from: nat, begin: nat, at: nat, skipVolume: bool)
    requires Walked(slots, from, begin, at, skipVolume)
    ensures at == |slots| || IsEnd(slots[at]) ==> NextOf(slots, from, skipVolume) == None
    ensures at < |slots| && IsShortEntry(slots[at], skipVolume) ==>
              NextOf(slots, from, skipVolume) == Some(EntryAt(slots, begin, at))
  {
    hide EntryAt, Skipped, IsLfnSlot;
    if at == |slots| || IsEnd(slots[at]) || IsShortEntry(slots[at], skipVolume) {
      StopUnique(slots, from, at, skipVolume);
      BeginUnique(slots, from, begin, at, skipVolume);
    }
  }

  lemma NoRun(slots: seq<Slot>, at: nat)
    requires at <= |slots|
    ensures RunAfter(Decoded(slots[at..at])) == []
  {
    assert slots[at..at] == [];
  }

  lemma RunOneMore(slots: seq<Slot>, begin: nat, at: nat)
    requires begin <= at < |slots|
    ensures RunAfter(Decoded(slots[begin..at + 1]))
            == Extend(RunAfter(Decoded(slots[begin..at])), Deserialize(slots[at]))
  {
    hide Deserialize, Extend;
    var es := Decoded(slots[begin..at + 1]);
    assert es[..|es| - 1] == Decoded(slots[begin..at]) && es[|es| - 1] == Deserialize(slots[at]);
  }

  /** What is read depends only on the slots that are read. */
  lemma NextFrame(slots: seq<Slot>, slots': seq<Slot>, from: nat, n: nat, skipVolume: bool)
    requires from <= n <= |slots| && n <= |slots'| && slots'[..n] == slots[..n]
    requires StopAt(slots, from, skipVolume) < n
    ensures NextOf(slots', from, skipVolume) == NextOf(slots, from, skipVolume)
  {
    hide NextOf;
    forall i | 0 <= i < n ensures slots'[i] == slots[i] {
      assert slots'[..n][i] == slots[..n][i];
    }
    NextSame(slots, slots', from, n, skipVolume);
  }

  lemma NextSame(slots: seq<Slot>, slots': seq<Slot>, from: nat, n: nat, skipVolume: bool)
    requires from <= n <= |slots| && n <= |slots'| && (forall i :: from <= i < n ==> slots'[i] == slots[i])
    requires StopAt(slots, from, skipVolume) < n || n == |slots| == |slots'|
    ensures NextOf(slots', from, skipVolume) == NextOf(slots, from, skipVolume)
  {
    hide Passed, Skipped, IsEnd, EntryAt, StopAt, BeginOf;
    var at := StopAt(slots, from, skipVolume);
    var begin := BeginOf(slots, from, at, skipVolume);
    StopUnique(slots', from, at, skipVolume);
    BeginUnique(slots', from, begin, at, skipVolume);
    if at < |slots| {
      EntrySame(slots, slots', begin, at);
    }
  }

  lemma EntrySame(slots: seq<Slot>, slots': seq<Slot>, begin: nat, at: nat)
    requires begin <= at < |slots| && at < |slots'| && forall i :: begin <= i <= at ==> slots'[i] == slots[i]
    ensures EntryAt(slots', begin, at) == EntryAt(slots, begin, at)
  {
    hide Decoded, NameOf, ChecksumOf, IsDirectory;
    assert slots'[begin..at] == slots[begin..at];
  }

  /** Reading on from a skipped slot forgets everything before. */
  lemma NextAfterSkip(slots: seq<Slot>, from: nat, m: nat, skipVolume: bool)
    requires from < m <= |slots| && Skipped(slots[m - 1], skipVolume)
    requires forall i :: from <= i < m ==> Passed(slots[i], skipVolume)
    ensures NextOf(slots, from, skipVolume) == NextOf(slots, m, skipVolume)
  {
    hide Passed, Skipped, NameOf, ChecksumOf, IsDirectory, IsEnd, Decoded;
    var at := StopAt(slots, m, skipVolume);
    StopUnique(slots, from, at, skipVolume);
    BeginUnique(slots, from, BeginOf(slots, m, at, skipVolume), at, skipVolume);
  }

  lemma ListingAfterSkip(slots: seq<Slot>, from: nat, m: nat, skipVolume: bool)
    requires from < m <= |slots| && Skipped(slots[m - 1], skipVolume)
    requires forall i :: from <= i < m ==> Passed(slots[i], skipVolume)
    ensures Listing(slots, from, skipVolume) == Listing(slots, m, skipVolume)
  {
    hide Passed, Skipped, NextOf;
    NextAfterSkip(slots, from, m, skipVolume);
  }

  /** The same slots behind `n` are listed the same. */
  lemma {:induction false} ListingSuffix(slots: seq<Slot>, slots': seq<Slot>, from: nat, skipVolume: bool)
    requires from <= |slots| == |slots'| && slots'[from..] == slots[from..]
    ensures Listing(slots', from, skipVolume) == Listing(slots, from, skipVolume)
    decreases |slots| - from
  {
    hide Passed, Skipped, NameOf, ChecksumOf, IsDirectory, IsEnd, Decoded;
    NextSuffix(slots, slots', from, skipVolume);
    var next := NextOf(slots, from, skipVolume);
    if next.Some? {
      var m := next.value.end;
      assert slots'[m..] == slots'[from..][m - from..] && slots[m..] == slots[from..][m - from..];
      ListingSuffix(slots, slots', m, skipVolume);
    }
  }

  lemma NextSuffix(slots: seq<Slot>, slots': seq<Slot>, from: nat, skipVolume: bool)
    requires from <= |slots| == |slots'| && slots'[from..] == slots[from..]
    ensures NextOf(slots', from, skipVolume) == NextOf(slots, from, skipVolume)
  {
    hide NextOf;
    forall i | from <= i < |slots| ensures slots'[i] == slots[i] {
      var k := i - from;
      assert slots'[from..][k] == slots[from..][k];
    }
    NextSame(slots, slots', from, |slots|, skipVolume);
  }

  // ----- a stored name is found

  /** The slots at `start` are a name's entries and then its short entry. */
  ghost predicate IsStored(slots: seq<Slot>, start: nat, es: seq<Lfn>, short: Slot) {
    start + |es| < |slots| && AreSlotsOf(slots[start..start + |es|], es) && slots[start + |es|] == short
  }

  lemma SlotsArePassed(slots: seq<Slot>, b: nat, es: seq<Lfn>, skipVolume: bool)
    requires b + |es| <= |slots| && AreSlotsOf(slots[b..b + |es|], es)
    ensures forall i :: b <= i < b + |es| ==> Passed(slots[i], skipVolume) && !Skipped(slots[i], skipVolume)
  {
    hide IsLfnSlot, Deserialize;
    assert forall i :: b <= i < b + |es| ==> slots[i] == slots[b..b + |es|][i - b];
  }

  lemma DecodedAppend(slots: seq<Slot>, begin: nat, b: nat, es: seq<Lfn>)
    requires begin <= b && b + |es| <= |slots| && AreSlotsOf(slots[b..b + |es|], es)
    ensures Decoded(slots[begin..b + |es|]) == Decoded(slots[begin..b]) + es
  {
    hide IsLfnSlot, Deserialize, Decoded;
    var whole, pre := slots[begin..b + |es|], slots[begin..b];
    forall i | 0 <= i < |whole| ensures Decoded(whole)[i] == (Decoded(pre) + es)[i] {
      if i < |pre| {
        assert whole[i] == pre[i];
      } else {
        var k := i - |pre|;
        assert whole[i] == slots[b..b + |es|][k];
        assert Deserialize(slots[b..b + |es|][k]) == es[k];
      }
    }
  }

  /** Long-name slots followed by a short entry: the reader stops there and has seen them last. */
  lemma EntriesAreRead(slots: seq<Slot>, from: nat, b: nat, es: seq<Lfn>, skipVolume: bool) returns (before: seq<Lfn>)
    requires from <= b && b + |es| < |slots|
    requires AreSlotsOf(slots[b..b + |es|], es) && IsShortEntry(slots[b + |es|], skipVolume)
    requires forall i :: from <= i < b ==> Passed(slots[i], skipVolume)
    ensures var r := NextOf(slots, from, skipVolume);
            && r.Some? && r.value.shortName == slots[b + |es|][..SFN_SIZE]
            && r.value.begin <= b && r.value.end == b + |es| + 1 && r.value.isDir == IsDirectory(slots[b + |es|])
            && r.value.longName == NameOf(before + es, ChecksumOf(r.value.shortName))
  {
    hide NameOf, ChecksumOf, Decoded, Passed, Skipped, AreSlotsOf, IsDirectory, IsEnd;
    SlotsArePassed(slots, b, es, skipVolume);
    var at := b + |es|;
    StopUnique(slots, from, at, skipVolume);
    var begin := BeginOf(slots, from, at, skipVolume);
    DecodedAppend(slots, begin, b, es);
    before := Decoded(slots[begin..b]);
  }

  /** A name stored at `b` and its short entry are what the reader finds there, coming from anywhere before,
      whatever unfinished runs it has to cross. */
  lemma WrittenIsFound(slots: seq<Slot>, from: nat, b: nat, name: seq<Unit>, es: seq<Lfn>, short: Slot,
                       skipVolume: bool)
    requires 1 <= |name| <= MAX_LONG_NAME_LEN && NumParts(name) <= MAX_LONG_DIR_ENTRIES
    requires es == EntriesOf(name, ChecksumOf(short[..SFN_SIZE]), NumParts(name))
    requires from <= b && IsStored(slots, b, es, short) && IsShortEntry(short, skipVolume)
    requires forall i :: from <= i < b ==> Passed(slots[i], skipVolume)
    ensures var r := NextOf(slots, from, skipVolume);
            && r.Some? && r.value.shortName == short[..SFN_SIZE] && r.value.longName == Trim(name)
            && r.value.begin <= b && r.value.end == b + |es| + 1 && r.value.isDir == IsDirectory(short)
  {
    hide NameOf, ChecksumOf, EntriesOf, NumParts, Trim, Passed, AreSlotsOf, NextOf, EntryOf, Padding, IsShortEntry;
    var before := EntriesAreRead(slots, from, b, es, skipVolume);
    NameRoundTrip(before, name, ChecksumOf(short[..SFN_SIZE]));
  }

  // ----- room for a new entry

  /** No end marker up to `i`. */
  predicate Reached(slots: seq<Slot>, i: nat) {
    i <= |slots| && forall j :: 0 <= j < i ==> !IsEnd(slots[j])
  }

  /** A slot in use: not deleted and not behind the end. */
  predicate Live(slots: seq<Slot>, i: nat) {
    i < |slots| && Reached(slots, i + 1) && !IsDeleted(slots[i])
  }

  /** Nothing but end markers behind an end marker. */
  predicate Clean(slots: seq<Slot>) {
    forall i, j :: 0 <= i < j < |slots| && IsEnd(slots[i]) ==> IsEnd(slots[j])
  }

  predicate AllDeleted(slots: seq<Slot>, lo: nat, hi: nat) {
    hi <= |slots| && forall i :: lo <= i < hi ==> IsDeleted(slots[i])
  }

  predicate RowAt(slots: seq<Slot>, start: nat, num: nat) {
    AllDeleted(slots, start, start + num)
  }

  /** From `from` on there are deleted slots only, up to an end marker or the end of the row. */
  predicate Quiet(slots: seq<Slot>, from: nat) {
    exists e :: from <= e <= |slots| && AllDeleted(slots, from, e) && (e == |slots| || IsEnd(slots[e]))
  }

  /** Room for `num` slots at `start`: a row of deleted ones, or deleted ones up to the end. */
  predicate IsRoom(slots: seq<Slot>, start: nat, num: nat) {
    Reached(slots, start) && (RowAt(slots, start, num) || Quiet(slots, start))
  }

  ghost predicate IsFirstRoom(slots: seq<Slot>, start: nat, num: nat) {
    IsRoom(slots, start, num) && forall s: nat :: s < start ==> !IsRoom(slots, s, num)
  }

  /** There is room that ends within what the row can come to have. */
  ghost predicate HasRoom(slots: seq<Slot>, num: nat, limit: nat) {
    exists s: nat :: IsRoom(slots, s, num) && s + num <= limit
  }

  /** A row that no deleted slot precedes begins the first room. */
  lemma NoRoomBefore(slots: seq<Slot>, start: nat, num: nat)
    requires Reached(slots, start) && (start > 0 ==> !IsDeleted(slots[start - 1]))
    requires forall s: nat :: s < start ==> !RowAt(slots, s, num)
    ensures forall s: nat :: s < start ==> !IsRoom(slots, s, num)
  {
    hide RowAt, IsEnd, IsDeleted;
    forall s: nat, e: nat | s < start && s <= e <= |slots| && AllDeleted(slots, s, e)
      ensures e < |slots| && !IsEnd(slots[e])
    {
      assert e < start;
    }
  }

  /** Whether there is room is decided at the first. */
  lemma FirstRoomDecides(slots: seq<Slot>, start: nat, num: nat, limit: nat)
    requires IsFirstRoom(slots, start, num)
    ensures HasRoom(slots, num, limit) <==> start + num <= limit
  {
    hide IsRoom;
  }

  /** Every slot in use stays in use, unchanged. */
  ghost predicate Kept(before: seq<Slot>, after: seq<Slot>) {
    forall i: nat :: Live(before, i) ==> Live(after, i) && before[i] == after[i]
  }

  /** No slot comes into use but `num` from `start` on. */
  ghost predicate OnlyAdds(before: seq<Slot>, after: seq<Slot>, start: nat, num: nat) {
    forall i: nat :: Live(after, i) ==> Live(before, i) || start <= i < start + num
  }

  /** Slots that hold something: neither deleted nor an end marker. */
  predicate AllUsed(more: seq<Slot>) {
    forall k :: 0 <= k < |more| ==> !IsEnd(more[k]) && !IsDeleted(more[k])
  }

  /** The row after `more` has been put at `start`, the row having grown by `added` as far as that took. */
  ghost predicate IsPut(before: seq<Slot>, added: seq<Slot>, start: nat, more: seq<Slot>, after: seq<Slot>) {
    && start <= |before| && start + |more| <= |before + added| && after == Overlay(before + added, start, more)
    && (added != [] ==> |before| < start + |more|)
  }

  /** Slots put into room that was found displace no slot in use. */
  lemma RoomKeeps(before: seq<Slot>, added: seq<Slot>, start: nat, num: nat, more: seq<Slot>, after: seq<Slot>)
    requires IsRoom(before, start, num) && |more| <= num && AllUsed(more) && IsPut(before, added, start, more, after)
    ensures Kept(before, after)
  {
    forall i: nat | Live(before, i) ensures Live(after, i) && before[i] == after[i] {
      RoomKeepsOne(before, added, start, num, more, after, i);
    }
  }

  lemma RoomKeepsOne(before: seq<Slot>, added: seq<Slot>, start: nat, num: nat, more: seq<Slot>, after: seq<Slot>,
                     i: nat)
    requires IsRoom(before, start, num) && |more| <= num && AllUsed(more) && IsPut(before, added, start, more, after)
    requires Live(before, i)
    ensures Live(after, i) && before[i] == after[i]
  {
    hide IsEnd, IsDeleted;
    assert !(start <= i < start + |more|);
    assert forall j :: 0 <= j < start ==> after[j] == before[j];
    assert forall j :: start <= j < start + |more| ==> after[j] == more[j - start];
    assert forall j :: start + |more| <= j < |before| ==> after[j] == before[j];
  }

  /** Where each slot of the new row comes from. */
  lemma PutSlots(before: seq<Slot>, added: seq<Slot>, start: nat, more: seq<Slot>, after: seq<Slot>)
    requires IsPut(before, added, start, more, after)
    ensures |after| == |before| + |added| && start + |more| <= |after|
    ensures forall j :: 0 <= j < start ==> after[j] == before[j]
    ensures forall j :: start <= j < start + |more| ==> after[j] == more[j - start]
    ensures forall j :: start + |more| <= j < |after| ==> after[j] == (before + added)[j]
  {}

  lemma QuietTail(slots: seq<Slot>, from: nat, e: nat, i: nat)
    requires from <= e <= |slots| && AllDeleted(slots, from, e) && (e == |slots| || IsEnd(slots[e])) && i >= from
    ensures !Live(slots, i)
  {}

  /** A row that is not quiet has a slot in use there, if no end marker comes before. */
  lemma {:induction false} LoudTail(slots: seq<Slot>, from: nat) returns (i: nat)
    requires Reached(slots, from) && !Quiet(slots, from)
    ensures i >= from && Live(slots, i)
    decreases |slots| - from
  {
    i := from;
    while i < |slots| && IsDeleted(slots[i])
      invariant from <= i <= |slots| && AllDeleted(slots, from, i)
    {
      i := i + 1;
    }
    assert i < |slots| && !IsEnd(slots[i]);
  }

  lemma QuietSame(slots: seq<Slot>, slots': seq<Slot>, from: nat)
    requires |slots| == |slots'| && forall j :: from <= j < |slots| ==> slots'[j] == slots[j]
    ensures Quiet(slots, from) ==> Quiet(slots', from)
  {
    if Quiet(slots, from) {
      var e :| from <= e <= |slots| && AllDeleted(slots, from, e) && (e == |slots| || IsEnd(slots[e]));
      assert AllDeleted(slots', from, e) && (e == |slots'| || IsEnd(slots'[e]));
    }
  }

  /** What may be taken without anything else coming into use: a row of deleted slots, or room behind which the
      row, as far as it has grown, is quiet. */
  ghost predicate Harmless(before: seq<Slot>, added: seq<Slot>, start: nat, num: nat) {
    RowAt(before, start, num) || Quiet(before + added, start + num)
  }

  /** Nothing but the new slots comes into use if and only if taking them is harmless. */
  lemma OnlyAddsIff(before: seq<Slot>, added: seq<Slot>, start: nat, more: seq<Slot>, after: seq<Slot>)
    requires IsRoom(before, start, |more|) && AllUsed(more) && IsPut(before, added, start, more, after)
    ensures OnlyAdds(before, after, start, |more|) <==> Harmless(before, added, start, |more|)
  {
    hide IsEnd, IsDeleted, IsPut, Quiet;
    var m := start + |more|;
    if RowAt(before, start, |more|) {
      RowAddsNothingElse(before, added, start, more, after);
    } else {
      PutSlots(before, added, start, more, after);
      QuietSame(before + added, after, m);
      QuietSame(after, before + added, m);
      NothingBehind(before, start, m);
      QuietIff(after, m);
      assert forall i: nat :: i < start && Live(after, i) ==> Live(before, i);
    }
  }

  lemma RowAddsNothingElse(before: seq<Slot>, added: seq<Slot>, start: nat, more: seq<Slot>, after: seq<Slot>)
    requires RowAt(before, start, |more|) && IsPut(before, added, start, more, after)
    ensures OnlyAdds(before, after, start, |more|)
  {
    var m := start + |more|;
    PutSlots(before, added, start, more, after);
    assert added == [] && before + added == before;
    forall i: nat | Live(after, i) && !(start <= i < m) ensures Live(before, i) {
      forall j | 0 <= j <= i ensures !IsEnd(before[j]) {
        assert !(start <= j < m) ==> after[j] == before[j];
      }
    }
  }

  lemma NothingBehind(slots: seq<Slot>, from: nat, m: nat)
    requires Quiet(slots, from) && from <= m
    ensures forall i: nat :: i >= m ==> !Live(slots, i)
  {
    hide Live;
    var e :| from <= e <= |slots| && AllDeleted(slots, from, e) && (e == |slots| || IsEnd(slots[e]));
    forall i: nat | i >= m ensures !Live(slots, i) {
      QuietTail(slots, from, e, i);
    }
  }

  lemma QuietIff(slots: seq<Slot>, m: nat)
    requires Reached(slots, m)
    ensures Quiet(slots, m) <==> forall i: nat :: i >= m ==> !Live(slots, i)
  {
    if Quiet(slots, m) {
      NothingBehind(slots, m, m);
    } else {
      var i := LoudTail(slots, m);
    }
  }

  /** Room in a clean row that need not grow is harmless to take. */
  lemma CleanIsHarmless(slots: seq<Slot>, start: nat, num: nat)
    requires IsRoom(slots, start, num) && Clean(slots) && start + num <= |slots|
    ensures Harmless(slots, [], start, num)
  {
    if !RowAt(slots, start, num) {
      var m := start + num;
      assert slots + [] == slots;
      var e :| start <= e <= |slots| && AllDeleted(slots, start, e) && (e == |slots| || IsEnd(slots[e]));
      assert e < m;
      assert AllDeleted(slots, m, m) && (m == |slots| || IsEnd(slots[m]));
    }
  }

  predicate AllEnd(slots: seq<Slot>) {
    forall i :: 0 <= i < |slots| ==> IsEnd(slots[i])
  }

  lemma EndsAreHarmless(before: seq<Slot>, added: seq<Slot>, start: nat, num: nat)
    requires AllEnd(added) && |before| <= start + num <= |before + added|
    ensures Harmless(before, added, start, num)
  {
    var m := start + num;
    assert m < |before + added| ==> (before + added)[m] == added[m - |before|];
    assert AllDeleted(before + added, m, m);
  }

  /** A row that grows by end markers at most, or is filled up, stays clean. */
  lemma PutKeepsClean(before: seq<Slot>, added: seq<Slot>, start: nat, more: seq<Slot>, after: seq<Slot>)
    requires Reached(before, start) && AllUsed(more) && IsPut(before, added, start, more, after) && Clean(before)
    requires AllEnd(added) || |after| == start + |more|
    ensures Clean(after)
  {
    hide IsEnd, IsDeleted, IsPut;
    var m := start + |more|;
    PutSlots(before, added, start, more, after);
    GrownByEnds(before, added, start, more, after);
    forall a, b | 0 <= a < b < |after| && IsEnd(after[a]) ensures IsEnd(after[b]) {
      assert a >= m;
    }
  }

  lemma GrownByEnds(before: seq<Slot>, added: seq<Slot>, start: nat, more: seq<Slot>, after: seq<Slot>)
    requires IsPut(before, added, start, more, after) && Clean(before) && (AllEnd(added) || |after| == start + |more|)
    ensures forall a, b :: start + |more| <= a < b < |after| && IsEnd((before + added)[a]) ==>
              IsEnd((before + added)[b])
  {
    hide IsEnd;
    var grown := before + added;
    forall a, b | start + |more| <= a < b < |after| && IsEnd(grown[a]) ensures IsEnd(grown[b]) {
      assert b >= |before| ==> grown[b] == added[b - |before|];
    }
  }

  // ----- the listing after a new entry

  lemma QuietIsEmpty(slots: seq<Slot>, from: nat, skipVolume: bool)
    requires from <= |slots| && Quiet(slots, from)
    ensures Listing(slots, from, skipVolume) == []
  {
    var e :| from <= e <= |slots| && AllDeleted(slots, from, e) && (e == |slots| || IsEnd(slots[e]));
    StopUnique(slots, from, e, skipVolume);
  }

  /** Nothing is found from a place where only slots that are passed over remain before the end. */
  lemma PassedIsEmpty(slots: seq<Slot>, from: nat, e: nat, skipVolume: bool)
    requires from <= e <= |slots| && (e == |slots| || IsEnd(slots[e]))
    requires forall i :: from <= i < e ==> Passed(slots[i], skipVolume)
    ensures Listing(slots, from, skipVolume) == []
  {
    StopUnique(slots, from, e, skipVolume);
  }

  /** `more` is the listing `before` with one entry put in. */
  ghost predicate IsInserted(before: seq<Found>, more: seq<Found>, f: Found) {
    exists k :: 0 <= k <= |before| && more == before[..k] + [f] + before[k..]
  }

  lemma InsertedFirst(before: seq<Found>, f: Found)
    ensures IsInserted(before, [f] + before, f)
  {
    assert [f] + before == before[..0] + [f] + before[0..];
  }

  lemma InsertedLater(before: seq<Found>, more: seq<Found>, f: Found, g: Found)
    requires IsInserted(before, more, f)
    ensures IsInserted([g] + before, [g] + more, f)
  {
    var k :| 0 <= k <= |before| && more == before[..k] + [f] + before[k..];
    var before' := [g] + before;
    assert before'[..k + 1] == [g] + before[..k] && before'[k + 1..] == before[k..];
    assert [g] + more == before'[..k + 1] + [f] + before'[k + 1..];
  }

  /** What is listed behind the new slots is what was listed from their place on. */
  ghost predicate SameBehind(before: seq<Slot>, after: seq<Slot>, start: nat, num: nat, skipVolume: bool) {
    && start + num <= |after|
    && ((RowAt(before, start, num)
         && Listing(after, start + num, skipVolume) == Listing(before, start + num, skipVolume))
        || (Quiet(before, start) && Listing(after, start + num, skipVolume) == []))
  }

  /** The listing from any earlier place: the new entry is put in, the others stay as they were. */
  lemma {:induction false} ListingInserted(before: seq<Slot>, after: seq<Slot>, start: nat, name: seq<Unit>,
                                           es: seq<Lfn>, short: Slot, from: nat, skipVolume: bool) returns (f: Found)
    requires 1 <= |name| <= MAX_LONG_NAME_LEN && NumParts(name) <= MAX_LONG_DIR_ENTRIES
    requires es == EntriesOf(name, ChecksumOf(short[..SFN_SIZE]), NumParts(name))
    requires IsStored(after, start, es, short) && IsShortEntry(short, skipVolume)
    requires from <= start <= |before| && Reached(before, start) && after[..start] == before[..start]
    requires SameBehind(before, after, start, |es| + 1, skipVolume)
    ensures IsInserted(Listing(before, from, skipVolume), Listing(after, from, skipVolume), f)
    ensures f.shortName == short[..SFN_SIZE] && f.longName == Trim(name) && f.isDir == IsDirectory(short)
    ensures f.end == start + |es| + 1 && f.begin <= start
    decreases start - from
  {
    hide Passed, Skipped, NameOf, ChecksumOf, EntriesOf, NumParts, Trim, EntryOf, Padding, IsShortEntry, IsDirectory;
    hide AreSlotsOf, IsInserted, NextOf, SameBehind;
    var at := StopAt(before, from, skipVolume);
    if at < start {
      NextFrame(before, after, from, start, skipVolume);
      StoppedBefore(before, from, start, skipVolume);
      f := ListingInserted(before, after, start, name, es, short, at + 1, skipVolume);
      InsertedLater(Listing(before, at + 1, skipVolume), Listing(after, at + 1, skipVolume), f,
                    NextOf(before, from, skipVolume).value);
    } else {
      forall i | from <= i < start ensures Passed(after[i], skipVolume) {
        assert after[..start][i] == before[..start][i];
      }
      WrittenIsFound(after, from, start, name, es, short, skipVolume);
      f := NextOf(after, from, skipVolume).value;
      BehindIsSame(before, after, start, |es| + 1, from, skipVolume);
      InsertedFirst(Listing(before, from, skipVolume), f);
    }
  }

  lemma StoppedBefore(slots: seq<Slot>, from: nat, n: nat, skipVolume: bool)
    requires from <= |slots| && StopAt(slots, from, skipVolume) < n && Reached(slots, n)
    ensures NextOf(slots, from, skipVolume).Some?
    ensures NextOf(slots, from, skipVolume).value.end == StopAt(slots, from, skipVolume) + 1
  {}

  lemma BehindIsSame(before: seq<Slot>, after: seq<Slot>, start: nat, num: nat, from: nat, skipVolume: bool)
    requires SameBehind(before, after, start, num, skipVolume) && num > 0
    requires from <= start <= |before| && forall i :: from <= i < start ==> Passed(before[i], skipVolume)
    ensures Listing(after, start + num, skipVolume) == Listing(before, from, skipVolume)
  {
    hide Listing, IsEnd, IsLfnSlot, Quiet;
    if RowAt(before, start, num)
       && Listing(after, start + num, skipVolume) == Listing(before, start + num, skipVolume) {
      RowIsPassed(before, start, num, skipVolume);
      ListingAfterSkip(before, from, start + num, skipVolume);
    } else {
      QuietHasEnd(before, from, start, skipVolume);
    }
  }

  lemma RowIsPassed(slots: seq<Slot>, start: nat, num: nat, skipVolume: bool)
    requires RowAt(slots, start, num) && num > 0
    ensures Skipped(slots[start + num - 1], skipVolume)
    ensures forall i :: start <= i < start + num ==> Passed(slots[i], skipVolume)
  {}

  /** A new entry that is harmless disturbs nothing behind it. */
  lemma PutSameBehind(before: seq<Slot>, added: seq<Slot>, start: nat, more: seq<Slot>, after: seq<Slot>,
                      skipVolume: bool)
    requires IsRoom(before, start, |more|) && IsPut(before, added, start, more, after)
    requires Harmless(before, added, start, |more|)
    ensures SameBehind(before, after, start, |more|, skipVolume)
  {
    hide IsEnd, IsDeleted, Listing, Quiet;
    var m := start + |more|;
    PutSlots(before, added, start, more, after);
    if RowAt(before, start, |more|) {
      assert added == [] && before + added == before;
      assert after[m..] == before[m..];
      ListingSuffix(before, after, m, skipVolume);
    } else {
      QuietSame(before + added, after, m);
      QuietIsEmpty(after, m, skipVolume);
    }
  }

  lemma PutStores(before: seq<Slot>, added: seq<Slot>, start: nat, lfn: seq<Slot>, es: seq<Lfn>, short: Slot,
                  after: seq<Slot>)
    requires IsPut(before, added, start, lfn + [short], after) && AreSlotsOf(lfn, es)
    ensures IsStored(after, start, es, short) && after[..start] == before[..start]
  {
    hide AreSlotsOf;
    AreSlotsSize(lfn, es);
    var more := lfn + [short];
    PutSlots(before, added, start, more, after);
    assert after[start..start + |es|] == lfn;
  }

  lemma AreSlotsSize(lfn: seq<Slot>, es: seq<Lfn>)
    requires AreSlotsOf(lfn, es)
    ensures |lfn| == |es| && AllUsed(lfn)
  {
    hide IsLfnSlot, Deserialize;
  }

  /** Long-name slots that run to the end of the row without their short entry change no listing. */
  lemma {:induction false} ListingUnchanged(before: seq<Slot>, after: seq<Slot>, start: nat, from: nat,
                                            skipVolume: bool)
    requires from <= start <= |before| && start <= |after| && Reached(before, start)
             && after[..start] == before[..start]
    requires Quiet(before, start) && forall i :: start <= i < |after| ==> Passed(after[i], skipVolume)
    ensures Listing(after, from, skipVolume) == Listing(before, from, skipVolume)
    decreases start - from
  {
    hide NextOf, Passed, Skipped;
    var at := StopAt(before, from, skipVolume);
    if at < start {
      NextFrame(before, after, from, start, skipVolume);
      StoppedBefore(before, from, start, skipVolume);
      ListingUnchanged(before, after, start, at + 1, skipVolume);
    } else {
      forall i | from <= i < |after| ensures Passed(after[i], skipVolume) {
        if i < start {
          assert after[..start][i] == before[..start][i];
        }
      }
      PassedIsEmpty(after, from, |after|, skipVolume);
      QuietHasEnd(before, from, start, skipVolume);
    }
  }

  lemma QuietHasEnd(slots: seq<Slot>, from: nat, start: nat, skipVolume: bool)
    requires from <= start <= |slots| && Quiet(slots, start)
    requires forall i :: from <= i < start ==> Passed(slots[i], skipVolume)
    ensures Listing(slots, from, skipVolume) == []
  {
    hide Listing;
    var e :| start <= e <= |slots| && AllDeleted(slots, start, e) && (e == |slots| || IsEnd(slots[e]));
    PassedIsEmpty(slots, from, e, skipVolume);
  }

  // ----- storing an entry, all told

  /** The entries of a name beside a short entry. */
  ghost predicate AreEntriesOf(es: seq<Lfn>, units: seq<Unit>, short: Slot) {
    && 1 <= |units| <= MAX_LONG_NAME_LEN && NumParts(units) <= MAX_LONG_DIR_ENTRIES
    && es == EntriesOf(units, ChecksumOf(short[..SFN_SIZE]), NumParts(units))
  }

  /** A name and its short entry have been stored at `start`. */
  ghost predicate IsStoring(before: seq<Slot>, added: seq<Slot>, start: nat, units: seq<Unit>, es: seq<Lfn>,
                            short: Slot, after: seq<Slot>) {
    && AreEntriesOf(es, units, short) && IsStored(after, start, es, short)
    && (OnlyAdds(before, after, start, |es| + 1) <==> Harmless(before, added, start, |es| + 1))
    && (Harmless(before, added, start, |es| + 1) ==>
          exists f :: IsInserted(Listing(before, 0, true), Listing(after, 0, true), f) && IsFor(f, units, short))
  }

  predicate IsFor(f: Found, units: seq<Unit>, short: Slot) {
    f.shortName == short[..SFN_SIZE] && f.longName == Trim(units) && f.isDir == IsDirectory(short)
  }

  lemma StoringIs(before: seq<Slot>, added: seq<Slot>, start: nat, units: seq<Unit>, lfn: seq<Slot>, es: seq<Lfn>,
                  short: Slot, after: seq<Slot>)
    requires AreEntriesOf(es, units, short) && AreSlotsOf(lfn, es)
    requires IsShortEntry(short, true) && IsRoom(before, start, |lfn| + 1)
    requires IsPut(before, added, start, lfn + [short], after)
    ensures IsStoring(before, added, start, units, es, short, after)
  {
    hide AreEntriesOf, AreSlotsOf, IsStored, IsRoom, IsPut, OnlyAdds, Quiet, Listing, Harmless;
    hide IsInserted, IsShortEntry, IsDirectory, IsFor;
    AreSlotsSize(lfn, es);
    ShortIsUsed(lfn, short);
    PutStores(before, added, start, lfn, es, short, after);
    OnlyAddsIff(before, added, start, lfn + [short], after);
    if Harmless(before, added, start, |es| + 1) {
      ListingIs(before, added, start, units, lfn, es, short, after);
    }
  }

  lemma ShortIsUsed(lfn: seq<Slot>, short: Slot)
    requires AllUsed(lfn) && IsShortEntry(short, true)
    ensures AllUsed(lfn + [short])
  {}

  lemma ListingIs(before: seq<Slot>, added: seq<Slot>, start: nat, units: seq<Unit>, lfn: seq<Slot>, es: seq<Lfn>,
                  short: Slot, after: seq<Slot>)
    requires AreEntriesOf(es, units, short) && AreSlotsOf(lfn, es)
    requires IsShortEntry(short, true) && IsRoom(before, start, |lfn| + 1)
    requires IsPut(before, added, start, lfn + [short], after) && Harmless(before, added, start, |lfn| + 1)
    ensures exists f :: IsInserted(Listing(before, 0, true), Listing(after, 0, true), f) && IsFor(f, units, short)
  {
    hide NumParts, EntriesOf, ChecksumOf, AreSlotsOf, Trim, IsStored, Quiet, Listing, IsInserted, IsShortEntry;
    hide IsDirectory;
    hide Harmless, RowAt, IsPut;
    AreSlotsSize(lfn, es);
    PutStores(before, added, start, lfn, es, short, after);
    PutSameBehind(before, added, start, lfn + [short], after, true);
    var f := ListingInserted(before, after, start, units, es, short, 0, true);
  }

  /** A name that did not fit leaves the listing alone: its slots run to the end of the directory. */
  lemma FailedListingIs(before: seq<Slot>, added: seq<Slot>, start: nat, num: nat, more: seq<Slot>, es: seq<Lfn>,
                        after: seq<Slot>)
    requires IsRoom(before, start, num) && |more| < num && IsPut(before, added, start, more, after)
    requires AreSlotsOf(more, es) && |after| == start + |more| && |before| < start + num
    ensures Listing(after, 0, true) == Listing(before, 0, true)
  {
    hide AreSlotsOf, Listing, Quiet;
    AreSlotsSize(more, es);
    PutSlots(before, added, start, more, after);
    assert !RowAt(before, start, num);
    assert after[..start] == before[..start];
    assert after[start..start + |es|] == more;
    SlotsArePassed(after, start, es, true);
    ListingUnchanged(before, after, start, 0, true);
  }

  // ----- the failing case

  /** A slot that reads as a short entry. */
  const USED: Slot := seq(DIR_ENTRY_SIZE, i => 0x41 as Byte)

  /** A full cluster of a directory without an entry of its own, as the FAT32 root is, grows by a cluster that
      still holds data: one entry is stored, and fourteen old slots come into use behind it. */
  lemma GrowthExposesOldSlots()
    ensures var before, added, more := seq(16, i => USED), seq(16, i => USED), [USED, USED];
            var after := Overlay(before + added, 16, more);
            && IsRoom(before, 16, 2) && Clean(before) && AllUsed(more) && IsPut(before, added, 16, more, after)
            && Live(after, 18) && !OnlyAdds(before, after, 16, 2) && !Harmless(before, added, 16, 2)
  {
    var before: seq<Slot>, added: seq<Slot>, more := seq(16, i => USED), seq(16, i => USED), [USED, USED];
    var after := Overlay(before + added, 16, more);
    assert AllDeleted(before, 16, 16);
    assert forall i :: 0 <= i < 32 ==> after[i] == USED;
    assert Live(after, 18) && !Live(before, 18);
  }

  // ----- short names

  predicate DistinctNames(listing: seq<Found>) {
    forall i, j :: 0 <= i < j < |listing| ==> listing[i].shortName != listing[j].shortName
  }

  lemma InsertedDistinct(before: seq<Found>, more: seq<Found>, f: Found)
    requires DistinctNames(before) && IsInserted(before, more, f)
    requires forall i :: 0 <= i < |before| ==> before[i].shortName != f.shortName
    ensures DistinctNames(more)
  {
    var k :| 0 <= k <= |before| && more == before[..k] + [f] + before[k..];
    forall i, j | 0 <= i < j < |more| ensures more[i].shortName != more[j].shortName {
      assert i < k ==> more[i] == before[i];
      assert i > k ==> more[i] == before[i - 1];
      assert j < k ==> more[j] == before[j];
      assert j > k ==> more[j] == before[j - 1];
    }
  }
}
