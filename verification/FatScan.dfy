/** Reading, writing and scanning FAT entries through the mirrored disk slice
    (deps/rust-fatfs/src/table.rs). */
module FatScans {
  import opened Wrappers
  import opened Bits
  import opened Storages
  import opened DiskSlices
  import opened FatTypes
  import opened FatEntries

  // ----- the source's masks as arithmetic

  lemma NibblePowers()
    ensures Pow2(4) == 0x10 && Pow2(12) == 0x1000 && Pow2(16) == 0x1_0000
  {
    Pow2Byte(4); Pow2Byte(8);
    assert Pow2(4) == 4 * Pow2(2);
  }

  lemma WordPowers()
    ensures Pow2(28) == 0x1000_0000 && Pow2(32) == 0x1_0000_0000
  {
    NibblePowers();
    Pow2Byte(12); Pow2Byte(20); Pow2Byte(16); Pow2Byte(24);
  }

  lemma {:induction false} OrCommutes(x: nat, y: nat)
    ensures Or(x, y) == Or(y, x)
  {
    if x == 0 {
      OrZero(y);
    } else if y == 0 {
      OrZero(x);
    } else {
      OrCommutes(x / 2, y / 2);
    }
  }

  lemma Masks12(packed: nat, v: nat)
    requires packed < 0x1_0000 && v < 0x1000
    ensures And(packed, 0x0FFF) == packed % 0x1000
    ensures Or(And(packed, 0xF000), v) == packed - packed % 0x1000 + v
    ensures Or(And(packed, 0x000F), v * 0x10) == packed % 0x10 + 0x10 * v
  {
    hide And, Or, Pow2;
    NibblePowers();
    AndLow(packed, 12);
    AndHigh(packed, 12, 16);
    OrDisjoint(packed - packed % 0x1000, v, 12);
    AndLow(packed, 4);
    OrDisjoint(0x10 * v, packed % 0x10, 4);
    OrCommutes(packed % 0x10, 0x10 * v);
  }

  lemma Masks32(word: nat, v: nat)
    requires word < 0x1_0000_0000 && v < 0x1000_0000
    ensures And(word, 0x0FFF_FFFF) == word % 0x1000_0000
    ensures Or(v, And(word, 0xF000_0000)) == word - word % 0x1000_0000 + v
  {
    hide And, Or, Pow2;
    WordPowers();
    AndLow(word, 28);
    AndHigh(word, 28, 32);
    OrDisjoint(word - word % 0x1000_0000, v, 28);
    OrCommutes(v, word - word % 0x1000_0000);
  }

  // ----- integers through the slice

  lemma U16Slice(s: seq<Byte>, at: nat)
    requires at + 2 <= |s|
    ensures U16At(s[at..at + 2], 0) == U16At(s, at)
  {}

  lemma U32Slice(s: seq<Byte>, at: nat)
    requires at + 4 <= |s|
    ensures U32At(s[at..at + 4], 0) == U32At(s, at)
  {}

  method ReadU8(fat: DiskSlice) returns (r: Option<nat>)
    requires fat.Valid()
    modifies fat, fat.inner`pos
    ensures fat.Valid()
    ensures r.Some? <==> old(fat.offset) + 1 <= fat.size
    ensures r.Some? ==> r.value == fat.View()[old(fat.offset)] as int && fat.offset == old(fat.offset) + 1
  {
    var buf := fat.ReadExact(1);
    r := if buf.Some? then Some(buf.value[0] as int) else None;
  }

  method ReadU16(fat: DiskSlice) returns (r: Option<nat>)
    requires fat.Valid()
    modifies fat, fat.inner`pos
    ensures fat.Valid()
    ensures r.Some? <==> old(fat.offset) + 2 <= fat.size
    ensures r.Some? ==> r.value == U16At(fat.View(), old(fat.offset)) && fat.offset == old(fat.offset) + 2
  {
    var buf := fat.ReadExact(2);
    if buf.None? {
      return None;
    }
    U16Slice(fat.View(), old(fat.offset));
    r := Some(U16At(buf.value, 0));
  }

  method ReadU32(fat: DiskSlice) returns (r: Option<nat>)
    requires fat.Valid()
    modifies fat, fat.inner`pos
    ensures fat.Valid()
    ensures r.Some? <==> old(fat.offset) + 4 <= fat.size
    ensures r.Some? ==> r.value == U32At(fat.View(), old(fat.offset)) && fat.offset == old(fat.offset) + 4
  {
    var buf := fat.ReadExact(4);
    if buf.None? {
      return None;
    }
    U32Slice(fat.View(), old(fat.offset));
    r := Some(U32At(buf.value, 0));
  }

  // ----- single entries

  /** The stored word around entry `c`: 16 bits, or 32 for FAT32. */
  method ReadWord(fat: DiskSlice, t: FatType, c: nat) returns (r: Option<nat>)
    requires fat.Valid()
    modifies fat, fat.inner`pos
    ensures fat.Valid()
    ensures r.Some? <==> Holds(t, c, fat.size)
    ensures r.Some? ==> fat.offset == EntryOffset(t, c) + EntryWidth(t)
    ensures r.Some? ==>
              r.value == if t == Fat32 then U32At(fat.View(), EntryOffset(t, c))
                         else U16At(fat.View(), EntryOffset(t, c))
  {
    var at := match t case Fat12 => c + c / 2 case Fat16 => c * 2 case Fat32 => c * 4;
    var ok := fat.Seek(Start(at));
    if !ok {
      return None;
    }
    if t == Fat32 {
      r := ReadU32(fat);
    } else {
      r := ReadU16(fat);
    }
  }

  /** Cluster numbers that FAT32 entries use as marks. */
  predicate IsMark(t: FatType, c: nat) {
    t == Fat32 && 0x0FFF_FFF7 <= c <= 0x0FFF_FFFF
  }

  /** They are the numbers that would read as a mark if an entry held them. */
  lemma MarkIff(t: FatType, c: nat)
    ensures IsMark(t, c) <==> t == Fat32 && c < RawLimit(t) && (Decode(t, c) == Bad || Decode(t, c) == EndOfChain)
  {}

  /** Such a cluster is never reported as free or linked. */
  function Shielded(t: FatType, c: nat, v: FatValue): FatValue {
    if IsMark(t, c) && (v.Free? || v.Data?) then Bad else v
  }

  /** Decodes one entry; the byte offset of the cluster is a 32-bit number. */
  method ReadFat(fat: DiskSlice, t: FatType, c: nat) returns (r: Option<FatValue>)
    requires fat.Valid() && c < 0x4000_0000
    modifies fat, fat.inner`pos
    ensures fat.Valid()
    ensures r.Some? <==> Holds(t, c, fat.size)
    ensures r.Some? ==> r.value == Shielded(t, c, Decode(t, GetRaw(fat.View(), t, c)))
  {
    var word := ReadWord(fat, t, c);
    if word.None? {
      return None;
    }
    var raw := word.value;
    if t == Fat12 {
      Masks12(raw, 0);
      raw := if c % 2 == 0 then And(raw, 0x0FFF) else raw / 0x10;
    } else if t == Fat32 {
      Masks32(raw, 0);
      raw := And(raw, 0x0FFF_FFFF);
    }
    if raw == 0 {
      r := Some(if IsMark(t, c) then Bad else Free);
    } else if raw == BadMark(t) {
      r := Some(Bad);
    } else if raw > BadMark(t) {
      r := Some(EndOfChain);
    } else {
      r := Some(if IsMark(t, c) then Bad else Data(raw));
    }
  }

  /** The word stored back: the new value merged into the bits it does not own. */
  function MergedWord(word: nat, t: FatType, c: nat, raw: nat): nat {
    match t
    case Fat12 => if c % 2 == 0 then Or(And(word, 0xF000), raw) else Or(And(word, 0x000F), raw * 0x10)
    case Fat16 => raw
    case Fat32 => Or(raw, And(word, 0xF000_0000))
  }

  lemma MergedIsPacked(fat: seq<Byte>, t: FatType, c: nat, raw: nat)
    requires Holds(t, c, |fat|) && raw < RawLimit(t)
    ensures var word := if t == Fat32 then U32At(fat, EntryOffset(t, c)) else U16At(fat, EntryOffset(t, c));
            var merged := MergedWord(word, t, c, raw);
            if t == Fat32 then merged < 0x1_0000_0000 && Packed(fat, t, c, raw) == Le32(merged)
            else merged < 0x1_0000 && Packed(fat, t, c, raw) == Le16(merged)
  {
    hide And, Or, U16At, U32At, Le16, Le32;
    if t == Fat12 {
      Masks12(U16At(fat, EntryOffset(t, c)), raw);
    } else if t == Fat32 {
      Masks32(U32At(fat, EntryOffset(t, c)), raw);
    }
  }

  /** Encodes one entry into every mirror, keeping the bits it shares its bytes with. Freeing a cluster whose
      number is a mark is a caller's error. */
  method WriteFat(fat: DiskSlice, t: FatType, c: nat, v: FatValue) returns (ok: bool)
    requires fat.Valid() && c < 0x4000_0000 && Encodable(t, v) && !(IsMark(t, c) && v == Free)
    modifies fat, fat.inner
    ensures fat.Valid()
    ensures ok <==> Holds(t, c, fat.size)
    ensures ok ==> fat.View() == SetRaw(old(fat.View()), t, c, Encode(t, v))
    ensures ok ==> fat.inner.bytes == Mirrored(old(fat.inner.bytes), fat.begin, fat.size, fat.mirrors,
                                               EntryOffset(t, c), Packed(old(fat.View()), t, c, Encode(t, v)))
    ensures !ok ==> fat.inner.bytes == old(fat.inner.bytes)
  {
    hide MergedWord, Packed, Splice, U16At, U32At, Le16, Le32;
    var raw := match v
      case Free => 0
      case Bad => BadMark(t)
      case EndOfChain => if t == Fat12 then 0xFFF else if t == Fat16 then 0xFFFF else 0x0FFF_FFFF
      case Data(n) => n;
    var word := ReadWord(fat, t, c);
    if word.None? {
      return false;
    }
    MergedIsPacked(fat.View(), t, c, raw);
    var merged := MergedWord(word.value, t, c, raw);
    var buf := if t == Fat32 then Le32(merged) else Le16(merged);
    var sought := fat.Seek(Start(EntryOffset(t, c)));
    ok := fat.WriteAll(buf);
    assert buf[..|buf|] == buf;
  }

  // ----- streaming scans

  ghost predicate NoneFree(fat: seq<Byte>, t: FatType, lo: nat, hi: nat) {
    forall d :: lo <= d < hi ==> Holds(t, d, |fat|) && GetRaw(fat, t, d) != 0
  }

  /** `r` is the first free entry of the range, or none is free. */
  ghost predicate FirstFree(fat: seq<Byte>, t: FatType, start: nat, end: nat, r: Option<nat>) {
    match r
    case Some(c) => start <= c < end && Holds(t, c, |fat|) && GetRaw(fat, t, c) == 0 && NoneFree(fat, t, start, c)
    case None => NoneFree(fat, t, start, end)
  }

  ghost function FreeIn(fat: seq<Byte>, t: FatType, lo: nat, hi: nat): nat
    requires lo < hi ==> Holds(t, hi - 1, |fat|)
    decreases hi
  {
    if lo >= hi then 0
    else FreeIn(fat, t, lo, hi - 1) + if GetRaw(fat, t, hi - 1) == 0 then 1 else 0
  }

  /** One step of the rolling window: from an even entry to the next, one more byte is needed. */
  lemma RollOdd(fat: seq<Byte>, c: nat)
    requires c % 2 == 1 && Holds(Fat12, c, |fat|)
    ensures EntryOffset(Fat12, c) == EntryOffset(Fat12, c - 1) + 1
    ensures U16At(fat, EntryOffset(Fat12, c))
            == U16At(fat, EntryOffset(Fat12, c - 1)) / 0x100 + fat[EntryOffset(Fat12, c - 1) + 2] as int * 0x100
  {}

  lemma NextOffset(c: nat)
    ensures EntryOffset(Fat12, c + 1) == EntryOffset(Fat12, c) + if c % 2 == 0 then 1 else 2
  {}

  lemma Value12(fat: seq<Byte>, c: nat)
    requires Holds(Fat12, c, |fat|)
    ensures var packed := U16At(fat, EntryOffset(Fat12, c));
            GetRaw(fat, Fat12, c) == if c % 2 == 0 then And(packed, 0x0FFF) else packed / 0x10
  {
    Masks12(U16At(fat, EntryOffset(Fat12, c)), 0);
  }

  /** Rolls the two-byte window from entry `c` to entry `c + 1`. */
  method RollWindow(fat: DiskSlice, c: nat, packed: nat) returns (next: nat)
    requires fat.Valid() && Holds(Fat12, c, fat.size) && Holds(Fat12, c + 1, fat.size)
    requires fat.offset == EntryOffset(Fat12, c) + 2 && packed == U16At(fat.View(), EntryOffset(Fat12, c))
    modifies fat, fat.inner`pos
    ensures fat.Valid() && fat.offset == EntryOffset(Fat12, c + 1) + 2
    ensures next == U16At(fat.View(), EntryOffset(Fat12, c + 1))
  {
    hide U16At;
    NextOffset(c);
    if (c + 1) % 2 == 0 {
      var word := ReadU16(fat);
      next := word.value;
    } else {
      var nextByte := ReadU8(fat);
      RollOdd(fat.View(), c + 1);
      next := packed / 0x100 + nextByte.value * 0x100;
    }
  }

  /** FAT12 search: entries are decoded from a two-byte window rolled along the slice. */
  method FindFree12(fat: DiskSlice, start: nat, end: nat) returns (r: Option<nat>)
    requires fat.Valid() && start < end && Holds(Fat12, end - 1, fat.size)
    modifies fat, fat.inner`pos
    ensures fat.Valid() && FirstFree(fat.View(), Fat12, start, end, r)
  {
    hide U16At, GetRaw, And, EntryOffset;
    ghost var view := fat.View();
    var c := start;
    HoldsBelow(Fat12, end - 1, start, fat.size);
    var first := ReadWord(fat, Fat12, c);
    var packed := first.value;
    while true
      invariant fat.Valid() && fat.View() == view
      invariant start <= c < end && Holds(Fat12, c, fat.size) && NoneFree(view, Fat12, start, c)
      invariant fat.offset == EntryOffset(Fat12, c) + 2 && packed == U16At(view, EntryOffset(Fat12, c))
      decreases end - c
    {
      Value12(view, c);
      var val := if c % 2 == 0 then And(packed, 0x0FFF) else packed / 0x10;
      if val == 0 {
        return Some(c);
      }
      c := c + 1;
      if c == end {
        return None;
      }
      HoldsBelow(Fat12, end - 1, c, fat.size);
      packed := RollWindow(fat, c - 1, packed);
    }
  }

  /** Reads the entry the stream stands at, for 16- and 32-bit entries. */
  method ReadWide(fat: DiskSlice, t: FatType, ghost c: nat) returns (val: nat)
    requires fat.Valid() && t != Fat12 && Holds(t, c, fat.size) && fat.offset == EntryOffset(t, c)
    modifies fat, fat.inner`pos
    ensures fat.Valid() && fat.offset == EntryOffset(t, c + 1) && val == GetRaw(fat.View(), t, c)
  {
    hide U16At, U32At;
    if t == Fat16 {
      var word := ReadU16(fat);
      val := word.value;
    } else {
      var word := ReadU32(fat);
      Masks32(word.value, 0);
      val := And(word.value, 0x0FFF_FFFF);
    }
  }

  /** FAT16 and FAT32 search: one word per entry. */
  method FindFreeWide(fat: DiskSlice, t: FatType, start: nat, end: nat) returns (r: Option<nat>)
    requires fat.Valid() && t != Fat12 && start <= end && (end == 0 || Holds(t, end - 1, fat.size))
    modifies fat, fat.inner`pos
    ensures fat.Valid() && FirstFree(fat.View(), t, start, end, r)
  {
    hide GetRaw, SlotStart, Flat;
    ghost var view := fat.View();
    var c := start;
    var sought := fat.Seek(Start(EntryOffset(t, c)));
    while c < end
      invariant fat.Valid() && fat.View() == view && start <= c <= end
      invariant fat.offset == EntryOffset(t, c) && NoneFree(view, t, start, c)
    {
      HoldsBelow(t, end - 1, c, fat.size);
      var val := ReadWide(fat, t, c);
      if val == 0 {
        return Some(c);
      }
      c := c + 1;
    }
    r := None;
  }

  /** The odd entries of the counting loop: only zero-ness of the value is right, and that suffices. */
  lemma OddIsZero(fat: seq<Byte>, c: nat)
    requires c % 2 == 1 && Holds(Fat12, c, |fat|)
    ensures var prev := U16At(fat, EntryOffset(Fat12, c - 1));
            var byte := fat[EntryOffset(Fat12, c - 1) + 2] as int;
            byte * 0x100 + prev / 0x1000 == 0 <==> GetRaw(fat, Fat12, c) == 0
  {
    var at := EntryOffset(Fat12, c - 1);
    ShiftedPair(fat, at + 1);
    assert U16At(fat, at) / 0x1000 == fat[at + 1] as int / 0x10;
  }

  method CountFree12(fat: DiskSlice, end: nat) returns (count: nat)
    requires fat.Valid() && (end > RESERVED_FAT_ENTRIES ==> Holds(Fat12, end - 1, fat.size))
    requires Holds(Fat12, RESERVED_FAT_ENTRIES, fat.size)
    modifies fat, fat.inner`pos
    ensures fat.Valid() && count == FreeIn(fat.View(), Fat12, RESERVED_FAT_ENTRIES, end)
  {
    hide U16At, GetRaw, And, SlotStart, Flat;
    ghost var view := fat.View();
    count := 0;
    var c := RESERVED_FAT_ENTRIES;
    var sought := fat.Seek(Start(c * 3 / 2));
    var prev := 0;
    while c < end
      invariant fat.Valid() && fat.View() == view && RESERVED_FAT_ENTRIES <= c
      invariant c <= end || c == RESERVED_FAT_ENTRIES
      invariant fat.offset == EntryOffset(Fat12, c) + c % 2
      invariant c % 2 == 1 ==> Holds(Fat12, c - 1, |view|) && prev == U16At(view, EntryOffset(Fat12, c - 1))
      invariant count == FreeIn(view, Fat12, RESERVED_FAT_ENTRIES, c)
    {
      HoldsBelow(Fat12, end - 1, c, fat.size);
      var packed, val;
      if c % 2 == 0 {
        var word := ReadU16(fat);
        packed := word.value;
        Value12(view, c);
        val := And(packed, 0x0FFF);
      } else {
        var byte := ReadU8(fat);
        packed := byte.value;
        OddIsZero(view, c);
        val := packed * 0x100 + prev / 0x1000;
      }
      assert val == 0 <==> GetRaw(view, Fat12, c) == 0;
      prev := packed;
      if val == 0 {
        count := count + 1;
      }
      c := c + 1;
    }
  }

  method CountFreeWide(fat: DiskSlice, t: FatType, end: nat) returns (count: nat)
    requires fat.Valid() && t != Fat12 && (end > RESERVED_FAT_ENTRIES ==> Holds(t, end - 1, fat.size))
    requires Holds(t, RESERVED_FAT_ENTRIES, fat.size)
    modifies fat, fat.inner`pos
    ensures fat.Valid() && count == FreeIn(fat.View(), t, RESERVED_FAT_ENTRIES, end)
  {
    hide GetRaw, SlotStart, Flat;
    ghost var view := fat.View();
    count := 0;
    var c := RESERVED_FAT_ENTRIES;
    var sought := fat.Seek(Start(EntryOffset(t, c)));
    while c < end
      invariant fat.Valid() && fat.View() == view && RESERVED_FAT_ENTRIES <= c
      invariant c <= end || c == RESERVED_FAT_ENTRIES
      invariant fat.offset == EntryOffset(t, c)
      invariant count == FreeIn(view, t, RESERVED_FAT_ENTRIES, c)
    {
      HoldsBelow(t, end - 1, c, fat.size);
      var val := ReadWide(fat, t, c);
      if val == 0 {
        count := count + 1;
      }
      c := c + 1;
    }
  }
}
