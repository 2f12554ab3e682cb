/** Long file names in directory entries (deps/rust-fatfs/src/dir.rs and dir_entry.rs): a name is cut into
    13-unit parts, stored in 32-byte slots last part first, and put together again by the reader. */
module LongNames {
  import opened Wrappers
  import opened Bits
  import opened FatTypes
  import opened FatEntries

  /** A UTF-16 code unit. */
  type Unit = x: nat | x < 0x1_0000

  const LFN_PART_LEN := 13
  const MAX_LONG_NAME_LEN := 255
  const MAX_LONG_DIR_ENTRIES := 20
  const LFN_ENTRY_LAST_FLAG := 0x40
  const LFN_PADDING: Unit := 0xFFFF
  const SFN_SIZE := 11
  const DIR_ENTRY_DELETED_FLAG: Byte := 0xE5
  const ATTR_LFN: Byte := 0x0F

  type Slot = s: seq<Byte> | |s| == DIR_ENTRY_SIZE witness seq(DIR_ENTRY_SIZE, i => 0 as Byte)

  type Part = s: seq<Unit> | |s| == LFN_PART_LEN witness seq(LFN_PART_LEN, i => 0)

  datatype Lfn = Lfn(order: Byte, units: Part, checksum: Byte)
  {
    function Index(): nat {
      order as int % 0x20
    }

    predicate IsLast() {
      order as int / LFN_ENTRY_LAST_FLAG % 2 == 1
    }
  }

  // ----- names

  function Utf8Len(c: char): (n: nat)
    ensures 1 <= n <= 4
  {
    if c as int < 0x80 then 1 else if c as int < 0x800 then 2 else if c as int < 0x1_0000 then 3 else 4
  }

  /** Length of a name in bytes. */
  function Utf8Length(name: string): nat {
    if name == [] then 0 else Utf8Length(name[..|name| - 1]) + Utf8Len(name[|name| - 1])
  }

  function Utf16Units(c: char): (r: seq<Unit>)
    ensures 1 <= |r| <= Utf8Len(c)
  {
    var v := c as int;
    if v < 0x1_0000 then [v] else [0xD800 + (v - 0x1_0000) / 0x400, 0xDC00 + (v - 0x1_0000) % 0x400]
  }

  function Utf16(name: string): (r: seq<Unit>)
    ensures |name| <= |r| <= Utf8Length(name)
  {
    if name == [] then [] else Utf16(name[..|name| - 1]) + Utf16Units(name[|name| - 1])
  }

  predicate AllowedInLongName(c: char) {
    'a' <= c <= 'z' || 'A' <= c <= 'Z' || '0' <= c <= '9' || 0x80 <= c as int <= 0xFFFF
    || c in {'$', '%', '\'', '-', '_', '@', '~', '`', '!', '(', ')', '{', '}', '.', ' ', '+', ','}
    || c in {';', '=', '[', ']', '^', '#', '&'}
  }

  /** Everything in the basic plane from the space on, but for nine marks and the delete character. */
  lemma LongAllowedIff(c: char)
    ensures AllowedInLongName(c)
            <==> 0x20 <= c as int <= 0xFFFF && c as int != 0x7F
                 && c !in {'"', '*', '/', ':', '<', '>', '?', '\\', '|'}
  {}

  /** Bits of a character that an UTF-8 sequence of `n` bytes carries. */
  function Utf8Bits(n: nat): nat {
    if n == 1 then 7 else 5 * n + 1
  }

  /** A character takes as few bytes as carry its bits. */
  lemma Utf8Least(c: char)
    ensures var n := Utf8Len(c);
            && c as int < Pow2(Utf8Bits(n)) && (n > 1 ==> Pow2(Utf8Bits(n - 1)) <= c as int)
  {
    SmallPow2();
    Pow2Byte(3);
    Pow2Byte(13);
  }

  predicate IsLowHalf(u: Unit) {
    0xDC00 <= u < 0xE000
  }

  /** The character that one unit or a pair stands for. */
  function CharOf(u: seq<int>): int
    requires 1 <= |u| <= 2
  {
    if |u| == 1 then u[0] else 0x1_0000 + 0x400 * (u[0] - 0xD800) + (u[1] - 0xDC00)
  }

  /** A character is one unit or a pair, and the units tell it. */
  lemma UnitsTell(c: char)
    ensures var u := Utf16Units(c);
            && 1 <= |u| <= 2 && CharOf(u) == c as int
            && (|u| == 2 <==> IsLowHalf(u[|u| - 1])) && (|u| == 2 ==> 0xD800 <= u[0] < 0xDC00)
  {}

  lemma LastUnits(name: string)
    requires name != []
    ensures var u, v := Utf16(name), Utf16Units(name[|name| - 1]);
            && |v| <= |u| && u[|u| - |v|..] == v && u[..|u| - |v|] == Utf16(name[..|name| - 1])
            && u[|u| - 1] == v[|v| - 1]
  {
    hide Utf16Units;
  }

  /** No two names have the same units. */
  lemma {:induction false} Utf16TellsApart(a: string, b: string)
    requires Utf16(a) == Utf16(b)
    ensures a == b
    decreases |a|
  {
    hide Utf16, Utf16Units, CharOf;
    if a != [] && b != [] {
      LastUnits(a);
      LastUnits(b);
      UnitsTell(a[|a| - 1]);
      UnitsTell(b[|b| - 1]);
      Utf16TellsApart(a[..|a| - 1], b[..|b| - 1]);
    }
  }

  datatype NameError = InvalidFileNameLength | UnsupportedFileNameCharacter

  /** What makes a long name acceptable. */
  predicate IsLongName(name: string) {
    && name != [] && Utf8Length(name) <= MAX_LONG_NAME_LEN
    && forall i :: 0 <= i < |name| ==> AllowedInLongName(name[i])
  }

  /** A name of ASCII characters takes a byte and a unit for each. */
  lemma {:induction false} AsciiLength(name: string)
    requires forall i :: 0 <= i < |name| ==> name[i] as int < 0x80
    ensures Utf8Length(name) == |Utf16(name)| == |name|
  {
    if name != [] {
      AsciiLength(name[..|name| - 1]);
    }
  }

  /** The longest name is of 255 bytes, and twenty parts hold it. */
  lemma LongestName(n: nat)
    ensures IsLongName(seq(n, i => 'a')) <==> 1 <= n <= 255
    ensures n == 255 ==> NumParts(Utf16(seq(n, i => 'a'))) == MAX_LONG_DIR_ENTRIES == 20
  {
    AsciiLength(seq(n, i => 'a'));
  }

  method ValidateLongName(name: string) returns (r: Option<NameError>)
    ensures r.None? <==> IsLongName(name)
    ensures r == Some(InvalidFileNameLength) <==> name == [] || Utf8Length(name) > MAX_LONG_NAME_LEN
    ensures r.None? ==> 1 <= |Utf16(name)| <= MAX_LONG_NAME_LEN
  {
    if name == [] {
      return Some(InvalidFileNameLength);
    }
    if Utf8Length(name) > MAX_LONG_NAME_LEN {
      return Some(InvalidFileNameLength);
    }
    for i := 0 to |name|
      invariant forall j :: 0 <= j < i ==> AllowedInLongName(name[j])
    {
      if !AllowedInLongName(name[i]) {
        return Some(UnsupportedFileNameCharacter);
      }
    }
    r := None;
  }

  // ----- 32-byte slots

  function Pack(units: seq<Unit>): (r: seq<Byte>)
    ensures |r| == 2 * |units|
    ensures forall i :: 0 <= i < |units| ==> U16At(r, 2 * i) == units[i]
  {
    if units == [] then [] else Pack(units[..|units| - 1]) + Le16(units[|units| - 1])
  }

  function Unpack(bytes: seq<Byte>, at: nat, n: nat): (r: seq<Unit>)
    requires at + 2 * n <= |bytes|
    ensures |r| == n && forall i :: 0 <= i < n ==> r[i] == U16At(bytes, at + 2 * i)
  {
    if n == 0 then [] else Unpack(bytes, at, n - 1) + [U16At(bytes, at + 2 * (n - 1))]
  }

  function Serialize(e: Lfn): Slot {
    [e.order] + Pack(e.units[..5]) + [ATTR_LFN, 0, e.checksum] + Pack(e.units[5..11]) + [0, 0] + Pack(e.units[11..])
  }

  predicate IsLfnSlot(slot: Slot) {
    slot[11] as int % 0x10 == 0x0F
  }

  function Deserialize(slot: Slot): Lfn {
    Lfn(slot[0], Unpack(slot, 1, 5) + Unpack(slot, 14, 6) + Unpack(slot, 28, 2), slot[13])
  }

  /** What is serialized is recognised as a long-name slot and reads back. */
  lemma SerializeRoundTrip(e: Lfn)
    ensures IsLfnSlot(Serialize(e)) && Serialize(e)[0] == e.order && Deserialize(Serialize(e)) == e
  {
    hide Pack, Unpack, U16At;
    var s := Serialize(e);
    UnpackPacked([e.order], e.units[..5], s[11..], 1);
    UnpackPacked(s[..14], e.units[5..11], s[26..], 14);
    UnpackPacked(s[..28], e.units[11..], [], 28);
    assert s == [e.order] + Pack(e.units[..5]) + s[11..];
    assert s == s[..14] + Pack(e.units[5..11]) + s[26..];
    assert s == s[..28] + Pack(e.units[11..]) + [];
    assert e.units[..5] + e.units[5..11] + e.units[11..] == e.units;
  }

  /** Where the parts of a long-name slot lie: order, five units, attributes, checksum, six units, two units. */
  lemma SlotPlaces(e: Lfn, i: nat)
    requires i < LFN_PART_LEN
    ensures var s := Serialize(e);
            && s[0] == e.order && s[11] == 0x0F && s[12] == 0 && s[13] == e.checksum && s[26] == 0 && s[27] == 0
            && U16At(s, if i < 5 then 1 + 2 * i else if i < 11 then 4 + 2 * i else 6 + 2 * i) == e.units[i]
  {
    hide U16At, Pack;
    var s := Serialize(e);
    var a, b, c := Pack(e.units[..5]), Pack(e.units[5..11]), Pack(e.units[11..]);
    if i < 5 {
      PackedAt(s, a, 1, i);
    } else if i < 11 {
      PackedAt(s, b, 14, i - 5);
    } else {
      PackedAt(s, c, 28, i - 11);
    }
  }

  lemma PackedAt(s: seq<Byte>, p: seq<Byte>, at: nat, i: nat)
    requires at + |p| <= |s| && s[at..at + |p|] == p && 2 * i + 2 <= |p|
    ensures U16At(s, at + 2 * i) == U16At(p, 2 * i)
  {
    assert s[at + 2 * i] == p[2 * i] && s[at + 2 * i + 1] == p[2 * i + 1];
  }

  /** The order byte: digits 0 to 4 number the part, digit 6 marks the last one. */
  lemma OrderOf(e: Lfn, i: nat)
    ensures e.IsLast() <==> On(e.order as int, 6)
    ensures e.Index() < 0x20 && (i < 5 ==> (On(e.Index(), i) <==> On(e.order as int, i)))
  {
    SmallPow2();
    OnAt(e.order as int, 6);
    hide On, Pow2;
    if i < 5 {
      OnLow(e.order as int, 5, i);
    }
  }

  lemma UnpackPacked(pre: seq<Byte>, units: seq<Unit>, post: seq<Byte>, at: nat)
    requires at == |pre|
    ensures Unpack(pre + Pack(units) + post, at, |units|) == units
  {
    var s := pre + Pack(units) + post;
    forall i | 0 <= i < |units| ensures U16At(s, at + 2 * i) == units[i] {
      assert s[at + 2 * i] == Pack(units)[2 * i] && s[at + 2 * i + 1] == Pack(units)[2 * i + 1];
    }
  }

  // ----- checksum of the short name

  function ChecksumStep(sum: Byte, b: Byte): Byte {
    ((Rotate(0x80, sum as int) + b as int) % 0x100) as Byte
  }

  function ChecksumOf(name: seq<Byte>): Byte {
    if name == [] then 0 else ChecksumStep(ChecksumOf(name[..|name| - 1]), name[|name| - 1])
  }

  /** A step moves the sum's digits round by one place, and then adds, wrapping around. */
  lemma ChecksumStepIs(sum: Byte, b: Byte, i: nat)
    requires i < 8
    ensures On(ChecksumStep(sum, 0) as int, i) <==> On(sum as int, if i < 7 then i + 1 else 0)
    ensures ChecksumStep(sum, b) as int == (ChecksumStep(sum, 0) as int + b as int) % 0x100
  {
    SmallPow2();
    hide On, Pow2;
    OnRotate(7, sum as int, i);
  }

  lemma StepsDiffer(s: Byte, t: Byte, a: Byte, b: Byte)
    requires (s == t) != (a == b)
    ensures ChecksumStep(s, a) != ChecksumStep(t, b)
  {
    hide Rotate;
    if s != t {
      RotationsDiffer(0x80, s as int, t as int);
    }
    SumsDiffer(0x100, Rotate(0x80, s as int), Rotate(0x80, t as int), a as int, b as int);
  }

  /** Names that differ in one byte have different checksums. */
  lemma {:induction false} ChecksumTellsApart(a: seq<Byte>, b: seq<Byte>, i: nat)
    requires |a| == |b| && i < |a| && a[i] != b[i]
    requires forall j :: 0 <= j < |a| && j != i ==> a[j] == b[j]
    ensures ChecksumOf(a) != ChecksumOf(b)
    decreases |a|
  {
    hide ChecksumStep;
    var n := |a| - 1;
    if i == n {
      assert a[..n] == b[..n];
    } else {
      ChecksumTellsApart(a[..n], b[..n], i);
    }
    StepsDiffer(ChecksumOf(a[..n]), ChecksumOf(b[..n]), a[n], b[n]);
  }

  method LfnChecksum(name: seq<Byte>) returns (sum: Byte)
    ensures sum == ChecksumOf(name)
  {
    hide ChecksumStep;
    sum := 0;
    assert name[..0] == [];
    for i := 0 to |name|
      invariant sum == ChecksumOf(name[..i])
    {
      assert name[..i + 1][..i] == name[..i];
      sum := ChecksumStep(sum, name[i]);
    }
    assert name[..|name|] == name;
  }

  // ----- trailing filler

  predicate IsFiller(u: Unit) {
    u == 0 || u == LFN_PADDING
  }

  function Trim(s: seq<Unit>): (r: seq<Unit>)
    ensures r <= s && (r != [] ==> !IsFiller(r[|r| - 1]))
    ensures forall i :: |r| <= i < |s| ==> IsFiller(s[i])
  {
    if s != [] && IsFiller(s[|s| - 1]) then Trim(s[..|s| - 1]) else s
  }

  lemma {:induction false} TrimUnique(s: seq<Unit>, n: nat)
    requires n <= |s| && (n > 0 ==> !IsFiller(s[n - 1])) && forall i :: n <= i < |s| ==> IsFiller(s[i])
    ensures Trim(s) == s[..n]
  {
    var r := Trim(s);
    assert r == s[..|r|];
  }

  /** Filler at the end is all that trimming removes. */
  lemma TrimPadded(s: seq<Unit>, pad: seq<Unit>)
    requires forall i :: 0 <= i < |pad| ==> IsFiller(pad[i])
    ensures Trim(s + pad) == Trim(s)
  {
    var r := Trim(s);
    assert forall i :: |r| <= i < |s + pad| ==> IsFiller((s + pad)[i]);
    assert (s + pad)[..|r|] == r;
    TrimUnique(s + pad, |r|);
  }

  // ----- writing: the entries of a name

  function NumParts(name: seq<Unit>): (n: nat)
    ensures LFN_PART_LEN * n < |name| + LFN_PART_LEN && |name| <= LFN_PART_LEN * n
  {
    (|name| + LFN_PART_LEN - 1) / LFN_PART_LEN
  }

  /** The name as stored: zero-terminated and filled up, unless it fills its last part exactly. */
  function Padding(name: seq<Unit>): (r: seq<Unit>)
    ensures |name| + |r| == LFN_PART_LEN * NumParts(name)
    ensures forall i :: 0 <= i < |r| ==> r[i] == if i == 0 then 0 else LFN_PADDING
  {
    seq(LFN_PART_LEN * NumParts(name) - |name|, i => if i == 0 then 0 else LFN_PADDING)
  }

  /** Entry number `i` of a name, counting from 1; the highest one carries the flag. */
  function EntryOf(name: seq<Unit>, checksum: Byte, i: nat): (e: Lfn)
    requires 1 <= i <= NumParts(name) <= MAX_LONG_DIR_ENTRIES
    ensures e.Index() == i && e.checksum == checksum && (e.IsLast() <==> i == NumParts(name))
            && e.order != 0 && e.order != 0xE5
  {
    Lfn((if i == NumParts(name) then i + LFN_ENTRY_LAST_FLAG else i) as Byte,
        (name + Padding(name))[LFN_PART_LEN * (i - 1)..LFN_PART_LEN * i], checksum)
  }

  /** The entries in stream order: the last part comes first. */
  ghost function EntriesOf(name: seq<Unit>, checksum: Byte, count: nat): (es: seq<Lfn>)
    requires count <= NumParts(name) <= MAX_LONG_DIR_ENTRIES
    ensures |es| == count
    ensures forall k :: 0 <= k < count ==> es[k] == EntryOf(name, checksum, NumParts(name) - k)
  {
    if count == 0 then []
    else EntriesOf(name, checksum, count - 1) + [EntryOf(name, checksum, NumParts(name) - (count - 1))]
  }

  class LfnEntriesGenerator {
    const name: seq<Unit>
    const checksum: Byte
    const num: nat
    var index: nat

    predicate Valid()
      reads this
    {
      |name| <= MAX_LONG_NAME_LEN && num == NumParts(name) && index <= num
    }

    constructor (name: seq<Unit>, checksum: Byte)
      requires |name| <= MAX_LONG_NAME_LEN
      ensures Valid() && this.name == name && this.checksum == checksum && index == 0
    {
      this.name, this.checksum := name, checksum;
      num := (|name| + LFN_PART_LEN - 1) / LFN_PART_LEN;
      index := 0;
    }

    /** The next entry in stream order. */
    method Next() returns (r: Option<Lfn>)
      requires Valid()
      modifies this
      ensures Valid()
      ensures r == if old(index) < num then Some(EntryOf(name, checksum, num - old(index))) else None
      ensures index == if old(index) < num then old(index) + 1 else old(index)
    {
      if index == num {
        return None;
      }
      var lfnIndex := num - index;
      var order := lfnIndex;
      if index == 0 {
        order := order + LFN_ENTRY_LAST_FLAG;
      }
      var at := LFN_PART_LEN * (lfnIndex - 1);
      var chunk := name[at..Min(at + LFN_PART_LEN, |name|)];
      var part := seq(LFN_PART_LEN, i => LFN_PADDING);
      part := chunk + part[|chunk|..];
      if |chunk| < LFN_PART_LEN {
        part := part[|chunk| := 0];
      }
      assert part == (name + Padding(name))[at..at + LFN_PART_LEN];
      index := index + 1;
      r := Some(Lfn(order as Byte, part, checksum));
    }
  }

  /** The slots of a name, as they go to the directory. */
  method WriteLfnEntries(name: seq<Unit>, checksum: Byte) returns (slots: seq<Slot>)
    requires |name| <= MAX_LONG_NAME_LEN
    ensures NumParts(name) <= MAX_LONG_DIR_ENTRIES && AreSlotsOf(slots, EntriesOf(name, checksum, NumParts(name)))
  {
    var generator := new LfnEntriesGenerator(name, checksum);
    slots := [];
    while true
      invariant generator.Valid() && generator.name == name && generator.checksum == checksum && fresh(generator)
      invariant AreSlotsOf(slots, EntriesOf(name, checksum, generator.index))
      decreases generator.num - generator.index
    {
      var e := generator.Next();
      if e.None? {
        break;
      }
      SerializeRoundTrip(e.value);
      slots := slots + [Serialize(e.value)];
    }
  }

  /** Slots that decode to the given entries, and that no reader takes for a deleted slot or the end. */
  ghost predicate AreSlotsOf(slots: seq<Slot>, es: seq<Lfn>) {
    && |slots| == |es|
    && forall i :: 0 <= i < |es| ==>
         && IsLfnSlot(slots[i]) && Deserialize(slots[i]) == es[i] && slots[i][0] != 0
         && slots[i][0] != DIR_ENTRY_DELETED_FLAG
  }

  // ----- reading: runs of entries

  /** Part numbers descend by one from a flagged entry, and the checksums agree. */
  ghost predicate IsRun(run: seq<Lfn>) {
    && |run| > 0 && run[0].IsLast() && run[0].Index() <= MAX_LONG_DIR_ENTRIES && 1 <= run[|run| - 1].Index()
    && (forall j :: 0 <= j < |run| ==> run[j].Index() + j == run[0].Index() && run[j].checksum == run[0].checksum)
    && (forall j :: 0 < j < |run| ==> !run[j].IsLast())
  }

  /** ... down to part 1. */
  ghost predicate IsWholeRun(run: seq<Lfn>) {
    IsRun(run) && run[|run| - 1].Index() == 1
  }

  /** The parts in name order. */
  ghost function Text(run: seq<Lfn>): (r: seq<Unit>)
    ensures |r| == LFN_PART_LEN * |run|
  {
    if run == [] then [] else run[|run| - 1].units + Text(run[..|run| - 1])
  }

  /** The run under construction after one more entry. */
  ghost function Extend(run: seq<Lfn>, e: Lfn): seq<Lfn> {
    if !(1 <= e.Index() <= MAX_LONG_DIR_ENTRIES) then []
    else if e.IsLast() then [e]
    else if run != [] && e.Index() + 1 == run[|run| - 1].Index() && e.checksum == run[0].checksum then run + [e]
    else []
  }

  ghost function RunAfter(es: seq<Lfn>): seq<Lfn> {
    if es == [] then [] else Extend(RunAfter(es[..|es| - 1]), es[|es| - 1])
  }

  /** The name a reader attaches to a short entry whose checksum is `checksum`, after the entries `es`. */
  ghost function NameOf(es: seq<Lfn>, checksum: Byte): seq<Unit> {
    var run := RunAfter(es);
    if run != [] && run[|run| - 1].Index() == 1 && run[0].checksum == checksum then Trim(Text(run)) else []
  }

  lemma ExtendIsRun(run: seq<Lfn>, e: Lfn)
    requires run == [] || IsRun(run)
    ensures Extend(run, e) == [] || (IsRun(Extend(run, e)) && (Extend(run, e) == [e] || Extend(run, e) == run + [e]))
  {
    hide Lfn.Index, Lfn.IsLast;
  }

  /** Whatever the entries were, what is under construction is a run that ends here. */
  lemma {:induction false} RunIsSuffix(es: seq<Lfn>)
    ensures RunAfter(es) == [] || IsRun(RunAfter(es))
    ensures |RunAfter(es)| <= |es| && RunAfter(es) == es[|es| - |RunAfter(es)|..]
    decreases |es|
  {
    hide IsRun, Extend;
    if es != [] {
      RunIsSuffix(es[..|es| - 1]);
      ExtendIsRun(RunAfter(es[..|es| - 1]), es[|es| - 1]);
    }
  }

  /** Every run that ends here is found, whatever precedes it. */
  lemma {:induction false} RunIsFound(es: seq<Lfn>, k: nat)
    requires k < |es| && IsRun(es[k..])
    ensures RunAfter(es) == es[k..]
    decreases |es|
  {
    hide Lfn.Index, Lfn.IsLast;
    var init, last := es[..|es| - 1], es[|es| - 1];
    var run := es[k..];
    assert run[|run| - 1] == last;
    if k < |es| - 1 {
      assert init[k..] == run[..|run| - 1];
      assert run[|run| - 2].Index() == last.Index() + 1;
      RunIsFound(init, k);
      assert es[k..] == init[k..] + [last];
    }
  }

  /** A long name is never pieced together from anything but one whole run with the right checksum. */
  lemma NameIsWholeRun(es: seq<Lfn>, checksum: Byte)
    ensures NameOf(es, checksum) != [] ==>
              exists k :: 0 <= k < |es| && IsWholeRun(es[k..]) && es[k].checksum == checksum
                          && NameOf(es, checksum) == Trim(Text(es[k..]))
  {
    RunIsSuffix(es);
    if NameOf(es, checksum) != [] {
      var k := |es| - |RunAfter(es)|;
      assert IsWholeRun(es[k..]) && es[k] == RunAfter(es)[0];
    }
  }

  /** ... and such a run always gives the name. */
  lemma WholeRunIsName(es: seq<Lfn>, k: nat, checksum: Byte)
    requires k < |es| && IsWholeRun(es[k..]) && es[k].checksum == checksum
    ensures NameOf(es, checksum) == Trim(Text(es[k..]))
  {
    RunIsFound(es, k);
    assert es[k..][0] == es[k];
  }

  /** A short entry whose name has been changed in one byte does not keep its long name. */
  lemma ChangedNameIsDropped(es: seq<Lfn>, a: seq<Byte>, b: seq<Byte>, i: nat)
    requires |a| == |b| && i < |a| && a[i] != b[i] && forall j :: 0 <= j < |a| && j != i ==> a[j] == b[j]
    ensures NameOf(es, ChecksumOf(a)) == [] || NameOf(es, ChecksumOf(b)) == []
  {
    ChecksumTellsApart(a, b, i);
  }

  class LongNameBuilder {
    var buf: seq<Unit>
    var chksum: Byte
    var index: nat
    ghost var run: seq<Lfn>

    ghost predicate Valid()
      reads this
    {
      if index == 0 then run == [] && buf == []
      else
        && IsRun(run) && index == run[|run| - 1].Index() && chksum == run[0].checksum
        && |buf| == LFN_PART_LEN * (index + |run| - 1)
        && buf[LFN_PART_LEN * (index - 1)..] == Text(run)
    }

    constructor ()
      ensures Valid() && run == []
    {
      buf, chksum, index, run := [], 0, 0, [];
    }

    method Clear()
      modifies this
      ensures Valid() && run == []
    {
      buf, index, run := [], 0, [];
    }

    /** Resizing keeps what was there; only a whole run overwrites all of it. */
    method SetLen(len: nat)
      modifies this`buf
      ensures |buf| == len && (len <= |old(buf)| ==> buf == old(buf)[..len])
    {
      buf := if len <= |buf| then buf[..len] else buf + seq(len - |buf|, i => 0);
    }

    method Process(e: Lfn)
      requires Valid()
      modifies this
      ensures Valid() && run == Extend(old(run), e)
    {
      hide Text;
      var i := e.Index();
      if i == 0 || i > MAX_LONG_DIR_ENTRIES {
        Clear();
        return;
      }
      if e.IsLast() {
        index, chksum := i, e.checksum;
        SetLen(i * LFN_PART_LEN);
        run := [];
      } else if index == 0 || i != index - 1 || e.checksum != chksum {
        Clear();
        return;
      } else {
        index := index - 1;
      }
      var pos := LFN_PART_LEN * (i - 1);
      TextOne(run, e);
      TextBehind(buf, e.units, pos, Text(run));
      buf := buf[..pos] + e.units + buf[pos + LFN_PART_LEN..];
      run := run + [e];
    }

    method ValidateChksum(shortName: seq<Byte>)
      requires Valid()
      modifies this
      ensures Valid() && run == if old(run) != [] && old(run)[0].checksum == ChecksumOf(shortName) then old(run) else []
    {
      if index == 0 {
        return;
      }
      var sum := LfnChecksum(shortName);
      if sum != chksum {
        Clear();
      }
    }

    /** The name, if the run is whole. */
    method IntoBuf() returns (name: seq<Unit>)
      requires Valid()
      modifies this
      ensures name == if old(run) != [] && old(run)[|old(run)| - 1].Index() == 1 then Trim(Text(old(run))) else []
    {
      if index == 1 {
        Truncate();
      } else if index != 0 {
        Clear();
      }
      name := buf;
    }

    /** Drops the filler at the end. */
    method Truncate()
      modifies this`buf
      ensures buf == Trim(old(buf))
    {
      var n: nat := |buf|;
      while n > 0 && IsFiller(buf[n - 1])
        invariant n <= |buf| && forall i :: n <= i < |buf| ==> IsFiller(buf[i])
      {
        n := n - 1;
      }
      TrimUnique(buf, n);
      SetLen(n);
      assert buf == old(buf)[..n];
    }
  }

  /** A part put before the text so far. */
  lemma TextBehind(buf: seq<Unit>, part: seq<Unit>, pos: nat, text: seq<Unit>)
    requires |part| == LFN_PART_LEN && pos + LFN_PART_LEN <= |buf| && buf[pos + LFN_PART_LEN..] == text
    ensures var after := buf[..pos] + part + buf[pos + LFN_PART_LEN..];
            |after| == |buf| && after[pos..] == part + text
  {}

  lemma TextOne(run: seq<Lfn>, e: Lfn)
    ensures Text(run + [e]) == e.units + Text(run)
    ensures Text([]) == []
  {
    assert (run + [e])[..|run|] == run;
  }

  // ----- the round trip

  /** The generated entries are one whole run. */
  lemma GeneratedIsRun(name: seq<Unit>, checksum: Byte)
    requires 1 <= |name| <= MAX_LONG_NAME_LEN
    ensures NumParts(name) <= MAX_LONG_DIR_ENTRIES && IsWholeRun(EntriesOf(name, checksum, NumParts(name)))
  {}

  lemma SplitAt(s: seq<Unit>, a: nat, b: nat)
    requires a <= b <= |s|
    ensures s[a..] == s[a..b] + s[b..]
  {}

  /** ... and hold the padded name. */
  lemma {:induction false} GeneratedText(name: seq<Unit>, checksum: Byte, count: nat)
    requires count <= NumParts(name) <= MAX_LONG_DIR_ENTRIES
    ensures Text(EntriesOf(name, checksum, count)) == (name + Padding(name))[LFN_PART_LEN * (NumParts(name) - count)..]
  {
    hide NumParts, Padding, Lfn.Index, Lfn.IsLast;
    var padded := name + Padding(name);
    if count > 0 {
      GeneratedText(name, checksum, count - 1);
      var es := EntriesOf(name, checksum, count);
      assert es[..count - 1] == EntriesOf(name, checksum, count - 1);
      var i := NumParts(name) - count;
      assert es[count - 1].units == padded[LFN_PART_LEN * i..LFN_PART_LEN * (i + 1)];
      SplitAt(padded, LFN_PART_LEN * i, LFN_PART_LEN * (i + 1));
    }
  }

  /** Whatever entries precede them, the entries of a name read back as that name less trailing filler. */
  lemma NameRoundTrip(before: seq<Lfn>, name: seq<Unit>, checksum: Byte)
    requires 1 <= |name| <= MAX_LONG_NAME_LEN
    ensures NumParts(name) <= MAX_LONG_DIR_ENTRIES
    ensures NameOf(before + EntriesOf(name, checksum, NumParts(name)), checksum) == Trim(name)
  {
    GeneratedIsRun(name, checksum);
    GeneratedText(name, checksum, NumParts(name));
    var es := EntriesOf(name, checksum, NumParts(name));
    assert (before + es)[|before|..] == es;
    WholeRunIsName(before + es, |before|, checksum);
    TrimPadded(name, Padding(name));
  }

  /** So a name survives exactly when it does not end in a zero or 0xFFFF. */
  lemma NameSurvivesIff(before: seq<Lfn>, name: seq<Unit>, checksum: Byte)
    requires 1 <= |name| <= MAX_LONG_NAME_LEN
    ensures NumParts(name) <= MAX_LONG_DIR_ENTRIES
    ensures NameOf(before + EntriesOf(name, checksum, NumParts(name)), checksum) == name
            <==> !IsFiller(name[|name| - 1])
  {
    hide NameOf, EntriesOf, NumParts, Trim;
    NameRoundTrip(before, name, checksum);
    TrimKeepsIff(name);
  }

  lemma TrimKeepsIff(name: seq<Unit>)
    requires name != []
    ensures Trim(name) == name <==> !IsFiller(name[|name| - 1])
  {
    if !IsFiller(name[|name| - 1]) {
      TrimUnique(name, |name|);
      assert name[..|name|] == name;
    }
  }

  /** ... so a name that ends in 0xFFFF comes back one unit shorter; validation lets such a name through. */
  lemma FillerIsLost(checksum: Byte)
    ensures AllowedInLongName('a') && AllowedInLongName('\U{FFFF}') && Utf16Units('\U{FFFF}') == [LFN_PADDING]
    ensures NumParts([0x61, LFN_PADDING]) == 1
    ensures NameOf(EntriesOf([0x61, LFN_PADDING], checksum, 1), checksum) == [0x61]
  {
    var name: seq<Unit> := [0x61, LFN_PADDING];
    NameRoundTrip([], name, checksum);
    assert [] + EntriesOf(name, checksum, 1) == EntriesOf(name, checksum, 1);
    TrimUnique(name, 1);
  }
}
