/** Packed FAT entries (deps/rust-fatfs/src/table.rs): 12-, 16- and 28-bit values in a byte string,
    and the cluster states they stand for. */
module FatEntries {
  import opened Wrappers
  import Bits
  import opened Storages
  import opened FatTypes

  // ----- little-endian integers

  function U16At(s: seq<Byte>, at: nat): (r: nat)
    requires at + 2 <= |s|
    ensures r < 0x1_0000
  {
    s[at] as int + 0x100 * s[at + 1] as int
  }

  function U32At(s: seq<Byte>, at: nat): (r: nat)
    requires at + 4 <= |s|
    ensures r < 0x1_0000_0000
  {
    U16At(s, at) + 0x1_0000 * U16At(s, at + 2)
  }

  function Le16(v: nat): (r: seq<Byte>)
    requires v < 0x1_0000
    ensures |r| == 2 && U16At(r, 0) == v
  {
    [(v % 0x100) as Byte, (v / 0x100) as Byte]
  }

  function Le32(v: nat): (r: seq<Byte>)
    requires v < 0x1_0000_0000
    ensures |r| == 4 && U32At(r, 0) == v
  {
    Le16(v % 0x1_0000) + Le16(v / 0x1_0000)
  }

  // ----- entry positions

  function EntryOffset(t: FatType, c: nat): nat {
    match t
    case Fat12 => c + c / 2
    case Fat16 => c * 2
    case Fat32 => c * 4
  }

  function EntryWidth(t: FatType): nat {
    if t == Fat32 then 4 else 2
  }

  /** Entry `c` lies inside a FAT of `size` bytes. */
  predicate Holds(t: FatType, c: nat, size: nat) {
    EntryOffset(t, c) + EntryWidth(t) <= size
  }

  lemma HoldsBelow(t: FatType, c: nat, d: nat, size: nat)
    requires Holds(t, c, size) && d <= c
    ensures Holds(t, d, size)
  {}

  /** A FAT with `n` entries' worth of bits holds entry `n - 1`: the link to the sizing laws. */
  lemma RoomHolds(t: FatType, n: nat, size: nat)
    requires n > 0 && n * t.BitsPerFatEntry() <= size * 8
    ensures Holds(t, n - 1, size)
  {}

  // ----- raw values

  /** Number of values an entry can take; the top four bits of a FAT32 entry are not part of it. */
  function RawLimit(t: FatType): nat {
    match t
    case Fat12 => 0x1000
    case Fat16 => 0x1_0000
    case Fat32 => 0x1000_0000
  }

  function GetRaw(fat: seq<Byte>, t: FatType, c: nat): (r: nat)
    requires Holds(t, c, |fat|)
    ensures r < RawLimit(t)
  {
    match t
    case Fat12 =>
      var packed := U16At(fat, EntryOffset(t, c));
      if c % 2 == 0 then packed % 0x1000 else packed / 0x10
    case Fat16 => U16At(fat, EntryOffset(t, c))
    case Fat32 => U32At(fat, EntryOffset(t, c)) % 0x1000_0000
  }

  /** The bytes of an entry once `v` is stored next to whatever shares them. */
  function Packed(fat: seq<Byte>, t: FatType, c: nat, v: nat): (r: seq<Byte>)
    requires Holds(t, c, |fat|) && v < RawLimit(t)
    ensures |r| == EntryWidth(t)
  {
    match t
    case Fat12 =>
      var was := U16At(fat, EntryOffset(t, c));
      if c % 2 == 0 then Le16(was - was % 0x1000 + v) else Le16(was % 0x10 + 0x10 * v)
    case Fat16 => Le16(v)
    case Fat32 =>
      var was := U32At(fat, EntryOffset(t, c));
      Le32(was - was % 0x1000_0000 + v)
  }

  function SetRaw(fat: seq<Byte>, t: FatType, c: nat, v: nat): (r: seq<Byte>)
    requires Holds(t, c, |fat|) && v < RawLimit(t)
    ensures |r| == |fat|
  {
    Splice(fat, EntryOffset(t, c), Packed(fat, t, c, v))
  }

  // ----- the FAT as a row of bits

  /** Bit `n` of a byte string, the lowest bit of each byte first. */
  predicate BitAt(s: seq<Byte>, n: nat)
    requires n < 8 * |s|
  {
    Bits.On(s[n / 8] as int, n % 8)
  }

  /** An integer is the bits of its bytes. */
  lemma U16Bits(s: seq<Byte>, at: nat, i: nat)
    requires at + 2 <= |s| && i < 16
    ensures Bits.On(U16At(s, at), i) <==> BitAt(s, 8 * at + i)
  {
    Bits.SmallPow2();
    Bits.OnJoin(s[at] as int, s[at + 1] as int, 8, i);
    hide Bits.Pow2, Bits.On;
    var k := i / 8;
    Bits.ModUnique(8 * at + i, 8, at + k, i - 8 * k);
  }

  lemma U32Bits(s: seq<Byte>, at: nat, i: nat)
    requires at + 4 <= |s| && i < 32
    ensures Bits.On(U32At(s, at), i) <==> BitAt(s, 8 * at + i)
  {
    Bits.SmallPow2();
    Bits.OnJoin(U16At(s, at), U16At(s, at + 2), 16, i);
    hide Bits.Pow2, Bits.On, BitAt;
    if i < 16 {
      U16Bits(s, at, i);
    } else {
      U16Bits(s, at + 2, i - 16);
      assert 8 * (at + 2) + (i - 16) == 8 * at + i;
    }
  }

  /** Bits of an entry that count. */
  function ValueBits(t: FatType): nat {
    if t == Fat32 then 28 else t.BitsPerFatEntry()
  }

  lemma RawLimitIs(t: FatType)
    ensures RawLimit(t) == Bits.Pow2(ValueBits(t))
  {
    Bits.SmallPow2();
    Bits.Pow2Byte(12);
    Bits.Pow2Byte(20);
  }

  lemma EntryIsBits12(fat: seq<Byte>, c: nat, i: nat)
    requires Holds(Fat12, c, |fat|) && i < 12
    ensures 12 * c + i < 8 * |fat| && (Bits.On(GetRaw(fat, Fat12, c), i) <==> BitAt(fat, 12 * c + i))
  {
    Bits.SmallPow2();
    hide Bits.Pow2, Bits.On, BitAt, U16At;
    var at := EntryOffset(Fat12, c);
    var w := U16At(fat, at);
    if c % 2 == 0 {
      assert 8 * at == 12 * c;
      Bits.OnLow(w, 12, i);
      U16Bits(fat, at, i);
    } else {
      assert 8 * at + 4 == 12 * c;
      Bits.OnJoin(w % 0x10, w / 0x10, 4, 4 + i);
      U16Bits(fat, at, 4 + i);
    }
  }

  lemma EntryIsBits32(fat: seq<Byte>, c: nat, i: nat)
    requires Holds(Fat32, c, |fat|) && i < 28
    ensures 32 * c + i < 8 * |fat| && (Bits.On(GetRaw(fat, Fat32, c), i) <==> BitAt(fat, 32 * c + i))
  {
    RawLimitIs(Fat32);
    hide Bits.Pow2, Bits.On, BitAt, U32At;
    Bits.OnLow(U32At(fat, 4 * c), 28, i);
    U32Bits(fat, 4 * c, i);
  }

  /** Entries follow each other without a gap: bit `i` of entry `c` is that of the row `c` widths and `i` bits on. */
  lemma EntryIsBits(fat: seq<Byte>, t: FatType, c: nat, i: nat)
    requires Holds(t, c, |fat|) && i < ValueBits(t)
    ensures c * t.BitsPerFatEntry() + i < 8 * |fat|
    ensures Bits.On(GetRaw(fat, t, c), i) <==> BitAt(fat, c * t.BitsPerFatEntry() + i)
    ensures RawLimit(t) == Bits.Pow2(ValueBits(t))
  {
    RawLimitIs(t);
    hide Bits.Pow2, Bits.On, BitAt, U16At, U32At;
    match t {
      case Fat12 => EntryIsBits12(fat, c, i);
      case Fat16 => U16Bits(fat, 2 * c, i);
      case Fat32 => EntryIsBits32(fat, c, i);
    }
  }

  lemma U16Splice(s: seq<Byte>, at: nat, buf: seq<Byte>, i: nat)
    requires at + |buf| <= |s| && i + 2 <= |s|
    ensures at <= i && i + 2 <= at + |buf| ==> U16At(Splice(s, at, buf), i) == U16At(buf, i - at)
    ensures i + 2 <= at || at + |buf| <= i ==> U16At(Splice(s, at, buf), i) == U16At(s, i)
  {}

  lemma SetGet16(fat: seq<Byte>, c: nat, v: nat, d: nat)
    requires Holds(Fat16, c, |fat|) && Holds(Fat16, d, |fat|) && v < 0x1_0000
    ensures GetRaw(SetRaw(fat, Fat16, c, v), Fat16, d) == if d == c then v else GetRaw(fat, Fat16, d)
  {
    hide Splice, U16At, Le16;
    U16Splice(fat, 2 * c, Le16(v), 2 * d);
  }

  lemma SetGet32(fat: seq<Byte>, c: nat, v: nat, d: nat)
    requires Holds(Fat32, c, |fat|) && Holds(Fat32, d, |fat|) && v < 0x1000_0000
    ensures GetRaw(SetRaw(fat, Fat32, c, v), Fat32, d) == if d == c then v else GetRaw(fat, Fat32, d)
    ensures U32At(SetRaw(fat, Fat32, c, v), 4 * d) / 0x1000_0000 == U32At(fat, 4 * d) / 0x1000_0000
  {
    hide Splice, U16At, Le16, Le32;
    var p := Packed(fat, Fat32, c, v);
    U16Splice(fat, 4 * c, p, 4 * d);
    U16Splice(fat, 4 * c, p, 4 * d + 2);
  }

  /** Neighbouring 12-bit entries share a byte; storing one keeps the other's half. */
  lemma SetGet12(fat: seq<Byte>, c: nat, v: nat, d: nat)
    requires Holds(Fat12, c, |fat|) && Holds(Fat12, d, |fat|) && v < 0x1000
    ensures GetRaw(SetRaw(fat, Fat12, c, v), Fat12, d) == if d == c then v else GetRaw(fat, Fat12, d)
  {
    if d == c + 1 && c % 2 == 0 {
      SharedHigh(fat, c, v);
    } else if c == d + 1 && d % 2 == 0 {
      SharedLow(fat, c, v);
    } else {
      hide Splice, U16At, Packed;
      U16Splice(fat, EntryOffset(Fat12, c), Packed(fat, Fat12, c, v), EntryOffset(Fat12, d));
      if d < c {
        Apart12(d, c);
      } else if d > c {
        Apart12(c, d);
      } else {
        PackedBack12(fat, c, v);
      }
    }
  }

  lemma PackedBack12(fat: seq<Byte>, c: nat, v: nat)
    requires Holds(Fat12, c, |fat|) && v < 0x1000
    ensures var word := U16At(Packed(fat, Fat12, c, v), 0);
            v == if c % 2 == 0 then word % 0x1000 else word / 0x10
  {
    hide U16At, Le16;
    var was := U16At(fat, EntryOffset(Fat12, c));
    if c % 2 == 0 {
      Bits.ModUnique(was - was % 0x1000 + v, 0x1000, was / 0x1000, v);
    } else {
      Bits.ModUnique(was % 0x10 + 0x10 * v, 0x10, v, was % 0x10);
    }
  }

  /** Entries that are not a pair share no byte. */
  lemma Apart12(c: nat, d: nat)
    requires c < d && !(d == c + 1 && c % 2 == 0)
    ensures EntryOffset(Fat12, c) + 2 <= EntryOffset(Fat12, d)
  {}

  lemma HighNibbleKept(lo: nat, hi: nat, v: nat)
    requires lo < 0x100 && hi < 0x100 && v < 0x1000
    ensures var w := lo + 0x100 * hi; (w - w % 0x1000 + v) / 0x100 / 0x10 == hi / 0x10
  {
    assert (lo + 0x100 * hi) / 0x1000 == hi / 0x10;
  }

  lemma LowNibbleKept(lo: nat, hi: nat, v: nat)
    requires lo < 0x100 && hi < 0x100 && v < 0x1000
    ensures (((lo + 0x100 * hi) % 0x10 + 0x10 * v) % 0x100) % 0x10 == lo % 0x10
  {
    var a := (lo + 0x100 * hi) % 0x10;
    assert a == lo % 0x10;
    ModMod(a + 0x10 * v);
    assert (a + 0x10 * v) % 0x10 == a;
  }

  lemma ModMod(x: nat)
    ensures x % 0x100 % 0x10 == x % 0x10
  {
    var q, r := x / 0x100, x % 0x100;
    var a, b := r / 0x10, r % 0x10;
    Bits.ModUnique(x, 0x10, 0x10 * q + a, b);
  }

  lemma SharedHigh(fat: seq<Byte>, c: nat, v: nat)
    requires c % 2 == 0 && Holds(Fat12, c, |fat|) && Holds(Fat12, c + 1, |fat|) && v < 0x1000
    ensures GetRaw(SetRaw(fat, Fat12, c, v), Fat12, c + 1) == GetRaw(fat, Fat12, c + 1)
  {
    var at := EntryOffset(Fat12, c);
    var p := Packed(fat, Fat12, c, v);
    var fat' := SetRaw(fat, Fat12, c, v);
    HighNibbleKept(fat[at] as int, fat[at + 1] as int, v);
    assert fat'[at + 1] == p[1] && fat'[at + 2] == fat[at + 2];
    ShiftedPair(fat, at + 1);
    ShiftedPair(fat', at + 1);
  }

  lemma ShiftedPair(fat: seq<Byte>, at: nat)
    requires at + 2 <= |fat|
    ensures U16At(fat, at) / 0x10 == fat[at] as int / 0x10 + 0x10 * fat[at + 1] as int
    ensures U16At(fat, at) % 0x1000 == fat[at] as int + 0x100 * (fat[at + 1] as int % 0x10)
  {
    ShiftedWord(fat[at] as int, fat[at + 1] as int);
  }

  lemma ShiftedWord(lo: nat, hi: nat)
    requires lo < 0x100 && hi < 0x100
    ensures (lo + 0x100 * hi) / 0x10 == lo / 0x10 + 0x10 * hi
    ensures (lo + 0x100 * hi) % 0x1000 == lo + 0x100 * (hi % 0x10)
  {
    var a, b := lo / 0x10, lo % 0x10;
    var c, d := hi / 0x10, hi % 0x10;
    Bits.ModUnique(lo + 0x100 * hi, 0x10, a + 0x10 * hi, b);
    Bits.ModUnique(lo + 0x100 * hi, 0x1000, c, lo + 0x100 * d);
  }

  lemma SharedLow(fat: seq<Byte>, c: nat, v: nat)
    requires c % 2 == 1 && Holds(Fat12, c, |fat|) && v < 0x1000
    ensures Holds(Fat12, c - 1, |fat|)
    ensures GetRaw(SetRaw(fat, Fat12, c, v), Fat12, c - 1) == GetRaw(fat, Fat12, c - 1)
  {
    var at := EntryOffset(Fat12, c);
    var p := Packed(fat, Fat12, c, v);
    var fat' := SetRaw(fat, Fat12, c, v);
    LowNibbleKept(fat[at] as int, fat[at + 1] as int, v);
    assert fat'[at] == p[0] && fat'[at - 1] == fat[at - 1];
    ShiftedPair(fat, at - 1);
    ShiftedPair(fat', at - 1);
  }

  /** Storing an entry is read back, and no other entry changes. */
  lemma SetGet(fat: seq<Byte>, t: FatType, c: nat, v: nat, d: nat)
    requires Holds(t, c, |fat|) && Holds(t, d, |fat|) && v < RawLimit(t)
    ensures GetRaw(SetRaw(fat, t, c, v), t, d) == if d == c then v else GetRaw(fat, t, d)
  {
    match t
    case Fat12 => SetGet12(fat, c, v, d);
    case Fat16 => SetGet16(fat, c, v, d);
    case Fat32 => SetGet32(fat, c, v, d);
  }

  // ----- cluster states

  datatype FatValue = Free | Data(next: nat) | Bad | EndOfChain

  /** The raw value that marks a bad cluster; the ones above it end a chain. */
  function BadMark(t: FatType): nat {
    match t
    case Fat12 => 0xFF7
    case Fat16 => 0xFFF7
    case Fat32 => 0x0FFF_FFF7
  }

  function Decode(t: FatType, raw: nat): FatValue {
    if raw == 0 then Free
    else if raw == BadMark(t) then Bad
    else if raw > BadMark(t) then EndOfChain
    else Data(raw)
  }

  /** The marks are the nine highest values, the lowest of them the one for a bad cluster; zero is a free one and any
      other value a link. */
  lemma DecodeIff(t: FatType, raw: nat)
    requires raw < RawLimit(t)
    ensures Decode(t, raw) == Bad <==> RawLimit(t) - raw == 9
    ensures Decode(t, raw) == EndOfChain <==> RawLimit(t) - raw < 9
    ensures Decode(t, raw) == Free <==> raw == 0
    ensures Decode(t, raw).Data? ==> Decode(t, raw).next == raw
  {}

  predicate Encodable(t: FatType, v: FatValue) {
    v.Data? ==> 0 < v.next < BadMark(t)
  }

  function Encode(t: FatType, v: FatValue): (r: nat)
    requires Encodable(t, v)
    ensures r < RawLimit(t) && Decode(t, r) == v
  {
    match v
    case Free => 0
    case Bad => BadMark(t)
    case EndOfChain => RawLimit(t) - 1
    case Data(n) => n
  }

  /** The end of a chain is written as a row of ones. */
  lemma EndIsOnes(t: FatType)
    ensures Encode(t, EndOfChain) == Bits.Pow2(ValueBits(t)) - 1
  {
    RawLimitIs(t);
  }

  /** A type is left for the next wider one when the entries come to number the mark of a bad cluster, and what
      formatting admits ends there for each type. */
  lemma TypeByMarks(totalClusters: nat)
    ensures FromClusters(totalClusters) == Fat12 <==> totalClusters + RESERVED_FAT_ENTRIES < BadMark(Fat12)
    ensures FromClusters(totalClusters) == Fat32 <==> totalClusters + RESERVED_FAT_ENTRIES >= BadMark(Fat16)
    ensures forall t: FatType ::
              t.MinClusters() <= totalClusters <= t.MaxClusters()
              <==> FromClusters(totalClusters) == t && totalClusters + RESERVED_FAT_ENTRIES < BadMark(t)
  {}

  /** Type determination leaves every cluster number encodable: numbers never collide with the marks. */
  lemma ClustersEncodable(totalClusters: nat, c: nat)
    requires totalClusters <= FAT32_MAX_CLUSTERS && RESERVED_FAT_ENTRIES <= c < totalClusters + RESERVED_FAT_ENTRIES
    ensures Encodable(FromClusters(totalClusters), Data(c))
  {}

  /** The first `n` entries of a FAT, decoded. */
  ghost function Table(fat: seq<Byte>, t: FatType, n: nat): (r: seq<FatValue>)
    requires n == 0 || Holds(t, n - 1, |fat|)
    ensures |r| == n
    ensures forall c :: 0 <= c < n ==> Holds(t, c, |fat|) && r[c] == Decode(t, GetRaw(fat, t, c))
  {
    if n == 0 then []
    else
      (if n > 1 then HoldsBelow(t, n - 1, n - 2, |fat|); Table(fat, t, n - 1) else [])
      + [Decode(t, GetRaw(fat, t, n - 1))]
  }

  /** Refinement: storing an entry in the bytes updates the decoded table. */
  lemma TableSet(fat: seq<Byte>, t: FatType, n: nat, c: nat, v: FatValue)
    requires c < n && Holds(t, n - 1, |fat|) && Encodable(t, v)
    ensures Holds(t, c, |fat|)
    ensures Table(SetRaw(fat, t, c, Encode(t, v)), t, n) == Table(fat, t, n)[c := v]
  {
    hide SetRaw, GetRaw, Decode, Encode, EntryOffset, EntryWidth;
    HoldsBelow(t, n - 1, c, |fat|);
    var fat' := SetRaw(fat, t, c, Encode(t, v));
    forall d | 0 <= d < n ensures Table(fat', t, n)[d] == Table(fat, t, n)[c := v][d] {
      HoldsBelow(t, n - 1, d, |fat|);
      SetGet(fat, t, c, Encode(t, v), d);
    }
  }
}
