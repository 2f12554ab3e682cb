/** A window of the disk that is written to several mirrors at once: the FAT region
    (deps/rust-fatfs/src/fs.rs, with the transfer loops of deps/rust-fatfs/src/io.rs). */
module DiskSlices {
  import opened Wrappers
  import opened Storages

  /** First byte of slot `i` in a row of equal slots: a mirror of the FAT, or a cluster. */
  function SlotStart(begin: nat, size: nat, i: nat): (r: nat)
    ensures r >= begin && (i == 0 ==> r == begin)
  {
    begin + i * size
  }

  lemma SlotOrder(begin: nat, size: nat, i: nat, j: nat)
    requires i < j
    ensures SlotStart(begin, size, i) + size <= SlotStart(begin, size, j)
  {
    Distribute(i + 1, j - i - 1, size);
  }

  /** The disk after writing `buf` at offset `off` of the first `m` mirrors. */
  ghost function Mirrored(bytes: seq<Byte>, begin: nat, size: nat, m: nat, off: nat, buf: seq<Byte>): (r: seq<Byte>)
    requires off + |buf| <= size && SlotStart(begin, size, m) <= |bytes|
    ensures |r| == |bytes|
  {
    if m == 0 then bytes
    else
      SlotOrder(begin, size, m - 1, m);
      Splice(Mirrored(bytes, begin, size, m - 1, off, buf), SlotStart(begin, size, m - 1) + off, buf)
  }

  ghost function Mirror(bytes: seq<Byte>, begin: nat, size: nat, i: nat): seq<Byte>
    requires SlotStart(begin, size, i) + size <= |bytes|
  {
    bytes[SlotStart(begin, size, i)..SlotStart(begin, size, i) + size]
  }

  /** A mirrored write changes nothing outside the mirrors. */
  lemma {:induction false} MirroredElsewhere(
    bytes: seq<Byte>, begin: nat, size: nat, m: nat, off: nat, buf: seq<Byte>, lo: nat, hi: nat)
    requires off + |buf| <= size && SlotStart(begin, size, m) <= |bytes|
    requires lo <= hi <= |bytes| && (hi <= begin || SlotStart(begin, size, m) <= lo)
    ensures Mirrored(bytes, begin, size, m, off, buf)[lo..hi] == bytes[lo..hi]
  {
    hide Splice, SlotStart;
    if m > 0 {
      SlotOrder(begin, size, m - 1, m);
      MirroredElsewhere(bytes, begin, size, m - 1, off, buf, lo, hi);
      SpliceElsewhere(Mirrored(bytes, begin, size, m - 1, off, buf), SlotStart(begin, size, m - 1) + off, buf, lo, hi);
    }
  }

  /** Every mirror receives the same splice. */
  lemma {:induction false} MirroredEach(
    bytes: seq<Byte>, begin: nat, size: nat, m: nat, off: nat, buf: seq<Byte>, i: nat)
    requires off + |buf| <= size && SlotStart(begin, size, m) <= |bytes| && i < m
    requires SlotStart(begin, size, i) + size <= |bytes|
    ensures Mirror(Mirrored(bytes, begin, size, m, off, buf), begin, size, i)
            == Splice(Mirror(bytes, begin, size, i), off, buf)
  {
    hide Splice, SlotStart;
    SlotOrder(begin, size, m - 1, m);
    var before := Mirrored(bytes, begin, size, m - 1, off, buf);
    var at := SlotStart(begin, size, m - 1) + off;
    var lo := SlotStart(begin, size, i);
    if i == m - 1 {
      MirroredElsewhere(bytes, begin, size, m - 1, off, buf, lo, lo + size);
      SpliceWindow(before, at, buf, lo, lo + size);
    } else {
      SlotOrder(begin, size, i, m - 1);
      MirroredEach(bytes, begin, size, m - 1, off, buf, i);
      SpliceElsewhere(before, at, buf, lo, lo + size);
    }
  }

  ghost predicate MirrorsAgree(bytes: seq<Byte>, begin: nat, size: nat, m: nat)
    requires SlotStart(begin, size, m) <= |bytes|
  {
    forall i: nat :: i < m && SlotStart(begin, size, i) + size <= |bytes| ==>
      Mirror(bytes, begin, size, i) == Mirror(bytes, begin, size, 0)
  }

  /** Mirrors that agree keep agreeing. */
  lemma MirrorsKeepAgreeing(bytes: seq<Byte>, begin: nat, size: nat, m: nat, off: nat, buf: seq<Byte>)
    requires m > 0 && off + |buf| <= size && SlotStart(begin, size, m) <= |bytes|
    requires MirrorsAgree(bytes, begin, size, m)
    ensures MirrorsAgree(Mirrored(bytes, begin, size, m, off, buf), begin, size, m)
  {
    SlotOrder(begin, size, 0, m);
    forall i: nat | i < m && SlotStart(begin, size, i) + size <= |bytes|
      ensures Mirror(Mirrored(bytes, begin, size, m, off, buf), begin, size, i)
              == Mirror(Mirrored(bytes, begin, size, m, off, buf), begin, size, 0)
    {
      MirroredEach(bytes, begin, size, m, off, buf, i);
      MirroredEach(bytes, begin, size, m, off, buf, 0);
    }
  }

  class DiskSlice {
    const begin: nat
    const size: nat
    const mirrors: nat
    const inner: BlkStorage
    var offset: nat

    ghost predicate Valid()
      reads this, inner
    {
      inner.Valid() && offset <= size && mirrors > 0 && SlotStart(begin, size, mirrors) <= |inner.bytes|
      && begin + size <= |inner.bytes|
    }

    /** What a reader of the slice sees: the first mirror. */
    ghost function View(): (r: seq<Byte>)
      requires begin + size <= |inner.bytes|
      reads inner
      ensures |r| == size
    {
      inner.bytes[begin..begin + size]
    }

    constructor (begin: nat, size: nat, mirrors: nat, inner: BlkStorage)
      requires inner.Valid() && mirrors > 0 && SlotStart(begin, size, mirrors) <= |inner.bytes|
      ensures this.begin == begin && this.size == size && this.mirrors == mirrors && this.inner == inner
      ensures Valid() && offset == 0
    {
      this.begin, this.size, this.mirrors, this.inner := begin, size, mirrors, inner;
      offset := 0;
      new;
      SlotOrder(begin, size, 0, mirrors);
    }

    /** Where a seek leads, from the start, the position or the end. */
    function Target(pos: SeekFrom): int
      reads this
    {
      match pos
      case Start(x) => x
      case Current(x) => offset + x
      case End(x) => size + x
    }

    /** Seeking outside the slice is refused; seeking to its end is not. */
    method Seek(pos: SeekFrom) returns (ok: bool)
      modifies this
      ensures ok <==> 0 <= old(Target(pos)) <= size
      ensures offset == if ok then old(Target(pos)) else old(offset)
      ensures ok && pos.Start? ==> offset == pos.at
      ensures ok && pos.Current? ==> offset - old(offset) == pos.delta
      ensures ok && pos.End? ==> offset - size == pos.delta
      ensures !ok ==>
                if pos.Start? then pos.at > size
                else if pos.Current? then old(offset) + pos.delta < 0 || old(offset) + pos.delta > size
                else size + pos.delta < 0 || pos.delta > 0
    {
      var to := Target(pos);
      if to < 0 || to > size {
        ok := false;
      } else {
        offset := to;
        ok := true;
      }
    }

    method Read(len: nat) returns (buf: seq<Byte>)
      requires Valid()
      modifies this, inner`pos
      ensures Valid() && buf == View()[old(offset)..old(offset) + Min(size - old(offset), len)]
      ensures offset == old(offset) + |buf|
    {
      var n := Min(size - offset, len);
      inner.SeekStart(begin + offset);
      buf := inner.Read(n);
      SliceOfSlice(inner.bytes, begin, begin + size, offset, offset + n);
      offset := offset + n;
    }

    method Write(buf: seq<Byte>) returns (n: nat)
      requires Valid()
      modifies this, inner
      ensures Valid() && n == Min(size - old(offset), |buf|) && offset == old(offset) + n
      ensures inner.bytes == Mirrored(old(inner.bytes), begin, size, mirrors, old(offset), buf[..n])
      ensures View() == Splice(old(View()), old(offset), buf[..n]) && (n == 0 ==> inner.bytes == old(inner.bytes))
    {
      hide Splice, SlotStart;
      n := Min(size - offset, |buf|);
      MirroredEach(inner.bytes, begin, size, mirrors, offset, buf[..n], 0);
      if n == 0 {
        MirroredNothing(inner.bytes, begin, size, mirrors, offset);
        SpliceNothing(View(), offset);
        assert buf[..n] == [];
        return;
      }
      for i := 0 to mirrors
        invariant inner.Valid() && offset == old(offset) && |inner.bytes| == |old(inner.bytes)|
        invariant SlotStart(begin, size, i) <= |inner.bytes|
        invariant inner.bytes == Mirrored(old(inner.bytes), begin, size, i, offset, buf[..n])
      {
        SlotOrder(begin, size, i, i + 1);
        if i + 1 < mirrors {
          SlotOrder(begin, size, i + 1, mirrors);
        }
        inner.SeekStart(SlotStart(begin, size, i) + offset);
        inner.Write(buf[..n]);
      }
      offset := offset + n;
    }

    /** Fills `len` bytes by repeated reads; gives up at the end of the slice. */
    method ReadExact(len: nat) returns (r: Option<seq<Byte>>)
      requires Valid()
      modifies this, inner`pos
      ensures Valid()
      ensures offset == Min(old(offset) + len, size) && (r.Some? <==> old(offset) + len <= size)
      ensures r.Some? ==> r.value == View()[old(offset)..old(offset) + len]
    {
      var got: seq<Byte> := [];
      while |got| < len
        invariant Valid() && |got| <= len && offset == old(offset) + |got|
        invariant got == View()[old(offset)..offset]
        decreases len - |got|
      {
        var piece := Read(len - |got|);
        if |piece| == 0 {
          break;
        }
        got := got + piece;
      }
      r := if |got| == len then Some(got) else None;
    }

    /** Writes as much of `buf` as the slice holds by repeated writes, and fails if that is not all. */
    method WriteAll(buf: seq<Byte>) returns (ok: bool)
      requires Valid()
      modifies this, inner
      ensures Valid() && offset == Min(old(offset) + |buf|, size) >= old(offset)
      ensures ok <==> old(offset) + |buf| <= size
      ensures View() == Splice(old(View()), old(offset), buf[..offset - old(offset)])
      ensures inner.bytes == Mirrored(old(inner.bytes), begin, size, mirrors, old(offset), buf[..offset - old(offset)])
    {
      hide Splice, SlotStart, Mirrored;
      ghost var n := Min(|buf|, size - offset);
      MirroredNothing(inner.bytes, begin, size, mirrors, offset);
      SpliceNothing(View(), offset);
      assert buf[..0] == [];
      var rest := buf;
      ok := true;
      while rest != []
        invariant Valid() && ok
        invariant
          || (rest == buf && offset == old(offset) && inner.bytes == old(inner.bytes))
          || (|rest| == |buf| - n && offset == old(offset) + n > old(offset)
              && inner.bytes == Mirrored(old(inner.bytes), begin, size, mirrors, old(offset), buf[..n])
              && View() == Splice(old(View()), old(offset), buf[..n]))
        decreases |rest|
      {
        var k := Write(rest);
        if k == 0 {
          return false;
        }
        rest := rest[k..];
      }
    }
  }

  lemma {:induction false} MirroredNothing(bytes: seq<Byte>, begin: nat, size: nat, m: nat, off: nat)
    requires off <= size && SlotStart(begin, size, m) <= |bytes|
    ensures Mirrored(bytes, begin, size, m, off, []) == bytes
  {
    if m > 0 {
      SlotOrder(begin, size, m - 1, m);
      MirroredNothing(bytes, begin, size, m - 1, off);
      SpliceNothing(bytes, SlotStart(begin, size, m - 1) + off);
    }
  }
}
