/** The kernel's byte stream over a 512-byte block device (kernel/src/fs/fat.rs). */
module Storages {
  import opened Wrappers

  const BLOCK := 512

  /** Positions of the stream interface (deps/rust-fatfs/src/io.rs). */
  datatype SeekFrom = Start(at: nat) | Current(delta: int) | End(delta: int)

  /** `s` with `buf` laid over it at `at`. */
  function Splice(s: seq<Byte>, at: nat, buf: seq<Byte>): (r: seq<Byte>)
    requires at + |buf| <= |s|
    ensures |r| == |s|
  {
    s[..at] + buf + s[at + |buf|..]
  }

  function Zeros(n: nat): (r: seq<Byte>)
    ensures |r| == n && forall i :: 0 <= i < n ==> r[i] == 0
  {
    seq(n, i => 0 as Byte)
  }

  lemma SpliceNothing(s: seq<Byte>, at: nat)
    requires at <= |s|
    ensures Splice(s, at, []) == s
  {}

  lemma SliceOfSlice<T>(s: seq<T>, lo: nat, hi: nat, a: nat, b: nat)
    requires lo <= hi <= |s| && a <= b <= hi - lo
    ensures s[lo..hi][a..b] == s[lo + a..lo + b]
  {
    var whole, part := s[lo..hi][a..b], s[lo + a..lo + b];
    forall i | 0 <= i < b - a ensures whole[i] == part[i] {
      assert whole[i] == s[lo..hi][a + i];
    }
  }

  /** Laying two adjacent pieces one after the other lays their concatenation. */
  lemma SpliceTwice(s: seq<Byte>, at: nat, a: seq<Byte>, b: seq<Byte>)
    requires at + |a| + |b| <= |s|
    ensures Splice(Splice(s, at, a), at + |a|, b) == Splice(s, at, a + b)
  {}

  /** A splice inside a window is a splice of the window. */
  lemma SpliceWindow(s: seq<Byte>, at: nat, buf: seq<Byte>, lo: nat, hi: nat)
    requires lo <= at && at + |buf| <= hi <= |s|
    ensures Splice(s, at, buf)[lo..hi] == Splice(s[lo..hi], at - lo, buf)
  {}

  /** A splice outside a window leaves the window alone. */
  lemma SpliceElsewhere(s: seq<Byte>, at: nat, buf: seq<Byte>, lo: nat, hi: nat)
    requires lo <= hi <= |s| && at + |buf| <= |s| && (hi <= at || at + |buf| <= lo)
    ensures Splice(s, at, buf)[lo..hi] == s[lo..hi]
  {}

  /** The device's blocks, one after the other. */
  ghost predicate Flat(blocks: seq<seq<Byte>>, bytes: seq<Byte>) {
    && |bytes| == BLOCK * |blocks|
    && (forall b :: 0 <= b < |blocks| ==> |blocks[b]| == BLOCK && blocks[b] == bytes[BLOCK * b..BLOCK * b + BLOCK])
  }

  /** Rewriting one block from within is a splice of the flat bytes. */
  lemma FlatWrite(blocks: seq<seq<Byte>>, bytes: seq<Byte>, b: nat, off: nat, piece: seq<Byte>)
    requires Flat(blocks, bytes) && b < |blocks| && off + |piece| <= BLOCK
    ensures Flat(blocks[b := Splice(blocks[b], off, piece)], Splice(bytes, BLOCK * b + off, piece))
  {
    var blocks', bytes' := blocks[b := Splice(blocks[b], off, piece)], Splice(bytes, BLOCK * b + off, piece);
    forall c | 0 <= c < |blocks| ensures |blocks'[c]| == BLOCK && blocks'[c] == bytes'[BLOCK * c..BLOCK * c + BLOCK] {
      if c == b {
        SpliceWindow(bytes, BLOCK * b + off, piece, BLOCK * b, BLOCK * b + BLOCK);
      } else {
        SpliceElsewhere(bytes, BLOCK * b + off, piece, BLOCK * c, BLOCK * c + BLOCK);
      }
    }
  }

  lemma FlatSize(blocks: seq<seq<Byte>>, bytes: seq<Byte>)
    requires Flat(blocks, bytes)
    ensures |bytes| == BLOCK * |blocks|
  {}

  /** A piece of a block is the same piece of the flat bytes. */
  lemma FlatRead(blocks: seq<seq<Byte>>, bytes: seq<Byte>, b: nat, off: nat, n: nat)
    requires Flat(blocks, bytes) && b < |blocks| && off + n <= BLOCK
    ensures blocks[b][off..off + n] == bytes[BLOCK * b + off..BLOCK * b + off + n]
  {
    SliceOfSlice(bytes, BLOCK * b, BLOCK * b + BLOCK, off, off + n);
  }

  class BlkStorage {
    var blocks: seq<seq<Byte>>
    var pos: nat
    ghost var bytes: seq<Byte>

    ghost predicate Valid()
      reads this
    {
      Flat(blocks, bytes)
    }

    method SeekStart(off: nat)
      modifies this`pos
      ensures pos == off
    {
      pos := off;
    }

    /** Reads across block boundaries: exactly the flat bytes at the position. */
    method Read(len: nat) returns (buf: seq<Byte>)
      requires Valid() && pos + len <= |bytes|
      modifies this`pos
      ensures pos == old(pos) + len && buf == bytes[old(pos)..old(pos) + len]
    {
      var at := pos;
      var readMax := at + len;
      buf := [];
      while at < readMax
        invariant pos == old(pos) && pos <= at <= readMax && buf == bytes[pos..at]
      {
        var no, off := at / 512, at % 512;
        var block := blocks[no];
        var piece := Min(readMax - at, 512 - off);
        FlatRead(blocks, bytes, no, off, piece);
        buf := buf + block[off..off + piece];
        at := at + piece;
      }
      pos := pos + len;
    }

    /** Read-modify-write of each touched block: exactly a splice of the flat bytes. */
    method Write(buf: seq<Byte>)
      requires Valid() && pos + |buf| <= |bytes|
      modifies this
      ensures Valid() && pos == old(pos) + |buf| && |blocks| == |old(blocks)|
      ensures bytes == Splice(old(bytes), old(pos), buf)
    {
      hide Splice, Flat;
      FlatSize(blocks, bytes);
      var at := pos;
      var writeMax := at + |buf|;
      var done := 0;
      SpliceNothing(bytes, pos);
      assert buf[..0] == [];
      while at < writeMax
        invariant pos == old(pos) && done <= |buf| && at == pos + done
        invariant Valid() && |blocks| == |old(blocks)|
        invariant |bytes| == BLOCK * |blocks|
        invariant bytes == Splice(old(bytes), pos, buf[..done])
      {
        var no, off := at / 512, at % 512;
        var n := Min(writeMax - at, 512 - off);
        ghost var piece := buf[done..done + n];
        SpliceTwice(old(bytes), pos, buf[..done], piece);
        assert buf[..done + n] == buf[..done] + piece;
        WriteWithin(no, off, buf[done..done + n]);
        at := at + n;
        done := done + n;
      }
      assert buf[..done] == buf;
      pos := pos + |buf|;
    }

    /** Rewrites a piece of one block: read the block, overlay, write it back. */
    method WriteWithin(no: nat, off: nat, piece: seq<Byte>)
      requires Valid() && no < |blocks| && off + |piece| <= BLOCK
      modifies this`blocks, this`bytes
      ensures Valid() && |blocks| == |old(blocks)|
      ensures bytes == Splice(old(bytes), BLOCK * no + off, piece)
    {
      FlatWrite(blocks, bytes, no, off, piece);
      var block := blocks[no];
      block := Splice(block, off, piece);
      blocks := blocks[no := block];
      bytes := Splice(bytes, BLOCK * no + off, piece);
    }
  }
}
