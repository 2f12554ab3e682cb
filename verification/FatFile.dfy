/** A file or directory stream over a cluster chain (deps/rust-fatfs/src/file.rs): seeking, reading, writing
    and truncating behave as on one flat sequence of bytes with a cursor. */
module FatFiles {
  import opened Wrappers
  import opened Storages
  import opened DiskSlices
  import opened FatEntries
  import opened FatTables
  import opened FatFs
  import opened FileChains

  const MAX_FILE_SIZE := 0xFFFF_FFFF

  /** The fields of a directory entry that a file handle keeps up to date. Directories have no size. */
  datatype Entry = Entry(firstCluster: Option<nat>, size: Option<nat>)

  datatype FileError = NotEnoughSpace | InvalidInput | WriteZero | UnexpectedEof

  /** Where a seek asks to go, before clamping; nothing when it is not a 32-bit offset. */
  function Target(pos: SeekFrom, offset: nat, size: Option<nat>): (r: Option<nat>)
    ensures r.Some? ==> r.value <= MAX_FILE_SIZE
  {
    var to := match pos
      case Start(x) => Some(x as int)
      case Current(x) => Some(offset + x)
      case End(x) => if size.Some? then Some(size.value + x) else None;
    if to.Some? && 0 <= to.value <= MAX_FILE_SIZE then Some(to.value) else None
  }

  /** `buf` is the longest piece of `contents` at `at` that `len` and the cluster boundary allow. */
  ghost predicate IsPieceAt(contents: seq<Byte>, at: nat, clusterSize: nat, len: nat, buf: seq<Byte>) {
    && at <= |contents| && clusterSize > 0
    && |buf| == Min(Min(len, clusterSize - InCluster(at, clusterSize)), |contents| - at)
    && buf == contents[at..at + |buf|]
  }

  lemma PieceAt(contents: seq<Byte>, data: seq<Byte>, at: nat, clusterSize: nat, len: nat, n: nat)
    requires contents <= data && at <= |contents| && clusterSize > 0
    requires n == Min(Min(len, clusterSize - InCluster(at, clusterSize)), |contents| - at)
    ensures IsPieceAt(contents, at, clusterSize, len, data[at..at + n])
  {}

  lemma PieceJoins(contents: seq<Byte>, at: nat, got: seq<Byte>, piece: seq<Byte>)
    requires at + |got| + |piece| <= |contents| && got == contents[at..at + |got|]
    requires piece == contents[at + |got|..at + |got| + |piece|]
    ensures got + piece == contents[at..at + |got| + |piece|]
  {}

  /** The `n` bytes of the disk before `at` are the `n` bytes of the file before `offset`. */
  ghost predicate EndsAt(bytes: seq<Byte>, at: nat, data: seq<Byte>, offset: nat, n: nat) {
    n <= at <= |bytes| && n <= offset <= |data| && bytes[at - n..at] == data[offset - n..offset]
  }

  lemma BelowCapacity(n: nat, free: nat, size: nat)
    requires size > 0
    ensures SlotStart(0, size, n) <= SlotStart(0, size, n + free)
    ensures SlotStart(0, size, n) == SlotStart(0, size, n + free) <==> free == 0
  {
    if free > 0 {
      SlotOrder(0, size, n, n + free);
    }
  }

  lemma UntouchedRefl(table: seq<FatValue>, clusters: seq<seq<Byte>>, chain: seq<nat>)
    requires |table| == |clusters|
    ensures Untouched(table, clusters, chain, table, clusters, chain)
  {}

  lemma UntouchedTrans(t0: seq<FatValue>, cs0: seq<seq<Byte>>, ch0: seq<nat>, t1: seq<FatValue>, cs1: seq<seq<Byte>>,
                       ch1: seq<nat>, t2: seq<FatValue>, cs2: seq<seq<Byte>>, ch2: seq<nat>)
    requires Untouched(t0, cs0, ch0, t1, cs1, ch1) && Untouched(t1, cs1, ch1, t2, cs2, ch2)
    ensures Untouched(t0, cs0, ch0, t2, cs2, ch2)
  {}

  /** A file of `size` bytes after a write: the piece laid over its contents. */
  lemma WrittenView(data: seq<Byte>, added: seq<Byte>, size: nat, at: nat, piece: seq<Byte>)
    requires at <= size <= |data| && at + |piece| <= |data + added|
    ensures Splice(data + added, at, piece)[..Max(size, at + |piece|)] == Overlay(data[..size], at, piece)
  {}

  ghost predicate IsOverlay(before: seq<Byte>, at: nat, piece: seq<Byte>, after: seq<Byte>) {
    at <= |before| && after == Overlay(before, at, piece)
  }

  lemma ExtendsView(cs: seq<seq<Byte>>, ch: seq<nat>, data: seq<Byte>, cs': seq<seq<Byte>>, ch': seq<nat>,
                    data': seq<Byte>, zero: bool, at: nat, piece: seq<Byte>, size: nat)
    requires Extends(cs, ch, data, cs', ch', data', zero, at, piece) && at <= size <= |data|
    ensures Max(size, at + |piece|) <= |data'|
    ensures IsOverlay(data[..size], at, piece, data'[..Max(size, at + |piece|)])
  {
    hide FreshBytes, Splice;
    WrittenView(data, FreshBytes(cs, ch, ch', zero), size, at, piece);
  }

  lemma TooShort(n: nat, size: nat, k: nat, to: nat)
    requires 0 < n < k && size > 0 && Behind(to, size, k)
    ensures SlotStart(0, size, n) < to && Behind(SlotStart(0, size, n), size, n)
  {
    hide SlotStart;
    Advanced(n - 1, size, 0, size);
    if n < k - 1 {
      SlotOrder(0, size, n, k - 1);
    }
  }

  lemma LongEnough(n: nat, size: nat, k: nat, to: nat)
    requires 0 < k <= n && Behind(to, size, k)
    ensures to <= SlotStart(0, size, n)
  {
    hide SlotStart;
    if k < n {
      SlotOrder(0, size, k, n);
    }
  }

  /** The least number of bytes in whole clusters that holds `n` bytes. */
  function WholeClusters(n: nat, clusterSize: nat): nat
    requires clusterSize > 0
  {
    SlotStart(0, clusterSize, ClustersFromBytes(n, clusterSize))
  }

  /** A stream as its user sees it: bytes, a cursor, and how far it may grow. A file has a size; a directory
      has whole clusters. */
  datatype Flat = Flat(contents: seq<Byte>, cursor: nat, limit: nat, clusterSize: nat, sized: bool)
  {
    predicate Ok() {
      && clusterSize > 0 && cursor <= |contents| <= limit <= MAX_FILE_SIZE
      && (!sized ==> WholeClusters(|contents|, clusterSize) == |contents| && WholeClusters(limit, clusterSize) == limit)
    }

    function Size(): Option<nat> {
      if sized then Some(|contents|) else None
    }

    /** Contents of a stream with these bytes: a directory is filled up with zeros. */
    function Shaped(bytes: seq<Byte>): seq<Byte>
      requires clusterSize > 0
    {
      if sized || WholeClusters(|bytes|, clusterSize) < |bytes| then bytes
      else bytes + Zeros(WholeClusters(|bytes|, clusterSize) - |bytes|)
    }
  }

  datatype Command =
    | ReadSome(len: nat) | ReadExactly(len: nat)
    | WriteSome(buf: seq<Byte>) | WriteOut(buf: seq<Byte>)
    | SeekTo(pos: SeekFrom) | Cut

  datatype Reply = Bytes(bytes: seq<Byte>) | Count(n: nat) | At(at: nat) | Done | Failed(error: FileError)

  /** The first `n` bytes of `buf` laid over the contents at the cursor. */
  function Written(f: Flat, buf: seq<Byte>, n: nat): Flat
    requires f.Ok() && n <= |buf|
  {
    f.(contents := f.Shaped(Overlay(f.contents, f.cursor, buf[..n])), cursor := f.cursor + n)
  }

  /** Bytes from the cursor to the end of its cluster. */
  function LeftInCluster(f: Flat): nat
    requires f.Ok()
  {
    f.clusterSize - InCluster(f.cursor, f.clusterSize)
  }

  /** What each command does to a flat stream. */
  function Step(f: Flat, c: Command): (Flat, Reply)
    requires f.Ok()
  {
    match c
    case ReadSome(len) =>
      var n := Min(Min(len, LeftInCluster(f)), |f.contents| - f.cursor);
      (f.(cursor := f.cursor + n), Bytes(f.contents[f.cursor..f.cursor + n]))
    case ReadExactly(n) =>
      if f.cursor + n <= |f.contents|
      then (f.(cursor := f.cursor + n), Bytes(f.contents[f.cursor..f.cursor + n]))
      else (f.(cursor := |f.contents|), Failed(UnexpectedEof))
    case WriteSome(buf) =>
      if buf != [] && f.cursor < MAX_FILE_SIZE && f.cursor == f.limit then (f, Failed(NotEnoughSpace))
      else
        var n := Min(Min(|buf|, LeftInCluster(f)), f.limit - f.cursor);
        (Written(f, buf, n), Count(n))
    case WriteOut(buf) =>
      var n := Min(|buf|, f.limit - f.cursor);
      (Written(f, buf, n),
       if n == |buf| then Done else Failed(if f.cursor + n == MAX_FILE_SIZE then WriteZero else NotEnoughSpace))
    case SeekTo(pos) =>
      var to := Target(pos, f.cursor, f.Size());
      if to.None? then (f, Failed(InvalidInput))
      else var at := Min(to.value, |f.contents|); (f.(cursor := at), At(at))
    case Cut =>
      var kept := if f.sized then f.cursor else Min(WholeClusters(f.cursor, f.clusterSize), |f.contents|);
      (f.(contents := f.contents[..kept]), Done)
  }

  lemma WholeIsWhole(n: nat, k: nat, clusterSize: nat)
    requires clusterSize > 0 && Behind(n, clusterSize, k)
    ensures WholeClusters(n, clusterSize) == SlotStart(0, clusterSize, k) >= n
    ensures WholeClusters(SlotStart(0, clusterSize, k), clusterSize) == SlotStart(0, clusterSize, k)
  {
    hide SlotStart, ClustersFromBytes;
    ClustersBehind(n, clusterSize);
    BehindUnique(n, clusterSize, k, ClustersFromBytes(n, clusterSize));
    var full := SlotStart(0, clusterSize, k);
    if k > 0 {
      Advanced(k - 1, clusterSize, 0, clusterSize);
    }
    ClustersBehind(full, clusterSize);
    BehindUnique(full, clusterSize, k, ClustersFromBytes(full, clusterSize));
  }

  lemma WholeMonotone(n: nat, m: nat, clusterSize: nat)
    requires clusterSize > 0 && n <= m
    ensures n <= WholeClusters(n, clusterSize) <= WholeClusters(m, clusterSize)
  {
    hide SlotStart, ClustersFromBytes;
    ClustersBehind(n, clusterSize);
    ClustersBehind(m, clusterSize);
    var k, l := ClustersFromBytes(n, clusterSize), ClustersFromBytes(m, clusterSize);
    if l < k {
      LongEnough(k - 1, clusterSize, l, m);
    } else if k < l {
      SlotOrder(0, clusterSize, k, l);
    }
  }

  lemma ShapedOk(f: Flat, bytes: seq<Byte>)
    requires f.Ok() && |bytes| <= f.limit
    ensures |bytes| <= |f.Shaped(bytes)| <= f.limit
    ensures !f.sized ==> WholeClusters(|f.Shaped(bytes)|, f.clusterSize) == |f.Shaped(bytes)|
  {
    hide SlotStart, ClustersFromBytes, WholeClusters;
    if !f.sized {
      WholeMonotone(|bytes|, f.limit, f.clusterSize);
      ClustersBehind(|bytes|, f.clusterSize);
      WholeIsWhole(|bytes|, ClustersFromBytes(|bytes|, f.clusterSize), f.clusterSize);
    }
  }

  lemma WrittenOk(f: Flat, buf: seq<Byte>, n: nat)
    requires f.Ok() && n <= |buf| && f.cursor + n <= f.limit
    ensures var f' := Written(f, buf, n);
            f'.Ok() && f'.limit == f.limit && f'.sized == f.sized && f'.clusterSize == f.clusterSize
  {
    hide WholeClusters, Flat.Shaped;
    ShapedOk(f, Overlay(f.contents, f.cursor, buf[..n]));
  }

  /** Commands keep a flat stream well formed and its limit fixed. */
  lemma StepOk(f: Flat, c: Command)
    requires f.Ok()
    ensures Step(f, c).0.Ok() && Step(f, c).0.limit == f.limit && Step(f, c).0.sized == f.sized
    ensures Step(f, c).0.clusterSize == f.clusterSize
  {
    hide SlotStart, ClustersFromBytes, WholeClusters, InCluster, Written, Target;
    match c {
      case WriteSome(buf) =>
        WrittenOk(f, buf, Min(Min(|buf|, LeftInCluster(f)), f.limit - f.cursor));
      case WriteOut(buf) =>
        WrittenOk(f, buf, Min(|buf|, f.limit - f.cursor));
      case Cut =>
        WholeMonotone(f.cursor, |f.contents|, f.clusterSize);
        ClustersBehind(f.cursor, f.clusterSize);
        WholeIsWhole(f.cursor, ClustersFromBytes(f.cursor, f.clusterSize), f.clusterSize);
      case _ =>
    }
  }

  ghost predicate IsStep(f: Flat, c: Command, f': Flat, reply: Reply) {
    f.Ok() && Step(f, c) == (f', reply)
  }

  function Run(f: Flat, cmds: seq<Command>): (r: (Flat, seq<Reply>))
    requires f.Ok()
    ensures r.0.Ok() && r.0.limit == f.limit && |r.1| == |cmds|
  {
    if cmds == [] then (f, [])
    else
      var before := Run(f, cmds[..|cmds| - 1]);
      StepOk(before.0, cmds[|cmds| - 1]);
      var last := Step(before.0, cmds[|cmds| - 1]);
      (last.0, before.1 + [last.1])
  }

  ghost predicate IsRun(f: Flat, cmds: seq<Command>, f': Flat, replies: seq<Reply>) {
    f.Ok() && Run(f, cmds) == (f', replies)
  }

  lemma RunOne(f: Flat, cmds: seq<Command>, c: Command)
    requires f.Ok()
    ensures var before := Run(f, cmds);
            var last := Step(before.0, c);
            Run(f, cmds + [c]) == (last.0, before.1 + [last.1])
  {
    assert (cmds + [c])[..|cmds|] == cmds;
  }

  lemma StepsReadBack(f: Flat, buf: seq<Byte>)
    requires f.Ok() && f.cursor + |buf| <= f.limit
    ensures var written := Step(f, WriteOut(buf));
            && written.0.Ok() && written.1 == Done
            && var back := Step(written.0, SeekTo(Start(f.cursor)));
               back.0.Ok() && back.1 == At(f.cursor) && Step(back.0, ReadExactly(|buf|)).1 == Bytes(buf)
  {
    hide SlotStart, ClustersFromBytes, WholeClusters;
    assert buf[..|buf|] == buf;
    var laid := Overlay(f.contents, f.cursor, buf);
    StepOk(f, WriteOut(buf));
    StepOk(Step(f, WriteOut(buf)).0, SeekTo(Start(f.cursor)));
    ShapedOk(f, laid);
    assert f.Shaped(laid)[f.cursor..f.cursor + |buf|] == buf;
  }

  /** What is written and fits reads back, byte for byte. */
  lemma WriteReadsBack(f: Flat, buf: seq<Byte>)
    requires f.Ok() && f.cursor + |buf| <= f.limit
    ensures Run(f, [WriteOut(buf), SeekTo(Start(f.cursor)), ReadExactly(|buf|)]).1 == [Done, At(f.cursor), Bytes(buf)]
  {
    hide Step;
    var w, s, r := WriteOut(buf), SeekTo(Start(f.cursor)), ReadExactly(|buf|);
    StepsReadBack(f, buf);
    RunOne(f, [], w);
    RunOne(f, [w], s);
    RunOne(f, [w, s], r);
    hide Run;
    assert [] + [w] == [w] && [w] + [s] == [w, s] && [w, s] + [r] == [w, s, r];
  }

  /** Where a seek goes. A relative one is the absolute one to the sum of base and distance; it is refused exactly
      when the sum is no 32-bit offset or, from the end, when the stream has no size. */
  lemma SeekLands(f: Flat, x: int)
    requires f.Ok()
    ensures x >= 0 ==>
              Step(f, SeekTo(Start(x)))
              == if x > 0xFFFF_FFFF then (f, Failed(InvalidInput))
                 else if x <= |f.contents| then (f.(cursor := x), At(x))
                 else (f.(cursor := |f.contents|), At(|f.contents|))
    ensures Step(f, SeekTo(Current(x)))
            == if f.cursor + x < 0 then (f, Failed(InvalidInput)) else Step(f, SeekTo(Start(f.cursor + x)))
    ensures Step(f, SeekTo(End(x)))
            == if !f.sized || |f.contents| + x < 0 then (f, Failed(InvalidInput))
               else Step(f, SeekTo(Start(|f.contents| + x)))
  {}

  lemma StepsReadAgain(f: Flat, n: int)
    requires f.Ok() && 0 <= n && f.cursor + n <= |f.contents|
    ensures var read := Step(f, ReadExactly(n));
            && read.0.Ok() && read.1 == Bytes(f.contents[f.cursor..f.cursor + n])
            && Step(read.0, SeekTo(Current(-n))) == (f, At(f.cursor))
  {}

  /** Going back by what was read undoes the read: the same bytes are read a second time. */
  lemma ReadAgain(f: Flat, n: int)
    requires f.Ok() && 0 <= n && f.cursor + n <= |f.contents|
    ensures var bytes := f.contents[f.cursor..f.cursor + n];
            && Run(f, [ReadExactly(n), SeekTo(Current(-n))]) == (f, [Bytes(bytes), At(f.cursor)])
            && Run(f, [ReadExactly(n), SeekTo(Current(-n)), ReadExactly(n)]).1
               == [Bytes(bytes), At(f.cursor), Bytes(bytes)]
  {
    hide Step;
    var r, s := ReadExactly(n), SeekTo(Current(-n));
    StepsReadAgain(f, n);
    RunOne(f, [], r);
    RunOne(f, [r], s);
    RunOne(f, [r, s], r);
    hide Run;
    assert [] + [r] == [r] && [r] + [s] == [r, s] && [r, s] + [r] == [r, s, r];
    assert Run(f, [r, s]).1 == [Bytes(f.contents[f.cursor..f.cursor + n]), At(f.cursor)];
  }

  lemma StepsReadLast(f: Flat, k: int)
    requires f.Ok() && f.sized && 0 <= k <= |f.contents|
    ensures var back := Step(f, SeekTo(End(-k)));
            && back.0.Ok() && back.1 == At(|f.contents| - k)
            && var read := Step(back.0, ReadExactly(k));
               && read.0.Ok() && read.1 == Bytes(f.contents[|f.contents| - k..])
               && Step(read.0, ReadExactly(1)).1 == Failed(UnexpectedEof)
  {
    StepOk(f, SeekTo(End(-k)));
  }

  /** From the end of a file one reads its last bytes, and then no more. */
  lemma ReadLast(f: Flat, k: int)
    requires f.Ok() && f.sized && 0 <= k <= |f.contents|
    ensures Run(f, [SeekTo(End(-k)), ReadExactly(k), ReadExactly(1)]).1
            == [At(|f.contents| - k), Bytes(f.contents[|f.contents| - k..]), Failed(UnexpectedEof)]
  {
    hide Step;
    var s, r, one := SeekTo(End(-k)), ReadExactly(k), ReadExactly(1);
    StepsReadLast(f, k);
    RunOne(f, [], s);
    RunOne(f, [s], r);
    RunOne(f, [s, r], one);
    hide Run;
    assert [] + [s] == [s] && [s] + [r] == [s, r] && [s, r] + [one] == [s, r, one];
  }

  lemma OverlayNothing(s: seq<Byte>, at: nat, buf: seq<Byte>)
    requires at <= |s| && buf == []
    ensures Overlay(s, at, buf) == s
  {}

  lemma OverlayTwice(s: seq<Byte>, at: nat, buf: seq<Byte>, done: nat, n: nat)
    requires at <= |s| && done + n <= |buf|
    ensures at + done <= |Overlay(s, at, buf[..done])|
    ensures Overlay(Overlay(s, at, buf[..done]), at + done, buf[done..][..n]) == Overlay(s, at, buf[..done + n])
  {
    assert buf[..done] + buf[done..][..n] == buf[..done + n];
  }

  lemma WholeSlots(k: nat, clusterSize: nat)
    requires clusterSize > 0
    ensures WholeClusters(SlotStart(0, clusterSize, k), clusterSize) == SlotStart(0, clusterSize, k)
  {
    hide SlotStart;
    if k > 0 {
      Advanced(k - 1, clusterSize, 0, clusterSize);
    }
    WholeIsWhole(SlotStart(0, clusterSize, k), k, clusterSize);
  }

  lemma WholeUnique(n: nat, whole: nat, clusterSize: nat)
    requires clusterSize > 0 && WholeClusters(whole, clusterSize) == whole && n <= whole < n + clusterSize
    ensures WholeClusters(n, clusterSize) == whole
  {
    hide SlotStart, ClustersFromBytes;
    var k := ClustersFromBytes(whole, clusterSize);
    if k > 0 {
      Advanced(k - 1, clusterSize, 0, clusterSize);
    }
    WholeIsWhole(n, k, clusterSize);
  }

  lemma SpliceZeros(data: seq<Byte>, z: nat, at: nat, piece: seq<Byte>)
    requires at <= |data| && at + |piece| <= |data| + z
    ensures Splice(data + Zeros(z), at, piece)
            == Overlay(data, at, piece) + Zeros(|data| + z - Max(|data|, at + |piece|))
  {}

  /** A directory's bytes after a write: the overlay, then zeros up to the end of the cluster. */
  lemma FilledUp(f: Flat, z: nat, piece: seq<Byte>)
    requires f.clusterSize > 0 && !f.sized && f.cursor <= |f.contents| && f.cursor + |piece| <= |f.contents| + z
    requires WholeClusters(|f.contents| + z, f.clusterSize) == |f.contents| + z
    requires z == 0 || |f.contents| + z < f.cursor + |piece| + f.clusterSize
    ensures Splice(f.contents + Zeros(z), f.cursor, piece) == f.Shaped(Overlay(f.contents, f.cursor, piece))
  {
    hide WholeClusters, Splice;
    SpliceZeros(f.contents, z, f.cursor, piece);
    WholeUnique(Max(|f.contents|, f.cursor + |piece|), |f.contents| + z, f.clusterSize);
  }

  lemma CutView(before: Flat, after: Flat)
    requires before.Ok() && after.Ok() && after.cursor == before.cursor && after.limit == before.limit
    requires after.clusterSize == before.clusterSize && after.sized == before.sized && after.contents <= before.contents
    requires |after.contents|
             == if before.sized then before.cursor else WholeClusters(before.cursor, before.clusterSize)
    ensures IsStep(before, Cut, after, Done)
  {
    hide WholeClusters;
    assert after.contents == before.contents[..|after.contents|];
  }

  class File {
    const fs: FileSystem
    var firstCluster: Option<nat>
    var currentCluster: Option<nat>
    var offset: nat
    var entry: Option<Entry>
    ghost var chain: seq<nat>
    ghost var data: seq<Byte>
    ghost var behind: nat

    function Size(): Option<nat>
      reads this
    {
      if entry.Some? then entry.value.size else None
    }

    function IsDir(): bool
      reads this
    {
      entry.Some? && entry.value.size.None?
    }

    /** The handle's fields against its chain. */
    ghost predicate Placed()
      reads this
    {
      && fs.layout.clusterSize > 0 && firstCluster == Head(chain)
      && (entry.Some? ==> entry.value.firstCluster == firstCluster)
      && behind <= |chain| && Behind(offset, fs.layout.clusterSize, behind)
      && currentCluster == (if behind == 0 then None else Some(chain[behind - 1]))
      && offset <= MAX_FILE_SIZE && offset <= |data| == SlotStart(0, fs.layout.clusterSize, |chain|)
      && (Size().Some? ==> offset <= Size().value <= |data| && Size().value <= MAX_FILE_SIZE)
    }

    ghost predicate Valid()
      reads this, fs, fs.storage
    {
      && fs.Valid() && Placed()
      && Chained(fs.table, fs.clusters, fs.layout.clusterSize, chain, data)
    }

    /** What a reader sees: the chain's bytes, up to the size when there is one. */
    ghost function Contents(): seq<Byte>
      requires Placed()
      reads this
    {
      if Size().Some? then data[..Size().value] else data
    }

    lemma ContentsInData()
      requires Placed()
      ensures Contents() <= data && |Contents()| == (if Size().Some? then Size().value else |data|)
    {}

    /** How far the file can grow on this volume: its own clusters and all the free ones. */
    ghost function Capacity(): nat
      reads this`chain, fs`table
    {
      SlotStart(0, fs.layout.clusterSize, |chain| + FreeCount(fs.table))
    }

    ghost predicate SameKind(before: Option<Entry>)
      reads this
    {
      entry.Some? == before.Some? && (entry.Some? ==> entry.value.size.Some? == before.value.size.Some?)
    }

    /** Opens a chain at its start. */
    constructor (fs: FileSystem, entry: Option<Entry>, firstCluster: Option<nat>, ghost chain: seq<nat>)
      requires fs.Valid() && (chain == [] || IsChain(fs.table, chain)) && firstCluster == Head(chain)
      requires entry.Some? ==> entry.value.firstCluster == firstCluster
      requires entry.Some? && entry.value.size.Some? ==>
                 entry.value.size.value <= MAX_FILE_SIZE
                 && entry.value.size.value <= SlotStart(0, fs.layout.clusterSize, |chain|)
      ensures Valid() && this.fs == fs && this.entry == entry && this.chain == chain && offset == 0
    {
      hide Joined, SlotStart, FreeCount, Layout.Represents;
      fs.ChainSized(chain);
      JoinedSize(fs.clusters, fs.layout.clusterSize, chain);
      this.fs, this.entry, this.firstCluster, this.chain := fs, entry, firstCluster, chain;
      currentCluster, offset, behind := None, 0, 0;
      data := Joined(fs.clusters, chain);
    }

    /** The cluster under the position: the current one, or the next when the position is between two. */
    method Locate() returns (r: Option<nat>, ghost i: nat)
      requires Valid()
      modifies fs.storage`pos
      ensures Valid() && i <= |chain| && fs.layout.clusterSize > 0
      ensures offset == SlotStart(0, fs.layout.clusterSize, i) + InCluster(offset, fs.layout.clusterSize)
      ensures r == if i < |chain| then Some(chain[i]) else None
      ensures r.None? ==>
                currentCluster == Last(chain) && offset == |data| && InCluster(offset, fs.layout.clusterSize) == 0
    {
      hide SlotStart, Joined, FreeCount, FileSystem.Mounted, LinksInRange, Sized, InCluster;
      Within(offset, fs.layout.clusterSize, behind);
      if InCluster(offset, fs.layout.clusterSize) == 0 {
        i := behind;
        if currentCluster.None? {
          r := firstCluster;
        } else {
          NextInChain(fs.table, chain, behind - 1);
          r := fs.NextCluster(currentCluster.value);
        }
      } else {
        i := behind - 1;
        r := currentCluster;
      }
    }

    /** Reads up to the end of the cluster or of the file. Offsets are 32-bit: a directory has to be shorter
        than that. */
    method Read(len: nat) returns (buf: seq<Byte>)
      requires Valid() && |Contents()| <= MAX_FILE_SIZE
      modifies fs.storage`pos, this`offset, this`currentCluster, this`behind
      ensures Valid() && offset == old(offset) + |buf|
      ensures IsPieceAt(Contents(), old(offset), fs.layout.clusterSize, len, buf)
    {
      hide SlotStart, Joined, FreeCount, FileSystem.Mounted, LinksInRange, Behind, InCluster, Chained, IsPieceAt;
      var clusterSize := fs.layout.clusterSize;
      var r, i := Locate();
      ghost var contents := Contents();
      ContentsInData();
      hide File.Contents;
      if r.None? {
        PieceAt(contents, data, offset, clusterSize, len, 0);
        return [];
      }
      var inCluster := InCluster(offset, clusterSize);
      var left := clusterSize - inCluster;
      var leftInFile := if Size().Some? then Size().value - offset else left;
      var n := Min(Min(len, left), leftInFile);
      ChainedRead(fs.table, fs.clusters, clusterSize, chain, data, i, inCluster, n);
      PieceAt(contents, data, offset, clusterSize, len, n);
      if n == 0 {
        return [];
      }
      buf := fs.ReadCluster(r.value, inCluster, n);
      Advance(r.value, i, n);
    }

    /** Where on the disk the position is: right behind the bytes of its cluster that precede it. Between two
        clusters that is the end of the first. */
    method AbsPos() returns (r: Option<nat>)
      requires Valid()
      ensures r.None? <==> offset == 0
      ensures r.Some? ==> behind > 0 && SlotStart(0, fs.layout.clusterSize, behind - 1) < offset
      ensures r.Some? ==>
                EndsAt(fs.storage.bytes, r.value, data, offset,
                       offset - SlotStart(0, fs.layout.clusterSize, behind - 1))
    {
      hide SlotStart, Joined, FreeCount, LinksInRange, InCluster, Chained, Table, Divided, MirrorsAgree, Layout.Ok;
      if currentCluster.None? {
        return None;
      }
      var clusterSize := fs.layout.clusterSize;
      var inCluster := InCluster(offset, clusterSize);
      var n := if inCluster == 0 then clusterSize else inCluster;
      Within(offset, clusterSize, behind);
      Advanced(behind - 1, clusterSize, 0, clusterSize);
      ChainedRead(fs.table, fs.clusters, clusterSize, chain, data, behind - 1, 0, n);
      ClusterAt(fs.storage.bytes, fs.layout.dataStart, clusterSize, fs.clusters, currentCluster.value);
      var at := ClusterStart(fs.layout.dataStart, clusterSize, currentCluster.value);
      SliceOfSlice(fs.storage.bytes, at, at + clusterSize, 0, n);
      r := Some(at + n);
    }

    /** Moves on by `n` bytes inside cluster `i`. */
    method Advance(c: nat, ghost i: nat, n: nat)
      requires Placed() && i < |chain| && chain[i] == c && 0 < n
      requires offset == SlotStart(0, fs.layout.clusterSize, i) + InCluster(offset, fs.layout.clusterSize)
      requires InCluster(offset, fs.layout.clusterSize) + n <= fs.layout.clusterSize
      requires offset + n <= |Contents()| && offset + n <= MAX_FILE_SIZE
      modifies this`offset, this`currentCluster, this`behind
      ensures Placed() && offset == old(offset) + n
    {
      hide SlotStart, InCluster, Behind;
      Advanced(i, fs.layout.clusterSize, InCluster(offset, fs.layout.clusterSize), n);
      offset, currentCluster, behind := offset + n, Some(c), i + 1;
    }

    /** Appends a new cluster to the chain. Only a directory with an entry gets a zeroed one: the root
        directory, like a file, inherits whatever the cluster held. */
    method Grow() returns (r: Option<nat>)
      requires Valid() && currentCluster == Last(chain)
      modifies this`firstCluster, this`entry, this`chain, this`data, fs, fs.storage
      ensures Valid() && Size() == old(Size()) && SameKind(old(entry))
      ensures Untouched(old(fs.table), old(fs.clusters), old(chain), fs.table, fs.clusters, chain)
      ensures |chain| + FreeCount(fs.table) == old(|chain| + FreeCount(fs.table))
      ensures r.None? <==> old(FreeCount(fs.table)) == 0
      ensures r.None? ==> chain == old(chain) && data == old(data)
      ensures r.Some? ==> chain == old(chain) + [r.value]
      ensures Extends(old(fs.clusters), old(chain), old(data), fs.clusters, chain, data, IsDir(), offset, [])
    {
      hide SlotStart, Joined, FreeCount, FileSystem.Mounted, LinksInRange, Behind, Chained, Untouched, Allocated;
      hide Extends;
      ChainedLast(fs.table, fs.clusters, fs.layout.clusterSize, chain, data);
      ChainedBelow(fs.table, fs.clusters, fs.layout.clusterSize, chain, data);
      r := fs.AllocCluster(currentCluster, IsDir());
      if r.None? {
        UntouchedRefl(fs.table, fs.clusters, chain);
        ExtendsNothing(fs.clusters, chain, data, IsDir(), offset, []);
        return;
      }
      GrowExtends(old(fs.clusters), chain, data, r.value, fs.clusters, IsDir(), offset);
      fs.ClusterSize(r.value);
      ChainedAlloc(old(fs.table), old(fs.clusters), fs.layout.clusterSize, chain, data, r.value, fs.clusters);
      data, chain := data + fs.clusters[r.value], chain + [r.value];
      ChainedLast(fs.table, fs.clusters, fs.layout.clusterSize, chain, data);
      if firstCluster.None? {
        SetFirstCluster(r.value);
      }
    }

    method SetFirstCluster(c: nat)
      modifies this`firstCluster, this`entry
      ensures firstCluster == Some(c) && SameKind(old(entry)) && Size() == old(Size())
      ensures entry.Some? ==> entry.value.firstCluster == firstCluster
    {
      firstCluster := Some(c);
      if entry.Some? {
        entry := Some(entry.value.(firstCluster := firstCluster));
      }
    }

    /** The cluster to write to, allocating one at the end of the chain. Fails exactly when the position has
        reached everything the volume can give. */
    method ClusterForWrite() returns (r: Option<nat>, ghost i: nat)
      requires Valid()
      modifies this`firstCluster, this`entry, this`chain, this`data, fs, fs.storage
      ensures Valid() && Size() == old(Size()) && SameKind(old(entry))
      ensures Untouched(old(fs.table), old(fs.clusters), old(chain), fs.table, fs.clusters, chain)
      ensures Capacity() == old(Capacity()) && (r.None? <==> offset == Capacity())
      ensures r.None? ==> chain == old(chain) && data == old(data)
      ensures r.Some? ==> i < |chain| && chain[i] == r.value
      ensures r.Some? ==> offset == SlotStart(0, fs.layout.clusterSize, i) + InCluster(offset, fs.layout.clusterSize)
      ensures r.Some? ==> chain == old(chain) || (chain == old(chain) + [r.value] && i == |chain| - 1)
      ensures Extends(old(fs.clusters), old(chain), old(data), fs.clusters, chain, data, IsDir(), offset, [])
    {
      hide SlotStart, Joined, FreeCount, FileSystem.Mounted, LinksInRange, Behind, InCluster, Chained, Untouched;
      hide IsChain;
      hide Extends;
      ChainedBelow(fs.table, fs.clusters, fs.layout.clusterSize, chain, data);
      r, i := Locate();
      BelowCapacity(|chain|, FreeCount(fs.table), fs.layout.clusterSize);
      ChainedLast(fs.table, fs.clusters, fs.layout.clusterSize, chain, data);
      if r.Some? {
        ChainedRead(fs.table, fs.clusters, fs.layout.clusterSize, chain, data, i,
                    InCluster(offset, fs.layout.clusterSize), 0);
        UntouchedRefl(fs.table, fs.clusters, chain);
        ExtendsNothing(fs.clusters, chain, data, IsDir(), offset, []);
      } else {
        r := Grow();
      }
    }

    /** Moves past what was just written and grows the size if the position has passed it. */
    method AfterWrite(c: nat, ghost i: nat, n: nat)
      requires Placed() && i < |chain| && chain[i] == c && 0 < n
      requires offset == SlotStart(0, fs.layout.clusterSize, i) + InCluster(offset, fs.layout.clusterSize)
      requires InCluster(offset, fs.layout.clusterSize) + n <= fs.layout.clusterSize
      requires offset + n <= |data| && offset + n <= MAX_FILE_SIZE
      modifies this`offset, this`currentCluster, this`behind, this`entry
      ensures Placed() && offset == old(offset) + n && SameKind(old(entry)) && behind == i + 1
      ensures Size() == if old(Size()).Some? then Some(Max(old(Size()).value, offset)) else None
    {
      hide SlotStart, InCluster, Behind;
      Advanced(i, fs.layout.clusterSize, InCluster(offset, fs.layout.clusterSize), n);
      offset, currentCluster, behind := offset + n, Some(c), i + 1;
      if entry.Some? && entry.value.size.Some? && offset > entry.value.size.value {
        entry := Some(entry.value.(size := Some(offset)));
      }
    }

    /** Writes up to the end of the cluster. The new bytes lie over the old contents, growing them if need be;
        the only failure is a volume with no cluster left to give, and it changes nothing. */
    method Write(buf: seq<Byte>) returns (r: Result<nat, FileError>)
      requires Valid()
      modifies this, fs, fs.storage
      ensures Valid() && SameKind(old(entry)) && Capacity() == old(Capacity())
      ensures Untouched(old(fs.table), old(fs.clusters), old(chain), fs.table, fs.clusters, chain)
      ensures r.Err? <==> buf != [] && old(offset) < MAX_FILE_SIZE && old(offset) == old(Capacity())
      ensures r.Err? ==> r.error == NotEnoughSpace && offset == old(offset) && Contents() == old(Contents())
      ensures r.Ok? ==>
                r.value == Min(Min(|buf|, fs.layout.clusterSize - InCluster(old(offset), fs.layout.clusterSize)),
                               MAX_FILE_SIZE - old(offset))
      ensures r.Ok? ==> offset == old(offset) + r.value
      ensures Extends(old(fs.clusters), old(chain), old(data), fs.clusters, chain, data, IsDir(), old(offset),
                      if r.Ok? then buf[..r.value] else [])
      ensures |chain| == |old(chain)| || |data| < offset + fs.layout.clusterSize
      ensures r.Ok? && Size().Some? ==> IsOverlay(old(Contents()), old(offset), buf[..r.value], Contents())
    {
      hide SlotStart, Joined, FreeCount, FileSystem.Mounted, LinksInRange, Behind, InCluster, Chained, Untouched;
      hide IsChain, Splice, Extends;
      var clusterSize := fs.layout.clusterSize;
      var inCluster := InCluster(offset, clusterSize);
      var n := Min(Min(|buf|, clusterSize - inCluster), MAX_FILE_SIZE - offset);
      ghost var piece := buf[..n];
      ChainedLast(fs.table, fs.clusters, clusterSize, chain, data);
      ChainedBelow(fs.table, fs.clusters, clusterSize, chain, data);
      if n == 0 {
        UntouchedRefl(fs.table, fs.clusters, chain);
        ExtendsNothing(fs.clusters, chain, data, IsDir(), offset, piece);
        OverlayNothing(Contents(), offset, piece);
        return Ok(0);
      }
      var c, i := ClusterForWrite();
      if c.None? {
        return Err(NotEnoughSpace);
      }
      ghost var table, clusters, chain1, grown := fs.table, fs.clusters, chain, data;
      PutInCluster(c.value, i, buf[..n]);
      Advanced(i, clusterSize, inCluster, n);
      UntouchedTrans(old(fs.table), old(fs.clusters), old(chain), table, clusters, chain1, fs.table, fs.clusters,
                     chain);
      ChainedApart(fs.table, fs.clusters, clusterSize, chain, data);
      assert [] + piece == piece;
      ExtendsTwice(old(fs.clusters), old(chain), old(data), clusters, chain1, grown, fs.clusters, chain, data, IsDir(),
                   old(offset), [], piece);
      if Size().Some? {
        ExtendsView(old(fs.clusters), old(chain), old(data), fs.clusters, chain, data, IsDir(), old(offset), piece,
                    old(Size()).value);
      }
      r := Ok(n);
    }

    method PutInCluster(c: nat, ghost i: nat, piece: seq<Byte>)
      requires Valid() && i < |chain| && chain[i] == c && piece != []
      requires offset == SlotStart(0, fs.layout.clusterSize, i) + InCluster(offset, fs.layout.clusterSize)
      requires InCluster(offset, fs.layout.clusterSize) + |piece| <= fs.layout.clusterSize
      requires offset + |piece| <= MAX_FILE_SIZE
      modifies this`offset, this`currentCluster, this`behind, this`entry, this`data, fs`clusters, fs.storage
      ensures Valid() && offset == old(offset) + |piece| && SameKind(old(entry)) && behind == i + 1
      ensures Size() == if old(Size()).Some? then Some(Max(old(Size()).value, offset)) else None
      ensures Untouched(old(fs.table), old(fs.clusters), old(chain), fs.table, fs.clusters, chain)
      ensures Extends(old(fs.clusters), old(chain), old(data), fs.clusters, chain, data, IsDir(), old(offset), piece)
    {
      hide SlotStart, Joined, FreeCount, FileSystem.Mounted, LinksInRange, Behind, InCluster, Chained, Untouched;
      hide IsChain, Splice, Extends;
      ghost var inCluster := InCluster(offset, fs.layout.clusterSize);
      ChainedBelow(fs.table, fs.clusters, fs.layout.clusterSize, chain, data);
      ChainedWrite(fs.table, fs.clusters, fs.layout.clusterSize, chain, data, i, inCluster, piece);
      ChainedRead(fs.table, fs.clusters, fs.layout.clusterSize, chain, data, i, inCluster, 0);
      PutExtends(fs.clusters, chain, data, i, Splice(fs.clusters[c], inCluster, piece), IsDir(), offset, piece);
      fs.WriteCluster(c, InCluster(offset, fs.layout.clusterSize), piece);
      data := Splice(data, offset, piece);
      AfterWrite(c, i, |piece|);
    }

    /** Moves the position: refused when the target is not a 32-bit offset, otherwise the target or the end of
        the contents, whichever comes first. */
    method Seek(pos: SeekFrom) returns (r: Result<nat, FileError>)
      requires Valid()
      modifies fs.storage`pos, this`offset, this`currentCluster, this`behind
      ensures Valid()
      ensures r.Err? <==> Target(pos, old(offset), Size()).None?
      ensures r.Err? ==> r.error == InvalidInput && offset == old(offset)
      ensures r.Ok? ==> r.value == offset == Min(Target(pos, old(offset), Size()).value, |Contents()|)
      ensures pos.Start? ==> (r.Ok? <==> pos.at <= MAX_FILE_SIZE)
      ensures pos.Current? ==> (r.Ok? <==> 0 <= old(offset) + pos.delta <= MAX_FILE_SIZE)
      ensures pos.End? ==> (r.Ok? <==> Size().Some? && 0 <= |Contents()| + pos.delta <= MAX_FILE_SIZE)
      ensures r.Ok? && pos.Start? && pos.at <= |Contents()| ==> offset == pos.at
      ensures r.Ok? && pos.Current? && old(offset) + pos.delta <= |Contents()| ==> offset == old(offset) + pos.delta
      ensures r.Ok? && pos.End? && pos.delta <= 0 ==> offset == |Contents()| + pos.delta
    {
      hide SlotStart, Joined, FreeCount, FileSystem.Mounted, LinksInRange, Chained;
      var target := Target(pos, offset, Size());
      if target.None? {
        return Err(InvalidInput);
      }
      var to := if Size().Some? then Min(target.value, Size().value) else target.value;
      if to != offset {
        MoveTo(to);
      }
      r := Ok(offset);
    }

    method MoveTo(to: nat)
      requires Valid() && to <= MAX_FILE_SIZE && (Size().Some? ==> to <= Size().value)
      modifies fs.storage`pos, this`offset, this`currentCluster, this`behind
      ensures Valid() && offset == Min(to, |data|)
    {
      hide SlotStart, Joined, FreeCount, FileSystem.Mounted, LinksInRange, Chained, ClustersFromBytes;
      var clusterSize := fs.layout.clusterSize;
      var toClusters := ClustersFromBytes(to, clusterSize);
      var clusters := ClustersFromBytes(offset, clusterSize);
      ClustersBehind(to, clusterSize);
      ClustersBehind(offset, clusterSize);
      BehindUnique(offset, clusterSize, clusters, behind);
      if to == 0 {
        offset, currentCluster, behind := 0, None, 0;
      } else if toClusters == clusters {
        LongEnough(|chain|, clusterSize, toClusters, to);
        offset := to;
      } else if firstCluster.Some? {
        var c, reached, last := Walk(toClusters, to);
        offset, currentCluster, behind := reached, Some(c), last + 1;
      } else {
        offset, currentCluster, behind := 0, None, 0;
      }
    }

    /** Follows the chain to the cluster that `to` ends in, or to its end if it is too short. */
    method Walk(toClusters: nat, to: nat) returns (c: nat, reached: nat, last: nat)
      requires Valid() && chain != [] && toClusters > 0 && Behind(to, fs.layout.clusterSize, toClusters)
      modifies fs.storage`pos
      ensures Valid() && last < |chain| && c == chain[last]
      ensures reached == Min(to, |data|) && Behind(reached, fs.layout.clusterSize, last + 1)
    {
      hide SlotStart, Joined, FreeCount, FileSystem.Mounted, LinksInRange, Chained;
      c, reached, last := firstCluster.value, to, 0;
      while last < toClusters - 1
        invariant Valid() && last < |chain| && c == chain[last] && reached == to && last <= toClusters - 1
        decreases toClusters - last
      {
        ChainedNext(fs.table, fs.clusters, fs.layout.clusterSize, chain, data, last);
        var next := fs.NextCluster(c);
        if next.None? {
          TooShort(|chain|, fs.layout.clusterSize, toClusters, to);
          reached := SlotStart(0, fs.layout.clusterSize, last + 1);
          return;
        }
        c, last := next.value, last + 1;
      }
      LongEnough(|chain|, fs.layout.clusterSize, toClusters, to);
    }

    /** Cuts the file at the position and gives the clusters behind it back. The root directory has no entry
        and must not be truncated. */
    method Truncate()
      requires Valid() && entry.Some?
      modifies this, fs, fs.storage
      ensures Valid() && offset == old(offset) && SameKind(old(entry)) && Capacity() == old(Capacity())
      ensures Untouched(old(fs.table), old(fs.clusters), old(chain), fs.table, fs.clusters, chain)
      ensures |chain| == ClustersFromBytes(offset, fs.layout.clusterSize)
      ensures Contents() <= old(Contents()) && (Size().Some? ==> |Contents()| == offset)
    {
      hide SlotStart, Joined, FreeCount, FileSystem.Mounted, LinksInRange, Chained, Untouched, ClustersFromBytes;
      ghost var clusterSize := fs.layout.clusterSize;
      ClustersBehind(offset, clusterSize);
      BehindUnique(offset, clusterSize, ClustersFromBytes(offset, clusterSize), behind);
      SetSize(offset);
      if currentCluster.Some? {
        CutChain();
      } else if firstCluster.Some? {
        DropChain();
      } else {
        ChainedLast(fs.table, fs.clusters, clusterSize, chain, data);
        UntouchedRefl(fs.table, fs.clusters, chain);
      }
    }

    /** Records the size in the entry; a directory has none to record. An empty file has no first cluster. */
    method SetSize(size: nat)
      requires Placed() && entry.Some? && size == offset
      modifies this`entry
      ensures entry.Some? && SameKind(old(entry)) && (Size().Some? ==> Size().value == size)
      ensures entry.value.firstCluster == if size == 0 then None else firstCluster
    {
      if entry.value.size.Some? {
        entry := Some(entry.value.(size := Some(size)));
      }
      if size == 0 {
        entry := Some(entry.value.(firstCluster := None));
      }
    }

    /** Ends the chain at the current cluster. */
    method CutChain()
      requires Valid() && currentCluster.Some? && (Size().Some? ==> Size().value == offset)
      modifies this`chain, this`data, fs, fs.storage
      ensures Valid() && |chain| == behind && chain <= old(chain) && data <= old(data)
      ensures Untouched(old(fs.table), old(fs.clusters), old(chain), fs.table, fs.clusters, chain)
      ensures |chain| + FreeCount(fs.table) == old(|chain| + FreeCount(fs.table))
    {
      hide SlotStart, Joined, FreeCount, FileSystem.Mounted, LinksInRange, Chained, Untouched, FreeFrom, CutSurplus;
      hide Freed;
      hide IsChain;
      ghost var clusterSize := fs.layout.clusterSize;
      ChainedTruncate(fs.table, fs.clusters, clusterSize, chain, data, behind);
      ChainedNext(fs.table, fs.clusters, clusterSize, chain, data, behind - 1);
      ChainedIsChain(fs.table, fs.clusters, clusterSize, chain, data);
      CutIs(fs.table, chain, behind);
      fs.TruncateClusterChain(currentCluster.value);
      chain, data := chain[..behind], data[..SlotStart(0, clusterSize, behind)];
      ChainedLast(fs.table, fs.clusters, clusterSize, chain, data);
    }

    /** Gives the whole chain back. */
    method DropChain()
      requires fs.Valid() && Chained(fs.table, fs.clusters, fs.layout.clusterSize, chain, data)
      requires chain != [] && firstCluster == Head(chain)
      modifies this`firstCluster, this`chain, this`data, fs, fs.storage
      ensures fs.Valid() && Chained(fs.table, fs.clusters, fs.layout.clusterSize, chain, data)
      ensures firstCluster.None? && chain == [] && data == []
      ensures Untouched(old(fs.table), old(fs.clusters), old(chain), fs.table, fs.clusters, chain)
      ensures |chain| + FreeCount(fs.table) == old(|chain| + FreeCount(fs.table))
    {
      hide SlotStart, Joined, FreeCount, FileSystem.Mounted, LinksInRange, Chained, Untouched, FreeFrom, HasChain;
      hide Freed;
      ChainedFree(fs.table, fs.clusters, fs.layout.clusterSize, chain, data);
      ChainedIsChain(fs.table, fs.clusters, fs.layout.clusterSize, chain, data);
      FreeChainExact(fs.table, chain);
      FreedFreeCount(fs.table, chain);
      ChainIsHad(fs.table, chain);
      fs.FreeClusterChain(firstCluster.value);
      firstCluster, chain, data := None, [], [];
    }

    // ----- whole transfers and whole runs

    ghost function View(): Flat
      requires Placed()
      reads this, fs
    {
      Flat(Contents(), offset, Min(MAX_FILE_SIZE, Capacity()), fs.layout.clusterSize, Size().Some?)
    }

    /** Reads exactly `len` bytes by repeated reads, or reports the end of the file. */
    method ReadExact(len: nat) returns (r: Result<seq<Byte>, FileError>)
      requires Valid() && |Contents()| <= MAX_FILE_SIZE
      modifies fs.storage`pos, this`offset, this`currentCluster, this`behind
      ensures Valid() && offset == Min(old(offset) + len, |Contents()|)
      ensures r.Ok? <==> old(offset) + len <= |Contents()|
      ensures r.Ok? ==> r.value == Contents()[old(offset)..offset]
      ensures r.Err? ==> r.error == UnexpectedEof
    {
      hide SlotStart, Joined, FreeCount, FileSystem.Valid, Chained, Behind, InCluster;
      var got: seq<Byte> := [];
      while |got| < len
        invariant Valid() && |got| <= len && offset == old(offset) + |got|
        invariant got == Contents()[old(offset)..offset]
        decreases len - |got|
      {
        var piece := Read(len - |got|);
        if |piece| == 0 {
          break;
        }
        PieceJoins(Contents(), old(offset), got, piece);
        got := got + piece;
      }
      r := if |got| == len then Ok(got) else Err(UnexpectedEof);
    }

    /** Writes all of `buf` by repeated writes. Everything that fits on the volume and below the size limit is
        written, and it succeeds exactly when that is all of it. */
    method WriteAll(buf: seq<Byte>) returns (r: Result<(), FileError>)
      requires Valid()
      modifies this, fs, fs.storage
      ensures Valid() && SameKind(old(entry)) && Capacity() == old(Capacity())
      ensures Untouched(old(fs.table), old(fs.clusters), old(chain), fs.table, fs.clusters, chain)
      ensures offset == Min(old(offset) + |buf|, Min(MAX_FILE_SIZE, Capacity())) && old(offset) <= offset
      ensures Extends(old(fs.clusters), old(chain), old(data), fs.clusters, chain, data, IsDir(), old(offset),
                      buf[..offset - old(offset)])
      ensures |chain| == |old(chain)| || |data| < offset + fs.layout.clusterSize
      ensures Size().Some? ==> IsOverlay(old(Contents()), old(offset), buf[..offset - old(offset)], Contents())
      ensures r.Ok? <==> offset == old(offset) + |buf|
      ensures r.Err? ==> r.error == if offset == MAX_FILE_SIZE then WriteZero else NotEnoughSpace
    {
      hide SlotStart, Joined, FreeCount, FileSystem.Valid, Chained, Behind, InCluster, Untouched, Overlay, Extends;
      var done := 0;
      BelowLimit();
      OverlayNothing(Contents(), offset, buf[..0]);
      NothingExtended(buf[..0]);
      UntouchedHere();
      while done < |buf|
        invariant Valid() && SameKind(old(entry)) && Capacity() == old(Capacity())
        invariant Untouched(old(fs.table), old(fs.clusters), old(chain), fs.table, fs.clusters, chain)
        invariant done <= |buf| && offset == old(offset) + done <= Min(MAX_FILE_SIZE, Capacity())
        invariant Extends(old(fs.clusters), old(chain), old(data), fs.clusters, chain, data, IsDir(), old(offset),
                          buf[..done])
        invariant |chain| == |old(chain)| || |data| < offset + fs.layout.clusterSize
        invariant Size().Some? ==> IsOverlay(old(Contents()), old(offset), buf[..done], Contents())
        decreases |buf| - done
      {
        ghost var table, clusters, before, bytes := fs.table, fs.clusters, chain, data;
        var n := Write(buf[done..]);
        UntouchedTrans(old(fs.table), old(fs.clusters), old(chain), table, clusters, before, fs.table, fs.clusters,
                       chain);
        ghost var count := if n.Ok? then n.value else 0;
        OneMoreWrite(old(fs.clusters), old(chain), old(data), clusters, before, bytes, old(offset), buf, done, count);
        if Size().Some? {
          OverlayTwice(old(Contents()), old(offset), buf, done, count);
        }
        if n.Err? {
          return Err(n.error);
        }
        if n.value == 0 {
          return Err(WriteZero);
        }
        BelowLimit();
        done := done + n.value;
      }
      assert buf[..done] == buf[..offset - old(offset)];
      r := Ok(());
    }

    lemma BelowLimit()
      requires Valid()
      ensures offset <= Min(MAX_FILE_SIZE, Capacity())
    {
      hide SlotStart, Joined, FreeCount, FileSystem.Valid, Chained, Behind;
      BelowCapacity(|chain|, FreeCount(fs.table), fs.layout.clusterSize);
    }

    lemma NothingExtended(piece: seq<Byte>)
      requires Valid() && piece == []
      ensures Extends(fs.clusters, chain, data, fs.clusters, chain, data, IsDir(), offset, piece)
    {
      hide FileSystem.Valid, Extends, Behind;
      ChainedBelow(fs.table, fs.clusters, fs.layout.clusterSize, chain, data);
      ExtendsNothing(fs.clusters, chain, data, IsDir(), offset, piece);
    }

    lemma OneMoreWrite(cs0: seq<seq<Byte>>, ch0: seq<nat>, d0: seq<Byte>, cs1: seq<seq<Byte>>, ch1: seq<nat>,
                       d1: seq<Byte>, at: nat, buf: seq<Byte>, done: nat, n: nat)
      requires Valid() && done + n <= |buf|
      requires Extends(cs0, ch0, d0, cs1, ch1, d1, IsDir(), at, buf[..done])
      requires Extends(cs1, ch1, d1, fs.clusters, chain, data, IsDir(), at + done, buf[done..][..n])
      ensures Extends(cs0, ch0, d0, fs.clusters, chain, data, IsDir(), at, buf[..done + n])
    {
      hide Valid, Extends;
      TwoWrites(cs0, ch0, d0, cs1, ch1, d1, at, buf[..done], buf[done..][..n]);
      assert buf[..done] + buf[done..][..n] == buf[..done + n];
    }

    lemma TwoWrites(cs0: seq<seq<Byte>>, ch0: seq<nat>, d0: seq<Byte>, cs1: seq<seq<Byte>>, ch1: seq<nat>,
                    d1: seq<Byte>, at: nat, p: seq<Byte>, q: seq<Byte>)
      requires Valid()
      requires Extends(cs0, ch0, d0, cs1, ch1, d1, IsDir(), at, p)
      requires Extends(cs1, ch1, d1, fs.clusters, chain, data, IsDir(), at + |p|, q)
      ensures Extends(cs0, ch0, d0, fs.clusters, chain, data, IsDir(), at, p + q)
    {
      hide FileSystem.Valid, Extends, Placed;
      ChainedApart(fs.table, fs.clusters, fs.layout.clusterSize, chain, data);
      ExtendsTwice(cs0, ch0, d0, cs1, ch1, d1, fs.clusters, chain, data, IsDir(), at, p, q);
    }

    lemma UntouchedHere()
      requires Valid()
      ensures Untouched(fs.table, fs.clusters, chain, fs.table, fs.clusters, chain)
    {}

    /** The flat view: a file, or a directory with an entry of its own on a volume of less than 4 GiB. */
    ghost predicate Viewable()
      reads this, fs, fs.storage
    {
      Valid() && entry.Some? && (Size().None? ==> Capacity() <= MAX_FILE_SIZE)
    }

    lemma ViewOk()
      requires Viewable()
      ensures View().Ok()
    {
      hide SlotStart, Joined, FreeCount, FileSystem.Valid, Chained, Behind, WholeClusters;
      BelowCapacity(|chain|, FreeCount(fs.table), fs.layout.clusterSize);
      WholeSlots(|chain|, fs.layout.clusterSize);
      WholeSlots(|chain| + FreeCount(fs.table), fs.layout.clusterSize);
    }

    /** One command on a file or directory does to the chain and the volume what `Step` does to the flat view. */
    method Perform(c: Command) returns (reply: Reply)
      requires Viewable()
      modifies this, fs, fs.storage
      ensures Viewable() && IsStep(old(View()), c, View(), reply)
      ensures Untouched(old(fs.table), old(fs.clusters), old(chain), fs.table, fs.clusters, chain)
    {
      hide SlotStart, Joined, FreeCount, FileSystem.Valid, Chained, Behind, Untouched, Overlay, Capacity, Target;
      hide InCluster, WholeClusters, Flat.Shaped, Extends, Written;
      ViewOk();
      UntouchedHere();
      match c {
        case ReadSome(n) =>
          var buf := Read(n);
          reply := Bytes(buf);
        case ReadExactly(n) =>
          var r := ReadExact(n);
          reply := if r.Ok? then Bytes(r.value) else Failed(r.error);
        case WriteSome(buf) =>
          reply := PerformWriteSome(buf);
        case WriteOut(buf) =>
          reply := PerformWriteOut(buf);
        case SeekTo(pos) =>
          var r := Seek(pos);
          reply := if r.Ok? then At(r.value) else Failed(r.error);
        case Cut =>
          PerformCut();
          reply := Done;
      }
    }

    method PerformCut()
      requires Viewable()
      modifies this, fs, fs.storage
      ensures Viewable() && IsStep(old(View()), Cut, View(), Done)
      ensures Untouched(old(fs.table), old(fs.clusters), old(chain), fs.table, fs.clusters, chain)
    {
      hide SlotStart, Joined, FreeCount, FileSystem.Valid, Chained, Behind, Untouched, Capacity, Step;
      hide ClustersFromBytes;
      ViewOk();
      Truncate();
      ViewOk();
      CutView(old(View()), View());
    }

    method PerformWriteSome(buf: seq<Byte>) returns (reply: Reply)
      requires Viewable()
      modifies this, fs, fs.storage
      ensures Viewable() && IsStep(old(View()), WriteSome(buf), View(), reply)
      ensures Untouched(old(fs.table), old(fs.clusters), old(chain), fs.table, fs.clusters, chain)
    {
      hide SlotStart, Joined, FreeCount, FileSystem.Valid, Chained, Behind, Untouched, Overlay, Capacity, InCluster;
      hide WholeClusters, Flat.Shaped, Extends;
      ViewOk();
      BelowLimit();
      var r := Write(buf);
      BelowLimit();
      if r.Err? {
        return Failed(r.error);
      }
      ShapedIs(old(fs.clusters), old(chain), old(data), old(View()), buf[..r.value]);
      reply := Count(r.value);
    }

    method PerformWriteOut(buf: seq<Byte>) returns (reply: Reply)
      requires Viewable()
      modifies this, fs, fs.storage
      ensures Viewable() && IsStep(old(View()), WriteOut(buf), View(), reply)
      ensures Untouched(old(fs.table), old(fs.clusters), old(chain), fs.table, fs.clusters, chain)
    {
      hide SlotStart, Joined, FreeCount, FileSystem.Valid, Chained, Behind, Untouched, Overlay, Capacity, InCluster;
      hide WholeClusters, Flat.Shaped, Extends;
      ViewOk();
      BelowLimit();
      var r := WriteAll(buf);
      ShapedIs(old(fs.clusters), old(chain), old(data), old(View()), buf[..offset - old(offset)]);
      reply := if r.Ok? then Done else Failed(r.error);
    }

    /** A write leaves the overlay, which for a directory is filled up with the zeros of its new cluster. */
    lemma ShapedIs(clusters: seq<seq<Byte>>, chain0: seq<nat>, data0: seq<Byte>, before: Flat, piece: seq<Byte>)
      requires Viewable() && before.Ok() && before.clusterSize == fs.layout.clusterSize
      requires before.sized == Size().Some? && (!before.sized ==> before.contents == data0)
      requires offset == before.cursor + |piece|
      requires Extends(clusters, chain0, data0, fs.clusters, chain, data, IsDir(), before.cursor, piece)
      requires |chain| == |chain0| || |data| < offset + fs.layout.clusterSize
      requires Size().Some? ==> IsOverlay(before.contents, before.cursor, piece, Contents())
      ensures Contents() == before.Shaped(Overlay(before.contents, before.cursor, piece))
    {
      hide SlotStart, Joined, FreeCount, FileSystem.Valid, Chained, Behind, WholeClusters, Splice;
      if Size().None? {
        WholeSlots(|chain|, fs.layout.clusterSize);
        var z := |FreshBytes(clusters, chain0, chain, true)|;
        assert |chain| == |chain0| ==> chain[|chain0|..] == [];
        JoinedNothing(clusters);
        FilledUp(before, z, piece);
      }
    }

    /** Any run of commands: replies and final view are those of the flat model, and every other file on the
        volume is as it was. */
    method RunAll(cmds: seq<Command>) returns (replies: seq<Reply>)
      requires Viewable()
      modifies this, fs, fs.storage
      ensures Viewable() && IsRun(old(View()), cmds, View(), replies)
      ensures Untouched(old(fs.table), old(fs.clusters), old(chain), fs.table, fs.clusters, chain)
    {
      hide SlotStart, Joined, FreeCount, FileSystem.Valid, Chained, Behind, Untouched, Overlay, Step, Placed;
      ViewOk();
      UntouchedHere();
      replies := [];
      assert cmds[..0] == [];
      for i := 0 to |cmds|
        invariant Viewable() && IsRun(old(View()), cmds[..i], View(), replies)
        invariant Untouched(old(fs.table), old(fs.clusters), old(chain), fs.table, fs.clusters, chain)
      {
        ghost var table, clusters, before, view := fs.table, fs.clusters, chain, View();
        var reply := Perform(cmds[i]);
        UntouchedTrans(old(fs.table), old(fs.clusters), old(chain), table, clusters, before, fs.table, fs.clusters,
                       chain);
        assert cmds[..i + 1][..i] == cmds[..i];
        replies := replies + [reply];
      }
      assert cmds[..|cmds|] == cmds;
    }
  }
}
