/** The bytes of a cluster chain, laid end to end, and a position among them. */
module FileChains {
  import opened Wrappers
  import opened Storages
  import opened DiskSlices
  import opened FatTypes
  import opened FatEntries
  import opened FatTables

  ghost predicate Sized(clusters: seq<seq<Byte>>, size: nat, cs: seq<nat>) {
    forall i :: 0 <= i < |cs| ==> cs[i] < |clusters| && |clusters[cs[i]]| == size
  }

  ghost function Joined(clusters: seq<seq<Byte>>, cs: seq<nat>): seq<Byte>
    requires forall i :: 0 <= i < |cs| ==> cs[i] < |clusters|
  {
    if cs == [] then [] else Joined(clusters, cs[..|cs| - 1]) + clusters[cs[|cs| - 1]]
  }

  lemma {:induction false} JoinedSize(clusters: seq<seq<Byte>>, size: nat, cs: seq<nat>)
    requires Sized(clusters, size, cs)
    ensures |Joined(clusters, cs)| == SlotStart(0, size, |cs|)
  {
    if cs != [] {
      JoinedSize(clusters, size, cs[..|cs| - 1]);
      Distribute(|cs| - 1, 1, size);
    }
  }

  /** Cutting the chain cuts the bytes. */
  lemma {:induction false} JoinedPrefix(clusters: seq<seq<Byte>>, size: nat, cs: seq<nat>, k: nat)
    requires Sized(clusters, size, cs) && k <= |cs|
    ensures SlotStart(0, size, k) <= |Joined(clusters, cs)|
    ensures Joined(clusters, cs[..k]) == Joined(clusters, cs)[..SlotStart(0, size, k)]
  {
    hide SlotStart;
    JoinedSize(clusters, size, cs);
    if k == |cs| {
      assert cs[..k] == cs;
    } else {
      var init := cs[..|cs| - 1];
      JoinedPrefix(clusters, size, init, k);
      assert init[..k] == cs[..k];
    }
  }

  /** Cluster `i` of the chain is slot `i` of the bytes. */
  lemma {:induction false} JoinedAt(clusters: seq<seq<Byte>>, size: nat, cs: seq<nat>, i: nat)
    requires Sized(clusters, size, cs) && i < |cs|
    ensures var at := SlotStart(0, size, i);
            at + size <= |Joined(clusters, cs)| && Joined(clusters, cs)[at..at + size] == clusters[cs[i]]
  {
    hide SlotStart;
    var init, last := cs[..|cs| - 1], clusters[cs[|cs| - 1]];
    var head := Joined(clusters, init);
    JoinedSize(clusters, size, init);
    assert Joined(clusters, cs) == head + last;
    hide Joined;
    if i < |cs| - 1 {
      JoinedAt(clusters, size, init, i);
      SliceLeft(head, last, SlotStart(0, size, i), size);
    } else {
      assert (head + last)[|head|..|head| + size] == last;
    }
  }

  lemma SliceLeft(a: seq<Byte>, b: seq<Byte>, at: nat, n: nat)
    requires at + n <= |a|
    ensures (a + b)[at..at + n] == a[at..at + n]
  {}

  lemma {:induction false} JoinedFrame(clusters: seq<seq<Byte>>, clusters': seq<seq<Byte>>, cs: seq<nat>)
    requires forall i :: 0 <= i < |cs| ==>
               cs[i] < |clusters| && cs[i] < |clusters'| && clusters'[cs[i]] == clusters[cs[i]]
    ensures Joined(clusters', cs) == Joined(clusters, cs)
  {
    if cs != [] {
      JoinedFrame(clusters, clusters', cs[..|cs| - 1]);
    }
  }

  lemma JoinedNothing(clusters: seq<seq<Byte>>)
    ensures Joined(clusters, []) == []
  {}

  lemma JoinedAppend(clusters: seq<seq<Byte>>, cs: seq<nat>, c: nat)
    requires (forall i :: 0 <= i < |cs| ==> cs[i] < |clusters|) && c < |clusters|
    ensures forall i :: 0 <= i < |cs + [c]| ==> (cs + [c])[i] < |clusters|
    ensures Joined(clusters, cs + [c]) == Joined(clusters, cs) + clusters[c]
  {
    assert (cs + [c])[..|cs|] == cs;
  }

  /** Writing inside cluster `i` is a splice of the bytes. */
  lemma {:induction false} JoinedWrite(clusters: seq<seq<Byte>>, size: nat, cs: seq<nat>, i: nat, off: nat,
                                       buf: seq<Byte>)
    requires Sized(clusters, size, cs) && i < |cs| && off + |buf| <= size
    requires forall j, k :: 0 <= j < k < |cs| ==> cs[j] != cs[k]
    ensures SlotStart(0, size, i) + off + |buf| <= |Joined(clusters, cs)|
    ensures var clusters' := clusters[cs[i] := Splice(clusters[cs[i]], off, buf)];
            Joined(clusters', cs) == Splice(Joined(clusters, cs), SlotStart(0, size, i) + off, buf)
    decreases |cs|
  {
    hide SlotStart, Splice;
    var clusters' := clusters[cs[i] := Splice(clusters[cs[i]], off, buf)];
    var init, last := cs[..|cs| - 1], cs[|cs| - 1];
    JoinedSize(clusters, size, init);
    JoinedAt(clusters, size, cs, i);
    assert Joined(clusters, cs) == Joined(clusters, init) + clusters[last];
    assert Joined(clusters', cs) == Joined(clusters', init) + clusters'[last];
    hide Joined;
    if i == |cs| - 1 {
      JoinedFrame(clusters, clusters', init);
      SpliceRight(Joined(clusters, init), clusters[last], off, buf);
    } else {
      JoinedWrite(clusters, size, init, i, off, buf);
      SpliceLeft(Joined(clusters, init), clusters[last], SlotStart(0, size, i) + off, buf);
    }
  }

  lemma SpliceRight(a: seq<Byte>, b: seq<Byte>, off: nat, buf: seq<Byte>)
    requires off + |buf| <= |b|
    ensures a + Splice(b, off, buf) == Splice(a + b, |a| + off, buf)
  {}

  lemma SpliceLeft(a: seq<Byte>, b: seq<Byte>, off: nat, buf: seq<Byte>)
    requires off + |buf| <= |a|
    ensures Splice(a, off, buf) + b == Splice(a + b, off, buf)
  {}

  // ----- positions

  /** `k` clusters are needed to reach `offset`; a position between two clusters counts as the end of the
      first. */
  predicate Behind(offset: nat, size: nat, k: nat) {
    if k == 0 then offset == 0 else SlotStart(0, size, k - 1) < offset <= SlotStart(0, size, k)
  }

  /** Position inside its cluster. */
  function InCluster(offset: nat, size: nat): (r: nat)
    requires size > 0
    ensures r < size
  {
    offset % size
  }

  lemma Remainder(a: nat, size: nat, off: nat)
    requires off < size
    ensures (SlotStart(0, size, a) + off) % size == off && (SlotStart(0, size, a) + off) / size == a
  {
    var x := SlotStart(0, size, a) + off;
    var q, r := x / size, x % size;
    assert x == SlotStart(0, size, q) + r;
    if q < a {
      SlotOrder(0, size, q, a);
    }
    if a < q {
      SlotOrder(0, size, a, q);
    }
  }

  /** Which cluster a position falls in, read off the remainder the code computes. */
  lemma Within(offset: nat, size: nat, k: nat)
    requires size > 0 && Behind(offset, size, k)
    ensures InCluster(offset, size) == 0 ==> offset == SlotStart(0, size, k)
    ensures InCluster(offset, size) != 0 ==> k > 0 && offset == SlotStart(0, size, k - 1) + InCluster(offset, size)
  {
    if k > 0 {
      Distribute(k - 1, 1, size);
      var off := offset - SlotStart(0, size, k - 1);
      if off < size {
        Remainder(k - 1, size, off);
      } else {
        Remainder(k, size, 0);
      }
    } else {
      Remainder(0, size, 0);
    }
  }

  /** Advancing inside cluster `i` leaves the position behind `i + 1` clusters. */
  lemma Advanced(i: nat, size: nat, off: nat, n: nat)
    requires 0 < n && off + n <= size
    ensures Behind(SlotStart(0, size, i) + off + n, size, i + 1)
    ensures SlotStart(0, size, i + 1) == SlotStart(0, size, i) + size
  {
    Distribute(i, 1, size);
  }

  function ClustersFromBytes(bytes: nat, size: nat): nat
    requires size > 0
  {
    (bytes + size - 1) / size
  }

  /** The rounded-up quotient the code computes is the number of clusters behind. */
  lemma ClustersBehind(offset: nat, size: nat)
    requires size > 0
    ensures Behind(offset, size, ClustersFromBytes(offset, size))
  {
    var k := ClustersFromBytes(offset, size);
    var r := (offset + size - 1) % size;
    assert offset + size - 1 == k * size + r;
    if k > 0 {
      Distribute(k - 1, 1, size);
    }
  }

  lemma BehindUnique(offset: nat, size: nat, j: nat, k: nat)
    requires Behind(offset, size, j) && Behind(offset, size, k)
    ensures j == k
  {
    hide SlotStart;
    if j < k {
      BehindOrder(offset, size, j, k);
    }
    if k < j {
      BehindOrder(offset, size, k, j);
    }
  }

  lemma BehindOrder(offset: nat, size: nat, j: nat, k: nat)
    requires j < k && Behind(offset, size, j)
    ensures !Behind(offset, size, k)
  {
    hide SlotStart;
    if j < k - 1 {
      SlotOrder(0, size, j, k - 1);
    }
  }

  // ----- everyone else's clusters

  /** Allocated clusters outside the chain keep their entry and their bytes, and stay outside it. */
  ghost predicate Untouched(table: seq<FatValue>, clusters: seq<seq<Byte>>, chain: seq<nat>,
                            table': seq<FatValue>, clusters': seq<seq<Byte>>, chain': seq<nat>) {
    && |table'| == |clusters'| == |table| == |clusters|
    && forall c: nat :: c < |table| && c !in chain && table[c] != Free ==>
         table'[c] == table[c] && clusters'[c] == clusters[c] && c !in chain'
  }

  predicate Apart(cs: seq<nat>, ds: seq<nat>) {
    forall i :: 0 <= i < |ds| ==> ds[i] !in cs
  }

  /** Hence every other file and directory keeps its chain and its bytes. */
  lemma OthersKept(table: seq<FatValue>, clusters: seq<seq<Byte>>, chain: seq<nat>,
                   table': seq<FatValue>, clusters': seq<seq<Byte>>, chain': seq<nat>, ds: seq<nat>)
    requires Untouched(table, clusters, chain, table', clusters', chain')
    requires IsChain(table, ds) && Apart(chain, ds)
    ensures IsChain(table', ds) && Apart(chain', ds) && Joined(clusters', ds) == Joined(clusters, ds)
  {
    ChainFrame(table, table', ds);
    JoinedFrame(clusters, clusters', ds);
  }

  // ----- a file's chain under the operations of the volume

  /** A file's clusters (none for an empty file) and the bytes in them. */
  ghost predicate Chained(table: seq<FatValue>, clusters: seq<seq<Byte>>, size: nat, chain: seq<nat>, data: seq<Byte>) {
    && (chain == [] || IsChain(table, chain)) && |clusters| == |table|
    && Sized(clusters, size, chain) && data == Joined(clusters, chain)
  }

  function Last(chain: seq<nat>): Option<nat> {
    if chain == [] then None else Some(chain[|chain| - 1])
  }

  function Head(chain: seq<nat>): Option<nat> {
    if chain == [] then None else Some(chain[0])
  }

  /** The first cluster, which is all a directory entry records, determines the chain and the bytes. */
  lemma HeadDetermines(table: seq<FatValue>, clusters: seq<seq<Byte>>, size: nat, chain: seq<nat>, data: seq<Byte>,
                       chain': seq<nat>, data': seq<Byte>)
    requires Chained(table, clusters, size, chain, data) && Chained(table, clusters, size, chain', data')
    requires Head(chain) == Head(chain')
    ensures chain == chain' && data == data'
  {
    if chain != [] {
      ChainUnique(table, chain, chain');
    }
  }

  lemma ChainedIsChain(table: seq<FatValue>, clusters: seq<seq<Byte>>, size: nat, chain: seq<nat>, data: seq<Byte>)
    requires Chained(table, clusters, size, chain, data) && chain != []
    ensures IsChain(table, chain)
  {}

  lemma ChainedBelow(table: seq<FatValue>, clusters: seq<seq<Byte>>, size: nat, chain: seq<nat>, data: seq<Byte>)
    requires Chained(table, clusters, size, chain, data)
    ensures Below(chain, |clusters|)
  {}

  lemma ChainedApart(table: seq<FatValue>, clusters: seq<seq<Byte>>, size: nat, chain: seq<nat>, data: seq<Byte>)
    requires Chained(table, clusters, size, chain, data)
    ensures forall i, j :: 0 <= i < j < |chain| ==> chain[i] != chain[j]
  {}

  lemma ChainedNext(table: seq<FatValue>, clusters: seq<seq<Byte>>, size: nat, chain: seq<nat>, data: seq<Byte>, i: nat)
    requires Chained(table, clusters, size, chain, data) && i < |chain|
    ensures RESERVED_FAT_ENTRIES <= chain[i] < |table|
    ensures Next(table, chain[i]) == if i + 1 < |chain| then Some(chain[i + 1]) else None
  {}

  lemma ChainedLast(table: seq<FatValue>, clusters: seq<seq<Byte>>, size: nat, chain: seq<nat>, data: seq<Byte>)
    requires Chained(table, clusters, size, chain, data)
    ensures |clusters| == |table| && |data| == SlotStart(0, size, |chain|)
    ensures Last(chain).Some? ==>
              RESERVED_FAT_ENTRIES <= Last(chain).value < |table| && table[Last(chain).value] != Free
  {
    JoinedSize(clusters, size, chain);
  }

  /** Bytes of cluster `i` are bytes of the file. */
  lemma ChainedRead(table: seq<FatValue>, clusters: seq<seq<Byte>>, size: nat, chain: seq<nat>, data: seq<Byte>,
                    i: nat, off: nat, n: nat)
    requires Chained(table, clusters, size, chain, data) && i < |chain| && off + n <= size
    ensures RESERVED_FAT_ENTRIES <= chain[i] < |clusters| == |table| && |clusters[chain[i]]| == size
    ensures var at := SlotStart(0, size, i);
            at + size <= |data| && clusters[chain[i]][off..off + n] == data[at + off..at + off + n]
  {
    hide SlotStart, Joined;
    JoinedAt(clusters, size, chain, i);
    SliceOfSlice(data, SlotStart(0, size, i), SlotStart(0, size, i) + size, off, off + n);
  }

  lemma ChainedWrite(table: seq<FatValue>, clusters: seq<seq<Byte>>, size: nat, chain: seq<nat>, data: seq<Byte>,
                     i: nat, off: nat, buf: seq<Byte>)
    requires Chained(table, clusters, size, chain, data) && i < |chain| && off + |buf| <= size
    ensures SlotStart(0, size, i) + off + |buf| <= |data| && chain[i] < |clusters| && |clusters[chain[i]]| == size
    ensures var clusters' := clusters[chain[i] := Splice(clusters[chain[i]], off, buf)];
            && Chained(table, clusters', size, chain, Splice(data, SlotStart(0, size, i) + off, buf))
            && Untouched(table, clusters, chain, table, clusters', chain)
  {
    hide SlotStart, Splice, Joined;
    JoinedWrite(clusters, size, chain, i, off, buf);
  }

  lemma ChainedAlloc(table: seq<FatValue>, clusters: seq<seq<Byte>>, size: nat, chain: seq<nat>, data: seq<Byte>,
                     c: nat, clusters': seq<seq<Byte>>)
    requires Chained(table, clusters, size, chain, data)
    requires RESERVED_FAT_ENTRIES <= c < |table| && table[c] == Free
    requires |clusters'| == |table| && |clusters'[c]| == size
    requires forall d :: 0 <= d < |table| && d != c ==> clusters'[d] == clusters[d]
    ensures Last(chain).Some? ==> Last(chain).value < |table|
    ensures var table' := Allocated(table, Last(chain), c);
            && Chained(table', clusters', size, chain + [c], data + clusters'[c])
            && Untouched(table, clusters, chain, table', clusters', chain + [c])
  {
    hide Joined, IsChain, Allocated;
    ChainMembers(table, chain, c);
    JoinedFrame(clusters, clusters', chain);
    JoinedAppend(clusters', chain, c);
    AllocUntouched(table, clusters, chain, c, clusters');
    if chain == [] {
      AllocStartsChain(table, c);
      assert chain + [c] == [c];
    } else {
      AllocExtendsChain(table, chain, c);
    }
  }

  lemma ChainMembers(table: seq<FatValue>, chain: seq<nat>, c: nat)
    requires (chain == [] || IsChain(table, chain)) && c < |table| && table[c] == Free
    ensures c !in chain && forall i :: 0 <= i < |chain| ==> chain[i] < |table| && chain[i] != c
  {}

  lemma AllocUntouched(table: seq<FatValue>, clusters: seq<seq<Byte>>, chain: seq<nat>, c: nat,
                       clusters': seq<seq<Byte>>)
    requires |clusters'| == |table| == |clusters| && c < |table| && table[c] == Free
    requires forall d :: 0 <= d < |table| && d != c ==> clusters'[d] == clusters[d]
    requires Last(chain).Some? ==> Last(chain).value < |table|
    ensures Untouched(table, clusters, chain, Allocated(table, Last(chain), c), clusters', chain + [c])
  {}

  lemma ChainedTruncate(table: seq<FatValue>, clusters: seq<seq<Byte>>, size: nat, chain: seq<nat>, data: seq<Byte>,
                        k: nat)
    requires Chained(table, clusters, size, chain, data) && 0 < k <= |chain|
    ensures SlotStart(0, size, k) <= |data|
    ensures forall i :: 0 <= i < |chain| ==> chain[i] < |table|
    ensures var table' := Freed(table[chain[k - 1] := EndOfChain], chain[k..]);
            && Chained(table', clusters, size, chain[..k], data[..SlotStart(0, size, k)])
            && Untouched(table, clusters, chain, table', clusters, chain[..k])
  {
    hide Joined, SlotStart, Freed, IsChain, Untouched, Sized;
    ChainedBelow(table, clusters, size, chain, data);
    JoinedPrefix(clusters, size, chain, k);
    SizedPrefix(clusters, size, chain, k);
    assert chain[..k - 1 + 1] == chain[..k] && chain[k - 1 + 1..] == chain[k..];
    TruncateKeeps(table, chain, k - 1);
    CutUntouched(table, clusters, chain, k);
  }

  lemma SizedPrefix(clusters: seq<seq<Byte>>, size: nat, cs: seq<nat>, k: nat)
    requires Sized(clusters, size, cs) && k <= |cs|
    ensures Sized(clusters, size, cs[..k])
  {}

  lemma CutUntouched(table: seq<FatValue>, clusters: seq<seq<Byte>>, chain: seq<nat>, k: nat)
    requires |clusters| == |table| && 0 < k <= |chain| && Below(chain, |table|)
    ensures Untouched(table, clusters, chain, Freed(table[chain[k - 1] := EndOfChain], chain[k..]), clusters,
                      chain[..k])
  {
    assert forall c :: c in chain[k..] ==> c in chain;
    assert forall c :: c in chain[..k] ==> c in chain;
  }

  /** What cutting a chain behind its first `k` clusters does to the table and the count. */
  lemma CutIs(table: seq<FatValue>, chain: seq<nat>, k: nat)
    requires IsChain(table, chain) && LinksInRange(table) && 0 < k <= |chain|
    ensures Below(chain, |table|) && LinksInRange(table[chain[k - 1] := EndOfChain])
    ensures Next(table, chain[k - 1]).Some? ==> RESERVED_FAT_ENTRIES <= Next(table, chain[k - 1]).value < |table|
    ensures var table' := Freed(table[chain[k - 1] := EndOfChain], chain[k..]);
            && FreeFrom(table[chain[k - 1] := EndOfChain], Next(table, chain[k - 1])).0 == table'
            && FreeCount(table') == FreeCount(table) + |chain| - k && CutSurplus(table, chain[k - 1]) == 0
  {
    hide FreeFrom, Freed, FreeCount, CutSurplus;
    assert chain[k - 1 + 1..] == chain[k..];
    TruncateFrees(table, chain, k - 1);
    TruncateCount(table, chain, k - 1);
    ChainCutsClean(table, chain, k - 1);
  }

  lemma ChainedFree(table: seq<FatValue>, clusters: seq<seq<Byte>>, size: nat, chain: seq<nat>, data: seq<Byte>)
    requires Chained(table, clusters, size, chain, data) && chain != []
    ensures forall i :: 0 <= i < |chain| ==> chain[i] < |table|
    ensures var table' := Freed(table, chain);
            Chained(table', clusters, size, [], []) && Untouched(table, clusters, chain, table', clusters, [])
  {}

  // ----- growing while writing

  /** What the clusters appended to a chain hold before they are written: zeros, or what they held before. */
  ghost function FreshBytes(clusters: seq<seq<Byte>>, chain: seq<nat>, chain': seq<nat>, zero: bool): seq<Byte>
    requires chain <= chain' && Below(chain', |clusters|)
  {
    var held := Joined(clusters, chain'[|chain|..]);
    if zero then Zeros(|held|) else held
  }

  /** The chain has grown at its end, and `piece` lies at `at` over the bytes it had and the fresh ones; clusters
      outside the chain hold what they held. */
  ghost predicate Extends(clusters: seq<seq<Byte>>, chain: seq<nat>, data: seq<Byte>, clusters': seq<seq<Byte>>,
                          chain': seq<nat>, data': seq<Byte>, zero: bool, at: nat, piece: seq<Byte>) {
    && |clusters'| == |clusters| && chain <= chain' && Below(chain', |clusters|)
    && (forall c: nat :: c < |clusters| && c !in chain' ==> clusters'[c] == clusters[c])
    && var added := FreshBytes(clusters, chain, chain', zero);
       at + |piece| <= |data + added| && data' == Splice(data + added, at, piece)
  }

  lemma ExtendsNothing(clusters: seq<seq<Byte>>, chain: seq<nat>, data: seq<Byte>, zero: bool, at: nat,
                       piece: seq<Byte>)
    requires Below(chain, |clusters|) && at <= |data| && piece == []
    ensures Extends(clusters, chain, data, clusters, chain, data, zero, at, piece)
  {
    assert chain[|chain|..] == [];
    assert data + FreshBytes(clusters, chain, chain, zero) == data;
    SpliceNothing(data, at);
  }

  predicate Below(cs: seq<nat>, n: nat) {
    forall i :: 0 <= i < |cs| ==> cs[i] < n
  }

  lemma BelowConcat(a: seq<nat>, b: seq<nat>, n: nat)
    ensures Below(a + b, n) <==> Below(a, n) && Below(b, n)
  {
    assert forall i :: 0 <= i < |a| ==> a[i] == (a + b)[i];
    assert forall i :: 0 <= i < |b| ==> b[i] == (a + b)[|a| + i];
  }

  lemma {:induction false} JoinedConcat(clusters: seq<seq<Byte>>, a: seq<nat>, b: seq<nat>)
    requires Below(a, |clusters|) && Below(b, |clusters|)
    ensures Below(a + b, |clusters|) && Joined(clusters, a + b) == Joined(clusters, a) + Joined(clusters, b)
    decreases |b|
  {
    BelowConcat(a, b, |clusters|);
    if b == [] {
      assert a + b == a;
    } else {
      var init, last := b[..|b| - 1], b[|b| - 1];
      JoinedConcat(clusters, a, init);
      assert (a + b)[..|a + b| - 1] == a + init;
    }
  }

  /** Fresh bytes of two growth steps, the clusters of the second untouched by the first. */
  lemma FreshTwice(clusters: seq<seq<Byte>>, clusters': seq<seq<Byte>>, a: seq<nat>, b: seq<nat>, c: seq<nat>,
                   zero: bool)
    requires a <= b && b <= c && |clusters'| == |clusters| && Below(c, |clusters|)
    requires forall i, j :: 0 <= i < j < |c| ==> c[i] != c[j]
    requires forall d: nat :: d < |clusters| && d !in b ==> clusters'[d] == clusters[d]
    ensures FreshBytes(clusters, a, c, zero)
            == FreshBytes(clusters, a, b, zero) + FreshBytes(clusters', b, c, zero)
  {
    var first, second := b[|a|..], c[|b|..];
    assert c[|a|..] == first + second;
    JoinedConcat(clusters, first, second);
    forall i | 0 <= i < |second| ensures second[i] < |clusters| && clusters'[second[i]] == clusters[second[i]] {
      assert second[i] == c[|b| + i];
      assert second[i] !in b;
    }
    JoinedFrame(clusters, clusters', second);
  }

  lemma SpliceGrown(data: seq<Byte>, f: seq<Byte>, g: seq<Byte>, at: nat, p: seq<Byte>, q: seq<Byte>)
    requires at + |p| <= |data + f| && at + |p| + |q| <= |data| + |f| + |g|
    ensures Splice(Splice(data + f, at, p) + g, at + |p|, q) == Splice(data + (f + g), at, p + q)
  {
    SpliceLeft(data + f, g, at, p);
    assert data + f + g == data + (f + g);
    SpliceTwice(data + (f + g), at, p, q);
  }

  /** Two writes in a row are one write of both pieces. */
  lemma ExtendsTwice(cs0: seq<seq<Byte>>, ch0: seq<nat>, d0: seq<Byte>, cs1: seq<seq<Byte>>, ch1: seq<nat>,
                     d1: seq<Byte>, cs2: seq<seq<Byte>>, ch2: seq<nat>, d2: seq<Byte>, zero: bool, at: nat,
                     p: seq<Byte>, q: seq<Byte>)
    requires Extends(cs0, ch0, d0, cs1, ch1, d1, zero, at, p)
    requires Extends(cs1, ch1, d1, cs2, ch2, d2, zero, at + |p|, q)
    requires forall i, j :: 0 <= i < j < |ch2| ==> ch2[i] != ch2[j]
    ensures Extends(cs0, ch0, d0, cs2, ch2, d2, zero, at, p + q)
  {
    hide FreshBytes, Splice;
    FreshTwice(cs0, cs1, ch0, ch1, ch2, zero);
    var f, g := FreshBytes(cs0, ch0, ch1, zero), FreshBytes(cs1, ch1, ch2, zero);
    SpliceGrown(d0, f, g, at, p, q);
    forall c: nat | c < |cs0| && c !in ch2 ensures cs2[c] == cs0[c] {
      assert c !in ch1;
    }
  }

  /** Appending a cluster, zeroed or not, extends the chain by what it then holds. */
  lemma GrowExtends(clusters: seq<seq<Byte>>, chain: seq<nat>, data: seq<Byte>, c: nat, clusters': seq<seq<Byte>>,
                    zero: bool, at: nat)
    requires Below(chain, |clusters|) && c < |clusters| && at <= |data|
    requires clusters' == if zero then clusters[c := Zeros(|clusters[c]|)] else clusters
    ensures Extends(clusters, chain, data, clusters', chain + [c], data + clusters'[c], zero, at, [])
  {
    hide Joined, Splice;
    var chain' := chain + [c];
    BelowConcat(chain, [c], |clusters|);
    FreshOne(clusters, chain, c, zero);
    SpliceNothing(data + clusters'[c], at);
  }

  lemma FreshOne(clusters: seq<seq<Byte>>, chain: seq<nat>, c: nat, zero: bool)
    requires Below(chain + [c], |clusters|) && c < |clusters|
    ensures FreshBytes(clusters, chain, chain + [c], zero) == if zero then Zeros(|clusters[c]|) else clusters[c]
  {
    assert (chain + [c])[|chain|..] == [c] && [] + [c] == [c];
    JoinedAppend(clusters, [], c);
    JoinedNothing(clusters);
    hide Joined;
    assert [] + clusters[c] == clusters[c];
  }

  /** Writing inside a cluster of the chain is a write without growth. */
  lemma PutExtends(clusters: seq<seq<Byte>>, chain: seq<nat>, data: seq<Byte>, i: nat, cluster: seq<Byte>,
                   zero: bool, at: nat, piece: seq<Byte>)
    requires Below(chain, |clusters|) && i < |chain| && at + |piece| <= |data|
    ensures Extends(clusters, chain, data, clusters[chain[i] := cluster], chain, Splice(data, at, piece), zero, at,
                    piece)
  {
    assert chain[|chain|..] == [];
    assert data + FreshBytes(clusters, chain, chain, zero) == data;
  }
}
