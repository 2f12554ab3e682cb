/** Cluster chains in a decoded FAT (deps/rust-fatfs/src/table.rs, `alloc_cluster` and
    `ClusterIterator`). */
module FatTables {
  import opened Wrappers
  import opened FatTypes
  import opened FatEntries

  /** An acyclic chain: distinct clusters, each linked to the next, the last one neither linked nor free. */
  ghost predicate IsChain(table: seq<FatValue>, cs: seq<nat>) {
    && |cs| > 0
    && (forall i :: 0 <= i < |cs| ==> RESERVED_FAT_ENTRIES <= cs[i] < |table| && table[cs[i]] != Free)
    && (forall i, j :: 0 <= i < j < |cs| ==> cs[i] != cs[j])
    && (forall i :: 0 <= i < |cs| - 1 ==> table[cs[i]] == Data(cs[i + 1]))
    && !table[cs[|cs| - 1]].Data?
  }

  /** Every link of a data cluster leads to another; the two reserved entries are never followed. */
  predicate LinksInRange(table: seq<FatValue>) {
    forall c :: RESERVED_FAT_ENTRIES <= c < |table| && table[c].Data? ==>
      RESERVED_FAT_ENTRIES <= table[c].next < |table|
  }

  function Next(table: seq<FatValue>, c: nat): Option<nat>
    requires c < |table|
  {
    if table[c].Data? then Some(table[c].next) else None
  }

  /** The iterator walks the chain. */
  lemma NextInChain(table: seq<FatValue>, cs: seq<nat>, i: nat)
    requires IsChain(table, cs) && i < |cs|
    ensures Next(table, cs[i]) == if i + 1 < |cs| then Some(cs[i + 1]) else None
  {}

  /** A chain survives every change that does not touch its members. */
  lemma ChainFrame(table: seq<FatValue>, table': seq<FatValue>, cs: seq<nat>)
    requires IsChain(table, cs) && |table'| == |table|
    requires forall i :: 0 <= i < |cs| ==> table'[cs[i]] == table[cs[i]]
    ensures IsChain(table', cs)
  {}

  /** Two chains with the same head are the same chain. */
  lemma {:induction false} ChainUnique(table: seq<FatValue>, cs: seq<nat>, ds: seq<nat>)
    requires IsChain(table, cs) && IsChain(table, ds) && |cs| > 0 && |ds| > 0 && cs[0] == ds[0]
    ensures cs == ds
  {
    hide IsChain;
    NextInChain(table, cs, 0);
    NextInChain(table, ds, 0);
    if |cs| > 1 {
      ChainSuffix(table, cs, 1);
      ChainSuffix(table, ds, 1);
      ChainUnique(table, cs[1..], ds[1..]);
    }
    assert cs == [cs[0]] + cs[1..] && ds == [ds[0]] + ds[1..];
  }

  lemma ChainSuffix(table: seq<FatValue>, cs: seq<nat>, k: nat)
    requires IsChain(table, cs) && k < |cs|
    ensures IsChain(table, cs[k..])
  {
    var tail := cs[k..];
    forall i | 0 <= i < |tail| - 1 ensures table[tail[i]] == Data(tail[i + 1]) {
      assert tail[i] == cs[k + i] && tail[i + 1] == cs[k + i + 1];
    }
  }

  /** Ending a chain at element `i` leaves the chain of the elements up to it. */
  lemma ChainPrefix(table: seq<FatValue>, cs: seq<nat>, i: nat)
    requires IsChain(table, cs) && i < |cs|
    ensures IsChain(table[cs[i] := EndOfChain], cs[..i + 1])
  {
    var cut, kept := table[cs[i] := EndOfChain], cs[..i + 1];
    forall k | 0 <= k < |kept| - 1 ensures cut[kept[k]] == Data(kept[k + 1]) {
      assert kept[k] == cs[k] && kept[k + 1] == cs[k + 1];
    }
  }

  // ----- allocation

  /** The table after `c` is taken and linked behind `prev`. */
  function Allocated(table: seq<FatValue>, prev: Option<nat>, c: nat): (r: seq<FatValue>)
    requires c < |table| && (prev.Some? ==> prev.value < |table|)
    ensures |r| == |table|
  {
    var taken := table[c := EndOfChain];
    if prev.Some? then taken[prev.value := Data(c)] else taken
  }

  /** Allocation with no predecessor starts a chain of one. */
  lemma AllocStartsChain(table: seq<FatValue>, c: nat)
    requires RESERVED_FAT_ENTRIES <= c < |table|
    ensures IsChain(Allocated(table, None, c), [c])
  {}

  /** Allocation behind a chain's last cluster appends to that chain. */
  lemma AllocExtendsChain(table: seq<FatValue>, cs: seq<nat>, c: nat)
    requires IsChain(table, cs) && RESERVED_FAT_ENTRIES <= c < |table| && table[c] == Free
    ensures IsChain(Allocated(table, Some(cs[|cs| - 1]), c), cs + [c])
  {
    var cs', table' := cs + [c], Allocated(table, Some(cs[|cs| - 1]), c);
    forall i | 0 <= i < |cs'| - 1 ensures table'[cs'[i]] == Data(cs'[i + 1]) {
      if i < |cs| - 1 {
        assert cs'[i] == cs[i] && cs[i] != cs[|cs| - 1];
      }
    }
  }

  // ----- freeing

  function NonFree(table: seq<FatValue>): nat {
    if |table| == 0 then 0
    else NonFree(table[..|table| - 1]) + if table[|table| - 1] == Free then 0 else 1
  }

  lemma {:induction false} NonFreeUpdate(table: seq<FatValue>, c: nat, v: FatValue)
    requires c < |table|
    ensures NonFree(table[c := v])
            == NonFree(table) - (if table[c] == Free then 0 else 1) + (if v == Free then 0 else 1)
  {
    var n := |table| - 1;
    if c == n {
      assert table[c := v][..n] == table[..n];
    } else {
      assert table[c := v][..n] == table[..n][c := v];
      NonFreeUpdate(table[..n], c, v);
    }
  }

  /** What `free` does from a cursor: step, free the cluster left behind, count it. The measure is the
      number of non-free entries plus the pending cursor, so it ends even on cyclic links. */
  function FreeFrom(table: seq<FatValue>, cursor: Option<nat>): (r: (seq<FatValue>, nat))
    requires LinksInRange(table) && (cursor.Some? ==> RESERVED_FAT_ENTRIES <= cursor.value < |table|)
    ensures |r.0| == |table| && LinksInRange(r.0)
    ensures forall i :: 0 <= i < |table| && i < RESERVED_FAT_ENTRIES ==> r.0[i] == table[i]
    decreases NonFree(table) + if cursor.Some? then 1 else 0
  {
    if cursor.None? then (table, 0)
    else
      var c := cursor.value;
      NonFreeUpdate(table, c, Free);
      var rest := FreeFrom(table[c := Free], Next(table, c));
      (rest.0, rest.1 + 1)
  }

  /** `table` with all of `cs` free. */
  function Freed(table: seq<FatValue>, cs: seq<nat>): (r: seq<FatValue>)
    requires forall i :: 0 <= i < |cs| ==> cs[i] < |table|
    ensures |r| == |table|
    ensures forall c :: 0 <= c < |table| ==> r[c] == if c in cs then Free else table[c]
    decreases |cs|
  {
    if cs == [] then table else Freed(table[cs[0] := Free], cs[1..])
  }

  /** On an acyclic chain, `free` frees exactly the members and returns their number. */
  lemma {:induction false} FreeChainExact(table: seq<FatValue>, cs: seq<nat>)
    requires IsChain(table, cs) && LinksInRange(table)
    ensures FreeFrom(table, Some(cs[0])) == (Freed(table, cs), |cs|)
    decreases |cs|
  {
    NextInChain(table, cs, 0);
    var table' := table[cs[0] := Free];
    if |cs| > 1 {
      ChainSuffix(table, cs, 1);
      ChainFrame(table, table', cs[1..]);
      FreeChainExact(table', cs[1..]);
    } else {
      assert cs[1..] == [];
      assert FreeFrom(table', None) == (table', 0);
    }
  }

  lemma {:induction false} FreedCount(table: seq<FatValue>, cs: seq<nat>)
    requires forall i :: 0 <= i < |cs| ==> cs[i] < |table| && table[cs[i]] != Free
    requires forall i, j :: 0 <= i < j < |cs| ==> cs[i] != cs[j]
    ensures NonFree(Freed(table, cs)) == NonFree(table) - |cs|
    decreases |cs|
  {
    if cs != [] {
      NonFreeUpdate(table, cs[0], Free);
      FreedCount(table[cs[0] := Free], cs[1..]);
    }
  }

  ghost predicate HasChain(table: seq<FatValue>, c: nat) {
    exists cs :: IsChain(table, cs) && cs[0] == c
  }

  /** The returned number is the number of clusters actually freed if the start is the head of an acyclic
      chain; a cycle or a link to a free cluster makes it one too many. */
  lemma {:induction false} FreeCountExactIff(table: seq<FatValue>, c: nat)
    requires LinksInRange(table) && RESERVED_FAT_ENTRIES <= c < |table|
    ensures FreeFrom(table, Some(c)).1
            == NonFree(table) - NonFree(FreeFrom(table, Some(c)).0) + if HasChain(table, c) then 0 else 1
    decreases NonFree(table)
  {
    var table' := table[c := Free];
    NonFreeUpdate(table, c, Free);
    if table[c] == Free {
      assert table' == table && FreeFrom(table', None) == (table', 0);
      assert !HasChain(table, c);
    } else if !table[c].Data? {
      assert FreeFrom(table', None) == (table', 0);
      assert IsChain(table, [c]) && [c][0] == c;
    } else {
      FreeCountExactIff(table', table[c].next);
      ChainFromNext(table, c);
    }
  }

  /** Two clusters that link to each other are counted as three. */
  lemma CycleIsMiscounted()
    ensures var table := [EndOfChain, EndOfChain, Data(3), Data(2)];
            LinksInRange(table) && FreeFrom(table, Some(2)) == ([EndOfChain, EndOfChain, Free, Free], 3)
  {
    var t0 := [EndOfChain, EndOfChain, Data(3), Data(2)];
    var t1 := [EndOfChain, EndOfChain, Free, Data(2)];
    var t2 := [EndOfChain, EndOfChain, Free, Free];
    assert t0[2 := Free] == t1 && t1[3 := Free] == t2 && t2[2 := Free] == t2;
    assert FreeFrom(t2, None) == (t2, 0);
    assert FreeFrom(t2, Some(2)) == (t2, 1);
    assert FreeFrom(t1, Some(3)) == (t2, 2);
  }

  lemma ChainFromNext(table: seq<FatValue>, c: nat)
    requires RESERVED_FAT_ENTRIES <= c < |table| && table[c].Data?
    ensures HasChain(table, c) <==> HasChain(table[c := Free], table[c].next)
  {
    var table' := table[c := Free];
    if HasChain(table, c) {
      var cs :| IsChain(table, cs) && cs[0] == c;
      ChainWithoutHead(table, cs);
    }
    if HasChain(table', table[c].next) {
      var ds :| IsChain(table', ds) && ds[0] == table[c].next;
      ChainWithHead(table, c, ds);
    }
  }

  lemma ChainWithoutHead(table: seq<FatValue>, cs: seq<nat>)
    requires IsChain(table, cs) && table[cs[0]].Data?
    ensures HasChain(table[cs[0] := Free], table[cs[0]].next)
  {
    hide HasChain;
    NextInChain(table, cs, 0);
    ChainSuffix(table, cs, 1);
    var rest := cs[1..];
    assert forall i :: 0 <= i < |rest| ==> rest[i] == cs[i + 1] != cs[0];
    hide IsChain;
    ChainFrame(table, table[cs[0] := Free], rest);
    ChainIsHad(table[cs[0] := Free], rest);
  }

  lemma ChainWithHead(table: seq<FatValue>, c: nat, ds: seq<nat>)
    requires RESERVED_FAT_ENTRIES <= c < |table| && table[c].Data?
    requires IsChain(table[c := Free], ds) && ds[0] == table[c].next
    ensures HasChain(table, c)
  {
    hide HasChain;
    assert c !in ds;
    ChainFrame(table[c := Free], table, ds);
    ChainCons(table, c, ds);
    hide IsChain;
    ChainIsHad(table, [c] + ds);
  }

  lemma ChainCons(table: seq<FatValue>, c: nat, ds: seq<nat>)
    requires IsChain(table, ds) && RESERVED_FAT_ENTRIES <= c < |table| && c !in ds && table[c] == Data(ds[0])
    ensures IsChain(table, [c] + ds)
  {
    var cs := [c] + ds;
    forall i | 0 <= i < |cs| - 1 ensures table[cs[i]] == Data(cs[i + 1]) {
      if i > 0 {
        assert cs[i] == ds[i - 1] && cs[i + 1] == ds[i];
      }
    }
  }

  // ----- truncation

  /** Truncating at element `i` frees exactly the elements after it, and counts them. */
  lemma TruncateFrees(table: seq<FatValue>, cs: seq<nat>, i: nat)
    requires IsChain(table, cs) && LinksInRange(table) && i < |cs|
    ensures var cut := table[cs[i] := EndOfChain];
            LinksInRange(cut) && FreeFrom(cut, Next(table, cs[i])) == (Freed(cut, cs[i + 1..]), |cs| - i - 1)
  {
    hide Freed, FreeFrom;
    var cut := table[cs[i] := EndOfChain];
    var kept, gone := cs[..i + 1], cs[i + 1..];
    PrefixApart(table, cs, i, kept, gone);
    assert LinksInRange(cut);
    NextInChain(table, cs, i);
    hide IsChain, LinksInRange;
    if i + 1 < |cs| {
      ChainSuffix(table, cs, i + 1);
      ChainFrame(table, cut, gone);
      FreeChainExact(cut, gone);
    } else {
      assert gone == [];
      FreedNothing(cut);
    }
  }

  lemma FreedNothing(table: seq<FatValue>)
    requires LinksInRange(table)
    ensures Freed(table, []) == table && FreeFrom(table, None) == (table, 0)
  {}

  /** ... and keeps the elements up to it as a chain. */
  lemma TruncateKeeps(table: seq<FatValue>, cs: seq<nat>, i: nat)
    requires IsChain(table, cs) && i < |cs|
    ensures IsChain(Freed(table[cs[i] := EndOfChain], cs[i + 1..]), cs[..i + 1])
  {
    PrefixApart(table, cs, i, cs[..i + 1], cs[i + 1..]);
    ChainPrefix(table, cs, i);
    hide IsChain;
    FreedKeepsOthers(table[cs[i] := EndOfChain], cs[i + 1..], cs[..i + 1]);
  }

  lemma PrefixApart(table: seq<FatValue>, cs: seq<nat>, i: nat, kept: seq<nat>, gone: seq<nat>)
    requires IsChain(table, cs) && i < |cs| && kept == cs[..i + 1] && gone == cs[i + 1..]
    ensures forall c :: c in gone ==> c !in kept
    ensures forall k :: 0 <= k < |gone| ==> gone[k] < |table| && gone[k] != cs[i]
  {
    assert forall k :: 0 <= k < |gone| ==> gone[k] == cs[i + 1 + k];
  }

  /** Freeing members of one chain keeps every chain disjoint from it. */
  lemma FreedKeepsOthers(table: seq<FatValue>, cs: seq<nat>, ds: seq<nat>)
    requires (forall i :: 0 <= i < |cs| ==> cs[i] < |table|) && IsChain(table, ds)
    requires forall c :: c in cs ==> c !in ds
    ensures IsChain(Freed(table, cs), ds)
  {
    assert forall i :: 0 <= i < |ds| ==> ds[i] in ds;
    ChainFrame(table, Freed(table, cs), ds);
  }

  // ----- counting

  /** Free data clusters: what a full scan of the FAT counts. */
  function FreeCount(table: seq<FatValue>): nat {
    if |table| <= RESERVED_FAT_ENTRIES then 0
    else FreeCount(table[..|table| - 1]) + if table[|table| - 1] == Free then 1 else 0
  }

  function ReservedNonFree(table: seq<FatValue>): nat
    requires |table| >= RESERVED_FAT_ENTRIES
  {
    (if table[0] == Free then 0 else 1) + (if table[1] == Free then 0 else 1)
  }

  lemma {:induction false} FreeCountComplement(table: seq<FatValue>)
    requires |table| >= RESERVED_FAT_ENTRIES
    ensures FreeCount(table) + NonFree(table) == |table| - RESERVED_FAT_ENTRIES + ReservedNonFree(table)
    decreases |table|
  {
    var shorter := table[..|table| - 1];
    if |table| == 2 {
      assert NonFree(table) == ReservedNonFree(table) by {
        assert NonFree(shorter[..0]) == 0;
        assert NonFree(shorter) == if table[0] == Free then 0 else 1;
      }
    } else {
      FreeCountComplement(shorter);
    }
  }

  /** Changes to data clusters move the free count against the non-free count. */
  lemma FreeCountMoves(table: seq<FatValue>, table': seq<FatValue>)
    requires |table| == |table'| >= RESERVED_FAT_ENTRIES && table[0] == table'[0] && table[1] == table'[1]
    ensures FreeCount(table') + NonFree(table') == FreeCount(table) + NonFree(table)
  {
    FreeCountComplement(table);
    FreeCountComplement(table');
  }

  lemma FreeCountUpdate(table: seq<FatValue>, c: nat, v: FatValue)
    requires RESERVED_FAT_ENTRIES <= c < |table|
    ensures FreeCount(table[c := v])
            == FreeCount(table) + (if v == Free then 1 else 0) - (if table[c] == Free then 1 else 0)
  {
    NonFreeUpdate(table, c, v);
    FreeCountMoves(table, table[c := v]);
  }

  /** A free cluster exists exactly when the count is positive. */
  lemma {:induction false} FreeCountPositive(table: seq<FatValue>)
    ensures FreeCount(table) > 0 <==> exists c :: RESERVED_FAT_ENTRIES <= c < |table| && table[c] == Free
    decreases |table|
  {
    if |table| > RESERVED_FAT_ENTRIES {
      var n := |table| - 1;
      FreeCountPositive(table[..n]);
      if exists c :: RESERVED_FAT_ENTRIES <= c < |table| && table[c] == Free {
        var c :| RESERVED_FAT_ENTRIES <= c < |table| && table[c] == Free;
        assert c < n ==> table[..n][c] == Free;
      }
      if FreeCount(table[..n]) > 0 {
        var c :| RESERVED_FAT_ENTRIES <= c < n && table[..n][c] == Free;
        assert table[c] == Free;
      }
    }
  }

  /** Allocation takes one, whatever the predecessor. */
  lemma AllocatedCount(table: seq<FatValue>, prev: Option<nat>, c: nat)
    requires RESERVED_FAT_ENTRIES <= c < |table| && table[c] == Free
    requires prev.Some? ==> RESERVED_FAT_ENTRIES <= prev.value < |table| && table[prev.value] != Free
    ensures FreeCount(Allocated(table, prev, c)) == FreeCount(table) - 1
  {
    FreeCountUpdate(table, c, EndOfChain);
    if prev.Some? {
      FreeCountUpdate(table[c := EndOfChain], prev.value, Data(c));
    }
  }

  /** Freeing chain members gives back as many. */
  lemma FreedFreeCount(table: seq<FatValue>, cs: seq<nat>)
    requires forall i :: 0 <= i < |cs| ==> RESERVED_FAT_ENTRIES <= cs[i] < |table| && table[cs[i]] != Free
    requires forall i, j :: 0 <= i < j < |cs| ==> cs[i] != cs[j]
    ensures FreeCount(Freed(table, cs)) == FreeCount(table) + |cs|
  {
    FreedCount(table, cs);
    if |table| >= RESERVED_FAT_ENTRIES {
      FreeCountMoves(table, Freed(table, cs));
    }
  }

  lemma TruncateCount(table: seq<FatValue>, cs: seq<nat>, i: nat)
    requires IsChain(table, cs) && i < |cs|
    ensures FreeCount(Freed(table[cs[i] := EndOfChain], cs[i + 1..])) == FreeCount(table) + |cs| - i - 1
  {
    var gone := cs[i + 1..];
    PrefixApart(table, cs, i, cs[..i + 1], gone);
    FreeCountUpdate(table, cs[i], EndOfChain);
    assert forall k :: 0 <= k < |gone| ==> gone[k] == cs[i + 1 + k];
    FreedFreeCount(table[cs[i] := EndOfChain], gone);
  }

  /** The count after freeing what hangs on `c` is short by the surplus of the returned number. */
  lemma FreeingMoves(table: seq<FatValue>, c: nat)
    requires LinksInRange(table) && RESERVED_FAT_ENTRIES <= c < |table|
    ensures FreeCount(table) + FreeFrom(table, Some(c)).1
            == FreeCount(FreeFrom(table, Some(c)).0) + if HasChain(table, c) then 0 else 1
  {
    FreeCountExactIff(table, c);
    FreeCountMoves(table, FreeFrom(table, Some(c)).0);
  }

  lemma ChainIsHad(table: seq<FatValue>, cs: seq<nat>)
    requires IsChain(table, cs)
    ensures HasChain(table, cs[0])
  {}

  /** How far cutting at `c` and freeing the rest puts a cached count off. */
  ghost function CutSurplus(table: seq<FatValue>, c: nat): nat
    requires c < |table|
  {
    var next := Next(table, c);
    (if next.None? || HasChain(table[c := EndOfChain], next.value) then 0 else 1) + (if table[c] == Free then 1 else 0)
  }

  lemma CuttingMoves(table: seq<FatValue>, c: nat)
    requires LinksInRange(table) && RESERVED_FAT_ENTRIES <= c < |table|
    ensures var cut := table[c := EndOfChain];
            && LinksInRange(cut)
            && FreeCount(table) + FreeFrom(cut, Next(table, c)).1
               == FreeCount(FreeFrom(cut, Next(table, c)).0) + CutSurplus(table, c)
  {
    var cut := table[c := EndOfChain];
    FreeCountUpdate(table, c, EndOfChain);
    if Next(table, c).Some? {
      FreeingMoves(cut, table[c].next);
    } else {
      assert FreeFrom(cut, None) == (cut, 0);
    }
  }

  /** Cutting an acyclic chain leaves no surplus. */
  lemma ChainCutsClean(table: seq<FatValue>, cs: seq<nat>, i: nat)
    requires IsChain(table, cs) && i < |cs|
    ensures CutSurplus(table, cs[i]) == 0
  {
    hide HasChain;
    NextInChain(table, cs, i);
    if i + 1 < |cs| {
      PrefixApart(table, cs, i, cs[..i + 1], cs[i + 1..]);
      ChainSuffix(table, cs, i + 1);
      ChainFrame(table, table[cs[i] := EndOfChain], cs[i + 1..]);
      ChainIsHad(table[cs[i] := EndOfChain], cs[i + 1..]);
    }
  }
}
