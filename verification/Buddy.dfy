/** The buddy page-frame allocator (kernel/src/mm/buddy.rs).

    Blocks are stored as page offsets from the start of the region; `BuddyAllocator` translates
    to and from byte addresses. */
module Buddies {
  import opened Wrappers
  import opened Bits
  import opened BuddyRegion
  import opened Bitmaps

  const PAGE_SIZE := 4096

  /** Pages in a block (kernel/src/utils.rs). */
  function Order2Pages(order: nat): (r: nat)
    ensures r > 0 <==> order < MAX_ORDER
  {
    if order < MAX_ORDER then Pow2(order) else 0
  }

  /** The smallest order whose blocks hold `pages` pages, or `MAX_ORDER` when none does. */
  method Pages2Order(pages: nat) returns (order: nat)
    ensures order <= MAX_ORDER
    ensures order < MAX_ORDER ==> Order2Pages(order) >= pages
    ensures forall i :: 0 <= i < order ==> Order2Pages(i) < pages
  {
    for i := 0 to MAX_ORDER
      invariant forall j :: 0 <= j < i ==> Order2Pages(j) < pages
    {
      if Order2Pages(i) >= pages {
        return i;
      }
    }
    return MAX_ORDER;
  }

  ghost predicate NoDuplicates(s: seq<nat>) {
    forall i, j :: 0 <= i < j < |s| ==> s[i] != s[j]
  }

  /** The parity bit of pair `i`: exactly one of its two blocks is in `s`. */
  ghost predicate PairBit(s: set<nat>, k: nat, i: nat) {
    (2 * i * Pow2(k) in s) != ((2 * i + 1) * Pow2(k) in s)
  }

  lemma DivExact(b: nat, s: nat, q: nat)
    requires s > 0
    ensures b == q * s <==> b % s == 0 && b / s == q
  {
    DivMod(b, s);
    if b == q * s {
      ModUnique(b, s, q, 0);
    }
  }

  /** The two blocks of a pair are a block and its buddy. */
  lemma PairMembers(b: nat, k: nat, i: nat)
    requires Aligned(b, k)
    ensures i == b / Pow2(k) / 2 ==> {2 * i * Pow2(k), (2 * i + 1) * Pow2(k)} == {b, Buddy(b, k)}
    ensures i != b / Pow2(k) / 2 ==> b !in {2 * i * Pow2(k), (2 * i + 1) * Pow2(k)}
  {
    var s := Pow2(k);
    DivExact(b, s, 2 * i);
    DivExact(b, s, 2 * i + 1);
    assert (2 * i + 1) * s == 2 * i * s + s;
  }

  /** Adding or removing one block flips the bit of its pair and no other. */
  lemma PairBitFlips(s: set<nat>, b: nat, k: nat, i: nat)
    requires Aligned(b, k) && b !in s
    ensures PairBit(s + {b}, k, i) == if i == b / Pow2(k) / 2 then !PairBit(s, k, i) else PairBit(s, k, i)
    ensures i == b / Pow2(k) / 2 ==> (PairBit(s, k, i) <==> Buddy(b, k) in s)
  {
    PairMembers(b, k, i);
    BuddyInvolutive(b, k);
    var x, y := 2 * i * Pow2(k), (2 * i + 1) * Pow2(k);
    assert x != y;
    if i == b / Pow2(k) / 2 {
      assert x in {b, Buddy(b, k)} && y in {b, Buddy(b, k)};
      assert b in {x, y};
    } else {
      assert x != b && y != b;
    }
  }

  lemma SamePair(b: nat, k: nat)
    requires Aligned(b, k)
    ensures Aligned(Buddy(b, k), k) && Buddy(b, k) / Pow2(k) / 2 == b / Pow2(k) / 2
  {
    BuddyInvolutive(b, k);
    HalfOfParent(b, k);
    Halves(Base(b, k + 1), k);
  }

  ghost function ItemsOf(list: seq<nat>): set<nat> {
    set b | b in list
  }

  lemma RemovedItem(list: seq<nat>, at: nat)
    requires NoDuplicates(list) && at < |list|
    ensures var rest := list[..at] + list[at + 1..];
            NoDuplicates(rest) && list[at] !in rest && ItemsOf(rest) == ItemsOf(list) - {list[at]}
  {
    var rest := list[..at] + list[at + 1..];
    assert list == list[..at] + [list[at]] + list[at + 1..];
  }

  function FloorPage(vaddr: nat): (r: nat)
    ensures r % PAGE_SIZE == 0 && r <= vaddr < r + PAGE_SIZE
  {
    vaddr / PAGE_SIZE * PAGE_SIZE
  }

  function CeilPage(vaddr: nat): (r: nat)
    ensures r % PAGE_SIZE == 0 && vaddr <= r < vaddr + PAGE_SIZE
  {
    if vaddr % PAGE_SIZE == 0 then FloorPage(vaddr) else FloorPage(vaddr) + PAGE_SIZE
  }

  lemma NextBlock(b: nat, k: nat, n: nat)
    requires Aligned(b, k) && b + Pow2(k) <= n
    ensures Aligned(b + Pow2(k), k) && b + Pow2(k) <= Base(n, k)
  {
    NextMultiple(b, Pow2(k), n);
  }

  lemma NextMultiple(b: nat, s: nat, n: nat)
    requires s > 0 && b % s == 0 && b + s <= n
    ensures (b + s) % s == 0 && b + s <= n - n % s
  {
    DivMod(b, s);
    assert s * (b / s) + s == s * (b / s + 1);
    ModUnique(b + s, s, b / s + 1, 0);
    if n < b + s + s {
      ModSpan(n, b + s, s);
    }
  }

  /** Greedy listing of one order runs from the coarser base to the finer one, at most one block below
      the top order. */
  lemma OrderSpan(n: nat, k: nat, probe: nat)
    requires k < MAX_ORDER && probe == if k == TOP then 0 else Base(n, k + 1)
    ensures Aligned(probe, k) && probe <= Base(n, k) <= n < Base(n, k) + Pow2(k)
    ensures k < TOP ==> n < probe + 2 * Pow2(k)
  {
    BaseSpan(n, k);
    if k < TOP {
      BaseSpan(n, k + 1);
      Halves(probe, k);
      BaseNests(n, k, k + 1);
    }
  }

  /** The interval `[lo, n)` of pages loses the block at its lower end. */
  lemma FrontBlock(live: set<nat>, lo: nat, n: nat, k: nat)
    requires (forall p: nat :: p in live <==> lo <= p < n) && lo + Pow2(k) <= n
    ensures Run(lo, k) <= live
    ensures forall p: nat :: p in live - Run(lo, k) <==> lo + Pow2(k) <= p < n
  {}

  ghost function AllPages(n: nat): (r: set<nat>)
    ensures forall p: nat :: p in r <==> p < n
  {
    if n == 0 then {} else AllPages(n - 1) + {n - 1}
  }

  class FreeArea {
    const order: nat
    const bitmap: Bitmap
    var list: seq<nat>
    var freeCnt: nat

    ghost function Items(): set<nat>
      reads this
    {
      ItemsOf(list)
    }

    ghost predicate Valid()
      reads this, bitmap
    {
      && order < MAX_ORDER
      && freeCnt == |list|
      && NoDuplicates(list)
      && (forall b :: b in list ==> Aligned(b, order))
      && (order < TOP ==> forall b :: b in list ==> Aligned(b, order) && Buddy(b, order) !in list)
      && (forall i: nat :: bitmap.Has(i) <==> PairBit(Items(), order, i))
    }

    constructor (k: nat, bitmapLen: nat)
      requires k < MAX_ORDER
      ensures Valid() && order == k && list == [] && fresh(bitmap) && bitmap.len == bitmapLen
      ensures bitmapLen > 0 ==> bitmap.Valid()
    {
      order := k;
      bitmap := new Bitmap(bitmapLen);
      list := [];
      freeCnt := 0;
    }

    /** Pair index of a page offset; none for a page below the region or off the block grid. */
    function GetBitmapIndex(pg: int): (r: Option<nat>)
      ensures r.Some? <==> pg >= 0 && Aligned(pg, order)
      ensures r.Some? ==> {2 * r.value * Pow2(order), (2 * r.value + 1) * Pow2(order)} == {pg as nat, Buddy(pg, order)}
    {
      if pg < 0 || pg % Pow2(order) != 0 then None
      else
        PairMembers(pg, order, pg / Pow2(order) / 2);
        Some(pg / Pow2(order) / 2)
    }

    method AllocArea() returns (r: Option<nat>)
      requires Valid()
      requires list != [] ==> bitmap.Valid()
      modifies this, bitmap
      ensures Valid()
      ensures r.None? <==> old(list) == []
      ensures r.None? ==> unchanged(this) && unchanged(bitmap)
      ensures r.Some? ==> bitmap.Valid() && old(list) == list + [r.value]
      ensures r.Some? ==> r.value !in list && Items() == old(Items()) - {r.value}
    {
      if freeCnt == 0 {
        return None;
      }
      freeCnt := freeCnt - 1;
      var item := list[|list| - 1];
      list := list[..|list| - 1];
      assert old(list) == list + [item];
      var index := GetBitmapIndex(item);
      bitmap.TurnOver(index.value);
      assert old(Items()) == Items() + {item};
      forall i: nat ensures bitmap.Has(i) <==> PairBit(Items(), order, i) {
        PairBitFlips(Items(), item, order, i);
      }
      return Some(item);
    }

    /** Position of `target` in the list, or the list's length. */
    method Position(target: nat) returns (at: nat)
      ensures at <= |list|
      ensures at < |list| ==> list[at] == target
      ensures at == |list| ==> target !in list
    {
      at := 0;
      while at < |list|
        invariant at <= |list| && target !in list[..at]
      {
        if list[at] == target {
          return;
        }
        at := at + 1;
      }
    }

    /** Lists the block, unless its buddy is listed below the top order: then the buddy is
        unlisted and the merged block of the next order is handed back. */
    method InsertArea(item: nat) returns (r: Option<nat>)
      requires Valid() && bitmap.Valid()
      requires Aligned(item, order) && item !in list
      modifies this, bitmap
      ensures Valid() && bitmap.Valid()
      ensures r.Some? <==> order < TOP && Buddy(item, order) in old(list)
      ensures r.None? ==> list == old(list) + [item] && Items() == old(Items()) + {item}
      ensures r.Some? ==> r.value == Base(item, order + 1) && Items() == old(Items()) - {Buddy(item, order)}
    {
      hide Buddy, Base, PairBit, Bitmaps.IsCapFor;
      freeCnt := freeCnt + 1;
      var index := GetBitmapIndex(item).value;
      var isSet := bitmap.Get(index);
      PairBitFlips(Items(), item, order, index);
      if isSet && order != MAX_ORDER - 1 {
        var buddy := Buddy(item, order);
        var at := Position(buddy);
        RemovedItem(list, at);
        list := list[..at] + list[at + 1..];
        freeCnt := freeCnt - 2;
        bitmap.Clear(index);
        SamePair(item, order);
        forall i: nat ensures bitmap.Has(i) <==> PairBit(Items(), order, i) {
          assert old(Items()) == Items() + {buddy};
          PairBitFlips(Items(), buddy, order, i);
        }
        HalfOfParent(item, order);
        r := Some(if buddy < item then buddy else item);
      } else {
        list := list + [item];
        bitmap.TurnOver(index);
        BuddyInvolutive(item, order);
        forall i: nat ensures bitmap.Has(i) <==> PairBit(Items(), order, i) {
          assert Items() == old(Items()) + {item};
          PairBitFlips(old(Items()), item, order, i);
        }
        forall b | order < TOP && b in list ensures Buddy(b, order) !in list {
          BuddyInvolutive(b, order);
        }
        r := None;
      }
    }
  }

  /** A new area of an order, whose bitmap has a bit if there is a page. */
  ghost predicate IsNewArea(area: FreeArea, k: nat, pgCnt: nat, parts: set<object>)
    reads area, area.bitmap
  {
    && area in parts && area.bitmap in parts && area.order == k && area.Valid() && area.list == []
    && (pgCnt > 0 ==> area.bitmap.Valid())
  }

  lemma RoundedUp(n: nat, d: nat)
    requires d > 0
    ensures var q := n / d + if n % d != 0 then 1 else 0; (q - 1) * d < n <= q * d
  {
    assert n == d * (n / d) + n % d;
    Distribute(n / d, 1, d);
    Distribute(n / d, -1, d);
  }

  method MakeArea(k: nat, pgCnt: nat) returns (area: FreeArea)
    requires k < MAX_ORDER
    ensures fresh(area) && fresh(area.bitmap) && IsNewArea(area, k, pgCnt, {area, area.bitmap})
    ensures (area.bitmap.len - 1) * Pow2(k) < pgCnt <= area.bitmap.len * Pow2(k)
  {
    hide FreeArea.Valid, Bitmap.Valid;
    var pgs := Pow2(k);
    var bitmapLen := pgCnt / pgs + if pgCnt % pgs != 0 then 1 else 0;
    DivMod(pgCnt, pgs);
    RoundedUp(pgCnt, pgs);
    area := new FreeArea(k, bitmapLen);
  }

  method MakeAreas(pgCnt: nat) returns (made: seq<FreeArea>, ghost parts: set<object>)
    ensures |made| == MAX_ORDER && fresh(parts)
    ensures forall i :: 0 <= i < MAX_ORDER ==> made[i] in parts && made[i].bitmap in parts
    ensures forall i :: 0 <= i < MAX_ORDER ==> made[i].order == i && made[i].Valid() && made[i].Items() == {}
    ensures forall i :: 0 <= i < MAX_ORDER ==> (pgCnt > 0 ==> made[i].bitmap.Valid())
    ensures forall i, j :: 0 <= i < j < MAX_ORDER ==> made[i] != made[j] && made[i].bitmap != made[j].bitmap
  {
    hide FreeArea.Valid, Bitmap.Valid;
    made, parts := [], {};
    for k := 0 to MAX_ORDER
      invariant |made| == k && fresh(parts)
      invariant forall i :: 0 <= i < k ==> IsNewArea(made[i], i, pgCnt, parts)
      invariant forall i, j :: 0 <= i < j < k ==> made[i] != made[j] && made[i].bitmap != made[j].bitmap
    {
      var area := MakeArea(k, pgCnt);
      made, parts := made + [area], parts + {area, area.bitmap};
    }
  }

  /** A request fails exactly when every list from its order up is empty. */
  lemma NothingToSplit(n: nat, free: seq<set<nat>>, live: set<nat>, order: nat)
    requires Inv(n, free, live) && order < MAX_ORDER
    ensures (forall j :: order <= j < MAX_ORDER ==> free[j] == {}) <==> (forall b: nat :: !FreeRun(n, live, b, order))
  {
    if forall j :: order <= j < MAX_ORDER ==> free[j] == {} {
      forall b: nat ensures !FreeRun(n, live, b, order) {
        if FreeRun(n, live, b, order) {
          var j := Containing(n, free, live, b, order);
          assert false;
        }
      }
    } else {
      var j :| order <= j < MAX_ORDER && free[j] != {};
      var b :| b in free[j];
      ListedIsFree(n, free, live, b, j);
      BaseUnique(b, b, j);
      SubRunFree(n, live, b, order, j);
    }
  }

  lemma NoneListed(n: nat, free: seq<set<nat>>, live: set<nat>, k: nat)
    requires Inv(n, free, live) && k < MAX_ORDER
    ensures free[k] != {} ==> n > 0
  {
    if free[k] != {} {
      var b :| b in free[k];
      ListedIsFree(n, free, live, b, k);
    }
  }

  lemma LiveNotListed(n: nat, free: seq<set<nat>>, live: set<nat>, b: nat, k: nat)
    requires Inv(n, free, live) && k < MAX_ORDER && Aligned(b, k) && Run(b, k) <= live
    ensures b !in free[k] && n > 0
  {
    assert b in Run(b, k);
    BaseUnique(b, b, k);
    assert !Covers(free, k, b);
  }

  /** Splitting: giving back the upper half of a block just taken leaves the lower half live. */
  lemma LowerHalfStays(n: nat, live: set<nat>, b: nat, k: nat)
    requires FreeRun(n, live, b, k + 1)
    ensures FreeRun(n, live, b, k) && Aligned(b + Pow2(k), k) && Buddy(b + Pow2(k), k) == b
    ensures Run(b + Pow2(k), k) <= live + Run(b, k + 1)
    ensures live + Run(b, k + 1) - Run(b + Pow2(k), k) == live + Run(b, k)
  {
    Halves(b, k);
  }

  lemma {:induction false} ItemCount(list: seq<nat>)
    requires NoDuplicates(list)
    ensures |ItemsOf(list)| == |list|
  {
    if list != [] {
      RemovedItem(list, 0);
      ItemCount(list[..0] + list[1..]);
    }
  }

  lemma PageOfAligned(x: nat, s: nat)
    requires s > 0 && x % (PAGE_SIZE * s) == 0
    ensures x / PAGE_SIZE % s == 0
  {
    var q := x / (PAGE_SIZE * s);
    DivMod(x, PAGE_SIZE * s);
    assert PAGE_SIZE * s * q == PAGE_SIZE * (s * q);
    ModUnique(x, PAGE_SIZE, s * q, 0);
    ModUnique(s * q, s, q, 0);
  }

  /** A client's move: ask for a block, or return the block it holds at a position. */
  datatype Move = Request(order: nat) | Return(index: nat)

  datatype Reply = Granted(page: nat) | Refused | Returned | NotHeld

  ghost function Span(block: (nat, nat)): set<nat> {
    Run(block.0, block.1)
  }

  /** The blocks (page, order) a client holds are exactly the live pages, without overlap. */
  ghost predicate Holds(held: seq<(nat, nat)>, live: set<nat>) {
    && (forall i :: 0 <= i < |held| ==>
          held[i].1 < MAX_ORDER && Aligned(held[i].0, held[i].1) && Span(held[i]) <= live)
    && (forall i, j :: 0 <= i < |held| && 0 <= j < |held| && i != j ==> Span(held[i]) !! Span(held[j]))
    && (forall p :: p in live ==> exists i :: 0 <= i < |held| && p in Span(held[i]))
  }

  /** What a client holds, and the pages in use. */
  datatype Situation = Situation(held: seq<(nat, nat)>, live: set<nat>)

  /** What a move leads to: a request is refused exactly when no aligned run of its order is free, and otherwise gets
      one, whose pages come into use; a return takes exactly its block's pages out of use. */
  ghost predicate IsMove(n: nat, move: Move, reply: Reply, before: Situation, after: Situation) {
    match move
    case Request(order) =>
      && (reply.Refused? || reply.Granted?)
      && (reply.Refused? <==> order >= MAX_ORDER || forall b: nat :: !FreeRun(n, before.live, b, order))
      && (reply.Refused? ==> after == before)
      && (reply.Granted? ==>
            && FreeRun(n, before.live, reply.page, order)
            && after == Situation(before.held + [(reply.page, order)], before.live + Run(reply.page, order)))
    case Return(i) =>
      if i < |before.held| then
        && reply == Returned
        && after == Situation(before.held[..i] + before.held[i + 1..], before.live - Span(before.held[i]))
      else reply == NotHeld && after == before
  }

  ghost predicate IsTrace(n: nat, moves: seq<Move>, replies: seq<Reply>, trace: seq<Situation>) {
    && |trace| == |moves| + 1 && |replies| == |moves|
    && forall i :: 0 <= i < |moves| ==> IsMove(n, moves[i], replies[i], trace[i], trace[i + 1])
  }

  lemma TraceMore(n: nat, moves: seq<Move>, replies: seq<Reply>, trace: seq<Situation>, move: Move, reply: Reply,
                  after: Situation)
    requires IsTrace(n, moves, replies, trace) && IsMove(n, move, reply, trace[|moves|], after)
    ensures IsTrace(n, moves + [move], replies + [reply], trace + [after])
  {
    hide IsMove;
  }

  lemma HoldMore(held: seq<(nat, nat)>, live: set<nat>, n: nat, b: nat, k: nat)
    requires Holds(held, live) && k < MAX_ORDER && FreeRun(n, live, b, k)
    ensures Holds(held + [(b, k)], live + Run(b, k))
  {
    var held' := held + [(b, k)];
    assert held'[|held|] == (b, k) && Span((b, k)) == Run(b, k);
    forall p | p in live ensures exists i :: 0 <= i < |held'| && p in Span(held'[i]) {
      var i :| 0 <= i < |held| && p in Span(held[i]);
      assert held'[i] == held[i];
    }
  }

  lemma HoldLess(held: seq<(nat, nat)>, live: set<nat>, at: nat)
    requires Holds(held, live) && at < |held|
    ensures Holds(held[..at] + held[at + 1..], live - Span(held[at]))
  {
    hide Run, Aligned;
    var rest := held[..at] + held[at + 1..];
    assert forall i :: 0 <= i < |rest| ==> rest[i] == held[if i < at then i else i + 1];
    forall i | 0 <= i < |rest| ensures Span(rest[i]) <= live - Span(held[at]) {
      var j := if i < at then i else i + 1;
      assert Span(held[j]) !! Span(held[at]);
    }
    forall p | p in live - Span(held[at]) ensures exists i :: 0 <= i < |rest| && p in Span(rest[i]) {
      var i :| 0 <= i < |held| && p in Span(held[i]);
      assert rest[if i < at then i else i - 1] == held[i];
    }
  }

  /** At every point of a run the blocks held are apart and make up the pages in use. */
  lemma {:induction false} TraceHolds(n: nat, moves: seq<Move>, replies: seq<Reply>, trace: seq<Situation>, i: nat)
    requires IsTrace(n, moves, replies, trace) && Holds(trace[0].held, trace[0].live) && i <= |moves|
    ensures Holds(trace[i].held, trace[i].live)
  {
    hide Holds, FreeRun, Run;
    if i > 0 {
      TraceHolds(n, moves, replies, trace, i - 1);
      var before := trace[i - 1];
      assert IsMove(n, moves[i - 1], replies[i - 1], before, trace[i - 1 + 1]);
      match moves[i - 1]
      case Request(order) =>
        if replies[i - 1].Granted? {
          HoldMore(before.held, before.live, n, replies[i - 1].page, order);
        }
      case Return(k) =>
        if k < |before.held| {
          HoldLess(before.held, before.live, k);
        }
    }
  }

  class BuddyAllocator {
    const start: nat
    const areas: seq<FreeArea>
    ghost const pages: nat
    ghost const repr: set<object>
    ghost var free: seq<set<nat>>
    ghost var live: set<nat>

    /** The lists, counters and parity bits represent the free sets. */
    ghost predicate AreasValid()
      reads this, repr
    {
      && this in repr
      && |areas| == |free| == MAX_ORDER
      && (forall k :: 0 <= k < MAX_ORDER ==> areas[k] in repr && areas[k].bitmap in repr)
      && (forall k :: 0 <= k < MAX_ORDER ==>
            areas[k].order == k && areas[k].Valid() && (pages > 0 ==> areas[k].bitmap.Valid())
            && areas[k].Items() == free[k])
      && (forall j, k :: 0 <= j < k < MAX_ORDER ==> areas[j] != areas[k] && areas[j].bitmap != areas[k].bitmap)
    }

    ghost predicate Valid()
      reads this, repr
      ensures Valid() ==> this in repr && |free| == |areas| == MAX_ORDER && Inv(pages, free, live)
    {
      AreasValid() && Inv(pages, free, live)
    }

    /** Manages the whole pages between two byte addresses. */
    constructor (sVaddr: nat, eVaddr: nat)
      requires CeilPage(sVaddr) <= FloorPage(eVaddr)
      ensures Valid() && fresh(repr)
      ensures start == CeilPage(sVaddr) && start + pages * PAGE_SIZE == FloorPage(eVaddr)
      ensures start % 4096 == 0 && sVaddr <= start < sVaddr + 4096
      ensures start + pages * 4096 <= eVaddr < start + (pages + 1) * 4096
      ensures live == {} && forall k :: 0 <= k < MAX_ORDER ==> free[k] == InitialFree(pages, k)
    {
      hide Inv, FreeArea.Valid, Bitmap.Valid, Base;
      var nsAddr, neAddr := CeilPage(sVaddr), FloorPage(eVaddr);
      var pgCnt := (neAddr - nsAddr) / PAGE_SIZE;
      var made; ghost var parts;
      made, parts := MakeAreas(pgCnt);
      start, areas, pages := nsAddr, made, pgCnt;
      free := seq(MAX_ORDER, _ => {});
      live := AllPages(pgCnt);
      repr := {this} + parts;
      new;
      AllLive(pages, free, live);
      ListBlocks(pgCnt);
      DrainedIsInitial(pages, free);
    }

    /** Lists the region greedily, largest blocks first; no insertion can merge. */
    method ListBlocks(pgCnt: nat)
      requires Valid() && pgCnt == pages
      requires forall k :: 0 <= k < MAX_ORDER ==> free[k] == {}
      requires forall p: nat :: p in live <==> p < pages
      modifies repr
      ensures Valid() && live == {}
    {
      var probe := 0;
      for i := MAX_ORDER downto 0
        invariant Valid()
        invariant forall k :: 0 <= k < i ==> free[k] == {}
        invariant probe == if i == MAX_ORDER then 0 else Base(pages, i)
        invariant forall p: nat :: p in live <==> probe <= p < pages
      {
        probe := ListOrder(i, probe, pgCnt);
      }
    }

    method ListOrder(i: nat, probe: nat, pgCnt: nat) returns (next: nat)
      requires Valid() && pgCnt == pages && i < MAX_ORDER
      requires forall k :: 0 <= k <= i ==> free[k] == {}
      requires probe == if i == TOP then 0 else Base(pages, i + 1)
      requires forall p: nat :: p in live <==> probe <= p < pages
      modifies repr
      ensures Valid() && next == Base(pages, i)
      ensures forall k :: 0 <= k < i ==> free[k] == {}
      ensures forall p: nat :: p in live <==> next <= p < pages
    {
      hide Inv, Buddy, Run, Base;
      next := probe;
      OrderSpan(pages, i, probe);
      while pgCnt - next >= Pow2(i)
        invariant Valid() && Aligned(next, i) && next <= Base(pages, i)
        invariant i == TOP || (next == probe && free[i] == {}) || next == probe + Pow2(i)
        invariant forall k :: 0 <= k < i ==> free[k] == {}
        invariant forall p: nat :: p in live <==> next <= p < pages
        decreases pgCnt - next
      {
        FrontBlock(live, next, pages, i);
        NextBlock(next, i, pages);
        var inserted := GiveBlock(i, next);
        assert inserted.None?;
        next := next + Pow2(i);
      }
      BaseUnique(pages, next, i);
    }

    /** Pops a block of exactly this order; its pages become live. */
    method TakeBlock(order: nat) returns (r: Option<nat>)
      requires Valid() && order < MAX_ORDER
      modifies repr
      ensures Valid()
      ensures r.None? <==> old(free)[order] == {}
      ensures r.None? ==> live == old(live) && free == old(free)
      ensures r.Some? ==> FreeRun(pages, old(live), r.value, order) && live == old(live) + Run(r.value, order)
      ensures forall k :: 0 <= k < MAX_ORDER && k != order ==> free[k] == old(free)[k]
    {
      hide Inv, Run, FreeArea.Valid, Bitmap.Valid;
      NoneListed(pages, free, live, order);
      r := UnlistLast(order);
      if r.Some? {
        Take(pages, old(free), live, r.value, order);
        live := live + Run(r.value, order);
      }
    }

    /** Unlists the last block of an order. */
    method UnlistLast(order: nat) returns (r: Option<nat>)
      requires AreasValid() && order < MAX_ORDER && (free[order] != {} ==> pages > 0)
      modifies areas[order], areas[order].bitmap, this`free
      ensures AreasValid() && (r.None? <==> old(free)[order] == {})
      ensures r.None? ==> free == old(free)
      ensures r.Some? ==> r.value in old(free)[order] && free == old(free)[order := old(free)[order] - {r.value}]
    {
      hide FreeArea.Valid, Bitmap.Valid;
      var area := areas[order];
      assert area.list != [] ==> area.list[0] in free[order];
      r := area.AllocArea();
      if r.Some? {
        free := free[order := free[order] - {r.value}];
      }
    }

    /** Lists a block, or unlists its buddy. */
    method ListOrMerge(order: nat, b: nat) returns (r: Option<nat>)
      requires AreasValid() && order < MAX_ORDER && pages > 0 && Aligned(b, order) && b !in free[order]
      modifies areas[order], areas[order].bitmap, this`free
      ensures AreasValid() && (r.Some? <==> order < TOP && Buddy(b, order) in old(free)[order])
      ensures r.None? ==> free == old(free)[order := old(free)[order] + {b}]
      ensures r.Some? ==>
                r.value == Base(b, order + 1) && free == old(free)[order := old(free)[order] - {Buddy(b, order)}]
    {
      hide FreeArea.Valid, Bitmap.Valid, Buddy, Base, Aligned;
      var area := areas[order];
      r := area.InsertArea(b);
      free := free[order := if r.None? then free[order] + {b} else free[order] - {Buddy(b, order)}];
    }

    /** Hands a live block to its order. Either it is listed and its pages are no longer live, or
        its listed buddy is taken back and the merged block, still live, moves up one order. */
    method GiveBlock(order: nat, b: nat) returns (r: Option<nat>)
      requires Valid() && order < MAX_ORDER && Aligned(b, order) && Run(b, order) <= live
      modifies repr
      ensures Valid()
      ensures r.Some? <==> order < TOP && Buddy(b, order) in old(free)[order]
      ensures r.None? ==> live == old(live) - Run(b, order)
      ensures r.Some? ==>
        && r.value == Base(b, order + 1) && Aligned(r.value, order + 1)
        && Run(r.value, order + 1) !! old(live) - Run(b, order)
        && live == old(live) - Run(b, order) + Run(r.value, order + 1)
      ensures forall k :: 0 <= k < MAX_ORDER && k != order ==> free[k] == old(free)[k]
    {
      hide Inv, Buddy, Run, Base, FreeArea.Valid, Bitmap.Valid;
      BuddyInvolutive(b, order);
      LiveNotListed(pages, free, live, b, order);
      r := ListOrMerge(order, b);
      if r.None? {
        Release(pages, old(free), live, b, order);
        live := live - Run(b, order);
      } else {
        Take(pages, old(free), live, Buddy(b, order), order);
        live := live + Run(Buddy(b, order), order);
        HalfOfParent(b, order);
      }
    }

    /** Allocates an aligned run of `2^order` pages; fails exactly when the region has none. */
    method AllocPages(order: nat) returns (r: Option<nat>)
      requires Valid()
      modifies repr
      ensures Valid()
      ensures order >= MAX_ORDER ==> r.None?
      ensures order < MAX_ORDER ==> (r.None? <==> forall j :: order <= j < MAX_ORDER ==> old(free)[j] == {})
      ensures r.None? ==> live == old(live) && free == old(free)
      ensures forall k :: 0 <= k < MAX_ORDER && k < order ==> free[k] == old(free)[k]
      ensures r.Some? ==> FreeRun(pages, old(live), r.value, order) && live == old(live) + Run(r.value, order)
      decreases MAX_ORDER - order
    {
      hide Inv, Buddy, Base, Run, Aligned, FreeRun, BuddyAllocator.Valid;
      if order >= MAX_ORDER {
        return None;
      }
      r := TakeBlock(order);
      if r.None? {
        r := AllocPages(order + 1);
        if r.Some? {
          var upper := r.value + Pow2(order);
          LowerHalfStays(pages, old(live), r.value, order);
          var merged := GiveBlock(order, upper);
          assert merged.None?;
        }
      }
    }

    /** Frees a live aligned block. Malformed requests are refused; a well-formed one always
        succeeds, whatever merges it takes. */
    method FreePages(b: int, order: nat) returns (ok: bool)
      requires Valid()
      requires order < MAX_ORDER && b >= 0 && Aligned(b, order) ==> Run(b, order) <= live
      modifies repr
      ensures Valid()
      ensures ok <==> order < MAX_ORDER && b >= 0 && Aligned(b, order)
      ensures ok ==> live == old(live) - Run(b, order)
      ensures !ok ==> live == old(live) && free == old(free)
    {
      if order >= MAX_ORDER {
        return false;
      }
      if b < 0 {
        return false;
      }
      if b % Pow2(order) != 0 {
        return false;
      }
      var item: nat := b;
      ghost var others := old(live) - Run(b, order);
      for i := order to MAX_ORDER
        invariant Valid()
        invariant i <= TOP && Aligned(item, i)
        invariant Run(item, i) !! others && live == others + Run(item, i)
      {
        var merged := GiveBlock(i, item);
        assert live == if merged.None? then others else others + Run(merged.value, i + 1);
        if merged.None? {
          return true;
        }
        item := merged.value;
      }
      assert false;
    }

    /** Byte-address form of `AllocPages`. */
    method AllocArea(order: nat) returns (r: Option<nat>)
      requires Valid()
      modifies repr
      ensures Valid()
      ensures order >= MAX_ORDER ==> r.None?
      ensures order < MAX_ORDER ==> (r.None? <==> forall b: nat :: !FreeRun(pages, old(live), b, order))
      ensures r.None? ==> live == old(live)
      ensures r.Some? ==>
        exists b: nat :: r.value == start + b * PAGE_SIZE && FreeRun(pages, old(live), b, order)
                         && live == old(live) + Run(b, order)
    {
      if order < MAX_ORDER {
        NothingToSplit(pages, free, live, order);
      }
      var got := AllocPages(order);
      if got.None? {
        r := None;
      } else {
        r := Some(start + got.value * PAGE_SIZE);
      }
    }

    /** Byte-address form of `FreePages`: refuses orders out of range, addresses below the region
        and addresses off the block grid, and nothing else. */
    method FreeAreaAt(vaddr: nat, order: nat) returns (ok: bool)
      requires Valid()
      requires order < MAX_ORDER && start <= vaddr && (vaddr - start) % (PAGE_SIZE * Pow2(order)) == 0
               ==> Run((vaddr - start) / PAGE_SIZE, order) <= live
      modifies repr
      ensures Valid()
      ensures ok <==> order < MAX_ORDER && start <= vaddr && (vaddr - start) % (PAGE_SIZE * Pow2(order)) == 0
      ensures live == if ok then old(live) - Run((vaddr - start) / PAGE_SIZE, order) else old(live)
    {
      if order >= MAX_ORDER {
        return false;
      }
      if start > vaddr {
        return false;
      }
      if (vaddr - start) % (PAGE_SIZE * Pow2(order)) != 0 {
        return false;
      }
      PageOfAligned(vaddr - start, Pow2(order));
      ok := FreePages((vaddr - start) / PAGE_SIZE, order);
    }

    lemma CounterIsExact(i: nat)
      requires Valid() && i < MAX_ORDER
      ensures areas[i].freeCnt == |free[i]|
    {
      hide Inv;
      ItemCount(areas[i].list);
    }

    /** The free-page count is exact: the listed blocks are all the pages that are not live. */
    method GetFreePagesCnt() returns (cnt: nat)
      requires Valid()
      ensures cnt == pages - |live|
    {
      hide Inv, BuddyAllocator.Valid;
      cnt := 0;
      for i := 0 to MAX_ORDER
        invariant cnt == ListedPages(free, i)
      {
        CounterIsExact(i);
        cnt := cnt + areas[i].freeCnt * Order2Pages(i);
      }
      PagesConserved(pages, free, live);
    }

    /** Runs a client's moves from any state, with whatever it holds: every reply and every state in between is the
        one the move calls for. */
    method RunMoves(moves: seq<Move>, held0: seq<(nat, nat)>)
      returns (replies: seq<Reply>, held: seq<(nat, nat)>, ghost trace: seq<Situation>)
      requires Valid() && Holds(held0, live)
      modifies repr
      ensures Valid() && Holds(held, live) && IsTrace(pages, moves, replies, trace)
      ensures trace[0] == Situation(held0, old(live)) && trace[|moves|] == Situation(held, live)
    {
      hide BuddyAllocator.Valid, Holds, IsMove;
      replies, held, trace := [], held0, [Situation(held0, live)];
      for i := 0 to |moves|
        invariant Valid() && Holds(held, live) && IsTrace(pages, moves[..i], replies, trace)
        invariant trace[0] == Situation(held0, old(live)) && trace[i] == Situation(held, live)
      {
        ghost var before := Situation(held, live);
        var reply;
        reply, held := Perform(moves[i], held);
        TraceMore(pages, moves[..i], replies, trace, moves[i], reply, Situation(held, live));
        assert moves[..i + 1] == moves[..i] + [moves[i]];
        replies, trace := replies + [reply], trace + [Situation(held, live)];
      }
      assert moves[..|moves|] == moves;
    }

    method Perform(move: Move, held: seq<(nat, nat)>) returns (reply: Reply, held': seq<(nat, nat)>)
      requires Valid() && Holds(held, live)
      modifies repr
      ensures Valid() && Holds(held', live)
      ensures IsMove(pages, move, reply, Situation(held, old(live)), Situation(held', live))
    {
      hide BuddyAllocator.Valid, Holds, FreeRun, Run, Inv;
      match move {
        case Request(order) =>
          if order < MAX_ORDER {
            NothingToSplit(pages, free, live, order);
          }
          ghost var before := live;
          var got := AllocPages(order);
          if got.None? {
            return Refused, held;
          }
          HoldMore(held, before, pages, got.value, order);
          reply, held' := Granted(got.value), held + [(got.value, order)];
        case Return(index) =>
          if index >= |held| {
            return NotHeld, held;
          }
          reply := Returned;
          held' := GiveBack(held, index);
      }
    }

    /** Whatever blocks are in use, returning them all, merges and all, restores the initial lists. */
    method ReturnAll(held: seq<(nat, nat)>)
      requires Valid() && Holds(held, live)
      modifies repr
      ensures Valid() && live == {}
      ensures forall k :: 0 <= k < MAX_ORDER ==> free[k] == InitialFree(pages, k)
    {
      hide BuddyAllocator.Valid, Run, Inv;
      var rest := held;
      while rest != []
        invariant Valid() && Holds(rest, live)
        decreases |rest|
      {
        rest := GiveBack(rest, |rest| - 1);
      }
      assert live == {};
      DrainedIsInitial(pages, free);
    }

    /** A whole session: a client that holds nothing makes its moves and then returns what it still holds. */
    method Session(moves: seq<Move>) returns (replies: seq<Reply>, ghost trace: seq<Situation>)
      requires Valid() && live == {}
      modifies repr
      ensures Valid() && IsTrace(pages, moves, replies, trace) && trace[0] == Situation([], {})
      ensures live == {} && forall k :: 0 <= k < MAX_ORDER ==> free[k] == InitialFree(pages, k)
    {
      var held;
      replies, held, trace := RunMoves(moves, []);
      ReturnAll(held);
    }

    method GiveBack(held: seq<(nat, nat)>, index: nat) returns (rest: seq<(nat, nat)>)
      requires Valid() && Holds(held, live) && index < |held|
      modifies repr
      ensures Valid() && Holds(rest, live) && rest == held[..index] + held[index + 1..]
      ensures live == old(live) - Span(held[index])
    {
      HoldLess(held, live, index);
      var ok := FreePages(held[index].0, held[index].1);
      rest := held[..index] + held[index + 1..];
    }
  }
}
