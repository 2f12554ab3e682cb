/** The page region managed by the buddy allocator, as pure sets.

    Pages are numbered from the start of the region. An order-`k` block is an aligned run of
    `2^k` pages, named by its first page. A region state is one set of free blocks per order
    together with the set of live (allocated) pages. */
module BuddyRegion {
  import opened Bits

  const MAX_ORDER := 11
  const TOP := 10

  predicate Aligned(b: nat, k: nat) {
    b % Pow2(k) == 0
  }

  /** First page of the order-`k` block around page `p`. */
  function Base(p: nat, k: nat): nat {
    DivMod(p, Pow2(k));
    p - p % Pow2(k)
  }

  /** The other half of the order-`k + 1` block around `b`. */
  function Buddy(b: nat, k: nat): nat
    requires Aligned(b, k)
  {
    if b / Pow2(k) % 2 == 0 then b + Pow2(k)
    else DivMod(b, Pow2(k)); b - Pow2(k)
  }

  predicate InRun(p: nat, b: nat, k: nat) {
    b <= p < b + Pow2(k)
  }

  function Run(b: nat, k: nat): set<nat> {
    set p: nat | b <= p < b + Pow2(k) && InRun(p, b, k)
  }

  // ----- arithmetic of aligned blocks

  lemma DivMod(p: nat, s: nat)
    requires s > 0
    ensures p == s * (p / s) + p % s && p % s <= p
    ensures p / s > 0 ==> s <= p
  {
    assert p / s >= 1 ==> s * (p / s) >= s;
  }

  lemma ModSpan(p: nat, b: nat, s: nat)
    requires s > 0 && b % s == 0 && b <= p < b + s
    ensures p % s == p - b
  {
    DivMod(b, s);
    ModUnique(p, s, b / s, p - b);
  }

  lemma ModFloor(p: nat, s: nat)
    requires s > 0
    ensures p % s <= p && (p - p % s) % s == 0
  {
    DivMod(p, s);
    ModUnique(p - p % s, s, p / s, 0);
  }

  lemma BaseSpan(p: nat, k: nat)
    ensures Aligned(Base(p, k), k)
    ensures Base(p, k) <= p < Base(p, k) + Pow2(k)
  {
    ModFloor(p, Pow2(k));
  }

  lemma BaseUnique(p: nat, b: nat, k: nat)
    requires Aligned(b, k) && b <= p < b + Pow2(k)
    ensures Base(p, k) == b
  {
    ModSpan(p, b, Pow2(k));
  }

  lemma DoubleProduct(s: nat, q: nat)
    ensures (2 * s) * q == s * (2 * q) && s * (2 * q + 1) == s * (2 * q) + s
  {}

  lemma TwiceAligned(b: nat, s: nat)
    requires s > 0 && b % (2 * s) == 0
    ensures b % s == 0 && b / s == 2 * (b / (2 * s))
    ensures (b + s) % s == 0 && (b + s) / s == b / s + 1
  {
    var q := b / (2 * s);
    DivMod(b, 2 * s);
    DoubleProduct(s, q);
    ModUnique(b, s, 2 * q, 0);
    ModUnique(b + s, s, 2 * q + 1, 0);
  }

  /** An order-`k + 1` block is two order-`k` blocks, each the other's buddy. */
  lemma Halves(b: nat, k: nat)
    requires Aligned(b, k + 1)
    ensures Aligned(b, k) && Aligned(b + Pow2(k), k)
    ensures Buddy(b, k) == b + Pow2(k) && Buddy(b + Pow2(k), k) == b
    ensures Run(b, k + 1) == Run(b, k) + Run(b + Pow2(k), k)
    ensures b / Pow2(k) == 2 * (b / Pow2(k + 1))
    ensures (b + Pow2(k)) / Pow2(k) == 2 * (b / Pow2(k + 1)) + 1
  {
    TwiceAligned(b, Pow2(k));
  }

  /** A block is the lower or the upper half of its parent. */
  lemma HalfOfParent(b: nat, k: nat)
    requires Aligned(b, k)
    ensures Aligned(Base(b, k + 1), k + 1)
    ensures b == Base(b, k + 1) || b == Base(b, k + 1) + Pow2(k)
    ensures Base(b, k + 1) == if Buddy(b, k) < b then Buddy(b, k) else b
  {
    BaseSpan(b, k + 1);
    var c := Base(b, k + 1);
    Halves(c, k);
    var s := Pow2(k);
    if b < c + s {
      BaseUnique(b, c, k);
    } else {
      BaseUnique(b, c + s, k);
    }
    BaseUnique(b, b, k);
  }

  lemma BuddyInvolutive(b: nat, k: nat)
    requires Aligned(b, k)
    ensures Aligned(Buddy(b, k), k) && Buddy(b, k) != b && Buddy(Buddy(b, k), k) == b
    ensures Base(b, k + 1) == Base(Buddy(b, k), k + 1)
    ensures Run(Base(b, k + 1), k + 1) == Run(b, k) + Run(Buddy(b, k), k)
    ensures Run(b, k) !! Run(Buddy(b, k), k)
  {
    HalfOfParent(b, k);
    var c := Base(b, k + 1);
    Halves(c, k);
    BaseUnique(c, c, k + 1);
    BaseUnique(c + Pow2(k), c, k + 1);
  }

  /** Bases nest: a coarser base can be computed from a finer one. */
  lemma {:induction false} BaseNests(p: nat, k: nat, j: nat)
    requires k <= j
    ensures Base(Base(p, k), j) == Base(p, j) && Base(p, j) <= Base(p, k)
    ensures Base(p, k) + Pow2(k) <= Base(p, j) + Pow2(j)
    decreases j - k
  {
    BaseSpan(p, k);
    if k == j {
      BaseUnique(Base(p, k), Base(p, k), k);
    } else {
      BaseNests(p, k + 1, j);
      var b := Base(p, k);
      HalfOfParent(b, k);
      var c := Base(b, k + 1);
      BaseUnique(p, c, k + 1);
      BaseNests(b, k + 1, j);
    }
  }

  // ----- the region invariant

  /** Page `p` lies in a free block of order `k`. */
  predicate Covers(free: seq<set<nat>>, k: nat, p: nat) {
    k < |free| && Base(p, k) in free[k]
  }

  ghost predicate WellFormed(n: nat, free: seq<set<nat>>) {
    && |free| == MAX_ORDER
    && (forall k, b :: 0 <= k < MAX_ORDER && b in free[k] ==> Aligned(b, k) && b + Pow2(k) <= n)
    && (forall k, b :: 0 <= k < TOP && b in free[k] ==> Aligned(b, k) && Buddy(b, k) !in free[k])
  }

  /** Free blocks and live pages partition the region, and no two buddies are both free. */
  ghost predicate Inv(n: nat, free: seq<set<nat>>, live: set<nat>) {
    && WellFormed(n, free)
    && (forall p :: p in live ==> p < n)
    && (forall k: nat, p: nat :: Covers(free, k, p) ==> p < n && p !in live)
    && (forall j: nat, k: nat, p: nat :: Covers(free, j, p) && Covers(free, k, p) ==> j == k)
    && (forall p: nat :: p < n && p !in live ==> exists k: nat :: Covers(free, k, p))
  }

  /** An aligned run of `2^k` pages, none of them live. */
  ghost predicate FreeRun(n: nat, live: set<nat>, b: nat, k: nat) {
    Aligned(b, k) && b + Pow2(k) <= n && Run(b, k) !! live
  }

  /** Nothing listed and every page live: the state from which a region is filled. */
  lemma AllLive(n: nat, free: seq<set<nat>>, live: set<nat>)
    requires |free| == MAX_ORDER && forall k :: 0 <= k < MAX_ORDER ==> free[k] == {}
    requires forall p: nat :: p in live <==> p < n
    ensures Inv(n, free, live)
  {
    assert forall k: nat, p: nat :: !Covers(free, k, p);
  }

  // ----- the two transitions every operation is made of

  lemma CoversRun(free: seq<set<nat>>, b: nat, k: nat, p: nat)
    requires k < |free| && Aligned(b, k)
    ensures p in Run(b, k) <==> Base(p, k) == b
  {
    BaseSpan(p, k);
    if p in Run(b, k) {
      BaseUnique(p, b, k);
    }
  }

  /** Taking a free block makes its pages live. */
  lemma Take(n: nat, free: seq<set<nat>>, live: set<nat>, b: nat, k: nat)
    requires Inv(n, free, live) && k < MAX_ORDER && b in free[k]
    ensures FreeRun(n, live, b, k)
    ensures Inv(n, free[k := free[k] - {b}], live + Run(b, k))
  {
    var free', live' := free[k := free[k] - {b}], live + Run(b, k);
    forall p | p in Run(b, k) ensures Covers(free, k, p) {
      CoversRun(free, b, k, p);
    }
    forall j: nat, p: nat | Covers(free', j, p) ensures Covers(free, j, p) && p !in Run(b, k) {
      CoversRun(free, b, k, p);
      assert Covers(free, j, p);
      assert p in Run(b, k) ==> Covers(free, k, p) && j == k;
    }
    forall p: nat | p < n && p !in live' ensures exists j: nat :: Covers(free', j, p) {
      var j: nat :| Covers(free, j, p);
      CoversRun(free, b, k, p);
      assert Covers(free', j, p);
    }
  }

  /** Releasing a live aligned run, whose buddy is not free (or at the top order), adds one block. */
  lemma Release(n: nat, free: seq<set<nat>>, live: set<nat>, b: nat, k: nat)
    requires Inv(n, free, live) && k < MAX_ORDER && Aligned(b, k) && Run(b, k) <= live
    requires k < TOP ==> Buddy(b, k) !in free[k]
    ensures b !in free[k]
    ensures Inv(n, free[k := free[k] + {b}], live - Run(b, k))
  {
    var free', live' := free[k := free[k] + {b}], live - Run(b, k);
    assert b in Run(b, k) && b + Pow2(k) - 1 in Run(b, k);
    BaseUnique(b, b, k);
    assert !Covers(free, k, b);
    ReleaseForms(n, free, b, k);
    hide Base, Run, Buddy, Aligned, WellFormed;
    forall j: nat, p: nat ensures Covers(free', j, p) <==> Covers(free, j, p) || (j == k && p in Run(b, k)) {
      CoversMore(free, b, k, j, p);
    }
    hide Covers;
    forall p: nat | p < n && p !in live' ensures exists j: nat :: Covers(free', j, p) {
      if p in Run(b, k) {
        assert Covers(free', k, p);
      } else {
        var j: nat :| Covers(free, j, p);
        assert Covers(free', j, p);
      }
    }
  }

  lemma CoversMore(free: seq<set<nat>>, b: nat, k: nat, j: nat, p: nat)
    requires |free| == MAX_ORDER && k < MAX_ORDER && Aligned(b, k)
    ensures Covers(free[k := free[k] + {b}], j, p) <==> Covers(free, j, p) || (j == k && p in Run(b, k))
  {
    hide Base, Run, Aligned;
    CoversRun(free, b, k, p);
  }

  lemma ReleaseForms(n: nat, free: seq<set<nat>>, b: nat, k: nat)
    requires WellFormed(n, free) && k < MAX_ORDER && Aligned(b, k) && b + Pow2(k) <= n
    requires k < TOP ==> Buddy(b, k) !in free[k]
    ensures WellFormed(n, free[k := free[k] + {b}])
  {
    hide Buddy, Aligned;
    var free' := free[k := free[k] + {b}];
    BuddyInvolutive(b, k);
    forall i, c | 0 <= i < TOP && c in free'[i] ensures Aligned(c, i) && Buddy(c, i) !in free'[i] {
      if i == k && c != b {
        BuddyInvolutive(c, k);
      }
    }
  }

  // ----- the free sets are a function of the live pages

  lemma HalvesFree(n: nat, live: set<nat>, b: nat, k: nat)
    requires FreeRun(n, live, b, k + 1)
    ensures FreeRun(n, live, b, k) && FreeRun(n, live, b + Pow2(k), k)
  {
    Halves(b, k);
  }

  lemma FreePageListed(n: nat, free: seq<set<nat>>, live: set<nat>, b: nat) returns (j: nat)
    requires Inv(n, free, live) && FreeRun(n, live, b, 0)
    ensures Covers(free, j, b)
  {
    assert b in Run(b, 0);
    j :| Covers(free, j, b);
  }

  /** Not both halves of a block can be listed below the top order. */
  lemma HalvesNotBothListed(n: nat, free: seq<set<nat>>, b: nat, k: nat)
    requires WellFormed(n, free) && k < TOP && Aligned(b, k + 1)
    ensures !(Covers(free, k, b) && Covers(free, k, b + Pow2(k)))
  {
    hide Buddy, Base, Aligned, Run;
    Halves(b, k);
    BaseUnique(b, b, k);
    BaseUnique(b + Pow2(k), b + Pow2(k), k);
  }

  /** Every aligned free run lies inside one listed block of at least its order. */
  lemma {:induction false} Containing(n: nat, free: seq<set<nat>>, live: set<nat>, b: nat, k: nat) returns (j: nat)
    requires Inv(n, free, live) && k < MAX_ORDER && FreeRun(n, live, b, k)
    ensures k <= j < MAX_ORDER && Covers(free, j, b)
    decreases k
  {
    hide Base, Run, Buddy;
    assert WellFormed(n, free);
    hide Inv, WellFormed;
    if k == 0 {
      j := FreePageListed(n, free, live, b);
    } else {
      var h := b + Pow2(k - 1);
      HalvesFree(n, live, b, k - 1);
      j := Containing(n, free, live, b, k - 1);
      if j == k - 1 {
        var i := Containing(n, free, live, h, k - 1);
        HalvesNotBothListed(n, free, b, k - 1);
        BaseUnique(h, b, k);
        BaseNests(h, k, i);
        j := i;
      }
    }
  }

  lemma ListedIsFree(n: nat, free: seq<set<nat>>, live: set<nat>, b: nat, k: nat)
    requires Inv(n, free, live) && k < MAX_ORDER && b in free[k]
    ensures FreeRun(n, live, b, k)
  {
    forall p | p in Run(b, k) ensures p !in live {
      CoversRun(free, b, k, p);
      assert Covers(free, k, p);
    }
  }

  /** A block is listed exactly when it is a maximal free run: this determines the free lists. */
  lemma ListedIffMaximal(n: nat, free: seq<set<nat>>, live: set<nat>, b: nat, k: nat)
    requires Inv(n, free, live) && k < MAX_ORDER
    ensures b in free[k] <==> FreeRun(n, live, b, k) && (k < TOP ==> !FreeRun(n, live, Base(b, k + 1), k + 1))
  {
    if b in free[k] {
      ListedIsFree(n, free, live, b, k);
      BaseUnique(b, b, k);
      assert Covers(free, k, b);
      if k < TOP && FreeRun(n, live, Base(b, k + 1), k + 1) {
        var j := ParentCovered(n, free, live, b, k);
        assert false;
      }
    } else if FreeRun(n, live, b, k) {
      var j := Containing(n, free, live, b, k);
      BaseUnique(b, b, k);
      assert j != k;
      ListedIsFree(n, free, live, Base(b, j), j);
      SubRunFree(n, live, b, k + 1, j);
    }
  }

  lemma ParentCovered(n: nat, free: seq<set<nat>>, live: set<nat>, b: nat, k: nat) returns (j: nat)
    requires Inv(n, free, live) && k < TOP && FreeRun(n, live, Base(b, k + 1), k + 1)
    ensures k < j && Covers(free, j, b)
  {
    hide Inv, Base;
    j := Containing(n, free, live, Base(b, k + 1), k + 1);
    BaseNests(b, k + 1, j);
  }

  /** Sub-blocks of a free run are free runs. */
  lemma SubRunFree(n: nat, live: set<nat>, b: nat, k: nat, j: nat)
    requires k <= j && FreeRun(n, live, Base(b, j), j)
    ensures FreeRun(n, live, Base(b, k), k)
  {
    BaseSpan(b, k);
    BaseNests(b, k, j);
    forall p | p in Run(Base(b, k), k) ensures p in Run(Base(b, j), j) {}
  }

  /** History independence: two reachable states with the same live pages list the same blocks. */
  lemma Canonical(n: nat, free1: seq<set<nat>>, free2: seq<set<nat>>, live: set<nat>)
    requires Inv(n, free1, live) && Inv(n, free2, live)
    ensures free1 == free2
  {
    forall k | 0 <= k < MAX_ORDER ensures free1[k] == free2[k] {
      forall b: nat ensures b in free1[k] <==> b in free2[k] {
        ListedIffMaximal(n, free1, live, b, k);
        ListedIffMaximal(n, free2, live, b, k);
      }
    }
  }

  // ----- the state with nothing allocated

  /** The blocks listed when no page is live: as many top-order blocks as fit, then at most one
      block per lower order, where the binary expansion of the page count has a digit. */
  function InitialFree(n: nat, k: nat): set<nat>
    requires k < MAX_ORDER
  {
    if k == TOP then set b: nat | b + Pow2(TOP) <= n && Aligned(b, TOP)
    else if n % Pow2(k + 1) >= Pow2(k) then {Base(n, k + 1)}
    else {}
  }

  lemma MaximalFromBinary(n: nat, b: nat, k: nat)
    requires k < TOP
    ensures b in InitialFree(n, k)
            <==> Aligned(b, k) && b + Pow2(k) <= n && Base(b, k + 1) + Pow2(k + 1) > n
  {
    BaseSpan(n, k + 1);
    var c := Base(n, k + 1);
    Halves(c, k);
    if b in InitialFree(n, k) {
      BaseUnique(c, c, k + 1);
    } else if Aligned(b, k) && b + Pow2(k) <= n && Base(b, k + 1) + Pow2(k + 1) > n {
      BaseSpan(b, k + 1);
      BaseUnique(n, Base(b, k + 1), k + 1);
      HalfOfParent(b, k);
    }
  }

  /** Once every block has been freed, in whatever order, the free lists are the initial ones. */
  lemma DrainedIsInitial(n: nat, free: seq<set<nat>>)
    requires Inv(n, free, {})
    ensures forall k :: 0 <= k < MAX_ORDER ==> free[k] == InitialFree(n, k)
  {
    forall k | 0 <= k < MAX_ORDER ensures free[k] == InitialFree(n, k) {
      forall b: nat ensures b in free[k] <==> b in InitialFree(n, k) {
        ListedIffMaximal(n, free, {}, b, k);
        if k < TOP {
          MaximalFromBinary(n, b, k);
          BaseSpan(b, k + 1);
        }
      }
    }
  }

  // ----- conservation of pages

  /** Pages in the listed blocks of the orders below `m`. */
  function ListedPages(free: seq<set<nat>>, m: nat): nat
    requires m <= |free|
  {
    if m == 0 then 0 else ListedPages(free, m - 1) + |free[m - 1]| * Pow2(m - 1)
  }

  lemma {:induction false} ListedPagesWithout(free: seq<set<nat>>, k: nat, b: nat, m: nat)
    requires k < |free| && b in free[k] && m <= |free|
    ensures ListedPages(free, m) == ListedPages(free[k := free[k] - {b}], m) + if k < m then Pow2(k) else 0
  {
    if m > 0 {
      ListedPagesWithout(free, k, b, m - 1);
      if m - 1 == k {
        assert |free[k]| == |free[k] - {b}| + 1;
        assert |free[k]| * Pow2(k) == |free[k] - {b}| * Pow2(k) + Pow2(k);
      }
    }
  }

  lemma {:induction false} ListedPagesNone(free: seq<set<nat>>, m: nat)
    requires m <= |free| && forall k :: 0 <= k < m ==> free[k] == {}
    ensures ListedPages(free, m) == 0
  {
    if m > 0 {
      ListedPagesNone(free, m - 1);
    }
  }

  function Blocks(free: seq<set<nat>>): nat {
    if |free| == 0 then 0 else |free[0]| + Blocks(free[1..])
  }

  lemma {:induction false} BlocksWithout(free: seq<set<nat>>, k: nat, b: nat)
    requires k < |free| && b in free[k]
    ensures Blocks(free[k := free[k] - {b}]) < Blocks(free)
  {
    var free' := free[k := free[k] - {b}];
    if k == 0 {
      assert free'[1..] == free[1..];
      assert |free[0]| == |free'[0]| + 1;
    } else {
      assert free'[1..] == free[1..][k - 1 := free[1..][k - 1] - {b}];
      BlocksWithout(free[1..], k - 1, b);
    }
  }

  lemma {:induction false} RangeSize(s: set<nat>, lo: nat, hi: nat)
    requires lo <= hi && forall p: nat :: p in s <==> lo <= p < hi
    ensures |s| == hi - lo
    decreases hi - lo
  {
    if lo == hi {
      assert s == {};
    } else {
      RangeSize(s - {lo}, lo + 1, hi);
    }
  }

  /** Listed pages and live pages always add up to the managed region. */
  lemma {:induction false} PagesConserved(n: nat, free: seq<set<nat>>, live: set<nat>)
    requires Inv(n, free, live)
    ensures ListedPages(free, MAX_ORDER) + |live| == n
    decreases Blocks(free)
  {
    hide Base, Aligned, Buddy;
    if k, b :| 0 <= k < MAX_ORDER && b in free[k] {
      Take(n, free, live, b, k);
      hide Inv;
      BlocksWithout(free, k, b);
      PagesConserved(n, free[k := free[k] - {b}], live + Run(b, k));
      ListedPagesWithout(free, k, b, MAX_ORDER);
      RangeSize(Run(b, k), b, b + Pow2(k));
    } else {
      ListedPagesNone(free, MAX_ORDER);
      assert forall k: nat, p: nat :: !Covers(free, k, p);
      RangeSize(live, 0, n);
    }
  }
}
