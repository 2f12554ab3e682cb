/** Virtual-memory areas of an address space (kernel/src/mm/mm.rs).

    The ordered map from start address to area is a sequence sorted by start; only the interval of an
    area matters here. */
module Vmas {
  import opened Wrappers

  const USER_SPACE_START := 0
  const USER_SPACE_END := 0x10000000
  const MMAP_TOP := 0x8000000

  datatype Vma = Vma(start: nat, end: nat)

  /** Non-empty areas, in ascending order, none overlapping the next. */
  predicate Ordered(vmas: seq<Vma>) {
    && (forall i :: 0 <= i < |vmas| ==> vmas[i].start < vmas[i].end)
    && (forall i, j :: 0 <= i < j < |vmas| ==> vmas[i].end <= vmas[j].start)
  }

  predicate Clear(vmas: seq<Vma>, a: nat, b: nat) {
    forall i :: 0 <= i < |vmas| ==> vmas[i].end <= a || b <= vmas[i].start
  }

  /** `[a, a + len)` lies in the range and touches no area. */
  predicate Fits(vmas: seq<Vma>, a: nat, len: nat, lo: nat, hi: nat) {
    lo <= a && a + len <= hi && Clear(vmas, a, a + len)
  }

  predicate NoStraddle(vmas: seq<Vma>, at: nat) {
    forall i :: 0 <= i < |vmas| ==> !(vmas[i].start < at < vmas[i].end)
  }

  /** Number of areas that start below `key`: where a range over the map begins. */
  function LowerBound(vmas: seq<Vma>, key: nat): (n: nat)
    requires Ordered(vmas)
    ensures n <= |vmas|
    ensures forall i :: 0 <= i < |vmas| ==> (vmas[i].start < key <==> i < n)
  {
    if |vmas| == 0 || vmas[|vmas| - 1].start < key then |vmas|
    else LowerBound(vmas[..|vmas| - 1], key)
  }

  lemma LowerBoundMonotone(vmas: seq<Vma>, a: nat, b: nat)
    requires Ordered(vmas) && a <= b
    ensures LowerBound(vmas, a) <= LowerBound(vmas, b)
  {
    var n := LowerBound(vmas, b);
    assert n < |vmas| ==> !(vmas[n].start < b);
  }

  lemma LowerBoundOf(vmas: seq<Vma>, i: nat)
    requires Ordered(vmas) && i < |vmas|
    ensures LowerBound(vmas, vmas[i].start) == i
  {
    var n := LowerBound(vmas, vmas[i].start);
    assert forall k :: 0 <= k < i ==> vmas[k].start < vmas[i].start;
  }

  /** The areas a search over a range from `lo` looks at. */
  ghost function Seen(vmas: seq<Vma>, lo: nat): (r: seq<Vma>)
    requires Ordered(vmas)
    ensures Ordered(r) && forall i :: 0 <= i < |r| ==> r[i].start >= lo
  {
    vmas[LowerBound(vmas, lo)..]
  }

  /** An area starts in the range and reaches past its end. */
  predicate Crosses(vmas: seq<Vma>, lo: nat, hi: nat) {
    exists i :: 0 <= i < |vmas| && lo <= vmas[i].start < hi < vmas[i].end
  }

  /** No gap of the range, as far as a search looks, is long enough. */
  ghost predicate NoGapIn(vmas: seq<Vma>, len: nat, lo: nat, hi: nat)
    requires Ordered(vmas)
  {
    forall a: nat :: !Fits(Seen(vmas, lo), a, len, lo, hi)
  }

  /** What a search comes to. Addresses are unsigned, so a subtraction may go below zero. */
  datatype Search = Placed(area: Vma) | NoGap | Underflow

  ghost predicate IsPlaced(vmas: seq<Vma>, len: nat, lo: nat, hi: nat, v: Vma)
    requires Ordered(vmas)
  {
    v.end == v.start + len && Fits(Seen(vmas, lo), v.start, len, lo, hi)
  }

  lemma InOrder(vmas: seq<Vma>, i: nat, j: nat)
    requires Ordered(vmas) && i < j < |vmas|
    ensures vmas[i].end <= vmas[j].start
  {}

  /** Only the last area that starts in the range can cross its end. */
  lemma CrossesIff(vmas: seq<Vma>, lo: nat, hi: nat)
    requires Ordered(vmas) && lo < hi
    ensures var n, m := LowerBound(vmas, lo), LowerBound(vmas, hi);
            && n <= m <= |vmas| && (Crosses(vmas, lo, hi) <==> n < m && hi < vmas[m - 1].end)
            && forall i :: n <= i < m - 1 ==> vmas[i].end <= vmas[m - 1].start < hi
  {
    hide Ordered, LowerBound;
    LowerBoundMonotone(vmas, lo, hi);
    var n, m := LowerBound(vmas, lo), LowerBound(vmas, hi);
    forall i | n <= i < m - 1 ensures vmas[i].end <= vmas[m - 1].start < hi {
      InOrder(vmas, i, m - 1);
    }
    if n < m && hi < vmas[m - 1].end {
      assert lo <= vmas[m - 1].start < hi;
    }
  }

  // A search keeps a bound on all the places there are, and the gap next to the area it has come to.

  ghost predicate NoneBelow(vmas: seq<Vma>, len: nat, lo: nat, hi: nat, from: nat)
    requires Ordered(vmas)
  {
    forall a: nat :: Fits(Seen(vmas, lo), a, len, lo, hi) ==> from <= a
  }

  ghost predicate NoneAbove(vmas: seq<Vma>, len: nat, lo: nat, hi: nat, to: nat)
    requires Ordered(vmas)
  {
    forall a: nat :: Fits(Seen(vmas, lo), a, len, lo, hi) ==> a + len <= to
  }

  /** Where the gap before area `i` begins. */
  function GapStart(vmas: seq<Vma>, lo: nat, i: nat): nat
    requires Ordered(vmas) && i <= |vmas|
  {
    if i == LowerBound(vmas, lo) || i == 0 then lo else vmas[i - 1].end
  }

  /** Where the gap before area `i` ends. */
  function GapEnd(vmas: seq<Vma>, hi: nat, i: nat): nat
    requires Ordered(vmas) && i <= |vmas|
  {
    if i == LowerBound(vmas, hi) || i == |vmas| then hi else vmas[i].start
  }

  lemma EndsBefore(vmas: seq<Vma>, i: nat, k: nat, lo: nat)
    requires Ordered(vmas) && LowerBound(vmas, lo) <= k < i <= |vmas|
    ensures vmas[k].end <= GapStart(vmas, lo, i)
  {
    assert k < i - 1 ==> vmas[k].end <= vmas[i - 1].start;
  }

  lemma StartsAfter(vmas: seq<Vma>, i: nat, k: nat, hi: nat)
    requires Ordered(vmas) && i <= LowerBound(vmas, hi) && i <= k < |vmas|
    ensures GapEnd(vmas, hi, i) <= vmas[k].start
  {
    assert i < k ==> vmas[i].end <= vmas[k].start;
  }

  lemma GapPlaces(vmas: seq<Vma>, i: nat, a: nat, len: nat, lo: nat, hi: nat)
    requires Ordered(vmas) && lo < hi && LowerBound(vmas, lo) <= i <= LowerBound(vmas, hi)
    requires GapStart(vmas, lo, i) <= a && a + len <= GapEnd(vmas, hi, i) && lo <= a && a + len <= hi
    ensures IsPlaced(vmas, len, lo, hi, Vma(a, a + len)) && !NoGapIn(vmas, len, lo, hi)
  {
    hide LowerBound, Ordered, GapStart, GapEnd;
    var n, seen := LowerBound(vmas, lo), Seen(vmas, lo);
    forall k | 0 <= k < |seen| ensures seen[k].end <= a || a + len <= seen[k].start {
      if k < i - n {
        EndsBefore(vmas, i, k + n, lo);
      } else {
        StartsAfter(vmas, i, k + n, hi);
      }
    }
    assert Fits(seen, a, len, lo, hi);
  }

  lemma GapInRange(vmas: seq<Vma>, i: nat, lo: nat, hi: nat)
    requires Ordered(vmas) && lo < hi && LowerBound(vmas, lo) <= i <= LowerBound(vmas, hi)
    ensures lo <= GapStart(vmas, lo, i) && lo <= GapEnd(vmas, hi, i) <= hi
    ensures GapEnd(vmas, hi, i) < GapStart(vmas, lo, i) <==> i == LowerBound(vmas, hi) && Crosses(vmas, lo, hi)
  {
    hide LowerBound;
    CrossesIff(vmas, lo, hi);
    var n, m := LowerBound(vmas, lo), LowerBound(vmas, hi);
    assert i > n ==> lo <= vmas[i - 1].start < vmas[i - 1].end;
    assert i < m ==> lo <= vmas[i].start < hi;
    assert n < i < m ==> vmas[i - 1].end <= vmas[i].start;
  }

  lemma UpFirst(vmas: seq<Vma>, len: nat, lo: nat, hi: nat)
    requires Ordered(vmas)
    ensures NoneBelow(vmas, len, lo, hi, lo) && NoneAbove(vmas, len, lo, hi, hi)
  {
    hide Seen;
  }

  lemma UpNext(vmas: seq<Vma>, i: nat, from: nat, len: nat, lo: nat, hi: nat)
    requires Ordered(vmas) && LowerBound(vmas, lo) <= i < |vmas| && vmas[i].start < from + len
    requires NoneBelow(vmas, len, lo, hi, from)
    ensures NoneBelow(vmas, len, lo, hi, vmas[i].end)
  {
    var seen := Seen(vmas, lo);
    assert seen[i - LowerBound(vmas, lo)] == vmas[i];
  }

  lemma DownNext(vmas: seq<Vma>, i: nat, to: nat, len: nat, lo: nat, hi: nat)
    requires Ordered(vmas) && LowerBound(vmas, lo) <= i < |vmas| && to < vmas[i].end + len
    requires NoneAbove(vmas, len, lo, hi, to)
    ensures NoneAbove(vmas, len, lo, hi, vmas[i].start)
  {
    var seen := Seen(vmas, lo);
    assert seen[i - LowerBound(vmas, lo)] == vmas[i];
  }

  lemma NoneLeft(vmas: seq<Vma>, len: nat, lo: nat, hi: nat, from: nat, to: nat)
    requires Ordered(vmas) && to < from + len
    requires NoneBelow(vmas, len, lo, hi, from) && NoneAbove(vmas, len, lo, hi, to)
    ensures NoGapIn(vmas, len, lo, hi)
  {
    hide Fits, Seen;
  }

  /** First-fit upward: the lowest gap. With no gap, an area across the end makes the search subtract below zero. */
  method SearchUp(vmas: seq<Vma>, len: nat, lo: nat, hi: nat) returns (r: Search)
    requires Ordered(vmas) && lo < hi
    ensures r.Placed? <==> len < hi - lo && !NoGapIn(vmas, len, lo, hi)
    ensures r.Underflow? <==> len < hi - lo && NoGapIn(vmas, len, lo, hi) && Crosses(vmas, lo, hi)
    ensures r.Placed? ==> IsPlaced(vmas, len, lo, hi, r.area) && NoneBelow(vmas, len, lo, hi, r.area.start)
  {
    hide Crosses, Fits, Ordered, NoGapIn, NoneBelow, NoneAbove, IsPlaced, LowerBound;
    if len >= hi - lo {
      return NoGap;
    }
    var lastEnd := lo;
    LowerBoundMonotone(vmas, lo, hi);
    UpFirst(vmas, len, lo, hi);
    for i := LowerBound(vmas, lo) to LowerBound(vmas, hi)
      invariant lastEnd == GapStart(vmas, lo, i) && NoneBelow(vmas, len, lo, hi, lastEnd)
    {
      GapInRange(vmas, i, lo, hi);
      var gap := vmas[i].start - lastEnd;
      if len <= gap {
        GapPlaces(vmas, i, lastEnd, len, lo, hi);
        return Placed(Vma(lastEnd, lastEnd + len));
      }
      UpNext(vmas, i, lastEnd, len, lo, hi);
      lastEnd := vmas[i].end;
    }
    GapInRange(vmas, LowerBound(vmas, hi), lo, hi);
    if hi < lastEnd {
      NoneLeft(vmas, len, lo, hi, lastEnd, hi);
      return Underflow;
    }
    var gap := hi - lastEnd;
    if len <= gap {
      GapPlaces(vmas, LowerBound(vmas, hi), lastEnd, len, lo, hi);
      r := Placed(Vma(lastEnd, lastEnd + len));
    } else {
      NoneLeft(vmas, len, lo, hi, lastEnd, hi);
      r := NoGap;
    }
  }

  /** First-fit downward: the highest gap. An area across the end makes the very first subtraction go below zero. */
  method SearchDown(vmas: seq<Vma>, len: nat, lo: nat, hi: nat) returns (r: Search)
    requires Ordered(vmas) && lo < hi
    ensures r.Underflow? <==> len < hi - lo && Crosses(vmas, lo, hi)
    ensures r.Placed? <==> len < hi - lo && !Crosses(vmas, lo, hi) && !NoGapIn(vmas, len, lo, hi)
    ensures r.Placed? ==> IsPlaced(vmas, len, lo, hi, r.area) && NoneAbove(vmas, len, lo, hi, r.area.end)
  {
    hide Crosses, Fits, Ordered, NoGapIn, NoneBelow, NoneAbove, IsPlaced, LowerBound;
    if len >= hi - lo {
      return NoGap;
    }
    var lastStart := hi;
    LowerBoundMonotone(vmas, lo, hi);
    UpFirst(vmas, len, lo, hi);
    GapInRange(vmas, LowerBound(vmas, hi), lo, hi);
    for i := LowerBound(vmas, hi) downto LowerBound(vmas, lo)
      invariant lastStart == GapEnd(vmas, hi, i) && NoneAbove(vmas, len, lo, hi, lastStart)
      invariant i < LowerBound(vmas, hi) ==> !Crosses(vmas, lo, hi)
    {
      GapInRange(vmas, i + 1, lo, hi);
      GapInRange(vmas, i, lo, hi);
      if lastStart < vmas[i].end {
        return Underflow;
      }
      var gap := lastStart - vmas[i].end;
      if len <= gap {
        GapPlaces(vmas, i + 1, lastStart - len, len, lo, hi);
        return Placed(Vma(lastStart - len, lastStart));
      }
      DownNext(vmas, i, lastStart, len, lo, hi);
      lastStart := vmas[i].start;
    }
    GapInRange(vmas, LowerBound(vmas, lo), lo, hi);
    var gap := lastStart - lo;
    if len <= gap {
      GapPlaces(vmas, LowerBound(vmas, lo), lastStart - len, len, lo, hi);
      r := Placed(Vma(lastStart - len, lastStart));
    } else {
      NoneLeft(vmas, len, lo, hi, lo, lastStart);
      r := NoGap;
    }
  }

  /** A segment that the loader may place across the top of the mmap range: every mmap without an address then
      subtracts below zero. */
  lemma SegmentUnderflows()
    ensures var segment := Vma(0x7FFF000, 0x8001000);
            && FixedAt([], segment.start, 0x2000, USER_SPACE_START, USER_SPACE_END) == Some(segment)
            && Inserted([], segment) == [segment] && Crosses([segment], USER_SPACE_START, MMAP_TOP)
  {
    var segment := Vma(0x7FFF000, 0x8001000);
    assert [segment][0] == segment;
  }

  // ----- areas below the range

  /** A place clear of all areas is one clear of those looked at, past the ones from below the range. */
  lemma SeenFits(vmas: seq<Vma>, a: nat, len: nat, lo: nat, hi: nat)
    requires Ordered(vmas)
    ensures Fits(vmas, a, len, lo, hi)
            <==> Fits(Seen(vmas, lo), a, len, lo, hi)
                 && forall i :: 0 <= i < |vmas| && vmas[i].start < lo ==> vmas[i].end <= a
  {
    var n, seen := LowerBound(vmas, lo), Seen(vmas, lo);
    hide Ordered, LowerBound;
    if Fits(vmas, a, len, lo, hi) {
      forall k | 0 <= k < |seen| ensures seen[k].end <= a || a + len <= seen[k].start {
        assert seen[k] == vmas[k + n];
      }
    }
    if Fits(seen, a, len, lo, hi) {
      forall i | n <= i < |vmas| ensures vmas[i].end <= a || a + len <= vmas[i].start {
        assert vmas[i] == seen[i - n];
      }
    }
  }

  /** The lowest place is clear of all areas if and only if none reaches into the range from below, or the bottom of
      the range is taken anyway. */
  lemma LowestClearIff(vmas: seq<Vma>, v: Vma, len: nat, lo: nat, hi: nat)
    requires Ordered(vmas) && IsPlaced(vmas, len, lo, hi, v) && NoneBelow(vmas, len, lo, hi, v.start)
    ensures Fits(vmas, v.start, len, lo, hi) <==> NoStraddle(vmas, lo) || !Fits(Seen(vmas, lo), lo, len, lo, hi)
  {
    SeenFits(vmas, v.start, len, lo, hi);
    if !Fits(Seen(vmas, lo), lo, len, lo, hi) && lo + len <= hi {
      var seen := Seen(vmas, lo);
      var k :| 0 <= k < |seen| && !(seen[k].end <= lo || lo + len <= seen[k].start);
      var n := LowerBound(vmas, lo);
      assert seen[k] == vmas[k + n];
      assert seen[k].end <= v.start;
      forall i | 0 <= i < |vmas| && vmas[i].start < lo ensures vmas[i].end <= v.start {
        assert vmas[i].end <= vmas[k + n].start;
      }
    }
  }

  /** The highest place is clear of all areas if and only if there is a place that is. */
  lemma HighestClearIff(vmas: seq<Vma>, v: Vma, len: nat, lo: nat, hi: nat)
    requires Ordered(vmas) && IsPlaced(vmas, len, lo, hi, v) && NoneAbove(vmas, len, lo, hi, v.end)
    ensures Fits(vmas, v.start, len, lo, hi) <==> exists b: nat :: Fits(vmas, b, len, lo, hi)
    ensures NoStraddle(vmas, lo) ==> Fits(vmas, v.start, len, lo, hi)
  {
    SeenFits(vmas, v.start, len, lo, hi);
    if b: nat :| Fits(vmas, b, len, lo, hi) {
      SeenFits(vmas, b, len, lo, hi);
    }
  }

  predicate AllWithin(vmas: seq<Vma>, lo: nat, hi: nat) {
    forall i :: 0 <= i < |vmas| ==> lo <= vmas[i].start && vmas[i].end <= hi
  }

  /** Where all areas come from searches of one range, as in the kernel's map area, searches of it never subtract
      below zero and find only clear places, and inserting those keeps it so. */
  lemma WithinIsSafe(vmas: seq<Vma>, v: Vma, len: nat, lo: nat, hi: nat)
    requires Ordered(vmas) && AllWithin(vmas, lo, hi) && 0 < len && IsPlaced(vmas, len, lo, hi, v)
    ensures !Crosses(vmas, lo, hi) && Fits(vmas, v.start, len, lo, hi)
    ensures Ordered(Inserted(vmas, v)) && AllWithin(Inserted(vmas, v), lo, hi)
  {
    hide Seen, Inserted;
    SeenFits(vmas, v.start, len, lo, hi);
    InsertedSafeIff(vmas, v);
    InsertedWithin(vmas, v, lo, hi);
  }

  lemma InsertedWithin(vmas: seq<Vma>, v: Vma, lo: nat, hi: nat)
    requires Ordered(vmas) && AllWithin(vmas, lo, hi) && lo <= v.start && v.end <= hi
    ensures AllWithin(Inserted(vmas, v), lo, hi)
  {}

  /** Fixed-address placement looks only at the first area starting at or above the address. */
  method SearchFixed(vmas: seq<Vma>, vaddr: nat, len: nat, lo: nat, hi: nat) returns (r: Option<Vma>)
    requires Ordered(vmas)
    ensures r == FixedAt(vmas, vaddr, len, lo, hi)
  {
    if len >= hi - lo {
      return None;
    }
    if vaddr + len > hi {
      return None;
    }
    var first := LowerBound(vmas, vaddr);
    if first < LowerBound(vmas, hi) {
      if vmas[first].start - vaddr >= len {
        return Some(Vma(vaddr, vaddr + len));
      } else {
        return None;
      }
    }
    r := Some(Vma(vaddr, vaddr + len));
  }

  /** What fixed placement answers: refused iff too long, out of range, or an area starts inside. */
  function FixedAt(vmas: seq<Vma>, vaddr: nat, len: nat, lo: nat, hi: nat): Option<Vma> {
    if len < hi - lo && vaddr + len <= hi && forall i :: 0 <= i < |vmas| ==> !(vaddr <= vmas[i].start < vaddr + len)
    then Some(Vma(vaddr, vaddr + len)) else None
  }

  /** A granted fixed placement overlaps nothing exactly when no existing area straddles its address. */
  lemma FixedClearIff(vmas: seq<Vma>, vaddr: nat, len: nat, lo: nat, hi: nat)
    requires Ordered(vmas) && 0 < len && FixedAt(vmas, vaddr, len, lo, hi).Some?
    ensures Clear(vmas, vaddr, vaddr + len) <==> NoStraddle(vmas, vaddr)
  {
    if Clear(vmas, vaddr, vaddr + len) {
      forall i | 0 <= i < |vmas| ensures !(vmas[i].start < vaddr < vmas[i].end) {}
    } else {
      var i :| 0 <= i < |vmas| && !(vmas[i].end <= vaddr || vaddr + len <= vmas[i].start);
      assert vmas[i].start < vaddr < vmas[i].end;
    }
  }

  /** An address is granted, and the place is a good one, exactly when the place fits the range and no area straddles
      the address. An address below the range is not refused. */
  lemma FixedFitsIff(vmas: seq<Vma>, vaddr: nat, len: nat, lo: nat, hi: nat)
    requires Ordered(vmas) && 0 < len < hi - lo
    ensures Fits(vmas, vaddr, len, lo, hi)
            <==> && lo <= vaddr && NoStraddle(vmas, vaddr)
                 && FixedAt(vmas, vaddr, len, lo, hi) == Some(Vma(vaddr, vaddr + len))
    ensures vaddr < lo ==> FixedAt(vmas, vaddr, len, lo, hi) == FixedAt(vmas, vaddr, len, 0, hi)
  {
    if FixedAt(vmas, vaddr, len, lo, hi).Some? {
      FixedClearIff(vmas, vaddr, len, lo, hi);
    }
    if Fits(vmas, vaddr, len, lo, hi) {
      forall i | 0 <= i < |vmas|
        ensures !(vaddr <= vmas[i].start < vaddr + len) && !(vmas[i].start < vaddr < vmas[i].end)
      {
        assert vmas[i].start < vmas[i].end;
      }
    }
  }

  /** ... which can fail: one area below the address is not seen. */
  lemma FixedCanOverlap()
    ensures var vmas := [Vma(0x1000, 0x3000)];
            Ordered(vmas) && FixedAt(vmas, 0x2000, 0x1000, 0, MMAP_TOP).Some? && !Clear(vmas, 0x2000, 0x3000)
  {
    var vmas := [Vma(0x1000, 0x3000)];
    assert vmas[0].start < 0x2000 < vmas[0].end;
  }

  /** Insertion into the ordered map: an area with the same start is replaced. */
  function Inserted(vmas: seq<Vma>, v: Vma): seq<Vma>
    requires Ordered(vmas)
  {
    var at := LowerBound(vmas, v.start);
    if at < |vmas| && vmas[at].start == v.start then vmas[at := v]
    else vmas[..at] + [v] + vmas[at..]
  }

  /** Insertion without a check keeps the areas ordered and loses none exactly when the new area
      overlaps none. */
  lemma InsertedSafeIff(vmas: seq<Vma>, v: Vma)
    requires Ordered(vmas) && v.start < v.end
    ensures Clear(vmas, v.start, v.end)
            <==> Ordered(Inserted(vmas, v)) && |Inserted(vmas, v)| == |vmas| + 1
    ensures |Inserted(vmas, v)| == |vmas| + 1 ==> forall w :: w in Inserted(vmas, v) <==> w == v || w in vmas
  {
    var at := LowerBound(vmas, v.start);
    if at < |vmas| && vmas[at].start == v.start {
      assert !(vmas[at].end <= v.start || v.end <= vmas[at].start);
    } else {
      assert Inserted(vmas, v) == vmas[..at] + [v] + vmas[at..];
      InsertedMembers(vmas, v, at);
      hide Ordered, LowerBound, Inserted;
      if Clear(vmas, v.start, v.end) {
        InsertKeepsOrder(vmas, v, at);
      } else {
        InsertOverlaps(vmas, v, at);
      }
    }
  }

  lemma InsertedMembers(vmas: seq<Vma>, v: Vma, at: nat)
    requires at <= |vmas|
    ensures forall w :: w in vmas[..at] + [v] + vmas[at..] <==> w == v || w in vmas
  {
    assert vmas == vmas[..at] + vmas[at..];
  }

  /** ... which can fail: an area that reaches into its neighbour is inserted all the same. */
  lemma InsertCanOverlap()
    ensures var vmas := [Vma(0x1000, 0x3000)];
            && Ordered(vmas) && Inserted(vmas, Vma(0x2000, 0x4000)) == [Vma(0x1000, 0x3000), Vma(0x2000, 0x4000)]
            && !Ordered(Inserted(vmas, Vma(0x2000, 0x4000)))
  {
    var vmas, v := [Vma(0x1000, 0x3000)], Vma(0x2000, 0x4000);
    assert vmas[0].start < v.start;
    assert LowerBound(vmas, v.start) == 1;
    var r := [Vma(0x1000, 0x3000), Vma(0x2000, 0x4000)];
    assert Inserted(vmas, v) == r;
    assert r[0].end > r[1].start;
  }

  lemma InsertOverlaps(vmas: seq<Vma>, v: Vma, at: nat)
    requires Ordered(vmas) && v.start < v.end && !Clear(vmas, v.start, v.end) && at <= |vmas|
    ensures !Ordered(vmas[..at] + [v] + vmas[at..])
  {
    var w := vmas[..at] + [v] + vmas[at..];
    var i :| 0 <= i < |vmas| && !(vmas[i].end <= v.start || v.end <= vmas[i].start);
    assert w[at] == v && w[if i < at then i else i + 1] == vmas[i];
  }

  lemma InsertKeepsOrder(vmas: seq<Vma>, v: Vma, at: nat)
    requires Ordered(vmas) && v.start < v.end && Clear(vmas, v.start, v.end) && at == LowerBound(vmas, v.start)
    ensures Ordered(vmas[..at] + [v] + vmas[at..])
  {
    SplitOrdered(vmas, at);
    var left, right := vmas[..at], vmas[at..];
    forall i | 0 <= i < |left| ensures left[i].end <= v.start {
      assert left[i] == vmas[i];
    }
    forall i | 0 <= i < |right| ensures v.end <= right[i].start {
      assert right[i] == vmas[at + i];
    }
    hide Ordered, Clear, LowerBound;
    JoinOrdered(left, v, right);
  }

  lemma SplitOrdered(vmas: seq<Vma>, at: nat)
    requires Ordered(vmas) && at <= |vmas|
    ensures Ordered(vmas[..at]) && Ordered(vmas[at..])
  {}

  lemma JoinOrdered(left: seq<Vma>, v: Vma, right: seq<Vma>)
    requires Ordered(left) && Ordered(right) && v.start < v.end
    requires forall i :: 0 <= i < |left| ==> left[i].end <= v.start
    requires forall i :: 0 <= i < |right| ==> v.end <= right[i].start
    ensures Ordered(left + [v] + right)
  {
    var w, n := left + [v] + right, |left|;
    forall i, j | 0 <= i < j < |w| ensures w[i].end <= w[j].start {
      assert w[i] == if i < n then left[i] else if i == n then v else right[i - n - 1];
      assert w[j] == if j < n then left[j] else if j == n then v else right[j - n - 1];
    }
  }

  /** An area may grow up to the next one, and whether it does is seen at that one alone. */
  lemma RoomAbove(vmas: seq<Vma>, h: nat, end: nat)
    requires Ordered(vmas) && h < |vmas| && vmas[h].end <= end
    ensures (forall i :: h < i < |vmas| ==> end <= vmas[i].start) <==> (h + 1 < |vmas| ==> end <= vmas[h + 1].start)
    ensures (forall i :: h < i < |vmas| ==> end <= vmas[i].start) ==> Ordered(vmas[h := Vma(vmas[h].start, end)])
  {
    forall i | h + 1 < i < |vmas| ensures vmas[h + 1].start <= vmas[i].start {
      InOrder(vmas, h + 1, i);
    }
  }

  lemma AreaStart(vmas: seq<Vma>, h: nat)
    requires Ordered(vmas) && h < |vmas|
    ensures vmas[h].start < vmas[h].end
  {}

  lemma RemovedAt(vmas: seq<Vma>, at: nat)
    requires Ordered(vmas) && at < |vmas|
    ensures var rest := vmas[..at] + vmas[at + 1..];
            Ordered(rest) && forall w :: w in rest <==> w in vmas && w.start != vmas[at].start
  {
    var rest := vmas[..at] + vmas[at + 1..];
    forall i | 0 <= i < |rest| ensures rest[i] == vmas[if i < at then i else i + 1] {}
    hide Ordered;
    RemovedOrdered(vmas, rest, at);
    forall i | 0 <= i < |vmas| && i != at ensures vmas[i].start != vmas[at].start {
      StartsDiffer(vmas, i, at);
    }
    forall w | w in vmas && w.start != vmas[at].start ensures w in rest {
      var i :| 0 <= i < |vmas| && vmas[i] == w;
      assert rest[if i < at then i else i - 1] == w;
    }
  }

  lemma RemovedOrdered(vmas: seq<Vma>, rest: seq<Vma>, at: nat)
    requires Ordered(vmas) && at < |vmas| && |rest| == |vmas| - 1
    requires forall i :: 0 <= i < |rest| ==> rest[i] == vmas[if i < at then i else i + 1]
    ensures Ordered(rest)
  {}

  lemma StartsDiffer(vmas: seq<Vma>, i: nat, j: nat)
    requires Ordered(vmas) && i < |vmas| && j < |vmas| && i != j
    ensures vmas[i].start != vmas[j].start
  {
    if i < j {
      InOrder(vmas, i, j);
    } else {
      InOrder(vmas, j, i);
    }
  }

  /** What growing the heap comes to; the range it looks over must not run backwards. */
  datatype Growth = Grown | Refused | BackwardRange

  /** The segment that crosses the mmap top also puts the heap, one page behind it, above the top. */
  lemma HeapAboveTop()
    ensures var segment, heap := Vma(0x7FFF000, 0x8001000), Vma(0x8002000, 0x8003000);
            && heap.start == segment.end + 0x1000 > MMAP_TOP && Ordered([segment, heap])
            && FixedAt([segment], heap.start, 0x1000, USER_SPACE_START, USER_SPACE_END) == Some(heap)
            && Inserted([segment], heap) == [segment, heap]
  {
    var segment, heap := Vma(0x7FFF000, 0x8001000), Vma(0x8002000, 0x8003000);
    assert LowerBound([segment], heap.start) == 1 by {
      assert [segment][0].start < heap.start;
    }
  }

  class MmStruct {
    var vmas: seq<Vma>
    var startBrk: nat
    var brk: nat

    predicate Valid()
      reads this
    {
      Ordered(vmas)
    }

    /** Position of the heap area. */
    predicate HeapAt(h: nat)
      reads this
    {
      h < |vmas| && vmas[h] == Vma(startBrk, brk)
    }

    /** Finds a place at an address, or the lowest or highest one of a range. */
    method AllocUnmapped(vaddr: Option<nat>, len: nat, toHigh: bool, lo: nat, hi: nat) returns (r: Search)
      requires Valid() && lo < hi
      ensures vaddr.Some? ==>
                r == match FixedAt(vmas, vaddr.value, len, lo, hi) { case Some(v) => Placed(v) case None => NoGap }
      ensures vaddr.None? ==>
                (r.Underflow? <==> len < hi - lo && Crosses(vmas, lo, hi) && (toHigh ==> NoGapIn(vmas, len, lo, hi)))
      ensures vaddr.None? ==>
                (r.Placed? <==> len < hi - lo && (toHigh || !Crosses(vmas, lo, hi)) && !NoGapIn(vmas, len, lo, hi))
      ensures vaddr.None? && r.Placed? ==>
                && IsPlaced(vmas, len, lo, hi, r.area)
                && if toHigh then NoneBelow(vmas, len, lo, hi, r.area.start)
                   else NoneAbove(vmas, len, lo, hi, r.area.end)
      ensures vaddr.None? && r.Placed? ==>
                (Fits(vmas, r.area.start, len, lo, hi)
                 <==> if toHigh then NoStraddle(vmas, lo) || !Fits(Seen(vmas, lo), lo, len, lo, hi)
                      else exists b: nat :: Fits(vmas, b, len, lo, hi))
    {
      hide Crosses, Fits, NoStraddle, FixedAt, Seen, IsPlaced, NoneBelow, NoneAbove, NoGapIn;
      if vaddr.Some? {
        var fixed := SearchFixed(vmas, vaddr.value, len, lo, hi);
        r := if fixed.Some? then Placed(fixed.value) else NoGap;
      } else if toHigh {
        r := SearchUp(vmas, len, lo, hi);
        if r.Placed? {
          LowestClearIff(vmas, r.area, len, lo, hi);
        }
      } else {
        r := SearchDown(vmas, len, lo, hi);
        if r.Placed? {
          HighestClearIff(vmas, r.area, len, lo, hi);
        }
      }
    }

    /** Inserts under the start address without looking for overlaps. */
    method InsertNoCheck(v: Vma)
      requires Valid() && v.start < v.end
      modifies this`vmas
      ensures vmas == Inserted(old(vmas), v)
      ensures Clear(old(vmas), v.start, v.end) ==> Valid() && forall w :: w in vmas <==> w == v || w in old(vmas)
    {
      InsertedSafeIff(vmas, v);
      vmas := Inserted(vmas, v);
    }

    /** Unmaps the area that starts at `vaddr`, if any, and no other. */
    method DropVma(vaddr: nat) returns (r: Option<Vma>)
      requires Valid()
      modifies this`vmas
      ensures Valid()
      ensures r.Some? ==> r.value in old(vmas) && r.value.start == vaddr
      ensures r.None? ==> forall v :: v in old(vmas) ==> v.start != vaddr
      ensures forall w :: w in vmas <==> w in old(vmas) && w.start != vaddr
    {
      var at := LowerBound(vmas, vaddr);
      if at < |vmas| && vmas[at].start == vaddr {
        r := Some(vmas[at]);
        RemovedAt(vmas, at);
        vmas := vmas[..at] + vmas[at + 1..];
      } else {
        r := None;
      }
    }

    /** Linear search for the area that contains an address; there is at most one. */
    method FindVma(vaddr: nat) returns (r: Option<nat>)
      requires Valid()
      ensures r.Some? ==> r.value < |vmas| && vmas[r.value].start <= vaddr < vmas[r.value].end
      ensures r.Some? ==> forall i :: 0 <= i < |vmas| && i != r.value ==> !(vmas[i].start <= vaddr < vmas[i].end)
      ensures r.None? ==> forall i :: 0 <= i < |vmas| ==> !(vmas[i].start <= vaddr < vmas[i].end)
    {
      for i := 0 to |vmas|
        invariant forall k :: 0 <= k < i ==> !(vmas[k].start <= vaddr < vmas[k].end)
      {
        if vmas[i].start <= vaddr < vmas[i].end {
          return Some(i);
        }
      }
      r := None;
    }

    /** Grows the heap area: granted exactly when the new break stays below the mmap top and no area
        starts before it; only the heap area changes. A heap above the mmap top makes the range run backwards. */
    method ExpandBrk(newBrk: nat, ghost h: nat) returns (r: Growth)
      requires Valid() && HeapAt(h) && brk < newBrk
      modifies this
      ensures Valid() && startBrk == old(startBrk)
      ensures r.BackwardRange? <==> startBrk > MMAP_TOP
      ensures r.Grown? <==> newBrk <= MMAP_TOP && forall i :: h < i < |old(vmas)| ==> newBrk <= old(vmas)[i].start
      ensures r.Grown? ==> HeapAt(h) && brk == newBrk && vmas == old(vmas)[h := Vma(startBrk, newBrk)]
      ensures !r.Grown? ==> vmas == old(vmas) && brk == old(brk)
    {
      hide Ordered, LowerBound;
      AreaStart(vmas, h);
      if startBrk > MMAP_TOP {
        return BackwardRange;
      }
      LowerBoundOf(vmas, h);
      RoomAbove(vmas, h, newBrk);
      var next := LowerBound(vmas, startBrk) + 1;
      if next < LowerBound(vmas, MMAP_TOP) {
        if vmas[next].start < newBrk {
          return Refused;
        }
      } else {
        if newBrk > MMAP_TOP {
          return Refused;
        }
      }
      var heap := FindVma(startBrk);
      vmas := vmas[heap.value := vmas[heap.value].(end := newBrk)];
      brk := newBrk;
      r := Grown;
    }
  }
}
