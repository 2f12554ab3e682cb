/** The growable bitmap behind the buddy allocator (kernel/src/mm/bitmap.rs).

    A `Bitmap` stores 64-bit words. The words represent the set of positions whose
    bit is one; a position past the capacity is simply not a member. */
module Bitmaps {
  import opened Wrappers
  import opened Bits

  const WORD_BITS := 64

  const WORD_LIMIT := 0x1_0000_0000_0000_0000

  predicate IsWords(words: seq<nat>) {
    forall i :: 0 <= i < |words| ==> words[i] < WORD_LIMIT
  }

  lemma WordLimit()
    ensures Pow2(64) == WORD_LIMIT
  {
    Pow2Byte(0); Pow2Byte(8); Pow2Byte(16); Pow2Byte(24);
    Pow2Byte(32); Pow2Byte(40); Pow2Byte(48); Pow2Byte(56);
  }

  lemma {:induction false} AddMaskFitsWord(w: nat, b: nat)
    requires !On(w, b) && b < 64 && w < WORD_LIMIT
    ensures w + Pow2(b) < WORD_LIMIT
  {
    WordLimit();
    AddMaskFits(w, b, 64);
  }

  lemma MaskFits(b: nat)
    requires b < 64
    ensures Pow2(b) < WORD_LIMIT
  {
    WordLimit();
    Pow2Increases(b, 64);
  }

  lemma ClearMaskWord(w: nat, b: nat, c: nat)
    requires b < 64 && c < 64 && Pow2(b) < WORD_LIMIT
    ensures On(And(w, WORD_LIMIT - 1 - Pow2(b)), c) <==> c != b && On(w, c)
  {
    WordLimit();
    ClearMask(w, b, 64, c);
  }

  /** Membership: the meaning of a word vector. */
  predicate Bit(words: seq<nat>, pos: nat) {
    pos / WORD_BITS < |words| && On(words[pos / WORD_BITS], pos % WORD_BITS)
  }

  /** Appending zero words changes no membership. */
  lemma GrowKeepsBits(words: seq<nat>, more: seq<nat>, pos: nat)
    requires forall i :: 0 <= i < |more| ==> more[i] == 0
    ensures Bit(words + more, pos) == Bit(words, pos)
  {
    if |words| <= pos / WORD_BITS < |words + more| {
      OnZero(pos % WORD_BITS);
    }
  }

  /** Adding the mask of a clear bit inserts exactly that position. */
  lemma AddedMaskInserts(words: seq<nat>, pos: nat, q: nat)
    requires pos / WORD_BITS < |words| && !Bit(words, pos)
    ensures Bit(words[pos / WORD_BITS := words[pos / WORD_BITS] + Pow2(pos % WORD_BITS)], q)
            <==> q == pos || Bit(words, q)
  {
    if q / WORD_BITS == pos / WORD_BITS {
      AddMask(words[pos / WORD_BITS], pos % WORD_BITS, q % WORD_BITS);
    }
  }

  /** Masking a word removes exactly one position. */
  lemma ClearedMaskRemoves(words: seq<nat>, pos: nat, q: nat)
    requires pos / WORD_BITS < |words|
    requires Pow2(pos % WORD_BITS) < WORD_LIMIT
    ensures Bit(words[pos / WORD_BITS :=
                      And(words[pos / WORD_BITS], WORD_LIMIT - 1 - Pow2(pos % WORD_BITS))], q)
            <==> q != pos && Bit(words, q)
  {
    if q / WORD_BITS == pos / WORD_BITS {
      ClearMaskWord(words[pos / WORD_BITS], pos % WORD_BITS, q % WORD_BITS);
    }
  }

  /** Word count after `k` doublings. */
  function Doubled(words: nat, k: nat): nat
    decreases k
  {
    if k == 0 then words else Doubled(2 * words, k - 1)
  }

  /** The doubling loop of `expand_cap_for` can reach a position iff the bitmap has a word
      to double: `Bitmap::new(0)` never grows. */
  lemma {:induction false} DoublingReaches(words: nat, target: nat)
    ensures (exists k: nat :: target < WORD_BITS * Doubled(words, k)) <==> words > 0
  {
    if words > 0 {
      var k := DoublingsNeeded(words, target);
      assert target < WORD_BITS * Doubled(words, k);
    } else {
      forall k: nat ensures Doubled(words, k) == 0 {
        ZeroNeverGrows(k);
      }
    }
  }

  /** With no word to double, even position 0 stays out of reach. */
  lemma EmptyNeverReaches()
    ensures forall k: nat :: WORD_BITS * Doubled(0, k) <= 0
  {
    forall k: nat ensures Doubled(0, k) == 0 {
      ZeroNeverGrows(k);
    }
  }

  lemma {:induction false} DoublingsNeeded(words: nat, target: nat) returns (k: nat)
    requires words > 0
    ensures target < WORD_BITS * Doubled(words, k)
    decreases target - words
  {
    if target < WORD_BITS * words {
      k := 0;
    } else {
      k := DoublingsNeeded(2 * words, target);
      k := k + 1;
    }
  }

  lemma {:induction false} ZeroNeverGrows(k: nat)
    ensures Doubled(0, k) == 0
  {
    if k > 0 {
      ZeroNeverGrows(k - 1);
    }
  }

  /** A vector that is long enough keeps its capacity; else it is doubled no further than it takes. */
  predicate IsCapFor(before: nat, after: nat, pos: nat) {
    pos < after && if pos < before then after == before else before <= after <= 2 * pos
  }

  class Bitmap {
    var inner: seq<nat>
    var len: nat

    /** There is a word to double, so every position can be reached. */
    predicate Valid()
      reads this`inner
    {
      |inner| > 0 && IsWords(inner)
    }

    /** The represented set. */
    predicate Has(pos: nat)
      reads this`inner
    {
      Bit(inner, pos)
    }

    function Cap(): nat
      reads this`inner
    {
      |inner| * WORD_BITS
    }

    constructor (n: nat)
      ensures len == n && n <= |inner| * WORD_BITS < n + WORD_BITS
      ensures n > 0 ==> Valid()
      ensures forall p: nat :: !Has(p)
    {
      var cnt := n / 64;
      if n % 64 != 0 {
        cnt := cnt + 1;
      }
      inner := seq(cnt, _ => 0);
      len := n;
      new;
      forall p: nat ensures !Has(p) {
        OnZero(p % WORD_BITS);
      }
    }

    method ExpandCapDouble()
      requires Valid()
      modifies this`inner
      ensures Valid() && |inner| == 2 * old(|inner|)
      ensures forall p: nat :: Has(p) == old(Has(p))
    {
      ghost var before := inner;
      ghost var zeros: seq<nat> := seq(|inner|, _ => 0);
      inner := inner + seq(|inner|, _ => 0);
      assert inner == before + zeros;
      forall p: nat ensures Has(p) == Bit(before, p) {
        GrowKeepsBits(before, zeros, p);
      }
    }

    method ExpandCapFor(target: nat)
      requires Valid()
      modifies this`inner
      ensures Valid() && IsCapFor(old(Cap()), Cap(), target)
      ensures forall p: nat :: Has(p) == old(Has(p))
    {
      while target >= Cap()
        invariant Valid()
        invariant old(Cap()) <= Cap() && (Cap() == old(Cap()) || (old(Cap()) <= target && Cap() <= 2 * target))
        invariant forall p: nat :: Has(p) == old(Has(p))
        decreases target - Cap()
      {
        ExpandCapDouble();
      }
    }

    method AdjustLen(pos: nat)
      modifies this`len
      ensures len == Max(old(len), pos)
    {
      if pos > len {
        len := pos;
      }
    }

    method Set(pos: nat)
      requires Valid()
      modifies this
      ensures Valid() && len == Max(old(len), pos) && IsCapFor(old(Cap()), Cap(), pos)
      ensures forall p: nat :: Has(p) == (p == pos || old(Has(p)))
    {
      hide On, And, Pow2, Bit;
      if pos >= Cap() {
        ExpandCapFor(pos);
      }
      SetWithin(pos);
      AdjustLen(pos);
    }

    method SetWithin(pos: nat)
      requires Valid() && pos < Cap()
      modifies this`inner
      ensures Valid() && |inner| == |old(inner)|
      ensures forall p: nat :: Has(p) == (p == pos || old(Has(p)))
    {
      hide On, And, Pow2;
      var bits := inner[pos / 64];
      var mask := Pow2(pos % 64);
      AndMask(bits, pos % 64);
      if And(bits, mask) == 0 {
        AddMaskFitsWord(bits, pos % 64);
        ghost var before := inner;
        inner := inner[pos / 64 := bits + mask];
        forall p: nat ensures Has(p) == (p == pos || Bit(before, p)) {
          AddedMaskInserts(before, pos, p);
        }
      } else {
        assert Has(pos);
      }
    }

    method Clear(pos: nat)
      requires Valid()
      modifies this
      ensures Valid() && len == Max(old(len), pos) && IsCapFor(old(Cap()), Cap(), pos)
      ensures forall p: nat :: Has(p) == (p != pos && old(Has(p)))
    {
      AdjustLen(pos);
      if pos >= Cap() {
        ExpandCapFor(pos);
        return;
      }
      ghost var before := inner;
      var bits := inner[pos / 64];
      MaskFits(pos % 64);
      var mask := WORD_LIMIT - 1 - Pow2(pos % 64);
      AndFits(bits, mask);
      bits := And(bits, mask);
      inner := inner[pos / 64 := bits];
      forall p: nat ensures Has(p) == (p != pos && Bit(before, p)) {
        ClearedMaskRemoves(before, pos, p);
      }
    }

    /** Reading may grow the vector, but never the set. */
    method Get(pos: nat) returns (r: bool)
      requires Valid()
      modifies this
      ensures Valid() && len == Max(old(len), pos) && IsCapFor(old(Cap()), Cap(), pos)
      ensures r == old(Has(pos))
      ensures forall p: nat :: Has(p) == old(Has(p))
    {
      AdjustLen(pos);
      if pos < Cap() {
        var bits := inner[pos / 64];
        var mask := Pow2(pos % 64);
        AndMask(bits, pos % 64);
        r := And(bits, mask) != 0;
      } else {
        ExpandCapFor(pos);
        r := false;
      }
    }

    method TurnOver(pos: nat)
      requires Valid()
      modifies this
      ensures Valid() && len == Max(old(len), pos) && IsCapFor(old(Cap()), Cap(), pos)
      ensures forall p: nat :: Has(p) == (if p == pos then !old(Has(p)) else old(Has(p)))
    {
      AdjustLen(pos);
      var isSet := Get(pos);
      if isSet {
        Clear(pos);
      } else {
        Set(pos);
      }
    }
  }
}
