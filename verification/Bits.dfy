/** Unsigned words as naturals: powers of two, binary digits, and the `&` of two words. */
module Bits {

  /** `1 << n`. */
  function Pow2(n: nat): (r: nat)
    ensures r > 0
  {
    if n == 0 then 1 else 2 * Pow2(n - 1)
  }

  /** Binary digit `b` of `w`. */
  predicate On(w: nat, b: nat) {
    if b == 0 then w % 2 == 1 else On(w / 2, b - 1)
  }

  /** Bitwise and. */
  function And(x: nat, y: nat): nat {
    if x == 0 then 0 else (if x % 2 == 1 && y % 2 == 1 then 1 else 0) + 2 * And(x / 2, y / 2)
  }

  lemma Pow2Step(n: nat)
    requires n > 0
    ensures Pow2(n) == 2 * Pow2(n - 1)
  {}

  lemma AndStep(x: nat, y: nat)
    ensures And(x, y) == (if x % 2 == 1 && y % 2 == 1 then 1 else 0) + 2 * And(x / 2, y / 2)
  {}

  lemma {:induction false} OnZero(b: nat)
    ensures !On(0, b)
  {
    if b > 0 {
      OnZero(b - 1);
    }
  }

  lemma {:induction false} OnPow2(b: nat, c: nat)
    ensures On(Pow2(b), c) <==> b == c
  {
    if b == 0 {
      if c > 0 {
        OnZero(c - 1);
      }
    } else if c > 0 {
      OnPow2(b - 1, c - 1);
    }
  }

  /** Digits of a bitwise and. */
  lemma {:induction false} OnAnd(x: nat, y: nat, b: nat)
    ensures On(And(x, y), b) <==> On(x, b) && On(y, b)
  {
    if x == 0 {
      OnZero(b);
    } else if b > 0 {
      OnAnd(x / 2, y / 2, b - 1);
    }
  }

  lemma {:induction false} SomeDigit(x: nat) returns (b: nat)
    requires x > 0
    ensures On(x, b)
  {
    if x % 2 == 1 {
      b := 0;
    } else {
      b := SomeDigit(x / 2);
      b := b + 1;
    }
  }

  /** The source's test `w & (1 << b) != 0` reads digit `b`. */
  lemma AndMask(w: nat, b: nat)
    ensures And(w, Pow2(b)) != 0 <==> On(w, b)
  {
    OnPow2(b, b);
    OnAnd(w, Pow2(b), b);
    if And(w, Pow2(b)) != 0 {
      var c := SomeDigit(And(w, Pow2(b)));
      OnAnd(w, Pow2(b), c);
      OnPow2(b, c);
    } else {
      OnZero(b);
    }
  }

  /** Adding the mask of a clear digit sets that digit, keeps the others, and stays in the word. */
  lemma {:induction false} AddMask(w: nat, b: nat, c: nat)
    requires !On(w, b)
    ensures On(w + Pow2(b), c) <==> c == b || On(w, c)
  {
    if b > 0 {
      assert (w + Pow2(b)) / 2 == w / 2 + Pow2(b - 1);
      if c > 0 {
        AddMask(w / 2, b - 1, c - 1);
      }
    } else if c > 0 {
      assert (w + 1) / 2 == w / 2;
    }
  }

  lemma {:induction false} AddMaskFits(w: nat, b: nat, n: nat)
    requires !On(w, b) && b < n && w < Pow2(n)
    ensures w + Pow2(b) < Pow2(n)
  {
    assert Pow2(n) == 2 * Pow2(n - 1);
    if b > 0 {
      AddMaskFits(w / 2, b - 1, n - 1);
      assert w / 2 + Pow2(b - 1) < Pow2(n - 1);
    }
  }

  lemma {:induction false} Pow2Increases(b: nat, n: nat)
    requires b < n
    ensures 2 * Pow2(b) <= Pow2(n)
  {
    if b + 1 < n {
      Pow2Increases(b, n - 1);
    }
  }

  lemma Pow2Byte(n: nat)
    ensures Pow2(n + 8) == 256 * Pow2(n)
  {
    assert Pow2(n + 4) == 16 * Pow2(n) by {
      assert Pow2(n + 2) == 4 * Pow2(n);
    }
    assert Pow2(n + 8) == 16 * Pow2(n + 4) by {
      assert Pow2(n + 6) == 4 * Pow2(n + 4);
    }
  }

  /** Digits of the `n`-bit complement. */
  lemma {:induction false} OnComplement(m: nat, n: nat, c: nat)
    requires m < Pow2(n) && c < n
    ensures On(Pow2(n) - 1 - m, c) <==> !On(m, c)
  {
    Pow2Step(n);
    var s := Pow2(n - 1);
    HalfComplement(m, s);
    hide Pow2;
    if c > 0 {
      OnComplement(m / 2, n - 1, c - 1);
    }
  }

  lemma HalfComplement(m: nat, s: nat)
    requires m < 2 * s
    ensures (2 * s - 1 - m) / 2 == s - 1 - m / 2 && (2 * s - 1 - m) % 2 == 1 - m % 2 && m / 2 < s
  {
    assert m == 2 * (m / 2) + m % 2;
    assert 2 * s - 1 - m == 2 * (s - 1 - m / 2) + (1 - m % 2);
  }

  /** `w & !(1 << b)` clears digit `b` and keeps the other digits of the word. */
  lemma ClearMask(w: nat, b: nat, n: nat, c: nat)
    requires b < n && c < n && Pow2(b) < Pow2(n)
    ensures On(And(w, Pow2(n) - 1 - Pow2(b)), c) <==> c != b && On(w, c)
  {
    OnAnd(w, Pow2(n) - 1 - Pow2(b), c);
    OnComplement(Pow2(b), n, c);
    OnPow2(b, c);
  }

  lemma {:induction false} AndFits(x: nat, y: nat)
    ensures And(x, y) <= x
  {
    if x > 0 {
      AndFits(x / 2, y / 2);
    }
  }

  /** Bitwise or. */
  function Or(x: nat, y: nat): nat
    decreases x
  {
    if x == 0 then y else (if x % 2 == 1 || y % 2 == 1 then 1 else 0) + 2 * Or(x / 2, y / 2)
  }

  lemma {:induction false} OnOr(x: nat, y: nat, b: nat)
    ensures On(Or(x, y), b) <==> On(x, b) || On(y, b)
    decreases x
  {
    if x == 0 {
      OnZero(b);
    } else if b > 0 {
      OnOr(x / 2, y / 2, b - 1);
    }
  }

  lemma ModHalf(x: nat, s: nat)
    requires s > 0
    ensures x % (2 * s) == x % 2 + 2 * (x / 2 % s)
  {
    var q, r := x / 2 / s, x / 2 % s;
    assert x / 2 == s * q + r;
    assert x == (2 * s) * q + (2 * r + x % 2);
    ModUnique(x, 2 * s, q, 2 * r + x % 2);
  }

  lemma ModUnique(x: nat, d: nat, q: nat, r: nat)
    requires r < d && x == d * q + r
    ensures x % d == r && x / d == q
  {
    var k := q - x / d;
    assert x == d * (x / d) + x % d;
    assert d * k == d * q - d * (x / d);
    assert k >= 1 ==> d * k >= d;
    assert k <= -1 ==> d * k <= 0 - d;
  }

  /** Masking with `n` low ones keeps the remainder. */
  lemma DivDiv(w: nat, p: nat)
    requires p > 0
    ensures w / 2 / p == w / (2 * p)
  {
    var q, r := w / 2 / p, w / 2 % p;
    assert w == 2 * (p * q + r) + w % 2;
    assert 2 * (p * q) == 2 * p * q;
    ModUnique(w, 2 * p, q, 2 * r + w % 2);
  }

  /** Dividing by the mask brings its digit down. */
  lemma {:induction false} OnAt(w: nat, b: nat)
    ensures On(w, b) <==> w / Pow2(b) % 2 == 1
  {
    if b > 0 {
      OnAt(w / 2, b - 1);
      DivDiv(w, Pow2(b - 1));
    }
  }

  /** The remainder keeps the low digits. */
  lemma {:induction false} OnLow(w: nat, n: nat, b: nat)
    requires b < n
    ensures On(w % Pow2(n), b) <==> On(w, b)
  {
    var p := Pow2(n - 1);
    ModHalf(w, p);
    HalfOf(w % Pow2(n), w / 2 % p, w % 2);
    if b > 0 {
      OnLow(w / 2, n - 1, b - 1);
    }
    hide Pow2;
  }

  lemma HalfOf(x: nat, h: nat, r: nat)
    requires x == 2 * h + r && r < 2
    ensures x / 2 == h && x % 2 == r
  {}

  /** Digits of two numbers put together. */
  lemma {:induction false} OnJoin(lo: nat, hi: nat, n: nat, b: nat)
    requires lo < Pow2(n)
    ensures On(lo + Pow2(n) * hi, b) <==> if b < n then On(lo, b) else On(hi, b - n)
  {
    if n > 0 {
      var p := Pow2(n - 1);
      assert Pow2(n) * hi == 2 * (p * hi);
      HalfOf(lo + Pow2(n) * hi, lo / 2 + p * hi, lo % 2);
      if b > 0 {
        OnJoin(lo / 2, hi, n - 1, b - 1);
      }
      hide Pow2;
    }
  }

  lemma SmallPow2()
    ensures Pow2(1) == 2 && Pow2(2) == 4 && Pow2(3) == 8 && Pow2(4) == 16 && Pow2(5) == 32 && Pow2(6) == 64
    ensures Pow2(7) == 0x80 && Pow2(8) == 0x100 && Pow2(12) == 0x1000 && Pow2(15) == 0x8000 && Pow2(16) == 0x1_0000
  {
    Pow2Byte(4);
    Pow2Byte(7);
    Pow2Byte(8);
  }

  lemma {:induction false} AndLow(x: nat, n: nat)
    ensures And(x, Pow2(n) - 1) == x % Pow2(n)
  {
    if n == 0 {
      AndZero(x);
    } else {
      hide And, Pow2;
      var s := Pow2(n - 1);
      Pow2Step(n);
      AndLow(x / 2, n - 1);
      ModHalf(x, s);
      HalfComplement(0, s);
      AndStep(x, 2 * s - 1);
    }
  }

  lemma {:induction false} AndZero(x: nat)
    ensures And(x, 0) == 0
  {
    if x > 0 {
      AndZero(x / 2);
    }
  }

  /** Masking an `m`-bit word with the ones above position `n` drops the remainder. */
  lemma {:induction false} AndHigh(x: nat, n: nat, m: nat)
    requires n <= m && x < Pow2(m) && Pow2(n) <= Pow2(m) && x % Pow2(n) <= x
    ensures And(x, Pow2(m) - Pow2(n)) == x - x % Pow2(n)
  {
    if n == 0 {
      AndLow(x, m);
      ModUnique(x, Pow2(m), 0, x);
    } else {
      hide And, Pow2;
      var s, w := Pow2(n - 1), Pow2(m - 1);
      Pow2Step(n);
      Pow2Step(m);
      ModHalf(x, s);
      HalfFits(x, s, w);
      AndHigh(x / 2, n - 1, m - 1);
      AndStep(x, 2 * w - 2 * s);
    }
  }

  lemma HalfFits(x: nat, s: nat, w: nat)
    requires s > 0 && x < 2 * w && s <= w && x % (2 * s) == x % 2 + 2 * (x / 2 % s)
    ensures x / 2 < w && x / 2 % s <= x / 2
    ensures (2 * w - 2 * s) % 2 == 0 && (2 * w - 2 * s) / 2 == w - s
    ensures x - x % (2 * s) == 2 * (x / 2 - x / 2 % s)
  {
    assert x == 2 * (x / 2) + x % 2;
    ModAtMost(x / 2, s);
  }

  lemma ModAtMost(x: nat, d: nat)
    requires d > 0
    ensures x % d <= x
  {
    assert x == d * (x / d) + x % d;
  }

  /** Or-ing digits that do not overlap adds them. */
  lemma {:induction false} OrDisjoint(x: nat, y: nat, n: nat)
    requires x % Pow2(n) == 0 && y < Pow2(n)
    ensures Or(x, y) == x + y
  {
    if x == 0 {
    } else if n == 0 {
      OrZero(x);
    } else {
      ModHalf(x, Pow2(n - 1));
      OrDisjoint(x / 2, y / 2, n - 1);
    }
  }

  lemma {:induction false} OrZero(x: nat)
    ensures Or(x, 0) == x
  {
    if x > 0 {
      OrZero(x / 2);
    }
  }

  // ----- rotating checksums

  /** A word of values below `2 * half`, rotated right by one bit. */
  function Rotate(half: nat, s: nat): (r: nat)
    requires s < 2 * half
    ensures r < 2 * half
  {
    (if s % 2 == 1 then half else 0) + s / 2
  }

  lemma {:induction false} OffAbove(w: nat, n: nat)
    requires w < Pow2(n)
    ensures !On(w, n)
  {
    if n > 0 {
      OffAbove(w / 2, n - 1);
    }
  }

  /** Rotating moves each digit one place down and the lowest to the top. */
  lemma OnRotate(n: nat, s: nat, b: nat)
    requires s < 2 * Pow2(n) && b <= n
    ensures On(Rotate(Pow2(n), s), b) <==> On(s, if b < n then b + 1 else 0)
  {
    OffAbove(s / 2, n);
    AddMask(s / 2, n, b);
  }

  lemma RotationsDiffer(half: nat, s: nat, t: nat)
    requires s < 2 * half && t < 2 * half && s != t
    ensures Rotate(half, s) != Rotate(half, t)
  {
    assert s / 2 < half && t / 2 < half && s == 2 * (s / 2) + s % 2 && t == 2 * (t / 2) + t % 2;
  }

  lemma ModOnce(x: nat, m: nat)
    requires x < 2 * m
    ensures x % m == if x < m then x else x - m
  {
    ModUnique(x, m, if x < m then 0 else 1, if x < m then x else x - m);
  }

  /** Wrapping sums with one summand in common and the other not are different. */
  lemma SumsDiffer(m: nat, r: nat, q: nat, a: nat, b: nat)
    requires r < m && q < m && a < m && b < m && (r == q) != (a == b)
    ensures (r + a) % m != (q + b) % m
  {
    ModOnce(r + a, m);
    ModOnce(q + b, m);
  }
}
