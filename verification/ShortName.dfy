/** Generating an 8.3 name for a new directory entry (deps/rust-fatfs/src/dir.rs): the name itself if it
    fits, else a numbered prefix, else a numbered prefix and checksum, retried with other checksums. */
module ShortNames {
  import opened Wrappers
  import opened Bits
  import LongNames

  const SFN_PADDING: Byte := 0x20
  const TILDE: Byte := 0x7E
  const UNDERSCORE: Byte := 0x5F
  const SUMS := 0x1_0000

  type Sfn = s: seq<Byte> | |s| == LongNames.SFN_SIZE witness seq(LongNames.SFN_SIZE, i => SFN_PADDING)

  // ----- hexadecimal

  function HexDigit(v: nat): Byte
    requires v < 16
  {
    if v < 10 then (0x30 + v) as Byte else (0x37 + v) as Byte
  }

  function U16ToHex(x: nat): (r: seq<Byte>)
    requires x < SUMS
    ensures |r| == 4
  {
    [HexDigit(x / 0x1000 % 16), HexDigit(x / 0x100 % 16), HexDigit(x / 0x10 % 16), HexDigit(x % 16)]
  }

  function DigitValue(b: Byte, radix: nat): (r: Option<nat>)
    ensures r.Some? ==> r.value < radix
  {
    var v :=
      if 0x30 <= b <= 0x39 then b as int - 0x30
      else if 0x41 <= b <= 0x5A then b as int - 0x37
      else if 0x61 <= b <= 0x7A then b as int - 0x57
      else radix;
    if v < radix then Some(v) else None
  }

  function Pow16(n: nat): nat {
    if n == 0 then 1 else 16 * Pow16(n - 1)
  }

  function ParseDigits(s: seq<Byte>): (r: Option<nat>)
    ensures r.Some? ==> r.value < Pow16(|s|)
  {
    if s == [] then Some(0)
    else
      var high, low := ParseDigits(s[..|s| - 1]), DigitValue(s[|s| - 1], 16);
      if high.Some? && low.Some? then Some(16 * high.value + low.value) else None
  }

  /** Hexadecimal as the library parses it: a plus sign is allowed. */
  function ParseHex(s: seq<Byte>): (r: Option<nat>)
    requires |s| == 4
    ensures r.Some? ==> r.value < SUMS
  {
    assert Pow16(3) == 0x1000 && Pow16(4) == SUMS;
    if s[0] == 0x2B then ParseDigits(s[1..]) else ParseDigits(s)
  }

  /** A plus sign reads as a zero. */
  lemma PlusIsZero(s: seq<Byte>)
    requires |s| == 3
    ensures ParseHex([0x2B] + s) == ParseHex([0x30] + s)
  {
    assert ([0x2B] + s)[1..] == s;
    ZeroInFront(s);
  }

  lemma {:induction false} ZeroInFront(s: seq<Byte>)
    ensures ParseDigits([0x30] + s) == ParseDigits(s)
  {
    if s == [] {
      ParseOne([], 0x30);
      assert [] + [0x30 as Byte] == [0x30] + s;
    } else {
      var init, last := s[..|s| - 1], s[|s| - 1];
      ZeroInFront(init);
      ParseOne(init, last);
      ParseOne([0x30] + init, last);
      assert init + [last] == s && [0x30] + init + [last] == [0x30] + s;
    }
  }

  lemma ParseOne(s: seq<Byte>, b: Byte)
    ensures ParseDigits([]) == Some(0)
    ensures ParseDigits(s + [b])
            == if ParseDigits(s).Some? && DigitValue(b, 16).Some?
               then Some(16 * ParseDigits(s).value + DigitValue(b, 16).value) else None
  {
    assert (s + [b])[..|s|] == s;
  }

  lemma FourDigits(a: nat, b: nat, c: nat, d: nat)
    requires a < 16 && b < 16 && c < 16 && d < 16
    ensures ParseHex([HexDigit(a), HexDigit(b), HexDigit(c), HexDigit(d)])
            == Some(0x1000 * a + 0x100 * b + 0x10 * c + d)
  {
    hide HexDigit, DigitValue, ParseDigits;
    HexValue(a); HexValue(b); HexValue(c); HexValue(d);
    var one, two, three := [HexDigit(a)], [HexDigit(a), HexDigit(b)], [HexDigit(a), HexDigit(b), HexDigit(c)];
    ParseOne([], HexDigit(a));
    ParseOne(one, HexDigit(b));
    ParseOne(two, HexDigit(c));
    ParseOne(three, HexDigit(d));
    assert [] + [HexDigit(a)] == one && one + [HexDigit(b)] == two && two + [HexDigit(c)] == three;
    assert three + [HexDigit(d)] == [HexDigit(a), HexDigit(b), HexDigit(c), HexDigit(d)];
  }

  lemma HexRoundTrip(x: nat)
    requires x < SUMS
    ensures ParseHex(U16ToHex(x)) == Some(x)
  {
    hide ParseHex, HexDigit;
    FourDigits(x / 0x1000 % 16, x / 0x100 % 16, x / 0x10 % 16, x % 16);
    Nibbles(x);
  }

  lemma Nibbles(x: nat)
    requires x < SUMS
    ensures x == 0x1000 * (x / 0x1000 % 16) + 0x100 * (x / 0x100 % 16) + 0x10 * (x / 0x10 % 16) + x % 16
  {
    var y := x / 0x10;
    var z := y / 0x10;
    assert x / 0x100 == z;
    assert x / 0x1000 == z / 0x10;
  }

  lemma HexValue(v: nat)
    requires v < 16
    ensures DigitValue(HexDigit(v), 16) == Some(v) && HexDigit(v) != 0x2B
  {}

  // ----- copying a part of the name

  /** Characters an 8.3 name may hold, before upper-casing. */
  predicate Allowed(c: char) {
    'A' <= c <= 'Z' || 'a' <= c <= 'z' || '0' <= c <= '9'
    || c in {'!', '#', '$', '%', '&', '\'', '(', ')', '-', '@', '^', '_', '`', '{', '}', '~'}
  }

  /** Printable ASCII but for sixteen marks. */
  lemma AllowedIff(c: char)
    ensures Allowed(c)
            <==> 0x21 <= c as int <= 0x7E
                 && c !in {'"', '*', '+', ',', '.', '/', ':', ';', '<', '=', '>', '?', '[', '\\', ']', '|'}
  {}

  /** What an 8.3 name is made of: printable bytes, no dot and no small letter. */
  predicate IsNameByte(b: Byte) {
    0x21 <= b <= 0x7E && b != 0x2E && !(0x61 <= b <= 0x7A)
  }

  function Upper(c: char): (b: Byte)
    requires Allowed(c)
    ensures IsNameByte(b)
  {
    if 'a' <= c <= 'z' then (c as int - 0x20) as Byte else c as int as Byte
  }

  predicate SameLetter(c: char, d: char) {
    || c == d
    || ('a' <= c <= 'z' && c as int - d as int == 'a' as int - 'A' as int)
    || ('a' <= d <= 'z' && d as int - c as int == 'a' as int - 'A' as int)
  }

  lemma UpperIff(c: char, d: char)
    requires Allowed(c) && Allowed(d)
    ensures Upper(c) == Upper(d) <==> SameLetter(c, d)
    ensures Upper(c) as int == c as int <==> !('a' <= c <= 'z')
  {}

  predicate Dropped(c: char) {
    c == ' ' || c == '.'
  }

  /** What a name leaves in an 8.3 name that has the room: no spaces, no dots, an underscore for each other character
      that is not allowed, and capitals. */
  function Cleaned(src: string): (r: seq<Byte>)
    ensures |r| <= |src| && forall i :: 0 <= i < |r| ==> IsNameByte(r[i])
  {
    if src == [] then []
    else
      var last := src[|src| - 1];
      Cleaned(src[..|src| - 1]) + if Dropped(last) then [] else [if Allowed(last) then Upper(last) else UNDERSCORE]
  }

  function Padded(bytes: seq<Byte>, width: nat): (r: seq<Byte>)
    ensures |r| == width
  {
    var n := Min(|bytes|, width);
    bytes[..n] + seq(width - n, i => SFN_PADDING)
  }

  lemma {:induction false} CleanedJoins(a: string, b: string)
    ensures Cleaned(a + b) == Cleaned(a) + Cleaned(b)
    decreases |b|
  {
    if b == [] {
      assert a + b == a;
    } else {
      CleanedJoins(a, b[..|b| - 1]);
      assert (a + b)[..|a + b| - 1] == a + b[..|b| - 1];
    }
  }

  lemma {:induction false} CleanedAll(src: string)
    requires AllAllowed(src)
    ensures |Cleaned(src)| == |src| && forall i :: 0 <= i < |src| ==> Cleaned(src)[i] == Upper(src[i])
  {
    hide Allowed;
    if src != [] {
      var init := src[..|src| - 1];
      assert AllAllowed(init);
      CleanedAll(init);
      assert Allowed(src[|src| - 1]) && !Dropped(src[|src| - 1]) by {
        AllowedIff(src[|src| - 1]);
      }
    }
  }

  predicate SameButForCase(a: string, b: string) {
    |a| == |b| && forall i :: 0 <= i < |a| ==> SameLetter(a[i], b[i])
  }

  lemma CleanedSameLetter(c: char, d: char)
    requires SameLetter(c, d)
    ensures Cleaned([c]) == Cleaned([d])
  {
    assert [c][..0] == [] && [d][..0] == [];
    AllowedIff(c);
    AllowedIff(d);
  }

  /** Case makes no difference to an 8.3 name; between names of allowed characters nothing else makes none. */
  lemma {:induction false} CaseDoesNotMatter(a: string, b: string)
    ensures SameButForCase(a, b) ==> Cleaned(a) == Cleaned(b)
    ensures AllAllowed(a) && AllAllowed(b) && Cleaned(a) == Cleaned(b) ==> SameButForCase(a, b)
    decreases |a|
  {
    hide SameLetter, Allowed, Dropped;
    if SameButForCase(a, b) && a != [] {
      var n := |a| - 1;
      CaseDoesNotMatter(a[..n], b[..n]);
      CleanedSameLetter(a[n], b[n]);
      CleanedJoins(a[..n], [a[n]]);
      CleanedJoins(b[..n], [b[n]]);
      assert a[..n] + [a[n]] == a && b[..n] + [b[n]] == b;
    }
    if AllAllowed(a) && AllAllowed(b) && Cleaned(a) == Cleaned(b) {
      CleanedAll(a);
      CleanedAll(b);
      forall i | 0 <= i < |a| ensures SameLetter(a[i], b[i]) {
        UpperIff(a[i], b[i]);
      }
    }
  }

  /** A part of an 8.3 name: a row of name bytes, then padding. */
  predicate IsPart(part: seq<Byte>, len: nat) {
    && len <= |part|
    && (forall i :: 0 <= i < len ==> IsNameByte(part[i]))
    && (forall i :: len <= i < |part| ==> part[i] == SFN_PADDING)
  }

  /** The part spells the source, letter for letter, but for upper-casing. */
  predicate Spells(part: seq<Byte>, len: nat, src: string) {
    len == |src| <= |part| && forall i :: 0 <= i < len ==> Allowed(src[i]) && part[i] == Upper(src[i])
  }

  predicate AllAllowed(src: string) {
    forall i :: 0 <= i < |src| ==> Allowed(src[i])
  }

  /** There is room left when the copy comes to character `i`. */
  predicate HasRoomAt(width: nat, src: string, i: nat)
    requires i <= |src|
  {
    |Cleaned(src[..i])| < width
  }

  lemma PaddedOne(bytes: seq<Byte>, b: Byte, width: nat)
    requires |bytes| < width
    ensures Padded(bytes, width)[|bytes| := b] == Padded(bytes + [b], width)
  {}

  lemma PaddedFull(bytes: seq<Byte>, more: seq<Byte>, width: nat)
    requires |bytes| == width
    ensures Padded(bytes + more, width) == Padded(bytes, width)
  {}

  lemma CleanedOne(src: string, i: nat)
    requires i < |src|
    ensures Cleaned(src[..i + 1])
            == if Dropped(src[i]) then Cleaned(src[..i])
               else Cleaned(src[..i]) + [if Allowed(src[i]) then Upper(src[i]) else UNDERSCORE]
  {
    assert src[..i + 1][..i] == src[..i];
  }

  lemma {:induction false} CleanedGrows(src: string, i: nat, j: nat)
    requires i <= j <= |src|
    ensures |Cleaned(src[..i])| <= |Cleaned(src[..j])|
  {
    CleanedJoins(src[..i], src[i..j]);
    assert src[..i] + src[i..j] == src[..j];
  }

  lemma Fits(width: nat, src: string)
    requires AllAllowed(src)
    ensures (forall i :: 0 <= i < |src| ==> HasRoomAt(width, src, i)) <==> |src| <= width
  {
    hide Cleaned, Allowed;
    forall i | 0 <= i <= |src| ensures |Cleaned(src[..i])| == i {
      CleanedAll(src[..i]);
    }
    if |src| > width {
      assert !HasRoomAt(width, src, width);
    }
  }

  /** Copies what an 8.3 name can hold: the cleaned source, cut or padded. It fits if there is room left at every
      character; it is lossy if one that there was room for is not allowed. */
  method CopyShortNamePart(width: nat, src: string) returns (part: seq<Byte>, len: nat, fits: bool, lossy: bool)
    ensures part == Padded(Cleaned(src), width) && len == Min(|Cleaned(src)|, width)
    ensures fits <==> forall i :: 0 <= i < |src| ==> HasRoomAt(width, src, i)
    ensures lossy <==> exists i :: 0 <= i < |src| && HasRoomAt(width, src, i) && !Allowed(src[i])
    ensures |part| == width && IsPart(part, len)
    ensures fits && !lossy <==> |src| <= width && AllAllowed(src)
    ensures fits && !lossy ==> Spells(part, len, src)
  {
    hide Cleaned, Allowed, Upper, Padded, IsNameByte;
    part := seq(width, i => SFN_PADDING);
    len, lossy := 0, false;
    NothingCopied(width, src);
    for i := 0 to |src|
      invariant part == Padded(Cleaned(src[..i]), width) && len == |Cleaned(src[..i])| <= width
      invariant forall j :: 0 <= j < i ==> HasRoomAt(width, src, j)
      invariant lossy <==> exists j :: 0 <= j < i && !Allowed(src[j])
    {
      if len == width {
        fits := false;
        CopyStops(width, src, i);
        return;
      }
      var c := src[i];
      CleanedOne(src, i);
      NotAllowed(c);
      if c == ' ' || c == '.' {
        lossy := true;
        assert !Allowed(src[i]);
        continue;
      }
      var fixed := if Allowed(c) then c else '_';
      lossy := lossy || fixed != c;
      PaddedOne(Cleaned(src[..i]), Upper(fixed), width);
      part := part[len := Upper(fixed)];
      len := len + 1;
    }
    assert src[..|src|] == src;
    fits := true;
    CopyEnds(width, src);
  }

  lemma NotAllowed(c: char)
    ensures Dropped(c) ==> !Allowed(c)
    ensures Allowed('_') && Upper('_') == UNDERSCORE
  {}

  lemma NothingCopied(width: nat, src: string)
    ensures Cleaned(src[..0]) == [] && seq(width, i => SFN_PADDING) == Padded([], width)
  {}

  lemma PaddedIsPart(bytes: seq<Byte>, width: nat)
    requires forall i :: 0 <= i < |bytes| ==> IsNameByte(bytes[i])
    ensures IsPart(Padded(bytes, width), Min(|bytes|, width))
  {}

  lemma CopyStops(width: nat, src: string, i: nat)
    requires i < |src| && |Cleaned(src[..i])| == width
    ensures Padded(Cleaned(src), width) == Padded(Cleaned(src[..i]), width) && |Cleaned(src)| >= width
    ensures IsPart(Padded(Cleaned(src), width), width)
    ensures !HasRoomAt(width, src, i) && forall j :: i <= j < |src| ==> !HasRoomAt(width, src, j)
    ensures AllAllowed(src) ==> |src| > width
  {
    hide Cleaned, Allowed, IsPart;
    CleanedJoins(src[..i], src[i..]);
    assert src[..i] + src[i..] == src;
    PaddedFull(Cleaned(src[..i]), Cleaned(src[i..]), width);
    PaddedIsPart(Cleaned(src), width);
    forall j | i <= j < |src| ensures !HasRoomAt(width, src, j) {
      CleanedGrows(src, i, j);
    }
    if AllAllowed(src) {
      Fits(width, src);
    }
  }

  lemma CopyEnds(width: nat, src: string)
    requires |Cleaned(src)| <= width && forall j :: 0 <= j < |src| ==> HasRoomAt(width, src, j)
    ensures IsPart(Padded(Cleaned(src), width), |Cleaned(src)|)
    ensures AllAllowed(src) ==> |src| <= width && Spells(Padded(Cleaned(src), width), |Cleaned(src)|, src)
  {
    hide Cleaned, Allowed, IsPart;
    PaddedIsPart(Cleaned(src), width);
    if AllAllowed(src) {
      CleanedAll(src);
    }
  }

  // ----- collisions

  /** Prefix, tilde, digit, padding, extension. */
  function Numbered(prefix: seq<Byte>, digit: nat, ext: seq<Byte>): (r: Sfn)
    requires |prefix| <= 6 && digit <= 9 && |ext| == 3
  {
    prefix + [TILDE, (0x30 + digit) as Byte] + seq(6 - |prefix|, i => SFN_PADDING) + ext
  }

  /** `s` takes number `digit` of the long-prefix form. */
  predicate TakesLong(own: Sfn, len: nat, s: Sfn, digit: nat)
    requires len <= 8
  {
    var p := Min(len, 6);
    s[p] == TILDE && DigitValue(s[p + 1], 10) == Some(digit) && s[..p] == own[..p] && s[8..] == own[8..]
  }

  /** The number and checksum that `s` takes of the checksum form: one of each at most. */
  function TakesSum(own: Sfn, len: nat, s: Sfn): (r: Option<(nat, nat)>)
    requires len <= 8
    ensures r.Some? ==> r.value.0 < SUMS && r.value.1 <= 9
  {
    var p := Min(len, 2);
    if s[p + 4] == TILDE && DigitValue(s[p + 5], 10).Some? && s[..p] == own[..p] && s[8..] == own[8..]
       && ParseHex(s[p..p + 4]).Some?
    then Some((ParseHex(s[p..p + 4]).value, DigitValue(s[p + 5], 10).value))
    else None
  }

  function LongForm(own: Sfn, len: nat, digit: nat): Sfn
    requires len <= 8 && digit <= 9
  {
    Numbered(own[..Min(len, 6)], digit, own[8..])
  }

  function SumForm(own: Sfn, len: nat, sum: nat, digit: nat): Sfn
    requires len <= 8 && digit <= 9 && sum < SUMS
  {
    Numbered(own[..Min(len, 2)] + U16ToHex(sum), digit, own[8..])
  }

  lemma NumberedParts(prefix: seq<Byte>, digit: nat, ext: seq<Byte>)
    requires |prefix| <= 6 && digit <= 9 && |ext| == 3
    ensures var s := Numbered(prefix, digit, ext);
            && s[..|prefix|] == prefix && s[|prefix|] == TILDE && s[8..] == ext
            && DigitValue(s[|prefix| + 1], 10) == Some(digit)
  {}

  lemma LongFormTakes(own: Sfn, len: nat, digit: nat)
    requires len <= 8 && digit <= 9
    ensures TakesLong(own, len, LongForm(own, len, digit), digit)
  {
    hide DigitValue, Numbered;
    NumberedParts(own[..Min(len, 6)], digit, own[8..]);
  }

  lemma SumFormTakes(own: Sfn, len: nat, sum: nat, digit: nat)
    requires len <= 8 && digit <= 9 && sum < SUMS
    ensures TakesSum(own, len, SumForm(own, len, sum, digit)) == Some((sum, digit))
  {
    hide DigitValue, Numbered, U16ToHex, ParseHex;
    var p := Min(len, 2);
    var prefix := own[..p] + U16ToHex(sum);
    NumberedParts(prefix, digit, own[8..]);
    HexRoundTrip(sum);
    var s := SumForm(own, len, sum, digit);
    assert s[..p] == s[..p + 4][..p] && s[p..p + 4] == s[..p + 4][p..];
  }

  ghost predicate LongTaken(own: Sfn, len: nat, seen: seq<Sfn>, digit: nat)
    requires len <= 8
  {
    exists i :: 0 <= i < |seen| && TakesLong(own, len, seen[i], digit)
  }

  ghost predicate SumTaken(own: Sfn, len: nat, seen: seq<Sfn>, sum: nat, digit: nat)
    requires len <= 8
  {
    exists i :: 0 <= i < |seen| && TakesSum(own, len, seen[i]) == Some((sum, digit))
  }

  lemma LongTakenOne(own: Sfn, len: nat, seen: seq<Sfn>, s: Sfn, digit: nat)
    requires len <= 8
    ensures LongTaken(own, len, seen + [s], digit)
            <==> LongTaken(own, len, seen, digit) || TakesLong(own, len, s, digit)
  {
    hide TakesLong;
    var more := seen + [s];
    assert more[|seen|] == s && forall i :: 0 <= i < |seen| ==> more[i] == seen[i];
  }

  lemma SumTakenOne(own: Sfn, len: nat, seen: seq<Sfn>, s: Sfn, sum: nat, digit: nat)
    requires len <= 8
    ensures SumTaken(own, len, seen + [s], sum, digit)
            <==> SumTaken(own, len, seen, sum, digit) || TakesSum(own, len, s) == Some((sum, digit))
  {
    hide TakesSum;
    var more := seen + [s];
    assert more[|seen|] == s && forall i :: 0 <= i < |seen| ==> more[i] == seen[i];
  }

  // ----- the generator

  function LastDot(name: string, n: nat): (r: Option<nat>)
    requires n <= |name|
    ensures r.Some? ==> 1 <= r.value < n && name[r.value] == '.' && forall i :: r.value < i < n ==> name[i] != '.'
    ensures r.None? ==> forall i :: 1 <= i < n ==> name[i] != '.'
  {
    if n <= 1 then None else if name[n - 1] == '.' then Some(n - 1) else LastDot(name, n - 1)
  }

  /** Up to the last dot; a leading dot does not start an extension. */
  function Base(name: string): string {
    var dot := LastDot(name, |name|);
    if dot.Some? then name[..dot.value] else name
  }

  function Extension(name: string): string {
    var dot := LastDot(name, |name|);
    if dot.Some? then name[dot.value + 1..] else []
  }

  /** Base and extension, cleaned, cut and padded to eight and three. */
  function ShortOf(name: string): Sfn {
    Padded(Cleaned(Base(name)), 8) + Padded(Cleaned(Extension(name)), 3)
  }

  /** Names that differ in case only have the same 8.3 name. */
  lemma ShortOfSame(a: string, b: string)
    requires SameButForCase(a, b)
    ensures ShortOf(a) == ShortOf(b)
  {
    hide Cleaned, Padded, LastDot, SameLetter;
    SameDots(a, b, |a|);
    CaseDoesNotMatter(Base(a), Base(b));
    CaseDoesNotMatter(Extension(a), Extension(b));
  }

  lemma {:induction false} SameDots(a: string, b: string, n: nat)
    requires SameButForCase(a, b) && n <= |a|
    ensures LastDot(a, n) == LastDot(b, n)
  {
    if n > 1 {
      SameDots(a, b, n - 1);
      assert SameLetter(a[n - 1], b[n - 1]);
    }
  }

  lemma NoExtension()
    ensures Padded(Cleaned([]), 3) == [SFN_PADDING, SFN_PADDING, SFN_PADDING] && IsPart(Padded(Cleaned([]), 3), 0)
  {}

  method SplitName(name: string) returns (own: Sfn, len: nat, fits: bool, lossy: bool)
    requires name != []
    ensures own == ShortOf(name) && len == Min(|Cleaned(Base(name))|, 8)
    ensures Printable(own, len)
    ensures fits && !lossy <==> Representable(name)
    ensures fits && !lossy ==> IsNameOf(own, name) && len > 0
  {
    hide Allowed, Upper, Cleaned, Padded, IsNameByte, LastDot, HasRoomAt;
    NoExtension();
    var dot := LastDot(name, |name|);
    var base;
    base, len, fits, lossy := CopyShortNamePart(8, if dot.Some? then name[..dot.value] else name);
    var ext := [SFN_PADDING, SFN_PADDING, SFN_PADDING];
    if dot.Some? {
      var extLen, extFits, extLossy;
      ext, extLen, extFits, extLossy := CopyShortNamePart(3, name[dot.value + 1..]);
      fits, lossy := fits && extFits, lossy || extLossy;
    }
    own := base + ext;
    assert own[..8] == base && own[8..] == ext;
  }

  class ShortNameGenerator {
    var chksum: nat
    var longPrefixBitmap: nat
    var prefixChksumBitmap: nat
    var nameFits: bool
    var lossyConv: bool
    var exactMatch: bool
    var basenameLen: nat
    var shortName: Sfn
    ghost var seen: seq<Sfn>

    /** The bitmaps are the numbers taken by the names seen. */
    ghost predicate Valid()
      reads this
    {
      && chksum < SUMS && Printable(shortName, basenameLen) && (nameFits && !lossyConv ==> basenameLen > 0)
      && (shortName in seen ==> exactMatch)
      && (forall d: nat :: d <= 9 ==> (On(longPrefixBitmap, d) <==> LongTaken(shortName, basenameLen, seen, d)))
      && (forall d: nat :: d <= 9 ==>
            (On(prefixChksumBitmap, d) <==> SumTaken(shortName, basenameLen, seen, chksum, d)))
    }

    /** Starts from a name whose first character is a single byte; nothing has been seen yet. */
    constructor (name: string)
      requires name != [] && name[0] as int < 0x80
      ensures Valid() && seen == [] && !exactMatch
      ensures shortName == ShortOf(name) && basenameLen == Min(|Cleaned(Base(name))|, 8)
      ensures chksum == BsdChecksum(name)
      ensures nameFits && !lossyConv <==> Representable(name)
      ensures nameFits && !lossyConv ==> IsNameOf(shortName, name)
    {
      hide LastDot, Representable, Cleaned, IsNameOf;
      var own, len, fits, lossy := SplitName(name);
      var sum := Checksum(name);
      chksum, longPrefixBitmap, prefixChksumBitmap, exactMatch, seen := sum, 0, 0, false, [];
      nameFits, lossyConv, basenameLen, shortName := fits, lossy, len, own;
      new;
      forall d: nat ensures !On(0, d) {
        OnZero(d);
      }
    }

    /** Records a name found in the directory. */
    method AddExisting(s: Sfn)
      requires Valid()
      modifies this`exactMatch, this`longPrefixBitmap, this`prefixChksumBitmap, this`seen
      ensures Valid() && seen == old(seen) + [s] && exactMatch == (old(exactMatch) || s == shortName)
    {
      hide TakesLong, TakesSum, LongTaken, SumTaken, On, Or, Pow2;
      if s == shortName {
        exactMatch := true;
      }
      CheckForLongPrefixCollision(s);
      CheckForShortPrefixCollision(s);
      forall d: nat | d <= 9
        ensures LongTaken(shortName, basenameLen, seen + [s], d)
                <==> LongTaken(shortName, basenameLen, seen, d) || TakesLong(shortName, basenameLen, s, d)
      {
        LongTakenOne(shortName, basenameLen, seen, s, d);
      }
      forall d: nat | d <= 9
        ensures SumTaken(shortName, basenameLen, seen + [s], chksum, d)
                <==> SumTaken(shortName, basenameLen, seen, chksum, d)
                     || TakesSum(shortName, basenameLen, s) == Some((chksum, d))
      {
        SumTakenOne(shortName, basenameLen, seen, s, chksum, d);
      }
      seen := seen + [s];
    }

    method CheckForLongPrefixCollision(s: Sfn)
      requires Printable(shortName, basenameLen)
      modifies this`longPrefixBitmap
      ensures forall d: nat ::
                On(longPrefixBitmap, d) <==> On(old(longPrefixBitmap), d) || TakesLong(shortName, basenameLen, s, d)
    {
      hide On, Or, Pow2;
      var p := Min(basenameLen, 6);
      if s[p] != TILDE {
        return;
      }
      var digit := DigitValue(s[p + 1], 10);
      if digit.Some? && s[..p] == shortName[..p] && s[8..] == shortName[8..] {
        SetDigit(longPrefixBitmap, digit.value);
        longPrefixBitmap := Or(longPrefixBitmap, Pow2(digit.value));
      }
    }

    method CheckForShortPrefixCollision(s: Sfn)
      requires Printable(shortName, basenameLen)
      modifies this`prefixChksumBitmap
      ensures forall d: nat ::
                On(prefixChksumBitmap, d)
                <==> On(old(prefixChksumBitmap), d) || TakesSum(shortName, basenameLen, s) == Some((chksum, d))
    {
      hide On, Or, Pow2;
      var p := Min(basenameLen, 2);
      if s[p + 4] != TILDE {
        return;
      }
      var digit := DigitValue(s[p + 5], 10);
      if digit.Some? && s[..p] == shortName[..p] && s[8..] == shortName[8..] {
        var sum := ParseHex(s[p..p + 4]);
        if sum == Some(chksum) {
          SetDigit(prefixChksumBitmap, digit.value);
          prefixChksumBitmap := Or(prefixChksumBitmap, Pow2(digit.value));
        }
      }
    }

    /** A name no seen entry has, and one that no reader takes for a deleted slot or the end. Fails exactly
        when every numbered form is taken. */
    method Generate() returns (r: Option<Sfn>)
      requires Valid()
      ensures r.Some? ==> r.value !in seen && IsShortName(r.value) && IsFormOf(shortName, basenameLen, r.value)
      ensures r.None? <==> !AsIs() && Exhausted()
      ensures r.Some? ==> IsChoice(r.value)
      ensures AsIs() ==> r == Some(shortName)
    {
      hide LongTaken, SumTaken, LongForm, SumForm, On, And, Pow2, IsPart;
      if !lossyConv && nameFits && !exactMatch {
        return Some(shortName);
      }
      for i := 1 to 5
        invariant forall d: nat :: 1 <= d < i ==> On(longPrefixBitmap, d)
      {
        AndMask(longPrefixBitmap, i);
        if And(longPrefixBitmap, Pow2(i)) == 0 {
          LongFormFree(shortName, basenameLen, seen, i);
          return Some(LongForm(shortName, basenameLen, i));
        }
      }
      for i := 1 to 10
        invariant forall d: nat :: 1 <= d < i ==> On(prefixChksumBitmap, d)
      {
        AndMask(prefixChksumBitmap, i);
        if And(prefixChksumBitmap, Pow2(i)) == 0 {
          SumFormFree(shortName, basenameLen, seen, chksum, i);
          return Some(SumForm(shortName, basenameLen, chksum, i));
        }
      }
      r := None;
    }

    predicate AsIs()
      reads this
    {
      !lossyConv && nameFits && !exactMatch
    }

    /** The name as it is, or else the lowest free number of the long-prefix form, or else of the checksum
        form. */
    ghost predicate IsChoice(s: Sfn)
      requires chksum < SUMS && Printable(shortName, basenameLen)
      reads this
    {
      if AsIs() then s == shortName
      else
        exists d: nat ::
          || (1 <= d <= 4 && s == LongForm(shortName, basenameLen, d)
              && forall e: nat :: 1 <= e < d ==> LongTaken(shortName, basenameLen, seen, e))
          || (1 <= d <= 9 && s == SumForm(shortName, basenameLen, chksum, d)
              && (forall e: nat :: 1 <= e <= 4 ==> LongTaken(shortName, basenameLen, seen, e))
              && (forall e: nat :: 1 <= e < d ==> SumTaken(shortName, basenameLen, seen, chksum, e)))
    }

    ghost predicate Exhausted()
      requires Printable(shortName, basenameLen)
      reads this
    {
      && (forall d: nat :: 1 <= d <= 4 ==> LongTaken(shortName, basenameLen, seen, d))
      && (forall d: nat :: 1 <= d <= 9 ==> SumTaken(shortName, basenameLen, seen, chksum, d))
    }

    /** Moves on to the next checksum and forgets the numbers taken, but not an exact match. */
    method NextIteration()
      requires Valid()
      modifies this`chksum, this`longPrefixBitmap, this`prefixChksumBitmap, this`seen
      ensures Valid() && seen == [] && chksum == (old(chksum) + 1) % SUMS
    {
      chksum := (chksum + 1) % SUMS;
      longPrefixBitmap, prefixChksumBitmap, seen := 0, 0, [];
      forall d: nat ensures !On(0, d) {
        OnZero(d);
      }
    }
  }

  lemma SetDigit(w: nat, b: nat)
    ensures forall d: nat :: On(Or(w, Pow2(b)), d) <==> On(w, d) || d == b
  {
    forall d: nat ensures On(Or(w, Pow2(b)), d) <==> On(w, d) || d == b {
      OnOr(w, Pow2(b), d);
      OnPow2(b, d);
    }
  }

  lemma FirstByte(s: Sfn)
    requires IsShortName(s)
    ensures 0x21 <= s[0] <= 0x7E
  {
    assert s[..8][0] == s[0];
  }

  lemma NumberedIsName(prefix: seq<Byte>, digit: nat, ext: seq<Byte>, n: nat)
    requires |prefix| <= 6 && digit <= 9 && |ext| == 3 && n <= 3 && IsPart(ext, n)
    requires forall i :: 0 <= i < |prefix| ==> IsNameByte(prefix[i])
    ensures IsShortName(Numbered(prefix, digit, ext))
  {
    var s := Numbered(prefix, digit, ext);
    assert s[8..] == ext;
    assert IsPart(s[..8], |prefix| + 2);
    assert Printable(s, |prefix| + 2);
  }

  lemma HexIsName(sum: nat)
    requires sum < SUMS
    ensures forall i :: 0 <= i < 4 ==> IsNameByte(U16ToHex(sum)[i])
  {}

  /** A long-prefix form whose number nobody takes is nobody's name. */
  lemma LongFormFree(own: Sfn, len: nat, seen: seq<Sfn>, digit: nat)
    requires Printable(own, len) && digit <= 9 && !LongTaken(own, len, seen, digit)
    ensures LongForm(own, len, digit) !in seen && IsShortName(LongForm(own, len, digit))
  {
    hide IsNameByte, Numbered, IsShortName;
    LongFormTakes(own, len, digit);
    var n :| 0 <= n <= 3 && IsPart(own[8..], n);
    NumberedIsName(own[..Min(len, 6)], digit, own[8..], n);
  }

  lemma SumFormFree(own: Sfn, len: nat, seen: seq<Sfn>, sum: nat, digit: nat)
    requires Printable(own, len) && digit <= 9 && sum < SUMS && !SumTaken(own, len, seen, sum, digit)
    ensures SumForm(own, len, sum, digit) !in seen && IsShortName(SumForm(own, len, sum, digit))
  {
    hide IsNameByte, Numbered, IsShortName, U16ToHex;
    SumFormTakes(own, len, sum, digit);
    HexIsName(sum);
    var n :| 0 <= n <= 3 && IsPart(own[8..], n);
    NumberedIsName(own[..Min(len, 2)] + U16ToHex(sum), digit, own[8..], n);
  }

  // ----- checksum of the long name

  function BsdChecksum(name: string): (r: nat)
    ensures r < SUMS
  {
    if name == [] then 0
    else BsdStep(BsdChecksum(name[..|name| - 1]), name[|name| - 1])
  }

  function BsdStep(sum: nat, c: char): (r: nat)
    requires sum < SUMS
    ensures r < SUMS
  {
    (Rotate(0x8000, sum) + c as int % SUMS) % SUMS
  }

  /** The same with sixteen digits. */
  lemma BsdStepIs(sum: nat, c: char, i: nat)
    requires sum < SUMS && i < 16
    ensures On(BsdStep(sum, '\0'), i) <==> On(sum, if i < 15 then i + 1 else 0)
    ensures BsdStep(sum, c) == (BsdStep(sum, '\0') + c as int) % SUMS
  {
    SmallPow2();
    hide On, Pow2;
    OnRotate(15, sum, i);
    hide Rotate;
    WrapTwice(Rotate(0x8000, sum), c as int);
  }

  lemma WrapTwice(r: nat, c: nat)
    ensures (r + c % SUMS) % SUMS == (r + c) % SUMS
  {
    ModUnique(r + c, SUMS, c / SUMS + (r + c % SUMS) / SUMS, (r + c % SUMS) % SUMS);
  }

  lemma BsdStepsDiffer(s: nat, t: nat, a: char, b: char)
    requires s < SUMS && t < SUMS && (s == t) != (a as int % SUMS == b as int % SUMS)
    ensures BsdStep(s, a) != BsdStep(t, b)
  {
    hide Rotate;
    if s != t {
      RotationsDiffer(0x8000, s, t);
    }
    SumsDiffer(SUMS, Rotate(0x8000, s), Rotate(0x8000, t), a as int % SUMS, b as int % SUMS);
  }

  /** Names that differ in one character of the first 65536 have different checksums. */
  lemma {:induction false} ChecksumTellsApart(a: string, b: string, i: nat)
    requires |a| == |b| && i < |a| && a[i] as int % SUMS != b[i] as int % SUMS
    requires forall j :: 0 <= j < |a| && j != i ==> a[j] == b[j]
    ensures BsdChecksum(a) != BsdChecksum(b)
    decreases |a|
  {
    hide BsdStep;
    var n := |a| - 1;
    if i == n {
      assert a[..n] == b[..n];
    } else {
      ChecksumTellsApart(a[..n], b[..n], i);
    }
    BsdStepsDiffer(BsdChecksum(a[..n]), BsdChecksum(b[..n]), a[n], b[n]);
  }

  method Checksum(name: string) returns (sum: nat)
    ensures sum == BsdChecksum(name)
  {
    sum := 0;
    assert name[..0] == [];
    for i := 0 to |name|
      invariant sum == BsdChecksum(name[..i])
    {
      assert name[..i + 1][..i] == name[..i];
      sum := BsdStep(sum, name[i]);
    }
    assert name[..|name|] == name;
  }

  /** Eight and three characters at most, all of them allowed. */
  predicate Representable(name: string) {
    var dot := LastDot(name, |name|);
    if dot.None? then |name| <= 8 && AllAllowed(name)
    else dot.value <= 8 && AllAllowed(name[..dot.value]) && |name| - dot.value - 1 <= 3
         && AllAllowed(name[dot.value + 1..])
  }

  /** The 8.3 name spells the long one, dot and all, but for upper-casing. */
  ghost predicate IsNameOf(s: Sfn, name: string) {
    var dot := LastDot(name, |name|);
    if dot.None? then Spells(s[..8], |name|, name) && s[8..] == [SFN_PADDING, SFN_PADDING, SFN_PADDING]
    else Spells(s[..8], dot.value, name[..dot.value]) && Spells(s[8..], |name| - dot.value - 1, name[dot.value + 1..])
  }

  /** An 8.3 name with a base of `len` bytes. */
  predicate Printable(s: Sfn, len: nat) {
    len <= 8 && IsPart(s[..8], len) && exists ext :: 0 <= ext <= 3 && IsPart(s[8..], ext)
  }

  /** A base of one to eight name bytes and an extension of up to three. */
  predicate IsShortName(s: Sfn) {
    exists len :: 1 <= len <= 8 && Printable(s, len)
  }

  /** `own` itself or one of its numbered forms. */
  ghost predicate IsFormOf(own: Sfn, len: nat, s: Sfn)
    requires len <= 8
  {
    || s == own
    || (exists d :: 1 <= d <= 4 && s == LongForm(own, len, d))
    || (exists sum, d :: 0 <= sum < SUMS && 1 <= d <= 9 && s == SumForm(own, len, sum, d))
  }

  /** The 8.3 form of the name, or a numbered form of that. */
  ghost predicate IsShortFor(s: Sfn, name: string) {
    IsFormOf(ShortOf(name), Min(|Cleaned(Base(name))|, 8), s)
  }

  // ----- retrying

  /** Names that take one of the numbers 1 to `d` of a checksum. */
  function CountUpTo(own: Sfn, len: nat, seen: seq<Sfn>, sum: nat, d: nat): nat
    requires len <= 8
  {
    if seen == [] then 0
    else
      var taken := TakesSum(own, len, seen[|seen| - 1]);
      CountUpTo(own, len, seen[..|seen| - 1], sum, d)
      + if taken.Some? && taken.value.0 == sum && 1 <= taken.value.1 <= d then 1 else 0
  }

  lemma {:induction false} CountGrows(own: Sfn, len: nat, seen: seq<Sfn>, sum: nat, d: nat)
    requires len <= 8
    ensures CountUpTo(own, len, seen, sum, d) <= CountUpTo(own, len, seen, sum, d + 1)
    ensures SumTaken(own, len, seen, sum, d + 1) ==>
              CountUpTo(own, len, seen, sum, d) < CountUpTo(own, len, seen, sum, d + 1)
    decreases |seen|
  {
    hide TakesSum;
    if seen != [] {
      var init, last := seen[..|seen| - 1], seen[|seen| - 1];
      CountGrows(own, len, init, sum, d);
      SumTakenOne(own, len, init, last, sum, d + 1);
      assert init + [last] == seen;
    }
  }

  /** Exhausting a checksum takes nine names. */
  lemma {:induction false} NineNames(own: Sfn, len: nat, seen: seq<Sfn>, sum: nat, d: nat)
    requires len <= 8 && forall i: nat :: 1 <= i <= d ==> SumTaken(own, len, seen, sum, i)
    ensures CountUpTo(own, len, seen, sum, d) >= d
  {
    if d > 0 {
      NineNames(own, len, seen, sum, d - 1);
      CountGrows(own, len, seen, sum, d - 1);
    }
  }

  /** Distance from checksum `first` on to checksum `sum`, wrapping around. */
  function Ahead(first: nat, sum: nat): (r: nat)
    requires first < SUMS && sum < SUMS
    ensures r < SUMS && (first + r) % SUMS == sum
  {
    if sum >= first then sum - first else sum + SUMS - first
  }

  /** Names that take a number of one of the `k` checksums from `first` on. */
  function CountSums(own: Sfn, len: nat, seen: seq<Sfn>, first: nat, k: nat): (n: nat)
    requires len <= 8 && first < SUMS
    ensures n <= |seen|
  {
    if seen == [] then 0
    else
      var taken := TakesSum(own, len, seen[|seen| - 1]);
      CountSums(own, len, seen[..|seen| - 1], first, k)
      + if taken.Some? && Ahead(first, taken.value.0) < k && 1 <= taken.value.1 <= 9 then 1 else 0
  }

  /** No name serves two checksums. */
  lemma {:induction false} CountNextSum(own: Sfn, len: nat, seen: seq<Sfn>, first: nat, k: nat)
    requires len <= 8 && first < SUMS && k < SUMS
    ensures CountSums(own, len, seen, first, k + 1)
            == CountSums(own, len, seen, first, k) + CountUpTo(own, len, seen, (first + k) % SUMS, 9)
    decreases |seen|
  {
    hide TakesSum;
    if seen != [] {
      CountNextSum(own, len, seen[..|seen| - 1], first, k);
      var taken := TakesSum(own, len, seen[|seen| - 1]);
      assert taken.Some? ==> (Ahead(first, taken.value.0) == k <==> taken.value.0 == (first + k) % SUMS);
    }
  }

  /** In a directory of fewer than nine names for each checksum, not all of them can be exhausted. */
  lemma SumsLeft(own: Sfn, len: nat, seen: seq<Sfn>, first: nat, k: nat, sum: nat)
    requires len <= 8 && first < SUMS && k < SUMS && |seen| < 9 * SUMS && sum == (first + k) % SUMS
    requires forall d: nat :: 1 <= d <= 9 ==> SumTaken(own, len, seen, sum, d)
    requires 9 * k <= CountSums(own, len, seen, first, k)
    ensures k + 1 < SUMS && 9 * (k + 1) <= CountSums(own, len, seen, first, k + 1)
  {
    hide CountSums, CountUpTo, SumTaken;
    NineNames(own, len, seen, sum, 9);
    CountNextSum(own, len, seen, first, k);
  }

  // ----- examples

  function Ascii(s: string): (r: seq<Byte>)
    requires forall i :: 0 <= i < |s| ==> s[i] as int < 0x80
  {
    seq(|s|, i requires 0 <= i < |s| => s[i] as int as Byte)
  }

  /** Digits and letters below the radix are digits, and nothing else is; case makes no difference. */
  lemma DigitIff(b: Byte, radix: nat)
    ensures DigitValue(b, radix).Some? ==> 0x30 <= b <= 0x39 || 0x41 <= b <= 0x5A || 0x61 <= b <= 0x7A
    ensures 0x30 <= b <= 0x39 ==> (DigitValue(b, radix) == Some(b as int - 0x30) <==> b as int - 0x30 < radix)
    ensures 0x41 <= b <= 0x5A ==>
              && (DigitValue(b, radix) == Some(b as int - 0x41 + 10) <==> b as int - 0x41 + 10 < radix)
              && DigitValue(b + 0x20, radix) == DigitValue(b, radix)
  {}

  lemma ChecksumExample()
    ensures BsdChecksum("x.txt") == 0x40DA
  {
    assert BsdChecksum("") == 0;
    assert "x"[..0] == "" && "x."[..1] == "x" && "x.t"[..2] == "x." && "x.tx"[..3] == "x.t" && "x.txt"[..4] == "x.tx";
    assert BsdChecksum("x") == 0x78;
    assert BsdChecksum("x.") == 0x6A;
    assert BsdChecksum("x.t") == 0xA9;
  }

  lemma CleanedPlus()
    ensures Cleaned("+") == [UNDERSCORE]
  {
    assert "+"[..0] == "";
  }

  lemma CleanedExample()
    ensures Cleaned("Foo+1") == [0x46, 0x4F, 0x4F, 0x5F, 0x31] && Cleaned("baR") == [0x42, 0x41, 0x52]
  {
    hide Cleaned;
    CleanedAll("Foo");
    CleanedPlus();
    CleanedAll("1");
    CleanedAll("baR");
    CleanedJoins("Foo", "+");
    CleanedJoins("Foo+", "1");
    assert "Foo" + "+" == "Foo+" && "Foo+" + "1" == "Foo+1";
  }

  lemma ShortExample()
    ensures LongForm(ShortOf("Foo+1.baR"), 5, 1) == Ascii("FOO_1~1 BAR")
  {
    hide LastDot, Cleaned, Allowed;
    var name := "Foo+1.baR";
    assert name[5] == '.';
    assert Base(name) == "Foo+1" && Extension(name) == "baR";
    CleanedExample();
  }
}
