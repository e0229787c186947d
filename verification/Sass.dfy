/** The SASS text scanner and the hot-loop search (src/nvidia/sass.rs). A line is its
    bytes, each written as the character with its code, which is also how the scanner
    looks at them when it asks for whitespace. */
module Sass {
  import opened Wrappers

  const U64_MAX := 0xFFFF_FFFF_FFFF_FFFF

  datatype Class = Hex | Space | Decimal | Upper | Mnemonic

  predicate In(cls: Class, c: char) {
    match cls
    case Hex => '0' <= c <= '9' || 'a' <= c <= 'f'
    case Space => '\t' <= c <= '\r' || c == ' ' || c == '\U{85}' || c == '\U{A0}'
    case Decimal => '0' <= c <= '9'
    case Upper => 'A' <= c <= 'Z'
    case Mnemonic => 'A' <= c <= 'Z' || '0' <= c <= '9' || c == '.'
  }

  function HexDigit(c: char): (d: nat)
    ensures In(Hex, c) ==> d < 16
  {
    if '0' <= c <= '9' then c as int - '0' as int
    else if 'a' <= c <= 'f' then c as int - 'a' as int + 10
    else 0
  }

  /** The number a string of hex digits denotes, of any length. */
  function HexValue(s: string): nat {
    if s == "" then 0 else HexValue(s[..|s| - 1]) * 16 + HexDigit(s[|s| - 1])
  }

  // --------------------------------------------------- what the characters mean

  const HEX_DIGITS := "0123456789abcdef"
  const UPPER_LETTERS := "ABCDEFGHIJKLMNOPQRSTUVWXYZ"

  /** The classes, character by character: sixteen hex digits (no capitals), the ten
      decimal ones, capital letters, and what may follow in a mnemonic. */
  lemma ClassesListed(c: char)
    ensures In(Hex, c) <==> c in HEX_DIGITS
    ensures In(Decimal, c) <==> c in HEX_DIGITS[..10]
    ensures In(Upper, c) <==> c in UPPER_LETTERS
    ensures In(Mnemonic, c) <==> In(Upper, c) || In(Decimal, c) || c == '.'
  {
    HexListed(c);
    UpperListed(c);
    DecimalListed(c);
  }

  lemma HexListed(c: char)
    ensures In(Hex, c) <==> c in HEX_DIGITS
  {
    assert In(Hex, c) ==> c == HEX_DIGITS[HexDigit(c)];
  }

  lemma DecimalListed(c: char)
    ensures In(Decimal, c) <==> c in HEX_DIGITS[..10]
  {
    assert In(Decimal, c) ==> c == HEX_DIGITS[..10][HexDigit(c)];
  }

  lemma UpperListed(c: char)
    ensures In(Upper, c) <==> c in UPPER_LETTERS
  {
    assert In(Upper, c) ==> c == UPPER_LETTERS[c as int - 'A' as int];
  }

  /** White space among the bytes: tab to carriage return, space, and the two of the
      upper half. */
  lemma SpaceListed(c: char)
    ensures In(Space, c) <==> c as int in {9, 10, 11, 12, 13, 32, 0x85, 0xA0}
  {
  }

  lemma DigitsListed(d: nat)
    requires d < 16
    ensures HexDigit(HEX_DIGITS[d]) == d
  {
  }

  lemma DigitsDiffer(c: char, d: char)
    requires In(Hex, c) && In(Hex, d) && HexDigit(c) == HexDigit(d)
    ensures c == d
  {
  }

  ghost function Power16(n: nat): nat {
    if n == 0 then 1 else 16 * Power16(n - 1)
  }

  /** The value is positional: what stands in front counts sixteen times for every digit
      behind it. */
  lemma {:induction false} HexValueConcat(s: string, t: string)
    ensures HexValue(s + t) == HexValue(s) * Power16(|t|) + HexValue(t)
  {
    if t == "" {
      assert s + t == s;
    } else {
      var n := |t| - 1;
      assert (s + t)[..|s + t| - 1] == s + t[..n];
      HexValueConcat(s, t[..n]);
    }
  }

  /** `n` in base sixteen, over at least `width` digits. */
  ghost function HexPrinted(n: nat, width: nat): string
    decreases n + width
  {
    if n == 0 && width == 0 then ""
    else HexPrinted(n / 16, if width == 0 then 0 else width - 1) + [HEX_DIGITS[n % 16]]
  }

  /** Reading undoes printing, with leading zeros or without. */
  lemma {:induction false} HexReadsPrinted(n: nat, width: nat)
    ensures Run(HexPrinted(n, width), 0, |HexPrinted(n, width)|, Hex)
    ensures HexValue(HexPrinted(n, width)) == n
    ensures n < Power16(width) ==> |HexPrinted(n, width)| == width
    decreases n + width
  {
    if n > 0 || width > 0 {
      var less := if width == 0 then 0 else width - 1;
      var front := HexPrinted(n / 16, less);
      HexReadsPrinted(n / 16, less);
      DigitsListed(n % 16);
      HexListed(HEX_DIGITS[n % 16]);
      assert HexPrinted(n, width)[..|front|] == front;
    }
  }

  lemma {:induction false} HexValueBounds(s: string)
    requires Run(s, 0, |s|, Hex)
    ensures HexValue(s) < Power16(|s|)
    ensures s != "" && s[0] != '0' ==> Power16(|s| - 1) <= HexValue(s)
  {
    if s != "" {
      var n := |s| - 1;
      HexValueBounds(s[..n]);
      if n == 0 {
        assert s[..0] == "";
        if HexDigit(s[0]) == 0 {
          DigitsDiffer(s[0], '0');
        }
      }
    }
  }

  lemma {:induction false} Power16Grows(m: nat, n: nat)
    requires m <= n
    ensures 0 < Power16(m) <= Power16(n)
  {
    if m < n {
      Power16Grows(m, n - 1);
    } else if n > 0 {
      Power16Grows(m - 1, n - 1);
    }
  }

  ghost function Unpadded(s: string): string {
    if s != "" && s[0] == '0' then Unpadded(s[1..]) else s
  }

  lemma {:induction false} UnpaddedValue(s: string)
    requires Run(s, 0, |s|, Hex)
    ensures HexValue(Unpadded(s)) == HexValue(s) && Run(Unpadded(s), 0, |Unpadded(s)|, Hex)
    ensures Unpadded(s) != "" ==> Unpadded(s)[0] != '0'
  {
    if s != "" && s[0] == '0' {
      var zero := s[..1];
      assert s == zero + s[1..] && zero[..0] == "";
      HexValueConcat(zero, s[1..]);
      UnpaddedValue(s[1..]);
    }
  }

  lemma SixteenDigits()
    ensures Power16(16) == U64_MAX + 1
  {
    assert Power16(4) == 0x10000;
    assert Power16(8) == 0x10000 * 0x10000;
    assert Power16(12) == 0x10000 * 0x10000 * 0x10000;
  }

  /** A number is too wide exactly when more than sixteen digits are left without the
      leading zeros. */
  lemma TooWideIffManyDigits(s: string)
    requires Run(s, 0, |s|, Hex)
    ensures HexValue(s) > U64_MAX <==> |Unpadded(s)| > 16
  {
    var t := Unpadded(s);
    UnpaddedValue(s);
    HexValueBounds(t);
    SixteenDigits();
    if |t| > 16 {
      Power16Grows(16, |t| - 1);
    } else {
      Power16Grows(|t|, 16);
    }
  }

  /** Digits of equal number read alike only if they are the same. */
  lemma {:induction false} HexValueIsInjective(s: string, t: string)
    requires |s| == |t| && Run(s, 0, |s|, Hex) && Run(t, 0, |t|, Hex) && HexValue(s) == HexValue(t)
    ensures s == t
  {
    if s != "" {
      var n := |s| - 1;
      assert HexValue(s[..n]) == HexValue(t[..n]) && HexDigit(s[n]) == HexDigit(t[n]);
      HexValueIsInjective(s[..n], t[..n]);
      DigitsDiffer(s[n], t[n]);
      assert s == s[..n] + [s[n]] && t == t[..n] + [t[n]];
    }
  }

  // ------------------------------------------------------------ the line language

  ghost predicate Run(s: string, i: int, j: int, cls: Class) {
    0 <= i <= j <= |s| && forall k :: i <= k < j ==> In(cls, s[k])
  }

  ghost predicate Looking(s: string, i: int, word: string) {
    0 <= i && i + |word| <= |s| && s[i..i + |word|] == word
  }

  /** A comment that holds an address: slash, star, hex digits, star, slash. `h` is
      where its closing star stands. */
  ghost predicate AddressAt(s: string, p: int, h: int) {
    && Looking(s, p, "/*")
    && p + 2 < h
    && Run(s, p + 2, h, Hex)
    && Looking(s, h, "*/")
  }

  /** A predicate in front of the mnemonic: an at sign, an optional bang, a P, digits,
      white space, over [i, m). */
  ghost predicate GuardAt(s: string, i: int, m: int) {
    exists b, d ::
      && Looking(s, i, "@")
      && (b == i + 1 || (b == i + 2 && Looking(s, i + 1, "!")))
      && Looking(s, b, "P")
      && b + 1 < d < m
      && Run(s, b + 1, d, Decimal)
      && Run(s, d, m, Space)
  }

  /** The whole instruction pattern at `p`: address, white space up to `start`, an
      optional guard up to `m`, and the longest mnemonic over [m, end). */
  ghost predicate InstrAt(s: string, p: int, h: int, start: int, m: int, end: int) {
    && AddressAt(s, p, h)
    && h + 2 < start
    && Run(s, h + 2, start, Space)
    && (m == start || GuardAt(s, start, m))
    && 0 <= m < end
    && m < |s|
    && In(Upper, s[m])
    && Run(s, m + 1, end, Mnemonic)
    && (end < |s| ==> !In(Mnemonic, s[end]))
  }

  ghost predicate Matches(s: string, p: int) {
    exists h, start, m, end :: InstrAt(s, p, h, start, m, end)
  }

  /** The address at `p` needs more than 64 bits, which the number parser refuses. */
  ghost predicate TooWideAt(s: string, p: int) {
    exists h :: AddressAt(s, p, h) && HexValue(s[p + 2..h]) > U64_MAX
  }

  ghost predicate Quiet(s: string, p: int) {
    !Matches(s, p) && !TooWideAt(s, p)
  }

  // ------------------------------------------------------------------ the scanner

  datatype Scan =
    | Missed
    | Found(addr: nat, start: nat, end: nat)
    | Panicked

  method SkipRun(s: string, i: nat, cls: Class) returns (j: nat)
    requires i <= |s|
    ensures Run(s, i, j, cls)
    ensures j < |s| ==> !In(cls, s[j])
  {
    j := i;
    while j < |s| && In(cls, s[j])
      invariant Run(s, i, j, cls)
    {
      j := j + 1;
    }
  }

  /** The library's substring search, starting at `from`. */
  method Find(s: string, from: nat, word: string) returns (at: Option<nat>)
    ensures at.Some? ==> from <= at.value && Looking(s, at.value, word)
    ensures forall p :: from <= p && (at.Some? ==> p < at.value) ==> !Looking(s, p, word)
  {
    var p := from;
    while p + |word| <= |s|
      invariant from <= p
      invariant forall q :: from <= q < p ==> !Looking(s, q, word)
    {
      if s[p..p + |word|] == word {
        return Some(p);
      }
      p := p + 1;
    }
    at := None;
  }

  /** A run that is followed by a character outside its class can only end there. */
  lemma RunEndsOnce(s: string, i: int, j: int, k: int, cls: Class)
    requires Run(s, i, j, cls) && (j < |s| ==> !In(cls, s[j]))
    requires Run(s, i, k, cls) && (k < |s| ==> !In(cls, s[k]))
    ensures j == k
  {
  }

  lemma LookingIndex(s: string, i: int, word: string, k: nat)
    requires Looking(s, i, word) && k < |word|
    ensures s[i + k] == word[k]
  {
    assert s[i..i + |word|][k] == word[k];
  }

  lemma LookingChar(s: string, i: int, c: char)
    ensures Looking(s, i, [c]) <==> 0 <= i < |s| && s[i] == c
  {
    if 0 <= i < |s| {
      assert s[i..i + 1] == [s[i]];
    }
  }

  lemma LookingPair(s: string, i: int, a: char, b: char)
    ensures Looking(s, i, [a, b]) <==> 0 <= i && i + 1 < |s| && s[i] == a && s[i + 1] == b
  {
    if 0 <= i && i + 1 < |s| {
      assert s[i..i + 2] == [s[i], s[i + 1]];
    }
  }

  /** The address in a comment is determined by where the comment opens. */
  lemma AddressEndsOnce(s: string, p: int, h: int, j: int)
    requires AddressAt(s, p, h)
    requires Run(s, p + 2, j, Hex) && (j < |s| ==> !In(Hex, s[j]))
    ensures h == j
  {
    LookingPair(s, h, '*', '/');
    RunEndsOnce(s, p + 2, h, j, Hex);
  }

  lemma StartIsUnique(s: string, p: int, h: int, start: int, m: int, end: int, j: int)
    requires InstrAt(s, p, h, start, m, end)
    requires Run(s, h + 2, j, Space) && (j < |s| ==> !In(Space, s[j]))
    ensures start == j
    ensures start < |s| && (s[start] == '@' <==> m != start)
  {
    if m != start {
      LookingChar(s, start, '@');
    }
    RunEndsOnce(s, h + 2, start, j, Space);
  }

  /** A guard in front of a mnemonic is determined by where it starts: `b` is the place
      of its P, `d` the end of its digits, `e` the end of its white space. */
  lemma GuardEndsOnce(s: string, i: int, m: int, b: int, d: int, e: int)
    requires GuardAt(s, i, m) && m < |s| && In(Upper, s[m])
    requires b == if Looking(s, i + 1, "!") then i + 2 else i + 1
    requires Run(s, b + 1, d, Decimal) && (d < |s| ==> !In(Decimal, s[d]))
    requires Run(s, d, e, Space) && (e < |s| ==> !In(Space, s[e]))
    ensures b + 1 < d < e == m
  {
    var b', d' :|
      && (b' == i + 1 || (b' == i + 2 && Looking(s, i + 1, "!")))
      && Looking(s, b', "P")
      && b' + 1 < d' < m
      && Run(s, b' + 1, d', Decimal)
      && Run(s, d', m, Space);
    LookingChar(s, i + 1, '!');
    LookingChar(s, i + 1, 'P');
    assert In(Space, s[d']);
    RunEndsOnce(s, b + 1, d, d', Decimal);
    RunEndsOnce(s, d, e, m, Space);
  }

  lemma GuardNeedsP(s: string, i: int, m: int)
    requires GuardAt(s, i, m)
    ensures Looking(s, if Looking(s, i + 1, "!") then i + 2 else i + 1, "P")
  {
    LookingChar(s, i + 1, '!');
    LookingChar(s, i + 1, 'P');
  }

  method ScanGuard(s: string, start: nat) returns (m: Option<nat>)
    requires Looking(s, start, "@")
    ensures m.Some? ==> GuardAt(s, start, m.value)
    ensures forall e :: GuardAt(s, start, e) && e < |s| && In(Upper, s[e]) ==> m == Some(e)
  {
    LookingChar(s, start + 1, '!');
    var b := start + 1;
    if b < |s| && s[b] == '!' {
      b := b + 1;
    }
    LookingChar(s, b, 'P');
    if !(b < |s| && s[b] == 'P') {
      forall e | GuardAt(s, start, e)
        ensures false
      {
        GuardNeedsP(s, start, e);
      }
      return None;
    }
    var d := SkipRun(s, b + 1, Decimal);
    var e := SkipRun(s, d, Space);
    forall m' | GuardAt(s, start, m') && m' < |s| && In(Upper, s[m'])
      ensures b + 1 < d < e == m'
    {
      GuardEndsOnce(s, start, m', b, d, e);
    }
    if d == b + 1 || e == d {
      return None;
    }
    m := Some(e);
  }

  /** One candidate of the scan, the body of its loop: what stands at `open`. */
  method ScanAt(s: string, open: nat) returns (r: Scan)
    requires Looking(s, open, "/*")
    ensures r.Missed? <==> Quiet(s, open)
    ensures r.Panicked? ==> TooWideAt(s, open)
    ensures r.Found? ==> !TooWideAt(s, open) && exists h, m ::
      InstrAt(s, open, h, r.start, m, r.end) && r.addr == HexValue(s[open + 2..h])
  {
    var h := SkipRun(s, open + 2, Hex);
    forall h' | AddressAt(s, open, h')
      ensures h' == h
    {
      AddressEndsOnce(s, open, h', h);
    }
    LookingPair(s, h, '*', '/');
    if h == open + 2 || !(h + 1 < |s| && s[h] == '*' && s[h + 1] == '/') {
      return Missed;
    }
    assert AddressAt(s, open, h);
    var addr := HexValue(s[open + 2..h]);
    if addr > U64_MAX {
      return Panicked;
    }
    assert !TooWideAt(s, open);
    var start := SkipRun(s, h + 2, Space);
    forall h', start', m, end | InstrAt(s, open, h', start', m, end)
      ensures h' == h && start' == start && start < |s| && (s[start] == '@' <==> m != start)
    {
      StartIsUnique(s, open, h', start', m, end, start);
    }
    if start == h + 2 {
      return Missed;
    }
    var m := start;
    if start < |s| && s[start] == '@' {
      LookingChar(s, start, '@');
      var guarded := ScanGuard(s, start);
      if guarded.None? {
        return Missed;
      }
      m := guarded.value;
    }
    if m >= |s| || !In(Upper, s[m]) {
      return Missed;
    }
    var end := SkipRun(s, m + 1, Mnemonic);
    assert InstrAt(s, open, h, start, m, end);
    r := Found(addr, start, end);
  }

  lemma OnlyCommentsMatter(s: string, p: int)
    requires !Looking(s, p, "/*")
    ensures Quiet(s, p)
  {
  }

  /** The scanner is leftmost regex search: it reports the first place where the
      instruction pattern matches, with its address, its start and the end of its
      greedy mnemonic, and misses exactly when there is none. The one other outcome
      is the panic on the first address wider than 64 bits. */
  method ScanInstr(s: string) returns (r: Scan)
    ensures r.Missed? <==> forall p :: Quiet(s, p)
    ensures r.Found? ==> exists p, h, m ::
      && (forall q :: q < p ==> Quiet(s, q))
      && !TooWideAt(s, p)
      && InstrAt(s, p, h, r.start, m, r.end)
      && r.addr == HexValue(s[p + 2..h])
    ensures r.Panicked? ==> exists p :: TooWideAt(s, p) && forall q :: q < p ==> Quiet(s, q)
  {
    var from := 0;
    while true
      invariant forall p :: p < from ==> Quiet(s, p)
      decreases |s| + 2 - from
    {
      var found := Find(s, from, "/*");
      forall p | from <= p && (found.Some? ==> p < found.value)
        ensures Quiet(s, p)
      {
        OnlyCommentsMatter(s, p);
      }
      if found.None? {
        return Missed;
      }
      var open := found.value;
      r := ScanAt(s, open);
      if !r.Missed? {
        return;
      }
      LookingPair(s, open, '/', '*');
      LookingPair(s, open + 1, '/', '*');
      OnlyCommentsMatter(s, open + 1);
      from := open + 2;
    }
  }

  /** An instruction guarded by a uniform predicate never matches: after the address
      and its white space comes an at sign, an optional bang, and a U. */
  lemma UniformGuardNeverMatches(s: string, p: int, h: int, start: int)
    requires AddressAt(s, p, h)
    requires Run(s, h + 2, start, Space)
    requires Looking(s, start, "@U") || Looking(s, start, "@!U")
    ensures !Matches(s, p)
  {
    var after := if Looking(s, start, "@!U") then start + 2 else start + 1;
    assert s[start] == '@' && s[after] == 'U' && (after == start + 2 ==> s[start + 1] == '!') by {
      var word := if Looking(s, start, "@!U") then "@!U" else "@U";
      LookingIndex(s, start, word, 0);
      LookingIndex(s, start, word, 1);
      LookingIndex(s, start, word, |word| - 1);
    }
    forall h', start', m, end | InstrAt(s, p, h', start', m, end)
      ensures false
    {
      LookingPair(s, h', '*', '/');
      AddressEndsOnce(s, p, h, h');
      StartIsUnique(s, p, h', start', m, end, start);
      GuardNeedsP(s, start, m);
      LookingChar(s, start + 1, '!');
      LookingChar(s, after, 'P');
    }
  }

  // -------------------------------------------------------------- branch targets

  /** `BRA`, white space, `0x` at `w`, and the longest run of hex digits up to `e`. */
  ghost predicate BranchAt(s: string, p: int, w: int, e: int) {
    && Looking(s, p, "BRA")
    && p + 3 < w
    && Run(s, p + 3, w, Space)
    && Looking(s, w, "0x")
    && w + 2 < e
    && Run(s, w + 2, e, Hex)
    && (e < |s| ==> !In(Hex, s[e]))
  }

  ghost predicate BranchesAt(s: string, p: int) {
    exists w, e :: BranchAt(s, p, w, e)
  }

  ghost predicate FirstBranch(s: string, p: int, w: int, e: int) {
    BranchAt(s, p, w, e) && forall q :: q < p ==> !BranchesAt(s, q)
  }

  /** `t` is the target of the first branch in the text, however wide. */
  ghost predicate FirstTarget(s: string, t: nat) {
    exists p, w, e :: FirstBranch(s, p, w, e) && t == HexValue(s[w + 2..e])
  }

  ghost predicate NoTarget(s: string) {
    forall p :: !BranchesAt(s, p)
  }

  lemma BranchEndsOnce(s: string, p: int, w: int, e: int, w': int, e': int)
    requires BranchAt(s, p, w, e)
    requires Run(s, p + 3, w', Space) && (w' < |s| ==> !In(Space, s[w']))
    requires Run(s, w' + 2, e', Hex) && (e' < |s| ==> !In(Hex, s[e']))
    ensures w == w' && e == e'
  {
    LookingPair(s, w, '0', 'x');
    RunEndsOnce(s, p + 3, w, w', Space);
    RunEndsOnce(s, w + 2, e, e', Hex);
  }

  lemma FirstBranchIsUnique(s: string, p: int, w: int, e: int, p': int, w': int, e': int)
    requires FirstBranch(s, p, w, e) && FirstBranch(s, p', w', e')
    ensures p == p' && w == w' && e == e'
  {
    assert BranchesAt(s, p) && BranchesAt(s, p');
    LookingPair(s, w', '0', 'x');
    BranchEndsOnce(s, p, w, e, w', e');
  }

  lemma FirstTargetIsUnique(s: string, t: nat, t': nat)
    requires FirstTarget(s, t)
    ensures !NoTarget(s)
    ensures FirstTarget(s, t') ==> t == t'
  {
    var p, w, e :| FirstBranch(s, p, w, e) && t == HexValue(s[w + 2..e]);
    assert BranchesAt(s, p);
    if FirstTarget(s, t') {
      var p', w', e' :| FirstBranch(s, p', w', e') && t' == HexValue(s[w' + 2..e']);
      FirstBranchIsUnique(s, p, w, e, p', w', e');
    }
  }

  datatype Target = Absent | Address(addr: nat) | Unparsable

  /** One candidate of the branch search, the body of its loop. */
  method TargetAt(s: string, p: nat) returns (r: Option<nat>)
    requires Looking(s, p, "BRA")
    ensures r.None? ==> !BranchesAt(s, p)
    ensures r.Some? ==> exists w, e :: BranchAt(s, p, w, e) && r.value == HexValue(s[w + 2..e])
  {
    var w := SkipRun(s, p + 3, Space);
    forall w', e' | BranchAt(s, p, w', e')
      ensures w' == w && Looking(s, w, "0x") && p + 3 < w
    {
      LookingPair(s, w', '0', 'x');
      RunEndsOnce(s, p + 3, w', w, Space);
    }
    LookingPair(s, w, '0', 'x');
    if w == p + 3 || !(w + 1 < |s| && s[w] == '0' && s[w + 1] == 'x') {
      return None;
    }
    var e := SkipRun(s, w + 2, Hex);
    forall w', e' | BranchAt(s, p, w', e')
      ensures e' == e
    {
      RunEndsOnce(s, w + 2, e', e, Hex);
    }
    if e == w + 2 {
      return None;
    }
    assert BranchAt(s, p, w, e);
    r := Some(HexValue(s[w + 2..e]));
  }

  lemma FirstFound(s: string, p: int, t: nat)
    requires forall q :: q < p ==> !BranchesAt(s, q)
    requires exists w, e :: BranchAt(s, p, w, e) && t == HexValue(s[w + 2..e])
    ensures FirstTarget(s, t) && !NoTarget(s)
  {
    var w, e :| BranchAt(s, p, w, e) && t == HexValue(s[w + 2..e]);
    assert FirstBranch(s, p, w, e);
    FirstTargetIsUnique(s, t, t);
  }

  /** The target of the first branch in the text, or none; a target wider than 64 bits
      makes the number parser panic. */
  method BraTarget(s: string) returns (r: Target)
    ensures r.Absent? <==> NoTarget(s)
    ensures r.Address? ==> FirstTarget(s, r.addr) && r.addr <= U64_MAX
    ensures r.Unparsable? ==> exists t: nat :: FirstTarget(s, t) && t > U64_MAX
  {
    var from := 0;
    while true
      invariant forall p :: p < from ==> !BranchesAt(s, p)
      decreases |s| + 3 - from
    {
      var found := Find(s, from, "BRA");
      if found.None? {
        return Absent;
      }
      var p := found.value;
      var target := TargetAt(s, p);
      if target.Some? {
        FirstFound(s, p, target.value);
        return if target.value > U64_MAX then Unparsable else Address(target.value);
      }
      NoBraInside(s, p);
      from := p + 3;
    }
  }

  lemma NoBraInside(s: string, p: nat)
    requires Looking(s, p, "BRA")
    ensures !Looking(s, p + 1, "BRA") && !Looking(s, p + 2, "BRA")
  {
    LookingIndex(s, p, "BRA", 1);
    LookingIndex(s, p, "BRA", 2);
    if Looking(s, p + 1, "BRA") {
      LookingIndex(s, p + 1, "BRA", 0);
    }
    if Looking(s, p + 2, "BRA") {
      LookingIndex(s, p + 2, "BRA", 0);
    }
  }
}
