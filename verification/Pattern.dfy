/** The kernel-name pattern engine (src/nvidia/pattern.rs). The engine works on bytes;
    a byte is written here as the character with its code. */
module Pattern {
  import opened Lists

  datatype Atom = Lit(c: char) | Any | Digit

  datatype Quant = One | Star | Plus

  datatype Item = Item(atom: Atom, quant: Quant)

  predicate AtomOk(atom: Atom, b: char) {
    match atom
    case Lit(c) => b == c
    case Any => b != '\n'
    case Digit => '0' <= b <= '9'
  }

  /** What an atom takes: its own character, any but a line feed, or one of the ten digits. */
  lemma AtomsTake(c: char, b: char)
    ensures AtomOk(Lit(c), b) <==> b == c
    ensures AtomOk(Any, b) <==> b as int != 10
    ensures AtomOk(Digit, b) <==> b in "0123456789"
  {
    assert AtomOk(Digit, b) ==> b == "0123456789"[b as int - '0' as int];
  }

  // ------------------------------------------------------- what a pattern denotes

  ghost predicate Repeats(atom: Atom, s: string) {
    forall i :: 0 <= i < |s| ==> AtomOk(atom, s[i])
  }

  ghost predicate Piece(item: Item, s: string) {
    && Repeats(item.atom, s)
    && match item.quant
       case One => |s| == 1
       case Star => true
       case Plus => |s| >= 1
  }

  /** `s` splits into one piece per item, in order. */
  ghost predicate Denotes(items: seq<Item>, s: string)
    decreases |items|
  {
    if items == [] then s == ""
    else exists k :: 0 <= k <= |s| && Piece(items[0], s[..k]) && Denotes(items[1..], s[k..])
  }

  ghost predicate MatchesPrefix(items: seq<Item>, text: string) {
    exists n :: 0 <= n <= |text| && Denotes(items, text[..n])
  }

  ghost predicate StarThen(atom: Atom, rest: seq<Item>, text: string) {
    exists k :: 0 <= k <= |text| && Repeats(atom, text[..k]) && MatchesPrefix(rest, text[k..])
  }

  lemma PrefixSplits(items: seq<Item>, text: string)
    requires items != []
    ensures MatchesPrefix(items, text) <==>
      exists k :: 0 <= k <= |text| && Piece(items[0], text[..k]) && MatchesPrefix(items[1..], text[k..])
  {
    if MatchesPrefix(items, text) {
      var n :| 0 <= n <= |text| && Denotes(items, text[..n]);
      var k :| 0 <= k <= n && Piece(items[0], text[..n][..k]) && Denotes(items[1..], text[..n][k..]);
      assert text[..n][..k] == text[..k] && text[..n][k..] == text[k..][..n - k];
    }
    forall k | 0 <= k <= |text| && Piece(items[0], text[..k]) && MatchesPrefix(items[1..], text[k..])
      ensures MatchesPrefix(items, text)
    {
      var m :| 0 <= m <= |text[k..]| && Denotes(items[1..], text[k..][..m]);
      var s := text[..k + m];
      assert s[..k] == text[..k] && s[k..] == text[k..][..m];
      assert Denotes(items, s);
    }
  }

  lemma FirstIsOne(item: Item, rest: seq<Item>, text: string)
    requires item.quant == One
    ensures MatchesPrefix([item] + rest, text) <==>
      text != "" && AtomOk(item.atom, text[0]) && MatchesPrefix(rest, text[1..])
  {
    PrefixSplits([item] + rest, text);
    assert ([item] + rest)[1..] == rest;
    if text != "" {
      assert Piece(item, text[..1]) <==> AtomOk(item.atom, text[0]);
    }
  }

  lemma FirstIsStar(item: Item, rest: seq<Item>, text: string)
    requires item.quant == Star
    ensures MatchesPrefix([item] + rest, text) <==> StarThen(item.atom, rest, text)
  {
    PrefixSplits([item] + rest, text);
    assert ([item] + rest)[1..] == rest;
    assert forall k :: 0 <= k <= |text| ==> (Piece(item, text[..k]) <==> Repeats(item.atom, text[..k]));
  }

  lemma FirstIsPlus(item: Item, rest: seq<Item>, text: string)
    requires item.quant == Plus
    ensures MatchesPrefix([item] + rest, text) <==>
      text != "" && AtomOk(item.atom, text[0]) && StarThen(item.atom, rest, text[1..])
  {
    PrefixSplits([item] + rest, text);
    assert ([item] + rest)[1..] == rest;
    if MatchesPrefix([item] + rest, text) {
      var k :| 0 <= k <= |text| && Piece(item, text[..k]) && MatchesPrefix(rest, text[k..]);
      assert AtomOk(item.atom, text[..k][0]);
      assert text[1..][..k - 1] == text[..k][1..] && text[1..][k - 1..] == text[k..];
      assert Repeats(item.atom, text[1..][..k - 1]);
    }
    if text != "" && AtomOk(item.atom, text[0]) && StarThen(item.atom, rest, text[1..]) {
      var tail := text[1..];
      var k :| 0 <= k <= |tail| && Repeats(item.atom, tail[..k]) && MatchesPrefix(rest, tail[k..]);
      assert text[..k + 1] == [text[0]] + tail[..k] && text[k + 1..] == tail[k..];
      assert Piece(item, text[..k + 1]);
    }
  }

  // ----------------------------------------------------------------- the matcher

  method MatchHere(items: seq<Item>, text: string) returns (r: bool)
    ensures r <==> MatchesPrefix(items, text)
    decreases |items|, 0
  {
    if items == [] {
      assert Denotes(items, text[..0]);
      return true;
    }
    var item, rest := items[0], items[1..];
    assert items == [item] + rest;
    match item.quant {
      case One =>
        FirstIsOne(item, rest, text);
        r := text != "" && AtomOk(item.atom, text[0]);
        if r {
          r := MatchHere(rest, text[1..]);
        }
      case Plus =>
        FirstIsPlus(item, rest, text);
        r := text != "" && AtomOk(item.atom, text[0]);
        if r {
          r := MatchStar(item.atom, rest, text[1..]);
        }
      case Star =>
        FirstIsStar(item, rest, text);
        r := MatchStar(item.atom, rest, text);
    }
  }

  method MatchStar(atom: Atom, rest: seq<Item>, text: string) returns (r: bool)
    ensures r <==> StarThen(atom, rest, text)
    decreases |rest|, 1
  {
    var n := 0;
    while n < |text| && AtomOk(atom, text[n])
      invariant 0 <= n <= |text|
      invariant Repeats(atom, text[..n])
    {
      n := n + 1;
    }
    ghost var longest := n;
    assert forall k :: longest < k <= |text| ==> !Repeats(atom, text[..k]) by {
      forall k | longest < k <= |text|
        ensures !Repeats(atom, text[..k])
      {
        assert text[..k][longest] == text[longest];
      }
    }
    while true
      invariant 0 <= n <= longest
      invariant forall k :: n < k <= longest ==> !MatchesPrefix(rest, text[k..])
      decreases n
    {
      var here := MatchHere(rest, text[n..]);
      if here {
        assert text[..n] == text[..longest][..n];
        return true;
      }
      if n == 0 {
        return false;
      }
      n := n - 1;
    }
  }

  /** Greedy backtracking search decides the language: true exactly when some
      substring of the text is denoted by the pattern. */
  method IsMatch(items: seq<Item>, text: string) returns (r: bool)
    ensures r <==> exists i, j :: 0 <= i <= j <= |text| && Denotes(items, text[i..j])
  {
    r := false;
    var start := 0;
    while start <= |text| && !r
      invariant 0 <= start <= |text| + 1
      invariant r ==> exists i, j :: 0 <= i <= j <= |text| && Denotes(items, text[i..j])
      invariant !r ==> forall i :: 0 <= i < start ==> !MatchesPrefix(items, text[i..])
    {
      r := MatchHere(items, text[start..]);
      if r {
        ghost var n :| 0 <= n <= |text[start..]| && Denotes(items, text[start..][..n]);
        assert text[start..start + n] == text[start..][..n];
      }
      start := start + 1;
    }
    if !r {
      forall i, j | 0 <= i <= j <= |text|
        ensures !Denotes(items, text[i..j])
      {
        assert text[i..j] == text[i..][..j - i];
        assert !MatchesPrefix(items, text[i..]);
      }
    }
  }

  // ------------------------------------------------------------ the pattern parser

  /** The characters the first atom takes: two for an escape, one otherwise. */
  function AtomLength(p: string): (n: nat)
    requires p != ""
    ensures 1 <= n <= |p|
  {
    if p[0] == '\\' && |p| > 1 then 2 else 1
  }

  function FirstAtom(p: string): Atom
    requires p != ""
  {
    if p[0] == '\\' && |p| > 1 then if p[1] == 'd' then Digit else Lit(p[1])
    else if p[0] == '.' then Any
    else Lit(p[0])
  }

  function FirstQuant(p: string): Quant {
    if p != "" && p[0] == '*' then Star
    else if p != "" && p[0] == '+' then Plus
    else One
  }

  function AfterQuant(p: string): (rest: string)
    ensures |rest| <= |p|
  {
    if FirstQuant(p) == One then p else p[1..]
  }

  function Parsed(p: string): seq<Item>
    decreases |p|
  {
    if p == "" then []
    else
      var q := p[AtomLength(p)..];
      [Item(FirstAtom(p), FirstQuant(q))] + Parsed(AfterQuant(q))
  }

  lemma ParsedStep(p: string, q: string, rest: string)
    requires p != "" && q == p[AtomLength(p)..] && rest == AfterQuant(q)
    ensures Parsed(p) == [Item(FirstAtom(p), FirstQuant(q))] + Parsed(rest)
  {
  }

  /** The atom at `i` ends at `k`. */
  predicate AtomAt(pat: string, i: nat, atom: Atom, k: nat)
    requires i < |pat|
  {
    if pat[i] == '\\' && i + 1 < |pat| then k == i + 2 && atom == if pat[i + 1] == 'd' then Digit else Lit(pat[i + 1])
    else k == i + 1 && atom == if pat[i] == '.' then Any else Lit(pat[i])
  }

  /** The quantifier at `k` ends at `j`. */
  predicate QuantAt(pat: string, k: nat, quant: Quant, j: nat) {
    if k < |pat| && pat[k] == '*' then j == k + 1 && quant == Star
    else if k < |pat| && pat[k] == '+' then j == k + 1 && quant == Plus
    else j == k && quant == One
  }

  lemma ItemAt(pat: string, i: nat, atom: Atom, k: nat, quant: Quant, j: nat)
    requires i < |pat| && AtomAt(pat, i, atom, k) && QuantAt(pat, k, quant, j)
    ensures Parsed(pat[i..]) == [Item(atom, quant)] + Parsed(pat[j..])
  {
    var p, q := pat[i..], pat[k..];
    assert q == p[AtomLength(p)..];
    assert AfterQuant(q) == pat[j..];
    ParsedStep(p, q, pat[j..]);
  }

  ghost predicate ParsedUpTo(pat: string, i: nat, items: seq<Item>) {
    i <= |pat| && items + Parsed(pat[i..]) == Parsed(pat)
  }

  lemma ParsedOneMore(pat: string, i: nat, items: seq<Item>, atom: Atom, k: nat, quant: Quant, j: nat)
    requires i < |pat| && AtomAt(pat, i, atom, k) && QuantAt(pat, k, quant, j) && ParsedUpTo(pat, i, items)
    ensures ParsedUpTo(pat, j, items + [Item(atom, quant)])
  {
    ItemAt(pat, i, atom, k, quant, j);
    Assoc(items, [Item(atom, quant)], Parsed(pat[j..]));
  }

  method New(pat: string) returns (items: seq<Item>)
    ensures items == Parsed(pat)
  {
    items := [];
    var i := 0;
    while i < |pat|
      invariant ParsedUpTo(pat, i, items)
    {
      ghost var from := i;
      var atom: Atom;
      if pat[i] == '\\' && i + 1 < |pat| {
        i := i + 1;
        atom := if pat[i] == 'd' then Digit else Lit(pat[i]);
      } else if pat[i] == '.' {
        atom := Any;
      } else {
        atom := Lit(pat[i]);
      }
      i := i + 1;
      ghost var behind := i;
      var quant := One;
      if i < |pat| && pat[i] == '*' {
        i := i + 1;
        quant := Star;
      } else if i < |pat| && pat[i] == '+' {
        i := i + 1;
        quant := Plus;
      }
      ParsedOneMore(pat, from, items, atom, behind, quant, i);
      items := items + [Item(atom, quant)];
    }
  }

  const UNSUPPORTED := "[](){}|?^$"

  lemma UnsupportedListed(c: char)
    ensures c in UNSUPPORTED <==>
      || c == '[' || c == ']' || c == '(' || c == ')' || c == '{' || c == '}'
      || c == '|' || c == '?' || c == '^' || c == '$'
  {
    assert UNSUPPORTED == ['[', ']', '(', ')', '{', '}', '|', '?', '^', '$'];
  }

  /** The number of backslashes directly before position `i`. */
  ghost function BackslashesBefore(p: string, i: nat): nat
    requires i <= |p|
  {
    if i > 0 && p[i - 1] == '\\' then BackslashesBefore(p, i - 1) + 1 else 0
  }

  /** Position `i` holds an unsupported construct that no backslash escapes. */
  ghost predicate Bare(p: string, i: nat)
    requires i < |p|
  {
    p[i] in UNSUPPORTED && BackslashesBefore(p, i) % 2 == 0
  }

  datatype Tried = Accepted(items: seq<Item>) | Rejected(construct: char)

  /** Operator patterns are rejected exactly when some listed construct is bare, and
      the first one is named; accepted ones parse as `New` parses them. */
  method TryNew(pat: string) returns (r: Tried)
    ensures r.Accepted? <==> forall i :: 0 <= i < |pat| ==> !Bare(pat, i)
    ensures r.Accepted? ==> r.items == Parsed(pat)
    ensures r.Rejected? ==> exists i :: 0 <= i < |pat| && Bare(pat, i) && pat[i] == r.construct
                                        && forall j :: 0 <= j < i ==> !Bare(pat, j)
  {
    var i := 0;
    while i < |pat|
      invariant 0 <= i
      invariant i <= |pat| ==> BackslashesBefore(pat, i) % 2 == 0
      invariant forall j :: 0 <= j < i && j < |pat| ==> !Bare(pat, j)
    {
      if pat[i] == '\\' {
        i := i + 1;
      } else if pat[i] in UNSUPPORTED {
        assert Bare(pat, i);
        return Rejected(pat[i]);
      }
      i := i + 1;
    }
    var items := New(pat);
    r := Accepted(items);
  }

  // --------------------------------------------------- quantifiers read as literals

  /** Where the item that starts at `i` ends. */
  ghost function ItemEnd(p: string, i: nat): (j: nat)
    requires i < |p|
    ensures i < j <= |p|
  {
    var k := i + AtomLength(p[i..]);
    if FirstQuant(p[k..]) == One then k else k + 1
  }

  /** The positions at which the items of the rest of the pattern start. */
  ghost function Starts(p: string, i: nat): (starts: seq<nat>)
    requires i <= |p|
    ensures forall n :: 0 <= n < |starts| ==> i <= starts[n] < |p|
    decreases |p| - i
  {
    if i == |p| then [] else [i] + Starts(p, ItemEnd(p, i))
  }

  /** A star or plus that no backslash escapes. */
  ghost predicate BareQuantifier(p: string, i: int) {
    0 <= i < |p| && (p[i] == '*' || p[i] == '+') && BackslashesBefore(p, i) % 2 == 0
  }

  /** An item starts at the quantifier, which is then its literal. */
  ghost predicate TakenLiterally(p: string, i: int) {
    BareQuantifier(p, i) && i in Starts(p, 0)
  }

  lemma {:induction false} ItemsAtStarts(p: string, i: nat)
    requires i <= |p|
    ensures |Starts(p, i)| == |Parsed(p[i..])|
    ensures forall n :: 0 <= n < |Starts(p, i)| ==> Parsed(p[i..])[n].atom == FirstAtom(p[Starts(p, i)[n]..])
    decreases |p| - i
  {
    if i < |p| {
      var k, j := i + AtomLength(p[i..]), ItemEnd(p, i);
      assert p[i..][AtomLength(p[i..])..] == p[k..];
      assert AfterQuant(p[k..]) == p[j..];
      ParsedStep(p[i..], p[k..], p[j..]);
      ItemsAtStarts(p, j);
    }
  }

  /** What stands over [i, j) says of an item, character by character: a dot is any
      character, an escaped `d` a digit, every other character after a backslash itself,
      and so is every other character. The star or plus behind it is its quantifier. */
  ghost predicate Spells(p: string, i: nat, j: nat, item: Item) {
    i < |p| &&
    var escaped := p[i] == '\\' && i + 1 < |p|;
    var k := if escaped then i + 2 else i + 1;
    && (item.atom == Any <==> p[i] == '.')
    && (item.atom == Digit <==> escaped && p[i + 1] == 'd')
    && (escaped && p[i + 1] != 'd' ==> item.atom == Lit(p[i + 1]))
    && (!escaped && p[i] != '.' ==> item.atom == Lit(p[i]))
    && (item.quant == Star <==> k < |p| && p[k] == '*')
    && (item.quant == Plus <==> k < |p| && p[k] == '+')
    && j == if item.quant == One then k else k + 1
  }

  /** The rest of the pattern spells these items, one right behind the other, up to its
      end. */
  ghost predicate SpellsAll(p: string, i: nat, items: seq<Item>)
    decreases |items|
  {
    if items == [] then i == |p|
    else exists j :: Spells(p, i, j, items[0]) && SpellsAll(p, j, items[1..])
  }

  lemma SpellsOnce(p: string, i: nat, j: nat, item: Item, j': nat, item': Item)
    requires Spells(p, i, j, item) && Spells(p, i, j', item')
    ensures j == j' && item == item'
  {
  }

  lemma FirstSpells(p: string, i: nat)
    requires i < |p|
    ensures Parsed(p[i..]) != [] && Spells(p, i, ItemEnd(p, i), Parsed(p[i..])[0])
    ensures Parsed(p[i..])[1..] == Parsed(p[ItemEnd(p, i)..])
  {
    FirstItemInCharacters(p, i);
  }

  /** The parser returns what the pattern spells, and nothing else is spelled by it. */
  lemma {:induction false} ParsedIffSpelled(p: string, i: nat, items: seq<Item>)
    requires i <= |p|
    ensures SpellsAll(p, i, items) <==> items == Parsed(p[i..])
    decreases |p| - i
  {
    if i < |p| {
      FirstSpells(p, i);
      var first, end := Parsed(p[i..])[0], ItemEnd(p, i);
      if items != [] {
        ParsedIffSpelled(p, end, items[1..]);
        forall j | Spells(p, i, j, items[0])
          ensures j == end && items[0] == first
        {
          SpellsOnce(p, i, j, items[0], end, first);
        }
        assert items == [items[0]] + items[1..];
        assert Parsed(p[i..]) == [first] + Parsed(p[end..]);
      }
    }
  }

  lemma FirstItemInCharacters(p: string, i: nat)
    requires i < |p|
    ensures var escaped := p[i] == '\\' && i + 1 < |p|;
            var k := if escaped then i + 2 else i + 1;
            var atom := if escaped then (if p[i + 1] == 'd' then Digit else Lit(p[i + 1]))
                        else if p[i] == '.' then Any else Lit(p[i]);
            var quant := if k < |p| && p[k] == '*' then Star else if k < |p| && p[k] == '+' then Plus else One;
            && ItemEnd(p, i) == (if quant == One then k else k + 1)
            && Parsed(p[i..]) == [Item(atom, quant)] + Parsed(p[ItemEnd(p, i)..])
  {
    var k := i + AtomLength(p[i..]);
    assert p[i..][0] == p[i];
    if i + 1 < |p| {
      assert p[i..][1] == p[i + 1];
    }
    if k < |p| {
      assert p[k..][0] == p[k];
    }
    ItemAt(p, i, FirstAtom(p[i..]), k, FirstQuant(p[k..]), ItemEnd(p, i));
  }

  /** No character of the pattern has a meaning beyond itself. */
  ghost predicate Plain(p: string) {
    forall i :: 0 <= i < |p| ==> p[i] != '\\' && p[i] != '.' && p[i] != '*' && p[i] != '+'
  }

  lemma {:induction false} PlainDenotesItself(p: string, s: string)
    requires Plain(p)
    ensures Denotes(Parsed(p), s) <==> s == p
    decreases |p|
  {
    if p != "" {
      var rest := p[1..];
      var item := Item(Lit(p[0]), One);
      assert p[0..] == p;
      FirstItemInCharacters(p, 0);
      assert Parsed(p) == [item] + Parsed(rest);
      assert Parsed(p)[1..] == Parsed(rest);
      assert forall k :: 0 <= k <= |s| && Piece(item, s[..k]) ==> k == 1;
      if s != "" {
        PlainDenotesItself(rest, s[1..]);
        assert s == [s[0]] + s[1..] && p == [p[0]] + rest;
        assert Piece(item, s[..1]) <==> s[0] == p[0];
      }
    }
  }

  /** A plain pattern matches exactly the texts that contain it. */
  lemma PlainMatchesIffContained(p: string, text: string)
    requires Plain(p)
    ensures (exists i, j :: 0 <= i <= j <= |text| && Denotes(Parsed(p), text[i..j]))
       <==> (exists i, j :: 0 <= i <= j <= |text| && text[i..j] == p)
  {
    forall i, j | 0 <= i <= j <= |text|
      ensures Denotes(Parsed(p), text[i..j]) <==> text[i..j] == p
    {
      PlainDenotesItself(p, text[i..j]);
    }
  }

  /** Items end outside escapes. */
  lemma ItemEndsClean(p: string, i: nat)
    requires i < |p| && BackslashesBefore(p, i) % 2 == 0
    ensures BackslashesBefore(p, i + AtomLength(p[i..])) % 2 == 0 || i + AtomLength(p[i..]) == |p|
    ensures BackslashesBefore(p, ItemEnd(p, i)) % 2 == 0 || ItemEnd(p, i) == |p|
    ensures forall k :: i < k < i + AtomLength(p[i..]) ==> BackslashesBefore(p, k) % 2 == 1
  {
    var k := i + AtomLength(p[i..]);
    assert p[i..][0] == p[i];
    if k == i + 2 {
      assert BackslashesBefore(p, i + 1) == BackslashesBefore(p, i) + 1;
    }
    if ItemEnd(p, i) == k + 1 {
      assert p[k..][0] == p[k];
    }
  }

  /** Whether a quantifier inside or right behind the item at `from` is read literally. */
  lemma NearStart(p: string, from: nat, i: nat)
    requires from < |p| && from < i <= ItemEnd(p, from) && BackslashesBefore(p, from) % 2 == 0
    requires BareQuantifier(p, i)
    ensures i == ItemEnd(p, from) <==> BareQuantifier(p, i - 1) && i - 1 != from
  {
    var k := from + AtomLength(p[from..]);
    ItemEndsClean(p, from);
    assert p[from..][0] == p[from];
    assert i >= k;
    assert k < |p| && p[k..][0] == p[k];
    if i == k {
      assert ItemEnd(p, from) == k + 1;
    } else {
      assert i == k + 1 == ItemEnd(p, from);
    }
  }

  /** A bare quantifier is read as a literal exactly at the start of what is parsed, or
      right behind a bare quantifier that is itself read as one. */
  lemma {:induction false} LiteralIff(p: string, from: nat, i: nat)
    requires from <= i && BareQuantifier(p, i) && BackslashesBefore(p, from) % 2 == 0
    ensures i in Starts(p, from) <==>
      i == from || (BareQuantifier(p, i - 1) && i - 1 !in Starts(p, from))
    decreases |p| - from
  {
    if i > from {
      var end := ItemEnd(p, from);
      ItemEndsClean(p, from);
      if i <= end {
        NearStart(p, from, i);
        assert i in Starts(p, end) <==> i == end;
      } else {
        LiteralIff(p, end, i);
      }
    }
  }

  lemma TakenLiterallyIff(p: string, i: nat)
    requires BareQuantifier(p, i)
    ensures TakenLiterally(p, i) <==> i == 0 || (BareQuantifier(p, i - 1) && !TakenLiterally(p, i - 1))
    ensures TakenLiterally(p, i) ==> exists n :: 0 <= n < |Parsed(p)| && Parsed(p)[n].atom == Lit(p[i])
  {
    LiteralIff(p, 0, i);
    ItemsAtStarts(p, 0);
    assert p[0..] == p;
    if TakenLiterally(p, i) {
      var n :| 0 <= n < |Starts(p, 0)| && Starts(p, 0)[n] == i;
      assert p[i..][0] == p[i];
      assert Parsed(p)[n].atom == Lit(p[i]);
    }
  }

  /** Hence some bare quantifier of the pattern is read as a literal exactly when it
      begins with one or two stand next to each other. */
  lemma SomeTakenLiterallyIff(p: string)
    ensures (exists i :: TakenLiterally(p, i)) <==>
      BareQuantifier(p, 0) || exists i :: BareQuantifier(p, i) && BareQuantifier(p, i + 1)
  {
    forall i | TakenLiterally(p, i)
      ensures BareQuantifier(p, 0) || exists j :: BareQuantifier(p, j) && BareQuantifier(p, j + 1)
    {
      TakenLiterallyIff(p, i);
      if i != 0 {
        assert BareQuantifier(p, i - 1) && BareQuantifier(p, i - 1 + 1);
      }
    }
    if BareQuantifier(p, 0) {
      TakenLiterallyIff(p, 0);
    }
    forall i | BareQuantifier(p, i) && BareQuantifier(p, i + 1)
      ensures TakenLiterally(p, i) || TakenLiterally(p, i + 1)
    {
      TakenLiterallyIff(p, i + 1);
    }
  }

  /** The operator filter lets both forms through. */
  lemma LeadingQuantifierAccepted()
    ensures forall i :: 0 <= i < 2 ==> !Bare("*a", i)
    ensures TakenLiterally("*a", 0) && Parsed("*a") == [Item(Lit('*'), One), Item(Lit('a'), One)]
  {
    var p := "*a";
    assert p[0..] == p && p[2..] == "";
    ItemAt(p, 0, Lit('*'), 1, One, 1);
    ItemAt(p, 1, Lit('a'), 2, One, 2);
    TakenLiterallyIff(p, 0);
  }

  lemma DoubledQuantifierAccepted()
    ensures forall i :: 0 <= i < 3 ==> !Bare("a**", i)
    ensures TakenLiterally("a**", 2) && Parsed("a**") == [Item(Lit('a'), Star), Item(Lit('*'), One)]
  {
    var p := "a**";
    assert p[0..] == p && p[3..] == "";
    ItemAt(p, 0, Lit('a'), 1, Star, 2);
    ItemAt(p, 2, Lit('*'), 3, One, 3);
    TakenLiterallyIff(p, 2);
    TakenLiterallyIff(p, 1);
    assert !TakenLiterally(p, 1);
  }

  // ------------------------------------------------------------------ print / parse

  function PrintedAtom(atom: Atom): string {
    match atom
    case Lit(c) => if c == 'd' then "d" else ['\\', c]
    case Any => "."
    case Digit => "\\d"
  }

  function PrintedQuant(quant: Quant): string {
    match quant
    case One => ""
    case Star => "*"
    case Plus => "+"
  }

  /** A printer for every atom sequence: each literal but `d` is escaped. */
  function Printed(items: seq<Item>): string
    decreases |items|
  {
    if items == [] then ""
    else PrintedAtom(items[0].atom) + PrintedQuant(items[0].quant) + Printed(items[1..])
  }

  /** The parser undoes the printer, whatever bytes the literals are. */
  lemma {:induction false} PrintThenParse(items: seq<Item>)
    ensures Parsed(Printed(items)) == items
    decreases |items|
  {
    if items != [] {
      var a, q, rest := PrintedAtom(items[0].atom), PrintedQuant(items[0].quant), Printed(items[1..]);
      Assoc(a, q, rest);
      PrintedStart(items[1..]);
      AtomOfPrinted(items[0].atom, q + rest);
      QuantOfPrinted(items[0].quant, rest);
      ParsedStep(a + (q + rest), q + rest, rest);
      PrintThenParse(items[1..]);
    }
  }

  lemma AtomOfPrinted(atom: Atom, rest: string)
    ensures var p := PrintedAtom(atom) + rest;
            FirstAtom(p) == atom && p[AtomLength(p)..] == rest
  {
  }

  lemma QuantOfPrinted(quant: Quant, rest: string)
    requires rest != "" ==> rest[0] != '*' && rest[0] != '+'
    ensures FirstQuant(PrintedQuant(quant) + rest) == quant
    ensures AfterQuant(PrintedQuant(quant) + rest) == rest
  {
  }

  lemma PrintedStart(items: seq<Item>)
    ensures Printed(items) != "" ==> Printed(items)[0] != '*' && Printed(items)[0] != '+'
  {
    if items != [] {
      assert Printed(items)[0] == PrintedAtom(items[0].atom)[0];
    }
  }

  lemma {:induction false} BackslashesAcross(a: string, b: string, i: nat)
    requires i <= |b| && BackslashesBefore(a, |a|) % 2 == 0
    ensures BackslashesBefore(a + b, |a| + i) % 2 == BackslashesBefore(b, i) % 2
  {
    if i == 0 {
      BackslashesWithin(a, b, |a|);
    } else {
      BackslashesAcross(a, b, i - 1);
    }
  }

  lemma {:induction false} BackslashesWithin(a: string, b: string, i: nat)
    requires i <= |a|
    ensures BackslashesBefore(a + b, i) == BackslashesBefore(a, i)
  {
    if i > 0 {
      BackslashesWithin(a, b, i - 1);
    }
  }

  ghost predicate Clean(p: string) {
    && BackslashesBefore(p, |p|) % 2 == 0
    && forall i :: 0 <= i < |p| ==> !Bare(p, i)
  }

  lemma CleanConcat(a: string, b: string)
    requires Clean(a) && Clean(b)
    ensures Clean(a + b)
  {
    BackslashesAcross(a, b, |b|);
    forall i | 0 <= i < |a + b|
      ensures !Bare(a + b, i)
    {
      if i < |a| {
        BackslashesWithin(a, b, i);
        assert !Bare(a, i);
      } else {
        BackslashesAcross(a, b, i - |a|);
        assert !Bare(b, i - |a|);
      }
    }
  }

  /** Everything the printer prints is accepted by `TryNew`. */
  lemma {:induction false} PrintedIsAccepted(items: seq<Item>)
    ensures Clean(Printed(items))
    decreases |items|
  {
    if items != [] {
      var a, q := PrintedAtom(items[0].atom), PrintedQuant(items[0].quant);
      if |a| == 2 {
        assert BackslashesBefore(a, 0) == 0 && BackslashesBefore(a, 1) == 1;
        assert Clean(a);
      }
      CleanConcat(a, q);
      PrintedIsAccepted(items[1..]);
      CleanConcat(a + q, Printed(items[1..]));
    }
  }
}
