/** Projection authority (src/validity.rs): composition trees of claims, and the fit of
    a query computed from a registry row. Numbers are read by the library's parser,
    `num`; floats are reals. */
module Validity {
  import opened Wrappers
  import opened Lists

  datatype Authority = Advisory | CrossChecked | Gate
  {
    function Rank(): nat {
      match this
      case Advisory => 0
      case CrossChecked => 1
      case Gate => 2
    }
  }

  datatype DomainFit = AtAnchor | InDomain | OutOfDomain

  datatype Verdict = Certified | Provisional | Refused

  function Min(a: Authority, b: Authority): Authority {
    if a.Rank() <= b.Rank() then a else b
  }

  function AuthorityOf(anchored: bool, fit: DomainFit): Authority {
    if !anchored then Advisory
    else
      match fit
      case AtAnchor => Gate
      case InDomain => CrossChecked
      case OutOfDomain => Advisory
  }

  function Compose(a: Authority, b: Authority, compositeAnchored: bool): Authority {
    var m := Min(a, b);
    if compositeAnchored then m else Min(m, CrossChecked)
  }

  function VerdictOf(a: Authority): Verdict {
    match a
    case Gate => Certified
    case CrossChecked => Provisional
    case Advisory => Refused
  }

  // ---------------------------------------------------------- composition trees

  /** A projection built from claims by composing them, in any shape. */
  datatype Tree =
    | Claim(anchored: bool, fit: DomainFit)
    | Composite(left: Tree, right: Tree, reanchored: bool)
  {
    function Standing(): Authority {
      match this
      case Claim(anchored, fit) => AuthorityOf(anchored, fit)
      case Composite(left, right, reanchored) => Compose(left.Standing(), right.Standing(), reanchored)
    }

    ghost function Claims(): seq<Tree> {
      match this
      case Claim(_, _) => [this]
      case Composite(left, right, _) => left.Claims() + right.Claims()
    }

    ghost predicate EveryCompositeReanchored() {
      match this
      case Claim(_, _) => true
      case Composite(left, right, reanchored) =>
        reanchored && left.EveryCompositeReanchored() && right.EveryCompositeReanchored()
    }
  }

  ghost predicate IsGuess(claim: Tree) {
    claim.Claim? && (!claim.anchored || claim.fit == OutOfDomain)
  }

  ghost predicate IsMeasured(claim: Tree) {
    claim.Claim? && claim.anchored && claim.fit == AtAnchor
  }

  ghost predicate AllMeasured(claims: seq<Tree>) {
    forall i :: 0 <= i < |claims| ==> IsMeasured(claims[i])
  }

  ghost predicate NoGuess(claims: seq<Tree>) {
    forall i :: 0 <= i < |claims| ==> !IsGuess(claims[i])
  }

  /** What a tree of any shape is worth, in full: certified exactly when every claim was
      measured at its anchor and every composite re-anchored; refused exactly when some
      claim is a guess; provisional otherwise. No composition launders a claim. */
  lemma {:induction false} StandingIsDecidedByClaims(t: Tree)
    ensures VerdictOf(t.Standing()) == Certified <==> AllMeasured(t.Claims()) && t.EveryCompositeReanchored()
    ensures VerdictOf(t.Standing()) == Refused <==> !NoGuess(t.Claims())
    ensures forall i :: 0 <= i < |t.Claims()| ==> t.Standing().Rank() <= t.Claims()[i].Standing().Rank()
  {
    if t.Claim? {
      assert t.Claims()[0] == t;
    } else {
      var a, b := t.left.Claims(), t.right.Claims();
      StandingIsDecidedByClaims(t.left);
      StandingIsDecidedByClaims(t.right);
      SplitClaims(a, b);
      forall i | 0 <= i < |a + b|
        ensures t.Standing().Rank() <= (a + b)[i].Standing().Rank()
      {
        if i < |a| {
          assert (a + b)[i] == a[i];
        } else {
          assert (a + b)[i] == b[i - |a|];
        }
      }
    }
  }

  lemma SplitClaims(a: seq<Tree>, b: seq<Tree>)
    ensures AllMeasured(a + b) <==> AllMeasured(a) && AllMeasured(b)
    ensures NoGuess(a + b) <==> NoGuess(a) && NoGuess(b)
  {
    assert forall i :: 0 <= i < |a| ==> (a + b)[i] == a[i];
    assert forall i :: 0 <= i < |b| ==> (a + b)[i + |a|] == b[i];
  }

  // --------------------------------------------------------------- computed fit

  type Number = string -> Option<real>

  type Pair = (string, string)

  datatype DomainBound = Range(lo: real, hi: real) | Exact(s: string)

  datatype AnchorRow = AnchorRow(at: seq<Pair>, domain: seq<(string, DomainBound)>)

  predicate ValueEq(num: Number, a: string, b: string) {
    match (num(a), num(b))
    case (Some(x), Some(y)) => x == y
    case _ => a == b
  }

  predicate InBound(num: Number, bound: DomainBound, qv: string) {
    match bound
    case Range(lo, hi) =>
      (match num(qv)
       case Some(x) => lo <= x <= hi
       case None => false)
    case Exact(s) => ValueEq(num, qv, s)
  }

  /** What a value means to the comparison: its number, or else its text. */
  datatype Meaning = Numeric(x: real) | Text(s: string)

  ghost function MeaningOf(num: Number, v: string): Meaning {
    if num(v).Some? then Numeric(num(v).value) else Text(v)
  }

  /** What a bound admits: a number of the closed interval, or the very value. */
  ghost predicate Admits(num: Number, bound: DomainBound, v: string) {
    match bound
    case Range(lo, hi) => exists x :: num(v) == Some(x) && lo <= x && x <= hi
    case Exact(s) => MeaningOf(num, v) == MeaningOf(num, s)
  }

  lemma InBoundIffAdmitted(num: Number, bound: DomainBound, v: string)
    ensures InBound(num, bound, v) <==> Admits(num, bound, v)
  {
    if bound.Range? && num(v).Some? {
      assert num(v) == Some(num(v).value);
    }
  }

  /** Every axis of the query is in the domain, and every axis of the domain is
      supplied with a value inside its bound. */
  ghost predicate Covered(row: AnchorRow, query: seq<Pair>, num: Number) {
    && (forall i :: 0 <= i < |query| ==> HasKey(row.domain, query[i].0))
    && (forall d :: 0 <= d < |row.domain| ==> Supplied(row.domain[d], query, num))
  }

  ghost predicate Supplied(axis: (string, DomainBound), query: seq<Pair>, num: Number) {
    exists v :: FirstHolds(query, axis.0, v) && Admits(num, axis.1, v)
  }

  /** The query pair is one of the anchor's own. */
  ghost predicate OfAnchor(row: AnchorRow, pair: Pair, num: Number) {
    exists i :: 0 <= i < |row.at| && row.at[i].0 == pair.0 && ValueEq(num, row.at[i].1, pair.1)
  }

  ghost predicate ClaimsAnchor(row: AnchorRow, query: seq<Pair>, num: Number) {
    && |query| == |row.at|
    && forall i :: 0 <= i < |query| ==> OfAnchor(row, query[i], num)
  }

  method IsOfAnchor(row: AnchorRow, pair: Pair, num: Number) returns (yes: bool)
    ensures yes <==> OfAnchor(row, pair, num)
  {
    for i := 0 to |row.at|
      invariant forall j :: 0 <= j < i ==> !(row.at[j].0 == pair.0 && ValueEq(num, row.at[j].1, pair.1))
    {
      if row.at[i].0 == pair.0 && ValueEq(num, row.at[i].1, pair.1) {
        return true;
      }
    }
    yes := false;
  }

  /** The three fits are decided exactly by coverage and by the anchor comparison. */
  method ComputedFit(row: AnchorRow, query: seq<Pair>, num: Number) returns (fit: DomainFit)
    ensures fit == OutOfDomain <==> !Covered(row, query, num)
    ensures fit == AtAnchor <==> Covered(row, query, num) && ClaimsAnchor(row, query, num)
  {
    for i := 0 to |query|
      invariant forall j :: 0 <= j < i ==> HasKey(row.domain, query[j].0)
    {
      var k := Find(row.domain, query[i].0);
      if k == |row.domain| {
        assert !HasKey(row.domain, query[i].0);
        return OutOfDomain;
      }
      assert HasKey(row.domain, query[i].0);
    }
    for d := 0 to |row.domain|
      invariant forall e :: 0 <= e < d ==> Supplied(row.domain[e], query, num)
    {
      var (dk, bound) := row.domain[d];
      var k := Find(query, dk);
      if k == |query| {
        assert !Supplied(row.domain[d], query, num);
        return OutOfDomain;
      }
      assert FirstHolds(query, dk, query[k].1);
      FirstIsUnique(query, dk, query[k].1);
      InBoundIffAdmitted(num, bound, query[k].1);
      if !InBound(num, bound, query[k].1) {
        assert !Supplied(row.domain[d], query, num);
        return OutOfDomain;
      }
      assert Supplied(row.domain[d], query, num);
    }
    assert Covered(row, query, num);
    if |query| != |row.at| {
      return InDomain;
    }
    for i := 0 to |query|
      invariant forall j :: 0 <= j < i ==> OfAnchor(row, query[j], num)
    {
      var yes := IsOfAnchor(row, query[i], num);
      if !yes {
        return InDomain;
      }
    }
    fit := AtAnchor;
  }

  lemma FirstIsUnique(query: seq<Pair>, key: string, v: string)
    requires FirstHolds(query, key, v)
    ensures forall w :: FirstHolds(query, key, w) ==> w == v
  {
  }

  // --------------------------------------------------------- at the anchor point

  ghost predicate DistinctKeys(pairs: seq<Pair>) {
    forall i, j :: 0 <= i < j < |pairs| ==> pairs[i].0 != pairs[j].0
  }

  ghost predicate Reached(coordinate: Pair, query: seq<Pair>, num: Number) {
    exists i :: 0 <= i < |query| && query[i].0 == coordinate.0 && ValueEq(num, coordinate.1, query[i].1)
  }

  /** The query supplies every coordinate of the anchor, with its value. */
  ghost predicate ReachesAnchor(row: AnchorRow, query: seq<Pair>, num: Number) {
    forall a :: 0 <= a < |row.at| ==> Reached(row.at[a], query, num)
  }

  type Coordinate = (string, Meaning)

  ghost function CoordinateOf(pair: Pair, num: Number): Coordinate {
    (pair.0, MeaningOf(num, pair.1))
  }

  ghost function Coordinates(pairs: seq<Pair>, num: Number): (s: seq<Coordinate>)
    ensures |s| == |pairs|
    ensures forall i :: 0 <= i < |s| ==> s[i] == CoordinateOf(pairs[i], num)
  {
    seq(|pairs|, i requires 0 <= i < |pairs| => CoordinateOf(pairs[i], num))
  }

  ghost function Different<T(!new)>(s: seq<T>): set<T> {
    set x | x in s
  }

  lemma LastDifferent<T(!new)>(s: seq<T>)
    requires s != []
    ensures Different(s) == Different(s[..|s| - 1]) + {s[|s| - 1]}
  {
    assert s == s[..|s| - 1] + [s[|s| - 1]];
  }

  lemma {:induction false} DifferentSize<T(!new)>(s: seq<T>)
    ensures |Different(s)| <= |s|
    ensures |Different(s)| == |s| <==> forall i, j :: 0 <= i < j < |s| ==> s[i] != s[j]
  {
    if s != [] {
      var n := |s| - 1;
      DifferentSize(s[..n]);
      LastDifferent(s);
      assert s[n] in s[..n] <==> exists i :: 0 <= i < n && s[i] == s[n];
    }
  }

  lemma {:induction false} SubsetSize<T>(a: set<T>, b: set<T>)
    requires a <= b
    ensures |a| <= |b| && (|a| == |b| <==> a == b)
  {
    if a != {} {
      var x :| x in a;
      SubsetSize(a - {x}, b - {x});
      assert a == (a - {x}) + {x} && b == (b - {x}) + {x};
    }
  }

  lemma SameCoordinate(a: Pair, b: Pair, num: Number)
    ensures CoordinateOf(a, num) == CoordinateOf(b, num) <==> a.0 == b.0 && ValueEq(num, a.1, b.1)
  {
  }

  /** The different coordinates that some pairs name. */
  ghost function Named(pairs: seq<Pair>, num: Number): set<Coordinate> {
    Different(Coordinates(pairs, num))
  }

  lemma OfAnchorIffNamed(row: AnchorRow, pair: Pair, num: Number)
    ensures OfAnchor(row, pair, num) <==> CoordinateOf(pair, num) in Named(row.at, num)
  {
    forall i | 0 <= i < |row.at|
      ensures Coordinates(row.at, num)[i] == CoordinateOf(pair, num) <==>
              row.at[i].0 == pair.0 && ValueEq(num, row.at[i].1, pair.1)
    {
      SameCoordinate(row.at[i], pair, num);
    }
  }

  lemma ReachedIffNamed(at: Pair, query: seq<Pair>, num: Number)
    ensures Reached(at, query, num) <==> CoordinateOf(at, num) in Named(query, num)
  {
    forall i | 0 <= i < |query|
      ensures Coordinates(query, num)[i] == CoordinateOf(at, num) <==>
              query[i].0 == at.0 && ValueEq(num, at.1, query[i].1)
    {
      SameCoordinate(at, query[i], num);
    }
  }

  lemma NamesAmong(pairs: seq<Pair>, num: Number, s: set<Coordinate>)
    ensures Named(pairs, num) <= s <==> forall i :: 0 <= i < |pairs| ==> CoordinateOf(pairs[i], num) in s
  {
    var cs := Coordinates(pairs, num);
    assert forall i :: 0 <= i < |pairs| ==> cs[i] in Named(pairs, num);
  }

  /** The comparison asks for a query as long as the anchor and made of its
      coordinates; reaching the anchor asks for all of them. */
  lemma ComparisonInCoordinates(row: AnchorRow, query: seq<Pair>, num: Number)
    ensures ClaimsAnchor(row, query, num) <==> |query| == |row.at| && Named(query, num) <= Named(row.at, num)
    ensures ReachesAnchor(row, query, num) <==> Named(row.at, num) <= Named(query, num)
  {
    NamesAmong(query, num, Named(row.at, num));
    NamesAmong(row.at, num, Named(query, num));
    forall i | 0 <= i < |query|
      ensures OfAnchor(row, query[i], num) <==> CoordinateOf(query[i], num) in Named(row.at, num)
    {
      OfAnchorIffNamed(row, query[i], num);
    }
    forall i | 0 <= i < |row.at|
      ensures Reached(row.at[i], query, num) <==> CoordinateOf(row.at[i], num) in Named(query, num)
    {
      ReachedIffNamed(row.at[i], query, num);
    }
  }

  /** Exactly when a query that passes the anchor comparison is at the anchor: it names
      as many different coordinates as the anchor does. */
  lemma ClaimIsTrueIff(row: AnchorRow, query: seq<Pair>, num: Number)
    requires ClaimsAnchor(row, query, num)
    ensures ReachesAnchor(row, query, num) <==> |Named(query, num)| == |Named(row.at, num)|
  {
    ComparisonInCoordinates(row, query, num);
    SubsetSize(Named(query, num), Named(row.at, num));
  }

  /** For an anchor that names each axis once, that is: the query does not repeat a key.
      An anchor that repeats a key is never claimed by a query that does not. */
  lemma DistinctKeysDecideTheClaim(row: AnchorRow, query: seq<Pair>, num: Number)
    requires ClaimsAnchor(row, query, num)
    ensures DistinctKeys(row.at) ==> (ReachesAnchor(row, query, num) <==> DistinctKeys(query))
    ensures !DistinctKeys(row.at) ==> !DistinctKeys(query)
  {
    KeysOfClaim(row, query, num);
    KeyCount(query);
    KeyCount(row.at);
    SubsetSize(Different(Keys(query)), Different(Keys(row.at)));
    if DistinctKeys(row.at) {
      ClaimIsTrueIff(row, query, num);
      NamedCount(query, num);
      NamedCount(row.at, num);
    }
  }

  /** A domain that asks for every axis of such an anchor rules the repetition out. */
  lemma FullDomainSecuresTheAnchor(row: AnchorRow, query: seq<Pair>, num: Number)
    requires DistinctKeys(row.at) && forall a :: 0 <= a < |row.at| ==> HasKey(row.domain, row.at[a].0)
    requires Covered(row, query, num) && ClaimsAnchor(row, query, num)
    ensures ReachesAnchor(row, query, num)
  {
    forall a | 0 <= a < |row.at|
      ensures Keys(row.at)[a] in Different(Keys(query))
    {
      var d :| 0 <= d < |row.domain| && row.domain[d].0 == row.at[a].0;
      assert Supplied(row.domain[d], query, num);
      var i :| 0 <= i < |query| && query[i].0 == row.at[a].0;
      assert Keys(query)[i] == row.at[a].0;
    }
    KeyCount(query);
    KeyCount(row.at);
    SubsetSize(Different(Keys(row.at)), Different(Keys(query)));
    DistinctKeysDecideTheClaim(row, query, num);
  }

  lemma KeyCount(pairs: seq<Pair>)
    ensures |Different(Keys(pairs))| <= |pairs|
    ensures |Different(Keys(pairs))| == |pairs| <==> DistinctKeys(pairs)
  {
    DifferentSize(Keys(pairs));
  }

  /** No key comes with two different values. */
  ghost predicate Consistent(pairs: seq<Pair>, num: Number) {
    forall i, j :: 0 <= i < |pairs| && 0 <= j < |pairs| && pairs[i].0 == pairs[j].0 ==>
      CoordinateOf(pairs[i], num) == CoordinateOf(pairs[j], num)
  }

  lemma NamedCount(pairs: seq<Pair>, num: Number)
    requires Consistent(pairs, num)
    ensures |Named(pairs, num)| == |pairs| <==> DistinctKeys(pairs)
  {
    DifferentSize(Coordinates(pairs, num));
  }

  lemma KeysOfClaim(row: AnchorRow, query: seq<Pair>, num: Number)
    requires ClaimsAnchor(row, query, num)
    ensures Different(Keys(query)) <= Different(Keys(row.at))
    ensures DistinctKeys(row.at) ==> Consistent(query, num)
  {
    forall i | 0 <= i < |query|
      ensures exists a :: 0 <= a < |row.at| && row.at[a].0 == query[i].0
                          && CoordinateOf(row.at[a], num) == CoordinateOf(query[i], num)
    {
      assert OfAnchor(row, query[i], num);
      var a :| 0 <= a < |row.at| && row.at[a].0 == query[i].0 && ValueEq(num, row.at[a].1, query[i].1);
      SameCoordinate(row.at[a], query[i], num);
    }
    forall k | k in Different(Keys(query))
      ensures k in Different(Keys(row.at))
    {
      var i :| 0 <= i < |query| && Keys(query)[i] == k;
      var a :| 0 <= a < |row.at| && row.at[a].0 == query[i].0;
      assert Keys(row.at)[a] == k;
    }
  }

  /** A repeated key defeats it: the same axis twice passes for a two-axis anchor whose
      second axis the domain does not ask for. */
  lemma RepeatedKeyPassesForAnchor(num: Number, a: string, v: string, b: string, w: string)
    requires a != b
    ensures var row := AnchorRow([(a, v), (b, w)], [(a, Exact(v))]);
      var query := [(a, v), (a, v)];
      Covered(row, query, num) && ClaimsAnchor(row, query, num) && !ReachesAnchor(row, query, num)
  {
    var row := AnchorRow([(a, v), (b, w)], [(a, Exact(v))]);
    var query := [(a, v), (a, v)];
    assert row.at[0] == (a, v) && row.at[1] == (b, w) && row.domain[0] == (a, Exact(v));
    OneAxis(query, num, a, v);
    assert OfAnchor(row, (a, v), num);
    assert !Reached((b, w), query, num);
  }

  lemma OneAxis(query: seq<Pair>, num: Number, a: string, v: string)
    requires query != [] && query[0] == (a, v)
    ensures Supplied((a, Exact(v)), query, num)
  {
    assert FirstHolds(query, a, v);
  }
}
