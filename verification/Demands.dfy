/** Fractional demand vectors and overlap contention (src/lib.rs). The original's
    64-bit floats are reals here. */
module Demands {
  import opened Wrappers

  datatype ResourceKind = Pipe(index: nat) | LocalStoreBw | MemoryBw | Issue

  type Demand = (ResourceKind, real)

  datatype SteadyState = SteadyState(
    perResource: seq<Demand>,
    ppmCycles: real,
    ppmBound: nat,
    addCycles: real)

  // ---------------------------------------------------------- specification side

  /** The demand on one resource: everything the vector asks of it. */
  ghost function On(v: seq<Demand>, k: ResourceKind): real {
    if v == [] then 0.0
    else On(v[..|v| - 1], k) + if v[|v| - 1].0 == k then v[|v| - 1].1 else 0.0
  }

  ghost predicate DistinctKinds(v: seq<Demand>) {
    forall i, j :: 0 <= i < j < |v| ==> v[i].0 != v[j].0
  }

  /** Every entry after the first of its kind is zero, as with distinct kinds. */
  ghost predicate Concentrated(v: seq<Demand>) {
    forall i, j :: 0 <= i < j < |v| && v[i].0 == v[j].0 ==> v[j].1 == 0.0
  }

  ghost predicate NonNegative(v: seq<Demand>) {
    forall i :: 0 <= i < |v| ==> v[i].1 >= 0.0
  }

  /** Sum of all demands but those of kind Issue, in order. */
  ghost function Work(v: seq<Demand>): real {
    if v == [] then 0.0
    else Work(v[..|v| - 1]) + if v[|v| - 1].0 == Issue then 0.0 else v[|v| - 1].1
  }

  /** The binding entry is the first of the largest ones. */
  ghost predicate IsBound(v: seq<Demand>, b: nat) {
    && b < |v|
    && (forall i :: 0 <= i < |v| ==> v[i].1 <= v[b].1)
    && (forall i :: 0 <= i < b ==> v[i].1 < v[b].1)
  }

  /** The additive model: all work, or the last issue demand when there is none. */
  ghost predicate IsAdditive(v: seq<Demand>, add: real) {
    if Work(v) > 0.0 then add == Work(v)
    else if exists i :: 0 <= i < |v| && v[i].0 == Issue then
      exists i :: 0 <= i < |v| && v[i].0 == Issue && add == v[i].1
                  && forall j :: i < j < |v| ==> v[j].0 != Issue
    else add == Work(v)
  }

  /** The largest entry, zero for an empty vector. */
  ghost function Ppm(v: seq<Demand>): real {
    if v == [] then 0.0
    else if |v| == 1 then v[0].1
    else
      var n := |v| - 1;
      var m := Ppm(v[..n]);
      if v[n].1 > m then v[n].1 else m
  }

  // ---------------------------------------------------------------- the methods

  method SelectBound(v: seq<Demand>) returns (ss: SteadyState)
    ensures ss.perResource == v && ss.ppmCycles == Ppm(v)
    ensures v == [] ==> ss.ppmBound == 0 && ss.addCycles == 0.0
    ensures v != [] ==> IsBound(v, ss.ppmBound) && ss.ppmCycles == v[ss.ppmBound].1
    ensures IsAdditive(v, ss.addCycles)
  {
    if v == [] {
      return SteadyState([], 0.0, 0, 0.0);
    }
    var bound := 0;
    for i := 1 to |v|
      invariant IsBound(v[..i], bound)
    {
      if v[i].1 > v[bound].1 {
        bound := i;
      }
    }
    assert v[..|v|] == v;
    BoundIsPpm(v, bound);
    var add := 0.0;
    var issue: Option<real> := None;
    for i := 0 to |v|
      invariant add == Work(v[..i])
      invariant issue.None? ==> forall j :: 0 <= j < i ==> v[j].0 != Issue
      invariant issue.Some? ==> exists k :: 0 <= k < i && v[k].0 == Issue && issue.value == v[k].1
                                            && forall j :: k < j < i ==> v[j].0 != Issue
    {
      assert v[..i + 1][..i] == v[..i];
      if v[i].0 == Issue {
        issue := Some(v[i].1);
      } else {
        add := add + v[i].1;
      }
    }
    var addCycles := if add > 0.0 then add else if issue.Some? then issue.value else add;
    ss := SteadyState(v, v[bound].1, bound, addCycles);
  }

  method MergeDemands(a: seq<Demand>, b: seq<Demand>) returns (out: seq<Demand>)
    ensures out == Merge(a, b)
  {
    out := a;
    for i := 0 to |b|
      invariant out == Merge(a, b[..i])
    {
      assert b[..i + 1][..i] == b[..i];
      var (kind, c) := b[i];
      var k := 0;
      while k < |out| && out[k].0 != kind
        invariant 0 <= k <= |out|
        invariant forall j :: 0 <= j < k ==> out[j].0 != kind
      {
        k := k + 1;
      }
      BumpAt(out, b[i], k);
      if k < |out| {
        out := out[k := (kind, out[k].1 + c)];
      } else {
        out := out + [(kind, c)];
      }
    }
    assert b[..|b|] == b;
  }

  method OverlappedContended(memLane: seq<Demand>, computeLane: seq<Demand>) returns (cycles: real)
    ensures cycles == Ppm(Merge(memLane, computeLane))
    ensures Concentrated(memLane) && NonNegative(memLane) && NonNegative(computeLane) ==>
      IsPeak(cycles, memLane, computeLane)
    ensures NoneNegative(computeLane) ==> Ppm(memLane) <= cycles
    ensures LeadsNonNegative(memLane) && NonNegative(computeLane) ==> Ppm(computeLane) <= cycles
    ensures Ppm(memLane) >= 0.0 && NoneExceeds(computeLane) ==> cycles <= Ppm(memLane) + Ppm(computeLane)
  {
    ContentionBracketsOverlap(memLane, computeLane);
    if Concentrated(memLane) && NonNegative(memLane) && NonNegative(computeLane) {
      OverlapIsPeak(memLane, computeLane);
    }
    var merged := MergeDemands(memLane, computeLane);
    var ss := SelectBound(merged);
    cycles := ss.ppmCycles;
  }

  /** Adds a demand to the first entry of its kind, or at the end. */
  ghost function Bump(v: seq<Demand>, d: Demand): seq<Demand> {
    if v == [] then [d]
    else if v[0].0 == d.0 then [(d.0, v[0].1 + d.1)] + v[1..]
    else [v[0]] + Bump(v[1..], d)
  }

  ghost function Merge(a: seq<Demand>, b: seq<Demand>): seq<Demand> {
    if b == [] then a else Bump(Merge(a, b[..|b| - 1]), b[|b| - 1])
  }

  lemma {:induction false} BumpAt(v: seq<Demand>, d: Demand, k: nat)
    requires k <= |v| && (forall j :: 0 <= j < k ==> v[j].0 != d.0)
    requires k < |v| ==> v[k].0 == d.0
    ensures Bump(v, d) == if k < |v| then v[k := (d.0, v[k].1 + d.1)] else v + [d]
  {
    if k == |v| {
      BumpNew(v, d);
    } else if k == 0 {
      assert v[0 := (d.0, v[0].1 + d.1)] == [(d.0, v[0].1 + d.1)] + v[1..];
    } else {
      BumpAt(v[1..], d, k - 1);
      assert v[k := (d.0, v[k].1 + d.1)] == [v[0]] + v[1..][k - 1 := (d.0, v[k].1 + d.1)];
    }
  }

  lemma {:induction false} BumpNew(v: seq<Demand>, d: Demand)
    requires forall j :: 0 <= j < |v| ==> v[j].0 != d.0
    ensures Bump(v, d) == v + [d]
  {
    if v != [] {
      BumpNew(v[1..], d);
      assert v + [d] == [v[0]] + (v[1..] + [d]);
    }
  }

  lemma {:induction false} BoundIsPpm(v: seq<Demand>, b: nat)
    requires b < |v| && forall i :: 0 <= i < |v| ==> v[i].1 <= v[b].1
    ensures Ppm(v) == v[b].1
  {
    PpmIsLargest(v);
  }

  lemma {:induction false} PpmIsLargest(v: seq<Demand>)
    requires v != []
    ensures forall i :: 0 <= i < |v| ==> v[i].1 <= Ppm(v)
    ensures exists i :: 0 <= i < |v| && v[i].1 == Ppm(v)
  {
    var n := |v| - 1;
    if n == 0 {
      assert v[0].1 == Ppm(v);
    } else {
      PpmIsLargest(v[..n]);
      var i :| 0 <= i < n && v[..n][i].1 == Ppm(v[..n]);
      assert v[i].1 == Ppm(v[..n]);
      assert v[if v[n].1 > v[i].1 then n else i].1 == Ppm(v);
      forall j | 0 <= j < n
        ensures v[j].1 <= Ppm(v[..n])
      {
        assert v[..n][j] == v[j];
      }
    }
  }

  // ------------------------------------------------------------ contention laws

  lemma {:induction false} OnAppend(v: seq<Demand>, w: seq<Demand>, k: ResourceKind)
    ensures On(v + w, k) == On(v, k) + On(w, k)
  {
    if w == [] {
      assert v + w == v;
    } else {
      var n := |w| - 1;
      assert (v + w)[..|v + w| - 1] == v + w[..n];
      OnAppend(v, w[..n], k);
    }
  }

  lemma OnOne(d: Demand, k: ResourceKind)
    ensures On([d], k) == if d.0 == k then d.1 else 0.0
  {
    assert [d][..0] == [];
  }

  lemma {:induction false} BumpOn(v: seq<Demand>, d: Demand, k: ResourceKind)
    ensures On(Bump(v, d), k) == On(v, k) + On([d], k)
  {
    if v != [] {
      OnOne(v[0], k);
      OnOne(d, k);
      assert v == [v[0]] + v[1..];
      OnAppend([v[0]], v[1..], k);
      if v[0].0 == d.0 {
        OnOne((d.0, v[0].1 + d.1), k);
        OnAppend([(d.0, v[0].1 + d.1)], v[1..], k);
      } else {
        OnAppend([v[0]], Bump(v[1..], d), k);
        BumpOn(v[1..], d, k);
      }
    }
  }

  /** Merging adds demands resource by resource, whatever the vectors hold. */
  lemma {:induction false} MergeAdds(a: seq<Demand>, b: seq<Demand>, k: ResourceKind)
    ensures On(Merge(a, b), k) == On(a, k) + On(b, k)
  {
    if b != [] {
      var n := |b| - 1;
      MergeAdds(a, b[..n], k);
      BumpOn(Merge(a, b[..n]), b[n], k);
      OnOne(b[n], k);
    }
  }

  /** Hence merging is associative on every resource. */
  lemma MergeAssociative(a: seq<Demand>, b: seq<Demand>, c: seq<Demand>, k: ResourceKind)
    ensures On(Merge(Merge(a, b), c), k) == On(Merge(a, Merge(b, c)), k)
  {
    MergeAdds(Merge(a, b), c, k);
    MergeAdds(a, b, k);
    MergeAdds(a, Merge(b, c), k);
    MergeAdds(b, c, k);
  }

  ghost predicate HasKind(v: seq<Demand>, k: ResourceKind) {
    exists i :: 0 <= i < |v| && v[i].0 == k
  }

  lemma BumpKinds(v: seq<Demand>, d: Demand)
    ensures DistinctKinds(v) ==> DistinctKinds(Bump(v, d))
    ensures Concentrated(v) ==> Concentrated(Bump(v, d))
    ensures forall k :: HasKind(Bump(v, d), k) <==> HasKind(v, k) || k == d.0
  {
    var bumped := Bump(v, d);
    if HasKind(v, d.0) {
      var f := FirstOf(v, d.0);
      BumpAt(v, d, f);
      assert forall i :: 0 <= i < |v| ==> bumped[i].0 == v[i].0;
    } else {
      BumpAt(v, d, |v|);
      assert bumped[|v|].0 == d.0 && forall i :: 0 <= i < |v| ==> bumped[i].0 == v[i].0;
    }
  }

  lemma {:induction false} BumpNonNegative(v: seq<Demand>, d: Demand)
    requires NonNegative(v) && d.1 >= 0.0
    ensures NonNegative(Bump(v, d))
  {
    if v != [] {
      BumpNonNegative(v[1..], d);
    }
  }

  lemma {:induction false} FirstOf(v: seq<Demand>, k: ResourceKind) returns (i: nat)
    requires HasKind(v, k)
    ensures i < |v| && v[i].0 == k && forall j :: 0 <= j < i ==> v[j].0 != k
  {
    if v[0].0 == k {
      i := 0;
    } else {
      var j :| 0 <= j < |v| && v[j].0 == k;
      assert v[1..][j - 1].0 == k;
      i := FirstOf(v[1..], k);
      i := i + 1;
    }
  }

  lemma KindsOfPrefix(v: seq<Demand>, k: ResourceKind)
    requires v != []
    ensures HasKind(v, k) <==> HasKind(v[..|v| - 1], k) || k == v[|v| - 1].0
  {
    var n := |v| - 1;
    if HasKind(v[..n], k) {
      var i :| 0 <= i < n && v[..n][i].0 == k;
      assert v[i].0 == k;
    }
    if HasKind(v, k) {
      var i :| 0 <= i < |v| && v[i].0 == k;
      if i < n {
        assert v[..n][i].0 == k;
      }
    }
  }

  lemma {:induction false} MergeKinds(a: seq<Demand>, b: seq<Demand>)
    ensures DistinctKinds(a) ==> DistinctKinds(Merge(a, b))
    ensures Concentrated(a) ==> Concentrated(Merge(a, b))
    ensures forall k :: HasKind(Merge(a, b), k) <==> HasKind(a, k) || HasKind(b, k)
  {
    if b != [] {
      var n := |b| - 1;
      MergeKinds(a, b[..n]);
      BumpKinds(Merge(a, b[..n]), b[n]);
      forall k
        ensures HasKind(Merge(a, b), k) <==> HasKind(a, k) || HasKind(b, k)
      {
        KindsOfPrefix(b, k);
      }
    }
  }

  lemma {:induction false} MergeNonNegative(a: seq<Demand>, b: seq<Demand>)
    requires NonNegative(a) && NonNegative(b)
    ensures NonNegative(Merge(a, b))
  {
    if b != [] {
      var n := |b| - 1;
      MergeNonNegative(a, b[..n]);
      BumpNonNegative(Merge(a, b[..n]), b[n]);
    }
  }

  lemma {:induction false} DistinctOn(v: seq<Demand>, i: nat)
    requires DistinctKinds(v) && i < |v|
    ensures On(v, v[i].0) == v[i].1
  {
    var n := |v| - 1;
    if i < n {
      DistinctOn(v[..n], i);
    } else {
      AbsentOn(v[..n], v[i].0);
    }
  }

  lemma {:induction false} ConcentratedOn(v: seq<Demand>, i: nat)
    requires Concentrated(v) && i < |v| && forall j :: 0 <= j < i ==> v[j].0 != v[i].0
    ensures On(v, v[i].0) == v[i].1
  {
    var n := |v| - 1;
    if i < n {
      ConcentratedOn(v[..n], i);
    } else {
      AbsentOn(v[..n], v[i].0);
    }
  }

  lemma {:induction false} AbsentOn(v: seq<Demand>, k: ResourceKind)
    requires !HasKind(v, k)
    ensures On(v, k) == 0.0
  {
    if v != [] {
      var n := |v| - 1;
      assert forall i :: 0 <= i < n ==> v[..n][i] == v[i];
      AbsentOn(v[..n], k);
    }
  }

  /** `m` is the largest combined demand of two lanes on any resource at all. */
  ghost predicate IsPeak(m: real, a: seq<Demand>, b: seq<Demand>) {
    && (forall k :: On(a, k) + On(b, k) <= m)
    && (exists k :: On(a, k) + On(b, k) == m)
  }

  /** Without negative demand the per-pipe-max is the peak of a concentrated vector. */
  lemma PpmIsPeak(v: seq<Demand>)
    requires Concentrated(v) && NonNegative(v)
    ensures IsPeak(Ppm(v), v, [])
  {
    if v == [] {
      assert On(v, Issue) + On([], Issue) == Ppm(v);
    } else {
      PpmIsLargest(v);
      var top :| 0 <= top < |v| && v[top].1 == Ppm(v);
      var first := FirstOf(v, v[top].0);
      ConcentratedOn(v, first);
      assert first < top ==> v[top].1 == 0.0;
      assert On(v, v[top].0) + On([], v[top].0) == Ppm(v);
      forall k
        ensures On(v, k) + On([], k) <= Ppm(v)
      {
        if HasKind(v, k) {
          var i := FirstOf(v, k);
          ConcentratedOn(v, i);
        } else {
          AbsentOn(v, k);
        }
      }
    }
  }

  /** Overlapping two lanes costs the largest summed demand on any resource. The second
      lane may even list a resource several times. */
  lemma OverlapIsPeak(a: seq<Demand>, b: seq<Demand>)
    requires Concentrated(a) && NonNegative(a) && NonNegative(b)
    ensures IsPeak(Ppm(Merge(a, b)), a, b)
  {
    var merged := Merge(a, b);
    MergeKinds(a, b);
    MergeNonNegative(a, b);
    PpmIsPeak(merged);
    forall k
      ensures On(merged, k) + On([], k) == On(a, k) + On(b, k)
    {
      MergeAdds(a, b, k);
    }
    var k :| On(merged, k) + On([], k) == Ppm(merged);
    assert On(a, k) + On(b, k) == Ppm(merged);
  }

  lemma {:induction false} OnNonNegative(v: seq<Demand>, k: ResourceKind)
    requires NonNegative(v)
    ensures On(v, k) >= 0.0
  {
    if v != [] {
      OnNonNegative(v[..|v| - 1], k);
    }
  }

  /** A lane as it is built: no resource is spread over several entries. */
  ghost predicate IsLane(v: seq<Demand>) {
    Concentrated(v) && NonNegative(v)
  }

  /** No resource is asked for more in total than the largest single entry. */
  ghost predicate NoneExceeds(v: seq<Demand>) {
    forall k :: On(v, k) <= Ppm(v)
  }

  /** No resource is asked for less than nothing in total. */
  ghost predicate NoneNegative(v: seq<Demand>) {
    forall k :: On(v, k) >= 0.0
  }

  /** Entry `i` is the first of its kind, the one that merging adds to. */
  ghost predicate Leads(v: seq<Demand>, i: int) {
    0 <= i < |v| && forall j :: 0 <= j < i ==> v[j].0 != v[i].0
  }

  ghost predicate LeadsNonNegative(v: seq<Demand>) {
    forall i :: Leads(v, i) ==> v[i].1 >= 0.0
  }

  lemma LanesDoNotExceed(v: seq<Demand>)
    requires Concentrated(v) && Ppm(v) >= 0.0
    ensures NoneExceeds(v)
  {
    forall k
      ensures On(v, k) <= Ppm(v)
    {
      if HasKind(v, k) {
        var i := FirstOf(v, k);
        ConcentratedOn(v, i);
        EntryWithinPpm(v, i);
      } else {
        AbsentOn(v, k);
      }
    }
  }

  lemma PpmNonNegative(v: seq<Demand>)
    requires NonNegative(v)
    ensures Ppm(v) >= 0.0
  {
    if v != [] {
      PpmIsLargest(v);
    }
  }

  lemma EntryWithinPpm(v: seq<Demand>, i: nat)
    requires i < |v|
    ensures v[i].1 <= Ppm(v)
  {
    PpmIsLargest(v);
  }

  lemma PpmWithin(v: seq<Demand>, m: real)
    requires v == [] ==> 0.0 <= m
    requires forall i :: 0 <= i < |v| ==> v[i].1 <= m
    ensures Ppm(v) <= m
  {
    if v != [] {
      PpmIsLargest(v);
    }
  }

  lemma EntryOn(v: seq<Demand>, i: nat)
    requires NonNegative(v) && i < |v|
    ensures v[i].1 <= On(v, v[i].0)
  {
    OnCovers(v, i);
  }

  /** Entry by entry, what merging does to any vector: the first entry of each kind
      takes all that the other asks of it, and nothing else changes. */
  lemma {:induction false} MergeAt(a: seq<Demand>, b: seq<Demand>, i: nat)
    requires i < |a|
    ensures i < |Merge(a, b)| && Merge(a, b)[i].0 == a[i].0
    ensures Merge(a, b)[i].1 == a[i].1 + if Leads(a, i) then On(b, a[i].0) else 0.0
  {
    if b != [] {
      var n := |b| - 1;
      MergeAt(a, b[..n], i);
      MergeKeepsLeads(a, b[..n], i);
      BumpEntry(Merge(a, b[..n]), b[n], i);
    }
  }

  lemma BumpEntry(v: seq<Demand>, d: Demand, i: nat)
    requires i < |v|
    ensures i < |Bump(v, d)| && Bump(v, d)[i].0 == v[i].0
    ensures Bump(v, d)[i].1 == v[i].1 + if Leads(v, i) && v[i].0 == d.0 then d.1 else 0.0
  {
    if HasKind(v, d.0) {
      var f := FirstOf(v, d.0);
      BumpAt(v, d, f);
    } else {
      BumpAt(v, d, |v|);
    }
  }

  lemma {:induction false} MergeKeepsLeads(a: seq<Demand>, b: seq<Demand>, i: nat)
    requires i < |a|
    ensures i < |Merge(a, b)| && (Leads(Merge(a, b), i) <==> Leads(a, i))
    ensures forall j :: 0 <= j <= i ==> Merge(a, b)[j].0 == a[j].0
  {
    if b != [] {
      var n := |b| - 1;
      MergeKeepsLeads(a, b[..n], i);
      forall j | 0 <= j <= i
        ensures i < |Merge(a, b)| && Merge(a, b)[j].0 == a[j].0
      {
        BumpEntry(Merge(a, b[..n]), b[n], j);
        BumpEntry(Merge(a, b[..n]), b[n], i);
      }
    }
  }

  /** The kinds that only the second vector lists are appended, each with all that is
      asked of it. */
  lemma {:induction false} MergeBehind(a: seq<Demand>, b: seq<Demand>, i: nat)
    requires |a| <= i < |Merge(a, b)|
    ensures Merge(a, b)[i].1 == On(b, Merge(a, b)[i].0)
    ensures Leads(Merge(a, b), i)
  {
    var n := |b| - 1;
    var before, d := Merge(a, b[..n]), b[n];
    if i < |before| {
      MergeBehind(a, b[..n], i);
      BumpEntry(before, d, i);
      BumpKeepsLead(before, d, i);
    } else {
      BumpBehind(before, d, i);
      MergeAdds(a, b[..n], d.0);
      MergeKinds(a, b[..n]);
      AbsentOn(a, d.0);
      AbsentOn(before, d.0);
    }
  }

  lemma BumpKeepsLead(v: seq<Demand>, d: Demand, i: nat)
    requires Leads(v, i)
    ensures Leads(Bump(v, d), i)
  {
    BumpEntry(v, d, i);
    forall j | 0 <= j < i
      ensures j < |Bump(v, d)| && Bump(v, d)[j].0 != v[i].0
    {
      BumpEntry(v, d, j);
    }
  }

  lemma BumpBehind(v: seq<Demand>, d: Demand, i: nat)
    requires |v| <= i < |Bump(v, d)|
    ensures Bump(v, d) == v + [d] && !HasKind(v, d.0) && Leads(Bump(v, d), i)
  {
    if HasKind(v, d.0) {
      var f := FirstOf(v, d.0);
      BumpAt(v, d, f);
    } else {
      BumpAt(v, d, |v|);
    }
  }

  /** Where merging puts what is asked of a kind: at the lead of that kind. */
  lemma MergedLead(a: seq<Demand>, b: seq<Demand>, k: ResourceKind)
    requires LeadsNonNegative(a) && HasKind(b, k)
    ensures On(b, k) <= Ppm(Merge(a, b))
  {
    MergeKinds(a, b);
    var i := FirstOf(Merge(a, b), k);
    EntryWithinPpm(Merge(a, b), i);
    if i < |a| {
      MergeAt(a, b, i);
      MergeKeepsLeads(a, b, i);
    } else {
      MergeBehind(a, b, i);
    }
  }

  lemma LowerBoundOfFirst(a: seq<Demand>, b: seq<Demand>)
    requires NoneNegative(b)
    ensures Ppm(a) <= Ppm(Merge(a, b))
  {
    forall i | 0 <= i < |a|
      ensures a[i].1 <= Ppm(Merge(a, b))
    {
      MergeAt(a, b, i);
      EntryWithinPpm(Merge(a, b), i);
    }
    if a == [] && Merge(a, b) != [] {
      MergeBehind(a, b, 0);
      EntryWithinPpm(Merge(a, b), 0);
    }
    PpmWithin(a, Ppm(Merge(a, b)));
  }

  lemma LowerBoundOfSecond(a: seq<Demand>, b: seq<Demand>)
    requires LeadsNonNegative(a) && NonNegative(b)
    ensures Ppm(b) <= Ppm(Merge(a, b))
  {
    forall i | 0 <= i < |b|
      ensures b[i].1 <= Ppm(Merge(a, b))
    {
      EntryOn(b, i);
      MergedLead(a, b, b[i].0);
    }
    if b == [] && a != [] {
      assert Leads(a, 0);
      EntryWithinPpm(a, 0);
    }
    PpmWithin(b, Ppm(Merge(a, b)));
  }

  lemma UpperBound(a: seq<Demand>, b: seq<Demand>)
    requires Ppm(a) >= 0.0 && NoneExceeds(b)
    ensures Ppm(Merge(a, b)) <= Ppm(a) + Ppm(b)
  {
    SomeKindIsFree(b);
    forall i | 0 <= i < |Merge(a, b)|
      ensures Merge(a, b)[i].1 <= Ppm(a) + Ppm(b)
    {
      if i < |a| {
        MergeAt(a, b, i);
        EntryWithinPpm(a, i);
      } else {
        MergeBehind(a, b, i);
      }
    }
    PpmWithin(Merge(a, b), Ppm(a) + Ppm(b));
  }

  /** There are more pipes than entries, so some resource is not asked for. */
  lemma {:induction false} FreePipe(v: seq<Demand>) returns (u: nat)
    ensures forall i :: 0 <= i < |v| && v[i].0.Pipe? ==> v[i].0.index < u
  {
    u := 0;
    if v != [] {
      var n := |v| - 1;
      u := FreePipe(v[..n]);
      assert forall i :: 0 <= i < n ==> v[..n][i] == v[i];
      if v[n].0.Pipe? && v[n].0.index >= u {
        u := v[n].0.index + 1;
      }
    }
  }

  lemma SomeKindIsFree(v: seq<Demand>)
    ensures exists k :: On(v, k) == 0.0
  {
    var u := FreePipe(v);
    AbsentOn(v, Pipe(u));
  }

  /** Contention and its bounds, for any lanes whatever. It never beats the first lane
      when the second asks of no resource less than nothing, nor the second when no first
      entry of the first lane is negative. It never costs more than running them one after
      the other when the second asks of no resource more than its largest entry. Built
      lanes are all of this. */
  lemma ContentionBracketsOverlap(a: seq<Demand>, b: seq<Demand>)
    ensures NoneNegative(b) ==> Ppm(a) <= Ppm(Merge(a, b))
    ensures LeadsNonNegative(a) && NonNegative(b) ==> Ppm(b) <= Ppm(Merge(a, b))
    ensures Ppm(a) >= 0.0 && NoneExceeds(b) ==> Ppm(Merge(a, b)) <= Ppm(a) + Ppm(b)
    ensures NonNegative(b) ==> NoneNegative(b)
    ensures Concentrated(b) && Ppm(b) >= 0.0 ==> NoneExceeds(b)
  {
    if NonNegative(b) {
      forall k
        ensures On(b, k) >= 0.0
      {
        OnNonNegative(b, k);
      }
    }
    if NoneNegative(b) {
      LowerBoundOfFirst(a, b);
    }
    if LeadsNonNegative(a) && NonNegative(b) {
      LowerBoundOfSecond(a, b);
    }
    if Ppm(a) >= 0.0 && NoneExceeds(b) {
      UpperBound(a, b);
    }
    if Concentrated(b) && Ppm(b) >= 0.0 {
      LanesDoNotExceed(b);
    }
  }

  lemma OneEntry(d: Demand)
    ensures Ppm([d]) == d.1 && Leads([d], 0)
  {
  }

  ghost predicate WithinSerial(a: seq<Demand>, b: seq<Demand>) {
    Ppm(Merge(a, b)) <= Ppm(a) + Ppm(b)
  }

  ghost predicate NoFaster(a: seq<Demand>, b: seq<Demand>) {
    Ppm(a) <= Ppm(Merge(a, b))
  }

  /** The serial bound is exact: a second lane stays within the serial cost next to every
      first lane if and only if it asks of no resource more than its largest entry. */
  lemma SerialBoundIff(b: seq<Demand>)
    ensures (forall a: seq<Demand> :: Ppm(a) >= 0.0 ==> WithinSerial(a, b)) <==> NoneExceeds(b)
  {
    if NoneExceeds(b) {
      forall a: seq<Demand> | Ppm(a) >= 0.0
        ensures WithinSerial(a, b)
      {
        UpperBound(a, b);
      }
    }
    if forall a: seq<Demand> :: Ppm(a) >= 0.0 ==> WithinSerial(a, b) {
      forall k
        ensures On(b, k) <= Ppm(b)
      {
        var none: seq<Demand> := [(k, 0.0)];
        OneEntry((k, 0.0));
        MergeAt(none, b, 0);
        EntryWithinPpm(Merge(none, b), 0);
        assert WithinSerial(none, b);
      }
    }
  }

  /** So is the bound by the first lane: a second lane never speeds up any first lane if
      and only if it asks of no resource less than nothing. */
  lemma FirstLaneBoundIff(b: seq<Demand>)
    ensures (forall a: seq<Demand> :: NoFaster(a, b)) <==> NoneNegative(b)
  {
    if NoneNegative(b) {
      forall a: seq<Demand>
        ensures NoFaster(a, b)
      {
        LowerBoundOfFirst(a, b);
      }
    }
    if !NoneNegative(b) {
      var k :| On(b, k) < 0.0;
      var a := MergedPeak(b, k);
      assert !NoFaster(a, b);
    }
  }

  /** A large enough demand is the only one that matters when `b` is merged into it. */
  lemma MergedPeak(b: seq<Demand>, k: ResourceKind) returns (a: seq<Demand>)
    requires On(b, k) < 0.0
    ensures Ppm(Merge(a, b)) < Ppm(a)
  {
    var most := MostAsked(b);
    var d: Demand := (k, most + 1.0);
    a := [d];
    OneEntry(d);
    MergeAt(a, b, 0);
    var m := if most > d.1 + On(b, k) then most else d.1 + On(b, k);
    forall i | 0 <= i < |Merge(a, b)|
      ensures Merge(a, b)[i].1 <= m
    {
      if i > 0 {
        MergeBehind(a, b, i);
      }
    }
    PpmWithin(Merge(a, b), m);
  }

  lemma {:induction false} MostAsked(b: seq<Demand>) returns (m: real)
    ensures m >= 0.0 && forall k :: On(b, k) <= m
  {
    m := 0.0;
    if b != [] {
      var n := |b| - 1;
      m := MostAsked(b[..n]);
      if b[n].1 > 0.0 {
        m := m + b[n].1;
      }
    }
  }

  ghost predicate NoFasterSecond(a: seq<Demand>, b: seq<Demand>) {
    Ppm(b) <= Ppm(Merge(a, b))
  }

  /** And the bound by the second lane: a first lane never speeds up any non-negative
      second lane if and only if no first entry of a kind in it is negative. */
  lemma SecondLaneBoundIff(a: seq<Demand>)
    ensures (forall b :: NonNegative(b) ==> NoFasterSecond(a, b)) <==> LeadsNonNegative(a)
  {
    if LeadsNonNegative(a) {
      forall b | NonNegative(b)
        ensures NoFasterSecond(a, b)
      {
        LowerBoundOfSecond(a, b);
      }
    } else {
      var i :| Leads(a, i) && a[i].1 < 0.0;
      var b := AboveAll(a, i);
      assert !NoFasterSecond(a, b);
    }
  }

  lemma AboveAll(a: seq<Demand>, f: int) returns (b: seq<Demand>)
    requires Leads(a, f) && a[f].1 < 0.0
    ensures NonNegative(b) && Ppm(Merge(a, b)) < Ppm(b)
  {
    var m := if Ppm(a) > 0.0 then Ppm(a) + 1.0 else 1.0;
    var d: Demand := (a[f].0, m);
    b := [d];
    OneEntry(d);
    var most := if m - 1.0 > a[f].1 + m then m - 1.0 else a[f].1 + m;
    MergeOne(a, d);
    BumpAt(a, d, f);
    forall i | 0 <= i < |Bump(a, d)|
      ensures Bump(a, d)[i].1 <= most
    {
      EntryWithinPpm(a, i);
    }
    PpmWithin(Bump(a, d), most);
  }

  /** Demanding more anywhere never makes the overlap cheaper. */
  lemma OverlapMonotone(a: seq<Demand>, b: seq<Demand>, a': seq<Demand>, b': seq<Demand>)
    requires IsLane(a) && NonNegative(b) && IsLane(a') && NonNegative(b')
    requires forall k :: On(a, k) + On(b, k) <= On(a', k) + On(b', k)
    ensures Ppm(Merge(a, b)) <= Ppm(Merge(a', b'))
  {
    OverlapIsPeak(a, b);
    OverlapIsPeak(a', b');
    var k :| On(a, k) + On(b, k) == Ppm(Merge(a, b));
    assert On(a, k) + On(b, k) <= On(a', k) + On(b', k);
  }

  lemma OverlapCommutes(a: seq<Demand>, b: seq<Demand>)
    requires IsLane(a) && IsLane(b)
    ensures Ppm(Merge(a, b)) == Ppm(Merge(b, a))
  {
    OverlapMonotone(a, b, b, a);
    OverlapMonotone(b, a, a, b);
  }

  /** A lane commutes with every lane if and only if none of its resources is spread
      over several entries: merging bumps only the first. */
  lemma CommutesIffConcentrated(a: seq<Demand>)
    requires NonNegative(a)
    ensures (forall b :: IsLane(b) ==> Ppm(Merge(a, b)) == Ppm(Merge(b, a))) <==> Concentrated(a)
  {
    if Concentrated(a) {
      forall b | IsLane(b)
        ensures Ppm(Merge(a, b)) == Ppm(Merge(b, a))
      {
        OverlapCommutes(a, b);
      }
    } else {
      var i, j :| 0 <= i < j < |a| && a[i].0 == a[j].0 && a[j].1 != 0.0;
      SpreadBreaksCommutation(a, j);
    }
  }

  /** `n` entries of a resource before the last one ask for at least each of them. */
  lemma {:induction false} OnAtLeast(v: seq<Demand>, f: nat, j: nat)
    requires NonNegative(v) && f < j < |v| && v[f].0 == v[j].0
    ensures On(v, v[j].0) >= v[f].1 + v[j].1
  {
    var n := |v| - 1;
    if j < n {
      OnAtLeast(v[..n], f, j);
    } else {
      OnCovers(v[..n], f);
    }
  }

  lemma {:induction false} OnCovers(v: seq<Demand>, f: nat)
    requires NonNegative(v) && f < |v|
    ensures On(v, v[f].0) >= v[f].1
  {
    var n := |v| - 1;
    if f < n {
      OnCovers(v[..n], f);
    } else {
      OnNonNegative(v[..n], v[f].0);
    }
  }

  /** One more demand, larger than all of a vector, leads it once merged in. */
  lemma LargeDemandLeads(a: seq<Demand>, k: ResourceKind, c: real, f: nat)
    requires f < |a| && a[f].0 == k && forall i :: 0 <= i < f ==> a[i].0 != k
    requires NonNegative(a) && c >= Ppm(a)
    ensures Ppm(Merge(a, [(k, c)])) == a[f].1 + c
  {
    MergeOne(a, (k, c));
    BumpAt(a, (k, c), f);
    var bumped := Bump(a, (k, c));
    assert bumped[f].1 == a[f].1 + c;
    forall i | 0 <= i < |bumped|
      ensures bumped[i].1 <= bumped[f].1
    {
      EntryWithinPpm(a, i);
    }
    BoundIsPpm(bumped, f);
  }

  lemma MergeOne(a: seq<Demand>, d: Demand)
    ensures Merge(a, [d]) == Bump(a, d)
  {
    assert [d][..0] == [];
  }

  lemma SpreadBreaksCommutation(a: seq<Demand>, j: nat)
    requires NonNegative(a) && j < |a| && a[j].1 != 0.0
    requires exists i :: 0 <= i < j && a[i].0 == a[j].0
    ensures exists b :: IsLane(b) && Ppm(Merge(a, b)) != Ppm(Merge(b, a))
  {
    var k := a[j].0;
    var f := FirstOf(a, k);
    PpmNonNegative(a);
    var c := Ppm(a) + 1.0;
    var b: seq<Demand> := [(k, c)];
    LargeDemandLeads(a, k, c, f);
    OnAtLeast(a, f, j);
    OnOne((k, c), k);
    assert IsLane(b);
    OverlapIsPeak(b, a);
    assert On(b, k) + On(a, k) <= Ppm(Merge(b, a));
  }

  /** Lanes that share no resource overlap to the larger of the two. */
  lemma DisjointLanesHide(a: seq<Demand>, b: seq<Demand>)
    requires IsLane(a) && IsLane(b)
    requires forall k :: !(HasKind(a, k) && HasKind(b, k))
    ensures Ppm(Merge(a, b)) == if Ppm(a) >= Ppm(b) then Ppm(a) else Ppm(b)
  {
    ContentionBracketsOverlap(a, b);
    OverlapIsPeak(a, b);
    PpmIsPeak(a);
    PpmIsPeak(b);
    var k :| On(a, k) + On(b, k) == Ppm(Merge(a, b));
    assert On(a, k) + On([], k) <= Ppm(a) && On(b, k) + On([], k) <= Ppm(b);
    if HasKind(a, k) {
      AbsentOn(b, k);
    } else {
      AbsentOn(a, k);
    }
  }

  /** A resource listed twice: the order of the lanes matters, and as a second lane it
      costs more than both lanes in series. */
  lemma RepeatedKindBreaksLaws()
    ensures var twice := [(MemoryBw, 1.0), (MemoryBw, 1.0)];
            && Ppm(Merge(twice, [])) == 1.0 && Ppm(Merge([], twice)) == 2.0
            && Ppm(Merge([], twice)) > Ppm([]) + Ppm(twice)
  {
    var one: Demand := (MemoryBw, 1.0);
    var twice := [one, one];
    assert twice[..1] == [one] && [one][..0] == [];
    assert Merge([], [one]) == [one];
    assert Merge([], twice) == Bump([one], one) == [(MemoryBw, 2.0)];
  }

  /** A negative demand can hide work: the overlap then beats the first lane alone. */
  lemma NegativeDemandBreaksBracket()
    ensures Ppm(Merge([(MemoryBw, 1.0)], [(MemoryBw, -1.0)])) < Ppm([(MemoryBw, 1.0)])
  {
    var one, minus: Demand := (MemoryBw, 1.0), (MemoryBw, -1.0);
    assert [minus][..0] == [];
    assert Merge([one], [minus]) == Bump([one], minus) == [(MemoryBw, 0.0)];
  }

  // ---------------------------------------------------------- building the vector

  function Scaled(concurrency: real, x: real): real {
    concurrency * x
  }

  /** The demand on memory; a byte total of zero means the axis is absent. */
  function MemoryDemand(concurrency: real, memBytes: real, memBytesPerCycle: real): real
    requires memBytes != 0.0 ==> memBytesPerCycle != 0.0
  {
    if memBytes != 0.0 then concurrency * memBytes / memBytesPerCycle else 0.0
  }

  function IssueDemand(concurrency: real, totalOps: real, issueCap: real): real
    requires issueCap != 0.0
  {
    concurrency * totalOps / issueCap
  }

  ghost function PipeEntries(concurrency: real, pipeCycles: seq<real>): (v: seq<Demand>)
    ensures |v| == |pipeCycles|
    ensures forall i :: 0 <= i < |v| ==> v[i].0 == Pipe(i) && v[i].1 == Scaled(concurrency, pipeCycles[i])
  {
    seq(|pipeCycles|, i requires 0 <= i < |pipeCycles| => (Pipe(i), Scaled(concurrency, pipeCycles[i])))
  }

  ghost function Optional(kind: ResourceKind, present: bool, demand: real): seq<Demand> {
    if present then [(kind, demand)] else []
  }

  ghost function Assembled(pipes: seq<Demand>, local: seq<Demand>, memory: seq<Demand>, issue: real): seq<Demand> {
    pipes + local + memory + [(Issue, issue)]
  }

  ghost function Mixed(concurrency: real, pipeCycles: seq<real>, localStoreCycles: real,
                       memBytes: real, memBytesPerCycle: real, totalOps: real, issueCap: real): seq<Demand>
    requires memBytes != 0.0 ==> memBytesPerCycle != 0.0
    requires issueCap != 0.0
  {
    Assembled(
      PipeEntries(concurrency, pipeCycles),
      Optional(LocalStoreBw, localStoreCycles != 0.0, Scaled(concurrency, localStoreCycles)),
      Optional(MemoryBw, memBytes != 0.0, MemoryDemand(concurrency, memBytes, memBytesPerCycle)),
      IssueDemand(concurrency, totalOps, issueCap))
  }

  /** `None` is a division by zero, which leaves an infinity or NaN in the original. */
  method MixDemands(concurrency: real, pipeCycles: seq<real>, localStoreCycles: real,
                    memBytes: real, memBytesPerCycle: real, totalOps: real, issueCap: real)
    returns (r: Option<seq<Demand>>)
    ensures r.None? <==> (memBytes != 0.0 && memBytesPerCycle == 0.0) || issueCap == 0.0
    ensures r.Some? ==>
      r.value == Mixed(concurrency, pipeCycles, localStoreCycles, memBytes, memBytesPerCycle, totalOps, issueCap)
  {
    var v: seq<Demand> := [];
    for i := 0 to |pipeCycles|
      invariant |v| == i
      invariant forall j :: 0 <= j < i ==> v[j].0 == Pipe(j) && v[j].1 == Scaled(concurrency, pipeCycles[j])
    {
      v := v + [(Pipe(i), concurrency * pipeCycles[i])];
    }
    assert v == PipeEntries(concurrency, pipeCycles);
    if localStoreCycles != 0.0 {
      v := v + [(LocalStoreBw, concurrency * localStoreCycles)];
    }
    if memBytes != 0.0 {
      if memBytesPerCycle == 0.0 {
        return None;
      }
      v := v + [(MemoryBw, concurrency * memBytes / memBytesPerCycle)];
    }
    if issueCap == 0.0 {
      return None;
    }
    v := v + [(Issue, concurrency * totalOps / issueCap)];
    assert v == Mixed(concurrency, pipeCycles, localStoreCycles, memBytes, memBytesPerCycle, totalOps, issueCap);
    r := Some(v);
  }

  lemma AssembledOn(pipes: seq<Demand>, l: seq<Demand>, m: seq<Demand>, issue: real, k: ResourceKind)
    ensures On(Assembled(pipes, l, m, issue), k)
         == On(pipes, k) + On(l, k) + On(m, k) + (if k == Issue then issue else 0.0)
  {
    OnAppend(pipes, l, k);
    OnAppend(pipes + l, m, k);
    OnAppend(pipes + l + m, [(Issue, issue)], k);
    OnOne((Issue, issue), k);
  }

  lemma OptionalOn(kind: ResourceKind, present: bool, demand: real, k: ResourceKind)
    requires !present ==> demand == 0.0
    ensures On(Optional(kind, present, demand), k) == if k == kind then demand else 0.0
  {
    OnOne((kind, demand), k);
  }

  lemma PipeEntriesOn(concurrency: real, pipeCycles: seq<real>, k: ResourceKind)
    ensures On(PipeEntries(concurrency, pipeCycles), k)
         == if k.Pipe? && k.index < |pipeCycles| then Scaled(concurrency, pipeCycles[k.index]) else 0.0
  {
    var v := PipeEntries(concurrency, pipeCycles);
    if k.Pipe? && k.index < |pipeCycles| {
      DistinctOn(v, k.index);
    } else {
      AbsentOn(v, k);
    }
  }

  lemma AssembledPipes(concurrency: real, pipeCycles: seq<real>, hasLocal: bool, local: real,
                       hasMemory: bool, memory: real, issue: real)
    ensures var v := Assembled(PipeEntries(concurrency, pipeCycles), Optional(LocalStoreBw, hasLocal, local),
                               Optional(MemoryBw, hasMemory, memory), issue);
      v != [] && forall i :: 0 <= i < |v| && v[i].0.Pipe? ==> v[i].0.index < |pipeCycles|
  {
  }

  /** What one resource is asked for by a workload with these parameters. */
  ghost function Asked(concurrency: real, pipeCycles: seq<real>, localStoreCycles: real, memBytes: real,
                       memBytesPerCycle: real, totalOps: real, issueCap: real, k: ResourceKind): real
    requires memBytes != 0.0 ==> memBytesPerCycle != 0.0
    requires issueCap != 0.0
  {
    match k
    case Pipe(i) => if i < |pipeCycles| then Scaled(concurrency, pipeCycles[i]) else 0.0
    case LocalStoreBw => Scaled(concurrency, localStoreCycles)
    case MemoryBw => MemoryDemand(concurrency, memBytes, memBytesPerCycle)
    case Issue => IssueDemand(concurrency, totalOps, issueCap)
  }

  /** Built vectors always have distinct kinds, and ask of every resource exactly its
      own demand, listed or not. */
  lemma MixedIsDistinct(concurrency: real, pipeCycles: seq<real>, localStoreCycles: real, memBytes: real,
                        memBytesPerCycle: real, totalOps: real, issueCap: real, k: ResourceKind)
    requires memBytes != 0.0 ==> memBytesPerCycle != 0.0
    requires issueCap != 0.0
    ensures DistinctKinds(
      Mixed(concurrency, pipeCycles, localStoreCycles, memBytes, memBytesPerCycle, totalOps, issueCap))
    ensures On(Mixed(concurrency, pipeCycles, localStoreCycles, memBytes, memBytesPerCycle, totalOps, issueCap), k)
         == Asked(concurrency, pipeCycles, localStoreCycles, memBytes, memBytesPerCycle, totalOps, issueCap, k)
  {
    var pipes := PipeEntries(concurrency, pipeCycles);
    var local, memory := Scaled(concurrency, localStoreCycles), MemoryDemand(concurrency, memBytes, memBytesPerCycle);
    AssembledOn(pipes, Optional(LocalStoreBw, localStoreCycles != 0.0, local),
                Optional(MemoryBw, memBytes != 0.0, memory), IssueDemand(concurrency, totalOps, issueCap), k);
    PipeEntriesOn(concurrency, pipeCycles, k);
    OptionalOn(LocalStoreBw, localStoreCycles != 0.0, local, k);
    OptionalOn(MemoryBw, memBytes != 0.0, memory, k);
  }

  /** What the demands mean: each pipe and the local store take their cycles from every
      concurrent unit; at the demand on memory the bandwidth moves all bytes, and at that
      on issue the cap issues all ops. A resource that is not used is asked for nothing. */
  lemma MixedMeaning(concurrency: real, pipeCycles: seq<real>, localStoreCycles: real, memBytes: real,
                     memBytesPerCycle: real, totalOps: real, issueCap: real)
    requires memBytes != 0.0 ==> memBytesPerCycle != 0.0
    requires issueCap != 0.0
    ensures var v :=
        Mixed(concurrency, pipeCycles, localStoreCycles, memBytes, memBytesPerCycle, totalOps, issueCap);
      && (forall i: nat :: On(v, Pipe(i)) == if i < |pipeCycles| then concurrency * pipeCycles[i] else 0.0)
      && On(v, LocalStoreBw) == concurrency * localStoreCycles
      && On(v, MemoryBw) * memBytesPerCycle == concurrency * memBytes
      && On(v, Issue) * issueCap == concurrency * totalOps
  {
    forall k
      ensures On(Mixed(concurrency, pipeCycles, localStoreCycles, memBytes, memBytesPerCycle, totalOps, issueCap), k)
           == Asked(concurrency, pipeCycles, localStoreCycles, memBytes, memBytesPerCycle, totalOps, issueCap, k)
    {
      MixedIsDistinct(concurrency, pipeCycles, localStoreCycles, memBytes, memBytesPerCycle, totalOps, issueCap, k);
    }
    ScaledIs(concurrency, localStoreCycles);
    forall i | 0 <= i < |pipeCycles|
      ensures Scaled(concurrency, pipeCycles[i]) == concurrency * pipeCycles[i]
    {
      ScaledIs(concurrency, pipeCycles[i]);
    }
    MemoryDemandIs(concurrency, memBytes, memBytesPerCycle);
    IssueDemandIs(concurrency, totalOps, issueCap);
  }

  lemma ScaledIs(concurrency: real, x: real)
    ensures Scaled(concurrency, x) == concurrency * x
  {
  }

  lemma MemoryDemandIs(concurrency: real, memBytes: real, memBytesPerCycle: real)
    requires memBytes != 0.0 ==> memBytesPerCycle != 0.0
    ensures MemoryDemand(concurrency, memBytes, memBytesPerCycle) * memBytesPerCycle == concurrency * memBytes
  {
  }

  lemma IssueDemandIs(concurrency: real, totalOps: real, issueCap: real)
    requires issueCap != 0.0
    ensures IssueDemand(concurrency, totalOps, issueCap) * issueCap == concurrency * totalOps
  {
  }

  /** The place of a resource among the pipes, the local store, memory and issue. */
  ghost function PlaceOf(k: ResourceKind, pipes: nat): int {
    match k
    case Pipe(i) => if i < pipes then i else -1
    case LocalStoreBw => pipes
    case MemoryBw => pipes + 1
    case Issue => pipes + 2
  }

  /** The entries stand in that order; every pipe and issue are listed, the local store
      and memory where they are used. */
  lemma MixedOrder(concurrency: real, pipeCycles: seq<real>, localStoreCycles: real, memBytes: real,
                   memBytesPerCycle: real, totalOps: real, issueCap: real)
    requires memBytes != 0.0 ==> memBytesPerCycle != 0.0
    requires issueCap != 0.0
    ensures var v :=
        Mixed(concurrency, pipeCycles, localStoreCycles, memBytes, memBytesPerCycle, totalOps, issueCap);
      && (forall i, j :: 0 <= i < j < |v| ==>
            0 <= PlaceOf(v[i].0, |pipeCycles|) < PlaceOf(v[j].0, |pipeCycles|))
      && (forall i: nat :: HasKind(v, Pipe(i)) <==> i < |pipeCycles|)
      && (HasKind(v, LocalStoreBw) <==> localStoreCycles != 0.0)
      && (HasKind(v, MemoryBw) <==> memBytes != 0.0)
      && HasKind(v, Issue)
  {
    var local, memory := Scaled(concurrency, localStoreCycles), MemoryDemand(concurrency, memBytes, memBytesPerCycle);
    AssembledOrder(PipeEntries(concurrency, pipeCycles), localStoreCycles != 0.0, local, memBytes != 0.0, memory,
                   IssueDemand(concurrency, totalOps, issueCap));
  }

  lemma AssembledOrder(pipes: seq<Demand>, hasLocal: bool, local: real, hasMemory: bool, memory: real, issue: real)
    requires forall i :: 0 <= i < |pipes| ==> pipes[i].0 == Pipe(i)
    ensures var v := Assembled(pipes, Optional(LocalStoreBw, hasLocal, local), Optional(MemoryBw, hasMemory, memory),
                               issue);
      && (forall i, j :: 0 <= i < j < |v| ==> 0 <= PlaceOf(v[i].0, |pipes|) < PlaceOf(v[j].0, |pipes|))
      && (forall i: nat :: HasKind(v, Pipe(i)) <==> i < |pipes|)
      && (HasKind(v, LocalStoreBw) <==> hasLocal)
      && (HasKind(v, MemoryBw) <==> hasMemory)
      && HasKind(v, Issue)
  {
    var n := |pipes|;
    var m := n + if hasLocal then 1 else 0;
    var v := Assembled(pipes, Optional(LocalStoreBw, hasLocal, local), Optional(MemoryBw, hasMemory, memory), issue);
    assert forall i :: 0 <= i < n ==> v[i] == pipes[i];
    assert hasLocal ==> v[n].0 == LocalStoreBw;
    assert hasMemory ==> v[m].0 == MemoryBw;
    assert v[|v| - 1].0 == Issue;
    assert |v| == m + (if hasMemory then 1 else 0) + 1;
    forall i: nat
      ensures HasKind(v, Pipe(i)) <==> i < n
    {
      if i < n {
        assert v[i].0 == Pipe(i);
      }
    }
  }

  // ----------------------------------------------------------- the additive model

  ghost function Total(cycles: seq<real>): real {
    if cycles == [] then 0.0 else Total(cycles[..|cycles| - 1]) + cycles[|cycles| - 1]
  }

  lemma {:induction false} WorkAppend(v: seq<Demand>, w: seq<Demand>)
    ensures Work(v + w) == Work(v) + Work(w)
  {
    if w == [] {
      assert v + w == v;
    } else {
      var n := |w| - 1;
      assert (v + w)[..|v + w| - 1] == v + w[..n];
      WorkAppend(v, w[..n]);
    }
  }

  lemma WorkOne(d: Demand)
    ensures Work([d]) == if d.0 == Issue then 0.0 else d.1
  {
    assert [d][..0] == [];
  }

  lemma ScaledAdds(concurrency: real, x: real, y: real)
    ensures Scaled(concurrency, x + y) == Scaled(concurrency, x) + Scaled(concurrency, y)
  {
  }

  lemma {:induction false} PipeEntriesWork(concurrency: real, pipeCycles: seq<real>)
    ensures Work(PipeEntries(concurrency, pipeCycles)) == Scaled(concurrency, Total(pipeCycles))
  {
    if pipeCycles != [] {
      var n := |pipeCycles| - 1;
      PipeEntriesWork(concurrency, pipeCycles[..n]);
      assert PipeEntries(concurrency, pipeCycles)[..n] == PipeEntries(concurrency, pipeCycles[..n]);
      ScaledAdds(concurrency, Total(pipeCycles[..n]), pipeCycles[n]);
    }
  }

  lemma AssembledAdditive(pipes: seq<Demand>, l: seq<Demand>, m: seq<Demand>, issue: real, add: real)
    requires IsAdditive(Assembled(pipes, l, m, issue), add)
    ensures add == if Work(pipes) + Work(l) + Work(m) > 0.0 then Work(pipes) + Work(l) + Work(m) else issue
  {
    var v := Assembled(pipes, l, m, issue);
    WorkAppend(pipes, l);
    WorkAppend(pipes + l, m);
    WorkAppend(pipes + l + m, [(Issue, issue)]);
    WorkOne((Issue, issue));
    assert v[|v| - 1].0 == Issue && v[|v| - 1].1 == issue;
  }

  lemma OptionalWork(kind: ResourceKind, present: bool, demand: real)
    requires kind != Issue && (!present ==> demand == 0.0)
    ensures Work(Optional(kind, present, demand)) == demand
  {
    WorkOne((kind, demand));
  }

  /** The additive cycles of a built vector: the work of all pipes and both memories, or
      the issue demand when there is none. */
  lemma MixedAdditive(concurrency: real, pipeCycles: seq<real>, localStoreCycles: real, memBytes: real,
                      memBytesPerCycle: real, totalOps: real, issueCap: real, add: real)
    requires memBytes != 0.0 ==> memBytesPerCycle != 0.0
    requires issueCap != 0.0
    requires IsAdditive(
      Mixed(concurrency, pipeCycles, localStoreCycles, memBytes, memBytesPerCycle, totalOps, issueCap), add)
    ensures var work := Scaled(concurrency, Total(pipeCycles)) + Scaled(concurrency, localStoreCycles)
                        + MemoryDemand(concurrency, memBytes, memBytesPerCycle);
            add == if work > 0.0 then work else IssueDemand(concurrency, totalOps, issueCap)
  {
    var pipes := PipeEntries(concurrency, pipeCycles);
    var local, memory := Scaled(concurrency, localStoreCycles), MemoryDemand(concurrency, memBytes, memBytesPerCycle);
    AssembledAdditive(pipes, Optional(LocalStoreBw, localStoreCycles != 0.0, local),
                      Optional(MemoryBw, memBytes != 0.0, memory), IssueDemand(concurrency, totalOps, issueCap), add);
    PipeEntriesWork(concurrency, pipeCycles);
    OptionalWork(LocalStoreBw, localStoreCycles != 0.0, local);
    OptionalWork(MemoryBw, memBytes != 0.0, memory);
  }
}
