/** Clock consensus and unit conversion of telemetry records (src/telemetry.rs). Floats
    are reals; only the fields the modelled code reads are kept. */
module Telemetry {
  import opened Wrappers
  import opened U32

  const CLOCK_TOL_FRAC := 0.05
  const CLOCK_SANITY_LOW := 0.4
  const CLOCK_SANITY_HIGH := 3.5

  datatype TeleCtx = TeleCtx(runClockGhz: real, peakDramGbps: real)

  datatype TeleRecord = TeleRecord(
    gtStartNs: nat,
    gtEndNs: nat,
    cycles: nat,
    bytes: nat,
    opWallNs: nat)
  {
    function SpanNs(): nat {
      if gtEndNs >= gtStartNs then gtEndNs - gtStartNs else 0
    }

    function WallNs(): nat {
      if opWallNs > 0 then if opWallNs >= SpanNs() then opWallNs else SpanNs()
      else SpanNs()
    }

    function AchievedGbps(): real {
      if WallNs() == 0 || bytes == 0 then 0.0 else bytes as real / WallNs() as real
    }

    predicate RooflineOk(peakDramGbps: real) {
      AchievedGbps() <= peakDramGbps
    }

    function DerivedClockGhz(): Option<real> {
      if SpanNs() == 0 || cycles == 0 then None else Some(cycles as real / SpanNs() as real)
    }

    predicate ClockPlausible(tolFrac: real, runGhz: real) {
      match DerivedClockGhz()
      case None => true
      case Some(c) => Abs(c - runGhz) <= tolFrac * runGhz
    }

    function EffectiveClockGhz(ctx: TeleCtx): real {
      match DerivedClockGhz()
      case Some(c) => if ClockPlausible(CLOCK_TOL_FRAC, ctx.runClockGhz) then c else ctx.runClockGhz
      case None => ctx.runClockGhz
    }

    function DramBytesPerCycle(ctx: TeleCtx): real
      requires EffectiveClockGhz(ctx) != 0.0
    {
      ctx.peakDramGbps / EffectiveClockGhz(ctx)
    }
  }

  function Abs(x: real): real {
    if x < 0.0 then -x else x
  }

  // ------------------------------------------------------------------ consensus

  ghost function DerivedClocks(recs: seq<TeleRecord>): seq<real> {
    if recs == [] then []
    else
      var c := recs[|recs| - 1].DerivedClockGhz();
      DerivedClocks(recs[..|recs| - 1]) + if c.Some? then [c.value] else []
  }

  ghost predicate Ascending(s: seq<real>) {
    forall i, j :: 0 <= i < j < |s| ==> s[i] <= s[j]
  }

  method InsertSorted(sorted: seq<real>, x: real) returns (r: seq<real>)
    requires Ascending(sorted)
    ensures Ascending(r)
    ensures multiset(r) == multiset(sorted) + multiset{x}
  {
    var at := 0;
    while at < |sorted| && sorted[at] <= x
      invariant at <= |sorted|
      invariant forall i :: 0 <= i < at ==> sorted[i] <= x
    {
      at := at + 1;
    }
    var low, high := sorted[..at], sorted[at..];
    assert sorted == low + high;
    assert forall i :: 0 <= i < |high| ==> x <= high[i];
    r := low + [x] + high;
    AscendingInsert(low, x, high);
  }

  lemma AscendingInsert(low: seq<real>, x: real, high: seq<real>)
    requires Ascending(low) && Ascending(high)
    requires forall i :: 0 <= i < |low| ==> low[i] <= x
    requires forall i :: 0 <= i < |high| ==> x <= high[i]
    ensures Ascending(low + [x] + high)
  {
    var r := low + [x] + high;
    forall i, j | 0 <= i < j < |r|
      ensures r[i] <= r[j]
    {
      assert i <= |low| ==> r[i] <= x;
      assert j >= |low| ==> x <= r[j];
    }
  }

  /** The library's ascending sort, as one insertion after the other. */
  method SortAscending(cs: seq<real>) returns (sorted: seq<real>)
    ensures Ascending(sorted)
    ensures multiset(sorted) == multiset(cs)
  {
    sorted := [];
    for k := 0 to |cs|
      invariant Ascending(sorted)
      invariant multiset(sorted) == multiset(cs[..k])
    {
      assert cs[..k + 1] == cs[..k] + [cs[k]];
      sorted := InsertSorted(sorted, cs[k]);
    }
    assert cs[..|cs|] == cs;
  }

  /** How many of the clocks lie strictly below, strictly above, and in an interval. */
  ghost function Below(s: seq<real>, c: real): nat {
    if s == [] then 0 else Below(s[..|s| - 1], c) + if s[|s| - 1] < c then 1 else 0
  }

  ghost function Above(s: seq<real>, c: real): nat {
    if s == [] then 0 else Above(s[..|s| - 1], c) + if s[|s| - 1] > c then 1 else 0
  }

  ghost function Within(s: seq<real>, lo: real, hi: real): nat {
    if s == [] then 0 else Within(s[..|s| - 1], lo, hi) + if lo <= s[|s| - 1] <= hi then 1 else 0
  }

  /** The upper median: at most half of the clocks are below it, fewer than half above. */
  ghost predicate IsMedian(s: seq<real>, c: real) {
    && c in s
    && 2 * Below(s, c) <= |s|
    && 2 * Above(s, c) < |s|
  }

  /** There is only one median, so the run clock is determined. */
  lemma MedianIsUnique(s: seq<real>, c: real, c': real)
    requires IsMedian(s, c) && IsMedian(s, c')
    ensures c == c'
  {
    if c < c' {
      EveryClockCounts(s, c, c');
    } else if c' < c {
      EveryClockCounts(s, c', c);
    }
  }

  lemma {:induction false} EveryClockCounts(s: seq<real>, c: real, c': real)
    requires c < c'
    ensures Above(s, c) + Below(s, c') >= |s|
  {
    if s != [] {
      EveryClockCounts(s[..|s| - 1], c, c');
    }
  }

  predicate Sane(c: real) {
    CLOCK_SANITY_LOW <= c <= CLOCK_SANITY_HIGH
  }

  /** What the run clock of these records is. */
  ghost predicate IsRunClock(recs: seq<TeleRecord>, r: Option<real>) {
    if DerivedClocks(recs) == [] then r == None
    else exists c :: IsMedian(DerivedClocks(recs), c) && r == if Sane(c) then Some(c) else None
  }

  /** The run clock is the median of the derivable clocks, refused when there is none or
      when it is outside the sanity band. */
  method RunClockGhz(recs: seq<TeleRecord>) returns (r: Option<real>)
    ensures IsRunClock(recs, r)
  {
    var cs: seq<real> := [];
    for k := 0 to |recs|
      invariant cs == DerivedClocks(recs[..k])
    {
      assert recs[..k + 1][..k] == recs[..k];
      var c := recs[k].DerivedClockGhz();
      if c.Some? {
        cs := cs + [c.value];
      }
    }
    assert recs[..|recs|] == recs;
    if cs == [] {
      return None;
    }
    var sorted := SortAscending(cs);
    assert |multiset(sorted)| == |sorted| && |multiset(cs)| == |cs|;
    var c := sorted[|sorted| / 2];
    MiddleIsMedian(cs, sorted);
    if c < CLOCK_SANITY_LOW || c > CLOCK_SANITY_HIGH {
      return None;
    }
    r := Some(c);
  }

  // --------------------------------------------------------------------- counting

  lemma {:induction false} CountsConcat(s: seq<real>, t: seq<real>, c: real)
    ensures Below(s + t, c) == Below(s, c) + Below(t, c)
    ensures Above(s + t, c) == Above(s, c) + Above(t, c)
  {
    if t == [] {
      assert s + t == s;
    } else {
      assert (s + t)[..|s + t| - 1] == s + t[..|t| - 1];
      CountsConcat(s, t[..|t| - 1], c);
    }
  }

  lemma CountsOne(x: real, c: real)
    ensures Below([x], c) == (if x < c then 1 else 0) && Above([x], c) == if x > c then 1 else 0
  {
    assert [x][..0] == [];
  }

  lemma CountsWithout(t: seq<real>, k: nat, c: real)
    requires k < |t|
    ensures var others := t[..k] + t[k + 1..];
      && Below(t, c) == Below(others, c) + (if t[k] < c then 1 else 0)
      && Above(t, c) == Above(others, c) + (if t[k] > c then 1 else 0)
  {
    assert t == t[..k] + ([t[k]] + t[k + 1..]);
    CountsConcat(t[..k], [t[k]] + t[k + 1..], c);
    CountsConcat([t[k]], t[k + 1..], c);
    CountsConcat(t[..k], t[k + 1..], c);
    CountsOne(t[k], c);
  }

  lemma MultisetWithout(t: seq<real>, k: nat)
    requires k < |t|
    ensures multiset(t[..k] + t[k + 1..]) == multiset(t) - multiset{t[k]}
  {
    assert t == t[..k] + ([t[k]] + t[k + 1..]);
  }

  lemma MultisetLast(s: seq<real>)
    requires s != []
    ensures multiset(s[..|s| - 1]) == multiset(s) - multiset{s[|s| - 1]}
  {
    assert s == s[..|s| - 1] + [s[|s| - 1]];
  }

  /** Counting does not depend on the order. */
  lemma {:induction false} CountsPermute(s: seq<real>, t: seq<real>, c: real)
    requires multiset(s) == multiset(t)
    ensures Below(s, c) == Below(t, c) && Above(s, c) == Above(t, c)
    decreases |s|
  {
    if s == [] {
      assert |multiset(t)| == |t|;
    } else {
      var n := |s| - 1;
      assert s[n] in multiset(t);
      var k :| 0 <= k < |t| && t[k] == s[n];
      MultisetWithout(t, k);
      MultisetLast(s);
      CountsPermute(s[..n], t[..k] + t[k + 1..], c);
      CountsWithout(t, k, c);
    }
  }

  lemma {:induction false} CountsBound(s: seq<real>, c: real)
    ensures Below(s, c) <= |s| && Above(s, c) <= |s|
    ensures (forall i :: 0 <= i < |s| ==> s[i] >= c) ==> Below(s, c) == 0
    ensures (forall i :: 0 <= i < |s| ==> s[i] <= c) ==> Above(s, c) == 0
  {
    if s != [] {
      CountsBound(s[..|s| - 1], c);
    }
  }

  lemma RankBounds(sorted: seq<real>, h: nat)
    requires Ascending(sorted) && h < |sorted|
    ensures Below(sorted, sorted[h]) <= h
    ensures Above(sorted, sorted[h]) <= |sorted| - h - 1
  {
    var c := sorted[h];
    var low, high := sorted[..h], sorted[h + 1..];
    CountsWithout(sorted, h, c);
    CountsConcat(low, high, c);
    CountsBound(low, c);
    CountsBound(high, c);
  }

  lemma MiddleIsMedian(cs: seq<real>, sorted: seq<real>)
    requires cs != [] && Ascending(sorted) && |sorted| == |cs| && multiset(sorted) == multiset(cs)
    ensures IsMedian(cs, sorted[|sorted| / 2])
  {
    var h := |sorted| / 2;
    RankBounds(sorted, h);
    CountsPermute(cs, sorted, sorted[h]);
    assert sorted[h] in multiset(sorted);
  }

  // ------------------------------------------------- what a record's figures mean

  lemma QuotientIff(x: real, d: real, q: real)
    requires d > 0.0
    ensures q == x / d <==> q * d == x
  {
    var p := x / d;
    assert p * d == x;
    if q * d == x {
      assert (q - p) * d == 0.0;
    }
  }

  /** A record's own clock is its cycles over its own span, when it has both. */
  lemma DerivedClockIff(r: TeleRecord, c: real)
    ensures r.DerivedClockGhz() == Some(c) <==>
      && r.gtEndNs > r.gtStartNs && r.cycles > 0
      && c * (r.gtEndNs - r.gtStartNs) as real == r.cycles as real
  {
    if r.gtEndNs > r.gtStartNs {
      QuotientIff(r.cycles as real, (r.gtEndNs - r.gtStartNs) as real, c);
    }
  }

  ghost predicate SameButWalls(recs: seq<TeleRecord>, recs': seq<TeleRecord>) {
    |recs| == |recs'| && forall i :: 0 <= i < |recs| ==> recs[i].(opWallNs := 0) == recs'[i].(opWallNs := 0)
  }

  lemma {:induction false} ClocksIgnoreWalls(recs: seq<TeleRecord>, recs': seq<TeleRecord>)
    requires SameButWalls(recs, recs')
    ensures DerivedClocks(recs) == DerivedClocks(recs')
  {
    if recs != [] {
      var n := |recs| - 1;
      ClocksIgnoreWalls(recs[..n], recs'[..n]);
      var r, r' := recs[n], recs'[n];
      assert r.(opWallNs := 0) == r'.(opWallNs := 0);
      assert r.SpanNs() == r.(opWallNs := 0).SpanNs() && r'.SpanNs() == r'.(opWallNs := 0).SpanNs();
    }
  }

  /** Walls that the host attaches never move the run clock. */
  lemma RunClockIgnoresWalls(recs: seq<TeleRecord>, recs': seq<TeleRecord>, r: Option<real>)
    requires SameButWalls(recs, recs')
    ensures IsRunClock(recs, r) <==> IsRunClock(recs', r)
  {
    ClocksIgnoreWalls(recs, recs');
  }

  /** The run clock is the median when that lies between 0.4 and 3.5 GHz. */
  lemma RunClockIsMedianInBand(recs: seq<TeleRecord>, c: real, r: Option<real>)
    requires IsMedian(DerivedClocks(recs), c)
    ensures IsRunClock(recs, r) <==> r == if 0.4 <= c <= 3.5 then Some(c) else None
  {
    if IsRunClock(recs, r) {
      var c' :| IsMedian(DerivedClocks(recs), c') && r == if Sane(c') then Some(c') else None;
      MedianIsUnique(DerivedClocks(recs), c, c');
    }
  }

  /** The clock used for a record is its own within five percent of the run's, and the
      run's in every other case; bytes per cycle are the peak rate over it. */
  lemma EffectiveClockChoice(r: TeleRecord, ctx: TeleCtx)
    ensures forall c :: r.DerivedClockGhz() == Some(c) ==>
      r.EffectiveClockGhz(ctx) ==
        if 0.95 * ctx.runClockGhz <= c <= 1.05 * ctx.runClockGhz then c else ctx.runClockGhz
    ensures r.DerivedClockGhz().None? ==> r.EffectiveClockGhz(ctx) == ctx.runClockGhz
    ensures r.EffectiveClockGhz(ctx) > 0.0 ==>
      r.DramBytesPerCycle(ctx) * r.EffectiveClockGhz(ctx) == ctx.peakDramGbps
  {
    if r.EffectiveClockGhz(ctx) > 0.0 {
      QuotientIff(ctx.peakDramGbps, r.EffectiveClockGhz(ctx), r.DramBytesPerCycle(ctx));
    }
  }

  /** The achieved rate moves the bytes in the wall time, which is the attached wall or
      the record's own span, whichever is longer. */
  lemma AchievedRateMeaning(r: TeleRecord)
    ensures r.WallNs() >= r.opWallNs && r.gtStartNs + r.WallNs() >= r.gtEndNs
    ensures r.WallNs() == r.opWallNs || r.gtStartNs + r.WallNs() == r.gtEndNs
    ensures if r.WallNs() == 0 then r.AchievedGbps() == 0.0
            else r.AchievedGbps() * r.WallNs() as real == r.bytes as real
  {
    if r.WallNs() > 0 && r.bytes > 0 {
      QuotientIff(r.bytes as real, r.WallNs() as real, r.AchievedGbps());
    }
  }

  /** A record passes the roofline exactly when the peak rate moves its bytes within its
      wall, the peak itself included; one without a wall passes any peak. */
  lemma RooflineOkIff(r: TeleRecord, peak: real)
    requires peak >= 0.0
    ensures r.RooflineOk(peak) <==> r.WallNs() == 0 || r.bytes as real <= peak * r.WallNs() as real
  {
    AchievedRateMeaning(r);
    if r.WallNs() > 0 {
      RateOrder(r.AchievedGbps(), peak, r.WallNs() as real);
    }
  }

  lemma RateOrder(x: real, y: real, d: real)
    requires d > 0.0
    ensures x <= y <==> x * d <= y * d
  {
    if x > y {
      assert (x - y) * d > 0.0;
    } else {
      assert (y - x) * d >= 0.0;
    }
  }

  // -------------------------------------------------------------------- resistance

  lemma {:induction false} CountsMonotone(s: seq<real>, c: real, d: real)
    requires c <= d
    ensures Below(s, c) <= Below(s, d) && Above(s, d) <= Above(s, c)
  {
    if s != [] {
      CountsMonotone(s[..|s| - 1], c, d);
    }
  }

  /** Exactly when the median stays in an interval: at most half of the clocks are below
      it and fewer than half are above. Where those outside lie otherwise is no matter. */
  lemma MedianWithinIff(s: seq<real>, lo: real, hi: real, c: real)
    requires lo <= hi && IsMedian(s, c)
    ensures lo <= c <= hi <==> 2 * Below(s, lo) <= |s| && 2 * Above(s, hi) < |s|
  {
    if c < lo {
      EveryClockCounts(s, c, lo);
    } else {
      CountsMonotone(s, lo, c);
    }
    if hi < c {
      EveryClockCounts(s, hi, c);
    } else {
      CountsMonotone(s, c, hi);
    }
  }

  lemma {:induction false} EveryClockIsSomewhere(s: seq<real>, lo: real, hi: real)
    requires lo <= hi
    ensures Below(s, lo) + Within(s, lo, hi) + Above(s, hi) == |s|
  {
    if s != [] {
      EveryClockIsSomewhere(s[..|s| - 1], lo, hi);
    }
  }

  /** Hence exactly when an interval of the sanity band holds the run clock. */
  lemma RunClockWithinIff(recs: seq<TeleRecord>, lo: real, hi: real, r: Option<real>)
    requires lo <= hi && Sane(lo) && Sane(hi) && IsRunClock(recs, r)
    ensures var s := DerivedClocks(recs);
            r.Some? && lo <= r.value <= hi <==> s != [] && 2 * Below(s, lo) <= |s| && 2 * Above(s, hi) < |s|
  {
    var s := DerivedClocks(recs);
    if s != [] {
      var c :| IsMedian(s, c) && r == if Sane(c) then Some(c) else None;
      MedianWithinIff(s, lo, hi, c);
    }
  }

  /** A strict majority of clocks in an interval of the sanity band decides the run
      clock, whatever the other records claim. */
  lemma ConsensusResistsCorruption(recs: seq<TeleRecord>, lo: real, hi: real, r: Option<real>)
    requires Sane(lo) && Sane(hi) && lo <= hi && IsRunClock(recs, r)
    requires 2 * Within(DerivedClocks(recs), lo, hi) > |DerivedClocks(recs)|
    ensures r.Some? && lo <= r.value <= hi
  {
    EveryClockIsSomewhere(DerivedClocks(recs), lo, hi);
    RunClockWithinIff(recs, lo, hi, r);
  }

  ghost function Copies<T>(x: T, n: nat): (s: seq<T>)
    ensures |s| == n
    ensures n > 0 ==> x in s
  {
    if n == 0 then [] else Copies(x, n - 1) + [x]
  }

  lemma {:induction false} CountsOfCopies(x: real, n: nat, c: real)
    ensures Below(Copies(x, n), c) == (if x < c then n else 0)
    ensures Above(Copies(x, n), c) == (if x > c then n else 0)
  {
    if n > 0 {
      CountsOfCopies(x, n - 1, c);
    }
  }

  /** `k` corrupt clocks among `n`, wherever they stand and whatever they read, cannot
      move the median out of the interval of the others if and only if they are fewer
      than half. */
  lemma CorruptionToleratedIff(n: nat, k: nat, lo: real, hi: real)
    requires 0 < n && k <= n && lo <= hi
    ensures (forall s, c :: |s| == n && Within(s, lo, hi) >= n - k && IsMedian(s, c) ==> lo <= c <= hi)
       <==> 2 * k < n
  {
    if 2 * k < n {
      forall s, c | |s| == n && Within(s, lo, hi) >= n - k && IsMedian(s, c)
        ensures lo <= c <= hi
      {
        EveryClockIsSomewhere(s, lo, hi);
        MedianWithinIff(s, lo, hi, c);
      }
    } else {
      EscapesWithHalf(n, k, lo, hi);
    }
  }

  /** `m` clocks that read `good`, then `k` that read `bad`. */
  ghost function Ensemble(good: real, m: nat, bad: real, k: nat): (s: seq<real>)
    ensures |s| == m + k
    ensures k > 0 ==> bad in s
  {
    Copies(good, m) + Copies(bad, k)
  }

  lemma CountsOfEnsemble(good: real, m: nat, bad: real, k: nat, c: real)
    ensures Below(Ensemble(good, m, bad, k), c) == (if good < c then m else 0) + (if bad < c then k else 0)
    ensures Above(Ensemble(good, m, bad, k), c) == (if good > c then m else 0) + (if bad > c then k else 0)
  {
    CountsConcat(Copies(good, m), Copies(bad, k), c);
    CountsOfCopies(good, m, c);
    CountsOfCopies(bad, k, c);
  }

  lemma Outvoted(m: nat, k: nat, good: real, bad: real)
    requires 0 < k && m <= k && good < bad
    ensures IsMedian(Ensemble(good, m, bad, k), bad)
  {
    CountsOfEnsemble(good, m, bad, k, bad);
  }

  lemma EscapesWithHalf(n: nat, k: nat, lo: real, hi: real)
    requires 0 < n && k <= n <= 2 * k && lo <= hi
    ensures exists s, c :: |s| == n && Within(s, lo, hi) >= n - k && IsMedian(s, c) && c > hi
  {
    var s := Ensemble(hi, n - k, hi + 1.0, k);
    Outvoted(n - k, k, hi, hi + 1.0);
    CountsOfEnsemble(hi, n - k, hi + 1.0, k, lo);
    CountsOfEnsemble(hi, n - k, hi + 1.0, k, hi);
    EveryClockIsSomewhere(s, lo, hi);
  }

  lemma {:induction false} ClocksOfCopies(r: TeleRecord, n: nat, c: real)
    requires r.DerivedClockGhz() == Some(c)
    ensures DerivedClocks(Copies(r, n)) == Copies(c, n)
  {
    if n > 0 {
      ClocksOfCopies(r, n - 1, c);
    }
  }

  lemma {:induction false} ClocksConcat(a: seq<TeleRecord>, b: seq<TeleRecord>)
    ensures DerivedClocks(a + b) == DerivedClocks(a) + DerivedClocks(b)
  {
    if b == [] {
      assert a + b == a;
    } else {
      assert (a + b)[..|a + b| - 1] == a + b[..|b| - 1];
      ClocksConcat(a, b[..|b| - 1]);
    }
  }

  /** Any record does it that reads faster within the sanity band: `k` copies, at least
      half of all `n`, set the run clock against the honest ones. */
  lemma HalfOutvotesTheRest(n: nat, k: nat, good: TeleRecord, bad: TeleRecord, x: real, y: real)
    requires 0 < n && k <= n <= 2 * k
    requires good.DerivedClockGhz() == Some(x) && bad.DerivedClockGhz() == Some(y) && x < y && Sane(y)
    ensures DerivedClocks(Copies(good, n - k) + Copies(bad, k)) == Ensemble(x, n - k, y, k)
    ensures IsRunClock(Copies(good, n - k) + Copies(bad, k), Some(y))
  {
    ClocksOfCopies(good, n - k, x);
    ClocksOfCopies(bad, k, y);
    ClocksConcat(Copies(good, n - k), Copies(bad, k));
    Outvoted(n - k, k, x, y);
  }

  /** Half is not enough: one honest and one broken record, and the broken one wins. */
  lemma HalfIsNotEnough()
    ensures var recs := [TeleRecord(0, 10, 10, 0, 0), TeleRecord(0, 10, 30, 0, 0)];
      2 * Within(DerivedClocks(recs), 1.0, 1.0) == |DerivedClocks(recs)| && IsMedian(DerivedClocks(recs), 3.0)
  {
    var good, bad := TeleRecord(0, 10, 10, 0, 0), TeleRecord(0, 10, 30, 0, 0);
    var recs := [good, bad];
    assert recs[..1] == [good] && [good][..0] == [];
    assert DerivedClocks([good]) == [1.0];
    assert DerivedClocks(recs) == [1.0, 3.0];
    assert [1.0, 3.0][..1] == [1.0] && [1.0][..0] == [];
  }

  /** Whatever a record's counters say, the clock used for it is positive and within
      the tolerance of the run clock, which bounds its bytes per cycle both ways. */
  lemma EffectiveClockStaysWithRun(r: TeleRecord, ctx: TeleCtx)
    requires Sane(ctx.runClockGhz) && ctx.peakDramGbps >= 0.0
    ensures var c := r.EffectiveClockGhz(ctx);
      && 0.0 < 0.95 * ctx.runClockGhz <= c <= 1.05 * ctx.runClockGhz
      && ctx.peakDramGbps / (1.05 * ctx.runClockGhz) <= r.DramBytesPerCycle(ctx)
      && r.DramBytesPerCycle(ctx) <= ctx.peakDramGbps / (0.95 * ctx.runClockGhz)
  {
    var c := r.EffectiveClockGhz(ctx);
    QuotientAntitone(ctx.peakDramGbps, c, 1.05 * ctx.runClockGhz);
    QuotientAntitone(ctx.peakDramGbps, 0.95 * ctx.runClockGhz, c);
  }

  lemma QuotientAntitone(p: real, a: real, b: real)
    requires p >= 0.0 && 0.0 < a <= b
    ensures p / b <= p / a
  {
    var q, q' := p / b, p / a;
    assert q * b == p && q' * a == p;
    if q > q' {
      OrderedProducts(q', q, a, b);
    }
  }

  lemma OrderedProducts(q': real, q: real, a: real, b: real)
    requires 0.0 <= q' < q && 0.0 < a <= b
    ensures q' * a < q * b
  {
    assert q' * a <= q' * b;
    assert (q - q') * b > 0.0;
  }

  /** Attaching the host wall lowers the achieved rate, or keeps it, except exactly for
      a record with bytes but no span of its own: its rate rises from zero. So a record
      that has a span and passed the roofline check still passes it. */
  lemma WallLowersRateUnlessSpanless(r: TeleRecord, wall: nat)
    ensures r.(opWallNs := wall).AchievedGbps() <= r.(opWallNs := 0).AchievedGbps()
       <==> !(r.SpanNs() == 0 && wall > 0 && r.bytes > 0)
    ensures forall peak :: r.SpanNs() > 0 && r.(opWallNs := 0).RooflineOk(peak) ==>
      r.(opWallNs := wall).RooflineOk(peak)
  {
    var span, full := r.SpanNs(), r.(opWallNs := wall).WallNs();
    if span > 0 && r.bytes > 0 {
      QuotientAntitone(r.bytes as real, span as real, full as real);
    }
    if span == 0 && wall > 0 && r.bytes > 0 {
      QuotientAntitone(r.bytes as real, wall as real, wall as real);
      assert (r.bytes as real / wall as real) * wall as real == r.bytes as real;
    }
  }

  /** A record with ten bytes, no span and a host wall of ten: its rate goes from zero
      to one, and a roofline of one half now rejects it. */
  lemma SpanlessWallRejects()
    ensures var r := TeleRecord(0, 0, 0, 10, 0);
      && r.AchievedGbps() == 0.0 && r.RooflineOk(0.5)
      && r.(opWallNs := 10).AchievedGbps() == 1.0 && !r.(opWallNs := 10).RooflineOk(0.5)
  {
  }

  // ------------------------------------------------------------- realized overlap

  function OverlapFraction(a: TeleRecord, b: TeleRecord): real {
    var lo := Max(a.gtStartNs, b.gtStartNs);
    var hi := Min(a.gtEndNs, b.gtEndNs);
    if hi <= lo then 0.0
    else
      var m := Min(a.SpanNs(), b.SpanNs());
      if m == 0 then 0.0
      else
        var f := (hi - lo) as real / m as real;
        if f <= 1.0 then f else 1.0
  }

  ghost predicate Running(r: TeleRecord, t: nat) {
    r.gtStartNs <= t < r.gtEndNs
  }

  ghost predicate SpanInside(a: TeleRecord, b: TeleRecord) {
    b.gtStartNs <= a.gtStartNs < a.gtEndNs <= b.gtEndNs
  }

  /** The fraction is symmetric, positive exactly when the spans share time, and one
      exactly when one span lies inside the other: neither clamp is ever needed. */
  lemma OverlapFractionMeaning(a: TeleRecord, b: TeleRecord)
    ensures OverlapFraction(a, b) == OverlapFraction(b, a)
    ensures 0.0 <= OverlapFraction(a, b) <= 1.0
    ensures OverlapFraction(a, b) > 0.0 <==>
      exists t: nat :: Running(a, t) && Running(b, t)
    ensures OverlapFraction(a, b) == 1.0 <==> SpanInside(a, b) || SpanInside(b, a)
  {
    var lo := Max(a.gtStartNs, b.gtStartNs);
    var hi := Min(a.gtEndNs, b.gtEndNs);
    if hi > lo {
      var m := Min(a.SpanNs(), b.SpanNs());
      assert Running(a, lo) && Running(b, lo);
      Fraction((hi - lo) as real, m as real);
    }
  }

  /** The nanoseconds before `n` in which both records run. */
  ghost function Shared(a: TeleRecord, b: TeleRecord, n: nat): nat {
    if n == 0 then 0 else Shared(a, b, n - 1) + if Running(a, n - 1) && Running(b, n - 1) then 1 else 0
  }

  lemma {:induction false} SharedIs(a: TeleRecord, b: TeleRecord, n: nat)
    ensures Shared(a, b, n) == Max(0, Min(n, Min(a.gtEndNs, b.gtEndNs)) - Max(a.gtStartNs, b.gtStartNs))
  {
    if n > 0 {
      SharedIs(a, b, n - 1);
    }
  }

  /** `f` of the whole is the part. */
  ghost predicate IsFraction(f: real, part: nat, whole: nat) {
    f * whole as real == part as real
  }

  lemma OverlapQuotient(a: TeleRecord, b: TeleRecord, shared: nat, shorter: nat)
    requires shared == Max(0, Min(a.gtEndNs, b.gtEndNs) - Max(a.gtStartNs, b.gtStartNs))
    requires shorter == Min(a.SpanNs(), b.SpanNs())
    ensures IsFraction(OverlapFraction(a, b), shared, shorter)
  {
    if shared > 0 {
      Fraction(shared as real, shorter as real);
      QuotientIff(shared as real, shorter as real, OverlapFraction(a, b));
    }
  }

  lemma SharedAtEnd(a: TeleRecord, b: TeleRecord, n: nat)
    requires a.gtEndNs <= n && b.gtEndNs <= n
    ensures Shared(a, b, n) == Max(0, Min(a.gtEndNs, b.gtEndNs) - Max(a.gtStartNs, b.gtStartNs))
    ensures Shared(a, a, n) == a.SpanNs()
  {
    SharedIs(a, b, n);
    SharedIs(a, a, n);
  }

  /** The fraction is the time the records share out of what the shorter one runs. */
  lemma OverlapFractionIsShare(a: TeleRecord, b: TeleRecord, n: nat)
    requires a.gtEndNs <= n && b.gtEndNs <= n
    ensures IsFraction(OverlapFraction(a, b), Shared(a, b, n), Min(Shared(a, a, n), Shared(b, b, n)))
  {
    SharedAtEnd(a, b, n);
    SharedAtEnd(b, a, n);
    OverlapQuotient(a, b, Shared(a, b, n), Min(Shared(a, a, n), Shared(b, b, n)));
  }

  lemma Fraction(x: real, m: real)
    requires 0.0 < x <= m
    ensures 0.0 < x / m <= 1.0 && (x / m == 1.0 <==> x == m)
  {
    assert (x / m) * m == x;
  }
}
