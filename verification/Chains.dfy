/** Dependency chains on one pipe (src/lib.rs): the latency floor, the chain bound
    compared with explicit schedules, and the register budget that limits chains. */
module Chains {
  import opened U32
  import opened Roofline

  datatype DepChain = DepChain(depth: u32, opLatency: u32)
  {
    function LatencyFloor(): u32 {
      SatMul(depth, opLatency)
    }
  }

  function ProjectLatency(throughput: Projection, chain: DepChain): Projection {
    var floor := chain.LatencyFloor();
    if floor > throughput.cycles then Projection(floor, Latency) else throughput
  }

  function ChainCycles(chains: u32, depth: u32, cycPerOp: u32, opLatency: u32): Projection {
    var totalOps := SatMul(chains, depth);
    ProjectLatency(Projection(SatMul(totalOps, cycPerOp), Pipe(0)), DepChain(depth, opLatency))
  }

  function ChainUtilizationPct(chains: u32, depth: u32, cycPerOp: u32, opLatency: u32): u32 {
    var throughput := SatMul(SatMul(chains, depth), cycPerOp);
    var mii := Max(ChainCycles(chains, depth, cycPerOp, opLatency).cycles, 1);
    LeDiv(101, throughput * 100, mii);
    LeDiv(0, throughput * 100, mii);
    throughput * 100 / mii
  }

  function AchievableChains(regBudget: u32, baseRegisters: u32, regsPerChain: u32): u32 {
    DivBounds(SatSub(regBudget, baseRegisters), Max(regsPerChain, 1));
    SatSub(regBudget, baseRegisters) / Max(regsPerChain, 1)
  }

  datatype OpTemplate = OpTemplate(chains: u32, depth: u32, cycPerOp: u32, opLatency: u32)
  {
    function Cycles(): Projection {
      ChainCycles(chains, depth, cycPerOp, opLatency)
    }

    function UtilizationPct(): u32 {
      ChainUtilizationPct(chains, depth, cycPerOp, opLatency)
    }

    predicate LatencyBound() {
      Cycles().bottleneck == Latency
    }

    function ChainsToHide(): u32 {
      CeilDiv(opLatency, Max(cycPerOp, 1))
    }

    function UtilizationUnderRegisters(regBudget: u32, baseRegisters: u32, regsPerChain: u32): u32 {
      var ach := Max(Min(AchievableChains(regBudget, baseRegisters, regsPerChain), chains), 1);
      ChainUtilizationPct(ach, depth, cycPerOp, opLatency)
    }

    predicate OverlapKeepsHidden(regBudget: u32, baseRegisters: u32, regsPerChain: u32, spend: u32) {
      AchievableChains(regBudget, SatAdd(baseRegisters, spend), regsPerChain) >= ChainsToHide()
    }
  }

  // ------------------------------------------------------- the scheduling problem

  /** The place of op `d` of chain `c` in a flat schedule of chains of `depth` ops. */
  ghost function At(c: nat, d: nat, depth: nat): nat {
    MulMono(0, c, depth);
    c * depth + d
  }

  /** `start[At(c, d, depth)]` is the issue cycle of op `d` of chain `c`. Any two ops
      are `r` apart on the pipe, and within a chain an op waits `l` for the previous.
      (The last bound in the quantifier follows from the others.) */
  ghost predicate IsSchedule(start: seq<nat>, chains: nat, depth: nat, r: nat, l: nat) {
    && |start| == chains * depth
    && Apart(start, r)
    && (forall c: nat, d: nat :: c < chains && d + 1 < depth && At(c, d, depth) + 1 < |start| ==>
          start[At(c, d, depth)] + l <= start[At(c, d, depth) + 1])
  }

  ghost predicate Apart(start: seq<nat>, r: nat) {
    forall i, j :: 0 <= i < j < |start| ==> start[i] + r <= start[j] || start[j] + r <= start[i]
  }

  /** Every op has left the pipe and delivered its result by cycle `T`. */
  ghost predicate DoneBy(start: seq<nat>, r: nat, l: nat, T: nat) {
    forall k :: 0 <= k < |start| ==> start[k] + Max(r, l) <= T
  }

  // ------------------------------------------------------------------ lower bound

  lemma {:induction false} LastToStart(start: seq<nat>) returns (k: nat)
    requires start != []
    ensures k < |start| && forall j :: 0 <= j < |start| ==> start[j] <= start[k]
  {
    var n := |start| - 1;
    k := n;
    if n > 0 {
      var m := LastToStart(start[..n]);
      k := if start[m] > start[n] then m else n;
    }
  }

  ghost function Without(start: seq<nat>, k: nat): (rest: seq<nat>)
    requires k < |start|
    ensures |rest| == |start| - 1
    ensures forall i :: 0 <= i < |rest| ==> rest[i] == start[if i < k then i else i + 1]
  {
    start[..k] + start[k + 1..]
  }

  lemma ApartWithout(start: seq<nat>, r: nat, k: nat)
    requires Apart(start, r) && k < |start|
    ensures Apart(Without(start, k), r)
  {
    var rest := Without(start, k);
    forall i, j | 0 <= i < j < |rest|
      ensures rest[i] + r <= rest[j] || rest[j] + r <= rest[i]
    {
      var i', j' := if i < k then i else i + 1, if j < k then j else j + 1;
      assert start[i'] + r <= start[j'] || start[j'] + r <= start[i'];
    }
  }

  /** Pigeonhole: some op of a spread-out group of `n` starts at `(n-1) * r` or later. */
  lemma {:induction false} LatestOf(start: seq<nat>, r: nat) returns (k: nat)
    requires Apart(start, r) && start != []
    ensures k < |start| && start[k] >= (|start| - 1) * r
  {
    k := LastToStart(start);
    if |start| > 1 {
      var rest := Without(start, k);
      ApartWithout(start, r, k);
      var m := LatestOf(rest, r);
      OneMore(|rest| - 1, r);
      var second := if m < k then m else m + 1;
      assert start[second] + r <= start[k];
    }
  }

  lemma {:induction false} ChainAdvances(start: seq<nat>, chains: nat, depth: nat, r: nat, l: nat, c: nat, d: nat)
    requires IsSchedule(start, chains, depth, r, l)
    requires c < chains && d < depth
    ensures At(c, d, depth) < |start|
    ensures start[At(c, 0, depth)] + d * l <= start[At(c, d, depth)]
  {
    MulMono(c + 1, chains, depth);
    assert (c + 1) * depth == c * depth + depth;
    if d > 0 {
      ChainAdvances(start, chains, depth, r, l, c, d - 1);
      assert At(c, d, depth) == At(c, d - 1, depth) + 1;
      assert d * l == (d - 1) * l + l;
    }
  }

  /** Every schedule has an op issued as late as all ops one after the other, and an op
      as late as the last chain to begin. */
  lemma LateOps(start: seq<nat>, chains: nat, depth: nat, r: nat, l: nat) returns (k: nat, m: nat)
    requires IsSchedule(start, chains, depth, r, l)
    requires chains > 0 && depth > 0
    ensures k < |start| && start[k] >= (chains * depth - 1) * r
    ensures m < |start| && start[m] >= (chains - 1) * r + (depth - 1) * l
  {
    MulMono(1, chains, depth);
    k := LatestOf(start, r);
    var heads: seq<nat> := seq(chains, c requires 0 <= c < chains =>
      ChainAdvances(start, chains, depth, r, l, c, 0);
      start[At(c, 0, depth)]);
    forall i, j | 0 <= i < j < chains
      ensures heads[i] + r <= heads[j] || heads[j] + r <= heads[i]
    {
      ChainAdvances(start, chains, depth, r, l, i, 0);
      ChainAdvances(start, chains, depth, r, l, j, 0);
      MulMono(i + 1, j, depth);
      assert (i + 1) * depth == i * depth + depth;
    }
    assert Apart(heads, r);
    var c := LatestOf(heads, r);
    ChainAdvances(start, chains, depth, r, l, c, depth - 1);
    m := At(c, depth - 1, depth);
  }

  // ------------------------------------------------------ the round-robin schedule

  /** One op of every chain in turn; the next round waits for pipe and results. */
  ghost function RoundLength(chains: nat, r: nat, l: nat): nat {
    MulMono(0, chains, r);
    Max(chains * r, l)
  }

  ghost function Interleave(chains: nat, depth: nat, r: nat, l: nat): (start: seq<nat>)
    requires depth > 0
    ensures 0 <= chains * depth
    ensures |start| == chains * depth
    ensures forall k :: 0 <= k < |start| ==> start[k] == InterleaveStart(chains, depth, r, l, k)
  {
    MulMono(0, chains, depth);
    seq(chains * depth, k requires 0 <= k => InterleaveStart(chains, depth, r, l, k))
  }

  ghost function InterleaveStart(chains: nat, depth: nat, r: nat, l: nat, k: nat): nat
    requires depth > 0
  {
    DivBounds(k, depth);
    MulMono(0, k % depth, RoundLength(chains, r, l));
    MulMono(0, k / depth, r);
    (k % depth) * RoundLength(chains, r, l) + (k / depth) * r
  }

  /** The least cycle by which a schedule can be done. */
  ghost function Shortest(chains: nat, depth: nat, r: nat, l: nat): int {
    Max((chains * depth - 1) * r, (chains - 1) * r + (depth - 1) * l) + Max(r, l)
  }

  lemma AtDecodes(c: nat, d: nat, depth: nat)
    requires d < depth
    ensures At(c, d, depth) / depth == c && At(c, d, depth) % depth == d
  {
    var k := At(c, d, depth);
    DivBounds(k, depth);
    LeDiv(c, k, depth);
    LeDiv(c + 1, k, depth);
    assert (c + 1) * depth == c * depth + depth;
  }

  /** A round later on the chain outweighs every position within a round. */
  lemma RoundsApart(chains: nat, r: nat, l: nat, c: nat, d: nat, c': nat, d': nat)
    requires c < chains && c' < chains && d < d'
    ensures d * RoundLength(chains, r, l) + c * r + r <= d' * RoundLength(chains, r, l) + c' * r
  {
    var p := RoundLength(chains, r, l);
    MulMono(d + 1, d', p);
    assert (d + 1) * p == d * p + p;
    MulMono(c + 1, chains, r);
    assert (c + 1) * r == c * r + r;
    MulMono(0, c', r);
  }

  lemma InterleaveApart(chains: nat, depth: nat, r: nat, l: nat, i: nat, j: nat)
    requires depth > 0 && i < j < chains * depth
    ensures var start := Interleave(chains, depth, r, l);
            start[i] + r <= start[j] || start[j] + r <= start[i]
  {
    DivBounds(i, depth);
    DivBounds(j, depth);
    LeDiv(chains, i, depth);
    LeDiv(chains, j, depth);
    if i % depth < j % depth {
      RoundsApart(chains, r, l, i / depth, i % depth, j / depth, j % depth);
    } else if j % depth < i % depth {
      RoundsApart(chains, r, l, j / depth, j % depth, i / depth, i % depth);
    } else {
      if j / depth <= i / depth { MulMono(j / depth, i / depth, depth); }
      MulMono(i / depth + 1, j / depth, r);
      assert (i / depth + 1) * r == (i / depth) * r + r;
    }
  }

  lemma InterleaveIsSchedule(chains: nat, depth: nat, r: nat, l: nat)
    requires depth > 0
    ensures IsSchedule(Interleave(chains, depth, r, l), chains, depth, r, l)
  {
    var start := Interleave(chains, depth, r, l);
    forall i, j | 0 <= i < j < |start|
      ensures start[i] + r <= start[j] || start[j] + r <= start[i]
    {
      InterleaveApart(chains, depth, r, l, i, j);
    }
    forall c: nat, d: nat | c < chains && d + 1 < depth && At(c, d, depth) + 1 < |start|
      ensures start[At(c, d, depth)] + l <= start[At(c, d, depth) + 1]
    {
      AtDecodes(c, d, depth);
      AtDecodes(c, d + 1, depth);
      assert At(c, d + 1, depth) == At(c, d, depth) + 1;
      var p := RoundLength(chains, r, l);
      assert (d + 1) * p == d * p + p;
    }
  }

  lemma InterleaveDoneByShortest(chains: nat, depth: nat, r: nat, l: nat)
    requires chains > 0 && depth > 0
    ensures Shortest(chains, depth, r, l) >= 0
    ensures DoneBy(Interleave(chains, depth, r, l), r, l, Shortest(chains, depth, r, l))
  {
    var p := RoundLength(chains, r, l);
    var last := (depth - 1) * p + (chains - 1) * r;
    MulMono(0, depth - 1, p);
    MulMono(0, chains - 1, r);
    assert last == if p == l then (chains - 1) * r + (depth - 1) * l else (chains * depth - 1) * r by {
      if p != l {
        MulAssoc(depth - 1, chains, r);
        assert (depth - 1) * chains + chains - 1 == chains * depth - 1;
      }
    }
    forall k | 0 <= k < chains * depth
      ensures InterleaveStart(chains, depth, r, l, k) <= last
    {
      DivBounds(k, depth);
      LeDiv(chains, k, depth);
      MulMono(k % depth, depth - 1, p);
      MulMono(k / depth, chains - 1, r);
    }
  }

  /** The interleave is optimal: `Shortest` is attained and nothing beats it. */
  lemma InterleaveIsOptimal(chains: nat, depth: nat, r: nat, l: nat)
    requires chains > 0 && depth > 0
    ensures Shortest(chains, depth, r, l) >= 0
    ensures IsSchedule(Interleave(chains, depth, r, l), chains, depth, r, l)
    ensures DoneBy(Interleave(chains, depth, r, l), r, l, Shortest(chains, depth, r, l))
    ensures forall start: seq<nat>, T: nat ::
      IsSchedule(start, chains, depth, r, l) && DoneBy(start, r, l, T) ==> Shortest(chains, depth, r, l) <= T
  {
    InterleaveIsSchedule(chains, depth, r, l);
    InterleaveDoneByShortest(chains, depth, r, l);
    forall start: seq<nat>, T: nat | IsSchedule(start, chains, depth, r, l) && DoneBy(start, r, l, T)
      ensures Shortest(chains, depth, r, l) <= T
    {
      var k, m := LateOps(start, chains, depth, r, l);
    }
  }

  /** Composing any projection with a chain gives the larger of the two times, and the
      projection itself unless the chain is strictly slower. */
  lemma ProjectLatencyIsSlower(throughput: Projection, chain: DepChain)
    ensures ProjectLatency(throughput, chain).cycles
         == Max(throughput.cycles, Min(MAX, chain.depth * chain.opLatency))
    ensures ProjectLatency(throughput, chain) == throughput <==>
      Min(MAX, chain.depth * chain.opLatency) <= throughput.cycles
    ensures ProjectLatency(throughput, chain) != throughput ==>
      ProjectLatency(throughput, chain).bottleneck == Latency
  {
  }

  /** The saturating products are the exact ones capped at `MAX`. */
  lemma ChainCyclesIsMaxCapped(chains: u32, depth: u32, r: u32, l: u32)
    ensures ChainCycles(chains, depth, r, l).cycles == Min(MAX, Max(chains * depth * r, depth * l))
    ensures ChainCycles(chains, depth, r, l).bottleneck == Latency <==>
      chains * depth * r < MAX && chains * depth * r < depth * l
    ensures ChainCycles(chains, depth, r, l).bottleneck in {Latency, Pipe(0)}
  {
    if chains * depth > MAX && r > 0 {
      MulMono(MAX, chains * depth, r);
      MulMono(1, r, MAX);
    }
  }

  /** The chain bound brackets the best schedule: never above it, and at most the
      excess of latency over pipe time below it when nothing saturated. */
  lemma ChainBoundBracketsOptimum(chains: u32, depth: u32, r: u32, l: u32)
    requires chains > 0 && depth > 0
    ensures ChainCycles(chains, depth, r, l).cycles <= Shortest(chains, depth, r, l)
    ensures chains * depth * r <= MAX && depth * l <= MAX ==>
      Shortest(chains, depth, r, l) <= ChainCycles(chains, depth, r, l).cycles + Max(l - r, 0)
  {
    ChainCyclesIsMaxCapped(chains, depth, r, l);
    assert (chains * depth - 1) * r == chains * depth * r - r;
    assert (depth - 1) * l == depth * l - l;
    assert (chains - 1) * r == chains * r - r;
    MulMono(1, chains, r);
    MulAssoc(depth, chains, r);
    if chains * r > l {
      MulMono(l, chains * r, depth - 1);
      assert chains * r + (depth - 1) * (chains * r) == depth * (chains * r);
    }
  }

  /** The bound is sound for every schedule exactly when there is a chain, or no
      latency to wait for: with zero chains it still charges the floor. */
  lemma ChainBoundSoundIff(chains: u32, depth: u32, r: u32, l: u32)
    ensures (forall start: seq<nat>, T: nat ::
               IsSchedule(start, chains, depth, r, l) && DoneBy(start, r, l, T) ==>
               ChainCycles(chains, depth, r, l).cycles <= T)
       <==> chains > 0 || depth == 0 || l == 0
  {
    ChainCyclesIsMaxCapped(chains, depth, r, l);
    if chains > 0 && depth > 0 {
      ChainBoundBracketsOptimum(chains, depth, r, l);
      InterleaveIsOptimal(chains, depth, r, l);
    } else if depth > 0 && l > 0 {
      MulMono(1, depth, l);
      assert IsSchedule([], chains, depth, r, l) && DoneBy([], r, l, 0);
    }
  }

  /** With no chain at all the empty schedule is done at once, and one op of unit
      latency is still charged for. */
  lemma NoChainsStillCharged()
    ensures ChainCycles(0, 1, 1, 1).cycles == 1
    ensures IsSchedule([], 0, 1, 1, 1) && DoneBy([], 1, 1, 0)
  {
  }

  // ------------------------------------------ latency, utilization and registers

  /** Latency binds exactly below the hide threshold, on every input with a live pipe:
      a zero depth or a throughput at the 32-bit cap never reports latency. With a free
      pipe it binds as soon as there is depth and latency. */
  lemma LatencyBoundIffBelowHideThreshold(t: OpTemplate)
    ensures t.cycPerOp > 0 ==>
      (t.LatencyBound() <==>
       t.depth > 0 && t.chains < t.ChainsToHide() && t.chains * t.depth * t.cycPerOp < MAX)
    ensures t.cycPerOp == 0 ==> (t.LatencyBound() <==> t.depth > 0 && t.opLatency > 0)
  {
    ChainCyclesIsMaxCapped(t.chains, t.depth, t.cycPerOp, t.opLatency);
    if t.depth > 0 {
      if t.cycPerOp > 0 {
        CeilDivIsLeastCover(t.opLatency, t.cycPerOp, t.chains);
        MulAssoc(t.depth, t.chains, t.cycPerOp);
        PerOpComparison(t.depth, t.chains * t.cycPerOp, t.opLatency);
      } else {
        PerOpComparison(t.depth, 0, t.opLatency);
      }
    }
  }

  lemma PerOpComparison(depth: nat, a: int, b: int)
    requires depth > 0
    ensures depth * a < depth * b <==> a < b
  {
    if a < b {
      MulMono(a + 1, b, depth);
    } else {
      MulMono(b, a, depth);
    }
  }

  lemma CancelFactor(d: nat, a: nat, b: nat)
    requires d > 0 && b > 0
    ensures d * b > 0
    ensures (d * a) / (d * b) == a / b
  {
    MulMono(1, b, d);
    var q, q' := (d * a) / (d * b), a / b;
    LeDiv(q, d * a, d * b);
    LeDiv(q', d * a, d * b);
    LeDiv(q, a, b);
    LeDiv(q', a, b);
    MulAssoc(d, q, b);
    MulAssoc(q, d, b);
    MulAssoc(d, q', b);
    MulAssoc(q', d, b);
    PerOpComparison(d, a, q * b);
    PerOpComparison(d, a, q' * b);
  }

  /** Little's law as a percentage, on every input: nothing without work, 100 when the
      latency is hidden or the throughput is at the 32-bit cap, and in between the
      floor of 100 C R / L, independent of depth. Only a latency floor at the cap
      leaves a depth in the formula. */
  lemma UtilizationIsLittlesLaw(chains: u32, depth: u32, r: u32, l: u32)
    ensures ChainUtilizationPct(chains, depth, r, l) ==
      if chains == 0 || depth == 0 || r == 0 then 0
      else if chains * r >= l || chains * depth * r >= MAX then 100
      else if depth * l <= MAX then 100 * (chains * r) / l
      else 100 * (chains * depth * r) / MAX
  {
    UtilizationIsRatio(chains, depth, r, l);
    WorkNeedsAll(chains, depth, r);
    if chains > 0 && depth > 0 && r > 0 {
      BusyLaw(chains, depth, r, l);
    }
  }

  lemma BusyLaw(chains: u32, depth: u32, r: u32, l: u32)
    requires chains > 0 && depth > 0 && r > 0
    ensures Min(MAX, chains * depth * r) * 100 / Max(Min(MAX, Max(chains * depth * r, depth * l)), 1) ==
      if chains * r >= l || chains * depth * r >= MAX then 100
      else if depth * l <= MAX then 100 * (chains * r) / l
      else 100 * (chains * depth * r) / MAX
  {
    MulMono(1, r, chains);
    MulAssoc(depth, chains, r);
    CappedRatio(depth, chains * r, l, chains * depth * r);
  }

  lemma UtilizationIsRatio(chains: u32, depth: u32, r: u32, l: u32)
    ensures ChainUtilizationPct(chains, depth, r, l)
         == Min(MAX, chains * depth * r) * 100 / Max(Min(MAX, Max(chains * depth * r, depth * l)), 1)
  {
    ChainCyclesIsMaxCapped(chains, depth, r, l);
    BusyIsCapped(chains, depth, r);
  }

  /** The percentage on its own: `depth` rounds of `a` busy cycles and latency `l`. */
  lemma CappedRatio(depth: nat, a: nat, l: nat, all: nat)
    requires depth > 0 && a > 0 && all == depth * a
    ensures Min(MAX, all) * 100 / Max(Min(MAX, Max(all, depth * l)), 1) ==
      if a >= l || all >= MAX then 100
      else if depth * l <= MAX then 100 * a / l
      else 100 * all / MAX
  {
    PerOpComparison(depth, 0, a);
    PerOpComparison(depth, a, l);
    var busy := Min(MAX, all);
    if a >= l || all >= MAX {
      LeDiv(100, busy * 100, busy);
      LeDiv(101, busy * 100, busy);
    } else if depth * l <= MAX {
      CancelFactor(depth, 100 * a, l);
      MulAssoc(depth, 100, a);
    }
  }

  lemma BusyIsCapped(chains: u32, depth: u32, r: u32)
    ensures SatMul(SatMul(chains, depth), r) == Min(MAX, chains * depth * r)
  {
    if chains * depth > MAX && r > 0 {
      MulMono(MAX, chains * depth, r);
      MulMono(1, r, MAX);
    }
  }

  /** Full utilization means some work and no exposed latency, on every input. */
  lemma FullUtilizationIffHidden(chains: u32, depth: u32, r: u32, l: u32)
    ensures ChainUtilizationPct(chains, depth, r, l) == 100 <==>
      chains * depth * r > 0 && ChainCycles(chains, depth, r, l).bottleneck != Latency
  {
    ChainCyclesIsMaxCapped(chains, depth, r, l);
    var busy: int := SatMul(SatMul(chains, depth), r);
    var mii := Max(ChainCycles(chains, depth, r, l).cycles, 1);
    LeDiv(100, busy * 100, mii);
    LeDiv(101, busy * 100, mii);
    BusyIsCapped(chains, depth, r);
  }

  // -------------------------------------------------- what a register budget pays

  /** `n` chains and the base registers fit the budget; a free chain counts as one
      register, and no chain needs nothing. */
  ghost predicate Affordable(budget: nat, base: nat, perChain: nat, n: nat) {
    n == 0 || base + n * Max(perChain, 1) <= budget
  }

  ghost predicate MostAffordable(budget: nat, base: nat, perChain: nat, most: nat) {
    forall n: nat :: n <= most <==> Affordable(budget, base, perChain, n)
  }

  /** The division is the greatest number of chains that the budget pays, in unbounded
      arithmetic. */
  lemma AchievableIsMostAffordable(budget: u32, base: u32, perChain: u32)
    ensures MostAffordable(budget, base, perChain, AchievableChains(budget, base, perChain))
  {
    forall n: nat
      ensures n <= AchievableChains(budget, base, perChain) <==> Affordable(budget, base, perChain, n)
    {
      LeDiv(n, SatSub(budget, base), Max(perChain, 1));
      if n > 0 {
        MulMono(1, n, Max(perChain, 1));
      }
    }
  }

  /** Saturating the base registers never changes that: nothing fits beside them. */
  lemma SaturatedBaseIsExact(budget: u32, base: u32, spend: u32, perChain: u32)
    ensures MostAffordable(budget, base + spend, perChain,
                           AchievableChains(budget, SatAdd(base, spend), perChain))
  {
    AchievableIsMostAffordable(budget, SatAdd(base, spend), perChain);
    forall n: nat
      ensures Affordable(budget, SatAdd(base, spend), perChain, n) <==>
              Affordable(budget, base + spend, perChain, n)
    {
      if n > 0 {
        MulMono(1, n, Max(perChain, 1));
      }
    }
  }

  lemma MostIsUnique(budget: nat, base: nat, perChain: nat, m: nat, n: nat)
    requires MostAffordable(budget, base, perChain, m) && MostAffordable(budget, base, perChain, n)
    ensures m == n
  {
    assert Affordable(budget, base, perChain, m) && Affordable(budget, base, perChain, n);
  }

  /** The register gate, from its inputs alone: it passes exactly when some number of
      chains hides the latency and fits the budget beside the base and the spend. */
  lemma GateIffHidingFits(t: OpTemplate, budget: u32, base: u32, perChain: u32, spend: u32)
    ensures t.OverlapKeepsHidden(budget, base, perChain, spend) <==>
      exists n: nat :: t.opLatency <= n * Max(t.cycPerOp, 1) && Affordable(budget, base + spend, perChain, n)
  {
    var sustained, needed := AchievableChains(budget, SatAdd(base, spend), perChain), t.ChainsToHide();
    SaturatedBaseIsExact(budget, base, spend, perChain);
    CeilDivIsLeastCover(t.opLatency, Max(t.cycPerOp, 1), needed);
    if needed <= sustained {
      assert t.opLatency <= needed * Max(t.cycPerOp, 1) && Affordable(budget, base + spend, perChain, needed);
    }
    forall n: nat | t.opLatency <= n * Max(t.cycPerOp, 1) && Affordable(budget, base + spend, perChain, n)
      ensures needed <= sustained
    {
      CeilDivIsLeastCover(t.opLatency, Max(t.cycPerOp, 1), n);
    }
  }

  /** Seven chains are needed, and at twelve registers each 28 registers pay two. */
  lemma CostlyChainsFailTheGate()
    ensures AchievableChains(128, 100, 12) == 2
    ensures !OpTemplate(7, 64, 2, 14).OverlapKeepsHidden(128, 100, 12, 0)
  {
    LeDiv(2, 28, 12);
    LeDiv(3, 28, 12);
    CeilDivIsLeastCover(14, 2, 6);
  }

  /** The chains left under a budget, as the utilization counts them: at most those of
      the template, at least one. */
  function Kept(t: OpTemplate, sustained: u32): u32 {
    Max(Min(sustained, t.chains), 1)
  }

  ghost predicate Keeps(t: OpTemplate, budget: nat, base: nat, perChain: nat, n: nat) {
    n <= 1 || (n <= t.chains && Affordable(budget, base, perChain, n))
  }

  ghost predicate KeepsExactly(t: OpTemplate, budget: nat, base: nat, perChain: nat, kept: nat) {
    forall n: nat :: n <= kept <==> Keeps(t, budget, base, perChain, n)
  }

  /** Utilization under registers is that of the chains kept, the greatest number both
      requested and paid for, or one. */
  lemma UtilizationOfKept(t: OpTemplate, budget: u32, base: u32, perChain: u32, spend: u32, kept: nat)
    requires KeepsExactly(t, budget, base + spend, perChain, kept)
    ensures kept == Kept(t, AchievableChains(budget, SatAdd(base, spend), perChain))
    ensures t.UtilizationUnderRegisters(budget, SatAdd(base, spend), perChain)
         == ChainUtilizationPct(kept, t.depth, t.cycPerOp, t.opLatency)
  {
    var k: nat := Kept(t, AchievableChains(budget, SatAdd(base, spend), perChain));
    SaturatedBaseIsExact(budget, base, spend, perChain);
    assert Keeps(t, budget, base + spend, perChain, k) by {
      assert k <= 1 || Affordable(budget, base + spend, perChain, k);
    }
    assert Keeps(t, budget, base + spend, perChain, kept);
    assert Keeps(t, budget, base + spend, perChain, 1);
  }

  /** Full utilization is the hide threshold wherever there is work below the 32-bit cap.
      Without work there is no utilization, at the cap there is always full one. */
  lemma FullUtilizationMatchesThreshold(t: OpTemplate)
    ensures (t.UtilizationPct() == 100 <==> t.chains >= t.ChainsToHide())
       <==> if t.chains * t.depth * t.cycPerOp == 0 then t.chains < t.ChainsToHide()
            else if t.chains * t.depth * t.cycPerOp >= MAX then t.chains >= t.ChainsToHide()
            else true
  {
    FullUtilizationIffHidden(t.chains, t.depth, t.cycPerOp, t.opLatency);
    LatencyBoundIffBelowHideThreshold(t);
    WorkNeedsAll(t.chains, t.depth, t.cycPerOp);
  }

  lemma WorkNeedsAll(chains: nat, depth: nat, r: nat)
    ensures chains * depth * r > 0 <==> chains > 0 && depth > 0 && r > 0
  {
    if chains > 0 && depth > 0 && r > 0 {
      MulMono(1, depth, chains);
      MulMono(1, r, chains * depth);
    } else if chains > 0 && r > 0 {
      assert chains * depth == 0;
    }
  }

  /** At the cap a single chain out of the thousand needed counts as full utilization,
      and one that is hidden but does no work counts as none. */
  lemma FullWithoutHiding()
    ensures var t := OpTemplate(1, MAX, 1, 1000);
            t.UtilizationPct() == 100 && t.chains < t.ChainsToHide() == 1000
    ensures var t := OpTemplate(1, 0, 1, 1);
            t.UtilizationPct() == 0 && t.chains >= t.ChainsToHide()
  {
    UtilizationIsLittlesLaw(1, MAX, 1, 1000);
    UtilizationIsLittlesLaw(1, 0, 1, 1);
    LeDiv(1000, 1000, 1);
    LeDiv(1001, 1000, 1);
  }

  /** When the register gate and full utilization after the spend give the same answer,
      on every input. They differ in four families: there is no work and the gate passes;
      the throughput is at the 32-bit cap and the gate does not; one chain suffices but
      none is left, where the utilization still counts one; or the template never asked
      for as many chains as it needs. */
  lemma OverlapGateMatchesUtilization(t: OpTemplate, regBudget: u32, base: u32, perChain: u32, spend: u32,
                                      sustained: nat, kept: nat)
    requires MostAffordable(regBudget, base + spend, perChain, sustained)
    requires KeepsExactly(t, regBudget, base + spend, perChain, kept)
    ensures var needed := t.ChainsToHide();
            ((t.OverlapKeepsHidden(regBudget, base, perChain, spend) <==>
              t.UtilizationUnderRegisters(regBudget, SatAdd(base, spend), perChain) == 100)
            <==> if t.depth == 0 || t.cycPerOp == 0 then sustained < needed
                 else if kept * t.depth * t.cycPerOp >= MAX then sustained >= needed
                 else !(needed == 1 && sustained == 0) && !(needed >= 2 && t.chains < needed <= sustained))
  {
    SaturatedBaseIsExact(regBudget, base, spend, perChain);
    MostIsUnique(regBudget, base + spend, perChain, sustained,
                 AchievableChains(regBudget, SatAdd(base, spend), perChain));
    UtilizationOfKept(t, regBudget, base, perChain, spend, kept);
    FullUtilizationIffHidden(kept, t.depth, t.cycPerOp, t.opLatency);
    LatencyBoundIffBelowHideThreshold(t.(chains := kept));
    if t.depth > 0 && t.cycPerOp > 0 {
      MulMono(1, t.depth, kept);
      MulMono(1, t.cycPerOp, kept * t.depth);
    }
  }

  /** The last two families have a member each. */
  lemma OverlapGateDisagrees()
    ensures var lone := OpTemplate(1, 1, 1, 1);
            !lone.OverlapKeepsHidden(1, 1, 1, 0) && lone.UtilizationUnderRegisters(1, 1, 1) == 100
    ensures var shy := OpTemplate(1, 1, 1, 2);
            shy.OverlapKeepsHidden(2, 0, 1, 0) && shy.UtilizationUnderRegisters(2, 0, 1) == 50
  {
    UtilizationIsLittlesLaw(1, 1, 1, 1);
    UtilizationIsLittlesLaw(1, 1, 1, 2);
  }

  /** So has the first, with no depth and with a free op. */
  lemma IdleGatePasses()
    ensures var idle := OpTemplate(1, 0, 1, 1);
            idle.OverlapKeepsHidden(1, 0, 1, 0) && idle.UtilizationUnderRegisters(1, 0, 1) == 0
    ensures var free := OpTemplate(1, 1, 0, 0);
            free.OverlapKeepsHidden(1, 0, 1, 0) && free.UtilizationUnderRegisters(1, 0, 1) == 0
  {
    UtilizationIsLittlesLaw(1, 0, 1, 1);
    UtilizationIsLittlesLaw(1, 1, 0, 0);
  }

  /** And the second. */
  lemma CappedGateFails()
    ensures var capped := OpTemplate(1, MAX, 1, 1000);
            !capped.OverlapKeepsHidden(1, 0, 1, 0) && capped.UtilizationUnderRegisters(1, 0, 1) == 100
  {
    UtilizationIsLittlesLaw(1, MAX, 1, 1000);
    CeilDivIsLeastCover(1000, 1, 1);
  }

  lemma PercentMonotone(busy: nat, busy': nat, floor: nat)
    requires busy <= busy'
    ensures busy * 100 / Max(Max(busy, floor), 1) <= busy' * 100 / Max(Max(busy', floor), 1) <= 100
  {
    var mii, mii' := Max(Max(busy, floor), 1), Max(Max(busy', floor), 1);
    var u := busy * 100 / mii;
    LeDiv(u, busy * 100, mii);
    LeDiv(u, busy' * 100, mii');
    LeDiv(101, busy * 100, mii);
    LeDiv(101, busy' * 100, mii');
    if mii != mii' {
      assert mii' == busy';
      MulMono(u, 100, mii');
    }
  }

  lemma UtilizationMonotoneInChains(c: u32, c': u32, depth: u32, r: u32, l: u32)
    requires c <= c'
    ensures ChainUtilizationPct(c, depth, r, l) <= ChainUtilizationPct(c', depth, r, l) <= 100
  {
    MulMono(c, c', depth);
    MulMono(SatMul(c, depth), SatMul(c', depth), r);
    PercentMonotone(SatMul(SatMul(c, depth), r), SatMul(SatMul(c', depth), r), SatMul(depth, l));
  }

  /** Spending registers, or shrinking the budget, never raises utilization, and the
      budget never raises it above what the template has without one. */
  lemma RegistersOnlyCost(t: OpTemplate, budget: u32, budget': u32, base: u32, base': u32, perChain: u32)
    requires budget' <= budget && base <= base'
    ensures MostAffordable(budget, base, perChain, AchievableChains(budget, base, perChain))
    ensures AchievableChains(budget', base', perChain) <= AchievableChains(budget, base, perChain)
    ensures t.UtilizationUnderRegisters(budget', base', perChain)
         <= t.UtilizationUnderRegisters(budget, base, perChain) <= 100
    ensures t.chains > 0 ==> t.UtilizationUnderRegisters(budget, base, perChain) <= t.UtilizationPct()
  {
    var less, more := AchievableChains(budget', base', perChain), AchievableChains(budget, base, perChain);
    AchievableIsMostAffordable(budget, base, perChain);
    AchievableIsMostAffordable(budget', base', perChain);
    assert Affordable(budget', base', perChain, less);
    assert Affordable(budget, base, perChain, less);
    UtilizationMonotoneInChains(Max(Min(less, t.chains), 1), Max(Min(more, t.chains), 1),
                                t.depth, t.cycPerOp, t.opLatency);
    if t.chains > 0 {
      UtilizationMonotoneInChains(Max(Min(more, t.chains), 1), t.chains, t.depth, t.cycPerOp, t.opLatency);
    }
  }

  /** The busy cycles of some chains and the latency floor, as the utilization sees them. */
  function Busy(t: OpTemplate, chains: u32): nat {
    Min(MAX, chains * t.depth * t.cycPerOp)
  }

  function Floor(t: OpTemplate): nat {
    Min(MAX, t.depth * t.opLatency)
  }

  /** Which percentages some chains reach: those whose share of the floor they keep busy. */
  lemma UtilizationReaches(t: OpTemplate, chains: u32, p: nat)
    requires 1 <= p <= 100
    ensures ChainUtilizationPct(chains, t.depth, t.cycPerOp, t.opLatency) >= p <==>
      Busy(t, chains) > 0 && p * Floor(t) <= 100 * Busy(t, chains)
  {
    var busy, floor := Busy(t, chains), Floor(t);
    ChainCyclesIsMaxCapped(chains, t.depth, t.cycPerOp, t.opLatency);
    BusyIsCapped(chains, t.depth, t.cycPerOp);
    var mii := Max(Max(busy, floor), 1);
    LeDiv(p, busy * 100, mii);
    if busy >= floor {
      MulMono(p, 100, busy);
      MulMono(floor, busy, p);
    }
  }

  /** Exactly when a register budget costs utilization: some whole percent of the latency
      floor lies above what the chains left keep busy, and not above what the requested
      ones do. */
  lemma BudgetCostsIffMarkLost(t: OpTemplate, budget: u32, base: u32, perChain: u32, kept: u32)
    requires KeepsExactly(t, budget, base, perChain, kept)
    ensures t.UtilizationUnderRegisters(budget, base, perChain) < t.UtilizationPct() <==>
            exists p :: 1 <= p <= 100 && 100 * Busy(t, kept) < p * Floor(t) <= 100 * Busy(t, t.chains)
  {
    UtilizationOfKept(t, budget, base, perChain, 0, kept);
    var under, full := t.UtilizationUnderRegisters(budget, base, perChain), t.UtilizationPct();
    UtilizationMonotoneInChains(t.chains, t.chains, t.depth, t.cycPerOp, t.opLatency);
    if under < full {
      UtilizationReaches(t, kept, full);
      UtilizationReaches(t, t.chains, full);
      BusyTogether(t, kept, t.chains);
      assert 100 * Busy(t, kept) < full * Floor(t) <= 100 * Busy(t, t.chains);
    }
    forall p | 1 <= p <= 100 && 100 * Busy(t, kept) < p * Floor(t) <= 100 * Busy(t, t.chains)
      ensures under < full
    {
      UtilizationReaches(t, kept, p);
      UtilizationReaches(t, t.chains, p);
    }
  }

  lemma BusyTogether(t: OpTemplate, kept: u32, chains: u32)
    requires kept > 0
    ensures Busy(t, chains) > 0 ==> Busy(t, kept) > 0
  {
    WorkNeedsAll(kept, t.depth, t.cycPerOp);
    WorkNeedsAll(chains, t.depth, t.cycPerOp);
  }

  /** A budget never raises utilization, but for a template of no chains, which counts
      one chain under a budget: it is raised unless that chain stays below one percent. */
  lemma BudgetNeverRaisesIff(t: OpTemplate, budget: u32, base: u32, perChain: u32)
    ensures t.UtilizationUnderRegisters(budget, base, perChain) <= t.UtilizationPct() <==>
      t.chains > 0 || t.depth * t.cycPerOp == 0 || 100 * Busy(t, 1) < Floor(t)
  {
    if t.chains > 0 {
      RegistersOnlyCost(t, budget, budget, base, base, perChain);
    } else {
      UtilizationIsLittlesLaw(0, t.depth, t.cycPerOp, t.opLatency);
      UtilizationReaches(t, 1, 1);
    }
  }

  /** A template of no chains is utilized in full under any budget, and one that keeps
      half of its chains loses nothing. */
  lemma BudgetExtremes()
    ensures OpTemplate(0, 1, 1, 1).UtilizationPct() == 0
    ensures OpTemplate(0, 1, 1, 1).UtilizationUnderRegisters(1, 0, 1) == 100
    ensures OpTemplate(100, 1, 1, 2).UtilizationPct() == 100
    ensures AchievableChains(50, 0, 1) == 50 && OpTemplate(100, 1, 1, 2).UtilizationUnderRegisters(50, 0, 1) == 100
  {
    UtilizationIsLittlesLaw(0, 1, 1, 1);
    UtilizationIsLittlesLaw(1, 1, 1, 1);
    UtilizationIsLittlesLaw(100, 1, 1, 2);
    UtilizationIsLittlesLaw(50, 1, 1, 2);
  }
}
