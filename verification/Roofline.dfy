/** The per-pipe-max projection (src/lib.rs, `project`) against an explicit
    scheduling problem: what is issued and moved in every single cycle. */
module Roofline {
  import opened U32
  import opened Occupancy

  datatype Bottleneck = Pipe(index: nat) | IssueCap | Memory | Latency

  datatype Projection = Projection(cycles: u32, bottleneck: Bottleneck)

  function PipeCycles(rate: u32, ops: u32): u32 {
    CeilDiv(ops, Max(rate, 1))
  }

  function SatSum(ops: seq<u32>): u32 {
    if ops == [] then 0 else SatAdd(SatSum(ops[..|ops| - 1]), ops[|ops| - 1])
  }

  function IssueCycles(s: Substrate, ops: seq<u32>): u32 {
    CeilDiv(SatSum(ops), Max(s.issueCap, 1))
  }

  function MemoryCycles(s: Substrate, totalBytes: u32): u32 {
    CeilDiv(totalBytes, s.memBandwidth)
  }

  /** `p.cycles` is the largest of all demands and `p.bottleneck` attains it, under
      the tie order Memory, IssueCap, first pipe. */
  ghost predicate IsProjection(s: Substrate, rates: seq<u32>, ops: seq<u32>, totalBytes: u32, p: Projection)
    requires |rates| == |ops|
  {
    && MemoryCycles(s, totalBytes) <= p.cycles
    && IssueCycles(s, ops) <= p.cycles
    && (forall i :: 0 <= i < |ops| ==> PipeCycles(rates[i], ops[i]) <= p.cycles)
    && match p.bottleneck
       case Memory => p.cycles == MemoryCycles(s, totalBytes)
       case IssueCap => p.cycles == IssueCycles(s, ops) && MemoryCycles(s, totalBytes) < p.cycles
       case Pipe(b) =>
         && b < |ops|
         && p.cycles == PipeCycles(rates[b], ops[b])
         && MemoryCycles(s, totalBytes) < p.cycles
         && IssueCycles(s, ops) < p.cycles
         && (forall i :: 0 <= i < b ==> PipeCycles(rates[i], ops[i]) < p.cycles)
       case Latency => false
  }

  method Project(s: Substrate, rates: seq<u32>, ops: seq<u32>, totalBytes: u32) returns (p: Projection)
    requires |rates| == |ops|
    ensures IsProjection(s, rates, ops, totalBytes, p)
  {
    var cycPipe: u32, bind: nat := 0, 0;
    for i := 0 to |rates|
      invariant forall j :: 0 <= j < i ==> PipeCycles(rates[j], ops[j]) <= cycPipe
      invariant cycPipe > 0 ==>
        && bind < i
        && PipeCycles(rates[bind], ops[bind]) == cycPipe
        && (forall j :: 0 <= j < bind ==> PipeCycles(rates[j], ops[j]) < cycPipe)
    {
      var c := PipeCycles(rates[i], ops[i]);
      if c > cycPipe {
        cycPipe := c;
        bind := i;
      }
    }
    var totalOps: u32 := 0;
    for i := 0 to |ops|
      invariant totalOps == SatSum(ops[..i])
    {
      assert ops[..i + 1][..i] == ops[..i];
      totalOps := SatAdd(totalOps, ops[i]);
    }
    assert ops[..|ops|] == ops;
    var cycIssue := CeilDiv(totalOps, Max(s.issueCap, 1));
    var cycMem := CeilDiv(totalBytes, s.memBandwidth);
    if cycMem >= cycPipe && cycMem >= cycIssue {
      p := Projection(cycMem, Memory);
    } else if cycIssue >= cycPipe {
      p := Projection(cycIssue, IssueCap);
    } else {
      p := Projection(cycPipe, Pipe(bind));
    }
  }

  /** The predicate leaves no freedom, so it is a full specification of `Project`. */
  lemma ProjectionUnique(s: Substrate, rates: seq<u32>, ops: seq<u32>, totalBytes: u32, p: Projection, q: Projection)
    requires |rates| == |ops|
    requires IsProjection(s, rates, ops, totalBytes, p)
    requires IsProjection(s, rates, ops, totalBytes, q)
    ensures p == q
  {
    assert p.cycles == q.cycles;
  }

  // -------------------------------------------------------- the scheduling problem

  /** What happens in one cycle: ops issued per pipe, and bytes moved. */
  datatype Cycle = Cycle(issued: seq<nat>, bytes: nat)

  ghost function Sum(xs: seq<nat>): nat {
    if xs == [] then 0 else Sum(xs[..|xs| - 1]) + xs[|xs| - 1]
  }

  ghost predicate Legal(s: Substrate, rates: seq<u32>, c: Cycle) {
    && |c.issued| == |rates|
    && (forall i :: 0 <= i < |rates| ==> c.issued[i] <= Max(rates[i], 1))
    && Sum(c.issued) <= Max(s.issueCap, 1)
    && (s.memBandwidth > 0 ==> c.bytes <= s.memBandwidth)
  }

  ghost function Plus(a: seq<nat>, b: seq<nat>): (r: seq<nat>)
    requires |a| == |b|
    ensures |r| == |a| && forall i :: 0 <= i < |a| ==> r[i] == a[i] + b[i]
  {
    seq(|a|, i requires 0 <= i < |a| => a[i] + b[i])
  }

  ghost predicate AllLegal(s: Substrate, rates: seq<u32>, schedule: seq<Cycle>) {
    && HasPipes(schedule, |rates|)
    && forall t :: 0 <= t < |schedule| ==> Legal(s, rates, schedule[t])
  }

  ghost predicate HasPipes(schedule: seq<Cycle>, pipes: nat) {
    forall t :: 0 <= t < |schedule| ==> |schedule[t].issued| == pipes
  }

  ghost function Issued(pipes: nat, schedule: seq<Cycle>): (r: seq<nat>)
    requires HasPipes(schedule, pipes)
    ensures |r| == pipes
  {
    if schedule == [] then seq(pipes, i => 0)
    else Plus(Issued(pipes, schedule[..|schedule| - 1]), schedule[|schedule| - 1].issued)
  }

  ghost function Moved(schedule: seq<Cycle>): nat {
    if schedule == [] then 0 else Moved(schedule[..|schedule| - 1]) + schedule[|schedule| - 1].bytes
  }

  /** Every cycle is legal and together they do all the work. A zero bandwidth means
      that the memory axis is absent. */
  ghost predicate Executes(s: Substrate, rates: seq<u32>, ops: seq<u32>, totalBytes: u32, schedule: seq<Cycle>)
    requires |rates| == |ops|
  {
    && AllLegal(s, rates, schedule)
    && Issued(|rates|, schedule) == ops
    && (s.memBandwidth > 0 ==> Moved(schedule) == totalBytes)
  }

  // ------------------------------------------------------------------ lower bound

  lemma {:induction false} SumPlus(a: seq<nat>, b: seq<nat>)
    requires |a| == |b|
    ensures Sum(Plus(a, b)) == Sum(a) + Sum(b)
  {
    if a != [] {
      var n := |a| - 1;
      assert Plus(a, b)[..n] == Plus(a[..n], b[..n]);
      SumPlus(a[..n], b[..n]);
    }
  }

  lemma {:induction false} SumZeros(n: nat)
    ensures Sum(seq(n, i => 0)) == 0
  {
    if n > 0 {
      SumZeros(n - 1);
      var zeros: seq<nat> := seq(n, i => 0);
      assert zeros[..n - 1] == seq(n - 1, i => 0);
    }
  }

  lemma {:induction false} SatSumIsSumCapped(ops: seq<u32>)
    ensures SatSum(ops) == Min(MAX, Sum(ops))
  {
    if ops != [] {
      SatSumIsSumCapped(ops[..|ops| - 1]);
    }
  }

  lemma {:induction false} LegalCapacity(s: Substrate, rates: seq<u32>, schedule: seq<Cycle>)
    requires AllLegal(s, rates, schedule)
    ensures forall i :: 0 <= i < |rates| ==>
      Issued(|rates|, schedule)[i] <= |schedule| * Max(rates[i], 1)
    ensures Sum(Issued(|rates|, schedule)) <= |schedule| * Max(s.issueCap, 1)
    ensures s.memBandwidth > 0 ==> Moved(schedule) <= |schedule| * s.memBandwidth
  {
    if schedule == [] {
      SumZeros(|rates|);
    } else {
      var n := |schedule| - 1;
      var before, last := schedule[..n], schedule[n];
      assert AllLegal(s, rates, before);
      LegalCapacity(s, rates, before);
      assert Legal(s, rates, last);
      SumPlus(Issued(|rates|, before), last.issued);
      OneMore(n, Max(s.issueCap, 1));
      OneMore(n, s.memBandwidth);
      forall i | 0 <= i < |rates|
        ensures Issued(|rates|, schedule)[i] <= |schedule| * Max(rates[i], 1)
      {
        OneMore(n, Max(rates[i], 1));
      }
    }
  }

  lemma OneMore(n: int, c: int)
    ensures (n + 1) * c == n * c + c
  {
  }

  /** No schedule is shorter than the projection, saturated or not. */
  lemma NoShorterSchedule(s: Substrate, rates: seq<u32>, ops: seq<u32>, totalBytes: u32, p: Projection,
                          schedule: seq<Cycle>)
    requires |rates| == |ops|
    requires IsProjection(s, rates, ops, totalBytes, p)
    requires Executes(s, rates, ops, totalBytes, schedule)
    ensures p.cycles <= |schedule|
  {
    LegalCapacity(s, rates, schedule);
    SatSumIsSumCapped(ops);
    CeilDivIsLeastCover(SatSum(ops), Max(s.issueCap, 1), |schedule|);
    if s.memBandwidth > 0 {
      CeilDivIsLeastCover(totalBytes, s.memBandwidth, |schedule|);
    }
    forall i | 0 <= i < |ops|
      ensures PipeCycles(rates[i], ops[i]) <= |schedule|
    {
      CeilDivIsLeastCover(ops[i], Max(rates[i], 1), |schedule|);
    }
  }

  // ------------------------------------------------------ the round-robin schedule

  /** How many of the items 0..a-1 land in slot `t` when dealt out over `T` slots. */
  ghost function Share(a: nat, t: nat, T: nat): nat
    requires t < T
  {
    DivBounds(a, T);
    a / T + if t < a % T then 1 else 0
  }

  ghost function SharesBefore(a: nat, m: nat, T: nat): nat
    requires m <= T && T > 0
  {
    DivBounds(a, T);
    MulMono(0, m, a / T);
    m * (a / T) + Min(a % T, m)
  }

  lemma ShareMonotone(a: nat, b: nat, t: nat, T: nat)
    requires t < T && a <= b
    ensures Share(a, t, T) <= Share(b, t, T)
  {
    LeDiv(a / T, b, T);
    DivBounds(a, T);
    DivBounds(b, T);
  }

  lemma ShareShift(a: nat, r: nat, t: nat, T: nat)
    requires t < T
    ensures 0 <= r * T
    ensures Share(a + r * T, t, T) == Share(a, t, T) + r
  {
    MulMono(0, r, T);
    var b := a + r * T;
    DivBounds(a, T);
    DivBounds(b, T);
    var q := a / T + r;
    assert q * T == (a / T) * T + r * T;
    LeDiv(q, b, T);
    LeDiv(q + 1, b, T);
    assert (q + 1) * T == q * T + T;
  }

  /** A run of at most `r * T` consecutive items puts at most `r` in any slot. */
  lemma ShareOfRun(a: nat, b: nat, r: nat, t: nat, T: nat)
    requires t < T && a <= b <= a + r * T
    ensures Share(a, t, T) <= Share(b, t, T) <= Share(a, t, T) + r
  {
    ShareMonotone(a, b, t, T);
    ShareShift(a, r, t, T);
    ShareMonotone(b, a + r * T, t, T);
  }

  lemma SharesBeforeStep(a: nat, m: nat, T: nat)
    requires m < T
    ensures SharesBefore(a, 0, T) == 0
    ensures SharesBefore(a, m + 1, T) == SharesBefore(a, m, T) + Share(a, m, T)
    ensures SharesBefore(a, T, T) == a
  {
    DivBounds(a, T);
    assert (m + 1) * (a / T) == m * (a / T) + a / T;
  }

  lemma {:induction false} SumPrefix(ops: seq<nat>, n: nat)
    requires n <= |ops|
    ensures Sum(ops[..n]) <= Sum(ops)
    ensures n < |ops| ==> Sum(ops[..n + 1]) == Sum(ops[..n]) + ops[n]
    decreases |ops|
  {
    if n < |ops| {
      assert ops[..n + 1][..n] == ops[..n];
      if n + 1 < |ops| {
        SumPrefix(ops[..|ops| - 1], n);
        assert ops[..|ops| - 1][..n] == ops[..n];
      } else {
        assert ops[..n + 1] == ops;
      }
    } else {
      assert ops[..n] == ops;
    }
  }

  /** All ops of all pipes in one line, dealt over the cycles in turn: what cycle `t`
      gets of pipe `i`. */
  ghost function PipeShare(ops: seq<nat>, i: nat, t: nat, T: nat): nat
    requires t < T && i < |ops|
  {
    SumPrefix(ops, i);
    ShareMonotone(Sum(ops[..i]), Sum(ops[..i + 1]), t, T);
    Share(Sum(ops[..i + 1]), t, T) - Share(Sum(ops[..i]), t, T)
  }

  ghost function Row(ops: seq<nat>, t: nat, T: nat): (row: seq<nat>)
    requires t < T
    ensures |row| == |ops| && forall i :: 0 <= i < |ops| ==> row[i] == PipeShare(ops, i, t, T)
  {
    seq(|ops|, i requires 0 <= i < |ops| => PipeShare(ops, i, t, T))
  }

  lemma {:induction false} RowSum(ops: seq<nat>, t: nat, T: nat)
    requires t < T
    ensures Sum(Row(ops, t, T)) == Share(Sum(ops), t, T)
  {
    if ops == [] {
      DivBounds(0, T);
    } else {
      var n := |ops| - 1;
      RowSum(ops[..n], t, T);
      var row, shorter := Row(ops, t, T), Row(ops[..n], t, T);
      forall i | 0 <= i < n
        ensures row[i] == shorter[i]
      {
        assert ops[..n][..i] == ops[..i] && ops[..n][..i + 1] == ops[..i + 1];
      }
      assert row[..n] == shorter;
      assert ops[..n + 1] == ops;
    }
  }

  ghost function RoundRobin(ops: seq<nat>, totalBytes: nat, m: nat, T: nat): (r: seq<Cycle>)
    requires m <= T
    ensures |r| == m
    ensures forall t :: 0 <= t < m ==> r[t] == Cycle(Row(ops, t, T), Share(totalBytes, t, T))
  {
    seq(m, t requires 0 <= t < m => Cycle(Row(ops, t, T), Share(totalBytes, t, T)))
  }

  lemma {:induction false} RoundRobinMoves(ops: seq<nat>, totalBytes: nat, m: nat, T: nat)
    requires m <= T && T > 0
    ensures Moved(RoundRobin(ops, totalBytes, m, T)) == SharesBefore(totalBytes, m, T)
  {
    if m == 0 {
      SharesBeforeStep(totalBytes, 0, T);
    } else {
      assert RoundRobin(ops, totalBytes, m, T)[..m - 1] == RoundRobin(ops, totalBytes, m - 1, T);
      RoundRobinMoves(ops, totalBytes, m - 1, T);
      SharesBeforeStep(totalBytes, m - 1, T);
    }
  }

  lemma {:induction false} RoundRobinIssues(ops: seq<nat>, totalBytes: nat, i: nat, m: nat, T: nat)
    requires m <= T && T > 0 && i < |ops|
    ensures Issued(|ops|, RoundRobin(ops, totalBytes, m, T))[i]
         == SharesBefore(Sum(ops[..i + 1]), m, T) - SharesBefore(Sum(ops[..i]), m, T)
  {
    if m == 0 {
      SharesBeforeStep(Sum(ops[..i]), 0, T);
      SharesBeforeStep(Sum(ops[..i + 1]), 0, T);
    } else {
      assert RoundRobin(ops, totalBytes, m, T)[..m - 1] == RoundRobin(ops, totalBytes, m - 1, T);
      RoundRobinIssues(ops, totalBytes, i, m - 1, T);
      SharesBeforeStep(Sum(ops[..i]), m - 1, T);
      SharesBeforeStep(Sum(ops[..i + 1]), m - 1, T);
    }
  }

  lemma RoundRobinDoesTheWork(ops: seq<nat>, totalBytes: nat, T: nat)
    requires T > 0
    ensures Issued(|ops|, RoundRobin(ops, totalBytes, T, T)) == ops
    ensures Moved(RoundRobin(ops, totalBytes, T, T)) == totalBytes
  {
    RoundRobinMoves(ops, totalBytes, T, T);
    SharesBeforeStep(totalBytes, T - 1, T);
    var issued := Issued(|ops|, RoundRobin(ops, totalBytes, T, T));
    forall i | 0 <= i < |ops|
      ensures issued[i] == ops[i]
    {
      RoundRobinIssues(ops, totalBytes, i, T, T);
      SumPrefix(ops, i);
      SharesBeforeStep(Sum(ops[..i]), T - 1, T);
      SharesBeforeStep(Sum(ops[..i + 1]), T - 1, T);
    }
  }

  lemma MulCommutes(a: int, b: int)
    ensures a * b == b * a
  {
  }

  lemma PipeShareWithin(ops: seq<nat>, i: nat, rate: nat, t: nat, T: nat)
    requires t < T && i < |ops| && ops[i] <= T * rate
    ensures PipeShare(ops, i, t, T) <= rate
  {
    SumPrefix(ops, i);
    MulCommutes(T, rate);
    ShareOfRun(Sum(ops[..i]), Sum(ops[..i + 1]), rate, t, T);
  }

  lemma ShareWithin(a: nat, rate: nat, t: nat, T: nat)
    requires t < T && a <= T * rate
    ensures Share(a, t, T) <= rate
  {
    DivBounds(0, T);
    MulCommutes(T, rate);
    ShareOfRun(0, a, rate, t, T);
  }

  lemma RoundRobinLegal(s: Substrate, rates: seq<u32>, ops: seq<u32>, totalBytes: u32, t: nat, T: nat)
    requires |rates| == |ops| && t < T
    requires forall i :: 0 <= i < |ops| ==> ops[i] <= T * Max(rates[i], 1)
    requires Sum(ops) <= T * Max(s.issueCap, 1)
    requires s.memBandwidth > 0 ==> totalBytes <= T * s.memBandwidth
    ensures Legal(s, rates, RoundRobin(ops, totalBytes, T, T)[t])
  {
    RowSum(ops, t, T);
    ShareWithin(Sum(ops), Max(s.issueCap, 1), t, T);
    if s.memBandwidth > 0 {
      ShareWithin(totalBytes, s.memBandwidth, t, T);
    }
    forall i | 0 <= i < |rates|
      ensures PipeShare(ops, i, t, T) <= Max(rates[i], 1)
    {
      PipeShareWithin(ops, i, Max(rates[i], 1), t, T);
    }
  }

  lemma RoundRobinAllLegal(s: Substrate, rates: seq<u32>, ops: seq<u32>, totalBytes: u32, T: nat)
    requires |rates| == |ops| && T > 0
    requires forall i :: 0 <= i < |ops| ==> ops[i] <= T * Max(rates[i], 1)
    requires Sum(ops) <= T * Max(s.issueCap, 1)
    requires s.memBandwidth > 0 ==> totalBytes <= T * s.memBandwidth
    ensures AllLegal(s, rates, RoundRobin(ops, totalBytes, T, T))
  {
    var schedule := RoundRobin(ops, totalBytes, T, T);
    forall t | 0 <= t < |schedule|
      ensures Legal(s, rates, schedule[t])
    {
      RoundRobinLegal(s, rates, ops, totalBytes, t, T);
    }
  }

  /** The true op total fits under the issue cap within the cycles that one of the
      demands asks for anyway. It always does when it fits 32 bits. */
  ghost predicate IssueFits(s: Substrate, rates: seq<u32>, ops: seq<u32>, totalBytes: u32)
    requires |rates| == |ops|
  {
    var cap := Max(s.issueCap, 1);
    || Sum(ops) <= MAX
    || Sum(ops) <= CeilDiv(MAX, cap) * cap
    || Sum(ops) <= MemoryCycles(s, totalBytes) * cap
    || exists i :: 0 <= i < |ops| && Sum(ops) <= PipeCycles(rates[i], ops[i]) * cap
  }

  lemma IssueFitsWithinProjection(s: Substrate, rates: seq<u32>, ops: seq<u32>, totalBytes: u32, p: Projection)
    requires |rates| == |ops|
    requires IsProjection(s, rates, ops, totalBytes, p)
    ensures IssueFits(s, rates, ops, totalBytes) <==> Sum(ops) <= p.cycles * Max(s.issueCap, 1)
  {
    var cap := Max(s.issueCap, 1);
    SatSumIsSumCapped(ops);
    CeilDivIsLeastCover(SatSum(ops), cap, p.cycles);
    if IssueFits(s, rates, ops, totalBytes) && Sum(ops) > MAX {
      if Sum(ops) <= CeilDiv(MAX, cap) * cap {
        MulMono(CeilDiv(MAX, cap), p.cycles, cap);
      } else if Sum(ops) <= MemoryCycles(s, totalBytes) * cap {
        MulMono(MemoryCycles(s, totalBytes), p.cycles, cap);
      } else {
        var i :| 0 <= i < |ops| && Sum(ops) <= PipeCycles(rates[i], ops[i]) * cap;
        MulMono(PipeCycles(rates[i], ops[i]), p.cycles, cap);
      }
    }
  }

  /** A shortest schedule, when the projected cycles hold all ops under the cap. */
  lemma Attained(s: Substrate, rates: seq<u32>, ops: seq<u32>, totalBytes: u32, p: Projection)
    returns (schedule: seq<Cycle>)
    requires |rates| == |ops|
    requires IsProjection(s, rates, ops, totalBytes, p)
    requires Sum(ops) <= p.cycles * Max(s.issueCap, 1)
    ensures |schedule| == p.cycles && Executes(s, rates, ops, totalBytes, schedule)
  {
    forall i | 0 <= i < |ops|
      ensures ops[i] <= p.cycles * Max(rates[i], 1)
    {
      CeilDivIsLeastCover(ops[i], Max(rates[i], 1), p.cycles);
    }
    if s.memBandwidth > 0 {
      CeilDivIsLeastCover(totalBytes, s.memBandwidth, p.cycles);
    }
    schedule := [];
    if p.cycles > 0 {
      RoundRobinAllLegal(s, rates, ops, totalBytes, p.cycles);
      RoundRobinDoesTheWork(ops, totalBytes, p.cycles);
      schedule := RoundRobin(ops, totalBytes, p.cycles, p.cycles);
    }
  }

  /** The projection is the exact length of a shortest schedule if and only if
      `IssueFits`, which asks about the workload alone and can fail only when the
      32-bit op total saturates. */
  lemma ProjectionIsShortestSchedule(s: Substrate, rates: seq<u32>, ops: seq<u32>, totalBytes: u32, p: Projection)
    requires |rates| == |ops|
    requires IsProjection(s, rates, ops, totalBytes, p)
    ensures forall schedule :: Executes(s, rates, ops, totalBytes, schedule) ==> p.cycles <= |schedule|
    ensures (exists schedule :: |schedule| == p.cycles && Executes(s, rates, ops, totalBytes, schedule))
       <==> IssueFits(s, rates, ops, totalBytes)
  {
    forall schedule | Executes(s, rates, ops, totalBytes, schedule)
      ensures p.cycles <= |schedule|
      ensures |schedule| == p.cycles ==> Sum(ops) <= p.cycles * Max(s.issueCap, 1)
    {
      NoShorterSchedule(s, rates, ops, totalBytes, p, schedule);
      LegalCapacity(s, rates, schedule);
    }
    IssueFitsWithinProjection(s, rates, ops, totalBytes, p);
    if Sum(ops) <= p.cycles * Max(s.issueCap, 1) {
      var schedule := Attained(s, rates, ops, totalBytes, p);
    }
  }

  /** A concrete saturated workload: two pipes of `MAX` ops under an issue cap of one
      are projected at `MAX` cycles, which no schedule reaches. */
  lemma SaturatedTotalUnderstates(s: Substrate)
    requires s.issueCap == 1 && s.memBandwidth == 0
    ensures IsProjection(s, [1, 1], [MAX, MAX], 0, Projection(MAX, IssueCap))
    ensures forall schedule :: Executes(s, [1, 1], [MAX, MAX], 0, schedule) ==> MAX < |schedule|
  {
    var rates: seq<u32>, ops: seq<u32> := [1, 1], [MAX, MAX];
    assert ops[..1] == [MAX] && [MAX][..0] == [];
    assert SatSum([MAX]) == MAX && Sum([MAX]) == MAX;
    var p := Projection(MAX, IssueCap);
    assert IsProjection(s, rates, ops, 0, p);
    ProjectionIsShortestSchedule(s, rates, ops, 0, p);
  }
}
