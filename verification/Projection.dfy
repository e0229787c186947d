/** The op-mix projection (src/nvidia/projection.rs): a census folded through the rate
    table into per-resource demands. Rates and counts are reals where the original has
    floats. The fixed name tables are parameters, so every result holds for any of them. */
module Projection {
  import opened Wrappers
  import opened Lists
  import opened Demands
  import Census
  import Rates

  type Counts = seq<Census.Entry>

  type positive = x: real | x > 0.0 witness 1.0

  type nonNegative = x: real | x >= 0.0

  datatype MemClass = NoMem | Dram | L1

  datatype Tables = Tables(
    opTableRow: seq<(string, string)>,
    pipeOf: seq<(string, string)>,
    control: seq<string>,
    lsu: seq<string>,
    widthBytes: seq<(string, nat)>)

  /** Everything the fold looks at but the census: the name tables, the rate table with
      its numbers read by `num`, and the library's integer parser. */
  datatype Env = Env(
    tables: Tables,
    rates: seq<Rates.Entry>,
    num: Rates.Number,
    parseCount: string -> Option<nat>)

  const ISSUE_CAP := 4.0
  const TENSOR_HMMA_PER_SM_CLK := 0.5

  // --------------------------------------------------------------- mnemonic parts

  /** The dot-separated parts, always at least one. */
  function Parts(mn: string): (parts: seq<string>)
    ensures |parts| >= 1
  {
    if mn == "" then [""]
    else if mn[0] == '.' then [""] + Parts(mn[1..])
    else
      var rest := Parts(mn[1..]);
      [[mn[0]] + rest[0]] + rest[1..]
  }

  /** The width of the last part that names one; four bytes by default. */
  function MemBytes(widths: seq<(string, nat)>, parts: seq<string>): nat {
    if parts == [] then 4
    else
      match Lookup<nat>(widths, parts[|parts| - 1])
      case Some(b) => b
      case None => MemBytes(widths, parts[..|parts| - 1])
  }

  function LdsInstRate(bytesPerThread: nat): positive
    requires bytesPerThread > 0
  {
    64.0 / (32.0 * bytesPerThread as real)
  }

  predicate AllDigits(s: string) {
    forall i | 0 <= i < |s| :: '0' <= s[i] <= '9'
  }

  function Lower(s: string): string {
    seq(|s|, i requires 0 <= i < |s| => if 'A' <= s[i] <= 'Z' then (s[i] as int + 32) as char else s[i])
  }

  function TensorShape(parts: seq<string>): Option<string>
    requires |parts| >= 1
  {
    if (parts[0] == "HMMA" || parts[0] == "IMMA") && |parts| > 1 && parts[1] != "" && AllDigits(parts[1])
    then Some(parts[1]) else None
  }

  /** The matrix count of an LDSM, from its last part: 1, 2 or 4, else 1. */
  function LdsmCount(env: Env, parts: seq<string>): (count: nat)
    requires |parts| >= 1
    ensures count > 0
  {
    match env.parseCount(parts[|parts| - 1])
    case Some(c) => if c == 1 || c == 2 || c == 4 then c else 1
    case None => 1
  }

  // --------------------------------------------------------------------- routing

  /** Where one instruction of a mnemonic goes. `Unusable` is a rate that is not a
      positive number: the original panics or leaves the finite numbers. */
  datatype Route =
    | Control
    | Flagged
    | SharedMem(cycles: nonNegative)
    | Memory(bytes: nat)
    | Compute(pipe: string, rate: positive)
    | Unusable

  function ShapeRow(env: Env, parts: seq<string>): Option<Rates.RateRow>
    requires |parts| >= 1
  {
    match TensorShape(parts)
    case Some(shape) => Rates.Get(env.rates, "tensor." + Lower(parts[0]) + "." + shape + ".tput")
    case None => None
  }

  function BaseRow(env: Env, base: string): Option<Rates.RateRow> {
    match Lookup(env.tables.opTableRow, base)
    case Some(id) => Rates.Get(env.rates, id)
    case None => None
  }

  function PipeName(env: Env, base: string): string {
    match Lookup(env.tables.pipeOf, base)
    case Some(p) => p
    case None => "alu"
  }

  function ClassRate(pipe: string): positive {
    if pipe == "fma" || pipe == "alu" then 2.0
    else if pipe == "tensor" then TENSOR_HMMA_PER_SM_CLK
    else 0.5
  }

  function ComputeRoute(env: Env, parts: seq<string>): Route
    requires |parts| >= 1
  {
    var base := parts[0];
    match if ShapeRow(env, parts).Some? then ShapeRow(env, parts) else BaseRow(env, base)
    case Some(r) =>
      var rate := env.num(r.value);
      if rate.None? || rate.value <= 0.0 then Unusable
      else Compute(if r.pipe == "" then PipeName(env, base) else r.pipe, rate.value)
    case None => Compute(PipeName(env, base), ClassRate(PipeName(env, base)))
  }

  /** A width of zero has an infinite rate, so it costs nothing. */
  function SharedRoute(bytesPerThread: nat): Route {
    if bytesPerThread == 0 then SharedMem(0.0) else SharedMem(1.0 / LdsInstRate(bytesPerThread))
  }

  function RouteOf(env: Env, mn: string): Route {
    var parts := Parts(mn);
    var base := parts[0];
    if base in env.tables.control then Control
    else if base in env.tables.lsu then
      if base == "LDS" || base == "STS" then SharedRoute(MemBytes(env.tables.widthBytes, parts))
      else if base == "LDSM" then SharedRoute(4 * LdsmCount(env, parts))
      else if base == "LDL" || base == "STL" then Flagged
      else Memory(MemBytes(env.tables.widthBytes, parts) * 32)
    else ComputeRoute(env, parts)
  }

  /** Whether the mnemonic is listed as costed by default: local traffic, a tensor
      shape without its own row, or no measured row at all. */
  predicate IsDefaulted(env: Env, mn: string) {
    var parts := Parts(mn);
    var base := parts[0];
    if base in env.tables.control then false
    else if base in env.tables.lsu then base == "LDL" || base == "STL"
    else
      || (ShapeRow(env, parts).None? && TensorShape(parts).Some? && BaseRow(env, base).Some?)
      || (ShapeRow(env, parts).None? && BaseRow(env, base).None?)
  }

  /** The byte budget per cycle, `None` when the L1 row is unusable. */
  function Budget(env: Env, memClass: MemClass, dramBudget: positive): Option<positive> {
    if memClass == Dram then Some(dramBudget)
    else
      match Rates.Get(env.rates, "mem.l1.bw")
      case Some(r) =>
        var bw := env.num(r.value);
        if bw.None? || bw.value <= 0.0 then None else Some(bw.value)
      case None => Some(32.0)
  }

  // ------------------------------------------------------ sums over the census

  type Router = string -> Route

  /** What the fold adds up: cycles on a pipe, shared-memory cycles, bytes, and
      instructions. */
  datatype Axis = OnPipe(pipe: string) | Smem | Bytes | Insts

  /** What one instruction on a route contributes; on a pipe, one over its rate. */
  ghost function UnitCost(axis: Axis, r: Route): (c: real)
    ensures c >= 0.0
  {
    match (axis, r)
    case (OnPipe(p), Compute(pipe, rate)) => if pipe == p then 1.0 / rate else 0.0
    case (Smem, SharedMem(cycles)) => cycles
    case (Bytes, Memory(bytes)) => bytes as real
    case (Insts, _) => 1.0
    case _ => 0.0
  }

  /** `n` instructions of unit cost `u`. */
  ghost function Times(n: nat, u: real): real {
    if n == 0 then 0.0 else Times(n - 1, u) + u
  }

  ghost function Sum(route: Router, axis: Axis, items: Counts): real {
    if items == [] then 0.0
    else
      var n := |items| - 1;
      Sum(route, axis, items[..n]) + Times(items[n].1, UnitCost(axis, route(items[n].0)))
  }

  ghost function WithPipe(pipes: seq<string>, r: Route): seq<string> {
    if r.Compute? && r.pipe !in pipes then pipes + [r.pipe] else pipes
  }

  /** The pipes that are used, in first-use order. */
  ghost function Pipes(route: Router, items: Counts): seq<string> {
    if items == [] then []
    else WithPipe(Pipes(route, items[..|items| - 1]), route(items[|items| - 1].0))
  }

  ghost function Defaulted(env: Env, items: Counts): seq<string> {
    if items == [] then []
    else
      var n := |items| - 1;
      Defaulted(env, items[..n]) + if IsDefaulted(env, items[n].0) then [items[n].0] else []
  }

  ghost function PipeSums(route: Router, items: Counts): (cycles: seq<real>)
    ensures |cycles| == |Pipes(route, items)|
    ensures forall i :: 0 <= i < |cycles| ==> cycles[i] == Sum(route, OnPipe(Pipes(route, items)[i]), items)
  {
    var pipes := Pipes(route, items);
    seq(|pipes|, i requires 0 <= i < |pipes| => Sum(route, OnPipe(pipes[i]), items))
  }

  /** The demand vector of a census, as the contention core builds it. */
  ghost function Vector(route: Router, items: Counts, warps: real, budget: positive): seq<Demand> {
    Mixed(warps, PipeSums(route, items), Sum(route, Smem, items), Sum(route, Bytes, items), budget,
          Sum(route, Insts, items), ISSUE_CAP)
  }

  // ---------------------------------------------------------------- the methods

  datatype Fold = Fold(
    pipeNames: seq<string>,
    pipeCycles: seq<real>,
    memBytesTotal: real,
    smemCycles: real,
    totalInsts: nat)

  /** The accumulators hold exactly the sums of the entries folded so far. */
  ghost predicate Holds(route: Router, items: Counts, f: Fold) {
    && f.pipeNames == Pipes(route, items)
    && f.pipeCycles == PipeSums(route, items)
    && f.memBytesTotal == Sum(route, Bytes, items)
    && f.smemCycles == Sum(route, Smem, items)
    && f.totalInsts as real == Sum(route, Insts, items)
  }

  lemma {:induction false} TimesIsProduct(n: nat, u: real)
    ensures Times(n, u) == n as real * u
  {
    if n > 0 {
      TimesIsProduct(n - 1, u);
      assert n as real * u == (n - 1) as real * u + u;
    }
  }

  lemma {:induction false} TimesZero(n: nat)
    ensures Times(n, 0.0) == 0.0
  {
    if n > 0 {
      TimesZero(n - 1);
    }
  }

  lemma {:induction false} TimesAdds(n: nat, m: nat, u: real)
    ensures Times(n + m, u) == Times(n, u) + Times(m, u)
  {
    if m > 0 {
      TimesAdds(n, m - 1, u);
    }
  }

  lemma {:induction false} TimesMonotone(n: nat, m: nat, u: real)
    requires n <= m && u >= 0.0
    ensures 0.0 <= Times(n, u) <= Times(m, u)
    decreases n + m
  {
    if n < m {
      TimesMonotone(n, m - 1, u);
    } else if n > 0 {
      TimesMonotone(n - 1, m - 1, u);
    }
  }

  /** The original divides the count by the rate. */
  lemma TimesOnPipe(n: nat, rate: positive)
    ensures Times(n, 1.0 / rate) == n as real / rate
  {
    TimesIsProduct(n, 1.0 / rate);
  }

  lemma TimesBytes(n: nat, b: nat)
    ensures Times(n, b as real) == (n * b) as real
  {
    TimesIsProduct(n, b as real);
  }

  lemma {:induction false} UnusedPipe(route: Router, items: Counts, pipe: string)
    requires pipe !in Pipes(route, items)
    ensures Sum(route, OnPipe(pipe), items) == 0.0
  {
    if items != [] {
      UnusedPipe(route, items[..|items| - 1], pipe);
      TimesZero(items[|items| - 1].1);
    }
  }

  lemma {:induction false} PipesAreDistinct(route: Router, items: Counts)
    ensures forall i, j :: 0 <= i < j < |Pipes(route, items)| ==> Pipes(route, items)[i] != Pipes(route, items)[j]
  {
    if items != [] {
      PipesAreDistinct(route, items[..|items| - 1]);
    }
  }

  lemma SumStep(route: Router, axis: Axis, items: Counts, entry: Census.Entry)
    ensures Sum(route, axis, items + [entry])
         == Sum(route, axis, items) + Times(entry.1, UnitCost(axis, route(entry.0)))
  {
    assert (items + [entry])[..|items|] == items;
  }

  method PipeIndex(names: seq<string>, pipe: string) returns (idx: nat)
    ensures idx <= |names| && (idx < |names| ==> names[idx] == pipe)
    ensures idx == |names| ==> pipe !in names
  {
    idx := 0;
    while idx < |names| && names[idx] != pipe
      invariant idx <= |names|
      invariant forall i :: 0 <= i < idx ==> names[i] != pipe
    {
      idx := idx + 1;
    }
  }

  /** An op issued to a pipe: its cycles go to that pipe's accumulator, which is opened
      on first use. */
  method AddToPipe(names: seq<string>, cycles: seq<real>, n: nat, pipe: string, rate: positive,
                   ghost route: Router, ghost items: Counts, ghost mn: string)
    returns (names': seq<string>, cycles': seq<real>)
    requires names == Pipes(route, items) && cycles == PipeSums(route, items)
    requires route(mn) == Compute(pipe, rate)
    ensures names' == Pipes(route, items + [(mn, n)])
    ensures cycles' == PipeSums(route, items + [(mn, n)])
  {
    names', cycles' := names, cycles;
    var idx := PipeIndex(names, pipe);
    if idx == |names| {
      UnusedPipe(route, items, pipe);
      names' := names' + [pipe];
      cycles' := cycles' + [0.0];
    }
    cycles' := cycles'[idx := cycles'[idx] + n as real / rate];
    ghost var now := items + [(mn, n)];
    assert now[..|items|] == items;
    PipesAreDistinct(route, now);
    TimesOnPipe(n, rate);
    TimesZero(n);
    forall i | 0 <= i < |cycles'|
      ensures cycles'[i] == PipeSums(route, now)[i]
    {
      SumStep(route, OnPipe(names'[i]), items, (mn, n));
    }
  }

  /** One census entry added to the accumulators, the body of the loop. */
  method FoldEntry(r: Route, n: nat, f: Fold, ghost route: Router, ghost items: Counts, ghost mn: string)
    returns (g: Fold)
    requires r == route(mn) && Holds(route, items, f)
    ensures Holds(route, items + [(mn, n)], g)
  {
    g := f.(totalInsts := f.totalInsts + n);
    AddedSums(route, items, mn, n);
    if r.Compute? {
      var names, cycles := AddToPipe(f.pipeNames, f.pipeCycles, n, r.pipe, r.rate, route, items, mn);
      g := g.(pipeNames := names, pipeCycles := cycles);
    } else {
      SamePipes(route, items, mn, n);
      if r.SharedMem? {
        g := g.(smemCycles := g.smemCycles + n as real * r.cycles);
      } else if r.Memory? {
        g := g.(memBytesTotal := g.memBytesTotal + (n * r.bytes) as real);
      }
    }
  }

  /** What one more entry adds to the sums that are not per pipe. */
  lemma AddedSums(route: Router, items: Counts, mn: string, n: nat)
    ensures var r, now := route(mn), items + [(mn, n)];
      && Sum(route, Insts, now) == Sum(route, Insts, items) + n as real
      && Sum(route, Smem, now) ==
           Sum(route, Smem, items) + (if r.SharedMem? then n as real * r.cycles else 0.0)
      && Sum(route, Bytes, now) ==
           Sum(route, Bytes, items) + (if r.Memory? then (n * r.bytes) as real else 0.0)
  {
    var r := route(mn);
    TimesZero(n);
    TimesIsProduct(n, 1.0);
    SumStep(route, Insts, items, (mn, n));
    SumStep(route, Smem, items, (mn, n));
    SumStep(route, Bytes, items, (mn, n));
    if r.SharedMem? {
      TimesIsProduct(n, r.cycles);
    } else if r.Memory? {
      TimesBytes(n, r.bytes);
    }
  }

  lemma SamePipes(route: Router, items: Counts, mn: string, n: nat)
    requires !route(mn).Compute?
    ensures Pipes(route, items + [(mn, n)]) == Pipes(route, items)
    ensures PipeSums(route, items + [(mn, n)]) == PipeSums(route, items)
  {
    var now := items + [(mn, n)];
    assert now[..|items|] == items;
    TimesZero(n);
    forall i | 0 <= i < |Pipes(route, items)|
      ensures PipeSums(route, now)[i] == PipeSums(route, items)[i]
    {
      SumStep(route, OnPipe(Pipes(route, items)[i]), items, (mn, n));
    }
  }

  function Label(kind: ResourceKind, pipes: seq<string>): string
    requires kind.Pipe? ==> kind.index < |pipes|
  {
    match kind
    case Pipe(i) => "pipe:" + pipes[i]
    case LocalStoreBw => "smem"
    case MemoryBw => "mem"
    case Issue => "issue"
  }

  ghost predicate KnowsPipes(v: seq<Demand>, pipes: seq<string>) {
    forall i :: 0 <= i < |v| && v[i].0.Pipe? ==> v[i].0.index < |pipes|
  }

  /** Every demand under its name, in the order of the vector. */
  ghost predicate IsLabelled(labels: seq<(string, real)>, v: seq<Demand>, pipes: seq<string>)
    requires KnowsPipes(v, pipes)
  {
    && |labels| == |v|
    && forall i :: 0 <= i < |v| ==> labels[i].0 == Label(v[i].0, pipes) && labels[i].1 == v[i].1
  }

  method LabelAll(v: seq<Demand>, pipes: seq<string>) returns (labels: seq<(string, real)>)
    requires KnowsPipes(v, pipes)
    ensures IsLabelled(labels, v, pipes)
  {
    labels := [];
    for k := 0 to |v|
      invariant |labels| == k
      invariant forall i :: 0 <= i < k ==> labels[i].0 == Label(v[i].0, pipes) && labels[i].1 == v[i].1
    {
      labels := labels + [(Label(v[k].0, pipes), v[k].1)];
    }
  }

  lemma VectorKnowsPipes(route: Router, items: Counts, warps: real, budget: positive)
    ensures Vector(route, items, warps, budget) != []
    ensures KnowsPipes(Vector(route, items, warps, budget), Pipes(route, items))
  {
    var local, memory := Sum(route, Smem, items), Sum(route, Bytes, items);
    AssembledPipes(warps, PipeSums(route, items), local != 0.0, Scaled(warps, local), memory != 0.0,
                   MemoryDemand(warps, memory, budget), IssueDemand(warps, Sum(route, Insts, items), ISSUE_CAP));
  }

  datatype ProjectResult = ProjectResult(
    ppmCycles: real,
    ppmBound: string,
    addCycles: real,
    perResource: seq<(string, real)>,
    defaulted: seq<string>)

  /** The whole result in terms of the demand vector `v` over the pipes used. */
  ghost predicate Reports(p: ProjectResult, v: seq<Demand>, pipes: seq<string>)
    requires KnowsPipes(v, pipes)
  {
    && p.ppmCycles == Ppm(v)
    && IsAdditive(v, p.addCycles)
    && IsLabelled(p.perResource, v, pipes)
    && exists b: nat :: IsBound(v, b) && p.ppmBound == Label(v[b].0, pipes)
  }

  ghost function RouterOf(env: Env): Router {
    mn => RouteOf(env, mn)
  }

  ghost predicate AllUsable(env: Env, items: Counts) {
    forall i :: 0 <= i < |items| ==> RouteOf(env, items[i].0) != Unusable
  }

  /** All census entries folded; `None` when one of them is unusable. */
  method FoldAll(env: Env, items: Counts) returns (f: Option<(Fold, seq<string>)>)
    ensures f.Some? <==> AllUsable(env, items)
    ensures f.Some? ==> Holds(RouterOf(env), items, f.value.0) && f.value.1 == Defaulted(env, items)
  {
    var fold := Fold([], [], 0.0, 0.0, 0);
    var defaulted: seq<string> := [];
    for k := 0 to |items|
      invariant AllUsable(env, items[..k])
      invariant Holds(RouterOf(env), items[..k], fold)
      invariant defaulted == Defaulted(env, items[..k])
    {
      assert items[..k + 1][..k] == items[..k];
      assert items[..k + 1] == items[..k] + [(items[k].0, items[k].1)];
      var r := RouteOf(env, items[k].0);
      if r == Unusable {
        return None;
      }
      if IsDefaulted(env, items[k].0) {
        defaulted := defaulted + [items[k].0];
      }
      fold := FoldEntry(r, items[k].1, fold, RouterOf(env), items[..k], items[k].0);
    }
    assert items[..|items|] == items;
    f := Some((fold, defaulted));
  }

  /** The budget is only resolved, and only marked as defaulted, when bytes move. */
  method ResolveBudget(env: Env, bytes: real, memClass: MemClass, dramBudget: positive)
    returns (budget: Option<positive>, marks: seq<string>)
    ensures budget == if bytes != 0.0 then Budget(env, memClass, dramBudget) else Some(1.0)
    ensures marks ==
      if bytes != 0.0 && memClass != Dram && Rates.Get(env.rates, "mem.l1.bw").None?
      then ["mem.l1.bw(default32)"] else []
  {
    budget, marks := Some(1.0), [];
    if bytes != 0.0 {
      budget := Budget(env, memClass, dramBudget);
      if memClass != Dram && Rates.Get(env.rates, "mem.l1.bw").None? {
        marks := ["mem.l1.bw(default32)"];
      }
    }
  }

  method Report(v: seq<Demand>, pipes: seq<string>, defaulted: seq<string>) returns (p: ProjectResult)
    requires v != [] && KnowsPipes(v, pipes)
    ensures Reports(p, v, pipes) && p.defaulted == defaulted
  {
    var ss := SelectBound(v);
    var labels := LabelAll(v, pipes);
    p := ProjectResult(ss.ppmCycles, Label(v[ss.ppmBound].0, pipes), ss.addCycles, labels, defaulted);
  }

  /** The budget a census is projected with; any will do when no bytes move. */
  ghost function BudgetOf(env: Env, items: Counts, memClass: MemClass, dramBudget: positive): Option<positive> {
    if Sum(RouterOf(env), Bytes, items) != 0.0 then Budget(env, memClass, dramBudget) else Some(1.0)
  }

  /** What is projected, in full: nothing when an entry or the budget is unusable, else
      the report on the demand vector of the census. */
  ghost predicate Projects(env: Env, items: Counts, warps: real, memClass: MemClass, dramBudget: positive,
                           p: Option<ProjectResult>)
  {
    var route, budget := RouterOf(env), BudgetOf(env, items, memClass, dramBudget);
    if !AllUsable(env, items) || budget.None? then p == None
    else
      && p.Some?
      && KnowsPipes(Vector(route, items, warps, budget.value), Pipes(route, items))
      && Reports(p.value, Vector(route, items, warps, budget.value), Pipes(route, items))
      && p.value.defaulted == Defaulted(env, items) +
           if Sum(route, Bytes, items) != 0.0 && memClass != Dram && Rates.Get(env.rates, "mem.l1.bw").None?
           then ["mem.l1.bw(default32)"] else []
  }

  method Project(env: Env, items: Counts, warps: real, memClass: MemClass, dramBudget: positive)
    returns (p: Option<ProjectResult>)
    ensures Projects(env, items, warps, memClass, dramBudget, p)
  {
    var folded := FoldAll(env, items);
    if folded.None? {
      return None;
    }
    var (f, defaulted) := folded.value;
    var budget, marks := ResolveBudget(env, f.memBytesTotal, memClass, dramBudget);
    if budget.None? {
      return None;
    }
    var mixed := MixDemands(
      warps, f.pipeCycles, f.smemCycles, f.memBytesTotal, budget.value, f.totalInsts as real, ISSUE_CAP);
    var v := mixed.value;
    VectorKnowsPipes(RouterOf(env), items, warps, budget.value);
    var report := Report(v, f.pipeNames, defaulted + marks);
    p := Some(report);
  }

  // -------------------------------------------------------- laws of the projection

  /** The load one axis puts on the machine at `warps` warps. */
  ghost function Load(route: Router, axis: Axis, items: Counts, warps: real, budget: positive): real {
    match axis
    case OnPipe(_) => Scaled(warps, Sum(route, axis, items))
    case Smem => Scaled(warps, Sum(route, axis, items))
    case Bytes => MemoryDemand(warps, Sum(route, axis, items), budget)
    case Insts => IssueDemand(warps, Sum(route, axis, items), ISSUE_CAP)
  }

  /** `m` is the largest load over every axis, with a pipe axis for every name. */
  ghost predicate IsLargestLoad(m: real, route: Router, items: Counts, warps: real, budget: positive) {
    && (forall axis :: Load(route, axis, items, warps, budget) <= m)
    && (exists axis :: Load(route, axis, items, warps, budget) == m)
  }

  lemma {:induction false} SumNonNegative(route: Router, axis: Axis, items: Counts)
    ensures Sum(route, axis, items) >= 0.0
  {
    if items != [] {
      var n := |items| - 1;
      SumNonNegative(route, axis, items[..n]);
      TimesMonotone(0, items[n].1, UnitCost(axis, route(items[n].0)));
    }
  }

  lemma ProductNonNegative(a: real, b: real)
    requires a >= 0.0 && b >= 0.0
    ensures a * b >= 0.0
  {
  }

  lemma LoadNonNegative(route: Router, axis: Axis, items: Counts, warps: real, budget: positive)
    requires warps >= 0.0
    ensures Load(route, axis, items, warps, budget) >= 0.0
  {
    SumNonNegative(route, axis, items);
    ProductNonNegative(warps, Sum(route, axis, items));
  }

  /** The axis a demand of the vector stands for. */
  ghost function AxisOf(k: ResourceKind, pipes: seq<string>): Axis {
    match k
    case Pipe(i) => if i < |pipes| then OnPipe(pipes[i]) else Insts
    case LocalStoreBw => Smem
    case MemoryBw => Bytes
    case Issue => Insts
  }

  lemma VectorLoad(route: Router, items: Counts, warps: real, budget: positive, k: ResourceKind)
    ensures DistinctKinds(Vector(route, items, warps, budget))
    ensures On(Vector(route, items, warps, budget), k)
         == if k.Pipe? && k.index >= |Pipes(route, items)| then 0.0
            else Load(route, AxisOf(k, Pipes(route, items)), items, warps, budget)
  {
    MixedIsDistinct(warps, PipeSums(route, items), Sum(route, Smem, items), Sum(route, Bytes, items), budget,
                    Sum(route, Insts, items), ISSUE_CAP, k);
  }

  lemma VectorNonNegative(route: Router, items: Counts, warps: real, budget: positive)
    requires warps >= 0.0
    ensures NonNegative(Vector(route, items, warps, budget))
  {
    var v := Vector(route, items, warps, budget);
    VectorLoad(route, items, warps, budget, Issue);
    forall i | 0 <= i < |v|
      ensures v[i].1 >= 0.0
    {
      DistinctOn(v, i);
      VectorLoad(route, items, warps, budget, v[i].0);
      LoadNonNegative(route, AxisOf(v[i].0, Pipes(route, items)), items, warps, budget);
    }
  }

  /** Some resource of the vector carries each axis, or nothing is loaded there. */
  lemma AxisIsCovered(route: Router, axis: Axis, items: Counts, warps: real, budget: positive, m: real)
    requires warps >= 0.0
    requires forall k :: On(Vector(route, items, warps, budget), k) <= m
    ensures Load(route, axis, items, warps, budget) <= m
  {
    var pipes := Pipes(route, items);
    VectorLoad(route, items, warps, budget, LocalStoreBw);
    VectorLoad(route, items, warps, budget, MemoryBw);
    VectorLoad(route, items, warps, budget, Issue);
    LoadNonNegative(route, Insts, items, warps, budget);
    if axis.OnPipe? {
      if axis.pipe in pipes {
        var i: nat :| i < |pipes| && pipes[i] == axis.pipe;
        VectorLoad(route, items, warps, budget, Pipe(i));
      } else {
        UnusedPipe(route, items, axis.pipe);
      }
    }
  }

  /** The projected cycles are the largest load: on some pipe, the count of each op
      routed there over its rate, summed; or shared memory, bytes over the budget, or
      all instructions over the issue cap. */
  lemma PpmIsLargestLoad(route: Router, items: Counts, warps: real, budget: positive)
    requires warps >= 0.0
    ensures IsLargestLoad(Ppm(Vector(route, items, warps, budget)), route, items, warps, budget)
  {
    var v, pipes := Vector(route, items, warps, budget), Pipes(route, items);
    var m := Ppm(v);
    VectorLoad(route, items, warps, budget, Issue);
    VectorNonNegative(route, items, warps, budget);
    PpmIsPeak(v);
    assert forall k :: On([], k) == 0.0;
    forall k
      ensures On(v, k) <= m
    {
      assert On(v, k) + On([], k) <= m;
    }
    forall axis
      ensures Load(route, axis, items, warps, budget) <= m
    {
      AxisIsCovered(route, axis, items, warps, budget, m);
    }
    var k :| On(v, k) + On([], k) == m;
    VectorLoad(route, items, warps, budget, k);
    if k.Pipe? && k.index >= |pipes| {
      LoadNonNegative(route, Insts, items, warps, budget);
      assert Load(route, Insts, items, warps, budget) == m;
    } else {
      assert Load(route, AxisOf(k, pipes), items, warps, budget) == m;
    }
  }

  // ----------------------------------------------- only the counts per op matter

  ghost function Strip(items: Counts, mn: string): (rest: Counts)
    ensures |rest| <= |items|
  {
    if items == [] then []
    else
      var n := |items| - 1;
      Strip(items[..n], mn) + if items[n].0 == mn then [] else [items[n]]
  }

  lemma {:induction false} StripCounts(items: Counts, mn: string, x: string)
    ensures Census.Count(Strip(items, mn), x) == if x == mn then 0 else Census.Count(items, x)
  {
    if items != [] {
      var n := |items| - 1;
      StripCounts(items[..n], mn, x);
      if items[n].0 != mn {
        var rest := Strip(items[..n], mn);
        assert (rest + [items[n]])[..|rest|] == rest;
      } else {
        assert Strip(items[..n], mn) + [] == Strip(items[..n], mn);
      }
    }
  }

  lemma {:induction false} StripSum(route: Router, axis: Axis, items: Counts, mn: string)
    ensures Sum(route, axis, items)
         == Sum(route, axis, Strip(items, mn)) + Times(Census.Count(items, mn), UnitCost(axis, route(mn)))
  {
    if items != [] {
      var n := |items| - 1;
      var rest := Strip(items[..n], mn);
      StripSum(route, axis, items[..n], mn);
      if items[n].0 != mn {
        SumStep(route, axis, rest, items[n]);
      } else {
        assert rest + [] == rest;
        TimesAdds(Census.Count(items[..n], mn), items[n].1, UnitCost(axis, route(mn)));
      }
    }
  }

  lemma ScaleMonotone(a: real, b: real, u: real)
    requires a <= b && u >= 0.0
    ensures a * u <= b * u
  {
  }

  /** Counting at least as much of every op never sums to less, however the two
      censuses order or split their entries. */
  lemma {:induction false} SumMonotone(route: Router, axis: Axis, a: Counts, b: Counts)
    requires forall mn :: Census.Count(a, mn) <= Census.Count(b, mn)
    ensures Sum(route, axis, a) <= Sum(route, axis, b)
    decreases |a|
  {
    if a == [] {
      SumNonNegative(route, axis, b);
    } else {
      var mn := a[|a| - 1].0;
      StripSum(route, axis, a, mn);
      StripSum(route, axis, b, mn);
      TimesMonotone(Census.Count(a, mn), Census.Count(b, mn), UnitCost(axis, route(mn)));
      forall x
        ensures Census.Count(Strip(a, mn), x) <= Census.Count(Strip(b, mn), x)
      {
        StripCounts(a, mn, x);
        StripCounts(b, mn, x);
      }
      SumMonotone(route, axis, Strip(a, mn), Strip(b, mn));
    }
  }

  lemma DemandsMonotone(warps: real, s: real, t: real, budget: positive)
    requires warps >= 0.0 && 0.0 <= s <= t
    ensures Scaled(warps, s) <= Scaled(warps, t)
    ensures MemoryDemand(warps, s, budget) <= MemoryDemand(warps, t, budget)
    ensures IssueDemand(warps, s, ISSUE_CAP) <= IssueDemand(warps, t, ISSUE_CAP)
  {
    ScaleMonotone(s, t, warps);
    ProductNonNegative(warps, t);
    QuotientMonotone(warps * s, warps * t, budget);
  }

  lemma QuotientMonotone(a: real, b: real, d: positive)
    requires a <= b
    ensures a / d <= b / d
    ensures 0.0 <= b ==> 0.0 <= b / d
  {
  }

  lemma LoadMonotone(route: Router, axis: Axis, a: Counts, b: Counts, warps: real, budget: positive)
    requires warps >= 0.0
    requires forall mn :: Census.Count(a, mn) <= Census.Count(b, mn)
    ensures Load(route, axis, a, warps, budget) <= Load(route, axis, b, warps, budget)
  {
    SumMonotone(route, axis, a, b);
    SumNonNegative(route, axis, a);
    DemandsMonotone(warps, Sum(route, axis, a), Sum(route, axis, b), budget);
  }

  /** Adding ops never lowers the projection. */
  lemma PpmMonotone(route: Router, a: Counts, b: Counts, warps: real, budget: positive)
    requires warps >= 0.0
    requires forall mn :: Census.Count(a, mn) <= Census.Count(b, mn)
    ensures Ppm(Vector(route, a, warps, budget)) <= Ppm(Vector(route, b, warps, budget))
  {
    PpmIsLargestLoad(route, a, warps, budget);
    PpmIsLargestLoad(route, b, warps, budget);
    var axis :| Load(route, axis, a, warps, budget) == Ppm(Vector(route, a, warps, budget));
    LoadMonotone(route, axis, a, b, warps, budget);
  }

  /** Reordering entries, or splitting one op over several, moves no load. */
  lemma SumDependsOnCountsOnly(route: Router, axis: Axis, a: Counts, b: Counts)
    requires forall mn :: Census.Count(a, mn) == Census.Count(b, mn)
    ensures Sum(route, axis, a) == Sum(route, axis, b)
  {
    SumMonotone(route, axis, a, b);
    SumMonotone(route, axis, b, a);
  }

  lemma ScaleOut(factor: real, warps: real, s: real, d: positive)
    ensures factor * warps * s == factor * (warps * s)
    ensures factor * warps * s / d == factor * (warps * s / d)
  {
    var q := warps * s / d;
    assert q * d == warps * s;
    assert factor * (q * d) == (factor * q) * d;
  }

  lemma LoadScales(route: Router, axis: Axis, items: Counts, warps: real, factor: real, budget: positive)
    ensures Load(route, axis, items, Scaled(factor, warps), budget)
         == Scaled(factor, Load(route, axis, items, warps, budget))
  {
    var s := Sum(route, axis, items);
    ScaleOut(factor, warps, s, budget);
    ScaleOut(factor, warps, s, ISSUE_CAP);
  }

  lemma ScaledOrder(factor: real, a: real, b: real)
    requires a <= b && factor >= 0.0
    ensures Scaled(factor, a) <= Scaled(factor, b)
  {
    ScaleMonotone(a, b, factor);
  }

  /** Two largest loads, the second of a machine whose every load is `factor` times
      the first's. */
  lemma LargestScales(route: Router, items: Counts, warps: real, warps': real, factor: real, budget: positive,
                      m: real, m': real)
    requires factor >= 0.0
    requires forall axis ::
      Load(route, axis, items, warps', budget) == Scaled(factor, Load(route, axis, items, warps, budget))
    requires IsLargestLoad(m, route, items, warps, budget)
    requires IsLargestLoad(m', route, items, warps', budget)
    ensures m' == Scaled(factor, m)
  {
    var axis :| Load(route, axis, items, warps, budget) == m;
    var axis' :| Load(route, axis', items, warps', budget) == m';
    assert Load(route, axis, items, warps', budget) <= m';
    ScaledOrder(factor, Load(route, axis', items, warps, budget), m);
  }

  lemma LoadsScale(route: Router, items: Counts, warps: real, factor: real, budget: positive)
    ensures forall axis :: Load(route, axis, items, Scaled(factor, warps), budget)
                        == Scaled(factor, Load(route, axis, items, warps, budget))
  {
    forall axis {
      LoadScales(route, axis, items, warps, factor, budget);
    }
  }

  /** The projection is linear in the number of warps. */
  lemma PpmScalesWithWarps(route: Router, items: Counts, warps: real, factor: real, budget: positive)
    requires warps >= 0.0 && factor >= 0.0
    ensures Ppm(Vector(route, items, Scaled(factor, warps), budget))
         == Scaled(factor, Ppm(Vector(route, items, warps, budget)))
  {
    ScaledOrder(factor, 0.0, warps);
    LoadsScale(route, items, warps, factor, budget);
    PpmIsLargestLoad(route, items, warps, budget);
    PpmIsLargestLoad(route, items, Scaled(factor, warps), budget);
    LargestScales(route, items, warps, Scaled(factor, warps), factor, budget,
                  Ppm(Vector(route, items, warps, budget)),
                  Ppm(Vector(route, items, Scaled(factor, warps), budget)));
  }

  // ------------------------------------------------------- all pipes taken as one

  /** The same routes with every pipe renamed to one. */
  ghost function Merged(route: Router): Router {
    mn => if route(mn).Compute? then Compute("", route(mn).rate) else route(mn)
  }

  ghost function TotalOver(route: Router, pipes: seq<string>, items: Counts): real {
    if pipes == [] then 0.0
    else
      var n := |pipes| - 1;
      TotalOver(route, pipes[..n], items) + Sum(route, OnPipe(pipes[n]), items)
  }

  /** One more entry adds its cost to the total if its pipe is among those summed. */
  lemma {:induction false} TotalStep(route: Router, pipes: seq<string>, items: Counts, entry: Census.Entry)
    requires forall i, j :: 0 <= i < j < |pipes| ==> pipes[i] != pipes[j]
    ensures var r := route(entry.0);
            TotalOver(route, pipes, items + [entry]) == TotalOver(route, pipes, items) +
              if r.Compute? && r.pipe in pipes then Times(entry.1, 1.0 / r.rate) else 0.0
  {
    TimesZero(entry.1);
    if pipes != [] {
      var n := |pipes| - 1;
      TotalStep(route, pipes[..n], items, entry);
      SumStep(route, OnPipe(pipes[n]), items, entry);
      assert pipes == pipes[..n] + [pipes[n]];
    }
  }

  /** However ops spread over pipes, the pipe cycles add up to the same. */
  lemma {:induction false} TotalIsMerged(route: Router, items: Counts)
    ensures TotalOver(route, Pipes(route, items), items) == Sum(Merged(route), OnPipe(""), items)
  {
    if items != [] {
      var n := |items| - 1;
      var before, entry := items[..n], items[n];
      var pipes := Pipes(route, before);
      var r := route(entry.0);
      assert items == before + [entry];
      TotalIsMerged(route, before);
      PipesAreDistinct(route, items);
      TotalStep(route, Pipes(route, items), before, entry);
      TimesZero(entry.1);
      if r.Compute? && r.pipe !in pipes {
        UnusedPipe(route, before, r.pipe);
        assert (pipes + [r.pipe])[..|pipes|] == pipes;
      }
    }
  }

  lemma {:induction false} TotalOfSums(route: Router, pipes: seq<string>, items: Counts, cycles: seq<real>)
    requires |cycles| == |pipes|
    requires forall i :: 0 <= i < |pipes| ==> cycles[i] == Sum(route, OnPipe(pipes[i]), items)
    ensures Total(cycles) == TotalOver(route, pipes, items)
  {
    if pipes != [] {
      var n := |pipes| - 1;
      TotalOfSums(route, pipes[..n], items, cycles[..n]);
    }
  }

  ghost function AllWork(route: Router, items: Counts, warps: real, budget: positive): real {
    Load(Merged(route), OnPipe(""), items, warps, budget) + Load(route, Smem, items, warps, budget)
      + Load(route, Bytes, items, warps, budget)
  }

  /** The additive cycles: the load of all pipes taken as one, plus both memories, or
      the issue load when there is none of these. */
  ghost function Additive(route: Router, items: Counts, warps: real, budget: positive): real {
    if AllWork(route, items, warps, budget) > 0.0 then AllWork(route, items, warps, budget)
    else Load(route, Insts, items, warps, budget)
  }

  lemma AdditiveIsAllWork(route: Router, items: Counts, warps: real, budget: positive, add: real)
    requires IsAdditive(Vector(route, items, warps, budget), add)
    ensures add == Additive(route, items, warps, budget)
  {
    MixedAdditive(warps, PipeSums(route, items), Sum(route, Smem, items), Sum(route, Bytes, items), budget,
                  Sum(route, Insts, items), ISSUE_CAP, add);
    TotalOfSums(route, Pipes(route, items), items, PipeSums(route, items));
    TotalIsMerged(route, items);
  }

  // ------------------------------------------------------ laws of whole projections

  /** Without memory traffic every budget gives the same demands. */
  lemma BudgetIsFree(route: Router, items: Counts, warps: real, budget: positive, budget': positive)
    requires Sum(route, Bytes, items) == 0.0
    ensures Vector(route, items, warps, budget) == Vector(route, items, warps, budget')
    ensures Additive(route, items, warps, budget) == Additive(route, items, warps, budget')
  {
  }

  /** A projection is the largest load and the additive load, at its own budget or at
      any other that a census moving at least as many bytes resolves. */
  lemma ProjectsLoads(env: Env, items: Counts, warps: real, memClass: MemClass, dramBudget: positive,
                      p: ProjectResult, other: Counts, budget: positive)
    requires Projects(env, items, warps, memClass, dramBudget, Some(p))
    requires BudgetOf(env, other, memClass, dramBudget) == Some(budget)
    requires Sum(RouterOf(env), Bytes, items) <= Sum(RouterOf(env), Bytes, other)
    ensures p.ppmCycles == Ppm(Vector(RouterOf(env), items, warps, budget))
    ensures p.addCycles == Additive(RouterOf(env), items, warps, budget)
  {
    var route := RouterOf(env);
    var own := BudgetOf(env, items, memClass, dramBudget).value;
    SumNonNegative(route, Bytes, items);
    if own != budget {
      BudgetIsFree(route, items, warps, own, budget);
    }
    AdditiveIsAllWork(route, items, warps, own, p.addCycles);
  }

  /** Adding ops never lowers the projected cycles, even when they bring the first
      memory traffic and with it another budget. */
  lemma ProjectIsMonotone(env: Env, a: Counts, b: Counts, warps: real, memClass: MemClass, dramBudget: positive,
                          p: ProjectResult, q: ProjectResult)
    requires warps >= 0.0 && forall mn :: Census.Count(a, mn) <= Census.Count(b, mn)
    requires Projects(env, a, warps, memClass, dramBudget, Some(p))
    requires Projects(env, b, warps, memClass, dramBudget, Some(q))
    ensures p.ppmCycles <= q.ppmCycles
  {
    var route, budget := RouterOf(env), BudgetOf(env, b, memClass, dramBudget).value;
    SumMonotone(route, Bytes, a, b);
    ProjectsLoads(env, a, warps, memClass, dramBudget, p, b, budget);
    PpmMonotone(route, a, b, warps, budget);
  }

  /** Reordering entries, or splitting one op over several, changes neither the
      projected nor the additive cycles. */
  lemma ProjectDependsOnCountsOnly(env: Env, a: Counts, b: Counts, warps: real, memClass: MemClass,
                                   dramBudget: positive, p: ProjectResult, q: ProjectResult)
    requires warps >= 0.0 && forall mn :: Census.Count(a, mn) == Census.Count(b, mn)
    requires Projects(env, a, warps, memClass, dramBudget, Some(p))
    requires Projects(env, b, warps, memClass, dramBudget, Some(q))
    ensures p.ppmCycles == q.ppmCycles && p.addCycles == q.addCycles
  {
    var route, budget := RouterOf(env), BudgetOf(env, a, memClass, dramBudget).value;
    ProjectIsMonotone(env, a, b, warps, memClass, dramBudget, p, q);
    ProjectIsMonotone(env, b, a, warps, memClass, dramBudget, q, p);
    AdditiveDependsOnCountsOnly(route, a, b, warps, budget);
    SumDependsOnCountsOnly(route, Bytes, a, b);
    ProjectsLoads(env, a, warps, memClass, dramBudget, p, a, budget);
    ProjectsLoads(env, b, warps, memClass, dramBudget, q, b, budget);
  }

  lemma AdditiveDependsOnCountsOnly(route: Router, a: Counts, b: Counts, warps: real, budget: positive)
    requires forall mn :: Census.Count(a, mn) == Census.Count(b, mn)
    ensures Additive(route, a, warps, budget) == Additive(route, b, warps, budget)
  {
    SumDependsOnCountsOnly(Merged(route), OnPipe(""), a, b);
    SumDependsOnCountsOnly(route, Smem, a, b);
    SumDependsOnCountsOnly(route, Bytes, a, b);
    SumDependsOnCountsOnly(route, Insts, a, b);
  }

  /** Both are linear in the number of warps. */
  lemma ProjectScalesWithWarps(env: Env, items: Counts, warps: real, factor: real, memClass: MemClass,
                               dramBudget: positive, p: ProjectResult, q: ProjectResult)
    requires warps >= 0.0 && factor >= 0.0
    requires Projects(env, items, warps, memClass, dramBudget, Some(p))
    requires Projects(env, items, Scaled(factor, warps), memClass, dramBudget, Some(q))
    ensures q.ppmCycles == Scaled(factor, p.ppmCycles) && q.addCycles == Scaled(factor, p.addCycles)
  {
    var route, budget := RouterOf(env), BudgetOf(env, items, memClass, dramBudget).value;
    ProjectsLoads(env, items, warps, memClass, dramBudget, p, items, budget);
    ProjectsLoads(env, items, Scaled(factor, warps), memClass, dramBudget, q, items, budget);
    PpmScalesWithWarps(route, items, warps, factor, budget);
    AdditiveScales(route, items, warps, factor, budget);
  }

  lemma AdditiveScales(route: Router, items: Counts, warps: real, factor: real, budget: positive)
    requires factor >= 0.0
    ensures Additive(route, items, Scaled(factor, warps), budget)
         == Scaled(factor, Additive(route, items, warps, budget))
  {
    LoadScales(Merged(route), OnPipe(""), items, warps, factor, budget);
    LoadScales(route, Smem, items, warps, factor, budget);
    LoadScales(route, Bytes, items, warps, factor, budget);
    LoadScales(route, Insts, items, warps, factor, budget);
    ScaledSum(factor, Load(Merged(route), OnPipe(""), items, warps, budget),
              Load(route, Smem, items, warps, budget), Load(route, Bytes, items, warps, budget));
  }

  lemma ScaledSum(factor: real, x: real, y: real, z: real)
    requires factor >= 0.0
    ensures Scaled(factor, x + y + z) == Scaled(factor, x) + Scaled(factor, y) + Scaled(factor, z)
    ensures Scaled(factor, x + y + z) > 0.0 <==> factor > 0.0 && x + y + z > 0.0
  {
    var sum := x + y + z;
    if sum <= 0.0 {
      ProductNonNegative(factor, -sum);
      assert factor * -sum == -(factor * sum);
    } else if factor > 0.0 {
      assert factor * sum > 0.0;
    }
  }

  // --------------------------------------------------- what a mnemonic stands for

  /** The mnemonic is these parts with a dot between each two. */
  ghost predicate Splits(mn: string, parts: seq<string>)
    decreases |parts|
  {
    && parts != []
    && '.' !in parts[0]
    && if |parts| == 1 then mn == parts[0]
       else
         var n := |parts[0]|;
         n < |mn| && mn[..n] == parts[0] && mn[n] == '.' && Splits(mn[n + 1..], parts[1..])
  }

  lemma {:induction false} PartsSplit(mn: string)
    ensures Splits(mn, Parts(mn))
  {
    if mn != "" {
      PartsSplit(mn[1..]);
      var rest := Parts(mn[1..]);
      if mn[0] == '.' {
        assert Parts(mn)[1..] == rest;
      } else if |rest| > 1 {
        var n := |rest[0]|;
        assert Parts(mn)[0] == [mn[0]] + rest[0] && Parts(mn)[1..] == rest[1..];
        assert mn[..n + 1] == [mn[0]] + mn[1..][..n];
        assert mn[1..][n + 1..] == mn[n + 2..];
      }
    }
  }

  /** There is only one way to split a mnemonic. */
  lemma {:induction false} SplitsOnce(mn: string, parts: seq<string>, parts': seq<string>)
    requires Splits(mn, parts) && Splits(mn, parts')
    ensures parts == parts'
    decreases |parts|
  {
    FirstPartIsPrefix(mn, parts);
    FirstPartIsPrefix(mn, parts');
    var n := |parts[0]|;
    assert n == |parts'[0]|;
    assert parts[0] == parts'[0];
    if |parts| > 1 {
      SplitsOnce(mn[n + 1..], parts[1..], parts'[1..]);
      assert parts == [parts[0]] + parts[1..] && parts' == [parts'[0]] + parts'[1..];
    }
  }

  lemma FirstPartIsPrefix(mn: string, parts: seq<string>)
    requires Splits(mn, parts)
    ensures var n := |parts[0]|;
      && n <= |mn| && parts[0] == mn[..n]
      && (forall i :: 0 <= i < n ==> mn[i] != '.')
      && (if |parts| == 1 then n == |mn| else n < |mn| && mn[n] == '.')
  {
    forall i | 0 <= i < |parts[0]|
      ensures mn[i] != '.'
    {
      assert mn[i] == parts[0][i];
    }
  }

  /** The bytes per thread: what the last part with a width says, four if none has. */
  ghost predicate IsWidth(widths: seq<(string, nat)>, parts: seq<string>, b: nat) {
    if forall i :: 0 <= i < |parts| ==> !HasKey(widths, parts[i]) then b == 4
    else exists i :: 0 <= i < |parts| && FirstHolds(widths, parts[i], b)
                     && forall j :: i < j < |parts| ==> !HasKey(widths, parts[j])
  }

  lemma WidthIsMemBytes(widths: seq<(string, nat)>, parts: seq<string>, b: nat)
    requires IsWidth(widths, parts, b)
    ensures b == MemBytes(widths, parts)
  {
    if forall i :: 0 <= i < |parts| ==> !HasKey(widths, parts[i]) {
      DefaultWidth(widths, parts);
    } else {
      var i :| 0 <= i < |parts| && FirstHolds(widths, parts[i], b)
        && forall j :: i < j < |parts| ==> !HasKey(widths, parts[j]);
      WidthAt(widths, parts, i, b);
    }
  }

  lemma {:induction false} DefaultWidth(widths: seq<(string, nat)>, parts: seq<string>)
    requires forall i :: 0 <= i < |parts| ==> !HasKey(widths, parts[i])
    ensures MemBytes(widths, parts) == 4
  {
    if parts != [] {
      LookupIsFirst(widths, parts[|parts| - 1]);
      DefaultWidth(widths, parts[..|parts| - 1]);
    }
  }

  lemma {:induction false} WidthAt(widths: seq<(string, nat)>, parts: seq<string>, i: nat, b: nat)
    requires i < |parts| && FirstHolds(widths, parts[i], b)
    requires forall j :: i < j < |parts| ==> !HasKey(widths, parts[j])
    ensures MemBytes(widths, parts) == b
  {
    var n := |parts| - 1;
    LookupIsFirst(widths, parts[n]);
    if i < n {
      WidthAt(widths, parts[..n], i, b);
    }
  }

  /** The matrices of an LDSM: one, two or four as its last part says, else one. */
  ghost predicate IsMatrixCount(env: Env, parts: seq<string>, count: nat)
    requires parts != []
  {
    var said := env.parseCount(parts[|parts| - 1]);
    if said == Some(1) || said == Some(2) || said == Some(4) then said == Some(count) else count == 1
  }

  ghost predicate HasShape(parts: seq<string>, shape: string) {
    && |parts| > 1 && (parts[0] == "HMMA" || parts[0] == "IMMA")
    && parts[1] == shape && shape != "" && forall i :: 0 <= i < |shape| ==> '0' <= shape[i] <= '9'
  }

  /** The measured row of a tensor op's own shape. */
  ghost predicate HasShapeRow(env: Env, parts: seq<string>, row: Rates.RateRow) {
    exists shape :: HasShape(parts, shape) && FirstHolds(env.rates, ShapeId(parts[0], shape), row)
  }

  ghost function ShapeId(base: string, shape: string): string {
    "tensor." + (if base == "HMMA" then "hmma" else "imma") + "." + shape + ".tput"
  }

  /** The measured row that the op table names for the base. */
  ghost predicate HasBaseRow(env: Env, base: string, row: Rates.RateRow) {
    exists id :: FirstHolds(env.tables.opTableRow, base, id) && FirstHolds(env.rates, id, row)
  }

  ghost predicate IsPipeOf(env: Env, base: string, pipe: string) {
    FirstHolds(env.tables.pipeOf, base, pipe) || (!HasKey(env.tables.pipeOf, base) && pipe == "alu")
  }

  lemma ShapesAgree(parts: seq<string>, shape: string)
    requires parts != []
    ensures HasShape(parts, shape) <==> TensorShape(parts) == Some(shape)
  {
  }

  lemma LowerBases()
    ensures Lower("HMMA") == "hmma" && Lower("IMMA") == "imma"
  {
  }

  lemma ShapeRowsAgree(env: Env, parts: seq<string>)
    requires parts != []
    ensures forall row :: HasShapeRow(env, parts, row) <==> ShapeRow(env, parts) == Some(row)
    ensures ShapeRow(env, parts).Some? ==> HasShapeRow(env, parts, ShapeRow(env, parts).value)
  {
    LowerBases();
    forall row
      ensures HasShapeRow(env, parts, row) <==> ShapeRow(env, parts) == Some(row)
    {
      forall shape
        ensures HasShape(parts, shape) <==> TensorShape(parts) == Some(shape)
      {
        ShapesAgree(parts, shape);
      }
      if TensorShape(parts).Some? {
        var shape := TensorShape(parts).value;
        LookupIsFirst(env.rates, ShapeId(parts[0], shape));
        assert ShapeRow(env, parts) == Rates.Get(env.rates, ShapeId(parts[0], shape));
      }
    }
  }

  lemma BaseRowsAgree(env: Env, base: string)
    ensures forall row :: HasBaseRow(env, base, row) <==> BaseRow(env, base) == Some(row)
    ensures BaseRow(env, base).Some? ==> HasBaseRow(env, base, BaseRow(env, base).value)
  {
    LookupIsFirst(env.tables.opTableRow, base);
    if Lookup(env.tables.opTableRow, base).Some? {
      LookupIsFirst(env.rates, Lookup(env.tables.opTableRow, base).value);
    }
  }

  lemma PipesAgree(env: Env, base: string, pipe: string)
    ensures IsPipeOf(env, base, pipe) <==> pipe == PipeName(env, base)
  {
    LookupIsFirst(env.tables.pipeOf, base);
  }

  // ---------------------------------------------------- where each mnemonic goes

  ghost predicate IsLoadStore(env: Env, parts: seq<string>)
    requires parts != []
  {
    parts[0] !in env.tables.control && parts[0] in env.tables.lsu
  }

  ghost predicate IsComputeOp(env: Env, parts: seq<string>)
    requires parts != []
  {
    parts[0] !in env.tables.control && parts[0] !in env.tables.lsu
  }

  lemma HalfTheWidth(b: nat)
    ensures SharedRoute(b) == SharedMem(b as real / 2.0)
  {
    if b > 0 {
      var rate := LdsInstRate(b);
      assert rate * (32.0 * b as real) == 64.0;
      assert (b as real / 2.0) * rate == 1.0;
      InverseIs(rate, b as real / 2.0);
    }
  }

  lemma InverseIs(rate: positive, c: real)
    requires c * rate == 1.0
    ensures 1.0 / rate == c
  {
    var q := 1.0 / rate;
    assert q * rate == 1.0;
    assert (q - c) * rate == 0.0;
  }

  lemma SharedRouteOf(env: Env, mn: string, parts: seq<string>, b: nat)
    requires Splits(mn, parts) && IsLoadStore(env, parts) && (parts[0] == "LDS" || parts[0] == "STS")
    requires IsWidth(env.tables.widthBytes, parts, b)
    ensures RouteOf(env, mn) == SharedMem(b as real / 2.0) && !IsDefaulted(env, mn)
  {
    PartsSplit(mn);
    SplitsOnce(mn, parts, Parts(mn));
    WidthIsMemBytes(env.tables.widthBytes, parts, b);
    HalfTheWidth(b);
  }

  lemma GlobalRouteOf(env: Env, mn: string, parts: seq<string>, b: nat)
    requires Splits(mn, parts) && IsLoadStore(env, parts) && parts[0] !in {"LDS", "STS", "LDSM", "LDL", "STL"}
    requires IsWidth(env.tables.widthBytes, parts, b)
    ensures RouteOf(env, mn) == Memory(32 * b) && !IsDefaulted(env, mn)
  {
    PartsSplit(mn);
    SplitsOnce(mn, parts, Parts(mn));
    WidthIsMemBytes(env.tables.widthBytes, parts, b);
  }

  lemma LocalRouteOf(env: Env, mn: string, parts: seq<string>)
    requires Splits(mn, parts) && IsLoadStore(env, parts) && (parts[0] == "LDL" || parts[0] == "STL")
    ensures RouteOf(env, mn) == Flagged && IsDefaulted(env, mn)
  {
    PartsSplit(mn);
    SplitsOnce(mn, parts, Parts(mn));
  }

  lemma MatrixRoute(env: Env, mn: string, parts: seq<string>, count: nat)
    requires Splits(mn, parts) && IsLoadStore(env, parts) && parts[0] == "LDSM" && IsMatrixCount(env, parts, count)
    ensures RouteOf(env, mn) == SharedMem(2.0 * count as real) && !IsDefaulted(env, mn)
  {
    PartsSplit(mn);
    SplitsOnce(mn, parts, Parts(mn));
    HalfTheWidth(4 * count);
    assert (4 * count) as real / 2.0 == 2.0 * count as real;
  }

  lemma ControlRoute(env: Env, mn: string, parts: seq<string>)
    requires Splits(mn, parts) && parts[0] in env.tables.control
    ensures RouteOf(env, mn) == Control && !IsDefaulted(env, mn)
  {
    PartsSplit(mn);
    SplitsOnce(mn, parts, Parts(mn));
  }

  /** The row a compute op is costed by: its shape's, or else its base's. */
  ghost predicate IsMeasuredBy(env: Env, parts: seq<string>, row: Rates.RateRow)
    requires parts != []
  {
    HasShapeRow(env, parts, row) ||
    (HasBaseRow(env, parts[0], row) && forall other :: !HasShapeRow(env, parts, other))
  }

  lemma MeasuredRoute(env: Env, mn: string, parts: seq<string>, row: Rates.RateRow, pipe: string)
    requires Splits(mn, parts) && IsComputeOp(env, parts) && IsMeasuredBy(env, parts, row)
    requires if row.pipe == "" then IsPipeOf(env, parts[0], pipe) else pipe == row.pipe
    ensures var rate := env.num(row.value);
            RouteOf(env, mn) ==
              if rate.None? || rate.value <= 0.0 then Unusable else Compute(pipe, rate.value)
    ensures IsDefaulted(env, mn) <==> !HasShapeRow(env, parts, row) && exists shape :: HasShape(parts, shape)
  {
    PartsSplit(mn);
    SplitsOnce(mn, parts, Parts(mn));
    ShapeRowsAgree(env, parts);
    BaseRowsAgree(env, parts[0]);
    PipesAgree(env, parts[0], pipe);
    if TensorShape(parts).Some? {
      ShapesAgree(parts, TensorShape(parts).value);
    }
    forall shape | HasShape(parts, shape)
      ensures TensorShape(parts).Some?
    {
      ShapesAgree(parts, shape);
    }
  }

  lemma UnmeasuredRoute(env: Env, mn: string, parts: seq<string>, pipe: string)
    requires Splits(mn, parts) && IsComputeOp(env, parts) && IsPipeOf(env, parts[0], pipe)
    requires forall row :: !HasShapeRow(env, parts, row) && !HasBaseRow(env, parts[0], row)
    ensures RouteOf(env, mn) == Compute(pipe, if pipe == "fma" || pipe == "alu" then 2.0 else 0.5)
    ensures IsDefaulted(env, mn)
  {
    PartsSplit(mn);
    SplitsOnce(mn, parts, Parts(mn));
    ShapeRowsAgree(env, parts);
    BaseRowsAgree(env, parts[0]);
    PipesAgree(env, parts[0], pipe);
  }

  // ------------------------------------------------- the projection of one mnemonic

  /** The bytes that memory moves in a cycle. */
  ghost predicate IsBudget(env: Env, memClass: MemClass, dramBudget: positive, budget: real) {
    if memClass == Dram then budget == dramBudget
    else if HasKey(env.rates, "mem.l1.bw") then
      budget > 0.0 && exists row :: FirstHolds(env.rates, "mem.l1.bw", row) && env.num(row.value) == Some(budget)
    else budget == 32.0
  }

  lemma BudgetsAgree(env: Env, memClass: MemClass, dramBudget: positive, budget: real)
    ensures IsBudget(env, memClass, dramBudget, budget) <==> Budget(env, memClass, dramBudget) == Some(budget)
  {
    LookupIsFirst(env.rates, "mem.l1.bw");
    if Rates.Get(env.rates, "mem.l1.bw").Some? {
      assert FirstHolds(env.rates, "mem.l1.bw", Rates.Get(env.rates, "mem.l1.bw").value);
    }
  }

  /** Nothing but issue is loaded. */
  ghost predicate IssuesOnly(p: ProjectResult, issue: real) {
    p.perResource == [("issue", issue)] && p.ppmCycles == issue && p.ppmBound == "issue" && p.addCycles == issue
  }

  /** One resource and issue are loaded. The larger load is the projection, that of the
      resource on a tie; the additive one is the resource's, or issue's if it has none. */
  ghost predicate Loads(p: ProjectResult, name: string, load: real, issue: real) {
    && p.perResource == [(name, load), ("issue", issue)]
    && p.ppmCycles == (if load >= issue then load else issue)
    && p.ppmBound == (if load >= issue then name else "issue")
    && p.addCycles == if load > 0.0 then load else issue
  }

  lemma ReportOfOne(p: ProjectResult, issue: real, pipes: seq<string>)
    requires KnowsPipes([(Issue, issue)], pipes) && Reports(p, [(Issue, issue)], pipes)
    ensures IssuesOnly(p, issue)
  {
    var d: Demand := (Issue, issue);
    WorkOne(d);
    assert [d][0].0 == Issue;
  }

  lemma ReportOfTwo(p: ProjectResult, k: ResourceKind, load: real, issue: real, pipes: seq<string>)
    requires k != Issue && (k.Pipe? ==> k.index < |pipes|) && KnowsPipes([(k, load), (Issue, issue)], pipes)
    requires Reports(p, [(k, load), (Issue, issue)], pipes)
    ensures Loads(p, Label(k, pipes), load, issue)
  {
    var a, b: Demand := (k, load), (Issue, issue);
    var v := [a, b];
    assert v[..1] == [a];
    WorkOne(a);
    assert Work(v) == load;
    assert v[1].0 == Issue;
    assert Ppm(v) == if load >= issue then load else issue;
  }

  lemma SingleSums(route: Router, mn: string, n: nat)
    ensures var r, items := route(mn), [(mn, n)];
      && Sum(route, Insts, items) == n as real
      && Sum(route, Smem, items) == (if r.SharedMem? then n as real * r.cycles else 0.0)
      && Sum(route, Bytes, items) == (if r.Memory? then (n * r.bytes) as real else 0.0)
      && Pipes(route, items) == (if r.Compute? then [r.pipe] else [])
      && PipeSums(route, items) == if r.Compute? then [n as real / r.rate] else []
  {
    var items := [(mn, n)];
    assert items == [] + [(mn, n)] && items[..0] == [];
    AddedSums(route, [], mn, n);
    if route(mn).Compute? {
      TimesOnPipe(n, route(mn).rate);
      SumStep(route, OnPipe(route(mn).pipe), [], (mn, n));
    }
  }

  /** Whether an entry loads a resource of its own, which one, and how much. */
  ghost predicate IsLoaded(r: Route, n: nat) {
    match r
    case Compute(_, _) => true
    case SharedMem(cycles) => n as real * cycles != 0.0
    case Memory(bytes) => n * bytes != 0
    case _ => false
  }

  ghost function KindOf(r: Route): ResourceKind {
    if r.Compute? then Pipe(0) else if r.SharedMem? then LocalStoreBw else MemoryBw
  }

  ghost function NameOf(r: Route): string {
    if r.Compute? then "pipe:" + r.pipe else if r.SharedMem? then "smem" else "mem"
  }

  ghost function LoadOf(r: Route, n: nat, warps: real, budget: positive): real {
    match r
    case Compute(_, rate) => Scaled(warps, n as real / rate)
    case SharedMem(cycles) => Scaled(warps, n as real * cycles)
    case Memory(bytes) => MemoryDemand(warps, (n * bytes) as real, budget)
    case _ => 0.0
  }

  lemma VectorOfOne(route: Router, mn: string, n: nat, warps: real, budget: positive)
    ensures var r, issue := route(mn), IssueDemand(warps, n as real, ISSUE_CAP);
      && Vector(route, [(mn, n)], warps, budget) ==
           (if IsLoaded(r, n) then [(KindOf(r), LoadOf(r, n, warps, budget)), (Issue, issue)] else [(Issue, issue)])
      && Pipes(route, [(mn, n)]) == if r.Compute? then [r.pipe] else []
  {
    SingleSums(route, mn, n);
  }

  /** The mark of a byte budget that no row gives. */
  ghost function Marks(env: Env, memClass: MemClass): seq<string> {
    if memClass != Dram && !HasKey(env.rates, "mem.l1.bw") then ["mem.l1.bw(default32)"] else []
  }

  /** `p` is the projection of a census of just this entry. */
  ghost predicate ProjectsEntry(env: Env, mn: string, n: nat, warps: real, memClass: MemClass, dramBudget: positive,
                                p: Option<ProjectResult>)
  {
    forall items: Counts :: items == [(mn, n)] ==> Projects(env, items, warps, memClass, dramBudget, p)
  }

  ghost predicate MovesBytes(r: Route, n: nat) {
    r.Memory? && IsLoaded(r, n)
  }

  lemma SingleOutcome(env: Env, mn: string, n: nat, warps: real, memClass: MemClass, dramBudget: positive,
                      p: Option<ProjectResult>)
    requires Projects(env, [(mn, n)], warps, memClass, dramBudget, p)
    ensures var r, budget := RouteOf(env, mn), BudgetOf(env, [(mn, n)], memClass, dramBudget);
      && budget == (if MovesBytes(r, n) then Budget(env, memClass, dramBudget) else Some(1.0))
      && (p.None? <==> r.Unusable? || budget.None?)
  {
    var items := [(mn, n)];
    SingleSums(RouterOf(env), mn, n);
    assert items[0].0 == mn;
  }

  /** The report on one entry, in terms of its route. */
  lemma SingleReport(p: ProjectResult, r: Route, n: nat, warps: real, budget: positive, v: seq<Demand>,
                     pipes: seq<string>)
    requires var issue := IssueDemand(warps, n as real, ISSUE_CAP);
      v == if IsLoaded(r, n) then [(KindOf(r), LoadOf(r, n, warps, budget)), (Issue, issue)] else [(Issue, issue)]
    requires pipes == if r.Compute? then [r.pipe] else []
    requires KnowsPipes(v, pipes) && Reports(p, v, pipes)
    ensures var issue := IssueDemand(warps, n as real, ISSUE_CAP);
      if IsLoaded(r, n) then Loads(p, NameOf(r), LoadOf(r, n, warps, budget), issue) else IssuesOnly(p, issue)
  {
    var issue := IssueDemand(warps, n as real, ISSUE_CAP);
    if IsLoaded(r, n) {
      ReportOfTwo(p, KindOf(r), LoadOf(r, n, warps, budget), issue, pipes);
    } else {
      ReportOfOne(p, issue, pipes);
    }
  }

  lemma DefaultedOne(env: Env, mn: string, n: nat)
    ensures Defaulted(env, [(mn, n)]) == Flags(env, mn)
  {
    var items := [(mn, n)];
    assert items[..0] == [];
  }

  lemma SingleDefaulted(env: Env, mn: string, n: nat, warps: real, memClass: MemClass, dramBudget: positive,
                        p: ProjectResult)
    requires Projects(env, [(mn, n)], warps, memClass, dramBudget, Some(p))
    ensures p.defaulted == Flags(env, mn) + if MovesBytes(RouteOf(env, mn), n) then Marks(env, memClass) else []
  {
    DefaultedOne(env, mn, n);
    SingleSums(RouterOf(env), mn, n);
    LookupIsFirst(env.rates, "mem.l1.bw");
  }

  /** What issue takes: four instructions a cycle. */
  ghost predicate IsIssueLoad(issue: real, warps: real, n: nat) {
    issue * 4.0 == warps * n as real
  }

  /** What a resource takes of which one instruction takes so many cycles. */
  ghost predicate IsCycleLoad(load: real, cycles: real, warps: real, n: nat) {
    load == warps * (n as real * cycles)
  }

  /** What a pipe takes at so many instructions a cycle. */
  ghost predicate IsRateLoad(load: real, rate: positive, warps: real, n: nat) {
    load == warps * (n as real / rate)
  }

  /** What memory takes: all bytes at the budget. */
  ghost predicate IsByteLoad(load: real, budget: real, warps: real, bytes: nat) {
    load * budget == warps * bytes as real
  }

  lemma IssueLoadIs(issue: real, warps: real, n: nat)
    requires IsIssueLoad(issue, warps, n)
    ensures IssueDemand(warps, n as real, ISSUE_CAP) == issue
  {
    IssueDemandIs(warps, n as real, ISSUE_CAP);
  }

  lemma ByteLoadIs(load: real, budget: positive, warps: real, bytes: nat)
    requires IsByteLoad(load, budget, warps, bytes) && bytes != 0
    ensures MemoryDemand(warps, bytes as real, budget) == load
  {
    MemoryDemandIs(warps, bytes as real, budget);
    SameFactor(MemoryDemand(warps, bytes as real, budget), load, budget);
  }

  lemma SameFactor(x: real, y: real, d: positive)
    requires x * d == y * d
    ensures x == y
  {
    assert (x - y) * d == 0.0;
  }

  ghost predicate Unloaded(p: Option<ProjectResult>, issue: real, defaulted: seq<string>) {
    p.Some? && IssuesOnly(p.value, issue) && p.value.defaulted == defaulted
  }

  ghost predicate Loaded(p: Option<ProjectResult>, name: string, load: real, issue: real, defaulted: seq<string>) {
    p.Some? && Loads(p.value, name, load, issue) && p.value.defaulted == defaulted
  }

  /** The result in terms of the route of its one mnemonic. */
  ghost predicate ReportedAs(p: Option<ProjectResult>, r: Route, n: nat, warps: real, budget: Option<positive>,
                             flags: seq<string>, marks: seq<string>)
  {
    var issue := IssueDemand(warps, n as real, ISSUE_CAP);
    if r.Unusable? || (MovesBytes(r, n) && budget.None?) then p == None
    else if !IsLoaded(r, n) then Unloaded(p, issue, flags)
    else if r.Memory? then Loaded(p, NameOf(r), LoadOf(r, n, warps, budget.value), issue, flags + marks)
    else Loaded(p, NameOf(r), LoadOf(r, n, warps, 1.0), issue, flags)
  }

  ghost function Flags(env: Env, mn: string): seq<string> {
    if IsDefaulted(env, mn) then [mn] else []
  }

  lemma SingleResult(env: Env, mn: string, n: nat, warps: real, memClass: MemClass, dramBudget: positive,
                     p: Option<ProjectResult>)
    requires Projects(env, [(mn, n)], warps, memClass, dramBudget, p)
    ensures ReportedAs(p, RouteOf(env, mn), n, warps, Budget(env, memClass, dramBudget), Flags(env, mn),
                       Marks(env, memClass))
  {
    SingleOutcome(env, mn, n, warps, memClass, dramBudget, p);
    if p.Some? {
      SingleFigures(env, mn, n, warps, memClass, dramBudget, p.value);
      SingleDefaulted(env, mn, n, warps, memClass, dramBudget, p.value);
    }
  }

  lemma SingleFigures(env: Env, mn: string, n: nat, warps: real, memClass: MemClass, dramBudget: positive,
                      p: ProjectResult)
    requires Projects(env, [(mn, n)], warps, memClass, dramBudget, Some(p))
    requires BudgetOf(env, [(mn, n)], memClass, dramBudget).Some?
    ensures var r, budget := RouteOf(env, mn), BudgetOf(env, [(mn, n)], memClass, dramBudget).value;
      var issue := IssueDemand(warps, n as real, ISSUE_CAP);
      if IsLoaded(r, n) then Loads(p, NameOf(r), LoadOf(r, n, warps, budget), issue) else IssuesOnly(p, issue)
  {
    var route, items := RouterOf(env), [(mn, n)];
    var budget := BudgetOf(env, items, memClass, dramBudget).value;
    VectorOfOne(route, mn, n, warps, budget);
    SingleReport(p, RouteOf(env, mn), n, warps, budget, Vector(route, items, warps, budget), Pipes(route, items));
  }

  /** The same for an entry whose route is known. */
  lemma ResultOfRoute(env: Env, mn: string, n: nat, warps: real, memClass: MemClass, dramBudget: positive,
                      p: Option<ProjectResult>, r: Route, flags: seq<string>)
    requires ProjectsEntry(env, mn, n, warps, memClass, dramBudget, p)
    requires RouteOf(env, mn) == r && Flags(env, mn) == flags
    ensures ReportedAs(p, r, n, warps, Budget(env, memClass, dramBudget), flags, Marks(env, memClass))
  {
    var items := [(mn, n)];
    assert Projects(env, items, warps, memClass, dramBudget, p);
    SingleResult(env, mn, n, warps, memClass, dramBudget, p);
  }

  lemma UnloadedAs(p: Option<ProjectResult>, r: Route, n: nat, warps: real, budget: Option<positive>,
                   flags: seq<string>, marks: seq<string>, issue: real)
    requires ReportedAs(p, r, n, warps, budget, flags, marks) && IsIssueLoad(issue, warps, n)
    requires !r.Unusable? && !IsLoaded(r, n)
    ensures Unloaded(p, issue, flags)
  {
    IssueLoadIs(issue, warps, n);
  }

  lemma LoadedAs(p: Option<ProjectResult>, r: Route, n: nat, warps: real, budget: Option<positive>,
                 flags: seq<string>, marks: seq<string>, load: real, issue: real)
    requires ReportedAs(p, r, n, warps, budget, flags, marks) && IsIssueLoad(issue, warps, n)
    requires !r.Memory? && IsLoaded(r, n) && load == LoadOf(r, n, warps, 1.0)
    ensures Loaded(p, NameOf(r), load, issue, flags)
  {
    IssueLoadIs(issue, warps, n);
  }

  lemma MemoryLoadedAs(p: Option<ProjectResult>, r: Route, n: nat, warps: real, budget: positive,
                       flags: seq<string>, marks: seq<string>, load: real, issue: real)
    requires ReportedAs(p, r, n, warps, Some(budget), flags, marks) && IsIssueLoad(issue, warps, n)
    requires r.Memory? && n * r.bytes != 0 && IsByteLoad(load, budget, warps, n * r.bytes)
    ensures Loaded(p, "mem", load, issue, flags + marks)
  {
    IssueLoadIs(issue, warps, n);
    ByteLoadIs(load, budget, warps, n * r.bytes);
  }

  lemma SharedLoadIs(load: real, cycles: nonNegative, warps: real, n: nat)
    requires IsCycleLoad(load, cycles, warps, n)
    ensures load == LoadOf(SharedMem(cycles), n, warps, 1.0)
    ensures IsLoaded(SharedMem(cycles), n) <==> n != 0 && cycles != 0.0
  {
  }

  lemma PipeLoadIs(load: real, pipe: string, rate: positive, warps: real, n: nat)
    requires IsRateLoad(load, rate, warps, n)
    ensures load == LoadOf(Compute(pipe, rate), n, warps, 1.0)
  {
  }

  // The laws of one entry: `n` instructions of a mnemonic, and nothing else.

  /** A control op only issues. */
  lemma ControlOpProjects(env: Env, mn: string, parts: seq<string>, n: nat, warps: real, memClass: MemClass,
                          dramBudget: positive, p: Option<ProjectResult>, issue: real)
    requires ProjectsEntry(env, mn, n, warps, memClass, dramBudget, p) && IsIssueLoad(issue, warps, n)
    requires Splits(mn, parts) && parts[0] in env.tables.control
    ensures Unloaded(p, issue, [])
  {
    ControlRoute(env, mn, parts);
    ResultOfRoute(env, mn, n, warps, memClass, dramBudget, p, Control, []);
    UnloadedAs(p, Control, n, warps, Budget(env, memClass, dramBudget), [], Marks(env, memClass), issue);
  }

  /** A load or store of global memory moves its width for 32 threads, against the byte
      budget. */
  lemma GlobalOpProjects(env: Env, mn: string, parts: seq<string>, width: nat, n: nat, warps: real,
                         memClass: MemClass, dramBudget: positive, p: Option<ProjectResult>,
                         budget: positive, load: real, issue: real)
    requires ProjectsEntry(env, mn, n, warps, memClass, dramBudget, p) && IsIssueLoad(issue, warps, n)
    requires Splits(mn, parts) && IsLoadStore(env, parts) && parts[0] !in {"LDS", "STS", "LDSM", "LDL", "STL"}
    requires IsWidth(env.tables.widthBytes, parts, width)
    requires IsBudget(env, memClass, dramBudget, budget) && IsByteLoad(load, budget, warps, n * (32 * width))
    ensures if n * (32 * width) == 0 then Unloaded(p, issue, [])
            else Loaded(p, "mem", load, issue, Marks(env, memClass))
  {
    GlobalReported(env, mn, parts, width, n, warps, memClass, dramBudget, p);
    BudgetsAgree(env, memClass, dramBudget, budget);
    GlobalProjects(32 * width, n, warps, budget, Marks(env, memClass), p, load, issue);
  }

  lemma GlobalProjects(bytes: nat, n: nat, warps: real, budget: positive, marks: seq<string>,
                       p: Option<ProjectResult>, load: real, issue: real)
    requires ReportedAs(p, Memory(bytes), n, warps, Some(budget), [], marks)
    requires IsIssueLoad(issue, warps, n) && IsByteLoad(load, budget, warps, n * bytes)
    ensures if n * bytes == 0 then Unloaded(p, issue, []) else Loaded(p, "mem", load, issue, marks)
  {
    if n * bytes == 0 {
      UnloadedAs(p, Memory(bytes), n, warps, Some(budget), [], marks, issue);
    } else {
      MemoryLoadedAs(p, Memory(bytes), n, warps, budget, [], marks, load, issue);
      assert [] + marks == marks;
    }
  }

  lemma GlobalReported(env: Env, mn: string, parts: seq<string>, width: nat, n: nat, warps: real,
                       memClass: MemClass, dramBudget: positive, p: Option<ProjectResult>)
    requires ProjectsEntry(env, mn, n, warps, memClass, dramBudget, p)
    requires Splits(mn, parts) && IsLoadStore(env, parts) && parts[0] !in {"LDS", "STS", "LDSM", "LDL", "STL"}
    requires IsWidth(env.tables.widthBytes, parts, width)
    ensures ReportedAs(p, Memory(32 * width), n, warps, Budget(env, memClass, dramBudget), [], Marks(env, memClass))
  {
    GlobalRouteOf(env, mn, parts, width);
    ResultOfRoute(env, mn, n, warps, memClass, dramBudget, p, Memory(32 * width), []);
  }

  /** Without a usable budget, nothing that moves bytes is projected. */
  lemma NoBudgetProjectsNothing(env: Env, mn: string, parts: seq<string>, width: nat, n: nat, warps: real,
                                memClass: MemClass, dramBudget: positive, p: Option<ProjectResult>)
    requires ProjectsEntry(env, mn, n, warps, memClass, dramBudget, p)
    requires Splits(mn, parts) && IsLoadStore(env, parts) && parts[0] !in {"LDS", "STS", "LDSM", "LDL", "STL"}
    requires IsWidth(env.tables.widthBytes, parts, width) && n * (32 * width) != 0
    requires forall budget :: !IsBudget(env, memClass, dramBudget, budget)
    ensures p == None
  {
    GlobalReported(env, mn, parts, width, n, warps, memClass, dramBudget, p);
    BudgetExists(env, memClass, dramBudget);
  }

  lemma BudgetExists(env: Env, memClass: MemClass, dramBudget: positive)
    ensures Budget(env, memClass, dramBudget).None? <==> forall budget :: !IsBudget(env, memClass, dramBudget, budget)
  {
    forall budget
      ensures IsBudget(env, memClass, dramBudget, budget) <==> Budget(env, memClass, dramBudget) == Some(budget)
    {
      BudgetsAgree(env, memClass, dramBudget, budget);
    }
    if Budget(env, memClass, dramBudget).Some? {
      assert IsBudget(env, memClass, dramBudget, Budget(env, memClass, dramBudget).value);
    }
  }

  /** Shared-memory traffic takes half a cycle per byte of width. */
  lemma SharedOpProjects(env: Env, mn: string, parts: seq<string>, width: nat, n: nat, warps: real,
                         memClass: MemClass, dramBudget: positive, p: Option<ProjectResult>, load: real, issue: real)
    requires ProjectsEntry(env, mn, n, warps, memClass, dramBudget, p) && IsIssueLoad(issue, warps, n)
    requires Splits(mn, parts) && IsLoadStore(env, parts) && (parts[0] == "LDS" || parts[0] == "STS")
    requires IsWidth(env.tables.widthBytes, parts, width)
    requires IsCycleLoad(load, width as real / 2.0, warps, n)
    ensures if n == 0 || width == 0 then Unloaded(p, issue, []) else Loaded(p, "smem", load, issue, [])
  {
    SharedReported(env, mn, parts, width, n, warps, memClass, dramBudget, p);
    SharedProjects(width as real / 2.0, n, warps, Budget(env, memClass, dramBudget), Marks(env, memClass), p, load,
                   issue);
  }

  lemma SharedReported(env: Env, mn: string, parts: seq<string>, width: nat, n: nat, warps: real,
                       memClass: MemClass, dramBudget: positive, p: Option<ProjectResult>)
    requires ProjectsEntry(env, mn, n, warps, memClass, dramBudget, p)
    requires Splits(mn, parts) && IsLoadStore(env, parts) && (parts[0] == "LDS" || parts[0] == "STS")
    requires IsWidth(env.tables.widthBytes, parts, width)
    ensures ReportedAs(p, SharedMem(width as real / 2.0), n, warps, Budget(env, memClass, dramBudget), [],
                       Marks(env, memClass))
  {
    SharedRouteOf(env, mn, parts, width);
    ResultOfRoute(env, mn, n, warps, memClass, dramBudget, p, SharedMem(width as real / 2.0), []);
  }

  lemma SharedProjects(cycles: nonNegative, n: nat, warps: real, budget: Option<positive>, marks: seq<string>,
                       p: Option<ProjectResult>, load: real, issue: real)
    requires ReportedAs(p, SharedMem(cycles), n, warps, budget, [], marks)
    requires IsIssueLoad(issue, warps, n) && IsCycleLoad(load, cycles, warps, n)
    ensures if n == 0 || cycles == 0.0 then Unloaded(p, issue, []) else Loaded(p, "smem", load, issue, [])
  {
    SharedLoadIs(load, cycles, warps, n);
    if n == 0 || cycles == 0.0 {
      UnloadedAs(p, SharedMem(cycles), n, warps, budget, [], marks, issue);
    } else {
      LoadedAs(p, SharedMem(cycles), n, warps, budget, [], marks, load, issue);
    }
  }

  /** A matrix load takes two cycles per matrix. */
  lemma MatrixOpProjects(env: Env, mn: string, parts: seq<string>, count: nat, n: nat, warps: real,
                         memClass: MemClass, dramBudget: positive, p: Option<ProjectResult>, load: real, issue: real)
    requires ProjectsEntry(env, mn, n, warps, memClass, dramBudget, p) && IsIssueLoad(issue, warps, n)
    requires Splits(mn, parts) && IsLoadStore(env, parts) && parts[0] == "LDSM" && IsMatrixCount(env, parts, count)
    requires IsCycleLoad(load, 2.0 * count as real, warps, n)
    ensures if n == 0 then Unloaded(p, issue, []) else Loaded(p, "smem", load, issue, [])
  {
    MatrixReported(env, mn, parts, count, n, warps, memClass, dramBudget, p);
    SharedProjects(2.0 * count as real, n, warps, Budget(env, memClass, dramBudget), Marks(env, memClass), p, load,
                   issue);
  }

  lemma MatrixReported(env: Env, mn: string, parts: seq<string>, count: nat, n: nat, warps: real,
                       memClass: MemClass, dramBudget: positive, p: Option<ProjectResult>)
    requires ProjectsEntry(env, mn, n, warps, memClass, dramBudget, p)
    requires Splits(mn, parts) && IsLoadStore(env, parts) && parts[0] == "LDSM" && IsMatrixCount(env, parts, count)
    ensures count > 0
    ensures ReportedAs(p, SharedMem(2.0 * count as real), n, warps, Budget(env, memClass, dramBudget), [],
                       Marks(env, memClass))
  {
    MatrixRoute(env, mn, parts, count);
    ResultOfRoute(env, mn, n, warps, memClass, dramBudget, p, SharedMem(2.0 * count as real), []);
  }

  /** Local traffic only issues, and is flagged. */
  lemma LocalOpProjects(env: Env, mn: string, parts: seq<string>, n: nat, warps: real, memClass: MemClass,
                        dramBudget: positive, p: Option<ProjectResult>, issue: real)
    requires ProjectsEntry(env, mn, n, warps, memClass, dramBudget, p) && IsIssueLoad(issue, warps, n)
    requires Splits(mn, parts) && IsLoadStore(env, parts) && (parts[0] == "LDL" || parts[0] == "STL")
    ensures Unloaded(p, issue, [mn])
  {
    LocalRouteOf(env, mn, parts);
    ResultOfRoute(env, mn, n, warps, memClass, dramBudget, p, Flagged, [mn]);
    UnloadedAs(p, Flagged, n, warps, Budget(env, memClass, dramBudget), [mn], Marks(env, memClass), issue);
  }

  /** A measured op loads the pipe of its row, or of its base where the row names none, at
      the row's rate; a tensor op with a shape but no row for it is flagged. */
  lemma MeasuredOpProjects(env: Env, mn: string, parts: seq<string>, row: Rates.RateRow, rate: positive, pipe: string,
                           n: nat, warps: real, memClass: MemClass, dramBudget: positive, p: Option<ProjectResult>,
                           load: real, issue: real)
    requires ProjectsEntry(env, mn, n, warps, memClass, dramBudget, p) && IsIssueLoad(issue, warps, n)
    requires Splits(mn, parts) && IsComputeOp(env, parts) && IsMeasuredBy(env, parts, row)
    requires if row.pipe == "" then IsPipeOf(env, parts[0], pipe) else pipe == row.pipe
    requires env.num(row.value) == Some(rate) && IsRateLoad(load, rate, warps, n)
    ensures Loaded(p, "pipe:" + pipe, load, issue,
                   if !HasShapeRow(env, parts, row) && exists shape :: HasShape(parts, shape) then [mn] else [])
  {
    MeasuredRoute(env, mn, parts, row, pipe);
    ResultOfRoute(env, mn, n, warps, memClass, dramBudget, p, Compute(pipe, rate), Flags(env, mn));
    PipeProjects(env, mn, pipe, rate, n, warps, memClass, dramBudget, p, load, issue);
  }

  lemma PipeProjects(env: Env, mn: string, pipe: string, rate: positive, n: nat, warps: real, memClass: MemClass,
                     dramBudget: positive, p: Option<ProjectResult>, load: real, issue: real)
    requires ReportedAs(p, Compute(pipe, rate), n, warps, Budget(env, memClass, dramBudget), Flags(env, mn),
                        Marks(env, memClass))
    requires IsIssueLoad(issue, warps, n) && IsRateLoad(load, rate, warps, n)
    ensures Loaded(p, "pipe:" + pipe, load, issue, Flags(env, mn))
  {
    PipeLoadIs(load, pipe, rate, warps, n);
    LoadedAs(p, Compute(pipe, rate), n, warps, Budget(env, memClass, dramBudget), Flags(env, mn),
             Marks(env, memClass), load, issue);
  }

  /** Without a positive rate in its row there is no projection. */
  lemma BadRateProjectsNothing(env: Env, mn: string, parts: seq<string>, row: Rates.RateRow, n: nat, warps: real,
                               memClass: MemClass, dramBudget: positive, p: Option<ProjectResult>)
    requires ProjectsEntry(env, mn, n, warps, memClass, dramBudget, p)
    requires Splits(mn, parts) && IsComputeOp(env, parts) && IsMeasuredBy(env, parts, row)
    requires env.num(row.value).None? || env.num(row.value).value <= 0.0
    ensures p == None
  {
    PipesAgree(env, parts[0], PipeName(env, parts[0]));
    MeasuredRoute(env, mn, parts, row, if row.pipe == "" then PipeName(env, parts[0]) else row.pipe);
    ResultOfRoute(env, mn, n, warps, memClass, dramBudget, p, Unusable, Flags(env, mn));
  }

  /** An op without any row is flagged, and issues two a cycle on the fma and alu pipes
      and one in two cycles on every other. */
  lemma UnmeasuredOpProjects(env: Env, mn: string, parts: seq<string>, pipe: string, n: nat, warps: real,
                             memClass: MemClass, dramBudget: positive, p: Option<ProjectResult>,
                             load: real, issue: real)
    requires ProjectsEntry(env, mn, n, warps, memClass, dramBudget, p) && IsIssueLoad(issue, warps, n)
    requires Splits(mn, parts) && IsComputeOp(env, parts) && IsPipeOf(env, parts[0], pipe)
    requires forall row :: !HasShapeRow(env, parts, row) && !HasBaseRow(env, parts[0], row)
    requires IsRateLoad(load, if pipe == "fma" || pipe == "alu" then 2.0 else 0.5, warps, n)
    ensures Loaded(p, "pipe:" + pipe, load, issue, [mn])
  {
    var rate: positive := if pipe == "fma" || pipe == "alu" then 2.0 else 0.5;
    UnmeasuredRoute(env, mn, parts, pipe);
    ResultOfRoute(env, mn, n, warps, memClass, dramBudget, p, Compute(pipe, rate), [mn]);
    PipeProjects(env, mn, pipe, rate, n, warps, memClass, dramBudget, p, load, issue);
  }
}
