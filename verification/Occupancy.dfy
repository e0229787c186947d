/** Occupancy and block packing (src/lib.rs), with the kernel adapter that feeds it
    (src/nvidia/ptxas.rs). The closed forms are compared with what they stand for:
    residency of so many blocks, and placements of a whole grid. */
module Occupancy {
  import opened Wrappers
  import opened U32

  datatype Substrate = Substrate(
    registerCapacity: u32,
    registerGranularity: u32,
    localStoreBytes: u32,
    localStoreGranularity: u32,
    concurrencyCeiling: u32,
    issueCap: u32,
    memBandwidth: u32)

  datatype WorkUnit = WorkUnit(registers: u32, localStoreBytes: u32)

  datatype Block = Block(units: u32, unitRegisters: u32, localStoreBytes: u32)

  function Concurrency(s: Substrate, w: WorkUnit): u32 {
    var regPer := RoundUp(Max(w.registers, 1), s.registerGranularity);
    var byReg := Quotient(s.registerCapacity, regPer);
    var byLocal :=
      if w.localStoreBytes == 0 || s.localStoreBytes == 0 then s.concurrencyCeiling
      else Quotient(s.localStoreBytes, Max(RoundUp(w.localStoreBytes, s.localStoreGranularity), 1));
    Min(Min(byReg, byLocal), s.concurrencyCeiling)
  }

  /** `None` is the arithmetic overflow of `c * 100`. */
  function OccupancyPct(s: Substrate, w: WorkUnit): Option<u32> {
    var c := Concurrency(s, w);
    if s.concurrencyCeiling == 0 then Some(0)
    else if c * 100 > MAX then None
    else Some(Quotient(c * 100, s.concurrencyCeiling))
  }

  function BlocksPerInstance(s: Substrate, b: Block): u32 {
    if b.units == 0 then 0
    else
      var regPerUnit := RoundUp(Max(b.unitRegisters, 1), s.registerGranularity);
      MulMono(1, b.units, regPerUnit);
      var regPerBlock := SatMul(regPerUnit, b.units);
      var byReg := Quotient(s.registerCapacity, regPerBlock);
      var byLocal :=
        if b.localStoreBytes == 0 || s.localStoreBytes == 0 then MAX
        else Quotient(s.localStoreBytes, Max(RoundUp(b.localStoreBytes, s.localStoreGranularity), 1));
      var byCeiling := Quotient(s.concurrencyCeiling, b.units);
      Min(Min(byReg, byLocal), byCeiling)
  }

  function CooperativeFits(s: Substrate, b: Block, gridBlocks: u32, instances: u32): bool {
    SatMul(BlocksPerInstance(s, b), instances) >= gridBlocks
  }

  function Quotient(a: u32, b: u32): u32
    requires b > 0
  {
    DivBounds(a, b);
    a / b
  }

  // ------------------------------------------------------ declarative residency

  ghost function RegistersPerBlock(s: Substrate, b: Block): nat {
    MulMono(0, b.units, Granted(Max(b.unitRegisters, 1), s.registerGranularity));
    Granted(Max(b.unitRegisters, 1), s.registerGranularity) * b.units
  }

  ghost function LocalStorePerBlock(s: Substrate, b: Block): nat {
    Granted(b.localStoreBytes, s.localStoreGranularity)
  }

  ghost predicate LocalStoreMatters(s: Substrate, b: Block) {
    b.localStoreBytes > 0 && s.localStoreBytes > 0
  }

  /** `n` blocks can be co-resident on one instance: their granted registers, local
      store and units stay within the capacities, in unbounded arithmetic. */
  ghost predicate Resident(s: Substrate, b: Block, n: nat) {
    n > 0 ==>
      && b.units > 0
      && n * RegistersPerBlock(s, b) <= s.registerCapacity
      && (LocalStoreMatters(s, b) ==> n * LocalStorePerBlock(s, b) <= s.localStoreBytes)
      && n * b.units <= s.concurrencyCeiling
  }

  /** One block's demand no longer fits 32 bits, while the capacity it is measured
      against is the largest 32-bit number. */
  ghost predicate DemandSaturates(s: Substrate, b: Block) {
    || (RegistersPerBlock(s, b) > MAX && s.registerCapacity == MAX)
    || (LocalStoreMatters(s, b) && LocalStorePerBlock(s, b) > MAX && s.localStoreBytes == MAX)
  }

  /** Dividing by a demand capped at `MAX` asks the exact question, unless the cap
      bites and the capacity is `MAX` itself. */
  lemma CappedQuotient(capacity: u32, demand: nat, n: nat)
    requires demand > 0
    ensures n <= capacity / Min(MAX, demand) <==>
      if demand > MAX && capacity == MAX then n <= 1 else n == 0 || n * demand <= capacity
  {
    LeDiv(n, capacity, Min(MAX, demand));
    if n > 0 {
      MulMono(1, n, demand);
      MulMono(1, n, MAX);
      if n > 1 { MulMono(2, n, MAX); }
    }
  }

  lemma RegisterLimit(s: Substrate, b: Block, n: nat)
    requires b.units > 0
    ensures RegistersPerBlock(s, b) > 0
    ensures SatMul(RoundUp(Max(b.unitRegisters, 1), s.registerGranularity), b.units)
         == Min(MAX, RegistersPerBlock(s, b))
  {
    var x := Max(b.unitRegisters, 1);
    var g := Granted(x, s.registerGranularity);
    RoundUpIsGrantedCapped(x, s.registerGranularity);
    MulMono(1, b.units, g);
    MulMono(1, b.units, MAX);
  }

  /** What the packing count means in every case. */
  lemma PackingLimit(s: Substrate, b: Block, n: nat)
    ensures n <= BlocksPerInstance(s, b) <==>
      n == 0 || (
        && b.units > 0
        && n * b.units <= s.concurrencyCeiling
        && (if RegistersPerBlock(s, b) > MAX && s.registerCapacity == MAX then n <= 1
            else n * RegistersPerBlock(s, b) <= s.registerCapacity)
        && (LocalStoreMatters(s, b) ==>
              if LocalStorePerBlock(s, b) > MAX && s.localStoreBytes == MAX then n <= 1
              else n * LocalStorePerBlock(s, b) <= s.localStoreBytes))
  {
    if b.units > 0 {
      RegisterLimit(s, b, n);
      CappedQuotient(s.registerCapacity, RegistersPerBlock(s, b), n);
      LeDiv(n, s.concurrencyCeiling, b.units);
      if LocalStoreMatters(s, b) {
        RoundUpIsGrantedCapped(b.localStoreBytes, s.localStoreGranularity);
        CappedQuotient(s.localStoreBytes, LocalStorePerBlock(s, b), n);
      } else {
        MulMono(1, b.units, n);
      }
    }
  }

  /** One block gets past every limit, where a full capacity admits any demand. */
  ghost predicate OneAdmitted(s: Substrate, b: Block) {
    && 0 < b.units <= s.concurrencyCeiling
    && (RegistersPerBlock(s, b) <= s.registerCapacity || s.registerCapacity == MAX)
    && (LocalStoreMatters(s, b) ==>
          LocalStorePerBlock(s, b) <= s.localStoreBytes || s.localStoreBytes == MAX)
  }

  /** The capacities and demands for which the packing count is too large: a saturated
      demand meets a capacity of `MAX`, and no other limit rules the block out. */
  ghost predicate Overstates(s: Substrate, b: Block) {
    DemandSaturates(s, b) && OneAdmitted(s, b)
  }

  lemma PositiveIffOneAdmitted(s: Substrate, b: Block)
    ensures BlocksPerInstance(s, b) > 0 <==> OneAdmitted(s, b)
  {
    PackingLimit(s, b, 1);
  }

  /** The packing count is the greatest resident number of blocks, for exactly the
      capacities and demands that do not overstate. */
  lemma PackingIsGreatestResidency(s: Substrate, b: Block)
    ensures (forall n: nat :: n <= BlocksPerInstance(s, b) <==> Resident(s, b, n)) <==> !Overstates(s, b)
  {
    var most := BlocksPerInstance(s, b);
    PositiveIffOneAdmitted(s, b);
    if Overstates(s, b) {
      PackingLimit(s, b, 1);
      assert 1 <= most && !Resident(s, b, 1);
    } else {
      forall n: nat
        ensures n <= most <==> Resident(s, b, n)
      {
        PackingLimit(s, b, n);
        if DemandSaturates(s, b) && n > 0 {
          MulMono(1, n, RegistersPerBlock(s, b));
          MulMono(1, n, LocalStorePerBlock(s, b));
        }
      }
    }
  }

  /** The excluded case is real: four-billion-register demand "fits" once. */
  lemma PackingOverstatesAtFullCapacity()
    ensures var s := Substrate(MAX, 0, 0, 0, 2, 1, 0);
            var b := Block(2, MAX, 0);
            BlocksPerInstance(s, b) == 1 && !Resident(s, b, 1)
  {
    var s := Substrate(MAX, 0, 0, 0, 2, 1, 0);
    var b := Block(2, MAX, 0);
    PackingLimit(s, b, 1);
    PackingLimit(s, b, 2);
  }

  /** Occupancy is the packing of one-unit blocks. */
  lemma ConcurrencyPacksUnitBlocks(s: Substrate, w: WorkUnit)
    ensures Concurrency(s, w) == BlocksPerInstance(s, Block(1, w.registers, w.localStoreBytes))
  {
    DivBounds(s.concurrencyCeiling, 1);
  }

  /** The percentage is at most 100 when it is computed at all, and 100 exactly at a
      positive ceiling; the multiplication overflows exactly above 42949672 concurrent
      units. */
  lemma OccupancyPctRange(s: Substrate, w: WorkUnit)
    ensures OccupancyPct(s, w).None? <==> Concurrency(s, w) > 42949672
    ensures OccupancyPct(s, w).Some? ==> OccupancyPct(s, w).value <= 100
    ensures OccupancyPct(s, w) == Some(100) <==>
      0 < Concurrency(s, w) == s.concurrencyCeiling && Concurrency(s, w) <= 42949672
  {
    var c: int, top: int := Concurrency(s, w), s.concurrencyCeiling;
    if top > 0 {
      LeDiv(101, c * 100, top);
      LeDiv(100, c * 100, top);
    }
  }

  /** In between it is the whole part of the share: it reaches a percentage exactly when
      that much of the ceiling is concurrent. */
  lemma OccupancyPctReaches(s: Substrate, w: WorkUnit, p: nat)
    requires OccupancyPct(s, w).Some?
    ensures p <= OccupancyPct(s, w).value <==>
      p == 0 || (s.concurrencyCeiling > 0 && p * s.concurrencyCeiling <= 100 * Concurrency(s, w))
  {
    if s.concurrencyCeiling > 0 {
      LeDiv(p, Concurrency(s, w) * 100, s.concurrencyCeiling);
    }
  }

  /** The overflow is reached: a ceiling of `MAX` with one register per unit. */
  lemma OccupancyPctOverflows()
    ensures OccupancyPct(Substrate(MAX, 0, 0, 0, MAX, 1, 0), WorkUnit(1, 0)) == None
  {
    DivBounds(MAX, 1);
  }

  // ------------------------------------------------------------ grid placements

  /** `place[k]` is the instance that hosts block `k`. */
  ghost function HostedOn(place: seq<nat>, instance: nat): nat {
    if place == [] then 0
    else HostedOn(place[..|place| - 1], instance) + if place[|place| - 1] == instance then 1 else 0
  }

  ghost predicate IsPlacement(s: Substrate, b: Block, instances: nat, place: seq<nat>) {
    && (forall k :: 0 <= k < |place| ==> place[k] < instances)
    && (forall i: nat :: i < instances ==> Resident(s, b, HostedOn(place, i)))
  }

  ghost function HostedBelow(place: seq<nat>, bound: nat): nat {
    if place == [] then 0
    else HostedBelow(place[..|place| - 1], bound) + if place[|place| - 1] < bound then 1 else 0
  }

  lemma {:induction false} HostedBelowSplits(place: seq<nat>, bound: nat)
    ensures HostedBelow(place, 0) == 0
    ensures HostedBelow(place, bound + 1) == HostedBelow(place, bound) + HostedOn(place, bound)
  {
    if place != [] {
      HostedBelowSplits(place[..|place| - 1], bound);
    }
  }

  lemma {:induction false} AllHosted(place: seq<nat>, bound: nat)
    requires forall k :: 0 <= k < |place| ==> place[k] < bound
    ensures HostedBelow(place, bound) == |place|
  {
    if place != [] {
      AllHosted(place[..|place| - 1], bound);
    }
  }

  /** Pigeonhole: `bound` instances hosting at most `most` each host `most * bound`. */
  lemma {:induction false} HostedAtMost(place: seq<nat>, bound: nat, most: nat)
    requires forall i: nat :: i < bound ==> HostedOn(place, i) <= most
    ensures HostedBelow(place, bound) <= most * bound
  {
    if bound == 0 {
      HostedBelowSplits(place, 0);
    } else {
      HostedAtMost(place, bound - 1, most);
      HostedBelowSplits(place, bound - 1);
    }
  }

  /** Filling the instances one after the other, `most` blocks each. */
  ghost function Packed(grid: nat, most: nat): (place: seq<nat>)
    requires most > 0
    ensures |place| == grid
    ensures forall k :: 0 <= k < grid ==> place[k] == k / most
  {
    seq(grid, k requires 0 <= k => k / most)
  }

  lemma {:induction false} PackedHosts(grid: nat, most: nat, instance: nat)
    requires most > 0
    ensures HostedOn(Packed(grid, most), instance) == Max(0, Min(most, grid - instance * most))
  {
    if grid == 0 {
      MulMono(0, instance, most);
    } else {
      PackedHosts(grid - 1, most, instance);
      var place := Packed(grid, most);
      assert place[..grid - 1] == Packed(grid - 1, most);
      LeDiv(instance, grid - 1, most);
      LeDiv(instance + 1, grid - 1, most);
      var first := instance * most;
      assert (instance + 1) * most == first + most;
      assert place[grid - 1] == instance <==> first <= grid - 1 < first + most;
    }
  }

  /** A cooperative launch is accepted exactly when some placement of the whole grid
      respects every limit on every instance. The one exception is an overstated
      packing, and then only for a grid of at most one block per instance. */
  lemma CooperativeFitsIffPlaceable(s: Substrate, b: Block, grid: u32, instances: u32)
    ensures (CooperativeFits(s, b, grid, instances) <==>
             exists place: seq<nat> :: |place| == grid && IsPlacement(s, b, instances, place))
       <==> !(Overstates(s, b) && 0 < grid <= instances)
  {
    var most := BlocksPerInstance(s, b);
    PackingIsGreatestResidency(s, b);
    PositiveIffOneAdmitted(s, b);
    if Overstates(s, b) {
      PackingLimit(s, b, most);
      assert most == 1;
      NothingPlaceable(s, b, grid, instances);
    } else {
      if CooperativeFits(s, b, grid, instances) {
        PackedIsPlacement(s, b, grid, instances);
      }
      forall place: seq<nat> | |place| == grid && IsPlacement(s, b, instances, place)
        ensures CooperativeFits(s, b, grid, instances)
      {
        HostedAtMost(place, instances, most);
        AllHosted(place, instances);
      }
    }
  }

  lemma PackedIsPlacement(s: Substrate, b: Block, grid: u32, instances: u32)
    requires !Overstates(s, b)
    requires CooperativeFits(s, b, grid, instances)
    ensures exists place: seq<nat> :: |place| == grid && IsPlacement(s, b, instances, place)
  {
    var most := BlocksPerInstance(s, b);
    PackingIsGreatestResidency(s, b);
    if grid == 0 {
      assert IsPlacement(s, b, instances, []);
    } else {
      assert most * instances >= grid;
      assert most > 0;
      var place := Packed(grid, most);
      forall k | 0 <= k < |place|
        ensures place[k] < instances
      {
        LeDiv(instances, k, most);
      }
      forall i: nat | i < instances
        ensures Resident(s, b, HostedOn(place, i))
      {
        PackedHosts(grid, most, i);
      }
      assert IsPlacement(s, b, instances, place);
    }
  }

  lemma NothingPlaceable(s: Substrate, b: Block, grid: u32, instances: u32)
    requires DemandSaturates(s, b)
    ensures (exists place: seq<nat> :: |place| == grid && IsPlacement(s, b, instances, place)) <==> grid == 0
  {
    if grid == 0 {
      assert IsPlacement(s, b, instances, []);
    }
    forall place: seq<nat> | |place| == grid && IsPlacement(s, b, instances, place)
      ensures grid == 0
    {
      forall i: nat | i < instances
        ensures HostedOn(place, i) <= 0
      {
        var n := HostedOn(place, i);
        if n > 0 {
          MulMono(1, n, RegistersPerBlock(s, b));
          MulMono(1, n, LocalStorePerBlock(s, b));
          assert false;
        }
      }
      HostedAtMost(place, instances, 0);
      AllHosted(place, instances);
    }
  }
}

/** The fold of one kernel's static usage into the core's two forms
    (src/nvidia/ptxas.rs). Only the fields the folds read are kept. */
module Ptxas {
  import opened Wrappers
  import opened U32
  import opened Occupancy

  datatype KernelUsage = KernelUsage(registers: u32, smemBytes: u32)

  function WarpsPerBlock(blockThreads: u32): u32 {
    Max(CeilDiv(Max(blockThreads, 1), 32), 1)
  }

  /** `None` is the overflow of `registers * 32`. */
  function WorkUnitOf(usage: KernelUsage, blockThreads: u32): Option<WorkUnit> {
    if usage.registers * 32 > MAX then None
    else Some(WorkUnit(usage.registers * 32, CeilDiv(usage.smemBytes, WarpsPerBlock(blockThreads))))
  }

  function BlockOf(usage: KernelUsage, blockThreads: u32, smemBytes: Option<u32>): Option<Block> {
    if usage.registers * 32 > MAX then None
    else Some(Block(WarpsPerBlock(blockThreads), usage.registers * 32,
                    if smemBytes.Some? then smemBytes.value else usage.smemBytes))
  }

  /** A block has as many warps of 32 threads as its threads take, and at least one. */
  lemma WarpsCoverThreads(blockThreads: u32, n: nat)
    ensures WarpsPerBlock(blockThreads) <= n <==> n > 0 && blockThreads <= 32 * n
  {
    CeilDivIsLeastCover(Max(blockThreads, 1), 32, n);
  }

  /** What the folds take from the kernel: 32 registers per thread of a warp, and the
      dynamic local store where one is given. They fail together, when the registers of a
      warp need more than 32 bits. */
  lemma FoldsRead(usage: KernelUsage, blockThreads: u32, smemBytes: Option<u32>)
    ensures WorkUnitOf(usage, blockThreads).None? <==> 32 * usage.registers > MAX
    ensures BlockOf(usage, blockThreads, smemBytes).None? <==> 32 * usage.registers > MAX
    ensures 32 * usage.registers <= MAX ==>
      var w, b := WorkUnitOf(usage, blockThreads).value, BlockOf(usage, blockThreads, smemBytes).value;
      && w.registers == b.unitRegisters == 32 * usage.registers
      && b.units == WarpsPerBlock(blockThreads)
      && (smemBytes == None ==> b.localStoreBytes == usage.smemBytes)
      && (forall bytes :: smemBytes == Some(bytes) ==> b.localStoreBytes == bytes)
      && (forall share: nat :: w.localStoreBytes <= share <==> usage.smemBytes <= share * b.units)
  {
    if 32 * usage.registers <= MAX {
      forall share: nat
        ensures WorkUnitOf(usage, blockThreads).value.localStoreBytes <= share <==>
                usage.smemBytes <= share * WarpsPerBlock(blockThreads)
      {
        CeilDivIsLeastCover(usage.smemBytes, WarpsPerBlock(blockThreads), share);
      }
    }
  }

  /** Giving every warp its own rounded share of the block's local store never asks
      for less than the block's own rounded allocation. */
  lemma WarpSharesCoverBlock(bytes: u32, warps: u32, granularity: u32)
    requires bytes > 0 && warps > 0
    ensures CeilDiv(bytes, warps) > 0
    ensures warps * Granted(CeilDiv(bytes, warps), granularity) >= Granted(bytes, granularity)
  {
    var share := CeilDiv(bytes, warps);
    var g := Granted(share, granularity);
    CeilDivIsLeastCover(bytes, warps, 0);
    CeilDivIsLeastCover(bytes, warps, share);
    MulMono(share, g, warps);
    if granularity > 0 {
      GrantedIsLeastMultiple(share, granularity);
      GrantedIsLeastMultiple(bytes, granularity);
      var k :| g == k * granularity;
      MulAssoc(warps, k, granularity);
      var j := warps * k;
      assert j * granularity >= bytes;
    }
  }

  /** `n` whole blocks' worth of warps within a limit keep `n` blocks within it, also
      when the limit is the capped one of `PackingLimit`. */
  lemma WholeBlocksWithin(capacity: u32, perWarp: nat, perBlock: nat, warps: u32, n: nat)
    requires n > 0 && warps > 0
    requires perBlock <= perWarp * warps
    requires warps == 1 ==> perBlock == perWarp
    requires if perWarp > MAX && capacity == MAX then n * warps <= 1 else (n * warps) * perWarp <= capacity
    ensures if perBlock > MAX && capacity == MAX then n <= 1 else n * perBlock <= capacity
  {
    MulMono(1, n, warps);
    if perWarp > MAX && capacity == MAX {
      if warps > 1 { MulMono(2, warps, n); }
    } else {
      MulMono(perBlock, perWarp * warps, n);
      MulAssoc(n, perWarp, warps);
      MulMono(1, n, perBlock);
    }
  }

  /** The per-warp fold is conservative: the whole blocks it implies never exceed the
      exact packing, whatever was rounded or saturated on the way. */
  lemma FoldIsConservative(s: Substrate, usage: KernelUsage, blockThreads: u32)
    requires usage.registers * 32 <= MAX
    ensures Concurrency(s, WorkUnitOf(usage, blockThreads).value) / WarpsPerBlock(blockThreads)
         <= BlocksPerInstance(s, BlockOf(usage, blockThreads, None).value)
  {
    var w := WorkUnitOf(usage, blockThreads).value;
    var b := BlockOf(usage, blockThreads, None).value;
    var unit := Block(1, w.registers, w.localStoreBytes);
    var warps := WarpsPerBlock(blockThreads);
    var c := Concurrency(s, w);
    var n := c / warps;
    DivBounds(c, warps);
    if n > 0 {
      ConcurrencyPacksUnitBlocks(s, w);
      PackingLimit(s, unit, n * warps);
      PackingLimit(s, b, n);
      WholeBlocksWithin(s.registerCapacity, RegistersPerBlock(s, unit), RegistersPerBlock(s, b), warps, n);
      if LocalStoreMatters(s, b) {
        WarpSharesCoverBlock(usage.smemBytes, warps, s.localStoreGranularity);
        WholeBlocksWithin(s.localStoreBytes, LocalStorePerBlock(s, unit), LocalStorePerBlock(s, b), warps, n);
      }
    }
  }
}
