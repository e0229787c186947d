# calx-mill: a verified model of the projection core

calx-mill projects how fast a kernel can run from a few machine capacities and an
instruction mix. Its value lies in closed forms that stand for optimisation questions
(how many blocks fit, how short a schedule can be, what overlapped lanes cost) and in
hand-written text machinery (CSV, a pattern engine, a SASS scanner, `%.6g` layout) that
stands in for library behaviour. Each module below models one of these parts, says in
declarative terms what it stands for, and proves that the code meets it on all inputs.
Where the code does not, a concrete input is given and the exact condition is proved.

| file | part |
|---|---|
| Lists.dfy | option type, association lists |
| U32.dfy | saturating 32-bit arithmetic, `round_up`, `ceil_div` |
| Occupancy.dfy | occupancy, block packing, cooperative placement, the kernel fold |
| Roofline.dfy | `project` as the shortest schedule of ops and bytes |
| Chains.dfy | dependency chains, utilization, register coupling |
| Demands.dfy | demand vectors and overlap contention |
| Csv.dfy, CsvTexts.dfy, Rates.dfy | CSV reader and writer, the reader on every text, padded tables, the peak-keeping rate table |
| Pattern.dfy | greedy matcher, pattern parser, operator filter |
| Sass.dfy, HotLoop.dfy | instruction scanner, branch targets, hot loop, loop mix |
| Census.dfy, Projection.dfy | the counter and the op-mix projection |
| Telemetry.dfy | clock consensus, unit conversion, realized overlap |
| G6.dfy | the six-digit layout |
| Validity.dfy | authority trees, computed domain fit |

`dafny verify dfyconfig.toml` checks the whole project.

## Conventions

- `u32` is an explicit range and every saturating operator is written out. Products and
  sums in specifications are unbounded. Debug-mode arithmetic overflow is an explicit
  outcome (`None`, `Panicked`, `Overflowed`) rather than a precondition.
- 64-bit floats are `real`. Float and integer parsing is a parameter (`num`,
  `parseCount`); a parse failure is part of the modelled behaviour.
- Byte strings (patterns, SASS lines) are written as strings of characters with those
  codes. No ASCII restriction is needed.
- A mutated local becomes a method's loop variable; the counter that other code mutates
  is a class. A method is tied to a specification function or predicate, and the laws are
  proved about that.

## Where the code falls short of what it promises

- `write_record` is documented to match Python's `csv` defaults, but writes a record of
  one empty field as a blank line, which the reader skips (`Csv.RoundTripIffNoBlank`,
  `Csv.QuotedEmptyFieldIsLost`).
- `occupancy_pct` is documented as free of overflow; it overflows exactly above 42949672
  concurrent units (`Occupancy.OccupancyPctRange`, `Occupancy.OccupancyPctOverflows`).
- A block whose demand needs more than 32 bits is reported to fit once when the capacity
  is `u32::MAX` (`Occupancy.PackingIsGreatestResidency`,
  `Occupancy.PackingOverstatesAtFullCapacity`).
- An op total above 32 bits can be projected to fewer cycles than any schedule needs
  (`Roofline.ProjectionIsShortestSchedule`, `Roofline.SaturatedTotalUnderstates`).
- `chain_cycles` charges the latency floor even for zero chains
  (`Chains.ChainBoundSoundIff`, `Chains.NoChainsStillCharged`).
- Utilization is documented to be 100% only when the chain is hidden; at the 32-bit cap
  it is 100% far below the hide threshold, and without work it is zero above it
  (`Chains.FullUtilizationMatchesThreshold`, `Chains.FullWithoutHiding`).
- The register gate and the utilization after the spend disagree in four families: no
  work, throughput at the 32-bit cap, no chain left where one suffices, and fewer chains
  requested than needed (`Chains.OverlapGateMatchesUtilization`,
  `Chains.IdleGatePasses`, `Chains.CappedGateFails`, `Chains.OverlapGateDisagrees`).
- Utilization under registers is documented to drop when fewer chains are sustained than
  requested. It drops only when a whole percent is lost, and a template of no chains is
  raised (`Chains.BudgetCostsIffMarkLost`, `Chains.BudgetNeverRaisesIff`,
  `Chains.BudgetExtremes`).
- Contention is documented to cost at most both lanes in series. A second lane that lists
  a resource several times can cost more, and lanes that do so do not commute
  (`Demands.SerialBoundIff`, `Demands.CommutesIffConcentrated`,
  `Demands.RepeatedKindBreaksLaws`). It is documented to cost at least each lane; a
  negative total in the second lane, or a negative first entry of a kind in the first,
  can make it cost less
  (`Demands.FirstLaneBoundIff`, `Demands.SecondLaneBoundIff`,
  `Demands.NegativeDemandBreaksBracket`).
- The operator filter is documented to reject what the engine does not implement instead
  of taking it as a literal. A quantifier at the start or behind another is accepted and
  taken as one (`Pattern.TakenLiterallyIff`, `Pattern.LeadingQuantifierAccepted`,
  `Pattern.DoubledQuantifierAccepted`).
- The run clock is documented to resist one corrupt record; among two it does not,
  and in general it resists k among n exactly when 2k < n
  (`Telemetry.CorruptionToleratedIff`, `Telemetry.HalfIsNotEnough`).
- Attaching a host wall is documented to only lower the achieved rate; for a record with
  bytes and no span of its own it raises it from zero
  (`Telemetry.WallLowersRateUnlessSpanless`, `Telemetry.SpanlessWallRejects`).
- `computed_fit` is documented to return `AtAnchor` at the anchor's own point; a query
  that repeats a key can get it elsewhere, and with an anchor that repeats a key only such
  a query gets it at all (`Validity.ClaimIsTrueIff`, `Validity.DistinctKeysDecideTheClaim`,
  `Validity.RepeatedKeyPassesForAnchor`).

## Model

| member | source | states |
|---|---|---|
| U32.RoundUpIsGrantedCapped | src/lib.rs:51-61 | rounding gives the least multiple when one fits 32 bits and the cap otherwise; the result is a multiple exactly when some multiple fits |
| U32.CeilDivIsLeastCover | src/lib.rs:64-75 | the quotient is the least number of shares that covers the dividend, and zero for a zero divisor |
| Occupancy.PackingLimit | src/lib.rs:120-135 | for every n, n is within the packing count iff each axis admits n, saturated axes included |
| Occupancy.PackingIsGreatestResidency | src/lib.rs:120-135 | the count is the greatest number of co-resident blocks, iff no saturated demand meets a full capacity in a block that every axis admits once |
| Occupancy.PackingOverstatesAtFullCapacity | src/lib.rs:120-135 | concrete input where the count is one and nothing fits |
| Occupancy.ConcurrencyPacksUnitBlocks | src/lib.rs:80-90 | the separately coded occupancy is the packing of one-unit blocks, so the packing results carry over |
| Occupancy.OccupancyPctRange | src/lib.rs:93-100 | the percentage overflows iff more than 42949672 units are concurrent, is otherwise at most 100, and is 100 iff concurrency is at a nonzero ceiling |
| Occupancy.OccupancyPctOverflows | src/lib.rs:93-100 | concrete machine on which the percentage overflows |
| Occupancy.OccupancyPctReaches | src/lib.rs:93-100 | the percentage reaches p iff p hundredths of a nonzero ceiling are concurrent, for every p |
| Occupancy.CooperativeFitsIffPlaceable | src/lib.rs:141-143 | a launch is accepted iff some assignment of every block to an instance respects all limits on all instances, exactly unless the packing is overstated and a nonempty grid has at most one block per instance |
| Ptxas.FoldIsConservative | src/nvidia/ptxas.rs:119-139 | whole blocks implied by the per-warp fold never exceed the exact packing, despite rounding and saturation |
| Ptxas.WarpSharesCoverBlock | src/nvidia/ptxas.rs:119-125 | per-warp local-store shares, each rounded up, cover the block's own rounded allocation |
| Ptxas.WarpsCoverThreads | src/nvidia/ptxas.rs:119-139 | a block has the least positive number of warps of 32 threads that holds its threads |
| Ptxas.FoldsRead | src/nvidia/ptxas.rs:119-139 | 32 registers per thread of a warp, the least share of local store that covers the block, the dynamic size where given; fails iff the registers of a warp overflow |
| Roofline.Project | src/lib.rs:208-237 | cycles are the largest demand and the bottleneck attains it under the tie order memory, issue cap, first pipe |
| Roofline.ProjectionUnique | src/lib.rs:208-237 | that description leaves exactly one projection per input |
| Roofline.NoShorterSchedule | src/lib.rs:204-237 | no cycle-by-cycle schedule that respects pipe rates, issue cap and bandwidth is shorter, saturated or not |
| Roofline.ProjectionIsShortestSchedule | src/lib.rs:208-237 | a schedule of exactly the projected length exists iff the op total fits 32 bits or fits, under the issue cap, the cycles of one of the axes; always so without saturation |
| Roofline.RoundRobinAllLegal | src/lib.rs:208-237 | dealing ops and bytes out in turn keeps every cycle within every limit |
| Roofline.RoundRobinDoesTheWork | src/lib.rs:208-237 | and together the cycles issue every op and move every byte |
| Roofline.SaturatedTotalUnderstates | src/lib.rs:226-227 | concrete saturated workload whose projected cycles no schedule reaches |
| Chains.ChainCyclesIsMaxCapped | src/lib.rs:396-417 | the saturating chain bound is the exact maximum of both terms, capped; latency is named iff it is strictly larger and below the cap, else the pipe |
| Chains.ProjectLatencyIsSlower | src/lib.rs:397-404 | composing any projection with a chain gives the larger time, and the projection unchanged iff the chain is not slower |
| Chains.InterleaveIsOptimal | src/lib.rs:365-372 | the round-robin interleave is legal and no schedule with the same spacing rules finishes earlier |
| Chains.ChainBoundBracketsOptimum | src/lib.rs:405-417 | the bound never exceeds the optimum and, unsaturated, is below it by at most the excess of latency over pipe time |
| Chains.ChainBoundSoundIff | src/lib.rs:405-417 | the bound holds for every schedule iff there is a chain, or no depth, or no latency |
| Chains.NoChainsStillCharged | src/lib.rs:405-417 | concrete template whose bound charges latency though nothing is to be scheduled |
| Chains.LatencyBoundIffBelowHideThreshold | src/lib.rs:497-504 | with a nonzero cost per op, latency binds iff there is depth, chains are below the hide threshold, and throughput is below the cap; with a free op, iff there is depth and latency |
| Chains.UtilizationIsLittlesLaw | src/lib.rs:419-428 | for every input: zero without work, 100 when the chains cover the latency, else floor(100 C R / L), and the ratio to the cap where the product saturates |
| Chains.FullUtilizationIffHidden | src/lib.rs:422-428 | utilization is 100 iff there is work and latency does not bind, on every input |
| Chains.FullUtilizationMatchesThreshold | src/lib.rs:419-428 | utilization is 100 exactly at or above the hide threshold, iff there is work below the 32-bit cap, or there is none and chains are below the threshold, or the cap is reached and they are not |
| Chains.FullWithoutHiding | src/lib.rs:419-428 | concrete templates: full utilization far below the hide threshold, and none at it |
| Chains.AchievableIsMostAffordable | src/lib.rs:468-472 | the sustained chains are the greatest number whose registers fit the budget beside the base, in unbounded arithmetic |
| Chains.GateIffHidingFits | src/lib.rs:536-557 | the gate passes iff some number of chains hides the latency and fits the budget beside base and spend |
| Chains.CostlyChainsFailTheGate | src/lib.rs:536-557 | concrete budget that pays two of seven needed chains at twelve registers each |
| Chains.UtilizationOfKept | src/lib.rs:497-529 | utilization under registers is that of the greatest number of chains both requested and paid for, or of one |
| Chains.OverlapGateMatchesUtilization | src/lib.rs:519-557 | for every input, with the chains sustained and kept given by what the registers pay for: the gate agrees with full utilization after the spend, iff it is outside four named families |
| Chains.OverlapGateDisagrees | src/lib.rs:519-557 | concrete inputs where one chain suffices but none is left, and where the template asks for too few chains |
| Chains.IdleGatePasses | src/lib.rs:519-557 | concrete inputs without work where the gate passes and the utilization is zero |
| Chains.CappedGateFails | src/lib.rs:519-557 | concrete input at the 32-bit cap where the gate fails and the utilization is full |
| Chains.RegistersOnlyCost | src/lib.rs:445-472 | chains and utilization are monotone in the budget and antitone in the base registers, the chains are the most affordable ones, and for a template with at least one chain utilization is never above the unbudgeted one |
| Chains.BudgetCostsIffMarkLost | src/lib.rs:497-529 | with the chains kept being the most that are requested and paid for: a budget strictly lowers utilization iff a whole percent of the latency floor lies above the busy cycles of the chains kept and not above those of the requested ones |
| Chains.BudgetNeverRaisesIff | src/lib.rs:497-529 | the budgeted utilization is at most the unbudgeted one iff the template has a chain, or does no work per chain, or one chain stays below one percent of the floor |
| Chains.BudgetExtremes | src/lib.rs:497-529 | concrete templates: one of no chains that a budget raises from 0 to 100, one that loses half of its chains and no utilization |
| Demands.SelectBound | src/lib.rs:300-331 | first maximal entry binds; the additive model is all work, or the last issue demand when there is no positive work |
| Demands.MergeDemands | src/lib.rs:682-695 | the in-place merge equals bumping the first entry of each kind |
| Demands.OverlappedContended | src/lib.rs:697-724 | the result is the largest summed demand over all resources for concentrated non-negative lanes, and lies within the documented bracket under the exact condition of each bound |
| Demands.MixDemands | src/lib.rs:273-294 | pipes, local store, memory and issue in that order, with absent axes left out; no result iff a division is by zero |
| Demands.MergeAdds | src/lib.rs:682-695 | merging adds demands resource by resource, for any vectors |
| Demands.MergeAt | src/lib.rs:682-695 | entry by entry, for any vectors: the first entry of a kind takes all that the other asks of it, no other entry changes |
| Demands.MergeAssociative | src/lib.rs:682-695 | merging three lanes is associative on every resource |
| Demands.OverlapIsPeak | src/lib.rs:697-724 | overlapped time is the largest summed demand over all resources, whatever kinds the second lane repeats |
| Demands.ContentionBracketsOverlap | src/lib.rs:716-724 | for any lanes: at least the first alone if the second asks of no resource less than nothing, at least a non-negative second alone if no first entry of a kind is negative, at most both in series if the second asks of no resource more than its largest entry; lanes with distinct kinds and non-negative demands are all of this |
| Demands.SerialBoundIff | src/lib.rs:716-724 | exact for any second lane: the serial bound holds next to every first lane of non-negative cost iff the lane asks of no resource more than its largest entry |
| Demands.FirstLaneBoundIff | src/lib.rs:716-724 | exact for any second lane: no first lane gets faster next to it iff it asks of no resource less than nothing in total |
| Demands.SecondLaneBoundIff | src/lib.rs:716-724 | exact for any first lane: no non-negative second lane gets faster next to it iff no first entry of a kind in it is negative |
| Demands.OverlapMonotone | src/lib.rs:719-724 | more demand on any resource never lowers the overlapped time, whatever kinds the second lanes repeat |
| Demands.OverlapCommutes | src/lib.rs:719-724 | the order of the lanes does not matter |
| Demands.CommutesIffConcentrated | src/lib.rs:682-724 | a lane commutes with every lane iff no resource is spread over several of its entries |
| Demands.DisjointLanesHide | src/lib.rs:719-724 | lanes without a shared resource overlap to the larger one |
| Demands.RepeatedKindBreaksLaws | src/lib.rs:682-724 | a concrete vector with a repeated kind for which the order matters and the serial bound fails |
| Demands.NegativeDemandBreaksBracket | src/lib.rs:716-724 | a concrete negative demand with which overlap costs less than one lane alone |
| Demands.MixedIsDistinct | src/lib.rs:273-294 | built vectors have distinct kinds and ask of every resource exactly its demand, absent axes included |
| Demands.MixedMeaning | src/lib.rs:273-294 | pipes and local store take their cycles from every unit, at the memory demand the bandwidth moves all bytes, at the issue demand the cap issues all ops |
| Demands.MixedOrder | src/lib.rs:273-294 | entries stand in the order pipes, local store, memory, issue; pipes and issue always, the others iff used |
| Demands.MixedAdditive | src/lib.rs:316-330 | the additive cycles of a built vector are the work of all pipes and both memories, or the issue demand when there is none |
| Csv.ParseRecords | src/nvidia/csvio.rs:40-91 | the lookahead loop computes the same records as the reader machine on the whole text |
| Csv.WriteRecord | src/nvidia/csvio.rs:96-110 | appends exactly the minimally quoted line and CRLF |
| Csv.ReadsAnyRendering | src/nvidia/csvio.rs:40-91 | any quoting that covers the needy fields, LF or CRLF, a missing last terminator and blank lines all read back as the same records |
| CsvTexts.ParsedIsRecordsOf | src/nvidia/csvio.rs:40-91 | of any text: commas and line feeds separate, characters and quoted runs of a field follow each other wherever quotes open, returns are nothing, lines of nothing else hold no record, an open run ends with the text |
| CsvTexts.EveryTextHasTokens | src/nvidia/csvio.rs:40-91 | every text is such a list of tokens, so the reader is described on every text |
| Csv.CellIsMinimal | src/nvidia/csvio.rs:93-110 | a field is quoted iff it holds a delimiter, quote or line break, and grows by two and by its quotes |
| Csv.WriteThenParse | src/nvidia/csvio.rs:40-110 | for all records over all characters, parsing what was written returns them with only the two blank records dropped |
| Csv.RoundTripIffNoBlank | src/nvidia/csvio.rs:93-110 | the round trip is the identity iff no record is empty or a single empty field |
| Csv.QuotedEmptyFieldIsLost | src/nvidia/csvio.rs:93-110 | a parsed record that does not survive being written and read again |
| Csv.ReparseIsStable | src/nvidia/csvio.rs:40-110 | for every text, parse-write-parse is parse iff no record is a single empty field, and then stays put |
| Rates.ParseTable | src/nvidia/csvio.rs:13-25 | the first record is the header and every row is padded with empty fields to its width, longer rows kept |
| Rates.Parse | src/nvidia/table.rs:19-42 | one entry per id in first-seen order with value and pipe of the first row at its maximum; fails iff a repeated id has a non-numeric row, naming the first clash |
| Rates.PeakIsUnique | src/nvidia/table.rs:25-33 | an id has at most one row of that description |
| Rates.GetFindsPeak | src/nvidia/table.rs:15-17 | lookup finds the peak of an id that occurs and nothing for any other |
| Pattern.MatchHere | src/nvidia/pattern.rs:34-47 | true iff some prefix of the text is denoted by the items; terminates |
| Pattern.MatchStar | src/nvidia/pattern.rs:49-64 | greedy run and back-off find a split iff one exists |
| Pattern.IsMatch | src/nvidia/pattern.rs:124-127 | true iff some substring is denoted by the pattern |
| Pattern.AtomsTake | src/nvidia/pattern.rs:26-32 | a literal takes itself, a dot all but a line feed, a digit the ten digits |
| Pattern.New | src/nvidia/pattern.rs:90-121 | the index loop parses as the recursive grammar does, whose result is given in characters by the next row |
| Pattern.ParsedIffSpelled | src/nvidia/pattern.rs:90-121 | the items are exactly those the pattern spells character by character: dot, escaped d, other escapes, every other character itself, then a star or plus, up to its end |
| Pattern.PlainMatchesIffContained | src/nvidia/pattern.rs:90-127 | a pattern without special characters matches exactly the texts that contain it |
| Pattern.TryNew | src/nvidia/pattern.rs:70-88 | rejects iff a listed construct stands after an even run of backslashes, naming the first; otherwise parses as New |
| Pattern.UnsupportedListed | src/nvidia/pattern.rs:76-77 | the ten constructs that are rejected |
| Pattern.TakenLiterallyIff | src/nvidia/pattern.rs:90-121 | an unescaped quantifier is read as a literal iff it stands at the start or right behind an unescaped quantifier that is read as one |
| Pattern.SomeTakenLiterallyIff | src/nvidia/pattern.rs:90-121 | some unescaped quantifier is read as a literal iff the pattern begins with one or two stand next to each other |
| Pattern.LeadingQuantifierAccepted | src/nvidia/pattern.rs:70-121 | concrete accepted pattern whose leading quantifier is a literal |
| Pattern.DoubledQuantifierAccepted | src/nvidia/pattern.rs:70-121 | concrete accepted pattern whose second quantifier is a literal |
| Pattern.PrintThenParse | src/nvidia/pattern.rs:90-121 | the parser undoes an escaping printer for every atom sequence |
| Pattern.PrintedIsAccepted | src/nvidia/pattern.rs:70-88 | everything the printer prints passes the operator filter |
| Sass.ScanInstr | src/nvidia/sass.rs:24-91 | leftmost match of the instruction regex with its address, start and greedy end; none iff no place matches; panics iff an over-wide address comes first |
| Sass.ScanAt | src/nvidia/sass.rs:33-88 | one candidate is decided without backtracking inside it |
| Sass.UniformGuardNeverMatches | src/nvidia/sass.rs:51-76 | an instruction with a uniform predicate never matches |
| Sass.ClassesListed | src/nvidia/sass.rs:36-85 | the character classes of the scanner, listed character by character |
| Sass.HexReadsPrinted | src/nvidia/sass.rs:41-44 | the address is read in base sixteen: reading undoes printing for every number, padded with zeros or not |
| Sass.HexValueConcat | src/nvidia/sass.rs:41-44 | what stands in front counts sixteen times for every digit behind it |
| Sass.HexValueIsInjective | src/nvidia/sass.rs:41-44 | digit strings of equal length with one value are equal |
| Sass.TooWideIffManyDigits | src/nvidia/sass.rs:41-44 | an address is too wide iff more than sixteen digits are left without leading zeros |
| Sass.BraTarget | src/nvidia/sass.rs:160-184 | the target of the first branch with a hex operand, none iff there is no such branch |
| HotLoop.Search | src/nvidia/sass.rs:141-157 | on any list: none iff no branch goes back to a listed address, else the first back edge of maximal span; it fails iff a target is wider than 64 bits or two branches land and one of them forward |
| HotLoop.WellFormedNeverCrashes | src/nvidia/sass.rs:141-202 | with ascending addresses and targets within 64 bits nothing fails |
| HotLoop.LoopMix | src/nvidia/sass.rs:188-202 | for any functions: counts equal the uses in the hot-loop bodies of those the kernel names and total their length; it panics iff one of those cannot be searched or its body is a range that runs backward |
| Census.Counter.Add | src/nvidia/projection.rs:128-134 | only that op's count grows, first-seen order and distinctness are kept |
| Projection.FoldAll | src/nvidia/projection.rs:207-286 | the accumulators equal the per-axis sums of count times unit cost, pipes in first-use order |
| Projection.Project | src/nvidia/projection.rs:193-323 | the whole result is that of the demand vector built from those sums, with labels and default markers, or nothing when an entry or the budget is unusable |
| Projection.PartsSplit | src/nvidia/projection.rs:208-209 | the parts of a mnemonic hold no dot and joined by dots give it back |
| Projection.SplitsOnce | src/nvidia/projection.rs:208-209 | and no other parts do |
| Projection.ControlOpProjects | src/nvidia/projection.rs:208-213 | n control ops alone load nothing but issue, at four a cycle |
| Projection.GlobalOpProjects | src/nvidia/projection.rs:214-235 | n global loads or stores move 32 times their width each against the resolved budget; the width is that of the last part with one, else four |
| Projection.NoBudgetProjectsNothing | src/nvidia/projection.rs:169-175 | bytes without a usable budget give no result |
| Projection.SharedOpProjects | src/nvidia/projection.rs:216-217 | n shared loads or stores take half their width in cycles each |
| Projection.MatrixOpProjects | src/nvidia/projection.rs:218-229 | n matrix loads take two cycles for each of their one, two or four matrices |
| Projection.LocalOpProjects | src/nvidia/projection.rs:230-231 | n local ops load nothing but issue and are flagged |
| Projection.MeasuredOpProjects | src/nvidia/projection.rs:238-265 | n measured ops take n over the rate of their shape row, else base row, on its pipe or that of the base; flagged iff a shape has no row |
| Projection.UnmeasuredOpProjects | src/nvidia/projection.rs:266-276 | n ops without a row are flagged and issue two a cycle on fma and alu, one in two cycles on every other pipe |
| Projection.BadRateProjectsNothing | src/nvidia/projection.rs:256-258 | a measured rate that is not a positive number gives no result |
| Projection.PpmIsLargestLoad | src/nvidia/projection.rs:193-323 | projected cycles are the largest load over all pipes, shared memory, bytes and issue |
| Projection.AdditiveIsAllWork | src/nvidia/projection.rs:299-323 | the additive cycles are the load of all pipes taken as one plus shared memory and bytes, or issue when these are zero, however ops spread over pipes |
| Projection.ProjectDependsOnCountsOnly | src/nvidia/projection.rs:193-323 | reordering or splitting census entries changes neither the projected nor the additive cycles (the bound named, the order of the pipes and of the defaulted ops may change) |
| Projection.ProjectIsMonotone | src/nvidia/projection.rs:193-323 | counting more of any op never lowers the projected cycles, even when it brings the first memory traffic and with it another budget |
| Projection.ProjectScalesWithWarps | src/nvidia/projection.rs:193-323 | projected and additive cycles are linear in the number of warps |
| Telemetry.RunClockGhz | src/telemetry.rs:38-49 | the upper median of the derivable clocks, refused iff there is none or it is outside the band |
| Telemetry.DerivedClockIff | src/telemetry.rs:144-155 | a record has a clock iff it has cycles and a span, and the clock times its own span is its cycles |
| Telemetry.RunClockIgnoresWalls | src/telemetry.rs:144-155 | host walls attached to any records never move the run clock |
| Telemetry.RunClockIsMedianInBand | src/telemetry.rs:38-49 | the run clock is the median iff that lies between 0.4 and 3.5 GHz, else there is none |
| Telemetry.MedianIsUnique | src/telemetry.rs:38-49 | that description leaves exactly one median |
| Telemetry.RunClockWithinIff | src/telemetry.rs:31-49 | an interval of the band holds the run clock iff there is a derivable clock, at most half of them are below it and fewer than half above |
| Telemetry.ConsensusResistsCorruption | src/telemetry.rs:31-49 | a strict majority of clocks in an interval of the band puts the run clock there, whatever the other records claim |
| Telemetry.CorruptionToleratedIff | src/telemetry.rs:31-49 | k corrupt clocks among n, wherever they stand and whatever they read, cannot move the median out of the interval of the others iff 2k < n |
| Telemetry.HalfOutvotesTheRest | src/telemetry.rs:38-49 | for every n and k with 2k at least n, k copies of any faster record in the band set the run clock against the others |
| Telemetry.HalfIsNotEnough | src/telemetry.rs:38-49 | concrete records where half of the clocks is outvoted |
| Telemetry.EffectiveClockStaysWithRun | src/telemetry.rs:161-181 | every record's clock is positive and within five percent of the run clock, which bounds bytes per cycle both ways |
| Telemetry.EffectiveClockChoice | src/telemetry.rs:156-181 | the clock used is the record's own within five percent of the run's and the run's otherwise; bytes per cycle times it are the peak rate |
| Telemetry.AchievedRateMeaning | src/telemetry.rs:119-139 | the achieved rate moves the bytes in the longer of wall and span |
| Telemetry.RooflineOkIff | src/telemetry.rs:134-145 | a record passes iff the peak rate moves its bytes within its wall, the peak included |
| Telemetry.WallLowersRateUnlessSpanless | src/telemetry.rs:115-139 | the host wall does not raise the achieved rate iff the record has a span, no bytes, or no wall; with a span it never causes a roofline reject |
| Telemetry.SpanlessWallRejects | src/telemetry.rs:115-139 | concrete record whose wall raises the rate into a roofline reject |
| Telemetry.OverlapFractionMeaning | src/telemetry.rs:251-263 | symmetric, positive iff spans share time, one iff one span lies inside the other |
| Telemetry.OverlapFractionIsShare | src/telemetry.rs:251-263 | the fraction of the nanoseconds the shorter record runs is the number in which both run |
| G6.FormatKeepsValue | src/nvidia/pyfmt.rs:17-57 | the string denotes exactly sign, six digits and exponent in every layout |
| G6.LayoutIsMinimal | src/nvidia/pyfmt.rs:26-51 | exponent form exactly outside [-4, 6), behind one nonzero digit, with a sign and exactly two exponent digits below 100 and no leading zero above; a point exactly when digits follow, no zero leading the whole part or ending the fraction, at most six significant digits |
| G6.FormatIsInjective | src/nvidia/pyfmt.rs:17-57 | no two rounded floats print alike, the two zeros, infinities and NaN included |
| G6.OtherForms | src/nvidia/pyfmt.rs:17-25 | the forms of the zeros, the infinities and NaN |
| Validity.StandingIsDecidedByClaims | src/validity.rs:60-96 | a tree of any shape is certified iff every claim is measured at its anchor and every composite re-anchored, refused iff some claim is a guess, and never above any claim |
| Validity.ComputedFit | src/validity.rs:217-250 | out of domain iff not covered; at anchor iff covered and every query pair is one of equally many anchor pairs |
| Validity.InBoundIffAdmitted | src/validity.rs:223-238 | a range admits exactly the numbers of its closed interval, an exact bound the values that mean the same |
| Validity.ClaimIsTrueIff | src/validity.rs:241-249 | a query that passes the anchor comparison supplies every anchor coordinate iff it names as many different coordinates as the anchor, whatever keys either repeats |
| Validity.DistinctKeysDecideTheClaim | src/validity.rs:241-249 | for an anchor without repeated keys, it does iff the query repeats no key; an anchor that repeats a key is only ever claimed by a query that does |
| Validity.FullDomainSecuresTheAnchor | src/validity.rs:217-250 | an anchor fit is at the anchor whenever the domain asks for every axis of an anchor without repeated keys |
| Validity.RepeatedKeyPassesForAnchor | src/validity.rs:241-249 | a family of queries with a repeated key that fit the anchor without reaching it |

## Left out

- Rounding, NaN and infinities of floats: demands, rates, clocks and axis values are reals; a rate or budget that is not a positive number, or a division by zero, makes the modelled function return no result.
- Number parsing and the six-digit rounding of `{:.5e}`: their results are inputs.
- 64-bit overflow of instruction counts and of byte products in the census: counts are unbounded.
- Multiplication overflow of `registers * 32` in release mode, where it wraps: it is the outcome `None`.
- The concrete mnemonic tables of src/nvidia/projection.rs: they are parameters, so the results hold for any tables.
- HotLoop.LoopMix: starts from parsed functions; the splitting of the text into functions and lines around the scanner is not part of it.
- `function_name`, `parse_functions`, `census_per_kernel` and `census_csv`: line splitting and text layout around the scanner.
- UTF-8 validity of pattern and SASS text: all byte strings are covered.
- `OpComposition`, `Precision` and `unrolled_registers`: single sums, products and maxima.
- `measured_steady_state`, `measured_bottleneck`, `gate_op` and `parse_tele_counted`: classification and file layout over the modelled conversions.
- `parse_registry` and `parse_kv`: the registry row enters as parsed pairs and bounds.
- The comparison and check drivers, command line, process spawning and file access.
