# ClickTrics verification

A Dafny model of the parts of ClickTrics where rows, counters and versions are computed, with proofs about them.
`dafny verify dfyconfig.toml` checks everything.

## What is modelled

**The row pipeline.** Collector loops tick on their own cadence and hand batches to the ClickHouse exporter, which
keeps one bounded, drop-oldest buffer per table; a single flush loop snapshots all buffers, ships the tables in
parallel, and drains once more when the exporter is closed.

- `Sample.dfy` has the batches, with the loops of `MultiBatch`.
- `GoSlice.dfy` and `ClickHouseExporter.dfy` have the buffers as the program has them: slices on the heap that are
  resliced, appended to in place, and handed to a flush. Ownership of backing arrays is explicit: an array is either
  live (one table's buffer may write to it) or frozen (a flush may read it at any later time).
- `Queue.dfy` has the same buffers as values. Both the heap class and the pipeline machine are tied to it, so the heap
  exporter refines the exporter half of every pipeline run (`Refinement.dfy`).
- `Runner.dfy` has one collector loop, as a machine and as the loop it is.
- `Pipeline.dfy` is the interleaved machine: any number of collectors, enqueues one critical section per part, flush
  snapshots, per-table completions in any order, cancellation, `Run` returning, and any number of callers of `Close`.
  What the environment decides is part of the action, so every theorem about `Exec(cfg, run)` is about all schedules,
  all collected batches and all outcomes of shipments.
- `Ledger.dfy` follows one table: accepted rows are positions in a sequence, and each has exactly one fate.
  `Accounting.dfy`, `Siblings.dfy` and `Shutdown.dfy` hold the theorems over whole runs, and `Delivery.dfy` and
  `Shutdown.dfy` say what can always still be reached.
- `Stdout.dfy` has the JSON-lines exporter, to compare with.

**The parser of `/proc/net/snmp` and `/proc/net/netstat`** (`NetTcp.dfy`, over `Words.dfy` and `Decimal.dfy`): the
method with its backward header search, a declarative meaning down to the characters of a line (which words it has, and
which of them are unsigned 64-bit numerals), independence of protocols, and a round trip. A line with
a colon and only white space after it makes the program panic, and the outcome says so instead of excluding the input.

**Counter deltas**: per-core CPU shares (`CpuStat.dfy`), MSR frequencies (`Msr.dfy`) and RAPL power (`Rapl.dfy`), each
with its own baseline rule. Each module runs its class over any sequence of readings, failed ones included, and proves
what the rows of such a run add up to.

**Versions and the update warning** (`Version.dfy`, `UpdateChecker.dfy`).

## Where the code and its documentation differ

The model follows the code. Each difference is a lemma.

- PLAN.md:177-179 says that the CPU and MSR energy collectors detect decreasing counters and take the tick as a new
  baseline rather than emit negatives. `deltaRow` emits a row all the same. Its shares are percentages if and only if
  its total is zero or all counters moved the same way (`CpuStat.SharesArePercentagesIff`). So a decrease is visible, as
  a negative share, exactly when other counters increased and the deltas do not cancel out (`CpuStat.DecreaseShowsIff`,
  with `CpuStat.ADecreaseShowsAsNegative` an instance); a core whose counters all restarted looks like one that ran
  (`CpuStat.ARestartLooksLikeLoad`). `readPackage` takes a decrease for a wrap and reports power for it.
- internal/collector/cpu/power_linux.go:198 speaks of 32-bit counters that wrap, but the wrap branch works modulo 2^64.
  `Rapl.DeltaIsEnergyIff` says exactly when a delta is still the energy used, `Rapl.PowerIsEnergyUsedIff` when the rows
  of a run are, and `Rapl.AWrapIsNotTheEnergy` what one wrap does. The 32-bit width is that of the total-energy-consumed field (Intel SDM, Volume 3B, "Package RAPL Domain").
- internal/version/version.go:145-146 says that `v0.0.0-dev` is a dev build. It parses, and is compared like any other
  version: `Version.SuffixNeverMatters`, `Version.DevBuildIsOutdated`.
- The comment at internal/sample/sample.go:41-43 has MultiBatch carry parts for several tables, and the ClickHouse
  exporter opens one level of it. `Sample.RowsKeepTablesIff` says exactly when each row gets to its own table.
- `Send` has no closed check, so that `Close` leaves nothing behind rests on the order in which `run` calls it.
  `Shutdown.CloseDrainsIffNothingLate` is the exact condition, `Shutdown.CloseFirstStrandsARow` a run that violates it.

## Model

| member | source | states |
|---|---|---|
| Sample.Len | internal/sample/sample.go:50-56 | the length of any batch, nested or not, is the number of rows its parts concatenate to |
| Sample.At | internal/sample/sample.go:58-67 | row i of any batch is element i of that concatenation, and nil past the end of a multi batch |
| Sample.FanoutKeepsRows | internal/exporter/clickhouse/clickhouse.go:135-145 | the parts that Send enqueues one by one carry exactly the rows At enumerates, in the same order |
| Sample.RowsKeepTablesIff | internal/exporter/clickhouse/clickhouse.go:135-151 | each row is enqueued under its own typed batch's table if and only if no part with rows is itself a multi batch |
| Stdout.Exporter.Send | internal/exporter/stdout/stdout.go:35-47 | writes one line per row of the longest prefix before cancellation or an encoding error, reports which of the two stopped it, and at most a part of one line more when the writer failed, after which nothing is written |
| Stdout.WritesWhatClickHouseEnqueues | internal/exporter/stdout/stdout.go:35-47 | the rows written are those the ClickHouse exporter enqueues part by part, in order, or the first k of them when stopped |
| GoSlice.Append | internal/exporter/clickhouse/clickhouse.go:162 | append extends what the slice shows by one row, in the shared array if capacity is left and in a fresh one otherwise |
| ClickHouseExporter.AppendRow | internal/exporter/clickhouse/clickhouse.go:157-162 | one round of the loop keeps the newest rows within the queue size and slides the window exactly when it was full |
| ClickHouseExporter.AppendRows | internal/exporter/clickhouse/clickhouse.go:155-163 | the one-row-at-a-time loop leaves the newest min(Q, old+n) rows of old ++ batch and slides max(0, old+n-Q) times, also for batches larger than Q |
| ClickHouseExporter.Exporter.constructor | internal/exporter/clickhouse/clickhouse.go:60-105 | a new exporter has no buffers and a positive queue size, 100000 unless configured |
| ClickHouseExporter.Exporter.Enqueue | internal/exporter/clickhouse/clickhouse.go:147-166 | changes one table's buffer and drop counter as the value queue says, and no array that a flush holds |
| ClickHouseExporter.Exporter.Send | internal/exporter/clickhouse/clickhouse.go:135-145 | enqueues a multi batch's parts one after another, and any other batch as it is |
| ClickHouseExporter.Exporter.Snapshot | internal/exporter/clickhouse/clickhouse.go:197-206 | hands over exactly the non-empty buffers, empties all, and from then on the handed arrays are frozen |
| ClickHouseExporter.Exporter.TakeAll | internal/exporter/clickhouse/clickhouse.go:199-205 | the loop takes each non-empty slice once, leaves nil in its place and nothing else |
| ClickHouseExporter.Replay | internal/exporter/clickhouse/clickhouse.go:147-206 | after any stretch of sends and flushes, every slice ever handed out, looked at only at the end, still shows the rows of its snapshot; buffers and counters match the value model |
| Queue.PushEachKeepsNewest | internal/exporter/clickhouse/clickhouse.go:156-163 | dropping the oldest before every single append leaves the newest min(Q, old+n) rows of old ++ batch |
| Queue.EffectiveSizeIs | internal/exporter/clickhouse/clickhouse.go:67-69 | a positive queue size is the one used, and 100000 otherwise |
| Runner.BudgetIsExact | internal/collector/runner.go:74-119 | in any run of a loop, calls never pass the shortest outcome sequence whose failure streak reaches the budget, only that disables it, and fails is the current streak |
| Runner.TickObeysBudget | internal/collector/runner.go:107-118 | a waiting loop that is woken collects again if its budget allows and is disabled otherwise, whatever its history |
| Runner.DisabledAfterExactlyBudget | internal/collector/runner.go:107-118 | with a positive budget B a disabled loop's calls end in exactly B failures, for the first time |
| Runner.StreakMeaning | internal/collector/runner.go:79-88 | the streak is at least n exactly when the last n outcomes all failed |
| Runner.CallsIsShortest | internal/collector/runner.go:107-118 | the number of calls a stream allows is its shortest budget-exhausting prefix, or all of it |
| Runner.Tick | internal/collector/runner.go:75-99 | one failure adds one to fails, any success resets it, and exactly the non-empty batches are sent |
| Runner.RunCollector | internal/collector/runner.go:61-120 | the loop makes exactly those calls, sends exactly the non-empty batches they returned, and export errors change nothing |
| Runner.LoopIsTheMachine | internal/collector/runner.go:61-120 | on the events that its wakeups induce, the machine makes as many calls as the loop, with the same failure count, emitted rows and end |
| Runner.MachineIsTheLoop | internal/collector/runner.go:61-120 | conversely, every run of the machine that is not inside a call is the loop's, on some results and wakeups |
| Runner.EffectiveBudgetIs | internal/collector/runner.go:38-40 | only a zero error budget is replaced, by ten |
| Siblings.ProjectionIsARun | internal/collector/runner.go:46-54 | any interleaving seen from one collector is a run of its own loop, ending in the same state |
| Siblings.BudgetIsExactAmongSiblings | internal/collector/runner.go:31-59 | the error budget is exact for every collector of a concurrent run |
| Siblings.SiblingsAreIrrelevant | internal/collector/runner.go:31-33 | two runs with the same events of one collector leave it in the same state, whatever its siblings do |
| Siblings.RunReturnsLast | internal/collector/runner.go:56-58 | once Run has returned the context is done and every loop has ended |
| Siblings.NeverHeldUp | internal/collector/runner.go:46-54 | any step that a loop could take alone it can take in any interleaving |
| Siblings.EndsOnSignalOnly | internal/collector/runner.go:107-112 | a waiting loop may end on a done context if and only if a signal has come |
| Ledger.AcceptTracks | internal/exporter/clickhouse/clickhouse.go:155-164 | accepting rows keeps buffer, drop counter and history in agreement |
| Ledger.TakeTracks | internal/exporter/clickhouse/clickhouse.go:199-205 | so does a snapshot |
| Ledger.SettleTracks | internal/exporter/clickhouse/clickhouse.go:224-232 | so does the end of a shipment, which never puts rows back |
| Ledger.RowsAccountedFor | internal/exporter/clickhouse/clickhouse.go:147-236 | buffer, batch in flight, delivered and lost batches are exactly the accepted rows of each fate, in order; the drop counter counts the rest |
| Ledger.RowsConserved | internal/exporter/clickhouse/clickhouse.go:147-236 | each row occurs among the accepted ones as often as over all fates together |
| Ledger.BatchesInOrder | internal/exporter/clickhouse/clickhouse.go:197-236 | batches are non-empty, disjoint, contiguous and in order of acceptance |
| Pipeline.EnqueueKeepsTables | internal/exporter/clickhouse/clickhouse.go:147-166 | an enqueue by any sender keeps every table's account |
| Pipeline.SnapshotKeepsTables | internal/exporter/clickhouse/clickhouse.go:197-210 | so does a flush snapshot, empty or not |
| Pipeline.SettleKeepsTables | internal/exporter/clickhouse/clickhouse.go:215-235 | so does each per-table completion, in any order |
| Pipeline.RunKeepsTables | internal/exporter/clickhouse/clickhouse.go:147-236 | the account of every table holds in every reachable state |
| Accounting.RunAccountsForRows | internal/exporter/clickhouse/clickhouse.go:147-236 | in every reachable state each accepted row of each table has one fate, and every place shows exactly its rows in order |
| Accounting.RunConservesRows | internal/exporter/clickhouse/clickhouse.go:147-236 | none is lost unaccounted for and none is duplicated, for any senders and any order of completions |
| Accounting.RunKeepsOrder | internal/exporter/clickhouse/clickhouse.go:175-235 | the live buffer is the tail of the accepted rows, within the queue size; snapshots are ordered contiguous runs before it, and no earlier batch of a table is still in flight |
| Accounting.FatesOnlyAdvance | internal/exporter/clickhouse/clickhouse.go:226-232 | between any two moments an accepted row keeps its place, and shipped, failed and dropped are final |
| Accounting.DroppedOnlyBeyondQueue | internal/exporter/clickhouse/clickhouse.go:155-163 | a row is dropped only when at least as many rows as the queue holds were accepted after it |
| Delivery.BufferedRowsCanSettle | internal/exporter/clickhouse/clickhouse.go:175-235 | every buffered row can still be shipped, and can still be lost, by a bounded number of moves of the periodic flush alone |
| Accounting.EmittedIsAccepted | internal/collector/runner.go:91-98 | what a collector counted as emitted is, row by row and in order, what its sends enqueued plus what its current send has left |
| Accounting.TotalsAgree | internal/collector/runner.go:91-98 | the emitted total equals the accepted total over all tables plus what sends in progress have left |
| Refinement.RunIsAReplay | internal/exporter/clickhouse/clickhouse.go:147-206 | buffers, counters and batches in flight of any pipeline run are those of its critical sections replayed, which is what the heap exporter implements |
| Shutdown.StopChannelClosedOnce | internal/exporter/clickhouse/clickhouse.go:169-173 | any number of Close calls closes the stop channel once, and the first one does |
| Shutdown.NoFlushAfterConnectionClosed | internal/exporter/clickhouse/clickhouse.go:169-195 | after any Close has closed the connection no snapshot is taken and no shipment ends |
| Shutdown.CloseDrainsIffNothingLate | internal/exporter/clickhouse/clickhouse.go:135-173 | after Close the buffers are empty if and only if no part was enqueued after the final snapshot |
| Shutdown.DrainIsNeverStuck | internal/exporter/clickhouse/clickhouse.go:175-195 | after the stop signal the flush loop always has a move until it has closed doneCh |
| Shutdown.SettleShrinks | internal/exporter/clickhouse/clickhouse.go:215-235 | every shipment that ends, either way, leaves one less in flight and brings the end of Close closer |
| Shutdown.CloseCanReturn | internal/exporter/clickhouse/clickhouse.go:169-195 | from any state after the stop signal, a bounded number of moves of the flush loop, the shipments and the callers stops the loop and lets every waiting Close return, whatever else stands still |
| Shutdown.StopsAfterRun | cmd/clicktrics/main.go:153-173 | when Close comes only after Run has returned, nothing is ever enqueued late |
| Shutdown.ShutdownIsComplete | cmd/clicktrics/main.go:153-173 | then, once Close returns, all loops have ended, buffers are empty, nothing is in flight, all emitted rows were enqueued, and every accepted row is shipped, lost or dropped, for any number of collectors |
| Shutdown.ShutdownCanComplete | cmd/clicktrics/main.go:153-173 | from every state of a run that keeps this order, a bounded number of moves (signal, loop steps, Run's return, Close and what lets it return) reaches a returned Close in that order |
| Shutdown.UnclosedShutsDown | cmd/clicktrics/main.go:153-173 | in particular from every run without any Close |
| Shutdown.SignalIsSeen | internal/collector/runner.go:56-112 | right after a signal the context is done and every waiting loop may end |
| Shutdown.StateRemembers | cmd/clicktrics/main.go:153-173 | signals, Run's return and calls of Close are in force exactly once they have happened, and as often |
| Shutdown.AnIdleShutdown | internal/collector/runner.go:42-58 | an instance: with no collectors, a signal, Run's return and a draining Close |
| Shutdown.CloseFirstStrandsARow | internal/exporter/clickhouse/clickhouse.go:135-173 | without that order a row can be accepted into a buffer nothing will flush |
| Words.FieldsOfTrimmed | internal/collector/nettcp/nettcp.go:136-137 | trimming and splitting gives back words that were joined with spaces |
| Words.FieldsMeaning | internal/collector/nettcp/nettcp.go:137 | the words found are exactly those that white space separates in the string |
| Words.SpacesAre | internal/collector/nettcp/nettcp.go:136-137 | white space is that of the Unicode standard, character by character |
| Decimal.ParseUintMeaning | internal/collector/nettcp/nettcp.go:140-162 | a token has a value if and only if it is one or more digits, leading zeros included, that read from left to right to a number below 2^64, and the value is that number |
| Decimal.AtoiMeaning | internal/version/version.go:191-203 | the same for signed numerals of 64 bits |
| Decimal.FormatIsShortest | internal/collector/nettcp/nettcp.go:162 | a formatted number has no leading zero and no sign but a needed minus |
| Words.NoFieldsIff | internal/collector/nettcp/nettcp.go:136-137 | no words are left exactly of strings of white space |
| Decimal.ValueOfFormat | internal/collector/nettcp/nettcp.go:162 | reading a formatted number gives the number |
| NetTcp.LatestHeaderMeaning | internal/collector/nettcp/nettcp.go:145-152 | the most recent header is a header of the protocol with none of that protocol after it |
| NetTcp.FindHeader | internal/collector/nettcp/nettcp.go:145-152 | the backward search finds it |
| NetTcp.Store | internal/collector/nettcp/nettcp.go:161-167 | the inner loop overlays the parseable tokens |
| NetTcp.OverlayMeaning | internal/collector/nettcp/nettcp.go:161-167 | within a line the last token of a field that is an unsigned 64-bit numeral wins, and a field without one keeps what it had |
| NetTcp.ParseProtoPairs | internal/collector/nettcp/nettcp.go:120-170 | over any lines, panics when the specification does and otherwise gives the specified tables |
| NetTcp.PanicsIff | internal/collector/nettcp/nettcp.go:130-140 | that is, panics exactly when some line has a colon and only white space, if anything, after it |
| NetTcp.ABareProtocolPanics | internal/collector/nettcp/nettcp.go:136-140 | an instance: a line that is only a protocol name and a colon |
| NetTcp.ClassifyMeaning | internal/collector/nettcp/nettcp.go:130-143 | a line without a colon is ignored; another gives its protocol and words, values if the first word is an unsigned 64-bit numeral and field names otherwise |
| NetTcp.TablesMeaning | internal/collector/nettcp/nettcp.go:129-168 | each protocol and field holds the last unsigned 64-bit numeral of a data line that fits its protocol's most recent earlier header, and nothing if there is none |
| NetTcp.ANegativeValueIsSkipped | internal/collector/nettcp/nettcp.go:161-165 | an instance: of RtoMax 120000 and MaxConn -1 only RtoMax is kept |
| NetTcp.ProtocolsDoNotMix | internal/collector/nettcp/nettcp.go:129-168 | one protocol's table depends on that protocol's lines only |
| NetTcp.RoundTrip | internal/collector/nettcp/nettcp.go:120-170 | printing sections and parsing them back never panics and gives exactly their tables if and only if no first field name is a number; otherwise exactly those sections are lost |
| CpuStat.Collector.Collect | internal/collector/cpu/cpu.go:78-126 | exactly one row for each core in both this reading and the last successful one, computed from those two; a failed reading changes nothing |
| CpuStat.SharesArePercentages | internal/collector/cpu/cpu.go:130-170 | with counters that do not decrease each share is between 0 and 100 |
| CpuStat.SharesSumToHundred | internal/collector/cpu/cpu.go:143-178 | the ten shares sum to 100, or are all zero when the total is |
| CpuStat.SharesByField | internal/collector/cpu/cpu.go:130-178 | field by field, share times the ten deltas' sum is 100 times the mode's delta, and the ten fields add up to 100 unless that sum is zero |
| CpuStat.GuestTimeCountsTwice | internal/collector/cpu/cpu.go:176-178 | an instance: a core that ran only a virtual machine shows 50 for user and 50 for guest |
| CpuStat.NegativeShareIff | internal/collector/cpu/cpu.go:130-170 | a share is negative exactly when its delta and the total have opposite signs |
| CpuStat.SharesArePercentagesIff | internal/collector/cpu/cpu.go:130-170 | the shares of a row are all between 0 and 100 if and only if its total is zero or its counters all moved the same way |
| CpuStat.DecreaseShowsIff | internal/collector/cpu/cpu.go:130-170 | of counters that decreased a row shows a negative share if and only if others increased and the total is not zero |
| CpuStat.ADecreaseShowsAsNegative | internal/collector/cpu/cpu.go:130-170 | an instance of a visible decrease: one counter falls while another rises by more |
| CpuStat.ARestartLooksLikeLoad | internal/collector/cpu/cpu.go:130-170 | an instance of an invisible one: all counters restart, and the row shows two shares of 50 |
| CpuStat.RecoveredIsDelta | internal/collector/cpu/cpu.go:154-158 | share times total gives the delta back if and only if the total is not zero or the mode did not move |
| CpuStat.SharesTelescope | internal/collector/cpu/cpu.go:85-125 | over any readings with a core present, weighted shares add up to last minus first, short of exactly what zero-total steps missed |
| CpuStat.MonotoneMissesNothing | internal/collector/cpu/cpu.go:85-125 | with counters that do not decrease nothing is missed |
| CpuStat.Run | internal/collector/cpu/cpu.go:78-126 | any number of ticks on one collector: each one's rows follow from its reading and the last successful one |
| CpuStat.OneRowPerSharedCore | internal/collector/cpu/cpu.go:115-125 | in any run a tick has exactly one row for each core present in it and in the last successful tick before it |
| CpuStat.RowsShowShares | internal/collector/cpu/cpu.go:115-178 | every row of every run has its core's number in 16 bits, and the shares, field by field, of what that core counted since the last successful reading |
| CpuStat.EmittedSharesTelescope | internal/collector/cpu/cpu.go:85-125 | the rows that a run emits about a core add up to its last reading minus its first, short of what zero-total steps missed, which is nothing if its counters do not decrease |
| Machine.Sub64IsAdvance | internal/collector/cpu/cpu.go:481-482 | uint64 subtraction gives a counter's true advance below 2^64 |
| Machine.BitsIff | internal/collector/cpu/power_linux.go:108-117 | reading a bit field gives f if and only if the register is laid out with f in that place |
| Msr.ReadCore | internal/collector/cpu/cpu.go:455-506 | temperature, voltage and both frequencies of one reading against its baseline |
| Msr.Context.Sample | internal/collector/cpu/cpu.go:417-511 | exactly the readable CPUs are reported, each against its own last successful read; a missed read keeps the baseline |
| Msr.Run | internal/collector/cpu/cpu.go:417-511 | any number of ticks on one context follows those rules throughout |
| Msr.BaselineIsLastSeen | internal/collector/cpu/cpu.go:477-478 | the baseline of a CPU is always its last successful read |
| Msr.UsedHzTelescopes | internal/collector/cpu/cpu.go:477-490 | summed over successful reads, frequency times elapsed time falls short of the cycles run by less than one per second and never exceeds them |
| Msr.ReportedFrequenciesTelescope | internal/collector/cpu/cpu.go:417-511 | and that holds of what the collector really reports, on every CPU of every run |
| Msr.ReadingsShow | internal/collector/cpu/cpu.go:455-506 | every reading of every run: temperature and voltage off the register's layout, zero frequencies on a first read, and otherwise cycles per second and clock times cycles per reference cycle, rounded down, since the last successful one |
| Msr.RateIsZeroIff | internal/collector/cpu/cpu.go:496-505 | the busy frequency is zero exactly when no reference cycles passed, no clock is known, or it comes to less than one |
| Msr.ReportedBusyTelescopes | internal/collector/cpu/cpu.go:496-505 | over any run, across missed reads, reported busy frequencies times reference cycles add up to the clock times the cycles run, short by less than the reference cycles |
| Rapl.WrapBranchIsSubtraction | internal/collector/cpu/power_linux.go:204-207 | the wrap branch is plain uint64 subtraction |
| Rapl.DeltaIsEnergyIff | internal/collector/cpu/power_linux.go:198-207 | for the 32-bit counter the coded delta is the energy used if and only if it did not wrap, and the delta modulo 2^32 always is |
| Rapl.DeltasOverARun | internal/collector/cpu/power_linux.go:198-213 | over any list of successful reads the modulo-2^32 deltas telescope, and the coded ones exceed them by 2^64 - 2^32 per wrap |
| Rapl.DeltasAgreeIffNoWrap | internal/collector/cpu/power_linux.go:198-213 | the two sums agree if and only if there was no wrap |
| Rapl.AWrapIsNotTheEnergy | internal/collector/cpu/power_linux.go:198-207 | one unit used across a wrap is reported as 2^64 - 2^32 + 1 units |
| Rapl.MicrojoulesAreExact | internal/collector/cpu/power_linux.go:200 | for 32-bit counters the float64 conversion is exactly floor(v * 10^6 / 2^exp), since v * 10^6 stays below 2^53 |
| Rapl.Package.constructor | internal/collector/cpu/power_linux.go:103-119 | the unit register holds the exponent in bits 8:12 and the target register TjMax in bits 16:23, and there is no baseline yet |
| Rapl.OneCalibration | internal/collector/cpu/power_linux.go:108-117 | the two registers' layout leaves no choice of exponent and TjMax |
| Rapl.ACalibration | internal/collector/cpu/power_linux.go:108-117 | an instance: registers 0xA0E03 and 0x640000 give exponent 14 and 100 degrees |
| Rapl.Package.Read | internal/collector/cpu/power_linux.go:192-245 | which reads move the baseline, what the row reports against the old one, the throttle count, and what is written back |
| Rapl.Run | internal/collector/cpu/power_linux.go:192-245 | any number of calls on one package, whichever of their reads fail, follow those rules throughout |
| Rapl.BaselineIsLastSeen | internal/collector/cpu/power_linux.go:201-213 | the baseline is always the last successful energy read |
| Rapl.PowerTelescopes | internal/collector/cpu/power_linux.go:198-213 | the rows of a run, power times time, add up to the energy used plus 2^64 - 2^32 units per wrap, less the deltas of steps in which the clock did not advance, across any failed reads |
| Rapl.PowerIsEnergyUsedIff | internal/collector/cpu/power_linux.go:198-213 | they add up to the energy used if and only if wraps and stalled steps cancel out; with an advancing clock, if and only if there was no wrap |
| Rapl.RowsShow | internal/collector/cpu/power_linux.go:192-243 | every row of every run: energies in microjoules rounded down, power times time as the registers' difference modulo 2^64, temperature and uncore frequency off the registers' layout, zero where a read failed |
| Rapl.ThrottleColumnCounts | internal/collector/cpu/power_linux.go:224-236 | the throttle column of every row of a run is the number of calls so far that found bit 1 of the thermal status set, modulo 2^64 |
| Rapl.ClearsOneBit | internal/collector/cpu/power_linux.go:229-234 | clearing the sticky bit clears that bit and no other |
| Version.ParseSemver | internal/version/version.go:176-205 | the loop and its error returns compute the parse, zeros on failure |
| Version.ParseMeaning | internal/version/version.go:173-205 | the parser accepts exactly the strings that read as three dot-separated numerals after at most one v, the third with any suffix, and gives those numbers |
| Version.FormatThenParse | internal/version/version.go:173-205 | formatting any version in range, with or without v, with any suffix, parses back to it |
| Version.CompareMeaning | internal/version/version.go:145-171 | each status exactly when it should be given: outdated is lexicographic less-than on the parsed numbers |
| Version.CompareReadVersions | internal/version/version.go:148-171 | of two strings that read as versions, outdated exactly if the running one's numbers come first, and current otherwise |
| Version.DevIff | internal/version/version.go:151-153 | dev exactly for a running version that does not read as one |
| Version.UnknownIff | internal/version/version.go:154-156 | unknown exactly for any other against a latest version that does not read as one |
| Version.OutdatedIsAsymmetric | internal/version/version.go:148-171 | no version is outdated against itself, nor two against each other |
| Version.OutdatedIsTransitive | internal/version/version.go:148-171 | outdated is transitive |
| Version.OutdatedIsTotal | internal/version/version.go:148-171 | of two versions that parse, one is outdated against the other unless their three numbers are equal |
| Version.SuffixNeverMatters | internal/version/version.go:145-147 | a suffix never changes the status, and never makes a version-shaped string a dev build |
| Version.DevBuildIsOutdated | internal/version/version.go:145-171 | v0.0.0-dev compares as 0.0.0 with any latest version: outdated below a greater one, current at any other that parses, unknown otherwise |
| UpdateChecker.Checker.Check | cmd/clicktrics/main.go:426-455 | what one check does to the latch, the gauges and the warning count; a failed fetch touches only the success gauge |
| UpdateChecker.Watch | cmd/clicktrics/main.go:424-466 | over any stream of checks, one warning per maximal outdated stretch among the successful ones, and the gauge shows the last of them |

## Left out

- The ClickHouse driver, DSN parsing, preflight and migrations: foreign calls. A shipment is an ok or error outcome.
- The HTTP server, the GitHub fetch, command-line flags, configuration loading, logging and metric registration.
- Opening and reading device and proc files, TSC calibration, and the scanner's line length limit: their results are
  inputs.
- Clocks and timeouts: a loop may be woken at any moment, and timestamps are given.
- The flush loop, Close and the goroutines of Run are a machine on values, since Dafny has no threads; the heap class
  covers the buffers they share, one method per critical section. Channels appear as the flags they change.
- The per-batch metrics of flushes (rows and batches by outcome): they count the delivered and lost batches.
- Float rounding, except for the microjoule conversion: shares, power and frequencies are over reals.
- Shutdown.CloseCanReturn: that a select which keeps choosing the ticker over the stop signal chooses it in the end is
  not modelled, so it says that Close can always return, not that it must. The same goes for Shutdown.ShutdownCanComplete
  and Delivery.BufferedRowsCanSettle, and for calls of Collect and shipments that never end.
- UpdateChecker.Watch: the delay before the first check and the ticker are not modelled.
- Sysfs fallbacks for frequency and temperature, and the other collectors: field copies and repeats of these deltas.
- `version.Set`, `GitHubRepo` and the network half of the update check.
