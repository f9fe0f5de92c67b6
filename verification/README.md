# pgsleuth detection pipeline: a verified model

pgsleuth watches a Postgres server and raises findings. This project models the stateful part of it in Dafny and
proves, for every input history, that each online machine reports what the whole history says it should.

- `Inflight`, `BlockIo`: the kernel side with whole handlers. Block I/O issue and complete handlers share a bounded
  in-flight table and a ring; the bounded table is compared with an unbounded one and with the trace itself.
- `Interleaving`, `Provenance`, `Atomicity`, `Overlap`: the same handlers split into their clock reads and map
  operations, which interleave freely on any number of CPUs. Every value in a run is traced to the step that was given
  it, and every run is compared with the whole handlers, each placed where it takes effect: what is always equal, what
  is equal exactly when, and which overlaps are harmless.
- `FsyncJitter`, `Window`, `Runs`, `Agent`, `ConcurrentAgent`: the loader's fsync-jitter rule, from drained events
  through the P50 and the consecutive-breach counter to a finding, and the whole path from tracepoint to finding, with
  whole and with interleaved handlers.
- `Dominant`, `Checkpoint`: the checkpoint classifier, the dominant-bucket streak and the polling loop over them.
- `StatementDeltas`: the differencing of `pg_stat_statements` counters.
- `Text`, `CpuStat`, `Throttle`: the `cpu.stat` parser and the cgroup-throttle rule.
- `TempSpill`, `SpillDedup`: the temp-spill capacity latch and the de-duplication of spill events.
- `Words`, `DeviceNumber`, `VfsFilter`: the device filter from `st_dev` to the kernel, down to the shifts and masks,
  and the process filter.
- `Machine`, `Sums`: fixed-width arithmetic and the sums the specifications use.

Objects the program updates in place are classes here. Each carries a ghost history of its inputs, its invariant ties
the real fields to functions of that history, and its methods' results are stated on the history. `main` loops are
methods called once per step. Clock readings, failed reads, ring-full outcomes and poll results are parameters.
Doubles are reals.

Verify with `dafny verify dfyconfig.toml --resource-limit 2000000`. Automatic induction is off on every lemma: each
induction is written out as a call in the proof.

Where the code and its comments differ, the model follows the code:

- The comment on `DominantStreak` says an unclassified tick re-arms it; the code and its test leave it unchanged
  (`Dominant.UnclassifiedIsStutter`).
- The comment on `PrevCumulative` calls it per-query state, but the table is keyed by `queryid` alone while the view
  has a row per user and database. A poll that repeats the one before it should emit nothing;
  `StatementDeltas.RepeatedPollIff` shows that this holds exactly when all rows of the `queryid` agree,
  `StatementDeltas.RepeatedPollEmits` gives the amount emitted otherwise, and `StatementDeltas.SharedQueryidOvercounts`
  a poll where it is not 0.
- The comment on completions expects only unmatched ones to be dropped. With overlapping completions of one key this
  fails: `Overlap.OverlapDoubleCounts` gives a run with two events for one issue. `Atomicity.InterleavedRunIsAtomicIff`
  shows that the matches are those of whole handlers exactly when every completion removes the entry it has read, and
  `Atomicity.InterleavedIssuesConserved` with `Atomicity.NothingGoneIff` that issues and events balance exactly when
  every completion finds an entry to remove.

## Model

| member | source | states |
|---|---|---|
| Atomicity.InterleavedRunIsAtomicIff | crates/pgsleuth-ebpf/src/main.rs:218-318 | Any interleaved run against whole handlers (issues placed at their insert, hits at their remove, misses at their get): the tables are equal; all matches are equal if and only if every completion removes the entry it has read; the submitted ones are if and only if every submitted completion does, and then the rings hold the same events |
| Atomicity.TableIsAtomic | crates/pgsleuth-ebpf/src/main.rs:218-292 | At every point of every run, whatever overlaps, the table is that of the whole handlers placed before it |
| Atomicity.InterleavedNoStale | crates/pgsleuth-ebpf/src/main.rs:204-227 | So no interleaved run ever stores a stale timestamp: it is that of the last issue of the key to take effect, and was read from the clock by an issue of that key |
| Atomicity.InterleavedIssuesConserved | crates/pgsleuth-ebpf/src/main.rs:227-318 | In every interleaved run, issues that returned + removes that found nothing = events in the ring + lost to a full ring + still to be submitted + overwritten + dropped by a full table + still in it |
| Atomicity.NothingGoneIff | crates/pgsleuth-ebpf/src/main.rs:286-292 | The issues alone balance if and only if every remove finds an entry |
| Overlap.NoWriteIsEnough | crates/pgsleuth-ebpf/src/main.rs:286-292 | If no handler writes a key between another's get and remove of it, every completion removes what it has read |
| Overlap.NoOverlapIsEnough | crates/pgsleuth-ebpf/src/main.rs:281-292 | If handlers for the same key never overlap, no key is written between another handler's get and remove |
| Overlap.NonOverlappingRunIsAtomic | crates/pgsleuth-ebpf/src/main.rs:218-318 | In that case the table, the submitted matches and the ring's events are those of whole handlers and the issues balance |
| Overlap.OverlapDoubleCounts | crates/pgsleuth-ebpf/src/main.rs:286-292 | For every key and every filter that passes it, two completions overlapping between get and remove put two events in the ring for the one accepted issue, although the whole handlers emit at most one |
| Interleaving.RealTimeOrder | crates/pgsleuth-ebpf/src/main.rs:194-321 | The equivalent order keeps real time: a handler that returned before another began comes before it |
| Interleaving.OneEffectEach | crates/pgsleuth-ebpf/src/main.rs:224-292 | Each handler appears in that order exactly once, from the step in which it takes effect on |
| Provenance.HandlerIsItsTrail | crates/pgsleuth-ebpf/src/main.rs:194-321 | In every run, where a handler is and the key, payload, clock readings and ring outcome it holds are exactly those its own steps were given, each step taken once and in program order |
| Provenance.NeverBlocked | crates/pgsleuth-ebpf/src/main.rs:194-321 | A handler can take a step exactly until it has returned, in every state and for every clock reading and ring outcome; a get misses exactly when the key is not in the table |
| Provenance.StampsAreReadings | crates/pgsleuth-ebpf/src/main.rs:224-292 | Every timestamp in the table, and every one a completion has read, is what some issue of that key read from the clock |
| Provenance.OpsAreTrails | crates/pgsleuth-ebpf/src/main.rs:194-321 | The whole handlers the run is compared with carry those same keys, payloads, readings and outcomes |
| Provenance.LatencyIsExact | crates/pgsleuth-ebpf/src/main.rs:294-295 | If no completion reads an earlier time than was read before it, then in any run, overlapping or not, no latency is clamped: it is what the completion's clock step read minus what an issue of its key read |
| Inflight.IdealIsOutstanding | crates/pgsleuth-ebpf/src/main.rs:224-292 | The unbounded table holds exactly the keys whose last accepted step is an issue, with that issue's time |
| Inflight.BoundedRefinesIdeal | crates/pgsleuth-ebpf/src/main.rs:31-39 | The bounded table is always a submap of the unbounded one and never exceeds its capacity |
| Inflight.NoStaleTimestamps | crates/pgsleuth-ebpf/src/main.rs:204-227 | A stored key maps to the time of its most recent accepted issue, with no completion since, and its device passes the filter |
| Inflight.MatchesAreIdeal | crates/pgsleuth-ebpf/src/main.rs:286-295 | Whatever the bounded table matches, the unbounded one matches identically; the latter matches a completion exactly when its request is outstanding, with that issue's time |
| Inflight.NothingDroppedIff | crates/pgsleuth-ebpf/src/main.rs:35-39 | No issue is dropped over a trace if and only if the number of outstanding requests never exceeds the capacity on any prefix; then the tables are equal |
| Inflight.KernelDropsNothingIff | crates/pgsleuth-ebpf/src/main.rs:37-39 | For the program's map that capacity is 8192 requests |
| Inflight.FitsLosesNothing | crates/pgsleuth-ebpf/src/main.rs:35-39 | In that case every completion is matched as the unbounded table would match it |
| Inflight.IssuesConserved | crates/pgsleuth-ebpf/src/main.rs:227-318 | Accepted issues = events submitted + lost to a full ring + overwritten + dropped by a full table + still in flight, for every trace |
| Inflight.FateOfIssue | crates/pgsleuth-ebpf/src/main.rs:224-295 | What becomes of each accepted issue: never matched if dropped; otherwise matched with its own time by a completion that comes next for its key, replaced by an issue that comes next, or still stored |
| Inflight.EventIs | crates/pgsleuth-ebpf/src/main.rs:172-318 | What a match reports: its device, 512 bytes a sector capped at u32::MAX, the latency floored at 0, and each operation class exactly by the flags, unreadable ones being Other |
| Inflight.Correlator.BlockRqIssue | crates/pgsleuth-ebpf/src/main.rs:196-227 | The handler as written keeps the table equal to that of the extended trace: early returns, best-effort insert, overwrite when full |
| Inflight.Correlator.BlockRqComplete | crates/pgsleuth-ebpf/src/main.rs:260-321 | The handler as written keeps the table, and drained events plus ring, equal to those of the extended trace |
| Agent.SubmittedWritesAccounted | crates/pgsleuth-ebpf-loader/src/main.rs:472-500 | The write latencies submitted to the ring are, in order and each once, those of the ticks' intervals, those pending, and those still in the ring |
| Agent.DrainInto | crates/pgsleuth-ebpf-loader/src/main.rs:475-487 | The latency arm hands every waiting event to the rule in order and empties the ring |
| Agent.FsyncAgent.OnTick | crates/pgsleuth-ebpf-loader/src/main.rs:489-526 | From tracepoints to finding: a tick yields a finding exactly when it ends a run of exactly max(1, N) slow intervals of what the kernel submitted and the loader drained |
| ConcurrentAgent.RingAtPointIff | crates/pgsleuth-ebpf/src/main.rs:281-318 | At any point of an interleaved run whose submitted completions remove what they have read, the ring holds the events of the whole handlers placed so far if and only if no completion that will submit is between its remove and its submit |
| ConcurrentAgent.OutcomesAreAtomic | crates/pgsleuth-ebpf-loader/src/main.rs:472-526 | For such a run cut by any drains and ticks, the drains deliver what they would with whole handlers if and only if each happens at such a point; then every tick sees the same samples, and the same outcomes and evidence are right, as with whole handlers |
| FsyncJitter.P50 | crates/pgsleuth-ebpf-loader/src/main.rs:189-196 | None exactly on no samples; otherwise a sample with at most n/2 samples below it and more than n/2 not above it |
| FsyncJitter.MedianRankLaw | crates/pgsleuth-ebpf-loader/src/main.rs:195-195 | That sample exceeds t exactly when at least n - n/2 samples exceed t |
| FsyncJitter.MedianOfPermutation | crates/pgsleuth-ebpf-loader/src/main.rs:193-195 | It is unique and does not depend on the order of arrival |
| FsyncJitter.EachWriteInOneInterval | crates/pgsleuth-ebpf-loader/src/main.rs:475-500 | Every drained write sample is in exactly one tick's buffer or still pending, in order |
| FsyncJitter.ThresholdIsExact | crates/pgsleuth-ebpf-loader/src/main.rs:504-507 | Comparing with the saturated nanosecond threshold is comparing with threshold·1,000,000 ns, for every threshold |
| FsyncJitter.RuleState.Tick | crates/pgsleuth-ebpf-loader/src/main.rs:489-526 | A finding exactly when the tick ends a run of exactly max(1, N) slow intervals, slow being non-empty with at least half of the samples over threshold·1,000,000 ns; its evidence is the median in ms, never below the threshold, and the streak |
| FsyncJitter.RunLoop | crates/pgsleuth-ebpf-loader/src/main.rs:407-528 | The same for every tick of every interleaving of drained events and ticks |
| Window.ConsecutiveBreachCounter.Observe | crates/pgsleuth-core/src/window.rs:59-81 | For any history and any limits the result is the verdict of the history; the streak is the trailing run length capped at u32::MAX |
| Window.FixedVerdict | crates/pgsleuth-core/src/window.rs:59-81 | With a fixed limit the verdict depends on the run length only, firing at max(1, N) exactly |
| Window.JustFiredEndsBlock | crates/pgsleuth-core/src/window.rs:71-80 | With a fixed limit it fires exactly when the history ends with a block of exactly max(1, N) breaches, and reports that streak |
| Window.FiresCountLongRuns | crates/pgsleuth-core/src/window.rs:59-81 | The number of fires equals the number of maximal breaching runs of length at least max(1, N) |
| Window.OneFireBetweenResets | crates/pgsleuth-core/src/window.rs:60-80 | Whatever limit each call passes, two fires are separated by a non-breach |
| Runs.ReachesCountLongBlocks | crates/pgsleuth-core/src/window.rs:14-30 | In any history, blocks reach length m exactly as often as there are maximal blocks of length at least m |
| Dominant.DominantStreak.Observe | crates/pgsleuth-cli/src/checkpoint_storm.rs:69-98 | The result is what the history with unclassified ticks deleted says, for any limits; fired_for is None or the current bucket |
| Dominant.UnclassifiedIsStutter | crates/pgsleuth-cli/src/checkpoint_storm.rs:70-72 | An unclassified tick anywhere changes nothing reported later |
| Dominant.JustFiredEndsBlock | crates/pgsleuth-cli/src/checkpoint_storm.rs:80-97 | With a fixed limit the streak fires exactly when the block of the last bucket is max(1, N) long |
| Dominant.FiresCountLongBlocks | crates/pgsleuth-cli/src/checkpoint_storm.rs:69-98 | The number of fires equals the number of maximal same-bucket blocks of length at least max(1, N) among the classified ticks |
| Dominant.OneFirePerBlock | crates/pgsleuth-cli/src/checkpoint_storm.rs:75-97 | Whatever limits are passed, two fires are separated by a change of bucket |
| Checkpoint.ClassifyIff | crates/pgsleuth-postgres/src/stat_checkpointer.rs:115-146 | Each bucket by the rises of the snapshot's counters, a fallen one being 0, without saturation, division or order of tests |
| Checkpoint.ClassifySteadyIff | crates/pgsleuth-postgres/src/stat_checkpointer.rs:115-146 | The same as plain differences of the two snapshots' fields when none falls |
| Checkpoint.SteadyStreak | crates/pgsleuth-postgres/src/stat_checkpointer.rs:115-146 | While no counter falls, polls that close intervals of one bucket in a row show its imbalance between the fields of their first and last snapshots |
| Checkpoint.BucketDominates | crates/pgsleuth-postgres/src/stat_checkpointer.rs:115-146 | Intervals of one bucket have totals that its description dominates: requests exceed timed ones by at least their number, a phase exceeds 1.5 times the other, or page images are at least 1000 per checkpoint |
| Checkpoint.CheckpointStorm.Tick | crates/pgsleuth-cli/src/checkpoint_storm.rs:142-174 | A finding exactly when the poll closes the max(1, N)-th interval in a row of a bucket, which then dominates the totals of those intervals; a failed poll changes nothing |
| StatementDeltas.Collector.EmitDeltas | crates/pgsleuth-cli/src/collect_pg_stmt.rs:107-151 | One delta per row against the last snapshot of its queryid in the whole history; the logged call total is their sum, capped |
| StatementDeltas.ClampIsFloor | crates/pgsleuth-cli/src/collect_pg_stmt.rs:39-49 | Floor in range, the nearer end outside, the upper end for what is not finite, never decreasing |
| StatementDeltas.DeltasConserved | crates/pgsleuth-cli/src/collect_pg_stmt.rs:30-33 | For each queryid and counter, over any polls, emitted deltas add up to the last value plus all drops |
| StatementDeltas.DeltasExactIff | crates/pgsleuth-cli/src/collect_pg_stmt.rs:18-33 | They add up to the last value alone if and only if the counter was never seen to go down |
| StatementDeltas.NoRoundingDrift | crates/pgsleuth-cli/src/collect_pg_stmt.rs:114-125 | While the true execution time climbs in range, the emitted total is below 1 ms short of it and never over, for any number of polls |
| StatementDeltas.RowDeltasConserved | crates/pgsleuth-otel/src/metrics.rs:137-147 | A row of the view that shares its queryid with no other is accounted for by the deltas carrying its own labels: they add up to its last value plus its drops |
| StatementDeltas.RepeatedPollEmits | crates/pgsleuth-cli/src/collect_pg_stmt.rs:107-145 | For any history, poll, queryid and counter, the exact amount that polling the same rows once more emits: the drops around the circle of the queryid's rows |
| StatementDeltas.RepeatedPollIff | crates/pgsleuth-cli/src/collect_pg_stmt.rs:107-145 | It is 0 if and only if all rows of the queryid in the poll report the same value |
| StatementDeltas.RepeatedPollsEmit | crates/pgsleuth-cli/src/collect_pg_stmt.rs:107-145 | Every further repetition emits it again |
| StatementDeltas.SharedQueryidOvercounts | crates/pgsleuth-postgres/src/stat_statements.rs:121-135 | Two rows with one queryid that do not change, in either order and for every counter: the larger value once and their difference on every later poll |
| CpuStat.Parse | crates/pgsleuth-cli/src/cgroup_throttle.rs:56-77 | Each field is the last reading for its key over the lines, 0 without one |
| CpuStat.LastReadingWins | crates/pgsleuth-cli/src/cgroup_throttle.rs:58-75 | A reading with none later for its key decides the value; with no reading it is 0 |
| CpuStat.OtherLinesIgnored | crates/pgsleuth-cli/src/cgroup_throttle.rs:53-68 | Lines that do not read the key, unknown or malformed, can be inserted anywhere without effect |
| CpuStat.ParseOfRender | crates/pgsleuth-cli/src/cgroup_throttle.rs:35-78 | Parsing the lines nr_periods, nr_throttled and throttled_usec with any three u64 values in decimal returns them |
| Text.SplitWhitespaceIs | crates/pgsleuth-cli/src/cgroup_throttle.rs:59-65 | Space before a word does not matter and a word ends at the next space, which determines the split of every line |
| Text.LineBeforeNewline | crates/pgsleuth-cli/src/cgroup_throttle.rs:58-58 | A newline ends a line, together with one carriage return before it |
| Text.ParseUnsignedIff | crates/pgsleuth-cli/src/cgroup_throttle.rs:66-68 | A number is accepted exactly when it is digits, with or without a plus sign, whose sum by powers of ten is in range; that sum is its value |
| Throttle.BreachedIff | crates/pgsleuth-cli/src/cgroup_throttle.rs:175-188 | A sample breaches exactly when throttled_usec rose by (threshold + 1) times the interval over the sample before it |
| Throttle.BreachValueIs | crates/pgsleuth-cli/src/cgroup_throttle.rs:175-188 | The evidence: which counters are differenced, and the rate as the largest t with t·interval within the rise |
| Throttle.DueIff | crates/pgsleuth-cli/src/cgroup_throttle.rs:116-157 | The rule is due exactly when throttled_usec rose by (threshold + 1)·interval at each of the last max(1, N) samples and not at the one before them |
| Throttle.FiringHasRealBound | crates/pgsleuth-cli/src/cgroup_throttle.rs:116-157 | When the rule is due, throttled_usec rose by at least max(1, N)·(threshold + 1)·interval over the streak, and at every sample of it, so no reset is inside |
| Throttle.ThrottlePoller.Tick | crates/pgsleuth-cli/src/cgroup_throttle.rs:116-157 | A finding exactly when the samples are due; failed reads change nothing; firing without a breach value is unreachable |
| TempSpill.FreePctIsExact | crates/pgsleuth-cli/src/temp_spill.rs:69-78 | On a non-empty mount the percentage is under pct exactly when available·100 < pct·total |
| TempSpill.FreePctIs | crates/pgsleuth-cli/src/temp_spill.rs:69-78 | The percentage itself: 100 on an empty mount, else the floor of the share, at most 255 |
| TempSpill.BreachesIff | crates/pgsleuth-cli/src/temp_spill.rs:83-97 | When a sample breaches, in bytes, including the empty mount, and with which reason and figures; the footprint goes first |
| TempSpill.FootprintOf | crates/pgsleuth-cli/src/temp_spill.rs:123-137 | The loop returns the true sum of file sizes capped at u64::MAX |
| TempSpill.FootprintAnyOrder | crates/pgsleuth-cli/src/temp_spill.rs:129-135 | In any walk order |
| TempSpill.SpillLatch.Tick | crates/pgsleuth-cli/src/temp_spill.rs:189-224 | The latch emits exactly when a breach counter with N = 1 would have just fired |
| TempSpill.OneEmissionPerEpisode | crates/pgsleuth-cli/src/temp_spill.rs:187-224 | Those are the starts of breach episodes, as many as there are maximal breaching runs |
| SpillDedup.UntilNul | crates/pgsleuth-ebpf-loader/src/main.rs:627-630 | The longest prefix without NUL |
| SpillDedup.FirstOccurrencesAre | crates/pgsleuth-ebpf-loader/src/main.rs:442-445 | The first occurrences are free of duplicates, complete, and in order of first position |
| SpillDedup.SpillOfIff | crates/pgsleuth-ebpf-loader/src/main.rs:438-442 | An event is a spill exactly when its path before the first NUL decodes to some text around pgsql_tmp; it is reported with that text and the event's pid |
| SpillDedup.ReportedAre | crates/pgsleuth-ebpf-loader/src/main.rs:433-470 | Over any events, a finding is emitted for a pair exactly when some event reports it, and once |
| SpillDedup.SpillReporter.OnEvent | crates/pgsleuth-ebpf-loader/src/main.rs:433-470 | After each event the findings so far are the first occurrences of the spills so far; a new one comes from this event, was not emitted before, and none is left out |
| DeviceNumber.MajorIsShifts | crates/pgsleuth-pg-ext/src/lib.rs:105-105 | The shift-and-mask major of every 64-bit st_dev is the Major of the chain below |
| DeviceNumber.MinorIsShifts | crates/pgsleuth-pg-ext/src/lib.rs:106-106 | And the shift-and-mask minor its Minor |
| DeviceNumber.ShellSplitAgreesIff | infra/docker/validate-wal-device.sh:33-34 | The deployment check's shorter masks give the same parts if and only if st_dev is below 2^32 |
| DeviceNumber.PackIsShifts | crates/pgsleuth-ebpf-loader/src/main.rs:159-159 | The 32-bit shift-or of parts in range is major·2^20 + minor: nothing is shifted out or overlaps |
| DeviceNumber.ParseIff | crates/pgsleuth-ebpf-loader/src/main.rs:152-160 | Exactly which strings are accepted and with which result; a second colon is rejected, the parts are in range and recovered |
| DeviceNumber.PartIff | crates/pgsleuth-ebpf-loader/src/main.rs:154-155 | Each part is a 32-bit number with any white space around it |
| DeviceNumber.ChainIsExact | crates/pgsleuth-ebpf-loader/src/main.rs:131-139 | Split, print and parse gives major·2^20 + minor exactly for st_dev below 2^32, and fails for every wider one |
| DeviceNumber.ChainIsInjective | crates/pgsleuth-ebpf-loader/src/main.rs:152-160 | Different devices get different filters |
| DeviceNumber.EffectiveDevTIs | crates/pgsleuth-ebpf-loader/src/main.rs:285-288 | An explicit number wins as it is, then what was discovered; with neither every device passes |
| DeviceNumber.FilterOffIff | crates/pgsleuth-ebpf-loader/src/main.rs:285-288 | The discovered filter lets all devices through exactly for st_dev 0 or one that does not fit in 32 bits, else exactly the WAL device |
| VfsFilter.Reports | crates/pgsleuth-ebpf/src/main.rs:100-140 | A process is reported exactly when no criterion is set or some set criterion matches |
| VfsFilter.CompareName | crates/pgsleuth-ebpf/src/main.rs:127-136 | The byte loop decides whether the comm starts with the name up to its first NUL |
| VfsFilter.NameFilterIsPrefix | crates/pgsleuth-ebpf-loader/src/main.rs:333-337 | The name given to the loader filters on its first 15 bytes as a prefix, or on what precedes a NUL among them |

## Left out

- The `BLOCK_EVENTS` and `EVENTS` rings, whose events nothing here consumes beyond a log line.
- Tracepoint offsets and attach code: a field that cannot be read is a parameter.
- The kernel's ring-buffer bookkeeping: whether a reservation succeeds is an arbitrary outcome of each submission.
- Handlers that fail the device filter or cannot read the key in `Interleaving`: they touch no shared state.
- FsyncJitter.SortUnstable: an insertion sort stands for the library's sort; only its contract, sorted and a permutation, is used.
- Scheduling of the loader's select loop, timers and signals: any interleaving of the arms is allowed.
- Database connections, SQL, `statvfs`, directory walking and file reading: their results are parameters, a failure is a step that changes nothing.
- Finding text, severity, JSON and the OTLP emitters.
- Floating point: doubles are reals, so the rounding of the 1.5 margin and of time differences is not modelled; infinities and NaN appear only where the code tests for them, in `StatementDeltas`.
- Decoding of path bytes to text: `SpillDedup` holds for any decoding function.
- The openat and unlinkat handlers and the pid filter, each settled by reading one branch.
- `libc::major` and `libc::minor` are not part of this model; the split is the one the extension's own test checks them against.
- Knob tables, slugs and the choice of the default pid filter.
