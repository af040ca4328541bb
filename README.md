# Diff-matching prefetcher and integer workloads in Dafny

This project models the diff-matching indirect-memory prefetcher of a gem5
cache (`DiffMatching`, src/mem/cache/prefetch/diff_matching.cc and .hh), the
address helpers and access filter of gem5's base prefetcher
(src/mem/cache/prefetch/base.cc), and the integer benchmark kernels the
prefetcher is evaluated on, together with the script helper that enumerates
experiment configurations.

The prefetcher watches two value streams per load PC. It records the
differences of loaded index values in the index-data delta table (IDDT) and
the differences of missing target addresses in the target-address delta
table (TADT). When the last deltas of a target stream equal the deltas of an
index stream, shifted right by one of the shift values, it records a
relation (index PC, target PC, base, shift) in the relation table. When a
block that an index PC loaded from is filled, it decodes the 32-bit words of
the block and turns each into a candidate address `(value << shift) + base`.
The index queue, the indirect-candidate scoreboard (ICS) and the range table
decide which PCs are watched and how many words of a block a relation
covers.

The model is organised by the structure of the source:

- `Arith`: the fixed-width integer conversions the C++ relies on, written out
  explicitly (two's complement narrowing, unsigned wrap-around, `>>`).
- `PrefetchBase`: `blockAddress`, `blockIndex`, `samePage`, `pageAddress`,
  `pageOffset`, `pageIthBlockAddress`, `observeAccess` and the probe-listener
  dispatch.
- `DeltaTable`: the class `DeltaTableEntry`, a ring of the last `diffSize`
  deltas updated in place, with a ghost history of every delta it received.
- `RangeTable`: the class `RangeTableEntry`, the contiguity sampler of
  `updateSample` and its quantised histogram, and `getRangeType`.
- `Scoreboard`: the class `ICSEntry` and `updateMiss`.
- `Tables`: the fixed-capacity tables with their round-robin cursors and the
  de-duplicating inserts (`insertIndexQueue`, `insertICS`, `insertIDDT`,
  `insertTADT`, `insertRG`), `findRTE` and the relation-table guard.
- `MatchSpec`: pure specifications of `diffMatching`'s match predicate, the
  index and base recovery of `insertRT`, the little-endian decode and the
  candidate addresses of `notifyFill`.
- `DiffMatching`: the engine class `Prefetcher` and its event handlers,
  each proved against the functions of `MatchSpec` and `Tables`.
- `CsrGraph`, `ConnectedComponents`, `Bfs`, `TriangleCount`, `SparseMatrix`:
  the integer workloads (cc_csr.c, bfs_csr.c, tc.cpp, mat_csr.cc/.h) as
  imperative methods over arrays, each specified by a function of the
  inputs.
- `FieldRecords`: `gen_field_record` of exp_scripts/extract_data.py.

Some members the prefetcher uses are not shown in its source, and the model
fixes them by stated assumptions:

- a delta-table entry is ready (`isReady`) once it has received at least
  `diffSize` deltas, and `validate()` sets `valid`;
- `update(pc, cID)` re-keys a delta-table entry and restarts its ring;
- `IndexQueueEntry::update(pc, cID)` (called by `insertIndexQueue`) re-keys an
  index-queue entry and clears its `tried` and `matched` counters, so a newly
  queued PC starts from the weight of (0, 0);
- `RangeTableEntry::update(target_pc, addr, shift, cID)` re-keys a range
  entry, seeds its run tail with `addr >> shift`, and clears its run counter
  and its histogram;
- `ICSEntry::update(index_pc, cID)` re-keys a scoreboard entry and clears its
  counters;
- the `RangeTableEntry(unit, level, valid)` constructor sizes the histogram
  to `level` zero buckets;
- the `ICSEntry(candidate_num, valid)` constructor starts with no counters;
- the two-argument `fill(value, cID)` is a no-op when the context differs
  from the entry's context, and the one-argument `fill` otherwise;
- `getWeight()` of an index-queue entry is the engine parameter `weight`, a
  function of its `tried` and `matched` counters;
- the shift values `shift_v` are the engine parameter `shifts`;
- `TargetAddr` values are `int64_t`, so `>>` on a target delta is an
  arithmetic shift.

Behaviour of the code worth noting, which the model follows:

- the ICS selects a missing PC when its counter, compared before the
  increment, has reached the threshold; the first report only registers the
  PC at 0, so a threshold of 2 selects it on the fourth report;
- `notifyICSMiss` passes `ics_candidate_num`, the capacity of the counter
  map, as the threshold of `updateMiss`;
- the range quantisation is `(count + unit) / unit`, capped at `level`;
- the range table allocates `rg_ent_num * 4` entries but its cursor wraps at
  `rg_ent_num`, so only the first `rg_ent_num` are ever written;
- in `BFS_kernel` the depth given to newly discovered nodes grows by one per
  dequeued node, not per level (`Bfs.KernelDepth`).

## Model

| member | source | states |
|---|---|---|
| Arith.Signed | src/mem/cache/prefetch/diff_matching.hh:28 | the two's complement reading of a value in `IndexData` (`int32_t`) or `int64_t` lies in the signed range of that width |
| Arith.Unsigned | src/mem/cache/prefetch/diff_matching.cc:577-582 | a value held in an unsigned type of n bits is below 2^n |
| Arith.SignedInRange | src/mem/cache/prefetch/diff_matching.hh:28 | a value already in the signed range is unchanged by the narrowing |
| Arith.UnsignedOfSigned | src/mem/cache/prefetch/diff_matching.cc:588 | copying a 32-bit word into `IndexData` and reading it back unsigned loses nothing |
| Arith.SignedPeriodic | src/mem/cache/prefetch/diff_matching.hh:28 | the signed narrowing depends only on the value modulo 2^bits |
| Arith.SignedSubtract | src/mem/cache/prefetch/diff_matching.cc:406 | subtracting from a narrowed value and narrowing again equals subtracting once and narrowing |
| Arith.ModSucc | src/mem/cache/prefetch/diff_matching.hh:71 | advancing a cursor by one modulo n from a reduced value equals reducing the advanced value |
| Arith.ShiftRight | src/mem/cache/prefetch/diff_matching.cc:345 | an arithmetic right shift by s is the floor of the division by 2^s, and keeps non-negative values non-negative and no larger |
| PrefetchBase.BlockAddress | src/mem/cache/prefetch/base.cc:426-430 | the block address is at most a, within one block of a, and a multiple of the block size |
| PrefetchBase.BlockIndex | src/mem/cache/prefetch/base.cc:432-436 | the block index r satisfies r·2^lBlkSize ≤ a < (r+1)·2^lBlkSize, which is a >> lBlkSize |
| PrefetchBase.BlockIndexShiftBack | src/mem/cache/prefetch/base.cc:426-436 | shifting the block index back up gives the block address |
| PrefetchBase.BlockAddressIdempotent | src/mem/cache/prefetch/base.cc:426-430 | rounding a block address again changes nothing |
| PrefetchBase.BlockAddressUnique | src/mem/cache/prefetch/base.cc:426-430 | any multiple of the block size at most one block below a is the block address |
| PrefetchBase.PageAddress | src/mem/cache/prefetch/base.cc:438-442 | the page address is page-aligned and at most a |
| PrefetchBase.PageOffset | src/mem/cache/prefetch/base.cc:444-448 | the page offset is below the page size |
| PrefetchBase.PageSplit | src/mem/cache/prefetch/base.cc:438-448 | page address plus page offset is the address |
| PrefetchBase.SamePageIsEquivalence | src/mem/cache/prefetch/base.cc:420-424 | `samePage` is reflexive, symmetric and transitive, and holds exactly when both addresses have the same page number |
| PrefetchBase.PageIthBlockAddress | src/mem/cache/prefetch/base.cc:450-454 | the result is a 64-bit value, and equals page + i·blkSize when the 32-bit shift and the 64-bit sum do not wrap |
| PrefetchBase.PageIthBlockAligned | src/mem/cache/prefetch/base.cc:450-454 | the i-th block of an aligned page is block-aligned when nothing wraps |
| PrefetchBase.ObserveAccess | src/mem/cache/prefetch/base.cc:374-400 | on a hit with prefetch-on-prefetch-hit the result is `hasBeenPrefetched`; otherwise it holds iff the access is a miss or prefetch-on-access is set, the access kind is admitted, and (with on_miss) it is a miss |
| PrefetchBase.ObserveAccessRejects | src/mem/cache/prefetch/base.cc:384-396 | a hit without prefetch-on-access, an uncacheable access and a CleanEvict are each refused, and with on_miss only misses pass |
| PrefetchBase.ListenerHandler | src/mem/cache/prefetch/base.cc:97-112 | the handler is chosen by the first flag set, in the order l1_req, l1_resp, isFill, else the probe |
| DeltaTable.DeltaTableEntry.constructor | src/mem/cache/prefetch/diff_matching.hh:55-57 | a new entry has the given pc, last value and validity, cursor 0 and a ring of diff_size zero deltas |
| DeltaTable.DeltaTableEntry.Get | src/mem/cache/prefetch/diff_matching.hh:76 | `operator[](i)` reads the i-th delta of the window (oldest first) and, once enough deltas arrived, the i-th of the last diff_size deltas in arrival order |
| DeltaTable.DeltaTableEntry.Invalidate | src/mem/cache/prefetch/diff_matching.hh:60-63 | only `valid` and the cursor change; pc, last and the stored deltas are kept |
| DeltaTable.DeltaTableEntry.Renew | src/mem/cache/prefetch/diff_matching.hh:78-84 | pc, last and valid are replaced and the cursor reset; the stored deltas are kept |
| DeltaTable.DeltaTableEntry.Update | src/mem/cache/prefetch/diff_matching.cc:278 | allocation to (pc, context) replaces the key and resets the cursor and the fill count, keeping last and the deltas |
| DeltaTable.DeltaTableEntry.Validate | src/mem/cache/prefetch/diff_matching.cc:278 | sets `valid` and nothing else |
| DeltaTable.DeltaTableEntry.Fill | src/mem/cache/prefetch/diff_matching.hh:65-74 | the delta last_in − last, narrowed to T, overwrites slot diff_ptr; the cursor advances modulo diff_size and stays in range; last becomes last_in; the window loses its oldest delta and gains the new one; a fill from another context changes nothing |
| DeltaTable.WindowIsRecentHistory | src/mem/cache/prefetch/diff_matching.hh:65-76 | after at least diff_size fills since the cursor reset, the window is exactly the last diff_size deltas in arrival order |
| DeltaTable.RotateAt | src/mem/cache/prefetch/diff_matching.hh:76 | reading the ring from the cursor at i is `diff[(diff_ptr + i) % diff_size]` |
| DeltaTable.RotateWrite | src/mem/cache/prefetch/diff_matching.hh:70-71 | writing at the cursor and advancing it drops the oldest delta of the window and appends the new one |
| DeltaTable.DeltaTableEntry.GetAgreesWithWindow | src/mem/cache/prefetch/diff_matching.hh:76 | `diff[(diff_ptr + i) % diff_size]` is the i-th delta of the window and, once enough deltas arrived, the i-th of the last diff_size deltas |
| DeltaTable.RecentMatchesExtend | src/mem/cache/prefetch/diff_matching.hh:65-73 | a fill that drops the oldest delta and appends the new one keeps the window equal to the tail of the arrival history |
| RangeTable.Bucket | src/mem/cache/prefetch/diff_matching.cc:459-467 | the bucket is `min(level, count/unit + 1) − 1`, lies in [0, level), and bucket b holds counts in [b·unit, (b+1)·unit) (the last one everything above) |
| RangeTable.TotalRecord | src/mem/cache/prefetch/diff_matching.cc:467 | recording a run in any bucket raises the histogram total by exactly one |
| RangeTable.TotalPositive | src/mem/cache/prefetch/diff_matching.cc:475-482 | the histogram total is positive iff some bucket is positive |
| RangeTable.SampleStepEffect | src/mem/cache/prefetch/diff_matching.cc:446-472 | a sample returns true iff it does not continue the run; a continuation adds one to the counter and keeps the histogram; a new run clears the counter; the total grows by one iff a positive run closes; no bucket decreases |
| RangeTable.SampleStep | src/mem/cache/prefetch/diff_matching.cc:446-472 | `updateSample` keeps `level` histogram buckets and makes the sampled address the tail |
| RangeTable.RunScenario | src/mem/cache/prefetch/diff_matching.cc:446-482 | the addresses 100, 101, 102, 200, 201 give flags true, false, false, true, false, one run in bucket 2, and make the entry a range type |
| RangeTable.RangeTableEntry.constructor | src/mem/cache/prefetch/diff_matching.cc:32 | a new entry has the given unit, level and validity and `level` empty buckets |
| RangeTable.RangeTableEntry.Update | src/mem/cache/prefetch/diff_matching.cc:315-317 | allocation replaces the key and shift, seeds the tail with the shifted address and clears counter and histogram |
| RangeTable.RangeTableEntry.Validate | src/mem/cache/prefetch/diff_matching.cc:317 | sets `valid` and nothing else |
| RangeTable.RangeTableEntry.UpdateSample | src/mem/cache/prefetch/diff_matching.cc:446-472 | the new sampler state and the result are `SampleStep` of the old state and the shifted address; key, shift and validity are kept |
| RangeTable.RangeTableEntry.GetRangeType | src/mem/cache/prefetch/diff_matching.cc:475-482 | true iff some histogram bucket is positive |
| Scoreboard.MissStepBounded | src/mem/cache/prefetch/diff_matching.cc:186-205 | `updateMiss` never tracks more than candidate_num PCs, never lowers a counter and only ever adds the reported PC |
| Scoreboard.MissStep | src/mem/cache/prefetch/diff_matching.cc:186-205 | `updateMiss` never forgets a counted PC: the counters' keys only grow (the cap, the growth and the flag are stated by `MissStepBounded` and the `Reports` lemmas) |
| Scoreboard.ReportsKnown | src/mem/cache/prefetch/diff_matching.cc:190-197 | a tracked PC is promoted on report k exactly when its counter plus k has reached the threshold; below it the counter goes up by one per report |
| Scoreboard.ReportsNew | src/mem/cache/prefetch/diff_matching.cc:199-202 | an untracked PC admitted with counter 0 is promoted from its (thr+2)-th report on |
| Scoreboard.ReportsFull | src/mem/cache/prefetch/diff_matching.cc:199-204 | a PC that finds the counters full is never promoted |
| Scoreboard.ThresholdTwoScenario | src/mem/cache/prefetch/diff_matching.cc:186-205 | with threshold 2 an unseen PC is promoted on its fourth report |
| Scoreboard.SweepFromReports | src/mem/cache/prefetch/diff_matching.cc:208-228 | the loop of `notifyICSMiss` reports the miss iff some valid entry of the context already counts the PC at the threshold |
| Scoreboard.SweepFromKeeps | src/mem/cache/prefetch/diff_matching.cc:210-227 | an entry that is invalid, of another context, or after the reporting entry keeps its counters |
| Scoreboard.SweepFromCounts | src/mem/cache/prefetch/diff_matching.cc:210-217 | every listening entry up to the first that reports counts the miss through `updateMiss` |
| Scoreboard.MissSweep | src/mem/cache/prefetch/diff_matching.cc:208-228 | the loop yields one counter map per scoreboard entry (which entry reports and what each count becomes are stated by the `SweepFrom` lemmas) |
| Scoreboard.ICSEntry.constructor | src/mem/cache/prefetch/diff_matching.cc:36 | a new entry has the given candidate capacity and validity and no counters |
| Scoreboard.ICSEntry.Update | src/mem/cache/prefetch/diff_matching.cc:260 | allocation replaces the key and clears the counters |
| Scoreboard.ICSEntry.Validate | src/mem/cache/prefetch/diff_matching.cc:260 | sets `valid` and nothing else |
| Scoreboard.ICSEntry.UpdateMiss | src/mem/cache/prefetch/diff_matching.cc:186-205 | the new counters and the result are `MissStep` of the old counters, and the capacity bound is kept |
| Tables.FindIQ | src/mem/cache/prefetch/diff_matching.cc:234-240 | the result is the first valid entry from `from` on holding (pc, cID), or none when no such entry exists |
| Tables.NewIndexQueue | src/mem/cache/prefetch/diff_matching.cc:34 | a queue of iq_ent_num invalid entries, whose keys are trivially unique |
| Tables.IQInsertEffect | src/mem/cache/prefetch/diff_matching.cc:231-246 | after `insertIndexQueue` the key is held by a valid entry, valid keys stay unique, the cursor stays below the capacity, and only the slot under the old cursor can change |
| Tables.IQInsert | src/mem/cache/prefetch/diff_matching.cc:231-246 | the queue keeps its length and the cursor stays in range (the effect on the keys is `IQInsertEffect`) |
| Tables.BumpMatchedKeepsKeys | src/mem/cache/prefetch/diff_matching.cc:170-179 | the first loop of `matchUpdate` raises `matched` of exactly the entry holding the key (unique, so the first) and keeps every key, flag and `tried` |
| Tables.BumpMatched | src/mem/cache/prefetch/diff_matching.cc:170-179 | the queue keeps its length (its keys are kept: `BumpMatchedKeepsKeys`) |
| Tables.QueueInsert | src/mem/cache/prefetch/diff_matching.cc:231-246 | the queue array and the new cursor are `IQInsert` of the old queue: unchanged if the key is held, otherwise slot ptr rewritten and the cursor advanced modulo the capacity |
| Tables.QueueBumpMatched | src/mem/cache/prefetch/diff_matching.cc:170-179 | the queue array becomes `BumpMatched` of the old queue |
| Tables.PickUnique | src/mem/cache/prefetch/diff_matching.cc:138-147 | at most one entry is the pick of `pickIndexPC` |
| Tables.ChooseIndex | src/mem/cache/prefetch/diff_matching.cc:135-147 | the scan returns the first valid entry of strictly greatest weight above the starting weight, or nothing when no valid entry weighs more than it |
| Tables.TriedKeepsKeys | src/mem/cache/prefetch/diff_matching.cc:149-151 | raising `tried` of the picked entry keeps the queue keys unique |
| Tables.MatchUpdateOf | src/mem/cache/prefetch/diff_matching.cc:168-183 | after `matchUpdate` the target is queued under its context and queue keys stay unique |
| Tables.AtMostOneWriteCompose | src/mem/cache/prefetch/diff_matching.cc:365-443 | two runs of `insertRT` calls for one target write at most one relation together, because a written relation blocks every later one |
| Tables.AllBlockedPersists | src/mem/cache/prefetch/diff_matching.cc:365-387 | a relation `findRTE` refused stays refused after further reports for the same target |
| Tables.MatchEffectExtend | src/mem/cache/prefetch/diff_matching.cc:349-356 | one more report of a match extends the effect of the earlier ones: at most one write, every reported relation blocked, the target queued |
| Tables.FindRelation | src/mem/cache/prefetch/diff_matching.cc:365-387 | `findRTE` is true iff some valid entry of the context serves the target PC or holds the reverse relation |
| Tables.NewRelationTable | src/mem/cache/prefetch/diff_matching.cc:43 | a relation table of rt_ent_num invalid entries, which meets the relation invariants |
| Tables.InsertKeepsRTInvariant | src/mem/cache/prefetch/diff_matching.cc:396-442 | writing a relation `findRTE` does not block into any slot keeps "at most one valid entry per (target PC, context)" and "no two-entry cycle" |
| Tables.FindDelta | src/mem/cache/prefetch/diff_matching.cc:270-275 | the search loop of `insertIDDT`/`insertTADT` is true iff a valid entry holds (pc, cID) |
| Tables.AllocateDelta | src/mem/cache/prefetch/diff_matching.cc:278 | `update(pc, cID).validate()` on the cursor's slot makes the key held, touches no other entry and no ring, and keeps valid keys unique |
| Tables.NewDeltaEntries | src/mem/cache/prefetch/diff_matching.cc:27-28 | n fresh, distinct, invalid entries with rings of diff_size deltas |
| Tables.RingKeyedOf | src/mem/cache/prefetch/diff_matching.cc:270-275 | the entries' states hold a key exactly when a valid entry of the table does |
| Tables.DeltaInsertSettles | src/mem/cache/prefetch/diff_matching.cc:267-300 | after `insertIDDT` / `insertTADT` the key is held, only the cursor's slot may have changed, the cursor stays in range, and inserting the same key again changes nothing |
| Tables.DeltaInsertView | src/mem/cache/prefetch/diff_matching.cc:267-300 | the in-place insert, seen on the entries' states, is exactly `DeltaInsertOf` of the old states and cursor |
| Tables.DeltaTableVec.constructor | src/mem/cache/prefetch/diff_matching.cc:27-29 | a delta table of n invalid entries with its cursor at 0 |
| Tables.DeltaTableVec.Insert | src/mem/cache/prefetch/diff_matching.cc:267-300 | afterwards a valid entry holds (pc, cID); if one already did nothing changes, otherwise only the slot under the old cursor is allocated to the key and the cursor advances modulo the capacity; no ring is touched |
| Tables.DeltaTableVec.FillEntry | src/mem/cache/prefetch/diff_matching.cc:594 | `fill(v, c)` on one entry keeps its key and validity, does nothing for another context and otherwise records v and its delta |
| Tables.ResponseSettles | src/mem/cache/prefetch/diff_matching.cc:586-595 | a response keeps every key, leaves each listening entry holding v, adds at most one delta, and a repeated identical response changes nothing |
| Tables.RecordResponse | src/mem/cache/prefetch/diff_matching.cc:586-596 | every entry of the table ends as `AfterResponse` of its old state: a valid entry of the PC whose last value differs is filled, every other entry is untouched |
| Tables.RecordStep | src/mem/cache/prefetch/diff_matching.cc:587-595 | one turn of that loop on entry i |
| Tables.FindScoreboard | src/mem/cache/prefetch/diff_matching.cc:252-257 | the search loop of `insertICS` is true iff a valid entry observes (pc, cID) |
| Tables.AllocateScoreboard | src/mem/cache/prefetch/diff_matching.cc:260 | `update(pc, cID).validate()` on the cursor's slot makes the key observed with empty counters, keeping valid keys unique |
| Tables.SweepMisses | src/mem/cache/prefetch/diff_matching.cc:210-227 | the loop of `notifyICSMiss` leaves every key alone, sets each entry's counters to those of `MissSweep`, and reports whether some entry selected the PC |
| Tables.SweepStep | src/mem/cache/prefetch/diff_matching.cc:212-225 | one turn of that loop on entry i |
| Tables.NewScoreboardEntries | src/mem/cache/prefetch/diff_matching.cc:36 | n fresh, distinct, invalid scoreboard entries |
| Tables.ScoreKeyedOf | src/mem/cache/prefetch/diff_matching.cc:252-257 | the entries' states observe a key exactly when a valid scoreboard entry does |
| Tables.ICSInsertSettles | src/mem/cache/prefetch/diff_matching.cc:249-264 | after `insertICS` the key is observed, only the cursor's slot may have changed, the cursor stays in range, and inserting the same key again changes nothing |
| Tables.ICSInsertView | src/mem/cache/prefetch/diff_matching.cc:249-264 | the in-place insert, seen on the entries' states, is exactly `ICSInsertOf` of the old states and cursor |
| Tables.ScoreboardVec.constructor | src/mem/cache/prefetch/diff_matching.cc:36-37 | a scoreboard of n invalid entries with its cursor at 0 |
| Tables.ScoreboardVec.Insert | src/mem/cache/prefetch/diff_matching.cc:249-264 | afterwards a valid entry observes (pc, cID); if one already did nothing changes, otherwise only the slot under the old cursor is allocated with empty counters and the cursor advances |
| Tables.SlotFirst | src/mem/cache/prefetch/diff_matching.cc:314-319 | the first write of `insertRG` goes to the cursor's own slot |
| Tables.LastWrite | src/mem/cache/prefetch/diff_matching.cc:314-319 | the last of the first m writes of `insertRG`'s loop that lands on slot i, or none when no write reaches it |
| Tables.FilterRanges | src/mem/cache/prefetch/diff_matching.cc:485-502 | every valid sampler of (pc, cID) takes one sample and every other entry is untouched; the result is true iff no such sampler sees the address continue its run (true when there is none) |
| Tables.FilterStep | src/mem/cache/prefetch/diff_matching.cc:489-499 | one turn of that loop on entry i |
| Tables.AfterFilter | src/mem/cache/prefetch/diff_matching.cc:485-502 | a range entry with `level` buckets keeps `level` buckets after `rangeFilter` |
| Tables.RangeTypeOf | src/mem/cache/prefetch/diff_matching.cc:420-425 | the range type of a new relation is true iff some entry for (index PC, context), valid or not, has recorded a run |
| Tables.FindRange | src/mem/cache/prefetch/diff_matching.cc:305-311 | the search loop of `insertRG` is true iff a valid entry samples (pc, cID) |
| Tables.AllocateRange | src/mem/cache/prefetch/diff_matching.cc:313-319 | write k goes to slot (ptr + k) mod rg_ent_num; each slot ends as the allocation of the last write that reached it, every other slot is untouched; the cursor ends at (ptr + |shift_v|) mod rg_ent_num |
| Tables.AllocateStep | src/mem/cache/prefetch/diff_matching.cc:315-318 | one turn of that loop |
| Tables.AllocatedIsKeyed | src/mem/cache/prefetch/diff_matching.cc:313-319 | after a non-empty allocation a valid entry samples the key |
| Tables.NewRangeEntries | src/mem/cache/prefetch/diff_matching.cc:32 | rg_ent_num·4 fresh, distinct, invalid entries, of which only the first rg_ent_num can ever become valid |
| Tables.FieldsKeyedOf | src/mem/cache/prefetch/diff_matching.cc:305-311 | the entries' fields hold a key exactly when a valid range entry samples it |
| Tables.RangeInsertSettles | src/mem/cache/prefetch/diff_matching.cc:303-322 | after `insertRG` with at least one shift value the key is sampled, the cursor stays below `rg_ent_num`, the entries from there on are untouched, and inserting the same key again changes nothing |
| Tables.RangeInsertView | src/mem/cache/prefetch/diff_matching.cc:303-322 | the in-place insert, seen on the entries' fields, is exactly `RangeInsertOf` of the old fields and cursor |
| Tables.RangeTableVec.constructor | src/mem/cache/prefetch/diff_matching.cc:32-33 | the range table of rg_ent_num·4 invalid entries with its cursor at 0 |
| Tables.RangeTableVec.Insert | src/mem/cache/prefetch/diff_matching.cc:303-322 | nothing changes if a valid entry samples (pc, cID); otherwise one entry per shift value is allocated at consecutive slots modulo rg_ent_num; the cursor stays below rg_ent_num |
| MatchSpec.IndexPcsAppend | src/mem/cache/prefetch/diff_matching.cc:355 | the `matchUpdate` calls of two runs of matches are those of the first run followed by those of the second |
| MatchSpec.InLoopOrderAppend | src/mem/cache/prefetch/diff_matching.cc:333-360 | two runs in loop order, every match of the first before every match of the second, make one run in loop order |
| MatchSpec.ShiftMatchesSpec | src/mem/cache/prefetch/diff_matching.cc:341-358 | the shift loop at one start offset reports exactly the shift positions under which every target delta shifted right equals the index delta, in `shift_v` order |
| MatchSpec.StartMatchesSpec | src/mem/cache/prefetch/diff_matching.cc:338-359 | the offset loop reports exactly the (offset, shift) pairs that match, offsets 0 .. iddt_diff_num − tadt_diff_num, in loop order |
| MatchSpec.EntryMatchesSpec | src/mem/cache/prefetch/diff_matching.cc:333-360 | one index entry contributes exactly its matches, in loop order, and none unless valid, ready and of the target's context |
| MatchSpec.EntryMatchesMembers | src/mem/cache/prefetch/diff_matching.cc:333-360 | the matches one entry contributes are exactly its matches |
| MatchSpec.AllMatchesSpec | src/mem/cache/prefetch/diff_matching.cc:325-363 | `diffMatching` reports a match (entry, offset, shift) iff the entry is valid, ready and of the context and `iddt[i_start+t] == tadt[t] >> s` for every t; the reports come in loop order |
| MatchSpec.AllMatchesMembers | src/mem/cache/prefetch/diff_matching.cc:325-363 | the reported matches over the first n entries are exactly the matches of those entries |
| MatchSpec.AllMatchesOrder | src/mem/cache/prefetch/diff_matching.cc:333-360 | the reported matches come by entry, then offset, then shift position |
| MatchSpec.AllMatchesBelow | src/mem/cache/prefetch/diff_matching.cc:333 | every match reported over the first n entries comes from one of them |
| MatchSpec.EntryMatchesAt | src/mem/cache/prefetch/diff_matching.cc:333-360 | every match of one entry carries that entry, in loop order |
| MatchSpec.OrderedAppend | src/mem/cache/prefetch/diff_matching.cc:333-360 | the matches of earlier entries followed by those of entry k are in loop order |
| MatchSpec.SumSnoc | src/mem/cache/prefetch/diff_matching.cc:405-407 | the sum of the deltas from i to j inclusive is the sum up to j plus delta j |
| MatchSpec.RecoveredIndex | src/mem/cache/prefetch/diff_matching.cc:404-407 | the recovered index value is a 32-bit value |
| MatchSpec.SubtractEachStep | src/mem/cache/prefetch/diff_matching.cc:405-407 | one more turn of the subtraction loop subtracts the next delta and narrows |
| MatchSpec.SubtractEachWraps | src/mem/cache/prefetch/diff_matching.cc:404-407 | narrowing to `int32_t` after every subtraction gives the same value as subtracting the sum of the deltas and narrowing once |
| MatchSpec.WrapStep | src/mem/cache/prefetch/diff_matching.cc:406 | one narrowed subtraction from a narrowed running value equals the narrowed new total |
| MatchSpec.Telescope | src/mem/cache/prefetch/diff_matching.cc:404-407 | when the deltas come from an unwrapped stream, the newest value minus the deltas after the match point is the value at the match point |
| MatchSpec.BaseAddress | src/mem/cache/prefetch/diff_matching.cc:411 | the base `addr_match − (data_match << shift)`, shift in `int32_t`, is a 64-bit signed value |
| MatchSpec.BaseAcceptedIff | src/mem/cache/prefetch/diff_matching.cc:416-417 | the assertion on the base holds exactly when the signed base is not negative |
| MatchSpec.RawAddress | src/mem/cache/prefetch/diff_matching.cc:676 | `(v << shift) + base` in `uint64_t` is below 2^64 |
| MatchSpec.ReconstructsMatchedAddress | src/mem/cache/prefetch/diff_matching.cc:404-417 | fed the index value of the match point, the address generator gives back the target address seen there, when nothing wraps |
| MatchSpec.ScenarioRoundTrip | src/mem/cache/prefetch/diff_matching.cc:404-417 | index 13 with shift 2 and base 960 predicts address 1012 again |
| MatchSpec.ScenarioMatch | src/mem/cache/prefetch/diff_matching.cc:343-348 | the target deltas 4, 4, 4 match the index deltas 1, 1, 1 under shift 2 |
| MatchSpec.ScenarioRecovered | src/mem/cache/prefetch/diff_matching.cc:404-407 | a match point at the end of the window recovers the newest index value |
| MatchSpec.ScenarioBase | src/mem/cache/prefetch/diff_matching.cc:409-417 | address 1012 and index 13 under shift 2 give the base 960, which the assertion accepts |
| MatchSpec.LittleEndianBound | src/mem/cache/prefetch/diff_matching.cc:578-581 | the little-endian value of n bytes is below 2^(8n) |
| MatchSpec.DecodeLE32 | src/mem/cache/prefetch/diff_matching.cc:578-581 | the byte loop gives the little-endian value of the four bytes, below 2^32 |
| MatchSpec.ResponseWordAsWritten | src/mem/cache/prefetch/diff_matching.cc:571-581 | the source's read takes bytes 0 to 3 whatever the packet's size, so a shorter packet contributes the bytes that follow its buffer; the word is below 2^32 |
| MatchSpec.ResponseWordOverreads | src/mem/cache/prefetch/diff_matching.cc:571-581 | a 1-byte response carrying 7 is read as 263 when the bytes after it are 1, 0, 0 and as 7 only when they are zero; the corrected read gives 7 |
| MatchSpec.ResponseWord | src/mem/cache/prefetch/diff_matching.cc:575-581 | the word read from the packet's own bytes, at most four of them, is below 2^32 |
| MatchSpec.LittleEndianZeroExtend | src/mem/cache/prefetch/diff_matching.cc:578-581 | zero bytes at the high end do not change a little-endian value |
| MatchSpec.ResponseWordCorrects | src/mem/cache/prefetch/diff_matching.cc:571-581 | the corrected read equals the source's read whenever the packet has at least four bytes, and equals the source's read with zero bytes after the buffer |
| MatchSpec.DecodeResponse | src/mem/cache/prefetch/diff_matching.cc:575-581 | the byte loop over the packet's bytes, padded with zeros, computes `ResponseWord` |
| MatchSpec.WalkAsWrittenOverruns | src/mem/cache/prefetch/diff_matching.cc:656-673 | with a 64-byte block, the loop as written visits offset 62 of a single-word relation loaded there and offset 61 of a range relation whose end is clipped to 64, and so reads bytes past the block; the walk over whole words visits neither |
| MatchSpec.WalkAsWritten | src/mem/cache/prefetch/diff_matching.cc:666 | the loop as written visits `data_offset`, `data_offset + 4`, … each below the range end |
| MatchSpec.Walk | src/mem/cache/prefetch/diff_matching.cc:656-673 | every visited word lies wholly below the end |
| MatchSpec.WalksAgreeWhenAligned | src/mem/cache/prefetch/diff_matching.cc:656-666 | for 4-aligned offsets and ends both walks visit the same offsets |
| MatchSpec.WalkLength | src/mem/cache/prefetch/diff_matching.cc:656-663 | a range entry reads at least range_degree words when they fit in the block |
| MatchSpec.WordCandidateAligned | src/mem/cache/prefetch/diff_matching.cc:676 | each candidate is a block-aligned 64-bit address |
| MatchSpec.WordCandidatesWalk | src/mem/cache/prefetch/diff_matching.cc:666-676 | an entry's candidates are, one for one and in order, those of the words of its walk |
| MatchSpec.FillCandidatesSound | src/mem/cache/prefetch/diff_matching.cc:644-676 | every candidate of a fill comes from a valid entry indexed by the filling PC: it is issued for that entry's target PC and context, at the block of `(v << shift) + base` for a word v of the block, block-aligned and below 2^64 |
| MatchSpec.FillBuffer | src/mem/cache/prefetch/diff_matching.cc:626-628 | the block-sized `fill_data` buffer holds the packet's bytes from byte 0 and the stale bytes after them |
| MatchSpec.FillBufferFull | src/mem/cache/prefetch/diff_matching.cc:626-628 | a packet of a whole block fills the buffer entirely |
| MatchSpec.WordCandidatesFrom | src/mem/cache/prefetch/diff_matching.cc:666-674 | one relation's words are read only from its starting offset on |
| MatchSpec.FillCandidatesFrom | src/mem/cache/prefetch/diff_matching.cc:644-676 | the candidates of a fill depend only on the buffer bytes from `paddr & (blkSize-1)` on |
| MatchSpec.SubBlockHitIgnoresPacket | src/mem/cache/prefetch/diff_matching.cc:626-674 | for a hit packet no longer than its block offset, the candidates do not depend on the packet's bytes: the decode reads only stale buffer bytes |
| DiffMatching.NewEngineTables | src/mem/cache/prefetch/diff_matching.cc:24-36 | the constructor allocates the two delta tables (32-bit index values, 64-bit addresses), the range table and the scoreboard at their configured sizes, every entry invalid and every cursor at 0 |
| DiffMatching.SnapshotOf | src/mem/cache/prefetch/diff_matching.hh:76 | what `diffMatching` reads of an entry: its window oldest first and a newest value in the entry's width |
| DiffMatching.MatchAt | src/mem/cache/prefetch/diff_matching.cc:341-348 | the comparison loop answers true iff every target delta, shifted right, equals the index delta at the same distance from the start offset |
| DiffMatching.RecoverIndexData | src/mem/cache/prefetch/diff_matching.cc:404-407 | the subtraction loop yields the newest index value minus the deltas from the match point on, narrowed to `int32_t` |
| DiffMatching.NewRelation | src/mem/cache/prefetch/diff_matching.cc:432-441 | the relation written is valid and keyed by the index PC, the target PC and the target's context |
| DiffMatching.ComputeBase | src/mem/cache/prefetch/diff_matching.cc:404-411 | the base address is the target's newest address minus the recovered index value shifted, in `int64_t` |
| DiffMatching.InsertRelation | src/mem/cache/prefetch/diff_matching.cc:390-443 | `insertRT`: a relation already present for the (index PC, target PC, context) changes nothing; otherwise the relation is written under the cursor and the cursor advances modulo the table size iff the base passes the assertion, which leaves the relation present |
| DiffMatching.InsertedRelationEffect | src/mem/cache/prefetch/diff_matching.cc:390-443 | a successful `insertRT` writes at most one relation, from the index PC to the target, and leaves that relation present; a failed one changes nothing |
| DiffMatching.MatchUpdate | src/mem/cache/prefetch/diff_matching.cc:168-183 | `matchUpdate`: the first valid queue entry of the index PC and context is credited with a match, then the target PC is queued; the queue keeps each key at most once |
| DiffMatching.Report | src/mem/cache/prefetch/diff_matching.cc:349-356 | one reported match: `insertRT`, then `matchUpdate` when it succeeds; the run of reports so far extends by the index PC, and the queue is untouched on an abort |
| DiffMatching.TryShift | src/mem/cache/prefetch/diff_matching.cc:341-357 | one shift position: the matches so far extend by exactly this position's match, if any, and the tables follow the reports |
| DiffMatching.MatchShifts | src/mem/cache/prefetch/diff_matching.cc:341-358 | the shift loop reports exactly the matches at one start offset, in `shift_v` order, and the tables follow the reports |
| DiffMatching.TryOffset | src/mem/cache/prefetch/diff_matching.cc:338-359 | one start offset: the matches so far extend by exactly this offset's matches |
| DiffMatching.MatchOffsets | src/mem/cache/prefetch/diff_matching.cc:338-359 | the start-offset loop reports exactly the matches of one index entry, offsets 0 .. iddt_diff_num − tadt_diff_num in order |
| DiffMatching.MatchEntry | src/mem/cache/prefetch/diff_matching.cc:333-337 | an index entry that is invalid, not ready or of another context is skipped; any other is matched at every offset |
| DiffMatching.ViewsOfSeen | src/mem/cache/prefetch/diff_matching.cc:333 | the k-th entry of the index table is seen as the k-th view |
| DiffMatching.MatchEntries | src/mem/cache/prefetch/diff_matching.cc:333-360 | the entry loop reports every match of the target, entry by entry in table order, and together the reports write at most one relation |
| DiffMatching.PickIndex | src/mem/cache/prefetch/diff_matching.cc:133-159 | the heaviest valid queue entry (first of equals, heavier than the floor) has `tried` raised by one and nothing else in the queue changes; its key is then observed by the scoreboard and held by the index table, each insert leaving a held key alone or else re-keying only the entry under the cursor (counters cleared, history emptied, newest value kept) and advancing the cursor; no qualifying entry, no change |
| DiffMatching.Observe | src/mem/cache/prefetch/diff_matching.cc:151-152 | `insertICS` and `insertIDDT` of the key: afterwards both hold it; a key already held changes nothing, otherwise only the entry under each cursor is re-keyed, validated and cleared, and the cursor advances by one |
| DiffMatching.MissEvent | src/mem/cache/prefetch/diff_matching.cc:208-228 | the scoreboard's counters become those of the miss sweep and the flag is its verdict; a selected PC then goes through `insertTADT` and `insertRG` with the exact effects of `Promote`; otherwise the target and range tables are unchanged |
| DiffMatching.Promote | src/mem/cache/prefetch/diff_matching.cc:221-222 | `insertTADT` and `insertRG` of the key: a key already held changes nothing; otherwise the target entry under the cursor is allocated (history emptied, newest value kept) and the cursor advances by one, and each range slot takes the allocation of the last of the |shifts| writes from the cursor that reaches it, the cursor advancing by |shifts| modulo the table size |
| DiffMatching.RequestSample | src/mem/cache/prefetch/diff_matching.cc:520-542 | one target entry: skipped unless valid and of the PC, aborted when the address exceeds `int64_t`, repeated when it equals the newest value, filtered when a sampling range entry sees it continue a run, otherwise filled with the address, with the new delta appended to its history; the step, the entry's new state and the range entries' new views are those of `RequestTurn` on the old values |
| DiffMatching.FilterAndFill | src/mem/cache/prefetch/diff_matching.cc:527-542 | `rangeFilter` passes iff no sampling range entry sees the address continue its run; every range entry takes its sample step; the entry is filled only on a pass |
| DiffMatching.RequestTurn | src/mem/cache/prefetch/diff_matching.cc:517-542 | one turn of the request loop on values: skipped, aborted, repeated, filtered or filled; the entry's key never changes, only a fill changes the entry, and the range entries change only when the filter ran |
| DiffMatching.RequestTurns | src/mem/cache/prefetch/diff_matching.cc:514-548 | the turns over the target entries in order: one step and one state per entry, and an entry that is not a valid entry of the PC is skipped and unchanged |
| DiffMatching.RequestTurnsPrefix | src/mem/cache/prefetch/diff_matching.cc:514-548 | the turns over the first k + 1 entries are those over the first k followed by turn k on the range views they left |
| DiffMatching.RequestTurnsAbort | src/mem/cache/prefetch/diff_matching.cc:517-519 | a turn aborts exactly on a valid entry of the PC when the address exceeds `int64_t`; with such an address no entry state and no range entry changes |
| DiffMatching.CountMiss | src/mem/cache/prefetch/diff_matching.cc:210-227 | the scoreboard's counters become those of `MissSweep` and the flag is its verdict; the target and range tables are untouched |
| DiffMatching.ResponseWordFits | src/mem/cache/prefetch/diff_matching.cc:577-588 | the word read from the packet's own bytes always passes the `int64_t` assertion and survives the copy into `int32_t` |
| DiffMatching.ReadResponse | src/mem/cache/prefetch/diff_matching.cc:575-600 | the word of the packet's own bytes (missing high bytes zero), narrowed to `int32_t`, is recorded by each valid index entry of the PC and context whose newest value differs, and by no other |
| DiffMatching.CollectFill | src/mem/cache/prefetch/diff_matching.cc:644-676 | the candidates are those of every valid relation of the PC, in table order |
| DiffMatching.EntryWords | src/mem/cache/prefetch/diff_matching.cc:656-676 | for one relation, the candidates of the whole words from the fill offset to its range end, in offset order |
| DiffMatching.WordAt | src/mem/cache/prefetch/diff_matching.cc:669-676 | the word at offset i, little-endian, shifted and rebased, as a block address for the relation's target PC and context |
| DiffMatching.Prefetcher.constructor | src/mem/cache/prefetch/diff_matching.cc:16-46 | all tables at their configured sizes, every entry invalid and every cursor at 0 |
| DiffMatching.Prefetcher.InsertIndexQueue | src/mem/cache/prefetch/diff_matching.cc:231-246 | the queue and its cursor become their `insertIndexQueue` successor; each key stays at most once |
| DiffMatching.Prefetcher.PickIndexPC | src/mem/cache/prefetch/diff_matching.cc:133-159 | the pick of `PickIndex`, with its exact effect on the queue, the scoreboard and the index table, on the prefetcher's own tables |
| DiffMatching.Prefetcher.NotifyICSMiss | src/mem/cache/prefetch/diff_matching.cc:208-228 | the miss sweep of `MissEvent` and the promotion of a selected PC, with their exact effects, on the prefetcher's own tables |
| DiffMatching.Prefetcher.SampleEntry | src/mem/cache/prefetch/diff_matching.cc:520-542 | one target entry's turn before any matching is exactly `RequestTurn` on its old state and the old range views; other target entries keep their states, and the index table, scoreboard, relation table and queue are untouched |
| DiffMatching.Prefetcher.NotifyL1Req | src/mem/cache/prefetch/diff_matching.cc:505-555 | a request without a PC or address changes nothing; otherwise the turns taken are `RequestTurns` over the target entries the loop reached, those entries take the turns' states, the rest keep theirs, and the range entries hold the final views; `ok` holds exactly when every entry was reached without an abort, and otherwise the last turn aborted or its matching did; the relation table and queue change only when some turn filled a ready entry |
| DiffMatching.Prefetcher.RequestLoop | src/mem/cache/prefetch/diff_matching.cc:514-548 | the loop's turns are `RequestTurns` over the entries it reached; reached entries take the turns' states and the others keep theirs; `ok` holds exactly when every entry was reached without an abort; the relation table and queue change only when some turn filled a ready entry |
| DiffMatching.Prefetcher.TakeTurns | src/mem/cache/prefetch/diff_matching.cc:514-548 | the loop keeps `TurnsTaken`: the turns so far, the entries' states and the range views agree with `RequestTurns` on the old values; it stops early only on an abort |
| DiffMatching.Prefetcher.TakeTurn | src/mem/cache/prefetch/diff_matching.cc:517-547 | turn k extends the turns of entries 0 to k - 1 by `RequestTurn` of entry k; matching runs iff that turn filled a ready entry, and otherwise the relation table and queue are unchanged |
| DiffMatching.Prefetcher.RequestEntry | src/mem/cache/prefetch/diff_matching.cc:520-547 | one target entry: the turn is `RequestTurn` on the old state and range views; `diffMatching` runs iff that turn filled the entry and it is ready; a match that completes leaves the relation table and queue with `MatchEffect` over all matches of the entry's window; without a match they are unchanged |
| DiffMatching.Prefetcher.MatchTarget | src/mem/cache/prefetch/diff_matching.cc:545-547 | `diffMatching` on a ready target entry leaves the target and range tables untouched and, when it completes, the relation table and queue with `MatchEffect` over all matches of the entry's window against the index table |
| DiffMatching.Prefetcher.NotifyL1Resp | src/mem/cache/prefetch/diff_matching.cc:558-606 | for a packet no longer than a block: a response without a PC or data changes nothing; otherwise every index entry takes the `AfterResponse` step with the `int32_t` word of the packet's own bytes, read little-endian with missing high bytes zero |
| DiffMatching.Prefetcher.NotifyFill | src/mem/cache/prefetch/diff_matching.cc:609-731 | a fill without a PC or data yields nothing; otherwise the packet bytes (at most a block) fill the start of a block-sized buffer whose other bytes are the stale ones, and the candidates are `FillCandidates` of that buffer from offset `paddr & (blkSize-1)`: those of every valid relation of the PC, each block-aligned, below 2^64, for the relation's target PC and context |
| DiffMatching.Prefetcher.Notify | src/mem/cache/prefetch/diff_matching.cc:734-771 | a miss goes to `notifyICSMiss` with 0 for each missing field, with its exact effects, and yields no candidates; anything else goes to `notifyFill`, yields `FillCandidates` of the packet bytes over the stale buffer bytes (nothing without a PC or data) and leaves the tables unchanged |
| DiffMatching.Prefetcher.CallReadyToIssue | src/mem/cache/prefetch/diff_matching.cc:774-782 | the PC of an issued prefetch joins the index queue |
| DiffMatching.Prefetcher.DiffMatching | src/mem/cache/prefetch/diff_matching.cc:325-363 | reports a match iff it is a match of the target against a valid, ready index entry of its context, in loop order; together the reports write at most one relation, each reported relation is present afterwards, and the queue follows the reports |
| FieldRecords.DigitsRoundTrip | exp_scripts/extract_data.py:38-39 | reading the decimal digits of a natural number back gives the number |
| FieldRecords.DecimalRoundTrip | exp_scripts/extract_data.py:38-39 | `str` of an int, read back with `int`, gives the int, negatives included |
| FieldRecords.TextForm | exp_scripts/extract_data.py:38-39 | for the value kinds modelled, a string is stored unchanged, an int as a decimal form that reads back to it, a bool as `True` or `False` |
| FieldRecords.GenFieldRecord | exp_scripts/extract_data.py:33-50 | `gen_field_record` returns the records of all the fields; none for no fields; with every value list non-empty, one record per combination, Π len(values) of them |
| FieldRecords.FieldStep | exp_scripts/extract_data.py:37-46 | the value loop of one field builds the list `Step` describes |
| FieldRecords.Extend | exp_scripts/extract_data.py:43-46 | the copy loop makes one record per earlier record, in order, each the earlier record with the field set to the value |
| FieldRecords.Spread | exp_scripts/extract_data.py:40-46 | each value of a field appends at least one record |
| FieldRecords.Step | exp_scripts/extract_data.py:37-46 | the value loop of a field appends nothing exactly when the field has no values |
| FieldRecords.AddValue | exp_scripts/extract_data.py:40-46 | one value appends a fresh one-key record when there are no earlier records, else a copy of every earlier record with the field set |
| FieldRecords.StepLength | exp_scripts/extract_data.py:36-46 | each value of a field contributes max(len(pre), 1) records |
| FieldRecords.StepOrder | exp_scripts/extract_data.py:37-46 | value j combined with earlier record k sits at j · len(pre) + k and is that record with only the field set: the newest field varies slowest |
| FieldRecords.CopyKeepsRecord | exp_scripts/extract_data.py:44-45 | the copy with the new field set gives back the earlier record once that field is removed |
| FieldRecords.StepFresh | exp_scripts/extract_data.py:40-41 | with no earlier records, value j of the field is record j, holding that field alone |
| FieldRecords.RecordCount | exp_scripts/extract_data.py:33-50 | with every value list non-empty there are Π len(values) records |
| FieldRecords.RecordKeys | exp_scripts/extract_data.py:33-50 | every record has exactly the names of the fields from the last empty one on |
| FieldRecords.AllKeys | exp_scripts/extract_data.py:33-50 | with every value list non-empty, every record has exactly the names of all the fields |
| FieldRecords.StartZero | exp_scripts/extract_data.py:33-50 | with every value list non-empty, the records start from the first field |
| FieldRecords.Restart | exp_scripts/extract_data.py:40-41 | a field with no values empties the list and the next field starts again as if it were the first |
| FieldRecords.EmptyFieldDrops | exp_scripts/extract_data.py:37-49 | a field with no values leaves no records, and the field after it makes one-key records |
| FieldRecords.FitsAt | exp_scripts/extract_data.py:38-45 | a fitting record maps each field to the string form of one of that field's values |
| FieldRecords.RecordValues | exp_scripts/extract_data.py:33-50 | with distinct field names, every record maps each field from the last empty one on to the string form of one of its values |
| TriangleCount.InsertCorrect | serial_workload/tc/src/tc.cpp:74 | inserting one value adds exactly that value and keeps an ascending row ascending |
| TriangleCount.SortCorrect | serial_workload/tc/src/tc.cpp:74 | `sort` leaves a row ascending and a permutation of itself |
| TriangleCount.Sort | serial_workload/tc/src/tc.cpp:74 | the sorted row has the row's length (ascending and a permutation: `SortCorrect`) |
| TriangleCount.FlatSorted | serial_workload/tc/src/tc.cpp:72-81 | the slice of `col_idx` between the pointers of row i is row i sorted, and the pointers never decrease |
| TriangleCount.SegmentSorted | serial_workload/tc/src/tc.cpp:72-81 | row i's segment of `col_idx` is exactly as long as row i and holds row i sorted: ascending and a permutation of the row |
| TriangleCount.FlatCells | serial_workload/tc/src/tc.cpp:75-77 | every cell of `col_idx` comes from one of the rows |
| TriangleCount.Assembled | serial_workload/tc/src/tc.cpp:72-81 | the assembled arrays form a CSR graph: pointers from 0 to the length of `col_idx`, every column a node, when every row names nodes |
| TriangleCount.OffDiagonalSegments | serial_workload/tc/src/tc.cpp:67-81 | when no row holds its own index, no segment does either |
| TriangleCount.RowsOffDiagonal | serial_workload/tc/src/tc.cpp:67 | no row vector holds its own index: diagonal entries are skipped |
| TriangleCount.RowsCollect | serial_workload/tc/src/tc.cpp:65-70 | row i holds, in input order, the column of every off-diagonal entry of row i + 1 |
| TriangleCount.Rows | serial_workload/tc/src/tc.cpp:65-70 | there is one row vector per node |
| TriangleCount.Gather | serial_workload/tc/src/tc.cpp:65-70 | the entry loop builds exactly the row vectors `Rows` describes |
| TriangleCount.HitsCount | serial_workload/tc/src/tc.cpp:91-92 | the innermost loop counts the occurrences of the value among the cells of row n |
| TriangleCount.PairHitsCommon | serial_workload/tc/src/tc.cpp:90-93 | with ascending rows without repeats, the two inner loops count the cells of row i that also lie in row n: their common neighbours |
| TriangleCount.HitsOnce | serial_workload/tc/src/tc.cpp:91-92 | in a row without repeats a value is counted at most once |
| TriangleCount.DistinctMultiplicity | serial_workload/tc/src/tc.cpp:91-92 | in a sequence without repeats a value occurs once or not at all |
| TriangleCount.Report | serial_workload/tc/src/tc.cpp:100 | `TC_tot / 6` with C's truncating division: the quotient is within one step of tot / 6 on the side of zero, negatives included |
| TriangleCount.Counter.constructor | serial_workload/tc/src/tc.cpp:20-26 | the zero-initialised globals: empty `col_idx`, zero row pointers and zero count |
| TriangleCount.Counter.Assemble | serial_workload/tc/src/tc.cpp:72-81 | `col_idx` becomes the rows sorted and concatenated; both pointer arrays hold the running offsets; the arrays form a graph when the rows name nodes |
| TriangleCount.Counter.AssembleRow | serial_workload/tc/src/tc.cpp:73-81 | one row is sorted and appended and both pointers to its end are set |
| TriangleCount.Counter.LoadedFrom | serial_workload/tc/src/tc.cpp:72-81 | arrays holding the assembly of rows that name nodes describe a CSR graph |
| TriangleCount.Counter.PushRow | serial_workload/tc/src/tc.cpp:75-77 | `col_idx` grows by the row, in order |
| TriangleCount.Counter.Kernel | serial_workload/tc/src/tc.cpp:85-97 | `TC_tot` grows by the sum over rows i, neighbours n of i and cells k of i of the number of cells l of n equal to cell k; nothing else changes |
| TriangleCount.Counter.KernelRow | serial_workload/tc/src/tc.cpp:88-95 | one row adds the hits of all its neighbours |
| TriangleCount.Counter.KernelNeighbour | serial_workload/tc/src/tc.cpp:89-94 | one neighbour adds the hits of every cell of row i against that neighbour's row |
| TriangleCount.Counter.KernelCell | serial_workload/tc/src/tc.cpp:91-93 | one cell adds the number of cells of the neighbour's row equal to it |
| SparseMatrix.Store | serial_workload/spmm/mat_csr.h:4 | storing into `value_t` keeps the value modulo 256, and a value below 256 unchanged |
| SparseMatrix.StoreAdd | serial_workload/spmm/mat_csr.cc:52 | truncating `res_mat` to `value_t` after every `+=` equals truncating the whole sum once |
| SparseMatrix.RowShape | serial_workload/spmm/mat_csr.cc:28-37 | the columns stored for a row are columns of the matrix in strictly ascending order, and each stored value is the non-zero entry of its column |
| SparseMatrix.RowColsRange | serial_workload/spmm/mat_csr.cc:28-37 | every column stored for a row is a column of the matrix |
| SparseMatrix.ColsPrefix | serial_workload/spmm/mat_csr.cc:24-38 | compressing more rows only appends: the cells of the first r rows stay at the front |
| SparseMatrix.RoundTrip | serial_workload/spmm/mat_csr.cc:24-38 | looking a cell up in its row's stored columns and values gives back the dense cell, zeros included |
| SparseMatrix.StoredRowIs | serial_workload/spmm/mat_csr.cc:24-38 | the stored row holds exactly the non-zero cells of the dense row, by column |
| SparseMatrix.RowDot | serial_workload/spmm/mat_csr.cc:48-53 | summing over a row's stored cells equals the dense dot product of the row with a column of the dense matrix |
| SparseMatrix.Product | serial_workload/spmm/mat_csr.cc:46-55 | the stored cells of row i multiply a dense column exactly as the dense row does |
| SparseMatrix.Accumulate | serial_workload/spmm/mat_csr.cc:48-53 | one more `+=` extends the truncated running sum by one stored cell |
| SparseMatrix.Compressed | serial_workload/spmm/mat_csr.cc:24-38 | each row's cells `row_ptr[r] .. row_ptr[r+1]` lie within `col_idx` and name a column below `col_num` |
| SparseMatrix.MatCSR.constructor | serial_workload/spmm/mat_csr.cc:3-10 | `row_num + 1` pointers and `nz_num` cells are allocated and the last pointer is `nz_num`, so `GetNZNum` returns `nz_num` |
| SparseMatrix.MatCSR.InitOrderedValues | serial_workload/spmm/mat_csr.cc:19-41 | returns true; pointer r becomes the count of non-zero cells above row r; `col_idx` and `values` begin with those cells' columns and values, row by row; the last pointer stays as allocated, so a correctly sized matrix is exactly its CSR form |
| SparseMatrix.MatCSR.Filled | serial_workload/spmm/mat_csr.cc:19-41 | when the allocation matched the non-zero count, the arrays are exactly the CSR form of the matrix |
| SparseMatrix.MatCSR.CompressRow | serial_workload/spmm/mat_csr.cc:26-37 | one row: its pointer is set to the cells so far and its non-zero cells are appended |
| SparseMatrix.MatCSR.ScanRow | serial_workload/spmm/mat_csr.cc:28-37 | the column loop writes the row's non-zero cells from the cursor on |
| SparseMatrix.MatCSR.ScanCell | serial_workload/spmm/mat_csr.cc:30-36 | one cell: written and the cursor advanced iff it is non-zero |
| SparseMatrix.MatCSR.StoreCell | serial_workload/spmm/mat_csr.cc:32-33 | one column and value written at the cursor, nothing else |
| SparseMatrix.MatCSR.SeqSpMM | serial_workload/spmm/mat_csr.cc:43-58 | returns true; every `res_mat[i][k]` becomes its old value plus row i of the matrix times column k of the dense matrix, modulo 256 |
| SparseMatrix.MatCSR.CompressedProduct | serial_workload/spmm/mat_csr.cc:43-58 | on the CSR form of a dense matrix, the stored product of row i and column k is the dense product |
| SparseMatrix.MatCSR.MultiplyRow | serial_workload/spmm/mat_csr.cc:48-54 | row i of the result gains its row product; other rows are untouched |
| SparseMatrix.MatCSR.AddCell | serial_workload/spmm/mat_csr.cc:50-53 | one stored cell adds its contribution to every column of result row i |
| SparseMatrix.MatCSR.MultiplyCell | serial_workload/spmm/mat_csr.cc:50-53 | the k loop for one stored cell, on row i only |
| CsrGraph.MarkedSet | serial_workload/bfs/src/bfs_csr.c:120-124 | setting an unmarked node's `vis` cell marks exactly one more node |
| Bfs.ClosedReach | serial_workload/bfs/src/bfs_csr.c:113-127 | when every marked node has all its neighbours marked, every node reachable from a marked node is marked |
| Bfs.ExpandedGrows | serial_workload/bfs/src/bfs_csr.c:120-124 | marking more nodes keeps every node whose neighbours were all marked in that state |
| Bfs.MarkedZeros | serial_workload/bfs/src/bfs_csr.c:138-141 | cleared marks count zero marked nodes |
| Bfs.Clear | serial_workload/bfs/src/bfs_csr.c:138-141 | every depth becomes -1 and every mark 0 |
| Bfs.VisitFacts | serial_workload/bfs/src/bfs_csr.c:120-124 | after one cell the neighbour is marked, earlier marks and depths are kept, and the only new mark is that neighbour, at `depth` |
| Bfs.Visit | serial_workload/bfs/src/bfs_csr.c:120-124 | visiting one cell keeps the search within the node count, never moves the head of the queue, and keeps every queued node where it was |
| Bfs.VisitTracked | serial_workload/bfs/src/bfs_csr.c:120-124 | a visit keeps the queue holding exactly the marked nodes, each once |
| Bfs.VisitRangeKeeps | serial_workload/bfs/src/bfs_csr.c:117-125 | after the loop over a row every cell's node is marked, and earlier marks and depths are kept |
| Bfs.VisitRangeNew | serial_workload/bfs/src/bfs_csr.c:117-125 | each node the loop newly marks is named in the row and recorded at `depth` |
| Bfs.VisitRangeTracked | serial_workload/bfs/src/bfs_csr.c:117-125 | the loop over a row keeps the queue holding exactly the marked nodes, each once |
| Bfs.VisitRange | serial_workload/bfs/src/bfs_csr.c:117-125 | the loop over a row keeps the search within the node count, never moves the head of the queue, and keeps every queued node where it was |
| Bfs.StepFacts | serial_workload/bfs/src/bfs_csr.c:115-125 | after one call the dequeued node has all its neighbours marked, earlier marks and depths are kept, and every new mark is a neighbour of it at `depth` |
| Bfs.StepTracked | serial_workload/bfs/src/bfs_csr.c:115-125 | one call keeps the queue tracked |
| Bfs.Step | serial_workload/bfs/src/bfs_csr.c:115-125 | one call dequeues exactly one node and keeps every node already queued where it was |
| Bfs.KernelKeeps | serial_workload/bfs/src/bfs_csr.c:113-127 | the recursion ends with an empty queue and keeps every mark and depth already present |
| Bfs.KernelSpec | serial_workload/bfs/src/bfs_csr.c:113-127 | the head and the tail of the queue only advance, and nodes already queued stay where they were |
| Bfs.KernelDepth | serial_workload/bfs/src/bfs_csr.c:113-127 | a node the kernel marks was found in the row of the node it dequeued at queue position j, at depth `depth + (j − queue_start_ptr)`: the depth grows once per dequeued node, not once per level |
| Bfs.KernelSearched | serial_workload/bfs/src/bfs_csr.c:113-127 | the kernel keeps a consistent search consistent: every dequeued node has all its neighbours marked |
| Bfs.DrainedClosed | serial_workload/bfs/src/bfs_csr.c:115 | a consistent search with an empty queue has its marks closed under edges |
| Bfs.KernelReaches | serial_workload/bfs/src/bfs_csr.c:113-127 | from a consistent search the kernel marks every node reachable from a marked node |
| Bfs.ReachStep | serial_workload/bfs/src/bfs_csr.c:117-121 | a node reachable from the start, followed by an edge, reaches the neighbour |
| Bfs.VisitRangeUnmarked | serial_workload/bfs/src/bfs_csr.c:117-124 | a node the row loop leaves unmarked was unmarked before and keeps its depth |
| Bfs.StepFromStart | serial_workload/bfs/src/bfs_csr.c:115-125 | one call keeps every mark reachable from the start and every unmarked depth at -1 |
| Bfs.KernelFromStart | serial_workload/bfs/src/bfs_csr.c:113-127 | the kernel keeps every mark reachable from the start and every unmarked depth at -1 |
| Bfs.KernelComponent | serial_workload/bfs/src/bfs_csr.c:113-127 | from the seeded start, a node ends marked exactly when it is reachable from the start, and an unreachable node keeps depth -1 |
| Bfs.Started | serial_workload/bfs/src/bfs_csr.c:106-110 | the start point queued alone, marked alone and at depth 0 is a consistent search from itself |
| Bfs.Search.constructor | serial_workload/bfs/src/bfs_csr.c:81-85 | marks cleared, depths -1, then the start point queued alone, marked and at depth 0: a consistent search from the start point |
| Bfs.Search.Reset | serial_workload/bfs/src/bfs_csr.c:138-145 | the warm-up reset: every mark and depth cleared, then the start point queued alone again, marked and at depth 0: a consistent search from the start point |
| Bfs.Search.Kernel | serial_workload/bfs/src/bfs_csr.c:113-127 | `BFS_kernel(depth)` takes the search to its `KernelSpec` state |
| Bfs.Search.Expand | serial_workload/bfs/src/bfs_csr.c:117-125 | the loop over the dequeued node's row is one `Visit` per cell |
| Bfs.Search.VisitEdge | serial_workload/bfs/src/bfs_csr.c:120-124 | an unmarked neighbour is queued, recorded at `depth` and marked; a marked one changes nothing |
| ConnectedComponents.TotalUpdate | serial_workload/cc/src/cc_csr.c:102 | rewriting one label changes the label sum by the difference |
| ConnectedComponents.TotalNonNegative | serial_workload/cc/src/cc_csr.c:81-83 | node-number labels have a non-negative sum, so the falling sum bounds the number of rounds |
| ConnectedComponents.ShiloachVishkin | serial_workload/cc/src/cc_csr.c:77-116 | on return every label is a root no larger than its node, both ends of every edge carry the same label, and two nodes share a label exactly when an undirected path joins them |
| ConnectedComponents.InitLabels | serial_workload/cc/src/cc_csr.c:81-83 | every node is its own label, so every node is connected to its label |
| ConnectedComponents.HookAll | serial_workload/cc/src/cc_csr.c:90-105 | a pass that hooks nothing leaves the labels untouched and finds every edge agreeing; a pass that hooks lowers the label sum; every node stays connected to its label |
| ConnectedComponents.HookRow | serial_workload/cc/src/cc_csr.c:92-104 | the edges of one row: unchanged labels mean the row's edges already agree; a hook lowers the label sum; every node stays connected to its label |
| ConnectedComponents.HookEdge | serial_workload/cc/src/cc_csr.c:93-103 | differing labels whose larger one is a root: that root is set to the smaller label, their minimum, which the edge connects to it; otherwise nothing changes, and roots on both ends then agree |
| ConnectedComponents.Shortcut | serial_workload/cc/src/cc_csr.c:107-112 | afterwards every label is a root; labels only fall; roots stay; labels that were all roots stay as they were; every node stays connected to its label |
| ConnectedComponents.ShortcutNode | serial_workload/cc/src/cc_csr.c:109-111 | only comp[s] changes, it only falls, to a label connected to s, it ends at a root, and it stays when it already was one |
| ConnectedComponents.ConnectedRefl | serial_workload/cc/src/cc_csr.c:81-83 | a node is connected to itself, so the initial labels are connected to their nodes |
| ConnectedComponents.LinkConnected | serial_workload/cc/src/cc_csr.c:92-95 | the two ends of an edge are connected |
| ConnectedComponents.ConnectedSym | serial_workload/cc/src/cc_csr.c:92-95 | edges are taken in both directions, so connection is symmetric |
| ConnectedComponents.ConnectedTrans | serial_workload/cc/src/cc_csr.c:100-111 | connection is transitive, which keeps hooked and shortcut labels connected to their nodes |
| ConnectedComponents.AgreesAlongPath | serial_workload/cc/src/cc_csr.c:87-113 | labels that agree on every edge agree along every path |
| ConnectedComponents.ComponentsOfLabels | serial_workload/cc/src/cc_csr.c:87-113 | labels connected to their nodes and agreeing on every edge are the components: the same label iff connected |

## Left out

- Statistics and debug output (`DMPStats`, the per-PC counters, `prefetchHit`, `DPRINTF`): observability only, no effect on the tables.
- Event scheduling (`checkNewIndexEvent`, `schedule`, `curTick`, `clockPeriod`): `PickIndexPC` is a plain method the environment calls once per period.
- The prefetch issue path (`alreadyInQueue`, `pfq`, `pfqMissingTranslation`, `DeferredPacket`, TLB translation, `cache->system->threads`): not shown; `NotifyFill` returns the candidate list instead of queueing it.
- Parent-class calls (`Stride::calculatePrefetch`, which is all `calculatePrefetch` does, and `Queued::notify`) and the cache queries `inCache`, `inMissQueue`, `hasBeenPrefetched`, `getCacheBlk`: not shown; the queried facts are fields of the `Access` record given to `ObserveAccess`.
- Packet accessors (`hasPC`, `getVaddr`, `writeData`, `validData`): reduced to the `Request` record with optional fields and the optional packet bytes.
- DiffMatching.Prefetcher.NotifyFill: the bytes of the `fill_data` stack buffer past a packet shorter than a block are never written (diff_matching.cc:626-628), and the model takes them as the parameter `stale` without saying what they hold; for a hit packet no longer than its block offset the candidates are therefore stated only in terms of those bytes, and `SubBlockHitIgnoresPacket` shows that the packet's own bytes then play no part.
- `getWeight`: its floating-point body is not shown; the weight is the engine parameter `weight`, and only its order matters.
- The manual seeding in the `DiffMatching` constructor's `!auto_detect` branch (diff_matching.cc:47-84): it calls `update` overloads that are not shown; the constructor allocates the tables only.
- `update`, `validate`, `isReady`, `getContextId`, the two-argument `fill` and the `RangeTableEntry`/`ICSEntry` constructors: their bodies are not shown; the model fixes them by the assumptions stated above.
- The 8-byte `memcpy` into a 4-byte `IndexData` (diff_matching.cc:588): memory past the variable is not modelled, only the resulting 32-bit value.
- The `assert`s of `insertRT` (a base that does not fit) and of `notifyL1Req` (a target value outside `int64_t`): a failing assert is modelled as an early return with `ok == false`, after which only the validity of the tables is stated.
- DiffMatching.Prefetcher.NotifyL1Resp: the `assert(pkt->getSize() <= blkSize)` of `notifyL1Resp` (diff_matching.cc:571), like the same assert of `notifyFill` (diff_matching.cc:626) in `NotifyFill` and `Notify`, is taken as a precondition (`requires data.Some? ==> |data.value| <= Pow2(lBlkSize)`): a cache never hands the prefetcher a packet longer than a block, so the abort the assert would cause is not modelled.
- DiffMatching.MatchEntries: over a whole run of reports the contract states that at most one relation is written, that `insertRT` would refuse every reported relation afterwards and that the target PC is queued, not the exact index queue after the run; the exact effect of each single report is stated by `Report` and `MatchUpdate`.
- DiffMatching.Prefetcher.DiffMatching: states the same loop-level effect as `MatchEntries`, for the same reason.
- DiffMatching.Prefetcher.MatchTarget: the effect on the relation table and the index queue (`MatchEffect`) is stated only when the match ran to the end; after an `insertRT` assert that fails part-way, only the validity of the tables and that the delta tables and the range table are untouched are stated.
- DiffMatching.Prefetcher.RequestEntry: states the outcome, the entry's new state and the range table's new views exactly (the fold step `RequestTurn`), but the relation table and the index queue only through `MatchTarget`'s contract, so an aborted match leaves them unstated.
- DiffMatching.Prefetcher.NotifyL1Req: the ghost fold `turns` fixes the outcome of every turn and the final target entries and range table; the relation table and the index queue are stated only when no turn matched, for the reason given for `MatchTarget`.
- TriangleCount.Counter.Kernel: `TC_tot` is a 32-bit `int` in tc.cpp; the model counts with unbounded integers, so the result is exact only while the total stays below 2^31 (past that the C++ total overflows, which is undefined behaviour).
- Bfs.Search.constructor: sizes `vis`, `result` and the queue by the node count, whereas bfs_csr.c:63-66 allocates them by `nnz` (the number of edges); for a graph with fewer edges than nodes the clearing loops (bfs_csr.c:81-85 and 138-142) write `result` past its buffer and the queue can outgrow its buffer, which the model does not capture.
- FieldRecords.GenFieldRecord: the values modelled are strings, ints and bools; `str` of the other Python values extract_data.py may receive (floats, `None`, lists and so on) is not modelled.
- `PrefetchInfo` constructors (base.cc): buffer copying, no logic.
- Floating-point and OpenMP workloads (bc_csr.c, sssp_csr.c, pr_csr.c, symgs_csr.c, spmv_csr_omp_4.c): floating point and threads are outside the model.
- File parsing and randomness (`parse_*_mtx`, the file part of `read_data`, `generate_start_point`, the `main` drivers, spmm.cc over `data.h`): the start node and the parsed entries are parameters.
- `extract_stats` and the module-level code of extract_data.py: file reads and pandas.

## Findings

| source | as written | input that shows it | evidently intended | confidence | as-written member | corrected member |
|---|---|---|---|---|---|---|
| src/mem/cache/prefetch/diff_matching.cc:656-673 | the fill loop walks offsets while `i_of < range_end` and reads the four bytes `fill_data[i_of .. i_of+3]`; a relation without a range has `range_end = data_offset + 4`, which is not clipped to the block, and a clipped range end still lets a word start within three bytes of it | a 64-byte block and a single-word relation whose index was loaded at offset 62: the loop reads bytes 62 to 65, two of them past the block; a range relation loaded at offset 61 has `range_end = min(61 + 4 * range_degree, 64) = 64` and reads bytes 61 to 64 | decode only whole words that lie inside the block | not executed | `MatchSpec.WalkAsWrittenOverruns` | `MatchSpec.Walk` |
| src/mem/cache/prefetch/diff_matching.cc:571-581 | `notifyL1Resp` copies the packet into a buffer of `pkt->getSize()` bytes and always reads its bytes 0 to 3 as the little-endian word | a 1-byte response carrying 7: bytes 1 to 3 lie past the buffer, and with 1, 0, 0 there the word read is 263 instead of 7 | read only the packet's own bytes, with the missing high bytes zero | not executed | `MatchSpec.ResponseWordOverreads` | `MatchSpec.ResponseWord` |
