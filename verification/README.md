# Verified models of the ARC cache and its companion tools

Dafny 4.11 models, with proofs, of the ARC replacement policy inside the Ruby set-associative cache, and of
six tools that ship with the simulator. `dafny verify dfyconfig.toml` checks the whole project.

- **ARC and the Ruby cache.** `ArcSpec` has the policy on values: replacement data, ghost lists, target, victim.
  `ArcPolicy` has it as the classes that run: entries and replacement data that point at each other, per-set
  vectors changed in place, a victim search that scans. `CacheSpec` has the cache on values (cells, tag index,
  policy state), `CacheLaws` what each operation keeps and how they combine, `CacheRuns` and `GhostHistory` what
  holds over every run, `CacheWitnesses` two concrete runs that show where the code falls short. `RubyCache` is
  the cache object itself; its `Valid` ties every pointer to a value of `CacheSpec`, and that value to a run of
  `CacheRuns`, so all results on runs hold of the object.
- **Pipeline viewer.** `ReorderQueue` (the sort-and-flush queue) and `PipeViewer` (trace to printed output).
- **Checkpoint upgrader.** `CheckpointUpgrader`: dependency resolution and the worklist.
- **Message stream.** `MessageStream`: Base 128 varints of the Protocol Buffers encoding, and length-prefixed messages.
- **Small kernels.** `YearRanges` (year sets to text and back), `TesterTree` (tester count against the recursive
  builder), `LogRoll` (circular buffer against the last n lines).

What the proofs rest on, and where the code differs from its own words:

- The clock, line addresses and entries to insert are parameters. The value of a line holds its address, its
  permission and the entry object itself, so the plain map that runs refine is what a lookup returns.
- A resident entry is never made NotPresent, as the warning in `allocate` demands; `AllocateKeepsAgreementExactlyWhen`
  says exactly what that rule buys and `NotPresentBreaksIndex` what happens without it.
- The target update reads the ghost list sizes after the hit was removed, so it can divide by zero. That is an
  outcome of the model, `ResetTrapsExactlyWhen` says when it occurs and `DivisionByZeroReachable` reaches it.
  `DisciplineNeverTraps` gives the callers' rule under which it cannot, and under which the policy never adapts.
- The ghost cap is the number of set slots created so far, not the associativity its comment names.
- Nothing writes the policy's tag field. Runs have an extra step `Retag` for code outside, so results hold for any
  tags; `TagsStayZero` and `FillsWithoutTags` say what follows from the code as it is. Ghosts and residents are not
  claimed to be disjoint, as a probe records a ghost whether or not the caller evicts.
- The back link from replacement data to its entry is uninitialised in the source and null here; it is always written
  before it is read.
- The upgrader's description says that depending on a downgraded tag means waiting for its removal. The code waits
  for its presence; `RemovedDependencyNeverMet` and `AnyOrderRunsReadyExactlyWhen` give the consequences.
- A message length from 2^63 on masks to a negative size. A read of size -1 returns all that is left; any smaller size
  raises an exception that the reader does not catch, which is an outcome of its own here.
- Integers are unbounded; `TargetFitsInt32` covers the 32-bit target.

## Model

| member | source | states |
|---|---|---|
| ArcSpec.VictimExistsUniquely | arc_rp.cc:113-174 | a victim exists exactly when some candidate is valid, and is unique: the first line of least tick on the chosen list if one there is older than now, else the first valid candidate |
| ArcSpec.FromT1Means | arc_rp.cc:130-141 | the search is in T1 exactly when the set of valid T1 candidates has more than target elements or holds every valid candidate |
| ArcSpec.VictimMeans | arc_rp.cc:130-165 | an exact description of the victim by sets of candidates: the list by its number of valid lines against the target, then the first of least tick older than now, else the first valid one |
| ArcSpec.VictimFollowsTarget | arc_rp.cc:140-154 | with every line older than now and both lists occupied the victim is on T1 exactly when T1 has more lines than the target; with one list occupied it is on that one |
| ArcSpec.ChosenListNonempty | arc_rp.cc:130-154 | with a target of at least 0 and lines on T1 or T2, the list the target test picks is never empty |
| ArcSpec.DeltaLaw | arc_rp.cc:75-88 | the step is undefined exactly for an emptied hit list and a non-empty other one; otherwise at least 1, and 1 or the ceiling of the ratio of sizes |
| ArcSpec.ResetTrapsExactlyWhen | arc_rp.cc:63-88 | the adjustment divides by zero exactly when the hit entry was alone in its list and the other list is not empty |
| ArcSpec.Adaptation | arc_rp.cc:63-88 | a B1 hit raises the target below n-1, keeps n-1, and drops n to n-1; a B2 hit never raises it and strictly lowers a positive one |
| ArcSpec.TargetMoves | arc_rp.cc:75-88 | the new target after a hit, in numbers: up by the step to at most the sum of the sizes, or down by it to at least 0, the step being 1 or the least multiplier that takes the hit list to the other one |
| ArcSpec.ResetKeepsInv | arc_rp.cc:41-111 | a defined reset keeps the target within 0 and the number of ghosts, each list within the number of set slots, and the vectors of equal length |
| ArcSpec.EvictKeepsInv | arc_rp.cc:90-174 | a victim search, which remembers the tag of its victim, keeps the same invariant |
| ArcSpec.TargetFitsInt32 | arc_rp.cc:81-87 | below 2^29 set slots no sum the target update forms leaves a 32-bit int |
| ArcPolicy.ReplData.constructor | arc_rp.hh:20-27 | tick 0, list 1, not valid, tag 0 |
| ArcPolicy.Entry.SetPosition | replaceable_entry.hh:92-100 | set and way recorded, and replacement data, if any, linked back, all else unchanged |
| ArcPolicy.Arc.Invalidate | arc_rp.cc:25-30 | only the valid flag is cleared |
| ArcPolicy.Arc.Touch | arc_rp.cc:32-39 | the tick becomes now and a T1 line moves to T2 |
| ArcPolicy.Arc.MakeRoom | arc_rp.cc:56-61 | room for the set, every list and target as before |
| ArcPolicy.Arc.RemoveFromGhost | arc_rp.cc:101-111 | true exactly when the tag is there, and then its first occurrence is gone and nothing else |
| ArcPolicy.Arc.AdjustP | arc_rp.cc:75-88 | the target moves by the step of the two sizes within its clamp, or the division by zero is reported, exactly for an empty hit list and a non-empty other one |
| ArcPolicy.Arc.Reset | arc_rp.cc:41-73 | refines the reset on values, with the unlinked panic exactly for unlinked data |
| ArcPolicy.Arc.AddToGhost | arc_rp.cc:90-99 | the tag at the back of its list, the front dropped beyond the number of set slots |
| ArcPolicy.Arc.GetVictim | arc_rp.cc:113-174 | null exactly when no candidate is valid, else the unique victim, whose tag is remembered |
| ArcPolicy.Arc.CountLists | arc_rp.cc:130-141 | the counting loop picks T1 exactly when more than target candidates are valid T1 lines or no valid candidate is elsewhere |
| ArcPolicy.Arc.OldestOf | arc_rp.cc:142-154 | the scan finds the first line of least tick on the list, or nothing when none is older than now |
| CacheSpec.EmptyStateInv | CacheMemory.cc:103-123 | the initial cache satisfies the invariant and is empty |
| CacheSpec.SetOfMeans | CacheMemory.cc:139-143 | the set of an address is the address divided by two to the start bit, modulo two to the number of set bits |
| CacheSpec.LineAddressMeans | CacheMemory.cc:389-398 | the line of an address is the multiple of the block size at or below it, less than one block away |
| CacheSpec.LookupIsScan | CacheMemory.cc:145-158 | the index finds a way exactly where a scan of the whole array finds the address, so no address has two slots |
| CacheLaws.AllocateKeepsAgreementExactlyWhen | CacheMemory.cc:302-333 | allocation keeps index and array in agreement exactly when it takes an empty slot for an unindexed address or the slot of that address |
| CacheLaws.AllocateKeepsInv | CacheMemory.cc:291-334 | allocation keeps the invariant and maps exactly the new address to the new entry, invalid, in the contents |
| CacheLaws.AllocateFindsSlot | CacheMemory.cc:269-334 | for an absent address, cacheAvail holds exactly when allocation finds a slot |
| CacheLaws.DeallocateKeepsInv | CacheMemory.cc:336-348 | deallocation keeps the invariant and removes exactly the address |
| CacheLaws.TouchKeepsInv | CacheMemory.cc:389-398 | a use keeps the invariant and the contents |
| CacheLaws.SetPermissionKeepsInv | CacheMemory.cc:305-313 | a permission change to anything but NotPresent keeps the invariant and changes one permission |
| CacheLaws.ProbeKeepsInv | CacheMemory.cc:350-365 | a probe keeps the invariant and the contents |
| CacheLaws.ProbeFindsVictim | CacheMemory.cc:350-365 | for a full set the probe returns a resident address of the same set, other than the one probed for |
| CacheLaws.ProbeChoosesNonemptyList | arc_rp.cc:140-165 | in every full set the chosen list has a line, and the fallback is taken exactly when none there is older than now |
| CacheLaws.ProbeFollowsTarget | arc_rp.cc:130-154 | in a full set last used before now the probe takes a T1 line exactly when T1 has more ways than the target of that set, or all of them |
| CacheLaws.ProbeEvictFill | CacheMemory.cc:269-365 | after deallocating the probed victim the new address is available and lands in the vacated way; no panic, and the only failure is the division by zero |
| CacheRuns.StepKeepsInvAndRefines | CacheMemory.cc:291-398 | every step keeps the invariant and does to the contents what the plain map operation does |
| CacheRuns.Run | CacheMemory.cc:103-398 | every reachable state has index and array in agreement, valid flags exactly on occupied slots, lines on T1 or T2, and targets and ghost lists within bounds |
| CacheRuns.RunRefinesMap | CacheMemory.cc:291-398 | over every run the cache is a plain map from addresses to entries and their permissions |
| CacheRuns.VectorsNeverShrink | arc_rp.cc:56-61 | the policy's vectors only grow along a run |
| CacheRuns.AllocHistory | CacheMemory.cc:320-328 | an allocated line has the tick of the allocation and is on T1 exactly when its tag is in neither ghost list |
| CacheRuns.StepHistory | CacheMemory.cc:389-398 | no other step changes a line's way, tick or list, but a use of that line |
| CacheRuns.ListAndTickMeanHistory | arc_rp.cc:32-73 | a resident line is on T1 exactly when unused since its last allocation, which hit neither ghost list; its tick is that of its last use |
| CacheRuns.VictimIsLeastRecentlyUsed | arc_rp.cc:140-165 | under a clock that never goes back, no line of the victim's list has an older last use, and the fallback needs every line of the list used at this tick |
| GhostHistory.GhostListStep | arc_rp.cc:63-111 | a ghost list gains only at the back, and loses only its front at the cap or the first match of a hit, each said by the elements before and after |
| GhostHistory.GhostListAccount | arc_rp.cc:90-111 | over every run a ghost list is an in-order subsequence of the tags selected into it, as long as selections less drops less hits, within the number of set slots |
| GhostHistory.TagsStayZero | arc_rp.hh:20-27 | without outside writes every tag and every ghost stays zero |
| GhostHistory.FillsWithoutTags | arc_rp.cc:63-88 | then a fill goes to T1 exactly when both ghost lists of its set are empty, and divides by zero exactly when B1 has one entry and B2 has some |
| GhostHistory.DisciplineKeepsIdle | arc_rp.cc:41-111 | over every run with a fill between any two probes of a set, every target stays 0, and a set has one ghost while a probe of it is outstanding and none otherwise |
| GhostHistory.DisciplineNeverTraps | arc_rp.cc:63-88 | so the division by zero is unreachable under that rule, and a fill goes to T2 exactly when it answers a probe |
| CacheWitnesses.DivisionByZeroReachable | arc_rp.cc:75-88 | a legal run of a two-way cache that ends in the division by zero |
| CacheWitnesses.NotPresentBreaksIndex | CacheMemory.cc:302-330 | one allocation and a permission change to NotPresent reach a state in which re-using the slot leaves the old address in the index, under which another line is found |
| RubyCache.FloorLog2 | CacheMemory.cc:109 | the largest power of two within the number of sets |
| RubyCache.CacheMemory.constructor | CacheMemory.cc:103-123 | a valid empty cache with the number of sets and set bits of the source |
| RubyCache.CacheMemory.InstantiateAll | CacheMemory.cc:112-122 | fresh, distinct replacement data for every slot |
| RubyCache.CacheMemory.FindTagInSet | CacheMemory.cc:145-158 | the indexed way, or -1 |
| RubyCache.CacheMemory.LookupEntry | CacheMemory.cc:367-376 | the entry the table has for the address, null exactly when it has none or, equally, when no entry in the cache has that address |
| RubyCache.CacheMemory.CacheAvail | CacheMemory.cc:266-289 | true exactly when some way of the set is open or holds the address |
| RubyCache.CacheMemory.Install | CacheMemory.cc:314-330 | every pointer and field an allocation writes, with the links between entry, slot and replacement data made before the reset |
| RubyCache.CacheMemory.Attach | CacheMemory.cc:314-330 | all slots stay linked to their entries and data |
| RubyCache.CacheMemory.Fill | CacheMemory.cc:302-332 | the object moves by the allocation on values |
| RubyCache.CacheMemory.FindOpen | CacheMemory.cc:302-306 | the first open way of the set, which the allocation on values takes as well |
| RubyCache.CacheMemory.Allocate | CacheMemory.cc:291-334 | neither panic is reachable; all links hold afterwards, the table of entries gains this address with this entry and nothing else changes in it, and the run is longer by this step |
| RubyCache.CacheMemory.Deallocate | CacheMemory.cc:336-348 | exactly the entry the table had for the address leaves the cache, and the table loses that address and nothing else |
| RubyCache.CacheMemory.Detach | CacheMemory.cc:342-347 | the entry leaves its slot, its data is invalid, all other slots stay linked |
| RubyCache.CacheMemory.CacheProbe | CacheMemory.cc:350-365 | returns the address in the victim's way, in the set probed and not the address probed for; only ghost lists change, and the table stays as it is |
| RubyCache.CacheMemory.Candidates | CacheMemory.cc:357-362 | the entries of the set in way order, each with its own slot's data |
| RubyCache.CacheMemory.SetMRU | CacheMemory.cc:389-398 | only the replacement data of the line is touched, and nothing for an absent line; the table stays as it is |
| RubyCache.CacheMemory.ChangePermission | CacheMemory.cc:305-313 | the step the NotPresent rule is about: one permission in the table changes, all links hold |
| ReorderQueue.SortIsStable | spec-2017/gem5_arc/util/o3-pipeview.py:241-242 | the sort orders by sequence number and keeps the order of arrival among equals |
| ReorderQueue.OutputIsPermutation | spec-2017/gem5_arc/util/o3-pipeview.py:212-277 | whatever the arrivals, everything queued is popped exactly once |
| ReorderQueue.QueueLength | spec-2017/gem5_arc/util/o3-pipeview.py:212-244 | after any arrivals: nothing popped up to the upper threshold, then a queue between the thresholds; the lower one alone if it is the larger |
| ReorderQueue.PoppedInBatches | spec-2017/gem5_arc/util/o3-pipeview.py:212-244 | what was popped is a whole number of flushes, each one more than the thresholds are apart |
| ReorderQueue.FewAbove | spec-2017/gem5_arc/util/o3-pipeview.py:45-50 | the pigeonhole: at most the displacement bound of earlier arrivals exceed a given one |
| ReorderQueue.PrefixInOrder | spec-2017/gem5_arc/util/o3-pipeview.py:212-244 | after every arrival, what was popped is sorted and below what is queued |
| ReorderQueue.OutputInOrder | spec-2017/gem5_arc/util/o3-pipeview.py:45-56 | with displacement within the lower threshold, everything popped over the whole run is in order, for any two thresholds |
| ReorderQueue.OutputIsStable | spec-2017/gem5_arc/util/o3-pipeview.py:212-277 | whatever the arrivals, instructions of equal sequence number are popped in the order they arrived |
| ReorderQueue.OutputIsStableSort | spec-2017/gem5_arc/util/o3-pipeview.py:45-56 | the incremental output equals one stable sort of all arrivals exactly when it is in order at all, hence always under the displacement bound |
| ReorderQueue.BoundIsTight | spec-2017/gem5_arc/util/o3-pipeview.py:45-56 | one place more and the output can be out of order, shown for every pair of thresholds by arrivals with distinct sequence numbers |
| PipeViewer.KeptCounts | spec-2017/gem5_arc/util/o3-pipeview.py:245-268 | the filter keeps each instruction as often as it was there if its sequence number and fetch tick are within the bounds set and it retired where only committed ones count, and drops it otherwise |
| PipeViewer.KeptInOrder | spec-2017/gem5_arc/util/o3-pipeview.py:245-268 | and keeps them in order |
| PipeViewer.StartIsUnique | spec-2017/gem5_arc/util/o3-pipeview.py:94-126 | at most one line is the first fetch at or after the first line that meets the start bound |
| PipeViewer.StartMeans | spec-2017/gem5_arc/util/o3-pipeview.py:94-126 | where following starts, by lines: the start tick decides if set, else the start number, else nothing, and then the next fetch |
| PipeViewer.TraceQueues | spec-2017/gem5_arc/util/o3-pipeview.py:154-207 | what a trace queues, by lines: the retire events from the start to the first fetch beyond the stop bounds and their slack, in order, each with the last fetch before it |
| PipeViewer.Viewer.PrintInsts | spec-2017/gem5_arc/util/o3-pipeview.py:231-277 | sorts, pops down to the threshold, and prints what lies within bounds |
| PipeViewer.Viewer.PopAndPrint | spec-2017/gem5_arc/util/o3-pipeview.py:243-277 | the loop pops exactly the front of the sorted queue |
| PipeViewer.Viewer.QueueInst | spec-2017/gem5_arc/util/o3-pipeview.py:212-227 | appends, and flushes above the upper threshold |
| PipeViewer.Viewer.FindStart | spec-2017/gem5_arc/util/o3-pipeview.py:94-126 | the first fetch at or after the first line that meets the start bound, or the end of the trace |
| PipeViewer.Viewer.Follow | spec-2017/gem5_arc/util/o3-pipeview.py:154-207 | a fetch starts an instruction, a retire event completes and queues it, other lines change nothing |
| PipeViewer.Viewer.FollowTrace | spec-2017/gem5_arc/util/o3-pipeview.py:154-207 | queues one instruction per retire event up to the stop rule or the end |
| PipeViewer.Viewer.ProcessTrace | spec-2017/gem5_arc/util/o3-pipeview.py:69-207 | a whole run prints every queued instruction within the four bounds, and committed where asked for, as often as it was queued and no other, leaves the queue empty, and under the displacement bound prints as if the whole trace had been sorted at once |
| CheckpointUpgrader.IsReady | spec-2017/gem5_arc/util/cpt_upgrader.py:144-148 | true exactly when all dependencies are present |
| CheckpointUpgrader.ComputeReady | spec-2017/gem5_arc/util/cpt_upgrader.py:259 | exactly the pending migrations that are ready |
| CheckpointUpgrader.Update | spec-2017/gem5_arc/util/cpt_upgrader.py:150-158 | an upgrade adds its tag, a downgrade removes it and fails exactly when it is missing |
| CheckpointUpgrader.ApplyBatch | spec-2017/gem5_arc/util/cpt_upgrader.py:150-158 | any order of a batch gives the same tags, applies each member once and never removes a missing tag |
| CheckpointUpgrader.ProcessFile | spec-2017/gem5_arc/util/cpt_upgrader.py:255-269 | terminates with an outcome that does not depend on iteration order, applies only pending migrations and none twice, with no downgrade pending each with all dependencies present, never removes a missing tag, and on abort names exactly the pending tags not applied |
| CheckpointUpgrader.StuckMeans | spec-2017/gem5_arc/util/cpt_upgrader.py:259-263 | every tag named by an abort is pending and has a dependency that the tags as they then are lack |
| CheckpointUpgrader.SuccessTags | spec-2017/gem5_arc/util/cpt_upgrader.py:255-269 | success ends with old and upgrade tags less downgrade tags, and nothing pending |
| CheckpointUpgrader.SucceedsExactlyWhenOrderable | spec-2017/gem5_arc/util/cpt_upgrader.py:257-269 | with no downgrade pending, success exactly when the pending tags have a listing with every dependency in the checkpoint or earlier |
| CheckpointUpgrader.SucceedsExactlyWhenRanked | spec-2017/gem5_arc/util/cpt_upgrader.py:257-269 | for every registry and checkpoint, success exactly when the pending tags can be ranked by their longest chain of pending upgrades, with no downgraded dependency ranked below its user and every other dependency present |
| CheckpointUpgrader.LooseRanksDoNotSuffice | spec-2017/gem5_arc/util/cpt_upgrader.py:257-269 | a registry that satisfies the ordering of such ranks but not their tightness, and on which the worklist aborts |
| CheckpointUpgrader.RemovedDependencyNeverMet | spec-2017/gem5_arc/util/cpt_upgrader.py:144-148 | a pending migration that depends on a downgraded tag no longer there makes the worklist abort |
| CheckpointUpgrader.AnyOrderRunsReadyExactlyWhen | spec-2017/gem5_arc/util/cpt_upgrader.py:259-267 | every order of a batch runs with dependencies present exactly when no member depends on another that the batch removes |
| CheckpointUpgrader.LoadAll | spec-2017/gem5_arc/util/cpt_upgrader.py:177-192 | succeeds exactly when all names exist, and then, in any order of visits, adds exactly the reversed forward dependencies; on failure names a migration with a missing name |
| CheckpointUpgrader.AppendTo | spec-2017/gem5_arc/util/cpt_upgrader.py:179-186 | the tag is added to the dependencies of every named migration, or a name is missing |
| CheckpointUpgrader.Audit | spec-2017/gem5_arc/util/cpt_upgrader.py:187-192 | true exactly when every dependency exists |
| MessageStream.EncodeVarint32 | spec-2017/gem5_arc/util/protolib.py:147-159 | the loop writes seven bits per byte, least significant first |
| MessageStream.DecodeVarint32 | spec-2017/gem5_arc/util/protolib.py:100-128 | the little-endian value up to the first byte below 128, masked; 0 at end of file; an error after ten bytes |
| MessageStream.Mask | spec-2017/gem5_arc/util/protolib.py:119-125 | congruent modulo 2^32, from 0 to 2^32-1 below 2^63 and negative from there on |
| MessageStream.DecodeEncode | spec-2017/gem5_arc/util/protolib.py:100-159 | for every number and any following bytes: itself below 2^32, its low 32 bits below 2^63, those less 2^32 below 2^70, with the encoding exactly consumed, and an error from 2^70 on |
| MessageStream.EncodeDigits | spec-2017/gem5_arc/util/protolib.py:147-159 | byte i of an encoding is base 128 digit i, with the top bit on all but the last byte, and no digit is missing |
| MessageStream.DecodeDigits | spec-2017/gem5_arc/util/protolib.py:107-126 | decoding any bytes, minimal or not, gives the number with the low seven bits as its digits, reduced to 32 bits |
| MessageStream.PrefixFree | spec-2017/gem5_arc/util/protolib.py:147-159 | no encoding is a proper prefix of another |
| MessageStream.EncodeMessageBytes | spec-2017/gem5_arc/util/protolib.py:162-168 | the length prefix, then the payload |
| MessageStream.DecodeMessageFrom | spec-2017/gem5_arc/util/protolib.py:131-144 | the payload read, no message, or the exception of a refused read, with all error paths |
| MessageStream.ReadFailsExactlyWhen | spec-2017/gem5_arc/util/protolib.py:119-144 | reading raises exactly when the length prefix spells a number from 2^63 on whose low 32 bits are not all set, which takes all ten bytes |
| MessageStream.ReadFailsFor | spec-2017/gem5_arc/util/protolib.py:119-144 | the encoding of 2^63, whatever follows, is such a prefix |
| MessageStream.MessageSurvivesExactlyWhen | spec-2017/gem5_arc/util/protolib.py:131-168 | a message reads back as written exactly for lengths 1 to 2^32-1, or from 2^63 to 2^70 with all low 32 bits set and nothing behind it; it raises exactly for the other lengths from 2^63 to 2^70 |
| MessageStream.MessageReads | spec-2017/gem5_arc/util/protolib.py:131-168 | what reading makes of a written message of every length: cut at the length modulo 2^32, none, everything left, or the exception |
| MessageStream.ReadWritten | spec-2017/gem5_arc/util/protolib.py:131-168 | written messages read back in order, followed by whatever the rest of the stream holds |
| MessageStream.RoundTrip | spec-2017/gem5_arc/util/protolib.py:131-168 | a written stream reads back as exactly its messages and then ends cleanly |
| MessageStream.EmptyPayloadEnds | spec-2017/gem5_arc/util/protolib.py:137-139 | an empty payload ends the stream with the messages before it |
| MessageStream.CutPrefixEnds | spec-2017/gem5_arc/util/protolib.py:113-115 | a cut inside a length prefix ends the stream with the messages before it |
| MessageStream.CutPayload | spec-2017/gem5_arc/util/protolib.py:140-142 | a cut inside a payload is handed on as a shorter message |
| YearRanges.RangesAreMaximal | spec-2017/gem5_arc/util/find_copyrights.py:207-218 | the years next to a printed range are not in the set |
| YearRanges.SortDates | spec-2017/gem5_arc/util/find_copyrights.py:196-197 | the years of the set, increasing |
| YearRanges.Merge | spec-2017/gem5_arc/util/find_copyrights.py:207-218 | ordered ranges, a gap between any two, covering exactly the years |
| YearRanges.DateStr | spec-2017/gem5_arc/util/find_copyrights.py:195-220 | an error exactly for the empty set; else separated covering ranges whose text reads back as the set exactly when any two consecutive years of the set lie within 1000 to 9999, and which has a dash exactly when there are such years (none negative) |
| YearRanges.ProcessDates | spec-2017/gem5_arc/util/find_copyrights.py:115-132 | the union of the years of the pieces between commas |
| YearRanges.WrittenDatesRead | spec-2017/gem5_arc/util/find_copyrights.py:112-132 | any list of years, four-digit ranges and pieces that are no dates, joined by commas, with white space before, after and around the dash, reads as exactly the years named |
| YearRanges.AddRange | spec-2017/gem5_arc/util/find_copyrights.py:121-124 | exactly the years of the range are added |
| YearRanges.PrintedRangeYears | spec-2017/gem5_arc/util/find_copyrights.py:112-130 | a printed range reads back within itself, and whole exactly when single or four-digit |
| YearRanges.RoundTripExactlyWhen | spec-2017/gem5_arc/util/find_copyrights.py:112-220 | the printed text reads back as the set exactly when every range of two or more years lies within 1000 to 9999 |
| YearRanges.ReadableSetMeans | spec-2017/gem5_arc/util/find_copyrights.py:112-130 | every range of two or more years is readable exactly when any two consecutive years of the covered set are four-digit |
| YearRanges.ShortYearsAreLost | spec-2017/gem5_arc/util/find_copyrights.py:112-130 | the years 98 and 99 do not read back |
| TesterTree.NumTesters | spec-2017/gem5_arc/configs/example/memtest.py:150-161 | the running-product loop computes the sum of testers times the product of fan-outs |
| TesterTree.SumIsTree | spec-2017/gem5_arc/configs/example/memtest.py:150-161 | that sum is the number of testers of the recursive tree |
| TesterTree.ProductIsCount | spec-2017/gem5_arc/configs/example/memtest.py:151-155 | the product table counts the subsystems of every level |
| TesterTree.Builder.NewSubsystem | spec-2017/gem5_arc/configs/example/memtest.py:288-311 | a name not used before, numbered without gaps, and the testers of its level |
| TesterTree.Builder.MakeCacheLevel | spec-2017/gem5_arc/configs/example/memtest.py:285-347 | creates the testers and, per level, the subsystems of its subtree |
| TesterTree.Builder.Build | spec-2017/gem5_arc/configs/example/memtest.py:350-351 | as many testers as the running-product sum; per level the names 0 to product-1, all distinct, each with the testers its level asks for |
| LogRoll.Fill | spec-2017/gem5_arc/util/logroll.py:83-89 | the first loop shows what was read at every boundary |
| LogRoll.Wrap | spec-2017/gem5_arc/util/logroll.py:91-92 | overwriting at the wrapping index shows the last lines at every boundary |
| LogRoll.Roll | spec-2017/gem5_arc/util/logroll.py:63-94 | the output is the last target lines in order, or all for a target below one, and every boundary dump shows the same for the prefix read |

## Left out

- Timing, banks, resource stalls, statistics, printing and recording of the cache.
- Transactional-memory and lock sweeps, and the WeightedLRU path: they depend on classes that are not part of this model.
- Block size, lock and last-access fields of an entry, and tryCacheAccess and testCacheAccess, which add a permission test to a use.
- setMRU on an entry pointer that is not in the cache.
- ArcPolicy.Arc.Reset: the policy state after a panic or a division by zero is not described, as the process ends there.
- RubyCache.CacheMemory.Allocate: takes an entry that is not yet in the cache, and no resident is NotPresent; CacheLaws covers the other case on values.
- Trace-line parsing, store completions and timeline drawing of the viewer; a trace is a list of events.
- The legacy version chain, checkpoint files and the migrations themselves in the upgrader; the worklist is modelled on tags.
- Parsing of message payloads; a payload is its bytes.
- Copyright-block scanning, and whole numbers with underscores, non-ASCII digits or non-ASCII white space, which the caller's pattern never passes on.
- Caches, crossbars and ports of the tester tree, and the errors of wiring a lowest level without a cache above or a tester; only subsystems, their names and testers are counted.
- A dump between two statements of one iteration of the rolling log.
