# PocketTitan: a verified model of out-of-core inference

PocketTitan runs mixture-of-experts models that do not fit in memory. It packs a checkpoint into a
byte-exact package, pages experts and embedding rows in on demand, keeps the hot ones in tiered
caches, and drafts tokens cheaply before verifying them. This project models the parts of the
system that have a specification of their own and proves what they promise.

**Cache replacement** (`ReplacementTheory`, `SimCache`, `LruTheory`, `SlruTheory`, `TinyTheory`, `SimReport`,
`TokenOrder`). The replay simulator's policies are classes that change in place, each tied to a step
function; the theory is about schedules over every trace. Belady's rule is optimal against every policy that admits the
missed key, whatever it does with ties. The published claim that the oracle bounds *every* online
policy (`pockettitan/sim/cache.py:183-188`) is false of the code in three ways, each with its
condition. It holds of SLRU if and only if there are at least two slots. With `c` slots and `w`
accesses between decays (the sample window, at least one) it holds of TinyLFU if and only if
`2w - 2 - (c-1) mod w < 2^((c-1) div w + 1)`, which is also when the frequency filter changes no miss
count at all; a window longer than the cache always breaks it, and the default window does so up to
133615 slots. And since the replay groups a trace by token while the oracle's lists keep trace order,
it holds of LRU on the traces that begin with given token ids, whatever experts they name, if and only
if those ids never decrease or there is one slot: wherever an id decreases, some choice of experts makes
every replay of the oracle miss more often than LRU.

**Speculative decoding** (`Speculative`). The KV cache is a sequence of (token, position, routing
width) entries and the model any function of it. Draft, crop, verify and bonus leave exactly the
entries greedy decoding would have left; the two decode loops give the same tokens exactly when a
token limit of at least one goes with a first token that does not end the answer.

**Storage** (`PageStore`, `PageFault`, `Crc32c`, `Regions`, `PackageWriter`, `PackageValidator`,
`DownloadLane`, `PlannedPackage`). Disks are bytes with durable and unsynced parts; a crash makes
every unsynced address arbitrary, may lose unsynced growth and may roll the journal back. Content
hashes of pages are content equality. A resumed build leaves the bytes of an uninterrupted one, the
validator accepts it, and it rejects any damage within four consecutive bytes of an item. Ranged
reads follow sections 14.4 and 15.3.7 of RFC 9110, the checksum section 12.1 of RFC 3720.

**Expert caches** (`FastCache`, `ExpertCache`, `ExpertManager`). Residents of the VRAM tier are slot
views into an arena, so reuse of a slot is visible. The two-tier cache agrees with the store, and
its VRAM tier hits exactly as often as the simulated LRU cache. From two slots on the runtime SLRU
cache misses as often as the simulated one on every trace if and only if five divides the capacity or
it is at most four; a cache of one slot raises on the second of two consecutive fetches of one expert.

**Codec, layout and addressing** (`Matrices`, `Packing`, `Rtn`, `RtnMatrix`, `Tiling`, `Decode`,
`Kernels`, `SectionLayout`, `BankLayout`, `PleIndex`, `NgramHash`, `PleStore`). Weights, scales and zeros are
exact reals, codes are bytes, rounding is any nearest rule. Fast, sliced and tiled forms equal simple
ones, planned bytes equal emitted bytes, and a record written anywhere decodes to what was quantised.
Two checks of the planner accept too much, each with its condition: table rows cut from a shard that
passes the size check read their own codes if and only if rows end on bytes or there is one row, and
the check on the last hash head covers the others if and only if no head ends after it.

**End to end** (`EndToEnd`). After a finished build, fetching an embedding row or an expert gives the
dequantised weights, every weight within half its group's scale, the step its group's own weights span, of the one that
was packed.

`Collections` and `Matrices` hold shared facts about sequences and row-major indices, `Adversary` the
environment's free choices.

Where a contract mentions `calm`, the environment neither fails nor interrupts that call.

## Model

| member | source | states |
|---|---|---|
| ReplacementTheory.BeladyNeverBehind | pockettitan/sim/cache.py:203-236 | exchange argument: after every access a furthest-next-use cache is behind any other schedule by no more than the misses and bypasses it has saved |
| ReplacementTheory.OracleIsOptimal | pockettitan/sim/cache.py:183-188 | for every trace and capacity the oracle misses no more often than any policy that admits the missed key within capacity |
| ReplacementTheory.OracleWithinBypasses | pockettitan/sim/cache.py:183-188 | against a policy that may bypass, the oracle's misses exceed the policy's by at most the bypasses |
| ReplacementTheory.OneMoreSlotCoversBypassing | pockettitan/sim/cache.py:164-172 | one more slot makes the oracle a bound on bypassing policies too |
| ReplacementTheory.TiesDoNotMatter | pockettitan/sim/cache.py:214-231 | every furthest-next-use run misses equally often, however ties are broken |
| ReplacementTheory.OracleMonotone | pockettitan/sim/cache.py:183-188 | the oracle's misses never increase with capacity |
| SimCache.LruCache.Access | pockettitan/sim/cache.py:51-64 | one access moves the recency order by the LRU step and counts the hit or miss |
| SimCache.LruIsAdmitting | pockettitan/sim/cache.py:44-64 | replaying LRU is an admitting schedule within capacity |
| SimCache.OracleBoundsLru | pockettitan/sim/cache.py:183-188 | the oracle bounds LRU on every trace and capacity |
| SimCache.SlruCache.Access | pockettitan/sim/cache.py:91-121 | one access moves both segments by the SLRU step, demotion included |
| SimCache.SlruStepFits | pockettitan/sim/cache.py:91-121 | segments stay disjoint and each within its own cap, and the accessed key is held |
| SimCache.SlruIsAdmitting | pockettitan/sim/cache.py:84-121 | replaying SLRU is an admitting schedule within the sum of its caps |
| SimCache.TinyLfuCache.Access | pockettitan/sim/cache.py:150-174 | one access records the frequency, decays the counts and admits or bypasses as the step says |
| SimCache.TinyIsSchedule | pockettitan/sim/cache.py:129-174 | replaying TinyLFU is a schedule within capacity, though not an admitting one |
| SimCache.ReversedPositions | pockettitan/sim/cache.py:195-201 | the next-use list built for a key is the reversed list of all its positions |
| SimCache.PopKeepsAlignment | pockettitan/sim/cache.py:206-208 | popping the current step keeps every list the reversed list of remaining positions |
| SimCache.LooksFurthestIsFurthest | pockettitan/sim/cache.py:219-231 | while lists are aligned, the key that looks furthest is the one used furthest in the future |
| SimCache.OracleCache.Access | pockettitan/sim/cache.py:203-236 | one access pops the step, evicts a key that looks furthest when full, and always admits |
| SimCache.OracleCache.FindFurthest | pockettitan/sim/cache.py:219-231 | the scan returns a resident whose next listed use is latest, an unlisted one first |
| LruTheory.LruHoldsMostRecent | pockettitan/sim/cache.py:44-64 | after every prefix the cache is exactly the most recently used distinct keys, in order |
| LruTheory.StackDistance | pockettitan/sim/cache.py:44-64 | a key's place in the recency order is the number of distinct keys used since its last use |
| LruTheory.LruHoldsIffStackDistance | pockettitan/sim/cache.py:44-64 | a key is held exactly when fewer distinct keys than the capacity were used since |
| LruTheory.LruInclusion | pockettitan/sim/cache.py:44-64 | a smaller LRU cache's contents are contained in a larger one's after every prefix |
| LruTheory.LruMonotone | pockettitan/sim/cache.py:44-64 | LRU misses never increase with capacity |
| LruTheory.RecentKeyStays | pockettitan/sim/cache.py:44-64 | a key stays held for as long as no more distinct keys than the capacity come up, itself included |
| LruTheory.LastInFullCache | pockettitan/sim/cache.py:44-64 | once that many have, it is the one the next new key evicts |
| LruTheory.LruUnboundedMisses | pockettitan/sim/cache.py:44-64 | a cache as large as the set of keys misses each key exactly once |
| SlruTheory.ProtectedIsLru | pockettitan/sim/cache.py:91-121 | after every prefix the protected tier is exactly an LRU cache of its size over the accesses that hit |
| SlruTheory.ProtectedByLastUse | pockettitan/sim/cache.py:95-98 | it lists its keys in strictly increasing order of last use, so the key it demotes is the one unused for longest |
| SlruTheory.ProbationaryByArrival | pockettitan/sim/cache.py:99-121 | the probationary tier lists its keys in the order in which they last missed or were demoted |
| SlruTheory.OldestArrivalLeaves | pockettitan/sim/cache.py:108-121 | a key leaves the cache exactly when a miss finds the probationary tier full and that key arrived there first |
| TinyTheory.CountersAlwaysAgree | pockettitan/sim/cache.py:139-148 | after every prefix each stored counter is the number of uses, halved at every window's end |
| TinyTheory.CountSince | pockettitan/sim/cache.py:142-148 | a key left alone keeps its counter divided by two to the number of decays since |
| TinyTheory.CountOfRun | pockettitan/sim/cache.py:139-148 | a key used all the time gains at least one count per window, up to the window less one |
| TinyTheory.TinyIsLru | pockettitan/sim/cache.py:150-174 | where no key can be rejected, TinyLFU holds what LRU holds, in order, after every prefix |
| TinyTheory.TinyLfuBeatsOracle | pockettitan/sim/cache.py:164-172 | wherever a key can be rejected, a trace built from capacity and window costs TinyLFU fewer misses than the oracle |
| TinyTheory.OracleBoundsTinyLfu | pockettitan/sim/cache.py:183-188 | for every capacity and window, the oracle bounds TinyLFU on every trace if and only if `2w - 2 - (c-1) mod w < 2^((c-1) div w + 1)` |
| TinyTheory.FilterMattersIff | pockettitan/sim/cache.py:129-130 | under the same condition, and only then, the admission filter never changes a miss count of LRU |
| TinyTheory.WideWindowsBypass | pockettitan/sim/cache.py:132-137 | the bound fails for every window longer than the cache, and holds for windows of at most one |
| TinyTheory.OneSlotBypasses | pockettitan/sim/cache.py:132-137 | with one slot it holds if and only if the window is at most one |
| TinyTheory.DefaultWindowBypasses | pockettitan/sim/cache.py:132 | with the default window it holds if and only if there are at least 133616 slots |
| SimReport.GroupingIsUnique | pockettitan/sim/report.py:82-99 | grouping events by ascending token leaves one possible replay order |
| SimReport.GroupByToken | pockettitan/sim/report.py:82-99 | the replay order is that grouping |
| SimReport.GroupingIsPermutation | pockettitan/sim/report.py:82-99 | no event is lost or repeated by grouping |
| SimReport.ReplayOrderIsTraceOrder | pockettitan/sim/report.py:64-99 | replay order equals trace order if and only if token ids are nondecreasing |
| SimReport.ReplayIsBelady | pockettitan/sim/report.py:64-99 | on nondecreasing tokens every oracle replay attains the optimal miss count |
| SimReport.OracleMayMissIsMinimum | pockettitan/sim/report.py:64-99 | whatever choices the replay makes, its count is that minimum |
| SimReport.RunSimulation | pockettitan/sim/report.py:53-131 | all four replays count what their policies define, and the bounds between them hold on nondecreasing tokens |
| SimReport.OracleBoundsSlru | pockettitan/sim/cache.py:86-87 | the oracle bounds SLRU on every trace if and only if there are at least two slots |
| SimReport.SlruBeatsOneSlot | pockettitan/sim/cache.py:86-87 | below two slots a trace exists on which SLRU beats the oracle |
| TokenOrder.ReplayIsAdmitting | pockettitan/sim/cache.py:203-236 | even with lists that no longer match the accesses, an oracle replay admits every miss within capacity |
| TokenOrder.OneSlotMissesLikeLru | pockettitan/sim/cache.py:203-236 | with one slot every oracle replay of every trace misses exactly as often as LRU |
| TokenOrder.StrayStays | pockettitan/sim/cache.py:206-231 | a key accessed later than its listed position is never evicted again |
| TokenOrder.RoundReplay | pockettitan/sim/report.py:82-99 | every grouping moves the first event that has a smaller token id after it to a later step |
| TokenOrder.DescentBreaksTheOracle | pockettitan/sim/report.py:64-99 | for every token list that decreases somewhere and at least two slots, experts and a continuation with nondecreasing ids exist on which every oracle replay of every grouping misses more often than LRU |
| TokenOrder.OracleBoundsLruIff | pockettitan/sim/report.py:64-99 | every oracle replay of every trace that continues a token list misses at most as often as LRU if and only if the list never decreases or there is one slot |
| TokenOrder.AscendingTokensAreNeeded | pockettitan/sim/report.py:64-99 | the same bound at every capacity, if and only if the list never decreases |
| Speculative.SpeculativeMoEDecoder.GenerateStep | pockettitan/domainslice/speculative.py:51-136 | accepted tokens are the target's own chain, agree with the drafts but for the last, and the cache holds exactly the full-routing entries before the last accepted token |
| Speculative.SpeculativeMoEDecoder.Draft | pockettitan/domainslice/speculative.py:61-89 | drafting leaves cache and routing width as they were |
| Speculative.SpeculativeMoEDecoder.Verify | pockettitan/domainslice/speculative.py:91-123 | the longest agreeing prefix, then the target's correction or bonus |
| Speculative.Prefill | pockettitan/domainslice/generate.py:253-268 | prefill caches the prompt and returns the model's next token |
| Speculative.DecodeGreedy | pockettitan/domainslice/generate.py:318-348 | the greedy loop emits the target's chain up to an end token or the limit |
| Speculative.DecodeSpeculative | pockettitan/domainslice/generate.py:280-316 | the speculative loop terminates, with what it emits in every case and the index error when nothing was generated |
| Speculative.GreedyAnswerIsUnique | pockettitan/domainslice/generate.py:318-348 | greedy decoding has exactly one answer |
| Speculative.SpeculationPreservesMeaning | pockettitan/domainslice/generate.py:280-348 | both loops emit the same tokens if and only if (limit at least one if and only if the first token is not an end token) |
| PageStore.PocketTitanPageStore.FindVictim | pockettitan/domainslice/store.py:431-443 | the victim is the least recently accessed page that is neither protected nor leased, or there is none |
| PageStore.PocketTitanPageStore.EnsureCapacity | pockettitan/domainslice/store.py:422-452 | eviction terminates, removes only such victims and exactly their files, only while needed, and succeeds if and only if the new page fits beside the reservations and the pages it must leave |
| PageStore.PocketTitanPageStore.Reserve | pockettitan/domainslice/store.py:454-460 | occupied bytes plus all reservations stay within the budget; it succeeds if and only if the page is reserved already or can be made to fit |
| PageStore.PocketTitanPageStore.CancelReservation | pockettitan/domainslice/store.py:462-464 | exactly the reservation goes |
| PageStore.CopyFragments | pockettitan/domainslice/store.py:551-563 | copying yields the concatenation exactly when every fragment has its full size |
| PageStore.PadWithZeros | pockettitan/domainslice/store.py:564-571 | the content first, then zeros up to the stride |
| PageStore.PocketTitanPageStore.Commit | pockettitan/domainslice/store.py:544-622 | in a committed page every byte of every fragment stands behind the sizes of the fragments before it and the rest is zeros; its reservation becomes its row, and the caller holds a lease; it is over budget if and only if the page cannot be made to fit, and otherwise refused if and only if a fragment is incomplete |
| PageStore.PocketTitanPageStore.CommitCutShort | pockettitan/domainslice/store.py:544-591 | a crash between manifest and row leaves an intact page without a row, exactly when a commit would have succeeded, and every row still agrees with its files |
| PageStore.PocketTitanPageStore.Lookup | pockettitan/domainslice/store.py:357-397 | a hit exactly on an intact page, rewriting its row without a capacity check; a miss drops the row, and both files exactly if both are there but disagree |
| PageStore.PocketTitanPageStore.LookupWhenAgreed | pockettitan/domainslice/store.py:357-397 | looking up a page that is not such an orphan keeps every invariant |
| PageStore.BudgetAfterLookup | pockettitan/domainslice/store.py:378-387 | re-inserting a row keeps the budget if and only if its growth fits |
| PageStore.OrphanBreaksBudget | pockettitan/domainslice/store.py:378-387 | a run of the store's own steps, a commit cut short, another commit and a lookup of the orphan, that exceeds the budget |
| PageStore.PocketTitanPageStore.Release | pockettitan/domainslice/store.py:624-631 | one lease goes, other handles stay safe |
| PageStore.RunSteps | pockettitan/domainslice/store.py:357-631 | over every interleaving of steps, commits of incomplete fragments included, and any clock, budget, agreement and the pages of unreleased handles hold |
| PageFault.StreamRemoteBytes | pockettitan/metadata/safetensors_header.py:135-220 | however it ends the sink grew by a prefix of the range, and by all of it when complete; a calm stream completes |
| PageFault.ReadBody | pockettitan/metadata/safetensors_header.py:197-212 | reading a reply never delivers past the range and loses nothing before a failure |
| PageFault.FetchSliceToFile | pockettitan/domainslice/store.py:244-304 | a fragment is always a prefix of its source range, resumed where it stood |
| PageFault.PrepareIsSafeIff | pockettitan/domainslice/store.py:471-521 | a prepared fragment is a prefix of its source exactly unless an unjournaled file of full size holds something else |
| PageFault.PrepareKeeps | pockettitan/domainslice/store.py:471-521 | what was journaled is kept as long as the file still starts with it, an unjournaled file exactly at full size, and what is kept whole is journaled whole |
| PageFault.PartialPage.PrepareFragments | pockettitan/domainslice/store.py:471-521 | each fragment is kept, cut back or deleted as its journal entry allows |
| PageFault.PartialPage.FetchOne | pockettitan/domainslice/store.py:718-730 | one worker touches only its own fragment and journals what arrived |
| PageFault.Materialize | pockettitan/domainslice/store.py:680-769 | in a page returned by hit or load byte `b` of slice `k` stands behind the slices before it and is the shard's, and the rest is zeros; failure holds no handle; a page neither cached nor able to fit always fails, and a calm fault fails on no other |
| PageFault.CommitFragments | pockettitan/domainslice/store.py:544-622 | a commit publishes exactly the remote's page if and only if every fragment is whole and the page can be made to fit |
| PageFault.FaultThroughCrashes | pockettitan/domainslice/store.py:471-769 | the same over any sequence of faults, failures, crashes and restarts |
| PageFault.InterleavedFaults | pockettitan/domainslice/store.py:471-769 | however lookups, reservations, preparations, fetches, commits and releases of many faults interleave with each other and with crashes, budget and handles hold and every page handed out is the remote's |
| Crc32c.CrcContinues | pockettitan/package/integrity.py:42-47 | crc(a ++ b) is crc(b) seeded with crc(a) |
| Crc32c.TableStep | pockettitan/package/integrity.py:45-46 | one table-driven turn feeds one byte bit by bit |
| Crc32c.BuildTable | pockettitan/package/integrity.py:11-18 | every table entry is eight bit steps of its index |
| Crc32c.ComputeCrc32c | pockettitan/package/integrity.py:42-47 | the table-driven loop computes the bit-serial CRC, for every seed |
| Crc32c.CheckValue | tests/test_ptitan_validator.py:53 | the CRC of the digits 1 to 9 is e3069283 |
| Crc32c.BurstIsDetected | pockettitan/package/integrity.py:42-47 | two payloads that differ only within four consecutive bytes have different checksums |
| Regions.WrittenIsSafe | pockettitan/package/writer.py:515-516 | writing an unjournaled item breaks no promise to a journaled one |
| Regions.CommitIsSafe | pockettitan/package/writer.py:527-531 | journaling a synced item is a promise already kept: bytes in place, durable, checksum matching |
| Regions.CrashIsSafe | pockettitan/package/writer.py:276-305 | no crash, even one that rolls the journal back, breaks a promise |
| Regions.ImageIsUnique | pockettitan/package/writer.py:488-746 | the plan leaves no choice of finished bytes |
| Regions.AllDoneIsImage | pockettitan/package/writer.py:488-746 | once every item is journaled the region is its image and no crash can change it |
| PackageWriter.PackageDir.LoadJournal | pockettitan/package/writer.py:276-305 | refuses exactly another layout's journal or one without checksums, else resumes or starts afresh |
| PackageWriter.PackageDir.WriteBatch | pockettitan/package/writer.py:626-646 | a batch written in full holds every item's bytes, and an interruption anywhere keeps the directory safe |
| PackageWriter.PackageDir.WriteAndCommit | pockettitan/package/writer.py:647-652 | the journal records a batch only after its bytes are durable |
| PackageWriter.PackageDir.WriteRegion | pockettitan/package/writer.py:604-656 | a region that completes has every item journaled and leaves the others' progress alone |
| PackageWriter.PackageDir.Build | pockettitan/package/writer.py:796-834 | an attempt keeps the directory safe wherever it stops; a finished one leaves every region its image; a refused one changes nothing |
| PackageWriter.PackageDir.BuildThroughCrashes | pockettitan/package/writer.py:796-834 | after any crashes and interruptions a run that goes through completes the package |
| PackageWriter.PackageDir.CompleteSurvives | pockettitan/package/writer.py:817-819 | what a finished build wrote survives every crash |
| PackageWriter.ResumedEqualsUninterrupted | pockettitan/package/writer.py:796-834 | resumed and uninterrupted builds leave the same bytes in every region |
| PackageValidator.CleanIsDisjoint | pockettitan/package/validator.py:55-64 | on sorted spans the sweep accepts exactly disjoint spans in bounds |
| PackageValidator.CheckNonOverlapping | pockettitan/package/validator.py:55-64 | no error if and only if every span is in bounds and no two overlap, in any input order |
| PackageValidator.ValidateItem | pockettitan/package/validator.py:443-457 | the row-by-row walk passes exactly when no row is short and the checksum of all rows in one piece is the recorded one |
| PackageValidator.StandingItemPasses | pockettitan/package/validator.py:401-460 | an item standing as planned passes with the checksum taken over its contiguous block |
| PackageValidator.DamageIsReported | pockettitan/package/validator.py:401-460 | damage within four consecutive bytes of one extent is always reported |
| DownloadLane.Lane.SubmitAvailable | pockettitan/package/writer.py:422-448 | fetches start in order while a worker is free and the reservation fits; fails exactly at an item that could never fit |
| DownloadLane.Lane.Iterate | pockettitan/package/writer.py:450-465 | reservations equal in-flight plus current and never exceed the limit; a calm run yields everything once, in order, if and only if no item is oversized, and else loses fewer items than there are workers |
| FastCache.NoAliasing | pockettitan/domainslice/fast_cache.py:57-74 | while the slot maps are inverse no two keys share a slot |
| FastCache.ExpertVRAMArena.AllocateSlot | pockettitan/domainslice/fast_cache.py:57-67 | the slot held, the last freed one, or the oldest key's; maps stay inverse and the free list their complement |
| FastCache.ExpertVRAMArena.FreeSlot | pockettitan/domainslice/fast_cache.py:69-74 | exactly the key's slot returns to the end of the free list |
| FastCache.ExpertMemoryCache.CopyIntoSlot | pockettitan/domainslice/fast_cache.py:211-221 | a tier with room always has a free slot, so the arena never recycles another key's |
| FastCache.ExpertMemoryCache.Promote | pockettitan/domainslice/fast_cache.py:267-299 | promotion is an LRU step that leaves other residents' tensors alone; a full tier reuses exactly the evicted resident's slot |
| FastCache.ExpertMemoryCache.PrefetchBatch | pockettitan/domainslice/fast_cache.py:182-236 | warm, non-resident experts come in by LRU steps and residents are not refreshed |
| FastCache.PrefetchIsQueue | pockettitan/domainslice/fast_cache.py:182-236 | a prefetch ends with the last keys of those that were resident followed by those that came in, first in first out |
| FastCache.PrefetchedStay | pockettitan/domainslice/fast_cache.py:182-236 | with room for all, exactly the residents and the warm experts asked for are resident afterwards |
| FastCache.ExpertMemoryCache.GetOrLoad | pockettitan/domainslice/fast_cache.py:238-396 | from whichever tier, the tensor returned reads, element by element, the gate rows, then the up rows, and the down projection of the store; both tiers move by LRU steps; a failed read changes only the fault count |
| FastCache.ExpertMemoryCache.ResidentReads | pockettitan/domainslice/fast_cache.py:252-259 | a resident's view reads the store's weights for as long as it stays resident |
| FastCache.ServeTrace | pockettitan/domainslice/fast_cache.py:238-396 | over any trace the VRAM tier hits exactly as often as the simulated LRU cache, and the RAM tier as one over the accesses that miss VRAM; a tensor reads its expert until more distinct experts than the tier holds were asked for, and then the newcomer takes over its slot |
| ExpertCache.BoundedSLRUCache.Get | pockettitan/runtime/expert/cache.py:49-73 | returns the value last put; fails, losing the entry but no invariant, exactly on a probationary hit without a protected tier; otherwise moves as the simulated SLRU |
| ExpertCache.BoundedSLRUCache.Put | pockettitan/runtime/expert/cache.py:75-100 | a new key evicts at most the oldest probationary entry and never touches the protected tier; the residency assertion fails if and only if the probationary share exceeds the capacity and has filled it |
| ExpertCache.SplitsAgree | pockettitan/runtime/expert/cache.py:27-29 | simulator and runtime split a capacity alike if and only if five divides it or it is two to four |
| ExpertCache.MissesAgreeIff | pockettitan/runtime/expert/cache.py:27-29 | from two slots on, simulator and runtime miss equally often on every trace if and only if five divides the capacity or it is at most four |
| ExpertCache.SplitsDiffer | pockettitan/runtime/expert/cache.py:27-29 | otherwise one more new key than the runtime's probationary slots, and then the first again, costs the runtime one miss more |
| ExpertManager.ExpertManager.FetchThroughRam | pockettitan/runtime/expert/manager.py:147-153 | get, else read, decode and put: one simulated SLRU access, or the exact failure |
| ExpertManager.ExpertManager.FetchExpert | pockettitan/runtime/expert/manager.py:137-165 | every fetch is the decoded bank record; an expert is pinned exactly when used often enough with room left, and then served without the RAM tier; both failures have their exact cause |
| ExpertManager.FetchTrace | pockettitan/runtime/expert/manager.py:137-165 | on CPU or CUDA, over any trace, the RAM tier misses exactly as often as an SLRU with the runtime's shares on the accesses that are not pinned; it stops early exactly when a one-slot cache meets a repeated key |
| ExpertManager.NothingPinned | pockettitan/runtime/expert/manager.py:155-162 | on the CPU nothing is ever pinned, so every access reaches the RAM tier |
| ExpertManager.PinnedIff | pockettitan/runtime/expert/manager.py:137-165 | an expert is pinned if and only if some access found it used at least as often as the threshold with room left in the tier |
| Packing.UnpackPack | pockettitan/quantizers/rtn.py:163-199 | unpacking undoes packing for every length and every width from 1 to 8 |
| Packing.PackedByte | pockettitan/quantizers/rtn.py:163-181 | byte `k` holds the next eight, four, two or one codes, the first in the lowest bits |
| Packing.PackConcat | pockettitan/quantizers/rtn.py:171-181 | codes that end on a byte boundary pack independently of what follows |
| Packing.CodeOfSlice | pockettitan/quantizers/rtn.py:188-199 | a run of whole bytes reads as the same run of codes |
| Packing.PackTensor | pockettitan/quantizers/rtn.py:163-181 | the strided passes compute the packing, and only widths 1 to 8 pack |
| Packing.UnpackTensor | pockettitan/quantizers/rtn.py:183-199 | the strided passes read every code |
| Rtn.CodeIsClose | pockettitan/quantizers/rtn.py:60-80 | every code is in range and within half a step of its weight, even where the clamp moved it |
| Rtn.ParamsFromExtremes | pockettitan/quantizers/rtn.py:60-83 | a group's scale is the span of two of its weights, or twice the largest magnitude, over the largest code, and at least 1e-8; its zero point is the middle code, or the rounded negated minimum in steps |
| Rtn.StepBound | pockettitan/quantizers/rtn.py:60-84 | so a decoded code is within half the step that two of the group's own weights span |
| Rtn.RoundingBound | pockettitan/quantizers/rtn.py:60-80 | decoding errs by at most half the scale and no other code errs less, in both modes, under any tie rule |
| RtnMatrix.PaddingFormula | pockettitan/quantizers/rtn.py:49-54 | the quantiser's padding expression makes whole groups |
| RtnMatrix.DequantIsLevel | pockettitan/quantizers/rtn.py:97-127 | padding, grouping and packing lose nothing: each decoded weight is the level of its code |
| RtnMatrix.QuantizeBound | pockettitan/quantizers/rtn.py:35-127 | quantising and dequantising a matrix moves no weight by more than half its group's scale, which is at most half the step that two weights of its padded group span, or twice the magnitude of one of them, or half of 1e-8 |
| Tiling.TilesEndOnBytes | pockettitan/scheduler/budget.py:237-241 | a run of rows that is a multiple of 64 ends on a byte boundary at every width and row length |
| Tiling.QuantizeInTwo | pockettitan/scheduler/tiler.py:255-285 | such rows can be quantised apart from the rest |
| Tiling.QuantizeMatrix | pockettitan/scheduler/tiler.py:225-300 | tiled and untiled paths emit the same sections, whatever the budget picks |
| Decode.RowsRefineRecord | pockettitan/package/decode.py:132-227 | row-sliced decoding equals the rows of the decoded record on both paths, and refuses exactly when byte-aligned rows meet a group size that does not divide them |
| Decode.RowsRefineVerbatim | pockettitan/package/decode.py:160-168 | the same for half-precision records |
| Kernels.SumOfGroups | pockettitan/runtime/kernels/cpu_lut.py:37-39 | a dot product is the sum of its group dot products |
| Kernels.KernelsMultiply | pockettitan/runtime/kernels/cpu_lut.py:19-67 | the grouped kernel and the fused form equal activations times the dequantised row |
| Kernels.FmaIsTerms | pockettitan/runtime/kernels/cuda_fused.py:33-47 | folding the scale into the activations first changes nothing |
| SectionLayout.AlignUpIsLeast | pockettitan/package/format.py:116-120 | alignment yields the least multiple that is not below the value |
| SectionLayout.ResolveGroupSize | pockettitan/package/format.py:163-186 | the loop returns the largest divisor within the requested size, or the whole row |
| SectionLayout.ResolvedNeverPads | pockettitan/package/format.py:163-186 | a resolved group size never pads |
| SectionLayout.PackedBytesIsLength | pockettitan/package/format.py:123-145 | the planner's fractional byte count is the packer's length at every width |
| SectionLayout.PlannedIsEmitted | pockettitan/package/format.py:189-222 | planned spans have exactly the lengths the quantiser emits, so serialising never fails |
| SectionLayout.EmittedInOrder | pockettitan/package/writer.py:161-190 | a payload is the packed codes, then every scale, then every zero point, two bytes each |
| SectionLayout.VerbatimRoundTrip | pockettitan/package/format.py:189-222 | values kept in half precision fill their planned span and read back as rows in order |
| SectionLayout.DimsOfShape | pockettitan/quantizers/base.py:12-24 | rows times columns is the number of weights for every shape, the columns being its last dimension |
| SectionLayout.RecordRoundTrip | pockettitan/package/writer.py:161-190 | serialised sections, placed anywhere in a record, decode to the dequantised matrix |
| BankLayout.PlanDense | pockettitan/package/plan.py:486-492 | the cursor loop assigns the planned offsets |
| BankLayout.DenseIsTight | pockettitan/package/plan.py:486-492 | the first entry is at the start, each next one at the least multiple of 64 past the one before |
| BankLayout.DenseIsOrdered | pockettitan/package/plan.py:486-492 | dense entries are aligned, ordered and disjoint |
| BankLayout.BuildRecord | pockettitan/package/format.py:291-340 | projections follow one another and the pitch is the aligned payload |
| BankLayout.ProjectionsAreApart | pockettitan/package/format.py:309-333 | projections tile the payload without overlap |
| BankLayout.RecordsBiject | pockettitan/package/format.py:388-401 | layer and expert pairs biject with bank slots in the full layout |
| BankLayout.RecordIndexInBank | pockettitan/package/format.py:388-401 | a slot exists exactly for a known layer and an expert in range, inside the bank |
| BankLayout.RecordsAreApart | pockettitan/package/format.py:342-344 | records are disjoint and in bounds |
| BankLayout.BuiltRowsFit | pockettitan/package/format.py:449-454 | a page of 4096 bytes holds as many whole rows as fit and no more; a larger row has the fewest pages that hold it |
| BankLayout.RowStaysInPage | pockettitan/package/format.py:473-476 | no row crosses its page run |
| BankLayout.RowFollows | pockettitan/package/format.py:473-476 | a page's first row starts it and every other row starts where the one before ends |
| BankLayout.TableEnds | pockettitan/package/format.py:478-481 | the table ends with the page of its last row |
| BankLayout.RowsAreApart | pockettitan/package/format.py:473-476 | rows are disjoint and ordered |
| BankLayout.RowInTable | pockettitan/package/format.py:478-481 | every row lies inside the planned table |
| BankLayout.SlicesTile | pockettitan/package/slicing.py:94-143 | a slice is refused exactly when the tensor has fewer than two dimensions, another leading axis, no parameters, no such expert, or bytes that do not divide among the experts; otherwise the slices tile it |
| PlannedPackage.DenseIsWellPlanned | pockettitan/package/plan.py:486-492 | the dense region meets the writer's needs, whatever the payloads |
| PlannedPackage.ExpertsAreWellPlanned | pockettitan/package/plan.py:387-394 | so does the expert bank |
| PlannedPackage.PleIsWellPlanned | pockettitan/package/plan.py:287-301 | so does the page-packed table |
| PlannedPackage.PlannedPackageIsPlan | pockettitan/package/plan.py:387-492 | the whole planned package is one the resumable build's guarantees apply to |
| PlannedPackage.StandingRowIsRead | pockettitan/package/writer.py:719-723 | a standing shard gives back each row at its page-packed offset |
| PlannedPackage.ValidateItemChecksums | pockettitan/package/validator.py:401-460 | the pass reports exactly the items that do not pass |
| PlannedPackage.FinishedBuildValidates | pockettitan/package/validator.py:401-460 | every item of a finished build passes, and fails after any damage within four bytes of an extent |
| PleIndex.SignedIsTwosComplement | pockettitan/runtime/ple/hash.py:7-10 | the wrapped value is the only one in signed range with the same 64-bit word |
| PleIndex.WordOfXor | pockettitan/package/format.py:545-547 | the word of an exclusive or of unbounded integers is the exclusive or of the words |
| PleIndex.HashIsWordHash | pockettitan/package/format.py:539-547 | the wrapping hash is 64-bit machine arithmetic |
| NgramHash.HashIsParity | pockettitan/package/format.py:525-548 | each of the 64 bits of a hash is set exactly when an odd number of the products of tokens and multipliers have it, the current token going with the first multiplier |
| NgramHash.ParityIsUnique | pockettitan/package/format.py:525-548 | there is only one such signed number |
| NgramHash.RowIsParity | pockettitan/package/format.py:525-548 | a head of group `g` adds to its offset that number for the last `g + 2` tokens, reduced by its vocabulary |
| NgramHash.SeesNoFurther | pockettitan/package/format.py:525-548 | histories that agree in the last `g + 2` padded tokens give a head of group `g` the same row, whatever the multipliers |
| NgramHash.DependsOnIff | pockettitan/package/format.py:525-548 | some multipliers make that row depend on the token `k` back if and only if `k < 2 + g` |
| PleIndex.BuiltIndexIsBuilt | pockettitan/package/plan.py:635-686 | an accepted index keeps the given tables, which match, and the first multipliers |
| PleIndex.FloorModIs | pockettitan/package/format.py:548 | what reduction by a vocabulary leaves has the vocabulary's sign and differs from the hash by a multiple of it |
| PleIndex.RowIdInHead | pockettitan/package/format.py:548 | each head's row lies in its own stretch of the table |
| PleIndex.CumulativeStaysInTable | pockettitan/package/plan.py:660-664 | with cumulative offsets no head ends after the one that is checked |
| PleIndex.LastHeadSufficesIff | pockettitan/package/plan.py:660-664 | every accepted table size holds the end of every head if and only if no head ends after the last |
| PleIndex.AlwaysInTableIff | pockettitan/package/format.py:539-548 | whatever the multipliers, every head of every history addresses an existing row if and only if each head's stretch lies in the table |
| PleIndex.CumulativeRowsInTable | pockettitan/package/plan.py:660-664 | an accepted index with cumulative offsets from a nonnegative first one sends every head of every history to an existing row |
| PleIndex.OverrunningHead | pockettitan/package/plan.py:660-664 | a head that starts past the table always addresses a missing row |
| PleIndex.UnderrunningHead | pockettitan/package/plan.py:660-664 | a head that ends before the table always addresses a negative row |
| PleIndex.LastHeadIsNotEnough | pockettitan/package/plan.py:660-664 | the check lets both kinds through, the first when offsets are not cumulative, the second even when they are |
| PleIndex.EveryHistoryHashes | pockettitan/runtime/ple/hash.py:29-42 | a built index resolves every head for every history |
| PleIndex.HashAllHeads | pockettitan/runtime/ple/hash.py:29-42 | one row per head, in order, or an error if any head fails |
| PleIndex.OnlyTheWindowCounts | pockettitan/runtime/ple/hash.py:34-37 | rows depend only on the last zero-padded tokens |
| PleIndex.BatchedEqualsStepwise | pockettitan/runtime/ple/hash.py:44-53 | batched prefill equals hashing step by step with a sliding window |
| PleIndex.PhysicalRowInTable | pockettitan/package/format.py:518-523 | a mapped row lies in the physical table |
| PleIndex.PhysicalRowIsShifted | pockettitan/package/format.py:518-523 | a logical row is found exactly in a shard that contains it, as far into its physical stretch as into its logical one |
| PleIndex.PhysicalRowsAreDistinct | pockettitan/package/format.py:518-523 | different logical rows never share a physical row |
| PleIndex.PlanShards | pockettitan/package/plan.py:275-301 | each selected shard stands after all source rows before it and after the selected rows before it; the shards are disjoint in both numberings, and identical ones in a full build |
| PleStore.SizeCheckPasses | pockettitan/package/writer.py:777-790 | the shard size check passes exactly when the rows' slack adds up to less than a byte |
| PleStore.RowReadsShifted | pockettitan/package/writer.py:784-786 | a row cut from the packed section reads codes late by its number times the slack |
| PleStore.RowsReadOwnIff | pockettitan/package/writer.py:777-786 | of the shards that pass the size check, every row cut reads its own codes, whatever they are, if and only if rows have no slack or there is one row |
| PleStore.MisreadRow | pockettitan/package/writer.py:777-786 | two rows of three 2-bit codes pass the check, and row 1 starts with its second code |
| PleStore.ShardRowsDequantiseIff | pockettitan/package/writer.py:748-792 | under the same condition, and only then, each row alone dequantises to its row of the shard |
| PleStore.ShardRowDecodes | pockettitan/package/writer.py:748-792 | each row of such a shard decodes on its own to its row of the shard |
| PleStore.RowBytesInOrder | pockettitan/package/writer.py:748-792 | a row's bytes are its own codes, then its scales, then its zero points |
| PleStore.PleRowStore.PhysicalRows | pockettitan/package/format.py:518-523 | a full package stores a row under its own number, any other as far into a shard's stretch as it is into the shard |
| PleStore.PleRowStore.FetchRow | pockettitan/runtime/ple/store.py:90-110 | a cached fetch equals the direct read and decode, in LRU order; it fails only for an unreadable row or a cache without room |
| PleStore.PleRowStore.FetchStepEmbedding | pockettitan/runtime/ple/store.py:112-116 | one directly decoded row per head of the current history; it fails if and only if nothing can be cached or some head's row has no number or cannot be read |
| PleStore.PleRowStore.StoredRowIsFetched | pockettitan/runtime/ple/store.py:66-88 | a table holding the written bytes of a row gives that row of its shard |
| EndToEnd.DequantisedIsClose | pockettitan/quantizers/rtn.py:35-127 | every dequantised weight is within half its group's scale of the original, and within half the step its group's own weights span |
| EndToEnd.BuiltTensorStands | pockettitan/package/plan.py:486-492 | a dense tensor of a finished build stands at the offset the planner gave it |
| EndToEnd.BuiltRowIsRead | pockettitan/runtime/ple/store.py:66-88 | in the table of a finished build each row, read at its packed place, is the dequantised row of its shard |
| EndToEnd.FetchBuiltRow | pockettitan/runtime/ple/store.py:90-110 | fetching it through the cache gives that row, within half a scale, and half the step its groups' own weights span, of the weights it was built from |
| EndToEnd.ExpertRoundTrip | pockettitan/runtime/expert/manager.py:106-135 | a record of two projections stands as gate and up first and down after, and decodes, each at its offset, to both dequantised matrices |
| EndToEnd.BuiltExpertIsDirect | pockettitan/package/format.py:403-406 | in the bank of a finished build an expert's byte range holds exactly its record |
| EndToEnd.FetchBuiltExpert | pockettitan/runtime/expert/manager.py:137-165 | fetching it from whichever tier gives its dequantised projections, each weight within half a scale, and half the step its group's own weights span, of the one it was built from |

## Left out

- Commit routing and the INT4 RAM mode of the two-tier cache: they change outputs on purpose.
- Sampling at a positive temperature: speculation is compared with greedy decoding only.
- Half-precision rounding of stored scales and zeros: the quantiser bound is in exact arithmetic, and SectionLayout.RecordRoundTrip is about values that survive storage.
- Floating-point evaluation of capacity shares, tile budgets and byte ratios: they are exact reals or parameters.
- Symmetric and asymmetric quantisation aside, GPTQ, AWQ, HQQ and AutoRound have no exact specification.
- PageStore.RunSteps: no commit of a run is cut short between manifest and row; PageStore.OrphanBreaksBudget shows that the budget would not survive that.
- PageFault.FaultThroughCrashes: a crash leaves some prefix of a fragment; PageFault.PrepareIsSafeIff states what a garbage tail would break.
- PageFault.InterleavedFaults: two threads filling the same fragment file at the same time are not modelled, and a committed page keeps its partial directory.
- PackageWriter.PackageDir.Build: always resumes, and metadata, runtime assets and the disk-space preflight are possible interruptions only; encoding is a given payload per item.
- DownloadLane.Lane.Iterate: the serial path with one worker or a local reader, which takes no reservations, is not modelled.
- FastCache.ExpertMemoryCache.GetOrLoad: transfers are synchronous, all experts share one shape, and a stale view of an evicted expert is outside the promise (ServeTrace says until when it is good and whose slot it then shows).
- ExpertCache.BoundedSLRUCache.Get: entries of both tiers keep their values in one map; clear is not modelled, as it resets no counter.
- The `dequantize_to` buffer variant and `group_padding_factor`: the same arithmetic with an output argument, and a memory estimate.
- The kernels' own `unpack_codes` loop: per row it is the loop of Packing.UnpackTensor, and the kernels here read the same codes directly.
- Sparse canary expert records: a linear search through distinct planned entries.
- Full-mode representative decode checks: they reject zero points outside the code range, which the quantiser emits.
- The simulator's OS page cache policy and its latency model.
- HTTP, SQLite, mmap, CUDA memory and threads: replaced by byte sequences, maps and adversarial choices.
- Transformer and attention arithmetic, command line, reports, exporters and the hardware latency model.
