# Verified model of the Instant-State Applications core

This project models the stateful algorithms of the Instant-State Applications platform in Dafny and proves what they
promise over whole runs: rate limiting, the version graph, the content-addressed state store, incremental memory
checkpoints, the search index, manifest diff and patch, record and replay, the hash-chained audit log, and the wire
formats (RTP, QSSP, ICE candidates). `dafny verify dfyconfig.toml` checks all of it.

Objects that change their fields are classes here as well, and their loops are loops. Every such method is proved
against a function of the old state (or against a predicate that says outright what is found), and the promises are
proved about those functions, for every input, every run or every interleaving.

| file | models |
|---|---|
| `TokenBucket.dfy`, `RateLimiter.dfy`, `EndpointLimits.dfy`, `LimiterObservation.dfy`, `SlidingWindow.dfy` | `src/rate_limit.rs` |
| `VersionGraph.dfy`, `VersionAgreement.dfy`, `VersionNames.dfy` | `src/state_versioning.rs` |
| `StateStore.dfy`, `StateLifetime.dfy` | `src/state_store.rs` |
| `Memory.dfy`, `PageTemperatures.dfy`, `SnapshotPages.dfy` | `src/memory.rs` |
| `Search.dfy` | `src/state_search.rs` |
| `Diff.dfy` | `src/state_diff.rs` |
| `Replay.dfy`, `Recorder.dfy` | `src/deterministic.rs` |
| `Audit.dfy`, `AuditFields.dfy`, `AuditRace.dfy` | `src/audit.rs` |
| `Rtp.dfy` | `src/webrtc_media.rs` |
| `Qssp.dfy` | `src/quic_transport.rs` |
| `Ice.dfy` | `src/webrtc_transport.rs` |
| `Basics.dfy`, `Model.dfy`, `Numerals.dfy`, `BigEndian.dfy`, `Bits.dfy` | shared vocabulary, numerals, fixed-width numbers, bits |

## How the model reads the source

- Time is a parameter of every operation. Each method that holds a lock is one step; the `log_*` calls of the recorder
  are also split into their three steps, and the `log` calls of the audit logger into their two, which may interleave in
  any way.
- `f32` is `real` in the token buckets, and the temperature thresholds are exact rationals rounded down.
- A hash is any function; a proof that needs it says which byte strings in play must not collide. A serializer is any
  function from which the state can be read back, a compressor any function that its decompressor undoes.
- The order in which a hash map is traversed is a parameter or is left open, so results hold for every order.
- Panics are results of the model where the source can reach them (`Panics`, `Panicked` or `None`). Arithmetic on
  `u16`, `u32` and lengths wraps, saturates or panics as in a build with overflow checks wherever a statement below
  depends on it.

## What the proofs found

Where code, tests and documentation disagree, the model follows the code.

- A bucket keeps the limits of the check that created it, through every run in which it is not lost. The limits of an
  endpoint govern a key exactly when the key has no bucket or its bucket already has limits that no caller can tell from
  them, while `test_endpoint_limits` (src/rate_limit.rs:394-413) expects them to govern a key that has a bucket.
- A hint of 2 to the 64th seconds or more does not fit a `Duration`; computing it panics.
- `cleanup` changes later answers if the age is too short, or if endpoints have different limits: it is invisible
  exactly when `max_age * refill_rate` is at least `max_tokens` for every configuration in use and no two of them differ
  (except that limits without any capacity, whose hints panic, cannot be told apart). A run that notices the cleanup is
  given for every other case.
- The retry hint of the sliding window is still refused at the hinted instant; only strictly later retries pass. A
  window that starts before, or ends behind, what an `Instant` can hold makes the check panic.
- Recording a state can close a cycle, on which `get_ancestry` never returns, and can make `get_descendants` disagree
  with `get_ancestry`. Both happen exactly when a guard that can be evaluated before the call fails; recording a state
  again under a proper ancestor only adds to a child list what could be reached already, so both answers still agree. A
  cycle never goes away.
- A page whose bytes equal a serialized state disappears with that state, and no other page does. The cache limit,
  documented in bytes (src/state_store.rs:50-51), counts entries, and the collector leaves the cache alone.
- The event log is documented as being in sequence order (src/deterministic.rs:163). It is, exactly when every push is
  made by the call that holds the smallest number at the time.
- Without page-level diffing, `is_empty` is true only between two empty manifests.
- `verify_integrity` does not bind the length of a chain by itself, since ids are not checked and fields are hashed
  without separators. Together with consecutive ids the final hash binds the length exactly when the first ids agree.
  Metadata is not hashed at all.
- Concurrent `log` calls copy the last hash before they take the lock. The entries in memory verify exactly when the
  call of the oldest one read the hash before anything was logged, and no call of another one was overtaken between its
  two halves.
- The diagram of a QSSP message (src/quic_transport.rs:19-28) has no version byte; the code writes one. The header is
  read with a single read, so a header that arrives in two pieces ends in `IncompleteHeader`.
- The RTP timestamp of a frame is `us * 90 / 1_000_000` (src/webrtc_media.rs:451-452): every thousandth tick of the
  90 kHz clock its comment names.
- With a payload size of zero the packetizing loop never advances on a non-empty frame; its u16 counter then overflows,
  as it does on frames longer than 65535 payloads.
- Deserializing an RTP packet panics exactly when the CSRC count promises more bytes than there are.
- `search` panics on a page size of zero, when matches plus page size reach 2 to the 32nd, and on a page behind the end.

## Model

| member | source | states |
|---|---|---|
| TokenBuckets.TokenBucket.RefillNow | src/rate_limit.rs:75-82 | the new level is the old one plus the inflow since the last refill, capped; this composes (RefillComposes) |
| TokenBuckets.TokenBucket.TryConsume | src/rate_limit.rs:63-72 | grants and takes, or refuses and only refills, as the function about which the burst bound and the retry hint are proved |
| TokenBuckets.TokenBucket.Reset | src/rate_limit.rs:178-184 | a reset bucket is indistinguishable from a new one |
| TokenBuckets.RefillComposes | src/rate_limit.rs:75-82 | lazy refilling: refilling at two instants equals refilling once at the later one |
| TokenBuckets.RunKeepsValid | src/rate_limit.rs:41-82 | over every run the level stays between zero and the capacity, and capacity and rate never change |
| TokenBuckets.GrantedExactlyWhenEnoughFlowedIn | src/rate_limit.rs:63-82 | n tokens are granted if and only if the missing part has had time to flow in; a grant costs exactly n, a refusal nothing |
| TokenBuckets.TokenAccount | src/rate_limit.rs:53-82 | conservation over every run: granted plus left is at most start plus inflow plus one capacity per reset |
| TokenBuckets.BurstBound | src/rate_limit.rs:53-82 | any stretch of any run hands out at most the capacity (once more per reset) plus rate times elapsed time |
| TokenBuckets.RefusalsOnlyRefill | src/rate_limit.rs:63-82 | any number of refused attempts leaves the bucket as one refill does |
| TokenBuckets.RetryHintIsExact | src/rate_limit.rs:90-98 | after a refusal, and any refused attempts since, one token is granted if and only if the lacking part has had time to flow in; the hint is that time, or a panic exactly when a Duration cannot hold it |
| RateLimiters.RateLimiter.SetEndpointLimit | src/rate_limit.rs:121-124 | changes the limits of one endpoint and no bucket |
| RateLimiters.RateLimiter.Check | src/rate_limit.rs:127-151 | the configurations, the buckets, each owned by one key, and the answer are those of the calls that EndpointLimits.ChecksUseTheLastLimits is about |
| RateLimiters.RateLimiter.Reset | src/rate_limit.rs:178-184 | only the bucket of this key changes, and it becomes full |
| RateLimiters.RateLimiter.Remove | src/rate_limit.rs:187-190 | only this key loses its bucket |
| RateLimiters.RateLimiter.Cleanup | src/rate_limit.rs:193-200 | exactly the buckets idle for at least the age are dropped |
| EndpointLimits.ChecksUseTheLastLimits | src/rate_limit.rs:121-151 | every run that sets endpoint limits and names endpoints is a run in which each check carries the limits last set for its endpoint, or the default ones when none were set or none is named; so what is proved of such runs holds of the limiter |
| EndpointLimits.FirstChecksUseTheLastLimits | src/rate_limit.rs:121-151 | after any calls, a burst of a key without a bucket is admitted in full if and only if it is within the capacity last set for the endpoint, and the bucket has those limits from then on |
| EndpointLimits.RefusalsCarryTheLastLimit | src/rate_limit.rs:143-150 | whatever bucket it comes from, a refusal names the capacity last set for the endpoint, and nothing remaining |
| RateLimiters.MatchedRunsAnswerAlike | src/rate_limit.rs:127-200 | with one configuration, a limiter that may have lost buckets which are full by now answers every later check alike (configurations that differ are the subject of LimiterObservation.CleanupIsInvisibleExactly) |
| RateLimiters.ProbeTellsThemApart | src/rate_limit.rs:193-200 | below the safe age a concrete run is answered differently with and without its cleanup |
| RateLimiters.CleanupIsInvisibleForOne | src/rate_limit.rs:193-200 | with one configuration, no run can notice cleanups at this age if and only if age times rate is at least the capacity |
| LimiterObservation.FreshBucketsTell | src/rate_limit.rs:53-98 | checks tell two fresh buckets apart whenever their limits differ, unless neither has capacity and both hints panic |
| LimiterObservation.DifferentLimitsShow | src/rate_limit.rs:127-200 | two different configurations of one limiter let a concrete run notice cleanups at any age |
| LimiterObservation.CleanupIsInvisibleExactly | src/rate_limit.rs:102-200 | for any set of configurations in use: no run can notice cleanups at this age if and only if age times rate is at least the capacity of each, and no two differ (unless neither has capacity and both hints panic) |
| RateLimiters.KeysAreIsolated | src/rate_limit.rs:127-200 | over every run with any configurations, leaving out the operations on other keys changes no answer and no bucket of this key |
| RateLimiters.RefusalsAreExact | src/rate_limit.rs:127-151 | after every run with any mixture of configurations, a refusal names the limit asked for, nothing remaining, and a hint: whatever other keys do, the next check is admitted if and only if it has passed and the bucket can hold a token; a panic takes its place exactly when the bucket never refills or the hint does not fit a Duration |
| RateLimiters.LostExactly | src/rate_limit.rs:187-200 | a key loses its bucket if and only if it is removed or a cleanup finds the bucket too old |
| RateLimiters.BucketKeepsItsLimits | src/rate_limit.rs:127-200 | through every run in which it is not lost, a bucket keeps the limits of the check that created it, whatever configurations later checks come with |
| RateLimiters.StoredBucketIgnoresConfig | src/rate_limit.rs:127-151 | on a stored bucket two configurations admit alike and hint alike; they only label the refusal |
| LimiterObservation.EndpointLimitsGovernExactly | src/rate_limit.rs:127-151 | no later run of any operations can tell the limits of an endpoint from those in force for a key if and only if the key has no bucket or its bucket has them already (or both are without capacity and hint) |
| RateLimiters.BurstLimitHoldsExactly | src/rate_limit.rs:127-151 | for a key with a full bucket, the burst limit of an endpoint is enforced if and only if the bucket was created with it |
| RateLimiters.EndpointLimitComesTooLate | src/rate_limit.rs:127-151 | after a first request elsewhere, a burst to an endpoint passes if and only if the first endpoint's limit allows it, for all limits, contrary to the test at src/rate_limit.rs:394-413 |
| SlidingWindows.SlidingWindowLimiter.Check | src/rate_limit.rs:256-290 | popping and pushing the deque in a loop refines the function the window theorems are about |
| SlidingWindows.CheckKeepsMemory | src/rate_limit.rs:256-290 | the invariant of the log: a deque is the end of its key's whole history, and what it forgot is out of every window to come |
| SlidingWindows.NoWindowOverflows | src/rate_limit.rs:236-290 | over every run, every closed window of the configured length holds at most max_requests admissions of a key |
| SlidingWindows.AdmittedExactlyWhenThereIsRoom | src/rate_limit.rs:256-290 | after every run, a request is admitted if and only if the window ending now starts at an instant and holds fewer than max_requests admissions |
| SlidingWindows.RetryHintIsStrict | src/rate_limit.rs:256-290 | a refusal names the limit and nothing remaining; with nothing in between, a retry is admitted if and only if it comes strictly after the hint; the check panics exactly with a limit of zero or when an end of a window does not fit an Instant |
| VersionGraphs.StateVersionControl.RecordState | src/state_versioning.rs:43-76 | appends the entry and lists the state under its parent, as the function whose runs keep a forest |
| VersionGraphs.StateVersionControl.CreateBranch | src/state_versioning.rs:79-95 | the step about whose runs VersionNames.NamesAreWhatCallersWereTold is proved: the branch is stored and its state recorded again without a parent, or nothing changes |
| VersionGraphs.StateVersionControl.DeleteBranch | src/state_versioning.rs:109-118 | removes the branch or reports that there is none |
| VersionGraphs.StateVersionControl.CreateTag | src/state_versioning.rs:121-132 | an existing tag is an error without effect |
| VersionGraphs.StateVersionControl.DeleteTag | src/state_versioning.rs:147-156 | removes the tag or reports that there is none |
| VersionGraphs.StateVersionControl.GetBranch | src/state_versioning.rs:97-100 | where the branch is, by VersionNames.NamesAreWhatCallersWereTold where it was last created |
| VersionGraphs.StateVersionControl.GetTag | src/state_versioning.rs:135-138 | the same for a tag |
| VersionNames.NamesAreWhatCallersWereTold | src/state_versioning.rs:79-156 | after every run, a branch (or tag) is where its last creation that succeeded put it, unless a deletion has succeeded since; creating it fails and deleting it succeeds exactly while it is there |
| VersionNames.HistoriesAreWhatIsOnRecord | src/state_versioning.rs:43-95 | after every run, a state's history is what successful calls have put on record about it, in order; a rollback succeeds exactly when there is something on record, and answers with the new state |
| VersionNames.RollbackContinuesTheAncestry | src/state_versioning.rs:222-244 | the ancestry of a rollback is the new state followed by the ancestry of its target |
| VersionGraphs.StateVersionControl.Rollback | src/state_versioning.rs:222-244 | an unknown state is an error without effect; otherwise a fresh state is recorded under it |
| VersionGraphs.StateVersionControl.GetAncestry | src/state_versioning.rs:165-180 | returns the chain of first parents, which is unique (ChainIsUnique) |
| VersionGraphs.StateVersionControl.GetDescendants | src/state_versioning.rs:183-200 | on every graph, cyclic ones included, ends and returns without repetition exactly what one or more child edges reach |
| VersionGraphs.StateVersionControl.FindCommonAncestor | src/state_versioning.rs:203-219 | the first state of one chain that is on the other, which is the deepest common ancestor (next row) |
| VersionGraphs.DeepestCommonAncestor | src/state_versioning.rs:203-219 | None if and only if the chains are disjoint; otherwise on both chains, with every other common ancestor on its own chain |
| VersionGraphs.CommonAncestorIsSymmetric | src/state_versioning.rs:203-219 | both orders of asking give the same ancestor |
| VersionGraphs.ChainIsUnique | src/state_versioning.rs:165-180 | a state has at most one ancestry |
| VersionGraphs.ChainHasNoDuplicates | src/state_versioning.rs:165-180 | an ancestry that ends visits no state twice |
| VersionGraphs.RunKeepsForest | src/state_versioning.rs:43-95 | every disciplined run keeps both representations in agreement and a rank that falls along first parents |
| VersionGraphs.LinkedAgrees | src/state_versioning.rs:165-200 | where the child lists say what the parent links say, d is reachable from s by child edges if and only if s is a proper ancestor of d |
| VersionGraphs.LinksAndListsAgree | src/state_versioning.rs:165-244 | in every state a disciplined run reaches, walks end, and descendants and ancestry say the same |
| VersionGraphs.RecordKeepsListsExactly | src/state_versioning.rs:43-76 | recording keeps every child list equal to the states with that parent, each once, if and only if an old state gets no known parent and a new one is nobody's parent yet |
| VersionGraphs.RecordKeepsWalksExactly | src/state_versioning.rs:43-76 | all upward walks end after recording if and only if they did before and the walk from a new state's parent does not run out at that very state; a closed cycle is never opened |
| VersionGraphs.SoundExactly | src/state_versioning.rs:43-95 | a run keeps child lists so, without repetition, at every point, and leaves all walks ending, if and only if each of its operations meets these guards |
| VersionAgreement.RecordKeepsAnswersExactly | src/state_versioning.rs:43-76 | where all walks end, recording keeps the answers of get_descendants and get_ancestry in agreement if and only if an old state gets no known parent but one of its proper ancestors, and a new one is nobody's parent yet |
| VersionAgreement.SoundRunsAgree | src/state_versioning.rs:43-244 | a run keeps both answers in agreement and all walks ending at every point if and only if each of its operations meets that guard and closes no cycle |
| VersionAgreement.StricterRunsAgree | src/state_versioning.rs:43-76 | runs that keep child lists free of repetitions are among these |
| VersionGraphs.CycleWithoutDiscipline | src/state_versioning.rs:165-180 | an instance of the second guard failing: two states recorded as each other's parent, and an endless walk |
| VersionGraphs.RerecordingDisagrees | src/state_versioning.rs:43-76 | an instance of the first guard failing: a state recorded again under another parent is a descendant of a state that is not its ancestor |
| StateStores.MemoryBackend.Put | src/state_store.rs:489-493 | stores under one key and leaves the others |
| StateStores.MemoryBackend.Get | src/state_store.rs:495-500 | the stored bytes, or not found |
| StateStores.MemoryBackend.Delete | src/state_store.rs:502-506 | removes one key and is not an error when there is none |
| StateStores.StateStore.StoreState | src/state_store.rs:154-204 | index, bounded cache and backend change together as in the function that refines a plain map |
| StateStores.StateStore.GetState | src/state_store.rs:207-238 | reads through the cache, changing nothing else |
| StateStores.StateStore.DeleteState | src/state_store.rs:241-265 | with at most one reference the entry, its stored and its cached bytes go, otherwise only the count falls; an unknown id is no error |
| StateStores.StateStore.IncrementRef | src/state_store.rs:280-289 | counts one more reference of this state only, or reports that it is unknown |
| StateStores.StateStore.DecrementRef | src/state_store.rs:292-303 | counts one less, not below zero, of this state only, or reports that it is unknown |
| StateStores.StateStore.StorePage | src/state_store.rs:306-322 | files the page under the hash it carries |
| StateStores.StateStore.GetPage | src/state_store.rs:325-345 | reads through the cache, changing nothing else |
| StateStores.StateStore.FindExpired | src/state_store.rs:365-375 | the scan lists exactly the expired entries nobody references |
| StateStores.StateStore.CollectGarbage | src/state_store.rs:359-387 | one pass as one step drops exactly the expired entries nobody references and their bytes, not their cached copies |
| StateStores.AddressesAreDistinct | src/state_store.rs:154-165 | different ids never share an address, because the id is among the hashed bytes |
| StateStores.RemovalKeepsRefinement | src/state_store.rs:241-265 | deleting any set of entries with their bytes breaks no other entry and no page |
| StateStores.StepRefines | src/state_store.rs:154-387 | one operation on store and plain map gives the same reply and keeps them together, whatever the cache holds |
| StateStores.RunRefines | src/state_store.rs:154-387 | the same for every run, reply by reply |
| StateStores.StoreIsAPlainMap | src/state_store.rs:105-387 | from empty on, every reply of every run about states, and about pages that are not the bytes of a state, is the plain map's; no page is ever handed out that does not hash to the address asked for; the cache never exceeds its entry limit |
| StateStores.PageGoesWithItsState | src/state_store.rs:241-265 | a page with the bytes of a state goes away with that state, whatever the cache limit |
| StateStores.PageSurvivesExactly | src/state_store.rs:306-345 | a page stored under its own hash can be fetched after every run, with any cache limit, if and only if its bytes are not those of a state |
| StateLifetime.StateLivesExactly | src/state_store.rs:154-303 | after every run that stores a state at t and not again, it is read back if and only if no collection has found it unreferenced and past t plus its time to live, and no deletion has found its last reference |
| StateLifetime.StoredDescribesTheState | src/state_store.rs:172-180 | the reported address, size, count, times and id are those of what can then be fetched and decoded |
| StateLifetime.CacheFillsUp | src/state_store.rs:188-194 | while the cache has room, whatever is stored or fetched from the backend enters it |
| Memories.DirtyPageTracker.MarkDirty | src/memory.rs:101-105 | sets one bit in place; pages out of range are ignored |
| Memories.DirtyPageTracker.RecordAccess | src/memory.rs:108-112 | counts one access in place, saturating at u32 |
| Memories.DirtyPageTracker.ClearDirty | src/memory.rs:125-127 | clears every bit in place |
| Memories.DirtyPageTracker.ClassifyTemperature | src/memory.rs:130-161 | the three sets hold exactly the pages whose counts reach twice, half or less than half the average |
| Memories.DirtyIsExact | src/memory.rs:115-122 | the ascending dirty list holds exactly the marked pages |
| Memories.ClassesPartitionPages | src/memory.rs:130-161 | the classes are disjoint, cover all pages, and looking a page up finds its class |
| PageTemperatures.TemperaturesByTheSum | src/memory.rs:130-161 | when a page is hot, warm or cold, by cross-multiplication with the sum of all counts |
| Memories.HotPagesAreBudgeted | src/memory.rs:130-161 | number of hot pages times the threshold (at least one) is at most the total access count |
| Memories.SomePageIsNotCold | src/memory.rs:130-161 | with at least one page, some page is hot or warm |
| Memories.MemorySnapshotManager.RegisterRegion | src/memory.rs:202-207 | a new clean tracker replaces whatever the name had |
| Memories.MemorySnapshotManager.CompressPages | src/memory.rs:234-277 | the loop makes the pages of the dirty list in order, skipping those beyond the slice, and caches each by hash |
| Memories.MemorySnapshotManager.SnapshotDirty | src/memory.rs:224-286 | pages, cache and bits after a snapshot, after a failed one (dirt is kept) and for an unknown region |
| Memories.MemorySnapshotManager.Coalesce | src/memory.rs:305-342 | the run-length loop yields one region per maximal run of equal temperature |
| Memories.MemorySnapshotManager.GenerateManifest | src/memory.rs:295-342 | the manifest of a registered region from its current counts, None for others |
| Memories.ManifestTiles | src/memory.rs:295-366 | regions are non-empty, contiguous from base to base plus pages, of every page's temperature, and maximal |
| Memories.HexIsInjective | src/memory.rs:345-366 | different addresses are printed differently |
| Memories.ManifestIdsAreUnique | src/memory.rs:295-366 | no two regions of a generated manifest share an identifier |
| Memories.HexDigits | src/memory.rs:356 | addresses are printed digit by digit, in lower case, most significant first |
| SnapshotPages.RegionsAreReadWrite | src/memory.rs:359-363 | generated regions may be read and written, not executed |
| SnapshotPages.PagesAreOfTheDirtyList | src/memory.rs:234-277 | the i-th page made is of the i-th dirty page, compressed as its temperature demands and hashed as compressed |
| SnapshotPages.PagesAreCached | src/memory.rs:270-274 | every page made is found in the cache under its hash |
| Memories.OverlayRestores | src/memory.rs:224-286 | overlaying the decompressed pages replaces exactly the dirty pages inside the slice by their contents |
| Memories.SnapshotCatchesUp | src/memory.rs:224-286 | a successful snapshot makes the checkpoint equal to memory |
| Memories.CheckpointsAreExact | src/memory.rs:101-286 | the same after any number of writes, accesses, snapshots and failed snapshots |
| Searches.TokensAreTheWords | src/state_search.rs:301-307 | the tokens are exactly the maximal alphanumeric runs of the lower-cased text of at least two bytes |
| Searches.StateSearchIndex.WithdrawAll | src/state_search.rs:167-191 | the removal loop withdraws one id from all its keys and drops sets that become empty |
| Searches.StateSearchIndex.RemoveState | src/state_search.rs:161-203 | entries and both indices change together and stay consistent |
| Searches.StateSearchIndex.IndexState | src/state_search.rs:123-158 | an entry replaces the one of the same id, and the indices stay consistent |
| Searches.StateSearchIndex.Search | src/state_search.rs:206-285 | the staged search returns a page of the sorted plain scan, for every traversal order, and panics where the page arithmetic does |
| Searches.StateSearchIndex.FilterText | src/state_search.rs:210-222 | the text stage keeps exactly the entries that share a word with the query, in order |
| Searches.RunKeepsConsistent | src/state_search.rs:123-203 | after every run both indices are exactly those computed from the entries, without an empty set |
| Searches.StagesAreTheScan | src/state_search.rs:206-240 | the four stages, tag index included, select what a plain filter selects |
| Searches.SortBySorts | src/state_search.rs:242-265 | sorting permutes the matches into the order asked for |
| Searches.SortByIsStable | src/state_search.rs:242-265 | ties keep their order |
| Searches.StableSortIsUnique | src/state_search.rs:242-265 | a list has only one sorted rearrangement that keeps ties in their order, so these two rows determine the sort |
| Searches.SortedFieldsFollow | src/state_search.rs:242-265 | what being sorted says about creation times, sizes and labels of any two results, ascending and descending |
| Searches.LexIsLexicographic | src/state_search.rs:252 | labels compare by the first difference, prefixes first |
| Searches.PagesConcatenateExactly | src/state_search.rs:267-284 | pages 0 to total_pages - 1 can be read and concatenate to all matches if and only if the page size is positive and matches plus page size fit in a u32 |
| Searches.AllPagesAreAllMatches | src/state_search.rs:206-285 | after every run, all pages together hold every matching entry exactly once, sorted, if and only if the page arithmetic fits in a u32 |
| Searches.PanicsExactly | src/state_search.rs:267-276 | a search panics if and only if the page size is zero, matches plus page size reach 2 to the 32nd, or the page starts behind the end |
| Searches.PagesSayWhatTheyAre | src/state_search.rs:267-284 | a page reports its place, the number of matches and of pages, and holds its matches one by one |
| Diffs.StateDiffer.Push | src/state_diff.rs:203-229 | walking a map in any order lists each selected region once and nothing else |
| Diffs.StateDiffer.BuildPageHashes | src/state_diff.rs:275-297 | the page hashes are those of the regions' identifiers and address ranges |
| Diffs.StateDiffer.ComputeDelta | src/state_diff.rs:117-272 | the delta is one of those PatchReproducesTarget and EmptyDeltaMeans speak about, whatever the map order |
| Diffs.StatePatcher.ApplyMemoryPatches | src/state_diff.rs:387-412 | retaining, adding and overwriting in place gives the manifest that PatchedIsExact describes region by region |
| Diffs.StatePatcher.ApplyDelta | src/state_diff.rs:347-384 | a delta for another state is an error; otherwise memory, id and, if given, CPU change, and the tables do not |
| Diffs.KeyIsGeometry | src/state_diff.rs:275-297 | equal hashed bytes mean equal identifier, base and size |
| Diffs.PatchedIsExact | src/state_diff.rs:387-412 | what is in a patched manifest, region by region, and that its identifiers are unique |
| Diffs.PagesKnownExactly | src/state_diff.rs:241-271 | no page hash of the target is new if and only if every region of the target was there, in the same place and size |
| Diffs.PatchReproducesTarget | src/state_diff.rs:191-412 | patching anything of the source's geometry gives the target's geometry; it gives the very regions if and only if the mode is coarse, or some region is new or moved, or flags and temperatures agreed already |
| Diffs.ChainReachesTarget | src/state_diff.rs:347-412 | a chain of deltas of any modes leads from the first geometry to the last |
| Diffs.EmptyDeltaMeans | src/state_diff.rs:71-79 | an empty delta means nothing visible changed and equal geometry (page mode) or two empty manifests (coarse mode), and conversely |
| Diffs.DeltasCarryTheCpu | src/state_diff.rs:347-384 | applied to its source a delta carries the id, and the target's CPU when given; the tables stay; to other states it does not apply |
| Diffs.DeltasMarkWhatDiffers | src/state_diff.rs:117-188 | without a collision, the CPU and the tables are marked exactly when they differ |
| Diffs.DeltasReverse | src/state_diff.rs:191-272 | the delta back removes what this one adds and adds what it removes |
| Replays.ReplayEngine.constructor | src/deterministic.rs:562-579 | entries are renumbered by position and keep their events and order |
| Replays.ReplayEngine.Start | src/deterministic.rs:582-586 | replay begins at the start of the log, which is kept |
| Replays.ReplayEngine.Advance | src/deterministic.rs:595-603 | steps over one entry and returns its number, or stays at the end |
| Replays.ReplayEngine.VerifyEvent | src/deterministic.rs:606-632 | position and verdict are those of the function the replay theorems are about |
| Replays.MatchingIsEquality | src/deterministic.rs:635-660 | events match if and only if they are equal |
| Replays.LenientReplayIsOptimal | src/deterministic.rs:606-632 | after every stream the position is the length of the longest log prefix that is a subsequence of the stream |
| Replays.StrictReplayFailsAtFirstDifference | src/deterministic.rs:606-632 | no error if and only if the stream is a prefix of the log; otherwise the first error, and which, is right behind the common prefix |
| Replays.VerdictsAreExact | src/deterministic.rs:606-632 | in both modes and for every stream, each verdict in terms of the matches told before it: match, mismatch, divergence or end of log; the engine stands at the number of matches told |
| Recorders.DeterministicLogger.EnableRecording | src/deterministic.rs:299-302 | switches recording on and keeps the log |
| Recorders.DeterministicLogger.DisableRecording | src/deterministic.rs:305-308 | switches recording off and keeps the log |
| Recorders.DeterministicLogger.LogEvent | src/deterministic.rs:316-490 | logs nothing and returns zero when off; otherwise appends under the next number |
| Recorders.RecordedRunReplays | src/deterministic.rs:316-498 | a run of one caller logs exactly the calls made while on, in order, and replays to completion in both modes |
| Recorders.CallsReturnTheirNumbers | src/deterministic.rs:316-490 | with n calls logged before it and recording on, a call returns n + 1, under which the log holds an event that tells of it; otherwise zero |
| Recorders.UninterruptedCallLogs | src/deterministic.rs:316-343 | the three steps of a call in a row do what the recorder of one caller does |
| Recorders.NumbersAreDistinctAndComplete | src/deterministic.rs:316-490 | in every interleaving numbers are distinct and within 1..counter, and exactly these once no call is in flight |
| Recorders.LogIsInOrderExactly | src/deterministic.rs:161-170 | an interleaving leaves the log in sequence order if and only if every push holds the smallest number in flight |
| Recorders.CallsCanOvertake | src/deterministic.rs:316-343 | two concurrent calls can leave the log out of order |
| Audits.AuditLogger.LogEvent | src/audit.rs:201-251 | the new entry is chained to the last hash, numbered next and kept with the newest entries |
| Audits.AuditLogger.Trim | src/audit.rs:236-239 | the eviction loop leaves exactly the newest max_memory_entries entries |
| Audits.AuditLogger.VerifyIntegrity | src/audit.rs:266-282 | true if and only if every entry links to the one before, starting from the empty hash, and hashes right; AuditFields.ExchangeIsNoticedExactly says which changes that notices |
| Audits.TrimmedLogStaysLinked | src/audit.rs:201-251 | after every run neighbours in memory are linked, ids consecutive, and the newest entries kept |
| Audits.VerifiesExactlyWhileComplete | src/audit.rs:201-282 | verification succeeds if and only if nothing has been evicted, or nothing is ever kept |
| Audits.ChainsAgreeBackwards | src/audit.rs:254-282 | verified chains with one final hash agree on the hashed bytes, from the end backwards |
| Audits.FinalHashBindsTheChain | src/audit.rs:254-282 | with consecutive ids they also have equal length if and only if their first ids agree |
| Audits.LoggersWithOneFinalHash | src/audit.rs:201-282 | two loggers without eviction that end in one hash logged equally many entries with equal hashed bytes |
| Audits.LengthIsNotBoundWithoutIds | src/audit.rs:254-282 | for any two requests there is a single entry that verifies and ends in the same hash as the chain of the two |
| Audits.MetadataIsNotBound | src/audit.rs:254-282 | exchanging the metadata of any entry never changes whether a log verifies |
| AuditFields.ExchangeIsNoticedExactly | src/audit.rs:254-282 | a log with one entry exchanged, its hash kept, still verifies if and only if previous hash, id and the concatenation of timestamp, event, actor and resource are the same |
| AuditFields.EveryFieldIsBound | src/audit.rs:254-282 | exchanging any single hashed field of any entry of a verified log makes it fail |
| AuditFields.LogRecordsTheRequests | src/audit.rs:201-239 | after every run the log holds the newest requests in order, each with all that was asked to be logged |
| AuditFields.OneFinalHashOneHistory | src/audit.rs:201-282 | two loggers without eviction and with one final hash logged equally many requests, and wherever two requests differ in at most one hashed text they do not differ |
| AuditRaces.HashesAreDistinct | src/audit.rs:254-263 | the last hashes after different numbers of entries differ, because the number is hashed |
| AuditRaces.LinksExactly | src/audit.rs:201-234 | an entry is chained to the one before it if and only if nothing was logged since its call had read the last hash |
| AuditRaces.SuffixVerifiesExactly | src/audit.rs:266-282 | the entries from any position on verify if and only if the first was chained to no entry and each other one to the one before it |
| AuditRaces.ConcurrentLogVerifiesExactly | src/audit.rs:201-282 | for every interleaving, evictions included, the entries in memory verify if and only if the oldest one's call had read the hash before anything was logged and no other one's call was overtaken between its halves |
| AuditRaces.UninterruptedCallAppends | src/audit.rs:201-251 | the two halves of a call in a row do what the sequential logger does |
| RtpMedia.PacketRoundTripsExactly | src/webrtc_media.rs:67-135 | a packet survives serializing and parsing if and only if version is 2, CSRC count 0 and payload type below 128 |
| RtpMedia.BytesRoundTripExactly | src/webrtc_media.rs:67-135 | a parsed packet serializes to the same bytes if and only if there are no contributing sources |
| RtpMedia.DeserializePanicsExactly | src/webrtc_media.rs:97-121 | parsing panics if and only if twelve bytes of version 2 promise more contributing sources than there are bytes for |
| RtpMedia.Layout | src/webrtc_media.rs:67-94 | which bytes hold which field |
| BigEndian.MostSignificantFirst | src/webrtc_media.rs:81-88 | numbers are sent most significant byte first |
| RtpMedia.FirstByteFields | src/webrtc_media.rs:70-75 | the shifted and or-ed fields of the first byte can be read back |
| RtpMedia.FirstByteRebuilds | src/webrtc_media.rs:97-111 | every first byte is made of the fields read from it |
| RtpMedia.SecondByteFields | src/webrtc_media.rs:77-79 | marker and a payload type below 128 can be read back |
| RtpMedia.SecondByteRebuilds | src/webrtc_media.rs:113-115 | every second byte is made of the fields read from it |
| RtpMedia.ChunksAreExact | src/webrtc_media.rs:363-394 | the chunks of a frame concatenate to it, are non-empty and at most max long, and are as few as possible |
| RtpMedia.LoopEndsExactly | src/webrtc_media.rs:363-391 | some number of rounds brings the packetizing loop to the end of the frame if and only if the payload size is positive or the frame empty; with size zero no round advances it |
| RtpMedia.PacketsFit | src/webrtc_media.rs:363-394 | a u16 counts the packets of a frame if and only if it is at most 65535 times the payload size long |
| RtpMedia.VideoPacketizer.Packetize | src/webrtc_media.rs:363-394 | the loop makes one packet per chunk, the last one marked, or panics exactly when a u16 does not count them, also for payload size zero |
| RtpMedia.PacketsSayWhatTheyAre | src/webrtc_media.rs:363-394 | each packet's number, timestamp, type, payload and marker (last or keyframe) |
| RtpMedia.RtpSession.SendPacket | src/webrtc_media.rs:256-291 | numbers modulo 2 to the 16th, sends and counts, or changes nothing when not connected |
| RtpMedia.WebRtcMediaSender.SendVideoFrame | src/webrtc_media.rs:445-464 | hands the socket exactly the consecutively numbered datagrams of the frame's chunks |
| RtpMedia.ClockIsSlow | src/webrtc_media.rs:451-452 | the RTP clock counts every thousandth tick of a 90 kHz clock, and before that wraps it is right only in the first 11 microseconds |
| RtpMedia.DatagramsParse | src/webrtc_media.rs:97-135 | each datagram parses to its chunk, number, timestamp, SSRC, type and marker |
| RtpMedia.WrappingAddIsExact | src/webrtc_media.rs:269 | the session's timestamps start over past 32 bits |
| RtpMedia.PositionIsRecovered | src/webrtc_media.rs:281-282 | a packet's position in its frame follows from its wrapped number |
| RtpMedia.FrameSurvivesTheTrip | src/webrtc_media.rs:363-464 | cut, numbered from anywhere, sent, received in any order, parsed and reassembled, a frame comes back whole |
| Qssp.CodesAreExact | src/quic_transport.rs:49-85 | a byte stands for a message type if and only if it is that type's code |
| Qssp.CodesAreInOrder | src/quic_transport.rs:49-63 | a type's code is its place in the declaration |
| Qssp.DeserializeHeader | src/quic_transport.rs:116-141 | the result, and exactly the bytes taken from the buffer in every case |
| Qssp.ConsumesTenOrNothing | src/quic_transport.rs:116-141 | ten bytes are taken if and only if a header is returned, none when there are fewer |
| Qssp.HeaderLayout | src/quic_transport.rs:106-113 | magic, version, type and length in this order; a valid header begins with QSSP in ASCII |
| Qssp.HeaderRefusals | src/quic_transport.rs:116-141 | the first wrong field is reported with its value and is the last thing taken |
| Qssp.HeadersAreExact | src/quic_transport.rs:106-141 | a header is read if and only if the bytes are its serialization and magic and version are right |
| Qssp.RecvStream.Read | src/quic_transport.rs:179-184 | the network may deliver any non-empty part of what is to come, end only when nothing is, or fail |
| Qssp.ReadFromStream | src/quic_transport.rs:166-188 | under every chunking the loop ends, with a result that depends only on the bytes and the size of the first read |
| Qssp.MessagesAreExact | src/quic_transport.rs:158-188 | a message is read if and only if the stream begins with its bytes, it is well formed and its header arrives whole |
| Qssp.NewMessagesAreReadExactly | src/quic_transport.rs:152-188 | the type and payload of a new message are read back if and only if the payload is shorter than 2 to the 32nd |
| Qssp.ListsAreExact | src/quic_transport.rs:158-188 | a stream reads as a list of messages if and only if it is their concatenation, they are well formed, and the first read of each brings a whole header |
| Qssp.PagesAndMessagesAreExact | src/quic_transport.rs:231-258 | a page comes back if and only if its size fits in 32 bits, a page message if and only if its compression is known |
| IceCandidates.PrintedParses | src/webrtc_transport.rs:163-172 | a printed number is parsed back if and only if it is in range |
| IceCandidates.PrintedInDecimal | src/webrtc_transport.rs:133-141 | numbers are printed in decimal, most significant digit first |
| IceCandidates.SplitsOffWord | src/webrtc_transport.rs:161-163 | splitting at whitespace finds a word that whitespace or the end follows |
| IceCandidates.SpacedSplits | src/webrtc_transport.rs:132-163 | splitting undoes joining words with spaces |
| IceCandidates.LineSaysEverything | src/webrtc_transport.rs:132-153 | the printed line word by word, the related address and port (zero when missing) included |
| IceCandidates.CandidatesRoundTripExactly | src/webrtc_transport.rs:132-183 | from_sdp of to_sdp is the candidate without its related address and port if and only if foundation, protocol and address are words |
| IceCandidates.ParsedCandidatesRoundTrip | src/webrtc_transport.rs:156-183 | whatever candidate was parsed survives printing and parsing unchanged |

## Left out

- Input and output, sockets, QUIC connections, HTTP, S3, the file system, virtual machines, tracing, media codecs, the browser plugin, configuration and the command line: this project stops where foreign libraries and devices take over.
- Rounding of `f32`, overflow of the sum of access counts and of addresses, and microsecond timestamps so large that `us * 90` overflows u64: arithmetic is exact there.
- SHA-256, JSON and the compression libraries: uninterpreted functions with the properties named in each theorem; failures to serialize a state are not modelled.
- Garbage collection as two steps: the source scans under one lock and deletes under another without looking again (src/state_store.rs:365-386), so exactness is claimed only for a pass taken as one step.
- StateStores.StoreIsAPlainMap: covers pages filed under the hash of their bytes, as `store_page`'s callers are to provide it; says nothing about reading pages that the plain map does not hold, which are those nobody stored and those with the bytes of a state.
- The local and S3 backends, `has_state` and `list_states`: they add no branching to the memory backend; dates beyond what the time library can represent, which make `store_state` panic.
- Diffs.ChainReachesTarget: speaks of identifiers and address ranges only, since page-mode deltas do not carry flags and temperatures, and `apply_delta` leaves descriptor and socket tables untouched.
- `merge_deltas`, which drops the region lists and so does not compose deltas; `transfer_size` and `compression_ratio`, since the page data of a delta is always empty.
- `prefetch_hot_pages` and the three index builders of src/memory.rs: the looked-up key never matches the index.
- `QSSPReceiver::handle_stream` and the senders: the receiver reads one message of each stream while the sender writes many.
- Audit log files, flushing and searching.
- Recorders.NumbersAreDistinctAndComplete: covers log calls only, not `clear` or `deserialize` running at the same time.
- RTCP, receiving sockets, send failures and audio: SendVideoFrame stands for the video path over a socket that accepts every datagram.
- RtpMedia.VideoPacketizer.Packetize: counts packets with overflow checks; without them the counter wraps around, and on a payload size of zero the loop of the source does not end.
- VersionGraphs.StateVersionControl.GetAncestry: asks that the walk ends, since the loop of the source does not end on a cycle; VersionGraphs.SoundExactly says exactly after which runs all walks end.
- `get_status`, `check_batch`, `IpRateLimiter`, version statistics, index statistics, authentication, sharing, batches, metrics, orchestration, the socket proxy, validation and archives: counters, guards and field checks, none of which the modelled components depend on.
- SDP beyond candidate lines; `from_sdp` does not read the related address and port.
