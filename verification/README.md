# Verified models of the memory, queue and store modules

This project models the stateful core of an embedded middleware library written
in C, and proves what its modules promise: the coalescing heap allocator
(`src/em_malloc.c`) with its wait-for-free protocol, the block pool
(`src/em_mempool.c`) everything else stands on, the bounded blocking queue
(`src/em_queue.c`), the keyed store (`src/em_gdatamng.c`), the linked list
(`src/em_list.c`), the ring buffer (`src/em_ringbuf.c`) and the event flag
(`src/em_eventflag.c`).

`dafny verify dfyconfig.toml` checks the whole project.

## How it is organised

| file | what it holds |
|---|---|
| `Segments.dfy` | the arena as a list of segments, and who owns which unit |
| `Units.dfy` | shifts, masks and divisions between bytes, units and addresses |
| `HeapRecords.dfy`, `HeapMalloc.dfy`, `HeapFree.dfy` | the record list of the allocator, its invariant, and what each branch does to it |
| `HeapOwners.dfy` | who has which unit, read off the pools without the list |
| `HeapVerdicts.dfy`, `HeapRuns.dfy`, `HeapAges.dfy`, `HeapBadRuns.dfy` | what the calls return and guarantee: one call, whole runs, a caller's view of stale links, runs that go wrong |
| `Malloc.dfy` | the allocator as an object changed in place |
| `TryMalloc.dfy`, `TryTimeouts.dfy`, `TryRefines.dfy` | `em_trymalloc` and `em_free` as steps of any number of threads, when a call tries again, and the same steps over the records |
| `Mempool.dfy`, `PoolProtocol.dfy` | the block pool, sequential and concurrent |
| `Queue.dfy`, `QueueProtocol.dfy` | the queue, sequential and concurrent |
| `KeyStore.dfy`, `LinkedList.dfy`, `RingBuf.dfy` | store, list and ring as objects |
| `EventFlag.dfy`, `EventOnce.dfy` | the event flag as steps of any number of threads, and when one set satisfies two waits |
| `Basics.dfy`, `Threads.dfy`, `Runs.dfy`, `Calls.dfy` | shared types, counting threads, induction over runs, and what calls did and return |

The allocator is proved in three layers. `Malloc.MemMng` is a class with the
record table, the index table and the two pools in arrays; each of its methods
does what a function on values in `HeapRecords` does. Those functions follow the
code as written. They keep a list invariant (`HeapRecords.Inv`) and do to the
segment list what `Segments.Malloc` and `Segments.Free` do, until em_free reads
a stale back link. About the segment list the properties a caller sees are
proved: ownership, completeness, canonical form, undo.

The concurrent modules are transition relations over any number of threads, one
step per lock, unlock, wait, wake-up, post or critical section. A mutex has at
most one owner, a semaphore is a number, and a condition variable is the set of
threads in its waiting state: entering it gives up the mutex in the same step,
leaving it is possible at any time (a broadcast, a timeout or a spurious
wake-up). Calls are numbered; a log records, in critical-section order, what each
did, and what a call returns is proved to be what it did. `TryMalloc` has the segment list for its arena. `TryRefines.RunsRefine`
carries its results over to the records: for the code with the missing back link
set, and for the code as written as long as no allocation is released while the
one right below it was made later.

## Where the code departs from what it is for

The code is modelled as written. Where that breaks a property, the condition
under which it holds is proved exactly, and a concrete failing run is given.

- Exact fit, `src/em_malloc.c:202-206`. The segment after the new one keeps a
  back link to the released record. Such a link is stale. Requests never read
  one, so `HeapVerdicts.MallocAsWritten` keeps the invariant always. A release
  of the allocation that has it does read it, and then, and only then, some unit
  is no longer with exactly one record (`HeapVerdicts.FreeReturns`,
  `HeapVerdicts.FreeGivesUpIff`, over runs `HeapRuns.RunsPartedIff`). In a
  caller's terms: an allocation is stale while the one right below it was made
  later, so a run is safe exactly if no allocation is released in that state
  (`HeapAges.AsWrittenPartedIff`). What goes wrong is one of two things:
  the units are lost (`HeapBadRuns.StaleFitLosesUnits`), or, exactly if the link
  names a free segment elsewhere (`HeapRuns.RunsApartIff`), that segment grows
  over its neighbour, and the next request can be given units of a live
  allocation (`HeapBadRuns.StaleReadOverlaps`, a run of eight calls). With the
  one missing statement (`HeapRecords.Relink`) every run is sound:
  `HeapVerdicts.MallocRelinked`, `HeapRuns.RelinkedRunsSound`,
  `HeapRuns.RelinkedRunsClean`.
- `mem_used_bsize`, `src/em_malloc.c:188-194`. A request that finds space but no
  record raises the counter and fails. `HeapRuns.UsedSizeOverRuns` gives the
  exact value after every run that releases no stale allocation,
  `HeapRuns.UsedSizeExactIff` says when it is right, `HeapBadRuns.SizeDrifts` is
  a run where it is not.
- `EM_NO_TIMEOUT`, `src/em_malloc.c:284`. Since -1 is below every passed time,
  the loop leaves after one wait. `TryTimeouts.SecondAttemptIffTimeout`: a
  second attempt is possible exactly under a positive timeout.
  `TryMalloc.AfterWaking` says for every wake-up what follows.
  `TryTimeouts.NoTimeoutFailsWithRoom` is a run in which a release has woken the
  waiting call, a retry would succeed, and the call returns failure.
- `em_gdatamng_get_key`, `src/em_gdatamng.c:290`. It uses the scan position as
  a block id. `KeyStore.GetKeyRightIff` and `KeyStore.GetKeyAlwaysRightIff` say,
  over the table before the call, when the key it returns is in the store with
  the searched data, `KeyStore.GetKeyRightForDifferent` what that amounts to for
  pairwise different data, and `KeyStore.GetKeyReturnsRemovedKey` shows it
  returning a removed key, in a store reached by three calls
  (`KeyStore.AfterRemovalReached`).
- `em_ring_get_dataptr_head`, `src/em_ringbuf.c:116-120`. A negative `int` is
  converted to `uint` before the modulus. `RingBuf.HeadReadIff` says when the
  index is right, `RingBuf.ThreePushesReached` is a run of three pushes where it
  is wrong. Both read functions also accept offset 2^32 - 1, whose successor
  wraps to 0.
- `em_eventflag_wait`, `src/em_eventflag.c:217-224`. Testing and resetting are
  two critical sections, so one set can satisfy two waits that both reset the
  flag: `EventFlag.OneSetTwoSuccesses`. `EventOnce.OnceIff` says exactly when:
  a resetting wait finds the flag up that another thread has seen up, has yet to
  reset, and that nothing took down in between. That nothing took it down is
  part of the condition: `EventOnce.BothTestedSharingNothing` is a run that shows
  it. With one resetting wait per flag at a time it cannot happen:
  `EventOnce.OneResetterOnce`.

The last sentinel's back link is written but never read, so the list invariant
does not mention it.

## Model

| member | source | states |
|---|---|---|
| Segments.MallocOwner | src/em_malloc.c:195-215 | malloc changes the owner of exactly the units it returns, and all of them were unowned |
| Segments.FreeOwner | src/em_malloc.c:312-355 | free gives up exactly the units of the released allocation, whichever neighbours it joins |
| Segments.AllocationsDisjoint | src/em_malloc.c:183-226 | in a list of contiguous segments two live allocations share no unit and lie inside the arena; when the records of the code as written stand for such a list is HeapRuns.RunsPartedIff |
| Segments.MallocWf | src/em_malloc.c:195-213 | taking units leaves positive contiguous segments over the whole arena, no two free ones adjacent |
| Segments.FreeWf | src/em_malloc.c:317-354 | so does releasing, because it joins both free neighbours |
| Segments.Canonical | src/em_malloc.c:317-354 | the segment list is determined by who owns which unit |
| Segments.MallocThenFree | src/em_malloc.c:201-213 | freeing the result of malloc restores the segment list, for an exact fit and for a split |
| Segments.StartsAreUsedSegments | src/em_malloc.c:215 | the live allocations, read off the ownership of units, are the used segments named by their first units |
| Segments.FreeAllGivesFresh | src/em_malloc.c:317-355 | freeing all allocations in any order leaves one free segment of the full length |
| Segments.FitsIffUnownedRun | src/em_malloc.c:183-186 | a segment fits exactly when that many consecutive unowned units exist anywhere, by maximal coalescing |
| Segments.FreeCountBound | src/em_malloc.c:80-97 | free segments outnumber used ones by at most one, less for each used end of the arena |
| Segments.IsolatedFreeBound | src/em_malloc.c:319-329 | where free must create a segment, strictly fewer segments are free than used |
| Segments.MallocCounts | src/em_malloc.c:188-213 | malloc adds one allocation and its units, and removes a free segment only on an exact fit |
| Segments.FreeCounts | src/em_malloc.c:317-357 | free removes one allocation and its units; the number of free segments follows from how many it joins |
| Segments.MallocKeepsFailure | src/em_malloc.c:256-289 | allocations by others never turn a failing request into one that succeeds |
| Units.BitTestIffPow2 | src/em_malloc.c:53-64 | the fast path is chosen for exactly the powers of two |
| Units.PathsAgree | src/em_malloc.c:161-177 | shift-and-mask and divide paths compute the same counts, offsets and indices |
| Units.MaskIsMod | src/em_malloc.c:165 | masking with unit size minus one is the remainder |
| Units.CountRoundsUp | src/em_malloc.c:161-177 | the unit count is the least one that holds the requested bytes, on both paths |
| Units.IndexInvertsOffset | src/em_malloc.c:297-304 | free's address-to-index conversion inverts malloc's index-to-address one, from any byte of the unit |
| HeapRecords.WalkUnique | src/em_malloc.c:94-97 | the walk along the next links between the sentinels is determined by the records |
| HeapRecords.Scan | src/em_malloc.c:183-186 | the downward scan returns the highest position whose free record is long enough, else none |
| HeapMalloc.ExactLinks | src/em_malloc.c:195-206 | after an exact fit the next links are right, and the back link of the segment after it names the released record |
| HeapMalloc.ExactStale | src/em_malloc.c:202-206 | that back link, if there is a segment after it, is the only one that becomes stale |
| HeapMalloc.ExactRelinked | src/em_malloc.c:202-206 | with the missing statement an exact fit makes no back link stale |
| HeapMalloc.SplitLinks | src/em_malloc.c:207-213 | the split makes no back link stale |
| HeapMalloc.TakeKeeps | src/em_malloc.c:195-215 | taking keeps list, pools, index table and tallies whatever links are stale, and does to the segments what Segments.Malloc does |
| HeapMalloc.TakeStale | src/em_malloc.c:195-215 | the allocations with a stale link afterwards: those before, and on an exact fit the one right above the new one |
| HeapMalloc.TakeReady | src/em_malloc.c:195-199 | the back link a request follows, that of a free segment, is never stale |
| HeapMalloc.TakeRelinked | src/em_malloc.c:195-215 | followed by the missing statement it does the same and makes no link stale |
| HeapMalloc.FreeRecOnWalk | src/em_malloc.c:183-185 | every record in the used prefix of mp_free is a free segment of the list |
| HeapMalloc.WalkOnFreeRec | src/em_malloc.c:183-185 | every free segment of the list is in that prefix, so the scan misses none |
| HeapFree.IsolatedSegs | src/em_malloc.c:319-329 | between used neighbours the records come to stand for the freed segment list |
| HeapFree.IntoNextSegs | src/em_malloc.c:330-336 | likewise when only the next neighbour is free |
| HeapFree.IntoBackSegs | src/em_malloc.c:340-345 | likewise when only the previous neighbour is free |
| HeapFree.IntoBothSegs | src/em_malloc.c:346-353 | likewise when both neighbours are free |
| HeapFree.ReleaseReady | src/em_malloc.c:312-323 | reading a right back link, free gets a record of mp_free whenever it needs one |
| HeapFree.ReleaseSafe | src/em_malloc.c:312-354 | whatever back link it reads, free follows links to records only |
| HeapFree.ReleaseKeeps | src/em_malloc.c:312-357 | reading a right back link, free keeps list shape, both pools, index table and tallies in all four merge cases |
| HeapFree.ReleaseStale | src/em_malloc.c:317-354 | it repairs the back link of the segment right above, and makes none stale |
| HeapFree.ReleaseLength | src/em_malloc.c:355-357 | the counter goes down by the length of the allocation, whatever link is read |
| HeapOwners.InvPartition | src/em_malloc.c:183-226 | in a well-formed manager every unit is with exactly one record of the two pools, so live allocations are disjoint |
| HeapOwners.StaleLoses | src/em_malloc.c:338-355 | a release through a stale link to a record that is not handed out, or to the next one, leaves its units with no record |
| HeapOwners.StaleOverlaps | src/em_malloc.c:338-355 | through a link to another free segment, that segment comes to have a unit of its neighbour or outside the arena |
| HeapOwners.ReleaseGivesUpIff | src/em_malloc.c:312-355 | a release gives up exactly the units of the allocation, and leaves every unit with exactly one record, if and only if the back link it reads is right |
| HeapOwners.ReleaseDisjointIff | src/em_malloc.c:312-355 | it leaves the units disjoint if and only if that link is right, or names the next record or one that is not handed out |
| HeapVerdicts.CreatedClean | src/em_malloc.c:89-97 | a new manager is well-formed, has no stale link, and is one free segment |
| HeapVerdicts.ScanComplete | src/em_malloc.c:183-186 | the scan finds a record exactly when some segment fits |
| HeapVerdicts.MallocReturns | src/em_malloc.c:183-230 | -2 exactly when no such run of unowned units exists, -1 exactly when one does but no record is left, else success; failures leave the records alone |
| HeapVerdicts.MallocAsWritten | src/em_malloc.c:153-231 | as written, every request keeps the list well-formed and hands out units of one free segment; exactly after an exact fit below another allocation one more link is stale, that allocation's |
| HeapVerdicts.MallocCleanIff | src/em_malloc.c:202-206 | while no link is stale, a request leaves it so if and only if it is outside the exact-fit family |
| HeapVerdicts.MallocRelinked | src/em_malloc.c:153-231 | with the missing statement a request does the same, with the same verdict, and makes no link stale |
| HeapVerdicts.MallocNames | src/em_malloc.c:195-215 | a success, stale or not, names a record that starts inside the arena |
| HeapVerdicts.FreeReturns | src/em_malloc.c:293-364 | free finds the right record from the index; the list stays well-formed, and every unit with exactly one record, if and only if the allocation is not stale; then exactly that allocation is given up |
| HeapVerdicts.FreeGivesUpIff | src/em_malloc.c:293-364 | exactly the units of the allocation are given up if and only if it is not stale |
| HeapVerdicts.FreeDisjointIff | src/em_malloc.c:293-364 | the units stay disjoint if and only if the allocation is not stale or its link names no free segment elsewhere |
| HeapRuns.StepGood | src/em_malloc.c:153-364 | one call keeps the list well-formed, and every unit with exactly one record, if and only if it releases no stale allocation |
| HeapRuns.RelinkedRunsSound | src/em_malloc.c:153-364 | with the missing statement every state of every run is well-formed and has every unit with exactly one record |
| HeapRuns.RelinkedRunsClean | src/em_malloc.c:153-364 | and no back link is stale in any of them |
| HeapRuns.CleanLinks | src/em_malloc.c:94-97 | no stale back link means that next and back are inverse to each other along the list |
| HeapRuns.RunsSoundIff | src/em_malloc.c:153-364 | a run is sound if and only if no release of it reads a stale link |
| HeapRuns.RunsPartedIff | src/em_malloc.c:153-364 | in exactly those runs every unit stays with exactly one record: allocations disjoint and no unit lost |
| HeapRuns.RunsApartIff | src/em_malloc.c:153-364 | allocations stay disjoint, up to the first stale read included, if and only if that read names no free segment elsewhere |
| HeapAges.MallocYounger | src/em_malloc.c:195-213 | a new allocation stands below an older one exactly on an exact fit that is not at the end of the arena |
| HeapAges.FreeYounger | src/em_malloc.c:317-354 | a release ends that relation for the allocation and for the one right above it, and for no other |
| HeapAges.AsWrittenPartedIff | src/em_malloc.c:153-364 | the code as written, from a new manager, keeps every unit with exactly one record if and only if no allocation is released while the one right below it was made later |
| HeapRuns.UsedSizeOverRuns | src/em_malloc.c:188-194 | after every run that releases no stale allocation, whatever links are stale, mem_used_bsize is the owned units plus the lengths of the requests that failed for want of a record |
| HeapRuns.UsedSizeExactIff | src/em_malloc.c:188-194 | in those runs it is exact if and only if no request failed for want of a record |
| HeapRuns.MallocConserves | src/em_malloc.c:188-194 | the same for one request |
| HeapRuns.DrainInAnyOrder | src/em_malloc.c:293-364 | while no link is stale, releasing every live allocation in any order is legal and leaves one free segment |
| HeapRuns.MallocThenFree | src/em_malloc.c:153-364 | on the records, as written or relinked and whatever links are stale, free of what malloc returned restores the segments |
| HeapBadRuns.HalfFullReached | src/em_malloc.c:153-364 | a concrete run from a new manager that ends with a free segment before a used one |
| HeapBadRuns.StaleFitLosesUnits | src/em_malloc.c:202-206 | continued from there, the code as written loses a unit: it has one free unit and a record left, and refuses a request for one unit |
| HeapBadRuns.StaleReadOverlaps | src/em_malloc.c:202-206 | a concrete legal run from a new manager after which a request is given a unit of a live allocation |
| HeapBadRuns.SizeDrifts | src/em_malloc.c:188-194 | a concrete run from a new manager that ends with mem_used_bsize one too large |
| Malloc.MemMng.constructor | src/em_malloc.c:46-99 | creation sets up sentinels, first segment and pools, and the result is well-formed |
| Malloc.MemMng.FindFree | src/em_malloc.c:183-186 | the loop finds what Scan finds |
| Malloc.MemMng.Carve | src/em_malloc.c:195-213 | the in-place record switch is TakeExact on an exact fit, else TakeSplit |
| Malloc.MemMng.MallocUnits | src/em_malloc.c:183-230 | the in-place request does what ExecMalloc does and keeps the object valid, whatever links are stale |
| Malloc.MemMng.Malloc | src/em_malloc.c:153-231 | 0 bytes are refused; else the verdict for the rounded-up count, and an address that free converts back to the same unit |
| Malloc.MemMng.ReleaseRecord | src/em_malloc.c:312-357 | the in-place merge and bookkeeping is the function Release |
| Malloc.MemMng.Free | src/em_malloc.c:293-357 | for the address of a live allocation, stale or not, it does what ExecFree does; the object stays valid if and only if it is not stale |
| TryMalloc.NotMissedStep | src/em_malloc.c:276-278 | no step leaves a thread behind that failed and is on its way into the wait set |
| TryMalloc.InvStep | src/em_malloc.c:247-364 | every step of every thread keeps mutex ownership, arena, allocations, wake-ups, clock readings and the record of calls in order; the arena is the segment list, see TryRefines.RunsRefine |
| TryMalloc.NoMissedFree | src/em_malloc.c:256-289 | in every state of every run over the segments, a waiting thread saw no broadcast complete since its failed attempt, and would fail again unless a broadcast is pending |
| TryMalloc.NoSharedAllocation | src/em_malloc.c:247-364 | in every run over the segments no two threads obtain, hold or free the same allocation, and what they hold is live |
| TryMalloc.ArenaAsAsked | src/em_malloc.c:247-364 | the allocations of the arena are those obtained and not given up since, with the lengths asked for, and each is with some caller or thread |
| TryMalloc.TryReturns | src/em_malloc.c:247-291 | a call returns the allocation it obtained, of exactly the units it asked for, or failure, and then it obtained none; it fails after one attempt if it may not wait, else exactly at the first clock reading that is not below its timeout |
| TryMalloc.AfterWaking | src/em_malloc.c:281-288 | a call that was woken tries again if and only if the time passed is below its timeout, and otherwise returns failure |
| TryMalloc.FreeReturns | src/em_malloc.c:307-363 | a free that returns has given up the allocation it was given |
| TryMalloc.SecondAttemptNeedsTimeout | src/em_malloc.c:281-288 | in every run only a positive timeout leads to a second attempt |
| TryTimeouts.SecondAttemptIffTimeout | src/em_malloc.c:281-288 | some run waits a second time under a timeout if and only if the timeout is positive |
| TryTimeouts.FailureIffMayWait | src/em_malloc.c:266-288 | some run returns failure after one wait under a timeout if and only if the call may wait at all |
| TryTimeouts.NoTimeoutFailsWithRoom | src/em_malloc.c:273-288 | a concrete run where a call with EM_NO_TIMEOUT is woken by a release, would succeed, and returns failure |
| TryRefines.RequestIsTryOnce | src/em_malloc.c:258-264 | _em_malloc on the records of a well-formed manager, as written or relinked, is the step of the protocol |
| TryRefines.ReleaseIsDoFree | src/em_malloc.c:307-357 | em_free is the step of the protocol if and only if the allocation is not stale |
| TryRefines.ReleaseStepIff | src/em_malloc.c:307-357 | a release that a thread is about to do keeps the list well-formed, always with the missing statement, and as written if and only if the allocation does not stand right above one made later |
| TryRefines.StepRefines | src/em_malloc.c:247-364 | each step of the threads over the records is the same step over the segments |
| TryRefines.RunsRefine | src/em_malloc.c:247-364 | every run over the records, relinked, or as written and releasing no allocation right above one made later, is a run over the segments, with a well-formed list throughout |
| TryMalloc.NoDeadlock | src/em_malloc.c:258-363 | while any call is in progress outside the wait set, some thread can step: the two mutexes never deadlock |
| Mempool.AllocRefinesSet | src/em_mempool.c:152-163 | allocation returns a block that was not live and adds exactly it |
| Mempool.FreeRefinesSet | src/em_mempool.c:204-230 | release by swapping removes exactly the named block; an id that is not live changes nothing |
| Mempool.AllocFreeInverse | src/em_mempool.c:152-230 | release undoes allocation, and a released block is handed out next |
| Mempool.LiveCount | src/em_mempool.c:154-160 | num_used is the number of live blocks |
| Mempool.Pool.constructor | src/em_mempool.c:30-58 | the initial tables are the identity and every block has its address |
| Mempool.Pool.AllocBlockmng | src/em_mempool.c:152-163 | the next block of the permutation, or -1 when all are used |
| Mempool.Pool.AllocBlock | src/em_mempool.c:165-184 | without contention the semaphore refuses exactly when no block is left |
| Mempool.Pool.GetDataidx | src/em_mempool.c:186-191 | the block that the byte at an address belongs to, in range exactly inside the memory of the pool |
| Mempool.Pool.BlocksApart | src/em_mempool.c:48-55 | no byte belongs to two blocks |
| Mempool.Pool.BlockInside | src/em_mempool.c:48-55 | every block lies inside the block_size * num_max bytes of the pool |
| Mempool.Pool.BlocksFill | src/em_mempool.c:48-55 | every one of those bytes belongs to a block |
| Mempool.Pool.AddrInverts | src/em_mempool.c:186-202 | that conversion, from any byte of a block, inverts the one from ids to addresses |
| Mempool.Pool.GetDataptr | src/em_mempool.c:193-202 | an address exactly for live ids |
| Mempool.Pool.SwapBlocks | src/em_mempool.c:220-225 | the six assignments of a release, as one change of the three tables |
| Mempool.Pool.FreeByDataidx | src/em_mempool.c:204-230 | the in-place swap keeps the tables a permutation and its inverse; ids that are not live are rejected |
| Mempool.Pool.FreeBlock | src/em_mempool.c:232-239 | release by any of the block_size bytes of a block |
| Mempool.Pool.GetDataptrArray | src/em_mempool.c:241-254 | copies the addresses of the first live blocks and nothing else |
| PoolProtocol.InvStep | src/em_mempool.c:165-230 | every step keeps tables, permits, the mutex and the record of calls in order, whatever ids callers release |
| PoolProtocol.InvOwnedStep | src/em_mempool.c:165-230 | the steps of callers that release what they have keep ownership in order as well |
| PoolProtocol.BlocksConserved | src/em_mempool.c:165-230 | semaphore, threads past the wait, threads not yet posted and num_used add up to num_max |
| PoolProtocol.NeverFailsPastWait | src/em_mempool.c:168-180 | an allocation past the semaphore never fails |
| PoolProtocol.BlocksOwned | src/em_mempool.c:165-230 | among callers that release what they have, or ids out of range, no two threads have the same block, what a thread has is live, and no live block is lost |
| PoolProtocol.AllocReturns | src/em_mempool.c:165-184 | an allocation returns the block it took, or an error if and only if it got no permit, and then it took none |
| PoolProtocol.FreeReturns | src/em_mempool.c:204-230 | a release returns 0 if and only if it gave back the block it names, else -1, and then it gave back none |
| PoolProtocol.LiveIffOut | src/em_mempool.c:152-230 | the live blocks are those that some call took and none gave back since |
| PoolProtocol.ReleaseOutcome | src/em_mempool.c:208-213 | whatever id is released, also twice or by another thread, it is rejected exactly if it is not live at that moment, and otherwise exactly that block goes back |
| PoolProtocol.RejectedIffOutOfRange | src/em_mempool.c:208-213 | among those callers releasing a block one has is never rejected, an id out of range always is |
| PoolProtocol.NoDeadlock | src/em_mempool.c:165-230 | while a call is past the semaphore, or waits for it although a block is left, some thread can step without timing out |
| Queue.PutAppends | src/em_queue.c:90-112 | insertion succeeds exactly below capacity and appends to the window |
| Queue.TakeRemovesOldest | src/em_queue.c:154-177 | removal succeeds exactly above zero and takes the oldest block |
| Queue.HeadIsTailPlusUsed | src/em_queue.c:99-112 | head is (tail + num_used) mod num_max through every wrap |
| Queue.EmQueue.Enqueue | src/em_queue.c:114-151 | without waiting: refused exactly when full, else appended |
| Queue.EmQueue.Dequeue | src/em_queue.c:179-217 | without waiting: EM_ERR_TIMEOUT exactly when empty, else the oldest block |
| QueueProtocol.InvStep | src/em_queue.c:114-217 | every step of every thread keeps permits, mutex, order and the record of calls |
| QueueProtocol.SlotsConserved | src/em_queue.c:114-217 | both conservation laws of permits, threads in between and num_used |
| QueueProtocol.NeverFatal | src/em_queue.c:130-137 | the branches for a full or empty queue inside the critical section are never taken |
| QueueProtocol.ConcurrentFifo | src/em_queue.c:139-141 | blocks are removed in the order they were inserted, and what is left is the circular window |
| QueueProtocol.EnqueueReturns | src/em_queue.c:114-151 | a call returns 0 if and only if it inserted exactly the block it was given, else -1, and then it inserted nothing |
| QueueProtocol.DequeueReturns | src/em_queue.c:179-217 | a call returns 0 and the very block it removed, EM_ERR_TIMEOUT if and only if it got no permit, else EM_ERR_OTHER, and then it removed nothing |
| QueueProtocol.DeedsAsAsked | src/em_queue.c:139-141 | each insertion or removal is the only one of its call, and what that call asked for |
| QueueProtocol.NoPermitLost | src/em_queue.c:123-148 | when all calls have returned the semaphores count free slots and queued blocks |
| QueueProtocol.NoDeadlock | src/em_queue.c:114-217 | while a call is past its semaphore, or a producer waits below capacity or a consumer above zero, some thread can step without timing out |
| QueueProtocol.BothWaitSomeoneSteps | src/em_queue.c:114-217 | a producer and a consumer never wait for each other |
| KeyStore.KeyEqualIff | src/em_gdatamng.c:32-38 | string keys are equal if and only if they agree up to key_size or a common NUL, other keys if and only if every byte agrees |
| KeyStore.KeyEqualIsNorm | src/em_gdatamng.c:32-38 | which is when they have the same normal form, under which the store keeps them |
| KeyStore.AddThenGet | src/em_gdatamng.c:142-259 | in a new store with one entry, lookups succeed for exactly the keys that are equal in that sense, with the data and count 1 |
| KeyStore.MapUnique | src/em_gdatamng.c:108-140 | the tables stand for one map only |
| KeyStore.InsertAddsEntry | src/em_gdatamng.c:150-162 | a block newly taken adds exactly one entry with count 1 |
| KeyStore.OverwriteUpdatesEntry | src/em_gdatamng.c:170-180 | changing a live block changes exactly its entry |
| KeyStore.ReleaseDropsEntry | src/em_gdatamng.c:268-272 | releasing a block drops exactly its entry, despite the swap in the pool |
| KeyStore.DataMng.constructor | src/em_gdatamng.c:40-61 | a new store is empty |
| KeyStore.DataMng.Find | src/em_gdatamng.c:108-140 | the scan finds the live block of a key, and fails exactly for absent keys |
| KeyStore.DataMng.AddData | src/em_gdatamng.c:142-189 | the new map and return value in every duplicate mode, including full and unknown mode; the order of blocks stays the identity |
| KeyStore.DataMng.GetData | src/em_gdatamng.c:231-245 | the data of the key, or an error exactly when it is absent |
| KeyStore.DataMng.GetDataCnt | src/em_gdatamng.c:247-259 | the count of the key, or -1 |
| KeyStore.DataMng.RemoveData | src/em_gdatamng.c:261-277 | one count less, and the key goes exactly at zero; the order of blocks stays the identity exactly if no block was released or the last one |
| KeyStore.FirstMatch | src/em_gdatamng.c:285-312 | the first position whose data satisfies the comparator, with none before it |
| KeyStore.ByFuncFindsLiveKey | src/em_gdatamng.c:300-332 | the lookup by block id finds a live key with matching data exactly when there is one |
| KeyStore.GetKeyRightIff | src/em_gdatamng.c:279-297 | as written, a search is answered with a key of the store that has the searched data if and only if the slot numbered by the first position of that data holds the key of a live block with that data |
| KeyStore.GetKeyAlwaysRightIff | src/em_gdatamng.c:279-297 | every search is if and only if that is so of every first occurrence |
| KeyStore.LiveSlotAnswersIff | src/em_gdatamng.c:290 | for a slot that is live it is so exactly if the slot has the same data |
| KeyStore.GetKeyAlwaysRightBySlots | src/em_gdatamng.c:279-297 | so every search is answered rightly if and only if each first occurrence has at its position a live slot with the same data, or one that is not live and still holds the key of a live block with it |
| KeyStore.GetKeyRightForDifferent | src/em_gdatamng.c:279-297 | for pairwise different data: if and only if every block stands at its own position, or the slot of that number is not live and still holds the block's key |
| KeyStore.GetKeyReturnsRemovedKey | src/em_gdatamng.c:290 | a concrete store where it returns a removed key |
| KeyStore.AfterRemovalReached | src/em_gdatamng.c:142-277 | that store is what two additions and a removal leave of a new one |
| KeyStore.DataMng.GetKeyByFunc | src/em_gdatamng.c:317-332 | the in-place scan returns such a live key |
| KeyStore.DataMng.GetKey | src/em_gdatamng.c:279-297 | as written: found exactly when the data occurs, the key right exactly under that condition, and always while nothing was removed |
| LinkedList.AppendChain | src/em_list.c:60-72 | adding appends a node, with first, last, next and back in agreement |
| LinkedList.UnlinkChain | src/em_list.c:92-108 | relinking takes out exactly the node at the given place |
| LinkedList.UnlinkValues | src/em_list.c:92-108 | the other nodes keep their data |
| LinkedList.EmList.Add | src/em_list.c:51-76 | fails exactly at capacity, else appends; no node leaks |
| LinkedList.EmList.Walk | src/em_list.c:80-90 | the walk from the first node reaches the node at the index |
| LinkedList.EmList.RemoveAt | src/em_list.c:78-113 | out of range is refused, else exactly that place is removed and its block returned |
| RingBuf.DeleteTailDropsOldest | src/em_ringbuf.c:141-154 | accepted exactly for 1 to num_used blocks; drops that many of the oldest |
| RingBuf.PushWindow | src/em_ringbuf.c:71-108 | a push appends below capacity; at capacity each mode's effect, invalid modes included |
| RingBuf.RunIsKept | src/em_ringbuf.c:71-153 | in update mode every run of pushes and deletions is that of a plain bounded list |
| RingBuf.HoldsMostRecent | src/em_ringbuf.c:71-153 | the buffer read from the tail is exactly the last n pushes, where n counts pushes up to num_max and deletions down |
| RingBuf.PlacesHold | src/em_ringbuf.c:111-138 | the slots called oldest and newest hold those blocks of the window |
| RingBuf.HeadReadIff | src/em_ringbuf.c:111-123 | the head read is right exactly without a wrap below 0 or when the capacity divides 2^32, and finds nothing past the end except at one offset |
| RingBuf.TailReadIff | src/em_ringbuf.c:126-138 | the tail read is right for every offset but 2^32 - 1 |
| RingBuf.HeadMeetsTail | src/em_ringbuf.c:111-138 | for capacities dividing 2^32, head offset k and tail offset num_used-1-k are the same block |
| RingBuf.HeadReadWrongForThree | src/em_ringbuf.c:116-120 | a full ring of three where the head read returns the wrong block |
| RingBuf.ThreePushesReached | src/em_ringbuf.c:94-120 | three pushes into a new ring of three lead there |
| RingBuf.EmRing.DeleteTaildata | src/em_ringbuf.c:141-154 | the object does what DeleteTail does |
| RingBuf.EmRing.GetDataptrNew | src/em_ringbuf.c:71-91 | the object returns the head slot, after dropping the oldest block in update mode |
| RingBuf.EmRing.AddNewdata | src/em_ringbuf.c:94-108 | the object does what AddNew does |
| RingBuf.EmRing.GetDataptrHead | src/em_ringbuf.c:111-123 | the object computes the 32-bit index of HeadIndex |
| RingBuf.EmRing.GetDataptrTail | src/em_ringbuf.c:126-138 | the object computes the 32-bit index of TailIndex |
| EventFlag.UpIffStands | src/em_eventflag.c:229-254 | a bit is up exactly when a set raised it and no later clear or reset took it down |
| EventFlag.InvStep | src/em_eventflag.c:171-254 | every step of every thread keeps mutex ownership, the flags' history, the wait set and the record of calls in order |
| EventFlag.NoMissedSet | src/em_eventflag.c:182-237 | whenever the mutex is free, no waiting thread has an awaited bit up |
| EventFlag.SuccessSawASet | src/em_eventflag.c:182-226 | during a wait that returns success, between its call and its return, an awaited bit was up that a set had raised and nothing had taken down |
| EventFlag.WaitReturns | src/em_eventflag.c:182-226 | a wait returns success if and only if a test of this call found an awaited bit up, whether or not it resets, else what its last wait ended with; it resets exactly if it succeeds and was asked to |
| EventFlag.PassSawFlag | src/em_eventflag.c:190 | a test that succeeded came after its call began and found an awaited bit up |
| EventFlag.SetAndClearReturn | src/em_eventflag.c:229-254 | a set that returns has raised exactly the flags it was given, and a clear that returns has cleared |
| EventFlag.FlagsAsAsked | src/em_eventflag.c:217-254 | the flags are what the events make of them, and each event is the only one of its call and what that asked for |
| EventFlag.NoDeadlock | src/em_eventflag.c:171-254 | while a call is in progress outside the wait set, some such call can step |
| EventFlag.OneSetTwoSuccesses | src/em_eventflag.c:217-224 | a concrete run in which one set satisfies two waits that both reset the flag |
| EventOnce.OnceStep | src/em_eventflag.c:182-224 | one step makes a set satisfy two resetting waits exactly if a resetting wait finds the flag up that another thread holds up |
| EventOnce.OnceIff | src/em_eventflag.c:182-224 | over every run, no set satisfies two resetting waits on a flag if and only if no resetting wait finds it up that another thread has seen up, has yet to reset, and that nothing took down since |
| EventOnce.OneResetterOnce | src/em_eventflag.c:182-224 | with at most one resetting wait per flag at a time, resetting successes are owed to different sets |
| EventOnce.BothTestedSharingNothing | src/em_eventflag.c:182-254 | a concrete run in which two resetting waits have seen the flag up, neither has reset it, and no set satisfies both, because it was cleared and raised in between |

## Left out

- Integer width outside the ring reads: sizes, counts and addresses are assumed
  to fit their C types, and capacities to be at least 1 and, for the ring, below 2^31.
- Addresses as bytes: a record is named by its place in one table (the records
  of `mp_used`, then those of `mp_free`, then the sentinels), a list node by its
  block id, and the pointer tables of queue and ring, which never change after
  creation, by the slot index.
- PoolProtocol.BlocksOwned: a caller that releases a block of another thread takes it
  away from it, so ownership is stated for callers that do not.
- Invalid arguments that the C code does not check: `em_free` of an address
  that is not a live allocation, an address outside the pool, a key shorter
  than `key_size`, a unit size below 1.
- Create and destroy: failing allocations, release of resources, memory layout.
- Time: a timed wait may time out at any step; the clock and the timespec
  arithmetic are not modelled.
- Progress: beyond the absence of deadlocks nothing is claimed about fairness or
  eventual success.
- The concurrent modules work on values, so update in place and aliasing are
  captured by the classes for single calls only.
- HeapRuns.UsedSizeOverRuns: says nothing of runs that go on after the release of a
  stale allocation.
- HeapRuns.UsedSizeExactIff: the same.
- The code as written after its first release of a stale allocation: the list is
  broken then, and only the concrete runs of `HeapBadRuns` say what follows.
- TryMalloc.NoMissedFree: over the segments; over the records by `TryRefines.RunsRefine`.
- TryMalloc.NoSharedAllocation: over the segments; over the records by `TryRefines.RunsRefine`.
- TryMalloc.InvStep: over the segments; over the records by `TryRefines.StepRefines`.
- The flag word of `EventFlag` is the set of its raised bits.
- Queue.EmQueue.Enqueue: calls that wait are in `QueueProtocol`.
- Queue.EmQueue.Dequeue: calls that wait are in `QueueProtocol`.
- Mempool.Pool.AllocBlock: calls that wait are in `PoolProtocol`.
- Malloc.MemMng.Free: the broadcast and the mutexes are in `TryMalloc`.
- The mutex of the keyed store, under which each of its calls runs as a whole.
- `em_gdatamng_get_data_by_func`, `em_gdatamng_get_keyval_by_idx`,
  `em_queue_getnum`, `em_mpool_get_dataidx_array` and the print functions: easy
  beside the functions modelled.
- The plain event and event manager part of `src/em_eventflag.c`.
- Other source files: task, timer, system, command and network wrappers, the
  bump allocator, the bounded buffer, GeoJSON output, and the forwarding wrappers
  over pool and store.
