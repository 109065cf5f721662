# Verified models of the BedrockStack kernel

The project models the parts of the BedrockStack kernel where memory, time and authority are shared
and proves what they promise. Each module stands for one component:

- `Slpt`: the second-level page tables of the VT-d IOMMU, as tables of words in a memory.
- `IovaWindows`, `IovaDomain`, `VtdDomain`: the allocator of I/O virtual addresses, the mappings it
  hands out as a state machine, and the domain object that runs both on the page table.
- `Invalidation`: the invalidation queue between the driver and several remapping units with caches.
- `DmaRemap`: the cache of physical to I/O addresses that drivers' threads share.
- `CopyOnWrite`, `ForkSteps`, `ForkRuns`: the reference counts of shared frames, the write-fault
  resolver and teardown; fork and its failure; whole runs and the refinement of eager copying.
- `InputQueue`: the lock-free event queue of many producers and one consumer.
- `FeedRing`: the playback ring between `submit_playback`, the completion interrupt and the DMA engine.
- `CapPaths`, `CapPage`: the two forms of the capability check, and the packed capability window.
- `CodecSearch`: the search for an audio path through a codec's widgets.
- `Framebuffer`: drawing into a shadow buffer, the dirty rectangle and flushing.

Protocols are transition systems in which each atomic operation is a step and any number of threads
interleave; their theorems are about every run. Code that works in place is a class or a method on
arrays, proved against functions and predicates on values. The integers of the source are natural
numbers here, with the limits of a 64-bit word written out where the code tests for them; masks and
shifts are division and remainder. `Common` holds the page size, an option type, minimum and maximum.

## What the proofs found

Where the code does not do what it promises, the model follows the code. The property is then proved
with its exact condition, and a lemma gives an input that fails it.

- A mapping that fails after its window came from the bump cursor is put on the free list although
  the cursor is also moved back over it, so the same window can be handed out twice. Free, live and
  unallocated space stay disjoint exactly when the failed window did not come from the cursor, or the
  list was full and dropped it (`IovaDomain.FailedMapTight`, `IovaDomain.FailedMapHandsOutTwice`).
  What the page table maps stays exact on every run all the same (`IovaDomain.RunKeepsInv`).
- A mapping that fails half-way removes its pages without an invalidation, so a unit that cached one
  of them keeps it. In every idle state the caches of the units whose last round completed are sure to
  agree with the table exactly when each translation removed since that round is back: otherwise the
  same steps of the driver can leave any unit with a stale entry (`Invalidation.CachesCoherent`,
  `Invalidation.StaleIsPossible`, `Invalidation.RollbackLeavesStale`).
- A submission to the invalidation queue does not test whether the ring is full. The ring holds what was
  submitted and not taken, in order, exactly as long as no submission overwrites another descriptor that
  was not taken (`Invalidation.RunKeepsRing`); after 255 rounds in which a unit took nothing one does
  (`Invalidation.RingOverruns`). The caches do not depend on it (`Invalidation.RoundRestores`).
- `virt_to_phys` takes a page for an identity page when its own address translates to itself. A window
  that happens to have the address of its frame passes that test too. Until a buffer that holds the page
  is unmapped, an answer of the test keeps translating exactly when no thread that lost a race gives back
  the window at that address (`DmaRemap.IdentityAnswerKeeps`); a run from the initial state gives one back
  (`DmaRemap.CollisionReclaimed`). Answers from the cache and for true identity pages keep translating
  (`DmaRemap.AnswerKeepsTranslating`, `DmaRemap.IdentityKeepsTranslating`).
- A fork that fails drops the child's references twice: the clone releases them one by one, and the
  teardown of the child's root finds the same entries and drops them again, so a frame the parent maps
  is freed. A fork that shared at least one page before it failed never returns without such a step
  (`ForkSteps.DropDanglingBreaks`, `ForkRuns.FailedForkReturns`,
  `ForkRuns.FailedForkFreesMappedFrame`).
- The rollback of a failed fork makes every page of the parent's writable regions writable. That is
  right exactly when none of them is still shared with an earlier child
  (`ForkSteps.RollbackKeepsInv`, `ForkRuns.FailedForkBreaksIsolation`).
- The range a fork leaves out is documented as the only thing left out. The walk also leaves out every
  page whose 2 MiB block begins at or above the end of the range (`ForkRuns.ClonedExactly`,
  `ForkRuns.CloneDropsPages`).
- `push` can report a full queue when the queue is empty. It refuses exactly when the queue is full or
  its reading of the head was overtaken by the tail (`InputQueue.RefusedWhenFull`,
  `InputQueue.RefusedWhenEmpty`).
- `submit_playback` computes its source address in whole samples, so a chunk that starts at an odd byte
  stages each byte one place late. Every byte of a call gets one place of its own, in order, on every
  run; the places hold the right bytes exactly when every byte copied from such a chunk equals the byte
  before it (`FeedRing.SubmittedWhole`, `FeedRing.RunRight`). Even position readings are enough
  (`FeedRing.EvenReadingsRight`); a run from the initial state stages a byte twice
  (`FeedRing.SampleCut`).
- The reconcile of the completion interrupt is called race-free with the producer. It can run on another
  processor during the producer's copy and take the completion cursor past the byte being copied. Every
  cell stays right exactly as long as no byte but silence is copied behind that cursor
  (`FeedRing.StepKeepsInv`, `FeedRing.RunKeepsInv`). Such a byte stands for a later offset and is played
  there, one turn of the ring late (`FeedRing.LateByteStands`, `FeedRing.PlaysOneTurnLate`).
- `check_path_on` is documented as identical to `check_path`. It accepts a method capability as an
  ancestor, so the two agree on all questions exactly when, for each capability that is not about a
  method, both ancestor tests agree (`CapPaths.SemanticsIdentical`, `CapPaths.SemanticsDiffer`).

## Model

| member | source | states |
|---|---|---|
| `Slpt.PteRoundTrip` | kernel/src/iommu/slpt.rs:60-68 | packing a frame and flags into an entry loses neither the frame nor the read, write, large and snoop bits |
| `Slpt.TranslationIsLookup` | kernel/src/iommu/slpt.rs:273-307 | the walk over the words in memory computes exactly the finite map of pages the tree stands for, for every address and width |
| `Slpt.MappedAllows` | kernel/src/iommu/slpt.rs:165-203 | every entry on the walk of a mapped address, table pointers and leaf, allows reads and writes |
| `Slpt.LinkTable` | kernel/src/iommu/slpt.rs:159-184 | hanging a fresh zeroed table in an absent entry keeps the tree well formed and maps nothing new |
| `Slpt.SetLeaf` | kernel/src/iommu/slpt.rs:186-203 | writing one leaf word changes the mapping of that page and of no other |
| `Slpt.NeededIsCount` | kernel/src/iommu/slpt.rs:218-234 | the frames a run of pages needs are the distinct tables on its ways that are not there yet, each counted once however many pages share it |
| `Slpt.NeededBound` | kernel/src/iommu/slpt.rs:147-184 | and these are at most three a page |
| `Slpt.ShrinkUndoesExtend` | kernel/src/iommu/slpt.rs:207-235 | removing a mapped range restores the finite map there was before it was added |
| `Slpt.PageTable.constructor` | kernel/src/iommu/slpt.rs:123-133 | a zeroed root maps nothing |
| `Slpt.PageTable.Translate` | kernel/src/iommu/slpt.rs:273-307 | answers the mapped frame plus the offset in the page, or nothing, as the finite map says |
| `Slpt.PageTable.Descend` | kernel/src/iommu/slpt.rs:153-184 | one level of the walk: follows or hangs a table, and fails only when a frame is needed and none is left |
| `Slpt.PageTable.LeafTable` | kernel/src/iommu/slpt.rs:147-184 | reaches the leaf table with exactly as many new tables as were missing, and fails exactly when there are too few frames |
| `Slpt.PageTable.Map4k` | kernel/src/iommu/slpt.rs:136-204 | maps the one page, with a leaf that allows reads and writes and snoops exactly when asked to, or reports which of the errors applies, leaving the mapping unchanged on every error |
| `Slpt.PageTable.FindLeafTable` | kernel/src/iommu/slpt.rs:248-259 | a walk that ends early means the page is not mapped |
| `Slpt.PageTable.Unmap4k` | kernel/src/iommu/slpt.rs:238-270 | removes exactly that page, answers whether it was mapped, and frees or moves no table |
| `Slpt.PageTable.MapPages` | kernel/src/iommu/slpt.rs:218-234 | succeeds exactly when each page can be mapped in its turn and there are frames for the tables missing along the run, of which it uses exactly those; otherwise the mapping is as before, and a shortage is reported when nothing else is wrong |
| `Slpt.PageTable.MapRange` | kernel/src/iommu/slpt.rs:207-235 | the same with the argument checks: success exactly when the arguments pass, the pages can be mapped and the tables can be had; no failure changes any translation |
| `Slpt.RangeArgsExactly` | kernel/src/iommu/slpt.rs:207-235 | the argument checks pass exactly the runs of whole pages all of whose bytes have an address of the width |
| `Slpt.PageTable.Rollback` | kernel/src/iommu/slpt.rs:224-231 | takes back the pages mapped so far and leaves the others as they were |
| `IovaWindows.PushCovers` | kernel/src/iommu/vt_d.rs:626-666 | after a push the list covers exactly the addresses it covered and the pushed ones, unless a full list drops the merged window |
| `IovaWindows.PushSeparate` | kernel/src/iommu/vt_d.rs:626-666 | a push of a window apart from the list keeps the windows pairwise disjoint and not adjacent |
| `IovaWindows.TakeCovers` | kernel/src/iommu/vt_d.rs:670-709 | a take gives up only addresses it hands out and, on a list of disjoint windows, afterwards covers exactly the others |
| `IovaWindows.TakeSeparate` | kernel/src/iommu/vt_d.rs:670-709 | a take keeps the windows disjoint and not adjacent |
| `IovaWindows.AbsorbCovers` | kernel/src/iommu/vt_d.rs:632-652 | merging with every touching window, however the merged window grows, loses and invents no address |
| `IovaWindows.AbsorbStops` | kernel/src/iommu/vt_d.rs:632-652 | the merging ends when nothing in the list touches the merged window |
| `IovaWindows.FreeIovaWindows.Push` | kernel/src/iommu/vt_d.rs:626-666 | the array holds the list of the value-level push |
| `IovaWindows.FreeIovaWindows.Coalesce` | kernel/src/iommu/vt_d.rs:632-652 | the in-place merging loop computes the value-level merge |
| `IovaWindows.FreeIovaWindows.Choose` | kernel/src/iommu/vt_d.rs:673-686 | picks a smallest window that fits below the limit, or none when none fits |
| `IovaWindows.FreeIovaWindows.Take` | kernel/src/iommu/vt_d.rs:670-709 | hands out the base of the chosen window and leaves the list of the value-level take |
| `IovaDomain.HandedWindow` | kernel/src/iommu/vt_d.rs:773-822 | a window handed out is page-aligned, below the limit and clear of every reserved range |
| `IovaDomain.OverlapsExactly` | kernel/src/iommu/vt_d.rs:797-816 | the overlap test is exact: a reserved range and a window overlap if and only if they share an address |
| `IovaDomain.HandedTight` | kernel/src/iommu/vt_d.rs:773-822 | on a tight domain it overlaps no live window and nothing that is free or still to come |
| `IovaDomain.HandedUnmapped` | kernel/src/iommu/vt_d.rs:1353-1410 | on a tight domain none of its pages is mapped yet |
| `IovaDomain.MapKeepsInv` | kernel/src/iommu/vt_d.rs:1353-1410 | after a mapping the table maps exactly the live windows and the identity pages, each where it belongs |
| `IovaDomain.ReleaseKeepsInv` | kernel/src/iommu/vt_d.rs:1458-1484 | the same after a release |
| `IovaDomain.ReleaseKeepsTight` | kernel/src/iommu/vt_d.rs:1458-1484 | a release keeps free, live and unallocated space disjoint |
| `IovaDomain.FailedMapTight` | kernel/src/iommu/vt_d.rs:1390-1400 | a failed mapping keeps them disjoint if and only if the window did not come from the cursor or the full list dropped it |
| `IovaDomain.FailedMapHandsOutTwice` | kernel/src/iommu/vt_d.rs:1390-1400 | a chain of steps from a new domain, a failed mapping and a mapping, after which the allocator hands out the live window again |
| `IovaDomain.NextKeepsTight` | kernel/src/iommu/vt_d.rs:745-823 | a step keeps the domain tight if and only if it is not such a failure |
| `IovaDomain.RunKeepsInv` | kernel/src/iommu/vt_d.rs:1353-1484 | on every run of mappings, refusals, failures and releases the table is exact |
| `IovaDomain.CleanRunKeepsTight` | kernel/src/iommu/vt_d.rs:745-823 | on every run without such a failure the domain stays tight |
| `IovaDomain.RunKeepsIdentity` | kernel/src/iommu/vt_d.rs:964-1095 | on every run identity pages translate to themselves |
| `VtdDomain.SkipRange` | kernel/src/iommu/vt_d.rs:797-816 | jumping past an overlapping reserved range skips no start that would have fitted |
| `VtdDomain.LimitIsLeast` | kernel/src/iommu/vt_d.rs:724-734 | the address limit is two to the least of the three widths |
| `VtdDomain.Domain.constructor` | kernel/src/iommu/vt_d.rs:723-743 | a new domain is tight, below the limit its widths allow, and snoops where it was asked to |
| `VtdDomain.Domain.Bump` | kernel/src/iommu/vt_d.rs:787-822 | finds the lowest page-aligned start that misses every reserved range, and with fewer than 64 ranges fails only if there is none below the limit |
| `VtdDomain.Domain.AllocIova` | kernel/src/iommu/vt_d.rs:745-822 | the free list first, then the cursor: the answer is a window the state machine may hand out |
| `VtdDomain.Domain.MapWindow` | kernel/src/iommu/vt_d.rs:1379-1402 | maps every page of the window or takes the failure path; it maps exactly when each page can be mapped and the frames last |
| `VtdDomain.WindowStep` | kernel/src/iommu/vt_d.rs:1379-1402 | the mapping or the failure path is one step of the state machine, and what a failure was for want of |
| `VtdDomain.RoundUpLeast` | kernel/src/iommu/vt_d.rs:1379-1380 | the size of a window is the least whole number of pages that is no smaller |
| `VtdDomain.MapsBuffer` | kernel/src/iommu/vt_d.rs:1363-1402 | mapping the pages a buffer spans lets every byte of it be reached at its own distance from the address answered, and maps no page without a byte of it |
| `VtdDomain.Domain.MapPhysToIova` | kernel/src/iommu/vt_d.rs:1353-1410 | every call is one step of the state machine; each byte of the buffer is reached at its own distance from the address answered, and no page without a byte of it is mapped; with arguments in range and fewer than 64 reserved ranges it refuses only when neither the free list nor the space past the cursor has a window; a tight domain that has one fails exactly when frames for tables or address bits are wanting |
| `VtdDomain.Domain.UnmapIova` | kernel/src/iommu/vt_d.rs:1458-1484 | releasing a live window is the release step of the state machine |
| `VtdDomain.Domain.TranslateIova` | kernel/src/iommu/vt_d.rs:1412-1417 | an address inside a live window translates to its backing, an identity address to itself, anything else to nothing |
| `VtdDomain.Domain.MapFirmware` | kernel/src/iommu/vt_d.rs:985-1026 | succeeds exactly when no two accepted firmware ranges share a page and the frames last for their tables, and then each is mapped to itself |
| `VtdDomain.Domain.MapFramebuffer` | kernel/src/iommu/vt_d.rs:1042-1084 | succeeds exactly when the frames last for the tables still missing, and then the framebuffer is mapped to itself on top of the firmware ranges, overlapping or not; the mismatch branch is never reached |
| `VtdDomain.Domain.Init` | kernel/src/iommu/vt_d.rs:964-1095 | start-up succeeds exactly when no two firmware ranges share a page, the framebuffer is in range and the frames last for all tables; then exactly the accepted ranges and the framebuffer are mapped, each page to itself, and the domain is tight |
| `VtdDomain.StartTablesIsCount` | kernel/src/iommu/vt_d.rs:985-1084 | the frames start-up needs are the distinct tables on the ways to the accepted ranges that are not there yet |
| `VtdDomain.StartTranslates` | kernel/src/iommu/vt_d.rs:985-1084 | after start-up an address translates, and then to itself, exactly when it lies on a page of a firmware range or the framebuffer that is below the limit |
| `Invalidation.ConsumesInOrder` | kernel/src/iommu/qi.rs:240-291 | the hardware takes descriptors in the order they were submitted, across the wrap of the ring |
| `Invalidation.EnqueueKeepsRing` | kernel/src/iommu/qi.rs:240-291 | a submission keeps the ring right if and only if it overwrites no other descriptor that was not taken |
| `Invalidation.DrainedMeansEmpty` | kernel/src/iommu/qi.rs:266-287 | with fewer than 256 descriptors outstanding the head equals the tail exactly when every descriptor has been processed |
| `Invalidation.StatusMeansTaken` | kernel/src/iommu/qi.rs:327-358 | on every run on which its ring was never full, the status word of a unit is seen only after it took the wait of this round |
| `Invalidation.NoPageNoWait` | kernel/src/iommu/qi.rs:327-331 | on every run a unit without a status page is sent no wait, and its status word is never awaited |
| `Invalidation.FailsExactly` | kernel/src/iommu/qi.rs:336-358 | a unit fails a round exactly by an unanswered flush, fence or register, or an unwritten status word; a wait that is not taken leaves it the fence |
| `Invalidation.SubmitKeepsUnit` | kernel/src/iommu/qi.rs:296-358 | submitting an invalidation, a wait or a fence keeps what is known of a unit's cache, whatever failed rounds left in its ring |
| `Invalidation.RoundKeepsUnit` | kernel/src/iommu/vt_d.rs:447-493 | so does the end of a unit's part of a round, in success or failure |
| `Invalidation.RunKeepsInv` | kernel/src/iommu/vt_d.rs:1403-1408 | on every run, whatever a unit caches whose last round completed is current or was removed since that round, and a unit this round has flushed caches only current translations |
| `Invalidation.CachesCoherent` | kernel/src/iommu/vt_d.rs:447-493 | on every run, when the driver is idle, what a unit caches whose last round completed is current or was removed since; when each of those is back, all it caches is what the table gives |
| `Invalidation.RoundRestores` | kernel/src/iommu/vt_d.rs:447-493 | a unit that completes its part of a round caches only current translations, whatever rounds failed before |
| `Invalidation.NeverBehind` | kernel/src/iommu/qi.rs:266-291 | a unit whose rounds have not failed has at most two descriptors waiting, so its ring never overruns |
| `Invalidation.RunKeepsRing` | kernel/src/iommu/qi.rs:240-291 | all along a run a unit's ring holds, in order, what was submitted and not taken if and only if no submission overwrites another descriptor that was not taken |
| `Invalidation.RingOverruns` | kernel/src/iommu/qi.rs:266-287 | a run from the initial state in which a stalled unit looks drained and a submission overwrites a descriptor it has not taken |
| `Invalidation.StaleIsPossible` | kernel/src/iommu/vt_d.rs:1394-1400 | the converse: on every run that ends idle with a removed translation not back, the same driver steps can leave any given unit holding it |
| `Invalidation.RollbackLeavesStale` | kernel/src/iommu/vt_d.rs:1394-1400 | from every idle state a mapping rolled back can leave any given unit with a stale translation |
| `DmaRemap.BackedTranslates` | kernel/src/iommu/dma_remap.rs:221-282 | a cache entry inside a live window is a translation of the page table |
| `DmaRemap.CacheBufferKeepsInv` | kernel/src/iommu/dma_remap.rs:323-373 | caching all pages of a buffer keeps every entry right, whatever the other threads hold |
| `DmaRemap.CachePageKeepsInv` | kernel/src/iommu/dma_remap.rs:250-281 | the thread that finds another entry already cached keeps the cache right |
| `DmaRemap.ReclaimKeepsInv` | kernel/src/iommu/dma_remap.rs:250-281 | releasing the mapping of the lost race takes away nothing any entry uses |
| `DmaRemap.UnmapBufferKeepsInv` | kernel/src/iommu/dma_remap.rs:433-463 | unmapping a buffer leaves only entries that the same thread is about to drop |
| `DmaRemap.EvictKeepsInv` | kernel/src/iommu/dma_remap.rs:433-463 | dropping the entries restores agreement everywhere |
| `DmaRemap.VirtToPhysTranslates` | kernel/src/iommu/dma_remap.rs:221-282 | on every run, for every page no thread is freeing, the address answered translates, at the time of the answer, to the physical address behind the pointer |
| `DmaRemap.RunKeepsSettled` | kernel/src/iommu/dma_remap.rs:250-281 | on every run no thread holds the window behind a cached entry, unless its page is being freed |
| `DmaRemap.AnswerKeepsTranslating` | kernel/src/iommu/dma_remap.rs:238-282 | on every run an address answered from the cache keeps translating to the same physical byte until a buffer that holds its page is unmapped |
| `DmaRemap.LoserKeepsTranslating` | kernel/src/iommu/dma_remap.rs:266-281 | so does the address a thread answers after it lost the race |
| `DmaRemap.IdentityKeepsTranslating` | kernel/src/iommu/dma_remap.rs:230-237 | the answer for an identity page translates at every point of every run |
| `DmaRemap.StepKeepsIdentity` | kernel/src/iommu/dma_remap.rs:230-281 | a page that passes the identity test still passes it after a step that does not unmap its buffer if and only if the step gives back no window at its address |
| `DmaRemap.IdentityAnswerKeeps` | kernel/src/iommu/dma_remap.rs:230-281 | on every run an answer of the identity test translates at every later point, until its buffer is unmapped, if and only if no lost race gives back a window at its address |
| `DmaRemap.CollisionReclaimed` | kernel/src/iommu/dma_remap.rs:230-281 | a run from the initial state in which a window with the address of its frame passes the identity test and the answer stops translating when the lost race gives it back, no buffer being unmapped |
| `CopyOnWrite.SoleIsCounted` | kernel/src/mm/framecnt.rs:91-96 | the counter is 0 or 1 exactly when a frame has a single owner |
| `ForkSteps.SharedRefs` | kernel/src/mm/vmm/x86_64.rs:1097-1104 | sharing a leaf adds one owner and the counter follows, from untracked to two or by one |
| `ForkSteps.UnsharedRefs` | kernel/src/mm/framecnt.rs:124-135 | dropping a share never sees the last owner and restores the count |
| `CopyOnWrite.Given` | kernel/src/mm/framecnt.rs:103-117 | giving up a reference frees the frame exactly when no owner is left |
| `CopyOnWrite.FaultKeepsInv` | kernel/src/mm/fault.rs:60-88 | the sole-owner test of the resolver stays true until the page is made writable |
| `CopyOnWrite.PrivatizedUntracked` | kernel/src/mm/fault.rs:60-88 | the frame of a page about to be made writable in place is untracked again |
| `CopyOnWrite.RepointKeepsInv` | kernel/src/mm/fault.rs:90-107 | switching to the private copy keeps all counts and makes a page writable that nobody shares |
| `ForkSteps.ForkShareKeepsInv` | kernel/src/mm/vmm/x86_64.rs:1050-1111 | each shared leaf of the clone keeps the invariant while other processes fault and exit |
| `ForkSteps.ForkCommitKeepsInv` | kernel/src/mm/usermem.rs:616-636 | registering the child keeps it |
| `ForkSteps.UnshareKeepsInv` | kernel/src/mm/vmm/x86_64.rs:1026-1040 | unwinding a failed clone keeps it |
| `ForkSteps.RollbackKeepsInv` | kernel/src/mm/usermem.rs:603-610 | making the parent writable again keeps it if and only if no page of its writable regions is shared |
| `ForkSteps.DropDanglingBreaks` | kernel/src/mm/usermem.rs:611-613 | tearing down the child's root after the unwinding always breaks it |
| `ForkSteps.StepKeepsInv` | kernel/src/mm/fault.rs:34-107 | every other step of fork, fault, unmapping and exit keeps it, in any interleaving |
| `ForkRuns.RunKeepsInv` | kernel/src/mm/framecnt.rs:71-143 | so it holds on every run without those two steps |
| `ForkRuns.CountIsOwners` | kernel/src/mm/framecnt.rs:9-28 | on every such run the counter of a shared frame is the number of its owners |
| `ForkRuns.NeverFreedWhileMapped` | kernel/src/mm/framecnt.rs:98-117 | on every such run a frame is free or on its way there exactly when nothing owns it, so none leaks and none is freed early or twice |
| `ForkRuns.WriteRefines` | kernel/src/mm/fault.rs:60-107 | a write is seen at its own page and by nobody else |
| `ForkRuns.CommitRefines` | kernel/src/mm/usermem.rs:558-640 | a committed fork shows the child what the parent shows on every page outside the skipped range whose 2 MiB block begins below its end, and on every page when nothing is skipped |
| `ForkRuns.WholeCopy` | kernel/src/mm/vmm/x86_64.rs:1060-1075 | when nothing is skipped the child of a committed fork sees every page of the parent |
| `ForkRuns.StepRefines` | kernel/src/mm/usermem.rs:558-640 | every step is a step of eager copying or changes nothing any process sees |
| `ForkRuns.RunRefines` | kernel/src/mm/usermem.rs:558-640 | so copy-on-write refines eager copying on every such run |
| `ForkRuns.FaultGrants` | kernel/src/mm/fault.rs:34-107 | from every state a process comes by its own steps, with nothing changed for anybody, to a state in which it can write a page of a writable region, if the frame is its own or there is a free one |
| `ForkRuns.ClonedExactly` | kernel/src/mm/vmm/x86_64.rs:1060-1075 | which pages the walk reaches, by addresses, with a skipped range and without one |
| `ForkRuns.CloneDropsPages` | kernel/src/mm/vmm/x86_64.rs:1060-1075 | a page outside the skipped range that does not reach the child |
| `ForkRuns.FailedForkReturns` | kernel/src/mm/usermem.rs:602-614 | a fork that failed after sharing a page cannot return without the step that breaks the counts |
| `ForkRuns.FailedForkFreesMappedFrame` | kernel/src/mm/usermem.rs:602-614 | a run that ends with a page mapped and writable on a free frame |
| `ForkRuns.FailedForkBreaksIsolation` | kernel/src/mm/usermem.rs:602-614 | a run after which a write of the parent shows up in an earlier child |
| `InputQueue.ExchangeKeepsInv` | kernel/src/input/queue.rs:73-99 | a successful exchange claims a position whose slot is empty for its round, although both readings may be old |
| `InputQueue.StoreTailKeepsInv` | kernel/src/input/queue.rs:102-118 | advancing the tail hands the released slot to the position one round later |
| `InputQueue.RunKeepsInv` | kernel/src/input/queue.rs:10-24 | the per-slot round counters are right at every point of every run |
| `InputQueue.FirstInFirstOut` | kernel/src/input/queue.rs:102-118 | the consumer is given the claimed events in order, whole and once each, and at most 256 are in the queue |
| `InputQueue.NeverSpins` | kernel/src/input/queue.rs:87-92 | a producer finds its slot empty at the first look |
| `InputQueue.NoOverlap` | kernel/src/input/queue.rs:55-60 | no two threads use the event of a slot at the same time |
| `InputQueue.RefusedWhenFull` | kernel/src/input/queue.rs:73-79 | a push is refused if and only if the queue is full, or its head reading is older than the tail |
| `InputQueue.PushEnds` | kernel/src/input/queue.rs:73-99 | a push ends only by publishing its event or by that refusal; until then it keeps trying with the same event |
| `InputQueue.RefusedWhenEmpty` | kernel/src/input/queue.rs:73-79 | from every empty queue there is a run in which a push is refused and the queue is empty |
| `InputQueue.NoneWhenEmpty` | kernel/src/input/queue.rs:102-107 | a pop answers none only when everything claimed has been handed out |
| `InputQueue.Delivered` | kernel/src/input/queue.rs:69-118 | of each producer the consumer has a prefix of the events its pushes accepted, in order, none that is still being written; and all of them once the queue is drained |
| `InputQueue.PushSucceeds` | kernel/src/input/queue.rs:73-99 | with room, an undisturbed push is accepted and its event is the last in the queue |
| `InputQueue.PopSucceeds` | kernel/src/input/queue.rs:102-118 | an undisturbed pop hands out the oldest published event |
| `FeedRing.DeltaIsProgress` | kernel/src/audio/hda.rs:138-142 | the distance between two position readings is how far the hardware moved |
| `FeedRing.ReconciledCells` | kernel/src/audio/hda.rs:128-160 | a reconcile, during a copy or not, silences what was played and leaves every cell right |
| `FeedRing.BeginKeepsInv` | kernel/src/audio/hda.rs:500-545 | entering the critical section, with or without realignment, keeps every cell right |
| `FeedRing.CopyByteKeepsInv` | kernel/src/audio/hda.rs:546-556 | each byte copied at or ahead of the completion cursor goes to an offset that was never written and keeps every cell right |
| `FeedRing.StepKeepsInv` | kernel/src/audio/hda.rs:500-556 | a step keeps every cell right if and only if it does not copy a byte other than silence behind the completion cursor |
| `FeedRing.RunKeepsInv` | kernel/src/audio/hda.rs:461-561 | all along a run every cell holds the byte staged for the offset it stands for, or silence, if and only if no byte other than silence is copied behind the completion cursor |
| `FeedRing.PlaysWhatWasStaged` | kernel/src/audio/hda.rs:461-561 | until such a byte is copied the hardware plays the byte staged for exactly that offset, or silence |
| `FeedRing.StagesWithinCap` | kernel/src/audio/hda.rs:532-548 | on every run nothing is staged more than fifteen slots ahead of the completion cursor |
| `FeedRing.TakeLargest` | kernel/src/audio/hda.rs:546-548 | one pass copies the largest number of bytes that is left, does not wrap and stays within the cap; none only if nothing is left or there is no room |
| `FeedRing.NeverOverwritten` | kernel/src/audio/hda.rs:461-561 | on every run no offset is staged twice |
| `FeedRing.SubmittedWhole` | kernel/src/audio/hda.rs:461-561 | when a call is done every byte of it has one place of its own, at increasing offsets, and the places hold those bytes if and only if no chunk cut a sample in two unequal bytes |
| `FeedRing.RunRight` | kernel/src/audio/hda.rs:550-554 | on every run, at every point, the bytes of a call are staged right if and only if every byte copied so far from a chunk that starts at an odd byte equals the byte before it |
| `FeedRing.EvenReadingsRight` | kernel/src/audio/hda.rs:138-142 | even position readings are enough for that |
| `FeedRing.SampleCut` | kernel/src/audio/hda.rs:546-554 | a run from the initial state, for every call of at least 13316 bytes, in which an odd reading leads to an odd chunk and the byte at 13312 is staged again in the place of the next |
| `FeedRing.LateByteStands` | kernel/src/audio/hda.rs:500-556 | a byte copied behind the completion cursor stands in the cell of a later offset for which nothing was staged, and that cell is right only if the byte is silence |
| `FeedRing.PlaysOneTurnLate` | kernel/src/audio/hda.rs:500-561 | a run from the initial state in which a reconcile overtakes the copy and the hardware plays a byte one turn late |
| `FeedRing.RunFramed` | kernel/src/audio/hda.rs:461-561 | with readings in whole frames every byte keeps its place in its frame |
| `FeedRing.PassIsStaged` | kernel/src/audio/hda.rs:500-557 | the byte steps of one undisturbed pass are the block copy of the critical section |
| `FeedRing.Buffer.Silence` | kernel/src/audio/hda.rs:147-157 | zeroes exactly a run of cells, in two pieces when it wraps |
| `FeedRing.Buffer.Reconcile` | kernel/src/audio/hda.rs:128-160 | the buffer and cursors are those of the value-level reconcile |
| `FeedRing.Buffer.Stage` | kernel/src/audio/hda.rs:500-557 | one pass through the critical section leaves the value-level ring and takes as many bytes |
| `CapPaths.JoinSplit` | kernel/src/caps/mod.rs:104-107 | joining the pieces of any path gives the path back |
| `CapPaths.SplitJoin` | kernel/src/caps/mod.rs:175-178 | splitting joined components gives the components back |
| `CapPaths.PathIsComponents` | kernel/src/caps/mod.rs:180-186 | on canonical paths comparing strings and comparing components is the same |
| `CapPaths.SlashTests` | kernel/src/caps/mod.rs:345-352 | the three tests on slashes reject exactly the paths with an empty piece |
| `CapPaths.ValidatedCanonical` | kernel/src/caps/mod.rs:330-367 | a validated capability has a canonical path |
| `CapPaths.ValidateExactly` | kernel/src/caps/mod.rs:330-367 | which capabilities are admitted: path and method no longer than allowed, every component and the method of printable characters other than the separators, no component `.` or `..` |
| `CapPaths.SameLeaf` | kernel/src/caps/mod.rs:245-266 | the two checks decide the leaf alike, errors included |
| `CapPaths.CheckOnAnswers` | kernel/src/caps/mod.rs:224-266 | what `check_path_on` answers when no pid is replaced, in terms of the capabilities held: granted exactly when each object on the way has one, a method has its object, and the leaf has one with the permission wanted; access denied exactly when it has only a weaker one; method not found exactly when the object has one and the method none |
| `CapPaths.CheckAnswers` | kernel/src/caps/mod.rs:572-620 | the same of `check_path` on canonical capabilities, with a capability of its own for each object on the way |
| `CapPaths.PidRoundTrip` | kernel/src/caps/mod.rs:116-134 | every 64-bit pid is read back from its decimal form |
| `CapPaths.NoPid` | kernel/src/caps/mod.rs:116-129 | a component with anything but digits is no pid |
| `CapPaths.StrangerHidden` | kernel/src/caps/mod.rs:140-172 | the pid of a task the caller is no ancestor of is not found, whatever is held |
| `CapPaths.OwnTaskIsSelf` | kernel/src/caps/mod.rs:140-172 | the pid of one it is an ancestor of answers as `self` does |
| `CapPaths.OthersUnchanged` | kernel/src/caps/mod.rs:140-172 | any other path answers as if nobody in particular asked |
| `CapPaths.GrantImpliesGrantOn` | kernel/src/caps/mod.rs:224-266 | what `check_path` grants, `check_path_on` grants |
| `CapPaths.SemanticsIdentical` | kernel/src/caps/mod.rs:220-266 | the two answer alike on every question if and only if the ancestor tests agree for each capability that is not about a method |
| `CapPaths.MethodsAccompanied` | kernel/src/caps/mod.rs:188-218 | that is so when every method capability comes with one on its object |
| `CapPaths.SemanticsDiffer` | kernel/src/caps/mod.rs:188-218 | two capabilities and a question on which they differ |
| `CapPaths.SubsetIsAuthority` | kernel/src/caps/mod.rs:369-377 | the subset test holds if and only if the parent has every permission the child has |
| `CapPaths.SubsetMeans` | kernel/src/caps/mod.rs:370-377 | it holds exactly when for every capability of the child the parent has one on the same path and method that gives no less |
| `CapPaths.ChildGrantIsParentGrant` | kernel/src/caps/mod.rs:369-377 | what a child may do its parent may do |
| `CapPaths.SpawnsNeverGain` | kernel/src/caps/mod.rs:369-377 | authority never grows along any chain of spawns: what a descendant is granted the first is granted |
| `CapPage.FitsCovers` | kernel/src/caps/mod.rs:763-770 | the single size test covers everything an entry writes, padding included |
| `CapPage.FitsTight` | kernel/src/caps/mod.rs:763-770 | it is no stricter than eight bytes: an entry it turns away would leave less than that |
| `CapPage.EntryLayout` | kernel/src/caps/mod.rs:772-803 | where each field of an entry lies, byte by byte |
| `CapPage.EntryAligned` | kernel/src/caps/mod.rs:772-803 | every length in an entry lies at a multiple of four |
| `CapPage.EntryRoundTrip` | kernel/src/caps/mod.rs:772-803 | an entry reads back as the capability, absent and empty methods told apart |
| `CapPage.WindowRoundTrip` | kernel/src/caps/mod.rs:742-811 | a window reads back as the capabilities it was written from |
| `CapPage.PutEntry` | kernel/src/caps/mod.rs:772-803 | writes exactly the bytes of the entry |
| `CapPage.Serialize` | kernel/src/caps/mod.rs:746-811 | the window decodes to exactly the capabilities before the first that fails the size test; the first left out would have left less than eight bytes |
| `CodecSearch.SweptMeansLonger` | kernel/src/audio/codec.rs:574-630 | once the first levels are searched every route is longer |
| `CodecSearch.NothingAbove` | kernel/src/audio/codec.rs:623-627 | a round that collects nothing means there is no route at all |
| `CodecSearch.Rebuild` | kernel/src/audio/codec.rs:598-615 | the path read off the parents is a route of the right length; the two ways out that give up are never taken |
| `CodecSearch.PathHops` | kernel/src/audio/codec.rs:635-651 | each hop gets the index of its predecessor in its own connection list |
| `CodecSearch.FindsFirst` | kernel/src/audio/codec.rs:585-597 | looking up a node id gives the first widget that has it, and nothing exactly when none has |
| `CodecSearch.RouteExactly` | kernel/src/audio/codec.rs:585-620 | a route is exactly a chain of widgets from a goal to the start, each listing the one before it, with mixers, selectors and volume knobs in between |
| `CodecSearch.ReachConverter` | kernel/src/audio/codec.rs:574-630 | finds a path exactly when a route of at most 32 edges exists, a shortest one, each hop selecting its predecessor |
| `CodecSearch.ReachInPin` | kernel/src/audio/codec.rs:671-723 | the same for the nearest pin that can be an input |
| `Framebuffer.MarkKeepsCover` | graphics/Framebuffer/src/framebuffer.rs:156-174 | marking a drawn rectangle keeps every difference inside the dirty rectangle |
| `Framebuffer.MarkedLeast` | graphics/Framebuffer/src/framebuffer.rs:156-174 | the new dirty rectangle is the least one with every dirty pixel and every pixel drawn on the screen, and there is one only if there is such a pixel |
| `Framebuffer.RunKeepsGood` | graphics/Framebuffer/src/framebuffer.rs:156-206 | in every sequence of drawing and flushing no visible difference is outside the dirty rectangle, and after a flush there is none |
| `Framebuffer.Framebuffer.constructor` | graphics/Framebuffer/src/framebuffer.rs:10-58 | a new framebuffer has nothing dirty |
| `Framebuffer.Framebuffer.MarkDirty` | graphics/Framebuffer/src/framebuffer.rs:156-174 | the fields hold the clipped bounding box |
| `Framebuffer.Framebuffer.FillRect` | graphics/Framebuffer/src/framebuffer.rs:304-331 | every visible pixel of the rectangle gets the colour, no other pixel changes |
| `Framebuffer.Framebuffer.PutPixel` | graphics/Framebuffer/src/framebuffer.rs:288-302 | one pixel, and false with no change off the screen |
| `Framebuffer.Framebuffer.DrawChar` | graphics/Framebuffer/src/framebuffer.rs:387-431 | every visible pixel of the glyph gets the colour of its bit, no other pixel changes |
| `Framebuffer.Framebuffer.Flush` | graphics/Framebuffer/src/framebuffer.rs:176-198 | copies the whole dirty rectangle, skipping no row, and then screen and shadow agree |
| `Framebuffer.Framebuffer.FlushFull` | graphics/Framebuffer/src/framebuffer.rs:200-206 | makes the buffers equal |
| `Framebuffer.Framebuffer.Clear` | graphics/Framebuffer/src/framebuffer.rs:363-372 | zeroes the shadow and marks everything |
| `Framebuffer.Framebuffer.ScrollUp` | graphics/Framebuffer/src/framebuffer.rs:333-361 | the picture moves up, black rows come in, and the screen follows |
| `Framebuffer.Framebuffer.FillSolid` | graphics/Framebuffer/src/framebuffer.rs:213-230 | the whole screen gets the colour, on the fast path and on the other |

## Left out

- Hardware registers, memory-mapped I/O, context tables, fault reporting and the bring-up of units: a unit is its cache and its invalidation queue.
- Memory ordering: each atomic operation takes effect at once, as under sequential consistency.
- The physical frame allocator: a supply of fresh frames, or a set of free ones; running out is modelled.
- The read-back of every mapping by a second walk and the CPU-side windows of DMA buffers (`reserve_window`, `reclaim_window`, `map_cpu`): they would add only easy members.
- The branch of the bump allocator for a candidate of zero: the cursor starts at one page and never decreases to zero.
- Copy-on-write: several threads in one address space, the TLB and its shootdown, protection keys and the overflow of a 32-bit counter. The child's page tables are not frames of the model, so that the failing path also releases those twice is not stated; what they hold is taken to stay as written until the teardown reads it.
- Image loading, `brk`, `mmap` and memory budgets: a page appears with some content, or a process is ended.
- The wrap-around of the queue's 64-bit indices; only the difference of two readings is taken modulo the word size.
- Recording, mixer set-up and the verbs of the audio driver; the advisory probe and the wait in `submit_playback`, which change nothing.
- The three parts of a reconcile (taking the position, silencing, moving the cursor) are one step here, and so are the steps of `submit_playback` before its copy; the copy is byte by byte.
- FeedRing.PlaysWhatWasStaged: does not cover a play head that gets a whole turn of the ring ahead of the last reconcile, because the completion interrupt of every slot runs one.
- Capability lists for directory listings, the construction of the first process's list and current-task look-up: the caller and its descendants are a parameter. Lengths of paths count characters.
- Reading connection lists and widget types from the codec.
- Framebuffer: overflow of offsets, the pixel formats behind a colour's bytes and the contents of the font.
