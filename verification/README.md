# Verified model of a GPU record-and-replay stack

A recording of GPU activity consists of a page-table dump, the contents of the GPU's
memory regions, and a list of register accesses. The replayer rebuilds an equivalent
address space in freshly allocated physical pages, loads the recorded contents, and
plays the register accesses back to the GPU. Beneath it sits the kernel driver,
whose fence protocols, address-space scheduler and event queue are small concurrent
algorithms of their own. This project models both in Dafny and proves what they
promise.

**Address space.** `PteCodec` is the entry encoding bit by bit, `PhysMem` physical
memory and the page supply, `TableTree` the recorded table as a tree with its flat
dump, `TableDump` what the words of a dump ask for. `ConstructPgt` rebuilds the
tree; `PageWalk` shows that the walk through the user-space shadow tree and the walk
through memory reach the same tables; `LeafEntries` follows one leaf write,
`Regions` says what a region is, `DumpLoop` what the page loop does with any dump
and with one in the recorder's format, `AddressSpace` is initialisation and
restoration, and `MemInit` puts it together: every byte of every backed page
translates to the page that backs it. `GpuIo` is the transfer through a region's
page list, `LiveContext` what initialisation establishes and every transfer keeps,
`EndToEnd` the two combined down to the bytes the GPU reads; `RegionOps` and
`CleanRegions` are the other operations on the page lists. Three views of one
address space (shadow tree, tables in memory, page lists) are kept equal throughout.

**Fences.** `KbaseFence` and `DmaBufLock` are interleaving transition systems. In
`KbaseFence` one thread holds `jctx.lock` and takes atomic steps (count up, add to
the fence, drop the bias, remove one callback, uncount it, mark handled, ...)
between which fences signal and workers start, for any number of atoms. In
`DmaBufLock` the locking thread, callbacks, worker and closing thread are free to
interleave. Results are about every reachable state of every run. Signalling a fence
holds the fence's lock while its callbacks run, so removing a callback waits for a
callback that is under way; everything else may overlap. `KbaseRoutines` says what
each routine achieves between taking and giving up the lock. `WoundWait` is the
lock-with-backoff loop of both files, against arbitrary contention.

**Scheduler, events, registers.** `CtxSched` is the address-space scheduler with its
hardware table, `EventQueue` the coalescing event queue (one method per critical
section), `JobHead` what the replayer and running jobs do to memory, `Replay` the
register replayer over an arbitrary hardware oracle, `JobIrq` the interrupt drain
loop and the submit/complete/wake-up handshake of every replay, `DebugfsAttr` the
printer and parser of size arrays, `DebugfsErrors` which strings the parser takes as
numbers and what it does at others.

Where a promise does not hold of the code, the code is modelled as it is and the
exact condition is proved. A transfer that spans exactly two pages moves only the
first page's part (`GpuIo.MovedIff`; the run `GpuIo.TwoPagesLose`), which decides
when a job header is zeroed (`JobHead.ZeroedHeadIff`, `Replay.EveryHeadZeroed`). The
termination message overtakes held-back events exactly when the last reported event
coalesces (`EventQueue.AllDeliveredIff`; the run
`EventQueue.TerminatedBeforeCoalesced`). Closing a shared `dma_buf` lock signals in
order exactly when its handle polls as locked, once no callback is under way
(`DmaBufLock.SharedCloseInOrderIff`; the run `DmaBufLock.SharedMaySignalEarly`), and
a lock that has polled as locked stays in order (`DmaBufLock.LockedKeepsOrder`).
Cleaning zeroes the invalid regions and nothing else exactly when each has an
address for every page and fewer than 2^32 pages (`CleanRegions.CleansExactlyIff`;
the run `CleanRegions.NeighbourZeroed`). Pages are entered at their own addresses
exactly when they were recorded there (`DumpLoop.OwnAddressIff`). The wound/wait
loop fails on a repeated reservation, so the `dma_buf` form, which does not
de-duplicate its list, succeeds only on distinct reservations
(`WoundWait.LockReservations`). The checkpoint's page total is a 32-bit counter
(`RegionOps.ReservedTooSmallIff`).

Files are independent of order; `dafny verify dfyconfig.toml` checks the project.

## Model

| member | source | states |
|---|---|---|
| PteCodec.AteRoundTrip | replayer/gr_mem.c:71-76 | Decoding a leaf entry gives the page back if and only if the page is aligned and has the execute-never bit clear, for every flags value and level |
| PteCodec.AteFields | replayer/gr_mem.c:637-670 | The encoder sets every bit of a leaf word from the region flags and the page: type, memory attribute, access, shareability, execute-never, two bits always clear and one always set |
| PteCodec.RelinkRoundTrip | replayer/gr_mem.c:402 | A relinked interior entry decodes to the new table if and only if that page survives the masks, and keeps its low 12 bits |
| PteCodec.RelinkedPointsTo | replayer/gr_mem.c:402 | A relinked word is, in literal bits, the recorded low twelve bits and the new page |
| PteCodec.SplitPaddr | replayer/gr_mem.c:158-180 | Splitting page + offset as gr_read_phys and gr_write_phys do gives both parts back |
| PhysMem.Machine.GetPage | replayer/gr_mem.c:378 | One fresh zeroed page appears, nothing else changes |
| PhysMem.Machine.GetPages | replayer/gr_mem.c:299-300 | n fresh distinct zeroed pages, everything else as before |
| TableTree.DumpLength | replayer/gr_mem.c:386-397 | A pre-order dump is 513 words per table |
| TableTree.DumpInjective | replayer/gr_mem.c:365-417 | The dump determines the tree, so reading it back is unambiguous |
| TableTree.IsoFrame | replayer/gr_mem.c:391-413 | Writing other pages does not disturb a rebuilt subtree |
| TableDump.TreeOf | replayer/gr_mem.c:365-417 | Every dump that goes on as far as its words say is the dump of a table tree |
| TableDump.IsoRebuilt | replayer/gr_mem.c:354-413 | A tree isomorphic to the dumped one is, read off the dump word by word, what gr_construct_pgt is to build: a word of type 3 above level 3 points to the rebuilt child, whose page is the one of the supply that belongs to its place in the dump, and every other word is the dumped one |
| ConstructPgt.Construct | replayer/gr_mem.c:365-417 | The dump is consumed 513 words a table, one fresh page is taken per table in dump order, nothing else changes, and memory holds a tree isomorphic to the recorded one: over the dump's words, each word of type 3 above level 3 keeps its low bits and points to its own child's new page, all others are verbatim |
| ConstructPgt.ConstructEntries | replayer/gr_mem.c:386-410 | The entry loop: offset, pages and slot contents after all 512 entries |
| ConstructPgt.ConstructSlot | replayer/gr_mem.c:393-408 | One word: of type 3 above level 3, it is recursed into and relinked; any other is copied |
| ConstructPgt.InitPgt | replayer/gr_mem.c:419-462 | On any dump that is long enough, with no tree given: the same, word by word |
| PageWalk.UserPgdAtLevel | replayer/gr_mem.c:79-95 | The shadow walker reaches the table the shadow tree has on the path, for any address; it stops exactly at an unassigned slot, whose contents the code leaves undefined |
| PageWalk.PgdAtLevel | replayer/gr_mem.c:98-135 | The hardware walker follows decoded entries and exits exactly on a zero table address; it stops at an entry that names a page of the recording |
| PageWalk.IndexBits | replayer/gr_mem.c:103-107 | Each level takes its own nine bits of the address, from bit 39 down to bit 12 |
| PageWalk.WalkSpelledOut | replayer/gr_mem.c:98-135 | The hardware walk word by word, for any memory: it exits at the first of its three words that names address zero and else reaches the table the third one names |
| PageWalk.IsoLinked | replayer/gr_mem.c:398-402 | A rebuilt tree carries its shadow tree: every assigned child slot decodes to the child's page |
| PageWalk.WalksAgree | replayer/gr_mem.c:79-135 | For every address and level, where the shadow walk succeeds the hardware walk reaches the same page |
| PageWalk.WalkFollowsValidEntries | replayer/gr_mem.c:393-400 | The shadow walk succeeds exactly along words of type 3 of the recorded tree |
| PageWalk.LeafDeterminesPath | replayer/gr_mem.c:86-95 | Addresses reaching the same leaf table take the same slot at every level |
| PageWalk.IndicesDeterminePage | replayer/gr_mem.c:86-88 | Below 2^48 the four nine-bit indices determine the page |
| PageWalk.SlotsInjective | replayer/gr_mem.c:303-308 | Different pages below 2^48 have different leaf slots |
| PageWalk.WalkWraps | replayer/gr_mem.c:86-93 | The walk looks at 48 bits of an address only |
| LeafEntries.StoreLeafEffect | replayer/gr_mem.c:307-342 | A store through the shadow tree sets that page's leaf word, no other page's, and keeps shadow and hardware tables in agreement |
| LeafEntries.LinkedAfterLeafWrite | replayer/gr_mem.c:307-342 | Rewriting a leaf table leaves every interior link in place |
| LeafEntries.TransVaToPa | replayer/gr_mem.c:472-490 | The walker's result, told apart from its exit and from leaving the rebuilt tables |
| LeafEntries.TranslationSpelledOut | replayer/gr_mem.c:472-490 | The translation word by word, for any memory: four words at the four indices, the address bits of the last one and the low twelve bits of the address |
| LeafEntries.TranslateSlot | replayer/gr_mem.c:472-490 | Through intact tables the translation is the decoded leaf word plus the offset |
| AddressSpace.ReplayContext.RestorePte | replayer/gr_utils.c:318-343 | Whatever the leaf slots held, every backed page of every region is entered again and no other leaf slot and no memory outside the tables changes |
| AddressSpace.ReplayContext.RestoreRegion | replayer/gr_utils.c:324-342 | The inner loop over one region |
| AddressSpace.ReplayContext.AllocRegion | replayer/gr_mem.c:286-300 | A region is registered, takes its pages in order, and its page count is added to the 32-bit total |
| AddressSpace.ReplayContext.InitPage | replayer/gr_mem.c:302-342 | One page: the stop at a missing table, then contents, then the entry at the loop's address, and the recorded address the loop goes on from |
| AddressSpace.ReplayContext.FillRegion | replayer/gr_mem.c:302-347 | For any dump: where and why the page loop ends, the contents loaded, and for every leaf slot the last page entered there or its old word |
| AddressSpace.ReplayContext.InitRegion | replayer/gr_mem.c:279-350 | One region: pages allocated in order, filled and entered as its loop says; earlier memory undisturbed |
| AddressSpace.ReplayContext.MemContentsInit | replayer/gr_mem.c:258-352 | For any dump: the regions take their pages in order; the run stops in the first region whose loop leaves the tables or the dump; otherwise every region is loaded and every leaf slot holds the last page entered there or its old word; the page total is the sum of page counts modulo 2^32 |
| Regions.PagesApart | replayer/gr_mem.c:302-308 | Backed pages of disjoint regions are different virtual pages |
| Regions.PteBits | replayer/gr_mem.c:637-670 | The word entered for a page of a region follows the region flags bit by bit |
| DumpLoop.CompleteIff | replayer/gr_mem.c:302-328 | The page loop of a region runs to its end if and only if every address it visits has a table and every page it reads is in the dump |
| DumpLoop.LoopAddresses | replayer/gr_mem.c:302-317 | The addresses the loop visits: in a region without records one page after the other, modulo 2^64; with records each one page behind the recorded address before |
| DumpLoop.LastEntered | replayer/gr_mem.c:302-342 | A leaf slot ends with the entry of the last page the loop visited there, or its old word |
| DumpLoop.OwnAddressIff | replayer/gr_mem.c:302-317 | The loop variable is overwritten from the dump: each page is entered at its own address if and only if every page before it was recorded at its own |
| DumpLoop.OwnComplete | replayer/gr_mem.c:302-347 | A region dumped in the recorder's format and covered by the tables is entered in full, page count and all |
| DumpLoop.OwnMapped | replayer/gr_mem.c:258-352 | For disjoint such regions the last-writer account of all loops comes to this: every backed page's slot holds its entry, every other slot its old word |
| MemInit.TranslatePage | replayer/gr_mem.c:472-490 | A backed page translates to its backing page if and only if that page survives the entry masks |
| MemInit.LoadContents | replayer/gr_mem.c:258-352 | On a rebuilt table, for any dump, every leaf slot holds the last page entered there or the recorded word; dumps in the recorder's format never stop the run |
| MemInit.LeafVerbatim | replayer/gr_mem.c:391-413 | A rebuilt leaf table holds the recorded words |
| MemInit.Init | replayer/gr_mem.c:575-583 | From the two dumps to an address space. For any contents dump: where the run stops, what every leaf slot holds, and that no page is used twice. When the dumps agree: every byte of every backed page translates to that byte of its page, the leaf word the hardware finds for it is bit by bit that of the page and the recorded region flags, contents are loaded, and all other leaf slots keep the recorded word |
| MemInit.CorruptionKeepsTables | replayer/gr_utils.c:318-343 | Arbitrary changes to leaf words leave the walks to the leaf tables intact |
| MemInit.Restore | replayer/gr_utils.c:318-343 | Whatever the leaf slots held, restoring re-establishes every translation, with every bit of every leaf word that of the page and the region flags, and changes no other leaf slot and no page outside the tables |
| MemInit.CorruptAndRestore | replayer/gr_utils.c:318-343 | Any change to leaf tables is undone as far as translations go |
| GpuIo.ReadPhys | replayer/gr_mem.c:158-168 | Exactly n bytes of one page arrive at the buffer position, the rest of the buffer is kept |
| GpuIo.WritePhys | replayer/gr_mem.c:170-180 | Exactly n bytes of the buffer replace those of one page, all else is kept |
| GpuIo.FindRegion | replayer/gr_mem.c:147-156 | The first enclosing region, or -1 exactly when there is none |
| GpuIo.OutcomeMeaning | replayer/gr_mem.c:182-238 | How a transfer ends, in addresses and page numbers alone |
| GpuIo.GpuMemIo | replayer/gr_mem.c:182-238 | For any address and size: whether it completes, finds no region, passes the region's end or runs out of its pages; a splice into, or a slice of, the region's flat bytes of exactly the moved length; nothing else changes |
| GpuIo.ByteWritten | replayer/gr_mem.c:182-238 | What a transfer, completed or not, leaves in each byte of each page of the region |
| GpuIo.ByteRead | replayer/gr_mem.c:182-238 | What it leaves in each byte of the buffer |
| GpuIo.MovedIff | replayer/gr_mem.c:203-238 | All bytes move if and only if the transfer does not span exactly two pages |
| GpuIo.TwoPagesLose | replayer/gr_mem.c:182-238 | A transfer of eight bytes over a page boundary, run on a two-page machine: the four bytes of the second page do not arrive |
| GpuIo.WriteThenRead | replayer/gr_mem.c:240-248 | A write followed by a read gives the buffer back unless two pages are spanned; bytes outside the range are kept |
| GpuIo.PathsAgree | replayer/gr_mem.c:182-238 | The byte reached through the page list is the byte at the translated address |
| GpuIo.IoKeepsTranslations | replayer/gr_mem.c:182-238 | Transfers leave every translation as it was |
| LiveContext.InitialisedLive | replayer/gr_mem.c:258-352 | After initialisation tables, translations and regions are in order and share no page |
| LiveContext.TransferKeepsLive | replayer/gr_mem.c:182-238 | Every transfer, however it ends, keeps them so and leaves the other regions' bytes alone |
| EndToEnd.EveryByte | replayer/gr_mem.c:182-238 | After a write through the page lists the GPU reads, through its tables, every byte of every backed page as recorded, or as written where the write moved it |
| EndToEnd.InitThenWrite | replayer/gr_mem.c:182-583 | The same from the two dumps on: rebuild, load, write at any address, read back through the tables |
| RegionOps.GetSyncAs | replayer/gr_mem.c:509-555 | Each range's physical start is the translation of its start address, for backed pages the page plus the offset; the last range is the input; exactly the regions found are marked; the run stops at the first start without translation or region, and it is told which |
| RegionOps.TouchedIff | replayer/gr_mem.c:545-548 | In disjoint regions those are exactly the regions some range starts in |
| RegionOps.Checkpointer.Write | replayer/gr_checkpoint.c:12-44 | Two calls, as counted modulo 2^32, copy exactly the concatenation of all region pages and count them; a copy aborts if and only if there are more pages than the recorded total; other calls do nothing |
| RegionOps.Checkpointer.WriteRegion | replayer/gr_checkpoint.c:29-40 | One region's pages, with the capacity check |
| RegionOps.ReservedTooSmallIff | replayer/gr_mem.c:296 | The recorded total is too small exactly when the sum of page counts does not fit 32 bits |
| RegionOps.InitThenCheckpoint | replayer/gr_mem.c:575-595 | From the two dumps on: the first checkpoint is exactly the bytes of all region pages and fills the reserved space; it aborts if and only if the page total does not fit 32 bits |
| CleanRegions.CleanInvalidRegion | replayer/gr_utils.c:346-362 | For any regions: the copies run in order to the end, up to the first that does not succeed, or without end in a region of 2^32 or more pages, and exactly the pages they went to are zero |
| CleanRegions.OwnRegionIff | replayer/gr_utils.c:356-358 | Every copy stays in its own region, none stops the run and every loop ends if and only if each invalid region's pages fit its address range and number fewer than 2^32 |
| CleanRegions.CleansExactlyIff | replayer/gr_utils.c:346-362 | The run ends with all pages of the invalid regions and no other zeroed if and only if they fit |
| CleanRegions.CleaningKeepsLive | replayer/gr_utils.c:346-362 | Wherever the copies go, tables and translations are kept |
| CleanRegions.NeighbourZeroed | replayer/gr_utils.c:356-358 | A run in which an invalid region's surplus page zeroes the valid region next to it |
| CleanRegions.InitThenClean | replayer/gr_utils.c:346-362 | From the two dumps through any jobs: when the invalid regions fit, cleaning leaves them all zero and every other byte as the jobs left it, through the page lists and through the page tables; fit or not, the context stays live |
| KbaseFence.StepKeeps | Bifrost-kdriver/driver/product/kernel/drivers/gpu/arm/midgard/mali_kbase_dma_fence.c:142-423 | Every atomic step of wait, callbacks, worker, cancel-all and cancel-callbacks, also nested in cancel-all, keeps the protocol invariant |
| KbaseFence.FreeStepKeeps | Bifrost-kdriver/driver/product/kernel/drivers/gpu/arm/midgard/mali_kbase_fence.c:122-157 | Removing and uncounting callbacks one by one, racing with signalling fences, keeps it |
| KbaseFence.DepCountMeaning | Bifrost-kdriver/driver/product/kernel/drivers/gpu/arm/midgard/mali_kbase_fence.h:180-220 | Until handled, dep_count is the bias plus the unfired registered callbacks plus the one being added or removed; afterwards -1 with no callback left to change it |
| KbaseFence.HandledOnce | Bifrost-kdriver/driver/product/kernel/drivers/gpu/arm/midgard/mali_kbase_dma_fence.c:150-200 | Each wait is handled at most once by exactly one of immediate completion, worker, cancellation or error, and has been as soon as the count is -1 |
| KbaseFence.WaitersAreUnhandled | Bifrost-kdriver/driver/product/kernel/drivers/gpu/arm/midgard/mali_kbase_dma_fence.c:380-416 | Whenever the lock is free an atom is on the waiters list, once, if and only if its dep_count is not negative |
| KbaseFence.WorkQueuedOnce | Bifrost-kdriver/driver/product/kernel/drivers/gpu/arm/midgard/mali_kbase_dma_fence.c:124-134 | Work is queued at most once a wait, its warning never fires, and only with count 0, bias gone and no unsignalled fence registered |
| KbaseFence.ReleasedOnlyWhenClear | Bifrost-kdriver/driver/product/kernel/drivers/gpu/arm/midgard/mali_kbase_dma_fence.c:183-199 | An atom goes on only with count 0 and no unsignalled fence still registered |
| KbaseFence.HolderNotBlocked | Bifrost-kdriver/driver/product/kernel/drivers/gpu/arm/midgard/mali_kbase_dma_fence.c:314-423 | The lock holder always has a next step of its own, unless it waits for a callback under way on the atom it is freeing, whose next step ends the wait |
| KbaseFence.WakeUpNotLost | Bifrost-kdriver/driver/product/kernel/drivers/gpu/arm/midgard/mali_kbase_dma_fence.c:222-223 | With the lock free, a waiting atom whose count is 0 has exactly one work item queued, running or about to be queued, and one with a positive count has none |
| KbaseFence.IdleWorkerMeansCancelled | Bifrost-kdriver/driver/product/kernel/drivers/gpu/arm/midgard/mali_kbase_dma_fence.c:182-184 | A worker that finds a non-zero count is the leftover of a cancelled wait |
| KbaseFence.OnlyCancelledNeedFlush | Bifrost-kdriver/driver/product/kernel/drivers/gpu/arm/midgard/mali_kbase_jd.c:140-151 | Only a cancelled wait leaves work behind, so only then must the queue be flushed before reuse |
| KbaseRoutines.CancelAllCancels | Bifrost-kdriver/driver/product/kernel/drivers/gpu/arm/midgard/mali_kbase_dma_fence.c:405-416 | When cancel-all gives up the lock no atom waits; each that did is handled as cancelled, once, with no callback left, and no other history has changed |
| KbaseRoutines.WaitOutcome | Bifrost-kdriver/driver/product/kernel/drivers/gpu/arm/midgard/mali_kbase_dma_fence.c:314-403 | After a failing step the atom is handled as failed; without one it is handled at once, or waits with one callback for each fence it was added to; nothing happens to other atoms |
| KbaseRoutines.WorkerOutcome | Bifrost-kdriver/driver/product/kernel/drivers/gpu/arm/midgard/mali_kbase_dma_fence.c:168-200 | The worker handles an atom whose count is zero and leaves nothing of its wait; with any other count it does nothing |
| KbaseRoutines.CancelCallbacksOutcome | Bifrost-kdriver/driver/product/kernel/drivers/gpu/arm/midgard/mali_kbase_dma_fence.c:418-423 | No callback is left, and a waiting atom has exactly the one work item it then needs |
| KbaseRoutines.PossibleIff | Bifrost-kdriver/driver/product/kernel/drivers/gpu/arm/midgard/mali_kbase_dma_fence.c:142-423 | Which steps are possible in which reachable state, both ways |
| KbaseRoutines.WarnsIff | Bifrost-kdriver/driver/product/kernel/drivers/gpu/arm/midgard/mali_kbase_dma_fence.c:124-134 | The warning is recorded exactly when work is queued that is queued already |
| DmaBufLock.StepKeeps | Bifrost-kdriver/driver/product/kernel/drivers/base/dma_buf_lock/src/dma_buf_lock.c:222-318 | Every step of the locking thread, the callbacks, the worker and the closing thread keeps the invariant |
| DmaBufLock.ZeroOnce | Bifrost-kdriver/driver/product/kernel/drivers/base/dma_buf_lock/src/dma_buf_lock.c:255-263 | The count reaches zero at most once, never while biased, and exactly when the bias is gone and every registered fence has signalled |
| DmaBufLock.CountMeaning | Bifrost-kdriver/driver/product/kernel/drivers/base/dma_buf_lock/src/dma_buf_lock.c:600-680 | The count is 255 plus the fences counted that have not signalled, and after the bias is dropped just those |
| DmaBufLock.ExtraDroppedOnce | Bifrost-kdriver/driver/product/kernel/drivers/base/dma_buf_lock/src/dma_buf_lock.c:668-680 | The extra reference is dropped at most once and only after every registered fence has signalled |
| DmaBufLock.ExclusiveSignalsLast | Bifrost-kdriver/driver/product/kernel/drivers/base/dma_buf_lock/src/dma_buf_lock.c:668-776 | An exclusive resource's fence signals only after every fence it registered on, even if the handle is closed early |
| DmaBufLock.SignalledIff | Bifrost-kdriver/driver/product/kernel/drivers/base/dma_buf_lock/src/dma_buf_lock.c:753-776 | The fence has signalled if and only if the call has returned, the handle is closed and an exclusive lock's extra reference is gone |
| DmaBufLock.ClosedAndQuietSignals | Bifrost-kdriver/driver/product/kernel/drivers/base/dma_buf_lock/src/dma_buf_lock.c:753-776 | Nothing leaks: closed, all fences signalled and nobody left to act means signalled |
| DmaBufLock.LockedMeansAllSignalled | Bifrost-kdriver/driver/product/kernel/drivers/base/dma_buf_lock/src/dma_buf_lock.c:475-483 | A live handle polls as locked only after every registered fence has signalled |
| DmaBufLock.NeverWarns | Bifrost-kdriver/driver/product/kernel/drivers/base/dma_buf_lock/src/dma_buf_lock.c:228-230 | None of the warnings of callback and worker fires |
| DmaBufLock.WarnsIff | Bifrost-kdriver/driver/product/kernel/drivers/base/dma_buf_lock/src/dma_buf_lock.c:222-250 | They are recorded exactly where the code checks for them |
| DmaBufLock.FreedIsFinal | Bifrost-kdriver/driver/product/kernel/drivers/base/dma_buf_lock/src/dma_buf_lock.c:753-776 | After the resource is freed no step can reach it |
| DmaBufLock.SignalStep | Bifrost-kdriver/driver/product/kernel/drivers/base/dma_buf_lock/src/dma_buf_lock.c:753-776 | The step that signals the fence drops the last reference, takes the lock flag back and starts the teardown |
| DmaBufLock.EveryLockEnds | Bifrost-kdriver/driver/product/kernel/drivers/base/dma_buf_lock/src/dma_buf_lock.c:222-776 | Once no further fence is registered every run ends within a bounded number of steps, and it can end only with the resource freed |
| DmaBufLock.PossibleIff | Bifrost-kdriver/driver/product/kernel/drivers/base/dma_buf_lock/src/dma_buf_lock.c:222-318 | Which steps are possible in which state, both ways; a callback under way is never removed |
| DmaBufLock.SharedMaySignalEarly | Bifrost-kdriver/driver/product/kernel/drivers/base/dma_buf_lock/src/dma_buf_lock.c:679-680 | A shared lock closed early signals before the fence it waits for |
| DmaBufLock.LockedKeepsOrder | Bifrost-kdriver/driver/product/kernel/drivers/base/dma_buf_lock/src/dma_buf_lock.c:475-483 | Once a live handle has polled as locked, every later state of every run has all registered fences signalled, so its own signal comes last |
| DmaBufLock.SharedCloseInOrderIff | Bifrost-kdriver/driver/product/kernel/drivers/base/dma_buf_lock/src/dma_buf_lock.c:679-680 | Closing a returned shared handle signals at once, in order if and only if the handle polls as locked or a callback is about to set that; with no callback under way, if and only if it polls as locked |
| WoundWait.LockReservations | Bifrost-kdriver/driver/product/kernel/drivers/gpu/arm/midgard/mali_kbase_dma_fence.c:58-104 | Success holds every reservation of the list once, an error none; a repeated reservation always fails, and without failing lock operations nothing else does; after each refusal everything held is released and the refused lock waited for, and no lock is waited for otherwise |
| WoundWait.Pass | Bifrost-kdriver/driver/product/kernel/drivers/base/dma_buf_lock/src/dma_buf_lock.c:403-413 | One pass over the list, with the contended lock taken in advance |
| WoundWait.Unwind | Bifrost-kdriver/driver/product/kernel/drivers/base/dma_buf_lock/src/dma_buf_lock.c:418-426 | Every lock released was held, and none is left |
| WoundWait.UnlockReservations | Bifrost-kdriver/driver/product/kernel/drivers/gpu/arm/midgard/mali_kbase_dma_fence.c:106-115 | All reservations are released, each while held |
| WoundWait.ResvInfo.AddReservation | Bifrost-kdriver/driver/product/kernel/drivers/gpu/arm/midgard/mali_kbase_dma_fence.c:295-312 | A new reservation is appended with its access mode, a repeated one ignored; the list stays duplicate-free |
| WoundWait.CollectReservations | Bifrost-kdriver/driver/product/kernel/drivers/gpu/arm/midgard/mali_kbase_dma_fence.c:295-312 | The list holds exactly the requested reservations with the access mode first asked for |
| WoundWait.CollectAndLock | Bifrost-kdriver/driver/product/kernel/drivers/gpu/arm/midgard/mali_kbase_dma_fence.c:335-344 | With the de-duplicated list only a failing lock operation fails, and all requested reservations or none are held |
| CtxSched.Device.constructor | Bifrost-kdriver/driver/product/kernel/drivers/gpu/arm/midgard/mali_kbase_ctx_sched.c:28-40 | All slots free and unbound |
| CtxSched.Device.Term | Bifrost-kdriver/driver/product/kernel/drivers/gpu/arm/midgard/mali_kbase_ctx_sched.c:42-51 | Warns exactly when some context is still bound |
| CtxSched.Device.FindAsForCtx | Bifrost-kdriver/driver/product/kernel/drivers/gpu/arm/midgard/mali_kbase_ctx_sched.c:63-83 | The context's own slot if free, else the lowest free slot, else none |
| CtxSched.Device.TakeSlot | Bifrost-kdriver/driver/product/kernel/drivers/gpu/arm/midgard/mali_kbase_ctx_sched.c:97-117 | The new owner is bound and programmed and the idle previous owner unbound; a sticky slot is not reprogrammed |
| CtxSched.Device.RetainCtx | Bifrost-kdriver/driver/product/kernel/drivers/gpu/arm/midgard/mali_kbase_ctx_sched.c:85-129 | A first retain fails, changing nothing, if and only if no slot is free; a bound context gets its slot back without reprogramming; otherwise the first free slot; it warns exactly when the GPU is unpowered, and keeps all invariants |
| CtxSched.Device.RetainCtxRefcount | Bifrost-kdriver/driver/product/kernel/drivers/gpu/arm/midgard/mali_kbase_ctx_sched.c:131-141 | Counts one more user; warns, and breaks the invariants, exactly when there was none, bound or not |
| CtxSched.Device.ReleaseCtx | Bifrost-kdriver/driver/product/kernel/drivers/gpu/arm/midgard/mali_kbase_ctx_sched.c:143-151 | The last release frees the bit and keeps the binding; the invariants are kept exactly when the count was positive |
| CtxSched.Device.RemoveCtx | Bifrost-kdriver/driver/product/kernel/drivers/gpu/arm/midgard/mali_kbase_ctx_sched.c:153-169 | The context is unbound and, if powered, its slot disabled; it warns, and breaks the invariants, exactly when the context is still referenced |
| CtxSched.Device.RestoreAllAs | Bifrost-kdriver/driver/product/kernel/drivers/gpu/arm/midgard/mali_kbase_ctx_sched.c:171-203 | From any hardware state: idle contexts unbound, active ones programmed in their own slots, unbound slots disabled, evicted slots untouched; it warns exactly when the GPU is unpowered |
| CtxSched.SlotsAccounted | Bifrost-kdriver/driver/product/kernel/drivers/gpu/arm/midgard/mali_kbase_ctx_sched.c:98-150 | Free slots plus active contexts is the number of slots; none is free exactly when that many contexts are active |
| CtxSched.AllRemovedIff | Bifrost-kdriver/driver/product/kernel/drivers/gpu/arm/midgard/mali_kbase_ctx_sched.c:42-51 | All contexts are unbound if and only if all slots are |
| EventQueue.Queue.Post | Bifrost-kdriver/driver/product/kernel/drivers/gpu/arm/midgard/mali_kbase_event.c:161-197 | An atom the client wants reported goes to the list with all held-back ones before it, or is held back; one it does not is queued or processed unreported and leaves both lists alone; order, counters and conservation are kept |
| EventQueue.ReportsAre | Bifrost-kdriver/driver/product/kernel/drivers/gpu/arm/midgard/mali_kbase_event.c:165-178 | Reported are exactly the posts that are neither never to be reported nor reported only on failure and successful, as often as they were posted |
| EventQueue.Queue.Coalesce | Bifrost-kdriver/driver/product/kernel/drivers/gpu/arm/midgard/mali_kbase_event.c:148-159 | Held-back events join the end of the list and the counter is reset |
| EventQueue.Queue.Take | Bifrost-kdriver/driver/product/kernel/drivers/gpu/arm/midgard/mali_kbase_event.c:59-82 | First critical section of dequeue: the oldest event, or nothing, or the termination message exactly when the list is empty and the queue closed |
| EventQueue.Queue.Finish | Bifrost-kdriver/driver/product/kernel/drivers/gpu/arm/midgard/mali_kbase_event.c:84-94 | Second one: the taken atom is processed once |
| EventQueue.Queue.Dequeue | Bifrost-kdriver/driver/product/kernel/drivers/gpu/arm/midgard/mali_kbase_event.c:53-95 | Delivery in posting order; at termination everything reported but the held-back events has been delivered |
| EventQueue.Queue.NoreportWorker | Bifrost-kdriver/driver/product/kernel/drivers/gpu/arm/midgard/mali_kbase_event.c:105-116 | The worker processes the oldest queued unreported atom |
| EventQueue.Queue.Cleanup | Bifrost-kdriver/driver/product/kernel/drivers/gpu/arm/midgard/mali_kbase_event.c:228-252 | Every remaining atom is processed exactly once, in order, and nothing stays behind |
| EventQueue.SplitTaken | Bifrost-kdriver/driver/product/kernel/drivers/gpu/arm/midgard/mali_kbase_event.c:78-82 | Moving an atom between lists neither loses nor duplicates one |
| EventQueue.AllDeliveredIff | Bifrost-kdriver/driver/product/kernel/drivers/gpu/arm/midgard/mali_kbase_event.c:61-75 | With the list empty, everything reported has been delivered if and only if the last event reported is not a coalescing one |
| EventQueue.TerminatedBeforeCoalesced | Bifrost-kdriver/driver/product/kernel/drivers/gpu/arm/midgard/mali_kbase_event.c:61-75 | A run in which the termination message overtakes a held-back event |
| Replay.Replayer.RegReadWait | replayer/gr_replay.c:38-48 | Reads until the value appears; gives up exactly at the loop limit |
| JobHead.ZeroedHeadIff | replayer/gr_replay.c:118-122 | What the copy leaves of a job header's eight bytes is all zero if and only if they do not cross a page or the part beyond was zero already |
| JobHead.ZeroHead | replayer/gr_replay.c:118-122 | The copy through the region's pages has that effect or, if it does not succeed, none; tables and translations are kept |
| JobHead.GpuKeepsLive | replayer/gr_replay.c:215-231 | Whatever jobs write to pages of the regions, tables and translations are kept |
| Replay.Replayer.JsTune | replayer/gr_replay.c:111-124 | The low word is remembered; with the high word the header at the combined address is zeroed, or the copy's failure reported |
| Replay.Replayer.ReplayRead | replayer/gr_replay.c:148-168 | Which reads refresh the flush id, with the first value read |
| Replay.Replayer.ReplayWrite | replayer/gr_replay.c:171-270 | All effects of one recorded write, on the trace and on memory; it stops the run exactly at a job header whose copy does not succeed |
| Replay.Replayer.Run | replayer/gr_replay.c:126-277 | The hardware sees one segment per access, determined by the access, the last flush id read, the last job low word written and the job header in memory; memory changes only by header copies and jobs; the run stops early only in a stuck wait or at a job header outside the regions |
| Replay.RegisterWrites | replayer/gr_replay.c:171-262 | The register writes are the adjusted recorded ones in order, plus one interrupt-mask write after each soft reset |
| Replay.WriteSeen | replayer/gr_replay.c:171-262 | What each recorded write makes the hardware see, register by register |
| Replay.FlushSeen | replayer/gr_replay.c:157-193 | A write of the flush id carries the first answer to the last earlier recorded read of the flush id or the address-space status |
| Replay.HeadAddressSeen | replayer/gr_replay.c:111-124 | A job address is made of its high word and the last low word written before it |
| Replay.ReadSeen | replayer/gr_replay.c:148-168 | A recorded read is one read; where the recording saw the address space busy, more follow up to the first that shows it idle |
| Replay.StuckSeen | replayer/gr_replay.c:38-48 | A run gets stuck only after 100,000,000 further reads of a status recorded as busy, and stops at a job header only at the write of a high word |
| Replay.MemoryKept | replayer/gr_replay.c:126-262 | Memory changes only at a job header or a submission |
| Replay.PlainWritesVerbatim | replayer/gr_replay.c:171-215 | Outside four registers the writes are exactly the recorded ones, in order |
| Replay.OnlyNewTable | replayer/gr_replay.c:201-208 | The hardware is never pointed at the recorded page table |
| Replay.EverySubmitWaits | replayer/gr_replay.c:215-230 | Each job submission is followed at once by the wait for its interrupt |
| Replay.EveryHeadZeroed | replayer/gr_replay.c:111-124 | In every complete run, whenever a job address is completed its header has just been copied to: the GPU reads there, through its tables, eight zero bytes if and only if they do not cross a page or the part beyond was zero |
| Replay.InitThenReplay | replayer/gr_replay.c:126-298 | From the two dumps and the register log: the run starts from the recorded contents, and before every access every backed page translates to the page that backs it |
| JobIrq.IrqRegisters.FirstFinished | replayer/nano_driver/gr_irq.c:92-95 | The lowest slot with a done or failed bit |
| JobIrq.IrqRegisters.DrainOne | replayer/nano_driver/gr_irq.c:91-98 | One pass clears bits of one slot; that slot is gone when the status showed everything and nothing arrived |
| JobIrq.IrqRegisters.Handle | replayer/nano_driver/gr_irq.c:77-103 | With any finite number of jobs ending meanwhile, the handler ends with every bit cleared, all that arrived accounted for by clears of one slot each, and counts one wake-up; without arrivals one clear per finished slot |
| JobIrq.FinishedAfterClear | replayer/nano_driver/gr_irq.c:92-97 | The number of finished slots strictly decreases |
| JobIrq.OneJobAtATime | replayer/nano_driver/gr_irq.c:51-62 | The wake-up counter stays 0 or 1 and a job is submitted only when none is running, raised, in the handler or unconsumed |
| JobIrq.NoLostWakeUp | replayer/gr_manager.c:34-45 | While the replayer waits for its job, GPU and handler can take at most three steps in any order, and it can go on exactly when none is left; its poll does not sleep, so waking the queue before counting does no harm |
| JobIrq.EveryReplayEnds | replayer/gr_manager.c:34-45 | Any interleaving of replayer, GPU and handler ends within four steps an effect, and only with the whole trace replayed and no job left anywhere |
| JobIrq.ReplayEnds | replayer/gr_replay.c:215-231 | So does every complete replay of every recording |
| JobIrq.ReplayOneJobAtATime | replayer/gr_replay.c:215-231 | Both hold in every complete replay of every recording |
| DebugfsAttr.SizeRoundTrip | Bifrost-kdriver/driver/product/kernel/drivers/gpu/arm/midgard/mali_kbase_debugfs_helper.c:79 | A printed size converts back to itself, alone or before a newline |
| DebugfsAttr.ParseElement | Bifrost-kdriver/driver/product/kernel/drivers/gpu/arm/midgard/mali_kbase_debugfs_helper.c:62-85 | One element is skipped to, cut off in place and converted |
| DebugfsAttr.SetAttrFromString | Bifrost-kdriver/driver/product/kernel/drivers/gpu/arm/midgard/mali_kbase_debugfs_helper.c:49-91 | The in-place parser does what parsing the untouched text does: overwritten separators are never looked at again |
| DebugfsAttr.SpacedParses | Bifrost-kdriver/driver/product/kernel/drivers/gpu/arm/midgard/mali_kbase_debugfs_helper.c:57-90 | Parsing a printed array with any extra spaces returns 0 and sets as many elements as fit, in order, to their values |
| DebugfsAttr.Scnprintf | Bifrost-kdriver/driver/product/kernel/drivers/gpu/arm/midgard/mali_kbase_debugfs_helper.c:124-125 | What fits is written and terminated |
| DebugfsAttr.GetAttrToString | Bifrost-kdriver/driver/product/kernel/drivers/gpu/arm/midgard/mali_kbase_debugfs_helper.c:110-129 | The text clipped to the buffer: at most size - 1 characters, terminated, nothing beyond touched |
| DebugfsAttr.PrintedIsSpaced | Bifrost-kdriver/driver/product/kernel/drivers/gpu/arm/midgard/mali_kbase_debugfs_helper.c:118-126 | The printer's text is a spaced array without extra spaces |
| DebugfsAttr.PrintThenParse | Bifrost-kdriver/driver/product/kernel/drivers/gpu/arm/midgard/mali_kbase_debugfs_helper.c:49-129 | Printing into a large enough buffer and parsing it returns 0 and sets every element once, in order, to its value |
| DebugfsErrors.KstrtoulMeaning | Bifrost-kdriver/driver/product/kernel/drivers/gpu/arm/midgard/mali_kbase_debugfs_helper.c:79 | In every base a string converts to the value of its digits, or fails as malformed or as too large |
| DebugfsErrors.EveryReading | Bifrost-kdriver/driver/product/kernel/drivers/gpu/arm/midgard/mali_kbase_debugfs_helper.c:79 | Every string has such a reading |
| DebugfsErrors.ErrorStops | Bifrost-kdriver/driver/product/kernel/drivers/gpu/arm/midgard/mali_kbase_debugfs_helper.c:57-85 | An element that is no number ends the parse with -22 or -34, and exactly the elements before it are set |
| DebugfsErrors.NumberGoesOn | Bifrost-kdriver/driver/product/kernel/drivers/gpu/arm/midgard/mali_kbase_debugfs_helper.c:57-90 | A number in any base is set and the parse goes on behind it |

## Left out

- Mapping of `/dev/mem`, ioctls, poll plumbing, files and logging: memory is a map from page address to page, dumps are sequences, register reads come from an arbitrary oracle. The `feof` loops, which run one more time on stale values, are not part of the model.
- Shadow-tree nodes are values: each is written once, by the call that creates it, so update in place is not modelled. Slots the code leaves unassigned are a separate `NoShadow` value.
- PageWalk.UserPgdAtLevel: stops at an unassigned slot; the code allocates its nodes uncleared, so what it reads there, and whether its test for NULL aborts, is undefined.
- PageWalk.PgdAtLevel: stops where an entry left verbatim from the recording names a page outside the rebuilt tables; the code maps that page and goes on with what it holds. LeafEntries.TransVaToPa and RegionOps.GetSyncAs report the same.
- Page buffers and tables are sequences inside the memory map; a whole page is replaced where the code copies a page. In-place arrays are used for transfer buffers, the checkpoint space and the text buffers.
- ConstructPgt.InitPgt: takes a dump that goes on as far as its words say; beyond its end the code reads what follows in memory. The word offset is unbounded, while the code's is 32 bits wide.
- AddressSpace.ReplayContext.MemContentsInit: stops where the dump has no more pages while the code goes on with stale data; a region list longer than the code's table of 128 is not an error here.
- MemInit.Init: that every backed page translates is promised for dumps that agree, that is, disjoint page-aligned regions under valid table entries whose valid pages carry their own addresses; the recorder writes the latter (gr_as.c:524).
- PhysMem.Machine: the page supply is an arbitrary list of distinct usable pages; the order in which the pool grows and is emptied, and its teardown, are not modelled.
- GpuIo.GpuMemIo: stops where the code indexes its region table with -1 or reads past a region's page list, and takes page-aligned regions of distinct data pages and fewer than 2^32 pages a transfer, the width of its page counter.
- RegionOps.GetSyncAs: stops where the code marks region -1.
- CleanRegions.CleanInvalidRegion: stops where the code's 32-bit counter returns to 0 and its loop would repeat the same copies without end.
- KbaseFence.StepKeeps and DmaBufLock.StepKeeps: the routines are cut into atomic steps on values instead of methods on objects, because other threads act between any two steps; aliasing between list nodes is not modelled.
- KbaseFence: allocation failure of the output fence (nothing has happened yet), the output fence itself, reservation objects other than through WoundWait, and the atom's scheduling state. A failing registration is modelled by its effects on callbacks and count.
- DmaBufLock: the paths that fail after the descriptor exists, module exit, and the list of resources.
- WoundWait.LockReservations: contention is any finite sequence of refusals; whether a real mutex stops refusing is a matter of its fairness.
- CtxSched: the bitmap is the set of its set bits; `kbase_mmu_update` and `kbase_mmu_disable` are an entry in a hardware table.
- CtxSched.Device.RetainCtxRefcount: for a context without a slot the code also reads entry -1 of its table, for a warning it has then already given.
- EventQueue: tracing, wake-ups of readers and the freeing of external resources.
- Replay.Replayer.Run: with checkpointing and validation off; with checkpointing on, cache and address-space flushes precede each job. Time measurements and the job counter that only feeds them are left out. While a job runs the GPU may rewrite pages of the regions in any way; writes through leaf entries left verbatim from the recording are not modelled. A job header outside the regions ends the run, where the code aborts or indexes as in a transfer.
- JobIrq.IrqRegisters.Handle: interrupt registers are sets of bits, and finitely many jobs end during the handler; with endless arrivals its loop need not end.
- JobIrq.OneJobAtATime: takes one interrupt per completed job.
- DebugfsAttr: `scnprintf` and `kstrtoul` are modelled from their behaviour on a 64-bit kernel; that code is not part of this model's sources. Allocation failure of the parser's copy is left out.
- `gr_mem_contents_check`, `gr_clean_used_atom` and debug dumps: comparisons and patches of page contents that add nothing to the address-space results.
- `protected_memory_allocator.c`, `mali_kbase_10969_workaround.c`, register maps, hardware tables, sysfs and debugfs display functions, power control and timing.
