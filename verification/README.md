# Verified model of the FF-A test suite's core

The suite runs on bare metal in several FF-A endpoints at once, so it carries its own page-table
builder, heap, TPM service, multi-CPU event, memory-descriptor builder and endpoint-table
synchronisation.  This project models those parts in Dafny, in the form the C code has, and proves
what they promise.

`dafny verify dfyconfig.toml` checks everything.

| files | subject |
|---|---|
| `Arith`, `PageTable`, `PageTableBuilder`, `EndpointMapping`, `EndpointRuns`, `Descriptor` | translation tables of `val_memory.c` |
| `HeapBlocks`, `HeapMemory`, `HeapAligned`, `HeapLists`, `HeapUsed`, `HeapRuns`, `MemCopy`, `Allocator` | the heap of `val_malloc.c` |
| `CrbMachine`, `CrbAnswers`, `CrbService` | the TPM service of `val_tpm_crb_service.c` |
| `Event` | the event of `val_shemaphore.c` |
| `LittleEndian`, `RegionDescriptor` | memory transaction descriptors of `val_ffa_helpers.c` |
| `EndpointSync` | discovery and table synchronisation of `val_framework.c` |

How each part is modelled:

- **Translation tables.** Tables are an in-place two-dimensional array of descriptors, with the two
  static pools and their "used" flags. A separate hardware walk says what an address translates to.
  Every result is about that walk, for the 4KB, 16KB and 64KB granules with 40-bit addresses. The
  64-bit encoding of one descriptor is treated on its own in `Descriptor`.
- **Heap.** Memory is one array of cells indexed by address. Block headers and payloads share it, so
  a stray header write would be seen to damage a payload. A ghost list of blocks is tied to it by
  `Laid`. `HeapRuns` is the allocator seen from its clients: a machine whose state also holds which
  pointers they own and for how many bytes. Every method of `Allocator.Heap` is a step of it.
  `HeapLists` writes out the list that each call ends with.
- **TPM service.** `CrbMachine` is the service as a machine over values. `CrbService` has the
  service's globals, buffers and register pages, and is proved to carry out that machine. `CrbAnswers`
  says what a client sees of each request, byte by byte. The TPM
  answers as any function of the commands it has executed. The outcome of `FFA_NOTIFICATION_SET` is a
  parameter of each request.
- **Event.** Any number of CPUs take one atomic step at a time. The lock is atomic, every CPU has an
  event register, and an event may arrive from outside at any moment.
- **Descriptors.** A byte buffer with little-endian fields, in the layouts of FF-A v1.0, v1.1 and v1.2.
- **Synchronisation.** One object per partition and a network that delivers each direct message to the
  partition of its receiver id.

## Where the code stops short of its promise

The members named here give the failing input, the exact condition, or both.

- A region whose length is one more than a multiple of the page loses its last byte
  (`EndpointMapping.WholeRegionMapped`).
- With the 4KB granule both root descriptors lead to the same level-1 table, so two regions in
  different halves of the 40-bit space appear in both (`EndpointRuns.TwoHalvesAlias`). They come out
  right exactly when they are mirror images with the same translation (`EndpointRuns.MapTwoHalves`).
  Regions under one root descriptor are unaffected.
- A region that contains the whole span of a root descriptor, at a level where the architecture has no
  blocks, is answered with success and gets a block that never translates. Any other accepted region is
  mapped (`EndpointMapping.PgtCreate`, `EndpointRuns.WholeHalfIsIllegal`).
- `val_realloc` dereferences NULL when it shrinks the last block of the list by too little to split off
  a new one (`Allocator.NullSuccessorIff`, `Allocator.WholeHeapResized`).
- `val_realloc` of a block to about the size it has gives the free block behind its neighbour in use to
  that neighbour (`HeapLists.SwallowsIff`); on a fresh heap this can leave no free block at all
  (`Allocator.SwallowedHeap`).
- Rounding a request up, and the product in `val_calloc`, can wrap around (`Allocator.RequestServed`,
  `Allocator.CallocServed`).
- `val_aligned_alloc` returns a pointer that belongs to no block when the leading gap is smaller than
  a header (`HeapAligned.PointerListedIff`, `Allocator.AlignedAfterSmall`). An empty request whose
  gap fills its block (`HeapAligned.LeadFailsIff`) makes it move on to a block it never examined: NULL
  behind the last block (`Allocator.EmptyRequestNull`), otherwise a block in use, which it cuts to
  nothing (`HeapAligned.LeadRunsOver`, `Allocator.EmptyRequestCuts`). The size test is wrong exactly when
  what the request needs wraps around to no more than the block has (`Allocator.NeedsIff`,
  `Allocator.NeedsWraps`).
- The TPM runs a deferred command for a locality that has been given up in the meantime
  (`CrbMachine.AbsentRunsIff`, `CrbMachine.AbsentOnlyRelinquished`, `CrbMachine.AbsentRun`).
- The event's count is 32 bits wide: tokens are lost exactly when some send finds the count too full
  for its increment (`Event.TokensExactIff`, `Event.OverflowRun`).
- With room for 2^32 constituents or more the number that fits is cut down to 32 bits, so fewer may be
  copied than fit (`RegionDescriptor.MostCopiedIff`).
- A descriptor buffer shorter than the fixed part makes the builder copy past its end
  (`RegionDescriptor.FragmentFitsIff`), and lengths above 2^32 are cut down
  (`RegionDescriptor.LengthsExactIff`).
- A v1.0 retrieve request for several receivers writes neither them nor their count, so it is right
  exactly when the buffer held both before (`RegionDescriptor.RetrieveRequestInit`), which a zeroed one
  does not (`RegionDescriptor.ZeroedLacks`).

## Model

| member | source | states |
|---|---|---|
| `PageTable.WalkLocal` | val/src/val_memory.c:115-414 | A walk depends only on the descriptors of the tables whose range contains its address; the basis of every "other addresses are untouched" result |
| `PageTable.LeafEntry` | val/src/val_memory.c:145-177 | Writing a page or block descriptor over an aligned entry maps exactly that entry's range and leaves every other walk as it was |
| `PageTable.TableEntry` | val/src/val_memory.c:184-413 | After a table is installed and the recursive call has done its chunk, the entry's range is mapped and others are kept, except where a block was replaced |
| `PageTable.InstallTree` | val/src/val_memory.c:184-394 | Hanging an unused pool table under an entry keeps the tables a tree in which each covers exactly its own descriptor's range |
| `PageTableBuilder.Builder.constructor` | val/src/val_memory.c:20-57 | The static tables start zeroed, with both pools unused, and satisfy the tree invariant |
| `PageTableBuilder.Builder.FirstUnused` | val/src/val_memory.c:189-381 | The chains of tests pick the first unused pool table, or report that all are used |
| `PageTableBuilder.Builder.NextTable` | val/src/val_memory.c:184-391 | An existing table is followed; otherwise the entry gets tt_l1_base, or a pool table that was not in use and now is; at most one table of that level's pool is taken, and failure means that pool is exhausted |
| `PageTableBuilder.Builder.Install` | val/src/val_memory.c:184-394 | Only the one entry changes, the tables stay a tree, at most one table of the right pool is taken |
| `PageTableBuilder.Builder.FillEntry` | val/src/val_memory.c:139-413 | One chunk: its range translates to the output range, all other addresses as before or cut out of a replaced block, unless the block test accepted it at a level without blocks, where just that block is written; a flat chunk takes no more tables than its misaligned ends account for |
| `PageTableBuilder.Builder.Descend` | val/src/val_memory.c:184-413 | The same for a chunk that needs a lower table, through the recursive call |
| `PageTableBuilder.Builder.Fill` | val/src/val_memory.c:85-416 | The whole recursive fill maps exactly the requested range on arbitrary existing tables, or, for a range with a whole descriptor's span at a level without blocks, leaves a block there to the end; it terminates by level, it fails only with a pool used up, and for a flat range only when a pool could not be sure to serve it |
| `PageTableBuilder.BlockedStep` | val/src/val_memory.c:115-183 | No later iteration of the loop overwrites a block written at the first descriptor boundary of such a range, and the iteration that reaches it writes it |
| `PageTableBuilder.NextSize` | val/src/val_memory.c:399-405 | The next level's size, computed by subtracting logarithms, is the quotient by the table size |
| `EndpointMapping.Ilog2` | val/src/val_memory.c:418-429 | The loop returns the position of the lowest set bit, and 0 for 0 |
| `EndpointMapping.Ilog2OfPow2` | val/src/val_memory.c:418-429 | On a power of two, the only inputs it is given, that position is the logarithm |
| `EndpointMapping.ComputedGeometry` | val/src/val_memory.c:480-507 | The computed level count gives the architecture's start level and root span for each granule |
| `EndpointMapping.WalkGeometry` | val/src/val_memory.c:480-507 | Those numbers fit the walk: root spans, table sizes and the 40-bit input space agree |
| `EndpointMapping.GuardsPass` | val/src/val_memory.c:104-137 | The three error returns on shifts, block range and index are never taken for 40-bit ranges |
| `EndpointMapping.WalkPeriod` | val/src/val_memory.c:385-385 | Below level 0 a walk does not see multiples of the level-0 span |
| `EndpointMapping.CreateTables` | val/src/val_memory.c:480-516 | One region under one root descriptor: on success it is mapped if and only if it contains no whole root descriptor's span at a level without blocks; then other addresses are kept; a flat region takes at most two level-2 and two level-3 tables and fails only when two are not left in a pool |
| `EndpointMapping.BlockFaults` | val/src/val_memory.c:163-177 | A block left in the root keeps the region that asked for it from being mapped |
| `EndpointMapping.PgtCreate` | val/src/val_memory.c:438-518 | A misaligned or oversized region or a bad stage is refused with nothing changed. Otherwise, on success, each byte of the region translates to its own output byte, with AP[0] set for stage 1 or both S2AP bits for stage 2 and every other attribute bit as asked for, if and only if it needs no root block; a region that does is answered with success with the 4KB granule. Failure means that a pool is used up; other addresses are kept; a flat region takes at most two tables a pool |
| `EndpointMapping.ForcedBits` | val/src/val_memory.c:492-495 | The bits that a stage forces are set and all others are those asked for, so a stage-1 mapping is read-only exactly if asked for |
| `EndpointMapping.PlainlyMapped` | val/src/val_memory.c:473-502 | A region inside the 40-bit space is mapped at its own virtual address, each byte but one that is alone in its page |
| `EndpointRuns.BlockShared` | val/src/val_memory.c:163-177 | All addresses of a descriptor's span translate through that one descriptor |
| `EndpointRuns.NotShattered` | val/src/val_memory.c:179-183 | A region disjoint from the earlier ones replaces none of their blocks |
| `EndpointRuns.OneMore` | val/src/val_memory.c:566-607 | Adding a disjoint region to correctly mapped ones leaves all correctly mapped and the rest unmapped |
| `EndpointRuns.MapRegions` | val/src/val_memory.c:566-607 | A loop over disjoint regions: on success every region's addresses translate to its own output addresses and attributes, and nothing else translates; it fails only for a refused region or with a pool used up; flat lists cannot fail while the pools hold two tables a region |
| `EndpointRuns.MapEndpointRegion` | val/src/val_memory.c:535-610 | The same for image sections and device regions from zeroed tables: regions of whole pages are mapped byte for byte with the attributes asked for and AP[0], and no other address is; up to six flat regions always succeed |
| `EndpointRuns.FollowTag` | val/src/val_memory.c:184-407 | A table reached along any path is at the level of the path's depth, at most 3, inside the range the path selects |
| `EndpointRuns.UniquePath` | val/src/val_memory.c:184-407 | Two paths to the same table are the same path: no two live descriptors reference one table |
| `EndpointRuns.LivePoolTablesAreUsed` | val/src/val_memory.c:189-381 | Every reachable pool table is marked used, so none is handed out twice |
| `EndpointRuns.TwoHalvesAlias` | val/src/val_memory.c:383-386 | With both level-0 descriptors in use, translation repeats with their span |
| `EndpointRuns.MapTwoHalves` | val/src/val_memory.c:383-386 | Mapping a region in each half always ends in that state; from zeroed tables the two regions are mapped and nothing else is if and only if one is the mirror image of the other, with the same output addresses and attributes |
| `EndpointRuns.MappedMirrors` | val/src/val_memory.c:383-386 | Where translation repeats, two regions in different halves that are mapped alone are mirror images |
| `EndpointRuns.MirrorMaps` | val/src/val_memory.c:383-386 | A level-1 table that holds one range shows it in both halves and nothing else |
| `EndpointMapping.WholeRegionMapped` | val/src/val_memory.c:115-117 | Every byte asked for is mapped if and only if the length is not one more than a multiple of the page |
| `EndpointRuns.WholeHalfIsIllegal` | val/src/val_memory.c:163-177 | The first 2^39 bytes with the 4KB granule are such a region |
| `Descriptor.PageRoundTrip` | val/src/val_memory.c:148-150 | A page word decodes to its address and attributes |
| `Descriptor.PageRoundTripOnly` | val/src/val_memory.c:148-150 | It does so only for an aligned address that fits and attributes inside their fields |
| `Descriptor.BlockRoundTrip` | val/src/val_memory.c:168-170 | A block word decodes to its address and attributes, and would be replaced by line 184 |
| `Descriptor.TableFollowed` | val/src/val_memory.c:184-394 | A table word is followed and never reallocated |
| `Descriptor.TableRoundTrip` | val/src/val_memory.c:388-394 | The table address is recovered if and only if it is aligned and fits |
| `Descriptor.AllocatesIff` | val/src/val_memory.c:184-184 | Line 184 allocates exactly for words that do not lead to a table |
| `HeapBlocks.SplitOrdered` | val/src/val_malloc.c:205-221 | Splitting keeps blocks address-ordered, aligned, disjoint and inside the heap |
| `HeapBlocks.SplitTotal` | val/src/val_malloc.c:205-221 | Splitting conserves header and payload bytes |
| `HeapBlocks.MergeTotal` | val/src/val_malloc.c:132-155 | So does merging |
| `HeapBlocks.ForwardOnce` | val/src/val_malloc.c:132-141 | In a heap without free neighbours the forward loop merges at most once and leaves a used successor |
| `HeapBlocks.BackwardOnce` | val/src/val_malloc.c:144-155 | Likewise backward, and then no two neighbours are free |
| `HeapBlocks.CoalesceHeap` | val/src/val_malloc.c:127-158 | Coalescing restores the heap invariant and conserves every byte |
| `HeapBlocks.CoalesceKeeps` | val/src/val_malloc.c:127-158 | No other block in use moves or shrinks |
| `HeapBlocks.TakeHeap` | val/src/val_malloc.c:249-255 | Taking a fitting block keeps the invariant and every byte |
| `HeapBlocks.TakeKeeps` | val/src/val_malloc.c:249-255 | Every block in use stays where it is and as large |
| `HeapBlocks.ReleaseHeap` | val/src/val_malloc.c:294-296 | So does giving one back |
| `HeapBlocks.ReleaseKeeps` | val/src/val_malloc.c:294-296 | Freeing one block keeps all the others live in place |
| `HeapBlocks.AllFree` | val/src/val_malloc.c:132-155 | When every block is free there is one block, holding all bytes |
| `HeapBlocks.PayloadsDisjoint` | val/src/val_malloc.c:205-258 | Payloads of different blocks share no byte |
| `HeapBlocks.ShrinkHeap` | val/src/val_malloc.c:369-373 | Shrinking in place keeps the invariant, all bytes, all other live blocks, and the block itself at its address |
| `HeapBlocks.GrowHeap` | val/src/val_malloc.c:375-388 | Growing into free neighbours gives a block of the requested size and keeps the rest |
| `HeapMemory.SplitLaid` | val/src/val_malloc.c:205-221 | The header writes of val_split leave memory holding exactly the split list, doubly linked |
| `HeapMemory.SplitPayloads` | val/src/val_malloc.c:205-221 | They touch no payload byte of that list |
| `HeapMemory.MergeLaid` | val/src/val_malloc.c:132-155 | The header writes of one merge leave the merged list in memory and mark the absorbed header invalid |
| `HeapMemory.MergePayloads` | val/src/val_malloc.c:132-155 | They touch no payload byte |
| `HeapMemory.PayloadWrite` | val/src/val_malloc.c:239-258 | A client writing only inside its own payload disturbs neither the list nor any other payload |
| `HeapAligned.AlignedHeap` | val/src/val_malloc.c:438-461 | An aligned request returns an aligned block of exactly the size, keeps the invariant, and accounts for every byte with at most 40 discarded |
| `HeapAligned.AlignedKeeps` | val/src/val_malloc.c:450-461 | Every block in use stays live in place |
| `HeapAligned.PointerListedIff` | val/src/val_malloc.c:449-462 | The returned pointer is the payload of a list block if and only if the gap is zero or at least a header |
| `HeapAligned.LeadFailsIff` | val/src/val_malloc.c:452-455 | The leading split fails if and only if the request is empty and the gap fills the block |
| `HeapAligned.LeadRunsOver` | val/src/val_malloc.c:452-461 | Then the next block is taken: there is none, or it is in use and ends up with no byte, so its client's pointer is no longer live |
| `HeapLists.TakeIs` | val/src/val_malloc.c:205-255 | The list after a block is taken: its first bytes in use, a remainder of 40 bytes or more as a free block behind |
| `HeapLists.CoalesceIs` | val/src/val_malloc.c:127-158 | Both loops together turn a block and its free neighbours into one block, whose size is written out |
| `HeapLists.ReleaseIs` | val/src/val_malloc.c:294-296 | The list after val_free, written out |
| `HeapLists.ReallocatesIs` | val/src/val_malloc.c:349-399 | The list after val_realloc, written out: in place, over either free neighbour that makes up the size, or in the first free block that has it, in this order |
| `HeapLists.SwallowsIff` | val/src/val_malloc.c:369-373 | A resize in place changes another block in use if and only if nothing is split off and that block is the next one with a free block behind it |
| `HeapLists.AlignedTakeIs` | val/src/val_malloc.c:450-461 | The list after val_aligned_alloc, written out |
| `HeapLists.RoomIff` | val/src/val_malloc.c:440-447 | A block holds an aligned request if and only if the bytes from the first aligned address after its header on suffice |
| `HeapUsed.UsedTake` | val/src/val_malloc.c:249-255 | Taking a block adds exactly its payload address to those in use |
| `HeapUsed.UsedRelease` | val/src/val_malloc.c:294-296 | Freeing one removes exactly its own, whichever merges follow |
| `HeapUsed.UsedRealloc` | val/src/val_malloc.c:349-399 | Resizing exchanges exactly the old address for the new one, on every path |
| `HeapUsed.UsedAligned` | val/src/val_malloc.c:438-461 | An aligned request adds exactly the aligned address |
| `HeapRuns.AllocateStep` | val/src/val_malloc.c:239-326 | A new pointer was owned by nobody before, every owned pointer stays live with the size asked for, and the blocks in use are exactly those owned |
| `HeapRuns.ReallocateStep` | val/src/val_malloc.c:349-399 | The same for a resized block: its new address is its old one or nobody's |
| `HeapRuns.AlignStep` | val/src/val_malloc.c:424-466 | The same for an aligned one, whose address is aligned; at most 40 bytes are lost |
| `HeapRuns.InvStep` | val/src/val_malloc.c:239-466 | Every successful call keeps all of this; only aligned calls lose bytes, at most 40 each |
| `HeapRuns.EveryRun` | val/src/val_malloc.c:127-466 | In every state of every run of any clients: every owned pointer is live with the bytes asked for (less only where rounding them up wraps, see `Allocator.RequestServed`), aligned and inside the heap; two owned ranges never overlap; all bytes are accounted for and no two free blocks are neighbours; with nothing owned a single free block is left |
| `HeapRuns.LossBound` | val/src/val_malloc.c:456-461 | The bytes lost over a run are bounded by 40 times its aligned calls |
| `MemCopy.Memmove` | val/src/val_misc.c:141-159 | The destination ends up with the original source bytes, however the two overlap; nothing else changes |
| `MemCopy.Memcpy` | platform/common/src/pal_libc.c:34-45 | The same for ranges that do not overlap |
| `MemCopy.Memset` | platform/common/src/pal_libc.c:47-57 | Exactly the given bytes are set |
| `Allocator.Heap.constructor` | val/src/val_malloc.c:29-30 | The heap before its first use stands for the initial state of every run |
| `Allocator.Heap.Init` | val/src/val_malloc.c:50-60 | One free block over the whole buffer, linked in memory |
| `Allocator.Heap.CoalesceAt` | val/src/val_malloc.c:127-158 | The two in-place loops carry out the list's coalescing, return the surviving block, and keep every live payload |
| `Allocator.Heap.SplitBlock` | val/src/val_malloc.c:205-221 | In place, the list becomes the split list and no payload byte changes |
| `Allocator.Heap.FirstFit` | val/src/val_malloc.c:249-257 | The search takes the first block that fits, or answers NULL with nothing changed exactly when none fits |
| `Allocator.Heap.Malloc` | val/src/val_malloc.c:239-258 | NULL exactly when every free block is smaller than the size rounded up to eight; otherwise the first that is not, split at that size if 40 bytes or more remain, with every live payload unchanged and the pointer owned: one Allocate step of a run |
| `Allocator.Heap.FreePointer` | val/src/val_malloc.c:277-297 | Succeeds exactly for a header that is valid and in use; then the block and its free neighbours are one free block, its header no longer passes the checks, and every live payload is unchanged: one Free step of a run |
| `Allocator.Heap.FreeTwice` | val/src/val_malloc.c:277-297 | A repeated free fails and changes nothing, whichever merges the first one did |
| `Allocator.Heap.Calloc` | val/src/val_malloc.c:314-326 | As Malloc for the product in 64 bits, with the payload zeroed and no other payload touched; one Allocate step of a run |
| `Allocator.Heap.ReallocShrink` | val/src/val_malloc.c:369-373 | In place: the kept bytes and all other payloads are unchanged |
| `Allocator.Heap.ReallocGrow` | val/src/val_malloc.c:375-388 | Into either neighbour: the old bytes arrive at the new address although the move may overlap, and other payloads are unchanged |
| `Allocator.Heap.ReallocCopy` | val/src/val_malloc.c:391-398 | To another block: the same, and NULL with nothing changed exactly when none fits |
| `Allocator.Heap.Realloc` | val/src/val_malloc.c:349-399 | All paths, on the list alone: in place if the block has the bytes; at the previous block's address if that is free and either neighbour makes up the size, else at its own; else in the first free block of the size; NULL with nothing changed only if none of these is possible. The first min(old, new) bytes arrive, and every other live payload is unchanged; as malloc for NULL and as free for size 0; one step of a run |
| `Allocator.Heap.TakeAligned` | val/src/val_malloc.c:450-461 | In place, the list becomes the aligned one and other payloads are unchanged |
| `Allocator.Heap.AlignedAlloc` | val/src/val_malloc.c:424-466 | A bad alignment or size is refused with nothing changed; otherwise NULL exactly when no free block has the bytes from its first aligned address on, else that address in the first one that has, with the list written out, with every live payload unchanged and at most 40 bytes lost; one Align step of a run |
| `Allocator.RequestServed` | val/src/val_malloc.c:17-17 | The rounded size covers the request if and only if rounding does not pass 2^64 |
| `Allocator.CallocServed` | val/src/val_malloc.c:319-320 | The allocated size covers the product if and only if the product, rounded, fits 64 bits |
| `Allocator.NullSuccessorIff` | val/src/val_malloc.c:369-371 | The successor handed to val_coalesce is NULL if and only if the block is the last one and is not split |
| `Allocator.WholeHeapResized` | val/src/val_malloc.c:369-371 | That happens for a block holding the whole heap, resized to the size it has |
| `Allocator.SwallowedHeap` | val/src/val_malloc.c:369-373 | On a fresh heap, val_malloc(64) twice and val_realloc of the first block to 64 leave no free block |
| `Allocator.NeedsIff` | val/src/val_malloc.c:440-447 | The size test tells whether the block has room for gap and request if and only if the sum they need stays below 2^64 or wraps to more than the block has |
| `Allocator.NeedsWraps` | val/src/val_malloc.c:440-447 | For a request of 2^64 - 32 bytes every free block passes the test |
| `Allocator.AlignedAfterSmall` | val/src/val_malloc.c:449-462 | After val_malloc(8), val_aligned_alloc(16, 16) returns a pointer to no block |
| `Allocator.EmptyRequestNull` | val/src/val_malloc.c:452-457 | On a page-aligned heap, val_malloc(523200) and then val_aligned_alloc(4096, 0) reaches the last block with a gap that fills it; the next block is NULL |
| `Allocator.EmptyRequestCuts` | val/src/val_malloc.c:452-461 | With a 64-byte block in use behind a freed one of 1024 bytes, val_aligned_alloc(4096, 0) leaves that block no byte |
| `Allocator.FreedReached` | val/src/val_malloc.c:239-297 | val_malloc of 3008, 1024 and 64 bytes and val_free of the second lead to that heap |
| `CrbMachine.Be32RoundTrip` | val/inc/val_tpm_crb.h:64-84 | Reading a big-endian field undoes writing it, for every 32-bit value |
| `CrbMachine.Be32WriteBack` | val/inc/val_tpm_crb.h:64-84 | Writing back what was read changes no byte |
| `CrbMachine.InvRun` | val/src/val_tpm_crb_service.c:436-671 | In every reachable state a pending request has a registered client, registration implies notification support, LOC_STS says granted for the active locality and no other, and the TPM has executed exactly the commands of the answered buffers that fit |
| `CrbMachine.CommandsConserved` | val/src/val_tpm_crb_service.c:328-403 | Over any run, the buffers answered together with the one still waiting are exactly those of the accepted START(COMMAND) requests, as multisets: none lost, repeated or invented, whatever their size field says |
| `CrbMachine.PendingKeptRun` | val/src/val_tpm_crb_service.c:597-610 | Until its client finishes it, no request or register write changes or drops a pending request, unregistering included |
| `CrbMachine.DeferredRunsSnapshot` | val/src/val_tpm_crb_service.c:525-550 | However the run goes on, finishing answers the bytes that were in the buffer when START was accepted, and gives the TPM exactly the command in them, or nothing if its size field exceeds the buffer |
| `CrbMachine.DeferralEqualsImmediate` | val/src/val_tpm_crb_service.c:493-647 | START put off and then finished ends in the same state with the same status, size and return code as START done at once, for both qualifiers |
| `CrbMachine.FallbackIsUnregistered` | val/src/val_tpm_crb_service.c:505-549 | When the notification cannot be sent, the request is answered as if nobody were registered |
| `CrbMachine.OwnerNext` | val/src/val_tpm_crb_service.c:191-238 | The active locality loses the TPM exactly when its own relinquish is applied, and then nobody has it |
| `CrbMachine.NoTakeover` | val/src/val_tpm_crb_service.c:191-256 | No run takes the TPM from a locality that does not relinquish it, and it alone stays granted |
| `CrbMachine.AbsentRunsIff` | val/src/val_tpm_crb_service.c:379-403 | A step answers a command of a locality that does not hold the TPM if and only if it finishes a deferred command whose locality is not the active one |
| `CrbMachine.AbsentOnlyRelinquished` | val/src/val_tpm_crb_service.c:379-403 | That takes a relinquish of the locality after its command was accepted |
| `CrbMachine.AbsentRun` | val/src/val_tpm_crb_service.c:379-403 | From any state with an eligible command and a registered client: the command is deferred, locality 0 given up, locality 1 granted, and FINISH_NOTIFIED still runs the command of locality 0 |
| `CrbAnswers.CommandAnswered` | val/src/val_tpm_crb_service.c:328-403 | START(COMMAND) of the locality that has the TPM: deferred with a copy of its buffer exactly if its registered client can be notified; else the TPM gets exactly the command's bytes, its response replaces the first bytes of that data buffer and no other byte, CTRL_START is cleared, no other locality changes, and status, size and return code are those of the response; an oversized command or response or a failing TPM changes no register |
| `CrbAnswers.CommandIgnored` | val/src/val_tpm_crb_service.c:342-351 | From any other locality, or without CTRL_START, it is answered with success and does nothing |
| `CrbAnswers.FinishAnswered` | val/src/val_tpm_crb_service.c:379-403 | FINISH_NOTIFIED answers the saved command in the same way, into the buffer of its locality |
| `CrbAnswers.LocalityAnswered` | val/src/val_tpm_crb_service.c:191-256 | START(LOCALITY_REQUEST) clears LOC_CTRL; a request is granted if and only if no other locality has the TPM, a relinquish frees it if the locality has it, and LOC_STS then says whether it does; or the control value is saved |
| `CrbAnswers.FinishDecided` | val/src/val_tpm_crb_service.c:613-654 | FINISH_NOTIFIED decides on the saved control value in the same way |
| `CrbAnswers.OtherAnswers` | val/src/val_tpm_crb_service.c:459-654 | Every other request, with its status, and the state it leaves; registration is accepted exactly for argument 0, an id up to 255, with support and nobody registered |
| `CrbService.WriteRegister` | val/inc/val_tpm_crb.h:87-110 | Registers and buffers of all localities are separate: a register write changes that register and nothing else |
| `CrbService.WriteResponse` | val/src/val_tpm_crb_service.c:75-83 | A response written to one data buffer replaces its first bytes and nothing else |
| `CrbService.Service.constructor` | val/src/val_tpm_crb_service.c:16-30 | The initial globals: no active locality, nobody registered, nothing pending |
| `CrbService.Service.CopyFromMmio` | val/src/val_tpm_crb_service.c:58-66 | The byte loop copies the locality's whole data buffer |
| `CrbService.Service.CopyToMmio` | val/src/val_tpm_crb_service.c:75-83 | The byte loop places the given bytes at the start of that locality's buffer and changes nothing else |
| `CrbService.Service.ExecuteBuffer` | val/src/val_tpm_crb_service.c:110-159 | An oversized command never reaches the TPM; otherwise it sees exactly the command's bytes, and size and return code come from its reply |
| `CrbService.Service.ApplyLocalityRequest` | val/src/val_tpm_crb_service.c:191-238 | In place, what the machine says of a control value |
| `CrbService.Service.StartCommand` | val/src/val_tpm_crb_service.c:328-369 | Carries out the machine's immediate START(COMMAND) |
| `CrbService.Service.Signal` | val/src/val_tpm_crb_service.c:285-319 | Signals exactly for the registered client and service with nothing outstanding, and marks the notification outstanding exactly then |
| `CrbService.Service.DeferLocality` | val/src/val_tpm_crb_service.c:500-516 | Saving, signalling and rolling back carry out either the deferred or the immediate request, nothing in between |
| `CrbService.Service.DeferCommand` | val/src/val_tpm_crb_service.c:531-549 | The same for a command and its snapshot |
| `CrbService.Service.Start` | val/src/val_tpm_crb_service.c:486-560 | The START branch carries out the machine's START |
| `CrbService.Service.Register` | val/src/val_tpm_crb_service.c:562-589 | Registration as the machine has it, with its four refusals |
| `CrbService.Service.Unregister` | val/src/val_tpm_crb_service.c:591-611 | Unregistration as the machine has it; refused while a notification is outstanding |
| `CrbService.Service.Finish` | val/src/val_tpm_crb_service.c:613-654 | Finishing as the machine has it; the fallback branch is proved unreachable |
| `CrbService.Service.HandleRequest` | val/src/val_tpm_crb_service.c:436-671 | The whole dispatcher carries out one machine request, decoded from the message, and answers with its status, value and return code, with the sender and receiver of the request swapped and in its width; outstanding holds exactly while one request is saved, never two |
| `CrbService.Service.ClientWrite` | val/inc/val_tpm_crb.h:113-131 | A client's own write between requests is the machine's write step |
| `Event.Reachable` | val/src/val_shemaphore.c:12-117 | In every state of every interleaving: the lock is held by the one CPU in a critical section; a CPU that will sleep while the count is positive has its register set or a sender has yet to signal; all tokens are accounted for |
| `Event.WakeupNext` | val/src/val_shemaphore.c:77-114 | No step of any CPU loses a wake-up |
| `Event.TokensExactIff` | val/src/val_shemaphore.c:44-113 | Counted from the run itself: the tokens asked for in all calls are in the count, in a send that has yet to add them, or taken by a wait that returned or is about to, one each, if and only if no send found count plus increment at 2^32 or more; in particular while fewer than 2^32 were asked for |
| `Event.CountsRun` | val/src/val_shemaphore.c:42-113 | The waits that left val_wait_for_event and the tokens of the sends called, counted over every step of every CPU, are the recorded ones |
| `Event.NoWrapsIff` | val/src/val_shemaphore.c:44-46 | Nothing has been dropped if and only if no step of the run overflowed |
| `Event.OverflowRun` | val/src/val_shemaphore.c:44-46 | Sending 2^32 - 1 tokens and one more leaves a count of zero |
| `Event.NeverStuck` | val/src/val_shemaphore.c:82-114 | While a token is left and somebody waits, some CPU in the middle of an operation has a step that gets it further |
| `Event.WaiterFinishes` | val/src/val_shemaphore.c:82-114 | Once all sends have signalled, a sleeping CPU completes its wait by itself and takes one token |
| `RegionDescriptor.FieldRoundTrip` | val/inc/val_ffa_helpers.h:90-132 | Each bit-field setter is read back by its getter, cut down to the field, and leaves the other fields alone |
| `RegionDescriptor.AttributesDecode` | val/src/val_ffa_helpers.c:131-138 | The two bytes are the requested fields at their bit positions, with NS zero, and decode to them |
| `RegionDescriptor.WriteHeader` | val/src/val_ffa_helpers.c:18-41 | Every header field of the version's layout has its value; the receiver count and the rest of the buffer are untouched |
| `RegionDescriptor.WriteAccess` | val/src/val_ffa_helpers.c:141-156 | One access descriptor names its receiver, permissions, flags and implementation-defined words; nothing outside it changes |
| `RegionDescriptor.WriteOffsets` | val/src/val_ffa_helpers.c:165-182 | Every receiver points to the one composite descriptor |
| `RegionDescriptor.WriteComposite` | val/src/val_ffa_helpers.c:184-212 | The page count is the sum over all constituents modulo 2^32, and the copied constituents follow in order |
| `RegionDescriptor.FragmentFitsIff` | val/src/val_ffa_helpers.c:190-201 | The fragment fits the buffer if and only if the buffer reaches the constituents |
| `RegionDescriptor.MostCopiedIff` | val/src/val_ffa_helpers.c:193-201 | As many constituents are copied as fit if and only if the room is below 2^36 bytes or 32 bits keep enough of the number that fits |
| `RegionDescriptor.PagesSum` | val/src/val_ffa_helpers.c:210-211 | The page count is the sum over all constituents |
| `RegionDescriptor.LengthsExactIff` | val/src/val_ffa_helpers.c:214-223 | Total minus fragment length is the size of the remaining constituents if and only if the total fits 32 bits |
| `RegionDescriptor.MemoryRegionInit` | val/src/val_ffa_helpers.c:111-224 | The built buffer says everything requested, for one or many receivers; no constituent remains if and only if all fit, and one more than were copied would not fit, for room below 2^36 bytes; both lengths are written out |
| `RegionDescriptor.RetrieveRequestInit` | val/src/val_ffa_helpers.c:234-302 | The same prologue with the handle and zero offsets; a v1.0 build with several receivers leaves their count and the id, permission and flag bytes of each as they were, and the request is right if and only if the buffer held them before |
| `RegionDescriptor.ZeroedLacks` | val/src/val_ffa_helpers.c:265-293 | A zeroed buffer never holds them |
| `RegionDescriptor.PrologueRead` | val/inc/val_ffa_helpers.h:500-514 | Whichever receiver reads the prologue of a send or retrieve request finds every header field, itself, its permissions, flags and implementation-defined words, and the composite offset |
| `RegionDescriptor.ReaderRecovers` | val/inc/val_ffa_helpers.h:500-514 | Whichever receiver reads the buffer, knowing only the version, finds that, the page count and exactly the copied constituents |
| `EndpointSync.RowRoundTrip` | val/src/val_framework.c:638-648 | The eight words of a row determine every field of it |
| `EndpointSync.Partition.Receive` | val/src/val_framework.c:675-759 | The first message is held, the second completes the row named by the first; no other row changes |
| `EndpointSync.Deliver` | val/src/val_framework.c:623-652 | A message reaches the partition of its receiver id and no other |
| `EndpointSync.SendRow` | val/src/val_framework.c:623-652 | Two messages to the endpoint of a row replace exactly one row of its table by the sender's |
| `EndpointSync.SendTable` | val/src/val_framework.c:621-661 | The inner loop replaces rows 1..count and nothing else |
| `EndpointSync.SendSync` | val/src/val_framework.c:593-663 | Exactly the partitions that some present row names hold the dispatcher's rows, even if several rows name one; all others are untouched, and all are ready for the next request |
| `EndpointSync.Parse` | val/src/val_ffa_helpers.c:391-409 | Each descriptor of the receive buffer is copied to its slot and filled up with zeros |
| `EndpointSync.ParsedInfo` | val/src/val_ffa_helpers.c:391-409 | For each of the three descriptor sizes the parsed members are those of the descriptor, with a nil UUID for v1.0 |
| `EndpointSync.DiscoverRow` | val/src/val_framework.c:531-560 | A row is taken from the first descriptor that matches it, or marked absent |
| `EndpointSync.PresentIff` | val/src/val_framework.c:531-560 | A row is marked present if and only if some descriptor matches it |
| `EndpointSync.Discover` | val/src/val_framework.c:528-561 | Every secure row is so treated, and no other row changes |
| `EndpointSync.OutcomeIs` | val/src/val_framework.c:528-561 | A row is absent if no descriptor in the buffer has its id, or with the TPM service built in its UUID, which is not nil; else present and, in that build, with id and execution contexts from the bytes of the first such descriptor; nothing else of it changes |
| `EndpointSync.Relay` | val/src/val_framework.c:500-561 | From the bytes of the receive buffer: each secure row is so treated, no other row changes, and nothing changes if the descriptor size is not a known one |
| `EndpointSync.SynchroniseEndpoints` | val/src/val_framework.c:500-663 | From the receive buffer to the partitions: every secure row is as the descriptors' bytes say, and the endpoint of every present row has exactly the dispatcher's rows 1 to count replaced, every other partition none |

## Left out

- `val_setup_mmu`, `val_mem_map_pgt`, address normalisation, cache and TLB maintenance: they program hardware or forward to the modelled calls.
- EndpointMapping.PgtCreate: requires a region that ends inside the 40-bit input space, lies under one root descriptor, and is not the empty region at address 0 (whose last address would be 2^64 - 1); what the code does with other regions is not modelled.
- PageTableBuilder.Builder.NextTable: each static table is taken to be as large as one table of the granule in use and aligned to it, and a stale table descriptor is followed by table number instead of by address. The tables of `val/src/aarch64/val_vtable.S` (lines 188-200) are aligned to 4KB, line 394 masks a table's address and line 399 goes on with the unmasked one, so the results for 16KB and 64KB granules hold only where `Descriptor.TableRoundTrip`'s condition does.
- The error returns of lines 104-137 of `val_memory.c` are not branches of the model; GuardsPass shows that they are never taken.
- Allocator.Heap.FreePointer: a pointer whose header passes both checks must be one the heap handed out; forged headers are not modelled.
- Allocator.Heap.Realloc: requires a pointer that is in use and, when shrinking, a successor block, because line 371 dereferences it.
- Allocator.Heap.AlignedAlloc: requires that the size test is right for every free block and that the first block found has no gap or one that becomes a block; the lemmas named above show the failure otherwise.
- Allocator.Heap.Calloc: requires that the product in 64 bits is not within 8 bytes of 2^64, where rounding up gives 0 and the memset would run over.
- Allocator.Heap.AlignedAlloc: the mask of ALIGN_TO is written as rounding up to a multiple, and the bit test as "is a power of two".
- Byte-wise layout of a block header: a multi-byte field is kept in its first cell.
- `val_malloclib_visualize`, string helpers and logging: output only.
- The bits of the notification message: the service accepts ids up to 255, while the shift at line 300 is defined below 64 only.
- `val_tpm_crb_service_is_request`, NULL payloads and the TPM backend itself.
- Whether the TPM partition supports notifications is fixed for the life of the service, and LOC_STS starts as zero.
- Cache maintenance, barriers and the exclusive-access loop of the spinlock: the lock is one atomic step, and its WFE may clear the waiting CPU's event register.
- Fairness and time: that a CPU which can move eventually does is not claimed.
- The Linux build of the event, in which the lock and WFE are compiled out.
- RegionDescriptor.MemoryRegionInit: requires at least one receiver and a buffer that reaches the constituents; with none, the code reads an offset that it never wrote.
- The check of `multi_share` against the receiver count only logs, and FFA_MEM_RELINQUISH descriptors are simple stores.
- EndpointSync.SendSync: requires that every present row names an id of the network and that different ids are different partitions; a failed send stops the suite.
- EndpointSync.Relay: requires a descriptor size of at most 48 bytes and a receive buffer that holds all descriptors; the size is checked only after parsing.
- Services of the responder loop other than the endpoint-table one, and the test scripts themselves.
