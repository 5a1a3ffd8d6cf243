# Verified models of the psys kernel

psys is a small teaching kernel for 32-bit i386 with a dlmalloc heap, a preemptive process scheduler with
semaphores, a GDB stub and a little C library. This project models the parts of it that are hardest to get right
and proves what they are for. `dafny verify dfyconfig.toml` checks everything; no part of it relies on an
assumption.

| files | what they model |
|---|---|
| `heap_sizes`, `heap_binmap`, `heap_layout`, `heap_release`, `heap_lists`, `heap_links`, `heap` | the boundary-tag allocator of `shared/malloc.c.h`: size words, footers, flag bits and list links in memory, fastbins, the unsorted queue, small and large bins, the bin bitmap, top, sbrk |
| `heap_program` | the guard-word wrapper `mem_alloc`/`mem_free` and whole programs that allocate, store and release |
| `kernel_queue`, `kernel_table`, `kernel_exit`, `kernel`, `kernel_turns`, `kernel_run`, `kernel_witness`, `kernel_list` | ready queue, process table, exit/kill/waitpid, scheduler, clock, semaphores, rotation among equals, whole runs of the machine, runs that reach its failures, and the linked list underneath |
| `philosophers`, `bounded_buffer` | the two semaphore protocols of `user/test.c`, over every interleaving |
| `div64`, `numerals`, `literals`, `memmem` | 64-bit division and multiplication, number printing against number reading with the base given or left to be found, substring search |
| `gdb_packet`, `gdb_memory` | packets of the GDB stub and its page-by-page memory copies |
| `arith`, `sequences` | helper facts |

How the models are built:

- The heap is a class over a word-addressed memory. A ghost map gives the chunks; `Laid` ties it to the size
  words, PREV_INUSE bits and footers, `Rings` and `Chains` tie the lists to the stored links, `MapSound` to the
  bitmap. The code reads and writes memory only; the lists are ghost. A block of the program is a
  chunk in use that no fastbin holds. `SameBlocks` says that blocks keep their extent and every byte.
- The kernel is a class whose methods are the atomic steps (system calls run with interrupts off). A call that
  blocks is split at `scheduler()` into a step that blocks and a step that resumes, and the descriptor records
  where the process will go on. Ghost state numbers the incarnations of reused pids and records which value each
  one left behind and which were delivered; each descriptor also carries how the waits of its incarnation ended.
  The number of process slots and of semaphores are parameters.
- The semaphore protocols are state machines over program counters, with any number of participants.
- Machine arithmetic is written out: 32-bit wrap-around, signed reinterpretation, the trap of `divl`.

Results that a reader of the code might not expect:

- `kill` keeps the kernel invariant if and only if its victim is not asleep on a semaphore and the father of the
  victim is not blocked in `waitpid(-1)` (`Kernel.Machine.Kill`); `KernelWitness.KillSleeper` and
  `KernelWitness.KillAwaited` reach both failures from boot.
- Init, once blocked in `waitpid`, stays there for the rest of every run (`KernelRun.Run`), since exit and kill only
  wake fathers with a pid above 1 and children of Init never become zombies. It blocks exactly when it has a child
  to wait for (`Kernel.Machine.Waitpid`), and `KernelWitness.InitBlocked` gets there from boot.
- `wait` also returns -3 for a signalled wait when an earlier wait of the same incarnation was ended by `sdelete`
  (`Kernel.Machine.ResumeWait`, reached by `KernelWitness.SignalledButDeleted`). Its error -2 cannot occur.
- `scount` is right if and only if the counter is at least -256 (`Kernel.Machine.SemCount`), which 20 process slots
  guarantee.
- `sYSTRIm` never gives memory back, because this `sbrk` refuses negative amounts (`Heap.Allocator.Trim`).
- `do_div64` traps if and only if the divisor is at least 2^32 and its top 32 significant bits are all ones
  (`Div64.DoDiv64`).
- A positive number printed with a plus sign reads back as 0 (`Numerals.SignedReadBack`); every other number reads
  back, also the most negative one.
- A run of four equal bytes with equal digits is sent with the count character `$`, which the protocol reserves
  (`GdbPacket.DollarCount`).
- The X command takes the announced number of data bytes as the number of characters to read, so data that
  contain a quoted byte never arrive whole (`GdbPacket.AnnouncedLength`, `GdbPacket.LostHash`).
- `memmem` reports an empty needle as not found (`Memmem.Search`).
- With the flags `-` and `0` together, `_doprnt` pads with zeros on the left, unlike the C standard
  (`Numerals.ZerosBeatLeft`).
- A packet that fills the buffer without its `#` is accepted if its checksum happens to be 255
  (`GdbPacket.AcceptedWhen`).
- A free chunk of the smallest size in its large bin is put last, so that among chunks of that size the newest is
  taken first, although ties are documented to go to the least recently used (`Heap.Allocator.SortedPosition`).

## Model

| member | source | states |
|---|---|---|
| `HeapSizes.Request2Size` | shared/malloc.c.h:1997-2009 | a normalized size is a multiple of 8, at least MINSIZE, leaves room for the request and one word, and is the least such size |
| `HeapSizes.RetrySameSize` | shared/malloc.c.h:2917-2921 | the retry of sYSMALLOc asks for nb - 7 bytes and is normalized to nb again |
| `HeapSizes.LargeGroup` | shared/malloc.c.h:2188-2222 | within a power-of-two group the index of a large bin counts quarter steps of that group |
| `HeapSizes.BinIndexMonotone` | shared/malloc.c.h:2179-2225 | the bin index is monotone in the size, stays in 2..NBINS-1, and is a small bin exactly for small sizes |
| `HeapSizes.LaterBinIsLarger` | shared/malloc.c.h:2179-2225 | every chunk of a later bin is strictly larger, which makes the first chunk of a later bin big enough |
| `HeapSizes.SmallBinHoldsOneSize` | shared/malloc.c.h:2179-2182 | aligned sizes that share a small bin are equal |
| `HeapSizes.BranchFreeLog2IsHighestBit` | shared/malloc.c.h:2202-2217 | the branch-free variant finds the highest set bit of every 16-bit number, as `bsrl` does |
| `BinMap.TestSetBit` | shared/malloc.c.h:2300-2305 | setting a bit changes that bit and no other |
| `BinMap.TestClearBit` | shared/malloc.c.h:2300-2305 | clearing a bit changes that bit and no other |
| `BinMap.MarkCorrect` | shared/malloc.c.h:2303-2303 | `mark_bin` marks bin i and no other bin |
| `BinMap.UnmarkCorrect` | shared/malloc.c.h:3646-3648 | the write-through of a false alarm unmarks bin i and no other bin |
| `BinMap.NoBitAbove` | shared/malloc.c.h:3625-3625 | the test `bit > map` means that no bin at or above this one is marked in the word |
| `BinMap.SomeBitAbove` | shared/malloc.c.h:3635-3640 | otherwise some bit at or above is set, so the advance loop ends inside the word |
| `BinMap.SkipWords` | shared/malloc.c.h:3624-3633 | skipping words passes over no marked bin and stops at a non-zero word or past the map |
| `BinMap.AdvanceToBit` | shared/malloc.c.h:3635-3640 | the advance loop stops at the first set bit at or above the current one |
| `HeapLayout.LowerNeighbour` | shared/malloc.c.h:2567-2616 | the tiling has no gap: every chunk but the first starts where another ends |
| `HeapLayout.ReadTag` | shared/malloc.c.h:2020-2040 | the size word decodes to the size of the chunk, and a clear PREV_INUSE bit leads through the footer to the free chunk below |
| `HeapLayout.ReadInuse` | shared/malloc.c.h:2053-2067 | a chunk is in use exactly when the chunk above it has PREV_INUSE set |
| `HeapLayout.FreeHead` | shared/malloc.c.h:2618-2656 | a free chunk always has an in-use lower neighbour |
| `HeapLayout.FuseTiled` | shared/malloc.c.h:3789-3836 | replacing adjacent chunks by one keeps the tiling of the heap |
| `HeapLayout.SplitTiled` | shared/malloc.c.h:3592-3601 | cutting a chunk in two keeps the tiling of the heap |
| `HeapLayout.LinkWrite` | shared/malloc.c.h:2149-2154 | writing the link words of a free chunk disturbs no tag and no block of the program |
| `HeapLayout.Exhaust` | shared/malloc.c.h:3586-3590 | setting the bit above a free chunk makes exactly that chunk used and keeps layout and payloads |
| `HeapLayout.CarveFree` | shared/malloc.c.h:3592-3601 | splitting a free chunk yields one used chunk of the asked size and one free remainder; all other blocks keep extent and contents |
| `HeapLayout.CarveTop` | shared/malloc.c.h:3710-3718 | splitting top does the same with a smaller top |
| `HeapLayout.ExtendTop` | shared/malloc.c.h:3098-3100 | growing top in place keeps the layout, the free chunks and every block |
| `HeapRelease.ReleaseCoalesced` | shared/malloc.c.h:3782-3824 | after a release no free chunk borders another one or top |
| `HeapRelease.ReleaseTags` | shared/malloc.c.h:3782-3824 | after a release every size word, PREV_INUSE bit and footer agrees with the chunks |
| `HeapRelease.Release` | shared/malloc.c.h:3782-3824 | releasing a chunk fuses it with its free neighbours; exactly that chunk leaves the used ones, all others keep extent and contents |
| `HeapRelease.ReleaseIntoTop` | shared/malloc.c.h:3831-3836 | the same for a chunk that borders top |
| `HeapLayout.BlocksDisjoint` | shared/malloc.c.h:1991-2009 | payloads of distinct used chunks never overlap and lie inside the heap |
| `HeapLayout.PayloadWrite` | shared/malloc.c.h:2567-2616 | a program that writes inside its own block disturbs no tag and no other block |
| `HeapLayout.Walk` | shared/malloc.c.h:2756-2868 | conservation: following the sizes from the base visits every chunk once and the sizes add up to the memory obtained |
| `HeapLists.UnlinkBinned` | shared/malloc.c.h:2149-2154 | the list side of unlink: every free chunk stays in exactly one list, large bins sorted (the memory side is `HeapLinks.UnlinkRings`) |
| `HeapLists.InsertBinned` | shared/malloc.c.h:3532-3564 | the list side of an insertion at a position that respects the order (the memory side is `HeapLinks.InsertRings`) |
| `HeapLists.LastIsSmallest` | shared/malloc.c.h:3532-3564 | the last chunk of a bin is a smallest one of that bin |
| `HeapLists.FitsOnlyFrom` | shared/malloc.c.h:3607-3622 | once the own bin has nothing, a binned chunk fits exactly when its bin comes later |
| `HeapLists.FirstBinIsBestFit` | shared/malloc.c.h:3607-3689 | the last chunk of the first non-empty later bin is a smallest one of all free chunks that fit |
| `HeapLists.NoBinLeft` | shared/malloc.c.h:3607-3633 | if all later bins are empty no free chunk fits |
| `HeapLists.OwnBinBestFit` | shared/malloc.c.h:3576-3605 | scanning the own large bin from its small end, the first fit is a best fit over all bins |
| `HeapLists.FastPop` | shared/malloc.c.h:3429-3436 | the popped chunk leaves every fastbin and becomes one block of the program |
| `HeapLists.FastPush` | shared/malloc.c.h:3761-3780 | a parked chunk is in exactly one fastbin, the one of its size, and is no block of the program any more |
| `HeapLinks.RingWalk` | shared/malloc.c.h:2149-2154 | following the stored fd words from a header visits exactly the chunks of the list and returns, following bk visits them in reverse |
| `HeapLinks.RingRemove` | shared/malloc.c.h:2149-2154 | joining the neighbours of a chunk closes the circle without it |
| `HeapLinks.RingInsert` | shared/malloc.c.h:3561-3564 | the four stores put a chunk between two neighbours of the circle |
| `HeapLinks.UnlinkRings` | shared/malloc.c.h:2149-2154 | unlink with the neighbours read from the chunk itself: its bin is the circle without it, the circles of all other bins stand |
| `HeapLinks.InsertRings` | shared/malloc.c.h:3561-3564 | an insertion does the same for its bin, and the circles of all other bins stand |
| `HeapLinks.OutsideWrite` | shared/malloc.c.h:2567-2616 | size words, footers and everything a program writes in its own block miss all stored links |
| `HeapLinks.JoinLaid` | shared/malloc.c.h:2149-2154 | link stores disturb no tag, and no block but those of the two nodes |
| `HeapLinks.EmptyRings` | shared/malloc.c.h:2496-2500 | headers that point to themselves are empty bins |
| `HeapLinks.ChainWalk` | shared/malloc.c.h:3429-3436 | following the stored fd words of a fastbin visits exactly its chunks and ends in 0 |
| `HeapLinks.ChainPop` | shared/malloc.c.h:3431-3433 | taking the first chunk leaves the chain of the others |
| `HeapLinks.ChainPush` | shared/malloc.c.h:3772-3780 | storing the old head in a chunk makes it the first of the chain |
| `HeapLinks.ChainsFrame` | shared/malloc.c.h:3750-3836 | chains survive whatever keeps the chunks in use |
| `Heap.PagedRequestExact` | shared/malloc.c.h:3017-3047 | rounding to pages in 32 bits with a signed result makes sbrk refuse exactly the requests that do not fit below the limit |
| `Heap.GrantLive` | shared/malloc.c.h:3414-3724 | a chunk granted to a request is one new, aligned block and all earlier blocks stay as they were |
| `Heap.Allocator.Unlink` | shared/malloc.c.h:2149-2154 | the neighbours are read from the chunk and joined; exactly this chunk leaves its list, in memory and in the lists; tags and used blocks are unchanged |
| `Heap.Allocator.Link` | shared/malloc.c.h:2149-2154 | exactly the two link words are stored; tags and all other blocks are unchanged |
| `Heap.Allocator.Thread` | shared/malloc.c.h:3561-3564 | a free chunk joins a bin between two given neighbours, in memory and in the lists |
| `Heap.Allocator.Enqueue` | shared/malloc.c.h:3813-3818 | a free chunk becomes the first of the unsorted queue, in memory and in the lists |
| `Heap.Allocator.ListsInMemory` | shared/malloc.c.h:2756-2868 | at any time following the stored links from a bin header, or from the head of a fastbin, visits exactly the chunks of that list |
| `Heap.Allocator.SortedPosition` | shared/malloc.c.h:3540-3557 | walking the stored links and comparing raw size words finds the neighbours: everything before is larger, everything after is not, except that a chunk of the smallest size of the bin goes last |
| `Heap.Allocator.Place` | shared/malloc.c.h:3530-3564 | the chunk joins exactly the bin of its size, at the front of a small bin and in order in a large one; the bin is marked, no other bin changes |
| `Heap.Allocator.FinishRelease` | shared/malloc.c.h:3796-3824 | below top the fused chunk is queued and tagged, it is exactly the range of the chunk and its free neighbours, and only the released chunk stops being used |
| `Heap.Allocator.RetagReleased` | shared/malloc.c.h:3797-3821 | the three tag stores are those of the layout and miss all links |
| `Heap.Allocator.MergeIntoTop` | shared/malloc.c.h:3831-3836 | at top the released space, with a free chunk below it, becomes part of top |
| `Heap.Allocator.ReleaseChunk` | shared/malloc.c.h:3782-3836 | consolidation in both directions: the chunk and its free neighbours become one chunk, free or top, nothing else is fused, and all other used chunks keep extent and contents |
| `Heap.Allocator.SplitVictim` | shared/malloc.c.h:3592-3601 | splitting a victim grants exactly nb bytes and queues the remainder |
| `Heap.Allocator.Carve` | shared/malloc.c.h:3584-3603 | exhaust or split: at least nb and less than nb + MINSIZE bytes are granted; the rest becomes the last remainder exactly if asked |
| `Heap.Allocator.CarveFromTop` | shared/malloc.c.h:3710-3718 | top gives exactly nb bytes and the break does not move |
| `Heap.Allocator.DrainUnsorted` | shared/malloc.c.h:3486-3565 | either an exact fit or the last remainder is granted, the latter only if no free chunk fits exactly, or the queue is empty and the free chunks are the same ones, now all binned |
| `Heap.Allocator.DrainOne` | shared/malloc.c.h:3486-3565 | the oldest chunk of the queue is taken for an exact fit or as the last remainder, or it is put in its bin and nothing else changes |
| `Heap.Allocator.SearchOwnBin` | shared/malloc.c.h:3576-3605 | a grant is a best fit over all free chunks; no grant means nothing in the own bin fits; the last remainder stays |
| `Heap.Allocator.TakeFrom` | shared/malloc.c.h:3584-3603 | a chunk that fits is unlinked and carved |
| `Heap.Allocator.FirstNonEmpty` | shared/malloc.c.h:3622-3653 | the bitmap-guided loop finds the first non-empty bin from a given one, as a linear scan would |
| `Heap.Allocator.NextMarked` | shared/malloc.c.h:3624-3640 | bins passed over on the way to the next marked one are empty |
| `Heap.Allocator.IsEmpty` | shared/malloc.c.h:3642-3646 | a header whose bk is itself is an empty bin |
| `Heap.Allocator.TakeLast` | shared/malloc.c.h:3655-3688 | the last chunk of that bin is unlinked and carved |
| `Heap.Allocator.SearchBitmap` | shared/malloc.c.h:3607-3689 | the search grants a best fit over all free chunks or proves that none fits; the rest of a chunk split for a small request becomes the last remainder |
| `Heap.Allocator.SearchBins` | shared/malloc.c.h:3576-3689 | both searches together: a best fit or none |
| `Heap.Allocator.Search` | shared/malloc.c.h:3486-3689 | a grant is a smallest free chunk that fits, or for a small request without an exact fit the last remainder; no grant means that no free chunk fits |
| `Heap.Allocator.TakeFast` | shared/malloc.c.h:3429-3436 | a hit if and only if the request is within the limit and its fastbin holds a chunk, and then the first of it becomes one new block; a miss changes nothing |
| `Heap.Allocator.TakeSmall` | shared/malloc.c.h:3446-3459 | the oldest chunk of the small bin, an exact fit, becomes one new block |
| `Heap.Allocator.TakeExact` | shared/malloc.c.h:3450-3457 | a chunk of exactly the right size is unlinked and granted whole |
| `Heap.Allocator.constructor` | shared/malloc.c.h:2488-2515 | the zero-filled state satisfies the invariant with no block, for every start if the area ends on a page boundary, as it does here, and for every 8-aligned start otherwise |
| `Heap.Allocator.InitState` | shared/malloc.c.h:2488-2520 | malloc_init_state makes every bin an empty circle and keeps the invariant |
| `Heap.Allocator.Sbrk` | shared/malloc.c.h:11-18 | the break moves exactly when the amount is not negative and stays below the limit |
| `Heap.Allocator.Trim` | shared/malloc.c.h:3317-3371 | since sbrk refuses negative amounts, trimming never releases anything |
| `Heap.Allocator.ConsolidateBin` | shared/malloc.c.h:3942-3988 | one fastbin is emptied, the blocks of the program are untouched |
| `Heap.Allocator.EmptyFastbins` | shared/malloc.c.h:3939-3989 | the loop over the fastbins empties them all |
| `Heap.Allocator.Consolidate` | shared/malloc.c.h:3900-3995 | all fastbins are emptied, the program keeps all its blocks and their contents, and the flags are updated |
| `Heap.Allocator.FirstExtension` | shared/malloc.c.h:3121-3226 | the first extension skips to an aligned address and makes the rest of the memory obtained one top chunk that ends at the break, page-aligned if the limit allows |
| `Heap.Allocator.FrontPadding` | shared/malloc.c.h:3150-3176 | the front correction leads to the next aligned address and the end correction to the next page boundary |
| `Heap.Allocator.GrowTop` | shared/malloc.c.h:3098-3100 | memory that continues the heap becomes part of top and nothing else changes |
| `Heap.Allocator.Extend` | shared/malloc.c.h:3010-3268 | extension succeeds exactly when the page-rounded amount fits below the limit; afterwards top ends at the break, so sbrk always continues the heap and the fencepost path is never taken; the break moves by that amount, or to the first page boundary of a new heap |
| `Heap.Allocator.SysMalloc` | shared/malloc.c.h:2882-3302 | the mutual recursion with malloc ends; top or the memory behind it is used only if nothing fits and nothing is parked, or else the heap swept of its fastbins is searched; a failure means that memory is exhausted |
| `Heap.Allocator.ExtendAndServe` | shared/malloc.c.h:3010-3302 | with nothing that fits and top too small, the system is asked for more; the block is then the low end of top |
| `Heap.Allocator.ServeFromTop` | shared/malloc.c.h:3281-3295 | top large enough always yields a block, its low end |
| `Heap.Allocator.UseTop` | shared/malloc.c.h:3691-3725 | the request is served from the low end of top or by the system |
| `Heap.Allocator.Malloc` | shared/malloc.c.h:3379-3725 | the invariant is kept; the result is an 8-aligned block of at least the bytes asked and less than MINSIZE more than needed, new and disjoint from all live blocks, whose extents and contents stay. It is the head of the fastbin of that size if that is not empty; otherwise a smallest free chunk that fits, or for a small request without an exact fit the last remainder, or the low end of top if no free chunk fits; with chunks parked this holds in the swept heap for a large request, and for a small one when nothing fits without sweeping. The last remainder changes exactly if a small request splits a free chunk. 0 means out of range, or nothing fits, no fastbin holds anything and sbrk cannot grow top |
| `Heap.Allocator.MallocFromBins` | shared/malloc.c.h:3446-3725 | the same for what follows the fastbins |
| `Heap.Allocator.SearchThenTop` | shared/malloc.c.h:3486-3725 | the same for what follows the small bins and the sweep: free chunks first, top after them |
| `Heap.BestFitIsPicked` | shared/malloc.c.h:3607-3689 | a best fit over the bins is a smallest free chunk that fits |
| `Heap.Allocator.PickedFromQueue` | shared/malloc.c.h:3486-3529 | an exact fit in the queue is a smallest fit; the last remainder, alone in the queue, is taken only if no free chunk fits exactly |
| `Heap.Allocator.FromTop` | shared/malloc.c.h:3691-3725 | if no free chunk fits, the low end of top is the choice |
| `Heap.Allocator.SweptNow` | shared/malloc.c.h:3900-3995 | after a consolidation everything that is no block of the program is free, fused and tiled |
| `Heap.Allocator.FreeFast` | shared/malloc.c.h:3761-3780 | a small block becomes the first of the fastbin of its size; its in-use bit and all other blocks stay |
| `Heap.Allocator.ReleaseLive` | shared/malloc.c.h:3782-3836 | a larger block is fused with its free neighbours and is free or part of top |
| `Heap.Allocator.Free` | shared/malloc.c.h:3732-3883 | the invariant is kept; exactly the freed block leaves the program, all others keep extent and contents. A block up to the limit is parked and no chunk changes; a larger one is fused with its free neighbours; the fastbins are emptied if and only if the fused chunk has 128K or more |
| `Heap.Allocator.FreeLarge` | shared/malloc.c.h:3782-3872 | the same for a block too large for the fastbins |
| `Heap.Allocator.AfterLarge` | shared/malloc.c.h:3851-3870 | the fastbins are emptied, the break does not move, the program keeps its blocks |
| `HeapProgram.WrapIsCaught` | shared/malloc.c.h:5598-5606 | the test `l2 <= length` refuses exactly the lengths for which the 32-bit size computation wraps |
| `HeapProgram.Put` | shared/malloc.c.h:5608-5612 | a store inside a block keeps the heap valid and every other block |
| `HeapProgram.Clear` | shared/malloc.c.h:5613-5613 | clearing zeroes exactly the given words |
| `HeapProgram.WriteGuards` | shared/malloc.c.h:5608-5611 | the four guard words are in place and no other block changes |
| `HeapProgram.Enclose` | shared/malloc.c.h:5608-5613 | the four guard words are in place, all words between them read 0, no other block changes |
| `HeapProgram.MemAlloc` | shared/malloc.c.h:5598-5615 | a new, aligned, zeroed zone between intact guards, or 0 for one of four named reasons |
| `HeapProgram.MemFree` | shared/malloc.c.h:5618-5631 | for every address and length: what does not look like an intact zone of that length is reported and nothing changes; what is one is given back, no length makes it look intact any more, and its words read 0 except two link words and a footer; length 0 does nothing |
| `HeapProgram.WipeStands` | shared/malloc.c.h:5629-5630 | what a release stores misses the inside of the block and is never a front guard |
| `HeapProgram.FreedTwice` | shared/malloc.c.h:5618-5631 | a zone freed twice in a row is reported the second time and the heap is left alone |
| `HeapLinks.TouchTwice` | shared/malloc.c.h:3732-3883 | stores that hit only bin headers and the first four words of chunks, with values below 2^31, do so taken together: the frame of every release |
| `HeapProgram.WrongLengthIsSeen` | shared/malloc.c.h:5625-5628 | an intact zone passes the tests for its own length and for no other |
| `HeapProgram.ZoneFrame` | shared/malloc.c.h:5598-5631 | guards and contents of a zone survive every operation on other blocks |
| `HeapProgram.StepAlloc` | shared/malloc.c.h:5598-5615 | allocation refines adding a zeroed array to a table of separate arrays, or fails for one of the named reasons |
| `HeapProgram.StepStore` | shared/malloc.c.h:5598-5631 | a store refines a store in that array |
| `HeapProgram.StepRelease` | shared/malloc.c.h:5618-5631 | release refines removal, and the guard check never complains |
| `HeapProgram.Step` | shared/malloc.c.h:5598-5631 | each request refines its meaning on separate arrays; an allocation fails only for one of the named reasons |
| `HeapProgram.Run` | shared/malloc.c.h:3379-3883 | every run of allocations, stores and releases equals a run of the reference machine of separate arrays, and zones handed out are new |
| `ProcessQueue.Slot` | kernel/context.c:267-270 | the insertion scan stops at the first element that is not strictly smaller |
| `ProcessQueue.QueueInsert` | kernel/context.c:267-270 | the scanning loop inserts where the specification says |
| `ProcessQueue.QueueAddFifo` | kernel/context.c:267-270 | the queue stays ordered, and whatever leaves before the newcomer is at least as urgent: first in, first out among equals |
| `ProcessQueue.BehindEquals` | kernel/context.c:51-55 | a process that is added stands behind exactly those that are as urgent or more urgent |
| `ProcessQueue.JoinsBehind` | kernel/context.c:267-270 | a newcomer that is not more urgent gets behind p, and nobody gets ahead of p |
| `ProcessQueue.StaysOnlyAbove` | kernel/context.c:43-46 | an active process keeps the processor if and only if it is strictly more urgent than everybody in the queue |
| `ProcessQueue.WaiterMovesUp` | kernel/context.c:39-65 | a queued process that is at least as urgent as the running one runs next if nobody is ahead of it, and moves up by one otherwise |
| `ProcessQueue.JoinKeepsQueue` | kernel/context.c:257-273 | adding a process that becomes runnable keeps the queue exactly the runnable processes, once each, by priority |
| `ProcessQueue.DequeueKeepsQueue` | kernel/context.c:48-49 | taking a process out as it stops being runnable keeps the same |
| `ProcessQueue.UpdateKeepsQueue` | kernel/context.c:22-79 | changes that concern no runnable process keep the same |
| `ProcessQueue.RequeueKeepsQueue` | kernel/sys.c:102-125 | delete and add again under a new priority keeps the same |
| `ProcessTable.AncestryEndsAtInit` | kernel/context.c:181-227 | following parents from any process that still counts leads through live processes to Init, across reuse of pids |
| `ProcessTable.ForestBirth` | kernel/context.c:173-227 | creation keeps child lists exact and parents alive |
| `ProcessTable.ForestDeath` | kernel/sys.c:202-207 | reaping a zombie, or the death of a childless process, keeps the forest |
| `ProcessTable.ForestAdopt` | kernel/sys.c:35-39 | handing a live child to Init keeps the forest |
| `ProcessTable.ForestZombie` | kernel/sys.c:44-49 | becoming a zombie under a live parent other than Init keeps the forest |
| `ProcessTable.SleepersJoin` | kernel/semaphore.c:103-110 | the waiter lists stay exactly the sleeping processes when one goes to sleep |
| `ProcessTable.SleepersLeave` | kernel/semaphore.c:161-167 | the same when one is woken |
| `ProcessTable.CounterBound` | kernel/semaphore.c:97-110 | no counter falls below minus the number of process slots |
| `ProcessTable.Pigeonhole` | kernel/context.h:14-14 | distinct pids from a table of n are at most n |
| `ProcessTable.SwitchKeeps` | kernel/context.c:22-79 | a switch with garbage collection keeps forest, waits, sleepers and values |
| `ProcessTable.LocalKeeps` | kernel/timer.c:25-29 | a process that changes only its own wait keeps all invariants |
| `ProcessTable.BirthKeeps` | kernel/context.c:144-255 | creation in a reused slot keeps all invariants |
| `ProcessTable.ReapKeeps` | kernel/sys.c:202-207 | reaping keeps all invariants and marks the incarnation as delivered |
| `ProcessTable.WakeSleeperKeeps` | kernel/semaphore.c:161-167 | waking a sleeper keeps all invariants |
| `ProcessTable.SleepKeeps` | kernel/semaphore.c:103-110 | going to sleep keeps all invariants |
| `ProcessTable.NoZombieUnderInit` | kernel/sys.c:44-54 | Init never has a zombie child |
| `ProcessTable.InitStaysBlocked` | kernel/sys.c:14-23 | Init inside waitpid is always blocked there |
| `ProcessTable.WokenAgrees` | kernel/semaphore.c:244-253 | after a wake-up the deletion flag is up exactly if some wait of this incarnation was ended by sdelete |
| `ProcessExit.DyingBuries` | kernel/sys.c:31-34 | a zombie child of an ending process dies with it |
| `ProcessExit.DyingAdopts` | kernel/sys.c:35-39 | a live child of an ending process goes to Init |
| `ProcessExit.DyingBecomesZombie` | kernel/sys.c:44-49 | the childless process keeps its value for a father other than Init |
| `ProcessExit.DyingUnderInit` | kernel/sys.c:50-54 | under Init it dies at once and leaves the list of Init |
| `ProcessExit.FatherStillWaits` | kernel/sys.c:14-23 | a father not waiting for this child is unaffected |
| `ProcessExit.FatherWoken` | kernel/sys.c:14-23 | a father woken for this child will find it as a zombie |
| `ProcessExit.WokenIsReady` | kernel/sys.c:283-290 | the father is left in a legal state unless he waits for any child and is not told which |
| `ProcessExit.SwitchSpares` | kernel/sys.c:25-57 | the end of a process changes of another one at most its state, father, children, slot and the child it is told of |
| `ProcessExit.KilledSleeperBreaksCount` | kernel/sys.c:276-278 | raising the counter for a killed sleeper, whose pid stays listed, always breaks the count |
| `ProcessExit.UntoldFatherIsLost` | kernel/sys.c:286-288 | a father woken from waitpid(-1) without a pid is in no legal state |
| `Kernel.Machine.constructor` | kernel/context.c:280-323 | the boot state satisfies the invariant; Init is runnable and alone in the ready queue, every other slot and every semaphore is free |
| `Kernel.Machine.GarbageCollector` | kernel/context.c:359-370 | exactly the dead slots become free |
| `Kernel.Machine.Scheduler` | kernel/context.c:22-79 | an active process keeps the processor if and only if its priority is strictly above that of every runnable one; otherwise the one that came first among the most urgent runs, and the preempted one is queued behind all others of its priority; with nobody runnable 0 runs; nothing else but dead slots changes |
| `Kernel.Machine.Dispatch` | kernel/context.c:43-65 | the head of the queue runs; the rest of the queue stays in order, with the preempted process behind its equals |
| `Kernel.Machine.PutBack` | kernel/context.c:51-55 | the preempted process joins the queue behind its equals |
| `Kernel.Machine.TakeFirst` | kernel/context.c:48-50 | the first of the queue leaves it and becomes active, and nobody left is more urgent |
| `Kernel.Machine.Collect` | kernel/context_switch.S:23-24 | the collection at a switch keeps the scheduling discipline |
| `Kernel.Machine.Reschedule` | kernel/context.c:22-79 | a scheduler call keeps the whole invariant, and the processor goes to the one whose turn it is |
| `Kernel.Machine.Wakeup` | kernel/context.c:257-273 | a valid process becomes runnable and joins the queue behind its equals, any other pid gives -1 |
| `Kernel.Machine.WaitClock` | kernel/timer.c:25-29 | the caller sleeps until the given tick, the invariant holds and the first of the queue runs |
| `Kernel.Machine.UpdateTimer` | kernel/timer.c:33-42 | exactly the sleepers that are due become runnable, and none of them gets ahead of a process at least as urgent |
| `Kernel.Machine.Tick` | kernel/context_switch.S:46-50 | the tick counter advances in 32 bits; a sleeper goes on if and only if the counter has reached its time; the running process stays only if it is strictly above all runnable ones; a queued process as urgent as it runs now or moves up by one, unless a more urgent sleeper wakes |
| `Kernel.AfterTick` | kernel/context_switch.S:46-50 | the order of the queue across a tick: who is first runs, everybody else moves up by one |
| `KernelTurns.Slice` | kernel/context_switch.S:46-50 | one time slice: of the most urgent processes the first runs and the others move up |
| `KernelTurns.RankWithinEquals` | kernel/context.c:39-65 | ahead of one of the most urgent processes there are only equals |
| `KernelTurns.TurnComes` | kernel/context.c:22-79 | rotation: of k equal, most urgent processes each one runs after fewer than k ticks, whichever sleepers that are not more urgent wake meanwhile |
| `Kernel.Machine.Requeue` | kernel/sys.c:105-120 | a queued process moves behind those of its new priority, the order of the others stays |
| `Kernel.Machine.SetPriority` | kernel/sys.c:102-120 | only the priority changes |
| `Kernel.Machine.Chprio` | kernel/sys.c:75-126 | error codes exactly as specified; otherwise the old priority is returned, the new one is set, a queued process goes behind those of a priority new to it, and the processor goes to the one whose turn it is |
| `Kernel.Machine.Start` | kernel/sys.c:331-349 | -1 exactly for a stack that is too large, lack of memory or no free slot; otherwise the first free slot gets a new incarnation, child of the caller, queued behind its equals, and nothing else but the switch happens |
| `Kernel.Machine.Beget` | kernel/context.c:173-249 | the table with the newborn satisfies the invariant |
| `Kernel.Machine.Enlist` | kernel/context.c:219-247 | the child is put first in the list of its creator and queued |
| `Kernel.Machine.FindZombie` | kernel/sys.c:154-167 | the first zombie of the child list, or 0 if there is none |
| `Kernel.Machine.BlockOnChild` | kernel/sys.c:169-175 | the caller blocks with the child recorded |
| `Kernel.Machine.Reap` | kernel/sys.c:192-207 | the value of the incarnation is delivered once, the zombie dies and leaves the list |
| `Kernel.Machine.Waitpid` | kernel/sys.c:136-259 | it blocks exactly when there is a child to wait for and none to deliver, which for Init is whenever there is a child to wait for; a pid returned was a zombie child of the caller, the first of the list if any child would do, with the value it ended with, not delivered before; error codes otherwise |
| `Kernel.Machine.ResumeWaitpid` | kernel/sys.c:189-206 | a blocked waitpid that goes on delivers such a child, and the one asked for |
| `Kernel.Machine.TreatOrphan` | kernel/sys.c:28-40 | one child of an ending process is buried or adopted |
| `Kernel.Machine.OrphanChildren` | kernel/sys.c:25-42 | afterwards the ending process has no child, and only children, and the list of Init, changed |
| `Kernel.Machine.Retire` | kernel/sys.c:311-326 | the process takes its final state and leaves the queue |
| `Kernel.Machine.BecomeZombie` | kernel/sys.c:44-49 | the value is kept for the father |
| `Kernel.Machine.DieUnderInit` | kernel/sys.c:50-54 | no zombie is left to Init |
| `Kernel.Machine.EndProcess` | kernel/sys.c:292-326 | the common end of exit and kill: the process is a zombie or dead, its value recorded, its children treated |
| `Kernel.Machine.WakeFather` | kernel/sys.c:11-23 | the father is woken exactly when he waits for this child; exit tells him which, kill does not |
| `Kernel.Machine.Exit` | kernel/sys.c:7-60 | the caller ends, as a zombie unless its father is Init, its argument is kept for that father, other processes are spared, all invariants hold |
| `Kernel.Machine.Finish` | kernel/sys.c:11-54 | everything of exit before the switch |
| `Kernel.Machine.RaiseForVictim` | kernel/sys.c:275-278 | the count of the semaphore of the victim is broken exactly when the victim slept on one |
| `Kernel.Machine.Slay` | kernel/sys.c:280-326 | forest, queue and values survive every kill, waits and sleepers every clean one |
| `Kernel.Machine.Kill` | kernel/sys.c:262-329 | -1 exactly for invalid victims; otherwise the victim ends with value 0, and the whole invariant is kept if and only if the victim is not asleep on a semaphore and its father is not blocked in waitpid(-1) |
| `Kernel.AfterKill` | kernel/sys.c:262-329 | waits, waiter lists and counts stand after a kill if and only if it was clean |
| `Kernel.Machine.SemCreate` | kernel/semaphore.c:51-86 | -1 exactly for a negative counter or no free descriptor; otherwise a free one gets the counter and an empty list |
| `Kernel.Machine.SemWait` | kernel/semaphore.c:88-113 | the caller sleeps exactly when no pass is left, last in arrival order, and the first of the queue runs; -2 is never returned |
| `Kernel.Machine.GoToSleep` | kernel/semaphore.c:103-113 | the sleeping caller is recorded in list and descriptor |
| `Kernel.Machine.ResumeWait` | kernel/semaphore.c:115-126 | -4 exactly when sreset ended the wait; -3 exactly when sreset did not and this or an earlier wait of this incarnation was ended by sdelete; 0 otherwise |
| `Kernel.Machine.TryWait` | kernel/semaphore.c:128-142 | a pass is taken exactly when there is one |
| `Kernel.Machine.WakeWaiter` | kernel/semaphore.c:161-167 | one waiter leaves the list and becomes runnable, nothing else changes |
| `Kernel.Machine.Raise` | kernel/semaphore.c:158-167 | one increment wakes exactly the waiter that came first, if there is one |
| `Kernel.Machine.Signal` | kernel/semaphore.c:144-172 | error codes exactly; otherwise the counter rises by one and, if somebody sleeps, exactly the earliest arrival becomes runnable as signalled, behind its equals, and is switched to if it is as urgent as the caller; other semaphores and processes are unchanged |
| `Kernel.Machine.SignalN` | kernel/semaphore.c:174-210 | error codes exactly; otherwise the counter rises by count and exactly the earliest arrivals, one for each count, become runnable as signalled; other semaphores and processes are unchanged |
| `Kernel.Machine.RaiseBy` | kernel/semaphore.c:193-207 | the loop wakes the waiters from the end of the list, one by one |
| `Kernel.Machine.WakeAll` | kernel/semaphore.c:281-288 | exactly the waiters are woken, each marked with the reason |
| `Kernel.Machine.SemReset` | kernel/semaphore.c:266-293 | error codes exactly; otherwise counter set, list empty, exactly the waiters become runnable as reset, other semaphores and processes are unchanged |
| `Kernel.Machine.SemDelete` | kernel/semaphore.c:234-264 | error codes exactly; otherwise the descriptor is free, exactly the waiters become runnable as deleted, other semaphores and processes are unchanged |
| `Kernel.Machine.SemCount` | kernel/semaphore.c:212-232 | the result is the counter modulo 2^16 if and only if the counter is at least -256; with at most 256 process slots it always is |
| `Kernel.PatchedCount` | kernel/semaphore.c:224-228 | the byte patch of a negative counter is right if and only if the counter is at least -256 |
| `Kernel.TopIsMaximal` | kernel/context.c:39-46 | the end of an ordered queue has maximal priority |
| `KernelRun.LogGrows` | kernel/sys.c:136-259 | a step keeps the log: values are those of the calls that ended the incarnations, deliveries are later and distinct |
| `KernelRun.DeliveriesAreTrue` | kernel/sys.c:7-329 | each delivered value is the argument of an earlier exit of this very incarnation, or 0 if it was killed |
| `KernelRun.Perform` | kernel/sys.c:7-349 | every clean call keeps the invariant, accounts for ends and deliveries, and leaves Init where it waits |
| `KernelRun.PerformEnd` | kernel/sys.c:7-60 | exit ends the caller, kill the victim, each with its own value |
| `KernelRun.PerformWaitpid` | kernel/sys.c:136-259 | waitpid delivers at most one incarnation, once |
| `KernelRun.PerformTurn` | kernel/sys.c:75-126 | creation, priorities and time end no process and deliver none |
| `KernelRun.PerformTake` | kernel/semaphore.c:51-142 | nor do the calls that create a semaphore or take a pass |
| `KernelRun.PerformWake` | kernel/semaphore.c:144-293 | nor do the calls that wake others |
| `KernelRun.Resume` | kernel/sys.c:189-206 | a resumed waitpid delivers one incarnation, once |
| `KernelRun.Step` | kernel/context.c:22-79 | every step of the machine, call, resumption or tick, keeps the invariant, accounts for ends and deliveries, and leaves Init where it waits |
| `KernelRun.Run` | kernel/sys.c:7-349 | every run from boot keeps the invariant and the scheduling discipline; no incarnation is delivered twice; each delivered value is the argument of the exit, or the 0 of the kill, that ended this incarnation earlier in the run; Init, once inside waitpid, is there for the rest of the run |
| `KernelWitness.KillSleeper` | kernel/sys.c:275-278 | a run from boot in which a kill of a sleeping process breaks the invariant |
| `KernelWitness.KillAwaited` | kernel/sys.c:283-290 | a run from boot in which a kill leaves a father lost in waitpid(-1) |
| `KernelWitness.SignalledButDeleted` | kernel/semaphore.c:115-122 | a run from boot in which a signalled wait returns -3 |
| `KernelWitness.InitBlocked` | kernel/sys.c:136-175 | a run from boot in which Init waits for a child and is blocked |
| `IntList.List.constructor` | kernel/list.c:23-33 | a new list is empty |
| `IntList.List.IsEmpty` | kernel/list.c:35-39 | true exactly for the empty list |
| `IntList.List.PutFirst` | kernel/list.c:59-67 | the element is put in front |
| `IntList.List.GetFirst` | kernel/list.c:69-83 | the first element leaves, or -1 |
| `IntList.List.GetLast` | kernel/list.c:85-99 | the last element leaves, or -1 |
| `IntList.List.Lookup` | kernel/list.c:101-110 | true exactly for members |
| `IntList.List.Delete` | kernel/list.c:112-133 | the first occurrence leaves, or -1 |
| `IntList.Iterator.constructor` | kernel/list.c:135-142 | the iterator starts before the first element |
| `IntList.Iterator.HasNext` | kernel/list.c:144-147 | true exactly while elements are left |
| `IntList.Iterator.Next` | kernel/list.c:149-153 | the next element in list order |
| `IntList.ReadAll` | kernel/list.c:135-153 | iterating yields every element once, in order |
| `IntList.ArrivalsAreFifo` | kernel/list.c:59-99 | putting first and taking last is a queue in arrival order |
| `Philosophers.StartInv` | user/test.c:3250-3258 | the invariant holds at the start for any number of philosophers from three on |
| `Philosophers.TakeKeeps` | user/test.c:3328-3344 | taking the forks keeps: a fork is marked used iff exactly one neighbour holds it, flags and semaphores agree |
| `Philosophers.PutLeftKeeps` | user/test.c:3352-3357 | handing the left fork over, or freeing it, keeps the same |
| `Philosophers.PutRightKeeps` | user/test.c:3359-3364 | the same for the right fork |
| `Philosophers.StepKeeps` | user/test.c:3291-3386 | every step of every philosopher keeps the invariant |
| `Philosophers.NeighboursNeverEatTogether` | user/test.c:3291-3367 | two neighbours never eat at the same time |
| `Philosophers.BlockedHasBusyNeighbour` | user/test.c:3328-3367 | a blocked philosopher lacks a fork held by a neighbour who is not blocked |
| `Philosophers.SomebodyCanMove` | user/test.c:3328-3386 | no deadlock: unless all have finished somebody can move |
| `Philosophers.RunKeeps` | user/test.c:3291-3386 | every interleaving keeps the invariant |
| `Philosophers.EveryRunIsSafe` | user/test.c:3291-3386 | any number, any interleaving: exclusion always, deadlock never |
| `Philosophers.MealsInRun` | user/test.c:3291-3367 | a step to the table, a meal and the start of putting down follow each other in every run |
| `Philosophers.EatsBeforePutting` | user/test.c:3291-3367 | in every run each philosopher eats exactly once for each time he gets his forks, before he puts them down |
| `BoundedBuffer.TokensAddUp` | user/test.c:2245-2265 | the two counters and the operations in flight always add up to the capacity |
| `BoundedBuffer.ExclusiveKeeps` | user/test.c:2245-2265 | at most one process is between wait and signal on the mutex |
| `BoundedBuffer.TokensKeep` | user/test.c:2245-2265 | every step keeps the balance of counters, positions and operations in flight |
| `BoundedBuffer.ContentsKeep` | user/test.c:2245-2265 | no unread slot is overwritten, and bytes are received in the order sent |
| `BoundedBuffer.RingSlots` | user/test.c:2250-2250 | positions less than a lap apart use different slots |
| `BoundedBuffer.StepKeeps` | user/test.c:2245-2265 | every step keeps the invariant |
| `BoundedBuffer.RunKeeps` | user/test.c:2245-2265 | every interleaving keeps the invariant |
| `BoundedBuffer.EveryRunIsFaithful` | user/test.c:2245-2265 | any capacity, any producers and consumers, any interleaving: what is received is a prefix of what was sent; what each producer has put in, with the byte it still holds, are the arguments of its calls in order; what each consumer took are the results of its calls in order, with the byte it still holds |
| `BoundedBuffer.RunSends` | user/test.c:2245-2252 | over a run, the bytes that a producer puts in and the one it holds grow by exactly the arguments of its calls, in order |
| `BoundedBuffer.RunReturns` | user/test.c:2254-2265 | over a run, the bytes that a consumer takes are those its calls return and the one it holds, in order |
| `BoundedBuffer.SomebodyCanMove` | user/test.c:2245-2265 | with a producer and a consumer the buffer never gets stuck |
| `Div64.DivlFits` | shared/div64.c:24-26 | the hardware division traps exactly if the quotient does not fit 32 bits or the divisor is zero |
| `Div64.EstimateIsClose` | shared/div64.c:35-40 | the estimate from the top 32 bits plus one fits a word, is never too large and at most two too small |
| `Div64.Estimate` | shared/div64.c:35-40 | the hardware division traps exactly when the top 32 bits of the divisor are all ones, because the 32-bit increment wraps to zero |
| `Div64.Correct` | shared/div64.c:41-49 | the correction ends with the exact quotient and remainder after at most two turns, the quotient below 2^32 |
| `Div64.DivideByWord` | shared/div64.c:50-59 | one or two hardware divisions, none of which overflows, give the exact result |
| `Div64.LongDivision` | shared/div64.c:54-59 | two-digit long division is exact |
| `Div64.DoDiv64` | shared/div64.c:28-64 | a trap exactly for divisors of at least 2^32 whose top 32 bits are all ones; exact quotient and remainder otherwise, zero divisor included; at most two corrections |
| `Div64.AllOnesDivisorTraps` | shared/div64.c:35-40 | 2^64 - 1 divided by itself traps |
| `Div64.DoubleUp` | user/test.c:839-844 | the doublings end at the last multiple not above x, and no number they form leaves 64 bits |
| `Div64.ShiftSubtract` | user/test.c:826-857 | shift and subtract gives the exact quotient and remainder, zero divisor included, and its doublings stay within 64 bits |
| `Div64.DivisionsAgree` | user/test.c:826-857 | both divisions agree on exactly the inputs on which do_div64 does not trap |
| `Div64.Mul64IsProduct` | user/test.c:863-895 | the product from 16-bit digits is the product modulo 2^64 |
| `Numerals.DigitsValue` | shared/doprnt.c:540-544 | the digits of u denote u |
| `Numerals.FieldWidth` | shared/doprnt.c:546-586 | the field occupies exactly max(width, sign + prefix + max(precision, digits)) characters |
| `Numerals.SignedWidth` | shared/doprnt.c:508-586 | the same for signed numbers, digits of the magnitude counted |
| `Numerals.ZerosBeatLeft` | shared/doprnt.c:554-586 | with the flag 0 the flag - has no effect |
| `Numerals.LeftAdjustedZeros` | shared/doprnt.c:554-586 | 42 with width 5 and both flags prints as 00042 |
| `Numerals.Printer.Pad` | shared/doprnt.c:556-557 | a countdown loop prints max(0, length) characters and leaves the counter negative |
| `Numerals.Printer.BuildDigits` | shared/doprnt.c:540-544 | the buffer of 32 characters never overflows and ends up holding the numeral |
| `Numerals.Printer.Emit` | shared/doprnt.c:554-586 | the output is the field: blanks, sign, prefix, zeros, digits, blanks |
| `Numerals.Printer.PrintNumber` | shared/doprnt.c:524-589 | the printed text is the field of the number under the format |
| `Numerals.Printer.PrintSigned` | shared/doprnt.c:508-518 | a negative number is a minus and its magnitude, the most negative one included |
| `Numerals.Printer.PrintUnsigned` | shared/doprnt.c:520-522 | an unsigned number has no sign |
| `Numerals.ScanDigits` | shared/strtol.c:45-57 | the accumulator is the value of the digits modulo 2^32, and the position is after the last digit |
| `Numerals.ScanNumber` | shared/strtol.c:32-57 | prefix, base and digits as specified |
| `Numerals.Strtol` | shared/strtol.c:21-62 | value and end pointer as specified, in 32-bit arithmetic |
| `Numerals.Strtoul` | shared/strtoul.c:21-56 | the same, unsigned |
| `Numerals.SignedReadBack` | shared/strtol.c:21-62 | every long, base 2 to 16, width, precision and flags: the printed field reads back as the number if and only if it is not a positive number printed with a plus sign, and only blanks are left if and only if it shows no plus sign |
| `Numerals.UnsignedReadBack` | shared/strtoul.c:21-56 | every unsigned long reads back, and only blanks are left |
| `Numerals.PlusOneReadsZero` | shared/strtol.c:30-31 | the text +1 reads as 0 |
| `Literals.ReadBackAsLiteral` | shared/strtoul.c:25-52 | without being told the base: a printed unsigned number, with any width, precision and flags, denotes itself if and only if it is hexadecimal with the flag #, or starts with a zero and is octal or below 8, or does not and is decimal or below 10; and then strtoul with base 0 returns it |
| `Literals.MisreadIsRight` | shared/strtoul.c:40-52 | a numeral of one base read in another is right if and only if the bases are equal or it is a single digit of both |
| `Literals.ReadInSmaller` | shared/strtoul.c:40-52 | in a smaller base a numeral, read as far as its digits go, is too small unless it is a digit of that base |
| `Literals.ReadInLarger` | shared/strtoul.c:40-52 | in a larger base it is read to the end and is too large unless it is a single digit |
| `Literals.AltSpares` | shared/doprnt.c:533-538 | the flag # changes nothing about zero, and nothing in a base other than 8 and 16 |
| `Literals.EightReadsZero` | shared/strtoul.c:33-39 | 8 printed as 08 reads as 0 |
| `Numerals.SpaceCodes` | shared/ctype.h:4-8 | exactly six characters are space: codes 9 to 13 and 32 |
| `Numerals.SpacesSkipped` | shared/strtol.c:26-27 | any mixture of spaces before a number is skipped |
| `Numerals.CaseOfDigit` | shared/strtol.c:45-57 | upper and lower case letters are the same digits in every base |
| `Numerals.CaseOfNumeral` | shared/strtol.c:45-57 | changing the case of letters in a numeral does not change its value |
| `Memmem.SkipAfterMismatch` | shared/string.c:249-250 | the skip after a mismatch at the second byte jumps over no occurrence |
| `Memmem.SkipAfterMatch` | shared/string.c:251-255 | the skip after a match at the second byte jumps over no occurrence |
| `Memmem.ComparedAll` | shared/string.c:252-254 | the three comparisons together decide one position |
| `Memmem.SearchLong` | shared/string.c:238-257 | the first occurrence of a needle of at least two bytes, or none |
| `Memmem.SearchByte` | shared/string.c:258-263 | the first occurrence of a single byte, or none |
| `Memmem.Search` | shared/string.c:228-266 | found exactly when the needle is not empty and occurs, and then at its first occurrence |
| `GdbPacket.HexPair` | kernel/gdb_serial.c:55-66 | two characters give a byte exactly when both are hexadecimal digits |
| `GdbPacket.HexDigits` | kernel/gdb_serial.c:47-53 | a character is a digit if and only if it is one of the sixteen that are sent or the upper case of one, with the same value |
| `GdbPacket.Hex2Bin` | kernel/gdb_serial.c:55-66 | the bytes before the first bad pair are written, the rest is untouched, the result says whether there was one |
| `GdbPacket.HexifiedIsGood` | kernel/gdb_serial.c:55-66 | hex2bin accepts every hexified byte string in full |
| `GdbPacket.Sender.Send` | kernel/gdb_serial.c:139-139 | the running checksum is the sum of what was sent, modulo 256 |
| `GdbPacket.Sender.ScanRun` | kernel/gdb_serial.c:174-181 | the scan finds the end of the run, at most 49 bytes on |
| `GdbPacket.Sender.SendRun` | kernel/gdb_serial.c:168-193 | a run is sent as digit, star and count |
| `GdbPacket.Sender.SendByte` | kernel/gdb_serial.c:194-198 | any other byte is sent as two digits |
| `GdbPacket.Sender.PutFragment` | kernel/gdb_serial.c:133-216 | the characters sent are exactly the packet of the data |
| `GdbPacket.CountIsPrintable` | kernel/gdb_serial.c:182-191 | a run covers 2 to 49 bytes and its count is an even code in 32..126 |
| `GdbPacket.PayloadIsPlain` | kernel/gdb_serial.c:150-207 | nothing between $ and # is # or } |
| `GdbPacket.PayloadIsShort` | kernel/gdb_serial.c:150-207 | the encoding is never longer than plain hexadecimal |
| `GdbPacket.DollarCount` | kernel/gdb_serial.c:182-191 | a token holds the character $, which the protocol bars as a count, exactly when it is a run of four bytes |
| `GdbPacket.FourZeroesSendDollar` | kernel/gdb_serial.c:182-191 | four zero bytes are sent as 0*$ |
| `GdbPacket.TokenExpands` | kernel/gdb_serial.c:150-207 | a token expands to the digits of the bytes it covers |
| `GdbPacket.ExpandPayload` | kernel/gdb_serial.c:150-207 | run-length expansion gives plain hexadecimal |
| `GdbPacket.ReadBody` | kernel/gdb_serial.c:86-98 | the loop stops at the first # that is not quoted or when the buffer is full, with the checksum of what it read |
| `GdbPacket.FillBuffer` | kernel/gdb_serial.c:86-99 | the buffer holds the body and a terminating zero |
| `GdbPacket.CompareSums` | kernel/gdb_serial.c:100-107 | a body ended by a # is accepted exactly if its checksum is the transmitted one, a full buffer without a # exactly if its checksum is 255; the body accepted is what was read |
| `GdbPacket.GetPacket` | kernel/gdb_serial.c:77-124 | one attempt of getpacket as specified |
| `GdbPacket.AcceptedWhen` | kernel/gdb_serial.c:77-124 | an attempt is accepted exactly if a $ came, the body up to the first unquoted # fits and the digits after it are its checksum, or, for a body that fills the buffer, in two cases spelt out |
| `GdbPacket.PacketIsAccepted` | kernel/gdb_serial.c:77-124 | after any noise without a $, a packet that fits the buffer is accepted with its body |
| `GdbPacket.RoundTrip` | kernel/gdb_serial.c:133-221 | every non-empty byte string: framing, checksum, expansion and hex conversion give it back |
| `GdbPacket.Dequote` | kernel/gdb_serial.c:449-463 | dequoting over the packet itself equals dequoting a copy, or fails exactly on a quote at the end |
| `GdbPacket.UnquoteQuoted` | kernel/gdb_serial.c:440-463 | dequoting undoes quoting, for every set of quoted bytes that includes the quote |
| `GdbPacket.AnnouncedLength` | kernel/gdb_serial.c:433-463 | with the number of data bytes as length, data arrive whole if and only if none of them was quoted |
| `GdbPacket.LostQuote` | kernel/gdb_serial.c:449-463 | a single quote byte sent this way is an error |
| `GdbPacket.LostHash` | kernel/gdb_serial.c:449-463 | of the bytes # A sent this way only the first arrives |
| `GdbMemory.Lookup` | kernel/gdb_serial_support.c:89-121 | length 0 exactly for unmapped addresses; otherwise it leads to the end of the 4K or 4M page, or is 2^32 - 1 without paging, and every byte up to it translates to the matching physical byte |
| `GdbMemory.WalkIsPlacement` | kernel/gdb_serial_support.c:89-121 | the walk through tables laid out as the i386 has it, for any assignment of 4M frames and 4K frames to the pages of the 4G, finds exactly that assignment |
| `GdbMemory.EverySpaceHasTables` | kernel/gdb_serial_support.c:89-121 | every such assignment is the walk of some memory |
| `GdbMemory.CanBeStored` | kernel/gdb_serial_support.c:91-107 | the words of all tables of an address space can be stored, lowest byte first |
| `GdbMemory.NoPagingIsIdentity` | kernel/gdb_serial_support.c:94-99 | paging is on exactly if bit 31 of cr0 is set, and without it every address stands for itself |
| `GdbMemory.PageBeyondHalf` | kernel/gdb_serial_support.c:103-112 | a concrete table: page 512 of a region is found through entry 512, not entry 0 |
| `GdbMemory.PageRun` | kernel/gdb_serial_support.c:103-112 | all bytes up to the end of a 4K page translate through the same entries |
| `GdbMemory.SuperpageRun` | kernel/gdb_serial_support.c:113-119 | the same for a 4M page |
| `GdbMemory.FirstHole` | kernel/gdb_serial_support.c:141-161 | the number of leading mapped bytes of a range |
| `GdbMemory.CopyChunk` | kernel/gdb_serial_support.c:154-154 | the chunk is copied and nothing else |
| `GdbMemory.CopyIn` | kernel/gdb_serial_support.c:141-161 | 0 exactly when every byte is mapped; the bytes before the first hole are those a bytewise copy gives, the rest is untouched |
| `GdbMemory.WalkFrame` | kernel/gdb_serial_support.c:89-121 | a write outside the entries a walk reads changes neither its result nor its reads |
| `GdbMemory.ChunkIsBytewise` | kernel/gdb_serial_support.c:163-183 | a chunk copied at once equals its bytes copied one by one with a fresh walk each |
| `GdbMemory.BytewiseSucceeds` | kernel/gdb_serial_support.c:163-183 | the bytewise copy succeeds exactly when the initial tables map every byte |
| `GdbMemory.Client.WriteChunk` | kernel/gdb_serial_support.c:176-176 | the memory is that of the stores in ascending order |
| `GdbMemory.Client.CopyOut` | kernel/gdb_serial_support.c:163-183 | provided the targets avoid the tables that map the range: memory and result are those of the bytewise copy, 0 exactly when every byte is mapped |
| `GdbMemory.OverlapMatters` | kernel/gdb_serial_support.c:163-183 | a range that overlaps its own page table, where the bytewise copy fails although all is mapped at the start |
| `GdbMemory.BytewiseFrame` | kernel/gdb_serial_support.c:163-183 | bytes that the range does not map to keep their value |
| `GdbMemory.BytewiseKeepsWalk` | kernel/gdb_serial_support.c:163-183 | address translations the copy does not write over are unchanged |
| `GdbMemory.WriteThenRead` | kernel/gdb_serial_support.c:141-183 | after a successful copyout over a one-to-one range, copyin reads the source back |

## Left out

- Heap.Allocator.constructor: assumes one arena, a page size of 4096 and no other caller of sbrk; a start that is not 8-aligned together with an area that does not end on a page boundary, which no linker script of the system produces, is excluded, since a failing second sbrk would then leave a top chunk of odd size.
- Heap.Allocator.FirstExtension: the same exclusion.
- Heap.Allocator.FinishRelease: tags are stored before links, the other way round than in C; the words are different ones.
- Heap.Allocator.Free: requires 0 or a block the program holds, as the C interface does; what a double free does to the heap is not modelled.
- dlmalloc's mmap, realloc, memalign, calloc variants, mallopt, statistics and Windows code: unused here, or variations on the core.
- Kernel.Machine.Exit: Init never exits, as the kernel intends; what would follow is not modelled.
- Kernel.Machine.Start: whether the stacks could be allocated is a parameter; the allocations of the child list, name and file nodes are taken to succeed, and file descriptors, names and stacks are not modelled.
- Kernel.Machine.Wakeup: excludes a process that already is in the ready queue, whose links the C code would overwrite while its neighbours still point to it; the console, which could do that, is not modelled, and no process enters the I/O wait state.
- Kernel.Machine.SemDelete: that `wait` returns -3 only for its own semaphore is false of the code; the exact condition is stated at `Kernel.Machine.ResumeWait`.
- Ready queue: kept as a sequence; the double links of `shared/queue.h` are not modelled. The list of `kernel/list.c` is modelled with its nodes; giving nodes back to the heap is not.
- Signals, pointer checks of system calls, register save and restore, interrupt tables, console, serial line, file systems and the shell.
- Fairness: rotation is proved among the most urgent processes (`KernelTurns.TurnComes`); nothing is claimed about when a process of lower priority gets to run.
- Philosophers.StepKeeps: the arrays that the philosophers share are values of a state machine, so that interleavings can be quantified over; the display is reduced to its entry into the mutex, and six rounds to any number.
- BoundedBuffer.StepKeeps: likewise a state machine; positions are unbounded, so nothing is said after 2^31 bytes, when the C positions overflow.
- Numerals.Printer.PrintNumber: width and precision are unbounded integers; the overflow of an `int` for precisions near 2^31 is not modelled, nor is the truncation flag, which is off.
- Parsing of format strings, and the `%s`, `%c`, `%b` and floating-point conversions.
- HeapProgram.MemFree: once later calls have reused the words of a freed zone, a second free of it is judged by the words found there.
- Numerals.Strtol: signed overflow, undefined in C, is taken as wrap-around in 32 bits.
- GdbPacket.Sender.PutFragment: one non-empty hexified fragment; literal fragments (where a run of seven yields the count `#`), several fragments, zero lengths and the wait for the acknowledgement are not modelled.
- GdbPacket.GetPacket: one attempt, with an empty line as a result of its own; the characters that acknowledge a packet and the removal of a sequence number are not modelled.
- GdbMemory.CopyIn: the destination buffer is apart from client memory; faults of the stub itself are not modelled.
- GdbMemory.Client.CopyOut: nothing is stated about memory when the targets overlap the tables that map the range; `GdbMemory.OverlapMatters` shows why.
- Write protection and user bits of page table entries, which the stub ignores.
