# Verification of the Zypheron kernel's memory stack and ramdisk reader

A Dafny model of five files of the kernel, with proofs about it: the heap
allocator, the two-level page tables, the physical-frame bitmap, the tar ramdisk
reader, and the string and number routines it rests on.
`dafny verify dfyconfig.toml` checks all of it.

Code that works in place is modelled in place: `FrameAllocator`, `PageMapper`,
`Heap` and `Reader` are classes whose methods keep the source's loops, branches and
32-bit wrap-around.  Each method is proved equal to a function on values (a set of
used frames, a memory of page tables, a list of blocks, a list of files), and what
the kernel relies on is proved about those functions, over all inputs and all runs.

| module | models |
|---|---|
| `Machine`, `Bits` | 32-bit words; C's bit operators defined bit by bit |
| `FrameSet`, `Pmm` | `pmm.c`: the frame set with its counter, and the bitmap that refines it |
| `PageTables`, `PagingRuns`, `PageRanges`, `Paging` | `paging.c`: tables as values, runs over them, ranges of mappings, and the code |
| `PagingRights` | the rights that come with a translation, and the flag bits of the entries, over runs |
| `HeapBlocks`, `HeapRuns` | `heap.c` as operations on the list of blocks, and runs of them |
| `HeapPlacement` | where those blocks lie once growth and merges across gaps come in |
| `HeapList`, `KernelHeap` | headers linked through memory, and the code |
| `HeapFrames`, `HeapArena` | where the heap's frames come from, at growth and in `kheap_init` |
| `HeapWords`, `HeapBoot` | headers as words of memory, and what becomes of the arena at boot |
| `KernelRuns` | runs of allocator, paging and heap together |
| `Text`, `Str` | numerals, keys and fields; `str.c` |
| `Ustar` | an archive builder that lays out the fields of `tar.h` in order, with widths of its own |
| `TarFormat`, `Tar` | the reader as functions; `tar.c` |

## Results that qualify the source

Some promises of the code hold only under a condition.  Lemmas named `...Iff` prove a
condition exact, in both directions and for all inputs; a concrete failure stands beside
each where one helps.

- Coalescing is one pass that steps past what it merges.  It leaves no free neighbours
  exactly when no three blocks in a row were free before it (`PassLeavesNoPairIff`): on a
  list without free neighbours, unless the released block stands between two free ones
  (`ReleaseLeavesNoPairIff`).  Releasing the last live block gives back the initial heap
  exactly when the list had at most two blocks before (`WholeAgainIff`); it had three in
  the run of `ReleasedHeapStaysSplit`.  At most one free pair ever survives
  (`FragmentationBound`).
- An answer of kheap_alloc other than NULL is a live block that holds the request exactly
  for requests of at most 2^32 - 8192 bytes (`AllocServesIff`).  Within a page of 2^32 the
  rounding wraps to zero, and a block of no bytes is served (`WrappedRequest`); in the page
  before that the frame count wraps to zero, and the answer is address 12
  (`UncountedRequest`).
- kheap_free never checks that merged blocks touch.  The pass keeps the bytes the heap
  claims exactly when they do (`PassKeepsBytesIff`, `GrowthReleaseKeepsBytesIff`).  It keeps
  blocks apart exactly when every merged block, laid from its left end on, stays within 32
  bits and short of every other block that is kept (`PassPlacedIff`, `StepPlacedIff`; seen
  before a release, `ReleasePlacedIff`), and a run keeps them apart all along exactly when
  every step does (`AlwaysPlacedIff`).  In address order every merge fits (`UpwardForever`),
  so a kernel that gives back no frame never comes to overlap blocks once its arena is
  taken (`BelowFreeForever`).  One that does can (`GapMergeOverlapsLive`).  From there on,
  what is proved of the list (`FragmentationBound`, `Conservation`) is no longer about the
  headers in memory.
- kheap_init reserves one frame of its 16 MiB.  One of the page tables it makes for the
  arena stands inside the arena exactly when the next free frame does (`ArenaTableIff`,
  `BootArenaHoldsTableIff`).  On every machine whose lowest pages are available all four do
  (`BootArenaHoldsTables`).  A heap header keeps a directory's translations exactly when
  each of its words is off the directory's tables or leads where the entry led
  (`HeaderHarmlessIff`, `FreeHeaderIff`); at boot the header the first request leaves behind
  its block does exactly when the request is of more than four pages (`FirstSplitIff`), and
  otherwise it takes pages of the arena away (`FirstSplitUnmapsArena`).  In any later state
  that has given back no frame below the arena, the next frame is an arena frame exactly
  while one is free (`NextFrameInArenaIff`), and growth stays clear of the arena exactly
  when none is (`GrowthSeparatedIff`).  "The arena belongs to the heap" is therefore a
  hypothesis.
- The growth path takes the frames it is given for consecutive.  They are exactly when
  they are free in a row and no page table has to be made on the way
  (`GrabConsecutiveIff`).  It looks for NULL at its own frames, not at those of the tables it
  brings about: the page tables stay apart exactly when each of those is found
  (`GrabKeepsInvIff`), and then its frames are mapped to themselves (`GrabTranslates`).
- A fresh page table is not cleared (`FreshTableIff`).  Mapping does not notice that the
  frames have run out: the page tables stay apart exactly when a frame is left or none is
  needed (`MapKeepsInvIff`), for a whole range exactly when there is one for every table it
  lacks (`RangeFitsIff`), and at boot exactly when two frames are free (`InitialInvIff`).
  Without, mappings through different slots overwrite each other (`ExhaustionIff`).
- pmm_alloc_block answers NULL for frame 0 as well as for "none left" (`NullIff`); the
  count pmm_init announces is right exactly when no available block lies past the covered
  ones (`AnnouncedFreeIff`); a region that starts inside a page is cleared one block too
  low (`SpansInsideIff`).
- paging_map_range maps nothing for a size within a page of 2^32 (`PageCountIff`).

## Hypotheses

- Heap headers live in memory of their own: the arena belongs to the heap alone.
- What is proved of lists (fragmentation, block count, conservation) is for all runs.
  What is proved of addresses is for runs served from the arena (`ArenaTiling`) and, growth
  included, for runs of safe steps (`PlacedForever`): growth into memory no block claims,
  releases whose merges fit.  Arena runs are such (`ArenaRunIsSafe`), and so are runs whose
  growth goes upward (`UpwardForever`).
- `Heap.Free` gets NULL or the payload of a block of the list.
- Nobody but the paging routines writes into directories and tables, and their frames
  are not freed.  Frame 0 is not freed.
- Claims about other pages of a newly populated slot assume that free frames hold no
  present entry.

## Model

| member | source | states |
|---|---|---|
| Bits.WordTests | kernel/src/pmm/pmm.c:46-49 | a word masked with `1 << j` is non-zero exactly when bit j is set; only 0xFFFFFFFF has all 32 bits |
| Bits.SetAndClear | kernel/src/pmm/pmm.c:36-44 | or-ing `1 << j` into a word sets bit j alone; and-ing its complement clears it alone |
| Bits.EntryMasks | kernel/src/paging/paging.c:69-80 | what `& ~0xFFF`, `& 1` and `& 0x03FF` keep of a word |
| Bits.OrThree | kernel/src/paging/paging.c:52-83 | or-ing 3 sets the two low bits and no other |
| FrameSet.Lowest | kernel/src/pmm/pmm.c:105-120 | the scan's answer is the lowest free covered frame; none exactly when all are used |
| FrameSet.NullIff | kernel/src/pmm/pmm.c:116-123 | NULL exactly when all covered frames are used or frame 0 is free; the address is aligned, never wraps, and was not in use |
| FrameSet.CounterLockStep | kernel/src/pmm/pmm.c:103-137 | over every run of allocations and in-range frees, repeated ones too, used_blocks less the number of used frames never changes |
| FrameSet.NeverHandsOutHeld | kernel/src/pmm/pmm.c:103-137 | over every run no frame still held is handed out again, and NULL means full |
| FrameSet.SpansInsideIff | kernel/src/pmm/pmm.c:84-90 | the blocks cleared for a region are those wholly inside it exactly when it is page-aligned or shorter than a page |
| FrameSet.InitFreeIff | kernel/src/pmm/pmm.c:71-98 | on page-based regions a covered block is free after initialisation exactly when it is not block 0 and lies wholly in an available region |
| FrameSet.InitCounter | kernel/src/pmm/pmm.c:68-98 | with under 2^32 available bytes the counter ends at total less spanned blocks plus one and never underflows |
| FrameSet.SumBlocksBound | kernel/src/pmm/pmm.c:62-92 | whole blocks of the regions never exceed the whole blocks of their total length |
| FrameSet.SumLenCounts | kernel/src/pmm/pmm.c:56-66 | on regions that share no byte the lengths summed up are the number of bytes lying in some available region |
| FrameSet.InitTotalCounts | kernel/src/pmm/pmm.c:56-69 | then total_blocks is the number of whole pages of those bytes, as long as they fit in 32 bits, and the bitmap covers the whole words of those |
| FrameSet.AnnouncedFreeIff | kernel/src/pmm/pmm.c:94-100 | on disjoint regions with block 0, the announced count is the number of frames that can be handed out exactly when no available block lies past the covered ones |
| Pmm.FrameAllocator.BitmapSet | kernel/src/pmm/pmm.c:36-39 | adds one block to the set the words stand for, in place |
| Pmm.FrameAllocator.BitmapUnset | kernel/src/pmm/pmm.c:41-44 | removes one block from it, in place |
| Pmm.FrameAllocator.BitmapTest | kernel/src/pmm/pmm.c:46-49 | tells membership |
| Pmm.AvailableBytes | kernel/src/pmm/pmm.c:56-66 | the lengths of the available regions, and of no other, summed in 32-bit arithmetic (counted by `SumLenCounts`) |
| Pmm.FrameAllocator.Init | kernel/src/pmm/pmm.c:51-101 | leaves the frame set and counter the memory map determines |
| Pmm.FrameAllocator.AllocBlock | kernel/src/pmm/pmm.c:103-124 | takes the lowest free frame and counts it, or changes nothing and answers NULL |
| Pmm.FrameAllocator.FreeBlock | kernel/src/pmm/pmm.c:126-137 | gives a used frame back once; past the covered frames only the counter may move |
| PageTables.PageCountIff | kernel/src/paging/paging.c:103 | the page count covers the size exactly when the rounding does not wrap, by less than a page; it is zero exactly when the size is zero or the rounding wraps |
| PageTables.SplitAddress | kernel/src/paging/paging.c:69-70 | two addresses share a page exactly when both 10-bit indices agree |
| PagingRuns.MapTranslate | kernel/src/paging/paging.c:67-85 | a mapping is seen at its page by every directory that reaches the same table, and nowhere else |
| PagingRuns.MapKeepsInvIff | kernel/src/paging/paging.c:67-85 | after a mapping, directories and tables are in distinct used frames, each table serving one slot number, exactly when a frame was left or none was needed |
| PagingRuns.FreshTableIff | kernel/src/paging/paging.c:73-77 | filling an empty slot leaves other pages as they were exactly when the table's frame holds no other present entry |
| PagingRuns.ExhaustionIff | kernel/src/paging/paging.c:75-76 | of two pages mapped through two empty slots, the first keeps its translation exactly when a frame was left, or their table positions differ, or they lead to one frame; the whole first slot keeps its translations exactly when a frame was left or the second mapping says nothing new there |
| PagingRuns.UnmapTranslate | kernel/src/paging/paging.c:87-99 | unmapping removes the page from every directory that reaches the same table, and changes nothing else |
| PagingRuns.UnmapUndoesMap | kernel/src/paging/paging.c:67-99 | mapping an unmapped page and unmapping it restores every translation in every directory |
| PagingRuns.NewDirectoryTranslatesAlike | kernel/src/paging/paging.c:30-40 | a new directory stands in an unused frame and translates every address as pd0 does |
| PagingRuns.CopySlots | kernel/src/paging/paging.c:36-37 | slots present in pd0 are shared with the copy, the others are private to it |
| PagingRuns.StepKeepsInv | kernel/src/paging/paging.c:30-99 | every step keeps the invariant, and a directory or table it makes stands in a frame that was free |
| PagingRuns.StepTouches | kernel/src/paging/paging.c:73-97 | a step rewrites a directory or table only as the one it maps or unmaps through |
| PagingRuns.DistinctFrames | kernel/src/paging/paging.c:30-99 | after any run all directories and tables occupy distinct used frames |
| PagingRuns.SharedForever | kernel/src/paging/paging.c:30-99 | two directories that share a slot agree on all its addresses after any run |
| PagingRuns.PrivateForever | kernel/src/paging/paging.c:30-99 | a slot empty at the copy, once populated, leads to a table no other directory reaches, after any run |
| PagingRuns.MapRangeTranslate | kernel/src/paging/paging.c:101-109 | page k of the range goes to the k-th page from the physical start in every directory that reaches the same table, and every other address, in every directory, is translated as before |
| PagingRuns.InitialInvIff | kernel/src/paging/paging.c:47-50 | paging_init leaves a directory and a table in distinct used frames exactly when two frames were free |
| PagingRuns.InitialTranslation | kernel/src/paging/paging.c:47-65 | after paging_init the first 4 MiB translate to themselves and nothing else is mapped |
| PageRanges.RangeFitsIff | kernel/src/paging/paging.c:101-109 | mapping a range that does not wrap keeps directories and tables in distinct used frames exactly when a frame is free for every table it lacks |
| PageRanges.RangeTakes | kernel/src/paging/paging.c:75-108 | mapping a range takes one frame, the lowest free one each time, for every table it lacks, and no other |
| PagingRights.InitialReach | kernel/src/paging/paging.c:47-65 | after paging_init the first 4 MiB are reached at their own addresses, writable and for the kernel alone, and nothing else is reached; every entry has just its two low bits set beside the frame, or is 0 |
| PagingRights.MapReach | kernel/src/paging/paging.c:67-85 | a mapping is reached, writable and for the kernel alone, by every directory with the same table; every other access goes where it did with the rights it had |
| PagingRights.UnmapReach | kernel/src/paging/paging.c:87-99 | unmapping takes an access away from every directory with the same table, and leaves every other with its rights |
| PagingRights.NewDirectoryReachesAlike | kernel/src/paging/paging.c:30-40 | a new directory gives every access pd0 gives, with the same rights |
| PagingRights.DirsCleanForever | kernel/src/paging/paging.c:30-99 | over every run each directory entry is 0 or has exactly its two low bits set beside the frame |
| PagingRights.EntriesCleanForever | kernel/src/paging/paging.c:67-99 | over every run that maps whole pages, so does each entry of a table that did at the start or that a call of the run wrote |
| Paging.PageMapper.Init | kernel/src/paging/paging.c:47-65 | takes two frames, or NULL for them, and writes the initial directory and identity table |
| Paging.PageMapper.NewDirectory | kernel/src/paging/paging.c:30-40 | copies pd0 into a new frame and answers its page-aligned address, or answers -1, which is not aligned, and changes nothing |
| Paging.PageMapper.MapPage | kernel/src/paging/paging.c:67-85 | the in-place map step, table allocation included |
| Paging.PageMapper.UnmapPage | kernel/src/paging/paging.c:87-99 | the in-place unmap step |
| Paging.PageMapper.MapRange | kernel/src/paging/paging.c:101-109 | the loop maps the counted pages one after the other |
| HeapBlocks.RoundUpServesIff | kernel/src/cpu/heap/heap.c:61 | the rounded size covers the request exactly when the addition does not wrap; a wrapped request rounds to zero |
| HeapBlocks.FramesHoldRequestIff | kernel/src/cpu/heap/heap.c:87-88 | the frames asked for hold request and header exactly when the additions do not wrap; otherwise none is asked for |
| HeapBlocks.FirstFit | kernel/src/cpu/heap/heap.c:66-85 | the first block of the list that is free and large enough, past the end if none is |
| HeapBlocks.PlacePairs | kernel/src/cpu/heap/heap.c:68-81 | serving a request never adds a pair of free neighbours |
| HeapBlocks.PlaceUsed | kernel/src/cpu/heap/heap.c:68-81 | serving adds one live block of between n and n + 12 bytes at the chosen place and leaves every other as it was |
| HeapBlocks.PlaceTiles | kernel/src/cpu/heap/heap.c:70-78 | a split keeps the tiling of the arena |
| HeapBlocks.CoalesceHalvesPairs | kernel/src/cpu/heap/heap.c:137-146 | a pass at least halves the number of free neighbour pairs |
| HeapBlocks.PassLeavesNoPairIff | kernel/src/cpu/heap/heap.c:137-146 | a pass leaves no free neighbours exactly when no three blocks in a row are free before it |
| HeapBlocks.CoalesceMaximalRun | kernel/src/cpu/heap/heap.c:137-146 | a maximal run of k free blocks becomes ceil(k/2) free blocks with the same bytes, independently of the rest |
| HeapBlocks.CoalesceKeeps | kernel/src/cpu/heap/heap.c:137-146 | a pass keeps used blocks and their order, keeps all bytes, and turns each merged header into free payload |
| HeapBlocks.BlocksBound | kernel/src/cpu/heap/heap.c:66-147 | blocks number at most twice the used ones, plus the free pairs, plus one |
| HeapBlocks.BytesAccounted | kernel/src/cpu/heap/heap.c:149-162 | every byte is free payload, live payload or header |
| HeapRuns.FragmentationBound | kernel/src/cpu/heap/heap.c:56-147 | in every list a run reaches, growth included, at most one pair of neighbours is free on both sides and there are at most 2 * live + 2 blocks |
| HeapRuns.ReleaseLeavesNoPairIff | kernel/src/cpu/heap/heap.c:129-147 | a release leaves no free neighbours exactly when, with its block free, no three in a row are; from a list without free neighbours, exactly unless the block stands between two free ones |
| HeapRuns.WholeAgainIff | kernel/src/cpu/heap/heap.c:129-147 | over every arena-served run, releasing the last live block gives back the initial list exactly when the list had at most two blocks before |
| HeapRuns.ReleasedHeapStaysSplit | kernel/src/cpu/heap/heap.c:137-146 | a run after which all is released, two blocks remain, and a request the fresh heap serves finds none |
| HeapRuns.ArenaTiling | kernel/src/cpu/heap/heap.c:49-147 | over every arena-served run the list tiles the 16 MiB exactly, in address order, with positive sizes and nothing shared; free, live and header bytes add up to 16 MiB |
| HeapRuns.Conservation | kernel/src/cpu/heap/heap.c:56-162 | after any run free, live and header bytes add up to the arena plus what growth added |
| HeapRuns.StepConserves | kernel/src/cpu/heap/heap.c:87-126 | only a growth step that obtains its frames adds bytes: the rounded request and one header |
| HeapRuns.AllocLive | kernel/src/cpu/heap/heap.c:56-127 | an allocation that changes the list adds exactly the live block it answers, of the rounded size or up to 12 bytes more; otherwise it answers NULL, or address 12 where the frame count wraps |
| HeapRuns.AllocServesIff | kernel/src/cpu/heap/heap.c:56-127 | an answer other than NULL is a live block holding the request exactly for requests up to 2^32 - 8192 bytes; NULL exactly when nothing fits and the frames run out |
| HeapRuns.AllocTakesFirst | kernel/src/cpu/heap/heap.c:61-85 | a request is served from the first block that is free and of at least the rounded size, an exact fit included: answer, remainder and the rest of the list |
| HeapRuns.AllocFindsNone | kernel/src/cpu/heap/heap.c:61-126 | without such a block, one live block of the rounded size is appended at the first frame obtained, or nothing happens to the list; which of the two, and the answer |
| HeapRuns.WrappedRequest | kernel/src/cpu/heap/heap.c:61-82 | a request of 2^32 - 1 bytes is answered with a block of no bytes |
| HeapRuns.UncountedRequest | kernel/src/cpu/heap/heap.c:87-126 | requests in the last page that does not wrap the rounding ask for no frame and are answered with address 12 |
| HeapRuns.FreeLive | kernel/src/cpu/heap/heap.c:129-147 | a release removes exactly the released block from the live ones |
| HeapRuns.AllocThenFree | kernel/src/cpu/heap/heap.c:56-162 | allocating, be it from the list, by growth or in vain, and releasing restores the live blocks and leaves at least as much free memory |
| HeapPlacement.PassKeepsBytesIff | kernel/src/cpu/heap/heap.c:140-144 | on a list in address order the pass keeps the bytes the heap claims exactly when every pair it merges touches |
| HeapPlacement.TilingMergesTouch | kernel/src/cpu/heap/heap.c:140-144 | in a tiled list every merge joins blocks that touch |
| HeapPlacement.GrowthReleaseKeepsBytesIff | kernel/src/cpu/heap/heap.c:87-146 | releasing a growth block beside the free arena keeps the claimed bytes exactly when its frames start where the arena ends, wherever else they may lie |
| HeapPlacement.PassPlacedIff | kernel/src/cpu/heap/heap.c:137-146 | a pass keeps blocks disjoint and within 32 bits exactly when every merged block, laid from its left end on, ends within 32 bits and before the header of every other block that is kept |
| HeapPlacement.ReleasePlacedIff | kernel/src/cpu/heap/heap.c:129-147 | on a list without free neighbours, a release does so exactly when the one merge it brings about, if any, misses all other blocks |
| HeapPlacement.AscendingCoalesce | kernel/src/cpu/heap/heap.c:137-146 | a pass keeps address order, whatever gaps it merges across |
| HeapPlacement.StepPlacedIff | kernel/src/cpu/heap/heap.c:56-147 | an allocation or release keeps blocks disjoint and within 32 bits exactly when its growth block misses all others and its merges fit |
| HeapPlacement.AlwaysPlacedIff | kernel/src/cpu/heap/heap.c:56-147 | over any run, blocks stay disjoint all along exactly when every step is such |
| HeapPlacement.UpwardForever | kernel/src/cpu/heap/heap.c:56-147 | over every run whose growth blocks lie past all others, the list stays in address order and blocks disjoint, whatever its releases merge |
| HeapPlacement.PlacedForever | kernel/src/cpu/heap/heap.c:35-147 | over every run of such steps, growth included, no two blocks share a byte and no size wraps |
| HeapPlacement.ArenaRunIsSafe | kernel/src/cpu/heap/heap.c:56-147 | every arena-served run consists of such steps |
| HeapPlacement.ArenaGrowthIff | kernel/src/cpu/heap/heap.c:91-123 | a growth block added to a tiled arena misses all others exactly when it lies outside the arena |
| KernelRuns.TiledBelowFree | kernel/src/cpu/heap/heap.c:35-52 | a heap that still tiles its arena is in address order below the free frames once every arena frame is taken |
| KernelRuns.BelowFreeForever | kernel/src/cpu/heap/heap.c:56-147 | over every run of allocator, paging and heap calls that gives back no frame, from a heap in address order below the free frames, growth goes upward and no two blocks share a byte |
| KernelRuns.GapMergeOverlapsLive | kernel/src/cpu/heap/heap.c:87-146 | from what kheap_init leaves on a machine of 4128 pages or more, a run of the same calls, every frame handed out by the allocator, after which two live blocks overlap |
| HeapList.LinkedMerge | kernel/src/cpu/heap/heap.c:142-143 | the two writes of a merge take the second block out of the linked list |
| HeapList.LinkedSplit | kernel/src/cpu/heap/heap.c:72-77 | the writes of a split link the remainder behind the served block |
| HeapList.LinkedAppend | kernel/src/cpu/heap/heap.c:116-123 | the last block, or the head, is made to lead to the new one |
| KernelHeap.Heap.Init | kernel/src/cpu/heap/heap.c:35-54 | one free block over the arena, which is mapped to itself; nothing when no frame is left |
| KernelHeap.Heap.Walk | kernel/src/cpu/heap/heap.c:63-85 | following `next` finds the first fit and the block before it, or NULL and the last block |
| KernelHeap.Heap.Serve | kernel/src/cpu/heap/heap.c:70-79 | splits and marks in place; while the new header meets none of the list, writing only inside the chosen free block |
| KernelHeap.Heap.Alloc | kernel/src/cpu/heap/heap.c:56-127 | answer and frames are those of the allocation step on any list; so is the list, and blocks stay disjoint, while the headers written meet none of the list |
| KernelHeap.AllocIsSafe | kernel/src/cpu/heap/heap.c:70-114 | they meet none when blocks do not overlap and growth gets frames in a row that hold no block |
| KernelHeap.Heap.Grow | kernel/src/cpu/heap/heap.c:87-126 | takes and maps the frames of the growth loop, consecutive or not, tables included; writes a header for each, where the loop does; appends the new block when all are obtained, and leaves the list alone otherwise, while the headers written meet none of the list |
| KernelHeap.Heap.Free | kernel/src/cpu/heap/heap.c:129-147 | the list of the release step, nothing for NULL; besides the released header only headers of free blocks are written |
| KernelHeap.Heap.Pass | kernel/src/cpu/heap/heap.c:137-146 | the pointer loop terminates on the shrinking list and leaves the coalesced one |
| KernelHeap.Heap.GetFreeMemory | kernel/src/cpu/heap/heap.c:149-162 | the payload bytes of the free blocks |
| HeapFrames.GrabConsecutiveIff | kernel/src/cpu/heap/heap.c:91-114 | the growth loop's frames are consecutive exactly when they are free in a row and no page table is made before the last |
| HeapFrames.GrabRow | kernel/src/cpu/heap/heap.c:91-114 | then the loop takes that row of frames and nothing else changes in the allocator or the directory |
| HeapFrames.GrabKeepsInvIff | kernel/src/cpu/heap/heap.c:91-99 | the growth loop keeps directories and tables in distinct used frames exactly when a frame is found for every table it brings about |
| HeapFrames.GrabTranslates | kernel/src/cpu/heap/heap.c:91-99 | then every address of every frame obtained translates to itself, and every other as before |
| HeapArena.ArenaTableIff | kernel/src/cpu/heap/heap.c:37-47 | a page table made for the arena stands in it exactly when one is needed and the next free frame lies there |
| HeapArena.BootArenaHoldsTableIff | kernel/src/krnl.c:60-65 | the same at boot, right after paging_init, where a table is always needed |
| HeapArena.NextFrameInArenaIff | kernel/src/cpu/heap/heap.c:37-47 | after kheap_init and any run that gives back no frame below the arena, the next frame handed out is an arena frame exactly while one is free |
| HeapArena.ArenaIdentity | kernel/src/cpu/heap/heap.c:44-47 | kheap_init maps each arena address to itself and changes no other translation |
| HeapBoot.BootFromMap | kernel/src/krnl.c:60-61 | whatever the memory map, if pages 1 to m - 1 are available (m at least 8) paging_init takes frames 1 and 2 and leaves 3 to m - 1 free |
| HeapBoot.BootOnFlatMemory | kernel/src/krnl.c:60-61 | a machine with one available region from address 0 on comes to such a state |
| HeapBoot.BootArenaHoldsTables | kernel/src/cpu/heap/heap.c:37-47 | from there kheap_init makes the second to fifth frame of the arena page tables of the arena |
| HeapWords.HeaderHarmlessIff | kernel/src/cpu/heap/heap.c:73-77 | a header written outside a directory keeps its translations exactly when each of the three words is off its tables or leads where the entry led |
| HeapWords.FreeHeaderIff | kernel/src/cpu/heap/heap.c:73-75 | the header of a free block, within one frame, does so exactly when no slot of the directory leads to that frame |
| HeapBoot.FirstHeaderOffTables | kernel/src/cpu/heap/heap.c:49-51 | the header kheap_init writes changes no translation |
| HeapBoot.FirstSplitIff | kernel/src/cpu/heap/heap.c:61-77 | at boot the header of what the first request leaves keeps every translation exactly when the request is of more than four pages |
| HeapBoot.FirstSplitUnmapsArena | kernel/src/cpu/heap/heap.c:72-77 | for a first request of one page or less it unmaps a page of the arena |
| HeapBoot.GrowthSeparatedIff | kernel/src/cpu/heap/heap.c:91-105 | after kheap_init and any run that gives back no frame below the arena, the next growth block misses the arena exactly when no arena frame is free |
| Text.UnsignedRoundTrip | kernel/src/lib/str.c:156-179 | parsing what utoa prints gives the value back, with no leading zero, in characters '0' to '9' and 'a' to 'z' that are digits of the base |
| Text.SignedRoundTrip | kernel/src/lib/str.c:121-154 | parsing what itoa prints gives the value back, sign included |
| Text.SignedForm | kernel/src/lib/str.c:139-151 | a '-' comes first exactly for negative values; behind it digits of the base only, the first not '0' but for zero, which is one character |
| Text.DigitTable | kernel/src/lib/str.c:143 | the characters of the digits are 0 to 9, then a to z |
| Text.BuffersSuffice | kernel/src/scr/scr.c:266-278 | the callers' 11 and 12 bytes hold any numeral in base 10 with its terminator |
| Text.CompareOrdersKeys | kernel/src/lib/str.c:55-70 | strn_cmp is zero exactly on equal keys, and its sign is the dictionary order of the keys |
| Text.CompareAtDifference | kernel/src/lib/str.c:57-62 | where two strings first differ, with no NUL before, the answer is the difference of the two bytes, unsigned |
| Text.KeyOfField | kernel/src/lib/str.c:72-87 | padding a string into a fixed field loses nothing of its key |
| Str.Reverse | kernel/src/lib/str.c:107-119 | reverses the first bytes in place and touches no other |
| Str.Utoa | kernel/src/lib/str.c:156-179 | writes the numeral and a terminator, and nothing behind them |
| Str.Itoa | kernel/src/lib/str.c:121-154 | the same for signed values |
| Str.StrnCmp | kernel/src/lib/str.c:55-70 | the loop computes the comparison, reading no further than it must |
| Str.StrnCpy | kernel/src/lib/str.c:72-87 | fills the field with the key and NULs, and writes nothing behind it |
| Str.MemCpy | kernel/src/lib/str.c:89-95 | copies exactly the first n bytes |
| Ustar.PackedFields | kernel/inc/fs/tar.h:30-40 | in a header put together field by field the name takes the first 100 bytes, the size digits bytes 124 to 134, and the content follows at 512 |
| Ustar.BuiltArchiveAt | kernel/inc/fs/tar.h:30-40 | so they do, entry after entry, wherever a built archive lies in memory |
| TarFormat.OctalRoundTrip | kernel/src/fs/tar.c:33-43 | reading a number's octal digits gives the number |
| TarFormat.ReadsEntry | kernel/src/fs/tar.c:51-67 | a header packed by the builder is read as its entry and leads to the byte behind its padded data |
| TarFormat.ParseUndoesBuild | kernel/src/fs/tar.c:45-72 | wherever a built archive lies, the walk meets one header for each entry and recovers each name, size and data offset |
| TarFormat.ContentInPlace | kernel/src/fs/tar.c:62-100 | the data of each entry lies where the reader says |
| TarFormat.OpenFindsEntry | kernel/src/fs/tar.c:80-91 | the match among the files is the first entry of that name |
| TarFormat.FirstNamed | kernel/src/fs/tar.c:80-91 | the first file that agrees with the query on 100 bytes, past the end if none does |
| Tar.GetSize | kernel/src/fs/tar.c:33-43 | the eleven characters as an octal number, in 32-bit arithmetic |
| Tar.Reader.Parse | kernel/src/fs/tar.c:45-72 | fills the table with the files of the headers met, and stops at the empty name |
| Tar.Reader.Open | kernel/src/fs/tar.c:80-91 | the first file with that name, or none |
| Tar.Reader.Read | kernel/src/fs/tar.c:93-101 | copies the first min(size, file size) bytes of the data and touches nothing behind them |
| Tar.Reader.Load | kernel/src/krnl.c:67-87 | parse, open and read on a built archive give the first bytes of the first entry of that name, or none |

## Left out

- KernelHeap.Heap.Alloc: when a header it writes meets one of the list (`AllocSafe` fails), the answer and the frames are stated but not what the list has become; `AllocIsSafe` and `GrabConsecutiveIff` tell when that cannot be.
- KernelHeap.Heap.Grow: the same; writes to frames that are not mapped would fault, which is not modelled.
- KernelHeap.Heap.Free: a pointer that is not the payload of a block of the list is not modelled.
- KernelHeap.Heap.Serve: the class keeps headers apart from the words of the page tables; what a header written over a table does to translation is in `HeapWords` and `HeapBoot` (`HeaderHarmlessIff`, `FirstSplitIff`).
- Paging.PageMapper.MapPage: table words are reached by physical address; faults of the kernel's own accesses, cr3, cr0, invlpg and the TLB are not modelled.
- Pmm.FrameAllocator.Init: the memory map is a list of entries; the tag walk over the boot information is not modelled, nor is where the bitmap and the kernel image lie.
- Str.Itoa: the least 32-bit value, and negative values in bases other than 10, are undefined or unprintable in the source and excluded.
- Str.MemCpy: a negative count, and overlapping source and destination, are excluded.
- Tar.Reader.Parse: archives of more than 32 entries overrun the file table and are excluded; headers are taken to lie in memory.
- Tar.Reader.Read: a size above 2^31 - 1, negative as a C int, is excluded.
- str_len, str_cmp, mem_set, tar_get_files, paging_switch_directory: no deep property.
- Screen output, descriptor tables, interrupts and port I/O; calls to scr_printf are no-ops.
