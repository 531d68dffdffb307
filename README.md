# Malloc lab allocators in Dafny

This project models the two allocators of a CS:APP "malloc lab" repository and proves properties of them. Both allocators share the boundary-tag layer of `mm.h`:

- Every block has a 4-byte header before its payload and a 4-byte footer at its end.
- Each tag packs the block size (a multiple of 8) with an allocated bit.
- Free blocks of the explicit allocator hold two 8-byte link slots, `FREE_PREV` and `FREE_NEXT`, at the start of their payload.

The two allocators are:

- `mm.c`, the explicit allocator. It keeps free blocks on a LIFO doubly-linked list. `find_fit` is first fit over that list. `place` splits off a free remainder of at least 24 bytes. `coalesce` performs the four-case merge. `mm_realloc` shrinks in place when the remainder is large enough to be a block of its own.
- `mm1.c`, the implicit allocator. It has no free list. `find_fit` is next fit, with a persistent `rover` that walks the blocks in address order. `coalesce` keeps the rover out of a merged block. `checkblock` and `checkheap` check the heap's shape.

## How the model is built

- The arena is a map from byte address to the 4-byte word stored there (`Tags.Mem`). `Tags.Get` reads 0 for a word never written. `Tags.Put` writes one word.
- Every macro of `mm.h` is a function over that map: `Pack`, `GetSize`, `GetAlloc`, `Hdrp`, `Ftrp`, `NextBlkp`, `PrevBlkp`, `FreePrev` and `FreeNext`.
- Addresses are offsets from the start of the arena, so `NULL` is 0.
- The arena grows through `Sbrk`. `Sbrk` either fails with -1 or returns the old end and moves `brk`. It fails exactly when `brk` would pass a fixed `capacity`.
- Each allocator is a class (`Explicit.Allocator`, `Implicit.Allocator`). Its fields are the source's globals:
  - the arena and `brk`;
  - `freelistHead` for the explicit allocator;
  - `heapListp` and `rover` for the implicit allocator.
  Its methods perform the source's `PUT`s on the arena step by step.
- Ghost fields carry the abstraction that the invariant `Valid()` ties to the words in the arena:
  - `blocks`, the sequence of blocks tiling the heap in address order;
  - `freeList`, the free list in list order;
  - `roverIndex`, the position of the rover among the blocks.
- `Valid()` states the following:
  - every block has a header equal to its footer;
  - sizes are multiples of 8 and at least the minimum block;
  - the blocks tile the heap from the prologue to the epilogue;
  - no two adjacent blocks are both free;
  - for `mm.c`, the links in the arena spell out `freeList`, and its members are exactly the starts of the free blocks;
  - for `mm1.c`, the rover sits at the start of a block or at the epilogue.
- Every public operation states its new blocks as a function of the old ones. For `mm.c` it states the new free list the same way: `MallocBlocks` and `MallocList`, `FreedBlocks` and `FreedList`, `GrownBlocks` and `GrownList`. For `mm1.c` it states the new rover: `MallocResult` and `MovedResult` in `NextFit`.
- Every public operation also states a frame property. `PayloadsKept(m, m', A)` says that the payload bytes of every allocated block in `A` read the same before and after. `Copied` says which bytes `realloc` moved.
- The layout comment at mm.c:4-15 describes 4-byte links and a 16-byte minimum block. The code disagrees: mm.h:36-40 sets 8-byte link slots and a 24-byte minimum. The model follows the code.
- The size computations are modelled in `Requests` on 64-bit `size_t` arithmetic. That arithmetic wraps for requests near 2^64. The three findings below come from there.

Modules:

| module | file | what |
|---|---|---|
| `Tags` | tags.dfy | constants and macros of `mm.h` |
| `Requests` | requests.dfy | the adjusted-size computations of `mm.c` and `mm1.c` |
| `Layout` | layout.dfy | blocks, tiling, merging, payload frames, `memcpy` |
| `FreeList` | freelist.dfy | the doubly-linked list stored in the arena (`insertblock`, `deleteblock`) |
| `ExplicitHeap`, `ExplicitOps`, `ExplicitResize` | explicit_heap.dfy, explicit_ops.dfy, explicit_resize.dfy | invariant and operation lemmas of `mm.c` |
| `Explicit` | explicit.dfy | the `mm.c` allocator as a class |
| `ImplicitHeap`, `NextFit`, `HeapCheck` | implicit_heap.dfy, next_fit.dfy, heap_check.dfy | invariant, next-fit search and heap check of `mm1.c` |
| `Implicit` | implicit.dfy | the `mm1.c` allocator as a class |

## Model

| member | source | states |
|---|---|---|
| Tags.Max | mm.h:14 | the result is the larger of the two arguments |
| Tags.Pack | mm.h:15 | for a size that is a multiple of 8, the tag word is size plus the allocated bit |
| Tags.Put | mm.h:21 | the written address reads back the written value |
| Tags.PutOnly | mm.h:20-21 | a `PUT` changes no other word |
| Tags.GetSize | mm.h:24 | the size read from a word is a multiple of 8, at most the word and within 8 below it |
| Tags.GetAlloc | mm.h:25 | the allocated bit is 0 or 1 and has the word's parity |
| Tags.PackRoundTrip | mm.h:15-25 | `GET_SIZE` and `GET_ALLOC` of `PACK(s, a)` give back `s` and `a` |
| Tags.PackInjective | mm.h:15 | two tags are equal exactly when their sizes and bits are equal |
| Tags.BlockGeometry | mm.h:27-30 | the header is at bp-4, the footer at bp+size-8, and the next header is the word right after the footer |
| Tags.NextIsEnd | mm.h:30 | `NEXT_BLKP(bp)` is bp plus the block's size |
| Tags.PrevOfNext | mm.h:28-31 | when the footer holds the block's size, `PREV_BLKP(NEXT_BLKP(bp)) == bp` |
| Tags.LinkSlotsFit | mm.h:36-40 | `FREE_PREV` and `FREE_NEXT` are adjacent 8-byte slots between the header and the footer, and header, links and footer fill 24 bytes exactly |
| Tags.TagsAt | mm.c:161-162 | writing a block's tags changes exactly its header word and its footer word |
| Tags.Retagged | mm.c:342-343 | after retagging, the header and the footer both hold `PACK(size, alloc)` |
| Tags.Align | mm.c:62 | for a non-negative size the result is a multiple of 8, at least the size and less than the size plus 8 |
| Requests.AlignWrapped | mm.c:62 | `ALIGN` on a 64-bit `size_t` is a multiple of 8 in range, and equals the exact rounding when no wrap occurs |
| Requests.AdjustedSizeAsWritten | mm.c:123 | the adjusted size as written is a multiple of 8, at least 24 and at most `SIZE_MAX` |
| Requests.AdjustedSizeWraps | mm.c:123 | for requests above `SIZE_MAX`-15 the adjusted size as written is 24, smaller than the request |
| Requests.AdjustedSize | mm.c:123 | a size is granted exactly when `ALIGN(size)+8` fits in `size_t`; it is then a multiple of 8, at least size+8 and 24, and less than size+16 unless it is the minimum |
| Requests.AdjustedSizeAgrees | mm.c:123 | wherever the corrected size exists, it equals the size as written |
| Requests.AdjustedSizeImplicitAsWritten | mm1.c:109-112 | the adjusted size as written is a multiple of 8 within `size_t` |
| Requests.AdjustedSizeImplicitWraps | mm1.c:112 | for a request of `SIZE_MAX` bytes the adjusted size as written is 8 |
| Requests.AdjustedSizeImplicit | mm1.c:109-112 | a size is granted exactly when it does not overflow; it is then a multiple of 8, at least size+8 and 16, and less than size+16 unless it is 16 |
| Requests.AdjustedSizeImplicitAgrees | mm1.c:109-112 | wherever the corrected size exists, it equals the size as written |
| Layout.MemCpy | mm.c:271 | `memcpy` of n bytes between disjoint ranges copies them and leaves every other address alone |
| Layout.MovedPayload | mm.c:269-274 | a copy into a block whose payload is kept afterwards still holds the old block's leading payload bytes |
| Layout.FusedBlock | mm.c:174-212 | a merge of up to three blocks yields one free block at the first start whose size is the sum, with the other blocks unchanged |
| Layout.MergedNoAdjacent | mm.c:174-212 | merging a free block with its free neighbours restores "no two adjacent free blocks" |
| Layout.MergedAllocated | mm.c:174-212 | merging free blocks leaves the set of allocated blocks unchanged |
| Layout.FuseTiled | mm.c:174-212 | writing the merged header and footer keeps the blocks tiling the heap |
| Layout.FuseKeepsPayloads | mm.c:174-212 | writing the merged tags touches no allocated block's payload |
| FreeList.Minus | mm.c:391-400 | removing a set from a list keeps exactly the other members |
| FreeList.MinusOne | mm.c:391-400 | removing one member of a duplicate-free list splices it out at its position |
| FreeList.LinkedAt | mm.h:36-37 | in a linked list, each member's `FREE_PREV` and `FREE_NEXT` slots hold its list neighbours |
| FreeList.Unlink | mm.c:391-400 | the relinking writes of `deleteblock` leave the list linked without the member, writing only link slots of members |
| FreeList.DeleteLinked | mm.c:391-400 | `deleteblock` leaves the list linked without bp and moves the head when bp was the head |
| FreeList.PushLinked | mm.c:377-383 | `insertblock` makes bp the linked head in front of the old list |
| ExplicitHeap.FirstFitFound | mm.c:356-368 | a found fit is the first list member whose size is at least asize |
| ExplicitHeap.FirstFitNone | mm.c:356-368 | `find_fit` returns NULL exactly when no list member is large enough |
| ExplicitHeap.ListTags | mm.c:361 | every list member is tagged free and the prologue sentinel is tagged allocated, so the walk stops at the sentinel |
| ExplicitHeap.Neighbours | mm.c:177-179 | the tags that `coalesce` reads give the sizes and bits of the block and its neighbours, and the first block counts as its own previous block |
| ExplicitHeap.FirstHasNoPrev | mm.c:177 | for the first block, `PREV_BLKP(bp) == bp`, read from a word that holds 0 |
| ExplicitHeap.CoalesceCorrect | mm.c:174-212 | after `coalesce` and the insert, the result starts at the earliest merged block, the merged neighbours leave the list, the result heads it, and the heap is valid with no adjacent free blocks |
| ExplicitHeap.CoalesceFrame | mm.c:174-212 | `coalesce` leaves the payload of every allocated block unchanged |
| ExplicitOps.FreeReady | mm.c:153-164 | after `mm_free` writes free tags, the heap is ready to coalesce at that block |
| ExplicitOps.FreeFrame | mm.c:153-164 | `mm_free` removes exactly the freed block from the allocated set and keeps the others' payloads |
| ExplicitOps.ReleasedStarts | mm.c:153-164 | freeing adds exactly the block's start to the free starts |
| ExplicitOps.ExtendSize | mm.c:300-302 | the grown size is even in words, a multiple of 8, at least the words asked for and the minimum block |
| ExplicitOps.GrowReady | mm.c:294-314 | after `extend_heap` writes the new block and epilogue, the heap is ready to coalesce at the new block |
| ExplicitOps.GrownListed | mm.c:307-312 | after growth and coalescing, the merged block heads the list in front of the old members it did not absorb |
| ExplicitOps.PlacedShape | mm.c:325-346 | the tags written by `place` keep the blocks tiling the heap |
| ExplicitOps.PlacedAdjacent | mm.c:325-346 | a split leaves one free remainder at bp+asize that is the only free block needing a merge; otherwise no two free blocks are adjacent |
| ExplicitOps.PlaceSplitAfter | mm.c:330-339 | coalescing the remainder changes nothing and puts it at the head, in front of the list without bp |
| ExplicitOps.PlaceWholeDone | mm.c:341-345 | taking the whole block keeps the heap valid with bp off the list, and the block joins the allocated set |
| ExplicitOps.ExtendExactly | mm.c:133-135 | growing by `MAX(asize, CHUNKSIZE)` adds exactly asize bytes |
| ExplicitOps.InitialHeap | mm.c:79-96 | the words written by `mm_init` form a valid heap with an empty list headed by the prologue |
| ExplicitOps.InitialExtend | mm.c:98 | the first extension adds one free 24-byte block |
| ExplicitResize.ShrunkHeap | mm.c:247-258 | the in-place shrink keeps the heap valid with the remainder as an allocated block |
| ExplicitResize.ShrunkTiled | mm.c:255-257 | splitting the block in two allocated pieces keeps the blocks tiling the heap |
| ExplicitResize.ShrinkReady | mm.c:253-258 | after the shrink writes, the remainder is ready to free and the kept payload is untouched |
| ExplicitResize.ShrunkAllocated | mm.c:247-258 | the shrink replaces the block by its shortened self, plus the remainder about to be freed |
| ExplicitResize.MoveReady | mm.c:262-271 | the new block is not the old one, and the copy stays inside the new payload, disjoint from the old block |
| ExplicitResize.MoveDone | mm.c:273-274 | after the old block is freed, the result is a reallocation with the new block in the allocated set |
| ExplicitResize.MoveFinished | mm.c:269-274 | through malloc, the copy and the free, the new block holds the old payload, the move is a reallocation, and the other payloads are kept |
| ExplicitResize.ResizeStep | mm.c:241-260 | realloc moves exactly when the adjusted size exceeds the block, and shrinks exactly when the surplus is more than a minimum block |
| ExplicitResize.ResizeWraps | mm.c:226 | for the last 15 sizes below 2^64 the recomputed adjusted size is 24, so realloc keeps or shrinks the block though it holds fewer than size bytes, where the corrected size refuses the request |
| Explicit.Allocator.constructor | mm.c:67-69 | a fresh allocator has an empty arena and the given capacity |
| Explicit.Allocator.Init | mm.c:79-101 | `mm_init` returns 0 or -1; with room for the prologue the heap is valid; with room for a chunk too, the heap holds one free 24-byte block |
| Explicit.Allocator.WritePrologue | mm.c:85-92 | the padding, prologue header, link words, footer and epilogue are written |
| Explicit.Allocator.Malloc | mm.c:112-141 | the result follows the malloc choice: NULL for size 0 or an oversized request, else the first fit, else the block growth leaves, which starts at the free last block or at the old break; NULL leaves everything unchanged; otherwise the blocks become the fit (or the grown block) placed, split or whole, the free list becomes the matching placed list, and the block has room for the request; payloads are kept |
| ExplicitResize.MallocFound | mm.c:126-130 | placing in the first fit gives the malloc outcome: the fit, unchanged break, and the blocks and list of MallocBlocks and MallocList |
| ExplicitResize.MallocExtended | mm.c:133-140 | placing in the grown block gives the malloc outcome: the grown start, the break grown by the adjusted size, and the blocks and list after growth |
| ExplicitResize.MallocRefused | mm.c:135-138 | with no fit and no room to grow, the malloc outcome is NULL |
| Explicit.Allocator.PlaceFit | mm.c:126-130 | with a first fit at block j, that block is placed: the blocks become the placed blocks at j and the list the placed list, and the request is granted |
| Explicit.Allocator.PlaceExtended | mm.c:133-140 | NULL with no change exactly when the arena cannot grow by asize; otherwise the grant starts at the free last block the growth merged with, or at the old break when there was none, and the blocks and list are those of placing asize bytes in the grown heap |
| Explicit.Allocator.FindFit | mm.c:356-368 | the loop returns the first fit of the list |
| Explicit.Allocator.Place | mm.c:325-346 | the block list becomes the placed list, bp leaves the free list, and a split remainder heads it |
| Explicit.Allocator.PlaceSplit | mm.c:330-339 | split: allocated asize block, free remainder at the list head |
| Explicit.Allocator.PlaceWhole | mm.c:341-345 | whole block allocated and unlinked |
| Explicit.Allocator.SplitWrites | mm.c:332-337 | the unlink and the four tag writes of the split |
| Explicit.Allocator.AllocTagsUnlink | mm.c:341-344 | the unlink and the two tag writes of a whole placement |
| Explicit.Allocator.WriteTags | mm.c:161-162 | writes a block's header and footer |
| Explicit.Allocator.Sbrk | mm.c:303 | growth returns the old end, or -1 with nothing changed when it would exceed the capacity |
| Explicit.Allocator.ExtendHeap | mm.c:294-314 | failure changes nothing; success grows by the even-rounded size (at least 24 bytes); the blocks become the grown blocks, with the new block merged with a free last block, and the merged block heads the free list in front of the old members it did not absorb |
| Explicit.Allocator.NewFreeBlock | mm.c:307-312 | the new free block is merged with a free last block and heads the list; the blocks and list are the grown ones |
| Explicit.Allocator.WriteFreeBlock | mm.c:307-309 | the free header, footer and new epilogue are written |
| Explicit.Allocator.Free | mm.c:153-164 | NULL is a no-op; otherwise the block is freed and merged with free neighbours, the merged block heads the list in front of the members it did not absorb, the block leaves the allocated set, and the other payloads are kept |
| Explicit.Allocator.Coalesce | mm.c:174-212 | the result starts at the earliest merged block, the merged neighbours leave the list, the result heads it, and the allocated set is unchanged |
| Explicit.Allocator.MergeNext | mm.c:181-187 | the next-free branch matches the coalesce specification |
| Explicit.Allocator.MergePrev | mm.c:189-196 | the previous-free branch matches the coalesce specification |
| Explicit.Allocator.MergeBoth | mm.c:198-207 | the both-free branch matches the coalesce specification |
| Explicit.Allocator.InsertBlock | mm.c:377-383 | bp becomes the list head in front of the old list |
| Explicit.Allocator.DeleteBlock | mm.c:391-400 | bp leaves the list, and the head moves when bp was the head |
| Explicit.Allocator.Realloc | mm.c:222-277 | size 0 frees and gives NULL; a NULL ptr is malloc, with its blocks and list; an oversized request gives NULL (the as-written wrap is ResizeWraps); otherwise, following `ResizeStep`, a kept block gives back ptr with the arena, blocks and list unchanged, and a shrunk block gives back ptr with the tail freed; otherwise the malloc choice, the old payload copied and the old block freed from the malloc blocks; NULL leaves everything unchanged |
| Explicit.Allocator.Resize | mm.c:238-276 | NULL for an oversized request (corrected: see ResizeWraps); otherwise the case is `ResizeStep` of the adjusted and old sizes: Keep gives ptr with the arena, blocks and list unchanged, ShrinkTo gives ptr with the tail freed, and Move is the malloc choice, moved as the malloc choice, with the malloc blocks and list less the freed old block |
| Explicit.Allocator.ReallocShrink | mm.c:253-258 | the shrink keeps ptr and its payload, and the blocks and list are those of freeing the split-off tail |
| Explicit.Allocator.ShrinkWrites | mm.c:255-257 | the three tag writes of the shrink |
| Explicit.Allocator.ReallocMove | mm.c:262-276 | NULL changes nothing; otherwise the malloc choice holds the old payload and the blocks and list are the malloc ones with the old block freed |
| Explicit.Allocator.MoveInto | mm.c:269-274 | the payload part of the old block is copied into the granted block, the old block is freed from the current blocks and list, and the other payloads are kept |
| Explicit.Allocator.CopyPayload | mm.c:271 | the copy lands in the granted block, the heap stays valid and every other payload is kept |
| ImplicitHeap.ExtendSize | mm1.c:232 | the grown size is the word count rounded up to even, in bytes |
| ImplicitHeap.Step | mm1.c:282 | each step of a walk reads the block's size and bit and moves to the next block; the walk ends at the size-0 allocated epilogue |
| ImplicitHeap.Neighbours | mm1.c:189-191 | the tags `coalesce` reads give the neighbours' bits and the block's size |
| ImplicitHeap.Coalesced | mm1.c:187-223 | the merge keeps the heap valid, moves the rover to the merged start when it was inside, keeps payloads, and the merged block ends where the last merged block ended |
| ImplicitHeap.MergedRoverAt | mm1.c:219-220 | after the rover fix the rover still sits at a block start or at the epilogue |
| ImplicitHeap.RoverNotInside | mm1.c:219-220 | a rover at a block start never lies strictly inside a block |
| ImplicitHeap.MergedAlone | mm1.c:193-194 | with no free neighbour, `coalesce` changes nothing |
| ImplicitHeap.Grown | mm1.c:237-239 | the new free block and epilogue keep the tiling, with only the new block possibly next to a free block |
| ImplicitHeap.GrownMerged | mm1.c:242 | the merged growth ends the heap with one free block starting at the last free block or at the old end |
| ImplicitHeap.Freed | mm1.c:140-144 | writing free tags keeps the tiling with only the freed block needing a merge, and keeps the other payloads |
| ImplicitHeap.FreedHanded | mm1.c:140-144 | freeing removes exactly that block from the allocated set |
| ImplicitHeap.PlacedHeap | mm1.c:248-266 | `place` keeps the heap valid and the rover at a block start, and keeps payloads |
| ImplicitHeap.PlacedAdjacent | mm1.c:253-261 | the split remainder is not next to another free block, so it need not be merged |
| ImplicitHeap.PlacedHanded | mm1.c:248-266 | a placed block grants asize bytes at bp and joins the allocated set |
| ImplicitHeap.SplitPieces | mm1.c:253-261 | a split writes an allocated asize block followed by a free csize-asize block |
| ImplicitHeap.WholePiece | mm1.c:262-265 | without a split the whole csize block becomes allocated |
| ImplicitHeap.InitialHeap | mm1.c:73-83 | the words written by `mm_init` form a valid heap of the prologue alone, with the rover at `heap_listp` |
| ImplicitHeap.PayloadWriteKeeps | mm1.c:177 | writing inside one payload keeps the heap valid and the other payloads |
| ImplicitHeap.MoveReady | mm1.c:167-177 | the new block is not the old one and the copy stays within the new payload |
| ImplicitHeap.MoveDone | mm1.c:180 | after the old block is freed, the move is complete |
| ImplicitHeap.Relocated | mm1.c:167-182 | the whole move grants the request, leaves the old payload's bytes in the new block and keeps every other payload |
| NextFit.FitFrom | mm1.c:282-289 | the first fitting block in a range, with no fit before it |
| NextFit.NextFitIndex | mm1.c:279-291 | next fit: the first fit from the rover to the end, else the first fit from the start to the rover; none exactly when no block fits |
| NextFit.FirstFitIndex | mm1.c:296-303 | the first fitting block of the sequence |
| NextFit.FitFromUnique | mm1.c:282-289 | a fit with no fit before it is the one the scan returns |
| NextFit.Rotated | mm1.c:279-289 | the blocks read from the rover, wrapping around |
| NextFit.NextFitRotated | mm1.c:279-291 | next fit is first fit over the blocks rotated to start at the rover |
| NextFit.NextFitFromStart | mm1.c:296-303 | with the rover at the start, next fit is the compiled-out first fit |
| NextFit.MallocFits | mm1.c:114-117 | a next fit placed gives the malloc outcome: the fit, its placed blocks and the rover on it |
| NextFit.MallocGrows | mm1.c:121-126 | a placement in the grown block gives the malloc outcome: the grown start, the grown break, and the blocks and rover after growth |
| NextFit.MallocFails | mm1.c:121-123 | with no fit and no room to grow, the malloc outcome is NULL with nothing changed |
| HeapCheck.AboveShrinks | mm1.c:350 | each step of the walk strictly shrinks what lies ahead, so the walk ends |
| HeapCheck.WalkFrom | mm1.c:350-354 | a valid heap passes `checkblock` on every block from any block onwards |
| HeapCheck.ShapeChecks | mm1.c:339-360 | a valid heap passes `checkheap` (prologue, every block, epilogue) |
| Implicit.Allocator.constructor | mm1.c:61-64 | a fresh allocator has an empty arena and `heap_listp` of 0 |
| Implicit.Allocator.Init | mm1.c:69-89 | -1 with `heap_listp` of -1 when the first growth fails; otherwise a valid heap with nothing allocated, the rover at `heap_listp`, and one free 16-byte block when the chunk fits |
| Implicit.Allocator.Malloc | mm1.c:95-127 | lazy init (over the heap `mm_init` leaves); then the next-fit choice (size 0 or oversized → NULL, next fit, else growth); NULL leaves blocks, rover and break as they were; otherwise the blocks become the fit (or the grown block) placed and the rover moves to the fit, or where coalescing the growth left it; a granted block has room for the request; payloads are kept |
| Implicit.Allocator.Allocate | mm1.c:106-126 | the malloc choice on an initialised heap, with the blocks and rover it leaves |
| Implicit.Allocator.PlaceFit | mm1.c:114-117 | with a next fit at block k, the blocks become the placed blocks at k, the rover stands on k and the request is granted; without one, NULL and nothing changes |
| Implicit.Allocator.PlaceExtended | mm1.c:121-126 | NULL with nothing changed exactly when the arena cannot grow by `MAX(asize, CHUNKSIZE)`; otherwise the grant starts at the free last block the growth merged with, or at the old break, the blocks are those of placing in the grown heap, and the rover is where coalescing left it |
| Implicit.Allocator.PlaceGrown | mm1.c:124-125 | placing in the grown block gives the blocks and rover of the malloc outcome and grants the request |
| Implicit.Allocator.FindFit | mm1.c:273-291 | the result is the next fit and the rover moves to it; without a fit the result is NULL and the rover is back where it started |
| Implicit.Allocator.SearchUp | mm1.c:282-284 | the first loop returns the first fit from the rover, or ends at the epilogue |
| Implicit.Allocator.SearchWrap | mm1.c:287-289 | the second loop returns the first fit before the old rover, or stops at it |
| Implicit.Allocator.Place | mm1.c:248-266 | the blocks and words become the placed ones, the rover stays, and the block is granted |
| Implicit.Allocator.PlaceWrites | mm1.c:251-265 | the tag writes of the two branches of `place` |
| Implicit.Allocator.Sbrk | mm1.c:233 | growth returns the old end, or -1 with nothing changed |
| Implicit.Allocator.ExtendHeap | mm1.c:226-244 | failure returns NULL before any write; success grows by the even-rounded size and ends with one merged free block; the rover is fixed as `coalesce` does |
| Implicit.Allocator.AddFreeBlock | mm1.c:237-242 | the new block is written and coalesced |
| Implicit.Allocator.NewFreeBlock | mm1.c:237-239 | the free block and the new epilogue are written, and the block is appended |
| Implicit.Allocator.GrowWrites | mm1.c:237-239 | the three tag writes of the growth |
| Implicit.Allocator.Free | mm1.c:132-146 | NULL is a no-op; otherwise the block is freed and merged, the rover is fixed, the block leaves the allocated set, and the other payloads are kept |
| Implicit.Allocator.Coalesce | mm1.c:187-223 | the result starts at the earliest merged block, the blocks are merged, the rover is fixed, and payloads are kept |
| Implicit.Allocator.MergeAround | mm1.c:197-222 | the three merge branches followed by the rover fix |
| Implicit.Allocator.FuseBlocks | mm1.c:197-215 | the merged heap is valid and the merged block ends where the last merged block ended |
| Implicit.Allocator.FuseNeighbours | mm1.c:197-215 | dispatches to the branch and writes the merged tags |
| Implicit.Allocator.MergeNext | mm1.c:197-201 | the next-free branch writes the summed tags at ptr |
| Implicit.Allocator.MergePrev | mm1.c:203-208 | the previous-free branch writes the summed tags at the previous block |
| Implicit.Allocator.MergeBoth | mm1.c:210-215 | the both-free branch writes the summed tags from the previous block to the next |
| Implicit.Allocator.Realloc | mm1.c:151-183 | size 0 frees (the block merged, the rover fixed) and returns NULL; NULL ptr is malloc, with its blocks and rover; otherwise the malloc choice, and a move copies the old payload, and the blocks and rover are the malloc ones with the old block freed; NULL changes nothing |
| Implicit.Allocator.ReallocMove | mm1.c:167-182 | NULL changes nothing; otherwise the malloc choice, with the blocks and rover of malloc followed by the free of the old block |
| Implicit.Allocator.MoveInto | mm1.c:175-180 | the old payload, up to size bytes, reads at the new block, the old block is freed and merged with the rover fixed, and the other payloads are kept |
| Implicit.Allocator.CopyOut | mm1.c:175-177 | the copy length is min(size, old block size); the bytes read at the new block are those of the old one; the old block is the one that IndexOf finds at ptr, it is still in place, and it is not the new block; payloads other than the new block's are kept |
| Implicit.Allocator.CopyPayload | mm1.c:177 | the copy writes only inside the new payload |
| Implicit.Allocator.CheckBlock | mm1.c:328-334 | the result is the `checkblock` predicate (8-aligned, header equal to footer) |
| Implicit.Allocator.CheckHeap | mm1.c:339-360 | the result is the `checkheap` predicate, and a valid heap passes it |

## Left out

- `mem_sbrk` is not part of this model. Growth is `Sbrk` against a fixed capacity. Its three failure checks are one outcome in the model: `NULL` at mm.c:82, and -1 at mm.c:303 and mm1.c:73.
- The arena's words are a map rather than a fixed-size array, because the arena grows. Words the allocator never wrote read 0. `mm.c`'s `coalesce` relies on this at its first block (mm.c:177).
- Tags.Align: rounds in unbounded integers; the 64-bit `size_t` wrap of `ALIGN` is modelled separately by `Requests.AlignWrapped`.
- Addresses are offsets from an arena base assumed to be 8-aligned. Pointer bit patterns are not modelled.
- The link slots at mm.h:36-37 are modelled as one map entry per 8-byte slot. The model does not capture byte-level aliasing between a link slot and the words around it.
- Tag words are unbounded integers. The C `int` overflow of a tag (mm.h:20-21) is excluded by bounding the arena at `MAX_ARENA` (1 GiB).
- Double frees and pointers that `malloc` did not return are excluded by preconditions. The source has undefined behaviour there.
- Implicit.Allocator.Free: requires an initialised heap. The lazy `mm_init` at mm1.c:136-138 can only run for a pointer no block owns, and that case is already excluded.
- Implicit.Allocator.Init: when the first growth fails, `heap_listp` is left at -1 (mm1.c:73). The model records this, but `Valid()` then never holds, so no later call is modelled.
- Implicit.Allocator.MoveInto: the source copies min(size, old block size) bytes (mm1.c:175-177), the whole block with its tags, so up to 8 bytes past the payload. The model performs that copy, but the contract states only min(size, old block size - 8) bytes, the payload part.
- Layout.MemCpy: the arena holds one map entry per byte address, and each entry is a whole word rather than one byte. Copying n addresses copies n entries, so the model does not capture how the bytes of one word are spread over addresses.
- Implicit.Allocator.Realloc: the source copies min(size, old block size) bytes (mm1.c:175-177), including the old footer and the next header when the request is large. The model performs that copy, but the contract states only the old payload's min(size, old block size - 8) bytes.
- Explicit.Allocator.Realloc: as above for mm.c:270-271. The contract states the old payload's bytes that fit in the request.
- `printf`, `printblock` and the verbose output of `checkheap` (mm1.c:308-360) are left out. Only the boolean checks are modelled.
- `mm_checkheap` of `mm.c` (mm.c:282-284) has an empty body and is not modelled.
- `freelist_tail` (mm.c:69,96) is written and never read, so it is not modelled.
- The first-fit branch of `mm1.c` (mm1.c:295-303) is compiled out. It is modelled only as `NextFit.FirstFitIndex`, and `NextFit.NextFitFromStart` relates it to next fit.
- `team_t` and the includes are left out. There is no concurrency.

## Findings

| source | as written | input that shows it | evidently intended | confidence | as-written member | corrected member |
|---|---|---|---|---|---|---|
| mm.c:123 | `MAX(ALIGN(size) + DSIZE, MIN_BLOCK_SIZE)` wraps in 64-bit `size_t` | `size` = 2^64 - 1 gives an adjusted size of 24 | the request is refused (NULL), since no block can hold it | not executed | Requests.AdjustedSizeWraps | Requests.AdjustedSize |
| mm1.c:112 | `ALIGN(DSIZE * ((size + OVERHEAD + DSIZE-1) / DSIZE))` wraps in 64-bit `size_t` | `size` = 2^64 - 1 gives an adjusted size of 8 | the request is refused (NULL) | not executed | Requests.AdjustedSizeImplicitWraps | Requests.AdjustedSizeImplicit |
| mm.c:226 | `mm_realloc` recomputes `MAX(ALIGN(size) + DSIZE, MIN_BLOCK_SIZE)`, which wraps in 64-bit `size_t` | `size` = 2^64 - 1 on any allocated block: the adjusted size is 24, so the block is kept, or shrunk to 24 bytes, and `ptr` is returned | the request is refused (NULL), as for `mm_malloc` | not executed | ExplicitResize.ResizeWraps | Explicit.Allocator.Resize |
