/**
 * The explicit free-list allocator of mm.c: first fit over a LIFO doubly
 * linked list of free blocks, immediate coalescing with boundary tags.
 *
 * Arena layout after mm_init (byte offsets from the start of the arena):
 *   0 padding, 4 prologue header PACK(24, 1), 8..23 prologue payload (its
 *   FREE_PREV slot at 8 is written by the list code; the prologue is the
 *   list's end marker), 24 prologue footer PACK(24, 1), 28 a first epilogue
 *   that the first block's header never overwrites, 32..43 never written.
 *   Blocks grown by extend_heap tile [48, brk), the epilogue PACK(0, 1) is
 *   the word at brk - 4, and the word at 40 stays 0, so that PREV_BLKP of
 *   the first block is the block itself.
 */
module Explicit {
  import opened Tags
  import opened Layout
  import opened FreeList
  import opened ExplicitHeap
  import opened ExplicitOps
  import opened Requests
  import opened ExplicitResize

  class Allocator {
    /** The arena's words, by byte offset. */
    var mem: Mem
    /** The current break: the arena holds the bytes [0, brk). */
    var brk: int
    /** The most the break may grow to; mem_sbrk fails beyond it. */
    const capacity: int
    /** freelist_head: the most recently freed block, or the prologue. */
    var freelistHead: int

    /** The blocks from the first block to the epilogue. */
    ghost var blocks: seq<Blk>
    /** The free list in list order. */
    ghost var freeList: seq<int>

    ghost predicate Valid()
      reads this
    {
      Heap(mem, brk, capacity, blocks, freeList, freelistHead)
    }

    /** A fresh arena of at most capacity bytes, nothing grown yet and every word 0. */
    constructor(capacity: int)
      requires 0 <= capacity <= MAX_ARENA
      ensures this.capacity == capacity && brk == 0 && mem == map[]
    {
      this.capacity := capacity;
      brk := 0;
      mem := map[];
      freelistHead := NULL;
      blocks := [];
      freeList := [];
    }

    /**
     * mm_init: grow the arena by 48 bytes for the padding word, the
     * prologue block (whose payload is the list's end marker) and an
     * epilogue; make the prologue the list head; then extend the heap by
     * one free block.  -1 when either growth fails.
     */
    method Init() returns (r: int)
      requires brk == 0 && mem == map[] && capacity <= MAX_ARENA
      modifies this`mem, this`brk, this`freelistHead, this`freeList, this`blocks
      ensures r == 0 || r == -1
      ensures capacity < 2 * MIN_BLOCK_SIZE ==> r == -1 && brk == 0 && mem == map[]
      ensures 2 * MIN_BLOCK_SIZE <= capacity ==> Valid()
      ensures 2 * MIN_BLOCK_SIZE <= capacity < 3 * MIN_BLOCK_SIZE ==> r == -1 && brk == FIRST && blocks == []
      ensures 3 * MIN_BLOCK_SIZE <= capacity ==>
                r == 0 && brk == FIRST + MIN_BLOCK_SIZE && blocks == [Blk(FIRST, MIN_BLOCK_SIZE, 0)]
    {
      var p := Sbrk(2 * MIN_BLOCK_SIZE);
      if p == -1 {
        return -1;
      }
      WritePrologue(p);
      freelistHead := p + DSIZE;
      blocks := [];
      freeList := [];
      InitialHeap(mem, capacity);
      InitialExtend();
      var bp, _ := ExtendHeap(CHUNKSIZE / WSIZE);
      if bp == NULL {
        return -1;
      }
      r := 0;
    }

    /** mm_init's writes at the start p of the arena: padding, prologue header, its FREE_PREV slot, its footer, an epilogue. */
    method WritePrologue(p: int)
      modifies this`mem
      ensures mem == Put(Put(Put(Put(Put(Put(old(mem), p, 0), p + WSIZE, Pack(MIN_BLOCK_SIZE, 1)), p + DSIZE, 0),
                     p + DSIZE + WSIZE, 0), p + MIN_BLOCK_SIZE, Pack(MIN_BLOCK_SIZE, 1)), p + WSIZE + MIN_BLOCK_SIZE, Pack(0, 1))
    {
      mem := Put(mem, p, 0);
      mem := Put(mem, p + WSIZE, Pack(MIN_BLOCK_SIZE, 1));
      mem := Put(mem, p + DSIZE, 0);
      mem := Put(mem, p + DSIZE + WSIZE, 0);
      mem := Put(mem, p + MIN_BLOCK_SIZE, Pack(MIN_BLOCK_SIZE, 1));
      mem := Put(mem, p + WSIZE + MIN_BLOCK_SIZE, Pack(0, 1));
    }

    /**
     * mm_malloc: NULL for a request of 0 bytes; otherwise place the request
     * in the first free block on the list that holds its adjusted size, or
     * else in the free block extend_heap leaves at the end of the arena.
     * NULL, with nothing changed, when the arena cannot grow enough.  The
     * new list head is the new list's first member (Valid says so).
     */
    method Malloc(size: int) returns (bp: int, ghost j: int)
      requires Valid() && 0 <= size <= SIZE_MAX
      modifies this`mem, this`brk, this`freelistHead, this`freeList, this`blocks
      ensures Valid()
      ensures bp == NULL ==> mem == old(mem) && brk == old(brk) && blocks == old(blocks) &&
                             freeList == old(freeList) && freelistHead == old(freelistHead)
      ensures MallocChoice(old(mem), old(blocks), old(freeList), old(brk), capacity, size, bp, brk)
      ensures bp != NULL ==> Granted(old(blocks), blocks, j, bp, size + DSIZE)
      ensures bp != NULL ==>
                size > 0 && AdjustedSize(size).Some? &&
                blocks == MallocBlocks(old(mem), old(blocks), old(freeList), old(brk), AdjustedSize(size).value) &&
                freeList == MallocList(old(mem), old(blocks), old(freeList), old(brk), AdjustedSize(size).value)
      ensures PayloadsKept(old(mem), mem, AllocatedSet(old(blocks)))
    {
      if size == 0 {
        return NULL, 0;
      }
      var adjusted := AdjustedSize(size);
      if adjusted.None? {
        return NULL, 0;
      }
      var asize := adjusted.value;
      ghost var m0, bs0, fl0, brk0 := mem, blocks, freeList, brk;
      bp := FindFit(asize);
      if bp != NULL {
        j := PlaceFit(bp, asize);
        MallocFound(m0, bs0, fl0, brk0, capacity, size, asize, bp, j, blocks, freeList);
      } else {
        bp, j := PlaceExtended(asize);
        if bp == NULL {
          MallocRefused(m0, bs0, fl0, brk0, capacity, size, asize);
        } else {
          MallocExtended(m0, bs0, fl0, brk0, capacity, size, asize, bp, brk, blocks, freeList);
        }
      }
      if bp != NULL {
        GrantedWeaken(old(blocks), blocks, j, bp, asize, size + DSIZE);
      }
    }

    /** The found-fit branch of mm_malloc: place the request in the first fit bp. */
    method PlaceFit(bp: int, asize: int) returns (ghost j: int)
      requires Valid() && bp != NULL && bp == FirstFit(mem, freeList, asize)
      requires asize % 8 == 0 && asize >= MIN_BLOCK_SIZE
      modifies this`mem, this`freelistHead, this`freeList, this`blocks
      ensures Valid() && brk == old(brk) && Granted(old(blocks), blocks, j, bp, asize)
      ensures j < |old(blocks)| && j == IndexOf(old(blocks), bp)
      ensures blocks == Placed(old(blocks), j, asize)
      ensures freeList == PlacedList(old(freeList), old(blocks)[j], asize)
      ensures PayloadsKept(old(mem), mem, AllocatedSet(old(blocks)))
    {
      j := FitIndex(mem, brk, capacity, blocks, freeList, freelistHead, asize);
      IndexOfChain(blocks, FIRST, brk, j);
      NewlyAllocated(brk, blocks, j, PlacedBlocks(blocks[j], asize)[0]);
      Place(bp, asize, j);
    }

    /**
     * The no-fit branch of mm_malloc: extend the heap by asize bytes and
     * place the request in the free block that ends the arena, which
     * starts at the free last block it merged with, or else at the old
     * break; NULL, with nothing changed, when the arena cannot grow.
     */
    method PlaceExtended(asize: int) returns (bp: int, ghost j: int)
      requires Valid() && asize % 8 == 0 && MIN_BLOCK_SIZE <= asize <= SIZE_MAX
      modifies this`mem, this`brk, this`freelistHead, this`freeList, this`blocks
      ensures Valid()
      ensures old(brk) + asize > capacity ==>
                bp == NULL && mem == old(mem) && brk == old(brk) && blocks == old(blocks) &&
                freeList == old(freeList) && freelistHead == old(freelistHead)
      ensures old(brk) + asize <= capacity ==>
                bp != NULL && bp == GrownStart(old(blocks), old(brk)) && brk == old(brk) + asize &&
                Granted(old(blocks), blocks, j, bp, asize)
      ensures old(brk) + asize <= capacity ==>
                var g := GrownBlocks(old(blocks), old(brk), asize);
                0 <= j && j == |g| - 1 && blocks == Placed(g, j, asize) &&
                freeList == PlacedList(GrownList(old(blocks), old(freeList), old(brk)), g[j], asize)
      ensures PayloadsKept(old(mem), mem, AllocatedSet(old(blocks)))
    {
      var extendsize := Max(asize, CHUNKSIZE);
      ExtendExactly(asize);
      assert (extendsize / WSIZE + 1) * WSIZE <= SIZE_MAX;
      bp, j := ExtendHeap(extendsize / WSIZE);
      if bp == NULL {
        return;
      }
      NewlyAllocated(brk, blocks, j, PlacedBlocks(blocks[j], asize)[0]);
      ghost var m1 := mem;
      Place(bp, asize, j);
      PayloadsKeptTrans(old(mem), m1, mem, AllocatedSet(old(blocks)), AllocatedSet(old(blocks)), AllocatedSet(old(blocks)));
    }

    /**
     * find_fit: walk the free list from its head until the prologue's
     * allocated header ends it; return the first block holding asize bytes.
     */
    method FindFit(asize: int) returns (bp: int)
      requires Valid()
      ensures bp == FirstFit(mem, freeList, asize)
    {
      ListTags(mem, brk, capacity, blocks, freeList);
      bp := freelistHead;
      ghost var k := 0;
      while AllocAt(mem, bp) == 0
        invariant 0 <= k <= |freeList|
        invariant bp == if k < |freeList| then freeList[k] else PROLOGUE
        invariant FirstFit(mem, freeList[k..], asize) == FirstFit(mem, freeList, asize)
        decreases |freeList| - k
      {
        if asize <= SizeAt(mem, bp) {
          return;
        }
        assert freeList[k..][1..] == freeList[k + 1..];
        LinkedAt(mem, freeList, freelistHead, k);
        bp := Get(mem, FreeNext(bp));
        k := k + 1;
      }
      bp := NULL;
    }

    /**
     * place: allocate asize bytes of the free block j at bp.  When the rest
     * can be a block of its own (at least MIN_BLOCK_SIZE bytes), bp keeps
     * asize bytes and the rest becomes a free block, which is coalesced and
     * pushed on the free list; otherwise the whole block is allocated.
     * Either way bp leaves the free list.
     */
    method Place(bp: int, asize: int, ghost j: int)
      requires Valid() && 0 <= j < |blocks| && blocks[j].bp == bp && blocks[j].alloc == 0
      requires asize % 8 == 0 && MIN_BLOCK_SIZE <= asize <= blocks[j].size
      modifies this`mem, this`freelistHead, this`freeList, this`blocks
      ensures Valid() && brk == old(brk)
      ensures blocks == Placed(old(blocks), j, asize)
      ensures blocks[j] == PlacedBlocks(old(blocks)[j], asize)[0]
      ensures AllocatedSet(blocks) == AllocatedSet(old(blocks)) + {blocks[j]}
      ensures freeList == PlacedList(old(freeList), old(blocks)[j], asize)
      ensures PayloadsKept(old(mem), mem, AllocatedSet(old(blocks)))
    {
      var csize := SizeAt(mem, bp);
      assert csize == blocks[j].size by {
        Neighbours(mem, brk, capacity, blocks, j);
      }
      PlacedListAt(freeList, blocks[j], bp, asize);
      if csize - asize >= MIN_BLOCK_SIZE {
        PlaceSplit(bp, csize, asize, j);
      } else {
        PlaceWhole(bp, csize, asize, j);
      }
    }

    /** The branch of place that splits block j: asize bytes allocated, the rest a free block. */
    method PlaceSplit(bp: int, csize: int, asize: int, ghost j: int)
      requires Valid() && 0 <= j < |blocks| && blocks[j].bp == bp && blocks[j].alloc == 0
      requires asize % 8 == 0 && MIN_BLOCK_SIZE <= asize && csize == blocks[j].size && csize - asize >= MIN_BLOCK_SIZE
      modifies this`mem, this`freelistHead, this`freeList, this`blocks
      ensures Valid() && brk == old(brk)
      ensures blocks == Placed(old(blocks), j, asize)
      ensures blocks[j] == PlacedBlocks(old(blocks)[j], asize)[0]
      ensures AllocatedSet(blocks) == AllocatedSet(old(blocks)) + {blocks[j]}
      ensures freeList == [bp + asize] + Minus(old(freeList), {bp})
      ensures PayloadsKept(old(mem), mem, AllocatedSet(old(blocks)))
    {
      ghost var m0, bs, fl0, head0 := mem, blocks, freeList, freelistHead;
      assert Shaped(bs[j]) && RelinkOutside(m0, bp, Hdrp(bp), End(bs[j]) - WSIZE) by {
        NeighboursOutside(m0, brk, capacity, bs, fl0, head0, j);
      }
      assert bs[j] == Blk(bp, csize, 0);
      var next := SplitWrites(bp, csize, asize);
      SplitWritten(Unlinked(m0, bp), mem, bp, csize, asize);
      blocks := Placed(bs, j, asize);
      PlaceSplitBefore(m0, brk, capacity, bs, fl0, head0, j, asize, mem, freelistHead, freeList);
      ghost var m3 := mem;
      var _ := Coalesce(next, j + 1);
      PlaceSplitAfter(brk, bs, fl0, j, bp, asize);
      PayloadsKeptTrans(m0, m3, mem, AllocatedSet(bs), AllocatedSet(blocks), AllocatedSet(bs));
    }

    /** The branch of place that allocates all of block j. */
    method PlaceWhole(bp: int, csize: int, asize: int, ghost j: int)
      requires Valid() && 0 <= j < |blocks| && blocks[j].bp == bp && blocks[j].alloc == 0
      requires asize % 8 == 0 && MIN_BLOCK_SIZE <= asize <= csize && csize == blocks[j].size && csize - asize < MIN_BLOCK_SIZE
      modifies this`mem, this`freelistHead, this`freeList, this`blocks
      ensures Valid() && brk == old(brk)
      ensures blocks == Placed(old(blocks), j, asize)
      ensures blocks[j] == PlacedBlocks(old(blocks)[j], asize)[0]
      ensures AllocatedSet(blocks) == AllocatedSet(old(blocks)) + {blocks[j]}
      ensures freeList == Minus(old(freeList), {bp})
      ensures PayloadsKept(old(mem), mem, AllocatedSet(old(blocks)))
    {
      ghost var m0, bs, fl0, head0 := mem, blocks, freeList, freelistHead;
      assert Shaped(bs[j]) && RelinkOutside(m0, bp, Hdrp(bp), End(bs[j]) - WSIZE) by {
        NeighboursOutside(m0, brk, capacity, bs, fl0, head0, j);
      }
      AllocTagsUnlink(bp, csize, bp + csize - WSIZE);
      blocks := Placed(bs, j, asize);
      PlaceWholeDone(m0, brk, capacity, bs, fl0, head0, j, asize, mem, freelistHead, freeList);
    }

    /**
     * The writes of place's split branch, up to its call of coalesce: the
     * allocated part's tags, deleteblock(bp), and the free remainder's tags
     * at NEXT_BLKP(bp), which is returned.  Since the link slots deleteblock
     * writes lie outside bp's block, this is the same as unlinking bp first.
     */
    method SplitWrites(bp: int, csize: int, asize: int) returns (next: int)
      requires bp % 8 == 0 && asize % 8 == 0 && csize % 8 == 0 && MIN_BLOCK_SIZE <= asize && csize - asize >= MIN_BLOCK_SIZE
      requires RelinkOutside(mem, bp, Hdrp(bp), bp + csize - WSIZE)
      modifies this`mem, this`freelistHead, this`freeList
      ensures next == bp + asize
      ensures mem == Retagged(Retagged(Unlinked(old(mem), bp), bp, asize, 1), bp + asize, csize - asize, 0)
      ensures freelistHead == UnlinkedHead(old(mem), old(freelistHead), bp)
      ensures freeList == Minus(old(freeList), {bp})
      ensures brk == old(brk) && blocks == old(blocks)
    {
      AllocTagsUnlink(bp, asize, bp + csize - WSIZE);
      PackRoundTrip(asize, 1);
      next := NextBlkp(mem, bp);
      AlignedDiff(csize, asize);
      WriteTags(next, csize - asize, 0);
    }

    /**
     * place's first writes: allocated tags for size bytes at bp, then
     * deleteblock(bp). The list neighbours lie outside the tags (up to hi),
     * so this is the same as unlinking bp first and then tagging.
     */
    method AllocTagsUnlink(bp: int, size: int, ghost hi: int)
      requires size % 8 == 0 && size >= MIN_BLOCK_SIZE
      requires RelinkOutside(mem, bp, Hdrp(bp), hi) && bp + size - WSIZE <= hi
      modifies this`mem, this`freelistHead, this`freeList
      ensures mem == Retagged(Unlinked(old(mem), bp), bp, size, 1)
      ensures freelistHead == UnlinkedHead(old(mem), old(freelistHead), bp)
      ensures freeList == Minus(old(freeList), {bp})
      ensures brk == old(brk) && blocks == old(blocks)
    {
      ghost var m0, head0 := mem, freelistHead;
      WriteTags(bp, size, 1);
      DeleteBlock(bp);
      UnlinkAfterTags(m0, bp, size, 1, head0, hi);
    }

    /** The two tag writes that make bp a block of size bytes: its header, then the footer the header locates. */
    method WriteTags(bp: int, size: int, alloc: int)
      requires size % 8 == 0 && (alloc == 0 || alloc == 1)
      modifies this`mem
      ensures mem == Retagged(old(mem), bp, size, alloc)
    {
      PackRoundTrip(size, alloc);
      mem := Put(mem, Hdrp(bp), Pack(size, alloc));
      mem := Put(mem, Ftrp(mem, bp), Pack(size, alloc));
    }

    /**
     * mem_sbrk, as the allocator relies on it: grow the arena by incr bytes
     * and return the old break, or -1 when the arena would exceed its
     * capacity.
     */
    method Sbrk(incr: int) returns (p: int)
      requires incr >= 0
      modifies this`brk
      ensures old(brk) + incr <= capacity ==> p == old(brk) && brk == old(brk) + incr
      ensures old(brk) + incr > capacity ==> p == -1 && brk == old(brk)
    {
      if brk + incr <= capacity {
        p := brk;
        brk := brk + incr;
      } else {
        p := -1;
      }
    }

    /**
     * extend_heap: grow the arena by ExtendSize(words) bytes, turn the new
     * space into a free block ending in a new epilogue, and coalesce it
     * with a free last block.  Returns NULL, changing nothing, when the
     * arena cannot grow.
     */
    method ExtendHeap(words: int) returns (bp: int, ghost j: int)
      requires Valid() && 0 <= words && (words + 1) * WSIZE <= SIZE_MAX
      modifies this`mem, this`brk, this`freelistHead, this`freeList, this`blocks
      ensures Valid()
      ensures AllocatedSet(blocks) == AllocatedSet(old(blocks))
      ensures PayloadsKept(old(mem), mem, AllocatedSet(blocks))
      ensures old(brk) + ExtendSize(words) > capacity ==>
                bp == NULL && brk == old(brk) && mem == old(mem) && blocks == old(blocks) &&
                freeList == old(freeList) && freelistHead == old(freelistHead)
      ensures old(brk) + ExtendSize(words) <= capacity ==>
                brk == old(brk) + ExtendSize(words) &&
                blocks == GrownBlocks(old(blocks), old(brk), ExtendSize(words)) &&
                freeList == GrownList(old(blocks), old(freeList), old(brk)) &&
                bp == GrownStart(old(blocks), old(brk)) && bp != NULL &&
                j == |blocks| - 1 && blocks[j] == Blk(bp, brk - bp, 0) && brk - bp >= ExtendSize(words)
    {
      var size := if words % 2 == 1 then (words + 1) * WSIZE else words * WSIZE;
      if size < MIN_BLOCK_SIZE {
        size := MIN_BLOCK_SIZE;
      }
      bp := Sbrk(size);
      if bp == -1 {
        return NULL, 0;
      }
      bp, j := NewFreeBlock(bp, size);
      Bounds(blocks, FIRST, brk, j);
    }

    /**
     * The second half of extend_heap, once the arena has grown by size
     * bytes from bp: write the new free block and the new epilogue, and
     * coalesce the block with a free last block.
     */
    method NewFreeBlock(bp: int, size: int) returns (r: int, ghost j: int)
      requires Heap(mem, bp, capacity, blocks, freeList, freelistHead)
      requires brk == bp + size <= capacity && size % 8 == 0 && size >= MIN_BLOCK_SIZE
      modifies this`mem, this`freelistHead, this`freeList, this`blocks
      ensures Valid() && brk == old(brk)
      ensures AllocatedSet(blocks) == AllocatedSet(old(blocks))
      ensures PayloadsKept(old(mem), mem, AllocatedSet(blocks))
      ensures blocks == GrownBlocks(old(blocks), bp, size)
      ensures freeList == GrownList(old(blocks), old(freeList), bp)
      ensures r == GrownStart(old(blocks), bp)
      ensures j == |blocks| - 1 && blocks[j] == Blk(r, brk - r, 0) && brk - r >= size
    {
      ghost var m0, bs, fl := mem, blocks, freeList;
      WriteFreeBlock(bp, size);
      blocks := bs + [Blk(bp, size, 0)];
      GrowReady(m0, bp, capacity, bs, freeList, freelistHead, size, mem, brk, blocks);
      ghost var m1 := mem;
      r := Coalesce(bp, |bs|);
      PayloadsKeptTrans(m0, m1, mem, AllocatedSet(blocks), AllocatedSet(blocks), AllocatedSet(blocks));
      GrownMerged(bp, bs, size, blocks, r);
      GrownListed(bp, bs, fl, size);
      j := |blocks| - 1;
    }

    /** The writes of extend_heap: the new block's free tags, then the epilogue after it. */
    method WriteFreeBlock(bp: int, size: int)
      requires size % 8 == 0
      modifies this`mem
      ensures mem == ExtendedMem(old(mem), bp, size)
    {
      PackRoundTrip(size, 0);
      mem := Put(mem, Hdrp(bp), Pack(size, 0));
      mem := Put(mem, Ftrp(mem, bp), Pack(size, 0));
      mem := Put(mem, Hdrp(NextBlkp(mem, bp)), Pack(0, 1));
    }

    /**
     * mm_free: NULL is ignored; otherwise the tags of block i are rewritten
     * as free and the block is coalesced with its free neighbours.
     */
    method Free(bp: int, ghost i: int)
      requires bp == NULL ==> Valid()
      requires bp != NULL ==> Freeable(mem, brk, capacity, blocks, freeList, freelistHead, i) && blocks[i].bp == bp
      modifies this`mem, this`freelistHead, this`freeList, this`blocks
      ensures Valid() && brk == old(brk)
      ensures bp == NULL ==> mem == old(mem) && blocks == old(blocks) && freeList == old(freeList)
      ensures bp != NULL ==> blocks == FreedBlocks(old(blocks), i)
      ensures bp != NULL ==> freeList == FreedList(old(blocks), old(freeList), i)
      ensures bp != NULL ==> AllocatedSet(blocks) == AllocatedSet(old(blocks)) - {old(blocks)[i]}
      ensures PayloadsKept(old(mem), mem, AllocatedSet(blocks))
    {
      if bp == NULL {
        return;
      }
      ghost var m0, bs := mem, blocks;
      FreeReady(mem, brk, capacity, blocks, freeList, freelistHead, i);
      FreeFrame(mem, brk, capacity, blocks, freeList, freelistHead, i);
      var size := SizeAt(mem, bp);
      mem := Put(mem, Hdrp(bp), Pack(size, 0));
      mem := Put(mem, Ftrp(mem, bp), Pack(size, 0));
      assert mem == TagsWritten(m0, bp, size, 0);
      blocks := Released(blocks, i);
      ghost var m1 := mem;
      var _ := Coalesce(bp, i);
      PayloadsKeptTrans(m0, m1, mem, AllocatedSet(blocks), AllocatedSet(blocks), AllocatedSet(blocks));
    }

    /**
     * coalesce: merge the free block i at bp with whichever of its
     * neighbours are free, unlinking them, and push the merged block on the
     * free list.  On entry bp is not yet on the list; every other free block
     * is, and only block i may have a free neighbour.
     */
    method Coalesce(bp: int, ghost i: int) returns (r: int)
      requires Coalescable(mem, brk, capacity, blocks, freeList, freelistHead, i) && blocks[i].bp == bp
      modifies this`mem, this`freelistHead, this`freeList, this`blocks
      ensures Valid()
      ensures r == old(blocks)[MergeLo(old(blocks), i)].bp
      ensures blocks == Merged(old(blocks), i)
      ensures freeList == [r] + Minus(old(freeList), FreeStarts(old(blocks)[MergeLo(old(blocks), i)..MergeHi(old(blocks), i)]))
      ensures AllocatedSet(blocks) == AllocatedSet(old(blocks))
      ensures PayloadsKept(old(mem), mem, AllocatedSet(old(blocks)))
      ensures brk == old(brk)
    {
      ghost var m0, head0, bs, fl, brk0 := mem, freelistHead, blocks, freeList, brk;
      var prevAlloc := PrevAllocated(mem, bp);
      var nextAlloc := NextAllocated(mem, bp);
      var size := SizeAt(mem, bp);
      CoalescedCases(m0, head0, fl, bp);
      ghost var c := Coalesced(m0, head0, fl, bp);
      r := bp;
      if prevAlloc && !nextAlloc {
        MergeNext(bp, size);
      } else if !prevAlloc && nextAlloc {
        r := MergePrev(bp, size);
      } else if !prevAlloc && !nextAlloc {
        r := MergeBoth(bp, size);
      }
      assert Coalescing(mem, freelistHead, freeList, r) == c && brk == brk0;
      blocks := Merged(bs, i);
      InsertBlock(r);
      CoalesceCorrect(m0, brk0, capacity, bs, fl, head0, i);
      CoalesceFrame(m0, brk0, capacity, bs, fl, head0, i);
      MergedAllocated(bs, i);
    }

    /** The first case of coalesce: only the next block is free; bp absorbs it. */
    method MergeNext(bp: int, size: int)
      requires PrevAllocated(mem, bp) && !NextAllocated(mem, bp) && size == SizeAt(mem, bp)
      modifies this`mem, this`freelistHead, this`freeList
      ensures Coalescing(mem, freelistHead, freeList, bp) == Coalesced(old(mem), old(freelistHead), old(freeList), bp)
      ensures brk == old(brk) && blocks == old(blocks)
    {
      CoalescedCases(mem, freelistHead, freeList, bp);
      var size := size + SizeAt(mem, NextBlkp(mem, bp));
      DeleteBlock(NextBlkp(mem, bp));
      mem := Put(mem, Hdrp(bp), Pack(size, 0));
      mem := Put(mem, Ftrp(mem, bp), Pack(size, 0));
    }

    /** The second case of coalesce: only the previous block is free; it absorbs bp. */
    method MergePrev(bp: int, size: int) returns (r: int)
      requires !PrevAllocated(mem, bp) && NextAllocated(mem, bp) && size == SizeAt(mem, bp)
      modifies this`mem, this`freelistHead, this`freeList
      ensures Coalescing(mem, freelistHead, freeList, r) == Coalesced(old(mem), old(freelistHead), old(freeList), bp)
      ensures brk == old(brk) && blocks == old(blocks)
    {
      CoalescedCases(mem, freelistHead, freeList, bp);
      var size := size + SizeAt(mem, PrevBlkp(mem, bp));
      r := PrevBlkp(mem, bp);
      DeleteBlock(r);
      mem := Put(mem, Hdrp(r), Pack(size, 0));
      mem := Put(mem, Ftrp(mem, r), Pack(size, 0));
    }

    /** The third case of coalesce: both neighbours are free; the previous one absorbs bp and the next one. */
    method MergeBoth(bp: int, size: int) returns (r: int)
      requires !PrevAllocated(mem, bp) && !NextAllocated(mem, bp) && size == SizeAt(mem, bp)
      modifies this`mem, this`freelistHead, this`freeList
      ensures Coalescing(mem, freelistHead, freeList, r) == Coalesced(old(mem), old(freelistHead), old(freeList), bp)
      ensures brk == old(brk) && blocks == old(blocks)
    {
      CoalescedCases(mem, freelistHead, freeList, bp);
      var size := size + SizeAt(mem, PrevBlkp(mem, bp)) + SizeAt(mem, NextBlkp(mem, bp));
      DeleteBlock(PrevBlkp(mem, bp));
      DeleteBlock(NextBlkp(mem, bp));
      r := PrevBlkp(mem, bp);
      mem := Put(mem, Hdrp(r), Pack(size, 0));
      mem := Put(mem, Ftrp(mem, r), Pack(size, 0));
    }

    /** insertblock: push bp on the front of the free list. */
    method InsertBlock(bp: int)
      modifies this`mem, this`freelistHead, this`freeList
      ensures mem == Pushed(old(mem), old(freelistHead), bp)
      ensures freelistHead == bp
      ensures freeList == [bp] + old(freeList)
      ensures brk == old(brk) && blocks == old(blocks)
    {
      mem := Put(mem, FreeNext(bp), freelistHead);
      mem := Put(mem, FreePrev(freelistHead), bp);
      mem := Put(mem, FreePrev(bp), NULL);
      freelistHead := bp;
      freeList := [bp] + freeList;
    }

    /** deleteblock: unlink bp from the free list. */
    method DeleteBlock(bp: int)
      modifies this`mem, this`freelistHead, this`freeList
      ensures mem == Unlinked(old(mem), bp)
      ensures freelistHead == UnlinkedHead(old(mem), old(freelistHead), bp)
      ensures freeList == Minus(old(freeList), {bp})
      ensures brk == old(brk) && blocks == old(blocks)
    {
      var previous := Get(mem, FreePrev(bp));
      var next := Get(mem, FreeNext(bp));
      if previous != NULL {
        mem := Put(mem, FreeNext(previous), next);
      } else {
        freelistHead := next;
      }
      mem := Put(mem, FreePrev(next), previous);
      freeList := Minus(freeList, {bp});
    }
  
    /**
     * mm_realloc: size 0 frees ptr and gives NULL; a NULL ptr is mm_malloc;
     * a block already of the adjusted size, or one whose surplus could not
     * form a minimum block, is kept as it is; a larger surplus is split off
     * and freed; otherwise the payload moves to a block mm_malloc hands out
     * and the old block is freed.  NULL, with the old block untouched, when
     * mm_malloc fails or no block size fits a size_t (where mm.c's wrapping
     * adjusted size keeps the block instead; see ResizeWraps).
     */
    method Realloc(ptr: int, size: int, ghost i: int) returns (r: int, ghost j: int)
      requires Valid() && 0 <= size <= SIZE_MAX
      requires ptr != NULL ==> 0 <= i < |blocks| && blocks[i].bp == ptr && blocks[i].alloc == 1
      modifies this`mem, this`brk, this`freelistHead, this`freeList, this`blocks
      ensures Valid()
      ensures size == 0 ==> r == NULL && brk == old(brk)
      ensures size == 0 && ptr == NULL ==> mem == old(mem) && blocks == old(blocks) && freeList == old(freeList)
      ensures size == 0 && ptr != NULL ==> AllocatedSet(blocks) == AllocatedSet(old(blocks)) - {old(blocks)[i]}
      ensures size == 0 && ptr != NULL ==>
                blocks == FreedBlocks(old(blocks), i) && freeList == FreedList(old(blocks), old(freeList), i)
      ensures size > 0 && r == NULL ==> mem == old(mem) && brk == old(brk) && blocks == old(blocks) &&
                                        freeList == old(freeList) && freelistHead == old(freelistHead)
      ensures ptr == NULL ==> MallocChoice(old(mem), old(blocks), old(freeList), old(brk), capacity, size, r, brk)
      ensures ptr == NULL && r != NULL ==> Granted(old(blocks), blocks, j, r, size + DSIZE)
      ensures ptr == NULL && r != NULL ==>
                size > 0 && AdjustedSize(size).Some? &&
                blocks == MallocBlocks(old(mem), old(blocks), old(freeList), old(brk), AdjustedSize(size).value) &&
                freeList == MallocList(old(mem), old(blocks), old(freeList), old(brk), AdjustedSize(size).value)
      ensures ptr == NULL ==> PayloadsKept(old(mem), mem, AllocatedSet(old(blocks)))
      ensures ptr != NULL && size > 0 ==>
                var osize := old(blocks)[i].size;
                (AdjustedSize(size).None? ==> r == NULL) &&
                (AdjustedSize(size).Some? ==>
                   var step := ResizeStep(AdjustedSize(size).value, osize);
                   (step != Move ==> r == ptr && brk == old(brk)) &&
                   (step == Keep ==> mem == old(mem) && blocks == old(blocks) && freeList == old(freeList)) &&
                   (step.ShrinkTo? ==>
                      blocks == FreedBlocks(Shrunk(old(blocks), i, step.asize), i + 1) &&
                      freeList == FreedList(Shrunk(old(blocks), i, step.asize), old(freeList), i + 1)) &&
                   (step == Move ==> MallocChoice(old(mem), old(blocks), old(freeList), old(brk), capacity, size, r, brk)) &&
                   (step == Move && r != NULL ==>
                      MovedHeap(old(mem), old(blocks), old(freeList), old(brk), AdjustedSize(size).value, ptr, blocks, freeList)))
      ensures ptr != NULL && r != NULL ==>
                Reallocated(old(blocks), blocks, i, j, r, size + DSIZE) &&
                Copied(old(mem), mem, ptr, r, Min(size, old(blocks)[i].size - DSIZE))
      ensures ptr != NULL ==> PayloadsKept(old(mem), mem, AllocatedSet(old(blocks)) - {old(blocks)[i]})
    {
      if size == 0 {
        if ptr != NULL {
          HeapFreeable(mem, brk, capacity, blocks, freeList, freelistHead, i);
        }
        Free(ptr, i);
        return NULL, 0;
      }
      if ptr == NULL {
        r, j := Malloc(size);
        return;
      }
      r, j := Resize(ptr, size, i);
    }

    /**
     * mm_realloc of a block to a positive size: keep the block when it is
     * already of the adjusted size or its surplus could not form a minimum
     * block, split the surplus off and free it when it could, and otherwise
     * move the payload to a new block.
     */
    method Resize(ptr: int, size: int, ghost i: int) returns (r: int, ghost j: int)
      requires Valid() && 0 < size <= SIZE_MAX
      requires 0 <= i < |blocks| && blocks[i].bp == ptr && blocks[i].alloc == 1
      modifies this`mem, this`brk, this`freelistHead, this`freeList, this`blocks
      ensures Valid()
      ensures r == NULL ==> mem == old(mem) && brk == old(brk) && blocks == old(blocks) &&
                            freeList == old(freeList) && freelistHead == old(freelistHead)
      ensures AdjustedSize(size).None? ==> r == NULL
      ensures AdjustedSize(size).Some? ==>
                var step := ResizeStep(AdjustedSize(size).value, old(blocks)[i].size);
                (step != Move ==> r == ptr && brk == old(brk)) &&
                (step == Keep ==> mem == old(mem) && blocks == old(blocks) && freeList == old(freeList)) &&
                (step.ShrinkTo? ==>
                   blocks == FreedBlocks(Shrunk(old(blocks), i, step.asize), i + 1) &&
                   freeList == FreedList(Shrunk(old(blocks), i, step.asize), old(freeList), i + 1)) &&
                (step == Move ==> MallocChoice(old(mem), old(blocks), old(freeList), old(brk), capacity, size, r, brk)) &&
                (step == Move && r != NULL ==>
                   MovedHeap(old(mem), old(blocks), old(freeList), old(brk), AdjustedSize(size).value, ptr, blocks, freeList))
      ensures r != NULL ==> Reallocated(old(blocks), blocks, i, j, r, size + DSIZE)
      ensures r != NULL ==> Copied(old(mem), mem, ptr, r, Min(size, old(blocks)[i].size - DSIZE))
      ensures PayloadsKept(old(mem), mem, AllocatedSet(old(blocks)) - {old(blocks)[i]})
    {
      var adjusted := AdjustedSize(size);
      if adjusted.None? {
        return NULL, 0;
      }
      var asize := adjusted.value;
      assert Tagged(mem, blocks[i]);
      TagsRead(mem, blocks[i]);
      Bounds(blocks, FIRST, brk, i);
      var oldsize := SizeAt(mem, ptr);
      match ResizeStep(asize, oldsize)
      case Keep =>
        assert blocks[i] in AllocatedSet(blocks);
        return ptr, i;
      case ShrinkTo(_) =>
        j := ReallocShrink(ptr, asize, oldsize, i);
        return ptr, j;
      case Move =>
        r, j := ReallocMove(ptr, size, oldsize, i);
    }

    /**
     * The shrinking branch of mm_realloc: retag block i as asize bytes,
     * tag the rest as an allocated block and free it.
     */
    method ReallocShrink(ptr: int, asize: int, osize: int, ghost i: int) returns (ghost j: int)
      requires Valid() && 0 <= i < |blocks| && blocks[i].bp == ptr && blocks[i].alloc == 1 && blocks[i].size == osize
      requires asize % 8 == 0 && MIN_BLOCK_SIZE <= asize && osize - asize > MIN_BLOCK_SIZE
      modifies this`mem, this`freelistHead, this`freeList, this`blocks
      ensures Valid() && brk == old(brk)
      ensures Reallocated(old(blocks), blocks, i, j, ptr, asize)
      ensures blocks == FreedBlocks(Shrunk(old(blocks), i, asize), i + 1)
      ensures freeList == FreedList(Shrunk(old(blocks), i, asize), old(freeList), i + 1)
      ensures Untouched(old(mem), mem, ptr, ptr + asize - DSIZE)
      ensures PayloadsKept(old(mem), mem, AllocatedSet(old(blocks)) - {old(blocks)[i]})
    {
      ghost var m0, bs := mem, blocks;
      var next := ShrinkWrites(ptr, asize, osize);
      ShrinkReady(m0, mem, brk, capacity, bs, freeList, freelistHead, i, ptr, asize, osize);
      SpanFrame(m0, mem, FIRST, brk, bs, i);
      ghost var m1 := mem;
      blocks := Shrunk(bs, i, asize);
      Free(next, i + 1);
      j := ShrinkDone(brk, bs, blocks, i, ptr, asize);
      assert Untouched(m1, mem, ptr, End(Blk(ptr, asize, 1)) - DSIZE);
      UntouchedTrans(m0, m1, mem, ptr, ptr + asize - DSIZE);
      PayloadsKeptTrans(m0, m1, mem, AllocatedSet(bs) - {bs[i]}, AllocatedSet(blocks), AllocatedSet(bs) - {bs[i]});
    }

    /**
     * The three writes of the in-place shrink: the new header, the new
     * footer found through it, and the header of the block after it, which
     * gets the surplus, marked allocated.
     */
    method ShrinkWrites(ptr: int, asize: int, osize: int) returns (next: int)
      requires asize % 8 == 0 && asize >= MIN_BLOCK_SIZE
      modifies this`mem
      ensures mem == Put(Put(Put(old(mem), Hdrp(ptr), Pack(asize, 1)), ptr + asize - DSIZE, Pack(asize, 1)),
                         ptr + asize - WSIZE, Pack(osize - asize, 1))
      ensures next == ptr + asize
    {
      PackRoundTrip(asize, 1);
      mem := Put(mem, Hdrp(ptr), Pack(asize, 1));
      mem := Put(mem, Ftrp(mem, ptr), Pack(asize, 1));
      mem := Put(mem, Hdrp(NextBlkp(mem, ptr)), Pack(osize - asize, 1));
      next := NextBlkp(mem, ptr);
    }

    /**
     * The moving branch of mm_realloc: mm_malloc a block for size bytes,
     * copy min(size, osize) bytes of the old block into it and free the
     * old block; NULL, with nothing changed, when mm_malloc fails.
     */
    method ReallocMove(ptr: int, size: int, osize: int, ghost i: int) returns (r: int, ghost j: int)
      requires Valid() && 0 <= i < |blocks| && blocks[i].bp == ptr && blocks[i].alloc == 1 && blocks[i].size == osize
      requires 0 < size <= SIZE_MAX && osize < size + DSIZE
      modifies this`mem, this`brk, this`freelistHead, this`freeList, this`blocks
      ensures Valid()
      ensures MallocChoice(old(mem), old(blocks), old(freeList), old(brk), capacity, size, r, brk)
      ensures r == NULL ==> mem == old(mem) && brk == old(brk) && blocks == old(blocks) &&
                            freeList == old(freeList) && freelistHead == old(freelistHead)
      ensures r != NULL ==> Reallocated(old(blocks), blocks, i, j, r, size + DSIZE)
      ensures r != NULL ==>
                AdjustedSize(size).Some? &&
                MovedHeap(old(mem), old(blocks), old(freeList), old(brk), AdjustedSize(size).value, ptr, blocks, freeList)
      ensures r != NULL ==> Copied(old(mem), mem, ptr, r, osize - DSIZE)
      ensures PayloadsKept(old(mem), mem, AllocatedSet(old(blocks)) - {old(blocks)[i]})
    {
      ghost var m0, bs0 := mem, blocks;
      var newptr, j1 := Malloc(size);
      if newptr == NULL {
        return NULL, 0;
      }
      assert Shaped(bs0[i]);
      j := MoveInto(ptr, size, osize, newptr, m0, bs0, i, j1);
      r := newptr;
    }

    /**
     * mm_realloc once mm_malloc granted block j1 at newptr: copy
     * min(size, osize) bytes of the old block i of bs0 into it, then free
     * the old block.
     */
    method MoveInto(ptr: int, size: int, osize: int, newptr: int, ghost m0: Mem, ghost bs0: seq<Blk>, ghost i: int, ghost j1: int)
      returns (ghost j: int)
      requires Valid() && 0 <= i < |bs0| && bs0[i].bp == ptr && bs0[i].alloc == 1 && bs0[i].size == osize
      requires 0 < size && MIN_BLOCK_SIZE <= osize < size + DSIZE
      requires Granted(bs0, blocks, j1, newptr, size + DSIZE) && PayloadsKept(m0, mem, AllocatedSet(bs0))
      modifies this`mem, this`freelistHead, this`freeList, this`blocks
      ensures Valid() && brk == old(brk)
      ensures Reallocated(bs0, blocks, i, j, newptr, size + DSIZE)
      ensures var k := IndexOf(old(blocks), ptr);
              k < |old(blocks)| && blocks == FreedBlocks(old(blocks), k) &&
              freeList == FreedList(old(blocks), old(freeList), k)
      ensures Copied(m0, mem, ptr, newptr, osize - DSIZE)
      ensures PayloadsKept(m0, mem, AllocatedSet(bs0) - {bs0[i]})
    {
      ghost var m1, bs1 := mem, blocks;
      var n := if size < osize then size else osize;
      ghost var k := MoveReady(brk, bs0, bs1, i, j1, newptr, size + DSIZE, n);
      IndexOfChain(bs1, FIRST, brk, k);
      CopyPayload(newptr, ptr, n, j1);
      HeapFreeable(mem, brk, capacity, blocks, freeList, freelistHead, k);
      ghost var m2 := mem;
      Free(ptr, k);
      j := MoveFinished(m0, m1, m2, mem, bs0, bs1, blocks, i, j1, ptr, newptr, n, size + DSIZE);
    }

    /** mm_realloc's memcpy: n bytes from src into the payload of allocated block j at dst, which they do not overlap. */
    method CopyPayload(dst: int, src: int, n: int, ghost j: int)
      requires Valid() && 0 <= j < |blocks| && blocks[j].alloc == 1 && 0 <= n
      requires blocks[j].bp <= dst && dst + n <= End(blocks[j]) - DSIZE && (dst + n <= src || src + n <= dst)
      modifies this`mem
      ensures Valid()
      ensures Copied(old(mem), mem, src, dst, n)
      ensures PayloadsKept(old(mem), mem, AllocatedSet(blocks) - {blocks[j]})
    {
      ghost var m0 := mem;
      mem := MemCpy(mem, dst, src, n);
      PayloadWriteKeepsHeap(m0, mem, brk, capacity, blocks, freeList, freelistHead, j);
    }
  }
}
