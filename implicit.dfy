/**
 * The implicit-list allocator of mm1.c: every block, free or allocated, is
 * found by walking the boundary tags; next fit with a rover that survives
 * between calls; immediate coalescing, with the rover moved out of a block
 * that a merge swallows; a heap checker that walks the tags.
 */
module Implicit {
  import opened Tags
  import opened Layout
  import opened Requests
  import opened ImplicitHeap
  import opened NextFit
  import opened HeapCheck

  class Allocator {
    /** The arena's words, by byte offset. */
    var mem: Mem
    /** The current break: the arena holds the bytes [0, brk). */
    var brk: int
    /** The most the break may grow to; mem_sbrk fails beyond it. */
    const capacity: int
    /** heap_listp: 0 before mm_init, then the prologue's payload address (-1 when mm_init's growth failed). */
    var heapListp: int
    /** The next-fit rover: the payload address of a block, or of the epilogue. */
    var rover: int

    /** The blocks from the prologue to the epilogue. */
    ghost var blocks: seq<Blk>
    /** The index in blocks of the block the rover stands on (|blocks| for the epilogue). */
    ghost var roverIndex: int

    /** Before mm_init nothing is written; after it, the heap invariant holds and the rover is on a block. */
    ghost predicate Valid()
      reads this
    {
      HEAP_LISTP + DSIZE <= capacity <= MAX_ARENA &&
      (heapListp == 0 ==> brk == 0 && mem == map[] && blocks == []) &&
      (heapListp != 0 ==> heapListp == HEAP_LISTP && Heap(mem, brk, capacity, blocks) &&
                          RoverAt(blocks, brk, roverIndex, rover))
    }

    /**
     * Between the tag writes of mm_free or extend_heap and coalesce: block
     * i is free and is the only block that may have a free neighbour.
     */
    ghost predicate Pending(i: int)
      reads this
    {
      HEAP_LISTP + DSIZE <= capacity <= MAX_ARENA && heapListp == HEAP_LISTP &&
      Shape(mem, brk, capacity, blocks) && 0 < i < |blocks| && blocks[i].alloc == 0 &&
      NoAdjacentFreeBut(blocks, i) && RoverAt(blocks, brk, roverIndex, rover)
    }

    /** A fresh arena of at most capacity bytes, nothing grown yet and every word 0. */
    constructor(capacity: int)
      requires 0 <= capacity <= MAX_ARENA
      ensures this.capacity == capacity && brk == 0 && mem == map[] && heapListp == 0 && blocks == []
      ensures HEAP_LISTP + DSIZE <= capacity ==> Valid()
    {
      this.capacity := capacity;
      brk := 0;
      mem := map[];
      heapListp := 0;
      rover := 0;
      blocks := [];
      roverIndex := 0;
    }

    /**
     * mm_init: grow the arena by 16 bytes for the padding word, the
     * prologue and the epilogue, put heap_listp and the rover on the
     * prologue, then extend the heap by CHUNKSIZE bytes.  -1 when either
     * growth fails; when the first one does, heap_listp is left at -1.
     */
    method Init() returns (r: int)
      requires heapListp == 0 && brk == 0 && mem == map[] && 0 <= capacity <= MAX_ARENA
      modifies this`mem, this`brk, this`heapListp, this`rover, this`blocks, this`roverIndex
      ensures r == 0 || r == -1
      ensures capacity < HEAP_LISTP + DSIZE ==> r == -1 && heapListp == -1 && brk == 0 && mem == map[]
      ensures HEAP_LISTP + DSIZE <= capacity ==> Valid() && heapListp == HEAP_LISTP && Handed(blocks) == {}
      ensures HEAP_LISTP + DSIZE <= capacity < HEAP_LISTP + DSIZE + CHUNKSIZE ==>
                r == -1 && brk == HEAP_LISTP + DSIZE && blocks == [PROLOGUE_BLK] && rover == HEAP_LISTP
      ensures HEAP_LISTP + DSIZE + CHUNKSIZE <= capacity ==>
                r == 0 && brk == HEAP_LISTP + DSIZE + CHUNKSIZE && rover == HEAP_LISTP &&
                blocks == [PROLOGUE_BLK, Blk(HEAP_LISTP + DSIZE, CHUNKSIZE, 0)]
      ensures HEAP_LISTP + DSIZE <= capacity ==>
                blocks == InitBlocks(capacity) && brk == InitBrk(capacity) && rover == HEAP_LISTP && roverIndex == 0
    {
      var p := Sbrk(4 * WSIZE);
      heapListp := p;
      if p == -1 {
        return -1;
      }
      mem := Put(mem, p, 0);
      mem := Put(mem, p + WSIZE, Pack(OVERHEAD, 1));
      mem := Put(mem, p + DSIZE, Pack(OVERHEAD, 1));
      mem := Put(mem, p + WSIZE + DSIZE, Pack(0, 1));
      heapListp := heapListp + DSIZE;
      rover := heapListp;
      blocks := [PROLOGUE_BLK];
      roverIndex := 0;
      InitialHeap(capacity);
      var bp, _ := ExtendHeap(CHUNKSIZE / WSIZE);
      if bp == NULL {
        return -1;
      }
      r := 0;
    }

    /**
     * mm_malloc: initialise the heap on first use; NULL for a request of 0
     * bytes; otherwise place the request in the block next fit finds, or
     * else in the block extend_heap adds for MAX(asize, CHUNKSIZE) bytes.
     * NULL, with nothing changed, when the arena cannot grow enough.
     */
    method Malloc(size: int) returns (bp: int, ghost j: int)
      requires Valid() && 0 <= size <= SIZE_MAX
      modifies this`mem, this`brk, this`heapListp, this`rover, this`blocks, this`roverIndex
      ensures Valid() && heapListp == HEAP_LISTP
      ensures old(heapListp) != 0 ==>
                MallocResult(old(blocks), old(roverIndex), old(rover), old(brk), capacity, size, bp, brk, blocks, roverIndex, rover)
      ensures old(heapListp) == 0 ==>
                MallocResult(InitBlocks(capacity), 0, HEAP_LISTP, InitBrk(capacity), capacity, size, bp, brk, blocks, roverIndex, rover)
      ensures old(heapListp) != 0 && bp == NULL ==> mem == old(mem) && brk == old(brk)
      ensures bp != NULL ==> Granted(old(blocks), blocks, j, bp, size + DSIZE)
      ensures PayloadsKept(old(mem), mem, AllocatedSet(old(blocks)))
    {
      if heapListp == 0 {
        var _ := Init();
      }
      ghost var bs0, ri0, rover0, brk0 := blocks, roverIndex, rover, brk;
      if size == 0 {
        assert MallocResult(bs0, ri0, rover0, brk0, capacity, size, NULL, brk, blocks, roverIndex, rover);
        return NULL, 0;
      }
      bp, j := Allocate(size);
    }

    /**
     * mm_malloc on an initialised heap for a positive request: round it
     * up, then place it in the block next fit finds, or else in a block
     * extend_heap adds.
     */
    method Allocate(size: int) returns (bp: int, ghost j: int)
      requires Valid() && heapListp != 0 && 0 < size <= SIZE_MAX
      modifies this`mem, this`brk, this`rover, this`blocks, this`roverIndex
      ensures Valid() && heapListp == HEAP_LISTP
      ensures MallocResult(old(blocks), old(roverIndex), old(rover), old(brk), capacity, size, bp, brk, blocks, roverIndex, rover)
      ensures bp == NULL ==> mem == old(mem) && brk == old(brk)
      ensures bp != NULL ==> Granted(old(blocks), blocks, j, bp, size + DSIZE)
      ensures PayloadsKept(old(mem), mem, AllocatedSet(old(blocks)))
    {
      var adjusted := AdjustedSizeImplicit(size);
      if adjusted.None? {
        return NULL, 0;
      }
      var asize := adjusted.value;
      bp, j := PlaceFit(asize, size);
      if bp != NULL {
        return;
      }
      bp, j := PlaceExtended(asize, size);
    }

    /** mm_malloc's first attempt: place the request in the block next fit finds, if any. */
    method PlaceFit(asize: int, ghost size: int) returns (bp: int, ghost j: int)
      requires Valid() && heapListp != 0 && asize % 8 == 0 && MIN_BLOCK <= asize
      requires 0 < size <= SIZE_MAX && AdjustedSizeImplicit(size) == Some(asize)
      modifies this`mem, this`rover, this`blocks, this`roverIndex
      ensures Valid()
      ensures NextFitIndex(old(blocks), old(roverIndex), asize).Some? ==>
                bp == old(blocks)[NextFitIndex(old(blocks), old(roverIndex), asize).value].bp && bp != NULL &&
                Granted(old(blocks), blocks, j, bp, asize)
      ensures NextFitIndex(old(blocks), old(roverIndex), asize).Some? ==>
                var k := NextFitIndex(old(blocks), old(roverIndex), asize).value;
                blocks == Placed(old(blocks), k, asize) && rover == bp && roverIndex == k
      ensures NextFitIndex(old(blocks), old(roverIndex), asize).None? ==>
                bp == NULL && mem == old(mem) && blocks == old(blocks) && rover == old(rover) &&
                roverIndex == old(roverIndex)
      ensures bp != NULL ==>
                MallocResult(old(blocks), old(roverIndex), old(rover), brk, capacity, size, bp, brk, blocks, roverIndex, rover) &&
                Granted(old(blocks), blocks, j, bp, size + DSIZE)
      ensures PayloadsKept(old(mem), mem, AllocatedSet(old(blocks)))
    {
      bp, j := FindFit(asize);
      if bp != NULL {
        Place(bp, asize, j);
        GrantedWeaken(old(blocks), blocks, j, bp, asize, size + DSIZE);
        MallocFits(old(blocks), old(roverIndex), old(rover), brk, capacity, size, asize, bp, blocks, roverIndex, rover);
      }
    }

    /**
     * mm_malloc when no block fits: extend the heap by MAX(asize,
     * CHUNKSIZE) bytes and place the request in the new (coalesced) block.
     */
    method PlaceExtended(asize: int, ghost size: int) returns (bp: int, ghost j: int)
      requires Valid() && heapListp != 0 && asize % 8 == 0 && MIN_BLOCK <= asize
      requires 0 < size <= SIZE_MAX && AdjustedSizeImplicit(size) == Some(asize)
      requires NextFitIndex(blocks, roverIndex, asize).None?
      modifies this`mem, this`brk, this`rover, this`blocks, this`roverIndex
      ensures Valid() && heapListp == HEAP_LISTP
      ensures (bp == NULL) == (old(brk) + Max(asize, CHUNKSIZE) > capacity)
      ensures bp != NULL ==>
                bp == GrownStart(old(blocks), old(brk)) && brk == old(brk) + Max(asize, CHUNKSIZE) &&
                Granted(old(blocks), blocks, j, bp, asize)
      ensures bp != NULL ==>
                var grown := old(blocks) + [Blk(old(brk), Max(asize, CHUNKSIZE), 0)];
                var g := Merged(grown, |old(blocks)|);
                blocks == Placed(g, |g| - 1, asize) && rover == RoverFixed(grown, |old(blocks)|, old(rover)) &&
                roverIndex == PlacedRover(g, |g| - 1, asize, MergedRover(grown, |old(blocks)|, old(roverIndex)))
      ensures bp == NULL ==>
                mem == old(mem) && brk == old(brk) && blocks == old(blocks) && rover == old(rover) &&
                roverIndex == old(roverIndex)
      ensures MallocResult(old(blocks), old(roverIndex), old(rover), old(brk), capacity, size, bp, brk, blocks, roverIndex, rover)
      ensures bp != NULL ==> Granted(old(blocks), blocks, j, bp, size + DSIZE)
      ensures PayloadsKept(old(mem), mem, AllocatedSet(old(blocks)))
    {
      var extendsize := Max(asize, CHUNKSIZE);
      ExtendWhole(extendsize);
      ghost var m0 := mem;
      bp, j := ExtendHeap(extendsize / WSIZE);
      if bp == NULL {
        MallocFails(old(blocks), old(roverIndex), old(rover), old(brk), capacity, size, asize);
        return;
      }
      ghost var m1 := mem;
      PlaceGrown(bp, asize, j, size, old(blocks), old(roverIndex), old(rover), old(brk));
      PayloadsKeptTrans(m0, m1, mem, AllocatedSet(old(blocks)), AllocatedSet(old(blocks)), AllocatedSet(old(blocks)));
    }

    /**
     * mm_malloc once extend_heap has grown the heap bs0 (rover at rover0,
     * block ri0, break brk0) and coalesced the new block j at bp: place
     * the request there.
     */
    method PlaceGrown(bp: int, asize: int, ghost j: int, ghost size: int,
                      ghost bs0: seq<Blk>, ghost ri0: int, ghost rover0: int, ghost brk0: int)
      requires Valid() && heapListp != 0 && asize % 8 == 0 && MIN_BLOCK <= asize
      requires 0 < size <= SIZE_MAX && AdjustedSizeImplicit(size) == Some(asize)
      requires 0 <= ri0 <= |bs0| && NextFitIndex(bs0, ri0, asize).None?
      requires brk == brk0 + Max(asize, CHUNKSIZE) && bp == GrownStart(bs0, brk0) && bp != NULL
      requires var grown := bs0 + [Blk(brk0, Max(asize, CHUNKSIZE), 0)];
               blocks == Merged(grown, |bs0|) && rover == RoverFixed(grown, |bs0|, rover0) &&
               roverIndex == MergedRover(grown, |bs0|, ri0)
      requires j == |blocks| - 1 && blocks[j] == Blk(bp, brk - bp, 0) && brk - bp >= asize
      requires AllocatedSet(blocks) == AllocatedSet(bs0)
      modifies this`mem, this`blocks, this`roverIndex
      ensures Valid() && rover == old(rover)
      ensures blocks == Placed(old(blocks), j, asize) && roverIndex == PlacedRover(old(blocks), j, asize, old(roverIndex))
      ensures Granted(bs0, blocks, j, bp, asize) && Granted(bs0, blocks, j, bp, size + DSIZE)
      ensures MallocResult(bs0, ri0, rover0, brk0, capacity, size, bp, brk, blocks, roverIndex, rover)
      ensures PayloadsKept(old(mem), mem, AllocatedSet(bs0))
    {
      Place(bp, asize, j);
      GrantedWeaken(bs0, blocks, j, bp, asize, size + DSIZE);
      MallocGrows(bs0, ri0, rover0, brk0, capacity, size, asize, bp, brk, blocks, roverIndex, rover);
    }

    /**
     * find_fit: next fit from the rover to the epilogue, then from
     * heap_listp up to the rover's old place; the rover is left on the
     * block found.  NULL, with the rover back where it started, when no
     * free block holds asize bytes.
     */
    method FindFit(asize: int) returns (bp: int, ghost k: int)
      requires Valid() && heapListp != 0
      modifies this`rover, this`roverIndex
      ensures Valid()
      ensures NextFitIndex(blocks, old(roverIndex), asize).Some? ==>
                k == NextFitIndex(blocks, old(roverIndex), asize).value &&
                bp == blocks[k].bp && bp != NULL && rover == bp && roverIndex == k
      ensures NextFitIndex(blocks, old(roverIndex), asize).None? ==>
                bp == NULL && rover == old(rover) && roverIndex == old(roverIndex)
    {
      var oldrover := rover;
      ghost var start := roverIndex;
      bp, k := SearchUp(asize);
      if bp != NULL {
        return;
      }
      bp, k := SearchWrap(asize, oldrover, start);
    }

    /** find_fit's first loop: from the rover up to the epilogue. */
    method SearchUp(asize: int) returns (bp: int, ghost k: int)
      requires Valid() && heapListp != 0
      modifies this`rover, this`roverIndex
      ensures RoverAt(blocks, brk, roverIndex, rover)
      ensures bp != NULL ==>
                k == FitFrom(blocks, old(roverIndex), |blocks|, asize) && k < |blocks| &&
                bp == blocks[k].bp && rover == bp && roverIndex == k
      ensures bp == NULL ==>
                FitFrom(blocks, old(roverIndex), |blocks|, asize) == |blocks| && roverIndex == |blocks|
    {
      ghost var start := roverIndex;
      while SizeAt(mem, rover) > 0
        invariant start <= roverIndex <= |blocks| && rover == Mid(blocks, roverIndex, brk)
        invariant FitFrom(blocks, roverIndex, |blocks|, asize) == FitFrom(blocks, start, |blocks|, asize)
        decreases |blocks| - roverIndex
      {
        Step(mem, brk, capacity, blocks, roverIndex);
        if AllocAt(mem, rover) == 0 && asize <= SizeAt(mem, rover) {
          Bounds(blocks, HEAP_LISTP, brk, roverIndex);
          return rover, roverIndex;
        }
        rover := NextBlkp(mem, rover);
        roverIndex := roverIndex + 1;
      }
      Step(mem, brk, capacity, blocks, roverIndex);
      bp, k := NULL, 0;
    }

    /**
     * find_fit's second loop: from heap_listp up to oldrover, the block
     * start the search began at; when nothing fits the rover is back on it.
     */
    method SearchWrap(asize: int, oldrover: int, ghost start: int) returns (bp: int, ghost k: int)
      requires Valid() && heapListp != 0 && roverIndex == |blocks| && 0 <= start <= |blocks|
      requires oldrover == Mid(blocks, start, brk)
      modifies this`rover, this`roverIndex
      ensures RoverAt(blocks, brk, roverIndex, rover)
      ensures bp != NULL ==>
                k == FitFrom(blocks, 0, start, asize) && k < start &&
                bp == blocks[k].bp && rover == bp && roverIndex == k
      ensures bp == NULL ==> FitFrom(blocks, 0, start, asize) == start && roverIndex == start
    {
      rover := heapListp;
      roverIndex := 0;
      while rover < oldrover
        invariant 0 <= roverIndex <= start && rover == Mid(blocks, roverIndex, brk)
        invariant FitFrom(blocks, roverIndex, start, asize) == FitFrom(blocks, 0, start, asize)
        decreases start - roverIndex
      {
        Step(mem, brk, capacity, blocks, roverIndex);
        if AllocAt(mem, rover) == 0 && asize <= SizeAt(mem, rover) {
          Bounds(blocks, HEAP_LISTP, brk, roverIndex);
          return rover, roverIndex;
        }
        rover := NextBlkp(mem, rover);
        roverIndex := roverIndex + 1;
      }
      if roverIndex < start {
        MidRises(blocks, brk, roverIndex, start);
      }
      bp, k := NULL, 0;
    }

    /**
     * place: allocate asize bytes of the free block j at bp, splitting off
     * the rest as a free block when it is at least a minimum block.
     */
    method Place(bp: int, asize: int, ghost j: int)
      requires Valid() && heapListp != 0 && 0 < j < |blocks| && blocks[j].bp == bp && blocks[j].alloc == 0
      requires asize % 8 == 0 && MIN_BLOCK <= asize <= blocks[j].size
      modifies this`mem, this`blocks, this`roverIndex
      ensures Valid() && rover == old(rover)
      ensures mem == PlacedMem(old(mem), bp, old(blocks)[j].size, asize)
      ensures blocks == Placed(old(blocks), j, asize)
      ensures roverIndex == PlacedRover(old(blocks), j, asize, old(roverIndex))
      ensures Granted(old(blocks), blocks, j, bp, asize)
      ensures PayloadsKept(old(mem), mem, AllocatedSet(old(blocks)))
    {
      ghost var m0, bs := mem, blocks;
      Step(mem, brk, capacity, blocks, j);
      var csize := SizeAt(mem, bp);
      PlaceWrites(bp, csize, asize);
      blocks := Placed(bs, j, asize);
      roverIndex := PlacedRover(bs, j, asize, roverIndex);
      PlacedHeap(m0, brk, capacity, bs, j, asize, old(roverIndex), rover);
      PlacedHanded(brk, bs, j, asize);
    }

    /** place's tag writes: header and footer of the allocated part, then of the rest when it is split off. */
    method PlaceWrites(bp: int, csize: int, asize: int)
      requires asize % 8 == 0 && csize % 8 == 0
      modifies this`mem
      ensures mem == PlacedMem(old(mem), bp, csize, asize)
    {
      if csize - asize >= 2 * DSIZE {
        PackRoundTrip(asize, 1);
        mem := Put(mem, Hdrp(bp), Pack(asize, 1));
        mem := Put(mem, Ftrp(mem, bp), Pack(asize, 1));
        var next := NextBlkp(mem, bp);
        PackRoundTrip(csize - asize, 0);
        mem := Put(mem, Hdrp(next), Pack(csize - asize, 0));
        mem := Put(mem, Ftrp(mem, next), Pack(csize - asize, 0));
      } else {
        PackRoundTrip(csize, 1);
        mem := Put(mem, Hdrp(bp), Pack(csize, 1));
        mem := Put(mem, Ftrp(mem, bp), Pack(csize, 1));
      }
    }

    /**
     * mem_sbrk, as the allocator relies on it: grow the arena by incr bytes
     * and return the old break, or -1 when the arena would exceed its
     * capacity.
     */
    method Sbrk(incr: int) returns (p: int)
      requires incr >= 0
      modifies this`brk
      ensures old(brk) + incr <= capacity ==> p == old(brk) && brk == old(brk) + incr
      ensures old(brk) + incr > capacity ==> p == -1 && brk == old(brk)
    {
      if brk + incr <= capacity {
        p := brk;
        brk := brk + incr;
      } else {
        p := -1;
      }
    }

    /**
     * extend_heap: grow the arena by ExtendSize(words) bytes, turn the new
     * space into a free block ending in a new epilogue, and coalesce it
     * with a free last block.  NULL, changing nothing, when the arena
     * cannot grow.
     */
    method ExtendHeap(words: int) returns (bp: int, ghost j: int)
      requires Valid() && heapListp != 0 && MIN_BLOCK <= words * WSIZE
      modifies this`mem, this`brk, this`blocks, this`rover, this`roverIndex
      ensures Valid() && heapListp == old(heapListp)
      ensures AllocatedSet(blocks) == AllocatedSet(old(blocks))
      ensures PayloadsKept(old(mem), mem, AllocatedSet(old(blocks)))
      ensures old(brk) + ExtendSize(words) > capacity ==>
                bp == NULL && brk == old(brk) && mem == old(mem) && blocks == old(blocks) &&
                rover == old(rover) && roverIndex == old(roverIndex)
      ensures old(brk) + ExtendSize(words) <= capacity ==>
                var grown := old(blocks) + [Blk(old(brk), ExtendSize(words), 0)];
                brk == old(brk) + ExtendSize(words) && blocks == Merged(grown, |old(blocks)|) &&
                bp == GrownStart(old(blocks), old(brk)) && bp != NULL &&
                j == |blocks| - 1 && blocks[j] == Blk(bp, brk - bp, 0) && brk - bp >= ExtendSize(words) &&
                roverIndex == MergedRover(grown, |old(blocks)|, old(roverIndex)) &&
                rover == RoverFixed(grown, |old(blocks)|, old(rover))
    {
      var size := if words % 2 == 1 then (words + 1) * WSIZE else words * WSIZE;
      var p := Sbrk(size);
      if p == -1 {
        return NULL, 0;
      }
      bp, j := AddFreeBlock(p, size);
    }

    /**
     * extend_heap once the arena has grown by size bytes from p: write the
     * new free block and the epilogue, then coalesce.
     */
    method AddFreeBlock(p: int, size: int) returns (bp: int, ghost j: int)
      requires HEAP_LISTP + DSIZE <= capacity <= MAX_ARENA && heapListp == HEAP_LISTP
      requires Heap(mem, p, capacity, blocks) && RoverAt(blocks, p, roverIndex, rover)
      requires size % 8 == 0 && MIN_BLOCK <= size && brk == p + size <= capacity
      modifies this`mem, this`blocks, this`rover, this`roverIndex
      ensures Valid() && brk == old(brk)
      ensures AllocatedSet(blocks) == AllocatedSet(old(blocks))
      ensures PayloadsKept(old(mem), mem, AllocatedSet(old(blocks)))
      ensures var grown := old(blocks) + [Blk(p, size, 0)];
              blocks == Merged(grown, |old(blocks)|) &&
              bp == GrownStart(old(blocks), p) && bp != NULL &&
              j == |blocks| - 1 && blocks[j] == Blk(bp, brk - bp, 0) && brk - bp >= size &&
              roverIndex == MergedRover(grown, |old(blocks)|, old(roverIndex)) &&
              rover == RoverFixed(grown, |old(blocks)|, old(rover))
    {
      ghost var m0, bs := mem, blocks;
      ghost var grown := bs + [Blk(p, size, 0)];
      NewFreeBlock(p, size);
      MergedAllocated(grown, |bs|);
      GrownMerged(bs, p, size);
      ghost var m1 := mem;
      bp := Coalesce(p, |bs|);
      PayloadsKeptTrans(m0, m1, mem, AllocatedSet(bs), AllocatedSet(bs), AllocatedSet(bs));
      j := |blocks| - 1;
    }

    /**
     * extend_heap's writes at the old break p: a free block of size bytes
     * is appended, the only block that may have a free neighbour.
     */
    method NewFreeBlock(p: int, size: int)
      requires HEAP_LISTP + DSIZE <= capacity <= MAX_ARENA && heapListp == HEAP_LISTP
      requires Heap(mem, p, capacity, blocks) && RoverAt(blocks, p, roverIndex, rover)
      requires size % 8 == 0 && MIN_BLOCK <= size && brk == p + size <= capacity
      modifies this`mem, this`blocks
      ensures blocks == old(blocks) + [Blk(p, size, 0)]
      ensures Pending(|old(blocks)|)
      ensures AllocatedSet(blocks) == AllocatedSet(old(blocks))
      ensures PayloadsKept(old(mem), mem, AllocatedSet(old(blocks)))
    {
      ghost var m0, bs := mem, blocks;
      GrowWrites(p, size);
      blocks := bs + [Blk(p, size, 0)];
      Grown(m0, p, capacity, bs, size);
      GrownRover(bs, p, size, roverIndex, rover);
      GrownAllocated(bs, Blk(p, size, 0));
    }

    /** extend_heap's writes at the old break bp: the new block's free tags, then the epilogue after it. */
    method GrowWrites(bp: int, size: int)
      requires size % 8 == 0
      modifies this`mem
      ensures mem == GrownMem(old(mem), bp, size)
    {
      PackRoundTrip(size, 0);
      mem := Put(mem, Hdrp(bp), Pack(size, 0));
      mem := Put(mem, Ftrp(mem, bp), Pack(size, 0));
      mem := Put(mem, Hdrp(NextBlkp(mem, bp)), Pack(0, 1));
    }

    /**
     * mm_free: NULL is ignored; otherwise the tags of block i are rewritten
     * as free and the block is coalesced with its free neighbours.
     */
    method Free(ptr: int, ghost i: int)
      requires Valid()
      requires ptr != NULL ==> heapListp != 0 && 0 < i < |blocks| && blocks[i].bp == ptr && blocks[i].alloc == 1
      modifies this`mem, this`blocks, this`rover, this`roverIndex
      ensures Valid() && brk == old(brk) && heapListp == old(heapListp)
      ensures ptr == NULL ==> mem == old(mem) && blocks == old(blocks) && rover == old(rover)
      ensures ptr != NULL ==>
                var released := old(blocks)[i := Blk(ptr, old(blocks)[i].size, 0)];
                blocks == Merged(released, i) && rover == RoverFixed(released, i, old(rover))
      ensures ptr != NULL ==> AllocatedSet(blocks) == AllocatedSet(old(blocks)) - {old(blocks)[i]}
      ensures ptr != NULL ==> PayloadsKept(old(mem), mem, AllocatedSet(old(blocks)) - {old(blocks)[i]})
    {
      if ptr == NULL {
        return;
      }
      ghost var m0, bs := mem, blocks;
      Step(mem, brk, capacity, blocks, i);
      var size := SizeAt(mem, ptr);
      mem := Put(mem, Hdrp(ptr), Pack(size, 0));
      mem := Put(mem, Ftrp(mem, ptr), Pack(size, 0));
      assert mem == TagsWritten(m0, bs[i].bp, bs[i].size, 0);
      blocks := bs[i := Blk(ptr, size, 0)];
      Freed(m0, brk, capacity, bs, i);
      FreedHanded(brk, bs, i);
      ghost var m1 := mem;
      var _ := Coalesce(ptr, i);
      MergedAllocated(bs[i := Blk(ptr, size, 0)], i);
      PayloadsKeptTrans(m0, m1, mem, AllocatedSet(bs) - {bs[i]}, AllocatedSet(bs) - {bs[i]}, AllocatedSet(bs) - {bs[i]});
    }

    /**
     * coalesce: merge the free block i at ptr with whichever of its
     * neighbours are free and return the merged block; when a merge took
     * place and the rover stood strictly inside the merged block, move it
     * to the block's start.
     */
    method Coalesce(ptr: int, ghost i: int) returns (bp: int)
      requires Pending(i) && blocks[i].bp == ptr
      modifies this`mem, this`blocks, this`rover, this`roverIndex
      ensures Valid() && brk == old(brk) && heapListp == old(heapListp)
      ensures bp == old(blocks)[MergeLo(old(blocks), i)].bp
      ensures blocks == Merged(old(blocks), i)
      ensures roverIndex == MergedRover(old(blocks), i, old(roverIndex))
      ensures rover == RoverFixed(old(blocks), i, old(rover))
      ensures PayloadsKept(old(mem), mem, AllocatedSet(old(blocks)))
    {
      ghost var m0, bs := mem, blocks;
      Neighbours(mem, brk, capacity, blocks, i);
      var prevAlloc := GetAlloc(Get(mem, Ftrp(mem, PrevBlkp(mem, ptr))));
      var nextAlloc := GetAlloc(Get(mem, Hdrp(NextBlkp(mem, ptr))));
      var size := SizeAt(mem, ptr);
      if prevAlloc == 1 && nextAlloc == 1 {
        MergedAlone(bs, i);
        RoverNotInside(bs, brk, i, roverIndex, rover);
        return ptr;
      }
      bp := MergeAround(ptr, size, prevAlloc, nextAlloc, i);
    }

    /**
     * coalesce once a neighbour is known to be free: merge, then move the
     * rover to the merged block's start when it stood strictly inside it.
     */
    method MergeAround(ptr: int, size: int, prevAlloc: int, nextAlloc: int, ghost i: int) returns (bp: int)
      requires Pending(i) && blocks[i].bp == ptr && size == blocks[i].size
      requires prevAlloc == blocks[i - 1].alloc && nextAlloc == (if i + 1 < |blocks| then blocks[i + 1].alloc else 1)
      requires prevAlloc == 0 || nextAlloc == 0
      requires NextBlkp(mem, ptr) == Mid(blocks, i + 1, brk) && PrevBlkp(mem, ptr) == blocks[i - 1].bp
      requires SizeAt(mem, ptr) == size && SizeAt(mem, blocks[i - 1].bp) == blocks[i - 1].size
      modifies this`mem, this`blocks, this`rover, this`roverIndex
      ensures Valid() && brk == old(brk) && heapListp == old(heapListp)
      ensures bp == old(blocks)[MergeLo(old(blocks), i)].bp
      ensures blocks == Merged(old(blocks), i)
      ensures roverIndex == MergedRover(old(blocks), i, old(roverIndex))
      ensures rover == RoverFixed(old(blocks), i, old(rover))
      ensures PayloadsKept(old(mem), mem, AllocatedSet(old(blocks)))
    {
      ghost var m0, bs, ri, rv := mem, blocks, roverIndex, rover;
      bp := FuseBlocks(ptr, size, prevAlloc, nextAlloc, i);
      ghost var m1, bs1 := mem, blocks;
      rover, roverIndex := if rover > bp && rover < NextBlkp(mem, bp) then bp else rover, MergedRover(bs, i, roverIndex);
      RoverMoved(m0, m1, bs, bs1, i, ri, rv, bp);
    }

    /** The rover fix after the merge leaves the allocator valid, the rover where RoverFixed puts it. */
    lemma RoverMoved(m0: Mem, m1: Mem, bs: seq<Blk>, bs1: seq<Blk>, i: int, ri: int, rv: int, bp: int)
      requires HEAP_LISTP + DSIZE <= capacity <= MAX_ARENA && heapListp == HEAP_LISTP
      requires mem == m1 && blocks == bs1
      requires 0 <= i < |bs| && bp == bs[MergeLo(bs, i)].bp && bs1 == Merged(bs, i) && Heap(m1, brk, capacity, bs1)
      requires RoverAt(bs1, brk, MergedRover(bs, i, ri), RoverFixed(bs, i, rv))
      requires NextBlkp(m1, bp) == End(bs[MergeHi(bs, i) - 1])
      requires PayloadsKept(m0, m1, AllocatedSet(bs))
      requires roverIndex == MergedRover(bs, i, ri) && rover == (if rv > bp && rv < NextBlkp(m1, bp) then bp else rv)
      ensures Valid() && rover == RoverFixed(bs, i, rv) && PayloadsKept(m0, mem, AllocatedSet(bs))
    {
    }

    /** coalesce's tag writes and the blocks they leave, before the rover fix. */
    method FuseBlocks(ptr: int, size: int, prevAlloc: int, nextAlloc: int, ghost i: int) returns (bp: int)
      requires Pending(i) && blocks[i].bp == ptr && size == blocks[i].size
      requires prevAlloc == blocks[i - 1].alloc && nextAlloc == (if i + 1 < |blocks| then blocks[i + 1].alloc else 1)
      requires prevAlloc == 0 || nextAlloc == 0
      requires NextBlkp(mem, ptr) == Mid(blocks, i + 1, brk) && PrevBlkp(mem, ptr) == blocks[i - 1].bp
      requires SizeAt(mem, ptr) == size && SizeAt(mem, blocks[i - 1].bp) == blocks[i - 1].size
      modifies this`mem, this`blocks
      ensures bp == old(blocks)[MergeLo(old(blocks), i)].bp
      ensures blocks == Merged(old(blocks), i) && Heap(mem, brk, capacity, blocks)
      ensures RoverAt(blocks, brk, MergedRover(old(blocks), i, roverIndex), RoverFixed(old(blocks), i, rover))
      ensures NextBlkp(mem, bp) == End(old(blocks)[MergeHi(old(blocks), i) - 1])
      ensures PayloadsKept(old(mem), mem, AllocatedSet(old(blocks)))
    {
      ghost var m0, bs := mem, blocks;
      ghost var lo, hi := MergeLo(bs, i), MergeHi(bs, i);
      bp := FuseNeighbours(ptr, size, prevAlloc, nextAlloc, i);
      assert mem == FuseMem(m0, bs[lo].bp, End(bs[hi - 1]));
      Coalesced(m0, brk, capacity, bs, i, roverIndex, rover);
      blocks := Merged(bs, i);
    }

    /**
     * The three merging cases of coalesce: they write the merged block's
     * header and footer, and return its start.
     */
    method FuseNeighbours(ptr: int, size: int, prevAlloc: int, nextAlloc: int, ghost i: int) returns (bp: int)
      requires Pending(i) && blocks[i].bp == ptr && size == blocks[i].size
      requires prevAlloc == blocks[i - 1].alloc && nextAlloc == (if i + 1 < |blocks| then blocks[i + 1].alloc else 1)
      requires prevAlloc == 0 || nextAlloc == 0
      requires NextBlkp(mem, ptr) == Mid(blocks, i + 1, brk) && PrevBlkp(mem, ptr) == blocks[i - 1].bp
      requires SizeAt(mem, ptr) == size && SizeAt(mem, blocks[i - 1].bp) == blocks[i - 1].size
      modifies this`mem
      ensures bp == blocks[MergeLo(blocks, i)].bp
      ensures mem == FuseMem(old(mem), bp, End(blocks[MergeHi(blocks, i) - 1]))
    {
      ghost var bs := blocks;
      Bounds(bs, HEAP_LISTP, brk, i - 1);
      if prevAlloc == 1 {
        NextTags(mem, brk, capacity, bs, i);
        MergeNext(ptr, size, bs[i + 1].size);
        bp := ptr;
      } else if nextAlloc == 1 {
        assert Tagged(mem, bs[i]);
        bp := MergePrev(ptr, size, bs[i - 1].bp);
      } else {
        NextTags(mem, brk, capacity, bs, i);
        bp := MergeBoth(ptr, size, bs[i - 1].bp, bs[i + 1].size);
      }
    }

    /** coalesce with only the next block free: ptr absorbs it. */
    method MergeNext(ptr: int, size: int, ghost nsize: int)
      requires size == SizeAt(mem, ptr) && size % 8 == 0 && nsize % 8 == 0
      requires SizeAt(mem, NextBlkp(mem, ptr)) == nsize
      modifies this`mem
      ensures mem == FuseMem(old(mem), ptr, ptr + size + nsize)
    {
      var size := size + SizeAt(mem, NextBlkp(mem, ptr));
      PackRoundTrip(size, 0);
      mem := Put(mem, Hdrp(ptr), Pack(size, 0));
      mem := Put(mem, Ftrp(mem, ptr), Pack(size, 0));
    }

    /** coalesce with only the previous block free: it absorbs ptr. */
    method MergePrev(ptr: int, size: int, ghost pb: int) returns (bp: int)
      requires size == SizeAt(mem, ptr) && size % 8 == 0 && size >= DSIZE
      requires PrevBlkp(mem, ptr) == pb && pb <= ptr - DSIZE && (ptr - pb) % 8 == 0 && SizeAt(mem, pb) == ptr - pb
      modifies this`mem
      ensures bp == pb
      ensures mem == FuseMem(old(mem), pb, ptr + size)
    {
      ghost var m0 := mem;
      var size := size + SizeAt(mem, PrevBlkp(mem, ptr));
      PackRoundTrip(size, 0);
      mem := Put(mem, Ftrp(mem, ptr), Pack(size, 0));
      mem := Put(mem, Hdrp(PrevBlkp(mem, ptr)), Pack(size, 0));
      bp := PrevBlkp(mem, ptr);
      assert mem == m0[ptr + size - (ptr - pb) - DSIZE := size][Hdrp(pb) := size];
    }

    /** coalesce with both neighbours free: the previous block absorbs ptr and the next block. */
    method MergeBoth(ptr: int, size: int, ghost pb: int, ghost nsize: int) returns (bp: int)
      requires size == SizeAt(mem, ptr) && size % 8 == 0 && size >= DSIZE && nsize % 8 == 0 && nsize >= DSIZE
      requires PrevBlkp(mem, ptr) == pb && pb <= ptr - DSIZE && (ptr - pb) % 8 == 0 && SizeAt(mem, pb) == ptr - pb
      requires SizeAt(mem, ptr + size) == nsize && GetSize(Get(mem, Ftrp(mem, ptr + size))) == nsize
      modifies this`mem
      ensures bp == pb
      ensures mem == FuseMem(old(mem), pb, ptr + size + nsize)
    {
      var size := size + SizeAt(mem, PrevBlkp(mem, ptr)) + GetSize(Get(mem, Ftrp(mem, NextBlkp(mem, ptr))));
      PackRoundTrip(size, 0);
      mem := Put(mem, Hdrp(PrevBlkp(mem, ptr)), Pack(size, 0));
      mem := Put(mem, Ftrp(mem, NextBlkp(mem, ptr)), Pack(size, 0));
      bp := PrevBlkp(mem, ptr);
    }

    /**
     * mm_realloc: size 0 frees ptr and gives NULL; a NULL ptr is mm_malloc;
     * otherwise mm_malloc a new block, copy min(size, old block size)
     * bytes of the old block into it and free the old block.  NULL, with
     * the old block untouched, when mm_malloc fails.
     */
    method Realloc(ptr: int, size: int, ghost i: int) returns (r: int, ghost j: int)
      requires Valid() && 0 <= size <= SIZE_MAX
      requires ptr != NULL ==> heapListp != 0 && 0 < i < |blocks| && blocks[i].bp == ptr && blocks[i].alloc == 1
      modifies this`mem, this`brk, this`heapListp, this`rover, this`blocks, this`roverIndex
      ensures Valid()
      ensures size == 0 ==> r == NULL && brk == old(brk)
      ensures size == 0 && ptr == NULL ==> mem == old(mem) && blocks == old(blocks) && rover == old(rover)
      ensures size == 0 && ptr != NULL ==>
                var released := old(blocks)[i := Blk(ptr, old(blocks)[i].size, 0)];
                blocks == Merged(released, i) && rover == RoverFixed(released, i, old(rover)) &&
                AllocatedSet(blocks) == AllocatedSet(old(blocks)) - {old(blocks)[i]}
      ensures size > 0 && ptr == NULL && old(heapListp) != 0 ==>
                MallocResult(old(blocks), old(roverIndex), old(rover), old(brk), capacity, size, r, brk, blocks, roverIndex, rover)
      ensures size > 0 && ptr == NULL && old(heapListp) == 0 ==>
                MallocResult(InitBlocks(capacity), 0, HEAP_LISTP, InitBrk(capacity), capacity, size, r, brk, blocks, roverIndex, rover)
      ensures size > 0 && ptr == NULL && r != NULL ==> Granted(old(blocks), blocks, j, r, size + DSIZE)
      ensures size > 0 && ptr != NULL ==> MallocChoice(old(blocks), old(roverIndex), old(brk), capacity, size, r, brk)
      ensures size > 0 && old(heapListp) != 0 && r == NULL ==>
                mem == old(mem) && brk == old(brk) && blocks == old(blocks) && rover == old(rover)
      ensures size > 0 && ptr != NULL && r != NULL ==>
                AdjustedSizeImplicit(size).Some? &&
                MovedResult(old(blocks), old(roverIndex), old(rover), old(brk), AdjustedSizeImplicit(size).value, ptr, blocks, rover)
      ensures size > 0 && ptr != NULL && r != NULL ==>
                Moved(old(blocks), blocks, i, j, r, size + DSIZE) &&
                Copied(old(mem), mem, ptr, r, Min(size, old(blocks)[i].size - DSIZE))
      ensures ptr == NULL ==> PayloadsKept(old(mem), mem, AllocatedSet(old(blocks)))
      ensures ptr != NULL ==> PayloadsKept(old(mem), mem, AllocatedSet(old(blocks)) - {old(blocks)[i]})
    {
      if size == 0 {
        Free(ptr, i);
        return NULL, 0;
      }
      if ptr == NULL {
        r, j := Malloc(size);
        return;
      }
      r, j := ReallocMove(ptr, size, i);
    }

    /**
     * mm_realloc of a block to a positive size: mm_malloc the new block,
     * copy, free the old block.
     */
    method ReallocMove(ptr: int, size: int, ghost i: int) returns (r: int, ghost j: int)
      requires Valid() && heapListp != 0 && 0 < size <= SIZE_MAX
      requires 0 < i < |blocks| && blocks[i].bp == ptr && blocks[i].alloc == 1
      modifies this`mem, this`brk, this`heapListp, this`rover, this`blocks, this`roverIndex
      ensures Valid()
      ensures MallocChoice(old(blocks), old(roverIndex), old(brk), capacity, size, r, brk)
      ensures r == NULL ==>
                mem == old(mem) && brk == old(brk) && blocks == old(blocks) && rover == old(rover) &&
                roverIndex == old(roverIndex)
      ensures r != NULL ==>
                AdjustedSizeImplicit(size).Some? &&
                MovedResult(old(blocks), old(roverIndex), old(rover), old(brk), AdjustedSizeImplicit(size).value, ptr, blocks, rover)
      ensures r != NULL ==> Moved(old(blocks), blocks, i, j, r, size + DSIZE)
      ensures r != NULL ==> Copied(old(mem), mem, ptr, r, Min(size, old(blocks)[i].size - DSIZE))
      ensures PayloadsKept(old(mem), mem, AllocatedSet(old(blocks)) - {old(blocks)[i]})
    {
      ghost var m0, bs0 := mem, blocks;
      assert bs0[i] in Handed(bs0);
      var newptr, j1 := Malloc(size);
      if newptr == NULL {
        return NULL, 0;
      }
      j := MoveInto(ptr, size, newptr, m0, bs0, i, j1);
      r := newptr;
    }

    /**
     * mm_realloc once malloc granted block j1 at newptr: copy min(size,
     * old block size) bytes of the old block i of bs0 into it, then free
     * the old block.
     */
    method MoveInto(ptr: int, size: int, newptr: int, ghost m0: Mem, ghost bs0: seq<Blk>, ghost i: int, ghost j1: int)
      returns (ghost j: int)
      requires Valid() && heapListp != 0 && 0 < size
      requires 0 <= i < |bs0| && bs0[i] in Handed(bs0) && ptr == bs0[i].bp
      requires Granted(bs0, blocks, j1, newptr, size + DSIZE) && PayloadsKept(m0, mem, AllocatedSet(bs0))
      modifies this`mem, this`blocks, this`rover, this`roverIndex
      ensures Valid() && brk == old(brk) && heapListp == old(heapListp)
      ensures Moved(bs0, blocks, i, j, newptr, size + DSIZE)
      ensures var k := IndexOf(old(blocks), ptr);
              k < |old(blocks)| &&
              var released := old(blocks)[k := Blk(ptr, old(blocks)[k].size, 0)];
              blocks == Merged(released, k) && rover == RoverFixed(released, k, old(rover))
      ensures Copied(m0, mem, ptr, newptr, Min(size, bs0[i].size - DSIZE))
      ensures PayloadsKept(m0, mem, AllocatedSet(bs0) - {bs0[i]})
    {
      ghost var m1, bs1 := mem, blocks;
      var oldsize, k := CopyOut(ptr, size, newptr, bs0, i, j1);
      ghost var m2 := mem;
      Bounds(blocks, HEAP_LISTP, brk, k);
      Free(ptr, k);
      j := Relocated(m0, m1, m2, mem, bs0, bs1, blocks, i, j1, k, ptr, newptr, oldsize,
                     Min(size, bs0[i].size - DSIZE), size + DSIZE);
    }

    /**
     * mm_realloc's copy: n = min(size, the old block's size as its header
     * gives it) bytes from the old block ptr into the new block newptr.
     */
    method CopyOut(ptr: int, size: int, newptr: int, ghost bs0: seq<Blk>, ghost i: int, ghost j1: int)
      returns (n: int, ghost k: int)
      requires Valid() && heapListp != 0 && 0 < size
      requires 0 <= i < |bs0| && bs0[i] in Handed(bs0) && ptr == bs0[i].bp
      requires Granted(bs0, blocks, j1, newptr, size + DSIZE)
      modifies this`mem
      ensures Valid()
      ensures 0 < k < |blocks| && blocks[k] == bs0[i] && k != j1 && IndexOf(blocks, ptr) == k
      ensures n == Min(size, bs0[i].size) && newptr + n <= End(blocks[j1]) - DSIZE
      ensures Copied(old(mem), mem, ptr, newptr, n)
      ensures PayloadsKept(old(mem), mem, AllocatedSet(blocks) - {blocks[j1]})
    {
      k := MoveReady(brk, bs0, blocks, i, j1, newptr, size + DSIZE, Min(size, bs0[i].size));
      IndexOfChain(blocks, HEAP_LISTP, brk, k);
      Step(mem, brk, capacity, blocks, k);
      n := SizeAt(mem, ptr);
      if size < n {
        n := size;
      }
      CopyPayload(newptr, ptr, n, j1);
    }

    /** mm_realloc's memcpy: n bytes from src into the payload of block j at dst, which they do not overlap. */
    method CopyPayload(dst: int, src: int, n: int, ghost j: int)
      requires Valid() && heapListp != 0 && 0 <= j < |blocks| && 0 <= n
      requires blocks[j].bp <= dst && dst + n <= End(blocks[j]) - DSIZE && (dst + n <= src || src + n <= dst)
      modifies this`mem
      ensures Valid()
      ensures Copied(old(mem), mem, src, dst, n)
      ensures PayloadsKept(old(mem), mem, AllocatedSet(blocks) - {blocks[j]})
    {
      ghost var m0 := mem;
      mem := MemCpy(mem, dst, src, n);
      PayloadWriteKeeps(m0, mem, brk, capacity, blocks, j, dst, dst + n);
    }

    /** checkblock: true when the block at bp is 8-aligned and its header equals its footer. */
    method CheckBlock(bp: int) returns (ok: bool)
      ensures ok == BlockOk(mem, bp)
    {
      ok := true;
      if bp % 8 != 0 {
        ok := false;
      }
      if Get(mem, Hdrp(bp)) != Get(mem, Ftrp(mem, bp)) {
        ok := false;
      }
    }

    /**
     * checkheap: true when no error would be reported: the prologue header
     * holds size 8 and is allocated, every block on the walk from
     * heap_listp passes checkblock, and the walk ends on an allocated
     * header of size 0.  A heap that keeps the invariant always passes.
     */
    method CheckHeap() returns (ok: bool)
      requires heapListp == HEAP_LISTP
      ensures ok == HeapChecks(mem, heapListp)
      ensures Valid() ==> ok
    {
      ok := true;
      if SizeAt(mem, heapListp) != DSIZE || AllocAt(mem, heapListp) != 1 {
        ok := false;
      }
      var blockOk := CheckBlock(heapListp);
      ok := ok && blockOk;
      var bp := heapListp;
      while SizeAt(mem, bp) > 0
        invariant HeapChecks(mem, heapListp) == (ok && WalkOk(mem, bp))
        decreases Above(mem, Hdrp(bp))
      {
        AboveShrinks(mem, bp);
        blockOk := CheckBlock(bp);
        ok := ok && blockOk;
        bp := NextBlkp(mem, bp);
      }
      if SizeAt(mem, bp) != 0 || AllocAt(mem, bp) != 1 {
        ok := false;
      }
      if Valid() {
        ShapeChecks(mem, brk, capacity, blocks);
      }
    }
  }
}
