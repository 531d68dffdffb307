/**
 * The heap-level specification of mm_malloc's choice of block and of
 * mm_realloc of mm.c: writes inside a payload, the in-place shrink that
 * frees the tail of a block, and what the caller of realloc is handed back.
 */
module ExplicitResize {
  import opened Tags
  import opened Layout
  import opened FreeList
  import opened ExplicitHeap
  import opened ExplicitOps
  import opened Requests

  /**
   * Writes inside the payload of allocated block j (memcpy into a block
   * malloc returned) keep the heap well formed and leave every other
   * allocated payload as it was.
   */
  lemma PayloadWriteKeepsHeap(m: Mem, m': Mem, brk: int, capacity: int, bs: seq<Blk>, fl: seq<int>, head: int, j: int)
    requires Heap(m, brk, capacity, bs, fl, head) && 0 <= j < |bs| && bs[j].alloc == 1
    requires forall a :: a < bs[j].bp || End(bs[j]) - DSIZE <= a ==> Get(m', a) == Get(m, a)
    ensures Heap(m', brk, capacity, bs, fl, head)
    ensures PayloadsKept(m, m', AllocatedSet(bs) - {bs[j]})
  {
    var lo, hi := bs[j].bp, End(bs[j]) - DSIZE;
    Bounds(bs, FIRST, brk, j);
    assert Shaped(bs[j]);
    forall k | 0 <= k < |bs| ensures Tagged(m', bs[k]) {
      assert Tagged(m, bs[k]);
      if k < j {
        Ordered(bs, FIRST, brk, k, j);
      } else if j < k {
        Ordered(bs, FIRST, brk, j, k);
      }
    }
    forall x | x in fl ensures x + 2 * DSIZE <= lo || hi <= x {
      assert x in ListSet(fl);
      var k := FreeStartsIndex(bs, x);
      if k < j {
        Ordered(bs, FIRST, brk, k, j);
      } else {
        Ordered(bs, FIRST, brk, j, k);
      }
    }
    LinkedKept(m, m', fl, head, lo, hi);
    forall b | b in AllocatedSet(bs) - {bs[j]} ensures Untouched(m, m', b.bp, End(b) - DSIZE) {
      forall a | b.bp <= a < End(b) - DSIZE ensures Get(m', a) == Get(m, a) {
        if lo <= a < hi {
          SpanMissesPayloads(bs, FIRST, brk, j, a);
        }
      }
    }
  }

  /**
   * The blocks after mm_realloc shrinks allocated block i to asize bytes
   * in place: the kept front, then the tail marked allocated until
   * mm_free releases it.
   */
  ghost function Shrunk(bs: seq<Blk>, i: int, asize: int): seq<Blk>
    requires 0 <= i < |bs|
  {
    bs[..i] + Halves(bs[i], asize) + bs[i + 1..]
  }

  /** Allocated block b cut after asize bytes into two allocated blocks. */
  function Halves(b: Blk, asize: int): seq<Blk>
  {
    [Blk(b.bp, asize, 1), Blk(b.bp + asize, b.size - asize, 1)]
  }

  /**
   * The arena once the shrink's three writes are done and the tail's
   * footer, which realloc leaves stale, holds the tail's tags.
   */
  function ShrunkMem(m: Mem, bp: int, asize: int, osize: int): Mem
  {
    Put(Put(Put(Put(m, Hdrp(bp), Pack(asize, 1)), bp + asize - DSIZE, Pack(asize, 1)),
            bp + asize - WSIZE, Pack(osize - asize, 1)), bp + osize - DSIZE, Pack(osize - asize, 1))
  }

  /** The two pieces of the shrunk block tile its span, and no word outside the span changed. */
  lemma ShrunkPieces(m: Mem, bp: int, asize: int, osize: int)
    requires bp % 8 == 0 && asize % 8 == 0 && osize % 8 == 0 && MIN_BLOCK_SIZE <= asize && osize - asize > MIN_BLOCK_SIZE
    ensures Tiled(ShrunkMem(m, bp, asize, osize), [Blk(bp, asize, 1), Blk(bp + asize, osize - asize, 1)], bp, bp + osize)
    ensures forall a :: a < Hdrp(bp) || bp + osize - WSIZE <= a ==> Get(ShrunkMem(m, bp, asize, osize), a) == Get(m, a)
  {
    var x, y := Blk(bp, asize, 1), Blk(bp + asize, osize - asize, 1);
    assert Shaped(x) && Shaped(y) by {
      AlignedDiff(osize, asize);
      AlignedDiff(bp, -asize);
    }
    assert Tagged(ShrunkMem(m, bp, asize, osize), x);
    assert Tagged(ShrunkMem(m, bp, asize, osize), y);
    assert Chain([x, y], bp, bp + osize) by {
      ChainOne(x);
      ChainOne(y);
      ChainJoin([x], [y], bp, y.bp, End(y));
      assert [x] + [y] == [x, y];
    }
  }

  /** Splitting allocated block i into two allocated pieces keeps the tiling. */
  lemma ShrunkTiled(m: Mem, brk: int, bs: seq<Blk>, i: int, asize: int)
    requires Tiled(m, bs, FIRST, brk) && 0 <= i < |bs| && bs[i].alloc == 1
    requires asize % 8 == 0 && MIN_BLOCK_SIZE <= asize && bs[i].size - asize > MIN_BLOCK_SIZE
    ensures Tiled(ShrunkMem(m, bs[i].bp, asize, bs[i].size), Shrunk(bs, i, asize), FIRST, brk)
  {
    var b := bs[i];
    var m' := ShrunkMem(m, b.bp, asize, b.size);
    assert Shaped(b);
    Bounds(bs, FIRST, brk, i);
    ShrunkPieces(m, b.bp, asize, b.size);
    assert Mid(bs, i, brk) == b.bp && Mid(bs, i + 1, brk) == End(b);
    Splice(m, m', bs, FIRST, brk, brk, i, i + 1, Halves(b, asize));
  }

  /** Splitting allocated block i into two allocated pieces keeps the boundary-tag structure. */
  lemma ShrunkShape(m: Mem, brk: int, capacity: int, bs: seq<Blk>, i: int, bp: int, asize: int, osize: int)
    requires Shape(m, brk, capacity, bs) && 0 <= i < |bs| && bs[i].alloc == 1
    requires bs[i].bp == bp && bs[i].size == osize
    requires asize % 8 == 0 && MIN_BLOCK_SIZE <= asize && osize - asize > MIN_BLOCK_SIZE
    ensures Shape(ShrunkMem(m, bp, asize, osize), brk, capacity, Shrunk(bs, i, asize))
  {
    var m' := ShrunkMem(m, bp, asize, osize);
    ShrunkTiled(m, brk, bs, i, asize);
    assert Shaped(bs[i]);
    Bounds(bs, FIRST, brk, i);
    ShrunkPieces(m, bp, asize, osize);
    assert Get(m', Hdrp(PROLOGUE)) == Get(m, Hdrp(PROLOGUE));
    assert Get(m', PROLOGUE + MIN_BLOCK_SIZE - DSIZE) == Get(m, PROLOGUE + MIN_BLOCK_SIZE - DSIZE);
    assert Get(m', FIRST - DSIZE) == Get(m, FIRST - DSIZE);
    assert Get(m', brk - WSIZE) == Get(m, brk - WSIZE);
    ShrunkMins(bs, i, asize);
  }

  /** Both pieces are minimum blocks, and no free block changes. */
  lemma ShrunkMins(bs: seq<Blk>, i: int, asize: int)
    requires AllMin(bs) && FreeMin(bs) && 0 <= i < |bs| && MIN_BLOCK_SIZE <= asize && bs[i].size - asize > MIN_BLOCK_SIZE
    ensures AllMin(Shrunk(bs, i, asize)) && FreeMin(Shrunk(bs, i, asize))
  {
    var r := Shrunk(bs, i, asize);
    forall k | 0 <= k < |r| ensures r[k].size >= MIN_BLOCK_SIZE {
      if k < i {
        assert r[k] == bs[k];
      } else if k >= i + 2 {
        assert r[k] == bs[k - 1];
      }
    }
  }

  /** The two pieces are allocated: no free block gains a free neighbour. */
  lemma ShrunkAdjacent(bs: seq<Blk>, i: int, asize: int)
    requires NoAdjacentFree(bs) && 0 <= i < |bs|
    ensures NoAdjacentFree(Shrunk(bs, i, asize))
  {
    var r := Shrunk(bs, i, asize);
    forall k | 0 < k < |r| ensures r[k - 1].alloc == 1 || r[k].alloc == 1 {
      if k + 1 < i {
        assert r[k - 1] == bs[k - 1] && r[k] == bs[k];
      } else if k > i + 2 {
        assert r[k - 1] == bs[k - 2] && r[k] == bs[k - 1];
      }
    }
  }

  /** The two pieces are allocated: no free block appears or goes. */
  lemma ShrunkStarts(bs: seq<Blk>, i: int, asize: int)
    requires 0 <= i < |bs| && bs[i].alloc == 1
    ensures FreeStarts(Shrunk(bs, i, asize)) == FreeStarts(bs)
  {
    var b := bs[i];
    var nbs := Halves(b, asize);
    assert FreeStarts(nbs) == {} by {
      FreeStartsConcat([nbs[0]], [nbs[1]]);
      assert [nbs[0]] + [nbs[1]] == nbs;
      FreeStartsOne(nbs[0]);
      FreeStartsOne(nbs[1]);
    }
    assert FreeStarts(bs[i..i + 1]) == {} by {
      assert bs[i..i + 1] == [b];
      FreeStartsOne(b);
    }
    FreeStartsSplice(bs, i, i + 1, nbs);
  }

  /** The shrink's writes lie inside allocated block i, away from every link slot. */
  lemma ShrunkLinks(m: Mem, brk: int, capacity: int, bs: seq<Blk>, fl: seq<int>, head: int, i: int,
                     bp: int, asize: int, osize: int)
    requires Heap(m, brk, capacity, bs, fl, head) && 0 <= i < |bs| && bs[i].alloc == 1
    requires bs[i].bp == bp && bs[i].size == osize
    requires asize % 8 == 0 && MIN_BLOCK_SIZE <= asize && osize - asize > MIN_BLOCK_SIZE
    ensures Linked(ShrunkMem(m, bp, asize, osize), fl, head)
  {
    var b := bs[i];
    ShrunkPieces(m, b.bp, asize, b.size);
    forall x | x in fl ensures x + 2 * DSIZE <= Hdrp(b.bp) || End(b) - WSIZE <= x {
      assert x in ListSet(fl);
      var k := FreeStartsIndex(bs, x);
      if k < i {
        Ordered(bs, FIRST, brk, k, i);
      } else {
        Ordered(bs, FIRST, brk, i, k);
      }
    }
    LinkedKept(m, ShrunkMem(m, b.bp, asize, b.size), fl, head, Hdrp(b.bp), End(b) - WSIZE);
  }

  /**
   * After the shrink's writes the tail, block i + 1 of the shrunk blocks,
   * may be handed to mm_free: the heap is well formed but for the tail's
   * stale footer.
   */
  lemma ShrinkReady(m: Mem, m': Mem, brk: int, capacity: int, bs: seq<Blk>, fl: seq<int>, head: int, i: int,
                    bp: int, asize: int, osize: int)
    requires Heap(m, brk, capacity, bs, fl, head) && 0 <= i < |bs| && bs[i].alloc == 1
    requires bs[i].bp == bp && bs[i].size == osize
    requires asize % 8 == 0 && MIN_BLOCK_SIZE <= asize && osize - asize > MIN_BLOCK_SIZE
    requires m' == Put(Put(Put(m, Hdrp(bp), Pack(asize, 1)), bp + asize - DSIZE, Pack(asize, 1)),
                       bp + asize - WSIZE, Pack(osize - asize, 1))
    ensures Freeable(m', brk, capacity, Shrunk(bs, i, asize), fl, head, i + 1)
    ensures Shrunk(bs, i, asize)[i + 1].bp == bp + asize && bp + asize != NULL
    ensures Untouched(m, m', bp, bp + asize - DSIZE)
  {
    Bounds(bs, FIRST, brk, i);
    var r := Shrunk(bs, i, asize);
    assert r[i + 1] == Blk(bp + asize, osize - asize, 1);
    assert End(r[i + 1]) - DSIZE == bp + osize - DSIZE;
    assert Put(m', End(r[i + 1]) - DSIZE, Pack(r[i + 1].size, 1)) == ShrunkMem(m, bp, asize, osize);
    ShrunkHeap(m, brk, capacity, bs, fl, head, i, bp, asize, osize);
  }

  /** With the tail's footer written too, the shrunk blocks form a well-formed heap. */
  lemma ShrunkHeap(m: Mem, brk: int, capacity: int, bs: seq<Blk>, fl: seq<int>, head: int, i: int,
                   bp: int, asize: int, osize: int)
    requires Heap(m, brk, capacity, bs, fl, head) && 0 <= i < |bs| && bs[i].alloc == 1
    requires bs[i].bp == bp && bs[i].size == osize
    requires asize % 8 == 0 && MIN_BLOCK_SIZE <= asize && osize - asize > MIN_BLOCK_SIZE
    ensures Heap(ShrunkMem(m, bp, asize, osize), brk, capacity, Shrunk(bs, i, asize), fl, head)
  {
    ShrunkShape(m, brk, capacity, bs, i, bp, asize, osize);
    ShrunkAdjacent(bs, i, asize);
    ShrunkStarts(bs, i, asize);
    ShrunkLinks(m, brk, capacity, bs, fl, head, i, bp, asize, osize);
  }

  /**
   * What mm_realloc hands back: block j of bs at r, allocated with at
   * least need bytes, in place of block i of bs0 among the allocated blocks.
   */
  ghost predicate Reallocated(bs0: seq<Blk>, bs: seq<Blk>, i: int, j: int, r: int, need: int)
  {
    0 <= i < |bs0| && 0 <= j < |bs| && bs[j].bp == r && bs[j].alloc == 1 && bs[j].size >= need &&
    AllocatedSet(bs) == AllocatedSet(bs0) - {bs0[i]} + {bs[j]}
  }

  /** Where an allocated block sits in the block sequence. */
  lemma AllocatedIndex(bs: seq<Blk>, b: Blk) returns (k: int)
    requires b in AllocatedSet(bs)
    ensures 0 <= k < |bs| && bs[k] == b
  {
    k :| 0 <= k < |bs| && bs[k] == b;
  }

  /**
   * Once the tail of a shrunk block is freed, the allocated blocks are the
   * old ones with block i replaced by its front.
   */
  lemma ShrunkAllocated(brk: int, bs: seq<Blk>, i: int, asize: int)
    requires Chain(bs, FIRST, brk) && 0 <= i < |bs| && bs[i].alloc == 1 && 0 < asize < bs[i].size
    ensures AllocatedSet(Shrunk(bs, i, asize)) - {Shrunk(bs, i, asize)[i + 1]} ==
            AllocatedSet(bs) - {bs[i]} + {Blk(bs[i].bp, asize, 1)}
  {
    var h := Halves(bs[i], asize);
    var A, C := AllocatedSet(bs[..i]), AllocatedSet(bs[i + 1..]);
    AllocatedSplice(bs, i, i + 1, h);
    assert AllocatedSet(bs[i..i + 1]) == {bs[i]} by { assert bs[i..i + 1] == [bs[i]]; }
    assert AllocatedSet(h) == {h[0], h[1]};
    AllocatedAround(brk, bs, i);
    assert Shrunk(bs, i, asize)[i + 1] == h[1];
    assert bs[i] !in A + C && h[1] !in A + C && h[0] != h[1];
  }

  /** The allocated blocks before block i end before it; those after it start after it. */
  lemma AllocatedAround(brk: int, bs: seq<Blk>, i: int)
    requires Chain(bs, FIRST, brk) && 0 <= i < |bs|
    ensures forall b :: b in AllocatedSet(bs[..i]) ==> End(b) <= bs[i].bp
    ensures forall b :: b in AllocatedSet(bs[i + 1..]) ==> End(bs[i]) <= b.bp
  {
    forall b | b in AllocatedSet(bs[..i]) ensures End(b) <= bs[i].bp {
      var k :| 0 <= k < i && bs[..i][k] == b;
      assert bs[k] == b;
      Ordered(bs, FIRST, brk, k, i);
    }
    forall b | b in AllocatedSet(bs[i + 1..]) ensures End(bs[i]) <= b.bp {
      var k :| 0 <= k < |bs| - i - 1 && bs[i + 1..][k] == b;
      assert bs[i + 1 + k] == b;
      Ordered(bs, FIRST, brk, i, i + 1 + k);
    }
  }

  /**
   * Which block mm_malloc(size) returns from a heap with arena m, blocks
   * bs, free list fl and break brk0 (brk is the break afterwards): NULL
   * for 0 bytes or a size whose block does not fit a size_t; else the
   * first fit on the list; else, when the arena can grow by the adjusted
   * size, the block extend_heap leaves, which starts at the free last
   * block it merged with, or at the old break when there is none; else
   * NULL.
   */
  ghost predicate MallocChoice(m: Mem, bs: seq<Blk>, fl: seq<int>, brk0: int, capacity: int, size: int, bp: int, brk: int)
    requires 0 <= size <= SIZE_MAX
  {
    (size == 0 || AdjustedSize(size).None? ==> bp == NULL) &&
    (size > 0 && AdjustedSize(size).Some? ==>
       var asize := AdjustedSize(size).value;
       var fit := FirstFit(m, fl, asize);
       (fit != NULL ==> bp == fit && brk == brk0) &&
       (fit == NULL && brk0 + asize <= capacity ==> bp == GrownStart(bs, brk0) && brk == brk0 + asize) &&
       (fit == NULL && brk0 + asize > capacity ==> bp == NULL))
  }

  /**
   * The blocks mm_malloc leaves once it has placed asize bytes: the first
   * fit on the list, split or taken whole; or else the block extend_heap
   * grew by asize bytes, split or taken whole.  (A first fit that starts
   * no block never comes from a well-formed heap; the blocks are then
   * left as they are.)
   */
  ghost function MallocBlocks(m: Mem, bs: seq<Blk>, fl: seq<int>, brk0: int, asize: int): seq<Blk>
  {
    var fit := FirstFit(m, fl, asize);
    if fit != NULL then
      var j := IndexOf(bs, fit);
      if j < |bs| then Placed(bs, j, asize) else bs
    else
      var g := GrownBlocks(bs, brk0, asize);
      Placed(g, |g| - 1, asize)
  }

  /** The free list mm_malloc leaves along with MallocBlocks. */
  ghost function MallocList(m: Mem, bs: seq<Blk>, fl: seq<int>, brk0: int, asize: int): seq<int>
  {
    var fit := FirstFit(m, fl, asize);
    if fit != NULL then
      var j := IndexOf(bs, fit);
      if j < |bs| then PlacedList(fl, bs[j], asize) else fl
    else
      var g := GrownBlocks(bs, brk0, asize);
      PlacedList(GrownList(bs, fl, brk0), g[|g| - 1], asize)
  }

  /** mm_malloc's first-fit branch leaves the blocks and list MallocBlocks and MallocList name. */
  lemma MallocFound(m: Mem, bs: seq<Blk>, fl: seq<int>, brk0: int, capacity: int, size: int, asize: int,
                    bp: int, j: int, bs1: seq<Blk>, fl1: seq<int>)
    requires 0 < size <= SIZE_MAX && AdjustedSize(size) == Some(asize)
    requires bp != NULL && bp == FirstFit(m, fl, asize) && j == IndexOf(bs, bp) && j < |bs|
    requires bs1 == Placed(bs, j, asize) && fl1 == PlacedList(fl, bs[j], asize)
    ensures MallocChoice(m, bs, fl, brk0, capacity, size, bp, brk0)
    ensures bs1 == MallocBlocks(m, bs, fl, brk0, asize) && fl1 == MallocList(m, bs, fl, brk0, asize)
  {
  }

  /** mm_malloc's extend_heap branch leaves the blocks and list MallocBlocks and MallocList name. */
  lemma MallocExtended(m: Mem, bs: seq<Blk>, fl: seq<int>, brk0: int, capacity: int, size: int, asize: int,
                       bp: int, brk: int, bs1: seq<Blk>, fl1: seq<int>)
    requires 0 < size <= SIZE_MAX && AdjustedSize(size) == Some(asize)
    requires FirstFit(m, fl, asize) == NULL && brk0 + asize <= capacity
    requires bp == GrownStart(bs, brk0) && brk == brk0 + asize
    requires var g := GrownBlocks(bs, brk0, asize);
             bs1 == Placed(g, |g| - 1, asize) && fl1 == PlacedList(GrownList(bs, fl, brk0), g[|g| - 1], asize)
    ensures MallocChoice(m, bs, fl, brk0, capacity, size, bp, brk)
    ensures bs1 == MallocBlocks(m, bs, fl, brk0, asize) && fl1 == MallocList(m, bs, fl, brk0, asize)
  {
  }

  /** With no fit and no room to grow, mm_malloc returns NULL. */
  lemma MallocRefused(m: Mem, bs: seq<Blk>, fl: seq<int>, brk0: int, capacity: int, size: int, asize: int)
    requires 0 < size <= SIZE_MAX && AdjustedSize(size) == Some(asize)
    requires FirstFit(m, fl, asize) == NULL && brk0 + asize > capacity
    ensures MallocChoice(m, bs, fl, brk0, capacity, size, NULL, brk0)
  {
  }

  /**
   * The blocks and free list mm_realloc leaves when it moves block ptr to
   * a block of asize bytes: those mm_malloc leaves, with the old block
   * then freed from them.
   */
  ghost predicate MovedHeap(m: Mem, bs0: seq<Blk>, fl0: seq<int>, brk0: int, asize: int, ptr: int, bs: seq<Blk>, fl: seq<int>)
  {
    var bs1 := MallocBlocks(m, bs0, fl0, brk0, asize);
    var k := IndexOf(bs1, ptr);
    k < |bs1| && bs == FreedBlocks(bs1, k) && fl == FreedList(bs1, MallocList(m, bs0, fl0, brk0, asize), k)
  }

  /** What mm_realloc does with an allocated block once it has the adjusted size. */
  datatype Resizing = Keep | ShrinkTo(asize: int) | Move

  /**
   * mm_realloc's choice for a block of oldsize bytes and adjusted size
   * asize: keep it when the sizes agree or the surplus could not form a
   * minimum block, split the surplus off when it could, else move.
   */
  function ResizeStep(asize: int, oldsize: int): (r: Resizing)
    ensures r == Move <==> asize > oldsize
    ensures r.ShrinkTo? <==> asize + MIN_BLOCK_SIZE < oldsize
    ensures r.ShrinkTo? ==> r.asize == asize
  {
    if asize == oldsize || (asize < oldsize && oldsize - asize <= MIN_BLOCK_SIZE) then Keep
    else if asize < oldsize then ShrinkTo(asize)
    else Move
  }

  /**
   * mm.c's realloc recomputes the adjusted size in size_t arithmetic: for
   * the last 15 sizes below 2^64 it is 24, so a block of any size is kept
   * or shrunk to 24 bytes in place and handed back, though it holds far
   * fewer than size bytes.  The corrected Resize gives NULL instead.
   */
  lemma ResizeWraps(size: int, oldsize: int)
    requires SIZE_MAX - 15 < size <= SIZE_MAX && MIN_BLOCK_SIZE <= oldsize <= MAX_ARENA
    ensures ResizeStep(AdjustedSizeAsWritten(size), oldsize) ==
            if oldsize <= 2 * MIN_BLOCK_SIZE then Keep else ShrinkTo(MIN_BLOCK_SIZE)
    ensures oldsize - DSIZE < size && AdjustedSize(size).None?
  {
    AdjustedSizeWraps(size);
  }

  /**
   * Before realloc copies block b's bytes into the block g malloc granted:
   * b is still block k, g is another block, and the n bytes copied lie in
   * g's payload and do not overlap the n bytes read from b.
   */
  lemma MoveReady(brk: int, bs0: seq<Blk>, bs: seq<Blk>, i: int, j: int, dst: int, need: int, n: int) returns (k: int)
    requires Chain(bs, FIRST, brk) && 0 <= i < |bs0| && bs0[i].alloc == 1
    requires Granted(bs0, bs, j, dst, need) && 0 <= n <= need - DSIZE && n <= bs0[i].size
    ensures 0 <= k < |bs| && bs[k] == bs0[i] && k != j && bs0[i].bp != NULL
    ensures dst + n <= bs0[i].bp || bs0[i].bp + n <= dst
    ensures dst + n <= End(bs[j]) - DSIZE
  {
    assert bs0[i] in AllocatedSet(bs0);
    k := AllocatedIndex(bs, bs0[i]);
    Bounds(bs, FIRST, brk, k);
    if k < j {
      Ordered(bs, FIRST, brk, k, j);
    } else {
      Ordered(bs, FIRST, brk, j, k);
    }
  }

  /**
   * After the move, block b freed and block g granted: the allocated
   * blocks are the first ones with b traded for g, and g is block j.
   */
  lemma MoveDone(bs0: seq<Blk>, bs1: seq<Blk>, bs: seq<Blk>, i: int, j1: int, r: int, need: int) returns (j: int)
    requires 0 <= i < |bs0| && bs0[i].alloc == 1 && Granted(bs0, bs1, j1, r, need)
    requires AllocatedSet(bs) == AllocatedSet(bs1) - {bs0[i]}
    ensures Reallocated(bs0, bs, i, j, r, need) && bs[j] == bs1[j1]
  {
    assert bs0[i] in AllocatedSet(bs0);
    assert bs1[j1] in AllocatedSet(bs);
    j := AllocatedIndex(bs, bs1[j1]);
  }

  /**
   * The end of realloc's move, from arena m0 through mm_malloc (m1), the
   * copy (m2) and the free (m3): block i of bs0 is traded for the block j1
   * malloc granted, its payload reads at the new block, and every other
   * payload is kept.
   */
  lemma MoveFinished(m0: Mem, m1: Mem, m2: Mem, m3: Mem, bs0: seq<Blk>, bs1: seq<Blk>, bs: seq<Blk>,
                     i: int, j1: int, ptr: int, newptr: int, n: int, need: int) returns (j: int)
    requires 0 <= i < |bs0| && bs0[i].alloc == 1 && bs0[i].bp == ptr && DSIZE <= bs0[i].size
    requires Granted(bs0, bs1, j1, newptr, need) && AllocatedSet(bs) == AllocatedSet(bs1) - {bs0[i]}
    requires bs0[i].size - DSIZE <= n && newptr + n <= End(bs1[j1]) - DSIZE
    requires PayloadsKept(m0, m1, AllocatedSet(bs0))
    requires Copied(m1, m2, ptr, newptr, n) && PayloadsKept(m1, m2, AllocatedSet(bs1) - {bs1[j1]})
    requires PayloadsKept(m2, m3, AllocatedSet(bs))
    ensures Reallocated(bs0, bs, i, j, newptr, need)
    ensures Copied(m0, m3, ptr, newptr, bs0[i].size - DSIZE)
    ensures PayloadsKept(m0, m3, AllocatedSet(bs0) - {bs0[i]})
  {
    j := MoveDone(bs0, bs1, bs, i, j1, newptr, need);
    assert bs0[i] in AllocatedSet(bs0);
    assert Untouched(m0, m1, bs0[i].bp, End(bs0[i]) - DSIZE);
    assert Untouched(m2, m3, bs1[j1].bp, End(bs1[j1]) - DSIZE);
    MovedPayload(m0, m1, m2, m3, bs0[i], bs1[j1], ptr, newptr, n, bs0[i].size - DSIZE);
    PayloadsKeptTrans(m0, m1, m2, AllocatedSet(bs0), AllocatedSet(bs1) - {bs1[j1]}, AllocatedSet(bs0) - {bs0[i]});
    PayloadsKeptTrans(m0, m2, m3, AllocatedSet(bs0) - {bs0[i]}, AllocatedSet(bs), AllocatedSet(bs0) - {bs0[i]});
  }

  /**
   * After the tail of the shrunk block i is freed, the block at bp, cut to
   * asize bytes, is what realloc hands back in place of block i.
   */
  lemma ShrinkDone(brk: int, bs: seq<Blk>, after: seq<Blk>, i: int, bp: int, asize: int) returns (j: int)
    requires Chain(bs, FIRST, brk) && 0 <= i < |bs| && bs[i].alloc == 1 && bs[i].bp == bp && 0 < asize < bs[i].size
    requires AllocatedSet(after) == AllocatedSet(Shrunk(bs, i, asize)) - {Shrunk(bs, i, asize)[i + 1]}
    ensures Reallocated(bs, after, i, j, bp, asize) && after[j] == Blk(bp, asize, 1)
    ensures Blk(bp, asize, 1) in AllocatedSet(after) && AllocatedSet(bs) - {bs[i]} <= AllocatedSet(after)
  {
    ShrunkAllocated(brk, bs, i, asize);
    j := AllocatedIndex(after, Blk(bp, asize, 1));
  }
}
