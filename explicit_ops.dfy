/**
 * The heap-level specification of mm_free, extend_heap, place, mm_malloc
 * and mm_realloc of mm.c, built on the coalesce specification.
 */
module ExplicitOps {
  import opened Tags
  import opened Layout
  import opened FreeList
  import opened ExplicitHeap

  /** The blocks once block i is marked free, before any merging. */
  ghost function Released(bs: seq<Blk>, i: int): seq<Blk>
    requires 0 <= i < |bs|
  {
    bs[i := Blk(bs[i].bp, bs[i].size, 0)]
  }

  /**
   * mm_free may be handed block i: it is allocated and the heap is well
   * formed, except that its footer may still be stale (mm_realloc frees the
   * tail of a shrunk block whose footer it never rewrote).
   */
  ghost predicate Freeable(m: Mem, brk: int, capacity: int, bs: seq<Blk>, fl: seq<int>, head: int, i: int)
  {
    0 <= i < |bs| && bs[i].alloc == 1 &&
    Heap(Put(m, End(bs[i]) - DSIZE, Pack(bs[i].size, 1)), brk, capacity, bs, fl, head)
  }

  /** Every allocated block of a well-formed heap may be freed. */
  lemma HeapFreeable(m: Mem, brk: int, capacity: int, bs: seq<Blk>, fl: seq<int>, head: int, i: int)
    requires Heap(m, brk, capacity, bs, fl, head) && 0 <= i < |bs| && bs[i].alloc == 1
    ensures Freeable(m, brk, capacity, bs, fl, head, i)
  {
    var f := End(bs[i]) - DSIZE;
    assert Tagged(m, bs[i]);
    PackRoundTrip(bs[i].size, 1);
    assert f in m;
    assert Put(m, f, Pack(bs[i].size, 1)) == m;
  }

  /** Marking a block free is fusing it alone. */
  lemma ReleasedFused(bs: seq<Blk>, i: int)
    requires 0 <= i < |bs|
    ensures Released(bs, i) == Fuse(bs, i, i + 1)
  {
    assert bs[i := Blk(bs[i].bp, bs[i].size, 0)] == bs[..i] + [Blk(bs[i].bp, bs[i].size, 0)] + bs[i + 1..];
  }

  /** The free starts gain the released block's payload address. */
  lemma ReleasedStarts(brk: int, bs: seq<Blk>, i: int)
    requires Chain(bs, FIRST, brk) && 0 <= i < |bs| && bs[i].alloc == 1
    ensures FreeStarts(Released(bs, i)) == FreeStarts(bs) + {bs[i].bp}
    ensures bs[i].bp !in FreeStarts(bs)
    ensures FreeStarts(bs[i..i + 1]) == {}
  {
    ReleasedSplice(bs, i);
    if bs[i].bp in FreeStarts(bs) {
      var k := FreeStartsIndex(bs, bs[i].bp);
      StartsApart(bs, FIRST, brk, k, i);
    }
  }

  /** Released, as a splice of one block: its free starts. */
  lemma ReleasedSplice(bs: seq<Blk>, i: int)
    requires 0 <= i < |bs| && bs[i].alloc == 1
    ensures FreeStarts(Released(bs, i)) == FreeStarts(bs) + {bs[i].bp}
    ensures FreeStarts(bs[i..i + 1]) == {}
  {
    var nb := Blk(bs[i].bp, bs[i].size, 0);
    ReleasedFused(bs, i);
    FreeStartsSplice(bs, i, i + 1, [nb]);
    FreeStartsOne(nb);
    assert bs[i..i + 1] == [bs[i]];
    FreeStartsOne(bs[i]);
  }

  /** The allocated blocks lose exactly the released one. */
  lemma ReleasedAllocated(brk: int, bs: seq<Blk>, i: int)
    requires Chain(bs, FIRST, brk) && 0 <= i < |bs| && bs[i].alloc == 1
    ensures AllocatedSet(Released(bs, i)) == AllocatedSet(bs) - {bs[i]}
  {
    var nb := Blk(bs[i].bp, bs[i].size, 0);
    ReleasedFused(bs, i);
    AllocatedSplice(bs, i, i + 1, [nb]);
    assert bs[i..i + 1] == [bs[i]];
    assert AllocatedSet([nb]) == {};
    assert AllocatedSet([bs[i]]) == {bs[i]};
    var before, after := bs[..i], bs[i + 1..];
    forall k | 0 <= k < |before| ensures before[k] != bs[i] {
      StartsApart(bs, FIRST, brk, k, i);
    }
    forall k | 0 <= k < |after| ensures after[k] != bs[i] {
      assert after[k] == bs[i + 1 + k];
      StartsApart(bs, FIRST, brk, i + 1 + k, i);
    }
  }

  /** A stale footer is overwritten by the free tags, so it never matters. */
  lemma StaleFooter(m: Mem, bp: int, size: int, v: int)
    requires size % 8 == 0 && size >= MIN_BLOCK_SIZE
    ensures TagsWritten(m, bp, size, 0) == FuseMem(Put(m, bp + size - DSIZE, v), bp, bp + size)
  {
    FreeTagsFuse(m, bp, size);
    assert FuseMem(Put(m, bp + size - DSIZE, v), bp, bp + size) == FuseMem(m, bp, bp + size);
  }

  /**
   * The first half of mm_free: once the tags of block i say free, the heap
   * satisfies what coalesce expects of it, with block i the one new free
   * block not yet on the list.
   */
  lemma FreeReady(m: Mem, brk: int, capacity: int, bs: seq<Blk>, fl: seq<int>, head: int, i: int)
    requires Freeable(m, brk, capacity, bs, fl, head, i)
    ensures SizeAt(m, bs[i].bp) == bs[i].size
    ensures Coalescable(TagsWritten(m, bs[i].bp, bs[i].size, 0), brk, capacity, Released(bs, i), fl, head, i)
    ensures Released(bs, i)[i].bp == bs[i].bp
  {
    FreedTags(m, brk, capacity, bs, fl, head, i);
    ReleasedStarts(brk, bs, i);
  }

  /** The tag writes of mm_free keep the heap's shape, with block i free, and its list linked. */
  lemma FreedTags(m: Mem, brk: int, capacity: int, bs: seq<Blk>, fl: seq<int>, head: int, i: int)
    requires Freeable(m, brk, capacity, bs, fl, head, i)
    ensures SizeAt(m, bs[i].bp) == bs[i].size
    ensures Shape(TagsWritten(m, bs[i].bp, bs[i].size, 0), brk, capacity, Released(bs, i))
    ensures Linked(TagsWritten(m, bs[i].bp, bs[i].size, 0), fl, head)
  {
    var bp, size := bs[i].bp, bs[i].size;
    var mF := Put(m, End(bs[i]) - DSIZE, Pack(size, 1));
    assert Tagged(mF, bs[i]) && Shaped(bs[i]) && size >= MIN_BLOCK_SIZE;
    PackRoundTrip(size, 1);
    assert Get(m, Hdrp(bp)) == Get(mF, Hdrp(bp));
    StaleFooter(m, bp, size, Pack(size, 1));
    FreedShape(mF, brk, capacity, bs, i);
    FreedLinked(mF, brk, bs, fl, head, i);
  }

  /** Fusing block i alone, as the free tags do, keeps the shape with block i free. */
  lemma FreedShape(m: Mem, brk: int, capacity: int, bs: seq<Blk>, i: int)
    requires Shape(m, brk, capacity, bs) && 0 <= i < |bs|
    ensures Shape(FuseMem(m, bs[i].bp, End(bs[i])), brk, capacity, Released(bs, i))
  {
    ReleasedFused(bs, i);
    FuseShape(m, brk, capacity, bs, i, i + 1);
  }

  /** Fusing allocated block i alone, as the free tags do, keeps the list linked. */
  lemma FreedLinked(m: Mem, brk: int, bs: seq<Blk>, fl: seq<int>, head: int, i: int)
    requires Chain(bs, FIRST, brk) && FreeMin(bs) && 0 <= i < |bs| && bs[i].alloc == 1 && bs[i].size >= MIN_BLOCK_SIZE
    requires Linked(m, fl, head) && ListSet(fl) == FreeStarts(bs)
    ensures Linked(FuseMem(m, bs[i].bp, End(bs[i])), fl, head)
  {
    ReleasedStarts(brk, bs, i);
    FuseLinks(m, brk, bs, i, i + 1, fl, head);
  }

  /** The tag writes of mm_free leave every other allocated payload. */
  lemma FreeFrame(m: Mem, brk: int, capacity: int, bs: seq<Blk>, fl: seq<int>, head: int, i: int)
    requires Freeable(m, brk, capacity, bs, fl, head, i)
    ensures PayloadsKept(m, TagsWritten(m, bs[i].bp, bs[i].size, 0), AllocatedSet(Released(bs, i)))
    ensures AllocatedSet(Released(bs, i)) == AllocatedSet(bs) - {bs[i]}
  {
    assert Chain(bs, FIRST, brk) && Shaped(bs[i]) && bs[i].size >= MIN_BLOCK_SIZE;
    ReleasedAllocated(brk, bs, i);
    TagWritesFrame(m, brk, bs, i);
  }

  /** Writing free tags over block i leaves the payloads of the other allocated blocks. */
  lemma TagWritesFrame(m: Mem, brk: int, bs: seq<Blk>, i: int)
    requires Chain(bs, FIRST, brk) && 0 <= i < |bs| && bs[i].size >= MIN_BLOCK_SIZE
    ensures PayloadsKept(m, TagsWritten(m, bs[i].bp, bs[i].size, 0), AllocatedSet(bs) - {bs[i]})
  {
    var bp, size, e := bs[i].bp, bs[i].size, End(bs[i]);
    assert Shaped(bs[i]);
    var A := AllocatedSet(bs) - {bs[i]};
    FreeTagsFuse(m, bp, size);
    SpanMissesPayloads(bs, FIRST, brk, i, Hdrp(bp));
    SpanMissesPayloads(bs, FIRST, brk, i, e - DSIZE);
    var m1 := Put(m, Hdrp(bp), e - bp);
    PutKeepsPayloads(m, Hdrp(bp), e - bp, A);
    PutKeepsPayloads(m1, e - DSIZE, e - bp, A);
    PayloadsKeptTrans(m, m1, FuseMem(m, bp, e), A, A, A);
  }

  /**
   * extend_heap's size: the word count rounded up to an even number of
   * words, in bytes, and at least a minimum block.
   */
  function ExtendSize(words: int): (size: int)
    requires words >= 0
    ensures size % 8 == 0 && size >= MIN_BLOCK_SIZE && size >= words * WSIZE
    ensures size == MIN_BLOCK_SIZE || size <= words * WSIZE + WSIZE
  {
    var size := if words % 2 == 1 then (words + 1) * WSIZE else words * WSIZE;
    if size < MIN_BLOCK_SIZE then MIN_BLOCK_SIZE else size
  }

  /** The memory after extend_heap's header, footer and new epilogue writes for a block at bp. */
  function ExtendedMem(m: Mem, bp: int, size: int): Mem
  {
    Put(TagsWritten(m, bp, size, 0), bp + size - WSIZE, Pack(0, 1))
  }

  /** The three writes of extend_heap, one address at a time. */
  lemma ExtendedAt(m: Mem, bp: int, size: int)
    requires size % 8 == 0 && size >= MIN_BLOCK_SIZE
    ensures ExtendedMem(m, bp, size) ==
            Put(Put(Put(m, Hdrp(bp), Pack(size, 0)), bp + size - DSIZE, Pack(size, 0)), bp + size - WSIZE, Pack(0, 1))
    ensures forall a :: a < Hdrp(bp) ==> Get(ExtendedMem(m, bp, size), a) == Get(m, a)
  {
    TagsAt(m, bp, size, 0);
  }

  /** The grown arena is tiled by the old blocks and the new free block, and ends in an epilogue. */
  lemma GrowShape(m: Mem, brk: int, capacity: int, bs: seq<Blk>, size: int)
    requires Shape(m, brk, capacity, bs) && size % 8 == 0 && size >= MIN_BLOCK_SIZE && brk + size <= capacity
    ensures Shape(ExtendedMem(m, brk, size), brk + size, capacity, bs + [Blk(brk, size, 0)])
  {
    GrowTiled(m, brk, bs, size);
    ExtendedAt(m, brk, size);
    var bs' := bs + [Blk(brk, size, 0)];
    assert AllMin(bs') && FreeMin(bs');
  }

  /** The new block's tags follow the old blocks; the epilogue lies past them all. */
  lemma GrowTiled(m: Mem, brk: int, bs: seq<Blk>, size: int)
    requires Tiled(m, bs, FIRST, brk) && brk % 8 == 0 && size % 8 == 0 && size >= MIN_BLOCK_SIZE
    ensures Tiled(ExtendedMem(m, brk, size), bs + [Blk(brk, size, 0)], FIRST, brk + size)
  {
    var nb := Blk(brk, size, 0);
    var m2 := TagsWritten(m, brk, size, 0);
    TagsAt(m, brk, size, 0);
    ChainOne(nb);
    assert Tagged(m2, nb);
    assert Tiled(m2, [nb], brk, brk + size);
    Splice(m, m2, bs, FIRST, brk, brk + size, |bs|, |bs|, [nb]);
    assert bs[..|bs|] + [nb] + bs[|bs|..] == bs + [nb];
    TiledBelow(m2, ExtendedMem(m, brk, size), bs + [nb], FIRST, brk + size);
  }

  /** The grown arena keeps the free list; the new block is the one free block not on it. */
  lemma GrowLinks(m: Mem, brk: int, bs: seq<Blk>, fl: seq<int>, head: int, size: int)
    requires Chain(bs, FIRST, brk) && FreeMin(bs) && Linked(m, fl, head) && ListSet(fl) == FreeStarts(bs)
    requires size % 8 == 0 && size >= MIN_BLOCK_SIZE
    ensures Linked(ExtendedMem(m, brk, size), fl, head)
    ensures ListSet(fl) == FreeStarts(bs + [Blk(brk, size, 0)]) - {brk}
  {
    var nb := Blk(brk, size, 0);
    forall x | x in fl ensures x + MIN_BLOCK_SIZE <= brk {
      assert x in ListSet(fl);
      FreeStartsWithin(bs, FIRST, brk, x);
    }
    ExtendedAt(m, brk, size);
    LinkedKept(m, ExtendedMem(m, brk, size), fl, head, Hdrp(brk), brk + size);
    FreeStartsConcat(bs, [nb]);
    FreeStartsOne(nb);
  }

  /** Growing writes only past every block: no payload changes. */
  lemma GrowFrame(m: Mem, brk: int, bs: seq<Blk>, size: int)
    requires Chain(bs, FIRST, brk) && size % 8 == 0 && size >= MIN_BLOCK_SIZE
    ensures PayloadsKept(m, ExtendedMem(m, brk, size), AllocatedSet(bs + [Blk(brk, size, 0)]))
    ensures AllocatedSet(bs + [Blk(brk, size, 0)]) == AllocatedSet(bs)
  {
    ExtendedAt(m, brk, size);
    forall b | b in AllocatedSet(bs) ensures Untouched(m, ExtendedMem(m, brk, size), b.bp, End(b) - DSIZE) {
      var k :| 0 <= k < |bs| && bs[k] == b;
      Bounds(bs, FIRST, brk, k);
    }
    assert forall b :: b in bs + [Blk(brk, size, 0)] <==> b in bs || b == Blk(brk, size, 0);
  }

  /**
   * What coalesce expects once extend_heap has written the new block: the
   * grown heap (m', brk', bs') with the new block |bs| free and off the list.
   */
  lemma GrowReady(m: Mem, brk: int, capacity: int, bs: seq<Blk>, fl: seq<int>, head: int, size: int,
                  m': Mem, brk': int, bs': seq<Blk>)
    requires Heap(m, brk, capacity, bs, fl, head)
    requires size % 8 == 0 && size >= MIN_BLOCK_SIZE && brk + size <= capacity
    requires m' == ExtendedMem(m, brk, size) && brk' == brk + size && bs' == bs + [Blk(brk, size, 0)]
    ensures Coalescable(m', brk', capacity, bs', fl, head, |bs|)
    ensures bs'[|bs|].bp == brk
    ensures PayloadsKept(m, m', AllocatedSet(bs')) && AllocatedSet(bs') == AllocatedSet(bs)
  {
    GrowShape(m, brk, capacity, bs, size);
    GrowLinks(m, brk, bs, fl, head, size);
    GrowFrame(m, brk, bs, size);
  }

  /**
   * The block extend_heap hands back: the new block, merged with a free
   * last block before it if any, is the new last block and is free.
   */
  lemma GrownMerged(brk: int, bs: seq<Blk>, size: int, r: seq<Blk>, bp: int)
    requires Chain(bs, FIRST, brk) && size >= 0
    requires r == Merged(bs + [Blk(brk, size, 0)], |bs|)
    requires bp == (bs + [Blk(brk, size, 0)])[MergeLo(bs + [Blk(brk, size, 0)], |bs|)].bp
    ensures |r| > 0 && r[|r| - 1] == Blk(bp, brk + size - bp, 0) && brk + size - bp >= size
    ensures bp == GrownStart(bs, brk)
  {
    if |bs| > 0 {
      Bounds(bs, FIRST, brk, |bs| - 1);
      assert (bs + [Blk(brk, size, 0)])[|bs| - 1] == bs[|bs| - 1];
    }
  }

  /**
   * The free list extend_heap leaves: coalesce unlinks the free last block
   * it merges with (the new block was never listed) and pushes the merged
   * block, which starts at GrownStart.
   */
  lemma GrownListed(brk: int, bs: seq<Blk>, fl: seq<int>, size: int)
    requires Chain(bs, FIRST, brk) && FreeMin(bs) && ListSet(fl) == FreeStarts(bs) && size >= 0
    ensures var g := bs + [Blk(brk, size, 0)];
            [g[MergeLo(g, |bs|)].bp] + Minus(fl, FreeStarts(g[MergeLo(g, |bs|)..MergeHi(g, |bs|)])) ==
            GrownList(bs, fl, brk)
  {
    var g := bs + [Blk(brk, size, 0)];
    var lo := MergeLo(g, |bs|);
    var nb := Blk(brk, size, 0);
    assert MergeHi(g, |bs|) == |g|;
    FreeStartsOne(nb);
    if lo == |bs| {
      assert g[lo..|g|] == [nb];
      assert GrownStart(bs, brk) == brk by {
        if |bs| > 0 {
          assert g[|bs| - 1] == bs[|bs| - 1];
        }
      }
    } else {
      var last := bs[|bs| - 1];
      assert g[|bs| - 1] == last;
      assert g[lo..|g|] == [last] + [nb];
      FreeStartsConcat([last], [nb]);
      FreeStartsOne(last);
      forall k | 0 <= k < |fl| ensures fl[k] in FreeStarts(g[lo..|g|]) <==> fl[k] in {last.bp} {
        assert fl[k] in ListSet(fl);
        FreeStartsWithin(bs, FIRST, brk, fl[k]);
      }
      MinusSame(fl, FreeStarts(g[lo..|g|]), {last.bp});
    }
  }

  /**
   * What place makes of free block b for a request of asize bytes: an
   * allocated block of asize bytes and a free remainder when the remainder
   * can be a block of its own, or else all of b allocated.
   */
  function PlacedBlocks(b: Blk, asize: int): (r: seq<Blk>)
  {
    if b.size - asize >= MIN_BLOCK_SIZE then [Blk(b.bp, asize, 1), Blk(b.bp + asize, b.size - asize, 0)]
    else [Blk(b.bp, b.size, 1)]
  }

  /** The blocks after place(bs[j].bp, asize). */
  ghost function Placed(bs: seq<Blk>, j: int, asize: int): seq<Blk>
    requires 0 <= j < |bs|
  {
    bs[..j] + PlacedBlocks(bs[j], asize) + bs[j + 1..]
  }

  /**
   * The free list after place on free block b: b leaves it, and a
   * remainder split off is pushed on its front.
   */
  ghost function PlacedList(fl: seq<int>, b: Blk, asize: int): seq<int>
  {
    (if b.size - asize >= MIN_BLOCK_SIZE then [b.bp + asize] else []) + Minus(fl, {b.bp})
  }

  /** PlacedList in the terms of place's two branches, for block b at bp. */
  lemma PlacedListAt(fl: seq<int>, b: Blk, bp: int, asize: int)
    requires b.bp == bp
    ensures b.size - asize >= MIN_BLOCK_SIZE ==> PlacedList(fl, b, asize) == [bp + asize] + Minus(fl, {bp})
    ensures b.size - asize < MIN_BLOCK_SIZE ==> PlacedList(fl, b, asize) == Minus(fl, {bp})
  {
  }

  /**
   * The free list after extend_heap: the grown block, merged with a free
   * last block, is on its front and nowhere else.
   */
  ghost function GrownList(bs: seq<Blk>, fl: seq<int>, brk: int): seq<int>
  {
    [GrownStart(bs, brk)] + Minus(fl, {GrownStart(bs, brk)})
  }

  /** The blocks after mm_free of block i: marked free, then coalesced. */
  ghost function FreedBlocks(bs: seq<Blk>, i: int): seq<Blk>
    requires 0 <= i < |bs|
  {
    Merged(Released(bs, i), i)
  }

  /**
   * The free list after mm_free of block i: the free neighbours it merges
   * with are unlinked and the merged block is pushed on the front.
   */
  ghost function FreedList(bs: seq<Blk>, fl: seq<int>, i: int): seq<int>
    requires 0 <= i < |bs|
  {
    var r := Released(bs, i);
    [r[MergeLo(r, i)].bp] + Minus(fl, FreeStarts(r[MergeLo(r, i)..MergeHi(r, i)]))
  }

  /**
   * m' is m with place's tags written over free block b: the placed pieces
   * tile b's span and every word outside the span reads as before.
   */
  ghost predicate PiecesWritten(m: Mem, m': Mem, b: Blk, asize: int)
  {
    Tiled(m', PlacedBlocks(b, asize), b.bp, End(b)) &&
    forall a :: a < Hdrp(b.bp) || End(b) - WSIZE <= a ==> Get(m', a) == Get(m, a)
  }

  /** place without a split writes the whole block's allocated tags. */
  lemma WholeWritten(m: Mem, m': Mem, b: Blk, asize: int)
    requires Shaped(b) && asize % 8 == 0 && MIN_BLOCK_SIZE <= asize <= b.size && b.size - asize < MIN_BLOCK_SIZE
    requires m' == Retagged(m, b.bp, b.size, 1)
    ensures PiecesWritten(m, m', b, asize)
  {
    ChainOne(Blk(b.bp, b.size, 1));
  }

  /**
   * place with a split writes the allocated part's tags, then the free
   * remainder's: the free block of csize bytes at bp is retiled by the two.
   */
  lemma SplitWritten(m: Mem, m': Mem, bp: int, csize: int, asize: int)
    requires bp % 8 == 0 && csize % 8 == 0 && asize % 8 == 0 && MIN_BLOCK_SIZE <= asize && csize - asize >= MIN_BLOCK_SIZE
    requires m' == Retagged(Retagged(m, bp, asize, 1), bp + asize, csize - asize, 0)
    ensures PiecesWritten(m, m', Blk(bp, csize, 0), asize)
  {
    var x, y := Blk(bp, asize, 1), Blk(bp + asize, csize - asize, 0);
    assert Shaped(x) && Shaped(y) by {
      AlignedDiff(csize, asize);
      AlignedDiff(bp, -asize);
    }
    assert Tagged(m', x) && Tagged(m', y);
    assert Chain([x, y], bp, bp + csize) by {
      ChainOne(x);
      ChainOne(y);
      ChainJoin([x], [y], bp, y.bp, End(y));
      assert [x] + [y] == [x, y];
    }
  }


  /** After place's tag writes the arena is tiled by the placed blocks. */
  lemma PlacedShape(m: Mem, m': Mem, brk: int, capacity: int, bs: seq<Blk>, j: int, asize: int)
    requires Shape(m, brk, capacity, bs) && 0 <= j < |bs| && asize % 8 == 0 && MIN_BLOCK_SIZE <= asize <= bs[j].size
    requires PiecesWritten(m, m', bs[j], asize)
    ensures Shape(m', brk, capacity, Placed(bs, j, asize))
  {
    var b := bs[j];
    assert Shaped(b);
    Bounds(bs, FIRST, brk, j);
    assert Mid(bs, j, brk) == b.bp && Mid(bs, j + 1, brk) == End(b);
    Splice(m, m', bs, FIRST, brk, brk, j, j + 1, PlacedBlocks(b, asize));
    assert Get(m', Hdrp(PROLOGUE)) == Get(m, Hdrp(PROLOGUE));
    assert Get(m', PROLOGUE + MIN_BLOCK_SIZE - DSIZE) == Get(m, PROLOGUE + MIN_BLOCK_SIZE - DSIZE);
    assert Get(m', FIRST - DSIZE) == Get(m, FIRST - DSIZE);
    assert Get(m', brk - WSIZE) == Get(m, brk - WSIZE);
    PlacedMins(bs, j, asize);
  }

  /** Every placed block is a minimum block. */
  lemma PlacedMins(bs: seq<Blk>, j: int, asize: int)
    requires AllMin(bs) && 0 <= j < |bs| && MIN_BLOCK_SIZE <= asize <= bs[j].size
    ensures AllMin(Placed(bs, j, asize)) && FreeMin(Placed(bs, j, asize))
  {
    var r := Placed(bs, j, asize);
    var n := |PlacedBlocks(bs[j], asize)|;
    forall k | 0 <= k < |r| ensures r[k].size >= MIN_BLOCK_SIZE {
      if k < j {
        assert r[k] == bs[k];
      } else if k >= j + n {
        assert r[k] == bs[k - n + 1];
      }
    }
  }

  /**
   * The link slots deleteblock(bp) writes lie outside the span [lo, hi):
   * the next slot of bp's predecessor and the previous slot of its successor.
   */
  ghost predicate RelinkOutside(m: Mem, bp: int, lo: int, hi: int)
  {
    var previous, next := Get(m, FreePrev(bp)), Get(m, FreeNext(bp));
    (previous == NULL || FreeNext(previous) < lo || hi <= FreeNext(previous)) &&
    (FreePrev(next) < lo || hi <= FreePrev(next))
  }

  /**
   * In a well-formed heap, the list neighbours of a free block j lie outside
   * it: they are other free blocks or the prologue.
   */
  lemma NeighboursOutside(m: Mem, brk: int, capacity: int, bs: seq<Blk>, fl: seq<int>, head: int, j: int)
    requires Heap(m, brk, capacity, bs, fl, head) && 0 <= j < |bs| && bs[j].alloc == 0
    ensures bs[j].bp in fl
    ensures RelinkOutside(m, bs[j].bp, Hdrp(bs[j].bp), End(bs[j]) - WSIZE)
  {
    var bp := bs[j].bp;
    FreeStartsHas(bs, j);
    assert bp in ListSet(fl);
    var k :| 0 <= k < |fl| && fl[k] == bp;
    LinkedAt(m, fl, head, k);
    LinkedDistinct(m, fl, head);
    Bounds(bs, FIRST, brk, j);
    if k > 0 {
      assert fl[k - 1] in ListSet(fl);
      FreeStartOutside(bs, FIRST, brk, fl[k - 1], j);
    }
    if k + 1 < |fl| {
      assert fl[k + 1] in ListSet(fl);
      FreeStartOutside(bs, FIRST, brk, fl[k + 1], j);
    }
  }

  /**
   * Writing block tags inside bp's own span and then unlinking bp is the
   * same as unlinking first: the tags and the relinked slots are apart.
   */
  lemma UnlinkAfterTags(m: Mem, bp: int, size: int, alloc: int, head: int, hi: int)
    requires size % 8 == 0 && size >= MIN_BLOCK_SIZE && (alloc == 0 || alloc == 1)
    requires RelinkOutside(m, bp, Hdrp(bp), hi) && bp + size - WSIZE <= hi
    ensures Unlinked(Retagged(m, bp, size, alloc), bp) == Retagged(Unlinked(m, bp), bp, size, alloc)
    ensures UnlinkedHead(Retagged(m, bp, size, alloc), head, bp) == UnlinkedHead(m, head, bp)
  {
    var m1 := Retagged(m, bp, size, alloc);
    assert Get(m1, FreePrev(bp)) == Get(m, FreePrev(bp));
    assert Get(m1, FreeNext(bp)) == Get(m, FreeNext(bp));
  }

  /** The free list, whose members lie outside block j, stays linked through place's tag writes. */
  lemma PlacedLinks(m: Mem, m': Mem, brk: int, bs: seq<Blk>, fl: seq<int>, head: int, j: int, asize: int)
    requires Chain(bs, FIRST, brk) && FreeMin(bs) && 0 <= j < |bs|
    requires PiecesWritten(m, m', bs[j], asize)
    requires Linked(m, fl, head) && ListSet(fl) <= FreeStarts(bs) - {bs[j].bp}
    ensures Linked(m', fl, head)
  {
    var b := bs[j];
    assert Shaped(b);
    forall x | x in fl ensures x + 2 * DSIZE <= Hdrp(b.bp) || End(b) - WSIZE <= x {
      assert x in ListSet(fl);
      FreeStartOutside(bs, FIRST, brk, x, j);
    }
    LinkedKept(m, m', fl, head, Hdrp(b.bp), End(b) - WSIZE);
  }

  /**
   * Placing into free block j takes its start out of the free starts and,
   * on a split, adds the remainder's start, which was no free start before.
   */
  lemma PlacedStarts(brk: int, bs: seq<Blk>, j: int, asize: int) returns (N: set<int>)
    requires Chain(bs, FIRST, brk) && FreeMin(bs) && 0 <= j < |bs| && bs[j].alloc == 0
    requires MIN_BLOCK_SIZE <= asize <= bs[j].size
    ensures N == if bs[j].size - asize >= MIN_BLOCK_SIZE then {bs[j].bp + asize} else {}
    ensures bs[j].size - asize >= MIN_BLOCK_SIZE ==> bs[j].bp + asize !in FreeStarts(bs)
    ensures FreeStarts(Placed(bs, j, asize)) == FreeStarts(bs) - {bs[j].bp} + N
  {
    var b := bs[j];
    var before, after := StartsAround(brk, bs, j);
    N := PlacedBlocksStarts(b, asize);
    FreeStartsSplice(bs, j, j + 1, PlacedBlocks(b, asize));
    StartsSwapped(before, after, b.bp, End(b), N);
    if b.size - asize >= MIN_BLOCK_SIZE {
      assert b.bp + asize in N;
    }
  }

  /** The free starts of a chain: those before free block j, its own, and those after it. */
  lemma StartsAround(brk: int, bs: seq<Blk>, j: int) returns (before: set<int>, after: set<int>)
    requires Chain(bs, FIRST, brk) && FreeMin(bs) && 0 <= j < |bs| && bs[j].alloc == 0
    ensures before == FreeStarts(bs[..j]) && after == FreeStarts(bs[j + 1..])
    ensures FreeStarts(bs) == before + {bs[j].bp} + after
    ensures forall x :: x in before ==> x < bs[j].bp
    ensures forall x :: x in after ==> End(bs[j]) <= x
  {
    var b := bs[j];
    FreeStartsSplice(bs, j, j + 1, []);
    FreeStartsParts(bs, FIRST, brk, j, j + 1);
    Bounds(bs, FIRST, brk, j);
    assert bs[j..j + 1] == [b];
    FreeStartsOne(b);
    assert Mid(bs, j, brk) == b.bp && Mid(bs, j + 1, brk) == End(b);
    before, after := FreeStarts(bs[..j]), FreeStarts(bs[j + 1..]);
  }

  /** The free starts among the placed pieces: the remainder's, when there is one. */
  lemma PlacedBlocksStarts(b: Blk, asize: int) returns (N: set<int>)
    ensures N == FreeStarts(PlacedBlocks(b, asize))
    ensures N == if b.size - asize >= MIN_BLOCK_SIZE then {b.bp + asize} else {}
  {
    var nbs := PlacedBlocks(b, asize);
    if b.size - asize >= MIN_BLOCK_SIZE {
      FreeStartsConcat([nbs[0]], [nbs[1]]);
      assert nbs == [nbs[0]] + [nbs[1]];
      FreeStartsOne(nbs[0]);
      FreeStartsOne(nbs[1]);
    } else {
      FreeStartsOne(nbs[0]);
    }
    N := FreeStarts(nbs);
  }

  /** Set algebra for PlacedStarts: start lo leaves, the starts N arrive, all within (lo, hi). */
  lemma StartsSwapped(before: set<int>, after: set<int>, lo: int, hi: int, N: set<int>)
    requires forall x :: x in before ==> x < lo
    requires forall x :: x in after ==> hi <= x
    requires lo < hi && forall x :: x in N ==> lo < x < hi
    ensures forall x :: x in N ==> x !in before + {lo} + after
    ensures before + N + after == (before + {lo} + after) - {lo} + N
  {
    assert lo !in before && lo !in after;
  }

  /**
   * Only the remainder of a split can have a free neighbour, and it has
   * none: the block before it is the one just allocated and the block after
   * it followed a free block. So coalescing the remainder changes nothing.
   */
  lemma PlacedAdjacent(bs: seq<Blk>, j: int, asize: int)
    requires NoAdjacentFree(bs) && 0 <= j < |bs| && bs[j].alloc == 0
    ensures bs[j].size - asize < MIN_BLOCK_SIZE ==> NoAdjacentFree(Placed(bs, j, asize))
    ensures bs[j].size - asize >= MIN_BLOCK_SIZE ==>
              |Placed(bs, j, asize)| == |bs| + 1 &&
              Placed(bs, j, asize)[j + 1] == Blk(bs[j].bp + asize, bs[j].size - asize, 0) &&
              NoAdjacentFreeBut(Placed(bs, j, asize), j + 1) &&
              MergeLo(Placed(bs, j, asize), j + 1) == j + 1 &&
              MergeHi(Placed(bs, j, asize), j + 1) == j + 2
  {
    var r := Placed(bs, j, asize);
    var n := |PlacedBlocks(bs[j], asize)|;
    assert forall k :: 0 <= k < j ==> r[k] == bs[k];
    assert forall k :: j + n <= k < |r| ==> r[k] == bs[k - n + 1];
    if n == 2 && j + 2 < |r| {
      assert bs[j + 1].alloc == 1;
    }
  }

  /** Allocating in block j adds exactly the newly allocated block to the allocated set. */
  lemma PlacedAllocated(bs: seq<Blk>, j: int, asize: int)
    requires 0 <= j < |bs| && bs[j].alloc == 0
    ensures Placed(bs, j, asize)[j] == PlacedBlocks(bs[j], asize)[0]
    ensures AllocatedSet(Placed(bs, j, asize)) == AllocatedSet(bs) + {Placed(bs, j, asize)[j]}
  {
    var nbs := PlacedBlocks(bs[j], asize);
    AllocatedSplice(bs, j, j + 1, nbs);
    assert bs[j..j + 1] == [bs[j]];
    assert AllocatedSet([bs[j]]) == {};
    assert AllocatedSet(nbs) == {nbs[0]};
  }

  /** Place's tag writes lie in block j, which was free: no allocated payload changes. */
  lemma PlacedFrame(m: Mem, m': Mem, brk: int, bs: seq<Blk>, j: int, asize: int)
    requires Chain(bs, FIRST, brk) && 0 <= j < |bs| && bs[j].alloc == 0
    requires PiecesWritten(m, m', bs[j], asize)
    ensures PayloadsKept(m, m', AllocatedSet(bs))
  {
    var b := bs[j];
    forall c | c in AllocatedSet(bs) ensures Untouched(m, m', c.bp, End(c) - DSIZE) {
      forall a | c.bp <= a < End(c) - DSIZE ensures Get(m', a) == Get(m, a) {
        if Hdrp(b.bp) <= a < End(b) {
          SpanMissesPayloads(bs, FIRST, brk, j, a);
        }
      }
    }
  }

  /** Coalescing the remainder of a split merges nothing and finds only the remainder free. */
  lemma PlacedCoalesced(bs: seq<Blk>, j: int, asize: int)
    requires NoAdjacentFree(bs) && 0 <= j < |bs| && bs[j].alloc == 0
    requires bs[j].size - asize >= MIN_BLOCK_SIZE
    ensures Merged(Placed(bs, j, asize), j + 1) == Placed(bs, j, asize)
    ensures FreeStarts(Placed(bs, j, asize)[j + 1..j + 2]) == {bs[j].bp + asize}
  {
    var r := Placed(bs, j, asize);
    PlacedAdjacent(bs, j, asize);
    assert r[j + 1] == Blk(bs[j].bp + asize, bs[j].size - asize, 0);
    assert Fuse(r, j + 1, j + 2) == r[..j + 1] + [r[j + 1]] + r[j + 2..];
    assert r[..j + 1] + [r[j + 1]] + r[j + 2..] == r;
    assert r[j + 1..j + 2] == [r[j + 1]];
    FreeStartsOne(r[j + 1]);
  }

  /** deleteblock on free block j: the shape stays, the list loses bp, and no allocated payload changes. */
  lemma PlaceUnlinked(m0: Mem, brk: int, capacity: int, bs: seq<Blk>, fl: seq<int>, head: int, j: int)
    requires Heap(m0, brk, capacity, bs, fl, head) && 0 <= j < |bs| && bs[j].alloc == 0
    ensures Shape(Unlinked(m0, bs[j].bp), brk, capacity, bs)
    ensures Linked(Unlinked(m0, bs[j].bp), Minus(fl, {bs[j].bp}), UnlinkedHead(m0, head, bs[j].bp))
    ensures ListSet(Minus(fl, {bs[j].bp})) == FreeStarts(bs) - {bs[j].bp}
    ensures PayloadsKept(m0, Unlinked(m0, bs[j].bp), AllocatedSet(bs))
  {
    var bp := bs[j].bp;
    FreeStartsHas(bs, j);
    DeleteLinked(m0, fl, head, bp);
    SlotWritesKeepShape(m0, Unlinked(m0, bp), brk, capacity, bs, ListSet(fl));
    ListMinus(fl, {bp});
    SlotsMissPayloads(m0, Unlinked(m0, bp), brk, bs, ListSet(fl));
  }

  /**
   * place's tag writes over free block j, on a memory where bp is already
   * off the list: the placed blocks tile the arena, the list stays linked,
   * and no allocated payload changes.
   */
  lemma PlaceOnUnlinked(m: Mem, m': Mem, brk: int, capacity: int, bs: seq<Blk>, fl: seq<int>, head: int, j: int, asize: int)
    requires Shape(m, brk, capacity, bs) && 0 <= j < |bs| && bs[j].alloc == 0
    requires Linked(m, fl, head) && ListSet(fl) == FreeStarts(bs) - {bs[j].bp}
    requires asize % 8 == 0 && MIN_BLOCK_SIZE <= asize <= bs[j].size
    requires PiecesWritten(m, m', bs[j], asize)
    ensures Shape(m', brk, capacity, Placed(bs, j, asize))
    ensures Linked(m', fl, head)
    ensures PayloadsKept(m, m', AllocatedSet(bs))
  {
    PlacedShape(m, m', brk, capacity, bs, j, asize);
    PlacedLinks(m, m', brk, bs, fl, head, j, asize);
    PlacedFrame(m, m', brk, bs, j, asize);
  }

  /** Without a split, placing takes block j's start out of the free starts. */
  lemma WholeStarts(brk: int, bs: seq<Blk>, j: int, asize: int)
    requires Chain(bs, FIRST, brk) && FreeMin(bs) && 0 <= j < |bs| && bs[j].alloc == 0
    requires MIN_BLOCK_SIZE <= asize <= bs[j].size && bs[j].size - asize < MIN_BLOCK_SIZE
    ensures FreeStarts(Placed(bs, j, asize)) == FreeStarts(bs) - {bs[j].bp}
  {
    var N := PlacedStarts(brk, bs, j, asize);
    assert N == {};
  }

  /** A split leaves the free remainder right after the allocated front. */
  lemma PlacedRest(bs: seq<Blk>, j: int, asize: int)
    requires 0 <= j < |bs| && bs[j].size - asize >= MIN_BLOCK_SIZE
    ensures Placed(bs, j, asize)[j + 1] == Blk(bs[j].bp + asize, bs[j].size - asize, 0)
  {
  }

  /** Set algebra for SplitListed: a list missing y from S misses the new x from S - {y} + {x}. */
  lemma SwappedBack(L: set<int>, F: set<int>, S: set<int>, y: int, x: int, N: set<int>)
    requires L == S - {y} && F == S - {y} + N && N == {x} && x !in S
    ensures L == F - {x}
  {
  }

  /**
   * place without a split, after deleteblock: with the whole block's
   * allocated tags written, the heap invariant holds for the placed blocks,
   * and no allocated payload changed.
   */
  lemma PlaceWholeReady(m: Mem, m': Mem, brk: int, capacity: int, bs: seq<Blk>, fl: seq<int>, head: int, j: int, asize: int)
    requires Shape(m, brk, capacity, bs) && NoAdjacentFree(bs) && 0 <= j < |bs| && bs[j].alloc == 0
    requires Linked(m, fl, head) && ListSet(fl) == FreeStarts(bs) - {bs[j].bp}
    requires asize % 8 == 0 && MIN_BLOCK_SIZE <= asize <= bs[j].size && bs[j].size - asize < MIN_BLOCK_SIZE
    requires PiecesWritten(m, m', bs[j], asize)
    ensures Heap(m', brk, capacity, Placed(bs, j, asize), fl, head)
    ensures PayloadsKept(m, m', AllocatedSet(bs))
  {
    PlaceOnUnlinked(m, m', brk, capacity, bs, fl, head, j, asize);
    WholeStarts(brk, bs, j, asize);
    PlacedAdjacent(bs, j, asize);
  }

  /**
   * place with a split, after deleteblock: with the allocated part's and
   * the remainder's tags written, the remainder is ready for coalesce, and
   * no allocated payload changed.
   */
  lemma PlaceSplitReady(m: Mem, m': Mem, brk: int, capacity: int, bs: seq<Blk>, fl: seq<int>, head: int, j: int, asize: int)
    requires Shape(m, brk, capacity, bs) && NoAdjacentFree(bs) && 0 <= j < |bs| && bs[j].alloc == 0
    requires Linked(m, fl, head) && ListSet(fl) == FreeStarts(bs) - {bs[j].bp}
    requires asize % 8 == 0 && MIN_BLOCK_SIZE <= asize && bs[j].size - asize >= MIN_BLOCK_SIZE
    requires PiecesWritten(m, m', bs[j], asize)
    ensures Coalescable(m', brk, capacity, Placed(bs, j, asize), fl, head, j + 1)
    ensures Placed(bs, j, asize)[j + 1].bp == bs[j].bp + asize
    ensures PayloadsKept(m, m', AllocatedSet(bs))
  {
    PlaceOnUnlinked(m, m', brk, capacity, bs, fl, head, j, asize);
    SplitListed(brk, bs, fl, j, asize);
    PlacedAdjacent(bs, j, asize);
  }

  /** The list without bp is the free starts of the placed blocks without the remainder. */
  lemma SplitListed(brk: int, bs: seq<Blk>, fl: seq<int>, j: int, asize: int)
    requires Chain(bs, FIRST, brk) && FreeMin(bs) && 0 <= j < |bs| && bs[j].alloc == 0
    requires MIN_BLOCK_SIZE <= asize && bs[j].size - asize >= MIN_BLOCK_SIZE
    requires ListSet(fl) == FreeStarts(bs) - {bs[j].bp}
    ensures ListSet(fl) == FreeStarts(Placed(bs, j, asize)) - {Placed(bs, j, asize)[j + 1].bp}
  {
    var N := PlacedStarts(brk, bs, j, asize);
    SwappedBack(ListSet(fl), FreeStarts(Placed(bs, j, asize)), FreeStarts(bs), bs[j].bp, bs[j].bp + asize, N);
    PlacedRest(bs, j, asize);
  }

  /** A block start that is not free is not on the list, nor on any list taken from it. */
  lemma Unlisted(bs: seq<Blk>, fl: seq<int>, x: int, S: set<int>)
    requires ListSet(fl) == FreeStarts(bs) && x !in FreeStarts(bs)
    ensures x !in Minus(fl, S)
  {
    assert x !in ListSet(fl);
  }

  /** The remainder split off block j is on no list drawn from the free blocks. */
  lemma SplitUnlisted(brk: int, bs: seq<Blk>, fl: seq<int>, j: int, bp: int, asize: int)
    requires Chain(bs, FIRST, brk) && FreeMin(bs) && ListSet(fl) == FreeStarts(bs)
    requires 0 <= j < |bs| && bs[j].alloc == 0 && bs[j].bp == bp
    requires MIN_BLOCK_SIZE <= asize && bs[j].size - asize >= MIN_BLOCK_SIZE
    ensures Minus(Minus(fl, {bp}), {bp + asize}) == Minus(fl, {bp})
  {
    assert bp + asize !in FreeStarts(bs) by {
      var _ := PlacedStarts(brk, bs, j, asize);
    }
    Unlisted(bs, fl, bp + asize, {bp});
    MinusAbsent(Minus(fl, {bp}), bp + asize);
  }

  /** After the split coalesce finds nothing to merge: the remainder alone is the merged run. */
  lemma SplitMerged(bs: seq<Blk>, j: int, bp: int, asize: int)
    requires NoAdjacentFree(bs) && 0 <= j < |bs| && bs[j].alloc == 0 && bs[j].bp == bp
    requires bs[j].size - asize >= MIN_BLOCK_SIZE
    ensures Merged(Placed(bs, j, asize), j + 1) == Placed(bs, j, asize)
    ensures MergeLo(Placed(bs, j, asize), j + 1) == j + 1 && MergeHi(Placed(bs, j, asize), j + 1) == j + 2
    ensures Placed(bs, j, asize)[j + 1].bp == bp + asize
    ensures FreeStarts(Placed(bs, j, asize)[j + 1..j + 2]) == {bp + asize}
  {
    PlacedCoalesced(bs, j, asize);
    PlacedAdjacent(bs, j, asize);
  }

  /**
   * The split branch of place up to its call of coalesce: with m' the
   * unlinked heap carrying the allocated part's and the remainder's tags,
   * the remainder is ready for coalesce and no allocated payload changed.
   */
  lemma PlaceSplitBefore(m0: Mem, brk: int, capacity: int, bs: seq<Blk>, fl: seq<int>, head: int, j: int, asize: int,
                         m': Mem, head': int, fl': seq<int>)
    requires Heap(m0, brk, capacity, bs, fl, head) && 0 <= j < |bs| && bs[j].alloc == 0
    requires asize % 8 == 0 && MIN_BLOCK_SIZE <= asize && bs[j].size - asize >= MIN_BLOCK_SIZE
    requires PiecesWritten(Unlinked(m0, bs[j].bp), m', bs[j], asize)
    requires head' == UnlinkedHead(m0, head, bs[j].bp)
    requires fl' == Minus(fl, {bs[j].bp})
    ensures Coalescable(m', brk, capacity, Placed(bs, j, asize), fl', head', j + 1)
    ensures Placed(bs, j, asize)[j + 1].bp == bs[j].bp + asize
    ensures PayloadsKept(m0, m', AllocatedSet(bs))
  {
    var bp, mU := bs[j].bp, Unlinked(m0, bs[j].bp);
    assert Shape(mU, brk, capacity, bs) && NoAdjacentFree(bs) &&
           Linked(mU, fl', head') && ListSet(fl') == FreeStarts(bs) - {bp} &&
           PayloadsKept(m0, mU, AllocatedSet(bs)) by {
      PlaceUnlinked(m0, brk, capacity, bs, fl, head, j);
    }
    assert Coalescable(m', brk, capacity, Placed(bs, j, asize), fl', head', j + 1) &&
           Placed(bs, j, asize)[j + 1].bp == bp + asize &&
           PayloadsKept(mU, m', AllocatedSet(bs)) by {
      PlaceSplitReady(mU, m', brk, capacity, bs, fl', head', j, asize);
    }
    PayloadsKeptTrans(m0, mU, m', AllocatedSet(bs), AllocatedSet(bs), AllocatedSet(bs));
  }

  /**
   * The split branch of place after its call of coalesce, which merged
   * nothing: the placed blocks stand, the remainder heads the list, and the
   * allocated set gains the allocated part.
   */
  lemma PlaceSplitAfter(brk: int, bs: seq<Blk>, fl: seq<int>, j: int, bp: int, asize: int)
    requires Chain(bs, FIRST, brk) && FreeMin(bs) && NoAdjacentFree(bs) && ListSet(fl) == FreeStarts(bs)
    requires 0 <= j < |bs| && bs[j].alloc == 0 && bs[j].bp == bp
    requires MIN_BLOCK_SIZE <= asize && bs[j].size - asize >= MIN_BLOCK_SIZE
    ensures Merged(Placed(bs, j, asize), j + 1) == Placed(bs, j, asize)
    ensures [Placed(bs, j, asize)[MergeLo(Placed(bs, j, asize), j + 1)].bp] +
            Minus(Minus(fl, {bp}),
                  FreeStarts(Placed(bs, j, asize)[MergeLo(Placed(bs, j, asize), j + 1)..MergeHi(Placed(bs, j, asize), j + 1)])) ==
            [bp + asize] + Minus(fl, {bp})
    ensures Placed(bs, j, asize)[j] == PlacedBlocks(bs[j], asize)[0]
    ensures AllocatedSet(Placed(bs, j, asize)) == AllocatedSet(bs) + {Placed(bs, j, asize)[j]}
  {
    SplitMerged(bs, j, bp, asize);
    SplitUnlisted(brk, bs, fl, j, bp, asize);
    PlacedAllocated(bs, j, asize);
  }

  /**
   * The whole-block branch of place: on the unlinked heap with the whole
   * block's allocated tags, the heap invariant holds for the placed blocks
   * and the list without bp, and no allocated payload changed.
   */
  lemma PlaceWholeDone(m0: Mem, brk: int, capacity: int, bs: seq<Blk>, fl: seq<int>, head: int, j: int, asize: int,
                       m': Mem, head': int, fl': seq<int>)
    requires Heap(m0, brk, capacity, bs, fl, head) && 0 <= j < |bs| && bs[j].alloc == 0
    requires asize % 8 == 0 && MIN_BLOCK_SIZE <= asize <= bs[j].size && bs[j].size - asize < MIN_BLOCK_SIZE
    requires m' == Retagged(Unlinked(m0, bs[j].bp), bs[j].bp, bs[j].size, 1)
    requires head' == UnlinkedHead(m0, head, bs[j].bp)
    requires fl' == Minus(fl, {bs[j].bp})
    ensures Heap(m', brk, capacity, Placed(bs, j, asize), fl', head')
    ensures PayloadsKept(m0, m', AllocatedSet(bs))
    ensures Placed(bs, j, asize)[j] == PlacedBlocks(bs[j], asize)[0]
    ensures AllocatedSet(Placed(bs, j, asize)) == AllocatedSet(bs) + {Placed(bs, j, asize)[j]}
  {
    var bp, mU := bs[j].bp, Unlinked(m0, bs[j].bp);
    assert Shape(mU, brk, capacity, bs) && NoAdjacentFree(bs) &&
           Linked(mU, fl', head') && ListSet(fl') == FreeStarts(bs) - {bp} &&
           PayloadsKept(m0, mU, AllocatedSet(bs)) by {
      PlaceUnlinked(m0, brk, capacity, bs, fl, head, j);
    }
    assert PiecesWritten(mU, m', bs[j], asize) by {
      assert Shaped(bs[j]);
      WholeWritten(mU, m', bs[j], asize);
    }
    PlaceWholeReady(mU, m', brk, capacity, bs, fl', head', j, asize);
    PayloadsKeptTrans(m0, mU, m', AllocatedSet(bs), AllocatedSet(bs), AllocatedSet(bs));
    PlacedAllocated(bs, j, asize);
  }

  /** The block first fit picks is a free block of the heap that holds asize bytes. */
  lemma FitIndex(m: Mem, brk: int, capacity: int, bs: seq<Blk>, fl: seq<int>, head: int, asize: int) returns (j: int)
    requires Heap(m, brk, capacity, bs, fl, head) && FirstFit(m, fl, asize) != NULL
    ensures 0 <= j < |bs| && bs[j].bp == FirstFit(m, fl, asize) && bs[j].alloc == 0 && asize <= bs[j].size
  {
    var k := FirstFitFound(m, fl, asize);
    assert fl[k] in ListSet(fl);
    j := FreeStartsIndex(bs, fl[k]);
    Neighbours(m, brk, capacity, bs, j);
  }

  /** A block placed at a free block's address is none of the blocks allocated before. */
  lemma NewlyAllocated(brk: int, bs: seq<Blk>, j: int, b: Blk)
    requires Chain(bs, FIRST, brk) && 0 <= j < |bs| && bs[j].alloc == 0 && b.bp == bs[j].bp
    ensures b !in AllocatedSet(bs)
  {
    if b in AllocatedSet(bs) {
      var k :| 0 <= k < |bs| && bs[k] == b;
      StartsApart(bs, FIRST, brk, j, k);
    }
  }

  /** malloc's extension request, asize / WSIZE words, grows the arena by exactly asize bytes. */
  lemma ExtendExactly(asize: int)
    requires asize % 8 == 0 && asize >= MIN_BLOCK_SIZE
    ensures ExtendSize(Max(asize, CHUNKSIZE) / WSIZE) == asize
  {
    assert Max(asize, CHUNKSIZE) == asize;
    assert (asize / WSIZE) * WSIZE == asize;
  }

  /**
   * What malloc hands out: block j of bs, at bp, newly allocated with at
   * least need bytes, the one block added to the allocated blocks of bs0.
   */
  ghost predicate Granted(bs0: seq<Blk>, bs: seq<Blk>, j: int, bp: int, need: int)
  {
    0 <= j < |bs| && bs[j].bp == bp && bs[j].alloc == 1 && bs[j].size >= need &&
    bs[j] !in AllocatedSet(bs0) && AllocatedSet(bs) == AllocatedSet(bs0) + {bs[j]}
  }

  /** A block granted for need bytes is granted for any smaller need. */
  lemma GrantedWeaken(bs0: seq<Blk>, bs: seq<Blk>, j: int, bp: int, need: int, need': int)
    requires Granted(bs0, bs, j, bp, need) && need' <= need
    ensures Granted(bs0, bs, j, bp, need')
  {
  }

  /**
   * mm_init's first 48 bytes, on an arena of zeros: the padding word, the
   * prologue's header, its FREE_PREV slot (both halves), its footer, and
   * an epilogue; words 32..47 stay 0.
   */
  lemma InitialHeap(m: Mem, capacity: int)
    requires 2 * MIN_BLOCK_SIZE <= capacity <= MAX_ARENA
    requires m == Put(Put(Put(Put(Put(Put(map[], 0, 0), WSIZE, Pack(MIN_BLOCK_SIZE, 1)), DSIZE, 0),
                  DSIZE + WSIZE, 0), MIN_BLOCK_SIZE, Pack(MIN_BLOCK_SIZE, 1)), WSIZE + MIN_BLOCK_SIZE, Pack(0, 1))
    ensures Heap(m, FIRST, capacity, [], [], PROLOGUE)
  {
    assert Get(m, FIRST - DSIZE) == 0;
    assert Get(m, Hdrp(PROLOGUE)) == Pack(MIN_BLOCK_SIZE, 1);
    assert Get(m, PROLOGUE + MIN_BLOCK_SIZE - DSIZE) == Pack(MIN_BLOCK_SIZE, 1);
  }

  /** mm_init's extension is one minimum block, which has nothing to merge with. */
  lemma InitialExtend()
    ensures ExtendSize(CHUNKSIZE / WSIZE) == MIN_BLOCK_SIZE
    ensures Merged([] + [Blk(FIRST, MIN_BLOCK_SIZE, 0)], 0) == [Blk(FIRST, MIN_BLOCK_SIZE, 0)]
  {
    assert [] + [Blk(FIRST, MIN_BLOCK_SIZE, 0)] == [Blk(FIRST, MIN_BLOCK_SIZE, 0)];
  }
}
