/**
 * The arena of mm1.c seen through its boundary tags: the invariant the
 * implicit-list allocator keeps, and free, coalesce, extend_heap and place
 * as changes of the block sequence, with the lemmas that show each keeps
 * the invariant and leaves the payloads the program holds.
 *
 * Arena layout after mm_init (byte offsets from the start of the arena):
 *   0 padding, 4 prologue header PACK(8, 1), 8 prologue footer PACK(8, 1).
 *   The prologue is thus a block of 8 bytes at payload address 8 (where
 *   heap_listp points) whose footer is the word at its payload address.
 *   The blocks grown by extend_heap follow it from payload address 16 up
 *   to brk, and the epilogue PACK(0, 1) is the word at brk - 4.
 */
module ImplicitHeap {
  import opened Tags
  import opened Layout

  /** heap_listp once mm_init has run: the prologue's payload address. */
  const HEAP_LISTP := 8
  /** The smallest block mm1.c makes: a header, 8 bytes of payload, a footer. */
  const MIN_BLOCK := 2 * DSIZE
  /** The prologue: an allocated block of 8 bytes, a header and a footer. */
  const PROLOGUE_BLK := Blk(HEAP_LISTP, DSIZE, 1)

  /** Every block after the prologue is at least a minimum block. */
  ghost predicate BlocksMin(bs: seq<Blk>)
  {
    forall k :: 0 < k < |bs| ==> bs[k].size >= MIN_BLOCK
  }

  /** The boundary-tag structure: the prologue and the blocks tile [8, brk), the epilogue ends them. */
  ghost predicate Shape(m: Mem, brk: int, capacity: int, bs: seq<Blk>)
  {
    HEAP_LISTP + DSIZE <= brk <= capacity <= MAX_ARENA && brk % DSIZE == 0 &&
    |bs| > 0 && bs[0] == PROLOGUE_BLK && BlocksMin(bs) &&
    Tiled(m, bs, HEAP_LISTP, brk) && Get(m, brk - WSIZE) == Pack(0, 1)
  }

  /** The invariant mm1.c keeps between calls: the shape, and no two neighbours both free. */
  ghost predicate Heap(m: Mem, brk: int, capacity: int, bs: seq<Blk>)
  {
    Shape(m, brk, capacity, bs) && NoAdjacentFree(bs)
  }

  /** The rover is the payload address of block ri, or the epilogue's when ri is one past the last block. */
  ghost predicate RoverAt(bs: seq<Blk>, brk: int, ri: int, rover: int)
  {
    0 <= ri <= |bs| && rover == Mid(bs, ri, brk)
  }

  /** The blocks malloc has handed out: the allocated blocks other than the prologue. */
  ghost function Handed(bs: seq<Blk>): set<Blk>
  {
    AllocatedSet(bs) - {PROLOGUE_BLK}
  }

  /**
   * Block j of bs is at bp, allocated and at least need bytes, it was not
   * handed out in bs0, and it is the one block handed out since.
   */
  ghost predicate Granted(bs0: seq<Blk>, bs: seq<Blk>, j: int, bp: int, need: int)
  {
    0 < j < |bs| && bs[j].bp == bp && bs[j].alloc == 1 && bs[j].size >= need &&
    bs[j] !in Handed(bs0) && Handed(bs) == Handed(bs0) + {bs[j]}
  }

  /** extend_heap's size: the word count rounded up to an even number of words, in bytes. */
  function ExtendSize(words: int): (size: int)
    requires words >= 0
    ensures size % 8 == 0 && words * WSIZE <= size <= words * WSIZE + WSIZE
  {
    if words % 2 == 1 then (words + 1) * WSIZE else words * WSIZE
  }

  /** What the walk and coalesce read at block k, or at the epilogue when k is past the last block. */
  lemma Step(m: Mem, brk: int, capacity: int, bs: seq<Blk>, k: int)
    requires Shape(m, brk, capacity, bs) && 0 <= k <= |bs|
    ensures SizeAt(m, Mid(bs, k, brk)) > 0 <==> k < |bs|
    ensures k == |bs| ==> SizeAt(m, brk) == 0 && AllocAt(m, brk) == 1
    ensures k < |bs| ==> SizeAt(m, bs[k].bp) == bs[k].size && AllocAt(m, bs[k].bp) == bs[k].alloc
    ensures k < |bs| ==> NextBlkp(m, bs[k].bp) == Mid(bs, k + 1, brk)
  {
    if k < |bs| {
      assert Tagged(m, bs[k]);
      TagsRead(m, bs[k]);
    } else {
      PackRoundTrip(0, 1);
    }
  }

  /** Block payload addresses, and the epilogue's after them, rise along the sequence. */
  lemma MidRises(bs: seq<Blk>, brk: int, k: int, l: int)
    requires Chain(bs, HEAP_LISTP, brk) && 0 <= k < l <= |bs|
    ensures Mid(bs, k, brk) < Mid(bs, l, brk)
  {
    if l < |bs| {
      Ordered(bs, HEAP_LISTP, brk, k, l);
    } else {
      Bounds(bs, HEAP_LISTP, brk, k);
    }
  }

  /** What coalesce reads around block i, a block after the prologue. */
  lemma Neighbours(m: Mem, brk: int, capacity: int, bs: seq<Blk>, i: int)
    requires Shape(m, brk, capacity, bs) && 0 < i < |bs|
    ensures SizeAt(m, bs[i].bp) == bs[i].size
    ensures GetAlloc(Get(m, Hdrp(NextBlkp(m, bs[i].bp)))) == if i + 1 < |bs| then bs[i + 1].alloc else 1
    ensures GetAlloc(Get(m, Ftrp(m, PrevBlkp(m, bs[i].bp)))) == bs[i - 1].alloc
    ensures NextBlkp(m, bs[i].bp) == Mid(bs, i + 1, brk) && PrevBlkp(m, bs[i].bp) == bs[i - 1].bp
    ensures SizeAt(m, bs[i - 1].bp) == bs[i - 1].size
  {
    assert Tagged(m, bs[i]) && Tagged(m, bs[i - 1]);
    if i + 1 < |bs| {
      assert Tagged(m, bs[i + 1]);
    }
    NextNeighbour(m, bs[i], Mid(bs, i + 1, brk), if i + 1 < |bs| then bs[i + 1] else Blk(brk, 0, 1));
    PrevNeighbour(m, bs[i - 1], bs[i].bp);
  }

  /** Coalescing a block with no free neighbour leaves the blocks as they are. */
  lemma MergedAlone(bs: seq<Blk>, i: int)
    requires 0 <= i < |bs| && bs[i].alloc == 0 && MergeLo(bs, i) == i && MergeHi(bs, i) == i + 1
    ensures Merged(bs, i) == bs
  {
    assert FusedOf(bs, i, i + 1) == bs[i];
    assert bs[..i] + [bs[i]] + bs[i + 1..] == bs;
  }

  /**
   * coalesce of block i, free and the only block that may have a free
   * neighbour: writing the fused block's tags gives the fused blocks the
   * heap invariant.
   */
  lemma FuseHeap(m: Mem, brk: int, capacity: int, bs: seq<Blk>, i: int)
    requires Shape(m, brk, capacity, bs) && 0 < i < |bs| && bs[i].alloc == 0 && NoAdjacentFreeBut(bs, i)
    ensures 0 < MergeLo(bs, i)
    ensures Heap(FuseMem(m, bs[MergeLo(bs, i)].bp, End(bs[MergeHi(bs, i) - 1])), brk, capacity, Merged(bs, i))
  {
    FuseShape(m, brk, capacity, bs, MergeLo(bs, i), MergeHi(bs, i));
    MergedNoAdjacent(bs, HEAP_LISTP, brk, i);
  }

  /** Fusing blocks lo..hi-1 after the prologue, and writing the fused tags, keeps the shape. */
  lemma FuseShape(m: Mem, brk: int, capacity: int, bs: seq<Blk>, lo: int, hi: int)
    requires Shape(m, brk, capacity, bs) && 0 < lo < hi <= |bs| && hi <= lo + 3
    ensures Shape(FuseMem(m, bs[lo].bp, End(bs[hi - 1])), brk, capacity, Fuse(bs, lo, hi))
  {
    FuseTiled(m, HEAP_LISTP, brk, bs, lo, hi);
    FusedBlock(bs, HEAP_LISTP, brk, lo, hi);
    Bounds(bs, HEAP_LISTP, brk, hi - 1);
    FuseMemElsewhere(m, bs[lo].bp, End(bs[hi - 1]), brk - WSIZE);
    var r := Fuse(bs, lo, hi);
    forall k | 0 < k < |r| ensures r[k].size >= MIN_BLOCK {
      if k != lo {
        assert r[k] == bs[k] || r[k] == bs[k + hi - lo - 1];
      }
    }
  }

  /**
   * Where the rover stands once block i is merged: a rover strictly inside
   * the merged block moves to its start, every other rover keeps its place.
   */
  ghost function MergedRover(bs: seq<Blk>, i: int, ri: int): int
    requires 0 <= i < |bs|
  {
    var lo, hi := MergeLo(bs, i), MergeHi(bs, i);
    if ri < lo then ri else if ri < hi then lo else ri - (hi - lo - 1)
  }

  /** coalesce's rover fix: a rover strictly inside the merged block moves to its start. */
  function RoverFixed(bs: seq<Blk>, i: int, rover: int): int
    requires 0 <= i < |bs|
  {
    var bp := bs[MergeLo(bs, i)].bp;
    if rover > bp && rover < End(bs[MergeHi(bs, i) - 1]) then bp else rover
  }

  /** The rover stands on a block start, so never strictly inside a block. */
  lemma RoverNotInside(bs: seq<Blk>, brk: int, k: int, ri: int, rover: int)
    requires Chain(bs, HEAP_LISTP, brk) && 0 <= k < |bs| && RoverAt(bs, brk, ri, rover)
    ensures !(bs[k].bp < rover < End(bs[k]))
  {
    if ri < k {
      Ordered(bs, HEAP_LISTP, brk, ri, k);
    } else if k < ri {
      RoverAfter(bs, brk, k, k + 1, ri);
    }
  }

  /** The tags of the block after block i, as coalesce reads them. */
  lemma NextTags(m: Mem, brk: int, capacity: int, bs: seq<Blk>, i: int)
    requires Shape(m, brk, capacity, bs) && 0 < i && i + 1 < |bs|
    ensures SizeAt(m, bs[i + 1].bp) == bs[i + 1].size
    ensures GetSize(Get(m, Ftrp(m, bs[i + 1].bp))) == bs[i + 1].size
    ensures bs[i + 1].bp == End(bs[i]) && bs[i + 1].size >= MIN_BLOCK
  {
    assert Tagged(m, bs[i + 1]);
    TagsRead(m, bs[i + 1]);
    PackRoundTrip(bs[i + 1].size, bs[i + 1].alloc);
  }

  /** coalesce's rover fix keeps the rover on a block start, or on the epilogue. */
  lemma MergedRoverAt(bs: seq<Blk>, brk: int, i: int, ri: int, rover: int)
    requires Chain(bs, HEAP_LISTP, brk) && 0 <= i < |bs| && RoverAt(bs, brk, ri, rover)
    ensures RoverAt(Merged(bs, i), brk, MergedRover(bs, i, ri), RoverFixed(bs, i, rover))
  {
    var lo, hi := MergeLo(bs, i), MergeHi(bs, i);
    FusedBlock(bs, HEAP_LISTP, brk, lo, hi);
    if ri < lo {
      RoverBefore(bs, brk, lo, hi, ri);
    } else if ri < hi {
      RoverInside(bs, brk, lo, hi, ri);
    } else {
      RoverAfter(bs, brk, lo, hi, ri);
    }
  }

  /** A rover on a block before the fused ones stays where it is. */
  lemma RoverBefore(bs: seq<Blk>, brk: int, lo: int, hi: int, ri: int)
    requires Chain(bs, HEAP_LISTP, brk) && 0 <= ri < lo < hi <= |bs| && hi <= lo + 3
    ensures Mid(bs, ri, brk) < bs[lo].bp && Mid(Fuse(bs, lo, hi), ri, brk) == Mid(bs, ri, brk)
  {
    Ordered(bs, HEAP_LISTP, brk, ri, lo);
    FusedBlock(bs, HEAP_LISTP, brk, lo, hi);
  }

  /** A rover on one of the fused blocks ends on the fused block's start. */
  lemma RoverInside(bs: seq<Blk>, brk: int, lo: int, hi: int, ri: int)
    requires Chain(bs, HEAP_LISTP, brk) && 0 <= lo <= ri < hi <= |bs| && hi <= lo + 3
    ensures bs[lo].bp <= Mid(bs, ri, brk) < End(bs[hi - 1])
    ensures Mid(Fuse(bs, lo, hi), lo, brk) == bs[lo].bp
  {
    if lo < ri {
      Ordered(bs, HEAP_LISTP, brk, lo, ri);
    }
    if ri < hi - 1 {
      Ordered(bs, HEAP_LISTP, brk, ri, hi - 1);
    }
    FusedBlock(bs, HEAP_LISTP, brk, lo, hi);
  }

  /** A rover past the fused blocks keeps its address, its index shifted down. */
  lemma RoverAfter(bs: seq<Blk>, brk: int, lo: int, hi: int, ri: int)
    requires Chain(bs, HEAP_LISTP, brk) && 0 <= lo < hi <= ri <= |bs| && hi <= lo + 3
    ensures End(bs[hi - 1]) <= Mid(bs, ri, brk)
    ensures ri - (hi - lo - 1) <= |Fuse(bs, lo, hi)|
    ensures Mid(Fuse(bs, lo, hi), ri - (hi - lo - 1), brk) == Mid(bs, ri, brk)
  {
    FusedBlock(bs, HEAP_LISTP, brk, lo, hi);
    if ri < |bs| {
      Ordered(bs, HEAP_LISTP, brk, hi - 1, ri);
      assert Fuse(bs, lo, hi)[ri - (hi - lo - 1)] == bs[ri];
    } else {
      Bounds(bs, HEAP_LISTP, brk, hi - 1);
    }
  }

  /**
   * coalesce when block i has a free neighbour: the fused blocks keep the
   * heap invariant, the rover fix keeps the rover on a block start, the
   * payloads of allocated blocks are kept, and the fused block's header
   * leads to the block after it.
   */
  lemma Coalesced(m: Mem, brk: int, capacity: int, bs: seq<Blk>, i: int, ri: int, rover: int)
    requires Shape(m, brk, capacity, bs) && 0 < i < |bs| && bs[i].alloc == 0 && NoAdjacentFreeBut(bs, i)
    requires RoverAt(bs, brk, ri, rover)
    ensures var lo, hi := MergeLo(bs, i), MergeHi(bs, i);
            var m' := FuseMem(m, bs[lo].bp, End(bs[hi - 1]));
            Heap(m', brk, capacity, Merged(bs, i)) &&
            RoverAt(Merged(bs, i), brk, MergedRover(bs, i, ri), RoverFixed(bs, i, rover)) &&
            PayloadsKept(m, m', AllocatedSet(bs)) &&
            NextBlkp(m', bs[lo].bp) == End(bs[hi - 1])
  {
    var lo, hi := MergeLo(bs, i), MergeHi(bs, i);
    var m' := FuseMem(m, bs[lo].bp, End(bs[hi - 1]));
    FuseHeap(m, brk, capacity, bs, i);
    FuseKeepsPayloads(m, HEAP_LISTP, brk, bs, lo, hi);
    MergedRoverAt(bs, brk, i, ri, rover);
    FusedBlock(bs, HEAP_LISTP, brk, lo, hi);
    Step(m', brk, capacity, Merged(bs, i), lo);
  }

  /** extend_heap's writes: the new free block's header over the old epilogue, its footer, a new epilogue. */
  function GrownMem(m: Mem, brk: int, size: int): Mem
  {
    Put(TagsWritten(m, brk, size, 0), brk + size - WSIZE, Pack(0, 1))
  }

  /**
   * A free block of size bytes at the old break, with a new epilogue after
   * it, extends the shape; only that block may have a free neighbour, and
   * no allocated payload changes.
   */
  lemma Grown(m: Mem, brk: int, capacity: int, bs: seq<Blk>, size: int)
    requires Heap(m, brk, capacity, bs) && size % 8 == 0 && MIN_BLOCK <= size && brk + size <= capacity
    ensures Shape(GrownMem(m, brk, size), brk + size, capacity, bs + [Blk(brk, size, 0)])
    ensures NoAdjacentFreeBut(bs + [Blk(brk, size, 0)], |bs|)
    ensures PayloadsKept(m, GrownMem(m, brk, size), AllocatedSet(bs))
  {
    var nb := Blk(brk, size, 0);
    var m' := GrownMem(m, brk, size);
    TagsAt(m, brk, size, 0);
    assert forall a :: a < brk - WSIZE ==> Get(m', a) == Get(m, a);
    TiledBelow(m, m', bs, HEAP_LISTP, brk);
    ChainOne(nb);
    ChainJoin(bs, [nb], HEAP_LISTP, brk, brk + size);
    assert Tagged(m', nb);
    var bs' := bs + [nb];
    assert forall k :: 0 <= k < |bs| ==> bs'[k] == bs[k];
    forall b | b in AllocatedSet(bs) ensures Untouched(m, m', b.bp, End(b) - DSIZE) {
      var k :| 0 <= k < |bs| && bs[k] == b;
      Bounds(bs, HEAP_LISTP, brk, k);
    }
  }

  /** Appending a free block hands out nothing new. */
  lemma GrownAllocated(bs: seq<Blk>, nb: Blk)
    requires nb.alloc == 0
    ensures AllocatedSet(bs + [nb]) == AllocatedSet(bs)
  {
  }

  /** The rover stays on its block, or on the epilogue, which becomes the start of the grown block. */
  lemma GrownRover(bs: seq<Blk>, brk: int, size: int, ri: int, rover: int)
    requires RoverAt(bs, brk, ri, rover)
    ensures RoverAt(bs + [Blk(brk, size, 0)], brk + size, ri, rover)
  {
  }

  /**
   * Coalescing the grown block: the merged block is the last one, starts
   * at GrownStart and reaches the new break.
   */
  lemma GrownMerged(bs: seq<Blk>, brk: int, size: int)
    requires Chain(bs, HEAP_LISTP, brk) && |bs| > 0 && bs[0] == PROLOGUE_BLK && size > 0
    ensures var grown := bs + [Blk(brk, size, 0)];
            var r := Merged(grown, |bs|);
            grown[MergeLo(grown, |bs|)].bp == GrownStart(bs, brk) &&
            |r| > 1 && r[|r| - 1] == Blk(GrownStart(bs, brk), brk + size - GrownStart(bs, brk), 0) &&
            HEAP_LISTP <= GrownStart(bs, brk) <= brk
  {
    var grown := bs + [Blk(brk, size, 0)];
    var lo := MergeLo(grown, |bs|);
    Bounds(bs, HEAP_LISTP, brk, |bs| - 1);
    assert grown[|bs| - 1] == bs[|bs| - 1];
    assert MergeHi(grown, |bs|) == |grown|;
    assert Merged(grown, |bs|) == grown[..lo] + [FusedOf(grown, lo, |grown|)];
  }

  /** mm_free's writes: block i's tags with the allocated bit cleared. */
  lemma Freed(m: Mem, brk: int, capacity: int, bs: seq<Blk>, i: int)
    requires Heap(m, brk, capacity, bs) && 0 < i < |bs| && bs[i].alloc == 1
    ensures Shape(TagsWritten(m, bs[i].bp, bs[i].size, 0), brk, capacity, bs[i := Blk(bs[i].bp, bs[i].size, 0)])
    ensures NoAdjacentFreeBut(bs[i := Blk(bs[i].bp, bs[i].size, 0)], i)
    ensures PayloadsKept(m, TagsWritten(m, bs[i].bp, bs[i].size, 0), AllocatedSet(bs) - {bs[i]})
  {
    var b := bs[i];
    var nb := Blk(b.bp, b.size, 0);
    var m' := TagsWritten(m, b.bp, b.size, 0);
    assert Tagged(m, b);
    TagsAt(m, b.bp, b.size, 0);
    Bounds(bs, HEAP_LISTP, brk, i);
    ChainOne(nb);
    assert Mid(bs, i + 1, brk) == End(b);
    Splice(m, m', bs, HEAP_LISTP, brk, brk, i, i + 1, [nb]);
    assert bs[..i] + [nb] + bs[i + 1..] == bs[i := nb];
    SpanFrame(m, m', HEAP_LISTP, brk, bs, i);
  }

  /** Freeing block i takes exactly that block from those handed out. */
  lemma FreedHanded(brk: int, bs: seq<Blk>, i: int)
    requires Chain(bs, HEAP_LISTP, brk) && 0 < i < |bs| && bs[i].alloc == 1
    ensures AllocatedSet(bs[i := Blk(bs[i].bp, bs[i].size, 0)]) == AllocatedSet(bs) - {bs[i]}
  {
    var bs' := bs[i := Blk(bs[i].bp, bs[i].size, 0)];
    forall b | b in AllocatedSet(bs) - {bs[i]} ensures b in AllocatedSet(bs') {
      var k :| 0 <= k < |bs| && bs[k] == b;
      assert bs'[k] == b;
    }
    forall b | b in AllocatedSet(bs') ensures b in AllocatedSet(bs) - {bs[i]} {
      var k :| 0 <= k < |bs'| && bs'[k] == b;
      StartsApart(bs, HEAP_LISTP, brk, k, i);
    }
  }

  /** What place puts in the span of a free block b: b split in two, or b whole, allocated. */
  ghost function PlacedBlocks(b: Blk, asize: int): seq<Blk>
  {
    if b.size - asize >= MIN_BLOCK then [Blk(b.bp, asize, 1), Blk(b.bp + asize, b.size - asize, 0)]
    else [Blk(b.bp, b.size, 1)]
  }

  /**
   * place: free block j takes asize bytes; when at least a minimum block
   * is left over, the rest becomes a free block of its own.
   */
  ghost function Placed(bs: seq<Blk>, j: int, asize: int): seq<Blk>
    requires 0 <= j < |bs|
  {
    bs[..j] + PlacedBlocks(bs[j], asize) + bs[j + 1..]
  }

  /** place's writes to a free block of csize bytes at bp. */
  function PlacedMem(m: Mem, bp: int, csize: int, asize: int): Mem
  {
    if csize - asize >= MIN_BLOCK then TagsWritten(TagsWritten(m, bp, asize, 1), bp + asize, csize - asize, 0)
    else TagsWritten(m, bp, csize, 1)
  }

  /** Where the rover stands once block j is placed: on the same block, whose index moves past a split. */
  function PlacedRover(bs: seq<Blk>, j: int, asize: int, ri: int): int
    requires 0 <= j < |bs|
  {
    if ri > j && bs[j].size - asize >= MIN_BLOCK then ri + 1 else ri
  }

  /** The split writes: the allocated front's tags, then the free rest's. */
  lemma SplitPieces(m: Mem, b: Blk, asize: int)
    requires Shaped(b) && asize % 8 == 0 && MIN_BLOCK <= asize && b.size - asize >= MIN_BLOCK
    ensures Tiled(PlacedMem(m, b.bp, b.size, asize), PlacedBlocks(b, asize), b.bp, End(b))
    ensures forall a :: a < Hdrp(b.bp) || End(b) - WSIZE <= a ==> Get(PlacedMem(m, b.bp, b.size, asize), a) == Get(m, a)
  {
    var m2 := PlacedMem(m, b.bp, b.size, asize);
    var front, rest := Blk(b.bp, asize, 1), Blk(b.bp + asize, b.size - asize, 0);
    SplitWords(m, b, asize);
    assert Shaped(front) && Shaped(rest) by {
      AlignedDiff(b.size, asize);
    }
    assert Tagged(m2, front) && Tagged(m2, rest);
    assert Chain([front, rest], b.bp, End(b));
  }

  /** The four words the split writes, and nothing outside the block. */
  lemma SplitWords(m: Mem, b: Blk, asize: int)
    requires Shaped(b) && asize % 8 == 0 && MIN_BLOCK <= asize && b.size - asize >= MIN_BLOCK
    ensures var m2 := PlacedMem(m, b.bp, b.size, asize);
            Get(m2, Hdrp(b.bp)) == Pack(asize, 1) && Get(m2, b.bp + asize - DSIZE) == Pack(asize, 1) &&
            Get(m2, Hdrp(b.bp + asize)) == Pack(b.size - asize, 0) && Get(m2, End(b) - DSIZE) == Pack(b.size - asize, 0)
    ensures forall a :: a < Hdrp(b.bp) || End(b) - WSIZE <= a ==> Get(PlacedMem(m, b.bp, b.size, asize), a) == Get(m, a)
  {
    TagsAt(m, b.bp, asize, 1);
    TagsAt(TagsWritten(m, b.bp, asize, 1), b.bp + asize, b.size - asize, 0);
  }

  /** The whole-block writes: b's tags with the allocated bit set. */
  lemma WholePiece(m: Mem, b: Blk, asize: int)
    requires Shaped(b) && b.size - asize < MIN_BLOCK
    ensures Tiled(PlacedMem(m, b.bp, b.size, asize), PlacedBlocks(b, asize), b.bp, End(b))
    ensures forall a :: a < Hdrp(b.bp) || End(b) - WSIZE <= a ==> Get(PlacedMem(m, b.bp, b.size, asize), a) == Get(m, a)
  {
    TagsAt(m, b.bp, b.size, 1);
    ChainOne(Blk(b.bp, b.size, 1));
  }

  /** place keeps the heap invariant and the rover, and writes only inside block j. */
  lemma PlacedHeap(m: Mem, brk: int, capacity: int, bs: seq<Blk>, j: int, asize: int, ri: int, rover: int)
    requires Heap(m, brk, capacity, bs) && 0 < j < |bs| && bs[j].alloc == 0
    requires asize % 8 == 0 && MIN_BLOCK <= asize <= bs[j].size
    requires RoverAt(bs, brk, ri, rover)
    ensures Heap(PlacedMem(m, bs[j].bp, bs[j].size, asize), brk, capacity, Placed(bs, j, asize))
    ensures RoverAt(Placed(bs, j, asize), brk, PlacedRover(bs, j, asize, ri), rover)
    ensures PayloadsKept(m, PlacedMem(m, bs[j].bp, bs[j].size, asize), AllocatedSet(bs))
  {
    var b := bs[j];
    var m' := PlacedMem(m, b.bp, b.size, asize);
    if b.size - asize >= MIN_BLOCK {
      SplitPieces(m, b, asize);
    } else {
      WholePiece(m, b, asize);
    }
    assert Mid(bs, j + 1, brk) == End(b);
    Splice(m, m', bs, HEAP_LISTP, brk, brk, j, j + 1, PlacedBlocks(b, asize));
    Bounds(bs, HEAP_LISTP, brk, j);
    PlacedAdjacent(bs, j, asize);
    SpanFrame(m, m', HEAP_LISTP, brk, bs, j);
    assert AllocatedSet(bs) - {b} == AllocatedSet(bs);
    PlacedRoverAt(bs, brk, j, asize, ri, rover);
  }

  /** After place, the left-over free block sits between the placed block and an allocated one. */
  lemma PlacedAdjacent(bs: seq<Blk>, j: int, asize: int)
    requires NoAdjacentFree(bs) && 0 < j < |bs| && bs[j].alloc == 0 && BlocksMin(bs) && bs[0] == PROLOGUE_BLK
    requires MIN_BLOCK <= asize <= bs[j].size
    ensures NoAdjacentFree(Placed(bs, j, asize)) && BlocksMin(Placed(bs, j, asize)) && Placed(bs, j, asize)[0] == PROLOGUE_BLK
  {
    var r := Placed(bs, j, asize);
    var d := |r| - |bs|;
    forall k | 0 < k < |r| ensures r[k - 1].alloc == 1 || r[k].alloc == 1 {
      if k < j {
        assert r[k - 1] == bs[k - 1] && r[k] == bs[k];
      } else if k == j {
        assert r[k].alloc == 1;
      } else if k == j + 1 && d == 1 {
        assert r[k - 1].alloc == 1;
      } else if k == j + 2 && d == 1 {
        assert r[k] == bs[j + 1];
      } else if k == j + 1 {
        assert r[k - 1].alloc == 1;
      } else {
        assert r[k - 1] == bs[k - 1 - d] && r[k] == bs[k - d];
      }
    }
    forall k | 0 < k < |r| ensures r[k].size >= MIN_BLOCK {
      if k < j {
        assert r[k] == bs[k];
      } else if k > j + d {
        assert r[k] == bs[k - d];
      }
    }
  }

  /** place keeps the rover on the block it stood on. */
  lemma PlacedRoverAt(bs: seq<Blk>, brk: int, j: int, asize: int, ri: int, rover: int)
    requires 0 < j < |bs| && RoverAt(bs, brk, ri, rover) && MIN_BLOCK <= asize <= bs[j].size
    ensures RoverAt(Placed(bs, j, asize), brk, PlacedRover(bs, j, asize, ri), rover)
  {
    var r := Placed(bs, j, asize);
    var d := |r| - |bs|;
    if ri < j {
      assert r[ri] == bs[ri];
    } else if j < ri < |bs| {
      assert r[ri + d] == bs[ri];
    }
  }

  /** The block place allocates is the one block handed out since. */
  lemma PlacedHanded(brk: int, bs: seq<Blk>, j: int, asize: int)
    requires Chain(bs, HEAP_LISTP, brk) && 0 < j < |bs| && bs[j].alloc == 0 && bs[0] == PROLOGUE_BLK
    requires MIN_BLOCK <= asize <= bs[j].size
    ensures Granted(bs, Placed(bs, j, asize), j, bs[j].bp, asize)
  {
    var b := bs[j];
    var nbs := PlacedBlocks(b, asize);
    var g := nbs[0];
    AllocatedSplice(bs, j, j + 1, nbs);
    assert AllocatedSet(bs[j..j + 1]) == {} by {
      assert bs[j..j + 1] == [b];
    }
    assert AllocatedSet(nbs) == {g};
    assert Placed(bs, j, asize)[j] == g;
    StartsApart(bs, HEAP_LISTP, brk, 0, j);
    NotYetHanded(brk, bs, j, g);
  }

  /** A block at the payload address of free block j is not among the allocated blocks. */
  lemma NotYetHanded(brk: int, bs: seq<Blk>, j: int, g: Blk)
    requires Chain(bs, HEAP_LISTP, brk) && 0 <= j < |bs| && bs[j].alloc == 0 && g.bp == bs[j].bp
    ensures g !in AllocatedSet(bs)
  {
    if g in AllocatedSet(bs) {
      var k :| 0 <= k < |bs| && bs[k] == g;
      StartsApart(bs, HEAP_LISTP, brk, k, j);
    }
  }

  /** mm_init's first 16 bytes: padding, the prologue's header and footer, an epilogue. */
  function InitialMem(m: Mem, p: int): Mem
  {
    Put(Put(Put(Put(m, p, 0), p + WSIZE, Pack(OVERHEAD, 1)), p + DSIZE, Pack(OVERHEAD, 1)), p + WSIZE + DSIZE, Pack(0, 1))
  }

  /** The arena mm_init writes is a heap of the prologue alone, the rover on it. */
  lemma InitialHeap(capacity: int)
    requires HEAP_LISTP + DSIZE <= capacity <= MAX_ARENA
    ensures Heap(InitialMem(map[], 0), HEAP_LISTP + DSIZE, capacity, [PROLOGUE_BLK])
    ensures RoverAt([PROLOGUE_BLK], HEAP_LISTP + DSIZE, 0, HEAP_LISTP)
  {
    var m := InitialMem(map[], 0);
    assert Get(m, Hdrp(HEAP_LISTP)) == Pack(DSIZE, 1);
    assert Tagged(m, PROLOGUE_BLK);
  }

  /** A block granted for need bytes is granted for any smaller need. */
  lemma GrantedWeaken(bs0: seq<Blk>, bs: seq<Blk>, j: int, bp: int, need: int, need': int)
    requires Granted(bs0, bs, j, bp, need) && need' <= need
    ensures Granted(bs0, bs, j, bp, need')
  {
  }

  /** mm_malloc's extension of MAX(asize, CHUNKSIZE) bytes, passed in words, is exactly that many bytes. */
  lemma ExtendWhole(grow: int)
    requires grow >= 0 && grow % 8 == 0
    ensures ExtendSize(grow / WSIZE) == grow
  {
    assert grow / WSIZE == 2 * (grow / 8);
  }

  /**
   * Writes confined to bytes lo..hi-1 of the payload of block j keep the
   * heap invariant and every other block's payload.
   */
  lemma PayloadWriteKeeps(m: Mem, m': Mem, brk: int, capacity: int, bs: seq<Blk>, j: int, lo: int, hi: int)
    requires Heap(m, brk, capacity, bs) && 0 <= j < |bs| && bs[j].bp <= lo && hi <= End(bs[j]) - DSIZE
    requires forall a :: a < lo || hi <= a ==> Get(m', a) == Get(m, a)
    ensures Heap(m', brk, capacity, bs)
    ensures PayloadsKept(m, m', AllocatedSet(bs) - {bs[j]})
  {
    forall k | 0 <= k < |bs| ensures Tagged(m', bs[k]) {
      assert Tagged(m, bs[k]);
      if k < j {
        Ordered(bs, HEAP_LISTP, brk, k, j);
      } else if j < k {
        Ordered(bs, HEAP_LISTP, brk, j, k);
      }
    }
    Bounds(bs, HEAP_LISTP, brk, j);
    SpanFrame(m, m', HEAP_LISTP, brk, bs, j);
  }

  /**
   * What mm_realloc hands back: block j of bs at r, allocated with at
   * least need bytes, in place of block i of bs0 among the blocks handed out.
   */
  ghost predicate Moved(bs0: seq<Blk>, bs: seq<Blk>, i: int, j: int, r: int, need: int)
  {
    0 <= i < |bs0| && 0 < j < |bs| && bs[j].bp == r && bs[j].alloc == 1 && bs[j].size >= need &&
    Handed(bs) == Handed(bs0) - {bs0[i]} + {bs[j]}
  }

  /**
   * Before realloc copies n bytes of block b = bs0[i] into the block g
   * malloc granted: b is still block k, g is another block, the n bytes
   * read from b do not overlap those written, and those lie in g's payload.
   */
  lemma MoveReady(brk: int, bs0: seq<Blk>, bs: seq<Blk>, i: int, j: int, dst: int, need: int, n: int) returns (k: int)
    requires Chain(bs, HEAP_LISTP, brk) && |bs| > 0 && bs[0] == PROLOGUE_BLK
    requires 0 <= i < |bs0| && bs0[i] in Handed(bs0)
    requires Granted(bs0, bs, j, dst, need) && 0 <= n <= need - DSIZE && n <= bs0[i].size
    ensures 0 < k < |bs| && bs[k] == bs0[i] && k != j
    ensures dst + n <= bs0[i].bp || bs0[i].bp + n <= dst
    ensures dst + n <= End(bs[j]) - DSIZE
  {
    k :| 0 <= k < |bs| && bs[k] == bs0[i];
    Bounds(bs, HEAP_LISTP, brk, k);
    Bounds(bs, HEAP_LISTP, brk, j);
    if k < j {
      Ordered(bs, HEAP_LISTP, brk, k, j);
    } else {
      Ordered(bs, HEAP_LISTP, brk, j, k);
    }
  }

  /**
   * After the move, block b freed and block g granted: the blocks handed
   * out are the first ones with b traded for g, and g is block j.
   */
  lemma MoveDone(bs0: seq<Blk>, bs1: seq<Blk>, bs: seq<Blk>, i: int, j1: int, r: int, need: int) returns (j: int)
    requires 0 <= i < |bs0| && bs0[i] in Handed(bs0) && Granted(bs0, bs1, j1, r, need)
    requires Handed(bs) == Handed(bs1) - {bs0[i]} && |bs| > 0 && bs[0] == PROLOGUE_BLK
    ensures Moved(bs0, bs, i, j, r, need) && bs[j] == bs1[j1]
  {
    assert bs1[j1] in Handed(bs);
    j :| 0 <= j < |bs| && bs[j] == bs1[j1];
  }

  /**
   * mm_realloc's move, from the old heap bs0 through the heap bs1 after
   * malloc granted block j1 at dst, to the heap bs3 after block k (the old
   * block) was freed: the new block is handed out in place of the old one,
   * len bytes of the old payload read at dst as they read at src, and every
   * other payload of bs0 is kept.
   */
  lemma Relocated(m0: Mem, m1: Mem, m2: Mem, m3: Mem, bs0: seq<Blk>, bs1: seq<Blk>, bs3: seq<Blk>,
                  i: int, j1: int, k: int, src: int, dst: int, n: int, len: int, need: int) returns (j: int)
    requires 0 <= i < |bs0| && bs0[i] in Handed(bs0) && src == bs0[i].bp
    requires Granted(bs0, bs1, j1, dst, need) && need > DSIZE && |bs1| > 0 && bs1[0] == PROLOGUE_BLK
    requires 0 < k < |bs1| && bs1[k] == bs0[i] && k != j1
    requires AllocatedSet(bs3) == AllocatedSet(bs1) - {bs1[k]} && |bs3| > 0 && bs3[0] == PROLOGUE_BLK
    requires 0 <= len <= bs0[i].size - DSIZE && len <= n && dst + n <= End(bs1[j1]) - DSIZE
    requires PayloadsKept(m0, m1, AllocatedSet(bs0))
    requires Copied(m1, m2, src, dst, n) && PayloadsKept(m1, m2, AllocatedSet(bs1) - {bs1[j1]})
    requires PayloadsKept(m2, m3, AllocatedSet(bs1) - {bs1[k]})
    ensures Moved(bs0, bs3, i, j, dst, need) && bs3[j] == bs1[j1]
    ensures Copied(m0, m3, src, dst, len)
    ensures PayloadsKept(m0, m3, AllocatedSet(bs0) - {bs0[i]})
  {
    var b, g := bs0[i], bs1[j1];
    assert bs1[0] in AllocatedSet(bs1);
    assert g != PROLOGUE_BLK;
    forall x | x in AllocatedSet(bs0) - {b} ensures x in AllocatedSet(bs1) - {g} {
      if x != PROLOGUE_BLK {
        assert x in Handed(bs0) && x in Handed(bs1);
      }
    }
    assert AllocatedSet(bs0) - {b} <= AllocatedSet(bs1) - {b};
    assert Handed(bs3) == Handed(bs1) - {b};
    j := MoveDone(bs0, bs1, bs3, i, j1, dst, need);
    assert Untouched(m0, m1, b.bp, End(b) - DSIZE);
    assert g in AllocatedSet(bs1) - {b};
    assert Untouched(m2, m3, g.bp, End(g) - DSIZE);
    MovedPayload(m0, m1, m2, m3, b, g, src, dst, n, len);
    PayloadsKeptTrans(m0, m1, m2, AllocatedSet(bs0), AllocatedSet(bs1) - {g}, AllocatedSet(bs0) - {b});
    PayloadsKeptTrans(m0, m2, m3, AllocatedSet(bs0) - {b}, AllocatedSet(bs1) - {b}, AllocatedSet(bs0) - {b});
  }
}
