/**
 * checkblock and checkheap of mm1.c as predicates on the arena's words:
 * the prologue is an allocated block of 8 bytes, every block met on the
 * walk from heap_listp is double-word aligned with its header equal to its
 * footer, and the walk ends on an allocated epilogue of size 0.  A heap
 * that keeps the implicit allocator's invariant passes them.
 */
module HeapCheck {
  import opened Tags
  import opened Layout
  import opened ImplicitHeap

  /** checkblock finds nothing to report: bp is 8-aligned and its header equals its footer. */
  ghost predicate BlockOk(m: Mem, bp: int)
  {
    bp % DSIZE == 0 && Get(m, Hdrp(bp)) == Get(m, Ftrp(m, bp))
  }

  /** The written addresses from a on: the walk ends before it runs out of them. */
  ghost function Above(m: Mem, a: int): set<int>
  {
    set k | k in m && a <= k
  }

  /** A header with a positive size was written, and the walk moves past it. */
  lemma AboveShrinks(m: Mem, bp: int)
    requires SizeAt(m, bp) > 0
    ensures Above(m, Hdrp(NextBlkp(m, bp))) < Above(m, Hdrp(bp))
  {
    var h := Hdrp(bp);
    assert h in m && h in Above(m, h);
    assert h !in Above(m, Hdrp(NextBlkp(m, bp)));
  }

  /**
   * The walk of checkheap from bp: while the header at bp holds a positive
   * size the block passes checkblock and the walk goes on at NEXT_BLKP(bp);
   * the header that ends it has size 0 and is allocated.
   */
  ghost predicate WalkOk(m: Mem, bp: int)
    decreases Above(m, Hdrp(bp))
  {
    if SizeAt(m, bp) > 0 then
      AboveShrinks(m, bp);
      BlockOk(m, bp) && WalkOk(m, NextBlkp(m, bp))
    else
      SizeAt(m, bp) == 0 && AllocAt(m, bp) == 1
  }

  /** checkheap prints no error for the heap at heap_listp. */
  ghost predicate HeapChecks(m: Mem, heapListp: int)
  {
    SizeAt(m, heapListp) == DSIZE && AllocAt(m, heapListp) == 1 &&
    BlockOk(m, heapListp) && WalkOk(m, heapListp)
  }

  /** The walk from block k of a well-shaped heap passes every check. */
  lemma {:induction false} WalkFrom(m: Mem, brk: int, capacity: int, bs: seq<Blk>, k: int)
    requires Shape(m, brk, capacity, bs) && 0 <= k <= |bs|
    ensures WalkOk(m, Mid(bs, k, brk))
    decreases |bs| - k
  {
    Step(m, brk, capacity, bs, k);
    if k < |bs| {
      assert Tagged(m, bs[k]);
      WalkFrom(m, brk, capacity, bs, k + 1);
    }
  }

  /** Every heap that keeps the invariant of mm1.c passes checkheap. */
  lemma ShapeChecks(m: Mem, brk: int, capacity: int, bs: seq<Blk>)
    requires Shape(m, brk, capacity, bs)
    ensures HeapChecks(m, HEAP_LISTP)
  {
    Step(m, brk, capacity, bs, 0);
    assert Tagged(m, bs[0]);
    WalkFrom(m, brk, capacity, bs, 0);
  }
}
