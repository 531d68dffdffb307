/**
 * The arena of mm.c seen through its boundary tags and its free list: the
 * invariant the allocator keeps, first fit over the list, and coalesce as
 * a function of the arena with the lemmas that show it keeps the invariant.
 */
module ExplicitHeap {
  import opened Tags
  import opened Layout
  import opened FreeList

  /** The words below the first block that the allocator relies on. */
  ghost predicate Prologue(m: Mem)
  {
    Get(m, Hdrp(PROLOGUE)) == Pack(MIN_BLOCK_SIZE, 1) &&
    Get(m, PROLOGUE + MIN_BLOCK_SIZE - DSIZE) == Pack(MIN_BLOCK_SIZE, 1) &&
    Get(m, FIRST - DSIZE) == 0
  }

  /** Every block is large enough to become a free block. */
  ghost predicate AllMin(bs: seq<Blk>)
  {
    forall i :: 0 <= i < |bs| ==> bs[i].size >= MIN_BLOCK_SIZE
  }

  /** The boundary-tag structure of the arena, without the free list. */
  ghost predicate Shape(m: Mem, brk: int, capacity: int, bs: seq<Blk>)
  {
    FIRST <= brk <= capacity <= MAX_ARENA && brk % DSIZE == 0 &&
    Prologue(m) &&
    Tiled(m, bs, FIRST, brk) && AllMin(bs) && FreeMin(bs) &&
    (|bs| > 0 ==> Get(m, brk - WSIZE) == Pack(0, 1))
  }

  /**
   * The invariant mm.c keeps between calls: the blocks tile the arena, no
   * two neighbours are both free, and the free list threads exactly the
   * free blocks.
   */
  ghost predicate Heap(m: Mem, brk: int, capacity: int, bs: seq<Blk>, fl: seq<int>, head: int)
  {
    Shape(m, brk, capacity, bs) && NoAdjacentFree(bs) &&
    Linked(m, fl, head) && ListSet(fl) == FreeStarts(bs)
  }

  /**
   * What coalesce expects: the boundary-tag structure holds, block i is
   * free and is the one free block not on the list, and only block i may
   * have a free neighbour.
   */
  ghost predicate Coalescable(m: Mem, brk: int, capacity: int, bs: seq<Blk>, fl: seq<int>, head: int, i: int)
  {
    Shape(m, brk, capacity, bs) && Linked(m, fl, head) &&
    0 <= i < |bs| && bs[i].alloc == 0 &&
    ListSet(fl) == FreeStarts(bs) - {bs[i].bp} && NoAdjacentFreeBut(bs, i)
  }

  /** Writes to link slots of free blocks leave every tag in place. */
  lemma SlotWritesKeepShape(m: Mem, m': Mem, brk: int, capacity: int, bs: seq<Blk>, S: set<int>)
    requires Shape(m, brk, capacity, bs)
    requires S <= FreeStarts(bs)
    requires OnlySlots(m, m', S)
    ensures Shape(m', brk, capacity, bs)
  {
    forall a | a in {Hdrp(PROLOGUE), PROLOGUE + MIN_BLOCK_SIZE - DSIZE, FIRST - DSIZE, brk - WSIZE}
      ensures |bs| > 0 || a != brk - WSIZE ==> Get(m', a) == Get(m, a)
    {
      if (|bs| > 0 || a != brk - WSIZE) && Get(m', a) != Get(m, a) {
        if a in S {
          SlotsAvoidTags(bs, FIRST, brk, a, 0);
        } else {
          SlotsAvoidTags(bs, FIRST, brk, a - DSIZE, 0);
        }
      }
    }
    forall j | 0 <= j < |bs| ensures Tagged(m', bs[j]) {
      var h, f := Hdrp(bs[j].bp), End(bs[j]) - DSIZE;
      Bounds(bs, FIRST, brk, j);
      if Get(m', h) != Get(m, h) {
        if h in S {
          SlotsAvoidTags(bs, FIRST, brk, h, j);
        } else {
          SlotsAvoidTags(bs, FIRST, brk, h - DSIZE, j);
        }
      }
      if Get(m', f) != Get(m, f) {
        if f in S {
          SlotsAvoidTags(bs, FIRST, brk, f, j);
        } else {
          SlotsAvoidTags(bs, FIRST, brk, f - DSIZE, j);
        }
      }
    }
  }

  /** Members of the free list carry a free header; the prologue an allocated one. */
  lemma ListTags(m: Mem, brk: int, capacity: int, bs: seq<Blk>, fl: seq<int>)
    requires Shape(m, brk, capacity, bs) && ListSet(fl) == FreeStarts(bs)
    ensures forall k :: 0 <= k < |fl| ==> AllocAt(m, fl[k]) == 0
    ensures AllocAt(m, PROLOGUE) == 1
  {
    forall k | 0 <= k < |fl| ensures AllocAt(m, fl[k]) == 0 {
      assert fl[k] in ListSet(fl);
      var i := FreeStartsIndex(bs, fl[k]);
      assert Tagged(m, bs[i]);
      PackRoundTrip(bs[i].size, 0);
    }
    PackRoundTrip(MIN_BLOCK_SIZE, 1);
  }

  /**
   * First fit: the first member of the list, in list order, whose block
   * holds asize bytes, or NULL.
   */
  function FirstFit(m: Mem, fl: seq<int>, asize: int): (r: int)
  {
    if fl == [] then NULL
    else if asize <= SizeAt(m, fl[0]) then fl[0]
    else FirstFit(m, fl[1..], asize)
  }

  /** FirstFit finds a member that fits, and no earlier member fits. */
  lemma {:induction false} FirstFitFound(m: Mem, fl: seq<int>, asize: int) returns (k: int)
    requires FirstFit(m, fl, asize) != NULL
    ensures 0 <= k < |fl| && fl[k] == FirstFit(m, fl, asize)
    ensures asize <= SizeAt(m, fl[k])
    ensures forall j :: 0 <= j < k ==> SizeAt(m, fl[j]) < asize
    decreases |fl|
  {
    if asize <= SizeAt(m, fl[0]) {
      k := 0;
    } else {
      var k' := FirstFitFound(m, fl[1..], asize);
      k := k' + 1;
    }
  }

  /** FirstFit gives NULL exactly when no member fits (members are never NULL). */
  lemma {:induction false} FirstFitNone(m: Mem, fl: seq<int>, asize: int)
    requires forall k :: 0 <= k < |fl| ==> fl[k] != NULL
    ensures FirstFit(m, fl, asize) == NULL <==> forall k :: 0 <= k < |fl| ==> SizeAt(m, fl[k]) < asize
    decreases |fl|
  {
    if fl != [] {
      FirstFitNone(m, fl[1..], asize);
      assert forall k :: 1 <= k < |fl| ==> fl[1..][k - 1] == fl[k];
    }
  }

  /** What coalesce reads around block i. */
  lemma Neighbours(m: Mem, brk: int, capacity: int, bs: seq<Blk>, i: int)
    requires Shape(m, brk, capacity, bs) && 0 <= i < |bs|
    ensures SizeAt(m, bs[i].bp) == bs[i].size
    ensures NextBlkp(m, bs[i].bp) == Mid(bs, i + 1, brk)
    ensures GetAlloc(Get(m, Hdrp(NextBlkp(m, bs[i].bp)))) == if i + 1 < |bs| then bs[i + 1].alloc else 1
    ensures i + 1 < |bs| ==> SizeAt(m, bs[i + 1].bp) == bs[i + 1].size
    ensures PrevBlkp(m, bs[i].bp) == if i > 0 then bs[i - 1].bp else bs[i].bp
    ensures i > 0 ==> SizeAt(m, bs[i - 1].bp) == bs[i - 1].size
    ensures i > 0 ==> GetAlloc(Get(m, Ftrp(m, bs[i - 1].bp))) == bs[i - 1].alloc
  {
    assert Tagged(m, bs[i]);
    NextNeighbour(m, bs[i], Mid(bs, i + 1, brk), if i + 1 < |bs| then bs[i + 1] else Blk(brk, 0, 1));
    if i > 0 {
      assert Tagged(m, bs[i - 1]);
      assert bs[i].bp == End(bs[i - 1]);
      PrevNeighbour(m, bs[i - 1], bs[i].bp);
    } else {
      assert bs[i].bp == FIRST;
      FirstHasNoPrev(m);
    }
  }

  /** The zero word below the first block makes PREV_BLKP of the first block the block itself. */
  lemma FirstHasNoPrev(m: Mem)
    requires Prologue(m)
    ensures PrevBlkp(m, FIRST) == FIRST
  {
    assert Get(m, FIRST - DSIZE) == 0;
    assert GetSize(0) == 0;
  }

  /**
   * The free starts once blocks lo..hi-1 are fused: those of the fused
   * blocks go, the fused block's comes.
   */
  lemma FusedFree(bs: seq<Blk>, start: int, end: int, lo: int, hi: int)
    requires Chain(bs, start, end) && FreeMin(bs) && 0 <= lo < hi <= |bs|
    ensures FreeStarts(Fuse(bs, lo, hi)) == FreeStarts(bs) - FreeStarts(bs[lo..hi]) + {bs[lo].bp}
  {
    FreeStartsDisjoint(bs, start, end, lo, hi);
    var b := Blk(bs[lo].bp, End(bs[hi - 1]) - bs[lo].bp, 0);
    FreeStartsSplice(bs, lo, hi, [b]);
    FreeStartsOne(b);
  }

  /** The block being coalesced is among the merged free blocks. */
  lemma MergedHas(bs: seq<Blk>, i: int)
    requires 0 <= i < |bs| && bs[i].alloc == 0
    ensures bs[i].bp in FreeStarts(bs[MergeLo(bs, i)..MergeHi(bs, i)])
  {
    var lo, hi := MergeLo(bs, i), MergeHi(bs, i);
    assert bs[lo..hi][i - lo] == bs[i];
    FreeStartsHas(bs[lo..hi], i - lo);
  }

  /** The free starts of the blocks coalesce merges: block i and its free neighbours. */
  lemma MergedStarts(bs: seq<Blk>, i: int)
    requires 0 <= i < |bs| && bs[i].alloc == 0
    ensures FreeStarts(bs[MergeLo(bs, i)..MergeHi(bs, i)]) ==
      (if MergeLo(bs, i) < i then {bs[i - 1].bp} else {}) + {bs[i].bp} +
      (if MergeHi(bs, i) > i + 1 then {bs[i + 1].bp} else {})
  {
    var lo, hi := MergeLo(bs, i), MergeHi(bs, i);
    var pre := if lo < i then [bs[i - 1]] else [];
    var post := if hi > i + 1 then [bs[i + 1]] else [];
    assert bs[lo..hi] == pre + [bs[i]] + post;
    FreeStartsConcat(pre + [bs[i]], post);
    FreeStartsConcat(pre, [bs[i]]);
    FreeStartsOne(bs[i]);
    if lo < i {
      FreeStartsOne(bs[i - 1]);
    } else {
      assert FreeStarts(pre) == {};
    }
    if hi > i + 1 {
      FreeStartsOne(bs[i + 1]);
    } else {
      assert FreeStarts(post) == {};
    }
  }

  /** Writing the tags of the fused block gives the arena the fused shape. */
  lemma FuseShape(m: Mem, brk: int, capacity: int, bs: seq<Blk>, lo: int, hi: int)
    requires Shape(m, brk, capacity, bs) && 0 <= lo < hi <= |bs| && hi <= lo + 3
    ensures (End(bs[hi - 1]) - bs[lo].bp) % 8 == 0
    ensures Shape(FuseMem(m, bs[lo].bp, End(bs[hi - 1])), brk, capacity, Fuse(bs, lo, hi))
  {
    FuseTiled(m, FIRST, brk, bs, lo, hi);
    Bounds(bs, FIRST, brk, lo);
    Bounds(bs, FIRST, brk, hi - 1);
    FuseMins(bs, brk, lo, hi);
    var bp, end := bs[lo].bp, End(bs[hi - 1]);
    FuseMemElsewhere(m, bp, end, Hdrp(PROLOGUE));
    FuseMemElsewhere(m, bp, end, PROLOGUE + MIN_BLOCK_SIZE - DSIZE);
    FuseMemElsewhere(m, bp, end, FIRST - DSIZE);
    FuseMemElsewhere(m, bp, end, brk - WSIZE);
  }

  /** Fusing blocks keeps every block large enough to be free. */
  lemma FuseMins(bs: seq<Blk>, brk: int, lo: int, hi: int)
    requires Chain(bs, FIRST, brk) && AllMin(bs) && FreeMin(bs) && 0 <= lo < hi <= |bs| && hi <= lo + 3
    ensures AllMin(Fuse(bs, lo, hi)) && FreeMin(Fuse(bs, lo, hi))
  {
    FusedBlock(bs, FIRST, brk, lo, hi);
  }

  /**
   * A list whose members are the free starts outside the fused blocks stays
   * linked through the tag writes, and the fused block lies apart from all
   * of its members.
   */
  lemma FuseLinks(m: Mem, brk: int, bs: seq<Blk>, lo: int, hi: int, fl: seq<int>, head: int)
    requires Chain(bs, FIRST, brk) && FreeMin(bs) && 0 <= lo < hi <= |bs| && bs[lo].size >= MIN_BLOCK_SIZE
    requires Linked(m, fl, head) && ListSet(fl) == FreeStarts(bs) - FreeStarts(bs[lo..hi])
    ensures Linked(FuseMem(m, bs[lo].bp, End(bs[hi - 1])), fl, head)
    ensures FIRST <= bs[lo].bp
    ensures forall k :: 0 <= k < |fl| ==> bs[lo].bp + 2 * DSIZE <= fl[k] || fl[k] + 2 * DSIZE <= bs[lo].bp
  {
    var bp, end := bs[lo].bp, End(bs[hi - 1]);
    FusedApartAll(bs, brk, lo, hi, fl);
    forall a | a < Hdrp(bp) || end - WSIZE <= a ensures Get(FuseMem(m, bp, end), a) == Get(m, a) {
      FuseMemElsewhere(m, bp, end, a);
    }
    LinkedKept(m, FuseMem(m, bp, end), fl, head, Hdrp(bp), end - WSIZE);
  }

  /** The fused block lies apart from every list member outside it. */
  lemma FusedApartAll(bs: seq<Blk>, brk: int, lo: int, hi: int, fl: seq<int>)
    requires Chain(bs, FIRST, brk) && FreeMin(bs) && 0 <= lo < hi <= |bs| && bs[lo].size >= MIN_BLOCK_SIZE
    requires ListSet(fl) == FreeStarts(bs) - FreeStarts(bs[lo..hi])
    ensures FIRST <= bs[lo].bp && bs[lo].bp + MIN_BLOCK_SIZE <= End(bs[hi - 1])
    ensures forall x :: x in fl ==> x + MIN_BLOCK_SIZE <= bs[lo].bp || End(bs[hi - 1]) <= x
    ensures forall k :: 0 <= k < |fl| ==> bs[lo].bp + 2 * DSIZE <= fl[k] || fl[k] + 2 * DSIZE <= bs[lo].bp
  {
    Bounds(bs, FIRST, brk, lo);
    if lo < hi - 1 {
      Ordered(bs, FIRST, brk, lo, hi - 1);
    }
    forall x | x in fl ensures x + MIN_BLOCK_SIZE <= bs[lo].bp || End(bs[hi - 1]) <= x {
      assert x in ListSet(fl);
      FusedApart(bs, brk, lo, hi, x);
    }
    forall k | 0 <= k < |fl| ensures bs[lo].bp + 2 * DSIZE <= fl[k] || fl[k] + 2 * DSIZE <= bs[lo].bp {
      assert fl[k] in fl;
    }
  }

  /** A free start outside blocks lo..hi-1 lies wholly before or after them. */
  lemma FusedApart(bs: seq<Blk>, brk: int, lo: int, hi: int, x: int)
    requires Chain(bs, FIRST, brk) && FreeMin(bs) && 0 <= lo < hi <= |bs|
    requires x in FreeStarts(bs) && x !in FreeStarts(bs[lo..hi])
    ensures x + MIN_BLOCK_SIZE <= bs[lo].bp || End(bs[hi - 1]) <= x
  {
    var j := FreeStartsIndex(bs, x);
    if lo <= j < hi {
      assert bs[lo..hi][j - lo] == bs[j];
      FreeStartsHas(bs[lo..hi], j - lo);
    } else if j < lo {
      Ordered(bs, FIRST, brk, j, lo);
    } else if hi - 1 < j {
      Ordered(bs, FIRST, brk, hi - 1, j);
    }
  }

  /** Slot writes never touch a tag word. */
  lemma SlotWriteMissesTag(m: Mem, m': Mem, brk: int, bs: seq<Blk>, S: set<int>, j: int, a: int)
    requires Chain(bs, FIRST, brk) && FreeMin(bs) && S <= FreeStarts(bs) && OnlySlots(m, m', S)
    requires 0 <= j < |bs| && (a == Hdrp(bs[j].bp) || a == End(bs[j]) - DSIZE)
    ensures Get(m', a) == Get(m, a)
  {
    Bounds(bs, FIRST, brk, j);
    if Get(m', a) != Get(m, a) {
      if a in S {
        SlotsAvoidTags(bs, FIRST, brk, a, j);
      } else {
        SlotsAvoidTags(bs, FIRST, brk, a - DSIZE, j);
      }
    }
  }

  /** Sums of multiples of 8 are multiples of 8. */
  lemma SumAligned(a: int, b: int, c: int)
    requires a % 8 == 0 && b % 8 == 0 && c % 8 == 0
    ensures (a + b) % 8 == 0 && (a + b + c) % 8 == 0
  {
  }

  /** Removing x and then a set holding x is removing the set. */
  lemma DropCovered(A: set<int>, B: set<int>, x: int)
    requires x in B
    ensures A - {x} - B == A - B
  {
  }

  /**
   * Once the neighbours are unlinked (memory changed only at link slots),
   * writing the merged block's tags gives the merged shape, keeps the rest
   * of the list linked, and leaves the merged block apart from its members.
   */
  lemma CoalesceReady(m0: Mem, mD: Mem, brk: int, capacity: int, bs: seq<Blk>, i: int, lo: int, hi: int,
                      fl: seq<int>, flD: seq<int>, head: int)
    requires 0 <= i < |bs| && bs[i].alloc == 0
    requires lo == MergeLo(bs, i) && hi == MergeHi(bs, i) && 0 <= lo <= i < hi <= |bs|
    requires flD == Minus(fl, FreeStarts(bs[lo..hi]))
    requires Shape(m0, brk, capacity, bs)
    requires ListSet(fl) == FreeStarts(bs) - {bs[i].bp}
    requires OnlySlots(m0, mD, ListSet(fl))
    requires Linked(mD, flD, head)
    ensures Shape(FuseMem(mD, bs[lo].bp, End(bs[hi - 1])), brk, capacity, Merged(bs, i))
    ensures Linked(FuseMem(mD, bs[lo].bp, End(bs[hi - 1])), flD, head)
    ensures FIRST <= bs[lo].bp
    ensures forall k :: 0 <= k < |flD| ==> bs[lo].bp + 2 * DSIZE <= flD[k] || flD[k] + 2 * DSIZE <= bs[lo].bp
  {
    SlotWritesKeepShape(m0, mD, brk, capacity, bs, ListSet(fl));
    FuseShape(mD, brk, capacity, bs, lo, hi);
    MergedHas(bs, i);
    ListMinus(fl, FreeStarts(bs[lo..hi]));
    DropCovered(FreeStarts(bs), FreeStarts(bs[lo..hi]), bs[i].bp);
    FuseLinks(mD, brk, bs, lo, hi, flD, head);
  }

  /** The memory once coalesce has unlinked the free neighbours of block i: the previous one, then the next one. */
  ghost function UnlinkedNeighbours(m: Mem, bs: seq<Blk>, i: int): Mem
    requires 0 <= i < |bs|
  {
    var m1 := if MergeLo(bs, i) < i then Unlinked(m, bs[i - 1].bp) else m;
    if MergeHi(bs, i) > i + 1 then Unlinked(m1, bs[i + 1].bp) else m1
  }

  /** freelist_head once coalesce has unlinked the free neighbours of block i. */
  ghost function UnlinkedNeighboursHead(m: Mem, head: int, bs: seq<Blk>, i: int): int
    requires 0 <= i < |bs|
  {
    var m1 := if MergeLo(bs, i) < i then Unlinked(m, bs[i - 1].bp) else m;
    var h1 := if MergeLo(bs, i) < i then UnlinkedHead(m, head, bs[i - 1].bp) else head;
    if MergeHi(bs, i) > i + 1 then UnlinkedHead(m1, h1, bs[i + 1].bp) else h1
  }

  /** The list once coalesce has unlinked the free neighbours of block i. */
  ghost function RemovedNeighbours(fl: seq<int>, bs: seq<Blk>, i: int): seq<int>
    requires 0 <= i < |bs|
  {
    var f1 := if MergeLo(bs, i) < i then Minus(fl, {bs[i - 1].bp}) else fl;
    if MergeHi(bs, i) > i + 1 then Minus(f1, {bs[i + 1].bp}) else f1
  }

  /**
   * The free neighbours of block i are on the list, apart from each other,
   * and removing them removes every merged block from the list.
   */
  lemma NeighboursListed(brk: int, bs: seq<Blk>, fl: seq<int>, i: int)
    requires Chain(bs, FIRST, brk) && 0 <= i < |bs| && bs[i].alloc == 0
    requires ListSet(fl) == FreeStarts(bs) - {bs[i].bp}
    ensures MergeLo(bs, i) < i ==> bs[i - 1].bp in fl
    ensures MergeHi(bs, i) > i + 1 ==> bs[i + 1].bp in fl
    ensures MergeLo(bs, i) < i && MergeHi(bs, i) > i + 1 ==> bs[i - 1].bp != bs[i + 1].bp
    ensures RemovedNeighbours(fl, bs, i) == Minus(fl, FreeStarts(bs[MergeLo(bs, i)..MergeHi(bs, i)]))
  {
    var lo, hi := MergeLo(bs, i), MergeHi(bs, i);
    var prev := if lo < i then {bs[i - 1].bp} else {};
    var next := if hi > i + 1 then {bs[i + 1].bp} else {};
    MergedStarts(bs, i);
    if lo < i {
      FreeStartsHas(bs, i - 1);
      assert bs[i - 1].bp in ListSet(fl);
    } else {
      MinusNone(fl, {});
    }
    var f1 := if lo < i then Minus(fl, {bs[i - 1].bp}) else fl;
    assert f1 == Minus(fl, prev);
    if hi > i + 1 {
      FreeStartsHas(bs, i + 1);
      assert bs[i + 1].bp in ListSet(fl);
      if lo < i {
        Ordered(bs, FIRST, brk, i - 1, i);
      }
    } else {
      MinusNone(f1, {});
    }
    MinusMinus(fl, prev, next);
    forall k | 0 <= k < |fl|
      ensures fl[k] in prev + next <==> fl[k] in FreeStarts(bs[lo..hi])
    {
      assert fl[k] in ListSet(fl);
    }
    MinusSame(fl, prev + next, FreeStarts(bs[lo..hi]));
  }

  /**
   * Unlinking the free neighbours of block i keeps the rest of the list
   * linked and writes only link slots of list members.
   */
  lemma NeighboursUnlinked(m: Mem, brk: int, bs: seq<Blk>, fl: seq<int>, head: int, i: int)
    requires Chain(bs, FIRST, brk) && Linked(m, fl, head)
    requires 0 <= i < |bs| && bs[i].alloc == 0
    requires ListSet(fl) == FreeStarts(bs) - {bs[i].bp}
    ensures Linked(UnlinkedNeighbours(m, bs, i), RemovedNeighbours(fl, bs, i), UnlinkedNeighboursHead(m, head, bs, i))
    ensures OnlySlots(m, UnlinkedNeighbours(m, bs, i), ListSet(fl))
  {
    NeighboursListed(brk, bs, fl, i);
    ListedUnlinked(m, bs, fl, head, i);
  }

  /** NeighboursUnlinked once the free neighbours are known to be distinct list members. */
  lemma ListedUnlinked(m: Mem, bs: seq<Blk>, fl: seq<int>, head: int, i: int)
    requires Linked(m, fl, head) && 0 <= i < |bs|
    requires MergeLo(bs, i) < i ==> bs[i - 1].bp in fl
    requires MergeHi(bs, i) > i + 1 ==> bs[i + 1].bp in fl
    requires MergeLo(bs, i) < i && MergeHi(bs, i) > i + 1 ==> bs[i - 1].bp != bs[i + 1].bp
    ensures Linked(UnlinkedNeighbours(m, bs, i), RemovedNeighbours(fl, bs, i), UnlinkedNeighboursHead(m, head, bs, i))
    ensures OnlySlots(m, UnlinkedNeighbours(m, bs, i), ListSet(fl))
  {
    var lo, hi := MergeLo(bs, i), MergeHi(bs, i);
    if lo < i {
      var x := bs[i - 1].bp;
      if hi > i + 1 {
        var y := bs[i + 1].bp;
        assert y in Minus(fl, {x}) by {
          assert y in fl && y !in {x};
        }
        PairUnlinked(m, fl, head, x, y);
        assert UnlinkedNeighbours(m, bs, i) == Unlinked(Unlinked(m, x), y);
        assert RemovedNeighbours(fl, bs, i) == Minus(Minus(fl, {x}), {y});
        assert UnlinkedNeighboursHead(m, head, bs, i) == UnlinkedHead(Unlinked(m, x), UnlinkedHead(m, head, x), y);
      } else {
        DeleteLinked(m, fl, head, x);
        assert UnlinkedNeighbours(m, bs, i) == Unlinked(m, x);
        assert RemovedNeighbours(fl, bs, i) == Minus(fl, {x});
        assert UnlinkedNeighboursHead(m, head, bs, i) == UnlinkedHead(m, head, x);
      }
    } else if hi > i + 1 {
      var y := bs[i + 1].bp;
      DeleteLinked(m, fl, head, y);
      assert UnlinkedNeighbours(m, bs, i) == Unlinked(m, y);
      assert RemovedNeighbours(fl, bs, i) == Minus(fl, {y});
      assert UnlinkedNeighboursHead(m, head, bs, i) == UnlinkedHead(m, head, y);
    }
  }

  /** Unlinking two list members one after the other. */
  lemma PairUnlinked(m: Mem, fl: seq<int>, head: int, x: int, y: int)
    requires Linked(m, fl, head) && x in fl && y in Minus(fl, {x})
    ensures Linked(Unlinked(Unlinked(m, x), y), Minus(Minus(fl, {x}), {y}), UnlinkedHead(Unlinked(m, x), UnlinkedHead(m, head, x), y))
    ensures OnlySlots(m, Unlinked(Unlinked(m, x), y), ListSet(fl))
  {
    var m1, f1, h1 := Unlinked(m, x), Minus(fl, {x}), UnlinkedHead(m, head, x);
    DeleteLinked(m, fl, head, x);
    DeleteLinked(m1, f1, h1, y);
    ListMinus(fl, {x});
    OnlySlotsTrans(m, m1, Unlinked(m1, y), ListSet(fl), ListSet(f1));
  }

  /** What coalesce leaves behind before it pushes the merged block on the list. */
  datatype Coalescing = Coalescing(mem: Mem, head: int, list: seq<int>, bp: int)

  /**
   * coalesce up to its call of insertblock, step by step as mm.c takes
   * them: read both neighbours' allocated bits through the boundary tags,
   * unlink the free neighbours, write the merged block's tags.  The list
   * fl is the ghost view of the free list that deleteblock shortens.
   */
  ghost function Coalesced(m: Mem, head: int, fl: seq<int>, bp: int): Coalescing
  {
    var prevAlloc, nextAlloc := PrevAllocated(m, bp), NextAllocated(m, bp);
    var size := SizeAt(m, bp);
    if prevAlloc && !nextAlloc then
      var next := NextBlkp(m, bp);
      Coalescing(TagsWritten(Unlinked(m, next), bp, size + SizeAt(m, next), 0),
                 UnlinkedHead(m, head, next), Minus(fl, {next}), bp)
    else if !prevAlloc && nextAlloc then
      var prev := PrevBlkp(m, bp);
      Coalescing(TagsWritten(Unlinked(m, prev), prev, size + SizeAt(m, prev), 0),
                 UnlinkedHead(m, head, prev), Minus(fl, {prev}), prev)
    else if !prevAlloc && !nextAlloc then
      var size := size + SizeAt(m, PrevBlkp(m, bp)) + SizeAt(m, NextBlkp(m, bp));
      var m1 := Unlinked(m, PrevBlkp(m, bp));
      var h1 := UnlinkedHead(m, head, PrevBlkp(m, bp));
      var m2 := Unlinked(m1, NextBlkp(m1, bp));
      Coalescing(TagsWritten(m2, PrevBlkp(m2, bp), size, 0), UnlinkedHead(m1, h1, NextBlkp(m1, bp)),
                 Minus(Minus(fl, {PrevBlkp(m, bp)}), {NextBlkp(m1, bp)}), PrevBlkp(m2, bp))
    else
      Coalescing(m, head, fl, bp)
  }

  /**
   * coalesce reads the tags around bp between its two deletions and after
   * them: unlinking the neighbours leaves those tags as they were.
   */
  lemma NeighbourTagsKept(m: Mem, brk: int, bs: seq<Blk>, fl: seq<int>, head: int, i: int)
    requires Chain(bs, FIRST, brk) && FreeMin(bs) && Linked(m, fl, head)
    requires 0 < i < |bs| - 1 && bs[i - 1].alloc == 0 && bs[i].alloc == 0 && bs[i + 1].alloc == 0
    requires ListSet(fl) == FreeStarts(bs) - {bs[i].bp}
    ensures Get(Unlinked(m, bs[i - 1].bp), Hdrp(bs[i].bp)) == Get(m, Hdrp(bs[i].bp))
    ensures Get(UnlinkedNeighbours(m, bs, i), bs[i].bp - DSIZE) == Get(m, bs[i].bp - DSIZE)
  {
    FreeStartsHas(bs, i - 1);
    assert bs[i - 1].bp in ListSet(fl);
    DeleteLinked(m, fl, head, bs[i - 1].bp);
    SlotWriteMissesTag(m, Unlinked(m, bs[i - 1].bp), brk, bs, ListSet(fl), i, Hdrp(bs[i].bp));
    NeighboursUnlinked(m, brk, bs, fl, head, i);
    SlotWriteMissesTag(m, UnlinkedNeighbours(m, bs, i), brk, bs, ListSet(fl), i - 1, End(bs[i - 1]) - DSIZE);
  }

  /** The prevAlloc test of coalesce: the previous block is allocated, or bp has no predecessor. */
  function PrevAllocated(m: Mem, bp: int): bool
  {
    GetAlloc(Get(m, Ftrp(m, PrevBlkp(m, bp)))) == 1 || PrevBlkp(m, bp) == bp
  }

  /** The nextAlloc test of coalesce. */
  function NextAllocated(m: Mem, bp: int): bool
  {
    GetAlloc(Get(m, Hdrp(NextBlkp(m, bp)))) == 1
  }

  /** The four cases of coalesce, each unfolded on its own. */
  lemma CoalescedCases(m: Mem, head: int, fl: seq<int>, bp: int)
    ensures PrevAllocated(m, bp) && !NextAllocated(m, bp) ==>
      Coalesced(m, head, fl, bp) ==
      Coalescing(TagsWritten(Unlinked(m, NextBlkp(m, bp)), bp, SizeAt(m, bp) + SizeAt(m, NextBlkp(m, bp)), 0),
                 UnlinkedHead(m, head, NextBlkp(m, bp)), Minus(fl, {NextBlkp(m, bp)}), bp)
    ensures !PrevAllocated(m, bp) && NextAllocated(m, bp) ==>
      Coalesced(m, head, fl, bp) ==
      Coalescing(TagsWritten(Unlinked(m, PrevBlkp(m, bp)), PrevBlkp(m, bp), SizeAt(m, bp) + SizeAt(m, PrevBlkp(m, bp)), 0),
                 UnlinkedHead(m, head, PrevBlkp(m, bp)), Minus(fl, {PrevBlkp(m, bp)}), PrevBlkp(m, bp))
    ensures !PrevAllocated(m, bp) && !NextAllocated(m, bp) ==>
      var m1 := Unlinked(m, PrevBlkp(m, bp));
      var m2 := Unlinked(m1, NextBlkp(m1, bp));
      Coalesced(m, head, fl, bp) ==
      Coalescing(TagsWritten(m2, PrevBlkp(m2, bp), SizeAt(m, bp) + SizeAt(m, PrevBlkp(m, bp)) + SizeAt(m, NextBlkp(m, bp)), 0),
                 UnlinkedHead(m1, UnlinkedHead(m, head, PrevBlkp(m, bp)), NextBlkp(m1, bp)),
                 Minus(Minus(fl, {PrevBlkp(m, bp)}), {NextBlkp(m1, bp)}), PrevBlkp(m2, bp))
    ensures PrevAllocated(m, bp) && NextAllocated(m, bp) ==> Coalesced(m, head, fl, bp) == Coalescing(m, head, fl, bp)
  {
  }

  /** The case of coalesce where only the next block is free, read off the tags alone. */
  lemma CoalescedNextTags(m: Mem, head: int, fl: seq<int>, bp: int, next: int, size: int)
    requires PrevAllocated(m, bp) && !NextAllocated(m, bp)
    requires NextBlkp(m, bp) == next && SizeAt(m, bp) + SizeAt(m, next) == size && size % 8 == 0
    ensures Coalesced(m, head, fl, bp) ==
            Coalescing(FuseMem(Unlinked(m, next), bp, bp + size), UnlinkedHead(m, head, next), Minus(fl, {next}), bp)
  {
    CoalescedCases(m, head, fl, bp);
    FreeTagsFuse(Unlinked(m, next), bp, size);
  }

  /** coalesce with the next block free and the previous one allocated. */
  lemma CoalescedNext(m: Mem, brk: int, capacity: int, bs: seq<Blk>, fl: seq<int>, head: int, i: int)
    requires Shape(m, brk, capacity, bs) && 0 <= i < |bs| && bs[i].alloc == 0
    requires MergeLo(bs, i) == i && MergeHi(bs, i) == i + 2
    ensures Coalesced(m, head, fl, bs[i].bp) ==
            Coalescing(FuseMem(Unlinked(m, bs[i + 1].bp), bs[i].bp, End(bs[i + 1])),
                       UnlinkedHead(m, head, bs[i + 1].bp), Minus(fl, {bs[i + 1].bp}), bs[i].bp)
  {
    var bp, next := bs[i].bp, bs[i + 1].bp;
    Neighbours(m, brk, capacity, bs, i);
    assert Tagged(m, bs[i]) && Tagged(m, bs[i + 1]);
    assert NextBlkp(m, bp) == next && next == End(bs[i]);
    assert GetAlloc(Get(m, Hdrp(next))) == 0;
    assert GetAlloc(Get(m, Ftrp(m, PrevBlkp(m, bp)))) == 1 || PrevBlkp(m, bp) == bp;
    var size := bs[i].size + bs[i + 1].size;
    SumAligned(bs[i].size, bs[i + 1].size, 0);
    assert SizeAt(m, bp) + SizeAt(m, next) == size && bp + size == End(bs[i + 1]);
    CoalescedNextTags(m, head, fl, bp, next, size);
  }

  /** The case of coalesce where only the previous block is free, read off the tags alone. */
  lemma CoalescedPrevTags(m: Mem, head: int, fl: seq<int>, bp: int, prev: int, size: int)
    requires !PrevAllocated(m, bp) && NextAllocated(m, bp)
    requires PrevBlkp(m, bp) == prev && SizeAt(m, bp) + SizeAt(m, prev) == size && size % 8 == 0
    ensures Coalesced(m, head, fl, bp) ==
            Coalescing(FuseMem(Unlinked(m, prev), prev, prev + size), UnlinkedHead(m, head, prev), Minus(fl, {prev}), prev)
  {
    CoalescedCases(m, head, fl, bp);
    FreeTagsFuse(Unlinked(m, prev), prev, size);
  }

  /** coalesce with the previous block free and the next one allocated. */
  lemma CoalescedPrev(m: Mem, brk: int, capacity: int, bs: seq<Blk>, fl: seq<int>, head: int, i: int)
    requires Shape(m, brk, capacity, bs) && 0 <= i < |bs| && bs[i].alloc == 0
    requires MergeLo(bs, i) == i - 1 && MergeHi(bs, i) == i + 1
    ensures Coalesced(m, head, fl, bs[i].bp) ==
            Coalescing(FuseMem(Unlinked(m, bs[i - 1].bp), bs[i - 1].bp, End(bs[i])),
                       UnlinkedHead(m, head, bs[i - 1].bp), Minus(fl, {bs[i - 1].bp}), bs[i - 1].bp)
  {
    var bp, prev := bs[i].bp, bs[i - 1].bp;
    Neighbours(m, brk, capacity, bs, i);
    assert Tagged(m, bs[i - 1]) && Tagged(m, bs[i]);
    assert PrevBlkp(m, bp) == prev && bp == End(bs[i - 1]) && prev != bp;
    assert GetAlloc(Get(m, Ftrp(m, prev))) == 0;
    assert i + 1 < |bs| ==> bs[i + 1].alloc == 1;
    assert GetAlloc(Get(m, Hdrp(NextBlkp(m, bp)))) == 1;
    var size := bs[i].size + bs[i - 1].size;
    SumAligned(bs[i].size, bs[i - 1].size, 0);
    assert SizeAt(m, bp) + SizeAt(m, prev) == size && prev + size == End(bs[i]);
    CoalescedPrevTags(m, head, fl, bp, prev, size);
  }

  /** With both neighbours free, coalesce unlinks the previous one and then the next one. */
  lemma BothUnlinked(m: Mem, head: int, fl: seq<int>, bs: seq<Blk>, i: int)
    requires 0 <= i < |bs| && MergeLo(bs, i) == i - 1 && MergeHi(bs, i) == i + 2
    ensures UnlinkedNeighbours(m, bs, i) == Unlinked(Unlinked(m, bs[i - 1].bp), bs[i + 1].bp)
    ensures UnlinkedNeighboursHead(m, head, bs, i) ==
            UnlinkedHead(Unlinked(m, bs[i - 1].bp), UnlinkedHead(m, head, bs[i - 1].bp), bs[i + 1].bp)
    ensures RemovedNeighbours(fl, bs, i) == Minus(Minus(fl, {bs[i - 1].bp}), {bs[i + 1].bp})
  {
  }

  /**
   * The case of coalesce where both neighbours are free, given what the
   * tags around bp read before the deletions and that the deletions leave
   * the two tags coalesce reads again between and after them.
   */
  lemma CoalescedBothTags(m: Mem, head: int, fl: seq<int>, bs: seq<Blk>, i: int, size: int)
    requires 0 <= i < |bs| && MergeLo(bs, i) == i - 1 && MergeHi(bs, i) == i + 2
    requires PrevBlkp(m, bs[i].bp) == bs[i - 1].bp != bs[i].bp && NextBlkp(m, bs[i].bp) == bs[i + 1].bp
    requires GetAlloc(Get(m, Ftrp(m, bs[i - 1].bp))) == 0 && GetAlloc(Get(m, Hdrp(bs[i + 1].bp))) == 0
    requires Get(Unlinked(m, bs[i - 1].bp), Hdrp(bs[i].bp)) == Get(m, Hdrp(bs[i].bp))
    requires Get(UnlinkedNeighbours(m, bs, i), bs[i].bp - DSIZE) == Get(m, bs[i].bp - DSIZE)
    requires SizeAt(m, bs[i].bp) + SizeAt(m, bs[i - 1].bp) + SizeAt(m, bs[i + 1].bp) == size
    requires size % 8 == 0 && bs[i - 1].bp + size == End(bs[i + 1])
    ensures Coalesced(m, head, fl, bs[i].bp) ==
            Coalescing(FuseMem(UnlinkedNeighbours(m, bs, i), bs[i - 1].bp, End(bs[i + 1])),
                       UnlinkedHead(Unlinked(m, bs[i - 1].bp), UnlinkedHead(m, head, bs[i - 1].bp), bs[i + 1].bp),
                       Minus(Minus(fl, {bs[i - 1].bp}), {bs[i + 1].bp}), bs[i - 1].bp)
  {
    var bp, prev, next := bs[i].bp, bs[i - 1].bp, bs[i + 1].bp;
    BothUnlinked(m, head, fl, bs, i);
    assert NextBlkp(Unlinked(m, prev), bp) == next;
    assert PrevBlkp(Unlinked(Unlinked(m, prev), next), bp) == prev;
    CoalescedCases(m, head, fl, bp);
    FreeTagsFuse(UnlinkedNeighbours(m, bs, i), prev, size);
  }

  /**
   * coalesce with both neighbours free: the previous one is unlinked first,
   * and the tags coalesce reads after that deletion are still in place.
   */
  lemma CoalescedBoth(m: Mem, brk: int, capacity: int, bs: seq<Blk>, fl: seq<int>, head: int, i: int)
    requires Shape(m, brk, capacity, bs) && Linked(m, fl, head)
    requires 0 <= i < |bs| && bs[i].alloc == 0 && ListSet(fl) == FreeStarts(bs) - {bs[i].bp}
    requires MergeLo(bs, i) == i - 1 && MergeHi(bs, i) == i + 2
    ensures Coalesced(m, head, fl, bs[i].bp) ==
            Coalescing(FuseMem(UnlinkedNeighbours(m, bs, i), bs[i - 1].bp, End(bs[i + 1])),
                       UnlinkedNeighboursHead(m, head, bs, i), RemovedNeighbours(fl, bs, i), bs[i - 1].bp)
  {
    Neighbours(m, brk, capacity, bs, i);
    NeighbourTagsKept(m, brk, bs, fl, head, i);
    assert Shaped(bs[i - 1]) && Shaped(bs[i]) && Shaped(bs[i + 1]);
    assert bs[i].bp == End(bs[i - 1]) && bs[i + 1].bp == End(bs[i]);
    SumAligned(bs[i].size, bs[i - 1].size, bs[i + 1].size);
    CoalescedBothTags(m, head, fl, bs, i, bs[i].size + bs[i - 1].size + bs[i + 1].size);
    BothUnlinked(m, head, fl, bs, i);
  }

  /** coalesce with both neighbours allocated leaves everything as it was. */
  lemma CoalescedAlone(m: Mem, brk: int, capacity: int, bs: seq<Blk>, fl: seq<int>, head: int, i: int)
    requires Shape(m, brk, capacity, bs) && 0 <= i < |bs| && bs[i].alloc == 0
    requires MergeLo(bs, i) == i && MergeHi(bs, i) == i + 1
    ensures Coalesced(m, head, fl, bs[i].bp) == Coalescing(FuseMem(m, bs[i].bp, End(bs[i])), head, fl, bs[i].bp)
  {
    Neighbours(m, brk, capacity, bs, i);
    FuseNoop(m, bs[i]);
  }

  /**
   * What the boundary tags tell coalesce agrees with the blocks: it unlinks
   * exactly the free neighbours of block i, in the order mm.c deletes them,
   * and writes the tags of blocks MergeLo..MergeHi-1 fused into one.
   */
  lemma CoalescedNeighbours(m: Mem, brk: int, capacity: int, bs: seq<Blk>, fl: seq<int>, head: int, i: int)
    requires Shape(m, brk, capacity, bs) && Linked(m, fl, head)
    requires 0 <= i < |bs| && bs[i].alloc == 0
    requires ListSet(fl) == FreeStarts(bs) - {bs[i].bp}
    ensures Coalesced(m, head, fl, bs[i].bp) ==
            Coalescing(FuseMem(UnlinkedNeighbours(m, bs, i), bs[MergeLo(bs, i)].bp, End(bs[MergeHi(bs, i) - 1])),
                       UnlinkedNeighboursHead(m, head, bs, i), RemovedNeighbours(fl, bs, i), bs[MergeLo(bs, i)].bp)
  {
    var lo, hi := MergeLo(bs, i), MergeHi(bs, i);
    if lo == i && hi == i + 2 {
      CoalescedNext(m, brk, capacity, bs, fl, head, i);
    } else if lo == i - 1 && hi == i + 1 {
      CoalescedPrev(m, brk, capacity, bs, fl, head, i);
    } else if lo == i - 1 && hi == i + 2 {
      CoalescedBoth(m, brk, capacity, bs, fl, head, i);
    } else {
      CoalescedAlone(m, brk, capacity, bs, fl, head, i);
    }
  }

  /**
   * coalesce, as a whole: unlink the free neighbours of block i, write the
   * tags of the merged block and push it on the list.  The result has the
   * merged shape, no two free blocks side by side, and a list linked
   * through exactly the free blocks, the merged one first.
   */
  lemma CoalesceCorrect(m0: Mem, brk: int, capacity: int, bs: seq<Blk>, fl: seq<int>, head: int, i: int)
    requires Shape(m0, brk, capacity, bs) && Linked(m0, fl, head)
    requires 0 <= i < |bs| && bs[i].alloc == 0 && NoAdjacentFreeBut(bs, i)
    requires ListSet(fl) == FreeStarts(bs) - {bs[i].bp}
    ensures var c := Coalesced(m0, head, fl, bs[i].bp);
            c.bp == bs[MergeLo(bs, i)].bp &&
            c.list == Minus(fl, FreeStarts(bs[MergeLo(bs, i)..MergeHi(bs, i)])) &&
            Shape(Pushed(c.mem, c.head, c.bp), brk, capacity, Merged(bs, i)) && NoAdjacentFree(Merged(bs, i)) &&
            Linked(Pushed(c.mem, c.head, c.bp), [c.bp] + c.list, c.bp) &&
            ListSet([c.bp] + c.list) == FreeStarts(Merged(bs, i))
  {
    var lo, hi := MergeLo(bs, i), MergeHi(bs, i);
    CoalescedNeighbours(m0, brk, capacity, bs, fl, head, i);
    NeighboursUnlinked(m0, brk, bs, fl, head, i);
    NeighboursListed(brk, bs, fl, i);
    var mD, hD, flD := UnlinkedNeighbours(m0, bs, i), UnlinkedNeighboursHead(m0, head, bs, i), RemovedNeighbours(fl, bs, i);
    CoalesceReady(m0, mD, brk, capacity, bs, i, lo, hi, fl, flD, hD);
    var mF := FuseMem(mD, bs[lo].bp, End(bs[hi - 1]));
    PushLinked(mF, flD, hD, bs[lo].bp);
    CoalesceInsert(m0, mF, Pushed(mF, hD, bs[lo].bp), brk, capacity, bs, i, lo, hi, fl, flD);
  }

  /**
   * After the merged block is pushed on the list, the list holds exactly
   * the free starts of the merged blocks and the tags are intact.
   */
  lemma CoalesceInsert(m0: Mem, mF: Mem, m': Mem, brk: int, capacity: int, bs: seq<Blk>, i: int, lo: int, hi: int,
                       fl: seq<int>, flD: seq<int>)
    requires Shape(m0, brk, capacity, bs) && 0 <= i < |bs| && bs[i].alloc == 0 && NoAdjacentFreeBut(bs, i)
    requires lo == MergeLo(bs, i) && hi == MergeHi(bs, i)
    requires ListSet(fl) == FreeStarts(bs) - {bs[i].bp}
    requires flD == Minus(fl, FreeStarts(bs[lo..hi]))
    requires Shape(mF, brk, capacity, Merged(bs, i))
    requires OnlySlots(mF, m', {bs[lo].bp} + ListSet(flD))
    ensures Shape(m', brk, capacity, Merged(bs, i))
    ensures NoAdjacentFree(Merged(bs, i))
    ensures ListSet([bs[lo].bp] + flD) == FreeStarts(Merged(bs, i))
  {
    MergedNoAdjacent(bs, FIRST, brk, i);
    FusedFree(bs, FIRST, brk, lo, hi);
    MergedHas(bs, i);
    ListMinus(fl, FreeStarts(bs[lo..hi]));
    DropCovered(FreeStarts(bs), FreeStarts(bs[lo..hi]), bs[i].bp);
    ListCons(bs[lo].bp, flD);
    SlotWritesKeepShape(mF, m', brk, capacity, Merged(bs, i), {bs[lo].bp} + ListSet(flD));
  }

  /** A free block's payload address is no allocated block's. */
  lemma FreeStartNotAllocated(bs: seq<Blk>, brk: int, x: int, k: int)
    requires Chain(bs, FIRST, brk) && x in FreeStarts(bs) && 0 <= k < |bs| && bs[k].alloc == 1
    ensures x != bs[k].bp
  {
    var j := FreeStartsIndex(bs, x);
    StartsApart(bs, FIRST, brk, j, k);
  }

  /** Writes to link slots of free blocks leave every allocated payload as it was. */
  lemma SlotsMissPayloads(m: Mem, m': Mem, brk: int, bs: seq<Blk>, S: set<int>)
    requires Chain(bs, FIRST, brk) && FreeMin(bs) && S <= FreeStarts(bs) && OnlySlots(m, m', S)
    ensures PayloadsKept(m, m', AllocatedSet(bs))
  {
    forall b | b in AllocatedSet(bs) ensures Untouched(m, m', b.bp, End(b) - DSIZE) {
      var k :| 0 <= k < |bs| && bs[k] == b;
      Bounds(bs, FIRST, brk, k);
      forall a | b.bp <= a < End(b) - DSIZE ensures Get(m', a) == Get(m, a) {
        if Get(m', a) != Get(m, a) {
          var x := if a in S then a else a - DSIZE;
          FreeStartNotAllocated(bs, brk, x, k);
          FreeStartOutside(bs, FIRST, brk, x, k);
        }
      }
    }
  }

  /** insertblock writes only the link slots of bp, of the old head and of the prologue. */
  lemma PushedOnlySlots(m: Mem, fl: seq<int>, head: int, bp: int)
    requires head == if fl == [] then PROLOGUE else fl[0]
    ensures OnlySlots(m, Pushed(m, head, bp), {bp} + ListSet(fl))
  {
    assert fl != [] ==> fl[0] in ListSet(fl);
  }

  /**
   * coalesce writes link slots of free blocks and the tags of the merged
   * block, which was free: no allocated payload changes.
   */
  lemma CoalesceFrame(m0: Mem, brk: int, capacity: int, bs: seq<Blk>, fl: seq<int>, head: int, i: int)
    requires Shape(m0, brk, capacity, bs) && Linked(m0, fl, head)
    requires 0 <= i < |bs| && bs[i].alloc == 0
    requires ListSet(fl) == FreeStarts(bs) - {bs[i].bp}
    ensures var c := Coalesced(m0, head, fl, bs[i].bp);
            PayloadsKept(m0, Pushed(c.mem, c.head, c.bp), AllocatedSet(bs))
  {
    var lo, hi := MergeLo(bs, i), MergeHi(bs, i);
    CoalescedNeighbours(m0, brk, capacity, bs, fl, head, i);
    NeighboursUnlinked(m0, brk, bs, fl, head, i);
    NeighboursListed(brk, bs, fl, i);
    ListMinus(fl, FreeStarts(bs[lo..hi]));
    FuseFrame(m0, UnlinkedNeighbours(m0, bs, i), brk, bs, fl, RemovedNeighbours(fl, bs, i),
              UnlinkedNeighboursHead(m0, head, bs, i), lo, hi);
  }

  /** The three steps of coalesce in turn: unlink, write the merged tags, push. */
  lemma FuseFrame(m0: Mem, mD: Mem, brk: int, bs: seq<Blk>, fl: seq<int>, flD: seq<int>, hD: int, lo: int, hi: int)
    requires Chain(bs, FIRST, brk) && FreeMin(bs) && 0 <= lo < hi <= |bs|
    requires bs[lo].alloc == 0 && bs[hi - 1].alloc == 0
    requires ListSet(fl) <= FreeStarts(bs) && OnlySlots(m0, mD, ListSet(fl))
    requires hD == (if flD == [] then PROLOGUE else flD[0]) && ListSet(flD) <= ListSet(fl)
    ensures PayloadsKept(m0, Pushed(FuseMem(mD, bs[lo].bp, End(bs[hi - 1])), hD, bs[lo].bp), AllocatedSet(bs))
  {
    var mF := FuseMem(mD, bs[lo].bp, End(bs[hi - 1]));
    SlotsMissPayloads(m0, mD, brk, bs, ListSet(fl));
    FuseKeepsPayloads(mD, FIRST, brk, bs, lo, hi);
    PushedFrame(mF, brk, bs, fl, flD, hD, lo);
    PayloadsKeptTrans(m0, mD, mF, AllocatedSet(bs), AllocatedSet(bs), AllocatedSet(bs));
    PayloadsKeptTrans(m0, mF, Pushed(mF, hD, bs[lo].bp), AllocatedSet(bs), AllocatedSet(bs), AllocatedSet(bs));
  }

  /** insertblock of a free block onto a list of free blocks leaves every allocated payload. */
  lemma PushedFrame(m: Mem, brk: int, bs: seq<Blk>, fl: seq<int>, flD: seq<int>, head: int, lo: int)
    requires Chain(bs, FIRST, brk) && FreeMin(bs) && 0 <= lo < |bs| && bs[lo].alloc == 0
    requires ListSet(fl) <= FreeStarts(bs) && ListSet(flD) <= ListSet(fl)
    requires head == (if flD == [] then PROLOGUE else flD[0])
    ensures PayloadsKept(m, Pushed(m, head, bs[lo].bp), AllocatedSet(bs))
  {
    PushedOnlySlots(m, flD, head, bs[lo].bp);
    FreeStartsHas(bs, lo);
    SlotsMissPayloads(m, Pushed(m, head, bs[lo].bp), brk, bs, {bs[lo].bp} + ListSet(flD));
  }
}
