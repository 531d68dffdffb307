/**
 * The placement policy of mm1.c: next fit.  The search starts at the
 * block the rover stands on, runs to the epilogue, then wraps around to
 * the start of the heap and stops at the block it started from; the
 * first free block large enough wins.  Stated over the block sequence.
 */
module NextFit {
  import opened Tags
  import opened Layout
  import opened Requests
  import opened ImplicitHeap

  /** find_fit's test: the block is free and holds asize bytes. */
  predicate Fits(b: Blk, asize: int)
  {
    b.alloc == 0 && asize <= b.size
  }

  /** The first block in bs[k..hi] that fits asize, or hi when none does. */
  function FitFrom(bs: seq<Blk>, k: int, hi: int, asize: int): (r: int)
    requires 0 <= k <= hi <= |bs|
    ensures k <= r <= hi
    ensures r < hi ==> Fits(bs[r], asize)
    ensures forall j :: k <= j < r ==> !Fits(bs[j], asize)
    decreases hi - k
  {
    if k == hi then hi
    else if Fits(bs[k], asize) then k
    else FitFrom(bs, k + 1, hi, asize)
  }

  /**
   * The block next fit chooses with the rover on block ri (ri == |bs| is
   * the epilogue): the first fit from ri to the end, else the first fit
   * from the start up to ri; None when no block fits.
   */
  function NextFitIndex(bs: seq<Blk>, ri: int, asize: int): (r: Option<int>)
    requires 0 <= ri <= |bs|
    ensures r.Some? ==> 0 <= r.value < |bs| && Fits(bs[r.value], asize)
    ensures r.None? <==> forall j :: 0 <= j < |bs| ==> !Fits(bs[j], asize)
    ensures r.Some? && ri <= r.value ==> forall j :: ri <= j < r.value ==> !Fits(bs[j], asize)
    ensures r.Some? && r.value < ri ==>
              (forall j :: ri <= j < |bs| ==> !Fits(bs[j], asize)) && forall j :: 0 <= j < r.value ==> !Fits(bs[j], asize)
  {
    var a := FitFrom(bs, ri, |bs|, asize);
    if a < |bs| then Some(a)
    else
      var b := FitFrom(bs, 0, ri, asize);
      if b < ri then Some(b) else None
  }

  /** The first block of s that fits: first fit over the whole sequence. */
  function FirstFitIndex(s: seq<Blk>, asize: int): (r: Option<int>)
    ensures r.Some? ==> 0 <= r.value < |s| && Fits(s[r.value], asize)
    ensures r.Some? ==> forall j :: 0 <= j < r.value ==> !Fits(s[j], asize)
    ensures r.None? ==> forall j :: 0 <= j < |s| ==> !Fits(s[j], asize)
  {
    var a := FitFrom(s, 0, |s|, asize);
    if a < |s| then Some(a) else None
  }

  /** Any index that fits with no fitting block before it in bs[k..hi] is the one FitFrom finds. */
  lemma FitFromUnique(bs: seq<Blk>, k: int, hi: int, asize: int, r: int)
    requires 0 <= k <= r <= hi <= |bs|
    requires r < hi ==> Fits(bs[r], asize)
    requires forall j :: k <= j < r ==> !Fits(bs[j], asize)
    ensures FitFrom(bs, k, hi, asize) == r
  {
  }

  /** The blocks read cyclically from block ri: bs[ri..] followed by bs[..ri]. */
  ghost function Rotated(bs: seq<Blk>, ri: int): (rot: seq<Blk>)
    requires 0 <= ri <= |bs|
    ensures |rot| == |bs|
    ensures forall p :: 0 <= p < |bs| - ri ==> rot[p] == bs[ri + p]
    ensures forall p :: |bs| - ri <= p < |bs| ==> rot[p] == bs[ri + p - |bs|]
  {
    bs[ri..] + bs[..ri]
  }

  /**
   * Next fit is first fit over the blocks read cyclically from the rover:
   * position p of the rotated sequence is block ri + p, wrapped past the
   * last block to the first.
   */
  lemma NextFitRotated(bs: seq<Blk>, ri: int, asize: int)
    requires 0 <= ri < |bs|
    ensures var f := FirstFitIndex(Rotated(bs, ri), asize);
            var n := NextFitIndex(bs, ri, asize);
            (n.None? <==> f.None?) &&
            (n.Some? ==> n.value == if ri + f.value < |bs| then ri + f.value else ri + f.value - |bs|)
  {
    var rot := Rotated(bs, ri);
    var n := NextFitIndex(bs, ri, asize);
    if n.Some? {
      var p := if ri <= n.value then n.value - ri else |bs| - ri + n.value;
      assert rot[p] == bs[n.value];
      forall q | 0 <= q < p ensures !Fits(rot[q], asize) {
        if q < |bs| - ri {
          assert rot[q] == bs[ri + q];
        } else {
          assert rot[q] == bs[ri + q - |bs|];
        }
      }
      FitFromUnique(rot, 0, |rot|, asize, p);
    } else {
      FitFromUnique(rot, 0, |rot|, asize, |rot|);
    }
  }

  /** With the rover on the first block, next fit is plain first fit, the search mm1.c compiles out. */
  lemma NextFitFromStart(bs: seq<Blk>, asize: int)
    ensures NextFitIndex(bs, 0, asize) == FirstFitIndex(bs, asize)
  {
  }

  /**
   * What mm_malloc returns for a request of size bytes on an initialised
   * heap bs with the rover on block ri and the break at brk0 (the break
   * after the call is brk): NULL for 0 bytes or a request too large for a
   * size_t; else the block next fit chooses, without growing; else the
   * start of the block extend_heap adds (merged with a free last block),
   * once the arena has grown by MAX(asize, CHUNKSIZE) bytes; else NULL.
   */
  ghost predicate MallocChoice(bs: seq<Blk>, ri: int, brk0: int, capacity: int, size: int, bp: int, brk: int)
    requires 0 <= ri <= |bs| && 0 <= size <= SIZE_MAX
  {
    (size == 0 || AdjustedSizeImplicit(size).None? ==> bp == NULL) &&
    (size > 0 && AdjustedSizeImplicit(size).Some? ==>
       var asize := AdjustedSizeImplicit(size).value;
       var fit := NextFitIndex(bs, ri, asize);
       var grow := Max(asize, CHUNKSIZE);
       (fit.Some? ==> bp == bs[fit.value].bp && brk == brk0) &&
       (fit.None? && brk0 + grow <= capacity ==> bp == GrownStart(bs, brk0) && brk == brk0 + grow) &&
       (fit.None? && brk0 + grow > capacity ==> bp == NULL && brk == brk0))
  }

  /**
   * The heap mm_init leaves in an arena of capacity bytes (at least the 16
   * bytes of the prologue and epilogue): the prologue, followed by a free
   * block of CHUNKSIZE bytes when the arena had room for it.
   */
  ghost function InitBlocks(capacity: int): seq<Blk>
  {
    if HEAP_LISTP + DSIZE + CHUNKSIZE <= capacity then [PROLOGUE_BLK, Blk(HEAP_LISTP + DSIZE, CHUNKSIZE, 0)]
    else [PROLOGUE_BLK]
  }

  /** The break mm_init leaves along with InitBlocks. */
  function InitBrk(capacity: int): int
  {
    if HEAP_LISTP + DSIZE + CHUNKSIZE <= capacity then HEAP_LISTP + DSIZE + CHUNKSIZE else HEAP_LISTP + DSIZE
  }

  /**
   * The blocks mm_malloc leaves once it has placed asize bytes with the
   * rover on block ri: the block next fit chooses, split or taken whole;
   * or else the block extend_heap grew by MAX(asize, CHUNKSIZE) bytes,
   * split or taken whole.
   */
  ghost function MallocBlocks(bs: seq<Blk>, ri: int, brk0: int, asize: int): seq<Blk>
    requires 0 <= ri <= |bs|
  {
    var fit := NextFitIndex(bs, ri, asize);
    if fit.Some? then Placed(bs, fit.value, asize)
    else
      var g := GrownBlocks(bs, brk0, Max(asize, CHUNKSIZE));
      Placed(g, |g| - 1, asize)
  }

  /**
   * Where mm_malloc leaves the rover: on the block next fit chose; or else
   * where coalescing the grown block moved it, since place leaves it be.
   */
  function MallocRover(bs: seq<Blk>, ri: int, rover: int, brk0: int, asize: int): int
    requires 0 <= ri <= |bs|
  {
    var fit := NextFitIndex(bs, ri, asize);
    if fit.Some? then bs[fit.value].bp
    else RoverFixed(bs + [Blk(brk0, Max(asize, CHUNKSIZE), 0)], |bs|, rover)
  }

  /** The index in MallocBlocks of the block MallocRover stands on. */
  ghost function MallocRoverIndex(bs: seq<Blk>, ri: int, brk0: int, asize: int): int
    requires 0 <= ri <= |bs|
  {
    var fit := NextFitIndex(bs, ri, asize);
    if fit.Some? then fit.value
    else
      var grown := bs + [Blk(brk0, Max(asize, CHUNKSIZE), 0)];
      var g := Merged(grown, |bs|);
      PlacedRover(g, |g| - 1, asize, MergedRover(grown, |bs|, ri))
  }

  /**
   * The whole outcome of mm_malloc on an initialised heap bs with the
   * rover at rover (block ri) and the break at brk0: MallocChoice's
   * pointer and break, and the blocks and rover left behind; a NULL
   * result leaves both as they were.
   */
  ghost predicate MallocResult(bs0: seq<Blk>, ri0: int, rover0: int, brk0: int, capacity: int, size: int,
                               bp: int, brk: int, bs: seq<Blk>, ri: int, rover: int)
    requires 0 <= ri0 <= |bs0| && 0 <= size <= SIZE_MAX
  {
    MallocChoice(bs0, ri0, brk0, capacity, size, bp, brk) &&
    (bp == NULL ==> bs == bs0 && ri == ri0 && rover == rover0) &&
    (bp != NULL && AdjustedSizeImplicit(size).Some? ==>
       var asize := AdjustedSizeImplicit(size).value;
       bs == MallocBlocks(bs0, ri0, brk0, asize) && ri == MallocRoverIndex(bs0, ri0, brk0, asize) &&
       rover == MallocRover(bs0, ri0, rover0, brk0, asize))
  }

  /** mm_malloc's outcome when next fit finds block k and place allocates it. */
  lemma MallocFits(bs0: seq<Blk>, ri0: int, rover0: int, brk0: int, capacity: int, size: int, asize: int,
                   bp: int, bs: seq<Blk>, ri: int, rover: int)
    requires 0 <= ri0 <= |bs0| && 0 < size <= SIZE_MAX && AdjustedSizeImplicit(size) == Some(asize)
    requires NextFitIndex(bs0, ri0, asize).Some?
    requires var k := NextFitIndex(bs0, ri0, asize).value;
             bp == bs0[k].bp && bp != NULL && bs == Placed(bs0, k, asize) && ri == k && rover == bp
    ensures MallocResult(bs0, ri0, rover0, brk0, capacity, size, bp, brk0, bs, ri, rover)
  {
  }

  /** mm_malloc's outcome when nothing fits and extend_heap grows the arena. */
  lemma MallocGrows(bs0: seq<Blk>, ri0: int, rover0: int, brk0: int, capacity: int, size: int, asize: int,
                    bp: int, brk: int, bs: seq<Blk>, ri: int, rover: int)
    requires 0 <= ri0 <= |bs0| && 0 < size <= SIZE_MAX && AdjustedSizeImplicit(size) == Some(asize)
    requires NextFitIndex(bs0, ri0, asize).None? && brk0 + Max(asize, CHUNKSIZE) <= capacity
    requires bp == GrownStart(bs0, brk0) && bp != NULL && brk == brk0 + Max(asize, CHUNKSIZE)
    requires var grown := bs0 + [Blk(brk0, Max(asize, CHUNKSIZE), 0)];
             var g := Merged(grown, |bs0|);
             bs == Placed(g, |g| - 1, asize) && rover == RoverFixed(grown, |bs0|, rover0) &&
             ri == PlacedRover(g, |g| - 1, asize, MergedRover(grown, |bs0|, ri0))
    ensures MallocResult(bs0, ri0, rover0, brk0, capacity, size, bp, brk, bs, ri, rover)
  {
  }

  /** mm_malloc's outcome when nothing fits and the arena cannot grow: NULL, nothing changed. */
  lemma MallocFails(bs0: seq<Blk>, ri0: int, rover0: int, brk0: int, capacity: int, size: int, asize: int)
    requires 0 <= ri0 <= |bs0| && 0 < size <= SIZE_MAX && AdjustedSizeImplicit(size) == Some(asize)
    requires NextFitIndex(bs0, ri0, asize).None? && brk0 + Max(asize, CHUNKSIZE) > capacity
    ensures MallocResult(bs0, ri0, rover0, brk0, capacity, size, NULL, brk0, bs0, ri0, rover0)
  {
  }

  /**
   * The blocks and rover mm_realloc leaves when it moves block ptr to a
   * new block of asize bytes: those mm_malloc leaves, with the old block
   * then freed and coalesced, and the rover moved out of the merge.
   */
  ghost predicate MovedResult(bs0: seq<Blk>, ri0: int, rover0: int, brk0: int, asize: int, ptr: int, bs: seq<Blk>, rover: int)
    requires 0 <= ri0 <= |bs0|
  {
    var bs1 := MallocBlocks(bs0, ri0, brk0, asize);
    var k := IndexOf(bs1, ptr);
    k < |bs1| &&
    var released := bs1[k := Blk(ptr, bs1[k].size, 0)];
    bs == Merged(released, k) && rover == RoverFixed(released, k, MallocRover(bs0, ri0, rover0, brk0, asize))
  }
}
