/**
 * Boundary tags and block address arithmetic (mm.h).
 *
 * The arena is a map from BYTE addresses (offsets from the start of the
 * arena) to the 4-byte words stored there.  A word that was never written
 * reads as 0: freshly grown memory is assumed to be zero.  A block is named
 * by its payload address `bp`; its header is the word just before `bp` and
 * its footer is the last word of the block.
 */
module Tags {

  const WSIZE := 4            // word size
  const DSIZE := 8            // double word size
  const CHUNKSIZE := 16       // initial heap extension
  const OVERHEAD := 8         // header and footer
  const MIN_BLOCK_SIZE := 24  // header, two 8-byte link slots, footer
  const ALIGNMENT := 8
  const NULL := 0             // no block has payload address 0

  /** The largest value of a C `size_t` on the 64-bit targets of the lab. */
  const SIZE_MAX := 0xFFFF_FFFF_FFFF_FFFF

  /** Largest arena the model admits: every tag word fits a C `int`. */
  const MAX_ARENA := 0x4000_0000

  type Mem = map<int, int>

  function Max(x: int, y: int): (r: int)
    ensures r >= x && r >= y
    ensures r == x || r == y
  {
    if x > y then x else y
  }

  function Min(x: int, y: int): (r: int)
    ensures r <= x && r <= y
    ensures r == x || r == y
  {
    if x < y then x else y
  }

  /** ALIGN: round up to the nearest multiple of ALIGNMENT (mm.c, mm1.c). */
  function Align(size: int): (r: int)
    requires size >= 0
    ensures r % ALIGNMENT == 0
    ensures size <= r < size + ALIGNMENT
  {
    (size + (ALIGNMENT - 1)) - (size + (ALIGNMENT - 1)) % ALIGNMENT
  }

  /** GET: the word at byte address p. */
  function Get(m: Mem, p: int): int
  {
    if p in m then m[p] else 0
  }

  /** PUT: store v at byte address p. */
  function Put(m: Mem, p: int, v: int): (m': Mem)
    ensures Get(m', p) == v
  {
    m[p := v]
  }

  /** PUT changes only the word at its address. */
  lemma PutOnly(m: Mem, p: int, v: int, q: int)
    requires q != p
    ensures Get(Put(m, p, v), q) == Get(m, q)
  {
  }

  /**
   * PACK: `size | alloc` for a one-bit alloc, which sets the low bit unless
   * it is already set.  For a size whose low three bits are clear the or is
   * the sum.
   */
  function Pack(size: int, alloc: int): (w: int)
    requires alloc == 0 || alloc == 1
    ensures size % 8 == 0 ==> w == size + alloc
  {
    if alloc == 0 || size % 2 == 1 then size else size + 1
  }

  /**
   * GET_SIZE: the word with its low three bits cleared (`w & ~0x7`), that
   * is the largest multiple of 8 not above w, reached 8 at a time.
   */
  function GetSize(w: int): (s: int)
    ensures s % 8 == 0 && s <= w < s + 8
    decreases if w < 0 then 8 - w else w
  {
    if 0 <= w < 8 then 0
    else if w >= 8 then GetSize(w - 8) + 8
    else GetSize(w + 8) - 8
  }

  /** GET_ALLOC: the low bit of the word (`w & 0x1`), reached 2 at a time. */
  function GetAlloc(w: int): (a: int)
    ensures a == 0 || a == 1
    ensures (w - a) % 2 == 0
    decreases if w < 0 then 2 - w else w
  {
    if 0 <= w < 2 then w
    else if w >= 2 then GetAlloc(w - 2)
    else GetAlloc(w + 2)
  }

  /** HDRP: address of the header of the block at bp. */
  function Hdrp(bp: int): int
  {
    bp - WSIZE
  }

  /** The size field of the header of the block at bp. */
  function SizeAt(m: Mem, bp: int): int
  {
    GetSize(Get(m, Hdrp(bp)))
  }

  /** The allocated bit of the header of the block at bp. */
  function AllocAt(m: Mem, bp: int): int
  {
    GetAlloc(Get(m, Hdrp(bp)))
  }

  /** FTRP: address of the footer, found through the size in the header. */
  function Ftrp(m: Mem, bp: int): int
  {
    bp + SizeAt(m, bp) - DSIZE
  }

  /** NEXT_BLKP: payload address of the following block. */
  function NextBlkp(m: Mem, bp: int): int
  {
    bp + GetSize(Get(m, bp - WSIZE))
  }

  /** PREV_BLKP: payload address of the preceding block, through its footer. */
  function PrevBlkp(m: Mem, bp: int): int
  {
    bp - GetSize(Get(m, bp - DSIZE))
  }

  /** FREE_PREV: address of the predecessor link slot of a free block. */
  function FreePrev(bp: int): int
  {
    bp
  }

  /** FREE_NEXT: address of the successor link slot of a free block. */
  function FreeNext(bp: int): int
  {
    bp + DSIZE
  }

  /** The memory once PUT(HDRP(bp), PACK(size, alloc)) and then PUT(FTRP(bp), PACK(size, alloc)) have run. */
  function TagsWritten(m: Mem, bp: int, size: int, alloc: int): Mem
    requires alloc == 0 || alloc == 1
  {
    var m1 := Put(m, Hdrp(bp), Pack(size, alloc));
    Put(m1, Ftrp(m1, bp), Pack(size, alloc))
  }

  /**
   * FTRP reads the size back from the header just written, so the footer
   * lands on the last word of the block of that size.
   */
  lemma TagsAt(m: Mem, bp: int, size: int, alloc: int)
    requires size % 8 == 0 && (alloc == 0 || alloc == 1)
    ensures TagsWritten(m, bp, size, alloc) ==
            Put(Put(m, Hdrp(bp), Pack(size, alloc)), bp + size - DSIZE, Pack(size, alloc))
  {
    PackRoundTrip(size, alloc);
  }

  /**
   * The two tag writes of a block of known size: the header, then the
   * footer, the last word of the block.
   */
  function Retagged(m: Mem, bp: int, size: int, alloc: int): (m': Mem)
    requires alloc == 0 || alloc == 1
    ensures size % 8 == 0 ==> Get(m', Hdrp(bp)) == Pack(size, alloc) && Get(m', bp + size - DSIZE) == Pack(size, alloc)
  {
    Put(Put(m, Hdrp(bp), Pack(size, alloc)), bp + size - DSIZE, Pack(size, alloc))
  }

  /** The difference of two multiples of 8 is a multiple of 8. */
  lemma AlignedDiff(a: int, b: int)
    requires a % 8 == 0 && b % 8 == 0
    ensures (a - b) % 8 == 0
  {
    assert a - b == 8 * (a / 8 - b / 8);
  }

  /** Two multiples of 8 less than 8 apart are equal. */
  lemma AlignedApart(a: int, b: int)
    requires a % 8 == 0 && b % 8 == 0 && a - 8 < b < a + 8
    ensures a == b
  {
    var x, y := a / 8, b / 8;
    assert a == 8 * x && b == 8 * y;
    assert x - 1 < y < x + 1;
  }

  /** Decoding a packed tag gives back its size and its allocated bit. */
  lemma PackRoundTrip(size: int, alloc: int)
    requires size % 8 == 0 && (alloc == 0 || alloc == 1)
    ensures GetSize(Pack(size, alloc)) == size
    ensures GetAlloc(Pack(size, alloc)) == alloc
  {
    var w := Pack(size, alloc);
    assert w == size + alloc;
    AlignedApart(GetSize(w), size);
    var a := GetAlloc(w);
    assert (size + alloc - a) % 2 == 0;
    assert size % 2 == 0 by { assert size == 2 * (4 * (size / 8)); }
    assert (alloc - a) % 2 == 0 by { assert alloc - a == (size + alloc - a) - 2 * (size / 2); }
  }

  /** Two packed tags are equal exactly when their sizes and bits are. */
  lemma PackInjective(s1: int, a1: int, s2: int, a2: int)
    requires s1 % 8 == 0 && (a1 == 0 || a1 == 1)
    requires s2 % 8 == 0 && (a2 == 0 || a2 == 1)
    ensures Pack(s1, a1) == Pack(s2, a2) <==> s1 == s2 && a1 == a2
  {
    PackRoundTrip(s1, a1);
    PackRoundTrip(s2, a2);
  }

  /**
   * Block geometry: the header is the word before bp, the footer is the
   * word at bp + size - 8, and the header of the next block is the word
   * right after this block's footer.
   */
  lemma BlockGeometry(m: Mem, bp: int)
    ensures Hdrp(bp) == bp - WSIZE
    ensures Ftrp(m, bp) == bp + SizeAt(m, bp) - DSIZE
    ensures Hdrp(NextBlkp(m, bp)) == Ftrp(m, bp) + WSIZE
  {
  }

  /** NEXT_BLKP steps over the size in the header. */
  lemma NextIsEnd(m: Mem, bp: int)
    ensures NextBlkp(m, bp) == bp + SizeAt(m, bp)
  {
  }

  /**
   * When the footer of bp repeats the size of its header, stepping to the
   * next block and back again returns to bp.
   */
  lemma PrevOfNext(m: Mem, bp: int)
    requires GetSize(Get(m, Ftrp(m, bp))) == SizeAt(m, bp)
    ensures PrevBlkp(m, NextBlkp(m, bp)) == bp
  {
  }

  /**
   * The two 8-byte link slots of a free block are disjoint and, with the
   * header before them and the footer after them, fill a minimum block.
   */
  lemma LinkSlotsFit(bp: int)
    ensures Hdrp(bp) + WSIZE == FreePrev(bp)
    ensures FreePrev(bp) + DSIZE == FreeNext(bp)
    ensures FreeNext(bp) + DSIZE == bp + MIN_BLOCK_SIZE - DSIZE
    ensures WSIZE + DSIZE + DSIZE + WSIZE == MIN_BLOCK_SIZE
  {
  }
}
