/**
 * The abstract view of an arena shared by both allocators: a sequence of
 * blocks laid end to end, each framed by a header and a footer that carry
 * its size and its allocated bit; the fusing of neighbouring free blocks
 * that both coalesce routines perform; and what a change of the arena
 * leaves of the payloads the program holds.
 */
module Layout {
  import opened Tags

  /** A block as its boundary tags describe it. */
  datatype Blk = Blk(bp: int, size: int, alloc: int)

  /** Payload address of the block that follows b. */
  function End(b: Blk): int
  {
    b.bp + b.size
  }

  /** Double-word aligned, a positive multiple of 8 bytes, a 0/1 alloc bit. */
  ghost predicate Shaped(b: Blk)
  {
    b.bp % DSIZE == 0 && b.size % DSIZE == 0 && b.size >= DSIZE && (b.alloc == 0 || b.alloc == 1)
  }

  /** Header and footer of b both hold PACK(size, alloc). */
  ghost predicate Tagged(m: Mem, b: Blk)
  {
    Shaped(b) &&
    Get(m, Hdrp(b.bp)) == Pack(b.size, b.alloc) &&
    Get(m, End(b) - DSIZE) == Pack(b.size, b.alloc)
  }

  /** The blocks of bs follow each other without gaps from start to end. */
  ghost predicate Chain(bs: seq<Blk>, start: int, end: int)
  {
    (forall i :: 0 <= i < |bs| ==> Shaped(bs[i])) &&
    (if |bs| == 0 then start == end else bs[0].bp == start && End(bs[|bs| - 1]) == end) &&
    (forall i :: 0 < i < |bs| ==> bs[i].bp == End(bs[i - 1]))
  }

  /** The chain is written into memory: every block carries matching tags. */
  ghost predicate Tiled(m: Mem, bs: seq<Blk>, start: int, end: int)
  {
    Chain(bs, start, end) && forall i :: 0 <= i < |bs| ==> Tagged(m, bs[i])
  }

  /** Every free block can hold the two link slots. */
  ghost predicate FreeMin(bs: seq<Blk>)
  {
    forall i :: 0 <= i < |bs| && bs[i].alloc == 0 ==> bs[i].size >= MIN_BLOCK_SIZE
  }

  /** No two neighbouring blocks are both free. */
  ghost predicate NoAdjacentFree(bs: seq<Blk>)
  {
    forall i :: 0 < i < |bs| ==> bs[i - 1].alloc == 1 || bs[i].alloc == 1
  }

  /** Payload address of block i, or end when i is one past the last block. */
  function Mid(bs: seq<Blk>, i: int, end: int): int
    requires 0 <= i <= |bs|
  {
    if i < |bs| then bs[i].bp else end
  }

  /**
   * Where the block extend_heap adds ends up once coalesced: at the start
   * of the last block when that one is free, else at the old break.
   */
  function GrownStart(bs: seq<Blk>, brk: int): int
  {
    if |bs| > 0 && bs[|bs| - 1].alloc == 0 then bs[|bs| - 1].bp else brk
  }

  /** The index of the first block starting at p, or |bs| when none does. */
  function IndexOf(bs: seq<Blk>, p: int): (k: int)
    ensures 0 <= k <= |bs|
    ensures k < |bs| ==> bs[k].bp == p
    ensures forall t :: 0 <= t < k ==> bs[t].bp != p
  {
    if bs == [] then 0 else if bs[0].bp == p then 0 else 1 + IndexOf(bs[1..], p)
  }

  /** The payload addresses of the free blocks. */
  ghost function FreeStarts(bs: seq<Blk>): set<int>
    decreases |bs|
  {
    if bs == [] then {} else (if bs[0].alloc == 0 then {bs[0].bp} else {}) + FreeStarts(bs[1..])
  }

  /** Blocks further along the chain start after earlier blocks end. */
  lemma {:induction false} Ordered(bs: seq<Blk>, start: int, end: int, j: int, i: int)
    requires Chain(bs, start, end)
    requires 0 <= j < i < |bs|
    ensures End(bs[j]) <= bs[i].bp
    decreases i - j
  {
    if j + 1 < i {
      Ordered(bs, start, end, j + 1, i);
    }
  }

  /** Every block of a chain lies between its start and its end. */
  lemma Bounds(bs: seq<Blk>, start: int, end: int, i: int)
    requires Chain(bs, start, end)
    requires 0 <= i < |bs|
    ensures start <= bs[i].bp && End(bs[i]) <= end
  {
    if 0 < i {
      Ordered(bs, start, end, 0, i);
    }
    if i < |bs| - 1 {
      Ordered(bs, start, end, i, |bs| - 1);
    }
  }

  /** A chain cut at block i gives two chains meeting at Mid(bs, i, end). */
  lemma ChainSplit(bs: seq<Blk>, start: int, end: int, i: int)
    requires Chain(bs, start, end)
    requires 0 <= i <= |bs|
    ensures Chain(bs[..i], start, Mid(bs, i, end))
    ensures Chain(bs[i..], Mid(bs, i, end), end)
  {
  }

  /** Two chains that meet form one chain. */
  lemma ChainJoin(a: seq<Blk>, b: seq<Blk>, start: int, mid: int, end: int)
    requires Chain(a, start, mid) && Chain(b, mid, end)
    ensures Chain(a + b, start, end)
  {
    var r := a + b;
    forall i | 0 < i < |r| ensures r[i].bp == End(r[i - 1]) {
      if i == |a| {
        assert r[i] == b[0];
        assert r[i - 1] == a[|a| - 1];
      }
    }
  }

  /**
   * Replacing blocks i..k-1 by a chain nbs written over the same span (or,
   * when k is the last index, over a span that reaches a new end) keeps the
   * arena tiled, provided no word outside that span changed.
   */
  lemma Splice(m: Mem, m': Mem, bs: seq<Blk>, start: int, end: int, end': int,
               i: int, k: int, nbs: seq<Blk>)
    requires Tiled(m, bs, start, end)
    requires 0 <= i <= k <= |bs|
    requires k < |bs| ==> end' == end
    requires Tiled(m', nbs, Mid(bs, i, end), Mid(bs, k, end'))
    requires forall a :: a < Mid(bs, i, end) - WSIZE || Mid(bs, k, end') - WSIZE <= a ==> Get(m', a) == Get(m, a)
    ensures Tiled(m', bs[..i] + nbs + bs[k..], start, end')
  {
    forall j | 0 <= j < i || k <= j < |bs| ensures Tagged(m', bs[j]) {
      assert Tagged(m, bs[j]);
      if j < i && i < |bs| {
        Ordered(bs, start, end, j, i);
      } else if j < i {
        Bounds(bs, start, end, j);
      } else if k < j {
        Ordered(bs, start, end, k, j);
      }
    }
    SpliceTags(m', bs, start, end, end', i, k, nbs);
  }

  /**
   * The same, for a caller that has shown by other means that the blocks
   * outside i..k-1 still carry their tags.
   */
  lemma SpliceTags(m': Mem, bs: seq<Blk>, start: int, end: int, end': int,
                   i: int, k: int, nbs: seq<Blk>)
    requires Chain(bs, start, end)
    requires 0 <= i <= k <= |bs|
    requires k < |bs| ==> end' == end
    requires Tiled(m', nbs, Mid(bs, i, end), Mid(bs, k, end'))
    requires forall j :: 0 <= j < i || k <= j < |bs| ==> Tagged(m', bs[j])
    ensures Tiled(m', bs[..i] + nbs + bs[k..], start, end')
  {
    var lo, hi := Mid(bs, i, end), Mid(bs, k, end');
    ChainSplit(bs, start, end, i);
    ChainSplit(bs, start, end, k);
    assert Chain(bs[k..], hi, end');
    ChainJoin(bs[..i], nbs, start, lo, hi);
    ChainJoin(bs[..i] + nbs, bs[k..], start, hi, end');
    var r := bs[..i] + nbs + bs[k..];
    forall j | 0 <= j < |r| ensures Tagged(m', r[j]) {
      if j < i {
        assert r[j] == bs[j];
      } else if j < i + |nbs| {
        assert r[j] == nbs[j - i];
      } else {
        assert r[j] == bs[j - i - |nbs| + k];
      }
    }
  }

  /** A single block is a chain of its own. */
  lemma ChainOne(b: Blk)
    requires Shaped(b)
    ensures Chain([b], b.bp, End(b))
  {
  }

  lemma {:induction false} FreeStartsConcat(a: seq<Blk>, b: seq<Blk>)
    ensures FreeStarts(a + b) == FreeStarts(a) + FreeStarts(b)
    decreases |a|
  {
    if a == [] {
      assert a + b == b;
    } else {
      assert (a + b)[1..] == a[1..] + b;
      FreeStartsConcat(a[1..], b);
    }
  }

  lemma FreeStartsOne(b: Blk)
    ensures FreeStarts([b]) == if b.alloc == 0 then {b.bp} else {}
  {
    assert [b][1..] == [];
  }

  /** Every free start is the payload address of some free block. */
  lemma {:induction false} FreeStartsIndex(bs: seq<Blk>, x: int) returns (i: int)
    requires x in FreeStarts(bs)
    ensures 0 <= i < |bs| && bs[i].bp == x && bs[i].alloc == 0
    decreases |bs|
  {
    if bs[0].alloc == 0 && bs[0].bp == x {
      i := 0;
    } else {
      var j := FreeStartsIndex(bs[1..], x);
      i := j + 1;
    }
  }

  /** Every free block contributes its payload address. */
  lemma {:induction false} FreeStartsHas(bs: seq<Blk>, i: int)
    requires 0 <= i < |bs| && bs[i].alloc == 0
    ensures bs[i].bp in FreeStarts(bs)
    decreases |bs|
  {
    if i > 0 {
      FreeStartsHas(bs[1..], i - 1);
      assert bs[1..][i - 1] == bs[i];
    }
  }

  /**
   * The link slots FREE_PREV and FREE_NEXT of a free block lie strictly
   * inside it: they are never the header or the footer of any block, nor
   * the epilogue word at end - 4.
   */
  lemma SlotsAvoidTags(bs: seq<Blk>, start: int, end: int, x: int, j: int)
    requires Chain(bs, start, end) && FreeMin(bs)
    requires x in FreeStarts(bs)
    requires 0 <= j < |bs|
    ensures FreePrev(x) != Hdrp(bs[j].bp) && FreePrev(x) != End(bs[j]) - DSIZE
    ensures FreeNext(x) != Hdrp(bs[j].bp) && FreeNext(x) != End(bs[j]) - DSIZE
    ensures start <= x && x + MIN_BLOCK_SIZE <= end
  {
    var i := FreeStartsIndex(bs, x);
    if j < i {
      Ordered(bs, start, end, j, i);
    } else if i < j {
      Ordered(bs, start, end, i, j);
    }
    Bounds(bs, start, end, i);
  }

  /** Distinct free blocks are at least a minimum block apart. */
  lemma FreeStartsSpaced(bs: seq<Blk>, start: int, end: int, x: int, y: int)
    requires Chain(bs, start, end) && FreeMin(bs)
    requires x in FreeStarts(bs) && y in FreeStarts(bs) && x != y
    ensures x + MIN_BLOCK_SIZE <= y || y + MIN_BLOCK_SIZE <= x
  {
    var i := FreeStartsIndex(bs, x);
    var j := FreeStartsIndex(bs, y);
    if i < j {
      Ordered(bs, start, end, i, j);
    } else {
      Ordered(bs, start, end, j, i);
    }
  }

  /** Free starts of a chain lie within it. */
  lemma FreeStartsWithin(bs: seq<Blk>, start: int, end: int, x: int)
    requires Chain(bs, start, end) && FreeMin(bs)
    requires x in FreeStarts(bs)
    ensures start <= x && x + MIN_BLOCK_SIZE <= end
  {
    var i := FreeStartsIndex(bs, x);
    Bounds(bs, start, end, i);
  }

  /**
   * The free starts after replacing blocks lo..hi-1 by nbs: those of the
   * replaced blocks go, those of nbs come.
   */
  lemma FreeStartsSplice(bs: seq<Blk>, lo: int, hi: int, nbs: seq<Blk>)
    requires 0 <= lo <= hi <= |bs|
    ensures FreeStarts(bs) == FreeStarts(bs[..lo]) + FreeStarts(bs[lo..hi]) + FreeStarts(bs[hi..])
    ensures FreeStarts(bs[..lo] + nbs + bs[hi..]) == FreeStarts(bs[..lo]) + FreeStarts(nbs) + FreeStarts(bs[hi..])
  {
    assert bs == bs[..lo] + bs[lo..hi] + bs[hi..];
    FreeStartsConcat(bs[..lo], bs[lo..hi]);
    FreeStartsConcat(bs[..lo] + bs[lo..hi], bs[hi..]);
    FreeStartsConcat(bs[..lo], nbs);
    FreeStartsConcat(bs[..lo] + nbs, bs[hi..]);
  }

  /** Free starts before block lo, of blocks lo..hi-1, and from block hi on are apart. */
  lemma FreeStartsParts(bs: seq<Blk>, start: int, end: int, lo: int, hi: int)
    requires Chain(bs, start, end) && FreeMin(bs)
    requires 0 <= lo <= hi <= |bs|
    ensures forall x :: x in FreeStarts(bs[..lo]) ==> x + MIN_BLOCK_SIZE <= Mid(bs, lo, end)
    ensures forall x :: x in FreeStarts(bs[lo..hi]) ==> Mid(bs, lo, end) <= x && x + MIN_BLOCK_SIZE <= Mid(bs, hi, end)
    ensures forall x :: x in FreeStarts(bs[hi..]) ==> Mid(bs, hi, end) <= x
  {
    SliceWithin(bs, start, end, 0, lo);
    SliceWithin(bs, start, end, lo, hi);
    SliceWithin(bs, start, end, hi, |bs|);
    assert bs[..lo] == bs[0..lo] && bs[hi..] == bs[hi..|bs|];
  }

  /** The free starts of blocks a..b-1 lie between the start of block a and the start of block b. */
  lemma SliceWithin(bs: seq<Blk>, start: int, end: int, a: int, b: int)
    requires Chain(bs, start, end) && FreeMin(bs)
    requires 0 <= a <= b <= |bs|
    ensures forall x :: x in FreeStarts(bs[a..b]) ==> Mid(bs, a, end) <= x && x + MIN_BLOCK_SIZE <= Mid(bs, b, end)
  {
    ChainSplit(bs, start, end, a);
    ChainSplit(bs[a..], Mid(bs, a, end), end, b - a);
    assert bs[a..][..b - a] == bs[a..b];
    assert Mid(bs[a..], b - a, end) == Mid(bs, b, end);
    assert FreeMin(bs[a..b]);
    forall x | x in FreeStarts(bs[a..b]) ensures Mid(bs, a, end) <= x && x + MIN_BLOCK_SIZE <= Mid(bs, b, end) {
      FreeStartsWithin(bs[a..b], Mid(bs, a, end), Mid(bs, b, end), x);
    }
  }

  /** The free starts of blocks lo..hi-1 are none of those before or after them. */
  lemma FreeStartsDisjoint(bs: seq<Blk>, start: int, end: int, lo: int, hi: int)
    requires Chain(bs, start, end) && FreeMin(bs)
    requires 0 <= lo <= hi <= |bs|
    ensures FreeStarts(bs[..lo]) !! FreeStarts(bs[lo..hi])
    ensures FreeStarts(bs[hi..]) !! FreeStarts(bs[lo..hi])
  {
    FreeStartsParts(bs, start, end, lo, hi);
    forall x | x in FreeStarts(bs[lo..hi]) ensures x !in FreeStarts(bs[..lo]) && x !in FreeStarts(bs[hi..]) {
    }
  }

  /** A free start other than block i's payload address lies outside block i. */
  lemma FreeStartOutside(bs: seq<Blk>, start: int, end: int, x: int, i: int)
    requires Chain(bs, start, end) && FreeMin(bs)
    requires x in FreeStarts(bs)
    requires 0 <= i < |bs| && x != bs[i].bp
    ensures x + MIN_BLOCK_SIZE <= bs[i].bp || End(bs[i]) <= x
  {
    var j := FreeStartsIndex(bs, x);
    if j < i {
      Ordered(bs, start, end, j, i);
    } else {
      Ordered(bs, start, end, i, j);
    }
  }

  /** The tags of a tagged block read back as its size and its allocated bit. */
  lemma TagsRead(m: Mem, b: Blk)
    requires Tagged(m, b)
    ensures SizeAt(m, b.bp) == b.size && AllocAt(m, b.bp) == b.alloc
    ensures GetSize(Get(m, End(b) - DSIZE)) == b.size && GetAlloc(Get(m, End(b) - DSIZE)) == b.alloc
  {
    PackRoundTrip(b.size, b.alloc);
  }

  /** The allocated blocks: what the callers of malloc hold. */
  ghost function AllocatedSet(bs: seq<Blk>): set<Blk>
  {
    set b | b in bs && b.alloc == 1
  }

  /** No word in [lo, hi) changed. */
  ghost predicate Untouched(m: Mem, m': Mem, lo: int, hi: int)
  {
    forall a :: lo <= a < hi ==> Get(m', a) == Get(m, a)
  }

  /** The payload of every block of A reads as it did. */
  ghost predicate PayloadsKept(m: Mem, m': Mem, A: set<Blk>)
  {
    forall b :: b in A ==> Untouched(m, m', b.bp, End(b) - DSIZE)
  }

  /**
   * The len byte addresses from dst on read in m' what the len byte
   * addresses from src on read in m.  The arena maps each address to a
   * word, so this is a byte copy only where the words stand one per byte.
   */
  ghost predicate Copied(m: Mem, m': Mem, src: int, dst: int, len: int)
  {
    forall a :: dst <= a < dst + len ==> Get(m', a) == Get(m, a - dst + src)
  }

  /**
   * memcpy of n bytes: the entries at the byte addresses src..src+n-1 are
   * copied to dst..dst+n-1, ranges that do not overlap.  Each address
   * carries a whole map entry, not one byte of one.
   */
  method MemCpy(m: Mem, dst: int, src: int, n: int) returns (m': Mem)
    requires 0 <= n && (dst + n <= src || src + n <= dst)
    ensures Copied(m, m', src, dst, n)
    ensures forall a :: a < dst || dst + n <= a ==> Get(m', a) == Get(m, a)
  {
    m' := m;
    var t := 0;
    while t < n
      invariant 0 <= t <= n
      invariant forall a :: dst <= a < dst + t ==> Get(m', a) == Get(m, a - dst + src)
      invariant forall a :: a < dst || dst + t <= a ==> Get(m', a) == Get(m, a)
    {
      assert Get(m', src + t) == Get(m, src + t);
      var before := m';
      m' := Put(m', dst + t, Get(m', src + t));
      forall a | a != dst + t ensures Get(m', a) == Get(before, a) {
        PutOnly(before, dst + t, Get(before, src + t), a);
      }
      t := t + 1;
    }
  }

  /**
   * The bytes of block b's payload, kept while malloc ran, copied to the
   * start of block g and kept there while b was freed, read at g as they
   * read at b before.
   */
  lemma MovedPayload(m0: Mem, m1: Mem, m2: Mem, m3: Mem, b: Blk, g: Blk, src: int, dst: int, n: int, len: int)
    requires src == b.bp && dst == g.bp && 0 <= len <= b.size - DSIZE && len <= n && dst + n <= End(g) - DSIZE
    requires Untouched(m0, m1, b.bp, End(b) - DSIZE)
    requires Copied(m1, m2, src, dst, n)
    requires Untouched(m2, m3, g.bp, End(g) - DSIZE)
    ensures Copied(m0, m3, src, dst, len)
  {
    forall a | dst <= a < dst + len ensures Get(m3, a) == Get(m0, a - dst + src) {
      assert Get(m3, a) == Get(m2, a);
      assert Get(m2, a) == Get(m1, a - dst + src);
    }
  }

  /** A range untouched by two rounds of changes is untouched by both. */
  lemma UntouchedTrans(m0: Mem, m1: Mem, m2: Mem, lo: int, hi: int)
    requires Untouched(m0, m1, lo, hi) && Untouched(m1, m2, lo, hi)
    ensures Untouched(m0, m2, lo, hi)
  {
  }

  /** Payloads kept through two rounds of changes are kept through both. */
  lemma PayloadsKeptTrans(m0: Mem, m1: Mem, m2: Mem, A: set<Blk>, B: set<Blk>, C: set<Blk>)
    requires PayloadsKept(m0, m1, A) && PayloadsKept(m1, m2, B) && C <= A && C <= B
    ensures PayloadsKept(m0, m2, C)
  {
    forall b | b in C ensures Untouched(m0, m2, b.bp, End(b) - DSIZE) {
      assert Untouched(m0, m1, b.bp, End(b) - DSIZE) && Untouched(m1, m2, b.bp, End(b) - DSIZE);
    }
  }

  /** A write outside every payload of A keeps them. */
  lemma PutKeepsPayloads(m: Mem, a: int, v: int, A: set<Blk>)
    requires forall b :: b in A ==> a < b.bp || End(b) - DSIZE <= a
    ensures PayloadsKept(m, Put(m, a, v), A)
  {
  }

  /** Different blocks of a chain start at different addresses. */
  lemma StartsApart(bs: seq<Blk>, start: int, end: int, j: int, k: int)
    requires Chain(bs, start, end) && 0 <= j < |bs| && 0 <= k < |bs| && j != k
    ensures bs[j].bp != bs[k].bp
  {
    if j < k {
      Ordered(bs, start, end, j, k);
    } else {
      Ordered(bs, start, end, k, j);
    }
  }

  /** In a chain no two blocks start at the same address, so IndexOf finds block j itself. */
  lemma IndexOfChain(bs: seq<Blk>, start: int, end: int, j: int)
    requires Chain(bs, start, end) && 0 <= j < |bs|
    ensures IndexOf(bs, bs[j].bp) == j
  {
    var k := IndexOf(bs, bs[j].bp);
    if k < j {
      StartsApart(bs, start, end, j, k);
    }
  }

  /**
   * A word within the span of block j, from its header to its last word,
   * lies outside the payload of every other allocated block.
   */
  lemma SpanMissesPayloads(bs: seq<Blk>, start: int, end: int, j: int, a: int)
    requires Chain(bs, start, end) && 0 <= j < |bs|
    requires Hdrp(bs[j].bp) <= a < End(bs[j])
    ensures forall b :: b in AllocatedSet(bs) && b != bs[j] ==> a < b.bp || End(b) - DSIZE <= a
  {
    forall b | b in AllocatedSet(bs) && b != bs[j] ensures a < b.bp || End(b) - DSIZE <= a {
      var k :| 0 <= k < |bs| && bs[k] == b;
      if k < j {
        Ordered(bs, start, end, k, j);
      } else {
        Ordered(bs, start, end, j, k);
      }
    }
  }

  /** The allocated blocks after replacing blocks lo..hi-1 by nbs. */
  lemma AllocatedSplice(bs: seq<Blk>, lo: int, hi: int, nbs: seq<Blk>)
    requires 0 <= lo <= hi <= |bs|
    ensures AllocatedSet(bs) == AllocatedSet(bs[..lo]) + AllocatedSet(bs[lo..hi]) + AllocatedSet(bs[hi..])
    ensures AllocatedSet(bs[..lo] + nbs + bs[hi..]) == AllocatedSet(bs[..lo]) + AllocatedSet(nbs) + AllocatedSet(bs[hi..])
  {
    assert bs == bs[..lo] + bs[lo..hi] + bs[hi..];
  }

  /** Writes at or above the last block's footer word leave a tiled chain tiled. */
  lemma TiledBelow(m: Mem, m': Mem, bs: seq<Blk>, start: int, end: int)
    requires Tiled(m, bs, start, end)
    requires forall a :: a < end - WSIZE ==> Get(m', a) == Get(m, a)
    ensures Tiled(m', bs, start, end)
  {
    forall j | 0 <= j < |bs| ensures Tagged(m', bs[j]) {
      assert Tagged(m, bs[j]);
      Bounds(bs, start, end, j);
    }
  }

  /** No two neighbouring blocks are both free, except block i with its neighbours. */
  ghost predicate NoAdjacentFreeBut(bs: seq<Blk>, i: int)
  {
    forall j :: 0 < j < |bs| && j != i && j != i + 1 ==> bs[j - 1].alloc == 1 || bs[j].alloc == 1
  }

  /** The first block coalesce merges block i into: its free predecessor, or block i. */
  function MergeLo(bs: seq<Blk>, i: int): int
    requires 0 <= i < |bs|
  {
    if i > 0 && bs[i - 1].alloc == 0 then i - 1 else i
  }

  /** One past the last block merged with block i: after its free successor, or after i. */
  function MergeHi(bs: seq<Blk>, i: int): int
    requires 0 <= i < |bs|
  {
    if i + 1 < |bs| && bs[i + 1].alloc == 0 then i + 2 else i + 1
  }

  /** Blocks lo..hi-1 fused into one free block spanning them. */
  ghost function Fuse(bs: seq<Blk>, lo: int, hi: int): seq<Blk>
    requires 0 <= lo < hi <= |bs|
  {
    bs[..lo] + [Blk(bs[lo].bp, End(bs[hi - 1]) - bs[lo].bp, 0)] + bs[hi..]
  }

  /** The blocks after coalescing block i with its free neighbours. */
  ghost function Merged(bs: seq<Blk>, i: int): seq<Blk>
    requires 0 <= i < |bs|
  {
    Fuse(bs, MergeLo(bs, i), MergeHi(bs, i))
  }

  /** The blocks once extend_heap has appended a free block of size bytes at brk and coalesced it. */
  ghost function GrownBlocks(bs: seq<Blk>, brk: int, size: int): seq<Blk>
  {
    Merged(bs + [Blk(brk, size, 0)], |bs|)
  }

  /**
   * The fused block is free, starts where its first part started and is
   * as large as its parts together; every other block keeps its place.
   */
  lemma FusedBlock(bs: seq<Blk>, start: int, end: int, lo: int, hi: int)
    requires Chain(bs, start, end) && 0 <= lo < hi <= |bs| && hi <= lo + 3
    ensures |Fuse(bs, lo, hi)| == |bs| - (hi - lo - 1)
    ensures Fuse(bs, lo, hi)[lo].bp == bs[lo].bp && Fuse(bs, lo, hi)[lo].alloc == 0
    ensures Fuse(bs, lo, hi)[lo].size == bs[lo].size + (if lo + 1 < hi then bs[lo + 1].size else 0)
                                          + (if lo + 2 < hi then bs[lo + 2].size else 0)
    ensures forall j :: 0 <= j < lo ==> Fuse(bs, lo, hi)[j] == bs[j]
    ensures forall j :: lo < j < |Fuse(bs, lo, hi)| ==> Fuse(bs, lo, hi)[j] == bs[j + hi - lo - 1]
  {
  }

  /** Block i merges with no free block across a neighbour it does not absorb. */
  lemma MergedNoAdjacent(bs: seq<Blk>, start: int, end: int, i: int)
    requires Chain(bs, start, end)
    requires 0 <= i < |bs| && bs[i].alloc == 0 && NoAdjacentFreeBut(bs, i)
    ensures NoAdjacentFree(Merged(bs, i))
  {
    var lo, hi := MergeLo(bs, i), MergeHi(bs, i);
    var r := Fuse(bs, lo, hi);
    FusedBlock(bs, start, end, lo, hi);
    forall j | 0 < j < |r| ensures r[j - 1].alloc == 1 || r[j].alloc == 1 {
      if j < lo {
        assert r[j - 1] == bs[j - 1] && r[j] == bs[j];
      } else if j == lo {
        assert r[j - 1] == bs[lo - 1];
        if lo < i {
          assert bs[lo - 1].alloc == 1;
        }
      } else if j == lo + 1 {
        assert r[j] == bs[hi];
        if hi == i + 2 {
          assert bs[hi - 1].alloc == 1 || bs[hi].alloc == 1;
        }
      } else {
        var d := hi - lo - 1;
        assert r[j - 1] == bs[j - 1 + d] && r[j] == bs[j + d];
        assert bs[j + d - 1].alloc == 1 || bs[j + d].alloc == 1;
      }
    }
  }

  /**
   * The memory once the fused block's header and footer are written; both
   * hold PACK(end - bp, 0), which is end - bp.
   */
  function FuseMem(m: Mem, bp: int, end: int): Mem
  {
    Put(Put(m, Hdrp(bp), end - bp), end - DSIZE, end - bp)
  }

  /** The fused block, as Fuse places it. */
  function FusedOf(bs: seq<Blk>, lo: int, hi: int): Blk
    requires 0 <= lo < hi <= |bs|
  {
    Blk(bs[lo].bp, End(bs[hi - 1]) - bs[lo].bp, 0)
  }

  /** The tag writes of a fused block change no other word. */
  lemma FuseMemElsewhere(m: Mem, bp: int, end: int, a: int)
    requires a != Hdrp(bp) && a != end - DSIZE
    ensures Get(FuseMem(m, bp, end), a) == Get(m, a)
  {
  }

  /** Coalescing only fuses free blocks: the allocated blocks stay as they are. */
  lemma MergedAllocated(bs: seq<Blk>, i: int)
    requires 0 <= i < |bs| && bs[i].alloc == 0
    ensures AllocatedSet(Merged(bs, i)) == AllocatedSet(bs)
  {
    var lo, hi := MergeLo(bs, i), MergeHi(bs, i);
    AllocatedSplice(bs, lo, hi, [FusedOf(bs, lo, hi)]);
    assert AllocatedSet(bs[lo..hi]) == {} by {
      assert forall k :: lo <= k < hi ==> bs[k].alloc == 0;
    }
    assert AllocatedSet([FusedOf(bs, lo, hi)]) == {};
  }

  /** The fused block's tags, written over blocks lo..hi-1, tile the arena. */
  lemma FuseTiled(m: Mem, start: int, brk: int, bs: seq<Blk>, lo: int, hi: int)
    requires Tiled(m, bs, start, brk) && 0 <= lo < hi <= |bs|
    ensures (End(bs[hi - 1]) - bs[lo].bp) % 8 == 0
    ensures Tiled(FuseMem(m, bs[lo].bp, End(bs[hi - 1])), Fuse(bs, lo, hi), start, brk)
  {
    var nb := FusedOf(bs, lo, hi);
    FusedSpan(bs, start, brk, lo, hi);
    FusedTiles(m, nb);
    Splice(m, FuseMem(m, nb.bp, End(nb)), bs, start, brk, brk, lo, hi, [nb]);
  }

  /** The fused block spans blocks lo..hi-1 exactly and is well shaped. */
  lemma FusedSpan(bs: seq<Blk>, start: int, brk: int, lo: int, hi: int)
    requires Chain(bs, start, brk) && 0 <= lo < hi <= |bs|
    ensures FusedOf(bs, lo, hi).bp == Mid(bs, lo, brk) && End(FusedOf(bs, lo, hi)) == Mid(bs, hi, brk)
    ensures Shaped(FusedOf(bs, lo, hi))
  {
    if lo < hi - 1 {
      Ordered(bs, start, brk, lo, hi - 1);
    }
    assert Shaped(bs[lo]) && Shaped(bs[hi - 1]);
  }

  /** The fused block's tag writes tile it alone and change nothing outside it. */
  lemma FusedTiles(m: Mem, nb: Blk)
    requires Shaped(nb) && nb.alloc == 0
    ensures Tiled(FuseMem(m, nb.bp, End(nb)), [nb], nb.bp, End(nb))
    ensures forall a :: a < nb.bp - WSIZE || End(nb) - WSIZE <= a ==> Get(FuseMem(m, nb.bp, End(nb)), a) == Get(m, a)
  {
    ChainOne(nb);
    assert Tagged(FuseMem(m, nb.bp, End(nb)), nb);
  }

  /** Writing the fused block's tags, over two free blocks' tags, leaves every allocated payload. */
  lemma FuseKeepsPayloads(m: Mem, start: int, brk: int, bs: seq<Blk>, lo: int, hi: int)
    requires Chain(bs, start, brk) && 0 <= lo < hi <= |bs| && bs[lo].alloc == 0 && bs[hi - 1].alloc == 0
    ensures PayloadsKept(m, FuseMem(m, bs[lo].bp, End(bs[hi - 1])), AllocatedSet(bs))
  {
    var bp, end := bs[lo].bp, End(bs[hi - 1]);
    SpanMissesPayloads(bs, start, brk, lo, Hdrp(bp));
    SpanMissesPayloads(bs, start, brk, hi - 1, end - DSIZE);
    var m1 := Put(m, Hdrp(bp), end - bp);
    PutKeepsPayloads(m, Hdrp(bp), end - bp, AllocatedSet(bs));
    PutKeepsPayloads(m1, end - DSIZE, end - bp, AllocatedSet(bs));
    PayloadsKeptTrans(m, m1, FuseMem(m, bp, end), AllocatedSet(bs), AllocatedSet(bs), AllocatedSet(bs));
  }

  /** The tags of b, and the header of the block nb after it, read back through NEXT_BLKP. */
  lemma NextNeighbour(m: Mem, b: Blk, next: int, nb: Blk)
    requires Tagged(m, b) && next == End(b) && nb.bp == next
    requires nb.size % 8 == 0 && (nb.alloc == 0 || nb.alloc == 1)
    requires Get(m, Hdrp(next)) == Pack(nb.size, nb.alloc)
    ensures SizeAt(m, b.bp) == b.size
    ensures NextBlkp(m, b.bp) == next
    ensures GetAlloc(Get(m, Hdrp(NextBlkp(m, b.bp)))) == nb.alloc
    ensures SizeAt(m, next) == nb.size
  {
    PackRoundTrip(b.size, b.alloc);
    PackRoundTrip(nb.size, nb.alloc);
  }

  /** The footer of the block pb before bp reads back through PREV_BLKP. */
  lemma PrevNeighbour(m: Mem, pb: Blk, bp: int)
    requires Tagged(m, pb) && bp == End(pb)
    ensures PrevBlkp(m, bp) == pb.bp
    ensures SizeAt(m, pb.bp) == pb.size
    ensures GetAlloc(Get(m, Ftrp(m, pb.bp))) == pb.alloc
  {
    PackRoundTrip(pb.size, pb.alloc);
  }

  /**
   * FTRP reads the size back from the header just written, so the two tag
   * writes land on the header and the last word of the fused block.
   */
  lemma FreeTagsFuse(m: Mem, bp: int, size: int)
    requires size % 8 == 0
    ensures TagsWritten(m, bp, size, 0) == FuseMem(m, bp, bp + size)
  {
    TagsAt(m, bp, size, 0);
  }

  /** When neither neighbour is free, writing block i's own tags again changes nothing. */
  lemma FuseNoop(m: Mem, b: Blk)
    requires Tagged(m, b) && b.alloc == 0
    ensures FuseMem(m, b.bp, End(b)) == m
  {
    assert Hdrp(b.bp) in m && m[Hdrp(b.bp)] == b.size;
    assert End(b) - DSIZE in m && m[End(b) - DSIZE] == b.size;
    assert m[Hdrp(b.bp) := b.size] == m;
  }

  /** Writes confined to the span of block i keep the payloads of the other allocated blocks. */
  lemma SpanFrame(m: Mem, m': Mem, start: int, brk: int, bs: seq<Blk>, i: int)
    requires Chain(bs, start, brk) && 0 <= i < |bs|
    requires forall a :: a < Hdrp(bs[i].bp) || End(bs[i]) <= a ==> Get(m', a) == Get(m, a)
    ensures PayloadsKept(m, m', AllocatedSet(bs) - {bs[i]})
  {
    forall b | b in AllocatedSet(bs) - {bs[i]} ensures Untouched(m, m', b.bp, End(b) - DSIZE) {
      forall a | b.bp <= a < End(b) - DSIZE ensures Get(m', a) == Get(m, a) {
        if Hdrp(bs[i].bp) <= a < End(bs[i]) {
          SpanMissesPayloads(bs, start, brk, i, a);
        }
      }
    }
  }
}
