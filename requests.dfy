/**
 * From a request of `size` bytes to the block size the allocators look
 * for.  Both allocators compute it in C `size_t` arithmetic, which wraps
 * modulo 2^64; the functions named AsWritten follow that arithmetic, the
 * others refuse the requests whose block size does not fit a `size_t`.
 */
module Requests {
  import opened Tags

  datatype Option<T> = None | Some(value: T)

  /** Number of values of a `size_t`. */
  const SIZE_MOD := SIZE_MAX + 1

  /** ALIGN as C evaluates it on a `size_t`: the sum wraps, then the low three bits are cleared. */
  function AlignWrapped(size: int): (r: int)
    requires 0 <= size <= SIZE_MAX
    ensures 0 <= r <= SIZE_MAX && r % ALIGNMENT == 0
    ensures size + (ALIGNMENT - 1) <= SIZE_MAX ==> r == Align(size)
  {
    var s := (size + (ALIGNMENT - 1)) % SIZE_MOD;
    s - s % ALIGNMENT
  }

  /** mm.c's adjusted size as written: MAX(ALIGN(size) + DSIZE, MIN_BLOCK_SIZE), in `size_t`. */
  function AdjustedSizeAsWritten(size: int): (asize: int)
    requires 0 <= size <= SIZE_MAX
    ensures asize % 8 == 0 && MIN_BLOCK_SIZE <= asize <= SIZE_MAX
  {
    Max((AlignWrapped(size) + DSIZE) % SIZE_MOD, MIN_BLOCK_SIZE)
  }

  /**
   * For the last 15 sizes below 2^64 the sum wraps to a small number and a
   * request of nearly 2^64 bytes is given a minimum block of 24 bytes.
   */
  lemma AdjustedSizeWraps(size: int)
    requires SIZE_MAX - 15 < size <= SIZE_MAX
    ensures AdjustedSizeAsWritten(size) == MIN_BLOCK_SIZE
    ensures AdjustedSizeAsWritten(size) < size + DSIZE
  {
    var s := (size + (ALIGNMENT - 1)) % SIZE_MOD;
    if size + (ALIGNMENT - 1) < SIZE_MOD {
      assert s == size + (ALIGNMENT - 1);
      assert s - s % ALIGNMENT == SIZE_MOD - DSIZE;
    } else {
      assert s == size + (ALIGNMENT - 1) - SIZE_MOD;
      assert s - s % ALIGNMENT == 0;
    }
  }

  /**
   * The adjusted size of mm.c as intended: a block that holds the request,
   * its header and its footer, double-word aligned and at least a minimum
   * block; None when no such block size fits a `size_t`.
   */
  function AdjustedSize(size: int): (r: Option<int>)
    requires 0 <= size <= SIZE_MAX
    ensures r.Some? <==> Align(size) + DSIZE <= SIZE_MAX
    ensures r.Some? ==> r.value % 8 == 0 && r.value >= size + DSIZE && r.value >= MIN_BLOCK_SIZE
    ensures r.Some? ==> r.value <= SIZE_MAX
    ensures r.Some? ==> r.value == MIN_BLOCK_SIZE || r.value < size + 2 * DSIZE
  {
    if size > SIZE_MAX - 15 then None else Some(Max(Align(size) + DSIZE, MIN_BLOCK_SIZE))
  }

  /** Where the intended size exists, the code computes it. */
  lemma AdjustedSizeAgrees(size: int)
    requires 0 <= size <= SIZE_MAX && AdjustedSize(size).Some?
    ensures AdjustedSizeAsWritten(size) == AdjustedSize(size).value
  {
  }

  /**
   * mm1.c's adjusted size as written: 16 for requests of at most 8 bytes,
   * otherwise ALIGN(DSIZE * ((size + OVERHEAD + DSIZE - 1) / DSIZE)), in `size_t`.
   */
  function AdjustedSizeImplicitAsWritten(size: int): (asize: int)
    requires 0 <= size <= SIZE_MAX
    ensures asize % 8 == 0 && 0 <= asize <= SIZE_MAX
  {
    if size <= DSIZE then Align(DSIZE + OVERHEAD)
    else
      var q := DSIZE * (((size + OVERHEAD + (DSIZE - 1)) % SIZE_MOD) / DSIZE);
      AlignWrapped(q)
  }

  /** The same wrap in mm1.c: a request of 2^64 - 1 bytes is given a block of 8 bytes, no payload at all. */
  lemma AdjustedSizeImplicitWraps()
    ensures AdjustedSizeImplicitAsWritten(SIZE_MAX) == DSIZE
  {
    var q := DSIZE * (((SIZE_MAX + OVERHEAD + (DSIZE - 1)) % SIZE_MOD) / DSIZE);
    assert (SIZE_MAX + OVERHEAD + (DSIZE - 1)) % SIZE_MOD == 14;
    assert q == 8;
  }

  /**
   * The adjusted size of mm1.c as intended: the request and 8 bytes of
   * tags rounded up to a multiple of 8, at least 16; None when that does
   * not fit a `size_t`.
   */
  function AdjustedSizeImplicit(size: int): (r: Option<int>)
    requires 0 <= size <= SIZE_MAX
    ensures r.Some? <==> Align(size) + DSIZE <= SIZE_MAX
    ensures r.Some? ==> r.value % 8 == 0 && r.value >= size + DSIZE && r.value >= 2 * DSIZE
    ensures r.Some? ==> r.value <= SIZE_MAX
    ensures r.Some? ==> r.value == 2 * DSIZE || r.value < size + 2 * DSIZE
  {
    if size > SIZE_MAX - 15 then None
    else if size <= DSIZE then Some(2 * DSIZE)
    else Some(DSIZE * ((size + OVERHEAD + (DSIZE - 1)) / DSIZE))
  }

  /** Where the intended size exists, mm1.c computes it. */
  lemma AdjustedSizeImplicitAgrees(size: int)
    requires 0 <= size <= SIZE_MAX && AdjustedSizeImplicit(size).Some?
    ensures AdjustedSizeImplicitAsWritten(size) == AdjustedSizeImplicit(size).value
  {
    if size > DSIZE {
      var q := DSIZE * ((size + OVERHEAD + (DSIZE - 1)) / DSIZE);
      assert (size + OVERHEAD + (DSIZE - 1)) % SIZE_MOD == size + OVERHEAD + (DSIZE - 1);
      assert q % 8 == 0;
    }
  }
}
