/** Size arithmetic of src/mm.c: the power-of-two size classes of the pool
  * (block_index and the shift at malloc), the request size handed to the
  * bulk provider, the byte count of calloc, the copy length of realloc and
  * the size test by which free tells bulk blocks from pool blocks.
  *
  * Three of these are written twice: "AsWritten" follows the source line by
  * line, and the plain name is the corrected definition the allocator uses
  * (see Findings in README.md).
  */
module Sizing {
  import opened Layout

  datatype Option<T> = None | Some(value: T)

  /** Largest pool request: CHUNK_SIZE - DSIZE = 4088 bytes. */
  const MAX_POOL_REQUEST: nat := 4088

  /** The pool's size classes, 2^5 .. 2^12. */
  const Classes: set<nat> := {32, 64, 128, 256, 512, 1024, 2048, 4096}

  function Pow2(k: nat): (p: nat)
    ensures p >= 1
  {
    if k == 0 then 1 else 2 * Pow2(k - 1)
  }

  /** Number of significant bits of x: 32 - __builtin_clz(x) for 0 < x < 2^32. */
  function BitLength(x: nat): (b: nat)
    ensures b == 0 <==> x == 0
    ensures x > 0 ==> Pow2(b - 1) <= x < Pow2(b)
  {
    if x == 0 then 0 else 1 + BitLength(x / 2)
  }

  lemma {:induction false} Pow2Monotone(i: nat, j: nat)
    requires i <= j
    ensures Pow2(i) <= Pow2(j)
    decreases j
  {
    if i < j {
      Pow2Monotone(i, j - 1);
    }
  }

  /** The classes are exactly the powers of two from 2^5 to 2^12. */
  lemma ClassesArePowersOfTwo(c: nat)
    ensures c in Classes <==> exists k :: 5 <= k <= 12 && c == Pow2(k)
  {
    if c in Classes {
      var k := if c == 32 then 5 else if c == 64 then 6 else if c == 128 then 7
        else if c == 256 then 8 else if c == 512 then 9 else if c == 1024 then 10
        else if c == 2048 then 11 else 12;
      Pow2Values();
      assert c == Pow2(k);
    }
    if exists k :: 5 <= k <= 12 && c == Pow2(k) {
      var k :| 5 <= k <= 12 && c == Pow2(k);
      Pow2Values();
    }
  }

  lemma Pow2Values()
    ensures Pow2(5) == 32 && Pow2(6) == 64 && Pow2(7) == 128 && Pow2(8) == 256
    ensures Pow2(9) == 512 && Pow2(10) == 1024 && Pow2(11) == 2048 && Pow2(12) == 4096
  {
  }

  /** Halving a class above 32 bytes gives the class below it. */
  lemma HalfOfClass(c: nat)
    requires c in Classes && c > 32
    ensures c / 2 in Classes && 2 * (c / 2) == c && c / 2 >= 32
  {
  }

  /** A smaller class fits in half of a larger one. */
  lemma ClassBelowHalf(lo: nat, c: nat)
    requires lo in Classes && c in Classes && lo < c
    ensures lo <= c / 2
  {
  }

  /** Every class is a multiple of 32 between 32 and 4096 bytes, so block
      sizes keep the low header bits free for the flags. */
  lemma ClassAligned(c: nat)
    requires c in Classes
    ensures c % 32 == 0 && c % 8 == 0 && 32 <= c <= 4096
  {
  }

  /** block_index(x) (mm.c:90-96): 5 for x <= 8, otherwise the bit length of
    * x + 7.  The source says its result means nothing above 4088. */
  function BlockIndex(x: nat): nat
    requires x <= MAX_POOL_REQUEST
  {
    if x <= 8 then 5 else BitLength(x + 7)
  }

  /** The pool block size of a request: 1 << block_index(n) (mm.c:189). */
  function ClassSize(n: nat): nat
    requires n <= MAX_POOL_REQUEST
  {
    Pow2(BlockIndex(n))
  }

  /** The class of a pool request is a size class that holds the request
    * together with its 8-byte header, and it is the smallest such class:
    * every power of two of at least 32 bytes that fits n + 8 is as large. */
  lemma ClassSizeIsSmallestFit(n: nat)
    requires 1 <= n <= MAX_POOL_REQUEST
    ensures ClassSize(n) in Classes
    ensures ClassSize(n) >= n + DSIZE
    ensures forall k: nat :: Pow2(k) >= 32 && Pow2(k) >= n + DSIZE ==> ClassSize(n) <= Pow2(k)
  {
    Pow2Values();
    var b := BlockIndex(n);
    if n > 8 {
      assert Pow2(b - 1) <= n + 7 < Pow2(b);
      if b < 5 {
        Pow2Monotone(b, 4);
      }
      if b > 12 {
        Pow2Monotone(12, b - 1);
      }
      assert 5 <= b <= 12;
    }
    ClassesArePowersOfTwo(ClassSize(n));
    forall k: nat | Pow2(k) >= 32 && Pow2(k) >= n + DSIZE
      ensures ClassSize(n) <= Pow2(k)
    {
      if n <= 8 {
        if k < 5 {
          Pow2Monotone(k, 4);
        }
        Pow2Monotone(5, k);
      } else {
        if k < b {
          Pow2Monotone(k, b - 1);
        }
        Pow2Monotone(b, k);
      }
    }
  }

  // ---------------------------------------------------------------------
  // Bulk requests (mm.c:197-204)

  /** The bulk size of mm.c:201, DSIZE * ((size + DSIZE + (DSIZE + 1)) / DSIZE),
    * in size_t arithmetic: the sum wraps modulo 2^64. */
  function BulkSizeAsWritten(n: Word): Word
  {
    DSIZE * (((n + DSIZE + (DSIZE + 1)) % WORD_MODULUS) / DSIZE)
  }

  /** For a request ten bytes short of SIZE_MAX the sum wraps and the bulk
    * provider is asked for 0 bytes, whose header then claims size 0. */
  lemma HugeRequestWrapsAsWritten()
    ensures BulkSizeAsWritten(SIZE_MAX - 9) == 0
    ensures BulkSizeAsWritten(SIZE_MAX) == 16
  {
  }

  /** The bulk size with the wrap-around refused: None when n + 17 does not
    * fit in a size_t, in which case malloc returns NULL. */
  function BulkSize(n: Word): (r: Option<Word>)
    ensures r.None? <==> n + DSIZE + DSIZE + 1 > SIZE_MAX
    ensures r.Some? ==> r.value % DSIZE == 0 && n + 10 <= r.value <= n + 17
    ensures r.Some? ==> r.value == BulkSizeAsWritten(n)
    ensures r.Some? && n > MAX_POOL_REQUEST ==> r.value > CHUNK_SIZE
  {
    if n + DSIZE + DSIZE + 1 > SIZE_MAX then None
    else Some(DSIZE * ((n + DSIZE + (DSIZE + 1)) / DSIZE))
  }

  // ---------------------------------------------------------------------
  // free's test for a bulk block (mm.c:542)

  /** The test of mm.c:542 as written: a header size above 4088 is bulk. */
  predicate FreeGoesToBulkAsWritten(size: nat)
  {
    size > CHUNK_SIZE - DSIZE
  }

  /** A request of 3000 bytes is a pool request whose class is 4096, and free
    * as written sends a block of that size to bulk_free. */
  lemma Class4096FreedToBulkAsWritten()
    ensures 3000 <= MAX_POOL_REQUEST && ClassSize(3000) == CHUNK_SIZE
    ensures FreeGoesToBulkAsWritten(ClassSize(3000))
  {
    Pow2Values();
    assert BitLength(1) == 1 && BitLength(2) == 2 && BitLength(5) == 3 && BitLength(11) == 4;
    assert BitLength(23) == 5 && BitLength(46) == 6 && BitLength(93) == 7 && BitLength(187) == 8;
    assert BitLength(375) == 9 && BitLength(751) == 10 && BitLength(1503) == 11 && BitLength(3007) == 12;
  }

  /** The corrected test: pool blocks are at most CHUNK_SIZE bytes. */
  predicate IsBulkHeaderSize(size: nat)
  {
    size > CHUNK_SIZE
  }

  /** With the corrected test, every pool class stays in the pool and every
    * bulk block goes back to bulk_free. */
  lemma BulkTestSeparatesPoolAndBulk(n: Word)
    requires n >= 1
    ensures n <= MAX_POOL_REQUEST ==> !IsBulkHeaderSize(ClassSize(n))
    ensures n > MAX_POOL_REQUEST && BulkSize(n).Some? ==> IsBulkHeaderSize(BulkSize(n).value)
  {
    if n <= MAX_POOL_REQUEST {
      ClassSizeIsSmallestFit(n);
    }
  }

  // ---------------------------------------------------------------------
  // calloc's byte count (mm.c:472)

  /** nmemb * size as mm.c:472 computes it: modulo 2^64, unchecked. */
  function CallocTotalAsWritten(nmemb: Word, size: Word): Word
  {
    (nmemb * size) % WORD_MODULUS
  }

  /** 2^32 elements of 2^32 + 1 bytes wrap to a 2^32-byte request. */
  lemma CallocWrapUnderAllocatesAsWritten()
    ensures CallocTotalAsWritten(0x1_0000_0000, 0x1_0000_0001) == 0x1_0000_0000
    ensures CallocTotalAsWritten(0x1_0000_0000, 0x1_0000_0001) < 0x1_0000_0000 * 0x1_0000_0001
  {
  }

  /** The byte count with overflow detected: None exactly when the product
    * does not fit a size_t, otherwise the exact product. */
  function CallocTotal(nmemb: Word, size: Word): (r: Option<Word>)
    ensures r.None? <==> nmemb * size > SIZE_MAX
    ensures r.Some? ==> r.value == nmemb * size && r.value == CallocTotalAsWritten(nmemb, size)
  {
    if nmemb * size > SIZE_MAX then None else Some(nmemb * size)
  }

  // ---------------------------------------------------------------------
  // realloc (mm.c:505-517)

  /** mm.c:505: realloc keeps the block when it is a pool-sized block whose
    * usable bytes exceed the new size. */
  predicate ReallocKeepsBlock(blockSize: nat, size: nat)
  {
    blockSize <= CHUNK_SIZE && blockSize - DSIZE > size
  }

  /** mm.c:517 as written: copy the whole old payload. */
  function ReallocCopyLengthAsWritten(blockSize: nat): nat
    requires blockSize >= DSIZE
  {
    blockSize - DSIZE
  }

  /** Shrinking the bulk block of a 5000-byte request to 100 bytes: the new
    * pool block (class 128) has 120 usable bytes, but 5008 are copied. */
  lemma ShrinkingBulkReallocOverflowsAsWritten()
    ensures BulkSize(5000) == Some(5016) && !ReallocKeepsBlock(5016, 100)
    ensures ClassSize(100) == 128
    ensures ReallocCopyLengthAsWritten(5016) == 5008 > ClassSize(100) - DSIZE
  {
    Pow2Values();
    assert BitLength(107) == 7;
  }

  /** Shrinking a bulk block to 0 bytes: the keep test fails, malloc(0)
    * gives NULL, and as written more than 4088 bytes are then copied to
    * NULL; the corrected copy length is 0. */
  lemma ZeroSizeBulkReallocCopiesAsWritten(blockSize: nat)
    requires blockSize > CHUNK_SIZE
    ensures !ReallocKeepsBlock(blockSize, 0)
    ensures ReallocCopyLengthAsWritten(blockSize) > MAX_POOL_REQUEST
    ensures ReallocCopyLength(blockSize, 0) == 0
  {
  }

  /** The corrected copy length: the old payload or the new size, whichever
    * is smaller (what standard realloc preserves). */
  function ReallocCopyLength(blockSize: nat, size: nat): (len: nat)
    requires blockSize >= DSIZE
    ensures len <= blockSize - DSIZE && len <= size
    ensures len == blockSize - DSIZE || len == size
  {
    if blockSize - DSIZE <= size then blockSize - DSIZE else size
  }

  /** The corrected copy never overruns the block malloc returns for the new
    * size, and for a pool block that realloc moves it copies exactly what
    * the source copies: the two differ only when shrinking a bulk block. */
  lemma ReallocCopyFits(blockSize: nat, size: Word)
    requires blockSize >= DSIZE && size >= 1
    ensures size <= MAX_POOL_REQUEST ==> ReallocCopyLength(blockSize, size) <= ClassSize(size) - DSIZE
    ensures size > MAX_POOL_REQUEST && BulkSize(size).Some? ==>
              ReallocCopyLength(blockSize, size) <= BulkSize(size).value - DSIZE
    ensures blockSize <= CHUNK_SIZE && !ReallocKeepsBlock(blockSize, size) ==>
              ReallocCopyLength(blockSize, size) == ReallocCopyLengthAsWritten(blockSize)
  {
    if size <= MAX_POOL_REQUEST {
      ClassSizeIsSmallestFit(size);
    }
  }
}
