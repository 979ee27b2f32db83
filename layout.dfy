/** The block layout of the pool allocator in src/mm.c.
  *
  * Every block starts with one 8-byte header word holding the block size
  * (a multiple of 8) with the allocated flag in bit 0.  The payload follows
  * the header; while a block is free, the first two payload words hold the
  * predecessor and successor header addresses of the explicit free list.
  */
module Layout {

  /** Heap growth increment requested from sbrk (CHUNK_SIZE). */
  const CHUNK_SIZE: nat := 4096

  /** Size of a header word (DSIZE). */
  const DSIZE: nat := 8

  /** The null pointer. */
  const Null: nat := 0

  /** 2^64: size_t arithmetic wraps modulo this. */
  const WORD_MODULUS: nat := 0x1_0000_0000_0000_0000

  /** SIZE_MAX, the largest size_t. */
  const SIZE_MAX: nat := 0xFFFF_FFFF_FFFF_FFFF

  /** A 64-bit unsigned machine word (size_t, or a header word). */
  type Word = x: nat | x < 0x1_0000_0000_0000_0000

  /** PACK(size, alloc) = size | alloc.  The source only ever packs a flag
    * of 0 or 1, for which OR-ing sets bit 0 exactly when it is clear. */
  function Pack(size: Word, alloc: nat): Word
    requires alloc <= 1
  {
    if alloc == 1 && LowBits(size) % 2 == 0 then size + 1 else size
  }

  /** The three flag bits below the size (w & 0x7). */
  function LowBits(w: Word): nat
  {
    w % 8
  }

  /** GET_SIZE: the header word with its low three bits cleared (w & ~0x7). */
  function GetSize(w: Word): (s: Word)
    ensures s % 8 == 0 && s <= w < s + 8
  {
    w - LowBits(w)
  }

  /** GET_ALLOC: bit 0 of the header word (w & 0x1, taken from w & 0x7). */
  function GetAlloc(w: Word): nat
  {
    LowBits(w) % 2
  }

  /** HDRP: the header address of a payload pointer. */
  function Hdrp(bp: nat): nat
    requires bp >= DSIZE
  {
    bp - DSIZE
  }

  /** BLKP: the payload pointer of a header address. */
  function Blkp(hp: nat): nat
  {
    hp + DSIZE
  }

  /** Address of the predecessor word of a free block (PREV_FREE_HEAD). */
  function PredSlot(hp: nat): nat
  {
    hp + DSIZE
  }

  /** Address of the successor word of a free block (NEXT_FREE_HEAD). */
  function SuccSlot(hp: nat): nat
  {
    hp + 2 * DSIZE
  }

  /** Packing a word-aligned size with a 0/1 flag loses neither: GET_SIZE
    * gives back the size and GET_ALLOC the flag. */
  lemma PackRoundTrip(size: Word, alloc: nat)
    requires size % DSIZE == 0 && alloc <= 1
    ensures GetSize(Pack(size, alloc)) == size
    ensures GetAlloc(Pack(size, alloc)) == alloc
  {
    if alloc == 1 {
      assert LowBits(size + 1) == 1;
    }
  }

  /** BLKP and HDRP are inverse to each other. */
  lemma BlkpHdrp(bp: nat, hp: nat)
    requires bp >= DSIZE
    ensures Blkp(Hdrp(bp)) == bp
    ensures Hdrp(Blkp(hp)) == hp
  {
  }

  /** The header and both free-list words of a block of at least 32 bytes
    * lie inside the block, and none of them reaches the second half of a
    * block larger than 32 bytes, where splitting writes the new header. */
  lemma LinksFitInBlock(hp: nat, size: nat)
    requires size >= 32 && size % 32 == 0
    ensures hp < PredSlot(hp) < SuccSlot(hp) && SuccSlot(hp) + DSIZE <= hp + size
    ensures size > 32 ==> SuccSlot(hp) + DSIZE <= hp + size / 2
  {
  }
}
