# A verified model of the explicit-free-list allocator in src/mm.c

`src/mm.c` implements `malloc`, `free`, `calloc` and `realloc` on two
kinds of memory:

- the **pool**. This is memory fetched from the operating system with
  `sbrk` in chunks of `CHUNK_SIZE` (4096) bytes. It is handed out in
  power-of-two size classes from 32 to 4096 bytes. Every block starts with
  an 8-byte header word, `PACK(size, alloc)`.
- **bulk** regions, which come from `bulk_alloc` for requests above
  4088 bytes and go back through `bulk_free`.

Free pool blocks sit on one doubly linked **explicit free list**:

- Their predecessor and successor links are stored 8 and 16 bytes past the
  header.
- The list head's `pred` link and the tail's `succ` link point to the
  block itself.
- The two links fit in the first 24 bytes of even the smallest block and
  stay inside the lower half of a block being split
  (`Layout.LinksFitInBlock`). This layout fact is why the model may keep
  the links in maps of their own, apart from the header words and the
  payload bytes.
- The single global `explicit_free_lists` points at the tail block's
  links.
- `find_free_block` walks from the tail towards the head.
- `place` halves a block (`split_free_block`) until it has the requested
  class; each upper half is linked in right after the block it came from.
- `free` and `extend_heap` append at the tail.

The list is not circular: it ends in self links, and the model says so.

The model has seven modules, one file each:

- `layout.dfy` (`Layout`): the header word codec and the pointer
  arithmetic macros. Sizes are 64-bit words.
- `sizing.dfy` (`Sizing`): `block_index` and the size classes. Also the
  size arithmetic of the bulk path, of `calloc` and of `realloc`, each in
  the form the code has and in the corrected form (see Findings).
- `freelist.dfy` (`FreeList`): the free list as a sequence `L` of header
  addresses together with the `pred`/`succ` maps. It states when the links
  spell out exactly that sequence, and how every relinking in the code
  keeps them so. It also has the tail-first search and the sizes that
  splitting leaves behind.
- `tiling.dfy` (`Tiling`): pool blocks have class sizes and lie below the
  break without overlapping, and bulk regions overlap no pool block and no
  other region. That the pool blocks also cover every byte between the
  initial break and the break is not stated.
- `heap.dfy` (`HeapState`): the whole heap as a value, plus the effect of
  each step on it as a function: halving, taking a block off the list,
  appending at the tail, growing by a chunk, recording and dropping a bulk
  region, and `place` as a whole. Each comes with a lemma saying it keeps
  the heap consistent and what happens to the free list's sizes and to
  the blocks a caller holds.
- `calls.dfy` (`Calls`): `malloc`, `free` and the move path of `realloc`
  as functions on the heap (`MallocSpec`, `FreeSpec`, `ReallocMove`),
  with the lemmas that state what the interface promises.
- `pool.dfy` (`Pool`): the allocator as a class whose fields are the
  heap words, the list links, the break, the bulk ledger and the payloads
  callers hold. Its methods follow the C functions statement by
  statement, except for the four corrections listed under Findings. Each one is proved to compute the function `heap.dfy` or
  `calls.dfy` gives for it, and to keep the allocator valid.

Outside influences are parameters:

- `osGrants` says whether `sbrk` grants the next chunk.
- `region` is what `bulk_alloc` hands out, or `Null`.
- Two assumptions about the environment appear as preconditions.
  `GrowthUnmapped`: the next chunk above the break overlaps no bulk
  region. `RegionFresh`: a region `bulk_alloc` hands out overlaps nothing
  in use.

A call that dereferences `NULL` ends in the `Crashed` outcome. The cases
are:

- `free(NULL)`;
- `realloc(NULL, size)`;
- the header write after `bulk_alloc` returns `NULL`;
- `memset` on a `NULL` result of `calloc` with a positive total;
- `memcpy` into a `NULL` result of `malloc` in `realloc`. As written this
  happens every time, since the copy length is `block_size - 8`. With the
  corrected copy length it happens only when that length is positive.

Payload bytes are ghost data: one byte sequence per held block, of
`GET_SIZE - 8` bytes.

## Model

| member | source | states |
|---|---|---|
| Layout.GetSize | src/mm.c:40 | the size field is the header word with its three low bits cleared: a multiple of 8 within 8 below the word |
| Layout.PackRoundTrip | src/mm.c:32-42 | GET_SIZE and GET_ALLOC recover the size and flag PACK stored, for sizes that are multiples of 8 |
| Layout.BlkpHdrp | src/mm.c:52-55 | HDRP and BLKP are inverse to each other |
| Layout.LinksFitInBlock | src/mm.c:46-50 | the pred and succ slots lie inside a block of 32 bytes or more, and inside its first half when the block can be halved |
| Sizing.BitLength | src/mm.c:90-96 | the bit length b of x > 0 satisfies 2^(b-1) <= x < 2^b, and is 0 exactly for 0 |
| Sizing.ClassSizeIsSmallestFit | src/mm.c:189 | 1 << block_index(n) is a size class, holds n bytes plus the header, and is the smallest power of two of at least 32 that does |
| Sizing.ClassesArePowersOfTwo | src/mm.c:189 | the size classes are exactly the powers of two from 2^5 to 2^12 |
| Sizing.HalfOfClass | src/mm.c:280 | halving a class above 32 gives a class, exactly |
| Sizing.ClassBelowHalf | src/mm.c:332-335 | a smaller class is at most half a larger one, so the split loop stops on the requested class |
| Sizing.ClassAligned | src/mm.c:189 | every class is a multiple of 32 between 32 and 4096 |
| Sizing.HugeRequestWrapsAsWritten | src/mm.c:201 | as written, the bulk size of SIZE_MAX - 9 wraps to 0 and that of SIZE_MAX to 16 |
| Sizing.BulkSize | src/mm.c:197-204 | the bulk size is refused exactly when n + 17 exceeds SIZE_MAX; otherwise it is the code's value, a multiple of 8 from n + 10 to n + 17, and above CHUNK_SIZE for every bulk request |
| Sizing.Class4096FreedToBulkAsWritten | src/mm.c:542-548 | as written, a pool block of class 4096 (from malloc(3000)) passes free's bulk test |
| Sizing.BulkTestSeparatesPoolAndBulk | src/mm.c:540-548 | with the corrected test, no pool class is taken for a bulk region and every bulk size is |
| Sizing.CallocWrapUnderAllocatesAsWritten | src/mm.c:472 | as written, 2^32 * (2^32 + 1) wraps to 2^32, below the bytes asked for |
| Sizing.CallocTotal | src/mm.c:469-479 | the total is refused exactly when nmemb * size exceeds SIZE_MAX; otherwise it is the product, equal to the code's value |
| Sizing.ShrinkingBulkReallocOverflowsAsWritten | src/mm.c:505-517 | as written, realloc of a 5000-byte bulk block to 100 bytes copies 5008 bytes into a 120-byte payload |
| Sizing.ZeroSizeBulkReallocCopiesAsWritten | src/mm.c:505-517 | as written, realloc of a bulk block to 0 bytes fails the keep test and copies more than 4088 bytes to the NULL that malloc(0) returns; the corrected copy length is 0 |
| Sizing.ReallocCopyLength | src/mm.c:517 | the corrected copy length fits both the old payload and the new request, and is one of the two |
| Sizing.ReallocCopyFits | src/mm.c:505-517 | the corrected copy length fits the payload malloc gives for the new size; for pool blocks on the move path it equals the code's block_size - 8 |
| FreeList.SelfLinksMarkEnds | src/mm.c:354-374 | a block's pred link is itself exactly at the head, and its succ link exactly at the tail |
| FreeList.AnchorNullIffEmpty | src/mm.c:112-114 | explicit_free_lists is NULL exactly when the list is empty, and otherwise points into the tail block |
| FreeList.LinkAfter | src/mm.c:299-321 | linking a block in right after position i, in the code's two cases, gives well-formed links for the list with the block inserted, and moves the anchor only when i is the tail |
| FreeList.Unlink | src/mm.c:354-374 | each of the four unlink cases gives well-formed links for the list without the block, with the anchor moved to the new tail or to NULL |
| FreeList.Append | src/mm.c:428-446 | appending a block at the tail, in the empty and non-empty cases, gives well-formed links and an anchor on the new block |
| FreeList.UnlinkMiddle | src/mm.c:356-359 | removing an inner block joins its neighbours |
| FreeList.UnlinkHead | src/mm.c:367-369 | removing the head makes the next block the head |
| FreeList.UnlinkTail | src/mm.c:361-365 | removing the tail makes the previous block the tail |
| FreeList.TailFit | src/mm.c:379-407 | the search result is -1 or an index whose block holds asize bytes, and every block after it is too small |
| FreeList.TailFitFindsRun | src/mm.c:379-407 | a block large enough at some position is found there or nearer the tail |
| FreeList.TailFitAppended | src/mm.c:386-394 | a block appended at the tail that is large enough is the one found |
| FreeList.BuddiesClosedForm | src/mm.c:272-335 | halving a block of lo * 2^k bytes down to lo bytes leaves k free blocks, the j-th at hp + lo * 2^j, in list order |
| FreeList.BuddySizesFirst | src/mm.c:332-335 | the first block the split loop leaves free has the requested size |
| FreeList.BuddySizesSum | src/mm.c:332-335 | the blocks the split loop leaves free add up to the original size minus the requested one |
| Tiling.TiledApart | src/mm.c:45 | two distinct pool blocks do not overlap |
| Tiling.TiledBelowBreak | src/mm.c:409-421 | every pool block has a class size and lies below the break |
| Tiling.BulkOutsidePool | src/mm.c:202-204 | a bulk region is no pool block and its header holds the size recorded for it, above CHUNK_SIZE |
| Tiling.SplitKeepsTiling | src/mm.c:280-294 | halving a pool block gives two halves that tile what it covered, clear of every bulk region |
| Tiling.GrowKeepsTiling | src/mm.c:415-421 | a chunk added at the break, clear of the bulk regions, keeps the tiling with the break raised by 4096 |
| Tiling.ReflagKeepsTiling | src/mm.c:351 | changing a pool block's flag keeps the tiling and the bulk regions apart |
| Tiling.AddBulkKeepsTiling | src/mm.c:202-204 | recording an unused bulk region keeps the pool tiled and the regions apart |
| HeapState.HalveSpec | src/mm.c:272-326 | split_free_block keeps the heap consistent, inserts the upper half after the block, replaces the block's size on the list by two halves and keeps the total |
| HeapState.TakeOffSpec | src/mm.c:337-374 | marking a listed block allocated and unlinking it keeps the heap consistent and removes exactly its size from the list |
| HeapState.ReleaseSpec | src/mm.c:550-575 | freeing a pool block keeps the heap consistent and appends exactly its size at the tail of the list |
| HeapState.GrowSpec | src/mm.c:414-446 | extend_heap's chunk becomes a new pool block at the old break and the last list entry, of 4096 bytes |
| HeapState.AddBulkSpec | src/mm.c:202-204 | recording a fresh bulk region keeps the heap consistent and the free list's sizes unchanged |
| HeapState.DropBulkSpec | src/mm.c:542-548 | returning a bulk region drops exactly that held block and changes no other header |
| HeapState.HeldKinds | src/mm.c:540-548 | a held block is bulk exactly when it is not a pool block, exactly when its size passes the corrected bulk test; a held pool block is marked allocated, has a class size and is off the list |
| HeapState.PlaceSpec | src/mm.c:328-377 | place keeps the heap consistent, replaces the block on the list by the upper halves left over, marks it allocated at the requested size, adds it to the held blocks and keeps every other held header |
| HeapState.HalveKeepsHeld | src/mm.c:272-326 | splitting changes neither the held blocks nor their headers |
| HeapState.SplitDownSizes | src/mm.c:332-335 | after the split loop the list holds the left-over halves' sizes in the block's place |
| Calls.MallocHolds | src/mm.c:181-268 | unless it crashes, malloc leaves a sound heap, and a non-NULL result is the payload of a newly held block with room for n bytes, every other held block kept |
| Calls.MallocFails | src/mm.c:187-246 | malloc(0) is NULL with nothing changed; NULL leaves the heap as it was; NULL for a pool request means sbrk refused and no free block was large enough; a crash happens exactly for a bulk request bulk_alloc refuses |
| Calls.PoolMallocHolds | src/mm.c:216-267 | the pool path serves a class holding n bytes, from the list or from a new chunk |
| Calls.NoFitMeansTooSmall | src/mm.c:379-407 | when the search finds nothing, every free block is smaller than the class |
| Calls.MallocFromBulk | src/mm.c:197-211 | a bulk region handed out leaves a sound heap and becomes a held block with room for n bytes |
| Calls.BulkRoundTrip | src/mm.c:197-211 | a bulk malloc only records the region, with neither sbrk nor the free list involved; freeing it hands bulk_free the recorded size and leaves the heap as before but for the header word |
| Calls.BulkFreeUndoes | src/mm.c:542-548 | free of a recorded bulk region drops it from the ledger and nothing else |
| Calls.PrimedClassNeedsNoSbrk | tests/test_simple_malloc.c:28-47 | after a malloc that had to grow the heap for a class below 4096, the next malloc of that size is served from the list and the break stays where it is |
| Calls.PlacedLeavesFit | src/mm.c:328-377 | cutting a listed block down to a smaller class leaves a free block of that class in its place, found next time, and keeps the break |
| Calls.ChunkLeavesBuddy | src/mm.c:246-267 | placing a class below 4096 on a fresh chunk leaves a free block of that class |
| Calls.FreeHolds | src/mm.c:532-583 | free keeps the heap sound and the break unchanged, drops exactly the freed block from the held ones, keeps the others' headers, and adds the block's size at the tail of the list exactly when it is a pool block |
| Calls.FreeThenMallocReuses | src/mm.c:566-575 | after free of a pool block, malloc of a size it holds returns that same block |
| Calls.FreedIsTail | src/mm.c:557-575 | a freed pool block becomes the last list entry |
| Calls.MallocThenFree | src/mm.c:532-583 | freeing the block malloc returned restores the set of held blocks |
| Calls.AllocationThenFree | src/mm.c:532-583 | freeing a newly held block restores the set of held blocks |
| Calls.ReallocMoveHolds | src/mm.c:511-522 | unless it crashes, the move path leaves a sound heap; the old block is no longer held, and the new one, if not NULL, is newly held with room for n bytes; NULL only for n = 0, where the code crashes (see Left out) |
| Calls.FreeAfterAllocation | src/mm.c:520 | freeing the old block after a new one was allocated keeps the new one and drops only the old |
| Calls.HeldApart | src/mm.c:181-268 | two distinct held blocks, pool or bulk, never overlap |
| Pool.Zeros | src/mm.c:479 | the zero fill memset writes: n bytes, all zero |
| Pool.PayloadsAfterAllocation | src/mm.c:181-268 | a new block's payload joins the others and holds n bytes |
| Pool.PayloadsAfterFree | src/mm.c:532-583 | dropping the freed block's payload keeps the payloads matching the held blocks |
| Pool.Allocator.constructor | src/mm.c:114 | an empty heap: empty free list, NULL anchor, no pool block, no bulk region |
| Pool.Allocator.Sbrk | src/mm.c:415-418 | sbrk returns the old break and raises it by 4096, or fails with the break unchanged |
| Pool.Allocator.BulkAlloc | src/mm.c:202 | bulk_alloc's region is recorded with its size unless it is NULL |
| Pool.Allocator.BulkFree | src/mm.c:545 | bulk_free requires the size recorded for the region and drops it |
| Pool.Allocator.SplitFreeBlock | src/mm.c:272-326 | the block is halved in place as HeapState.Halve says, or left alone at 32 bytes |
| Pool.Allocator.Place | src/mm.c:328-377 | the loop and the unlink compute HeapState.Placed |
| Pool.Allocator.Allocate | src/mm.c:350-377 | the four unlink cases compute HeapState.TakeOff |
| Pool.Allocator.FindFreeBlock | src/mm.c:379-407 | the walk from the tail along pred links returns the block TailFit names, or NULL when there is none; nothing changes |
| Pool.Allocator.LinkAsTail | src/mm.c:428-446 | a free header is written and the block is appended at the tail, as HeapState.PushTail says |
| Pool.Allocator.ExtendHeap | src/mm.c:409-454 | NULL with nothing changed when sbrk fails, otherwise the old break, with the heap grown by one free chunk |
| Pool.Allocator.AllocateBulk | src/mm.c:197-211 | the bulk path computes Calls.BulkMalloc, crashing when bulk_alloc returns NULL |
| Pool.Allocator.AllocateFromPool | src/mm.c:216-267 | the pool path computes Calls.PoolMalloc |
| Pool.Allocator.AllocateFromChunk | src/mm.c:246-267 | NULL with nothing changed when sbrk fails, otherwise the first block of the new chunk, placed |
| Pool.Allocator.Malloc | src/mm.c:181-268 | malloc computes Calls.MallocSpec, keeps the allocator valid, and gives a non-NULL result a fresh payload of at least size bytes, every other payload kept |
| Pool.Allocator.Free | src/mm.c:532-583 | free computes Calls.FreeSpec, drops exactly that payload and keeps the allocator valid; free(NULL) crashes |
| Pool.Allocator.Calloc | src/mm.c:469-483 | calloc refuses a wrapping product with NULL, otherwise computes malloc of the product and zeroes that many payload bytes, crashing exactly when memset would write to NULL |
| Pool.Allocator.Realloc | src/mm.c:497-523 | a pool block with a longer payload is returned as it is; otherwise the move path runs: the corrected copy length of payload bytes moves to a fresh block of at least size bytes and the old block is freed; realloc(NULL) crashes |
| Pool.Allocator.MoveBlock | src/mm.c:511-522 | the move path computes Calls.ReallocMove, copies the old payload's first ReallocCopyLength bytes and drops the old payload |
| Pool.Allocator.ZeroPayload | src/mm.c:479 | memset zeroes the first n payload bytes and nothing else |
| Pool.Allocator.CopyPayload | src/mm.c:517 | memcpy copies the first n bytes of one payload to the front of another and nothing else |

## Left out

- Debug tracing (`DEBUG_MESSAGE`, `PRINT_BLOCK_INFO`, src/mm.c:14-22 and 124-174) writes to stderr only and is not modelled.
- The bodies of `sbrk`, `bulk_alloc` and `bulk_free` are not part of this model. The first two are parameters (`osGrants`, `region`); the bulk provider is a ledger of region sizes.
- `__builtin_clz` is modelled by its meaning, the bit length of the 32-bit operand; `block_index` is only applied to pool requests, where the operand is small.
- The shift `1 << block_index(size)` at src/mm.c:189 is also evaluated for bulk requests, where it is undefined for large sizes; its value is overwritten at line 201 and is not modelled.
- Payload bytes are ghost data. The `pred`/`succ` words are kept apart from the payload bytes, so a write through a freed pointer is not modelled.
- Addresses are unbounded naturals: the address space cannot wrap around.
- `free` or `realloc` of a pointer that is not currently allocated, other than `NULL`, is undefined behaviour in C. The requires clauses exclude it.
- Calls from several threads are not modelled; the allocator has no locking.
- `init()` is declared at src/mm.c:119 but not part of this model.
- `memset` or `memcpy` of 0 bytes to `NULL` is treated as harmless.
- Pool.Allocator.Free, Calls.FreeSpec, Calls.FreeHolds: a block goes to `bulk_free` only when its size exceeds `CHUNK_SIZE`. The code's test at src/mm.c:542 (size above 4088) also sends pool blocks of class 4096 there, and that behaviour is not modelled (see Findings).
- Pool.Allocator.Calloc: a product `nmemb * size` that exceeds SIZE_MAX returns NULL with nothing changed. The code at src/mm.c:472 would instead allocate and zero the wrapped, too-small product (see Findings).
- Pool.Allocator.Realloc, Pool.Allocator.MoveBlock, Calls.ReallocMove: the move path copies `ReallocCopyLength(block_size, size)` bytes. The code's `block_size - 8` at src/mm.c:517 overruns the new block when a bulk block shrinks, and that is not modelled (see Findings).
- Calls.ReallocMove, Pool.Allocator.Realloc, Pool.Allocator.MoveBlock: realloc(bulk, 0) frees and returns NULL where the code crashes. In the code, malloc(0) gives NULL and src/mm.c:517 then copies `block_size - 8` bytes (more than 4088) to NULL. The corrected copy length is 0, so the model frees the old block and returns NULL; `Sizing.ZeroSizeBulkReallocCopiesAsWritten` states the code's side.
- Pool.Allocator.Malloc: a request whose bulk size wraps (above SIZE_MAX - 17) returns NULL with nothing changed. The C code would instead allocate the wrapped, too-small size (see Findings).

## Findings

| source | as written | input that shows it | evidently intended | confidence | as-written member | corrected member |
|---|---|---|---|---|---|---|
| src/mm.c:542 | free sends every block above 4088 bytes to bulk_free, including pool blocks of class 4096 | malloc(3000) gives a pool block of 4096 bytes; free of it calls bulk_free on pool memory | only bulk regions, whose sizes exceed 4096, go to bulk_free | high, not executed | Sizing.Class4096FreedToBulkAsWritten | Sizing.BulkTestSeparatesPoolAndBulk |
| src/mm.c:517 | realloc's move path copies block_size - 8 bytes whatever the new size | realloc of a malloc(5000) block to 100 bytes copies 5008 bytes into a 120-byte payload; realloc of it to 0 bytes copies 5008 bytes to the NULL that malloc(0) returns | copy at most the new request, min(block_size - 8, size) | high, not executed | Sizing.ShrinkingBulkReallocOverflowsAsWritten | Sizing.ReallocCopyFits |
| src/mm.c:472 | calloc multiplies nmemb * size in 64 bits without an overflow check | calloc(2^32, 2^32 + 1) asks malloc for only 2^32 bytes and zeroes them | return NULL when the product overflows | high, not executed | Sizing.CallocWrapUnderAllocatesAsWritten | Sizing.CallocTotal |
| src/mm.c:201 | the bulk size size + 17, rounded down to a multiple of 8, wraps for sizes near SIZE_MAX | malloc(SIZE_MAX) asks bulk_alloc for 16 bytes and returns that region as if it were large | return NULL when the size cannot be represented | high, not executed | Sizing.HugeRequestWrapsAsWritten | Sizing.BulkSize |
