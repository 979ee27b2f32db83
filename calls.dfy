/** What malloc and free do to the heap, as functions of the heap before
  * the call and of what the environment answers (whether sbrk grants the
  * next chunk, which region bulk_alloc hands out), with the properties the
  * allocator promises its callers proved about them.
  */
module Calls {
  import opened Layout
  import opened Sizing
  import opened FreeList
  import opened Tiling
  import opened HeapState

  /** What a call returns, or Crashed where the source dereferences NULL. */
  datatype Outcome = Returned(ptr: nat) | Crashed

  /** Bulk regions do not overlap one another. */
  ghost predicate BulksApart(bulk: map<nat, nat>)
  {
    forall a, b :: a in bulk && b in bulk && a != b ==> a + bulk[a] <= b || b + bulk[b] <= a
  }

  /** sbrk(CHUNK_SIZE) hands out bytes that no bulk region occupies. */
  ghost predicate GrowthUnmapped(h: Heap)
  {
    forall b :: b in h.bulk ==> b + h.bulk[b] <= h.brk || h.brk + CHUNK_SIZE <= b
  }

  /** The region bulk_alloc returns for a bulk request of n bytes is NULL or
    * overlaps nothing live. */
  ghost predicate RegionFresh(h: Heap, n: Word, region: nat)
  {
    n > MAX_POOL_REQUEST && BulkSize(n).Some? && region != Null ==>
      RegionUnused(h.pool, h.hdr, h.bulk, region, BulkSize(n).value)
  }

  /** Every invariant a call keeps: the heap words and the bulk ledger. */
  ghost predicate Sound(h: Heap)
  {
    Consistent(h) && BulksApart(h.bulk)
  }

  /** The list position find_free_block picks for a block of asize bytes. */
  ghost function Fit(h: Heap, asize: nat): int
    requires Consistent(h)
  {
    TailFit(FreeSizesOf(h), asize)
  }

  /** extend_heap's new chunk is the last list entry and has CHUNK_SIZE bytes. */
  lemma GrowTail(h: Heap)
    requires Consistent(h) && GrowthUnmapped(h)
    ensures Consistent(Grow(h)) && |h.L| < |Grow(h).L| && Grow(h).L[|h.L|] == h.brk
    ensures GetSize(Grow(h).hdr[h.brk]) == CHUNK_SIZE
  {
    GrowSpec(h);
    PackRoundTrip(CHUNK_SIZE, 0);
  }

  /** malloc (mm.c:181-268): NULL for 0 bytes; a request of at most 4088
    * bytes is served from the pool in its class size; a larger one from
    * the bulk provider. */
  ghost function MallocSpec(h: Heap, n: Word, osGrants: bool, region: nat): (Outcome, Heap)
    requires Consistent(h) && GrowthUnmapped(h)
  {
    if n == 0 then (Returned(Null), h)
    else if n <= MAX_POOL_REQUEST then
      ClassSizeIsSmallestFit(n);
      PoolMalloc(h, ClassSize(n), osGrants)
    else BulkMalloc(h, n, region)
  }

  /** The pool path of malloc (mm.c:219-267): the block find_free_block
    * picks, else a fresh chunk from extend_heap, else NULL; place then
    * cuts the block down to asize bytes and allocates it. */
  ghost function PoolMalloc(h: Heap, asize: nat, osGrants: bool): (Outcome, Heap)
    requires Consistent(h) && GrowthUnmapped(h) && asize in Classes
  {
    if Fit(h, asize) >= 0 then (Returned(Blkp(h.L[Fit(h, asize)])), Placed(h, Fit(h, asize), asize))
    else if !osGrants then (Returned(Null), h)
    else (Returned(Blkp(h.brk)), ChunkPlaced(h, asize))
  }

  /** place on the chunk extend_heap just appended. */
  ghost function ChunkPlaced(h: Heap, asize: nat): Heap
    requires Consistent(h) && GrowthUnmapped(h) && asize in Classes
  {
    GrowTail(h);
    ClassAligned(asize);
    Placed(Grow(h), |h.L|, asize)
  }

  /** The bulk path of malloc (mm.c:197-215): the bulk region with its
    * header written, a crash writing it when bulk_alloc gives NULL, and
    * NULL when the bulk size would wrap. */
  ghost function BulkMalloc(h: Heap, n: Word, region: nat): (Outcome, Heap)
  {
    match BulkSize(n)
    case None => (Returned(Null), h)
    case Some(size) =>
      if region == Null then (Crashed, h) else (Returned(Blkp(region)), AddBulk(h, region, size))
  }

  /** free (mm.c:532-583), with the corrected bulk test: a bulk block goes
    * back to bulk_free, a pool block becomes the free list's tail. */
  ghost function FreeSpec(h: Heap, hp: nat): Heap
    requires Consistent(h) && hp in Held(h)
  {
    HeldKinds(h, hp);
    if IsBulkHeaderSize(GetSize(h.hdr[hp])) then h.(bulk := h.bulk - {hp})
    else
      ReleaseKeepsHeld(h, hp);
      PushTail(h, hp, GetSize(h.hdr[hp]))
  }

  // ---------------------------------------------------------------------
  // malloc

  /** What malloc promises: the heap stays sound, and any pointer other
    * than NULL is the payload of a block no caller held, with room for n
    * bytes, now held beside every block held before, whose headers are
    * untouched. */
  lemma MallocHolds(h: Heap, n: Word, osGrants: bool, region: nat)
    requires Sound(h) && GrowthUnmapped(h) && RegionFresh(h, n, region)
    ensures Serves(h, MallocSpec(h, n, osGrants, region), n)
  {
    if 1 <= n <= MAX_POOL_REQUEST {
      ClassSizeIsSmallestFit(n);
      PoolMallocHolds(h, ClassSize(n), osGrants, n);
      assert MallocSpec(h, n, osGrants, region) == PoolMalloc(h, ClassSize(n), osGrants);
    } else if n > MAX_POOL_REQUEST && BulkSize(n).Some? && region != Null {
      MallocFromBulk(h, n, region);
      assert MallocSpec(h, n, osGrants, region) == (Returned(Blkp(region)), AddBulk(h, region, BulkSize(n).value));
      assert Hdrp(Blkp(region)) == region;
    }
  }

  /** malloc returns NULL only when it leaves the heap as it was, and for a
    * pool request only when no free block fits and sbrk refused; it
    * crashes only when bulk_alloc fails. */
  lemma MallocFails(h: Heap, n: Word, osGrants: bool, region: nat)
    requires Consistent(h) && GrowthUnmapped(h)
    ensures n == 0 ==> MallocSpec(h, n, osGrants, region) == (Returned(Null), h)
    ensures MallocSpec(h, n, osGrants, region).0 == Returned(Null) ==> MallocSpec(h, n, osGrants, region).1 == h
    ensures MallocSpec(h, n, osGrants, region).0 == Returned(Null) && 1 <= n <= MAX_POOL_REQUEST ==>
      !osGrants && forall j :: 0 <= j < |h.L| ==> GetSize(h.hdr[h.L[j]]) < ClassSize(n)
    ensures MallocSpec(h, n, osGrants, region).0.Crashed? <==> n > MAX_POOL_REQUEST && BulkSize(n).Some? && region == Null
  {
    if 1 <= n <= MAX_POOL_REQUEST {
      ClassSizeIsSmallestFit(n);
      ClassAligned(ClassSize(n));
      if Fit(h, ClassSize(n)) < 0 {
        NoFitMeansTooSmall(h, ClassSize(n));
      }
    }
  }

  /** A returned heap stays sound, and a returned non-NULL pointer is the
    * payload of a block newly allocated in it with room for n bytes. */
  ghost predicate Serves(h: Heap, r: (Outcome, Heap), n: nat)
  {
    r.0.Returned? ==>
      && Sound(r.1)
      && (r.0.ptr != Null ==> r.0.ptr >= DSIZE && Allocation(h, r.1, Hdrp(r.0.ptr), n))
  }

  /** h' holds the block at hp, which h did not, with room for n payload
    * bytes, beside every block h held, with their headers unchanged. */
  ghost predicate Allocation(h: Heap, h': Heap, hp: nat, n: nat)
  {
    && hp !in Held(h) && Held(h') == Held(h) + {hp}
    && HeadersKept(h, h', Held(h))
    && hp in h'.hdr && GetAlloc(h'.hdr[hp]) == 1 && GetSize(h'.hdr[hp]) >= n + DSIZE
  }

  lemma NoFitMeansTooSmall(h: Heap, asize: nat)
    requires Consistent(h) && Fit(h, asize) < 0
    ensures forall j :: 0 <= j < |h.L| ==> GetSize(h.hdr[h.L[j]]) < asize
  {
    var Z := FreeSizesOf(h);
    assert forall j :: 0 <= j < |h.L| ==> Z[j] == GetSize(h.hdr[h.L[j]]);
  }

  /** The pool path allocates a block of asize bytes, which holds n bytes. */
  lemma PoolMallocHolds(h: Heap, asize: nat, osGrants: bool, n: nat)
    requires Sound(h) && GrowthUnmapped(h) && asize in Classes && n + DSIZE <= asize
    ensures Serves(h, PoolMalloc(h, asize, osGrants), n)
  {
    if Fit(h, asize) >= 0 {
      FitServes(h, asize, osGrants, n);
    } else if osGrants {
      ChunkServes(h, asize, n);
    }
  }

  lemma FitServes(h: Heap, asize: nat, osGrants: bool, n: nat)
    requires Sound(h) && GrowthUnmapped(h) && asize in Classes && n + DSIZE <= asize
    requires Fit(h, asize) >= 0
    ensures Serves(h, PoolMalloc(h, asize, osGrants), n)
  {
    var k := Fit(h, asize);
    ListPlacedServes(h, k, asize, n);
    assert PoolMalloc(h, asize, osGrants) == (Returned(Blkp(h.L[k])), Placed(h, k, asize));
  }

  lemma ListPlacedServes(h: Heap, k: nat, asize: nat, n: nat)
    requires Sound(h) && k < |h.L| && asize in Classes && asize <= GetSize(h.hdr[h.L[k]]) && n + DSIZE <= asize
    ensures Serves(h, (Returned(Blkp(h.L[k])), Placed(h, k, asize)), n)
  {
    ListPlacedHolds(h, k, asize, n);
    assert Hdrp(Blkp(h.L[k])) == h.L[k];
  }

  lemma ChunkServes(h: Heap, asize: nat, n: nat)
    requires Sound(h) && GrowthUnmapped(h) && asize in Classes && n + DSIZE <= asize
    requires Fit(h, asize) < 0
    ensures Serves(h, PoolMalloc(h, asize, true), n)
  {
    ChunkPlacedHolds(h, asize, n);
    assert PoolMalloc(h, asize, true) == (Returned(Blkp(h.brk)), ChunkPlaced(h, asize));
    assert Hdrp(Blkp(h.brk)) == h.brk;
  }

  lemma ListPlacedHolds(h: Heap, k: nat, asize: nat, n: nat)
    requires Sound(h) && k < |h.L| && asize in Classes && asize <= GetSize(h.hdr[h.L[k]]) && n + DSIZE <= asize
    ensures Sound(Placed(h, k, asize))
    ensures Allocation(h, Placed(h, k, asize), h.L[k], n)
  {
    PlaceConsistent(h, k, asize);
    PlaceList(h, k, asize);
    PlaceHeld(h, k, asize);
  }

  lemma ChunkPlacedHolds(h: Heap, asize: nat, n: nat)
    requires Sound(h) && GrowthUnmapped(h) && asize in Classes && n + DSIZE <= asize
    ensures Sound(ChunkPlaced(h, asize))
    ensures Allocation(h, ChunkPlaced(h, asize), h.brk, n)
  {
    ChunkPlacedSound(h, asize);
    ChunkPlacedHeld(h, asize);
  }

  lemma ChunkPlacedSound(h: Heap, asize: nat)
    requires Sound(h) && GrowthUnmapped(h) && asize in Classes
    ensures Sound(ChunkPlaced(h, asize))
    ensures h.brk in ChunkPlaced(h, asize).hdr && GetAlloc(ChunkPlaced(h, asize).hdr[h.brk]) == 1
    ensures GetSize(ChunkPlaced(h, asize).hdr[h.brk]) == asize
  {
    ClassAligned(asize);
    GrowTail(h);
    PlaceList(Grow(h), |h.L|, asize);
    PlaceConsistent(Grow(h), |h.L|, asize);
  }

  lemma ChunkPlacedHeld(h: Heap, asize: nat)
    requires Consistent(h) && GrowthUnmapped(h) && asize in Classes
    ensures h.brk !in Held(h) && Held(ChunkPlaced(h, asize)) == Held(h) + {h.brk}
    ensures HeadersKept(h, ChunkPlaced(h, asize), Held(h))
  {
    ClassAligned(asize);
    GrowTail(h);
    GrowKeepsHeld(h);
    assert h.brk !in Held(h) by {
      GrowSpec(h);
    }
    PlaceHeld(Grow(h), |h.L|, asize);
    KeptTwice(h, Grow(h), ChunkPlaced(h, asize), Held(h));
  }

  /** Headers kept over two steps are kept over both. */
  lemma KeptTwice(h1: Heap, h2: Heap, h3: Heap, S: set<nat>)
    requires HeadersKept(h1, h2, S) && HeadersKept(h2, h3, S)
    ensures HeadersKept(h1, h3, S)
  {
  }

  lemma MallocFromBulk(h: Heap, n: Word, region: nat)
    requires Sound(h) && n > MAX_POOL_REQUEST && BulkSize(n).Some? && region != Null
    requires RegionFresh(h, n, region)
    ensures Sound(AddBulk(h, region, BulkSize(n).value))
    ensures Allocation(h, AddBulk(h, region, BulkSize(n).value), region, n)
  {
    var size := BulkSize(n).value;
    AddBulkSpec(h, region, size);
    AddBulkKeepsHeld(h, region, size);
    PackRoundTrip(size, 1);
    NewRegionApart(h.bulk, region, size);
  }

  /** A bulk request never grows the heap or touches the free list: malloc
    * returns the region's payload and only records the region, with the
    * size handed to bulk_alloc in its header. */
  lemma BulkRoundTrip(h: Heap, n: Word, osGrants: bool, region: nat)
    requires Sound(h) && GrowthUnmapped(h) && RegionFresh(h, n, region)
    requires n > MAX_POOL_REQUEST && BulkSize(n).Some? && region != Null
    ensures MallocSpec(h, n, osGrants, region) == (Returned(Blkp(region)), AddBulk(h, region, BulkSize(n).value))
    ensures region !in h.pool && region !in h.bulk && BulkFreed(h, region, BulkSize(n).value)
  {
    MallocFromBulk(h, n, region);
    BulkFreeUndoes(h, region, BulkSize(n).value);
  }

  /** After a bulk region is recorded, its header gives back the size it was
    * recorded with, so free hands bulk_free that very size; free then
    * leaves the heap as it was but for the header word. */
  ghost predicate BulkFreed(h: Heap, region: nat, size: Word)
    requires Consistent(h) && region !in h.pool && region !in h.bulk && size > CHUNK_SIZE && size % DSIZE == 0
  {
    var h1 := AddBulk(h, region, size);
    && Consistent(h1) && region in Held(h1)
    && GetSize(h1.hdr[region]) == h1.bulk[region]
    && FreeSpec(h1, region) == h.(hdr := h1.hdr)
  }

  lemma BulkFreeUndoes(h: Heap, region: nat, size: Word)
    requires Consistent(h) && RegionUnused(h.pool, h.hdr, h.bulk, region, size) && size > CHUNK_SIZE && size % DSIZE == 0
    ensures region !in h.pool && region !in h.bulk && BulkFreed(h, region, size)
  {
    AddBulkSpec(h, region, size);
    var h1 := AddBulk(h, region, size);
    PackRoundTrip(size, 1);
    HeldKinds(h1, region);
    assert FreeSpec(h1, region) == h1.(bulk := h1.bulk - {region});
    assert h1.bulk - {region} == h.bulk;
  }

  /** The sbrk check of the allocator's test (tests/test_simple_malloc.c):
    * once a malloc of n bytes has had to grow the heap, the next malloc of
    * n bytes is served from the list, whatever sbrk would answer, and the
    * break does not move again.  This holds for classes below 4096, where
    * place leaves a free buddy of the same class. */
  lemma PrimedClassNeedsNoSbrk(h: Heap, n: Word, region: nat, osGrants2: bool, region2: nat)
    requires Sound(h) && GrowthUnmapped(h) && 1 <= n <= MAX_POOL_REQUEST && ClassSize(n) < CHUNK_SIZE
    requires Fit(h, ClassSize(n)) < 0 && GrowthUnmapped(MallocSpec(h, n, true, region).1)
    ensures MallocSpec(h, n, true, region).0 == Returned(Blkp(h.brk))
    ensures Consistent(MallocSpec(h, n, true, region).1) && MallocSpec(h, n, true, region).1.brk == h.brk + CHUNK_SIZE
    ensures MallocSpec(MallocSpec(h, n, true, region).1, n, osGrants2, region2).0.Returned?
    ensures MallocSpec(MallocSpec(h, n, true, region).1, n, osGrants2, region2).0.ptr != Null
    ensures MallocSpec(MallocSpec(h, n, true, region).1, n, osGrants2, region2).1.brk == h.brk + CHUNK_SIZE
  {
    var c := ClassSize(n);
    ClassSizeIsSmallestFit(n);
    var h1 := ChunkPlaced(h, c);
    assert MallocSpec(h, n, true, region) == PoolMalloc(h, c, true) == (Returned(Blkp(h.brk)), h1);
    ChunkLeavesBuddy(h, c);
    var k := Fit(h1, c);
    assert MallocSpec(h1, n, osGrants2, region2) == PoolMalloc(h1, c, osGrants2) == (Returned(Blkp(h1.L[k])), Placed(h1, k, c));
    PlaceSpec(h1, k, c);
  }

  /** Placing a class below 4096 on a fresh chunk leaves a free block of
    * that class, so find_free_block finds one next time. */
  lemma ChunkLeavesBuddy(h: Heap, asize: nat)
    requires Consistent(h) && GrowthUnmapped(h) && asize in Classes && asize < CHUNK_SIZE
    ensures Consistent(ChunkPlaced(h, asize)) && Fit(ChunkPlaced(h, asize), asize) >= 0
    ensures ChunkPlaced(h, asize).brk == h.brk + CHUNK_SIZE
  {
    GrowTail(h);
    var g := Grow(h);
    assert ChunkPlaced(h, asize) == Placed(g, |h.L|, asize);
    assert g.brk == h.brk + CHUNK_SIZE;
    PlacedLeavesFit(g, |h.L|, asize);
  }

  /** Cutting a listed block down to a smaller class leaves a free block
    * of that class in its place on the list. */
  lemma PlacedLeavesFit(g: Heap, i: nat, asize: nat)
    requires Consistent(g) && i < |g.L| && asize in Classes && asize < GetSize(g.hdr[g.L[i]])
    ensures Consistent(Placed(g, i, asize)) && Fit(Placed(g, i, asize), asize) >= i
    ensures Placed(g, i, asize).brk == g.brk
  {
    PlaceList(g, i, asize);
    ListedBlock(g, i);
    PlaceSizes(g, i, asize);
    var z := FreeSizesOf(g);
    BuddySizesFirst(asize, GetSize(g.hdr[g.L[i]]));
    TailFitFindsRun(z[..i], BuddySizes(asize, GetSize(g.hdr[g.L[i]])), z[i + 1..], asize);
  }

  /** A region that overlaps no bulk region keeps the ledger apart. */
  lemma NewRegionApart(bulk: map<nat, nat>, region: nat, size: nat)
    requires BulksApart(bulk) && region !in bulk
    requires forall b :: b in bulk ==> region + size <= b || b + bulk[b] <= region
    ensures BulksApart(bulk[region := size])
  {
    var bulk' := bulk[region := size];
    forall a, b | a in bulk' && b in bulk' && a != b
      ensures a + bulk'[a] <= b || b + bulk'[b] <= a
    {
      if a != region && b != region {
        assert a + bulk[a] <= b || b + bulk[b] <= a;
      }
    }
  }

  // ---------------------------------------------------------------------
  // free

  /** What free promises: the heap stays sound, the block is no longer
    * held, every other held block keeps its header, and a pool block's
    * bytes return to the free list. */
  lemma FreeHolds(h: Heap, hp: nat)
    requires Sound(h) && hp in Held(h)
    ensures Sound(FreeSpec(h, hp))
    ensures Held(FreeSpec(h, hp)) == Held(h) - {hp}
    ensures HeadersKept(h, FreeSpec(h, hp), Held(h) - {hp})
    ensures FreeSpec(h, hp).brk == h.brk
    ensures hp in h.pool ==> FreeSizesOf(FreeSpec(h, hp)) == FreeSizesOf(h) + [GetSize(h.hdr[hp])]
    ensures hp !in h.pool ==> FreeSizesOf(FreeSpec(h, hp)) == FreeSizesOf(h)
  {
    HeldKinds(h, hp);
    if IsBulkHeaderSize(GetSize(h.hdr[hp])) {
      DropBulkSpec(h, hp);
    } else {
      ReleaseSpec(h, hp);
      ReleaseKeepsHeld(h, hp);
    }
  }

  /** A freed pool block becomes the tail of the free list, where
    * find_free_block looks first: the next malloc whose class fits in it
    * returns the same pointer. */
  lemma FreeThenMallocReuses(h: Heap, hp: nat, n: Word, osGrants: bool, region: nat)
    requires Sound(h) && GrowthUnmapped(h) && hp in Held(h) && hp in h.pool
    requires 1 <= n <= MAX_POOL_REQUEST && ClassSize(n) <= GetSize(h.hdr[hp])
    ensures Consistent(FreeSpec(h, hp)) && GrowthUnmapped(FreeSpec(h, hp))
    ensures MallocSpec(FreeSpec(h, hp), n, osGrants, region).0 == Returned(Blkp(hp))
  {
    FreedIsTail(h, hp);
    var h' := FreeSpec(h, hp);
    ClassSizeIsSmallestFit(n);
    TailFitAppended(FreeSizesOf(h), GetSize(h.hdr[hp]), ClassSize(n));
    assert Fit(h', ClassSize(n)) == |h.L|;
    assert MallocSpec(h', n, osGrants, region) == PoolMalloc(h', ClassSize(n), osGrants);
  }

  lemma FreedIsTail(h: Heap, hp: nat)
    requires Sound(h) && GrowthUnmapped(h) && hp in Held(h) && hp in h.pool
    ensures Consistent(FreeSpec(h, hp)) && GrowthUnmapped(FreeSpec(h, hp))
    ensures FreeSpec(h, hp).L == h.L + [hp]
    ensures FreeSizesOf(FreeSpec(h, hp)) == FreeSizesOf(h) + [GetSize(h.hdr[hp])]
  {
    HeldKinds(h, hp);
    ReleaseSpec(h, hp);
    assert FreeSpec(h, hp) == PushTail(h, hp, GetSize(h.hdr[hp]));
  }

  /** Freeing what malloc returned gives back exactly the blocks held
    * before the call. */
  lemma MallocThenFree(h: Heap, n: Word, osGrants: bool, region: nat)
    requires Sound(h) && GrowthUnmapped(h) && RegionFresh(h, n, region)
    requires MallocSpec(h, n, osGrants, region).0.Returned? && MallocSpec(h, n, osGrants, region).0.ptr != Null
    ensures MallocSpec(h, n, osGrants, region).0.ptr >= DSIZE
    ensures Hdrp(MallocSpec(h, n, osGrants, region).0.ptr) in Held(MallocSpec(h, n, osGrants, region).1)
    ensures Consistent(MallocSpec(h, n, osGrants, region).1)
    ensures Held(FreeSpec(MallocSpec(h, n, osGrants, region).1, Hdrp(MallocSpec(h, n, osGrants, region).0.ptr))) == Held(h)
  {
    MallocHolds(h, n, osGrants, region);
    AllocationThenFree(h, MallocSpec(h, n, osGrants, region).1, Hdrp(MallocSpec(h, n, osGrants, region).0.ptr), n);
  }

  lemma AllocationThenFree(h: Heap, h1: Heap, hp: nat, n: nat)
    requires Sound(h1) && Allocation(h, h1, hp, n)
    ensures hp in Held(h1) && Held(FreeSpec(h1, hp)) == Held(h)
  {
    FreeHolds(h1, hp);
  }

  // ---------------------------------------------------------------------
  // realloc

  /** realloc's move path (mm.c:511-522) on the heap: malloc the new size,
    * then free the old block at hp.  The call crashes where malloc does,
    * and where memcpy writes bytes to the NULL malloc returned. */
  ghost function ReallocMove(h: Heap, hp: nat, n: Word, osGrants: bool, region: nat): (Outcome, Heap)
    requires Sound(h) && GrowthUnmapped(h) && RegionFresh(h, n, region) && hp in Held(h)
  {
    MallocHolds(h, n, osGrants, region);
    MallocFails(h, n, osGrants, region);
    var r := MallocSpec(h, n, osGrants, region);
    if r.0.Crashed? || (r.0 == Returned(Null) && n > 0) then (Crashed, r.1)
    else (r.0, FreeSpec(r.1, hp))
  }

  /** What realloc's move path promises: the heap stays sound and the old
    * block at hp is released; NULL comes back only for n = 0, and any
    * other pointer is the payload of a block no caller held, with room for
    * n bytes. */
  ghost predicate Moved(h: Heap, hp: nat, r: (Outcome, Heap), n: nat)
  {
    r.0.Returned? ==>
      && Sound(r.1)
      && (r.0.ptr == Null ==> n == 0 && Held(r.1) == Held(h) - {hp})
      && (r.0.ptr != Null ==>
            && r.0.ptr >= DSIZE && Hdrp(r.0.ptr) !in Held(h)
            && Held(r.1) == Held(h) - {hp} + {Hdrp(r.0.ptr)}
            && Hdrp(r.0.ptr) in r.1.hdr && GetSize(r.1.hdr[Hdrp(r.0.ptr)]) >= n + DSIZE)
  }

  lemma ReallocMoveHolds(h: Heap, hp: nat, n: Word, osGrants: bool, region: nat)
    requires Sound(h) && GrowthUnmapped(h) && RegionFresh(h, n, region) && hp in Held(h)
    ensures Moved(h, hp, ReallocMove(h, hp, n, osGrants, region), n)
  {
    MallocHolds(h, n, osGrants, region);
    MallocFails(h, n, osGrants, region);
    var r := MallocSpec(h, n, osGrants, region);
    if r.0.Returned? && r.0.ptr != Null {
      MovedToNew(h, hp, n, osGrants, region);
    } else if r.0 == Returned(Null) && n == 0 {
      MovedToNull(h, hp, n, osGrants, region);
    }
  }

  lemma MovedToNew(h: Heap, hp: nat, n: Word, osGrants: bool, region: nat)
    requires Sound(h) && GrowthUnmapped(h) && RegionFresh(h, n, region) && hp in Held(h)
    requires MallocSpec(h, n, osGrants, region).0.Returned? && MallocSpec(h, n, osGrants, region).0.ptr != Null
    ensures Moved(h, hp, ReallocMove(h, hp, n, osGrants, region), n)
  {
    MallocHolds(h, n, osGrants, region);
    var r := MallocSpec(h, n, osGrants, region);
    assert ReallocMove(h, hp, n, osGrants, region) == (r.0, FreeSpec(r.1, hp));
    FreeAfterAllocation(h, r.1, Hdrp(r.0.ptr), hp, n);
  }

  lemma MovedToNull(h: Heap, hp: nat, n: Word, osGrants: bool, region: nat)
    requires Sound(h) && GrowthUnmapped(h) && RegionFresh(h, n, region) && hp in Held(h)
    requires MallocSpec(h, n, osGrants, region).0 == Returned(Null) && n == 0
    ensures Moved(h, hp, ReallocMove(h, hp, n, osGrants, region), n)
  {
    assert MallocSpec(h, n, osGrants, region) == (Returned(Null), h);
    assert ReallocMove(h, hp, n, osGrants, region) == (Returned(Null), FreeSpec(h, hp));
    FreeHolds(h, hp);
  }

  /** Freeing a block held before an allocation leaves the allocated block
    * held, with its header. */
  lemma FreeAfterAllocation(h: Heap, h1: Heap, k: nat, hp: nat, n: nat)
    requires Sound(h1) && Allocation(h, h1, k, n) && hp in Held(h)
    ensures hp in Held(h1) && k != hp
    ensures Sound(FreeSpec(h1, hp)) && Held(FreeSpec(h1, hp)) == Held(h) - {hp} + {k}
    ensures k in FreeSpec(h1, hp).hdr && GetSize(FreeSpec(h1, hp).hdr[k]) >= n + DSIZE
  {
    FreeHolds(h1, hp);
  }

  /** Two blocks a caller holds never overlap. */
  lemma HeldApart(h: Heap, a: nat, b: nat)
    requires Sound(h) && a in Held(h) && b in Held(h) && a != b
    ensures a + GetSize(h.hdr[a]) <= b || b + GetSize(h.hdr[b]) <= a
  {
    HeldKinds(h, a);
    HeldKinds(h, b);
    if a in h.pool && b in h.pool {
      TiledApart(h.pool, h.hdr, h.brk, a, b);
    } else if a in h.pool {
      BulkOutsidePool(h.pool, h.hdr, h.brk, h.bulk, b);
      OutsideRegion(h.pool, h.hdr, b, h.bulk[b], a);
    } else if b in h.pool {
      BulkOutsidePool(h.pool, h.hdr, h.brk, h.bulk, a);
      OutsideRegion(h.pool, h.hdr, a, h.bulk[a], b);
    } else {
      BulkOutsidePool(h.pool, h.hdr, h.brk, h.bulk, a);
      BulkOutsidePool(h.pool, h.hdr, h.brk, h.bulk, b);
    }
  }
}
