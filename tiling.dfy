/** How the blocks of src/mm.c sit in memory, on values.
  *
  * Pool blocks come from sbrk and from halving: each has a class-sized
  * header, lies below the program break, and overlaps no other pool block.
  * Bulk blocks come from the bulk provider: each header records the exact
  * size given to bulk_alloc with the allocated flag set, and the region
  * overlaps no pool block.  These facts are what make every header write of
  * split_free_block, extend_heap, place and free land on the block it means.
  */
module Tiling {
  import opened Layout
  import opened Sizing

  /** Pool blocks are class-sized, below the break, and pairwise disjoint. */
  ghost predicate Tiled(pool: set<nat>, hdr: map<nat, Word>, brk: nat)
  {
    && (forall a :: a in pool ==> a in hdr)
    && (forall a {:trigger GetSize(hdr[a])} :: a in pool && a in hdr ==> GetSize(hdr[a]) in Classes && a + GetSize(hdr[a]) <= brk)
    && (forall a, b {:trigger Apart(hdr, a, b)} :: a in pool && b in pool && a != b ==> Apart(hdr, a, b))
  }

  /** The blocks with headers a and b do not overlap.  Tiled is stated
    * through this predicate so that its pairwise part is only instantiated
    * for the pairs a proof names (TiledApart). */
  ghost predicate Apart(hdr: map<nat, Word>, a: nat, b: nat)
    requires a in hdr && b in hdr
  {
    a + GetSize(hdr[a]) <= b || b + GetSize(hdr[b]) <= a
  }

  lemma TiledApart(pool: set<nat>, hdr: map<nat, Word>, brk: nat, a: nat, b: nat)
    requires Tiled(pool, hdr, brk) && a in pool && b in pool && a != b
    ensures a + GetSize(hdr[a]) <= b || b + GetSize(hdr[b]) <= a
  {
    assert Apart(hdr, a, b);
  }

  /** Every pool block ends at or below the break. */
  lemma TiledBelowBreak(pool: set<nat>, hdr: map<nat, Word>, brk: nat, a: nat)
    requires Tiled(pool, hdr, brk) && a in pool
    ensures a in hdr && GetSize(hdr[a]) in Classes && a + GetSize(hdr[a]) <= brk
  {
    assert a + GetSize(hdr[a]) <= brk;
  }

  /** [lo, lo + size) overlaps no pool block. */
  ghost predicate ApartFromPool(pool: set<nat>, hdr: map<nat, Word>, lo: nat, size: nat)
  {
    forall a {:trigger GetSize(hdr[a])} :: a in pool && a in hdr ==> lo + size <= a || a + GetSize(hdr[a]) <= lo
  }

  lemma OutsideRegion(pool: set<nat>, hdr: map<nat, Word>, lo: nat, size: nat, a: nat)
    requires ApartFromPool(pool, hdr, lo, size) && a in pool && a in hdr
    ensures lo + size <= a || a + GetSize(hdr[a]) <= lo
  {
    assert a + GetSize(hdr[a]) <= lo || lo + size <= a;
  }

  /** A bulk region is never a pool block. */
  lemma BulkOutsidePool(pool: set<nat>, hdr: map<nat, Word>, brk: nat, bulk: map<nat, nat>, b: nat)
    requires Tiled(pool, hdr, brk) && BulkApart(bulk, pool, hdr) && b in bulk
    ensures b !in pool && b in hdr && GetSize(hdr[b]) == bulk[b] > CHUNK_SIZE
  {
    forall a | a in pool
      ensures a != b
    {
      TiledBelowBreak(pool, hdr, brk, a);
      OutsideRegion(pool, hdr, b, bulk[b], a);
    }
  }

  /** Every outstanding bulk region carries the header malloc wrote for it
    * and overlaps no pool block. */
  ghost predicate BulkApart(bulk: map<nat, nat>, pool: set<nat>, hdr: map<nat, Word>)
  {
    forall b :: b in bulk ==>
      && b in hdr && GetSize(hdr[b]) == bulk[b] && GetAlloc(hdr[b]) == 1 && bulk[b] > CHUNK_SIZE
      && ApartFromPool(pool, hdr, b, bulk[b])
  }

  /** A region the bulk provider may hand out: it overlaps no pool block and
    * no outstanding bulk region. */
  ghost predicate RegionUnused(pool: set<nat>, hdr: map<nat, Word>, bulk: map<nat, nat>, region: nat, size: nat)
  {
    && region != Null
    && ApartFromPool(pool, hdr, region, size)
    && (forall b :: b in bulk ==> region + size <= b || b + bulk[b] <= region)
  }

  /** Halving a pool block (mm.c:280-294): the second half's header lands
    * inside the block, on no live header, and the two halves keep the layout. */
  lemma SplitKeepsTiling(pool: set<nat>, hdr: map<nat, Word>, brk: nat, bulk: map<nat, nat>, hp: nat, half: nat)
    requires Tiled(pool, hdr, brk) && BulkApart(bulk, pool, hdr)
    requires hp in pool && half in Classes && 2 * half == GetSize(hdr[hp])
    ensures hp < hp + half && hp + half !in pool && hp + half !in bulk
    ensures Tiled(pool + {hp + half}, hdr[hp := Pack(half, 0)][hp + half := Pack(half, 0)], brk)
    ensures BulkApart(bulk, pool + {hp + half}, hdr[hp := Pack(half, 0)][hp + half := Pack(half, 0)])
  {
    ClassAligned(half);
    PackRoundTrip(half, 0);
    SplitPointIsUnused(pool, hdr, brk, bulk, hp, half);
    SplitHalvesTile(pool, hdr, brk, hp, half);
    SplitKeepsBulkApart(pool, hdr, bulk, hp, half);
  }

  lemma SplitPointIsUnused(pool: set<nat>, hdr: map<nat, Word>, brk: nat, bulk: map<nat, nat>, hp: nat, half: nat)
    requires Tiled(pool, hdr, brk) && BulkApart(bulk, pool, hdr)
    requires hp in pool && 0 < half && 2 * half == GetSize(hdr[hp])
    ensures hp + half !in pool && hp + half !in bulk
  {
    forall a | a in pool && a != hp
      ensures a != hp + half
    {
      TiledApart(pool, hdr, brk, a, hp);
    }
    forall b | b in bulk
      ensures b != hp + half
    {
      OutsideRegion(pool, hdr, b, bulk[b], hp);
    }
  }

  lemma SplitHalvesTile(pool: set<nat>, hdr: map<nat, Word>, brk: nat, hp: nat, half: nat)
    requires Tiled(pool, hdr, brk)
    requires hp in pool && 2 * half == GetSize(hdr[hp]) && hp + half !in pool
    requires half in Classes && GetSize(Pack(half, 0)) == half
    ensures Tiled(pool + {hp + half}, hdr[hp := Pack(half, 0)][hp + half := Pack(half, 0)], brk)
  {
    var x := hp + half;
    var hdr' := hdr[hp := Pack(half, 0)][x := Pack(half, 0)];
    var pool' := pool + {x};
    TiledBelowBreak(pool, hdr, brk, hp);
    forall a, b | a in pool' && b in pool' && a != b
      ensures Apart(hdr', a, b)
    {
      if a != x && b != x && a != hp && b != hp {
        TiledApart(pool, hdr, brk, a, b);
      } else if a == hp || a == x {
        if b != hp && b != x {
          TiledApart(pool, hdr, brk, b, hp);
        }
      } else {
        TiledApart(pool, hdr, brk, a, hp);
      }
    }
  }

  lemma SplitKeepsBulkApart(pool: set<nat>, hdr: map<nat, Word>, bulk: map<nat, nat>, hp: nat, half: nat)
    requires BulkApart(bulk, pool, hdr) && hp in pool && hp in hdr && 2 * half == GetSize(hdr[hp])
    requires hp + half !in pool && hp + half !in bulk && GetSize(Pack(half, 0)) == half
    ensures BulkApart(bulk, pool + {hp + half}, hdr[hp := Pack(half, 0)][hp + half := Pack(half, 0)])
  {
    var x := hp + half;
    var hdr' := hdr[hp := Pack(half, 0)][x := Pack(half, 0)];
    forall b | b in bulk
      ensures b in hdr' && hdr'[b] == hdr[b] && ApartFromPool(pool + {x}, hdr', b, bulk[b])
    {
      SplitKeepsBulkEntry(pool, hdr, bulk, hp, half, b);
    }
  }

  lemma SplitKeepsBulkEntry(pool: set<nat>, hdr: map<nat, Word>, bulk: map<nat, nat>, hp: nat, half: nat, b: nat)
    requires BulkApart(bulk, pool, hdr) && b in bulk && hp in pool && hp in hdr
    requires 2 * half == GetSize(hdr[hp]) && hp + half !in bulk && GetSize(Pack(half, 0)) == half
    ensures b in hdr[hp := Pack(half, 0)][hp + half := Pack(half, 0)]
    ensures hdr[hp := Pack(half, 0)][hp + half := Pack(half, 0)][b] == hdr[b]
    ensures ApartFromPool(pool + {hp + half}, hdr[hp := Pack(half, 0)][hp + half := Pack(half, 0)], b, bulk[b])
  {
    OutsideRegion(pool, hdr, b, bulk[b], hp);
    SplitKeepsApart(pool, hdr, b, bulk[b], hp, half);
  }

  /** A range apart from a block is apart from both of its halves. */
  lemma SplitKeepsApart(pool: set<nat>, hdr: map<nat, Word>, lo: nat, size: nat, hp: nat, half: nat)
    requires ApartFromPool(pool, hdr, lo, size) && hp in pool && hp in hdr
    requires 2 * half == GetSize(hdr[hp]) && GetSize(Pack(half, 0)) == half
    ensures ApartFromPool(pool + {hp + half}, hdr[hp := Pack(half, 0)][hp + half := Pack(half, 0)], lo, size)
  {
    var hdr' := hdr[hp := Pack(half, 0)][hp + half := Pack(half, 0)];
    OutsideRegion(pool, hdr, lo, size, hp);
    forall a | a in pool + {hp + half} && a in hdr'
      ensures lo + size <= a || a + GetSize(hdr'[a]) <= lo
    {
      if a != hp && a != hp + half {
        OutsideRegion(pool, hdr, lo, size, a);
      }
    }
  }

  /** A block fresh from sbrk (mm.c:415-421): the new CHUNK_SIZE bytes at the
    * old break overlap nothing, provided no bulk region sits there. */
  lemma GrowKeepsTiling(pool: set<nat>, hdr: map<nat, Word>, brk: nat, bulk: map<nat, nat>)
    requires Tiled(pool, hdr, brk) && BulkApart(bulk, pool, hdr)
    requires forall b :: b in bulk ==> b + bulk[b] <= brk || brk + CHUNK_SIZE <= b
    ensures brk !in pool && brk !in bulk
    ensures Tiled(pool + {brk}, hdr[brk := Pack(CHUNK_SIZE, 0)], brk + CHUNK_SIZE)
    ensures BulkApart(bulk, pool + {brk}, hdr[brk := Pack(CHUNK_SIZE, 0)])
  {
    PackRoundTrip(CHUNK_SIZE, 0);
    var hdr' := hdr[brk := Pack(CHUNK_SIZE, 0)];
    forall a | a in pool
      ensures a != brk
    {
      TiledBelowBreak(pool, hdr, brk, a);
    }
    forall a, b | a in pool + {brk} && b in pool + {brk} && a != b
      ensures Apart(hdr', a, b)
    {
      if a != brk && b != brk {
        TiledApart(pool, hdr, brk, a, b);
      }
    }
    forall b | b in bulk
      ensures b != brk && ApartFromPool(pool + {brk}, hdr', b, bulk[b])
    {
      assert ApartFromPool(pool, hdr, b, bulk[b]);
    }
  }

  /** Rewriting a pool block's header with its own size and a new flag
    * (place mm.c:351, free mm.c:553) keeps the layout. */
  lemma ReflagKeepsTiling(pool: set<nat>, hdr: map<nat, Word>, brk: nat, bulk: map<nat, nat>, hp: nat, alloc: nat)
    requires Tiled(pool, hdr, brk) && BulkApart(bulk, pool, hdr)
    requires hp in pool && alloc <= 1
    ensures hp !in bulk
    ensures Tiled(pool, hdr[hp := Pack(GetSize(hdr[hp]), alloc)], brk)
    ensures BulkApart(bulk, pool, hdr[hp := Pack(GetSize(hdr[hp]), alloc)])
  {
    PackRoundTrip(GetSize(hdr[hp]), alloc);
    ReflagKeepsTiled(pool, hdr, brk, hp, Pack(GetSize(hdr[hp]), alloc));
    ReflagKeepsBulkApart(pool, hdr, brk, bulk, hp, Pack(GetSize(hdr[hp]), alloc));
  }

  lemma ReflagKeepsTiled(pool: set<nat>, hdr: map<nat, Word>, brk: nat, hp: nat, w: Word)
    requires Tiled(pool, hdr, brk) && hp in pool && GetSize(w) == GetSize(hdr[hp])
    ensures Tiled(pool, hdr[hp := w], brk)
  {
    var hdr' := hdr[hp := w];
    forall a, b | a in pool && b in pool && a != b
      ensures Apart(hdr', a, b)
    {
      TiledApart(pool, hdr, brk, a, b);
    }
  }

  lemma ReflagKeepsBulkApart(pool: set<nat>, hdr: map<nat, Word>, brk: nat, bulk: map<nat, nat>, hp: nat, w: Word)
    requires Tiled(pool, hdr, brk) && BulkApart(bulk, pool, hdr)
    requires hp in pool && GetSize(w) == GetSize(hdr[hp])
    ensures hp !in bulk
    ensures BulkApart(bulk, pool, hdr[hp := w])
  {
    var hdr' := hdr[hp := w];
    forall b | b in bulk
      ensures b != hp && ApartFromPool(pool, hdr', b, bulk[b])
    {
      assert ApartFromPool(pool, hdr, b, bulk[b]);
    }
  }

  /** Recording a new bulk region and writing its header (mm.c:202-204). */
  lemma AddBulkKeepsTiling(pool: set<nat>, hdr: map<nat, Word>, brk: nat, bulk: map<nat, nat>, region: nat, size: Word)
    requires Tiled(pool, hdr, brk) && BulkApart(bulk, pool, hdr)
    requires RegionUnused(pool, hdr, bulk, region, size) && size > CHUNK_SIZE && size % DSIZE == 0
    ensures region !in pool && region !in bulk
    ensures Tiled(pool, hdr[region := Pack(size, 1)], brk)
    ensures BulkApart(bulk[region := size], pool, hdr[region := Pack(size, 1)])
  {
    PackRoundTrip(size, 1);
    var hdr' := hdr[region := Pack(size, 1)];
    forall a | a in pool
      ensures a != region
    {
      TiledBelowBreak(pool, hdr, brk, a);
      OutsideRegion(pool, hdr, region, size, a);
    }
    assert forall a :: a in pool ==> hdr'[a] == hdr[a];
    forall a, b | a in pool && b in pool && a != b
      ensures Apart(hdr', a, b)
    {
      TiledApart(pool, hdr, brk, a, b);
    }
    forall b | b in bulk[region := size]
      ensures b in hdr' && GetSize(hdr'[b]) == bulk[region := size][b]
      ensures GetAlloc(hdr'[b]) == 1 && ApartFromPool(pool, hdr', b, bulk[region := size][b])
    {
      if b != region {
        assert region + size <= b || b + bulk[b] <= region;
        assert ApartFromPool(pool, hdr, b, bulk[b]);
      }
    }
  }
}
