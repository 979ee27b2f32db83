/** The allocator of src/mm.c as it runs: the header and link words it
  * writes, the free-list anchor and the heap break, with malloc, free,
  * calloc and realloc and the static helpers they call.
  *
  * Memory is three maps keyed by header address: hdr holds header words,
  * pred and succ the two link words a free block keeps at BLKP(hp) and
  * BLKP(hp) + 8.  anchor is the global explicit_free_lists: the payload
  * pointer of the tail of the free list, or Null.  The ghost fields say what
  * the words mean: L is the free list from head to tail, pool the headers of
  * every pool block, bulk the regions held from the bulk provider with the
  * sizes they were requested with, and data the payload bytes of every
  * block a caller holds.  Each operation is proved to compute the heap that
  * the functions of module Calls describe.
  */
module Pool {
  import opened Layout
  import opened Sizing
  import opened FreeList
  import opened Tiling
  import opened HeapState
  import opened Calls

  /** n zero bytes, as memset(p, 0, n) leaves them. */
  function Zeros(n: nat): (z: seq<bv8>)
    ensures |z| == n && forall k :: 0 <= k < n ==> z[k] == 0
  {
    seq(n, _ => 0)
  }

  /** data holds a payload of GET_SIZE - 8 bytes for exactly the blocks a
    * caller holds in h. */
  ghost predicate Payloads(h: Heap, data: map<nat, seq<bv8>>)
  {
    && data.Keys == Held(h)
    && (forall a :: a in data ==> a in h.hdr && |data[a]| + DSIZE == GetSize(h.hdr[a]))
  }

  /** After an allocation of the block at hp the payloads are the old ones
    * and a fresh one for hp. */
  lemma PayloadsAfterAllocation(h: Heap, h': Heap, hp: nat, n: nat, data: map<nat, seq<bv8>>, payload: seq<bv8>)
    requires Payloads(h, data) && Allocation(h, h', hp, n) && |payload| + DSIZE == GetSize(h'.hdr[hp])
    ensures Payloads(h', data[hp := payload])
    ensures hp !in data && |payload| >= n
  {
  }

  /** After a free of the block at hp the payloads are the old ones but
    * hp's. */
  lemma PayloadsAfterFree(h: Heap, h': Heap, hp: nat, data: map<nat, seq<bv8>>)
    requires Payloads(h, data) && hp in Held(h)
    requires Held(h') == Held(h) - {hp} && HeadersKept(h, h', Held(h) - {hp})
    ensures Payloads(h', data - {hp})
  {
  }

  lemma ReplacedKey(d: map<nat, seq<bv8>>, k: nat, v: seq<bv8>)
    ensures d[k := v] == d[k := d[k := v][k]]
  {
  }

  lemma ReplacedTwice(d: map<nat, seq<bv8>>, k: nat, v: seq<bv8>, w: seq<bv8>)
    ensures d[k := v][k := w] == d[k := w]
  {
  }

  lemma ReplacedThenDropped(d: map<nat, seq<bv8>>, k: nat, v: seq<bv8>, w: seq<bv8>, x: nat)
    requires k != x
    ensures d[k := v][k := w] - {x} == (d - {x})[k := w]
  {
  }

  class Allocator {
    var hdr: map<nat, Word>
    var pred: map<nat, nat>
    var succ: map<nat, nat>
    var anchor: nat
    var brk: nat
    ghost var L: seq<nat>
    ghost var pool: set<nat>
    ghost var bulk: map<nat, nat>
    ghost var data: map<nat, seq<bv8>>

    /** The heap the fields spell out. */
    ghost function State(): Heap
      reads this`hdr, this`pred, this`succ, this`anchor, this`brk, this`L, this`pool, this`bulk
    {
      Heap(hdr, pred, succ, anchor, brk, L, pool, bulk)
    }

    /** The heap is sound, and data holds a payload of GET_SIZE - 8 bytes
      * for exactly the blocks a caller holds. */
    ghost predicate Valid()
      reads this
    {
      Sound(State()) && Payloads(State(), data)
    }

    /** ptr was returned by an allocation call and not yet freed. */
    ghost predicate Allocated(ptr: nat)
      reads this
    {
      ptr >= DSIZE && Hdrp(ptr) in data
    }

    /** An empty heap whose break starts at initialBreak; the free list is
      * empty (explicit_free_lists = NULL). */
    constructor (initialBreak: nat)
      requires initialBreak > Null
      ensures Valid()
      ensures brk == initialBreak && anchor == Null
      ensures L == [] && pool == {} && bulk == map[] && data == map[]
    {
      hdr, pred, succ := map[], map[], map[];
      anchor, brk := Null, initialBreak;
      L, pool, bulk, data := [], {}, map[], map[];
    }

    /** sbrk(CHUNK_SIZE): osGrants says whether the system grants the bytes;
      * if it does, the old break comes back and the break moves up,
      * otherwise (void *) -1 comes back, here None. */
    method Sbrk(osGrants: bool) returns (p: Option<nat>)
      modifies this`brk
      ensures osGrants ==> p == Some(old(brk)) && brk == old(brk) + CHUNK_SIZE
      ensures !osGrants ==> p == None && brk == old(brk)
    {
      if osGrants {
        p := Some(brk);
        brk := brk + CHUNK_SIZE;
      } else {
        p := None;
      }
    }

    /** The payload of a block just allocated: GET_SIZE - 8 bytes of
      * unspecified contents. */
    ghost method GrantPayload(hp: nat)
      requires hp in hdr && GetSize(hdr[hp]) >= DSIZE
      modifies this`data
      ensures State() == old(State())
      ensures hp in data && |data[hp]| + DSIZE == GetSize(hdr[hp]) && data == old(data)[hp := data[hp]]
    {
      assert |Zeros(GetSize(hdr[hp]) - DSIZE)| + DSIZE == GetSize(hdr[hp]);
      ghost var payload: seq<bv8> :| |payload| + DSIZE == GetSize(hdr[hp]);
      data := data[hp := payload];
      ReplacedKey(old(data), hp, payload);
    }

    /** The payload of a freed block is gone. */
    ghost method DropPayload(hp: nat)
      modifies this`data
      ensures State() == old(State()) && data == old(data) - {hp}
    {
      data := data - {hp};
    }

    /** memset(BLKP(hp), 0, n): the first n payload bytes become zero. */
    ghost method ZeroPayload(hp: nat, n: nat)
      requires hp in data && n <= |data[hp]|
      modifies this`data
      ensures State() == old(State())
      ensures hp in data && data == old(data)[hp := data[hp]]
      ensures |data[hp]| == old(|data[hp]|) && data[hp][..n] == Zeros(n)
    {
      data := data[hp := Zeros(n) + data[hp][n..]];
      ReplacedKey(old(data), hp, Zeros(n) + old(data)[hp][n..]);
      assert data[hp][..n] == Zeros(n);
    }

    /** memcpy(BLKP(to), BLKP(from), n): the first n payload bytes of from
      * are copied to the front of to's payload. */
    ghost method CopyPayload(from: nat, to: nat, n: nat)
      requires Valid() && from in data && to in data && from != to && n <= |data[from]| && n <= |data[to]|
      modifies this`data
      ensures State() == old(State()) && Valid()
      ensures to in data && data == old(data)[to := data[to]]
      ensures |data[to]| == old(|data[to]|) && data[to][..n] == old(data)[from][..n]
    {
      data := data[to := data[from][..n] + data[to][n..]];
      ReplacedKey(old(data), to, old(data)[from][..n] + old(data)[to][n..]);
      assert data[to][..n] == old(data)[from][..n];
    }

    /** bulk_alloc(size): the provider hands out region, or NULL. */
    method BulkAlloc(size: nat, region: nat) returns (p: nat)
      modifies this`bulk
      ensures p == region
      ensures bulk == if region == Null then old(bulk) else old(bulk)[region := size]
    {
      if region != Null {
        bulk := bulk[region := size];
      }
      p := region;
    }

    /** bulk_free(ptr, size): size must be the one given to bulk_alloc. */
    method BulkFree(hp: nat, size: nat)
      requires hp in bulk && bulk[hp] == size
      modifies this`bulk
      ensures bulk == old(bulk) - {hp}
    {
      bulk := bulk - {hp};
    }

    /** split_free_block (mm.c:271-326): a free block of more than 32 bytes
      * at position i of the list becomes two free halves, the second one
      * linked in right after the first; a block of 32 bytes is left alone. */
    method SplitFreeBlock(hp: nat, ghost i: nat) returns (r: nat)
      requires i < |L| && L[i] == hp && hp in hdr && hp in succ && GetSize(hdr[hp]) in Classes
      modifies this`hdr, this`pred, this`succ, this`anchor, this`L, this`pool
      ensures r == hp
      ensures old(GetSize(hdr[hp])) <= 32 ==> State() == old(State())
      ensures old(GetSize(hdr[hp])) > 32 ==> State() == Halve(old(State()), i)
    {
      var size := GetSize(hdr[hp]);
      if size <= 32 {
        return hp;
      }
      ghost var h := State();
      var half: nat := size / 2;
      HalfOfClass(size);
      ClassAligned(half);
      PackRoundTrip(half, 0);
      var s := succ[hp];
      hdr := hdr[hp := Pack(half, 0)];
      var next: nat := hp + GetSize(hdr[hp]);
      hdr := hdr[next := Pack(half, 0)];
      if s != hp {
        succ := succ[hp := next];
        pred := pred[next := hp];
        succ := succ[next := s];
        pred := pred[s := next];
      } else {
        succ := succ[hp := next];
        pred := pred[next := hp];
        succ := succ[next := next];
        anchor := Blkp(next);
      }
      L := L[..i + 1] + [next] + L[i + 1..];
      pool := pool + {next};
      assert next == Buddy(h, i);
      r := hp;
    }

    /** place (mm.c:328-377): splits the block at position i of the list
      * until it has asize bytes, marks it allocated and unlinks it, in the
      * four cases of its self links. */
    method Place(hp: nat, asize: nat, ghost i: nat)
      requires Consistent(State()) && i < |L| && L[i] == hp && hp in hdr
      requires asize in Classes && asize <= GetSize(hdr[hp])
      modifies this`hdr, this`pred, this`succ, this`anchor, this`L, this`pool
      ensures State() == Placed(old(State()), i, asize)
      ensures data == old(data)
    {
      ghost var h0 := State();
      ListedBlock(h0, i);
      var p := hp;
      var size := GetSize(hdr[p]);
      while size > asize
        invariant Consistent(State()) && i < |L| && L[i] == p && p == hp && p in hdr && p in succ
        invariant size == GetSize(hdr[p]) && size in Classes && asize <= size
        invariant SplitDown(State(), i, asize) == SplitDown(h0, i, asize)
        decreases size
      {
        ghost var h := State();
        ClassAligned(asize);
        SplitDownStep(h, i, asize);
        HalveKeepsConsistent(h, i);
        p := SplitFreeBlock(p, i);
        size := GetSize(hdr[p]);
      }
      ListedBlock(State(), i);
      Allocate(p, asize, i);
    }

    /** The end of place (mm.c:350-377): the block at position i of the list
      * is marked allocated with its size and taken off the list, in the
      * four cases of its self links. */
    method Allocate(p: nat, asize: Word, ghost i: nat)
      requires i < |L| && L[i] == p && p in hdr && p in pred && p in succ && GetSize(hdr[p]) == asize
      modifies this`hdr, this`pred, this`succ, this`anchor, this`L, this`pool
      ensures State() == TakeOff(old(State()), i)
      ensures data == old(data)
    {
      var before, after := pred[p], succ[p];
      hdr := hdr[p := Pack(asize, 1)];
      if before != p && after != p {
        succ := succ[before := after];
        pred := pred[after := before];
      } else if before != p && after == p {
        succ := succ[before := before];
        anchor := Blkp(before);
      } else if before == p && after != p {
        pred := pred[after := after];
      } else {
        anchor := Null;
      }
      L := L[..i] + L[i + 1..];
    }

    /** find_free_block (mm.c:379-407): walks from the tail towards the head
      * along the pred links and returns the first block of at least asize
      * bytes, or NULL. */
    method FindFreeBlock(asize: nat) returns (hp: nat)
      requires WellLinked(L, pred, succ) && anchor == AnchorOf(L)
      requires forall k :: 0 <= k < |L| ==> L[k] in hdr
      ensures TailFit(SizesOf(hdr, L), asize) < 0 ==> hp == Null
      ensures TailFit(SizesOf(hdr, L), asize) >= 0 ==> hp == L[TailFit(SizesOf(hdr, L), asize)]
    {
      AnchorNullIffEmpty(L);
      if anchor == Null {
        return Null;
      }
      ghost var Z := SizesOf(hdr, L);
      var p := succ[Hdrp(anchor)];
      var prevp := pred[Hdrp(anchor)];
      ghost var i := |L| - 1;
      SelfLinksMarkEnds(L, pred, succ, i);
      assert Z[..i + 1] == Z;
      while prevp != p
        invariant 0 <= i < |L| && p == L[i] && prevp == pred[L[i]]
        invariant TailFit(Z, asize) == TailFit(Z[..i + 1], asize)
        decreases i
      {
        SelfLinksMarkEnds(L, pred, succ, i);
        if GetSize(hdr[p]) >= asize {
          return p;
        }
        assert Z[..i + 1][..i] == Z[..i];
        p := prevp;
        prevp := pred[p];
        i := i - 1;
      }
      SelfLinksMarkEnds(L, pred, succ, i);
      if GetSize(hdr[p]) >= asize {
        return p;
      }
      assert Z[..1][..0] == [];
      return Null;
    }

    /** The tail insertion extend_heap and free share (mm.c:431-447 and
      * mm.c:557-575): the block at x gets a free header of size bytes and
      * becomes the last entry of the free list. */
    method LinkAsTail(x: nat, size: Word)
      requires anchor != Null ==> anchor >= DSIZE && Hdrp(anchor) in succ
      modifies this`hdr, this`pred, this`succ, this`anchor, this`L, this`pool
      ensures State() == PushTail(old(State()), x, size) && data == old(data)
    {
      hdr := hdr[x := Pack(size, 0)];
      if anchor == Null {
        pred := pred[x := x];
        succ := succ[x := x];
        anchor := Blkp(x);
      } else {
        pred := pred[x := succ[Hdrp(anchor)]];
        succ := succ[Hdrp(anchor) := x];
        succ := succ[x := x];
        anchor := Blkp(x);
      }
      L := L + [x];
      pool := pool + {x};
    }

    /** extend_heap (mm.c:409-454): asks sbrk for CHUNK_SIZE bytes and
      * appends them to the free list as one free block, or returns NULL. */
    method ExtendHeap(osGrants: bool) returns (hp: nat)
      requires anchor != Null ==> anchor >= DSIZE && Hdrp(anchor) in succ
      modifies this`hdr, this`pred, this`succ, this`anchor, this`L, this`pool, this`brk
      ensures !osGrants ==> hp == Null && State() == old(State())
      ensures osGrants ==> hp == old(brk) && State() == Grow(old(State()))
      ensures data == old(data)
    {
      var p := Sbrk(osGrants);
      if p.None? {
        return Null;
      }
      hp := p.value;
      LinkAsTail(hp, CHUNK_SIZE);
    }

    /** The bulk path of malloc (mm.c:197-215): a region from bulk_alloc
      * with its header written, which crashes when the region is NULL. */
    method AllocateBulk(size: Word, region: nat) returns (out: Outcome)
      modifies this`hdr, this`bulk
      ensures (out, State()) == BulkMalloc(old(State()), size, region) && data == old(data)
    {
      var bsize := BulkSize(size);
      if bsize.None? {
        return Returned(Null);
      }
      var asize := bsize.value;
      var hp := BulkAlloc(asize, region);
      if hp == Null {
        return Crashed;
      }
      hdr := hdr[hp := Pack(asize, 1)];
      out := Returned(Blkp(hp));
    }

    /** The pool path of malloc (mm.c:217-267): the block find_free_block
      * finds, cut down by place, else a new chunk. */
    method AllocateFromPool(asize: nat, osGrants: bool) returns (out: Outcome)
      requires Consistent(State()) && GrowthUnmapped(State()) && asize in Classes
      modifies this`hdr, this`pred, this`succ, this`anchor, this`L, this`pool, this`brk
      ensures (out, State()) == PoolMalloc(old(State()), asize, osGrants) && data == old(data)
    {
      ghost var h := State();
      ClassAligned(asize);
      var hp := FindFreeBlock(asize);
      if hp != Null {
        assert PoolMalloc(h, asize, osGrants) == (Returned(Blkp(hp)), Placed(h, Fit(h, asize), asize));
        Place(hp, asize, Fit(h, asize));
        return Returned(Blkp(hp));
      }
      assert Fit(h, asize) < 0;
      assert PoolMalloc(h, asize, osGrants) == if osGrants then (Returned(Blkp(h.brk)), ChunkPlaced(h, asize)) else (Returned(Null), h);
      out := AllocateFromChunk(asize, osGrants);
    }

    /** The end of malloc's pool path (mm.c:246-267): extend_heap, then
      * place on the new chunk; NULL when sbrk refuses. */
    method AllocateFromChunk(asize: nat, osGrants: bool) returns (out: Outcome)
      requires Consistent(State()) && GrowthUnmapped(State()) && asize in Classes
      modifies this`hdr, this`pred, this`succ, this`anchor, this`L, this`pool, this`brk
      ensures !osGrants ==> out == Returned(Null) && State() == old(State())
      ensures osGrants ==> out == Returned(Blkp(old(brk))) && State() == ChunkPlaced(old(State()), asize)
      ensures data == old(data)
    {
      ghost var h := State();
      ClassAligned(asize);
      GrowSpec(h);
      var hp := ExtendHeap(osGrants);
      if hp == Null {
        return Returned(Null);
      }
      GrowTail(h);
      Place(hp, asize, |h.L|);
      out := Returned(Blkp(hp));
    }

    /** malloc (mm.c:181-268), with the bulk size's wrap-around refused:
      * osGrants is sbrk's answer should the heap need to grow, region what
      * bulk_alloc hands out should the request be a bulk one.  It computes
      * MallocSpec; unless it crashes the allocator stays valid, and a
      * pointer other than NULL comes with a payload of at least size bytes,
      * of unspecified contents, every other payload left as it was. */
    method Malloc(size: Word, osGrants: bool, region: nat) returns (out: Outcome)
      requires Valid() && GrowthUnmapped(State()) && RegionFresh(State(), size, region)
      modifies this
      ensures (out, State()) == MallocSpec(old(State()), size, osGrants, region)
      ensures out.Returned? ==> Valid()
      ensures out == Returned(Null) || out.Crashed? ==> data == old(data)
      ensures out.Returned? && out.ptr != Null ==> Allocated(out.ptr) && !old(Allocated(out.ptr))
      ensures out.Returned? && out.ptr != Null ==>
        |data[Hdrp(out.ptr)]| >= size && data == old(data)[Hdrp(out.ptr) := data[Hdrp(out.ptr)]]
    {
      ghost var h, d0 := State(), data;
      ghost var r := MallocSpec(h, size, osGrants, region);
      MallocHolds(h, size, osGrants, region);
      MallocFails(h, size, osGrants, region);
      if size == 0 {
        assert r == (Returned(Null), h);
        return Returned(Null);
      }
      if size > CHUNK_SIZE - DSIZE {
        out := AllocateBulk(size, region);
      } else {
        ClassSizeIsSmallestFit(size);
        out := AllocateFromPool(ClassSize(size), osGrants);
      }
      assert out == r.0 && State() == r.1 && data == d0;
      assert (out, State()) == r;
      if out.Returned? && out.ptr != Null {
        ghost var hp := Hdrp(out.ptr);
        assert Allocation(h, r.1, hp, size);
        GrantPayload(hp);
        PayloadsAfterAllocation(h, r.1, hp, size, d0, data[hp]);
      }
    }

    /** free (mm.c:532-583), with the bulk test corrected to sizes above
      * CHUNK_SIZE: a bulk region goes back to bulk_free, a pool block gets
      * a free header and becomes the tail of the free list.  HDRP(NULL) is
      * read like any header, so free(NULL) crashes. */
    method Free(ptr: nat) returns (crashed: bool)
      requires Valid() && (ptr == Null || Allocated(ptr))
      modifies this
      ensures crashed <==> ptr == Null
      ensures crashed ==> State() == old(State()) && data == old(data)
      ensures !crashed ==> State() == FreeSpec(old(State()), Hdrp(ptr)) && Valid()
      ensures !crashed ==> data == old(data) - {Hdrp(ptr)} && !Allocated(ptr)
    {
      if ptr == Null {
        return true;
      }
      ghost var h, d0 := State(), data;
      var hp := Hdrp(ptr);
      FreeHolds(h, hp);
      HeldKinds(h, hp);
      var size := GetSize(hdr[hp]);
      if IsBulkHeaderSize(size) {
        BulkFree(hp, size);
      } else {
        ReleaseKeepsHeld(h, hp);
        LinkAsTail(hp, size);
      }
      assert State() == FreeSpec(h, hp);
      DropPayload(hp);
      PayloadsAfterFree(h, State(), hp, d0);
      crashed := false;
    }

    /** calloc (mm.c:469-483), with the product's wrap-around refused:
      * malloc of nmemb * size bytes, whose first nmemb * size payload
      * bytes are then zeroed.  memset on NULL crashes unless it clears
      * nothing. */
    method Calloc(nmemb: Word, size: Word, osGrants: bool, region: nat) returns (out: Outcome)
      requires Valid() && GrowthUnmapped(State())
      requires CallocTotal(nmemb, size).Some? ==> RegionFresh(State(), CallocTotal(nmemb, size).value, region)
      modifies this
      ensures CallocTotal(nmemb, size).None? ==> out == Returned(Null) && State() == old(State()) && data == old(data)
      ensures CallocTotal(nmemb, size).Some? ==>
        (out.Crashed? <==>
          || MallocSpec(old(State()), CallocTotal(nmemb, size).value, osGrants, region).0.Crashed?
          || (MallocSpec(old(State()), CallocTotal(nmemb, size).value, osGrants, region).0 == Returned(Null) && nmemb * size > 0))
      ensures CallocTotal(nmemb, size).Some? && out.Returned? ==>
        (out, State()) == MallocSpec(old(State()), CallocTotal(nmemb, size).value, osGrants, region)
      ensures out.Returned? ==> Valid()
      ensures out == Returned(Null) ==> data == old(data)
      ensures out.Returned? && out.ptr != Null ==> Allocated(out.ptr) && !old(Allocated(out.ptr))
      ensures out.Returned? && out.ptr != Null ==>
        && |data[Hdrp(out.ptr)]| >= nmemb * size
        && data[Hdrp(out.ptr)][..nmemb * size] == Zeros(nmemb * size)
        && data == old(data)[Hdrp(out.ptr) := data[Hdrp(out.ptr)]]
    {
      var total := CallocTotal(nmemb, size);
      if total.None? {
        return Returned(Null);
      }
      out := Malloc(total.value, osGrants, region);
      if out.Crashed? {
        return;
      }
      if out.ptr == Null {
        if total.value > 0 {
          out := Crashed;
        }
        return;
      }
      ghost var d1 := data;
      ZeroPayload(Hdrp(out.ptr), total.value);
      ReplacedTwice(old(data), Hdrp(out.ptr), d1[Hdrp(out.ptr)], data[Hdrp(out.ptr)]);
      assert Payloads(State(), data);
    }

    /** realloc (mm.c:497-523), copying no more than the new request: a
      * pool block whose payload is longer than size is kept as it is;
      * otherwise malloc gives a new block, the first
      * ReallocCopyLength(GET_SIZE, size) payload bytes move over and the old
      * block is freed.  HDRP(NULL) is read like any header, and memcpy to
      * NULL crashes unless it copies nothing. */
    method Realloc(ptr: nat, size: Word, osGrants: bool, region: nat) returns (out: Outcome)
      requires Valid() && GrowthUnmapped(State()) && RegionFresh(State(), size, region)
      requires ptr == Null || Allocated(ptr)
      modifies this
      ensures ptr == Null ==> out.Crashed?
      ensures ptr != Null && old(ReallocKeepsBlock(GetSize(hdr[Hdrp(ptr)]), size)) ==>
        out == Returned(ptr) && State() == old(State()) && data == old(data)
      ensures ptr != Null && !old(ReallocKeepsBlock(GetSize(hdr[Hdrp(ptr)]), size)) ==>
        (out.Crashed? <==>
          || MallocSpec(old(State()), size, osGrants, region).0.Crashed?
          || (MallocSpec(old(State()), size, osGrants, region).0 == Returned(Null) && size > 0))
      ensures ptr != Null && !old(ReallocKeepsBlock(GetSize(hdr[Hdrp(ptr)]), size)) ==>
        (out, State()) == ReallocMove(old(State()), Hdrp(ptr), size, osGrants, region)
      ensures out.Returned? ==> Valid()
      ensures out == Returned(Null) ==> size == 0 && ptr != Null && !Allocated(ptr) && data == old(data) - {Hdrp(ptr)}
      ensures ptr != Null && out.Returned? && out.ptr != Null && out.ptr != ptr ==>
        Allocated(out.ptr) && data == (old(data) - {Hdrp(ptr)})[Hdrp(out.ptr) := data[Hdrp(out.ptr)]]
      ensures ptr != Null && out.Returned? && out.ptr != Null && out.ptr != ptr ==>
        && !Allocated(ptr) && Allocated(out.ptr) && !old(Allocated(out.ptr)) && |data[Hdrp(out.ptr)]| >= size
        && data[Hdrp(out.ptr)][..ReallocCopyLength(old(GetSize(hdr[Hdrp(ptr)])), size)]
             == old(data[Hdrp(ptr)])[..ReallocCopyLength(old(GetSize(hdr[Hdrp(ptr)])), size)]
    {
      if ptr == Null {
        return Crashed;
      }
      var hp := Hdrp(ptr);
      var blockSize := GetSize(hdr[hp]);
      if ReallocKeepsBlock(blockSize, size) {
        return Returned(ptr);
      }
      out := MoveBlock(ptr, size, osGrants, region);
    }

    /** The move path of realloc (mm.c:511-522): malloc a new block, copy
      * ReallocCopyLength(GET_SIZE, size) payload bytes over, free the old
      * block. */
    method MoveBlock(ptr: nat, size: Word, osGrants: bool, region: nat) returns (out: Outcome)
      requires Valid() && GrowthUnmapped(State()) && RegionFresh(State(), size, region)
      requires Allocated(ptr) && !ReallocKeepsBlock(GetSize(hdr[Hdrp(ptr)]), size)
      modifies this
      ensures out.Crashed? <==>
        || MallocSpec(old(State()), size, osGrants, region).0.Crashed?
        || (MallocSpec(old(State()), size, osGrants, region).0 == Returned(Null) && size > 0)
      ensures (out, State()) == ReallocMove(old(State()), Hdrp(ptr), size, osGrants, region)
      ensures out.Returned? ==> Valid() && !Allocated(ptr)
      ensures out == Returned(Null) ==> size == 0 && data == old(data) - {Hdrp(ptr)}
      ensures out.Returned? && out.ptr != Null ==>
        Allocated(out.ptr) && data == (old(data) - {Hdrp(ptr)})[Hdrp(out.ptr) := data[Hdrp(out.ptr)]]
      ensures out.Returned? && out.ptr != Null ==>
        && Allocated(out.ptr) && !old(Allocated(out.ptr)) && |data[Hdrp(out.ptr)]| >= size
        && data[Hdrp(out.ptr)][..ReallocCopyLength(old(GetSize(hdr[Hdrp(ptr)])), size)]
             == old(data[Hdrp(ptr)])[..ReallocCopyLength(old(GetSize(hdr[Hdrp(ptr)])), size)]
    {
      var hp := Hdrp(ptr);
      var blockSize := GetSize(hdr[hp]);
      ghost var h, d0 := State(), data;
      ghost var r := MallocSpec(h, size, osGrants, region);
      HeldKinds(h, hp);
      if hp in h.pool {
        ClassAligned(blockSize);
      }
      var len := ReallocCopyLength(blockSize, size);
      assert len == 0 <==> size == 0;
      out := Malloc(size, osGrants, region);
      assert out == r.0 && State() == r.1;
      ghost var m := ReallocMove(h, hp, size, osGrants, region);
      if out.Crashed? {
        assert m == (Crashed, r.1);
        return;
      }
      if out.ptr == Null {
        if len > 0 {
          assert m == (Crashed, r.1);
          return Crashed;
        }
        assert m == (Returned(Null), FreeSpec(r.1, hp));
        var _ := Free(ptr);
        return;
      }
      assert m == (out, FreeSpec(r.1, hp));
      ghost var d1 := data;
      CopyPayload(hp, Hdrp(out.ptr), len);
      ghost var d2 := data;
      var _ := Free(ptr);
      ReplacedThenDropped(d0, Hdrp(out.ptr), d1[Hdrp(out.ptr)], d2[Hdrp(out.ptr)], hp);
    }
  }
}
