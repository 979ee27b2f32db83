/** The allocator's words as one value, the consistency they keep, and the
  * state each heap-changing step of src/mm.c leaves behind.
  *
  * The step functions below are what the methods of Pool.Allocator are
  * proved to do; the lemmas here prove that each step keeps the heap
  * consistent and say what it does to the free list and its sizes.
  */
module HeapState {
  import opened Layout
  import opened Sizing
  import opened FreeList
  import opened Tiling

  /** Header words, link words, anchor and break, with their ghost reading:
    * the free list L, the pool headers and the bulk ledger. */
  datatype Heap = Heap(
    hdr: map<nat, Word>, pred: map<nat, nat>, succ: map<nat, nat>, anchor: nat, brk: nat,
    L: seq<nat>, pool: set<nat>, bulk: map<nat, nat>)

  /** Every listed block is a pool block, and a pool block's allocated flag
    * is clear exactly when it is on the free list. */
  ghost predicate FlagsMatch(L: seq<nat>, pool: set<nat>, hdr: map<nat, Word>)
  {
    && (forall a :: a in L ==> a in pool)
    && (forall a {:trigger GetAlloc(hdr[a])} :: a in pool && a in hdr ==> (GetAlloc(hdr[a]) == 0 <==> a in L))
  }

  /** The links spell out L, the anchor names its tail, the flags match the
    * list, the blocks tile, and bulk headers match the ledger.  No block
    * sits at NULL. */
  ghost predicate Consistent(h: Heap)
  {
    && h.brk > Null && Null !in h.pool
    && WellLinked(h.L, h.pred, h.succ) && h.anchor == AnchorOf(h.L)
    && FlagsMatch(h.L, h.pool, h.hdr)
    && Tiled(h.pool, h.hdr, h.brk)
    && BulkApart(h.bulk, h.pool, h.hdr)
  }

  /** Sizes of the free blocks, head to tail. */
  ghost function FreeSizesOf(h: Heap): seq<nat>
    requires Consistent(h)
  {
    SizesOf(h.hdr, h.L)
  }

  ghost function Elems(s: seq<nat>): set<nat>
  {
    set x | x in s
  }

  // ---------------------------------------------------------------------
  // split_free_block (mm.c:271-326)

  /** Where split_free_block puts the header of L[i]'s second half. */
  ghost function Buddy(h: Heap, i: nat): nat
    requires i < |h.L| && h.L[i] in h.hdr
  {
    h.L[i] + GetSize(h.hdr[h.L[i]]) / 2
  }

  /** The state split_free_block leaves after halving L[i]: both halves get
    * a free header, the second half goes right after the first in the list,
    * and becomes the tail (and the anchor) if the first one was. */
  ghost function Halve(h: Heap, i: nat): Heap
    requires i < |h.L| && h.L[i] in h.hdr && h.L[i] in h.succ
  {
    var hp: nat := h.L[i];
    var half := GetSize(h.hdr[hp]) / 2;
    var x: nat := Buddy(h, i);
    var s := h.succ[hp];
    h.(hdr := h.hdr[hp := Pack(half, 0)][x := Pack(half, 0)],
       pred := if s != hp then h.pred[x := hp][s := x] else h.pred[x := hp],
       succ := if s != hp then h.succ[hp := x][x := s] else h.succ[hp := x][x := x],
       anchor := if s != hp then h.anchor else Blkp(x),
       L := h.L[..i + 1] + [x] + h.L[i + 1..],
       pool := h.pool + {x})
  }

  /** Halving keeps the heap consistent, inserts the second half after the
    * first, replaces the block's size by two halves and keeps the free
    * bytes. */
  lemma HalveSpec(h: Heap, i: nat)
    requires Consistent(h) && i < |h.L| && GetSize(h.hdr[h.L[i]]) > 32
    ensures GetSize(h.hdr[h.L[i]]) / 2 in Classes && 2 * (GetSize(h.hdr[h.L[i]]) / 2) == GetSize(h.hdr[h.L[i]])
    ensures Buddy(h, i) !in h.pool && Buddy(h, i) !in h.bulk
    ensures Consistent(Halve(h, i))
    ensures Halve(h, i).L == h.L[..i + 1] + [Buddy(h, i)] + h.L[i + 1..]
    ensures Halve(h, i).pool == h.pool + {Buddy(h, i)}
    ensures FreeSizesOf(Halve(h, i)) ==
      FreeSizesOf(h)[..i] + [GetSize(h.hdr[h.L[i]]) / 2, GetSize(h.hdr[h.L[i]]) / 2] + FreeSizesOf(h)[i + 1..]
    ensures Sum(FreeSizesOf(Halve(h, i))) == Sum(FreeSizesOf(h))
    ensures Halve(h, i).L[i] == h.L[i] && GetSize(Halve(h, i).hdr[h.L[i]]) == GetSize(h.hdr[h.L[i]]) / 2
    ensures Halve(h, i).brk == h.brk && Halve(h, i).bulk == h.bulk
  {
    HalfOfClass(GetSize(h.hdr[h.L[i]]));
    HalveKeepsConsistent(h, i);
    HalveFreeSizes(h, i);
    HalveFirstHalf(h, i);
  }

  lemma HalveFirstHalf(h: Heap, i: nat)
    requires i < |h.L| && h.L[i] in h.hdr && h.L[i] in h.succ && GetSize(h.hdr[h.L[i]]) / 2 in Classes
    ensures Halve(h, i).L[i] == h.L[i] && GetSize(Halve(h, i).hdr[h.L[i]]) == GetSize(h.hdr[h.L[i]]) / 2
  {
    ClassAligned(GetSize(h.hdr[h.L[i]]) / 2);
    PackRoundTrip(GetSize(h.hdr[h.L[i]]) / 2, 0);
  }

  lemma HalveFreeSizes(h: Heap, i: nat)
    requires i < |h.L| && Distinct(h.L) && Keys(h.L, h.succ) && h.L[i] in h.hdr
    requires forall k :: 0 <= k < |h.L| ==> h.L[k] in h.hdr
    requires GetSize(h.hdr[h.L[i]]) in Classes && GetSize(h.hdr[h.L[i]]) > 32 && Buddy(h, i) !in h.L
    ensures SizesOf(Halve(h, i).hdr, Halve(h, i).L) ==
      SizesOf(h.hdr, h.L)[..i] + [GetSize(h.hdr[h.L[i]]) / 2, GetSize(h.hdr[h.L[i]]) / 2] + SizesOf(h.hdr, h.L)[i + 1..]
    ensures Sum(SizesOf(Halve(h, i).hdr, Halve(h, i).L)) == Sum(SizesOf(h.hdr, h.L))
  {
    var half := GetSize(h.hdr[h.L[i]]) / 2;
    HalfOfClass(GetSize(h.hdr[h.L[i]]));
    ClassAligned(half);
    PackRoundTrip(half, 0);
    HalveSizes(h.L, h.hdr, i, Buddy(h, i), Pack(half, 0));
    var Z := SizesOf(h.hdr, h.L);
    SumReplace(Z, i, [half, half]);
    SumTwo(half, half);
  }

  lemma HalveKeepsConsistent(h: Heap, i: nat)
    requires Consistent(h) && i < |h.L| && GetSize(h.hdr[h.L[i]]) > 32
    ensures Buddy(h, i) !in h.pool && Buddy(h, i) !in h.bulk && Buddy(h, i) !in h.L
    ensures Consistent(Halve(h, i))
  {
    HalveTiling(h, i);
    HalveWellLinked(h, i);
    HalveFlagsMatch(h, i);
  }

  lemma HalveTiling(h: Heap, i: nat)
    requires i < |h.L| && h.L[i] in h.pool && h.L[i] in h.succ
    requires Tiled(h.pool, h.hdr, h.brk) && BulkApart(h.bulk, h.pool, h.hdr) && GetSize(h.hdr[h.L[i]]) > 32
    ensures Buddy(h, i) !in h.pool && Buddy(h, i) !in h.bulk && Halve(h, i).pool == h.pool + {Buddy(h, i)}
    ensures Tiled(Halve(h, i).pool, Halve(h, i).hdr, Halve(h, i).brk)
    ensures BulkApart(Halve(h, i).bulk, Halve(h, i).pool, Halve(h, i).hdr)
  {
    HalfOfClass(GetSize(h.hdr[h.L[i]]));
    SplitKeepsTiling(h.pool, h.hdr, h.brk, h.bulk, h.L[i], GetSize(h.hdr[h.L[i]]) / 2);
  }

  lemma HalveWellLinked(h: Heap, i: nat)
    requires i < |h.L| && WellLinked(h.L, h.pred, h.succ) && h.anchor == AnchorOf(h.L)
    requires h.L[i] in h.hdr && Buddy(h, i) !in h.L
    ensures WellLinked(Halve(h, i).L, Halve(h, i).pred, Halve(h, i).succ)
    ensures Halve(h, i).anchor == AnchorOf(Halve(h, i).L)
  {
    HalveLinks(h.L, h.pred, h.succ, h.anchor, i, Buddy(h, i));
  }

  lemma HalveFlagsMatch(h: Heap, i: nat)
    requires i < |h.L| && h.L[i] in h.hdr && h.L[i] in h.succ && FlagsMatch(h.L, h.pool, h.hdr)
    requires GetSize(h.hdr[h.L[i]]) / 2 in Classes && Buddy(h, i) !in h.L
    ensures FlagsMatch(Halve(h, i).L, Halve(h, i).pool, Halve(h, i).hdr)
  {
    var half := GetSize(h.hdr[h.L[i]]) / 2;
    ClassAligned(half);
    PackRoundTrip(half, 0);
    HalveFlags(h.L, h.pool, h.hdr, i, Buddy(h, i), Pack(half, 0));
  }

  lemma HalveLinks(L: seq<nat>, pred: map<nat, nat>, succ: map<nat, nat>, anchor: nat, i: nat, x: nat)
    requires WellLinked(L, pred, succ) && anchor == AnchorOf(L) && i < |L| && x !in L
    ensures var hp, s := L[i], succ[L[i]]; var L' := L[..i + 1] + [x] + L[i + 1..];
      && WellLinked(L', if s != hp then pred[x := hp][s := x] else pred[x := hp],
                        if s != hp then succ[hp := x][x := s] else succ[hp := x][x := x])
      && (if s != hp then anchor else Blkp(x)) == AnchorOf(L')
  {
    LinkAfter(L, pred, succ, i, x);
    SelfLinksMarkEnds(L, pred, succ, i);
  }

  lemma HalveFlags(L: seq<nat>, pool: set<nat>, hdr: map<nat, Word>, i: nat, x: nat, w: Word)
    requires FlagsMatch(L, pool, hdr) && i < |L| && x !in L && GetAlloc(w) == 0
    ensures FlagsMatch(L[..i + 1] + [x] + L[i + 1..], pool + {x}, hdr[L[i] := w][x := w])
  {
    var L' := L[..i + 1] + [x] + L[i + 1..];
    assert L == L[..i + 1] + L[i + 1..];
    assert forall a :: a in L' <==> a in L || a == x;
  }

  lemma HalveSizes(L: seq<nat>, hdr: map<nat, Word>, i: nat, x: nat, w: Word)
    requires i < |L| && Distinct(L) && x !in L
    requires forall k :: 0 <= k < |L| ==> L[k] in hdr
    ensures var Z := SizesOf(hdr, L);
      SizesOf(hdr[L[i] := w][x := w], L[..i + 1] + [x] + L[i + 1..]) == Z[..i] + [GetSize(w), GetSize(w)] + Z[i + 1..]
  {
    var hdr' := hdr[L[i] := w][x := w];
    var M := [L[i], x];
    assert L[..i + 1] + [x] + L[i + 1..] == L[..i] + M + L[i + 1..] by {
      assert L[..i + 1] == L[..i] + [L[i]];
    }
    forall k | 0 <= k < |L| && k != i
      ensures L[k] != L[i] && L[k] != x
    {
      DistinctAt(L, k, i);
    }
    SizesOfReplace(hdr, hdr', L, i, M);
    assert SizesOf(hdr', M) == [GetSize(w), GetSize(w)];
  }

  // ---------------------------------------------------------------------
  // place's last step (mm.c:338-374)

  /** The state place leaves once L[i] has the requested size: its header
    * is marked allocated and it is unlinked, in the four cases the source
    * tells apart by self links. */
  ghost function TakeOff(h: Heap, i: nat): Heap
    requires i < |h.L| && h.L[i] in h.hdr && h.L[i] in h.pred && h.L[i] in h.succ
  {
    var hp: nat := h.L[i];
    var p, s := h.pred[hp], h.succ[hp];
    h.(hdr := h.hdr[hp := Pack(GetSize(h.hdr[hp]), 1)],
       pred := if p != hp && s != hp then h.pred[s := p] else if p == hp && s != hp then h.pred[s := s] else h.pred,
       succ := if p != hp && s != hp then h.succ[p := s] else if p != hp then h.succ[p := p] else h.succ,
       anchor := if s != hp then h.anchor else if p != hp then Blkp(p) else Null,
       L := h.L[..i] + h.L[i + 1..])
  }

  /** Taking a block off the list keeps the heap consistent, marks it
    * allocated with its size unchanged, and removes just that block from
    * the list and its size from the free sizes. */
  lemma TakeOffSpec(h: Heap, i: nat)
    requires Consistent(h) && i < |h.L|
    ensures Consistent(TakeOff(h, i))
    ensures TakeOff(h, i).L == h.L[..i] + h.L[i + 1..] && TakeOff(h, i).pool == h.pool
    ensures GetAlloc(TakeOff(h, i).hdr[h.L[i]]) == 1
    ensures GetSize(TakeOff(h, i).hdr[h.L[i]]) == GetSize(h.hdr[h.L[i]])
    ensures FreeSizesOf(TakeOff(h, i)) == FreeSizesOf(h)[..i] + FreeSizesOf(h)[i + 1..]
    ensures Sum(FreeSizesOf(TakeOff(h, i))) == Sum(FreeSizesOf(h)) - GetSize(h.hdr[h.L[i]])
  {
    TakeOffTiling(h, i);
    TakeOffWellLinked(h, i);
    TakeOffFlagsMatch(h, i);
    TakeOffFreeSizes(h, i);
  }

  lemma TakeOffTiling(h: Heap, i: nat)
    requires i < |h.L| && h.L[i] in h.pool && h.L[i] in h.pred && h.L[i] in h.succ
    requires Tiled(h.pool, h.hdr, h.brk) && BulkApart(h.bulk, h.pool, h.hdr)
    ensures Tiled(TakeOff(h, i).pool, TakeOff(h, i).hdr, TakeOff(h, i).brk)
    ensures BulkApart(TakeOff(h, i).bulk, TakeOff(h, i).pool, TakeOff(h, i).hdr)
    ensures GetAlloc(TakeOff(h, i).hdr[h.L[i]]) == 1
    ensures GetSize(TakeOff(h, i).hdr[h.L[i]]) == GetSize(h.hdr[h.L[i]])
  {
    ReflagKeepsTiling(h.pool, h.hdr, h.brk, h.bulk, h.L[i], 1);
    PackRoundTrip(GetSize(h.hdr[h.L[i]]), 1);
  }

  lemma TakeOffWellLinked(h: Heap, i: nat)
    requires i < |h.L| && WellLinked(h.L, h.pred, h.succ) && h.anchor == AnchorOf(h.L) && h.L[i] in h.hdr
    ensures WellLinked(TakeOff(h, i).L, TakeOff(h, i).pred, TakeOff(h, i).succ)
    ensures TakeOff(h, i).anchor == AnchorOf(TakeOff(h, i).L)
  {
    Unlink(h.L, h.pred, h.succ, i);
  }

  lemma TakeOffFlagsMatch(h: Heap, i: nat)
    requires i < |h.L| && Distinct(h.L) && FlagsMatch(h.L, h.pool, h.hdr)
    requires h.L[i] in h.hdr && h.L[i] in h.pred && h.L[i] in h.succ && GetSize(h.hdr[h.L[i]]) in Classes
    ensures FlagsMatch(TakeOff(h, i).L, TakeOff(h, i).pool, TakeOff(h, i).hdr)
  {
    ClassAligned(GetSize(h.hdr[h.L[i]]));
    PackRoundTrip(GetSize(h.hdr[h.L[i]]), 1);
    TakeOffFlags(h.L, h.pool, h.hdr, i, Pack(GetSize(h.hdr[h.L[i]]), 1));
  }

  lemma TakeOffFreeSizes(h: Heap, i: nat)
    requires i < |h.L| && Distinct(h.L) && h.L[i] in h.pred && h.L[i] in h.succ
    requires forall k :: 0 <= k < |h.L| ==> h.L[k] in h.hdr
    ensures SizesOf(TakeOff(h, i).hdr, TakeOff(h, i).L) == SizesOf(h.hdr, h.L)[..i] + SizesOf(h.hdr, h.L)[i + 1..]
    ensures Sum(SizesOf(TakeOff(h, i).hdr, TakeOff(h, i).L)) == Sum(SizesOf(h.hdr, h.L)) - GetSize(h.hdr[h.L[i]])
  {
    TakeOffSizes(h.L, h.hdr, i, Pack(GetSize(h.hdr[h.L[i]]), 1));
    var Z := SizesOf(h.hdr, h.L);
    SumReplace(Z, i, []);
    assert Z[..i] + [] + Z[i + 1..] == Z[..i] + Z[i + 1..];
  }

  lemma TakeOffFlags(L: seq<nat>, pool: set<nat>, hdr: map<nat, Word>, i: nat, w: Word)
    requires FlagsMatch(L, pool, hdr) && Distinct(L) && i < |L| && GetAlloc(w) == 1
    ensures FlagsMatch(L[..i] + L[i + 1..], pool, hdr[L[i] := w])
  {
    var L' := L[..i] + L[i + 1..];
    assert L == L[..i] + [L[i]] + L[i + 1..];
    assert forall a :: a in L' <==> a in L && a != L[i] by {
      forall k | 0 <= k < |L| && k != i ensures L[k] != L[i] {
        DistinctAt(L, k, i);
      }
    }
  }

  lemma TakeOffSizes(L: seq<nat>, hdr: map<nat, Word>, i: nat, w: Word)
    requires i < |L| && Distinct(L)
    requires forall k :: 0 <= k < |L| ==> L[k] in hdr
    ensures var Z := SizesOf(hdr, L);
      SizesOf(hdr[L[i] := w], L[..i] + L[i + 1..]) == Z[..i] + Z[i + 1..]
  {
    assert L[..i] + L[i + 1..] == L[..i] + [] + L[i + 1..];
    forall k | 0 <= k < |L| && k != i
      ensures L[k] != L[i]
    {
      DistinctAt(L, k, i);
    }
    SizesOfReplace(hdr, hdr[L[i] := w], L, i, []);
    var Z := SizesOf(hdr, L);
    assert Z[..i] + [] + Z[i + 1..] == Z[..i] + Z[i + 1..];
  }

  // ---------------------------------------------------------------------
  // Appending a free block (extend_heap mm.c:415-446, free mm.c:553-575)

  /** The state after x gets a free header of the given size and is linked
    * in as the new tail; the anchor moves to it. */
  ghost function PushTail(h: Heap, x: nat, size: Word): Heap
    requires h.anchor != Null ==> h.anchor >= DSIZE && Hdrp(h.anchor) in h.succ
  {
    h.(hdr := h.hdr[x := Pack(size, 0)],
       pred := if h.anchor == Null then h.pred[x := x] else h.pred[x := h.succ[Hdrp(h.anchor)]],
       succ := if h.anchor == Null then h.succ[x := x] else h.succ[Hdrp(h.anchor) := x][x := x],
       anchor := Blkp(x),
       L := h.L + [x],
       pool := h.pool + {x})
  }

  lemma PushTailLinks(L: seq<nat>, pred: map<nat, nat>, succ: map<nat, nat>, anchor: nat, x: nat)
    requires WellLinked(L, pred, succ) && anchor == AnchorOf(L) && x !in L
    ensures anchor != Null ==> anchor >= DSIZE && Hdrp(anchor) in succ
    ensures anchor == Null ==> WellLinked(L + [x], pred[x := x], succ[x := x])
    ensures anchor != Null ==> WellLinked(L + [x], pred[x := succ[Hdrp(anchor)]], succ[Hdrp(anchor) := x][x := x])
    ensures Blkp(x) == AnchorOf(L + [x])
  {
    AnchorNullIffEmpty(L);
    Append(L, pred, succ, x);
    if |L| > 0 {
      SelfLinksMarkEnds(L, pred, succ, |L| - 1);
    } else {
      assert L + [x] == [x];
    }
  }

  lemma PushTailFlags(L: seq<nat>, pool: set<nat>, hdr: map<nat, Word>, x: nat, w: Word)
    requires FlagsMatch(L, pool, hdr) && x !in L && GetAlloc(w) == 0
    ensures FlagsMatch(L + [x], pool + {x}, hdr[x := w])
  {
    assert forall a :: a in L + [x] <==> a in L || a == x;
  }

  lemma PushTailSizes(L: seq<nat>, hdr: map<nat, Word>, x: nat, w: Word)
    requires x !in L
    requires forall k :: 0 <= k < |L| ==> L[k] in hdr
    ensures SizesOf(hdr[x := w], L + [x]) == SizesOf(hdr, L) + [GetSize(w)]
    ensures Sum(SizesOf(hdr, L) + [GetSize(w)]) == Sum(SizesOf(hdr, L)) + GetSize(w)
  {
    var Z, Z' := SizesOf(hdr, L), SizesOf(hdr[x := w], L + [x]);
    forall k | 0 <= k < |Z'|
      ensures Z'[k] == (Z + [GetSize(w)])[k]
    {
      if k < |L| {
        assert (L + [x])[k] == L[k] != x;
      }
    }
    SumAppend(Z, [GetSize(w)]);
    SumOne(GetSize(w));
  }

  /** Linking x in as a new tail with the given free header keeps the list
    * well linked, the flags matching the list, and adds the size to the
    * free sizes. */
  lemma PushTailKeepsList(h: Heap, x: nat, size: Word)
    requires WellLinked(h.L, h.pred, h.succ) && h.anchor == AnchorOf(h.L) && FlagsMatch(h.L, h.pool, h.hdr)
    requires forall k :: 0 <= k < |h.L| ==> h.L[k] in h.hdr
    requires x !in h.L && size % 8 == 0
    ensures h.anchor != Null ==> h.anchor >= DSIZE && Hdrp(h.anchor) in h.succ
    ensures WellLinked(PushTail(h, x, size).L, PushTail(h, x, size).pred, PushTail(h, x, size).succ)
    ensures PushTail(h, x, size).anchor == AnchorOf(PushTail(h, x, size).L)
    ensures FlagsMatch(PushTail(h, x, size).L, PushTail(h, x, size).pool, PushTail(h, x, size).hdr)
    ensures SizesOf(PushTail(h, x, size).hdr, PushTail(h, x, size).L) == SizesOf(h.hdr, h.L) + [size]
    ensures Sum(SizesOf(PushTail(h, x, size).hdr, PushTail(h, x, size).L)) == Sum(SizesOf(h.hdr, h.L)) + size
  {
    PushTailLinks(h.L, h.pred, h.succ, h.anchor, x);
    PackRoundTrip(size, 0);
    PushTailFlags(h.L, h.pool, h.hdr, x, Pack(size, 0));
    PushTailSizes(h.L, h.hdr, x, Pack(size, 0));
  }

  /** free of an allocated pool block: its flag is cleared and it becomes
    * the tail of the free list, adding its size to the free bytes. */
  lemma ReleaseSpec(h: Heap, x: nat)
    requires Consistent(h) && x in h.pool && GetAlloc(h.hdr[x]) == 1
    ensures h.anchor != Null ==> h.anchor >= DSIZE && Hdrp(h.anchor) in h.succ
    ensures Consistent(PushTail(h, x, GetSize(h.hdr[x])))
    ensures PushTail(h, x, GetSize(h.hdr[x])).pool == h.pool
    ensures PushTail(h, x, GetSize(h.hdr[x])).L == h.L + [x]
    ensures FreeSizesOf(PushTail(h, x, GetSize(h.hdr[x]))) == FreeSizesOf(h) + [GetSize(h.hdr[x])]
    ensures Sum(FreeSizesOf(PushTail(h, x, GetSize(h.hdr[x])))) == Sum(FreeSizesOf(h)) + GetSize(h.hdr[x])
  {
    var size := GetSize(h.hdr[x]);
    assert x !in h.L;
    assert h.pool + {x} == h.pool;
    TiledBelowBreak(h.pool, h.hdr, h.brk, x);
    ClassAligned(size);
    ReflagKeepsTiling(h.pool, h.hdr, h.brk, h.bulk, x, 0);
    PushTailKeepsList(h, x, size);
    var h' := PushTail(h, x, size);
    assert h'.hdr == h.hdr[x := Pack(size, 0)] && h'.pool == h.pool && h'.brk == h.brk && h'.bulk == h.bulk;
  }

  /** extend_heap with sbrk granting CHUNK_SIZE bytes at the old break: a
    * fresh free block of CHUNK_SIZE bytes becomes the tail. */
  lemma GrowSpec(h: Heap)
    requires Consistent(h)
    requires forall b :: b in h.bulk ==> b + h.bulk[b] <= h.brk || h.brk + CHUNK_SIZE <= b
    ensures h.brk !in h.pool && h.brk !in h.bulk
    ensures h.anchor != Null ==> h.anchor >= DSIZE && Hdrp(h.anchor) in h.succ
    ensures Consistent(Grow(h))
    ensures Grow(h).pool == h.pool + {h.brk} && Grow(h).L == h.L + [h.brk]
    ensures FreeSizesOf(Grow(h)) == FreeSizesOf(h) + [CHUNK_SIZE]
    ensures Sum(FreeSizesOf(Grow(h))) == Sum(FreeSizesOf(h)) + CHUNK_SIZE
  {
    GrowKeepsConsistent(h);
    GrowFreeSizes(h);
  }

  lemma GrowKeepsConsistent(h: Heap)
    requires Consistent(h)
    requires forall b :: b in h.bulk ==> b + h.bulk[b] <= h.brk || h.brk + CHUNK_SIZE <= b
    ensures h.brk !in h.pool && h.brk !in h.bulk
    ensures h.anchor != Null ==> h.anchor >= DSIZE && Hdrp(h.anchor) in h.succ
    ensures Consistent(Grow(h))
  {
    GrowTiling(h);
    assert h.brk !in h.L;
    GrowList(h);
  }

  lemma GrowList(h: Heap)
    requires WellLinked(h.L, h.pred, h.succ) && h.anchor == AnchorOf(h.L) && FlagsMatch(h.L, h.pool, h.hdr)
    requires forall k :: 0 <= k < |h.L| ==> h.L[k] in h.hdr
    requires h.brk !in h.L
    ensures h.anchor != Null ==> h.anchor >= DSIZE && Hdrp(h.anchor) in h.succ
    ensures WellLinked(Grow(h).L, Grow(h).pred, Grow(h).succ) && Grow(h).anchor == AnchorOf(Grow(h).L)
    ensures FlagsMatch(Grow(h).L, Grow(h).pool, Grow(h).hdr)
  {
    PushTailKeepsList(h.(brk := h.brk + CHUNK_SIZE), h.brk, CHUNK_SIZE);
  }

  lemma GrowFreeSizes(h: Heap)
    requires WellLinked(h.L, h.pred, h.succ) && h.anchor == AnchorOf(h.L) && FlagsMatch(h.L, h.pool, h.hdr)
    requires forall k :: 0 <= k < |h.L| ==> h.L[k] in h.hdr
    requires h.brk !in h.pool
    ensures h.anchor != Null ==> h.anchor >= DSIZE && Hdrp(h.anchor) in h.succ
    ensures Grow(h).pool == h.pool + {h.brk} && Grow(h).L == h.L + [h.brk]
    ensures SizesOf(Grow(h).hdr, Grow(h).L) == SizesOf(h.hdr, h.L) + [CHUNK_SIZE]
    ensures Sum(SizesOf(Grow(h).hdr, Grow(h).L)) == Sum(SizesOf(h.hdr, h.L)) + CHUNK_SIZE
  {
    assert h.brk !in h.L;
    PushTailKeepsList(h.(brk := h.brk + CHUNK_SIZE), h.brk, CHUNK_SIZE);
  }

  lemma GrowTiling(h: Heap)
    requires Tiled(h.pool, h.hdr, h.brk) && BulkApart(h.bulk, h.pool, h.hdr)
    requires h.anchor != Null ==> h.anchor >= DSIZE && Hdrp(h.anchor) in h.succ
    requires forall b :: b in h.bulk ==> b + h.bulk[b] <= h.brk || h.brk + CHUNK_SIZE <= b
    ensures h.brk !in h.pool && h.brk !in h.bulk
    ensures Tiled(Grow(h).pool, Grow(h).hdr, Grow(h).brk)
    ensures BulkApart(Grow(h).bulk, Grow(h).pool, Grow(h).hdr)
  {
    GrowKeepsTiling(h.pool, h.hdr, h.brk, h.bulk);
  }

  /** The state extend_heap leaves when sbrk grants CHUNK_SIZE bytes at the
    * old break. */
  ghost function Grow(h: Heap): Heap
    requires h.anchor != Null ==> h.anchor >= DSIZE && Hdrp(h.anchor) in h.succ
  {
    PushTail(h.(brk := h.brk + CHUNK_SIZE), h.brk, CHUNK_SIZE)
  }

  // ---------------------------------------------------------------------
  // Bulk blocks (malloc mm.c:197-208, free mm.c:542-548)

  /** The state after malloc records a bulk region and writes its header. */
  ghost function AddBulk(h: Heap, region: nat, size: Word): Heap
  {
    h.(hdr := h.hdr[region := Pack(size, 1)], bulk := h.bulk[region := size])
  }

  /** A fresh bulk region keeps the heap consistent and leaves the free list
    * and its sizes alone. */
  lemma AddBulkSpec(h: Heap, region: nat, size: Word)
    requires Consistent(h)
    requires RegionUnused(h.pool, h.hdr, h.bulk, region, size) && size > CHUNK_SIZE && size % DSIZE == 0
    ensures region !in h.pool && region !in h.bulk
    ensures Consistent(AddBulk(h, region, size))
    ensures FreeSizesOf(AddBulk(h, region, size)) == FreeSizesOf(h)
  {
    AddBulkKeepsTiling(h.pool, h.hdr, h.brk, h.bulk, region, size);
    var h' := AddBulk(h, region, size);
    assert forall a :: a in h.pool ==> h'.hdr[a] == h.hdr[a];
    assert forall k :: 0 <= k < |h.L| ==> h.L[k] in h.pool;
  }

  /** Returning a bulk region drops it from the ledger and nothing else:
    * the caller no longer holds it, and keeps every other block. */
  lemma DropBulkSpec(h: Heap, b: nat)
    requires Consistent(h) && b in h.bulk
    ensures Consistent(h.(bulk := h.bulk - {b}))
    ensures FreeSizesOf(h.(bulk := h.bulk - {b})) == FreeSizesOf(h)
    ensures b in Held(h) && Held(h.(bulk := h.bulk - {b})) == Held(h) - {b}
    ensures HeadersKept(h, h.(bulk := h.bulk - {b}), Held(h) - {b})
  {
    BulkOutsidePool(h.pool, h.hdr, h.brk, h.bulk, b);
  }

  // ---------------------------------------------------------------------
  // What callers hold

  /** The blocks a caller holds: allocated pool blocks and bulk regions. */
  ghost function Held(h: Heap): set<nat>
  {
    (set a | a in h.pool && a in h.hdr && GetAlloc(h.hdr[a]) == 1) + h.bulk.Keys
  }

  /** h' keeps the header word of every block of S. */
  ghost predicate HeadersKept(h: Heap, h': Heap, S: set<nat>)
  {
    forall a :: a in S && a in h.hdr ==> a in h'.hdr && h'.hdr[a] == h.hdr[a]
  }

  /** A held block is a bulk region exactly when its header size is above
    * CHUNK_SIZE, and a pool block otherwise. */
  lemma HeldKinds(h: Heap, a: nat)
    requires Consistent(h) && a in Held(h)
    ensures a in h.hdr && (a in h.bulk <==> a !in h.pool)
    ensures a in h.bulk <==> IsBulkHeaderSize(GetSize(h.hdr[a]))
    ensures a in h.pool ==> GetAlloc(h.hdr[a]) == 1 && GetSize(h.hdr[a]) in Classes && a !in h.L
  {
    if a in h.bulk {
      BulkOutsidePool(h.pool, h.hdr, h.brk, h.bulk, a);
    } else {
      TiledBelowBreak(h.pool, h.hdr, h.brk, a);
      ClassAligned(GetSize(h.hdr[a]));
    }
  }

  lemma HalveKeepsHeld(h: Heap, i: nat)
    requires Consistent(h) && i < |h.L| && GetSize(h.hdr[h.L[i]]) > 32
    ensures Held(Halve(h, i)) == Held(h) && HeadersKept(h, Halve(h, i), Held(h))
  {
    HalveKeepsConsistent(h, i);
    ListedBlock(h, i);
    HalfOfClass(GetSize(h.hdr[h.L[i]]));
    ClassAligned(GetSize(h.hdr[h.L[i]]) / 2);
    PackRoundTrip(GetSize(h.hdr[h.L[i]]) / 2, 0);
    BulkKeysOutsidePool(h, h.L[i]);
    HalveHeld(h, i);
  }

  lemma HalveHeld(h: Heap, i: nat)
    requires i < |h.L| && h.L[i] in h.hdr && h.L[i] in h.succ
    requires h.L[i] in h.pool && h.L[i] !in h.bulk && GetAlloc(h.hdr[h.L[i]]) == 0
    requires Buddy(h, i) !in h.pool && Buddy(h, i) !in h.bulk
    requires GetAlloc(Pack(GetSize(h.hdr[h.L[i]]) / 2, 0)) == 0
    ensures Held(Halve(h, i)) == Held(h) && HeadersKept(h, Halve(h, i), Held(h))
  {
    var h' := Halve(h, i);
    assert (set a | a in h'.pool && a in h'.hdr && GetAlloc(h'.hdr[a]) == 1)
        == (set a | a in h.pool && a in h.hdr && GetAlloc(h.hdr[a]) == 1);
  }

  lemma BulkKeysOutsidePool(h: Heap, a: nat)
    requires Consistent(h) && a in h.pool
    ensures a !in h.bulk
  {
    if a in h.bulk {
      BulkOutsidePool(h.pool, h.hdr, h.brk, h.bulk, a);
    }
  }

  lemma TakeOffKeepsHeld(h: Heap, i: nat)
    requires Consistent(h) && i < |h.L|
    ensures h.L[i] !in Held(h)
    ensures Held(TakeOff(h, i)) == Held(h) + {h.L[i]} && HeadersKept(h, TakeOff(h, i), Held(h))
  {
    TakeOffTiling(h, i);
    BulkKeysOutsidePool(h, h.L[i]);
  }

  /** free puts a held pool block back on the list. */
  lemma ReleaseKeepsHeld(h: Heap, x: nat)
    requires Consistent(h) && x in h.pool && GetAlloc(h.hdr[x]) == 1
    ensures h.anchor != Null ==> h.anchor >= DSIZE && Hdrp(h.anchor) in h.succ
    ensures Held(PushTail(h, x, GetSize(h.hdr[x]))) == Held(h) - {x}
    ensures HeadersKept(h, PushTail(h, x, GetSize(h.hdr[x])), Held(h) - {x})
  {
    TiledBelowBreak(h.pool, h.hdr, h.brk, x);
    assert x !in h.L;
    PushTailLinks(h.L, h.pred, h.succ, h.anchor, x);
    ClassAligned(GetSize(h.hdr[x]));
    PackRoundTrip(GetSize(h.hdr[x]), 0);
    BulkKeysOutsidePool(h, x);
  }

  /** A fresh bulk region becomes held, next to everything held before. */
  lemma AddBulkKeepsHeld(h: Heap, region: nat, size: Word)
    requires Consistent(h)
    requires RegionUnused(h.pool, h.hdr, h.bulk, region, size) && size > CHUNK_SIZE && size % DSIZE == 0
    ensures region !in Held(h)
    ensures Held(AddBulk(h, region, size)) == Held(h) + {region}
    ensures HeadersKept(h, AddBulk(h, region, size), Held(h))
  {
    AddBulkSpec(h, region, size);
    AddBulkHeld(h, region, size);
  }

  lemma AddBulkHeld(h: Heap, region: nat, size: Word)
    requires region !in h.pool && region !in h.bulk
    ensures region !in Held(h)
    ensures Held(AddBulk(h, region, size)) == Held(h) + {region}
    ensures HeadersKept(h, AddBulk(h, region, size), Held(h))
  {
    var h' := AddBulk(h, region, size);
    assert (set a | a in h'.pool && a in h'.hdr && GetAlloc(h'.hdr[a]) == 1)
        == (set a | a in h.pool && a in h.hdr && GetAlloc(h.hdr[a]) == 1);
  }

  lemma GrowKeepsHeld(h: Heap)
    requires Consistent(h)
    requires forall b :: b in h.bulk ==> b + h.bulk[b] <= h.brk || h.brk + CHUNK_SIZE <= b
    ensures h.anchor != Null ==> h.anchor >= DSIZE && Hdrp(h.anchor) in h.succ
    ensures Held(Grow(h)) == Held(h) && HeadersKept(h, Grow(h), Held(h))
  {
    GrowKeepsConsistent(h);
    PackRoundTrip(CHUNK_SIZE, 0);
  }

  // ---------------------------------------------------------------------
  // place (mm.c:328-377)

  /** A listed block is a free pool block of a class size with both links. */
  lemma ListedBlock(h: Heap, i: nat)
    requires Consistent(h) && i < |h.L|
    ensures h.L[i] in h.pool && h.L[i] in h.hdr && h.L[i] in h.pred && h.L[i] in h.succ
    ensures GetSize(h.hdr[h.L[i]]) in Classes && GetAlloc(h.hdr[h.L[i]]) == 0
  {
    TiledBelowBreak(h.pool, h.hdr, h.brk, h.L[i]);
  }

  /** place's split loop: halve L[i] until it has asize bytes. */
  ghost function SplitDown(h: Heap, i: nat, asize: nat): Heap
    requires i < |h.L| && h.L[i] in h.hdr && h.L[i] in h.succ
    requires asize in Classes && GetSize(h.hdr[h.L[i]]) in Classes && asize <= GetSize(h.hdr[h.L[i]])
    decreases GetSize(h.hdr[h.L[i]])
  {
    if GetSize(h.hdr[h.L[i]]) <= asize then h
    else
      HalfOfClass(GetSize(h.hdr[h.L[i]]));
      ClassBelowHalf(asize, GetSize(h.hdr[h.L[i]]));
      HalveFirstHalf(h, i);
      SplitDown(Halve(h, i), i, asize)
  }

  /** The buddies shed by the split loop follow L[i] in the list, smallest
    * first, and join the pool; L[i] is left with asize bytes. */
  lemma {:induction false} SplitDownList(h: Heap, i: nat, asize: nat)
    requires i < |h.L| && h.L[i] in h.hdr && h.L[i] in h.succ
    requires asize in Classes && GetSize(h.hdr[h.L[i]]) in Classes && asize <= GetSize(h.hdr[h.L[i]])
    ensures SplitDown(h, i, asize).L == h.L[..i + 1] + Buddies(h.L[i], asize, GetSize(h.hdr[h.L[i]])) + h.L[i + 1..]
    ensures SplitDown(h, i, asize).pool == h.pool + Elems(Buddies(h.L[i], asize, GetSize(h.hdr[h.L[i]])))
    decreases GetSize(h.hdr[h.L[i]])
  {
    SplitDownOrder(h, i, asize);
    SplitDownPool(h, i, asize);
  }

  /** One round of the split loop. */
  lemma SplitDownStep(h: Heap, i: nat, asize: nat)
    requires i < |h.L| && h.L[i] in h.hdr && h.L[i] in h.succ
    requires asize in Classes && GetSize(h.hdr[h.L[i]]) in Classes && asize < GetSize(h.hdr[h.L[i]])
    ensures Halve(h, i).L[i] == h.L[i] && h.L[i] in Halve(h, i).hdr && h.L[i] in Halve(h, i).succ
    ensures GetSize(Halve(h, i).hdr[h.L[i]]) == GetSize(h.hdr[h.L[i]]) / 2
    ensures GetSize(h.hdr[h.L[i]]) / 2 in Classes && asize <= GetSize(h.hdr[h.L[i]]) / 2
    ensures SplitDown(h, i, asize) == SplitDown(Halve(h, i), i, asize)
    ensures Buddies(h.L[i], asize, GetSize(h.hdr[h.L[i]])) ==
      Buddies(h.L[i], asize, GetSize(h.hdr[h.L[i]]) / 2) + [Buddy(h, i)]
  {
    var s := GetSize(h.hdr[h.L[i]]);
    HalfOfClass(s);
    ClassBelowHalf(asize, s);
    HalveFirstHalf(h, i);
    assert SplitDown(h, i, asize) == SplitDown(Halve(h, i), i, asize);
    BuddyLast(h, i, asize);
  }

  lemma BuddyLast(h: Heap, i: nat, lo: nat)
    requires i < |h.L| && h.L[i] in h.hdr && lo < GetSize(h.hdr[h.L[i]])
    ensures Buddies(h.L[i], lo, GetSize(h.hdr[h.L[i]])) ==
      Buddies(h.L[i], lo, GetSize(h.hdr[h.L[i]]) / 2) + [Buddy(h, i)]
  {
    BuddiesStep(h.L[i], lo, GetSize(h.hdr[h.L[i]]));
  }

  lemma {:induction false} SplitDownOrder(h: Heap, i: nat, asize: nat)
    requires i < |h.L| && h.L[i] in h.hdr && h.L[i] in h.succ
    requires asize in Classes && GetSize(h.hdr[h.L[i]]) in Classes && asize <= GetSize(h.hdr[h.L[i]])
    ensures SplitDown(h, i, asize).L == h.L[..i + 1] + Buddies(h.L[i], asize, GetSize(h.hdr[h.L[i]])) + h.L[i + 1..]
    decreases GetSize(h.hdr[h.L[i]])
  {
    var s := GetSize(h.hdr[h.L[i]]);
    if s <= asize {
      assert h.L == h.L[..i + 1] + h.L[i + 1..];
    } else {
      SplitDownStep(h, i, asize);
      SplitDownOrder(Halve(h, i), i, asize);
      InsertThenSplice(h.L, Halve(h, i).L, SplitDown(h, i, asize).L, i, Buddy(h, i), Buddies(h.L[i], asize, s / 2));
    }
  }

  lemma {:induction false} SplitDownPool(h: Heap, i: nat, asize: nat)
    requires i < |h.L| && h.L[i] in h.hdr && h.L[i] in h.succ
    requires asize in Classes && GetSize(h.hdr[h.L[i]]) in Classes && asize <= GetSize(h.hdr[h.L[i]])
    ensures SplitDown(h, i, asize).pool == h.pool + Elems(Buddies(h.L[i], asize, GetSize(h.hdr[h.L[i]])))
    decreases GetSize(h.hdr[h.L[i]])
  {
    var s := GetSize(h.hdr[h.L[i]]);
    if s <= asize {
      assert Elems([]) == {};
    } else {
      SplitDownStep(h, i, asize);
      SplitDownPool(Halve(h, i), i, asize);
      ElemsAppend(Buddies(h.L[i], asize, s / 2), Buddy(h, i));
    }
  }

  /** The split loop leaves L[i] in place with asize bytes, and the break
    * and the bulk ledger alone. */
  lemma {:induction false} SplitDownHead(h: Heap, i: nat, asize: nat)
    requires i < |h.L| && h.L[i] in h.hdr && h.L[i] in h.succ
    requires asize in Classes && GetSize(h.hdr[h.L[i]]) in Classes && asize <= GetSize(h.hdr[h.L[i]])
    ensures i < |SplitDown(h, i, asize).L| && SplitDown(h, i, asize).L[i] == h.L[i]
    ensures h.L[i] in SplitDown(h, i, asize).hdr && GetSize(SplitDown(h, i, asize).hdr[h.L[i]]) == asize
    ensures SplitDown(h, i, asize).brk == h.brk && SplitDown(h, i, asize).bulk == h.bulk
    decreases GetSize(h.hdr[h.L[i]])
  {
    var s := GetSize(h.hdr[h.L[i]]);
    if asize < s {
      HalfOfClass(s);
      ClassBelowHalf(asize, s);
      HalveFirstHalf(h, i);
      SplitDownHead(Halve(h, i), i, asize);
    }
  }

  /** Sequence algebra for one more halving in front of the split loop, on
    * the list. */
  lemma InsertThenSplice(L: seq<nat>, L1: seq<nat>, L2: seq<nat>, i: nat, x: nat, B: seq<nat>)
    requires i < |L| && L1 == L[..i + 1] + [x] + L[i + 1..]
    requires L2 == L1[..i + 1] + B + L1[i + 1..]
    ensures L2 == L[..i + 1] + (B + [x]) + L[i + 1..]
  {
    assert L1[..i + 1] == L[..i + 1];
    assert L1[i + 1..] == [x] + L[i + 1..];
  }

  lemma ElemsAppend(B: seq<nat>, x: nat)
    ensures Elems(B + [x]) == Elems(B) + {x}
  {
  }

  /** Splitting down keeps the heap consistent. */
  lemma {:induction false} SplitDownConsistent(h: Heap, i: nat, asize: nat)
    requires Consistent(h) && i < |h.L| && asize in Classes && asize <= GetSize(h.hdr[h.L[i]])
    ensures GetSize(h.hdr[h.L[i]]) in Classes
    ensures Consistent(SplitDown(h, i, asize))
    decreases GetSize(h.hdr[h.L[i]])
  {
    ListedBlock(h, i);
    if asize < GetSize(h.hdr[h.L[i]]) {
      HalveKeepsConsistent(h, i);
      HalfOfClass(GetSize(h.hdr[h.L[i]]));
      ClassBelowHalf(asize, GetSize(h.hdr[h.L[i]]));
      HalveFirstHalf(h, i);
      SplitDownConsistent(Halve(h, i), i, asize);
    }
  }

  /** Splitting down keeps every held block and its header. */
  lemma {:induction false} SplitDownKeeps(h: Heap, i: nat, asize: nat)
    requires Consistent(h) && i < |h.L| && asize in Classes && asize <= GetSize(h.hdr[h.L[i]])
    ensures GetSize(h.hdr[h.L[i]]) in Classes
    ensures Held(SplitDown(h, i, asize)) == Held(h) && HeadersKept(h, SplitDown(h, i, asize), Held(h))
    decreases GetSize(h.hdr[h.L[i]])
  {
    ListedBlock(h, i);
    if asize < GetSize(h.hdr[h.L[i]]) {
      HalveKeepsConsistent(h, i);
      HalveKeepsHeld(h, i);
      HalfOfClass(GetSize(h.hdr[h.L[i]]));
      ClassBelowHalf(asize, GetSize(h.hdr[h.L[i]]));
      HalveFirstHalf(h, i);
      SplitDownKeeps(Halve(h, i), i, asize);
    }
  }

  /** What the split loop needs of the list alone: distinct entries with
    * headers, L[i] of a class size, and no other entry starting inside
    * L[i]'s block. */
  ghost predicate Room(hdr: map<nat, Word>, L: seq<nat>, i: nat)
  {
    && i < |L| && Distinct(L) && L[i] in hdr
    && (forall k :: 0 <= k < |L| ==> L[k] in hdr)
    && GetSize(hdr[L[i]]) in Classes
    && (forall k :: 0 <= k < |L| && k != i ==> L[k] < L[i] || L[i] + GetSize(hdr[L[i]]) <= L[k])
  }

  /** A consistent heap leaves room around each listed block. */
  lemma ConsistentRoom(h: Heap, i: nat)
    requires Consistent(h) && i < |h.L|
    ensures Room(h.hdr, h.L, i)
  {
    ListedBlock(h, i);
    forall k | 0 <= k < |h.L| && k != i
      ensures h.L[k] in h.hdr && (h.L[k] < h.L[i] || h.L[i] + GetSize(h.hdr[h.L[i]]) <= h.L[k])
    {
      DistinctAt(h.L, k, i);
      ListedBlock(h, k);
      ClassAligned(GetSize(h.hdr[h.L[k]]));
      TiledApart(h.pool, h.hdr, h.brk, h.L[k], h.L[i]);
    }
  }

  /** Halving keeps the room, and the second half is not yet listed. */
  lemma HalveKeepsRoom(h: Heap, i: nat)
    requires Room(h.hdr, h.L, i) && h.L[i] in h.succ && GetSize(h.hdr[h.L[i]]) > 32
    ensures Buddy(h, i) !in h.L && Room(Halve(h, i).hdr, Halve(h, i).L, i)
  {
    var L, hp, s := h.L, h.L[i], GetSize(h.hdr[h.L[i]]);
    var half, x := s / 2, Buddy(h, i);
    HalfOfClass(s);
    ClassAligned(half);
    PackRoundTrip(half, 0);
    forall k | 0 <= k < |L| ensures L[k] != x {
      if k != i { }
    }
    InsertKeepsDistinct(L, i, x);
    var L', hdr' := Halve(h, i).L, Halve(h, i).hdr;
    assert L' == L[..i + 1] + [x] + L[i + 1..];
    forall k | 0 <= k < |L'|
      ensures L'[k] in hdr' && (k != i ==> L'[k] < hp || hp + half <= L'[k])
    {
      if k < i + 1 {
        assert L'[k] == L[k];
      } else if k > i + 1 {
        assert L'[k] == L[k - 1];
      }
    }
  }

  /** Sequence algebra for one more halving in front of the split loop. */
  lemma SpliceAfterHalving(Z: seq<nat>, Z1: seq<nat>, Z2: seq<nat>, i: nat, a: nat, half: nat, Bs: seq<nat>)
    requires i < |Z| && Z1 == Z[..i] + [half, half] + Z[i + 1..]
    requires Z2 == Z1[..i] + [a] + Bs + Z1[i + 1..]
    ensures Z2 == Z[..i] + [a] + (Bs + [half]) + Z[i + 1..]
  {
    assert Z1[..i] == Z[..i];
    assert Z1[i + 1..] == [half] + Z[i + 1..];
  }

  /** The sizes on the list after the split loop: asize for L[i], then the
    * sizes of its buddies. */
  lemma {:induction false} SplitDownSizes(h: Heap, i: nat, asize: nat)
    requires Room(h.hdr, h.L, i) && h.L[i] in h.succ
    requires asize in Classes && asize <= GetSize(h.hdr[h.L[i]])
    ensures forall k :: 0 <= k < |SplitDown(h, i, asize).L| ==> SplitDown(h, i, asize).L[k] in SplitDown(h, i, asize).hdr
    ensures SizesOf(SplitDown(h, i, asize).hdr, SplitDown(h, i, asize).L) ==
      SizesOf(h.hdr, h.L)[..i] + [asize] + BuddySizes(asize, GetSize(h.hdr[h.L[i]])) + SizesOf(h.hdr, h.L)[i + 1..]
    decreases GetSize(h.hdr[h.L[i]])
  {
    var s := GetSize(h.hdr[h.L[i]]);
    ClassAligned(asize);
    if s <= asize {
      var Z := SizesOf(h.hdr, h.L);
      assert Z == Z[..i] + [asize] + Z[i + 1..];
    } else {
      var half := s / 2;
      HalfOfClass(s);
      ClassAligned(half);
      PackRoundTrip(half, 0);
      HalveKeepsRoom(h, i);
      HalveSizes(h.L, h.hdr, i, Buddy(h, i), Pack(half, 0));
      HalveFirstHalf(h, i);
      ClassBelowHalf(asize, s);
      SplitDownSizes(Halve(h, i), i, asize);
      SpliceAfterHalving(SizesOf(h.hdr, h.L), SizesOf(Halve(h, i).hdr, Halve(h, i).L),
        SizesOf(SplitDown(h, i, asize).hdr, SplitDown(h, i, asize).L), i, asize, half, BuddySizes(asize, half));
    }
  }

  /** The state place leaves: L[i] split down to asize bytes and taken off
    * the list, allocated. */
  ghost function Placed(h: Heap, i: nat, asize: nat): (r: Heap)
    requires Consistent(h) && i < |h.L| && asize in Classes && asize <= GetSize(h.hdr[h.L[i]])
    ensures h.L[i] in r.hdr
  {
    ListedBlock(h, i);
    SplitDownList(h, i, asize);
    SplitDownHead(h, i, asize);
    SplitDownConsistent(h, i, asize);
    TakeOff(SplitDown(h, i, asize), i)
  }

  /** place: L[i] ends up allocated with exactly asize bytes and off the
    * list, the buddies it shed take its place in the list, the free bytes
    * drop by asize, and no held block changes. */
  lemma PlaceSpec(h: Heap, i: nat, asize: nat)
    requires Consistent(h) && i < |h.L| && asize in Classes && asize <= GetSize(h.hdr[h.L[i]])
    ensures Consistent(Placed(h, i, asize))
    ensures Placed(h, i, asize).L == h.L[..i] + Buddies(h.L[i], asize, GetSize(h.hdr[h.L[i]])) + h.L[i + 1..]
    ensures Placed(h, i, asize).pool == h.pool + Elems(Buddies(h.L[i], asize, GetSize(h.hdr[h.L[i]])))
    ensures GetAlloc(Placed(h, i, asize).hdr[h.L[i]]) == 1 && GetSize(Placed(h, i, asize).hdr[h.L[i]]) == asize
    ensures FreeSizesOf(Placed(h, i, asize)) ==
      FreeSizesOf(h)[..i] + BuddySizes(asize, GetSize(h.hdr[h.L[i]])) + FreeSizesOf(h)[i + 1..]
    ensures Sum(FreeSizesOf(Placed(h, i, asize))) == Sum(FreeSizesOf(h)) - asize
    ensures h.L[i] !in Held(h)
    ensures Held(Placed(h, i, asize)) == Held(h) + {h.L[i]} && HeadersKept(h, Placed(h, i, asize), Held(h))
    ensures Placed(h, i, asize).brk == h.brk && Placed(h, i, asize).bulk == h.bulk
  {
    PlaceConsistent(h, i, asize);
    PlaceList(h, i, asize);
    PlaceSizes(h, i, asize);
    PlaceHeld(h, i, asize);
  }

  lemma PlaceConsistent(h: Heap, i: nat, asize: nat)
    requires Consistent(h) && i < |h.L| && asize in Classes && asize <= GetSize(h.hdr[h.L[i]])
    ensures Consistent(Placed(h, i, asize))
  {
    ListedBlock(h, i);
    SplitDownList(h, i, asize);
    SplitDownHead(h, i, asize);
    SplitDownConsistent(h, i, asize);
    var h2 := SplitDown(h, i, asize);
    TakeOffTiling(h2, i);
    TakeOffWellLinked(h2, i);
    TakeOffFlagsMatch(h2, i);
  }

  lemma PlaceList(h: Heap, i: nat, asize: nat)
    requires Consistent(h) && i < |h.L| && asize in Classes && asize <= GetSize(h.hdr[h.L[i]])
    ensures Placed(h, i, asize).L == h.L[..i] + Buddies(h.L[i], asize, GetSize(h.hdr[h.L[i]])) + h.L[i + 1..]
    ensures Placed(h, i, asize).pool == h.pool + Elems(Buddies(h.L[i], asize, GetSize(h.hdr[h.L[i]])))
    ensures GetAlloc(Placed(h, i, asize).hdr[h.L[i]]) == 1 && GetSize(Placed(h, i, asize).hdr[h.L[i]]) == asize
    ensures Placed(h, i, asize).brk == h.brk && Placed(h, i, asize).bulk == h.bulk
  {
    ListedBlock(h, i);
    SplitDownList(h, i, asize);
    SplitDownHead(h, i, asize);
    ClassAligned(asize);
    PackRoundTrip(asize, 1);
    var h2 := SplitDown(h, i, asize);
    SpliceOutListed(h.L, h2.L, i, Buddies(h.L[i], asize, GetSize(h.hdr[h.L[i]])));
  }

  /** Sequence algebra for taking L[i] out after its buddies were spliced in. */
  lemma SpliceOut<T>(L: seq<T>, L2: seq<T>, i: nat, a: T, B: seq<T>)
    requires i < |L| && L2 == L[..i] + [a] + B + L[i + 1..]
    ensures L2[..i] + L2[i + 1..] == L[..i] + B + L[i + 1..]
  {
    assert L2[..i] == L[..i];
    assert L2[i + 1..] == B + L[i + 1..];
  }

  lemma SpliceOutListed<T>(L: seq<T>, L2: seq<T>, i: nat, B: seq<T>)
    requires i < |L| && L2 == L[..i + 1] + B + L[i + 1..]
    ensures L2[..i] + L2[i + 1..] == L[..i] + B + L[i + 1..]
  {
    assert L2[..i] == L[..i];
    assert L2[i + 1..] == B + L[i + 1..];
  }

  lemma PlaceSizes(h: Heap, i: nat, asize: nat)
    requires Consistent(h) && i < |h.L| && asize in Classes && asize <= GetSize(h.hdr[h.L[i]])
    ensures Consistent(Placed(h, i, asize))
    ensures FreeSizesOf(Placed(h, i, asize)) ==
      FreeSizesOf(h)[..i] + BuddySizes(asize, GetSize(h.hdr[h.L[i]])) + FreeSizesOf(h)[i + 1..]
    ensures Sum(FreeSizesOf(Placed(h, i, asize))) == Sum(FreeSizesOf(h)) - asize
  {
    PlaceConsistent(h, i, asize);
    ListedBlock(h, i);
    ConsistentRoom(h, i);
    SplitDownSizes(h, i, asize);
    SplitDownList(h, i, asize);
    SplitDownHead(h, i, asize);
    SplitDownConsistent(h, i, asize);
    var h2 := SplitDown(h, i, asize);
    TakeOffFreeSizes(h2, i);
    var s := GetSize(h.hdr[h.L[i]]);
    ClassAligned(asize);
    var Z, BS := FreeSizesOf(h), BuddySizes(asize, s);
    SpliceOut(Z, FreeSizesOf(h2), i, asize, BS);
    BuddySizesSum(asize, s);
    SumReplace(Z, i, BS);
  }

  lemma PlaceHeld(h: Heap, i: nat, asize: nat)
    requires Consistent(h) && i < |h.L| && asize in Classes && asize <= GetSize(h.hdr[h.L[i]])
    ensures h.L[i] !in Held(h)
    ensures Held(Placed(h, i, asize)) == Held(h) + {h.L[i]} && HeadersKept(h, Placed(h, i, asize), Held(h))
  {
    ListedBlock(h, i);
    SplitDownList(h, i, asize);
    SplitDownHead(h, i, asize);
    SplitDownConsistent(h, i, asize);
    SplitDownKeeps(h, i, asize);
    var h2 := SplitDown(h, i, asize);
    TakeOffKeepsHeld(h2, i);
    TakeOffKeepsHeld(h, i);
  }
}
