/** The explicit free list of src/mm.c, on values.
  *
  * The list is read as a sequence L of header addresses from head to tail.
  * It is doubly linked through pred/succ words and is NOT circular: the head
  * is its own predecessor and the tail its own successor.  The global anchor
  * explicit_free_lists points at the tail's metadata (BLKP of its header),
  * or is NULL when the list is empty.
  *
  * This module states that shape as predicates over the list and the two
  * link maps, and proves that each pointer update done by split_free_block,
  * place, extend_heap and free keeps it.
  */
module FreeList {
  import opened Layout
  import opened Sizing

  /** No header occurs twice in the list. */
  ghost predicate Distinct(L: seq<nat>)
  {
    forall i, j {:trigger Differ(L, i, j)} ::
      0 <= i < |L| && 0 <= j < |L| && i != j ==> Differ(L, i, j)
  }

  /** The entries at positions i and j differ.  Distinct is stated through
    * this predicate so that it is only instantiated at the positions a
    * proof names (DistinctAt), not at every pair of entries in sight. */
  ghost predicate Differ(L: seq<nat>, i: int, j: int)
    requires 0 <= i < |L| && 0 <= j < |L|
  {
    L[i] != L[j]
  }

  lemma DistinctAt(L: seq<nat>, i: nat, j: nat)
    requires Distinct(L) && i < |L| && j < |L| && i != j
    ensures L[i] != L[j]
  {
    assert Differ(L, i, j);
  }

  /** Distinct from the pairs in order. */
  lemma DistinctFromOrdered(L: seq<nat>)
    requires forall i, j :: 0 <= i < j < |L| ==> L[i] != L[j]
    ensures Distinct(L)
  {
    forall i, j | 0 <= i < |L| && 0 <= j < |L| && i != j
      ensures Differ(L, i, j)
    {
      if j < i {
        assert L[j] != L[i];
      }
    }
  }

  /** L is the list that the links describe: adjacent entries point at each
    * other, the head is its own predecessor and the tail its own successor. */
  ghost predicate WellLinked(L: seq<nat>, pred: map<nat, nat>, succ: map<nat, nat>)
  {
    && Distinct(L)
    && Keys(L, pred) && Keys(L, succ)
    && (|L| > 0 ==> pred[L[0]] == L[0] && succ[L[|L| - 1]] == L[|L| - 1])
    && SuccLinked(L, succ)
    && PredLinked(L, pred)
  }

  /** Every entry has a word in link map m. */
  ghost predicate Keys(L: seq<nat>, m: map<nat, nat>)
  {
    forall i {:trigger L[i] in m} :: 0 <= i < |L| ==> L[i] in m
  }

  /** Every entry but the tail has the next entry as its successor. */
  ghost predicate SuccLinked(L: seq<nat>, succ: map<nat, nat>)
  {
    forall i {:trigger succ[L[i]]} :: 0 <= i < |L| - 1 && L[i] in succ ==> succ[L[i]] == L[i + 1]
  }

  /** Every entry but the head has the previous entry as its predecessor. */
  ghost predicate PredLinked(L: seq<nat>, pred: map<nat, nat>)
  {
    forall i {:trigger pred[L[i]]} :: 0 < i < |L| && L[i] in pred ==> pred[L[i]] == L[i - 1]
  }

  /** The value of explicit_free_lists for list L. */
  function AnchorOf(L: seq<nat>): nat
  {
    if |L| == 0 then Null else Blkp(L[|L| - 1])
  }

  /** A self link marks an end and only an end: pred(x) == x exactly for the
    * head and succ(x) == x exactly for the tail.  This is how the source
    * recognises the ends of a list that is not circular. */
  lemma SelfLinksMarkEnds(L: seq<nat>, pred: map<nat, nat>, succ: map<nat, nat>, i: nat)
    requires WellLinked(L, pred, succ) && i < |L|
    ensures pred[L[i]] == L[i] <==> i == 0
    ensures succ[L[i]] == L[i] <==> i == |L| - 1
  {
    if i > 0 {
      DistinctAt(L, i - 1, i);
      assert pred[L[i]] == L[i - 1] != L[i];
    }
    if i < |L| - 1 {
      DistinctAt(L, i + 1, i);
      assert succ[L[i]] == L[i + 1] != L[i];
    }
  }

  /** The anchor names the tail, and BLKP never yields NULL, so the anchor is
    * NULL exactly when the list is empty. */
  lemma AnchorNullIffEmpty(L: seq<nat>)
    ensures AnchorOf(L) == Null <==> |L| == 0
    ensures |L| > 0 ==> Hdrp(AnchorOf(L)) == L[|L| - 1]
  {
  }

  /** split_free_block's relinking (mm.c:301-321): the new header x goes right
    * after L[i].  If L[i] had a successor, x takes it over; otherwise x is
    * the new tail and links to itself. */
  lemma LinkAfter(L: seq<nat>, pred: map<nat, nat>, succ: map<nat, nat>, i: nat, x: nat)
    requires WellLinked(L, pred, succ) && i < |L| && x !in L
    ensures i < |L| - 1 ==>
      WellLinked(L[..i + 1] + [x] + L[i + 1..], pred[x := L[i]][L[i + 1] := x], succ[L[i] := x][x := L[i + 1]])
    ensures i == |L| - 1 ==>
      WellLinked(L[..i + 1] + [x] + L[i + 1..], pred[x := L[i]], succ[L[i] := x][x := x])
    ensures AnchorOf(L[..i + 1] + [x] + L[i + 1..]) == if i == |L| - 1 then Blkp(x) else AnchorOf(L)
  {
    var L' := L[..i + 1] + [x] + L[i + 1..];
    if i < |L| - 1 {
      InsertKeepsDistinct(L, i, x);
      InsertSucc(L, succ, i, x);
      InsertPred(L, pred, i, x);
      var pred', succ' := pred[x := L[i]][L[i + 1] := x], succ[L[i] := x][x := L[i + 1]];
      assert Keys(L', pred') && Keys(L', succ') by {
        forall k | 0 <= k < |L'| ensures L'[k] in pred' && L'[k] in succ' {
          if k <= i {
            assert L'[k] == L[k];
          } else if k > i + 1 {
            assert L'[k] == L[k - 1];
          }
        }
      }
      assert pred'[L'[0]] == L'[0] by {
        assert L'[0] == L[0];
        DistinctAt(L, 0, i + 1);
      }
      assert succ'[L'[|L'| - 1]] == L'[|L'| - 1] by {
        DistinctAt(L, |L| - 1, i);
        assert L'[|L'| - 1] == L[|L| - 1] != L[i];
      }
    } else {
      assert L' == L + [x];
      Append(L, pred, succ, x);
    }
  }

  /** Inserting a header that is not on the list keeps the entries distinct. */
  lemma InsertKeepsDistinct(L: seq<nat>, i: nat, x: nat)
    requires Distinct(L) && i < |L| && x !in L
    ensures Distinct(L[..i + 1] + [x] + L[i + 1..])
  {
    var L' := L[..i + 1] + [x] + L[i + 1..];
    forall a, b | 0 <= a < b < |L'| ensures L'[a] != L'[b] {
      if b <= i {
        assert L'[a] == L[a] && L'[b] == L[b];
        DistinctAt(L, a, b);
      } else if b == i + 1 {
        assert L'[a] == L[a];
      } else if a == i + 1 {
        assert L'[b] == L[b - 1];
      } else if a <= i {
        assert L'[a] == L[a] && L'[b] == L[b - 1];
        DistinctAt(L, a, b - 1);
      } else {
        assert L'[a] == L[a - 1] && L'[b] == L[b - 1];
        DistinctAt(L, a - 1, b - 1);
      }
    }
    DistinctFromOrdered(L');
  }

  lemma InsertSucc(L: seq<nat>, succ: map<nat, nat>, i: nat, x: nat)
    requires Distinct(L) && Keys(L, succ) && SuccLinked(L, succ) && i < |L| - 1 && x !in L
    ensures SuccLinked(L[..i + 1] + [x] + L[i + 1..], succ[L[i] := x][x := L[i + 1]])
  {
    var L' := L[..i + 1] + [x] + L[i + 1..];
    var succ' := succ[L[i] := x][x := L[i + 1]];
    forall k {:trigger succ'[L'[k]]} | 0 <= k < |L'| - 1 && L'[k] in succ' ensures succ'[L'[k]] == L'[k + 1] {
      if k < i {
        assert L'[k] == L[k] && L'[k + 1] == L[k + 1];
        DistinctAt(L, k, i);
        assert L[k] != L[i] && L[k] != x;
        assert succ[L[k]] == L[k + 1];
      } else if k == i {
        assert L'[k] == L[i] && L'[k + 1] == x;
      } else if k == i + 1 {
        assert L'[k] == x && L'[k + 1] == L[i + 1];
      } else {
        assert L'[k] == L[k - 1] && L'[k + 1] == L[k];
        DistinctAt(L, k - 1, i);
        assert L[k - 1] != L[i] && L[k - 1] != x;
        assert succ[L[k - 1]] == L[k];
      }
    }
  }

  lemma InsertPred(L: seq<nat>, pred: map<nat, nat>, i: nat, x: nat)
    requires Distinct(L) && Keys(L, pred) && PredLinked(L, pred) && i < |L| - 1 && x !in L
    ensures PredLinked(L[..i + 1] + [x] + L[i + 1..], pred[x := L[i]][L[i + 1] := x])
  {
    var L' := L[..i + 1] + [x] + L[i + 1..];
    var pred' := pred[x := L[i]][L[i + 1] := x];
    forall k {:trigger pred'[L'[k]]} | 0 < k < |L'| && L'[k] in pred' ensures pred'[L'[k]] == L'[k - 1] {
      if k <= i {
        assert L'[k] == L[k] && L'[k - 1] == L[k - 1];
        DistinctAt(L, k, i + 1);
        assert L[k] != L[i + 1] && L[k] != x;
        assert pred[L[k]] == L[k - 1];
      } else if k == i + 1 {
        assert L'[k] == x && L'[k - 1] == L[i];
        assert x != L[i + 1];
      } else if k == i + 2 {
        assert L'[k] == L[i + 1] && L'[k - 1] == x;
      } else {
        assert L'[k] == L[k - 1] && L'[k - 1] == L[k - 2];
        DistinctAt(L, k - 1, i + 1);
        assert L[k - 1] != L[i + 1] && L[k - 1] != x;
        assert pred[L[k - 1]] == L[k - 2];
      }
    }
  }

  /** place's unlinking (mm.c:355-374): removing L[i] in each of the four
    * cases the source tells apart by self links. */
  lemma Unlink(L: seq<nat>, pred: map<nat, nat>, succ: map<nat, nat>, i: nat)
    requires WellLinked(L, pred, succ) && i < |L|
    ensures var hp, p, s := L[i], pred[L[i]], succ[L[i]];
      p != hp && s != hp ==> WellLinked(L[..i] + L[i + 1..], pred[s := p], succ[p := s])
    ensures var hp, p, s := L[i], pred[L[i]], succ[L[i]];
      p != hp && s == hp ==> WellLinked(L[..i] + L[i + 1..], pred, succ[p := p])
    ensures var hp, p, s := L[i], pred[L[i]], succ[L[i]];
      p == hp && s != hp ==> WellLinked(L[..i] + L[i + 1..], pred[s := s], succ)
    ensures var hp, p, s := L[i], pred[L[i]], succ[L[i]];
      p == hp && s == hp ==> L[..i] + L[i + 1..] == []
    ensures var hp, p, s := L[i], pred[L[i]], succ[L[i]];
      AnchorOf(L[..i] + L[i + 1..]) ==
        if s != hp then AnchorOf(L) else if p != hp then Blkp(p) else Null
  {
    SelfLinksMarkEnds(L, pred, succ, i);
    if 0 < i < |L| - 1 {
      assert pred[L[i]] == L[i - 1] && succ[L[i]] == L[i + 1];
      UnlinkMiddle(L, pred, succ, i);
    } else if 0 < i {
      assert pred[L[i]] == L[i - 1];
      assert L[..i] + L[i + 1..] == L[..|L| - 1];
      UnlinkTail(L, pred, succ);
    } else if i < |L| - 1 {
      assert succ[L[i]] == L[i + 1];
      assert L[..i] + L[i + 1..] == L[1..];
      UnlinkHead(L, pred, succ);
    } else {
      assert L[..i] + L[i + 1..] == [];
    }
  }

  lemma RemoveKeepsDistinct(L: seq<nat>, i: nat)
    requires Distinct(L) && i < |L|
    ensures Distinct(L[..i] + L[i + 1..])
  {
    var L' := L[..i] + L[i + 1..];
    forall a, b | 0 <= a < b < |L'| ensures L'[a] != L'[b] {
      if a >= i {
        assert L'[a] == L[a + 1] && L'[b] == L[b + 1];
        DistinctAt(L, a + 1, b + 1);
      } else if b >= i {
        assert L'[a] == L[a] && L'[b] == L[b + 1];
        DistinctAt(L, a, b + 1);
      } else {
        assert L'[a] == L[a] && L'[b] == L[b];
        DistinctAt(L, a, b);
      }
    }
    DistinctFromOrdered(L');
  }

  lemma UnlinkMiddle(L: seq<nat>, pred: map<nat, nat>, succ: map<nat, nat>, i: nat)
    requires WellLinked(L, pred, succ) && 0 < i < |L| - 1
    ensures WellLinked(L[..i] + L[i + 1..], pred[L[i + 1] := L[i - 1]], succ[L[i - 1] := L[i + 1]])
  {
    var L' := L[..i] + L[i + 1..];
    var pred', succ' := pred[L[i + 1] := L[i - 1]], succ[L[i - 1] := L[i + 1]];
    RemoveKeepsDistinct(L, i);
    RemoveSucc(L, succ, i);
    RemovePred(L, pred, i);
    assert Keys(L', pred') && Keys(L', succ') by {
      forall k | 0 <= k < |L'| ensures L'[k] in pred' && L'[k] in succ' {
        if k < i {
          assert L'[k] == L[k];
        } else {
          assert L'[k] == L[k + 1];
        }
      }
    }
    assert pred'[L'[0]] == L'[0] by {
      DistinctAt(L, 0, i + 1);
      assert L'[0] == L[0] != L[i + 1];
    }
    assert succ'[L'[|L'| - 1]] == L'[|L'| - 1] by {
      DistinctAt(L, |L| - 1, i - 1);
      assert L'[|L'| - 1] == L[|L| - 1] != L[i - 1];
    }
  }

  lemma RemoveSucc(L: seq<nat>, succ: map<nat, nat>, i: nat)
    requires Distinct(L) && Keys(L, succ) && SuccLinked(L, succ) && 0 < i < |L| - 1
    ensures SuccLinked(L[..i] + L[i + 1..], succ[L[i - 1] := L[i + 1]])
  {
    var L' := L[..i] + L[i + 1..];
    var succ' := succ[L[i - 1] := L[i + 1]];
    forall k {:trigger succ'[L'[k]]} | 0 <= k < |L'| - 1 && L'[k] in succ' ensures succ'[L'[k]] == L'[k + 1] {
      if k < i - 1 {
        assert L'[k] == L[k] && L'[k + 1] == L[k + 1];
        DistinctAt(L, k, i - 1);
        assert L[k] != L[i - 1];
        assert succ[L[k]] == L[k + 1];
      } else if k == i - 1 {
        assert L'[k] == L[i - 1] && L'[k + 1] == L[i + 1];
      } else {
        assert L'[k] == L[k + 1] && L'[k + 1] == L[k + 2];
        DistinctAt(L, k + 1, i - 1);
        assert L[k + 1] != L[i - 1];
        assert succ[L[k + 1]] == L[k + 2];
      }
    }
  }

  lemma RemovePred(L: seq<nat>, pred: map<nat, nat>, i: nat)
    requires Distinct(L) && Keys(L, pred) && PredLinked(L, pred) && 0 < i < |L| - 1
    ensures PredLinked(L[..i] + L[i + 1..], pred[L[i + 1] := L[i - 1]])
  {
    var L' := L[..i] + L[i + 1..];
    var pred' := pred[L[i + 1] := L[i - 1]];
    forall k {:trigger pred'[L'[k]]} | 0 < k < |L'| && L'[k] in pred' ensures pred'[L'[k]] == L'[k - 1] {
      if k < i {
        assert L'[k] == L[k] && L'[k - 1] == L[k - 1];
        DistinctAt(L, k, i + 1);
        assert L[k] != L[i + 1];
        assert pred[L[k]] == L[k - 1];
      } else if k == i {
        assert L'[k] == L[i + 1] && L'[k - 1] == L[i - 1];
      } else {
        assert L'[k] == L[k + 1] && L'[k - 1] == L[k];
        DistinctAt(L, k + 1, i + 1);
        assert L[k + 1] != L[i + 1];
        assert pred[L[k + 1]] == L[k];
      }
    }
  }

  /** A prefix and a suffix of a linked list are linked by the same words. */
  lemma SliceLinked(L: seq<nat>, pred: map<nat, nat>, succ: map<nat, nat>, j: nat)
    requires Keys(L, pred) && Keys(L, succ) && SuccLinked(L, succ) && PredLinked(L, pred) && j <= |L|
    ensures SuccLinked(L[..j], succ) && PredLinked(L[..j], pred)
    ensures SuccLinked(L[j..], succ) && PredLinked(L[j..], pred)
  {
    forall k | 0 <= k < j - 1 && L[..j][k] in succ ensures succ[L[..j][k]] == L[..j][k + 1] {
      assert succ[L[k]] == L[k + 1];
    }
    forall k | 0 < k < j && L[..j][k] in pred ensures pred[L[..j][k]] == L[..j][k - 1] {
      assert pred[L[k]] == L[k - 1];
    }
    forall k | 0 <= k < |L| - j - 1 && L[j..][k] in succ ensures succ[L[j..][k]] == L[j..][k + 1] {
      assert succ[L[j + k]] == L[j + k + 1];
    }
    forall k | 0 < k < |L| - j && L[j..][k] in pred ensures pred[L[j..][k]] == L[j..][k - 1] {
      assert pred[L[j + k]] == L[j + k - 1];
    }
  }

  lemma UnlinkTail(L: seq<nat>, pred: map<nat, nat>, succ: map<nat, nat>)
    requires WellLinked(L, pred, succ) && |L| > 1
    ensures WellLinked(L[..|L| - 1], pred, succ[L[|L| - 2] := L[|L| - 2]])
  {
    var L' := L[..|L| - 1];
    var succ' := succ[L[|L| - 2] := L[|L| - 2]];
    SliceLinked(L, pred, succ, |L| - 1);
    RemoveKeepsDistinct(L, |L| - 1);
    assert L[..|L| - 1] + L[|L|..] == L';
    forall k {:trigger succ'[L'[k]]} | 0 <= k < |L'| - 1 && L'[k] in succ' ensures succ'[L'[k]] == L'[k + 1] {
      DistinctAt(L, k, |L| - 2);
      assert L'[k] == L[k] != L[|L| - 2];
      assert succ[L'[k]] == L'[k + 1];
    }
  }

  lemma UnlinkHead(L: seq<nat>, pred: map<nat, nat>, succ: map<nat, nat>)
    requires WellLinked(L, pred, succ) && |L| > 1
    ensures WellLinked(L[1..], pred[L[1] := L[1]], succ)
  {
    SliceLinked(L, pred, succ, 1);
    DropHeadKeepsDistinct(L);
    HeadPredLinked(L, pred);
    SuffixKeys(L, pred[L[1] := L[1]], succ);
    assert L[1..][0] == L[1] && L[1..][|L| - 2] == L[|L| - 1];
    LinkedFromParts(L[1..], pred[L[1] := L[1]], succ);
  }

  lemma DropHeadKeepsDistinct(L: seq<nat>)
    requires Distinct(L) && |L| > 0
    ensures Distinct(L[1..])
  {
    forall a, b | 0 <= a < b < |L| - 1 ensures L[1..][a] != L[1..][b] {
      DistinctAt(L, a + 1, b + 1);
    }
    DistinctFromOrdered(L[1..]);
  }

  lemma LinkedFromParts(L: seq<nat>, pred: map<nat, nat>, succ: map<nat, nat>)
    requires Distinct(L) && Keys(L, pred) && Keys(L, succ) && |L| > 0
    requires pred[L[0]] == L[0] && succ[L[|L| - 1]] == L[|L| - 1]
    requires SuccLinked(L, succ) && PredLinked(L, pred)
    ensures WellLinked(L, pred, succ)
  {
  }

  /** After the head is dropped, the new head links to itself and every
    * later entry keeps its predecessor. */
  lemma HeadPredLinked(L: seq<nat>, pred: map<nat, nat>)
    requires Distinct(L) && PredLinked(L, pred) && |L| > 1
    ensures PredLinked(L[1..], pred[L[1] := L[1]])
  {
    var L', pred' := L[1..], pred[L[1] := L[1]];
    forall k {:trigger pred'[L'[k]]} | 0 < k < |L'| && L'[k] in pred' ensures pred'[L'[k]] == L'[k - 1] {
      DistinctAt(L, k + 1, 1);
      assert L'[k] == L[k + 1] != L[1];
      assert pred[L[k + 1]] == L[k];
    }
  }

  lemma SuffixKeys(L: seq<nat>, pred: map<nat, nat>, succ: map<nat, nat>)
    requires |L| > 1 && Keys(L, succ)
    requires forall k :: 1 <= k < |L| ==> L[k] in pred
    ensures Keys(L[1..], pred) && Keys(L[1..], succ)
  {
    forall k | 0 <= k < |L| - 1 ensures L[1..][k] in pred && L[1..][k] in succ {
      assert L[1..][k] == L[k + 1];
    }
  }

  /** extend_heap and free (mm.c:429-446, 559-575): a new block x becomes the
    * tail; the old tail, if any, becomes its predecessor. */
  lemma Append(L: seq<nat>, pred: map<nat, nat>, succ: map<nat, nat>, x: nat)
    requires WellLinked(L, pred, succ) && x !in L
    ensures |L| == 0 ==> WellLinked([x], pred[x := x], succ[x := x])
    ensures |L| > 0 ==> WellLinked(L + [x], pred[x := L[|L| - 1]], succ[L[|L| - 1] := x][x := x])
    ensures AnchorOf(L + [x]) == Blkp(x)
  {
    if |L| > 0 {
      var L', t := L + [x], L[|L| - 1];
      var pred', succ' := pred[x := t], succ[t := x][x := x];
      AppendSucc(L, succ, x);
      AppendPred(L, pred, x);
      assert Distinct(L') by {
        forall a, b | 0 <= a < b < |L'| ensures L'[a] != L'[b] {
          assert L'[a] == L[a];
          if b < |L| {
            assert L'[b] == L[b];
            DistinctAt(L, a, b);
          }
        }
        DistinctFromOrdered(L');
      }
      assert Keys(L', pred') && Keys(L', succ') by {
        forall k | 0 <= k < |L'| ensures L'[k] in pred' && L'[k] in succ' {
          if k < |L| {
            assert L'[k] == L[k];
          }
        }
      }
      assert pred'[L'[0]] == L'[0] by {
        assert L'[0] == L[0] != x;
      }
    }
  }

  lemma AppendSucc(L: seq<nat>, succ: map<nat, nat>, x: nat)
    requires Distinct(L) && Keys(L, succ) && SuccLinked(L, succ) && |L| > 0 && x !in L
    ensures SuccLinked(L + [x], succ[L[|L| - 1] := x][x := x])
  {
    var L', t := L + [x], L[|L| - 1];
    var succ' := succ[t := x][x := x];
    forall k {:trigger succ'[L'[k]]} | 0 <= k < |L'| - 1 && L'[k] in succ' ensures succ'[L'[k]] == L'[k + 1] {
      assert L'[k] == L[k] != x;
      if k < |L| - 1 {
        DistinctAt(L, k, |L| - 1);
        assert L[k] != t && L'[k + 1] == L[k + 1];
        assert succ[L[k]] == L[k + 1];
      }
    }
  }

  lemma AppendPred(L: seq<nat>, pred: map<nat, nat>, x: nat)
    requires Distinct(L) && Keys(L, pred) && PredLinked(L, pred) && |L| > 0 && x !in L
    ensures PredLinked(L + [x], pred[x := L[|L| - 1]])
  {
    var L' := L + [x];
    var pred' := pred[x := L[|L| - 1]];
    forall k {:trigger pred'[L'[k]]} | 0 < k < |L'| && L'[k] in pred' ensures pred'[L'[k]] == L'[k - 1] {
      if k < |L| {
        assert L'[k] == L[k] != x && L'[k - 1] == L[k - 1];
        assert pred[L[k]] == L[k - 1];
      }
    }
  }

  // ---------------------------------------------------------------------
  // Sizes of the listed blocks

  /** The sizes of the blocks of L, as their headers give them. */
  ghost function SizesOf(hdr: map<nat, Word>, L: seq<nat>): (z: seq<nat>)
    requires forall k :: 0 <= k < |L| ==> L[k] in hdr
    ensures |z| == |L| && forall k :: 0 <= k < |L| ==> z[k] == GetSize(hdr[L[k]])
  {
    seq(|L|, k requires 0 <= k < |L| => GetSize(hdr[L[k]]))
  }

  /** Sizes distribute over concatenation. */
  lemma SizesOfConcat(hdr: map<nat, Word>, A: seq<nat>, B: seq<nat>)
    requires forall k :: 0 <= k < |A| ==> A[k] in hdr
    requires forall k :: 0 <= k < |B| ==> B[k] in hdr
    ensures SizesOf(hdr, A + B) == SizesOf(hdr, A) + SizesOf(hdr, B)
  {
    var C := A + B;
    assert forall k :: 0 <= k < |A| ==> C[k] == A[k];
    assert forall k :: |A| <= k < |C| ==> C[k] == B[k - |A|];
  }

  /** Sizes only depend on the headers of the listed blocks. */
  lemma SizesOfFrame(hdr: map<nat, Word>, hdr': map<nat, Word>, A: seq<nat>)
    requires forall k :: 0 <= k < |A| ==> A[k] in hdr && A[k] in hdr' && hdr'[A[k]] == hdr[A[k]]
    ensures SizesOf(hdr', A) == SizesOf(hdr, A)
  {
  }

  /** Sizes of a slice are the slice of the sizes. */
  lemma SizesOfSlice(hdr: map<nat, Word>, L: seq<nat>, i: nat, j: nat)
    requires forall k :: 0 <= k < |L| ==> L[k] in hdr
    requires i <= j <= |L|
    ensures SizesOf(hdr, L[i..j]) == SizesOf(hdr, L)[i..j]
  {
  }

  /** Replacing entry i of a list by blocks M, with every other listed
    * header left alone, replaces entry i of the sizes by the sizes of M. */
  lemma SizesOfReplace(hdr: map<nat, Word>, hdr': map<nat, Word>, L: seq<nat>, i: nat, M: seq<nat>)
    requires i < |L|
    requires forall k :: 0 <= k < |L| ==> L[k] in hdr
    requires forall k :: 0 <= k < |M| ==> M[k] in hdr'
    requires forall k :: 0 <= k < |L| && k != i ==> L[k] in hdr' && hdr'[L[k]] == hdr[L[k]]
    ensures SizesOf(hdr', L[..i] + M + L[i + 1..]) == SizesOf(hdr, L)[..i] + SizesOf(hdr', M) + SizesOf(hdr, L)[i + 1..]
  {
    var L' := L[..i] + M + L[i + 1..];
    var Z, Z', R := SizesOf(hdr, L), SizesOf(hdr', L'), SizesOf(hdr, L)[..i] + SizesOf(hdr', M) + SizesOf(hdr, L)[i + 1..];
    assert |Z'| == |R|;
    forall k | 0 <= k < |Z'|
      ensures Z'[k] == R[k]
    {
      if k < i {
        assert L'[k] == L[k];
      } else if k < i + |M| {
        assert L'[k] == M[k - i];
      } else {
        assert L'[k] == L[k - |M| + 1];
      }
    }
  }

  function Sum(z: seq<nat>): nat
  {
    if |z| == 0 then 0 else Sum(z[..|z| - 1]) + z[|z| - 1]
  }

  lemma SumOne(a: nat)
    ensures Sum([a]) == a
  {
    assert [a][..0] == [];
  }

  lemma SumTwo(a: nat, b: nat)
    ensures Sum([a, b]) == a + b
  {
    assert [a, b][..1] == [a];
    SumOne(a);
  }

  lemma {:induction false} SumAppend(a: seq<nat>, b: seq<nat>)
    ensures Sum(a + b) == Sum(a) + Sum(b)
    decreases |b|
  {
    if |b| > 0 {
      assert (a + b)[..|a + b| - 1] == a + b[..|b| - 1];
      SumAppend(a, b[..|b| - 1]);
    } else {
      assert a + b == a;
    }
  }

  /** Replacing entry i of a size list by some sizes changes the total by
    * their sum minus the old entry. */
  lemma SumReplace(z: seq<nat>, i: nat, r: seq<nat>)
    requires i < |z|
    ensures Sum(z[..i] + r + z[i + 1..]) == Sum(z) - z[i] + Sum(r)
  {
    assert z == z[..i] + [z[i]] + z[i + 1..];
    SumAppend(z[..i] + r, z[i + 1..]);
    SumAppend(z[..i], r);
    SumAppend(z[..i] + [z[i]], z[i + 1..]);
    SumAppend(z[..i], [z[i]]);
  }

  // ---------------------------------------------------------------------
  // First fit from the tail (find_free_block, mm.c:379-407)

  /** The index of the block find_free_block picks: the last one (nearest the
    * tail) whose size is at least asize, or -1 when there is none. */
  function TailFit(sizes: seq<nat>, asize: nat): (k: int)
    ensures -1 <= k < |sizes|
    ensures k >= 0 ==> sizes[k] >= asize
    ensures forall j :: k < j < |sizes| ==> sizes[j] < asize
  {
    if |sizes| == 0 then -1
    else if sizes[|sizes| - 1] >= asize then |sizes| - 1
    else TailFit(sizes[..|sizes| - 1], asize)
  }

  /** A freshly appended block that is large enough is found first. */
  lemma TailFitAppended(sizes: seq<nat>, c: nat, asize: nat)
    requires c >= asize
    ensures TailFit(sizes + [c], asize) == |sizes|
  {
  }

  /** A list whose sizes hold a large enough block at position |a| has its
    * fit there or nearer the tail. */
  lemma TailFitFindsRun(a: seq<nat>, b: seq<nat>, c: seq<nat>, asize: nat)
    requires |b| > 0 && b[0] >= asize
    ensures TailFit(a + b + c, asize) >= |a|
  {
    assert (a + b + c)[|a|] == b[0];
  }

  // ---------------------------------------------------------------------
  // Binary splitting (place, mm.c:332-335)

  /** The headers left free when a block at hp of size s is halved until it
    * has size lo: hp + lo, hp + 2 lo, ..., hp + s/2, in list order.  The
    * last halving of the loop inserts its buddy first, right after hp. */
  function Buddies(hp: nat, lo: nat, s: nat): seq<nat>
  {
    if lo >= s then [] else Buddies(hp, lo, s / 2) + [hp + s / 2]
  }

  /** One halving more: the buddy of the first halving comes last. */
  lemma BuddiesStep(hp: nat, lo: nat, s: nat)
    requires lo < s
    ensures Buddies(hp, lo, s) == Buddies(hp, lo, s / 2) + [hp + s / 2]
  {
  }

  /** Halving a block of lo * 2^k bytes down to lo bytes leaves k free
    * blocks, the j-th at hp + lo * 2^j: each upper half lies right above
    * all the smaller ones. */
  lemma {:induction false} BuddiesClosedForm(hp: nat, lo: nat, k: nat)
    requires lo > 0
    ensures |Buddies(hp, lo, lo * Pow2(k))| == k
    ensures forall j :: 0 <= j < k ==> Buddies(hp, lo, lo * Pow2(k))[j] == hp + lo * Pow2(j)
  {
    if k > 0 {
      var half := lo * Pow2(k - 1);
      assert lo * Pow2(k) == lo * (2 * Pow2(k - 1)) == 2 * half;
      assert lo <= half;
      BuddiesClosedForm(hp, lo, k - 1);
      BuddiesStep(hp, lo, lo * Pow2(k));
    }
  }

  /** Their sizes: lo, 2 lo, ..., s/2. */
  function BuddySizes(lo: nat, s: nat): seq<nat>
  {
    if lo >= s then [] else BuddySizes(lo, s / 2) + [s / 2]
  }

  /** The first block the split loop leaves free has the requested size. */
  lemma {:induction false} BuddySizesFirst(lo: nat, s: nat)
    requires lo in Classes && s in Classes && lo < s
    ensures |BuddySizes(lo, s)| > 0 && BuddySizes(lo, s)[0] == lo
  {
    HalfOfClass(s);
    ClassBelowHalf(lo, s);
    if lo < s / 2 {
      BuddySizesFirst(lo, s / 2);
    }
  }

  /** Halving from class s down to class lo leaves free blocks whose sizes
    * add up to s - lo: splitting loses no bytes. */
  lemma {:induction false} BuddySizesSum(lo: nat, s: nat)
    requires lo in Classes && s in Classes && lo <= s
    ensures Sum(BuddySizes(lo, s)) == s - lo
  {
    if lo < s {
      HalfOfClass(s);
      ClassBelowHalf(lo, s);
      BuddySizesSum(lo, s / 2);
      SumAppend(BuddySizes(lo, s / 2), [s / 2]);
      SumOne(s / 2);
    }
  }
}
