/** The discipline that the header comment of virgoos/src/base/memman.c (lines 36-43) asks for: which operations of
    HeapBlocks keep it, and exactly when the code does. */
module HeapDiscipline {
  import opened HeapBlocks

  // ---------------------------------------------------------------- what each operation keeps

  /** Replacing blocks k .. k+n by one block and telling its successor keeps the discipline. */
  lemma Relink(cs: seq<Block>, k: nat, n: nat, m: Block)
    requires n > 0 && k + n <= |cs| && LastsMarked(cs)
    requires forall i :: 0 <= i < |cs| && !(k < i <= k + n) ==> Linked(cs, i)
    requires m.prev == cs[k].prev && (m.last <==> k + n == |cs|)
    ensures WellFormed(SetPrev(Splice(cs, k, n, [m]), k + 1, m.size))
  {
    var ds := SetPrev(Splice(cs, k, n, [m]), k + 1, m.size);
    assert ds[..k] == cs[..k] && ds[k] == m && |ds| == |cs| - n + 1;
    forall i | 0 <= i < |ds|
      ensures Linked(ds, i) && LastMarked(ds, i)
    {
      if i <= k {
        assert Linked(cs, i) && LastMarked(cs, i);
      } else {
        assert LastMarked(cs, i + n - 1);
        if i > k + 1 {
          assert Linked(cs, i + n - 1);
        }
      }
    }
  }

  /** The same with two new blocks. */
  lemma RelinkTwo(cs: seq<Block>, k: nat, n: nat, m: Block, r: Block)
    requires n > 0 && k + n <= |cs| && WellFormed(cs)
    requires m.prev == cs[k].prev && !m.last && r.prev == m.size && (r.last <==> k + n == |cs|)
    ensures WellFormed(SetPrev(Splice(cs, k, n, [m, r]), k + 2, r.size))
  {
    var ds := SetPrev(Splice(cs, k, n, [m, r]), k + 2, r.size);
    assert ds[..k] == cs[..k] && ds[k] == m && ds[k + 1] == r && |ds| == |cs| - n + 2;
    forall i | 0 <= i < |ds|
      ensures Linked(ds, i) && LastMarked(ds, i)
    {
      if i <= k {
        assert Linked(cs, i) && LastMarked(cs, i);
      } else if i > k + 1 {
        assert LastMarked(cs, i + n - 2);
        if i > k + 2 {
          assert Linked(cs, i + n - 2);
        }
      }
    }
  }

  lemma UpdateKeeps(bs: seq<Block>, k: nat, b: Block)
    requires WellFormed(bs) && k < |bs| && b.size == bs[k].size && b.prev == bs[k].prev && b.last == bs[k].last
    ensures WellFormed(bs[k := b])
  {
    var cs := bs[k := b];
    forall i | 0 <= i < |cs|
      ensures Linked(cs, i) && LastMarked(cs, i)
    {
      assert Linked(bs, i) && LastMarked(bs, i);
    }
  }

  /** malloc as designed keeps the discipline, whatever block it picks. */
  lemma MallocDesignKeeps(bs: seq<Block>, k: nat, want: nat)
    requires WellFormed(bs) && k < |bs| && Fits(bs[k], want)
    ensures WellFormed(MallocDesign(bs, k, want))
  {
    var b := bs[k];
    assert LastMarked(bs, k);
    if !Crops(b, want) {
      UpdateKeeps(bs, k, b.(used := true));
    } else {
      var left := b.size - want - HDR;
      RelinkTwo(bs, k, 1, Block(want, b.prev, true, false), Block(left, want, false, b.last));
    }
  }

  lemma MallocDesignNoEmptyBlock(bs: seq<Block>, k: nat, want: nat)
    requires k < |bs| && Fits(bs[k], want) && NoEmptyBlock(bs) && want > 0
    ensures NoEmptyBlock(MallocDesign(bs, k, want))
  {
    if Crops(bs[k], want) {
      var ds := MallocDesign(bs, k, want);
      forall i | 0 <= i < |ds|
        ensures ds[i].size > 0
      {
        assert i < k ==> ds[i] == bs[i];
        assert k + 1 < i ==> ds[i].size == bs[i - 1].size;
      }
    }
  }

  lemma MallocDesignCoalesced(bs: seq<Block>, k: nat, want: nat)
    requires k < |bs| && Fits(bs[k], want) && Coalesced(bs)
    ensures Coalesced(MallocDesign(bs, k, want))
  {
    if Crops(bs[k], want) {
      var ds := MallocDesign(bs, k, want);
      assert k + 1 < |bs| ==> bs[k + 1].used;
      forall i | 0 < i < |ds|
        ensures ds[i - 1].used || ds[i].used
      {
        assert i < k ==> ds[i - 1] == bs[i - 1] && ds[i] == bs[i];
        assert k + 1 < i ==> ds[i].used == bs[i - 1].used;
        assert k + 2 < i ==> ds[i - 1].used == bs[i - 2].used;
      }
    }
  }

  /** The written malloc keeps the discipline exactly when it does not split a block that has a successor;
      then it is the designed one.  The stale flag bits cannot rescue it: the successor's `prev_size` is wrong. */
  lemma MallocWrittenExact(bs: seq<Block>, k: nat, want: nat, stale: Stale)
    requires WellFormed(bs) && k < |bs| && Fits(bs[k], want)
    ensures WellFormed(MallocWritten(bs, k, want, stale)) <==> MallocKeeps(bs[k], want)
    ensures MallocKeeps(bs[k], want) ==> MallocWritten(bs, k, want, stale) == MallocDesign(bs, k, want)
  {
    assert LastMarked(bs, k);
    if !bs[k].last && Crops(bs[k], want) {
      var cs := MallocWritten(bs, k, want, stale);
      assert Linked(bs, k + 1);
      assert cs[k + 2] == bs[k + 1] && cs[k + 1].size == bs[k].size - want - HDR;
      assert !Linked(cs, k + 2);
    } else {
      MallocDesignKeeps(bs, k, want);
    }
  }

  lemma MergeForwardShape(bs: seq<Block>, k: nat)
    requires WellFormed(bs) && k < |bs|
    ensures var cs := MergeForward(bs, k);
      && k < |cs| && !cs[k].used && cs[k].prev == bs[k].prev && cs[..k] == bs[..k]
      && LastsMarked(cs)
      && (forall i :: 0 <= i < |cs| && i != k + 1 ==> Linked(cs, i))
  {
    var cs := MergeForward(bs, k);
    assert LastMarked(bs, k) && |cs| >= k + 1;
    forall i | 0 <= i < |cs|
      ensures LastMarked(cs, i) && (i != k + 1 ==> Linked(cs, i))
    {
      var i' := i + |bs| - |cs|;
      assert LastMarked(bs, i) && Linked(bs, i) && LastMarked(bs, i') && Linked(bs, i');
    }
  }

  /** free as designed keeps the discipline. */
  lemma FreeDesignKeeps(bs: seq<Block>, k: nat)
    requires WellFormed(bs) && k < |bs|
    ensures WellFormed(FreeDesign(bs, k))
  {
    MergeForwardShape(bs, k);
    var cs := MergeForward(bs, k);
    assert LastMarked(cs, k);
    if MergesBackward(cs, k) {
      assert LastMarked(cs, k - 1);
      Relink(cs, k - 1, 2, Joined(cs, k));
    } else {
      assert cs == Splice(cs, k, 1, [cs[k]]);
      Relink(cs, k, 1, cs[k]);
    }
  }

  lemma MergeForwardNoEmptyBlock(bs: seq<Block>, k: nat)
    requires k < |bs| && NoEmptyBlock(bs)
    ensures NoEmptyBlock(MergeForward(bs, k))
  {
  }

  lemma MergeBackwardNoEmptyBlock(bs: seq<Block>, k: nat)
    requires k < |bs| && NoEmptyBlock(bs)
    ensures NoEmptyBlock(MergeBackward(bs, k))
  {
  }

  lemma FreeDesignNoEmptyBlock(bs: seq<Block>, k: nat)
    requires k < |bs| && NoEmptyBlock(bs)
    ensures NoEmptyBlock(FreeDesign(bs, k))
  {
    MergeForwardNoEmptyBlock(bs, k);
    MergeBackwardNoEmptyBlock(MergeForward(bs, k), k);
  }

  lemma MergeForwardCoalesces(bs: seq<Block>, k: nat, i: nat)
    requires WellFormed(bs) && Coalesced(bs) && k < |bs| && bs[k].used && k < i < |MergeForward(bs, k)|
    ensures MergeForward(bs, k)[i - 1].used || MergeForward(bs, k)[i].used
  {
    var cs := MergeForward(bs, k);
    assert LastMarked(bs, k);
    var j := i + |bs| - |cs|;
    assert cs[i] == bs[j];
    assert bs[j - 1].used || bs[j].used;
  }

  /** Which blocks are used once block k is freed, in terms of the list after the forward merge. */
  lemma FreeDesignUsed(bs: seq<Block>, k: nat, i: nat)
    requires k < |bs| && i < |FreeDesign(bs, k)|
    ensures var cs := MergeForward(bs, k);
      if MergesBackward(cs, k)
      then |FreeDesign(bs, k)| == |cs| - 1
           && FreeDesign(bs, k)[i].used == (if i < k then cs[i].used else cs[i + 1].used)
      else |FreeDesign(bs, k)| == |cs| && FreeDesign(bs, k)[i].used == cs[i].used
  {
  }

  lemma ApartAfterFree(bs: seq<Block>, k: nat, i: nat)
    requires WellFormed(bs) && Coalesced(bs) && k < |bs| && bs[k].used && 0 < i < |FreeDesign(bs, k)|
    requires !(k > 0 && bs[k - 1].size == 0 && !bs[k - 1].used)
    ensures FreeDesign(bs, k)[i - 1].used || FreeDesign(bs, k)[i].used
  {
    MergeForwardShape(bs, k);
    assert Linked(bs, k);
    FreeDesignUsed(bs, k, i - 1);
    FreeDesignUsed(bs, k, i);
    var cs := MergeForward(bs, k);
    var j := if MergesBackward(cs, k) && i >= k then i + 1 else i;
    if j > k {
      MergeForwardCoalesces(bs, k, j);
    } else {
      assert bs[i - 1].used || bs[i].used;
      assert cs[i - 1] == bs[..k][i - 1];
      assert i < k ==> cs[i] == bs[..k][i];
    }
    hide FreeDesign, MergeForward, WellFormed, Coalesced, LastsMarked;
  }

  /** The freed block ends up next to a free one exactly when its predecessor is a free block without payload:
      such a predecessor makes `prev_size` 0, which free takes for "first block". */
  lemma FreeDesignCoalesces(bs: seq<Block>, k: nat)
    requires WellFormed(bs) && Coalesced(bs) && k < |bs| && bs[k].used
    ensures Coalesced(FreeDesign(bs, k)) <==> !(k > 0 && bs[k - 1].size == 0 && !bs[k - 1].used)
  {
    var ds := FreeDesign(bs, k);
    if k > 0 && bs[k - 1].size == 0 && !bs[k - 1].used {
      NextToEmpty(bs, k);
    } else {
      hide FreeDesign, MergeForward, WellFormed;
      forall i | 0 < i < |ds|
        ensures ds[i - 1].used || ds[i].used
      {
        ApartAfterFree(bs, k, i);
      }
    }
  }

  lemma NextToEmpty(bs: seq<Block>, k: nat)
    requires WellFormed(bs) && 0 < k < |bs| && bs[k - 1].size == 0 && !bs[k - 1].used
    ensures !Coalesced(FreeDesign(bs, k))
  {
    MergeForwardShape(bs, k);
    assert Linked(bs, k);
    var cs, ds := MergeForward(bs, k), FreeDesign(bs, k);
    assert |cs| <= |ds| + 1 && !MergesBackward(cs, k);
    FreeDesignUsed(bs, k, k - 1);
    FreeDesignUsed(bs, k, k);
    assert cs[k - 1] == bs[..k][k - 1];
    assert !ds[k - 1].used && !ds[k].used;
  }

  /** The written free keeps the discipline exactly when it does not both merge backward and leave a successor;
      then it is the designed one. */
  lemma FreeWrittenExact(bs: seq<Block>, k: nat)
    requires WellFormed(bs) && k < |bs|
    ensures WellFormed(FreeWritten(bs, k)) <==> FreeKeeps(bs, k)
    ensures FreeKeeps(bs, k) ==> FreeWritten(bs, k) == FreeDesign(bs, k)
  {
    MergeForwardShape(bs, k);
    FreeDesignKeeps(bs, k);
    var cs := MergeForward(bs, k);
    assert LastMarked(cs, k);
    if MergesBackward(cs, k) && !cs[k].last {
      var ds := FreeWritten(bs, k);
      assert ds[k].prev == cs[k].size && ds[k - 1] == Joined(cs, k);
      assert !Linked(ds, k);
    }
  }

  /** Shrinking in place keeps the discipline. */
  lemma ShrinkKeeps(bs: seq<Block>, k: nat, want: nat)
    requires WellFormed(bs) && k < |bs| && bs[k].used && want < bs[k].size
    ensures WellFormed(Shrink(bs, k, want))
    ensures Shrink(bs, k, want)[k].used && want <= Shrink(bs, k, want)[k].size
  {
    var b := bs[k];
    assert LastMarked(bs, k);
    hide WellFormed;
    if b.size - want > HDR {
      var a, rest := b.(size := want, last := false), Block(b.size - want - HDR, want, false, b.last);
      ShrinkSplits(bs, k, want);
      hide Shrink, Splice, SetPrev;
      RelinkTwo(bs, k, 1, a, rest);
    }
  }

  lemma ShrinkSplits(bs: seq<Block>, k: nat, want: nat)
    requires k < |bs| && want + HDR < bs[k].size
    ensures var b := bs[k];
      var a, rest := b.(size := want, last := false), Block(b.size - want - HDR, want, false, b.last);
      Shrink(bs, k, want) == SetPrev(Splice(bs, k, 1, [a, rest]), k + 2, rest.size) && Shrink(bs, k, want)[k] == a
  {
  }

  lemma ReachIsFree(bs: seq<Block>, k: nat, want: nat, j: nat)
    requires k < j <= |bs|
    requires forall i :: k < i < j ==> !bs[i].used
    ensures forall i :: k < i < Reach(bs, k, want, j) ==> !bs[i].used
    decreases |bs| - j
  {
    if !(j == |bs| || Gathered(bs, k, j) >= want || bs[j].used) {
      ReachIsFree(bs, k, want, j + 1);
    }
  }

  /** The blocks that growth in place absorbs are all free. */
  lemma GrowAbsorbsFree(bs: seq<Block>, k: nat, want: nat)
    requires k < |bs|
    ensures forall i :: k < i < Reach(bs, k, want, k + 1) ==> !bs[i].used
  {
    ReachIsFree(bs, k, want, k + 1);
  }

  lemma NotLastIfItGrows(bs: seq<Block>, k: nat, want: nat)
    requires k < |bs| && LastMarked(bs, k) && CanGrow(bs, k, want) && want > bs[k].size
    ensures !bs[k].last
  {
    assert LastMarked(bs, k);
  }

  lemma WellFormedLasts(bs: seq<Block>)
    requires WellFormed(bs)
    ensures LastsMarked(bs) && forall i :: 0 <= i < |bs| ==> Linked(bs, i)
  {
  }

  /** Growing in place by design keeps the discipline. */
  lemma GrowDesignKeeps(bs: seq<Block>, k: nat, want: nat)
    requires WellFormed(bs) && k < |bs| && CanGrow(bs, k, want)
    ensures WellFormed(GrowDesign(bs, k, want))
  {
    hide Reach, Gathered, Splice, SetPrev, WellFormed;
    var j := Reach(bs, k, want, k + 1);
    var n := Gathered(bs, k, j);
    WellFormedLasts(bs);
    if n - want > HDR {
      RelinkTwo(bs, k, j - k, bs[k].(size := want, last := false), Block(n - want - HDR, want, false, j == |bs|));
    } else {
      Relink(bs, k, j - k, bs[k].(size := n, last := j == |bs|));
    }
  }

  // ---------------------------------------------------------------- the arena is conserved

  lemma SetPrevPos(bs: seq<Block>, i: nat, v: nat)
    ensures Extent(SetPrev(bs, i, v)) == Extent(bs)
  {
    if i < |bs| {
      UpdatePos(bs, i, bs[i].(prev := v));
    }
  }

  lemma SpliceExtent(bs: seq<Block>, k: nat, n: nat, mid: seq<Block>)
    requires k + n <= |bs| && Extent(mid) == Pos(bs, k + n) - Pos(bs, k)
    ensures Extent(Splice(bs, k, n, mid)) == Extent(bs)
  {
    SplicePos(bs, k, n, mid, |Splice(bs, k, n, mid)|);
  }

  lemma PosOfTwo(a: Block, b: Block)
    ensures Pos([a], 0) == Pos([a, b], 0) == 0
    ensures Extent([a]) == Pos([a, b], 1) == HDR + a.size
    ensures Extent([a, b]) == 2 * HDR + a.size + b.size
  {
    assert Pos([a, b], 1) == Pos([a, b], 0) + HDR + a.size;
    assert Pos([a], 1) == Pos([a], 0) + HDR + a.size;
  }

  lemma MergeForwardExtent(bs: seq<Block>, k: nat)
    requires k < |bs|
    ensures Extent(MergeForward(bs, k)) == Extent(bs)
  {
    var b := bs[k].(used := false);
    if !b.last && k + 1 < |bs| && !bs[k + 1].used {
      var m := b.(size := b.size + HDR + bs[k + 1].size, last := bs[k + 1].last);
      PosOfTwo(m, m);
      assert Pos(bs, k + 2) == Pos(bs, k + 1) + HDR + bs[k + 1].size;
      SpliceExtent(bs, k, 2, [m]);
    } else {
      UpdatePos(bs, k, b);
    }
  }

  lemma FreeDesignExtent(bs: seq<Block>, k: nat)
    requires WellFormed(bs) && k < |bs|
    ensures Extent(FreeDesign(bs, k)) == Extent(bs)
  {
    MergeForwardShape(bs, k);
    MergeForwardExtent(bs, k);
    var cs := MergeForward(bs, k);
    if MergesBackward(cs, k) {
      var m := Joined(cs, k);
      PosOfTwo(m, m);
      assert Pos(cs, k + 1) == Pos(cs, k) + HDR + cs[k].size;
      SpliceExtent(cs, k - 1, 2, [m]);
      SetPrevPos(Splice(cs, k - 1, 2, [m]), k, m.size);
    } else {
      SetPrevPos(cs, k + 1, cs[k].size);
    }
  }

  lemma MallocDesignExtent(bs: seq<Block>, k: nat, want: nat)
    requires k < |bs| && Fits(bs[k], want)
    ensures Extent(MallocDesign(bs, k, want)) == Extent(bs)
  {
    var b := bs[k];
    if !Crops(b, want) {
      UpdatePos(bs, k, b.(used := true));
    } else {
      var left := b.size - want - HDR;
      var mid := [Block(want, b.prev, true, false), Block(left, want, false, b.last)];
      PosOfTwo(mid[0], mid[1]);
      SpliceExtent(bs, k, 1, mid);
      SetPrevPos(Splice(bs, k, 1, mid), k + 2, left);
    }
  }

  lemma SplitExtent(bs: seq<Block>, k: nat, n: nat, a: Block, r: Block)
    requires k + n <= |bs| && Pos(bs, k) + 2 * HDR + a.size + r.size == Pos(bs, k + n)
    ensures Extent(SetPrev(Splice(bs, k, n, [a, r]), k + 2, r.size)) == Extent(bs)
  {
    PosOfTwo(a, r);
    SpliceExtent(bs, k, n, [a, r]);
    SetPrevPos(Splice(bs, k, n, [a, r]), k + 2, r.size);
  }

  lemma ShrinkExtent(bs: seq<Block>, k: nat, want: nat)
    requires k < |bs| && want < bs[k].size
    ensures Extent(Shrink(bs, k, want)) == Extent(bs)
  {
    var b := bs[k];
    if b.size - want > HDR {
      SplitExtent(bs, k, 1, b.(size := want, last := false), Block(b.size - want - HDR, want, false, b.last));
    }
  }

  lemma GrowDesignExtent(bs: seq<Block>, k: nat, want: nat)
    requires k < |bs| && CanGrow(bs, k, want)
    ensures Extent(GrowDesign(bs, k, want)) == Extent(bs)
  {
    hide Reach, Splice, SetPrev;
    var j := Reach(bs, k, want, k + 1);
    var n := Gathered(bs, k, j);
    if n - want > HDR {
      SplitExtent(bs, k, j - k, bs[k].(size := want, last := false), Block(n - want - HDR, want, false, j == |bs|));
    } else {
      var a := bs[k].(size := n, last := j == |bs|);
      PosOfTwo(a, a);
      SpliceExtent(bs, k, j - k, [a]);
      SetPrevPos(Splice(bs, k, j - k, [a]), k + 1, n);
    }
  }

  // ---------------------------------------------------------------- realloc by moving: malloc, copy, free

  /** Index of block k after malloc has carved block k2. */
  function Shifted(bs: seq<Block>, k: nat, k2: nat, want: nat): nat
    requires k2 < |bs|
  {
    if k2 < k && Crops(bs[k2], want) then k + 1 else k
  }

  /** Malloc marks its block used and leaves the others as they are, but for the place. */
  lemma MallocWrittenKeeps(bs: seq<Block>, k: nat, k2: nat, want: nat, stale: Stale)
    requires k < |bs| && k2 < |bs| && k != k2 && Fits(bs[k2], want)
    ensures var cs, k' := MallocWritten(bs, k2, want, stale), Shifted(bs, k, k2, want);
      && |cs| == |bs| + (if Crops(bs[k2], want) then 1 else 0)
      && cs[k'] == bs[k] && cs[k2].used
      && (k + 1 < |bs| && k + 1 != k2 ==> cs[k' + 1] == bs[k + 1])
  {
  }

  /** After the written malloc another used block can still be freed, even if its `prev_size` is the one left stale. */
  lemma MallocLeavesFreeable(bs: seq<Block>, k: nat, k2: nat, want: nat, stale: Stale)
    requires WellFormed(bs) && k < |bs| && bs[k].used && k2 < |bs| && Fits(bs[k2], want)
    ensures var cs := MallocWritten(bs, k2, want, stale);
      && Freeable(cs, Shifted(bs, k, k2, want))
      && cs[Shifted(bs, k, k2, want)] == bs[k]
      && Pos(cs, Shifted(bs, k, k2, want)) == Pos(bs, k)
  {
    var cs, k' := MallocWritten(bs, k2, want, stale), Shifted(bs, k, k2, want);
    MallocWrittenExact(bs, k2, want, stale);
    MallocWrittenPos(bs, k2, want, stale, k);
    MallocWrittenPos(bs, k2, want, stale, k2);
    MallocWrittenKeeps(bs, k, k2, want, stale);
    assert LastMarked(bs, k) && Linked(bs, k) && (k + 1 < |bs| ==> LastMarked(bs, k + 1));
    hide MallocWritten, WellFormed;
    if WellFormed(cs) {
      WellFormedFreeable(cs, k');
    } else if k == k2 + 1 {
      assert Pos(bs, k2 + 1) == Pos(bs, k2) + HDR + bs[k2].size;
      hide Pos;
      assert LeadsTo(cs, k', k2) && cs[k2].used;
    } else {
      hide Pos;
      UntouchedByMalloc(bs, k, k2, want, stale);
    }
  }

  lemma MovedIndices(bs: seq<Block>, k: nat, k2: nat, want: nat, firstFit: bool, stale: Stale)
    requires k < |bs| && bs[k].used && IsChoice(bs, want, firstFit, k2)
    ensures k2 < |bs| && Fits(bs[k2], want) && Shifted(bs, k, k2, want) < |MallocWritten(bs, k2, want, stale)|
  {
  }

  lemma UntouchedByMalloc(bs: seq<Block>, k: nat, k2: nat, want: nat, stale: Stale)
    requires WellFormed(bs) && k < |bs| && k2 < |bs| && Fits(bs[k2], want) && Crops(bs[k2], want)
    requires k != k2 && k != k2 + 1
    ensures var cs, k' := MallocWritten(bs, k2, want, stale), Shifted(bs, k, k2, want);
      && Linked(cs, k') && LastMarked(cs, k')
      && (k + 1 < |bs| && k + 1 != k2 ==> LastMarked(cs, k' + 1))
      && (k + 1 == k2 ==> cs[k' + 1].used)
  {
    var cs, k' := MallocWritten(bs, k2, want, stale), Shifted(bs, k, k2, want);
    assert LastMarked(bs, k) && Linked(bs, k) && (k + 1 < |bs| ==> LastMarked(bs, k + 1));
    assert cs[k'] == bs[k];
    assert k > 0 ==> cs[k' - 1].size == bs[k - 1].size;
    assert k + 1 < |bs| && k + 1 != k2 ==> cs[k' + 1] == bs[k + 1];
  }

  lemma MallocWrittenPos(bs: seq<Block>, k2: nat, want: nat, stale: Stale, k: nat)
    requires k2 < |bs| && Fits(bs[k2], want) && k < |bs|
    ensures Pos(MallocWritten(bs, k2, want, stale), Shifted(bs, k, k2, want)) == Pos(bs, k)
  {
    var b := bs[k2];
    if Crops(b, want) {
      var mid := [Block(want, b.prev, true, false), Remainder(b, want, stale)];
      PosOfTwo(mid[0], mid[1]);
      assert Pos(bs, k2 + 1) == Pos(bs, k2) + HDR + b.size;
      SplicePos(bs, k2, 1, mid, Shifted(bs, k, k2, want));
    } else {
      UpdatePos(bs, k2, b.(used := true));
    }
  }

  /** A wrong `prev_size` up to block k survives free of block k. */
  lemma MismatchBefore(cs: seq<Block>, k: nat, x: nat)
    requires 0 < x <= k < |cs| && !Linked(cs, x)
    ensures !WellFormed(FreeWritten(cs, k))
  {
    var ds := MergeForward(cs, k);
    assert ds[x - 1].size == cs[x - 1].size && ds[x].prev == cs[x].prev;
    var es := MergeBackward(ds, k);
    assert es[x - 1].size == ds[x - 1].size && es[x].prev == ds[x].prev;
    var fs := FreeWritten(cs, k);
    assert fs[x - 1].size == es[x - 1].size && fs[x].prev == es[x].prev;
    assert !Linked(fs, x);
  }

  /** A wrong `prev_size` further on survives too, if a used block lies in between. */
  lemma MismatchAfter(cs: seq<Block>, k: nat, x: nat)
    requires k + 2 < x < |cs| && !Linked(cs, x) && cs[x - 2].used
    ensures !WellFormed(FreeWritten(cs, k))
  {
    var ds := MergeForward(cs, k);
    var es := MergeBackward(ds, k);
    var fs := FreeWritten(cs, k);
    var y := x + |ds| - |cs|;
    var z := y + |es| - |ds|;
    ForwardKeepsTail(cs, k, x - 1);
    ForwardKeepsTail(cs, k, x);
    BackwardKeepsTail(ds, k, y - 1);
    BackwardKeepsTail(ds, k, y);
    hide MergeForward, MergeBackward;
    assert fs[z] == es[z] && fs[z - 1].size == es[z - 1].size;
    hide FreeWritten;
    assert !Linked(fs, z);
  }

  /** Blocks after the successor of block k only change their place when block k is freed. */
  lemma ForwardKeepsTail(cs: seq<Block>, k: nat, x: nat)
    requires k + 1 < x < |cs|
    ensures var ds := MergeForward(cs, k); var y := x + |ds| - |cs|; k < y && ds[y] == cs[x]
  {
  }

  lemma BackwardKeepsTail(ds: seq<Block>, k: nat, y: nat)
    requires k < y < |ds|
    ensures var es := MergeBackward(ds, k); var z := y + |es| - |ds|; 0 <= z && k <= z < |es| && es[z] == ds[y]
  {
  }

  /** What a malloc that split an inner block broke, freeing another block does not repair. */
  lemma FreeDoesNotRepair(bs: seq<Block>, k: nat, k2: nat, want: nat, stale: Stale)
    requires WellFormed(bs) && k < |bs| && bs[k].used && k2 < |bs| && Fits(bs[k2], want)
    requires !bs[k2].last && Crops(bs[k2], want)
    ensures !WellFormed(FreeWritten(MallocWritten(bs, k2, want, stale), Shifted(bs, k, k2, want)))
  {
    var cs, k', x := MallocWritten(bs, k2, want, stale), Shifted(bs, k, k2, want), k2 + 2;
    assert LastMarked(bs, k2) && Linked(bs, k2 + 1);
    assert cs[x] == bs[k2 + 1] && cs[x - 1].size < cs[x].prev && cs[k2].used;
    if k' >= x {
      MismatchBefore(cs, k', x);
    } else {
      MismatchAfter(cs, k', x);
    }
  }

  /** realloc by moving keeps the discipline exactly when both its malloc and its free do. */
  lemma MoveExact(bs: seq<Block>, k: nat, k2: nat, want: nat, stale: Stale)
    requires WellFormed(bs) && k < |bs| && bs[k].used && k2 < |bs| && Fits(bs[k2], want)
    ensures var cs, k' := MallocWritten(bs, k2, want, stale), Shifted(bs, k, k2, want);
      WellFormed(FreeWritten(cs, k')) <==> MallocKeeps(bs[k2], want) && FreeKeeps(cs, k')
  {
    MallocWrittenExact(bs, k2, want, stale);
    if MallocKeeps(bs[k2], want) {
      FreeWrittenExact(MallocWritten(bs, k2, want, stale), Shifted(bs, k, k2, want));
    } else {
      FreeDoesNotRepair(bs, k, k2, want, stale);
    }
  }
}
