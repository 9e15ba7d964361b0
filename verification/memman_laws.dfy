/** What every call of virgoos/src/base/memman.c does to the blocks in use, told by where they lie and how large they
    are: a call leaves all of them alone but the one it is about, and that one has the room that was asked for. */
module HeapLaws {
  import opened HeapBlocks
  import opened HeapDiscipline

  /** Block i is in use, has its header at word `at` and a payload of `size` words. */
  ghost predicate IsLiveBlock(bs: seq<Block>, i: nat, at: nat, size: nat) {
    i < |bs| && bs[i].used && Pos(bs, i) == at && bs[i].size == size
  }

  ghost predicate LiveAt(bs: seq<Block>, at: nat, size: nat) {
    exists i: nat :: IsLiveBlock(bs, i, at, size)
  }

  /** The blocks in use are the same, but for one at word `at`. */
  ghost predicate SameLiveBut(bs: seq<Block>, cs: seq<Block>, at: nat) {
    forall a: nat, size: nat :: a != at ==> (LiveAt(bs, a, size) <==> LiveAt(cs, a, size))
  }

  /** Every block in use is still in use where it was. */
  ghost predicate LiveStays(bs: seq<Block>, cs: seq<Block>) {
    forall a: nat, size: nat :: LiveAt(bs, a, size) ==> LiveAt(cs, a, size)
  }

  lemma SetPrevLive(bs: seq<Block>, i: nat, v: nat, at: nat, size: nat)
    ensures LiveAt(SetPrev(bs, i, v), at, size) <==> LiveAt(bs, at, size)
  {
    var cs := SetPrev(bs, i, v);
    forall j: nat
      ensures IsLiveBlock(cs, j, at, size) <==> IsLiveBlock(bs, j, at, size)
    {
      if i < |bs| && j < |bs| {
        UpdatePosAt(bs, i, bs[i].(prev := v), j);
      }
    }
  }

  lemma UpdatePosAt(bs: seq<Block>, k: nat, b: Block, i: nat)
    requires k < |bs| && b.size == bs[k].size && i <= |bs|
    ensures Pos(bs[k := b], i) == Pos(bs, i)
  {
    UpdatePos(bs, k, b);
  }

  /** Replacing blocks k .. k+n by `mid` of the same extent: the other blocks in use stay, and no others come up. */
  lemma SpliceLive(bs: seq<Block>, k: nat, n: nat, mid: seq<Block>, at: nat, size: nat)
    requires k + n <= |bs| && Extent(mid) == Pos(bs, k + n) - Pos(bs, k)
    ensures (exists i: nat :: !(k <= i < k + n) && IsLiveBlock(bs, i, at, size))
            <==> exists i: nat :: !(k <= i < k + |mid|) && IsLiveBlock(Splice(bs, k, n, mid), i, at, size)
  {
    var cs := Splice(bs, k, n, mid);
    if i: nat :| !(k <= i < k + n) && IsLiveBlock(bs, i, at, size) {
      var j := if i < k then i else i - n + |mid|;
      SplicePos(bs, k, n, mid, j);
      assert !(k <= j < k + |mid|) && IsLiveBlock(cs, j, at, size);
    }
    if j: nat :| !(k <= j < k + |mid|) && IsLiveBlock(cs, j, at, size) {
      var i := if j < k then j else j - |mid| + n;
      SplicePos(bs, k, n, mid, j);
      assert !(k <= i < k + n) && IsLiveBlock(bs, i, at, size);
    }
  }

  /** Blocks at different words are different blocks. */
  lemma SamePosition(bs: seq<Block>, i: nat, j: nat)
    requires i < |bs| && j < |bs| && Pos(bs, i) == Pos(bs, j)
    ensures i == j
  {
    if i < j {
      PosGap(bs, i, j);
    } else if j < i {
      PosGap(bs, j, i);
    }
  }

  /** What is live at the place of block k. */
  lemma LiveIs(bs: seq<Block>, k: nat, size: nat)
    requires k < |bs|
    ensures LiveAt(bs, Pos(bs, k), size) <==> bs[k].used && size == bs[k].size
  {
    if i: nat :| IsLiveBlock(bs, i, Pos(bs, k), size) {
      SamePosition(bs, i, k);
    }
    if bs[k].used && size == bs[k].size {
      assert IsLiveBlock(bs, k, Pos(bs, k), size);
    }
  }

  lemma SpliceAt(bs: seq<Block>, k: nat, n: nat, mid: seq<Block>, j: nat)
    requires k + n <= |bs| && j < |Splice(bs, k, n, mid)|
    ensures k <= j < k + |mid| ==> Splice(bs, k, n, mid)[j] == mid[j - k]
  {
  }

  lemma SameLiveAsItself(bs: seq<Block>, at: nat)
    ensures SameLiveBut(bs, bs, at)
  {
  }

  /** Of the blocks replaced, and of those that replace them, only the first may be in use. */
  lemma SpliceSameLive(bs: seq<Block>, k: nat, n: nat, mid: seq<Block>)
    requires n > 0 && k + n <= |bs| && |mid| > 0 && Extent(mid) == Pos(bs, k + n) - Pos(bs, k)
    requires (forall i :: k < i < k + n ==> !bs[i].used) && forall j :: 0 < j < |mid| ==> !mid[j].used
    ensures Pos(Splice(bs, k, n, mid), k) == Pos(bs, k) && Splice(bs, k, n, mid)[k] == mid[0]
    ensures SameLiveBut(bs, Splice(bs, k, n, mid), Pos(bs, k))
  {
    var cs := Splice(bs, k, n, mid);
    SplicePos(bs, k, n, mid, k);
    forall a: nat, size: nat | a != Pos(bs, k)
      ensures LiveAt(bs, a, size) <==> LiveAt(cs, a, size)
    {
      SpliceLive(bs, k, n, mid, a, size);
      if i: nat :| IsLiveBlock(bs, i, a, size) {
        assert !(k <= i < k + n);
      }
      if j: nat :| IsLiveBlock(cs, j, a, size) {
        SpliceAt(bs, k, n, mid, j);
        assert !(k <= j < k + |mid|);
      }
    }
  }

  lemma SetPrevSameLive(bs: seq<Block>, cs: seq<Block>, i: nat, v: nat, at: nat)
    requires SameLiveBut(bs, cs, at)
    ensures SameLiveBut(bs, SetPrev(cs, i, v), at)
  {
    forall a: nat, size: nat | a != at
      ensures LiveAt(bs, a, size) <==> LiveAt(SetPrev(cs, i, v), a, size)
    {
      SetPrevLive(cs, i, v, a, size);
    }
  }

  // ---------------------------------------------------------------- malloc

  /** The block of malloc is in use with the room asked for, and every block that was in use still is. */
  lemma MallocLive(bs: seq<Block>, k: nat, want: nat, stale: Stale)
    requires k < |bs| && Fits(bs[k], want)
    ensures LiveStays(bs, MallocWritten(bs, k, want, stale))
    ensures var size := if bs[k].size >= want + HDR + ALIGN then want else bs[k].size;
      LiveAt(MallocWritten(bs, k, want, stale), Pos(bs, k), size)
  {
    var b := bs[k];
    var mid := if Crops(b, want) then [Block(want, b.prev, true, false), Remainder(b, want, stale)]
               else [b.(used := true)];
    MallocWrittenIs(bs, k, want, stale, mid);
    PosOfTwo(mid[0], mid[|mid| - 1]);
    assert mid == [mid[0], mid[|mid| - 1]] || mid == [mid[0]];
    assert mid[0].used && mid[0].size == if b.size >= want + HDR + ALIGN then want else b.size;
    assert Pos(bs, k + 1) == Pos(bs, k) + HDR + b.size;
    assert Extent(mid) == Pos(bs, k + 1) - Pos(bs, k);
    hide *;
    SpliceLiveStays(bs, k, mid);
    SplicePos(bs, k, 1, mid, k);
    SpliceAt(bs, k, 1, mid, k);
    LiveIs(Splice(bs, k, 1, mid), k, mid[0].size);
  }

  lemma MallocWrittenIs(bs: seq<Block>, k: nat, want: nat, stale: Stale, mid: seq<Block>)
    requires k < |bs| && Fits(bs[k], want)
    requires mid == if Crops(bs[k], want) then [Block(want, bs[k].prev, true, false), Remainder(bs[k], want, stale)]
                    else [bs[k].(used := true)]
    ensures MallocWritten(bs, k, want, stale) == Splice(bs, k, 1, mid)
  {
    hide Crops, Remainder;
  }

  /** A free block that is replaced takes no block out of use. */
  lemma SpliceLiveStays(bs: seq<Block>, k: nat, mid: seq<Block>)
    requires k < |bs| && !bs[k].used && Extent(mid) == Pos(bs, k + 1) - Pos(bs, k)
    ensures LiveStays(bs, Splice(bs, k, 1, mid))
  {
    hide Splice, Extent, Pos, LiveAt;
    forall a: nat, size: nat | LiveAt(bs, a, size)
      ensures LiveAt(Splice(bs, k, 1, mid), a, size)
    {
      OneStays(bs, k, mid, a, size);
    }
  }

  lemma OneStays(bs: seq<Block>, k: nat, mid: seq<Block>, a: nat, size: nat)
    requires k < |bs| && !bs[k].used && Extent(mid) == Pos(bs, k + 1) - Pos(bs, k) && LiveAt(bs, a, size)
    ensures LiveAt(Splice(bs, k, 1, mid), a, size)
  {
    hide Splice, Extent, Pos;
    var i: nat :| IsLiveBlock(bs, i, a, size);
    assert i != k;
    hide IsLiveBlock;
    SpliceLive(bs, k, 1, mid, a, size);
  }

  /** A block of this size is in use at word `at`; all others are as they were. */
  ghost predicate PlacedAt(bs: seq<Block>, cs: seq<Block>, at: nat, size: nat) {
    SameLiveBut(bs, cs, at) && LiveAt(cs, at, size)
  }

  lemma PlacedLive(bs: seq<Block>, k: nat, mid: seq<Block>, i: nat, v: nat)
    requires k < |bs| && |mid| > 0 && mid[0].used && Extent(mid) == Pos(bs, k + 1) - Pos(bs, k)
    requires forall j :: 0 < j < |mid| ==> !mid[j].used
    ensures PlacedAt(bs, SetPrev(Splice(bs, k, 1, mid), i, v), Pos(bs, k), mid[0].size)
  {
    var cs := Splice(bs, k, 1, mid);
    SpliceSameLive(bs, k, 1, mid);
    hide Splice, Extent, SetPrev;
    LiveIs(cs, k, mid[0].size);
    SetPrevSameLive(bs, cs, i, v, Pos(bs, k));
    SetPrevLive(cs, i, v, Pos(bs, k), mid[0].size);
  }

  lemma MallocDesignIs(bs: seq<Block>, k: nat, want: nat)
    requires k < |bs| && Fits(bs[k], want)
    ensures Pos(bs, k + 1) == Pos(bs, k) + HDR + bs[k].size
    ensures var b := bs[k];
      if Crops(b, want)
      then
        b.size >= want + HDR
        && var a, rest := Block(want, b.prev, true, false), Block(b.size - want - HDR, want, false, b.last);
        MallocDesign(bs, k, want) == SetPrev(Splice(bs, k, 1, [a, rest]), k + 2, rest.size)
      else MallocDesign(bs, k, want) == SetPrev(Splice(bs, k, 1, [b.(used := true)]), |bs|, 0)
  {
    assert bs[k := bs[k].(used := true)] == Splice(bs, k, 1, [bs[k].(used := true)]);
  }

  /** By design no other block comes into use. */
  lemma MallocDesignLive(bs: seq<Block>, k: nat, want: nat)
    requires k < |bs| && Fits(bs[k], want)
    ensures PlacedAt(bs, MallocDesign(bs, k, want), Pos(bs, k), if Crops(bs[k], want) then want else bs[k].size)
  {
    hide *;
    var b := bs[k];
    MallocDesignIs(bs, k, want);
    if Crops(b, want) {
      var a, rest := Block(want, b.prev, true, false), Block(b.size - want - HDR, want, false, b.last);
      PosOfTwo(a, rest);
      PlacedLive(bs, k, [a, rest], k + 2, rest.size);
    } else {
      var a := b.(used := true);
      PosOfTwo(a, a);
      PlacedLive(bs, k, [a], |bs|, 0);
    }
  }

  // ---------------------------------------------------------------- free

  lemma MergeForwardLive(bs: seq<Block>, k: nat)
    requires k < |bs|
    ensures var cs := MergeForward(bs, k);
      SameLiveBut(bs, cs, Pos(bs, k)) && k < |cs| && Pos(cs, k) == Pos(bs, k) && !cs[k].used
  {
    var b := bs[k].(used := false);
    assert Pos(bs, k + 1) == Pos(bs, k) + HDR + b.size;
    if !b.last && k + 1 < |bs| && !bs[k + 1].used {
      var m := b.(size := b.size + HDR + bs[k + 1].size, last := bs[k + 1].last);
      PosOfTwo(m, m);
      assert Pos(bs, k + 2) == Pos(bs, k + 1) + HDR + bs[k + 1].size;
      assert MergeForward(bs, k) == Splice(bs, k, 2, [m]) && k < |MergeForward(bs, k)|;
      hide *;
      SpliceSameLive(bs, k, 2, [m]);
    } else {
      PosOfTwo(b, b);
      assert MergeForward(bs, k) == bs[k := b] == Splice(bs, k, 1, [b]);
      hide *;
      SpliceSameLive(bs, k, 1, [b]);
    }
  }

  lemma MergeBackwardLive(bs: seq<Block>, k: nat)
    requires k < |bs| && !bs[k].used
    ensures forall a: nat, size: nat :: LiveAt(bs, a, size) <==> LiveAt(MergeBackward(bs, k), a, size)
  {
    if MergesBackward(bs, k) {
      var m, cs := Joined(bs, k), MergeBackward(bs, k);
      PosOfTwo(m, m);
      assert Pos(bs, k) == Pos(bs, k - 1) + HDR + bs[k - 1].size && Pos(bs, k + 1) == Pos(bs, k) + HDR + bs[k].size;
      SpliceSameLive(bs, k - 1, 2, [m]);
      forall a: nat, size: nat
        ensures LiveAt(bs, a, size) <==> LiveAt(cs, a, size)
      {
        LiveIs(bs, k - 1, size);
        LiveIs(cs, k - 1, size);
      }
    }
  }

  /** The freed block is in use no more, and all others are as they were; in the code as by design. */
  lemma FreeLive(bs: seq<Block>, k: nat, v: nat)
    requires k < |bs|
    ensures var cs := MergeForward(bs, k); var ds := SetPrev(MergeBackward(cs, k), After(cs, k), v);
      SameLiveBut(bs, ds, Pos(bs, k)) && forall size: nat :: !LiveAt(ds, Pos(bs, k), size)
  {
    var cs := MergeForward(bs, k);
    var ms, i := MergeBackward(cs, k), After(cs, k);
    MergeForwardLive(bs, k);
    hide MergeForward;
    MergeBackwardLive(cs, k);
    hide MergeBackward, After, SetPrev, LiveAt;
    assert SameLiveBut(bs, ms, Pos(bs, k));
    SetPrevSameLive(bs, ms, i, v, Pos(bs, k));
    forall size: nat
      ensures !LiveAt(SetPrev(ms, i, v), Pos(bs, k), size)
    {
      LiveIs(cs, k, size);
      SetPrevLive(ms, i, v, Pos(bs, k), size);
    }
  }

  lemma FreeWrittenLive(bs: seq<Block>, k: nat)
    requires k < |bs|
    ensures SameLiveBut(bs, FreeWritten(bs, k), Pos(bs, k))
    ensures forall size: nat :: !LiveAt(FreeWritten(bs, k), Pos(bs, k), size)
  {
    FreeLive(bs, k, MergeForward(bs, k)[k].size);
    hide *;
    FreeWrittenIs(bs, k);
  }

  lemma FreeWrittenIs(bs: seq<Block>, k: nat)
    requires k < |bs|
    ensures var cs := MergeForward(bs, k);
      k < |cs| && FreeWritten(bs, k) == SetPrev(MergeBackward(cs, k), After(cs, k), cs[k].size)
  {
  }

  lemma FreeDesignLive(bs: seq<Block>, k: nat)
    requires k < |bs|
    ensures SameLiveBut(bs, FreeDesign(bs, k), Pos(bs, k))
    ensures forall size: nat :: !LiveAt(FreeDesign(bs, k), Pos(bs, k), size)
  {
    var cs := MergeForward(bs, k);
    var v := if MergesBackward(cs, k) then Joined(cs, k).size else cs[k].size;
    FreeLive(bs, k, v);
    assert FreeDesign(bs, k) == SetPrev(MergeBackward(cs, k), After(cs, k), v);
    hide *;
  }

  // ---------------------------------------------------------------- realloc in place

  /** The block at the place of block k has this size now, and is in use if it was; all others are as they were. */
  ghost predicate ResizedTo(bs: seq<Block>, cs: seq<Block>, k: nat, size: nat)
    requires k < |bs|
  {
    SameLiveBut(bs, cs, Pos(bs, k)) && (bs[k].used ==> LiveAt(cs, Pos(bs, k), size))
  }

  lemma NotResized(bs: seq<Block>, k: nat)
    requires k < |bs|
    ensures ResizedTo(bs, bs, k, bs[k].size)
  {
    SameLiveAsItself(bs, Pos(bs, k));
    LiveIs(bs, k, bs[k].size);
  }

  /** Blocks k .. k+n become one or two, of which the first takes the place and the use of block k. */
  lemma ResizedLive(bs: seq<Block>, k: nat, n: nat, mid: seq<Block>, i: nat, v: nat)
    requires n > 0 && k + n <= |bs| && |mid| > 0 && Extent(mid) == Pos(bs, k + n) - Pos(bs, k)
    requires (forall i :: k < i < k + n ==> !bs[i].used) && (forall j :: 0 < j < |mid| ==> !mid[j].used)
    requires mid[0].used == bs[k].used
    ensures ResizedTo(bs, SetPrev(Splice(bs, k, n, mid), i, v), k, mid[0].size)
  {
    var cs := Splice(bs, k, n, mid);
    SpliceSameLive(bs, k, n, mid);
    hide Splice, Extent, SetPrev;
    LiveIs(cs, k, mid[0].size);
    SetPrevSameLive(bs, cs, i, v, Pos(bs, k));
    SetPrevLive(cs, i, v, Pos(bs, k), mid[0].size);
  }

  /** A block that shrinks stays where it is with what was asked for, or as it was if the surplus is no more than a
      header. */
  lemma ShrinkLive(bs: seq<Block>, k: nat, want: nat)
    requires k < |bs| && want < bs[k].size
    ensures ResizedTo(bs, Shrink(bs, k, want), k, if bs[k].size - want > HDR then want else bs[k].size)
  {
    var b := bs[k];
    if b.size - want > HDR {
      var a, rest := b.(size := want, last := false), Block(b.size - want - HDR, want, false, b.last);
      PosOfTwo(a, rest);
      assert Pos(bs, k + 1) == Pos(bs, k) + HDR + b.size;
      ShrinkSplits(bs, k, want);
      hide *;
      ResizedLive(bs, k, 1, [a, rest], k + 2, rest.size);
    } else {
      assert Shrink(bs, k, want) == bs;
      hide *;
      NotResized(bs, k);
    }
  }

  /** A block that grows in place stays where it is and has at least what was asked for: just that if more than a header
      is spare, and all that was gathered otherwise. */
  lemma GrowLive(bs: seq<Block>, k: nat, want: nat) returns (size: nat)
    requires k < |bs| && CanGrow(bs, k, want)
    ensures var n := Gathered(bs, k, Reach(bs, k, want, k + 1));
      want <= size <= want + HDR && size == if n - want > HDR then want else n
    ensures ResizedTo(bs, GrowDesign(bs, k, want), k, size)
  {
    hide *;
    GrowAbsorbsFree(bs, k, want);
    var j := Reach(bs, k, want, k + 1);
    var n := Gathered(bs, k, j);
    GatheredIs(bs, k, j);
    GrowDesignIs(bs, k, want);
    if n - want > HDR {
      var a, rest := bs[k].(size := want, last := false), Block(n - want - HDR, want, false, j == |bs|);
      PosOfTwo(a, rest);
      size := want;
      ResizedLive(bs, k, j - k, [a, rest], k + 2, rest.size);
    } else {
      var a := bs[k].(size := n, last := j == |bs|);
      PosOfTwo(a, a);
      size := n;
      ResizedLive(bs, k, j - k, [a], k + 1, n);
    }
  }

  lemma GrowDesignIs(bs: seq<Block>, k: nat, want: nat)
    requires k < |bs| && CanGrow(bs, k, want)
    ensures var j := Reach(bs, k, want, k + 1); var n := Gathered(bs, k, j);
      && n >= want
      && (n - want > HDR ==>
            var a, rest := bs[k].(size := want, last := false), Block(n - want - HDR, want, false, j == |bs|);
            GrowDesign(bs, k, want) == SetPrev(Splice(bs, k, j - k, [a, rest]), k + 2, rest.size))
      && (n - want <= HDR ==>
            GrowDesign(bs, k, want)
            == SetPrev(Splice(bs, k, j - k, [bs[k].(size := n, last := j == |bs|)]), k + 1, n))
  {
    hide Splice, SetPrev, Reach, Gathered;
  }

  lemma GatheredIs(bs: seq<Block>, k: nat, j: nat)
    requires k < j <= |bs|
    ensures Pos(bs, k) + HDR + Gathered(bs, k, j) == Pos(bs, j)
  {
  }

  // ---------------------------------------------------------------- when a block can grow

  /** The blocks after block k, up to block j, are free and hold, with their headers, enough for `want` words. */
  ghost predicate RunGives(bs: seq<Block>, k: nat, want: nat, j: nat) {
    k < j <= |bs| && (forall i :: k < i < j ==> !bs[i].used) && Pos(bs, j) - Pos(bs, k) - HDR >= want
  }

  lemma {:induction false} ReachFinds(bs: seq<Block>, k: nat, want: nat, j: nat)
    requires k < j <= |bs| && (forall i :: k < i < j ==> !bs[i].used)
    requires forall i :: k < i < j ==> !RunGives(bs, k, want, i)
    ensures var r := Reach(bs, k, want, j);
      (forall i :: k < i < r ==> !RunGives(bs, k, want, i))
      && (RunGives(bs, k, want, r) || forall i :: k < i <= |bs| ==> !RunGives(bs, k, want, i))
    decreases |bs| - j
  {
    GatheredIs(bs, k, j);
    hide Pos, Gathered;
    if j < |bs| && Gathered(bs, k, j) < want && !bs[j].used {
      ReachFinds(bs, k, want, j + 1);
    }
  }

  /** realloc grows a block in place exactly if some run of free blocks behind it gives enough, and it takes the
      shortest such run. */
  lemma CanGrowExactly(bs: seq<Block>, k: nat, want: nat)
    requires k < |bs|
    ensures CanGrow(bs, k, want) <==> exists j :: RunGives(bs, k, want, j)
    ensures CanGrow(bs, k, want) ==>
      var r := Reach(bs, k, want, k + 1);
      RunGives(bs, k, want, r) && forall i :: k < i < r ==> !RunGives(bs, k, want, i)
  {
    ReachFinds(bs, k, want, k + 1);
    GrowAbsorbsFree(bs, k, want);
    GatheredIs(bs, k, Reach(bs, k, want, k + 1));
    hide Pos, Gathered, Reach;
  }
}
