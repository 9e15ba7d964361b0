/** What the memory of a heap of virgoos/src/base/memman.c shows of a block after a call: that it is in use with the
    room asked for, and that the call left it alone. */
module HeapKept {
  import opened HeapBlocks
  import opened HeapDiscipline
  import opened HeapLaws
  import opened HeapMemory

  /** The header in front of word p is that of a block in use with a payload of at least `want` words. */
  ghost predicate Serves(m: seq<Word>, p: nat, want: nat) {
    && HDR <= p <= |m| && m[p - HDR + SIGNATURE] == BLOCK_SIG && IsUsed(m[p - HDR + FLAGS])
    && want <= m[p - HDR + SIZE] && p + m[p - HDR + SIZE] <= |m|
  }

  /** The block of `size` words at word `at` is in use in m', as large as it was, and its payload is that of m. */
  ghost predicate BlockKept(m: seq<Word>, m': seq<Word>, at: nat, size: nat) {
    HeaderStands(m', at, size) && Kept(m, m', at + HDR, at + HDR + size)
  }

  ghost predicate HeaderStands(m: seq<Word>, at: nat, size: nat) {
    at + HDR <= |m| && m[at + SIGNATURE] == BLOCK_SIG && IsUsed(m[at + FLAGS]) && m[at + SIZE] == size
  }

  /** Every block in use is kept, but for one with its payload at word p. */
  ghost predicate OthersKept(bs: seq<Block>, m: seq<Word>, m': seq<Word>, p: nat) {
    forall i :: 0 <= i < |bs| && bs[i].used && Pos(bs, i) + HDR != p ==> BlockKept(m, m', Pos(bs, i), bs[i].size)
  }

  ghost predicate PayloadKept(bs: seq<Block>, m: seq<Word>, m': seq<Word>, i: nat)
    requires i < |bs|
  {
    Kept(m, m', Pos(bs, i) + HDR, Pos(bs, i) + HDR + bs[i].size)
  }

  /** The payloads of the blocks in use but block k. */
  ghost predicate OtherPayloadsKept(bs: seq<Block>, k: nat, m: seq<Word>, m': seq<Word>) {
    forall i :: 0 <= i < |bs| && i != k && bs[i].used ==> PayloadKept(bs, m, m', i)
  }

  lemma LiveHeader(m: seq<Word>, bs: seq<Block>, at: nat, size: nat)
    requires Represents(m, bs) && LiveAt(bs, at, size)
    ensures HeaderStands(m, at, size) && at + HDR + size <= |m|
  {
    var i: nat :| IsLiveBlock(bs, i, at, size);
    WalkStep(m, bs, i);
  }

  lemma LiveServes(m: seq<Word>, bs: seq<Block>, at: nat, size: nat, want: nat)
    requires Represents(m, bs) && LiveAt(bs, at, size) && size >= want
    ensures Serves(m, at + HDR, want)
  {
    hide Represents, LiveAt;
    LiveHeader(m, bs, at, size);
  }

  /** Every block in use, but for one with its payload at word p, is still in use where it was. */
  ghost predicate LivesOn(bs: seq<Block>, cs: seq<Block>, p: nat) {
    forall a: nat, size: nat :: a + HDR != p && LiveAt(bs, a, size) ==> LiveAt(cs, a, size)
  }

  lemma LivesOnOne(bs: seq<Block>, cs: seq<Block>, p: nat, i: nat)
    requires LivesOn(bs, cs, p) && i < |bs| && bs[i].used && Pos(bs, i) + HDR != p
    ensures LiveAt(cs, Pos(bs, i), bs[i].size)
  {
    LiveIs(bs, i, bs[i].size);
    hide LiveAt;
  }

  /** The list says so, and the payloads are there. */
  lemma KeptByLists(m: seq<Word>, m': seq<Word>, bs: seq<Block>, cs: seq<Block>, k: nat, p: nat)
    requires Represents(m', cs) && LivesOn(bs, cs, p) && OtherPayloadsKept(bs, k, m, m')
    requires k < |bs| ==> p == Pos(bs, k) + HDR || !bs[k].used
    ensures OthersKept(bs, m, m', p)
  {
    hide Represents, LiveAt, HeaderStands, Kept, LivesOn, Pos;
    forall i | 0 <= i < |bs| && bs[i].used && Pos(bs, i) + HDR != p
      ensures BlockKept(m, m', Pos(bs, i), bs[i].size)
    {
      LivesOnOne(bs, cs, p, i);
      LiveHeader(m', cs, Pos(bs, i), bs[i].size);
      assert PayloadKept(bs, m, m', i);
    }
  }

  lemma SameLiveLivesOn(bs: seq<Block>, cs: seq<Block>, at: nat)
    requires SameLiveBut(bs, cs, at)
    ensures LivesOn(bs, cs, at + HDR)
  {
    hide LiveAt;
  }

  lemma LiveStaysLivesOn(bs: seq<Block>, cs: seq<Block>, p: nat)
    requires LiveStays(bs, cs)
    ensures LivesOn(bs, cs, p)
  {
    hide LiveAt;
  }

  /** A region between two headers is written, in which block k is the only one in use, and the header behind it. */
  lemma RegionKeepsOthers(m: seq<Word>, m': seq<Word>, bs: seq<Block>, k: nat, j: nat, lo: nat, hi: nat)
    requires Represents(m, bs) && k < j <= |bs| && Pos(bs, k) <= lo && hi <= Pos(bs, j) && SameOutside(m, m', lo, hi)
    requires forall i :: k < i < j ==> !bs[i].used
    ensures OtherPayloadsKept(bs, k, m, m')
  {
    forall i | 0 <= i < |bs| && i != k && bs[i].used
      ensures PayloadKept(bs, m, m', i)
    {
      OutsideRegion(m, bs, k, j, i);
      hide Represents, Kept, SameOutside, Pos;
      SliceKept(m, m', lo, hi, Pos(bs, i) + HDR, Pos(bs, i) + HDR + bs[i].size);
    }
  }

  lemma OutsideRegion(m: seq<Word>, bs: seq<Block>, k: nat, j: nat, i: nat)
    requires Represents(m, bs) && k < j <= |bs| && i < |bs| && (i < k || j <= i)
    ensures var end := Pos(bs, i) + HDR + bs[i].size; end <= |m| && (end <= Pos(bs, k) || Pos(bs, j) <= Pos(bs, i))
  {
    WalkStep(m, bs, i);
    if i < k {
      PosGap(bs, i, k);
    } else if j < i {
      PosGap(bs, j, i);
    }
  }

  lemma HeaderKeepsOthers(m: seq<Word>, m': seq<Word>, bs: seq<Block>, k: nat, j: nat)
    requires j < |bs| && SameOutside(m, m', Pos(bs, j), Pos(bs, j) + HDR) && |m| == Extent(bs)
    ensures OtherPayloadsKept(bs, k, m, m')
  {
    forall i | 0 <= i < |bs| && i != k && bs[i].used
      ensures PayloadKept(bs, m, m', i)
    {
      PosGap(bs, i, |bs|);
      if i < j {
        PosGap(bs, i, j);
      } else if j < i {
        PosGap(bs, j, i);
      }
      hide Kept, SameOutside;
      SliceKept(m, m', Pos(bs, j), Pos(bs, j) + HDR, Pos(bs, i) + HDR, Pos(bs, i) + HDR + bs[i].size);
    }
  }

  lemma OthersTwice(bs: seq<Block>, k: nat, m: seq<Word>, m1: seq<Word>, m2: seq<Word>)
    requires OtherPayloadsKept(bs, k, m, m1) && OtherPayloadsKept(bs, k, m1, m2)
    ensures OtherPayloadsKept(bs, k, m, m2)
  {
    forall i | 0 <= i < |bs| && i != k && bs[i].used
      ensures PayloadKept(bs, m, m2, i)
    {
      assert PayloadKept(bs, m, m1, i) && PayloadKept(bs, m1, m2, i);
    }
  }

  lemma PayloadsKeptOthers(bs: seq<Block>, k: nat, m: seq<Word>, m': seq<Word>)
    requires PayloadsKept(bs, m, m') && Extent(bs) == |m|
    ensures OtherPayloadsKept(bs, k, m, m')
  {
    forall i | 0 <= i < |bs| && i != k && bs[i].used
      ensures PayloadKept(bs, m, m', i)
    {
      PosGap(bs, i, |bs|);
      NextPos(bs, i);
      hide PayloadsKept, Extent, Pos;
      PayloadSliceKept(m, m', bs, i, bs[i].size);
      PayloadsKeptLength(bs, m, m');
    }
  }

  lemma PayloadsKeptLength(bs: seq<Block>, m: seq<Word>, m': seq<Word>)
    requires PayloadsKept(bs, m, m')
    ensures |m| == |m'|
  {
  }

  /** Nothing written, everything kept. */
  lemma KeptAsIs(m: seq<Word>, bs: seq<Block>, p: nat)
    requires Represents(m, bs)
    ensures OthersKept(bs, m, m, p)
  {
    forall i | 0 <= i < |bs| && bs[i].used
      ensures BlockKept(m, m, Pos(bs, i), bs[i].size)
    {
      LiveIs(bs, i, bs[i].size);
      hide Represents, LiveAt;
      LiveHeader(m, bs, Pos(bs, i), bs[i].size);
    }
  }

  // ---------------------------------------------------------------- the calls

  lemma MallocKeepsOthers(m: seq<Word>, m': seq<Word>, bs: seq<Block>, k: nat, want: nat, stale: Stale)
    requires Represents(m, bs) && k < |bs| && Fits(bs[k], want) && Represents(m', MallocWritten(bs, k, want, stale))
    requires SameOutside(m, m', Pos(bs, k), Pos(bs, k + 1))
    ensures Serves(m', Pos(bs, k) + HDR, want) && OthersKept(bs, m, m', 0)
  {
    hide Represents, SameOutside, MallocWritten, LiveAt, LiveStays, Serves, OthersKept;
    var cs := MallocWritten(bs, k, want, stale);
    MallocLive(bs, k, want, stale);
    LiveServes(m', cs, Pos(bs, k), if Crops(bs[k], want) then want else bs[k].size, want);
    LiveStaysLivesOn(bs, cs, 0);
    RegionKeepsOthers(m, m', bs, k, k + 1, Pos(bs, k), Pos(bs, k + 1));
    KeptByLists(m, m', bs, cs, k, 0);
  }

  /** A call that changes the list at the place of block k only. */
  lemma ChangeKeepsOthers(m: seq<Word>, m': seq<Word>, bs: seq<Block>, cs: seq<Block>, k: nat)
    requires k < |bs| && SameLiveBut(bs, cs, Pos(bs, k)) && Represents(m', cs) && OtherPayloadsKept(bs, k, m, m')
    ensures OthersKept(bs, m, m', Pos(bs, k) + HDR)
  {
    hide Represents, SameLiveBut, OtherPayloadsKept, OthersKept, Pos;
    SameLiveLivesOn(bs, cs, Pos(bs, k));
    KeptByLists(m, m', bs, cs, k, Pos(bs, k) + HDR);
  }

  lemma RepresentsExtent(m: seq<Word>, bs: seq<Block>)
    requires Represents(m, bs)
    ensures Extent(bs) == |m|
  {
  }

  lemma FreeKeepsOthers(m: seq<Word>, m': seq<Word>, bs: seq<Block>, k: nat, cs: seq<Block>)
    requires k < |bs| && Represents(m, bs) && cs == FreeWritten(bs, k) && Represents(m', cs) && PayloadsKept(bs, m, m')
    ensures OthersKept(bs, m, m', Pos(bs, k) + HDR)
  {
    hide *;
    FreeWrittenLive(bs, k);
    RepresentsExtent(m, bs);
    PayloadsKeptOthers(bs, k, m, m');
    ChangeKeepsOthers(m, m', bs, cs, k);
  }

  /** A call that resizes block k in place. */
  lemma ResizeKeepsOthers(m: seq<Word>, m': seq<Word>, bs: seq<Block>, cs: seq<Block>, k: nat, size: nat, want: nat)
    requires k < |bs| && bs[k].used && ResizedTo(bs, cs, k, size) && size >= want && Represents(m', cs)
    requires OtherPayloadsKept(bs, k, m, m')
    ensures OthersKept(bs, m, m', Pos(bs, k) + HDR) && Serves(m', Pos(bs, k) + HDR, want)
  {
    hide Represents, LiveAt, SameLiveBut, OtherPayloadsKept, Serves, OthersKept;
    LiveServes(m', cs, Pos(bs, k), size, want);
    ChangeKeepsOthers(m, m', bs, cs, k);
  }

  /** The stores of a growth that loses words: the size and flags of block k and the `prev_size` of block j. */
  lemma GrowthKeepsOthers(m: seq<Word>, m1: seq<Word>, m2: seq<Word>, bs: seq<Block>, k: nat, j: nat, v: Word)
    requires Represents(m, bs) && k < j <= |bs| && SameOutside(m, m1, Pos(bs, k), Pos(bs, k) + HDR)
    requires forall i :: k < i < j ==> !bs[i].used
    requires if j < |bs| then Pos(bs, j) + PREV < |m1| && m2 == m1[Pos(bs, j) + PREV := v] else m2 == m1
    ensures OthersKept(bs, m, m2, Pos(bs, k) + HDR)
  {
    hide Pos, Represents, SameOutside, BlockKept;
    forall i | 0 <= i < |bs| && bs[i].used && Pos(bs, i) != Pos(bs, k)
      ensures BlockKept(m, m2, Pos(bs, i), bs[i].size)
    {
      GrowthKeepsOne(m, m1, m2, bs, k, j, v, i);
    }
  }

  lemma GrowthKeepsOne(m: seq<Word>, m1: seq<Word>, m2: seq<Word>, bs: seq<Block>, k: nat, j: nat, v: Word, i: nat)
    requires Represents(m, bs) && k < j <= |bs| && SameOutside(m, m1, Pos(bs, k), Pos(bs, k) + HDR)
    requires if j < |bs| then Pos(bs, j) + PREV < |m1| && m2 == m1[Pos(bs, j) + PREV := v] else m2 == m1
    requires i < |bs| && i != k && (i < k || j <= i) && bs[i].used
    ensures BlockKept(m, m2, Pos(bs, i), bs[i].size)
  {
    hide *;
    WalkStep(m, bs, i);
    GrowthPlaces(m, bs, k, j, i);
    WordsKept(m, m1, Pos(bs, k), Pos(bs, k) + HDR, Pos(bs, i), HDR + bs[i].size);
    SameOutsideLength(m, m1, Pos(bs, k), Pos(bs, k) + HDR);
    BlockWordsKept(m, m1, m2, Pos(bs, i), bs[i].size, bs[i], Pos(bs, j), v, j < |bs|);
  }

  lemma GrowthPlaces(m: seq<Word>, bs: seq<Block>, k: nat, j: nat, i: nat)
    requires Represents(m, bs) && k < j <= |bs| && i < |bs| && (i < k || j <= i)
    ensures var at, end := Pos(bs, i), Pos(bs, i) + HDR + bs[i].size;
      && end <= |m| && (end <= Pos(bs, k) || Pos(bs, k) + HDR <= at)
      && (at == Pos(bs, j) || Pos(bs, j) + HDR <= at || end <= Pos(bs, j))
  {
    hide Represents, Pos;
    OutsideRegion(m, bs, k, j, i);
    PosGap(bs, k, j);
    if j < i {
      PosGap(bs, j, i);
    } else if i < j {
      PosGap(bs, i, j);
    }
  }

  lemma SameOutsideLength(m: seq<Word>, m': seq<Word>, lo: nat, hi: nat)
    requires SameOutside(m, m', lo, hi)
    ensures |m'| == |m|
  {
  }

  lemma WordsKept(m: seq<Word>, m': seq<Word>, lo: nat, hi: nat, at: nat, n: nat)
    requires SameOutside(m, m', lo, hi) && at + n <= |m| && (at + n <= lo || hi <= at)
    ensures forall w :: at <= w < at + n ==> m'[w] == m[w]
  {
    SliceKept(m, m', lo, hi, at, at + n);
    hide SameOutside;
    forall w | at <= w < at + n
      ensures m'[w] == m[w]
    {
      assert m'[at..at + n][w - at] == m[at..at + n][w - at];
    }
  }

  lemma BlockWordsKept(m: seq<Word>, m1: seq<Word>, m2: seq<Word>, at: nat, size: nat, b: Block, x: nat, v: Word,
                       told: bool)
    requires HeaderAt(m, at, b) && b.used && b.size == size && at + HDR + size <= |m| == |m1|
    requires forall w :: at <= w < at + HDR + size ==> m1[w] == m[w]
    requires if told then x + PREV < |m1| && m2 == m1[x + PREV := v] else m2 == m1
    requires told ==> at == x || x + HDR <= at || at + HDR + size <= x
    ensures BlockKept(m, m2, at, size)
  {
    forall w | at + HDR <= w < at + HDR + size
      ensures m2[w] == m[w]
    {
    }
    assert m2[at + HDR..at + HDR + size] == m[at + HDR..at + HDR + size];
  }

  /** A crop writes into the blocks k .. j and into the header of block j. */
  lemma CropKeepsOthers(m: seq<Word>, m1: seq<Word>, m2: seq<Word>, bs: seq<Block>, k: nat, j: nat, lo: nat, hi: nat)
    requires Represents(m, bs) && k < j <= |bs| && Pos(bs, k) <= lo && hi <= Pos(bs, j) && SameOutside(m, m1, lo, hi)
    requires forall i :: k < i < j ==> !bs[i].used
    requires if j < |bs| then SameOutside(m1, m2, Pos(bs, j), Pos(bs, j) + HDR) else m2 == m1
    ensures OtherPayloadsKept(bs, k, m, m2)
  {
    hide *;
    RepresentsExtent(m, bs);
    SameOutsideLength(m, m1, lo, hi);
    RegionKeepsOthers(m, m1, bs, k, j, lo, hi);
    if j < |bs| {
      HeaderKeepsOthers(m1, m2, bs, k, j);
      OthersTwice(bs, k, m, m1, m2);
    }
  }

  lemma ResizeServes(m': seq<Word>, bs: seq<Block>, cs: seq<Block>, k: nat, size: nat, want: nat)
    requires k < |bs| && bs[k].used && ResizedTo(bs, cs, k, size) && size >= want && Represents(m', cs)
    ensures Serves(m', Pos(bs, k) + HDR, want)
  {
    hide Represents, LiveAt, SameLiveBut, Serves;
    LiveServes(m', cs, Pos(bs, k), size, want);
  }

  lemma ResizeChanges(m: seq<Word>, m': seq<Word>, bs: seq<Block>, cs: seq<Block>, k: nat, size: nat)
    requires k < |bs| && ResizedTo(bs, cs, k, size) && Represents(m', cs) && OtherPayloadsKept(bs, k, m, m')
    ensures OthersKept(bs, m, m', Pos(bs, k) + HDR)
  {
    hide Represents, LiveAt, SameLiveBut, OtherPayloadsKept, OthersKept;
    ChangeKeepsOthers(m, m', bs, cs, k);
  }

  /** A header that shows a block in use. */
  lemma HeaderServes(m: seq<Word>, at: nat, b: Block, want: nat)
    requires HeaderAt(m, at, b) && b.used && b.size >= want && at + HDR + b.size <= |m|
    ensures Serves(m, at + HDR, want)
  {
  }

  /** A move: malloc took block k2 of bs, the copy went into its payload, and block k was freed. */
  lemma MoveKeepsOthers(m: seq<Word>, m1: seq<Word>, m2: seq<Word>, m3: seq<Word>, bs: seq<Block>, k: nat, k2: nat,
                        want: nat, stale: Stale)
    requires Represents(m, bs) && k < |bs| && bs[k].used && k2 < |bs| && Fits(bs[k2], want)
    requires SameOutside(m, m1, Pos(bs, k2), Pos(bs, k2 + 1))
    requires SameOutside(m1, m2, Pos(bs, k2) + HDR, Pos(bs, k2) + HDR + want)
    requires OthersKept(MallocWritten(bs, k2, want, stale), m2, m3, Pos(bs, k) + HDR)
    ensures OthersKept(bs, m, m3, Pos(bs, k) + HDR)
    ensures Serves(m3, Pos(bs, k2) + HDR, want)
  {
    hide MallocWritten, Represents, SameOutside, OthersKept, BlockKept, Crops, LiveAt, Serves;
    var cs := MallocWritten(bs, k2, want, stale);
    MallocLive(bs, k2, want, stale);
    forall i | 0 <= i < |bs| && bs[i].used && Pos(bs, i) + HDR != Pos(bs, k) + HDR
      ensures BlockKept(m, m3, Pos(bs, i), bs[i].size)
    {
      LiveIs(bs, i, bs[i].size);
      assert LiveAt(cs, Pos(bs, i), bs[i].size);
      LiveKept(cs, m2, m3, Pos(bs, k) + HDR, Pos(bs, i), bs[i].size);
      MovePlaces(m, bs, k2, want, i);
      KeptThrough(m, m1, m2, m3, Pos(bs, k2), Pos(bs, k2 + 1), Pos(bs, k2) + HDR, Pos(bs, k2) + HDR + want, Pos(bs, i),
                  bs[i].size);
    }
    OthersFrom(bs, m, m3, Pos(bs, k) + HDR);
    if Pos(bs, k2) == Pos(bs, k) {
      SamePosition(bs, k, k2);
    }
    var size := if bs[k2].size >= want + HDR + ALIGN then want else bs[k2].size;
    LiveKept(cs, m2, m3, Pos(bs, k) + HDR, Pos(bs, k2), size);
    BlockServes(m2, m3, Pos(bs, k2), size, want);
  }

  lemma OthersFrom(bs: seq<Block>, m: seq<Word>, m': seq<Word>, p: nat)
    requires forall i | 0 <= i < |bs| && bs[i].used && Pos(bs, i) + HDR != p ::
               BlockKept(m, m', Pos(bs, i), bs[i].size)
    ensures OthersKept(bs, m, m', p)
  {
    hide BlockKept, Pos;
  }

  lemma BlockServes(m: seq<Word>, m': seq<Word>, at: nat, size: nat, want: nat)
    requires BlockKept(m, m', at, size) && size >= want
    ensures Serves(m', at + HDR, want)
  {
  }

  lemma LiveKept(cs: seq<Block>, m: seq<Word>, m': seq<Word>, p: nat, at: nat, size: nat)
    requires OthersKept(cs, m, m', p) && LiveAt(cs, at, size) && at + HDR != p
    ensures BlockKept(m, m', at, size)
  {
    hide BlockKept;
    var i: nat :| IsLiveBlock(cs, i, at, size);
  }

  lemma MovePlaces(m: seq<Word>, bs: seq<Block>, k2: nat, want: nat, i: nat)
    requires Represents(m, bs) && k2 < |bs| && Fits(bs[k2], want) && i < |bs| && bs[i].used
    ensures var at, end := Pos(bs, i), Pos(bs, i) + HDR + bs[i].size;
      && end <= |m| && (end <= Pos(bs, k2) || Pos(bs, k2 + 1) <= at)
      && Pos(bs, k2) + HDR + want <= Pos(bs, k2 + 1)
  {
    WalkStep(m, bs, k2);
    assert i != k2;
    hide Represents, Pos;
    OutsideRegion(m, bs, k2, k2 + 1, i);
  }

  lemma KeptThrough(m: seq<Word>, m1: seq<Word>, m2: seq<Word>, m3: seq<Word>, lo: nat, hi: nat, lo': nat, hi': nat,
                    at: nat, size: nat)
    requires SameOutside(m, m1, lo, hi) && SameOutside(m1, m2, lo', hi') && BlockKept(m2, m3, at, size)
    requires at + HDR + size <= |m| && (at + HDR + size <= lo || hi <= at) && lo <= lo' && hi' <= hi
    ensures BlockKept(m, m3, at, size)
  {
    SameOutsideLength(m, m1, lo, hi);
    hide SameOutside, HeaderStands;
    SliceKept(m, m1, lo, hi, at + HDR, at + HDR + size);
    SliceKept(m1, m2, lo', hi', at + HDR, at + HDR + size);
  }
}
