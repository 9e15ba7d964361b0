/** The heap of virgoos/src/base/memman.c seen as the list of blocks that a walk over its headers visits.
    Each operation comes twice: `...Written` does what the code does, `...Design` does what the file's
    header comment (lines 36-43) promises.  HeapDiscipline says exactly when the two agree.

    All lengths are counted in 4-byte words: BLOCK_ALIGN is 32 bytes and so is a header. */
module HeapBlocks {
  const HDR: nat := 8
  const ALIGN: nat := 8

  /** One block: its payload length, the payload length of its predecessor (0 for the first block)
      and the two flag bits the allocator reads. */
  datatype Block = Block(size: nat, prev: nat, used: bool, last: bool)

  /** What malloc keeps of the flag bits that happen to lie where a new header goes. */
  datatype Stale = Stale(used: bool, last: bool)

  /** Word offset of the header of block i. */
  function Pos(bs: seq<Block>, i: nat): nat
    requires i <= |bs|
  {
    if i == 0 then 0 else Pos(bs, i - 1) + HDR + bs[i - 1].size
  }

  /** Length of the whole arena that the blocks tile. */
  function Extent(bs: seq<Block>): nat {
    Pos(bs, |bs|)
  }

  /** `prev_size` of block i is the size of the block before it. */
  ghost predicate Linked(bs: seq<Block>, i: nat)
    requires i < |bs|
  {
    bs[i].prev == if i == 0 then 0 else bs[i - 1].size
  }

  /** Block i carries BLOCK_LAST exactly if it is the final one. */
  ghost predicate LastMarked(bs: seq<Block>, i: nat)
    requires i < |bs|
  {
    bs[i].last <==> i == |bs| - 1
  }

  ghost predicate LastsMarked(bs: seq<Block>) {
    forall i :: 0 <= i < |bs| ==> LastMarked(bs, i)
  }

  /** The discipline the header comment asks for: every `prev_size` names the preceding block's size and
      exactly the final block is marked last. */
  ghost predicate WellFormed(bs: seq<Block>) {
    && |bs| > 0
    && (forall i :: 0 <= i < |bs| ==> Linked(bs, i))
    && LastsMarked(bs)
  }

  /** No two neighbours are both free. */
  ghost predicate Coalesced(bs: seq<Block>) {
    forall i :: 0 < i < |bs| ==> bs[i - 1].used || bs[i].used
  }

  ghost predicate NoEmptyBlock(bs: seq<Block>) {
    forall i :: 0 <= i < |bs| ==> bs[i].size > 0
  }

  // ---------------------------------------------------------------- positions

  lemma {:induction false} PosOfPrefix(bs: seq<Block>, cs: seq<Block>, i: nat)
    requires i <= |bs| && i <= |cs| && bs[..i] == cs[..i]
    ensures Pos(bs, i) == Pos(cs, i)
  {
    if i > 0 {
      assert bs[i - 1] == bs[..i][i - 1] == cs[..i][i - 1] == cs[i - 1];
      assert bs[..i - 1] == bs[..i][..i - 1] == cs[..i][..i - 1] == cs[..i - 1];
      PosOfPrefix(bs, cs, i - 1);
    }
  }

  /** Positions of a concatenation. */
  lemma {:induction false} PosOfConcat(a: seq<Block>, b: seq<Block>, i: nat)
    requires i <= |b|
    ensures Pos(a + b, |a| + i) == Extent(a) + Pos(b, i)
  {
    if i == 0 {
      PosOfPrefix(a, a + b, |a|);
    } else {
      PosOfConcat(a, b, i - 1);
    }
  }

  lemma {:induction false} PosGap(bs: seq<Block>, i: nat, j: nat)
    requires i < j <= |bs|
    ensures Pos(bs, i) + HDR + bs[i].size <= Pos(bs, j)
    decreases j
  {
    if i < j - 1 {
      PosGap(bs, i, j - 1);
    }
  }

  /** bs with blocks k .. k+n replaced by mid. */
  function Splice(bs: seq<Block>, k: nat, n: nat, mid: seq<Block>): seq<Block>
    requires k + n <= |bs|
  {
    bs[..k] + mid + bs[k + n..]
  }

  /** Replacing blocks by others of the same extent moves no other header. */
  lemma SplicePos(bs: seq<Block>, k: nat, n: nat, mid: seq<Block>, i: nat)
    requires k + n <= |bs| && Extent(mid) == Pos(bs, k + n) - Pos(bs, k)
    requires i <= |Splice(bs, k, n, mid)|
    ensures i <= k ==> Pos(Splice(bs, k, n, mid), i) == Pos(bs, i)
    ensures k <= i <= k + |mid| ==> Pos(Splice(bs, k, n, mid), i) == Pos(bs, k) + Pos(mid, i - k)
    ensures k + |mid| <= i ==> Pos(Splice(bs, k, n, mid), i) == Pos(bs, i - |mid| + n)
  {
    hide Pos;
    var pre, post := bs[..k], bs[k + n..];
    PosOfPrefix(bs, pre, k);
    if i <= k {
      assert Splice(bs, k, n, mid)[..i] == bs[..i];
      PosOfPrefix(bs, Splice(bs, k, n, mid), i);
    }
    if k <= i <= k + |mid| {
      assert Splice(bs, k, n, mid)[..i] == (pre + mid)[..i];
      PosOfPrefix(Splice(bs, k, n, mid), pre + mid, i);
      PosOfConcat(pre, mid, i - k);
    }
    if k + |mid| <= i {
      PosOfConcat(pre + mid, post, i - k - |mid|);
      PosOfConcat(pre, mid, |mid|);
      PosOfSuffix(bs, k + n, i - k - |mid|);
    }
  }

  lemma PosOfSuffix(bs: seq<Block>, e: nat, d: nat)
    requires e + d <= |bs|
    ensures Pos(bs, e + d) == Pos(bs, e) + Pos(bs[e..], d)
  {
    assert bs == bs[..e] + bs[e..];
    PosOfConcat(bs[..e], bs[e..], d);
    PosOfPrefix(bs, bs[..e], e);
  }

  /** An update that keeps the size of a block moves no header. */
  lemma UpdatePos(bs: seq<Block>, k: nat, b: Block)
    requires k < |bs| && b.size == bs[k].size
    ensures forall i :: 0 <= i <= |bs| ==> Pos(bs[k := b], i) == Pos(bs, i)
  {
    assert bs[k := b] == Splice(bs, k, 1, [b]);
    assert Pos([b], 1) == Pos([b], 0) + HDR + b.size;
    forall i | 0 <= i <= |bs|
      ensures Pos(bs[k := b], i) == Pos(bs, i)
    {
      SplicePos(bs, k, 1, [b], i);
    }
  }

  // ---------------------------------------------------------------- requests

  /** Rounds a request in bytes up to BLOCK_ALIGN, in 32-bit arithmetic, and gives it in words: 2^27 units of
      32 bytes wrap to nothing. */
  function AlignedWords(bytes: nat): nat
    requires bytes < 0x1_0000_0000
  {
    var units := if bytes % 32 != 0 then bytes / 32 + 1 else bytes / 32;
    if units == 0x800_0000 then 0 else units * ALIGN
  }

  /** The rounded request is the least multiple of BLOCK_ALIGN that holds it, unless it wraps to nothing:
      malloc(0) and the 31 largest requests ask for a block without payload. */
  lemma AlignedWordsHolds(bytes: nat)
    requires bytes < 0x1_0000_0000
    ensures AlignedWords(bytes) % ALIGN == 0
    ensures AlignedWords(bytes) == 0 <==> bytes == 0 || bytes > 0xFFFF_FFE0
    ensures AlignedWords(bytes) != 0 ==> bytes <= 4 * AlignedWords(bytes) < bytes + 32
  {
  }

  lemma AlignedWordsOf(want: nat)
    requires want % ALIGN == 0 && want < 0x4000_0000
    ensures AlignedWords(4 * want) == want
  {
  }

  predicate Fits(b: Block, want: nat) {
    !b.used && b.size >= want
  }

  ghost predicate NoneFits(bs: seq<Block>, want: nat) {
    forall i :: 0 <= i < |bs| ==> !Fits(bs[i], want)
  }

  /** The block malloc picks: the first fitting one under STRATEGY_FIRST_FIT, otherwise the last one. */
  ghost predicate IsChoice(bs: seq<Block>, want: nat, firstFit: bool, k: nat) {
    && k < |bs|
    && Fits(bs[k], want)
    && (firstFit ==> forall i :: 0 <= i < k ==> !Fits(bs[i], want))
    && (!firstFit ==> forall i :: k < i < |bs| ==> !Fits(bs[i], want))
  }

  // ---------------------------------------------------------------- operations

  function SetPrev(bs: seq<Block>, i: nat, v: nat): seq<Block> {
    if i < |bs| then bs[i := bs[i].(prev := v)] else bs
  }

  /** malloc leaves a remainder only if a header and an aligned payload are left over. */
  predicate Crops(b: Block, want: nat) {
    b.size >= want + HDR + ALIGN
  }

  /** The block that a split cuts off: only the last block's remainder gets fresh flags. */
  function Remainder(b: Block, want: nat, stale: Stale): Block
    requires Crops(b, want)
  {
    if b.last then Block(b.size - want - HDR, want, false, true)
    else Block(b.size - want - HDR, want, stale.used, stale.last)
  }

  function MallocWritten(bs: seq<Block>, k: nat, want: nat, stale: Stale): seq<Block>
    requires k < |bs| && Fits(bs[k], want)
  {
    var b := bs[k];
    if !Crops(b, want) then bs[k := b.(used := true)]
    else Splice(bs, k, 1, [Block(want, b.prev, true, false), Remainder(b, want, stale)])
  }

  /** The block malloc picked is not split, or has no successor. */
  predicate MallocKeeps(b: Block, want: nat) {
    b.last || !Crops(b, want)
  }

  function MallocDesign(bs: seq<Block>, k: nat, want: nat): seq<Block>
    requires k < |bs| && Fits(bs[k], want)
  {
    var b := bs[k];
    if !Crops(b, want) then bs[k := b.(used := true)]
    else
      var left := b.size - want - HDR;
      SetPrev(Splice(bs, k, 1, [Block(want, b.prev, true, false), Block(left, want, false, b.last)]), k + 2, left)
  }

  /** First half of free: mark free and swallow a free successor. */
  function MergeForward(bs: seq<Block>, k: nat): seq<Block>
    requires k < |bs|
  {
    var b := bs[k].(used := false);
    if !b.last && k + 1 < |bs| && !bs[k + 1].used
    then Splice(bs, k, 2, [b.(size := b.size + HDR + bs[k + 1].size, last := bs[k + 1].last)])
    else bs[k := b]
  }

  /** free merges backward when `prev_size` is not 0 and leads to a free predecessor. */
  predicate MergesBackward(bs: seq<Block>, k: nat)
    requires k < |bs|
  {
    bs[k].prev != 0 && k > 0 && bs[k].prev == bs[k - 1].size && !bs[k - 1].used
  }

  /** What free needs of the list around block k: the block and a free successor are marked last exactly if they
      are final, and `prev_size` is 0, or right, or stale but leading to the header of a used block. */
  ghost predicate Freeable(bs: seq<Block>, k: nat) {
    && k < |bs|
    && LastMarked(bs, k)
    && (k + 1 < |bs| && !bs[k + 1].used ==> LastMarked(bs, k + 1))
    && (bs[k].prev == 0 || Linked(bs, k) || exists q :: 0 <= q < k && LeadsTo(bs, k, q) && bs[q].used)
  }

  /** Stepping back from block k by its `prev_size` arrives at the header of block q. */
  ghost predicate LeadsTo(bs: seq<Block>, k: nat, q: nat)
    requires q < k < |bs|
  {
    Pos(bs, q) + HDR + bs[k].prev == Pos(bs, k)
  }

  lemma WellFormedFreeable(bs: seq<Block>, k: nat)
    requires WellFormed(bs) && k < |bs|
    ensures Freeable(bs, k)
  {
    assert LastMarked(bs, k) && Linked(bs, k) && (k + 1 < |bs| ==> LastMarked(bs, k + 1));
  }

  function Joined(bs: seq<Block>, k: nat): Block
    requires 0 < k < |bs|
  {
    bs[k - 1].(size := bs[k - 1].size + HDR + bs[k].size, last := bs[k - 1].last || bs[k].last)
  }

  /** Second half of free: a free predecessor swallows block k. */
  function MergeBackward(bs: seq<Block>, k: nat): seq<Block>
    requires k < |bs|
  {
    if MergesBackward(bs, k) then Splice(bs, k - 1, 2, [Joined(bs, k)]) else bs
  }

  /** Index of the block after block k once MergeBackward has been done. */
  function After(bs: seq<Block>, k: nat): nat
    requires k < |bs|
  {
    if MergesBackward(bs, k) then k else k + 1
  }

  /** The code tells the successor the size that block k had before the backward merge. */
  function FreeWritten(bs: seq<Block>, k: nat): seq<Block>
    requires k < |bs|
  {
    var cs := MergeForward(bs, k);
    SetPrev(MergeBackward(cs, k), After(cs, k), cs[k].size)
  }

  /** free does not merge backward, or the merged block has no successor. */
  predicate FreeKeeps(bs: seq<Block>, k: nat)
    requires k < |bs|
  {
    !MergesBackward(MergeForward(bs, k), k) || MergeForward(bs, k)[k].last
  }

  /** By design the successor learns the merged size. */
  function FreeDesign(bs: seq<Block>, k: nat): seq<Block>
    requires k < |bs|
  {
    var cs := MergeForward(bs, k);
    SetPrev(MergeBackward(cs, k), After(cs, k), if MergesBackward(cs, k) then Joined(cs, k).size else cs[k].size)
  }

  /** realloc to a smaller size gives the surplus back as a free block, if it is more than a header. */
  function Shrink(bs: seq<Block>, k: nat, want: nat): seq<Block>
    requires k < |bs| && want < bs[k].size
  {
    var b := bs[k];
    if b.size - want <= HDR then bs
    else
      var left := b.size - want - HDR;
      SetPrev(Splice(bs, k, 1, [b.(size := want, last := false), Block(left, want, false, b.last)]), k + 2, left)
  }

  /** End of the run of free blocks that realloc absorbs: it stops at the first used block or when enough is
      gathered. */
  function Reach(bs: seq<Block>, k: nat, want: nat, j: nat): (r: nat)
    requires k < j <= |bs|
    ensures j <= r <= |bs|
    decreases |bs| - j
  {
    if j == |bs| || Gathered(bs, k, j) >= want || bs[j].used then j else Reach(bs, k, want, j + 1)
  }

  /** Payload that block k would have after absorbing blocks k+1 .. j. */
  function Gathered(bs: seq<Block>, k: nat, j: nat): (n: nat)
    requires k < j <= |bs|
  {
    PosGap(bs, k, j);
    Pos(bs, j) - Pos(bs, k) - HDR
  }

  predicate CanGrow(bs: seq<Block>, k: nat, want: nat)
    requires k < |bs|
  {
    Gathered(bs, k, Reach(bs, k, want, k + 1)) >= want
  }

  /** Growth in place leaves no words between blocks: nothing is spare, or enough for a block. */
  predicate GrowKeeps(bs: seq<Block>, k: nat, want: nat)
    requires k < |bs|
  {
    var spare := Gathered(bs, k, Reach(bs, k, want, k + 1)) - want;
    spare == 0 || spare > HDR
  }

  /** realloc's growth in place, by design: the surplus becomes a free block if it is more than a header and
      otherwise stays in the block. */
  function GrowDesign(bs: seq<Block>, k: nat, want: nat): seq<Block>
    requires k < |bs| && CanGrow(bs, k, want)
  {
    var j := Reach(bs, k, want, k + 1);
    var n := Gathered(bs, k, j);
    if n - want > HDR
    then
      var a, rest := bs[k].(size := want, last := false), Block(n - want - HDR, want, false, j == |bs|);
      SetPrev(Splice(bs, k, j - k, [a, rest]), k + 2, rest.size)
    else SetPrev(Splice(bs, k, j - k, [bs[k].(size := n, last := j == |bs|)]), k + 1, n)
  }
}
