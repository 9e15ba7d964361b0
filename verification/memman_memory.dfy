/** Memory that holds a heap of virgoos/src/base/memman.c: a sequence of 4-byte words in which headers lie between
    payloads, when it shows a block list of HeapBlocks, and what single stores do to that.
    Offsets and lengths are in words. */
module HeapMemory {
  import opened HeapBlocks
  import opened HeapDiscipline

  type Word = w: int | 0 <= w < 0x1_0000_0000

  const BLOCK_SIG: Word := 0x12121974

  /** Word offsets of the fields of a BLOCK_HDR. */
  const SIZE := 0
  const PREV := 1
  const FLAGS := 2
  const SIGNATURE := 3

  /** An address inside the arena, or NULL. */
  datatype Pointer = Null | At(word: nat)

  /** What a call of realloc did; k is the block the old pointer names, k2 the block a malloc picked. */
  datatype ReallocOutcome =
    | Allocated(k2: nat, stale: Stale)
    | Released
    | Rejected
    | Unchanged(k: nat)
    | Shrunk(k: nat)
    | Grown(k: nat)
    | Moved(k: nat, k2: nat, stale: Stale)

  // BLOCK_ALLOCATED is bit 0 of the flags word, BLOCK_LAST is bit 1.

  predicate IsUsed(w: Word) {
    w % 2 == 1
  }

  predicate IsLast(w: Word) {
    w / 2 % 2 == 1
  }

  function SetUsed(w: Word): (r: Word)
    ensures IsUsed(r) && IsLast(r) == IsLast(w)
  {
    if IsUsed(w) then w else w + 1
  }

  function ClearUsed(w: Word): (r: Word)
    ensures !IsUsed(r) && IsLast(r) == IsLast(w)
  {
    if IsUsed(w) then w - 1 else w
  }

  function SetLast(w: Word): (r: Word)
    ensures IsLast(r) && IsUsed(r) == IsUsed(w)
  {
    if IsLast(w) then w else w + 2
  }

  function ClearLast(w: Word): (r: Word)
    ensures !IsLast(r) && IsUsed(r) == IsUsed(w)
  {
    if IsLast(w) then w - 2 else w
  }

  /** The block that the BLOCK_HDR at word `at` describes. */
  function Decode(m: seq<Word>, at: nat): Block
    requires at + HDR <= |m|
  {
    Block(m[at + SIZE], m[at + PREV], IsUsed(m[at + FLAGS]), IsLast(m[at + FLAGS]))
  }

  /** A signed header at word `at` of memory m describes block b. */
  ghost predicate HeaderAt(m: seq<Word>, at: nat, b: Block) {
    at + HDR <= |m| && m[at + SIGNATURE] == BLOCK_SIG && Decode(m, at) == b
  }

  /** Block i of bs has its header where the walk finds it, when the walk starts at word `base`. */
  ghost predicate ShownFrom(m: seq<Word>, base: nat, bs: seq<Block>, i: nat)
    requires i < |bs|
  {
    HeaderAt(m, base + Pos(bs, i), bs[i])
  }

  ghost predicate Shown(m: seq<Word>, bs: seq<Block>, i: nat)
    requires i < |bs|
  {
    ShownFrom(m, 0, bs, i)
  }

  /** The header walk of m visits exactly bs and ends at the end of the arena. */
  ghost predicate Represents(m: seq<Word>, bs: seq<Block>) {
    && Extent(bs) == |m|
    && forall i :: 0 <= i < |bs| ==> Shown(m, bs, i)
  }

  /** m' is m but for the words lo .. hi. */
  ghost predicate SameOutside(m: seq<Word>, m': seq<Word>, lo: nat, hi: nat) {
    lo <= hi <= |m| == |m'| && m'[..lo] == m[..lo] && m'[hi..] == m[hi..]
  }

  /** Word w lies in a header. */
  ghost predicate InHeader(bs: seq<Block>, w: int) {
    exists i :: 0 <= i < |bs| && Pos(bs, i) <= w < Pos(bs, i) + HDR
  }

  /** The n words at `dst` of m' are those at `src` of m. */
  ghost predicate Copied(m: seq<Word>, src: nat, m': seq<Word>, dst: nat, n: nat) {
    src + n <= |m| && dst + n <= |m'| && m'[dst..dst + n] == m[src..src + n]
  }

  /** m' agrees with m on the words a .. b. */
  ghost predicate Kept(m: seq<Word>, m': seq<Word>, a: nat, b: nat) {
    a <= b <= |m| == |m'| && m'[a..b] == m[a..b]
  }

  /** No word outside the headers of bs differs between m and m'. */
  ghost predicate PayloadsKept(bs: seq<Block>, m: seq<Word>, m': seq<Word>) {
    |m| == |m'| && forall w :: 0 <= w < |m| && !InHeader(bs, w) ==> m'[w] == m[w]
  }

  /** A memory shows at most one block list. */
  lemma {:induction false} RepresentsUnique(m: seq<Word>, bs: seq<Block>, cs: seq<Block>)
    requires Represents(m, bs) && Represents(m, cs)
    ensures bs == cs
  {
    var n := if |bs| <= |cs| then |bs| else |cs|;
    AgreeUpTo(m, bs, cs, n);
    if n < |bs| {
      PosGap(bs, n, |bs|);
    }
    if n < |cs| {
      PosGap(cs, n, |cs|);
    }
  }

  lemma {:induction false} AgreeUpTo(m: seq<Word>, bs: seq<Block>, cs: seq<Block>, n: nat)
    requires Represents(m, bs) && Represents(m, cs)
    requires n <= |bs| && n <= |cs|
    ensures bs[..n] == cs[..n] && Pos(bs, n) == Pos(cs, n)
  {
    if n > 0 {
      AgreeUpTo(m, bs, cs, n - 1);
      assert Shown(m, bs, n - 1) && Shown(m, cs, n - 1);
    }
  }

  /** A header survives if its words do. */
  lemma HeaderKept(m: seq<Word>, m': seq<Word>, at: nat, b: Block)
    requires HeaderAt(m, at, b) && |m'| == |m|
    requires m'[at..at + HDR] == m[at..at + HDR]
    ensures HeaderAt(m', at, b)
  {
    var h, h' := m[at..at + HDR], m'[at..at + HDR];
    assert h[SIZE] == h'[SIZE] && h[PREV] == h'[PREV] && h[FLAGS] == h'[FLAGS] && h[SIGNATURE] == h'[SIGNATURE];
  }

  /** Rewriting only the words of blocks k .. k+n so that they show `mid` replaces those blocks by `mid`. */
  lemma SpliceRepresents(m: seq<Word>, m': seq<Word>, bs: seq<Block>, k: nat, n: nat, mid: seq<Block>)
    requires Represents(m, bs) && k + n <= |bs| && SameOutside(m, m', Pos(bs, k), Pos(bs, k + n))
    requires Extent(mid) == Pos(bs, k + n) - Pos(bs, k)
    requires forall i :: 0 <= i < |mid| ==> ShownFrom(m', Pos(bs, k), mid, i)
    ensures Represents(m', Splice(bs, k, n, mid))
  {
    var cs := Splice(bs, k, n, mid);
    SpliceExtent(bs, k, n, mid);
    forall i | 0 <= i < |cs|
      ensures Shown(m', cs, i)
    {
      SplicedShown(m, m', bs, k, n, mid, i);
    }
  }

  lemma SplicedShown(m: seq<Word>, m': seq<Word>, bs: seq<Block>, k: nat, n: nat, mid: seq<Block>, i: nat)
    requires Represents(m, bs) && k + n <= |bs| && SameOutside(m, m', Pos(bs, k), Pos(bs, k + n))
    requires Extent(mid) == Pos(bs, k + n) - Pos(bs, k)
    requires forall i :: 0 <= i < |mid| ==> ShownFrom(m', Pos(bs, k), mid, i)
    requires i < |Splice(bs, k, n, mid)|
    ensures Shown(m', Splice(bs, k, n, mid), i)
  {
    SplicePos(bs, k, n, mid, i);
    if i < k {
      ShownBefore(m, m', bs, i, k, Pos(bs, k + n));
    } else if i < k + |mid| {
      assert ShownFrom(m', Pos(bs, k), mid, i - k);
    } else {
      ShownAfter(m, m', bs, i - |mid| + n, Pos(bs, k), k + n);
    }
  }

  lemma SliceBefore(m: seq<Word>, o: nat, a: nat, b: nat)
    requires a <= b <= o <= |m|
    ensures m[a..b] == m[..o][a..b]
  {
  }

  lemma SliceAfter(m: seq<Word>, o: nat, a: nat, b: nat)
    requires o <= a <= b <= |m|
    ensures m[a..b] == m[o..][a - o..b - o]
  {
  }

  lemma ShownBefore(m: seq<Word>, m': seq<Word>, bs: seq<Block>, i: nat, k: nat, hi: nat)
    requires Represents(m, bs) && i < k <= |bs| && SameOutside(m, m', Pos(bs, k), hi)
    ensures HeaderAt(m', Pos(bs, i), bs[i])
  {
    assert Shown(m, bs, i);
    PosGap(bs, i, k);
    var at := Pos(bs, i);
    SliceBefore(m, Pos(bs, k), at, at + HDR);
    SliceBefore(m', Pos(bs, k), at, at + HDR);
    HeaderKept(m, m', at, bs[i]);
  }

  lemma ShownAfter(m: seq<Word>, m': seq<Word>, bs: seq<Block>, j: nat, lo: nat, e: nat)
    requires Represents(m, bs) && e <= j < |bs| && SameOutside(m, m', lo, Pos(bs, e))
    ensures HeaderAt(m', Pos(bs, j), bs[j])
  {
    assert Shown(m, bs, j);
    if e < j {
      PosGap(bs, e, j);
    }
    var at, o := Pos(bs, j), Pos(bs, e);
    SliceAfter(m, o, at, at + HDR);
    SliceAfter(m', o, at, at + HDR);
    HeaderKept(m, m', at, bs[j]);
  }

  /** One step of the header walk. */
  lemma WalkStep(m: seq<Word>, bs: seq<Block>, i: nat)
    requires Represents(m, bs) && i <= |bs|
    ensures Pos(bs, i) <= |m| && (Pos(bs, i) < |m| <==> i < |bs|) && (i < |bs| ==> Pos(bs, i) + HDR <= |m|)
    ensures i < |bs| ==> HeaderAt(m, Pos(bs, i), bs[i]) && Pos(bs, i + 1) == Pos(bs, i) + HDR + bs[i].size <= |m|
  {
    if i < |bs| {
      assert Shown(m, bs, i);
      PosGap(bs, i, |bs|);
    }
  }

  /** m' is m up to hi, and hi .. are the same for a smaller bound. */
  lemma SameOutsideWider(m: seq<Word>, m': seq<Word>, lo: nat, hi: nat, hi': nat)
    requires SameOutside(m, m', lo, hi) && hi <= hi' <= |m|
    ensures SameOutside(m, m', lo, hi')
  {
    assert m'[hi'..] == m'[hi..][hi' - hi..] && m[hi'..] == m[hi..][hi' - hi..];
  }

  /** Rewriting one header without moving anything. */
  lemma UpdateRepresents(m: seq<Word>, m': seq<Word>, bs: seq<Block>, k: nat, b: Block)
    requires Represents(m, bs) && k < |bs| && b.size == bs[k].size
    requires HeaderAt(m', Pos(bs, k), b) && SameOutside(m, m', Pos(bs, k), Pos(bs, k) + HDR)
    ensures Represents(m', bs[k := b])
  {
    PosOfTwo(b, b);
    WalkStep(m, bs, k);
    assert bs[k := b] == Splice(bs, k, 1, [b]);
    SameOutsideWider(m, m', Pos(bs, k), Pos(bs, k) + HDR, Pos(bs, k + 1));
    assert ShownFrom(m', Pos(bs, k), [b], 0);
    SpliceRepresents(m, m', bs, k, 1, [b]);
  }

  /** Rewriting blocks k .. k+n into two blocks of the same extent. */
  lemma TwoRepresents(m: seq<Word>, m': seq<Word>, bs: seq<Block>, k: nat, n: nat, a: Block, b: Block)
    requires Represents(m, bs) && n > 0 && k + n <= |bs|
    requires Pos(bs, k) + 2 * HDR + a.size + b.size == Pos(bs, k + n)
    requires HeaderAt(m', Pos(bs, k), a) && HeaderAt(m', Pos(bs, k) + HDR + a.size, b)
    requires SameOutside(m, m', Pos(bs, k), Pos(bs, k + n))
    ensures Represents(m', Splice(bs, k, n, [a, b]))
    ensures Pos(Splice(bs, k, n, [a, b]), k + 2) == Pos(bs, k + n)
  {
    PosOfTwo(a, b);
    assert ShownFrom(m', Pos(bs, k), [a, b], 0) && ShownFrom(m', Pos(bs, k), [a, b], 1);
    SpliceRepresents(m, m', bs, k, n, [a, b]);
    SplicePos(bs, k, n, [a, b], k + 2);
  }

  /** Rewriting blocks k .. k+n into one block of the same extent. */
  lemma OneRepresents(m: seq<Word>, m': seq<Word>, bs: seq<Block>, k: nat, n: nat, a: Block)
    requires Represents(m, bs) && n > 0 && k + n <= |bs|
    requires Pos(bs, k) + HDR + a.size == Pos(bs, k + n)
    requires HeaderAt(m', Pos(bs, k), a)
    requires SameOutside(m, m', Pos(bs, k), Pos(bs, k + n))
    ensures Represents(m', Splice(bs, k, n, [a]))
    ensures |Splice(bs, k, n, [a])| == |bs| - n + 1
    ensures Pos(Splice(bs, k, n, [a]), k + 1) == Pos(bs, k + n)
  {
    PosOfTwo(a, a);
    assert ShownFrom(m', Pos(bs, k), [a], 0);
    SpliceRepresents(m, m', bs, k, n, [a]);
    SplicePos(bs, k, n, [a], k + 1);
  }

  /** Only two headers were written. */
  lemma TwoHeadersWritten(m: seq<Word>, m': seq<Word>, a: nat, b: nat)
    requires |m| == |m'| && a + HDR <= b && b + HDR <= |m|
    requires forall w :: 0 <= w < |m| && !(a <= w < a + HDR) && !(b <= w < b + HDR) ==> m'[w] == m[w]
    ensures SameOutside(m, m', a, b + HDR) && Kept(m, m', a + HDR, b)
  {
  }

  lemma SameOutsideTwice(m: seq<Word>, m1: seq<Word>, m2: seq<Word>, lo: nat, hi: nat, hi': nat)
    requires SameOutside(m, m1, lo, hi) && SameOutside(m1, m2, lo, hi') && hi <= hi'
    ensures SameOutside(m, m2, lo, hi')
  {
    SameOutsideWider(m, m1, lo, hi, hi');
  }

  /** Carving block k out of memory is MallocWritten on the block list. */
  lemma CarvedRepresents(m: seq<Word>, m': seq<Word>, bs: seq<Block>, k: nat, want: nat, stale: Stale)
    requires Represents(m, bs) && k < |bs| && Fits(bs[k], want)
    requires !Crops(bs[k], want) ==>
      && HeaderAt(m', Pos(bs, k), bs[k].(used := true))
      && SameOutside(m, m', Pos(bs, k), Pos(bs, k) + HDR)
    requires Crops(bs[k], want) ==>
      && HeaderAt(m', Pos(bs, k), Block(want, bs[k].prev, true, false))
      && HeaderAt(m', Pos(bs, k) + HDR + want, Remainder(bs[k], want, stale))
      && SameOutside(m, m', Pos(bs, k), Pos(bs, k) + HDR + want + HDR)
    ensures Represents(m', MallocWritten(bs, k, want, stale))
    ensures SameOutside(m, m', Pos(bs, k), Pos(bs, k + 1))
  {
    WalkStep(m, bs, k);
    if Crops(bs[k], want) {
      SameOutsideWider(m, m', Pos(bs, k), Pos(bs, k) + HDR + want + HDR, Pos(bs, k + 1));
      TwoRepresents(m, m', bs, k, 1, Block(want, bs[k].prev, true, false), Remainder(bs[k], want, stale));
    } else {
      UpdateRepresents(m, m', bs, k, bs[k].(used := true));
      SameOutsideWider(m, m', Pos(bs, k), Pos(bs, k) + HDR, Pos(bs, k + 1));
    }
  }

  /** m' is m but for the header of block i, so no payload word changed. */
  lemma HeaderWriteKeepsPayload(m: seq<Word>, m': seq<Word>, bs: seq<Block>, i: nat)
    requires i < |bs| && SameOutside(m, m', Pos(bs, i), Pos(bs, i) + HDR)
    ensures PayloadsKept(bs, m, m')
  {
    var lo, hi := Pos(bs, i), Pos(bs, i) + HDR;
    forall w | 0 <= w < |m| && !InHeader(bs, w)
      ensures m'[w] == m[w]
    {
      if w < lo {
        assert m'[w] == m'[..lo][w] && m[w] == m[..lo][w];
      } else {
        assert m'[w] == m'[hi..][w - hi] && m[w] == m[hi..][w - hi];
      }
    }
  }

  lemma MergeForwardPos(bs: seq<Block>, k: nat, i: nat)
    requires k < |bs| && i <= |MergeForward(bs, k)|
    ensures Pos(MergeForward(bs, k), i) == Pos(bs, if i <= k then i else i + |bs| - |MergeForward(bs, k)|)
  {
    var cs := MergeForward(bs, k);
    if |cs| < |bs| {
      PosOfTwo(cs[k], cs[k]);
      assert Pos(bs, k + 2) == Pos(bs, k + 1) + HDR + bs[k + 1].size;
      SplicePos(bs, k, 2, [cs[k]], i);
    } else {
      UpdatePos(bs, k, cs[k]);
    }
  }

  /** The first part of free is MergeForward on the block list. */
  lemma ForwardRepresents(m: seq<Word>, m1: seq<Word>, bs: seq<Block>, k: nat)
    requires Represents(m, bs) && k < |bs| && LastMarked(bs, k)
    requires SameOutside(m, m1, Pos(bs, k), Pos(bs, k) + HDR)
    requires HeaderAt(m1, Pos(bs, k), MergeForward(bs, k)[k])
    ensures Represents(m1, MergeForward(bs, k))
  {
    var cs := MergeForward(bs, k);
    if |cs| < |bs| {
      SwallowRepresents(m, m1, bs, k, cs[k]);
    } else {
      UpdateRepresents(m, m1, bs, k, cs[k]);
    }
  }

  /** Rewriting the header of block k so that it covers the next block as well. */
  lemma SwallowRepresents(m: seq<Word>, m1: seq<Word>, bs: seq<Block>, k: nat, b: Block)
    requires Represents(m, bs) && k + 1 < |bs| && b.size == bs[k].size + HDR + bs[k + 1].size
    requires SameOutside(m, m1, Pos(bs, k), Pos(bs, k) + HDR)
    requires HeaderAt(m1, Pos(bs, k), b)
    ensures Represents(m1, Splice(bs, k, 2, [b]))
  {
    WalkStep(m, bs, k);
    WalkStep(m, bs, k + 1);
    PosOfTwo(b, b);
    SameOutsideWider(m, m1, Pos(bs, k), Pos(bs, k) + HDR, Pos(bs, k + 2));
    assert ShownFrom(m1, Pos(bs, k), [b], 0);
    SpliceRepresents(m, m1, bs, k, 2, [b]);
  }

  /** The second part of free is MergeBackward on the block list; the swallowed header stays readable. */
  lemma BackwardRepresents(m: seq<Word>, m1: seq<Word>, bs: seq<Block>, k: nat)
    requires Represents(m, bs) && k < |bs|
    requires MergesBackward(bs, k) ==> SameOutside(m, m1, Pos(bs, k - 1), Pos(bs, k - 1) + HDR)
    requires MergesBackward(bs, k) ==> HeaderAt(m1, Pos(bs, k - 1), Joined(bs, k))
    requires !MergesBackward(bs, k) ==> m1 == m
    ensures Represents(m1, MergeBackward(bs, k))
    ensures HeaderAt(m1, Pos(bs, k), bs[k])
  {
    WalkStep(m, bs, k);
    if MergesBackward(bs, k) {
      WalkStep(m, bs, k - 1);
      var j := Joined(bs, k);
      SameOutsideWider(m, m1, Pos(bs, k - 1), Pos(bs, k - 1) + HDR, Pos(bs, k));
      ShownAfter(m, m1, bs, k, Pos(bs, k - 1), k);
      SwallowRepresents(m, m1, bs, k - 1, j);
    }
  }

  lemma MergeBackwardPos(bs: seq<Block>, k: nat)
    requires k < |bs|
    ensures After(bs, k) <= |MergeBackward(bs, k)|
    ensures |MergeBackward(bs, k)| - After(bs, k) == |bs| - (k + 1)
    ensures Pos(MergeBackward(bs, k), After(bs, k)) == Pos(bs, k) + HDR + bs[k].size
  {
    hide Pos, Splice;
    NextPos(bs, k);
    if MergesBackward(bs, k) {
      SwallowPos(bs, k - 1, Joined(bs, k));
    }
  }

  lemma NextPos(bs: seq<Block>, k: nat)
    requires k < |bs|
    ensures Pos(bs, k + 1) == Pos(bs, k) + HDR + bs[k].size
  {
  }

  /** The block that free tells the size of the freed one, in the list that both merges left and in the list before. */
  lemma SuccessorOfFreed(bs: seq<Block>, k: nat)
    requires k < |bs|
    ensures var cs := MergeForward(bs, k); var ds, i := MergeBackward(cs, k), After(cs, k);
      && |cs| <= |bs| && i <= |ds| && (i < |ds| <==> k + 1 < |cs|) && Pos(ds, i) == Pos(cs, k) + HDR + cs[k].size
      && (i < |ds| ==> Pos(ds, i) == Pos(bs, k + 1 + |bs| - |cs|))
  {
    var cs := MergeForward(bs, k);
    assert |cs| <= |bs|;
    hide Pos, MergeForward, MergeBackward, After;
    MergeBackwardPos(cs, k);
    NextPos(cs, k);
    if k + 1 < |cs| {
      MergeForwardPos(bs, k, k + 1);
    }
  }

  lemma PayloadsKeptTwice(bs: seq<Block>, m: seq<Word>, m1: seq<Word>, m2: seq<Word>)
    requires PayloadsKept(bs, m, m1) && PayloadsKept(bs, m1, m2)
    ensures PayloadsKept(bs, m, m2)
  {
  }

  lemma SwallowPos(bs: seq<Block>, k: nat, b: Block)
    requires k + 1 < |bs| && b.size == bs[k].size + HDR + bs[k + 1].size
    ensures |Splice(bs, k, 2, [b])| == |bs| - 1
    ensures Pos(Splice(bs, k, 2, [b]), k + 1) == Pos(bs, k + 1) + HDR + bs[k + 1].size
  {
    PosOfTwo(b, b);
    assert Pos(bs, k + 2) == Pos(bs, k + 1) + HDR + bs[k + 1].size;
    assert Pos(bs, k + 1) == Pos(bs, k) + HDR + bs[k].size;
    assert |Splice(bs, k, 2, [b])| == |bs| - 1;
    hide Splice;
    SplicePos(bs, k, 2, [b], k + 1);
  }

  /** After the forward merge the list still ends where it is marked to end, and block k's predecessor is where it
      was. */
  lemma ForwardKeepsSurroundings(bs: seq<Block>, k: nat, q: nat)
    requires Freeable(bs, k) && q <= k
    ensures var cs := MergeForward(bs, k);
      && Pos(cs, k) == Pos(bs, k) && Pos(cs, q) == Pos(bs, q) && (q < k ==> cs[q] == bs[q]) && cs[k].prev == bs[k].prev
  {
    MergeForwardPos(bs, k, k);
    MergeForwardPos(bs, k, q);
  }

  /** The block that the backward step of free lands on. */
  lemma PredecessorShown(m: seq<Word>, bs: seq<Block>, k: nat) returns (q: nat)
    requires Freeable(bs, k) && Represents(m, MergeForward(bs, k))
    ensures var cs, pblk := MergeForward(bs, k), Pos(bs, k);
      && q < |cs| && pblk == Pos(cs, k) && HeaderAt(m, pblk, cs[k]) && pblk + HDR + cs[k].size <= |m|
      && (cs[k].prev != 0 ==> HDR + cs[k].prev <= pblk && HeaderAt(m, pblk - HDR - cs[k].prev, cs[q]))
      && (MergesBackward(cs, k) <==> cs[k].prev != 0 && !cs[q].used)
      && (MergesBackward(cs, k) ==> q == k - 1 && cs[q].size == cs[k].prev && Pos(cs, q) == pblk - HDR - cs[k].prev)
  {
    var cs := MergeForward(bs, k);
    q := Predecessor(bs, k);
    ForwardKeepsSurroundings(bs, k, q);
    WalkStep(m, cs, k);
    WalkStep(m, cs, q);
  }

  lemma SliceKept(m: seq<Word>, m': seq<Word>, lo: nat, hi: nat, a: nat, b: nat)
    requires SameOutside(m, m', lo, hi) && a <= b <= |m| && (b <= lo || hi <= a)
    ensures Kept(m, m', a, b)
  {
    if b <= lo {
      SliceBefore(m, lo, a, b);
      SliceBefore(m', lo, a, b);
    } else {
      SliceAfter(m, hi, a, b);
      SliceAfter(m', hi, a, b);
    }
  }

  /** Rewriting blocks k .. j into two blocks in memory; the block after them is where it was. */
  lemma CroppedRepresents(m: seq<Word>, m1: seq<Word>, bs: seq<Block>, k: nat, j: nat, a: Block, b: Block)
    requires Represents(m, bs) && k < j <= |bs| && Pos(bs, k) + HDR + a.size + HDR + b.size == Pos(bs, j)
    requires HeaderAt(m1, Pos(bs, k), a) && HeaderAt(m1, Pos(bs, k) + HDR + a.size, b)
    requires SameOutside(m, m1, Pos(bs, k), Pos(bs, k) + HDR + a.size + HDR)
    ensures Represents(m1, Splice(bs, k, j - k, [a, b]))
    ensures |Splice(bs, k, j - k, [a, b])| == k + 2 + |bs| - j
    ensures Pos(Splice(bs, k, j - k, [a, b]), k + 2) == Pos(bs, j)
  {
    WalkStep(m, bs, j);
    SameOutsideWider(m, m1, Pos(bs, k), Pos(bs, k) + HDR + a.size + HDR, Pos(bs, j));
    TwoRepresents(m, m1, bs, k, j - k, a, b);
  }

  /** Storing a block's `prev_size`. */
  lemma PrevWriteRepresents(m: seq<Word>, m': seq<Word>, bs: seq<Block>, i: nat, v: Word)
    requires Represents(m, bs) && i < |bs| && Pos(bs, i) + PREV < |m| && m' == m[Pos(bs, i) + PREV := v]
    ensures Represents(m', bs[i := bs[i].(prev := v)])
  {
    WalkStep(m, bs, i);
    UpdateRepresents(m, m', bs, i, bs[i].(prev := v));
  }

  /** Rewriting blocks k .. j into one block and telling the next block its size. */
  lemma GrownRepresents(m: seq<Word>, m1: seq<Word>, m2: seq<Word>, bs: seq<Block>, k: nat, j: nat, a: Block, v: Word)
    requires Represents(m, bs) && k < j <= |bs| && Pos(bs, k) + HDR + a.size == Pos(bs, j)
    requires HeaderAt(m1, Pos(bs, k), a) && SameOutside(m, m1, Pos(bs, k), Pos(bs, k) + HDR)
    requires if j < |bs| then Pos(bs, j) + PREV < |m1| && v == a.size && m2 == m1[Pos(bs, j) + PREV := v] else m2 == m1
    ensures Represents(m2, SetPrev(Splice(bs, k, j - k, [a]), k + 1, a.size))
  {
    hide Represents, Splice, Pos, Extent, SameOutside;
    var cs := Splice(bs, k, j - k, [a]);
    WalkStep(m, bs, j);
    SameOutsideWider(m, m1, Pos(bs, k), Pos(bs, k) + HDR, Pos(bs, j));
    OneRepresents(m, m1, bs, k, j - k, a);
    WalkStep(m1, cs, k + 1);
    if k + 1 < |cs| {
      PrevWriteRepresents(m1, m2, cs, k + 1, v);
    }
  }

  lemma BackwardPayloadsKept(m: seq<Word>, m1: seq<Word>, bs: seq<Block>, k: nat)
    requires k < |bs|
    requires var cs := MergeForward(bs, k);
      if MergesBackward(cs, k) then SameOutside(m, m1, Pos(cs, k - 1), Pos(cs, k - 1) + HDR) else m1 == m
    ensures PayloadsKept(bs, m, m1)
  {
    if MergesBackward(MergeForward(bs, k), k) {
      MergeForwardPos(bs, k, k - 1);
      HeaderWriteKeepsPayload(m, m1, bs, k - 1);
    }
  }

  lemma SignatureAt(m: seq<Word>, bs: seq<Block>, k: nat)
    requires Represents(m, bs) && k < |bs|
    ensures Pos(bs, k) + HDR <= |m| && m[Pos(bs, k) + SIGNATURE] == BLOCK_SIG
  {
    WalkStep(m, bs, k);
  }

  /** Writing into the payload of block k moves no header. */
  lemma PayloadWriteRepresents(m: seq<Word>, m': seq<Word>, bs: seq<Block>, k: nat)
    requires Represents(m, bs) && k < |bs| && SameOutside(m, m', Pos(bs, k) + HDR, Pos(bs, k + 1))
    ensures Represents(m', bs)
  {
    WalkStep(m, bs, k);
    var lo := Pos(bs, k);
    SliceBefore(m, lo + HDR, lo, lo + HDR);
    SliceBefore(m', lo + HDR, lo, lo + HDR);
    HeaderKept(m, m', lo, bs[k]);
    assert m[..lo] == m[..lo + HDR][..lo] && m'[..lo] == m'[..lo + HDR][..lo];
    OneRepresents(m, m', bs, k, 1, bs[k]);
    assert Splice(bs, k, 1, [bs[k]]) == bs;
  }

  /** The words of a payload lie in no header. */
  lemma PayloadOutsideHeaders(bs: seq<Block>, k: nat, w: nat)
    requires k < |bs| && Pos(bs, k) + HDR <= w < Pos(bs, k + 1)
    ensures !InHeader(bs, w)
  {
    forall i | 0 <= i < |bs|
      ensures !(Pos(bs, i) <= w < Pos(bs, i) + HDR)
    {
      if i < k {
        PosGap(bs, i, k);
      } else if k + 1 < i {
        PosGap(bs, k + 1, i);
      }
    }
  }

  /** Rewriting headers keeps payloads. */
  lemma PayloadSliceKept(m: seq<Word>, m': seq<Word>, bs: seq<Block>, k: nat, n: nat)
    requires PayloadsKept(bs, m, m') && k < |bs| && n <= bs[k].size && Pos(bs, k + 1) <= |m|
    ensures m'[Pos(bs, k) + HDR..Pos(bs, k) + HDR + n] == m[Pos(bs, k) + HDR..Pos(bs, k) + HDR + n]
  {
    var p := Pos(bs, k) + HDR;
    forall w | p <= w < p + n
      ensures m'[w] == m[w]
    {
      PayloadOutsideHeaders(bs, k, w);
    }
  }

  /** Some used block's payload starts at word p. */
  ghost predicate IsLive(bs: seq<Block>, p: nat) {
    exists k :: 0 <= k < |bs| && bs[k].used && Pos(bs, k) + HDR == p
  }

  ghost function LiveIndex(bs: seq<Block>, p: nat): (k: nat)
    requires IsLive(bs, p)
    ensures k < |bs| && bs[k].used && Pos(bs, k) + HDR == p
  {
    var k :| 0 <= k < |bs| && bs[k].used && Pos(bs, k) + HDR == p;
    k
  }

  lemma SamePosSameIndex(bs: seq<Block>, i: nat, j: nat)
    requires i < |bs| && j < |bs| && Pos(bs, i) == Pos(bs, j)
    ensures i == j
  {
    if i < j {
      PosGap(bs, i, j);
    } else if j < i {
      PosGap(bs, j, i);
    }
  }

  lemma LiveIndexIs(bs: seq<Block>, p: nat, k: nat)
    requires k < |bs| && bs[k].used && Pos(bs, k) + HDR == p
    ensures IsLive(bs, p) && LiveIndex(bs, p) == k
  {
    SamePosSameIndex(bs, LiveIndex(bs, p), k);
  }

  lemma NotLive(bs: seq<Block>, p: nat, k: nat)
    requires k < |bs| && !bs[k].used && Pos(bs, k) + HDR == p
    ensures !IsLive(bs, p)
  {
    forall i | 0 <= i < |bs| && Pos(bs, i) + HDR == p
      ensures !bs[i].used
    {
      SamePosSameIndex(bs, i, k);
    }
  }

  /** The block list after a resize. */
  ghost function ResizeBlocks(bs: seq<Block>, want: nat, how: ReallocOutcome): seq<Block> {
    match how
    case Shrunk(k) => if k < |bs| && want < bs[k].size then Shrink(bs, k, want) else bs
    case Grown(k) => if k < |bs| && CanGrow(bs, k, want) then GrowDesign(bs, k, want) else bs
    case Moved(k, k2, stale) =>
      if k2 < |bs| && Fits(bs[k2], want) && Shifted(bs, k, k2, want) < |MallocWritten(bs, k2, want, stale)|
      then FreeWritten(MallocWritten(bs, k2, want, stale), Shifted(bs, k, k2, want)) else bs
    case _ => bs
  }

  /** The block that free's backward step from block k looks at (k itself if it takes none). */
  ghost function Predecessor(bs: seq<Block>, k: nat): (q: nat)
    requires Freeable(bs, k)
    ensures q <= k
    ensures bs[k].prev != 0 ==> q < k && LeadsTo(bs, k, q) && (bs[q].used || (q == k - 1 && bs[q].size == bs[k].prev))
  {
    if bs[k].prev == 0 then k
    else if k > 0 && bs[k].prev == bs[k - 1].size then k - 1
    else
      var q :| 0 <= q < k && LeadsTo(bs, k, q) && bs[q].used;
      q
  }
}
