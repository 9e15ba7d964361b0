/** Whole histories of malloc, free and realloc calls (virgoos/src/base/memman.c:59-336) on the block lists of
    HeapBlocks. */
module HeapRuns {
  import opened HeapBlocks
  import opened HeapDiscipline
  import opened HeapLaws

  /** One call with the choices it made: the block malloc picked and the stale flag bits it met. */
  datatype Event =
    | Malloc(k: nat, want: nat, stale: Stale)
    | Free(k: nat)
    | Shrinking(k: nat, want: nat)
    | Growing(k: nat, want: nat)
    | Moving(k: nat, k2: nat, want: nat, stale: Stale)

  /** The call can happen: malloc picks a block that fits, free and realloc get a live block. */
  ghost predicate Enabled(bs: seq<Block>, e: Event) {
    match e
    case Malloc(k, want, _) => k < |bs| && Fits(bs[k], want)
    case Free(k) => k < |bs| && bs[k].used
    case Shrinking(k, want) => k < |bs| && bs[k].used && want < bs[k].size
    case Growing(k, want) => k < |bs| && bs[k].used && want > bs[k].size && CanGrow(bs, k, want)
    case Moving(k, k2, want, stale) =>
      && k < |bs| && bs[k].used && k2 < |bs| && Fits(bs[k2], want)
      && Shifted(bs, k, k2, want) < |MallocDesign(bs, k2, want)|
  }

  /** The block list after the call, as the header comment of the allocator intends it. */
  ghost function Design(bs: seq<Block>, e: Event): seq<Block>
    requires Enabled(bs, e)
  {
    match e
    case Malloc(k, want, _) => MallocDesign(bs, k, want)
    case Free(k) => FreeDesign(bs, k)
    case Shrinking(k, want) => Shrink(bs, k, want)
    case Growing(k, want) => GrowDesign(bs, k, want)
    case Moving(k, k2, want, _) => FreeDesign(MallocDesign(bs, k2, want), Shifted(bs, k, k2, want))
  }

  /** What the header walk shows: a list of blocks, or nothing sensible. */
  datatype Walk = Tiled(blocks: seq<Block>) | Broken

  /** What the walk shows after the call as the code performs it. */
  ghost function Written(bs: seq<Block>, e: Event): Walk
    requires Enabled(bs, e)
  {
    match e
    case Malloc(k, want, stale) => Tiled(MallocWritten(bs, k, want, stale))
    case Free(k) => Tiled(FreeWritten(bs, k))
    case Shrinking(k, want) => Tiled(Shrink(bs, k, want))
    case Growing(k, want) => if GrowKeeps(bs, k, want) then Tiled(GrowDesign(bs, k, want)) else Broken
    case Moving(k, k2, want, stale) =>
      if Shifted(bs, k, k2, want) < |MallocWritten(bs, k2, want, stale)|
      then Tiled(FreeWritten(MallocWritten(bs, k2, want, stale), Shifted(bs, k, k2, want)))
      else Broken
  }

  /** The code does to the block list what Written says: the last mark of the block concerned is right, and a freed
      block can be freed without misreading `prev_size`. */
  ghost predicate Readable(bs: seq<Block>, e: Event)
    requires Enabled(bs, e)
  {
    match e
    case Malloc(_, _, _) => true
    case Free(k) => Freeable(bs, k)
    case Shrinking(k, _) => LastMarked(bs, k)
    case Growing(k, _) => LastMarked(bs, k)
    case Moving(k, k2, want, stale) => Freeable(MallocWritten(bs, k2, want, stale), Shifted(bs, k, k2, want))
  }

  lemma WellFormedReadable(bs: seq<Block>, e: Event)
    requires WellFormed(bs) && Enabled(bs, e)
    ensures Readable(bs, e)
  {
    match e
    case Malloc(_, _, _) =>
    case Free(k) => WellFormedFreeable(bs, k);
    case Shrinking(k, _) =>
    case Growing(_, _) =>
    case Moving(k, k2, want, stale) => MallocLeavesFreeable(bs, k, k2, want, stale);
  }

  /** The guards under which the code does what was intended; each can be read off the headers before the call. */
  ghost predicate Harmless(bs: seq<Block>, e: Event)
    requires Enabled(bs, e)
  {
    match e
    case Malloc(k, want, _) => MallocKeeps(bs[k], want)
    case Free(k) => FreeKeeps(bs, k)
    case Shrinking(_, _) => true
    case Growing(k, want) => GrowKeeps(bs, k, want)
    case Moving(k, k2, want, _) =>
      MallocKeeps(bs[k2], want) && FreeKeeps(MallocDesign(bs, k2, want), Shifted(bs, k, k2, want))
  }

  lemma SameLength(bs: seq<Block>, k2: nat, want: nat, stale: Stale)
    requires k2 < |bs| && Fits(bs[k2], want)
    ensures |MallocWritten(bs, k2, want, stale)| == |MallocDesign(bs, k2, want)|
  {
  }

  /** Every call keeps the discipline and the arena, by design. */
  lemma DesignKeeps(bs: seq<Block>, e: Event)
    requires WellFormed(bs) && Enabled(bs, e)
    ensures WellFormed(Design(bs, e)) && Extent(Design(bs, e)) == Extent(bs)
  {
    match e
    case Malloc(k, want, _) =>
      MallocDesignKeeps(bs, k, want);
      MallocDesignExtent(bs, k, want);
    case Free(k) =>
      FreeDesignKeeps(bs, k);
      FreeDesignExtent(bs, k);
    case Shrinking(k, want) =>
      ShrinkKeeps(bs, k, want);
      ShrinkExtent(bs, k, want);
    case Growing(k, want) =>
      GrowDesignKeeps(bs, k, want);
      GrowDesignExtent(bs, k, want);
    case Moving(k, k2, want, _) =>
      MallocDesignKeeps(bs, k2, want);
      MallocDesignExtent(bs, k2, want);
      FreeDesignKeeps(MallocDesign(bs, k2, want), Shifted(bs, k, k2, want));
      FreeDesignExtent(MallocDesign(bs, k2, want), Shifted(bs, k, k2, want));
  }

  /** One call as written keeps the discipline exactly under its guard, and then does what was intended. */
  lemma WrittenExact(bs: seq<Block>, e: Event)
    requires WellFormed(bs) && Enabled(bs, e)
    ensures (Written(bs, e).Tiled? && WellFormed(Written(bs, e).blocks)) <==> Harmless(bs, e)
    ensures Harmless(bs, e) ==> Written(bs, e) == Tiled(Design(bs, e))
  {
    match e
    case Malloc(k, want, stale) =>
      MallocWrittenExact(bs, k, want, stale);
    case Free(k) =>
      FreeWrittenExact(bs, k);
    case Shrinking(k, want) =>
      ShrinkKeeps(bs, k, want);
    case Growing(k, want) =>
      GrowDesignKeeps(bs, k, want);
    case Moving(k, k2, want, stale) =>
      var k' := Shifted(bs, k, k2, want);
      SameLength(bs, k2, want, stale);
      MoveExact(bs, k, k2, want, stale);
      MallocWrittenExact(bs, k2, want, stale);
      if MallocKeeps(bs[k2], want) {
        FreeWrittenExact(MallocDesign(bs, k2, want), k');
      }
  }

  // ---------------------------------------------------------------- histories

  /** Every call of the history can happen in turn and does what was intended. */
  ghost predicate Possible(bs: seq<Block>, es: seq<Event>)
    decreases |es|
  {
    es == [] || (Enabled(bs, es[0]) && Possible(Design(bs, es[0]), es[1..]))
  }

  ghost function After(bs: seq<Block>, es: seq<Event>): seq<Block>
    requires Possible(bs, es)
    decreases |es|
  {
    if es == [] then bs else After(Design(bs, es[0]), es[1..])
  }

  /** init_memman's heap of n words. */
  function Fresh(n: nat): seq<Block>
    requires n >= HDR
  {
    [Block(n - HDR, 0, false, true)]
  }

  lemma FreshWellFormed(n: nat)
    requires n >= HDR
    ensures WellFormed(Fresh(n)) && Coalesced(Fresh(n)) && Extent(Fresh(n)) == n
  {
    PosOfTwo(Fresh(n)[0], Fresh(n)[0]);
  }

  /** In every state that an intended history reaches, the headers tile the arena and obey the discipline. */
  lemma {:induction false} DesignRunKeeps(bs: seq<Block>, es: seq<Event>)
    requires WellFormed(bs) && Possible(bs, es)
    ensures WellFormed(After(bs, es)) && Extent(After(bs, es)) == Extent(bs)
    decreases |es|
  {
    if es != [] {
      DesignKeeps(bs, es[0]);
      DesignRunKeeps(Design(bs, es[0]), es[1..]);
    }
  }

  /** As long as the code shows a list of blocks: every call so far found and left the discipline intact. */
  ghost predicate StaysWellFormed(bs: seq<Block>, es: seq<Event>)
    decreases |es|
  {
    && WellFormed(bs)
    && (es == [] ||
        (Enabled(bs, es[0]) && Written(bs, es[0]).Tiled? && StaysWellFormed(Written(bs, es[0]).blocks, es[1..])))
  }

  /** Every call of the intended history is harmless. */
  ghost predicate AllHarmless(bs: seq<Block>, es: seq<Event>)
    requires Possible(bs, es)
    decreases |es|
  {
    es == [] || (Harmless(bs, es[0]) && AllHarmless(Design(bs, es[0]), es[1..]))
  }

  /** Every call of the history can happen in turn in the heap that the code made of the calls before. */
  ghost predicate PossibleWritten(bs: seq<Block>, es: seq<Event>)
    decreases |es|
  {
    es == [] ||
    (&& Enabled(bs, es[0]) && Readable(bs, es[0])
     && if Written(bs, es[0]).Tiled? then PossibleWritten(Written(bs, es[0]).blocks, es[1..]) else |es| == 1)
  }

  /** What the header walk shows after a history of the code. */
  ghost function AfterWritten(bs: seq<Block>, es: seq<Event>): Walk
    requires PossibleWritten(bs, es)
    decreases |es|
  {
    if es == [] then Tiled(bs)
    else if Written(bs, es[0]).Tiled? then AfterWritten(Written(bs, es[0]).blocks, es[1..])
    else Broken
  }

  /** The code keeps the discipline in every state of a history exactly when no call of it splits a block that has a
      successor, merges backward with a successor left over, or grows with a surplus too small for a block;
      the heap is then the intended one throughout. */
  lemma {:induction false} WrittenRunExact(bs: seq<Block>, es: seq<Event>)
    requires WellFormed(bs) && Possible(bs, es)
    ensures StaysWellFormed(bs, es) <==> AllHarmless(bs, es)
    ensures AllHarmless(bs, es) ==> PossibleWritten(bs, es) && AfterWritten(bs, es) == Tiled(After(bs, es))
    decreases |es|
  {
    if es != [] {
      WrittenExact(bs, es[0]);
      if Harmless(bs, es[0]) {
        WellFormedReadable(bs, es[0]);
        DesignKeeps(bs, es[0]);
        WrittenRunExact(Design(bs, es[0]), es[1..]);
      }
    }
  }

  /** A history of the code that never shows a breach is an intended one. */
  lemma {:induction false} StayingIsIntended(bs: seq<Block>, es: seq<Event>)
    requires StaysWellFormed(bs, es)
    ensures Possible(bs, es) && AllHarmless(bs, es)
    decreases |es|
  {
    if es != [] {
      WrittenExact(bs, es[0]);
      StayingIsIntended(Design(bs, es[0]), es[1..]);
    }
  }

  // ---------------------------------------------------------------- malloc and free alone

  /** The history only mallocs non-empty blocks and frees. */
  ghost predicate MallocsAndFrees(es: seq<Event>) {
    forall e <- es :: e.Free? || (e.Malloc? && e.want > 0)
  }

  /** In every state that such a history reaches no two adjacent blocks are both free. */
  lemma {:induction false} NeverFragmented(bs: seq<Block>, es: seq<Event>)
    requires WellFormed(bs) && Coalesced(bs) && NoEmptyBlock(bs)
    requires Possible(bs, es) && MallocsAndFrees(es)
    ensures Coalesced(After(bs, es)) && NoEmptyBlock(After(bs, es))
    decreases |es|
  {
    if es != [] {
      DesignKeeps(bs, es[0]);
      match es[0] {
        case Malloc(k, want, _) =>
          MallocDesignCoalesced(bs, k, want);
          MallocDesignNoEmptyBlock(bs, k, want);
        case Free(k) =>
          FreeDesignCoalesces(bs, k);
          FreeDesignNoEmptyBlock(bs, k);
      }
      NeverFragmented(Design(bs, es[0]), es[1..]);
    }
  }

  /** A heap without adjacent free blocks in which everything is free is the heap that init_memman built. */
  lemma AllFreeIsFresh(bs: seq<Block>)
    requires WellFormed(bs) && Coalesced(bs)
    requires forall b <- bs :: !b.used
    ensures bs == Fresh(Extent(bs))
  {
    assert |bs| > 1 ==> bs[0] in bs && bs[1] in bs && (bs[0].used || bs[1].used);
    assert Linked(bs, 0) && LastMarked(bs, 0);
    PosOfTwo(bs[0], bs[0]);
    assert bs == [bs[0]];
  }

  /** A history of mallocs and frees that leaves nothing allocated returns the heap to its initial state. */
  lemma FreeingEverythingRestores(n: nat, es: seq<Event>)
    requires n > HDR && Possible(Fresh(n), es) && MallocsAndFrees(es)
    requires forall b <- After(Fresh(n), es) :: !b.used
    ensures After(Fresh(n), es) == Fresh(n)
  {
    FreshWellFormed(n);
    NeverFragmented(Fresh(n), es);
    DesignRunKeeps(Fresh(n), es);
    AllFreeIsFresh(After(Fresh(n), es));
  }

  /** Both hold of the code as long as it keeps the discipline. */
  lemma CodeNeverFragmented(bs: seq<Block>, es: seq<Event>)
    requires Coalesced(bs) && NoEmptyBlock(bs) && StaysWellFormed(bs, es) && MallocsAndFrees(es)
    ensures PossibleWritten(bs, es)
    ensures var w := AfterWritten(bs, es); w.Tiled? && Coalesced(w.blocks) && NoEmptyBlock(w.blocks)
  {
    StayingIsIntended(bs, es);
    WrittenRunExact(bs, es);
    NeverFragmented(bs, es);
  }

  lemma CodeFreeingEverythingRestores(n: nat, es: seq<Event>)
    requires n > HDR && StaysWellFormed(Fresh(n), es) && MallocsAndFrees(es)
    ensures PossibleWritten(Fresh(n), es) && AfterWritten(Fresh(n), es).Tiled?
    ensures (forall b <- AfterWritten(Fresh(n), es).blocks :: !b.used) ==> AfterWritten(Fresh(n), es) == Tiled(Fresh(n))
  {
    StayingIsIntended(Fresh(n), es);
    WrittenRunExact(Fresh(n), es);
    if forall b <- After(Fresh(n), es) :: !b.used {
      FreeingEverythingRestores(n, es);
    }
  }

  /** Payloads of different blocks do not overlap and stay inside the arena. */
  lemma PayloadsDisjoint(bs: seq<Block>, i: nat, j: nat)
    requires i < |bs| && j < |bs| && i != j
    ensures Pos(bs, i) + HDR + bs[i].size <= Extent(bs)
    ensures Pos(bs, i) + HDR + bs[i].size <= Pos(bs, j) || Pos(bs, j) + HDR + bs[j].size <= Pos(bs, i)
  {
    PosGap(bs, i, |bs|);
    if i < j {
      PosGap(bs, i, j);
    } else {
      PosGap(bs, j, i);
    }
  }

  /** Block k of the list is the one that the call frees or resizes. */
  predicate IsAbout(e: Event, k: nat) {
    !e.Malloc? && e.k == k
  }

  /** A call leaves every block in use alone but the one it is about: it stays in use, where it is and as large as it
      is. */
  lemma OthersStayLive(bs: seq<Block>, e: Event, i: nat)
    requires Enabled(bs, e) && Written(bs, e).Tiled? && i < |bs| && bs[i].used && !IsAbout(e, i)
    ensures LiveAt(Written(bs, e).blocks, Pos(bs, i), bs[i].size)
  {
    LiveIs(bs, i, bs[i].size);
    match e
    case Malloc(k, want, stale) =>
      hide MallocWritten, LiveAt, Pos;
      MallocLive(bs, k, want, stale);
    case Free(k) =>
      hide FreeWritten, LiveAt;
      OtherPlace(bs, i, k);
      FreeWrittenLive(bs, k);
    case Shrinking(k, want) =>
      hide Shrink, LiveAt;
      OtherPlace(bs, i, k);
      ShrinkLive(bs, k, want);
    case Growing(k, want) =>
      hide GrowDesign, CanGrow, LiveAt;
      OtherPlace(bs, i, k);
      var size := GrowLive(bs, k, want);
    case Moving(k, k2, want, stale) =>
      hide MallocWritten, FreeWritten, LiveAt;
      var cs := MallocWritten(bs, k2, want, stale);
      OtherPlace(bs, i, k);
      MallocLive(bs, k2, want, stale);
      MallocWrittenPos(bs, k2, want, stale, k);
      FreeWrittenLive(cs, Shifted(bs, k, k2, want));
  }

  lemma OtherPlace(bs: seq<Block>, i: nat, k: nat)
    requires i < |bs| && k < |bs| && i != k
    ensures Pos(bs, i) != Pos(bs, k)
  {
    if Pos(bs, i) == Pos(bs, k) {
      SamePosition(bs, i, k);
    }
  }

  /** A call that grants room leaves a block in use there that has it. */
  lemma RoomIsGranted(bs: seq<Block>, e: Event) returns (size: nat)
    requires Enabled(bs, e) && Written(bs, e).Tiled? && !e.Free?
    ensures size >= e.want
    ensures LiveAt(Written(bs, e).blocks, Pos(bs, if e.Moving? then e.k2 else e.k), size)
  {
    match e
    case Malloc(k, want, stale) =>
      hide MallocWritten, LiveAt, Pos;
      MallocLive(bs, k, want, stale);
      size := if bs[k].size >= want + HDR + ALIGN then want else bs[k].size;
    case Shrinking(k, want) =>
      hide Shrink, LiveAt, Pos;
      ShrinkLive(bs, k, want);
      size := if bs[k].size - want > HDR then want else bs[k].size;
    case Growing(k, want) =>
      hide GrowDesign, CanGrow, LiveAt, Pos;
      size := GrowLive(bs, k, want);
    case Moving(k, k2, want, stale) =>
      hide MallocWritten, FreeWritten, LiveAt, Pos;
      var cs := MallocWritten(bs, k2, want, stale);
      MallocLive(bs, k2, want, stale);
      OtherPlace(bs, k2, k);
      MallocWrittenPos(bs, k2, want, stale, k);
      FreeWrittenLive(cs, Shifted(bs, k, k2, want));
      size := if bs[k2].size >= want + HDR + ALIGN then want else bs[k2].size;
  }

  // ---------------------------------------------------------------- concrete failures

  /** One call of an intended history. */
  ghost predicate Step(bs: seq<Block>, e: Event, r: seq<Block>) {
    Enabled(bs, e) && Design(bs, e) == r
  }

  /** The intended history es passes these heaps. */
  ghost predicate Passes(heaps: seq<seq<Block>>, es: seq<Event>) {
    |heaps| == |es| + 1 && forall i :: 0 <= i < |es| ==> Step(heaps[i], es[i], heaps[i + 1])
  }

  ghost predicate HarmlessIn(bs: seq<Block>, e: Event) {
    Enabled(bs, e) && Harmless(bs, e)
  }

  lemma {:induction false} PassesPossible(heaps: seq<seq<Block>>, es: seq<Event>)
    requires Passes(heaps, es)
    ensures Possible(heaps[0], es) && After(heaps[0], es) == heaps[|es|]
    ensures AllHarmless(heaps[0], es) <==> forall i :: 0 <= i < |es| ==> HarmlessIn(heaps[i], es[i])
    decreases |es|
  {
    hide Enabled, Design, Harmless;
    if es != [] {
      assert Step(heaps[0], es[0], heaps[1]);
      var hs, rest := heaps[1..], es[1..];
      PassesPossible(hs, rest);
      forall i | 0 < i < |es|
        ensures HarmlessIn(heaps[i], es[i]) <==> HarmlessIn(hs[i - 1], rest[i - 1])
      {
      }
    }
  }

  /** A history from a well-formed heap, the last call of which breaks the discipline. */
  lemma Breaks(heaps: seq<seq<Block>>, init: seq<Event>, e: Event)
    requires Passes(heaps, init) && WellFormed(heaps[0])
    requires Enabled(heaps[|init|], e) && !Harmless(heaps[|init|], e)
    ensures Possible(heaps[0], init + [e]) && !StaysWellFormed(heaps[0], init + [e])
  {
    hide Enabled, Design, Harmless, WellFormed;
    var n, es := |init|, init + [e];
    var hs := heaps + [Design(heaps[n], e)];
    forall i | 0 <= i < |es|
      ensures Step(hs[i], es[i], hs[i + 1])
    {
      assert i < n ==> Step(heaps[i], init[i], heaps[i + 1]);
    }
    assert !HarmlessIn(hs[n], es[n]);
    PassesPossible(hs, es);
    WrittenRunExact(hs[0], es);
  }

  lemma FourSteps(b0: seq<Block>, e0: Event, b1: seq<Block>, e1: Event, b2: seq<Block>, e2: Event, b3: seq<Block>,
                  e3: Event, b4: seq<Block>)
    requires Step(b0, e0, b1) && Step(b1, e1, b2) && Step(b2, e2, b3) && Step(b3, e3, b4)
    ensures Passes([b0, b1, b2, b3, b4], [e0, e1, e2, e3])
  {
    hide Step;
  }

  lemma ThreeSteps(b0: seq<Block>, e0: Event, b1: seq<Block>, e1: Event, b2: seq<Block>, e2: Event, b3: seq<Block>)
    requires Step(b0, e0, b1) && Step(b1, e1, b2) && Step(b2, e2, b3)
    ensures Passes([b0, b1, b2, b3], [e0, e1, e2])
  {
    hide Step;
  }

  /** malloc on the last block, which is free and large enough to be split. */
  lemma SplitsLast(init: seq<Block>, size: nat, prev: nat, want: nat, s: Stale)
    requires size >= want + HDR + ALIGN
    ensures var bs := init + [Block(size, prev, false, true)];
      Step(bs, Malloc(|init|, want, s),
           init + [Block(want, prev, true, false), Block(size - want - HDR, want, false, true)])
  {
    var bs := init + [Block(size, prev, false, true)];
    var two := [Block(want, prev, true, false), Block(size - want - HDR, want, false, true)];
    assert Splice(bs, |init|, 1, two) == init + two;
  }

  /** malloc on the last block, which is free and fits exactly. */
  lemma TakesLast(init: seq<Block>, size: nat, prev: nat, s: Stale)
    ensures Step(init + [Block(size, prev, false, true)], Malloc(|init|, size, s),
                 init + [Block(size, prev, true, true)])
  {
    var bs := init + [Block(size, prev, false, true)];
    assert bs[|init| := Block(size, prev, true, true)] == init + [Block(size, prev, true, true)];
  }

  /** free of a block that merges with neither neighbour and is not the last one. */
  lemma FreesAlone(init: seq<Block>, b: Block, next: Block, rest: seq<Block>)
    requires b.used && next.used && !b.last && next.prev == b.size
    requires b.prev == 0 || (init != [] && init[|init| - 1].used)
    ensures Step(init + [b, next] + rest, Free(|init|), init + [b.(used := false), next] + rest)
  {
    var bs, cs := init + [b, next] + rest, init + [b.(used := false), next] + rest;
    assert bs[|init|] == b && bs[|init| + 1] == next;
    assert MergeForward(bs, |init|) == cs;
    assert !MergesBackward(cs, |init|);
    assert SetPrev(cs, |init| + 1, b.size) == cs;
  }

  /** The heaps that the history of MallocFailure passes before its last call. */
  function SplitHeap(i: nat): seq<Block> {
    var a, b := Block(32, 0, true, false), Block(8, 32, true, true);
    if i == 0 then Fresh(56) else if i == 1 then [a, b.(used := false)] else if i == 2 then [a, b]
    else [a.(used := false), b]
  }

  lemma SplitStep(s: Stale)
    ensures Step(SplitHeap(0), Malloc(0, 32, s), SplitHeap(1)) && Step(SplitHeap(1), Malloc(1, 8, s), SplitHeap(2))
    ensures Step(SplitHeap(2), Free(0), SplitHeap(3))
  {
    var a, b := Block(32, 0, true, false), Block(8, 32, true, true);
    assert SplitHeap(0) == [] + [Block(48, 0, false, true)] && SplitHeap(1) == [] + [a, Block(8, 32, false, true)];
    assert SplitHeap(1) == [a] + [Block(8, 32, false, true)] && SplitHeap(2) == [a] + [b];
    assert SplitHeap(2) == [] + [a, b] + [] && SplitHeap(3) == [] + [a.(used := false), b] + [];
    hide *;
    SplitsLast([], 48, 0, 32, s);
    TakesLast([a], 8, 32, s);
    FreesAlone([], a, b, []);
  }

  lemma InnerSplitHarms(s: Stale)
    ensures Enabled(SplitHeap(3), Malloc(0, 8, s)) && !Harmless(SplitHeap(3), Malloc(0, 8, s))
  {
  }

  /** malloc 128 bytes, malloc 32, free the first, malloc 32 again: the last call breaks the discipline,
      whatever stale bits it meets. */
  lemma MallocFailure(s: Stale)
    ensures var es := [Malloc(0, 32, s), Malloc(1, 8, s), Free(0), Malloc(0, 8, s)];
      Possible(Fresh(56), es) && !StaysWellFormed(Fresh(56), es)
  {
    var init := [Malloc(0, 32, s), Malloc(1, 8, s), Free(0)];
    FreshWellFormed(56);
    SplitStep(s);
    InnerSplitHarms(s);
    assert SplitHeap(0) == Fresh(56);
    assert init + [Malloc(0, 8, s)] == [Malloc(0, 32, s), Malloc(1, 8, s), Free(0), Malloc(0, 8, s)];
    hide *;
    ThreeSteps(SplitHeap(0), init[0], SplitHeap(1), init[1], SplitHeap(2), init[2], SplitHeap(3));
    Breaks([SplitHeap(0), SplitHeap(1), SplitHeap(2), SplitHeap(3)], init, Malloc(0, 8, s));
  }

  /** The heaps that the history of FreeFailure passes before its last call. */
  function MergeHeap(i: nat): seq<Block> {
    var a, b, rest := Block(8, 0, true, false), Block(8, 8, true, false), Block(24, 8, false, true);
    if i == 0 then Fresh(80) else if i == 1 then [a, Block(56, 8, false, true)]
    else if i == 2 then [a, b, Block(40, 8, false, true)] else if i == 3 then [a, b, b, rest]
    else [a.(used := false), b, b, rest]
  }

  lemma MergeStep(s: Stale)
    ensures Step(MergeHeap(0), Malloc(0, 8, s), MergeHeap(1)) && Step(MergeHeap(1), Malloc(1, 8, s), MergeHeap(2))
    ensures Step(MergeHeap(2), Malloc(2, 8, s), MergeHeap(3)) && Step(MergeHeap(3), Free(0), MergeHeap(4))
  {
    var a, b, rest := Block(8, 0, true, false), Block(8, 8, true, false), Block(24, 8, false, true);
    assert MergeHeap(0) == [] + [Block(72, 0, false, true)] && MergeHeap(1) == [] + [a, Block(56, 8, false, true)];
    assert MergeHeap(1) == [a] + [Block(56, 8, false, true)] && MergeHeap(2) == [a] + [b, Block(40, 8, false, true)];
    assert MergeHeap(2) == [a, b] + [Block(40, 8, false, true)] && MergeHeap(3) == [a, b] + [b, rest];
    assert MergeHeap(3) == [] + [a, b] + [b, rest] && MergeHeap(4) == [] + [a.(used := false), b] + [b, rest];
    hide *;
    SplitsLast([], 72, 0, 8, s);
    SplitsLast([a], 56, 8, 8, s);
    SplitsLast([a, b], 40, 8, 8, s);
    FreesAlone([], a, b, [b, rest]);
  }

  lemma BackwardMergeHarms()
    ensures Enabled(MergeHeap(4), Free(1)) && !Harmless(MergeHeap(4), Free(1))
  {
  }

  /** Three mallocs of 32 bytes, then the first two blocks freed: the second free merges backward and leaves a
      successor with the wrong `prev_size`. */
  lemma FreeFailure(s: Stale)
    ensures var es := [Malloc(0, 8, s), Malloc(1, 8, s), Malloc(2, 8, s), Free(0), Free(1)];
      Possible(Fresh(80), es) && !StaysWellFormed(Fresh(80), es)
  {
    var init := [Malloc(0, 8, s), Malloc(1, 8, s), Malloc(2, 8, s), Free(0)];
    FreshWellFormed(80);
    MergeStep(s);
    BackwardMergeHarms();
    assert MergeHeap(0) == Fresh(80);
    assert init + [Free(1)] == [Malloc(0, 8, s), Malloc(1, 8, s), Malloc(2, 8, s), Free(0), Free(1)];
    hide *;
    FourSteps(MergeHeap(0), init[0], MergeHeap(1), init[1], MergeHeap(2), init[2], MergeHeap(3), init[3], MergeHeap(4));
    Breaks([MergeHeap(0), MergeHeap(1), MergeHeap(2), MergeHeap(3), MergeHeap(4)], init, Free(1));
  }

  /** The heaps that the history of GrowthFailure passes before its last call. */
  function GrowthHeap(i: nat): seq<Block> {
    var a, b, c := Block(8, 0, true, false), Block(8, 8, true, false), Block(24, 8, true, true);
    if i == 0 then Fresh(64) else if i == 1 then [a, Block(40, 8, false, true)]
    else if i == 2 then [a, b, c.(used := false)] else if i == 3 then [a, b, c] else [a, b.(used := false), c]
  }

  lemma GrowthStep(s: Stale)
    ensures Step(GrowthHeap(0), Malloc(0, 8, s), GrowthHeap(1)) && Step(GrowthHeap(1), Malloc(1, 8, s), GrowthHeap(2))
    ensures Step(GrowthHeap(2), Malloc(2, 24, s), GrowthHeap(3)) && Step(GrowthHeap(3), Free(1), GrowthHeap(4))
  {
    var a, b, c := Block(8, 0, true, false), Block(8, 8, true, false), Block(24, 8, true, true);
    assert GrowthHeap(0) == [] + [Block(56, 0, false, true)] && GrowthHeap(1) == [] + [a, Block(40, 8, false, true)];
    assert GrowthHeap(1) == [a] + [Block(40, 8, false, true)] && GrowthHeap(2) == [a] + [b, c.(used := false)];
    assert GrowthHeap(2) == [a, b] + [c.(used := false)] && GrowthHeap(3) == [a, b] + [c];
    assert GrowthHeap(3) == [a] + [b, c] + [] && GrowthHeap(4) == [a] + [b.(used := false), c] + [];
    hide *;
    SplitsLast([], 56, 0, 8, s);
    SplitsLast([a], 40, 8, 8, s);
    TakesLast([a, b], 24, 8, s);
    FreesAlone([a], b, c, []);
  }

  lemma GrowthLosesWords()
    ensures var bs := [Block(8, 0, true, false), Block(8, 8, false, false), Block(24, 8, true, true)];
      && bs == GrowthHeap(4)
      && Enabled(bs, Growing(0, 16)) && !Harmless(bs, Growing(0, 16)) && Written(bs, Growing(0, 16)) == Broken
  {
    var bs := [Block(8, 0, true, false), Block(8, 8, false, false), Block(24, 8, true, true)];
    assert Pos(bs, 0) == 0 && Pos(bs, 1) == 16 && Pos(bs, 2) == 32;
    assert Gathered(bs, 0, 1) == 8 && Gathered(bs, 0, 2) == 24;
    assert Reach(bs, 0, 16, 2) == 2 && Reach(bs, 0, 16, 1) == 2;
  }

  /** Two mallocs of 32 bytes and one of the rest, the middle block freed, and the first grown to 64 bytes: the surplus
      of exactly one header belongs to no block. */
  lemma GrowthFailure(s: Stale)
    ensures var es := [Malloc(0, 8, s), Malloc(1, 8, s), Malloc(2, 24, s), Free(1), Growing(0, 16)];
      Possible(Fresh(64), es) && !StaysWellFormed(Fresh(64), es)
    ensures var bs := [Block(8, 0, true, false), Block(8, 8, false, false), Block(24, 8, true, true)];
      Enabled(bs, Growing(0, 16)) && Written(bs, Growing(0, 16)) == Broken
  {
    var init := [Malloc(0, 8, s), Malloc(1, 8, s), Malloc(2, 24, s), Free(1)];
    FreshWellFormed(64);
    GrowthStep(s);
    assert GrowthHeap(0) == Fresh(64);
    assert init + [Growing(0, 16)] == [Malloc(0, 8, s), Malloc(1, 8, s), Malloc(2, 24, s), Free(1), Growing(0, 16)];
    hide *;
    GrowthLosesWords();
    FourSteps(GrowthHeap(0), init[0], GrowthHeap(1), init[1], GrowthHeap(2), init[2], GrowthHeap(3), init[3],
              GrowthHeap(4));
    Breaks([GrowthHeap(0), GrowthHeap(1), GrowthHeap(2), GrowthHeap(3), GrowthHeap(4)], init, Growing(0, 16));
  }

  /** The heaps that the history of EmptyRequestFragments passes. */
  function EmptyHeap(i: nat): seq<Block> {
    var a, b := Block(0, 0, true, false), Block(24, 0, true, true);
    if i == 0 then Fresh(40) else if i == 1 then [a, b.(used := false)] else if i == 2 then [a, b]
    else if i == 3 then [a.(used := false), b] else [a.(used := false), b.(used := false)]
  }

  lemma EmptyStep(s: Stale)
    ensures Step(EmptyHeap(0), Malloc(0, 0, s), EmptyHeap(1)) && Step(EmptyHeap(1), Malloc(1, 24, s), EmptyHeap(2))
    ensures Step(EmptyHeap(2), Free(0), EmptyHeap(3)) && Step(EmptyHeap(3), Free(1), EmptyHeap(4))
  {
    var a, b := Block(0, 0, true, false), Block(24, 0, true, true);
    assert EmptyHeap(0) == [] + [Block(32, 0, false, true)] && EmptyHeap(1) == [] + [a, b.(used := false)];
    assert EmptyHeap(1) == [a] + [b.(used := false)] && EmptyHeap(2) == [a] + [b];
    assert EmptyHeap(2) == [] + [a, b] + [] && EmptyHeap(3) == [] + [a.(used := false), b] + [];
    BothFree();
    hide *;
    SplitsLast([], 32, 0, 0, s);
    TakesLast([a], 24, 0, s);
    FreesAlone([], a, b, []);
  }

  lemma BothFree()
    ensures Step(EmptyHeap(3), Free(1), EmptyHeap(4)) && !Coalesced(EmptyHeap(4))
  {
    assert !EmptyHeap(4)[0].used && !EmptyHeap(4)[1].used;
  }

  lemma EmptyIsHarmless(s: Stale)
    ensures HarmlessIn(EmptyHeap(0), Malloc(0, 0, s)) && HarmlessIn(EmptyHeap(1), Malloc(1, 24, s))
    ensures HarmlessIn(EmptyHeap(2), Free(0)) && HarmlessIn(EmptyHeap(3), Free(1))
  {
  }

  /** malloc(0), malloc of the rest, and both freed: two free neighbours stay apart, by design and in the code. */
  lemma EmptyRequestFragments(s: Stale)
    ensures var es := [Malloc(0, 0, s), Malloc(1, 24, s), Free(0), Free(1)];
      && Possible(Fresh(40), es) && StaysWellFormed(Fresh(40), es)
      && After(Fresh(40), es) == [Block(0, 0, false, false), Block(24, 0, false, true)]
      && !Coalesced(After(Fresh(40), es))
  {
    var es := [Malloc(0, 0, s), Malloc(1, 24, s), Free(0), Free(1)];
    FreshWellFormed(40);
    EmptyStep(s);
    EmptyIsHarmless(s);
    BothFree();
    assert EmptyHeap(0) == Fresh(40) && EmptyHeap(4) == [Block(0, 0, false, false), Block(24, 0, false, true)];
    hide *;
    FourSteps(EmptyHeap(0), es[0], EmptyHeap(1), es[1], EmptyHeap(2), es[2], EmptyHeap(3), es[3], EmptyHeap(4));
    PassesPossible([EmptyHeap(0), EmptyHeap(1), EmptyHeap(2), EmptyHeap(3), EmptyHeap(4)], es);
    WrittenRunExact(EmptyHeap(0), es);
  }

  /** The history of MallocFailure, with stale bits 0, and then all that is left freed; and the heaps it passes. */
  function FreeingAll(): (es: seq<Event>)
    ensures |es| == 6
  {
    var s := Stale(false, false);
    [Malloc(0, 32, s), Malloc(1, 8, s), Free(0), Malloc(0, 8, s), Free(2), Free(0)]
  }

  function HeapBefore(i: nat): seq<Block> {
    if i == 0 then Fresh(56)
    else if i == 1 then [Block(32, 0, true, false), Block(8, 32, false, true)]
    else if i == 2 then [Block(32, 0, true, false), Block(8, 32, true, true)]
    else if i == 3 then [Block(32, 0, false, false), Block(8, 32, true, true)]
    else if i == 4 then [Block(8, 0, true, false), Block(16, 8, false, false), Block(8, 32, true, true)]
    else if i == 5 then [Block(8, 0, true, false), Block(16, 8, false, false), Block(8, 32, false, true)]
    else [Block(32, 0, false, false), Block(8, 32, false, true)]
  }

  lemma FreeingAllStep(i: nat)
    requires i < 6
    ensures var bs, e := HeapBefore(i), FreeingAll()[i];
      Enabled(bs, e) && Readable(bs, e) && Written(bs, e) == Tiled(HeapBefore(i + 1))
  {
    var bs, e := HeapBefore(i), FreeingAll()[i];
    if i == 4 {
      assert Pos(bs, 0) == 0 && Pos(bs, 1) == 16 && Pos(bs, 2) == 40;
      assert LeadsTo(bs, 2, 0) && bs[0].used;
    }
  }

  lemma {:induction false} FreeingAllFrom(i: nat)
    requires i <= 6
    ensures PossibleWritten(HeapBefore(i), FreeingAll()[i..])
    ensures AfterWritten(HeapBefore(i), FreeingAll()[i..]) == Tiled(HeapBefore(6))
    decreases 6 - i
  {
    if i < 6 {
      FreeingAllStep(i);
      FreeingAllFrom(i + 1);
      hide FreeingAll, HeapBefore, Enabled, Readable, Written;
      var es := FreeingAll()[i..];
      assert es[0] == FreeingAll()[i] && es[1..] == FreeingAll()[i + 1..];
    }
  }

  /** The code frees all that a history has allocated, and the heap that init_memman built does not come back. */
  lemma FreeingEverythingDoesNotRestore()
    ensures PossibleWritten(Fresh(56), FreeingAll()) && MallocsAndFrees(FreeingAll())
    ensures var w := AfterWritten(Fresh(56), FreeingAll());
      && w == Tiled([Block(32, 0, false, false), Block(8, 32, false, true)])
      && (forall b <- w.blocks :: !b.used)
      && w != Tiled(Fresh(56))
  {
    FreeingAllFrom(0);
    assert FreeingAll()[0..] == FreeingAll();
  }
}
