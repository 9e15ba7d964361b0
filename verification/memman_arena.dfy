/** malloc, free and realloc of virgoos/src/base/memman.c on an arena of words.  Every method performs the stores
    the code performs and is proved against the block lists of HeapBlocks; offsets and lengths are in words. */
module HeapArena {
  import opened Common
  import opened HeapBlocks
  import opened HeapDiscipline
  import opened HeapMemory
  import opened HeapLaws
  import opened HeapKept

  class Heap {
    const mem: array<Word>
    /** alloc_strategy == STRATEGY_FIRST_FIT */
    const firstFit: bool
    /** What the header walk shows. */
    ghost var blocks: seq<Block>

    /** The headers tile the arena; the arena fits the 32-bit address space. */
    ghost predicate Valid()
      reads this, mem
    {
      mem.Length < 0x4000_0000 && Represents(mem[..], blocks)
    }

    /** init_memman: the whole arena is one free, last block. */
    constructor (arena: array<Word>, firstFit: bool)
      requires HDR <= arena.Length < 0x4000_0000
      modifies arena
      ensures mem == arena && this.firstFit == firstFit
      ensures Valid() && blocks == [Block(arena.Length - HDR, 0, false, true)]
    {
      mem := arena;
      this.firstFit := firstFit;
      blocks := [Block(arena.Length - HDR, 0, false, true)];
      new;
      mem[SIZE] := mem.Length - HDR;
      mem[FLAGS] := 2;
      mem[SIGNATURE] := BLOCK_SIG;
      mem[PREV] := 0;
      PosOfTwo(blocks[0], blocks[0]);
    }

    /** The second half of malloc: mark the block at `fit` used and crop it if a header and an aligned payload are
        left over. */
    method Carve(fit: nat, want: nat, ghost b: Block) returns (ghost stale: Stale)
      requires HeaderAt(mem[..], fit, b) && fit + HDR + b.size <= mem.Length < 0x4000_0000 && Fits(b, want)
      modifies mem
      ensures !Crops(b, want) ==>
        && HeaderAt(mem[..], fit, b.(used := true))
        && SameOutside(old(mem[..]), mem[..], fit, fit + HDR)
      ensures Crops(b, want) ==>
        && HeaderAt(mem[..], fit, Block(want, b.prev, true, false))
        && HeaderAt(mem[..], fit + HDR + want, Remainder(b, want, stale))
        && SameOutside(old(mem[..]), mem[..], fit, fit + HDR + want + HDR)
    {
      stale := Stale(false, false);
      mem[fit + FLAGS] := SetUsed(mem[fit + FLAGS]);
      if mem[fit + SIZE] < want + HDR {
        return;
      }
      var left := mem[fit + SIZE] - want - HDR;
      if left >= ALIGN {
        ghost var m := mem[..];
        stale := CutOff(fit, want, left, b.(used := true));
        assert m[..fit] == old(mem[..])[..fit];
        SameOutsideTwice(old(mem[..]), m, mem[..], fit, fit + HDR, fit + HDR + want + HDR);
      }
    }

    /** The crop of malloc.  The flags word of the remainder is only written when the block was the last one. */
    method CutOff(fit: nat, want: nat, left: nat, ghost b: Block) returns (ghost stale: Stale)
      requires HeaderAt(mem[..], fit, b) && fit + HDR + b.size <= mem.Length < 0x4000_0000
               && b.size == want + HDR + left && left >= ALIGN
      modifies mem
      ensures HeaderAt(mem[..], fit, b.(size := want, last := false))
      ensures HeaderAt(mem[..], fit + HDR + want, Remainder(b, want, stale))
      ensures SameOutside(old(mem[..]), mem[..], fit, fit + HDR + want + HDR)
    {
      ghost var m := mem[..];
      CutStores(fit, want, left);
      stale := Stale(IsUsed(mem[fit + HDR + want + FLAGS]), IsLast(mem[fit + HDR + want + FLAGS]));
      CutHeaders(m, mem[..], fit, want, b, stale);
    }

    /** The words that the crop stores. */
    method CutStores(fit: nat, want: Word, left: Word)
      requires fit + HDR + want + HDR <= mem.Length
      modifies mem
      ensures mem[fit + SIZE] == want && mem[fit + FLAGS] == ClearLast(old(mem[fit + FLAGS]))
      ensures var rest := fit + HDR + want;
        && mem[rest + SIZE] == left && mem[rest + SIGNATURE] == BLOCK_SIG && mem[rest + PREV] == want
        && mem[rest + FLAGS] == if IsLast(old(mem[fit + FLAGS])) then 2 else old(mem[rest + FLAGS])
      ensures var rest := fit + HDR + want;
        forall w | 0 <= w < mem.Length && w !in {fit + SIZE, fit + FLAGS} && !(rest <= w < rest + HDR) ::
          mem[w] == old(mem[w])
    {
      hide IsLast, IsUsed, ClearLast;
      var last := IsLast(mem[fit + FLAGS]);
      mem[fit + FLAGS] := ClearLast(mem[fit + FLAGS]);
      mem[fit + SIZE] := want;
      var rest := fit + HDR + want;
      mem[rest + SIZE] := left;
      mem[rest + SIGNATURE] := BLOCK_SIG;
      mem[rest + PREV] := want;
      if last {
        mem[rest + FLAGS] := 2;
      }
    }

    /** The headers that they show. */
    static lemma CutHeaders(m: seq<Word>, m': seq<Word>, fit: nat, want: nat, b: Block, stale: Stale)
      requires HeaderAt(m, fit, b) && Crops(b, want) && fit + HDR + b.size <= |m| == |m'|
      requires m'[fit + SIZE] == want && m'[fit + FLAGS] == ClearLast(m[fit + FLAGS])
      requires var rest := fit + HDR + want;
        && m'[rest + SIZE] == b.size - want - HDR && m'[rest + SIGNATURE] == BLOCK_SIG && m'[rest + PREV] == want
        && m'[rest + FLAGS] == (if IsLast(m[fit + FLAGS]) then 2 else m[rest + FLAGS])
        && stale == Stale(IsUsed(m'[rest + FLAGS]), IsLast(m'[rest + FLAGS]))
      requires var rest := fit + HDR + want;
        forall w | 0 <= w < |m| && w !in {fit + SIZE, fit + FLAGS} && !(rest <= w < rest + HDR) :: m'[w] == m[w]
      ensures HeaderAt(m', fit, b.(size := want, last := false))
      ensures HeaderAt(m', fit + HDR + want, Remainder(b, want, stale))
      ensures SameOutside(m, m', fit, fit + HDR + want + HDR)
    {
      hide SameOutside, Kept;
      TwoHeadersWritten(m, m', fit, fit + HDR + want);
    }

    /** The search loop of malloc: the first fitting block under STRATEGY_FIRST_FIT, otherwise the last fitting one. */
    method FindFit(want: nat) returns (fit: Pointer, ghost k: nat)
      requires Valid()
      ensures fit.Null? ==> NoneFits(blocks, want)
      ensures fit.At? ==> IsChoice(blocks, want, firstFit, k) && fit.word == Pos(blocks, k)
    {
      fit, k := Null, 0;
      var addr := 0;
      ghost var i := 0;
      while addr < mem.Length
        invariant i <= |blocks| && addr == Pos(blocks, i)
        invariant fit.Null? ==> forall j :: 0 <= j < i ==> !Fits(blocks[j], want)
        invariant fit.At? ==> !firstFit && k < i && fit.word == Pos(blocks, k) && Fits(blocks[k], want)
        invariant fit.At? ==> forall j :: k < j < i ==> !Fits(blocks[j], want)
        decreases mem.Length - addr
      {
        WalkStep(mem[..], blocks, i);
        if !IsUsed(mem[addr + FLAGS]) {
          if mem[addr + SIZE] >= want {
            fit, k := At(addr), i;
            if firstFit {
              return;
            }
          }
        }
        addr := addr + HDR + mem[addr + SIZE];
        i := i + 1;
      }
      WalkStep(mem[..], blocks, i);
    }

    /** malloc.  It answers NULL only if no free block is large enough.  The remainder of a split inside the heap
        keeps the flag bits that lay there and the block after it keeps its old `prev_size`: that is what
        MallocWritten records, and it breaks the discipline exactly in that case. */
    method Malloc(bytes: nat) returns (p: Pointer, ghost k: nat, ghost stale: Stale)
      requires Valid() && bytes < 0x1_0000_0000
      modifies this`blocks, mem
      ensures Valid()
      ensures p.Null? ==> mem[..] == old(mem[..]) && blocks == old(blocks)
      ensures p.Null? ==> NoneFits(blocks, AlignedWords(bytes))
      ensures p.At? ==> IsChoice(old(blocks), AlignedWords(bytes), firstFit, k) && p.word == Pos(old(blocks), k) + HDR
      ensures p.At? ==> blocks == MallocWritten(old(blocks), k, AlignedWords(bytes), stale)
      ensures p.At? ==> SameOutside(old(mem[..]), mem[..], Pos(old(blocks), k), Pos(old(blocks), k + 1))
      ensures p.At? && WellFormed(old(blocks)) ==>
        (WellFormed(blocks) <==> MallocKeeps(old(blocks)[k], AlignedWords(bytes)))
      ensures p.At? ==> Serves(mem[..], p.word, AlignedWords(bytes))
      ensures OthersKept(old(blocks), old(mem[..]), mem[..], 0)
    {
      hide Serves, OthersKept;
      stale := Stale(false, false);
      var want := AlignedWords(bytes);
      ghost var bs, m := blocks, mem[..];
      p, k := FindFit(want);
      if p.At? {
        WalkStep(m, bs, k);
        stale := Carve(p.word, want, bs[k]);
        CarvedRepresents(m, mem[..], bs, k, want, stale);
        blocks := MallocWritten(bs, k, want, stale);
        p := At(p.word + HDR);
        MallocKeepsOthers(m, mem[..], bs, k, want, stale);
        if WellFormed(bs) {
          MallocWrittenExact(bs, k, want, stale);
        }
      } else {
        KeptAsIs(m, bs, 0);
      }
    }

    /** free, first part: clear BLOCK_ALLOCATED and swallow a free successor `next`. */
    method ReleaseForward(pblk: nat, ghost b: Block, ghost next: Block)
      requires HeaderAt(mem[..], pblk, b) && pblk + HDR + b.size <= mem.Length < 0x4000_0000
      requires !b.last ==>
        && HeaderAt(mem[..], pblk + HDR + b.size, next)
        && pblk + HDR + b.size + HDR + next.size <= mem.Length
      modifies mem
      ensures SameOutside(old(mem[..]), mem[..], pblk, pblk + HDR)
      ensures HeaderAt(mem[..], pblk,
          if !b.last && !next.used then Block(b.size + HDR + next.size, b.prev, false, next.last)
          else b.(used := false))
    {
      mem[pblk + FLAGS] := ClearUsed(mem[pblk + FLAGS]);
      if !IsLast(mem[pblk + FLAGS]) {
        var pnext := pblk + HDR + mem[pblk + SIZE];
        if !IsUsed(mem[pnext + FLAGS]) {
          mem[pblk + SIZE] := mem[pblk + SIZE] + HDR + mem[pnext + SIZE];
          if IsLast(mem[pnext + FLAGS]) {
            mem[pblk + FLAGS] := SetLast(mem[pblk + FLAGS]);
          }
        }
      }
    }

    /** free, second part: if `prev_size` leads to a free block, that block swallows the one being freed. */
    method ReleaseBackward(pblk: nat, ghost b: Block, ghost pred: Block)
      requires HeaderAt(mem[..], pblk, b) && mem.Length < 0x4000_0000 && pblk + HDR + b.size <= mem.Length
      requires b.prev != 0 ==> HDR + b.prev <= pblk && HeaderAt(mem[..], pblk - HDR - b.prev, pred)
      requires b.prev != 0 && !pred.used ==> pred.size == b.prev
      modifies mem
      ensures b.prev != 0 && !pred.used ==>
        && SameOutside(old(mem[..]), mem[..], pblk - HDR - b.prev, pblk - b.prev)
        && HeaderAt(mem[..], pblk - HDR - b.prev, pred.(size := pred.size + HDR + b.size, last := pred.last || b.last))
      ensures !(b.prev != 0 && !pred.used) ==> mem[..] == old(mem[..])
    {
      if mem[pblk + PREV] != 0 {
        var pprev := pblk - HDR - mem[pblk + PREV];
        if !IsUsed(mem[pprev + FLAGS]) {
          mem[pprev + SIZE] := mem[pprev + SIZE] + HDR + mem[pblk + SIZE];
          if IsLast(mem[pblk + FLAGS]) {
            mem[pprev + FLAGS] := SetLast(mem[pprev + FLAGS]);
          }
        }
      }
    }

    /** `if (!(p->flags & BLOCK_LAST)) next->prev_size = p->size`: the end of free and of realloc's crop.  The header
        at pblk shows b, which may be a header that a backward merge has already swallowed; block i is the one after
        it. */
    method TellSuccessor(pblk: nat, ghost b: Block, ghost bs: seq<Block>, ghost i: nat)
      requires Represents(mem[..], bs) && i <= |bs| && HeaderAt(mem[..], pblk, b)
      requires (b.last <==> i == |bs|) && pblk + HDR + b.size == Pos(bs, i)
      modifies mem
      ensures Represents(mem[..], SetPrev(bs, i, b.size))
      ensures i < |bs| ==> SameOutside(old(mem[..]), mem[..], Pos(bs, i), Pos(bs, i) + HDR)
      ensures i == |bs| ==> mem[..] == old(mem[..])
    {
      ghost var m := mem[..];
      WalkStep(m, bs, i);
      if !IsLast(mem[pblk + FLAGS]) {
        var pnext := pblk + HDR + mem[pblk + SIZE];
        mem[pnext + PREV] := mem[pblk + SIZE];
        UpdateRepresents(m, mem[..], bs, i, bs[i].(prev := b.size));
      }
    }

    /** The forward merge of free. */
    method JoinSuccessor(pblk: nat, ghost bs: seq<Block>, ghost k: nat)
      requires Freeable(bs, k) && pblk == Pos(bs, k) && Represents(mem[..], bs) && mem.Length < 0x4000_0000
      modifies mem
      ensures Represents(mem[..], MergeForward(bs, k)) && PayloadsKept(bs, old(mem[..]), mem[..])
    {
      ghost var m := mem[..];
      assert LastMarked(bs, k);
      WalkStep(m, bs, k);
      WalkStep(m, bs, k + 1);
      ForwardHeader(bs, k);
      hide Represents, HeaderAt, SameOutside, Freeable, MergeForward, PayloadsKept, Pos;
      ReleaseForward(pblk, bs[k], if k + 1 < |bs| then bs[k + 1] else bs[k]);
      ForwardRepresents(m, mem[..], bs, k);
      HeaderWriteKeepsPayload(m, mem[..], bs, k);
    }

    /** free of the block at pblk: both merges, and the successor is told. */
    method Release(pblk: nat, ghost k: nat)
      requires Valid() && Freeable(blocks, k) && pblk == Pos(blocks, k)
      modifies this`blocks, mem
      ensures Valid() && blocks == FreeWritten(old(blocks), k)
      ensures PayloadsKept(old(blocks), old(mem[..]), mem[..])
    {
      ghost var bs, m, cs := blocks, mem[..], MergeForward(blocks, k);
      assert cs[k].last <==> k == |cs| - 1;
      hide Represents, HeaderAt, SameOutside, Freeable, MergeForward, MergeBackward, FreeWritten, PayloadsKept, Pos;
      JoinSuccessor(pblk, bs, k);
      MergeForwardPos(bs, k, k);
      ghost var m1 := mem[..];
      JoinPredecessor(pblk, bs, cs, k);
      PayloadsKeptTwice(bs, m, m1, mem[..]);
      ghost var m2 := mem[..];
      Finish(pblk, bs, cs, k);
      PayloadsKeptTwice(bs, m, m2, mem[..]);
      blocks := FreeWritten(bs, k);
    }

    /** free.  NULL and addresses without a block signature are ignored.  Otherwise the code does FreeWritten, writes
        headers only, and keeps the discipline exactly when it does not both merge backward and leave a successor. */
    method Free(p: Pointer, ghost k: nat)
      requires Valid()
      requires p.At? ==> HDR <= p.word <= mem.Length
      requires p.At? && mem[p.word - HDR + SIGNATURE] == BLOCK_SIG ==>
        && Freeable(blocks, k)
        && p.word == Pos(blocks, k) + HDR
      modifies this`blocks, mem
      ensures Valid()
      ensures p.Null? || old(mem[p.word - HDR + SIGNATURE]) != BLOCK_SIG ==>
        && mem[..] == old(mem[..])
        && blocks == old(blocks)
      ensures p.At? && old(mem[p.word - HDR + SIGNATURE]) == BLOCK_SIG ==> blocks == FreeWritten(old(blocks), k)
      ensures PayloadsKept(old(blocks), old(mem[..]), mem[..])
      ensures OthersKept(old(blocks), old(mem[..]), mem[..], if p.At? then p.word else 0)
    {
      hide OthersKept;
      if p.Null? {
        KeptAsIs(mem[..], blocks, 0);
        return;
      }
      var pblk := p.word - HDR;
      if mem[pblk + SIGNATURE] != BLOCK_SIG {
        KeptAsIs(mem[..], blocks, p.word);
        return;
      }
      ghost var bs, m := blocks, mem[..];
      Release(pblk, k);
      FreeKeepsOthers(m, mem[..], bs, k, blocks);
    }

    /** The header that the forward merge leaves. */
    static lemma ForwardHeader(bs: seq<Block>, k: nat)
      requires k < |bs| && LastMarked(bs, k)
      ensures var b := bs[k];
        MergeForward(bs, k)[k]
        == if !b.last && !bs[k + 1].used then Block(b.size + HDR + bs[k + 1].size, b.prev, false, bs[k + 1].last)
           else b.(used := false)
    {
    }

    /** The backward merge of free, on the list cs that the forward merge left. */
    method JoinPredecessor(pblk: nat, ghost bs: seq<Block>, ghost cs: seq<Block>, ghost k: nat)
      requires Freeable(bs, k) && pblk == Pos(bs, k) && cs == MergeForward(bs, k)
      requires Represents(mem[..], cs) && mem.Length < 0x4000_0000
      modifies mem
      ensures Represents(mem[..], MergeBackward(cs, k)) && HeaderAt(mem[..], pblk, cs[k])
      ensures PayloadsKept(bs, old(mem[..]), mem[..])
    {
      ghost var m := mem[..];
      ghost var q := PredecessorShown(m, bs, k);
      hide Represents, HeaderAt, SameOutside, Freeable, MergesBackward, MergeForward, MergeBackward, PayloadsKept, Pos;
      ReleaseBackward(pblk, cs[k], cs[q]);
      BackwardRepresents(m, mem[..], cs, k);
      BackwardPayloadsKept(m, mem[..], bs, k);
    }

    /** The last part of free, on the list ds that both merges left. */
    method Finish(pblk: nat, ghost bs: seq<Block>, ghost cs: seq<Block>, ghost k: nat)
      requires k < |bs| && cs == MergeForward(bs, k) && pblk == Pos(cs, k)
      requires cs[k].last <==> k == |cs| - 1
      requires Represents(mem[..], MergeBackward(cs, k)) && HeaderAt(mem[..], pblk, cs[k]) && mem.Length < 0x4000_0000
      modifies mem
      ensures Represents(mem[..], FreeWritten(bs, k))
      ensures PayloadsKept(bs, old(mem[..]), mem[..])
    {
      ghost var m, ds, i := mem[..], MergeBackward(cs, k), After(cs, k);
      SuccessorOfFreed(bs, k);
      hide Represents, HeaderAt, SameOutside, Pos, MergeForward, MergeBackward, After, SetPrev;
      TellSuccessor(pblk, cs[k], ds, i);
      if k + 1 < |cs| {
        HeaderWriteKeepsPayload(m, mem[..], bs, k + 1 + |bs| - |cs|);
      }
    }

    /** realloc's search: the block whose payload starts at p, or NULL. */
    method FindBlock(p: nat) returns (pblk: Pointer, ghost k: nat)
      requires Valid()
      ensures pblk.At? ==> k < |blocks| && pblk.word == Pos(blocks, k) && p == pblk.word + HDR
      ensures pblk.Null? ==> forall i :: 0 <= i < |blocks| ==> Pos(blocks, i) + HDR != p
    {
      var addr := 0;
      k := 0;
      while addr < mem.Length
        invariant k <= |blocks| && addr == Pos(blocks, k)
        invariant forall i :: 0 <= i < k ==> Pos(blocks, i) + HDR != p
        decreases mem.Length - addr
      {
        WalkStep(mem[..], blocks, k);
        if addr + HDR == p {
          return At(addr), k;
        }
        addr := addr + HDR + mem[addr + SIZE];
        k := k + 1;
      }
      WalkStep(mem[..], blocks, k);
      pblk := Null;
    }

    /** The header of a new free block, not marked last. */
    method WriteFree(at: nat, size: Word, prev: Word)
      requires at + HDR <= mem.Length
      modifies mem
      ensures HeaderAt(mem[..], at, Block(size, prev, false, false))
      ensures forall w :: 0 <= w < mem.Length && !(at <= w < at + HDR) ==> mem[w] == old(mem[w])
    {
      mem[at + SIZE] := size;
      mem[at + PREV] := prev;
      mem[at + FLAGS] := 0;
      mem[at + SIGNATURE] := BLOCK_SIG;
    }

    /** realloc to a smaller size, where the surplus is more than a header. */
    method CropTail(pblk: nat, want: nat, ghost b: Block)
      requires HeaderAt(mem[..], pblk, b) && pblk + HDR + b.size <= mem.Length < 0x4000_0000 && want + HDR < b.size
      modifies mem
      ensures HeaderAt(mem[..], pblk, b.(size := want, last := false))
      ensures HeaderAt(mem[..], pblk + HDR + want, Block(b.size - want - HDR, want, false, b.last))
      ensures SameOutside(old(mem[..]), mem[..], pblk, pblk + HDR + want + HDR)
      ensures Kept(old(mem[..]), mem[..], pblk + HDR, pblk + HDR + want)
    {
      ghost var m := mem[..];
      CropStores(pblk, want, b.size - want - HDR);
      CropHeaders(m, mem[..], pblk, want, b);
    }

    /** The words that the crop stores. */
    method CropStores(pblk: nat, want: Word, ghost left: Word)
      requires pblk + HDR + want + HDR <= mem.Length && mem[pblk + SIZE] == left + want + HDR
      modifies mem
      ensures mem[pblk + SIZE] == want
      ensures IsUsed(mem[pblk + FLAGS]) == IsUsed(old(mem[pblk + FLAGS])) && !IsLast(mem[pblk + FLAGS])
      ensures var next := pblk + HDR + want;
        && mem[next + SIZE] == left && mem[next + PREV] == want && mem[next + SIGNATURE] == BLOCK_SIG
        && !IsUsed(mem[next + FLAGS]) && IsLast(mem[next + FLAGS]) == IsLast(old(mem[pblk + FLAGS]))
      ensures var next := pblk + HDR + want;
        forall w | 0 <= w < mem.Length && w !in {pblk + SIZE, pblk + FLAGS} && !(next <= w < next + HDR) ::
          mem[w] == old(mem[w])
    {
      hide IsLast, IsUsed, ClearLast, SetLast;
      var crop := mem[pblk + SIZE] - want - HDR;
      mem[pblk + SIZE] := want;
      var pnext := pblk + HDR + mem[pblk + SIZE];
      WriteFree(pnext, crop, mem[pblk + SIZE]);
      if IsLast(mem[pblk + FLAGS]) {
        mem[pblk + FLAGS] := ClearLast(mem[pblk + FLAGS]);
        mem[pnext + FLAGS] := SetLast(mem[pnext + FLAGS]);
      }
    }

    /** The headers that they show. */
    static lemma CropHeaders(m: seq<Word>, m': seq<Word>, pblk: nat, want: nat, b: Block)
      requires HeaderAt(m, pblk, b) && want + HDR < b.size && pblk + HDR + b.size <= |m| == |m'|
      requires m'[pblk + SIZE] == want && IsUsed(m'[pblk + FLAGS]) == IsUsed(m[pblk + FLAGS])
      requires !IsLast(m'[pblk + FLAGS])
      requires var next := pblk + HDR + want;
        && m'[next + SIZE] == b.size - want - HDR && m'[next + PREV] == want && m'[next + SIGNATURE] == BLOCK_SIG
        && !IsUsed(m'[next + FLAGS]) && IsLast(m'[next + FLAGS]) == IsLast(m[pblk + FLAGS])
      requires var next := pblk + HDR + want;
        forall w | 0 <= w < |m| && w !in {pblk + SIZE, pblk + FLAGS} && !(next <= w < next + HDR) :: m'[w] == m[w]
      ensures HeaderAt(m', pblk, b.(size := want, last := false))
      ensures HeaderAt(m', pblk + HDR + want, Block(b.size - want - HDR, want, false, b.last))
      ensures SameOutside(m, m', pblk, pblk + HDR + want + HDR) && Kept(m, m', pblk + HDR, pblk + HDR + want)
    {
      hide SameOutside, Kept, IsLast, IsUsed;
      TwoHeadersWritten(m, m', pblk, pblk + HDR + want);
    }

    /** realloc to a smaller size: Shrink on the block list, and the payload that stays is untouched. */
    method ShrinkInPlace(pblk: nat, want: nat, ghost k: nat)
      requires Valid() && k < |blocks| && LastMarked(blocks, k) && pblk == Pos(blocks, k) && want < blocks[k].size
      modifies this`blocks, mem
      ensures Valid() && blocks == Shrink(old(blocks), k, want)
      ensures Kept(old(mem[..]), mem[..], pblk + HDR, pblk + HDR + want)
      ensures OthersKept(old(blocks), old(mem[..]), mem[..], pblk + HDR)
      ensures old(blocks)[k].used ==> Serves(mem[..], pblk + HDR, want)
    {
      WalkStep(mem[..], blocks, k);
      assert mem[pblk + SIZE] == blocks[k].size;
      hide Represents, HeaderAt, Pos, Shrink, OthersKept, Serves, Kept;
      if mem[pblk + SIZE] - want > HDR {
        ShrinkByCrop(pblk, want, k);
      } else {
        Unshrunk(mem[..], blocks, k, want);
      }
    }

    method ShrinkByCrop(pblk: nat, want: nat, ghost k: nat)
      requires Valid() && k < |blocks| && LastMarked(blocks, k) && pblk == Pos(blocks, k) && want + HDR < blocks[k].size
      modifies this`blocks, mem
      ensures Valid() && blocks == Shrink(old(blocks), k, want)
      ensures Kept(old(mem[..]), mem[..], pblk + HDR, pblk + HDR + want)
      ensures OthersKept(old(blocks), old(mem[..]), mem[..], pblk + HDR)
      ensures old(blocks)[k].used ==> Serves(mem[..], pblk + HDR, want)
    {
      ghost var bs, b, m := blocks, blocks[k], mem[..];
      hide Represents, Pos, Shrink, Splice, SetPrev, OthersKept, Serves, ResizedTo, OtherPayloadsKept, Kept;
      ShrinkSplits(bs, k, want);
      ShrinkLive(bs, k, want);
      blocks := Shrink(blocks, k, want);
      CropAndTell(pblk, want, bs, k, b.(size := want, last := false),
                  Block(b.size - want - HDR, want, false, b.last));
      ResizeChanges(m, mem[..], bs, blocks, k, want);
      if b.used {
        ResizeServes(mem[..], bs, blocks, k, want, want);
      }
    }

    /** A surplus of a header or less stays in the block. */
    static lemma Unshrunk(m: seq<Word>, bs: seq<Block>, k: nat, want: nat)
      requires Represents(m, bs) && k < |bs| && want < bs[k].size && bs[k].size - want <= HDR
      ensures Shrink(bs, k, want) == bs && Kept(m, m, Pos(bs, k) + HDR, Pos(bs, k) + HDR + want)
      ensures OthersKept(bs, m, m, Pos(bs, k) + HDR) && (bs[k].used ==> Serves(m, Pos(bs, k) + HDR, want))
    {
      hide OthersKept, Serves;
      WalkStep(m, bs, k);
      KeptAsIs(m, bs, Pos(bs, k) + HDR);
      if bs[k].used {
        HeaderServes(m, Pos(bs, k), bs[k], want);
      }
    }

    method CropAndTell(pblk: nat, want: nat, ghost bs: seq<Block>, ghost k: nat, ghost a: Block, ghost rest: Block)
      requires Represents(mem[..], bs) && k < |bs| && (bs[k].last <==> k == |bs| - 1) && pblk == Pos(bs, k)
      requires want + HDR < bs[k].size
      requires a == bs[k].(size := want, last := false)
      requires rest == Block(bs[k].size - want - HDR, want, false, bs[k].last)
      requires mem.Length < 0x4000_0000
      modifies mem
      ensures Represents(mem[..], SetPrev(Splice(bs, k, 1, [a, rest]), k + 2, rest.size))
      ensures Kept(old(mem[..]), mem[..], pblk + HDR, pblk + HDR + want)
      ensures OtherPayloadsKept(bs, k, old(mem[..]), mem[..])
    {
      hide *;
      ghost var m := mem[..];
      WalkStep(m, bs, k);
      CropTail(pblk, want, bs[k]);
      ghost var m1, cs := mem[..], Splice(bs, k, 1, [a, rest]);
      CroppedRepresents(m, m1, bs, k, k + 1, a, rest);
      TellAfterCrop(pblk + HDR + want, rest, cs, k + 2, m, pblk + HDR, pblk + HDR + want);
      CropKeepsOthers(m, m1, mem[..], bs, k, k + 1, pblk, pblk + HDR + want + HDR);
    }

    /** TellSuccessor at the end of a crop: the words a .. b kept so far stay kept. */
    method TellAfterCrop(pblk: nat, ghost rest: Block, ghost cs: seq<Block>, ghost i: nat, ghost m: seq<Word>,
                         ghost a: nat, ghost b: nat)
      requires Represents(mem[..], cs) && i <= |cs| && HeaderAt(mem[..], pblk, rest)
      requires (rest.last <==> i == |cs|) && pblk + HDR + rest.size == Pos(cs, i)
      requires Kept(m, mem[..], a, b) && b <= pblk
      modifies mem
      ensures Represents(mem[..], SetPrev(cs, i, rest.size))
      ensures Kept(m, mem[..], a, b)
      ensures if i < |cs| then SameOutside(old(mem[..]), mem[..], Pos(cs, i), Pos(cs, i) + HDR)
              else mem[..] == old(mem[..])
    {
      hide Represents, Pos, SetPrev, HeaderAt;
      ghost var m1 := mem[..];
      TellSuccessor(pblk, rest, cs, i);
      if i < |cs| {
        SliceKept(m1, mem[..], Pos(cs, i), Pos(cs, i) + HDR, a, b);
      }
    }

    /** realloc's look at the blocks after block k: how much payload the free ones among them could give. */
    method Gather(pblk: nat, want: nat, ghost k: nat) returns (n: nat, pnext: nat)
      requires Valid() && k < |blocks| && pblk == Pos(blocks, k)
      ensures n == Gathered(blocks, k, Reach(blocks, k, want, k + 1))
              && pnext == Pos(blocks, Reach(blocks, k, want, k + 1))
    {
      ghost var j := k + 1;
      WalkStep(mem[..], blocks, k);
      n, pnext := mem[pblk + SIZE], pblk + HDR + mem[pblk + SIZE];
      while pnext < mem.Length && n < want
        invariant k < j <= |blocks| && pnext == Pos(blocks, j) && n == Gathered(blocks, k, j)
        invariant Reach(blocks, k, want, j) == Reach(blocks, k, want, k + 1)
        decreases mem.Length - pnext
      {
        WalkStep(mem[..], blocks, j);
        if IsUsed(mem[pnext + FLAGS]) {
          break;
        }
        n := n + HDR + mem[pnext + SIZE];
        pnext := pnext + HDR + mem[pnext + SIZE];
        j := j + 1;
      }
      WalkStep(mem[..], blocks, j);
    }

    /** The stores of realloc's growth in place when more than a header is left over.  (The code stores the block's
        own size last; the stores go to different words.) */
    method GrowAndCrop(pblk: nat, want: nat, crop: nat, toEnd: bool, ghost b: Block)
      requires HeaderAt(mem[..], pblk, b) && b.size <= want && crop > HDR
      requires pblk + HDR + want + crop <= mem.Length < 0x4000_0000
      modifies mem
      ensures HeaderAt(mem[..], pblk, b.(size := want))
      ensures HeaderAt(mem[..], pblk + HDR + want, Block(crop - HDR, want, false, toEnd))
      ensures SameOutside(old(mem[..]), mem[..], pblk, pblk + HDR + want + HDR)
      ensures Kept(old(mem[..]), mem[..], pblk + HDR, pblk + HDR + b.size)
    {
      ghost var m := mem[..];
      GrowStores(pblk, want, crop - HDR, toEnd);
      GrowHeaders(m, mem[..], pblk, want, crop - HDR, toEnd, b);
    }

    method GrowStores(pblk: nat, want: Word, left: Word, toEnd: bool)
      requires pblk + HDR + want + HDR <= mem.Length
      modifies mem
      ensures mem[pblk + SIZE] == want
      ensures var next := pblk + HDR + want;
        && mem[next + SIZE] == left && mem[next + PREV] == want && mem[next + SIGNATURE] == BLOCK_SIG
        && !IsUsed(mem[next + FLAGS]) && IsLast(mem[next + FLAGS]) == toEnd
      ensures var next := pblk + HDR + want;
        forall w | 0 <= w < mem.Length && w != pblk + SIZE && !(next <= w < next + HDR) :: mem[w] == old(mem[w])
    {
      hide IsLast, IsUsed, SetLast;
      var pnext2 := pblk + HDR + want;
      WriteFree(pnext2, left, want);
      if toEnd {
        mem[pnext2 + FLAGS] := SetLast(mem[pnext2 + FLAGS]);
      }
      mem[pblk + SIZE] := want;
    }

    static lemma GrowHeaders(m: seq<Word>, m': seq<Word>, pblk: nat, want: nat, left: nat, toEnd: bool, b: Block)
      requires HeaderAt(m, pblk, b) && b.size <= want && pblk + HDR + want + HDR <= |m| == |m'|
      requires m'[pblk + SIZE] == want
      requires var next := pblk + HDR + want;
        && m'[next + SIZE] == left && m'[next + PREV] == want && m'[next + SIGNATURE] == BLOCK_SIG
        && !IsUsed(m'[next + FLAGS]) && IsLast(m'[next + FLAGS]) == toEnd
      requires var next := pblk + HDR + want;
        forall w | 0 <= w < |m| && w != pblk + SIZE && !(next <= w < next + HDR) :: m'[w] == m[w]
      ensures HeaderAt(m', pblk, b.(size := want)) && HeaderAt(m', pblk + HDR + want, Block(left, want, false, toEnd))
      ensures SameOutside(m, m', pblk, pblk + HDR + want + HDR) && Kept(m, m', pblk + HDR, pblk + HDR + b.size)
    {
      hide SameOutside, Kept, IsLast, IsUsed;
      TwoHeadersWritten(m, m', pblk, pblk + HDR + want);
      KeptLess(m, m', pblk + HDR, pblk + HDR + want, pblk + HDR + b.size);
    }

    static lemma KeptLess(m: seq<Word>, m': seq<Word>, a: nat, b: nat, b': nat)
      requires Kept(m, m', a, b) && a <= b' <= b
      ensures Kept(m, m', a, b')
    {
      forall i | 0 <= i < b' - a
        ensures m'[a..b'][i] == m[a..b'][i]
      {
        assert m'[a..b][i] == m[a..b][i];
      }
    }

    /** The stores of realloc's growth in place otherwise: the block takes the requested size, whatever it absorbed. */
    method GrowOnly(pblk: nat, want: nat, toEnd: bool, ghost b: Block)
      requires HeaderAt(mem[..], pblk, b) && want < mem.Length < 0x4000_0000 && (toEnd || !b.last)
      modifies mem
      ensures HeaderAt(mem[..], pblk, b.(size := want, last := toEnd))
      ensures SameOutside(old(mem[..]), mem[..], pblk, pblk + HDR)
    {
      if toEnd {
        mem[pblk + FLAGS] := SetLast(mem[pblk + FLAGS]);
      }
      mem[pblk + SIZE] := want;
    }

    /** realloc's growth in place, with more than a header to spare: blocks k .. j become a and rest. */
    method GrowWithRest(pblk: nat, want: nat, n: nat, pnext: nat, ghost bs: seq<Block>, ghost k: nat, ghost j: nat,
                        ghost a: Block, ghost rest: Block)
      requires Represents(mem[..], bs) && mem.Length < 0x4000_0000
      requires k < j <= |bs| && pblk == Pos(bs, k) && pnext == Pos(bs, j) && pnext == pblk + HDR + n
      requires n > want + HDR && want >= bs[k].size
      requires a == bs[k].(size := want) && rest == Block(n - want - HDR, want, false, j == |bs|)
      modifies mem
      requires forall i :: k < i < j ==> !bs[i].used
      ensures Represents(mem[..], SetPrev(Splice(bs, k, j - k, [a, rest]), k + 2, rest.size))
      ensures Kept(old(mem[..]), mem[..], pblk + HDR, pblk + HDR + bs[k].size)
      ensures OtherPayloadsKept(bs, k, old(mem[..]), mem[..])
    {
      hide *;
      ghost var m := mem[..];
      WalkStep(m, bs, k);
      WalkStep(m, bs, j);
      GrowAndCrop(pblk, want, n - want, pnext >= mem.Length, bs[k]);
      ghost var m1, cs := mem[..], Splice(bs, k, j - k, [a, rest]);
      CroppedRepresents(m, m1, bs, k, j, a, rest);
      TellAfterCrop(pblk + HDR + want, rest, cs, k + 2, m, pblk + HDR, pblk + HDR + bs[k].size);
      CropKeepsOthers(m, m1, mem[..], bs, k, j, pblk, pblk + HDR + want + HDR);
    }

    /** realloc's growth in place, with at most a header to spare: blocks k .. j become a.  The memory shows that
        exactly if nothing is spare; otherwise the spare words fall between two blocks. */
    method GrowWithoutRest(pblk: nat, want: Word, n: nat, pnext: nat, ghost bs: seq<Block>, ghost k: nat,
                           ghost j: nat, ghost a: Block)
      requires Represents(mem[..], bs) && mem.Length < 0x4000_0000
      requires k < j <= |bs| && pblk == Pos(bs, k) && pnext == Pos(bs, j) && pnext == pblk + HDR + n
      requires bs[k].size <= want <= n && !bs[k].last
      requires a == bs[k].(size := n, last := j == |bs|)
      modifies mem
      requires forall i :: k < i < j ==> !bs[i].used
      ensures Represents(mem[..], SetPrev(Splice(bs, k, j - k, [a]), k + 1, n)) <==> n == want
      ensures Kept(old(mem[..]), mem[..], pblk + HDR, pblk + HDR + bs[k].size)
      ensures OthersKept(bs, old(mem[..]), mem[..], pblk + HDR)
      ensures bs[k].used ==> Serves(mem[..], pblk + HDR, want)
    {
      hide OthersKept;
      ghost var m := mem[..];
      WalkStep(m, bs, k);
      WalkStep(m, bs, j);
      GrowOnly(pblk, want, pnext >= mem.Length, bs[k]);
      ghost var m1 := mem[..];
      SliceKept(m, m1, pblk, pblk + HDR, pblk + HDR, pblk + HDR + bs[k].size);
      if pnext < mem.Length {
        mem[pnext + PREV] := want;
        assert mem[..] == m1[pnext + PREV := want];
      }
      GrowthKeepsOthers(m, m1, mem[..], bs, k, j, want);
      assert HeaderAt(mem[..], pblk, bs[k].(size := want, last := pnext >= mem.Length));
      if n == want {
        GrownRepresents(m, m1, mem[..], bs, k, j, a, want);
      } else {
        NotRepresented(mem[..], bs, k, j, a, n);
      }
    }

    /** Growing in place with a surplus that is too small for a block loses the surplus. */
    static lemma NotRepresented(m: seq<Word>, bs: seq<Block>, k: nat, j: nat, a: Block, v: nat)
      requires k < j <= |bs| && Pos(bs, k) + HDR + a.size == Pos(bs, j)
      requires Pos(bs, k) + SIZE < |m| && m[Pos(bs, k) + SIZE] != a.size
      ensures !Represents(m, SetPrev(Splice(bs, k, j - k, [a]), k + 1, v))
    {
      var cs := Splice(bs, k, j - k, [a]);
      PosOfTwo(a, a);
      SplicePos(bs, k, j - k, [a], k);
      if k + 1 < |cs| {
        UpdatePos(cs, k + 1, cs[k + 1].(prev := v));
      }
      var ds := SetPrev(cs, k + 1, v);
      assert Represents(m, ds) ==> Shown(m, ds, k);
    }

    /** realloc's memcpy.  It copies `count` words although only `keep` belong to the source; words it would read past
        the end of the arena are left as they are here. */
    method CopyWords(dst: nat, src: nat, count: nat, ghost keep: nat)
      requires dst + count <= mem.Length && keep <= count
      requires src + keep <= mem.Length && (src + keep <= dst || dst + count <= src)
      modifies mem
      ensures Copied(old(mem[..]), src, mem[..], dst, keep)
      ensures SameOutside(old(mem[..]), mem[..], dst, dst + count)
    {
      var i := 0;
      while i < count
        invariant i <= count
        invariant forall w :: 0 <= w < mem.Length && !(dst <= w < dst + i) ==> mem[w] == old(mem[w])
        invariant forall w :: dst <= w < dst + i && w < dst + keep ==> mem[w] == old(mem[w - dst + src])
      {
        if src + i < mem.Length {
          mem[dst + i] := mem[src + i];
        }
        i := i + 1;
      }
    }

    /** Wherever malloc finds room, block k can still be freed afterwards. */
    ghost predicate Movable(bs: seq<Block>, k: nat, want: nat) {
      forall k2, stale :: IsChoice(bs, want, firstFit, k2) ==>
        Freeable(MallocWritten(bs, k2, want, stale), Shifted(bs, k, k2, want))
    }

    /** realloc when the block cannot grow where it is: malloc, memcpy, free. */
    method Move(ptr: nat, want: nat, ghost k: nat) returns (rv: Pointer, ghost k2: nat, ghost stale: Stale)
      requires Valid() && k < |blocks| && blocks[k].used && ptr == Pos(blocks, k) + HDR && Movable(blocks, k, want)
      requires blocks[k].size <= want < 0x4000_0000 && want % ALIGN == 0
      modifies this`blocks, mem
      ensures Valid()
      ensures rv.Null? ==> mem[..] == old(mem[..]) && blocks == old(blocks)
      ensures rv.Null? ==> NoneFits(blocks, want)
      ensures rv.At? ==> IsChoice(old(blocks), want, firstFit, k2) && rv.word == Pos(old(blocks), k2) + HDR
      ensures rv.At? ==>
        blocks == FreeWritten(MallocWritten(old(blocks), k2, want, stale), Shifted(old(blocks), k, k2, want))
      ensures rv.At? ==> Copied(old(mem[..]), ptr, mem[..], rv.word, old(blocks)[k].size)
      ensures rv.At? ==> Serves(mem[..], rv.word, want)
      ensures OthersKept(old(blocks), old(mem[..]), mem[..], ptr)
    {
      hide Represents, MallocWritten, FreeWritten, Freeable, SameOutside, Copied, PayloadsKept, Kept, WellFormed;
      hide AlignedWords, Shifted, HeaderAt, Serves, OthersKept;
      ghost var bs, m := blocks, mem[..];
      AlignedWordsOf(want);
      rv, k2, stale := Malloc(4 * want);
      if rv.At? {
        ghost var m1, cs, k', n := mem[..], blocks, Shifted(bs, k, k2, want), bs[k].size;
        MovePositions(m, m1, bs, k, k2, want, stale);
        ghost var m2 := CopyAndFree(rv.word, ptr, want, n, cs, k2, k');
        CopiedFromKept(m, m1, mem[..], ptr, rv.word, n);
        MoveKeepsOthers(m, m1, m2, mem[..], bs, k, k2, want, stale);
      } else {
        KeptAsIs(m, bs, ptr);
      }
    }

    /** memcpy and free of the move, with block k2 of cs as target and block k' as source. */
    method CopyAndFree(dst: nat, ptr: nat, want: nat, ghost n: nat, ghost cs: seq<Block>, ghost k2: nat, ghost k': nat)
      returns (ghost m1: seq<Word>)
      requires Valid() && cs == blocks && k' < |cs| && Freeable(cs, k') && ptr == Pos(cs, k') + HDR
      requires k2 < |cs| && dst == Pos(cs, k2) + HDR && n <= want <= cs[k2].size
      requires ptr + n <= mem.Length && (ptr + n <= dst || dst + want <= ptr)
      modifies this`blocks, mem
      ensures Valid() && blocks == FreeWritten(cs, k')
      ensures Copied(old(mem[..]), ptr, mem[..], dst, n)
      ensures SameOutside(old(mem[..]), m1, dst, dst + want) && OthersKept(cs, m1, mem[..], ptr)
    {
      hide Represents, FreeWritten, Freeable, Copied, PayloadsKept, Kept, OthersKept;
      ghost var m := mem[..];
      WalkStep(m, cs, k2);
      CopyWords(dst, ptr, want, n);
      m1 := mem[..];
      SameOutsideWider(m, m1, dst, dst + want, Pos(cs, k2 + 1));
      PayloadWriteRepresents(m, m1, cs, k2);
      SignatureAt(m1, cs, k');
      Free(At(ptr), k');
      CopyKept(m, m1, mem[..], ptr, n, cs, k2);
    }

    static lemma CopyKept(m: seq<Word>, m1: seq<Word>, m2: seq<Word>, ptr: nat, n: nat, cs: seq<Block>, k2: nat)
      requires k2 < |cs| && n <= cs[k2].size && Represents(m1, cs)
      requires Copied(m, ptr, m1, Pos(cs, k2) + HDR, n) && PayloadsKept(cs, m1, m2)
      ensures Copied(m, ptr, m2, Pos(cs, k2) + HDR, n)
    {
      WalkStep(m1, cs, k2);
      PayloadSliceKept(m1, m2, cs, k2, n);
    }

    /** Where source and target of the move lie once malloc is done. */
    static lemma MovePositions(m: seq<Word>, m1: seq<Word>, bs: seq<Block>, k: nat, k2: nat, want: nat, stale: Stale)
      requires Represents(m, bs) && k < |bs| && bs[k].used && k2 < |bs| && Fits(bs[k2], want) && bs[k].size <= want
      requires Freeable(MallocWritten(bs, k2, want, stale), Shifted(bs, k, k2, want))
      requires SameOutside(m, m1, Pos(bs, k2), Pos(bs, k2 + 1)) && Represents(m1, MallocWritten(bs, k2, want, stale))
      ensures var cs, k' := MallocWritten(bs, k2, want, stale), Shifted(bs, k, k2, want);
        var ptr, n := Pos(bs, k) + HDR, bs[k].size;
        && Freeable(cs, k') && ptr == Pos(cs, k') + HDR
        && k2 < |cs| && Pos(cs, k2) == Pos(bs, k2) && want <= cs[k2].size
        && (ptr + n <= Pos(bs, k2) + HDR || Pos(bs, k2) + HDR + want <= ptr)
        && Kept(m, m1, ptr, ptr + n)
    {
      var cs, k' := MallocWritten(bs, k2, want, stale), Shifted(bs, k, k2, want);
      MallocWrittenPos(bs, k2, want, stale, k);
      MallocWrittenPos(bs, k2, want, stale, k2);
      WalkStep(m, bs, k);
      if k < k2 {
        PosGap(bs, k, k2);
      } else {
        PosGap(bs, k2, k);
        if k2 + 1 < k {
          PosGap(bs, k2 + 1, k);
        }
      }
      SliceKept(m, m1, Pos(bs, k2), Pos(bs, k2 + 1), Pos(bs, k) + HDR, Pos(bs, k) + HDR + bs[k].size);
    }

    static lemma CopiedFromKept(m: seq<Word>, m1: seq<Word>, m2: seq<Word>, src: nat, dst: nat, n: nat)
      requires Kept(m, m1, src, src + n) && Copied(m1, src, m2, dst, n)
      ensures Copied(m, src, m2, dst, n)
    {
    }

    /** realloc's growth in place. */
    method GrowInPlace(pblk: nat, want: Word, n: nat, pnext: nat, ghost k: nat)
      requires Valid() && k < |blocks| && !blocks[k].last && pblk == Pos(blocks, k) && blocks[k].size <= want <= n
      requires CanGrow(blocks, k, want) && n == Gathered(blocks, k, Reach(blocks, k, want, k + 1))
               && pnext == Pos(blocks, Reach(blocks, k, want, k + 1))
      modifies this`blocks, mem
      ensures blocks == GrowDesign(old(blocks), k, want)
      ensures Valid() <==> n == want || n - want > HDR
      ensures Kept(old(mem[..]), mem[..], pblk + HDR, pblk + HDR + old(blocks)[k].size)
      ensures OthersKept(old(blocks), old(mem[..]), mem[..], pblk + HDR)
      ensures old(blocks)[k].used ==> Serves(mem[..], pblk + HDR, want)
    {
      hide Represents, Splice, SetPrev, Pos, Reach, Kept, OthersKept, Serves, ResizedTo, OtherPayloadsKept;
      ghost var bs, j, m := blocks, Reach(blocks, k, want, k + 1), mem[..];
      GrowAbsorbsFree(bs, k, want);
      ghost var size := GrowLive(bs, k, want);
      blocks := GrowDesign(bs, k, want);
      if n - want > HDR {
        GrowWithRest(pblk, want, n, pnext, bs, k, j, bs[k].(size := want, last := false),
                     Block(n - want - HDR, want, false, j == |bs|));
        ResizeChanges(m, mem[..], bs, blocks, k, size);
        if bs[k].used {
          ResizeServes(mem[..], bs, blocks, k, size, want);
        }
      } else {
        GrowWithoutRest(pblk, want, n, pnext, bs, k, j, bs[k].(size := n, last := j == |bs|));
      }
    }

    /** What realloc needs of the list around block k: to change its size, its last mark; to move it, that it can be
        freed then. */
    ghost predicate Resizable(bs: seq<Block>, k: nat, want: nat) {
      && k < |bs|
      && (want != bs[k].size ==> LastMarked(bs, k))
      && (want > bs[k].size && !CanGrow(bs, k, want) ==> Movable(bs, k, want))
    }

    /** A heap that obeys the discipline qualifies. */
    lemma WellFormedResizable(bs: seq<Block>, k: nat, want: nat)
      requires WellFormed(bs) && k < |bs| && bs[k].used
      ensures Resizable(bs, k, want)
    {
      forall k2, stale | IsChoice(bs, want, firstFit, k2)
        ensures Freeable(MallocWritten(bs, k2, want, stale), Shifted(bs, k, k2, want))
      {
        MallocLeavesFreeable(bs, k, k2, want, stale);
      }
    }

    /** The heap that the history of MallocFailure leaves has lost the discipline, and its last block can be resized. */
    lemma ResizableWhenBroken(want: nat)
      ensures var bs := [Block(8, 0, true, false), Block(16, 8, false, false), Block(8, 32, true, true)];
        !WellFormed(bs) && Resizable(bs, 2, want)
    {
      var bs := [Block(8, 0, true, false), Block(16, 8, false, false), Block(8, 32, true, true)];
      assert !Linked(bs, 2);
      forall k2, stale | IsChoice(bs, want, firstFit, k2)
        ensures Freeable(MallocWritten(bs, k2, want, stale), Shifted(bs, 2, k2, want))
      {
        assert k2 == 1;
        BrokenStaysFreeable(want, stale);
      }
    }

    static lemma BrokenStaysFreeable(want: nat, stale: Stale)
      requires want <= 16
      ensures var bs := [Block(8, 0, true, false), Block(16, 8, false, false), Block(8, 32, true, true)];
        Freeable(MallocWritten(bs, 1, want, stale), Shifted(bs, 2, 1, want))
    {
      var bs := [Block(8, 0, true, false), Block(16, 8, false, false), Block(8, 32, true, true)];
      var cs, k' := MallocWritten(bs, 1, want, stale), Shifted(bs, 2, 1, want);
      assert Pos(bs, 0) == 0 && Pos(bs, 1) == 16 && Pos(bs, 2) == 40;
      MallocWrittenPos(bs, 1, want, stale, 2);
      MallocWrittenPos(bs, 1, want, stale, 0);
      assert cs[k'] == bs[2] && cs[0] == bs[0] && LeadsTo(cs, k', 0);
    }

    /** realloc of a block that exists: keep, shrink, grow in place, or move. */
    method Resize(pblk: nat, want: Word, ghost k: nat) returns (rv: Pointer, ghost how: ReallocOutcome)
      requires Valid() && Resizable(blocks, k, want) && blocks[k].used && pblk == Pos(blocks, k)
      requires want < 0x4000_0000 && want % ALIGN == 0
      modifies this`blocks, mem
      ensures ResizeOutcome(old(blocks), k, want, rv, how)
      ensures blocks == ResizeBlocks(old(blocks), want, how)
      ensures Valid() <==> how.Grown? ==> GrowKeeps(old(blocks), k, want)
      ensures rv.At? ==> Copied(old(mem[..]), pblk + HDR, mem[..], rv.word, Min(want, old(blocks)[k].size))
      ensures rv.Null? ==> mem[..] == old(mem[..])
      ensures rv.At? ==> Serves(mem[..], rv.word, want)
      ensures OthersKept(old(blocks), old(mem[..]), mem[..], pblk + HDR)
    {
      hide Represents, Shrink, GrowDesign, FreeWritten, MallocWritten, Kept, Copied, IsChoice, Pos, Reach, NoneFits;
      hide Shifted, Serves, OthersKept;
      ghost var m := mem[..];
      WalkStep(m, blocks, k);
      ghost var keep := Min(want, blocks[k].size);
      if want == mem[pblk + SIZE] {
        rv, how := At(pblk + HDR), Unchanged(k);
        KeptCopied(m, mem[..], pblk + HDR, keep);
        KeptAsIs(m, blocks, pblk + HDR);
        HeaderServes(m, pblk, blocks[k], want);
        return;
      }
      if want < mem[pblk + SIZE] {
        ShrinkInPlace(pblk, want, k);
        rv, how := At(pblk + HDR), Shrunk(k);
        KeptCopied(m, mem[..], pblk + HDR, keep);
        return;
      }
      var n, pnext := Gather(pblk, want, k);
      if n < want {
        ghost var k2, stale;
        rv, k2, stale := Move(pblk + HDR, want, k);
        how := if rv.At? then Moved(k, k2, stale) else Rejected;
        if rv.At? {
          MovedIndices(old(blocks), k, k2, want, firstFit, stale);
        }
        return;
      }
      NotLastIfItGrows(blocks, k, want);
      GrowInPlace(pblk, want, n, pnext, k);
      rv, how := At(pblk + HDR), Grown(k);
      KeptCopied(m, mem[..], pblk + HDR, keep);
    }

    /** realloc.  NULL allocates, size 0 frees, a pointer to no live block is rejected; otherwise Resize. */
    method Realloc(p: Pointer, bytes: nat, ghost k: nat) returns (rv: Pointer, ghost how: ReallocOutcome)
      requires Valid() && bytes < 0x1_0000_0000
      requires p.At? ==> HDR <= p.word <= mem.Length
      requires p.At? && bytes == 0 && mem[p.word - HDR + SIGNATURE] == BLOCK_SIG ==>
        && Freeable(blocks, k)
        && p.word == Pos(blocks, k) + HDR
      requires p.At? && bytes != 0 && IsLive(blocks, p.word) ==>
        Resizable(blocks, LiveIndex(blocks, p.word), AlignedWords(bytes))
      modifies this`blocks, mem
      ensures p.Null? && rv.Null? ==>
        && NoneFits(old(blocks), AlignedWords(bytes))
        && blocks == old(blocks)
        && mem[..] == old(mem[..])
      ensures p.Null? && rv.At? ==>
        && how.Allocated? && IsChoice(old(blocks), AlignedWords(bytes), firstFit, how.k2)
        && rv.word == Pos(old(blocks), how.k2) + HDR
        && blocks == MallocWritten(old(blocks), how.k2, AlignedWords(bytes), how.stale)
      ensures p.At? && bytes == 0 ==>
        && how == Released && rv == Null
        && blocks == if old(mem[p.word - HDR + SIGNATURE]) == BLOCK_SIG then FreeWritten(old(blocks), k)
                     else old(blocks)
      ensures p.At? && bytes != 0 ==>
        if IsLive(old(blocks), p.word)
        then
          && ResizeOutcome(old(blocks), LiveIndex(old(blocks), p.word), AlignedWords(bytes), rv, how)
          && blocks == ResizeBlocks(old(blocks), AlignedWords(bytes), how)
          && (rv.At? ==>
                var size := old(blocks)[LiveIndex(old(blocks), p.word)].size;
                Copied(old(mem[..]), p.word, mem[..], rv.word, Min(AlignedWords(bytes), size)))
        else how == Rejected && rv == Null && blocks == old(blocks) && mem[..] == old(mem[..])
      ensures Valid() <==> how.Grown? ==> how.k < |old(blocks)| && GrowKeeps(old(blocks), how.k, AlignedWords(bytes))
      ensures rv.At? ==> Serves(mem[..], rv.word, AlignedWords(bytes))
      ensures OthersKept(old(blocks), old(mem[..]), mem[..], if p.At? then p.word else 0)
    {
      hide Represents, Shrink, GrowDesign, FreeWritten, MallocWritten, Kept, Copied, IsChoice, Reach, NoneFits;
      hide Shifted, ResizeBlocks, CanGrow, GrowKeeps, Serves, OthersKept;
      if p.Null? {
        ghost var k2, stale;
        rv, k2, stale := Malloc(bytes);
        how := Allocated(k2, stale);
        return;
      }
      if bytes == 0 {
        Free(p, k);
        return Null, Released;
      }
      var want := AlignedWords(bytes);
      AlignedWordsHolds(bytes);
      var pblk;
      ghost var live;
      pblk, live := FindBlock(p.word);
      if pblk.At? {
        WalkStep(mem[..], blocks, live);
        if mem[pblk.word + SIGNATURE] == BLOCK_SIG && IsUsed(mem[pblk.word + FLAGS]) {
          LiveIndexIs(blocks, p.word, live);
          rv, how := Resize(pblk.word, want, live);
          return;
        }
        NotLive(blocks, p.word, live);
      }
      KeptAsIs(mem[..], blocks, p.word);
      return Null, Rejected;
    }

    static lemma KeptCopied(m: seq<Word>, m': seq<Word>, a: nat, n: nat)
      requires Kept(m, m', a, a + n) || (m == m' && a + n <= |m|)
      ensures Copied(m, a, m', a, n)
    {
    }

    /** Which way realloc of block k goes, and what it answers. */
    ghost predicate ResizeOutcome(bs: seq<Block>, k: nat, want: nat, rv: Pointer, how: ReallocOutcome) {
      && k < |bs|
      && (want == bs[k].size ==> how == Unchanged(k))
      && (want < bs[k].size ==> how == Shrunk(k))
      && (want > bs[k].size && CanGrow(bs, k, want) ==> how == Grown(k))
      && (want > bs[k].size && !CanGrow(bs, k, want) ==>
          if how.Moved?
          then how.k == k && IsChoice(bs, want, firstFit, how.k2) && rv == At(Pos(bs, how.k2) + HDR)
          else how == Rejected && NoneFits(bs, want))
      && (how.Unchanged? || how.Shrunk? || how.Grown? ==> rv == At(Pos(bs, k) + HDR))
      && (how.Rejected? ==> rv == Null)
    }
  }
}
