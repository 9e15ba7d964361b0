/** ext2_inode_io of virgoos/src/fs/ext2.c:1086-1357: reading and writing a stretch of a file block by block, with a
    cursor over the pointer blocks, proved to read and to write a flat array of bytes exactly when the cursor meets no
    block that trips it. */
module Ext2InodeIo {
  import opened Common
  import opened Division
  import opened Ext2Mapping
  import opened Ext2File
  import opened Ext2Transfer

  class Ext2Fs {
    const n: Fanout
    /** How the loop finds the end of a pointer block: Absolute is the code, Relative what it takes to be right. */
    const tests: Tests
    /** The blocks of the device; s_blocks_count is their number. */
    var disk: seq<Block>

    ghost predicate Valid()
      reads this
    {
      forall b <- disk :: |b| == 4 * n
    }

    method ReadBlock(b: nat) returns (ok: bool, buf: Block)
      ensures ok <==> b < |disk|
      ensures buf == Fetch(disk, b)
    {
      if b < |disk| {
        return true, disk[b];
      }
      return false, [];
    }

    /** The pointer blocks that lead to p have been read from the disk, and curr is where they lead. */
    ghost predicate Opened(ino: Inode, p: Path, l: Levels, curr: nat, stray: nat -> nat)
      requires |ino.block| == N_BLOCKS
      reads this
    {
      && Follows(n, disk, ino, p, l, stray) && curr == Target(n, disk, ino, p, stray)
      && HasInnermost(|disk|, Way(n, disk, ino, p, stray))
    }

    /** The same, told by a disk that agrees on the way. */
    ghost predicate Follow(disk0: seq<Block>, ino: Inode, p: Path, l: Levels, c: nat, p': Path, l': Levels, curr: nat,
                           stray: nat -> nat)
      requires |ino.block| == N_BLOCKS
      reads this
    {
      var way := Way(n, disk0, ino, p', stray);
      Follows(n, disk0, ino, p, l, stray) && (Reads(n, p, p', c) ==> AgreeOn(disk0, disk, way)) ==>
        && Follows(n, disk0, ino, p', l', stray) && curr == Target(n, disk0, ino, p', stray)
        && (Reads(n, p, p', c) ==> HasInnermost(|disk|, way))
    }

    lemma OpenedFollow(disk0: seq<Block>, ino: Inode, p: Path, l: Levels, c: nat, p': Path, l': Levels, curr: nat,
                       stray: nat -> nat)
      requires |ino.block| == N_BLOCKS && Opened(ino, p', l', curr, stray) && Reads(n, p, p', c)
      ensures Follow(disk0, ino, p, l, c, p', l', curr, stray)
    {
      hide Follows, Target, Way, AgreeOn, HasInnermost, Reads;
      if AgreeOn(disk0, disk, Way(n, disk0, ino, p', stray)) {
        AgreeingWays(n, disk0, disk, ino, p', l', stray);
      }
    }

    /** A descent from buffers that are kept. */
    lemma DescentFollows(disk0: seq<Block>, ino: Inode, p: Path, l: Levels, c: nat, p': Path, l': Levels, curr: nat,
                         stray: nat -> nat)
      requires |ino.block| == N_BLOCKS && l'.ind3 == l.ind3 && p'.Ind2? == p.Ind2? && p'.Ind3? == p.Ind3?
      requires p'.Ind2? || p'.Ind3?
      requires p'.Ind3? && p.ind2 != p'.ind2 ==>
        l'.ind2 == Fetch(disk, BufPtr(n, l.ind3, p'.ind2, stray))
      requires p'.Ind2? || p.ind2 == p'.ind2 ==> l'.ind2 == l.ind2
      requires var b := BufPtr(n, l'.ind2, p'.ind, stray); b < |disk| && l'.ind == Fetch(disk, b)
      requires curr == BufPtr(n, l'.ind, LastIndex(p'), stray) && Reads(n, p, p', c)
      ensures Follow(disk0, ino, p, l, c, p', l', curr, stray)
    {
      hide PtrAt, Fetch, BufPtr, Reads;
      var way := Way(n, disk0, ino, p', stray);
      if Follows(n, disk0, ino, p, l, stray) && AgreeOn(disk0, disk, way) {
        assert Fetch(disk, way[1]) == Fetch(disk0, way[1]);
        assert p'.Ind3? ==> Fetch(disk, way[2]) == Fetch(disk0, way[2]);
      }
    }

    /** A step within the pointer block at hand, or among the direct blocks. */
    lemma StepFollows(disk0: seq<Block>, ino: Inode, p: Path, l: Levels, c: nat, p': Path, curr: nat, stray: nat -> nat)
      requires |ino.block| == N_BLOCKS
      requires if p'.Direct? then p'.n < NDIR_BLOCKS && curr == ino.block[p'.n]
               else !Reads(n, p, p', c) && curr == BufPtr(n, l.ind, LastIndex(p'), stray)
      ensures Follow(disk0, ino, p, l, c, p', l, curr, stray)
    {
      hide PtrAt, Fetch, BufPtr;
    }

    method OpenInd(ino: Inode, d: nat, stray: nat -> nat) returns (ok: bool, l: Levels, curr: nat)
      requires |ino.block| == N_BLOCKS
      ensures ok && Within(n, Ind(d)) ==> Loaded(disk, ino, Ind(d), l) && curr == Slot(disk, ino, Ind(d))
      ensures WayOnDisk(disk, ino, Ind(d)) ==> ok
      ensures ok ==> Opened(ino, Ind(d), l, curr, stray)
    {
      hide PtrAt;
      WayIs(disk, ino, Ind(d));
      var ind;
      ok, ind := ReadBlock(ino.block[IND_BLOCK]);
      l, curr := Levels(ind, [], []), BufPtr(n, ind, d, stray);
    }

    /** From the block of level 2 down to the data block. */
    method DescendInd2(ino: Inode, l: Levels, i: nat, d: nat, stray: nat -> nat)
      returns (ok: bool, l': Levels, curr: nat)
      ensures l' == Levels(Fetch(disk, BufPtr(n, l.ind2, i, stray)), l.ind2, l.ind3)
      ensures curr == BufPtr(n, l'.ind, d, stray)
      ensures ok <==> BufPtr(n, l.ind2, i, stray) < |disk|
    {
      var ind;
      ok, ind := ReadBlock(BufPtr(n, l.ind2, i, stray));
      l' := l.(ind := ind);
      curr := BufPtr(n, ind, d, stray);
    }

    method OpenInd2(ino: Inode, i: nat, d: nat, stray: nat -> nat) returns (ok: bool, l: Levels, curr: nat)
      requires |ino.block| == N_BLOCKS
      ensures ok && Within(n, Ind2(i, d)) ==> Loaded(disk, ino, Ind2(i, d), l) && curr == Slot(disk, ino, Ind2(i, d))
      ensures i < n && WayOnDisk(disk, ino, Ind2(i, d)) ==> ok
      ensures ok ==> Opened(ino, Ind2(i, d), l, curr, stray)
    {
      hide PtrAt;
      WayIs(disk, ino, Ind2(i, d));
      var ind2;
      ok, ind2 := ReadBlock(ino.block[DIND_BLOCK]);
      l, curr := Levels([], ind2, []), 0;
      if ok {
        ok, l, curr := DescendInd2(ino, l, i, d, stray);
      }
    }

    /** From the block of level 3 down to the data block. */
    method DescendInd3(ino: Inode, l: Levels, k: nat, i: nat, d: nat, stray: nat -> nat)
      returns (ok: bool, l': Levels, curr: nat)
      ensures var b2 := BufPtr(n, l.ind3, k, stray); var b1 := BufPtr(n, Fetch(disk, b2), i, stray);
        && (ok <==> b2 < |disk| && b1 < |disk|)
        && (ok ==> l' == Levels(Fetch(disk, b1), Fetch(disk, b2), l.ind3) && curr == BufPtr(n, l'.ind, d, stray))
    {
      var ind2;
      ok, ind2 := ReadBlock(BufPtr(n, l.ind3, k, stray));
      l', curr := l.(ind2 := ind2), 0;
      if ok {
        ok, l', curr := DescendInd2(ino, l', i, d, stray);
      }
    }

    method OpenInd3(ino: Inode, k: nat, i: nat, d: nat, stray: nat -> nat) returns (ok: bool, l: Levels, curr: nat)
      requires |ino.block| == N_BLOCKS
      ensures ok && Within(n, Ind3(k, i, d)) ==>
        Loaded(disk, ino, Ind3(k, i, d), l) && curr == Slot(disk, ino, Ind3(k, i, d))
      ensures k < n && i < n && WayOnDisk(disk, ino, Ind3(k, i, d)) ==> ok
      ensures ok ==> Opened(ino, Ind3(k, i, d), l, curr, stray)
    {
      hide PtrAt;
      WayIs(disk, ino, Ind3(k, i, d));
      var ind3;
      ok, ind3 := ReadBlock(ino.block[TIND_BLOCK]);
      l, curr := Levels([], [], ind3), 0;
      if ok {
        ok, l, curr := DescendInd3(ino, l, k, i, d, stray);
      }
    }

    /** The closed form: path, buffers and data block of the first file block of a transfer. */
    method Start(ino: Inode, c: nat, stray: nat -> nat) returns (ok: bool, p: Path, l: Levels, curr: nat)
      requires |ino.block| == N_BLOCKS
      ensures p == PathOf(n, c) && (c >= NDIR_BLOCKS ==> !p.Direct?)
      ensures ok && Within(n, p) ==> Loaded(disk, ino, p, l) && curr == Slot(disk, ino, p)
      ensures Within(n, p) && WayOnDisk(disk, ino, p) ==> ok
    {
      hide PtrAt, Quot, Rem, Square, PtrBlocks, WayOnDisk;
      Positive(n);
      p := PathOf(n, c);
      if c < NDIR_BLOCKS {
        ok, l, curr := true, Levels([], [], []), ino.block[c];
      } else if c < FirstInd2(n) {
        ok, l, curr := OpenInd(ino, c - NDIR_BLOCKS, stray);
      } else if c < FirstInd3(n) {
        var r := c - FirstInd2(n);
        ok, l, curr := OpenInd2(ino, Quot(r, n), Rem(r, n), stray);
      } else {
        var r := c - FirstInd3(n);
        ok, l, curr :=
          OpenInd3(ino, Quot(r, Square(n)), Quot(Rem(r, Square(n)), n), Rem(Rem(r, Square(n)), n), stray);
      }
    }

    /** The head of the loop: path, buffers and data block of file block c, from those of block c - 1. */
    method Next(ino: Inode, c: nat, p: Path, l: Levels, stray: nat -> nat, ghost disk0: seq<Block>)
      returns (ok: bool, p': Path, l': Levels, curr: nat)
      requires |ino.block| == N_BLOCKS && c > 0 && (c > NDIR_BLOCKS ==> !p.Direct?)
      ensures p' == Advance(tests, n, p, c) && (c >= NDIR_BLOCKS ==> !p'.Direct?)
      ensures ok && Within(n, p') && Loaded(disk, ino, p, l) ==>
        && Loaded(disk, ino, p', l')
        && curr == Slot(disk, ino, p')
      ensures Within(n, p') && Loaded(disk, ino, p, l) && WayOnDisk(disk, ino, p') ==> ok
      ensures ok ==> Follow(disk0, ino, p, l, c, p', l', curr, stray)
    {
      hide PtrAt, Quot, Rem, Square, Opened, Follow;
      Positive(n);
      if c < NDIR_BLOCKS {
        ok, p', l', curr := true, Direct(c), l, ino.block[c];
        StepFollows(disk0, ino, p, l, c, p', curr, stray);
      } else if c == IND_BLOCK {
        p' := Ind(0);
        ok, l', curr := OpenInd(ino, 0, stray);
        if ok {
          OpenedFollow(disk0, ino, p, l, c, p', l', curr, stray);
        }
      } else if c == FirstInd2(n) {
        p' := Ind2(0, 0);
        ok, l', curr := OpenInd2(ino, 0, 0, stray);
        if ok {
          OpenedFollow(disk0, ino, p, l, c, p', l', curr, stray);
        }
      } else if c == FirstInd3(n) {
        p' := Ind3(0, 0, 0);
        ok, l', curr := OpenInd3(ino, 0, 0, 0, stray);
        if ok {
          OpenedFollow(disk0, ino, p, l, c, p', l', curr, stray);
        }
      } else if p.Ind3? && EndsAt(tests, c, FirstInd3(n), Square(n)) {
        p' := Ind3(p.ind2 + 1, 0, 0);
        WayIs(disk, ino, p');
        ok, l', curr := DescendInd3(ino, l, p.ind2 + 1, 0, 0, stray);
        if ok {
          DescentFollows(disk0, ino, p, l, c, p', l', curr, stray);
        }
      } else if (p.Ind2? || p.Ind3?) && EndsAt(tests, c, if p.Ind3? then FirstInd3(n) else FirstInd2(n), n) {
        p' := if p.Ind3? then Ind3(p.ind2, p.ind + 1, 0) else Ind2(p.ind + 1, 0);
        WayIs(disk, ino, p');
        ok, l', curr := DescendInd2(ino, l, p.ind + 1, 0, stray);
        if ok {
          DescentFollows(disk0, ino, p, l, c, p', l', curr, stray);
        }
      } else {
        p' := match p
          case Direct(_) => p
          case Ind(d) => Ind(d + 1)
          case Ind2(i, d) => Ind2(i, d + 1)
          case Ind3(k, i, d) => Ind3(k, i, d + 1);
        ok, l', curr := true, l, BufPtr(n, l.ind, LastIndex(p'), stray);
        StepFollows(disk0, ino, p, l, c, p', curr, stray);
      }
    }

    /** The transfer of one block: read it whole, then copy out of it, or copy into it and write it back. */
    method Chunk(curr: nat, o: nat, sz: nat, cmd: IoCmd, data: seq<Byte>) returns (ok: bool, part: seq<Byte>)
      requires Valid() && o + sz <= 4 * n && (cmd.Write? ==> |data| == sz)
      modifies this`disk
      ensures Valid() && |disk| == |old(disk)| && (ok <==> curr < |old(disk)|)
      ensures ok ==> |old(disk)[curr]| == 4 * n
      ensures ok && cmd.Read? ==> part == old(disk)[curr][o..o + sz]
      ensures cmd.Read? || !ok ==> disk == old(disk)
      ensures ok && cmd.Write? ==> disk == old(disk)[curr := Overlay(old(disk)[curr], o, data)]
    {
      part := [];
      var buf;
      ok, buf := ReadBlock(curr);
      if !ok {
        return;
      }
      assert disk[curr] in disk;
      if cmd.Read? {
        part := buf[o..o + sz];
      } else {
        disk := disk[curr := Overlay(buf, o, data)];
      }
    }

    /** The first block of a transfer. */
    method ServeFirst(ino: Inode, offs: nat, want: nat, cmd: IoCmd, data: seq<Byte>, stray: nat -> nat)
      returns (ok: bool, sz: nat, part: seq<Byte>, p: Path, l: Levels)
      requires Valid() && |ino.block| == N_BLOCKS && (cmd.Write? ==> |data| == want) && (cmd.Read? ==> offs < ino.size)
      modifies this`disk
      ensures Valid() && |disk| == |old(disk)| && (cmd.Read? ==> disk == old(disk))
      ensures sz == First(n, ino.size, offs, want, cmd)
      ensures p == PathOf(n, Quot(offs, 4 * n)) && (Quot(offs, 4 * n) >= NDIR_BLOCKS ==> !p.Direct?)
      ensures var s := Slot(old(disk), ino, p); Within(n, p) && WayOnDisk(old(disk), ino, p) && s < |old(disk)| ==>
        && ok && Loaded(old(disk), ino, p, l)
        && ChunkDone(old(disk), disk, cmd, s, Rem(offs, 4 * n), if cmd.Write? then data[..sz] else [], part, sz)
    {
      hide PtrBlocks, PathOf, PtrAt, Slot, Loaded, WayOnDisk, Overlay, Quot, Rem;
      var curr;
      ok, p, l, curr := Start(ino, Quot(offs, 4 * n), stray);
      sz := 4 * n - Rem(offs, 4 * n);
      if want < sz {
        sz := want;
      }
      if cmd.Read? && ino.size - offs < sz {
        sz := ino.size - offs;
      }
      part := [];
      if ok {
        ok, part := Chunk(curr, Rem(offs, 4 * n), sz, cmd, if cmd.Write? then data[..sz] else []);
      }
    }

    /** One pass of the loop. */
    method ServeNext(ino: Inode, offs: nat, left: nat, cmd: IoCmd, data: seq<Byte>, c: nat, p: Path, l: Levels,
                     stray: nat -> nat, ghost disk0: seq<Block>)
      returns (ok: bool, sz: nat, part: seq<Byte>, p': Path, l': Levels)
      requires Valid() && |ino.block| == N_BLOCKS && offs < ino.size && (cmd.Write? ==> |data| == left)
      requires c > 0 && (c > NDIR_BLOCKS ==> !p.Direct?)
      modifies this`disk
      ensures Valid() && |disk| == |old(disk)| && (cmd.Read? ==> disk == old(disk))
      ensures sz == NextChunk(n, ino.size, offs, left, cmd) && (left > 0 ==> sz > 0)
      ensures p' == Advance(tests, n, p, c) && (c >= NDIR_BLOCKS ==> !p'.Direct?)
      ensures
        Within(n, p') && WayOnDisk(old(disk), ino, p') && Slot(old(disk), ino, p') < |old(disk)|
        && Loaded(old(disk), ino, p, l) ==>
          ok
      ensures ok ==>
        Passed(n, disk0, old(disk), disk, ino, cmd, c, p, l, p', l', stray, if cmd.Write? then data[..sz] else [],
               part, sz)
    {
      hide PtrBlocks, PathOf, PtrAt, Slot, Loaded, WayOnDisk, Overlay, Quot, Rem, Advance, Target, Within;
      hide Follows, Way, AgreeOn, Reads;
      var curr;
      ok, p', l', curr := Next(ino, c, p, l, stray, disk0);
      sz := 4 * n;
      if left < sz {
        sz := left;
      }
      part := [];
      if cmd.Read? && ino.size - offs < sz {
        sz := ino.size - offs;
      }
      if ok && curr >= |disk| {
        ok := false;
      }
      if ok {
        ok, part := Chunk(curr, 0, sz, cmd, if cmd.Write? then data[..sz] else []);
      }
    }

    /** A transfer.  One whose cursor is right all the way moves what it should, and only that; one whose cursor goes
        wrong does not, whenever that shows. */
    method InodeIo(ino: Inode, offs0: nat, want: nat, cmd: IoCmd, data: seq<Byte>, stray: nat -> nat, ghost nb: nat)
      returns (r: IoResult, ino': Inode, buffer: seq<Byte>)
      requires Valid() && |ino.block| == N_BLOCKS && offs0 < TWO32 && (cmd.Write? ==> |data| == want)
      modifies this`disk
      ensures Valid() && |disk| == |old(disk)| && ino'.block == ino.block
      ensures cmd.Read? ==> disk == old(disk) && ino' == ino
      ensures cmd.Read? && offs0 >= ino.size ==> r == Count(0) && buffer == []
      ensures var moved := Moved(n, ino.size, offs0, want, cmd);
        InRange(n, old(disk), ino, nb, offs0, moved) ==>
          && (Steady(tests, n, offs0, moved) ==>
                Right(n, old(disk), disk, ino, ino', nb, cmd, offs0, moved, data, buffer, r))
          && (TripTells(n, old(disk), ino, nb, cmd, offs0, moved, data, stray) ==>
                (Right(n, old(disk), disk, ino, ino', nb, cmd, offs0, moved, data, buffer, r) <==>
                 Steady(tests, n, offs0, moved)))
    {
      hide PathOf, Slot, PtrBlocks, PtrAt, Loaded, Quot, Rem, Square, Mapped, LastBlock, Smooth, Moved, Rest, Overlay;
      hide Valid, ChunkDone, Advance, Within, WayOnDisk, NextChunk, First, InRange, Steady, Right, TripTells, Telling;
      hide OnTrack, Passed, FirstTrip, Target, Fetch;
      ghost var disk0, moved, trip, stop := disk, Moved(n, ino.size, offs0, want, cmd), 0, 0;
      ghost var followed := InRange(n, disk, ino, nb, offs0, moved)
        && (Steady(tests, n, offs0, moved) || TripTells(n, disk, ino, nb, cmd, offs0, moved, data, stray));
      ino', buffer := ino, [];
      if cmd.Read? && offs0 >= ino.size {
        NothingToRead(n, tests, disk, ino, nb, offs0, want, data);
        return Count(0), ino, [];
      }
      if followed {
        BeforeFirst(n, disk, ino, nb, offs0, moved);
        if !Steady(tests, n, offs0, moved) {
          trip, stop := TripOf(tests, n, disk, ino, nb, cmd, offs0, moved, data, stray);
        }
      }
      var c := Quot(offs0, 4 * n);
      var ok, sz, part, p, l := ServeFirst(ino, offs0, want, cmd, data, stray);
      if !ok {
        FailedIsWrong(n, disk0, disk, ino, ino, nb, cmd, offs0, moved, data, []);
        return Failed, ino, [];
      }
      var offs: nat, left: nat, count: nat := (offs0 + sz) % TWO32, want - sz, sz;
      buffer, c := part, c + 1;
      if followed {
        TrackAfterFirst(tests, n, disk0, disk, ino, nb, cmd, offs0, want, data, stray, trip, stop,
                        if cmd.Write? then data[..sz] else [], part, p, l);
      }
      while left > 0 && offs < ino.size
        invariant Valid() && |disk| == |disk0| && (cmd.Read? ==> disk == disk0)
        invariant left + count == want && c > 0 && (c > NDIR_BLOCKS ==> !p.Direct?)
        invariant followed ==> offs == offs0 + count && (cmd.Read? ==> |buffer| == count)
        invariant followed ==>
          OnTrack(tests, n, disk0, disk, ino, nb, cmd, offs0, want, stray, Done(cmd, data, buffer, count), c, p, l,
                  trip, stop)
        decreases left
      {
        ghost var was, done, p0, l0 := disk, Done(cmd, data, buffer, count), p, l;
        if followed {
          TrackGoesOn(tests, n, disk0, disk, ino, nb, cmd, offs0, want, data, stray, done, c, p, l, trip, stop);
        }
        ok, sz, part, p, l := ServeNext(ino, offs, left, cmd, if cmd.Write? then data[count..] else [], c, p, l,
                                         stray, disk0);
        if !ok {
          FailedIsWrong(n, disk0, disk, ino, ino, nb, cmd, offs0, moved, data, buffer);
          return Failed, ino, buffer;
        }
        ghost var more := if cmd.Write? then data[count..][..sz] else [];
        if followed {
          TrackNext(tests, n, disk0, was, disk, ino, nb, cmd, offs0, want, data, stray, done, c, p0, l0, trip, stop,
                    p, l, more, part, sz);
          if cmd.Write? {
            TakeMore(data, count, sz);
          }
        }
        left, offs, buffer, count, c := left - sz, (offs + sz) % TWO32, buffer + part, count + sz, c + 1;
      }
      if cmd.Write? && offs > ino.size {
        ino' := ino.(size := offs);
      }
      if followed {
        TrackEnds(tests, n, disk0, disk, ino, nb, cmd, offs0, want, data, stray, buffer, count, c, p, l, trip, stop);
      }
      return Count(count), ino', buffer;
    }

    /** ext2_file_read. */
    method FileRead(ino: Inode, offs: nat, count: nat, stray: nat -> nat, ghost nb: nat)
      returns (r: IoResult, buf: seq<Byte>)
      requires Valid() && |ino.block| == N_BLOCKS && offs < TWO32
      modifies this`disk
      ensures Valid() && disk == old(disk)
      ensures offs >= ino.size ==> r == Count(0) && buf == []
      ensures var m := Min(count, ino.size - offs);
        offs < ino.size && InRange(n, disk, ino, nb, offs, m) ==>
          && (Steady(tests, n, offs, m) ==> r == Count(m) && buf == Bytes(n, disk, ino, offs, offs + m))
          && (TripTells(n, disk, ino, nb, Read, offs, m, [], stray) ==>
                (r == Count(m) && buf == Bytes(n, disk, ino, offs, offs + m) <==> Steady(tests, n, offs, m)))
    {
      hide PathOf, Slot, PtrBlocks, PtrAt, Quot, Rem, Square, Mapped, LastBlock, Smooth, Bytes, Holds, TripTells;
      hide Steady;
      hide InRange;
      var ino';
      r, ino', buf := InodeIo(ino, offs, count, Read, [], stray, nb);
    }

    /** ext2_file_write once the needed blocks are there: the size grows before the transfer, so all data is written. */
    method FileWrite(ino: Inode, offs: nat, data: seq<Byte>, stray: nat -> nat, ghost nb: nat)
      returns (r: IoResult, ino': Inode)
      requires Valid() && |ino.block| == N_BLOCKS && offs < TWO32
      modifies this`disk
      ensures Valid() && |disk| == |old(disk)| && ino'.block == ino.block
      ensures var g := Grown(ino, offs + |data|);
        InRange(n, old(disk), g, nb, offs, |data|) ==>
          && (Steady(tests, n, offs, |data|) ==> WriteDone(n, old(disk), disk, ino, ino', nb, offs, data, r))
          && (TripTells(n, old(disk), g, nb, Write, offs, |data|, data, stray) ==>
                (WriteDone(n, old(disk), disk, ino, ino', nb, offs, data, r) <==> Steady(tests, n, offs, |data|)))
    {
      hide PathOf, Slot, PtrBlocks, PtrAt, Quot, Rem, Square, LastBlock, Smooth, Bytes, Moved, Mapped, Holds;
      hide OnlyBlocks;
      hide TripTells, Steady;
      var end := (offs + |data|) % TWO32;
      ino' := ino;
      if end > ino.size {
        ino' := ino.(size := end);
      }
      if offs + |data| < TWO32 {
        GrownFileTakesAll(n, ino'.size, offs, |data|, Write);
        assert data[..|data|] == data;
      }
      var buf;
      r, ino', buf := InodeIo(ino', offs, |data|, Write, data, stray, nb);
    }

    /** A write and a read after it, by whichever stretches: the bytes that come back are those that stood there, up to
        the end of the grown file, with the data laid over them. */
    method WriteThenRead(ino: Inode, offs: nat, data: seq<Byte>, a: nat, count: nat, stray: nat -> nat,
                         stray': nat -> nat, ghost nb: nat)
      returns (r: IoResult, ino': Inode, buf: seq<Byte>)
      requires Valid() && |ino.block| == N_BLOCKS && offs < TWO32 && a < TWO32
      modifies this`disk
      ensures Valid() && |disk| == |old(disk)|
      ensures var g := Grown(ino, offs + |data|); var m := if a < g.size then Min(count, g.size - a) else 0;
        && InRange(n, old(disk), g, nb, offs, |data|) && Steady(tests, n, offs, |data|)
        && InRange(n, old(disk), g, nb, a, m) && Steady(tests, n, a, m) ==>
          && ino' == g && r == Count(m)
          && buf == LaidOver(Bytes(n, old(disk), g, a, a + m), a, offs, data)
    {
      hide PathOf, Slot, PtrBlocks, PtrAt, Quot, Rem, Square, LastBlock, Smooth, Bytes, Mapped, Holds, OnlyBlocks;
      hide TripTells, Steady;
      ghost var disk0, g := disk, Grown(ino, offs + |data|);
      ghost var m := if a < g.size then Min(count, g.size - a) else 0;
      r, ino' := FileWrite(ino, offs, data, stray, nb);
      ghost var disk1 := disk;
      r, buf := FileRead(ino', a, count, stray', nb);
      if InRange(n, disk0, g, nb, offs, |data|) && Steady(tests, n, offs, |data|) && InRange(n, disk0, g, nb, a, m) {
        TransferInBlocks(n, a, m, nb);
        if m > 0 {
          ReadAfterWrite(n, disk0, disk1, g, nb, offs, data, a, a + m);
        }
      }
    }
  }
}
