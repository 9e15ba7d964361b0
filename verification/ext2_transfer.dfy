/** What a transfer of ext2_inode_io (virgoos/src/fs/ext2.c:1086-1357) has done when it stands before a file block,
    while its cursor over the pointer blocks is right and after it has gone astray. */
module Ext2Transfer {
  import opened Common
  import opened Division
  import opened Ext2Mapping
  import opened Ext2File

  datatype IoCmd = Read | Write

  /** The count returned, or an error of the disk or EIO. */
  datatype IoResult = Count(n: nat) | Failed

  /** ind_block, ind2_block and ind3_block. */
  datatype Levels = Levels(ind: Block, ind2: Block, ind3: Block)

  // ---------------------------------------------------------------- buffers of pointer blocks

  /** Pointer i in a buffer that holds one block; behind the block lies whatever the stack held. */
  function BufPtr(n: Fanout, b: Block, i: nat, stray: nat -> nat): nat {
    if i < n then PtrAt(b, i) else stray(i)
  }

  /** The disk block that the code takes for a path, whose indices may lie behind the buffers. */
  function Target(n: Fanout, disk: seq<Block>, ino: Inode, p: Path, stray: nat -> nat): nat
    requires |ino.block| == N_BLOCKS
  {
    match p
    case Direct(c) => if c < NDIR_BLOCKS then ino.block[c] else 0
    case Ind(d) => BufPtr(n, Fetch(disk, ino.block[IND_BLOCK]), d, stray)
    case Ind2(i, d) => BufPtr(n, Fetch(disk, BufPtr(n, Fetch(disk, ino.block[DIND_BLOCK]), i, stray)), d, stray)
    case Ind3(k, i, d) =>
      var b2 := BufPtr(n, Fetch(disk, ino.block[TIND_BLOCK]), k, stray);
      BufPtr(n, Fetch(disk, BufPtr(n, Fetch(disk, b2), i, stray)), d, stray)
  }

  /** The pointer blocks that the code reads on the way there. */
  function Way(n: Fanout, disk: seq<Block>, ino: Inode, p: Path, stray: nat -> nat): seq<nat>
    requires |ino.block| == N_BLOCKS
  {
    match p
    case Direct(_) => []
    case Ind(_) => [ino.block[IND_BLOCK]]
    case Ind2(i, _) => [ino.block[DIND_BLOCK], BufPtr(n, Fetch(disk, ino.block[DIND_BLOCK]), i, stray)]
    case Ind3(k, i, _) =>
      var b2 := BufPtr(n, Fetch(disk, ino.block[TIND_BLOCK]), k, stray);
      [ino.block[TIND_BLOCK], b2, BufPtr(n, Fetch(disk, b2), i, stray)]
  }

  /** Those pointer blocks are in the buffers. */
  ghost predicate Follows(n: Fanout, disk: seq<Block>, ino: Inode, p: Path, l: Levels, stray: nat -> nat)
    requires |ino.block| == N_BLOCKS
  {
    var way := Way(n, disk, ino, p, stray);
    match p
    case Direct(_) => true
    case Ind(_) => l.ind == Fetch(disk, way[0])
    case Ind2(_, _) => l.ind2 == Fetch(disk, way[0]) && l.ind == Fetch(disk, way[1])
    case Ind3(_, _, _) => l.ind3 == Fetch(disk, way[0]) && l.ind2 == Fetch(disk, way[1]) && l.ind == Fetch(disk, way[2])
  }

  /** The step from path p to path p' at file block c reads pointer blocks. */
  predicate Reads(n: Fanout, p: Path, p': Path, c: nat) {
    || c == IND_BLOCK || c == FirstInd2(n) || c == FirstInd3(n)
    || !match p'
        case Direct(_) => p.Direct?
        case Ind(_) => p.Ind?
        case Ind2(i, _) => p.Ind2? && p.ind == i
        case Ind3(k, i, _) => p.Ind3? && p.ind2 == k && p.ind == i
  }

  /** The disk has the innermost of these pointer blocks. */
  predicate HasInnermost(size: nat, way: seq<nat>) {
    way != [] ==> way[|way| - 1] < size
  }

  /** The two disks have the same content in these blocks. */
  ghost predicate AgreeOn(disk: seq<Block>, disk': seq<Block>, way: seq<nat>) {
    forall k :: 0 <= k < |way| ==> Fetch(disk', way[k]) == Fetch(disk, way[k])
  }

  /** Disks that agree on the way lead to the same block by it. */
  lemma AgreeingWays(n: Fanout, disk0: seq<Block>, disk: seq<Block>, ino: Inode, p: Path, l: Levels, stray: nat -> nat)
    requires |ino.block| == N_BLOCKS && AgreeOn(disk0, disk, Way(n, disk0, ino, p, stray))
    ensures Way(n, disk, ino, p, stray) == Way(n, disk0, ino, p, stray)
    ensures Follows(n, disk, ino, p, l, stray) <==> Follows(n, disk0, ino, p, l, stray)
    ensures Target(n, disk, ino, p, stray) == Target(n, disk0, ino, p, stray)
  {
    hide PtrAt, Fetch, BufPtr;
    var way := Way(n, disk0, ino, p, stray);
    assert !p.Direct? ==> Fetch(disk, way[0]) == Fetch(disk0, way[0]);
    assert p.Ind2? || p.Ind3? ==> Fetch(disk, way[1]) == Fetch(disk0, way[1]);
    assert p.Ind3? ==> Fetch(disk, way[2]) == Fetch(disk0, way[2]);
  }

  /** With indices inside their blocks, nothing behind the buffers matters. */
  lemma WithinFollows(n: Fanout, disk: seq<Block>, ino: Inode, p: Path, l: Levels, stray: nat -> nat)
    requires |ino.block| == N_BLOCKS && Within(n, p)
    ensures Way(n, disk, ino, p, stray) == PtrBlocks(disk, ino, p)
    ensures Follows(n, disk, ino, p, l, stray) <==> Loaded(disk, ino, p, l)
    ensures Target(n, disk, ino, p, stray) == Slot(disk, ino, p)
  {
    hide PtrAt, Fetch;
  }

  /** The pointer blocks that lead to path p are in the buffers. */
  ghost predicate Loaded(disk: seq<Block>, ino: Inode, p: Path, l: Levels)
    requires |ino.block| == N_BLOCKS
  {
    match p
    case Direct(_) => true
    case Ind(_) => l.ind == Fetch(disk, ino.block[IND_BLOCK])
    case Ind2(i, _) => l.ind2 == Fetch(disk, ino.block[DIND_BLOCK]) && l.ind == Fetch(disk, PtrAt(l.ind2, i))
    case Ind3(k, i, _) =>
      && l.ind3 == Fetch(disk, ino.block[TIND_BLOCK])
      && l.ind2 == Fetch(disk, PtrAt(l.ind3, k))
      && l.ind == Fetch(disk, PtrAt(l.ind2, i))
  }

  /** Writing a block that is no pointer block on the way keeps the buffers right. */
  lemma LoadedKept(disk: seq<Block>, disk': seq<Block>, ino: Inode, p: Path, l: Levels, s: nat)
    requires |ino.block| == N_BLOCKS && Loaded(disk, ino, p, l)
    requires s < |disk| && |disk'| == |disk| && forall b :: 0 <= b < |disk| && b != s ==> disk'[b] == disk[b]
    requires s !in PtrBlocks(disk, ino, p)
    ensures Loaded(disk', ino, p, l)
  {
    hide PtrAt;
    var bs := PtrBlocks(disk, ino, p);
    match p
    case Direct(_) =>
    case Ind(_) =>
      assert bs[0] != s;
    case Ind2(_, _) =>
      assert bs[0] != s && bs[1] != s;
    case Ind3(_, _, _) =>
      assert bs[0] != s && bs[1] != s && bs[2] != s;
  }

  /** All indices lie inside their blocks. */
  predicate Within(n: Fanout, p: Path) {
    match p
    case Direct(c) => c < NDIR_BLOCKS
    case Ind(d) => d < n
    case Ind2(i, d) => i < n && d < n
    case Ind3(k, i, d) => k < n && i < n && d < n
  }

  lemma WayIs(disk: seq<Block>, ino: Inode, p: Path)
    requires |ino.block| == N_BLOCKS
    ensures WayOnDisk(disk, ino, p) <==> var way := PtrBlocks(disk, ino, p);
      && (p.Ind? ==> way[0] < |disk|)
      && (p.Ind2? ==> way[0] < |disk| && way[1] < |disk|)
      && (p.Ind3? ==> way[0] < |disk| && way[1] < |disk| && way[2] < |disk|)
  {
    hide PtrAt;
    var way := PtrBlocks(disk, ino, p);
    if WayOnDisk(disk, ino, p) && !p.Direct? {
      assert way[0] < |disk|;
      if p.Ind2? {
        assert way[1] < |disk|;
      } else if p.Ind3? {
        assert way[1] < |disk| && way[2] < |disk|;
      }
    }
  }

  /** File blocks below 2^32 bytes lie within the three levels. */
  lemma FileBlockWithin(n: Fanout, c: nat)
    requires c * (4 * n) < TWO32
    ensures Within(n, PathOf(n, c))
  {
    hide PathOf, Square, Quot, Rem;
    PathOfInverts(n, c);
    if c >= FirstInd3(n) {
      CubeLarge(n);
      MulLess(c, n);
      OutermostInBlock(n, c);
    } else {
      NotInd3(n, c);
    }
  }

  lemma CubeLarge(n: Fanout)
    ensures n * Square(n) >= 0x100_0000
  {
    assert n * n >= 256 * 256;
    assert n * (n * n) >= 256 * (n * n);
  }

  lemma MulLess(c: nat, n: Fanout)
    requires c * (4 * n) < TWO32
    ensures c < 0x100_0000
  {
    assert c * (4 * n) >= c * 1024;
  }

  lemma NotInd3(n: Fanout, c: nat)
    requires c < FirstInd3(n)
    ensures !PathOf(n, c).Ind3?
  {
    hide Quot, Rem, Square;
  }

  // ---------------------------------------------------------------- what a transfer is to do

  /** The next block boundary. */
  function RoundUp(n: Fanout, size: nat): (r: nat)
    ensures size <= r < size + 4 * n
  {
    if Rem(size, 4 * n) == 0 then size else size + (4 * n - Rem(size, 4 * n))
  }

  /** Where a transfer that has come to offs ends at the latest: a read at the end of the file, a write at the end of
      the block that holds it. */
  function End(n: Fanout, size: nat, cmd: IoCmd): nat {
    if cmd.Read? then size else RoundUp(n, size)
  }

  /** Bytes moved by the loop from a block boundary. */
  function Rest(n: Fanout, size: nat, offs: nat, left: nat, cmd: IoCmd): (r: nat)
    ensures r <= left
  {
    if offs >= size then 0 else Min(left, End(n, size, cmd) - offs)
  }

  /** Bytes moved out of, or into, the first block. */
  function First(n: Fanout, size: nat, offs: nat, want: nat, cmd: IoCmd): (r: nat)
    requires cmd.Read? ==> offs < size
    ensures r <= want && r <= 4 * n - Rem(offs, 4 * n)
  {
    var sz := Min(want, 4 * n - Rem(offs, 4 * n));
    if cmd.Read? then Min(sz, size - offs) else sz
  }

  /** Bytes that a transfer moves: a write past the end of the file stays inside its first block. */
  function Moved(n: Fanout, size: nat, offs: nat, want: nat, cmd: IoCmd): (r: nat)
    ensures r <= want
  {
    if cmd.Read? then (if offs >= size then 0 else Min(want, size - offs))
    else
      var first := First(n, size, offs, want, cmd);
      if offs + first >= size then first else Min(want, RoundUp(n, size) - offs)
  }

  /** File block of the last byte moved. */
  function LastBlock(n: Fanout, offs: nat, moved: nat): nat {
    if moved == 0 then Quot(offs, 4 * n) else Quot(offs + moved - 1, 4 * n)
  }

  /** The transfer stays inside the nb mapped blocks and below 2^32. */
  ghost predicate InRange(n: Fanout, disk: seq<Block>, ino: Inode, nb: nat, offs: nat, moved: nat) {
    && Mapped(n, disk, ino, nb)
    && LastBlock(n, offs, moved) < nb
    && offs + moved < TWO32
  }

  /** No block of the transfer trips the cursor.  With the tests of the closed form none can. */
  ghost predicate Steady(t: Tests, n: Fanout, offs: nat, moved: nat) {
    t.Absolute? ==> Smooth(n, Quot(offs, 4 * n), LastBlock(n, offs, moved))
  }

  /** disk' holds `data` at offs of the file; every other byte of the file is as in disk. */
  ghost predicate Holds(n: Fanout, disk: seq<Block>, disk': seq<Block>, ino: Inode, nb: nat, offs: nat, data: seq<Byte>)
    requires |ino.block| == N_BLOCKS
  {
    forall x {:trigger ByteAt(n, disk', ino, x)} :: 0 <= x && Quot(x, 4 * n) < nb ==>
      ByteAt(n, disk', ino, x) == if offs <= x < offs + |data| then data[x - offs] else ByteAt(n, disk, ino, x)
  }

  /** Only the data blocks of file blocks c0 .. c1 - 1 differ. */
  ghost predicate OnlyBlocks(n: Fanout, disk: seq<Block>, disk': seq<Block>, ino: Inode, c0: nat, c1: nat)
    requires |ino.block| == N_BLOCKS
  {
    |disk'| == |disk| && forall b :: 0 <= b < |disk| && disk'[b] != disk[b] ==> IsDataBlock(n, disk, ino, c0, c1, b)
  }

  ghost predicate IsDataBlock(n: Fanout, disk: seq<Block>, ino: Inode, c0: nat, c1: nat, b: nat)
    requires |ino.block| == N_BLOCKS
  {
    exists c :: c0 <= c < c1 && Slot(disk, ino, PathOf(n, c)) == b
  }

  // ---------------------------------------------------------------- one chunk

  /** What stands on the disk and in the caller's buffer when blocks c0 .. c - 1 have been served. */
  ghost predicate Served(n: Fanout, disk: seq<Block>, disk': seq<Block>, ino: Inode, nb: nat, cmd: IoCmd,
                         offs: nat, done: seq<Byte>, c: nat)
    requires |ino.block| == N_BLOCKS
  {
    && Mapped(n, disk', ino, nb)
    && SameWays(n, disk, disk', ino, nb)
    && (cmd.Read? ==> disk' == disk && done == Bytes(n, disk, ino, offs, offs + |done|))
    && (cmd.Write? ==>
          Holds(n, disk, disk', ino, nb, offs, done) && OnlyBlocks(n, disk, disk', ino, Quot(offs, 4 * n), c))
  }

  /** Serving a stretch of block c that continues what was served. */
  lemma ServeRead(n: Fanout, disk: seq<Block>, ino: Inode, nb: nat, offs: nat, done: seq<Byte>, c: nat, o: nat, sz: nat)
    requires |ino.block| == N_BLOCKS && Served(n, disk, disk, ino, nb, Read, offs, done, c)
    requires c < nb && o + sz <= 4 * n && c * (4 * n) + o == offs + |done|
    ensures |Data(n, disk, ino, c)| == 4 * n
    ensures Served(n, disk, disk, ino, nb, Read, offs, done + Data(n, disk, ino, c)[o..o + sz], c + 1)
  {
    hide Mapped, Slot, PathOf, Quot, Rem, PtrBlocks, SameWays, ByteAt;
    BytesOfBlock(n, disk, ino, nb, c, o, sz);
    BytesConcat(n, disk, ino, offs, offs + |done|, offs + |done| + sz);
  }

  lemma ServeWrite(n: Fanout, disk: seq<Block>, disk': seq<Block>, ino: Inode, nb: nat, offs: nat, done: seq<Byte>,
                   c: nat,
                   o: nat, data: seq<Byte>)
    requires |ino.block| == N_BLOCKS && Served(n, disk, disk', ino, nb, Write, offs, done, c)
    requires Quot(offs, 4 * n) <= c < nb && o + |data| <= 4 * n && c * (4 * n) + o == offs + |done|
    ensures var s := Slot(disk', ino, PathOf(n, c));
      && s < |disk'| && |disk'[s]| == 4 * n
      && Served(n, disk, disk'[s := Overlay(disk'[s], o, data)], ino, nb, Write, offs, done + data, c + 1)
  {
    hide Mapped, Slot, PathOf, Quot, Rem, PtrBlocks, ByteAt, Overlay;
    OverwriteBlock(n, disk', ino, nb, c, o, data);
    var s := Slot(disk', ino, PathOf(n, c));
    var disk'' := disk'[s := Overlay(disk'[s], o, data)];
    WaysCompose(n, disk, disk', disk'', ino, nb);
    assert SameWay(n, disk, disk', ino, c);
    forall x | 0 <= x && Quot(x, 4 * n) < nb
      ensures ByteAt(n, disk'', ino, x)
              == if offs <= x < offs + |done + data| then (done + data)[x - offs] else ByteAt(n, disk, ino, x)
    {
      OverwriteBytes(n, disk', ino, nb, c, o, data, x);
    }
    OnlyBlocksStep(n, disk, disk', disk'', ino, Quot(offs, 4 * n), c);
  }

  lemma WaysCompose(n: Fanout, disk: seq<Block>, disk': seq<Block>, disk'': seq<Block>, ino: Inode, nb: nat)
    requires |ino.block| == N_BLOCKS && SameWays(n, disk, disk', ino, nb) && SameWays(n, disk', disk'', ino, nb)
    ensures SameWays(n, disk, disk'', ino, nb)
  {
    hide Slot, PathOf, PtrBlocks;
    forall c | 0 <= c < nb
      ensures SameWay(n, disk, disk'', ino, c)
    {
      assert SameWay(n, disk, disk', ino, c) && SameWay(n, disk', disk'', ino, c);
    }
  }

  lemma OnlyBlocksStep(n: Fanout, disk: seq<Block>, disk': seq<Block>, disk'': seq<Block>, ino: Inode, c0: nat, c: nat)
    requires |ino.block| == N_BLOCKS && OnlyBlocks(n, disk, disk', ino, c0, c) && c0 <= c && |disk''| == |disk'|
    requires forall b :: 0 <= b < |disk'| && b != Slot(disk, ino, PathOf(n, c)) ==> disk''[b] == disk'[b]
    ensures OnlyBlocks(n, disk, disk'', ino, c0, c + 1)
  {
    hide Slot, PathOf, PtrBlocks;
    forall b | 0 <= b < |disk| && disk''[b] != disk[b]
      ensures IsDataBlock(n, disk, ino, c0, c + 1, b)
    {
      if b != Slot(disk, ino, PathOf(n, c)) {
        assert IsDataBlock(n, disk, ino, c0, c, b);
        var k :| c0 <= k < c && Slot(disk, ino, PathOf(n, k)) == b;
        assert c0 <= k < c + 1 && Slot(disk, ino, PathOf(n, k)) == b;
      } else {
        assert c0 <= c < c + 1 && Slot(disk, ino, PathOf(n, c)) == b;
      }
    }
  }

  // ---------------------------------------------------------------- how a transfer is cut into chunks

  /** The chunk that a pass of the loop moves. */
  function NextChunk(n: Fanout, size: nat, offs: nat, left: nat, cmd: IoCmd): (sz: nat)
    requires cmd.Read? ==> offs < size
    ensures sz <= left && sz <= 4 * n
  {
    var sz := Min(left, 4 * n);
    if cmd.Read? then Min(sz, size - offs) else sz
  }

  lemma RoundUpIsBoundary(n: Fanout, size: nat) returns (k: nat)
    ensures RoundUp(n, size) == k * (4 * n)
  {
    hide Quot, Rem;
    QuotRem(size, 4 * n);
    if Rem(size, 4 * n) == 0 {
      k := Quot(size, 4 * n);
    } else {
      k := Quot(size, 4 * n) + 1;
      Carry(4 * n, Quot(size, 4 * n));
    }
  }

  /** From a boundary inside the file, the last boundary of the file is at least one block away. */
  lemma BoundaryAhead(n: Fanout, size: nat, c: nat)
    requires c * (4 * n) < size
    ensures RoundUp(n, size) >= c * (4 * n) + 4 * n
    ensures c * (4 * n) + 4 * n >= size ==> RoundUp(n, size) == c * (4 * n) + 4 * n
  {
    hide Quot, Rem, RoundUp;
    var k := RoundUpIsBoundary(n, size);
    if k <= c {
      LeqMul(k, c, 4 * n);
    } else {
      MulStep(c, k, 4 * n);
      if k > c + 1 {
        MulStep(c + 1, k, 4 * n);
        Carry(4 * n, c);
      }
    }
  }

  lemma LeqMul(a: nat, b: nat, m: nat)
    requires a <= b
    ensures a * m <= b * m
  {
    assert (b - a) * m >= 0;
  }

  lemma FirstThenRest(n: Fanout, size: nat, offs: nat, want: nat, cmd: IoCmd)
    requires cmd.Read? ==> offs < size
    ensures var first := First(n, size, offs, want, cmd);
      && first + Rest(n, size, offs + first, want - first, cmd) == Moved(n, size, offs, want, cmd)
      && (want - first > 0 && offs + first < size ==> offs + first == (Quot(offs, 4 * n) + 1) * (4 * n))
  {
    hide Quot, Rem;
    QuotRem(offs, 4 * n);
    Carry(4 * n, Quot(offs, 4 * n));
  }

  lemma ChunkThenRest(n: Fanout, size: nat, offs: nat, left: nat, cmd: IoCmd, c: nat)
    requires offs < size && left > 0 && offs == c * (4 * n)
    ensures var sz := NextChunk(n, size, offs, left, cmd);
      && 0 < sz
      && sz + Rest(n, size, offs + sz, left - sz, cmd) == Rest(n, size, offs, left, cmd)
      && (left - sz > 0 && offs + sz < size ==> offs + sz == (c + 1) * (4 * n))
  {
    hide RoundUp;
    BoundaryAhead(n, size, c);
    Carry(4 * n, c);
  }

  /** A boundary before the end of the transfer is not past its last block. */
  lemma BoundaryInTransfer(n: Fanout, offs: nat, moved: nat, c: nat)
    requires offs <= c * (4 * n) < offs + moved
    ensures c <= LastBlock(n, offs, moved)
  {
    hide Quot, Rem;
    var last := LastBlock(n, offs, moved);
    QuotRem(offs + moved - 1, 4 * n);
    if last < c {
      MulStep(last, c, 4 * n);
    }
  }

  lemma FirstBlockInTransfer(n: Fanout, offs: nat, moved: nat)
    ensures Quot(offs, 4 * n) <= LastBlock(n, offs, moved) && Quot(offs, 4 * n) * (4 * n) + Rem(offs, 4 * n) == offs
  {
    hide Quot, Rem;
    QuotRem(offs, 4 * n);
    if moved > 0 {
      QuotRem(offs + moved - 1, 4 * n);
      var a, b := Quot(offs, 4 * n), Quot(offs + moved - 1, 4 * n);
      if b < a {
        MulStep(b, a, 4 * n);
      }
    }
  }

  /** The cursor stands at file block c. */
  ghost predicate At(n: Fanout, disk: seq<Block>, ino: Inode, c: nat, p: Path, l: Levels)
    requires |ino.block| == N_BLOCKS
  {
    p == PathOf(n, c) && Loaded(disk, ino, p, l)
  }

  /** Writing into the block under the cursor keeps the cursor. */
  lemma AtKept(n: Fanout, disk: seq<Block>, ino: Inode, nb: nat, c: nat, p: Path, l: Levels, o: nat, data: seq<Byte>)
    requires |ino.block| == N_BLOCKS && At(n, disk, ino, c, p, l) && Mapped(n, disk, ino, nb) && c < nb
    requires o + |data| <= 4 * n
    ensures var s := Slot(disk, ino, p);
      s < |disk| && |disk[s]| == 4 * n && At(n, disk[s := Overlay(disk[s], o, data)], ino, c, p, l)
  {
    hide Slot, PathOf, PtrBlocks, Loaded, Overlay;
    assert Reachable(n, disk, ino, c) && Apart(n, disk, ino, c, c);
    var s := Slot(disk, ino, p);
    LoadedKept(disk, disk[s := Overlay(disk[s], o, data)], ino, p, l, s);
  }

  /** What a chunk does when everything on its way is on the disk. */
  ghost predicate ChunkDone(disk: seq<Block>, disk': seq<Block>, cmd: IoCmd, s: nat, o: nat, data: seq<Byte>,
                            part: seq<Byte>, sz: nat) {
    && s < |disk| && o + sz <= |disk[s]|
    && (cmd.Read? ==> disk' == disk && part == disk[s][o..o + sz])
    && (cmd.Write? ==> sz == |data| && disk' == disk[s := Overlay(disk[s], o, data)])
  }

  /** One chunk, served at the cursor, continues the transfer. */
  lemma ChunkServes(n: Fanout, disk0: seq<Block>, disk: seq<Block>, disk': seq<Block>, ino: Inode, nb: nat,
                    cmd: IoCmd, offs: nat,
                    done: seq<Byte>, c: nat, p: Path, l: Levels, o: nat, data: seq<Byte>, part: seq<Byte>, sz: nat)
    requires |ino.block| == N_BLOCKS && Served(n, disk0, disk, ino, nb, cmd, offs, done, c)
    requires Quot(offs, 4 * n) <= c < nb && o + sz <= 4 * n && c * (4 * n) + o == offs + |done|
    requires At(n, disk, ino, c, p, l) && ChunkDone(disk, disk', cmd, Slot(disk, ino, p), o, data, part, sz)
    ensures At(n, disk', ino, c, p, l)
    ensures Served(n, disk0, disk', ino, nb, cmd, offs, done + if cmd.Read? then part else data, c + 1)
  {
    hide Slot, PathOf, PtrBlocks, Loaded, Overlay, Mapped, Quot, Rem;
    if cmd.Read? {
      ServeRead(n, disk0, ino, nb, offs, done, c, o, sz);
    } else {
      ServeWrite(n, disk0, disk, ino, nb, offs, done, c, o, data);
      AtKept(n, disk, ino, nb, c, p, l, o, data);
    }
  }

  lemma NothingServed(n: Fanout, disk: seq<Block>, ino: Inode, nb: nat, cmd: IoCmd, offs: nat)
    requires |ino.block| == N_BLOCKS && Mapped(n, disk, ino, nb)
    ensures Served(n, disk, disk, ino, nb, cmd, offs, [], Quot(offs, 4 * n))
  {
    hide Slot, PathOf, PtrBlocks, Mapped, Quot, Rem, ByteAt;
  }

  // ---------------------------------------------------------------- the invariant of the loop

  /** A transfer that has moved count bytes and stands before file block c. */
  ghost predicate Counted(n: Fanout, size: nat, cmd: IoCmd, offs: nat, want: nat, count: nat, c: nat) {
    var moved := Moved(n, size, offs, want, cmd);
    && Quot(offs, 4 * n) < c <= LastBlock(n, offs, moved) + 1
    && count <= want
    && count + Rest(n, size, offs + count, want - count, cmd) == moved
    && offs + count <= c * (4 * n)
    && (count < want && offs + count < size ==> offs + count == c * (4 * n))
  }

  /** A transfer that stands before file block c and whose cursor has been right so far. */
  ghost predicate Underway(n: Fanout, disk0: seq<Block>, disk: seq<Block>, ino: Inode, nb: nat, cmd: IoCmd, offs: nat,
                           want: nat, done: seq<Byte>, c: nat, p: Path, l: Levels)
    requires |ino.block| == N_BLOCKS
  {
    && Counted(n, ino.size, cmd, offs, want, |done|, c)
    && At(n, disk, ino, c - 1, p, l)
    && Served(n, disk0, disk, ino, nb, cmd, offs, done, c)
  }

  /** The way to a mapped block is there. */
  lemma WayThere(n: Fanout, disk: seq<Block>, ino: Inode, nb: nat, c: nat)
    requires Mapped(n, disk, ino, nb) && c < nb && c * (4 * n) < TWO32
    ensures Within(n, PathOf(n, c)) && WayOnDisk(disk, ino, PathOf(n, c)) && Slot(disk, ino, PathOf(n, c)) < |disk|
    ensures |disk[Slot(disk, ino, PathOf(n, c))]| == 4 * n
  {
    hide PathOf, Slot, PtrBlocks, Within, WayOnDisk;
    FileBlockWithin(n, c);
    assert Reachable(n, disk, ino, c);
  }

  lemma BeforeFirst(n: Fanout, disk: seq<Block>, ino: Inode, nb: nat, offs: nat, moved: nat)
    requires InRange(n, disk, ino, nb, offs, moved)
    ensures var p := PathOf(n, Quot(offs, 4 * n));
      Within(n, p) && WayOnDisk(disk, ino, p) && Slot(disk, ino, p) < |disk|
  {
    hide PathOf, Slot, PtrBlocks, Within, WayOnDisk, Quot, Rem, Mapped, LastBlock;
    FirstBlockInTransfer(n, offs, moved);
    WayThere(n, disk, ino, nb, Quot(offs, 4 * n));
  }

  lemma AfterFirst(n: Fanout, disk: seq<Block>, disk': seq<Block>, ino: Inode, nb: nat, cmd: IoCmd, offs: nat,
                   want: nat,
                   data: seq<Byte>, part: seq<Byte>, p: Path, l: Levels)
    requires |ino.block| == N_BLOCKS && (cmd.Read? ==> offs < ino.size)
    requires InRange(n, disk, ino, nb, offs, Moved(n, ino.size, offs, want, cmd))
    requires p == PathOf(n, Quot(offs, 4 * n)) && Loaded(disk, ino, p, l)
    requires var sz := First(n, ino.size, offs, want, cmd);
      ChunkDone(disk, disk', cmd, Slot(disk, ino, p), Rem(offs, 4 * n), data, part, sz)
    ensures Underway(n, disk, disk', ino, nb, cmd, offs, want, if cmd.Read? then part else data,
                     Quot(offs, 4 * n) + 1, p, l)
    ensures var done := if cmd.Read? then part else data;
      |done| == First(n, ino.size, offs, want, cmd) && offs + |done| < TWO32
    ensures
      Counted(n, ino.size, cmd, offs, want, First(n, ino.size, offs, want, cmd), Quot(offs, 4 * n) + 1)
  {
    hide PathOf, Slot, PtrBlocks, Loaded, Quot, Rem, Mapped, LastBlock, Rest, Moved, Served, Overlay;
    FirstBlockInTransfer(n, offs, Moved(n, ino.size, offs, want, cmd));
    NothingServed(n, disk, ino, nb, cmd, offs);
    var sz := First(n, ino.size, offs, want, cmd);
    ChunkServes(n, disk, disk, disk', ino, nb, cmd, offs, [], Quot(offs, 4 * n), p, l, Rem(offs, 4 * n), data, part,
                sz);
    assert [] + part == part && [] + data == data;
    FirstThenRest(n, ino.size, offs, want, cmd);
  }

  lemma BeforeNext(n: Fanout, disk0: seq<Block>, disk: seq<Block>, ino: Inode, nb: nat, cmd: IoCmd, offs: nat,
                   want: nat, done: seq<Byte>, c: nat, p: Path, l: Levels)
    requires |ino.block| == N_BLOCKS && InRange(n, disk0, ino, nb, offs, Moved(n, ino.size, offs, want, cmd))
    requires Underway(n, disk0, disk, ino, nb, cmd, offs, want, done, c, p, l)
    requires |done| < want && offs + |done| < ino.size
    ensures c <= LastBlock(n, offs, Moved(n, ino.size, offs, want, cmd)) && c < nb
    ensures p == PathOf(n, c - 1) && Within(n, p)
    ensures Within(n, PathOf(n, c)) && WayOnDisk(disk, ino, PathOf(n, c)) && Slot(disk, ino, PathOf(n, c)) < |disk|
    ensures Loaded(disk, ino, p, l)
  {
    hide PathOf, Slot, PtrBlocks, Loaded, Quot, Rem, Mapped, LastBlock, Overlay, Moved, Within, WayOnDisk, RoundUp;
    var moved := Moved(n, ino.size, offs, want, cmd);
    ChunkThenRest(n, ino.size, offs + |done|, want - |done|, cmd, c);
    BoundaryInTransfer(n, offs, moved, c);
    WayThere(n, disk, ino, nb, c);
    MulStep(c - 1, c, 4 * n);
    WayThere(n, disk, ino, nb, c - 1);
  }

  lemma TakeMore(data: seq<Byte>, a: nat, b: nat)
    requires a + b <= |data|
    ensures data[..a] + data[a..][..b] == data[..a + b]
  {
  }

  lemma AfterNext(n: Fanout, disk0: seq<Block>, disk: seq<Block>, disk': seq<Block>, ino: Inode, nb: nat, cmd: IoCmd,
                  offs: nat, want: nat, done: seq<Byte>, c: nat, p: Path, l: Levels, data: seq<Byte>, part: seq<Byte>,
                  p': Path, l': Levels)
    requires |ino.block| == N_BLOCKS && InRange(n, disk0, ino, nb, offs, Moved(n, ino.size, offs, want, cmd))
    requires Underway(n, disk0, disk, ino, nb, cmd, offs, want, done, c, p, l)
    requires |done| < want && offs + |done| < ino.size
    requires p' == PathOf(n, c) && Loaded(disk, ino, p', l')
    requires var sz := NextChunk(n, ino.size, offs + |done|, want - |done|, cmd);
      ChunkDone(disk, disk', cmd, Slot(disk, ino, p'), 0, data, part, sz)
    ensures Underway(n, disk0, disk', ino, nb, cmd, offs, want, done + if cmd.Read? then part else data, c + 1, p', l')
    ensures var more := if cmd.Read? then part else data;
      |more| == NextChunk(n, ino.size, offs + |done|, want - |done|, cmd) && offs + |done| + |more| < TWO32
  {
    hide PathOf, Slot, PtrBlocks, Loaded, Quot, Rem, Mapped, LastBlock, Moved, Served, Overlay, RoundUp, Rest;
    BeforeNext(n, disk0, disk, ino, nb, cmd, offs, want, done, c, p, l);
    var sz := NextChunk(n, ino.size, offs + |done|, want - |done|, cmd);
    assert Quot(offs, 4 * n) < c;
    hide Counted, NextChunk;
    ChunkIsShare(n, ino.size, offs, want, |done|, cmd, c);
    ChunkServes(n, disk0, disk, disk', ino, nb, cmd, offs, done, c, p', l', 0, data, part, sz);
  }

  /** When the loop has ended, everything has been moved. */
  lemma AtTheEnd(n: Fanout, disk0: seq<Block>, disk: seq<Block>, ino: Inode, nb: nat, cmd: IoCmd, offs: nat,
                 want: nat, done: seq<Byte>, c: nat, p: Path, l: Levels)
    requires |ino.block| == N_BLOCKS && Underway(n, disk0, disk, ino, nb, cmd, offs, want, done, c, p, l)
    requires !(|done| < want && offs + |done| < ino.size)
    ensures var moved := Moved(n, ino.size, offs, want, cmd);
      && |done| == moved
      && (cmd.Read? ==> done == Bytes(n, disk0, ino, offs, offs + moved))
      && (cmd.Write? ==> Mapped(n, disk, ino, nb) && Holds(n, disk0, disk, ino, nb, offs, done)
                         && OnlyBlocks(n, disk0, disk, ino, Quot(offs, 4 * n), LastBlock(n, offs, moved) + 1))
  {
    hide PathOf, Slot, PtrBlocks, Loaded, Quot, Rem, Mapped, LastBlock, Moved, Overlay, RoundUp, Holds, SameWays;
    hide Bytes, At;
    if cmd.Write? {
      WiderRange(n, disk0, disk, ino, Quot(offs, 4 * n), c,
                 LastBlock(n, offs, Moved(n, ino.size, offs, want, cmd)) + 1);
    }
  }

  lemma WiderRange(n: Fanout, disk: seq<Block>, disk': seq<Block>, ino: Inode, c0: nat, c: nat, c1: nat)
    requires |ino.block| == N_BLOCKS && OnlyBlocks(n, disk, disk', ino, c0, c) && c <= c1
    ensures OnlyBlocks(n, disk, disk', ino, c0, c1)
  {
    hide Slot, PathOf;
    forall b | 0 <= b < |disk| && disk'[b] != disk[b]
      ensures IsDataBlock(n, disk, ino, c0, c1, b)
    {
      assert IsDataBlock(n, disk, ino, c0, c, b);
      var k :| c0 <= k < c && Slot(disk, ino, PathOf(n, k)) == b;
      assert c0 <= k < c1 && Slot(disk, ino, PathOf(n, k)) == b;
    }
  }

  // ---------------------------------------------------------------- the cursor gone astray

  /** Bytes that a transfer moves in file block c, when c is not its first block. */
  function Share(n: Fanout, offs: nat, moved: nat, c: nat): nat {
    var at := c * (4 * n);
    if offs + moved <= at then 0 else Min(4 * n, offs + moved - at)
  }

  function Head(b: Block, m: nat): Block {
    if m <= |b| then b[..m] else b
  }

  /** The bytes that a write has for file block c, when c is not its first block. */
  function DataFor(n: Fanout, offs: nat, c: nat, data: seq<Byte>): seq<Byte> {
    var at := c * (4 * n) - offs;
    if 0 <= at <= |data| then data[at..] else []
  }

  /** That the cursor goes wrong at file block c shows.  For a read: the block read instead has other bytes.  For a
      write: the data differ from what stands in the file, and the cursor does not come back before the write
      stops. */
  ghost predicate Telling(n: Fanout, disk: seq<Block>, ino: Inode, nb: nat, cmd: IoCmd, offs: nat, moved: nat,
                          data: seq<Byte>, stray: nat -> nat, c: nat, stop: nat)
    requires |ino.block| == N_BLOCKS
  {
    var m := Share(n, offs, moved, c);
    match cmd
    case Read =>
      c > 0
      && var p := Advance(Absolute, n, PathOf(n, c - 1), c);
      Head(Fetch(disk, Target(n, disk, ino, p, stray)), m) != Head(Data(n, disk, ino, c), m)
    case Write =>
      && Head(DataFor(n, offs, c, data), m) != Head(Data(n, disk, ino, c), m)
      && NeverBack(n, disk, ino, stray, Quot(offs, 4 * n), c, stop, LastBlock(n, offs, moved))
  }

  /** Where the cursor goes wrong in the transfer, that shows. */
  ghost predicate TripTells(n: Fanout, disk: seq<Block>, ino: Inode, nb: nat, cmd: IoCmd, offs: nat, moved: nat,
                            data: seq<Byte>, stray: nat -> nat)
    requires |ino.block| == N_BLOCKS
  {
    forall c :: FirstTrip(n, Quot(offs, 4 * n), LastBlock(n, offs, moved), c) ==>
      exists stop :: Telling(n, disk, ino, nb, cmd, offs, moved, data, stray, c, stop)
  }

  /** What a path with an index behind its buffer leads to, when `behind` is what stands there. */
  function BehindBuffer(n: Fanout, disk: seq<Block>, p: Path, behind: nat): nat {
    match p
    case Ind2(_, d) => if d == n then behind else PtrAt(Fetch(disk, behind), d)
    case Ind3(_, i, d) =>
      if d == n then behind
      else if i == n then PtrAt(Fetch(disk, behind), d)
      else PtrAt(Fetch(disk, PtrAt(Fetch(disk, behind), i)), d)
    case _ => 0
  }

  /** At a trip, the written cursor goes to another file block, at most a pointer block and 12 blocks on, or behind the
      end of a pointer block, where it takes what the stack held for a pointer. */
  lemma TripServesWrong(n: Fanout, disk: seq<Block>, ino: Inode, nb: nat, c: nat, stray: nat -> nat) returns (e: nat)
    requires Mapped(n, disk, ino, nb) && c < nb && c * (4 * n) < TWO32 && Trips(n, c)
    ensures c > 0
    ensures var p := Advance(Absolute, n, PathOf(n, c - 1), c);
      if Within(n, p) then
        && p == PathOf(n, e) && c < e <= c + n + NDIR_BLOCKS
        && Target(n, disk, ino, p, stray) == Slot(disk, ino, p)
        && (e < nb ==> Target(n, disk, ino, p, stray) != Slot(disk, ino, PathOf(n, c)))
      else
        Target(n, disk, ino, p, stray) == BehindBuffer(n, disk, p, stray(n))
  {
    hide Slot, PathOf, PtrAt, Fetch, Quot, Rem, Square;
    MulStep(c - 1, c, 4 * n);
    FileBlockWithin(n, c - 1);
    RightIsAhead(n, c);
    var p := Advance(Absolute, n, PathOf(n, c - 1), c);
    var s := AheadStaysAhead(n, c, 0, PathOf(n, c - 1));
    e := c + s;
    if Within(n, p) {
      PathOfInverts(n, c + s);
      assert Target(n, disk, ino, p, stray) == Slot(disk, ino, p) by {
        WithinFollows(n, disk, ino, p, Levels([], [], []), stray);
      }
      if c + s < nb {
        assert Apart(n, disk, ino, c, c + s);
      }
    }
  }

  /** Where the cursor of the code goes in a transfer that starts at file block c0, and the pointer blocks on that way;
      both can be told from the block numbers and the disk before the transfer. */
  function Visited(n: Fanout, disk: seq<Block>, ino: Inode, stray: nat -> nat, c0: nat, c: nat): nat
    requires |ino.block| == N_BLOCKS && c0 <= c
  {
    Target(n, disk, ino, Cursor(Absolute, n, c0, c), stray)
  }

  function WayAt(n: Fanout, disk: seq<Block>, ino: Inode, stray: nat -> nat, c0: nat, c: nat): seq<nat>
    requires |ino.block| == N_BLOCKS && c0 <= c
  {
    Way(n, disk, ino, Cursor(Absolute, n, c0, c), stray)
  }

  predicate ReadsAt(n: Fanout, c0: nat, c: nat)
    requires c0 < c
  {
    Reads(n, Cursor(Absolute, n, c0, c - 1), Cursor(Absolute, n, c0, c), c)
  }

  /** At file block c the cursor takes a number for a block that the disk has not. */
  predicate FailsAt(n: Fanout, disk: seq<Block>, ino: Inode, stray: nat -> nat, c0: nat, c: nat)
    requires |ino.block| == N_BLOCKS && c0 < c
  {
    || Visited(n, disk, ino, stray, c0, c) >= |disk|
    || (ReadsAt(n, c0, c) && !HasInnermost(|disk|, WayAt(n, disk, ino, stray, c0, c)))
  }

  /** Up to file block `stop` the cursor never comes to the data block of c1, and never to a pointer block that it
      reads later.  The write stops there: it is at its end, or the cursor takes a number for a block that the disk
      has not. */
  ghost predicate NeverBack(n: Fanout, disk: seq<Block>, ino: Inode, stray: nat -> nat, c0: nat, c1: nat, stop: nat,
                            last: nat)
    requires |ino.block| == N_BLOCKS
  {
    && c0 < c1 <= stop <= last
    && (stop < last ==> FailsAt(n, disk, ino, stray, c0, stop))
    && (forall c :: c1 <= c <= stop && !FailsAt(n, disk, ino, stray, c0, c) ==>
          Visited(n, disk, ino, stray, c0, c) != Slot(disk, ino, PathOf(n, c1)))
    && (forall c, c' :: c0 <= c < c' <= stop && c1 <= c' && ReadsAt(n, c0, c') ==>
          Visited(n, disk, ino, stray, c0, c) !in WayAt(n, disk, ino, stray, c0, c'))
  }

  /** A write before file block c, from the trip at file block c1 on: the data block of c1 is as it was, and so are the
      pointer blocks that will be read. */
  ghost predicate Spared(n: Fanout, disk0: seq<Block>, disk: seq<Block>, ino: Inode, stray: nat -> nat, c0: nat,
                         c1: nat, stop: nat, c: nat, p: Path, l: Levels)
    requires |ino.block| == N_BLOCKS
  {
    var s := Slot(disk0, ino, PathOf(n, c1));
    && c0 < c1 <= c && c1 <= stop && p == Cursor(Absolute, n, c0, c - 1) && Follows(n, disk0, ino, p, l, stray)
    && s < |disk0| == |disk| && disk[s] == disk0[s]
    && c <= stop + 1 && (c > stop ==> !FailsAt(n, disk0, ino, stray, c0, stop))
    && forall c' :: c <= c' <= stop && ReadsAt(n, c0, c') ==> AgreeOn(disk0, disk, WayAt(n, disk0, ino, stray, c0, c'))
  }

  /** A transfer that stands before file block c and whose cursor went wrong at file block c1. */
  ghost predicate Astray(n: Fanout, disk0: seq<Block>, disk: seq<Block>, ino: Inode, cmd: IoCmd, offs: nat, stop: nat,
                         stray: nat -> nat, done: seq<Byte>, c1: nat, c: nat, p: Path, l: Levels)
    requires |ino.block| == N_BLOCKS
  {
    && c1 < c
    && match cmd
       case Read => disk == disk0 && done != Bytes(n, disk0, ino, offs, offs + |done|)
       case Write => Spared(n, disk0, disk, ino, stray, Quot(offs, 4 * n), c1, stop, c, p, l)
  }

  /** A chunk in the loop is what the transfer moves in that block. */
  lemma ChunkIsShare(n: Fanout, size: nat, offs: nat, want: nat, count: nat, cmd: IoCmd, c: nat)
    requires Counted(n, size, cmd, offs, want, count, c) && count < want && offs + count < size
    ensures var sz := NextChunk(n, size, offs + count, want - count, cmd);
      && sz == Share(n, offs, Moved(n, size, offs, want, cmd), c)
      && Counted(n, size, cmd, offs, want, count + sz, c + 1)
      && 0 < sz && count + sz <= Moved(n, size, offs, want, cmd) && offs + count == c * (4 * n)
      && c <= LastBlock(n, offs, Moved(n, size, offs, want, cmd))
  {
    hide RoundUp, Quot, LastBlock, Moved;
    BoundaryAhead(n, size, c);
    ChunkThenRest(n, size, offs + count, want - count, cmd, c);
    BoundaryInTransfer(n, offs, Moved(n, size, offs, want, cmd), c);
  }

  /** A write has not touched the data blocks that it has not come to. */
  lemma NotYetServed(n: Fanout, disk0: seq<Block>, disk: seq<Block>, ino: Inode, nb: nat, c0: nat, c: nat)
    requires Mapped(n, disk0, ino, nb) && c < nb && OnlyBlocks(n, disk0, disk, ino, c0, c)
    ensures var s := Slot(disk0, ino, PathOf(n, c)); s < |disk0| == |disk| && disk[s] == disk0[s]
  {
    hide PathOf, Slot, PtrBlocks;
    var s := Slot(disk0, ino, PathOf(n, c));
    assert Reachable(n, disk0, ino, c);
    forall k | 0 <= k < c
      ensures Slot(disk0, ino, PathOf(n, k)) != s
    {
      assert Apart(n, disk0, ino, k, c);
    }
    assert !IsDataBlock(n, disk0, ino, c0, c, s);
  }

  lemma ReadAstray(n: Fanout, disk: seq<Block>, ino: Inode, nb: nat, offs: nat, done: seq<Byte>, c: nat,
                   part: seq<Byte>, sz: nat)
    requires |ino.block| == N_BLOCKS && Mapped(n, disk, ino, nb) && c < nb
    requires sz <= 4 * n && |part| == sz && offs + |done| == c * (4 * n)
    requires part != Head(Data(n, disk, ino, c), sz)
    ensures done + part != Bytes(n, disk, ino, offs, offs + |done + part|)
  {
    hide Mapped, Slot, PathOf, Quot, Rem, PtrBlocks, ByteAt, Data;
    var a: nat := offs + |done|;
    BytesOfBlock(n, disk, ino, nb, c, 0, sz);
    BytesConcat(n, disk, ino, offs, a, a + sz);
    var whole := Bytes(n, disk, ino, offs, a + sz);
    assert Bytes(n, disk, ino, a, a + sz) == Head(Data(n, disk, ino, c), sz);
    assert whole[|done|..] == Bytes(n, disk, ino, a, a + sz);
    assert (done + part)[|done|..] == part;
  }

  /** A wrong beginning stays wrong. */
  lemma StaysWrong(n: Fanout, disk: seq<Block>, ino: Inode, offs: nat, done: seq<Byte>, part: seq<Byte>)
    requires |ino.block| == N_BLOCKS && done != Bytes(n, disk, ino, offs, offs + |done|)
    ensures done + part != Bytes(n, disk, ino, offs, offs + |done + part|)
  {
    hide ByteAt;
    BytesConcat(n, disk, ino, offs, offs + |done|, offs + |done + part|);
    assert (done + part)[..|done|] == done;
    assert Bytes(n, disk, ino, offs, offs + |done + part|)[..|done|] == Bytes(n, disk, ino, offs, offs + |done|);
  }

  /** A pass of a write from the trip on. */
  lemma SparedNext(n: Fanout, disk0: seq<Block>, disk: seq<Block>, disk': seq<Block>, ino: Inode, stray: nat -> nat,
                   c0: nat, c1: nat, stop: nat, last: nat, c: nat, p: Path, l: Levels, p': Path, l': Levels,
                   data: seq<Byte>, part: seq<Byte>, sz: nat)
    requires |ino.block| == N_BLOCKS && NeverBack(n, disk0, ino, stray, c0, c1, stop, last) && c <= last
    requires Spared(n, disk0, disk, ino, stray, c0, c1, stop, c, p, l)
    requires p' == Advance(Absolute, n, p, c)
    requires Reads(n, p, p', c) ==> AgreeOn(disk0, disk, Way(n, disk0, ino, p', stray))
    requires Follows(n, disk0, ino, p', l', stray)
    requires Reads(n, p, p', c) ==> HasInnermost(|disk|, Way(n, disk0, ino, p', stray))
    requires ChunkDone(disk, disk', Write, Target(n, disk0, ino, p', stray), 0, data, part, sz)
    ensures Spared(n, disk0, disk', ino, stray, c0, c1, stop, c + 1, p', l')
  {
    hide Slot, PathOf, PtrBlocks, Overlay, Follows, Advance, Target, Way, Reads;
    assert p' == Cursor(Absolute, n, c0, c);
    assert ReadsAt(n, c0, c) <==> Reads(n, p, p', c);
    assert !FailsAt(n, disk0, ino, stray, c0, c);
    var t := Visited(n, disk0, ino, stray, c0, c);
    forall c' | c + 1 <= c' <= stop && ReadsAt(n, c0, c')
      ensures AgreeOn(disk0, disk', WayAt(n, disk0, ino, stray, c0, c'))
    {
      var way := WayAt(n, disk0, ino, stray, c0, c');
      assert t !in way && AgreeOn(disk0, disk, way);
      assert forall k :: 0 <= k < |way| ==> way[k] in way;
    }
  }

  /** Before the pass at c, the way to the next path is as it was. */
  lemma SparedAgrees(n: Fanout, disk0: seq<Block>, disk: seq<Block>, ino: Inode, stray: nat -> nat, c0: nat, c1: nat,
                     stop: nat, c: nat, p: Path, l: Levels)
    requires |ino.block| == N_BLOCKS && Spared(n, disk0, disk, ino, stray, c0, c1, stop, c, p, l) && c <= stop
    ensures var p' := Advance(Absolute, n, p, c);
      Reads(n, p, p', c) ==> AgreeOn(disk0, disk, Way(n, disk0, ino, p', stray))
  {
    hide Slot, PathOf, PtrBlocks, Follows, Advance, Way, Reads, AgreeOn;
    var p' := Advance(Absolute, n, p, c);
    assert p' == Cursor(Absolute, n, c0, c);
    assert Reads(n, p, p', c) <==> ReadsAt(n, c0, c);
    assert ReadsAt(n, c0, c) ==> AgreeOn(disk0, disk, WayAt(n, disk0, ino, stray, c0, c));
  }

  /** A block that no data block of file blocks c0 .. c - 1 is, is as it was. */
  lemma UntouchedFetch(n: Fanout, disk: seq<Block>, disk': seq<Block>, ino: Inode, c0: nat, c: nat, b: nat)
    requires |ino.block| == N_BLOCKS && OnlyBlocks(n, disk, disk', ino, c0, c)
    requires forall k :: c0 <= k < c ==> Slot(disk, ino, PathOf(n, k)) != b
    ensures Fetch(disk', b) == Fetch(disk, b)
  {
    hide Slot, PathOf;
    assert !IsDataBlock(n, disk, ino, c0, c, b);
  }

  /** The pointer blocks of a mapped block are as they were. */
  lemma MappedWayUntouched(n: Fanout, disk: seq<Block>, disk': seq<Block>, ino: Inode, nb: nat, c0: nat, c: nat, e: nat)
    requires Mapped(n, disk, ino, nb) && OnlyBlocks(n, disk, disk', ino, c0, c) && c <= nb && e < nb
    ensures AgreeOn(disk, disk', PtrBlocks(disk, ino, PathOf(n, e)))
  {
    hide Slot, PathOf, PtrBlocks, OnlyBlocks, Fetch;
    var way := PtrBlocks(disk, ino, PathOf(n, e));
    forall i | 0 <= i < |way|
      ensures Fetch(disk', way[i]) == Fetch(disk, way[i])
    {
      forall k | c0 <= k < c
        ensures Slot(disk, ino, PathOf(n, k)) != way[i]
      {
        assert Apart(n, disk, ino, k, e) && way[i] in way;
      }
      UntouchedFetch(n, disk, disk', ino, c0, c, way[i]);
    }
  }

  /** Before its first trip, the cursor of the code is the closed form. */
  lemma VisitedRight(n: Fanout, disk: seq<Block>, ino: Inode, stray: nat -> nat, c0: nat, c1: nat, c: nat)
    requires |ino.block| == N_BLOCKS && Smooth(n, c0, c1) && c0 <= c <= c1 && c * (4 * n) < TWO32
    ensures Cursor(Absolute, n, c0, c) == PathOf(n, c)
    ensures Visited(n, disk, ino, stray, c0, c) == Slot(disk, ino, PathOf(n, c))
  {
    hide Slot, PathOf, Target, Follows, Way, Within, Trips;
    CursorExact(n, c0, c1);
    assert Cursor(Absolute, n, c0, c) == PathOf(n, c);
    FileBlockWithin(n, c);
    WithinFollows(n, disk, ino, PathOf(n, c), Levels([], [], []), stray);
  }

  /** The buffers of a cursor that has been right hold what the disk had before the transfer. */
  lemma RightFollows(n: Fanout, disk0: seq<Block>, disk: seq<Block>, ino: Inode, nb: nat, c0: nat, c: nat, p: Path,
                     l: Levels, stray: nat -> nat)
    requires |ino.block| == N_BLOCKS && Mapped(n, disk0, ino, nb) && 0 < c <= nb
    requires OnlyBlocks(n, disk0, disk, ino, c0, c)
    requires p == PathOf(n, c - 1) && Within(n, p) && Loaded(disk, ino, p, l)
    ensures Follows(n, disk0, ino, p, l, stray)
  {
    hide PathOf, Mapped, OnlyBlocks, PtrAt, Fetch;
    MappedWayUntouched(n, disk0, disk, ino, nb, c0, c, c - 1);
    var way := PtrBlocks(disk0, ino, p);
    assert AgreeOn(disk0, disk, way);
    assert !p.Direct? ==> Fetch(disk, way[0]) == Fetch(disk0, way[0]);
    assert p.Ind2? || p.Ind3? ==> Fetch(disk, way[1]) == Fetch(disk0, way[1]);
    assert p.Ind3? ==> Fetch(disk, way[2]) == Fetch(disk0, way[2]);
    WithinFollows(n, disk0, ino, p, l, stray);
  }

  /** Up to its first trip, a write has spared what it is to spare. */
  lemma SparedSoFar(n: Fanout, disk0: seq<Block>, disk: seq<Block>, ino: Inode, nb: nat, stray: nat -> nat, offs: nat,
                    done: seq<Byte>, stop: nat, last: nat, c: nat, p: Path, l: Levels)
    requires |ino.block| == N_BLOCKS && Mapped(n, disk0, ino, nb) && c < nb && c * (4 * n) < TWO32
    requires Quot(offs, 4 * n) < c && Smooth(n, Quot(offs, 4 * n), c - 1)
    requires Served(n, disk0, disk, ino, nb, Write, offs, done, c)
    requires p == PathOf(n, c - 1) && Within(n, p) && Loaded(disk, ino, p, l)
    requires NeverBack(n, disk0, ino, stray, Quot(offs, 4 * n), c, stop, last)
    ensures Spared(n, disk0, disk, ino, stray, Quot(offs, 4 * n), c, stop, c, p, l)
  {
    hide Slot, PathOf, PtrBlocks, Loaded, Follows, Within, Quot, Rem, Holds, Visited, WayAt, ReadsAt, Smooth;
    var c0 := Quot(offs, 4 * n);
    NotYetServed(n, disk0, disk, ino, nb, c0, c);
    MulStep(c - 1, c, 4 * n);
    VisitedRight(n, disk0, ino, stray, c0, c - 1, c - 1);
    RightFollows(n, disk0, disk, ino, nb, c0, c, p, l, stray);
    forall c' | c <= c' <= stop && ReadsAt(n, c0, c')
      ensures AgreeOn(disk0, disk, WayAt(n, disk0, ino, stray, c0, c'))
    {
      var way := WayAt(n, disk0, ino, stray, c0, c');
      forall k | 0 <= k < |way|
        ensures Fetch(disk, way[k]) == Fetch(disk0, way[k])
      {
        forall i | c0 <= i < c
          ensures Slot(disk0, ino, PathOf(n, i)) != way[k]
        {
          LeqMul(i, c, 4 * n);
          VisitedRight(n, disk0, ino, stray, c0, c - 1, i);
          assert Visited(n, disk0, ino, stray, c0, i) !in way && way[k] in way;
        }
        UntouchedFetch(n, disk0, disk, ino, c0, c, way[k]);
      }
    }
  }

  /** A cursor that is right where it trips next stands on a path through two or three levels. */
  lemma RightIsAhead(n: Fanout, c: nat)
    requires c > FirstInd2(n)
    ensures Ahead(n, c - 1, 0, PathOf(n, c - 1))
  {
    hide Quot, Rem, Square;
  }

  /** The pass in which the cursor of a read goes wrong. */
  lemma ReadGoesAstray(n: Fanout, disk: seq<Block>, ino: Inode, nb: nat, offs: nat, want: nat, data: seq<Byte>,
                       done: seq<Byte>, c: nat, p: Path, l: Levels, p': Path, l': Levels, stray: nat -> nat,
                       part: seq<Byte>, sz: nat, stop: nat)
    requires |ino.block| == N_BLOCKS && InRange(n, disk, ino, nb, offs, Moved(n, ino.size, offs, want, Read))
    requires Underway(n, disk, disk, ino, nb, Read, offs, want, done, c, p, l)
    requires |done| < want && offs + |done| < ino.size
    requires Telling(n, disk, ino, nb, Read, offs, Moved(n, ino.size, offs, want, Read), data, stray, c, stop)
    requires p' == Advance(Absolute, n, p, c) && sz == NextChunk(n, ino.size, offs + |done|, want - |done|, Read)
    requires |part| == sz && part == Head(Fetch(disk, Target(n, disk, ino, p', stray)), sz)
    ensures Astray(n, disk, disk, ino, Read, offs, stop, stray, done + part, c, c + 1, p', l')
  {
    hide Slot, PathOf, PtrBlocks, Loaded, Data, WayOnDisk, Advance, Mapped, Within, Moved, LastBlock, Target, Bytes;
    hide Fetch;
    hide Quot, Rem, Rest, At, Served, NextChunk;
    BeforeNext(n, disk, disk, ino, nb, Read, offs, want, done, c, p, l);
    ChunkIsShare(n, ino.size, offs, want, |done|, Read, c);
    ReadAstray(n, disk, ino, nb, offs, done, c, part, sz);
  }

  /** A pass after that. */
  lemma ReadStaysAstray(n: Fanout, disk: seq<Block>, ino: Inode, offs: nat, stop: nat, stray: nat -> nat,
                        done: seq<Byte>, c1: nat, c: nat, p: Path, l: Levels, p': Path, l': Levels, part: seq<Byte>)
    requires |ino.block| == N_BLOCKS && Astray(n, disk, disk, ino, Read, offs, stop, stray, done, c1, c, p, l)
    ensures Astray(n, disk, disk, ino, Read, offs, stop, stray, done + part, c1, c + 1, p', l')
  {
    hide Bytes;
    StaysWrong(n, disk, ino, offs, done, part);
  }

  /** The inode of a file that has grown to take everything up to end. */
  function Grown(ino: Inode, end: nat): Inode {
    ino.(size := if end > ino.size then end else ino.size)
  }

  /** What a transfer is to do: it returns the count of the bytes moved; a read returns these bytes of the file; a write
      lays the data over the file, changes no other block of the disk and lets the size reach the end of the data. */
  ghost predicate Right(n: Fanout, disk: seq<Block>, disk': seq<Block>, ino: Inode, ino': Inode, nb: nat, cmd: IoCmd,
                        offs: nat, moved: nat, data: seq<Byte>, buffer: seq<Byte>, r: IoResult)
    requires |ino.block| == N_BLOCKS
  {
    && r == Count(moved)
    && (cmd.Read? ==> disk' == disk && buffer == Bytes(n, disk, ino, offs, offs + moved))
    && (cmd.Write? ==>
          && moved <= |data|
          && Mapped(n, disk', ino, nb)
          && Holds(n, disk, disk', ino, nb, offs, data[..moved])
          && OnlyBlocks(n, disk, disk', ino, Quot(offs, 4 * n), LastBlock(n, offs, moved) + 1)
          && ino' == Grown(ino, offs + moved))
  }

  /** What ext2_file_write is to do. */
  ghost predicate WriteDone(n: Fanout, disk: seq<Block>, disk': seq<Block>, ino: Inode, ino': Inode, nb: nat, offs: nat,
                            data: seq<Byte>, r: IoResult)
    requires |ino.block| == N_BLOCKS
  {
    var g := Grown(ino, offs + |data|);
    && r == Count(|data|) && ino' == g
    && Mapped(n, disk', g, nb)
    && Holds(n, disk, disk', g, nb, offs, data)
    && OnlyBlocks(n, disk, disk', g, Quot(offs, 4 * n), LastBlock(n, offs, |data|) + 1)
  }

  lemma ByteInBlock(n: Fanout, disk: seq<Block>, ino: Inode, c: nat, j: nat)
    requires |ino.block| == N_BLOCKS && j < 4 * n
    ensures c * (4 * n) + j >= 0 && Quot(c * (4 * n) + j, 4 * n) == c
    ensures j < |Data(n, disk, ino, c)| ==> ByteAt(n, disk, ino, c * (4 * n) + j) == Data(n, disk, ino, c)[j]
  {
    hide Quot, Rem, Data;
    QuotRemUnique(4 * n, c, j);
  }

  lemma HoldsAt(n: Fanout, disk: seq<Block>, disk': seq<Block>, ino: Inode, nb: nat, offs: nat, data: seq<Byte>, x: nat)
    requires |ino.block| == N_BLOCKS && Holds(n, disk, disk', ino, nb, offs, data)
    requires Quot(x, 4 * n) < nb && offs <= x < offs + |data|
    ensures ByteAt(n, disk', ino, x) == data[x - offs]
  {
  }

  /** A write that has left a block as it was, and holds its data, has had that block's bytes for data. */
  lemma SameAsBefore(n: Fanout, disk0: seq<Block>, disk: seq<Block>, ino: Inode, nb: nat, offs: nat, moved: nat,
                     data: seq<Byte>, c: nat)
    requires |ino.block| == N_BLOCKS && Mapped(n, disk0, ino, nb) && c < nb && offs <= c * (4 * n) && moved <= |data|
    requires Data(n, disk, ino, c) == Data(n, disk0, ino, c) && Holds(n, disk0, disk, ino, nb, offs, data[..moved])
    ensures var m := Share(n, offs, moved, c); Head(DataFor(n, offs, c, data), m) == Head(Data(n, disk0, ino, c), m)
  {
    hide Slot, PathOf, PtrBlocks, Mapped, Data, Holds;
    var m, at := Share(n, offs, moved, c), c * (4 * n);
    var b, d := Data(n, disk0, ino, c), DataFor(n, offs, c, data);
    DataLength(n, disk0, ino, nb, c);
    forall j | 0 <= j < m
      ensures d[j] == b[j]
    {
      ByteInBlock(n, disk, ino, c, j);
      HoldsAt(n, disk0, disk, ino, nb, offs, data[..moved], at + j);
    }
  }

  /** A write that has spared a block, and changed data blocks of the file only, has left that file block as it was. */
  lemma SparedIsSame(n: Fanout, disk0: seq<Block>, disk: seq<Block>, ino: Inode, nb: nat, c0: nat, c: nat, e: nat)
    requires |ino.block| == N_BLOCKS && Mapped(n, disk0, ino, nb) && e < nb && c <= nb
    requires OnlyBlocks(n, disk0, disk, ino, c0, c)
    requires var s := Slot(disk0, ino, PathOf(n, e)); s < |disk0| == |disk| && disk[s] == disk0[s]
    ensures Data(n, disk, ino, e) == Data(n, disk0, ino, e)
  {
    hide PathOf, PtrBlocks, Slot, OnlyBlocks, Mapped;
    MappedWayUntouched(n, disk0, disk, ino, nb, c0, c, e);
    var way := PtrBlocks(disk0, ino, PathOf(n, e));
    assert forall i :: 0 <= i < |way| ==> Fetch(disk, way[i]) == Fetch(disk0, way[i]);
    SameWhenFetchesAgree(disk0, disk, ino, PathOf(n, e));
  }

  /** A transfer that ends with its cursor astray has not done what it was to do. */
  lemma AstrayIsWrong(n: Fanout, disk0: seq<Block>, disk: seq<Block>, ino: Inode, ino': Inode, nb: nat, cmd: IoCmd,
                      offs: nat, moved: nat, data: seq<Byte>, done: seq<Byte>, c1: nat, c: nat, p: Path, l: Levels,
                      stray: nat -> nat, stop: nat, buffer: seq<Byte>, r: IoResult)
    requires |ino.block| == N_BLOCKS && Mapped(n, disk0, ino, nb) && |done| == moved && c1 < nb
    requires LastBlock(n, offs, moved) < nb && offs <= c1 * (4 * n) && (cmd.Read? ==> buffer == done)
    requires Astray(n, disk0, disk, ino, cmd, offs, stop, stray, done, c1, c, p, l)
    requires Telling(n, disk0, ino, nb, cmd, offs, moved, data, stray, c1, stop)
    ensures !Right(n, disk0, disk, ino, ino', nb, cmd, offs, moved, data, buffer, r)
  {
    hide Slot, PathOf, PtrBlocks, Follows, Mapped, Within, LastBlock, Bytes, OnlyBlocks, Data, Holds, Target, NeverBack;
    hide DataFor, Head, Share, AgreeOn, Cursor, WayAt, ReadsAt, Quot;
    if Right(n, disk0, disk, ino, ino', nb, cmd, offs, moved, data, buffer, r) && cmd.Write? {
      SparedIsSame(n, disk0, disk, ino, nb, Quot(offs, 4 * n), LastBlock(n, offs, moved) + 1, c1);
      SameAsBefore(n, disk0, disk, ino, nb, offs, moved, data, c1);
    }
  }

  // ---------------------------------------------------------------- whole transfers

  lemma NothingToRead(n: Fanout, t: Tests, disk: seq<Block>, ino: Inode, nb: nat, offs: nat, want: nat, data: seq<Byte>)
    requires |ino.block| == N_BLOCKS && offs >= ino.size
    ensures Moved(n, ino.size, offs, want, Read) == 0 && Steady(t, n, offs, 0)
    ensures Right(n, disk, disk, ino, ino, nb, Read, offs, 0, data, [], Count(0))
  {
  }

  lemma FailedIsWrong(n: Fanout, disk: seq<Block>, disk': seq<Block>, ino: Inode, ino': Inode, nb: nat, cmd: IoCmd,
                      offs: nat, moved: nat, data: seq<Byte>, buffer: seq<Byte>)
    requires |ino.block| == N_BLOCKS
    ensures !Right(n, disk, disk', ino, ino', nb, cmd, offs, moved, data, buffer, Failed)
  {
  }

  /** The block at which an unsteady transfer goes wrong. */
  lemma TripOf(t: Tests, n: Fanout, disk: seq<Block>, ino: Inode, nb: nat, cmd: IoCmd, offs: nat, moved: nat,
               data: seq<Byte>, stray: nat -> nat)
    returns (c: nat, stop: nat)
    requires |ino.block| == N_BLOCKS && !Steady(t, n, offs, moved)
    requires TripTells(n, disk, ino, nb, cmd, offs, moved, data, stray)
    ensures t.Absolute? && FirstTrip(n, Quot(offs, 4 * n), LastBlock(n, offs, moved), c)
    ensures Telling(n, disk, ino, nb, cmd, offs, moved, data, stray, c, stop)
  {
    hide Telling, Trips, LastBlock, Quot;
    c := FirstTripExists(n, Quot(offs, 4 * n), LastBlock(n, offs, moved));
    stop :| Telling(n, disk, ino, nb, cmd, offs, moved, data, stray, c, stop);
  }

  /** The step to block c is right in a steady transfer, and before the first trip of any other. */
  lemma StepRight(t: Tests, n: Fanout, offs: nat, moved: nat, c: nat, trip: nat)
    requires Quot(offs, 4 * n) < c <= LastBlock(n, offs, moved)
    requires Steady(t, n, offs, moved) || (FirstTrip(n, Quot(offs, 4 * n), LastBlock(n, offs, moved), trip) && c < trip)
    ensures Advance(t, n, PathOf(n, c - 1), c) == PathOf(n, c)
  {
    hide Trips, PathOf, Advance, LastBlock, Quot;
    if t.Absolute? {
      AdvanceExact(n, c);
    } else {
      AdvanceDesignRight(n, c);
    }
  }

  /** What a pass of the loop does to cursor and disk when it does not fail: for a cursor whose indices are inside their
      blocks, and for any cursor, whose buffers hold what stood on the disk disk0. */
  ghost predicate Passed(n: Fanout, disk0: seq<Block>, disk: seq<Block>, disk': seq<Block>, ino: Inode, cmd: IoCmd,
                         c: nat, p: Path, l: Levels, p': Path, l': Levels, stray: nat -> nat, more: seq<Byte>,
                         part: seq<Byte>, sz: nat)
    requires |ino.block| == N_BLOCKS
  {
    var s := Slot(disk, ino, p');
    && (cmd.Read? ==> disk' == disk && |part| == sz)
    && (Within(n, p') && WayOnDisk(disk, ino, p') && s < |disk| && Loaded(disk, ino, p, l) ==>
          Loaded(disk, ino, p', l') && ChunkDone(disk, disk', cmd, s, 0, more, part, sz))
    && (Follows(n, disk0, ino, p, l, stray)
        && (Reads(n, p, p', c) ==> AgreeOn(disk0, disk, Way(n, disk0, ino, p', stray))) ==>
          && Follows(n, disk0, ino, p', l', stray)
          && ChunkDone(disk, disk', cmd, Target(n, disk0, ino, p', stray), 0, more, part, sz)
          && (Reads(n, p, p', c) ==> HasInnermost(|disk|, Way(n, disk0, ino, p', stray))))
  }

  lemma SameAgrees(disk: seq<Block>, way: seq<nat>)
    ensures AgreeOn(disk, disk, way)
  {
  }

  /** The pass at which the cursor goes wrong. */
  lemma GoesAstray(n: Fanout, disk0: seq<Block>, disk: seq<Block>, disk': seq<Block>, ino: Inode, nb: nat, cmd: IoCmd,
                   offs: nat, want: nat, data: seq<Byte>, done: seq<Byte>, c: nat, p: Path, l: Levels, p': Path,
                   l': Levels, stray: nat -> nat, stop: nat, more: seq<Byte>, part: seq<Byte>, sz: nat)
    requires |ino.block| == N_BLOCKS && InRange(n, disk0, ino, nb, offs, Moved(n, ino.size, offs, want, cmd))
    requires Underway(n, disk0, disk, ino, nb, cmd, offs, want, done, c, p, l)
    requires |done| < want && offs + |done| < ino.size && (cmd.Read? ==> disk == disk0)
    requires FirstTrip(n, Quot(offs, 4 * n), LastBlock(n, offs, Moved(n, ino.size, offs, want, cmd)), c)
    requires Telling(n, disk0, ino, nb, cmd, offs, Moved(n, ino.size, offs, want, cmd), data, stray, c, stop)
    requires p' == Advance(Absolute, n, p, c) && sz == NextChunk(n, ino.size, offs + |done|, want - |done|, cmd)
    requires Passed(n, disk0, disk, disk', ino, cmd, c, p, l, p', l', stray, more, part, sz)
    ensures Astray(n, disk0, disk', ino, cmd, offs, stop, stray,
                   done + if cmd.Read? then part else more, c, c + 1, p', l')
  {
    hide Slot, PathOf, PtrBlocks, Loaded, ChunkDone, WayOnDisk, Advance, Within, Moved, LastBlock, Mapped, Trips;
    hide Head, Target, Fetch, NextChunk, Counted, Rest, Quot, Follows, Way, AgreeOn, Reads, NeverBack, Spared, Holds;
    hide SameWays;
    BeforeNext(n, disk0, disk, ino, nb, cmd, offs, want, done, c, p, l);
    var last := LastBlock(n, offs, Moved(n, ino.size, offs, want, cmd));
    if cmd.Read? {
      WithinFollows(n, disk, ino, p, l, stray);
      SameAgrees(disk, Way(n, disk, ino, p', stray));
      ReadDone(n, disk, disk', ino, p', stray, more, part, sz);
      ReadGoesAstray(n, disk, ino, nb, offs, want, data, done, c, p, l, p', l', stray, part, sz, stop);
    } else {
      ChunkIsShare(n, ino.size, offs, want, |done|, cmd, c);
      SparedSoFar(n, disk0, disk, ino, nb, stray, offs, done, stop, last, c, p, l);
      SparedPasses(n, disk0, disk, disk', ino, stray, Quot(offs, 4 * n), c, stop, last, c, p, l, p', l', more, part,
                   sz);
    }
  }

  lemma ReadDone(n: Fanout, disk: seq<Block>, disk': seq<Block>, ino: Inode, p: Path, stray: nat -> nat,
                 more: seq<Byte>, part: seq<Byte>, sz: nat)
    requires |ino.block| == N_BLOCKS
    requires ChunkDone(disk, disk', Read, Target(n, disk, ino, p, stray), 0, more, part, sz)
    ensures |part| == sz && part == Head(Fetch(disk, Target(n, disk, ino, p, stray)), sz)
  {
    hide Target;
  }

  lemma SparedPasses(n: Fanout, disk0: seq<Block>, disk: seq<Block>, disk': seq<Block>, ino: Inode, stray: nat -> nat,
                     c0: nat, c1: nat, stop: nat, last: nat, c: nat, p: Path, l: Levels, p': Path, l': Levels,
                     more: seq<Byte>, part: seq<Byte>, sz: nat)
    requires |ino.block| == N_BLOCKS && NeverBack(n, disk0, ino, stray, c0, c1, stop, last) && c <= last
    requires Spared(n, disk0, disk, ino, stray, c0, c1, stop, c, p, l)
    requires p' == Advance(Absolute, n, p, c)
    requires Passed(n, disk0, disk, disk', ino, Write, c, p, l, p', l', stray, more, part, sz)
    ensures Spared(n, disk0, disk', ino, stray, c0, c1, stop, c + 1, p', l')
  {
    hide Slot, PathOf, PtrBlocks, Loaded, ChunkDone, WayOnDisk, Advance, Within, Target, Follows, Way, AgreeOn, Reads;
    hide Cursor, ReadsAt, WayAt, Visited;
    SparedAgrees(n, disk0, disk, ino, stray, c0, c1, stop, c, p, l);
    SparedNext(n, disk0, disk, disk', ino, stray, c0, c1, stop, last, c, p, l, p', l', more, part, sz);
  }

  lemma StaysAstray(n: Fanout, disk0: seq<Block>, disk: seq<Block>, disk': seq<Block>, ino: Inode, nb: nat, cmd: IoCmd,
                    offs: nat, moved: nat, data: seq<Byte>, done: seq<Byte>, c1: nat, c: nat, p: Path, l: Levels,
                    p': Path, l': Levels, stray: nat -> nat, stop: nat, more: seq<Byte>, part: seq<Byte>, sz: nat)
    requires |ino.block| == N_BLOCKS && c <= LastBlock(n, offs, moved)
    requires Astray(n, disk0, disk, ino, cmd, offs, stop, stray, done, c1, c, p, l)
    requires Telling(n, disk0, ino, nb, cmd, offs, moved, data, stray, c1, stop) && p' == Advance(Absolute, n, p, c)
    requires Passed(n, disk0, disk, disk', ino, cmd, c, p, l, p', l', stray, more, part, sz)
    ensures Astray(n, disk0, disk', ino, cmd, offs, stop, stray,
                   done + if cmd.Read? then part else more, c1, c + 1, p', l')
  {
    hide Slot, PathOf, PtrBlocks, Loaded, ChunkDone, WayOnDisk, Advance, Within, LastBlock, Mapped, Data, Spared;
    hide Head, Target, Fetch, Quot, Bytes, Follows, Way, AgreeOn, Reads, NeverBack;
    if cmd.Read? {
      ReadStaysAstray(n, disk, ino, offs, stop, stray, done, c1, c, p, l, p', l', part);
    } else {
      SparedPasses(n, disk0, disk, disk', ino, stray, Quot(offs, 4 * n), c1, stop, LastBlock(n, offs, moved), c, p, l,
                   p', l', more, part, sz);
    }
  }

  lemma BehindStart(n: Fanout, offs: nat, c: nat)
    requires Quot(offs, 4 * n) < c
    ensures offs <= c * (4 * n)
  {
    hide Quot, Rem;
    QuotRem(offs, 4 * n);
    MulStep(Quot(offs, 4 * n), c, 4 * n);
  }

  /** What a transfer has moved so far. */
  function Done(cmd: IoCmd, data: seq<Byte>, buffer: seq<Byte>, count: nat): seq<Byte> {
    if cmd.Read? then buffer else Head(data, count)
  }

  /** A transfer before file block c, whose cursor is right or went wrong at `trip`. */
  ghost predicate OnTrack(t: Tests, n: Fanout, disk0: seq<Block>, disk: seq<Block>, ino: Inode, nb: nat, cmd: IoCmd,
                          offs: nat, want: nat, stray: nat -> nat, done: seq<Byte>, c: nat, p: Path, l: Levels,
                          trip: nat, stop: nat)
    requires |ino.block| == N_BLOCKS
  {
    var moved := Moved(n, ino.size, offs, want, cmd);
    var steady := Steady(t, n, offs, moved);
    && |disk| == |disk0| && (cmd.Read? ==> disk == disk0)
    && Counted(n, ino.size, cmd, offs, want, |done|, c)
    && (steady || c <= trip ==> Underway(n, disk0, disk, ino, nb, cmd, offs, want, done, c, p, l))
    && (!steady && trip < c ==>
          Astray(n, disk0, disk, ino, cmd, offs, stop, stray, done, trip, c, p, l))
  }

  /** The transfer can be followed: it is steady, or it goes wrong at `trip` and that shows. */
  ghost predicate Followed(t: Tests, n: Fanout, disk: seq<Block>, ino: Inode, nb: nat, cmd: IoCmd, offs: nat, want: nat,
                           data: seq<Byte>, stray: nat -> nat, trip: nat, stop: nat)
    requires |ino.block| == N_BLOCKS
  {
    var moved := Moved(n, ino.size, offs, want, cmd);
    && InRange(n, disk, ino, nb, offs, moved)
    && (Steady(t, n, offs, moved)
        || (&& t.Absolute?
            && FirstTrip(n, Quot(offs, 4 * n), LastBlock(n, offs, moved), trip)
            && Telling(n, disk, ino, nb, cmd, offs, moved, data, stray, trip, stop)))
  }

  lemma TrackAfterFirst(t: Tests, n: Fanout, disk: seq<Block>, disk': seq<Block>, ino: Inode, nb: nat, cmd: IoCmd,
                        offs: nat, want: nat, data: seq<Byte>, stray: nat -> nat, trip: nat, stop: nat, more: seq<Byte>,
                        part: seq<Byte>, p: Path, l: Levels)
    requires |ino.block| == N_BLOCKS && (cmd.Read? ==> offs < ino.size)
    requires Followed(t, n, disk, ino, nb, cmd, offs, want, data, stray, trip, stop)
    requires p == PathOf(n, Quot(offs, 4 * n)) && Loaded(disk, ino, p, l)
    requires var sz := First(n, ino.size, offs, want, cmd);
      ChunkDone(disk, disk', cmd, Slot(disk, ino, p), Rem(offs, 4 * n), more, part, sz)
    ensures
      OnTrack(t, n, disk, disk', ino, nb, cmd, offs, want, stray, if cmd.Read? then part else more,
              Quot(offs, 4 * n) + 1, p, l, trip, stop)
    ensures var done := if cmd.Read? then part else more;
      |done| == First(n, ino.size, offs, want, cmd) && offs + |done| < TWO32
  {
    hide PathOf, Slot, PtrBlocks, Loaded, Quot, Rem, Mapped, LastBlock, Moved, Rest, Served, Overlay, Telling, Underway;
    hide Counted, First, Trips, Astray;
    AfterFirst(n, disk, disk', ino, nb, cmd, offs, want, more, part, p, l);
  }

  /** In a steady transfer, the way to the next block is there. */
  lemma TrackGoesOn(t: Tests, n: Fanout, disk0: seq<Block>, disk: seq<Block>, ino: Inode, nb: nat, cmd: IoCmd,
                    offs: nat, want: nat, data: seq<Byte>, stray: nat -> nat, done: seq<Byte>, c: nat, p: Path,
                    l: Levels, trip: nat, stop: nat)
    requires |ino.block| == N_BLOCKS && Followed(t, n, disk0, ino, nb, cmd, offs, want, data, stray, trip, stop)
    requires OnTrack(t, n, disk0, disk, ino, nb, cmd, offs, want, stray, done, c, p, l, trip, stop)
    requires |done| < want && offs + |done| < ino.size && c > 0
    ensures var p' := Advance(t, n, p, c);
      Steady(t, n, offs, Moved(n, ino.size, offs, want, cmd)) ==>
        Within(n, p') && WayOnDisk(disk, ino, p') && Slot(disk, ino, p') < |disk| && Loaded(disk, ino, p, l)
  {
    hide PathOf, Slot, PtrBlocks, Loaded, Quot, Rem, Mapped, LastBlock, Moved, Rest, Served, Telling, Underway, Steady;
    hide Counted, Trips, Astray, Advance, WayOnDisk, Within;
    var moved := Moved(n, ino.size, offs, want, cmd);
    if Steady(t, n, offs, moved) {
      ChunkIsShare(n, ino.size, offs, want, |done|, cmd, c);
      BeforeNext(n, disk0, disk, ino, nb, cmd, offs, want, done, c, p, l);
      CountedAfterFirst(n, ino.size, cmd, offs, want, |done|, c);
      StepRight(t, n, offs, moved, c, trip);
    }
  }

  lemma CountedAfterFirst(n: Fanout, size: nat, cmd: IoCmd, offs: nat, want: nat, count: nat, c: nat)
    requires Counted(n, size, cmd, offs, want, count, c)
    ensures Quot(offs, 4 * n) < c
  {
  }

  /** A pass of the loop. */
  lemma TrackNext(t: Tests, n: Fanout, disk0: seq<Block>, disk: seq<Block>, disk': seq<Block>, ino: Inode, nb: nat,
                  cmd: IoCmd, offs: nat, want: nat, data: seq<Byte>, stray: nat -> nat, done: seq<Byte>, c: nat,
                  p: Path, l: Levels, trip: nat, stop: nat, p': Path, l': Levels, more: seq<Byte>, part: seq<Byte>,
                  sz: nat)
    requires |ino.block| == N_BLOCKS && Followed(t, n, disk0, ino, nb, cmd, offs, want, data, stray, trip, stop)
    requires OnTrack(t, n, disk0, disk, ino, nb, cmd, offs, want, stray, done, c, p, l, trip, stop)
    requires |done| < want && offs + |done| < ino.size && c > 0 && |disk'| == |disk| && (cmd.Write? ==> |more| == sz)
    requires p' == Advance(t, n, p, c) && sz == NextChunk(n, ino.size, offs + |done|, want - |done|, cmd)
    requires Passed(n, disk0, disk, disk', ino, cmd, c, p, l, p', l', stray, more, part, sz)
    ensures OnTrack(t, n, disk0, disk', ino, nb, cmd, offs, want, stray, done + if cmd.Read? then part else more,
                    c + 1, p', l', trip, stop)
    ensures offs + |done| + sz < TWO32 && (cmd.Read? ==> |part| == sz)
  {
    hide PathOf, Slot, PtrBlocks, Loaded, Quot, Rem, Mapped, LastBlock, Moved, Rest, Served, Telling, Underway, Steady;
    hide Counted, Trips, Astray, Advance, WayOnDisk, Within, ChunkDone, Target, Follows, Way, AgreeOn, Reads, Head;
    hide NextChunk, Fetch;
    var moved := Moved(n, ino.size, offs, want, cmd);
    ChunkIsShare(n, ino.size, offs, want, |done|, cmd, c);
    CountedAfterFirst(n, ino.size, cmd, offs, want, |done|, c);
    if Steady(t, n, offs, moved) || c < trip {
      BeforeNext(n, disk0, disk, ino, nb, cmd, offs, want, done, c, p, l);
      StepRight(t, n, offs, moved, c, trip);
      AfterNext(n, disk0, disk, disk', ino, nb, cmd, offs, want, done, c, p, l, more, part, p', l');
    } else if c == trip {
      GoesAstray(n, disk0, disk, disk', ino, nb, cmd, offs, want, data, done, c, p, l, p', l', stray, stop, more,
                 part, sz);
    } else {
      StaysAstray(n, disk0, disk, disk', ino, nb, cmd, offs, moved, data, done, trip, c, p, l, p', l', stray, stop,
                  more, part, sz);
    }
  }

  /** A transfer ends behind its last block. */
  lemma EndsBehindLast(n: Fanout, size: nat, cmd: IoCmd, offs: nat, want: nat, count: nat, c: nat)
    requires Counted(n, size, cmd, offs, want, count, c) && !(count < want && offs + count < size)
    ensures var moved := Moved(n, size, offs, want, cmd); count == moved && c == LastBlock(n, offs, moved) + 1
  {
    hide Quot, Rem, Moved, RoundUp;
    var moved := Moved(n, size, offs, want, cmd);
    FirstBlockInTransfer(n, offs, moved);
    if moved > 0 && c <= LastBlock(n, offs, moved) {
      QuotRem(offs + moved - 1, 4 * n);
      LeqMul(c, LastBlock(n, offs, moved), 4 * n);
    }
  }

  lemma ReadEnds(n: Fanout, size: nat, offs: nat, want: nat)
    requires offs < size
    ensures offs + Moved(n, size, offs, want, Read) <= size
  {
  }

  /** At the end, a steady transfer has done what it was to do, and one that went wrong has not. */
  lemma TrackEnds(t: Tests, n: Fanout, disk0: seq<Block>, disk: seq<Block>, ino: Inode, nb: nat, cmd: IoCmd, offs: nat,
                  want: nat, data: seq<Byte>, stray: nat -> nat, buffer: seq<Byte>, count: nat, c: nat, p: Path,
                  l: Levels, trip: nat, stop: nat)
    requires |ino.block| == N_BLOCKS && Followed(t, n, disk0, ino, nb, cmd, offs, want, data, stray, trip, stop)
    requires OnTrack(t, n, disk0, disk, ino, nb, cmd, offs, want, stray, Done(cmd, data, buffer, count), c, p, l,
                     trip, stop)
    requires count <= want && (if cmd.Write? then |data| == want else |buffer| == count)
    requires !(count < want && offs + count < ino.size) && (cmd.Read? ==> offs < ino.size)
    ensures cmd.Read? ==> Grown(ino, offs + count) == ino
    ensures var moved := Moved(n, ino.size, offs, want, cmd);
      && count == moved
      && (Right(n, disk0, disk, ino, Grown(ino, offs + count), nb, cmd, offs, moved, data, buffer, Count(count)) <==>
          Steady(t, n, offs, moved))
  {
    hide PathOf, Slot, PtrBlocks, Loaded, Quot, Rem, Mapped, LastBlock, Moved, Holds, OnlyBlocks, Bytes, Underway;
    hide Steady;
    hide Trips, Astray, Telling;
    var moved, done := Moved(n, ino.size, offs, want, cmd), Done(cmd, data, buffer, count);
    if cmd.Read? {
      ReadEnds(n, ino.size, offs, want);
    }
    EndsBehindLast(n, ino.size, cmd, offs, want, |done|, c);
    if Steady(t, n, offs, moved) {
      AtTheEnd(n, disk0, disk, ino, nb, cmd, offs, want, done, c, p, l);
    } else {
      BehindStart(n, offs, trip);
      AstrayIsWrong(n, disk0, disk, ino, Grown(ino, offs + count), nb, cmd, offs, moved, data, done, trip, c, p, l,
                    stray, stop, buffer, Count(count));
    }
  }

  // ---------------------------------------------------------------- the file as an array of bytes

  /** The stretch `was` of a file, which begins at a, with data laid over it at offs. */
  function LaidOver(was: seq<Byte>, a: nat, offs: nat, data: seq<Byte>): (r: seq<Byte>)
    ensures |r| == |was|
  {
    seq(|was|, j requires 0 <= j < |was| => if offs <= a + j < offs + |data| then data[a + j - offs] else was[j])
  }

  /** After a write, every stretch of the file reads as the old one with the data laid over it. */
  lemma ReadAfterWrite(n: Fanout, disk: seq<Block>, disk': seq<Block>, ino: Inode, nb: nat, offs: nat, data: seq<Byte>,
                       a: nat, b: nat)
    requires |ino.block| == N_BLOCKS && Holds(n, disk, disk', ino, nb, offs, data) && a <= b <= nb * (4 * n)
    ensures Bytes(n, disk', ino, a, b) == LaidOver(Bytes(n, disk, ino, a, b), a, offs, data)
    ensures a == offs && b == offs + |data| ==> Bytes(n, disk', ino, a, b) == data
  {
    hide PathOf, Slot, Quot, Rem, ByteAt;
    forall j | 0 <= j < b - a
      ensures Bytes(n, disk', ino, a, b)[j]
              == if offs <= a + j < offs + |data| then data[a + j - offs] else Bytes(n, disk, ino, a, b)[j]
    {
      InMappedBlocks(n, a + j, nb);
      assert ByteAt(n, disk', ino, a + j)
             == if offs <= a + j < offs + |data| then data[a + j - offs] else ByteAt(n, disk, ino, a + j);
    }
  }

  lemma TransferInBlocks(n: Fanout, offs: nat, moved: nat, nb: nat)
    requires LastBlock(n, offs, moved) < nb
    ensures moved > 0 ==> offs + moved <= nb * (4 * n)
  {
    hide Quot, Rem;
    if moved > 0 {
      QuotRem(offs + moved - 1, 4 * n);
      MulStep(LastBlock(n, offs, moved), nb, 4 * n);
    }
  }

  lemma InMappedBlocks(n: Fanout, x: nat, nb: nat)
    requires x < nb * (4 * n)
    ensures Quot(x, 4 * n) < nb
  {
    hide Quot, Rem;
    QuotRem(x, 4 * n);
    if Quot(x, 4 * n) >= nb {
      LeqMul(nb, Quot(x, 4 * n), 4 * n);
    }
  }

  /** File block c of another file shares no block with file blocks c0 .. c1 - 1 of ino. */
  ghost predicate Foreign(n: Fanout, disk: seq<Block>, ino: Inode, c0: nat, c1: nat, other: Inode, c: nat)
    requires |ino.block| == N_BLOCKS && |other.block| == N_BLOCKS
  {
    var way := PtrBlocks(disk, other, PathOf(n, c));
    && (forall i :: 0 <= i < |way| ==> !IsDataBlock(n, disk, ino, c0, c1, way[i]))
    && !IsDataBlock(n, disk, ino, c0, c1, Slot(disk, other, PathOf(n, c)))
  }

  lemma SameWhenFetchesAgree(disk: seq<Block>, disk': seq<Block>, other: Inode, p: Path)
    requires |other.block| == N_BLOCKS
    requires var way := PtrBlocks(disk, other, p);
      forall i :: 0 <= i < |way| ==> Fetch(disk', way[i]) == Fetch(disk, way[i])
    ensures Slot(disk', other, p) == Slot(disk, other, p)
  {
    hide PtrAt, Fetch;
    var way := PtrBlocks(disk, other, p);
    if !p.Direct? {
      assert Fetch(disk', way[0]) == Fetch(disk, way[0]);
      if p.Ind2? {
        assert Fetch(disk', way[1]) == Fetch(disk, way[1]);
      } else if p.Ind3? {
        assert Fetch(disk', way[1]) == Fetch(disk, way[1]) && Fetch(disk', way[2]) == Fetch(disk, way[2]);
      }
    }
  }

  /** A write leaves every block of every other file that shares no block with it. */
  lemma OtherFileUntouched(n: Fanout, disk: seq<Block>, disk': seq<Block>, ino: Inode, c0: nat, c1: nat,
                           other: Inode, x: nat)
    requires |ino.block| == N_BLOCKS && |other.block| == N_BLOCKS
    requires OnlyBlocks(n, disk, disk', ino, c0, c1) && Foreign(n, disk, ino, c0, c1, other, Quot(x, 4 * n))
    ensures ByteAt(n, disk', other, x) == ByteAt(n, disk, other, x)
  {
    hide PathOf, Slot, PtrBlocks, Quot, Rem, IsDataBlock;
    var p := PathOf(n, Quot(x, 4 * n));
    SameWhenFetchesAgree(disk, disk', other, p);
  }

  /** ext2_file_write lets the size reach the end of the data first, so its transfer moves all of it. */
  lemma GrownFileTakesAll(n: Fanout, size: nat, offs: nat, want: nat, cmd: IoCmd)
    requires size >= offs + want && (cmd.Read? ==> want > 0)
    ensures Moved(n, size, offs, want, cmd) == want
  {
    hide Quot, Rem;
  }
}
