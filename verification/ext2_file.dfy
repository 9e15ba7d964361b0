/** A file of virgoos/src/fs/ext2.c as its inode and the disk show it: pointer blocks, data blocks and the bytes of the
    file; and what overwriting part of one data block does to all of them. */
module Ext2File {
  import opened Common
  import opened Division
  import opened Ext2Mapping

  type Block = seq<Byte>

  /** i_size and i_block of struct ext2_inode. */
  datatype Inode = Inode(size: nat, block: seq<nat>)

  /** Pointer number i of a pointer block: a little-endian 32-bit number. */
  function PtrAt(b: Block, i: nat): nat {
    if 4 * i + 3 < |b|
    then b[4 * i] as int + 0x100 * (b[4 * i + 1] as int + 0x100 * (b[4 * i + 2] as int + 0x100 * b[4 * i + 3] as int))
    else 0
  }

  function Fetch(disk: seq<Block>, b: nat): Block {
    if b < |disk| then disk[b] else []
  }

  /** The pointer blocks on the way to a data block, outermost first. */
  function PtrBlocks(disk: seq<Block>, ino: Inode, p: Path): seq<nat>
    requires |ino.block| == N_BLOCKS
  {
    match p
    case Direct(_) => []
    case Ind(_) => [ino.block[IND_BLOCK]]
    case Ind2(i, _) =>
      var b := ino.block[DIND_BLOCK];
      [b, PtrAt(Fetch(disk, b), i)]
    case Ind3(k, i, _) =>
      var b := ino.block[TIND_BLOCK];
      var b' := PtrAt(Fetch(disk, b), k);
      [b, b', PtrAt(Fetch(disk, b'), i)]
  }

  function LastIndex(p: Path): nat {
    match p
    case Direct(c) => c
    case Ind(d) => d
    case Ind2(_, d) => d
    case Ind3(_, _, d) => d
  }

  /** The disk block that a path leads to. */
  function Slot(disk: seq<Block>, ino: Inode, p: Path): nat
    requires |ino.block| == N_BLOCKS
  {
    match p
    case Direct(c) => if c < NDIR_BLOCKS then ino.block[c] else 0
    case _ => var bs := PtrBlocks(disk, ino, p); PtrAt(Fetch(disk, bs[|bs| - 1]), LastIndex(p))
  }

  /** The pointer blocks on the way lie on the disk. */
  ghost predicate WayOnDisk(disk: seq<Block>, ino: Inode, p: Path)
    requires |ino.block| == N_BLOCKS
  {
    forall i :: 0 <= i < |PtrBlocks(disk, ino, p)| ==> PtrBlocks(disk, ino, p)[i] < |disk|
  }

  /** Every pointer on the way to file block c, and the data block, lies on the disk. */
  ghost predicate Reachable(n: Fanout, disk: seq<Block>, ino: Inode, c: nat)
    requires |ino.block| == N_BLOCKS
  {
    Slot(disk, ino, PathOf(n, c)) < |disk| && WayOnDisk(disk, ino, PathOf(n, c))
  }

  /** Data block of c is no pointer block of c' and, for another c', not its data block. */
  ghost predicate Apart(n: Fanout, disk: seq<Block>, ino: Inode, c: nat, c': nat)
    requires |ino.block| == N_BLOCKS
  {
    && Slot(disk, ino, PathOf(n, c)) !in PtrBlocks(disk, ino, PathOf(n, c'))
    && (c != c' ==> Slot(disk, ino, PathOf(n, c)) != Slot(disk, ino, PathOf(n, c')))
  }

  /** The first nb file blocks are mapped to blocks of their own. */
  ghost predicate Mapped(n: Fanout, disk: seq<Block>, ino: Inode, nb: nat) {
    && |ino.block| == N_BLOCKS
    && (forall b <- disk :: |b| == 4 * n)
    && (forall c :: 0 <= c < nb ==> Reachable(n, disk, ino, c))
    && (forall c, c' :: 0 <= c < nb && 0 <= c' < nb ==> Apart(n, disk, ino, c, c'))
  }

  /** Content of file block c. */
  function Data(n: Fanout, disk: seq<Block>, ino: Inode, c: nat): Block
    requires |ino.block| == N_BLOCKS
  {
    Fetch(disk, Slot(disk, ino, PathOf(n, c)))
  }

  /** Byte x of the file. */
  function ByteAt(n: Fanout, disk: seq<Block>, ino: Inode, x: nat): Byte
    requires |ino.block| == N_BLOCKS
  {
    var b := Data(n, disk, ino, Quot(x, 4 * n));
    if Rem(x, 4 * n) < |b| then b[Rem(x, 4 * n)] else 0
  }

  /** Bytes a .. b of the file. */
  function Bytes(n: Fanout, disk: seq<Block>, ino: Inode, a: nat, b: nat): (s: seq<Byte>)
    requires |ino.block| == N_BLOCKS && a <= b
    ensures |s| == b - a
  {
    seq<Byte>(b - a, j requires 0 <= j < b - a => ByteAt(n, disk, ino, a + j))
  }

  /** Block b with data put at offset o. */
  function Overlay(b: Block, o: nat, data: seq<Byte>): (r: Block)
    requires o + |data| <= |b|
    ensures |r| == |b|
  {
    b[..o] + data + b[o + |data|..]
  }

  /** Rewriting a block that is no pointer block on the way to c leaves the way. */
  lemma SamePath(disk: seq<Block>, disk': seq<Block>, ino: Inode, p: Path, s: nat)
    requires |ino.block| == N_BLOCKS && s < |disk| && |disk'| == |disk|
    requires forall b :: 0 <= b < |disk| && b != s ==> disk'[b] == disk[b]
    requires s !in PtrBlocks(disk, ino, p)
    ensures PtrBlocks(disk', ino, p) == PtrBlocks(disk, ino, p) && Slot(disk', ino, p) == Slot(disk, ino, p)
  {
    var bs := PtrBlocks(disk, ino, p);
    match p
    case Direct(_) =>
    case Ind(_) =>
      assert bs[0] != s;
    case Ind2(_, _) =>
      assert bs[0] != s && bs[1] != s;
    case Ind3(_, _, _) =>
      assert bs[0] != s && bs[1] != s && bs[2] != s;
  }

  /** Overwriting part of file block c keeps every pointer, changes block c as asked and no other block of the file. */
  lemma OverwriteBlock(n: Fanout, disk: seq<Block>, ino: Inode, nb: nat, c: nat, o: nat, data: seq<Byte>)
    requires Mapped(n, disk, ino, nb) && c < nb && o + |data| <= 4 * n
    ensures var s := Slot(disk, ino, PathOf(n, c));
      && s < |disk| && |disk[s]| == 4 * n
      && Mapped(n, disk[s := Overlay(disk[s], o, data)], ino, nb)
      && Data(n, disk[s := Overlay(disk[s], o, data)], ino, c) == Overlay(Data(n, disk, ino, c), o, data)
      && SameWays(n, disk, disk[s := Overlay(disk[s], o, data)], ino, nb)
      && forall c' {:trigger PathOf(n, c')} :: 0 <= c' < nb && c' != c ==>
           Data(n, disk[s := Overlay(disk[s], o, data)], ino, c') == Data(n, disk, ino, c')
  {
    hide PathOf;
    var s := Slot(disk, ino, PathOf(n, c));
    assert Reachable(n, disk, ino, c);
    var disk' := disk[s := Overlay(disk[s], o, data)];
    forall c' | 0 <= c' < nb
      ensures SameWay(n, disk, disk', ino, c') && Reachable(n, disk', ino, c')
    {
      assert Apart(n, disk, ino, c, c') && Reachable(n, disk, ino, c');
      SamePath(disk, disk', ino, PathOf(n, c'), s);
    }
    forall c', c'' | 0 <= c' < nb && 0 <= c'' < nb
      ensures Apart(n, disk', ino, c', c'')
    {
      assert Apart(n, disk, ino, c', c'') && SameWay(n, disk, disk', ino, c') && SameWay(n, disk, disk', ino, c'');
    }
    forall c' | 0 <= c' < nb && c' != c
      ensures Data(n, disk', ino, c') == Data(n, disk, ino, c')
    {
      assert Apart(n, disk, ino, c, c') && SameWay(n, disk, disk', ino, c');
    }
    assert SameWay(n, disk, disk', ino, c);
  }

  ghost predicate SameWay(n: Fanout, disk: seq<Block>, disk': seq<Block>, ino: Inode, c: nat)
    requires |ino.block| == N_BLOCKS
  {
    && PtrBlocks(disk', ino, PathOf(n, c)) == PtrBlocks(disk, ino, PathOf(n, c))
    && Slot(disk', ino, PathOf(n, c)) == Slot(disk, ino, PathOf(n, c))
  }

  /** All pointers of the first nb file blocks are as before. */
  ghost predicate SameWays(n: Fanout, disk: seq<Block>, disk': seq<Block>, ino: Inode, nb: nat)
    requires |ino.block| == N_BLOCKS
  {
    forall c :: 0 <= c < nb ==> SameWay(n, disk, disk', ino, c)
  }

  /** In bytes: the overwritten stretch holds the data, every other byte of the file is as before. */
  lemma OverwriteBytes(n: Fanout, disk: seq<Block>, ino: Inode, nb: nat, c: nat, o: nat, data: seq<Byte>, x: nat)
    requires Mapped(n, disk, ino, nb) && c < nb && o + |data| <= 4 * n && Quot(x, 4 * n) < nb
    ensures var s := Slot(disk, ino, PathOf(n, c)); var at := c * (4 * n) + o;
      && s < |disk| && |disk[s]| == 4 * n && at >= 0
      && ByteAt(n, disk[s := Overlay(disk[s], o, data)], ino, x)
         == if at <= x < at + |data| then data[x - at] else ByteAt(n, disk, ino, x)
  {
    hide Mapped, Slot, PathOf, Quot, Rem, PtrBlocks;
    OverwriteBlock(n, disk, ino, nb, c, o, data);
    var bs, q, r := 4 * n, Quot(x, 4 * n), Rem(x, 4 * n);
    QuotRem(x, bs);
    DataLength(n, disk, ino, nb, c);
    if q < c {
      MulStep(q, c, bs);
    } else if q > c {
      MulStep(c, q, bs);
    }
  }

  lemma DataLength(n: Fanout, disk: seq<Block>, ino: Inode, nb: nat, c: nat)
    requires Mapped(n, disk, ino, nb) && c < nb
    ensures |Data(n, disk, ino, c)| == 4 * n && c * (4 * n) >= 0
  {
    assert Reachable(n, disk, ino, c);
  }

  /** A stretch of the file inside block c is that stretch of the block. */
  lemma BytesOfBlock(n: Fanout, disk: seq<Block>, ino: Inode, nb: nat, c: nat, o: nat, sz: nat)
    requires |ino.block| == N_BLOCKS && Mapped(n, disk, ino, nb) && c < nb && o + sz <= 4 * n
    ensures |Data(n, disk, ino, c)| == 4 * n && c * (4 * n) >= 0
    ensures Bytes(n, disk, ino, c * (4 * n) + o, c * (4 * n) + o + sz) == Data(n, disk, ino, c)[o..o + sz]
  {
    hide Mapped, Slot, PathOf, Quot, Rem, PtrBlocks;
    DataLength(n, disk, ino, nb, c);
    var at, s := c * (4 * n) + o, Bytes(n, disk, ino, c * (4 * n) + o, c * (4 * n) + o + sz);
    forall j | 0 <= j < sz
      ensures s[j] == Data(n, disk, ino, c)[o..o + sz][j]
    {
      QuotRemUnique(4 * n, c, o + j);
      var x: nat := at + j;
      assert x == c * (4 * n) + (o + j);
      assert s[j] == ByteAt(n, disk, ino, x);
    }
  }

  lemma BytesConcat(n: Fanout, disk: seq<Block>, ino: Inode, a: nat, b: nat, c: nat)
    requires |ino.block| == N_BLOCKS && a <= b <= c
    ensures Bytes(n, disk, ino, a, b) + Bytes(n, disk, ino, b, c) == Bytes(n, disk, ino, a, c)
  {
  }
}
