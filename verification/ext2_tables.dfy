/** The tables of block numbers of a file of virgoos/src/fs/ext2.c as they lie on the disk, byte by byte: what a file
    read and a file write do, told by the numbers alone. */
module Ext2Tables {
  import opened Common
  import opened Division
  import opened Ext2Mapping
  import opened Ext2File
  import opened Ext2Transfer
  import opened Ext2InodeIo

  /** Block v is named at entry i of a pointer block: four bytes, the lowest first. */
  ghost predicate NumberAt(b: Block, i: nat, v: nat) {
    && 4 * i + 4 <= |b| && v < 0x1_0000_0000
    && b[4 * i] == v % 256 && b[4 * i + 1] == v / 256 % 256
    && b[4 * i + 2] == v / 65536 % 256 && b[4 * i + 3] == v / 16777216
  }

  /** The numbers of the blocks of a file in order, of the pointer blocks that its double indirect block names, of those
      that its triple indirect block names, and of the ones that each of these names. */
  datatype Table = Table(blocks: seq<nat>, ind2: seq<nat>, ind3: seq<nat>, ind3ind: seq<seq<nat>>)

  /** The block of the disk has this number, and names that one at entry i. */
  ghost predicate Names(disk: seq<Block>, b: nat, i: nat, v: nat) {
    b < |disk| && NumberAt(disk[b], i, v)
  }

  ghost predicate DirectNamed(ino: Inode, t: Table, c: nat)
    requires |ino.block| == N_BLOCKS
  {
    c < 12 && c < |t.blocks| ==> ino.block[c] == t.blocks[c]
  }

  ghost predicate IndNamed(disk: seq<Block>, ino: Inode, t: Table, d: nat)
    requires |ino.block| == N_BLOCKS
  {
    12 + d < |t.blocks| ==> Names(disk, ino.block[12], d, t.blocks[12 + d])
  }

  ghost predicate Ind2Named(n: nat, disk: seq<Block>, ino: Inode, t: Table, i: nat, d: nat)
    requires |ino.block| == N_BLOCKS
  {
    var c := 12 + n + i * n + d;
    0 <= c < |t.blocks| ==>
      i < |t.ind2| && Names(disk, ino.block[13], i, t.ind2[i]) && Names(disk, t.ind2[i], d, t.blocks[c])
  }

  ghost predicate Ind3Named(n: nat, disk: seq<Block>, ino: Inode, t: Table, k: nat, i: nat, d: nat)
    requires |ino.block| == N_BLOCKS
  {
    var c := 12 + n + n * n + k * (n * n) + i * n + d;
    0 <= c < |t.blocks| ==>
      && k < |t.ind3| && k < |t.ind3ind| && i < |t.ind3ind[k]|
      && Names(disk, ino.block[14], k, t.ind3[k])
      && Names(disk, t.ind3[k], i, t.ind3ind[k][i])
      && Names(disk, t.ind3ind[k][i], d, t.blocks[c])
  }

  /** The table lies on the disk: twelve numbers in the inode, one block of n numbers at i_block[12], blocks of n
      numbers named by the block at i_block[13], and one level more at i_block[14]. */
  ghost predicate LaidOut(n: Fanout, disk: seq<Block>, ino: Inode, t: Table) {
    && |ino.block| == N_BLOCKS
    && (forall c: nat :: DirectNamed(ino, t, c))
    && (forall d: nat :: d < n ==> IndNamed(disk, ino, t, d))
    && (forall i: nat, d: nat :: i < n && d < n ==> Ind2Named(n, disk, ino, t, i, d))
    && (forall k: nat, i: nat, d: nat :: i < n && d < n ==> Ind3Named(n, disk, ino, t, k, i, d))
  }

  /** The number that a pointer block names is the one that the code takes out of it. */
  lemma PointerRead(b: Block, i: nat, v: nat)
    requires NumberAt(b, i, v)
    ensures PtrAt(b, i) == v
  {
    var v1, v2, v3 := v / 256, v / 65536, v / 16777216;
    assert v == v1 * 256 + v % 256;
    assert v1 == v2 * 256 + v1 % 256;
    assert v2 == v3 * 256 + v2 % 256;
  }

  lemma NamedIs(disk: seq<Block>, b: nat, i: nat, v: nat)
    requires Names(disk, b, i, v)
    ensures b < |disk| && PtrAt(Fetch(disk, b), i) == v
  {
    hide NumberAt, PtrAt;
    PointerRead(disk[b], i, v);
  }

  /** The path of a file block leads to the block that the table names. */
  lemma SlotIsNamed(n: Fanout, disk: seq<Block>, ino: Inode, t: Table, c: nat)
    requires LaidOut(n, disk, ino, t) && c < |t.blocks|
    ensures Slot(disk, ino, PathOf(n, c)) == t.blocks[c] && WayOnDisk(disk, ino, PathOf(n, c))
  {
    hide PathOf, PtrAt, Fetch, Names, Square, Quot, Rem;
    PathOfInverts(n, c);
    PathKind(n, c);
    SquareIs(n);
    var p := PathOf(n, c);
    match p
    case Direct(_) =>
      assert DirectNamed(ino, t, c);
    case Ind(d) =>
      assert IndNamed(disk, ino, t, d);
      NamedIs(disk, ino.block[12], d, t.blocks[c]);
    case Ind2(i, d) =>
      assert Ind2Named(n, disk, ino, t, i, d);
      NamedIs(disk, ino.block[13], i, t.ind2[i]);
      NamedIs(disk, t.ind2[i], d, t.blocks[c]);
    case Ind3(k, i, d) =>
      assert Ind3Named(n, disk, ino, t, k, i, d);
      NamedIs(disk, ino.block[14], k, t.ind3[k]);
      NamedIs(disk, t.ind3[k], i, t.ind3ind[k][i]);
      NamedIs(disk, t.ind3ind[k][i], d, t.blocks[c]);
  }

  lemma SquareIs(n: nat)
    ensures Square(n) == n * n
  {
  }

  lemma PathKind(n: Fanout, c: nat)
    ensures PathOf(n, c).Direct? ==> PathOf(n, c).n == c && c < 12
    ensures PathOf(n, c).Ind2? ==> PathOf(n, c).ind < n
  {
    hide Quot, Rem, Square;
    Positive(n);
    if FirstInd2(n) <= c < FirstInd3(n) {
      Ind2InBlocks(n, c - FirstInd2(n));
    }
  }

  /** The first nb blocks of the table are blocks of the disk. */
  ghost predicate OnDisk(n: Fanout, disk: seq<Block>, t: Table, nb: nat) {
    nb <= |t.blocks| && forall c :: 0 <= c < nb ==> t.blocks[c] < |disk| && |disk[t.blocks[c]]| == 4 * n
  }

  /** Byte x of the file in the block that the table names for it. */
  function NamedByte(n: Fanout, disk: seq<Block>, t: Table, x: nat): Byte {
    var c, y := Quot(x, 4 * n), Rem(x, 4 * n);
    if c < |t.blocks| && t.blocks[c] < |disk| && y < |disk[t.blocks[c]]| then disk[t.blocks[c]][y] else 0
  }

  lemma ByteIsNamed(n: Fanout, disk: seq<Block>, ino: Inode, t: Table, x: nat)
    requires LaidOut(n, disk, ino, t) && OnDisk(n, disk, t, |t.blocks|) && Quot(x, 4 * n) < |t.blocks|
    ensures ByteAt(n, disk, ino, x) == NamedByte(n, disk, t, x)
  {
    hide LaidOut, Slot, PathOf, Quot, Rem;
    SlotIsNamed(n, disk, ino, t, Quot(x, 4 * n));
  }

  /** A stretch of the file, by the table. */
  lemma BytesAreNamed(n: Fanout, disk: seq<Block>, ino: Inode, t: Table, a: nat, b: nat)
    requires LaidOut(n, disk, ino, t) && OnDisk(n, disk, t, |t.blocks|)
    requires a <= b && (a < b ==> Quot(b - 1, 4 * n) < |t.blocks|)
    ensures Bytes(n, disk, ino, a, b) == NamedBytes(n, disk, t, a, b)
  {
    assert |ino.block| == N_BLOCKS;
    hide LaidOut, ByteAt, NamedByte, OnDisk, Quot;
    forall j | 0 <= j < b - a
      ensures Bytes(n, disk, ino, a, b)[j] == NamedBytes(n, disk, t, a, b)[j]
    {
      QuotGrows(a + j, b - 1, 4 * n);
      ByteIsNamed(n, disk, ino, t, a + j);
    }
  }

  function NamedBytes(n: Fanout, disk: seq<Block>, t: Table, a: nat, b: nat): (s: seq<Byte>)
    requires a <= b
    ensures |s| == b - a
  {
    seq<Byte>(b - a, j requires 0 <= j < b - a => NamedByte(n, disk, t, a + j))
  }

  lemma QuotGrows(x: nat, y: nat, m: nat)
    requires x <= y && m > 0
    ensures Quot(x, m) <= Quot(y, m)
  {
    hide Quot, Rem;
    QuotRem(x, m);
    QuotRem(y, m);
    if Quot(y, m) < Quot(x, m) {
      MulStep(Quot(y, m), Quot(x, m), m);
    }
  }

  // ---------------------------------------------------------------- blocks of their own

  /** Block b is one of the pointer blocks that the table needs. */
  ghost predicate IsPointerBlock(n: nat, ino: Inode, t: Table, b: nat)
    requires |ino.block| == N_BLOCKS
  {
    || (|t.blocks| > 12 && b == ino.block[12])
    || (|t.blocks| > 12 + n && (b == ino.block[13] || b in t.ind2))
    || (|t.blocks| > 12 + n + n * n && (b == ino.block[14] || b in t.ind3 || exists q <- t.ind3ind :: b in q))
  }

  /** No block serves two purposes. */
  ghost predicate Separate(n: nat, ino: Inode, t: Table)
    requires |ino.block| == N_BLOCKS
  {
    && (forall c, c' :: 0 <= c < c' < |t.blocks| ==> t.blocks[c] != t.blocks[c'])
    && (forall c :: 0 <= c < |t.blocks| ==> !IsPointerBlock(n, ino, t, t.blocks[c]))
  }

  lemma WayIsPointers(n: Fanout, disk: seq<Block>, ino: Inode, t: Table, c: nat)
    requires LaidOut(n, disk, ino, t) && c < |t.blocks|
    ensures forall b <- PtrBlocks(disk, ino, PathOf(n, c)) :: IsPointerBlock(n, ino, t, b)
  {
    hide PathOf, PtrAt, Fetch, Names, Square, Quot, Rem;
    PathOfInverts(n, c);
    PathKind(n, c);
    SquareIs(n);
    var p := PathOf(n, c);
    ProductsNotNegative(n, p);
    match p
    case Direct(_) =>
    case Ind(_) =>
    case Ind2(i, d) =>
      assert Ind2Named(n, disk, ino, t, i, d);
      NamedIs(disk, ino.block[13], i, t.ind2[i]);
    case Ind3(k, i, d) =>
      assert Ind3Named(n, disk, ino, t, k, i, d);
      NamedIs(disk, ino.block[14], k, t.ind3[k]);
      NamedIs(disk, t.ind3[k], i, t.ind3ind[k][i]);
      assert t.ind3ind[k] in t.ind3ind;
  }

  lemma ProductsNotNegative(n: nat, p: Path)
    ensures p.Ind2? ==> p.ind * n >= 0
    ensures p.Ind3? ==> p.ind * n >= 0 && p.ind2 * (n * n) >= 0
  {
    if p.Ind2? {
      ProductNotNegative(p.ind, n);
    } else if p.Ind3? {
      ProductNotNegative(p.ind, n);
      ProductNotNegative(n, n);
      ProductNotNegative(p.ind2, n * n);
    }
  }

  /** Then the blocks of the table are mapped as a transfer asks. */
  lemma TableIsMapped(n: Fanout, disk: seq<Block>, ino: Inode, t: Table)
    requires LaidOut(n, disk, ino, t) && OnDisk(n, disk, t, |t.blocks|) && Separate(n, ino, t)
    requires forall b <- disk :: |b| == 4 * n
    ensures Mapped(n, disk, ino, |t.blocks|)
  {
    assert |ino.block| == N_BLOCKS;
    hide LaidOut, Slot, PathOf, PtrBlocks, IsPointerBlock, WayOnDisk;
    forall c | 0 <= c < |t.blocks|
      ensures Reachable(n, disk, ino, c)
    {
      SlotIsNamed(n, disk, ino, t, c);
    }
    forall c, c' | 0 <= c < |t.blocks| && 0 <= c' < |t.blocks|
      ensures Apart(n, disk, ino, c, c')
    {
      SlotIsNamed(n, disk, ino, t, c);
      SlotIsNamed(n, disk, ino, t, c');
      WayIsPointers(n, disk, ino, t, c');
    }
  }

  // ---------------------------------------------------------------- the calls

  /** ext2_file_read of a file with this table. */
  method ReadByTable(fs: Ext2Fs, ino: Inode, offs: nat, count: nat, stray: nat -> nat, ghost t: Table)
    returns (r: IoResult, buf: seq<Byte>)
    requires fs.Valid() && LaidOut(fs.n, fs.disk, ino, t) && OnDisk(fs.n, fs.disk, t, |t.blocks|)
    requires Separate(fs.n, ino, t)
    requires offs < ino.size && offs + Min(count, ino.size - offs) < TWO32
    requires LastBlock(fs.n, offs, Min(count, ino.size - offs)) < |t.blocks|
    requires Steady(fs.tests, fs.n, offs, Min(count, ino.size - offs))
    modifies fs`disk
    ensures fs.disk == old(fs.disk)
    ensures var m := Min(count, ino.size - offs);
      r == Count(m) && buf == NamedBytes(fs.n, fs.disk, t, offs, offs + m)
  {
    assert |ino.block| == N_BLOCKS;
    hide LaidOut, OnDisk, Separate, LastBlock, Steady, Mapped, Bytes, NamedBytes, TripTells;
    TableIsMapped(fs.n, fs.disk, ino, t);
    ghost var m := Min(count, ino.size - offs);
    r, buf := fs.FileRead(ino, offs, count, stray, |t.blocks|);
    LastOfStretch(fs.n, offs, m);
    BytesAreNamed(fs.n, fs.disk, ino, t, offs, offs + m);
  }

  lemma LastOfStretch(n: Fanout, offs: nat, m: nat)
    ensures m > 0 ==> LastBlock(n, offs, m) == Quot(offs + m - 1, 4 * n)
  {
  }

  /** The disks differ in no pointer block of the table. */
  ghost predicate SamePointerBlocks(n: nat, disk: seq<Block>, disk': seq<Block>, ino: Inode, t: Table)
    requires |ino.block| == N_BLOCKS
  {
    |disk'| == |disk| && forall b :: 0 <= b < |disk| && IsPointerBlock(n, ino, t, b) ==> disk'[b] == disk[b]
  }

  lemma NamesKept(disk: seq<Block>, disk': seq<Block>, b: nat, i: nat, v: nat)
    requires |disk'| == |disk| && (b < |disk| ==> disk'[b] == disk[b]) && Names(disk, b, i, v)
    ensures Names(disk', b, i, v)
  {
  }

  lemma Ind2Kept(n: Fanout, disk: seq<Block>, disk': seq<Block>, ino: Inode, t: Table, i: nat, d: nat)
    requires |ino.block| == N_BLOCKS && SamePointerBlocks(n, disk, disk', ino, t) && Ind2Named(n, disk, ino, t, i, d)
    ensures Ind2Named(n, disk', ino, t, i, d)
  {
    hide Names;
    ProductNotNegative(i, n);
    var c := 12 + n + i * n + d;
    if c < |t.blocks| {
      NamesKept(disk, disk', ino.block[13], i, t.ind2[i]);
      NamesKept(disk, disk', t.ind2[i], d, t.blocks[c]);
    }
  }

  lemma Ind3Kept(n: Fanout, disk: seq<Block>, disk': seq<Block>, ino: Inode, t: Table, k: nat, i: nat, d: nat)
    requires |ino.block| == N_BLOCKS && SamePointerBlocks(n, disk, disk', ino, t) && Ind3Named(n, disk, ino, t, k, i, d)
    ensures Ind3Named(n, disk', ino, t, k, i, d)
  {
    hide Names;
    ProductsNotNegative(n, Ind3(k, i, d));
    var c := 12 + n + n * n + k * (n * n) + i * n + d;
    if 0 <= c < |t.blocks| {
      assert t.ind3ind[k] in t.ind3ind;
      NamesKept(disk, disk', ino.block[14], k, t.ind3[k]);
      NamesKept(disk, disk', t.ind3[k], i, t.ind3ind[k][i]);
      NamesKept(disk, disk', t.ind3ind[k][i], d, t.blocks[c]);
    }
  }

  lemma LaidOutKept(n: Fanout, disk: seq<Block>, disk': seq<Block>, ino: Inode, t: Table)
    requires LaidOut(n, disk, ino, t) && SamePointerBlocks(n, disk, disk', ino, t)
    ensures LaidOut(n, disk', ino, t)
  {
    hide SamePointerBlocks, Names, Ind2Named, Ind3Named, DirectNamed;
    forall d: nat | d < n
      ensures IndNamed(disk', ino, t, d)
    {
      assert IndNamed(disk, ino, t, d);
      IndKept(n, disk, disk', ino, t, d);
    }
    forall i: nat, d: nat | i < n && d < n
      ensures Ind2Named(n, disk', ino, t, i, d)
    {
      Ind2Kept(n, disk, disk', ino, t, i, d);
    }
    forall k: nat, i: nat, d: nat | i < n && d < n
      ensures Ind3Named(n, disk', ino, t, k, i, d)
    {
      Ind3Kept(n, disk, disk', ino, t, k, i, d);
    }
  }

  lemma IndKept(n: Fanout, disk: seq<Block>, disk': seq<Block>, ino: Inode, t: Table, d: nat)
    requires |ino.block| == N_BLOCKS && SamePointerBlocks(n, disk, disk', ino, t) && IndNamed(disk, ino, t, d)
    ensures IndNamed(disk', ino, t, d)
  {
    hide Names;
    if 12 + d < |t.blocks| {
      NamesKept(disk, disk', ino.block[12], d, t.blocks[12 + d]);
    }
  }

  /** The size of the inode does not matter for the table. */
  lemma SameTable(n: Fanout, disk: seq<Block>, ino: Inode, g: Inode, t: Table)
    requires LaidOut(n, disk, ino, t) && g.block == ino.block
    ensures LaidOut(n, disk, g, t) && (Separate(n, ino, t) ==> Separate(n, g, t))
  {
    assert g == ino.(size := g.size);
    forall c: nat ensures DirectNamed(g, t, c) { assert DirectNamed(ino, t, c); }
    forall d: nat | d < n ensures IndNamed(disk, g, t, d) { assert IndNamed(disk, ino, t, d); }
    forall i: nat, d: nat | i < n && d < n
      ensures Ind2Named(n, disk, g, t, i, d)
    {
      assert Ind2Named(n, disk, ino, t, i, d);
    }
    forall k: nat, i: nat, d: nat | i < n && d < n
      ensures Ind3Named(n, disk, g, t, k, i, d)
    {
      assert Ind3Named(n, disk, ino, t, k, i, d);
    }
  }

  /** What a write of `data` at offs leaves: the data in the blocks that the table names, the other bytes of the file as
      they were, and every other block of the disk as it was. */
  ghost predicate WrittenByTable(n: Fanout, disk: seq<Block>, disk': seq<Block>, t: Table, offs: nat, data: seq<Byte>) {
    && |disk'| == |disk|
    && (forall x: nat :: Quot(x, 4 * n) < |t.blocks| ==>
          NamedByte(n, disk', t, x) == if offs <= x < offs + |data| then data[x - offs] else NamedByte(n, disk, t, x))
    && (forall b :: 0 <= b < |disk| && b !in t.blocks ==> disk'[b] == disk[b])
  }

  lemma WriteLeaves(n: Fanout, disk: seq<Block>, disk': seq<Block>, g: Inode, t: Table, offs: nat, data: seq<Byte>)
    requires LaidOut(n, disk, g, t) && OnDisk(n, disk, t, |t.blocks|) && Separate(n, g, t)
    requires Holds(n, disk, disk', g, |t.blocks|, offs, data) && LastBlock(n, offs, |data|) < |t.blocks|
    requires OnlyBlocks(n, disk, disk', g, Quot(offs, 4 * n), LastBlock(n, offs, |data|) + 1)
    requires forall b <- disk' :: |b| == 4 * n
    ensures LaidOut(n, disk', g, t) && OnDisk(n, disk', t, |t.blocks|)
    ensures WrittenByTable(n, disk, disk', t, offs, data)
  {
    assert |g.block| == N_BLOCKS;
    OnlyNamed(n, disk, disk', g, t, offs, data);
    hide OnlyBlocks, Slot, PathOf, LastBlock;
    assert SamePointerBlocks(n, disk, disk', g, t) by {
      hide IsPointerBlock;
    }
    LaidOutKept(n, disk, disk', g, t);
    hide LaidOut, Separate, SamePointerBlocks;
    assert OnDisk(n, disk', t, |t.blocks|);
    forall x: nat | Quot(x, 4 * n) < |t.blocks|
      ensures NamedByte(n, disk', t, x)
              == if offs <= x < offs + |data| then data[x - offs] else NamedByte(n, disk, t, x)
    {
      hide OnDisk, Quot, NamedByte, ByteAt;
      ByteIsNamed(n, disk, g, t, x);
      ByteIsNamed(n, disk', g, t, x);
      assert ByteAt(n, disk', g, x) == if offs <= x < offs + |data| then data[x - offs] else ByteAt(n, disk, g, x);
    }
  }

  /** The data blocks that a write touches are blocks of the table. */
  lemma OnlyNamed(n: Fanout, disk: seq<Block>, disk': seq<Block>, g: Inode, t: Table, offs: nat, data: seq<Byte>)
    requires LaidOut(n, disk, g, t) && LastBlock(n, offs, |data|) < |t.blocks|
    requires OnlyBlocks(n, disk, disk', g, Quot(offs, 4 * n), LastBlock(n, offs, |data|) + 1)
    ensures forall b :: 0 <= b < |disk| && b !in t.blocks ==> disk'[b] == disk[b]
  {
    assert |g.block| == N_BLOCKS;
    hide LaidOut, Slot, PathOf, LastBlock, Quot;
    forall b | 0 <= b < |disk| && disk'[b] != disk[b]
      ensures b in t.blocks
    {
      assert IsDataBlock(n, disk, g, Quot(offs, 4 * n), LastBlock(n, offs, |data|) + 1, b);
      var c :| Quot(offs, 4 * n) <= c < LastBlock(n, offs, |data|) + 1 && Slot(disk, g, PathOf(n, c)) == b;
      SlotIsNamed(n, disk, g, t, c);
    }
  }

  /** ext2_file_write to a file with this table. */
  method WriteByTable(fs: Ext2Fs, ino: Inode, offs: nat, data: seq<Byte>, stray: nat -> nat, ghost t: Table)
    returns (r: IoResult, ino': Inode)
    requires fs.Valid() && LaidOut(fs.n, fs.disk, ino, t) && OnDisk(fs.n, fs.disk, t, |t.blocks|)
    requires Separate(fs.n, ino, t)
    requires offs + |data| < TWO32 && LastBlock(fs.n, offs, |data|) < |t.blocks|
    requires Steady(fs.tests, fs.n, offs, |data|)
    modifies fs`disk
    ensures r == Count(|data|) && ino' == Grown(ino, offs + |data|)
    ensures WrittenByTable(fs.n, old(fs.disk), fs.disk, t, offs, data) && LaidOut(fs.n, fs.disk, ino', t)
  {
    assert |ino.block| == N_BLOCKS;
    ghost var g, disk := Grown(ino, offs + |data|), fs.disk;
    SameTable(fs.n, fs.disk, ino, g, t);
    hide LaidOut, OnDisk, Separate, LastBlock, Steady, Mapped, Holds, OnlyBlocks, TripTells, WrittenByTable;
    TableIsMapped(fs.n, fs.disk, g, t);
    r, ino' := fs.FileWrite(ino, offs, data, stray, |t.blocks|);
    WriteLeaves(fs.n, disk, fs.disk, g, t, offs, data);
  }
}
