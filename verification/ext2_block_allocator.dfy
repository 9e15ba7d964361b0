/** The block allocator of virgoos/src/fs/ext2.c:564-671 with its one-entry write-back buffer of bitmap blocks, proved
    to behave like an allocator without a buffer. */
module Ext2BlockAllocator {
  import opened Common
  import opened Division
  import opened Ext2Bitmap

  type Bitmap = seq<bv8>

  /** 1 << j in a byte. */
  function Mask(j: nat): bv8
    requires j < 8
  {
    if j == 0 then 0x01 else if j == 1 then 0x02 else if j == 2 then 0x04 else if j == 3 then 0x08
    else if j == 4 then 0x10 else if j == 5 then 0x20 else if j == 6 then 0x40 else 0x80
  }

  predicate Bit(b: bv8, j: nat)
    requires j < 8
  {
    Mask(j) & b != 0
  }

  /** b |= 1 << j, or b &= ~(1 << j). */
  function Marked(b: bv8, j: nat, on: bool): bv8
    requires j < 8
  {
    if on then b | Mask(j) else b & !Mask(j)
  }

  lemma BitAfter(b: bv8, j: nat, on: bool, i: nat)
    requires j < 8 && i < 8
    ensures Bit(Marked(b, j, on), i) == if i == j then on else Bit(b, i)
  {
  }

  /** Block k of a group is bit k % 8 of byte k / 8, the lowest bit first. */
  lemma BlockIsBit(b: Bitmap, k: nat)
    requires k < 8 * |b|
    ensures Bits(b)[k] <==> b[k / 8] & ((1 as bv8) << (k % 8)) != 0
  {
    hide Bit;
    ShiftIsMask(k % 8);
    BitIs(b[k / 8], k % 8);
    assert Bits(b)[k] == Bit(b[k / 8], k % 8);
    hide Mask;
    AndSwaps(b[k / 8], Mask(k % 8));
  }

  lemma ShiftIsMask(j: nat)
    requires j < 8
    ensures (1 as bv8) << j == Mask(j)
  {
  }

  lemma AndSwaps(a: bv8, b: bv8)
    ensures a & b == b & a
  {
  }

  lemma BitIs(b: bv8, j: nat)
    requires j < 8
    ensures Bit(b, j) <==> Mask(j) & b != 0
  {
  }

  lemma ByteIsFull(b: bv8)
    ensures (forall j :: 0 <= j < 8 ==> Bit(b, j)) <==> b == 0xFF
  {
    if forall j :: 0 <= j < 8 ==> Bit(b, j) {
      assert Bit(b, 0) && Bit(b, 1) && Bit(b, 2) && Bit(b, 3) && Bit(b, 4) && Bit(b, 5) && Bit(b, 6) && Bit(b, 7);
    }
  }

  /** The bits of a block in the order in which the allocator counts them. */
  function Bits(b: Bitmap): (row: seq<bool>)
    ensures |row| == 8 * |b|
  {
    seq(8 * |b|, k requires 0 <= k < 8 * |b| => Bit(b[k / 8], k % 8))
  }

  lemma BitsAt(b: Bitmap, i: nat, j: nat)
    requires i < |b| && j < 8
    ensures Bits(b)[8 * i + j] == Bit(b[i], j)
  {
    hide Bit;
    assert (8 * i + j) / 8 == i && (8 * i + j) % 8 == j;
  }

  predicate SameBit(b: Bitmap, row: seq<bool>, i: nat, j: nat)
    requires i < |b| && j < 8
  {
    8 * i + j < |row| && Bits(b)[8 * i + j] == row[8 * i + j]
  }

  lemma RowsAgree(b: Bitmap, row: seq<bool>)
    requires |row| == 8 * |b| && forall i, j :: 0 <= i < |b| && 0 <= j < 8 ==> SameBit(b, row, i, j)
    ensures Bits(b) == row
  {
    hide Bits;
    forall k | 0 <= k < 8 * |b|
      ensures Bits(b)[k] == row[k]
    {
      assert SameBit(b, row, k / 8, k % 8);
    }
  }

  /** Setting or clearing a bit of a byte sets or clears that bit of the row. */
  lemma BitsAfter(b: Bitmap, i: nat, j: nat, on: bool)
    requires i < |b| && j < 8
    ensures Bits(b[i := Marked(b[i], j, on)]) == Bits(b)[8 * i + j := on]
  {
    hide Mask, Bit, Bits, Marked;
    var b' := b[i := Marked(b[i], j, on)];
    var row := Bits(b)[8 * i + j := on];
    forall i', j' | 0 <= i' < |b| && 0 <= j' < 8
      ensures SameBit(b', row, i', j')
    {
      BitAfter(b[i], j, on, j');
      BitsAt(b, i', j');
      BitsAt(b', i', j');
    }
    RowsAgree(b', row);
  }

  /** Where a scan stands. */
  predicate ScannedTo(row: seq<bool>, k: nat) {
    k <= |row| && forall j :: 0 <= j < k ==> row[j]
  }

  lemma ScanIsFirstClear(row: seq<bool>, k: nat)
    requires ScannedTo(row, k)
    ensures k == |row| || !row[k] ==> FirstClear(row, 0) == k
    ensures k == |row| && row != [] ==> Full(row)
  {
  }

  // ---------------------------------------------------------------- the view through the buffer

  /** last_blocks_bitmap in front of the disk; position 0 says that the buffer is empty. */
  datatype Store = Store(disk: seq<Bitmap>, buf: Bitmap, bufPos: nat)

  function Zeros(n: nat): Bitmap {
    seq(n, _ => 0 as bv8)
  }

  /** What a reader of block b gets to see through the buffer. */
  function View(s: Store, b: nat): Bitmap {
    if s.bufPos != 0 && b == s.bufPos then s.buf else if b < |s.disk| then s.disk[b] else []
  }

  function RowsOf(pos: seq<nat>, s: Store): (rows: Rows)
    ensures |rows| == |pos| && forall g :: 0 <= g < |pos| ==> rows[g] == Bits(View(s, pos[g]))
  {
    seq(|pos|, g requires 0 <= g < |pos| => Bits(View(s, pos[g])))
  }

  /** The groups have bitmap blocks of their own, none of them block 0. */
  ghost predicate Layout(pos: seq<nat>) {
    && (forall g :: 0 <= g < |pos| ==> pos[g] != 0)
    && (forall g, h :: 0 <= g < h < |pos| ==> pos[g] != pos[h])
  }

  ghost predicate Sized(s: Store, blockSize: nat) {
    |s.disk| > 0 && |s.buf| == blockSize && forall b :: 0 <= b < |s.disk| ==> |s.disk[b]| == blockSize
  }

  ghost predicate BufferSound(pos: seq<nat>, s: Store) {
    s.bufPos == 0 || (s.bufPos in pos && s.bufPos < |s.disk|)
  }

  /** The buffered bitmap written to its place. */
  function Flushed(s: Store): seq<Bitmap> {
    if s.bufPos < |s.disk| then s.disk[s.bufPos := s.buf] else s.disk
  }

  /** No block that is not a bitmap differs. */
  ghost predicate OnlyBitmaps(pos: seq<nat>, disk: seq<Bitmap>, disk': seq<Bitmap>) {
    |disk'| == |disk| && forall b :: 0 <= b < |disk| && b !in pos ==> disk'[b] == disk[b]
  }

  /** Flushing an occupied buffer, with or without filling it anew, is not seen. */
  lemma RefillUnseen(pos: seq<nat>, s: Store, p: nat, blockSize: nat)
    requires BufferSound(pos, s) && Sized(s, blockSize) && p in pos
    ensures var disk := if s.bufPos != 0 then Flushed(s) else s.disk;
      && OnlyBitmaps(pos, s.disk, disk)
      && Sized(Store(disk, s.buf, 0), blockSize)
      && RowsOf(pos, Store(disk, s.buf, 0)) == RowsOf(pos, s)
      && (p < |disk| ==>
            var t := Store(disk, disk[p], p); Sized(t, blockSize) && RowsOf(pos, t) == RowsOf(pos, s))
  {
    hide Bits;
  }

  lemma ByteStored(pos: seq<nat>, s: Store, g: nat, buf: Bitmap)
    requires Layout(pos) && g < |pos| && s.bufPos == pos[g]
    ensures RowsOf(pos, s.(buf := buf)) == RowsOf(pos, s)[g := Bits(buf)] && RowsOf(pos, s)[g] == Bits(s.buf)
  {
    hide Bits;
    forall h | 0 <= h < |pos|
      ensures RowsOf(pos, s.(buf := buf))[h] == RowsOf(pos, s)[g := Bits(buf)][h]
    {
      assert h != g ==> pos[h] != pos[g];
    }
  }

  class Allocator {
    const blockSize: nat
    const perGroup: nat
    /** bg_blocks_bitmap of each group. */
    const pos: seq<nat>
    var disk: seq<Bitmap>
    /** last_blocks_bitmap, last_blocks_bitmap_pos and s_free_blocks_count */
    var buf: Bitmap
    var bufPos: nat
    var free: nat

    ghost predicate Valid()
      reads this
    {
      && blockSize > 0 && 0 < perGroup <= 8 * blockSize && free < TWO32
      && Layout(pos) && Sized(Held(), blockSize) && BufferSound(pos, Held())
    }

    ghost function Held(): Store
      reads this
    {
      Store(disk, buf, bufPos)
    }

    ghost function Rows(): Rows
      reads this
    {
      RowsOf(pos, Held())
    }

    /** The allocator as it would be without the buffer. */
    ghost function Abstract(): State
      reads this
    {
      State(Rows(), free)
    }

    /** ext2_mount. */
    constructor (blockSize: nat, perGroup: nat, pos: seq<nat>, disk: seq<Bitmap>, free: nat)
      requires blockSize > 0 && 0 < perGroup <= 8 * blockSize && Layout(pos) && free < TWO32
      requires Sized(Store(disk, Zeros(blockSize), 0), blockSize)
      ensures Valid() && this.disk == disk && this.blockSize == blockSize && this.perGroup == perGroup
              && this.pos == pos
      ensures bufPos == 0 && buf == Zeros(blockSize) && this.free == free
    {
      this.blockSize, this.perGroup, this.pos, this.disk, this.free := blockSize, perGroup, pos, disk, free;
      buf, bufPos := Zeros(blockSize), 0;
    }

    /** ext2_refill_blocks_bitmap: makes the bitmap at p the buffered one, and no reader of a bitmap notices. */
    method Refill(p: nat) returns (ok: bool)
      requires Valid() && p in pos
      modifies this`disk, this`buf, this`bufPos
      ensures Valid() && (ok <==> p < |disk|) && (ok ==> bufPos == p)
      ensures Rows() == old(Rows()) && OnlyBitmaps(pos, old(disk), disk)
    {
      hide RowsOf, Sized, OnlyBitmaps;
      ghost var s := Held();
      RefillUnseen(pos, s, p, blockSize);
      SameDisk(pos, disk);
      if p != bufPos {
        if bufPos != 0 {
          disk := disk[bufPos := buf];
        }
        bufPos := 0;
        assert Held() == Store(if s.bufPos != 0 then Flushed(s) else s.disk, s.buf, 0);
        if p >= |disk| {
          return false;
        }
        buf := disk[p];
        bufPos := p;
        assert Held() == Store(if s.bufPos != 0 then Flushed(s) else s.disk, disk[p], p);
      }
      ok := true;
    }

    static lemma SameDisk(pos: seq<nat>, disk: seq<Bitmap>)
      ensures OnlyBitmaps(pos, disk, disk)
    {
    }

    /** The two inner loops of ext2_alloc_block. */
    method Scan() returns (found: bool, i: nat, j: nat)
      requires |buf| == blockSize
      ensures found ==> i < blockSize && j < 8 && FirstClear(Bits(buf), 0) == 8 * i + j < 8 * blockSize
      ensures !found ==> FirstClear(Bits(buf), 0) == 8 * blockSize
    {
      hide FirstClear, Bit, Bits, Mask;
      i, j := 0, 0;
      while i < blockSize
        invariant i <= blockSize && ScannedTo(Bits(buf), 8 * i)
      {
        ByteIsFull(buf[i]);
        if buf[i] != 0xFF {
          j := 0;
          while j < 8
            invariant j <= 8 && ScannedTo(Bits(buf), 8 * i + j)
            invariant forall h :: 0 <= h < j ==> Bit(buf[i], h)
          {
            ScanIsFirstClear(Bits(buf), 8 * i + j);
            BitsAt(buf, i, j);
            BitIs(buf[i], j);
            if Mask(j) & buf[i] == 0 {
              return true, i, j;
            }
            j := j + 1;
          }
        } else {
          ByteScanned(buf, i);
        }
        i := i + 1;
      }
      ScanIsFirstClear(Bits(buf), 8 * i);
      found, j := false, 0;
    }

    static lemma ByteScanned(b: Bitmap, i: nat)
      requires i < |b| && b[i] == 0xFF && ScannedTo(Bits(b), 8 * i)
      ensures ScannedTo(Bits(b), 8 * i + 8)
    {
      hide Bit, Bits;
      ByteIsFull(b[i]);
      forall k | 0 <= k < 8 * i + 8
        ensures Bits(b)[k]
      {
        if k >= 8 * i {
          BitsAt(b, i, k - 8 * i);
        }
      }
    }

    /** Rewriting a bit of the buffered bitmap rewrites it in the row of its group and nothing else. */
    method Put(g: nat, i: nat, j: nat, on: bool)
      requires Valid() && g < |pos| && bufPos == pos[g] && i < blockSize && j < 8
      modifies this`buf
      ensures Valid() && Inside(old(Rows()), At(g, 8 * i + j)) && Rows() == WithBit(old(Rows()), At(g, 8 * i + j), on)
    {
      hide Bits, Mask, RowsOf, Layout;
      var byte := Marked(buf[i], j, on);
      BitsAfter(buf, i, j, on);
      ByteStored(pos, Held(), g, buf[i := byte]);
      buf := buf[i := byte];
    }

    /** ext2_alloc_block: takes the lowest free block, as an allocator without a buffer would. */
    method AllocBlock() returns (b: nat)
      requires Valid()
      modifies this`disk, this`buf, this`bufPos, this`free
      ensures Valid() && Abstract() == Alloc(old(Abstract())) && OnlyBitmaps(pos, old(disk), disk)
      ensures var p := FirstFree(old(Rows()), 0); b == if p.At? then NumberOf(perGroup, p) else 0
      ensures forall p: Place :: p.At? && Lowest(old(Rows()), p) ==> b == p.group * perGroup + p.bit
      ensures (forall p: Place :: !Lowest(old(Rows()), p)) ==> b == 0
    {
      AllLowest(Rows());
      hide Lowest;
      hide Bits, RowsOf, FirstFree, Layout, Sized, OnlyBitmaps, WithBit;
      SameDisk(pos, disk);
      var group := 0;
      while group < |pos|
        invariant group <= |pos| && Valid() && Rows() == old(Rows()) && free == old(free)
        invariant FirstFree(Rows(), 0) == FirstFree(Rows(), group) && OnlyBitmaps(pos, old(disk), disk)
      {
        label Before:
        var ok := Refill(pos[group]);
        OnlyBitmapsAgain(pos, old(disk), old@Before(disk), disk);
        FirstFreeStep(Held(), pos, blockSize, group);
        if !ok {
          return 0;
        }
        var found, i, j := Scan();
        if found {
          Put(group, i, j, true);
          free := (free + (TWO32 - 1)) % TWO32;
          return group * perGroup + 8 * i + j;
        }
        group := group + 1;
      }
      FirstFreeEnds(Rows());
      return 0;
    }

    static lemma OnlyBitmapsAgain(pos: seq<nat>, disk: seq<Bitmap>, disk': seq<Bitmap>, disk'': seq<Bitmap>)
      requires OnlyBitmaps(pos, disk, disk') && OnlyBitmaps(pos, disk', disk'')
      ensures OnlyBitmaps(pos, disk, disk'')
    {
    }

    /** The step of the search at a group whose bitmap is buffered, or cannot be read. */
    static lemma FirstFreeStep(s: Store, pos: seq<nat>, blockSize: nat, g: nat)
      requires g < |pos| && blockSize > 0 && Sized(s, blockSize) && Layout(pos) && BufferSound(pos, s)
      ensures |s.buf| == blockSize
      ensures pos[g] >= |s.disk| ==> FirstFree(RowsOf(pos, s), g) == Nowhere
      ensures s.bufPos == pos[g] ==>
        var k := FirstClear(Bits(s.buf), 0);
        FirstFree(RowsOf(pos, s), g) == if k < 8 * blockSize then At(g, k) else FirstFree(RowsOf(pos, s), g + 1)
    {
      hide Bits;
    }

    static lemma AllLowest(rows: Rows)
      ensures forall p: Place :: p.At? ==> (FirstFree(rows, 0) == p <==> Lowest(rows, p))
    {
      forall p: Place | p.At?
        ensures FirstFree(rows, 0) == p <==> Lowest(rows, p)
      {
        FoundExactly(rows, p);
      }
    }

    static lemma FirstFreeEnds(rows: Rows)
      ensures FirstFree(rows, |rows|) == Nowhere
    {
    }

    /** ext2_free_block. */
    method FreeBlock(b: nat) returns (ok: bool)
      requires Valid() && Quot(b, perGroup) < |pos|
      modifies this`disk, this`buf, this`bufPos, this`free
      ensures Valid() && Abstract() == Free(old(Abstract()), PlaceOf(perGroup, b)) && OnlyBitmaps(pos, old(disk), disk)
      ensures ok <==> Inside(old(Rows()), PlaceOf(perGroup, b))
    {
      hide Bits, RowsOf, Layout, Sized, OnlyBitmaps, WithBit, Quot, Rem;
      var group, idx := Quot(b, perGroup), Rem(b, perGroup);
      ok := Refill(pos[group]);
      RowLength(Held(), pos, blockSize, group);
      if !ok {
        return;
      }
      assert 8 * (idx / 8) + idx % 8 == idx;
      Put(group, idx / 8, idx % 8, false);
      free := (free + 1) % TWO32;
    }

    static lemma RowLength(s: Store, pos: seq<nat>, blockSize: nat, g: nat)
      requires g < |pos| && Sized(s, blockSize) && BufferSound(pos, s)
      ensures |RowsOf(pos, s)[g]| == if pos[g] < |s.disk| then 8 * blockSize else 0
    {
      hide Bits;
    }

    /** The bitmap part of ext2_sync, as written: it does not ask whether the buffer is empty. */
    method Sync()
      requires Valid()
      modifies this`disk
      ensures Valid() && Abstract() == old(Abstract())
      ensures RowsOf(pos, Store(disk, buf, 0)) == Rows()
      ensures OnlyBitmaps(pos, old(disk), disk) <==> bufPos != 0 || old(disk)[0] == buf
      ensures bufPos == 0 ==> disk[0] == buf
    {
      hide Bits;
      disk := disk[bufPos := buf];
      assert RowsOf(pos, Held()) == old(RowsOf(pos, Held()));
    }
  }
}
