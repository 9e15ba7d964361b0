/** ext2_dirent_create, ext2_dirent_read and ext2_dirent_delete of virgoos/src/fs/ext2.c:1647-1821 on the blocks of a
    directory. */
module Ext2Directory {
  import opened Ext2Dirents

  datatype Outcome = Ok | NoRoom | Einval | Enoent

  class Directory {
    const blockSize: nat
    var blocks: Dir

    ghost predicate Valid()
      reads this
    {
      AllTiled(blocks, blockSize)
    }

    /** The scan of one block for room: the record to split, or none. */
    method FindRoom(b: Block, need: nat) returns (found: bool, k: nat)
      requires Tiled(b, blockSize)
      ensures found <==> RoomFrom(b, blockSize, need, 0) < |b|
      ensures found ==> k == RoomFrom(b, blockSize, need, 0)
    {
      hide Tiled, Roomy, Extent;
      TiledHasRecords(b, blockSize);
      ExtentStart(b);
      var offs := 0;
      k := 0;
      while true
        invariant k < |b| && offs == Extent(b[..k])
        invariant RoomFrom(b, blockSize, need, 0) == RoomFrom(b, blockSize, need, k)
        decreases |b| - k
      {
        var taken := |b[k].name| + NAME_AT;
        if taken % 4 != 0 {
          taken := taken + (4 - taken % 4);
        }
        RoomyIs(b[k], need);
        if taken + need <= b[k].recLen {
          return true, k;
        }
        ExtentStep(b, k);
        offs := offs + b[k].recLen;
        if offs + b[k].recLen < blockSize {
          ScanStaysInside(b, blockSize, k);
          k := k + 1;
        } else {
          return false, k;
        }
      }
    }

    static lemma TiledHasRecords(b: Block, blockSize: nat)
      requires Tiled(b, blockSize)
      ensures b != []
    {
    }

    static lemma RoomyIs(r: Rec, need: nat)
      ensures Roomy(r, need) <==> Need(|r.name|) + need <= r.recLen
    {
    }

    static lemma ExtentStep(b: Block, k: nat)
      requires k < |b|
      ensures Extent(b[..k + 1]) == Extent(b[..k]) + b[k].recLen
    {
      assert b[..k + 1][..k] == b[..k];
    }

    /** ext2_dirent_create up to the allocation of a new block. */
    method Create(name: Name, inode: nat, fileType: nat) returns (r: Outcome)
      requires Valid() && |name| < 256
      modifies this
      ensures Valid()
      ensures r == (if Place(old(blocks), blockSize, name).At? then Ok else NoRoom)
      ensures blocks == Created(old(blocks), blockSize, inode, fileType, name)
    {
      hide Tiled, Extent, RoomFrom, Roomy;
      var need := Need(|name|);
      var i := 0;
      while i < |blocks|
        invariant i <= |blocks| && blocks == old(blocks)
        invariant BlockWithRoom(blocks, blockSize, need, 0) == BlockWithRoom(blocks, blockSize, need, i)
      {
        var b := blocks[i];
        var found, k := FindRoom(b, need);
        if found {
          RoomyIs(b[k], need);
          SplitTiled(b, blockSize, k, inode, fileType, name);
          blocks := blocks[i := Split(b, k, inode, fileType, name)];
          return Ok;
        }
        i := i + 1;
      }
      return NoRoom;
    }

    /** The walk of ext2_dirent_read and ext2_dirent_delete through a block. */
    method FindInBlock(b: Block, name: Name) returns (k: nat)
      requires Tiled(b, blockSize)
      ensures k == FirstMatch(b, name)
    {
      hide Extent, Matches;
      var offs := 0;
      k := 0;
      ExtentStart(b);
      while offs < blockSize
        invariant k <= |b| && offs == Extent(b[..k]) && forall j :: 0 <= j < k ==> !Matches(b[j], name)
        decreases |b| - k
      {
        ExtentEnds(b, k);
        MatchesIs(b[k], name);
        if |b[k].name| <= |name| && name[..|b[k].name|] == b[k].name {
          FirstMatchIs(b, name, k);
          return;
        }
        ExtentStep(b, k);
        offs := offs + b[k].recLen;
        k := k + 1;
      }
      ExtentReached(b, blockSize, k);
      FirstMatchIs(b, name, k);
    }

    static lemma MatchesIs(r: Rec, name: Name)
      ensures Matches(r, name) <==> |r.name| <= |name| && name[..|r.name|] == r.name
    {
    }

    static lemma FirstMatchIs(b: Block, name: Name, k: nat)
      requires k <= |b| && (k < |b| ==> Matches(b[k], name)) && forall j :: 0 <= j < k ==> !Matches(b[j], name)
      ensures FirstMatch(b, name) == k
    {
      hide Matches;
    }

    static lemma ExtentStart(b: Block)
      ensures Extent(b[..0]) == 0
    {
    }

    static lemma ExtentEnds(b: Block, k: nat)
      requires k <= |b| && Extent(b[..k]) < Extent(b)
      ensures k < |b|
    {
      assert b[..|b|] == b;
    }

    static lemma FitsBehind(b: Block, k: nat)
      requires k <= |b| && forall j :: 0 <= j < |b| ==> Fits(b[j])
      ensures forall j :: 0 <= j < |b[k..]| ==> Fits(b[k..][j])
    {
      hide Fits;
    }

    /** Only the whole of a tiled block extends over it. */
    static lemma ExtentReached(b: Block, blockSize: nat, k: nat)
      requires Tiled(b, blockSize) && k <= |b| && Extent(b[..k]) >= blockSize
      ensures k == |b|
    {
      FitsBehind(b, k);
      ExtentPositive(b[k..]);
      ExtentConcat(b[..k], b[k..]);
      assert b == b[..k] + b[k..];
    }

    /** ext2_dirent_read: hands out the first record that answers to the name. */
    method Read(name: Name) returns (r: Outcome, rec: Rec)
      requires Valid()
      ensures var p := Lookup(blocks, name, 0);
        r == (if p.At? then Ok else Enoent) && (p.At? ==> IsSpot(blocks, p) && rec == RecAt(blocks, p))
    {
      hide Tiled, FirstMatch;
      rec := Rec(0, 0, 0, []);
      var i := 0;
      while i < |blocks|
        invariant i <= |blocks| && Lookup(blocks, name, 0) == Lookup(blocks, name, i)
      {
        var k := FindInBlock(blocks[i], name);
        if k < |blocks[i]| {
          return Ok, blocks[i][k];
        }
        i := i + 1;
      }
      return Enoent, rec;
    }

    /** ext2_dirent_delete. */
    method Delete(name: Name) returns (r: Outcome)
      requires Valid()
      modifies this
      ensures Valid()
      ensures name == DOT || name == DOT_DOT ==> r == Einval && blocks == old(blocks)
      ensures name != DOT && name != DOT_DOT ==>
        && r == (if Lookup(old(blocks), name, 0).At? then Ok else Enoent)
        && blocks == Deleted(old(blocks), blockSize, name)
    {
      hide Tiled, FirstMatch, Removed;
      if name == DOT || name == DOT_DOT {
        return Einval;
      }
      LookupIsFirst(blocks, name, 0);
      var i := 0;
      while i < |blocks|
        invariant i <= |blocks| && blocks == old(blocks) && Lookup(blocks, name, 0) == Lookup(blocks, name, i)
      {
        var k := FindInBlock(blocks[i], name);
        if k < |blocks[i]| {
          var b := Remove(blocks[i], k);
          blocks := blocks[i := b];
          return Ok;
        }
        i := i + 1;
      }
      return Enoent;
    }

    /** Taking record k out of a block. */
    method Remove(b: Block, k: nat) returns (b': Block)
      requires Tiled(b, blockSize) && k < |b|
      ensures b' == Removed(b, blockSize, k) && Tiled(b', blockSize)
    {
      hide Extent, Fits;
      RemovedTiled(b, blockSize, k);
      SingleFills(b, blockSize);
      if b[k].recLen == blockSize {
        b' := b[k := Rec(0, b[k].recLen, 0, [])];
      } else if k == 0 {
        var len := b[0].recLen + b[1].recLen;
        b' := [b[1].(recLen := len)] + b[2..];
      } else {
        var len := b[k - 1].recLen + b[k].recLen;
        b' := b[k - 1 := b[k - 1].(recLen := len)];
        b' := b'[..k] + b'[k + 1..];
        assert b' == b[..k - 1] + [b[k - 1].(recLen := len)] + b[k + 1..];
      }
    }
  }
}
