/** Directory records of virgoos/src/fs/ext2.c:1647-1821: how a block is tiled by records, and what creating, finding
    and deleting an entry does to them. */
module Ext2Dirents {
  type Name = seq<int>

  /** struct ext2_dir_entry_2; the name has name_len bytes, none of them 0. */
  datatype Rec = Rec(inode: nat, recLen: nat, fileType: nat, name: Name)

  /** offsetof(struct ext2_dir_entry_2, name) */
  const NAME_AT: nat := 8

  /** The space that a record with a name of n bytes needs, on a 4-byte boundary. */
  function Need(n: nat): (len: nat)
    ensures len % 4 == 0 && NAME_AT + n <= len < NAME_AT + n + 4
  {
    if (NAME_AT + n) % 4 != 0 then NAME_AT + n + (4 - (NAME_AT + n) % 4) else NAME_AT + n
  }

  type Block = seq<Rec>

  /** The offset at which the records of b end. */
  function Extent(b: Block): nat {
    if b == [] then 0 else Extent(b[..|b| - 1]) + b[|b| - 1].recLen
  }

  predicate Fits(r: Rec) {
    r.recLen % 4 == 0 && Need(|r.name|) <= r.recLen
  }

  /** Aligned records, each large enough for its name, fill the block. */
  predicate Tiled(b: Block, blockSize: nat) {
    b != [] && Extent(b) == blockSize && AllFit(b)
  }

  predicate AllFit(b: Block) {
    forall k :: 0 <= k < |b| ==> Fits(b[k])
  }

  lemma AllFitConcat(a: Block, b: Block)
    ensures AllFit(a + b) <==> AllFit(a) && AllFit(b)
  {
    if AllFit(a + b) {
      forall k | 0 <= k < |a|
        ensures Fits(a[k])
      {
        assert Fits((a + b)[k]);
      }
      forall k | 0 <= k < |b|
        ensures Fits(b[k])
      {
        var j := |a| + k;
        assert Fits((a + b)[j]);
      }
    }
  }

  type Dir = seq<Block>

  predicate AllTiled(d: Dir, blockSize: nat) {
    forall i :: 0 <= i < |d| ==> Tiled(d[i], blockSize)
  }

  lemma {:induction false} ExtentConcat(a: Block, b: Block)
    ensures Extent(a + b) == Extent(a) + Extent(b)
  {
    if b == [] {
      assert a + b == a;
    } else {
      assert (a + b)[..|a + b| - 1] == a + b[..|b| - 1];
      ExtentConcat(a, b[..|b| - 1]);
    }
  }

  // ---------------------------------------------------------------- names

  const DOT: Name := [46]
  const DOT_DOT: Name := [46, 46]

  /** memcmp over the length of the record's name only: the name asked for may go on. */
  predicate Matches(r: Rec, name: Name) {
    r.name <= name
  }

  /** The first record that the comparison accepts. */
  function FirstMatch(b: Block, name: Name): (k: nat)
    ensures k <= |b| && (k < |b| ==> Matches(b[k], name)) && forall j :: 0 <= j < k ==> !Matches(b[j], name)
  {
    if b == [] || Matches(b[0], name) then 0 else 1 + FirstMatch(b[1..], name)
  }

  datatype Spot = Nowhere | At(block: nat, rec: nat)

  /** Where ext2_dirent_read and ext2_dirent_delete find a name, from block i on. */
  function Lookup(d: Dir, name: Name, i: nat): Spot
    requires i <= |d|
    decreases |d| - i
  {
    if i == |d| then Nowhere
    else if FirstMatch(d[i], name) < |d[i]| then At(i, FirstMatch(d[i], name))
    else Lookup(d, name, i + 1)
  }

  predicate IsSpot(d: Dir, p: Spot) {
    p.At? && p.block < |d| && p.rec < |d[p.block]|
  }

  function RecAt(d: Dir, p: Spot): Rec
    requires IsSpot(d, p)
  {
    d[p.block][p.rec]
  }

  predicate Before(p: Spot, q: Spot)
    requires p.At? && q.At?
  {
    p.block < q.block || (p.block == q.block && p.rec < q.rec)
  }

  /** A spot with exactly this name. */
  predicate Named(d: Dir, p: Spot, name: Name) {
    IsSpot(d, p) && RecAt(d, p).name == name
  }

  lemma {:induction false} LookupIsFirst(d: Dir, name: Name, i: nat)
    requires i <= |d|
    ensures var p := Lookup(d, name, i);
      && (p.At? ==> IsSpot(d, p) && p.block >= i && Matches(RecAt(d, p), name))
      && (forall q: Spot :: IsSpot(d, q) && q.block >= i && Matches(RecAt(d, q), name) ==> p.At? && !Before(q, p))
    decreases |d| - i
  {
    if i < |d| && FirstMatch(d[i], name) == |d[i]| {
      LookupIsFirst(d, name, i + 1);
    }
  }

  /** No record before p has a name that the wanted one only begins with. */
  ghost predicate Unshadowed(d: Dir, name: Name, p: Spot)
    requires p.At?
  {
    forall q: Spot :: IsSpot(d, q) && Before(q, p) ==> !Matches(RecAt(d, q), name)
  }

  /** A name that stands in the directory once is found where it stands, if and only if no earlier record has a name
      that begins it. */
  lemma LookupExact(d: Dir, name: Name, p: Spot)
    requires Named(d, p, name)
    ensures Lookup(d, name, 0) == p <==> Unshadowed(d, name, p)
  {
    LookupIsFirst(d, name, 0);
    var f := Lookup(d, name, 0);
    assert Matches(RecAt(d, p), name);
    if Unshadowed(d, name, p) {
      assert !Before(f, p) && !Before(p, f);
    }
  }

  /** A name that does not stand in the directory is found nonetheless exactly if some record's name begins it. */
  lemma AbsentExact(d: Dir, name: Name)
    requires forall p: Spot :: !Named(d, p, name)
    ensures Lookup(d, name, 0) == Nowhere <==> forall q: Spot :: IsSpot(d, q) ==> !Matches(RecAt(d, q), name)
  {
    LookupIsFirst(d, name, 0);
  }

  /** A record whose name is empty, such as the blank one that a deletion leaves, answers to every name. */
  lemma BlankAnswersAll(d: Dir, name: Name, p: Spot, q: Spot)
    requires Named(d, p, name) && IsSpot(d, q) && RecAt(d, q).name == [] && Before(q, p)
    ensures Lookup(d, name, 0) != p
  {
    LookupExact(d, name, p);
    assert Matches(RecAt(d, q), name);
  }

  // ---------------------------------------------------------------- creating

  /** Record k has room behind its name for `need` more bytes. */
  predicate Roomy(r: Rec, need: nat) {
    Need(|r.name|) + need <= r.recLen
  }

  /** The condition under which ext2_dirent_create looks at the record after record k. */
  predicate GoesOn(b: Block, blockSize: nat, k: nat)
    requires k < |b|
  {
    Extent(b[..k + 1]) + b[k].recLen < blockSize
  }

  /** The scan of a block by ext2_dirent_create from record k on: after a record without room it goes on only if that
      record's length would fit once more. */
  function RoomFrom(b: Block, blockSize: nat, need: nat, k: nat): (r: nat)
    requires k < |b|
    ensures k <= r <= |b| && (r < |b| ==> Roomy(b[r], need))
    decreases |b| - k
  {
    if Roomy(b[k], need) then k
    else if k + 1 < |b| && GoesOn(b, blockSize, k) then RoomFrom(b, blockSize, need, k + 1)
    else |b|
  }

  /** The scan gets as far as record k. */
  predicate Examined(b: Block, blockSize: nat, k: nat)
    requires k < |b|
  {
    forall j :: 0 <= j < k ==> GoesOn(b, blockSize, j)
  }

  /** The block is used exactly if a record with room is among those that the scan examines. */
  lemma {:induction false} RoomExact(b: Block, blockSize: nat, need: nat, k: nat)
    requires k < |b| && Examined(b, blockSize, k) && forall j :: 0 <= j < k ==> !Roomy(b[j], need)
    ensures RoomFrom(b, blockSize, need, k) < |b|
            <==> exists j :: 0 <= j < |b| && Roomy(b[j], need) && Examined(b, blockSize, j)
    decreases |b| - k
  {
    hide Roomy, GoesOn;
    if !Roomy(b[k], need) {
      if k + 1 < |b| && GoesOn(b, blockSize, k) {
        RoomExact(b, blockSize, need, k + 1);
      } else {
        forall j | 0 <= j < |b| && Roomy(b[j], need)
          ensures !Examined(b, blockSize, j)
        {
          assert j > k;
        }
      }
    } else {
      assert Examined(b, blockSize, k);
    }
  }

  /** The loop condition keeps the scan inside a tiled block. */
  lemma ScanStaysInside(b: Block, blockSize: nat, k: nat)
    requires Tiled(b, blockSize) && k < |b| && Extent(b[..k + 1]) + b[k].recLen < blockSize
    ensures k + 1 < |b|
  {
    assert b[..|b|] == b;
  }

  /** Room that the scan misses: the last record of this block could take the name. */
  lemma MissedRoom()
    ensures var b := [Rec(5, 100, 1, seq(88, _ => 65)), Rec(6, 500, 1, seq(250, _ => 66)), Rec(7, 424, 1, [67])];
      Tiled(b, 1024) && Roomy(b[2], Need(250)) && RoomFrom(b, 1024, Need(250), 0) == |b|
  {
    var b := [Rec(5, 100, 1, seq(88, _ => 65)), Rec(6, 500, 1, seq(250, _ => 66)), Rec(7, 424, 1, [67])];
    assert b[..1] == [b[0]] && b[..2] == [b[0], b[1]] && b == [b[0], b[1]] + [b[2]];
    ExtentOfFew(b[0], b[0], b[1]);
    ExtentOfFew(b[2], b[0], b[1]);
    ExtentConcat([b[0], b[1]], [b[2]]);
    assert Extent(b[..1]) == 100 && Extent(b[..2]) == 600 && Extent(b) == 1024;
    assert !Roomy(b[0], Need(250)) && !Roomy(b[1], Need(250));
  }

  /** The new record behind record k. */
  function Split(b: Block, k: nat, inode: nat, fileType: nat, name: Name): Block
    requires k < |b| && Roomy(b[k], Need(|name|))
  {
    var taken := Need(|b[k].name|);
    b[..k] + [b[k].(recLen := taken), Rec(inode, b[k].recLen - taken, fileType, name)] + b[k + 1..]
  }

  /** The block that ext2_dirent_create uses, from block i on; |d| if it needs a new one. */
  function BlockWithRoom(d: Dir, blockSize: nat, need: nat, i: nat): (r: nat)
    requires i <= |d| && AllTiled(d, blockSize)
    ensures i <= r <= |d| && (r < |d| ==> RoomFrom(d[r], blockSize, need, 0) < |d[r]|)
    decreases |d| - i
  {
    if i == |d| || RoomFrom(d[i], blockSize, need, 0) < |d[i]| then i else BlockWithRoom(d, blockSize, need, i + 1)
  }

  /** Where the new record goes. */
  function Place(d: Dir, blockSize: nat, name: Name): Spot
    requires AllTiled(d, blockSize)
  {
    var i := BlockWithRoom(d, blockSize, Need(|name|), 0);
    if i == |d| then Nowhere else At(i, RoomFrom(d[i], blockSize, Need(|name|), 0) + 1)
  }

  function Created(d: Dir, blockSize: nat, inode: nat, fileType: nat, name: Name): Dir
    requires AllTiled(d, blockSize)
  {
    var p := Place(d, blockSize, name);
    if p.Nowhere? then d else d[p.block := Split(d[p.block], p.rec - 1, inode, fileType, name)]
  }

  /** Replacing neighbours by fitting records of the same extent keeps a block tiled. */
  lemma SwapTiled(a: Block, m: Block, m': Block, c: Block, blockSize: nat)
    requires Tiled(a + m + c, blockSize) && m' != [] && Extent(m') == Extent(m)
    requires AllFit(m')
    ensures Tiled(a + m' + c, blockSize)
  {
    hide AllFit, Extent;
    ExtentConcat(a + m, c);
    ExtentConcat(a, m);
    ExtentConcat(a + m', c);
    ExtentConcat(a, m');
    AllFitConcat(a + m, c);
    AllFitConcat(a, m);
    AllFitConcat(a + m', c);
    AllFitConcat(a, m');
  }

  lemma SplitTiled(b: Block, blockSize: nat, k: nat, inode: nat, fileType: nat, name: Name)
    requires Tiled(b, blockSize) && k < |b| && Roomy(b[k], Need(|name|))
    ensures Tiled(Split(b, k, inode, fileType, name), blockSize)
  {
    hide Need, Extent;
    assert Fits(b[k]);
    var taken := Need(|b[k].name|);
    var x, y := b[k].(recLen := taken), Rec(inode, b[k].recLen - taken, fileType, name);
    assert b == b[..k] + [b[k]] + b[k + 1..];
    ExtentOfFew(b[k], x, y);
    SwapTiled(b[..k], [b[k]], [x, y], b[k + 1..], blockSize);
  }

  lemma ExtentOfFew(r: Rec, s: Rec, t: Rec)
    ensures Extent([r]) == r.recLen && Extent([s, t]) == s.recLen + t.recLen
  {
    assert [s, t][..1] == [s];
  }

  // ---------------------------------------------------------------- deleting

  /** What ext2_dirent_delete makes of the block that holds record k. */
  function Removed(b: Block, blockSize: nat, k: nat): Block
    requires Tiled(b, blockSize) && k < |b|
  {
    if b[k].recLen == blockSize then b[k := Rec(0, blockSize, 0, [])]
    else if k == 0 then SingleFills(b, blockSize); [b[1].(recLen := b[0].recLen + b[1].recLen)] + b[2..]
    else b[..k - 1] + [b[k - 1].(recLen := b[k - 1].recLen + b[k].recLen)] + b[k + 1..]
  }

  /** The only record of a block is as long as the block. */
  lemma SingleFills(b: Block, blockSize: nat)
    requires Tiled(b, blockSize)
    ensures |b| == 1 ==> b[0].recLen == blockSize
  {
    ExtentOfFew(b[0], b[0], b[0]);
    assert |b| == 1 ==> b == [b[0]];
  }

  function Deleted(d: Dir, blockSize: nat, name: Name): Dir
    requires AllTiled(d, blockSize)
  {
    var p := Lookup(d, name, 0);
    LookupIsFirst(d, name, 0);
    if p.Nowhere? then d else d[p.block := Removed(d[p.block], blockSize, p.rec)]
  }

  lemma RemovedTiled(b: Block, blockSize: nat, k: nat)
    requires Tiled(b, blockSize) && k < |b|
    ensures Tiled(Removed(b, blockSize, k), blockSize)
  {
    hide Extent, Fits;
    if b[k].recLen == blockSize {
      WholeBlock(b, blockSize, k);
      assert b[k := Rec(0, blockSize, 0, [])] == [Rec(0, blockSize, 0, [])];
    } else if k == 0 {
      SingleFills(b, blockSize);
      assert b == [] + [b[0], b[1]] + b[2..];
      MergeTiled([], b[0], b[1], b[2..], b[1], blockSize);
      assert [] + [b[1].(recLen := b[0].recLen + b[1].recLen)] + b[2..] == Removed(b, blockSize, 0);
    } else {
      assert b == b[..k - 1] + [b[k - 1], b[k]] + b[k + 1..];
      MergeTiled(b[..k - 1], b[k - 1], b[k], b[k + 1..], b[k - 1], blockSize);
    }
  }

  /** Merging two neighbours into one record of their common length. */
  lemma MergeTiled(a: Block, x: Rec, y: Rec, c: Block, z: Rec, blockSize: nat)
    requires Tiled(a + [x, y] + c, blockSize) && (z == x || z == y)
    ensures Tiled(a + [z.(recLen := x.recLen + y.recLen)] + c, blockSize)
  {
    hide Extent, Need, Fits;
    var b, m := a + [x, y] + c, z.(recLen := x.recLen + y.recLen);
    assert b[|a|] == x && b[|a| + 1] == y;
    MergedFits(x, y, z);
    ExtentOfFew(m, x, y);
    SwapTiled(a, [x, y], [m], c, blockSize);
  }

  lemma MergedFits(x: Rec, y: Rec, z: Rec)
    requires Fits(x) && Fits(y) && (z == x || z == y)
    ensures Fits(z.(recLen := x.recLen + y.recLen))
  {
    hide Need;
    SumOfFours(x.recLen, y.recLen);
  }

  lemma SumOfFours(a: nat, b: nat)
    requires a % 4 == 0 && b % 4 == 0
    ensures (a + b) % 4 == 0
  {
  }

  /** A record as long as the block is its only one. */
  lemma WholeBlock(b: Block, blockSize: nat, k: nat)
    requires Tiled(b, blockSize) && k < |b| && b[k].recLen == blockSize
    ensures |b| == 1 && Tiled([Rec(0, blockSize, 0, [])], blockSize)
  {
    assert b == b[..k] + [b[k]] + b[k + 1..];
    ExtentConcat(b[..k] + [b[k]], b[k + 1..]);
    ExtentConcat(b[..k], [b[k]]);
    ExtentOfFew(b[k], b[k], b[k]);
    ExtentPositive(b[..k]);
    ExtentPositive(b[k + 1..]);
    ExtentOfFew(Rec(0, blockSize, 0, []), b[k], b[k]);
    assert Fits(b[k]);
  }

  lemma ExtentPositive(b: Block)
    requires forall k :: 0 <= k < |b| ==> Fits(b[k])
    ensures b != [] ==> Extent(b) > 0
  {
    assert b != [] ==> Fits(b[|b| - 1]);
  }

  // ---------------------------------------------------------------- what the directory says

  /** A name with its inode. */
  type Link = (Name, nat)

  function LinkOf(r: Rec): seq<Link> {
    if r.inode != 0 then [(r.name, r.inode)] else []
  }

  /** The entries of a block that are in use, in order. */
  function Links(b: Block): seq<Link> {
    if b == [] then [] else Links(b[..|b| - 1]) + LinkOf(b[|b| - 1])
  }

  function AllLinks(d: Dir): seq<Link> {
    if d == [] then [] else AllLinks(d[..|d| - 1]) + Links(d[|d| - 1])
  }

  lemma {:induction false} LinksConcat(a: Block, b: Block)
    ensures Links(a + b) == Links(a) + Links(b)
  {
    if b == [] {
      assert a + b == a;
    } else {
      assert (a + b)[..|a + b| - 1] == a + b[..|b| - 1];
      LinksConcat(a, b[..|b| - 1]);
    }
  }

  lemma LinksOfFew(r: Rec, s: Rec)
    ensures Links([r]) == LinkOf(r) && Links([r, s]) == LinkOf(r) + LinkOf(s)
  {
    assert [r, s][..1] == [r];
  }

  /** Links around a stretch of a block. */
  lemma LinksAround(a: Block, m: Block, c: Block)
    ensures Links(a + m + c) == Links(a) + Links(m) + Links(c)
  {
    LinksConcat(a + m, c);
    LinksConcat(a, m);
  }

  lemma SplitLinks(b: Block, k: nat, inode: nat, fileType: nat, name: Name)
    requires k < |b| && Roomy(b[k], Need(|name|)) && inode != 0
    ensures Links(Split(b, k, inode, fileType, name)) == Links(b[..k + 1]) + [(name, inode)] + Links(b[k + 1..])
    ensures Links(b) == Links(b[..k + 1]) + Links(b[k + 1..])
  {
    hide Links, Need;
    LinksOfStretch(b, k, b[k].(recLen := Need(|b[k].name|)),
                   Rec(inode, b[k].recLen - Need(|b[k].name|), fileType, name));
  }

  lemma LinksOfStretch(b: Block, k: nat, x: Rec, y: Rec)
    requires k < |b| && x.name == b[k].name && x.inode == b[k].inode && y.inode != 0
    ensures Links(b[..k] + [x, y] + b[k + 1..]) == Links(b[..k + 1]) + [(y.name, y.inode)] + Links(b[k + 1..])
    ensures Links(b) == Links(b[..k + 1]) + Links(b[k + 1..])
  {
    hide Links, LinkOf;
    LinksAround(b[..k], [x, y], b[k + 1..]);
    LinksOfFew(x, y);
    SameLink(b[k], x, y);
    LinksCut(b, k);
    Regroup(Links(b[..k]), LinkOf(x), LinkOf(y), Links(b[k + 1..]));
  }

  lemma Regroup(a: seq<Link>, b: seq<Link>, c: seq<Link>, d: seq<Link>)
    ensures a + (b + c) + d == (a + b) + c + d
  {
  }

  lemma CutAfter(b: Block, k: nat)
    requires k < |b|
    ensures b[..k] + [b[k]] == b[..k + 1] && b[..k + 1] + b[k + 1..] == b
  {
  }

  lemma LinksCut(b: Block, k: nat)
    requires k < |b|
    ensures Links(b[..k + 1]) == Links(b[..k]) + LinkOf(b[k])
    ensures Links(b) == Links(b[..k + 1]) + Links(b[k + 1..])
  {
    hide *;
    CutAfter(b, k);
    LinksOfFew(b[k], b[k]);
    LinksConcat(b[..k], [b[k]]);
    LinksConcat(b[..k + 1], b[k + 1..]);
  }

  lemma SameLink(r: Rec, x: Rec, y: Rec)
    requires x.name == r.name && x.inode == r.inode && y.inode != 0
    ensures LinkOf(x) == LinkOf(r) && LinkOf(y) == [(y.name, y.inode)]
  {
  }

  lemma RemovedLinks(b: Block, blockSize: nat, k: nat)
    requires Tiled(b, blockSize) && k < |b|
    ensures Links(Removed(b, blockSize, k)) == Links(b[..k]) + Links(b[k + 1..])
    ensures Links(b) == Links(b[..k]) + LinkOf(b[k]) + Links(b[k + 1..])
  {
    hide Links, Extent, Fits, LinkOf;
    assert b == b[..k] + [b[k]] + b[k + 1..];
    LinksAround(b[..k], [b[k]], b[k + 1..]);
    LinksOfFew(b[k], b[k]);
    if b[k].recLen == blockSize {
      WholeBlock(b, blockSize, k);
      BlankLinks(b, blockSize);
    } else if k == 0 {
      SingleFills(b, blockSize);
      HeadLinks(b);
    } else {
      MergedLinks(b, k);
    }
  }

  lemma BlankLinks(b: Block, blockSize: nat)
    requires |b| == 1
    ensures Links(b[0 := Rec(0, blockSize, 0, [])]) == [] == Links(b[..0]) + Links(b[1..])
  {
    var blank := Rec(0, blockSize, 0, []);
    assert b[0 := blank] == [blank];
    LinksOfFew(blank, blank);
  }

  lemma HeadLinks(b: Block)
    requires |b| > 1
    ensures Links([b[1].(recLen := b[0].recLen + b[1].recLen)] + b[2..]) == Links(b[..0]) + Links(b[1..])
  {
    var z := b[1].(recLen := b[0].recLen + b[1].recLen);
    assert b[1..] == [b[1]] + b[2..];
    LinksConcat([b[1]], b[2..]);
    LinksConcat([z], b[2..]);
    LinksOfFew(z, z);
    LinksOfFew(b[1], z);
    hide Links;
    assert Links(b[..0]) == [] by {
      LinksOfNone();
    }
  }

  lemma LinksOfNone()
    ensures Links([]) == []
  {
  }

  lemma MergedLinks(b: Block, k: nat)
    requires 0 < k < |b|
    ensures Links(b[..k - 1] + [b[k - 1].(recLen := b[k - 1].recLen + b[k].recLen)] + b[k + 1..])
            == Links(b[..k]) + Links(b[k + 1..])
  {
    hide Links;
    var z := b[k - 1].(recLen := b[k - 1].recLen + b[k].recLen);
    LinksAround(b[..k - 1], [z], b[k + 1..]);
    LinksOfFew(z, z);
    LinksOfFew(b[k - 1], z);
    assert b[..k] == b[..k - 1] + [b[k - 1]];
    LinksConcat(b[..k - 1], [b[k - 1]]);
  }

  lemma {:induction false} AllLinksConcat(d: Dir, e: Dir)
    ensures AllLinks(d + e) == AllLinks(d) + AllLinks(e)
  {
    hide Links;
    if e == [] {
      assert d + e == d;
    } else {
      assert (d + e)[..|d + e| - 1] == d + e[..|e| - 1];
      AllLinksConcat(d, e[..|e| - 1]);
    }
  }

  /** All links of a directory, around one block. */
  lemma AllLinksAround(d: Dir, i: nat, b: Block)
    requires i < |d|
    ensures AllLinks(d[i := b]) == AllLinks(d[..i]) + Links(b) + AllLinks(d[i + 1..])
  {
    hide AllLinks, Links;
    assert d[i := b] == d[..i] + [b] + d[i + 1..];
    AllLinksConcat(d[..i] + [b], d[i + 1..]);
    AllLinksConcat(d[..i], [b]);
    LinksOfOne(b);
  }

  lemma LinksOfOne(b: Block)
    ensures AllLinks([b]) == Links(b)
  {
    hide Links;
  }

  /** A block that lacks the links m of the one it replaces. */
  lemma LinksDropped(d: Dir, i: nat, b: Block, a: seq<Link>, m: seq<Link>, c: seq<Link>)
    requires i < |d| && Links(d[i]) == a + m + c && Links(b) == a + c
    ensures multiset(AllLinks(d)) == multiset(AllLinks(d[i := b])) + multiset(m)
  {
    AllLinksAround(d, i, b);
    AllLinksAround(d, i, d[i]);
    assert d[i := d[i]] == d;
    hide *;
  }

  // ---------------------------------------------------------------- main results

  /** Creating an entry keeps the directory tiled and adds exactly this one link. */
  lemma CreatedKeeps(d: Dir, blockSize: nat, inode: nat, fileType: nat, name: Name)
    requires AllTiled(d, blockSize) && inode != 0 && Place(d, blockSize, name).At?
    ensures AllTiled(Created(d, blockSize, inode, fileType, name), blockSize)
    ensures multiset(AllLinks(Created(d, blockSize, inode, fileType, name)))
            == multiset(AllLinks(d)) + multiset{(name, inode)}
    ensures var p := Place(d, blockSize, name);
      IsSpot(Created(d, blockSize, inode, fileType, name), p)
      && RecAt(Created(d, blockSize, inode, fileType, name), p).name == name
      && RecAt(Created(d, blockSize, inode, fileType, name), p).inode == inode
  {
    hide Links, AllLinks, Extent, Need;
    var p := Place(d, blockSize, name);
    var b, k, c := d[p.block], p.rec - 1, Created(d, blockSize, inode, fileType, name);
    SplitTiled(b, blockSize, k, inode, fileType, name);
    SplitLinks(b, k, inode, fileType, name);
    LinksDropped(c, p.block, b, Links(b[..k + 1]), [(name, inode)], Links(b[k + 1..]));
    assert c[p.block := b] == d;
  }

  /** Deleting an entry keeps the directory tiled and takes away exactly the link of the record found, if that is in
      use. */
  lemma DeletedKeeps(d: Dir, blockSize: nat, name: Name)
    requires AllTiled(d, blockSize) && Lookup(d, name, 0).At?
    ensures AllTiled(Deleted(d, blockSize, name), blockSize)
    ensures IsSpot(d, Lookup(d, name, 0))
    ensures multiset(AllLinks(d))
            == multiset(AllLinks(Deleted(d, blockSize, name))) + multiset(LinkOf(RecAt(d, Lookup(d, name, 0))))
  {
    hide Links, AllLinks, Extent, Fits, Need, Tiled;
    LookupIsFirst(d, name, 0);
    var p := Lookup(d, name, 0);
    var b := d[p.block];
    RemovedTiled(b, blockSize, p.rec);
    RemovedLinks(b, blockSize, p.rec);
    hide Lookup, Removed, LinkOf;
    LinksDropped(d, p.block, Removed(b, blockSize, p.rec), Links(b[..p.rec]), LinkOf(b[p.rec]), Links(b[p.rec + 1..]));
  }

  lemma RemovedUndoesSplit(b: Block, blockSize: nat, k: nat, inode: nat, fileType: nat, name: Name)
    requires Tiled(b, blockSize) && k < |b| && Roomy(b[k], Need(|name|))
    ensures Tiled(Split(b, k, inode, fileType, name), blockSize)
    ensures Removed(Split(b, k, inode, fileType, name), blockSize, k + 1) == b
  {
    hide Extent, Need;
    SplitTiled(b, blockSize, k, inode, fileType, name);
    var s := Split(b, k, inode, fileType, name);
    assert s[k + 1].recLen != blockSize by {
      if s[k + 1].recLen == blockSize {
        WholeBlock(s, blockSize, k + 1);
      }
    }
    assert s[..k] == b[..k] && s[k + 2..] == b[k + 1..];
  }

  /** Creating an entry of a new name and deleting it again restores every record exactly if no record before the new
      one has a name that begins the new name. */
  lemma DeleteUndoesCreate(d: Dir, blockSize: nat, inode: nat, fileType: nat, name: Name)
    requires AllTiled(d, blockSize) && inode != 0 && Place(d, blockSize, name).At?
    requires forall p: Spot :: !Named(d, p, name)
    ensures var c := Created(d, blockSize, inode, fileType, name);
      && AllTiled(c, blockSize)
      && (Deleted(c, blockSize, name) == d <==> Unshadowed(c, name, Place(d, blockSize, name)))
  {
    hide Links, AllLinks, Extent, Fits, Need, Tiled, Split, Removed;
    var p := Place(d, blockSize, name);
    var c := Created(d, blockSize, inode, fileType, name);
    CreatedKeeps(d, blockSize, inode, fileType, name);
    NoLinkWithoutName(d, (name, inode));
    LookupExact(c, name, p);
    RemovedUndoesSplit(d[p.block], blockSize, p.rec - 1, inode, fileType, name);
    if Lookup(c, name, 0) == p {
      assert c[p.block := d[p.block]] == d;
    } else {
      LookupIsFirst(c, name, 0);
      DeletedKeeps(c, blockSize, name);
      var was := OldName(d, blockSize, inode, fileType, name, Lookup(c, name, 0));
      assert !Named(d, was, name);
      OtherStays(c, blockSize, d, inode, name, p);
    }
  }

  /** Every other record of the directory that got a new entry has a name that stood there before. */
  lemma OldName(d: Dir, blockSize: nat, inode: nat, fileType: nat, name: Name, q: Spot) returns (was: Spot)
    requires AllTiled(d, blockSize) && Place(d, blockSize, name).At?
    requires IsSpot(Created(d, blockSize, inode, fileType, name), q) && q != Place(d, blockSize, name)
    ensures Named(d, was, RecAt(Created(d, blockSize, inode, fileType, name), q).name)
  {
    hide Tiled, Need;
    var p := Place(d, blockSize, name);
    var b, s := d[p.block], Split(d[p.block], p.rec - 1, inode, fileType, name);
    was := if q.block == p.block && q.rec > p.rec then At(q.block, q.rec - 1) else q;
    assert q.block == p.block ==> RecAt(Created(d, blockSize, inode, fileType, name), q) == s[q.rec];
    assert q.block == p.block && q.rec > p.rec ==> s[q.rec] == b[q.rec - 1];
  }

  lemma {:induction false} LinkInBlock(b: Block, l: Link) returns (k: nat)
    requires l in Links(b)
    ensures k < |b| && b[k].name == l.0
  {
    var n := |b| - 1;
    if l in Links(b[..n]) {
      k := LinkInBlock(b[..n], l);
    } else {
      k := n;
    }
  }

  lemma {:induction false} LinkInDir(d: Dir, l: Link) returns (p: Spot)
    requires l in AllLinks(d)
    ensures Named(d, p, l.0)
  {
    var n := |d| - 1;
    if l in AllLinks(d[..n]) {
      p := LinkInDir(d[..n], l);
    } else {
      var k := LinkInBlock(d[n], l);
      p := At(n, k);
    }
  }

  lemma NoLinkWithoutName(d: Dir, l: Link)
    ensures (forall p: Spot :: !Named(d, p, l.0)) ==> l !in AllLinks(d)
  {
    if l in AllLinks(d) {
      var p := LinkInDir(d, l);
    }
  }

  lemma OtherStays(c: Dir, blockSize: nat, d: Dir, inode: nat, name: Name, p: Spot)
    requires AllTiled(c, blockSize) && Lookup(c, name, 0).At? && IsSpot(c, Lookup(c, name, 0))
    requires (name, inode) !in AllLinks(d)
    requires multiset(AllLinks(c)) == multiset(AllLinks(d)) + multiset{(name, inode)}
    requires multiset(AllLinks(c))
             == multiset(AllLinks(Deleted(c, blockSize, name))) + multiset(LinkOf(RecAt(c, Lookup(c, name, 0))))
    requires RecAt(c, Lookup(c, name, 0)).name != name
    ensures Deleted(c, blockSize, name) != d
  {
    hide Deleted, AllLinks, Lookup;
    assert multiset(AllLinks(c))[(name, inode)] == 1;
    assert multiset(LinkOf(RecAt(c, Lookup(c, name, 0))))[(name, inode)] == 0;
  }

  // ---------------------------------------------------------------- record by record

  /** The two records say the same of their file. */
  predicate SameEntry(r: Rec, s: Rec) {
    r.inode == s.inode && r.fileType == s.fileType && r.name == s.name
  }

  /** Where a record stands after one has been put in at p. */
  function Behind(q: Spot, p: Spot): Spot
    requires q.At? && p.At?
  {
    if q.block == p.block && q.rec >= p.rec then At(q.block, q.rec + 1) else q
  }

  /** The record at q of d says the same at q' of c, with the same length unless it stands at `next`. */
  ghost predicate KeptAs(d: Dir, c: Dir, q: Spot, q': Spot, next: Spot)
    requires IsSpot(d, q)
  {
    IsSpot(c, q') && SameEntry(RecAt(c, q'), RecAt(d, q)) && (q != next ==> RecAt(c, q') == RecAt(d, q))
  }

  /** The record before the new one keeps just the room that its name needs. */
  lemma SplitLeavesNeed(b: Block, k: nat, inode: nat, fileType: nat, name: Name)
    requires k < |b| && Roomy(b[k], Need(|name|))
    ensures var c := Split(b, k, inode, fileType, name); k < |c| && c[k].recLen == Need(|c[k].name|)
  {
    hide Need;
  }

  /** A created record has the inode, the type and the name that were asked for.  Every other record keeps what it says,
      and its length, but for the one before the new one, which shares its length with it. */
  lemma CreatedRecords(d: Dir, blockSize: nat, inode: nat, fileType: nat, name: Name)
    requires AllTiled(d, blockSize) && Place(d, blockSize, name).At?
    ensures var p, c := Place(d, blockSize, name), Created(d, blockSize, inode, fileType, name);
      && IsSpot(c, p) && p.rec > 0 && |c| == |d| && |c[p.block]| == |d[p.block]| + 1
      && (forall i :: 0 <= i < |d| && i != p.block ==> |c[i]| == |d[i]|)
      && SameEntry(RecAt(c, p), Rec(inode, 0, fileType, name))
      && RecAt(c, p).recLen >= Need(|name|)
      && c[p.block][p.rec - 1].recLen == Need(|RecAt(c, At(p.block, p.rec - 1)).name|)
      && c[p.block][p.rec - 1].recLen + RecAt(c, p).recLen == d[p.block][p.rec - 1].recLen
      && (forall q: Spot :: IsSpot(d, q) ==> KeptAs(d, c, q, Behind(q, p), At(p.block, p.rec - 1)))
  {
    hide Tiled, Need;
    var p := Place(d, blockSize, name);
    SplitRecords(d[p.block], p.rec - 1, inode, fileType, name);
    SplitLeavesNeed(d[p.block], p.rec - 1, inode, fileType, name);
    assert Created(d, blockSize, inode, fileType, name)
           == d[p.block := Split(d[p.block], p.rec - 1, inode, fileType, name)];
    hide Place, Split, KeptAs, Created;
    forall q: Spot | IsSpot(d, q)
      ensures KeptAs(d, Created(d, blockSize, inode, fileType, name), q, Behind(q, p), At(p.block, p.rec - 1))
    {
      CreatedKeepsRecord(d, p.block, p.rec - 1, inode, fileType, name, q);
    }
  }

  lemma CreatedKeepsRecord(d: Dir, i: nat, k: nat, inode: nat, fileType: nat, name: Name, q: Spot)
    requires i < |d| && k < |d[i]| && Roomy(d[i][k], Need(|name|)) && IsSpot(d, q)
    ensures KeptAs(d, d[i := Split(d[i], k, inode, fileType, name)], q, Behind(q, At(i, k + 1)), At(i, k))
  {
    SplitRecords(d[i], k, inode, fileType, name);
    hide Split, Need;
  }

  lemma SplitRecords(b: Block, k: nat, inode: nat, fileType: nat, name: Name)
    requires k < |b| && Roomy(b[k], Need(|name|))
    ensures var s := Split(b, k, inode, fileType, name);
      && |s| == |b| + 1 && SameEntry(s[k + 1], Rec(inode, 0, fileType, name)) && s[k + 1].recLen >= Need(|name|)
      && SameEntry(s[k], b[k]) && s[k].recLen + s[k + 1].recLen == b[k].recLen
      && (forall j :: 0 <= j < k ==> s[j] == b[j]) && (forall j :: k < j < |b| ==> s[j + 1] == b[j])
  {
    hide Need;
  }

  /** Where a record of another place stands after the one at p has been taken out. */
  function Without(q: Spot, p: Spot): Spot
    requires q.At? && p.At?
  {
    if q.block == p.block && q.rec > p.rec then At(q.block, q.rec - 1) else q
  }

  /** A deletion leaves what every record but the one found says.  A record that fills its block is left blank, for no
      file; otherwise its neighbour, the one before it if there is one, takes over its length. */
  lemma DeletedRecords(d: Dir, blockSize: nat, name: Name)
    requires AllTiled(d, blockSize) && Lookup(d, name, 0).At?
    ensures var p, r := Lookup(d, name, 0), Deleted(d, blockSize, name);
      && IsSpot(d, p) && |r| == |d|
      && (RecAt(d, p).recLen == blockSize ==> r[p.block] == [Rec(0, blockSize, 0, [])])
      && (RecAt(d, p).recLen != blockSize ==>
            && |r[p.block]| == |d[p.block]| - 1
            && var k := if p.rec == 0 then 0 else p.rec - 1;
            k < |r[p.block]| && r[p.block][k].recLen == d[p.block][k].recLen + d[p.block][k + 1].recLen)
      && (forall q: Spot :: IsSpot(d, q) && q != p ==> KeptAs(d, r, q, Without(q, p), Neighbour(p)))
  {
    LookupIsFirst(d, name, 0);
    var p := Lookup(d, name, 0);
    RemovedRecords(d[p.block], blockSize, p.rec);
    assert Deleted(d, blockSize, name) == d[p.block := Removed(d[p.block], blockSize, p.rec)];
    hide Removed, Lookup, Tiled, KeptAs, Deleted;
    forall q: Spot | IsSpot(d, q) && q != p
      ensures KeptAs(d, Deleted(d, blockSize, name), q, Without(q, p), Neighbour(p))
    {
      DeletedKeepsRecord(d, blockSize, p, q);
    }
  }

  /** The record that takes over the length of the one at p. */
  function Neighbour(p: Spot): Spot
    requires p.At?
  {
    At(p.block, if p.rec == 0 then 1 else p.rec - 1)
  }

  lemma DeletedKeepsRecord(d: Dir, blockSize: nat, p: Spot, q: Spot)
    requires IsSpot(d, p) && IsSpot(d, q) && q != p && Tiled(d[p.block], blockSize)
    ensures KeptAs(d, d[p.block := Removed(d[p.block], blockSize, p.rec)], q, Without(q, p), Neighbour(p))
  {
    if q.block == p.block {
      RemovedKeeps(d[p.block], blockSize, p.rec, q.rec);
    }
    hide Removed, Tiled, SameEntry;
    SameEntryAsItself(RecAt(d, q));
  }

  lemma SameEntryAsItself(r: Rec)
    ensures SameEntry(r, r)
  {
  }

  lemma RemovedKeeps(b: Block, blockSize: nat, k: nat, j: nat)
    requires Tiled(b, blockSize) && k < |b| && j < |b| && j != k
    ensures var s := Removed(b, blockSize, k); var j' := if j > k then j - 1 else j;
      && j' < |s| && SameEntry(s[j'], b[j])
      && (j != (if k == 0 then 1 else k - 1) ==> s[j'] == b[j])
  {
    RemovedRecords(b, blockSize, k);
    hide Removed, Tiled, SameEntry;
  }

  lemma RemovedRecords(b: Block, blockSize: nat, k: nat)
    requires Tiled(b, blockSize) && k < |b|
    ensures var s := Removed(b, blockSize, k); var n := if k == 0 then 0 else k - 1;
      && (b[k].recLen == blockSize ==> |b| == 1 && s == [Rec(0, blockSize, 0, [])])
      && (b[k].recLen != blockSize ==>
            && |s| == |b| - 1 && n < |s| && s[n].recLen == b[n].recLen + b[n + 1].recLen
            && (forall j :: 0 <= j < k ==> SameEntry(s[j], b[j]) && (j != n ==> s[j] == b[j]))
            && (forall j :: k < j < |b| ==> SameEntry(s[j - 1], b[j]) && (k > 0 || j != 1 ==> s[j - 1] == b[j])))
  {
    if b[k].recLen == blockSize {
      WholeBlock(b, blockSize, k);
    } else {
      SingleFills(b, blockSize);
      hide Tiled;
      if k == 0 {
        HeadMerged(b, b[1].(recLen := b[0].recLen + b[1].recLen));
      } else {
        MiddleMerged(b, k, b[k - 1].(recLen := b[k - 1].recLen + b[k].recLen));
      }
    }
  }

  lemma HeadMerged(b: Block, m: Rec)
    requires |b| > 1 && SameEntry(m, b[1])
    ensures var s := [m] + b[2..];
      && |s| == |b| - 1 && s[0] == m
      && (forall j :: 0 < j < |b| ==> SameEntry(s[j - 1], b[j]) && (j != 1 ==> s[j - 1] == b[j]))
  {
  }

  lemma MiddleMerged(b: Block, k: nat, m: Rec)
    requires 0 < k < |b| && SameEntry(m, b[k - 1])
    ensures var s := b[..k - 1] + [m] + b[k + 1..];
      && |s| == |b| - 1 && s[k - 1] == m
      && (forall j :: 0 <= j < k ==> SameEntry(s[j], b[j]) && (j != k - 1 ==> s[j] == b[j]))
      && (forall j :: k < j < |b| ==> s[j - 1] == b[j])
  {
  }

  /** The new record goes behind the first record with room among those that the scans of the blocks examine, in the
      first block that has such a one; only if none has, a new block is needed. */
  lemma {:induction false} BlockExact(d: Dir, blockSize: nat, need: nat, i: nat)
    requires i <= |d| && AllTiled(d, blockSize)
    ensures var r := BlockWithRoom(d, blockSize, need, i);
      && (forall j :: i <= j < r ==> !HasRoom(d[j], blockSize, need))
      && (r < |d| ==> HasRoom(d[r], blockSize, need))
    decreases |d| - i
  {
    hide RoomFrom, Tiled, HasRoom, Examined;
    if i < |d| {
      NotEmpty(d[i], blockSize);
      RoomIsFound(d[i], blockSize, need);
      if RoomFrom(d[i], blockSize, need, 0) == |d[i]| {
        BlockExact(d, blockSize, need, i + 1);
      }
    }
  }

  /** A record with room is among those that the scan examines. */
  ghost predicate HasRoom(b: Block, blockSize: nat, need: nat) {
    exists k :: 0 <= k < |b| && Roomy(b[k], need) && Examined(b, blockSize, k)
  }

  lemma RoomIsFound(b: Block, blockSize: nat, need: nat)
    requires Tiled(b, blockSize)
    ensures RoomFrom(b, blockSize, need, 0) < |b| <==> HasRoom(b, blockSize, need)
  {
    NotEmpty(b, blockSize);
    hide Extent, RoomFrom, Roomy, GoesOn, Tiled;
    assert Examined(b, blockSize, 0);
    RoomExact(b, blockSize, need, 0);
  }

  lemma {:induction false} RoomIsFirst(b: Block, blockSize: nat, need: nat, k: nat)
    requires k < |b| && RoomFrom(b, blockSize, need, k) < |b| && Examined(b, blockSize, k)
    ensures var r := RoomFrom(b, blockSize, need, k);
      Examined(b, blockSize, r) && forall j :: k <= j < r ==> !Roomy(b[j], need)
    decreases |b| - k
  {
    hide GoesOn, Roomy;
    if !Roomy(b[k], need) {
      RoomIsFirst(b, blockSize, need, k + 1);
    }
  }

  lemma PlaceExact(d: Dir, blockSize: nat, name: Name)
    requires AllTiled(d, blockSize)
    ensures var p, need := Place(d, blockSize, name), Need(|name|);
      && (p.Nowhere? <==> forall i :: 0 <= i < |d| ==> !HasRoom(d[i], blockSize, need))
      && (p.At? ==>
            && p.block < |d| && 0 < p.rec <= |d[p.block]| && Roomy(d[p.block][p.rec - 1], need)
            && (forall i :: 0 <= i < p.block ==> !HasRoom(d[i], blockSize, need))
            && Examined(d[p.block], blockSize, p.rec - 1)
            && forall j :: 0 <= j < p.rec - 1 ==> !Roomy(d[p.block][j], need))
  {
    var need := Need(|name|);
    hide RoomFrom, Tiled, HasRoom, Need, Roomy;
    BlockExact(d, blockSize, need, 0);
    var i := BlockWithRoom(d, blockSize, need, 0);
    if i < |d| {
      NotEmpty(d[i], blockSize);
      assert Examined(d[i], blockSize, 0);
      RoomIsFirst(d[i], blockSize, need, 0);
    }
  }

  lemma NotEmpty(b: Block, blockSize: nat)
    requires Tiled(b, blockSize)
    ensures |b| > 0
  {
  }

  // ---------------------------------------------------------------- inputs that show it

  /** The single block of a new directory. */
  function NewDir(blockSize: nat, self: nat, parent: nat): Dir
    requires blockSize >= 12
  {
    [[Rec(self, 12, 2, DOT), Rec(parent, blockSize - 12, 2, DOT_DOT)]]
  }

  lemma NewDirTiled(blockSize: nat, self: nat, parent: nat)
    requires blockSize % 4 == 0 && blockSize >= 24
    ensures AllTiled(NewDir(blockSize, self, parent), blockSize)
    ensures Extent(NewDir(blockSize, self, parent)[0][..1]) == 12
  {
    var b := NewDir(blockSize, self, parent)[0];
    assert b[..1] == [b[0]];
    ExtentOfFew(b[0], b[0], b[1]);
  }

  /** In a new directory, the entry "." answers to every name that begins with a dot, ".." among them. */
  lemma DotAnswersDotNames(blockSize: nat, self: nat, parent: nat, name: Name)
    requires blockSize % 4 == 0 && blockSize >= 24 && DOT < name
    ensures var d := NewDir(blockSize, self, parent);
      AllTiled(d, blockSize) && Lookup(d, name, 0) == At(0, 0) && RecAt(d, At(0, 0)).name != name
    ensures Named(NewDir(blockSize, self, parent), At(0, 1), DOT_DOT)
  {
    NewDirTiled(blockSize, self, parent);
  }

  /** Creating ".a" there and deleting it again takes away "." and leaves ".a". */
  lemma DotNameNotUndone(inode: nat)
    requires inode != 0
    ensures var d := NewDir(1024, 2, 2); var name := DOT + [97];
      && AllTiled(d, 1024) && Place(d, 1024, name) == At(0, 2)
      && AllTiled(Created(d, 1024, inode, 1, name), 1024)
      && var r := Deleted(Created(d, 1024, inode, 1, name), 1024, name);
      r != d && |r[0]| == 2 && r[0][0].name == DOT_DOT && r[0][1].name == name
  {
    var d, name := NewDir(1024, 2, 2), DOT + [97];
    NewDirTiled(1024, 2, 2);
    var b := d[0];
    assert !Roomy(b[0], Need(2)) && GoesOn(b, 1024, 0) && Roomy(b[1], Need(2));
    assert RoomFrom(b, 1024, Need(2), 0) == 1;
    var c := Created(d, 1024, inode, 1, name);
    assert c[0][0] == b[0] && IsSpot(c, At(0, 0)) && Matches(c[0][0], name);
    assert Before(At(0, 0), At(0, 2));
    assert DOT_DOT[1] != name[1];
    DeleteUndoesCreate(d, 1024, inode, 1, name);
  }
}
