/** Writes of virgoos/src/fs/ext2.c:1086-1357 whose stray cursor can be followed, so that Ext2InodeIo says that they
    do not do what they should: those far from the end of the mapped blocks, and one that makes its file grow. */
module Ext2Stray {
  import opened Common
  import opened Division
  import opened Ext2Mapping
  import opened Ext2File
  import opened Ext2Transfer

  // ---------------------------------------------------------------- mapped blocks ahead

  /** Nothing behind the buffers is the number of a block of the disk. */
  ghost predicate Outside(stray: nat -> nat, size: nat) {
    forall i: nat :: stray(i) >= size
  }

  /** From the trip on, the cursor stands a little ahead until it fails. */
  ghost predicate AheadFrom(n: Fanout, c0: nat, c1: nat, c: nat) {
    c0 < c1 && forall k :: c1 <= k < c ==> AheadAt(n, c0, c1, k)
  }

  ghost predicate AheadAt(n: Fanout, c0: nat, c1: nat, k: nat) {
    c0 < c1 <= k && exists s :: Ahead(n, k, s, Cursor(Absolute, n, c0, k)) && (k == c1 ==> s > 0)
  }

  /** The step from there: still ahead, or behind a pointer block. */
  lemma AheadStep(n: Fanout, c0: nat, c1: nat, c: nat)
    requires c0 < c1 <= c && Trips(n, c1) && Smooth(n, c0, c1 - 1) && AheadFrom(n, c0, c1, c)
    ensures InBlocks(n, Cursor(Absolute, n, c0, c)) ==> AheadAt(n, c0, c1, c)
  {
    hide PathOf, Advance, InBlocks, Ahead, Quot, Rem, Square;
    var p := Cursor(Absolute, n, c0, c - 1);
    var s: nat;
    if c == c1 {
      CursorExact(n, c0, c1 - 1);
      assert p == PathOf(n, c - 1);
      RightIsAhead(n, c);
      s := 0;
    } else {
      assert AheadAt(n, c0, c1, c - 1);
      s :| Ahead(n, c - 1, s, p) && (c - 1 == c1 ==> s > 0);
    }
    var s' := AheadStaysAhead(n, c, s, p);
    assert Cursor(Absolute, n, c0, c) == Advance(Absolute, n, p, c);
  }

  /** The block at which the cursor leaves the pointer blocks, or the last one. */
  lemma {:induction false} FirstBehind(n: Fanout, c0: nat, c1: nat, c: nat, last: nat) returns (stop: nat)
    requires c0 < c1 <= c <= last && Trips(n, c1) && Smooth(n, c0, c1 - 1) && AheadFrom(n, c0, c1, c)
    ensures c <= stop <= last && AheadFrom(n, c0, c1, stop)
    ensures InBlocks(n, Cursor(Absolute, n, c0, stop)) ==> stop == last && AheadAt(n, c0, c1, stop)
    decreases last - c
  {
    hide InBlocks, AheadAt, Trips, Smooth, Cursor;
    AheadStep(n, c0, c1, c);
    if InBlocks(n, Cursor(Absolute, n, c0, c)) && c < last {
      stop := FirstBehind(n, c0, c1, c + 1, last);
    } else {
      stop := c;
    }
  }

  /** Paths of blocks in reach have all indices inside their blocks. */
  lemma ReachedWithin(n: Fanout, e: nat)
    requires e < 0x100_0000 + n + NDIR_BLOCKS
    ensures Within(n, PathOf(n, e))
  {
    hide PathOf, Square, Quot, Rem;
    PathOfInverts(n, e);
    CubeLarge(n);
    if e >= FirstInd3(n) {
      OutermostInBlock(n, e);
    } else {
      NotInd3(n, e);
    }
  }

  /** The mapped block at which the cursor stands at file block c. */
  ghost predicate StandsAt(n: Fanout, c0: nat, c1: nat, nb: nat, c: nat, e: nat) {
    c0 <= c && e < nb && Cursor(Absolute, n, c0, c) == PathOf(n, e) && Within(n, PathOf(n, e)) && (c >= c1 ==> e != c1)
  }

  lemma Stands(n: Fanout, c0: nat, c1: nat, nb: nat, last: nat, stop: nat, c: nat) returns (e: nat)
    requires FirstTrip(n, c0, last, c1) && last + n + NDIR_BLOCKS < nb && last * (4 * n) < TWO32
    requires c0 <= c <= last && AheadFrom(n, c0, c1, stop) && (c < stop || c < c1 || AheadAt(n, c0, c1, c))
    ensures StandsAt(n, c0, c1, nb, c, e)
  {
    hide PathOf, Within, Trips, Quot, Rem, Square;
    MulLess(last, n);
    if c < c1 {
      e := c;
      CursorExact(n, c0, c1 - 1);
    } else {
      assert AheadAt(n, c0, c1, c);
      var s :| Ahead(n, c, s, Cursor(Absolute, n, c0, c)) && (c == c1 ==> s > 0);
      e := c + s;
    }
    ReachedWithin(n, e);
  }

  lemma StandsVisited(n: Fanout, disk: seq<Block>, ino: Inode, stray: nat -> nat, c0: nat, c1: nat, nb: nat, c: nat,
                      e: nat)
    requires Mapped(n, disk, ino, nb) && StandsAt(n, c0, c1, nb, c, e)
    ensures Visited(n, disk, ino, stray, c0, c) == Slot(disk, ino, PathOf(n, e)) < |disk|
    ensures WayAt(n, disk, ino, stray, c0, c) == PtrBlocks(disk, ino, PathOf(n, e))
  {
    hide PathOf, Within, Target, Slot, Way, PtrBlocks, Cursor, Follows;
    WithinFollows(n, disk, ino, PathOf(n, e), Levels([], [], []), stray);
    assert Reachable(n, disk, ino, e);
  }

  /** Where the cursor goes behind a pointer block, the write fails; the pointer blocks further out are those of the
      block before. */
  lemma BehindFails(n: Fanout, disk: seq<Block>, ino: Inode, stray: nat -> nat, c0: nat, c: nat)
    requires |ino.block| == N_BLOCKS && Outside(stray, |disk|) && c0 < c && c > FirstInd2(n)
    requires var p := Cursor(Absolute, n, c0, c - 1); (p.Ind2? || p.Ind3?) && Within(n, p)
    requires !InBlocks(n, Cursor(Absolute, n, c0, c))
    ensures FailsAt(n, disk, ino, stray, c0, c)
    ensures forall b <- WayAt(n, disk, ino, stray, c0, c) :: b in WayAt(n, disk, ino, stray, c0, c - 1) || b >= |disk|
  {
    hide PtrAt, Fetch, Quot, Rem, Square;
    Positive(n);
    var p, p' := Cursor(Absolute, n, c0, c - 1), Cursor(Absolute, n, c0, c);
    assert p' == Advance(Absolute, n, p, c);
    var way := Way(n, disk, ino, p', stray);
    var was := Way(n, disk, ino, p, stray);
    match p' {
      case Ind2(i, d) =>
        assert i == n || d == n;
        assert way[0] == was[0] && (i < n ==> way[1] == was[1]);
      case Ind3(k, i, d) =>
        assert i == n || d == n;
        assert way[0] == was[0] && way[1] == was[1] && (i < n ==> way[2] == was[2]);
    }
  }

  /** With enough mapped blocks behind the transfer, and no block number behind the buffers, the cursor never comes
      back. */
  lemma MappedAheadNeverBack(n: Fanout, disk: seq<Block>, ino: Inode, nb: nat, stray: nat -> nat, c0: nat, c1: nat,
                             last: nat)
    returns (stop: nat)
    requires |ino.block| == N_BLOCKS && Mapped(n, disk, ino, nb) && Outside(stray, |disk|)
    requires FirstTrip(n, c0, last, c1) && last + n + NDIR_BLOCKS < nb && last * (4 * n) < TWO32
    ensures NeverBack(n, disk, ino, stray, c0, c1, stop, last)
  {
    hide PathOf, Slot, PtrBlocks, Visited, WayAt, ReadsAt, FailsAt, Within, Cursor, InBlocks, AheadAt, Quot, Rem;
    hide Square;
    stop := FirstBehind(n, c0, c1, c1, last);
    var inside := InBlocks(n, Cursor(Absolute, n, c0, stop));
    var before := Stands(n, c0, c1, nb, last, stop, stop - 1);
    StandsVisited(n, disk, ino, stray, c0, c1, nb, stop - 1, before);
    if !inside {
      HighPath(n, c0, c1, stop, before);
      BehindFails(n, disk, ino, stray, c0, stop);
    }
    forall c | c1 <= c <= stop && !FailsAt(n, disk, ino, stray, c0, c)
      ensures Visited(n, disk, ino, stray, c0, c) != Slot(disk, ino, PathOf(n, c1))
    {
      var e := Stands(n, c0, c1, nb, last, stop, c);
      StandsVisited(n, disk, ino, stray, c0, c1, nb, c, e);
      assert Apart(n, disk, ino, e, c1);
    }
    forall c, c' | c0 <= c < c' <= stop && c1 <= c' && ReadsAt(n, c0, c')
      ensures Visited(n, disk, ino, stray, c0, c) !in WayAt(n, disk, ino, stray, c0, c')
    {
      var e := Stands(n, c0, c1, nb, last, stop, c);
      StandsVisited(n, disk, ino, stray, c0, c1, nb, c, e);
      if c' < stop || inside {
        var e' := Stands(n, c0, c1, nb, last, stop, c');
        StandsVisited(n, disk, ino, stray, c0, c1, nb, c', e');
        assert Apart(n, disk, ino, e, e');
      } else {
        assert Apart(n, disk, ino, e, before);
      }
    }
  }

  lemma HighPath(n: Fanout, c0: nat, c1: nat, c: nat, e: nat)
    requires c0 < c1 <= c && Trips(n, c1) && Smooth(n, c0, c1 - 1) && AheadFrom(n, c0, c1, c)
    ensures c > FirstInd2(n) && var p := Cursor(Absolute, n, c0, c - 1); p.Ind2? || p.Ind3?
  {
    hide PathOf, Quot, Rem, Square;
    if c == c1 {
      CursorExact(n, c0, c1 - 1);
      RightIsAhead(n, c);
    } else {
      assert AheadAt(n, c0, c1, c - 1);
    }
  }

  // ---------------------------------------------------------------- a write that makes its file grow

  /** The first block that trips the cursor in a transfer from the start of a file. */
  lemma FirstTripFromStart(n: Fanout, c: nat)
    ensures FirstTrip(n, 0, 2 * n, c) <==> c == 2 * n
  {
    hide Square;
    QuotRemUnique(n, 2, 0);
    assert Trips(n, 2 * n) by {
      Positive(n);
    }
    forall k | FirstInd2(n) < k < 2 * n
      ensures !Trips(n, k)
    {
      QuotRemUnique(n, 1, k - n);
    }
  }

  /** File block 2 * n - 1, and where the cursor goes from there. */
  lemma FromStart(n: Fanout)
    ensures Cursor(Absolute, n, 0, 2 * n - 1) == PathOf(n, 2 * n - 1) == Ind2(0, n - 13)
    ensures Cursor(Absolute, n, 0, 2 * n) == Ind2(1, 0)
  {
    hide Square, Quot, Rem, PathOf, Trips, Advance;
    var c := 2 * n - 1;
    FirstTripFromStart(n, 2 * n);
    assert Cursor(Absolute, n, 0, c) == PathOf(n, c) by {
      CursorExact(n, 0, c);
    }
    assert PathOf(n, c) == Ind2(0, n - 13) by {
      PathOfInd2(n, 0, n - 13);
    }
    assert Cursor(Absolute, n, 0, 2 * n) == Advance(Absolute, n, Ind2(0, n - 13), 2 * n);
    RowEnds(n);
  }

  lemma RowEnds(n: Fanout)
    ensures Advance(Absolute, n, Ind2(0, n - 13), 2 * n) == Ind2(1, 0)
  {
    hide Square, Quot, Rem;
    Positive(n);
    QuotRemUnique(n, 2, 0);
  }

  /** Blocks 0 .. 2 * n of a file are mapped; no pointer block is allocated behind the one of the last of them, nothing
      stands in block 0 and the file does not use it. */
  ghost predicate Grows(n: Fanout, disk: seq<Block>, ino: Inode) {
    && Mapped(n, disk, ino, 2 * n + 1)
    && PtrAt(Fetch(disk, ino.block[DIND_BLOCK]), 1) == 0 && PtrAt(Fetch(disk, 0), 0) == 0
    && forall c :: 0 <= c <= 2 * n ==> Slot(disk, ino, PathOf(n, c)) != 0
  }

  lemma GrowingNeverBack(n: Fanout, disk: seq<Block>, ino: Inode, stray: nat -> nat, last: nat)
    requires |ino.block| == N_BLOCKS && Grows(n, disk, ino) && last == 2 * n && last * (4 * n) < TWO32
    ensures NeverBack(n, disk, ino, stray, 0, last, last, last)
  {
    hide PathOf, Slot, Square, Quot, Rem, Mapped, Fetch, PtrAt;
    FromStart(n);
    FirstTripFromStart(n, last);
    assert Slot(disk, ino, PathOf(n, last)) != 0;
    hide Trips, Advance;
    forall c | 0 <= c < last
      ensures Visited(n, disk, ino, stray, 0, c) !in WayAt(n, disk, ino, stray, 0, last)
    {
      LeqMul(c, last, 4 * n);
      VisitedRight(n, disk, ino, stray, 0, last - 1, c);
      GrowingApart(n, disk, ino, c);
    }
  }

  lemma LastOfWhole(n: Fanout, last: nat, moved: nat)
    requires moved == last * (4 * n) + 4 * n
    ensures Quot(0, 4 * n) == 0 && LastBlock(n, 0, moved) == last && Share(n, 0, moved, last) == 4 * n
  {
    hide Quot, Rem;
    QuotRemUnique(4 * n, last, 4 * n - 1);
    QuotRemUnique(4 * n, 0, 0);
  }

  lemma GrowingTells(n: Fanout, disk: seq<Block>, ino: Inode, nb: nat, data: seq<Byte>, stray: nat -> nat, last: nat)
    requires |ino.block| == N_BLOCKS && NeverBack(n, disk, ino, stray, 0, last, last, last) && Quot(0, 4 * n) == 0
    requires LastBlock(n, 0, |data|) == last && Share(n, 0, |data|, last) == 4 * n
    requires |DataFor(n, 0, last, data)| == 4 * n == |Data(n, disk, ino, last)|
    requires DataFor(n, 0, last, data) != Data(n, disk, ino, last)
    ensures Telling(n, disk, ino, nb, Write, 0, |data|, data, stray, last, last)
  {
    hide PathOf, Slot, Quot, Rem, LastBlock, Share, NeverBack, DataFor, Data, Target, Advance;
  }

  lemma LastData(n: Fanout, last: nat, data: seq<Byte>)
    requires |data| == last * (4 * n) + 4 * n
    ensures |DataFor(n, 0, last, data)| == 4 * n
  {
    ProductNotNegative(last, 4 * n);
  }

  /** Writing such a file as a whole: the last block, which has just been allocated, is where the cursor goes wrong, and
      that shows whatever lies behind the buffers. */
  lemma GrowingWriteTells(n: Fanout, disk: seq<Block>, ino: Inode, data: seq<Byte>, stray: nat -> nat, last: nat)
    requires |ino.block| == N_BLOCKS && Grows(n, disk, ino)
    requires last == 2 * n && |data| == last * (4 * n) + 4 * n < TWO32
    requires DataFor(n, 0, last, data) != Data(n, disk, ino, last)
    ensures InRange(n, disk, ino, last + 1, 0, |data|) && !Steady(Absolute, n, 0, |data|)
    ensures TripTells(n, disk, ino, last + 1, Write, 0, |data|, data, stray)
  {
    hide PathOf, Slot, Square, Quot, Rem, Mapped, Fetch, PtrAt, LastBlock, Share, NeverBack, DataFor, Data, Trips;
    hide FirstTrip, Telling;
    var nb := last + 1;
    LastOfWhole(n, last, |data|);
    LastData(n, last, data);
    FirstTripFromStart(n, last);
    DataLength(n, disk, ino, nb, last);
    GrowingNeverBack(n, disk, ino, stray, last);
    GrowingTells(n, disk, ino, nb, data, stray, last);
    forall c | FirstTrip(n, 0, last, c)
      ensures exists stop :: Telling(n, disk, ino, nb, Write, 0, |data|, data, stray, c, stop)
    {
      FirstTripFromStart(n, c);
    }
    TripsFirst(n, last);
  }

  lemma TripsFirst(n: Fanout, last: nat)
    requires FirstTrip(n, 0, last, last)
    ensures !Smooth(n, 0, last)
  {
    hide Trips;
  }

  lemma GrowingApart(n: Fanout, disk: seq<Block>, ino: Inode, c: nat)
    requires Mapped(n, disk, ino, 2 * n + 1) && c < 2 * n
    ensures Slot(disk, ino, PathOf(n, c)) != ino.block[DIND_BLOCK]
  {
    hide PathOf, Slot, Square, Quot, Rem;
    FromStart(n);
    assert Apart(n, disk, ino, c, 2 * n - 1);
  }
}
