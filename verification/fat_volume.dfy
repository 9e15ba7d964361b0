/** The FAT16 branches of fat_check_avail_clusters, fat_commit_entry, fat_alloc_clusters_count and fat_next_cluster of
    virgoos/src/fs/fat.c, over all copies of the table. */
module FatVolumes {
  import opened FatChains

  /** Entries in a sector of the table. */
  const SECTOR: nat := 256

  /** The table in the middle of an allocation. */
  function Linked(t: Table, limit: nat, prev: nat, picks: seq<nat>): (r: Table)
    ensures |r| == |t|
  {
    if picks == [] then t else LinkUp(if prev != 0 then Put(t, limit, prev, picks[0]) else t, limit, picks)
  }

  lemma LinkedNext(t: Table, limit: nat, prev: nat, picks: seq<nat>, c: nat)
    ensures Linked(t, limit, prev, picks + [c])
            == if picks == [] then (if prev != 0 then Put(t, limit, prev, c) else t)
               else Put(Linked(t, limit, prev, picks), limit, picks[|picks| - 1], c)
  {
    assert (picks + [c])[..|picks|] == picks;
  }

  /** The initial value of prev_cluster does not name a free entry of the table that a commit would reach. */
  predicate PrevSound(t: Table, limit: nat, prev: nat) {
    prev == 0 || prev >= limit || (prev < |t| && t[prev] != FREE)
  }

  /** Behind the picks the table shows the same entries as free. */
  lemma SameFreeBehind(t: Table, limit: nat, prev: nat, picks: seq<nat>, c: nat)
    requires PrevSound(t, limit, prev) && Ascending(picks) && forall k :: 0 <= k < |picks| ==> 0 < picks[k] < |t|
    requires c < |t| && forall k :: 0 <= k < |picks| ==> picks[k] < c
    ensures Linked(t, limit, prev, picks)[c] == FREE <==> t[c] == FREE
  {
    if picks != [] {
      LinkUpAt(if prev != 0 then Put(t, limit, prev, picks[0]) else t, limit, picks, c);
    }
  }

  /** A scan that has come to entry i, with the picks made on the way. */
  predicate ScanAt(t: Table, i: nat, picks: seq<nat>) {
    picks + FreeFrom(t, i) == FreeFrom(t, FIRST_ENTRY)
  }

  lemma ScanStep(t: Table, i: nat, picks: seq<nat>)
    requires ScanAt(t, i, picks) && i < |t|
    ensures if t[i] == FREE then ScanAt(t, i + 1, picks + [i]) else ScanAt(t, i + 1, picks)
  {
    if t[i] == FREE {
      assert picks + ([i] + FreeFrom(t, i + 1)) == picks + [i] + FreeFrom(t, i + 1);
    }
  }

  /** The picks of a scan are ascending free entries before its position. */
  lemma ScanPicks(t: Table, i: nat, picks: seq<nat>)
    requires ScanAt(t, i, picks)
    ensures Ascending(picks) && picks <= FreeFrom(t, FIRST_ENTRY)
    ensures forall k :: 0 <= k < |picks| ==> FIRST_ENTRY <= picks[k] < |t| && t[picks[k]] == FREE
  {
    var free := FreeFrom(t, FIRST_ENTRY);
    assert picks == free[..|picks|];
    forall k | 0 <= k < |picks|
      ensures picks[k] == free[k]
    {
    }
  }

  // ---------------------------------------------------------------- states of the scan

  /** What holds between two turns of the scan; cur is the table by now. */
  ghost predicate Scanning(t: Table, cur: Table, limit: nat, prev0: nat, count: nat, at: nat, picks: seq<nat>,
                           prev: nat,
                           first: nat) {
    && PrevSound(t, limit, prev0) && |picks| < count
    && ScanAt(t, if at < FIRST_ENTRY then FIRST_ENTRY else at, picks)
    && (forall k :: 0 <= k < |picks| ==> picks[k] < at)
    && cur == Linked(t, limit, prev0, picks)
    && (if picks == [] then prev == prev0 && first == 0 else prev == picks[|picks| - 1] && first == picks[0])
  }

  /** The state right after entry c was picked. */
  ghost predicate Picked(t: Table, cur: Table, limit: nat, prev0: nat, c: nat, picks: seq<nat>, prev: nat, first: nat) {
    && PrevSound(t, limit, prev0) && FIRST_ENTRY <= c < |t|
    && ScanAt(t, c + 1, picks) && picks != [] && Ascending(picks)
    && cur == Linked(t, limit, prev0, picks) && prev == c == picks[|picks| - 1] && first == picks[0]
  }

  /** All picks made, and the end marker written. */
  ghost predicate Finished(t: Table, cur: Table, limit: nat, prev0: nat, count: nat, picks: seq<nat>, first: nat) {
    && picks != [] && |picks| == count && picks <= FreeFrom(t, FIRST_ENTRY) && first == picks[0]
    && cur == Put(Linked(t, limit, prev0, picks), limit, picks[|picks| - 1], END_MARK)
  }

  lemma ScanningSize(t: Table, cur: Table, limit: nat, prev0: nat, count: nat, at: nat, picks: seq<nat>, prev: nat,
                     first: nat)
    requires Scanning(t, cur, limit, prev0, count, at, picks, prev, first)
    ensures |picks| < count && |cur| == |t|
  {
    hide Linked, ScanAt;
  }

  lemma ScanningBegins(t: Table, limit: nat, prev0: nat, count: nat)
    requires PrevSound(t, limit, prev0)
    ensures count > 0 ==> Scanning(t, t, limit, prev0, count, 0, [], prev0, 0)
  {
    hide FreeFrom;
    assert [] + FreeFrom(t, FIRST_ENTRY) == FreeFrom(t, FIRST_ENTRY);
  }

  lemma ScanningStarts(t: Table, cur: Table, limit: nat, prev0: nat, count: nat, picks: seq<nat>, prev: nat, first: nat)
    requires Scanning(t, cur, limit, prev0, count, 0, picks, prev, first)
    ensures Scanning(t, cur, limit, prev0, count, FIRST_ENTRY, picks, prev, first)
  {
    hide Linked, ScanAt;
  }

  lemma ScanningSkips(t: Table, cur: Table, limit: nat, prev0: nat, count: nat, at: nat, picks: seq<nat>, prev: nat,
                      first: nat)
    requires Scanning(t, cur, limit, prev0, count, at, picks, prev, first) && FIRST_ENTRY <= at < |t| && t[at] != FREE
    ensures Scanning(t, cur, limit, prev0, count, at + 1, picks, prev, first)
  {
    hide Linked, FreeFrom;
    ScanStep(t, at, picks);
  }

  /** An entry that is about to be picked lies behind the first ones. */
  lemma ScanningPast(t: Table, cur: Table, limit: nat, prev0: nat, count: nat, at: nat, picks: seq<nat>, prev: nat,
                     first: nat)
    requires Scanning(t, cur, limit, prev0, count, at, picks, prev, first)
    ensures PrevSound(t, limit, prev0) && |cur| == |t|
  {
    hide Linked, ScanAt;
  }

  lemma PickedNext(t: Table, cur: Table, limit: nat, prev0: nat, count: nat, c: nat, picks: seq<nat>, prev: nat,
                   first: nat)
    requires Picked(t, cur, limit, prev0, c, picks, prev, first) && |picks| <= count
    ensures |picks| < count ==> Scanning(t, cur, limit, prev0, count, c + 1, picks, prev, first)
    ensures |picks| == count ==> Finished(t, Put(cur, limit, c, END_MARK), limit, prev0, count, picks, first)
    ensures |cur| == |t|
  {
    hide Linked, FreeFrom;
    ScanPicks(t, c + 1, picks);
  }

  /** Entry start + j is free in the buffer exactly if it was free before the allocation. */
  predicate Shows(t: Table, buf: seq<nat>, start: nat, j: nat)
    requires j < |buf|
  {
    start + j < |t| && (buf[j] == FREE <==> t[start + j] == FREE)
  }

  ghost predicate AllShow(t: Table, buf: seq<nat>, start: nat) {
    forall j :: 0 <= j < |buf| ==> Shows(t, buf, start, j)
  }

  /** Sectors that are read when the scan reaches them show what they showed at the beginning. */
  lemma BufferShows(t: Table, cur: Table, limit: nat, prev0: nat, count: nat, picks: seq<nat>, prev: nat, first: nat,
                    start: nat, n: nat)
    requires Scanning(t, cur, limit, prev0, count, start, picks, prev, first) && start + n <= |t| == |cur|
    ensures AllShow(t, cur[start..start + n], start)
  {
    hide Linked, FreeFrom, ScanAt;
    ScanPicks(t, if start < FIRST_ENTRY then FIRST_ENTRY else start, picks);
    var buf := cur[start..start + n];
    forall j | 0 <= j < n
      ensures Shows(t, buf, start, j)
    {
      SameFreeBehind(t, limit, prev0, picks, start + j);
    }
  }

  lemma TooFew(t: Table, limit: nat, count: nat, prev0: nat)
    requires count == 0 || |FreeFrom(t, 0)| < count
    ensures Allocate(t, limit, count, prev0) == Allocation(t, 0, false)
  {
  }

  lemma Allocated(t: Table, cur: Table, limit: nat, count: nat, prev0: nat, picks: seq<nat>, first: nat)
    requires Finished(t, cur, limit, prev0, count, picks, first) && |FreeFrom(t, 0)| >= count
    ensures Allocate(t, limit, count, prev0) == Allocation(cur, first, true) && first >= FIRST_ENTRY
  {
    hide FreeFrom, LinkUp;
    assert picks == FreeFrom(t, FIRST_ENTRY)[..count];
  }

  lemma Exhausted(t: Table, cur: Table, limit: nat, count: nat, prev0: nat, picks: seq<nat>, prev: nat, first: nat,
                  i: nat)
    requires Scanning(t, cur, limit, prev0, count, i, picks, prev, first) && |FreeFrom(t, 0)| >= count && i >= |t|
    ensures Allocate(t, limit, count, prev0) == Allocation(cur, 0, false)
  {
    hide LinkUp;
    assert picks + [] == picks;
    assert picks == FreeFrom(t, FIRST_ENTRY);
  }

  lemma LinkedNone(t: Table, limit: nat, prev: nat)
    ensures Linked(t, limit, prev, []) == t
  {
  }

  class FatVolume {
    const sectorsPerFat: nat
    /** Clusters from here on are refused by commits: the smaller of last_used_cluster_val - 2 and total_sectors /
        sectors_per_cluster. */
    const limit: nat
    /** The copies of the table. */
    var fats: seq<Table>

    ghost predicate Valid()
      reads this
    {
      && |fats| > 0 && limit <= LAST_USED - 2
      && forall f :: 0 <= f < |fats| ==> |fats[f]| == SECTOR * sectorsPerFat
    }

    ghost predicate Identical()
      reads this
    {
      forall f :: 0 <= f < |fats| ==> fats[f] == fats[0]
    }

    /** fat_check_avail_clusters: it counts entries 0 to 2 too, and those past the last cluster. */
    method CheckAvail(count: nat) returns (ok: bool)
      requires Valid()
      ensures ok <==> count > 0 && |FreeFrom(fats[0], 0)| >= count
    {
      var t := fats[0];
      var sector, found := 0, 0;
      ghost var all := FreeFrom(t, 0);
      while sector < sectorsPerFat
        invariant sector <= sectorsPerFat
        invariant count > 0 ==> found < count && found + |FreeFrom(t, SECTOR * sector)| == |all|
      {
        var buf := t[SECTOR * sector..SECTOR * sector + SECTOR];
        var i := 0;
        while i < SECTOR && found < count
          invariant i <= SECTOR
          invariant count > 0 ==> found < count && found + |FreeFrom(t, SECTOR * sector + i)| == |all|
        {
          assert buf[i] == t[SECTOR * sector + i];
          if buf[i] == FREE {
            found := found + 1;
          }
          if found == count {
            return true;
          }
          i := i + 1;
        }
        sector := sector + 1;
      }
      return false;
    }

    /** fat_commit_entry: reads the sector of the entry from the first copy and writes it to all. */
    method CommitEntry(cluster: nat, value: nat)
      requires Valid() && (cluster >= limit || cluster < |fats[0]|)
      modifies this
      ensures Valid() && |fats| == |old(fats)| && fats[0] == Put(old(fats[0]), limit, cluster, value)
      ensures old(Identical()) ==> Identical()
    {
      if cluster >= limit {
        return;
      }
      var at := cluster / SECTOR * SECTOR;
      var buf := fats[0][at..at + SECTOR][cluster - at := value];
      ghost var was, t := fats, Put(fats[0], limit, cluster, value);
      ghost var same := Identical();
      SectorWritten(fats[0], at, cluster, value);
      var f := 0;
      while f < |fats|
        invariant f <= |fats| == |was|
        invariant forall g :: f <= g < |fats| ==> fats[g] == was[g]
        invariant forall g :: 0 <= g < f ==> |fats[g]| == SECTOR * sectorsPerFat && (g == 0 || same ==> fats[g] == t)
      {
        fats := fats[f := fats[f][..at] + buf + fats[f][at + SECTOR..]];
        f := f + 1;
      }
    }

    static lemma SectorWritten(t: Table, at: nat, c: nat, value: nat)
      requires at <= c < at + SECTOR <= |t|
      ensures t[..at] + t[at..at + SECTOR][c - at := value] + t[at + SECTOR..] == t[c := value]
    {
    }

    /** A pick in the scan. */
    method Pick(ghost t: Table, ghost prev0: nat, ghost count: nat, c: nat, ghost picks: seq<nat>, prev: nat,
                first: nat)
      returns (prev': nat, first': nat)
      requires Valid() && Scanning(t, fats[0], limit, prev0, count, c, picks, prev, first)
      requires FIRST_ENTRY <= c < |t| && t[c] == FREE
      modifies this
      ensures Valid() && |fats| == |old(fats)| && (old(Identical()) ==> Identical())
      ensures Picked(t, fats[0], limit, prev0, c, picks + [c], prev', first')
    {
      hide Linked, FreeFrom;
      ScanStep(t, c, picks);
      ScanPicks(t, c, picks);
      LinkedNext(t, limit, prev0, picks, c);
      LinkedNone(t, limit, prev0);
      if prev != 0 {
        CommitEntry(prev, c);
      }
      prev' := c;
      first' := first;
      if first == 0 {
        first' := c;
      }
    }

    /** The inner loop of fat_alloc_clusters_count over a buffer of up to three sectors. */
    method ScanBuffer(ghost t: Table, ghost prev0: nat, count: nat, start: nat, buf: seq<nat>, ghost picks: seq<nat>,
                      found: nat, prev: nat, first: nat)
      returns (done: bool, ghost picks': seq<nat>, found': nat, prev': nat, first': nat)
      requires Valid() && Scanning(t, fats[0], limit, prev0, count, start, picks, prev, first) && found == |picks|
      requires (start == 0 || start >= SECTOR) && |buf| >= SECTOR && start + |buf| <= |t| && AllShow(t, buf, start)
      modifies this
      ensures Valid() && |fats| == |old(fats)| && (old(Identical()) ==> Identical()) && found' == |picks'|
      ensures done ==> Finished(t, fats[0], limit, prev0, count, picks', first')
      ensures !done ==> Scanning(t, fats[0], limit, prev0, count, start + |buf|, picks', prev', first')
    {
      hide Linked, FreeFrom, Ascending, Scanning, Picked, Finished, Put;
      done, picks', found', prev', first' := false, picks, found, prev, first;
      var i := 0;
      ScanningSize(t, fats[0], limit, prev0, count, start, picks, prev, first);
      while i < |buf| && found' < count
        invariant i <= |buf| && (start + i == 0 || start + i >= FIRST_ENTRY)
        invariant Valid() && |fats| == |old(fats)| && (old(Identical()) ==> Identical())
        invariant found' == |picks'| < count
                 && Scanning(t, fats[0], limit, prev0, count, start + i, picks', prev', first')
      {
        if start == 0 && i == 0 {
          i := FIRST_ENTRY;
          ScanningStarts(t, fats[0], limit, prev0, count, picks', prev', first');
        }
        assert Shows(t, buf, start, i);
        if buf[i] == FREE {
          var c := start + i;
          ScanningPast(t, fats[0], limit, prev0, count, c, picks', prev', first');
          found' := found' + 1;
          prev', first' := Pick(t, prev0, count, c, picks', prev', first');
          picks' := picks' + [c];
          PickedNext(t, fats[0], limit, prev0, count, c, picks', prev', first');
          if found' == count {
            CommitEntry(c, END_MARK);
            done := true;
            return;
          }
        } else {
          ScanningSkips(t, fats[0], limit, prev0, count, start + i, picks', prev', first');
        }
        i := i + 1;
      }
    }

    /** fat_alloc_clusters_count: returns the index of the first cluster, or -1. */
    method AllocClusters(count: nat, prev0: nat) returns (r: int)
      requires Valid() && PrevSound(fats[0], limit, prev0)
      modifies this
      ensures Valid() && |fats| == |old(fats)| && (old(Identical()) ==> Identical())
      ensures var a := Allocate(old(fats[0]), limit, count, prev0);
        fats[0] == a.table && r == if a.ok then a.first - 2 else -1
    {
      hide Linked, FreeFrom, Ascending, LinkUp, Scanning, Finished, Allocate, AllShow;
      ghost var t := fats[0];
      var enough := CheckAvail(count);
      ScanningBegins(t, limit, prev0, count);
      if !enough {
        TooFew(t, limit, count, prev0);
        return -1;
      }
      var sector, found, prev, first := 0, 0, prev0, 0;
      ghost var picks: seq<nat> := [];
      while sector < sectorsPerFat
        invariant sector <= sectorsPerFat && Valid() && |fats| == |old(fats)| && (old(Identical()) ==> Identical())
        invariant found == |picks| && Scanning(t, fats[0], limit, prev0, count, SECTOR * sector, picks, prev, first)
      {
        var n := sectorsPerFat - sector;
        if n > 3 {
          n := 3;
        }
        var start := SECTOR * sector;
        var buf := fats[0][start..start + SECTOR * n];
        BufferShows(t, fats[0], limit, prev0, count, picks, prev, first, start, SECTOR * n);
        var done;
        done, picks, found, prev, first := ScanBuffer(t, prev0, count, start, buf, picks, found, prev, first);
        if done {
          Allocated(t, fats[0], limit, count, prev0, picks, first);
          return first - 2;
        }
        sector := sector + n;
      }
      Exhausted(t, fats[0], limit, count, prev0, picks, prev, first, SECTOR * sector);
      return -1;
    }
  }
}
