/** FAT16 tables of virgoos/src/fs/fat.c: chains of clusters, and what allocation makes of the free entries. */
module FatChains {
  import opened Common

  const FREE: nat := 0
  const LAST_USED: nat := 0xFFEF
  const END_MARK: nat := 0xFFF8

  /** The first entry that allocation looks at. */
  const FIRST_ENTRY: nat := 3

  /** A copy of the table, entry by entry. */
  type Table = seq<nat>

  /** fat_commit_entry: it refuses clusters from the limit on, and its callers do not look whether it did. */
  function Put(t: Table, limit: nat, cluster: nat, value: nat): (r: Table)
    ensures |r| == |t|
  {
    if cluster < limit && cluster < |t| then t[cluster := value] else t
  }

  /** fat_next_cluster for an index inside the table; indices are cluster numbers less 2. */
  function Next(t: Table, index: nat): nat
    requires index + 2 < |t|
  {
    (t[index + 2] + (TWO32 - 2)) % TWO32
  }

  /** The loop condition of the readers. */
  predicate InUse(index: nat) {
    index <= LAST_USED - 2
  }

  /** Cluster numbers cs form a chain that ends with the end marker. */
  predicate Chain(t: Table, cs: seq<nat>) {
    && 0 < |cs|
    && (forall k :: 0 <= k < |cs| ==> 2 <= cs[k] < |t| && cs[k] <= LAST_USED)
    && (forall k :: 0 <= k < |cs| - 1 ==> t[cs[k]] == cs[k + 1])
    && t[cs[|cs| - 1]] == END_MARK
  }

  /** A chain never returns to itself. */
  lemma {:induction false} ChainsAreAcyclic(t: Table, cs: seq<nat>, i: nat, j: nat)
    requires Chain(t, cs) && i < j < |cs|
    ensures cs[i] != cs[j]
    decreases |cs| - j
  {
    assert t[cs[i]] == cs[i + 1];
    if j < |cs| - 1 {
      assert t[cs[j]] == cs[j + 1];
      ChainsAreAcyclic(t, cs, i + 1, j + 1);
    }
  }

  /** Walking from the first cluster of a chain visits exactly the chain. */
  lemma ChainIsWalked(t: Table, cs: seq<nat>, k: nat)
    requires Chain(t, cs) && k < |cs|
    ensures InUse(cs[k] - 2)
    ensures k + 1 < |cs| ==> Next(t, cs[k] - 2) == cs[k + 1] - 2
    ensures k + 1 == |cs| ==> !InUse(Next(t, cs[k] - 2))
  {
    assert k + 1 < |cs| ==> t[cs[k]] == cs[k + 1];
  }

  // ---------------------------------------------------------------- free entries

  /** The free entries from i on, in order. */
  function FreeFrom(t: Table, i: nat): (fs: seq<nat>)
    ensures forall k :: 0 <= k < |fs| ==> i <= fs[k] < |t| && t[fs[k]] == FREE
    ensures forall k, l :: 0 <= k < l < |fs| ==> fs[k] < fs[l]
    decreases |t| - i
  {
    if i >= |t| then [] else if t[i] == FREE then [i] + FreeFrom(t, i + 1) else FreeFrom(t, i + 1)
  }

  /** No free entry is missing. */
  lemma {:induction false} FreeFromComplete(t: Table, i: nat, c: nat)
    requires i <= c < |t| && t[c] == FREE
    ensures c in FreeFrom(t, i)
    decreases c - i
  {
    if i < c {
      FreeFromComplete(t, i + 1, c);
    }
  }

  // ---------------------------------------------------------------- allocation

  /** Links from each pick to the next one. */
  function LinkUp(t: Table, limit: nat, picks: seq<nat>): (r: Table)
    ensures |r| == |t|
  {
    if |picks| <= 1 then t
    else
      var n := |picks|;
      Put(LinkUp(t, limit, picks[..n - 1]), limit, picks[n - 2], picks[n - 1])
  }

  /** The links, and the end marker on the last pick. */
  function Closed(t: Table, limit: nat, picks: seq<nat>): (r: Table)
    requires picks != []
    ensures |r| == |t|
  {
    Put(LinkUp(t, limit, picks), limit, picks[|picks| - 1], END_MARK)
  }

  /** What an allocation leaves: the table and the first cluster, if it got all it wanted. */
  datatype Allocation = Allocation(table: Table, first: nat, ok: bool)

  /** fat_alloc_clusters_count with `prev` as the initial content of prev_cluster, which the code leaves open. */
  function Allocate(t: Table, limit: nat, count: nat, prev: nat): Allocation {
    var free := FreeFrom(t, FIRST_ENTRY);
    if count == 0 || |FreeFrom(t, 0)| < count then Allocation(t, 0, false)
    else if free == [] then Allocation(t, 0, false)
    else
      var t' := if prev != 0 then Put(t, limit, prev, free[0]) else t;
      if |free| < count then Allocation(LinkUp(t', limit, free), 0, false)
      else Allocation(Closed(t', limit, free[..count]), free[0], true)
  }

  /** Ascending cluster numbers. */
  predicate Ascending(cs: seq<nat>) {
    forall k, l :: 0 <= k < l < |cs| ==> cs[k] < cs[l]
  }

  /** Every entry after linking. */
  lemma {:induction false} LinkUpAt(t: Table, limit: nat, picks: seq<nat>, c: nat)
    requires Ascending(picks) && c < |t| && forall k :: 0 <= k < |picks| ==> picks[k] < |t|
    ensures c < limit ==>
      forall k :: 0 <= k < |picks| - 1 && picks[k] == c ==> LinkUp(t, limit, picks)[c] == picks[k + 1]
    ensures c >= limit || (forall k :: 0 <= k < |picks| - 1 ==> picks[k] != c) ==> LinkUp(t, limit, picks)[c] == t[c]
  {
    if |picks| > 1 {
      LinkUpAt(t, limit, picks[..|picks| - 1], c);
    }
  }

  /** Every entry after an allocation. */
  lemma ClosedAt(t: Table, limit: nat, picks: seq<nat>, c: nat)
    requires picks != [] && Ascending(picks) && c < |t| && forall k :: 0 <= k < |picks| ==> picks[k] < |t|
    ensures c < limit ==>
      forall k :: 0 <= k < |picks| - 1 && picks[k] == c ==> Closed(t, limit, picks)[c] == picks[k + 1]
    ensures c == picks[|picks| - 1] ==> Closed(t, limit, picks)[c] == if c < limit then END_MARK else t[c]
    ensures c >= limit || c !in picks ==> Closed(t, limit, picks)[c] == t[c]
  {
    hide LinkUp;
    LinkUpAt(t, limit, picks, c);
  }

  /** The picks of an allocation form a chain exactly if the last of them is below the limit of commits. */
  lemma ClosedIsChain(t: Table, limit: nat, picks: seq<nat>)
    requires picks != [] && Ascending(picks) && limit <= LAST_USED - 2
    requires forall k :: 0 <= k < |picks| ==> FIRST_ENTRY <= picks[k] < |t| && t[picks[k]] == FREE
    ensures Chain(Closed(t, limit, picks), picks) <==> picks[|picks| - 1] < limit
  {
    hide Closed;
    var n := |picks|;
    ClosedAt(t, limit, picks, picks[n - 1]);
    forall k | 0 <= k < n - 1 && picks[k] < limit
      ensures Closed(t, limit, picks)[picks[k]] == picks[k + 1]
    {
      ClosedAt(t, limit, picks, picks[k]);
    }
  }

  /** The free entries that are not picked come after those that are. */
  lemma OthersAreHigher(t: Table, count: nat)
    requires 0 < count <= |FreeFrom(t, FIRST_ENTRY)|
    ensures var picks := FreeFrom(t, FIRST_ENTRY)[..count];
      forall c :: FIRST_ENTRY <= c < |t| && t[c] == FREE && c !in picks ==> c > picks[count - 1]
  {
    var free := FreeFrom(t, FIRST_ENTRY);
    hide FreeFrom;
    forall c | FIRST_ENTRY <= c < |t| && t[c] == FREE && c !in free[..count]
      ensures c > free[count - 1]
    {
      FreeFromComplete(t, FIRST_ENTRY, c);
      var rest := free[count..];
      assert free == free[..count] + rest;
      var k :| 0 <= k < |rest| && rest[k] == c;
      assert free[count + k] == c;
    }
  }

  /** With enough free entries, allocation picks the lowest ones, changes no other entry, and makes a chain of them
      exactly if the last pick is below the limit of commits. */
  lemma AllocateExact(t: Table, limit: nat, count: nat)
    requires count > 0 && limit <= LAST_USED - 2 && |FreeFrom(t, FIRST_ENTRY)| >= count
    ensures var r := Allocate(t, limit, count, 0); var picks := FreeFrom(t, FIRST_ENTRY)[..count];
      && r.ok && r.first == picks[0] && |r.table| == |t|
      && (Chain(r.table, picks) <==> picks[count - 1] < limit)
      && (forall c :: 0 <= c < |t| && c !in picks ==> r.table[c] == t[c])
      && (forall c :: FIRST_ENTRY <= c < |t| && t[c] == FREE && c !in picks ==> c > picks[count - 1])
  {
    hide Closed, FreeFrom, Chain;
    OthersAreHigher(t, count);
    MoreFreeEntries(t, 0, FIRST_ENTRY);
    var picks := FreeFrom(t, FIRST_ENTRY)[..count];
    ClosedIsChain(t, limit, picks);
    forall c | 0 <= c < |t| && c !in picks
      ensures Closed(t, limit, picks)[c] == t[c]
    {
      ClosedAt(t, limit, picks, c);
    }
  }

  /** Chains of clusters in use survive an allocation. */
  lemma OtherChainsSurvive(t: Table, limit: nat, count: nat, cs: seq<nat>)
    requires count > 0 && limit <= LAST_USED - 2 && |FreeFrom(t, FIRST_ENTRY)| >= count && Chain(t, cs)
    ensures Chain(Allocate(t, limit, count, 0).table, cs)
    ensures forall c <- cs :: c !in FreeFrom(t, FIRST_ENTRY)
  {
    hide Allocate, FreeFrom;
    AllocateExact(t, limit, count);
    forall k | 0 <= k < |cs|
      ensures t[cs[k]] != FREE
    {
      assert k < |cs| - 1 ==> t[cs[k]] == cs[k + 1];
    }
  }

  /** Too few free entries from the first one on: nothing is returned, and the table stays as it was exactly if the
      count of all free entries was too small as well, or no pick has a successor that could be linked. */
  lemma FailedAllocation(t: Table, limit: nat, count: nat)
    requires count == 0 || |FreeFrom(t, FIRST_ENTRY)| < count
    ensures var r := Allocate(t, limit, count, 0); var free := FreeFrom(t, FIRST_ENTRY);
      !r.ok && (r.table == t <==> count == 0 || |FreeFrom(t, 0)| < count || |free| <= 1 || free[0] >= limit)
  {
    hide FreeFrom, LinkUp;
    var free := FreeFrom(t, FIRST_ENTRY);
    if count > 0 && |free| > 0 {
      forall c | 0 <= c < |t| && free[0] >= limit
        ensures LinkUp(t, limit, free)[c] == t[c]
      {
        LinkUpAt(t, limit, free, c);
      }
      LinkUpAt(t, limit, free, free[0]);
      assert |free| == 1 ==> LinkUp(t, limit, free) == t by {
        LinkUpOfOne(t, limit, free);
      }
      assert free[0] >= limit ==> LinkUp(t, limit, free) == t;
      assert |free| > 1 && free[0] < limit ==> LinkUp(t, limit, free)[free[0]] == free[1] != t[free[0]];
    }
  }

  lemma LinkUpOfOne(t: Table, limit: nat, picks: seq<nat>)
    ensures |picks| <= 1 ==> LinkUp(t, limit, picks) == t
  {
  }

  /** What the open initial value of prev_cluster costs when it names an entry in use: that entry gets the first pick,
      which breaks its chain, exactly if the commit is not refused. */
  lemma StrayPrevious(t: Table, limit: nat, count: nat, prev: nat)
    requires count > 0 && |FreeFrom(t, FIRST_ENTRY)| >= count && 0 < prev < |t| && t[prev] != FREE
    ensures var picks := FreeFrom(t, FIRST_ENTRY)[..count];
      && Allocate(t, limit, count, prev).first == Allocate(t, limit, count, 0).first
      && Allocate(t, limit, count, prev).table[prev] == (if prev < limit then picks[0] else t[prev])
      && (Allocate(t, limit, count, prev).table == Allocate(t, limit, count, 0).table <==>
          prev >= limit || t[prev] == picks[0])
  {
    hide FreeFrom, Closed;
    MoreFreeEntries(t, 0, FIRST_ENTRY);
    var free := FreeFrom(t, FIRST_ENTRY);
    var picks := free[..count];
    assert prev !in picks;
    var t' := Put(t, limit, prev, free[0]);
    ClosedAt(t', limit, picks, prev);
    ClosedAt(t, limit, picks, prev);
    assert prev >= limit || t[prev] == picks[0] ==> t' == t;
  }

  lemma {:induction false} MoreFreeEntries(t: Table, i: nat, j: nat)
    requires i <= j
    ensures |FreeFrom(t, i)| >= |FreeFrom(t, j)|
    decreases j - i
  {
    if i < j {
      MoreFreeEntries(t, i + 1, j);
    }
  }
}
