/** fat_file_read of virgoos/src/fs/fat.c:995-1033: reading through a chain of clusters, against the bytes of the
    clusters laid end to end. */
module FatFileRead {
  import opened Common
  import opened Division
  import opened FatChains

  /** The data area: the bytes of each cluster by index. */
  type Area = nat -> seq<Byte>

  ghost predicate Sized(area: Area, cs: nat) {
    cs > 0 && forall i: nat :: |area(i)| == cs
  }

  /** The clusters of a chain end to end. */
  function Flat(area: Area, chain: seq<nat>): seq<Byte> {
    if chain == [] then [] else Flat(area, chain[..|chain| - 1]) + area(chain[|chain| - 1])
  }

  lemma {:induction false} FlatLength(area: Area, cs: nat, chain: seq<nat>)
    requires Sized(area, cs)
    ensures |Flat(area, chain)| == |chain| * cs && cs > 0
  {
    if chain != [] {
      FlatLength(area, cs, chain[..|chain| - 1]);
      Carry(cs, |chain| - 1);
    }
  }

  /** Cluster k inside the whole. */
  lemma {:induction false} FlatCluster(area: Area, cs: nat, chain: seq<nat>, k: nat)
    requires Sized(area, cs) && k < |chain|
    ensures 0 <= k * cs && k * cs + cs <= |Flat(area, chain)|
    ensures Flat(area, chain)[k * cs..k * cs + cs] == area(chain[k])
  {
    var n := |chain| - 1;
    FlatLength(area, cs, chain[..n]);
    ProductNotNegative(k, cs);
    if k < n {
      FlatCluster(area, cs, chain[..n], k);
      assert Flat(area, chain)[k * cs..k * cs + cs] == Flat(area, chain[..n])[k * cs..k * cs + cs];
    }
  }

  /** Indices that a walk from `first` visits before it leaves the clusters in use. */
  ghost predicate Walk(t: Table, first: nat, chain: seq<nat>)
    decreases chain
  {
    if chain == [] then !InUse(first)
    else InUse(first) && chain[0] == first && first + 2 < |t| && Walk(t, Next(t, first), chain[1..])
  }

  /** Indices that a walk from `first` visits, whether or not it goes on after them. */
  ghost predicate Visits(t: Table, first: nat, chain: seq<nat>)
    decreases chain
  {
    chain == [] || (InUse(first) && chain[0] == first && first + 2 < |t| && Visits(t, Next(t, first), chain[1..]))
  }

  /** The clusters hold all that the read asks for, and the file is that long. */
  predicate Satisfies(n: nat, cs: nat, fileSize: nat, offs: nat, size: nat) {
    offs + size <= fileSize && offs < n * cs && offs + size <= n * cs
  }

  /** Such a read is over before the clusters are. */
  lemma StillReading(flat: seq<Byte>, n: nat, cs: nat, fileSize: nat, offs0: nat, size: nat, at: nat, offs: nat,
                     out: seq<Byte>)
    requires Reading(flat, cs, fileSize, offs0, size, at, offs, out) && |flat| == n * cs && cs > 0
    requires Satisfies(n, cs, fileSize, offs0, size) && offs0 < fileSize
    ensures at != |flat|
  {
  }

  /** The bytes that a read of `size` at offs should give: clipped at the file size and at the clusters there are. */
  function Slice(flat: seq<Byte>, fileSize: nat, offs: nat, size: nat): seq<Byte> {
    var end := Min(Min(offs + size, fileSize), |flat|);
    if offs < end then flat[offs..end] else []
  }

  /** The clipping at the file size works: the request ends inside the file, or no cluster starts past its end. */
  predicate Clips(n: nat, cs: nat, fileSize: nat, offs: nat, size: nat) {
    offs + size <= fileSize || n == 0 || (n - 1) * cs <= fileSize
  }

  /** Where the loop stands before the cluster that starts at `at`. */
  ghost predicate Reading(flat: seq<Byte>, cs: nat, fileSize: nat, offs0: nat, size: nat, at: nat, offs: nat,
                          out: seq<Byte>) {
    && at <= |flat|
    && (at <= offs0 ==> offs == offs0 && out == [])
    && (at > offs0 ==> offs == at && |out| < size && offs0 < fileSize)
    && (at > offs0 && at <= fileSize ==> out == flat[offs0..at])
    && (at > offs0 && fileSize < at && at - cs <= fileSize ==> fileSize <= |flat| && out == flat[offs0..fileSize])
    && (at > offs0 && fileSize < at - cs ==> |out| > fileSize - offs0)
  }

  /** What a read hands out: the slice, or more than the file holds. */
  ghost predicate HandsOut(flat: seq<Byte>, n: nat, cs: nat, fileSize: nat, offs: nat, size: nat, out: seq<Byte>) {
    if Clips(n, cs, fileSize, offs, size) then out == Slice(flat, fileSize, offs, size) else |out| > fileSize - offs
  }

  /** Bytes that the loop copies from a cluster that ends at `end`; fileSize - offs is unsigned. */
  function ChunkSize(end: nat, offs: nat, left: nat, fileSize: nat): (sz: int)
    requires offs < end && end < TWO32 && fileSize < TWO32
    ensures 0 <= sz <= left && sz <= end - offs
  {
    Min(Min(end - offs, left), (fileSize - offs + TWO32) % TWO32)
  }

  /** fileSize - offs as the code gets it. */
  lemma UnsignedRest(end: nat, offs: nat, left: nat, fileSize: nat)
    requires offs < end && end < TWO32 && fileSize < TWO32
    ensures ChunkSize(end, offs, left, fileSize)
            == if offs <= fileSize then Min(Min(end - offs, left), fileSize - offs)
               else Min(Min(end - offs, left), TWO32 + fileSize - offs)
  {
  }

  /** Copying from the cluster at `at` leads to the state before the next one, or ends the read. */
  lemma Copied(flat: seq<Byte>, cs: nat, fileSize: nat, offs0: nat, size: nat, at: nat, offs: nat, out: seq<Byte>)
    requires Reading(flat, cs, fileSize, offs0, size, at, offs, out) && cs > 0 && at + cs <= |flat| < TWO32
    requires fileSize < TWO32 && offs0 < fileSize && at <= offs < at + cs && |out| <= size
    ensures var sz := ChunkSize(at + cs, offs, size - |out|, fileSize); var out' := out + flat[offs..offs + sz];
      && (|out'| < size ==> Reading(flat, cs, fileSize, offs0, size, at + cs, at + cs, out'))
      && (|out'| == size ==> if at <= fileSize then offs0 + size <= fileSize && offs0 + size <= |flat|
                                                    && out' == flat[offs0..offs0 + size]
                             else size > fileSize - offs0)
  {
    UnsignedRest(at + cs, offs, size - |out|, fileSize);
    var sz := ChunkSize(at + cs, offs, size - |out|, fileSize);
    if at > fileSize {
      CopiedBeyond(flat, cs, fileSize, offs0, size, at, offs, out, sz);
    } else {
      hide ChunkSize, Reading;
      CopiedInside(flat, cs, fileSize, offs0, size, at, offs, out, sz);
    }
  }

  /** Once a cluster starts past the end of the file, the rest of the file is a number near 2^32. */
  lemma CopiedBeyond(flat: seq<Byte>, cs: nat, fileSize: nat, offs0: nat, size: nat, at: nat, offs: nat,
                     out: seq<Byte>, sz: nat)
    requires Reading(flat, cs, fileSize, offs0, size, at, offs, out) && cs > 0 && at + cs <= |flat|
    requires offs0 < fileSize < at && at <= offs < at + cs && |out| <= size
    requires 0 <= sz <= size - |out| && sz <= at + cs - offs && (sz == size - |out| || sz == at + cs - offs)
    ensures var out' := out + flat[offs..offs + sz];
      && (|out'| < size ==> Reading(flat, cs, fileSize, offs0, size, at + cs, at + cs, out'))
      && (|out'| == size ==> size > fileSize - offs0)
  {
  }

  lemma CopiedInside(flat: seq<Byte>, cs: nat, fileSize: nat, offs0: nat, size: nat, at: nat, offs: nat,
                     out: seq<Byte>, sz: nat)
    requires Reading(flat, cs, fileSize, offs0, size, at, offs, out) && cs > 0 && at + cs <= |flat|
    requires offs0 < fileSize && at <= offs < at + cs && |out| <= size && at <= fileSize
    requires sz == Min(Min(at + cs - offs, size - |out|), fileSize - offs)
    ensures var out' := out + flat[offs..offs + sz];
      && (|out'| < size ==> Reading(flat, cs, fileSize, offs0, size, at + cs, at + cs, out'))
      && (|out'| == size ==>
            offs0 + size <= fileSize && offs0 + size <= |flat| && out' == flat[offs0..offs0 + size])
  {
    var out' := out + flat[offs..offs + sz];
    assert out' == flat[offs0..offs + sz] by {
      if at <= offs0 {
        assert out == [] && offs == offs0;
      } else {
        assert out == flat[offs0..at] && offs == at;
      }
    }
    assert |out'| == offs + sz - offs0;
  }

  /** The chain is at its end. */
  lemma ReadToTheEnd(flat: seq<Byte>, n: nat, cs: nat, fileSize: nat, offs0: nat, size: nat, offs: nat, out: seq<Byte>)
    requires cs > 0 && |flat| == n * cs && offs0 < fileSize
    requires Reading(flat, cs, fileSize, offs0, size, |flat|, offs, out)
    ensures HandsOut(flat, n, cs, fileSize, offs0, size, out)
  {
    if n > 0 {
      Carry(cs, n - 1);
    }
  }

  /** The read got all it wanted out of cluster k. */
  lemma ReadFull(flat: seq<Byte>, n: nat, cs: nat, fileSize: nat, offs0: nat, size: nat, k: nat, out: seq<Byte>)
    requires k < n && |flat| == n * cs && |out| == size && 0 <= k * cs
    requires if k * cs <= fileSize
             then offs0 + size <= fileSize && offs0 + size <= |flat| && out == flat[offs0..offs0 + size]
             else size > fileSize - offs0
    ensures HandsOut(flat, n, cs, fileSize, offs0, size, out)
  {
    if k < n - 1 {
      MulStep(k, n - 1, cs);
    }
  }

  /** What the loop copies out of a cluster that starts at `at` and holds the place it reads from. */
  method CopyOut(buf: seq<Byte>, ghost flat: seq<Byte>, cs: nat, fileSize: nat, ghost offs0: nat, size: nat, at: nat,
                 offs: nat, out: seq<Byte>)
    returns (out': seq<Byte>)
    requires cs > 0 && at + cs <= |flat| < TWO32 && buf == flat[at..at + cs]
    requires Reading(flat, cs, fileSize, offs0, size, at, offs, out) && |out| <= size
    requires fileSize < TWO32 && offs0 < fileSize && at <= offs < at + cs
    ensures |out'| <= size
    ensures |out'| < size ==> Reading(flat, cs, fileSize, offs0, size, at + cs, at + cs, out')
    ensures |out'| == size ==> if at <= fileSize then offs0 + size <= fileSize && offs0 + size <= |flat|
                                                      && out' == flat[offs0..offs0 + size]
                               else size > fileSize - offs0
  {
    hide Reading, ChunkSize;
    var sz := ChunkSize(at + cs, offs, size - |out|, fileSize);
    Copied(flat, cs, fileSize, offs0, size, at, offs, out);
    SliceOfSlice(flat, at, at + cs, offs, offs + sz);
    var from := offs - at;
    assert offs + sz - at == from + sz;
    out' := out + buf[from..from + sz];
  }

  /** One turn of the loop of fat_file_read: cluster `curr` starts at prevOffs of the file. */
  method OneCluster(area: Area, cs: nat, curr: nat, fileSize: nat, size: nat, prevOffs: nat, offs: nat, out: seq<Byte>,
                    ghost chain: seq<nat>, ghost k: nat, ghost offs0: nat)
    returns (offs': nat, out': seq<Byte>, done: bool)
    requires Sized(area, cs) && k < |chain| && curr == chain[k] && prevOffs == k * cs && |chain| * cs < TWO32
    requires Reading(Flat(area, chain), cs, fileSize, offs0, size, prevOffs, offs, out) && |out| <= size
    requires fileSize < TWO32 && offs0 < fileSize
    ensures done ==> HandsOut(Flat(area, chain), |chain|, cs, fileSize, offs0, size, out')
    ensures !done ==>
      && |out'| <= size
      && Reading(Flat(area, chain), cs, fileSize, offs0, size, prevOffs + cs, offs', out')
  {
    ghost var flat := Flat(area, chain);
    FlatLength(area, cs, chain);
    FlatCluster(area, cs, chain, k);
    assert |area(curr)| == cs;
    hide Flat, HandsOut, ChunkSize, Reading, Sized;
    offs', out', done := offs, out, false;
    var currOffs := prevOffs + cs;
    NotReached(flat, cs, fileSize, offs0, size, prevOffs, offs, out);
    if prevOffs <= offs && currOffs > offs {
      out' := CopyOut(area(curr), flat, cs, fileSize, offs0, size, prevOffs, offs, out);
      if |out'| == size {
        ReadFull(flat, |chain|, cs, fileSize, offs0, size, k, out');
        done := true;
        return;
      }
      offs' := currOffs;
    }
  }

  /** A cluster that ends before the request changes nothing. */
  lemma NotReached(flat: seq<Byte>, cs: nat, fileSize: nat, offs0: nat, size: nat, at: nat, offs: nat, out: seq<Byte>)
    requires Reading(flat, cs, fileSize, offs0, size, at, offs, out) && cs > 0 && at + cs <= |flat|
    ensures at <= offs && (at + cs <= offs ==> Reading(flat, cs, fileSize, offs0, size, at + cs, offs, out))
  {
  }

  lemma SliceOfSlice(s: seq<Byte>, a: nat, b: nat, c: nat, d: nat)
    requires a <= c <= d <= b <= |s|
    ensures s[a..b][c - a..d - a] == s[c..d]
  {
    var t := s[a..b];
    forall i | 0 <= i < d - c
      ensures t[c - a..d - a][i] == s[c..d][i]
    {
      assert t[c - a + i] == s[c + i];
    }
  }

  /** fat_file_read of a regular file whose chain ends, or goes on in any way, be it in a circle, after clusters that
      hold all that is asked for: gives the slice if and only if the clipping works. */
  method FileRead(t: Table, area: Area, cs: nat, firstCluster: nat, fileSize: nat, offs0: nat, size: nat,
                  ghost chain: seq<nat>)
    returns (out: seq<Byte>)
    requires Sized(area, cs) && fileSize < TWO32 && firstCluster < TWO32 && |chain| * cs < TWO32
    requires var first := (firstCluster + (TWO32 - 2)) % TWO32;
      Walk(t, first, chain) || (Visits(t, first, chain) && Satisfies(|chain|, cs, fileSize, offs0, size))
    ensures offs0 >= fileSize ==> out == []
    ensures offs0 < fileSize ==> HandsOut(Flat(area, chain), |chain|, cs, fileSize, offs0, size, out)
  {
    hide Flat, Sized, HandsOut, Satisfies;
    out := [];
    if offs0 >= fileSize {
      return;
    }
    ghost var k := 0;
    FlatLength(area, cs, chain);
    var curr: nat, prevOffs: nat, offs: nat := (firstCluster + (TWO32 - 2)) % TWO32, 0, offs0;
    while InUse(curr)
      invariant 0 <= k <= |chain| && prevOffs == k * cs
      invariant Walk(t, curr, chain[k..])
             || (Visits(t, curr, chain[k..]) && Satisfies(|chain|, cs, fileSize, offs0, size))
      invariant Reading(Flat(area, chain), cs, fileSize, offs0, size, prevOffs, offs, out) && |out| <= size
      decreases |chain| - k
    {
      if k == |chain| {
        StillReading(Flat(area, chain), |chain|, cs, fileSize, offs0, size, prevOffs, offs, out);
      }
      hide Reading;
      var done;
      offs, out, done := OneCluster(area, cs, curr, fileSize, size, prevOffs, offs, out, chain, k, offs0);
      if done {
        return;
      }
      Carry(cs, k);
      prevOffs := prevOffs + cs;
      curr := Next(t, curr);
      k := k + 1;
    }
    assert chain[k..] == [];
    ReadToTheEnd(Flat(area, chain), |chain|, cs, fileSize, offs0, size, offs, out);
  }

  /** A chain with as many clusters as the file needs is always clipped. */
  lemma ExactChainClips(n: nat, cs: nat, fileSize: nat, offs: nat, size: nat)
    requires cs > 0 && n == (fileSize + (cs - 1)) / cs
    ensures Clips(n, cs, fileSize, offs, size)
  {
    if n > 0 {
      Carry(cs, n - 1);
    }
  }

  /** The walk of an allocated chain visits its clusters. */
  lemma {:induction false} ChainWalk(t: Table, cs: seq<nat>, k: nat)
    requires Chain(t, cs) && k < |cs|
    ensures Walk(t, cs[k] - 2, seq(|cs| - k, j requires 0 <= j < |cs| - k => cs[k + j] - 2))
    decreases |cs| - k
  {
    ChainIsWalked(t, cs, k);
    var w := seq(|cs| - k, j requires 0 <= j < |cs| - k => cs[k + j] - 2);
    if k + 1 < |cs| {
      ChainWalk(t, cs, k + 1);
      assert w[1..] == seq(|cs| - k - 1, j requires 0 <= j < |cs| - k - 1 => cs[k + 1 + j] - 2);
    } else {
      assert w[1..] == [];
    }
  }

  /** A file of 100 bytes whose chain has three clusters: a read of 600 bytes hands out more than the file holds. */
  method LongChain(area: Area) returns (out: seq<Byte>)
    requires Sized(area, 512)
    ensures var t := [0xFFF8, 0xFFFF, 3, 4, END_MARK];
      Chain(t, [2, 3, 4]) && !Clips(3, 512, 100, 0, 600) && |out| > 100
  {
    var t := [0xFFF8, 0xFFFF, 3, 4, END_MARK];
    ghost var cs := [2, 3, 4];
    assert Chain(t, cs);
    ChainWalk(t, cs, 0);
    assert seq(|cs| - 0, j requires 0 <= j < |cs| - 0 => cs[0 + j] - 2) == [0, 1, 2];
    out := FileRead(t, area, 512, 2, 100, 0, 600, [0, 1, 2]);
  }
}
