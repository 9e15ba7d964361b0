/** The block bitmaps of virgoos/src/fs/ext2.c as a maintainer thinks of them, without the buffer in front of the disk:
    one row of bits a group, and the count of free blocks of the super block. */
module Ext2Bitmap {
  import opened Common
  import opened Division

  /** A row is empty when its bitmap block cannot be read. */
  type Rows = seq<seq<bool>>

  datatype Place = Nowhere | At(group: nat, bit: nat)

  function FirstClear(row: seq<bool>, k: nat): (r: nat)
    requires k <= |row|
    ensures k <= r <= |row| && (r < |row| ==> !row[r])
    ensures forall j :: k <= j < r ==> row[j]
    decreases |row| - k
  {
    if k == |row| || !row[k] then k else FirstClear(row, k + 1)
  }

  /** The search of ext2_alloc_block from group g on: it gives up at a group that cannot be read. */
  function FirstFree(rows: Rows, g: nat): Place
    requires g <= |rows|
    decreases |rows| - g
  {
    if g == |rows| || rows[g] == [] then Nowhere
    else if FirstClear(rows[g], 0) < |rows[g]| then At(g, FirstClear(rows[g], 0))
    else FirstFree(rows, g + 1)
  }

  predicate Full(row: seq<bool>) {
    row != [] && forall k :: 0 <= k < |row| ==> row[k]
  }

  predicate IsClear(rows: Rows, p: Place) {
    p.At? && p.group < |rows| && p.bit < |rows[p.group]| && !rows[p.group][p.bit]
  }

  /** p is the lowest clear bit: the groups before it are readable and full, and so is its row before it. */
  predicate Lowest(rows: Rows, p: Place) {
    && IsClear(rows, p)
    && (forall g :: 0 <= g < p.group ==> Full(rows[g]))
    && (forall k :: 0 <= k < p.bit ==> rows[p.group][k])
  }

  /** There is a group that cannot be read, and those before it are full. */
  predicate Blocked(rows: Rows) {
    exists u :: 0 <= u < |rows| && rows[u] == [] && forall g :: 0 <= g < u ==> Full(rows[g])
  }

  lemma LowestUnique(rows: Rows, p: Place, q: Place)
    requires Lowest(rows, p) && Lowest(rows, q)
    ensures p == q
  {
    assert rows[p.group] != [] && !Full(rows[p.group]) && !Full(rows[q.group]);
  }

  /** What is found is the lowest clear bit, and nothing is found only when every group, up to the first unreadable one
      if there is one, is full. */
  lemma {:induction false} FirstFreeIsLowest(rows: Rows, g: nat)
    requires g <= |rows| && forall g' :: 0 <= g' < g ==> Full(rows[g'])
    ensures FirstFree(rows, g).At? ==> Lowest(rows, FirstFree(rows, g))
    ensures FirstFree(rows, g).Nowhere? ==> (forall g' :: 0 <= g' < |rows| ==> Full(rows[g'])) || Blocked(rows)
    decreases |rows| - g
  {
    if g < |rows| && rows[g] != [] && FirstClear(rows[g], 0) == |rows[g]| {
      FirstFreeIsLowest(rows, g + 1);
    }
  }

  /** A place is found exactly if it is the lowest clear bit. */
  lemma FoundExactly(rows: Rows, p: Place)
    requires p.At?
    ensures FirstFree(rows, 0) == p <==> Lowest(rows, p)
  {
    FirstFreeIsLowest(rows, 0);
    if Lowest(rows, p) {
      assert !Full(rows[p.group]) && rows[p.group] != [];
      if FirstFree(rows, 0).At? {
        LowestUnique(rows, p, FirstFree(rows, 0));
      }
    }
  }

  // ---------------------------------------------------------------- steps of the allocator

  function WithBit(rows: Rows, p: Place, v: bool): (r: Rows)
    requires p.At? && p.group < |rows| && p.bit < |rows[p.group]|
    ensures |r| == |rows| && forall g :: 0 <= g < |rows| ==> |r[g]| == |rows[g]|
  {
    rows[p.group := rows[p.group][p.bit := v]]
  }

  /** The bitmaps and s_free_blocks_count, an unsigned 32-bit number. */
  datatype State = State(rows: Rows, free: nat)

  function Less(x: nat): nat {
    (x + (TWO32 - 1)) % TWO32
  }

  function More(x: nat): nat {
    (x + 1) % TWO32
  }

  /** ext2_alloc_block without the buffer. */
  function Alloc(s: State): State {
    var p := FirstFree(s.rows, 0);
    if p.Nowhere? then s else FoundInRange(s.rows, 0); State(WithBit(s.rows, p, true), Less(s.free))
  }

  lemma {:induction false} FoundInRange(rows: Rows, g: nat)
    requires g <= |rows| && FirstFree(rows, g).At?
    ensures IsClear(rows, FirstFree(rows, g))
    decreases |rows| - g
  {
    if FirstClear(rows[g], 0) == |rows[g]| {
      FoundInRange(rows, g + 1);
    }
  }

  /** The number that stands for a place, and where ext2_free_block looks for it. */
  function NumberOf(perGroup: nat, p: Place): nat
    requires p.At?
  {
    p.group * perGroup + p.bit
  }

  function PlaceOf(perGroup: nat, b: nat): Place
    requires perGroup > 0
  {
    At(Quot(b, perGroup), Rem(b, perGroup))
  }

  predicate Inside(rows: Rows, p: Place) {
    p.At? && p.group < |rows| && p.bit < |rows[p.group]|
  }

  /** ext2_free_block without the buffer: it does not look whether the bit was set. */
  function Free(s: State, p: Place): State
    requires p.At?
  {
    if Inside(s.rows, p) then State(WithBit(s.rows, p, false), More(s.free)) else s
  }

  /** Bits past the end of a group are set in its bitmap, as mke2fs leaves them. */
  ghost predicate Padded(rows: Rows, perGroup: nat) {
    forall g, k :: 0 <= g < |rows| && perGroup <= k < |rows[g]| ==> rows[g][k]
  }

  lemma PlaceRoundTrip(perGroup: nat, p: Place)
    requires perGroup > 0 && p.At?
    ensures PlaceOf(perGroup, NumberOf(perGroup, p)) == p <==> p.bit < perGroup
  {
    hide Quot, Rem;
    if p.bit < perGroup {
      QuotRemUnique(perGroup, p.group, p.bit);
    }
  }

  lemma BitBack(rows: Rows, p: Place)
    requires IsClear(rows, p)
    ensures WithBit(WithBit(rows, p, true), p, false) == rows
  {
    var row := rows[p.group];
    assert row[p.bit := true][p.bit := false] == row;
  }

  /** Freeing the number that an allocation returned undoes it exactly if the place found lies inside its group; with
      padded bitmaps it always does. */
  lemma FreeUndoesAlloc(s: State, perGroup: nat)
    requires perGroup > 0 && s.free < TWO32 && FirstFree(s.rows, 0).At?
    ensures Padded(s.rows, perGroup) ==> FirstFree(s.rows, 0).bit < perGroup
    ensures Free(Alloc(s), PlaceOf(perGroup, NumberOf(perGroup, FirstFree(s.rows, 0)))) == s
            <==> FirstFree(s.rows, 0).bit < perGroup
  {
    var p := FirstFree(s.rows, 0);
    FoundInRange(s.rows, 0);
    PlaceRoundTrip(perGroup, p);
    var p' := PlaceOf(perGroup, NumberOf(perGroup, p));
    var t := Alloc(s);
    assert t.rows[p.group][p.bit] && !s.rows[p.group][p.bit];
    if p' == p {
      BitBack(s.rows, p);
    } else if Inside(t.rows, p') {
      assert Free(t, p').rows[p.group][p.bit];
    }
  }

  // ---------------------------------------------------------------- counting

  function Count(row: seq<bool>): (c: nat)
    ensures c <= |row|
  {
    if row == [] then 0 else (if row[|row| - 1] then 0 else 1) + Count(row[..|row| - 1])
  }

  /** Clear bits of all groups. */
  function Clear(rows: Rows): nat {
    if rows == [] then 0 else Count(rows[|rows| - 1]) + Clear(rows[..|rows| - 1])
  }

  lemma {:induction false} CountAfter(row: seq<bool>, k: nat, v: bool)
    requires k < |row|
    ensures Count(row[k := v]) == Count(row) + (if row[k] then 1 else 0) - (if v then 1 else 0)
  {
    var i := |row| - 1;
    if k < i {
      CountAfter(row[..i], k, v);
      assert row[k := v][..i] == row[..i][k := v];
    } else {
      assert row[k := v][..i] == row[..i];
    }
  }

  lemma {:induction false} ClearAfter(rows: Rows, p: Place, v: bool)
    requires Inside(rows, p)
    ensures Clear(WithBit(rows, p, v)) == Clear(rows) + (if rows[p.group][p.bit] then 1 else 0) - (if v then 1 else 0)
  {
    var i := |rows| - 1;
    if p.group < i {
      ClearAfter(rows[..i], p, v);
      assert WithBit(rows, p, v)[..i] == WithBit(rows[..i], p, v);
    } else {
      CountAfter(rows[i], p.bit, v);
      assert WithBit(rows, p, v)[..i] == rows[..i];
    }
  }

  /** The count in the super block counts the clear bits. */
  predicate Consistent(s: State) {
    s.free == Clear(s.rows)
  }

  /** An allocation keeps the count exact. */
  lemma AllocConsistent(s: State)
    requires Consistent(s) && s.free < TWO32
    ensures Consistent(Alloc(s))
  {
    var p := FirstFree(s.rows, 0);
    if p.At? {
      FoundInRange(s.rows, 0);
      ClearAfter(s.rows, p, true);
    }
  }

  /** A release keeps it exact precisely when the block was in use. */
  lemma FreeConsistentExact(s: State, p: Place)
    requires Consistent(s) && Inside(s.rows, p) && s.free < TWO32 - 1
    ensures Consistent(Free(s, p)) <==> s.rows[p.group][p.bit]
  {
    ClearAfter(s.rows, p, false);
  }

  // ---------------------------------------------------------------- runs

  datatype Event = Take | Give(place: Place)

  function Step(s: State, e: Event): State {
    match e
    case Take => Alloc(s)
    case Give(p) => if p.At? then Free(s, p) else s
  }

  function Run(s: State, es: seq<Event>): State {
    if es == [] then s else Step(Run(s, es[..|es| - 1]), es[|es| - 1])
  }

  /** Releases of blocks that were free already. */
  function Blunders(s: State, es: seq<Event>): nat {
    if es == [] then 0
    else
      var e := es[|es| - 1];
      Blunders(s, es[..|es| - 1]) + if e.Give? && IsClear(Run(s, es[..|es| - 1]).rows, e.place) then 1 else 0
  }

  /** How far the count is ahead of the clear bits. */
  function Surplus(s: State): int {
    s.free - Clear(s.rows)
  }

  predicate Congruent(a: int, b: int) {
    (a - b) % TWO32 == 0
  }

  /** Over any run the surplus of the count grows, modulo 2^32, by exactly one for each release of a free block. */
  lemma {:induction false} RunConserves(s: State, es: seq<Event>)
    ensures Congruent(Surplus(Run(s, es)), Surplus(s) + Blunders(s, es))
  {
    hide Congruent, Surplus, Step, IsClear;
    if es == [] {
      CongruentAdd(Surplus(s), Surplus(s), Surplus(s), 0);
    } else {
      var init, e := es[..|es| - 1], es[|es| - 1];
      RunConserves(s, init);
      var t := Run(s, init);
      StepConserves(t, e);
      CongruentAdd(Surplus(Run(s, es)), Surplus(t), Surplus(s) + Blunders(s, init),
                   if e.Give? && IsClear(t.rows, e.place) then 1 else 0);
    }
  }

  lemma StepConserves(t: State, e: Event)
    ensures Congruent(Surplus(Step(t, e)), Surplus(t) + if e.Give? && IsClear(t.rows, e.place) then 1 else 0)
  {
    hide WithBit, Congruent, Less, More;
    var p := FirstFree(t.rows, 0);
    Wraps(t.free);
    if e.Take? && p.At? {
      FoundInRange(t.rows, 0);
      ClearAfter(t.rows, p, true);
      CongruentShift(Less(t.free), t.free - 1, Clear(t.rows) - 1);
    } else if e.Give? && Inside(t.rows, e.place) {
      ClearAfter(t.rows, e.place, false);
      CongruentShift(More(t.free), t.free + 1, Clear(Step(t, e).rows));
    } else {
      CongruentAdd(Surplus(t), 0, 0, 0);
    }
  }

  lemma Wraps(x: nat)
    ensures Congruent(Less(x), x - 1) && Congruent(More(x), x + 1)
  {
    hide Less, More, Congruent;
    LessWraps(x);
    MoreWraps(x);
  }

  lemma LessWraps(x: nat)
    ensures Congruent(Less(x), x - 1)
  {
    var k := (x + (TWO32 - 1)) / TWO32;
    assert Less(x) - (x - 1) == (1 - k) * TWO32;
  }

  lemma MoreWraps(x: nat)
    ensures Congruent(More(x), x + 1)
  {
    var k := (x + 1) / TWO32;
    assert More(x) - (x + 1) == -k * TWO32;
  }

  lemma CongruentShift(a: int, b: int, c: int)
    requires Congruent(a, b)
    ensures Congruent(a - c, b - c)
  {
  }

  lemma CongruentAdd(a: int, b: int, c: int, d: int)
    ensures Congruent(a, a)
    ensures Congruent(a, b + d) && Congruent(b, c) ==> Congruent(a, c + d)
  {
  }

  /** Blocks that callers hold: h at the start, then those taken and not given back since. */
  function Held(s: State, h: set<Place>, es: seq<Event>): set<Place> {
    if es == [] then h
    else
      var init, e := es[..|es| - 1], es[|es| - 1];
      match e
      case Take => Held(s, h, init) + {FirstFree(Run(s, init).rows, 0)} - {Nowhere}
      case Give(p) => Held(s, h, init) - {p}
  }

  predicate AllUsed(rows: Rows, h: set<Place>) {
    forall p <- h :: Inside(rows, p) && rows[p.group][p.bit]
  }

  /** A block that somebody holds stays marked as used, so it is never handed out a second time. */
  lemma {:induction false} NeverHandedOutTwice(s: State, h: set<Place>, es: seq<Event>)
    requires AllUsed(s.rows, h)
    ensures AllUsed(Run(s, es).rows, Held(s, h, es))
    ensures FirstFree(Run(s, es).rows, 0) !in Held(s, h, es)
  {
    if es != [] {
      var init := es[..|es| - 1];
      NeverHandedOutTwice(s, h, init);
      if FirstFree(Run(s, init).rows, 0).At? {
        FoundInRange(Run(s, init).rows, 0);
      }
    }
    if FirstFree(Run(s, es).rows, 0).At? {
      FoundInRange(Run(s, es).rows, 0);
    }
  }
}
