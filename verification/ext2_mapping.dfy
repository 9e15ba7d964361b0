/** How virgoos/src/fs/ext2.c finds the disk block of a file block: through the direct pointers of the inode or through
    up to three levels of pointer blocks.  A transfer computes the path of its first block in closed form and then moves
    a cursor; this module says when the cursor stays right. */
module Ext2Mapping {
  import opened Division

  const NDIR_BLOCKS: nat := 12
  const IND_BLOCK: nat := 12
  const DIND_BLOCK: nat := 13
  const TIND_BLOCK: nat := 14
  const N_BLOCKS: nat := 15

  /** The indices that lead to a data block pointer: dir_idx, ind_idx and ind2_idx of the code. */
  datatype Path =
    | Direct(n: nat)
    | Ind(dir: nat)
    | Ind2(ind: nat, dir: nat)
    | Ind3(ind2: nat, ind: nat, dir: nat)

  /** Number of pointers in a block of a file system that ext2_mount accepts (blocks of at least 1 KB). */
  type Fanout = n: nat | n >= 256 witness 256

  function FirstInd2(n: Fanout): nat {
    IND_BLOCK + n
  }

  function FirstInd3(n: Fanout): nat {
    FirstInd2(n) + Square(n)
  }

  function Square(n: nat): nat {
    n * n
  }

  /** The closed form with which a transfer starts. */
  function PathOf(n: Fanout, c: nat): Path {
    if c < NDIR_BLOCKS then Direct(c)
    else if c < FirstInd2(n) then Ind(c - NDIR_BLOCKS)
    else if c < FirstInd3(n) then Ind2(Quot(c - FirstInd2(n), n), Rem(c - FirstInd2(n), n))
    else
      var r := c - FirstInd3(n);
      Positive(n);
      Ind3(Quot(r, Square(n)), Quot(Rem(r, Square(n)), n), Rem(Rem(r, Square(n)), n))
  }

  lemma Positive(n: Fanout)
    ensures Square(n) > n
  {
    assert n * n >= 256 * n;
  }

  /** What the loop of ext2_inode_io takes the end of a pointer block from: the absolute number of the file block, as
      the code has it, or its number relative to the first block of its level, as the closed form has it. */
  datatype Tests = Absolute | Relative

  /** A pointer block of m pointers (or of pointer blocks with m pointers) ends before file block c. */
  predicate EndsAt(t: Tests, c: nat, first: nat, m: nat)
    requires m > 0
  {
    if t.Absolute? then Rem(c, m) == 0 else c >= first && Rem(c - first, m) == 0
  }

  /** The cursor after block c - 1 moves to block c. */
  function Advance(t: Tests, n: Fanout, p: Path, c: nat): Path {
    Positive(n);
    if c < NDIR_BLOCKS then Direct(c)
    else if c == IND_BLOCK then Ind(0)
    else if c == FirstInd2(n) then Ind2(0, 0)
    else if c == FirstInd3(n) then Ind3(0, 0, 0)
    else match p
      case Ind3(k, i, d) =>
        if EndsAt(t, c, FirstInd3(n), Square(n)) then Ind3(k + 1, 0, 0)
        else if EndsAt(t, c, FirstInd3(n), n) then Ind3(k, i + 1, 0)
        else Ind3(k, i, d + 1)
      case Ind2(i, d) => if EndsAt(t, c, FirstInd2(n), n) then Ind2(i + 1, 0) else Ind2(i, d + 1)
      case Ind(d) => Ind(d + 1)
      case Direct(_) => p
  }

  /** Block numbers where the written cursor goes wrong: past the first double-indirect block, the numbers that are
      0 modulo the fan-out (it moves on too early) and those that are 12 (it should move on and does not). */
  predicate Trips(n: Fanout, c: nat) {
    c > FirstInd2(n) && c != FirstInd3(n) && (Rem(c, n) == 0 || Rem(c, n) == NDIR_BLOCKS)
  }

  /** Two indices address less than the square of the fan-out. */
  lemma InSquare(n: nat, i: nat, d: nat)
    requires i < n && d < n
    ensures 0 <= i * n + d < Square(n)
    ensures i * n + d + 1 == Square(n) <==> i + 1 == n && d + 1 == n
  {
    MulStep(i, n, n);
    if i + 1 < n {
      MulStep(i + 1, n, n);
      assert (i + 1) * n == i * n + n;
    } else {
      assert i * n + n == n * n;
    }
  }

  // ---------------------------------------------------------------- closed form

  lemma PathOfInd2(n: Fanout, i: nat, d: nat)
    requires i < n && d < n
    ensures FirstInd2(n) <= FirstInd2(n) + i * n + d && PathOf(n, FirstInd2(n) + i * n + d) == Ind2(i, d)
  {
    hide Quot, Rem, Square;
    InSquare(n, i, d);
    QuotRemUnique(n, i, d);
  }

  lemma PathOfInd3(n: Fanout, k: nat, i: nat, d: nat)
    requires i < n && d < n
    ensures 0 <= k * Square(n) + i * n + d && PathOf(n, FirstInd3(n) + k * Square(n) + i * n + d) == Ind3(k, i, d)
  {
    hide Quot, Rem, Square;
    InSquare(n, i, d);
    QuotRemUnique(Square(n), k, i * n + d);
    QuotRemUnique(n, i, d);
  }

  /** The file block that a path leads to. */
  function BlockOf(n: Fanout, p: Path): int {
    match p
    case Direct(c) => c
    case Ind(d) => NDIR_BLOCKS + d
    case Ind2(i, d) => FirstInd2(n) + i * n + d
    case Ind3(k, i, d) => FirstInd3(n) + k * Square(n) + i * n + d
  }

  /** The indices of a path lie inside their blocks. */
  predicate InBlocks(n: Fanout, p: Path) {
    match p
    case Direct(c) => c < NDIR_BLOCKS
    case Ind(d) => d < n
    case Ind2(i, d) => i < n && d < n
    case Ind3(_, i, d) => i < n && d < n
  }

  /** The closed form loses nothing. */
  lemma PathOfInverts(n: Fanout, c: nat)
    ensures BlockOf(n, PathOf(n, c)) == c && InBlocks(n, PathOf(n, c))
  {
    hide Quot, Rem, Square;
    Positive(n);
    if FirstInd2(n) <= c < FirstInd3(n) {
      Ind2InBlocks(n, c - FirstInd2(n));
    } else if c >= FirstInd3(n) {
      var r := c - FirstInd3(n);
      QuotRem(r, Square(n));
      Ind2InBlocks(n, Rem(r, Square(n)));
    }
  }

  lemma Ind2InBlocks(n: Fanout, s: nat)
    requires s < Square(n)
    ensures Quot(s, n) * n + Rem(s, n) == s && Quot(s, n) < n
  {
    QuotRem(s, n);
    if Quot(s, n) >= n {
      QuotTooLarge(n, Quot(s, n), s);
    }
  }

  lemma QuotTooLarge(n: nat, q: nat, s: nat)
    requires q >= n && q * n <= s
    ensures s >= Square(n)
  {
    assert (q - n) * n >= 0;
    assert q * n == (q - n) * n + n * n;
  }

  /** A file within the reach of the format keeps the outermost index inside its block too. */
  lemma OutermostInBlock(n: Fanout, c: nat)
    requires FirstInd3(n) <= c < FirstInd3(n) + n * Square(n)
    ensures PathOf(n, c).Ind3? && PathOf(n, c).ind2 < n
  {
    hide Square, Rem, Quot;
    Positive(n);
    var r := c - FirstInd3(n);
    QuotRem(r, Square(n));
    var k := Quot(r, Square(n));
    if k > n {
      MulStep(n, k, Square(n));
    }
  }

  /** Distinct file blocks have distinct pointer slots. */
  lemma DistinctBlocksDistinctPaths(n: Fanout, c: nat, c': nat)
    requires c != c'
    ensures PathOf(n, c) != PathOf(n, c')
  {
    PathOfInverts(n, c);
    PathOfInverts(n, c');
  }

  // ---------------------------------------------------------------- one step of the cursor

  /** What moving on by one block means for the indices. */
  function Successor(n: Fanout, p: Path): Path {
    match p
    case Direct(c) => if c + 1 < NDIR_BLOCKS then Direct(c + 1) else Ind(0)
    case Ind(d) => if d + 1 < n then Ind(d + 1) else Ind2(0, 0)
    case Ind2(i, d) => if d + 1 < n then Ind2(i, d + 1) else if i + 1 < n then Ind2(i + 1, 0) else Ind3(0, 0, 0)
    case Ind3(k, i, d) =>
      if d + 1 < n then Ind3(k, i, d + 1) else if i + 1 < n then Ind3(k, i + 1, 0) else Ind3(k + 1, 0, 0)
  }

  /** The path of the block after the one that p leads to. */
  lemma NextPath(n: Fanout, p: Path)
    requires InBlocks(n, p)
    ensures BlockOf(n, p) >= 0 && PathOf(n, BlockOf(n, p) + 1) == Successor(n, p)
  {
    hide Quot, Rem, Square;
    Positive(n);
    match p
    case Direct(_) =>
    case Ind(_) =>
      PathOfInd2(n, 0, 0);
    case Ind2(i, d) =>
      InSquare(n, i, d);
      Carry(n, i);
      if d + 1 < n {
        PathOfInd2(n, i, d + 1);
      } else if i + 1 < n {
        PathOfInd2(n, i + 1, 0);
      } else {
        PathOfInd3(n, 0, 0, 0);
      }
    case Ind3(k, i, d) =>
      InSquare(n, i, d);
      Carry(n, i);
      CarrySquare(n, k);
      PathOfInd3(n, k, i, d);
      if d + 1 < n {
        PathOfInd3(n, k, i, d + 1);
      } else if i + 1 < n {
        PathOfInd3(n, k, i + 1, 0);
      } else {
        PathOfInd3(n, k + 1, 0, 0);
      }
  }

  lemma CarrySquare(n: nat, k: nat)
    ensures (k + 1) * Square(n) == k * Square(n) + Square(n)
  {
    Carry(Square(n), k);
  }

  lemma SuccessorIsNext(n: Fanout, c: nat)
    ensures PathOf(n, c + 1) == Successor(n, PathOf(n, c))
  {
    PathOfInverts(n, c);
    NextPath(n, PathOf(n, c));
  }

  /** c modulo the fan-out, when c follows the block whose last index is d. */
  lemma RemainderAfter(n: Fanout, q: nat, d: nat, c: nat)
    requires d < n && c == NDIR_BLOCKS + q * n + d + 1
    ensures Rem(c, n) == 0 <==> d + 1 + NDIR_BLOCKS == n
    ensures Rem(c, n) == NDIR_BLOCKS <==> d + 1 == n
  {
    hide Rem, Quot;
    if NDIR_BLOCKS + d + 1 < n {
      QuotRemUnique(n, q, NDIR_BLOCKS + d + 1);
    } else {
      Carry(n, q);
      QuotRemUnique(n, q + 1, NDIR_BLOCKS + d + 1 - n);
    }
  }

  /** One step of the written cursor from a right path is right exactly if the block does not trip it. */
  lemma AdvanceExact(n: Fanout, c: nat)
    requires c > 0
    ensures Advance(Absolute, n, PathOf(n, c - 1), c) == PathOf(n, c) <==> !Trips(n, c)
  {
    hide Quot, Rem, Square, PathOf;
    Positive(n);
    SuccessorIsNext(n, c - 1);
    PathOfInverts(n, c - 1);
    match PathOf(n, c - 1)
    case Direct(_) =>
    case Ind(_) =>
    case Ind2(i, d) =>
      InSquare(n, i, d);
      Carry(n, i);
      RemainderAfter(n, i + 1, d, c);
      ProductNotNegative(i, n);
    case Ind3(k, i, d) =>
      Ind3Remainder(n, k, i, d, c);
  }

  lemma Ind3Remainder(n: Fanout, k: nat, i: nat, d: nat, c: nat)
    requires i < n && d < n && c == FirstInd3(n) + k * Square(n) + i * n + d + 1
    ensures Rem(c, n) == 0 <==> d + 1 + NDIR_BLOCKS == n
    ensures Rem(c, n) == NDIR_BLOCKS <==> d + 1 == n
    ensures Square(n) > 0 && (Rem(c, Square(n)) == 0 ==> Rem(c, n) == 0)
    ensures c > FirstInd3(n)
  {
    Positive(n);
    ProductNotNegative(k, Square(n));
    ProductNotNegative(i, n);
    var q := 1 + n + k * n + i;
    assert q * n == n + Square(n) + k * Square(n) + i * n by {
      Distribute(n, k, i);
    }
    ProductNotNegative(k, n);
    RemainderAfter(n, q, d, c);
    if Rem(c, Square(n)) == 0 {
      MultipleOfSquare(n, c);
    }
  }

  lemma Distribute(n: nat, k: nat, i: nat)
    ensures (1 + n + k * n + i) * n == n + Square(n) + k * Square(n) + i * n
  {
    assert (1 + n + k * n + i) * n == n + n * n + (k * n) * n + i * n;
    assert (k * n) * n == k * (n * n);
  }

  lemma MultipleOfSquare(n: Fanout, c: nat)
    requires Square(n) > 0 && Rem(c, Square(n)) == 0
    ensures Rem(c, n) == 0
  {
    hide Quot, Rem;
    var q := Quot(c, Square(n));
    QuotRem(c, Square(n));
    assert q * Square(n) == (q * n) * n;
    ProductNotNegative(q, n);
    QuotRemUnique(n, q * n, 0);
  }

  // ---------------------------------------------------------------- whole transfers

  /** The cursor at block c of a transfer that started at block c0. */
  function Cursor(t: Tests, n: Fanout, c0: nat, c: nat): Path
    requires c0 <= c
    decreases c - c0
  {
    if c == c0 then PathOf(n, c0) else Advance(t, n, Cursor(t, n, c0, c - 1), c)
  }

  ghost predicate Smooth(n: Fanout, c0: nat, c1: nat) {
    forall c :: c0 < c <= c1 ==> !Trips(n, c)
  }

  /** The written cursor equals the closed form at every block of a transfer exactly if no block of it trips it. */
  lemma {:induction false} CursorExact(n: Fanout, c0: nat, c1: nat)
    requires c0 <= c1
    ensures (forall c :: c0 <= c <= c1 ==> Cursor(Absolute, n, c0, c) == PathOf(n, c)) <==> Smooth(n, c0, c1)
    decreases c1 - c0
  {
    hide PathOf, Advance, Trips, Quot, Rem, Square;
    if c0 < c1 {
      CursorExact(n, c0, c1 - 1);
      AdvanceExact(n, c1);
    }
  }

  /** The intended cursor always equals the closed form. */
  lemma {:induction false} CursorDesignRight(n: Fanout, c0: nat, c: nat)
    requires c0 <= c
    ensures Cursor(Relative, n, c0, c) == PathOf(n, c)
    decreases c - c0
  {
    if c0 < c {
      CursorDesignRight(n, c0, c - 1);
      AdvanceDesignRight(n, c);
    }
  }

  lemma AdvanceDesignRight(n: Fanout, c: nat)
    requires c > 0
    ensures Advance(Relative, n, PathOf(n, c - 1), c) == PathOf(n, c)
  {
    hide Quot, Rem, Square, PathOf;
    Positive(n);
    SuccessorIsNext(n, c - 1);
    PathOfInverts(n, c - 1);
    match PathOf(n, c - 1)
    case Direct(_) =>
    case Ind(_) =>
    case Ind2(i, d) =>
      InSquare(n, i, d);
      ProductNotNegative(i, n);
      RelativeRemainder(n, i, d, i * n + d + 1);
    case Ind3(k, i, d) =>
      ProductNotNegative(k, Square(n));
      ProductNotNegative(i, n);
      RelativeRemainder3(n, k, i, d, c - FirstInd3(n));
  }

  lemma RelativeRemainder(n: Fanout, i: nat, d: nat, r: nat)
    requires d < n && r == i * n + d + 1
    ensures Rem(r, n) == 0 <==> d + 1 == n
  {
    hide Quot, Rem;
    if d + 1 < n {
      QuotRemUnique(n, i, d + 1);
    } else {
      Carry(n, i);
      QuotRemUnique(n, i + 1, 0);
    }
  }

  lemma RelativeRemainder3(n: Fanout, k: nat, i: nat, d: nat, r: nat)
    requires i < n && d < n && r == k * Square(n) + i * n + d + 1
    ensures Square(n) > 0 && (Rem(r, n) == 0 <==> d + 1 == n)
    ensures Rem(r, Square(n)) == 0 <==> d + 1 == n && i + 1 == n
  {
    hide Quot, Rem, Square;
    Positive(n);
    ProductNotNegative(k, n);
    SquareProduct(n, k, i);
    RelativeRemainder(n, k * n + i, d, r);
    InSquare(n, i, d);
    if d + 1 == n && i + 1 == n {
      CarrySquare(n, k);
      QuotRemUnique(Square(n), k + 1, 0);
    } else {
      QuotRemUnique(Square(n), k, i * n + d + 1);
    }
  }

  lemma SquareProduct(n: nat, k: nat, i: nat)
    ensures (k * n + i) * n == k * Square(n) + i * n
  {
    assert (k * n) * n == k * (n * n);
  }

  // ---------------------------------------------------------------- after a trip

  /** The first block of a transfer that trips the cursor. */
  ghost predicate FirstTrip(n: Fanout, c0: nat, c1: nat, c: nat) {
    c0 < c <= c1 && Trips(n, c) && Smooth(n, c0, c - 1)
  }

  lemma {:induction false} FirstTripExists(n: Fanout, c0: nat, c1: nat) returns (c: nat)
    requires !Smooth(n, c0, c1)
    ensures FirstTrip(n, c0, c1, c)
    decreases c1 - c0
  {
    hide Trips;
    if Smooth(n, c0, c1 - 1) {
      c := c1;
    } else {
      c := FirstTripExists(n, c0, c1 - 1);
    }
  }

  lemma BlockOfInverts(n: Fanout, p: Path)
    requires InBlocks(n, p)
    ensures BlockOf(n, p) >= 0 && PathOf(n, BlockOf(n, p)) == p
  {
    hide Quot, Rem, Square;
    Positive(n);
    match p
    case Direct(_) =>
    case Ind(_) =>
    case Ind2(i, d) => PathOfInd2(n, i, d);
    case Ind3(k, i, d) =>
      ProductNotNegative(k, Square(n));
      ProductNotNegative(i, n);
      PathOfInd3(n, k, i, d);
  }

  /** At file block c, the cursor stands s blocks too far. */
  ghost predicate Ahead(n: Fanout, c: nat, s: nat, p: Path) {
    && p == PathOf(n, c + s)
    && (s == 0 || s == NDIR_BLOCKS || (s == n + NDIR_BLOCKS && p.Ind3?))
    && c >= FirstInd2(n)
    && (if c < FirstInd3(n) then p.Ind2? else p.Ind3?)
  }

  lemma AheadInd2(n: Fanout, c: nat, s: nat, i: nat, d: nat) returns (s': nat)
    requires i < n && d < n && c - 1 + s == FirstInd2(n) + i * n + d && (s == 0 || s == NDIR_BLOCKS)
    requires FirstInd2(n) < c < FirstInd3(n)
    ensures var p' := Advance(Absolute, n, Ind2(i, d), c);
      p'.Ind2? && (InBlocks(n, p') ==> BlockOf(n, p') == c + s')
    ensures s' == s || s' == NDIR_BLOCKS
    ensures InBlocks(n, Advance(Absolute, n, Ind2(i, d), c)) && Trips(n, c) && s == 0 ==> s' > 0
  {
    hide Quot, Rem, Square;
    Positive(n);
    Carry(n, i);
    ProductNotNegative(i, n);
    if s == 0 {
      RemainderAfter(n, i + 1, d, c);
    } else {
      RelativeRemainder(n, i + 1, d, c);
    }
    s' := if Rem(c, n) == 0 then NDIR_BLOCKS else s;
  }

  lemma AheadInd3(n: Fanout, c: nat, s: nat, k: nat, i: nat, d: nat) returns (s': nat)
    requires i < n && d < n && c - 1 + s == FirstInd3(n) + k * Square(n) + i * n + d
    requires s == 0 || s == NDIR_BLOCKS || s == n + NDIR_BLOCKS
    requires c > FirstInd3(n)
    ensures var p' := Advance(Absolute, n, Ind3(k, i, d), c);
      p'.Ind3? && (InBlocks(n, p') ==> BlockOf(n, p') == c + s')
    ensures s' == s || s' == NDIR_BLOCKS || s' == n + NDIR_BLOCKS
    ensures InBlocks(n, Advance(Absolute, n, Ind3(k, i, d), c)) && Trips(n, c) && s == 0 ==> s' > 0
  {
    hide Quot, Rem, Square;
    Positive(n);
    Carry(n, i);
    CarrySquare(n, k);
    CarrySquare(n, k + 1);
    ProductNotNegative(i, n);
    ProductNotNegative(k, Square(n));
    if s == 0 {
      Ind3Remainder(n, k, i, d, c);
      if d + 1 + NDIR_BLOCKS == n {
        Ind3Boundary(n, k, i, c);
      }
    } else if s == NDIR_BLOCKS {
      Ind3Ahead(n, k, i, d, c);
    } else {
      RelativeRemainder3(n, k + 1, i, d, c);
      LastRow(n, i + 1);
    }
    s' := if Rem(c, Square(n)) == 0 then n + NDIR_BLOCKS else if Rem(c, n) == 0 && s == 0 then NDIR_BLOCKS else s;
  }

  /** Rows of pointer blocks end at these numbers, and so do the squares when the row is the last but one. */
  lemma Ind3Ahead(n: Fanout, k: nat, i: nat, d: nat, c: nat)
    requires i < n && d < n && c == n + Square(n) + k * Square(n) + i * n + d + 1
    ensures Rem(c, n) == 0 <==> d + 1 == n
    ensures Square(n) > 0 && (Rem(c, Square(n)) == 0 <==> d + 1 == n && i + 2 == n)
    ensures i + 2 == n ==> i * n + n + n == Square(n)
  {
    hide Quot, Rem, Square;
    Positive(n);
    Carry(n, i);
    Carry(n, i + 1);
    CarrySquare(n, k);
    CarrySquare(n, k + 1);
    if i + 1 < n {
      RelativeRemainder3(n, k + 1, i + 1, d, c);
      LastRow(n, i + 2);
    } else {
      LastRow(n, i + 1);
      RelativeRemainder3(n, k + 2, 0, d, c);
    }
  }

  lemma LastRow(n: nat, i: nat)
    ensures i == n ==> i * n == Square(n)
  {
  }

  lemma Ind3Boundary(n: Fanout, k: nat, i: nat, c: nat)
    requires i < n && c == n + Square(n) + k * Square(n) + i * n + n
    ensures Square(n) > 0 && (Rem(c, Square(n)) == 0 <==> i + 2 == n)
    ensures i + 2 == n ==> i * n + n + n == Square(n)
  {
    hide Quot, Rem, Square;
    Ind3Ahead(n, k, i, n - 1, c);
  }

  /** Where the written cursor goes at a trip and after it: it stands 12 blocks too far, or those and one more pointer
      block too far, until it leaves the pointer blocks of its level. */
  lemma AheadStaysAhead(n: Fanout, c: nat, s: nat, p: Path) returns (s': nat)
    requires c > FirstInd2(n) && Ahead(n, c - 1, s, p)
    ensures var p' := Advance(Absolute, n, p, c);
      && (InBlocks(n, p') ==> Ahead(n, c, s', p'))
      && (InBlocks(n, p') && Trips(n, c) && s == 0 ==> s' > 0)
      && (c == FirstInd3(n) ==> InBlocks(n, p') && s' == 0)
  {
    hide Quot, Rem, Square, PathOf;
    Positive(n);
    PathOfInverts(n, c - 1 + s);
    var p' := Advance(Absolute, n, p, c);
    if c == FirstInd3(n) {
      s' := 0;
      PathOfInd3(n, 0, 0, 0);
      return;
    }
    match p {
      case Ind2(i, d) => s' := AheadInd2(n, c, s, i, d);
      case Ind3(k, i, d) => s' := AheadInd3(n, c, s, k, i, d);
    }
    if InBlocks(n, p') {
      BlockOfInverts(n, p');
    }
  }

  /** With 1 KB blocks, a transfer that starts at the beginning of a file and reaches block 512 goes astray there. */
  lemma CursorFailure()
    ensures !Smooth(256, 0, 512) && Cursor(Absolute, 256, 0, 512) != PathOf(256, 512)
  {
    assert Trips(256, 512);
    assert Smooth(256, 0, 511);
    CursorExact(256, 0, 511);
    AdvanceExact(256, 512);
  }
}
