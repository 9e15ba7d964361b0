/** The Internet checksum of virgoos/src/network/ip.c:415-439 and virgoos/src/network/udp.c:60-103, against the one's
    complement sum of RFC 1071. */
module InternetChecksum {
  import opened Common
  import opened Division

  type Word = w: int | 0 <= w < 0x10000

  const RING: nat := 0xFFFF

  // ---------------------------------------------------------------- the sum

  /** Adding a word and folding bit 16 back in, as the loops do. */
  function AddFold(c: Word, w: Word): Word {
    var s := c as int + w as int;
    (s + (if s >= 0x10000 then 1 else 0)) % 0x10000
  }

  function Fold(ws: seq<Word>): Word {
    if ws == [] then 0 else AddFold(Fold(ws[..|ws| - 1]), ws[|ws| - 1])
  }

  function Sum(ws: seq<Word>): nat {
    if ws == [] then 0 else Sum(ws[..|ws| - 1]) + ws[|ws| - 1] as int
  }

  /** One's complement sums: integers modulo 2^16 - 1, where a sum of something is never written as 0. */
  function OnesComplement(n: nat): Word {
    if n == 0 then 0 else Rem(n - 1, RING) + 1
  }

  lemma OnesComplementAdd(n: nat, w: Word)
    ensures OnesComplement(n + w) == AddFold(OnesComplement(n), w)
  {
    hide Quot, Rem, AddFold;
    var c := OnesComplement(n);
    AddFoldIs(c, w);
    if n == 0 {
      assert w > 0 ==> 0 * RING + (w - 1) == n + w - 1;
      if 0 < w {
        QuotRemUnique(RING, 0, w - 1);
      }
    } else {
      QuotRem(n - 1, RING);
      var q := Quot(n - 1, RING);
      if c + w <= RING {
        QuotRemUnique(RING, q, c + w - 1);
      } else {
        Carry(RING, q);
        QuotRemUnique(RING, q + 1, c + w - 1 - RING);
      }
    }
  }

  lemma AddFoldIs(c: Word, w: Word)
    ensures AddFold(c, w) as int == if c + w <= RING then c + w else c + w - RING
  {
  }

  /** The folding loop computes the one's complement sum. */
  lemma {:induction false} FoldIsOnesComplement(ws: seq<Word>)
    ensures Fold(ws) == OnesComplement(Sum(ws))
  {
    hide OnesComplement, AddFold;
    if ws == [] {
      NothingSummed();
    } else {
      FoldIsOnesComplement(ws[..|ws| - 1]);
      OnesComplementAdd(Sum(ws[..|ws| - 1]), ws[|ws| - 1]);
    }
  }

  lemma NothingSummed()
    ensures Fold([]) == OnesComplement(0) == 0 && Sum([]) == 0
  {
  }

  lemma {:induction false} SumConcat(a: seq<Word>, b: seq<Word>)
    ensures Sum(a + b) == Sum(a) + Sum(b)
  {
    if b == [] {
      assert a + b == a;
    } else {
      assert (a + b)[..|a + b| - 1] == a + b[..|b| - 1];
      SumConcat(a, b[..|b| - 1]);
    }
  }

  /** The order of the words does not matter. */
  lemma {:induction false} AnyOrder(a: seq<Word>, b: seq<Word>)
    requires multiset(a) == multiset(b)
    ensures Fold(a) == Fold(b)
  {
    hide Fold, OnesComplement;
    SameSum(a, b);
    FoldIsOnesComplement(a);
    FoldIsOnesComplement(b);
  }

  lemma {:induction false} SameSum(a: seq<Word>, b: seq<Word>)
    requires multiset(a) == multiset(b)
    ensures Sum(a) == Sum(b)
    decreases |a|
  {
    if a == [] {
      assert |multiset(b)| == 0;
    } else {
      var n := |a| - 1;
      var w := a[n];
      assert a == a[..n] + [w];
      assert w in multiset(a);
      var k :| 0 <= k < |b| && b[k] == w;
      var rest := b[..k] + b[k + 1..];
      assert b == b[..k] + [w] + b[k + 1..];
      assert multiset(a[..n]) == multiset(a) - multiset{w};
      assert multiset(rest) == multiset(b) - multiset{w};
      SameSum(a[..n], rest);
      SumAround(b[..k], w, b[k + 1..]);
      SumConcat(b[..k], b[k + 1..]);
    }
  }

  // ---------------------------------------------------------------- words of a packet

  /** htons of the i-th 16-bit number in memory. */
  function WordAt(s: seq<Byte>, i: nat): Word
    requires 2 * i + 1 < |s|
  {
    256 * s[2 * i] as int + s[2 * i + 1] as int
  }

  function Words(s: seq<Byte>): (ws: seq<Word>)
    ensures |ws| == |s| / 2
  {
    seq<Word>(|s| / 2, i requires 0 <= i < |s| / 2 => WordAt(s, i))
  }

  /** htons((word)pdata[n]) with a signed char: a byte from 0x80 on drags a low byte of ones along. */
  function LastWord(b: Byte): Word {
    256 * b as int + if b >= 0x80 then 0xFF else 0
  }

  /** The words that the code adds up, and those of the standard, where an odd last byte is padded with zero. */
  function CodeWords(s: seq<Byte>): seq<Word> {
    if |s| % 2 == 1 then Words(s) + [LastWord(s[|s| - 1])] else Words(s)
  }

  function RfcWords(s: seq<Byte>): seq<Word> {
    if |s| % 2 == 1 then Words(s) + [256 * s[|s| - 1] as int] else Words(s)
  }

  /** The words of the standard: the bytes in pairs with the high one first, an odd last one followed by a zero. */
  lemma RfcWordsAre(s: seq<Byte>)
    ensures |RfcWords(s)| == (|s| + 1) / 2
    ensures forall i :: 0 <= i < |RfcWords(s)| ==> SaysPair(RfcWords(s)[i], s[2 * i], Padded(s, 2 * i + 1))
  {
    hide SaysPair, Padded;
    forall i | 0 <= i < |RfcWords(s)|
      ensures SaysPair(RfcWords(s)[i], s[2 * i], Padded(s, 2 * i + 1))
    {
      RfcWordIs(s, i);
    }
  }

  lemma RfcWordIs(s: seq<Byte>, i: nat)
    requires i < |RfcWords(s)|
    ensures 2 * i < |s| && SaysPair(RfcWords(s)[i], s[2 * i], Padded(s, 2 * i + 1))
  {
    hide SaysPair, Words;
    Halves(|s|, i);
    if i < |s| / 2 {
      WordsAre(s, i);
      assert RfcWords(s)[i] == Words(s)[i];
      PairOf(RfcWords(s)[i], s[2 * i], s[2 * i + 1]);
    } else {
      PairOf(RfcWords(s)[i], s[2 * i], 0);
    }
  }

  lemma Halves(n: nat, i: nat)
    ensures i < n / 2 ==> 2 * i + 1 < n
    ensures i == n / 2 && n % 2 == 1 ==> 2 * i == n - 1
  {
  }

  lemma WordsAre(s: seq<Byte>, i: nat)
    requires i < |s| / 2
    ensures 2 * i + 1 < |s| && Words(s)[i] as int == 256 * s[2 * i] as int + s[2 * i + 1] as int
  {
  }

  predicate SaysPair(w: Word, hi: Byte, lo: Byte) {
    w / 256 == hi as int && w % 256 == lo as int
  }

  function Padded(s: seq<Byte>, i: nat): Byte {
    if i < |s| then s[i] else 0
  }

  lemma PairOf(w: Word, hi: Byte, lo: Byte)
    requires w as int == 256 * hi as int + lo as int
    ensures SaysPair(w, hi, lo)
  {
  }

  function Complement(c: Word): Word {
    0xFFFF - c
  }

  /** What the code computes, and the Internet checksum of RFC 1071, section 1. */
  function CodeChecksum(s: seq<Byte>): Word {
    Complement(Fold(CodeWords(s)))
  }

  function RfcChecksum(s: seq<Byte>): Word {
    Complement(OnesComplement(Sum(RfcWords(s))))
  }

  /** The code computes the Internet checksum, except when the length is odd and the last byte is 0x80 or more. */
  lemma ChecksumExact(s: seq<Byte>)
    ensures CodeChecksum(s) == RfcChecksum(s) <==> |s| % 2 == 0 || s[|s| - 1] < 0x80
  {
    hide OnesComplement, Words;
    FoldIsOnesComplement(CodeWords(s));
    if |s| % 2 == 1 {
      var b := s[|s| - 1];
      SumConcat(Words(s), [LastWord(b)]);
      SumConcat(Words(s), [256 * b as int]);
      SumOfOne(LastWord(b));
      SumOfOne(256 * b as int);
      if b >= 0x80 {
        OffBy255(Sum(RfcWords(s)));
      }
    }
  }

  lemma SumOfOne(w: Word)
    ensures Sum([w]) == w as int
  {
    assert [w][..0] == [];
  }

  lemma OffBy255(n: nat)
    requires n > 0
    ensures OnesComplement(n + 255) != OnesComplement(n)
  {
  }

  // ---------------------------------------------------------------- checking a header

  /** A packet of even length whose words at one place are replaced by the checksum of the packet with zero there. */
  predicate Carries(ws: seq<Word>, k: nat)
    requires k < |ws|
  {
    ws[k] == Complement(Fold(ws[k := 0]))
  }

  /** A packet that carries its checksum sums to zero when it is checked. */
  lemma CheckedIsZero(ws: seq<Word>, k: nat)
    requires k < |ws| && Carries(ws, k)
    ensures Complement(Fold(ws)) == 0
  {
    hide OnesComplement, Fold, Sum;
    FoldIsOnesComplement(ws);
    FoldIsOnesComplement(ws[k := 0]);
    var a, c := ws[..k], ws[k + 1..];
    assert ws == a + [ws[k]] + c && ws[k := 0] == a + [0] + c;
    SumAround(a, ws[k], c);
    SumAround(a, 0, c);
    FillUp(Sum(ws[k := 0]));
  }

  /** A sum and the complement of its one's complement form add up to minus zero. */
  lemma FillUp(n: nat)
    ensures OnesComplement(n + Complement(OnesComplement(n))) == 0xFFFF
  {
  }

  /** One wrong word is always noticed, unless it is the other form of zero. */
  lemma OneWrongWord(ws: seq<Word>, k: nat, w: Word)
    requires k < |ws| && Complement(Fold(ws)) == 0
    ensures Complement(Fold(ws[k := w])) == 0 <==>
            (w == ws[k] || (w == 0 && ws[k] == 0xFFFF && Sum(ws[k := 0]) > 0) || (w == 0xFFFF && ws[k] == 0))
  {
    hide OnesComplement, Fold, Sum;
    FoldIsOnesComplement(ws);
    FoldIsOnesComplement(ws[k := w]);
    var a, c := ws[..k], ws[k + 1..];
    assert ws == a + [ws[k]] + c && ws[k := w] == a + [w] + c && ws[k := 0] == a + [0] + c;
    SumAround(a, ws[k], c);
    SumAround(a, w, c);
    SumAround(a, 0, c);
    MinusZero(Sum(a) + Sum(c), ws[k], w);
  }

  lemma SumAround(a: seq<Word>, w: Word, c: seq<Word>)
    ensures Sum(a + [w] + c) == Sum(a) + Sum(c) + w
  {
    SumConcat(a + [w], c);
    SumConcat(a, [w]);
    SumOfOne(w);
  }

  lemma MinusZero(rest: nat, v: Word, w: Word)
    requires OnesComplement(rest + v) == 0xFFFF
    ensures OnesComplement(rest + w) == 0xFFFF <==>
            (w == v || (w == 0 && v == 0xFFFF && rest > 0) || (w == 0xFFFF && v == 0))
  {
  }

  // ---------------------------------------------------------------- two parts

  /** Words of a packet whose first part has even length. */
  lemma CodeWordsConcat(a: seq<Byte>, b: seq<Byte>)
    requires |a| % 2 == 0
    ensures CodeWords(a + b) == CodeWords(a) + CodeWords(b)
  {
    hide LastWord, Words;
    WordsConcat(a, b);
    if |b| % 2 == 1 {
      assert (a + b)[|a + b| - 1] == b[|b| - 1];
    }
  }

  lemma WordsConcat(a: seq<Byte>, b: seq<Byte>)
    requires |a| % 2 == 0
    ensures Words(a + b) == Words(a) + Words(b)
  {
    var m, n := |a| / 2, |b| / 2;
    assert |a + b| / 2 == m + n;
    forall i | 0 <= i < m + n
      ensures Words(a + b)[i] == (Words(a) + Words(b))[i]
    {
      if i < m {
        assert WordAt(a + b, i) == WordAt(a, i);
      } else {
        assert (a + b)[2 * i] == b[2 * (i - m)] && (a + b)[2 * i + 1] == b[2 * (i - m) + 1];
        assert WordAt(a + b, i) == WordAt(b, i - m);
      }
    }
  }
}
