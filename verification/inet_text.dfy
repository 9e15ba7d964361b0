/** inet_ntoa and inet_aton of virgoos/src/network/socket.c:1140-1232. */
module InetText {
  import opened Common
  import opened Numerals

  /** htonl and ntohl on a little-endian machine. */
  function Swap(x: nat): (r: nat)
    requires x < TWO32
    ensures r < TWO32
  {
    x % 256 * 0x100_0000 + x / 256 % 256 * 0x1_0000 + x / 0x1_0000 % 256 * 256 + x / 0x100_0000
  }

  /** Byte i of a 32-bit number, highest first. */
  function ByteOf(x: nat, i: nat): (b: nat)
    requires x < TWO32 && i < 4
    ensures b < 256
  {
    if i == 0 then x / 0x100_0000 else if i == 1 then x / 0x1_0000 % 256 else if i == 2 then x / 256 % 256 else x % 256
  }

  /** Four bytes, the highest first. */
  function Pack(a: nat, b: nat, c: nat, d: nat): (x: nat)
    requires a < 256 && b < 256 && c < 256 && d < 256
    ensures x < TWO32
  {
    ((a * 256 + b) * 256 + c) * 256 + d
  }

  lemma SwapTwice(x: nat)
    requires x < TWO32
    ensures Swap(Swap(x)) == x
  {
    BytesMake(x);
    SwapBytes(x);
    SwapBytes(Swap(x));
    BytesMake(Swap(Swap(x)));
  }

  lemma BytesMake(x: nat)
    requires x < TWO32
    ensures x == Pack(ByteOf(x, 0), ByteOf(x, 1), ByteOf(x, 2), ByteOf(x, 3))
  {
    var x1, x2, x3 := x / 256, x / 0x1_0000, x / 0x100_0000;
    assert x == x1 * 256 + ByteOf(x, 3);
    assert x1 == x2 * 256 + ByteOf(x, 2);
    assert x2 == x3 * 256 + ByteOf(x, 1);
    assert x3 == ByteOf(x, 0);
  }

  lemma SwapBytes(x: nat)
    requires x < TWO32
    ensures forall i :: 0 <= i < 4 ==> ByteOf(Swap(x), i) == ByteOf(x, 3 - i)
  {
    BytesOfSum(Swap(x), ByteOf(x, 3), ByteOf(x, 2), ByteOf(x, 1), ByteOf(x, 0));
  }

  lemma BytesOfSum(x: nat, a: nat, b: nat, c: nat, d: nat)
    requires a < 256 && b < 256 && c < 256 && d < 256 && x == a * 0x100_0000 + b * 0x1_0000 + c * 256 + d
    ensures x < TWO32 && ByteOf(x, 0) == a && ByteOf(x, 1) == b && ByteOf(x, 2) == c && ByteOf(x, 3) == d
  {
    assert x / 0x100_0000 == a;
    assert x / 0x1_0000 == a * 256 + b;
    assert x / 256 == a * 0x1_0000 + b * 256 + c;
    assert (a * 256 + b) % 256 == b;
    assert (a * 0x1_0000 + b * 256 + c) % 256 == c;
  }

  function Number(x: nat): string {
    Text(x, 10, false)
  }

  /** inet_ntoa. */
  function Ntoa(addr: nat): string
    requires addr < TWO32
  {
    var x := Swap(addr);
    Number(ByteOf(x, 0)) + "." + (Number(ByteOf(x, 1)) + "." + (Number(ByteOf(x, 2)) + "." + Number(ByteOf(x, 3))))
  }

  /** On a little-endian machine the text starts with the byte at the lowest address. */
  lemma NtoaIs(a: nat, b: nat, c: nat, d: nat)
    requires a < 256 && b < 256 && c < 256 && d < 256
    ensures Ntoa(a + 0x100 * b + 0x1_0000 * c + 0x100_0000 * d)
            == Number(a) + "." + Number(b) + "." + Number(c) + "." + Number(d)
  {
    hide Number, Swap, ByteOf;
    var x := a + 0x100 * b + 0x1_0000 * c + 0x100_0000 * d;
    BytesOfSum(x, d, c, b, a);
    SwapBytes(x);
    assert ByteOf(Swap(x), 0) == ByteOf(x, 3 - 0) && ByteOf(Swap(x), 3) == ByteOf(x, 3 - 3);
    assert ByteOf(Swap(x), 1) == ByteOf(x, 3 - 1) && ByteOf(Swap(x), 2) == ByteOf(x, 3 - 2);
    JoinLeft(Number(a), Number(b), Number(c), Number(d));
  }

  lemma JoinLeft(a: string, b: string, c: string, d: string)
    ensures a + "." + (b + "." + (c + "." + d)) == a + "." + b + "." + c + "." + d
  {
  }

  // ---------------------------------------------------------------- parsing

  function DotAt(s: string): (d: nat)
    ensures d <= |s| && (d < |s| ==> s[d] == '.') && forall i :: 0 <= i < d ==> s[i] != '.'
  {
    if s == [] || s[0] == '.' then 0 else 1 + DotAt(s[1..])
  }

  /** The stretches between the dots. */
  function Parts(s: string): (ps: seq<string>)
    ensures |ps| > 0
  {
    if DotAt(s) == |s| then [s] else [s[..DotAt(s)]] + Parts(s[DotAt(s) + 1..])
  }

  /** A part that inet_aton takes: at most three characters, whose leading digits say at most 255. */
  predicate PartTaken(p: string) {
    |p| <= 3 && ScannedUnsigned(p, 10) <= 255
  }

  datatype Parsed = Rejected | Parsed(addr: nat)

  function Combine(ps: seq<string>): (x: nat)
    requires |ps| == 4 && forall i :: 0 <= i < 4 ==> PartTaken(ps[i])
    ensures x < TWO32
  {
    assert PartTaken(ps[0]) && PartTaken(ps[1]) && PartTaken(ps[2]) && PartTaken(ps[3]);
    Pack(ScannedUnsigned(ps[0], 10), ScannedUnsigned(ps[1], 10), ScannedUnsigned(ps[2], 10), ScannedUnsigned(ps[3], 10))
  }

  /** inet_aton: what it takes and what it makes of it. */
  function Aton(src: string): Parsed {
    if |src| > 15 || |Parts(src)| != 4 then Rejected
    else if forall i :: 0 <= i < 4 ==> PartTaken(Parts(src)[i]) then Parsed(Swap(Combine(Parts(src))))
    else Rejected
  }

  lemma DotAtIs(s: string, d: nat)
    requires d <= |s| && (d < |s| ==> s[d] == '.') && forall i :: 0 <= i < d ==> s[i] != '.'
    ensures DotAt(s) == d
  {
  }

  lemma PartsOfJoin(a: string, b: string)
    requires '.' !in a
    ensures Parts(a + "." + b) == [a] + Parts(b) && Parts(a) == [a]
  {
    var s := a + "." + b;
    DotAtIs(s, |a|);
    DotAtIs(a, |a|);
    assert s[..|a|] == a && s[|a| + 1..] == b;
  }

  /** The text of a byte. */
  lemma NumberOfByte(x: nat)
    requires x < 256
    ensures |Number(x)| <= 3 && '.' !in Number(x) && PartTaken(Number(x)) && ScannedUnsigned(Number(x), 10) == x
  {
    hide Value, DigitRun;
    ValueOfText(x, 10, false);
    UnsignedRoundTrip(x, 10, false, "");
    assert Number(x) + "" == Number(x);
    NumberLength(x);
  }

  lemma NumberLength(x: nat)
    requires x < 256
    ensures |Number(x)| <= 3
  {
    TextStep(x, 10, false);
    TextStep(x / 10, 10, false);
    TextStep(x / 100, 10, false);
  }

  /** Every 32-bit address survives printing and parsing. */
  lemma AddressRoundTrip(addr: nat)
    requires addr < TWO32
    ensures Aton(Ntoa(addr)) == Parsed(addr) && |Ntoa(addr)| <= 15
  {
    hide Number, Swap, ByteOf, PartTaken, Parts;
    var x := Swap(addr);
    var n0, n1, n2, n3 := Number(ByteOf(x, 0)), Number(ByteOf(x, 1)), Number(ByteOf(x, 2)), Number(ByteOf(x, 3));
    NumberOfByte(ByteOf(x, 0));
    NumberOfByte(ByteOf(x, 1));
    NumberOfByte(ByteOf(x, 2));
    NumberOfByte(ByteOf(x, 3));
    PartsOfJoin(n3, "");
    PartsOfJoin(n2, n3);
    PartsOfJoin(n1, n2 + "." + n3);
    PartsOfJoin(n0, n1 + "." + (n2 + "." + n3));
    assert Parts(Ntoa(addr)) == [n0, n1, n2, n3];
    BytesMake(x);
    SwapTwice(addr);
  }

  /** What is taken need not be an address: parts may be empty, and what follows the digits of a part is ignored. */
  lemma JunkIsTaken()
    ensures Aton("1x..2.3") == Parsed(Swap(0x0100_0203))
  {
    hide Parts, ScannedUnsigned, Swap, Aton;
    JunkParts();
    JunkPart("1", "x", '1');
    JunkPart("2", "", '2');
    JunkPart("3", "", '3');
    assert "1" + "x" == "1x" && "2" + "" == "2" && "3" + "" == "3";
    NoDigits();
    TakenParts("1x..2.3", "1x", "", "2", "3");
  }

  lemma TakenParts(src: string, a: string, b: string, c: string, d: string)
    requires |src| <= 15 && Parts(src) == [a, b, c, d] && PartTaken(a) && PartTaken(b) && PartTaken(c) && PartTaken(d)
    ensures var sa, sb := ScannedUnsigned(a, 10), ScannedUnsigned(b, 10);
      var sc, sd := ScannedUnsigned(c, 10), ScannedUnsigned(d, 10);
      sa < 256 && sb < 256 && sc < 256 && sd < 256 && Aton(src) == Parsed(Swap(Pack(sa, sb, sc, sd)))
  {
    hide Swap, Parts, ScannedUnsigned, Pack;
  }

  lemma JunkParts()
    ensures Parts("1x..2.3") == ["1x", "", "2", "3"]
  {
    hide Parts;
    PartsOfJoin("1x", ".2.3");
    PartsOfJoin("", "2.3");
    PartsOfJoin("2", "3");
    PartsOfJoin("3", "");
    assert "1x" + "." + ".2.3" == "1x..2.3" && "" + "." + "2.3" == ".2.3" && "2" + "." + "3" == "2.3";
  }

  lemma JunkPart(s: string, rest: string, c: char)
    requires s == [c] && IsDigit(c) && (rest != "" ==> !IsDigit(rest[0]))
    ensures ScannedUnsigned(s + rest, 10) == DigitValue(c)
  {
    hide DigitRun, Value;
    DigitRunIs(s, rest, 10);
    ValueOfOne(c, 10);
    assert (s + rest)[..1] == s;
  }

  lemma NoDigits()
    ensures ScannedUnsigned("", 10) == 0
  {
    assert ""[..0] == "";
  }

  // ---------------------------------------------------------------- the loops

  method StrChr(s: string, p: nat) returns (d: nat)
    requires p <= |s|
    ensures d == p + DotAt(s[p..])
  {
    d := p;
    while d < |s| && s[d] != '.'
      invariant p <= d <= |s| && forall i :: 0 <= i < d - p ==> s[p..][i] != '.'
    {
      assert s[p..][d - p] == s[d];
      d := d + 1;
    }
    assert d < |s| ==> s[p..][d - p] == s[d];
    DotAtIs(s[p..], d - p);
  }

  /** temp = temp * 256 + utmp */
  function Shifted(x: nat, v: nat): nat {
    (x * 256 + v) % TWO32
  }

  /** The address so far, of the parts that were taken. */
  function Prefix(ps: seq<string>): nat
    requires |ps| <= 4
  {
    if ps == [] then 0 else Shifted(Prefix(ps[..|ps| - 1]), ScannedUnsigned(ps[|ps| - 1], 10))
  }

  lemma PrefixStep(ps: seq<string>, p: string)
    requires |ps| < 4
    ensures Prefix(ps + [p]) == Shifted(Prefix(ps), ScannedUnsigned(p, 10))
  {
    hide ScannedUnsigned;
    assert (ps + [p])[..|ps|] == ps;
  }

  lemma PrefixIsCombine(ps: seq<string>)
    requires |ps| == 4 && forall i :: 0 <= i < 4 ==> PartTaken(ps[i])
    ensures Prefix(ps) == Combine(ps)
  {
    hide ScannedUnsigned, Prefix;
    assert PartTaken(ps[0]) && PartTaken(ps[1]) && PartTaken(ps[2]) && PartTaken(ps[3]);
    var a, b := ScannedUnsigned(ps[0], 10), ScannedUnsigned(ps[1], 10);
    var c, d := ScannedUnsigned(ps[2], 10), ScannedUnsigned(ps[3], 10);
    assert ps == [ps[0], ps[1], ps[2], ps[3]] && Combine(ps) == Pack(a, b, c, d);
    hide *;
    PrefixOfFour(ps[0], ps[1], ps[2], ps[3]);
    PackShifts(a, b, c, d);
  }

  lemma PrefixOfFour(p: string, q: string, r: string, s: string)
    ensures Prefix([p, q, r, s])
            == Shifted(Shifted(Shifted(Shifted(0, ScannedUnsigned(p, 10)), ScannedUnsigned(q, 10)),
                               ScannedUnsigned(r, 10)), ScannedUnsigned(s, 10))
  {
    hide ScannedUnsigned, Shifted;
    assert [p, q, r, s][..3] == [p, q, r] && [p, q, r][..2] == [p, q] && [p, q][..1] == [p] && [p][..0] == [];
    assert Prefix([p]) == Shifted(0, ScannedUnsigned(p, 10));
    assert Prefix([p, q]) == Shifted(Prefix([p]), ScannedUnsigned(q, 10));
    assert Prefix([p, q, r]) == Shifted(Prefix([p, q]), ScannedUnsigned(r, 10));
  }

  lemma PackShifts(a: nat, b: nat, c: nat, d: nat)
    requires a < 256 && b < 256 && c < 256 && d < 256
    ensures Shifted(Shifted(Shifted(Shifted(0, a), b), c), d) == Pack(a, b, c, d)
  {
    hide Shifted;
    ShiftIn(0, a);
    ShiftIn(a, b);
    ShiftIn(a * 256 + b, c);
    ShiftIn((a * 256 + b) * 256 + c, d);
  }

  lemma ShiftIn(x: nat, v: nat)
    requires x < 0x100_0000 && v < 256
    ensures Shifted(x, v) == x * 256 + v
  {
  }

  /** What holds before part cnt is looked at. */
  ghost predicate Parsing(src: string, cnt: nat, p: nat, temp: nat, done: seq<string>) {
    && |done| == cnt <= 4 && temp == Prefix(done) && (forall i :: 0 <= i < cnt ==> PartTaken(done[i]))
    && if cnt < 4 then p <= |src| && Parts(src) == done + Parts(src[p..]) else Parts(src) == done
  }

  lemma ParsingStarts(src: string)
    ensures Parsing(src, 0, 0, 0, [])
  {
    hide Parts;
    assert src[0..] == src && [] + Parts(src) == Parts(src);
  }

  /** A part that is taken. */
  lemma ParsingGoesOn(src: string, cnt: nat, p: nat, temp: nat, done: seq<string>, p1: nat)
    requires Parsing(src, cnt, p, temp, done) && cnt < 4 && p <= p1 <= |src| && p1 == p + DotAt(src[p..])
    requires (p1 < |src| <==> cnt < 3) && PartTaken(src[p..p1])
    ensures Parsing(src, cnt + 1, p1 + 1, Shifted(temp, ScannedUnsigned(src[p..p1], 10)), done + [src[p..p1]])
  {
    hide ScannedUnsigned, DotAt, PartTaken, Parts, Prefix;
    PartsUnfold(src, p, p1);
    PrefixStep(done, src[p..p1]);
    var part := src[p..p1];
    if p1 < |src| {
      assert done + ([part] + Parts(src[p1 + 1..])) == done + [part] + Parts(src[p1 + 1..]);
    }
  }

  /** A part that is not taken, or a wrong number of them. */
  lemma ParsingFails(src: string, cnt: nat, p: nat, temp: nat, done: seq<string>, p1: nat)
    requires Parsing(src, cnt, p, temp, done) && cnt < 4 && p <= p1 <= |src| && p1 == p + DotAt(src[p..])
    requires (p1 < |src|) != (cnt < 3) || !PartTaken(src[p..p1])
    ensures Aton(src) == Rejected
  {
    hide ScannedUnsigned, DotAt, PartTaken, Parts, Prefix, Combine, Swap;
    PartsUnfold(src, p, p1);
    if |Parts(src)| == 4 {
      assert Parts(src)[cnt] == src[p..p1];
    }
  }

  /** inet_aton. */
  method InetAton(src: string) returns (r: Parsed)
    ensures r == Aton(src)
  {
    hide ScannedUnsigned, DotAt, Swap, Combine, Parsing, Parts;
    if |src| > 15 {
      return Rejected;
    }
    var cnt: nat, p: nat, temp: nat := 0, 0, 0;
    ghost var done: seq<string> := [];
    ParsingStarts(src);
    while cnt < 4
      invariant cnt <= 4 && (cnt < 4 ==> p <= |src|) && Parsing(src, cnt, p, temp, done)
      decreases 4 - cnt
    {
      var p1 := StrChr(src, p);
      if p1 < |src| {
        if cnt == 3 {
          ParsingFails(src, cnt, p, temp, done, p1);
          return Rejected;
        }
      } else if cnt != 3 {
        ParsingFails(src, cnt, p, temp, done, p1);
        return Rejected;
      }
      var part := src[p..p1];
      if |part| > 3 {
        ParsingFails(src, cnt, p, temp, done, p1);
        return Rejected;
      }
      var utmp, next := ScanDigits(part, 0, 10);
      assert part[0..] == part;
      if utmp > 255 {
        ParsingFails(src, cnt, p, temp, done, p1);
        return Rejected;
      }
      ParsingGoesOn(src, cnt, p, temp, done, p1);
      done := done + [part];
      temp := (temp * 256 + utmp) % TWO32;
      p := p1 + 1;
      cnt := cnt + 1;
    }
    ParsingEnds(src, p, temp, done);
    r := Parsed(Swap(temp));
  }

  lemma ParsingEnds(src: string, p: nat, temp: nat, done: seq<string>)
    requires Parsing(src, 4, p, temp, done) && |src| <= 15
    ensures temp < TWO32 && Aton(src) == Parsed(Swap(temp))
  {
    hide Swap, ScannedUnsigned, Prefix;
    PrefixIsCombine(done);
  }

  lemma PartsUnfold(src: string, p: nat, p1: nat)
    requires p <= |src| && p1 == p + DotAt(src[p..])
    ensures p1 <= |src|
    ensures Parts(src[p..]) == if p1 == |src| then [src[p..p1]] else [src[p..p1]] + Parts(src[p1 + 1..])
  {
    hide *;
    var t, d := src[p..], DotAt(src[p..]);
    PartsOnce(t);
    Stretches(src, p, p1);
    assert d == |t| <==> p1 == |src|;
    if p1 < |src| {
      assert t[..d] == src[p..p1] && t[d + 1..] == src[p1 + 1..];
    }
  }

  lemma PartsOnce(t: string)
    ensures Parts(t) == if DotAt(t) == |t| then [t] else [t[..DotAt(t)]] + Parts(t[DotAt(t) + 1..])
  {
    hide DotAt;
  }

  lemma Stretches(s: string, p: nat, q: nat)
    requires p <= q <= |s|
    ensures s[p..][..q - p] == s[p..q]
    ensures if q == |s| then s[p..] == s[p..q] else s[p..][q - p + 1..] == s[q + 1..]
  {
  }
}
