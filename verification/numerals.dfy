/** Numbers as text: __itoa of virgoos/src/libc/libc.c:157-191 and the integer conversions of its scanf
    (libc.c:1325-1393), proved to be inverse to each other. */
module Numerals {
  import opened Division

  const TWO64: int := 0x1_0000_0000_0000_0000
  const TWO63: int := 0x8000_0000_0000_0000

  /** A digit of __itoa. */
  function DigitChar(d: nat, upper: bool): char
    requires d < 36
  {
    if d < 10 then '0' + d as char else if upper then 'A' + (d - 10) as char else 'a' + (d - 10) as char
  }

  /** The digits of n, most significant first. */
  function Text(n: nat, radix: nat, upper: bool): (s: string)
    requires 2 <= radix <= 36
    ensures |s| > 0
    decreases n
  {
    if n < radix then [DigitChar(n, upper)]
    else
      QuotSmaller(n, radix);
      Text(Quot(n, radix), radix, upper) + [DigitChar(Rem(n, radix), upper)]
  }

  lemma QuotSmaller(n: nat, radix: nat)
    requires 2 <= radix <= n
    ensures Quot(n, radix) < n && Quot(n, radix) > 0
  {
    QuotRem(n, radix);
    var q := Quot(n, radix);
    assert q * radix >= q * 2;
  }

  /** The 64-bit pattern n read as a signed number. */
  function Signed(n: nat): int
    requires n < TWO64
  {
    if n >= TWO63 then n - TWO64 else n
  }

  /** What __itoa prints. */
  function Printed(n: nat, radix: nat, upper: bool, signed: bool): string
    requires n < TWO64 && 2 <= radix <= 36
  {
    if signed && Signed(n) < 0 then "-" + Text(-Signed(n), radix, upper) else Text(n, radix, upper)
  }

  // ---------------------------------------------------------------- scanning

  predicate IsDigit(c: char) {
    '0' <= c <= '9'
  }

  predicate IsHexDigit(c: char) {
    IsDigit(c) || 'A' <= c <= 'F' || 'a' <= c <= 'f'
  }

  /** Characters that are no digit count for nothing; the loops never ask. */
  function DigitValue(c: char): nat {
    if !IsHexDigit(c) then 0
    else if c <= '9' then (c - '0') as nat
    else if c <= 'F' then (c - 'A') as nat + 10
    else (c - 'a') as nat + 10
  }

  predicate IsRadixDigit(c: char, radix: nat)
    requires radix == 10 || radix == 16
  {
    if radix == 10 then IsDigit(c) else IsHexDigit(c)
  }

  /** The number that a run of digits says. */
  function Value(s: string, radix: nat): nat
    requires (radix == 10 || radix == 16) && forall i :: 0 <= i < |s| ==> IsRadixDigit(s[i], radix)
  {
    if s == [] then 0 else Value(s[..|s| - 1], radix) * radix + DigitValue(s[|s| - 1])
  }

  /** Where the digits at the front of s end. */
  function DigitRun(s: string, radix: nat): (n: nat)
    requires radix == 10 || radix == 16
    ensures n <= |s| && (forall i :: 0 <= i < n ==> IsRadixDigit(s[i], radix))
    ensures n < |s| ==> !IsRadixDigit(s[n], radix)
  {
    if s == [] || !IsRadixDigit(s[0], radix) then 0 else 1 + DigitRun(s[1..], radix)
  }

  /** What %u or %x makes of the front of s, in 64 bits. */
  function ScannedUnsigned(s: string, radix: nat): nat
    requires radix == 10 || radix == 16
  {
    Value(s[..DigitRun(s, radix)], radix) % TWO64
  }

  /** What %lld makes of it, as a 64-bit pattern. */
  function ScannedSigned(s: string): nat {
    if s != [] && s[0] == '-' then (TWO64 - ScannedUnsigned(s[1..], 10)) % TWO64 else ScannedUnsigned(s, 10)
  }

  lemma DigitCharValue(d: nat, upper: bool, radix: nat)
    requires (radix == 10 || radix == 16) && d < radix
    ensures IsRadixDigit(DigitChar(d, upper), radix) && DigitValue(DigitChar(d, upper)) == d
    ensures DigitChar(d, upper) != '-'
  {
  }

  /** Reading the digits of a number gives the number. */
  lemma {:induction false} ValueOfText(n: nat, radix: nat, upper: bool)
    requires radix == 10 || radix == 16
    ensures var s := Text(n, radix, upper);
      && (forall i :: 0 <= i < |s| ==> IsRadixDigit(s[i], radix))
      && s[0] != '-'
      && Value(s, radix) == n
    decreases n
  {
    hide Quot, Rem, DigitChar, DigitValue, IsRadixDigit;
    if n < radix {
      DigitCharValue(n, upper, radix);
      ValueOfOne(DigitChar(n, upper), radix);
    } else {
      QuotSmaller(n, radix);
      QuotRem(n, radix);
      ValueOfText(Quot(n, radix), radix, upper);
      DigitCharValue(Rem(n, radix), upper, radix);
      var s := Text(Quot(n, radix), radix, upper);
      var c := DigitChar(Rem(n, radix), upper);
      assert (s + [c])[..|s|] == s;
    }
  }

  lemma ValueOfOne(c: char, radix: nat)
    requires (radix == 10 || radix == 16) && IsRadixDigit(c, radix)
    ensures Value([c], radix) == DigitValue(c)
  {
    assert [c][..0] == [];
  }

  const UPPER := "0123456789ABCDEFGHIJKLMNOPQRSTUVWXYZ"
  const LOWER := "0123456789abcdefghijklmnopqrstuvwxyz"

  function Power(radix: nat, e: nat): (p: nat)
    requires radix > 0
    ensures p > 0
  {
    if e == 0 then 1 else Power(radix, e - 1) * radix
  }

  lemma DigitCharIs(d: nat, upper: bool)
    requires d < 36
    ensures DigitChar(d, upper) == (if upper then UPPER else LOWER)[d]
  {
  }

  /** Dividing twice is dividing by the product. */
  lemma QuotTwice(n: nat, r: nat, p: nat)
    requires r > 0 && p > 0 && p * r > 0
    ensures Quot(Quot(n, r), p) == Quot(n, p * r)
  {
    var q := Quot(n, r);
    var t, b := Quot(q, p), Rem(q, p);
    hide Quot, Rem;
    QuotRem(n, r);
    QuotRem(q, p);
    assert q * r == t * (p * r) + b * r by {
      assert q * r == (t * p + b) * r == t * p * r + b * r;
      assert t * p * r == t * (p * r);
    }
    MulStep(b, p, r);
    ProductNotNegative(b, r);
    QuotRemUnique(p * r, t, b * r + Rem(n, r));
  }

  lemma TextSplits(n: nat, radix: nat, upper: bool)
    requires 2 <= radix <= 36
    ensures n < radix ==> Text(n, radix, upper) == [DigitChar(n, upper)]
    ensures n >= radix ==>
      0 < Quot(n, radix) < n
      && Text(n, radix, upper) == Text(Quot(n, radix), radix, upper) + [DigitChar(Rem(n, radix), upper)]
  {
    if n >= radix {
      QuotSmaller(n, radix);
    }
  }

  lemma PowerStep(radix: nat, e: nat)
    requires radix > 0
    ensures Power(radix, 0) == 1 && Power(radix, e + 1) == Power(radix, e) * radix && Power(radix, 1) == radix
  {
    assert Power(radix, 1) == Power(radix, 0) * radix;
  }

  /** The text of a number has no leading zero and as many digits as it takes. */
  lemma {:induction false} TextLength(n: nat, radix: nat, upper: bool)
    requires 2 <= radix <= 36
    ensures var s := Text(n, radix, upper); (|s| > 1 ==> Power(radix, |s| - 1) <= n) && n < Power(radix, |s|)
    decreases n
  {
    TextSplits(n, radix, upper);
    hide Quot, Rem, DigitChar, Text, Power;
    PowerStep(radix, 0);
    if n >= radix {
      var m := Quot(n, radix);
      TextLength(m, radix, upper);
      QuotRem(n, radix);
      PowerBounds(m, Rem(n, radix), radix, |Text(m, radix, upper)|);
    }
  }

  /** The text is the numeral of n in every radix: the character i places from its end stands for
      n / radix^i % radix. */
  lemma {:induction false} TextIsNumeral(n: nat, radix: nat, upper: bool, i: nat)
    requires 2 <= radix <= 36 && i < |Text(n, radix, upper)|
    ensures var s := Text(n, radix, upper);
      s[|s| - 1 - i] == (if upper then UPPER else LOWER)[Rem(Quot(n, Power(radix, i)), radix)]
    decreases n
  {
    TextSplits(n, radix, upper);
    PowerStep(radix, if i > 0 then i - 1 else 0);
    QuotOne(n);
    SmallRem(n, radix);
    hide Quot, Rem, DigitChar, Text, Power;
    if i == 0 {
      DigitCharIs(Rem(n, radix), upper);
    } else {
      var m := Quot(n, radix);
      TextIsNumeral(m, radix, upper, i - 1);
      QuotTwice(n, radix, Power(radix, i - 1));
    }
  }

  lemma SmallRem(n: nat, radix: nat)
    requires radix > 0
    ensures n < radix ==> Rem(n, radix) == n
  {
  }

  lemma QuotOne(n: nat)
    ensures Quot(n, 1) == n
  {
  }

  lemma PowerBounds(m: nat, r: nat, radix: nat, len: nat)
    requires radix > 0 && r < radix && len > 0 && m > 0 && m < Power(radix, len)
    requires len > 1 ==> Power(radix, len - 1) <= m
    ensures Power(radix, len) <= m * radix + r < Power(radix, len + 1)
  {
    var p, q := Power(radix, len - 1), Power(radix, len);
    PowerStep(radix, len - 1);
    PowerStep(radix, len);
    hide Power;
    if p < m {
      MulStep(p, m, radix);
    }
    MulStep(m, q, radix);
  }

  /** A digit run that is followed by something else ends there. */
  lemma {:induction false} DigitRunIs(s: string, rest: string, radix: nat)
    requires (radix == 10 || radix == 16) && forall i :: 0 <= i < |s| ==> IsRadixDigit(s[i], radix)
    requires rest != [] ==> !IsRadixDigit(rest[0], radix)
    ensures DigitRun(s + rest, radix) == |s|
  {
    if s == [] {
      assert s + rest == rest;
    } else {
      assert (s + rest)[1..] == s[1..] + rest;
      DigitRunIs(s[1..], rest, radix);
    }
  }

  /** Scanning what was printed gives back every unsigned 64-bit number, in decimal and in hexadecimal of either
      case. */
  lemma UnsignedRoundTrip(n: nat, radix: nat, upper: bool, rest: string)
    requires n < TWO64 && (radix == 10 || radix == 16) && (rest != [] ==> !IsRadixDigit(rest[0], radix))
    ensures ScannedUnsigned(Printed(n, radix, upper, false) + rest, radix) == n
  {
    hide Text, Value, DigitRun;
    var s := Text(n, radix, upper);
    ValueOfText(n, radix, upper);
    DigitRunIs(s, rest, radix);
    assert (s + rest)[..|s|] == s;
  }

  /** Scanning what was printed gives back every signed 64-bit number. */
  lemma SignedRoundTrip(n: nat, rest: string)
    requires n < TWO64 && (rest != [] ==> !IsDigit(rest[0]))
    ensures ScannedSigned(Printed(n, 10, false, true) + rest) == n
    ensures Printed(n, 10, false, true)
            == if n < 0x8000_0000_0000_0000 then Text(n, 10, false)
               else "-" + Text(0x1_0000_0000_0000_0000 - n, 10, false)
  {
    hide Text, ScannedUnsigned;
    if Signed(n) < 0 {
      var m := -Signed(n);
      UnsignedRoundTrip(m, 10, false, rest);
      var s := Printed(n, 10, false, true) + rest;
      assert s[1..] == Printed(m, 10, false, false) + rest;
    } else {
      UnsignedRoundTrip(n, 10, false, rest);
      ValueOfText(n, 10, false);
    }
  }

  // ---------------------------------------------------------------- the loops

  function Reversed(s: string): string {
    if s == [] then [] else Reversed(s[1..]) + [s[0]]
  }

  lemma {:induction false} ReversedOfMore(s: string, c: char)
    ensures Reversed(s + [c]) == [c] + Reversed(s)
  {
    if s != [] {
      assert (s + [c])[1..] == s[1..] + [c];
      ReversedOfMore(s[1..], c);
    } else {
      assert [] + [c] == [c] && Reversed([c]) == Reversed([]) + [c];
    }
  }

  /** The first loop of __itoa: appends the digits of n, lowest first, to s. */
  method PutDigits(n0: nat, radix: nat, upper: bool, s0: string) returns (s: string)
    requires 2 <= radix <= 36
    ensures s0 <= s && Reversed(s[|s0|..]) == Text(n0, radix, upper) && '-' !in s[|s0|..]
  {
    hide Quot, Rem, DigitChar, Text, Reversed;
    var n: nat := n0;
    ghost var low: string := "";
    s := s0;
    ReversedNothing();
    var more := true;
    while more
      invariant s == s0 + low && '-' !in low
      invariant Text(n0, radix, upper) == if more then Text(n, radix, upper) + Reversed(low) else Reversed(low)
      decreases more, n
    {
      var c := DigitChar(Rem(n, radix), upper);
      NoMinus(Rem(n, radix), upper);
      ReversedOfMore(low, c);
      TextStep(n, radix, upper);
      Regroup(if Quot(n, radix) != 0 then Text(Quot(n, radix), radix, upper) else "", c, Reversed(low));
      s, low := s + [c], low + [c];
      n := Quot(n, radix);
      more := n != 0;
    }
    assert s[|s0|..] == low;
  }

  lemma ReversedNothing()
    ensures Reversed("") == "" && forall s: string :: s + "" == s
  {
  }

  lemma NoMinus(d: nat, upper: bool)
    requires d < 36
    ensures DigitChar(d, upper) != '-'
  {
  }

  lemma Regroup(a: string, c: char, b: string)
    ensures (a + [c]) + b == a + ([c] + b) && "" + ([c] + b) == [c] + b
  {
  }

  /** The second loop of __itoa: copies the digits out in reverse, after a minus sign if there is one in front. */
  method CopyOut(s: string, ghost minus: string, ghost low: string) returns (buf: string)
    requires s == minus + low && (minus == "" || minus == "-") && '-' !in low && low != ""
    ensures buf == minus + Reversed(low)
  {
    hide Reversed;
    buf := "";
    if s[0] == '-' {
      buf := "-";
    }
    var i := |s| - 1;
    ReversedNothing();
    assert low[..|low|] == low;
    while i >= 0 && s[i] != '-'
      invariant -1 <= i < |s| && i + 1 >= |minus|
      invariant buf + Reversed(low[..i + 1 - |minus|]) == minus + Reversed(low)
    {
      var k := i - |minus|;
      assert s[i] == low[k] && low[..k + 1] == low[..k] + [low[k]];
      ReversedOfMore(low[..k], low[k]);
      buf := buf + [s[i]];
      i := i - 1;
    }
    assert low[..0] == "";
  }

  /** __itoa: returns the text and the number of its characters. */
  method Itoa(n0: nat, radix: nat, upper: bool, signed: bool) returns (buf: string, ndigits: nat)
    requires n0 < TWO64 && 2 <= radix <= 36
    ensures buf == Printed(n0, radix, upper, signed) && ndigits == |buf|
  {
    hide Text, Reversed;
    var n: nat, s := n0, "";
    ghost var minus := "";
    if signed && Signed(n) < 0 {
      s := "-";
      minus := "-";
      n := -Signed(n);
    }
    s := PutDigits(n, radix, upper, s);
    ndigits := |s|;
    ghost var low := s[|minus|..];
    ReversedLength(low);
    buf := CopyOut(s, minus, low);
  }

  lemma {:induction false} ReversedLength(s: string)
    ensures |Reversed(s)| == |s|
  {
    if s != "" {
      ReversedLength(s[1..]);
    }
  }

  lemma TextStep(n: nat, radix: nat, upper: bool)
    requires 2 <= radix <= 36
    ensures Quot(n, radix) < n || Quot(n, radix) == 0
    ensures Rem(n, radix) < radix
    ensures Text(n, radix, upper)
            == (if Quot(n, radix) != 0 then Text(Quot(n, radix), radix, upper) else "")
               + [DigitChar(Rem(n, radix), upper)]
  {
    hide Quot, Rem, DigitChar;
    QuotRem(n, radix);
    if n < radix {
      QuotRemUnique(radix, 0, n);
    } else {
      QuotSmaller(n, radix);
    }
  }

  /** The digit loops of %u, %d and %x from character k on; d is unsigned and 64 bits wide. */
  method ScanDigits(s: string, k: nat, radix: nat) returns (d: nat, next: nat)
    requires k <= |s| && (radix == 10 || radix == 16)
    ensures d == ScannedUnsigned(s[k..], radix) && next == k + DigitRun(s[k..], radix)
  {
    hide Value, DigitRun, IsRadixDigit, DigitValue;
    d, next := 0, k;
    ghost var t := s[k..];
    ValueOfNothing(radix);
    assert t[..0] == [];
    while next < |s| && IsRadixDigit(s[next], radix)
      invariant k <= next <= |s| && (forall i :: 0 <= i < next - k ==> IsRadixDigit(t[i], radix))
      invariant d == Value(t[..next - k], radix) % TWO64
    {
      assert t[next - k] == s[next];
      ValueStep(t, next - k, radix);
      WrapStep(Value(t[..next - k], radix), radix, DigitValue(s[next]));
      d := (d * radix + DigitValue(s[next])) % TWO64;
      next := next + 1;
    }
    assert t[..next - k] + t[next - k..] == t;
    assert next < |s| ==> t[next - k] == s[next];
    DigitRunIs(t[..next - k], t[next - k..], radix);
  }

  lemma ValueOfNothing(radix: nat)
    requires radix == 10 || radix == 16
    ensures Value([], radix) == 0
  {
  }

  lemma ValueStep(t: string, n: nat, radix: nat)
    requires (radix == 10 || radix == 16) && n < |t| && forall i :: 0 <= i <= n ==> IsRadixDigit(t[i], radix)
    ensures Value(t[..n + 1], radix) == Value(t[..n], radix) * radix + DigitValue(t[n])
  {
    assert t[..n + 1][..n] == t[..n];
  }

  lemma WrapStep(v: nat, radix: nat, digit: nat)
    requires radix == 10 || radix == 16
    ensures (v * radix + digit) % TWO64 == (v % TWO64 * radix + digit) % TWO64
  {
    var q, r := v / TWO64, v % TWO64;
    if radix == 10 {
      assert v * 10 + digit == q * 10 * TWO64 + (r * 10 + digit);
      WholeTurns(q * 10, r * 10 + digit);
    } else {
      assert v * 16 + digit == q * 16 * TWO64 + (r * 16 + digit);
      WholeTurns(q * 16, r * 16 + digit);
    }
  }

  lemma WholeTurns(k: nat, x: nat)
    ensures (k * TWO64 + x) % TWO64 == x % TWO64
  {
  }

  /** %lld on a string. */
  method ScanSigned(s: string) returns (d: nat)
    ensures d == ScannedSigned(s)
  {
    hide ScannedUnsigned, DigitRun;
    var k := 0;
    var minus := false;
    if s != [] && s[0] == '-' {
      minus := true;
      k := 1;
    }
    var next;
    assert s[0..] == s;
    d, next := ScanDigits(s, k, 10);
    if minus {
      d := (TWO64 - d) % TWO64;
    }
  }
}
