/** Unsigned division by a variable number, in steps that the verifier can follow. */
module Division {
  /** x / y */
  function Quot(x: nat, y: nat): (q: nat)
    requires y > 0
  {
    x / y
  }

  /** x % y */
  function Rem(x: nat, y: nat): (r: nat)
    requires y > 0
    ensures r < y
  {
    x % y
  }

  lemma Carry(n: nat, i: nat)
    ensures (i + 1) * n == i * n + n
  {
  }

  lemma {:induction false} MulStep(a: nat, b: nat, n: nat)
    requires a < b
    ensures a * n + n <= b * n
    decreases b
  {
    var c := b - 1;
    Carry(n, c);
    if a < c {
      MulStep(a, c, n);
    }
  }

  lemma QuotientUnique(n: nat, q: nat, r: nat, q': nat, r': nat)
    requires r < n && r' < n && q * n + r == q' * n + r'
    ensures q == q' && r == r'
  {
    if q < q' {
      MulStep(q, q', n);
    } else if q' < q {
      MulStep(q', q, n);
    }
  }

  lemma QuotRem(x: nat, n: nat)
    requires n > 0
    ensures Quot(x, n) * n + Rem(x, n) == x
  {
  }

  lemma QuotRemUnique(n: nat, q: nat, r: nat)
    requires r < n
    ensures q * n + r >= 0 && Quot(q * n + r, n) == q && Rem(q * n + r, n) == r
  {
    QuotRem(q * n + r, n);
    QuotientUnique(n, q, r, Quot(q * n + r, n), Rem(q * n + r, n));
  }

  lemma ProductNotNegative(a: nat, b: nat)
    ensures a * b >= 0
  {
  }
}
