/** The word size and the division facts the word arithmetic rests on. */
module Numbers {
  const MODULUS := 0x1_0000_0000

  lemma Multiples(d: nat, e: int)
    ensures e >= 1 ==> d * e >= d
    ensures e <= -1 ==> d * e + d <= 0
  {
  }

  lemma QuotientIs(n: nat, d: nat, q: nat, r: nat)
    requires d > 0 && n == d * q + r && r < d
    ensures n / d == q
  {
    assert n == d * (n / d) + n % d;
    assert d * (n / d - q) == r - n % d;
    Multiples(d, n / d - q);
  }

  lemma RemainderIs(n: nat, d: nat, q: nat, r: nat)
    requires d > 0 && n == d * q + r && r < d
    ensures n % d == r
  {
    QuotientIs(n, d, q, r);
  }
}
