/** Facts about quotients and remainders of natural numbers. */
module Division {

  lemma {:induction false} MultipleMod(k: nat, d: nat)
    requires d > 0
    ensures (k * d) % d == 0
  {
    if k > 0 {
      MultipleMod(k - 1, d);
      assert k * d == (k - 1) * d + d;
      AddMultiple((k - 1) * d, d);
    }
  }

  lemma AddMultiple(x: nat, d: nat)
    requires d > 0 && x % d == 0
    ensures (x + d) % d == 0
  {
    var q := x / d;
    assert x == q * d;
    assert x + d == (q + 1) * d;
    Remainder(x + d, d, q + 1, 0);
  }

  lemma Monotone(a: nat, b: nat, c: nat)
    ensures a <= b ==> a * c <= b * c
  {
  }

  lemma TimesAssociative(a: int, b: int, c: int)
    ensures a * (b * c) == a * b * c
  {
  }

  /** The quotient and remainder are unique. */
  lemma Remainder(n: nat, d: nat, q: nat, r: nat)
    requires d > 0 && n == q * d + r && r < d
    ensures n / d == q && n % d == r
  {
    var q', r' := n / d, n % d;
    assert n == q' * d + r';
    Monotone(q' + 1, q, d);
    Monotone(q + 1, q', d);
  }

  lemma AddMultiples(x: nat, k: nat, m: nat)
    requires m > 0
    ensures (x + k * m) % m == x % m
  {
    var q, r := x / m, x % m;
    assert x == q * m + r;
    assert x + k * m == (q + k) * m + r;
    Remainder(x + k * m, m, q + k, r);
  }

  /** A factor may be reduced first. */
  lemma ProductMod(x: nat, y: nat, m: nat)
    requires m > 0
    ensures x % m * y % m == x * y % m
  {
    Reduced(x, x / m, x % m, y, m);
  }

  lemma Reduced(x: nat, q: nat, r: nat, y: nat, m: nat)
    requires m > 0 && x == q * m + r
    ensures r * y % m == x * y % m
  {
    Distributes(q, r, y, m);
    AddMultiples(r * y, q * y, m);
  }

  lemma Distributes(q: nat, r: nat, y: nat, m: nat)
    ensures (q * m + r) * y == r * y + q * y * m
  {
    TimesAssociative(q, m, y);
    TimesAssociative(q, y, m);
  }

  /** Reducing modulo m first changes nothing for a divisor r of m. */
  lemma ModMod(x: nat, m: nat, r: nat)
    requires m > 0 && r > 0 && m % r == 0
    ensures x % m % r == x % r
  {
    Factored(x, x / m, x % m, m, m / r, r);
  }

  lemma Factored(x: nat, q: nat, y: nat, m: nat, k: nat, r: nat)
    requires r > 0 && x == q * m + y && m == k * r
    ensures y % r == x % r
  {
    TimesAssociative(q, k, r);
    AddMultiples(y, q * k, r);
  }
}
