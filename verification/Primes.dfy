/** Divisors, primes and trial division. */
module Primes {
  import opened Division

  ghost predicate Divides(d: nat, n: nat) {
    d > 0 && n % d == 0
  }

  ghost predicate IsPrime(n: nat) {
    n >= 2 && forall d | 2 <= d < n :: !Divides(d, n)
  }

  /** No number from 2 up to m - 1 divides n. */
  ghost predicate NoDivisorBelow(n: nat, m: nat) {
    forall d | 2 <= d < m :: !Divides(d, n)
  }

  lemma DividesProduct(d: nat, k: nat)
    requires d > 0
    ensures Divides(d, k * d)
  {
    assert (k * d) % d == 0 by {
      MultipleMod(k, d);
    }
  }

  lemma DividesTransitive(d: nat, e: nat, n: nat)
    requires Divides(d, e) && Divides(e, n)
    ensures Divides(d, n)
  {
    var a, b := e / d, n / e;
    assert n == b * e && e == a * d;
    assert n == (b * a) * d by {
      TimesAssociative(b, a, d);
    }
    DividesProduct(d, b * a);
  }

  /** Skipping a number with a divisor of its own loses no divisor of n. */
  lemma SkipComposite(n: nat, m: nat, d: nat)
    requires NoDivisorBelow(n, m) && 2 <= d < m && Divides(d, m)
    ensures NoDivisorBelow(n, m + 1)
  {
    if Divides(m, n) {
      DividesTransitive(d, m, n);
    }
  }

  /** Skipping numbers that are not prime loses no divisor. */
  lemma {:induction false} SkipGap(n: nat, lo: nat, hi: nat)
    requires 2 <= lo <= hi && NoDivisorBelow(n, lo)
    requires forall x | lo <= x < hi :: !IsPrime(x)
    ensures NoDivisorBelow(n, hi)
    decreases hi - lo
  {
    if lo < hi {
      assert !IsPrime(lo);
      var d :| 2 <= d < lo && Divides(d, lo);
      SkipComposite(n, lo, d);
      SkipGap(n, lo + 1, hi);
    }
  }

  lemma ExtendNoDivisor(n: nat, m: nat)
    requires NoDivisorBelow(n, m) && !Divides(m, n)
    ensures NoDivisorBelow(n, m + 1)
  {
  }

  /** Trial division may stop once the quotient drops below the divisor. */
  lemma NoSmallDivisor(n: nat, m: nat)
    requires n >= 2 && m >= 2 && NoDivisorBelow(n, m) && n / m < m
    ensures IsPrime(n)
  {
    forall d | 2 <= d < n
      ensures !Divides(d, n)
    {
      if Divides(d, n) {
        Cofactor(n, d);
        var e := n / d;
        DividesProduct(e, d);
        assert Divides(e, n);
        assert d >= m && e >= m;
        TwoLargeFactors(n, m, d, e);
      }
    }
  }

  lemma Cofactor(n: nat, d: nat)
    requires 2 <= d < n && Divides(d, n)
    ensures n == d * (n / d) && 2 <= n / d < n
  {
    var e := n / d;
    assert n == d * e;
    Monotone(e, 1, d);
    Monotone(2, d, e);
  }

  lemma TwoLargeFactors(n: nat, m: nat, d: nat, e: nat)
    requires n == d * e && d >= m && e >= m && m > 0
    ensures n / m >= m
  {
    Monotone(m, d, e);
    Monotone(m, e, m);
    var q := n / m;
    assert n == q * m + n % m;
    Monotone(q + 1, m, m);
  }
}
