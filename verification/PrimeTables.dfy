/** The tables of CxxLibrary/hash.cpp: small primes, residues coprime to 210, and the
    increments of the unrolled trial division. */
module PrimeTables {
  import opened Primes

  function SmallPrime(k: nat): nat
    requires k < 48
  {
    if k < 24 then
      match k
      case 0 => 0 case 1 => 2 case 2 => 3 case 3 => 5 case 4 => 7 case 5 => 11
      case 6 => 13 case 7 => 17 case 8 => 19 case 9 => 23 case 10 => 29 case 11 => 31
      case 12 => 37 case 13 => 41 case 14 => 43 case 15 => 47 case 16 => 53 case 17 => 59
      case 18 => 61 case 19 => 67 case 20 => 71 case 21 => 73 case 22 => 79 case 23 => 83
    else
      match k
      case 24 => 89 case 25 => 97 case 26 => 101 case 27 => 103 case 28 => 107 case 29 => 109
      case 30 => 113 case 31 => 127 case 32 => 131 case 33 => 137 case 34 => 139 case 35 => 149
      case 36 => 151 case 37 => 157 case 38 => 163 case 39 => 167 case 40 => 173 case 41 => 179
      case 42 => 181 case 43 => 191 case 44 => 193 case 45 => 197 case 46 => 199 case 47 => 211
  }

  function Index(w: nat): nat
    requires w < 48
  {
    if w < 24 then
      match w
      case 0 => 1 case 1 => 11 case 2 => 13 case 3 => 17 case 4 => 19 case 5 => 23
      case 6 => 29 case 7 => 31 case 8 => 37 case 9 => 41 case 10 => 43 case 11 => 47
      case 12 => 53 case 13 => 59 case 14 => 61 case 15 => 67 case 16 => 71 case 17 => 73
      case 18 => 79 case 19 => 83 case 20 => 89 case 21 => 97 case 22 => 101 case 23 => 103
    else
      match w
      case 24 => 107 case 25 => 109 case 26 => 113 case 27 => 121 case 28 => 127 case 29 => 131
      case 30 => 137 case 31 => 139 case 32 => 143 case 33 => 149 case 34 => 151 case 35 => 157
      case 36 => 163 case 37 => 167 case 38 => 169 case 39 => 173 case 40 => 179 case 41 => 181
      case 42 => 187 case 43 => 191 case 44 => 193 case 45 => 197 case 46 => 199 case 47 => 209
  }

  /** The increments of i in the order of the unrolled loop, the last one leading to the next plane. */
  function Increment(w: nat): nat
    requires w < 48
  {
    if w < 24 then
      match w
      case 0 => 10 case 1 => 2 case 2 => 4 case 3 => 2 case 4 => 4 case 5 => 6
      case 6 => 2 case 7 => 6 case 8 => 4 case 9 => 2 case 10 => 4 case 11 => 6
      case 12 => 6 case 13 => 2 case 14 => 6 case 15 => 4 case 16 => 2 case 17 => 6
      case 18 => 4 case 19 => 6 case 20 => 8 case 21 => 4 case 22 => 2 case 23 => 4
    else
      match w
      case 24 => 2 case 25 => 4 case 26 => 8 case 27 => 6 case 28 => 4 case 29 => 6
      case 30 => 2 case 31 => 4 case 32 => 6 case 33 => 2 case 34 => 6 case 35 => 6
      case 36 => 4 case 37 => 2 case 38 => 4 case 39 => 6 case 40 => 2 case 41 => 6
      case 42 => 4 case 43 => 2 case 44 => 4 case 45 => 2 case 46 => 10 case 47 => 2
  }

  const SMALL_PRIMES: seq<nat> := seq(48, k requires 0 <= k < 48 => SmallPrime(k))

  const INDICES: seq<nat> := seq(48, w requires 0 <= w < 48 => Index(w))

  /** Where spoke w leads: the next residue, or the first one of the next plane. */
  function NextIndex(w: nat): nat
    requires w < 48
  {
    if w < 47 then Index(w + 1) else 210 + Index(0)
  }

  predicate Coprime210(n: nat) {
    n % 2 != 0 && n % 3 != 0 && n % 5 != 0 && n % 7 != 0
  }

  // ---------- the small primes ----------

  /** n is at most 211 and no prime below 17 divides it, unless it is one itself. */
  predicate PassesSmall(n: nat) {
    n <= 211 && n >= 2
    && (n == 2 || n % 2 != 0) && (n == 3 || n % 3 != 0) && (n == 5 || n % 5 != 0)
    && (n == 7 || n % 7 != 0) && (n == 11 || n % 11 != 0) && (n == 13 || n % 13 != 0)
  }

  /** The odd numbers between lo and lo + gap do not pass. */
  predicate OddsFail(lo: nat, gap: nat) {
    && gap <= 14
    && (gap > 2 ==> !PassesSmall(lo + 2)) && (gap > 4 ==> !PassesSmall(lo + 4))
    && (gap > 6 ==> !PassesSmall(lo + 6)) && (gap > 8 ==> !PassesSmall(lo + 8))
    && (gap > 10 ==> !PassesSmall(lo + 10)) && (gap > 12 ==> !PassesSmall(lo + 12))
  }

  /** Entry k is the next odd number after entry k - 1 that passes. */
  predicate NextSmall(k: nat)
    requires 3 <= k < 48
  {
    var lo, hi := SmallPrime(k - 1), SmallPrime(k);
    lo < hi && lo % 2 == 1 && hi % 2 == 1 && PassesSmall(hi) && OddsFail(lo, hi - lo)
  }

  lemma SmallRow1(k: nat)
    requires 3 <= k < 8
    ensures NextSmall(k)
  {
    match k
    case 3 => case 4 => case 5 => case 6 => case 7 =>
  }

  lemma SmallRow2(k: nat)
    requires 8 <= k < 16
    ensures NextSmall(k)
  {
    match k
    case 8 => case 9 => case 10 => case 11 => case 12 => case 13 => case 14 => case 15 =>
  }

  lemma SmallRow3(k: nat)
    requires 16 <= k < 24
    ensures NextSmall(k)
  {
    match k
    case 16 => case 17 => case 18 => case 19 => case 20 => case 21 => case 22 => case 23 =>
  }

  lemma SmallRow4(k: nat)
    requires 24 <= k < 32
    ensures NextSmall(k)
  {
    match k
    case 24 => case 25 => case 26 => case 27 => case 28 => case 29 => case 30 => case 31 =>
  }

  lemma SmallRow5(k: nat)
    requires 32 <= k < 40
    ensures NextSmall(k)
  {
    match k
    case 32 => case 33 => case 34 => case 35 => case 36 => case 37 => case 38 => case 39 =>
  }

  lemma SmallRow6(k: nat)
    requires 40 <= k < 48
    ensures NextSmall(k)
  {
    match k
    case 40 => case 41 => case 42 => case 43 => case 44 => case 45 => case 46 => case 47 =>
  }

  lemma SmallRow(k: nat)
    requires 3 <= k < 48
    ensures NextSmall(k)
  {
    hide NextSmall;
    if k < 8 {
      SmallRow1(k);
    } else if k < 16 {
      SmallRow2(k);
    } else if k < 24 {
      SmallRow3(k);
    } else if k < 32 {
      SmallRow4(k);
    } else if k < 40 {
      SmallRow5(k);
    } else {
      SmallRow6(k);
    }
  }

  lemma SmallGap(lo: nat, hi: nat, x: nat)
    requires lo % 2 == 1 && hi % 2 == 1 && lo < x < hi && x > 2 && OddsFail(lo, hi - lo)
    ensures !PassesSmall(x)
  {
    hide PassesSmall;
    EvenFails(x);
    OddDistance(lo, x);
  }

  lemma EvenFails(x: nat)
    ensures x % 2 == 0 && x > 2 ==> !PassesSmall(x)
    ensures x % 2 == 0 ==> !Coprime210(x)
  {
  }

  lemma OddDistance(lo: nat, x: nat)
    requires lo % 2 == 1 && lo < x
    ensures x % 2 == 1 ==> x >= lo + 2 && (x - lo) % 2 == 0
    ensures x % 2 == 1 && x < lo + 14 ==> x - lo in {2, 4, 6, 8, 10, 12}
  {
  }

  lemma BelowSeventeen(n: nat, d: nat)
    requires n % 2 != 0 && n % 3 != 0 && n % 5 != 0 && n % 7 != 0 && n % 11 != 0 && n % 13 != 0
    requires 2 <= d < 17
    ensures !Divides(d, n)
  {
    if Divides(d, n) {
      var p := if d % 2 == 0 then 2 else if d % 3 == 0 then 3 else if d % 5 == 0 then 5 else d;
      DividesTransitive(p, d, n);
    }
  }

  /** Up to 211 passing means being prime. */
  lemma PassesIsPrime(n: nat)
    requires n <= 211
    ensures PassesSmall(n) <==> IsPrime(n)
  {
    if PassesSmall(n) {
      forall d | 2 <= d < 17 && d < n
        ensures !Divides(d, n)
      {
        PassesNoDivisor(n, d);
      }
      if n >= 17 {
        NoSmallDivisor(n, 17);
      }
    }
    if IsPrime(n) {
      forall d | d == 2 || d == 3 || d == 5 || d == 7 || d == 11 || d == 13
        ensures n == d || n % d != 0
      {
        if d < n {
          assert !Divides(d, n);
        }
      }
    }
  }

  lemma PassesNoDivisor(n: nat, d: nat)
    requires PassesSmall(n) && 2 <= d < 17 && d < n
    ensures !Divides(d, n)
  {
    if n > 13 {
      BelowSeventeen(n, d);
    } else if n == 13 || n == 11 {
      assert d <= 12 && n % 2 != 0;
    }
  }

  /** Entry k is prime and nothing between it and entry k - 1 is. */
  lemma SmallTable(k: nat)
    requires 1 <= k < 48
    ensures SmallPrime(k - 1) < SmallPrime(k) <= 211 && IsPrime(SmallPrime(k))
    ensures forall x | SmallPrime(k - 1) < x < SmallPrime(k) :: !IsPrime(x)
  {
    hide IsPrime, PassesSmall, OddsFail;
    var lo, hi := SmallPrime(k - 1), SmallPrime(k);
    SmallStart(k);
    PassesBounds(hi);
    PassesIsPrime(hi);
    forall x | lo < x < hi
      ensures !IsPrime(x)
    {
      PassesIsPrime(x);
      if k < 3 {
        PassesBounds(x);
      } else {
        SmallGap(lo, hi, x);
      }
    }
  }

  /** Two is the first that passes and three the next. */
  lemma SmallStart(k: nat)
    requires 1 <= k < 48
    ensures if k < 3 then SmallPrime(k) == k + 1 && SmallPrime(k - 1) == (if k == 1 then 0 else 2) && PassesSmall(k + 1)
            else NextSmall(k)
    ensures k >= 3 ==> SmallPrime(k - 1) >= 2
  {
    if k >= 3 {
      SmallRow(k);
    }
  }

  lemma PassesBounds(n: nat)
    ensures PassesSmall(n) ==> 2 <= n <= 211
  {
  }

  // ---------- the wheel ----------

  /** The odd numbers between lo and lo + gap are not coprime to 210. */
  predicate OddsSkipped(lo: nat, gap: nat) {
    && gap <= 10
    && (gap > 2 ==> !Coprime210(lo + 2)) && (gap > 4 ==> !Coprime210(lo + 4))
    && (gap > 6 ==> !Coprime210(lo + 6)) && (gap > 8 ==> !Coprime210(lo + 8))
  }

  /** The increment leads from residue k to the next number coprime to 210. */
  predicate NextSpoke(k: nat)
    requires k < 48
  {
    && Index(k) < 210 && Coprime210(Index(k)) && Index(k) + Increment(k) == NextIndex(k)
    && Increment(k) > 0 && Increment(k) % 2 == 0 && OddsSkipped(Index(k), Increment(k))
  }

  lemma WheelRow1(k: nat)
    requires 0 <= k < 8
    ensures NextSpoke(k)
  {
    match k
    case 0 => case 1 => case 2 => case 3 => case 4 => case 5 => case 6 => case 7 =>
  }

  lemma WheelRow2(k: nat)
    requires 8 <= k < 16
    ensures NextSpoke(k)
  {
    match k
    case 8 => case 9 => case 10 => case 11 => case 12 => case 13 => case 14 => case 15 =>
  }

  lemma WheelRow3(k: nat)
    requires 16 <= k < 24
    ensures NextSpoke(k)
  {
    match k
    case 16 => case 17 => case 18 => case 19 => case 20 => case 21 => case 22 => case 23 =>
  }

  lemma WheelRow4(k: nat)
    requires 24 <= k < 32
    ensures NextSpoke(k)
  {
    match k
    case 24 => case 25 => case 26 => case 27 => case 28 => case 29 => case 30 => case 31 =>
  }

  lemma WheelRow5(k: nat)
    requires 32 <= k < 40
    ensures NextSpoke(k)
  {
    match k
    case 32 => case 33 => case 34 => case 35 => case 36 => case 37 => case 38 => case 39 =>
  }

  lemma WheelRow6(k: nat)
    requires 40 <= k < 48
    ensures NextSpoke(k)
  {
    match k
    case 40 => case 41 => case 42 => case 43 => case 44 => case 45 => case 46 => case 47 =>
  }

  lemma WheelRow(k: nat)
    requires 0 <= k < 48
    ensures NextSpoke(k)
  {
    hide NextSpoke;
    if k < 8 {
      WheelRow1(k);
    } else if k < 16 {
      WheelRow2(k);
    } else if k < 24 {
      WheelRow3(k);
    } else if k < 32 {
      WheelRow4(k);
    } else if k < 40 {
      WheelRow5(k);
    } else {
      WheelRow6(k);
    }
  }

  lemma WheelGap(lo: nat, gap: nat, x: nat)
    requires Coprime210(lo) && gap % 2 == 0 && lo < x < lo + gap && OddsSkipped(lo, gap)
    ensures !Coprime210(x)
  {
    OddCoprime(lo);
    hide Coprime210;
    EvenFails(x);
    OddDistance(lo, x);
  }

  lemma OddCoprime(lo: nat)
    ensures Coprime210(lo) ==> lo % 2 == 1
  {
  }

  /** Coprimality to 210 only depends on the residue. */
  lemma CoprimeShift(k: nat, r: nat)
    ensures Coprime210(210 * k + r) <==> Coprime210(r)
  {
    Mod2(105 * k, r);
    Mod3(70 * k, r);
    Mod5(42 * k, r);
    Mod7(30 * k, r);
  }

  lemma Mod2(y: nat, r: nat)
    ensures (2 * y + r) % 2 == r % 2
  {
  }

  lemma Mod3(y: nat, r: nat)
    ensures (3 * y + r) % 3 == r % 3
  {
  }

  lemma Mod5(y: nat, r: nat)
    ensures (5 * y + r) % 5 == r % 5
  {
  }

  lemma Mod7(y: nat, r: nat)
    ensures (7 * y + r) % 7 == r % 7
  {
  }

  /** One turn of the wheel: from plane k, spoke w, the increment leads to the next number
      coprime to 210, which is plane k, spoke w + 1, or spoke 0 of plane k + 1. */
  lemma WheelStep(k: nat, w: nat)
    requires w < 48
    ensures var i := 210 * k + Index(w);
            var next := i + Increment(w);
            && Index(w) < 210 && Coprime210(i) && next > i
            && next == (if w < 47 then 210 * k + Index(w + 1) else 210 * (k + 1) + Index(0))
            && forall x | i < x < next :: !Coprime210(x)
  {
    hide Coprime210, Index, Increment, OddsSkipped;
    WheelRow(w);
    var lo, gap := Index(w), Increment(w);
    var i := 210 * k + lo;
    CoprimeShift(k, lo);
    forall x | i < x < i + gap
      ensures !Coprime210(x)
    {
      WheelGap(lo, gap, x - 210 * k);
      CoprimeShift(k, x - 210 * k);
    }
  }

  /** A number above 7 that is not coprime to 210 has a divisor among 2, 3, 5 and 7. */
  lemma NotCoprime(x: nat) returns (d: nat)
    requires !Coprime210(x) && x > 7
    ensures 2 <= d < x && Divides(d, x)
  {
    d := if x % 2 == 0 then 2 else if x % 3 == 0 then 3 else if x % 5 == 0 then 5 else 7;
  }

  /** Nothing below 11 divides a number coprime to 210. */
  lemma CoprimeNoSmall(n: nat)
    requires Coprime210(n)
    ensures NoDivisorBelow(n, 11)
  {
    forall d | 2 <= d < 11
      ensures !Divides(d, n)
    {
      if Divides(d, n) {
        var p := if d % 2 == 0 then 2 else if d % 3 == 0 then 3 else d;
        DividesTransitive(p, d, n);
      }
    }
  }
}
