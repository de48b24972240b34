/** The largest prime below 2^32, by which CxxLibrary/hash.cpp bounds its argument: powers to a
    modulus, the order of an element, and certificates of primality. */
module LargePrimes {
  import opened Division
  import opened Primes
  import opened PrimeTables

  // ---------- powers to a modulus ----------

  function PowMod(b: nat, n: nat, m: nat): (r: nat)
    requires m > 0
    ensures r < m
  {
    if n == 0 then 1 % m else b * PowMod(b, n - 1, m) % m
  }

  lemma PowStep(b: nat, n: nat, m: nat)
    requires m > 0 && n > 0
    ensures PowMod(b, n, m) == b * PowMod(b, n - 1, m) % m
  {
  }

  lemma {:induction false} PowSum(b: nat, x: nat, y: nat, m: nat)
    requires m > 0
    ensures PowMod(b, x + y, m) == PowMod(b, x, m) * PowMod(b, y, m) % m
  {
    hide PowMod;
    if x == 0 {
      PowZero(b, m);
      ProductMod(1, PowMod(b, y, m), m);
      OneTimes(PowMod(b, y, m), m);
    } else {
      PowSum(b, x - 1, y, m);
      PowStep(b, x, m);
      PowStep(b, x + y, m);
      FactorMoves(b, PowMod(b, x - 1, m), PowMod(b, y, m), m);
    }
  }

  lemma FactorMoves(b: nat, p: nat, q: nat, m: nat)
    requires m > 0
    ensures b * (p * q % m) % m == b * p % m * q % m
  {
    ProductMod(p * q, b, m);
    TimesAssociative(b, p, q);
    ProductMod(b * p, q, m);
    Commutes(p * q % m, b);
    Commutes(p * q, b);
  }

  lemma PowZero(b: nat, m: nat)
    requires m > 0
    ensures PowMod(b, 0, m) == 1 % m
  {
  }

  lemma OneTimes(x: nat, m: nat)
    requires x < m
    ensures 1 * x % m == x
  {
    Remainder(x, m, 0, x);
  }

  lemma Commutes(x: int, y: int)
    ensures x * y == y * x
  {
  }

  lemma FirstPower(b: nat, m: nat)
    requires b < m && m > 1
    ensures PowMod(b, 1, m) == b
  {
    hide PowMod;
    PowZero(b, m);
    PowStep(b, 1, m);
    Remainder(1, m, 0, 1);
    Remainder(b, m, 0, b);
    assert b * 1 == b;
  }

  lemma {:induction false} PowProduct(b: nat, x: nat, y: nat, m: nat)
    requires m > 0
    ensures PowMod(b, x * y, m) == PowMod(PowMod(b, x, m), y, m)
  {
    hide PowMod;
    if y == 0 {
      PowZero(b, m);
      PowZero(PowMod(b, x, m), m);
      assert x * y == 0;
    } else {
      PowProduct(b, x, y - 1, m);
      assert x * y == x + x * (y - 1);
      PowSum(b, x, x * (y - 1), m);
      PowStep(PowMod(b, x, m), y, m);
    }
  }

  lemma {:induction false} PowOfOne(n: nat, m: nat)
    requires m > 1
    ensures PowMod(1, n, m) == 1
  {
    Remainder(1, m, 0, 1);
    if n > 0 {
      PowOfOne(n - 1, m);
    }
  }

  /** A power to a modulus m, seen by a divisor r of m. */
  lemma {:induction false} PowDown(b: nat, n: nat, m: nat, r: nat)
    requires m > 0 && Divides(r, m)
    ensures PowMod(b, n, m) % r == PowMod(b, n, r)
  {
    hide PowMod;
    if n == 0 {
      PowZero(b, m);
      PowZero(b, r);
      ModMod(1, m, r);
    } else {
      PowDown(b, n - 1, m, r);
      PowStep(b, n, m);
      PowStep(b, n, r);
      var p := PowMod(b, n - 1, m);
      ModMod(b * p, m, r);
      ProductMod(p, b, r);
      Commutes(b, p);
      Commutes(b, p % r);
    }
  }

  /** Squaring a known power, and multiplying by b: j and k are the quotients. */
  lemma Square(b: nat, n: nat, m: nat, x: nat, j: nat, y: nat)
    requires m > 0 && PowMod(b, n, m) == x && x * x == j * m + y && y < m
    ensures PowMod(b, 2 * n, m) == y
  {
    hide PowMod;
    PowSum(b, n, n, m);
    Remainder(x * x, m, j, y);
  }

  lemma SquareTimes(b: nat, n: nat, m: nat, x: nat, j: nat, y: nat, k: nat, z: nat)
    requires m > 0 && PowMod(b, n, m) == x && x * x == j * m + y && y < m && b * y == k * m + z && z < m
    ensures PowMod(b, 2 * n + 1, m) == z
  {
    hide PowMod;
    Square(b, n, m, x, j, y);
    PowStep(b, 2 * n + 1, m);
    Remainder(b * y, m, k, z);
  }

  // ---------- the order of an element ----------

  /** Every proper divisor of q divides p. */
  ghost predicate ProperDivide(q: nat, p: nat) {
    forall k | 0 < k < q && Divides(k, q) :: Divides(k, p)
  }

  /** If a power below the q-th is 1, then so is the p-th. */
  lemma {:induction false} EarlyOne(b: nat, q: nat, p: nat, r: nat, k: nat)
    requires r > 1 && PowMod(b, q, r) == 1 && ProperDivide(q, p)
    requires 0 < k < q && PowMod(b, k, r) == 1
    ensures PowMod(b, p, r) == 1
    decreases k
  {
    hide PowMod, Divides;
    var d, e := q % k, q / k;
    PowMultiple(b, k, e, r);
    assert q == k * e + d;
    PowSum(b, k * e, d, r);
    OneTimes(PowMod(b, d, r), r);
    if d > 0 {
      EarlyOne(b, q, p, r, d);
    } else {
      IsDivisor(k, q);
      DivisorMeans(k, p);
      PowMultiple(b, k, p / k, r);
    }
  }

  lemma PowMultiple(b: nat, k: nat, e: nat, r: nat)
    requires r > 1 && PowMod(b, k, r) == 1
    ensures PowMod(b, k * e, r) == 1
  {
    hide PowMod;
    PowProduct(b, k, e, r);
    PowOfOne(e, r);
  }

  lemma IsDivisor(k: nat, q: nat)
    ensures k > 0 && q % k == 0 <==> Divides(k, q)
  {
  }

  lemma DivisorMeans(k: nat, p: nat)
    requires Divides(k, p)
    ensures k > 0 && p == k * (p / k)
  {
  }

  /** If two of the first q powers are equal, then the p-th is 1. */
  lemma SameTwice(b: nat, q: nat, p: nat, r: nat, i: nat, j: nat)
    requires r > 1 && PowMod(b, q, r) == 1 && ProperDivide(q, p) && i < j < q
    ensures PowMod(b, i, r) == PowMod(b, j, r) ==> PowMod(b, p, r) == 1
  {
    hide PowMod, ProperDivide;
    if PowMod(b, i, r) == PowMod(b, j, r) {
      PowSum(b, q - i, i, r);
      PowSum(b, q - i, j, r);
      PowSum(b, q, j - i, r);
      OneTimes(PowMod(b, j - i, r), r);
      assert q - i + i == q && q - i + j == q + (j - i);
      EarlyOne(b, q, p, r, j - i);
    }
  }

  lemma ZeroStays(b: nat, q: nat, r: nat, i: nat)
    requires r > 0 && i <= q && PowMod(b, i, r) == 0
    ensures PowMod(b, q, r) == 0
  {
    hide PowMod;
    PowSum(b, q - i, i, r);
    assert PowMod(b, q - i, r) * PowMod(b, i, r) == 0;
  }

  lemma NeverZero(b: nat, q: nat, r: nat, i: nat)
    requires r > 1 && PowMod(b, q, r) == 1 && i < q
    ensures 0 < PowMod(b, i, r) < r
  {
    hide PowMod;
    if PowMod(b, i, r) == 0 {
      ZeroStays(b, q, r, i);
    }
  }

  /** The first n powers. */
  ghost function Powers(b: nat, n: nat, r: nat): set<nat>
    requires r > 0
  {
    if n == 0 then {} else Powers(b, n - 1, r) + {PowMod(b, n - 1, r)}
  }

  lemma {:induction false} PowersMembers(b: nat, n: nat, r: nat, x: nat)
    requires r > 0
    ensures x in Powers(b, n, r) <==> exists i :: 0 <= i < n && PowMod(b, i, r) == x
  {
    hide PowMod;
    if n > 0 {
      PowersMembers(b, n - 1, r, x);
      if x == PowMod(b, n - 1, r) {
        assert PowMod(b, n - 1, r) == x;
      } else if exists i :: 0 <= i < n && PowMod(b, i, r) == x {
        var i :| 0 <= i < n && PowMod(b, i, r) == x;
        assert i < n - 1;
      }
    }
  }

  lemma {:induction false} PowersCount(b: nat, q: nat, p: nat, r: nat, n: nat)
    requires r > 1 && PowMod(b, q, r) == 1 && ProperDivide(q, p) && PowMod(b, p, r) != 1 && n <= q
    ensures |Powers(b, n, r)| == n
  {
    hide PowMod, ProperDivide;
    if n > 0 {
      PowersCount(b, q, p, r, n - 1);
      PowersMembers(b, n - 1, r, PowMod(b, n - 1, r));
      forall i | 0 <= i < n - 1
        ensures PowMod(b, i, r) != PowMod(b, n - 1, r)
      {
        SameTwice(b, q, p, r, i, n - 1);
      }
    }
  }

  /** A set of numbers from 1 to r - 1 has at most r - 1 members. */
  lemma {:induction false} FewBelow(s: set<nat>, r: nat)
    requires r > 0 && forall x | x in s :: 0 < x < r
    ensures |s| <= r - 1
  {
    if r == 1 {
      assert s == {};
    } else {
      FewBelow(s - {r - 1}, r - 1);
    }
  }

  /** An element whose order is q lies in a modulus above q. */
  lemma OrderIsBelow(b: nat, q: nat, p: nat, r: nat)
    requires r > 1 && PowMod(b, q, r) == 1 && ProperDivide(q, p) && PowMod(b, p, r) != 1
    ensures q < r
  {
    hide PowMod, ProperDivide;
    PowersCount(b, q, p, r, q);
    forall x | x in Powers(b, q, r)
      ensures 0 < x < r
    {
      PowersMembers(b, q, r, x);
      var i :| 0 <= i < q && PowMod(b, i, r) == x;
      NeverZero(b, q, r, i);
    }
    FewBelow(Powers(b, q, r), r);
  }

  // ---------- certificates ----------

  /** If c - 1 has an inverse modulo n, then c is not 1 modulo any divisor of n. */
  lemma InverseStays(n: nat, c: nat, u: nat, d: nat)
    requires n > 1 && 2 <= d && Divides(d, n) && c > 0 && u * (c - 1) % n == 1
    ensures c % d != 1
  {
    ModMod(u * (c - 1), n, d);
    Remainder(1, d, 0, 1);
    if c % d == 1 {
      Remainder(c - 1, d, c / d, 0);
      DividesProduct(c - 1, u);
      MultipleOf(u, c - 1, d);
    }
  }

  lemma MultipleOf(u: nat, x: nat, d: nat)
    requires d > 0 && x % d == 0
    ensures u * x % d == 0
  {
    var k := x / d;
    assert x == k * d;
    TimesAssociative(u, k, d);
    MultipleMod(u * k, d);
  }

  /** Every divisor of n is above q. */
  lemma DivisorsAbove(n: nat, q: nat, p: nat, b: nat, u: nat, d: nat)
    requires n > 1 && PowMod(b, q, n) == 1 && ProperDivide(q, p)
    requires PowMod(b, p, n) > 0 && u * (PowMod(b, p, n) - 1) % n == 1
    requires 2 <= d && Divides(d, n)
    ensures q < d
  {
    hide PowMod, ProperDivide;
    PowDown(b, q, n, d);
    PowDown(b, p, n, d);
    Remainder(1, d, 0, 1);
    InverseStays(n, PowMod(b, p, n), u, d);
    OrderIsBelow(b, q, p, d);
  }

  /** Pocklington's criterion: b has order q modulo each divisor of n, and q is at least the square
      root of n. */
  lemma Certified(n: nat, q: nat, p: nat, b: nat, u: nat)
    requires n > 1 && PowMod(b, q, n) == 1 && ProperDivide(q, p) && n <= q * q
    requires PowMod(b, p, n) > 0 && u * (PowMod(b, p, n) - 1) % n == 1
    ensures IsPrime(n)
  {
    hide PowMod, ProperDivide, Divides;
    forall d | 2 <= d < n
      ensures !Divides(d, n)
    {
      if Divides(d, n) {
        Cofactor(n, d);
        var e := n / d;
        DividesProduct(e, d);
        DivisorsAbove(n, q, p, b, u, d);
        DivisorsAbove(n, q, p, b, u, e);
        Larger(d, e, q);
      }
    }
  }

  lemma Larger(d: nat, e: nat, q: nat)
    requires q < d && q < e
    ensures q * q < d * e
  {
    Monotone(q, d, q);
    Monotone(q + 1, e, d);
  }

  // ---------- 22605091 is prime ----------

  /** No small prime below 181 divides 181 * 181. */
  lemma Undivided1(j: nat)
    requires 1 <= j < 15
    ensures 32761 % SmallPrime(j) != 0
  {
    match j
    case 1 => case 2 => case 3 => case 4 => case 5 => case 6 => case 7 =>
    case 8 => case 9 => case 10 => case 11 => case 12 => case 13 => case 14 =>
  }

  lemma Undivided2(j: nat)
    requires 15 <= j < 29
    ensures 32761 % SmallPrime(j) != 0
  {
    match j
    case 15 => case 16 => case 17 => case 18 => case 19 => case 20 => case 21 =>
    case 22 => case 23 => case 24 => case 25 => case 26 => case 27 => case 28 =>
  }

  lemma Undivided3(j: nat)
    requires 29 <= j < 42
    ensures 32761 % SmallPrime(j) != 0
  {
    match j
    case 29 => case 30 => case 31 => case 32 => case 33 => case 34 => case 35 =>
    case 36 => case 37 => case 38 => case 39 => case 40 => case 41 =>
  }

  lemma {:induction false} NoneBelow(j: nat)
    requires 1 <= j <= 42
    ensures NoDivisorBelow(32761, SmallPrime(j))
  {
    hide SmallPrime, IsPrime, NoDivisorBelow;
    if j == 1 {
      NoneBelowTwo();
    } else {
      NoneBelow(j - 1);
      if j - 1 < 15 {
        Undivided1(j - 1);
      } else if j - 1 < 29 {
        Undivided2(j - 1);
      } else {
        Undivided3(j - 1);
      }
      SmallTable(j - 1);
      SmallTable(j);
      PrimeIsTwo(SmallPrime(j - 1));
      NotDivisor(32761, SmallPrime(j - 1));
      ExtendNoDivisor(32761, SmallPrime(j - 1));
      SkipGap(32761, SmallPrime(j - 1) + 1, SmallPrime(j));
    }
  }

  lemma NoneBelowTwo()
    ensures NoDivisorBelow(32761, SmallPrime(1))
  {
  }

  lemma PrimeIsTwo(p: nat)
    ensures IsPrime(p) ==> p >= 2
  {
  }

  lemma NotDivisor(n: nat, d: nat)
    requires d > 0 && n % d != 0
    ensures !Divides(d, n)
  {
  }

  /** The proper divisors of 181 * 181 are those of 181. */
  lemma SquareDivisors()
    ensures ProperDivide(32761, 181)
  {
    NoneBelow(42);
    assert SmallPrime(42) == 181;
    hide SmallPrime, Divides;
    forall k | 0 < k < 32761 && Divides(k, 32761)
      ensures Divides(k, 181)
    {
      OneOr181(k);
    }
  }

  lemma OneOr181(k: nat)
    requires 0 < k < 32761 && Divides(k, 32761) && NoDivisorBelow(32761, 181)
    ensures Divides(k, 181)
  {
    var e := 32761 / k;
    if k >= 2 {
      Cofactor(32761, k);
      DividesProduct(e, k);
      assert k >= 181 && e >= 181;
      Tight(k, e);
    }
  }

  lemma Tight(k: nat, e: nat)
    requires k >= 181 && e >= 181 && k * e == 181 * 181
    ensures k == 181
  {
    Monotone(181, e, k);
  }

  lemma PowerSmall()
    ensures PowMod(18389778, 181, 22605091) == 13954217
  {
    hide PowMod;
    FirstPower(18389778, 22605091);
    Square(18389778, 1, 22605091, 18389778, 14960520, 18881964);
    SquareTimes(18389778, 2, 22605091, 18881964, 15772047, 6806019, 5536857, 22134795);
    SquareTimes(18389778, 5, 22605091, 22134795, 21674283, 10117272, 8230640, 19857376);
    Square(18389778, 11, 22605091, 19857376, 17443653, 18167953);
    SquareTimes(18389778, 22, 22605091, 18167953, 14601777, 18363502, 14939144, 15500452);
    Square(18389778, 45, 22605091, 15500452, 10628756, 15607508);
    SquareTimes(18389778, 90, 22605091, 15607508, 10776081, 14341693, 11667307, 13954217);
  }

  lemma PowerSquare()
    ensures PowMod(13954217, 181, 22605091) == 1
  {
    hide PowMod;
    FirstPower(13954217, 22605091);
    Square(13954217, 1, 22605091, 13954217, 8613996, 8629453);
    SquareTimes(13954217, 2, 22605091, 8629453, 3294278, 5109911, 3154369, 8652108);
    SquareTimes(13954217, 5, 22605091, 8652108, 3311597, 21303337, 13150638, 18624071);
    Square(13954217, 11, 22605091, 18624071, 15344155, 519936);
    SquareTimes(13954217, 22, 22605091, 519936, 11958, 21765918, 13436192, 122734);
    Square(13954217, 45, 22605091, 122734, 666, 8644150);
    SquareTimes(13954217, 90, 22605091, 8644150, 3305508, 20081272, 12396253, 1);
  }

  lemma FactorIsPrime()
    ensures IsPrime(22605091)
  {
    hide PowMod, ProperDivide, IsPrime;
    SquareDivisors();
    PowerSmall();
    PowerSquare();
    PowProduct(18389778, 181, 181, 22605091);
    Certified(22605091, 32761, 181, 18389778, 19569746);
  }

  // ---------- 0xfffffffb is prime ----------

  lemma PowerLarge1()
    ensures PowMod(1073745729, 86, 4294967291) == 3855700258
  {
    hide PowMod;
    FirstPower(1073745729, 4294967291);
    Square(1073745729, 1, 4294967291, 1073745729, 268437408, 3504919713);
    SquareTimes(1073745729, 2, 4294967291, 3504919713, 2860199243, 148041656, 37010548, 2762101756);
    Square(1073745729, 5, 4294967291, 2762101756, 1776312971, 1474251975);
    SquareTimes(1073745729, 10, 4294967291, 1474251975, 506038518, 2995285887, 748824195, 4065820878);
    SquareTimes(1073745729, 21, 4294967291, 4065820878, 3848899954, 3219286270, 804824495, 1820247785);
    Square(1073745729, 43, 4294967291, 1820247785, 771438237, 3855700258);
  }

  lemma PowerLarge2()
    requires PowMod(1073745729, 86, 4294967291) == 3855700258
    ensures PowMod(1073745729, 5518, 4294967291) == 1810740027
  {
    hide PowMod;
    Square(1073745729, 86, 4294967291, 3855700258, 3461359184, 1858816020);
    Square(1073745729, 172, 4294967291, 1858816020, 804475741, 2210652769);
    SquareTimes(1073745729, 344, 4294967291, 2210652769, 1137840019, 1091548832, 272888200, 3255072328);
    SquareTimes(1073745729, 689, 4294967291, 3255072328, 2466956123, 3894166791, 973545239, 2036108090);
    SquareTimes(1073745729, 1379, 4294967291, 2036108090, 965254418, 1360206462, 340052852, 2579436866);
    Square(1073745729, 2759, 4294967291, 2579436866, 1549137419, 1810740027);
  }

  lemma PowerLarge3()
    requires PowMod(1073745729, 5518, 4294967291) == 1810740027
    ensures PowMod(1073745729, 353204, 4294967291) == 999910711
  {
    hide PowMod;
    SquareTimes(1073745729, 5518, 4294967291, 1810740027, 763400329, 2386321990, 596582667, 3638735613);
    SquareTimes(1073745729, 11037, 4294967291, 3638735613, 3082770127, 177569812, 44392614, 2142344274);
    Square(1073745729, 22075, 4294967291, 2142344274, 1068608601, 164317185);
    SquareTimes(1073745729, 44150, 4294967291, 164317185, 6286459, 1505111656, 376279282, 3827152162);
    Square(1073745729, 88301, 4294967291, 3827152162, 3410292251, 305512203);
    Square(1073745729, 176602, 4294967291, 305512203, 21731878, 999910711);
  }

  lemma PowerLarge4()
    requires PowMod(1073745729, 353204, 4294967291) == 999910711
    ensures PowMod(1073745729, 22605091, 4294967291) == 1
  {
    hide PowMod;
    SquareTimes(1073745729, 353204, 4294967291, 999910711, 232789067, 1505118024, 376280874, 3852027162);
    Square(1073745729, 706409, 4294967291, 3852027162, 3454767464, 894754220);
    Square(1073745729, 1412818, 4294967291, 894754220, 186400747, 2824842023);
    Square(1073745729, 2825636, 4294967291, 2824842023, 1857926245, 3541280234);
    SquareTimes(1073745729, 5651272, 4294967291, 3541280234, 2919851269, 779252477, 194813827, 4191888076);
    SquareTimes(1073745729, 11302545, 4294967291, 4191888076, 4091282762, 688844034, 172211635, 1);
  }

  lemma PowerLarge()
    ensures PowMod(1073745729, 22605091, 4294967291) == 1
  {
    hide PowMod;
    PowerLarge1();
    PowerLarge2();
    PowerLarge3();
    PowerLarge4();
  }

  lemma PrimeDivisors(q: nat)
    requires IsPrime(q)
    ensures ProperDivide(q, 1)
  {
    forall k | 0 < k < q && Divides(k, q)
      ensures Divides(k, 1)
    {
      assert k < 2;
    }
  }

  /** The bound of line 158 is a prime. */
  lemma LargestIsPrime()
    ensures IsPrime(0xffff_fffb)
  {
    hide PowMod, ProperDivide, IsPrime;
    FactorIsPrime();
    PrimeDivisors(22605091);
    PowerLarge();
    FirstPower(1073745729, 0xffff_fffb);
    Certified(0xffff_fffb, 22605091, 1, 1073745729, 1771216906);
  }
}
