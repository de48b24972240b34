/** __next_prime of CxxLibrary/hash.cpp, for a size_t of 32 bits. The kernel is built without
    exceptions, which leaves the overflow check at line 188 empty. */
module NextPrimes {
  import opened Division
  import opened Primes
  import opened PrimeTables
  import opened LargePrimes

  /** One more than the largest size_t. */
  const SIZE: nat := 0x1_0000_0000

  /** The largest prime that is a size_t. */
  const LAST: nat := 0xffff_fffb

  /** std::lower_bound on a table without repetitions. */
  method LowerBound(a: seq<nat>, x: nat) returns (k: nat)
    requires forall i, j | 0 <= i < j < |a| :: a[i] < a[j]
    ensures k <= |a| && (forall i | 0 <= i < k :: a[i] < x) && (k < |a| ==> x <= a[k])
  {
    k := 0;
    var len := |a|;
    while len != 0
      invariant 0 <= len && k + len <= |a|
      invariant forall i | 0 <= i < k :: a[i] < x
      invariant forall i | k + len <= i < |a| :: x <= a[i]
    {
      var half := len / 2;
      if a[k + half] < x {
        k, len := k + half + 1, len - half - 1;
      } else {
        len := half;
      }
    }
  }

  lemma {:induction false} SmallSorted(i: nat, j: nat)
    requires i < j < 48
    ensures SmallPrime(i) < SmallPrime(j)
  {
    hide SmallPrime;
    SmallTable(j);
    if i < j - 1 {
      SmallSorted(i, j - 1);
    }
  }

  lemma {:induction false} IndexSorted(i: nat, j: nat)
    requires i < j < 48
    ensures Index(i) < Index(j)
  {
    hide Index, Increment;
    WheelStep(0, j - 1);
    if i < j - 1 {
      IndexSorted(i, j - 1);
    }
  }

  lemma TablesSorted()
    ensures forall i, j | 0 <= i < j < 48 :: SMALL_PRIMES[i] < SMALL_PRIMES[j]
    ensures forall i, j | 0 <= i < j < 48 :: INDICES[i] < INDICES[j]
  {
    forall i, j | 0 <= i < j < 48
      ensures SMALL_PRIMES[i] < SMALL_PRIMES[j] && INDICES[i] < INDICES[j]
    {
      SmallSorted(i, j);
      IndexSorted(i, j);
    }
  }

  lemma NotCoprimeNotPrime(x: nat)
    requires !Coprime210(x) && x > 7
    ensures !IsPrime(x)
  {
    var d := NotCoprime(x);
  }

  lemma NextDivisor(n: nat, i: nat, next: nat)
    requires 8 <= i < next && NoDivisorBelow(n, i) && !Divides(i, n)
    requires forall x | i < x < next :: !Coprime210(x)
    ensures NoDivisorBelow(n, next)
  {
    forall x | i + 1 <= x < next
      ensures !IsPrime(x)
    {
      NotCoprimeNotPrime(x);
    }
    assert NoDivisorBelow(n, i + 1);
    SkipGap(n, i + 1, next);
  }

  lemma ExactQuotient(n: nat, i: nat)
    requires 2 <= i <= n / i
    ensures n == n / i * i ==> !IsPrime(n)
    ensures n != n / i * i ==> !Divides(i, n)
    ensures i < n
  {
    var q := n / i;
    assert n == q * i + n % i;
    Monotone(2, q, i);
    if n == q * i {
      DividesProduct(i, q);
      assert Divides(i, n);
    }
  }

  /** Lines 206-214: division by the small primes from 11 on. It takes 1 for a prime. */
  method SmallTrial(n: nat) returns (done: bool, prime: bool)
    requires Coprime210(n) && (n == 1 || n > 211)
    ensures n == 1 ==> done && prime
    ensures n > 211 && done ==> prime == IsPrime(n)
    ensures !done ==> NoDivisorBelow(n, 211)
  {
    hide SmallPrime, IsPrime, Divides, Coprime210, NoDivisorBelow;
    CoprimeNoSmall(n);
    SmallEnds();
    var j := 5;
    while j < 47
      invariant 5 <= j <= 47 && NoDivisorBelow(n, SmallPrime(j))
      invariant n == 1 ==> j == 5
    {
      SmallTable(j);
      SmallTable(j + 1);
      SmallAtLeast11(j);
      var p := SMALL_PRIMES[j];
      var q := n / p;
      if q < p {
        if n > 1 {
          NoSmallDivisor(n, p);
        }
        return true, true;
      }
      ExactQuotient(n, p);
      if n == q * p {
        return true, false;
      }
      ExtendNoDivisor(n, p);
      SkipGap(n, p + 1, SmallPrime(j + 1));
      j := j + 1;
    }
    done, prime := false, false;
  }

  lemma SmallEnds()
    ensures SmallPrime(5) == 11 && SmallPrime(47) == 211
  {
  }

  lemma SmallAtLeast11(j: nat)
    requires 5 <= j < 48
    ensures SmallPrime(j) >= 11
  {
    SmallEnds();
    if j > 5 {
      SmallSorted(5, j);
    }
  }

  /** Lines 216-558: division by the numbers coprime to 210 from 211 on. Each turn of the inner
      loop is one block of the unrolled code. */
  method WheelTrial(n: nat) returns (prime: bool)
    requires n > 211 && NoDivisorBelow(n, 211)
    ensures prime == IsPrime(n)
  {
    hide Index, Increment, IsPrime, Divides, NoDivisorBelow;
    var i := 211;
    ghost var k := 1;
    WheelStart();
    while true
      invariant i == 210 * k + Index(0) && i >= 211 && NoDivisorBelow(n, i)
      invariant i <= n + 1
      decreases n + 1 - i
    {
      ghost var start := i;
      var w := 0;
      while w < 48
        invariant 0 <= w <= 48 && i >= 211 && NoDivisorBelow(n, i)
        invariant i == if w < 48 then 210 * k + Index(w) else 210 * (k + 1) + Index(0)
        invariant i <= n + 1 && i >= start && (w > 0 ==> i > start)
      {
        var q := n / i;
        if q < i {
          NoSmallDivisor(n, i);
          return true;
        }
        ExactQuotient(n, i);
        if n == q * i {
          return false;
        }
        WheelStep(k, w);
        NextDivisor(n, i, i + Increment(w));
        NextWithin(n, i, w);
        i := i + Increment(w);
        w := w + 1;
      }
      k := k + 1;
    }
  }

  lemma WheelStart()
    ensures Index(0) == 1
  {
  }

  lemma NextWithin(n: nat, i: nat, w: nat)
    requires 211 <= i <= n / i && w < 48
    ensures i + Increment(w) <= n
  {
    Monotone(2, n / i, i);
    assert n == n / i * i + n % i;
  }

  /** The first number of the wheel from n on. */
  lemma FirstCandidate(n: nat, k: nat, w: nat)
    requires n / 210 == k && w < 48
    requires (forall j | 0 <= j < w :: Index(j) < n - 210 * k) && n - 210 * k <= Index(w)
    ensures n <= 210 * k + Index(w) && Coprime210(210 * k + Index(w))
    ensures forall x | n <= x < 210 * k + Index(w) :: !Coprime210(x)
  {
    WheelStart();
    hide Index, Increment, Coprime210;
    WheelStep(k, w);
    if w > 0 {
      assert Index(w - 1) < n - 210 * k;
      WheelStep(k, w - 1);
    } else {
      MultipleNotCoprime(k);
    }
  }

  lemma MultipleNotCoprime(k: nat)
    ensures !Coprime210(210 * k)
  {
    Mod2(105 * k, 0);
  }

  lemma LastIndex()
    ensures Index(47) == 209
  {
  }

  // ---------- beyond the largest prime ----------

  /** Neither of the candidates beyond the largest prime is one: the first is a product, and the
      second is 1 as a size_t. */
  lemma Beyond()
    ensures !IsPrime(0xffff_fffd) && Coprime210(0xffff_fffd)
    ensures Coprime210(0x1_0000_0001) && Coprime210(1) && 0x1_0000_0001 % SIZE == 1
  {
    assert 0xffff_fffd == 464773 * 9241;
    Remainder(0xffff_fffd, 9241, 464773, 0);
    assert Divides(9241, 0xffff_fffd);
    Remainder(0x1_0000_0001, SIZE, 1, 1);
  }

  /** From above the largest prime the search begins at one of the two. */
  lemma FirstBeyond(n0: nat, plain: nat)
    requires LAST < n0 < SIZE && n0 <= plain && forall x | n0 <= x < plain :: !Coprime210(x)
    requires Coprime210(plain)
    ensures plain == 0xffff_fffd || plain == 0x1_0000_0001
  {
    Beyond();
    assert !Coprime210(0xffff_fffc) && !Coprime210(0xffff_fffe) && !Coprime210(0xffff_ffff) && !Coprime210(0x1_0000_0000);
    hide Coprime210;
    assert plain <= 0x1_0000_0001;
  }

  /** And the first leads to the second. */
  lemma NextBeyond(next: nat)
    requires next > 0xffff_fffd && Coprime210(next) && forall x | 0xffff_fffd < x < next :: !Coprime210(x)
    ensures next == 0x1_0000_0001
  {
    FirstBeyond(0xffff_fffe, next);
  }

  lemma Unwrapped(x: nat)
    ensures x < SIZE ==> x % SIZE == x
  {
    if x < SIZE {
      Remainder(x, SIZE, 0, x);
    }
  }

  /** What holds of the candidate before it is reduced to a size_t. */
  ghost predicate Candidate(n0: nat, plain: nat) {
    if n0 <= LAST then n0 <= plain <= LAST && forall x | n0 <= x < plain :: !IsPrime(x)
    else plain == 0xffff_fffd || plain == 0x1_0000_0001
  }

  lemma FirstIsCandidate(n0: nat, plain: nat)
    requires 211 < n0 < SIZE && n0 <= plain && Coprime210(plain) && forall x | n0 <= x < plain :: !Coprime210(x)
    ensures Candidate(n0, plain)
  {
    hide Coprime210, IsPrime;
    if n0 <= LAST {
      NoneBetween(n0, plain);
      LargestIsPrime();
    } else {
      FirstBeyond(n0, plain);
    }
  }

  lemma NextIsCandidate(n0: nat, plain: nat, next: nat)
    requires 211 < n0 < SIZE && Candidate(n0, plain) && plain < next && Coprime210(next)
    requires !IsPrime(plain) && plain != 0x1_0000_0001
    requires forall x | plain < x < next :: !Coprime210(x)
    ensures Candidate(n0, next)
  {
    hide Coprime210, IsPrime;
    if n0 <= LAST {
      NoneBetween(plain + 1, next);
      LargestIsPrime();
    } else {
      NextBeyond(next);
    }
  }

  /** The candidate as a size_t: itself, or 1. */
  lemma CandidateMeans(n0: nat, plain: nat)
    requires 211 < n0 < SIZE && Candidate(n0, plain)
    ensures plain % SIZE == if plain == 0x1_0000_0001 then 1 else plain
    ensures plain <= 0x1_0000_0001 && (plain != 0x1_0000_0001 ==> plain > 211)
    ensures n0 > LAST && plain != 0x1_0000_0001 ==> !IsPrime(plain)
    ensures n0 <= LAST ==> plain != 0x1_0000_0001
  {
    hide Coprime210, IsPrime;
    Beyond();
    Unwrapped(plain);
  }

  lemma TurnIsCoprime(k: nat, w: nat)
    requires w < 48
    ensures Coprime210(210 * k + Index(w) + Increment(w))
  {
    hide Index, Increment, Coprime210;
    WheelStep(k, w);
    if w < 47 {
      WheelStep(k, w + 1);
    } else {
      WheelStep(k + 1, 0);
    }
  }

  lemma TurnOfCandidate(n0: nat, k: nat, w: nat)
    requires 211 < n0 < SIZE && w < 48 && Candidate(n0, 210 * k + Index(w))
    ensures var plain := 210 * k + Index(w);
            && Coprime210(plain % SIZE) && Increment(w) > 0
            && (!IsPrime(plain) && plain != 0x1_0000_0001 ==> Candidate(n0, plain + Increment(w)))
  {
    hide Index, Increment, Coprime210, IsPrime, Candidate;
    var plain := 210 * k + Index(w);
    CandidateMeans(n0, plain);
    Beyond();
    WheelStep(k, w);
    TurnIsCoprime(k, w);
    if !IsPrime(plain) && plain != 0x1_0000_0001 {
      NextIsCandidate(n0, plain, plain + Increment(w));
    }
  }

  lemma FirstTurn(n0: nat, k: nat, w: nat)
    requires 211 < n0 < SIZE && k == n0 / 210 && w < 48
    requires (forall j | 0 <= j < w :: Index(j) < n0 - 210 * k) && n0 - 210 * k <= Index(w)
    ensures Candidate(n0, 210 * k + Index(w))
  {
    hide Index, Increment, Coprime210, Candidate;
    FirstCandidate(n0, k, w);
    FirstIsCandidate(n0, 210 * k + Index(w));
  }

  /** For 0 it returns 0, and up to the largest prime the least prime not below n0. Beyond that the
      candidate wraps to 1, which is returned. */
  method NextPrime(n0: nat) returns (n: nat)
    requires n0 < SIZE
    ensures n0 == 0 ==> n == 0
    ensures 0 < n0 <= LAST ==> IsPrime(n) && n0 <= n <= LAST && forall x | n0 <= x < n :: !IsPrime(x)
    ensures n0 > LAST ==> n == 1
  {
    hide SmallPrime, Index, Increment, IsPrime, Coprime210, Candidate;
    TablesSorted();
    SmallEnds();
    if n0 <= SMALL_PRIMES[47] {
      var k := LowerBound(SMALL_PRIMES, n0);
      SmallLookup(n0, k);
      SmallBelow(k);
      return SMALL_PRIMES[k];
    }

    var k0: nat := n0 / 210;
    assert n0 == k0 * 210 + n0 % 210;
    LastIndex();
    var spoke := LowerBound(INDICES, n0 - k0 * 210);
    assert spoke < 48 by {
      assert INDICES[47] == 209;
    }
    assert forall j | 0 <= j < 48 :: INDICES[j] == Index(j);
    FirstTurn(n0, k0, spoke);
    n := Search(n0, k0, spoke);
  }

  /** Lines 197-568: from a candidate on. */
  method Search(n0: nat, k: nat, w: nat) returns (n: nat)
    requires 211 < n0 < SIZE && w < 48 && Candidate(n0, 210 * k + Index(w))
    ensures n0 <= LAST ==> IsPrime(n) && n0 <= n <= LAST && forall x | n0 <= x < n :: !IsPrime(x)
    ensures n0 > LAST ==> n == 1
  {
    hide Index, Increment, IsPrime, Coprime210, Candidate;
    var k0: nat, spoke: nat := k, w;
    n := (210 * k0 + INDICES[spoke]) % SIZE;
    while true
      invariant spoke < 48 && n == (210 * k0 + Index(spoke)) % SIZE
      invariant Candidate(n0, 210 * k0 + Index(spoke))
      decreases 0x1_0000_0001 - (210 * k0 + Index(spoke))
    {
      ghost var plain := 210 * k0 + Index(spoke);
      CandidateMeans(n0, plain);
      TurnOfCandidate(n0, k0, spoke);
      WheelStep(k0, spoke);
      var done, prime := SmallTrial(n);
      if !done {
        prime := WheelTrial(n);
      }
      if prime {
        CandidateIsLeast(n0, plain);
        return;
      }
      // next:
      spoke := spoke + 1;
      if spoke == 48 {
        k0 := k0 + 1;
        spoke := 0;
      }
      n := (210 * k0 + INDICES[spoke]) % SIZE;
      CandidateMeans(n0, 210 * k0 + Index(spoke));
    }
  }

  lemma CandidateIsLeast(n0: nat, plain: nat)
    requires Candidate(n0, plain)
    ensures n0 <= LAST ==> n0 <= plain <= LAST && forall x | n0 <= x < plain :: !IsPrime(x)
  {
  }

  lemma SmallBelow(k: nat)
    ensures k < 48 ==> SMALL_PRIMES[k] <= 211
  {
    hide SmallPrime;
    SmallEnds();
    if k < 47 {
      SmallSorted(k, 47);
    }
  }

  lemma NoneBetween(lo: nat, hi: nat)
    requires lo > 7 && forall x | lo <= x < hi :: !Coprime210(x)
    ensures forall x | lo <= x < hi :: !IsPrime(x)
  {
    forall x | lo <= x < hi
      ensures !IsPrime(x)
    {
      NotCoprimeNotPrime(x);
    }
  }

  lemma SmallLookup(n: nat, k: nat)
    requires n <= SMALL_PRIMES[47] && k <= 48
    requires (forall i | 0 <= i < k :: SMALL_PRIMES[i] < n) && (k < 48 ==> n <= SMALL_PRIMES[k])
    ensures k < 48
    ensures n == 0 ==> SMALL_PRIMES[k] == 0
    ensures n > 0 ==> IsPrime(SMALL_PRIMES[k]) && n <= SMALL_PRIMES[k] && forall x | n <= x < SMALL_PRIMES[k] :: !IsPrime(x)
  {
    assert SMALL_PRIMES[0] == 0;
    assert k > 0 ==> SMALL_PRIMES[0] < n;
    if n > 0 {
      assert k > 0;
      hide SmallPrime, IsPrime;
      SmallTable(k);
      assert SMALL_PRIMES[k - 1] < n;
    }
  }

  // ---------- the wheel visits every candidate ----------

  /** The t-th divisor the unrolled loop tries. */
  function Visited(t: nat): nat {
    210 * (1 + t / 48) + Index(t % 48)
  }

  lemma VisitedNext(t: nat)
    ensures Visited(t) >= 211 && Coprime210(Visited(t)) && Visited(t) < Visited(t + 1)
    ensures Visited(t + 1) == Visited(t) + Increment(t % 48)
    ensures forall x | Visited(t) < x < Visited(t + 1) :: !Coprime210(x)
  {
    hide Index, Increment, Coprime210;
    WheelStep(1 + t / 48, t % 48);
    SpokeAfter(t);
    IndexPositive(t % 48);
  }

  lemma SpokeAfter(t: nat)
    ensures t % 48 < 47 ==> (t + 1) / 48 == t / 48 && (t + 1) % 48 == t % 48 + 1
    ensures t % 48 == 47 ==> (t + 1) / 48 == t / 48 + 1 && (t + 1) % 48 == 0
  {
  }

  lemma IndexPositive(w: nat)
    requires w < 48
    ensures Index(w) >= 1
  {
  }

  /** Every number from 211 on that is coprime to 210 is tried, at exactly one place. */
  lemma {:induction false} WheelComplete(x: nat, from: nat) returns (t: nat)
    requires Coprime210(x) && Visited(from) <= x
    ensures t >= from && Visited(t) == x
    decreases x - Visited(from)
  {
    VisitedNext(from);
    if Visited(from) == x {
      t := from;
    } else {
      t := WheelComplete(x, from + 1);
    }
  }

  lemma {:induction false} WheelInOrder(s: nat, t: nat)
    requires s < t
    ensures Visited(0) == 211 && Visited(s) < Visited(t)
    decreases t - s
  {
    hide Index, Increment, Coprime210;
    WheelStart();
    VisitedNext(t - 1);
    if s < t - 1 {
      WheelInOrder(s, t - 1);
    }
  }
}
