/** The entry list of the unit-number allocator (BsdSupport/subr_unit.c): what an entry
    denotes, what a canonical list is, and what list surgery does to the denoted bits. */
module UnitLists {
  import opened Sequences

  /** struct unr takes 16 bytes on i386, and the bitmap shares them with the busy byte. */
  const NBITS: nat := 120

  datatype Unrb = Unrb(busy: nat, bits: seq<bool>)

  /** The three uses of the ptr field: a free run, an allocated run, or a bitmap. */
  datatype Ptr = Null | Header | Map(ub: Unrb)

  datatype Unr = Unr(len: nat, ptr: Ptr)

  /** Pointer equality. Two entries never share a bitmap, so bitmaps never compare equal. */
  predicate SamePtr(p: Ptr, q: Ptr) {
    p == q && !p.Map?
  }

  // ---------- bits ----------

  function Run(n: nat, v: bool): (s: seq<bool>)
    ensures |s| == n && forall i | 0 <= i < n :: s[i] == v
  {
    Fill(v, n)
  }

  function Count(s: seq<bool>): nat {
    multiset(s)[true]
  }

  lemma {:induction false} CountSplit(s: seq<bool>)
    ensures multiset(s)[true] + multiset(s)[false] == |s|
  {
    if s != [] {
      CountSplit(s[1..]);
      assert s == [s[0]] + s[1..];
      assert multiset(s) == multiset([s[0]]) + multiset(s[1..]);
      if s[0] {
        assert multiset([s[0]]) == multiset{true};
      } else {
        assert multiset([s[0]]) == multiset{false};
      }
    }
  }

  lemma CountRange(s: seq<bool>)
    ensures Count(s) <= |s|
    ensures Count(s) == 0 <==> true !in s
    ensures Count(s) == |s| <==> false !in s
  {
    CountSplit(s);
    assert true in s <==> true in multiset(s);
    assert false in s <==> false in multiset(s);
  }

  lemma CountRun(n: nat, v: bool)
    ensures Count(Run(n, v)) == if v then n else 0
  {
    CountRange(Run(n, v));
  }

  lemma CountConcat(s: seq<bool>, t: seq<bool>)
    ensures Count(s + t) == Count(s) + Count(t)
  {
    assert multiset(s + t) == multiset(s) + multiset(t);
  }

  lemma CountUpdate(s: seq<bool>, i: nat, v: bool)
    requires i < |s|
    ensures Count(s[i := v]) == Count(s) - (if s[i] then 1 else 0) + (if v then 1 else 0)
  {
    assert s == s[..i] + [s[i]] + s[i + 1..];
    assert s[i := v] == s[..i] + [v] + s[i + 1..];
  }

  // ---------- what lists denote ----------

  function Bits(e: Unr): seq<bool> {
    match e.ptr
    case Null => Run(e.len, false)
    case Header => Run(e.len, true)
    case Map(ub) => if e.len <= |ub.bits| then ub.bits[..e.len] else ub.bits
  }

  function ListBits(l: seq<Unr>): seq<bool> {
    if l == [] then [] else Bits(l[0]) + ListBits(l[1..])
  }

  /** Memory blocks an entry occupies: the entry, and a second one for its bitmap. */
  function Weight(e: Unr): nat {
    if e.ptr.Map? then 2 else 1
  }

  function ListWeight(l: seq<Unr>): nat {
    if l == [] then 0 else Weight(l[0]) + ListWeight(l[1..])
  }

  lemma {:induction false} BitsConcat(l: seq<Unr>, m: seq<Unr>)
    ensures ListBits(l + m) == ListBits(l) + ListBits(m)
  {
    if l == [] {
      assert l + m == m;
    } else {
      BitsConcat(l[1..], m);
      assert (l + m)[0] == l[0] && (l + m)[1..] == l[1..] + m;
      Associative(Bits(l[0]), ListBits(l[1..]), ListBits(m));
    }
  }

  lemma {:induction false} WeightConcat(l: seq<Unr>, m: seq<Unr>)
    ensures ListWeight(l + m) == ListWeight(l) + ListWeight(m)
  {
    if l == [] {
      assert l + m == m;
    } else {
      WeightConcat(l[1..], m);
      assert (l + m)[0] == l[0] && (l + m)[1..] == l[1..] + m;
    }
  }

  lemma ListConcat(l: seq<Unr>, m: seq<Unr>)
    ensures ListBits(l + m) == ListBits(l) + ListBits(m)
    ensures ListWeight(l + m) == ListWeight(l) + ListWeight(m)
  {
    BitsConcat(l, m);
    WeightConcat(l, m);
  }

  /** Every insertion, removal and rewrite of the list has this form. */
  function Replace(l: seq<Unr>, a: nat, b: nat, m: seq<Unr>): seq<Unr>
    requires a <= b <= |l|
  {
    l[..a] + m + l[b..]
  }

  lemma Surgery(l: seq<Unr>, a: nat, b: nat, m: seq<Unr>)
    requires a <= b <= |l|
    ensures ListBits(l) == ListBits(l[..a]) + ListBits(l[a..b]) + ListBits(l[b..])
    ensures ListWeight(l) == ListWeight(l[..a]) + ListWeight(l[a..b]) + ListWeight(l[b..])
    ensures ListBits(Replace(l, a, b, m)) == ListBits(l[..a]) + ListBits(m) + ListBits(l[b..])
    ensures ListWeight(Replace(l, a, b, m)) == ListWeight(l[..a]) + ListWeight(m) + ListWeight(l[b..])
  {
    assert l == l[..a] + l[a..b] + l[b..];
    ListConcat(l[..a] + l[a..b], l[b..]);
    ListConcat(l[..a], l[a..b]);
    ListConcat(l[..a] + m, l[b..]);
    ListConcat(l[..a], m);
  }

  lemma Singleton(e: Unr)
    ensures ListBits([e]) == Bits(e) && ListWeight([e]) == Weight(e)
  {
    assert [e] == [e] + [];
  }

  /** Surgery that keeps the denoted bits. */
  lemma NeutralSurgery(l: seq<Unr>, a: nat, b: nat, m: seq<Unr>)
    requires a <= b <= |l| && ListBits(m) == ListBits(l[a..b])
    ensures ListBits(Replace(l, a, b, m)) == ListBits(l)
    ensures ListWeight(Replace(l, a, b, m)) + ListWeight(l[a..b]) == ListWeight(l) + ListWeight(m)
  {
    Surgery(l, a, b, m);
  }

  lemma Pair(e: Unr, f: Unr)
    ensures ListBits([e, f]) == Bits(e) + Bits(f) && ListWeight([e, f]) == Weight(e) + Weight(f)
  {
    ListConcat([e], [f]);
    Singleton(e);
    Singleton(f);
    assert [e] + [f] == [e, f];
  }

  lemma FirstEntry(l: seq<Unr>, a: nat, b: nat)
    requires a < b <= |l|
    ensures ListBits(l[a..b]) == Bits(l[a]) + ListBits(l[a + 1..b])
    ensures ListWeight(l[a..b]) == Weight(l[a]) + ListWeight(l[a + 1..b])
  {
    assert l[a..b][0] == l[a] && l[a..b][1..] == l[a + 1..b];
  }

  lemma LastEntry(l: seq<Unr>, a: nat, b: nat)
    requires a <= b < |l|
    ensures ListBits(l[a..b + 1]) == ListBits(l[a..b]) + Bits(l[b])
    ensures ListWeight(l[a..b + 1]) == ListWeight(l[a..b]) + Weight(l[b])
  {
    assert l[a..b + 1] == l[a..b] + [l[b]];
    ListConcat(l[a..b], [l[b]]);
    Singleton(l[b]);
  }

  /** Replacing a window entry by entry. */
  lemma ReplaceTwice(l: seq<Unr>, a: nat, b: nat, x: Unr, y: Unr)
    requires a <= b < |l|
    ensures Replace(l, a, b, [x])[a + 1] == l[b]
    ensures Replace(Replace(l, a, b, [x]), a, a + 2, [y]) == Replace(l, a, b + 1, [y])
  {
  }

  // ---------- canonical lists ----------

  ghost predicate MapOk(e: Unr) {
    match e.ptr
    case Map(ub) => |ub.bits| == NBITS && e.len <= NBITS && ub.busy == Count(ub.bits[..e.len])
    case _ => true
  }

  /** A usable entry: it is not empty, and a bitmap holds both a set and a clear bit. */
  ghost predicate Good(e: Unr) {
    e.len > 0 && MapOk(e) && (e.ptr.Map? ==> 0 < e.ptr.ub.busy < e.len)
  }

  ghost predicate NoClash(l: seq<Unr>, k: int) {
    0 <= k && k + 1 < |l| ==> !SamePtr(l[k].ptr, l[k + 1].ptr)
  }

  /** Good entries, no two neighbouring runs of the same kind. */
  ghost predicate Body(l: seq<Unr>) {
    && (forall k | 0 <= k < |l| :: Good(l[k]))
    && (forall k | 0 <= k < |l| :: NoClash(l, k))
  }

  /** The head is no allocated run and the tail no free run. */
  ghost predicate Ends(l: seq<Unr>) {
    l != [] ==> !l[0].ptr.Header? && !l[|l| - 1].ptr.Null?
  }

  /** Body, except that the entry at u may be full, clear or empty and may clash with its neighbours. */
  ghost predicate HotAt(l: seq<Unr>, u: nat) {
    && u < |l|
    && (forall k | 0 <= k < |l| && k != u :: Good(l[k]))
    && MapOk(l[u])
    && (forall k | 0 <= k < |l| && k != u && k + 1 != u :: NoClash(l, k))
  }

  lemma GoodBits(e: Unr)
    requires MapOk(e)
    ensures |Bits(e)| == e.len
    ensures Good(e) && !e.ptr.Header? ==> false in Bits(e)
    ensures Good(e) && !e.ptr.Null? ==> true in Bits(e)
  {
    if e.ptr.Map? {
      CountRange(Bits(e));
    } else if e.len > 0 {
      assert Bits(e)[0] in Bits(e);
    }
  }

  /** A canonical list that is not empty holds both an allocated and a free unit. */
  lemma NonEmptyIsMixed(l: seq<Unr>)
    requires Body(l) && Ends(l) && l != []
    ensures true in ListBits(l) && false in ListBits(l)
  {
    hide Bits, ListBits, ListWeight;
    var n := |l| - 1;
    assert l[0..|l|] == l;
    FirstEntry(l, 0, |l|);
    LastEntry(l, 0, n);
    GoodBits(l[0]);
    GoodBits(l[n]);
  }

  // ---------- the windows optimize_unr looks at ----------

  /** End of the window that grows from j while at most NBITS units are covered; l units are so far. */
  function WindowEnd(list: seq<Unr>, j: nat, l: nat): (e: nat)
    requires j <= |list|
    ensures j <= e <= |list|
    decreases |list| - j
  {
    if j == |list| || list[j].len + l > NBITS then j else WindowEnd(list, j + 1, l + list[j].len)
  }

  /** Memory blocks from j up to the end of that window. */
  function WindowWeight(list: seq<Unr>, j: nat, l: nat): (w: nat)
    requires j <= |list|
    decreases |list| - j
  {
    if j == |list| || list[j].len + l > NBITS then 0
    else Weight(list[j]) + WindowWeight(list, j + 1, l + list[j].len)
  }

  /** Blocks of the window that starts at k, or 0 when entry k alone fills a bitmap. */
  function Saving(list: seq<Unr>, k: nat): nat
    requires k < |list|
  {
    if list[k].len >= NBITS then 0 else Weight(list[k]) + WindowWeight(list, k + 1, list[k].len)
  }

  /** k starts the first of the most expensive windows. */
  ghost predicate IsBest(list: seq<Unr>, k: nat) {
    && k < |list|
    && (forall j | 0 <= j < |list| :: Saving(list, j) <= Saving(list, k))
    && (forall j | 0 <= j < k :: Saving(list, j) < Saving(list, k))
  }

  ghost predicate Tight(list: seq<Unr>) {
    forall k | 0 <= k < |list| :: Saving(list, k) < 3
  }

  lemma {:induction false} WindowCovers(list: seq<Unr>, j: nat, l: nat)
    requires j <= |list| && l <= NBITS
    requires forall k | 0 <= k < |list| :: MapOk(list[k])
    ensures l + |ListBits(list[j..WindowEnd(list, j, l)])| <= NBITS
    ensures ListWeight(list[j..WindowEnd(list, j, l)]) == WindowWeight(list, j, l)
    decreases |list| - j
  {
    hide ListBits, ListWeight, Bits, MapOk;
    var e := WindowEnd(list, j, l);
    NoEntries();
    if e > j {
      WindowCovers(list, j + 1, l + list[j].len);
      assert list[j..e] == [list[j]] + list[j + 1..e];
      ListConcat([list[j]], list[j + 1..e]);
      Singleton(list[j]);
      GoodBits(list[j]);
    } else {
      assert list[j..e] == [];
    }
  }

  lemma NoEntries()
    ensures ListBits([]) == [] && ListWeight([]) == 0
  {
  }

  lemma WindowNext(list: seq<Unr>, j: nat, l: nat)
    requires j < |list| && l + list[j].len <= NBITS
    ensures WindowEnd(list, j, l) == WindowEnd(list, j + 1, l + list[j].len)
  {
  }

  /** A window only depends on the entries from its start. */
  lemma {:induction false} WindowSuffix(l: seq<Unr>, m: seq<Unr>, j: nat, i: nat, len: nat)
    requires j <= |l| && i <= |m| && l[j..] == m[i..]
    ensures WindowEnd(l, j, len) - j == WindowEnd(m, i, len) - i
    decreases |l| - j
  {
    assert |l| - j == |m| - i;
    if j < |l| {
      assert l[j] == l[j..][0] && m[i] == m[i..][0];
      assert l[j + 1..] == l[j..][1..] && m[i + 1..] == m[i..][1..];
      WindowSuffix(l, m, j + 1, i + 1, len + l[j].len);
    }
  }

  lemma FittingWindows(list: seq<Unr>, k: nat)
    requires Body(list) && k + 1 < |list|
    ensures list[k].len + list[k + 1].len <= NBITS && (list[k].ptr.Map? || list[k + 1].ptr.Map?)
            ==> Saving(list, k) >= 3
    ensures k + 2 < |list| && list[k].len + list[k + 1].len + list[k + 2].len <= NBITS
            ==> Saving(list, k) >= 3
  {
    assert Good(list[k]) && Good(list[k + 1]);
    var l := list[k].len;
    if list[k + 1].len + l <= NBITS {
      assert WindowWeight(list, k + 1, l)
          == Weight(list[k + 1]) + WindowWeight(list, k + 2, l + list[k + 1].len);
    }
  }

  /** At the fixpoint of optimize_unr any three neighbours cover more than 120 units,
      and so do a bitmap and its neighbour. */
  lemma TightWindows(list: seq<Unr>, k: nat)
    requires Body(list) && Tight(list) && k + 1 < |list|
    ensures list[k].ptr.Map? || list[k + 1].ptr.Map? ==> list[k].len + list[k + 1].len > 120
    ensures k + 2 < |list| ==> list[k].len + list[k + 1].len + list[k + 2].len > 120
  {
    FittingWindows(list, k);
    assert Saving(list, k) < 3;
  }

  lemma DivStep(x: nat, y: nat)
    requires x >= y + 121
    ensures x / 121 >= y / 121 + 1
  {
  }

  lemma {:induction false} TriplesBound(list: seq<Unr>)
    requires forall k | 0 <= k < |list| :: MapOk(list[k])
    requires forall k | 0 <= k && k + 2 < |list| :: list[k].len + list[k + 1].len + list[k + 2].len > NBITS
    ensures |list| <= 3 * (|ListBits(list)| / 121) + 2
  {
    hide Bits, ListBits, ListWeight;
    if |list| >= 3 {
      var rest := list[3..];
      forall k | 0 <= k && k + 2 < |rest|
        ensures rest[k].len + rest[k + 1].len + rest[k + 2].len > NBITS
      {
        assert rest[k] == list[k + 3] && rest[k + 1] == list[k + 4] && rest[k + 2] == list[k + 5];
      }
      TriplesBound(rest);
      FirstEntry(list, 0, |list|);
      FirstEntry(list, 1, |list|);
      FirstEntry(list, 2, |list|);
      assert list[0..|list|] == list && list[3..|list|] == rest;
      GoodBits(list[0]);
      GoodBits(list[1]);
      GoodBits(list[2]);
      assert NBITS + 1 == 121;
      DivStep(|ListBits(list)|, |ListBits(rest)|);
    }
  }

  /** The entry list of a canonical, fully optimized allocator is short. */
  lemma TightBound(list: seq<Unr>)
    requires Body(list) && Tight(list)
    ensures |list| <= 3 * (|ListBits(list)| / 121) + 2
  {
    forall k | 0 <= k < |list|
      ensures MapOk(list[k])
    {
      assert Good(list[k]);
    }
    forall k | 0 <= k && k + 2 < |list|
      ensures list[k].len + list[k + 1].len + list[k + 2].len > NBITS
    {
      TightWindows(list, k);
    }
    TriplesBound(list);
  }

  // ---------- prefix, list and suffix together ----------

  /** One boolean per unit: the allocated prefix, the listed units, the free suffix. */
  function UnitsOf(first: nat, listed: seq<bool>, last: nat): seq<bool> {
    Run(first, true) + listed + Run(last, false)
  }

  lemma ShiftFirst(first: nat, n: nat, b: seq<bool>, last: nat)
    ensures UnitsOf(first, Run(n, true) + b, last) == UnitsOf(first + n, b, last)
  {
  }

  lemma ShiftLast(first: nat, b: seq<bool>, n: nat, last: nat)
    ensures UnitsOf(first, b + Run(n, false), last) == UnitsOf(first, b, last + n)
  {
  }

  lemma UpdateListed(first: nat, b: seq<bool>, last: nat, i: nat, v: bool)
    requires i < |b|
    ensures |UnitsOf(first, b, last)| == first + |b| + last
    ensures UnitsOf(first, b, last)[first + i] == b[i]
    ensures UnitsOf(first, b, last)[first + i := v] == UnitsOf(first, b[i := v], last)
  {
  }

  lemma TakeFirst(first: nat, n: nat, b: seq<bool>, last: nat)
    requires n > 0
    ensures UnitsOf(first, Run(n, false) + b, last)[first := true] == UnitsOf(first + 1, Run(n - 1, false) + b, last)
  {
  }

  lemma TakeBeyond(first: nat, b: seq<bool>, last: nat, i: nat)
    requires i < last
    ensures !UnitsOf(first, b, last)[first + |b| + i]
    ensures UnitsOf(first, b, last)[first + |b| + i := true]
         == UnitsOf(first, b + Run(i, false) + Run(1, true), last - i - 1)
  {
  }

  lemma IdealSplit(first: nat, last: nat)
    ensures last > 0 ==> UnitsOf(first, [], last)[first := true] == UnitsOf(first + 1, [], last - 1)
    ensures first > 0 ==> UnitsOf(first, [], last)[first - 1 := false] == UnitsOf(first - 1, [], last + 1)
  {
  }

  /** us cut off, or filled up with free units, to n of them. */
  function Resized(us: seq<bool>, n: nat): (r: seq<bool>)
    ensures |r| == n
  {
    if n <= |us| then us[..n] else us + Run(n - |us|, false)
  }

  lemma ResizedSame(us: seq<bool>)
    ensures Resized(us, |us|) == us
  {
  }

  /** Only the suffix is cut off or filled up. */
  lemma ResizeSuffix(first: nat, b: seq<bool>, last: nat, n: nat)
    requires n >= first + |b|
    ensures Resized(UnitsOf(first, b, last), n) == UnitsOf(first, b, n - first - |b|)
    ensures Count(UnitsOf(first, b, n - first - |b|)) == Count(UnitsOf(first, b, last))
  {
    CountSuffix(first, b, last);
    CountSuffix(first, b, n - first - |b|);
  }

  lemma CountSuffix(first: nat, b: seq<bool>, last: nat)
    ensures Count(UnitsOf(first, b, last)) == Count(Run(first, true) + b)
  {
    CountConcat(Run(first, true) + b, Run(last, false));
    CountRun(last, false);
  }
}
