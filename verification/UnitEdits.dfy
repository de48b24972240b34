/** The single-unit edits that allocation and release make in the entry list. */
module UnitEdits {
  import opened UnitLists
  import opened Sequences

  /** m, put in place of l[a..b], differs from it in bit i only. */
  ghost predicate Edit(l: seq<Unr>, a: nat, b: nat, m: seq<Unr>, i: nat, v: bool) {
    && a <= b <= |l|
    && i < |ListBits(l[a..b])|
    && ListBits(l[a..b])[i] == !v
    && ListBits(m) == ListBits(l[a..b])[i := v]
  }

  lemma MiddleUpdate(p: seq<bool>, w: seq<bool>, s: seq<bool>, i: nat, v: bool)
    requires i < |w|
    ensures (p + w + s)[|p| + i := v] == p + w[i := v] + s && (p + w + s)[|p| + i] == w[i]
  {
  }

  lemma EditUnits(l: seq<Unr>, a: nat, b: nat, m: seq<Unr>, i: nat, v: bool, first: nat, last: nat)
    requires Edit(l, a, b, m, i, v)
    ensures var us := UnitsOf(first, ListBits(l), last);
            var vs := UnitsOf(first, ListBits(Replace(l, a, b, m)), last);
            var at := first + |ListBits(l[..a])| + i;
            && at < |us| && us[at] == !v && vs == us[at := v]
            && Count(vs) == Count(us) + (if v then 1 else -1)
    ensures ListWeight(Replace(l, a, b, m)) + ListWeight(l[a..b]) == ListWeight(l) + ListWeight(m)
  {
    hide UnitsOf, Count, ListBits, ListWeight;
    Surgery(l, a, b, m);
    var p, w, s := ListBits(l[..a]), ListBits(l[a..b]), ListBits(l[b..]);
    MiddleUpdate(p, w, s, i, v);
    UpdateListed(first, ListBits(l), last, |p| + i, v);
    CountUpdate(UnitsOf(first, ListBits(l), last), first + |p| + i, v);
  }

  lemma BodyHot(l: seq<Unr>, u: nat, e: Unr)
    requires Body(l) && u < |l| && MapOk(e)
    ensures HotAt(l[u := e], u)
  {
    var m := l[u := e];
    forall k | 0 <= k < |m| && k != u && k + 1 != u
      ensures NoClash(m, k)
    {
      assert NoClash(l, k);
    }
  }

  /** Setting or clearing one bit of a bitmap entry. */
  function BitSet(e: Unr, i: nat, v: bool): Unr
    requires e.ptr.Map? && i < |e.ptr.ub.bits|
  {
    Unr(e.len, Map(Unrb(if v then e.ptr.ub.busy + 1 else if e.ptr.ub.busy > 0 then e.ptr.ub.busy - 1 else 0,
                        e.ptr.ub.bits[i := v])))
  }

  lemma BitEdit(l: seq<Unr>, u: nat, i: nat, v: bool)
    requires Body(l) && u < |l| && l[u].ptr.Map? && i < l[u].len && |l[u].ptr.ub.bits| == NBITS
    requires l[u].ptr.ub.bits[i] == !v
    ensures Edit(l, u, u + 1, [BitSet(l[u], i, v)], i, v)
    ensures l[u := BitSet(l[u], i, v)] == Replace(l, u, u + 1, [BitSet(l[u], i, v)])
    ensures HotAt(l[u := BitSet(l[u], i, v)], u)
    ensures l[u].ptr.ub.busy > 0 || v
  {
    var e := BitSet(l[u], i, v);
    assert Good(l[u]);
    assert l[u..u + 1] == [l[u]];
    Singleton(l[u]);
    Singleton(e);
    CountUpdate(Bits(l[u]), i, v);
    CountRange(Bits(l[u]));
    assert Bits(e) == Bits(l[u])[i := v];
    assert !v ==> Bits(l[u])[i] in Bits(l[u]);
    BodyHot(l, u, e);
  }

  /** A run of one kind, with one unit of the other kind cut out of it at i. */
  function Cut(n: nat, i: nat, v: bool): seq<Unr>
    requires i < n
  {
    var outer := if v then Null else Header;
    (if i > 0 then [Unr(i, outer)] else [])
    + [Unr(1, if v then Header else Null)]
    + (if n - (1 + i) > 0 then [Unr(n - (1 + i), outer)] else [])
  }

  lemma OptionalRun(n: nat, ptr: Ptr)
    requires !ptr.Map?
    ensures var l := if n > 0 then [Unr(n, ptr)] else [];
            ListBits(l) == Run(n, ptr.Header?) && ListWeight(l) == |l|
  {
    Singleton(Unr(n, ptr));
  }

  lemma CutBits(n: nat, i: nat, v: bool)
    requires i < n
    ensures ListBits(Cut(n, i, v)) == Run(n, !v)[i := v]
    ensures ListWeight(Cut(n, i, v)) == |Cut(n, i, v)|
  {
    hide ListBits, ListWeight, Bits;
    var outer := if v then Null else Header;
    var a := if i > 0 then [Unr(i, outer)] else [];
    var b := [Unr(1, if v then Header else Null)];
    var c := if n - (1 + i) > 0 then [Unr(n - (1 + i), outer)] else [];
    ListConcat(a + b, c);
    ListConcat(a, b);
    OptionalRun(i, outer);
    OptionalRun(1, if v then Header else Null);
    OptionalRun(n - (1 + i), outer);
  }

  /** Cutting the tail off first and the head off then gives the same list. */
  lemma CutSteps(l: seq<Unr>, u: nat, i: nat, v: bool)
    requires u < |l| && i < l[u].len && l[u].ptr == (if v then Null else Header)
    ensures var tl := l[u].len - (1 + i);
            var l1 := if tl > 0 then Replace(l, u + 1, u + 1, [Unr(tl, l[u].ptr)]) else l;
            var l2 := if i > 0 then Replace(l1, u, u, [Unr(i, l[u].ptr)]) else l1;
            var w := if i > 0 then u + 1 else u;
            && w < |l2|
            && l2[w := Unr(1, if v then Header else Null)] == Replace(l, u, u + 1, Cut(l[u].len, i, v))
  {
    var tl := l[u].len - (1 + i);
    var a := if i > 0 then [Unr(i, l[u].ptr)] else [];
    var c := if tl > 0 then [Unr(tl, l[u].ptr)] else [];
    Insertions(l, u, a, c, Unr(1, if v then Header else Null));
  }

  lemma Insertions(l: seq<Unr>, u: nat, a: seq<Unr>, c: seq<Unr>, x: Unr)
    requires u < |l|
    ensures var l1 := Replace(l, u + 1, u + 1, c);
            var l2 := Replace(l1, u, u, a);
            && Replace(l, u + 1, u + 1, []) == l && Replace(l1, u, u, []) == l1
            && u + |a| < |l2| && l2[u + |a| := x] == Replace(l, u, u + 1, a + [x] + c)
  {
    var l1 := Replace(l, u + 1, u + 1, c);
    var l2 := Replace(l1, u, u, a);
    assert l1[..u] == l[..u] && l1[u..] == [l[u]] + (c + l[u + 1..]);
    assert l2 == l[..u] + a + ([l[u]] + (c + l[u + 1..]));
  }

  lemma CutEdit(l: seq<Unr>, u: nat, i: nat, v: bool)
    requires Body(l) && u < |l| && l[u].ptr == (if v then Null else Header) && i < l[u].len
    ensures Edit(l, u, u + 1, Cut(l[u].len, i, v), i, v)
    ensures ListWeight(l[u..u + 1]) == 1
    ensures HotAt(Replace(l, u, u + 1, Cut(l[u].len, i, v)), if i > 0 then u + 1 else u)
  {
    assert l[u..u + 1] == [l[u]];
    Singleton(l[u]);
    CutBits(l[u].len, i, v);
    CutHot(l, u, i, v);
  }

  lemma CutHot(l: seq<Unr>, u: nat, i: nat, v: bool)
    requires Body(l) && u < |l| && l[u].ptr == (if v then Null else Header) && i < l[u].len
    ensures HotAt(Replace(l, u, u + 1, Cut(l[u].len, i, v)), if i > 0 then u + 1 else u)
  {
    hide Count;
    var m := Cut(l[u].len, i, v);
    var q := Replace(l, u, u + 1, m);
    var h := if i > 0 then u + 1 else u;
    forall k | 0 <= k < |q|
      ensures Good(q[k])
    {
      assert k < u ==> q[k] == l[k] && Good(l[k]);
      assert u <= k < u + |m| ==> q[k] == m[k - u];
      assert k >= u + |m| ==> q[k] == l[k - |m| + 1] && Good(l[k - |m| + 1]);
    }
    forall k | 0 <= k < |q| && k != h && k + 1 != h
      ensures NoClash(q, k)
    {
      if k < u {
        assert NoClash(l, k);
      } else {
        assert NoClash(l, k - |m| + 1);
      }
    }
  }

  /** Moving the first unit of an allocated run into the free run before it. */
  lemma ShiftPrevEdit(l: seq<Unr>, u: nat)
    requires Body(l) && 0 < u < |l| && l[u - 1].ptr.Null? && l[u].ptr.Header? && l[u].len > 1
    ensures var m := [Unr(l[u - 1].len + 1, Null), Unr(l[u].len - 1, Header)];
            && Edit(l, u - 1, u + 1, m, l[u - 1].len, false)
            && ListWeight(m) == ListWeight(l[u - 1..u + 1])
            && HotAt(Replace(l, u - 1, u + 1, m), u)
            && |ListBits(l[..u])| == |ListBits(l[..u - 1])| + l[u - 1].len
  {
    assert l[u - 1..u + 1] == [l[u - 1], l[u]];
    Pair(l[u - 1], l[u]);
    Pair(Unr(l[u - 1].len + 1, Null), Unr(l[u].len - 1, Header));
    LastEntry(l, 0, u - 1);
    RecountPair(l, u - 1, l[u - 1].len + 1, l[u].len - 1);
  }

  /** Moving the last unit of an allocated run into the free run after it. */
  lemma ShiftNextEdit(l: seq<Unr>, u: nat)
    requires Body(l) && u + 1 < |l| && l[u + 1].ptr.Null? && l[u].ptr.Header? && l[u].len > 1
    ensures var m := [Unr(l[u].len - 1, Header), Unr(l[u + 1].len + 1, Null)];
            && Edit(l, u, u + 2, m, l[u].len - 1, false)
            && ListWeight(m) == ListWeight(l[u..u + 2])
            && HotAt(Replace(l, u, u + 2, m), u)
  {
    assert l[u..u + 2] == [l[u], l[u + 1]];
    Pair(l[u], l[u + 1]);
    Pair(Unr(l[u].len - 1, Header), Unr(l[u + 1].len + 1, Null));
    RecountPair(l, u, l[u].len - 1, l[u + 1].len + 1);
  }

  lemma RecountPair(l: seq<Unr>, u: nat, x: nat, y: nat)
    requires Body(l) && u + 1 < |l| && !l[u].ptr.Map? && !l[u + 1].ptr.Map? && x > 0 && y > 0
    ensures var q := Replace(l, u, u + 2, [Unr(x, l[u].ptr), Unr(y, l[u + 1].ptr)]);
            && Body(q) && HotAt(q, u) && HotAt(q, u + 1)
  {
    var q := Replace(l, u, u + 2, [Unr(x, l[u].ptr), Unr(y, l[u + 1].ptr)]);
    forall k | 0 <= k < |q|
      ensures Good(q[k]) && NoClash(q, k)
    {
      assert Good(l[k]) && NoClash(l, k);
      assert q[k].ptr == l[k].ptr;
      assert k + 1 < |l| ==> q[k + 1].ptr == l[k + 1].ptr;
    }
  }

  /** A free gap and one allocated unit. */
  function GapUnit(i: nat): seq<Unr> {
    (if i > 0 then [Unr(i, Null)] else []) + [Unr(1, Header)]
  }

  lemma TailBits(l: seq<Unr>, i: nat)
    ensures ListBits(l + GapUnit(i)) == ListBits(l) + Run(i, false) + Run(1, true)
    ensures ListWeight(l + GapUnit(i)) == ListWeight(l) + |GapUnit(i)|
  {
    ListConcat(l, GapUnit(i));
    Singleton(Unr(1, Header));
    if i > 0 {
      Pair(Unr(i, Null), Unr(1, Header));
    } else {
      assert GapUnit(0) == [Unr(1, Header)];
    }
    Associative(ListBits(l), Run(i, false), Run(1, true));
  }

  /** Appending them behind a canonical list leaves only the last entry to settle. */
  lemma TailHot(l: seq<Unr>, i: nat)
    requires Body(l) && Ends(l)
    ensures HotAt(l + GapUnit(i), |l + GapUnit(i)| - 1)
  {
    var q := l + GapUnit(i);
    forall k | 0 <= k < |q|
      ensures Good(q[k])
    {
      assert k < |l| ==> q[k] == l[k] && Good(l[k]);
    }
    forall k | 0 <= k < |q| && k != |q| - 1 && k + 1 != |q| - 1
      ensures NoClash(q, k)
    {
      assert k + 1 < |l| ==> NoClash(l, k);
    }
  }

  /** Putting the tail of the allocated prefix on the list keeps the list's body. */
  lemma HeadBody(l: seq<Unr>, n: nat)
    requires Body(l) && Ends(l) && n > 0
    ensures Body([Unr(n, Header)] + l)
    ensures ListBits([Unr(n, Header)] + l) == Run(n, true) + ListBits(l)
    ensures ListWeight([Unr(n, Header)] + l) == 1 + ListWeight(l)
  {
    var q := [Unr(n, Header)] + l;
    Singleton(Unr(n, Header));
    ListConcat([Unr(n, Header)], l);
    forall k | 0 <= k < |q|
      ensures Good(q[k]) && NoClash(q, k)
    {
      if k > 0 {
        assert q[k] == l[k - 1] && Good(l[k - 1]) && NoClash(l, k - 1);
      }
    }
  }

  /** The two entries line 646-654 builds need no collapsing. */
  lemma GapAndUnit(i: nat)
    requires i > 0
    ensures var m := [Unr(i, Null), Unr(1, Header)];
            && Body(m) && Ends(m) && Tight(m)
            && ListBits(m) == Run(i, false) + Run(1, true) && ListWeight(m) == 2
  {
    var m := [Unr(i, Null), Unr(1, Header)];
    Pair(m[0], m[1]);
    forall k | 0 <= k < |m|
      ensures Saving(m, k) < 3
    {
      assert WindowWeight(m, 2, i + 1) == 0 && WindowWeight(m, 1, i) <= 1;
    }
  }
}
