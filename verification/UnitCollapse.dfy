/** What each rewriting step of collapse_unr does to an entry list. */
module UnitCollapse {
  import opened UnitLists

  /** A bitmap that is all set or all clear becomes a run; anything else stays as it is. */
  function Unmixed(e: Unr): Unr {
    if e.ptr.Map? && e.ptr.ub.busy == e.len then Unr(e.len, Header)
    else if e.ptr.Map? && e.ptr.ub.busy == 0 then Unr(e.len, Null)
    else e
  }

  lemma UnmixedGood(e: Unr)
    requires MapOk(e)
    ensures MapOk(Unmixed(e)) && Bits(Unmixed(e)) == Bits(e)
    ensures Unmixed(e).ptr.Map? || Unmixed(e).len > 0 ==> Good(Unmixed(e))
    ensures Unmixed(e).ptr.Map? ==> Unmixed(e).len > 0
  {
    CountRange(Bits(e));
    forall i | 0 <= i < |Bits(e)|
      ensures Unmixed(e).ptr.Header? && e.ptr.Map? ==> Bits(e)[i]
      ensures Unmixed(e).ptr.Null? && e.ptr.Map? ==> !Bits(e)[i]
    {
      assert Bits(e)[i] in Bits(e);
    }
    assert |Bits(Unmixed(e))| == |Bits(e)|;
  }

  lemma UnmixedKeeps(l: seq<Unr>, u: nat)
    requires HotAt(l, u)
    ensures HotAt(l[u := Unmixed(l[u])], u)
    ensures ListBits(l[u := Unmixed(l[u])]) == ListBits(l)
    ensures ListWeight(l[u := Unmixed(l[u])]) + Weight(l[u]) == ListWeight(l) + Weight(Unmixed(l[u]))
  {
    hide HotAt, ListBits, ListWeight, Unmixed;
    UnmixedHot(l, u);
    var e := Unmixed(l[u]);
    UnmixedGood(l[u]);
    assert l[u := e] == Replace(l, u, u + 1, [e]);
    assert l[u..u + 1] == [l[u]];
    Singleton(e);
    Singleton(l[u]);
    NeutralSurgery(l, u, u + 1, [e]);
  }

  lemma UnmixedHot(l: seq<Unr>, u: nat)
    requires HotAt(l, u)
    ensures u < |l| && MapOk(l[u]) && HotAt(l[u := Unmixed(l[u])], u)
  {
    UnmixedGood(l[u]);
    var m := l[u := Unmixed(l[u])];
    forall k | 0 <= k < |m| && k != u && k + 1 != u
      ensures NoClash(m, k)
    {
      assert NoClash(l, k);
    }
  }

  lemma DropEmptyBits(l: seq<Unr>, u: nat)
    requires u < |l| && !l[u].ptr.Map? && l[u].len == 0
    ensures ListBits(Replace(l, u, u + 1, [])) == ListBits(l)
    ensures ListWeight(Replace(l, u, u + 1, [])) == ListWeight(l) - 1
  {
    assert l[u..u + 1] == [l[u]];
    Singleton(l[u]);
    assert Bits(l[u]) == [];
    NeutralSurgery(l, u, u + 1, []);
  }

  /** Removing the empty entry makes its left neighbour (or the new head) the hot one. */
  lemma DropEmpty(l: seq<Unr>, u: nat)
    requires HotAt(l, u)
    ensures var m := Replace(l, u, u + 1, []);
            && (forall k | 0 <= k < |m| :: Good(m[k]))
            && (u > 0 ==> HotAt(m, u - 1)) && (m != [] && u == 0 ==> HotAt(m, 0))
  {
    var m := Replace(l, u, u + 1, []);
    forall k | 0 <= k < |m|
      ensures Good(m[k])
    {
      assert m[k] == if k < u then l[k] else l[k + 1];
    }
    forall k | 0 <= k < |m| && k + 1 != u
      ensures NoClash(m, k)
    {
      assert k < u ==> NoClash(l, k);
      assert k >= u ==> NoClash(l, k + 1);
    }
  }

  function Merged(l: seq<Unr>, k: nat): seq<Unr>
    requires k + 1 < |l|
  {
    Replace(l, k, k + 2, [Unr(l[k].len + l[k + 1].len, l[k].ptr)])
  }

  lemma JoinedRuns(a: Unr, b: Unr)
    requires SamePtr(a.ptr, b.ptr)
    ensures Bits(Unr(a.len + b.len, a.ptr)) == Bits(a) + Bits(b)
    ensures Weight(Unr(a.len + b.len, a.ptr)) == Weight(a) == Weight(b) == 1
  {
  }

  lemma MergedBits(l: seq<Unr>, k: nat)
    requires k + 1 < |l| && SamePtr(l[k].ptr, l[k + 1].ptr)
    ensures ListBits(Merged(l, k)) == ListBits(l) && ListWeight(Merged(l, k)) == ListWeight(l) - 1
  {
    hide Bits, ListBits, ListWeight, Weight, Replace, SamePtr;
    var e := Unr(l[k].len + l[k + 1].len, l[k].ptr);
    JoinedRuns(l[k], l[k + 1]);
    assert l[k..k + 2] == [l[k], l[k + 1]];
    Pair(l[k], l[k + 1]);
    Singleton(e);
    NeutralSurgery(l, k, k + 2, [e]);
  }

  /** Two neighbouring runs of one kind become one run; merging with the left neighbour
      settles the left side of the hot entry, merging with the right one the right side. */
  lemma MergedKeeps(l: seq<Unr>, u: nat, k: nat)
    requires HotAt(l, u) && (k == u || k + 1 == u) && k + 1 < |l|
    requires forall j | 0 <= j < |l| :: Good(l[j])
    requires SamePtr(l[k].ptr, l[k + 1].ptr)
    ensures var m := Merged(l, k);
            && (forall j | 0 <= j < |m| :: Good(m[j]))
            && HotAt(m, k)
            && (k + 1 == u || NoClash(l, k - 1) ==> NoClash(m, k - 1))
            && (k == u ==> NoClash(m, k))
  {
    var m := Merged(l, k);
    forall j | 0 <= j < |m|
      ensures Good(m[j])
    {
      if j != k {
        assert m[j] == if j < k then l[j] else l[j + 1];
      }
    }
    forall j | 0 <= j < |m| && j != k && j + 1 != k
      ensures NoClash(m, j)
    {
      assert j < k ==> NoClash(l, j);
      assert j > k ==> NoClash(l, j + 1);
    }
    assert k > 0 && k + 1 == u ==> NoClash(l, k - 1);
    assert k == u ==> NoClash(l, k + 1);
  }

  lemma DropHead(l: seq<Unr>)
    requires Body(l) && l != []
    ensures Body(l[1..])
    ensures ListBits(l) == Bits(l[0]) + ListBits(l[1..]) && ListWeight(l) == Weight(l[0]) + ListWeight(l[1..])
    ensures l[0].ptr.Header? && l[1..] != [] ==> !l[1].ptr.Header?
    ensures l[1..] != [] ==> l[1..][|l| - 2] == l[|l| - 1]
  {
    var m := l[1..];
    forall k | 0 <= k < |m|
      ensures Good(m[k]) && NoClash(m, k)
    {
      assert m[k] == l[k + 1] && NoClash(l, k + 1);
    }
    assert NoClash(l, 0);
  }

  lemma DropTail(l: seq<Unr>)
    requires Body(l) && l != []
    ensures var n := |l| - 1;
            && Body(l[..n])
            && ListBits(l) == ListBits(l[..n]) + Bits(l[n]) && ListWeight(l) == ListWeight(l[..n]) + Weight(l[n])
            && (l[n].ptr.Null? && n > 0 ==> !l[n - 1].ptr.Null?)
  {
    hide Bits, ListBits, ListWeight, Good;
    var n := |l| - 1;
    var m := l[..n];
    forall k | 0 <= k < |m|
      ensures Good(m[k]) && NoClash(m, k)
    {
      assert m[k] == l[k] && NoClash(l, k);
    }
    assert NoClash(l, n - 1);
    assert l[0..n] == m && l[0..n + 1] == l;
    LastEntry(l, 0, n);
  }

  /** Replacing a window by one mixed bitmap leaves no equal neighbours and no bad ends. */
  lemma WindowToBitmap(l: seq<Unr>, s: nat, e: nat, b: Unr)
    requires Body(l) && s < e <= |l|
    requires b.ptr.Map? && MapOk(b) && Bits(b) == ListBits(l[s..e])
    requires ListWeight(l[s..e]) >= 3
    ensures Body(Replace(l, s, e, [b]))
    ensures Ends(l) ==> Ends(Replace(l, s, e, [b]))
  {
    hide ListBits, ListWeight, Bits;
    var m := Replace(l, s, e, [b]);
    MixedIsGood(l, s, e, b);
    hide Good, MapOk;
    forall k | 0 <= k < |m|
      ensures Good(m[k]) && NoClash(m, k)
    {
      if k < s {
        assert m[k] == l[k] && Good(l[k]) && NoClash(l, k);
      } else if k > s {
        assert m[k] == l[k + (e - s - 1)] && Good(l[k + (e - s - 1)]) && NoClash(l, k + (e - s - 1));
      }
    }
  }

  lemma MixedIsGood(l: seq<Unr>, s: nat, e: nat, b: Unr)
    requires Body(l) && s < e <= |l|
    requires b.ptr.Map? && MapOk(b) && Bits(b) == ListBits(l[s..e])
    requires ListWeight(l[s..e]) >= 3
    ensures Good(b)
  {
    WindowMixed(l, s, e);
    CountRange(Bits(b));
    GoodBits(b);
  }

  lemma WindowMixed(l: seq<Unr>, s: nat, e: nat)
    requires Body(l) && s < e <= |l| && ListWeight(l[s..e]) >= 3
    ensures true in ListBits(l[s..e]) && false in ListBits(l[s..e])
  {
    var w := l[s..e];
    forall k | 0 <= k < |w|
      ensures Good(w[k]) && NoClash(w, k)
    {
      assert w[k] == l[s + k] && NoClash(l, s + k);
    }
    LightList(w);
    assert w == [w[0], w[1]] + w[2..];
    ListConcat([w[0], w[1]], w[2..]);
    Pair(w[0], w[1]);
    GoodBits(w[0]);
    GoodBits(w[1]);
    assert NoClash(w, 0);
  }

  lemma LightList(w: seq<Unr>)
    ensures |w| <= 1 ==> ListWeight(w) <= 2
  {
    if |w| == 1 {
      assert w == [w[0]];
      Singleton(w[0]);
    }
  }
}
