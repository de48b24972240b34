/** The unit-number allocator of BsdSupport/subr_unit.c. */
module UnitNumbers {
  import opened UnitLists
  import opened UnitCollapse
  import opened UnitEdits
  import opened Sequences

  /** bit_nset and bit_nclear work on the inclusive range start..stop. */
  function NFill(bits: seq<bool>, start: nat, stop: int, v: bool): (r: seq<bool>)
    requires stop < |bits|
    ensures |r| == |bits|
    ensures forall i | 0 <= i < |bits| :: r[i] == if start <= i <= stop then v else bits[i]
  {
    seq(|bits|, i requires 0 <= i < |bits| => if start <= i <= stop then v else bits[i])
  }

  /** bit_ffc: the first clear bit among the first n, or -1. */
  method FirstClear(bits: seq<bool>, n: nat) returns (y: int)
    requires n <= |bits|
    ensures y == -1 <==> false !in bits[..n]
    ensures y != -1 ==> 0 <= y < n && !bits[y] && forall i | 0 <= i < y :: bits[i]
  {
    y := 0;
    while y < n
      invariant 0 <= y <= n
      invariant forall i | 0 <= i < y :: bits[i]
    {
      if !bits[y] {
        assert bits[..n][y] == false;
        return;
      }
      y := y + 1;
    }
    y := -1;
  }

  /** The loop that appends the bits of one bitmap to another, counting the set ones. */
  method AppendBits(dst: Unrb, at: nat, src: Unrb, n: nat) returns (r: Unrb)
    requires at + n <= |dst.bits| && n <= |src.bits|
    ensures |r.bits| == |dst.bits|
    ensures r.bits[..at + n] == dst.bits[..at] + src.bits[..n]
    ensures r.busy == dst.busy + Count(src.bits[..n])
  {
    r := dst;
    for l := 0 to n
      invariant |r.bits| == |dst.bits|
      invariant r.bits[..at + l] == dst.bits[..at] + src.bits[..l]
      invariant r.busy == dst.busy + Count(src.bits[..l])
    {
      CountConcat(src.bits[..l], [src.bits[l]]);
      assert src.bits[..l + 1] == src.bits[..l] + [src.bits[l]];
      if src.bits[l] {
        r := Unrb(r.busy + 1, r.bits[at + l := true]);
      } else {
        r := Unrb(r.busy, r.bits[at + l := false]);
      }
      assert Count([src.bits[l]]) == if src.bits[l] then 1 else 0;
      assert r.bits[..at + l + 1] == r.bits[..at + l] + [src.bits[l]];
    }
  }

  /** Lines 412-421. The fill runs one bit past the run; the next append overwrites that bit. */
  method RunToBitmap(e: Unr, raw: seq<bool>) returns (ub: Unrb)
    requires !e.ptr.Map? && e.len < |raw|
    ensures |ub.bits| == |raw| && ub.bits[..e.len] == Bits(e) && ub.busy == Count(Bits(e))
  {
    CountRun(e.len, e.ptr.Header?);
    ub := Unrb(0, NFill(raw, 0, e.len, e.ptr.Header?));
    if e.ptr.Header? {
      ub := ub.(busy := ub.busy + e.len);
    }
  }

  /** Lines 422-428, and again lines 455-463. */
  method AppendRun(ub: Unrb, at: nat, e: Unr) returns (r: Unrb)
    requires !e.ptr.Map? && at + e.len <= |ub.bits|
    ensures |r.bits| == |ub.bits| && r.bits[..at + e.len] == ub.bits[..at] + Bits(e)
    ensures r.busy == ub.busy + Count(Bits(e))
  {
    CountRun(e.len, e.ptr.Header?);
    r := ub.(bits := NFill(ub.bits, at, at + e.len - 1, e.ptr.Header?));
    if e.ptr.Header? {
      r := r.(busy := r.busy + e.len);
    }
  }

  class UnrHdr {
    const low: nat
    const high: nat
    /** Whether line 655 subtracts first, as line 716 does. The code as it stands has false. */
    const repaired: bool
    var list: seq<Unr>
    var first: nat
    var last: nat
    var busy: nat
    var alloc: int
    /** Blocks waiting on ppfree until the lock is dropped. */
    var ppfree: nat
    /** How many units beyond high the header describes: none, unless line 655 has miscounted. */
    ghost var surplus: nat

    /** One boolean per unit low..high: is it allocated? */
    ghost function Units(): seq<bool>
      reads this
    {
      UnitsOf(first, ListBits(list), last)
    }

    ghost predicate Counted()
      reads this
    {
      && low <= high
      && |Units()| == high - low + 1 + surplus
      && busy == Count(Units())
      && alloc == ListWeight(list)
    }

    /** The form every public operation starts from and ends in, for the units the header describes. */
    ghost predicate Canonical()
      reads this
    {
      Counted() && Body(list) && Ends(list) && Tight(list)
    }

    /** The canonical form, for exactly the units low..high. */
    ghost predicate Valid()
      reads this
    {
      Canonical() && surplus == 0
    }

    /** A rewriting step keeps the units and moves every block it drops to ppfree. */
    twostate predicate Rewritten()
      reads this
    {
      && Units() == old(Units())
      && busy == old(busy) && surplus == old(surplus)
      && alloc + old(ListWeight(list)) == old(alloc) + ListWeight(list)
      && alloc + ppfree == old(alloc) + old(ppfree)
    }

    method DeleteUnr()
      modifies this`alloc, this`ppfree
      ensures alloc == old(alloc) - 1 && ppfree == old(ppfree) + 1
    {
      alloc := alloc - 1;
      ppfree := ppfree + 1;
    }

    method FindWindow() returns (us: nat, ba: nat)
      ensures ba == 0 ==> forall j | 0 <= j < |list| :: Saving(list, j) == 0
      ensures ba > 0 ==> IsBest(list, us) && Saving(list, us) == ba
    {
      us, ba := 0, 0;
      for k := 0 to |list|
        invariant forall j | 0 <= j < k :: Saving(list, j) <= ba
        invariant ba > 0 ==> us < k && Saving(list, us) == ba && forall j | 0 <= j < us :: Saving(list, j) < ba
      {
        if list[k].len < NBITS {
          var a: nat := if list[k].ptr.Map? then 2 else 1;
          var l: nat := list[k].len;
          var j: nat := k + 1;
          while j < |list| && list[j].len + l <= NBITS
            invariant k < j <= |list|
            invariant a + WindowWeight(list, j, l) == Saving(list, k)
          {
            a := a + if list[j].ptr.Map? then 2 else 1;
            l := l + list[j].len;
            j := j + 1;
          }
          if a > ba {
            ba, us := a, k;
          }
        }
      }
    }

    /** Lines 409-447: the first two entries of the window become one bitmap, whose storage
        is the first entry itself. Its bits are at first whatever that entry left there. */
    method StartBitmap(us: nat)
      requires us + 1 < |list| && !list[us].ptr.Map?
      requires Good(list[us]) && Good(list[us + 1]) && list[us].len + list[us + 1].len <= NBITS
      modifies this`list, this`alloc, this`ppfree
      ensures us < |list| && list == Replace(old(list), us, us + 2, [list[us]])
      ensures list[us].ptr.Map? && MapOk(list[us])
      ensures Bits(list[us]) == Bits(old(list[us])) + Bits(old(list[us + 1]))
      ensures alloc + Weight(old(list[us + 1])) == old(alloc) + 1
      ensures alloc + ppfree == old(alloc + ppfree)
    {
      var us0, uf := list[us], list[us + 1];
      var raw: seq<bool> :| |raw| == NBITS by {
        assert |Run(NBITS, false)| == NBITS;
      }
      var ub := RunToBitmap(us0, raw);
      if !uf.ptr.Map? {
        ub := AppendRun(ub, us0.len, uf);
      } else {
        ub := AppendBits(ub, us0.len, uf.ptr.ub, uf.len);
        DeleteUnr();
      }
      CountConcat(Bits(us0), Bits(uf));
      list := Replace(list, us, us + 2, [Unr(us0.len + uf.len, Map(ub))]);
    }

    /** One turn of the loop at lines 449-480. */
    method AbsorbOne(us: nat)
      requires us + 1 < |list| && list[us].ptr.Map? && MapOk(list[us])
      requires Good(list[us + 1]) && list[us + 1].len + list[us].len <= NBITS
      modifies this`list, this`alloc, this`ppfree
      ensures us < |list| && list == Replace(old(list), us, us + 2, [list[us]])
      ensures list[us].ptr.Map? && MapOk(list[us])
      ensures list[us].len == old(list[us].len) + old(list[us + 1].len)
      ensures Bits(list[us]) == Bits(old(list[us])) + Bits(old(list[us + 1]))
      ensures alloc + Weight(old(list[us + 1])) == old(alloc)
      ensures alloc + ppfree == old(alloc + ppfree)
    {
      var u, uf := list[us], list[us + 1];
      var ub;
      CountConcat(Bits(u), Bits(uf));
      if !uf.ptr.Map? {
        ub := AppendRun(u.ptr.ub, u.len, uf);
      } else {
        ub := AppendBits(u.ptr.ub, u.len, uf.ptr.ub, uf.len);
        DeleteUnr();
      }
      DeleteUnr();
      list := Replace(list, us, us + 2, [Unr(u.len + uf.len, Map(ub))]);
    }

    /** Lines 448-480: the bitmap at us swallows its right neighbours while they fit. */
    method AbsorbRight(us: nat)
      requires us < |list| && list[us].ptr.Map? && MapOk(list[us])
      requires forall k | us < k < |list| :: Good(list[k])
      modifies this`list, this`alloc, this`ppfree
      ensures var e := WindowEnd(old(list), us + 1, old(list[us].len));
              && us < |list| && list == Replace(old(list), us, e, [list[us]])
              && Bits(list[us]) == ListBits(old(list)[us..e])
              && alloc + ListWeight(old(list)[us..e]) == old(alloc) + 2
      ensures list[us].ptr.Map? && MapOk(list[us])
      ensures alloc + ppfree == old(alloc + ppfree)
    {
      hide Bits, ListBits, ListWeight, Weight, MapOk, WindowEnd, Absorbed;
      ghost var L := list;
      ghost var e := us + 1;
      ghost var E := WindowEnd(L, us + 1, L[us].len);
      AbsorbStart(L, us);
      while us + 1 < |list| && list[us + 1].len + list[us].len <= NBITS
        invariant us < e <= |L| && us < |list|
        invariant Absorbed(L, us, e, list)
        invariant list[us].ptr.Map? && MapOk(list[us])
        invariant WindowEnd(L, e, list[us].len) == E
        invariant alloc + ListWeight(L[us..e]) == old(alloc) + 2
        invariant alloc + ppfree == old(alloc + ppfree)
        decreases |L| - e
      {
        ghost var p := list;
        AbsorbNext(L, us, e, p);
        AbsorbOne(us);
        AbsorbStep(L, us, e, p, list);
        e := e + 1;
      }
      AbsorbEnd(L, us, e, list);
    }

    /** Lines 405-480: the window from us on becomes one bitmap. */
    method FoldWindow(us: nat)
      requires Counted() && Body(list) && us < |list| && Saving(list, us) >= 3
      modifies this`list, this`alloc, this`ppfree
      ensures Rewritten() && Counted() && Body(list) && |list| < |old(list)|
      ensures old(Ends(list)) ==> Ends(list)
      ensures us < |list| && list[us].ptr.Map?
      ensures list == Replace(old(list), us, WindowEnd(old(list), us + 1, old(list)[us].len), [list[us]])
    {
      hide Bits, ListBits, ListWeight, Weight, MapOk, WindowEnd, Body, Good, Saving, Ends, UnitsOf, Count;
      ghost var L := list;
      WindowStart(L, us);
      if !list[us].ptr.Map? {
        StartBitmap(us);
      }
      ghost var M := list;
      AfterStart(L, us, M);
      AbsorbRight(us);
      AfterAbsorb(L, us, M, list);
    }

    /** Rewrites the window that saves most memory, if some window saves any. */
    method OptimizeUnr() returns (again: bool, ghost s: nat)
      requires Counted() && Body(list)
      modifies this`list, this`alloc, this`ppfree
      ensures Rewritten() && Counted() && Body(list)
      ensures old(Ends(list)) ==> Ends(list)
      ensures !again ==> list == old(list) && Tight(list)
      ensures again ==> IsBest(old(list), s) && |list| < |old(list)| && s < |list| && list[s].ptr.Map?
      ensures again ==> list == Replace(old(list), s, WindowEnd(old(list), s + 1, old(list)[s].len), [list[s]])
    {
      hide ListBits, ListWeight, MapOk, WindowEnd, Body, Good, Saving, Ends, UnitsOf, Count;
      var us, ba := FindWindow();
      s, again := us, ba >= 3;
      if again {
        FoldWindow(us);
      }
    }

    /** Lines 494-504. */
    method Unmix(u: nat)
      requires Counted() && HotAt(list, u)
      modifies this`list, this`alloc, this`ppfree
      ensures Rewritten() && Counted() && |list| == |old(list)| && HotAt(list, u)
      ensures list[u].ptr.Map? || list[u].len > 0 ==> Good(list[u])
      ensures list[u].ptr.Map? ==> list[u].len > 0
    {
      hide HotAt, Good, MapOk, Bits, ListBits, ListWeight, UnitsOf, Count;
      HotEntry(list, u);
      UnmixedGood(list[u]);
      UnmixedKeeps(list, u);
      var up := list[u];
      if up.ptr.Map? {
        if up.ptr.ub.busy == up.len {
          DeleteUnr();
          list := list[u := Unr(up.len, Header)];
        } else if up.ptr.ub.busy == 0 {
          DeleteUnr();
          list := list[u := Unr(up.len, Null)];
        } else {
          assert list == list[u := up];
        }
      } else {
        assert list == list[u := up];
      }
    }

    /** Lines 506-514: the index of the new hot entry, or -1 when the list is empty now. */
    method RemoveEmpty(u: nat) returns (up: int)
      requires Counted() && HotAt(list, u)
      requires list[u].ptr.Map? || list[u].len > 0 ==> Good(list[u])
      requires list[u].ptr.Map? ==> list[u].len > 0
      modifies this`list, this`alloc, this`ppfree
      ensures Rewritten() && Counted()
      ensures forall k | 0 <= k < |list| :: Good(list[k])
      ensures up == -1 ==> list == []
      ensures up != -1 ==> 0 <= up < |list| && HotAt(list, up)
    {
      hide HotAt, Good, MapOk, Bits, ListBits, ListWeight, UnitsOf, Count;
      HotEntry(list, u);
      up := u;
      if list[u].len == 0 {
        DropEmptyBits(list, u);
        DropEmpty(list, u);
        up := if u > 0 then u - 1 else if |list| > 1 then 0 else -1;
        list := Replace(list, u, u + 1, []);
        DeleteUnr();
      }
    }

    /** Lines 516-530: merge the hot entry with equal runs on either side. */
    method MergeNeighbours(u: nat)
      requires Counted() && HotAt(list, u) && forall k | 0 <= k < |list| :: Good(list[k])
      modifies this`list, this`alloc, this`ppfree
      ensures Rewritten() && Counted() && Body(list)
    {
      hide HotAt, Good, MapOk, Bits, ListBits, ListWeight, UnitsOf, Count, NoClash, Merged, Replace;
      HotEntry(list, u);
      var up := u;
      if up > 0 && SamePtr(list[up].ptr, list[up - 1].ptr) {
        MergedBits(list, up - 1);
        MergedKeeps(list, up, up - 1);
        list := Merged(list, up - 1);
        up := up - 1;
        DeleteUnr();
      }
      HotEntry(list, up);
      if up + 1 < |list| && SamePtr(list[up].ptr, list[up + 1].ptr) {
        MergedBits(list, up);
        MergedKeeps(list, up, up);
        list := Merged(list, up);
        DeleteUnr();
      }
      HotIsBody(list, up);
    }

    /** Lines 532-540: an allocated head joins first. */
    method MergeHead()
      requires Counted() && Body(list)
      modifies this
      ensures Rewritten() && Counted() && Body(list) && (list != [] ==> !list[0].ptr.Header?)
    {
      hide Good, NoClash, Body, MapOk, ListBits, ListWeight, UnitsOf, Count;
      if list != [] && list[0].ptr.Header? {
        DropHead(list);
        ShiftFirst(first, list[0].len, ListBits(list[1..]), last);
        first := first + list[0].len;
        list := list[1..];
        DeleteUnr();
      }
    }

    /** Lines 532-550: an allocated head joins first, a free tail joins last. */
    method MergeEnds()
      requires Counted() && Body(list)
      modifies this
      ensures Rewritten() && Counted() && Body(list) && Ends(list)
    {
      hide Good, NoClash, Body, MapOk, ListBits, ListWeight, UnitsOf, Count;
      MergeHead();
      if list != [] && list[|list| - 1].ptr.Null? {
        var n := |list| - 1;
        DropTail(list);
        ShiftLast(first, ListBits(list[..n]), list[n].len, last);
        last := last + list[n].len;
        list := list[..n];
        DeleteUnr();
      }
    }

    /** Restores the canonical form around a changed entry. */
    method CollapseUnr(u: nat)
      requires Counted() && HotAt(list, u)
      modifies this
      ensures Rewritten() && Canonical()
    {
      hide HotAt, Good, MapOk, ListBits, ListWeight, UnitsOf, Ends, Tight;
      Unmix(u);
      var up := RemoveEmpty(u);
      if up != -1 {
        MergeNeighbours(up);
      }
      MergeEnds();
      var again := true;
      while again
        invariant Rewritten() && Counted() && Body(list) && Ends(list)
        invariant !again ==> Tight(list)
        decreases |list|, again
      {
        ghost var s;
        again, s := OptimizeUnr();
      }
    }

    // ---------- the public operations ----------

    constructor (low: nat, high: nat, repaired: bool)
      requires low <= high
      ensures Valid() && this.low == low && this.high == high && this.repaired == repaired
      ensures Units() == Run(high - low + 1, false) && ppfree == 0
    {
      this.low, this.high, this.repaired := low, high, repaired;
      list := [];
      first, last := 0, 1 + (high - low);
      busy, alloc, ppfree, surplus := 0, 0, 0, 0;
      new;
      CountRun(last, false);
      assert Units() == Run(last, false);
    }

    /** Takes one of the two preallocated nodes; false stands for NULL. */
    method NewUnr(p1: bool, p2: bool) returns (q1: bool, q2: bool)
      requires p1 || p2
      modifies this`alloc
      ensures alloc == old(alloc) + 1 && Spare(q1, q2) + 1 == Spare(p1, p2)
    {
      alloc := alloc + 1;
      if p1 {
        q1, q2 := false, p2;
      } else {
        q1, q2 := false, false;
      }
    }

    /** The entry that holds the i-th unit after first, and the unit's place in it. */
    method Locate(i0: nat) returns (u: nat, i: nat)
      requires Body(list)
      ensures u <= |list| && |ListBits(list[..u])| + i == i0
      ensures u < |list| ==> i < list[u].len
      ensures u == |list| ==> ListBits(list[..u]) == ListBits(list)
    {
      u, i := 0, i0;
      while u < |list| && list[u].len <= i
        invariant u <= |list| && |ListBits(list[..u])| + i == i0
      {
        assert Good(list[u]);
        GoodBits(list[u]);
        LastEntry(list, 0, u);
        assert list[..u] == list[0..u] && list[..u + 1] == list[0..u + 1];
        i := i - list[u].len;
        u := u + 1;
      }
      assert list[..|list|] == list;
    }

    /** Allocates the lowest free unit, or returns -1 when there is none. Never needs memory. */
    method AllocUnrL() returns (x: int)
      requires Canonical()
      modifies this
      ensures Canonical() && surplus == old(surplus) && alloc + ppfree == old(alloc + ppfree)
      ensures x == -1 <==> false !in old(Units())
      ensures x == -1 ==> Units() == old(Units())
      ensures x != -1 ==> low <= x <= high + surplus && IsLeastFree(old(Units()), x - low)
                          && Units() == old(Units())[x - low := true]
      ensures old(list) == [] ==> list == [] && first == old(first) + if x == -1 then 0 else 1
    {
      hide Body, Ends, Tight, ListBits, ListWeight, UnitsOf, Count, HotAt;
      x := low + first;
      ghost var U := Units();
      UnitsShape(first, list, last);
      if list == [] && last > 0 {
        IdealSplit(first, last);
        CountUpdate(U, first, true);
        first, last, busy := first + 1, last - 1, busy + 1;
        return;
      }
      if list == [] {
        return -1;
      }
      HeadIsUsable(list);
      assert !list[0].ptr.Header?;
      if list[0].ptr.Null? {
        TakeFirstUnit(first, list, last);
        CountUpdate(U, first, true);
        first := first + 1;
        list := list[0 := Unr(list[0].len - 1, Null)];
      } else {
        var ub := list[0].ptr.ub;
        assert ub.busy < list[0].len;
        var y := FirstClear(ub.bits, list[0].len);
        assert y != -1;
        TakeFirstClear(first, list, last, y);
        list := list[0 := BitSet(list[0], y, true)];
        x := x + y;
      }
      busy := busy + 1;
      CollapseUnr(0);
    }

    /** The branch at lines 646-658. */
    ghost predicate FarFromPrefix(item: nat)
      reads this
    {
      list == [] && low + first < item <= high
    }

    /** Lines 646-658: a free gap and the unit become the list. Line 655 sets last anew, and
        leaves first out unless it is repaired. */
    method AllocFar(item: nat, p1: bool, p2: bool) returns (q1: bool, q2: bool)
      requires Canonical() && p1 && p2 && FarFromPrefix(item)
      modifies this
      ensures Canonical() && alloc + ppfree + Spare(q1, q2) == old(alloc + ppfree) + 2
      ensures surplus == if repaired then 0 else old(first)
      ensures item - low < |old(Units())|
      ensures Units() == Resized(old(Units())[item - low := true], high - low + 1 + surplus)
    {
      hide Body, Ends, Tight, ListBits, ListWeight, UnitsOf, Count, HotAt, Resized;
      UnitsShape(first, list, last);
      var i := item - low - first;
      GapAndUnit(i);
      TakeBeyond(first, [], last, i);
      CountUpdate(Units(), item - low, true);
      q1, q2 := NewUnr(p1, p2);
      q1, q2 := NewUnr(q1, q2);
      list := [Unr(i, Null), Unr(1, Header)];
      assert [] + Run(i, false) + Run(1, true) == Run(i, false) + Run(1, true);
      surplus := if repaired then 0 else first;
      ResizeSuffix(first, ListBits(list), last - i - 1, high - low + 1 + surplus);
      last := if repaired then high - low - first - i else high - low - i;
      busy := busy + 1;
    }

    /** Lines 668-679: the unit lies in the free suffix behind the list. */
    method ClaimBeyond(i: nat, p1: bool, p2: bool) returns (u: nat, q1: bool, q2: bool)
      requires Body(list) && Ends(list) && alloc == ListWeight(list) && p1 && p2
      modifies this`list, this`alloc
      ensures alloc == ListWeight(list) && alloc + Spare(q1, q2) == old(alloc) + 2
      ensures ListBits(list) == ListBits(old(list)) + Run(i, false) + Run(1, true)
      ensures HotAt(list, u)
    {
      hide Body, Ends, ListBits, ListWeight, HotAt;
      TailBits(list, i);
      TailHot(list, i);
      q1, q2 := p1, p2;
      if i > 0 {
        q1, q2 := NewUnr(q1, q2);
        list := list + [Unr(i, Null)];
      }
      q1, q2 := NewUnr(q1, q2);
      list := list + [Unr(1, Header)];
      assert list == old(list) + GapUnit(i);
      u := |list| - 1;
    }

    /** Cutting one unit out of a run, tail first (lines 696-713, and again 840-857). */
    method CutRun(u0: nat, i: nat, v: bool, p1: bool, p2: bool) returns (u: nat, q1: bool, q2: bool)
      requires u0 < |list| && i < list[u0].len && list[u0].ptr == (if v then Null else Header)
      requires 0 < i < list[u0].len - 1 ==> p1 && p2
      requires 1 < list[u0].len ==> p1 || p2
      modifies this`list, this`alloc
      ensures list == Replace(old(list), u0, u0 + 1, Cut(old(list)[u0].len, i, v))
      ensures u == if i > 0 then u0 + 1 else u0
      ensures alloc + 1 == old(alloc) + |Cut(old(list)[u0].len, i, v)|
      ensures alloc + Spare(q1, q2) == old(alloc) + Spare(p1, p2)
    {
      CutSteps(list, u0, i, v);
      hide Replace, Cut;
      u, q1, q2 := u0, p1, p2;
      var outer := list[u].ptr;
      var tl := list[u].len - (1 + i);
      if tl > 0 {
        q1, q2 := NewUnr(q1, q2);
        list := Replace(list, u + 1, u + 1, [Unr(tl, outer)]);
      }
      if i > 0 {
        q1, q2 := NewUnr(q1, q2);
        list := Replace(list, u, u, [Unr(i, outer)]);
        u := u + 1;
      }
      list := list[u := Unr(1, if v then Header else Null)];
      CutLength(old(list)[u0].len, i, v);
    }

    /** Lines 682-713: the unit lies in entry u0; ok says whether it was free. */
    method ClaimListed(u0: nat, i: nat, p1: bool, p2: bool) returns (ok: bool, u: nat, q1: bool, q2: bool)
      requires Counted() && Body(list) && p1 && p2
      requires u0 < |list| && i < list[u0].len
      modifies this`list, this`alloc
      ensures alloc == ListWeight(list) && alloc + Spare(q1, q2) == old(alloc) + 2
      ensures var at := first + |ListBits(old(list)[..u0])| + i;
              && at < |old(Units())| && ok == !old(Units())[at]
              && at < first + |ListBits(old(list))|
              && (ok ==> Units() == old(Units())[at := true] && Count(Units()) == old(busy) + 1 && HotAt(list, u))
      ensures |ListBits(list)| == |ListBits(old(list))|
      ensures !ok ==> list == old(list)
    {
      hide Body, Ends, Tight, ListBits, ListWeight, UnitsOf, Count, HotAt;
      ok, u, q1, q2 := false, u0, p1, p2;
      UnitValue(first, list, last, u, i);
      UnitsShape(first, list, last);
      EntryIsGood(list, u);
      if list[u].ptr.Map? {
        if list[u].ptr.ub.bits[i] {
          return;
        }
        BitEdit(list, u, i, true);
        EditUnits(list, u, u + 1, [BitSet(list[u], i, true)], i, true, first, last);
        BitSetWeight(list, u, i, true);
        list := list[u := BitSet(list[u], i, true)];
      } else if list[u].ptr.Header? {
        return;
      } else {
        CutEdit(list, u, i, true);
        CutBits(list[u].len, i, true);
        EditUnits(list, u, u + 1, Cut(list[u].len, i, true), i, true, first, last);
        u, q1, q2 := CutRun(u, i, true, q1, q2);
      }
      UnitsShape(first, list, last);
      ok := true;
    }

    /** The surplus once item has been allocated: line 655 and the cut at line 717 are the two
        places where last is set without regard to what it was. */
    ghost function SurplusAfter(item: nat): nat
      reads this
      requires low <= item <= high
    {
      if list == [] then
        if item - low == first then surplus else if repaired then 0 else first
      else
        var behind := first + |ListBits(list)| - (item - low + 1);
        if behind < 0 then 0 else if behind < surplus then behind else surplus
    }

    /** Lines 715-720, after the label done. */
    method CutLast(item: nat, u: nat, ghost after: nat)
      requires low <= item <= high && HotAt(list, u) && alloc == ListWeight(list)
      requires busy + 1 == Count(UnitsOf(first, ListBits(list), last))
      requires first + |ListBits(list)| + (if last > high - item then high - item else last) == high - low + 1 + after
      modifies this
      ensures Canonical() && surplus == after && alloc + ppfree == old(alloc + ppfree)
      ensures Units() == UnitsOf(old(first), old(ListBits(list)), if old(last) > high - item then high - item else old(last))
    {
      hide Body, Ends, Tight, ListBits, ListWeight, UnitsOf, Count, HotAt;
      CountSuffix(first, ListBits(list), last);
      surplus := after;
      var newLast := high - low - (item - low);
      if last > newLast {
        last := newLast;
      }
      busy := busy + 1;
      CountSuffix(first, ListBits(list), last);
      UnitsShape(first, list, last);
      CollapseUnr(u);
    }

    /** Lines 660-722: the unit is in an entry or behind the last one. */
    method AllocListed(item: nat, p1: bool, p2: bool) returns (r: int, q1: bool, q2: bool)
      requires Canonical() && p1 && p2 && list != [] && low + first <= item <= high
      modifies this
      ensures Canonical() && alloc + ppfree + Spare(q1, q2) == old(alloc + ppfree) + 2
      ensures r == if !old(Units())[item - low] then item else -1
      ensures r == -1 ==> Units() == old(Units()) && surplus == old(surplus)
      ensures r != -1 ==>
                && surplus == old(SurplusAfter(item))
                && Units() == Resized(old(Units())[item - low := true], high - low + 1 + surplus)
    {
      hide Body, Ends, Tight, ListBits, ListWeight, UnitsOf, Count, HotAt, Resized;
      q1, q2 := p1, p2;
      ghost var U := Units();
      UnitsShape(first, list, last);
      var u, i := Locate(item - low - first);
      if u == |list| {
        TakeBeyond(first, ListBits(list), last, i);
        CountUpdate(U, item - low, true);
        u, q1, q2 := ClaimBeyond(i, q1, q2);
        ResizeSuffix(first, ListBits(list), last - i - 1, high - low + 1);
        CountSuffix(first, ListBits(list), last);
        CountSuffix(first, ListBits(list), last - i - 1);
      } else {
        var ok;
        ok, u, q1, q2 := ClaimListed(u, i, q1, q2);
        if !ok {
          return -1, q1, q2;
        }
        ResizeSuffix(first, ListBits(list), last, high - low + 1 + old(SurplusAfter(item)));
      }
      CutLast(item, u, old(SurplusAfter(item)));
      r := item;
    }

    /** Allocates the given unit, or returns -1 when it is out of range or taken. The header stays
        canonical for the units it describes. It describes exactly low..high again, if it did
        before, except when line 655 runs unrepaired with a non-empty prefix; then it describes
        first units too many. */
    method AllocUnrSpecificL(item: nat, p1: bool, p2: bool) returns (r: int, q1: bool, q2: bool)
      requires Canonical() && p1 && p2
      modifies this
      ensures Canonical() && alloc + ppfree + Spare(q1, q2) == old(alloc + ppfree) + 2
      ensures r == if low <= item <= high && !old(Units())[item - low] then item else -1
      ensures r == -1 ==> Units() == old(Units()) && surplus == old(surplus)
      ensures r != -1 ==>
                && surplus == old(SurplusAfter(item))
                && Units() == Resized(old(Units())[item - low := true], high - low + 1 + surplus)
      ensures old(Valid()) ==> (Valid() <==> repaired || !old(FarFromPrefix(item)) || old(first) == 0)
    {
      hide Body, Ends, Tight, ListBits, ListWeight, UnitsOf, Count, HotAt, Resized;
      q1, q2 := p1, p2;
      ghost var U := Units();
      UnitsShape(first, list, last);
      if item < low + first || item > high {
        return -1, q1, q2;
      }
      if list == [] && item - low == first {
        IdealSplit(first, last);
        CountUpdate(U, first, true);
        ResizedSame(U[first := true]);
        first, last, busy := first + 1, last - 1, busy + 1;
        return item, q1, q2;
      }
      if list == [] {
        q1, q2 := AllocFar(item, q1, q2);
        return item, q1, q2;
      }
      r, q1, q2 := AllocListed(item, p1, p2);
    }

    /** The first unit of the run u goes to the free run before it. */
    method ShiftPrev(u: nat)
      requires Counted() && Body(list) && 0 < u < |list|
      requires list[u - 1].ptr.Null? && list[u].ptr.Header? && list[u].len > 1
      modifies this`list
      ensures alloc == ListWeight(list) && HotAt(list, u)
      ensures var at := first + |ListBits(old(list)[..u])|;
              && at < |old(Units())| && Units() == old(Units())[at := false]
              && Count(Units()) + 1 == old(busy)
    {
      hide Body, Ends, Tight, ListBits, ListWeight, UnitsOf, Count, HotAt;
      ShiftPrevEdit(list, u);
      ghost var m := [Unr(list[u - 1].len + 1, Null), Unr(list[u].len - 1, Header)];
      EditUnits(list, u - 1, u + 1, m, list[u - 1].len, false, first, last);
      list := list[u - 1 := list[u - 1].(len := list[u - 1].len + 1)];
      list := list[u := list[u].(len := list[u].len - 1)];
      assert list == Replace(old(list), u - 1, u + 1, m);
    }

    /** The last unit of the run u goes to the free run after it. */
    method ShiftNext(u: nat)
      requires Counted() && Body(list) && u + 1 < |list|
      requires list[u + 1].ptr.Null? && list[u].ptr.Header? && list[u].len > 1
      modifies this`list
      ensures alloc == ListWeight(list) && HotAt(list, u)
      ensures var at := first + |ListBits(old(list)[..u])| + old(list[u].len) - 1;
              && at < |old(Units())| && Units() == old(Units())[at := false]
              && Count(Units()) + 1 == old(busy)
    {
      hide Body, Ends, Tight, ListBits, ListWeight, UnitsOf, Count, HotAt;
      ShiftNextEdit(list, u);
      ghost var m := [Unr(list[u].len - 1, Header), Unr(list[u + 1].len + 1, Null)];
      EditUnits(list, u, u + 2, m, list[u].len - 1, false, first, last);
      list := list[u + 1 := list[u + 1].(len := list[u + 1].len + 1)];
      list := list[u := list[u].(len := list[u].len - 1)];
      assert list == Replace(old(list), u, u + 2, m);
    }

    /** Lines 797-859: clears the i-th unit of entry u0, which is allocated. */
    method ReleaseListed(u0: nat, i: nat, p1: bool, p2: bool) returns (u: nat, q1: bool, q2: bool)
      requires Counted() && Body(list) && (p1 || p2)
      requires u0 < |list| && i < list[u0].len && i < |Bits(list[u0])| && Bits(list[u0])[i]
      requires 0 < i ==> p1 && p2
      modifies this`list, this`alloc
      ensures alloc == ListWeight(list) && alloc + Spare(q1, q2) == old(alloc) + Spare(p1, p2)
      ensures var at := first + |ListBits(old(list)[..u0])| + i;
              && at < |old(Units())| && Units() == old(Units())[at := false]
              && Count(Units()) + 1 == old(busy)
      ensures HotAt(list, u)
    {
      hide Body, Ends, Tight, ListBits, ListWeight, UnitsOf, Count, HotAt;
      u, q1, q2 := u0, p1, p2;
      UnitValue(first, list, last, u, i);
      EntryIsGood(list, u);
      if list[u].ptr.Map? {
        BitEdit(list, u, i, false);
        EditUnits(list, u, u + 1, [BitSet(list[u], i, false)], i, false, first, last);
        BitSetWeight(list, u, i, false);
        list := list[u := BitSet(list[u], i, false)];
        return;
      }
      assert list[u].ptr.Header?;
      if list[u].len == 1 {
        CutEdit(list, u, i, false);
        CutBits(1, i, false);
        EditUnits(list, u, u + 1, Cut(1, i, false), i, false, first, last);
        list := list[u := Unr(1, Null)];
        assert list == Replace(old(list), u, u + 1, Cut(1, i, false));
        return;
      }
      if i == 0 && u > 0 && list[u - 1].ptr.Null? {
        ShiftPrev(u);
        return;
      }
      if i == list[u].len - 1 && u + 1 < |list| && list[u + 1].ptr.Null? {
        ShiftNext(u);
        return;
      }
      CutEdit(list, u, i, false);
      CutBits(list[u].len, i, false);
      EditUnits(list, u, u + 1, Cut(list[u].len, i, false), i, false, first, last);
      u, q1, q2 := CutRun(u, i, false, q1, q2);
    }

    /** Releases an allocated unit; never needs more than the two nodes. */
    method FreeUnrL(item0: nat, p1: bool, p2: bool) returns (q1: bool, q2: bool)
      requires Canonical() && p1 && p2
      requires low <= item0 <= high && Units()[item0 - low]
      modifies this
      ensures Canonical() && surplus == old(surplus) && alloc + ppfree + Spare(q1, q2) == old(alloc + ppfree) + 2
      ensures Units() == old(Units())[item0 - low := false]
    {
      hide Body, Ends, Tight, ListBits, ListWeight, UnitsOf, Count, HotAt;
      q1, q2 := p1, p2;
      ghost var U := Units();
      UnitsShape(first, list, last);
      var item := item0 - low;
      if item + 1 == first && list == [] {
        IdealSplit(first, last);
        CountUpdate(U, item, false);
        last, first, busy := last + 1, first - 1, busy - 1;
        EmptyList();
        return;
      }
      ghost var cut := item < first;
      if item < first {
        q1, q2 := NewUnr(q1, q2);
        HeadBody(list, first - item);
        ShiftFirst(item, first - item, ListBits(list), last);
        list := [Unr(first - item, Header)] + list;
        first := item;
      }
      assert Units() == U && Counted() && Body(list);
      UnitsShape(first, list, last);
      var u, i := Locate(item - first);
      assert cut ==> u < |list| ==> i == 0 || u == 0;
      assert u < |list|;
      UnitValue(first, list, last, u, i);
      u, q1, q2 := ReleaseListed(u, i, q1, q2);
      busy := busy - 1;
      CollapseUnr(u);
    }

    // ---------- the entry points that allocate and free memory ----------
    // blocks counts the blocks obtained from malloc and not yet freed.

    method CleanUnrhdrl(ghost blocks: int) returns (ghost left: int)
      modifies this`ppfree
      ensures ppfree == 0 && left + old(ppfree) == blocks
    {
      left := blocks;
      while ppfree > 0
        invariant left - ppfree == blocks - old(ppfree)
      {
        ppfree := ppfree - 1;
        left := left - 1;
      }
    }

    method AllocUnr(ghost blocks: int) returns (x: int, ghost left: int)
      requires Canonical() && blocks == alloc + ppfree
      modifies this
      ensures Canonical() && surplus == old(surplus) && left == alloc && ppfree == 0
      ensures x == -1 <==> false !in old(Units())
      ensures x == -1 ==> Units() == old(Units())
      ensures x != -1 ==> low <= x <= high + surplus && IsLeastFree(old(Units()), x - low)
                          && Units() == old(Units())[x - low := true]
      ensures old(list) == [] ==> list == [] && first == old(first) + if x == -1 then 0 else 1
    {
      hide UnitsOf, Body, Ends, Tight, ListBits, ListWeight, Count;
      x := AllocUnrL();
      left := CleanUnrhdrl(blocks);
    }

    method AllocUnrSpecific(item: nat, ghost blocks: int) returns (r: int, ghost left: int)
      requires Canonical() && blocks == alloc + ppfree
      modifies this
      ensures Canonical() && left == alloc + ppfree
      ensures r == if low <= item <= high && !old(Units())[item - low] then item else -1
      ensures r == -1 ==> Units() == old(Units()) && surplus == old(surplus)
      ensures r != -1 ==>
                && surplus == old(SurplusAfter(item))
                && Units() == Resized(old(Units())[item - low := true], high - low + 1 + surplus)
      ensures old(Valid()) ==> (Valid() <==> repaired || !old(FarFromPrefix(item)) || old(first) == 0)
    {
      hide UnitsOf, Body, Ends, Tight, ListBits, ListWeight, Count;
      var q1, q2;
      r, q1, q2 := AllocUnrSpecificL(item, true, true);
      left := blocks + 2 - Spare(q1, q2);
    }

    method FreeUnr(item: nat, ghost blocks: int) returns (ghost left: int)
      requires Canonical() && blocks == alloc + ppfree
      requires low <= item <= high && Units()[item - low]
      modifies this
      ensures Canonical() && surplus == old(surplus) && left == alloc && ppfree == 0
      ensures Units() == old(Units())[item - low := false]
    {
      hide UnitsOf, Body, Ends, Tight, ListBits, ListWeight, Count;
      var q1, q2 := FreeUnrL(item, true, true);
      left := CleanUnrhdrl(blocks + 2);
      left := left - Spare(q1, q2);
    }

    /** The kernel's own consistency check: its two counts agree with the header. */
    method CheckUnrhdr() returns (y: nat, z: nat)
      requires Canonical()
      ensures y == busy && z == alloc
    {
      hide ListBits, ListWeight, Count, UnitsOf, Body;
      y, z := first, 0;
      CheckEnds(first, list, last);
      for k := 0 to |list|
        invariant y == first + Count(ListBits(list[..k]))
        invariant z == ListWeight(list[..k])
      {
        var up := list[k];
        CheckStep(list, k);
        z := z + 1;
        if up.ptr.Map? {
          assert up.len <= NBITS;
          z := z + 1;
          var w := CountSet(up.ptr.ub.bits, up.len);
          assert w == up.ptr.ub.busy;
          y := y + w;
        } else if up.ptr.Header? {
          y := y + up.len;
        }
      }
    }

    lemma EmptyList()
      requires list == []
      ensures Body(list) && Ends(list) && Tight(list) && ListBits(list) == [] && ListWeight(list) == 0
    {
    }

    /** delete_unrhdr's assertions: with nothing allocated there is no entry and no block left. */
    lemma NothingAllocated()
      requires Canonical() && busy == 0
      ensures list == [] && alloc == 0 && first == 0 && last == high - low + 1 + surplus
    {
      CountRange(Units());
      OccupiedHasTrue(first, list, last);
      UnitsShape(first, list, last);
    }

    /** The list is short compared with the units it covers. */
    lemma ShortList()
      requires Canonical()
      ensures |list| <= 3 * ((high - low + 1 + surplus - first - last) / 121) + 2
      ensures forall k | 0 <= k && k + 2 < |list| :: list[k].len + list[k + 1].len + list[k + 2].len > 120
    {
      hide Body, Tight, Ends, ListBits, ListWeight, Count, UnitsOf;
      UnitsShape(first, list, last);
      TightBound(list);
      forall k | 0 <= k && k + 2 < |list|
        ensures list[k].len + list[k + 1].len + list[k + 2].len > NBITS
      {
        TightWindows(list, k);
      }
    }
  }

  lemma OccupiedHasTrue(first: nat, l: seq<Unr>, last: nat)
    requires Body(l) && Ends(l)
    ensures first > 0 || l != [] ==> true in UnitsOf(first, ListBits(l), last)
  {
    hide UnitsOf, ListBits, ListWeight, Body, Ends;
    var us := UnitsOf(first, ListBits(l), last);
    UnitsShape(first, l, last);
    if first > 0 {
      assert us[0] in us;
    } else if l != [] {
      NonEmptyIsMixed(l);
      var k :| 0 <= k < |ListBits(l)| && ListBits(l)[k] == true;
      UpdateListed(first, ListBits(l), last, k, true);
      assert us[first + k] in us;
    }
  }

  lemma CheckStep(l: seq<Unr>, k: nat)
    requires Body(l) && k < |l|
    ensures MapOk(l[k])
    ensures ListWeight(l[..k + 1]) == ListWeight(l[..k]) + Weight(l[k])
    ensures Count(ListBits(l[..k + 1])) == Count(ListBits(l[..k]))
         + match l[k].ptr case Null => 0 case Header => l[k].len case Map(ub) => ub.busy
  {
    assert Good(l[k]);
    assert l[..k] == l[0..k] && l[..k + 1] == l[0..k + 1];
    LastEntry(l, 0, k);
    CountConcat(ListBits(l[0..k]), Bits(l[k]));
    CountRun(l[k].len, l[k].ptr.Header?);
  }

  lemma CheckEnds(first: nat, l: seq<Unr>, last: nat)
    ensures Count(UnitsOf(first, ListBits(l), last)) == first + Count(ListBits(l))
    ensures Count(ListBits(l[..0])) == 0 && ListWeight(l[..0]) == 0 && l[..|l|] == l
  {
    CountConcat(Run(first, true) + ListBits(l), Run(last, false));
    CountConcat(Run(first, true), ListBits(l));
    CountRun(first, true);
    CountRun(last, false);
    assert l[..0] == [];
  }

  /** The inner loop of check_unrhdr. */
  method CountSet(bits: seq<bool>, n: nat) returns (w: nat)
    requires n <= |bits|
    ensures w == Count(bits[..n])
  {
    w := 0;
    for x := 0 to n
      invariant w == Count(bits[..x])
    {
      assert bits[..x + 1] == bits[..x] + [bits[x]];
      CountConcat(bits[..x], [bits[x]]);
      assert Count([bits[x]]) == if bits[x] then 1 else 0;
      if bits[x] {
        w := w + 1;
      }
    }
  }

  function Spare(p1: bool, p2: bool): nat {
    (if p1 then 1 else 0) + if p2 then 1 else 0
  }

  ghost predicate IsLeastFree(units: seq<bool>, k: int) {
    0 <= k < |units| && !units[k] && forall i | 0 <= i < k :: units[i]
  }

  lemma UnitsShape(first: nat, list: seq<Unr>, last: nat)
    ensures var us := UnitsOf(first, ListBits(list), last);
            && |us| == first + |ListBits(list)| + last
            && (forall k | 0 <= k < first :: us[k])
            && (forall k | first + |ListBits(list)| <= k < |us| :: !us[k])
            && (list == [] ==> ListBits(list) == [] && ListWeight(list) == 0)
  {
  }

  lemma EntryIsGood(l: seq<Unr>, u: nat)
    requires Body(l) && u < |l|
    ensures Good(l[u])
  {
  }

  lemma HeadIsUsable(l: seq<Unr>)
    requires Body(l) && Ends(l) && l != []
    ensures !l[0].ptr.Header? && Good(l[0])
    ensures l[0].ptr.Map? ==> l[0].ptr.ub.busy < l[0].len && false in l[0].ptr.ub.bits[..l[0].len]
  {
    GoodBits(l[0]);
  }

  lemma TakeFirstUnit(first: nat, l: seq<Unr>, last: nat)
    requires Body(l) && l != [] && l[0].ptr.Null?
    ensures var m := l[0 := Unr(l[0].len - 1, Null)];
            var us := UnitsOf(first, ListBits(l), last);
            && l[0].len > 0 && HotAt(m, 0) && ListWeight(m) == ListWeight(l)
            && IsLeastFree(us, first)
            && UnitsOf(first + 1, ListBits(m), last) == us[first := true]
  {
    EntryIsGood(l, 0);
    var e := Unr(l[0].len - 1, Null);
    BodyHot(l, 0, e);
    assert l[0 := e][1..] == l[1..];
    TakeFirst(first, l[0].len, ListBits(l[1..]), last);
  }

  lemma TakeFirstClear(first: nat, l: seq<Unr>, last: nat, y: nat)
    requires Body(l) && l != [] && l[0].ptr.Map? && y < l[0].len && |l[0].ptr.ub.bits| == NBITS
    requires !l[0].ptr.ub.bits[y] && forall i | 0 <= i < y :: l[0].ptr.ub.bits[i]
    ensures var m := l[0 := BitSet(l[0], y, true)];
            var us := UnitsOf(first, ListBits(l), last);
            && HotAt(m, 0) && ListWeight(m) == ListWeight(l)
            && IsLeastFree(us, first + y)
            && UnitsOf(first, ListBits(m), last) == us[first + y := true]
            && Count(UnitsOf(first, ListBits(m), last)) == Count(us) + 1
  {
    hide Body, HotAt, Edit, BitSet, UnitsOf, ListBits, ListWeight, Count;
    EntryIsGood(l, 0);
    BitEdit(l, 0, y, true);
    NoEntries();
    assert l[..0] == [];
    EditUnits(l, 0, 1, [BitSet(l[0], y, true)], y, true, first, last);
    BitSetWeight(l, 0, y, true);
    HeadBits(first, l, last, y);
  }

  lemma HeadBits(first: nat, l: seq<Unr>, last: nat, y: nat)
    requires l != [] && l[0].ptr.Map? && y < l[0].len <= |l[0].ptr.ub.bits|
    ensures var us := UnitsOf(first, ListBits(l), last);
            first + y < |us| && forall k | 0 <= k <= first + y :: us[k] == if k < first then true else l[0].ptr.ub.bits[k - first]
  {
    assert ListBits(l) == Bits(l[0]) + ListBits(l[1..]);
  }

  lemma BitSetWeight(l: seq<Unr>, u: nat, i: nat, v: bool)
    requires u < |l| && l[u].ptr.Map? && i < |l[u].ptr.ub.bits|
    ensures ListWeight(l[u := BitSet(l[u], i, v)]) == ListWeight(l)
  {
    hide Bits, ListBits, ListWeight;
    var e := BitSet(l[u], i, v);
    Surgery(l, u, u + 1, [e]);
    assert l[u..u + 1] == [l[u]] && l[u := e] == Replace(l, u, u + 1, [e]);
    Singleton(e);
    Singleton(l[u]);
  }

  /** What Units() says of the i-th unit of entry u. */
  lemma UnitValue(first: nat, l: seq<Unr>, last: nat, u: nat, i: nat)
    requires Body(l) && u < |l| && i < l[u].len
    ensures var us := UnitsOf(first, ListBits(l), last);
            var at := first + |ListBits(l[..u])| + i;
            && at < |us| && at < first + |ListBits(l)| && i < |Bits(l[u])| && us[at] == Bits(l[u])[i]
            && (l[u].ptr.Map? ==> i < |l[u].ptr.ub.bits| && Bits(l[u])[i] == l[u].ptr.ub.bits[i])
            && (l[u].ptr.Header? ==> Bits(l[u])[i]) && (l[u].ptr.Null? ==> !Bits(l[u])[i])
  {
    hide ListBits, ListWeight, UnitsOf, Count, Body;
    EntryIsGood(l, u);
    GoodBits(l[u]);
    Surgery(l, u, u + 1, []);
    assert l[u..u + 1] == [l[u]];
    Singleton(l[u]);
    var p, s := ListBits(l[..u]), ListBits(l[u + 1..]);
    MiddleUpdate(p, Bits(l[u]), s, i, true);
    UpdateListed(first, ListBits(l), last, |p| + i, true);
  }

  lemma CutLength(n: nat, i: nat, v: bool)
    requires i < n
    ensures |Cut(n, i, v)| == 1 + (if i > 0 then 1 else 0) + if n - (1 + i) > 0 then 1 else 0
  {
  }

  lemma HotEntry(l: seq<Unr>, u: nat)
    requires HotAt(l, u)
    ensures u < |l| && MapOk(l[u])
    ensures forall k | 0 <= k < |l| && k != u :: Good(l[k])
    ensures u == 0 || !SamePtr(l[u].ptr, l[u - 1].ptr) ==> NoClash(l, u - 1)
    ensures u + 1 == |l| || !SamePtr(l[u].ptr, l[u + 1].ptr) ==> NoClash(l, u)
    ensures u > 0 ==> NoClash(l, u - 2)
  {
  }

  lemma HotIsBody(l: seq<Unr>, u: nat)
    requires HotAt(l, u) && forall k | 0 <= k < |l| :: Good(l[k])
    requires NoClash(l, u - 1) && NoClash(l, u)
    ensures Body(l)
  {
    forall k | 0 <= k < |l|
      ensures NoClash(l, k)
    {
      if k + 1 == u {
        assert k == u - 1;
      }
    }
  }

  lemma WindowStart(l: seq<Unr>, us: nat)
    requires Body(l) && us < |l| && Saving(l, us) >= 3
    ensures us + 1 < |l| && l[us].len + l[us + 1].len <= NBITS
    ensures Good(l[us]) && Good(l[us + 1]) && MapOk(l[us])
  {
    WindowSize(l, us);
  }

  /** m is l, or l after StartBitmap at us. */
  ghost predicate Started(l: seq<Unr>, us: nat, m: seq<Unr>)
    requires us + 1 < |l| && us < |m|
  {
    if l[us].ptr.Map? then m == l
    else
      && m == Replace(l, us, us + 2, [m[us]])
      && m[us].ptr.Map? && MapOk(m[us])
      && Bits(m[us]) == Bits(l[us]) + Bits(l[us + 1])
  }

  lemma AfterStart(l: seq<Unr>, us: nat, m: seq<Unr>)
    requires Body(l) && us + 1 < |l| && us < |m| && Started(l, us, m)
    ensures m[us].ptr.Map? && MapOk(m[us])
    ensures forall k | us < k < |m| :: Good(m[k])
  {
    forall k | us < k < |m|
      ensures Good(m[k])
    {
      assert m == l || m[k] == l[k + 1];
    }
  }

  lemma AfterAbsorb(l: seq<Unr>, us: nat, m: seq<Unr>, q: seq<Unr>)
    requires Body(l) && us < |l| && Saving(l, us) >= 3
    requires us + 1 < |l| && us < |m| && Started(l, us, m)
    requires var e := WindowEnd(m, us + 1, m[us].len);
             && us < |q| && q == Replace(m, us, e, [q[us]])
             && Bits(q[us]) == ListBits(m[us..e])
    requires q[us].ptr.Map? && MapOk(q[us])
    ensures var e := WindowEnd(m, us + 1, m[us].len);
            && q == Replace(l, us, WindowEnd(l, us + 1, l[us].len), [q[us]])
            && |q| < |l| && Body(q) && (Ends(l) ==> Ends(q)) && ListBits(q) == ListBits(l)
            && (l[us].ptr.Map? ==> ListWeight(q) + ListWeight(m[us..e]) == ListWeight(l) + 2)
            && (!l[us].ptr.Map? ==> ListWeight(q) + ListWeight(m[us..e]) + Weight(l[us + 1]) == ListWeight(l) + 3)
  {
    hide Bits, ListBits, ListWeight, WindowEnd, Body, Ends, MapOk;
    WindowSize(l, us);
    WindowStart(l, us);
    var e := WindowEnd(l, us + 1, l[us].len);
    if !l[us].ptr.Map? {
      GoodBits(l[us]);
      GoodBits(l[us + 1]);
      GoodBits(m[us]);
      WindowAfterPair(l, us, m[us]);
      BitsAfterPair(l, m, us, e - 1);
    }
    WindowRewritten(l, us, e, q);
  }

  lemma WindowRewritten(l: seq<Unr>, us: nat, e: nat, q: seq<Unr>)
    requires Body(l) && us + 2 <= e <= |l| && us < |q| && q == Replace(l, us, e, [q[us]])
    requires q[us].ptr.Map? && MapOk(q[us]) && Bits(q[us]) == ListBits(l[us..e])
    requires ListWeight(l[us..e]) >= 3
    ensures |q| < |l| && Body(q) && (Ends(l) ==> Ends(q))
    ensures ListBits(q) == ListBits(l) && ListWeight(q) + ListWeight(l[us..e]) == ListWeight(l) + 2
  {
    WindowToBitmap(l, us, e, q[us]);
    Singleton(q[us]);
    NeutralSurgery(l, us, e, [q[us]]);
  }

  /** p is l after the entries us..e have been put into the one entry at us. */
  ghost predicate Absorbed(l: seq<Unr>, us: nat, e: nat, p: seq<Unr>)
    requires us < e <= |l| && us < |p|
  {
    && p == Replace(l, us, e, [p[us]])
    && Bits(p[us]) == ListBits(l[us..e])
  }

  lemma AbsorbStart(l: seq<Unr>, us: nat)
    requires us < |l| && l[us].ptr.Map?
    ensures Absorbed(l, us, us + 1, l) && ListWeight(l[us..us + 1]) == 2
  {
    FirstEntry(l, us, us + 1);
  }

  lemma AbsorbNext(l: seq<Unr>, us: nat, e: nat, p: seq<Unr>)
    requires us < e <= |l| && us + 1 < |p| && Absorbed(l, us, e, p)
    ensures e < |l| && p[us + 1] == l[e]
  {
    assert |p| == us + 1 + (|l| - e);
  }

  lemma AbsorbEnd(l: seq<Unr>, us: nat, e: nat, p: seq<Unr>)
    requires us < e <= |l| && us < |p| && Absorbed(l, us, e, p)
    requires us + 1 == |p| || p[us + 1].len + p[us].len > NBITS
    ensures WindowEnd(l, e, p[us].len) == e
    ensures p == Replace(l, us, e, [p[us]]) && Bits(p[us]) == ListBits(l[us..e])
  {
    assert |p| == us + 1 + (|l| - e);
  }

  lemma AbsorbStep(l: seq<Unr>, us: nat, e: nat, p: seq<Unr>, q: seq<Unr>)
    requires us < e <= |l| && us + 1 < |p| && Absorbed(l, us, e, p)
    requires us < |q| && q == Replace(p, us, us + 2, [q[us]])
    requires q[us].len == p[us].len + p[us + 1].len <= NBITS
    requires Bits(q[us]) == Bits(p[us]) + Bits(p[us + 1])
    ensures e < |l| && p[us + 1] == l[e] && Absorbed(l, us, e + 1, q)
    ensures ListWeight(l[us..e + 1]) == ListWeight(l[us..e]) + Weight(l[e])
    ensures WindowEnd(l, e + 1, q[us].len) == WindowEnd(l, e, p[us].len)
  {
    assert |p| == us + 1 + (|l| - e);
    ReplaceTwice(l, us, e, p[us], q[us]);
    LastEntry(l, us, e);
  }

  /** The window at k is as heavy as its saving, and fits a bitmap. */
  lemma WindowSize(l: seq<Unr>, k: nat)
    requires Body(l) && k < |l| && Saving(l, k) >= 3
    ensures var e := WindowEnd(l, k + 1, l[k].len);
            && k + 2 <= e && ListWeight(l[k..e]) == Saving(l, k)
            && l[k].len + l[k + 1].len <= NBITS
  {
    hide Body, Bits, ListBits, ListWeight;
    forall i | 0 <= i < |l|
      ensures MapOk(l[i])
    {
      EntryIsGood(l, i);
    }
    var e := WindowEnd(l, k + 1, l[k].len);
    WindowCovers(l, k + 1, l[k].len);
    assert l[k..e] == [l[k]] + l[k + 1..e];
    ListConcat([l[k]], l[k + 1..e]);
    Singleton(l[k]);
    LightList(l[k..e]);
  }

  /** After StartBitmap the window of the new bitmap ends where the old window did. */
  lemma WindowAfterPair(l: seq<Unr>, k: nat, b: Unr)
    requires k + 1 < |l| && l[k].len + l[k + 1].len <= NBITS && b.len == l[k].len + l[k + 1].len
    ensures var m := Replace(l, k, k + 2, [b]);
            var e := WindowEnd(m, k + 1, b.len);
            && e + 1 == WindowEnd(l, k + 1, l[k].len)
            && m[k + 1..e] == l[k + 2..e + 1]
            && m[..k] == l[..k] && m[e..] == l[e + 1..]
  {
    hide WindowEnd;
    var m := Replace(l, k, k + 2, [b]);
    assert m[k + 1..] == l[k + 2..];
    WindowSuffix(l, m, k + 2, k + 1, b.len);
    var e := WindowEnd(m, k + 1, b.len);
    WindowNext(l, k + 1, l[k].len);
    Dropped(m, k + 1, e);
    Dropped(l, k + 2, e + 1);
  }

  lemma BitsAfterPair(l: seq<Unr>, m: seq<Unr>, k: nat, e: nat)
    requires k < e <= |m| && e < |l| && k + 1 < |l|
    requires m[k + 1..e] == l[k + 2..e + 1] && Bits(m[k]) == Bits(l[k]) + Bits(l[k + 1])
    ensures ListBits(m[k..e]) == ListBits(l[k..e + 1])
    ensures ListWeight(m[k..e]) + Weight(l[k]) + Weight(l[k + 1]) == ListWeight(l[k..e + 1]) + Weight(m[k])
  {
    FirstEntry(m, k, e);
    FirstEntry(l, k, e + 1);
    FirstEntry(l, k + 1, e + 1);
    Associative(Bits(l[k]), Bits(l[k + 1]), ListBits(l[k + 2..e + 1]));
  }
}
