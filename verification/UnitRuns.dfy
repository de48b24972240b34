/** Whole runs of the unit-number allocator against a plain set of integers. */
module UnitRuns {
  import opened UnitLists
  import opened UnitNumbers

  datatype Op = Alloc | AllocSpecific(item: nat) | Free(item: nat)

  // ---------- the specification: a set of allocated numbers ----------

  /** The least number of low..high outside s, or -1. */
  ghost function LeastOutside(low: nat, high: nat, s: set<int>): (x: int)
    ensures x == -1 || (low <= x <= high && x !in s)
    ensures forall y | low <= y <= high && y !in s :: x != -1 && x <= y
    decreases high - low
  {
    if low > high then -1 else if low !in s then low else LeastOutside(low + 1, high, s)
  }

  ghost function Result(low: nat, high: nat, s: set<int>, op: Op): int {
    match op
    case Alloc => LeastOutside(low, high, s)
    case AllocSpecific(item) => if low <= item <= high && item !in s then item else -1
    case Free(_) => 0
  }

  ghost function Next(low: nat, high: nat, s: set<int>, op: Op): set<int> {
    match op
    case Free(item) => s - {item}
    case _ => if Result(low, high, s, op) == -1 then s else s + {Result(low, high, s, op)}
  }

  /** Only allocated units may be freed; the kernel asserts this. */
  ghost predicate Legal(low: nat, high: nat, s: set<int>, ops: seq<Op>)
    decreases |ops|
  {
    ops == [] ||
    ((ops[0].Free? ==> ops[0].item in s) && Legal(low, high, Next(low, high, s, ops[0]), ops[1..]))
  }

  ghost function Results(low: nat, high: nat, s: set<int>, ops: seq<Op>): seq<int>
    decreases |ops|
  {
    if ops == [] then []
    else [Result(low, high, s, ops[0])] + Results(low, high, Next(low, high, s, ops[0]), ops[1..])
  }

  ghost function Final(low: nat, high: nat, s: set<int>, ops: seq<Op>): set<int>
    decreases |ops|
  {
    if ops == [] then s else Final(low, high, Next(low, high, s, ops[0]), ops[1..])
  }

  // ---------- the set a bit per unit stands for ----------

  ghost function SetOf(low: int, units: seq<bool>): set<int> {
    set k | 0 <= k < |units| && units[k] :: low + k
  }

  lemma SetOfMembers(low: int, units: seq<bool>)
    ensures forall x :: x in SetOf(low, units) <==> low <= x < low + |units| && units[x - low]
  {
    forall x | low <= x < low + |units| && units[x - low]
      ensures x in SetOf(low, units)
    {
      assert low + (x - low) == x;
    }
  }

  lemma SetOfUpdate(low: int, units: seq<bool>, k: nat, v: bool)
    requires k < |units|
    ensures SetOf(low, units[k := v]) == if v then SetOf(low, units) + {low + k} else SetOf(low, units) - {low + k}
  {
    SetOfMembers(low, units);
    SetOfMembers(low, units[k := v]);
  }

  /** The number of set bits is the size of the set. */
  lemma {:induction false} SetOfSize(low: int, units: seq<bool>)
    ensures |SetOf(low, units)| == Count(units)
  {
    if units == [] {
      assert SetOf(low, units) == {};
    } else {
      var n := |units| - 1;
      var front := units[..n];
      assert units == front + [units[n]];
      CountConcat(front, [units[n]]);
      assert Count([units[n]]) == if units[n] then 1 else 0;
      SetOfSize(low, front);
      SetOfMembers(low, units);
      SetOfMembers(low, front);
      assert SetOf(low, units) == if units[n] then SetOf(low, front) + {low + n} else SetOf(low, front);
    }
  }

  /** The lowest clear bit is the least number outside the set. */
  lemma LeastFreeIsLeastOutside(low: nat, high: nat, units: seq<bool>, x: int)
    requires |units| == high - low + 1
    requires x == -1 ==> false !in units
    requires x != -1 ==> IsLeastFree(units, x - low)
    ensures x == LeastOutside(low, high, SetOf(low, units))
  {
    SetOfMembers(low, units);
    var y := LeastOutside(low, high, SetOf(low, units));
    forall k | 0 <= k < |units|
      ensures x == -1 ==> units[k]
    {
      assert units[k] in units;
    }
    if x != -1 {
      assert x !in SetOf(low, units);
      assert y <= x;
    }
  }

  // ---------- runs ----------

  lemma {:induction false} RunSplit(low: nat, high: nat, s: set<int>, ops: seq<Op>, n: nat)
    requires n < |ops| && Legal(low, high, s, ops)
    ensures var t := Final(low, high, s, ops[..n]);
            && (ops[n].Free? ==> ops[n].item in t)
            && Final(low, high, s, ops[..n + 1]) == Next(low, high, t, ops[n])
            && Results(low, high, s, ops[..n + 1]) == Results(low, high, s, ops[..n]) + [Result(low, high, t, ops[n])]
    decreases n
  {
    if n == 0 {
      assert ops[..1] == [ops[0]] && ops[..0] == [];
      assert ops[..1][1..] == [];
    } else {
      RunSplit(low, high, Next(low, high, s, ops[0]), ops[1..], n - 1);
      assert ops[..n][1..] == ops[1..][..n - 1];
      assert ops[..n + 1][1..] == ops[1..][..n];
    }
  }

  /** op would run the unrepaired line 655 with a non-empty prefix. */
  predicate Miscounts(h: UnrHdr, op: Op)
    reads h
  {
    !h.repaired && h.list == [] && h.first > 0 && op.AllocSpecific? && h.low + h.first < op.item <= h.high
  }

  /** Where an operation looks for units: allocating the least one goes up to the last unit the
      header describes. */
  ghost function Ceiling(high: nat, extra: nat, op: Op): nat {
    if op.Alloc? then high + extra else high
  }

  /** op answers r on the set s, and leaves the set t, in a header with `extra` units too many. */
  ghost predicate Follows(low: nat, high: nat, extra: nat, s: set<int>, op: Op, r: int, t: set<int>) {
    r == Result(low, Ceiling(high, extra, op), s, op) && t == Next(low, Ceiling(high, extra, op), s, op)
  }

  lemma ResizedSet(low: int, units: seq<bool>, n: nat)
    requires forall k | n <= k < |units| :: !units[k]
    ensures SetOf(low, Resized(units, n)) == SetOf(low, units)
  {
    hide SetOf, Resized;
    SetOfMembers(low, units);
    SetOfMembers(low, Resized(units, n));
    forall x
      ensures x in SetOf(low, Resized(units, n)) <==> x in SetOf(low, units)
    {
      ResizedAt(units, n, x - low);
    }
  }

  lemma ResizedAt(units: seq<bool>, n: nat, k: int)
    ensures 0 <= k < n ==> Resized(units, n)[k] == (k < |units| && units[k])
  {
  }

  /** What line 655 or line 717 cuts off is free. */
  lemma CutIsFree(h: UnrHdr, item: nat)
    requires h.Canonical() && h.low <= item <= h.high && h.first <= item - h.low
    ensures forall k | h.high - h.low + 1 + h.SurplusAfter(item) <= k < |h.Units()| :: !h.Units()[k]
  {
    hide Body, Ends, Tight, ListBits, ListWeight, UnitsOf, Count;
    UnitsShape(h.first, h.list, h.last);
    assert h.high - h.low + 1 + h.SurplusAfter(item) >= h.first + |ListBits(h.list)|;
  }

  /** The surplus grows at line 655 only, and stays below the length of the range. */
  lemma SurplusGrows(h: UnrHdr, item: nat)
    requires h.Canonical() && h.low <= item <= h.high && h.first <= item - h.low
    ensures h.SurplusAfter(item) > h.surplus ==> Miscounts(h, AllocSpecific(item))
    ensures h.SurplusAfter(item) <= Larger(h.surplus, h.high - h.low)
  {
    hide Body, Ends, Tight, ListBits, ListWeight, UnitsOf, Count;
  }

  function Larger(a: int, b: int): int {
    if a > b then a else b
  }

  /** One operation does what the set specification says, on any header. */
  method Perform(h: UnrHdr, op: Op, ghost blocks: int) returns (r: int, ghost left: int)
    requires h.Canonical() && blocks == h.alloc + h.ppfree
    requires op.Free? ==> op.item <= h.high && op.item in SetOf(h.low, h.Units())
    modifies h
    ensures h.Canonical() && left == h.alloc + h.ppfree
    ensures Follows(h.low, h.high, old(h.surplus), SetOf(h.low, old(h.Units())), op, r, SetOf(h.low, h.Units()))
    ensures h.surplus > old(h.surplus) ==> old(Miscounts(h, op))
    ensures h.surplus <= Larger(old(h.surplus), h.high - h.low)
  {
    hide Body, Ends, Tight, ListBits, ListWeight, UnitsOf, Count, LeastOutside, SetOf, Resized, UnrHdr.SurplusAfter;
    ghost var us := h.Units();
    SetOfMembers(h.low, us);
    match op
    case Alloc =>
      r, left := h.AllocUnr(blocks);
      LeastFreeIsLeastOutside(h.low, h.high + h.surplus, us, r);
      if r != -1 {
        SetOfUpdate(h.low, us, r - h.low, true);
      }
    case AllocSpecific(item) =>
      r, left := PerformSpecific(h, item, blocks);
    case Free(item) =>
      r := 0;
      left := h.FreeUnr(item, blocks);
      SetOfUpdate(h.low, us, item - h.low, false);
  }

  method PerformSpecific(h: UnrHdr, item: nat, ghost blocks: int) returns (r: int, ghost left: int)
    requires h.Canonical() && blocks == h.alloc + h.ppfree
    modifies h
    ensures h.Canonical() && left == h.alloc + h.ppfree
    ensures Follows(h.low, h.high, old(h.surplus), SetOf(h.low, old(h.Units())), AllocSpecific(item), r, SetOf(h.low, h.Units()))
    ensures h.surplus > old(h.surplus) ==> old(Miscounts(h, AllocSpecific(item)))
    ensures h.surplus <= Larger(old(h.surplus), h.high - h.low)
  {
    hide Body, Ends, Tight, ListBits, ListWeight, UnitsOf, Count, SetOf, Resized, UnrHdr.SurplusAfter;
    ghost var us := h.Units();
    SetOfMembers(h.low, us);
    if h.low <= item <= h.high && !us[item - h.low] {
      FirstIsTaken(h, item);
      CutIsFree(h, item);
      SurplusGrows(h, item);
      ResizedSet(h.low, us[item - h.low := true], h.high - h.low + 1 + h.SurplusAfter(item));
      SetOfUpdate(h.low, us, item - h.low, true);
    }
    r, left := h.AllocUnrSpecific(item, blocks);
  }

  lemma FirstIsTaken(h: UnrHdr, item: nat)
    requires h.Canonical() && h.low <= item <= h.high && !h.Units()[item - h.low]
    ensures h.first <= item - h.low
  {
    hide Body, Ends, Tight, ListBits, ListWeight, UnitsOf, Count;
    UnitsShape(h.first, h.list, h.last);
  }

  /** Performs the operations one by one; it stops early only in front of an operation that miscounts. */
  method Replay(h: UnrHdr, ops: seq<Op>) returns (done: nat, results: seq<int>)
    requires h.Valid()
    requires Legal(h.low, h.high, SetOf(h.low, h.Units()), ops)
    modifies h
    ensures h.Valid() && done <= |ops|
    ensures results == Results(h.low, h.high, SetOf(h.low, old(h.Units())), ops[..done])
    ensures SetOf(h.low, h.Units()) == Final(h.low, h.high, SetOf(h.low, old(h.Units())), ops[..done])
    ensures h.busy == |SetOf(h.low, h.Units())|
    ensures done < |ops| ==> Miscounts(h, ops[done])
  {
    hide Body, Ends, Tight, ListBits, ListWeight, UnitsOf, Count, Legal, Final, Results, Next, Result, SetOf;
    done, results := 0, [];
    ghost var s := SetOf(h.low, h.Units());
    ghost var blocks := h.alloc + h.ppfree;
    RunStart(h.low, h.high, s, ops);
    SetOfSize(h.low, h.Units());
    while done < |ops| && !Miscounts(h, ops[done])
      invariant h.Valid() && done <= |ops| && blocks == h.alloc + h.ppfree
      invariant results == Results(h.low, h.high, s, ops[..done])
      invariant SetOf(h.low, h.Units()) == Final(h.low, h.high, s, ops[..done])
      invariant h.busy == |SetOf(h.low, h.Units())|
      decreases |ops| - done
    {
      RunSplit(h.low, h.high, s, ops, done);
      var r;
      FreedInRange(h);
      r, blocks := Perform(h, ops[done], blocks);
      SetOfSize(h.low, h.Units());
      results := results + [r];
      done := done + 1;
    }
  }

  lemma FreedInRange(h: UnrHdr)
    requires h.Valid()
    ensures forall x :: x in SetOf(h.low, h.Units()) ==> x <= h.high
  {
    hide Body, Ends, Tight, ListBits, ListWeight, UnitsOf, Count, SetOf;
    SetOfMembers(h.low, h.Units());
  }

  // ---------- runs past a miscount ----------

  /** Each operation follows the set specification, with so many units too many at each step. */
  ghost predicate Traced(low: nat, high: nat, sets: seq<set<int>>, extras: seq<nat>, ops: seq<Op>, results: seq<int>) {
    && |sets| == |extras| == |ops| + 1 && |results| == |ops|
    && (forall k | 0 <= k < |ops| :: Follows(low, high, extras[k], sets[k], ops[k], results[k], sets[k + 1]))
    && (forall k | 0 <= k <= |ops| :: extras[k] <= high - low)
  }

  lemma TraceStart(low: nat, high: nat, s: set<int>, extra: nat)
    requires low <= high && extra <= high - low
    ensures Traced(low, high, [s], [extra], [], [])
  {
  }

  lemma TraceStep(low: nat, high: nat, sets: seq<set<int>>, extras: seq<nat>, ops: seq<Op>, results: seq<int>,
                  op: Op, r: int, t: set<int>, extra: nat)
    requires Traced(low, high, sets, extras, ops, results)
    requires Follows(low, high, extras[|ops|], sets[|ops|], op, r, t) && extra <= high - low
    ensures Traced(low, high, sets + [t], extras + [extra], ops + [op], results + [r])
  {
    hide Follows;
    var n := |ops|;
    forall k | 0 <= k <= n
      ensures Follows(low, high, (extras + [extra])[k], (sets + [t])[k], (ops + [op])[k], (results + [r])[k], (sets + [t])[k + 1])
    {
      if k == n {
        assert (sets + [t])[n] == sets[n] && (extras + [extra])[n] == extras[n];
      } else {
        assert Follows(low, high, extras[k], sets[k], ops[k], results[k], sets[k + 1]);
      }
    }
  }

  /** A header and all the calls that have been made on it, whatever line 655 did to it. */
  class History {
    const h: UnrHdr
    ghost var ops: seq<Op>
    ghost var results: seq<int>
    ghost var sets: seq<set<int>>
    ghost var extras: seq<nat>
    ghost var blocks: int

    ghost predicate Valid()
      reads this, h
    {
      && h.Canonical()
      && Traced(h.low, h.high, sets, extras, ops, results)
      && sets[|ops|] == SetOf(h.low, h.Units()) && extras[|ops|] == h.surplus
      && blocks == h.alloc + h.ppfree
    }

    constructor (h: UnrHdr)
      requires h.Valid()
      ensures Valid() && this.h == h && ops == [] && sets == [SetOf(h.low, h.Units())] && extras == [0]
    {
      this.h, ops, results := h, [], [];
      sets, extras, blocks := [SetOf(h.low, h.Units())], [0], h.alloc + h.ppfree;
      new;
      TraceStart(h.low, h.high, sets[0], 0);
    }

    /** One more call. A unit to be freed is in range and allocated, as the kernel asserts; the
        header comes to describe more units only when line 655 miscounts. */
    method Do(op: Op) returns (r: int)
      requires Valid() && (op.Free? ==> op.item <= h.high && op.item in sets[|ops|])
      modifies this`ops, this`results, this`sets, this`extras, this`blocks, h
      ensures Valid() && ops == old(ops) + [op] && results == old(results) + [r]
      ensures sets[..|ops|] == old(sets) && extras[..|ops|] == old(extras)
      ensures h.surplus > old(h.surplus) ==> old(Miscounts(h, op))
    {
      hide Follows, SetOf, Traced, UnrHdr.Canonical, UnrHdr.Units, Miscounts;
      TraceShape(h.low, h.high, sets, extras, ops, results);
      r, blocks := Perform(h, op, blocks);
      TraceStep(h.low, h.high, sets, extras, ops, results, op, r, SetOf(h.low, h.Units()), h.surplus);
      ops, results := ops + [op], results + [r];
      sets, extras := sets + [SetOf(h.low, h.Units())], extras + [h.surplus];
    }
  }

  lemma TraceShape(low: nat, high: nat, sets: seq<set<int>>, extras: seq<nat>, ops: seq<Op>, results: seq<int>)
    requires Traced(low, high, sets, extras, ops, results)
    ensures |sets| == |extras| == |ops| + 1 && |results| == |ops| && extras[|ops|] <= high - low
  {
  }

  /** In every history each successful call changes the allocated set by exactly the unit it
      returns, which was not allocated and is at most high + surplus, and less than the length of
      the range beyond high. */
  lemma OneUnitAtATime(low: nat, high: nat, sets: seq<set<int>>, extras: seq<nat>, ops: seq<Op>, results: seq<int>, k: nat)
    requires Traced(low, high, sets, extras, ops, results) && k < |ops|
    ensures !ops[k].Free? && results[k] != -1 ==>
              && results[k] !in sets[k] && sets[k + 1] == sets[k] + {results[k]}
              && low <= results[k] <= high + extras[k] && results[k] - high <= high - low
    ensures !ops[k].Free? && results[k] == -1 ==> sets[k + 1] == sets[k]
    ensures ops[k].Free? ==> sets[k + 1] == sets[k] - {ops[k].item}
    ensures ops[k] == Alloc && results[k] == -1 ==> forall x | low <= x <= high :: x in sets[k]
  {
    assert Follows(low, high, extras[k], sets[k], ops[k], results[k], sets[k + 1]);
  }

  /** A unit that is not freed stays allocated. */
  lemma {:induction false} StaysTaken(low: nat, high: nat, sets: seq<set<int>>, extras: seq<nat>, ops: seq<Op>,
                                      results: seq<int>, x: int, i: nat, j: nat)
    requires Traced(low, high, sets, extras, ops, results) && i < j <= |ops| && x in sets[i + 1]
    requires forall k | i < k < j :: !(ops[k].Free? && ops[k].item == x)
    ensures x in sets[j]
    decreases j
  {
    hide Traced;
    TraceShape(low, high, sets, extras, ops, results);
    if i + 1 < j {
      StaysTaken(low, high, sets, extras, ops, results, x, i, j - 1);
      OneUnitAtATime(low, high, sets, extras, ops, results, j - 1);
    }
  }

  /** No unit is handed out twice: between two calls that return it, it is freed. */
  lemma NeverTwice(low: nat, high: nat, sets: seq<set<int>>, extras: seq<nat>, ops: seq<Op>, results: seq<int>, i: nat, j: nat)
    requires Traced(low, high, sets, extras, ops, results) && i < j < |ops|
    requires !ops[i].Free? && !ops[j].Free? && results[i] == results[j] != -1
    ensures exists k :: i < k < j && ops[k].Free? && ops[k].item == results[i]
  {
    hide Traced;
    TraceShape(low, high, sets, extras, ops, results);
    OneUnitAtATime(low, high, sets, extras, ops, results, i);
    OneUnitAtATime(low, high, sets, extras, ops, results, j);
    if forall k | i < k < j :: !(ops[k].Free? && ops[k].item == results[i]) {
      StaysTaken(low, high, sets, extras, ops, results, results[i], i, j);
    }
  }

  lemma RunStart(low: nat, high: nat, s: set<int>, ops: seq<Op>)
    ensures Final(low, high, s, ops[..0]) == s && Results(low, high, s, ops[..0]) == []
  {
    assert ops[..0] == [];
  }

  /** The smallest story behind line 655: in 0..9, allocate the lowest unit and then unit 5.
      The header then describes eleven units, the eleventh of them free. */
  method MiscountExample() returns (h: UnrHdr)
    ensures fresh(h) && h.low == 0 && h.high == 9 && h.Canonical() && h.surplus == 1
    ensures |h.Units()| == 11 && !h.Units()[10] && !h.Valid()
  {
    hide Body, Ends, Tight, ListBits, ListWeight, UnitsOf, Count;
    h := new UnrHdr(0, 9, false);
    CountRun(10, false);
    assert Run(10, false)[0] == false;
    h.NothingAllocated();
    var x, left := h.AllocUnr(0);
    assert x == 0;
    var r;
    r, left := h.AllocUnrSpecific(5, left);
    assert r == 5;
  }

  /** Nothing beyond high is allocated. */
  ghost predicate NothingBeyond(h: UnrHdr)
    reads h
  {
    forall k | 0 <= k < |h.Units()| && k > h.high - h.low :: !h.Units()[k]
  }

  /** Once a header describes more than low..high, allocating often enough hands out high + 1. */
  method AllocateBeyond(h: UnrHdr) returns (x: int)
    requires h.Canonical() && h.surplus > 0 && NothingBeyond(h)
    modifies h
    ensures x == h.high + 1 && h.Canonical()
  {
    hide UnrHdr.Canonical, UnrHdr.Units;
    ghost var blocks := h.alloc + h.ppfree;
    Describes(h);
    while true
      invariant h.Canonical() && h.surplus == old(h.surplus) && NothingBeyond(h)
      invariant blocks == h.alloc + h.ppfree
      invariant |h.Units()| == h.high - h.low + 1 + h.surplus && h.busy == Count(h.Units())
      decreases |h.Units()| - h.busy
    {
      ghost var us := h.Units();
      assert us[h.high - h.low + 1] in us;
      x, blocks := h.AllocUnr(blocks);
      CountUpdate(us, x - h.low, true);
      Describes(h);
      CountRange(h.Units());
      if x > h.high {
        return;
      }
    }
  }

  lemma Describes(h: UnrHdr)
    requires h.Canonical()
    ensures h.low <= h.high
    ensures |h.Units()| == h.high - h.low + 1 + h.surplus && h.busy == Count(h.Units())
  {
  }

  /** After that story, enough further calls hand out unit 10 of a range that ends at 9. */
  method BeyondExample() returns (h: UnrHdr, x: int)
    ensures h.high == 9 && x == 10
  {
    hide UnrHdr.Canonical, UnrHdr.Valid, UnrHdr.Units;
    h := MiscountExample();
    x := AllocateBeyond(h);
  }
}
