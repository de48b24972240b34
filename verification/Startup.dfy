/** mi_startup and sysinit_add of BsdSupport/init_main.c. */
module Startup {
  import opened StartupSort
  import opened StartupTasks

  /** The key a task was sorted by, when the tasks of `base` were done. */
  ghost function KeyThen(base: seq<SysInit>, t: SysInit): nat {
    if t in base then DONE else t.level
  }

  /** The array as sorted: unlike Sorted, this stays true as tasks are run. */
  ghost predicate SortedThen(base: seq<SysInit>, a: seq<SysInit>) {
    forall p, q :: 0 <= p < q < |a| ==>
      KeyThen(base, a[p]) < KeyThen(base, a[q])
      || (KeyThen(base, a[p]) == KeyThen(base, a[q]) && a[p].order <= a[q].order)
  }

  /** A task is checked off exactly when it has run. */
  ghost predicate CheckedOff(universe: set<SysInit>, trace: seq<SysInit>)
    reads universe
  {
    forall t :: t in universe ==> t.subsystem == KeyThen(trace, t)
  }

  lemma SortedNow(universe: set<SysInit>, trace: seq<SysInit>, a: seq<SysInit>)
    requires CheckedOff(universe, trace) && Elements(a) <= universe && Sorted(a)
    ensures SortedThen(trace, a)
  {
    forall p, q | 0 <= p < q < |a|
      ensures KeyThen(trace, a[p]) < KeyThen(trace, a[q])
           || (KeyThen(trace, a[p]) == KeyThen(trace, a[q]) && a[p].order <= a[q].order)
    {
      assert a[p] in Elements(a) && a[q] in Elements(a);
      assert Leq(a[p], a[q]);
    }
  }

  /** Every task that can be registered, and what registering them leads to. */
  ghost predicate Universe(initial: set<SysInit>, universe: set<SysInit>) {
    initial <= universe && forall t :: t in universe ==> Elements(Joined(t.adds)) <= universe
  }

  lemma RegisteredInside(initial: set<SysInit>, trace: seq<SysInit>, universe: set<SysInit>)
    requires Universe(initial, universe) && Schedule(initial, trace)
    ensures Registered(initial, trace) <= universe
  {
    StaysInside(initial, trace, universe);
  }

  lemma {:induction false} DistinctCount(s: seq<SysInit>)
    requires forall i, j :: 0 <= i < j < |s| ==> s[i] != s[j]
    ensures |Elements(s)| == |s|
  {
    if s != [] {
      var front := s[..|s| - 1];
      DistinctCount(front);
      assert s == front + [s[|s| - 1]];
      assert Elements(s) == Elements(front) + {s[|s| - 1]};
    }
  }

  lemma Smaller(a: set<SysInit>, b: set<SysInit>)
    requires a <= b
    ensures |a| <= |b|
  {
    if a != b {
      assert b == a + (b - a);
    }
  }

  /** Only finitely many tasks run. */
  lemma TraceIsBounded(initial: set<SysInit>, trace: seq<SysInit>, universe: set<SysInit>)
    requires Universe(initial, universe) && Schedule(initial, trace)
    ensures |trace| <= |universe|
  {
    RunsOnce(initial, trace);
    RegisteredInside(initial, trace, universe);
    DistinctCount(trace);
    Smaller(Elements(trace), universe);
  }

  lemma JoinedStep(sets: seq<seq<SysInit>>, k: nat)
    requires k < |sets|
    ensures Joined(sets[..k + 1]) == Joined(sets[..k]) + sets[k]
  {
    assert sets[..k + 1][..k] == sets[..k];
  }

  lemma ElementsJoin(a: seq<SysInit>, b: seq<SysInit>)
    ensures Elements(a + b) == Elements(a) + Elements(b)
  {
  }

  lemma SameElements(a: seq<SysInit>, b: seq<SysInit>)
    requires multiset(a) == multiset(b)
    ensures Elements(a) == Elements(b)
  {
    forall t
      ensures t in Elements(a) <==> t in Elements(b)
    {
      assert t in a <==> t in multiset(a);
      assert t in b <==> t in multiset(b);
    }
  }

  /** The task at i is the next one of the schedule when all before it are done
      or never run. */
  lemma NextTask(initial: set<SysInit>, base: seq<SysInit>, trace: seq<SysInit>, a: seq<SysInit>, i: nat)
    requires i < |a| && SortedThen(base, a) && base <= trace
    requires Schedule(initial, trace) && Elements(a) == Registered(initial, trace)
    requires forall p :: 0 <= p < i ==> !Runnable(a[p]) || a[p] in trace
    requires Runnable(a[i]) && a[i] !in trace
    ensures Schedule(initial, trace + [a[i]])
  {
    var t, next := a[i], trace + [a[i]];
    assert next[..|next| - 1] == trace;
    assert t in Elements(a);
    forall u | u in Registered(initial, trace) && Pending(initial, trace, u)
      ensures KeyLeq(t, u)
    {
      var q :| 0 <= q < |a| && a[q] == u;
    }
  }

  lemma RegisteredStep(initial: set<SysInit>, trace: seq<SysInit>, t: SysInit)
    ensures Registered(initial, trace + [t]) == Registered(initial, trace) + Elements(Joined(t.adds))
    ensures t.adds == [] ==> Elements(Joined(t.adds)) == {}
  {
    assert (trace + [t])[..|trace|] == trace;
  }

  class Boot {
    var sysinit: array<SysInit>
    var newsysinit: array?<SysInit>
    ghost var trace: seq<SysInit>

    constructor (tasks: array<SysInit>)
      ensures sysinit == tasks && newsysinit == null && trace == []
    {
      sysinit := tasks;
      newsysinit := null;
      trace := [];
    }

    ghost predicate Valid(initial: set<SysInit>, universe: set<SysInit>)
      reads this, sysinit, universe
    {
      && Universe(initial, universe)
      && CheckedOff(universe, trace)
      && Schedule(initial, trace)
      && Elements(sysinit[..]) == Registered(initial, trace)
    }

    /** sysinit_add: the new set goes behind the one added before it, or behind
        the tasks being run. */
    method SysinitAdd(tasks: seq<SysInit>)
      modifies this`newsysinit
      ensures newsysinit != null && fresh(newsysinit)
      ensures newsysinit[..] == (if old(newsysinit) == null then sysinit[..] else old(newsysinit[..])) + tasks
    {
      var known := if newsysinit == null then sysinit[..] else newsysinit[..];
      var count := |known| + |tasks|;
      var newset := new SysInit[count](k requires 0 <= k < count =>
        if k < |known| then known[k] else tasks[k - |known|]);
      newsysinit := newset;
    }

    /** The task's function: it registers its sets one after the other. */
    method Call(t: SysInit)
      requires newsysinit == null
      modifies this`newsysinit
      ensures newsysinit == null <==> t.adds == []
      ensures newsysinit != null ==> fresh(newsysinit) && newsysinit[..] == sysinit[..] + Joined(t.adds)
    {
      var k := 0;
      while k < |t.adds|
        invariant 0 <= k <= |t.adds|
        invariant newsysinit == null <==> k == 0
        invariant newsysinit != null ==> fresh(newsysinit) && newsysinit[..] == sysinit[..] + Joined(t.adds[..k])
      {
        JoinedStep(t.adds, k);
        assert sysinit[..] + (Joined(t.adds[..k]) + t.adds[k]) == sysinit[..] + Joined(t.adds[..k]) + t.adds[k];
        SysinitAdd(t.adds[k]);
        k := k + 1;
      }
      assert t.adds[..k] == t.adds;
    }

    /** Lines 206 to 229: run a task, check it off, and take over what it has
        registered. */
    method RunTask(ghost initial: set<SysInit>, ghost universe: set<SysInit>, t: SysInit) returns (restart: bool)
      requires Valid(initial, universe) && newsysinit == null
      requires t in universe && t !in trace && Schedule(initial, trace + [t])
      modifies this, universe
      ensures Valid(initial, universe) && newsysinit == null && trace == old(trace) + [t]
      ensures restart ==> fresh(sysinit)
      ensures !restart ==> sysinit == old(sysinit) && sysinit[..] == old(sysinit[..])
    {
      hide Schedule, Registered, Universe, Elements, Joined;
      Call(t);
      t.subsystem := DONE;
      RegisteredStep(initial, trace, t);
      trace := trace + [t];
      restart := newsysinit != null;
      if restart {
        ElementsJoin(sysinit[..], Joined(t.adds));
        sysinit := newsysinit;
        newsysinit := null;
      }
    }

    /** Lines 183 to 230: traverse the sorted tasks. */
    method Traverse(ghost initial: set<SysInit>, ghost universe: set<SysInit>) returns (restart: bool)
      requires Valid(initial, universe) && newsysinit == null && Sorted(sysinit[..])
      modifies this, universe
      ensures Valid(initial, universe) && newsysinit == null
      ensures old(trace) <= trace
      ensures restart ==> |trace| > |old(trace)| && fresh(sysinit)
      ensures !restart ==> sysinit == old(sysinit) && Complete(initial, trace)
    {
      hide Schedule, Registered, Universe, Joined, SortedThen, Sorted;
      RegisteredInside(initial, trace, universe);
      SortedNow(universe, trace, sysinit[..]);
      ghost var base, a := trace, sysinit[..];
      var i := 0;
      while i < sysinit.Length
        invariant 0 <= i <= sysinit.Length && sysinit == old(sysinit) && sysinit[..] == a
        invariant Valid(initial, universe) && newsysinit == null && base <= trace
        invariant forall p :: 0 <= p < i ==> !Runnable(a[p]) || a[p] in trace
      {
        var t := sysinit[i];
        assert t == a[i] && t in Elements(a);
        RegisteredInside(initial, trace, universe);
        if t.subsystem != DUMMY && t.subsystem != DONE {
          NextTask(initial, base, trace, a, i);
          restart := RunTask(initial, universe, t);
          if restart {
            return;
          }
        }
        i := i + 1;
      }
      restart := false;
    }

    /** From the label restart on: sort, then traverse. */
    method Round(ghost initial: set<SysInit>, ghost universe: set<SysInit>) returns (restart: bool)
      requires Valid(initial, universe) && newsysinit == null
      modifies this, sysinit, universe
      ensures Valid(initial, universe) && newsysinit == null
      ensures sysinit == old(sysinit) || fresh(sysinit)
      ensures |old(trace)| <= |trace| <= |universe| && (restart ==> |trace| > |old(trace)|)
      ensures !restart ==> Complete(initial, trace)
    {
      hide Schedule, Registered, Universe, Complete, Sorted, Elements;
      ghost var was := sysinit[..];
      Sort(sysinit);
      SameElements(was, sysinit[..]);
      restart := Traverse(initial, universe);
      TraceIsBounded(initial, trace, universe);
    }

    /** mi_startup: sort, traverse, and start over whenever a task registered
        more. It ends, and what it ran is a complete schedule. */
    method MiStartup(ghost universe: set<SysInit>)
      requires newsysinit == null && trace == []
      requires Universe(Elements(sysinit[..]), universe) && CheckedOff(universe, [])
      modifies this, sysinit, universe
      ensures Schedule(old(Elements(sysinit[..])), trace) && Complete(old(Elements(sysinit[..])), trace)
      ensures CheckedOff(universe, trace)
      ensures Elements(sysinit[..]) == Registered(old(Elements(sysinit[..])), trace)
      ensures forall i, j :: 0 <= i < j < |trace| ==> trace[i] != trace[j]
      ensures forall t :: t in trace <==> t in sysinit[..] && t.level >= 2
      ensures forall t :: t in old(sysinit[..]) ==> t in sysinit[..]
      ensures forall t, u :: t in trace && Adds(t, u) ==> u in sysinit[..]
      ensures forall i :: 0 <= i < |trace| - 1 ==>
                || trace[i].level < trace[i + 1].level
                || (trace[i].level == trace[i + 1].level && trace[i].order <= trace[i + 1].order)
                || Adds(trace[i], trace[i + 1])
    {
      ghost var initial := Elements(sysinit[..]);
      NothingRun(initial);
      hide Schedule, Registered, Universe, Complete, Elements, CheckedOff;
      var restart := true;
      while restart
        invariant Valid(initial, universe) && newsysinit == null
        invariant sysinit == old(sysinit) || fresh(sysinit)
        invariant |trace| <= |universe|
        invariant !restart ==> Complete(initial, trace)
        decreases |universe| - |trace|, restart
      {
        restart := Round(initial, universe);
      }
      FinishedRun(initial, trace, sysinit[..]);
      InitialElements(old(sysinit[..]), initial);
    }
  }

  lemma InitialElements(s: seq<SysInit>, initial: set<SysInit>)
    requires initial == Elements(s)
    ensures forall t :: t in s <==> t in initial
  {
  }

  /** The function of t registers u. */
  ghost predicate Adds(t: SysInit, u: SysInit) {
    exists k :: 0 <= k < |t.adds| && u in t.adds[k]
  }

  lemma {:induction false} JoinedMembers(sets: seq<seq<SysInit>>, u: SysInit)
    ensures u in Joined(sets) <==> exists k :: 0 <= k < |sets| && u in sets[k]
  {
    if sets != [] {
      var n := |sets| - 1;
      JoinedMembers(sets[..n], u);
      assert Joined(sets) == Joined(sets[..n]) + sets[n];
      if u in Joined(sets[..n]) {
        var k :| 0 <= k < n && u in sets[..n][k];
        assert u in sets[k];
      }
      if exists k :: 0 <= k < |sets| && u in sets[k] {
        var k :| 0 <= k < |sets| && u in sets[k];
        assert k < n ==> u in sets[..n][k];
      }
    }
  }

  /** A complete schedule in plain terms: which tasks have run, what is registered, and in which order
      neighbours stand. */
  lemma FinishedRun(initial: set<SysInit>, trace: seq<SysInit>, known: seq<SysInit>)
    requires Schedule(initial, trace) && Complete(initial, trace) && Elements(known) == Registered(initial, trace)
    ensures forall i, j :: 0 <= i < j < |trace| ==> trace[i] != trace[j]
    ensures forall t :: t in trace <==> t in known && t.level >= 2
    ensures forall t :: t in initial ==> t in known
    ensures forall t, u :: t in trace && Adds(t, u) ==> u in known
    ensures forall i :: 0 <= i < |trace| - 1 ==>
              || trace[i].level < trace[i + 1].level
              || (trace[i].level == trace[i + 1].level && trace[i].order <= trace[i + 1].order)
              || Adds(trace[i], trace[i + 1])
  {
    RunsOnce(initial, trace);
    RunsAll(initial, trace, {});
    InitialElements(known, Registered(initial, trace));
    forall t, u | t in trace && Adds(t, u)
      ensures u in known
    {
      JoinedMembers(t.adds, u);
      assert u in Elements(Joined(t.adds));
    }
    forall i | 0 <= i < |trace| - 1
      ensures || trace[i].level < trace[i + 1].level
              || (trace[i].level == trace[i + 1].level && trace[i].order <= trace[i + 1].order)
              || Adds(trace[i], trace[i + 1])
    {
      OrderOfNeighbours(initial, trace, i);
      JoinedMembers(trace[i].adds, trace[i + 1]);
    }
  }

  lemma NothingRun(initial: set<SysInit>)
    ensures Schedule(initial, []) && Registered(initial, []) == initial
  {
  }
}
