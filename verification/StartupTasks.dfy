/** The startup tasks of BsdSupport/init_main.c and the order in which they
    must run. */
module StartupTasks {

  /** SI_SUB_DUMMY and SI_SUB_DONE of sys/kernel.h. */
  const DUMMY: nat := 0
  const DONE: nat := 1

  /** A struct sysinit. `level` is the subsystem it was declared with; `adds`
      stands for the task's function: the sets it gives to sysinit_add. */
  class SysInit {
    const level: nat
    const order: nat
    const adds: seq<seq<SysInit>>
    var subsystem: nat

    constructor (level: nat, order: nat, adds: seq<seq<SysInit>>)
      ensures this.level == level && this.order == order && this.adds == adds && subsystem == level
    {
      this.level := level;
      this.order := order;
      this.adds := adds;
      subsystem := level;
    }
  }

  ghost function Elements(s: seq<SysInit>): set<SysInit> {
    set t | t in s
  }

  ghost function Joined(sets: seq<seq<SysInit>>): seq<SysInit> {
    if sets == [] then [] else Joined(sets[..|sets| - 1]) + sets[|sets| - 1]
  }

  ghost predicate Runnable(t: SysInit) {
    t.level != DUMMY && t.level != DONE
  }

  /** The order of declaration: subsystem first, then order. */
  ghost predicate KeyLeq(s: SysInit, t: SysInit) {
    s.level < t.level || (s.level == t.level && s.order <= t.order)
  }

  /** What is registered once the tasks of the trace have run. */
  ghost function Registered(initial: set<SysInit>, trace: seq<SysInit>): set<SysInit> {
    if trace == [] then initial
    else Registered(initial, trace[..|trace| - 1]) + Elements(Joined(trace[|trace| - 1].adds))
  }

  ghost predicate Pending(initial: set<SysInit>, trace: seq<SysInit>, t: SysInit) {
    t in Registered(initial, trace) && Runnable(t) && t !in trace
  }

  /** Every task of the trace was pending and had the least key of all pending
      tasks when it ran. */
  ghost predicate Schedule(initial: set<SysInit>, trace: seq<SysInit>) {
    trace == [] ||
    (var before, t := trace[..|trace| - 1], trace[|trace| - 1];
     && Schedule(initial, before)
     && Pending(initial, before, t)
     && forall u :: u in Registered(initial, before) && Pending(initial, before, u) ==> KeyLeq(t, u))
  }

  /** Nothing that may run is left. */
  ghost predicate Complete(initial: set<SysInit>, trace: seq<SysInit>) {
    forall t :: t in Registered(initial, trace) && Runnable(t) ==> t in trace
  }

  lemma {:induction false} RegisteredGrows(initial: set<SysInit>, trace: seq<SysInit>, i: nat)
    requires i <= |trace|
    ensures Registered(initial, trace[..i]) <= Registered(initial, trace)
    decreases |trace|
  {
    if i < |trace| {
      var before := trace[..|trace| - 1];
      assert before[..i] == trace[..i];
      RegisteredGrows(initial, before, i);
    } else {
      assert trace[..i] == trace;
    }
  }

  lemma {:induction false} PrefixScheduled(initial: set<SysInit>, trace: seq<SysInit>, i: nat)
    requires Schedule(initial, trace) && i <= |trace|
    ensures Schedule(initial, trace[..i])
    decreases |trace|
  {
    if i < |trace| {
      assert trace[..|trace| - 1][..i] == trace[..i];
      PrefixScheduled(initial, trace[..|trace| - 1], i);
    } else {
      assert trace[..i] == trace;
    }
  }

  lemma ScheduledAt(initial: set<SysInit>, trace: seq<SysInit>, i: nat)
    requires Schedule(initial, trace) && i < |trace|
    ensures Pending(initial, trace[..i], trace[i])
    ensures forall u :: u in Registered(initial, trace[..i]) && Pending(initial, trace[..i], u) ==> KeyLeq(trace[i], u)
  {
    PrefixScheduled(initial, trace, i + 1);
    assert trace[..i + 1][..i] == trace[..i];
  }

  /** No task runs twice, and only registered tasks run. */
  lemma RunsOnce(initial: set<SysInit>, trace: seq<SysInit>)
    requires Schedule(initial, trace)
    ensures forall i, j :: 0 <= i < j < |trace| ==> trace[i] != trace[j]
    ensures forall t :: t in trace ==> Runnable(t) && t in Registered(initial, trace)
  {
    forall i, j | 0 <= i < j < |trace|
      ensures trace[i] != trace[j]
    {
      ScheduledAt(initial, trace, j);
      assert trace[..j][i] == trace[i];
    }
    forall t | t in trace
      ensures Runnable(t) && t in Registered(initial, trace)
    {
      var i :| 0 <= i < |trace| && trace[i] == t;
      ScheduledAt(initial, trace, i);
      RegisteredGrows(initial, trace, i);
    }
  }

  /** Closed under registration by tasks that run. */
  ghost predicate Closed(c: set<SysInit>) {
    forall t :: t in c && Runnable(t) ==> Elements(Joined(t.adds)) <= c
  }

  lemma {:induction false} StaysInside(initial: set<SysInit>, trace: seq<SysInit>, c: set<SysInit>)
    requires Schedule(initial, trace) && initial <= c && Closed(c)
    ensures Registered(initial, trace) <= c
  {
    if trace != [] {
      StaysInside(initial, trace[..|trace| - 1], c);
    }
  }

  lemma {:induction false} AddedIsRegistered(initial: set<SysInit>, trace: seq<SysInit>, i: nat)
    requires i < |trace|
    ensures Elements(Joined(trace[i].adds)) <= Registered(initial, trace)
  {
    RegisteredGrows(initial, trace, i + 1);
    assert trace[..i + 1][..i] == trace[..i];
  }

  /** A finished run has registered the least closed set around the tasks it
      began with, and has run exactly its runnable members: which tasks run
      does not depend on the order of ties or of additions. */
  lemma RunsAll(initial: set<SysInit>, trace: seq<SysInit>, c: set<SysInit>)
    requires Schedule(initial, trace) && Complete(initial, trace)
    ensures initial <= Registered(initial, trace) && Closed(Registered(initial, trace))
    ensures initial <= c && Closed(c) ==> Registered(initial, trace) <= c
    ensures forall t :: t in trace <==> t in Registered(initial, trace) && Runnable(t)
  {
    RunsOnce(initial, trace);
    RegisteredGrows(initial, trace, 0);
    var r := Registered(initial, trace);
    forall t | t in r && Runnable(t)
      ensures Elements(Joined(t.adds)) <= r
    {
      var i :| 0 <= i < |trace| && trace[i] == t;
      AddedIsRegistered(initial, trace, i);
    }
    if initial <= c && Closed(c) {
      StaysInside(initial, trace, c);
    }
  }

  /** Two finished runs from the same tasks run the same tasks. */
  lemma SameTasks(initial: set<SysInit>, trace: seq<SysInit>, other: seq<SysInit>)
    requires Schedule(initial, trace) && Complete(initial, trace)
    requires Schedule(initial, other) && Complete(initial, other)
    ensures Elements(trace) == Elements(other)
  {
    hide Registered, Schedule, Complete, Closed;
    RunsAll(initial, trace, Registered(initial, other));
    RunsAll(initial, other, Registered(initial, trace));
  }

  /** Tasks only add tasks that come no earlier than themselves. */
  ghost predicate Forward(t: SysInit) {
    forall u :: u in Joined(t.adds) && Runnable(u) ==> KeyLeq(t, u)
  }

  /** A task comes before one that should precede it only when it is the one
      that registered it. */
  lemma OrderOfNeighbours(initial: set<SysInit>, trace: seq<SysInit>, i: nat)
    requires Schedule(initial, trace) && i + 1 < |trace|
    ensures KeyLeq(trace[i], trace[i + 1]) || trace[i + 1] in Joined(trace[i].adds)
  {
    ScheduledAt(initial, trace, i);
    ScheduledAt(initial, trace, i + 1);
    var u, now := trace[i + 1], trace[..i + 1];
    assert now[..|now| - 1] == trace[..i] && now[|now| - 1] == trace[i];
    assert now == trace[..i] + [trace[i]];
    assert u in Registered(initial, trace[..i]) || u in Joined(trace[i].adds);
    assert u in Registered(initial, trace[..i]) ==> Pending(initial, trace[..i], u);
  }

  /** When no task adds an earlier one, the whole run is in order. */
  lemma {:induction false} RunsInOrder(initial: set<SysInit>, trace: seq<SysInit>, i: nat, j: nat)
    requires Schedule(initial, trace) && i <= j < |trace|
    requires forall t :: t in trace ==> Forward(t)
    ensures KeyLeq(trace[i], trace[j])
  {
    if i < j {
      RunsInOrder(initial, trace, i, j - 1);
      OrderOfNeighbours(initial, trace, j - 1);
      ScheduledAt(initial, trace, j);
      assert trace[j - 1] in trace;
    }
  }
}
