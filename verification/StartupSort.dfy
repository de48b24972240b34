/** The sort of BsdSupport/init_main.c. */
module StartupSort {
  import opened StartupTasks

  /** The comparison of lines 160 to 162, on the current subsystems. */
  predicate Leq(s: SysInit, t: SysInit)
    reads s, t
  {
    s.subsystem < t.subsystem || (s.subsystem == t.subsystem && s.order <= t.order)
  }

  ghost predicate Sorted(a: seq<SysInit>)
    reads Elements(a)
  {
    forall p, q :: 0 <= p < q < |a| ==> Leq(a[p], a[q])
  }

  /** Lines 160 to 166. */
  method Exchange(a: array<SysInit>, i: nat, j: nat)
    requires i < j < a.Length
    requires forall p, q :: 0 <= p < i && p < q < a.Length ==> Leq(a[p], a[q])
    requires forall q :: i < q < j ==> Leq(a[i], a[q])
    modifies a
    ensures multiset(a[..]) == multiset(old(a[..]))
    ensures forall p, q :: 0 <= p < i && p < q < a.Length ==> Leq(a[p], a[q])
    ensures forall q :: i < q <= j ==> Leq(a[i], a[q])
  {
    if !Leq(a[i], a[j]) {
      a[i], a[j] := a[j], a[i];
    }
  }

  /** Lines 158 to 168: an exchange sort, in place. */
  method Sort(a: array<SysInit>)
    modifies a
    ensures multiset(a[..]) == multiset(old(a[..]))
    ensures Sorted(a[..])
  {
    var i := 0;
    while i < a.Length
      invariant 0 <= i <= a.Length
      invariant multiset(a[..]) == multiset(old(a[..]))
      invariant forall p, q :: 0 <= p < i && p < q < a.Length ==> Leq(a[p], a[q])
    {
      var j := i + 1;
      while j < a.Length
        invariant i < j <= a.Length
        invariant multiset(a[..]) == multiset(old(a[..]))
        invariant forall p, q :: 0 <= p < i && p < q < a.Length ==> Leq(a[p], a[q])
        invariant forall q :: i < q < j ==> Leq(a[i], a[q])
      {
        Exchange(a, i, j);
        j := j + 1;
      }
      i := i + 1;
    }
  }
}
