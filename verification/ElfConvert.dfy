/** The structure converters libelf_cvt*_tof and libelf_cvt*_tom. Source and destination are
    places in one byte array, so that converting in place is an ordinary case. */
module ElfConvert {
  import opened ElfBytes
  import opened ElfLayouts
  import opened Sequences

  twostate predicate OnlyChanged(mem: array<byte>, lo: int, hi: int)
    reads mem
  {
    forall i | 0 <= i < mem.Length && !(lo <= i < hi) :: mem[i] == old(mem[i])
  }

  lemma SliceKept(before: seq<byte>, after: seq<byte>, lo: int, hi: int, a: nat, b: nat)
    requires |before| == |after| && forall i | 0 <= i < |before| && !(lo <= i < hi) :: after[i] == before[i]
    requires a <= b <= |before| && (b <= lo || hi <= a)
    ensures after[a..b] == before[a..b]
  {
  }

  /** A WRITE macro: stores the bytes one by one. */
  method WriteBytes(mem: array<byte>, p: nat, b: seq<byte>)
    requires p + |b| <= mem.Length
    modifies mem
    ensures mem[p..p + |b|] == b && OnlyChanged(mem, p, p + |b|)
  {
    for i := 0 to |b|
      invariant forall j | 0 <= j < i :: mem[p + j] == b[j]
      invariant OnlyChanged(mem, p, p + |b|)
    {
      mem[p + i] := b[i];
    }
  }

  /** The bytes the WRITE macros emit for the structure copy t: its fields from offset start on. */
  function Encode(ks: seq<Kind>, start: nat, abi: nat, t: seq<byte>, swap: bool): (e: seq<byte>)
    requires abi > 0 && |t| >= End(ks, start, abi)
    ensures |e| == FileSize(ks)
    decreases |ks|
  {
    if ks == [] then []
    else
      FirstField(ks, start, abi);
      var o := RoundUp(start, Align(ks[0], abi));
      var n := Size(ks[0]);
      Convert(t[o..o + n], swap && Swapped(ks[0])) + Encode(ks[1..], o + n, abi, t, swap)
  }

  lemma EncodeStep(ks: seq<Kind>, start: nat, abi: nat, t: seq<byte>, swap: bool)
    requires abi > 0 && ks != [] && |t| >= End(ks, start, abi)
    ensures var o := RoundUp(start, Align(ks[0], abi));
            var n := Size(ks[0]);
            && o + n <= |t| && |t| >= End(ks[1..], o + n, abi)
            && Encode(ks, start, abi, t, swap)
            == Convert(t[o..o + n], swap && Swapped(ks[0])) + Encode(ks[1..], o + n, abi, t, swap)
  {
    FirstField(ks, start, abi);
  }

  lemma Joined(x: seq<byte>, e: seq<byte>)
    ensures (x + e)[..|x|] == x && (x + e)[|x|..] == e
  {
  }

  lemma {:induction false} EncodeFields(ks: seq<Kind>, start: nat, abi: nat, t: seq<byte>, swap: bool)
    requires abi > 0 && |t| >= End(ks, start, abi)
    ensures Fields(ks, start, abi, t, Encode(ks, start, abi, t, swap), swap)
    decreases |ks|
  {
    if ks != [] {
      hide RoundUp, Align, Size, End, FileSize, Convert, Fields, Encode, Swapped;
      FirstField(ks, start, abi);
      var n := Size(ks[0]);
      var o := RoundUp(start, Align(ks[0], abi));
      ConvertTwice(t[o..o + n], swap && Swapped(ks[0]));
      EncodeFields(ks[1..], o + n, abi, t, swap);
      var x, e := Convert(t[o..o + n], swap && Swapped(ks[0])), Encode(ks[1..], o + n, abi, t, swap);
      EncodeStep(ks, start, abi, t, swap);
      Joined(x, e);
      FieldsStep(ks, start, abi, t, x + e, swap);
    }
  }

  lemma Spliced(t: seq<byte>, o: nat, b: seq<byte>, r: seq<byte>, start: nat)
    requires start <= o && o + |b| <= |t| == |r|
    requires r[..o + |b|] == (t[..o] + b + t[o + |b|..])[..o + |b|]
    ensures r[o..o + |b|] == b && r[..start] == t[..start]
  {
    var p := t[..o] + b;
    assert r[..o + |b|] == p;
    assert r[o..o + |b|] == p[o..] && r[..start] == p[..start];
  }

  /** The structure t after the READ macros and swaps have stored the file bytes e in its fields. */
  function Decode(ks: seq<Kind>, start: nat, abi: nat, t: seq<byte>, e: seq<byte>, swap: bool): (r: seq<byte>)
    requires abi > 0 && |t| >= End(ks, start, abi) && |e| == FileSize(ks)
    ensures |r| == |t|
    decreases |ks|
  {
    if ks == [] then t
    else
      FirstField(ks, start, abi);
      var o := RoundUp(start, Align(ks[0], abi));
      var n := Size(ks[0]);
      Decode(ks[1..], o + n, abi, t[..o] + Convert(e[..n], swap && Swapped(ks[0])) + t[o + n..], e[n..], swap)
  }

  lemma {:induction false} DecodeFields(ks: seq<Kind>, start: nat, abi: nat, t: seq<byte>, e: seq<byte>, swap: bool)
    requires abi > 0 && |t| >= End(ks, start, abi) && |e| == FileSize(ks)
    ensures Fields(ks, start, abi, Decode(ks, start, abi, t, e, swap), e, swap)
    ensures Decode(ks, start, abi, t, e, swap)[..start] == t[..start]
    decreases |ks|
  {
    if ks != [] {
      hide RoundUp, Align, Size, End, FileSize, Convert, Fields;
      FirstField(ks, start, abi);
      var n := Size(ks[0]);
      var o := RoundUp(start, Align(ks[0], abi));
      var b := Convert(e[..n], swap && Swapped(ks[0]));
      var t1 := t[..o] + b + t[o + n..];
      var r := Decode(ks[1..], o + n, abi, t1, e[n..], swap);
      DecodeFields(ks[1..], o + n, abi, t1, e[n..], swap);
      Spliced(t, o, b, r, start);
      FieldsStep(ks, start, abi, r, e, swap);
    }
  }

  /** k * a, by repeated addition. */
  ghost function Times(k: nat, a: nat): nat {
    if k == 0 then 0 else Times(k - 1, a) + a
  }

  lemma {:induction false} TimesIsProduct(k: nat, a: nat)
    ensures Times(k, a) == k * a
  {
    if k > 0 {
      TimesIsProduct(k - 1, a);
      assert k * a == (k - 1) * a + a;
    }
  }

  /** The bytes of count elements. */
  function Bulk(count: nat, size: nat): nat {
    count * size
  }

  lemma {:induction false} TimesMonotone(k: nat, a: nat, b: nat)
    requires a <= b
    ensures Times(k, a) <= Times(k, b)
  {
    if k > 0 {
      TimesMonotone(k - 1, a, b);
    }
  }

  lemma TimesStep(n: nat, size: nat)
    ensures Times(0, size) == 0 && Times(n + 1, size) == Times(n, size) + size
  {
  }

  /** The structures in m[a..b] and the file bytes in e[c..d] hold the same elements. */
  ghost predicate Holds(ks: seq<Kind>, abi: nat, m: seq<byte>, a: nat, b: nat, e: seq<byte>, c: nat, d: nat, swap: bool)
    requires abi > 0
  {
    a <= b <= |m| && c <= d <= |e| && AgreeAll(ks, abi, m[a..b], e[c..d], swap)
  }

  lemma HoldsNothing(ks: seq<Kind>, abi: nat, m: seq<byte>, a: nat, e: seq<byte>, c: nat, swap: bool)
    requires abi > 0 && a <= |m| && c <= |e|
    ensures Holds(ks, abi, m, a, a, e, c, c, swap)
  {
    NothingAgrees(ks, abi, swap);
    assert m[a..a] == [] && e[c..c] == [];
  }

  /** One more element at the end: the file bytes in e have been extended to after. */
  lemma HoldsAppend(ks: seq<Kind>, abi: nat, m: seq<byte>, a: nat, b: nat, b1: nat,
                    e: seq<byte>, after: seq<byte>, c: nat, d: nat, d1: nat, swap: bool)
    requires abi > 0 && ks != [] && Holds(ks, abi, m, a, b, e, c, d, swap)
    requires b <= b1 <= |m| && d <= d1 <= |e| == |after|
    requires forall i | 0 <= i < |e| && !(d <= i < d1) :: after[i] == e[i]
    requires Agree(ks, abi, m[b..b1], after[d..d1], swap)
    ensures Holds(ks, abi, m, a, b1, after, c, d1, swap)
  {
    hide Agree, AgreeAll, MemSize, FileSize;
    SliceKept(e, after, d, d1, c, d);
    AgreeAllAppend(ks, abi, m[a..b], e[c..d], m[b..b1], after[d..d1], swap);
    Split(m, a, b, b1);
    Split(after, c, d, d1);
  }

  /** One more element in front: the structures in m have been extended to after. */
  lemma HoldsPrepend(ks: seq<Kind>, abi: nat, m: seq<byte>, after: seq<byte>, a: nat, a1: nat, b: nat,
                     e: seq<byte>, c: nat, c1: nat, d: nat, swap: bool)
    requires abi > 0 && ks != [] && Holds(ks, abi, m, a1, b, e, c1, d, swap)
    requires a <= a1 && c <= c1 && |m| == |after|
    requires forall i | 0 <= i < |m| && !(a <= i < a1) :: after[i] == m[i]
    requires a1 <= |m| && c1 <= |e| && Agree(ks, abi, after[a..a1], e[c..c1], swap)
    ensures Holds(ks, abi, after, a, b, e, c, d, swap)
  {
    hide Agree, AgreeAll, MemSize, FileSize;
    SliceKept(m, after, a, a1, a1, b);
    AgreeAllPrepend(ks, abi, after[a..a1], e[c..c1], m[a1..b], e[c1..d], swap);
    Split(after, a, a1, b);
    Split(e, c, c1, d);
  }

  lemma WholeSlice(mem: array<byte>, a: nat, b: nat)
    requires a <= b <= mem.Length
    ensures mem[..][a..b] == mem[a..b]
  {
  }

  /** One turn of the _tof loop. */
  method PutElement(mem: array<byte>, ghost m0: seq<byte>, ghost dst: nat, d: nat, ghost src: nat, s: nat,
                    ks: seq<Kind>, abi: nat, swap: bool)
    requires abi > 0 && ks != [] && dst <= d && d + FileSize(ks) <= mem.Length
    requires src <= s && s + MemSize(ks, abi) <= mem.Length == |m0|
    requires mem[s..s + MemSize(ks, abi)] == m0[s..s + MemSize(ks, abi)]
    requires Holds(ks, abi, m0, src, s, mem[..], dst, d, swap)
    modifies mem
    ensures Holds(ks, abi, m0, src, s + MemSize(ks, abi), mem[..], dst, d + FileSize(ks), swap)
    ensures OnlyChanged(mem, d, d + FileSize(ks))
  {
    hide MemSize, FileSize, Agree, AgreeAll, Encode, Fields, End, Holds;
    var msz, fsz := MemSize(ks, abi), FileSize(ks);
    var t := mem[s..s + msz];
    StructRoom(ks, abi);
    EncodeFields(ks, 0, abi, t, swap);
    var e := Encode(ks, 0, abi, t, swap);
    ghost var before := mem[..];
    WriteBytes(mem, d, e);
    MakeAgree(ks, abi, t, e, swap);
    HoldsBounds(ks, abi, m0, src, s, before, dst, d, swap);
    WholeSlice(mem, d, d + fsz);
    HoldsAppend(ks, abi, m0, src, s, s + msz, before, mem[..], dst, d, d + fsz, swap);
  }

  /** One turn of the _tof loop, wherever it stands: what is read is still the
      old structure. */
  method NextToFile(mem: array<byte>, ghost m0: seq<byte>, ghost dst: nat, d: nat, ghost src: nat, s: nat,
                    ks: seq<Kind>, abi: nat, swap: bool)
    requires abi > 0 && ks != [] && dst <= d && d + FileSize(ks) <= mem.Length == |m0|
    requires src <= s && s + MemSize(ks, abi) <= mem.Length
    requires d <= s || s + MemSize(ks, abi) <= dst
    requires forall i | 0 <= i < mem.Length && !(dst <= i < d) :: mem[i] == m0[i]
    requires Holds(ks, abi, m0, src, s, mem[..], dst, d, swap)
    modifies mem
    ensures Holds(ks, abi, m0, src, s + MemSize(ks, abi), mem[..], dst, d + FileSize(ks), swap)
    ensures forall i | 0 <= i < mem.Length && !(dst <= i < d + FileSize(ks)) :: mem[i] == m0[i]
  {
    hide MemSize, FileSize, Agree, AgreeAll, Holds;
    var msz := MemSize(ks, abi);
    SliceKept(m0, mem[..], dst, d, s, s + msz);
    WholeSlice(mem, s, s + msz);
    PutElement(mem, m0, dst, d, src, s, ks, abi, swap);
  }

  /** The loop of libelf_cvt*_tof: walks both buffers from the first element on. */
  method ToFileLoop(mem: array<byte>, dst: nat, src: nat, count: nat, ks: seq<Kind>, abi: nat, swap: bool,
                    ghost mEnd: nat, ghost eEnd: nat)
    requires abi > 0 && ks != []
    requires mEnd == src + Times(count, MemSize(ks, abi)) && eEnd == dst + Times(count, FileSize(ks))
    requires mEnd <= mem.Length && eEnd <= mem.Length
    requires dst == src || eEnd <= src || mEnd <= dst
    modifies mem
    ensures AgreeAll(ks, abi, old(mem[src..mEnd]), mem[dst..eEnd], swap)
    ensures OnlyChanged(mem, dst, eEnd)
  {
    hide MemSize, FileSize, Agree, AgreeAll, Holds, Times;
    var msz, fsz := MemSize(ks, abi), FileSize(ks);
    FileSizeAtMostMemSize(ks, abi);
    ghost var m0 := mem[..];
    TimesStep(0, msz);
    TimesStep(0, fsz);
    var s: nat, d: nat, left: nat := src, dst, count;
    HoldsNothing(ks, abi, m0, src, m0, dst, swap);
    while left > 0
      invariant s + Times(left, msz) == mEnd && d + Times(left, fsz) == eEnd
      invariant src <= s && dst <= d && s - src >= d - dst
      invariant forall i | 0 <= i < mem.Length && !(dst <= i < d) :: mem[i] == m0[i]
      invariant Holds(ks, abi, m0, src, s, mem[..], dst, d, swap)
    {
      TimesStep(left - 1, msz);
      TimesStep(left - 1, fsz);
      NextToFile(mem, m0, dst, d, src, s, ks, abi, swap);
      s, d, left := s + msz, d + fsz, left - 1;
    }
    HoldsMeans(ks, abi, m0, src, mEnd, mem[..], dst, eEnd, swap);
    WholeSlice(mem, dst, eEnd);
    assert m0[src..mEnd] == old(mem[src..mEnd]);
  }

  /** libelf_cvt*_tof. The destination size is not looked at. */
  method ToFile(mem: array<byte>, dst: nat, dsz: nat, src: nat, count: nat, ks: seq<Kind>, abi: nat, swap: bool)
      returns (ok: bool)
    requires abi > 0 && ks != []
    requires src + Bulk(count, MemSize(ks, abi)) <= mem.Length && dst + Bulk(count, FileSize(ks)) <= mem.Length
    requires dst == src || dst + Bulk(count, FileSize(ks)) <= src || src + Bulk(count, MemSize(ks, abi)) <= dst
    modifies mem
    ensures ok
    ensures AgreeAll(ks, abi, old(mem[src..src + Bulk(count, MemSize(ks, abi))]), mem[dst..dst + Bulk(count, FileSize(ks))], swap)
    ensures OnlyChanged(mem, dst, dst + Bulk(count, FileSize(ks)))
  {
    hide MemSize, FileSize, AgreeAll;
    TimesIsProduct(count, MemSize(ks, abi));
    TimesIsProduct(count, FileSize(ks));
    ToFileLoop(mem, dst, src, count, ks, abi, swap, src + Bulk(count, MemSize(ks, abi)), dst + Bulk(count, FileSize(ks)));
    ok := true;
  }

  lemma HoldsMeans(ks: seq<Kind>, abi: nat, m: seq<byte>, a: nat, b: nat, e: seq<byte>, c: nat, d: nat, swap: bool)
    requires abi > 0 && Holds(ks, abi, m, a, b, e, c, d, swap)
    ensures a <= b <= |m| && c <= d <= |e| && AgreeAll(ks, abi, m[a..b], e[c..d], swap)
  {
  }

  lemma HoldsBounds(ks: seq<Kind>, abi: nat, m: seq<byte>, a: nat, b: nat, e: seq<byte>, c: nat, d: nat, swap: bool)
    requires abi > 0 && Holds(ks, abi, m, a, b, e, c, d, swap)
    ensures a <= b <= |m| && c <= d <= |e|
  {
  }

  lemma NothingAgrees(ks: seq<Kind>, abi: nat, swap: bool)
    requires abi > 0
    ensures AgreeAll(ks, abi, [], [], swap)
  {
  }

  lemma StructRoom(ks: seq<Kind>, abi: nat)
    requires abi > 0
    ensures End(ks, 0, abi) <= MemSize(ks, abi)
  {
  }

  lemma MakeAgree(ks: seq<Kind>, abi: nat, t: seq<byte>, e: seq<byte>, swap: bool)
    requires abi > 0 && |t| == MemSize(ks, abi) && |e| == FileSize(ks) && |t| >= End(ks, 0, abi)
    requires Fields(ks, 0, abi, t, e, swap)
    ensures Agree(ks, abi, t, e, swap)
  {
  }

  /** One turn of the _tom loop. */
  method GetElement(mem: array<byte>, ghost m0: seq<byte>, d: nat, ghost mEnd: nat, s: nat, ghost eEnd: nat,
                    ks: seq<Kind>, abi: nat, t0: seq<byte>, swap: bool) returns (t: seq<byte>)
    requires abi > 0 && ks != [] && |t0| == MemSize(ks, abi)
    requires d + MemSize(ks, abi) <= mEnd <= mem.Length && s + FileSize(ks) <= eEnd <= mem.Length == |m0|
    requires mem[s..s + FileSize(ks)] == m0[s..s + FileSize(ks)]
    requires Holds(ks, abi, mem[..], d + MemSize(ks, abi), mEnd, m0, s + FileSize(ks), eEnd, swap)
    modifies mem
    ensures |t| == MemSize(ks, abi)
    ensures Holds(ks, abi, mem[..], d, mEnd, m0, s, eEnd, swap)
    ensures OnlyChanged(mem, d, d + MemSize(ks, abi))
  {
    hide MemSize, FileSize, Agree, AgreeAll, Decode, Fields, End, Holds;
    var msz, fsz := MemSize(ks, abi), FileSize(ks);
    var e := mem[s..s + fsz];
    StructRoom(ks, abi);
    DecodeFields(ks, 0, abi, t0, e, swap);
    t := Decode(ks, 0, abi, t0, e, swap);
    ghost var before := mem[..];
    WriteBytes(mem, d, t);
    MakeAgree(ks, abi, t, e, swap);
    WholeSlice(mem, d, d + msz);
    HoldsPrepend(ks, abi, before, mem[..], d, d + msz, mEnd, m0, s, s + fsz, eEnd, swap);
  }

  /** Walking back, the next element to read has not been written over. */
  lemma NotOverwritten(dst: nat, src: nat, left: nat, count: nat, msz: nat, fsz: nat)
    requires 0 < left <= count && fsz <= msz
    requires dst == src || dst + Times(count, msz) <= src || src + Times(count, fsz) <= dst
    ensures Times(left, msz) == Times(left - 1, msz) + msz && Times(left, fsz) == Times(left - 1, fsz) + fsz
    ensures src + Times(left, fsz) <= dst + Times(left, msz) || dst + Times(count, msz) <= src + Times(left, fsz) - fsz
  {
    TimesMonotone(left, fsz, msz);
    TimesGrow(left, count, fsz);
  }

  lemma StillOld(m0: seq<byte>, m: seq<byte>, lo: nat, hi: nat, a: nat, b: nat)
    requires |m0| == |m| && a <= b <= |m| && (b <= lo || hi <= a)
    requires forall i | 0 <= i < |m| && !(lo <= i < hi) :: m[i] == m0[i]
    ensures m[a..b] == m0[a..b]
  {
    SliceKept(m0, m, lo, hi, a, b);
  }

  lemma TimesNone(a: nat, b: nat)
    ensures Times(0, a) == 0 && Times(0, b) == 0
  {
  }

  lemma {:induction false} TimesGrow(j: nat, k: nat, a: nat)
    requires j <= k
    ensures Times(j, a) <= Times(k, a)
  {
    if j < k {
      TimesGrow(j, k - 1, a);
    }
  }

  /** A local structure before anything is stored in it. */
  method Uninitialized(n: nat) returns (t: seq<byte>)
    ensures |t| == n
  {
    t :| |t| == n by {
      assert |seq(n, i => 0)| == n;
    }
  }

  /** One turn of the _tom loop, wherever it stands. */
  method NextToMemory(mem: array<byte>, ghost m0: seq<byte>, d: nat, ghost mEnd: nat, s: nat, ghost eEnd: nat,
                      ks: seq<Kind>, abi: nat, t0: seq<byte>, swap: bool) returns (t: seq<byte>)
    requires abi > 0 && ks != [] && |t0| == MemSize(ks, abi) && mem.Length == |m0|
    requires MemSize(ks, abi) <= d <= mEnd <= mem.Length && FileSize(ks) <= s <= eEnd <= mem.Length
    requires s <= d || mEnd <= s - FileSize(ks)
    requires forall i | 0 <= i < mem.Length && !(d <= i < mEnd) :: mem[i] == m0[i]
    requires Holds(ks, abi, mem[..], d, mEnd, m0, s, eEnd, swap)
    modifies mem
    ensures |t| == MemSize(ks, abi)
    ensures Holds(ks, abi, mem[..], d - MemSize(ks, abi), mEnd, m0, s - FileSize(ks), eEnd, swap)
    ensures forall i | 0 <= i < mem.Length && !(d - MemSize(ks, abi) <= i < mEnd) :: mem[i] == m0[i]
  {
    hide MemSize, FileSize, Agree, AgreeAll, Holds;
    var msz, fsz := MemSize(ks, abi), FileSize(ks);
    StillOld(m0, mem[..], d, mEnd, s - fsz, s);
    WholeSlice(mem, s - fsz, s);
    t := GetElement(mem, m0, d - msz, mEnd, s - fsz, eEnd, ks, abi, t0, swap);
  }

  /** The loop of libelf_cvt*_tom: walks both buffers from the last element back. The padding of
      the local structure t is whatever was there before. */
  method ToMemoryLoop(mem: array<byte>, dst: nat, src: nat, count: nat, ks: seq<Kind>, abi: nat, swap: bool,
                      mEnd: nat, eEnd: nat)
    requires abi > 0 && ks != []
    requires mEnd == dst + Times(count, MemSize(ks, abi)) && eEnd == src + Times(count, FileSize(ks))
    requires mEnd <= mem.Length && eEnd <= mem.Length
    requires dst == src || mEnd <= src || eEnd <= dst
    modifies mem
    ensures AgreeAll(ks, abi, mem[dst..mEnd], old(mem[src..eEnd]), swap)
    ensures OnlyChanged(mem, dst, mEnd)
  {
    hide MemSize, FileSize, Agree, AgreeAll, Holds, Times;
    TimesNone(MemSize(ks, abi), FileSize(ks));
    var msz, fsz := MemSize(ks, abi), FileSize(ks);
    FileSizeAtMostMemSize(ks, abi);
    ghost var m0 := mem[..];
    HoldsNothing(ks, abi, m0, mEnd, m0, eEnd, swap);
    var t := Uninitialized(msz);
    var d: nat, s: nat, left: nat := mEnd, eEnd, count;
    while left > 0
      invariant d == dst + Times(left, msz) && s == src + Times(left, fsz)
      invariant d <= mEnd && s <= eEnd && |t| == msz
      invariant forall i | 0 <= i < mem.Length && !(d <= i < mEnd) :: mem[i] == m0[i]
      invariant Holds(ks, abi, mem[..], d, mEnd, m0, s, eEnd, swap)
    {
      NotOverwritten(dst, src, left, count, msz, fsz);
      t := NextToMemory(mem, m0, d, mEnd, s, eEnd, ks, abi, t, swap);
      d, s, left := d - msz, s - fsz, left - 1;
    }
    HoldsMeans(ks, abi, mem[..], dst, mEnd, m0, src, eEnd, swap);
    WholeSlice(mem, dst, mEnd);
    assert m0[src..eEnd] == old(mem[src..eEnd]);
  }

  /** libelf_cvt*_tom. */
  method ToMemory(mem: array<byte>, dst: nat, dsz: nat, src: nat, count: nat, ks: seq<Kind>, abi: nat, swap: bool)
      returns (ok: bool)
    requires abi > 0 && ks != []
    requires dst + dsz <= mem.Length && src + Bulk(count, FileSize(ks)) <= mem.Length
    requires dst == src || dst + Bulk(count, MemSize(ks, abi)) <= src || src + Bulk(count, FileSize(ks)) <= dst
    modifies mem
    ensures ok == (dsz >= Bulk(count, MemSize(ks, abi)))
    ensures !ok ==> mem[..] == old(mem[..])
    ensures ok ==> AgreeAll(ks, abi, mem[dst..dst + Bulk(count, MemSize(ks, abi))], old(mem[src..src + Bulk(count, FileSize(ks))]), swap)
    ensures ok ==> OnlyChanged(mem, dst, dst + Bulk(count, MemSize(ks, abi)))
  {
    hide MemSize, FileSize, AgreeAll;
    if dsz < Bulk(count, MemSize(ks, abi)) {
      return false;
    }
    TimesIsProduct(count, MemSize(ks, abi));
    TimesIsProduct(count, FileSize(ks));
    ToMemoryLoop(mem, dst, src, count, ks, abi, swap, dst + Bulk(count, MemSize(ks, abi)), src + Bulk(count, FileSize(ks)));
    ok := true;
  }
}
