/** ELF structures as lists of fields: packed in the file, aligned in memory. */
module ElfLayouts {
  import opened Division
  import opened ElfBytes
  import opened Sequences

  /** The field types of the converters: st_info and st_other are bytes, e_ident is 16 of them. */
  datatype Kind = Byte | Half | Word | XWord | Ident

  function Size(k: Kind): nat {
    match k case Byte => 1 case Half => 2 case Word => 4 case XWord => 8 case Ident => 16
  }

  /** Bytes and identification arrays are never swapped. */
  predicate Swapped(k: Kind) {
    k.Half? || k.Word? || k.XWord?
  }

  /** The alignment of a field where the ABI aligns nothing beyond abi bytes. */
  function Align(k: Kind, abi: nat): (a: nat)
    requires abi > 0
    ensures a > 0
  {
    if !Swapped(k) then 1 else if Size(k) < abi then Size(k) else abi
  }

  function RoundUp(x: nat, a: nat): (r: nat)
    requires a > 0
    ensures x <= r < x + a && r % a == 0
  {
    RoundUpMod(x, a);
    x + (a - x % a) % a
  }

  lemma RoundUpMod(x: nat, a: nat)
    requires a > 0
    ensures (x + (a - x % a) % a) % a == 0
  {
    var q, r := x / a, x % a;
    assert x == q * a + r;
    if r == 0 {
      Remainder(a, a, 1, 0);
    } else {
      Remainder(a - r, a, 0, a - r);
      assert x + (a - r) == (q + 1) * a;
      MultipleMod(q + 1, a);
    }
  }

  function FileSize(ks: seq<Kind>): nat {
    if ks == [] then 0 else Size(ks[0]) + FileSize(ks[1..])
  }

  function MaxAlign(ks: seq<Kind>, abi: nat): (a: nat)
    requires abi > 0
    ensures a > 0
  {
    if ks == [] then 1
    else
      var b := MaxAlign(ks[1..], abi);
      if Align(ks[0], abi) > b then Align(ks[0], abi) else b
  }

  /** The end of the fields laid out in memory from start on. */
  function End(ks: seq<Kind>, start: nat, abi: nat): (e: nat)
    requires abi > 0
    ensures e >= start
    decreases |ks|
  {
    if ks == [] then start
    else End(ks[1..], RoundUp(start, Align(ks[0], abi)) + Size(ks[0]), abi)
  }

  /** sizeof the structure. */
  function MemSize(ks: seq<Kind>, abi: nat): nat
    requires abi > 0
  {
    RoundUp(End(ks, 0, abi), MaxAlign(ks, abi))
  }

  /** The file form never takes more room than the structure. */
  lemma {:induction false} FileFitsMemory(ks: seq<Kind>, start: nat, abi: nat)
    requires abi > 0
    ensures start + FileSize(ks) <= End(ks, start, abi)
    decreases |ks|
  {
    if ks != [] {
      FileFitsMemory(ks[1..], RoundUp(start, Align(ks[0], abi)) + Size(ks[0]), abi);
    }
  }

  lemma FileSizeAtMostMemSize(ks: seq<Kind>, abi: nat)
    requires abi > 0
    ensures FileSize(ks) <= MemSize(ks, abi)
  {
    FileFitsMemory(ks, 0, abi);
  }

  /** The first field's place in memory and in the file. */
  lemma FirstField(ks: seq<Kind>, start: nat, abi: nat)
    requires abi > 0 && ks != []
    ensures var n := Size(ks[0]);
            var o := RoundUp(start, Align(ks[0], abi));
            && n > 0 && start <= o && o + n <= End(ks, start, abi)
            && End(ks, start, abi) == End(ks[1..], o + n, abi)
            && FileSize(ks) == n + FileSize(ks[1..])
  {
  }

  // ---------- one element ----------

  /** The fields of the structure at the start of m, laid out from offset start on, are those
      of the file bytes e, converted. */
  ghost predicate Fields(ks: seq<Kind>, start: nat, abi: nat, m: seq<byte>, e: seq<byte>, swap: bool)
    requires abi > 0 && |m| >= End(ks, start, abi) && |e| == FileSize(ks)
    decreases |ks|
  {
    ks == [] ||
    var n := Size(ks[0]);
    var o := RoundUp(start, Align(ks[0], abi));
    && m[o..o + n] == Convert(e[..n], swap && Swapped(ks[0]))
    && Fields(ks[1..], o + n, abi, m, e[n..], swap)
  }

  /** The structure m and the file bytes e hold the same fields. */
  ghost predicate Agree(ks: seq<Kind>, abi: nat, m: seq<byte>, e: seq<byte>, swap: bool)
    requires abi > 0
  {
    |m| == MemSize(ks, abi) && |e| == FileSize(ks) && Fields(ks, 0, abi, m, e, swap)
  }

  /** Two structures that may differ only in padding. */
  ghost predicate SameFields(ks: seq<Kind>, start: nat, abi: nat, m: seq<byte>, w: seq<byte>)
    requires abi > 0 && |m| >= End(ks, start, abi) && |w| >= End(ks, start, abi)
    decreases |ks|
  {
    ks == [] ||
    var n := Size(ks[0]);
    var o := RoundUp(start, Align(ks[0], abi));
    m[o..o + n] == w[o..o + n] && SameFields(ks[1..], o + n, abi, m, w)
  }

  /** Fields, one field at a time. */
  lemma FieldsStep(ks: seq<Kind>, start: nat, abi: nat, m: seq<byte>, e: seq<byte>, swap: bool)
    requires abi > 0 && ks != [] && |m| >= End(ks, start, abi) && |e| == FileSize(ks)
    ensures var n := Size(ks[0]);
            var o := RoundUp(start, Align(ks[0], abi));
            && n <= |e| && o + n <= |m| && |m| >= End(ks[1..], o + n, abi) && |e[n..]| == FileSize(ks[1..])
            && (Fields(ks, start, abi, m, e, swap) <==>
                  m[o..o + n] == Convert(e[..n], swap && Swapped(ks[0])) && Fields(ks[1..], o + n, abi, m, e[n..], swap))
  {
    hide RoundUp, Align, Size, Convert, Swapped;
    FirstField(ks, start, abi);
  }

  lemma SameFieldsStep(ks: seq<Kind>, start: nat, abi: nat, m: seq<byte>, w: seq<byte>)
    requires abi > 0 && ks != [] && |m| >= End(ks, start, abi) && |w| >= End(ks, start, abi)
    ensures var n := Size(ks[0]);
            var o := RoundUp(start, Align(ks[0], abi));
            && o + n <= |m| && |m| >= End(ks[1..], o + n, abi) && o + n <= |w| && |w| >= End(ks[1..], o + n, abi)
            && (SameFields(ks, start, abi, m, w) <==>
                  m[o..o + n] == w[o..o + n] && SameFields(ks[1..], o + n, abi, m, w))
  {
    hide RoundUp, Align, Size;
    FirstField(ks, start, abi);
  }

  /** The file bytes determine every field. */
  lemma {:induction false} FileDetermines(ks: seq<Kind>, start: nat, abi: nat, m: seq<byte>, w: seq<byte>, e: seq<byte>, swap: bool)
    requires abi > 0 && |m| >= End(ks, start, abi) && |w| >= End(ks, start, abi) && |e| == FileSize(ks)
    requires Fields(ks, start, abi, m, e, swap) && Fields(ks, start, abi, w, e, swap)
    ensures SameFields(ks, start, abi, m, w)
    decreases |ks|
  {
    if ks != [] {
      hide RoundUp, Align, Size, Convert, Swapped, Fields, SameFields, End, FileSize;
      var n := Size(ks[0]);
      FieldsStep(ks, start, abi, m, e, swap);
      FieldsStep(ks, start, abi, w, e, swap);
      SameFieldsStep(ks, start, abi, m, w);
      FileDetermines(ks[1..], RoundUp(start, Align(ks[0], abi)) + n, abi, m, w, e[n..], swap);
    }
  }

  /** The fields determine every file byte. */
  lemma {:induction false} FieldsDetermine(ks: seq<Kind>, start: nat, abi: nat, m: seq<byte>, e: seq<byte>, f: seq<byte>, swap: bool)
    requires abi > 0 && |m| >= End(ks, start, abi) && |e| == FileSize(ks) == |f|
    requires Fields(ks, start, abi, m, e, swap) && Fields(ks, start, abi, m, f, swap)
    ensures e == f
    decreases |ks|
  {
    if ks == [] {
      assert e == f == [];
    } else {
      hide RoundUp, Align, Size, Convert, Swapped, Fields, End, FileSize;
      var n := Size(ks[0]);
      FieldsStep(ks, start, abi, m, e, swap);
      FieldsStep(ks, start, abi, m, f, swap);
      FieldsDetermine(ks[1..], RoundUp(start, Align(ks[0], abi)) + n, abi, m, e[n..], f[n..], swap);
      ConvertInjective(e[..n], f[..n], swap && Swapped(ks[0]));
      Rejoin(e, f, n);
    }
  }

  // ---------- arrays of elements ----------

  ghost predicate AgreeAll(ks: seq<Kind>, abi: nat, m: seq<byte>, e: seq<byte>, swap: bool)
    requires abi > 0
    decreases |m|
  {
    var msz, fsz := MemSize(ks, abi), FileSize(ks);
    if |m| == 0 then e == []
    else msz > 0 && |m| >= msz && |e| >= fsz && Agree(ks, abi, m[..msz], e[..fsz], swap)
         && AgreeAll(ks, abi, m[msz..], e[fsz..], swap)
  }

  ghost predicate SameFieldsAll(ks: seq<Kind>, abi: nat, m: seq<byte>, w: seq<byte>)
    requires abi > 0
    decreases |m|
  {
    var msz := MemSize(ks, abi);
    if |m| == 0 then w == []
    else msz > 0 && |m| >= msz && |w| >= msz
         && SameFields(ks, 0, abi, m[..msz], w[..msz]) && SameFieldsAll(ks, abi, m[msz..], w[msz..])
  }

  lemma {:induction false} AgreeAllAppend(ks: seq<Kind>, abi: nat, m: seq<byte>, e: seq<byte>, x: seq<byte>, y: seq<byte>, swap: bool)
    requires abi > 0 && ks != [] && AgreeAll(ks, abi, m, e, swap) && Agree(ks, abi, x, y, swap)
    ensures AgreeAll(ks, abi, m + x, e + y, swap)
    decreases |m|
  {
    var msz, fsz := MemSize(ks, abi), FileSize(ks);
    FileSizeAtMostMemSize(ks, abi);
    if m == [] {
      assert m + x == x && e + y == y;
      assert x[..msz] == x && y[..fsz] == y && x[msz..] == [] && y[fsz..] == [];
    } else {
      AgreeAllAppend(ks, abi, m[msz..], e[fsz..], x, y, swap);
      assert (m + x)[..msz] == m[..msz] && (e + y)[..fsz] == e[..fsz];
      assert (m + x)[msz..] == m[msz..] + x && (e + y)[fsz..] == e[fsz..] + y;
    }
  }

  lemma AgreeAllPrepend(ks: seq<Kind>, abi: nat, x: seq<byte>, y: seq<byte>, m: seq<byte>, e: seq<byte>, swap: bool)
    requires abi > 0 && ks != [] && Agree(ks, abi, x, y, swap) && AgreeAll(ks, abi, m, e, swap)
    ensures AgreeAll(ks, abi, x + m, y + e, swap)
  {
    var msz, fsz := MemSize(ks, abi), FileSize(ks);
    FileSizeAtMostMemSize(ks, abi);
    assert (x + m)[..msz] == x && (x + m)[msz..] == m && (y + e)[..fsz] == y && (y + e)[fsz..] == e;
  }

  /** Memory to file and back restores every field of every element. */
  lemma {:induction false} MemoryRoundTrip(ks: seq<Kind>, abi: nat, m: seq<byte>, e: seq<byte>, w: seq<byte>, swap: bool)
    requires abi > 0 && AgreeAll(ks, abi, m, e, swap) && AgreeAll(ks, abi, w, e, swap)
    requires ks != []
    ensures SameFieldsAll(ks, abi, m, w)
    decreases |m|
  {
    var msz, fsz := MemSize(ks, abi), FileSize(ks);
    FileSizeAtMostMemSize(ks, abi);
    if m != [] {
      FileDetermines(ks, 0, abi, m[..msz], w[..msz], e[..fsz], swap);
      MemoryRoundTrip(ks, abi, m[msz..], e[fsz..], w[msz..], swap);
    }
  }

  /** File to memory and back restores every byte. */
  lemma {:induction false} FileRoundTrip(ks: seq<Kind>, abi: nat, e: seq<byte>, m: seq<byte>, f: seq<byte>, swap: bool)
    requires abi > 0 && AgreeAll(ks, abi, m, e, swap) && AgreeAll(ks, abi, m, f, swap)
    ensures e == f
    decreases |m|
  {
    var msz, fsz := MemSize(ks, abi), FileSize(ks);
    if m != [] {
      FieldsDetermine(ks, 0, abi, m[..msz], e[..fsz], f[..fsz], swap);
      FileRoundTrip(ks, abi, e[fsz..], m[msz..], f[fsz..], swap);
      assert e == e[..fsz] + e[fsz..] && f == f[..fsz] + f[fsz..];
    }
  }
}
