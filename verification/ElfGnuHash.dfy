/** The 64-bit GNU hash converters: four header words, 64-bit bloom words, 32-bit buckets and chains. */
module ElfGnuHash {
  import opened ElfBytes
  import opened ElfConvert
  import opened Division
  import opened Sequences

  /** x cut into units of the given size, each one converted; an incomplete last unit is dropped. */
  function Units(x: seq<byte>, size: nat, swap: bool): (y: seq<byte>)
    requires size > 0
    ensures |y| <= |x|
    decreases |x|
  {
    if |x| < size then [] else Convert(x[..size], swap) + Units(x[size..], size, swap)
  }

  lemma UnitsStep(x: seq<byte>, size: nat, swap: bool)
    requires size > 0
    ensures |x| >= size ==> Units(x, size, swap) == Convert(x[..size], swap) + Units(x[size..], size, swap)
    ensures |x| < size ==> Units(x, size, swap) == []
  {
    hide Convert;
  }

  lemma Joined(y: seq<byte>, z: seq<byte>)
    ensures (y + z)[..|y|] == y && (y + z)[|y|..] == z
  {
  }

  lemma {:induction false} UnitsTwice(x: seq<byte>, size: nat, swap: bool, n: nat)
    requires size > 0 && |x| == Times(n, size)
    ensures |Units(x, size, swap)| == |x| && Units(Units(x, size, swap), size, swap) == x
    decreases n
  {
    hide Units, Convert, Times;
    UnitsStep(x, size, swap);
    if n == 0 {
      TimesStep(0, size);
      UnitsStep([], size, swap);
      assert x == [];
    } else {
      TimesStep(n - 1, size);
      UnitsTwice(x[size..], size, swap, n - 1);
      ConvertTwice(x[..size], swap);
      var y, z := Convert(x[..size], swap), Units(x[size..], size, swap);
      Joined(y, z);
      UnitsStep(y + z, size, swap);
      assert x == x[..size] + x[size..];
    }
  }

  lemma {:induction false} UnitsConcat(x: seq<byte>, z: seq<byte>, size: nat, swap: bool, n: nat)
    requires size > 0 && |x| == Times(n, size)
    ensures Units(x + z, size, swap) == Units(x, size, swap) + Units(z, size, swap)
    decreases n
  {
    hide Units, Convert, Times;
    UnitsStep(x, size, swap);
    if n == 0 {
      TimesStep(0, size);
      assert x + z == z && x == [];
    } else {
      TimesStep(n - 1, size);
      UnitsConcat(x[size..], z, size, swap, n - 1);
      UnitsStep(x + z, size, swap);
      assert (x + z)[..size] == x[..size] && (x + z)[size..] == x[size..] + z;
      Associative(Convert(x[..size], swap), Units(x[size..], size, swap), Units(z, size, swap));
    }
  }

  lemma OneUnit(u: seq<byte>, swap: bool)
    requires u != []
    ensures Units(u, |u|, swap) == Convert(u, swap)
  {
    assert u[..|u|] == u && u[|u|..] == [];
  }

  /** The whole table, given the counts of bloom words. */
  function Table(x: seq<byte>, maskwords: nat, swap: bool): seq<byte>
    requires 16 + 8 * maskwords <= |x|
  {
    Units(x[..16], 4, swap) + Units(x[16..16 + 8 * maskwords], 8, swap) + Units(x[16 + 8 * maskwords..], 4, swap)
  }

  /** Header word i of a buffer, as a number: the file's words may have to be swapped. */
  function Count(x: seq<byte>, i: nat, swap: bool): nat
    requires 4 * i + 4 <= |x|
  {
    FromBytes(Convert(x[4 * i..4 * i + 4], swap))
  }

  /** m[c..d] holds the units of m0[a..b], converted. */
  ghost predicate Copied(m0: seq<byte>, a: nat, b: nat, m: seq<byte>, c: nat, d: nat, size: nat, swap: bool)
    requires size > 0
  {
    a <= b <= |m0| && c <= d <= |m| && m[c..d] == Units(m0[a..b], size, swap)
  }

  lemma CopiedStep(m0: seq<byte>, a: nat, b: nat, m: seq<byte>, after: seq<byte>, c: nat, d: nat, size: nat, swap: bool, i: nat)
    requires size > 0 && Copied(m0, a, b, m, c, d, size, swap) && b == a + Times(i, size)
    requires b + size <= |m0| && d + size <= |after| == |m|
    requires after[c..d] == m[c..d] && after[d..d + size] == Convert(m0[b..b + size], swap)
    ensures Copied(m0, a, b + size, after, c, d + size, size, swap)
  {
    hide Units, Convert;
    UnitsConcat(m0[a..b], m0[b..b + size], size, swap, i);
    OneUnit(m0[b..b + size], swap);
    Split(m0, a, b, b + size);
    Split(after, c, d, d + size);
  }

  lemma CopiedNothing(m0: seq<byte>, a: nat, m: seq<byte>, c: nat, size: nat, swap: bool)
    requires size > 0 && a <= |m0| && c <= |m|
    ensures Copied(m0, a, a, m, c, c, size, swap)
  {
    assert m0[a..a] == [] && m[c..c] == [];
  }

  /** What has been copied stays when only bytes elsewhere change. */
  lemma CopiedKept(m0: seq<byte>, a: nat, b: nat, m: seq<byte>, after: seq<byte>, c: nat, d: nat, size: nat, swap: bool, lo: nat, hi: nat)
    requires size > 0 && Copied(m0, a, b, m, c, d, size, swap)
    requires |m| == |after| && forall i | 0 <= i < |m| && !(lo <= i < hi) :: after[i] == m[i]
    requires d <= lo || hi <= c
    ensures Copied(m0, a, b, after, c, d, size, swap)
  {
    hide Units;
    SliceKept(m, after, lo, hi, c, d);
  }

  /** One turn of a copying loop. */
  method CopyUnit(mem: array<byte>, ghost m0: seq<byte>, ghost dst: nat, d: nat, ghost src: nat, s: nat,
                  size: nat, swap: bool, ghost i: nat)
    requires size > 0 && src <= s && s + size <= mem.Length && dst <= d && d + size <= mem.Length
    requires s == src + Times(i, size) && |m0| == mem.Length && mem[s..s + size] == m0[s..s + size]
    requires Copied(m0, src, s, mem[..], dst, d, size, swap)
    modifies mem
    ensures Copied(m0, src, s + size, mem[..], dst, d + size, size, swap)
    ensures OnlyChanged(mem, d, d + size)
  {
    hide Units, Convert, Copied, Times;
    ghost var before := mem[..];
    WriteBytes(mem, d, Convert(mem[s..s + size], swap));
    SliceKept(before, mem[..], d, d + size, dst, d);
    WholeSlice(mem, d, d + size);
    CopiedStep(m0, src, s, before, mem[..], dst, d, size, swap, i);
  }

  /** One of the copying loops: n units from src to dst, up to sEnd and dEnd. */
  method CopyUnits(mem: array<byte>, ghost m0: seq<byte>, dst: nat, src: nat, n: nat, size: nat, swap: bool,
                   ghost dEnd: nat, ghost sEnd: nat)
    requires size > 0 && dEnd == dst + Times(n, size) <= mem.Length && sEnd == src + Times(n, size) <= mem.Length
    requires dst == src || dEnd <= src || sEnd <= dst
    requires |m0| == mem.Length && forall i | src <= i < sEnd :: m0[i] == mem[i]
    modifies mem
    ensures Copied(m0, src, sEnd, mem[..], dst, dEnd, size, swap)
    ensures OnlyChanged(mem, dst, dEnd)
  {
    hide Units, Convert, Copied, Times;
    CopiedNothing(m0, src, mem[..], dst, size, swap);
    TimesStep(0, size);
    var i, d: nat, s: nat := 0, dst, src;
    while i < n
      invariant 0 <= i <= n && d - dst == s - src == Times(i, size) && s <= sEnd && d <= dEnd
      invariant OnlyChanged(mem, dst, d)
      invariant Copied(m0, src, s, mem[..], dst, d, size, swap)
    {
      TimesGrow(i + 1, n, size);
      TimesStep(i, size);
      assert mem[s..s + size] == m0[s..s + size];
      CopyUnit(mem, m0, dst, d, src, s, size, swap, i);
      i, d, s := i + 1, d + size, s + size;
    }
  }

  /** The bytes of a table that the converters move: whole words only. */
  function Moved(srcsz: nat): nat {
    srcsz - srcsz % 4
  }

  /** A word of the header of the table at src. */
  method ReadCount(mem: array<byte>, src: nat, srcsz: nat, i: nat, swap: bool) returns (v: nat)
    requires 16 <= srcsz && src + srcsz <= mem.Length && i < 4
    ensures v == Count(mem[src..src + srcsz], i, swap)
  {
    var p := src + 4 * i;
    Inner(mem[..], src, src + srcsz, 4 * i, 4 * i + 4);
    WholeSlice(mem, src, src + srcsz);
    WholeSlice(mem, p, p + 4);
    v := FromBytes(Convert(mem[p..p + 4], swap));
  }

  /** Two of the copying loops in a row: n units of size a, then k units of size b. */
  method CopyTwo(mem: array<byte>, ghost m0: seq<byte>, dst: nat, src: nat, n: nat, a: nat, k: nat, b: nat, swap: bool,
                 mid: nat, len: nat)
    requires a > 0 && b > 0 && mid == Times(n, a) && len == mid + Times(k, b)
    requires dst + len <= mem.Length && src + len <= mem.Length
    requires dst == src || dst + len <= src || src + len <= dst
    requires |m0| == mem.Length && forall i | src <= i < src + len :: m0[i] == mem[i]
    modifies mem
    ensures Copied(m0, src, src + mid, mem[..], dst, dst + mid, a, swap)
    ensures Copied(m0, src + mid, src + len, mem[..], dst + mid, dst + len, b, swap)
    ensures OnlyChanged(mem, dst, dst + len)
  {
    hide Units, Convert, Times, Copied;
    CopyUnits(mem, m0, dst, src, n, a, swap, dst + mid, src + mid);
    ghost var m1 := mem[..];
    CopyUnits(mem, m0, dst + mid, src + mid, k, b, swap, dst + len, src + len);
    CopiedKept(m0, src, src + mid, m1, mem[..], dst, dst + mid, a, swap, dst + mid, dst + len);
  }

  /** The four copying loops, from the header to the chains. */
  method CopyTable(mem: array<byte>, dst: nat, src: nat, mw: nat, nb: nat, nch: nat, swap: bool, ghost len: nat)
    requires len == 16 + 8 * mw + 4 * nb + 4 * nch
    requires dst + len <= mem.Length && src + len <= mem.Length
    requires dst == src || dst + len <= src || src + len <= dst
    modifies mem
    ensures OnlyChanged(mem, dst, dst + len)
    ensures mem[dst..dst + len] == Table(old(mem[src..src + len]), mw, swap)
  {
    hide Units, Convert, Times, Copied, Table;
    ghost var m0 := mem[..];
    var b: nat := 16 + 8 * mw;
    TableTimes(mw, nb, nch);
    CopyTwo(mem, m0, dst, src, 4, 4, mw, 8, swap, 16, b);
    CopyRest(mem, m0, dst, src, mw, nb, nch, swap, b, len);
    Assemble(m0, mem[..], dst, src, mw, nb, swap, len);
    WholeSlice(mem, dst, dst + len);
    assert m0[src..src + len] == old(mem[src..src + len]);
  }

  lemma TableTimes(mw: nat, nb: nat, nch: nat)
    ensures Times(4, 4) == 16 && Times(mw, 8) == 8 * mw && Times(nb, 4) == 4 * nb && Times(nch, 4) == 4 * nch
  {
    hide Times;
    TimesIsProduct(4, 4);
    TimesIsProduct(mw, 8);
    TimesIsProduct(nb, 4);
    TimesIsProduct(nch, 4);
  }

  /** Buckets and chains, behind the header and the bloom words. */
  method CopyRest(mem: array<byte>, ghost m0: seq<byte>, dst: nat, src: nat, mw: nat, nb: nat, nch: nat, swap: bool,
                  b: nat, ghost len: nat)
    requires b == 16 + 8 * mw && len == b + 4 * nb + 4 * nch
    requires dst + len <= mem.Length && src + len <= mem.Length
    requires dst == src || dst + len <= src || src + len <= dst
    requires |m0| == mem.Length && forall i | src + b <= i < src + len :: m0[i] == mem[i]
    requires Copied(m0, src, src + 16, mem[..], dst, dst + 16, 4, swap)
    requires Copied(m0, src + 16, src + b, mem[..], dst + 16, dst + b, 8, swap)
    modifies mem
    ensures OnlyChanged(mem, dst + b, dst + len)
    ensures Copied(m0, src, src + 16, mem[..], dst, dst + 16, 4, swap)
    ensures Copied(m0, src + 16, src + b, mem[..], dst + 16, dst + b, 8, swap)
    ensures Copied(m0, src + b, src + b + 4 * nb, mem[..], dst + b, dst + b + 4 * nb, 4, swap)
    ensures Copied(m0, src + b + 4 * nb, src + len, mem[..], dst + b + 4 * nb, dst + len, 4, swap)
  {
    hide Units, Convert, Times, Copied;
    ghost var m1 := mem[..];
    TableTimes(mw, nb, nch);
    CopyTwo(mem, m0, dst + b, src + b, nb, 4, nch, 4, swap, 4 * nb, 4 * nb + 4 * nch);
    CopiedKept(m0, src, src + 16, m1, mem[..], dst, dst + 16, 4, swap, dst + b, dst + len);
    CopiedKept(m0, src + 16, src + b, m1, mem[..], dst + 16, dst + b, 8, swap, dst + b, dst + len);
  }

  lemma CopiedJoin(m: seq<byte>, a: nat, b: nat, e: nat, w: seq<byte>, c: nat, d: nat, f: nat,
                   size: nat, swap: bool, n: nat)
    requires size > 0 && b == a + Times(n, size)
    requires Copied(m, a, b, w, c, d, size, swap) && Copied(m, b, e, w, d, f, size, swap)
    ensures Copied(m, a, e, w, c, f, size, swap)
  {
    hide Units, Times;
    UnitsConcat(m[a..b], m[b..e], size, swap, n);
    Split(m, a, b, e);
    Split(w, c, d, f);
  }

  lemma Assemble(m: seq<byte>, w: seq<byte>, dst: nat, src: nat, mw: nat, nb: nat, swap: bool, len: nat)
    requires 16 + 8 * mw + 4 * nb <= len && dst + len <= |w| && src + len <= |m|
    requires Copied(m, src, src + 16, w, dst, dst + 16, 4, swap)
    requires Copied(m, src + 16, src + (16 + 8 * mw), w, dst + 16, dst + (16 + 8 * mw), 8, swap)
    requires Copied(m, src + (16 + 8 * mw), src + (16 + 8 * mw + 4 * nb), w, dst + (16 + 8 * mw), dst + (16 + 8 * mw + 4 * nb), 4, swap)
    requires Copied(m, src + (16 + 8 * mw + 4 * nb), src + len, w, dst + (16 + 8 * mw + 4 * nb), dst + len, 4, swap)
    ensures w[dst..dst + len] == Table(m[src..src + len], mw, swap)
  {
    hide Copied, Times;
    var b, k := 16 + 8 * mw, 16 + 8 * mw + 4 * nb;
    TimesIsProduct(nb, 4);
    CopiedJoin(m, src + b, src + k, src + len, w, dst + b, dst + k, dst + len, 4, swap, nb);
    ThreeParts(m, w, dst, src, mw, swap, len);
  }

  lemma ThreeParts(m: seq<byte>, w: seq<byte>, dst: nat, src: nat, mw: nat, swap: bool, len: nat)
    requires 16 + 8 * mw <= len && dst + len <= |w| && src + len <= |m|
    requires Copied(m, src, src + 16, w, dst, dst + 16, 4, swap)
    requires Copied(m, src + 16, src + (16 + 8 * mw), w, dst + 16, dst + (16 + 8 * mw), 8, swap)
    requires Copied(m, src + (16 + 8 * mw), src + len, w, dst + (16 + 8 * mw), dst + len, 4, swap)
    ensures w[dst..dst + len] == Table(m[src..src + len], mw, swap)
  {
    hide Units;
    var b, x := 16 + 8 * mw, m[src..src + len];
    Inner(m, src, src + len, 0, 16);
    Inner(m, src, src + len, 16, b);
    Inner(m, src, src + len, b, len);
    assert x[..16] == x[0..16] && x[b..] == x[b..len];
    Split(w, dst, dst + 16, dst + b);
    Split(w, dst, dst + b, dst + len);
  }

  // ---------- the converters ----------

  /** One more than the largest size_t. */
  const SIZE: nat := 0x1_0000_0000

  /** Overrun: the checks pass and the copying loops leave the buffers. */
  datatype Verdict = Converted | Refused | Overrun

  /** What buckets and bloom words take. */
  function Body(nb: nat, mw: nat): nat {
    nb * 4 + mw * 8
  }

  /** The checks in front of the loops, on the size as a size_t holds it. */
  predicate ChecksPass(nb: nat, mw: nat, dsz: nat, srcsz: nat) {
    dsz >= 16 && srcsz >= 16 && Body(nb, mw) % SIZE <= srcsz - 16 && Body(nb, mw) % SIZE + 16 <= dsz
  }

  /** Every bloom word and every bucket that the loops read and write ends within size bytes. */
  ghost predicate LoopsInside(nb: nat, mw: nat, size: nat) {
    && (forall n | 0 <= n < mw :: BloomEnd(n) <= size)
    && (forall n | 0 <= n < nb :: BucketEnd(mw, n) <= size)
  }

  function BloomEnd(n: nat): nat {
    16 + 8 * (n + 1)
  }

  function BucketEnd(mw: nat, n: nat): nat {
    16 + 8 * mw + 4 * (n + 1)
  }

  lemma InsideMeansFits(nb: nat, mw: nat, size: nat)
    requires size >= 16
    ensures LoopsInside(nb, mw, size) <==> 16 + Body(nb, mw) <= size
  {
    if LoopsInside(nb, mw, size) {
      if nb > 0 {
        assert BucketEnd(mw, nb - 1) <= size;
      } else if mw > 0 {
        assert BloomEnd(mw - 1) <= size;
      }
    }
  }

  /** Once the checks have passed, the loops stay inside both buffers if and only if what the
      buckets and bloom words take is a size_t. */
  lemma LoopsStayInside(nb: nat, mw: nat, dsz: nat, srcsz: nat)
    requires ChecksPass(nb, mw, dsz, srcsz) && dsz < SIZE && srcsz < SIZE
    ensures LoopsInside(nb, mw, srcsz) && LoopsInside(nb, mw, dsz) <==> Body(nb, mw) < SIZE
    ensures Body(nb, mw) < SIZE ==> 16 + Body(nb, mw) <= srcsz && 16 + Body(nb, mw) <= dsz
  {
    InsideMeansFits(nb, mw, srcsz);
    InsideMeansFits(nb, mw, dsz);
    Small(Body(nb, mw));
  }

  lemma Small(x: nat)
    ensures x < SIZE ==> x % SIZE == x
  {
    if x < SIZE {
      Remainder(x, SIZE, 0, x);
    }
  }

  /** How a conversion ends. */
  function Ending(nb: nat, mw: nat, dsz: nat, srcsz: nat): Verdict {
    if !ChecksPass(nb, mw, dsz, srcsz) then Refused
    else if Body(nb, mw) >= SIZE then Overrun
    else if dsz < srcsz then Refused
    else Converted
  }

  /** A conversion succeeds if and only if the table fits, without any wrapping. */
  lemma ConvertsWhatFits(nb: nat, mw: nat, dsz: nat, srcsz: nat)
    requires dsz < SIZE && srcsz < SIZE
    ensures Ending(nb, mw, dsz, srcsz) == Converted <==> dsz >= srcsz >= 16 && Body(nb, mw) <= srcsz - 16
  {
    Small(Body(nb, mw));
  }

  /** libelf_cvt64_GNUHASH_tom (toMemory) and _tof. They differ in one thing: the counts in a file
      are swapped before they are used, the ones in memory are not. Of an overrun nothing is shown. */
  method GnuHash(mem: array<byte>, dst: nat, dsz: nat, src: nat, srcsz: nat, swap: bool, toMemory: bool)
      returns (r: Verdict)
    requires dst + dsz <= mem.Length && src + srcsz <= mem.Length && dsz < SIZE && srcsz < SIZE
    requires dst == src || dst + dsz <= src || src + srcsz <= dst
    modifies mem
    ensures OnlyChanged(mem, dst, dst + dsz)
    ensures var x := old(mem[src..src + srcsz]);
            r == if srcsz < 16 then Refused
                 else Ending(Count(x, 0, toMemory && swap), Count(x, 2, toMemory && swap), dsz, srcsz)
    ensures r == Converted <==>
              dsz >= srcsz >= 16 &&
              var x := old(mem[src..src + srcsz]);
              Body(Count(x, 0, toMemory && swap), Count(x, 2, toMemory && swap)) <= srcsz - 16
    ensures r == Converted ==>
              var x := old(mem[src..src + srcsz]);
              && dsz >= srcsz >= 16 && Body(Count(x, 0, toMemory && swap), Count(x, 2, toMemory && swap)) <= srcsz - 16
              && mem[dst..dst + Moved(srcsz)] == Table(x[..Moved(srcsz)], Count(x, 2, toMemory && swap), swap)
  {
    hide Units, Convert, Table, Count;
    ghost var x := mem[src..src + srcsz];
    if dsz < 16 || srcsz < 16 {
      return Refused;
    }
    var nb := ReadCount(mem, src, srcsz, 0, toMemory && swap);
    var mw := ReadCount(mem, src, srcsz, 2, toMemory && swap);
    ConvertsWhatFits(nb, mw, dsz, srcsz);
    Small(Body(nb, mw));
    var sz: nat := (nb * 4 + mw * 8) % SIZE;
    if srcsz - 16 < sz || dsz < sz + 16 {
      return Refused;
    }
    if nb * 4 + mw * 8 >= SIZE {
      return Overrun;
    }
    if dsz - 16 - sz < srcsz - 16 - sz {
      // the bloom words and buckets have been moved by now
      CopyTable(mem, dst, src, mw, nb, 0, swap, 16 + sz);
      return Refused;
    }
    MoveAll(mem, dst, src, srcsz, mw, nb, swap);
    r := Converted;
  }

  method MoveAll(mem: array<byte>, dst: nat, src: nat, srcsz: nat, mw: nat, nb: nat, swap: bool)
    requires dst + srcsz <= mem.Length && src + srcsz <= mem.Length && srcsz >= 16 + Body(nb, mw)
    requires dst == src || dst + srcsz <= src || src + srcsz <= dst
    modifies mem
    ensures OnlyChanged(mem, dst, dst + srcsz)
    ensures Moved(srcsz) >= 16 + 8 * mw
    ensures mem[dst..dst + Moved(srcsz)] == Table(old(mem[src..src + srcsz])[..Moved(srcsz)], mw, swap)
  {
    hide Table, Moved;
    var nch := (srcsz - 16 - (nb * 4 + mw * 8)) / 4;
    WholeWords(srcsz, nb, mw, nch);
    Inner(mem[..], src, src + srcsz, 0, Moved(srcsz));
    WholeSlice(mem, src, src + srcsz);
    WholeSlice(mem, src, src + Moved(srcsz));
    CopyTable(mem, dst, src, mw, nb, nch, swap, Moved(srcsz));
  }

  lemma WholeWords(srcsz: nat, nb: nat, mw: nat, nch: nat)
    requires srcsz >= 16 + Body(nb, mw) && nch == (srcsz - 16 - Body(nb, mw)) / 4
    ensures Moved(srcsz) == 16 + 8 * mw + 4 * nb + 4 * nch && Moved(srcsz) <= srcsz
  {
    var rest := srcsz - 16 - Body(nb, mw);
    var q := rest - 4 * nch;
    assert rest == 4 * nch + rest % 4;
    Remainder(srcsz, 4, 4 + nb + 2 * mw + nch, q);
  }

  /** A header that announces 0x4000_0000 buckets in a table of sixteen bytes passes both checks,
      since the buckets' size wraps to zero, and the loops leave the buffers. */
  lemma WrappedSize()
    ensures ChecksPass(0x4000_0000, 0, 16, 16) && !LoopsInside(0x4000_0000, 0, 16)
    ensures Ending(0x4000_0000, 0, 16, 16) == Overrun
  {
    InsideMeansFits(0x4000_0000, 0, 16);
    Remainder(0x1_0000_0000, SIZE, 1, 0);
  }

  // ---------- word by word ----------

  lemma {:induction false} UnitAt(x: seq<byte>, size: nat, swap: bool, n: nat, i: nat)
    requires size > 0 && |x| == Times(n, size) && i < n
    ensures |Units(x, size, swap)| == |x| && Times(i, size) + size <= |x|
    ensures Units(x, size, swap)[Times(i, size)..Times(i, size) + size] == Convert(x[Times(i, size)..Times(i, size) + size], swap)
    decreases n
  {
    hide Units, Convert, Times;
    UnitsTwice(x, size, swap, n);
    UnitsStep(x, size, swap);
    TimesStep(n - 1, size);
    var y, z := Convert(x[..size], swap), Units(x[size..], size, swap);
    Joined(y, z);
    if i == 0 {
      TimesStep(0, size);
      Front(y, z);
      assert x[0..size] == x[..size];
    } else {
      TimesStep(i - 1, size);
      UnitAt(x[size..], size, swap, n - 1, i - 1);
      var o := Times(i - 1, size);
      Behind(y, z, o, size);
      Behind(x[..size], x[size..], o, size);
      assert x == x[..size] + x[size..];
    }
  }

  lemma Front(y: seq<byte>, z: seq<byte>)
    ensures (y + z)[0..|y|] == y
  {
  }

  lemma Behind(y: seq<byte>, z: seq<byte>, o: nat, n: nat)
    requires o + n <= |z|
    ensures (y + z)[|y| + o..|y| + o + n] == z[o..o + n]
  {
    assert (y + z)[|y|..|y| + |z|] == z;
    Inner(y + z, |y|, |y| + |z|, o, o + n);
  }

  /** A converted unit, as a number. */
  lemma UnitValue(b: seq<byte>, swap: bool)
    ensures FromBytes(Convert(b, swap)) == if swap then BigEndian(b) else FromBytes(b)
  {
    ConvertTwice(b, swap);
    BigIsReversedLittle(b);
  }

  /** Header word i, whose bytes may be in the other order. */
  lemma CountReads(x: seq<byte>, i: nat, swap: bool)
    requires 4 * i + 4 <= |x|
    ensures Count(x, i, swap) == if swap then BigEndian(x[4 * i..4 * i + 4]) else FromBytes(x[4 * i..4 * i + 4])
  {
    UnitValue(x[4 * i..4 * i + 4], swap);
  }

  lemma PartOf(y: seq<byte>, a: nat, b: nat, u: seq<byte>, o: nat, size: nat)
    requires a <= b <= |y| && y[a..b] == u && o + size <= |u|
    ensures y[a + o..a + o + size] == u[o..o + size]
  {
    Inner(y, a, b, o, o + size);
  }

  /** Bloom word n of a converted table has the value of the one before. */
  lemma BloomValue(x: seq<byte>, mw: nat, swap: bool, n: nat)
    requires 16 + 8 * mw <= |x| && |x| % 4 == 0 && n < mw
    ensures var y := Table(x, mw, swap);
            var k := 16 + 8 * n;
            && |y| == |x|
            && FromBytes(y[k..k + 8]) == if swap then BigEndian(x[k..k + 8]) else FromBytes(x[k..k + 8])
  {
    hide Units, Convert, Times, FromBytes, BigEndian;
    var b, y := 16 + 8 * mw, Table(x, mw, swap);
    TableParts(x, mw, swap);
    TimesIsProduct(mw, 8);
    TimesIsProduct(n, 8);
    UnitAt(x[16..b], 8, swap, mw, n);
    PartOf(y, 16, b, Units(x[16..b], 8, swap), 8 * n, 8);
    PartOf(x, 16, b, x[16..b], 8 * n, 8);
    UnitValue(x[16 + 8 * n..16 + 8 * n + 8], swap);
  }

  /** So has every other word: those of the header, the buckets and the chains. */
  lemma WordValue(x: seq<byte>, mw: nat, swap: bool, i: nat)
    requires 16 + 8 * mw <= |x| && |x| % 4 == 0 && 4 * i + 4 <= |x| && (i < 4 || i >= 4 + 2 * mw)
    ensures var y := Table(x, mw, swap);
            && |y| == |x|
            && FromBytes(y[4 * i..4 * i + 4]) == if swap then BigEndian(x[4 * i..4 * i + 4]) else FromBytes(x[4 * i..4 * i + 4])
  {
    hide Units, Convert, Times, FromBytes, BigEndian;
    var b, y := 16 + 8 * mw, Table(x, mw, swap);
    TableParts(x, mw, swap);
    UnitValue(x[4 * i..4 * i + 4], swap);
    if i < 4 {
      TimesIsProduct(4, 4);
      TimesIsProduct(i, 4);
      UnitAt(x[0..16], 4, swap, 4, i);
      PartOf(y, 0, 16, Units(x[0..16], 4, swap), 4 * i, 4);
      PartOf(x, 0, 16, x[0..16], 4 * i, 4);
    } else {
      var n, j := (|x| - b) / 4, i - 4 - 2 * mw;
      TimesIsProduct(n, 4);
      TimesIsProduct(j, 4);
      UnitAt(x[b..|x|], 4, swap, n, j);
      PartOf(y, b, |x|, Units(x[b..|x|], 4, swap), 4 * j, 4);
      PartOf(x, b, |x|, x[b..|x|], 4 * j, 4);
    }
  }

  lemma TableParts(x: seq<byte>, mw: nat, swap: bool)
    requires 16 + 8 * mw <= |x| && |x| % 4 == 0
    ensures var y := Table(x, mw, swap);
            var b := 16 + 8 * mw;
            && |y| == |x| && y[0..16] == Units(x[0..16], 4, swap) && y[16..b] == Units(x[16..b], 8, swap)
            && y[b..|x|] == Units(x[b..|x|], 4, swap) && |x| - b == 4 * ((|x| - b) / 4)
  {
    hide Units, Times;
    var b := 16 + 8 * mw;
    hide Table;
    WholeRest(|x|, mw);
    var h, l, t := x[..16], x[16..b], x[b..];
    TableIs(x, mw, swap);
    Whole(x, 16, b);
    TimesIsProduct(4, 4);
    TimesIsProduct(mw, 8);
    TimesIsProduct(|t| / 4, 4);
    UnitsTwice(h, 4, swap, 4);
    UnitsTwice(l, 8, swap, mw);
    UnitsTwice(t, 4, swap, |t| / 4);
    ThreeSlices(Units(h, 4, swap), Units(l, 8, swap), Units(t, 4, swap));
  }

  lemma WholeRest(n: nat, mw: nat)
    requires n % 4 == 0 && 16 + 8 * mw <= n
    ensures n - (16 + 8 * mw) == 4 * ((n - (16 + 8 * mw)) / 4)
  {
    var q := n / 4;
    assert n == 4 * q;
    Remainder(n - (16 + 8 * mw), 4, q - 4 - 2 * mw, 0);
  }

  lemma TableIs(x: seq<byte>, mw: nat, swap: bool)
    requires 16 + 8 * mw <= |x|
    ensures Table(x, mw, swap)
         == Units(x[..16], 4, swap) + Units(x[16..16 + 8 * mw], 8, swap) + Units(x[16 + 8 * mw..], 4, swap)
  {
  }

  lemma Whole(x: seq<byte>, a: nat, b: nat)
    requires a <= b <= |x|
    ensures x[0..a] == x[..a] && x[b..|x|] == x[b..]
  {
  }

  lemma ThreeSlices(h: seq<byte>, l: seq<byte>, t: seq<byte>)
    ensures var y := h + l + t;
            && y[0..|h|] == h && y[|h|..|h| + |l|] == l && y[|h| + |l|..|h| + |l| + |t|] == t
  {
  }

  // ---------- round trips ----------

  /** Converting a table of whole words twice gives it back. */
  lemma TableTwice(x: seq<byte>, mw: nat, swap: bool)
    requires |x| % 4 == 0 && 16 + 8 * mw <= |x|
    ensures |Table(x, mw, swap)| == |x| && Table(Table(x, mw, swap), mw, swap) == x
  {
    hide Units, Convert, Times;
    var b := 16 + 8 * mw;
    var h, l, t := x[..16], x[16..b], x[b..];
    TimesIsProduct(4, 4);
    TimesIsProduct(mw, 8);
    TimesIsProduct(|t| / 4, 4);
    UnitsTwice(h, 4, swap, 4);
    UnitsTwice(l, 8, swap, mw);
    UnitsTwice(t, 4, swap, |t| / 4);
    var y := Table(x, mw, swap);
    assert y[..16] == Units(h, 4, swap) && y[16..b] == Units(l, 8, swap) && y[b..] == Units(t, 4, swap);
    assert x == h + l + t;
  }

  /** The counts the second conversion reads are the ones the first one used. */
  lemma {:induction false} CountsAgree(x: seq<byte>, mw: nat, swap: bool, i: nat)
    requires 16 + 8 * mw <= |x| && |x| % 4 == 0 && i < 4
    ensures |Table(x, mw, swap)| == |x|
    ensures Count(Table(x, mw, swap), i, false) == Count(x, i, swap)
    ensures Count(Table(x, mw, swap), i, swap) == Count(x, i, false)
  {
    hide Times;
    TableTwice(x, mw, swap);
    HeaderWord(x[..16], i, swap);
    var y := Table(x, mw, swap);
    assert y[..16] == Units(x[..16], 4, swap) by {
      TimesIsProduct(4, 4);
      UnitsTwice(x[..16], 4, swap, 4);
    }
    FirstBytes(x, 4 * i);
    FirstBytes(y, 4 * i);
    ConvertTwice(x[4 * i..4 * i + 4], swap);
  }

  lemma FirstBytes(x: seq<byte>, k: nat)
    requires k + 4 <= 16 <= |x|
    ensures x[..16][k..k + 4] == x[k..k + 4]
  {
    Inner(x, 0, 16, k, k + 4);
  }

  lemma HeaderWord(h: seq<byte>, i: nat, swap: bool)
    requires |h| == 16 && i < 4
    ensures |Units(h, 4, swap)| == 16
    ensures Units(h, 4, swap)[4 * i..4 * i + 4] == Convert(h[4 * i..4 * i + 4], swap)
  {
    hide Convert;
    TimesIsProduct(4, 4);
    UnitsTwice(h, 4, swap, 4);
    TimesIsProduct(i, 4);
    var p, u, r := h[..4 * i], h[4 * i..4 * i + 4], h[4 * i + 4..];
    assert h == p + (u + r);
    UnitsConcat(p, u + r, 4, swap, i);
    TimesIsProduct(1, 4);
    UnitsConcat(u, r, 4, swap, 1);
    OneUnit(u, swap);
    UnitsTwice(p, 4, swap, i);
    hide Units;
  }

  /** From file to memory and back (toMemory), or from memory to file and back. */
  lemma RoundTrip(x: seq<byte>, swap: bool, toMemory: bool)
    requires |x| % 4 == 0 && |x| >= 16
    requires 4 * Count(x, 0, toMemory && swap) + 8 * Count(x, 2, toMemory && swap) <= |x| - 16
    ensures var y := Table(x, Count(x, 2, toMemory && swap), swap);
            && |y| == |x|
            && Count(y, 0, !toMemory && swap) == Count(x, 0, toMemory && swap)
            && Count(y, 2, !toMemory && swap) == Count(x, 2, toMemory && swap)
            && Table(y, Count(y, 2, !toMemory && swap), swap) == x
  {
    hide Table, Count;
    var mw := Count(x, 2, toMemory && swap);
    TableTwice(x, mw, swap);
    CountsAgree(x, mw, swap, 0);
    CountsAgree(x, mw, swap, 2);
  }
}
