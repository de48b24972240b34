/** _libelf_xlate: the checks in front of the structure converters. */
module ElfXlate {
  import opened Division
  import opened ElfBytes
  import opened ElfLayouts
  import opened ElfConvert
  import opened ElfTypes
  import opened Sequences

  datatype Encoding = NoEncoding | LSB | MSB

  datatype Direction = ToFileDir | ToMemoryDir

  datatype Error = ArgumentError | UnimplError | DataError | VersionError

  datatype Outcome = Done | Failed(error: Error)

  class ElfData {
    var buf: int  // an address, or -1 for NULL
    var kind: Type
    var size: nat
    var version: nat
  }

  const EV_CURRENT: nat := 1

  /** What an element takes in the source. */
  function Before(ks: seq<Kind>, abi: nat, dir: Direction): nat
    requires abi > 0
  {
    if dir.ToMemoryDir? then FileSize(ks) else MemSize(ks, abi)
  }

  /** What an element takes in the destination. */
  function After(ks: seq<Kind>, abi: nat, dir: Direction): nat
    requires abi > 0
  {
    if dir.ToMemoryDir? then MemSize(ks, abi) else FileSize(ks)
  }

  /** The source holds whole elements, and the destination has room for them. */
  predicate Fits(from: nat, to: nat, ssize: nat, dsize: nat) {
    from > 0 && ssize % from == 0 && ssize / from * to <= dsize
  }

  /** The buffers do not overlap, or start at the same place. */
  predicate Apart(sb: int, ssize: nat, db: int, dsize: nat) {
    db == sb || db + dsize <= sb || sb + ssize <= db
  }

  /** The rules a translation must meet. */
  ghost predicate Acceptable(d: ElfData?, s: ElfData?, c: Class, dir: Direction, abi: nat)
    requires abi > 0
    reads d, s
  {
    && d != null && s != null && d != s && d.version == s.version == EV_CURRENT && s.buf >= 0 && d.buf >= 0
    && Supported(s.kind, c)
    && var ks := Layout(s.kind, c);
       && Fits(Before(ks, abi, dir), After(ks, abi, dir), s.size, d.size)
       && Apart(s.buf, s.size, d.buf, d.size)
       && (if dir.ToMemoryDir? then d.buf else s.buf) % MaxAlign(ks, abi) == 0
  }

  /** The rules in full. */
  lemma AcceptableMeans(d: ElfData?, s: ElfData?, c: Class, dir: Direction, abi: nat)
    requires abi > 0
    ensures Acceptable(d, s, c, dir, abi) <==>
              && d != null && s != null && d != s && d.version == 1 && s.version == 1 && s.buf >= 0 && d.buf >= 0
              && Layout(s.kind, c) != []
              && var fsz, msz := FileSize(Layout(s.kind, c)), MemSize(Layout(s.kind, c), abi);
                 && fsz > 0 && msz > 0
                 && (d.buf == s.buf || d.buf + d.size <= s.buf || s.buf + s.size <= d.buf)
                 && if dir.ToMemoryDir? then
                      s.size % fsz == 0 && s.size / fsz * msz <= d.size && d.buf % MaxAlign(Layout(s.kind, c), abi) == 0
                    else
                      s.size % msz == 0 && s.size / msz * fsz <= d.size && s.buf % MaxAlign(Layout(s.kind, c), abi) == 0
  {
    hide Layout, Supported, FileSize, MemSize, MaxAlign;
    if s != null {
      HasFields(s.kind, c);
      LayoutFacts(s.kind, c, abi);
    }
  }

  lemma LayoutFacts(t: Type, c: Class, abi: nat)
    requires abi > 0
    ensures !Supported(t, c) ==> FileSize(Layout(t, c)) == 0
    ensures Supported(t, c) ==> Layout(t, c) != [] && 0 < FileSize(Layout(t, c)) <= MemSize(Layout(t, c), abi)
  {
    hide Layout, Supported, MemSize, End, Size;
    var ks := Layout(t, c);
    HasFields(t, c);
    FileSizeAtMostMemSize(ks, abi);
    if ks != [] {
      FirstField(ks, 0, abi);
    }
  }

  /** The size of the destination after size bytes have been translated. */
  function SizeAfter(fsz: nat, msz: nat, dir: Direction, size: nat): nat
    requires fsz > 0 && msz > 0
  {
    if dir.ToMemoryDir? then size / fsz * msz else size / msz * fsz
  }

  /** Lines 90 to 111. */
  method CountElements(from: nat, to: nat, ssize: nat, dsize: nat) returns (ok: bool, cnt: nat, dsz: nat)
    requires from > 0
    ensures ok == Fits(from, to, ssize, dsize)
    ensures ok ==> ssize == cnt * from && dsz == cnt * to && dsz <= dsize && cnt == ssize / from
  {
    ok, cnt, dsz := false, 0, 0;
    if ssize % from != 0 {
      return;
    }
    cnt := ssize / from;
    assert ssize == cnt * from;
    dsz := cnt * to;
    ok := dsz <= dsize;
  }

  /** The checks, in order; cnt elements will take dsz bytes in the destination. */
  method Check(dst: ElfData?, src: ElfData?, c: Class, dir: Direction, abi: nat) returns (r: Outcome, cnt: nat, dsz: nat)
    requires abi > 0
    ensures r.Done? <==> Acceptable(dst, src, c, dir, abi)
    ensures r.Failed? ==>
              r.error == (if dst == null || src == null || dst == src then ArgumentError
                          else if dst.version != src.version then UnimplError
                          else if src.buf < 0 || dst.buf < 0 then DataError
                          else if src.version != 1 then VersionError
                          else if !Supported(src.kind, c) then UnimplError
                          else DataError)
    ensures r.Done? ==>
              && dst != null && src != null && dst != src && src.buf >= 0 && dst.buf >= 0
              && Apart(src.buf, src.size, dst.buf, dst.size)
              && var ks := Layout(src.kind, c);
                 && ks != [] && dst.size >= dsz && FileSize(ks) > 0 && MemSize(ks, abi) > 0
                 && dsz == SizeAfter(FileSize(ks), MemSize(ks, abi), dir, src.size)
                 && src.size == cnt * Before(ks, abi, dir) && dsz == cnt * After(ks, abi, dir)
  {
    hide Layout, FileSize, MemSize, MaxAlign, Fits, Supported;
    cnt, dsz := 0, 0;
    if dst == null || src == null || dst == src {
      return Failed(ArgumentError), cnt, dsz;
    }
    if dst.version != src.version {
      return Failed(UnimplError), cnt, dsz;
    }
    if src.buf < 0 || dst.buf < 0 {
      return Failed(DataError), cnt, dsz;
    }
    var ks := Layout(src.kind, c);
    LayoutFacts(src.kind, c, abi);
    if src.version != EV_CURRENT {
      return Failed(VersionError), cnt, dsz;
    }
    if FileSize(ks) == 0 {
      return Failed(UnimplError), cnt, dsz;
    }
    var fits;
    fits, cnt, dsz := CountElements(Before(ks, abi, dir), After(ks, abi, dir), src.size, dst.size);
    if !fits {
      return Failed(DataError), cnt, dsz;
    }
    var sb, db := src.buf, dst.buf;
    var se, de := sb + src.size, db + dst.size;
    if db != sb && de > sb && se > db {
      return Failed(DataError), cnt, dsz;
    }
    if (if dir.ToMemoryDir? then db else sb) % MaxAlign(ks, abi) != 0 {
      return Failed(DataError), cnt, dsz;
    }
    r := Done;
  }

  /** Moves cnt elements from sb to db. */
  method Translate(mem: array<byte>, db: nat, dsz: nat, sb: nat, ssz: nat, cnt: nat, ks: seq<Kind>, dir: Direction,
                   abi: nat, byteswap: bool)
    requires abi > 0 && ks != [] && sb + ssz <= mem.Length && db + dsz <= mem.Length
    requires ssz == cnt * Before(ks, abi, dir) && dsz == cnt * After(ks, abi, dir)
    requires db == sb || db + dsz <= sb || sb + ssz <= db
    modifies mem
    ensures OnlyChanged(mem, db, db + dsz)
    ensures if dir.ToMemoryDir? then AgreeAll(ks, abi, mem[db..db + dsz], old(mem[sb..sb + ssz]), byteswap)
            else AgreeAll(ks, abi, old(mem[sb..sb + ssz]), mem[db..db + dsz], byteswap)
  {
    hide FileSize, MemSize, AgreeAll, End, RoundUp, Align, Size;
    FirstField(ks, 0, abi);
    FileSizeAtMostMemSize(ks, abi);
    if ssz == 0 {
      NoElements(cnt, FileSize(ks), MemSize(ks, abi), ssz);
      NothingAgrees(ks, abi, byteswap);
      assert mem[db..db] == [] && mem[sb..sb] == [];
      return;
    }
    if db == sb && !byteswap && FileSize(ks) == MemSize(ks, abi) {
      TimesIsProduct(cnt, MemSize(ks, abi));
      PackedIdentityAll(ks, abi, mem[db..db + dsz], cnt);
      return;
    }
    var ok;
    if dir.ToMemoryDir? {
      ok := ToMemory(mem, db, dsz, sb, cnt, ks, abi, byteswap);
    } else {
      ok := ToFile(mem, db, dsz, sb, cnt, ks, abi, byteswap);
    }
  }

  /** _libelf_xlate. */
  method Xlate(mem: array<byte>, dst: ElfData?, src: ElfData?, encoding0: Encoding, native: Encoding,
               c: Class, dir: Direction, abi: nat) returns (r: Outcome)
    requires abi > 0 && native != NoEncoding
    requires dst != null && dst.buf >= 0 ==> dst.buf + dst.size <= mem.Length
    requires src != null && src.buf >= 0 ==> src.buf + src.size <= mem.Length
    modifies mem, dst
    ensures r.Done? <==> old(Acceptable(dst, src, c, dir, abi))
    ensures r.Failed? ==>
              r.error == (if dst == null || src == null || dst == src then ArgumentError
                          else if dst.version != src.version then UnimplError
                          else if src.buf < 0 || dst.buf < 0 then DataError
                          else if src.version != 1 then VersionError
                          else if !Supported(src.kind, c) then UnimplError
                          else DataError)
    ensures !r.Done? ==> mem[..] == old(mem[..]) && (dst != null ==> dst.size == old(dst.size) && dst.kind == old(dst.kind))
    ensures dst != null ==> dst.buf == old(dst.buf) && dst.version == old(dst.version)
    ensures r.Done? ==> src.kind == dst.kind && src.buf >= 0 && dst.buf >= 0
                        && src.buf + src.size <= mem.Length && dst.buf + dst.size <= mem.Length
                        && OnlyChanged(mem, dst.buf, dst.buf + dst.size)
    ensures r.Done? ==> var ks := Layout(src.kind, c);
                        && FileSize(ks) > 0 && MemSize(ks, abi) > 0
                        && dst.size == SizeAfter(FileSize(ks), MemSize(ks, abi), dir, old(src.size)) <= old(dst.size)
    ensures r.Done? ==>
              var swap := encoding0 != NoEncoding && encoding0 != native;
              var ks := Layout(src.kind, c);
              if dir.ToMemoryDir? then AgreeAll(ks, abi, mem[dst.buf..dst.buf + dst.size], old(mem[src.buf..src.buf + src.size]), swap)
              else AgreeAll(ks, abi, old(mem[src.buf..src.buf + src.size]), mem[dst.buf..dst.buf + dst.size], swap)
    ensures r.Done? && RealAbi(abi) ==>
              var other := encoding0 != NoEncoding && encoding0 != native;
              var fsz, msz := FileSize(Layout(src.kind, c)), MemSize(Layout(src.kind, c), abi);
              var x, y := old(mem[src.buf..src.buf + src.size]), mem[dst.buf..dst.buf + dst.size];
              if dir.ToMemoryDir? then AllValues(src.kind, c, msz, y, fsz, x, other)
              else AllValues(src.kind, c, msz, x, fsz, y, other)
  {
    hide AllValues, RealAbi, Layout, FileSize, MemSize, MaxAlign, AgreeAll, SizeAfter, Acceptable, Before, After;
    var encoding := if encoding0 == NoEncoding then native else encoding0;
    var cnt, dsz;
    r, cnt, dsz := Check(dst, src, c, dir, abi);
    if r.Done? {
      var d, s := dst, src;
      d.kind := s.kind;
      d.size := dsz;
      Translate(mem, d.buf, dsz, s.buf, s.size, cnt, Layout(s.kind, c), dir, abi, encoding != native);
      if RealAbi(abi) {
        ghost var x, y := old(mem[src.buf..src.buf + src.size]), mem[d.buf..d.buf + dsz];
        if dir.ToMemoryDir? {
          AgreeMeans(s.kind, c, abi, y, x, encoding != native);
        } else {
          AgreeMeans(s.kind, c, abi, x, y, encoding != native);
        }
      }
    }
  }

  lemma NoElements(cnt: nat, fsz: nat, msz: nat, ssz: nat)
    requires 0 < fsz <= msz && ssz == 0 && (ssz == cnt * fsz || ssz == cnt * msz)
    ensures cnt == 0 && cnt * fsz == 0 && cnt * msz == 0
  {
    Monotone(1, fsz, cnt);
    Monotone(1, msz, cnt);
  }

  // ---------- nothing to do ----------

  lemma NoGap(ks: seq<Kind>, start: nat, abi: nat)
    requires abi > 0 && ks != [] && End(ks, start, abi) == start + FileSize(ks)
    ensures RoundUp(start, Align(ks[0], abi)) == start && FileSize(ks) == Size(ks[0]) + FileSize(ks[1..])
    ensures End(ks[1..], start + Size(ks[0]), abi) == start + FileSize(ks)
  {
    hide RoundUp, Align, Size, End, FileSize;
    FirstField(ks, start, abi);
    FileFitsMemory(ks[1..], RoundUp(start, Align(ks[0], abi)) + Size(ks[0]), abi);
  }

  lemma Unswapped(b: seq<byte>)
    ensures Convert(b, false) == b
  {
  }

  lemma Parts(m: seq<byte>, start: nat, e: seq<byte>, n: nat)
    requires n <= |e| && start + |e| <= |m| && m[start..start + |e|] == e
    ensures m[start..start + n] == e[..n] && m[start + n..start + n + |e[n..]|] == e[n..]
  {
    Inner(m, start, start + |e|, 0, n);
    Inner(m, start, start + |e|, n, |e|);
  }

  lemma PackedStep(ks: seq<Kind>, start: nat, abi: nat, m: seq<byte>, e: seq<byte>)
    requires abi > 0 && ks != [] && |e| == FileSize(ks) && End(ks, start, abi) == start + |e| <= |m|
    requires m[start..start + |e|] == e
    ensures Size(ks[0]) <= |e| && |e[Size(ks[0])..]| == FileSize(ks[1..])
    ensures End(ks[1..], start + Size(ks[0]), abi) == start + |e|
    ensures Fields(ks[1..], start + Size(ks[0]), abi, m, e[Size(ks[0])..], false) ==> Fields(ks, start, abi, m, e, false)
  {
    hide RoundUp, Align, Size, End, FileSize, Fields, Convert, Swapped;
    NoGap(ks, start, abi);
    FieldsStep(ks, start, abi, m, e, false);
    Parts(m, start, e, Size(ks[0]));
    Unswapped(e[..Size(ks[0])]);
  }

  /** Without padding and without swapping the two forms are the same bytes. */
  lemma {:induction false} PackedIdentity(ks: seq<Kind>, start: nat, abi: nat, m: seq<byte>, e: seq<byte>)
    requires abi > 0 && |e| == FileSize(ks) && End(ks, start, abi) == start + |e| <= |m|
    requires m[start..start + |e|] == e
    ensures Fields(ks, start, abi, m, e, false)
    decreases |ks|
  {
    if ks != [] {
      hide Size, End, FileSize, Fields;
      PackedStep(ks, start, abi, m, e);
      Parts(m, start, e, Size(ks[0]));
      PackedIdentity(ks[1..], start + Size(ks[0]), abi, m, e[Size(ks[0])..]);
    }
  }

  lemma PackedElement(ks: seq<Kind>, abi: nat, x: seq<byte>)
    requires abi > 0 && FileSize(ks) == MemSize(ks, abi) == |x|
    ensures Agree(ks, abi, x, x, false)
  {
    FileFitsMemory(ks, 0, abi);
    StructRoom(ks, abi);
    assert x[0..0 + |x|] == x;
    PackedIdentity(ks, 0, abi, x, x);
    MakeAgree(ks, abi, x, x, false);
  }

  lemma {:induction false} PackedIdentityAll(ks: seq<Kind>, abi: nat, m: seq<byte>, cnt: nat)
    requires abi > 0 && ks != [] && FileSize(ks) == MemSize(ks, abi) && |m| == Times(cnt, MemSize(ks, abi))
    ensures AgreeAll(ks, abi, m, m, false)
    decreases cnt
  {
    NothingAgrees(ks, abi, false);
    hide MemSize, FileSize, Agree, AgreeAll;
    var msz := MemSize(ks, abi);
    if cnt == 0 {
      assert m == [];
    } else {
      var x, rest := m[..msz], m[msz..];
      PackedElement(ks, abi, x);
      PackedIdentityAll(ks, abi, rest, cnt - 1);
      AgreeAllPrepend(ks, abi, x, x, rest, rest, false);
      assert x + rest == m;
    }
  }
}
