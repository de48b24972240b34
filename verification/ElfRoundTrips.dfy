/** Translating twice: from memory to the file form and back, from the file form to memory and
    back, and both ways through the GNU hash converters, in place or not. */
module ElfRoundTrips {
  import opened Division
  import opened ElfBytes
  import opened ElfLayouts
  import opened ElfTypes
  import opened ElfXlate
  import opened ElfGnuHash

  /** The descriptor lies inside the memory. */
  ghost predicate InBounds(mem: array<byte>, d: ElfData)
    reads d
  {
    d.buf >= 0 ==> d.buf + d.size <= mem.Length
  }

  /** Room for size bytes at w, which is at or apart from the from bytes at buf. */
  ghost predicate Takes(w: ElfData, size: nat, buf: int, from: nat)
    reads w
  {
    && w.version == EV_CURRENT && w.buf >= 0 && w.size >= size
    && (w.buf == buf || w.buf + w.size <= buf || buf + from <= w.buf)
  }

  ghost predicate Aligned(d: ElfData, kind: Type, c: Class, abi: nat)
    requires abi > 0
    reads d`buf
  {
    d.buf % MaxAlign(Layout(kind, c), abi) == 0
  }

  function Opposite(dir: Direction): Direction {
    if dir.ToFileDir? then ToMemoryDir else ToFileDir
  }

  lemma SizeBack(fsz: nat, msz: nat, dir: Direction, size: nat)
    requires fsz > 0 && msz > 0 && size % (if dir.ToFileDir? then msz else fsz) == 0
    ensures SizeAfter(fsz, msz, Opposite(dir), SizeAfter(fsz, msz, dir, size)) == size
    ensures SizeAfter(fsz, msz, dir, size) % (if dir.ToFileDir? then fsz else msz) == 0
  {
    var from, to := if dir.ToFileDir? then msz else fsz, if dir.ToFileDir? then fsz else msz;
    MultipleMod(size / from, to);
    Remainder(size / from * to, to, size / from, 0);
  }

  lemma AcceptableGives(d: ElfData, s: ElfData, c: Class, dir: Direction, abi: nat)
    requires abi > 0
    ensures Acceptable(d, s, c, dir, abi) ==>
              && Supported(s.kind, c) && d.version == EV_CURRENT && s.buf >= 0 && d.buf >= 0
              && Before(Layout(s.kind, c), abi, dir) > 0 && s.size % Before(Layout(s.kind, c), abi, dir) == 0
              && (dir.ToMemoryDir? ==> Aligned(d, s.kind, c, abi))
  {
    hide Layout, FileSize, MemSize, MaxAlign;
  }

  /** What a translation has produced can be translated back. */
  lemma BackIsAcceptable(d: ElfData, w: ElfData, c: Class, dir: Direction, abi: nat, size: nat)
    requires abi > 0 && d != w && Supported(d.kind, c) && d.version == EV_CURRENT && d.buf >= 0
    requires var ks := Layout(d.kind, c);
             && FileSize(ks) > 0 && MemSize(ks, abi) > 0 && size % Before(ks, abi, dir) == 0
             && d.size == SizeAfter(FileSize(ks), MemSize(ks, abi), dir, size)
             && Aligned(if dir.ToFileDir? then w else d, d.kind, c, abi)
    requires Takes(w, size, d.buf, d.size)
    ensures Acceptable(w, d, c, Opposite(dir), abi)
  {
    hide Layout, FileSize, MemSize, MaxAlign, Supported;
    SizeBack(FileSize(Layout(d.kind, c)), MemSize(Layout(d.kind, c), abi), dir, size);
  }

  /** Translating one way and back, for either direction. */
  method ThereAndBack(mem: array<byte>, s: ElfData, d: ElfData, w: ElfData, encoding: Encoding, native: Encoding,
                      c: Class, dir: Direction, abi: nat)
      returns (there: Outcome, back: Outcome, ghost mid: seq<byte>)
    requires abi > 0 && native != NoEncoding && d != s && d != w
    requires InBounds(mem, s) && InBounds(mem, d) && InBounds(mem, w)
    modifies mem, d, w
    ensures there.Done? <==> old(Acceptable(d, s, c, dir, abi))
    ensures there.Done? && old(Takes(w, s.size, d.buf, d.size)) && (dir.ToFileDir? ==> Aligned(w, old(s.kind), c, abi)) ==>
              back.Done?
    ensures there.Done? && back.Done? ==>
              && w.buf == old(w.buf) >= 0 && old(s.buf) >= 0 && w.size == old(s.size)
              && w.buf + w.size <= mem.Length && old(s.buf + s.size) <= mem.Length
              && var x, y := old(mem[s.buf..s.buf + s.size]), mem[w.buf..w.buf + w.size];
                 var ks, swap := Layout(old(s.kind), c), encoding != NoEncoding && encoding != native;
                 && ks != []
                 && (if dir.ToFileDir? then AgreeAll(ks, abi, x, mid, swap) && AgreeAll(ks, abi, y, mid, swap)
                     else AgreeAll(ks, abi, mid, x, swap) && AgreeAll(ks, abi, mid, y, swap))
  {
    hide Layout, FileSize, MemSize, Aligned, AgreeAll, SizeAfter, Acceptable, Supported;
    ghost var ks, kind, size := Layout(s.kind, c), s.kind, s.size;
    HasFields(kind, c);
    AcceptableGives(d, s, c, dir, abi);
    there := Xlate(mem, d, s, encoding, native, c, dir, abi);
    back := there;
    mid := [];
    if there.Done? {
      mid := mem[d.buf..d.buf + d.size];
      SizeBack(FileSize(ks), MemSize(ks, abi), dir, size);
      if Takes(w, size, d.buf, d.size) && (dir.ToFileDir? ==> Aligned(w, kind, c, abi)) {
        BackIsAcceptable(d, w, c, dir, abi, size);
      }
      back := Xlate(mem, w, d, encoding, native, c, Opposite(dir), abi);
    }
  }

  /** Translating to the file form and back restores every field of every element, when the second
      destination has room and is aligned; it may be where the first source was. */
  method MemoryThereAndBack(mem: array<byte>, s: ElfData, d: ElfData, w: ElfData,
                            encoding: Encoding, native: Encoding, c: Class, abi: nat)
      returns (there: Outcome, back: Outcome)
    requires abi > 0 && native != NoEncoding && d != s && d != w
    requires InBounds(mem, s) && InBounds(mem, d) && InBounds(mem, w)
    modifies mem, d, w
    ensures there.Done? <==> old(Acceptable(d, s, c, ToFileDir, abi))
    ensures there.Done? && old(Takes(w, s.size, d.buf, d.size)) && Aligned(w, old(s.kind), c, abi) ==>
              back.Done?
    ensures there.Done? && back.Done? ==>
              && w.buf == old(w.buf) >= 0 && old(s.buf) >= 0 && w.size == old(s.size)
              && w.buf + w.size <= mem.Length
              && SameFieldsAll(Layout(old(s.kind), c), abi,
                               old(mem[s.buf..s.buf + s.size]), mem[w.buf..w.buf + w.size])
  {
    hide Layout, FileSize, MemSize, MaxAlign, AgreeAll, SameFieldsAll, Acceptable, Takes;
    ghost var ks := Layout(s.kind, c);
    ghost var mid;
    there, back, mid := ThereAndBack(mem, s, d, w, encoding, native, c, ToFileDir, abi);
    if there.Done? && back.Done? {
      MemoryRoundTrip(ks, abi, old(mem[s.buf..s.buf + s.size]), mid, mem[w.buf..w.buf + w.size],
                      encoding != NoEncoding && encoding != native);
    }
  }

  /** Translating to memory and back restores every byte of the file. */
  method FileThereAndBack(mem: array<byte>, s: ElfData, d: ElfData, w: ElfData,
                          encoding: Encoding, native: Encoding, c: Class, abi: nat)
      returns (there: Outcome, back: Outcome)
    requires abi > 0 && native != NoEncoding && d != s && d != w
    requires InBounds(mem, s) && InBounds(mem, d) && InBounds(mem, w)
    modifies mem, d, w
    ensures there.Done? <==> old(Acceptable(d, s, c, ToMemoryDir, abi))
    ensures there.Done? && old(Takes(w, s.size, d.buf, d.size)) ==> back.Done?
    ensures there.Done? && back.Done? ==>
              && w.buf == old(w.buf) >= 0 && old(s.buf) >= 0 && w.size == old(s.size)
              && w.buf + w.size <= mem.Length
              && mem[w.buf..w.buf + w.size] == old(mem[s.buf..s.buf + s.size])
  {
    hide Layout, FileSize, MemSize, MaxAlign, AgreeAll, Acceptable, Takes;
    ghost var ks := Layout(s.kind, c);
    ghost var mid;
    there, back, mid := ThereAndBack(mem, s, d, w, encoding, native, c, ToMemoryDir, abi);
    if there.Done? && back.Done? {
      FileRoundTrip(ks, abi, old(mem[s.buf..s.buf + s.size]), mid, mem[w.buf..w.buf + w.size],
                    encoding != NoEncoding && encoding != native);
    }
  }

  /** A GNU hash table of whole words, converted one way and then the other, is back as it was. */
  method TableThereAndBack(mem: array<byte>, dst: nat, dsz: nat, src: nat, srcsz: nat, to: nat, tosz: nat,
                           swap: bool, toMemory: bool) returns (there: Verdict, back: Verdict)
    requires dst + dsz <= mem.Length && src + srcsz <= mem.Length && to + tosz <= mem.Length
    requires dsz < SIZE && srcsz < SIZE && tosz < SIZE
    requires dst == src || dst + dsz <= src || src + srcsz <= dst
    requires to == dst || to + tosz <= dst || dst + dsz <= to
    requires srcsz % 4 == 0
    modifies mem
    ensures there == Converted && tosz >= srcsz ==>
              back == Converted && mem[to..to + srcsz] == old(mem[src..src + srcsz])
  {
    hide Table, Count, Ending;
    ghost var x := mem[src..src + srcsz];
    AllMoved(x);
    back := Refused;
    there := GnuHash(mem, dst, dsz, src, srcsz, swap, toMemory);
    if there == Converted && tosz >= srcsz {
      RoundTrip(x, swap, toMemory);
      ghost var y := mem[dst..dst + srcsz];
      AllMoved(y);
      ConvertsWhatFits(Count(y, 0, !toMemory && swap), Count(y, 2, !toMemory && swap), tosz, srcsz);
      back := GnuHash(mem, to, tosz, dst, srcsz, swap, !toMemory);
    }
  }

  lemma AllMoved(x: seq<byte>)
    requires |x| % 4 == 0
    ensures Moved(|x|) == |x| && x[..|x|] == x
  {
  }
}
