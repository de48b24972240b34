/** The element types of libelf: their fields in the order of the converters, and where the gABI puts
    each of them. */
module ElfTypes {
  import opened Division
  import opened ElfBytes
  import opened ElfConvert
  import opened ElfLayouts
  import opened Sequences

  datatype Class = Class32 | Class64

  /** The types of the translation tables, except NOTE and GNUHASH, whose length is not a count. */
  datatype Type =
    | ADDR | BYTE | CAP | DYN | EHDR | HALF | LWORD | MOVE | MOVEP | OFF | PHDR | REL | RELA
    | SHDR | SWORD | SXWORD | SYM | SYMINFO | VDEF | VNEED | WORD | XWORD

  /** No class supports MOVEP, and the 32-bit class has no 64-bit words of its own. */
  predicate Supported(t: Type, c: Class) {
    t != MOVEP && (c.Class32? ==> t != SXWORD && t != XWORD)
  }

  /** The fields in the order in which the converters read and write them; none for what is not
      supported. */
  function Layout(t: Type, c: Class): seq<Kind> {
    var w := if c.Class32? then Word else XWord;  // Addr, Off and the class-sized words
    match t
    case EHDR => [Ident, Half, Half, Word, w, w, w, Word, Half, Half, Half, Half, Half, Half]
    case SHDR => [Word, Word, w, w, w, w, Word, Word, w, w]
    case PHDR => if c.Class32? then [Word, Word, Word, Word, Word, Word, Word, Word]
                 else [Word, Word, XWord, XWord, XWord, XWord, XWord, XWord]
    case SYM => if c.Class32? then [Word, Word, Word, Byte, Byte, Half]
                else [Word, Byte, Byte, Half, XWord, XWord]
    case REL => [w, w]
    case RELA => [w, w, w]
    case DYN => [w, w]
    case MOVE => [XWord, w, w, Half, Half]
    case MOVEP => []
    case ADDR => [w]
    case OFF => [w]
    case BYTE => [Byte]
    case HALF => [Half]
    case WORD => [Word]
    case SWORD => [Word]
    case LWORD => [XWord]
    case XWORD => if c.Class32? then [] else [XWord]
    case SXWORD => if c.Class32? then [] else [XWord]
    case CAP => [w, w]
    case SYMINFO => [Half, Half]
    case VDEF => [Half, Half, Half, Half, Word, Word, Word]
    case VNEED => [Half, Half, Word, Word, Word]
  }

  /** With natural alignment a 64-bit move entry takes more room in memory than its 28 file bytes. */
  lemma MoveIsPadded()
    ensures FileSize(Layout(MOVE, Class64)) == 28 < MemSize(Layout(MOVE, Class64), 8)
  {
    var ks := [XWord, XWord, XWord, Half, Half];
    hide End;
    FileSizeAtMostMemSize(ks, 8);
    assert MaxAlign(ks, 8) == 8;
  }

  lemma HasFields(t: Type, c: Class)
    ensures Supported(t, c) <==> Layout(t, c) != []
  {
  }

  /** A field at an offset of the element, of so many bytes. */
  datatype Place = Place(at: nat, size: nat)

  /** Where the gABI puts the fields of an element, by name. */
  function Places(t: Type, c: Class): seq<Place> {
    match t
    case EHDR =>
      // e_ident, e_type, e_machine, e_version, e_entry, e_phoff, e_shoff, e_flags, e_ehsize, e_phentsize,
      // e_phnum, e_shentsize, e_shnum, e_shstrndx
      if c.Class32? then
        [Place(0, 16), Place(16, 2), Place(18, 2), Place(20, 4), Place(24, 4), Place(28, 4), Place(32, 4),
         Place(36, 4), Place(40, 2), Place(42, 2), Place(44, 2), Place(46, 2), Place(48, 2), Place(50, 2)]
      else
        [Place(0, 16), Place(16, 2), Place(18, 2), Place(20, 4), Place(24, 8), Place(32, 8), Place(40, 8),
         Place(48, 4), Place(52, 2), Place(54, 2), Place(56, 2), Place(58, 2), Place(60, 2), Place(62, 2)]
    case SHDR =>
      // sh_name, sh_type, sh_flags, sh_addr, sh_offset, sh_size, sh_link, sh_info, sh_addralign,
      // sh_entsize
      if c.Class32? then
        [Place(0, 4), Place(4, 4), Place(8, 4), Place(12, 4), Place(16, 4), Place(20, 4), Place(24, 4),
         Place(28, 4), Place(32, 4), Place(36, 4)]
      else
        [Place(0, 4), Place(4, 4), Place(8, 8), Place(16, 8), Place(24, 8), Place(32, 8), Place(40, 4),
         Place(44, 4), Place(48, 8), Place(56, 8)]
    case PHDR =>
      if c.Class32? then
        // p_type, p_offset, p_vaddr, p_paddr, p_filesz, p_memsz, p_flags, p_align
        [Place(0, 4), Place(4, 4), Place(8, 4), Place(12, 4), Place(16, 4), Place(20, 4), Place(24, 4),
         Place(28, 4)]
      else
        // p_type, p_flags, p_offset, p_vaddr, p_paddr, p_filesz, p_memsz, p_align
        [Place(0, 4), Place(4, 4), Place(8, 8), Place(16, 8), Place(24, 8), Place(32, 8), Place(40, 8),
         Place(48, 8)]
    case SYM =>
      if c.Class32? then
        // st_name, st_value, st_size, st_info, st_other, st_shndx
        [Place(0, 4), Place(4, 4), Place(8, 4), Place(12, 1), Place(13, 1), Place(14, 2)]
      else
        // st_name, st_info, st_other, st_shndx, st_value, st_size
        [Place(0, 4), Place(4, 1), Place(5, 1), Place(6, 2), Place(8, 8), Place(16, 8)]
    case REL =>
      // r_offset, r_info
      if c.Class32? then
        [Place(0, 4), Place(4, 4)]
      else
        [Place(0, 8), Place(8, 8)]
    case RELA =>
      // r_offset, r_info, r_addend
      if c.Class32? then
        [Place(0, 4), Place(4, 4), Place(8, 4)]
      else
        [Place(0, 8), Place(8, 8), Place(16, 8)]
    case DYN =>
      // d_tag, d_un
      if c.Class32? then
        [Place(0, 4), Place(4, 4)]
      else
        [Place(0, 8), Place(8, 8)]
    case MOVE =>
      // m_value, m_info, m_poffset, m_repeat, m_stride
      if c.Class32? then
        [Place(0, 8), Place(8, 4), Place(12, 4), Place(16, 2), Place(18, 2)]
      else
        [Place(0, 8), Place(8, 8), Place(16, 8), Place(24, 2), Place(26, 2)]
    case MOVEP => []
    case ADDR => if c.Class32? then [Place(0, 4)] else [Place(0, 8)]
    case OFF => if c.Class32? then [Place(0, 4)] else [Place(0, 8)]
    case BYTE => [Place(0, 1)]
    case HALF => [Place(0, 2)]
    case WORD => [Place(0, 4)]
    case SWORD => [Place(0, 4)]
    case LWORD => [Place(0, 8)]
    case XWORD => if c.Class32? then [] else [Place(0, 8)]
    case SXWORD => if c.Class32? then [] else [Place(0, 8)]
    case CAP =>
      // c_tag, c_un
      if c.Class32? then
        [Place(0, 4), Place(4, 4)]
      else
        [Place(0, 8), Place(8, 8)]
    case SYMINFO =>
      // si_boundto, si_flags
      [Place(0, 2), Place(2, 2)]
    case VDEF =>
      // vd_version, vd_flags, vd_ndx, vd_cnt, vd_hash, vd_aux, vd_next
      [Place(0, 2), Place(2, 2), Place(4, 2), Place(6, 2), Place(8, 4), Place(12, 4), Place(16, 4)]
    case VNEED =>
      // vn_version, vn_cnt, vn_file, vn_aux, vn_next
      [Place(0, 2), Place(2, 2), Place(4, 4), Place(8, 4), Place(12, 4)]
  }

  /** Field i begins where the one before it ends, at a multiple of its size, and has the bytes of its
      kind. */
  ghost predicate TileAt(ks: seq<Kind>, ps: seq<Place>, i: nat)
  {
    && i < |ks| == |ps|
    && ps[i].size == Size(ks[i])
    && ps[i].at == (if i == 0 then 0 else ps[i - 1].at + ps[i - 1].size)
    && (ks[i].Byte? || ks[i].Ident? || ps[i].at % ps[i].size == 0)
  }

  lemma EhdrTiles(c: Class, i: nat)
    requires i < |Layout(EHDR, c)|
    ensures TileAt(Layout(EHDR, c), Places(EHDR, c), i)
  {
    match c
    case Class32 => match i { case 0 => case 1 => case 2 => case 3 => case 4 => case 5 => case 6 => case 7 => case 8 => case 9 => case 10 => case 11 => case 12 => case 13 => }
    case Class64 => match i { case 0 => case 1 => case 2 => case 3 => case 4 => case 5 => case 6 => case 7 => case 8 => case 9 => case 10 => case 11 => case 12 => case 13 => }
  }

  lemma ShdrTiles(c: Class, i: nat)
    requires i < |Layout(SHDR, c)|
    ensures TileAt(Layout(SHDR, c), Places(SHDR, c), i)
  {
    match c
    case Class32 => match i { case 0 => case 1 => case 2 => case 3 => case 4 => case 5 => case 6 => case 7 => case 8 => case 9 => }
    case Class64 => match i { case 0 => case 1 => case 2 => case 3 => case 4 => case 5 => case 6 => case 7 => case 8 => case 9 => }
  }

  lemma PhdrTiles(c: Class, i: nat)
    requires i < |Layout(PHDR, c)|
    ensures TileAt(Layout(PHDR, c), Places(PHDR, c), i)
  {
    match c
    case Class32 => match i { case 0 => case 1 => case 2 => case 3 => case 4 => case 5 => case 6 => case 7 => }
    case Class64 => match i { case 0 => case 1 => case 2 => case 3 => case 4 => case 5 => case 6 => case 7 => }
  }

  lemma SymTiles(c: Class, i: nat)
    requires i < |Layout(SYM, c)|
    ensures TileAt(Layout(SYM, c), Places(SYM, c), i)
  {
    match c
    case Class32 => match i { case 0 => case 1 => case 2 => case 3 => case 4 => case 5 => }
    case Class64 => match i { case 0 => case 1 => case 2 => case 3 => case 4 => case 5 => }
  }

  lemma MoveTiles(c: Class, i: nat)
    requires i < |Layout(MOVE, c)|
    ensures TileAt(Layout(MOVE, c), Places(MOVE, c), i)
  {
    match c
    case Class32 => match i { case 0 => case 1 => case 2 => case 3 => case 4 => }
    case Class64 => match i { case 0 => case 1 => case 2 => case 3 => case 4 => }
  }

  lemma VdefTiles(c: Class, i: nat)
    requires i < |Layout(VDEF, c)|
    ensures TileAt(Layout(VDEF, c), Places(VDEF, c), i)
  {
    match c
    case Class32 => match i { case 0 => case 1 => case 2 => case 3 => case 4 => case 5 => case 6 => }
    case Class64 => match i { case 0 => case 1 => case 2 => case 3 => case 4 => case 5 => case 6 => }
  }

  lemma VneedTiles(c: Class, i: nat)
    requires i < |Layout(VNEED, c)|
    ensures TileAt(Layout(VNEED, c), Places(VNEED, c), i)
  {
    match c
    case Class32 => match i { case 0 => case 1 => case 2 => case 3 => case 4 => }
    case Class64 => match i { case 0 => case 1 => case 2 => case 3 => case 4 => }
  }

  ghost predicate Tiled(ks: seq<Kind>, ps: seq<Place>) {
    |ks| == |ps| && forall i | 0 <= i < |ks| :: TileAt(ks, ps, i)
  }

  lemma AnyTile(t: Type, c: Class, i: nat)
    requires i < |Layout(t, c)|
    ensures TileAt(Layout(t, c), Places(t, c), i)
  {
    hide TileAt;
    match t
    case EHDR => EhdrTiles(c, i);
    case SHDR => ShdrTiles(c, i);
    case PHDR => PhdrTiles(c, i);
    case SYM => SymTiles(c, i);
    case MOVE => MoveTiles(c, i);
    case VDEF => VdefTiles(c, i);
    case VNEED => VneedTiles(c, i);
    case _ => ShortTile(t, c, i);
  }

  lemma ShortTile(t: Type, c: Class, i: nat)
    requires t !in {EHDR, SHDR, PHDR, SYM, MOVE, VDEF, VNEED} && i < |Layout(t, c)|
    ensures TileAt(Layout(t, c), Places(t, c), i)
  {
  }

  lemma AsMany(t: Type, c: Class)
    ensures |Layout(t, c)| == |Places(t, c)|
  {
  }

  /** The converters' layouts have the gABI's fields in the gABI's places. */
  lemma Tiles(t: Type, c: Class)
    ensures Tiled(Layout(t, c), Places(t, c))
  {
    hide Layout, Places, TileAt;
    AsMany(t, c);
    forall i | 0 <= i < |Layout(t, c)|
      ensures TileAt(Layout(t, c), Places(t, c), i)
    {
      AnyTile(t, c, i);
    }
  }

  // ---------- what the places say of an element ----------

  /** Where field i begins, or where the last one ends. */
  function Begin(ps: seq<Place>, i: nat): nat
    requires i <= |ps|
  {
    if i == 0 then 0 else ps[i - 1].at + ps[i - 1].size
  }

  lemma {:induction false} TiledFileSize(ks: seq<Kind>, ps: seq<Place>, i: nat)
    requires Tiled(ks, ps) && i <= |ks|
    ensures FileSize(ks[i..]) + Begin(ps, i) == Begin(ps, |ps|)
    decreases |ks| - i
  {
    if i < |ks| {
      TiledFileSize(ks, ps, i + 1);
      assert ks[i..][1..] == ks[i + 1..] && TileAt(ks, ps, i);
    } else {
      assert ks[i..] == [];
    }
  }

  /** The alignment limits of real machines: a power of two, or beyond every field. */
  predicate RealAbi(abi: nat) {
    abi in {1, 2, 4} || abi >= 8
  }

  /** Fields at multiples of their sizes need no padding between them, whatever the limit. */
  lemma NaturalPlace(k: Kind, at: nat, abi: nat)
    requires RealAbi(abi) && (k.Byte? || k.Ident? || at % Size(k) == 0)
    ensures RoundUp(at, Align(k, abi)) == at
  {
    NaturalMultiple(k, at, abi);
    Rounded(at, Align(k, abi));
  }

  lemma NaturalMultiple(k: Kind, at: nat, abi: nat)
    requires RealAbi(abi) && (k.Byte? || k.Ident? || at % Size(k) == 0)
    ensures at % Align(k, abi) == 0
  {
    Halves(at);
    assert at % 1 == 0;
    match k
    case Byte =>
    case Ident =>
    case Half => assert Align(k, abi) == if abi == 1 then 1 else 2;
    case Word => assert Align(k, abi) == if abi < 4 then abi else 4;
    case XWord => assert Align(k, abi) == if abi < 8 then abi else 8;
  }

  lemma Halves(at: nat)
    ensures at % 8 == 0 ==> at % 4 == 0
    ensures at % 4 == 0 ==> at % 2 == 0
  {
    if at % 8 == 0 {
      Remainder(at, 4, 2 * (at / 8), 0);
    }
    if at % 4 == 0 {
      Remainder(at, 2, 2 * (at / 4), 0);
    }
  }

  lemma Rounded(x: nat, a: nat)
    requires a > 0 && x % a == 0
    ensures RoundUp(x, a) == x
  {
    hide RoundUp;
    var r := RoundUp(x, a);
    Between(x, r, a);
  }

  lemma Between(x: nat, r: nat, a: nat)
    requires a > 0 && x % a == 0 && r % a == 0 && x <= r < x + a
    ensures r == x
  {
    var p, q := x / a, r / a;
    assert x == p * a && r == q * a;
    Monotone(p + 1, q, a);
    Monotone(q, p, a);
  }

  lemma {:induction false} TiledEnd(ks: seq<Kind>, ps: seq<Place>, i: nat, abi: nat)
    requires Tiled(ks, ps) && i <= |ks| && abi > 0 && RealAbi(abi)
    ensures End(ks[i..], Begin(ps, i), abi) == Begin(ps, |ps|)
    decreases |ks| - i
  {
    hide RoundUp, Align, Size, RealAbi, End;
    if i < |ks| {
      TiledEnd(ks, ps, i + 1, abi);
      assert ks[i..][1..] == ks[i + 1..] && ks[i..][0] == ks[i];
      TileMeans(ks, ps, i);
      NaturalPlace(ks[i], Begin(ps, i), abi);
      FirstField(ks[i..], Begin(ps, i), abi);
    } else {
      assert ks[i..] == [];
      NoEnd(Begin(ps, i), abi);
    }
  }

  lemma NoEnd(start: nat, abi: nat)
    requires abi > 0
    ensures End([], start, abi) == start
  {
  }

  lemma TileMeans(ks: seq<Kind>, ps: seq<Place>, i: nat)
    requires Tiled(ks, ps) && i < |ks|
    ensures ps[i].at == Begin(ps, i) && ps[i].size == Size(ks[i]) && Begin(ps, i + 1) == ps[i].at + ps[i].size
    ensures ks[i].Byte? || ks[i].Ident? || ps[i].at % Size(ks[i]) == 0
  {
    assert TileAt(ks, ps, i);
  }

  // ---------- the values of the fields ----------

  /** The n bytes of a structure m at offset o and of a file e at offset f hold the same: as a number,
      whose bytes in the file are in the other order if asked, or as the same bytes. */
  ghost predicate SameValue(m: seq<byte>, o: nat, e: seq<byte>, f: nat, n: nat, other: bool) {
    && o + n <= |m| && f + n <= |e|
    && if n == 2 || n == 4 || n == 8 then
         FromBytes(m[o..o + n]) == if other then BigEndian(e[f..f + n]) else FromBytes(e[f..f + n])
       else m[o..o + n] == e[f..f + n]
  }

  lemma FieldValue(k: Kind, x: seq<byte>, b: seq<byte>, swap: bool)
    requires x == Convert(b, swap && Swapped(k))
    ensures if Size(k) == 2 || Size(k) == 4 || Size(k) == 8 then
              FromBytes(x) == if swap then BigEndian(b) else FromBytes(b)
            else x == b
  {
    ConvertTwice(b, swap && Swapped(k));
    BigIsReversedLittle(b);
    hide FromBytes, BigEndian, Convert, Reverse;
  }

  /** In an element whose fields agree, each field from the i-th on has the same value. */
  lemma {:induction false} FieldsValues(ks: seq<Kind>, ps: seq<Place>, i: nat, abi: nat, m: seq<byte>, e: seq<byte>, swap: bool)
    requires Tiled(ks, ps) && i <= |ks| && abi > 0 && RealAbi(abi)
    requires |m| >= Begin(ps, |ps|) && |e| == Begin(ps, |ps|) >= Begin(ps, i)
    requires |m| >= End(ks[i..], Begin(ps, i), abi) && |e[Begin(ps, i)..]| == FileSize(ks[i..])
    requires Fields(ks[i..], Begin(ps, i), abi, m, e[Begin(ps, i)..], swap)
    ensures forall j | i <= j < |ps| :: SameValue(m, ps[j].at, e, ps[j].at, ps[j].size, swap)
    decreases |ks| - i
  {
    hide RoundUp, Align, Size, RealAbi, End, FileSize, Fields, Convert, FromBytes, BigEndian, Swapped;
    if i < |ks| {
      var k, o := ks[i], Begin(ps, i);
      assert ks[i..][1..] == ks[i + 1..] && ks[i..][0] == k;
      TileMeans(ks, ps, i);
      NaturalPlace(k, o, abi);
      FieldsStep(ks[i..], o, abi, m, e[o..], swap);
      FieldValue(k, m[o..o + Size(k)], e[o..][..Size(k)], swap);
      FileSlices(e, o, Size(k));
      FieldsValues(ks, ps, i + 1, abi, m, e, swap);
    }
  }

  lemma FileSlices(e: seq<byte>, o: nat, n: nat)
    requires o + n <= |e|
    ensures e[o..][..n] == e[o..o + n] && e[o..][n..] == e[o + n..]
  {
  }

  /** Each field of an element, at its place in the gABI. */
  ghost predicate ElementValues(t: Type, c: Class, m: seq<byte>, a: nat, e: seq<byte>, b: nat, other: bool) {
    forall j | 0 <= j < |Places(t, c)| ::
      SameValue(m, a + Places(t, c)[j].at, e, b + Places(t, c)[j].at, Places(t, c)[j].size, other)
  }

  lemma SameValueInside(m: seq<byte>, a: nat, b: nat, o: nat, e: seq<byte>, c: nat, d: nat, f: nat, n: nat, other: bool)
    requires a <= b <= |m| && c <= d <= |e| && SameValue(m[a..b], o, e[c..d], f, n, other)
    ensures SameValue(m, a + o, e, c + f, n, other)
  {
    hide FromBytes, BigEndian;
    Inner(m, a, b, o, o + n);
    Inner(e, c, d, f, f + n);
  }

  lemma ElementInside(t: Type, c: Class, m: seq<byte>, a: nat, b: nat, o: nat, e: seq<byte>, x: nat, y: nat, f: nat, other: bool)
    requires a <= b <= |m| && x <= y <= |e| && ElementValues(t, c, m[a..b], o, e[x..y], f, other)
    ensures ElementValues(t, c, m, a + o, e, x + f, other)
  {
    hide SameValue, Places;
    forall j | 0 <= j < |Places(t, c)|
      ensures SameValue(m, a + o + Places(t, c)[j].at, e, x + f + Places(t, c)[j].at, Places(t, c)[j].size, other)
    {
      var p := Places(t, c)[j];
      SameValueInside(m, a, b, o + p.at, e, x, y, f + p.at, p.size, other);
    }
  }

  lemma OneElement(t: Type, c: Class, abi: nat, m: seq<byte>, e: seq<byte>, swap: bool)
    requires abi > 0 && RealAbi(abi) && Agree(Layout(t, c), abi, m, e, swap)
    ensures ElementValues(t, c, m, 0, e, 0, swap)
  {
    hide Layout, Places, SameValue, RealAbi, Fields, End, FileSize, Tiled;
    var ks, ps := Layout(t, c), Places(t, c);
    Tiles(t, c);
    SameCount(ks, ps);
    TiledFileSize(ks, ps, 0);
    TiledEnd(ks, ps, 0, abi);
    assert ks[0..] == ks && e[0..] == e;
    StructRoom(ks, abi);
    FieldsValues(ks, ps, 0, abi, m, e, swap);
  }

  lemma SameCount(ks: seq<Kind>, ps: seq<Place>)
    requires Tiled(ks, ps)
    ensures |ks| == |ps|
  {
  }

  /** All elements: those of the structures in m, msz bytes apart, and those of the file bytes e. */
  ghost predicate AllValues(t: Type, c: Class, msz: nat, m: seq<byte>, fsz: nat, e: seq<byte>, other: bool)
    requires fsz > 0
  {
    forall i | 0 <= i < |e| / fsz :: ElementValues(t, c, m, Bulk(i, msz), e, Bulk(i, fsz), other)
  }

  lemma {:induction false} NthElement(t: Type, c: Class, abi: nat, m: seq<byte>, e: seq<byte>, swap: bool, i: nat)
    requires abi > 0 && RealAbi(abi) && AgreeAll(Layout(t, c), abi, m, e, swap)
    requires FileSize(Layout(t, c)) > 0 && i < |e| / FileSize(Layout(t, c))
    ensures ElementValues(t, c, m, Bulk(i, MemSize(Layout(t, c), abi)), e, Bulk(i, FileSize(Layout(t, c))), swap)
    decreases i
  {
    hide Layout, ElementValues, RealAbi, Agree, MemSize, FileSize, Bulk;
    var ks := Layout(t, c);
    var msz, fsz := MemSize(ks, abi), FileSize(ks);
    NoElement(|e|, fsz);
    assert m != [];
    BulkStep(i, msz);
    BulkStep(i, fsz);
    if i == 0 {
      OneElement(t, c, abi, m[..msz], e[..fsz], swap);
      assert m[0..msz] == m[..msz] && e[0..fsz] == e[..fsz];
      ElementInside(t, c, m, 0, msz, 0, e, 0, fsz, 0, swap);
    } else {
      OneLess(|e|, fsz);
      NthElement(t, c, abi, m[msz..], e[fsz..], swap, i - 1);
      assert m[msz..|m|] == m[msz..] && e[fsz..|e|] == e[fsz..];
      ElementInside(t, c, m, msz, |m|, Bulk(i - 1, msz), e, fsz, |e|, Bulk(i - 1, fsz), swap);
    }
  }

  lemma NoElement(n: nat, fsz: nat)
    requires fsz > 0 && n / fsz > 0
    ensures n > 0
  {
    Remainder(0, fsz, 0, 0);
  }

  lemma OneLess(n: nat, fsz: nat)
    requires fsz > 0 && n >= fsz
    ensures (n - fsz) / fsz == n / fsz - 1
  {
    var q, r := n / fsz, n % fsz;
    assert n == q * fsz + r;
    Monotone(q, 0, fsz);
    assert n - fsz == (q - 1) * fsz + r;
    Remainder(n - fsz, fsz, q - 1, r);
  }

  lemma BulkStep(i: nat, size: nat)
    ensures Bulk(0, size) == 0 && (i > 0 ==> Bulk(i, size) == size + Bulk(i - 1, size))
  {
  }

  /** Whatever elements agree, all their fields have the same values, at the gABI's places. */
  lemma AgreeMeans(t: Type, c: Class, abi: nat, m: seq<byte>, e: seq<byte>, swap: bool)
    requires abi > 0 && RealAbi(abi) && AgreeAll(Layout(t, c), abi, m, e, swap) && FileSize(Layout(t, c)) > 0
    ensures AllValues(t, c, MemSize(Layout(t, c), abi), m, FileSize(Layout(t, c)), e, swap)
  {
    hide Layout, ElementValues, RealAbi, AgreeAll, MemSize, FileSize, Bulk;
    forall i | 0 <= i < |e| / FileSize(Layout(t, c))
      ensures ElementValues(t, c, m, Bulk(i, MemSize(Layout(t, c), abi)), e, Bulk(i, FileSize(Layout(t, c))), swap)
    {
      NthElement(t, c, abi, m, e, swap, i);
    }
  }

  // ---------- sizes and alignments ----------

  /** The table falign of libelf_align.c, which has 0 for what is not supported. */
  function Widest(t: Type, c: Class): nat {
    match t
    case BYTE | MOVEP => 1
    case HALF | SYMINFO => 2
    case WORD | SWORD | VDEF | VNEED => 4
    case LWORD | MOVE => 8
    case XWORD | SXWORD => if c.Class32? then 1 else 8
    case _ => if c.Class32? then 4 else 8
  }

  lemma EhdrWidest(c: Class, i: nat)
    requires i < |Layout(EHDR, c)|
    ensures Layout(EHDR, c)[i].Ident? || Size(Layout(EHDR, c)[i]) <= Widest(EHDR, c)
  {
    match c
    case Class32 => match i { case 0 => case 1 => case 2 => case 3 => case 4 => case 5 => case 6 => case 7 => case 8 => case 9 => case 10 => case 11 => case 12 => case 13 => }
    case Class64 => match i { case 0 => case 1 => case 2 => case 3 => case 4 => case 5 => case 6 => case 7 => case 8 => case 9 => case 10 => case 11 => case 12 => case 13 => }
  }

  lemma ShdrWidest(c: Class, i: nat)
    requires i < |Layout(SHDR, c)|
    ensures Layout(SHDR, c)[i].Ident? || Size(Layout(SHDR, c)[i]) <= Widest(SHDR, c)
  {
    match c
    case Class32 => match i { case 0 => case 1 => case 2 => case 3 => case 4 => case 5 => case 6 => case 7 => case 8 => case 9 => }
    case Class64 => match i { case 0 => case 1 => case 2 => case 3 => case 4 => case 5 => case 6 => case 7 => case 8 => case 9 => }
  }

  lemma PhdrWidest(c: Class, i: nat)
    requires i < |Layout(PHDR, c)|
    ensures Layout(PHDR, c)[i].Ident? || Size(Layout(PHDR, c)[i]) <= Widest(PHDR, c)
  {
    match c
    case Class32 => match i { case 0 => case 1 => case 2 => case 3 => case 4 => case 5 => case 6 => case 7 => }
    case Class64 => match i { case 0 => case 1 => case 2 => case 3 => case 4 => case 5 => case 6 => case 7 => }
  }

  lemma SymWidest(c: Class, i: nat)
    requires i < |Layout(SYM, c)|
    ensures Layout(SYM, c)[i].Ident? || Size(Layout(SYM, c)[i]) <= Widest(SYM, c)
  {
    match c
    case Class32 => match i { case 0 => case 1 => case 2 => case 3 => case 4 => case 5 => }
    case Class64 => match i { case 0 => case 1 => case 2 => case 3 => case 4 => case 5 => }
  }

  lemma MoveWidest(c: Class, i: nat)
    requires i < |Layout(MOVE, c)|
    ensures Layout(MOVE, c)[i].Ident? || Size(Layout(MOVE, c)[i]) <= Widest(MOVE, c)
  {
    match c
    case Class32 => match i { case 0 => case 1 => case 2 => case 3 => case 4 => }
    case Class64 => match i { case 0 => case 1 => case 2 => case 3 => case 4 => }
  }

  lemma VdefWidest(c: Class, i: nat)
    requires i < |Layout(VDEF, c)|
    ensures Layout(VDEF, c)[i].Ident? || Size(Layout(VDEF, c)[i]) <= Widest(VDEF, c)
  {
    match c
    case Class32 => match i { case 0 => case 1 => case 2 => case 3 => case 4 => case 5 => case 6 => }
    case Class64 => match i { case 0 => case 1 => case 2 => case 3 => case 4 => case 5 => case 6 => }
  }

  lemma VneedWidest(c: Class, i: nat)
    requires i < |Layout(VNEED, c)|
    ensures Layout(VNEED, c)[i].Ident? || Size(Layout(VNEED, c)[i]) <= Widest(VNEED, c)
  {
    match c
    case Class32 => match i { case 0 => case 1 => case 2 => case 3 => case 4 => }
    case Class64 => match i { case 0 => case 1 => case 2 => case 3 => case 4 => }
  }

  lemma NoWider(t: Type, c: Class, i: nat)
    requires i < |Layout(t, c)|
    ensures Layout(t, c)[i].Ident? || Size(Layout(t, c)[i]) <= Widest(t, c)
  {
    match t
    case EHDR => EhdrWidest(c, i);
    case SHDR => ShdrWidest(c, i);
    case PHDR => PhdrWidest(c, i);
    case SYM => SymWidest(c, i);
    case MOVE => MoveWidest(c, i);
    case VDEF => VdefWidest(c, i);
    case VNEED => VneedWidest(c, i);
    case _ =>
  }

  /** Where a widest field is. */
  lemma SomeWidest(t: Type, c: Class) returns (j: nat)
    ensures Layout(t, c) != [] ==> j < |Layout(t, c)| && !Layout(t, c)[j].Ident? && Size(Layout(t, c)[j]) == Widest(t, c)
    ensures Layout(t, c) == [] ==> Widest(t, c) == 1
  {
    j := match t case EHDR | VDEF => 4 case SHDR | PHDR => 3 case SYM => if c.Class32? then 1 else 4 case VNEED => 2 case _ => 0;
  }

  lemma {:induction false} MaxAlignBound(ks: seq<Kind>, abi: nat, w: nat, i: nat)
    requires abi > 0 && w > 0 && i <= |ks| && forall k | 0 <= k < |ks| :: Align(ks[k], abi) <= w
    ensures MaxAlign(ks[i..], abi) <= w
    ensures forall k | i <= k < |ks| :: Align(ks[k], abi) <= MaxAlign(ks[i..], abi)
    decreases |ks| - i
  {
    hide Align;
    if i < |ks| {
      MaxAlignBound(ks, abi, w, i + 1);
      assert ks[i..][1..] == ks[i + 1..] && ks[i..][0] == ks[i];
    } else {
      assert ks[i..] == [];
    }
  }

  lemma AlignIs(k: Kind, abi: nat, w: nat)
    requires abi > 0 && w > 0
    ensures k.Ident? || Size(k) <= w ==> Align(k, abi) <= if w < abi then w else abi
    ensures !k.Ident? && Size(k) == w ==> Align(k, abi) == if w < abi then w else abi
  {
  }

  /** Where a structure of the type must begin: at a multiple of its widest field, as far as the
      machine asks for it. */
  lemma AlignmentOf(t: Type, c: Class, abi: nat)
    requires abi > 0
    ensures Widest(t, c) > 0
    ensures MaxAlign(Layout(t, c), abi) == if Widest(t, c) < abi then Widest(t, c) else abi
  {
    hide Layout, Align, Size, MaxAlign, Widest;
    var ks, w := Layout(t, c), Widest(t, c);
    var a := if w < abi then w else abi;
    SomeWide(t, c);
    var j := SomeWidest(t, c);
    if ks == [] {
      NoAlign(abi);
    } else {
      forall k | 0 <= k < |ks|
        ensures Align(ks[k], abi) <= a
      {
        NoWider(t, c, k);
        AlignIs(ks[k], abi, w);
      }
      AlignIs(ks[j], abi, w);
      MaxAlignBound(ks, abi, a, 0);
      assert ks[0..] == ks;
    }
  }

  lemma SomeWide(t: Type, c: Class)
    ensures Widest(t, c) > 0
  {
  }

  lemma NoAlign(abi: nat)
    requires abi > 0
    ensures MaxAlign([], abi) == 1
  {
  }

  lemma LastPlace(t: Type, c: Class)
    ensures Begin(Places(t, c), |Places(t, c)|) == match t
            case EHDR => if c.Class32? then 52 else 64
            case SHDR => if c.Class32? then 40 else 64
            case PHDR => if c.Class32? then 32 else 56
            case SYM => if c.Class32? then 16 else 24
            case REL | DYN | CAP => if c.Class32? then 8 else 16
            case RELA => if c.Class32? then 12 else 24
            case MOVE => if c.Class32? then 20 else 28
            case VDEF => 20
            case VNEED => 16
            case SYMINFO => 4
            case ADDR | OFF => if c.Class32? then 4 else 8
            case XWORD | SXWORD => if c.Class32? then 0 else 8
            case BYTE => 1
            case HALF => 2
            case WORD | SWORD => 4
            case LWORD => 8
            case MOVEP => 0
  {
  }

  /** The sizes of libelf_fsize.c, and those of the structures on a machine that aligns nothing beyond
      abi bytes. */
  lemma ElementSizes(t: Type, c: Class, abi: nat)
    requires abi > 0 && RealAbi(abi)
    ensures FileSize(Layout(t, c)) == match t
            case EHDR => if c.Class32? then 52 else 64
            case SHDR => if c.Class32? then 40 else 64
            case PHDR => if c.Class32? then 32 else 56
            case SYM => if c.Class32? then 16 else 24
            case REL | DYN | CAP => if c.Class32? then 8 else 16
            case RELA => if c.Class32? then 12 else 24
            case MOVE => if c.Class32? then 20 else 28
            case VDEF => 20
            case VNEED => 16
            case SYMINFO => 4
            case ADDR | OFF => if c.Class32? then 4 else 8
            case XWORD | SXWORD => if c.Class32? then 0 else 8
            case BYTE => 1
            case HALF => 2
            case WORD | SWORD => 4
            case LWORD => 8
            case MOVEP => 0
    ensures MaxAlign(Layout(t, c), abi) == if Widest(t, c) < abi then Widest(t, c) else abi
    ensures MemSize(Layout(t, c), abi) == RoundUp(FileSize(Layout(t, c)), MaxAlign(Layout(t, c), abi))
  {
    hide Layout, Places, End, FileSize, RoundUp, MaxAlign, Widest, Tiled, RealAbi;
    var ks, ps := Layout(t, c), Places(t, c);
    Tiles(t, c);
    SameCount(ks, ps);
    TiledFileSize(ks, ps, 0);
    TiledEnd(ks, ps, 0, abi);
    assert ks[0..] == ks;
    LastPlace(t, c);
    AlignmentOf(t, c, abi);
  }
}
