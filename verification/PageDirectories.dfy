/** createPageDirectory of X86/PageDirectory.cc. */
module PageDirectories {
  import opened PageTables
  import opened AddressSpaces
  import opened Sequences

  /** The slots a new directory shares with the kernel: the code area and the kernel half. */
  predicate Shared(i: nat) {
    i == 64 || 767 <= i < 1023
  }

  /** What the new directory holds. */
  ghost predicate Filled(dir: seq<nat>, kernel: seq<nat>, page: nat)
    requires |dir| == 1024 && |kernel| == 1024
  {
    forall i | 0 <= i < 1024 ::
      dir[i] == if i == 1023 then page * 4096 + PRESENT else if Shared(i) then kernel[i] else 0
  }

  /** None of dir's tables is the frame f. */
  ghost predicate NoTable(mem: Memory, dir: nat, f: nat)
    requires WellFormed(mem) && dir < FRAMES
  {
    forall i | 0 <= i < 1023 && Present(mem[dir][i]) :: FrameOf(mem[dir][i]) != f
  }

  /** va is mapped to frame f by a table other than f, so that f can be written through va. */
  ghost predicate Window(mem: Memory, root: nat, va: nat, f: nat)
    requires WellFormed(mem) && root < FRAMES
  {
    && va % 4096 == 0 && va < PAGE_TABLE_BASE && PdeIndex(va) < 1024 && PteIndex(va) < 1024
    && Present(mem[root][PdeIndex(va)])
    && var t := FrameOf(mem[root][PdeIndex(va)]);
       Present(mem[t][PteIndex(va)]) && FrameOf(mem[t][PteIndex(va)]) == f
  }

  lemma WindowFromPte(mem: Memory, root: nat, va: nat)
    requires WellFormed(mem) && root < FRAMES && va % 4096 == 0 && va < PAGE_TABLE_BASE
    requires Present(Pte(mem, root, va / 4096))
    ensures Window(mem, root, va, FrameOf(Pte(mem, root, va / 4096)))
  {
    Indices(va);
  }

  /** The window survives changes to frames it does not use. */
  lemma WindowStable(m: Memory, n: Memory, root: nat, va: nat, f: nat, p: nat)
    requires WellFormed(m) && WellFormed(n) && root < FRAMES && Window(m, root, va, f)
    requires forall g | 0 <= g < FRAMES && g != p :: n[g] == m[g]
    requires p != root && FrameOf(m[root][PdeIndex(va)]) != p
    ensures Window(n, root, va, f)
  {
  }

  method StoreWindow(a: AddressSpace, va: nat, i: nat, w: nat, ghost f: nat)
    requires WellFormed(a.mem) && a.root < FRAMES && Window(a.mem, a.root, va, f)
    requires i < 1024 && w < 0x1_0000_0000
    modifies a
    ensures f < FRAMES && WellFormed(a.mem) && a.mem == Put(old(a.mem), f, i, w)
  {
    hide Walk, PdeIndex, PteIndex, Window, FrameOf, Present;
    WindowUse(a.mem, a.root, va, f);
    WalkInPage(a.mem, a.root, va, 4 * i);
    PhysicalSplit(f, 4 * i);
    a.Store(va + 4 * i, w);
  }

  method LoadWindow(a: AddressSpace, va: nat, i: nat, ghost f: nat) returns (w: nat)
    requires WellFormed(a.mem) && a.root < FRAMES && Window(a.mem, a.root, va, f) && i < 1024
    ensures f < FRAMES && w == a.mem[f][i]
  {
    hide Walk, PdeIndex, PteIndex, Window, FrameOf, Present;
    WindowUse(a.mem, a.root, va, f);
    WalkInPage(a.mem, a.root, va, 4 * i);
    PhysicalSplit(f, 4 * i);
    w := a.Load(va + 4 * i);
  }

  /** Lines 463-478: clearing and filling the new directory p through va, reading the kernel's
      directory k through kva. */
  method FillDirectory(a: AddressSpace, va: nat, kva: nat, p: nat, ghost k: nat)
    requires WellFormed(a.mem) && a.root < FRAMES && 0 < p < FRAMES && k < FRAMES && p != k && p != a.root
    requires Window(a.mem, a.root, va, p) && Window(a.mem, a.root, kva, k)
    requires FrameOf(a.mem[a.root][PdeIndex(va)]) != p && FrameOf(a.mem[a.root][PdeIndex(kva)]) != p
    modifies a
    ensures WellFormed(a.mem)
    ensures forall g | 0 <= g < FRAMES && g != p :: a.mem[g] == old(a.mem)[g]
    ensures Filled(a.mem[p], a.mem[k], p)
  {
    hide PdeIndex, PteIndex, Window, FrameOf, Present;
    ghost var m := a.mem;
    WindowUse(m, a.root, va, p);
    a.ClearPage(va, p);
    WindowStable(m, a.mem, a.root, va, p, p);
    StoreWindow(a, va, 1023, p * 4096 + PRESENT, p);
    var i := 767;
    while i < 1023
      invariant 767 <= i <= 1023 && WellFormed(a.mem)
      invariant forall g | 0 <= g < FRAMES && g != p :: a.mem[g] == m[g]
      invariant forall j | 0 <= j < 1024 ::
                  a.mem[p][j] == if j == 1023 then p * 4096 + PRESENT else if 767 <= j < i then m[k][j] else 0
    {
      WindowStable(m, a.mem, a.root, va, p, p);
      WindowStable(m, a.mem, a.root, kva, k, p);
      var w := LoadWindow(a, kva, i, k);
      StoreWindow(a, va, i, w, p);
      i := i + 1;
    }
    WindowStable(m, a.mem, a.root, va, p, p);
    WindowStable(m, a.mem, a.root, kva, k, p);
    var w := LoadWindow(a, kva, 64, k);
    StoreWindow(a, va, 64, w, p);
  }

  lemma WindowUse(mem: Memory, root: nat, va: nat, f: nat)
    requires WellFormed(mem) && root < FRAMES && Window(mem, root, va, f)
    ensures va % 4096 == 0 && va < PAGE_TABLE_BASE && Present(mem[root][PdeIndex(va)])
    ensures PteIndex(va) < 1024 && f < FRAMES
    ensures var t := FrameOf(mem[root][PdeIndex(va)]);
            Present(mem[t][PteIndex(va)]) && FrameOf(mem[t][PteIndex(va)]) == f
  {
  }

  /** The running address space is unaffected by writes to a frame it does not use as table. */
  lemma UnusedFrame(m: Memory, n: Memory, root: nat, p: nat)
    requires Separate(m, root) && WellFormed(n) && p != root && NoTable(m, root, p)
    requires forall g | 0 <= g < FRAMES && g != p :: n[g] == m[g]
    ensures Separate(n, root)
    ensures forall q | 0 <= q < 1023 * 1024 :: Pte(n, root, q) == Pte(m, root, q)
  {
    forall q | 0 <= q < 1023 * 1024
      ensures Pte(n, root, q) == Pte(m, root, q)
    {
      assert n[root] == m[root];
      assert q / 1024 < 1023;
    }
  }

  /** The new directory translates the shared slots as the kernel directory does, and nothing else. */
  lemma FilledTranslates(mem: Memory, p: nat, k: nat)
    requires WellFormed(mem) && p < FRAMES && k < FRAMES && Filled(mem[p], mem[k], p)
    ensures SelfMapped(mem, p)
    ensures forall q | 0 <= q < 1023 * 1024 :: Pte(mem, p, q) == if Shared(q / 1024) then Pte(mem, k, q) else 0
  {
    Parity(2048 * p, PRESENT);
    Quarter(p, PRESENT);
    assert p * 4096 + PRESENT == 2 * (2048 * p) + PRESENT;
  }

  /** The same in addresses: the code area and the kernel half translate as in the kernel directory. */
  lemma FilledWalks(mem: Memory, p: nat, k: nat, va: nat)
    requires WellFormed(mem) && p < FRAMES && k < FRAMES && Filled(mem[p], mem[k], p) && va < 0xffc0_0000
    ensures Walk(mem, p, va) == if 0x1000_0000 <= va < 0x1040_0000 || 0xbfc0_0000 <= va then Walk(mem, k, va) else None
  {
    hide Walk, Pte, Filled;
    FilledTranslates(mem, p, k);
    WalkIsPte(mem, p, va);
    WalkIsPte(mem, k, va);
    SlotOf(va);
  }

  lemma FilledEntries(dir: seq<nat>, kernel: seq<nat>, page: nat)
    requires |dir| == 1024 && |kernel| == 1024 && Filled(dir, kernel, page)
    ensures forall i | 0 <= i < 1024 ::
              dir[i] == if i == 1023 then page * 4096 + 1 else if i == 64 || 767 <= i then kernel[i] else 0
  {
  }

  lemma SlotOf(va: nat)
    requires va < 0xffc0_0000
    ensures va / 4096 < 1023 * 1024
    ensures Shared(va / 4096 / 1024) <==> 0x1000_0000 <= va < 0x1040_0000 || 0xbfc0_0000 <= va
  {
  }

  /** The directory sees itself at the top page of the address space. */
  lemma SelfWalks(mem: Memory, p: nat)
    requires WellFormed(mem) && p < FRAMES && SelfMapped(mem, p)
    ensures Walk(mem, p, 0xffff_f000) == Some(p * 4096)
  {
  }

  /** A directory filled from a proper one is proper itself, unless it serves as one of the tables. */
  lemma FilledSeparate(mem: Memory, p: nat, k: nat)
    requires Separate(mem, k) && p < FRAMES && Filled(mem[p], mem[k], p) && NoTable(mem, k, p)
    ensures Separate(mem, p)
  {
    hide FrameOf;
    FilledTranslates(mem, p, k);
    forall i | 0 <= i < 1023 && Present(mem[p][i])
      ensures Present(mem[k][i]) && mem[p][i] == mem[k][i]
    {
      assert !Present(0);
    }
  }

  /** Neither the directory k nor its tables are disturbed; at most a new table is added to it. */
  lemma KernelSeparate(m: Memory, n: Memory, root: nat, k: nat, p: nat, spare: nat)
    requires Separate(m, root) && Separate(m, k) && Separate(n, root) && p < FRAMES && p != spare
    requires k == root || n[k] == m[k]
    requires k == root ==> forall i | 0 <= i < 1023 && Present(n[k][i]) ::
               FrameOf(n[k][i]) == spare || (Present(m[k][i]) && FrameOf(n[k][i]) == FrameOf(m[k][i]))
    requires NoTable(m, k, p)
    ensures Separate(n, k) && NoTable(n, k, p)
  {
  }

  /** Building the directory leaves what the kernel directory k translates as it was: between
      memory m before and n after, only the frames p and spare, one unused table entry, and
      possibly one directory entry of root naming spare differ. */
  lemma KernelKeeps(m: Memory, n: Memory, root: nat, k: nat, va: nat, p: nat, spare: nat)
    requires Separate(m, root) && Separate(m, k) && WellFormed(n) && va < PAGE_TABLE_BASE
    requires k == root || (NoTable(m, root, k) && NoTable(m, k, root))
    requires p != root && p != k && spare != root && spare != k && NoTable(m, k, p) && NoTable(m, k, spare)
    requires p != spare && NoTable(m, root, p)
    requires !Present(Pte(m, root, va / 4096))
    requires var i := PdeIndex(va);
             var t := if Present(m[root][i]) then FrameOf(m[root][i]) else spare;
             && i < 1023 && t < FRAMES
             && Present(n[root][i]) && FrameOf(n[root][i]) == t
             && (forall x | 0 <= x < 1024 :: n[t][x] ==
                   if x == PteIndex(va) then WRITABLE else if Present(m[root][i]) then m[t][x] else 0)
             && (forall j | 0 <= j < 1024 && j != i :: n[root][j] == m[root][j])
             && (forall g | 0 <= g < FRAMES && g != p && g != t && g != root :: n[g] == m[g])
    ensures Pages(n, k) == Pages(m, k)
  {
    var i := PdeIndex(va);
    Indices(va);
    forall q | 0 <= q < 1023 * 1024
      ensures Present(Pte(n, k, q)) == Present(Pte(m, k, q))
      ensures Present(Pte(m, k, q)) ==> Pte(n, k, q) == Pte(m, k, q)
    {
      var j := q / 1024;
      assert j < 1023;
      if Present(m[k][j]) {
        assert FrameOf(m[k][j]) != p && FrameOf(m[k][j]) != spare && FrameOf(m[k][j]) != root;
      }
    }
  }

  /** What the caller of createPageDirectory has arranged: the two frames Memory::getPage hands
      out are unused, va is the unmapped page Memory::mapAnonymousPage picks, and the kernel
      directory k is mapped at kva. */
  ghost predicate Ready(mem: Memory, root: nat, k: nat, va: nat, kva: nat, page: nat, spare: nat) {
    && Separate(mem, root) && Separate(mem, k)
    && (k == root || (NoTable(mem, root, k) && NoTable(mem, k, root)))
    && page != spare
    && Fresh(mem, root, page) && Fresh(mem, k, page) && Fresh(mem, root, spare) && Fresh(mem, k, spare)
    && va % 4096 == 0 && va < PAGE_TABLE_BASE && !Present(Pte(mem, root, va / 4096))
    && kva % 4096 == 0 && kva < PAGE_TABLE_BASE
    && Present(Pte(mem, root, kva / 4096)) && FrameOf(Pte(mem, root, kva / 4096)) == k
  }

  /** Builds a directory in frame page that shares the kernel's mappings. */
  method CreatePageDirectory(a: AddressSpace, ghost k: nat, va: nat, kva: nat, page: nat, spare: nat)
    requires Ready(a.mem, a.root, k, va, kva, page, spare)
    modifies a
    ensures a.Valid() && Pages(a.mem, a.root) == Pages(old(a.mem), a.root)
    ensures page < FRAMES && k < FRAMES && Filled(a.mem[page], a.mem[k], page) && SelfMapped(a.mem, page)
    ensures forall q | 0 <= q < 1023 * 1024 ::
              Pte(a.mem, page, q) == if Shared(q / 1024) then Pte(a.mem, k, q) else 0
    ensures Pages(a.mem, k) == Pages(old(a.mem), k)
    ensures Separate(a.mem, k) && Separate(a.mem, page)
    ensures forall va | 0 <= va < 0xffc0_0000 ::
              Walk(a.mem, page, va) == if 0x1000_0000 <= va < 0x1040_0000 || 0xbfc0_0000 <= va then Walk(a.mem, k, va)
                                       else None
    ensures Walk(a.mem, page, 0xffff_f000) == Some(page * 4096)
    ensures forall i | 0 <= i < 1024 ::
              a.mem[page][i] == if i == 1023 then page * 4096 + 1 else if i == 64 || 767 <= i then a.mem[k][i] else 0
  {
    hide Walk, Window, Pages, Pte, FrameOf, Present, Filled, PdeIndex, PteIndex, EntryFlags;
    ghost var m0 := a.mem;
    Indices(va);
    EntryWord(page * 4096, Flags(false, false, false));
    var ok := a.MapPage(va, page * 4096, Flags(false, false, false), spare);
    ghost var m1 := a.mem;
    WindowFromPte(m1, a.root, va);
    WindowFromPte(m1, a.root, kva);
    AfterMapping(m0, m1, a.root, k, va, kva, page, spare);
    FillDirectory(a, va, kva, page, k);
    ghost var m2 := a.mem;
    UnusedFrame(m1, m2, a.root, page);
    SamePages(m1, m2, a.root);
    ok := a.UnmapPage(va);
    AfterUnmapping(m0, m1, m2, a.mem, a.root, k, va, kva, page, spare);
    FilledTranslates(a.mem, page, k);
    KernelStays(m0, m1, m2, a.mem, a.root, k, va, kva, page, spare);
    FilledSeparate(a.mem, page, k);
    forall va | 0 <= va < 0xffc0_0000
      ensures Walk(a.mem, page, va) == if 0x1000_0000 <= va < 0x1040_0000 || 0xbfc0_0000 <= va then Walk(a.mem, k, va)
                                       else None
    {
      FilledWalks(a.mem, page, k, va);
    }
    SelfWalks(a.mem, page);
    FilledEntries(a.mem[page], a.mem[k], page);
  }

  /** m is m0 after mapPage has mapped frame page at va. */
  ghost predicate Mapped(m0: Memory, m: Memory, root: nat, va: nat, page: nat, spare: nat)
    requires WellFormed(m0) && WellFormed(m) && root < FRAMES && va < PAGE_TABLE_BASE && PdeIndex(va) < 1024
  {
    var i := PdeIndex(va);
    var was := m0[root][i];
    && Present(m[root][i])
    && FrameOf(m[root][i]) == (if Present(was) then FrameOf(was) else spare)
    && (forall f | 0 <= f < FRAMES && f != root && f != FrameOf(m[root][i]) :: m[f] == m0[f])
    && (forall j | 0 <= j < 1024 && j != i :: m[root][j] == m0[root][j])
    && (forall q | 0 <= q < 1023 * 1024 ::
          Pte(m, root, q) == if q == va / 4096 then page * 4096 + PRESENT + WRITABLE else Pte(m0, root, q))
  }

  lemma AfterMapping(m0: Memory, m1: Memory, root: nat, k: nat, va: nat, kva: nat, page: nat, spare: nat)
    requires Ready(m0, root, k, va, kva, page, spare) && Separate(m1, root)
    requires PdeIndex(va) < 1024 && Mapped(m0, m1, root, va, page, spare)
    ensures NoTable(m1, root, page) && Window(m1, root, va, page) && Window(m1, root, kva, k)
    ensures PdeIndex(kva) < 1023
    ensures FrameOf(m1[root][PdeIndex(va)]) != page && FrameOf(m1[root][PdeIndex(kva)]) != page
    ensures FrameOf(m1[root][PdeIndex(va)]) != k && k < FRAMES
  {
    Indices(va);
    Indices(kva);
    EntryWord(page * 4096, Flags(false, false, false));
    assert Present(Pte(m1, root, va / 4096)) && FrameOf(Pte(m1, root, va / 4096)) == page;
    WindowFromPte(m1, root, va);
    WindowFromPte(m1, root, kva);
  }

  lemma AfterUnmapping(m0: Memory, m1: Memory, m2: Memory, n: Memory,
                       root: nat, k: nat, va: nat, kva: nat, page: nat, spare: nat)
    requires Ready(m0, root, k, va, kva, page, spare) && Separate(m1, root)
    requires PdeIndex(va) < 1024 && PteIndex(va) < 1024 && Mapped(m0, m1, root, va, page, spare)
    requires WellFormed(m2) && forall g | 0 <= g < FRAMES && g != page :: m2[g] == m1[g]
    requires Filled(m2[page], m2[k], page)
    requires WellFormed(n) && n == Put(m2, FrameOf(m2[root][PdeIndex(va)]), PteIndex(va), WRITABLE)
    requires Pages(m1, root) == Pages(m0, root)[va / 4096 := page] && Pages(n, root) == Pages(m1, root) - {va / 4096}
    ensures page < FRAMES && k < FRAMES && Filled(n[page], n[k], page)
    ensures Pages(n, root) == Pages(m0, root) && Pages(n, k) == Pages(m0, k)
  {
    hide Pages, Pte, Present, PdeIndex, PteIndex, Window;
    var i := PdeIndex(va);
    Indices(va);
    AfterMapping(m0, m1, root, k, va, kva, page, spare);
    NotThere(m0, root, va / 4096);
    var t := FrameOf(m1[root][i]);
    assert m2[root] == m1[root] && t != root;
    TableContents(m0, m1, root, va, page, spare);
    assert n[t] == m1[t][PteIndex(va) := WRITABLE];
    KernelKeeps(m0, n, root, k, va, page, spare);
  }

  lemma KernelStays(m0: Memory, m1: Memory, m2: Memory, n: Memory,
                    root: nat, k: nat, va: nat, kva: nat, page: nat, spare: nat)
    requires Ready(m0, root, k, va, kva, page, spare) && Separate(m1, root) && Separate(n, root)
    requires PdeIndex(va) < 1024 && PteIndex(va) < 1024 && Mapped(m0, m1, root, va, page, spare)
    requires WellFormed(m2) && forall g | 0 <= g < FRAMES && g != page :: m2[g] == m1[g]
    requires n == Put(m2, FrameOf(m2[root][PdeIndex(va)]), PteIndex(va), WRITABLE)
    ensures Separate(n, k) && NoTable(n, k, page)
  {
    hide Pages, Pte, Present, FrameOf, PdeIndex, PteIndex, Window;
    Indices(va);
    AfterMapping(m0, m1, root, k, va, kva, page, spare);
    assert n[root] == m1[root];
    assert k != root ==> n[k] == m1[k] == m0[k];
    KernelSeparate(m0, n, root, k, page, spare);
  }

  lemma NotThere(m: Memory, root: nat, page: nat)
    requires WellFormed(m) && root < FRAMES && page < FRAMES && !Present(Pte(m, root, page))
    ensures page !in Pages(m, root)
  {
  }

  lemma TableContents(m0: Memory, m1: Memory, root: nat, va: nat, page: nat, spare: nat)
    requires Separate(m0, root) && WellFormed(m1) && va < PAGE_TABLE_BASE
    requires PdeIndex(va) < 1023 && PteIndex(va) < 1024 && Mapped(m0, m1, root, va, page, spare)
    ensures var i := PdeIndex(va);
            var t := FrameOf(m1[root][i]);
            t < FRAMES && forall x | 0 <= x < 1024 && x != PteIndex(va) ::
              m1[t][x] == if Present(m0[root][i]) then m0[t][x] else 0
  {
    Indices(va);
    var i := PdeIndex(va);
    var t := FrameOf(m1[root][i]);
    forall x | 0 <= x < 1024 && x != PteIndex(va)
      ensures m1[t][x] == if Present(m0[root][i]) then m0[t][x] else 0
    {
      var q := i * 1024 + x;
      assert q / 1024 == i && q % 1024 == x;
      assert Pte(m1, root, q) == Pte(m0, root, q);
    }
  }
}
