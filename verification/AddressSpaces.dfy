/** The operations of X86/PageDirectory.cc on the running address space. Every access to a
    directory or table goes through a virtual address and the MMU walk. */
module AddressSpaces {
  import opened Division
  import opened PageTables
  import opened Sequences

  function EntryFlags(flags: Flags): nat {
    WRITABLE
    + (if flags.uncacheable then DONT_CACHE else 0)
    + (if flags.user then USER else 0)
    + (if flags.lazy then LAZY else PRESENT)
  }

  class AddressSpace {
    var mem: Memory
    /** The frame that CR3 names. */
    const root: nat

    ghost predicate Valid()
      reads this
    {
      Separate(mem, root)
    }

    /** A load; the walk must not fault. */
    method Load(va: nat) returns (w: nat)
      requires WellFormed(mem) && root < FRAMES && va < 0x1_0000_0000 && va % 4 == 0
      requires Walk(mem, root, va).Some?
      ensures var pa := Walk(mem, root, va).value;
              w == mem[pa / 4096][pa % 4096 / 4]
    {
      var pa := Walk(mem, root, va).value;
      w := mem[pa / 4096][pa % 4096 / 4];
    }

    method Store(va: nat, w: nat)
      requires WellFormed(mem) && root < FRAMES && va < 0x1_0000_0000 && va % 4 == 0
      requires Walk(mem, root, va).Some? && w < 0x1_0000_0000
      modifies this
      ensures var pa := Walk(old(mem), root, va).value;
              mem == Put(old(mem), pa / 4096, pa % 4096 / 4, w)
      ensures WellFormed(mem)
    {
      var pa := Walk(mem, root, va).value;
      mem := Put(mem, pa / 4096, pa % 4096 / 4, w);
    }

    /** Loading and storing directory and table entries through the self-map. */
    method LoadPde(va: nat) returns (w: nat)
      requires Valid() && va < 0x1_0000_0000
      ensures w == mem[root][PdeIndex(va)]
    {
      hide Walk, PdeIndex, PteIndex, AddressToPde;
      PdeThroughSelfMap(mem, root, va);
      Indices(va);
      PhysicalSplit(root, 4 * PdeIndex(va));
      w := Load(AddressToPde(va));
    }

    method LoadPte(va: nat) returns (w: nat)
      requires Valid() && va < 0x1_0000_0000 && Present(mem[root][PdeIndex(va)])
      ensures w == mem[FrameOf(mem[root][PdeIndex(va)])][PteIndex(va)]
    {
      hide Walk, PdeIndex, PteIndex, AddressToPte;
      PteThroughSelfMap(mem, root, va);
      Indices(va);
      PhysicalSplit(FrameOf(mem[root][PdeIndex(va)]), 4 * PteIndex(va));
      w := Load(AddressToPte(va));
    }

    method StorePde(va: nat, w: nat)
      requires Valid() && va < 0x1_0000_0000 && w < 0x1_0000_0000
      modifies this
      ensures mem == Put(old(mem), root, PdeIndex(va), w) && WellFormed(mem)
    {
      hide Walk, PdeIndex, PteIndex, AddressToPde;
      PdeThroughSelfMap(mem, root, va);
      Indices(va);
      PhysicalSplit(root, 4 * PdeIndex(va));
      Store(AddressToPde(va), w);
    }

    method StorePteWord(va: nat, w: nat)
      requires Valid() && va < 0x1_0000_0000 && w < 0x1_0000_0000 && Present(mem[root][PdeIndex(va)])
      modifies this
      ensures mem == Put(old(mem), FrameOf(old(mem)[root][PdeIndex(va)]), PteIndex(va), w) && WellFormed(mem)
    {
      hide Walk, PdeIndex, PteIndex, AddressToPte;
      PteThroughSelfMap(mem, root, va);
      Indices(va);
      PhysicalSplit(FrameOf(mem[root][PdeIndex(va)]), 4 * PteIndex(va));
      Store(AddressToPte(va), w);
    }

    /** Stores a zero in word k of frame f, through the page at base. */
    method ClearWord(base: nat, f: nat, k: nat)
      requires WellFormed(mem) && root < FRAMES && f < FRAMES && k < 1024
      requires base % 4096 == 0 && base < 0x1_0000_0000
      requires Present(mem[root][PdeIndex(base)])
      requires var t := FrameOf(mem[root][PdeIndex(base)]);
               Present(mem[t][PteIndex(base)]) && FrameOf(mem[t][PteIndex(base)]) == f
      modifies this
      ensures mem == Put(old(mem), f, k, 0) && WellFormed(mem)
    {
      hide Walk, PdeIndex, PteIndex, Present;
      WalkInPage(mem, root, base, 4 * k);
      PhysicalSplit(f, 4 * k);
      Store(base + 4 * k, 0);
    }

    /** memset(base, 0, PageSize) where base maps to frame f, which the walk itself does not use. */
    method ClearPage(base: nat, f: nat)
      requires WellFormed(mem) && root < FRAMES && f < FRAMES && f != root
      requires base % 4096 == 0 && base < 0x1_0000_0000
      requires Present(mem[root][PdeIndex(base)])
      requires var t := FrameOf(mem[root][PdeIndex(base)]);
               t != f && Present(mem[t][PteIndex(base)]) && FrameOf(mem[t][PteIndex(base)]) == f
      modifies this
      ensures mem == old(mem)[f := Zeros(1024)] && WellFormed(mem)
    {
      hide PdeIndex, PteIndex, Present;
      Indices(base);
      var k := 0;
      while k < 1024
        invariant 0 <= k <= 1024 && WellFormed(mem)
        invariant |mem| == |old(mem)| && forall g | 0 <= g < FRAMES && g != f :: mem[g] == old(mem)[g]
        invariant forall i | 0 <= i < k :: mem[f][i] == 0
      {
        ClearWord(base, f, k);
        k := k + 1;
      }
      assert mem[f] == Zeros(1024);
    }

    /** Lines 311-337: a missing table is installed and cleared through the self-map. */
    method EnsureTable(vAddress: nat, spare: nat)
      requires Valid() && vAddress < PAGE_TABLE_BASE && Fresh(mem, root, spare)
      modifies this
      ensures Valid() && Present(mem[root][PdeIndex(vAddress)])
      ensures forall q | 0 <= q < 1023 * 1024 :: Pte(mem, root, q) == Pte(old(mem), root, q)
      ensures Present(old(mem)[root][PdeIndex(vAddress)]) ==> mem == old(mem)
      ensures !Present(old(mem)[root][PdeIndex(vAddress)]) ==>
                mem == Put(old(mem), root, PdeIndex(vAddress), spare * 4096 + PRESENT + WRITABLE)[spare := Zeros(1024)]
    {
      hide Walk, AddressToPde, AddressToPte, Pte, PdeIndex, PteIndex;
      Indices(vAddress);
      TablePage(vAddress);
      var pde := LoadPde(vAddress);
      if !Present(pde) {
        StorePde(vAddress, spare * 4096 + PRESENT + WRITABLE);
        var newpte := AddressToPte(vAddress) - AddressToPte(vAddress) % 4096;
        InstalledEntry(old(mem), root, vAddress, spare, mem);
        ClearPage(newpte, spare);
        InstallTable(old(mem), root, PdeIndex(vAddress), spare, mem);
      }
    }

    /** Lines 339-342. */
    method GrantUser(vAddress: nat)
      requires Valid() && vAddress < PAGE_TABLE_BASE && Present(mem[root][PdeIndex(vAddress)])
      modifies this
      ensures Valid() && HasUser(mem[root][PdeIndex(vAddress)])
      ensures forall q | 0 <= q < 1023 * 1024 :: Pte(mem, root, q) == Pte(old(mem), root, q)
      ensures Present(mem[root][PdeIndex(vAddress)])
      ensures FrameOf(mem[root][PdeIndex(vAddress)]) == FrameOf(old(mem)[root][PdeIndex(vAddress)])
      ensures forall f | 0 <= f < FRAMES && f != root :: mem[f] == old(mem)[f]
      ensures forall j | 0 <= j < 1024 && j != PdeIndex(vAddress) :: mem[root][j] == old(mem)[root][j]
      ensures var was := old(mem)[root][PdeIndex(vAddress)];
              mem[root][PdeIndex(vAddress)] == if was / 4 % 2 == 0 then was + 4 else was
    {
      hide Walk, AddressToPde, AddressToPte, Pte, PteIndex;
      Indices(vAddress);
      var pde := LoadPde(vAddress);
      if !HasUser(pde) {
        StoreUserBit(mem, root, PdeIndex(vAddress));
        StorePde(vAddress, pde + USER);
      }
    }

    /** The five-argument mapPage. spare is the frame Memory::getPage hands out if it is asked.
        ok is false when the code panics because the page is already mapped. */
    method MapPage(vAddress: nat, pAddress: nat, flags: Flags, spare: nat) returns (ok: bool)
      requires Valid() && vAddress % 4096 == 0 && pAddress % 4096 == 0
      requires vAddress < PAGE_TABLE_BASE && pAddress < 0x1_0000_0000
      requires Fresh(mem, root, spare)
      modifies this
      ensures Valid()
      ensures ok == !Present(Pte(old(mem), root, vAddress / 4096))
      ensures forall q | 0 <= q < 1023 * 1024 ::
                Pte(mem, root, q) == if ok && q == vAddress / 4096 then pAddress + EntryFlags(flags) else Pte(old(mem), root, q)
      ensures var was := Pages(old(mem), root);
              Pages(mem, root) == if ok && !flags.lazy then was[vAddress / 4096 := pAddress / 4096] else was
      ensures var was := old(mem)[root][vAddress / 0x40_0000];
              var kept := if was % 2 == 1 then was else spare * 4096 + 3;
              mem[root][vAddress / 0x40_0000] == if flags.user && kept / 4 % 2 == 0 then kept + 4 else kept
      ensures ok ==> var w := mem[mem[root][vAddress / 0x40_0000] / 4096][vAddress / 4096 % 1024];
              && w / 4096 == pAddress / 4096
              && (w % 2 == 1 <==> !flags.lazy) && w / 2 % 2 == 1 && (w / 4 % 2 == 1 <==> flags.user)
              && w / 8 % 2 == 0 && (w / 16 % 2 == 1 <==> flags.uncacheable)
              && w / 32 % 2 == 0 && w / 64 % 2 == 0 && w / 128 % 2 == 0 && (w / 256 % 2 == 1 <==> flags.lazy)
              && w / 512 % 2 == 0 && w / 1024 % 2 == 0 && w / 2048 % 2 == 0
      ensures var i := PdeIndex(vAddress);
              var was := old(mem)[root][i];
              && Present(mem[root][i])
              && FrameOf(mem[root][i]) == (if Present(was) then FrameOf(was) else spare)
              && (forall f | 0 <= f < FRAMES && f != root && f != FrameOf(mem[root][i]) :: mem[f] == old(mem)[f])
              && (forall j | 0 <= j < 1024 && j != i :: mem[root][j] == old(mem)[root][j])
    {
      hide Walk, AddressToPde, AddressToPte, Pte, EntryFlags, HasUser, Present, FrameOf, Pages, PdeIndex, PteIndex;
      Indices(vAddress);
      EntryWord(pAddress, flags);
      EntryBits(pAddress, flags);
      EntryWord(spare * 4096, Flags(false, false, false));
      ghost var was := mem[root][PdeIndex(vAddress)];
      EnsureTable(vAddress, spare);
      ghost var kept := mem[root][PdeIndex(vAddress)];
      if flags.user {
        GrantUser(vAddress);
      }
      RawDirectory(vAddress, was, spare, kept, mem[root][PdeIndex(vAddress)], flags.user);
      PteMeans(mem, root, vAddress);
      var pte := LoadPte(vAddress);
      if Present(pte) {
        SamePages(old(mem), mem, root);
        return false;
      }
      PageTables.StorePte(mem, root, vAddress / 4096, pAddress + EntryFlags(flags));
      StorePteWord(vAddress, pAddress + EntryFlags(flags));
      MapPageInserts(old(mem), mem, root, vAddress / 4096, pAddress, flags);
      ok := true;
    }

    method UnmapPage(vAddress: nat) returns (ok: bool)
      requires Valid() && vAddress % 4096 == 0 && vAddress < PAGE_TABLE_BASE
      modifies this
      ensures Valid()
      ensures ok == Present(Pte(old(mem), root, vAddress / 4096))
      ensures !ok ==> mem == old(mem)
      ensures forall q | 0 <= q < 1023 * 1024 ::
                Pte(mem, root, q) == if ok && q == vAddress / 4096 then WRITABLE else Pte(old(mem), root, q)
      ensures Pages(mem, root) == if ok then Pages(old(mem), root) - {vAddress / 4096} else Pages(old(mem), root)
      ensures ok ==> var was := old(mem)[root][PdeIndex(vAddress)];
              Present(was) && mem == Put(old(mem), FrameOf(was), PteIndex(vAddress), WRITABLE)
      ensures ok ==> mem[mem[root][vAddress / 0x40_0000] / 4096][vAddress / 4096 % 1024] == 2
    {
      hide Walk, AddressToPde, AddressToPte, Pte, FrameOf, Pages;
      Indices(vAddress);
      PteMeans(mem, root, vAddress);
      var pde := LoadPde(vAddress);
      if !Present(pde) {
        return false;
      }
      var pte := LoadPte(vAddress);
      if !Present(pte) {
        return false;
      }
      PageTables.StorePte(mem, root, vAddress / 4096, WRITABLE);
      StorePteWord(vAddress, WRITABLE);
      UnmapPageDeletes(old(mem), mem, root, vAddress / 4096);
      RawDirectory(vAddress, pde, 0, pde, pde, false);
      ok := true;
    }

    method GetPageTableEntry(vAddress: nat) returns (w: nat)
      requires Valid() && vAddress % 4096 == 0 && vAddress < 0x1_0000_0000
      ensures w == Pte(mem, root, vAddress / 4096)
    {
      hide Walk, AddressToPde, AddressToPte, Pte;
      PteMeans(mem, root, vAddress);
      var pde := LoadPde(vAddress);
      if !Present(pde) {
        return 0;
      }
      w := LoadPte(vAddress);
    }

    /** For a mapped page this is its frame's address; for a lazily mapped one the address
        it was given, since the present bit is not looked at. */
    method GetPhysicalPage(vAddress: nat) returns (pa: nat)
      requires Valid() && vAddress % 4096 == 0 && vAddress < 0x1_0000_0000
      ensures pa == FrameOf(Pte(mem, root, vAddress / 4096)) * 4096
      ensures Walk(mem, root, vAddress).Some? ==> pa == Walk(mem, root, vAddress).value
    {
      WalkIsPte(mem, root, vAddress);
      var w := GetPageTableEntry(vAddress);
      pa := w - w % 4096;
    }

    method IsMapped(vAddress0: nat) returns (mapped: bool)
      requires Valid() && vAddress0 < 0x1_0000_0000
      ensures mapped == Walk(mem, root, vAddress0).Some?
      ensures mapped == Present(Pte(mem, root, vAddress0 / 4096))
    {
      WalkIsPte(mem, root, vAddress0);
      hide Walk, AddressToPde, AddressToPte, Pte;
      var vAddress := vAddress0 - vAddress0 % 4096;
      assert vAddress / 4096 == vAddress0 / 4096;
      PteMeans(mem, root, vAddress);
      var pde := LoadPde(vAddress);
      if !Present(pde) {
        return false;
      }
      var pte := LoadPte(vAddress);
      mapped := Present(pte);
    }
  }

  // ---------- the partial map ----------

  lemma WalkIsPte(mem: Memory, root: nat, va: nat)
    requires WellFormed(mem) && root < FRAMES && va < 0x1_0000_0000
    ensures var w := Pte(mem, root, va / 4096);
            Walk(mem, root, va) == if Present(w) then Some(FrameOf(w) * 4096 + va % 4096) else None
  {
    PteMeans(mem, root, va);
  }

  lemma SamePages(before: Memory, mem: Memory, root: nat)
    requires WellFormed(before) && WellFormed(mem) && root < FRAMES
    requires forall q | 0 <= q < 1023 * 1024 :: Pte(mem, root, q) == Pte(before, root, q)
    ensures Pages(mem, root) == Pages(before, root)
  {
  }

  /** What MapPage promises about entries makes it an insertion into the partial map,
      and a lazy mapping leaves the map alone. */
  lemma MapPageInserts(before: Memory, mem: Memory, root: nat, page: nat, pAddress: nat, flags: Flags)
    requires WellFormed(before) && WellFormed(mem) && root < FRAMES && page < 1023 * 1024
    requires pAddress % 4096 == 0 && pAddress < 0x1_0000_0000 && !Present(Pte(before, root, page))
    requires forall q | 0 <= q < 1023 * 1024 ::
               Pte(mem, root, q) == if q == page then pAddress + EntryFlags(flags) else Pte(before, root, q)
    ensures page !in Pages(before, root)
    ensures Pages(mem, root) == if flags.lazy then Pages(before, root) else Pages(before, root)[page := pAddress / 4096]
  {
    hide Pte, EntryFlags, Present, FrameOf;
    EntryWord(pAddress, flags);
  }

  lemma UnmapPageDeletes(before: Memory, mem: Memory, root: nat, page: nat)
    requires WellFormed(before) && WellFormed(mem) && root < FRAMES && page < 1023 * 1024
    requires forall q | 0 <= q < 1023 * 1024 ::
               Pte(mem, root, q) == if q == page then WRITABLE else Pte(before, root, q)
    ensures Pages(mem, root) == Pages(before, root) - {page}
  {
    hide Pte, FrameOf;
  }

  /** The word mapPage stores: the frame with the flags, present unless the mapping is lazy. */
  lemma EntryWord(pAddress: nat, flags: Flags)
    requires pAddress % 4096 == 0 && pAddress < 0x1_0000_0000
    ensures pAddress + EntryFlags(flags) < 0x1_0000_0000
    ensures Present(pAddress + EntryFlags(flags)) == !flags.lazy
    ensures FrameOf(pAddress + EntryFlags(flags)) == pAddress / 4096
    ensures HasUser(pAddress + EntryFlags(flags)) == flags.user
    ensures EntryFlags(Flags(false, false, false)) == PRESENT + WRITABLE
  {
    var f := pAddress / 4096;
    assert pAddress == 4096 * f;
    WordParts(f, EntryFlags(flags));
    assert EntryFlags(flags) % 2 == (if flags.lazy then 0 else 1) && EntryFlags(flags) / 4 % 2 == if flags.user then 1 else 0;
  }

  /** The directory entry and the place of the table entry in plain numbers. */
  lemma RawDirectory(va: nat, was: nat, spare: nat, kept: nat, now: nat, user: bool)
    requires kept == if Present(was) then was else spare * 4096 + PRESENT + WRITABLE
    requires now == if user && kept / 4 % 2 == 0 then kept + 4 else kept
    ensures PdeIndex(va) == va / 0x40_0000 && PteIndex(va) == va / 4096 % 1024 && FrameOf(now) == now / 4096
    ensures kept == if was % 2 == 1 then was else spare * 4096 + 3
  {
  }

  /** The same word bit by bit, as section 4.3 of the Intel SDM, volume 3A, numbers them. */
  lemma EntryBits(pAddress: nat, flags: Flags)
    requires pAddress % 4096 == 0
    ensures var w := pAddress + EntryFlags(flags);
            && w / 4096 == pAddress / 4096
            && (w % 2 == 1 <==> !flags.lazy) && w / 2 % 2 == 1 && (w / 4 % 2 == 1 <==> flags.user)
            && w / 8 % 2 == 0 && (w / 16 % 2 == 1 <==> flags.uncacheable)
            && w / 32 % 2 == 0 && w / 64 % 2 == 0 && w / 128 % 2 == 0 && (w / 256 % 2 == 1 <==> flags.lazy)
            && w / 512 % 2 == 0 && w / 1024 % 2 == 0 && w / 2048 % 2 == 0
  {
    var f, e := pAddress / 4096, EntryFlags(flags);
    assert pAddress == 4096 * f;
    FlagBits(flags);
    hide EntryFlags;
    WordParts(f, e);
    BitOf(f, e, 1, 2048);
    BitOf(f, e, 2, 1024);
    BitOf(f, e, 4, 512);
    BitOf(f, e, 8, 256);
    BitOf(f, e, 16, 128);
    BitOf(f, e, 32, 64);
    BitOf(f, e, 64, 32);
    BitOf(f, e, 128, 16);
    BitOf(f, e, 256, 8);
    BitOf(f, e, 512, 4);
    BitOf(f, e, 1024, 2);
    BitOf(f, e, 2048, 1);
  }

  lemma FlagBits(flags: Flags)
    ensures var e := EntryFlags(flags);
            && e < 4096
            && (e / 1 % 2 == 1 <==> !flags.lazy) && e / 2 % 2 == 1 && (e / 4 % 2 == 1 <==> flags.user)
            && e / 8 % 2 == 0 && (e / 16 % 2 == 1 <==> flags.uncacheable)
            && e / 32 % 2 == 0 && e / 64 % 2 == 0 && e / 128 % 2 == 0 && (e / 256 % 2 == 1 <==> flags.lazy)
            && e / 512 % 2 == 0 && e / 1024 % 2 == 0 && e / 2048 % 2 == 0
  {
    match flags
    case Flags(lazy, uncacheable, user) =>
      if lazy {
        if uncacheable {
          if user {} else {}
        } else {
          if user {} else {}
        }
      } else {
        if uncacheable {
          if user {} else {}
        } else {
          if user {} else {}
        }
      }
  }

  /** The bit of weight n, when the upper part is a multiple of 2 * n. */
  lemma BitOf(f: nat, e: nat, n: nat, m: nat)
    requires n > 0 && 4096 == n * (2 * m)
    ensures (4096 * f + e) / n % 2 == e / n % 2
  {
    var q, r := e / n, e % n;
    assert e == q * n + r;
    TimesAssociative(f, 2 * m, n);
    assert 4096 * f + e == (2 * (f * m) + q) * n + r;
    Remainder(4096 * f + e, n, 2 * (f * m) + q, r);
    Parity(f * m, q);
  }

  lemma WordParts(f: nat, e: nat)
    requires e < 4096
    ensures (4096 * f + e) / 4096 == f && (4096 * f + e) % 2 == e % 2 && (4096 * f + e) / 4 % 2 == e / 4 % 2
  {
    Parity(2048 * f, e);
    Quarter(f, e);
    Parity(512 * f, e / 4);
  }

  lemma Parity(y: nat, x: nat)
    ensures (2 * y + x) % 2 == x % 2
  {
  }

  lemma Quarter(f: nat, e: nat)
    requires e < 4096
    ensures (4096 * f + e) / 4 == 1024 * f + e / 4 && (4096 * f + e) / 4096 == f
  {
  }

  lemma PhysicalSplit(f: nat, d: nat)
    requires d < 4096
    ensures (f * 4096 + d) / 4096 == f && (f * 4096 + d) % 4096 == d
  {
  }

  lemma PteMeans(mem: Memory, root: nat, va: nat)
    requires WellFormed(mem) && root < FRAMES && va < 0x1_0000_0000
    ensures var pde := mem[root][PdeIndex(va)];
            Pte(mem, root, va / 4096) == if Present(pde) then mem[FrameOf(pde)][PteIndex(va)] else 0
  {
    Indices(va);
  }

  lemma WalkInPage(mem: Memory, root: nat, base: nat, d: nat)
    requires WellFormed(mem) && root < FRAMES && base % 4096 == 0 && base < 0x1_0000_0000 && d < 4096
    requires Present(mem[root][PdeIndex(base)])
    requires Present(mem[FrameOf(mem[root][PdeIndex(base)])][PteIndex(base)])
    ensures base + d < 0x1_0000_0000
    ensures Walk(mem, root, base + d) == Some(FrameOf(mem[FrameOf(mem[root][PdeIndex(base)])][PteIndex(base)]) * 4096 + d)
  {
    var p := base / 4096;
    assert base == 4096 * p;
    assert (base + d) / 4096 == p && (base + d) / 0x40_0000 == p / 1024 && base / 0x40_0000 == p / 1024;
  }

  /** Rounding the address of a table entry down gives the page of its table in the self-map. */
  lemma TablePage(va: nat)
    requires va < PAGE_TABLE_BASE
    ensures var base := AddressToPte(va) - AddressToPte(va) % 4096;
            && base == PAGE_TABLE_BASE + PdeIndex(va) * 0x1000 && base < 0x1_0000_0000 && base % 4096 == 0
            && PdeIndex(base) == 1023 && PteIndex(base) == PdeIndex(va) && PdeIndex(va) < 1023
  {
    Indices(va);
    var i, k := PdeIndex(va), PteIndex(va);
    assert AddressToPte(va) == 4096 * (0xffc00 + i) + 4 * k;
    assert AddressToPte(va) % 4096 == 4 * k;
    var base := PAGE_TABLE_BASE + i * 0x1000;
    assert base == 4096 * (0xffc00 + i);
    assert base / 4096 == 0xffc00 + i && 0xffc00 == 1023 * 1024;
  }

  /** After the new directory entry is stored, the table's page in the self-map is the fresh frame. */
  lemma InstalledEntry(mem: Memory, root: nat, va: nat, f: nat, next: Memory)
    requires Separate(mem, root) && va < PAGE_TABLE_BASE && Fresh(mem, root, f)
    requires WellFormed(next) && next == Put(mem, root, PdeIndex(va), f * 4096 + PRESENT + WRITABLE)
    ensures var base := AddressToPte(va) - AddressToPte(va) % 4096;
            && base < 0x1_0000_0000 && base % 4096 == 0
            && PdeIndex(base) == 1023 && PteIndex(base) == PdeIndex(va) && PdeIndex(va) < 1023
            && Present(next[root][1023]) && FrameOf(next[root][1023]) == root
            && Present(next[root][PdeIndex(va)]) && FrameOf(next[root][PdeIndex(va)]) == f
  {
    hide PdeIndex, PteIndex, AddressToPte;
    hide Present, FrameOf;
    TablePage(va);
    NewEntry(f);
  }

  lemma NewEntry(f: nat)
    ensures Present(f * 4096 + PRESENT + WRITABLE) && FrameOf(f * 4096 + PRESENT + WRITABLE) == f
  {
  }
}
