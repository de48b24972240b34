/** Two-level page tables of X86/PageDirectory.cc, edited through their own self-map
    (32-bit paging, section 4.3 of the Intel SDM, volume 3A). */
module PageTables {
  import opened Sequences

  const PAGE_TABLE_BASE: nat := 0xffc0_0000
  const PAGE_DIRECTORY_BASE: nat := 0xffff_f000
  const FRAMES: nat := 0x10_0000

  const PRESENT: nat := 1
  const WRITABLE: nat := 2
  const USER: nat := 4
  const DONT_CACHE: nat := 16
  const LAZY: nat := 256

  /** Physical memory: FRAMES frames of 1024 words. */
  type Memory = seq<seq<nat>>

  datatype Flags = Flags(lazy: bool, uncacheable: bool, user: bool)

  ghost predicate WellFormed(mem: Memory) {
    && |mem| == FRAMES
    && (forall f | 0 <= f < FRAMES :: |mem[f]| == 1024)
    && (forall f, i | 0 <= f < FRAMES && 0 <= i < 1024 :: mem[f][i] < 0x1_0000_0000)
  }

  predicate Present(w: nat) {
    w % 2 == 1
  }

  predicate HasUser(w: nat) {
    w / USER % 2 == 1
  }

  function FrameOf(w: nat): nat {
    w / 4096
  }

  function PdeIndex(address: nat): nat {
    address / 0x40_0000
  }

  function PteIndex(address: nat): nat {
    address / 4096 % 1024
  }

  function AddressToPde(address: nat): nat {
    PAGE_DIRECTORY_BASE + PdeIndex(address) * 4
  }

  function AddressToPte(address: nat): nat {
    PAGE_TABLE_BASE + PdeIndex(address) * 0x1000 + PteIndex(address) * 4
  }

  // ---------- the processor's view ----------

  /** What the MMU makes of a virtual address: a physical one, or a fault. */
  function Walk(mem: Memory, root: nat, va: nat): (pa: Option<nat>)
    requires WellFormed(mem) && root < FRAMES && va < 0x1_0000_0000
    ensures pa.Some? ==> pa.value < 0x1_0000_0000
  {
    var pde := mem[root][va / 0x40_0000];
    if !Present(pde) then None
    else
      var pte := mem[FrameOf(pde)][va / 4096 % 1024];
      if !Present(pte) then None else Some(FrameOf(pte) * 4096 + va % 4096)
  }

  function Put(mem: Memory, f: nat, i: nat, w: nat): Memory
    requires f < |mem| && i < |mem[f]|
  {
    var frame: seq<nat> := mem[f][i := w];
    mem[f := frame]
  }

  function Zeros(n: nat): (z: seq<nat>)
    ensures |z| == n && forall k | 0 <= k < n :: z[k] == 0
  {
    Fill<nat>(0, n)
  }

  // ---------- the plain view of one directory ----------

  /** The page-table entry of a page, or 0 when its table is missing. */
  ghost function Pte(mem: Memory, root: nat, page: nat): nat
    requires WellFormed(mem) && root < FRAMES && page < FRAMES
  {
    var pde := mem[root][page / 1024];
    if Present(pde) then mem[FrameOf(pde)][page % 1024] else 0
  }

  /** The partial map from pages to frames, outside the self-map. */
  ghost function Pages(mem: Memory, root: nat): map<nat, nat>
    requires WellFormed(mem) && root < FRAMES
  {
    map q: nat | 0 <= q < 1023 * 1024 && Present(Pte(mem, root, q)) :: FrameOf(Pte(mem, root, q))
  }

  ghost predicate SelfMapped(mem: Memory, root: nat)
    requires WellFormed(mem) && root < FRAMES
  {
    Present(mem[root][1023]) && FrameOf(mem[root][1023]) == root
  }

  /** The directory maps itself at slot 1023, and no frame serves as two of its tables. */
  ghost predicate Separate(mem: Memory, root: nat) {
    && WellFormed(mem) && root < FRAMES && SelfMapped(mem, root)
    && (forall i | 0 <= i < 1023 && Present(mem[root][i]) :: FrameOf(mem[root][i]) != root)
    && (forall i, j | 0 <= i < j < 1023 && Present(mem[root][i]) && Present(mem[root][j]) ::
          FrameOf(mem[root][i]) != FrameOf(mem[root][j]))
  }

  /** f is neither the directory nor one of its tables. */
  ghost predicate Fresh(mem: Memory, root: nat, f: nat)
    requires WellFormed(mem) && root < FRAMES
  {
    && 0 < f < FRAMES && f != root
    && forall i | 0 <= i < 1024 && Present(mem[root][i]) :: FrameOf(mem[root][i]) != f
  }

  // ---------- the self-map ----------

  lemma Indices(va: nat)
    requires va < 0x1_0000_0000
    ensures PdeIndex(va) < 1024 && PteIndex(va) < 1024
    ensures va / 4096 < FRAMES && va / 4096 / 1024 == PdeIndex(va) && va / 4096 % 1024 == PteIndex(va)
  {
  }

  /** The address the code computes for a directory entry reaches exactly that entry. */
  lemma PdeThroughSelfMap(mem: Memory, root: nat, va: nat)
    requires WellFormed(mem) && root < FRAMES && SelfMapped(mem, root) && va < 0x1_0000_0000
    ensures AddressToPde(va) < 0x1_0000_0000 && AddressToPde(va) % 4 == 0
    ensures Walk(mem, root, AddressToPde(va)) == Some(root * 4096 + 4 * PdeIndex(va))
  {
    var a := AddressToPde(va);
    Indices(va);
    assert a / 0x40_0000 == 1023 && a / 4096 % 1024 == 1023 && a % 4096 == 4 * PdeIndex(va);
  }

  /** The address computed for a table entry reaches it when the table is there, and faults otherwise. */
  lemma PteThroughSelfMap(mem: Memory, root: nat, va: nat)
    requires WellFormed(mem) && root < FRAMES && SelfMapped(mem, root) && va < 0x1_0000_0000
    ensures AddressToPte(va) < 0x1_0000_0000 && AddressToPte(va) % 4 == 0
    ensures var pde := mem[root][PdeIndex(va)];
            Walk(mem, root, AddressToPte(va))
            == if Present(pde) then Some(FrameOf(pde) * 4096 + 4 * PteIndex(va)) else None
  {
    SelfMapWord(mem, root, PdeIndex(va), PteIndex(va));
  }

  lemma SelfMapWord(mem: Memory, root: nat, i: nat, k: nat)
    requires WellFormed(mem) && root < FRAMES && SelfMapped(mem, root) && i < 1024 && k < 1024
    ensures var a := PAGE_TABLE_BASE + i * 0x1000 + k * 4;
            && a < 0x1_0000_0000 && a % 4 == 0
            && Walk(mem, root, a) == if Present(mem[root][i]) then Some(FrameOf(mem[root][i]) * 4096 + 4 * k) else None
  {
    var a := PAGE_TABLE_BASE + i * 0x1000 + k * 4;
    assert a / 0x40_0000 == 1023 && a / 4096 % 1024 == i && a % 4096 == 4 * k;
  }

  // ---------- effects of single stores on the plain view ----------

  /** Storing a table entry changes that entry and nothing else. */
  lemma StorePte(mem: Memory, root: nat, page: nat, w: nat)
    requires Separate(mem, root) && page < 1023 * 1024 && Present(mem[root][page / 1024]) && w < 0x1_0000_0000
    ensures var next := Put(mem, FrameOf(mem[root][page / 1024]), page % 1024, w);
            && Separate(next, root)
            && (forall i | 0 <= i < 1024 :: next[root][i] == mem[root][i])
            && forall q | 0 <= q < 1023 * 1024 :: Pte(next, root, q) == if q == page then w else Pte(mem, root, q)
  {
    var t := FrameOf(mem[root][page / 1024]);
    assert t != root;
    var next := Put(mem, t, page % 1024, w);
    assert next[root] == mem[root];
    forall q | 0 <= q < 1023 * 1024
      ensures Pte(next, root, q) == if q == page then w else Pte(mem, root, q)
    {
      if q / 1024 != page / 1024 && Present(mem[root][q / 1024]) {
        assert FrameOf(mem[root][q / 1024]) != t;
      }
    }
  }

  /** Setting the user bit of a directory entry changes no table entry. */
  lemma StoreUserBit(mem: Memory, root: nat, i: nat)
    requires Separate(mem, root) && i < 1023 && Present(mem[root][i]) && !HasUser(mem[root][i])
    ensures mem[root][i] + USER < 0x1_0000_0000
    ensures var next := Put(mem, root, i, mem[root][i] + USER);
            && Separate(next, root) && HasUser(next[root][i])
            && Present(next[root][i]) && FrameOf(next[root][i]) == FrameOf(mem[root][i])
            && forall q | 0 <= q < 1023 * 1024 :: Pte(next, root, q) == Pte(mem, root, q)
  {
    var w := mem[root][i];
    UserBit(w);
    var next := Put(mem, root, i, w + USER);
    assert forall j | 0 <= j < 1024 && j != i :: next[root][j] == mem[root][j];
    forall q | 0 <= q < 1023 * 1024
      ensures Pte(next, root, q) == Pte(mem, root, q)
    {
      assert Present(mem[root][q / 1024]) ==> FrameOf(mem[root][q / 1024]) != root;
    }
  }

  lemma UserBit(w: nat)
    requires w < 0x1_0000_0000 && Present(w) && !HasUser(w)
    ensures w + USER < 0x1_0000_0000 && Present(w + USER) && HasUser(w + USER) && FrameOf(w + USER) == FrameOf(w)
  {
    hide FrameOf;
    BitClear(w);
    BitStep(w, w / 8, w % 8);
    SameEighth(w, w + USER);
  }

  lemma SameEighth(w: nat, x: nat)
    requires w / 8 == x / 8
    ensures FrameOf(w) == FrameOf(x)
  {
    Eighths(w);
    Eighths(x);
  }

  lemma BitClear(w: nat)
    requires w / 4 % 2 == 0
    ensures w % 8 < 4 && w == 8 * (w / 8) + w % 8
  {
    assert w / 4 == 2 * (w / 8) + w % 8 / 4;
  }

  lemma BitStep(w: nat, a: nat, b: nat)
    requires w == 8 * a + b && b < 4
    ensures (w + 4) / 8 == a && (w + 4) / 4 == 2 * a + 1 && (w + 4) % 2 == w % 2
    ensures w < 0x1_0000_0000 ==> w + 4 < 0x1_0000_0000
  {
  }

  lemma Eighths(w: nat)
    ensures w / 4096 == w / 8 / 512
  {
  }

  /** Installing a cleared fresh frame as a missing table changes no table entry. */
  lemma InstallTable(mem: Memory, root: nat, i: nat, f: nat, next: Memory)
    requires Separate(mem, root) && i < 1023 && !Present(mem[root][i]) && Fresh(mem, root, f)
    requires WellFormed(next)
    requires next == Put(mem, root, i, f * 4096 + PRESENT + WRITABLE)[f := Zeros(1024)]
    ensures Separate(next, root) && Present(next[root][i]) && FrameOf(next[root][i]) == f
    ensures forall q | 0 <= q < 1023 * 1024 :: Pte(next, root, q) == Pte(mem, root, q)
  {
    var w := f * 4096 + PRESENT + WRITABLE;
    assert FrameOf(w) == f && Present(w);
    assert next[root] == mem[root][i := w] && next[f] == Zeros(1024);
    assert forall j | 0 <= j < 1024 && j != i :: next[root][j] == mem[root][j];
    assert SelfMapped(next, root);
    forall q | 0 <= q < 1023 * 1024
      ensures Pte(next, root, q) == Pte(mem, root, q)
    {
      var j := q / 1024;
      if j != i && Present(mem[root][j]) {
        assert FrameOf(mem[root][j]) != f && FrameOf(mem[root][j]) != root;
      }
    }
  }
}
