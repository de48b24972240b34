/** uiomove_faultflag of BsdSupport/subr_uio.c: moving bytes between a buffer
    and the byte vector of a uio. */
module UserIo {
  import opened IoTransfers
  import opened ScatterGather
  import opened Sequences

  const EFAULT: nat := 14

  /** Some of the iovecs from k on, taken from the front, have r bytes together. */
  predicate Boundary(v: seq<Iovec>, k: nat, r: nat)
    requires k <= |v|
    decreases |v| - k
  {
    r == 0 || (k < |v| && v[k].len <= r && Boundary(v, k + 1, r - v[k].len))
  }

  /** How many bytes are moved when n are asked for and uio_resid is resid: the
      loop only notices that uio_resid is used up at the end of an iovec. */
  function Total(v: seq<Iovec>, k: nat, resid: int, n: int): nat
    requires k <= |v|
  {
    if n <= 0 || resid == 0 then 0
    else if n > resid > 0 && Boundary(v, k, resid) then resid
    else n
  }

  lemma {:induction false} WholeVector(v: seq<Iovec>, k: nat)
    requires k <= |v|
    ensures Boundary(v, k, |Addresses(v[k..])|)
    decreases |v| - k
  {
    if k == |v| {
      NoneLeft(v, k);
    } else {
      AddressesStep(v, k);
      WholeVector(v, k + 1);
    }
  }

  function Wanted(n: int): nat {
    if n < 0 then 0 else n
  }

  /** The smaller of the request and uio_resid is moved if and only if the
      request is no larger, or uio_resid ends at the end of an iovec. */
  lemma MovesTheSmaller(v: seq<Iovec>, k: nat, resid: nat, n: int)
    requires k <= |v|
    ensures Total(v, k, resid, n) == Least(Wanted(n), resid) <==> n <= resid || Boundary(v, k, resid)
    ensures resid == |Addresses(v[k..])| ==> Total(v, k, resid, n) == Least(Wanted(n), resid)
  {
    WholeVector(v, k);
  }

  lemma {:induction false} BoundaryTail(v: seq<Iovec>, w: seq<Iovec>, k: nat, r: nat)
    requires k <= |v| == |w| && v[k..] == w[k..]
    ensures Boundary(v, k, r) == Boundary(w, k, r)
    decreases |v| - k
  {
    if k < |v| {
      assert v[k] == v[k..][0] && w[k] == w[k..][0];
      assert v[k + 1..] == v[k..][1..] && w[k + 1..] == w[k..][1..];
      if v[k].len <= r {
        BoundaryTail(v, w, k + 1, r - v[k].len);
      }
    }
  }

  lemma TotalOfEmpty(v: seq<Iovec>, k: nat, resid: int, n: int)
    requires k < |v| && v[k].len == 0
    ensures Total(v, k, resid, n) == Total(v, k + 1, resid, n)
  {
  }

  /** A block is never more than is still to be moved, and takes just its share. */
  lemma TotalOfBlock(v: seq<Iovec>, k: nat, resid: int, n: nat, c: nat)
    requires k < |v| && resid != 0 && c == Least(v[k].len, n) && c > 0
    ensures c <= Total(v, k, resid, n) && c == Least(v[k].len, Total(v, k, resid, n))
    ensures Total(Shorten(v, k, c), k, resid - c, n - c) == Total(v, k, resid, n) - c
  {
    var w := Shorten(v, k, c);
    assert w[k + 1..] == v[k + 1..];
    if resid > 0 {
      assert Boundary(v, k, resid) ==> v[k].len <= resid;
    }
    if resid - c > 0 {
      var rest: nat := resid - c;
      BoundaryTail(v, w, k + 1, rest);
      assert w[k].len == v[k].len - c;
      assert c == v[k].len ==> Boundary(w, k, rest) == Boundary(v, k, resid);
    } else if resid == c == v[k].len {
      assert Boundary(v, k + 1, 0) && Boundary(v, k, resid);
    }
  }

  lemma NoneLeft(v: seq<Iovec>, k: nat)
    requires k <= |v|
    ensures k < |v| || Addresses(v[k..]) == []
  {
    if k == |v| {
      assert v[k..] == [];
    }
  }

  lemma EmptyIovec(v: seq<Iovec>, k: nat, n: nat)
    requires k < |v| && v[k].len == 0 && n > 0
    ensures Addresses(v[k..]) == Addresses(v[k + 1..])
    ensures Advance(v, k, n) == Advance(v, k + 1, n)
  {
    AddressesStep(v, k);
    assert Range(v[k].base, 0) == [];
  }

  lemma PartOfIovec(v: seq<Iovec>, k: nat, n: nat, c: nat)
    requires k < |v| && v[k].len > 0 && n > 0 && c == Least(v[k].len, n)
    ensures Addresses(v[k..]) == Range(v[k].base, c) + Addresses(Shorten(v, k, c)[k..])
    ensures Advance(v, k, n) == Advance(Shorten(v, k, c), k, n - c)
  {
    AddressesShorten(v, k, c);
  }

  /** What is at the front of the rest stands at j in the whole. */
  lemma FrontOfRest(all: seq<nat>, j: nat, block: seq<nat>, rest: seq<nat>)
    requires j <= |all| && all[j..] == block + rest
    ensures j + |block| <= |all| && all[j..j + |block|] == block && all[j + |block|..] == rest
  {
    assert all[j..j + |block|] == all[j..][..|block|];
    assert all[j + |block|..] == all[j..][|block|..];
  }

  class Uio {
    var iov: array<Iovec>
    var first: nat
    var iovcnt: int
    var resid: int
    var offset: int
    const seg: Segment
    const rw: Direction

    constructor (iov: array<Iovec>, resid: int, offset: int, seg: Segment, rw: Direction)
      ensures this.iov == iov && first == 0 && iovcnt == iov.Length
      ensures this.resid == resid && this.offset == offset && this.seg == seg && this.rw == rw
    {
      this.iov, first, iovcnt := iov, 0, iov.Length;
      this.resid, this.offset, this.seg, this.rw := resid, offset, seg, rw;
    }

    /** The addresses still to be visited. */
    ghost function Left(): seq<nat>
      reads this, iov
      requires first <= iov.Length
    {
      Addresses(iov[first..])
    }

    ghost predicate Counts()
      reads this`first, this`iov, this`iovcnt
    {
      first <= iov.Length && iovcnt == iov.Length - first
    }

    ghost function Asked(n: int): nat
      reads this, iov
      requires first <= iov.Length
    {
      Total(iov[..], first, resid, n)
    }

    /** copyout, copyin or bcopy of a block, as the segment asks; a fault in
        user space copies nothing. */
    method Copy(mem: array<char>, base: nat, cp: nat, cnt: nat, faults: set<nat>) returns (error: nat)
      requires Accessible(mem[..], Range(base, cnt), cp, seg) && cnt > 0
      modifies mem
      ensures error == 0 ==> mem[..] == Transferred(old(mem[..]), Range(base, cnt), cp, rw, seg)
      ensures error != 0 ==> mem[..] == old(mem[..]) && error == EFAULT && seg == UserSpace
      ensures error != 0 ==> exists i :: 0 <= i < cnt && Range(base, cnt)[i] in faults
      ensures error == 0 && seg == UserSpace ==> forall i :: 0 <= i < cnt ==> Range(base, cnt)[i] !in faults
    {
      error := 0;
      match seg {
        case UserSpace =>
          if exists a :: base <= a < base + cnt && a in faults {
            ghost var a :| base <= a < base + cnt && a in faults;
            assert Range(base, cnt)[a - base] in faults;
            return EFAULT;
          }
          CopyBlock(mem, base, cp, cnt, rw);
        case SysSpace => CopyBlock(mem, base, cp, cnt, rw);
        case NoCopy =>
      }
    }

    /** Lines 203 to 207. */
    method TakeFront(cnt: nat)
      requires first < iov.Length && cnt <= iov[first].len
      modifies this`resid, this`offset, iov
      ensures iov[..] == Shorten(old(iov[..]), first, cnt)
      ensures resid == old(resid) - cnt && offset == old(offset) + cnt
    {
      iov[first] := Iovec(iov[first].base + cnt, iov[first].len - cnt);
      resid := resid - cnt;
      offset := offset + cnt;
    }

    /** Lines 182 to 209, for a part of the current iovec that is not empty. */
    method MoveBlock(mem: array<char>, cp: nat, cnt: nat, faults: set<nat>, ghost cp0: nat,
                     ghost was: seq<char>, ghost all: seq<nat>, ghost m: nat, ghost moved: nat)
      returns (error: nat)
      requires first < iov.Length && moved <= m <= |all| && Left() == all[moved..]
      requires cnt > 0 && cnt == Least(iov[first].len, m - moved)
      requires cp == cp0 + moved && Accessible(was, all[..m], cp0, seg)
      requires MovedTo(was, all, moved, cp0, rw, seg, mem[..])
      modifies this`resid, this`offset, iov, mem
      ensures if error == 0 then
                && moved + cnt <= |all| && Left() == all[moved + cnt..]
                && MovedTo(was, all, moved + cnt, cp0, rw, seg, mem[..])
                && resid == old(resid) - cnt && offset == old(offset) + cnt
                && iov[..] == Shorten(old(iov[..]), first, cnt)
                && Advance(old(iov[..]), first, m - moved) == Advance(iov[..], first, m - moved - cnt)
                && (seg == UserSpace ==> forall i :: moved <= i < moved + cnt ==> all[i] !in faults)
              else
                && error == EFAULT && seg == UserSpace
                && iov[..] == old(iov[..]) && mem[..] == old(mem[..])
                && resid == old(resid) && offset == old(offset)
                && exists i :: moved <= i < m && all[i] in faults
    {
      hide MovedTo, Accessible, Transferred, Addresses, Advance, Shorten, Range;
      var base := iov[first].base;
      PartOfIovec(iov[..], first, m - moved, cnt);
      FrontOfRest(all, moved, Range(base, cnt), Addresses(Shorten(iov[..], first, cnt)[first..]));
      BlockMoves(was, all, m, moved, base, cnt, cp0, rw, seg, mem[..]);
      error := Copy(mem, base, cp, cnt, faults);
      if error != 0 {
        Faulted(all, moved, base, cnt, m, faults);
      } else {
        if seg == UserSpace {
          NoneFaulted(all, moved, base, cnt, faults);
        }
        TakeFront(cnt);
      }
    }

    /** The state of the loop when `moved` bytes have been moved of m and n are
        still asked for. */
    ghost predicate Going(mem: array<char>, was: seq<char>, all: seq<nat>, goal: (seq<Iovec>, nat), m: nat,
                          resid0: int, offset0: int, cp0: nat, moved: nat, n: int, faults: set<nat>)
      reads this, iov, mem
    {
      && Counts() && moved <= m <= |all| && Left() == all[moved..]
      && m - moved == Total(iov[..], first, resid, n)
      && resid == resid0 - moved && offset == offset0 + moved
      && MovedTo(was, all, moved, cp0, rw, seg, mem[..])
      && goal == Advance(iov[..], first, m - moved)
      && (seg == UserSpace ==> forall i :: 0 <= i < moved ==> all[i] !in faults)
    }

    /** Lines 172 to 209: an empty iovec is passed over, or a block moved. */
    method MoveSome(mem: array<char>, cp: nat, n: nat, faults: set<nat>, ghost was: seq<char>, ghost all: seq<nat>,
                    ghost goal: (seq<Iovec>, nat), ghost m: nat, ghost resid0: int, ghost offset0: int,
                    ghost cp0: nat, ghost moved: nat)
      returns (error: nat, cnt: nat)
      requires n > 0 && resid != 0 && cp == cp0 + moved
      requires Going(mem, was, all, goal, m, resid0, offset0, cp0, moved, n, faults)
      requires Accessible(was, all[..m], cp0, seg)
      modifies this`first, this`iovcnt, this`resid, this`offset, iov, mem
      ensures error == 0 ==>
                && Going(mem, was, all, goal, m, resid0, offset0, cp0, moved + cnt, n - cnt, faults)
                && cnt <= n && first == if cnt == 0 then old(first) + 1 else old(first)
      ensures error != 0 ==>
                && Going(mem, was, all, goal, m, resid0, offset0, cp0, moved, n, faults)
                && error == EFAULT && seg == UserSpace && moved < m
                && exists i :: moved <= i < m && all[i] in faults
    {
      hide MovedTo, Accessible, Transferred, Addresses, Advance, Shorten, Range, Boundary, Total;
      NothingAsked(iov[..], first, resid, n);
      NoneLeft(iov[..], first);
      cnt := iov[first].len;
      if cnt == 0 {
        error := 0;
        TotalOfEmpty(iov[..], first, resid, n);
        EmptyIovec(iov[..], first, m - moved);
        first := first + 1;
        iovcnt := iovcnt - 1;
      } else {
        if cnt > n {
          cnt := n;
        }
        TotalOfBlock(iov[..], first, resid, n, cnt);
        error := MoveBlock(mem, cp, cnt, faults, cp0, was, all, m, moved);
      }
    }

    /** uiomove_faultflag: exactly the bytes asked for are moved, in order and
        all inside the vector, unless one of them faults; what is left of the
        vector, the residue and the offset account for every byte moved. */
    method Uiomove(mem: array<char>, cp0: nat, n0: int, faults: set<nat>) returns (error: nat, ghost moved: nat)
      requires Counts() && Asked(n0) <= |Left()| && Accessible(mem[..], Left()[..Asked(n0)], cp0, seg)
      modifies this`first, this`iovcnt, this`resid, this`offset, iov, mem
      ensures Counts() && moved <= old(Asked(n0)) && Left() == old(Left())[moved..]
      ensures resid == old(resid) - moved && offset == old(offset) + moved
      ensures MovedTo(old(mem[..]), old(Left()), moved, cp0, rw, seg, mem[..])
      ensures error == 0 ==> moved == old(Asked(n0))
      ensures seg == UserSpace ==> forall i :: 0 <= i < moved ==> old(Left())[i] !in faults
      ensures error == 0 && old(resid) >= 0 ==>
                (moved == Least(Wanted(n0), old(resid)) <==> n0 <= old(resid) || old(Boundary(iov[..], first, resid)))
      ensures error == 0 && old(resid) == |old(Left())| ==> moved == Least(Wanted(n0), old(resid))
      ensures error == 0 ==> (iov[..], first) == Advance(old(iov[..]), old(first), moved)
      ensures error != 0 ==> error == 14 && seg == UserSpace && moved < old(Asked(n0))
      ensures error != 0 ==> exists i :: moved <= i < old(Asked(n0)) && old(Left())[i] in faults
    {
      hide MovedTo, Accessible, Transferred, Addresses, Advance, Shorten, Range, Boundary, Total, Least;
      ghost var all, was, m := Left(), mem[..], Asked(n0);
      ghost var goal := Advance(iov[..], first, m);
      if resid >= 0 {
        MovesTheSmaller(iov[..], first, resid, n0);
      }
      var cp, n := cp0, n0;
      moved := 0;
      error := 0;
      NothingMoved(was, all, m, cp0, rw, seg);
      assert all[0..] == all;
      while n > 0 && resid != 0
        invariant Going(mem, was, all, goal, m, old(resid), old(offset), cp0, moved, n, faults) && cp == cp0 + moved
        decreases iov.Length - first, n
      {
        var cnt: nat;
        error, cnt := MoveSome(mem, cp, n, faults, was, all, goal, m, old(resid), old(offset), cp0, moved);
        if error != 0 {
          return;
        }
        cp := cp + cnt;
        n := n - cnt;
        moved := moved + cnt;
      }
      NothingAsked(iov[..], first, resid, n);
      NothingMore(iov[..], first);
    }
  }

  lemma NothingAsked(v: seq<Iovec>, k: nat, resid: int, n: int)
    requires k <= |v|
    ensures Total(v, k, resid, n) == 0 <==> n <= 0 || resid == 0
  {
  }

  lemma NothingMore(v: seq<Iovec>, k: nat)
    ensures Advance(v, k, 0) == (v, k)
  {
  }

  lemma NoneFaulted(all: seq<nat>, j: nat, base: nat, cnt: nat, faults: set<nat>)
    requires j + cnt <= |all| && all[j..j + cnt] == Range(base, cnt)
    requires forall i :: 0 <= i < cnt ==> Range(base, cnt)[i] !in faults
    ensures forall i :: j <= i < j + cnt ==> all[i] !in faults
  {
    forall i | j <= i < j + cnt
      ensures all[i] !in faults
    {
      assert all[i] == all[j..j + cnt][i - j];
    }
  }

  lemma Faulted(all: seq<nat>, j: nat, base: nat, cnt: nat, m: nat, faults: set<nat>)
    requires j + cnt <= m <= |all| && all[j..j + cnt] == Range(base, cnt)
    requires exists i :: 0 <= i < cnt && Range(base, cnt)[i] in faults
    ensures exists i :: j <= i < m && all[i] in faults
  {
    var i :| 0 <= i < cnt && Range(base, cnt)[i] in faults;
    assert all[j + i] == all[j..j + cnt][i];
  }

  /** A request that the vector can meet, when uio_resid is the length of the
      vector or covers the request: the smaller of the two is moved. */
  method MoveLeast(u: Uio, mem: array<char>, cp: nat, n: nat)
    requires u.Counts() && 0 <= u.resid && (u.resid == |u.Left()| || n <= u.resid <= |u.Left()|)
    requires Accessible(mem[..], u.Left()[..Least(n, u.resid)], cp, u.seg)
    modifies u`first, u`iovcnt, u`resid, u`offset, u.iov, mem
    ensures MovedTo(old(mem[..]), old(u.Left()), old(Least(n, u.resid)), cp, u.rw, u.seg, mem[..])
    ensures u.Counts() && u.Left() == old(u.Left())[old(Least(n, u.resid))..]
    ensures (u.iov[..], u.first) == Advance(old(u.iov[..]), old(u.first), old(Least(n, u.resid)))
    ensures u.resid == old(u.resid) - old(Least(n, u.resid)) && u.offset == old(u.offset) + old(Least(n, u.resid))
  {
    hide MovedTo, Accessible, Addresses, Advance, Boundary, Total;
    MovesTheSmaller(u.iov[..], u.first, u.resid, n);
    var error, moved := u.Uiomove(mem, cp, n, {});
  }

  /** Moving a bytes and then b bytes, to or from the next place in the buffer,
      does to memory, vector and counters what moving a + b bytes does, when
      uio_resid is the length of the vector or covers the request. */
  method MoveTwice(u: Uio, mem: array<char>, cp: nat, a: nat, b: nat)
    requires u.Counts() && 0 <= u.resid && (u.resid == |u.Left()| || a + b <= u.resid <= |u.Left()|)
    requires cp + a + b <= mem.Length && Accessible(mem[..], u.Left()[..Least(a + b, u.resid)], cp, u.seg)
    modifies u`first, u`iovcnt, u`resid, u`offset, u.iov, mem
    ensures MovedTo(old(mem[..]), old(u.Left()), old(Least(a + b, u.resid)), cp, u.rw, u.seg, mem[..])
    ensures (u.iov[..], u.first) == Advance(old(u.iov[..]), old(u.first), old(Least(a + b, u.resid)))
    ensures u.resid == old(u.resid) - old(Least(a + b, u.resid)) && u.offset == old(u.offset) + old(Least(a + b, u.resid))
  {
    hide MovedTo, Accessible, Addresses, Advance;
    ghost var all, was, m: nat := u.Left(), mem[..], Least(a + b, u.resid);
    ghost var j: nat := Least(a, u.resid);
    AdvanceTwice(u.iov[..], u.first, j, m - j);
    AccessibleSmaller(was, all[..m], j, cp, u.seg);
    assert all[..m][..j] == all[..j];
    MoveLeast(u, mem, cp, a);
    ghost var now := mem[..];
    SecondPart(was, all, m, j, cp, a, u.rw, u.seg, now);
    MoveLeast(u, mem, cp + a, b);
    if j == a {
      MovedTwice(was, all, m, j, cp, u.rw, u.seg, now, mem[..]);
    } else {
      MovedNothing(now, all[j..], cp + a, cp, u.rw, u.seg, mem[..]);
    }
  }

  /** The second part is accessible, and empty if the first was cut short. */
  lemma SecondPart(was: seq<char>, all: seq<nat>, m: nat, j: nat, cp: nat, a: nat, rw: Direction, seg: Segment,
                   now: seq<char>)
    requires j <= m <= |all| && Accessible(was, all[..m], cp, seg) && cp + a <= |now|
    requires MovedTo(was, all, j, cp, rw, seg, now) && (j == a || j == m)
    ensures Accessible(now, all[j..][..m - j], cp + a, seg)
  {
    hide MovedTo, Accessible;
    RestAccessible(was, all, m, j, cp, rw, seg, now);
    NowhereAccessible(now, cp + a, seg);
    assert m == j ==> all[j..][..m - j] == [];
  }

  /** A request of ten with a residue of five, which ends inside the one iovec
      of ten: all ten bytes are copied and uio_resid goes negative. */
  method PassesResidue() returns (u: Uio, mem: array<char>)
    ensures u.resid == -5 && u.offset == 10
    ensures mem[..] == Fill('a', 20)
  {
    hide MovedTo, Accessible, Addresses, Advance, Boundary, Total;
    mem := new char[20](k => if k < 10 then 'a' else 'b');
    var iov := new Iovec[1](_ => Iovec(10, 10));
    u := new Uio(iov, 5, 0, SysSpace, Read);
    ghost var was := mem[..];
    assert iov[..] == [Iovec(10, 10)];
    OneIovec(iov[..], 10, 10);
    assert Range(10, 10)[..10] == Range(10, 10);
    PastResidue(iov[..]);
    Reachable(was);
    var error, moved := u.Uiomove(mem, 0, 10, {});
    BlockCopied(was, 10, 10, mem[..]);
    assert was[0..10] == Fill('a', 10);
    assert mem[..] == mem[..][0..10] + mem[..][10..20];
  }

  lemma PastResidue(v: seq<Iovec>)
    requires v == [Iovec(10, 10)]
    ensures Total(v, 0, 5, 10) == 10
  {
  }

  lemma Reachable(mem: seq<char>)
    requires |mem| == 20
    ensures Accessible(mem, Range(10, 10), 0, SysSpace)
  {
  }

  lemma OneIovec(v: seq<Iovec>, base: nat, len: nat)
    requires v == [Iovec(base, len)]
    ensures Addresses(v[0..]) == Range(base, len)
  {
    AddressesStep(v, 0);
    NoneLeft(v, 1);
    assert v[0..] == v;
    assert Range(base, len) + [] == Range(base, len);
  }

  lemma BlockCopied(was: seq<char>, base: nat, cnt: nat, now: seq<char>)
    requires MovedTo(was, Range(base, cnt), cnt, 0, Read, SysSpace, now)
    requires cnt <= base && base + cnt <= |was|
    ensures |now| == |was| && now[base..base + cnt] == was[0..cnt] == now[0..cnt]
  {
    assert Range(base, cnt)[..cnt] == Range(base, cnt);
    BlockCopies(was, base, 0, cnt, Read);
  }
}
