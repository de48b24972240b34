/** The transfers of BsdSupport/subr_uio.c: blocks of bytes copied between a
    buffer and the addresses of a byte vector. */
module IoTransfers {
  import opened ScatterGather
  import opened Sequences

  datatype Direction = Read | Write
  datatype Segment = UserSpace | SysSpace | NoCopy

  /** A transfer of j bytes between the buffer at cp and the given addresses. */
  function Transferred(mem: seq<char>, addrs: seq<nat>, cp: nat, rw: Direction, seg: Segment): (r: seq<char>)
    requires seg != NoCopy ==> Inside(mem, addrs) && cp + |addrs| <= |mem|
    ensures |r| == |mem|
  {
    var j := |addrs|;
    if seg == NoCopy then mem
    else if rw == Read then Scatter(mem, addrs, mem[cp..cp + j])
    else mem[..cp] + Gather(mem, addrs) + mem[cp + j..]
  }

  /** The vector and the buffer do not overlap. */
  predicate Apart(addrs: seq<nat>, cp: nat, n: nat) {
    forall i :: 0 <= i < |addrs| ==> addrs[i] < cp || addrs[i] >= cp + n
  }

  lemma ReadMore(mem: seq<char>, now: seq<char>, a: seq<nat>, b: seq<nat>, cp: nat)
    requires Inside(mem, a) && Inside(mem, b) && cp + |a| + |b| <= |mem|
    requires Apart(a, cp, |a| + |b|)
    requires now == Scatter(mem, a, mem[cp..cp + |a|])
    ensures Inside(mem, a + b)
    ensures Scatter(now, b, now[cp + |a|..cp + |a| + |b|]) == Scatter(mem, a + b, mem[cp..cp + |a| + |b|])
  {
    var data, more := mem[cp..cp + |a|], mem[cp + |a|..cp + |a| + |b|];
    forall i | cp + |a| <= i < cp + |a| + |b|
      ensures now[i] == mem[i]
    {
      ScatterMisses(mem, a, data, i);
    }
    assert now[cp + |a|..cp + |a| + |b|] == more;
    assert data + more == mem[cp..cp + |a| + |b|];
    ScatterAppend(mem, a, b, data, more);
  }

  lemma WriteMore(mem: seq<char>, now: seq<char>, a: seq<nat>, b: seq<nat>, cp: nat)
    requires Inside(mem, a) && Inside(mem, b) && cp + |a| + |b| <= |mem|
    requires Apart(b, cp, |a| + |b|)
    requires now == mem[..cp] + Gather(mem, a) + mem[cp + |a|..]
    ensures Inside(mem, a + b)
    ensures now[..cp + |a|] + Gather(now, b) + now[cp + |a| + |b|..]
         == mem[..cp] + Gather(mem, a + b) + mem[cp + |a| + |b|..]
  {
    hide Gather;
    var front, back := mem[..cp] + Gather(mem, a), mem[cp + |a|..];
    GatherApart(mem, now, b);
    GatherAppend(mem, a, b);
    assert now[..cp + |a|] == front && now[cp + |a|..] == back;
    Dropped(mem, cp + |a|, cp + |a| + |b|);
    Dropped(now, cp + |a|, cp + |a| + |b|);
    Associative(mem[..cp], Gather(mem, a), Gather(mem, b));
  }

  lemma GatherApart(mem: seq<char>, now: seq<char>, b: seq<nat>)
    requires Inside(mem, b) && |now| == |mem|
    requires forall i :: 0 <= i < |b| ==> now[b[i]] == mem[b[i]]
    ensures Gather(now, b) == Gather(mem, b)
  {
  }

  lemma GatherAppend(mem: seq<char>, a: seq<nat>, b: seq<nat>)
    requires Inside(mem, a) && Inside(mem, b)
    ensures Inside(mem, a + b) && Gather(mem, a + b) == Gather(mem, a) + Gather(mem, b)
  {
  }

  /** Two transfers in a row are one. */
  lemma TransferMore(mem: seq<char>, a: seq<nat>, b: seq<nat>, cp: nat, rw: Direction, seg: Segment)
    requires seg != NoCopy ==> Inside(mem, a) && Inside(mem, b) && cp + |a| + |b| <= |mem|
    requires seg != NoCopy ==> Apart(a, cp, |a| + |b|) && Apart(b, cp, |a| + |b|)
    ensures seg != NoCopy ==> Inside(mem, a + b) && Inside(Transferred(mem, a, cp, rw, seg), b)
    ensures Transferred(Transferred(mem, a, cp, rw, seg), b, cp + |a|, rw, seg)
         == Transferred(mem, a + b, cp, rw, seg)
  {
    hide Scatter, Gather, Inside, Apart;
    Together(mem, a, b);
    var now := Transferred(mem, a, cp, rw, seg);
    Same(mem, now, b);
    if seg != NoCopy {
      if rw == Read {
        ReadMore(mem, now, a, b, cp);
      } else {
        WriteMore(mem, now, a, b, cp);
      }
    }
  }

  lemma Together(mem: seq<char>, a: seq<nat>, b: seq<nat>)
    ensures Inside(mem, a + b) <==> Inside(mem, a) && Inside(mem, b)
  {
    assert forall i :: 0 <= i < |a| ==> (a + b)[i] == a[i];
    assert forall i :: 0 <= i < |b| ==> (a + b)[|a| + i] == b[i];
  }

  lemma Same(mem: seq<char>, now: seq<char>, b: seq<nat>)
    requires |mem| == |now|
    ensures Inside(mem, b) == Inside(now, b)
  {
  }

  /** What a read has put into distinct places, a write brings back. */
  lemma WriteAfterRead(mem: seq<char>, addrs: seq<nat>, cp: nat, cq: nat, seg: Segment)
    requires seg != NoCopy
    requires Inside(mem, addrs) && Distinct(addrs)
    requires cp + |addrs| <= |mem| && cq + |addrs| <= |mem|
    ensures var stored := Transferred(mem, addrs, cp, Read, seg);
            Inside(stored, addrs)
            && Transferred(stored, addrs, cq, Write, seg)[cq..cq + |addrs|] == mem[cp..cp + |addrs|]
  {
    GatherScatter(mem, addrs, mem[cp..cp + |addrs|]);
  }

  /** The bytes are there, and apart from the buffer. */
  predicate Accessible(mem: seq<char>, addrs: seq<nat>, cp: nat, seg: Segment) {
    seg != NoCopy ==> Inside(mem, addrs) && cp + |addrs| <= |mem| && Apart(addrs, cp, |addrs|)
  }

  lemma AccessibleSplit(mem: seq<char>, addrs: seq<nat>, j: nat, c: nat, cp: nat, rw: Direction, seg: Segment)
    requires Accessible(mem, addrs, cp, seg) && j + c <= |addrs|
    ensures seg != NoCopy ==> Inside(mem, addrs[..j]) && Inside(mem, addrs[..j + c]) && cp + j + c <= |mem|
    ensures seg != NoCopy ==> Inside(mem, addrs[j..j + c]) && Apart(addrs[j..j + c], cp, |addrs|)
    ensures var now := Transferred(mem, addrs[..j], cp, rw, seg);
            && (seg != NoCopy ==> Inside(now, addrs[j..j + c]))
            && Transferred(now, addrs[j..j + c], cp + j, rw, seg) == Transferred(mem, addrs[..j + c], cp, rw, seg)
  {
    hide Transferred;
    assert addrs[..j + c] == addrs[..j] + addrs[j..j + c];
    TransferMore(mem, addrs[..j], addrs[j..j + c], cp, rw, seg);
  }

  /** bcopy and memcpy of disjoint blocks. */
  method Bcopy(mem: array<char>, src: nat, dst: nat, cnt: nat)
    requires src + cnt <= mem.Length && dst + cnt <= mem.Length
    requires src + cnt <= dst || dst + cnt <= src
    modifies mem
    ensures mem[..] == old(mem[..])[..dst] + old(mem[..])[src..src + cnt] + old(mem[..])[dst + cnt..]
  {
    forall i | 0 <= i < cnt {
      mem[dst + i] := mem[src + i];
    }
  }

  /** Over contiguous addresses a transfer is one block copy. */
  lemma BlockCopies(mem: seq<char>, base: nat, cp: nat, cnt: nat, rw: Direction)
    requires Inside(mem, Range(base, cnt)) && base + cnt <= |mem| && cp + cnt <= |mem|
    ensures Transferred(mem, Range(base, cnt), cp, rw, SysSpace)
         == if rw == Read then mem[..base] + mem[cp..cp + cnt] + mem[base + cnt..]
            else mem[..cp] + mem[base..base + cnt] + mem[cp + cnt..]
  {
    ScatterRange(mem, base, mem[cp..cp + cnt]);
    assert Gather(mem, Range(base, cnt)) == mem[base..base + cnt];
  }

  lemma RangeInside(mem: seq<char>, base: nat, cnt: nat)
    requires Inside(mem, Range(base, cnt)) && cnt > 0
    ensures base + cnt <= |mem|
  {
    assert Range(base, cnt)[cnt - 1] == base + cnt - 1;
  }

  /** One contiguous block of the vector, in either direction. */
  method CopyBlock(mem: array<char>, base: nat, cp: nat, cnt: nat, rw: Direction)
    requires Accessible(mem[..], Range(base, cnt), cp, SysSpace) && cnt > 0
    modifies mem
    ensures mem[..] == Transferred(old(mem[..]), Range(base, cnt), cp, rw, SysSpace)
  {
    hide Transferred, Range, Inside, Apart;
    RangeInside(mem[..], base, cnt);
    NoStraddle(base, cp, cnt);
    BlockCopies(mem[..], base, cp, cnt, rw);
    if rw == Read {
      Bcopy(mem, cp, base, cnt);
    } else {
      Bcopy(mem, base, cp, cnt);
    }
  }

  lemma NoStraddle(base: nat, cp: nat, cnt: nat)
    requires Apart(Range(base, cnt), cp, cnt) && cnt > 0
    ensures base + cnt <= cp || cp + cnt <= base
  {
    var r := Range(base, cnt);
    var k := if base <= cp < base + cnt then cp - base else 0;
    assert r[k] == base + k;
    assert r[0] < cp || r[0] >= cp + cnt;
  }

  /** The memory after the first j of all bytes have been transferred. */
  predicate MovedTo(was: seq<char>, all: seq<nat>, j: nat, cp: nat, rw: Direction, seg: Segment, now: seq<char>) {
    && j <= |all|
    && (seg != NoCopy ==> Inside(was, all[..j]) && cp + j <= |was|)
    && now == Transferred(was, all[..j], cp, rw, seg)
  }

  /** Byte by byte: a read puts the buffer's bytes at the vector's addresses, the last one to stay where
      an address repeats, and a write the other way round; nothing else changes. */
  lemma MovedBytes(was: seq<char>, all: seq<nat>, j: nat, cp: nat, rw: Direction, seg: Segment, now: seq<char>)
    requires MovedTo(was, all, j, cp, rw, seg, now)
    ensures |now| == |was| && (seg == NoCopy ==> now == was)
    ensures seg != NoCopy && rw == Read ==>
              && (forall i :: 0 <= i < j && (forall k :: i < k < j ==> all[k] != all[i]) ==> now[all[i]] == was[cp + i])
              && (forall x :: 0 <= x < |was| && (forall i :: 0 <= i < j ==> all[i] != x) ==> now[x] == was[x])
    ensures seg != NoCopy && rw == Write ==>
              && (forall i :: 0 <= i < j ==> now[cp + i] == was[all[i]])
              && (forall x :: 0 <= x < |was| && !(cp <= x < cp + j) ==> now[x] == was[x])
  {
    if seg != NoCopy && rw == Read {
      var addrs, data := all[..j], was[cp..cp + j];
      forall i | 0 <= i < j && (forall k :: i < k < j ==> all[k] != all[i])
        ensures now[all[i]] == was[cp + i]
      {
        ScatterHits(was, addrs, data, i);
      }
      forall x | 0 <= x < |was| && (forall i :: 0 <= i < j ==> all[i] != x)
        ensures now[x] == was[x]
      {
        ScatterMisses(was, addrs, data, x);
      }
    }
  }

  lemma NothingMoved(was: seq<char>, all: seq<nat>, m: nat, cp: nat, rw: Direction, seg: Segment)
    requires m <= |all| && Accessible(was, all[..m], cp, seg)
    ensures MovedTo(was, all, 0, cp, rw, seg, was)
  {
    assert all[..0] == [];
    assert seg != NoCopy ==> was[..cp] + [] + was[cp..] == was;
  }

  /** The next block can be copied, and copying it moves so many bytes more. */
  lemma BlockMoves(was: seq<char>, all: seq<nat>, m: nat, j: nat, base: nat, cnt: nat,
                   cp: nat, rw: Direction, seg: Segment, now: seq<char>)
    requires m <= |all| && Accessible(was, all[..m], cp, seg)
    requires MovedTo(was, all, j, cp, rw, seg, now) && j + cnt <= m
    requires all[j..j + cnt] == Range(base, cnt)
    ensures |now| == |was| && Accessible(now, Range(base, cnt), cp + j, seg)
    ensures MovedTo(was, all, j + cnt, cp, rw, seg, Transferred(now, Range(base, cnt), cp + j, rw, seg))
  {
    hide Transferred, Range;
    assert all[..m][..j] == all[..j] && all[..m][..j + cnt] == all[..j + cnt];
    assert all[..m][j..j + cnt] == all[j..j + cnt];
    AccessibleSplit(was, all[..m], j, cnt, cp, rw, seg);
  }

  /** What remains is accessible from where the first transfer stopped. */
  lemma RestAccessible(was: seq<char>, all: seq<nat>, m: nat, j: nat, cp: nat, rw: Direction, seg: Segment,
                       now: seq<char>)
    requires j <= m <= |all| && Accessible(was, all[..m], cp, seg)
    requires MovedTo(was, all, j, cp, rw, seg, now)
    ensures Accessible(now, all[j..][..m - j], cp + j, seg)
  {
    hide Transferred;
    var rest := all[j..][..m - j];
    assert forall i :: 0 <= i < |rest| ==> rest[i] == all[..m][j + i];
  }

  /** Moving on from where the first transfer stopped completes one transfer. */
  lemma MovedTwice(was: seq<char>, all: seq<nat>, m: nat, j: nat, cp: nat, rw: Direction, seg: Segment,
                   now: seq<char>, last: seq<char>)
    requires j <= m <= |all| && Accessible(was, all[..m], cp, seg)
    requires MovedTo(was, all, j, cp, rw, seg, now)
    requires MovedTo(now, all[j..], m - j, cp + j, rw, seg, last)
    ensures MovedTo(was, all, m, cp, rw, seg, last)
  {
    hide Transferred;
    var rest := all[j..][..m - j];
    assert all[..m][..j] == all[..j] && all[..m][..j + (m - j)] == all[..m];
    assert all[..m][j..j + (m - j)] == rest;
    AccessibleSplit(was, all[..m], j, m - j, cp, rw, seg);
  }

  /** Nothing moved is nothing changed, wherever the buffer is. */
  lemma MovedNothing(was: seq<char>, all: seq<nat>, cp: nat, cq: nat, rw: Direction, seg: Segment, now: seq<char>)
    requires MovedTo(was, all, 0, cp, rw, seg, now)
    ensures now == was
    ensures cq <= |was| ==> MovedTo(was, all, 0, cq, rw, seg, now)
  {
    assert all[..0] == [];
    assert cp <= |was| ==> was[..cp] + [] + was[cp..] == was;
    assert cq <= |was| ==> was[..cq] + [] + was[cq..] == was;
  }

  lemma AccessibleSmaller(mem: seq<char>, addrs: seq<nat>, j: nat, cp: nat, seg: Segment)
    requires Accessible(mem, addrs, cp, seg) && j <= |addrs|
    ensures Accessible(mem, addrs[..j], cp, seg)
  {
  }

  lemma NowhereAccessible(mem: seq<char>, cp: nat, seg: Segment)
    ensures cp <= |mem| ==> Accessible(mem, [], cp, seg)
  {
  }
}
