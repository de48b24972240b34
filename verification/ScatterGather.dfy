/** Byte vectors of BsdSupport/subr_uio.c: what a list of iovecs addresses, and
    what storing to and loading from those addresses does. */
module ScatterGather {

  datatype Iovec = Iovec(base: nat, len: nat)

  function Least(a: nat, b: nat): nat {
    if a < b then a else b
  }

  function Range(base: nat, len: nat): (s: seq<nat>)
    ensures |s| == len && forall i :: 0 <= i < len ==> s[i] == base + i
  {
    seq(len, i requires 0 <= i => base + i)
  }

  /** The addresses of the bytes of a vector, in order. */
  function Addresses(v: seq<Iovec>): seq<nat> {
    if v == [] then [] else Range(v[0].base, v[0].len) + Addresses(v[1..])
  }

  /** Store data[i] at addrs[i], one after the other. */
  function Scatter(mem: seq<char>, addrs: seq<nat>, data: seq<char>): (r: seq<char>)
    requires |addrs| == |data| && forall i :: 0 <= i < |addrs| ==> addrs[i] < |mem|
    ensures |r| == |mem|
  {
    if addrs == [] then mem
    else Scatter(mem, addrs[..|addrs| - 1], data[..|data| - 1])[addrs[|addrs| - 1] := data[|data| - 1]]
  }

  function Gather(mem: seq<char>, addrs: seq<nat>): (r: seq<char>)
    requires forall i :: 0 <= i < |addrs| ==> addrs[i] < |mem|
    ensures |r| == |addrs| && forall i :: 0 <= i < |r| ==> r[i] == mem[addrs[i]]
  {
    seq(|addrs|, i requires 0 <= i < |addrs| => mem[addrs[i]])
  }

  predicate Inside(mem: seq<char>, addrs: seq<nat>) {
    forall i :: 0 <= i < |addrs| ==> addrs[i] < |mem|
  }

  predicate Distinct(addrs: seq<nat>) {
    forall i, j :: 0 <= i < j < |addrs| ==> addrs[i] != addrs[j]
  }

  lemma ScatterStep(mem: seq<char>, addrs: seq<nat>, data: seq<char>)
    requires |addrs| == |data| && Inside(mem, addrs)
    ensures addrs == [] ==> Scatter(mem, addrs, data) == mem
    ensures addrs != [] ==>
              var n := |addrs| - 1;
              Scatter(mem, addrs, data) == Scatter(mem, addrs[..n], data[..n])[addrs[n] := data[n]]
  {
  }

  lemma {:induction false} ScatterMisses(mem: seq<char>, addrs: seq<nat>, data: seq<char>, a: nat)
    requires |addrs| == |data| && Inside(mem, addrs) && a < |mem|
    requires forall i :: 0 <= i < |addrs| ==> addrs[i] != a
    ensures Scatter(mem, addrs, data)[a] == mem[a]
  {
    hide Scatter;
    ScatterStep(mem, addrs, data);
    if addrs != [] {
      ScatterMisses(mem, addrs[..|addrs| - 1], data[..|addrs| - 1], a);
    }
  }

  /** The last byte stored at an address stays there. */
  lemma {:induction false} ScatterHits(mem: seq<char>, addrs: seq<nat>, data: seq<char>, i: nat)
    requires |addrs| == |data| && Inside(mem, addrs) && i < |addrs|
    requires forall j :: i < j < |addrs| ==> addrs[j] != addrs[i]
    ensures Scatter(mem, addrs, data)[addrs[i]] == data[i]
  {
    hide Scatter;
    var n := |addrs| - 1;
    ScatterStep(mem, addrs, data);
    if i < n {
      ScatterHits(mem, addrs[..n], data[..n], i);
    }
  }

  /** Bytes scattered over distinct addresses are gathered back unchanged. */
  lemma GatherScatter(mem: seq<char>, addrs: seq<nat>, data: seq<char>)
    requires |addrs| == |data| && Inside(mem, addrs) && Distinct(addrs)
    ensures Gather(Scatter(mem, addrs, data), addrs) == data
  {
    hide Scatter;
    forall i | 0 <= i < |addrs|
      ensures Scatter(mem, addrs, data)[addrs[i]] == data[i]
    {
      ScatterHits(mem, addrs, data, i);
    }
  }

  lemma {:induction false} ScatterAppend(mem: seq<char>, a: seq<nat>, b: seq<nat>, c: seq<char>, d: seq<char>)
    requires |a| == |c| && |b| == |d| && Inside(mem, a) && Inside(mem, b)
    ensures Inside(mem, a + b) && Scatter(mem, a + b, c + d) == Scatter(Scatter(mem, a, c), b, d)
  {
    if b == [] {
      assert a + b == a && c + d == c;
    } else {
      var n := |b| - 1;
      ScatterAppend(mem, a, b[..n], c, d[..n]);
      assert (a + b)[..|a| + n] == a + b[..n];
      assert (c + d)[..|c| + n] == c + d[..n];
    }
  }

  /** Scattering over a range is one block copy. */
  lemma {:induction false} ScatterRange(mem: seq<char>, base: nat, data: seq<char>)
    requires base + |data| <= |mem|
    ensures Scatter(mem, Range(base, |data|), data) == mem[..base] + data + mem[base + |data|..]
  {
    if data != [] {
      var n := |data| - 1;
      assert Range(base, |data|)[..n] == Range(base, n);
      ScatterRange(mem, base, data[..n]);
    }
  }

  /** What is left of a vector, and where it continues, when n bytes have been
      taken from it. */
  function Advance(v: seq<Iovec>, k: nat, n: nat): (seq<Iovec>, nat)
    decreases |v| - k, n
  {
    if n == 0 || k >= |v| then (v, k)
    else if v[k].len == 0 then Advance(v, k + 1, n)
    else
      var c := Least(v[k].len, n);
      Advance(Shorten(v, k, c), k, n - c)
  }

  function Shorten(v: seq<Iovec>, k: nat, c: nat): (r: seq<Iovec>)
    requires k < |v| && c <= v[k].len
    ensures |r| == |v|
  {
    v[k := Iovec(v[k].base + c, v[k].len - c)]
  }

  lemma ShortenTwice(v: seq<Iovec>, k: nat, c: nat, d: nat)
    requires k < |v| && c + d <= v[k].len
    ensures Shorten(Shorten(v, k, c), k, d) == Shorten(v, k, c + d)
  {
  }

  /** Taking a bytes and then b bytes is taking a + b bytes. */
  lemma {:induction false} AdvanceTwice(v: seq<Iovec>, k: nat, a: nat, b: nat)
    ensures Advance(Advance(v, k, a).0, Advance(v, k, a).1, b) == Advance(v, k, a + b)
    decreases |v| - k, a
  {
    if a == 0 || k >= |v| {
    } else if v[k].len == 0 {
      AdvanceTwice(v, k + 1, a, b);
    } else if v[k].len <= a {
      AdvanceTwice(Shorten(v, k, v[k].len), k, a - v[k].len, b);
    } else {
      var d := Least(v[k].len - a, b);
      ShortenTwice(v, k, a, d);
    }
  }

  lemma AddressesStep(v: seq<Iovec>, k: nat)
    requires k < |v|
    ensures Addresses(v[k..]) == Range(v[k].base, v[k].len) + Addresses(v[k + 1..])
  {
    assert v[k..][1..] == v[k + 1..];
  }

  lemma RangeSplit(base: nat, c: nat, d: nat)
    ensures Range(base, c + d) == Range(base, c) + Range(base + c, d)
  {
  }

  /** The first c bytes of the current iovec come off the front. */
  lemma AddressesShorten(v: seq<Iovec>, k: nat, c: nat)
    requires k < |v| && c <= v[k].len
    ensures Addresses(v[k..]) == Range(v[k].base, c) + Addresses(Shorten(v, k, c)[k..])
  {
    var w := Shorten(v, k, c);
    AddressesStep(v, k);
    AddressesStep(w, k);
    assert w[k + 1..] == v[k + 1..];
    RangeSplit(v[k].base, c, v[k].len - c);
    var rest := Addresses(v[k + 1..]);
    assert (Range(v[k].base, c) + Range(w[k].base, w[k].len)) + rest
        == Range(v[k].base, c) + (Range(w[k].base, w[k].len) + rest);
  }
}
