/** Helpers that several components share. */
module Sequences {

  datatype Option<+T> = None | Some(value: T)

  /** n copies of x. */
  function Fill<T>(x: T, n: nat): (s: seq<T>)
    ensures |s| == n && forall k :: 0 <= k < n ==> s[k] == x
  {
    seq(n, _ => x)
  }

  lemma Associative<T>(a: seq<T>, b: seq<T>, c: seq<T>)
    ensures (a + b) + c == a + (b + c)
  {
  }

  lemma Dropped<T>(s: seq<T>, a: nat, b: nat)
    requires a <= b <= |s|
    ensures s[a..b] == s[a..][..b - a] && s[b..] == s[a..][b - a..]
  {
  }

  lemma Split<T>(s: seq<T>, a: nat, b: nat, c: nat)
    requires a <= b <= c <= |s|
    ensures s[a..c] == s[a..b] + s[b..c]
  {
  }

  lemma Inner<T>(s: seq<T>, a: nat, c: nat, i: nat, j: nat)
    requires i <= j && a + j <= c <= |s|
    ensures s[a..c][i..j] == s[a + i..a + j]
  {
    var t := s[a..c];
    forall k | 0 <= k < j - i
      ensures t[i..j][k] == s[a + i..a + j][k]
    {
      assert t[i + k] == s[a + (i + k)];
    }
  }

  lemma Rejoin<T>(s: seq<T>, t: seq<T>, n: nat)
    requires n <= |s| && n <= |t| && s[..n] == t[..n] && s[n..] == t[n..]
    ensures s == t
  {
    assert s == s[..n] + s[n..] && t == t[..n] + t[n..];
  }
}
