/** The READ, WRITE and SWAP macros of ElfLibrary/libelf_convert.c on a little-endian machine. */
module ElfBytes {

  type byte = x: nat | x < 256

  /** READ_*: the value of bytes in native (little-endian) order. */
  function FromBytes(b: seq<byte>): nat {
    if b == [] then 0 else b[0] + 256 * FromBytes(b[1..])
  }

  /** WRITE_*: the n bytes of a value in native order. */
  function ToBytes(v: nat, n: nat): (b: seq<byte>)
    ensures |b| == n
  {
    if n == 0 then [] else [v % 256] + ToBytes(v / 256, n - 1)
  }

  /** k steps of the SWAP macros: each shifts the result up by a byte, the value down by one, and
      takes over the value's low byte. */
  function SwapSteps(x: nat, t: nat, k: nat): nat
    decreases k
  {
    if k == 0 then t else SwapSteps(x / 256, t * 256 + x / 256 % 256, k - 1)
  }

  /** SWAP_HALF, SWAP_WORD and SWAP_WORD64 for n = 2, 4 and 8. */
  function Swap(v: nat, n: nat): nat
    requires n > 0
  {
    SwapSteps(v, v % 256, n - 1)
  }

  function Reverse(b: seq<byte>): (r: seq<byte>)
    ensures |r| == |b| && forall i | 0 <= i < |b| :: r[i] == b[|b| - 1 - i]
  {
    seq(|b|, i requires 0 <= i < |b| => b[|b| - 1 - i])
  }

  /** The value of bytes in the other order. */
  function BigEndian(b: seq<byte>): nat {
    if b == [] then 0 else BigEndian(b[..|b| - 1]) * 256 + b[|b| - 1]
  }

  lemma {:induction false} WriteRead(b: seq<byte>)
    ensures ToBytes(FromBytes(b), |b|) == b
  {
    if b != [] {
      WriteRead(b[1..]);
      SplitValue(b[0], FromBytes(b[1..]));
    }
  }

  lemma SplitValue(low: byte, high: nat)
    ensures (low + 256 * high) % 256 == low && (low + 256 * high) / 256 == high
  {
  }

  lemma {:induction false} BigIsReversedLittle(b: seq<byte>)
    ensures BigEndian(b) == FromBytes(Reverse(b))
  {
    if b != [] {
      var n := |b| - 1;
      BigIsReversedLittle(b[..n]);
      assert Reverse(b)[0] == b[n] && Reverse(b)[1..] == Reverse(b[..n]);
    }
  }

  lemma {:induction false} StepsRead(c: byte, rest: seq<byte>, p: seq<byte>, k: nat)
    requires k <= |rest|
    ensures SwapSteps(FromBytes([c] + rest), BigEndian(p), k) == BigEndian(p + rest[..k])
    decreases k
  {
    hide Reverse;
    assert ([c] + rest)[1..] == rest;
    SplitValue(c, FromBytes(rest));
    if k == 0 {
      assert p + rest[..0] == p;
    } else {
      var q := p + [rest[0]];
      assert q[..|p|] == p;
      SplitValue(rest[0], FromBytes(rest[1..]));
      assert rest == [rest[0]] + rest[1..];
      StepsRead(rest[0], rest[1..], q, k - 1);
      assert p + rest[..k] == q + rest[1..][..k - 1];
    }
  }

  lemma BigSingle(c: byte)
    ensures BigEndian([c]) == c
  {
    assert [c][..0] == [];
  }

  lemma LowByte(b: seq<byte>)
    requires b != []
    ensures FromBytes(b) % 256 == b[0]
  {
    SplitValue(b[0], FromBytes(b[1..]));
  }

  lemma SwapIsReversedRead(b: seq<byte>)
    requires b != []
    ensures Swap(FromBytes(b), |b|) == FromBytes(Reverse(b))
  {
    hide FromBytes, BigEndian, SwapSteps;
    var rest := b[1..];
    LowByte(b);
    BigSingle(b[0]);
    StepsRead(b[0], rest, [b[0]], |b| - 1);
    assert [b[0]] + rest == b && [b[0]] + rest[..|b| - 1] == b;
    BigIsReversedLittle(b);
  }

  /** The macros reverse the bytes in storage. */
  lemma SwapReverses(b: seq<byte>)
    requires b != []
    ensures ToBytes(Swap(FromBytes(b), |b|), |b|) == Reverse(b)
  {
    SwapIsReversedRead(b);
    WriteRead(Reverse(b));
  }

  lemma {:induction false} ReadWrite(v: nat, n: nat)
    requires v < Power256(n)
    ensures FromBytes(ToBytes(v, n)) == v
  {
    if n > 0 {
      ReadWrite(v / 256, n - 1);
      assert ToBytes(v, n)[1..] == ToBytes(v / 256, n - 1);
    }
  }

  function Power256(n: nat): nat {
    if n == 0 then 1 else 256 * Power256(n - 1)
  }

  lemma {:induction false} ValueBound(b: seq<byte>)
    ensures FromBytes(b) < Power256(|b|)
  {
    if b != [] {
      ValueBound(b[1..]);
    }
  }

  /** Swapping a value twice gives it back. */
  lemma SwapInvolution(v: nat, n: nat)
    requires n > 0 && v < Power256(n)
    ensures Swap(v, n) < Power256(n) && Swap(Swap(v, n), n) == v
  {
    var b := ToBytes(v, n);
    ReadWrite(v, n);
    SwapIsReversedRead(b);
    ValueBound(Reverse(b));
    SwapIsReversedRead(Reverse(b));
    assert Reverse(Reverse(b)) == b;
  }

  /** What a converter does to one field: read it, swap the value if asked, write it. */
  function Convert(b: seq<byte>, swap: bool): (r: seq<byte>)
    ensures |r| == |b|
  {
    if swap && b != [] then ToBytes(Swap(FromBytes(b), |b|), |b|) else b
  }

  lemma ConvertTwice(b: seq<byte>, swap: bool)
    ensures Convert(Convert(b, swap), swap) == b
    ensures Convert(b, swap) == if swap then Reverse(b) else b
    ensures Convert(b, false) == b
  {
    if swap && b != [] {
      SwapReverses(b);
      SwapReverses(Reverse(b));
      assert Reverse(Reverse(b)) == b;
    }
  }

  lemma ConvertInjective(b: seq<byte>, c: seq<byte>, swap: bool)
    ensures Convert(b, swap) == Convert(c, swap) ==> b == c
  {
    hide Convert;
    ConvertTwice(b, swap);
    ConvertTwice(c, swap);
  }
}
