/** Numerals as the conversions of CLibrary/printf.c write them: the value a
    digit string denotes, the shortest string for a value, and the loops that
    fill the digit buffer from its end. */
module FormatNumbers {
  import Division
  import opened Sequences

  /** KPRINTF_BUFSIZE: sizeof(quad_t) * NBBY / 3 + 2. */
  const BUFSIZE: nat := 8 * 8 / 3 + 2

  /** One more than the largest u_quad_t. */
  const QUAD: nat := 0x1_0000_0000_0000_0000

  datatype Base = Oct | Dec | Hex

  function Radix(b: Base): (r: nat)
    ensures 2 <= r <= 16
  {
    match b
    case Oct => 8
    case Dec => 10
    case Hex => 16
  }

  function DigitChar(d: nat, upper: bool): char
    requires d < 16
  {
    if d < 10 then ('0' as int + d) as char
    else if upper then ('A' as int + d - 10) as char
    else ('a' as int + d - 10) as char
  }

  /** What a digit is worth; 16 for a character that is no digit at all. */
  function DigitValue(c: char): nat {
    if '0' <= c <= '9' then c as int - '0' as int
    else if 'a' <= c <= 'f' then c as int - 'a' as int + 10
    else if 'A' <= c <= 'F' then c as int - 'A' as int + 10
    else 16
  }

  predicate IsNumeral(r: nat, s: string) {
    forall k :: 0 <= k < |s| ==> DigitValue(s[k]) < r
  }

  function Value(r: nat, s: string): nat {
    if s == "" then 0 else Value(r, s[..|s| - 1]) * r + DigitValue(s[|s| - 1])
  }

  /** The shortest numeral for v. */
  function Digits(r: nat, v: nat, upper: bool): string
    requires 2 <= r <= 16
  {
    if v < r then [DigitChar(v, upper)]
    else Digits(r, v / r, upper) + [DigitChar(v % r, upper)]
  }

  function Power(r: nat, n: nat): nat {
    if n == 0 then 1 else r * Power(r, n - 1)
  }

  lemma CharIsDigit(d: nat, upper: bool)
    requires d < 16
    ensures DigitValue(DigitChar(d, upper)) == d
    ensures DigitChar(d, upper) == '0' <==> d == 0
    ensures DigitChar(d, upper) == (if upper then "0123456789ABCDEF" else "0123456789abcdef")[d]
  {
  }

  lemma SingleDigit(r: nat, d: nat, upper: bool)
    requires d < r <= 16
    ensures Value(r, [DigitChar(d, upper)]) == d && IsNumeral(r, [DigitChar(d, upper)])
  {
    CharIsDigit(d, upper);
    ValueStep(r, "", DigitChar(d, upper));
    assert "" + [DigitChar(d, upper)] == [DigitChar(d, upper)];
  }

  lemma NumeralStep(r: nat, front: string, last: char)
    ensures IsNumeral(r, front + [last]) <==> IsNumeral(r, front) && DigitValue(last) < r
  {
    var s := front + [last];
    assert s[|front|] == last;
    assert forall k :: 0 <= k < |front| ==> s[k] == front[k];
  }

  lemma {:induction false} DigitsDenote(r: nat, v: nat, upper: bool)
    requires 2 <= r <= 16
    ensures |Digits(r, v, upper)| > 0
    ensures Value(r, Digits(r, v, upper)) == v
    ensures IsNumeral(r, Digits(r, v, upper))
    ensures Digits(r, v, upper)[0] == '0' <==> v == 0
  {
    hide Digits, DigitChar, DigitValue, Value, IsNumeral;
    DigitsStep(r, v, upper);
    if v < r {
      SingleDigit(r, v, upper);
      CharIsDigit(v, upper);
    } else {
      Euclid(v, r);
      var q, d := v / r, v % r;
      DigitsDenote(r, q, upper);
      CharIsDigit(d, upper);
      ValueStep(r, Digits(r, q, upper), DigitChar(d, upper));
      NumeralStep(r, Digits(r, q, upper), DigitChar(d, upper));
    }
  }

  lemma ValueStep(r: nat, front: string, last: char)
    ensures Value(r, front + [last]) == Value(r, front) * r + DigitValue(last)
  {
    assert (front + [last])[..|front|] == front;
  }

  lemma Euclid(v: nat, r: nat)
    requires r > 1
    ensures v / r * r + v % r == v && v % r < r
    ensures v >= r ==> 0 < v / r < v
  {
    var q, m := v / r, v % r;
    assert v == q * r + m;
    Shrinks(v, r, q, m);
  }

  lemma Shrinks(v: nat, r: nat, q: nat, m: nat)
    requires v == q * r + m && m < r && r > 1
    ensures v >= r ==> 0 < q < v
  {
    Division.Monotone(q, 0, r);
    Division.Monotone(2, r, q);
  }

  /** A numeral that starts with no superfluous zero is the shortest one for
      the value it denotes, so Digits is the only such numeral. */
  lemma {:induction false} DigitsUnique(r: nat, s: string, upper: bool)
    requires 2 <= r <= 16 && |s| > 0 && IsNumeral(r, s)
    requires forall k :: 0 <= k < |s| ==> s[k] == DigitChar(DigitValue(s[k]), upper)
    requires |s| == 1 || s[0] != '0'
    ensures s == Digits(r, Value(r, s), upper)
    ensures s[0] != '0' ==> Value(r, s) > 0
  {
    var front, d: nat := s[..|s| - 1], DigitValue(s[|s| - 1]);
    if front == "" {
      assert Value(r, front) == 0;
      assert s == [s[0]];
    } else {
      DigitsUnique(r, front, upper);
      Horner(r, Value(r, front), d);
      assert s == front + [s[|s| - 1]];
    }
  }

  lemma Horner(r: nat, v: nat, d: nat)
    requires 2 <= r && d < r
    ensures (v * r + d) / r == v && (v * r + d) % r == d
    ensures v > 0 ==> v * r + d >= r
  {
    Division.Remainder(v * r + d, r, v, d);
    Division.Monotone(1, v, r);
  }

  /** Leading zeros change nothing. */
  lemma {:induction false} LeadingZeros(r: nat, n: nat, s: string)
    ensures Value(r, Fill('0', n) + s) == Value(r, s)
    decreases |s|, n
  {
    var t := Fill('0', n) + s;
    if s != "" {
      assert t[..|t| - 1] == Fill('0', n) + s[..|s| - 1];
      LeadingZeros(r, n, s[..|s| - 1]);
    } else if n > 0 {
      assert t[..|t| - 1] == Fill('0', n - 1) + "";
      LeadingZeros(r, n - 1, "");
    }
  }

  lemma {:induction false} DigitsLength(r: nat, v: nat, upper: bool, n: nat)
    requires 2 <= r <= 16 && n > 0
    ensures |Digits(r, v, upper)| <= n <==> v < Power(r, n)
  {
    if n == 1 {
      assert Power(r, 1) == r * Power(r, 0);
    } else if v >= r {
      DigitsLength(r, v / r, upper, n - 1);
      Quotient(v, r, Power(r, n - 1));
    } else {
      PowerPositive(r, n - 1);
      Quotient(v, r, Power(r, n - 1));
    }
  }

  lemma Quotient(v: nat, r: nat, p: nat)
    requires r >= 2
    ensures v / r < p <==> v < r * p
    ensures p > 0 ==> r <= r * p
  {
    var q, m := v / r, v % r;
    assert v == q * r + m;
    Division.Monotone(q + 1, p, r);
    Division.Monotone(p, q, r);
    Division.Monotone(1, p, r);
  }

  lemma {:induction false} PowerPositive(r: nat, n: nat)
    requires r > 0
    ensures Power(r, n) > 0
  {
    if n > 0 {
      PowerPositive(r, n - 1);
    }
  }

  lemma {:induction false} PowerSum(r: nat, m: nat, n: nat)
    ensures Power(r, m + n) == Power(r, m) * Power(r, n)
  {
    if m > 0 {
      PowerSum(r, m - 1, n);
      Division.TimesAssociative(r, Power(r, m - 1), Power(r, n));
    }
  }

  /** Squares of squares, to reach the bound of a 64-bit value. */
  lemma QuadPowers()
    ensures Power(8, 21) < QUAD <= Power(8, 22)
    ensures Power(10, 20) >= QUAD
    ensures Power(16, 16) == QUAD
  {
    OctPowers();
    DecPowers();
    HexPowers();
  }

  lemma OctPowers()
    ensures Power(8, 21) < QUAD <= Power(8, 22)
  {
    assert Power(8, 1) == 8 * Power(8, 0);
    PowerSum(8, 1, 1);
    PowerSum(8, 2, 2);
    PowerSum(8, 4, 1);
    PowerSum(8, 5, 5);
    PowerSum(8, 10, 10);
    PowerSum(8, 20, 1);
    PowerSum(8, 21, 1);
  }

  lemma DecPowers()
    ensures Power(10, 20) >= QUAD
  {
    assert Power(10, 1) == 10 * Power(10, 0);
    PowerSum(10, 1, 1);
    PowerSum(10, 2, 2);
    PowerSum(10, 4, 1);
    PowerSum(10, 5, 5);
    PowerSum(10, 10, 10);
  }

  lemma HexPowers()
    ensures Power(16, 16) == QUAD
  {
    assert Power(16, 1) == 16 * Power(16, 0);
    PowerSum(16, 1, 1);
    PowerSum(16, 2, 2);
    PowerSum(16, 4, 4);
    PowerSum(16, 8, 8);
  }

  /** The text of a number before sign, prefix and padding: nothing for zero
      under an explicit precision of zero, an extra 0 for alternate octal. */
  function NumberText(base: Base, v: nat, alt: bool, upper: bool, prec: int): string {
    if v == 0 && prec == 0 then ""
    else
      var text := Digits(Radix(base), v, upper);
      if base == Oct && alt && text[0] != '0' then "0" + text else text
  }

  /** The digit buffer holds the text of every 64-bit value, and alternate
      octal uses the last of its bytes. */
  lemma BufferFits(base: Base, v: nat, alt: bool, upper: bool, prec: int)
    requires v < QUAD
    ensures |NumberText(base, v, alt, upper, prec)| <= BUFSIZE
    ensures |NumberText(Oct, QUAD - 1, true, upper, -1)| == BUFSIZE
  {
    hide Digits, DigitValue, IsNumeral, Power;
    QuadPowers();
    DigitsLength(Radix(base), v, upper, if base == Oct then 22 else if base == Dec then 20 else 16);
    DigitsLength(8, QUAD - 1, upper, 22);
    DigitsLength(8, QUAD - 1, upper, 21);
    DigitsDenote(8, QUAD - 1, upper);
  }

  /** Lines 466-506: the digits are stored from the end of the buffer down and
      cp is left on the first of them. */
  method Convert(bf: array<char>, base: Base, v: nat, alt: bool, upper: bool, prec: int) returns (cp: nat)
    requires bf.Length == BUFSIZE && v < QUAD
    modifies bf
    ensures cp <= BUFSIZE
    ensures bf[cp..] == NumberText(base, v, alt, upper, prec)
  {
    cp := BUFSIZE;
    if v != 0 || prec != 0 {
      match base {
        case Oct =>
          cp := OctalDigits(bf, v, upper);
          if alt && bf[cp] != '0' {
            cp := cp - 1;
            bf[cp] := '0';
          }
        case Dec =>
          cp := DecimalDigits(bf, v, upper);
        case Hex =>
          cp := HexDigits(bf, v, upper);
      }
    }
  }

  /** What remains of v together with what is stored is the whole numeral. */
  ghost predicate Split(r: nat, v: nat, u: nat, stored: string, upper: bool)
    requires 2 <= r <= 16
  {
    Digits(r, v, upper) == Digits(r, u, upper) + stored
  }

  method OctalDigits(bf: array<char>, v: nat, upper: bool) returns (cp: nat)
    requires bf.Length == BUFSIZE && v < QUAD
    modifies bf
    ensures 1 <= cp < BUFSIZE
    ensures bf[cp..] == Digits(8, v, upper)
  {
    hide Digits, DigitChar, Power, Split;
    OctPowers();
    SplitStart(8, v, upper);
    cp := BUFSIZE;
    var u: nat := v;
    assert bf[cp..] == "";
    while true
      invariant 1 <= cp <= BUFSIZE
      invariant u < Power(8, cp - 1)
      invariant cp < BUFSIZE ==> u > 0
      invariant Split(8, v, u, bf[cp..], upper)
      decreases u
    {
      ghost var stored := bf[cp..];
      PowerStep(8, u, cp - 1);
      cp := cp - 1;
      bf[cp] := DigitChar(u % 8, upper);
      assert bf[cp..] == [DigitChar(u % 8, upper)] + stored;
      SplitStep(8, v, u, stored, upper);
      u := u / 8;
      if u == 0 {
        break;
      }
    }
  }

  lemma PowerStep(r: nat, u: nat, n: nat)
    requires r >= 2 && u < Power(r, n)
    ensures u > 0 ==> n > 0
    ensures n > 0 ==> u / r < Power(r, n - 1)
    ensures n > 0 && u >= r ==> n > 1
  {
    if n > 0 {
      Quotient(u, r, Power(r, n - 1));
    }
  }

  lemma DigitsStep(r: nat, u: nat, upper: bool)
    requires 2 <= r <= 16
    ensures u >= r ==> Digits(r, u, upper) == Digits(r, u / r, upper) + [DigitChar(u % r, upper)]
    ensures u < r ==> u % r == u && Digits(r, u, upper) == [DigitChar(u, upper)]
  {
  }

  lemma SplitStart(r: nat, v: nat, upper: bool)
    requires 2 <= r <= 16
    ensures Split(r, v, v, "", upper)
  {
    assert Digits(r, v, upper) + "" == Digits(r, v, upper);
  }

  lemma SplitStep(r: nat, v: nat, u: nat, stored: string, upper: bool)
    requires 2 <= r <= 16 && Split(r, v, u, stored, upper)
    ensures u >= r ==> Split(r, v, u / r, [DigitChar(u % r, upper)] + stored, upper)
    ensures u < r ==> Digits(r, v, upper) == [DigitChar(u % r, upper)] + stored
  {
    hide Digits, DigitChar;
    DigitsStep(r, u, upper);
    Associative(Digits(r, u / r, upper), [DigitChar(u % r, upper)], stored);
  }

  method DecimalDigits(bf: array<char>, v: nat, upper: bool) returns (cp: nat)
    requires bf.Length == BUFSIZE && v < QUAD
    modifies bf
    ensures cp < BUFSIZE
    ensures bf[cp..] == Digits(10, v, upper)
  {
    hide Digits, DigitChar, Power, Split;
    DecPowers();
    SplitStart(10, v, upper);
    cp := BUFSIZE;
    var u: nat := v;
    assert bf[cp..] == "";
    while u >= 10
      invariant 3 <= cp <= BUFSIZE
      invariant u < Power(10, cp - 3)
      invariant Split(10, v, u, bf[cp..], upper)
    {
      ghost var stored := bf[cp..];
      PowerStep(10, u, cp - 3);
      cp := cp - 1;
      bf[cp] := DigitChar(u % 10, upper);
      assert bf[cp..] == [DigitChar(u % 10, upper)] + stored;
      SplitStep(10, v, u, stored, upper);
      u := u / 10;
    }

    ghost var stored := bf[cp..];
    cp := cp - 1;
    bf[cp] := DigitChar(u, upper);
    assert bf[cp..] == [DigitChar(u, upper)] + stored;
    SplitStep(10, v, u, stored, upper);
    DigitsStep(10, u, upper);
  }

  method HexDigits(bf: array<char>, v: nat, upper: bool) returns (cp: nat)
    requires bf.Length == BUFSIZE && v < QUAD
    modifies bf
    ensures cp < BUFSIZE
    ensures bf[cp..] == Digits(16, v, upper)
  {
    hide Digits, DigitChar, Power, Split;
    HexPowers();
    SplitStart(16, v, upper);
    cp := BUFSIZE;
    var u: nat := v;
    assert bf[cp..] == "";
    while true
      invariant 7 <= cp <= BUFSIZE
      invariant u < Power(16, cp - 7)
      invariant cp < BUFSIZE ==> u > 0
      invariant Split(16, v, u, bf[cp..], upper)
      decreases u
    {
      ghost var stored := bf[cp..];
      PowerStep(16, u, cp - 7);
      cp := cp - 1;
      bf[cp] := DigitChar(u % 16, upper);
      assert bf[cp..] == [DigitChar(u % 16, upper)] + stored;
      SplitStep(16, v, u, stored, upper);
      u := u / 16;
      if u == 0 {
        break;
      }
    }
  }
}
