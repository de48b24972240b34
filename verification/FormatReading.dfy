/** Reading a field back: the number a strtol-like reader finds in what a
    conversion of CLibrary/printf.c emits. */
module FormatReading {
  import opened FormatNumbers
  import opened FormatFields
  import opened Sequences

  function SkipBlanks(s: string): string {
    if s != "" && s[0] == ' ' then SkipBlanks(s[1..]) else s
  }

  /** The length of the longest numeral at the start of s. */
  function NumeralEnd(r: nat, s: string): (n: nat)
    ensures n <= |s| && IsNumeral(r, s[..n])
    ensures n == |s| || DigitValue(s[n]) >= r
  {
    if s == "" || DigitValue(s[0]) >= r then 0 else 1 + NumeralEnd(r, s[1..])
  }

  function ReadDigits(r: nat, s: string): nat {
    Value(r, s[..NumeralEnd(r, s)])
  }

  function DropHexPrefix(r: nat, s: string): string {
    if r == 16 && |s| >= 2 && s[0] == '0' && s[1] in "xX" then s[2..] else s
  }

  function WithSign(negative: bool, v: nat): int {
    var i: int := v;
    if negative then -i else i
  }

  function ReadSigned(r: nat, s: string): int {
    if s != "" && s[0] == '-' then WithSign(true, ReadDigits(r, DropHexPrefix(r, s[1..])))
    else if s != "" && s[0] == '+' then ReadDigits(r, DropHexPrefix(r, s[1..]))
    else ReadDigits(r, DropHexPrefix(r, s))
  }

  /** Blanks, a sign, a 0x for radix 16, then digits. */
  function Read(r: nat, s: string): int {
    ReadSigned(r, SkipBlanks(s))
  }

  lemma {:induction false} SkipFill(n: nat, s: string)
    ensures SkipBlanks(Fill(' ', n) + s) == SkipBlanks(s)
  {
    var t := Fill(' ', n) + s;
    if n > 0 {
      assert t[1..] == Fill(' ', n - 1) + s;
      SkipFill(n - 1, s);
    } else {
      assert t == s;
    }
  }

  lemma NumeralEndStep(r: nat, s: string)
    ensures s == "" || DigitValue(s[0]) >= r ==> NumeralEnd(r, s) == 0
    ensures s != "" && DigitValue(s[0]) < r ==> NumeralEnd(r, s) == 1 + NumeralEnd(r, s[1..])
  {
  }

  lemma NumeralTail(r: nat, s: string)
    requires IsNumeral(r, s) && s != ""
    ensures DigitValue(s[0]) < r && IsNumeral(r, s[1..])
  {
  }

  lemma {:induction false} NumeralEnds(r: nat, num: string, rest: string)
    requires IsNumeral(r, num)
    requires rest == "" || DigitValue(rest[0]) >= r
    ensures NumeralEnd(r, num + rest) == |num|
    ensures ReadDigits(r, num + rest) == Value(r, num)
  {
    hide NumeralEnd, DigitValue, Value, IsNumeral;
    var s := num + rest;
    NumeralEndStep(r, s);
    if num == "" {
      assert s == rest;
    } else {
      NumeralTail(r, num);
      assert s[0] == num[0] && s[1..] == num[1..] + rest;
      NumeralEnds(r, num[1..], rest);
    }
    assert s[..|num|] == num;
  }

  /** What follows the prefix of a number: digits, then blanks to the right. */
  predicate Plain(r: nat, num: string, rest: string) {
    && IsNumeral(r, num)
    && 2 <= r <= 16
    && forall k :: 0 <= k < |rest| ==> rest[k] == ' '
  }

  lemma NoHexPrefix(r: nat, num: string, rest: string)
    requires Plain(r, num, rest)
    ensures DropHexPrefix(r, num + rest) == num + rest
  {
    var s := num + rest;
    assert |num| >= 2 ==> s[1] == num[1] && DigitValue(num[1]) < 16;
    assert |num| == 1 && |s| >= 2 ==> s[1] == rest[0];
    assert num == "" && s != "" ==> s[0] == rest[0];
  }

  lemma PlainReads(r: nat, num: string, rest: string)
    requires Plain(r, num, rest)
    ensures ReadDigits(r, DropHexPrefix(r, num + rest)) == Value(r, num)
    ensures ReadDigits(r, num + rest) == Value(r, num)
  {
    hide DropHexPrefix, ReadDigits, Value, IsNumeral;
    NumeralEnds(r, num, rest);
    NoHexPrefix(r, num, rest);
  }

  lemma PlainSkips(r: nat, num: string, rest: string)
    requires Plain(r, num, rest)
    ensures ReadSigned(r, SkipBlanks(num + rest)) == Value(r, num)
  {
    var s := num + rest;
    PlainReads(r, num, rest);
    if num == "" {
      assert s == Fill(' ', |rest|) + "";
      SkipFill(|rest|, "");
    } else {
      assert s[0] == num[0] && DigitValue(num[0]) < r;
    }
  }

  /** A number field as Piece makes them. */
  predicate Numeric(f: Field, r: nat) {
    && 2 <= r <= 16
    && IsNumeral(r, f.body)
    && (f.sign == '\0' || (f.sign in "+- " && r != 16))
    && (f.hex ==> r == 16 && f.ch in "xX")
  }

  lemma NumeralAppend(r: nat, a: string, b: string)
    requires IsNumeral(r, a) && IsNumeral(r, b)
    ensures IsNumeral(r, a + b)
  {
  }

  lemma ZerosAreOne(f: Field)
    ensures Zeros(f) == Fill('0', |Zeros(f)|)
  {
  }

  lemma LayoutParts(f: Field)
    ensures Layout(f) == Left(f) + (Prefix(f) + ((Zeros(f) + f.body) + Right(f)))
    ensures Left(f) == Fill(' ', |Left(f)|)
    ensures forall k :: 0 <= k < |Right(f)| ==> Right(f)[k] == ' '
  {
  }

  lemma SignReads(r: nat, sign: char, s: string)
    requires sign == '+' || sign == '-'
    ensures ReadSigned(r, SkipBlanks([sign] + s))
         == WithSign(sign == '-', ReadDigits(r, DropHexPrefix(r, s)))
  {
    var t := [sign] + s;
    assert t[0] == sign && t[1..] == s;
  }

  lemma HexReads(ch: char, s: string)
    requires ch in "xX"
    ensures ReadSigned(16, SkipBlanks(['0', ch] + s)) == ReadDigits(16, s)
  {
    var t := ['0', ch] + s;
    assert t[0] == '0' && t[1] == ch && t[2..] == s;
  }

  lemma BlankReads(s: string)
    ensures SkipBlanks([' '] + s) == SkipBlanks(s)
  {
    assert ([' '] + s)[1..] == s;
  }

  lemma PrefixReads(f: Field, r: nat, num: string, rest: string)
    requires Numeric(f, r) && Plain(r, num, rest)
    ensures ReadSigned(r, SkipBlanks(Prefix(f) + (num + rest))) == WithSign(f.sign == '-', Value(r, num))
  {
    hide ReadSigned, SkipBlanks, ReadDigits, DropHexPrefix, IsNumeral, Value;
    var s := num + rest;
    PlainSkips(r, num, rest);
    PlainReads(r, num, rest);
    BlankReads(s);
    if f.sign == '+' || f.sign == '-' {
      SignReads(r, f.sign, s);
    } else if f.sign == '\0' && f.hex {
      HexReads(f.ch, s);
    } else {
      assert Prefix(f) == "" ==> Prefix(f) + s == s;
    }
  }

  /** Whatever the width, precision, padding and prefix, the field of a number
      reads back as that number. */
  lemma FieldReads(f: Field, r: nat)
    requires Numeric(f, r)
    ensures Read(r, Layout(f)) == WithSign(f.sign == '-', Value(r, f.body))
  {
    hide Layout, Prefix, Left, Right, Zeros, SkipBlanks, ReadSigned, Value, IsNumeral;
    var num := Zeros(f) + f.body;
    ZerosAreOne(f);
    LeadingZeros(r, |Zeros(f)|, f.body);
    ZerosNumeral(r, |Zeros(f)|);
    NumeralAppend(r, Zeros(f), f.body);
    LayoutParts(f);
    SkipFill(|Left(f)|, Prefix(f) + (num + Right(f)));
    PrefixReads(f, r, num, Right(f));
  }

  lemma ZerosNumeral(r: nat, n: nat)
    ensures r >= 2 ==> IsNumeral(r, Fill('0', n))
  {
  }

  lemma NumberTextDenotes(base: Base, v: nat, alt: bool, upper: bool, prec: int)
    ensures Value(Radix(base), NumberText(base, v, alt, upper, prec)) == v
    ensures IsNumeral(Radix(base), NumberText(base, v, alt, upper, prec))
    ensures alt && base == Oct && !(v == 0 && prec == 0) ==>
              NumberText(base, v, alt, upper, prec) != "" && NumberText(base, v, alt, upper, prec)[0] == '0'
  {
    hide Digits, IsNumeral;
    var r := Radix(base);
    DigitsDenote(r, v, upper);
    LeadingZeros(r, 1, Digits(r, v, upper));
    ZerosNumeral(r, 1);
    ZerosNumeral(r, 0);
    assert Fill('0', 1) == "0" && Fill('0', 0) == "";
    NumeralAppend(r, "0", Digits(r, v, upper));
  }

  predicate ValidSign(c: Conv) {
    c.sign == '\0' || c.sign == '+' || c.sign == ' '
  }

  lemma NumberFieldReads(c: Conv, base: Base, v: nat, sign: char, hex: bool, ch: char)
    requires sign == '\0' || (sign in "+- " && base != Hex)
    requires hex ==> base == Hex && ch in "xX"
    ensures Read(Radix(base), Layout(NumberField(c, base, v, sign, hex, ch))) == WithSign(sign == '-', v)
  {
    hide Layout, Read;
    NumberTextDenotes(base, v, c.alt, ch == 'X', c.prec);
    FieldReads(NumberField(c, base, v, sign, hex, ch), Radix(base));
  }

  /** d and i print the signed value of their argument, for all flags. */
  lemma SignedReadsBack(c: Conv, ch: char, args: seq<Arg>, a: nat)
    requires ValidSign(c) && IsSigned(ch) && Piece(c, ch, args, a).Some?
    ensures SArg(Widen(c, ch), args, a) == Some(Read(10, Layout(Piece(c, ch, args, a).value.0)))
  {
    hide Layout, Read, NumberField;
    var v := SArg(Widen(c, ch), args, a).value;
    NumberFieldReads(c, Dec, Magnitude(v), if v < 0 then '-' else c.sign, false, ch);
  }

  /** o, u, x and X print the unsigned value of theirs, in their own radix. */
  lemma UnsignedReadsBack(c: Conv, ch: char, args: seq<Arg>, a: nat)
    requires UnsignedBase(ch).Some? && ch != '\0' && Piece(c, ch, args, a).Some?
    ensures UArg(Widen(c, ch), args, a)
         == Some(Read(Radix(UnsignedBase(ch).value), Layout(Piece(c, ch, args, a).value.0)))
  {
    hide Layout, Read, NumberField;
    var v, base := UArg(Widen(c, ch), args, a).value, UnsignedBase(ch).value;
    NumberFieldReads(c, base, v, '\0', base == Hex && c.alt && v != 0, ch);
  }

  /** The digits of a number field, padding zeros included. */
  function Numeral(f: Field): string {
    Zeros(f) + f.body
  }

  /** A precision is the least number of digits, and no zero is added for the
      field width when one is given. */
  lemma PrecisionIsLeast(c: Conv, base: Base, v: nat, sign: char, hex: bool, ch: char)
    requires c.prec >= 0
    ensures var f := NumberField(c, base, v, sign, hex, ch);
            |Numeral(f)| == Most(c.prec, |f.body|) && Value(Radix(base), Numeral(f)) == v
  {
    hide Value, Digits;
    var f := NumberField(c, base, v, sign, hex, ch);
    ZerosAreOne(f);
    LeadingZeros(Radix(base), |Zeros(f)|, f.body);
    NumberTextDenotes(base, v, c.alt, ch == 'X', c.prec);
  }

  predicate LeadsWithZero(s: string) {
    s != "" && s[0] == '0'
  }

  /** Alternate octal starts with a 0, except when zero is printed with a
      precision of zero: the standard asks for a single 0 there (section
      7.19.6.1 of ISO/IEC 9899:1999), line 466 prints nothing. */
  lemma AlternateOctal(c: Conv, v: nat, ch: char)
    requires c.alt
    ensures LeadsWithZero(Numeral(NumberField(c, Oct, v, '\0', false, ch))) <==> !(v == 0 && c.prec == 0)
  {
    hide Digits, Value, IsNumeral;
    var f := NumberField(c, Oct, v, '\0', false, ch);
    NumberTextDenotes(Oct, v, true, ch == 'X', c.prec);
    ZerosAreOne(f);
    if Zeros(f) != "" {
      assert Numeral(f)[0] == '0';
    } else {
      assert Numeral(f) == f.body;
    }
  }

  /** Behind the blanks of an octal field comes its numeral. */
  lemma NumeralShows(f: Field)
    requires Prefix(f) == "" && IsNumeral(8, Numeral(f))
    ensures LeadsWithZero(SkipBlanks(Layout(f))) <==> LeadsWithZero(Numeral(f))
  {
    hide Layout, Prefix, Left, Right, Zeros;
    var num, rest := Numeral(f), Right(f);
    LayoutParts(f);
    assert Prefix(f) + (num + rest) == num + rest;
    SkipFill(|Left(f)|, num + rest);
    if num == "" {
      assert num + rest == Fill(' ', |rest|) + "";
      SkipFill(|rest|, "");
    } else {
      assert DigitValue(num[0]) < 8;
      assert (num + rest)[0] == num[0];
    }
  }

  /** The same of the whole field that Piece makes for o and O. */
  lemma OctalPiece(c: Conv, ch: char, args: seq<Arg>, a: nat)
    requires c.alt && ch in "oO" && Piece(c, ch, args, a).Some?
    ensures var v := UArg(Widen(c, ch), args, a);
            && v.Some?
            && (LeadsWithZero(SkipBlanks(Layout(Piece(c, ch, args, a).value.0))) <==> !(v == Some(0) && c.prec == 0))
  {
    hide Layout, SkipBlanks, LeadsWithZero, NumberText, Numeral, IsNumeral;
    var v := UArg(Widen(c, ch), args, a).value;
    var f := NumberField(c, Oct, v, '\0', false, ch);
    AlternateOctal(c, v, ch);
    OctalNumeral(c, v, ch);
    NumeralShows(f);
  }

  lemma OctalNumeral(c: Conv, v: nat, ch: char)
    ensures IsNumeral(8, Numeral(NumberField(c, Oct, v, '\0', false, ch)))
  {
    hide NumberText, IsNumeral;
    var f := NumberField(c, Oct, v, '\0', false, ch);
    NumberTextDenotes(Oct, v, c.alt, ch == 'X', c.prec);
    ZerosAreOne(f);
    ZerosNumeral(8, |Zeros(f)|);
    NumeralAppend(8, Zeros(f), f.body);
  }

  /** The zeros a precision asks for. */
  function Leading(f: Field): string {
    Fill('0', Most(0, f.dprec - |f.body|))
  }

  lemma Regroup(p: string, z: string, b: string, x: string)
    ensures "" + p + z + b + x == (p + (z + b)) + x
    ensures x + p + z + b + "" == x + (p + (z + b))
    ensures "" + p + (x + z) + b + "" == p + x + (z + b)
    ensures "" + p + z + b + "" == p + (z + b)
    ensures "" + z == z
    ensures (p + (z + b))[..|p|] == p && (p + (z + b))[|p|..] == z + b
  {
  }

  lemma FillNone(c: char)
    ensures Fill(c, 0) == ""
  {
  }

  /** The field without a width is its prefix, zeros and digits. */
  lemma PlainLayout(f: Field)
    ensures Layout(f.(width := 0)) == Prefix(f) + (Leading(f) + f.body)
  {
    hide Fill;
    FillNone('0');
    FillNone(' ');
    Regroup(Prefix(f), Leading(f), f.body, "");
  }

  lemma PaddedLayout(f: Field)
    ensures f.ladjust ==> Layout(f) == "" + Prefix(f) + Leading(f) + f.body + Fill(' ', Padding(f))
    ensures !f.ladjust && !f.zeropad ==> Layout(f) == Fill(' ', Padding(f)) + Prefix(f) + Leading(f) + f.body + ""
    ensures !f.ladjust && f.zeropad ==>
              Layout(f) == "" + Prefix(f) + (Fill('0', Padding(f)) + Leading(f)) + f.body + ""
  {
    hide Fill, Prefix, Padding;
    FillNone('0');
    Regroup("", Leading(f), "", "");
  }

  /** A width adds blanks on one side of the field without a width, or zeros
      behind its prefix; with the minus flag never zeros. */
  lemma WidthPads(f: Field)
    ensures var plain, pad := Layout(f.(width := 0)), Padding(f);
            && |plain| == RealSize(f) && |Prefix(f)| <= |plain| && plain[..|Prefix(f)|] == Prefix(f)
            && (f.ladjust ==> Layout(f) == plain + Fill(' ', pad))
            && (!f.ladjust && !f.zeropad ==> Layout(f) == Fill(' ', pad) + plain)
            && (!f.ladjust && f.zeropad ==> Layout(f) == Prefix(f) + Fill('0', pad) + plain[|Prefix(f)|..])
  {
    PlainSize(f);
    hide Layout, Fill, Prefix, Padding, Leading, RealSize;
    PlainLayout(f);
    PaddedLayout(f);
    Regroup(Prefix(f), Leading(f), f.body, Fill(' ', Padding(f)));
    Regroup(Prefix(f), Leading(f), f.body, Fill('0', Padding(f)));
  }

  lemma PlainSize(f: Field)
    ensures |Layout(f.(width := 0))| == RealSize(f) && |Prefix(f)| <= RealSize(f)
  {
    LayoutLength(f.(width := 0));
  }

  /** The sign of a signed conversion: a minus exactly for negative values, and
      otherwise what the flags ask for. */
  lemma SignShown(c: Conv, ch: char, args: seq<Arg>, a: nat)
    requires ValidSign(c) && IsSigned(ch) && Piece(c, ch, args, a).Some?
    ensures var v := SArg(Widen(c, ch), args, a).value;
            var text := Layout(Piece(c, ch, args, a).value.0.(width := 0));
            if v < 0 then text != "" && text[0] == '-'
            else if c.sign != '\0' then text != "" && text[0] == c.sign
            else text == "" || DigitValue(text[0]) < 10
  {
    hide Layout, NumberField, DigitValue;
    var v := SArg(Widen(c, ch), args, a).value;
    SignedFieldStarts(c, Magnitude(v), if v < 0 then '-' else c.sign, ch);
  }

  lemma SignedFieldStarts(c: Conv, v: nat, sign: char, ch: char)
    ensures var text := Layout(NumberField(c, Dec, v, sign, false, ch).(width := 0));
            if sign != '\0' then text != "" && text[0] == sign else text == "" || DigitValue(text[0]) < 10
  {
    hide Layout, Leading, NumberText, DigitValue, Value, IsNumeral;
    var f := NumberField(c, Dec, v, sign, false, ch);
    var s := Leading(f) + f.body;
    PlainLayout(f);
    NumberTextDenotes(Dec, v, c.alt, ch == 'X', c.prec);
    LeadingNumeral(f);
    NumeralAppend(10, Leading(f), f.body);
    NumeralHead(s);
    Headed(Prefix(f), s);
  }

  lemma LeadingNumeral(f: Field)
    ensures IsNumeral(10, Leading(f))
  {
  }

  lemma NumeralHead(s: string)
    ensures IsNumeral(10, s) && s != "" ==> DigitValue(s[0]) < 10
  {
  }

  lemma Headed(p: string, s: string)
    ensures p == "" ==> p + s == s
    ensures |p| == 1 ==> (p + s)[0] == p[0]
  {
  }
}
