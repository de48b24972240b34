/** The text section 7.19.6.1 of ISO/IEC 9899:1999 gives a directive, read off the directive itself, and
    the proof that CLibrary/printf.c prints it. What the standard leaves open is as the code has it: the
    0 flag with c and s, p, and a character that is no conversion; D, O and U stand for ld, lo and lu. */
module FormatStandard {
  import opened FormatNumbers
  import opened FormatFields
  import opened FormatDirectives
  import opened FormatSyntax
  import opened FormatReading
  import opened FormatShortfalls
  import opened Formatting
  import opened Sequences

  // ---------- the standard ----------

  function Stars(m: Amount): nat {
    if m.FromArg? then 1 else 0
  }

  /** An int argument a star stands for. */
  function StarAt(args: seq<Arg>, a: nat): Option<int> {
    match Fetch(args, a, IntKind)
    case None => None
    case Some(v) => Some(Signed(v, 0x1_0000_0000))
  }

  /** The field width; a negative one comes from an argument and stands for a minus flag. */
  function WidthOf(d: Directive, args: seq<Arg>, a: nat): Option<int> {
    match d.width
    case Fixed(_, n) => Some(n)
    case FromArg => StarAt(args, a)
    case _ => Some(0)
  }

  /** The precision; a negative one is as if it were omitted. */
  function PrecisionOf(d: Directive, args: seq<Arg>, a: nat): Option<int> {
    match d.prec
    case Fixed(_, n) => Some(n)
    case FromArg => StarAt(args, a + Stars(d.width))
    case Empty => Some(0)
    case Absent => Some(-1)
  }

  /** Where the argument to be converted is. */
  function ValueAt(d: Directive, a: nat): nat {
    a + Stars(d.width) + Stars(d.prec)
  }

  predicate LeftJustified(d: Directive, width: int) {
    Minus in d.flags || width < 0
  }

  /** Blanks up to the width, or zeros between the prefix and the digits. */
  function Justified(d: Directive, width: int, zeros: bool, prefix: string, body: string): string {
    var missing := Most(0, Magnitude(width) - |prefix| - |body|);
    if LeftJustified(d, width) then prefix + body + Fill(' ', missing)
    else if zeros then prefix + Fill('0', missing) + body
    else Fill(' ', missing) + prefix + body
  }

  /** The sign of a signed conversion. */
  function SignText(d: Directive, negative: bool): string {
    if negative then "-" else if Plus in d.flags then "+" else if Space in d.flags then " " else ""
  }

  /** The precision is the least number of digits, and zero has none under a precision of zero. */
  function Precise(base: Base, v: nat, upper: bool, precision: int): string {
    var digits := if v == 0 && precision == 0 then "" else Digits(Radix(base), v, upper);
    Fill('0', Most(0, precision - |digits|)) + digits
  }

  /** The alternate form of octal: one digit more if the first is not a zero. */
  function LeadingZero(s: string): string {
    if s != "" && s[0] == '0' then s else "0" + s
  }

  /** The type a length modifier asks for. */
  function TypeOf(d: Directive): Kind {
    match d.length
    case J => MaxKind
    case T => PtrKind
    case Z => SizeKind
    case LL => QuadKind
    case Q => QuadKind
    case L => LongKind
    case _ => if d.ch in "DOU" then LongKind else IntKind
  }

  /** How many values the converted type has. */
  function ValuesOf(d: Directive): (m: nat)
    ensures m > 0 && m % 2 == 0 && m <= QUAD
  {
    match TypeOf(d)
    case IntKind => if d.length == HH then 0x100 else if d.length == H then 0x1_0000 else 0x1_0000_0000
    case QuadKind => 0x1_0000_0000_0000_0000
    case MaxKind => 0x1_0000_0000_0000_0000
    case _ => 0x1_0000_0000
  }

  function SignedText(d: Directive, width: int, precision: int, v: int): string {
    Justified(d, width, Zero in d.flags && precision < 0, SignText(d, v < 0), Precise(Dec, Magnitude(v), false, precision))
  }

  function UnsignedText(d: Directive, width: int, precision: int, base: Base, v: nat): string {
    var digits := Precise(base, v, d.ch == 'X', precision);
    Justified(d, width, Zero in d.flags && precision < 0,
              if base == Hex && Alt in d.flags && v != 0 then ['0', d.ch] else "",
              if base == Oct && Alt in d.flags then LeadingZero(digits) else digits)
  }

  function PlainText(d: Directive, width: int, body: string): string {
    Justified(d, width, Zero in d.flags, "", body)
  }

  /** The text of a directive with the arguments from a on, and the next argument. */
  function Standard(d: Directive, args: seq<Arg>, a: nat): Option<(string, nat)> {
    match WidthOf(d, args, a)
    case None => None
    case Some(width) =>
      match PrecisionOf(d, args, a)
      case None => None
      case Some(precision) =>
        var at := ValueAt(d, a);
        match d.ch
        case 'd' | 'i' | 'D' =>
          (match Fetch(args, at, TypeOf(d))
           case None => None
           case Some(x) => Some((SignedText(d, width, precision, Signed(x, ValuesOf(d))), at + 1)))
        case 'o' | 'O' =>
          (match Fetch(args, at, TypeOf(d))
           case None => None
           case Some(x) => Some((UnsignedText(d, width, precision, Oct, x % ValuesOf(d)), at + 1)))
        case 'u' | 'U' =>
          (match Fetch(args, at, TypeOf(d))
           case None => None
           case Some(x) => Some((UnsignedText(d, width, precision, Dec, x % ValuesOf(d)), at + 1)))
        case 'x' | 'X' =>
          (match Fetch(args, at, TypeOf(d))
           case None => None
           case Some(x) => Some((UnsignedText(d, width, precision, Hex, x % ValuesOf(d)), at + 1)))
        case 'c' =>
          (match Fetch(args, at, IntKind)
           case None => None
           case Some(x) => Some((PlainText(d, width, [(x % 256) as char]), at + 1)))
        case 's' =>
          if at < |args| && args[at].Str? then
            var bytes := if args[at].bytes.Some? then args[at].bytes.value else "(null)\0";
            match StringSize(bytes, precision)
            case None => None
            case Some(n) => Some((PlainText(d, width, bytes[..n]), at + 1))
          else None
        case 'p' =>
          (match Fetch(args, at, AddressKind)
           case None => None
           case Some(x) =>
             Some((Justified(d, width, Zero in d.flags && precision < 0, "0x",
                             Precise(Hex, x % 0x1_0000_0000, false, precision)), at + 1)))
        case 'n' => None
        case ch => Some((PlainText(d, width, [ch]), at))
  }

  // ---------- the state that scanning gathers ----------

  function FlagSign(flags: seq<Flag>): char {
    if Plus in flags then '+' else if Space in flags then ' ' else '\0'
  }

  /** What the code has gathered is what the directive says. */
  ghost predicate Gathered(d: Directive, width: int, precision: int, c: Conv) {
    && c.alt == (Alt in d.flags) && c.ladjust == LeftJustified(d, width) && c.zeropad == (Zero in d.flags)
    && c.width == Magnitude(width) && c.prec == (if precision < 0 then -1 else precision)
    && c.sign == FlagSign(d.flags)
    && c.shortint == (d.length == HH || d.length == H) && c.longint == (d.length == L)
    && c.quadint == (d.length == LL || d.length == Q) && c.maxint == (d.length == J)
    && c.ptrint == (d.length == T) && c.sizeint == (d.length == Z)
  }

  lemma StarIsRead(args: seq<Arg>, a: nat)
    ensures IntArg(args, a) == StarAt(args, a)
  {
  }

  lemma FlagsGather(flags: seq<Flag>)
    ensures Flagged(flags, START)
         == START.(alt := Alt in flags, ladjust := Minus in flags, zeropad := Zero in flags, sign := FlagSign(flags))
  {
  }

  lemma WidthGathers(d: Directive, args: seq<Arg>, a: nat, c: Conv)
    requires WellFormed(d) && c.width == 0
    ensures match Widened(d.width, args, a, c)
            case None => WidthOf(d, args, a).None?
            case Some(w) =>
              && WidthOf(d, args, a).Some? && w.1 == a + Stars(d.width)
              && w.0 == c.(width := Magnitude(WidthOf(d, args, a).value), ladjust := c.ladjust || WidthOf(d, args, a).value < 0)
  {
    hide IntArg, StarAt;
    StarIsRead(args, a);
  }

  function LimitedTo(c: Conv, precision: int): Conv {
    c.(prec := if precision < 0 then -1 else precision)
  }

  lemma Unlimited(c: Conv)
    requires c.prec == -1
    ensures LimitedTo(c, -1) == c
  {
  }

  lemma LimitedIs(m: Amount, args: seq<Arg>, a: nat, c: Conv)
    ensures m.Fixed? ==> Limited(m, args, a, c) == Some((LimitedTo(c, m.n), a))
    ensures m.Empty? ==> Limited(m, args, a, c) == Some((LimitedTo(c, 0), a))
    ensures m.Absent? ==> Limited(m, args, a, c) == Some((c, a))
    ensures m.FromArg? ==> Limited(m, args, a, c) == match IntArg(args, a)
                                                     case None => None
                                                     case Some(v) => Some((LimitedTo(c, v), a + 1))
  {
    hide IntArg;
  }

  lemma PrecisionGathers(d: Directive, args: seq<Arg>, a: nat, c: Conv)
    requires c.prec == -1
    ensures match Limited(d.prec, args, a + Stars(d.width), c)
            case None => PrecisionOf(d, args, a).None?
            case Some(m) =>
              && PrecisionOf(d, args, a).Some? && m.1 == ValueAt(d, a)
              && m.0 == LimitedTo(c, PrecisionOf(d, args, a).value)
  {
    hide IntArg, StarAt, Limited, LimitedTo;
    StarIsRead(args, a + Stars(d.width));
    LimitedIs(d.prec, args, a + Stars(d.width), c);
    Unlimited(c);
  }

  lemma LengthGathers(d: Directive, width: int, precision: int, c: Conv)
    requires c == START.(alt := Alt in d.flags, ladjust := LeftJustified(d, width), zeropad := Zero in d.flags,
                         width := Magnitude(width), prec := if precision < 0 then -1 else precision,
                         sign := FlagSign(d.flags))
    ensures Gathered(d, width, precision, Sized(d.length, c))
  {
    hide LeftJustified, FlagSign;
  }

  lemma Gathers(d: Directive, args: seq<Arg>, a: nat)
    requires WellFormed(d)
    ensures match Meaning(d, args, a)
            case None => WidthOf(d, args, a).None? || PrecisionOf(d, args, a).None?
            case Some(m) =>
              && WidthOf(d, args, a).Some? && PrecisionOf(d, args, a).Some? && m.1 == ValueAt(d, a)
              && Gathered(d, WidthOf(d, args, a).value, PrecisionOf(d, args, a).value, m.0)
  {
    hide Flagged, Widened, Limited, Sized, WidthOf, PrecisionOf, FlagSign, Gathered, ValueAt;
    var c := Flagged(d.flags, START);
    FlagsGather(d.flags);
    WidthGathers(d, args, a, c);
    var w := Widened(d.width, args, a, c);
    if w.Some? {
      PrecisionGathers(d, args, a, w.value.0);
      var m := Limited(d.prec, args, w.value.1, w.value.0);
      if m.Some? {
        LengthGathers(d, WidthOf(d, args, a).value, PrecisionOf(d, args, a).value, m.value.0);
      }
    }
  }

  // ---------- fields ----------

  /** A field is laid out as the standard justifies it. */
  lemma LayoutJustified(d: Directive, width: int, f: Field)
    requires f.ladjust == LeftJustified(d, width) && f.width == Magnitude(width)
    ensures Layout(f) == Justified(d, width, f.zeropad, Prefix(f), Leading(f) + f.body)
  {
    PlainSize(f);
    hide Layout, Fill, Prefix, Leading, LeftJustified;
    PaddedLayout(f);
    LeadingSize(f);
    var p, z, b, x, y := Prefix(f), Leading(f), f.body, Fill(' ', Padding(f)), Fill('0', Padding(f));
    Rearranged(p, z, b, x);
    Rearranged(p, z, b, y);
  }

  lemma LeadingSize(f: Field)
    ensures |Leading(f) + f.body| == Most(f.dprec, |f.body|)
  {
  }

  lemma Rearranged(p: string, z: string, b: string, x: string)
    ensures "" + p + z + b + x == p + (z + b) + x
    ensures x + p + z + b + "" == x + p + (z + b)
    ensures "" + p + (x + z) + b + "" == p + x + (z + b)
  {
  }

  /** The digits of a number field are those the standard asks for; one octal zero is missing. */
  lemma DigitsOfField(c: Conv, base: Base, v: nat, sign: char, hex: bool, ch: char, precision: int)
    requires c.prec == if precision < 0 then -1 else precision
    ensures var f := NumberField(c, base, v, sign, hex, ch);
            var p := Precise(base, v, ch == 'X', precision);
            Leading(f) + f.body == (if base == Oct && c.alt && !(v == 0 && precision == 0) then LeadingZero(p) else p)
  {
    hide Digits, Fill;
    var text := Digits(Radix(base), v, ch == 'X');
    hide DigitValue, DigitChar, IsNumeral, Value;
    DigitsDenote(Radix(base), v, ch == 'X');
    ZerosThenDigit(text, precision);
  }

  lemma ZerosThenDigit(text: string, precision: int)
    requires text != ""
    ensures LeadingZero(Fill('0', Most(0, precision - |text|)) + text)
         == if text[0] == '0' then Fill('0', Most(0, precision - |text|)) + text
            else Fill('0', Most(0, precision - |text| - 1)) + ("0" + text)
    ensures Fill('0', Most(0, precision)) + "" == Fill('0', Most(0, precision))
  {
    var n := Most(0, precision - |text|);
    var s := Fill('0', n) + text;
    if n > 0 {
      assert Fill('0', n) == Fill('0', n - 1) + "0";
    } else {
      assert s == text;
      assert Fill('0', 0) + ("0" + text) == "0" + text;
    }
  }

  /** How many values the code's narrowing leaves: hh is read as h. */
  function NarrowedTo(d: Directive): (m: nat)
    ensures m > 0 && m % 2 == 0 && m <= QUAD
  {
    if TypeOf(d) == IntKind && d.length == HH then 0x1_0000 else ValuesOf(d)
  }

  lemma ArgumentOf(d: Directive, width: int, precision: int, c: Conv)
    requires Gathered(d, width, precision, c)
    ensures ArgKind(Widen(c, d.ch)) == TypeOf(d) && ArgModulus(Widen(c, d.ch)) == NarrowedTo(d)
  {
  }

  /** The prefix of the field of a signed value, and of an unsigned one. */
  lemma PrefixOf(d: Directive, width: int, precision: int, c: Conv, v: int, f: Field)
    requires Gathered(d, width, precision, c)
    ensures f.sign == (if v < 0 then '-' else c.sign) && !f.hex ==> Prefix(f) == SignText(d, v < 0)
    ensures f.sign == '\0' ==> Prefix(f) == if f.hex then ['0', f.ch] else ""
  {
  }

  lemma SignedLayout(d: Directive, width: int, precision: int, c: Conv, v: int)
    requires Gathered(d, width, precision, c) && d.ch != 'X'
    ensures Layout(NumberField(c, Dec, Magnitude(v), if v < 0 then '-' else c.sign, false, d.ch))
         == SignedText(d, width, precision, v)
  {
    hide Layout, Justified, Precise, NumberText, Prefix, SignText, LeadingZero, FlagSign, Leading, LeftJustified;
    var f := NumberField(c, Dec, Magnitude(v), if v < 0 then '-' else c.sign, false, d.ch);
    PrefixOf(d, width, precision, c, v, f);
    DigitsOfField(c, Dec, Magnitude(v), if v < 0 then '-' else c.sign, false, d.ch, precision);
    LayoutJustified(d, width, f);
  }

  predicate OctalZero(base: Base, alt: bool, precision: int, v: nat) {
    base == Oct && alt && precision == 0 && v == 0
  }

  /** The field of an unsigned value as the standard wants it. */
  function StandardField(c: Conv, base: Base, v: nat, ch: char): Field {
    var f := NumberField(c, base, v, '\0', base == Hex && c.alt && v != 0, ch);
    if OctalZero(base, c.alt, c.prec, v) then f.(body := "0") else f
  }

  lemma UnsignedLayout(d: Directive, width: int, precision: int, c: Conv, base: Base, v: nat)
    requires Gathered(d, width, precision, c)
    ensures Layout(StandardField(c, base, v, d.ch)) == UnsignedText(d, width, precision, base, v)
  {
    hide Layout, Justified, Precise, NumberText, Prefix, LeadingZero, FlagSign, Leading, LeftJustified;
    var f := StandardField(c, base, v, d.ch);
    PrefixOf(d, width, precision, c, 0, f);
    DigitsOfField(c, base, v, '\0', base == Hex && c.alt && v != 0, d.ch, precision);
    OctalDigit(f, d.ch == 'X');
    LayoutJustified(d, width, f);
  }

  lemma OctalDigit(f: Field, upper: bool)
    ensures f.body == "0" && f.dprec == 0 ==> Leading(f) + f.body == LeadingZero(Precise(Oct, 0, upper, 0))
  {
    assert f.body == "0" && f.dprec == 0 ==> Leading(f) == "";
    assert Precise(Oct, 0, upper, 0) == "";
  }

  lemma PointerLayout(d: Directive, width: int, precision: int, c: Conv, v: nat)
    requires Gathered(d, width, precision, c)
    ensures Layout(NumberField(c, Hex, v, '\0', true, 'x'))
         == Justified(d, width, Zero in d.flags && precision < 0, "0x", Precise(Hex, v, false, precision))
  {
    hide Layout, Justified, Precise, NumberText, Prefix, LeadingZero, FlagSign, Leading, LeftJustified;
    var f := NumberField(c, Hex, v, '\0', true, 'x');
    PrefixOf(d, width, precision, c, 0, f);
    DigitsOfField(c, Hex, v, '\0', true, 'x', precision);
    LayoutJustified(d, width, f);
  }

  lemma PlainTextLayout(d: Directive, width: int, precision: int, c: Conv, body: string)
    requires Gathered(d, width, precision, c)
    ensures Layout(PlainField(c, body)) == PlainText(d, width, body)
  {
    hide Layout, Justified, FlagSign, LeftJustified;
    var f := PlainField(c, body);
    assert Leading(f) == "" && Prefix(f) == "";
    assert "" + body == body;
    LayoutJustified(d, width, f);
  }

  // ---------- where the code and the standard agree ----------

  /** The argument is right for hh although the code reads it as h, and it is no zero that alternate
      octal would have to show. */
  predicate AsStandard(d: Directive, args: seq<Arg>, a: nat) {
    match Fetch(args, ValueAt(d, a), TypeOf(d))
    case None => true
    case Some(x) =>
      && (d.ch in "di" && d.length == HH ==> -128 <= ShortOf(x) < 128)
      && (d.ch in "ouxX" && d.length == HH ==> x % 0x1_0000 < 0x100)
      && (d.ch in "oO" && Alt in d.flags && PrecisionOf(d, args, a) == Some(0) ==> x % ValuesOf(d) != 0)
  }

  lemma SignedTextReads(d: Directive, width: int, precision: int, c: Conv, v: int)
    requires Gathered(d, width, precision, c) && d.ch != 'X'
    ensures Read(10, SignedText(d, width, precision, v)) == v
  {
    hide Layout, Read, SignedText, NumberField;
    SignedLayout(d, width, precision, c, v);
    NumberFieldReads(c, Dec, Magnitude(v), if v < 0 then '-' else c.sign, false, d.ch);
  }

  lemma SignedCase(d: Directive, args: seq<Arg>, a: nat, width: int, precision: int, c: Conv, x: int)
    requires Gathered(d, width, precision, c) && d.ch in "diD" && Fetch(args, ValueAt(d, a), TypeOf(d)) == Some(x)
    ensures Piece(c, d.ch, args, ValueAt(d, a)).Some?
    ensures var piece := Piece(c, d.ch, args, ValueAt(d, a)).value;
            && piece.1 == ValueAt(d, a) + 1
            && (Layout(piece.0) == SignedText(d, width, precision, Signed(x, ValuesOf(d))) <==> AsStandard(d, args, a))
  {
    hide Layout, SignedText, NumberField, Read, Signed, Fetch, Gathered, Widen, TypeOf;
    ArgumentOf(d, width, precision, c);
    var v, w := Signed(x, NarrowedTo(d)), Signed(x, ValuesOf(d));
    SignedLayout(d, width, precision, c, v);
    SignedTextReads(d, width, precision, c, v);
    SignedTextReads(d, width, precision, c, w);
    SignedChar(x);
    OnlyInts(d);
  }

  lemma OnlyInts(d: Directive)
    ensures d.length == HH ==> (TypeOf(d) == IntKind <==> d.ch !in "DOU")
  {
  }

  lemma UnsignedTextReads(d: Directive, width: int, precision: int, c: Conv, base: Base, v: nat)
    requires Gathered(d, width, precision, c) && (base == Hex ==> d.ch in "xX")
    ensures Read(Radix(base), UnsignedText(d, width, precision, base, v)) == v
  {
    hide Layout, Read, UnsignedText, NumberText, Gathered, Value, IsNumeral;
    UnsignedLayout(d, width, precision, c, base, v);
    var f := StandardField(c, base, v, d.ch);
    NumberTextDenotes(base, v, c.alt, d.ch == 'X', c.prec);
    ZeroDenotes();
    FieldReads(f, Radix(base));
  }

  lemma ZeroDenotes()
    ensures Value(8, "0") == 0 && IsNumeral(8, "0")
  {
    SingleDigit(8, 0, false);
  }

  /** A missing octal zero shows. */
  lemma MissingZero(c: Conv, v: nat, ch: char)
    requires OctalZero(Oct, c.alt, c.prec, v)
    ensures Layout(StandardField(c, Oct, v, ch)) != Layout(NumberField(c, Oct, v, '\0', false, ch))
  {
    var f, g := NumberField(c, Oct, v, '\0', false, ch), StandardField(c, Oct, v, ch);
    hide Layout, SkipBlanks;
    AlternateOctal(c, v, ch);
    OctalNumeral(c, v, ch);
    NumeralShows(f);
    NumeralOfZero(g);
    NumeralShows(g);
  }

  lemma NumeralOfZero(g: Field)
    ensures g.body == "0" ==> IsNumeral(8, Numeral(g)) && LeadsWithZero(Numeral(g))
  {
    if g.body == "0" {
      ZeroDenotes();
      ZerosAreOne(g);
      ZerosNumeral(8, |Zeros(g)|);
      NumeralAppend(8, Zeros(g), "0");
    }
  }

  lemma UnsignedCase(d: Directive, args: seq<Arg>, a: nat, width: int, precision: int, c: Conv, base: Base, x: int)
    requires Gathered(d, width, precision, c) && UnsignedBase(d.ch) == Some(base)
    requires Fetch(args, ValueAt(d, a), TypeOf(d)) == Some(x) && PrecisionOf(d, args, a) == Some(precision)
    ensures Piece(c, d.ch, args, ValueAt(d, a)).Some?
    ensures var piece := Piece(c, d.ch, args, ValueAt(d, a)).value;
            && piece.1 == ValueAt(d, a) + 1
            && (Layout(piece.0) == UnsignedText(d, width, precision, base, x % ValuesOf(d)) <==> AsStandard(d, args, a))
  {
    hide Layout, UnsignedText, NumberField, Read, Fetch, Widen, TypeOf, PrecisionOf, FlagSign, LeftJustified;
    ArgumentOf(d, width, precision, c);
    var v, w := x % NarrowedTo(d), x % ValuesOf(d);
    UnsignedLayout(d, width, precision, c, base, v);
    UnsignedTextReads(d, width, precision, c, base, v);
    UnsignedTextReads(d, width, precision, c, base, w);
    UnsignedChar(x);
    OnlyInts(d);
    if OctalZero(base, c.alt, c.prec, v) {
      MissingZero(c, v, d.ch);
    }
  }

  lemma PointerCase(d: Directive, args: seq<Arg>, a: nat, width: int, precision: int, c: Conv)
    requires Gathered(d, width, precision, c) && d.ch == 'p'
    requires WidthOf(d, args, a) == Some(width) && PrecisionOf(d, args, a) == Some(precision)
    ensures match Piece(c, d.ch, args, ValueAt(d, a))
            case None => Standard(d, args, a) == None
            case Some(piece) => Standard(d, args, a) == Some((Layout(piece.0), piece.1))
  {
    hide Layout, Justified, NumberField, Fetch, Precise;
    var x := Fetch(args, ValueAt(d, a), AddressKind);
    if x.Some? {
      PointerLayout(d, width, precision, c, x.value % 0x1_0000_0000);
    }
  }

  lemma PlainCase(d: Directive, args: seq<Arg>, a: nat, width: int, precision: int, c: Conv)
    requires Gathered(d, width, precision, c) && d.ch !in "diDoOuUxXpn\0"
    requires WidthOf(d, args, a) == Some(width) && PrecisionOf(d, args, a) == Some(precision)
    ensures match Piece(c, d.ch, args, ValueAt(d, a))
            case None => Standard(d, args, a) == None
            case Some(piece) => Standard(d, args, a) == Some((Layout(piece.0), piece.1))
  {
    hide Layout, PlainText, PlainField, Fetch;
    var at := ValueAt(d, a);
    if d.ch == 'c' {
      var x := Fetch(args, at, IntKind);
      if x.Some? {
        PlainTextLayout(d, width, precision, c, [(x.value % 256) as char]);
      }
    } else if d.ch == 's' {
      if at < |args| && args[at].Str? {
        var bytes := if args[at].bytes.Some? then args[at].bytes.value else "(null)\0";
        var n := StringSize(bytes, precision);
        AnyNegative(bytes, precision);
        if n.Some? {
          PlainTextLayout(d, width, precision, c, bytes[..n.value]);
        }
      }
    } else {
      PlainTextLayout(d, width, precision, c, [d.ch]);
    }
  }

  lemma AnyNegative(bytes: string, precision: int)
    ensures precision < 0 ==> StringSize(bytes, precision) == StringSize(bytes, -1)
  {
  }

  /** The field that the code makes is the text of the standard if and only if the condition holds, and
      whether or not it does the next argument is the same. */
  lemma FieldIsStandard(d: Directive, args: seq<Arg>, a: nat)
    requires WellFormed(d) && Meaning(d, args, a).Some?
    ensures var m := Meaning(d, args, a).value;
            match Piece(m.0, d.ch, args, m.1)
            case None => Standard(d, args, a) == None
            case Some(piece) =>
              && Standard(d, args, a).Some? && Standard(d, args, a).value.1 == piece.1
              && (Standard(d, args, a).value.0 == Layout(piece.0) <==> AsStandard(d, args, a))
  {
    hide Meaning, Layout, Gathered, WidthOf, PrecisionOf, Fetch, ValueAt, SignedText, UnsignedText, Widen, ArgKind, SArg, UArg;
    Gathers(d, args, a);
    var c := Meaning(d, args, a).value.0;
    var width, precision := WidthOf(d, args, a).value, PrecisionOf(d, args, a).value;
    ArgumentOf(d, width, precision, c);
    var x := Fetch(args, ValueAt(d, a), TypeOf(d));
    if d.ch == 'p' {
      PointerCase(d, args, a, width, precision, c);
    } else if d.ch !in "diDoOuUxXpn" {
      PlainCase(d, args, a, width, precision, c);
    } else if d.ch in "diD" {
      if x.Some? {
        SignedCase(d, args, a, width, precision, c, x.value);
      } else {
        NothingFetched(c, args, ValueAt(d, a), d.ch);
      }
    } else if d.ch != 'n' {
      if x.Some? {
        UnsignedCase(d, args, a, width, precision, c, UnsignedBase(d.ch).value, x.value);
      } else {
        NothingFetched(c, args, ValueAt(d, a), d.ch);
      }
    }
  }

  lemma NothingFetched(c: Conv, args: seq<Arg>, at: nat, ch: char)
    requires ch in "diDoOuUxX" && Fetch(args, at, ArgKind(Widen(c, ch))) == None
    ensures Piece(c, ch, args, at) == None
  {
  }

  /** A directive that the code and the standard agree on is replaced, wherever it stands in a format, by
      the text the standard gives it. */
  lemma RendersStandard(fmt: string, p: nat, d: Directive, args: seq<Arg>, a: nat)
    requires CString(fmt) && WellFormed(d) && p < |fmt| && fmt[p] == '%' && Occurs(fmt, p + 1, Text(d))
    requires AsStandard(d, args, a)
    ensures Render(fmt, p, args, a)
         == match Standard(d, args, a)
            case None => None
            case Some(s) => Before(s.0, Render(fmt, p + 1 + |Text(d)|, args, s.1))
  {
    hide Meaning, Layout, Standard, Text, Piece, Render, AsStandard;
    DirectiveRenders(fmt, p, d, args, a);
    if Meaning(d, args, a).Some? {
      FieldIsStandard(d, args, a);
    } else {
      MeansNothing(d, args, a);
    }
  }

  lemma MeansNothing(d: Directive, args: seq<Arg>, a: nat)
    requires WellFormed(d) && Meaning(d, args, a) == None
    ensures Standard(d, args, a) == None
  {
    hide Meaning, WidthOf, PrecisionOf;
    Gathers(d, args, a);
  }

  /** What a format that is one directive prints is the text of the standard if and only if the condition
      holds. */
  lemma PrintsStandard(d: Directive, args: seq<Arg>, text: string)
    requires WellFormed(d) && Printed("%" + Text(d), args) == Some(text)
    ensures match Standard(d, args, 0)
            case None => false
            case Some(s) => s.0 == text <==> AsStandard(d, args, 0)
  {
    hide Meaning, Layout, Standard, Text, Piece, Render, AsStandard, CString;
    SingleDirective(d, args, text);
    FieldIsStandard(d, args, 0);
  }

  // ---------- single conversions ----------

  /** body in a field of so many characters: at the left with blanks behind it, or at the right behind
      blanks, or behind zeros under the 0 flag. */
  ghost predicate Padded(d: Directive, width: int, body: string, text: string) {
    && |text| == Most(if width < 0 then -width else width, |body|)
    && var n := |text| - |body|;
       if Minus in d.flags || width < 0 then
         text[..|body|] == body && forall k | |body| <= k < |text| :: text[k] == ' '
       else
         text[n..] == body && forall k | 0 <= k < n :: text[k] == if Zero in d.flags then '0' else ' '
  }

  lemma PlainTextPadded(d: Directive, width: int, body: string)
    ensures Padded(d, width, body, PlainText(d, width, body))
  {
    var missing := Most(0, Magnitude(width) - |body|);
    assert "" + body == body && "" + Fill('0', missing) == Fill('0', missing) && Fill(' ', missing) + "" == Fill(' ', missing);
  }

  /** %c prints the one byte its argument narrows to. */
  lemma PrintedChar(d: Directive, args: seq<Arg>, text: string)
    requires WellFormed(d) && d.ch == 'c' && Printed("%" + Text(d), args) == Some(text)
    ensures match (WidthOf(d, args, 0), Fetch(args, ValueAt(d, 0), IntKind))
            case (Some(width), Some(v)) => Padded(d, width, [(v % 256) as char], text)
            case _ => false
  {
    hide Printed, Text, Padded, WidthOf, PrecisionOf, Fetch, PlainText;
    PrintsStandard(d, args, text);
    var v := Fetch(args, ValueAt(d, 0), IntKind).value;
    PlainTextPadded(d, WidthOf(d, args, 0).value, [(v % 256) as char]);
  }

  /** %s prints the longest beginning of its argument that holds no NUL and that the precision allows;
      "(null)" stands for a null pointer. */
  lemma PrintedString(d: Directive, args: seq<Arg>, text: string)
    requires WellFormed(d) && d.ch == 's' && Printed("%" + Text(d), args) == Some(text)
    ensures ValueAt(d, 0) < |args| && args[ValueAt(d, 0)].Str?
    ensures match (WidthOf(d, args, 0), PrecisionOf(d, args, 0))
            case (Some(width), Some(precision)) =>
              var bytes := if args[ValueAt(d, 0)].bytes.Some? then args[ValueAt(d, 0)].bytes.value else "(null)\0";
              exists n :: 0 <= n <= |bytes| && Padded(d, width, bytes[..n], text)
                          && '\0' !in bytes[..n] && (precision >= 0 ==> n <= precision)
                          && (n == precision || (n < |bytes| && bytes[n] == '\0'))
            case _ => false
  {
    hide Printed, Text, Padded, WidthOf, PrecisionOf, Fetch, PlainText, StringSize;
    PrintsStandard(d, args, text);
    var width, precision := WidthOf(d, args, 0).value, PrecisionOf(d, args, 0).value;
    var bytes := if args[ValueAt(d, 0)].bytes.Some? then args[ValueAt(d, 0)].bytes.value else "(null)\0";
    var n := StringSize(bytes, precision).value;
    StringIsLongest(bytes, precision, n);
    PlainTextPadded(d, width, bytes[..n]);
  }

  /** A character that is no conversion, such as %, prints itself and takes no argument. */
  lemma PrintedItself(fmt: string, p: nat, d: Directive, args: seq<Arg>, a: nat)
    requires CString(fmt) && WellFormed(d) && p < |fmt| && fmt[p] == '%' && Occurs(fmt, p + 1, Text(d))
    requires d.ch !in "diDoOuUxXcspn" && WidthOf(d, args, a).Some? && PrecisionOf(d, args, a).Some?
    ensures exists s :: Padded(d, WidthOf(d, args, a).value, [d.ch], s)
                        && Render(fmt, p, args, a) == Before(s, Render(fmt, p + 1 + |Text(d)|, args, ValueAt(d, a)))
  {
    hide Render, Text, Padded, WidthOf, PrecisionOf, Fetch, PlainText, Occurs;
    RendersStandard(fmt, p, d, args, a);
    PlainTextPadded(d, WidthOf(d, args, a).value, [d.ch]);
  }

  /** %p prints 0x and the address in hexadecimal. */
  lemma PrintedPointer(d: Directive, args: seq<Arg>, text: string)
    requires WellFormed(d) && d.ch == 'p' && Printed("%" + Text(d), args) == Some(text)
    ensures match Fetch(args, ValueAt(d, 0), AddressKind)
            case None => false
            case Some(v) => Read(16, text) == v % 0x1_0000_0000 && "0x" <= SkipBlanks(text)
  {
    hide Text, Meaning, Read, Fetch, Layout, SkipBlanks, CString, Render, NumberText, WidthOf, PrecisionOf;
    SingleDirective(d, args, text);
    var m := Meaning(d, args, 0).value;
    Gathers(d, args, 0);
    var v := Fetch(args, m.1, AddressKind).value % 0x1_0000_0000;
    assert "xX"[0] == 'x';
    NumberFieldReads(m.0, Hex, v, '\0', true, 'x');
    assert ['0', 'x'] == "0x";
    PrefixShows(NumberField(m.0, Hex, v, '\0', true, 'x'), "0x");
  }

  /** A prefix follows the blanks of its field at once. */
  lemma PrefixShows(f: Field, prefix: string)
    requires Prefix(f) == prefix && prefix != "" && prefix[0] != ' '
    ensures prefix <= SkipBlanks(Layout(f))
  {
    hide Layout, Prefix, Left, Right, Zeros;
    LayoutParts(f);
    var rest := (Zeros(f) + f.body) + Right(f);
    SkipFill(|Left(f)|, prefix + rest);
    assert (prefix + rest)[0] == prefix[0];
  }

  // ---------- hexadecimal ----------

  /** Where the digits of x and X begin: behind a prefix, or at once. */
  predicate LowerCase(s: string) {
    forall k :: 0 <= k < |s| ==> !('A' <= s[k] <= 'Z')
  }

  predicate UpperCase(s: string) {
    forall k :: 0 <= k < |s| ==> !('a' <= s[k] <= 'z')
  }

  lemma {:induction false} DigitsCase(r: nat, v: nat, upper: bool)
    requires 2 <= r <= 16
    ensures if upper then UpperCase(Digits(r, v, upper)) else LowerCase(Digits(r, v, upper))
  {
    hide Digits, DigitChar;
    DigitsStep(r, v, upper);
    if v >= r {
      Euclid(v, r);
      DigitsCase(r, v / r, upper);
      CharCase(v % r, upper);
    } else {
      CharCase(v, upper);
    }
  }

  lemma CharCase(k: nat, upper: bool)
    requires k < 16
    ensures upper ==> !('a' <= DigitChar(k, upper) <= 'z')
    ensures !upper ==> !('A' <= DigitChar(k, upper) <= 'Z')
  {
  }

  /** x prints small letters and X capital ones, the prefix included. */
  lemma PrintedCase(d: Directive, args: seq<Arg>, text: string)
    requires WellFormed(d) && d.ch in "xX" && Printed("%" + Text(d), args) == Some(text)
    ensures d.ch == 'x' ==> LowerCase(text)
    ensures d.ch == 'X' ==> UpperCase(text)
  {
    hide Text, Meaning, Fetch, Layout, CString, Render, LowerCase, UpperCase, UArg, Widen;
    SingleDirective(d, args, text);
    var m := Meaning(d, args, 0).value;
    var v := UArg(Widen(m.0, d.ch), args, m.1).value;
    FieldCase(m.0, v, m.0.alt && v != 0, d.ch);
  }

  lemma FieldCase(c: Conv, v: nat, hex: bool, ch: char)
    requires ch in "xX"
    ensures ch == 'x' ==> LowerCase(Layout(NumberField(c, Hex, v, '\0', hex, ch)))
    ensures ch == 'X' ==> UpperCase(Layout(NumberField(c, Hex, v, '\0', hex, ch)))
  {
    hide Digits, Layout, Prefix, Left, Right, Zeros, LowerCase, UpperCase;
    var f := NumberField(c, Hex, v, '\0', hex, ch);
    LayoutParts(f);
    ZerosAreOne(f);
    NoLetters(f);
    DigitsCase(16, v, ch == 'X');
    EmptyCase();
    CaseOfBoth(Zeros(f), f.body);
    CaseOfBoth(Zeros(f) + f.body, Right(f));
    CaseOfBoth(Prefix(f), (Zeros(f) + f.body) + Right(f));
    CaseOfBoth(Left(f), Prefix(f) + ((Zeros(f) + f.body) + Right(f)));
  }

  lemma CaseOfBoth(s: string, t: string)
    ensures LowerCase(s) && LowerCase(t) ==> LowerCase(s + t)
    ensures UpperCase(s) && UpperCase(t) ==> UpperCase(s + t)
  {
  }

  lemma EmptyCase()
    ensures LowerCase("") && UpperCase("")
  {
  }

  /** Blanks and zeros have no case, and the prefix has that of the conversion. */
  lemma NoLetters(f: Field)
    requires f.sign == '\0' && f.ch in "xX"
    ensures LowerCase(Left(f)) && UpperCase(Left(f)) && LowerCase(Right(f)) && UpperCase(Right(f))
    ensures LowerCase(Zeros(f)) && UpperCase(Zeros(f))
    ensures f.ch == 'x' ==> LowerCase(Prefix(f))
    ensures f.ch == 'X' ==> UpperCase(Prefix(f))
  {
    hide Padding;
  }

  /** # puts 0x or 0X in front of the digits if and only if the value is not zero. */
  lemma PrintedPrefix(d: Directive, args: seq<Arg>, text: string)
    requires WellFormed(d) && d.ch in "xX" && Printed("%" + Text(d), args) == Some(text)
    ensures Read(16, text) >= 0
    ensures ['0', d.ch] <= SkipBlanks(text) <==> Alt in d.flags && Read(16, text) != 0
  {
    hide Text, Meaning, Fetch, Layout, CString, Render, UArg, Widen, SkipBlanks, Read, WidthOf, PrecisionOf, NumberText;
    SingleDirective(d, args, text);
    var m := Meaning(d, args, 0).value;
    Gathers(d, args, 0);
    var v := UArg(Widen(m.0, d.ch), args, m.1).value;
    var f := NumberField(m.0, Hex, v, '\0', m.0.alt && v != 0, d.ch);
    NumberFieldReads(m.0, Hex, v, '\0', m.0.alt && v != 0, d.ch);
    if m.0.alt && v != 0 {
      PrefixShows(f, ['0', d.ch]);
    } else {
      NumberTextDenotes(Hex, v, m.0.alt, d.ch == 'X', m.0.prec);
      NoPrefixShows(f);
    }
  }

  /** Without a prefix the second character behind the blanks is a digit or a blank. */
  lemma NoPrefixShows(f: Field)
    requires Prefix(f) == "" && IsNumeral(16, f.body) && f.ch in "xX"
    ensures !(['0', f.ch] <= SkipBlanks(Layout(f)))
  {
    hide Layout, Prefix, Left, Right, Zeros, DigitValue;
    LayoutParts(f);
    ZerosAreOne(f);
    ZerosNumeral(16, |Zeros(f)|);
    NumeralAppend(16, Zeros(f), f.body);
    var num, rest := Zeros(f) + f.body, Right(f);
    assert "" + (num + rest) == num + rest;
    SkipFill(|Left(f)|, num + rest);
    if num == "" {
      assert num + rest == Fill(' ', |rest|) + "";
      SkipFill(|rest|, "");
    } else {
      NumeralNoBlank(num);
      assert (num + rest)[0] == num[0];
      NoX(num, rest, f.ch);
    }
  }

  lemma NumeralNoBlank(num: string)
    requires num != "" && IsNumeral(16, num)
    ensures num[0] != ' '
  {
    assert DigitValue(num[0]) < 16;
  }

  lemma NoX(num: string, rest: string, ch: char)
    requires IsNumeral(16, num) && ch in "xX" && forall k :: 0 <= k < |rest| ==> rest[k] == ' '
    ensures !(['0', ch] <= num + rest)
  {
    var s := num + rest;
    if |s| >= 2 {
      assert |num| >= 2 ==> s[1] == num[1] && DigitValue(num[1]) < 16;
      assert |num| < 2 ==> s[1] == rest[1 - |num|];
      assert DigitValue('x') == 16 && DigitValue('X') == 16;
      assert s[1] != ch;
      assert ['0', ch][1] == ch;
    }
  }
}
