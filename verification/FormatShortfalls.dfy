/** Where CLibrary/printf.c and section 7.19.6.1 of ISO/IEC 9899:1999 disagree:
    the hh length modifier, and a zero in alternate octal. */
module FormatShortfalls {
  import opened FormatNumbers
  import opened FormatFields
  import opened FormatDirectives
  import opened FormatSyntax
  import opened FormatReading
  import opened Formatting
  import opened Sequences

  lemma LowByte(v: int)
    ensures v % 0x1_0000 % 0x100 == v % 0x100
    ensures (v % 0x1_0000 - 0x1_0000) % 0x100 == v % 0x100
  {
    var q, u := v / 0x1_0000, v % 0x1_0000;
    SameByte(u, v, 0x100 * q);
    SameByte(u - 0x1_0000, v, 0x100 * q + 0x100);
  }

  lemma SameByte(x: int, y: int, k: int)
    requires y == x + 0x100 * k
    ensures x % 0x100 == y % 0x100
  {
    var q, m := x / 0x100, x % 0x100;
    assert y == 0x100 * (q + k) + m;
  }

  /** What an int is as a signed char. */
  function CharOf(v: int): int {
    Signed(v, 0x100)
  }

  /** And what it is as a short. */
  function ShortOf(v: int): int {
    Signed(v, 0x1_0000)
  }

  /** A short is a signed char exactly when it is in the range of one. */
  lemma SignedChar(v: int)
    ensures ShortOf(v) == CharOf(v) <==> -128 <= ShortOf(v) < 128
  {
    LowByte(v);
    var s := ShortOf(v);
    if -128 <= s < 128 {
      SignedFits(s, 0x100);
    }
  }

  /** An unsigned short is an unsigned char exactly when it is in its range. */
  lemma UnsignedChar(v: int)
    ensures v % 0x1_0000 == v % 0x100 <==> v % 0x1_0000 < 0x100
  {
    LowByte(v);
  }

  /** hh is read as h twice: the argument is taken as a char, as the standard
      asks, if and only if narrowing it to short leaves a char's value. */
  lemma CharArgument(c0: Conv, args: seq<Arg>, a: nat, v: int)
    requires ArgKind(Sized(HH, c0)) == IntKind && Fetch(args, a, IntKind) == Some(v)
    ensures SArg(Sized(HH, c0), args, a) == Some(CharOf(v)) <==> -128 <= ShortOf(v) < 128
    ensures UArg(Sized(HH, c0), args, a) == Some(v % 0x100) <==> v % 0x1_0000 < 0x100
  {
    SignedChar(v);
    UnsignedChar(v);
  }

  lemma AmountsKeepLengths(m: Amount, args: seq<Arg>, a: nat, c: Conv)
    ensures Widened(m, args, a, c).Some? ==> ArgKind(Widened(m, args, a, c).value.0) == ArgKind(c)
    ensures Limited(m, args, a, c).Some? ==> ArgKind(Limited(m, args, a, c).value.0) == ArgKind(c)
  {
    hide IntArg;
  }

  lemma HhKeepsKind(c: Conv)
    ensures ArgKind(Sized(HH, c)) == ArgKind(c)
  {
  }

  /** An hh directive is some state, with its modifier, that asks for an int. */
  lemma HhAsksForInt(d: Directive, args: seq<Arg>, a: nat) returns (c: Conv)
    requires d.length == HH && Meaning(d, args, a).Some?
    ensures Meaning(d, args, a).value.0 == Sized(HH, c) && ArgKind(Sized(HH, c)) == IntKind
  {
    hide Flagged, Widened, Limited, Sized, ArgKind;
    var c1 := Flagged(d.flags, START);
    FlagsKeepKind(d.flags);
    AmountsKeepLengths(d.width, args, a, c1);
    var w := Widened(d.width, args, a, c1).value;
    AmountsKeepLengths(d.prec, args, w.1, w.0);
    c := Limited(d.prec, args, w.1, w.0).value.0;
    HhKeepsKind(c);
  }

  lemma FlagsKeepKind(flags: seq<Flag>)
    ensures ArgKind(Flagged(flags, START)) == IntKind
  {
  }

  lemma PlainInt(c: Conv, ch: char, args: seq<Arg>, a: nat)
    requires ch in "diouxX"
    ensures Widen(c, ch) == c
    ensures ArgKind(c) == IntKind && (SArg(c, args, a).Some? || UArg(c, args, a).Some?) ==> Fetch(args, a, IntKind).Some?
  {
  }

  /** The text of a format that is a C string. */
  function Printed(fmt: string, args: seq<Arg>): Option<string> {
    if CString(fmt) then Render(fmt, 0, args, 0) else None
  }

  /** The int a directive converts, when it is all of the format. */
  function IntOf(d: Directive, args: seq<Arg>): Option<int> {
    match Meaning(d, args, 0)
    case None => None
    case Some(m) => Fetch(args, m.1, IntKind)
  }

  /** %hhd and %hhi print the signed char the standard asks for if and only if
      narrowing to short leaves one. */
  lemma PrintedSignedChar(d: Directive, args: seq<Arg>, text: string)
    requires WellFormed(d) && d.length == HH && d.ch in "di" && Printed("%" + Text(d), args) == Some(text)
    ensures match IntOf(d, args)
            case None => false
            case Some(v) => Read(10, text) == CharOf(v) <==> -128 <= ShortOf(v) < 128
  {
    hide Read, Render, Text, Meaning, Fetch, Signed, Sized, ArgKind, SArg, UArg, Widen, CString;
    PrintedIntegerReadsBack(d, args, text);
    var m := Meaning(d, args, 0).value;
    var c := HhAsksForInt(d, args, 0);
    PlainInt(m.0, d.ch, args, m.1);
    CharArgument(c, args, m.1, Fetch(args, m.1, IntKind).value);
  }

  /** %hho, %hhu, %hhx and %hhX likewise, for the unsigned char. */
  lemma PrintedUnsignedChar(d: Directive, args: seq<Arg>, text: string)
    requires WellFormed(d) && d.length == HH && d.ch in "ouxX" && Printed("%" + Text(d), args) == Some(text)
    ensures UnsignedBase(d.ch).Some?
    ensures match IntOf(d, args)
            case None => false
            case Some(v) => Read(Radix(UnsignedBase(d.ch).value), text) == v % 0x100 <==> v % 0x1_0000 < 0x100
  {
    hide Read, Render, Text, Meaning, Fetch, Signed, Sized, ArgKind, SArg, UArg, Widen, CString;
    PrintedUnsignedReadsBack(d, args, text);
    var m := Meaning(d, args, 0).value;
    var c := HhAsksForInt(d, args, 0);
    PlainInt(m.0, d.ch, args, m.1);
    CharArgument(c, args, m.1, Fetch(args, m.1, IntKind).value);
  }

  lemma AltStays(d: Directive, args: seq<Arg>, a: nat)
    requires Alt in d.flags && Meaning(d, args, a).Some?
    ensures Meaning(d, args, a).value.0.alt
  {
    hide IntArg;
  }

  /** %#o prints a numeral that starts with a 0, as the standard asks, if and
      only if not both the argument and the precision are zero. */
  lemma PrintedAlternateOctal(d: Directive, args: seq<Arg>, text: string)
    requires WellFormed(d) && Alt in d.flags && d.ch in "oO" && Printed("%" + Text(d), args) == Some(text)
    ensures Meaning(d, args, 0).Some?
    ensures var (c, a) := Meaning(d, args, 0).value;
            && UArg(Widen(c, d.ch), args, a).Some?
            && (LeadsWithZero(SkipBlanks(text)) <==> !(UArg(Widen(c, d.ch), args, a) == Some(0) && c.prec == 0))
  {
    hide Render, Text, Meaning, UArg, Widen, Piece, Layout, SkipBlanks, LeadsWithZero, CString;
    SingleDirective(d, args, text);
    AltStays(d, args, 0);
    var m := Meaning(d, args, 0).value;
    OctalPiece(m.0, d.ch, args, m.1);
  }

  lemma PlainNumber(f: Field)
    requires f.width == 0 && f.dprec <= |f.body| && f.sign == '\0' && !f.hex
    ensures Layout(f) == f.body
  {
    PlainLayout(f);
    assert f.(width := 0) == f;
    assert Leading(f) == "";
  }

  /** A format that is one directive, scanned up to its end. */
  lemma OneField(fmt: string, args: seq<Arg>, c: Conv, f: Field, a: nat)
    requires CString(fmt) && |fmt| > 1 && fmt[0] == '%'
    requires Scan(fmt, 1, args, 0, START) == Found(|fmt| - 1, 0, c)
    requires Piece(c, fmt[|fmt| - 1], args, 0) == Some((f, a))
    ensures Render(fmt, 0, args, 0) == Some(Layout(f))
  {
    hide Scan, Piece, Layout;
    assert Render(fmt, |fmt|, args, a) == Some("");
    assert Layout(f) + "" == Layout(f);
  }

  lemma ScanHhd(args: seq<Arg>)
    ensures Scan("%hhd", 1, args, 0, START) == Found(3, 0, START.(shortint := true))
  {
    hide Scan, DigitRun, Value, IntArg;
    var fmt, c := "%hhd", START.(shortint := true);
    Turns(fmt, 1, args, 0, START);
    Turns(fmt, 2, args, 0, c);
    Turns(fmt, 3, args, 0, c);
  }

  lemma TwoHundred()
    ensures Digits(10, 200, false) == "200" && ShortOf(200) == 200 && CharOf(200) == -56
  {
    assert Digits(10, 2, false) == "2" && Digits(10, 20, false) == "20";
  }

  /** 200 under %hhd prints 200, where the standard wants the signed char -56. */
  lemma HhExample(fmt: string, args: seq<Arg>)
    requires fmt == "%hhd" && args == [Number(IntKind, 200)]
    ensures Printed(fmt, args) == Some("200")
    ensures CharOf(200) == -56
  {
    hide Scan, Layout, Digits, Signed, Render;
    var c := START.(shortint := true);
    ScanHhd(args);
    TwoHundred();
    var f := NumberField(c, Dec, 200, '\0', false, 'd');
    PlainNumber(f);
    OneField(fmt, args, c, f, 1);
  }

  lemma ScanAltZero(args: seq<Arg>)
    ensures Scan("%#.0o", 1, args, 0, START) == Found(4, 0, START.(alt := true, prec := 0))
  {
    hide Scan, IntArg;
    var fmt, c1 := "%#.0o", START.(alt := true);
    var c := c1.(prec := 0);
    assert DigitRun(fmt, 4) == 4 && DigitRun(fmt, 3) == 4;
    assert fmt[3..4] == "0" && "0"[..0] == "" && Value(10, "0") == 0;
    Turns(fmt, 1, args, 0, START);
    Turns(fmt, 2, args, 0, c1);
    Turns(fmt, 4, args, 0, c);
  }

  /** Zero under %#.0o prints nothing, where the standard wants a single 0. */
  lemma OctalZeroExample(fmt: string, args: seq<Arg>)
    requires fmt == "%#.0o" && args == [Number(IntKind, 0)]
    ensures Printed(fmt, args) == Some("")
  {
    hide Scan, Layout, Digits, Render;
    var c := START.(alt := true, prec := 0);
    ScanAltZero(args);
    var f := NumberField(c, Oct, 0, '\0', false, 'o');
    PlainNumber(f);
    OneField(fmt, args, c, f, 1);
  }
}
