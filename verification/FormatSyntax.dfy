/** The directives of section 7.19.6.1 of ISO/IEC 9899:1999 as syntax trees,
    and the proof that scanning the text of one finds its meaning. */
module FormatSyntax {
  import opened FormatNumbers
  import opened FormatFields
  import opened FormatDirectives
  import opened FormatReading
  import opened Sequences

  datatype Flag = Minus | Plus | Space | Alt | Zero

  /** A field width or precision. A precision can also be a lone period, and a
      number in it can have leading zeros. */
  datatype Amount = Absent | Empty | Fixed(zeros: nat, n: nat) | FromArg

  datatype Length = NoLength | HH | H | L | LL | Q | J | T | Z

  datatype Directive = Directive(flags: seq<Flag>, width: Amount, prec: Amount, length: Length, ch: char)

  function FlagChar(f: Flag): char {
    match f
    case Minus => '-'
    case Plus => '+'
    case Space => ' '
    case Alt => '#'
    case Zero => '0'
  }

  function FlagText(flags: seq<Flag>): (s: string)
    ensures |s| == |flags|
  {
    if flags == [] then "" else [FlagChar(flags[0])] + FlagText(flags[1..])
  }

  function AmountText(m: Amount): string {
    match m
    case Fixed(zeros, n) => Fill('0', zeros) + Digits(10, n, false)
    case FromArg => "*"
    case _ => ""
  }

  function PrecText(m: Amount): string {
    if m == Absent then "" else "." + AmountText(m)
  }

  function LengthText(l: Length): string {
    match l
    case NoLength => ""
    case HH => "hh"
    case H => "h"
    case L => "l"
    case LL => "ll"
    case Q => "q"
    case J => "j"
    case T => "t"
    case Z => "z"
  }

  function Text(d: Directive): string {
    FlagText(d.flags) + (AmountText(d.width) + (PrecText(d.prec) + (LengthText(d.length) + [d.ch])))
  }

  /** How directives are spelled. */
  lemma Spelling()
    ensures Text(Directive([Minus, Plus, Space, Alt, Zero], FromArg, Empty, HH, 'd')) == "-+ #0*.hhd"
    ensures Text(Directive([], Absent, FromArg, H, 'u')) == ".*hu"
    ensures Text(Directive([], Absent, Absent, NoLength, '%')) == "%"
    ensures LengthText(L) == "l" && LengthText(LL) == "ll" && LengthText(Q) == "q"
    ensures LengthText(J) == "j" && LengthText(T) == "t" && LengthText(Z) == "z"
  {
    FiveFlags();
    assert FlagText([]) == "";
  }

  lemma FiveFlags()
    ensures FlagText([Minus, Plus, Space, Alt, Zero]) == "-+ #0"
  {
    assert FlagText([Zero]) == "0";
    assert [Alt, Zero][1..] == [Zero];
    assert FlagText([Alt, Zero]) == "#0";
    assert [Space, Alt, Zero][1..] == [Alt, Zero];
    assert FlagText([Space, Alt, Zero]) == " #0";
    assert [Plus, Space, Alt, Zero][1..] == [Space, Alt, Zero];
    assert FlagText([Plus, Space, Alt, Zero]) == "+ #0";
    assert [Minus, Plus, Space, Alt, Zero][1..] == [Plus, Space, Alt, Zero];
  }

  /** And a number in one: the decimal numeral, behind the leading zeros a precision may have. */
  lemma NumberSpelling(zeros: nat, n: nat)
    ensures var s := AmountText(Fixed(zeros, n));
            && |s| >= zeros && (forall k :: 0 <= k < zeros ==> s[k] == '0')
            && Value(10, s[zeros..]) == n && IsNumeral(10, s[zeros..]) && s[zeros..] != "" && (s[zeros] == '0' <==> n == 0)
  {
    hide Digits, Value, IsNumeral;
    DigitsDenote(10, n, false);
    assert (Fill('0', zeros) + Digits(10, n, false))[zeros..] == Digits(10, n, false);
  }

  /** A width has no leading zero; the last character is no flag, digit, period,
      star or length modifier. */
  predicate WellFormed(d: Directive) {
    && d.width != Empty && (d.width.Fixed? ==> d.width.zeros == 0 && d.width.n > 0)
    && d.ch !in " #*-+.hjlqtz\0" && !IsDigit(d.ch)
  }

  /** What the flags come to, in whatever order and however often they appear:
      a plus sign overrides a space. */
  function Flagged(flags: seq<Flag>, c: Conv): Conv {
    c.(alt := c.alt || Alt in flags,
       ladjust := c.ladjust || Minus in flags,
       zeropad := c.zeropad || Zero in flags,
       sign := if Plus in flags then '+'
               else if c.sign != '\0' then c.sign
               else if Space in flags then ' ' else '\0')
  }

  /** A negative width argument is a minus flag and a positive width. */
  function Widened(m: Amount, args: seq<Arg>, a: nat, c: Conv): Option<(Conv, nat)> {
    match m
    case Fixed(_, n) => Some((c.(width := n), a))
    case FromArg =>
      (match IntArg(args, a)
       case None => None
       case Some(v) => Some((c.(width := Magnitude(v), ladjust := c.ladjust || v < 0), a + 1)))
    case _ => Some((c, a))
  }

  /** A negative precision argument counts as none; a lone period as zero. */
  function Limited(m: Amount, args: seq<Arg>, a: nat, c: Conv): Option<(Conv, nat)> {
    match m
    case Fixed(_, n) => Some((c.(prec := n), a))
    case FromArg =>
      (match IntArg(args, a)
       case None => None
       case Some(v) => Some((c.(prec := if v < 0 then -1 else v), a + 1)))
    case Empty => Some((c.(prec := 0), a))
    case Absent => Some((c, a))
  }

  /** hh is read as h twice, so it narrows to short and not to char. */
  function Sized(l: Length, c: Conv): Conv {
    c.(shortint := c.shortint || l == HH || l == H,
       longint := c.longint || l == L,
       quadint := c.quadint || l == LL || l == Q,
       maxint := c.maxint || l == J,
       ptrint := c.ptrint || l == T,
       sizeint := c.sizeint || l == Z)
  }

  function Meaning(d: Directive, args: seq<Arg>, a: nat): Option<(Conv, nat)> {
    match Widened(d.width, args, a, Flagged(d.flags, START))
    case None => None
    case Some(w) =>
      match Limited(d.prec, args, w.1, w.0)
      case None => None
      case Some(m) => Some((Sized(d.length, m.0), m.1))
  }

  predicate Occurs(fmt: string, p: nat, s: string) {
    p + |s| <= |fmt| && fmt[p..p + |s|] == s
  }

  lemma OccursSplit(fmt: string, p: nat, s: string, t: string)
    requires Occurs(fmt, p, s + t)
    ensures Occurs(fmt, p, s) && Occurs(fmt, p + |s|, t)
  {
    assert fmt[p..p + |s|] == (s + t)[..|s|] == s;
    assert fmt[p + |s|..p + |s| + |t|] == (s + t)[|s|..] == t;
  }

  lemma OccursHead(fmt: string, p: nat, s: string)
    requires Occurs(fmt, p, s) && s != ""
    ensures fmt[p] == s[0] && Occurs(fmt, p + 1, s[1..])
  {
    assert fmt[p..p + |s|][0] == s[0];
    assert fmt[p + 1..p + |s|] == fmt[p..p + |s|][1..];
  }

  /** The state behind one flag. */
  function Marked(f: Flag, c: Conv): Conv {
    match f
    case Minus => c.(ladjust := true)
    case Plus => c.(sign := '+')
    case Space => c.(sign := SpaceSign(c.sign))
    case Alt => c.(alt := true)
    case Zero => c.(zeropad := true)
  }

  lemma MarkedIsFlagged(f: Flag, c: Conv)
    ensures Marked(f, c) == Flagged([f], c)
  {
    hide Marked, Flagged, Spread;
    MarkedFields(f, c);
    FlaggedFields(f, c);
  }

  /** What one flag does to each part of the state. */
  function Spread(f: Flag, c: Conv): Conv {
    c.(alt := c.alt || f == Alt, ladjust := c.ladjust || f == Minus,
       zeropad := c.zeropad || f == Zero, sign := MarkedSign(f, c.sign))
  }

  lemma MarkedFields(f: Flag, c: Conv)
    ensures Marked(f, c) == Spread(f, c)
  {
    match f
    case Minus => assert Marked(Minus, c) == Spread(Minus, c);
    case Plus => assert Marked(Plus, c) == Spread(Plus, c);
    case Space => assert Marked(Space, c) == Spread(Space, c);
    case Alt => assert Marked(Alt, c) == Spread(Alt, c);
    case Zero => assert Marked(Zero, c) == Spread(Zero, c);
  }

  lemma FlaggedFields(f: Flag, c: Conv)
    ensures Flagged([f], c) == Spread(f, c)
  {
    SameFlags(f);
  }

  function MarkedSign(f: Flag, sign: char): char {
    if f == Plus then '+' else if f == Space then SpaceSign(sign) else sign
  }

  lemma SameFlags(f: Flag)
    ensures forall g :: g in [f] <==> g == f
  {
  }

  lemma FlagStep(fmt: string, p: nat, f: Flag, args: seq<Arg>, a: nat, c: Conv)
    requires p < |fmt| && fmt[p] == FlagChar(f)
    ensures Step(fmt, p, args, a, c) == On(p + 1, a, Marked(f, c))
  {
    hide DigitRun, Value, IntArg, SpaceSign, At;
  }

  lemma OccursSlice(fmt: string, p: nat, s: string)
    requires Occurs(fmt, p, s)
    ensures p + |s| <= |fmt| && fmt[p..p + |s|] == s
  {
  }

  lemma OneFlag(fmt: string, p: nat, f: Flag, args: seq<Arg>, a: nat, c: Conv)
    requires p < |fmt| && fmt[p] == FlagChar(f)
    ensures Scan(fmt, p, args, a, c) == Scan(fmt, p + 1, args, a, Flagged([f], c))
  {
    hide Scan, Step, Marked, Flagged;
    Turns(fmt, p, args, a, c);
    FlagStep(fmt, p, f, args, a, c);
    MarkedIsFlagged(f, c);
  }

  lemma FlaggedTwice(f: Flag, rest: seq<Flag>, c: Conv)
    ensures Flagged(rest, Flagged([f], c)) == Flagged([f] + rest, c)
  {
  }

  lemma {:induction false} FlagsScan(fmt: string, p: nat, flags: seq<Flag>, args: seq<Arg>, a: nat, c: Conv)
    requires Occurs(fmt, p, FlagText(flags))
    ensures Scan(fmt, p, args, a, c) == Scan(fmt, p + |flags|, args, a, Flagged(flags, c))
    decreases |flags|
  {
    hide Scan, Flagged, Occurs;
    if flags == [] {
      NoFlags(c);
      assert flags == [];
    } else {
      OccursHead(fmt, p, FlagText(flags));
      assert FlagText(flags)[1..] == FlagText(flags[1..]);
      InBounds(fmt, p, FlagText(flags));
      OneFlag(fmt, p, flags[0], args, a, c);
      FlagsScan(fmt, p + 1, flags[1..], args, a, Flagged([flags[0]], c));
      FlaggedTwice(flags[0], flags[1..], c);
      assert [flags[0]] + flags[1..] == flags;
    }
  }

  lemma InBounds(fmt: string, p: nat, s: string)
    requires Occurs(fmt, p, s)
    ensures p + |s| <= |fmt|
  {
  }

  lemma NoFlags(c: Conv)
    ensures Flagged([], c) == c
  {
  }

  lemma {:induction false} RunOfDigits(fmt: string, p: nat, s: string)
    requires Occurs(fmt, p, s) && IsNumeral(10, s)
    requires !IsDigit(At(fmt, p + |s|))
    ensures DigitRun(fmt, p) == p + |s|
    decreases |s|
  {
    if s != "" {
      OccursHead(fmt, p, s);
      assert DigitValue(s[0]) < 10;
      RunOfDigits(fmt, p + 1, s[1..]);
    }
  }

  /** What may follow an amount. */
  predicate Ends(fmt: string, p: nat) {
    p <= |fmt| && !IsDigit(At(fmt, p))
  }

  lemma DigitStep(fmt: string, p: nat, args: seq<Arg>, a: nat, c: Conv)
    requires p < |fmt| && IsDigit(fmt[p]) && fmt[p] != '0'
    ensures var e := DigitRun(fmt, p);
            Step(fmt, p, args, a, c) == On(e, a, c.(width := Value(10, fmt[p..e])))
  {
    hide DigitRun, Value, IntArg;
  }

  lemma NumberStep(fmt: string, p: nat, s: string, args: seq<Arg>, a: nat, c: Conv)
    requires Occurs(fmt, p, s) && Ends(fmt, p + |s|)
    requires s != "" && IsNumeral(10, s) && s[0] != '0'
    ensures Step(fmt, p, args, a, c) == On(p + |s|, a, c.(width := Value(10, s)))
  {
    hide Step, DigitRun, Value, IsNumeral, IsDigit, Occurs;
    OccursSlice(fmt, p, s);
    OccursHead(fmt, p, s);
    FirstDigit(s);
    RunOfDigits(fmt, p, s);
    DigitStep(fmt, p, args, a, c);
  }

  lemma StarStep(fmt: string, p: nat, args: seq<Arg>, a: nat, c: Conv)
    requires p < |fmt| && fmt[p] == '*'
    ensures Step(fmt, p, args, a, c) == match Widened(FromArg, args, a, c)
                                        case None => Fault
                                        case Some(w) => On(p + 1, w.1, w.0)
  {
    hide DigitRun, Value, IntArg;
  }

  lemma WidthScans(fmt: string, p: nat, m: Amount, args: seq<Arg>, a: nat, c: Conv)
    requires Occurs(fmt, p, AmountText(m)) && Ends(fmt, p + |AmountText(m)|)
    requires m != Empty && (m.Fixed? ==> m.zeros == 0 && m.n > 0)
    ensures match Widened(m, args, a, c)
            case None => Scan(fmt, p, args, a, c) == Undefined
            case Some(w) => Scan(fmt, p, args, a, c) == Scan(fmt, p + |AmountText(m)|, args, w.1, w.0)
  {
    hide Scan, Step, Value, IntArg, IsNumeral, Digits, Occurs;
    match m
    case Fixed(_, n) =>
      var s := Digits(10, n, false);
      NoZeros(s);
      DigitsDenote(10, n, false);
      NumberStep(fmt, p, s, args, a, c);
      Turns(fmt, p, args, a, c);
    case FromArg =>
      OccursHead(fmt, p, "*");
      InBounds(fmt, p, "*");
      StarStep(fmt, p, args, a, c);
      Turns(fmt, p, args, a, c);
    case Absent =>
  }

  lemma NoZeros(s: string)
    ensures Fill('0', 0) + s == s
  {
  }

  lemma FirstDigit(s: string)
    requires s != "" && IsNumeral(10, s)
    ensures IsDigit(s[0])
  {
    assert DigitValue(s[0]) < 10;
  }

  lemma PeriodStep(fmt: string, p: nat, args: seq<Arg>, a: nat, c: Conv)
    requires p < |fmt| && fmt[p] == '.' && At(fmt, p + 1) != '*'
    ensures var e := DigitRun(fmt, p + 1);
            Step(fmt, p, args, a, c) == On(e, a, c.(prec := Value(10, fmt[p + 1..e])))
  {
    hide DigitRun, Value, IntArg;
  }

  lemma PrecNumberStep(fmt: string, p: nat, s: string, args: seq<Arg>, a: nat, c: Conv)
    requires p < |fmt| && fmt[p] == '.' && Occurs(fmt, p + 1, s) && Ends(fmt, p + 1 + |s|)
    requires IsNumeral(10, s) && At(fmt, p + 1) != '*'
    ensures Step(fmt, p, args, a, c) == On(p + 1 + |s|, a, c.(prec := Value(10, s)))
  {
    hide Step, DigitRun, Value, IsNumeral, IsDigit, Occurs;
    OccursSlice(fmt, p + 1, s);
    RunOfDigits(fmt, p + 1, s);
    PeriodStep(fmt, p, args, a, c);
  }

  lemma PrecStarStep(fmt: string, p: nat, args: seq<Arg>, a: nat, c: Conv)
    requires p + 1 < |fmt| && fmt[p] == '.' && fmt[p + 1] == '*'
    ensures Step(fmt, p, args, a, c) == match Limited(FromArg, args, a, c)
                                        case None => Fault
                                        case Some(w) => On(p + 2, w.1, w.0)
  {
    hide DigitRun, Value, IntArg;
  }

  /** A numeral begins with no star. */
  lemma NoStar(fmt: string, p: nat, s: string)
    requires Occurs(fmt, p, s) && IsNumeral(10, s) && At(fmt, p + |s|) != '*'
    ensures p <= |fmt| && At(fmt, p) != '*'
  {
    if s != "" {
      OccursHead(fmt, p, s);
      FirstDigit(s);
    }
  }

  lemma PrecScans(fmt: string, p: nat, m: Amount, args: seq<Arg>, a: nat, c: Conv)
    requires Occurs(fmt, p, PrecText(m)) && Ends(fmt, p + |PrecText(m)|)
    requires At(fmt, p + |PrecText(m)|) != '*'
    ensures match Limited(m, args, a, c)
            case None => Scan(fmt, p, args, a, c) == Undefined
            case Some(w) => Scan(fmt, p, args, a, c) == Scan(fmt, p + |PrecText(m)|, args, w.1, w.0)
  {
    hide Scan, Step, Value, IntArg, IsNumeral, Digits, Occurs, Limited, AmountText;
    if m == Absent {
      NoPrecision(args, a, c);
    } else {
      var s := AmountText(m);
      OccursHead(fmt, p, PrecText(m));
      InBounds(fmt, p, PrecText(m));
      AfterPeriod(s);
      if m == FromArg {
        StarText();
        OccursHead(fmt, p + 1, s);
        PrecStarStep(fmt, p, args, a, c);
      } else {
        AmountDenotes(m);
        NoStar(fmt, p + 1, s);
        PrecNumberStep(fmt, p, s, args, a, c);
        FixedPrecision(m, args, a, c);
      }
      Turns(fmt, p, args, a, c);
    }
  }

  lemma NoPrecision(args: seq<Arg>, a: nat, c: Conv)
    ensures Limited(Absent, args, a, c) == Some((c, a))
  {
  }

  lemma FixedPrecision(m: Amount, args: seq<Arg>, a: nat, c: Conv)
    requires m.Fixed? || m.Empty?
    ensures Limited(m, args, a, c) == Some((c.(prec := if m.Fixed? then m.n else 0), a))
  {
  }

  lemma StarText()
    ensures AmountText(FromArg) == "*"
  {
  }

  lemma AfterPeriod(s: string)
    ensures ("." + s)[0] == '.' && ("." + s)[1..] == s
  {
  }

  lemma AmountDenotes(m: Amount)
    requires m.Fixed? || m.Empty?
    ensures IsNumeral(10, AmountText(m))
    ensures Value(10, AmountText(m)) == if m.Fixed? then m.n else 0
  {
    match m
    case Fixed(zeros, n) =>
      DigitsDenote(10, n, false);
      LeadingZeros(10, zeros, Digits(10, n, false));
      ZerosNumeral(10, zeros);
      NumeralAppend(10, Fill('0', zeros), Digits(10, n, false));
    case Empty =>
  }

  lemma LetterStep(fmt: string, p: nat, args: seq<Arg>, a: nat, c: Conv)
    requires p < |fmt|
    ensures fmt[p] == 'h' ==> Step(fmt, p, args, a, c) == On(p + 1, a, c.(shortint := true))
    ensures fmt[p] == 'q' ==> Step(fmt, p, args, a, c) == On(p + 1, a, c.(quadint := true))
    ensures fmt[p] == 'j' ==> Step(fmt, p, args, a, c) == On(p + 1, a, c.(maxint := true))
    ensures fmt[p] == 't' ==> Step(fmt, p, args, a, c) == On(p + 1, a, c.(ptrint := true))
    ensures fmt[p] == 'z' ==> Step(fmt, p, args, a, c) == On(p + 1, a, c.(sizeint := true))
    ensures fmt[p] == 'l' ==> Step(fmt, p, args, a, c) ==
                              if At(fmt, p + 1) == 'l' then On(p + 2, a, c.(quadint := true))
                              else On(p + 1, a, c.(longint := true))
  {
    hide DigitRun, Value, IntArg;
  }

  /** The state behind a length modifier. */
  function Resized(l: Length, c: Conv): Conv {
    match l
    case NoLength => c
    case HH => c.(shortint := true)
    case H => c.(shortint := true)
    case L => c.(longint := true)
    case LL => c.(quadint := true)
    case Q => c.(quadint := true)
    case J => c.(maxint := true)
    case T => c.(ptrint := true)
    case Z => c.(sizeint := true)
  }

  lemma ResizedIsSized(l: Length, c: Conv)
    ensures Resized(l, c) == Sized(l, c)
  {
    match l
    case NoLength => assert Resized(NoLength, c) == Sized(NoLength, c);
    case HH => assert Resized(HH, c) == Sized(HH, c);
    case H => assert Resized(H, c) == Sized(H, c);
    case L => assert Resized(L, c) == Sized(L, c);
    case LL => assert Resized(LL, c) == Sized(LL, c);
    case Q => assert Resized(Q, c) == Sized(Q, c);
    case J => assert Resized(J, c) == Sized(J, c);
    case T => assert Resized(T, c) == Sized(T, c);
    case Z => assert Resized(Z, c) == Sized(Z, c);
  }

  /** Every modifier but hh is read in one turn. */
  lemma LengthStep(fmt: string, p: nat, l: Length, args: seq<Arg>, a: nat, c: Conv)
    requires p < |fmt| && l != NoLength && l != HH && fmt[p] == LengthText(l)[0]
    requires At(fmt, p + 1) == 'l' <==> l == LL
    ensures Step(fmt, p, args, a, c) == On(p + |LengthText(l)|, a, Resized(l, c))
  {
    hide Step;
    LetterStep(fmt, p, args, a, c);
  }

  lemma LengthScans(fmt: string, p: nat, l: Length, args: seq<Arg>, a: nat, c: Conv)
    requires Occurs(fmt, p, LengthText(l)) && p + |LengthText(l)| < |fmt|
    requires fmt[p + |LengthText(l)|] != 'l'
    ensures Scan(fmt, p, args, a, c) == Scan(fmt, p + |LengthText(l)|, args, a, Sized(l, c))
  {
    hide Scan, Step, Occurs, Sized, Resized;
    ResizedIsSized(l, c);
    if l == HH {
      TwoLetters(fmt, p, args, a, c);
    } else if l == NoLength {
      Unsized(c);
    } else {
      OccursHead(fmt, p, LengthText(l));
      if l == LL {
        OccursHead(fmt, p + 1, LengthText(l)[1..]);
      }
      LengthStep(fmt, p, l, args, a, c);
      Turns(fmt, p, args, a, c);
    }
  }

  lemma Unsized(c: Conv)
    ensures Resized(NoLength, c) == c
  {
  }

  /** The second h changes nothing. */
  lemma TwoLetters(fmt: string, p: nat, args: seq<Arg>, a: nat, c: Conv)
    requires Occurs(fmt, p, "hh") && p + 2 < |fmt| && fmt[p + 2] != 'l'
    ensures Scan(fmt, p, args, a, c) == Scan(fmt, p + 2, args, a, Resized(HH, c))
  {
    hide Scan, Step, Occurs, Resized;
    var c1 := Resized(H, c);
    OccursHead(fmt, p, "hh");
    OccursHead(fmt, p + 1, "h");
    LengthStep(fmt, p, H, args, a, c);
    Turns(fmt, p, args, a, c);
    LengthStep(fmt, p + 1, H, args, a, c1);
    Turns(fmt, p + 1, args, a, c1);
    Halves(c);
  }

  lemma Halves(c: Conv)
    ensures Resized(H, Resized(H, c)) == Resized(HH, c)
  {
  }

  lemma ConversionEnds(fmt: string, p: nat, args: seq<Arg>, a: nat, c: Conv)
    requires p < |fmt| && fmt[p] !in " #*-+.hjlqtz\0" && !IsDigit(fmt[p])
    ensures Scan(fmt, p, args, a, c) == Found(p, a, c)
  {
    hide Scan, DigitRun, Value, IntArg;
    Turns(fmt, p, args, a, c);
  }

  /** The first character of a length modifier or a conversion. */
  predicate Letter(c: char) {
    !IsDigit(c) && c != '*'
  }

  lemma LengthHead(d: Directive)
    requires WellFormed(d)
    ensures Letter((LengthText(d.length) + [d.ch])[0])
  {
    match d.length
    case NoLength => assert (LengthText(d.length) + [d.ch])[0] == d.ch;
    case _ => assert (LengthText(d.length) + [d.ch])[0] == LengthText(d.length)[0];
  }

  lemma PrecHead(m: Amount, t: string)
    requires t != "" && Letter(t[0])
    ensures Letter((PrecText(m) + t)[0])
  {
    assert m == Absent ==> PrecText(m) + t == t;
  }

  /** Where the width, precision, length and conversion of a directive begin. */
  function Starts(d: Directive, p: nat): (nat, nat, nat, nat) {
    var p1 := p + |d.flags|;
    var p2 := p1 + |AmountText(d.width)|;
    var p3 := p2 + |PrecText(d.prec)|;
    (p1, p2, p3, p3 + |LengthText(d.length)|)
  }

  lemma DirectiveParts(fmt: string, p: nat, d: Directive)
    requires WellFormed(d) && Occurs(fmt, p, Text(d))
    ensures var (p1, p2, p3, p4) := Starts(d, p);
            && Occurs(fmt, p, FlagText(d.flags)) && Occurs(fmt, p1, AmountText(d.width))
            && Occurs(fmt, p2, PrecText(d.prec)) && Occurs(fmt, p3, LengthText(d.length))
            && p2 <= p3 <= p4 < |fmt| && fmt[p4] == d.ch && p4 == p + |Text(d)| - 1
            && Letter(fmt[p2]) && Letter(fmt[p3])
  {
    hide FlagText, AmountText, PrecText, LengthText, Occurs, WellFormed, Letter;
    var (p1, p2, p3, p4) := Starts(d, p);
    var t3 := LengthText(d.length) + [d.ch];
    var t2 := PrecText(d.prec) + t3;
    OccursSplit(fmt, p, FlagText(d.flags), AmountText(d.width) + t2);
    OccursSplit(fmt, p1, AmountText(d.width), t2);
    OccursSplit(fmt, p2, PrecText(d.prec), t3);
    OccursSplit(fmt, p3, LengthText(d.length), [d.ch]);
    OccursHead(fmt, p4, [d.ch]);
    InBounds(fmt, p4, [d.ch]);
    LengthHead(d);
    OccursHead(fmt, p3, t3);
    PrecHead(d.prec, t3);
    OccursHead(fmt, p2, t2);
  }

  /** Scanning the text of a directive, wherever it stands in a format, finds
      its conversion character and its meaning. */
  lemma DirectiveScans(fmt: string, p: nat, d: Directive, args: seq<Arg>, a: nat)
    requires WellFormed(d) && Occurs(fmt, p, Text(d))
    ensures match Meaning(d, args, a)
            case None => Scan(fmt, p, args, a, START) == Undefined
            case Some(m) => Scan(fmt, p, args, a, START) == Found(p + |Text(d)| - 1, m.1, m.0)
    ensures fmt[p + |Text(d)| - 1] == d.ch
  {
    hide Scan, Flagged, Widened, Limited, Sized, FlagText, AmountText, PrecText, LengthText, Occurs, Text;
    DirectiveParts(fmt, p, d);
    var (p1, p2, p3, p4) := Starts(d, p);
    var c1 := Flagged(d.flags, START);
    FlagsScan(fmt, p, d.flags, args, a, START);
    WidthScans(fmt, p1, d.width, args, a, c1);
    var w := Widened(d.width, args, a, c1);
    if w.Some? {
      PrecScans(fmt, p2, d.prec, args, w.value.1, w.value.0);
      var m := Limited(d.prec, args, w.value.1, w.value.0);
      if m.Some? {
        LengthScans(fmt, p3, d.length, args, m.value.1, m.value.0);
        ConversionEnds(fmt, p4, args, m.value.1, Sized(d.length, m.value.0));
      }
    }
  }
}
