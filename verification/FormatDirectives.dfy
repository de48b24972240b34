/** Conversion directives: how CLibrary/printf.c scans what follows a `%`, and
    what a directive written as the C standard allows comes to mean. */
module FormatDirectives {
  import opened FormatNumbers
  import opened FormatFields
  import opened Sequences

  /** A C string: the terminating NUL stands just past the last character. */
  predicate CString(fmt: string) {
    '\0' !in fmt
  }

  /** Reading `*fmt` never leaves the string and its NUL. */
  function At(fmt: string, i: nat): char
    requires i <= |fmt|
  {
    if i == |fmt| then '\0' else fmt[i]
  }

  predicate IsDigit(c: char) {
    '0' <= c <= '9'
  }

  function DigitRun(fmt: string, i: nat): (e: nat)
    requires i <= |fmt|
    ensures i <= e <= |fmt|
    ensures i < |fmt| && IsDigit(fmt[i]) ==> i < e
    decreases |fmt| - i
  {
    if i < |fmt| && IsDigit(fmt[i]) then DigitRun(fmt, i + 1) else i
  }

  /** Where the conversion character is, the next argument, and the state. */
  datatype Scanned = Undefined | Found(pos: nat, next: nat, conv: Conv)

  function IntArg(args: seq<Arg>, a: nat): Option<int> {
    match Fetch(args, a, IntKind)
    case None => None
    case Some(v) => Some(Signed(v, Modulus(IntKind)))
  }

  function SpaceSign(sign: char): char {
    if sign == '\0' then ' ' else sign
  }

  /** One turn of the scan: it ends, or goes on behind what it has read. */
  datatype Turn = Fault | Stop | On(pos: nat, next: nat, conv: Conv)

  function One(p: nat, a: nat, c: Conv): Turn {
    On(p + 1, a, c)
  }

  /** The turn at the character at p, as lines 271 to 354 take it. */
  function Step(fmt: string, p: nat, args: seq<Arg>, a: nat, c: Conv): (r: Turn)
    requires p <= |fmt|
    ensures r.On? ==> p < r.pos <= |fmt|
  {
    if p == |fmt| then Stop
    else
      match fmt[p]
      case ' ' => One(p, a, c.(sign := SpaceSign(c.sign)))
      case '#' => One(p, a, c.(alt := true))
      case '*' =>
        (match IntArg(args, a)
         case None => Fault
         case Some(v) => One(p, a + 1, c.(width := Magnitude(v), ladjust := c.ladjust || v < 0)))
      case '-' => One(p, a, c.(ladjust := true))
      case '+' => One(p, a, c.(sign := '+'))
      case '.' =>
        if At(fmt, p + 1) == '*' then
          match IntArg(args, a)
          case None => Fault
          case Some(v) => On(p + 2, a + 1, c.(prec := if v < 0 then -1 else v))
        else
          var e := DigitRun(fmt, p + 1);
          On(e, a, c.(prec := Value(10, fmt[p + 1..e])))
      case '0' => One(p, a, c.(zeropad := true))
      case 'h' => One(p, a, c.(shortint := true))
      case 'j' => One(p, a, c.(maxint := true))
      case 'l' =>
        if At(fmt, p + 1) == 'l' then On(p + 2, a, c.(quadint := true))
        else One(p, a, c.(longint := true))
      case 'q' => One(p, a, c.(quadint := true))
      case 't' => One(p, a, c.(ptrint := true))
      case 'z' => One(p, a, c.(sizeint := true))
      case ch =>
        if IsDigit(ch) then
          var e := DigitRun(fmt, p);
          On(e, a, c.(width := Value(10, fmt[p..e])))
        else Stop
  }

  /** The scan from the character at p on. */
  function Scan(fmt: string, p: nat, args: seq<Arg>, a: nat, c: Conv): (r: Scanned)
    requires p <= |fmt|
    ensures r.Found? ==> p <= r.pos <= |fmt|
    decreases |fmt| - p
  {
    match Step(fmt, p, args, a, c)
    case Fault => Undefined
    case Stop => Found(p, a, c)
    case On(q, next, conv) => Scan(fmt, q, args, next, conv)
  }

  lemma Turns(fmt: string, p: nat, args: seq<Arg>, a: nat, c: Conv)
    requires p <= |fmt|
    ensures match Step(fmt, p, args, a, c)
            case Fault => Scan(fmt, p, args, a, c) == Undefined
            case Stop => Scan(fmt, p, args, a, c) == Found(p, a, c)
            case On(q, next, conv) => Scan(fmt, p, args, a, c) == Scan(fmt, q, args, next, conv)
  {
    hide Step;
  }

  /** Lines 308 to 312 and 325 to 329: accumulate decimal digits. `i` is the
      position after `ch`. */
  method ReadDecimal(fmt: string, i0: nat, ch0: char) returns (n: nat, i: nat, ch: char)
    requires CString(fmt) && 0 < i0 <= |fmt| + 1 && ch0 == At(fmt, i0 - 1)
    ensures i == DigitRun(fmt, i0 - 1) + 1 && ch == At(fmt, i - 1)
    ensures n == Value(10, fmt[i0 - 1..i - 1])
  {
    n, i, ch := 0, i0, ch0;
    assert fmt[i0 - 1..i0 - 1] == "";
    while IsDigit(ch)
      invariant i0 <= i <= |fmt| + 1 && ch == At(fmt, i - 1)
      invariant DigitRun(fmt, i - 1) == DigitRun(fmt, i0 - 1)
      invariant n == Value(10, fmt[i0 - 1..i - 1])
      decreases |fmt| + 1 - i
    {
      ValueAppend(fmt, i0 - 1, i - 1);
      n := 10 * n + (ch as int - '0' as int);
      ch := At(fmt, i);
      i := i + 1;
    }
  }

  lemma ValueAppend(s: string, lo: nat, hi: nat)
    requires lo <= hi < |s| && IsDigit(s[hi])
    ensures Value(10, s[lo..hi + 1]) == 10 * Value(10, s[lo..hi]) + (s[hi] as int - '0' as int)
  {
    ValueStep(10, s[lo..hi], s[hi]);
    assert s[lo..hi + 1] == s[lo..hi] + [s[hi]];
  }

  /** The flags among the cases of lines 273 to 317. */
  method ReadFlag(fmt: string, p: nat, args: seq<Arg>, a: nat, c0: Conv) returns (c: Conv)
    requires p < |fmt| && fmt[p] in " #-+0"
    ensures Step(fmt, p, args, a, c0) == On(p + 1, a, c)
  {
    hide DigitRun, Value, IntArg;
    c := c0;
    match fmt[p] {
      case ' ' =>
        if c.sign == '\0' {
          c := c.(sign := ' ');
        }
      case '#' => c := c.(alt := true);
      case '-' => c := c.(ladjust := true);
      case '+' => c := c.(sign := '+');
      case _ => c := c.(zeropad := true);
    }
  }

  /** The length modifiers, lines 332 to 354. */
  method ReadLength(fmt: string, p: nat, args: seq<Arg>, a: nat, c0: Conv) returns (q: nat, c: Conv)
    requires p < |fmt| && fmt[p] in "hjlqtz"
    ensures p < q <= |fmt| && Step(fmt, p, args, a, c0) == On(q, a, c)
  {
    hide DigitRun, Value, IntArg;
    q, c := p + 1, c0;
    match fmt[p] {
      case 'h' => c := c.(shortint := true);
      case 'j' => c := c.(maxint := true);
      case 'l' =>
        if At(fmt, q) == 'l' {
          q := q + 1;
          c := c.(quadint := true);
        } else {
          c := c.(longint := true);
        }
      case 'q' => c := c.(quadint := true);
      case 't' => c := c.(ptrint := true);
      case _ => c := c.(sizeint := true);
    }
  }

  /** Lines 285 to 298: a field width among the arguments. */
  method ReadStar(fmt: string, p: nat, args: seq<Arg>, a0: nat, c0: Conv) returns (ok: bool, a: nat, c: Conv)
    requires p < |fmt| && fmt[p] == '*'
    ensures Step(fmt, p, args, a0, c0) == if ok then On(p + 1, a, c) else Fault
  {
    hide DigitRun, Value, IntArg;
    var v := IntArg(args, a0);
    ok, a, c := v.Some?, a0 + 1, c0;
    if ok {
      c := c.(width := Magnitude(v.value));
      if v.value < 0 {
        c := c.(ladjust := true);
      }
    }
  }

  /** Lines 302 to 314: a precision, among the arguments or as digits. */
  method ReadPrecision(fmt: string, p: nat, args: seq<Arg>, a0: nat, c0: Conv)
    returns (ok: bool, q: nat, a: nat, c: Conv)
    requires CString(fmt) && p < |fmt| && fmt[p] == '.'
    ensures p < q <= |fmt|
    ensures Step(fmt, p, args, a0, c0) == if ok then On(q, a, c) else Fault
  {
    hide DigitRun, Value, IntArg;
    ok, a, c := true, a0, c0;
    if At(fmt, p + 1) == '*' {
      var v := IntArg(args, a0);
      ok, q, a := v.Some?, p + 2, a0 + 1;
      if ok {
        c := c.(prec := if v.value < 0 then -1 else v.value);
      }
    } else {
      var n, i, ch := ReadDecimal(fmt, p + 2, At(fmt, p + 1));
      q, c := i - 1, c.(prec := n);
    }
  }

  /** Lines 323 to 331: a field width as digits. */
  method ReadWidth(fmt: string, p: nat, args: seq<Arg>, a: nat, c0: Conv) returns (q: nat, c: Conv)
    requires CString(fmt) && p < |fmt| && IsDigit(fmt[p]) && fmt[p] != '0'
    ensures p < q <= |fmt| && Step(fmt, p, args, a, c0) == On(q, a, c)
  {
    hide DigitRun, Value, IntArg;
    var n, i, ch := ReadDecimal(fmt, p + 1, fmt[p]);
    q, c := i - 1, c0.(width := n);
  }

  /** Everything else ends the directive. */
  lemma StepEnds(fmt: string, p: nat, args: seq<Arg>, a: nat, c: Conv)
    requires p <= |fmt|
    ensures p == |fmt| || (fmt[p] !in " #*-+.hjlqtz" && !IsDigit(fmt[p])) ==> Step(fmt, p, args, a, c) == Stop
  {
    hide DigitRun, Value, IntArg;
  }

  /** Lines 271 to 354. `i` is the position after the conversion character. */
  method ScanDirective(fmt: string, start: nat, args: seq<Arg>, a0: nat)
    returns (ok: bool, i: nat, ch: char, a: nat, c: Conv)
    requires CString(fmt) && start <= |fmt|
    ensures 0 < i <= |fmt| + 1 && ch == At(fmt, i - 1)
    ensures ok ==> Scan(fmt, start, args, a0, START) == Found(i - 1, a, c)
    ensures !ok ==> Scan(fmt, start, args, a0, START) == Undefined
  {
    hide Scan, Step;
    ghost var goal := Scan(fmt, start, args, a0, START);
    ok, a, c := true, a0, START;
    ch := At(fmt, start);
    i := start + 1;
    while true
      invariant 0 < i <= |fmt| + 1 && ch == At(fmt, i - 1) && ok
      invariant goal == Scan(fmt, i - 1, args, a, c)
      decreases |fmt| + 1 - i
    {
      Turns(fmt, i - 1, args, a, c);
      StepEnds(fmt, i - 1, args, a, c);
      if ch == '\0' {
        return;
      }
      var next := i;
      match ch {
        case ' ' | '#' | '-' | '+' | '0' =>
          c := ReadFlag(fmt, i - 1, args, a, c);
        case '*' =>
          ok, a, c := ReadStar(fmt, i - 1, args, a, c);
        case '.' =>
          ok, next, a, c := ReadPrecision(fmt, i - 1, args, a, c);
        case 'h' | 'j' | 'l' | 'q' | 't' | 'z' =>
          next, c := ReadLength(fmt, i - 1, args, a, c);
        case _ =>
          if !IsDigit(ch) {
            return;
          }
          next, c := ReadWidth(fmt, i - 1, args, a, c);
      }
      if !ok {
        return;
      }
      ch := At(fmt, next);
      i := next + 1;
    }
  }
}
