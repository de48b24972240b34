/** kprintf and vsnprintf of CLibrary/printf.c: the text a format and its
    arguments stand for, and the loop that emits and counts it. */
module Formatting {
  import opened FormatNumbers
  import opened FormatFields
  import opened FormatDirectives
  import opened FormatSyntax
  import opened FormatReading
  import opened Sequences

  /** The text of the format from p on; None where the behaviour is undefined. */
  function Render(fmt: string, p: nat, args: seq<Arg>, a: nat): Option<string>
    requires p <= |fmt| && CString(fmt)
    decreases |fmt| - p
  {
    if p == |fmt| then Some("")
    else if fmt[p] != '%' then
      Before([fmt[p]], Render(fmt, p + 1, args, a))
    else
      match Scan(fmt, p + 1, args, a, START)
      case Undefined => None
      case Found(e, a1, c) =>
        if e == |fmt| then Some("")
        else
          match Piece(c, fmt[e], args, a1)
          case None => None
          case Some(piece) => Before(Layout(piece.0), Render(fmt, e + 1, args, piece.1))
  }

  function Before(s: string, rest: Option<string>): Option<string> {
    if rest.None? then None else Some(s + rest.value)
  }

  /** The emission state of kprintf: sbuf and tailp as offsets into the buffer,
      or no buffer at all. */
  class Output {
    const data: array?<char>
    const limit: nat
    var next: nat
    ghost var sent: string
    ghost const before: string

    ghost const Frame: set<object> := {this} + (if data == null then {} else {data})

    /** The buffer holds what was sent as far as it fits; the rest of it is
        untouched. */
    ghost predicate Valid()
      reads Frame
    {
      if data == null then next == 0
      else
        && |before| == data.Length && limit <= data.Length
        && next == (if |sent| < limit then |sent| else limit)
        && data[..] == sent[..next] + before[next..]
    }

    constructor (data: array?<char>, limit: nat)
      requires data != null ==> limit <= data.Length
      ensures Valid() && this.data == data && this.limit == limit && sent == ""
      ensures data != null ==> before == data[..]
    {
      this.data := data;
      this.limit := limit;
      next := 0;
      sent := "";
      before := if data == null then "" else data[..];
    }

    /** KPRINTF_PUTCHAR. */
    method PutChar(c: char)
      requires Valid()
      modifies Frame
      ensures Valid() && sent == old(sent) + [c]
    {
      if data != null && next < limit {
        data[next] := c;
        next := next + 1;
      }
      sent := sent + [c];
      if data != null {
        assert old(data[..])[next..] == before[next..];
        assert data[..] == sent[..next] + before[next..];
      }
    }

    /** `while (n-- > 0) KPRINTF_PUTCHAR(c)`. */
    method Repeat(c: char, n0: int)
      requires Valid()
      modifies Frame
      ensures Valid() && sent == old(sent) + Fill(c, Most(0, n0))
    {
      var n := n0;
      while n > 0
        invariant Valid()
        invariant n <= Most(0, n0) && (n < 0 ==> n == n0)
        invariant sent == old(sent) + Fill(c, Most(0, n0) - Most(0, n))
      {
        ghost var k := Most(0, n0) - n;
        PutChar(c);
        assert Fill(c, k + 1) == Fill(c, k) + [c];
        n := n - 1;
      }
    }

    method PutString(s: string)
      requires Valid()
      modifies Frame
      ensures Valid() && sent == old(sent) + s
    {
      for i := 0 to |s|
        invariant Valid() && sent == old(sent) + s[..i]
      {
        assert s[..i + 1] == s[..i] + [s[i]];
        PutChar(s[i]);
      }
      assert s[..|s|] == s;
    }

    method PutLeft(f: Field, pad: int)
      requires Valid() && Most(0, pad) == Padding(f)
      modifies Frame
      ensures Valid() && sent == old(sent) + Left(f)
    {
      hide Valid, Padding, Fill;
      if !f.ladjust && !f.zeropad {
        Repeat(' ', pad);
      }
    }

    method PutZeros(f: Field, pad: int)
      requires Valid() && Most(0, pad) == Padding(f)
      modifies Frame
      ensures Valid() && sent == old(sent) + Zeros(f)
    {
      hide Valid, Padding;
      if !f.ladjust && f.zeropad {
        Repeat('0', pad);
      }
      Repeat('0', f.dprec - |f.body|);
    }

    method PutRight(f: Field, pad: int)
      requires Valid() && Most(0, pad) == Padding(f)
      modifies Frame
      ensures Valid() && sent == old(sent) + Right(f)
    {
      hide Valid, Padding, Fill;
      if f.ladjust {
        Repeat(' ', pad);
      }
    }

    /** Lines 534 to 578. The count is taken before anything is emitted. */
    method PutField(f: Field) returns (count: nat)
      requires Valid()
      modifies Frame
      ensures Valid() && sent == old(sent) + Layout(f)
      ensures count == |Layout(f)|
    {
      hide Valid, Left, Zeros, Right;
      LayoutLength(f);
      var realsz: nat := Most(f.dprec, |f.body|);
      if f.sign != '\0' {
        realsz := realsz + 1;
      } else if f.hex {
        realsz := realsz + 2;
      }
      count := Most(f.width, realsz);
      PutParts(f, f.width - realsz);
    }

    method PutParts(f: Field, pad: int)
      requires Valid() && Most(0, pad) == Padding(f)
      modifies Frame
      ensures Valid() && sent == old(sent) + Layout(f)
    {
      hide Valid, Left, Prefix, Zeros, Right, Padding;
      PutLeft(f, pad);
      PutPrefix(f);
      PutZeros(f, pad);
      PutString(f.body);
      PutRight(f, pad);
      Gather(old(sent), Left(f), Prefix(f), Zeros(f), f.body, Right(f));
    }

    method PutPrefix(f: Field)
      requires Valid()
      modifies Frame
      ensures Valid() && sent == old(sent) + Prefix(f)
    {
      hide Valid;
      if f.sign != '\0' {
        PutChar(f.sign);
      } else if f.hex {
        PutChar('0');
        PutChar(f.ch);
      }
    }
  }

  lemma Gather(s: string, a: string, b: string, c: string, d: string, e: string)
    ensures s + a + b + c + d + e == s + (a + b + c + d + e)
  {
  }

  /** Lines 365 to 369: the argument is widened to 64 bits and negated there. */
  method SplitSign(v: int, sign0: char) returns (u: nat, sign: char)
    requires -(QUAD / 2) <= v < QUAD / 2
    ensures u == Magnitude(v) && u < QUAD
    ensures sign == if v < 0 then '-' else sign0
  {
    Wrap(v, QUAD);
    u := v % QUAD;
    sign := sign0;
    if u >= QUAD / 2 {
      u := (QUAD - u) % QUAD;
      sign := '-';
    }
  }

  /** Lines 355 to 518, except that %n is undefined here. */
  method ConvertArgument(bf: array<char>, c: Conv, ch: char, args: seq<Arg>, a: nat)
    returns (r: Option<(Field, nat)>)
    requires bf.Length == BUFSIZE && ch != '\0'
    modifies bf
    ensures r == Piece(c, ch, args, a)
  {
    hide NumberText;
    if ch == 'c' {
      var v := Fetch(args, a, IntKind);
      if v.None? {
        return None;
      }
      return Some((PlainField(c, [(v.value % 256) as char]), a + 1));
    } else if IsSigned(ch) {
      var v := SArg(Widen(c, ch), args, a);
      if v.None? {
        return None;
      }
      var u, sign := SplitSign(v.value, c.sign);
      var cp := Convert(bf, Dec, u, c.alt, ch == 'X', c.prec);
      return Some((Field(bf[cp..], sign, false, ch, c.prec, c.width, c.ladjust, c.zeropad && c.prec < 0), a + 1));
    } else if UnsignedBase(ch).Some? {
      var v := UArg(Widen(c, ch), args, a);
      if v.None? {
        return None;
      }
      var base := UnsignedBase(ch).value;
      var hex := base == Hex && c.alt && v.value != 0;
      var cp := Convert(bf, base, v.value, c.alt, ch == 'X', c.prec);
      return Some((Field(bf[cp..], '\0', hex, ch, c.prec, c.width, c.ladjust, c.zeropad && c.prec < 0), a + 1));
    } else if ch == 'p' {
      var v := Fetch(args, a, AddressKind);
      if v.None? {
        return None;
      }
      var cp := Convert(bf, Hex, v.value % Modulus(LongKind), c.alt, false, c.prec);
      return Some((Field(bf[cp..], '\0', true, 'x', c.prec, c.width, c.ladjust, c.zeropad && c.prec < 0), a + 1));
    } else if ch == 's' {
      if a >= |args| || !args[a].Str? {
        return None;
      }
      var bytes := if args[a].bytes.None? then "(null)\0" else args[a].bytes.value;
      var size := StringSize(bytes, c.prec);
      if size.None? {
        return None;
      }
      return Some((PlainField(c, bytes[..size.value]), a + 1));
    } else if ch == 'n' {
      return None;
    }
    return Some((PlainField(c, [ch]), a));
  }

  /** kprintf returns exactly the number of characters it emits, and emits the
      text of the format. */
  method Kprintf(fmt: string, out: Output, args: seq<Arg>) returns (r: Option<nat>)
    requires CString(fmt) && out.Valid() && out.sent == ""
    modifies out.Frame
    ensures out.Valid()
    ensures r.Some? <==> Render(fmt, 0, args, 0).Some?
    ensures r.Some? ==> out.sent == Render(fmt, 0, args, 0).value && r.value == |out.sent|
  {
    hide Output.Valid, Scan, Piece, Layout;
    var bf := new char[BUFSIZE];
    ghost var goal := Render(fmt, 0, args, 0);
    var p, a, ret: nat := 0, 0, 0;
    BeforeNothing(goal);
    while true
      invariant p <= |fmt| && out.Valid() && fresh(bf) && bf !in out.Frame
      invariant goal == Before(out.sent, Render(fmt, p, args, a))
      invariant ret == |out.sent|
      decreases |fmt| - p
    {
      while At(fmt, p) != '%' && At(fmt, p) != '\0'
        invariant p <= |fmt| && out.Valid()
        invariant goal == Before(out.sent, Render(fmt, p, args, a))
        invariant ret == |out.sent|
        decreases |fmt| - p
      {
        BeforeTwice(out.sent, [fmt[p]], Render(fmt, p + 1, args, a));
        ret := ret + 1;
        out.PutChar(fmt[p]);
        p := p + 1;
      }
      if At(fmt, p) == '\0' {
        return Some(ret);
      }
      var ok, i, ch, a1, c := ScanDirective(fmt, p + 1, args, a);
      if !ok {
        return None;
      }
      if ch == '\0' {
        return Some(ret);
      }
      var piece := ConvertArgument(bf, c, ch, args, a1);
      if piece.None? {
        return None;
      }
      BeforeTwice(out.sent, Layout(piece.value.0), Render(fmt, i, args, piece.value.1));
      var count := out.PutField(piece.value.0);
      ret := ret + count;
      p, a := i, piece.value.1;
    }
  }

  lemma BeforeNothing(rest: Option<string>)
    ensures Before("", rest) == rest
  {
    if rest.Some? {
      assert "" + rest.value == rest.value;
    }
  }

  lemma BeforeTwice(s: string, t: string, rest: Option<string>)
    ensures Before(s, Before(t, rest)) == Before(s + t, rest)
  {
    if rest.Some? {
      assert s + (t + rest.value) == s + t + rest.value;
    }
  }

  /** What vsnprintf leaves in the buffer: as much of the text as leaves room
      for a NUL, the NUL, and nothing else changed. */
  function Terminated(text: string, size: nat, before: string): string
    requires size <= |before|
  {
    if size == 0 then before
    else
      var n := if |text| < size then |text| else size - 1;
      text[..n] + ['\0'] + before[n + 1..]
  }

  /** Storing the NUL completes what the emission left in the buffer. */
  lemma Terminating(text: string, size: nat, before: string, next: nat, data: string)
    requires size <= |before| && next == (if |text| < size then |text| else size)
    requires data == text[..next] + before[next..]
    ensures size == 0 ==> data == Terminated(text, size, before)
    ensures size > 0 ==> data[(if size <= |text| then size - 1 else |text|) := '\0'] == Terminated(text, size, before)
  {
    if size > 0 {
      if size <= |text| {
        assert text[..size] == text[..size - 1] + [text[size - 1]];
        Replaced(text[..size - 1], text[size - 1], before[size..]);
      } else {
        assert text[..|text|] == text && before[|text|..] == [before[|text|]] + before[|text| + 1..];
        Replaced(text, before[|text|], before[|text| + 1..]);
        Associative(text, [before[|text|]], before[|text| + 1..]);
      }
    }
  }

  lemma Replaced(a: string, c: char, b: string)
    ensures (a + [c] + b)[|a| := '\0'] == a + ['\0'] + b
  {
  }

  /** vsnprintf, with or without a buffer. */
  method Vsnprintf(bf: array?<char>, size: nat, fmt: string, args: seq<Arg>) returns (r: Option<nat>)
    requires CString(fmt)
    requires bf != null ==> size <= bf.Length
    modifies if bf == null then {} else {bf}
    ensures r.Some? <==> Render(fmt, 0, args, 0).Some?
    ensures r.Some? ==> r.value == |Render(fmt, 0, args, 0).value|
    ensures r.Some? && bf != null ==> bf[..] == Terminated(Render(fmt, 0, args, 0).value, size, old(bf[..]))
    ensures r.Some? && bf != null && r.value < size ==>
              bf[..r.value] == Render(fmt, 0, args, 0).value && bf[r.value] == '\0'
    ensures r.Some? && bf != null && 0 < size <= r.value ==>
              bf[..size - 1] == Render(fmt, 0, args, 0).value[..size - 1] && bf[size - 1] == '\0'
    ensures r.Some? && bf != null ==> forall k :: 0 <= k < bf.Length && (k >= size || k > r.value) ==> bf[k] == old(bf[k])
  {
    hide Render, Terminated;
    var out := new Output(bf, size);
    r := Kprintf(fmt, out, args);
    if bf != null {
      Terminating(out.sent, size, old(bf[..]), out.next, bf[..]);
    }
    if r.Some? && bf != null && size > 0 {
      if size <= r.value {
        bf[size - 1] := '\0';
      } else {
        bf[r.value] := '\0';
      }
    }
    if r.Some? && bf != null {
      VsnprintfMeans(bf[..], out.sent, size, old(bf[..]));
    }
  }

  lemma VsnprintfMeans(data: string, text: string, size: nat, before: string)
    requires size <= |before| && data == Terminated(text, size, before)
    ensures |data| == |before|
    ensures |text| < size ==> data[..|text|] == text && data[|text|] == '\0'
    ensures 0 < size <= |text| ==> data[..size - 1] == text[..size - 1] && data[size - 1] == '\0'
    ensures forall k :: 0 <= k < |before| && (k >= size || k > |text|) ==> data[k] == before[k]
  {
  }

  /** A directive that the format ends in prints nothing. */
  lemma LonePercent(fmt: string, args: seq<Arg>, a: nat)
    requires CString(fmt) && fmt != "" && fmt[|fmt| - 1] == '%'
    ensures Render(fmt, |fmt| - 1, args, a) == Some("")
  {
    hide Scan;
    Turns(fmt, |fmt|, args, a, START);
  }

  /** A format without directives is its own text. */
  lemma {:induction false} LiteralText(fmt: string, p: nat, args: seq<Arg>, a: nat)
    requires CString(fmt) && p <= |fmt| && '%' !in fmt
    ensures Render(fmt, p, args, a) == Some(fmt[p..])
    decreases |fmt| - p
  {
    if p == |fmt| {
      assert fmt[p..] == "";
    } else {
      assert fmt[p] != '%';
      LiteralText(fmt, p + 1, args, a);
      assert fmt[p..] == [fmt[p]] + fmt[p + 1..];
    }
  }

  /** A directive is replaced by the field its meaning gives, and the rest of
      the format carries on with the next argument. */
  lemma DirectiveRenders(fmt: string, p: nat, d: Directive, args: seq<Arg>, a: nat)
    requires CString(fmt) && WellFormed(d) && p < |fmt| && fmt[p] == '%' && Occurs(fmt, p + 1, Text(d))
    ensures Render(fmt, p, args, a)
         == match Meaning(d, args, a)
            case None => None
            case Some(m) =>
              match Piece(m.0, d.ch, args, m.1)
              case None => None
              case Some(piece) => Before(Layout(piece.0), Render(fmt, p + 1 + |Text(d)|, args, piece.1))
  {
    hide Scan, Piece, Layout, Text, Meaning;
    DirectiveScans(fmt, p + 1, d, args, a);
    InBounds(fmt, p + 1, Text(d));
  }

  lemma FlaggedSign(flags: seq<Flag>)
    ensures ValidSign(Flagged(flags, START))
  {
  }

  lemma AmountsKeepSign(m: Amount, args: seq<Arg>, a: nat, c: Conv)
    ensures Widened(m, args, a, c).Some? ==> Widened(m, args, a, c).value.0.sign == c.sign
    ensures Limited(m, args, a, c).Some? ==> Limited(m, args, a, c).value.0.sign == c.sign
  {
    hide IntArg;
  }

  lemma SizedKeepsSign(l: Length, c: Conv)
    ensures Sized(l, c).sign == c.sign
  {
  }

  lemma MeaningSign(d: Directive, args: seq<Arg>, a: nat)
    ensures Meaning(d, args, a).Some? ==> ValidSign(Meaning(d, args, a).value.0)
  {
    hide Flagged, Widened, Limited, Sized;
    FlaggedSign(d.flags);
    var w := Widened(d.width, args, a, Flagged(d.flags, START));
    AmountsKeepSign(d.width, args, a, Flagged(d.flags, START));
    if w.Some? {
      AmountsKeepSign(d.prec, args, w.value.1, w.value.0);
      var m := Limited(d.prec, args, w.value.1, w.value.0);
      if m.Some? {
        SizedKeepsSign(d.length, m.value.0);
      }
    }
  }

  /** A directive that is the whole format prints just its field. */
  lemma SingleDirective(d: Directive, args: seq<Arg>, text: string)
    requires WellFormed(d) && CString("%" + Text(d))
    requires Render("%" + Text(d), 0, args, 0) == Some(text)
    ensures Meaning(d, args, 0).Some?
    ensures var m := Meaning(d, args, 0).value;
            && ValidSign(m.0)
            && Piece(m.0, d.ch, args, m.1).Some?
            && text == Layout(Piece(m.0, d.ch, args, m.1).value.0)
  {
    hide Piece, Layout, Text, Meaning, Scan;
    var fmt := "%" + Text(d);
    assert fmt[1..1 + |Text(d)|] == Text(d);
    DirectiveRenders(fmt, 0, d, args, 0);
    MeaningSign(d, args, 0);
    var m := Meaning(d, args, 0).value;
    var piece := Piece(m.0, d.ch, args, m.1).value;
    assert Render(fmt, |fmt|, args, piece.1) == Some("");
    assert Layout(piece.0) + "" == Layout(piece.0);
  }

  /** d and i: the text reads back as the argument, whatever else is asked. */
  lemma PrintedIntegerReadsBack(d: Directive, args: seq<Arg>, text: string)
    requires WellFormed(d) && CString("%" + Text(d)) && IsSigned(d.ch)
    requires Render("%" + Text(d), 0, args, 0) == Some(text)
    ensures Meaning(d, args, 0).Some?
    ensures var m := Meaning(d, args, 0).value;
            SArg(Widen(m.0, d.ch), args, m.1) == Some(Read(10, text))
  {
    hide Piece, Layout, Text, Meaning, Read, Scan, Render;
    SingleDirective(d, args, text);
    var m := Meaning(d, args, 0).value;
    SignedReadsBack(m.0, d.ch, args, m.1);
  }

  /** o, u, x and X: likewise, in the radix of the conversion. */
  lemma PrintedUnsignedReadsBack(d: Directive, args: seq<Arg>, text: string)
    requires WellFormed(d) && CString("%" + Text(d)) && UnsignedBase(d.ch).Some?
    requires Render("%" + Text(d), 0, args, 0) == Some(text)
    ensures Meaning(d, args, 0).Some?
    ensures var m := Meaning(d, args, 0).value;
            UArg(Widen(m.0, d.ch), args, m.1) == Some(Read(Radix(UnsignedBase(d.ch).value), text))
  {
    hide Piece, Layout, Text, Meaning, Read, Scan, Render;
    SingleDirective(d, args, text);
    var m := Meaning(d, args, 0).value;
    UnsignedReadsBack(m.0, d.ch, args, m.1);
  }
}
