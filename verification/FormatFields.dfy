/** One conversion of CLibrary/printf.c, from its flags and argument to the
    characters of its field. */
module FormatFields {
  import Division
  import opened FormatNumbers
  import opened Sequences

  /** What va_arg is asked for; on i686 only quad_t and intmax_t have 64 bits. */
  datatype Kind = IntKind | LongKind | QuadKind | MaxKind | PtrKind | SizeKind | AddressKind

  /** A typed argument. A string is the memory it points to, which need not
      hold a NUL. */
  datatype Arg = Number(kind: Kind, value: int) | Str(bytes: Option<string>)

  function Modulus(kind: Kind): (m: nat)
    ensures m > 0 && m % 2 == 0 && m <= QUAD
  {
    if kind == QuadKind || kind == MaxKind then QUAD else 0x1_0000_0000
  }

  /** va_arg: undefined when the argument is missing or of another type. */
  function Fetch(args: seq<Arg>, a: nat, kind: Kind): Option<int> {
    if a < |args| && args[a].Number? && args[a].kind == kind then Some(args[a].value) else None
  }

  /** The flag word, field width, precision and sign gathered from a directive. */
  datatype Conv = Conv(alt: bool, ladjust: bool, zeropad: bool,
                       longint: bool, quadint: bool, shortint: bool,
                       maxint: bool, ptrint: bool, sizeint: bool,
                       width: nat, prec: int, sign: char)

  const START: Conv := Conv(false, false, false, false, false, false, false, false, false, 0, -1, '\0')

  function ArgKind(c: Conv): Kind {
    if c.maxint then MaxKind
    else if c.ptrint then PtrKind
    else if c.sizeint then SizeKind
    else if c.quadint then QuadKind
    else if c.longint then LongKind
    else IntKind
  }

  /** The values an argument can have once SARG or UARG has narrowed it. */
  function ArgModulus(c: Conv): (m: nat)
    ensures m > 0 && m % 2 == 0 && m <= QUAD
  {
    if ArgKind(c) == IntKind && c.shortint then 0x1_0000 else Modulus(ArgKind(c))
  }

  /** The two's complement reading of v in a word of m values. */
  function Signed(v: int, m: nat): (r: int)
    requires m > 0 && m % 2 == 0
    ensures -(m / 2) <= r < m / 2
  {
    var u := v % m;
    if u >= m / 2 then u - m else u
  }

  /** A value that fits is read as itself. */
  lemma SignedFits(v: int, m: nat)
    requires m > 0 && m % 2 == 0 && -(m / 2) <= v < m / 2
    ensures Signed(v, m) == v
  {
    Wrap(v, m);
  }

  /** And no value is read as another one than its own, up to multiples of m. */
  lemma SignedCongruent(v: int, m: nat)
    requires m > 0 && m % 2 == 0
    ensures exists k: int :: Signed(v, m) == v - k * m
  {
    var q, u := v / m, v % m;
    assert v == q * m + u;
    assert (q + 1) * m == q * m + m;
    if u >= m / 2 {
      assert Signed(v, m) == v - (q + 1) * m;
    } else {
      assert Signed(v, m) == v - q * m;
    }
  }

  lemma Wrap(v: int, m: nat)
    requires m > 0
    ensures 0 <= v < m ==> v % m == v
    ensures -(m as int) <= v < 0 ==> v % m == v + m
  {
    var q, r := v / m, v % m;
    assert v == q * m + r;
    OnlyZero(q, m);
    OnlyZero(q + 1, m);
    assert (q + 1) * m == q * m + m;
  }

  lemma OnlyZero(k: int, m: nat)
    ensures -(m as int) < k * m < m ==> k == 0
  {
    if k > 0 {
      Division.Monotone(1, k, m);
    } else if k < 0 {
      Division.Monotone(1, -k, m);
      assert (-k) * m == -(k * m);
    }
  }

  function SArg(c: Conv, args: seq<Arg>, a: nat): Option<int> {
    match Fetch(args, a, ArgKind(c))
    case None => None
    case Some(v) => Some(Signed(v, ArgModulus(c)))
  }

  function UArg(c: Conv, args: seq<Arg>, a: nat): Option<nat> {
    match Fetch(args, a, ArgKind(c))
    case None => None
    case Some(v) => Some(v % ArgModulus(c))
  }

  /** A converted field: its characters proper, and all that surrounds them. */
  datatype Field = Field(body: string, sign: char, hex: bool, ch: char, dprec: int,
                         width: nat, ladjust: bool, zeropad: bool)

  function Most(a: int, b: int): int {
    if a > b then a else b
  }

  function Prefix(f: Field): string {
    if f.sign != '\0' then [f.sign] else if f.hex then ['0', f.ch] else ""
  }

  function RealSize(f: Field): nat {
    Most(f.dprec, |f.body|) + |Prefix(f)|
  }

  function Padding(f: Field): nat {
    Most(0, f.width - RealSize(f))
  }

  function Left(f: Field): string {
    if !f.ladjust && !f.zeropad then Fill(' ', Padding(f)) else ""
  }

  function Zeros(f: Field): string {
    Fill('0', if !f.ladjust && f.zeropad then Padding(f) else 0) + Fill('0', Most(0, f.dprec - |f.body|))
  }

  function Right(f: Field): string {
    if f.ladjust then Fill(' ', Padding(f)) else ""
  }

  /** The characters emitted for a field. */
  function Layout(f: Field): string {
    Left(f) + Prefix(f) + Zeros(f) + f.body + Right(f)
  }

  /** Line 541 counts the field before a single character of it is emitted. */
  lemma LayoutLength(f: Field)
    ensures |Layout(f)| == Most(f.width, RealSize(f))
  {
    assert |Left(f)| + |Right(f)| + |Zeros(f)| == Padding(f) + Most(0, f.dprec - |f.body|);
  }

  /** The first NUL among the first n bytes. */
  function FindNul(bytes: string, n: nat): (p: Option<nat>)
    requires n <= |bytes|
    ensures p.Some? <==> '\0' in bytes[..n]
    ensures p.Some? ==> p.value < n && bytes[p.value] == '\0' && '\0' !in bytes[..p.value]
  {
    if n == 0 then None
    else
      assert bytes[..n] == bytes[..n - 1] + [bytes[n - 1]];
      match FindNul(bytes, n - 1)
      case Some(k) => Some(k)
      case None => if bytes[n - 1] == '\0' then Some(n - 1) else None
  }

  /** How many bytes %s prints: strlen, or memchr within the precision. It is
      undefined when either has to leave the argument's memory. */
  function StringSize(bytes: string, prec: int): (n: Option<nat>)
    ensures n.Some? ==> n.value <= |bytes|
  {
    if prec < 0 || prec > |bytes| then FindNul(bytes, |bytes|)
    else
      match FindNul(bytes, prec)
      case Some(k) => Some(k)
      case None => Some(prec)
  }

  /** Exactly the longest NUL-free beginning that the precision allows. */
  lemma StringIsLongest(bytes: string, prec: int, n: nat)
    requires n <= |bytes|
    ensures StringSize(bytes, prec) == Some(n) <==>
            && '\0' !in bytes[..n]
            && (prec >= 0 ==> n <= prec)
            && (n == prec || (n < |bytes| && bytes[n] == '\0'))
  {
    match StringSize(bytes, prec)
    case None =>
      if n < |bytes| {
        assert bytes[n] in bytes[..|bytes|];
      }
    case Some(k) =>
      if k < n {
        assert bytes[k] in bytes[..n];
      } else if n < k {
        assert bytes[n] in bytes[..k];
      }
  }

  function NumberField(c: Conv, base: Base, v: nat, sign: char, hex: bool, ch: char): Field {
    Field(NumberText(base, v, c.alt, ch == 'X', c.prec), sign, hex, ch, c.prec,
          c.width, c.ladjust, c.zeropad && c.prec < 0)
  }

  function PlainField(c: Conv, body: string): Field {
    Field(body, '\0', false, '\0', 0, c.width, c.ladjust, c.zeropad)
  }

  function Magnitude(v: int): nat {
    if v < 0 then -v else v
  }

  predicate IsSigned(ch: char) {
    ch in "Ddi"
  }

  function UnsignedBase(ch: char): Option<Base> {
    if ch in "Oo" then Some(Oct) else if ch in "Uu" then Some(Dec) else if ch in "Xx" then Some(Hex) else None
  }

  /** D, O and U ask for a long argument. */
  function Widen(c: Conv, ch: char): Conv {
    if ch in "DOU" then c.(longint := true) else c
  }

  /** The field of a conversion and the position of the next argument. It is
      undefined for %n and for an argument that va_arg cannot fetch. */
  function Piece(c: Conv, ch: char, args: seq<Arg>, a: nat): Option<(Field, nat)>
    requires ch != '\0'
  {
    if ch == 'c' then
      match Fetch(args, a, IntKind)
      case None => None
      case Some(v) => Some((PlainField(c, [(v % 256) as char]), a + 1))
    else if IsSigned(ch) then
      match SArg(Widen(c, ch), args, a)
      case None => None
      case Some(v) =>
        Some((NumberField(c, Dec, Magnitude(v), if v < 0 then '-' else c.sign, false, ch), a + 1))
    else if UnsignedBase(ch).Some? then
      match UArg(Widen(c, ch), args, a)
      case None => None
      case Some(v) =>
        var base := UnsignedBase(ch).value;
        Some((NumberField(c, base, v, '\0', base == Hex && c.alt && v != 0, ch), a + 1))
    else if ch == 'p' then
      match Fetch(args, a, AddressKind)
      case None => None
      case Some(v) => Some((NumberField(c, Hex, v % Modulus(LongKind), '\0', true, 'x'), a + 1))
    else if ch == 's' then
      if a < |args| && args[a].Str? then
        var bytes := if args[a].bytes.Some? then args[a].bytes.value else "(null)\0";
        match StringSize(bytes, c.prec)
        case None => None
        case Some(n) => Some((PlainField(c, bytes[..n]), a + 1))
      else None
    else if ch == 'n' then None
    else Some((PlainField(c, [ch]), a))
  }
}
