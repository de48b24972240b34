/** Whole runs over a string buffer of BsdSupport/subr_sbuf.c: any nesting of
    appends and padded sections, from sbuf_new to sbuf_finish. */
module StringBufferRuns {
  import opened StringBuffers
  import opened Sequences

  datatype Op = Bytes(s: string) | Section(pad: nat, c: char, inner: seq<Op>)

  /** The text of a run, as if memory were unlimited. */
  function Flat(ops: seq<Op>): string {
    if ops == [] then "" else Text(ops[0]) + Flat(ops[1..])
  }

  function Text(op: Op): string {
    match op
    case Bytes(s) => s
    case Section(pad, c, inner) => Flat(inner) + Fill(c, PadLength(|Flat(inner)|, pad))
  }

  /** A section's text is a multiple of its padding. */
  lemma SectionIsPadded(op: Op)
    requires op.Section? && op.pad > 0
    ensures |Text(op)| % op.pad == 0 && |Text(op)| < |Flat(op.inner)| + op.pad
  {
  }

  lemma TakenTwice(e0: nat, e1: nat, e2: nat, t0: string, t1: string, t2: string, a: string, b: string)
    requires Taken(e0, e1, t0, t1, a)
    requires e1 == 0 ==> Taken(e1, e2, t1, t2, b)
    requires e1 != 0 ==> e2 == e1 && t2 == t1
    requires e0 != 0 ==> e1 == e0
    ensures Taken(e0, e2, t0, t2, a + b)
  {
    assert t0 + a + b == t0 + (a + b);
    if e1 == 0 && e2 != 0 {
      assert t2 < t0 + (a + b);
    } else if e0 == 0 && e1 != 0 {
      assert t2 < t0 + a;
    }
  }

  /** One append or section. A section ends with the length of its text, inner
      sections and padding included, whatever surrounds it. */
  method RunOne(s: Sbuf, op: Op) returns (count: int)
    requires s.Valid() && !s.finished
    modifies s, s.buf
    ensures s.buf == old(s.buf) || fresh(s.buf)
    ensures s.Valid() && s.Kept()
    ensures Taken(old(s.error), s.error, old(s.accepted), s.accepted, Text(op))
    ensures op.Section? ==> count == if s.error == 0 then |Text(op)| else -1
    decreases op, 1
  {
    hide Sbuf.Valid, Sbuf.Room, Taken, Flat;
    count := 0;
    if op.Bytes? {
      var ok := s.Bcat(op.s);
    } else {
      count := RunSection(s, op);
    }
  }

  method RunSection(s: Sbuf, op: Op) returns (count: int)
    requires s.Valid() && !s.finished && op.Section?
    modifies s, s.buf
    ensures s.buf == old(s.buf) || fresh(s.buf)
    ensures s.Valid() && s.Kept()
    ensures Taken(old(s.error), s.error, old(s.accepted), s.accepted, Text(op))
    ensures count == if s.error == 0 then |Text(op)| else -1
    decreases op, 0
  {
    hide Sbuf.Valid, Sbuf.Room, Taken, Flat, Sbuf.Saved;
    var oldLen := s.StartSection();
    ghost var saved := s.marks;
    RunAll(s, op.inner);
    assert s.marks == saved;
    s.SectionLength();
    ghost var e, had := s.error, s.accepted;
    count := s.EndSection(oldLen, op.pad, op.c);
    TakenMeans(old(s.error), e, old(s.accepted), had, Flat(op.inner));
    TakenMeans(e, s.error, had, s.accepted, Fill(op.c, PadLength(|Flat(op.inner)|, op.pad)));
    TakenTwice(old(s.error), e, s.error, old(s.accepted), had, s.accepted,
               Flat(op.inner), Fill(op.c, PadLength(|Flat(op.inner)|, op.pad)));
  }

  method RunAll(s: Sbuf, ops: seq<Op>)
    requires s.Valid() && !s.finished
    modifies s, s.buf
    ensures s.buf == old(s.buf) || fresh(s.buf)
    ensures s.Valid() && s.Kept()
    ensures Taken(old(s.error), s.error, old(s.accepted), s.accepted, Flat(ops))
    decreases ops
  {
    if ops != [] {
      var count := RunOne(s, ops[0]);
      ghost var e, had := s.error, s.accepted;
      RunAll(s, ops[1..]);
      TakenTwice(old(s.error), e, s.error, old(s.accepted), had, s.accepted, Text(ops[0]), Flat(ops[1..]));
    }
  }

  /** A whole run without a drain: a buffer that can grow ends with the text of
      the run, a fixed one with as much as fits, and ENOMEM exactly when that
      is not all of it. */
  method Fixed(storage: array?<char>, length: nat, auto: bool, ops: seq<Op>) returns (s: Sbuf, e: nat)
    requires storage != null ==> 0 < length <= storage.Length
    requires storage == null && !auto ==> length > 0
    modifies if storage == null then {} else {storage}
    ensures s.len < s.buf.Length && s.buf[s.len] == '\0'
    ensures auto ==> e == 0 && s.buf[..s.len] == Flat(ops)
    ensures !auto ==> s.buf[..s.len] == if |Flat(ops)| < length then Flat(ops) else Flat(ops)[..length - 1]
    ensures !auto ==> e == if |Flat(ops)| < length then 0 else 12
  {
    hide Flat;
    s := new Sbuf(storage, length, auto);
    RunAll(s, ops);
    e := s.Finish();
    FirstBytes(s.accepted, Flat(ops));
  }

  lemma FirstBytes(has: string, text: string)
    ensures "" + text == text
    ensures has <= text ==> has == text[..|has|]
  {
  }

  /** A whole run with a drain that may take as little as a byte at a time,
      through the caller's buffer or an allocated one: unless it fails, it has
      been given exactly the text of the run, and there is an error if and only
      if it has failed, the one it first answered with. */
  method Drained(storage: array?<char>, length: nat, auto: bool, ops: seq<Op>) returns (s: Sbuf, e: nat)
    requires storage != null ==> 2 <= length <= storage.Length
    requires storage == null && !auto ==> length >= 2
    modifies if storage == null then {} else {storage}
    ensures s.drained <= Flat(ops)
    ensures e == 0 ==> s.drained == Flat(ops)
    ensures e != 0 <==> s.failed
    ensures s.failed ==> e == -s.answer
  {
    hide Flat;
    s := new Sbuf(storage, length, auto);
    s.SetDrain();
    RunAll(s, ops);
    e := s.Finish();
    FirstBytes(s.accepted, Flat(ops));
  }
}
