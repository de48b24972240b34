/** The string buffers of BsdSupport/subr_sbuf.c: growth, draining, sticky
    errors and nested, padded sections. */
module StringBuffers {
  import Division
  import opened Sequences

  const MINEXTENDSIZE: nat := 16
  const MAXEXTENDSIZE: nat := 4096
  const MAXEXTENDINCR: nat := 4096
  const ENOMEM: nat := 12

  predicate PowerOfTwo(n: nat) {
    n == 1 || (n > 1 && n % 2 == 0 && PowerOfTwo(n / 2))
  }

  /** The least power of two from 16 on that is large enough; from a page on,
      the least multiple of a page. */
  method ExtendSize(size: nat) returns (newsize: nat)
    ensures newsize >= size && newsize >= 16
    ensures size < 4096 ==> PowerOfTwo(newsize) && (newsize == 16 || newsize / 2 < size)
    ensures size >= 4096 ==> newsize % 4096 == 0 && newsize < size + 4096
  {
    if size < MAXEXTENDSIZE {
      newsize := MINEXTENDSIZE;
      Sixteen();
      while newsize < size
        invariant newsize >= MINEXTENDSIZE && PowerOfTwo(newsize)
        invariant newsize == MINEXTENDSIZE || newsize / 2 < size
        decreases size - newsize
      {
        newsize := newsize * 2;
      }
    } else {
      newsize := Roundup(size, MAXEXTENDINCR);
    }
  }

  lemma Sixteen()
    ensures PowerOfTwo(16)
  {
    assert PowerOfTwo(2) && PowerOfTwo(4) && PowerOfTwo(8);
  }

  /** The roundup and roundup2 macros: the least multiple of y from x on. */
  function Roundup(x: nat, y: nat): (r: nat)
    requires y > 0
    ensures x <= r < x + y && r % y == 0
  {
    var q := (x + (y - 1)) / y;
    Division.MultipleMod(q, y);
    assert x + (y - 1) == q * y + (x + (y - 1)) % y;
    q * y
  }

  class Sbuf {
    var buf: array<char>
    var size: nat
    var len: nat
    var error: nat
    var drain: bool
    var autoextend: bool
    var dynamic: bool
    var finished: bool
    var insection: bool
    var sectLen: nat

    /** What the drain function has taken, all that was accepted, and how much
        had been accepted when each open section began. */
    ghost var drained: string
    /** Whether the drain function has answered with a negative number, and the
        first one it has answered with. */
    ghost var failed: bool
    ghost var answer: int
    ghost var accepted: string
    ghost var marks: seq<nat>

    /** What the buffer guards: it has room for a NUL, and what was drained and
        what is buffered are together all that was accepted. */
    ghost predicate Valid()
      reads this, buf
    {
      Room() && Loss() && Sections()
    }

    ghost predicate Room()
      reads this`len, this`size, this`buf, this`drain, this`accepted, this`drained, buf
    {
      && len < size <= buf.Length
      && (drain ==> size >= 2)
      && accepted == drained + buf[..len]
      && (!drain ==> drained == "")
    }

    /** With a drain an error is its first negative answer. Without one it is
        ENOMEM, from a buffer that cannot grow and is full but for the NUL. */
    ghost predicate Loss()
      reads this`error, this`drain, this`autoextend, this`len, this`size, this`failed, this`answer
    {
      && (drain ==> (error != 0 <==> failed) && (failed ==> error == -answer))
      && (!drain ==> !failed)
      && (error != 0 && !drain ==> error == ENOMEM && !autoextend && len + 1 == size)
    }

    /** s_sect_len counts what the innermost open section holds so far. */
    ghost predicate Sections()
      reads this`insection, this`sectLen, this`accepted, this`marks
    {
      && insection == (marks != [])
      && sectLen == (if marks == [] then 0 else |accepted| - marks[|marks| - 1])
      && (forall i :: 0 <= i < |marks| ==> marks[i] <= |accepted|)
      && (forall i, j :: 0 <= i < j < |marks| ==> marks[i] <= marks[j])
    }

    /** sbuf_new with storage given, or allocated when there is none. It accepts
        a length of 0 too; the integrity that every operation asserts (line 103)
        then holds exactly when the buffer has a byte or more. */
    constructor (storage: array?<char>, length: nat, auto: bool)
      requires storage != null ==> length <= storage.Length
      ensures Valid() <==> length > 0 || (storage == null && auto)
      ensures error == 0 && !finished && !drain && autoextend == auto
      ensures accepted == "" && marks == [] && len == 0
      ensures storage != null ==> buf == storage && size == length
      ensures storage == null ==> fresh(buf) && size >= (if auto then MINEXTENDSIZE else length)
      ensures storage == null && !auto ==> size == length
    {
      var wanted := length;
      if storage == null && auto {
        wanted := ExtendSize(length);
      }
      if storage == null {
        buf := new char[wanted];
        dynamic := true;
      } else {
        buf := storage;
        dynamic := false;
      }
      size := wanted;
      len, error, sectLen := 0, 0, 0;
      drain, autoextend, finished, insection := false, auto, false, false;
      drained, accepted, marks, failed, answer := "", "", [], false, 0;
    }

    /** sbuf_set_drain, before anything is put; a drain needs room for a byte
        beside the NUL. */
    method SetDrain()
      requires Valid() && !finished && len == 0 && error == 0 && size >= 2
      modifies this`drain
      ensures Valid() && drain
    {
      drain := true;
    }

    /** SBUF_FREESPACE is not positive: the next byte needs room. */
    predicate Full()
      reads this`len, this`size
    {
      len + 1 >= size
    }

    /** The drain would be called on an empty buffer exactly when the buffer
        has a single byte. */
    lemma EmptyDrain()
      requires drain && error == 0 && len < size && Full()
      ensures len == 0 <==> size == 1
    {
    }

    /** sbuf_extend. */
    method Extend(addlen: nat) returns (ok: bool)
      requires Valid() && error == 0 && addlen > 0
      modifies this`buf, this`size, this`dynamic
      ensures Valid() && ok == autoextend
      ensures ok ==> size >= old(size) + addlen && fresh(buf)
      ensures !ok ==> size == old(size) && buf == old(buf)
      ensures buf[..len] == old(buf[..len])
    {
      if !autoextend {
        return false;
      }
      var newsize := ExtendSize(size + addlen);
      var newbuf := new char[newsize];
      forall i | 0 <= i < size {
        newbuf[i] := buf[i];
      }
      assert newbuf[..len] == buf[..len];
      dynamic := true;
      buf := newbuf;
      size := newsize;
      return true;
    }

    /** The drain function: any that fails with a negative number or takes at
        least one byte and at most all of them. */
    method CallDrain() returns (n: int)
      requires 0 < len <= buf.Length
      modifies this`failed, this`answer, this`drained
      ensures n < 0 || 0 < n <= len
      ensures failed == (old(failed) || n < 0)
      ensures answer == if n < 0 && !old(failed) then n else old(answer)
      ensures drained == if n < 0 then old(drained) else old(drained) + buf[..n]
    {
      n := *;
      if n == 0 || n > len {
        n := -1;
      }
      if n < 0 {
        answer := if failed then answer else n;
        failed := true;
      } else {
        drained := drained + buf[..n];
      }
    }

    /** The memmove of sbuf_drain. */
    method MoveDown(n: nat)
      requires n <= len <= buf.Length
      modifies this`len, buf
      ensures len == old(len) - n && buf[..len] == old(buf[n..len])
    {
      len := len - n;
      if len > 0 {
        forall i | 0 <= i < len {
          buf[i] := buf[n + i];
        }
      }
    }

    /** sbuf_drain: what is taken leaves the front of the buffer. */
    method Drain() returns (e: nat)
      requires Valid() && drain && len > 0 && error == 0
      modifies this`len, this`error, this`drained, this`failed, this`answer, buf
      ensures Valid() && e == error
      ensures if error == 0 then len < old(len) else len == old(len)
    {
      hide Sections;
      var n := CallDrain();
      if n < 0 {
        error := -n;
        return error;
      }
      Split(buf[..], 0, n, len);
      MoveDown(n);
      return 0;
    }

    /** No step changes the kind of buffer, moves or resizes one that cannot
        grow, or takes back an error. */
    twostate predicate Steady()
      reads this
    {
      && drain == old(drain) && autoextend == old(autoextend) && finished == old(finished)
      && (!autoextend ==> size == old(size) && buf == old(buf))
      && (old(error) != 0 ==> error == old(error) && accepted == old(accepted))
    }

    twostate predicate Kept()
      reads this
    {
      Steady() && marks == old(marks)
    }

    /** Making room for one byte: through the drain, or by extension. */
    method MakeRoom()
      requires Valid() && error == 0 && len + 1 == size
      modifies this`buf, this`size, this`dynamic, this`len, this`error, this`drained, this`failed, this`answer, buf
      ensures buf == old(buf) || fresh(buf)
      ensures Room() && Sections() && (!autoextend ==> size == old(size) && buf == old(buf))
      ensures error == 0 ==> len + 1 < size
      ensures Loss()
    {
      if drain {
        var e := Drain();
      } else {
        var ok := Extend(1);
        if !ok {
          error := ENOMEM;
        }
      }
    }

    method StoreByte(c: char)
      requires Room() && Sections() && len + 1 < size
      modifies this`len, this`sectLen, this`accepted, buf
      ensures Room() && Sections() && accepted == old(accepted) + [c]
    {
      ghost var stored := buf[..len];
      buf[len] := c;
      len := len + 1;
      assert buf[..len] == stored + [c];
      assert drained + (stored + [c]) == drained + stored + [c];
      accepted := accepted + [c];
      if insection {
        sectLen := sectLen + 1;
      }
    }

    /** sbuf_put_byte. */
    method PutByte(c: char)
      requires Valid() && !finished
      modifies this, buf
      ensures buf == old(buf) || fresh(buf)
      ensures Valid() && Kept()
      ensures accepted == if error == 0 then old(accepted) + [c] else old(accepted)
    {
      hide Room, Sections;
      if error != 0 {
        return;
      }
      if Full() {
        SizeBound();
        MakeRoom();
        if error != 0 {
          return;
        }
      }
      StoreByte(c);
    }

    lemma SizeBound()
      requires Valid()
      ensures len < size
    {
    }

    /** sbuf_bcat: all of the bytes are accepted, or an error stops it at once
        with some of them missing. */
    method Bcat(s: string) returns (ok: bool)
      requires Valid() && !finished
      modifies this, buf
      ensures buf == old(buf) || fresh(buf)
      ensures Valid() && Kept() && ok == (error == 0)
      ensures Taken(old(error), error, old(accepted), accepted, s)
    {
      if error != 0 {
        return false;
      }
      var i := 0;
      while i < |s|
        invariant 0 <= i <= |s| && error == 0
        invariant buf == old(buf) || fresh(buf)
        invariant Valid() && Kept()
        invariant accepted == old(accepted) + s[..i]
      {
        assert s[..i] + [s[i]] == s[..i + 1];
        PutByte(s[i]);
        if error != 0 {
          Stopped(old(accepted), s, i);
          return false;
        }
        i := i + 1;
      }
      assert s[..i] == s;
      return true;
    }

    /** Lines 699 to 702: drain until nothing is left or the drain fails. */
    method DrainAll()
      requires Valid() && drain
      modifies this`len, this`error, this`drained, this`failed, this`answer, buf
      ensures Valid() && (error == 0 ==> len == 0)
      ensures old(error) != 0 ==> error == old(error)
    {
      while len > 0 && error == 0
        invariant Valid()
        invariant old(error) != 0 ==> error == old(error)
        decreases len, if error == 0 then 1 else 0
      {
        var e := Drain();
        error := e;
      }
    }

    /** sbuf_finish: with a drain that does not fail everything is drained;
        without one the buffer holds what was accepted and a NUL. */
    method Finish() returns (e: nat)
      requires Valid() && !finished
      modifies this`finished, this`len, this`error, this`drained, this`failed, this`answer, buf
      ensures finished && e == error && len < size <= buf.Length && buf[len] == '\0'
      ensures old(error) != 0 ==> error == old(error)
      ensures drain ==> drained <= accepted && (e == 0 ==> drained == accepted) && (e != 0 <==> failed)
      ensures drain && failed ==> e == -answer
      ensures !drain ==> buf[..len] == accepted && e == old(error)
      ensures !drain && e != 0 ==> e == 12 && !autoextend && len + 1 == size
    {
      if drain {
        DrainAll();
      }
      ghost var stored := buf[..len];
      buf[len] := '\0';
      assert buf[..len] == stored;
      finished := true;
      e := error;
    }

    /** What sbuf_start_section has saved for the innermost open section. */
    ghost function Saved(): int
      reads this`marks
      requires marks != []
    {
      var k := |marks| - 1;
      if k == 0 then -1
      else
        var inner, outer: int := marks[k], marks[k - 1];
        inner - outer
    }

    lemma SectionLength()
      requires Valid() && marks != []
      ensures sectLen == |accepted| - marks[|marks| - 1]
    {
    }

    /** sbuf_start_section. */
    method StartSection() returns (oldLen: int)
      requires Valid() && !finished
      modifies this`insection, this`sectLen, this`marks
      ensures Valid() && marks == old(marks) + [|accepted|] && oldLen == Saved()
    {
      hide Room, Loss;
      if !insection {
        oldLen := -1;
        insection := true;
      } else {
        oldLen := sectLen;
        sectLen := 0;
      }
      marks := marks + [|accepted|];
    }

    /** Pads the innermost section; an error leaves the padding incomplete. */
    method PadSection(pad: nat, c: char)
      requires Valid() && !finished && marks != []
      modifies this, buf
      ensures buf == old(buf) || fresh(buf)
      ensures Valid() && Kept()
      ensures Taken(old(error), error, old(accepted), accepted, Fill(c, PadLength(old(sectLen), pad)))
      ensures error == 0 && pad > 0 ==> sectLen % pad == 0
    {
      hide Room, Loss, Taken, PadLength;
      ghost var n := PadLength(sectLen, pad);
      TakenMeans(error, error, accepted, accepted, "");
      TakenNothing(error, accepted);
      SectionLength();
      LittlePad(sectLen, pad);
      if pad > 1 {
        Pad(PadLength(sectLen, pad), c);
        TakenMeans(old(error), error, old(accepted), accepted, Fill(c, n));
      }
    }

    /** The section's length, after which the enclosing section counts on. */
    method CloseSection(oldLen: int) returns (count: nat)
      requires Valid() && marks != [] && oldLen == Saved()
      modifies this`sectLen, this`insection, this`marks
      ensures Valid() && marks == old(marks[..|marks| - 1])
      ensures count == |accepted| - old(marks[|marks| - 1]) == old(sectLen)
    {
      hide Room, Loss;
      count := sectLen;
      if oldLen == -1 {
        sectLen := 0;
        insection := false;
      } else {
        sectLen := sectLen + oldLen;
      }
      marks := marks[..|marks| - 1];
    }

    /** sbuf_end_section, given what the matching start saved: the section's
        bytes, padding and inner sections included, are a multiple of `pad`
        with the least padding, and the enclosing section has them all. */
    method EndSection(oldLen: int, pad: nat, c: char) returns (count: int)
      requires Valid() && !finished && marks != [] && oldLen == Saved()
      modifies this, buf
      ensures buf == old(buf) || fresh(buf)
      ensures Valid() && Steady() && marks == old(marks[..|marks| - 1])
      ensures Taken(old(error), error, old(accepted), accepted, Fill(c, PadLength(old(sectLen), pad)))
      ensures count == if error == 0 then |accepted| - old(marks[|marks| - 1]) else -1
      ensures error == 0 && pad > 0 ==> count % pad == 0
    {
      hide Room, Loss, Sections, Taken, PadLength;
      PadSection(pad, c);
      count := CloseSection(oldLen);
      if error != 0 {
        count := -1;
      }
    }

    method Pad(n: nat, c: char)
      requires Valid() && !finished
      modifies this, buf
      ensures buf == old(buf) || fresh(buf)
      ensures Valid() && Kept()
      ensures Taken(old(error), error, old(accepted), accepted, Fill(c, n))
    {
      var left: nat := n;
      while error == 0 && left > 0
        invariant left <= n
        invariant buf == old(buf) || fresh(buf)
        invariant Valid() && Kept()
        invariant error == 0 ==> accepted == old(accepted) + Fill(c, n - left)
        invariant Taken(old(error), error, old(accepted), accepted, Fill(c, n - left))
        decreases left
      {
        assert Fill(c, n - left) + [c] == Fill(c, n - left + 1);
        Stopped(old(accepted), Fill(c, n), n - left);
        PutByte(c);
        left := left - 1;
      }
    }
  }

  /** All of s was taken, or an error keeps at least its last byte out. */
  ghost predicate Taken(before: nat, after: nat, had: string, has: string, s: string) {
    if after == 0 then has == had + s
    else if before == 0 then has < had + s
    else has == had
  }

  lemma TakenMeans(before: nat, after: nat, had: string, has: string, s: string)
    ensures Taken(before, after, had, has, s) && after == 0 ==> has == had + s
    ensures Taken(before, after, had, has, s) && after != 0 && before != 0 ==> has == had
    ensures before == after != 0 && has == had ==> Taken(before, after, had, has, s)
  {
  }

  lemma Stopped(had: string, s: string, i: nat)
    requires i < |s|
    ensures had + s[..i] < had + s
  {
  }

  lemma TakenNothing(error: nat, has: string)
    ensures Taken(error, error, has, has, "")
  {
    assert has + "" == has;
  }

  /** Little padding is none. */
  lemma LittlePad(n: nat, pad: nat)
    ensures pad <= 1 ==> PadLength(n, pad) == 0 && Fill('0', 0) == ""
  {
  }

  /** The padding that brings a section of n bytes to a multiple of pad. */
  function PadLength(n: nat, pad: nat): (k: nat)
    ensures pad > 0 ==> (n + k) % pad == 0 && k < pad
  {
    if pad > 1 then Roundup(n, pad) - n else 0
  }
}
