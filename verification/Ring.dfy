/**
 The ring buffer: a bounded double-ended queue of characters over a fixed array.
 */
module Ring {

  /** Position `i` of a ring of `n` slots; `i` has gone round at most once. */
  function Wrap(i: nat, n: nat): nat {
    if i >= n then i - n else i
  }

  class Ring {
    const buf: array<char>
    var head: nat
    var tail: nat
    var count: nat

    ghost predicate Valid()
      reads this
    {
      && count <= buf.Length && tail == Wrap(head + count, buf.Length)
      && if buf.Length == 0 then head == 0 else head < buf.Length
    }

    /** The queued characters, oldest first. */
    ghost function Contents(): (s: seq<char>)
      requires Valid()
      reads this, buf
      ensures |s| == count && forall i | 0 <= i < count :: s[i] == buf[Wrap(head + i, buf.Length)]
    {
      seq(count, i requires 0 <= i < count && Valid() reads this, buf => buf[Wrap(head + i, buf.Length)])
    }

    constructor (length: nat)
      ensures Valid() && Contents() == [] && buf.Length == length && fresh(buf)
    {
      buf := new char[length](_ => '\0');
      head, tail, count := 0, 0, 0;
    }

    method Empty() returns (r: bool)
      requires Valid()
      ensures r <==> Contents() == []
    {
      r := count == 0;
    }

    method Full() returns (r: bool)
      requires Valid()
      ensures r <==> |Contents()| == buf.Length
    {
      r := count == buf.Length;
    }

    /** Removes the oldest character; NUL when there is none. */
    method Get() returns (c: char)
      requires Valid()
      modifies this
      ensures Valid()
      ensures if old(Contents()) == [] then c == '\0' && Contents() == [] else [c] + Contents() == old(Contents())
    {
      if count == 0 { return '\0'; }
      c := buf[head];
      head := head + 1;
      if head >= buf.Length { head := 0; }
      count := count - 1;
      assert forall i | 0 <= i < count :: Contents()[i] == old(Contents())[i + 1];
    }

    /** Appends a character unless the ring is full. */
    method Put(c: char) returns (ok: bool)
      requires Valid()
      modifies this, buf
      ensures Valid() && ok == (|old(Contents())| < buf.Length)
      ensures Contents() == if ok then old(Contents()) + [c] else old(Contents())
    {
      if count == buf.Length { return false; }
      buf[tail] := c;
      tail := tail + 1;
      if tail >= buf.Length { tail := 0; }
      count := count + 1;
      ok := true;
      assert forall i | 0 <= i < old(count) :: Contents()[i] == old(Contents())[i];
    }

    /** Takes back the youngest character; NUL when there is none. */
    method Erase() returns (c: char)
      requires Valid()
      modifies this
      ensures Valid()
      ensures if old(Contents()) == [] then c == '\0' && Contents() == [] else Contents() + [c] == old(Contents())
    {
      if count == 0 { return '\0'; }
      if tail == 0 { tail := buf.Length; }
      count := count - 1;
      tail := tail - 1;
      c := buf[tail];
    }

    /** Puts a character in front of the oldest one unless the ring is full. */
    method Insert(c: char) returns (ok: bool)
      requires Valid()
      modifies this, buf
      ensures Valid() && ok == (|old(Contents())| < buf.Length)
      ensures Contents() == if ok then [c] + old(Contents()) else old(Contents())
    {
      if count == buf.Length { return false; }
      if head == 0 { head := buf.Length; }
      head := head - 1;
      buf[head] := c;
      count := count + 1;
      ok := true;
      ghost var now, was := Contents(), old(Contents());
      forall i | 0 <= i < |was| ensures now[i + 1] == was[i] {
        assert Wrap(head + (i + 1), buf.Length) == Wrap(old(head) + i, buf.Length);
      }
    }

    method Clear()
      requires Valid()
      modifies this
      ensures Valid() && Contents() == []
    {
      head, tail, count := 0, 0, 0;
    }
  }
}
