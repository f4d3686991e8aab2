/**
 The kernel log in its imperative form: a circular buffer and a list of consoles.
 */
module KernelLog {
  import opened Values
  import opened LogModel

  function Slot(i: nat): (r: nat)
    ensures r < KERNEL_LOG_SIZE
  {
    i % KERNEL_LOG_SIZE
  }

  lemma DeliverMore(got: seq<string>, consoles: seq<nat>, a: string, b: string)
    ensures Deliver(Deliver(got, consoles, a), consoles, b) == Deliver(got, consoles, a + b)
  {
    var d := Deliver(got, consoles, a);
    forall i | 0 <= i < |got| ensures Deliver(d, consoles, b)[i] == Deliver(got, consoles, a + b)[i] {
      Regroup(got[i], a, b);
    }
  }

  lemma DeliverNothing(got: seq<string>, consoles: seq<nat>)
    ensures Deliver(got, consoles, []) == got
  {
    forall i | 0 <= i < |got| ensures Deliver(got, consoles, [])[i] == got[i] {
      assert got[i] + [] == got[i];
    }
  }

  lemma Regroup(s: string, a: string, b: string)
    ensures s + a + b == s + (a + b)
  {
  }

  /** Two pieces one after the other are as good as one. */
  lemma TextMore(s: State, a: string, b: string)
    ensures AfterText(AfterText(s, a), b) == AfterText(s, a + b)
    ensures |s.log| <= KERNEL_LOG_SIZE ==> AfterText(s, []) == s
  {
    TailMore(s.log + a, b, KERNEL_LOG_SIZE);
    assert s.log + a + b == s.log + (a + b);
    assert s.log + [] == s.log;
    DeliverMore(s.got, s.consoles, a, b);
    DeliverNothing(s.got, s.consoles);
  }

  lemma {:induction false} WithoutAt(consoles: seq<nat>, i: nat)
    requires Distinct(consoles) && i < |consoles|
    ensures Without(consoles, consoles[i]) == consoles[..i] + consoles[i + 1..]
  {
    var n := |consoles| - 1;
    if i < n {
      WithoutAt(consoles[..n], i);
      assert consoles[..n][..i] == consoles[..i] && consoles[..n][i + 1..] + [consoles[n]] == consoles[i + 1..];
    }
  }

  lemma {:induction false} WithoutNone(consoles: seq<nat>, c: nat)
    requires forall j | 0 <= j < |consoles| :: consoles[j] != c
    ensures Without(consoles, c) == consoles
  {
    if consoles != [] { WithoutNone(consoles[..|consoles| - 1], c); }
  }

  ghost predicate NoNul(text: string, p: nat, q: nat) {
    q <= |text| && forall i | p <= i < q :: text[i] != '\0'
  }

  lemma {:induction false} KeptIs(text: string, k: nat, n: nat)
    requires k <= n <= KPRINT_MAX && NoNul(text, k, n) && (n == |text| || n == KPRINT_MAX || text[n] == '\0')
    ensures KeptLength(text, k) == n
    decreases n - k
  {
    if k < n { KeptIs(text, k + 1, n); }
  }

  class Log {
    const buf: array<char>
    var start: nat
    var size: nat
    var consoles: seq<nat>
    var got: seq<string>

    ghost predicate LogOk()
      reads this`start, this`size
    {
      && buf.Length == KERNEL_LOG_SIZE && start < KERNEL_LOG_SIZE && size <= KERNEL_LOG_SIZE
      && (size < KERNEL_LOG_SIZE ==> start == 0)
    }

    ghost predicate Valid()
      reads this
    {
      && LogOk() && Distinct(consoles) && (forall i | 0 <= i < |consoles| :: consoles[i] < |got|)
      && |got| > DEFAULT_CONSOLE
    }

    /** The logged characters, oldest first. */
    ghost function Contents(): (s: string)
      requires LogOk()
      reads this`start, this`size, buf
      ensures |s| == size && forall i | 0 <= i < size :: s[i] == buf[Slot(start + i)]
    {
      if start + size <= KERNEL_LOG_SIZE then buf[start..start + size] else buf[start..] + buf[..start + size - KERNEL_LOG_SIZE]
    }

    ghost function View(): State
      requires Valid()
      reads this, buf
    {
      State(Contents(), consoles, got)
    }

    constructor (n: nat)
      requires n > DEFAULT_CONSOLE
      ensures Valid() && View() == Initial(n)
    {
      buf := new char[KERNEL_LOG_SIZE](_ => '\0');
      start, size, consoles, got := 0, 0, [], seq(n, _ => []);
      new;
      assert Contents() == [];
    }

    /** Logs a character, over the oldest one when the log is full. */
    method PutLog(c: char)
      requires Valid()
      modifies this`start, this`size, buf
      ensures Valid() && Contents() == Tail(old(Contents()) + [c], KERNEL_LOG_SIZE)
    {
      ghost var was := Contents() + [c];
      assert Slot(start + size) == if size < KERNEL_LOG_SIZE then size else start;
      buf[(start + size) % KERNEL_LOG_SIZE] := c;
      if size < KERNEL_LOG_SIZE {
        size := size + 1;
        assert Contents() == was;
      } else {
        start := (start + 1) % KERNEL_LOG_SIZE;
        ghost var now := Contents();
        forall i | 0 <= i < size ensures now[i] == was[i + 1] {
          assert Slot(start + i) == Slot(old(start) + (i + 1));
          assert i + 1 < size ==> Slot(old(start) + (i + 1)) != old(start) && was[i + 1] == old(buf[Slot(start + (i + 1))]);
        }
      }
    }

    /** One console's write. */
    method Give(c: nat, text: string)
      requires c < |got|
      modifies this`got
      ensures got == Deliver(old(got), [c], text)
    {
      got := got[c := got[c] + text];
    }

    /** Adds a console unless it is there already, and replays the log to it. */
    method RegisterConsole(c: nat)
      requires Valid() && c < |got|
      modifies this`consoles, this`got
      ensures Valid() && View() == Step(old(View()), Register(c))
    {
      var i := 0;
      while i < |consoles|
        invariant i <= |consoles| && forall j | 0 <= j < i :: consoles[j] != c
      {
        if consoles[i] == c { return; }
        i := i + 1;
      }
      consoles := consoles + [c];
      Replay(c);
    }

    /** Writes the log to a console, in one piece or two. */
    method Replay(c: nat)
      requires Valid() && c < |got|
      modifies this`got
      ensures Valid() && got == Deliver(old(got), [c], Contents())
    {
      if size < KERNEL_LOG_SIZE {
        assert buf[start..start + size] == Contents();
        Give(c, buf[start..start + size]);
      } else {
        DeliverMore(got, [c], buf[start..], buf[..start]);
        assert Contents() == buf[start..] + buf[..start];
        Give(c, buf[start..]);
        Give(c, buf[..start]);
      }
    }

    /** Takes a console off the list. The source follows a null pointer when there is none. */
    method UnregisterConsole(c: nat)
      requires Valid() && consoles != []
      modifies this`consoles
      ensures Valid() && View() == Step(old(View()), Unregister(c))
    {
      var i := 0;
      while i < |consoles|
        invariant i <= |consoles| && forall j | 0 <= j < i :: consoles[j] != c
      {
        if consoles[i] == c {
          WithoutAt(consoles, i);
          consoles := consoles[..i] + consoles[i + 1..];
          return;
        }
        i := i + 1;
      }
      WithoutNone(consoles, c);
    }

    /** Writes a line to every console in turn. */
    method WriteLine(line: string)
      requires Valid()
      modifies this`got
      ensures Valid() && got == Deliver(old(got), consoles, line)
    {
      var i := 0;
      assert got == Deliver(old(got), consoles[..0], line);
      while i < |consoles|
        invariant i <= |consoles| && |got| == |old(got)| && got == Deliver(old(got), consoles[..i], line)
      {
        assert consoles[..i + 1] == consoles[..i] + [consoles[i]];
        assert consoles[i] !in consoles[..i];
        Give(consoles[i], line);
        i := i + 1;
      }
      assert consoles[..i] == consoles;
    }

    /** Logs characters from `p` on up to and including the next line feed, or to the end. */
    method LogLine(text: string, count: nat, p: nat) returns (q: nat)
      requires Valid() && p < count <= |text| && count <= KPRINT_MAX && text[p] != '\0'
      modifies this`start, this`size, buf
      ensures Valid() && p < q <= count && NoNul(text, p, q)
      ensures Contents() == Logged(old(Contents()), text, p, q)
    {
      q := p;
      ghost var s := Contents();
      assert s + text[p..p] == s;
      var linefeed := false;
      while q < count && text[q] != '\0' && !linefeed
        invariant p <= q <= count && Valid() && (q == p ==> !linefeed) && NoNul(text, p, q)
        invariant Contents() == Logged(s, text, p, q)
        decreases count - q
      {
        LogMore(s, text, p, q);
        PutLog(text[q]);
        linefeed := text[q] == '\n';
        q := q + 1;
      }
    }

    /** Prints a message, line by line, to the log and to all consoles, and returns how much of it
        was printed. */
    method ConsoleWrite(text: string) returns (p: nat)
      requires Valid()
      modifies this, buf
      ensures Valid() && View() == Step(old(View()), Print(text)) && p == |Kept(text)|
    {
      if consoles == [] { RegisterConsole(DEFAULT_CONSOLE); }
      var count := if |text| > KPRINT_MAX then KPRINT_MAX else |text|;
      p := 0;
      ghost var s := View();
      TextMore(s, [], []);
      while p < count && text[p] != '\0'
        invariant p <= count && Valid() && View() == AfterText(s, text[..p]) && NoNul(text, 0, p)
        decreases count - p
      {
        p := PrintLine(text, count, p, s);
      }
      KeptIs(text, 0, p);
    }

    method PrintLine(text: string, count: nat, p: nat, ghost s: State) returns (q: nat)
      requires Valid() && p < count <= |text| && count <= KPRINT_MAX && text[p] != '\0' && View() == AfterText(s, text[..p])
      modifies this, buf
      ensures Valid() && p < q <= count && NoNul(text, p, q) && View() == AfterText(s, text[..q])
    {
      q := OutLine(text, count, p);
      JoinText(s, text, p, q);
    }

    method OutLine(text: string, count: nat, p: nat) returns (q: nat)
      requires Valid() && p < count <= |text| && count <= KPRINT_MAX && text[p] != '\0'
      modifies this, buf
      ensures Valid() && p < q <= count && NoNul(text, p, q) && View() == AfterText(old(View()), text[p..q])
    {
      q := LogLine(text, count, p);
      ghost var log := Contents();
      WriteLine(text[p..q]);
      assert Contents() == log;
    }
  }

  lemma JoinText(s: State, text: string, p: nat, q: nat)
    requires p <= q <= |text|
    ensures AfterText(AfterText(s, text[..p]), text[p..q]) == AfterText(s, text[..q])
  {
    TextMore(s, text[..p], text[p..q]);
    assert text[..p] + text[p..q] == text[..q];
  }

  /** The log after characters `p` .. `q-1` of a text. */
  function Logged(s: string, text: string, p: nat, q: nat): string
    requires p <= q <= |text|
  {
    Tail(s + text[p..q], KERNEL_LOG_SIZE)
  }

  lemma LogMore(s: string, text: string, p: nat, q: nat)
    requires p <= q < |text|
    ensures Tail(Logged(s, text, p, q) + [text[q]], KERNEL_LOG_SIZE) == Logged(s, text, p, q + 1)
  {
    TailMore(s + text[p..q], [text[q]], KERNEL_LOG_SIZE);
    assert s + text[p..q] + [text[q]] == s + text[p..q + 1];
  }
}
