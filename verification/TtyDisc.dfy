/**
 The N_TTY line discipline in its imperative form, on top of a serial port.
 */
module TtyDisc {
  import opened Values
  import opened TtyModel
  import opened TtyOutput
  import opened Ring
  import opened SerialPort
  import S = SerialModel
  import L = TtyLine

  datatype ReadResult = Again | Got(text: string)

  class Discipline {
    const t: Termios
    const ring: Ring
    const port: Port
    var throttled: bool
    ghost var calls: seq<Call>
    ghost var lineCalls: seq<LineCall>
    ghost var kept: string
    ghost var given: string
    ghost var late: nat

    ghost predicate Valid()
      reads this, ring, port, port.ring
    {
      && ring.Valid() && ring.buf.Length == TTY_BUFFER_SIZE && port.Valid()
      && ring != port.ring && ring.buf != port.ring.buf
    }

    /** The tty; stop flag, driver space and driver output are the port's. */
    ghost function View(): (s: Tty)
      requires Valid()
      reads this, ring, ring.buf, port, port.ring, port.ring.buf
    {
      Tty(ring.Contents(), throttled, port.stopped, false, S.Room(port.View()), port.accepted, calls, lineCalls, kept, given, late)
    }

    ghost function Pair(): L.Both
      requires Valid()
      reads this, ring, ring.buf, port, port.ring, port.ring.buf
    {
      L.Both(View(), port.View())
    }

    constructor (t: Termios, cfg: S.Config)
      ensures Valid() && Pair() == L.Initial && this.t == t && port.cfg == cfg
      ensures fresh(ring) && fresh(ring.buf) && fresh(port) && fresh(port.ring) && fresh(port.ring.buf)
    {
      this.t := t;
      ring := new Ring(TTY_BUFFER_SIZE);
      port := new Port(cfg);
      throttled := false;
      calls, lineCalls, kept, given, late := [], [], [], [], 0;
    }

    method RecvRoom() returns (n: nat)
      requires Valid()
      ensures n == Room(View())
    {
      n := ring.buf.Length - ring.count;
    }

    // ---- output ----

    /** The driver takes the character if it has space. */
    method WriteChar(c: char)
      requires Valid()
      modifies port, port.ring, port.ring.buf
      ensures Valid() && View() == Emit(old(View()), [c]) && port.View() == S.AfterWrite(old(port.View()), [c])
    {
      var _ := port.SerialWrite([c]);
    }

    /** Two characters that both fit. */
    method WritePair(c: char, d: char)
      requires Valid() && S.Room(port.View()) >= 2
      modifies port, port.ring, port.ring.buf
      ensures Valid() && View() == Emit(old(View()), [c, d]) && port.View() == S.AfterWrite(old(port.View()), [c, d])
    {
      L.WriteTwo(port.View(), [c], [d]);
      assert [c] + [d] == [c, d];
      WriteChar(c);
      WriteChar(d);
    }

    /** What the port has been given when `x` was written if it fits. */
    ghost function Taken(line: S.Line, x: string): S.Line {
      if |x| <= S.Room(line) then S.AfterWrite(line, x) else line
    }

    /** Writes the expansion of `c` if all of it fits. */
    method Opost(c: char) returns (ok: bool)
      requires Valid()
      modifies port, port.ring, port.ring.buf
      ensures Valid() && View() == Emit(old(View()), Expand(t, c)) && port.View() == Taken(old(port.View()), Expand(t, c))
      ensures ok <==> |Expand(t, c)| <= S.Room(old(port.View()))
    {
      var room := port.SerialWriteRoom();
      if room < 1 { return false; }
      var d := c;
      if t.opost {
        if c == '\r' {
          if t.ocrnl { d := '\n'; }
        } else if c == '\n' {
          if t.onlcr {
            if room < 2 { return false; }
            WritePair('\r', '\n');
            return true;
          }
        }
      }
      WriteChar(d);
      ok := true;
    }

    method Echo(c: char)
      requires Valid()
      modifies port, port.ring, port.ring.buf
      ensures Valid() && View() == Emit(old(View()), EchoText(t, c)) && port.View() == Taken(old(port.View()), EchoText(t, c))
    {
      if t.echoctl && IsControl(c as int) && c != '\t' && c != '\n' {
        var room := port.SerialWriteRoom();
        if room < 2 { return; }
        WritePair('^', Caret(c));
        return;
      }
      var _ := Opost(c);
    }

    /** Writes the longest prefix whose expansion fits into the port's queue, and nothing else.
        Without OPOST the source retries a full driver for ever, so the text must fit. */
    method NTtyWrite(text: string) returns (n: nat)
      requires Valid() && (t.opost || |text| <= S.Room(port.View()))
      modifies port, port.ring, port.ring.buf
      ensures Valid() && n == FitLength(t, S.Room(old(port.View())), text)
      ensures Pair() == L.AfterWrite(t, old(Pair()), text)
    {
      n := PostText(text);
      L.WriteThenFlush(old(port.View()), ExpandAll(t, text[..n]));
      port.SerialFlush();
      L.WriteFits(old(port.View()), ExpandAll(t, text[..n]));
    }

    /** The loop of the write, without the flush. */
    method PostText(text: string) returns (n: nat)
      requires Valid() && (t.opost || |text| <= S.Room(port.View()))
      modifies port, port.ring, port.ring.buf
      ensures Valid() && n == FitLength(t, S.Room(old(port.View())), text) && |ExpandAll(t, text[..n])| <= S.Room(old(port.View()))
      ensures var x := ExpandAll(t, text[..n]);
              port.View() == Posted(old(port.View()), x) || port.View() == S.AfterWrite(old(port.View()), x)
    {
      if t.opost {
        n := PostAll(text);
      } else {
        n := |text|;
        var _ := port.SerialWrite(text);
        ExpandPlain(t, text);
        assert text[..n] == text;
      }
      FitEnds(t, S.Room(old(port.View())), text, n, |text|);
      assert text[..|text|] == text;
    }

    /** The port after `x`, character by character: nothing has been called when `x` is empty. */
    ghost function Posted(line: S.Line, x: string): S.Line {
      if x == [] then line else S.AfterWrite(line, x)
    }

    method PostAll(text: string) returns (n: nat)
      requires Valid()
      modifies port, port.ring, port.ring.buf
      ensures Valid() && n <= |text| && |ExpandAll(t, text[..n])| <= S.Room(old(port.View()))
      ensures port.View() == Posted(old(port.View()), ExpandAll(t, text[..n]))
      ensures n < |text| ==> |ExpandAll(t, text[..n])| + |Expand(t, text[n])| > S.Room(old(port.View()))
    {
      n := 0;
      var ok := true;
      ghost var line := port.View();
      while n < |text| && ok
        invariant Valid() && n <= |text| && |ExpandAll(t, text[..n])| <= S.Room(line)
        invariant port.View() == Posted(line, ExpandAll(t, text[..n]))
        invariant !ok ==> n < |text| && |ExpandAll(t, text[..n])| + |Expand(t, text[n])| > S.Room(line)
        decreases |text| - n, ok
      {
        ok := PostNext(text, n, line);
        if ok { n := n + 1; }
      }
    }

    method PostNext(text: string, n: nat, ghost line: S.Line) returns (ok: bool)
      requires Valid() && n < |text| && |ExpandAll(t, text[..n])| <= S.Room(line)
      requires port.View() == Posted(line, ExpandAll(t, text[..n]))
      modifies port, port.ring, port.ring.buf
      ensures Valid() && (ok <==> |ExpandAll(t, text[..n])| + |Expand(t, text[n])| <= S.Room(line))
      ensures ok ==> |ExpandAll(t, text[..n + 1])| <= S.Room(line) && port.View() == Posted(line, ExpandAll(t, text[..n + 1]))
      ensures !ok ==> port.View() == Posted(line, ExpandAll(t, text[..n]))
    {
      ghost var x, y := ExpandAll(t, text[..n]), Expand(t, text[n]);
      ExpandMore(t, text, n);
      PostedRoom(line, x);
      if x != [] && |x| + |y| <= S.Room(line) { L.WriteTwo(line, x, y); }
      ok := Opost(text[n]);
    }

    lemma PostedRoom(line: S.Line, x: string)
      requires |x| <= S.Room(line)
      ensures S.Room(Posted(line, x)) == S.Room(line) - |x|
      ensures x == [] ==> forall y: string :: x + y == y
    {
    }

    // ---- flow control ----

    method Throttle()
      requires Valid()
      modifies this`throttled, this`calls, this`late, port
      ensures Valid() && View() == ThrottleTty(old(View()))
      ensures port.View() == L.LineRequests(port.cfg, old(port.View()), old(View()), View())
    {
      if throttled { return; }
      throttled := true;
      calls, late := calls + [ThrottleCall], 0;
      port.SerialThrottle();
    }

    method Unthrottle()
      requires Valid()
      modifies this`throttled, this`calls, this`late, port
      ensures Valid() && View() == UnthrottleTty(old(View()))
      ensures port.View() == L.LineRequests(port.cfg, old(port.View()), old(View()), View())
    {
      if !throttled { return; }
      throttled := false;
      calls, late := calls + [UnthrottleCall], 0;
      port.SerialUnthrottle();
    }

    method Start()
      requires Valid()
      modifies this`lineCalls, port
      ensures Valid() && View() == StartTty(old(View())) && port.View() == S.AfterStart(old(port.View()))
    {
      if port.stopped { lineCalls := lineCalls + [StartCall]; }
      port.StartTty();
    }

    method Stop()
      requires Valid()
      modifies this`lineCalls, port
      ensures Valid() && View() == StopTty(old(View())) && port.View() == S.AfterStop(old(port.View()))
    {
      if !port.stopped { lineCalls := lineCalls + [StopCall]; }
      port.StopTty();
    }

    // ---- input ----

    /** Stores a character, flushes the driver, and throttles when the buffer fills up. */
    method StoreChar(c: char)
      requires Valid()
      modifies this, ring, ring.buf, port
      ensures Valid() && View() == Store(old(View()), c)
      ensures port.View() == L.LineRequests(port.cfg, S.Kick(old(port.View())), old(View()), View())
    {
      BufferChar(c);
      Flush();
      CheckRoom();
    }

    method BufferChar(c: char)
      requires Valid()
      modifies this`kept, ring, ring.buf
      ensures Valid() && View() == Buffered(old(View()), c) && port.View() == old(port.View())
    {
      var ok := ring.Put(c);
      if ok { kept := kept + [c]; }
    }

    method Flush()
      requires Valid()
      modifies port
      ensures Valid() && View() == old(View()) && port.View() == S.Kick(old(port.View()))
    {
      port.SerialFlush();
    }

    method CheckRoom()
      requires Valid()
      modifies this`throttled, this`calls, this`late, port
      ensures Valid() && View() == RoomChecked(old(View()))
      ensures port.View() == L.LineRequests(port.cfg, old(port.View()), old(View()), View())
    {
      var room := RecvRoom();
      if room < TTY_THROTTLE_THRESH { Throttle(); }
    }

    /** Receives one character. A CR with IGNCR set is excluded: the source does not return. */
    method NTtyRecv(ch: char)
      requires Valid() && !Spins(t, ch)
      modifies this, ring, ring.buf, port, port.ring, port.ring.buf
      ensures Valid() && Pair() == L.Step(t, port.cfg, old(Pair()), L.Recv(ch))
    {
      if t.ixon {
        if ch == START_CHAR {
          Start();
          return;
        }
        if ch == STOP_CHAR {
          Stop();
          return;
        }
      }
      RecvData(ch);
    }

    method RecvData(ch: char)
      requires Valid() && !IsFlow(t, ch) && !Spins(t, ch)
      modifies this, ring, ring.buf, port, port.ring, port.ring.buf
      ensures Valid() && Pair() == L.AfterRecv(t, port.cfg, old(Pair()), ch)
    {
      L.RecvGrows(t, View(), ch);
      CountLate();
      var c := TranslateChar(ch);
      AcceptChar(c);
    }

    ghost method CountLate()
      requires Valid()
      modifies this`late
      ensures Valid() && View() == Late(old(View())) && port.View() == old(port.View())
    {
      if throttled { late := late + 1; }
    }

    method TranslateChar(ch: char) returns (c: char)
      ensures c == Translate(t, ch)
    {
      c := ch;
      if c == '\r' {
        if t.icrnl { c := '\n'; }
      } else if c == '\n' {
        if t.inlcr { c := '\r'; }
      }
    }

    method AcceptChar(c: char)
      requires Valid()
      modifies this, ring, ring.buf, port, port.ring, port.ring.buf
      ensures Valid() && View() == Accept(t, old(View()), c)
      ensures var x := L.EchoOf(t, Room(old(View())), old(View()).space, c);
              port.View() == L.LineRequests(port.cfg, S.AfterWrite(old(port.View()), x), old(View()), View())
    {
      if t.echo {
        var room := RecvRoom();
        if room <= 1 {
          L.WriteThenFlush(port.View(), [BELL]);
          WriteChar(BELL);
          return;
        }
        EchoChar(c);
      } else {
        L.WriteThenFlush(port.View(), []);
      }
      StoreChar(c);
    }

    /** The echo, in a form that a later flush completes to a write. */
    method EchoChar(c: char)
      requires Valid()
      modifies port, port.ring, port.ring.buf
      ensures Valid() && View() == Emit(old(View()), EchoText(t, c))
      ensures S.Kick(port.View()) == S.AfterWrite(old(port.View()), if |EchoText(t, c)| <= S.Room(old(port.View())) then EchoText(t, c) else [])
    {
      L.WriteThenFlush(port.View(), EchoText(t, c));
      Echo(c);
    }

    // ---- reading ----

    /** Reads up to `count` characters without blocking. */
    method NTtyRead(count: nat) returns (r: ReadResult)
      requires Valid()
      modifies this, ring, port
      ensures Valid()
      ensures r == Again <==> count > 0 && old(View()).buffer == []
      ensures r.Got? ==>
        var n := if count <= |old(View()).buffer| then count else |old(View()).buffer|;
        r.text == old(View()).buffer[..n] && Pair() == L.ReadN(port.cfg, old(Pair()), n)
      ensures r == Again ==> Pair() == old(Pair())
    {
      ghost var b := Pair();
      var text := [];
      while |text| < count && ring.count > 0
        invariant Valid() && |text| <= count && |text| <= |b.tty.buffer| && text == b.tty.buffer[..|text|]
        invariant Pair() == L.ReadN(port.cfg, b, |text|) && ring.count == |b.tty.buffer| - |text|
        decreases count - |text|
      {
        var c := ReadNext(b, |text|);
        text := text + [c];
      }
      return if |text| == 0 && count > 0 then Again else Got(text);
    }

    method ReadNext(ghost b: L.Both, ghost k: nat) returns (c: char)
      requires Valid() && k < |b.tty.buffer| && Pair() == L.ReadN(port.cfg, b, k)
      modifies this, ring, port
      ensures Valid() && c == b.tty.buffer[k] && Pair() == L.ReadN(port.cfg, b, k + 1) && ring.count == |b.tty.buffer| - k - 1
    {
      L.ReadNTakes(port.cfg, b, k);
      L.ReadNTakes(port.cfg, b, k + 1);
      L.NextOf(b.tty.buffer, b.tty.given, k);
      c := ReadChar();
    }

    method ReadChar() returns (c: char)
      requires Valid() && ring.Contents() != []
      modifies this, ring, port
      ensures Valid() && c == old(View()).buffer[0] && Pair() == L.AfterRead(port.cfg, old(Pair()))
    {
      c := ring.Get();
      given := given + [c];
      var room := RecvRoom();
      if room >= TTY_THROTTLE_THRESH { Unthrottle(); }
    }

    // ---- interrupts ----

    /** A transmit interrupt of the port. */
    method TransmitInterrupt()
      requires Valid()
      modifies port, port.ring
      ensures Valid() && Pair() == L.Step(t, port.cfg, old(Pair()), L.Transmit)
    {
      port.SendChars();
    }

    /** A change of the modem status. */
    method ModemInterrupt(cts: bool)
      requires Valid()
      modifies port
      ensures Valid() && Pair() == L.Step(t, port.cfg, old(Pair()), L.ModemStatus(cts))
    {
      port.CheckModemStatus(cts);
    }
  }
}
