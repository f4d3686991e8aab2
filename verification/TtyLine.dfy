/**
 The line discipline on top of the serial port: what is written and echoed at one end is what the
 wire carries at the other.
 */
module TtyLine {
  import opened Values
  import opened TtyOutput
  import T = TtyModel
  import S = SerialModel

  /** The tty and the port under it. The driver's space and the text it has taken are the port's. */
  datatype Both = Both(tty: T.Tty, line: S.Line)

  datatype Event =
    | Recv(c: char)
    | ReadOne
    | Write(text: string)
    | Transmit
    | ModemStatus(cts: bool)

  /** What the tty has handed to its driver in a step. */
  function Said(before: T.Tty, after: T.Tty): string
    requires before.out <= after.out
  {
    after.out[|before.out|..]
  }

  /** The driver calls of a changed stop flag. */
  function LineStops(line: S.Line, before: T.Tty, after: T.Tty): S.Line {
    if after.stopped && !before.stopped then S.AfterStop(line)
    else if before.stopped && !after.stopped then S.AfterStart(line)
    else line
  }

  /** The driver calls of a changed throttle flag. */
  function LineRequests(cfg: S.Config, line: S.Line, before: T.Tty, after: T.Tty): S.Line {
    if after.throttled && !before.throttled then S.AfterRequest(cfg, line, STOP_CHAR)
    else if before.throttled && !after.throttled then S.AfterRequest(cfg, line, START_CHAR)
    else line
  }

  /** What accepting a character says: its echo if that fits, a bell when the input buffer is all
      but full. */
  function EchoOf(t: T.Termios, room: nat, space: nat, d: char): (r: string)
    ensures |r| <= space
  {
    var x := if room <= 1 then [T.BELL] else T.EchoText(t, d);
    if t.echo && |x| <= space then x else ""
  }

  lemma StoreSays(s: T.Tty, c: char)
    ensures var s' := T.Store(s, c); s'.out == s.out && s'.space == s.space && s'.stopped == s.stopped
  {
  }

  lemma AcceptSays(t: T.Termios, s: T.Tty, d: char)
    ensures var s', x := T.Accept(t, s, d), EchoOf(t, T.Room(s), s.space, d);
            s'.out == s.out + x && s'.space == s.space - |x| && s'.stopped == s.stopped
  {
    if t.echo { StoreSays(T.Emit(s, T.EchoText(t, d)), d); } else { StoreSays(s, d); }
  }

  lemma RecvGrows(t: T.Termios, s: T.Tty, c: char)
    ensures var s' := T.AfterRecv(t, s, c);
            var x := if T.IsFlow(t, c) || T.Spins(t, c) then "" else EchoOf(t, T.Room(s), s.space, T.Translate(t, c));
            s'.out == s.out + x && s'.space == s.space - |x|
    ensures var s' := T.AfterRecv(t, s, c);
            if T.IsFlow(t, c) then s'.throttled == s.throttled && s'.stopped == (c == STOP_CHAR)
            else s'.stopped == s.stopped
  {
    if !T.IsFlow(t, c) && !T.Spins(t, c) { AcceptSays(t, T.Late(s), T.Translate(t, c)); }
  }

  function AfterRecv(t: T.Termios, cfg: S.Config, b: Both, c: char): Both {
    var tty := T.AfterRecv(t, b.tty, c);
    RecvGrows(t, b.tty, c);
    if T.IsFlow(t, c) then Both(tty, LineStops(b.line, b.tty, tty))
    else if T.Spins(t, c) then Both(tty, b.line)
    else Both(tty, LineRequests(cfg, S.AfterWrite(b.line, Said(b.tty, tty)), b.tty, tty))
  }

  function AfterRead(cfg: S.Config, b: Both): Both {
    var tty := T.AfterRead(b.tty);
    Both(tty, LineRequests(cfg, b.line, b.tty, tty))
  }

  /** `n` reads one after the other. */
  function ReadN(cfg: S.Config, b: Both, n: nat): Both {
    if n == 0 then b else AfterRead(cfg, ReadN(cfg, b, n - 1))
  }

  /** Reading takes characters from the front, in order. */
  lemma {:induction false} ReadNTakes(cfg: S.Config, b: Both, n: nat)
    requires n <= |b.tty.buffer|
    ensures var r := ReadN(cfg, b, n).tty; r.buffer == b.tty.buffer[n..] && r.given == b.tty.given + b.tty.buffer[..n]
  {
    if n > 0 {
      ReadNTakes(cfg, b, n - 1);
      ReadTakesOne(ReadN(cfg, b, n - 1).tty);
      NextOf(b.tty.buffer, b.tty.given, n - 1);
    }
  }

  lemma ReadTakesOne(s: T.Tty)
    requires s.buffer != []
    ensures T.AfterRead(s).buffer == s.buffer[1..] && T.AfterRead(s).given == s.given + [s.buffer[0]]
  {
  }

  lemma NextOf(buffer: string, given: string, k: nat)
    requires k < |buffer|
    ensures buffer[k..] != [] && buffer[k..][0] == buffer[k] && buffer[k..][1..] == buffer[k + 1..]
    ensures given + buffer[..k] + [buffer[k]] == given + buffer[..k + 1]
  {
  }

  /** One round of a write: the longest prefix whose expansion fits. */
  function AfterWrite(t: T.Termios, b: Both, text: string): Both {
    var x := ExpandAll(t, text[..FitLength(t, b.tty.space, text)]);
    FitBounds(t, b.tty.space, text, 0);
    Both(b.tty.(out := b.tty.out + x, space := b.tty.space - |x|), S.AfterWrite(b.line, x))
  }

  /** A step of the port alone; the driver's space changes with it. */
  function AfterPort(cfg: S.Config, b: Both, e: S.Event): Both {
    var line := S.Step(cfg, b.line, e);
    Both(b.tty.(space := S.Room(line)), line)
  }

  function Step(t: T.Termios, cfg: S.Config, b: Both, e: Event): Both {
    if b.tty.hung then b
    else
      match e
      case Recv(c) => AfterRecv(t, cfg, b, c)
      case ReadOne => AfterRead(cfg, b)
      case Write(text) => AfterWrite(t, b, text)
      case Transmit => AfterPort(cfg, b, S.Transmit)
      case ModemStatus(cts) => AfterPort(cfg, b, S.ModemStatus(cts))
  }

  const Initial := Both(T.Initial(S.TX_SIZE), S.Initial)

  function Run(t: T.Termios, cfg: S.Config, events: seq<Event>): Both {
    if events == [] then Initial else Step(t, cfg, Run(t, cfg, events[..|events| - 1]), events[|events| - 1])
  }

  // ---- calls of the driver ----

  /** Two writes that fit are one. */
  lemma WriteTwo(line: S.Line, x: string, y: string)
    requires x != [] && y != [] && |x| + |y| <= S.Room(line)
    ensures S.AfterWrite(S.AfterWrite(line, x), y) == S.AfterWrite(line, x + y)
  {
    var l := S.AfterWrite(line, x);
    assert S.Fits(line, x) == x && S.Fits(l, y) == y && S.Fits(line, x + y) == x + y;
    assert line.queue + x + y == line.queue + (x + y) && line.accepted + x + y == line.accepted + (x + y);
  }

  /** What a write that fits does to the parts of the port that the tty sees. */
  lemma WriteFits(line: S.Line, x: string)
    requires |x| <= S.Room(line)
    ensures var l := S.AfterWrite(line, x);
            S.Room(l) == S.Room(line) - |x| && l.accepted == line.accepted + x && l.stopped == line.stopped
  {
    assert S.Fits(line, x) == x;
  }

  /** A flush after a write changes nothing, and a write of nothing is a flush. */
  lemma WriteThenFlush(line: S.Line, x: string)
    ensures S.Kick(S.AfterWrite(line, x)) == S.AfterWrite(line, x)
    ensures S.AfterWrite(line, []) == S.Kick(line)
    ensures S.Room(line) == 0 ==> S.AfterWrite(line, x) == S.Kick(line)
  {
    assert line.queue + [] == line.queue && line.accepted + [] == line.accepted;
    if S.Room(line) == 0 { assert S.Fits(line, x) == []; }
  }

  // ---- what links the two ----

  /** The flow control character sent or requested last. */
  function LastControl(wire: seq<S.Sent>): char {
    if wire == [] then START_CHAR
    else match wire[|wire| - 1] { case Control(c) => c case Data(_) => LastControl(wire[..|wire| - 1]) }
  }

  function Asked(line: S.Line): char { if line.xchar != S.NUL then line.xchar else LastControl(line.wire) }

  ghost predicate Linked(cfg: S.Config, b: Both) {
    && T.Inv(b.tty) && S.Conserved(b.line)
    && b.tty.space == S.Room(b.line) && b.tty.out == b.line.accepted && b.tty.stopped == b.line.stopped
    && (b.line.rts <==> !(cfg.crtscts && b.tty.throttled))
    && (cfg.ixoff ==> Asked(b.line) == if b.tty.throttled then STOP_CHAR else START_CHAR)
  }

  lemma {:induction false} LastControlData(wire: seq<S.Sent>, text: string)
    ensures LastControl(wire + S.AsData(text)) == LastControl(wire)
  {
    if text == [] {
      assert wire + S.AsData(text) == wire;
    } else {
      var n := |text| - 1;
      LastControlData(wire, text[..n]);
      assert (wire + S.AsData(text))[..|wire| + n] == wire + S.AsData(text[..n]);
    }
  }

  /** Writing what fits. */
  lemma WriteLinked(line: S.Line, x: string)
    requires S.Conserved(line) && |x| <= S.Room(line)
    ensures var l := S.AfterWrite(line, x);
            && S.Conserved(l) && S.Room(l) == S.Room(line) - |x| && l.accepted == line.accepted + x
            && l.stopped == line.stopped && l.rts == line.rts && Asked(l) == Asked(line)
  {
    S.WriteConserves(line, x);
    assert S.Fits(line, x) == x;
  }

  lemma RequestLinked(cfg: S.Config, line: S.Line, before: T.Tty, after: T.Tty)
    requires S.Conserved(line)
    requires line.rts <==> !(cfg.crtscts && before.throttled)
    requires cfg.ixoff ==> Asked(line) == if before.throttled then STOP_CHAR else START_CHAR
    ensures var l := LineRequests(cfg, line, before, after);
            && S.Conserved(l) && S.Room(l) == S.Room(line) && l.accepted == line.accepted && l.stopped == line.stopped
            && (l.rts <==> !(cfg.crtscts && after.throttled))
            && (cfg.ixoff ==> Asked(l) == if after.throttled then STOP_CHAR else START_CHAR)
  {
  }

  lemma RecvLinked(t: T.Termios, cfg: S.Config, b: Both, c: char)
    requires Linked(cfg, b) && !b.tty.hung
    ensures Linked(cfg, AfterRecv(t, cfg, b, c))
  {
    var tty := T.AfterRecv(t, b.tty, c);
    T.StepInv(t, b.tty, T.Recv(c));
    RecvGrows(t, b.tty, c);
    if !T.IsFlow(t, c) && !T.Spins(t, c) {
      WriteLinked(b.line, Said(b.tty, tty));
      RequestLinked(cfg, S.AfterWrite(b.line, Said(b.tty, tty)), b.tty, tty);
    }
  }

  lemma PortLinked(cfg: S.Config, b: Both, e: S.Event)
    requires Linked(cfg, b) && (e.Transmit? || e.ModemStatus?)
    ensures Linked(cfg, AfterPort(cfg, b, e))
  {
    S.StepConserves(cfg, b.line, e);
    if e.Transmit? { TransmitAsked(b.line); }
  }

  lemma TransmitAsked(line: S.Line)
    ensures var l := S.AfterData(S.AfterControl(line)); Asked(l) == Asked(line) && l.xchar == S.NUL
  {
    var l := S.AfterControl(line);
    if line.xchar != S.NUL { assert (line.wire + [S.Control(line.xchar)])[..|line.wire|] == line.wire; }
    var n := if |l.queue| <= S.XMIT_MAX then |l.queue| else S.XMIT_MAX;
    LastControlData(l.wire, l.queue[..n]);
  }

  lemma StepLinked(t: T.Termios, cfg: S.Config, b: Both, e: Event)
    requires Linked(cfg, b)
    ensures Linked(cfg, Step(t, cfg, b, e))
  {
    if !b.tty.hung {
      match e {
        case Recv(c) => RecvLinked(t, cfg, b, c);
        case ReadOne =>
          T.ReadInv(b.tty);
          RequestLinked(cfg, b.line, b.tty, T.AfterRead(b.tty));
        case Write(text) =>
          FitBounds(t, b.tty.space, text, 0);
          WriteLinked(b.line, ExpandAll(t, text[..FitLength(t, b.tty.space, text)]));
        case Transmit => PortLinked(cfg, b, S.Transmit);
        case ModemStatus(cts) => PortLinked(cfg, b, S.ModemStatus(cts));
      }
    }
  }

  /** In every run: the driver's space is the port's, what the tty has said is what was sent and
      what is queued, both agree on whether output is stopped, RTS is down exactly while the tty is
      throttled, and so is the last flow control character sent or pending the stop character. */
  lemma {:induction false} RunLinked(t: T.Termios, cfg: S.Config, events: seq<Event>)
    ensures Linked(cfg, Run(t, cfg, events))
  {
    if events != [] {
      RunLinked(t, cfg, events[..|events| - 1]);
      StepLinked(t, cfg, Run(t, cfg, events[..|events| - 1]), events[|events| - 1]);
    }
  }

  // ---- what the wire carries ----

  /** What an event should make the other side see: the echo of an accepted character if it fits, a
      bell when the input buffer is all but full, and the expansion of as much of a write as fits. */
  function Says(t: T.Termios, b: Both, e: Event): string {
    if b.tty.hung then ""
    else
      var space := S.Room(b.line);
      match e
      case Recv(c) =>
        if T.IsFlow(t, c) || T.Spins(t, c) then "" else EchoOf(t, T.Room(b.tty), space, T.Translate(t, c))
      case Write(text) => ExpandAll(t, text[..FitLength(t, space, text)])
      case _ => ""
  }

  function Output(t: T.Termios, cfg: S.Config, events: seq<Event>): string {
    if events == [] then ""
    else
      var before := events[..|events| - 1];
      Output(t, cfg, before) + Says(t, Run(t, cfg, before), events[|events| - 1])
  }

  lemma StepSays(t: T.Termios, cfg: S.Config, b: Both, e: Event)
    requires Linked(cfg, b)
    ensures Step(t, cfg, b, e).tty.out == b.tty.out + Says(t, b, e)
  {
    match e {
      case Recv(c) => RecvGrows(t, b.tty, c);
      case ReadOne => assert T.AfterRead(b.tty).out == b.tty.out;
      case _ =>
    }
  }

  /** In every run, what is written and echoed, after expansion, is what the wire carries as data
      followed by what is queued. */
  lemma {:induction false} WireCarries(t: T.Termios, cfg: S.Config, events: seq<Event>)
    ensures var line := Run(t, cfg, events).line; S.DataOf(line.wire) + line.queue == Output(t, cfg, events)
  {
    RunLinked(t, cfg, events);
    if events != [] {
      var before := events[..|events| - 1];
      WireCarries(t, cfg, before);
      RunLinked(t, cfg, before);
      StepSays(t, cfg, Run(t, cfg, before), events[|events| - 1]);
    }
  }
}
