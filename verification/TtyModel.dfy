/**
 The N_TTY line discipline as a state machine: received characters, reads, and a driver whose
 buffer space is consumed by echo and output.
 */
module TtyModel {
  import opened Values

  const TTY_BUFFER_SIZE := 1024
  const TTY_THROTTLE_THRESH := 128

  const BELL := '\U{7}'

  datatype Termios = Termios(
    ixon: bool, igncr: bool, icrnl: bool, inlcr: bool, opost: bool, onlcr: bool, ocrnl: bool, echo: bool, echoctl: bool)

  /** Calls to the driver about its receiver, and about its transmitter. */
  datatype Call = ThrottleCall | UnthrottleCall
  datatype LineCall = StopCall | StartCall

  /** `space` and `out` belong to the driver. `calls`, `lineCalls`, `kept`, `given` and `late` record the flow
      control calls, the characters stored and read so far, and the characters that arrived since
      the receiver was throttled. `hung` is set when the receiver never returns. */
  datatype Tty = Tty(
    buffer: string, throttled: bool, stopped: bool, hung: bool, space: nat, out: string,
    calls: seq<Call>, lineCalls: seq<LineCall>, kept: string, given: string, late: nat)

  datatype Event = Recv(c: char) | ReadOne | Drain(n: nat)

  function Room(s: Tty): nat { if |s.buffer| < TTY_BUFFER_SIZE then TTY_BUFFER_SIZE - |s.buffer| else 0 }

  // ---- translation ----

  /** `c ^ 0x40` for a control character. */
  function Caret(c: char): char
    requires IsControl(c as int)
  {
    if c as int == 0x7F then '?' else (c as int + 0x40) as char
  }

  /** Flow control characters are acted on and not stored. */
  predicate IsFlow(t: Termios, c: char) { t.ixon && (c == START_CHAR || c == STOP_CHAR) }

  /** A CR with IGNCR set is re-read for ever. */
  predicate Spins(t: Termios, c: char) { c == '\r' && t.igncr }

  function Translate(t: Termios, c: char): char {
    if c == '\r' && t.icrnl then '\n' else if c == '\n' && t.inlcr then '\r' else c
  }

  /** What a character looks like after output processing. */
  function Expand(t: Termios, c: char): (r: string)
    ensures 1 <= |r| <= 2
  {
    if t.opost && c == '\r' && t.ocrnl then "\n"
    else if t.opost && c == '\n' && t.onlcr then "\r\n"
    else [c]
  }

  function EchoText(t: Termios, c: char): (r: string)
    ensures 1 <= |r| <= 2
  {
    if t.echoctl && IsControl(c as int) && c != '\t' && c != '\n' then ['^', Caret(c)] else Expand(t, c)
  }

  // ---- steps ----

  /** The driver takes a text as a whole or not at all. */
  function Emit(s: Tty, text: string): Tty {
    if |text| <= s.space then s.(out := s.out + text, space := s.space - |text|) else s
  }

  function ThrottleTty(s: Tty): Tty {
    if s.throttled then s else s.(throttled := true, calls := s.calls + [ThrottleCall], late := 0)
  }

  function UnthrottleTty(s: Tty): Tty {
    if !s.throttled then s else s.(throttled := false, calls := s.calls + [UnthrottleCall], late := 0)
  }

  function StopTty(s: Tty): Tty {
    if s.stopped then s else s.(stopped := true, lineCalls := s.lineCalls + [StopCall])
  }

  function StartTty(s: Tty): Tty {
    if !s.stopped then s else s.(stopped := false, lineCalls := s.lineCalls + [StartCall])
  }

  /** Appends a character to the buffer if there is room. */
  function Buffered(s: Tty, c: char): Tty {
    if Room(s) > 0 then s.(buffer := s.buffer + [c], kept := s.kept + [c]) else s
  }

  /** Throttles the receiver when the buffer fills up. */
  function RoomChecked(s: Tty): Tty {
    if Room(s) < TTY_THROTTLE_THRESH then ThrottleTty(s) else s
  }

  function Store(s: Tty, c: char): Tty { RoomChecked(Buffered(s, c)) }

  /** Echoes and stores a translated character. */
  function Accept(t: Termios, s: Tty, d: char): Tty {
    if !t.echo then Store(s, d)
    else if Room(s) <= 1 then Emit(s, [BELL])
    else Store(Emit(s, EchoText(t, d)), d)
  }

  /** Counts a character that arrives while the receiver is throttled. */
  function Late(s: Tty): Tty { if s.throttled then s.(late := s.late + 1) else s }

  function AfterRecv(t: Termios, s: Tty, c: char): Tty {
    if IsFlow(t, c) then if c == STOP_CHAR then StopTty(s) else StartTty(s)
    else if Spins(t, c) then s.(hung := true)
    else
      Accept(t, Late(s), Translate(t, c))
  }

  function AfterRead(s: Tty): Tty {
    if s.buffer == [] then s
    else
      var t := s.(buffer := s.buffer[1..], given := s.given + [s.buffer[0]]);
      if Room(t) >= TTY_THROTTLE_THRESH then UnthrottleTty(t) else t
  }

  function Step(t: Termios, s: Tty, e: Event): Tty {
    if s.hung then s else
    match e
    case Recv(c) => AfterRecv(t, s, c)
    case ReadOne => AfterRead(s)
    case Drain(n) => s.(space := s.space + n)
  }

  function Initial(space: nat): Tty { Tty([], false, false, false, space, [], [], [], [], [], 0) }

  function Run(t: Termios, space: nat, events: seq<Event>): Tty {
    if events == [] then Initial(space) else Step(t, Run(t, space, events[..|events| - 1]), events[|events| - 1])
  }

  // ---- what a character becomes ----

  /** With room in both buffers a character that is not flow control is stored behind the others: a CR
      as NL under ICRNL, an NL as CR under INLCR, everything else as it is. */
  lemma StoredAs(t: Termios, s: Tty, c: char)
    requires !s.hung && |s.buffer| < 1023 && !(c == '\r' && t.igncr)
    requires t.ixon ==> c as int != 0x11 && c as int != 0x13
    ensures var b := Step(t, s, Recv(c)).buffer;
            && (c == '\r' && t.icrnl ==> b == s.buffer + "\n") && (c == '\r' && !t.icrnl ==> b == s.buffer + "\r")
            && (c == '\n' && t.inlcr ==> b == s.buffer + "\r") && (c == '\n' && !t.inlcr ==> b == s.buffer + "\n")
            && (c != '\r' && c != '\n' ==> b == s.buffer + [c])
  {
    var s1, d := Late(s), Translate(t, c);
    assert Step(t, s, Recv(c)) == Accept(t, s1, d);
    StoreBuffers(s1, d);
    StoreBuffers(Emit(s1, EchoText(t, d)), d);
  }

  lemma StoreBuffers(s: Tty, d: char)
    ensures Store(s, d).buffer == if |s.buffer| < 1024 then s.buffer + [d] else s.buffer
    ensures Store(s, d).out == s.out && Store(s, d).space == s.space
  {
  }

  /** What goes out when a character other than CR and NL comes in with echo on. Under ECHOCTL a control
      character other than a tab is echoed as a caret and a character: 64 further up, or `?` for DEL. */
  lemma EchoedAs(t: Termios, s: Tty, c: char)
    requires !s.hung && |s.buffer| < 1023 && s.space >= 2 && c != '\r' && c != '\n'
    requires t.ixon ==> c as int != 0x11 && c as int != 0x13
    ensures var o := Step(t, s, Recv(c)).out;
            && (!t.echo ==> o == s.out)
            && (t.echo && t.echoctl && c as int < 32 && c != '\t' ==> o == s.out + ['^', (64 + c as int) as char])
            && (t.echo && t.echoctl && c as int == 127 ==> o == s.out + "^?")
            && (t.echo && (!t.echoctl || c == '\t' || (c as int >= 32 && c as int != 127)) ==> o == s.out + [c])
  {
    var s1 := Late(s);
    assert Step(t, s, Recv(c)) == Accept(t, s1, c);
    StoreBuffers(s1, c);
    StoreBuffers(Emit(s1, EchoText(t, c)), c);
  }

  /** An NL is echoed as CR and NL under OPOST and ONLCR. */
  lemma EchoedLine(t: Termios, s: Tty)
    requires !s.hung && |s.buffer| < 1023 && s.space >= 2 && t.echo && !t.inlcr
    ensures Step(t, s, Recv('\n')).out == s.out + if t.opost && t.onlcr then "\r\n" else "\n"
  {
    var s1 := Late(s);
    assert Step(t, s, Recv('\n')) == Accept(t, s1, '\n');
    StoreBuffers(Emit(s1, EchoText(t, '\n')), '\n');
  }

  /** Under IXON the characters 0x13 and 0x11 suspend and resume output and are not stored; without it
      they are characters like any other. */
  lemma FlowCharacters(t: Termios, s: Tty)
    requires !s.hung
    ensures t.ixon ==> Step(t, s, Recv('\U{13}')).stopped && !Step(t, s, Recv('\U{11}')).stopped
    ensures t.ixon ==> Step(t, s, Recv('\U{13}')).buffer == s.buffer == Step(t, s, Recv('\U{11}')).buffer
    ensures !t.ixon ==> Step(t, s, Recv('\U{13}')).stopped == s.stopped == Step(t, s, Recv('\U{11}')).stopped
  {
  }

  /** With echo on, a character that finds fewer than two free slots rings the bell instead. */
  lemma Rings(t: Termios, s: Tty, c: char)
    requires !s.hung && |s.buffer| >= 1023 && s.space >= 1 && t.echo && !(c == '\r' && t.igncr)
    requires t.ixon ==> c as int != 0x11 && c as int != 0x13
    ensures Step(t, s, Recv(c)).out == s.out + ['\U{7}'] && Step(t, s, Recv(c)).buffer == s.buffer
  {
  }

  // ---- what every run keeps ----

  /** Throttle and unthrottle calls alternate, starting with a throttle. */
  ghost predicate Alternating(calls: seq<Call>) {
    forall i | 0 <= i < |calls| :: calls[i] == if i % 2 == 0 then ThrottleCall else UnthrottleCall
  }

  /** So do stop and start calls. */
  ghost predicate LineAlternating(calls: seq<LineCall>) {
    forall i | 0 <= i < |calls| :: calls[i] == if i % 2 == 0 then StopCall else StartCall
  }

  ghost predicate Inv(s: Tty) {
    && |s.buffer| <= TTY_BUFFER_SIZE && s.kept == s.given + s.buffer
    && (s.throttled <==> Room(s) < TTY_THROTTLE_THRESH)
    && Alternating(s.calls) && (s.throttled <==> |s.calls| % 2 == 1)
    && LineAlternating(s.lineCalls) && (s.stopped <==> |s.lineCalls| % 2 == 1)
    && (s.throttled ==> Room(s) + s.late >= TTY_THROTTLE_THRESH - 1)
  }

  lemma StoreInv(s: Tty, s1: Tty, c: char)
    requires Inv(s) && s1 == s.(space := s1.space, out := s1.out, late := s1.late)
    requires s.throttled ==> s1.late == s.late + 1
    ensures Inv(Store(s1, c))
  {
    assert s.given + (s.buffer + [c]) == s.given + s.buffer + [c];
  }

  lemma ReadInv(s: Tty)
    requires Inv(s)
    ensures Inv(AfterRead(s))
  {
    if s.buffer != [] { assert s.given + s.buffer == s.given + [s.buffer[0]] + s.buffer[1..]; }
  }

  /** Every step keeps the invariant. */
  lemma StepInv(t: Termios, s: Tty, e: Event)
    requires Inv(s)
    ensures Inv(Step(t, s, e))
  {
    match e {
      case Recv(c) =>
        if !IsFlow(t, c) && !Spins(t, c) && (!t.echo || Room(s) > 1) {
          StoreInv(s, if t.echo then Emit(Late(s), EchoText(t, Translate(t, c))) else Late(s), Translate(t, c));
        }
      case ReadOne => ReadInv(s);
      case Drain(_) =>
    }
  }

  /** In every reachable state: throttled exactly when less than 128 slots are left, flow control
      calls alternate, and what was stored is what was read followed by what is buffered. */
  lemma {:induction false} RunInv(t: Termios, space: nat, events: seq<Event>)
    ensures Inv(Run(t, space, events))
    ensures var s := Run(t, space, events);
            |s.buffer| <= 1024 && (s.throttled <==> |s.buffer| > 896) && s.kept == s.given + s.buffer
  {
    if events != [] {
      RunInv(t, space, events[..|events| - 1]);
      StepInv(t, Run(t, space, events[..|events| - 1]), events[|events| - 1]);
    }
  }

  // ---- no loss ----

  /** What a reader should get: the received characters, translated, without flow control. */
  function Wanted(t: Termios, events: seq<Event>): string {
    if events == [] then []
    else
      var w, e := Wanted(t, events[..|events| - 1]), events[|events| - 1];
      if e.Recv? && !IsFlow(t, e.c) then w + [Translate(t, e.c)] else w
  }

  /** Slots that are never filled. */
  function Reserve(t: Termios): (n: nat)
    ensures n == 1 <==> t.echo
    ensures n <= 1
  {
    if t.echo then 1 else 0
  }

  lemma StoreKeeps(s: Tty, d: char)
    ensures Store(s, d).kept == if Room(s) > 0 then s.kept + [d] else s.kept
  {
  }

  /** A character is dropped exactly when the buffer is full, or all but full with echo on. */
  lemma DroppedExactly(t: Termios, s: Tty, c: char)
    requires Inv(s) && !IsFlow(t, c) && !Spins(t, c)
    ensures AfterRecv(t, s, c).kept == (if Room(s) > Reserve(t) then s.kept + [Translate(t, c)] else s.kept)
    ensures Room(s) > Reserve(t) <==> |s.buffer| < if t.echo then 1023 else 1024
  {
    var s1, d := Late(s), Translate(t, c);
    StoreKeeps(s1, d);
    if t.echo { StoreKeeps(Emit(s1, EchoText(t, d)), d); }
  }

  lemma StepHangs(t: Termios, s: Tty, e: Event)
    ensures Step(t, s, e).hung <==> s.hung || (e.Recv? && Spins(t, e.c))
  {
  }

  /** The receiver hangs exactly when it is given a CR it is to ignore. */
  lemma {:induction false} HangsExactly(t: Termios, space: nat, events: seq<Event>)
    ensures Run(t, space, events).hung <==> exists k :: 0 <= k < |events| && events[k].Recv? && Spins(t, events[k].c)
  {
    if events != [] {
      var n := |events| - 1;
      HangsExactly(t, space, events[..n]);
      StepHangs(t, Run(t, space, events[..n]), events[n]);
      assert forall k | 0 <= k < n :: events[k] == events[..n][k];
    }
  }

  /** The sender stops soon enough after a throttle call, and sends no CR that hangs the receiver. */
  ghost predicate Obeys(t: Termios, space: nat, events: seq<Event>) {
    events == [] ||
    var before, e := events[..|events| - 1], events[|events| - 1];
    Obeys(t, space, before) && (e.Recv? ==> Safe(t, Run(t, space, before), e.c))
  }

  ghost predicate Safe(t: Termios, s: Tty, c: char) {
    !Spins(t, c) && s.late < if t.echo then 126 else 127
  }

  lemma SafeStep(t: Termios, s: Tty, e: Event)
    requires Inv(s) && !s.hung && (e.Recv? ==> Safe(t, s, e.c))
    ensures var s' := Step(t, s, e);
            !s'.hung && s'.kept == if e.Recv? && !IsFlow(t, e.c) then s.kept + [Translate(t, e.c)] else s.kept
  {
    StepHangs(t, s, e);
    if e.Recv? && !IsFlow(t, e.c) { DroppedExactly(t, s, e.c); }
  }

  /** A sender that sends at most 127 characters after each throttle call, 126 with echo, loses
      nothing. */
  lemma {:induction false} NothingLost(t: Termios, space: nat, events: seq<Event>)
    requires Obeys(t, space, events)
    ensures !Run(t, space, events).hung && Run(t, space, events).kept == Wanted(t, events)
    ensures Run(t, space, events).given + Run(t, space, events).buffer == Wanted(t, events)
  {
    RunInv(t, space, events);
    if events != [] {
      var before := events[..|events| - 1];
      NothingLost(t, space, before);
      RunInv(t, space, before);
      SafeStep(t, Run(t, space, before), events[|events| - 1]);
    }
  }

  function Recvs(text: string): (r: seq<Event>)
    ensures |r| == |text| && forall i | 0 <= i < |text| :: r[i] == Recv(text[i])
  {
    seq(|text|, i requires 0 <= i < |text| => Recv(text[i]))
  }

  function TranslateAll(t: Termios, text: string): (r: string)
    ensures |r| == |text| && forall i | 0 <= i < |text| :: r[i] == Translate(t, text[i])
  {
    seq(|text|, i requires 0 <= i < |text| => Translate(t, text[i]))
  }

  /** The first 1024 characters are kept, 1023 with echo. */
  ghost predicate Flooded(t: Termios, s: Tty, text: string) {
    var n, all := if t.echo then 1023 else 1024, TranslateAll(t, text);
    !s.hung && s.given == [] && s.kept == if |text| <= n then all else all[..n]
  }

  lemma FloodStep(t: Termios, s: Tty, s': Tty, text: string, c: char)
    requires Inv(s) && Flooded(t, s, text) && s'.given == [] && !s'.hung
    requires s'.kept == if Room(s) > Reserve(t) then s.kept + [Translate(t, c)] else s.kept
    ensures Flooded(t, s', text + [c])
  {
    assert TranslateAll(t, text + [c]) == TranslateAll(t, text) + [Translate(t, c)];
  }

  lemma RecvRest(t: Termios, s: Tty, c: char)
    requires !s.hung && !IsFlow(t, c) && !Spins(t, c)
    ensures var s' := Step(t, s, Recv(c)); s'.given == s.given && !s'.hung && s' == AfterRecv(t, s, c)
  {
  }

  lemma FloodRecv(t: Termios, s: Tty, text: string, c: char)
    requires Inv(s) && Flooded(t, s, text) && !IsFlow(t, c) && !Spins(t, c)
    ensures Flooded(t, Step(t, s, Recv(c)), text + [c])
  {
    DroppedExactly(t, s, c);
    RecvRest(t, s, c);
    FloodStep(t, s, Step(t, s, Recv(c)), text, c);
  }

  lemma RunExtends(t: Termios, space: nat, events: seq<Event>, e: Event)
    ensures Run(t, space, events + [e]) == Step(t, Run(t, space, events), e)
  {
    assert (events + [e])[..|events|] == events;
  }

  lemma RecvsMore(text: string, c: char)
    ensures Recvs(text + [c]) == Recvs(text) + [Recv(c)]
  {
  }

  /** Without a reader the run leaves exactly those. */
  ghost predicate FloodedRun(t: Termios, space: nat, text: string) {
    Flooded(t, Run(t, space, Recvs(text)), text)
  }

  lemma FloodMore(t: Termios, space: nat, text: string, c: char)
    requires FloodedRun(t, space, text) && !IsFlow(t, c) && !Spins(t, c)
    ensures FloodedRun(t, space, text + [c])
  {
    RunInv(t, space, Recvs(text));
    FloodRecv(t, Run(t, space, Recvs(text)), text, c);
    RunExtends(t, space, Recvs(text), Recv(c));
    RecvsMore(text, c);
  }

  lemma FloodNone(t: Termios, space: nat)
    ensures FloodedRun(t, space, [])
  {
    assert Recvs([]) == [];
  }

  /** Without a reader exactly the first 1024 characters are kept, 1023 with echo. */
  lemma {:induction false} FloodKeeps(t: Termios, space: nat, text: string)
    requires forall i | 0 <= i < |text| :: !IsFlow(t, text[i]) && !Spins(t, text[i])
    ensures FloodedRun(t, space, text)
  {
    if text == [] {
      FloodNone(t, space);
    } else {
      var m := |text| - 1;
      FloodKeeps(t, space, text[..m]);
      FloodMore(t, space, text[..m], text[m]);
      assert text[..m] + [text[m]] == text;
    }
  }
}
