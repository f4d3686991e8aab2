/**
 The transmit side of the serial driver as a state machine: writers, flow control and interrupts
 in any order.
 */
module SerialModel {
  import opened Values

  /** Characters sent per interrupt. */
  const XMIT_MAX := 16
  /** Size of the transmit buffer. */
  const TX_SIZE := 1024

  const NUL := '\0'

  /** What goes out on the wire: queued data, or a flow-control character. */
  datatype Sent = Data(c: char) | Control(c: char)

  datatype Config = Config(crtscts: bool, ixoff: bool)

  /** `thre` is the transmit interrupt, `xchar` a flow control character to be sent, or NUL, and
      `rts` the line that lets the other side send. `accepted` and `wire` record everything taken
      from writers and everything sent. */
  datatype Line = Line(
    queue: string, thre: bool, stopped: bool, hwStopped: bool, xchar: char, rts: bool, accepted: string, wire: seq<Sent>)

  datatype Event =
    | Write(text: string)
    | Flush
    | Start
    | Stop
    | Throttle
    | Unthrottle
    | ModemStatus(cts: bool)
    | Transmit

  predicate Halted(s: Line) { s.stopped || s.hwStopped }

  function Room(s: Line): nat { if |s.queue| < TX_SIZE then TX_SIZE - |s.queue| else 0 }

  /** The part of `text` that fits. */
  function Fits(s: Line, text: string): (r: string)
    ensures r <= text && |r| == if |text| <= Room(s) then |text| else Room(s)
  {
    if |text| <= Room(s) then text else text[..Room(s)]
  }

  /** Turns the transmit interrupt on when there is something to send. */
  function Kick(s: Line): Line {
    if s.queue != [] && !Halted(s) then s.(thre := true) else s
  }

  function AfterWrite(s: Line, text: string): Line {
    Kick(s.(queue := s.queue + Fits(s, text), accepted := s.accepted + Fits(s, text)))
  }

  function AfterStart(s: Line): Line {
    if !s.stopped then s else s.(stopped := false, thre := s.thre || s.queue != [])
  }

  function AfterStop(s: Line): Line {
    if s.stopped then s else s.(stopped := true, thre := false)
  }

  /** A request to the other side, by a character and by the RTS line. */
  function AfterRequest(cfg: Config, s: Line, c: char): Line {
    var t := if cfg.ixoff then s.(xchar := c, thre := true) else s;
    if cfg.crtscts then t.(rts := c == START_CHAR) else t
  }

  /** On resume the code disables the transmitter, and on a stop it enables it. */
  function AfterModemStatus(cfg: Config, s: Line, cts: bool): Line {
    if !cfg.crtscts then s
    else if s.hwStopped && cts then s.(hwStopped := false, thre := false)
    else if !s.hwStopped && !cts then s.(hwStopped := true, thre := true)
    else s
  }

  function AsData(s: string): (r: seq<Sent>)
    ensures |r| == |s| && forall i | 0 <= i < |s| :: r[i] == Data(s[i])
  {
    seq(|s|, i requires 0 <= i < |s| => Data(s[i]))
  }

  function AfterControl(s: Line): Line {
    if s.xchar == NUL then s else s.(xchar := NUL, wire := s.wire + [Control(s.xchar)])
  }

  function AfterData(s: Line): Line {
    if s.queue == [] || Halted(s) then s.(thre := false)
    else
      var n := if |s.queue| <= XMIT_MAX then |s.queue| else XMIT_MAX;
      s.(queue := s.queue[n..], wire := s.wire + AsData(s.queue[..n]), thre := s.thre && n < |s.queue|)
  }

  function Step(cfg: Config, s: Line, e: Event): Line {
    match e
    case Write(text) => AfterWrite(s, text)
    case Flush => Kick(s)
    case Start => AfterStart(s)
    case Stop => AfterStop(s)
    case Throttle => AfterRequest(cfg, s, STOP_CHAR)
    case Unthrottle => AfterRequest(cfg, s, START_CHAR)
    case ModemStatus(cts) => AfterModemStatus(cfg, s, cts)
    case Transmit => AfterData(AfterControl(s))
  }

  const Initial := Line([], false, false, false, NUL, true, [], [])

  /** The state after a sequence of events. */
  function Run(cfg: Config, events: seq<Event>): Line {
    if events == [] then Initial else Step(cfg, Run(cfg, events[..|events| - 1]), events[|events| - 1])
  }

  // ---- what each event does ----

  /** A write queues as many characters as there is room for among 1024. */
  lemma WriteQueues(cfg: Config, s: Line, text: string)
    requires |s.queue| <= 1024
    ensures var t := Step(cfg, s, Write(text));
            && t.wire == s.wire && s.queue <= t.queue && t.queue[|s.queue|..] <= text
            && |t.queue| == if |s.queue| + |text| <= 1024 then |s.queue| + |text| else 1024
  {
  }

  /** An interrupt sends a pending flow control character; then, unless the line is stopped by a character
      or by CTS, the oldest sixteen characters or all there are. */
  lemma TransmitSends(cfg: Config, s: Line)
    ensures var t, c := Step(cfg, s, Transmit), if s.xchar == '\0' then [] else [Control(s.xchar)];
            && t.xchar == '\0' && s.wire + c <= t.wire
            && var n := |t.wire| - |s.wire| - |c|;
            && n == (if s.stopped || s.hwStopped then 0 else if |s.queue| < 16 then |s.queue| else 16)
            && t.queue == s.queue[n..] && forall i | 0 <= i < n :: t.wire[|s.wire| + |c| + i] == Data(s.queue[i])
  {
    var c := if s.xchar == '\0' then [] else [Control(s.xchar)];
    assert AfterControl(s).wire == s.wire + c;
  }

  /** A throttle asks for the stop character 0x13 under IXOFF and takes RTS down under CRTSCTS; an
      unthrottle asks for 0x11 and takes it up. CTS decides on sending only under CRTSCTS. */
  lemma FlowEvents(cfg: Config, s: Line, cts: bool)
    ensures cfg.ixoff ==> Step(cfg, s, Throttle).xchar == '\U{13}' && Step(cfg, s, Unthrottle).xchar == '\U{11}'
    ensures !cfg.ixoff ==> Step(cfg, s, Throttle).xchar == s.xchar == Step(cfg, s, Unthrottle).xchar
    ensures cfg.crtscts ==> !Step(cfg, s, Throttle).rts && Step(cfg, s, Unthrottle).rts
    ensures Step(cfg, s, ModemStatus(cts)).hwStopped == if cfg.crtscts then !cts else s.hwStopped
    ensures Step(cfg, s, Stop).stopped && !Step(cfg, s, Start).stopped
  {
  }

  // ---- conservation ----

  /** The data characters among those sent. */
  function DataOf(wire: seq<Sent>): string {
    if wire == [] then []
    else DataOf(wire[..|wire| - 1]) + match wire[|wire| - 1] { case Data(c) => [c] case Control(_) => [] }
  }

  lemma {:induction false} DataOfMore(wire: seq<Sent>, s: string)
    ensures DataOf(wire + AsData(s)) == DataOf(wire) + s
  {
    if s == [] {
      assert wire + AsData(s) == wire;
    } else {
      var n := |s| - 1;
      DataOfMore(wire, s[..n]);
      assert AsData(s) == AsData(s[..n]) + [Data(s[n])];
      assert (wire + AsData(s))[..|wire| + n] == wire + AsData(s[..n]);
    }
  }

  lemma DataOfControl(wire: seq<Sent>, c: char)
    ensures DataOf(wire + [Control(c)]) == DataOf(wire)
  {
    assert (wire + [Control(c)])[..|wire|] == wire;
  }

  ghost predicate Conserved(s: Line) {
    s.accepted == DataOf(s.wire) + s.queue && |s.queue| <= 1024
  }

  lemma ControlConserves(s: Line)
    requires Conserved(s)
    ensures Conserved(AfterControl(s)) && AfterControl(s).accepted == s.accepted
  {
    DataOfControl(s.wire, s.xchar);
  }

  lemma SendSome(accepted: string, wire: seq<Sent>, queue: string, n: nat)
    requires accepted == DataOf(wire) + queue && n <= |queue|
    ensures accepted == DataOf(wire + AsData(queue[..n])) + queue[n..]
  {
    DataOfMore(wire, queue[..n]);
    assert queue == queue[..n] + queue[n..];
  }

  lemma DataConserves(s: Line)
    requires Conserved(s)
    ensures Conserved(AfterData(s)) && AfterData(s).accepted == s.accepted
  {
    SendSome(s.accepted, s.wire, s.queue, if |s.queue| <= XMIT_MAX then |s.queue| else XMIT_MAX);
  }

  lemma TransmitConserves(s: Line)
    requires Conserved(s)
    ensures Conserved(AfterData(AfterControl(s))) && AfterData(AfterControl(s)).accepted == s.accepted
  {
    ControlConserves(s);
    DataConserves(AfterControl(s));
  }

  lemma WriteConserves(s: Line, text: string)
    requires Conserved(s)
    ensures Conserved(AfterWrite(s, text))
  {
    var d := DataOf(s.wire);
    assert d + s.queue + Fits(s, text) == d + (s.queue + Fits(s, text));
  }

  lemma StepConserves(cfg: Config, s: Line, e: Event)
    requires Conserved(s)
    ensures Conserved(Step(cfg, s, e))
  {
    match e {
      case Write(text) => WriteConserves(s, text);
      case Transmit => TransmitConserves(s);
      case _ =>
    }
  }

  /** In every run, what was accepted is what was sent followed by what is queued. */
  lemma {:induction false} RunConserves(cfg: Config, events: seq<Event>)
    ensures Conserved(Run(cfg, events))
  {
    if events != [] {
      RunConserves(cfg, events[..|events| - 1]);
      StepConserves(cfg, Run(cfg, events[..|events| - 1]), events[|events| - 1]);
    }
  }

  // ---- stopping ----

  /** A stopped line sends no data, whatever happens; it may still send a flow-control character. */
  lemma StoppedSendsNoData(cfg: Config, s: Line, e: Event)
    requires s.stopped || s.hwStopped
    ensures DataOf(Step(cfg, s, e).wire) == DataOf(s.wire)
  {
    DataOfControl(s.wire, s.xchar);
  }

  // ---- wake-up ----

  /** Something is waiting, may go, and will be asked for. */
  ghost predicate Awake(s: Line) {
    s.queue != [] && !Halted(s) ==> s.thre
  }

  /** The only step that can leave a sendable queue asleep is a resume by CTS with data waiting. */
  lemma StepAwake(cfg: Config, s: Line, e: Event)
    requires Awake(s)
    ensures Awake(Step(cfg, s, e)) <==>
              !(cfg.crtscts && e == ModemStatus(true) && s.hwStopped && !s.stopped && s.queue != [])
  {
  }

  /** Without CRTSCTS no run ever leaves a sendable queue asleep. */
  lemma {:induction false} RunAwake(cfg: Config, events: seq<Event>)
    requires !cfg.crtscts
    ensures Awake(Run(cfg, events)) && !Run(cfg, events).hwStopped
  {
    if events != [] {
      RunAwake(cfg, events[..|events| - 1]);
      StepAwake(cfg, Run(cfg, events[..|events| - 1]), events[|events| - 1]);
    }
  }

  /** With CRTSCTS one does: CTS drops, a write queues data, CTS returns. */
  lemma SleepsAfterResume(cfg: Config)
    requires cfg.crtscts
    ensures !Awake(Run(cfg, [ModemStatus(false), Write("x"), ModemStatus(true)]))
  {
    assert [ModemStatus(false), Write("x"), ModemStatus(true)] == [] + [ModemStatus(false)] + [Write("x")] + [ModemStatus(true)];
    RunMore(cfg, [], ModemStatus(false));
    RunMore(cfg, [] + [ModemStatus(false)], Write("x"));
    RunMore(cfg, [] + [ModemStatus(false)] + [Write("x")], ModemStatus(true));
  }

  lemma RunMore(cfg: Config, events: seq<Event>, e: Event)
    ensures Run(cfg, events + [e]) == Step(cfg, Run(cfg, events), e)
  {
    assert (events + [e])[..|events|] == events;
  }

  // ---- wake-up of flow control characters ----

  /** A requested flow control character will be asked for. */
  ghost predicate ControlAwake(s: Line) {
    s.xchar != NUL ==> s.thre
  }

  /** The step turns the transmitter off under a pending flow control character: a stop of a
      running line, or a resume by CTS. */
  predicate Silences(cfg: Config, s: Line, e: Event) {
    s.xchar != NUL && ((e == Stop && !s.stopped) || (cfg.crtscts && e == ModemStatus(true) && s.hwStopped))
  }

  /** A pending flow control character loses its wake-up exactly by such a step. */
  lemma StepControlAwake(cfg: Config, s: Line, e: Event)
    requires ControlAwake(s)
    ensures ControlAwake(Step(cfg, s, e)) <==> !Silences(cfg, s, e)
  {
  }

  /** The step gives it a wake-up again, or replaces or sends it. */
  predicate Rouses(cfg: Config, s: Line, e: Event) {
    match e
    case Write(text) => !Halted(s) && s.queue + Fits(s, text) != []
    case Flush => !Halted(s) && s.queue != []
    case Start => s.stopped && s.queue != []
    case Stop => false
    case Throttle => cfg.ixoff
    case Unthrottle => cfg.ixoff
    case ModemStatus(cts) => cfg.crtscts && !s.hwStopped && !cts
    case Transmit => true
  }

  /** A character without wake-up stays so exactly until such a step. In particular a start does
      not help when no data is queued. */
  lemma StepStaysSilent(cfg: Config, s: Line, e: Event)
    requires !ControlAwake(s)
    ensures ControlAwake(Step(cfg, s, e)) <==> Rouses(cfg, s, e)
  {
  }

  // ---- the same over whole runs, in terms of the events alone ----

  /** The line was stopped last. */
  function IsStopped(events: seq<Event>): bool {
    events != [] &&
    match events[|events| - 1]
    case Stop => true
    case Start => false
    case _ => IsStopped(events[..|events| - 1])
  }

  /** A request has been made since the last transmission. */
  function Requested(events: seq<Event>): bool {
    events != [] &&
    match events[|events| - 1]
    case Throttle => true
    case Unthrottle => true
    case Transmit => false
    case _ => Requested(events[..|events| - 1])
  }

  /** The running line has been stopped since the last request. */
  function StoppedSince(events: seq<Event>): bool {
    events != [] &&
    var before := events[..|events| - 1];
    match events[|events| - 1]
    case Throttle => false
    case Unthrottle => false
    case Stop => StoppedSince(before) || !IsStopped(before)
    case _ => StoppedSince(before)
  }

  /** Number of characters waiting, without CTS flow control. */
  function Waiting(events: seq<Event>): nat {
    if events == [] then 0
    else
      var n := Waiting(events[..|events| - 1]);
      match events[|events| - 1]
      case Write(text) => if n + |text| <= TX_SIZE then n + |text| else if n < TX_SIZE then TX_SIZE else n
      case Transmit => if IsStopped(events) || n == 0 then n else if n <= XMIT_MAX then 0 else n - XMIT_MAX
      case _ => n
  }

  /** The character of the last request. */
  function LastRequest(events: seq<Event>): char {
    if LastThrottled(events) then STOP_CHAR else START_CHAR
  }

  /** A pending request has been silenced: the line has been stopped since, and is still stopped or
      has nothing else to send. */
  predicate Silenced(events: seq<Event>) {
    Requested(events) && StoppedSince(events) && (IsStopped(events) || Waiting(events) == 0)
  }

  /** What the events say about the state, without CTS flow control. */
  ghost predicate Told(cfg: Config, events: seq<Event>, s: Line) {
    && !s.hwStopped && s.stopped == IsStopped(events) && |s.queue| == Waiting(events)
    && s.xchar == (if cfg.ixoff && Requested(events) then LastRequest(events) else NUL)
    && (s.xchar != NUL ==> (s.thre <==> !Silenced(events)))
  }

  lemma StepTold(cfg: Config, before: seq<Event>, e: Event, s: Line)
    requires !cfg.crtscts && Told(cfg, before, s) && Awake(s)
    ensures Told(cfg, before + [e], Step(cfg, s, e))
  {
    var events := before + [e];
    assert events[..|before|] == before && events[|before|] == e;
    match e {
      case Write(text) => assert |Fits(s, text)| == if |text| <= Room(s) then |text| else Room(s);
      case _ =>
    }
  }

  /** In every run without CRTSCTS the events alone decide whether a flow control character is
      pending, which one it is, and whether its interrupt is on. */
  lemma {:induction false} RunTold(cfg: Config, events: seq<Event>)
    requires !cfg.crtscts
    ensures Told(cfg, events, Run(cfg, events))
  {
    if events != [] {
      var before, e := events[..|events| - 1], events[|events| - 1];
      RunTold(cfg, before);
      RunAwake(cfg, before);
      StepTold(cfg, before, e, Run(cfg, before));
      assert events == before + [e];
    }
  }

  /** A pending flow control character has lost its wake-up exactly when the line has been stopped
      since the request, and is still stopped or has no data to send. */
  lemma RunControlAwake(cfg: Config, events: seq<Event>)
    requires !cfg.crtscts
    ensures ControlAwake(Run(cfg, events)) <==> !(cfg.ixoff && Silenced(events))
  {
    RunTold(cfg, events);
  }

  /** Otherwise its interrupt is on, and the transmission sends it before any data, whether or not
      the line is stopped. */
  lemma ControlDelivered(cfg: Config, events: seq<Event>)
    requires !cfg.crtscts && cfg.ixoff && Requested(events) && !Silenced(events)
    ensures var s, t := Run(cfg, events), Run(cfg, events + [Transmit]);
            s.thre && t.xchar == NUL && s.wire + [Control(LastRequest(events))] <= t.wire
  {
    RunTold(cfg, events);
    RunMore(cfg, events, Transmit);
  }

  /** Without CRTSCTS, runs in which the line is never stopped lose no flow control character. */
  lemma {:induction false} UnstoppedControlAwake(cfg: Config, events: seq<Event>)
    requires !cfg.crtscts && Stop !in events
    ensures ControlAwake(Run(cfg, events))
  {
    if events != [] {
      var before, e := events[..|events| - 1], events[|events| - 1];
      UnstoppedControlAwake(cfg, before);
      assert e in events;
      StepControlAwake(cfg, Run(cfg, before), e);
    }
  }

  /** With one stop they do, even without CRTSCTS: the stop request of a throttle is still pending
      after stop and start, with the interrupt off. */
  lemma StopRequestSilenced(cfg: Config)
    requires cfg.ixoff && !cfg.crtscts
    ensures var s := Run(cfg, [Throttle, Stop, Start]); s.xchar == STOP_CHAR && !s.thre && !Halted(s)
  {
    assert [Throttle, Stop, Start] == [] + [Throttle] + [Stop] + [Start];
    RunMore(cfg, [], Throttle);
    RunMore(cfg, [] + [Throttle], Stop);
    RunMore(cfg, [] + [Throttle] + [Stop], Start);
  }

  // ---- RTS ----

  /** The last request in the run was a throttle. */
  function LastThrottled(events: seq<Event>): bool {
    events != [] &&
    match events[|events| - 1]
    case Throttle => true
    case Unthrottle => false
    case _ => LastThrottled(events[..|events| - 1])
  }

  lemma StepRts(cfg: Config, s: Line, e: Event)
    ensures Step(cfg, s, e).rts == if cfg.crtscts && e == Throttle then false else if cfg.crtscts && e == Unthrottle then true else s.rts
  {
  }

  /** The RTS line is down exactly under CRTSCTS after a throttle. */
  lemma {:induction false} RtsFollows(cfg: Config, events: seq<Event>)
    ensures Run(cfg, events).rts <==> !(cfg.crtscts && LastThrottled(events))
  {
    if events != [] {
      var before := events[..|events| - 1];
      RtsFollows(cfg, before);
      StepRts(cfg, Run(cfg, before), events[|events| - 1]);
    }
  }

  // ---- progress ----

  function Transmits(s: Line, k: nat): Line {
    if k == 0 then s else AfterData(AfterControl(Transmits(s, k - 1)))
  }

  lemma {:induction false} TransmitsLeft(s: Line, k: nat)
    requires !Halted(s)
    ensures var t := Transmits(s, k); !Halted(t) && |t.queue| == (if |s.queue| <= XMIT_MAX * k then 0 else |s.queue| - XMIT_MAX * k)
  {
    if k > 0 { TransmitsLeft(s, k - 1); }
  }

  lemma {:induction false} TransmitsConserve(s: Line, k: nat)
    requires Conserved(s)
    ensures Conserved(Transmits(s, k)) && Transmits(s, k).accepted == s.accepted
  {
    if k > 0 { TransmitsConserve(s, k - 1); TransmitConserves(Transmits(s, k - 1)); }
  }

  /** Enough transmissions, and not one fewer, send everything that was accepted. */
  lemma Drains(cfg: Config, events: seq<Event>, k: nat)
    requires !Halted(Run(cfg, events))
    ensures DataOf(Transmits(Run(cfg, events), k).wire) == Run(cfg, events).accepted <==> |Run(cfg, events).queue| <= 16 * k
  {
    var s := Run(cfg, events);
    RunConserves(cfg, events);
    TransmitsLeft(s, k);
    TransmitsConserve(s, k);
  }
}
