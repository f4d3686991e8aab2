/**
 The kernel log and its consoles: prints go to a bounded log and to every registered console, and
 a console that registers late is given the log first.
 */
module LogModel {
  import opened Values

  const KERNEL_LOG_SIZE := 8192
  const KPRINT_MAX := 1024

  /** Registered by the first print when there is no console. */
  const DEFAULT_CONSOLE := 0

  /** The last `n` characters. */
  function Tail(s: string, n: nat): (r: string)
    ensures |r| <= n
  {
    if |s| <= n then s else s[|s| - n..]
  }

  lemma TailMore(a: string, b: string, n: nat)
    ensures Tail(Tail(a, n) + b, n) == Tail(a + b, n)
  {
  }

  /** A string of at most `n` characters is its own end; of a longer one, the last `n` are. */
  lemma TailIs(a: string, b: string, n: nat)
    ensures |b| == n ==> Tail(a + b, n) == b
    ensures |b| <= n ==> Tail(b, n) == b
  {
  }

  /** Length of the part of a message that is printed: up to a NUL or the limit. */
  function KeptLength(text: string, k: nat): (n: nat)
    requires k <= |text| && k <= KPRINT_MAX
    ensures k <= n <= |text| && n <= KPRINT_MAX && (forall i | k <= i < n :: text[i] != '\0')
    ensures n == |text| || n == KPRINT_MAX || text[n] == '\0'
    decreases |text| - k
  {
    if k == |text| || k == KPRINT_MAX || text[k] == '\0' then k else KeptLength(text, k + 1)
  }

  function Kept(text: string): string { text[..KeptLength(text, 0)] }

  /** Of a message that holds no NUL the first 1024 characters are printed; of one that does, those in
      front of the NUL. */
  lemma KeptExactly(text: string, more: string)
    requires '\0' !in text
    ensures Kept(text) == if |text| <= 1024 then text else text[..1024]
    ensures |text| <= 1024 ==> Kept(text + "\0" + more) == text
  {
    var all := text + "\0" + more;
    var n, m := KeptLength(text, 0), KeptLength(all, 0);
    assert n < |text| ==> text[n] in text;
    assert all[|text|] == '\0';
    assert m < |text| ==> all[m] == text[m] && text[m] in text;
  }

  /** `got[c]` is everything console `c` has been given so far. */
  datatype State = State(log: string, consoles: seq<nat>, got: seq<string>)

  datatype Event = Print(text: string) | Register(c: nat) | Unregister(c: nat)

  function Deliver(got: seq<string>, consoles: seq<nat>, text: string): (r: seq<string>)
    ensures |r| == |got| && forall i | 0 <= i < |got| :: r[i] == if i in consoles then got[i] + text else got[i]
  {
    seq(|got|, i requires 0 <= i < |got| => if i in consoles then got[i] + text else got[i])
  }

  function AfterRegister(s: State, c: nat): State {
    if c in s.consoles then s
    else State(s.log, s.consoles + [c], Deliver(s.got, [c], s.log))
  }

  function Without(consoles: seq<nat>, c: nat): seq<nat> {
    if consoles == [] then []
    else if consoles[|consoles| - 1] == c then consoles[..|consoles| - 1]
    else Without(consoles[..|consoles| - 1], c) + [consoles[|consoles| - 1]]
  }

  /** All of `text` has gone to the log and to the consoles. */
  function AfterText(s: State, text: string): State {
    State(Tail(s.log + text, KERNEL_LOG_SIZE), s.consoles, Deliver(s.got, s.consoles, text))
  }

  function Ready(s: State): State {
    if s.consoles == [] then AfterRegister(s, DEFAULT_CONSOLE) else s
  }

  function Step(s: State, e: Event): State {
    match e
    case Print(text) => AfterText(Ready(s), Kept(text))
    case Register(c) => AfterRegister(s, c)
    case Unregister(c) => s.(consoles := Without(s.consoles, c))
  }

  function Initial(n: nat): State { State([], [], seq(n, _ => [])) }

  /** The state after `events` on a machine with `n` consoles. */
  function Run(n: nat, events: seq<Event>): (s: State) {
    if events == [] then Initial(n) else Step(Run(n, events[..|events| - 1]), events[|events| - 1])
  }

  // ---- the reference: what each console should have been given ----

  /** Everything printed. */
  function Printed(events: seq<Event>): string {
    if events == [] then []
    else
      var p, e := Printed(events[..|events| - 1]), events[|events| - 1];
      if e.Print? then p + Kept(e.text) else p
  }

  /** The consoles that are registered. */
  function Alive(events: seq<Event>): set<nat> {
    if events == [] then {}
    else
      var a := Alive(events[..|events| - 1]);
      match events[|events| - 1]
      case Print(_) => if a == {} then {DEFAULT_CONSOLE} else a
      case Register(c) => a + {c}
      case Unregister(c) => a - {c}
  }

  /** What console `c` should have been given: the end of the log whenever it becomes registered,
      and every print while it is. */
  function Due(events: seq<Event>, c: nat): string {
    if events == [] then []
    else
      var before, e := events[..|events| - 1], events[|events| - 1];
      var replay := if c in Alive(events) && c !in Alive(before) then Tail(Printed(before), KERNEL_LOG_SIZE) else [];
      Due(before, c) + replay + if e.Print? && c in Alive(events) then Kept(e.text) else []
  }

  // ---- every run meets it ----

  lemma {:induction false} WithoutIs(consoles: seq<nat>, c: nat)
    requires Distinct(consoles)
    ensures Distinct(Without(consoles, c)) && forall x :: x in Without(consoles, c) <==> x in consoles && x != c
  {
    if consoles != [] {
      var n := |consoles| - 1;
      WithoutIs(consoles[..n], c);
      assert consoles == consoles[..n] + [consoles[n]];
      var w := Without(consoles[..n], c);
      forall k | 0 <= k < |w| ensures w[k] != consoles[n] {
        assert w[k] in consoles[..n];
      }
    }
  }

  ghost predicate Matches(s: State, n: nat, events: seq<Event>) {
    && s.log == Tail(Printed(events), 8192)
    && Distinct(s.consoles) && (forall c: nat :: c in s.consoles <==> c in Alive(events))
    && |s.got| == n && forall c | 0 <= c < n :: s.got[c] == Due(events, c)
  }

  /** In every run the log is the end of what was printed, and each console has been given exactly
      what it is due. */
  lemma {:induction false} RunMatches(n: nat, events: seq<Event>)
    requires n > DEFAULT_CONSOLE
    ensures Matches(Run(n, events), n, events)
  {
    if events != [] {
      var before, e := events[..|events| - 1], events[|events| - 1];
      RunMatches(n, before);
      var s := Run(n, before);
      match e {
        case Print(text) => PrintMatches(s, n, before, events, text);
        case Register(c) => RegisterMatches(s, n, before, events, c);
        case Unregister(c) => WithoutIs(s.consoles, c);
      }
    }
  }

  lemma RegisterMatches(s: State, n: nat, before: seq<Event>, events: seq<Event>, c: nat)
    requires Matches(s, n, before) && events == before + [Register(c)]
    ensures Matches(AfterRegister(s, c), n, events)
  {
    assert events[..|events| - 1] == before;
    forall x | 0 <= x < n ensures AfterRegister(s, c).got[x] == Due(events, x) {
      assert x in [c] <==> x == c;
    }
  }

  lemma PrintMatches(s: State, n: nat, before: seq<Event>, events: seq<Event>, text: string)
    requires n > DEFAULT_CONSOLE && Matches(s, n, before) && events == before + [Print(text)]
    ensures Matches(AfterText(Ready(s), Kept(text)), n, events)
  {
    assert events[..|events| - 1] == before;
    TailMore(Printed(before), Kept(text), KERNEL_LOG_SIZE);
    NoneAlive(s, before);
    var t := Ready(s);
    assert forall c: nat :: c in t.consoles <==> c in Alive(events);
    forall c | 0 <= c < n ensures Deliver(t.got, t.consoles, Kept(text))[c] == Due(events, c) {
    }
  }

  lemma NoneAlive(s: State, events: seq<Event>)
    requires forall c: nat :: c in s.consoles <==> c in Alive(events)
    ensures s.consoles == [] <==> Alive(events) == {}
  {
    if s.consoles != [] { assert s.consoles[0] in s.consoles; }
    if Alive(events) != {} {
      var c :| c in Alive(events);
      assert c in s.consoles;
    }
  }

  // ---- late registration ----

  /** Console `c` is registered for the first time by event `k`, and stays. */
  ghost predicate Joins(events: seq<Event>, k: nat, c: nat) {
    && k < |events| && events[k] == Register(c) && c !in Alive(events[..k]) && Due(events[..k], c) == []
    && forall j | k < j < |events| :: events[j] != Unregister(c)
  }

  /** What the last event adds to a console that stays registered. */
  function News(e: Event): string { if e.Print? then Kept(e.text) else [] }

  lemma LastNews(events: seq<Event>, c: nat)
    requires events != [] && c in Alive(events[..|events| - 1]) && events[|events| - 1] != Unregister(c)
    ensures c in Alive(events)
    ensures Due(events, c) == Due(events[..|events| - 1], c) + News(events[|events| - 1])
    ensures Printed(events) == Printed(events[..|events| - 1]) + News(events[|events| - 1])
  {
  }

  lemma JoinedNow(before: seq<Event>, c: nat)
    requires c !in Alive(before) && Due(before, c) == []
    ensures var events := before + [Register(c)];
            c in Alive(events) && Printed(events) == Printed(before) && Due(events, c) == Tail(Printed(before), KERNEL_LOG_SIZE)
  {
    var events := before + [Register(c)];
    assert events[..|before|] == before;
  }

  /** Console `c` is registered and due the end of `before` and everything printed after it. */
  ghost predicate Served(events: seq<Event>, before: string, c: nat) {
    && c in Alive(events) && before <= Printed(events)
    && Due(events, c) == Tail(before, KERNEL_LOG_SIZE) + Printed(events)[|before|..]
  }

  lemma ServedMore(events: seq<Event>, before: string, c: nat)
    requires events != [] && Served(events[..|events| - 1], before, c) && events[|events| - 1] != Unregister(c)
    ensures Served(events, before, c)
  {
    LastNews(events, c);
    AppendAfter(Printed(events[..|events| - 1]), News(events[|events| - 1]), |before|);
  }

  lemma {:induction false} JoinedDue(events: seq<Event>, k: nat, c: nat)
    requires Joins(events, k, c)
    ensures Served(events, Printed(events[..k]), c)
  {
    var n := |events| - 1;
    if k == n {
      JoinedNow(events[..k], c);
      assert events == events[..k] + [Register(c)];
    } else {
      assert events[..n][..k] == events[..k];
      JoinedDue(events[..n], k, c);
      ServedMore(events, Printed(events[..k]), c);
    }
  }

  lemma AppendAfter(a: string, b: string, k: nat)
    requires k <= |a|
    ensures (a + b)[k..] == a[k..] + b
  {
  }

  /** A console that registers at any time and stays has received exactly the last
      min(total, log size) characters printed before, followed by every character printed since. */
  lemma ReceivedSince(n: nat, events: seq<Event>, k: nat, c: nat)
    requires DEFAULT_CONSOLE < n && c < n && Joins(events, k, c)
    ensures |Run(n, events).got| == n && Printed(events[..k]) <= Printed(events)
    ensures Run(n, events).got[c] ==
              Tail(Printed(events[..k]), 8192) + Printed(events)[|Printed(events[..k])|..]
  {
    RunMatches(n, events);
    JoinedDue(events, k, c);
  }
}
