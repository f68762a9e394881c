/** The round robin of kernel/process.c and the tick counter of kernel/time.c that
    drives it, as a state machine. */
module RoundRobin {
  import opened MachineWord

  const NB_PROC := 16
  const TIME_QUANTUM_MS := 50

  datatype State = Libre | Pret | Elu | Bloque

  /** The states of all slots, the elected one and the tick counter. */
  datatype Sched = Sched(states: seq<State>, current: nat, enabled: bool, ticks: nat)

  /** How many slots after `from` slot p comes, 1 to NB_PROC. */
  function Distance(from: nat, p: nat): (d: nat)
    requires from < NB_PROC && p < NB_PROC
    ensures 1 <= d <= NB_PROC && (from + d) % NB_PROC == p
  {
    if p > from then p - from else p + NB_PROC - from
  }

  /** Nothing closer behind the current slot is ready. */
  ghost predicate FirstReady(s: Sched, p: nat)
    requires |s.states| == NB_PROC && s.current < NB_PROC
  {
    p < NB_PROC && s.states[p] == Pret &&
    forall q {:trigger s.states[q]} :: 0 <= q < NB_PROC && s.states[q] == Pret ==>
      Distance(s.current, p) <= Distance(s.current, q)
  }

  /** Once scheduling has started exactly one process is elected, the current one. */
  ghost predicate Ok(s: Sched) {
    && |s.states| == NB_PROC && s.current < NB_PROC && s.ticks < WORD
    && forall p {:trigger s.states[p]} :: 0 <= p < NB_PROC ==> (s.states[p] == Elu <==> p == s.current)
  }

  /** What schedule does: s' elects the first ready slot after the current one,
      or is s when there is none. */
  ghost predicate Elects(s: Sched, s': Sched)
    requires |s.states| == NB_PROC && s.current < NB_PROC
  {
    if s.enabled && exists p: nat :: FirstReady(s, p) then
      && FirstReady(s, s'.current) && s'.enabled && s'.ticks == s.ticks
      && s'.states == (if s.states[s.current] == Elu then s.states[s.current := Pret] else s.states)[s'.current := Elu]
    else s' == s
  }

  lemma ElectsKeepsOk(s: Sched, s': Sched)
    requires Ok(s) && Elects(s, s')
    ensures Ok(s')
  {
  }

  // ----- The tick counter -----

  /** One tick, up to the decision to schedule. */
  function Ticked(s: Sched): Sched { s.(ticks := (s.ticks + 1) % WORD) }

  predicate QuantumOver(ticks: nat) { ticks % TIME_QUANTUM_MS == 0 }

  /** Ticks until the next call of schedule.  The wrap of the counter comes 46
      ticks after a call, and is followed by a call at 0, so that gap is shorter. */
  function UntilSchedule(ticks: nat): (n: nat)
    requires ticks < WORD
    ensures 1 <= n <= TIME_QUANTUM_MS
  {
    var left := TIME_QUANTUM_MS - ticks % TIME_QUANTUM_MS;
    if WORD - ticks < left then WORD - ticks else left
  }

  /** The gap between two calls never exceeds 50 ticks, wrap or no wrap. */
  lemma TickCountsDown(ticks: nat)
    requires ticks < WORD
    ensures var next := (ticks + 1) % WORD;
      if QuantumOver(next) then UntilSchedule(ticks) == 1 else UntilSchedule(next) == UntilSchedule(ticks) - 1
  {
    var q, r := ticks / TIME_QUANTUM_MS, ticks % TIME_QUANTUM_MS;
    assert ticks == TIME_QUANTUM_MS * q + r;
    assert ticks + 1 == TIME_QUANTUM_MS * (if r == TIME_QUANTUM_MS - 1 then q + 1 else q) +
      (if r == TIME_QUANTUM_MS - 1 then 0 else r + 1);
  }

  // ----- Runs -----

  /** What may happen between two instants: a timer interrupt, a direct call of
      schedule, a slot filled by create_process, or nothing to do with the table. */
  datatype Event = Tick | Call | Create(slot: nat) | Stay

  ghost predicate Step(s: Sched, e: Event, s': Sched)
    requires Ok(s)
  {
    match e
    case Tick => if QuantumOver(Ticked(s).ticks) then Elects(Ticked(s), s') else s' == Ticked(s)
    case Call => Elects(s, s')
    case Create(slot) => slot < NB_PROC && s.states[slot] == Libre && s' == s.(states := s.states[slot := Pret])
    case Stay => s' == s
  }

  /** States visited one after the other. */
  ghost predicate Visits(trace: seq<Sched>, events: seq<Event>) {
    && |trace| == |events| + 1
    && (forall i {:trigger trace[i]} :: 0 <= i < |trace| ==> Ok(trace[i]))
    && (forall i {:trigger events[i]} :: 0 <= i < |events| ==> Step(trace[i], events[i], trace[i + 1]))
  }

  function CountTicks(events: seq<Event>): nat {
    if events == [] then 0 else (if events[0] == Tick then 1 else 0) + CountTicks(events[1..])
  }

  /** An upper bound on the ticks until slot p is elected. */
  function Patience(s: Sched, p: nat): (n: nat)
    requires s.current < NB_PROC && p < NB_PROC && s.ticks < WORD
    ensures n <= (NB_PROC - 1) * TIME_QUANTUM_MS + TIME_QUANTUM_MS
  {
    (Distance(s.current, p) - 1) * TIME_QUANTUM_MS + UntilSchedule(s.ticks)
  }

  /** Each call of schedule elects p or someone strictly closer to it. */
  lemma DistanceFalls(s: Sched, s': Sched, p: nat)
    requires Ok(s) && s.enabled && Elects(s, s') && p < NB_PROC && s.states[p] == Pret
    ensures s'.current < NB_PROC
      && (s'.current == p || (s'.states[p] == Pret && Distance(s'.current, p) < Distance(s.current, p)))
  {
    var _ := NearestReady(s, p);
  }

  /** Among the ready slots one comes first. */
  lemma NearestReady(s: Sched, p: nat) returns (f: nat)
    requires |s.states| == NB_PROC && s.current < NB_PROC && p < NB_PROC && s.states[p] == Pret
    ensures FirstReady(s, f)
    decreases Distance(s.current, p)
  {
    if q: nat :| q < NB_PROC && s.states[q] == Pret && Distance(s.current, q) < Distance(s.current, p) {
      f := NearestReady(s, q);
    } else {
      f := p;
    }
  }

  lemma StepOfPatience(s: Sched, e: Event, s': Sched, p: nat)
    requires Ok(s) && s.enabled && Step(s, e, s') && Ok(s') && p < NB_PROC && s.states[p] == Pret && s'.current != p
    ensures s'.states[p] == Pret && s'.enabled && Patience(s', p) <= Patience(s, p) - if e == Tick then 1 else 0
  {
    match e
    case Tick =>
      TickCountsDown(s.ticks);
      if QuantumOver(Ticked(s).ticks) { DistanceFalls(Ticked(s), s', p); }
    case Call => DistanceFalls(s, s', p);
    case Create(slot) =>
    case Stay =>
  }

  /** Whatever else happens, a ready process is elected before its patience runs out. */
  lemma {:induction false} ElectedInTime(trace: seq<Sched>, events: seq<Event>, p: nat) returns (k: nat)
    requires Visits(trace, events) && p < NB_PROC && trace[0].enabled && trace[0].states[p] == Pret
    requires CountTicks(events) >= Patience(trace[0], p)
    ensures k < |trace| && trace[k].current == p
    decreases |events|
  {
    var s, s' := trace[0], trace[1];
    assert Step(s, events[0], s') && Ok(s');
    if s'.current == p {
      k := 1;
    } else {
      StepOfPatience(s, events[0], s', p);
      var later := ElectedInTime(Rest(trace, events), events[1..], p);
      k := later + 1;
    }
  }

  ghost function Rest(trace: seq<Sched>, events: seq<Event>): (r: seq<Sched>)
    requires Visits(trace, events) && events != []
    ensures r == trace[1..] && Visits(r, events[1..])
  {
    trace[1..]
  }

  /** In 750 ticks every process that was ready has had its turn. */
  lemma Within750Ticks(trace: seq<Sched>, events: seq<Event>, p: nat) returns (k: nat)
    requires Visits(trace, events) && p < NB_PROC && trace[0].enabled && trace[0].states[p] == Pret
    requires CountTicks(events) >= 750
    ensures k < |trace| && trace[k].current == p
  {
    assert Distance(trace[0].current, p) <= 15;
    k := ElectedInTime(trace, events, p);
  }

  /** schedule is called at this step, directly or by the timer. */
  predicate Calls(s: Sched, e: Event) { e == Call || (e == Tick && QuantumOver(Ticked(s).ticks)) }

  function CountCalls(trace: seq<Sched>, events: seq<Event>): nat
    requires |trace| == |events| + 1
  {
    if events == [] then 0 else (if Calls(trace[0], events[0]) then 1 else 0) + CountCalls(trace[1..], events[1..])
  }

  /** And in 15 calls of schedule, however they come about. */
  lemma {:induction false} Within15Calls(trace: seq<Sched>, events: seq<Event>, p: nat) returns (k: nat)
    requires Visits(trace, events) && p < NB_PROC && trace[0].enabled && trace[0].states[p] == Pret
    requires CountCalls(trace, events) >= Distance(trace[0].current, p)
    ensures Distance(trace[0].current, p) <= 15
    ensures k < |trace| && trace[k].current == p
    decreases |events|
  {
    var s, s' := trace[0], trace[1];
    assert Ok(s) && Step(s, events[0], s') && Ok(s');
    if s'.current == p {
      k := 1;
    } else {
      CallOfDistance(s, events[0], s', p);
      var later := Within15Calls(Rest(trace, events), events[1..], p);
      k := later + 1;
    }
  }

  lemma CallOfDistance(s: Sched, e: Event, s': Sched, p: nat)
    requires Ok(s) && s.enabled && Step(s, e, s') && Ok(s') && p < NB_PROC && s.states[p] == Pret && s'.current != p
    ensures s'.states[p] == Pret && s'.enabled
      && Distance(s'.current, p) <= Distance(s.current, p) - if Calls(s, e) then 1 else 0
  {
    match e
    case Tick => if QuantumOver(Ticked(s).ticks) { DistanceFalls(Ticked(s), s', p); }
    case Call => DistanceFalls(s, s', p);
    case Create(slot) =>
    case Stay =>
  }

  /** A process that was created is never lost: it is ready or elected for ever. */
  lemma {:induction false} Lives(trace: seq<Sched>, events: seq<Event>, p: nat, k: nat)
    requires Visits(trace, events) && p < NB_PROC && k < |trace| && trace[0].states[p] in {Pret, Elu}
    ensures |trace[k].states| == NB_PROC && trace[k].states[p] in {Pret, Elu}
    decreases k
  {
    if k > 0 {
      Lives(trace, events, p, k - 1);
      assert Ok(trace[k - 1]) && Ok(trace[k]) && Step(trace[k - 1], events[k - 1], trace[k]);
    }
  }

  /** And scheduling goes on for ever. */
  lemma {:induction false} StaysOn(trace: seq<Sched>, events: seq<Event>, k: nat)
    requires Visits(trace, events) && k < |trace| && trace[0].enabled
    ensures trace[k].enabled
    decreases k
  {
    if k > 0 {
      StaysOn(trace, events, k - 1);
      assert Ok(trace[k - 1]) && Step(trace[k - 1], events[k - 1], trace[k]);
    }
  }

  /** So from every moment on each process there is has its turn within 750 ticks. */
  lemma AgainAndAgain(trace: seq<Sched>, events: seq<Event>, p: nat, from: nat) returns (k: nat)
    requires Visits(trace, events) && p < NB_PROC && trace[0].enabled && trace[0].states[p] in {Pret, Elu}
    requires from < |trace| && CountTicks(events[from..]) >= 750
    ensures from <= k < |trace| && trace[k].current == p
  {
    Lives(trace, events, p, from);
    StaysOn(trace, events, from);
    if trace[from].states[p] == Elu {
      assert Ok(trace[from]);
      k := from;
    } else {
      Later(trace, events, from);
      k := Within750Ticks(trace[from..], events[from..], p);
      k := k + from;
    }
  }

  lemma Later(trace: seq<Sched>, events: seq<Event>, from: nat)
    requires Visits(trace, events) && from < |trace|
    ensures Visits(trace[from..], events[from..])
  {
    hide Ok, Step;
    forall i | 0 <= i < |events| - from ensures Step(trace[from..][i], events[from..][i], trace[from..][i + 1]) {
      assert Step(trace[from + i], events[from + i], trace[from + i + 1]);
    }
  }

  // ----- The clock -----

  /** convert_ticks: hours, minutes and seconds of a 32-bit millisecond count. */
  method ConvertTicks(ticks: nat) returns (h: nat, m: nat, s: nat, ghost days: nat, ghost ms: nat)
    requires ticks < WORD
    ensures h < 24 && m < 60 && s < 60 && ms < 1000
    ensures ticks == (((days * 24 + h) * 60 + m) * 60 + s) * 1000 + ms
  {
    var total := ticks / 1000;
    s := total % 60;
    m := total / 60 % 60;
    h := total / 3600 % 24;
    days, ms := total / 86400, ticks % 1000;
    Clockwork(total, total / 60, total / 3600, days);
  }

  lemma Clockwork(total: nat, minutes: nat, hours: nat, days: nat)
    requires minutes == total / 60 && hours == total / 3600 && days == total / 86400
    ensures minutes == hours * 60 + minutes % 60 && hours == days * 24 + hours % 24
  {
    Nested(total, 60, 60);
    Nested(total, 3600, 24);
  }

  lemma Nested(x: nat, a: nat, b: nat)
    requires (a == 60 && b == 60) || (a == 3600 && b == 24)
    ensures x / a / b == x / (a * b)
  {
  }
}
