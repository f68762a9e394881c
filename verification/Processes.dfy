/** kernel/process.c and kernel/ctx_sw.S: the process table, the stacks and the
    registers that are swapped between them. */
module Processes {
  import opened MachineWord
  import opened RoundRobin

  const STACK_BYTES := 1024
  const NAME_MAX := 31

  /** The registers ctx_sw cares about. */
  datatype Cpu = Cpu(ebx: int, esp: int, ebp: int, esi: int, edi: int, eip: int)

  datatype Process = Process(pid: nat, state: State, name: string, regs: seq<int>)

  /** What happened to the contexts so far. */
  datatype Happening =
    | Created(p: nat, f: int)
    | Adopted(p: nat)
    | Out(p: nat, ctx: Cpu)
    | In(p: nat, ctx: Cpu)
    | Started(p: nat, f: int)

  datatype Last = Never | Event(h: Happening)

  /** The latest happening about p. */
  ghost function LastOf(log: seq<Happening>, p: nat): (r: Last)
    ensures r.Event? ==> r.h.p == p
  {
    if log == [] then Never
    else if log[|log| - 1].p == p then Event(log[|log| - 1])
    else LastOf(log[..|log| - 1], p)
  }

  /** The function p was last created with, 0 when never. */
  ghost function Registered(log: seq<Happening>, p: nat): int {
    if log == [] then 0
    else if log[|log| - 1].Created? && log[|log| - 1].p == p then log[|log| - 1].f
    else Registered(log[..|log| - 1], p)
  }

  /** The layout of the stacks: one per slot, and the boot stack that slot 0 keeps. */
  datatype Layout = Layout(stacks: int, bootLow: int, bootHigh: int, starter: int)

  function Top(l: Layout, p: nat): int { l.stacks + STACK_BYTES * p + STACK_BYTES - 4 }

  /** Addresses process p pushes to. */
  predicate OwnStack(l: Layout, p: nat, a: int) {
    if p == 0 then l.bootLow <= a < l.bootHigh
    else l.stacks + STACK_BYTES * p <= a < l.stacks + STACK_BYTES * (p + 1)
  }

  predicate Separate(l: Layout) {
    l.bootLow < l.bootHigh && (l.bootHigh <= l.stacks || l.stacks + STACK_BYTES * NB_PROC <= l.bootLow)
  }

  /** The first registers of a new process. */
  function Initial(l: Layout, p: nat): Cpu { Cpu(0, Top(l, p), 0, 0, 0, l.starter) }

  /** After `ret`: the return address is popped into eip. */
  function Popped(c: Cpu): Cpu { c.(esp := c.esp + 4) }

  /** c is the context p left with or, for a new process other than slot 0, its
      first one. */
  ghost predicate ComesBack(l: Layout, log: seq<Happening>, p: nat, c: Cpu) {
    match LastOf(log, p)
    case Event(Out(_, o)) => c == Popped(o)
    // slot 0's prepared stack is never used: it had left before it came back
    case Event(Created(_, _)) => p != 0 && c == Popped(Initial(l, p))
    case _ => false
  }

  /** A process may only be given the context it left with, or a first one. */
  ghost predicate Rightful(l: Layout, log: seq<Happening>, i: int)
    requires 0 <= i < |log|
  {
    match log[i]
    case In(p, ctx) => ComesBack(l, log[..i], p, ctx)
    case Started(p, f) => f == Registered(log[..i], p)
    case _ => true
  }

  ghost predicate AllRightful(l: Layout, log: seq<Happening>) {
    forall i {:trigger Rightful(l, log, i)} :: 0 <= i < |log| ==> Rightful(l, log, i)
  }

  lemma OneMoreRightful(l: Layout, log: seq<Happening>, h: Happening)
    requires AllRightful(l, log) && Rightful(l, log + [h], |log|)
    ensures AllRightful(l, log + [h])
  {
    var log' := log + [h];
    forall i | 0 <= i < |log'|
      ensures Rightful(l, log', i)
    {
      if i < |log| {
        assert Rightful(l, log, i) && log'[..i] == log[..i] && log'[i] == log[i];
      }
    }
  }

  lemma CreationRightful(l: Layout, log: seq<Happening>, p: nat, f: int)
    ensures Rightful(l, log + [Created(p, f)], |log|)
  {
  }

  lemma SwitchRightful(l: Layout, log: seq<Happening>, p: nat, o: Cpu, q: nat, c: Cpu)
    requires AllRightful(l, log) && p != q && ComesBack(l, log, q, c)
    ensures AllRightful(l, log + [Out(p, o), In(q, c)])
    ensures forall r: nat {:trigger LastOf(log + [Out(p, o), In(q, c)], r)} ::
      LastOf(log + [Out(p, o), In(q, c)], r) == if r == q then Event(In(q, c)) else if r == p then Event(Out(p, o))
        else LastOf(log, r)
    ensures forall r: nat {:trigger Registered(log + [Out(p, o), In(q, c)], r)} ::
      Registered(log + [Out(p, o), In(q, c)], r) == Registered(log, r)
  {
    hide LastOf, Registered;
    var log1 := log + [Out(p, o)];
    var log2 := log1 + [In(q, c)];
    assert log2 == log + [Out(p, o), In(q, c)];
    Logged(log, Out(p, o), q);
    assert Rightful(l, log1, |log|);
    OneMoreRightful(l, log, Out(p, o));
    assert log2[..|log1|] == log1;
    assert Rightful(l, log2, |log1|);
    OneMoreRightful(l, log1, In(q, c));
    forall r: nat
      ensures LastOf(log2, r) == if r == q then Event(In(q, c)) else if r == p then Event(Out(p, o)) else LastOf(log, r)
      ensures Registered(log2, r) == Registered(log, r)
    {
      Logged(log, Out(p, o), r);
      Logged(log1, In(q, c), r);
    }
  }

  lemma StartRightful(l: Layout, log: seq<Happening>, p: nat)
    ensures Rightful(l, log + [Started(p, Registered(log, p))], |log|)
  {
    assert (log + [Started(p, Registered(log, p))])[..|log|] == log;
  }

  lemma AdoptionRightful(l: Layout, log: seq<Happening>, p: nat)
    ensures Rightful(l, log + [Adopted(p)], |log|)
  {
  }

  lemma Logged(log: seq<Happening>, h: Happening, p: nat)
    ensures LastOf(log + [h], p) == if h.p == p then Event(h) else LastOf(log, p)
    ensures Registered(log + [h], p) == if h.Created? && h.p == p then h.f else Registered(log, p)
  {
    assert (log + [h])[..|log + [h]| - 1] == log;
  }

  datatype Op = Nothing | Timer | Yield | New(name: string, f: int)

  /** A stretch of the current process: the registers and stack words it ends with
      and what comes then; what an interrupt pushes is counted to it. */
  datatype Action = Action(c: Cpu, pushed: map<int, int>, op: Op)

  /** The process table, the registers, the stacks and what happened so far. */
  datatype Moment = Moment(s: Sched, cpu: Cpu, mem: map<int, int>, log: seq<Happening>)

  function WordIn(mem: map<int, int>, a: int): int { if a in mem then mem[a] else 0 }

  /** A process can touch its own stack only. */
  predicate Within(l: Layout, p: nat, a: Action) {
    OwnStack(l, p, a.c.esp) && forall x {:trigger x in a.pushed} :: x in a.pushed ==> OwnStack(l, p, x)
  }

  ghost predicate FirstFree(s: Sched, p: nat)
    requires |s.states| == NB_PROC
  {
    p < NB_PROC && s.states[p] == Libre && forall q :: 0 <= q < p ==> s.states[q] != Libre
  }

  /** What an action does to the table; one that reaches for another stack is no
      action of this kernel. */
  ghost function EventOf(l: Layout, s: Sched, a: Action): RoundRobin.Event
    requires |s.states| == NB_PROC
  {
    if !Within(l, s.current, a) then Stay
    else
      match a.op
      case Nothing => Stay
      case Timer => Tick
      case Yield => Call
      case New(_, _) => if exists q: nat :: FirstFree(s, q) then (var q: nat :| FirstFree(s, q); Create(q)) else Stay
  }

  /** What is on record once a new process has been through the trampoline. */
  ghost function Begun(l: Layout, m: Moment): seq<Happening> {
    if m.cpu.eip == l.starter then m.log + [Started(m.s.current, Registered(m.log, m.s.current))] else m.log
  }

  /** One action: what the process leaves in its registers and on its stack stays
      there, and if another process is elected the first is on record with that
      context and the other goes on with its own. */
  ghost predicate Ran(l: Layout, m: Moment, a: Action, m': Moment)
    requires Ok(m.s)
  {
    var e := EventOf(l, m.s, a);
    && Step(m.s, e, m'.s)
    && if !Within(l, m.s.current, a) then m' == m
       else if e.Create? then
         && m'.cpu == a.c && m'.log == Begun(l, m) + [Created(e.slot, a.op.f)]
         && m'.mem == (m.mem + a.pushed)[Top(l, e.slot) := l.starter]
       else
         && m'.mem == m.mem + a.pushed
         && if m'.s.current == m.s.current then m'.cpu == a.c && m'.log == Begun(l, m)
            else
              && ComesBack(l, Begun(l, m), m'.s.current, m'.cpu)
              && m'.log == Begun(l, m) +
                [Out(m.s.current, a.c.(eip := WordIn(m'.mem, a.c.esp))), In(m'.s.current, m'.cpu)]
  }

  function Scheds(moments: seq<Moment>): (r: seq<Sched>)
    ensures |r| == |moments|
  {
    seq(|moments|, i requires 0 <= i < |moments| => moments[i].s)
  }

  /** Moments one after the other, one for each action. */
  ghost predicate Runs(l: Layout, moments: seq<Moment>, actions: seq<Action>) {
    && |moments| == |actions| + 1
    && (forall i {:trigger moments[i]} :: 0 <= i < |moments| ==> Ok(moments[i].s))
    && forall i {:trigger actions[i]} :: 0 <= i < |actions| ==> Ran(l, moments[i], actions[i], moments[i + 1])
  }

  ghost function EventsOf(l: Layout, moments: seq<Moment>, actions: seq<Action>): (r: seq<RoundRobin.Event>)
    requires Runs(l, moments, actions)
    ensures |r| == |actions|
  {
    seq(|actions|, i requires 0 <= i < |actions| => EventOf(l, moments[i].s, actions[i]))
  }

  /** A run of the kernel is a run of the round robin. */
  lemma RunVisits(l: Layout, moments: seq<Moment>, actions: seq<Action>)
    requires Runs(l, moments, actions)
    ensures Visits(Scheds(moments), EventsOf(l, moments, actions))
  {
    hide Ok, Step, EventOf, Within, ComesBack, Begun;
    var trace, events := Scheds(moments), EventsOf(l, moments, actions);
    forall i | 0 <= i < |events| ensures Step(trace[i], events[i], trace[i + 1]) {
      assert Ran(l, moments[i], actions[i], moments[i + 1]);
    }
  }

  /** Whatever the processes do, each one there is runs again within 750 timer interrupts
      from any moment on. */
  lemma ServedInTime(l: Layout, moments: seq<Moment>, actions: seq<Action>, p: nat, from: nat) returns (k: nat)
    requires Runs(l, moments, actions) && p < NB_PROC && moments[0].s.enabled
    requires moments[0].s.states[p] in {Pret, Elu}
    requires from < |moments| && CountTicks(EventsOf(l, moments, actions)[from..]) >= 750
    ensures from <= k < |moments| && moments[k].s.current == p
  {
    hide Ran, Ok, Step, EventOf;
    RunVisits(l, moments, actions);
    k := AgainAndAgain(Scheds(moments), EventsOf(l, moments, actions), p, from);
  }

  lemma CreatedFirst(s: Sched, p: nat)
    requires |s.states| == NB_PROC && FirstFree(s, p)
    ensures forall q: nat :: FirstFree(s, q) ==> q == p
  {
  }

  lemma Stayed(l: Layout, m: Moment, a: Action)
    requires Ok(m.s) && !Within(l, m.s.current, a)
    ensures Ran(l, m, a, m)
  {
  }

  lemma OneMoreMoment(l: Layout, moments: seq<Moment>, actions: seq<Action>, a: Action, m: Moment)
    requires Runs(l, moments, actions) && Ok(m.s) && Ran(l, moments[|actions|], a, m)
    ensures Runs(l, moments + [m], actions + [a])
  {
    hide Ran, Ok;
    var moments', actions' := moments + [m], actions + [a];
    forall i | 0 <= i < |actions'| ensures Ran(l, moments'[i], actions'[i], moments'[i + 1]) {
      if i < |actions| {
        assert moments'[i] == moments[i] && actions'[i] == actions[i] && moments'[i + 1] == moments[i + 1];
      }
    }
  }

  class Kernel {
    const l: Layout
    const table: array<Process>
    const processEntry: array<int>

    var current: nat
    var enabled: bool
    var ticks: nat
    var cpu: Cpu
    var mem: map<int, int>
    ghost var log: seq<Happening>

    ghost predicate Shaped()
      reads this, table
    {
      && table.Length == NB_PROC && processEntry.Length == NB_PROC && current < NB_PROC && ticks < WORD && Separate(l)
      && forall p {:trigger table[p]} :: 0 <= p < NB_PROC ==> table[p].pid == p && |table[p].regs| == 5
    }

    ghost function Abs(): (s: Sched)
      requires Shaped()
      reads this, table
      ensures |s.states| == NB_PROC
    {
      Sched(seq(NB_PROC, p requires 0 <= p < NB_PROC reads this,
        table requires table.Length == NB_PROC => table[p].state), current, enabled, ticks)
    }

    /** The word at a; the stacks start out as zeros. */
    function Load(a: int): int
      reads this
    {
      WordIn(mem, a)
    }

    ghost function Now(): Moment
      requires Shaped()
      reads this, table
    {
      Moment(Abs(), cpu, mem, log)
    }

    /** Slot p holds the context it left with, or a first one. */
    ghost predicate Holds(p: nat)
      requires Shaped() && p < NB_PROC
      reads this, table, processEntry
    {
      var r := table[p].regs;
      match LastOf(log, p)
      case Event(Created(_, f)) => r == [0, Top(l, p), 0, 0, 0] && Load(Top(l, p)) == l.starter
      case Event(Out(_, c)) => r == [c.ebx, c.esp, c.ebp, c.esi, c.edi] && OwnStack(l, p, c.esp) && Load(c.esp) == c.eip
      case _ => false
    }

    ghost predicate Running(p: nat)
      reads this
    {
      match LastOf(log, p)
      case Event(Adopted(_)) => true
      case Event(In(_, _)) => true
      case Event(Started(_, _)) => true
      case _ => false
    }

    ghost predicate Slot(p: nat)
      requires Shaped() && p < NB_PROC
      reads this, table, processEntry
    {
      && (table[p].state == Pret ==> Holds(p))
      && (table[p].state != Libre ==> processEntry[p] == Registered(log, p))
      && (enabled && p == 0 ==> table[0].state != Libre && !(LastOf(log, 0).Event? && LastOf(log, 0).h.Created?))
      && table[p].state != Bloque
    }

    ghost predicate Valid()
      reads this, table, processEntry
    {
      && Shaped() && AllRightful(l, log)
      && (forall p {:trigger Slot(p)} :: 0 <= p < NB_PROC ==> Slot(p))
      && (enabled ==> Ok(Abs()) && Running(current))
      && (!enabled ==> current == 0)
    }

    /** The statics in .bss: everything zero. */
    constructor (l: Layout)
      requires Separate(l)
      ensures current == ticks == 0
      ensures Valid() && !enabled && log == [] && fresh(table) && fresh(processEntry) && this.l == l
      ensures forall p :: 0 <= p < NB_PROC ==> table[p].state == Libre
    {
      this.l := l;
      table := new Process[NB_PROC](p => Process(if p >= 0 then p else 0, Libre, "", [0, 0, 0, 0, 0]));
      processEntry := new int[NB_PROC](_ => 0);
      current, enabled, ticks, cpu, mem, log := 0, false, 0, Cpu(0, 0, 0, 0, 0, 0), map[], [];
    }

    /** init_process() */
    method InitProcess()
      requires Valid() && !enabled
      modifies table
      ensures Valid() && forall p :: 0 <= p < NB_PROC ==> table[p] == Process(p, Libre, "", [0, 0, 0, 0, 0])
    {
      var i := 0;
      while i < NB_PROC
        invariant 0 <= i <= NB_PROC && Shaped()
        invariant forall p {:trigger table[p]} :: 0 <= p < i ==> table[p] == Process(p, Libre, "", [0, 0, 0, 0, 0])
        modifies table
      {
        table[i] := Process(i, Libre, "", [0, 0, 0, 0, 0]);
        i := i + 1;
      }
      forall p | 0 <= p < NB_PROC ensures Slot(p) { assert table[p].state == Libre; }
    }

    /** find_free_slot(): the first free slot, or -1. */
    method FindFreeSlot() returns (slot: int)
      requires Shaped()
      ensures -1 <= slot < NB_PROC
      ensures slot >= 0 ==> table[slot].state == Libre && forall p :: 0 <= p < slot ==> table[p].state != Libre
      ensures slot == -1 ==> forall p :: 0 <= p < NB_PROC ==> table[p].state != Libre
    {
      var i := 0;
      while i < NB_PROC
        invariant 0 <= i <= NB_PROC && forall p {:trigger table[p]} :: 0 <= p < i ==> table[p].state != Libre
      {
        if table[i].state == Libre { return i; }
        i := i + 1;
      }
      return -1;
    }

    /** The name copied, at most 31 characters of it. */
    method CopyName(name: string) returns (copy: string)
      ensures copy == name[..if |name| < NAME_MAX then |name| else NAME_MAX]
    {
      copy := "";
      var i := 0;
      while i < NAME_MAX && i < |name|
        invariant 0 <= i <= |name| && i <= NAME_MAX && copy == name[..i]
      {
        assert name[..i + 1] == name[..i] + [name[i]];
        copy := copy + [name[i]];
        i := i + 1;
      }
    }

    /** The slot filled in: its stack holds the trampoline's address, its context
        points there. */
    method PrepareSlot(slot: nat, n: string, function_: int)
      requires Valid() && slot < NB_PROC && table[slot].state == Libre
      modifies `mem, `log, table, processEntry
      ensures Valid() && old(Shaped()) && log == old(log) + [Created(slot, function_)]
      ensures Abs() == old(Abs()).(states := old(Abs()).states[slot := Pret])
      ensures table[slot] == Process(slot, Pret, n, [0, Top(l, slot), 0, 0, 0]) && processEntry[slot] == function_
      ensures forall p :: 0 <= p < NB_PROC && p != slot ==>
        table[p] == old(table[p]) && processEntry[p] == old(processEntry[p])
      ensures mem == old(mem)[Top(l, slot) := l.starter]
    {
      hide OwnStack, Top, Rightful, LastOf, Registered;
      processEntry[slot] := function_;
      var stackTop := Top(l, slot);
      mem := mem[stackTop := l.starter];
      table[slot] := Process(slot, Pret, n, [0, stackTop, 0, 0, 0]);
      log := log + [Created(slot, function_)];
      assert Rightful(l, log, |log| - 1) by { CreationRightful(l, old(log), slot, function_); }
      OneMoreRightful(l, old(log), Created(slot, function_));
      assert Abs().states == old(Abs()).states[slot := Pret];
      assert enabled ==> Abs().states[current] == Elu by { if enabled { assert old(Abs()).states[current] == Elu; } }
      Logged(old(log), Created(slot, function_), current);
      forall p | 0 <= p < NB_PROC
        ensures Slot(p)
      {
        Logged(old(log), Created(slot, function_), p);
        assert old(Slot(p));
        if p != slot { StacksApart(p, slot); }
      }
    }

    /** create_process(name, function) */
    method CreateProcess(name: string, function_: int) returns (pid: int)
      requires Valid()
      modifies `mem, `log, table, processEntry
      ensures Valid() && old(Shaped())
      ensures pid == -1 ==> Abs() == old(Abs()) && log == old(log) && forall p :: 0 <= p < NB_PROC ==>
        old(table[p].state) != Libre
      ensures pid != -1 ==>
        0 <= pid < NB_PROC && old(table[pid].state) == Libre && log == old(log) + [Created(pid, function_)]
      ensures pid != -1 ==> Abs() == old(Abs()).(states := old(Abs()).states[pid := Pret])
      ensures pid != -1 ==>
        processEntry[pid] == function_ && table[pid].name == name[..if |name| < NAME_MAX then |name| else NAME_MAX]
      // the lowest free slot
      ensures pid != -1 ==> forall p :: 0 <= p < pid ==> old(table[p].state) != Libre
      // nobody else's context or stack is touched
      ensures forall p :: 0 <= p < NB_PROC && p != pid ==>
        table[p] == old(table[p]) && processEntry[p] == old(processEntry[p])
      ensures mem == if pid == -1 then old(mem) else old(mem)[Top(l, pid) := l.starter]
    {
      hide Rightful, LastOf, Registered, Holds;
      var slot := FindFreeSlot();
      if slot < 0 { return -1; }
      var n := CopyName(name);
      PrepareSlot(slot, n, function_);
      pid := slot;
    }

    /** process_table[0].state = ELU: the running kernel takes itself for slot 0. */
    method BecomeIdle()
      requires Valid() && !enabled && table[0].state == Pret
      modifies `log, table
      ensures Valid() && !enabled && log == old(log) + [Adopted(0)] && table[0] == old(table[0]).(state := Elu)
      ensures forall p :: 0 < p < NB_PROC ==> table[p] == old(table[p])
      ensures Running(0)
    {
      hide Rightful, LastOf, Registered;
      assert Slot(0);
      table[0] := table[0].(state := Elu);
      log := log + [Adopted(0)];
      AdoptionRightful(l, old(log), 0);
      OneMoreRightful(l, old(log), Adopted(0));
      Logged(old(log), Adopted(0), 0);
      forall p | 0 <= p < NB_PROC
        ensures Slot(p)
      {
        Logged(old(log), Adopted(0), p);
        assert old(Slot(p));
      }
    }

    /** start_scheduling() */
    method StartScheduling()
      requires Valid() && !enabled && Running(0) && table[0].state == Elu && forall p :: 0 < p < NB_PROC ==>
        table[p].state != Elu
      modifies `enabled
      ensures Valid() && enabled && Abs() == old(Abs()).(enabled := true)
    {
      hide Rightful, LastOf, Registered;
      enabled := true;
      assert old(Running(0)) && Running(0);
      forall p | 0 <= p < NB_PROC ensures Slot(p) { assert old(Slot(p)); }
      forall p | 0 <= p < NB_PROC
        ensures Abs().states[p] == Elu <==> p == current
      {
        assert Abs().states[p] == table[p].state;
      }
    }

    /** The current process runs: its registers and its own stack change. */
    method Execute(c: Cpu, pushed: map<int, int>)
      requires Valid() && enabled && forall a {:trigger a in pushed} :: a in pushed ==> OwnStack(l, current, a)
      modifies `cpu, `mem
      ensures Valid() && cpu == c && mem == old(mem) + pushed
      ensures forall p: nat, a {:trigger OwnStack(l, p, a)} :: p < NB_PROC && p != current && OwnStack(l, p, a) ==>
        Load(a) == old(Load(a))
    {
      hide Rightful, LastOf, Registered, OwnStack, Top;
      cpu := c;
      mem := mem + pushed;
      assert Abs().states == old(Abs()).states;
      assert old(Running(current)) && Running(current);
      forall p: nat, a | p < NB_PROC && p != current && OwnStack(l, p, a)
        ensures a !in pushed
      {
        StacksApart(p, current);
      }
      forall p | 0 <= p < NB_PROC
        ensures Slot(p)
      {
        assert old(Slot(p));
        assert Abs().states[p] == table[p].state && old(Abs()).states[p] == old(table[p].state);
        if p != current { StacksApart(current, p); }
      }
    }

    /** ctx_sw(ctx_old, ctx_new), instruction by instruction; eax is clobbered. */
    method CtxSw(old_: nat, new_: nat)
      requires Shaped() && old_ < NB_PROC && new_ < NB_PROC && old_ != new_
      modifies `cpu, table
      ensures Shaped()
        && table[old_] == old(table[old_]).(regs := [old(cpu).ebx, old(cpu).esp, old(cpu).ebp, old(cpu).esi,
          old(cpu).edi])
      ensures forall p :: 0 <= p < NB_PROC && p != old_ ==> table[p] == old(table[p])
      ensures var r := table[new_].regs; cpu == Cpu(r[0], r[1] + 4, r[2], r[3], r[4], Load(r[1]))
    {
      var eax := old_;
      table[eax] := table[eax].(regs := table[eax].regs[0 := cpu.ebx]);
      table[eax] := table[eax].(regs := table[eax].regs[1 := cpu.esp]);
      table[eax] := table[eax].(regs := table[eax].regs[2 := cpu.ebp]);
      table[eax] := table[eax].(regs := table[eax].regs[3 := cpu.esi]);
      table[eax] := table[eax].(regs := table[eax].regs[4 := cpu.edi]);
      eax := new_;
      cpu := cpu.(ebx := table[eax].regs[0]);
      cpu := cpu.(esp := table[eax].regs[1]);
      cpu := cpu.(ebp := table[eax].regs[2]);
      cpu := cpu.(esi := table[eax].regs[3]);
      cpu := cpu.(edi := table[eax].regs[4]);
      // ret
      cpu := cpu.(eip := Load(cpu.esp), esp := cpu.esp + 4);
    }

    /** The first ready slot after the current one, or the current one. */
    method PickNext() returns (next: nat)
      requires Shaped()
      ensures if exists p: nat :: FirstReady(Abs(), p) then FirstReady(Abs(), next)
              else next == current && forall p :: 0 <= p < NB_PROC ==> table[p].state != Pret
    {
      next := current;
      var i := 1;
      while i <= NB_PROC
        invariant 1 <= i <= NB_PROC + 1
        invariant forall q {:trigger table[q]} :: 0 <= q < NB_PROC && Distance(current, q) < i ==>
          table[q].state != Pret
      {
        var candidate := (current + i) % NB_PROC;
        Cyclic(current, i);
        if table[candidate].state == Pret {
          next := candidate;
          assert FirstReady(Abs(), next) by {
            forall q | 0 <= q < NB_PROC && Abs().states[q] == Pret
              ensures Distance(current, next) <= Distance(current, q)
            {
              assert table[q].state == Pret;
            }
          }
          return;
        }
        i := i + 1;
      }
    }

    lemma Cyclic(from: nat, i: nat)
      requires from < NB_PROC && 1 <= i <= NB_PROC
      ensures var q := (from + i) % NB_PROC; q < NB_PROC && Distance(from, q) == i
      ensures forall q: nat {:trigger Distance(from, q)} :: q < NB_PROC && Distance(from, q) == i ==>
        q == (from + i) % NB_PROC
    {
    }

    /** The context the current process leaves behind. */
    function Leaving(): Cpu
      reads this
    {
      cpu.(eip := Load(cpu.esp))
    }

    lemma HeldIsBack(p: nat)
      requires Valid() && enabled && p < NB_PROC && table[p].state == Pret
      ensures var r := table[p].regs; ComesBack(l, log, p, Cpu(r[0], r[1] + 4, r[2], r[3], r[4], Load(r[1])))
    {
      hide Registered, AllRightful, Elects;
      assert Slot(p);
    }

    /** The switch proper: the old process becomes ready, the new one elected, and
        the registers are exchanged. */
    method Switch(next: nat) returns (ghost c: Cpu)
      requires Valid() && enabled && OwnStack(l, current, cpu.esp) && next < NB_PROC && next != current
        && table[next].state == Pret
      modifies `current, `cpu, table
      ensures Shaped() && old(Shaped()) && current == next && cpu == c && ComesBack(l, old(log), next, c)
      ensures table[old(current)].state == Pret && table[next].state == Elu
      ensures var o := old(Leaving()); table[old(current)].regs == [o.ebx, o.esp, o.ebp, o.esi, o.edi]
      ensures table[next].regs == old(table[next].regs)
      ensures forall p :: 0 <= p < NB_PROC && p != next && p != old(current) ==> table[p] == old(table[p])
    {
      hide LastOf, AllRightful, ComesBack, Registered;
      HeldIsBack(next);
      assert Abs().states[current] == Elu;
      var oldPid := current;
      if table[oldPid].state == Elu { table[oldPid] := table[oldPid].(state := Pret); }
      table[next] := table[next].(state := Elu);
      current := next;
      CtxSw(oldPid, next);
      c := cpu;
    }

    /** ctx_sw(process_table[old_pid].regs, process_table[next].regs), on record. */
    method SwitchTo(next: nat) returns (ghost c: Cpu)
      requires Valid() && enabled && OwnStack(l, current, cpu.esp) && next < NB_PROC && next != current
        && table[next].state == Pret
      modifies `current, `cpu, `log, table
      ensures Valid() && old(Shaped()) && current == next && cpu == c && ComesBack(l, old(log), next, c)
      ensures log == old(log) + [Out(old(current), old(Leaving())), In(next, c)]
      ensures Abs() == old(Abs()).(states := old(Abs()).states[old(current) := Pret][next := Elu], current := next)
    {
      hide LastOf, AllRightful, ComesBack, Registered;
      ghost var s0, o := Abs(), Leaving();
      assert s0.states[current] == Elu;
      c := Switch(next);
      SwitchRightful(l, log, old(current), o, next, c);
      log := log + [Out(old(current), o), In(next, c)];
      assert Abs().states == s0.states[old(current) := Pret][next := Elu];
      forall p | 0 <= p < NB_PROC
        ensures Slot(p)
      {
        assert old(Slot(p));
        assert s0.states[p] == old(table[p].state);
      }
    }

    /** Either nothing changed hands, or the process before is on record with its context
        o and the one now running goes on with its own. */
    ghost predicate Switched(before: nat, c: Cpu, was: seq<Happening>, o: Cpu)
      reads this
    {
      if current == before then cpu == c && log == was
      else log == was + [Out(before, o), In(current, cpu)] && ComesBack(l, was, current, cpu)
    }

    /** schedule(), as its call of ctx_sw is entered: the return address lies on
        the current process's own stack. */
    method Schedule() returns (ghost c: Cpu)
      requires Valid() && (enabled ==> OwnStack(l, current, cpu.esp))
      modifies `current, `cpu, `log, table
      ensures Valid() && old(Shaped()) && Elects(old(Abs()), Abs()) && cpu == c
      // whoever comes back finds the registers it left with, or its first ones
      ensures Switched(old(current), old(cpu), old(log), old(Leaving()))
    {
      hide LastOf, AllRightful, ComesBack, Registered, Slot, Running, Distance;
      c := cpu;
      if !enabled { return; }
      var next := PickNext();
      assert Abs().states[current] == Elu;
      if next == current { return; }
      c := SwitchTo(next);
    }

    /** process_starter(), where the first `ret` of a new process leads: it runs the
        function registered for its own slot. */
    method ProcessStarter()
      requires Valid() && enabled && cpu.eip == l.starter
      modifies `cpu, `log
      ensures Valid() && cpu == old(cpu).(eip := processEntry[current])
      ensures log == old(log) + [Started(current, processEntry[current])]
        && processEntry[current] == Registered(old(log), current)
    {
      hide LastOf, Registered;
      assert Slot(current) && Abs().states[current] == Elu;
      var me := current;
      cpu := cpu.(eip := processEntry[me]);
      ghost var h := Started(me, processEntry[me]);
      log := log + [h];
      StartRightful(l, old(log), me);
      OneMoreRightful(l, old(log), h);
      assert Abs() == old(Abs());
      Logged(old(log), h, current);
      forall p | 0 <= p < NB_PROC
        ensures Slot(p)
      {
        assert old(Slot(p));
        assert Abs().states[p] == table[p].state;
        Logged(old(log), h, p);
      }
    }

    /** tick_handler_C(), but for the clock and the end of interrupt. */
    method TickHandler()
      requires Valid() && (enabled ==> OwnStack(l, current, cpu.esp))
      modifies `ticks, `current, `cpu, `log, table
      ensures Valid() && old(Shaped()) && (old(enabled) ==> Ok(old(Abs())) && Step(old(Abs()), Tick, Abs()))
        && enabled == old(enabled)
      ensures Switched(old(current), old(cpu), old(log), old(Leaving()))
    {
      hide LastOf, AllRightful, Registered;
      ghost var s0 := Abs();
      ticks := (ticks + 1) % WORD;
      assert Abs().states == s0.states;
      assert enabled ==> old(Running(current)) && Running(current);
      forall p | 0 <= p < NB_PROC ensures Slot(p) { assert old(Slot(p)); }
      if ticks % TIME_QUANTUM_MS == 0 {
        ghost var c := Schedule();
      }
    }

    /** create_process when the first free slot is known. */
    method CreateAt(slot: nat, name: string, f: int)
      requires Valid() && !enabled && slot < NB_PROC
      requires forall p :: 0 <= p < NB_PROC ==> table[p].state == if p < slot then Pret else Libre
      modifies `mem, `log, table, processEntry
      ensures Valid() && forall p :: 0 <= p < NB_PROC ==> table[p].state == if p <= slot then Pret else Libre
      ensures processEntry[slot] == f && forall p :: 0 <= p < slot ==> processEntry[p] == old(processEntry[p])
      ensures |name| <= NAME_MAX ==> table[slot].name == name
      ensures forall p :: 0 <= p < slot ==> table[p].name == old(table[p].name)
    {
      hide LastOf, AllRightful, Registered, Slot, Holds, Running, OwnStack;
      ghost var s0 := Abs();
      assert table[slot].state == Libre;
      var pid := CreateProcess(name, f);
      assert old(table[slot].state) == Libre;
      assert pid >= 0 && old(table[pid].state) == Libre;
      forall p | 0 <= p < NB_PROC
        ensures table[p].state == if p <= slot then Pret else Libre
      {
        assert Abs().states[p] == table[p].state && s0.states[p] == old(table[p].state);
      }
    }

    /** kernel_start from init_process() to start_scheduling(). */
    method Boot(idle: int, processus1: int, shell: int)
      requires Valid() && !enabled
      modifies `mem, `log, `enabled, table, processEntry
      ensures Valid() && enabled && current == 0 && Abs().states == [Elu, Pret, Pret] + seq(NB_PROC - 3, _ => Libre)
      ensures processEntry[0] == idle && processEntry[1] == processus1 && processEntry[2] == shell
      ensures table[0].name == "idle" && table[1].name == "processus1" && table[2].name == "shell"
    {
      hide LastOf, AllRightful, Registered, Slot, Holds, Running, OwnStack;
      InitProcess();
      assert forall p :: 0 <= p < NB_PROC ==> table[p].state == Libre;
      CreateAt(0, "idle", idle);
      CreateAt(1, "processus1", processus1);
      CreateAt(2, "shell", shell);
      BecomeIdle();
      StartScheduling();
      assert forall p :: 0 <= p < NB_PROC ==> Abs().states[p] == table[p].state;
    }

    /** The current process, started by the trampoline if it is new, runs up to an
        interrupt or a call. */
    method Act(a: Action)
      requires Valid() && enabled && Within(l, current, a)
      modifies `mem, `ticks, `current, `cpu, `log, table, processEntry
      ensures Valid() && enabled && old(Shaped()) && Ok(old(Abs())) && Ran(l, old(Now()), a, Now())
    {
      hide LastOf, AllRightful, Registered, Slot, Holds, Running, OwnStack, Elects, ComesBack;
      ghost var s0 := Abs();
      if cpu.eip == l.starter { ProcessStarter(); }
      Execute(a.c, a.pushed);
      assert Abs().states == s0.states;
      match a.op
      case Nothing =>
      case Timer => TickHandler();
      case Yield => ghost var c := Schedule();
      case New(name, f) =>
        var pid := CreateProcess(name, f);
        if pid >= 0 { CreatedFirst(s0, pid); }
    }

    /** Whatever the processes do on their own stacks, and however timer, schedule
        and create_process interleave, the log stays rightful and the states are
        a run of the round robin. */
    method Run(actions: seq<Action>) returns (ghost moments: seq<Moment>)
      requires Valid() && enabled
      modifies `mem, `ticks, `current, `cpu, `log, table, processEntry
      ensures Valid() && enabled && AllRightful(l, log)
      ensures Runs(l, moments, actions) && old(Shaped()) && moments[0] == old(Now()) && moments[|actions|] == Now()
      ensures Visits(Scheds(moments), EventsOf(l, moments, actions))
    {
      hide LastOf, AllRightful, Registered, Slot, Holds, Running, OwnStack, Elects, Step, Ok, Ran, Within;
      moments := [Now()];
      assert actions[..0] == [];
      for i := 0 to |actions|
        invariant Valid() && enabled
        invariant Runs(l, moments, actions[..i]) && moments[0] == old(Now()) && moments[i] == Now()
      {
        ghost var m := Now();
        if Within(l, current, actions[i]) { Act(actions[i]); } else { Stayed(l, m, actions[i]); }
        OneMoreMoment(l, moments, actions[..i], actions[i], Now());
        moments := moments + [Now()];
        assert actions[..i + 1] == actions[..i] + [actions[i]];
      }
      assert actions[..|actions|] == actions;
      RunVisits(l, moments, actions);
    }

    lemma StacksApart(p: nat, q: nat)
      requires Separate(l) && p < NB_PROC && q < NB_PROC && p != q
      ensures !OwnStack(l, p, Top(l, q)) && Top(l, p) != Top(l, q) && (q != 0 ==> OwnStack(l, q, Top(l, q)))
      ensures forall a :: OwnStack(l, p, a) ==> !OwnStack(l, q, a)
    {
    }
  }
}
