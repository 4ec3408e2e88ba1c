/** The scheduler over whole runs, from the boot code on: one CPU with a timer does to the
    processes no more than independent CPUs would, and every process gets its turn. */
module SchedulerRuns {
  import opened Words
  import opened Machine
  import opened Scheduling

  // ---- Runs ------------------------------------------------------------------------------------

  datatype Event =
    | TimerTick(scratch: Memory, clobbered: Gpr)
    | UserCode
    | NewProcess(pid: nat, entry: u64, cs: u64, stack: nat)
    | Start

  /** The boot code before the first process. */
  ghost predicate AtBoot(s: Sys)
  {
    s.procs == [] && !s.running && AllRegs(s.cpu.gpr)
  }

  /** One event. The timer does not tick between the first create_process and
      start_scheduling. */
  ghost predicate Next(s: Sys, e: Event, s': Sys)
  {
    match e
    case TimerTick(scratch, clobbered) =>
      && (if s.procs == [] then BootReady(s, scratch) else AllRegs(s.cpu.gpr) && TickReady(s, scratch))
      && s' == Timer(s, scratch, clobbered)
    case UserCode => UserStep(s, s')
    case NewProcess(pid, entry, cs, stack) => CanCreate(s, pid, stack) && s' == Create(s, pid, entry, cs, stack)
    case Start => !s.running && s.procs != [] && s' == Begin(s, s.cpu.gpr)
  }

  ghost predicate IsRun(states: seq<Sys>, events: seq<Event>)
  {
    && |states| == |events| + 1
    && AtBoot(states[0])
    && forall i :: 0 <= i < |events| ==> Next(states[i], events[i], states[i + 1])
  }

  lemma NextInv(s: Sys, e: Event, s': Sys)
    requires Inv(s) && Next(s, e, s')
    ensures Inv(s')
  {
    match e
    case TimerTick(scratch, clobbered) =>
      if s.procs != [] {
        TickInv(s, scratch, clobbered);
      }
    case UserCode =>
    case NewProcess(pid, entry, cs, stack) => CreateInv(s, pid, entry, cs, stack);
    case Start => BeginTransparent(s, s.cpu.gpr, 0);
  }

  /** In every state of every run the stacks are apart, every process that is not executing
      has its frame in its stack, and after the start exactly the current one is RUNNING. */
  lemma {:induction false} RunInv(states: seq<Sys>, events: seq<Event>, i: nat)
    requires IsRun(states, events) && i < |states|
    ensures Inv(states[i])
  {
    if i != 0 {
      RunInv(states, events, i - 1);
      NextInv(states[i - 1], events[i - 1], states[i]);
    }
  }

  // ---- Independent CPUs --------------------------------------------------------------------------

  /** The CPU is executing process pid. */
  ghost predicate Executing(s: Sys, pid: nat)
  {
    s.running && s.procs != [] && s.procs[0].pid == pid
  }

  /** What an event may do to n independent CPUs of which the first in order has the turn: a
      tick passes the turn on and changes no CPU; code changes only the CPU whose turn it is,
      and none before the start; a new process adds a CPU in its initial state, next in turn;
      the start changes none. */
  ghost predicate Refines(s: Sys, e: Event, s': Sys)
  {
    && (s'.running <==> s.running || e.Start?)
    && match e
    case TimerTick(_, _) =>
      && Order(s'.procs) == (if s.procs == [] then [] else Rotate(Order(s.procs)))
      && forall pid, v :: Has(s, pid, v) ==> Has(s', pid, v)
    case UserCode =>
      && Order(s'.procs) == Order(s.procs)
      && forall pid, v :: Has(s, pid, v) && !Executing(s, pid) ==> Has(s', pid, v)
    case NewProcess(pid, entry, cs, stack) =>
      && stack + 16384 < W64
      && Order(s'.procs) == Insert(Order(s.procs), pid)
      && (forall other, v :: Has(s, other, v) ==> Has(s', other, v))
      && Has(s', pid, View(Fresh(entry, cs, stack + 16384), map[]))
    case Start =>
      && s.procs != [] && Order(s'.procs) == Order(s.procs)
      && forall pid, v :: Has(s, pid, v) ==> Has(s', pid, v)
  }

  lemma TickRefines(s: Sys, scratch: Memory, clobbered: Gpr)
    requires Inv(s) && TickReady(s, scratch)
    ensures Refines(s, TimerTick(scratch, clobbered), Timer(s, scratch, clobbered))
  {
    var s', n := Tick(s, scratch, clobbered), |s.procs|;
    forall pid, v | Has(s, pid, v)
      ensures Has(s', pid, v)
    {
      TickKeeps(s, scratch, clobbered, pid, v);
    }
    TickOrder(s, scratch, clobbered);
  }

  lemma TickKeeps(s: Sys, scratch: Memory, clobbered: Gpr, pid: nat, v: View)
    requires Inv(s) && TickReady(s, scratch) && Has(s, pid, v)
    ensures Has(Tick(s, scratch, clobbered), pid, v)
  {
    var i: nat :| i < |s.procs| && s.procs[i].pid == pid && ViewAt(s, i) == v;
    var j := if i == 0 then |s.procs| - 1 else i - 1;
    SwitchAt(s.procs, FramePointer(s.cpu), j);
    TickTransparent(s, scratch, clobbered, j);
    HasAt(Tick(s, scratch, clobbered), j, pid, v);
  }

  lemma TickOrder(s: Sys, scratch: Memory, clobbered: Gpr)
    requires Inv(s) && TickReady(s, scratch)
    ensures Order(Tick(s, scratch, clobbered).procs) == Rotate(Order(s.procs))
  {
    var s', n := Tick(s, scratch, clobbered), |s.procs|;
    SwitchAt(s.procs, FramePointer(s.cpu), 0);
    forall j | 0 <= j < n
      ensures Order(s'.procs)[j] == Rotate(Order(s.procs))[j]
    {
      SwitchAt(s.procs, FramePointer(s.cpu), j);
    }
  }

  lemma UserRefines(s: Sys, s': Sys)
    requires Inv(s) && UserStep(s, s')
    ensures Refines(s, UserCode, s')
  {
    forall pid, v | Has(s, pid, v) && !Executing(s, pid)
      ensures Has(s', pid, v)
    {
      var i: nat :| i < |s.procs| && s.procs[i].pid == pid && ViewAt(s, i) == v;
      UserLocal(s, s', i);
      HasAt(s', i, pid, v);
    }
  }

  lemma CreateRefines(s: Sys, pid: nat, entry: u64, cs: u64, stack: nat)
    requires Inv(s) && CanCreate(s, pid, stack)
    ensures Refines(s, NewProcess(pid, entry, cs, stack), Create(s, pid, entry, cs, stack))
  {
    var s' := Create(s, pid, entry, cs, stack);
    forall other, v | Has(s, other, v)
      ensures Has(s', other, v)
    {
      CreateKeeps(s, pid, entry, cs, stack, other, v);
    }
    CreateFresh(s, pid, entry, cs, stack);
    HasAt(s', NewIndex(s), pid, View(Fresh(entry, cs, stack + 16384), map[]));
    InsertOrder(s.procs, NewProc(pid, stack));
  }

  lemma InsertOrder(procs: seq<Proc>, p: Proc)
    ensures Order(Insert(procs, p)) == Insert(Order(procs), p.pid)
  {
  }

  lemma CreateKeeps(s: Sys, pid: nat, entry: u64, cs: u64, stack: nat, other: nat, v: View)
    requires Inv(s) && CanCreate(s, pid, stack) && Has(s, other, v)
    ensures Has(Create(s, pid, entry, cs, stack), other, v)
  {
    var i: nat :| i < |s.procs| && s.procs[i].pid == other && ViewAt(s, i) == v;
    CreateOthers(s, pid, entry, cs, stack, i);
    HasAt(Create(s, pid, entry, cs, stack), After(i), other, v);
  }

  lemma StartRefines(s: Sys)
    requires Inv(s) && !s.running && s.procs != []
    ensures Refines(s, Start, Begin(s, s.cpu.gpr))
  {
    var s' := Begin(s, s.cpu.gpr);
    forall pid, v | Has(s, pid, v)
      ensures Has(s', pid, v)
    {
      var i: nat :| i < |s.procs| && s.procs[i].pid == pid && ViewAt(s, i) == v;
      BeginTransparent(s, s.cpu.gpr, i);
      HasAt(s', i, pid, v);
    }
  }

  /** Over every run from boot, each event does to the views of the processes no more than it
      may do to independent CPUs. */
  lemma RunRefines(states: seq<Sys>, events: seq<Event>, i: nat)
    requires IsRun(states, events) && i < |events|
    ensures Refines(states[i], events[i], states[i + 1])
  {
    var s, s' := states[i], states[i + 1];
    RunInv(states, events, i);
    assert Next(s, events[i], s');
    match events[i]
    case TimerTick(scratch, clobbered) =>
      if s.procs != [] {
        TickRefines(s, scratch, clobbered);
      }
    case UserCode => UserRefines(s, s');
    case NewProcess(pid, entry, cs, stack) => CreateRefines(s, pid, entry, cs, stack);
    case Start => StartRefines(s);
  }

  lemma RefinesKeeps(s: Sys, e: Event, s': Sys, pid: nat, v: View)
    requires Refines(s, e, s') && Has(s, pid, v) && !Executing(s, pid)
    ensures Has(s', pid, v)
  {
  }

  lemma WaitsStep(states: seq<Sys>, events: seq<Event>, i: nat, pid: nat, v: View)
    requires IsRun(states, events) && i < |events|
    requires !Executing(states[i], pid) && Has(states[i], pid, v)
    ensures Has(states[i + 1], pid, v)
  {
    RunRefines(states, events, i);
    RefinesKeeps(states[i], events[i], states[i + 1], pid, v);
  }

  lemma {:induction false} Waits(states: seq<Sys>, events: seq<Event>, i: nat, j: nat, pid: nat, v: View)
    requires IsRun(states, events) && i <= j <= |events|
    requires forall k {:trigger states[k]} :: i <= k < j ==> !Executing(states[k], pid)
    requires Has(states[i], pid, v)
    ensures Has(states[j], pid, v)
    decreases j - i
  {
    if i < j {
      WaitsStep(states, events, i, pid, v);
      Waits(states, events, i + 1, j, pid, v);
    }
  }

  /** Context-switch transparency. A process interrupted at step i and next executing again at
      step j, any number of ticks, other processes' code and new processes later, resumes
      with exactly the registers and the live stack it was interrupted with. */
  lemma Resumes(states: seq<Sys>, events: seq<Event>, i: nat, j: nat, pid: nat)
    requires IsRun(states, events) && i < j <= |events|
    requires events[i].TimerTick? && Executing(states[i], pid) && Executing(states[j], pid)
    requires forall k {:trigger states[k]} :: i < k < j ==> !Executing(states[k], pid)
    ensures ViewAt(states[j], 0) == ViewAt(states[i], 0)
    ensures states[j].cpu == states[i].cpu
  {
    var v := ViewAt(states[i], 0);
    HasAt(states[i], 0, pid, v);
    RunRefines(states, events, i);
    Waits(states, events, i + 1, j, pid, v);
    RunInv(states, events, j);
    HasCurrent(states[j], pid, v);
  }

  /** A process created at step i, before or after the start, executes for the first time at
      step j: it starts at its entry, with zeroed registers and its stack pointer at the top
      of its stack. */
  lemma Starts(states: seq<Sys>, events: seq<Event>, i: nat, j: nat)
    requires IsRun(states, events) && i < j <= |events|
    requires events[i].NewProcess? && Executing(states[j], events[i].pid)
    requires forall k {:trigger states[k]} :: i < k < j ==> !Executing(states[k], events[i].pid)
    ensures events[i].stack + 16384 < W64
    ensures states[j].cpu == Fresh(events[i].entry, events[i].cs, events[i].stack + 16384)
    ensures var c := states[j].cpu;
            && (forall r: Reg :: r in c.gpr && c.gpr[r] == 0)
            && c.rip == events[i].entry && c.rsp == events[i].stack + 16384 && c.ss == 0 && Bit(c.rflags, 9)
  {
    var e := events[i];
    RunRefines(states, events, i);
    var v := View(Fresh(e.entry, e.cs, e.stack + 16384), map[]);
    Waits(states, events, i + 1, j, e.pid, v);
    RunInv(states, events, j);
    HasCurrent(states[j], e.pid, v);
    FreshStarts(e.entry, e.cs, e.stack);
  }

  // ---- Bounded waiting -----------------------------------------------------------------------------

  ghost function Ticks(events: seq<Event>): nat
  {
    if events == [] then 0 else Ticks(events[..|events| - 1]) + if events[|events| - 1].TimerTick? then 1 else 0
  }

  ghost function Creations(events: seq<Event>): nat
  {
    if events == [] then 0 else Creations(events[..|events| - 1]) + if events[|events| - 1].NewProcess? then 1 else 0
  }

  /** Where the process at distance d is after an event; -1 stands for a turn just ended. */
  function Moved(e: Event, d: nat): int
  {
    if e.TimerTick? then d - 1 else if e.NewProcess? && 0 < d then d + 1 else d
  }

  lemma NextOrder(s: Sys, e: Event, s': Sys, d: nat)
    requires Next(s, e, s') && d < |s.procs|
    ensures s'.procs != [] && (s.running || e.TimerTick? ==> s'.running)
    ensures 0 <= Moved(e, d) ==> Moved(e, d) < |s'.procs| && s'.procs[Moved(e, d)].pid == s.procs[d].pid
  {
    match e
    case TimerTick(scratch, clobbered) =>
      SwitchAt(s.procs, FramePointer(s.cpu), if 0 < d then d - 1 else 0);
    case UserCode =>
    case NewProcess(pid, entry, cs, stack) =>
    case Start =>
  }

  /** The process at distance d at step i has not been first up to step m: it is at this
      index then. */
  ghost function Distance(events: seq<Event>, i: nat, d: nat, m: nat): int
    requires i <= m <= |events|
  {
    d + Creations(events[i..m]) - Ticks(events[i..m])
  }

  lemma TicksNext(events: seq<Event>, i: nat, m: nat)
    requires i < m <= |events|
    ensures Ticks(events[i..m]) == Ticks(events[i..m - 1]) + if events[m - 1].TimerTick? then 1 else 0
  {
    assert events[i..m][..m - i - 1] == events[i..m - 1];
  }

  lemma DistanceNext(events: seq<Event>, i: nat, d: nat, m: nat)
    requires i < m <= |events|
    requires 0 < Distance(events, i, d, m - 1)
    ensures Distance(events, i, d, m) == Moved(events[m - 1], Distance(events, i, d, m - 1))
  {
    assert events[i..m][..m - i - 1] == events[i..m - 1];
  }

  /** Bounded waiting. A process at distance d from the front at any step is, as long as it has
      not been at the front, at distance d minus the ticks plus the processes created since:
      so it executes after exactly d ticks and one more for each process created before then. */
  lemma {:induction false} Waiting(states: seq<Sys>, events: seq<Event>, i: nat, d: nat, m: nat)
    requires IsRun(states, events) && i < m <= |events|
    requires d < |states[i].procs|
    requires forall k {:trigger states[k]} :: i <= k < m ==>
               states[k].procs == [] || states[k].procs[0].pid != states[i].procs[d].pid
    ensures var at := Distance(events, i, d, m);
            0 <= at < |states[m].procs| && states[m].procs[at].pid == states[i].procs[d].pid
    ensures Executing(states[m], states[i].procs[d].pid) <==>
              Ticks(events[i..m]) == d + Creations(events[i..m])
    decreases m
  {
    var pid := states[i].procs[d].pid;
    assert events[i..i] == [];
    if i + 1 < m {
      Waiting(states, events, i, d, m - 1);
    }
    var before := Distance(events, i, d, m - 1);
    assert states[m - 1].procs[before].pid == pid && 0 < before;
    DistanceNext(events, i, d, m);
    assert Next(states[m - 1], events[m - 1], states[m]);
    NextOrder(states[m - 1], events[m - 1], states[m], before);
    AtFront(states, events, m, Distance(events, i, d, m));
  }

  lemma AtFront(states: seq<Sys>, events: seq<Event>, m: nat, at: nat)
    requires IsRun(states, events) && m < |states| && at < |states[m].procs|
    ensures states[m].procs[0].pid == states[m].procs[at].pid <==> at == 0
  {
    RunInv(states, events, m);
    if states[m].procs[0].pid == states[m].procs[at].pid {
      SamePid(states[m], 0, at);
    }
  }

  lemma StepOrder(s: Sys, e: Event, s': Sys, d: nat)
    requires Next(s, e, s') && !e.NewProcess? && d < |s.procs|
    ensures |s'.procs| == |s.procs|
    ensures s'.procs[d].pid == s.procs[if e.TimerTick? then Before(|s.procs|, d) else d].pid
  {
    if e.TimerTick? {
      SwitchAt(s.procs, FramePointer(s.cpu), d);
    }
  }

  /** The index t turns ahead of d. */
  function Ahead(n: nat, d: nat, t: nat): nat
    decreases t
  {
    if t == 0 then d else Ahead(n, Before(n, d), t - 1)
  }

  lemma {:induction false} AheadIs(n: nat, d: nat, t: nat)
    requires d < n
    ensures Ahead(n, d, t) == (d + t) % n
    decreases t
  {
    if t == 0 {
      DivModUnique(d, n, 0, d);
    } else {
      AheadIs(n, Before(n, d), t - 1);
      if d + 1 == n {
        var q, r := (t - 1) / n, (t - 1) % n;
        DivModUnique(t - 1 + n, n, q + 1, r);
      }
    }
  }

  /** From step i to step m the ring has turned once for each tick: the process at index d then
      was that many turns ahead. */
  ghost predicate HasTurned(s: Sys, ticks: nat, s': Sys, d: nat)
    requires d < |s.procs|
  {
    && |s'.procs| == |s.procs| && Ahead(|s.procs|, d, ticks) < |s.procs|
    && s'.procs[d].pid == s.procs[Ahead(|s.procs|, d, ticks)].pid
  }

  lemma TurnStep(s: Sys, ticks: nat, s': Sys, e: Event, s'': Sys, d: nat)
    requires d < |s.procs| && Next(s', e, s'') && !e.NewProcess?
    requires HasTurned(s, ticks, s', if e.TimerTick? then Before(|s.procs|, d) else d)
    ensures HasTurned(s, ticks + if e.TimerTick? then 1 else 0, s'', d)
  {
    StepOrder(s', e, s'', d);
  }

  lemma {:induction false} TurnsAhead(states: seq<Sys>, events: seq<Event>, i: nat, m: nat, d: nat)
    requires IsRun(states, events) && i <= m <= |events| && d < |states[i].procs|
    requires forall k :: i <= k < m ==> !events[k].NewProcess?
    ensures HasTurned(states[i], Ticks(events[i..m]), states[m], d)
    decreases m
  {
    if i == m {
      assert events[i..m] == [];
    } else {
      var e := events[m - 1];
      TurnsAhead(states, events, i, m - 1, if e.TimerTick? then Before(|states[i].procs|, d) else d);
      TicksNext(events, i, m);
      assert Next(states[m - 1], e, states[m]);
      TurnStep(states[i], Ticks(events[i..m - 1]), states[m - 1], e, states[m], d);
    }
  }

  /** With n processes and no new ones, the process t ticks from now is the one at distance
      t modulo n: any n ticks run each process once. */
  lemma RoundRobin(states: seq<Sys>, events: seq<Event>, i: nat, m: nat)
    requires IsRun(states, events) && i <= m <= |events| && states[i].procs != []
    requires forall k :: i <= k < m ==> !events[k].NewProcess?
    ensures |states[m].procs| == |states[i].procs|
    ensures states[m].procs[0].pid == states[i].procs[Ticks(events[i..m]) % |states[i].procs|].pid
  {
    TurnsAhead(states, events, i, m, 0);
    AheadIs(|states[i].procs|, 0, Ticks(events[i..m]));
  }
}
