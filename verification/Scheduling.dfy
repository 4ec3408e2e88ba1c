/** Preemptive round robin on one CPU, seen as independent CPUs that take turns. The
    process at index 0 is the current one; next pointers lead through the sequence and back
    to its start. */
module Scheduling {
  import opened Words
  import opened Machine

  datatype ProcState = READY | RUNNING | BLOCKED | TERMINATED

  datatype Proc = Proc(pid: nat, stack: nat, rsp: nat, state: ProcState) {
    function Top(): nat { stack + 16384 }
  }

  /** running: start_scheduling has happened, so the CPU executes procs[0]. */
  datatype Sys = Sys(cpu: Context, mem: Memory, procs: seq<Proc>, running: bool)

  ghost predicate Apart(p: Proc, q: Proc)
  {
    p.pid != q.pid && (p.Top() <= q.stack || q.Top() <= p.stack)
  }

  /** A process that is not executing has its frame inside its stack. */
  ghost predicate Parked(p: Proc)
  {
    p.stack <= p.rsp && p.rsp + FRAME <= p.Top()
  }

  ghost predicate Inv(s: Sys)
  {
    && AllRegs(s.cpu.gpr)
    && (s.running ==> s.procs != [])
    && (forall i, j :: 0 <= i < j < |s.procs| ==> Apart(s.procs[i], s.procs[j]))
    && (forall i :: 0 <= i < |s.procs| && (0 < i || !s.running) ==> Parked(s.procs[i]))
    && (forall i :: 0 <= i < |s.procs| ==> s.procs[i].state == if i == 0 && s.running then RUNNING else READY)
  }

  // ---- One CPU seen as many -----------------------------------------------------------------

  /** The registers of process i: the CPU's if it is executing, else those it was saved with. */
  function Ctx(s: Sys, i: nat): Context
    requires i < |s.procs|
  {
    if i == 0 && s.running then s.cpu else LoadFrame(map[], s.mem, s.procs[i].rsp)
  }

  /** What belongs to one process: its registers and the words of its stack from rsp up. */
  datatype View = View(ctx: Context, words: map<nat, u64>)

  function StackWords(mem: Memory, p: Proc, rsp: nat): map<nat, u64>
  {
    map a | a in mem && p.stack <= a < p.Top() && rsp <= a :: mem[a]
  }

  function ViewAt(s: Sys, i: nat): View
    requires i < |s.procs|
  {
    View(Ctx(s, i), StackWords(s.mem, s.procs[i], Ctx(s, i).rsp))
  }

  /** Two memories agree on [lo, hi). */
  ghost predicate Agree(m: Memory, m': Memory, lo: nat, hi: nat)
  {
    forall a: nat :: lo <= a < hi ==> (a in m <==> a in m') && Read(m, a) == Read(m', a)
  }

  /** A parked process whose stack is untouched keeps its view. */
  lemma ParkedView(s: Sys, i: nat, s': Sys, j: nat)
    requires i < |s.procs| && j < |s'.procs|
    requires s.procs[i].stack == s'.procs[j].stack && s.procs[i].rsp == s'.procs[j].rsp && Parked(s.procs[i])
    requires !(i == 0 && s.running) && !(j == 0 && s'.running && s'.cpu != LoadFrame(map[], s'.mem, s'.procs[j].rsp))
    requires Agree(s.mem, s'.mem, s.procs[i].stack, s.procs[i].Top())
    ensures ViewAt(s', j) == ViewAt(s, i)
  {
    var p := s.procs[i];
    FrameOfMemory(s.mem, p.rsp);
    FrameKept(s.mem, s'.mem, p.rsp, Ctx(s, i));
    LoadedFrame(map[], s'.mem, p.rsp, Ctx(s, i));
    WordsKept(s.mem, s'.mem, p, s'.procs[j], Ctx(s, i).rsp);
  }

  lemma WordsKept(m: Memory, m': Memory, p: Proc, q: Proc, rsp: nat)
    requires p.stack == q.stack
    requires Agree(m, m', if p.stack <= rsp then rsp else p.stack, p.Top())
    ensures StackWords(m', q, rsp) == StackWords(m, p, rsp)
  {
    var w, w' := StackWords(m, p, rsp), StackWords(m', q, rsp);
    forall a: nat
      ensures a in w <==> a in w'
      ensures a in w ==> w[a] == w'[a]
    {
      if p.stack <= a < p.Top() && rsp <= a {
        assert Read(m, a) == Read(m', a);
      }
    }
  }

  // ---- The timer interrupt -----------------------------------------------------------------------

  /** Room on the running stack for the frame and for what schedule itself uses: scratch,
      arbitrary words below the frame. */
  ghost predicate TickReady(s: Sys, scratch: Memory)
  {
    && s.running && s.procs != []
    && s.procs[0].stack + FRAME <= Align16(s.cpu.rsp) && s.cpu.rsp <= s.procs[0].Top()
    && forall a :: a in scratch ==> s.procs[0].stack <= a < FramePointer(s.cpu)
  }

  function Rotate<T>(xs: seq<T>): seq<T>
    requires xs != []
  {
    xs[1..] + [xs[0]]
  }

  /** schedule on the ring: the interrupted process is saved, the next one runs. */
  function Switch(procs: seq<Proc>, rsp: nat): seq<Proc>
    requires procs != []
  {
    var r := Rotate(procs[0 := procs[0].(rsp := rsp, state := READY)]);
    r[0 := r[0].(state := RUNNING)]
  }

  /** The whole of the timer stub; clobbered are the registers schedule returns with. */
  function Tick(s: Sys, scratch: Memory, clobbered: Gpr): Sys
    requires s.procs != [] && AllRegs(s.cpu.gpr) && FRAME <= Align16(s.cpu.rsp)
  {
    var mem := SaveFrame(s.mem, s.cpu) + scratch;
    var procs := Switch(s.procs, FramePointer(s.cpu));
    Sys(LoadFrame(clobbered, mem, procs[0].rsp), mem, procs, s.running)
  }

  lemma TickMemory(s: Sys, scratch: Memory, clobbered: Gpr, lo: nat, hi: nat)
    requires AllRegs(s.cpu.gpr) && TickReady(s, scratch)
    requires hi <= s.procs[0].stack || Align16(s.cpu.rsp) <= lo
    ensures Agree(s.mem, Tick(s, scratch, clobbered).mem, lo, hi)
  {
    forall a: nat | lo <= a < hi
      ensures a in s.mem <==> a in Tick(s, scratch, clobbered).mem
      ensures Read(s.mem, a) == Read(Tick(s, scratch, clobbered).mem, a)
    {
      SaveOutside(s.mem, s.cpu, a);
    }
  }

  /** The frame of the interrupted process survives schedule's own use of the stack. */
  lemma TickSaves(s: Sys, scratch: Memory, clobbered: Gpr)
    requires AllRegs(s.cpu.gpr) && TickReady(s, scratch)
    ensures FrameAt(Tick(s, scratch, clobbered).mem, FramePointer(s.cpu), s.cpu)
  {
    SavedFrame(s.mem, s.cpu);
    FrameKept(SaveFrame(s.mem, s.cpu), Tick(s, scratch, clobbered).mem, FramePointer(s.cpu), s.cpu);
  }

  /** Where the process at index j was before the switch. */
  function Before(n: nat, j: nat): nat { if j + 1 < n then j + 1 else 0 }

  lemma SwitchAt(procs: seq<Proc>, rsp: nat, j: nat)
    requires j < |procs|
    ensures |Switch(procs, rsp)| == |procs|
    ensures var p := procs[Before(|procs|, j)];
            Switch(procs, rsp)[j]
            == Proc(p.pid, p.stack, if Before(|procs|, j) == 0 then rsp else p.rsp,
                    if j == 0 then RUNNING else if Before(|procs|, j) == 0 then READY else p.state)
  {
  }

  lemma TickInv(s: Sys, scratch: Memory, clobbered: Gpr)
    requires Inv(s) && TickReady(s, scratch)
    ensures Inv(Tick(s, scratch, clobbered))
  {
    var s' := Tick(s, scratch, clobbered);
    var n := |s.procs|;
    TickLoads(s, scratch, clobbered);
    FrameOfMemory(s'.mem, s'.procs[0].rsp);
    forall i, j | 0 <= i < j < n
      ensures Apart(s'.procs[i], s'.procs[j])
    {
      SwitchAt(s.procs, FramePointer(s.cpu), i);
      SwitchAt(s.procs, FramePointer(s.cpu), j);
      var k, l := Before(n, i), Before(n, j);
      assert if k < l then Apart(s.procs[k], s.procs[l]) else Apart(s.procs[l], s.procs[k]);
    }
    forall j | 0 <= j < n
      ensures 0 < j ==> Parked(s'.procs[j])
      ensures s'.procs[j].state == if j == 0 then RUNNING else READY
    {
      SwitchAt(s.procs, FramePointer(s.cpu), j);
    }
  }

  /** After a tick the CPU holds the context the new current process was parked with. */
  lemma TickLoads(s: Sys, scratch: Memory, clobbered: Gpr)
    requires AllRegs(s.cpu.gpr) && TickReady(s, scratch)
    ensures var s' := Tick(s, scratch, clobbered);
            |s'.procs| == |s.procs| && s'.cpu == LoadFrame(map[], s'.mem, s'.procs[0].rsp)
  {
    var s' := Tick(s, scratch, clobbered);
    SwitchAt(s.procs, FramePointer(s.cpu), 0);
    FrameOfMemory(s'.mem, s'.procs[0].rsp);
    LoadedFrame(clobbered, s'.mem, s'.procs[0].rsp, LoadFrame(map[], s'.mem, s'.procs[0].rsp));
  }

  /** A tick changes which process runs and nothing that belongs to any process: each keeps
      its 15 registers, rip, cs, rflags, rsp, ss and the live part of its stack. */
  lemma TickTransparent(s: Sys, scratch: Memory, clobbered: Gpr, j: nat)
    requires Inv(s) && TickReady(s, scratch) && j < |s.procs|
    ensures |Tick(s, scratch, clobbered).procs| == |s.procs|
    ensures ViewAt(Tick(s, scratch, clobbered), j) == ViewAt(s, Before(|s.procs|, j))
  {
    TickLoads(s, scratch, clobbered);
    if j + 1 < |s.procs| {
      TickWaiting(s, scratch, clobbered, j);
    } else {
      TickInterrupted(s, scratch, clobbered);
    }
  }

  lemma TickInterrupted(s: Sys, scratch: Memory, clobbered: Gpr)
    requires Inv(s) && TickReady(s, scratch)
    ensures |Tick(s, scratch, clobbered).procs| == |s.procs|
    ensures ViewAt(Tick(s, scratch, clobbered), |s.procs| - 1) == ViewAt(s, 0)
  {
    var s', last := Tick(s, scratch, clobbered), |s.procs| - 1;
    TickLoads(s, scratch, clobbered);
    SwitchAt(s.procs, FramePointer(s.cpu), last);
    TickSaves(s, scratch, clobbered);
    LoadedFrame(map[], s'.mem, FramePointer(s.cpu), s.cpu);
    assert Ctx(s', last) == s.cpu;
    TickMemory(s, scratch, clobbered, s.cpu.rsp, s.procs[0].Top());
    WordsKept(s.mem, s'.mem, s.procs[0], s'.procs[last], s.cpu.rsp);
  }

  lemma TickWaiting(s: Sys, scratch: Memory, clobbered: Gpr, j: nat)
    requires Inv(s) && TickReady(s, scratch) && j + 1 < |s.procs|
    ensures |Tick(s, scratch, clobbered).procs| == |s.procs|
    ensures ViewAt(Tick(s, scratch, clobbered), j) == ViewAt(s, j + 1)
  {
    var s', p := Tick(s, scratch, clobbered), s.procs[j + 1];
    TickLoads(s, scratch, clobbered);
    SwitchAt(s.procs, FramePointer(s.cpu), j);
    assert Apart(s.procs[0], p);
    TickMemory(s, scratch, clobbered, p.stack, p.Top());
    ParkedView(s, j + 1, s', j);
  }

  // ---- Running, creating, starting ---------------------------------------------------------------

  /** Whatever is executing computes, the boot code or the current process: its registers may
      become anything, and memory anything outside the stacks of the others. */
  ghost predicate UserStep(s: Sys, s': Sys)
  {
    && s'.procs == s.procs && s'.running == s.running
    && AllRegs(s'.cpu.gpr)
    && forall i :: 0 <= i < |s.procs| && (0 < i || !s.running) ==>
         Agree(s.mem, s'.mem, s.procs[i].stack, s.procs[i].Top())
  }

  lemma UserLocal(s: Sys, s': Sys, i: nat)
    requires Inv(s) && UserStep(s, s') && i < |s.procs| && (0 < i || !s.running)
    ensures ViewAt(s', i) == ViewAt(s, i)
  {
    ParkedView(s, i, s', i);
  }

  /** The words create_process lays down, from the top of the stack: the part iretq reads,
      then fifteen zeros. */
  function FakeFrame(entry: u64, cs: u64, top: u64): seq<u64>
  {
    [0, top, 0x202, cs, entry] + seq(15, _ => 0)
  }

  const ZEROS: Gpr :=
    map[RAX := 0, RBX := 0, RCX := 0, RDX := 0, RSI := 0, RDI := 0, RBP := 0,
        R8 := 0, R9 := 0, R10 := 0, R11 := 0, R12 := 0, R13 := 0, R14 := 0, R15 := 0]

  /** Registers zero, entry to jump to, interrupts enabled, an empty stack. */
  function Fresh(entry: u64, cs: u64, top: u64): Context
  {
    Context(ZEROS, entry, cs, 0x202, top, 0)
  }

  /** Registers in which a process starts at entry on a fresh 16 KiB stack, interrupts enabled. */
  ghost predicate Starting(c: Context, entry: u64, stack: nat)
  {
    && (forall r: Reg :: r in c.gpr && c.gpr[r] == 0)
    && c.rip == entry && c.rsp == stack + 16384 && c.ss == 0 && Bit(c.rflags, 9)
  }

  lemma FreshStarts(entry: u64, cs: u64, stack: nat)
    requires stack + 16384 < W64
    ensures Starting(Fresh(entry, cs, stack + 16384), entry, stack)
  {
    ZerosComplete();
    InterruptFlag();
  }

  lemma InterruptFlag()
    ensures Bit(0x202, 9)
  {
  }

  /** The words of the fake frame, by their place below the top of the stack. */
  ghost predicate FrameLaid(mem: Memory, entry: u64, cs: u64, top: nat)
    requires FRAME <= top
  {
    && Read(mem, top - 8) == 0 && Read(mem, top - 16) == top && Bit(Read(mem, top - 24), 9)
    && Read(mem, top - 32) == cs && Read(mem, top - 40) == entry
    && forall a: nat :: top - 160 <= a < top - 40 && (top - a) % 8 == 0 ==> Read(mem, a) == 0
  }

  lemma FakeFrameLaid(mem: Memory, entry: u64, cs: u64, top: u64)
    requires FRAME <= top
    ensures FrameLaid(PushAll(mem, top, FakeFrame(entry, cs, top)), entry, cs, top)
  {
    var words := FakeFrame(entry, cs, top);
    PushedAt(mem, top, words, 0);
    PushedAt(mem, top, words, 1);
    PushedAt(mem, top, words, 2);
    PushedAt(mem, top, words, 3);
    PushedAt(mem, top, words, 4);
    InterruptFlag();
    forall a: nat | top - 160 <= a < top - 40 && (top - a) % 8 == 0
      ensures Read(PushAll(mem, top, words), a) == 0
    {
      PushedAt(mem, top, words, (top - a) / 8 - 1);
    }
  }

  function NewProc(pid: nat, stack: nat): Proc { Proc(pid, stack, stack + 16384 - FRAME, READY) }

  /** A new process goes right after the current one. */
  function Insert<T>(xs: seq<T>, x: T): seq<T>
  {
    if xs == [] then [x] else [xs[0], x] + xs[1..]
  }

  function Create(s: Sys, pid: nat, entry: u64, cs: u64, stack: nat): Sys
    requires stack + 16384 < W64
  {
    s.(mem := PushAll(s.mem, stack + 16384, FakeFrame(entry, cs, stack + 16384)),
       procs := Insert(s.procs, NewProc(pid, stack)))
  }

  /** kmalloc gives a block that no process has, and the pid is new. */
  ghost predicate CanCreate(s: Sys, pid: nat, stack: nat)
  {
    && stack + 16384 < W64
    && forall i :: 0 <= i < |s.procs| ==> Apart(s.procs[i], NewProc(pid, stack))
  }

  lemma ZerosComplete()
    ensures AllRegs(ZEROS) && forall r: Reg :: r in ZEROS ==> ZEROS[r] == 0
  {
    forall r: Reg
      ensures r in ZEROS && ZEROS[r] == 0
    {
      var i := EveryRegPopped(r);
    }
  }

  lemma FreshFrame(mem: Memory, entry: u64, cs: u64, top: u64)
    requires FRAME <= top
    ensures FrameAt(PushAll(mem, top, FakeFrame(entry, cs, top)), top - FRAME, Fresh(entry, cs, top))
  {
    var m, c := PushAll(mem, top, FakeFrame(entry, cs, top)), Fresh(entry, cs, top);
    ZerosComplete();
    forall k: nat | k < 20
      ensures Read(m, top - FRAME + 8 * k) == FrameWord(c, k)
    {
      PushedAt(mem, top, FakeFrame(entry, cs, top), 19 - k);
    }
  }

  /** Where create puts the process that was at index i. */
  function After(i: nat): nat { if i == 0 then 0 else i + 1 }

  lemma CreateMemory(s: Sys, pid: nat, entry: u64, cs: u64, stack: nat, lo: nat, hi: nat)
    requires CanCreate(s, pid, stack) && (hi <= stack || stack + 16384 <= lo)
    ensures Agree(s.mem, Create(s, pid, entry, cs, stack).mem, lo, hi)
  {
    forall a: nat | lo <= a < hi
      ensures (a in s.mem <==> a in Create(s, pid, entry, cs, stack).mem)
      ensures Read(s.mem, a) == Read(Create(s, pid, entry, cs, stack).mem, a)
    {
      PushedOutside(s.mem, stack + 16384, FakeFrame(entry, cs, stack + 16384), a);
    }
  }

  /** Creating a process changes no other. */
  lemma CreateOthers(s: Sys, pid: nat, entry: u64, cs: u64, stack: nat, i: nat)
    requires Inv(s) && CanCreate(s, pid, stack) && i < |s.procs|
    ensures After(i) < |Create(s, pid, entry, cs, stack).procs|
    ensures Create(s, pid, entry, cs, stack).procs[After(i)] == s.procs[i]
    ensures ViewAt(Create(s, pid, entry, cs, stack), After(i)) == ViewAt(s, i)
  {
    var s', p := Create(s, pid, entry, cs, stack), s.procs[i];
    assert s'.procs[After(i)] == p;
    assert Apart(p, NewProc(pid, stack));
    CreateMemory(s, pid, entry, cs, stack, p.stack, p.Top());
    if i == 0 && s.running {
      WordsKept(s.mem, s'.mem, p, p, s.cpu.rsp);
    } else {
      ParkedView(s, i, s', After(i));
    }
  }

  function NewIndex(s: Sys): nat { if s.procs == [] then 0 else 1 }

  lemma CreateInv(s: Sys, pid: nat, entry: u64, cs: u64, stack: nat)
    requires Inv(s) && CanCreate(s, pid, stack)
    ensures Inv(Create(s, pid, entry, cs, stack))
  {
    var s' := Create(s, pid, entry, cs, stack);
    var n := NewProc(pid, stack);
    forall i, j | 0 <= i < j < |s'.procs|
      ensures Apart(s'.procs[i], s'.procs[j])
    {
      assert i == 0 && j == 1 && s.procs != [] ==> Apart(s.procs[0], n);
      assert i == 1 ==> Apart(s.procs[j - 1], n);
      assert i == 0 && 1 < j ==> Apart(s.procs[0], s.procs[j - 1]);
      assert 1 < i ==> Apart(s.procs[i - 1], s.procs[j - 1]);
    }
  }

  /** A new process starts at its entry with zeroed registers and an empty stack. */
  lemma CreateFresh(s: Sys, pid: nat, entry: u64, cs: u64, stack: nat)
    requires CanCreate(s, pid, stack) && (s.running ==> s.procs != [])
    ensures NewIndex(s) < |Create(s, pid, entry, cs, stack).procs|
    ensures ViewAt(Create(s, pid, entry, cs, stack), NewIndex(s)) == View(Fresh(entry, cs, stack + 16384), map[])
    ensures Starting(ViewAt(Create(s, pid, entry, cs, stack), NewIndex(s)).ctx, entry, stack)
  {
    FreshStarts(entry, cs, stack);
    var s', top := Create(s, pid, entry, cs, stack), stack + 16384;
    FreshFrame(s.mem, entry, cs, top);
    LoadedFrame(map[], s'.mem, top - FRAME, Fresh(entry, cs, top));
  }

  /** start_scheduling: the current process is loaded from its frame. */
  function Begin(s: Sys, clobbered: Gpr): Sys
    requires s.procs != []
  {
    Sys(LoadFrame(clobbered, s.mem, s.procs[0].rsp), s.mem, s.procs[0 := s.procs[0].(state := RUNNING)], true)
  }

  lemma BeginTransparent(s: Sys, clobbered: Gpr, i: nat)
    requires Inv(s) && !s.running && i < |s.procs|
    ensures Inv(Begin(s, clobbered)) && ViewAt(Begin(s, clobbered), i) == ViewAt(s, i)
  {
    var s' := Begin(s, clobbered);
    FrameOfMemory(s.mem, s.procs[0].rsp);
    LoadedFrame(clobbered, s.mem, s.procs[0].rsp, LoadFrame(map[], s.mem, s.procs[0].rsp));
    forall j, k | 0 <= j < k < |s'.procs|
      ensures Apart(s'.procs[j], s'.procs[k])
    {
      assert Apart(s.procs[j], s.procs[k]);
    }
    ParkedView(s, i, s', i);
  }

  // ---- Processes by pid --------------------------------------------------------------------------

  function Order(procs: seq<Proc>): seq<nat> { seq(|procs|, i requires 0 <= i < |procs| => procs[i].pid) }

  /** Process pid has this view. */
  ghost predicate Has(s: Sys, pid: nat, v: View)
  {
    exists i: nat :: i < |s.procs| && s.procs[i].pid == pid && ViewAt(s, i) == v
  }

  lemma HasAt(s: Sys, i: nat, pid: nat, v: View)
    requires i < |s.procs| && s.procs[i].pid == pid && ViewAt(s, i) == v
    ensures Has(s, pid, v)
  {
  }

  lemma SamePid(s: Sys, i: nat, j: nat)
    requires Inv(s) && i < |s.procs| && j < |s.procs| && s.procs[i].pid == s.procs[j].pid
    ensures i == j
  {
    assert i < j ==> Apart(s.procs[i], s.procs[j]);
    assert j < i ==> Apart(s.procs[j], s.procs[i]);
  }

  /** The current process has the view at index 0 and no other. */
  lemma HasCurrent(s: Sys, pid: nat, v: View)
    requires Inv(s) && s.procs != [] && s.procs[0].pid == pid && Has(s, pid, v)
    ensures v == ViewAt(s, 0)
  {
    var i: nat :| i < |s.procs| && s.procs[i].pid == pid && ViewAt(s, i) == v;
    SamePid(s, i, 0);
  }

  // ---- Timer interrupts before start_scheduling ------------------------------------------------

  /** A timer interrupt without processes: everything is saved below the stack pointer and
      loaded again. */
  function Idle(s: Sys, scratch: Memory): Sys
    requires AllRegs(s.cpu.gpr) && FRAME <= Align16(s.cpu.rsp)
  {
    s.(mem := SaveFrame(s.mem, s.cpu) + scratch)
  }

  /** The timer stub, with or without processes. */
  function Timer(s: Sys, scratch: Memory, clobbered: Gpr): Sys
    requires AllRegs(s.cpu.gpr) && FRAME <= Align16(s.cpu.rsp)
  {
    if s.procs == [] then Idle(s, scratch) else Tick(s, scratch, clobbered)
  }

  /** Room on the stack of the boot code. */
  ghost predicate BootReady(s: Sys, scratch: Memory)
  {
    && AllRegs(s.cpu.gpr) && FRAME <= Align16(s.cpu.rsp)
    && forall a :: a in scratch ==> a < FramePointer(s.cpu)
  }

  /** An early tick parks the boot code in the place of the first process. */
  lemma EarlyTickParksBoot(s: Sys, scratch: Memory, clobbered: Gpr)
    requires BootReady(s, scratch) && !s.running && s.procs != []
    ensures var s', last := Timer(s, scratch, clobbered), |s.procs| - 1;
            && |s'.procs| == |s.procs| && s'.procs[last].pid == s.procs[0].pid
            && Ctx(s', last) == s.cpu
  {
    var s', sp := Tick(s, scratch, clobbered), FramePointer(s.cpu);
    SwitchAt(s.procs, sp, |s.procs| - 1);
    SavedFrame(s.mem, s.cpu);
    FrameKept(SaveFrame(s.mem, s.cpu), s'.mem, sp, s.cpu);
    LoadedFrame(map[], s'.mem, sp, s.cpu);
  }

  /** Some process is left without the registers and the stack it had. */
  ghost predicate Loses(s: Sys, s': Sys)
  {
    exists pid, v :: Has(s, pid, v) && !Has(s', pid, v)
  }

  /** A timer interrupt before start_scheduling, at an instruction that is not the first
      process's entry: a process is lost if and only if there is one. */
  lemma EarlyTick(s: Sys, scratch: Memory, clobbered: Gpr)
    requires Inv(s) && BootReady(s, scratch) && !s.running
    requires s.procs != [] ==> Ctx(s, 0).rip != s.cpu.rip
    ensures Loses(s, Timer(s, scratch, clobbered)) <==> s.procs != []
  {
    if s.procs != [] {
      var s', pid, v := Timer(s, scratch, clobbered), s.procs[0].pid, ViewAt(s, 0);
      EarlyTickParksBoot(s, scratch, clobbered);
      HasAt(s, 0, pid, v);
      forall j: nat | j < |s'.procs| && s'.procs[j].pid == pid
        ensures ViewAt(s', j) != v
      {
        SwitchAt(s.procs, FramePointer(s.cpu), j);
        SamePid(s, Before(|s.procs|, j), 0);
      }
      assert Has(s, pid, v) && !Has(s', pid, v);
    }
  }

  /** The case at hand: a tick after the first create_process, outside that process's entry. */
  lemma EarlyTickAfterCreate(s: Sys, scratch: Memory, clobbered: Gpr, pid: nat, entry: u64, cs: u64, stack: nat)
    requires Inv(s) && BootReady(s, scratch) && !s.running && s.procs == []
    requires stack + 16384 < W64 && s.cpu.rip != entry
    ensures var c, first := Create(s, pid, entry, cs, stack), Fresh(entry, cs, stack + 16384);
            |c.procs| == 1 && Ctx(c, 0) == first
            && |Timer(c, scratch, clobbered).procs| == 1 && Ctx(Timer(c, scratch, clobbered), 0) != first
  {
    var c := Create(s, pid, entry, cs, stack);
    CreateFresh(s, pid, entry, cs, stack);
    assert ViewAt(c, 0).ctx == Ctx(c, 0);
    EarlyTickParksBoot(c, scratch, clobbered);
  }
}
