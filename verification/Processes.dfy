/** Processes as the kernel keeps them: a circular list of records, the fake first frame,
    and the timer stub on the registers and the stack of one CPU. */
module Processes {
  import opened Words
  import opened Machine
  import opened Scheduling

  /** The ring after schedule. */
  ghost function Turned<T>(ring: seq<T>): seq<T> { if ring == [] then [] else Rotate(ring) }

  /** State t is what loading the frame at sp leads to. */
  ghost predicate Loading(t: Sys, mem: Memory, procs: seq<Proc>, sp: nat, running: bool)
  {
    t.mem == mem && t.procs == procs && t.running == running && t.cpu == LoadFrame(map[], mem, sp)
  }

  /** Saving the context and switching stacks leaves the frame of the tick to be loaded. */
  lemma TimerLoads(s: Sys, scratch: Memory, t: Sys, mem: Memory, procs: seq<Proc>, sp: nat)
    requires AllRegs(s.cpu.gpr) && FRAME <= Align16(s.cpu.rsp)
    requires forall a :: a in scratch ==> a < FramePointer(s.cpu)
    requires t == Timer(s, scratch, map[]) && mem == SaveFrame(s.mem, s.cpu) + scratch
    requires if s.procs == [] then procs == [] && sp == FramePointer(s.cpu)
             else procs == Switch(s.procs, FramePointer(s.cpu)) && sp == procs[0].rsp
    ensures Loading(t, mem, procs, sp, s.running)
  {
    if s.procs == [] {
      SavedFrame(s.mem, s.cpu);
      FrameKept(SaveFrame(s.mem, s.cpu), mem, sp, s.cpu);
      LoadedFrame(map[], mem, sp, s.cpu);
    }
  }

  class Process {
    var rsp: u64
    var stack: nat
    var cr3: nat
    var pid: nat
    var state: ProcState
    var next: Process?

    constructor (rsp: u64, stack: nat, pid: nat)
      ensures this.rsp == rsp && this.stack == stack && this.pid == pid && state == READY && next == null
    {
      this.rsp, this.stack, this.pid := rsp, stack, pid;
      cr3, state, next := 0, READY, null;
    }

    function Value(): Proc
      reads this
    {
      Proc(pid, stack, rsp, state)
    }
  }

  /** `mov al, b` */
  function WithLowByte(w: nat, b: u8): u64
    requires w < W64
  {
    w - w % 256 + b
  }

  ghost function Values(ring: seq<Process>): (r: seq<Proc>)
    reads ring
    ensures |r| == |ring| && forall i :: 0 <= i < |ring| ==> r[i] == ring[i].Value()
  {
    seq(|ring|, i requires 0 <= i < |ring| reads ring => ring[i].Value())
  }

  ghost predicate Recorded(ring: seq<Process>, records: set<Process>)
  {
    forall i :: 0 <= i < |ring| ==> ring[i] in records
  }

  ghost predicate NoRepeats(ring: seq<Process>)
  {
    forall i, j :: 0 <= i < j < |ring| ==> ring[i] != ring[j]
  }

  /** Each next pointer leads to the process that follows, and the last to the first. */
  ghost predicate Chained(ring: seq<Process>)
    reads ring
  {
    forall i {:trigger ring[i].next} :: 0 <= i < |ring| ==> ring[i].next == ring[Before(|ring|, i)]
  }

  ghost predicate PidsBelow(ring: seq<Process>, bound: nat)
    reads ring
  {
    forall i :: 0 <= i < |ring| ==> ring[i].pid < bound
  }

  class Kernel {
    // The CPU.
    var gpr: Gpr
    var rsp: nat
    var rip: u64
    var cs: u64
    var rflags: u64
    var ss: u64
    var mem: Memory
    // The statics of process.cpp and the tick counter.
    var current: Process?
    var nextPid: nat
    var timerTicks: u32
    /** The circular list, from current on. */
    ghost var ring: seq<Process>
    /** start_scheduling has happened. */
    ghost var running: bool
    /** The records of the processes. */
    ghost var records: set<Process>

    /** The statics before any process exists, on a CPU that runs the boot code. */
    constructor (cpu: Context, mem: Memory)
      ensures Linked() && ring == [] && records == {} && nextPid == 0 && !running
      ensures rsp == cpu.rsp && Abstract() == Sys(cpu, mem, [], false)
    {
      gpr, rip, cs, rflags, rsp, ss := cpu.gpr, cpu.rip, cpu.cs, cpu.rflags, cpu.rsp, cpu.ss;
      this.mem := mem;
      current, nextPid, timerTicks := null, 0, 0;
      ring, running, records := [], false, {};
    }

    ghost predicate Linked()
      reads `current, `nextPid, `ring, `records, ring
    {
      && (current == null <==> ring == []) && Recorded(ring, records)
      && (ring != [] ==> ring[0] == current)
      && NoRepeats(ring) && Chained(ring) && PidsBelow(ring, nextPid)
    }

    ghost function Procs(): seq<Proc>
      reads `ring, ring
    {
      Values(ring)
    }

    /** Every process has a pid below the next one. */
    lemma PidIsNew()
      requires Linked()
      ensures forall i :: 0 <= i < |Procs()| ==> Procs()[i].pid < nextPid
    {
    }

    ghost function Cpu(): Context
      reads `gpr, `rip, `cs, `rflags, `rsp, `ss
      requires rsp < W64
    {
      Context(gpr, rip, cs, rflags, rsp, ss)
    }

    ghost function Abstract(): Sys
      reads this, ring
      requires rsp < W64
    {
      Sys(Cpu(), mem, Procs(), running)
    }

    // ---- Instructions --------------------------------------------------------------------------

    /** `push` for each value in turn. */
    method Push(values: seq<u64>)
      requires 8 * |values| <= rsp
      modifies `rsp, `mem
      ensures rsp == old(rsp) - 8 * |values| && mem == PushAll(old(mem), old(rsp), values)
    {
      for i := 0 to |values|
        invariant rsp == old(rsp) - 8 * i && mem == PushAll(old(mem), old(rsp), values[..i])
      {
        PushAllAppend(old(mem), old(rsp), values[..i], values[i]);
        assert values[..i + 1] == values[..i] + [values[i]];
        rsp := rsp - 8;
        mem := mem[rsp := values[i]];
      }
      assert values[..|values|] == values;
    }

    /** `push` for each register of the listing. */
    method PushRegs(order: seq<Reg>)
      requires AllRegs(gpr) && 8 * |order| <= rsp
      modifies `rsp, `mem
      ensures rsp == old(rsp) - 8 * |order|
      ensures mem == PushAll(old(mem), old(rsp), RegValues(gpr, order))
    {
      ghost var values := RegValues(gpr, order);
      for i := 0 to |order|
        invariant rsp == old(rsp) - 8 * i && mem == PushAll(old(mem), old(rsp), values[..i])
      {
        PushAllAppend(old(mem), old(rsp), values[..i], values[i]);
        assert values[..i + 1] == values[..i] + [values[i]];
        rsp := rsp - 8;
        mem := mem[rsp := gpr[order[i]]];
      }
      assert values[..|order|] == values;
    }

    /** `pop` for each register of the listing. */
    method PopRegs(order: seq<Reg>)
      modifies `rsp, `gpr
      ensures rsp == old(rsp) + 8 * |order| && gpr == PopAll(old(gpr), mem, old(rsp), order)
    {
      for i := 0 to |order|
        invariant rsp == old(rsp) + 8 * i && gpr == PopAll(old(gpr), mem, old(rsp), order[..i])
      {
        PopAllAppend(old(gpr), mem, old(rsp), order[..i], order[i]);
        assert order[..i + 1] == order[..i] + [order[i]];
        gpr := gpr[order[i] := Read(mem, rsp)];
        rsp := rsp + 8;
      }
      assert order[..|order|] == order;
    }

    method Iretq()
      modifies `rip, `cs, `rflags, `rsp, `ss
      ensures rip == Read(mem, old(rsp)) && cs == Read(mem, old(rsp) + 8) && rflags == Read(mem, old(rsp) + 16)
      ensures rsp == Read(mem, old(rsp) + 24) && ss == Read(mem, old(rsp) + 32)
    {
      rip, cs, rflags := Read(mem, rsp), Read(mem, rsp + 8), Read(mem, rsp + 16);
      rsp, ss := Read(mem, rsp + 24), Read(mem, rsp + 32);
    }

    /** The pops and the iretq that end both the stub and start_scheduling. */
    method Resume()
      requires Linked()
      modifies `gpr, `rip, `cs, `rflags, `rsp, `ss
      ensures Linked() && Procs() == old(Procs())
      ensures rsp < W64 && Cpu() == LoadFrame(old(gpr), mem, old(rsp)) == LoadFrame(map[], mem, old(rsp))
    {
      ghost var g, sp := gpr, rsp;
      PopAndReturn(POP_ORDER);
      AnyRegisters(g, map[], mem, sp);
    }

    method PopAndReturn(order: seq<Reg>)
      requires |order| == 15
      modifies `gpr, `rip, `cs, `rflags, `rsp, `ss
      ensures gpr == PopAll(old(gpr), mem, old(rsp), order)
      ensures rip == Read(mem, old(rsp) + 120) && cs == Read(mem, old(rsp) + 128)
      ensures rflags == Read(mem, old(rsp) + 136)
      ensures rsp == Read(mem, old(rsp) + 144) && ss == Read(mem, old(rsp) + 152)
    {
      PopRegs(order);
      Iretq();
    }

    // ---- process.cpp -----------------------------------------------------------------------------------

    /** Saves the interrupted process, makes the next one current and returns its stack
        pointer. Without processes the given stack pointer comes back. */
    method Schedule(sp: u64) returns (next: u64)
      requires Linked()
      modifies `timerTicks, `current, `ring, ring
      ensures Linked() && timerTicks == (old(timerTicks) + 1) % 0x1_0000_0000
      ensures ring == Turned(old(ring))
      ensures if ring == [] then next == sp
              else Procs() == Switch(old(Procs()), sp) && next == Procs()[0].rsp
    {
      timerTicks := (timerTicks + 1) % 0x1_0000_0000;
      if current == null {
        return sp;
      }
      SaveCurrent(sp);
      Advance();
      next := current.rsp;
    }

    /** `current->rsp = rsp; current->state = READY` */
    method SaveCurrent(sp: u64)
      requires Linked() && current != null
      modifies ring
      ensures Linked() && Procs() == old(Procs())[0 := old(Procs())[0].(rsp := sp, state := READY)]
    {
      current.rsp := sp;
      current.state := READY;
    }

    /** `current = current->next; current->state = RUNNING` */
    method Advance()
      requires Linked() && current != null
      modifies `current, `ring, ring
      ensures Linked() && current != null && ring == Rotate(old(ring))
      ensures Procs() == Rotate(old(Procs()))[0 := Rotate(old(Procs()))[0].(state := RUNNING)]
    {
      assert ring[0].next == ring[Before(|ring|, 0)];
      ghost var before := ring;
      current := current.next;
      current.state := RUNNING;
      ring := Rotate(ring);
      RotatedLinks(before);
    }

    /** The links of a ring are those of the same ring one turn on. */
    lemma RotatedLinks(before: seq<Process>)
      requires before != [] && ring == before[1..] + [before[0]]
      requires Chained(before)
      ensures Chained(ring)
    {
      forall i | 0 <= i < |ring|
        ensures ring[i].next == ring[Before(|ring|, i)]
      {
        var k := Before(|before|, i);
        assert ring[i] == before[k];
        assert before[k].next == before[Before(|before|, k)];
      }
    }

    /** interrupt_stub_timer, from the arrival of the interrupt to iretq. scratch is what
        schedule leaves on the stack below the frame, clobbered the registers it returns with. */
    method InterruptStubTimer(scratch: Memory, clobbered: Gpr)
      requires Linked() && AllRegs(gpr) && rsp < W64 && FRAME <= Align16(rsp)
      requires forall a :: a in scratch ==> a < Align16(rsp) - FRAME
      requires RAX in clobbered
      modifies this, ring
      ensures Linked() && rsp < W64 && ring == Turned(old(ring))
      ensures nextPid == old(nextPid) && records == old(records)
      ensures Abstract() == Timer(old(Abstract()), scratch, map[])
    {
      ghost var t := Timer(Abstract(), scratch, map[]);
      SaveAndSwitch(scratch, clobbered, t);
      Load(t);
    }

    /** The stub from the pops on. */
    method Load(ghost t: Sys)
      requires Linked() && Loading(t, mem, Procs(), rsp, running)
      modifies `gpr, `rip, `cs, `rflags, `rsp, `ss
      ensures Linked() && rsp < W64 && Abstract() == t
    {
      Resume();
    }

    /** The stub up to the pops: what is left is to load the frame. */
    method SaveAndSwitch(scratch: Memory, clobbered: Gpr, ghost t: Sys)
      requires Linked() && AllRegs(gpr) && rsp < W64 && FRAME <= Align16(rsp)
      requires forall a :: a in scratch ==> a < Align16(rsp) - FRAME
      requires RAX in clobbered && t == Timer(Abstract(), scratch, map[])
      modifies `timerTicks, `current, `ring, `mem, `gpr, `rsp, ring
      ensures Linked() && ring == Turned(old(ring)) && Loading(t, mem, Procs(), rsp, running)
    {
      ghost var s := Abstract();
      SaveInterrupted();
      CallSchedule(scratch, clobbered);
      TimerLoads(s, scratch, t, mem, Procs(), rsp);
    }

    /** From `mov rdi, rsp` to the end-of-interrupt byte. */
    method CallSchedule(scratch: Memory, clobbered: Gpr)
      requires Linked() && RAX in clobbered
      requires rsp < W64
      modifies `timerTicks, `current, `ring, `mem, `gpr, `rsp, ring
      ensures Linked() && mem == old(mem) + scratch
      ensures ring == Turned(old(ring))
      ensures if ring == [] then rsp == old(rsp)
              else Procs() == Switch(old(Procs()), old(rsp)) && rsp == Procs()[0].rsp
    {
      var next := Schedule(rsp);
      SwitchStack(next, scratch, clobbered);
    }

    /** `mov rsp, rax`, and al for the end-of-interrupt byte. */
    method SwitchStack(next: u64, scratch: Memory, clobbered: Gpr)
      requires Linked() && RAX in clobbered
      modifies `mem, `gpr, `rsp
      ensures Linked() && Procs() == old(Procs()) && mem == old(mem) + scratch && rsp == next
    {
      mem := mem + scratch;
      gpr := clobbered[RAX := WithLowByte(next, 0x20)];
      rsp := next;
    }

    /** The CPU delivers the interrupt, and the stub pushes the registers. */
    method SaveInterrupted()
      requires AllRegs(gpr) && rsp < W64 && FRAME <= Align16(rsp)
      modifies `rsp, `mem
      ensures rsp < W64 && rsp == FramePointer(old(Cpu())) && mem == SaveFrame(old(mem), old(Cpu()))
    {
      var interrupted: u64 := rsp;
      rsp := Align16(rsp);
      Push([ss, interrupted, rflags, cs, rip]);
      PushRegs(PUSH_ORDER);
    }

    /** What the registers were before the pops does not matter. */
    lemma AnyRegisters(g: Gpr, h: Gpr, mem: Memory, sp: nat)
      ensures LoadFrame(g, mem, sp) == LoadFrame(h, mem, sp)
    {
      FrameOfMemory(mem, sp);
      LoadedFrame(g, mem, sp, LoadFrame(map[], mem, sp));
      LoadedFrame(h, mem, sp, LoadFrame(map[], mem, sp));
    }

    /** create_process. proc and stack are the blocks kmalloc returned. */
    method CreateProcess(entry: u64, stack: nat)
      requires Linked() && rsp < W64
      requires 160 <= stack + 16384 < W64
      modifies `mem, `current, `nextPid, `ring, `records, ring
      ensures Linked() && nextPid == old(nextPid) + 1
      ensures fresh(records - old(records))
      ensures Abstract() == Create(old(Abstract()), old(nextPid), entry, cs, stack)
      ensures FrameLaid(mem, entry, cs, stack + 16384)
    {
      FakeFrameLaid(mem, entry, cs, stack + 16384);
      ghost var t := Create(Abstract(), nextPid, entry, cs, stack);
      var stackTop := WriteFakeFrame(entry, stack + 16384);
      AddProcess(stackTop, stack, t);
    }

    /** Makes the record and links it in. */
    method AddProcess(stackTop: u64, stack: nat, ghost t: Sys)
      requires Linked() && rsp < W64
      requires t == Sys(Cpu(), mem, Insert(Procs(), Proc(nextPid, stack, stackTop, READY)), running)
      modifies `current, `nextPid, `ring, `records, ring
      ensures Linked() && nextPid == old(nextPid) + 1
      ensures fresh(records - old(records))
      ensures Abstract() == t
    {
      var proc := NewRecord(stackTop, stack);
      InsertAfterCurrent(proc);
    }

    /** Fills in the record of a process and hands out its pid. */
    method NewRecord(stackTop: u64, stack: nat) returns (proc: Process)
      requires Linked()
      modifies `nextPid
      ensures fresh(proc) && proc.Value() == Proc(old(nextPid), stack, stackTop, READY)
      ensures Linked() && Procs() == old(Procs()) && nextPid == old(nextPid) + 1
    {
      proc := new Process(stackTop, stack, nextPid);
      nextPid := nextPid + 1;
    }

    /** The first frame of a process, from the top of its stack down. */
    method WriteFakeFrame(entry: u64, top: u64) returns (stackTop: u64)
      requires FRAME <= top
      modifies `mem
      ensures stackTop == top - FRAME && mem == PushAll(old(mem), top, FakeFrame(entry, cs, top))
    {
      var frame: seq<u64> := [
        0,      // ss
        top,    // rsp
        0x202,  // rflags
        cs,
        entry,  // rip
        0, 0, 0, 0, 0, 0, 0, 0,     // r15 to r8
        0, 0, 0, 0, 0, 0, 0         // rdi, rsi, rdx, rcx, rbx, rax, rbp
      ];
      assert frame == FakeFrame(entry, cs, top);
      stackTop := StoreBelow(top, frame);
    }

    /** Links a record into the circular list, right after the current one. */
    method InsertAfterCurrent(proc: Process)
      requires Linked() && proc !in ring && proc.pid < nextPid
      modifies `current, `ring, `records, ring, proc
      ensures Linked() && ring == Insert(old(ring), proc) && records == old(records) + {proc}
      ensures Procs() == Insert(old(Procs()), old(proc.Value()))
    {
      if current == null {
        current := proc;
        proc.next := proc;
        ring, records := [proc], records + {proc};
      } else {
        InsertSecond(proc);
      }
    }

    method InsertSecond(proc: Process)
      requires Linked() && current != null && proc !in ring && proc.pid < nextPid
      modifies `ring, `records, ring, proc
      ensures Linked() && ring == Insert(old(ring), proc) && records == old(records) + {proc}
      ensures Procs() == Insert(old(Procs()), old(proc.Value()))
    {
      LinkSecond(proc);
      InsertedChain(ring, proc);
      InsertedValues(ring, proc, records, nextPid);
      ring, records := Insert(ring, proc), records + {proc};
    }

    /** What the records in a ring hold goes on with an insertion. */
    static lemma InsertedValues(before: seq<Process>, proc: Process, records: set<Process>, bound: nat)
      requires before != [] && proc !in before && proc.pid < bound
      requires NoRepeats(before) && PidsBelow(before, bound) && Recorded(before, records)
      ensures var ring := Insert(before, proc);
              NoRepeats(ring) && PidsBelow(ring, bound) && Recorded(ring, records + {proc})
      ensures Values(Insert(before, proc)) == Insert(Values(before), proc.Value())
    {
      var ring := Insert(before, proc);
      assert forall i :: 2 <= i < |ring| ==> ring[i] == before[i - 1];
      assert ring[0] == before[0] && ring[1] == proc;
    }

    /** `proc->next = current->next; current->next = proc` */
    method LinkSecond(proc: Process)
      requires Linked() && current != null && proc !in ring
      modifies ring, proc
      ensures Procs() == old(Procs()) && proc.Value() == old(proc.Value()) && PidsBelow(ring, nextPid)
      ensures ring[0].next == proc && proc.next == ring[Before(|ring|, 0)]
      ensures forall i :: 1 <= i < |ring| ==> ring[i].next == ring[Before(|ring|, i)]
    {
      assert ring[0].next == ring[Before(|ring|, 0)];
      proc.next := current.next;
      current.next := proc;
    }

    /** The links after an insertion: only the first one was redirected. */
    static lemma InsertedChain(before: seq<Process>, proc: Process)
      requires before != [] && before[0].next == proc && proc.next == before[Before(|before|, 0)]
      requires forall i :: 1 <= i < |before| ==> before[i].next == before[Before(|before|, i)]
      ensures Chained(Insert(before, proc))
    {
      var ring := Insert(before, proc);
      forall i | 0 <= i < |ring|
        ensures ring[i].next == ring[Before(|ring|, i)]
      {
        if 2 <= i {
          assert ring[i] == before[i - 1];
        }
      }
    }

    /** `*--stack_top = word` for each word. */
    method StoreBelow(top: nat, words: seq<u64>) returns (p: nat)
      requires 8 * |words| <= top
      modifies `mem
      ensures p == top - 8 * |words| && mem == PushAll(old(mem), top, words)
    {
      p := top;
      for i := 0 to |words|
        invariant p == top - 8 * i && mem == PushAll(old(mem), top, words[..i])
      {
        PushAllAppend(old(mem), top, words[..i], words[i]);
        assert words[..i + 1] == words[..i] + [words[i]];
        p := p - 8;
        mem := mem[p := words[i]];
      }
      assert words[..|words|] == words;
    }

    /** start_scheduling: loads the current process. It must exist. */
    method StartScheduling()
      requires Linked() && current != null && rsp < W64
      modifies this, ring
      ensures Linked() && rsp < W64
      ensures ring == old(ring) && nextPid == old(nextPid) && records == old(records)
      ensures Abstract() == Begin(old(Abstract()), old(gpr))
    {
      ghost var t := Begin(Abstract(), gpr);
      AnyRegisters(gpr, map[], mem, Procs()[0].rsp);
      LoadCurrent();
      Load(t);
    }

    /** `current->state = RUNNING` and the switch to its stack. */
    method LoadCurrent()
      requires Linked() && current != null
      modifies `rsp, `running, ring
      ensures Linked() && running && Procs() == old(Procs())[0 := old(Procs())[0].(state := RUNNING)]
      ensures rsp == Procs()[0].rsp
    {
      current.state := RUNNING;
      rsp := current.rsp;
      running := true;
    }
  }
}
