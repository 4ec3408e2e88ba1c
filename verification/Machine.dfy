/** The CPU state that an interrupt saves and iretq restores, and the stack words in
    between, in the order of the timer stub. */
module Machine {
  import opened Words

  datatype Reg = RAX | RBX | RCX | RDX | RSI | RDI | RBP | R8 | R9 | R10 | R11 | R12 | R13 | R14 | R15

  /** The 15 general registers other than rsp. */
  type Gpr = map<Reg, u64>

  ghost predicate AllRegs(g: Gpr) { forall r: Reg :: r in g }

  datatype Context = Context(gpr: Gpr, rip: u64, cs: u64, rflags: u64, rsp: u64, ss: u64)

  /** 8-byte words by address; a word that was never written reads as 0. */
  type Memory = map<nat, u64>

  function Read(mem: Memory, a: nat): u64 { if a in mem then mem[a] else 0 }

  /** The pushes of the timer stub, in program order. */
  const PUSH_ORDER: seq<Reg> := [RBP, RAX, RBX, RCX, RDX, RSI, RDI, R8, R9, R10, R11, R12, R13, R14, R15]

  /** The pops of the timer stub, and of start_scheduling, in program order. */
  const POP_ORDER: seq<Reg> := [R15, R14, R13, R12, R11, R10, R9, R8, RDI, RSI, RDX, RCX, RBX, RAX, RBP]

  /** Bytes of a whole frame: five words from the CPU, fifteen from the stub. */
  const FRAME: nat := 160

  /** Delivering an interrupt in 64-bit mode first aligns the stack to 16 bytes. */
  function Align16(sp: nat): nat { sp - sp % 16 }

  // ---- Pushing and popping -----------------------------------------------------------------

  /** Memory after pushing values one after the other from stack pointer sp. */
  function PushAll(mem: Memory, sp: nat, values: seq<u64>): Memory
    requires 8 * |values| <= sp
    decreases |values|, sp
  {
    if values == [] then mem else PushAll(mem[sp - 8 := values[0]], sp - 8, values[1..])
  }

  /** Registers after popping into the given ones, in order, from sp. */
  function PopAll(g: Gpr, mem: Memory, sp: nat, order: seq<Reg>): Gpr
    decreases |order|, sp
  {
    if order == [] then g else PopAll(g[order[0] := Read(mem, sp)], mem, sp + 8, order[1..])
  }

  lemma {:induction false} PushedAt(mem: Memory, sp: nat, values: seq<u64>, i: nat)
    requires 8 * |values| <= sp && i < |values|
    ensures Read(PushAll(mem, sp, values), sp - 8 * (i + 1)) == values[i]
    decreases |values|
  {
    if i == 0 {
      PushedOutside(mem[sp - 8 := values[0]], sp - 8, values[1..], sp - 8);
    } else {
      PushedAt(mem[sp - 8 := values[0]], sp - 8, values[1..], i - 1);
    }
  }

  lemma {:induction false} PushedOutside(mem: Memory, sp: nat, values: seq<u64>, a: nat)
    requires 8 * |values| <= sp
    requires a < sp - 8 * |values| || sp <= a
    ensures Read(PushAll(mem, sp, values), a) == Read(mem, a)
    ensures a in PushAll(mem, sp, values) <==> a in mem
    decreases |values|
  {
    if values != [] {
      PushedOutside(mem[sp - 8 := values[0]], sp - 8, values[1..], a);
    }
  }

  lemma {:induction false} PushAllAppend(mem: Memory, sp: nat, xs: seq<u64>, y: u64)
    requires 8 * (|xs| + 1) <= sp
    ensures PushAll(mem, sp, xs + [y]) == PushAll(mem, sp, xs)[sp - 8 * (|xs| + 1) := y]
    decreases |xs|
  {
    if xs == [] {
      assert PushAll(mem, sp, [y]) == PushAll(mem[sp - 8 := y], sp - 8, []);
    } else {
      assert (xs + [y])[1..] == xs[1..] + [y];
      PushAllAppend(mem[sp - 8 := xs[0]], sp - 8, xs[1..], y);
    }
  }

  ghost predicate Distinct(order: seq<Reg>)
  {
    forall i, j :: 0 <= i < j < |order| ==> order[i] != order[j]
  }

  lemma {:induction false} PoppedAt(g: Gpr, mem: Memory, sp: nat, order: seq<Reg>, i: nat)
    requires Distinct(order) && i < |order|
    ensures order[i] in PopAll(g, mem, sp, order)
    ensures PopAll(g, mem, sp, order)[order[i]] == Read(mem, sp + 8 * i)
    decreases |order|
  {
    var g' := g[order[0] := Read(mem, sp)];
    if i == 0 {
      PoppedOther(g', mem, sp + 8, order[1..], order[0]);
    } else {
      PoppedAt(g', mem, sp + 8, order[1..], i - 1);
    }
  }

  lemma {:induction false} PoppedOther(g: Gpr, mem: Memory, sp: nat, order: seq<Reg>, r: Reg)
    requires r !in order && r in g
    ensures r in PopAll(g, mem, sp, order) && PopAll(g, mem, sp, order)[r] == g[r]
    decreases |order|
  {
    if order != [] {
      PoppedOther(g[order[0] := Read(mem, sp)], mem, sp + 8, order[1..], r);
    }
  }

  lemma {:induction false} PopAllAppend(g: Gpr, mem: Memory, sp: nat, order: seq<Reg>, r: Reg)
    ensures PopAll(g, mem, sp, order + [r]) == PopAll(g, mem, sp, order)[r := Read(mem, sp + 8 * |order|)]
    decreases |order|
  {
    if order == [] {
      assert [] + [r] == [r];
    } else {
      assert (order + [r])[1..] == order[1..] + [r];
      PopAllAppend(g[order[0] := Read(mem, sp)], mem, sp + 8, order[1..], r);
    }
  }

  // ---- Frames ---------------------------------------------------------------------------------

  /** What the CPU pushes when an interrupt arrives. */
  function HardwarePushes(c: Context): seq<u64> { [c.ss, c.rsp, c.rflags, c.cs, c.rip] }

  function RegValues(g: Gpr, order: seq<Reg>): (r: seq<u64>)
    requires AllRegs(g)
    ensures |r| == |order|
  {
    seq(|order|, i requires 0 <= i < |order| => g[order[i]])
  }

  /** What the stub pushes after that. */
  function StubPushes(g: Gpr): (r: seq<u64>)
    requires AllRegs(g)
    ensures |r| == 15
  {
    RegValues(g, PUSH_ORDER)
  }

  function SaveFrame(mem: Memory, c: Context): Memory
    requires AllRegs(c.gpr) && FRAME <= Align16(c.rsp)
  {
    PushAll(PushAll(mem, Align16(c.rsp), HardwarePushes(c)), Align16(c.rsp) - 40, StubPushes(c.gpr))
  }

  /** The stack pointer the stub passes to schedule. */
  function FramePointer(c: Context): nat
    requires FRAME <= Align16(c.rsp)
  {
    Align16(c.rsp) - FRAME
  }

  /** What the pops and iretq load from a frame at sp; g are the registers before. */
  function LoadFrame(g: Gpr, mem: Memory, sp: nat): Context
  {
    Context(PopAll(g, mem, sp, POP_ORDER),
            Read(mem, sp + 120), Read(mem, sp + 128), Read(mem, sp + 136), Read(mem, sp + 144), Read(mem, sp + 152))
  }

  /** Word k of the frame of a context. */
  function FrameWord(c: Context, k: nat): u64
    requires AllRegs(c.gpr) && k < 20
  {
    if k < 15 then c.gpr[POP_ORDER[k]]
    else if k == 15 then c.rip else if k == 16 then c.cs else if k == 17 then c.rflags
    else if k == 18 then c.rsp else c.ss
  }

  ghost predicate FrameAt(mem: Memory, sp: nat, c: Context)
  {
    AllRegs(c.gpr) && forall k: nat {:trigger FrameWord(c, k)} :: k < 20 ==> Read(mem, sp + 8 * k) == FrameWord(c, k)
  }

  /** The pops undo the pushes: the two listings are each other's reverse. */
  lemma PopReversesPush(i: nat)
    requires i < 15
    ensures PUSH_ORDER[i] == POP_ORDER[14 - i]
  {
    assert i == 0 || i == 1 || i == 2 || i == 3 || i == 4 || i == 5 || i == 6 || i == 7
      || i == 8 || i == 9 || i == 10 || i == 11 || i == 12 || i == 13 || i == 14;
  }

  lemma EveryRegPopped(r: Reg) returns (i: nat)
    ensures i < 15 && POP_ORDER[i] == r
  {
    match r
    case R15 => i := 0; case R14 => i := 1; case R13 => i := 2; case R12 => i := 3; case R11 => i := 4;
    case R10 => i := 5; case R9 => i := 6; case R8 => i := 7; case RDI => i := 8; case RSI => i := 9;
    case RDX => i := 10; case RCX => i := 11; case RBX => i := 12; case RAX => i := 13; case RBP => i := 14;
  }

  lemma FrameAligned(sp: nat)
    ensures (sp - sp % 16 - 160) % 16 == 0
  {
  }

  /** The interrupted context lies in a frame on the next 16-byte boundary below rsp. */
  lemma SavedFrame(mem: Memory, c: Context)
    requires AllRegs(c.gpr) && FRAME <= Align16(c.rsp)
    ensures FrameAt(SaveFrame(mem, c), FramePointer(c), c)
    ensures FramePointer(c) % 16 == 0 && c.rsp - 16 < FramePointer(c) + 160 <= c.rsp
  {
    FrameAligned(c.rsp);
    var top := Align16(c.rsp);
    var m1 := PushAll(mem, top, HardwarePushes(c));
    var m2 := SaveFrame(mem, c);
    forall k: nat | k < 20
      ensures Read(m2, top - FRAME + 8 * k) == FrameWord(c, k)
    {
      if k < 15 {
        PushedAt(m1, top - 40, StubPushes(c.gpr), 14 - k);
        PopReversesPush(14 - k);
      } else {
        PushedOutside(m1, top - 40, StubPushes(c.gpr), top - FRAME + 8 * k);
        PushedAt(mem, top, HardwarePushes(c), 19 - k);
      }
    }
  }

  /** Saving touches only the 160 bytes below the aligned stack pointer. */
  lemma SaveOutside(mem: Memory, c: Context, a: nat)
    requires AllRegs(c.gpr) && FRAME <= Align16(c.rsp)
    requires a < FramePointer(c) || Align16(c.rsp) <= a
    ensures Read(SaveFrame(mem, c), a) == Read(mem, a)
    ensures a in SaveFrame(mem, c) <==> a in mem
  {
    PushedOutside(mem, Align16(c.rsp), HardwarePushes(c), a);
    PushedOutside(PushAll(mem, Align16(c.rsp), HardwarePushes(c)), Align16(c.rsp) - 40, StubPushes(c.gpr), a);
  }

  /** Loading a frame gives back its context, whatever the registers were before. */
  lemma LoadedFrame(g: Gpr, mem: Memory, sp: nat, c: Context)
    requires FrameAt(mem, sp, c)
    ensures LoadFrame(g, mem, sp) == c
  {
    PoppedGpr(g, mem, sp, c);
    assert FrameWord(c, 15) == c.rip && FrameWord(c, 16) == c.cs && FrameWord(c, 17) == c.rflags;
    assert FrameWord(c, 18) == c.rsp && FrameWord(c, 19) == c.ss;
  }

  lemma PoppedGpr(g: Gpr, mem: Memory, sp: nat, c: Context)
    requires FrameAt(mem, sp, c)
    ensures PopAll(g, mem, sp, POP_ORDER) == c.gpr
  {
    var got := PopAll(g, mem, sp, POP_ORDER);
    forall r: Reg
      ensures r in got && got[r] == c.gpr[r]
    {
      PoppedReg(g, mem, sp, c, r);
    }
  }

  lemma PoppedReg(g: Gpr, mem: Memory, sp: nat, c: Context, r: Reg)
    requires FrameAt(mem, sp, c)
    ensures r in PopAll(g, mem, sp, POP_ORDER) && PopAll(g, mem, sp, POP_ORDER)[r] == c.gpr[r]
  {
    var i := EveryRegPopped(r);
    PopOrderDistinct();
    PoppedAt(g, mem, sp, POP_ORDER, i);
    var w := FrameWord(c, i);
  }

  lemma PopOrderDistinct()
    ensures Distinct(POP_ORDER) && |POP_ORDER| == 15
  {
  }

  /** Every 160 bytes of memory are the frame of some context: the one they load as. */
  lemma FrameOfMemory(mem: Memory, sp: nat)
    ensures FrameAt(mem, sp, LoadFrame(map[], mem, sp))
  {
    var c := LoadFrame(map[], mem, sp);
    PopOrderDistinct();
    forall r: Reg
      ensures r in c.gpr
    {
      var i := EveryRegPopped(r);
      PoppedAt(map[], mem, sp, POP_ORDER, i);
    }
    forall k: nat | k < 20
      ensures Read(mem, sp + 8 * k) == FrameWord(c, k)
    {
      if k < 15 {
        PoppedAt(map[], mem, sp, POP_ORDER, k);
      }
    }
  }

  /** Frames with the same words hold the same context. */
  lemma FrameKept(mem: Memory, mem': Memory, sp: nat, c: Context)
    requires FrameAt(mem, sp, c)
    requires forall a :: sp <= a < sp + FRAME ==> Read(mem', a) == Read(mem, a)
    ensures FrameAt(mem', sp, c)
  {
    forall k: nat | k < 20
      ensures Read(mem', sp + 8 * k) == FrameWord(c, k)
    {
      assert Read(mem', sp + 8 * k) == Read(mem, sp + 8 * k);
    }
  }
}
