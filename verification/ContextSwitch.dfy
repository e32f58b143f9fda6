/** The timer interrupt: saving one process, choosing the next, and resuming it. */
module ContextSwitch {
  import opened Wrappers
  import opened Words
  import Scheduler

  /** The fifteen general registers that the handler saves. */
  datatype Registers = Registers(rax: nat, rcx: nat, rdx: nat, rbx: nat, rbp: nat, rsi: nat, rdi: nat,
                                 r8: nat, r9: nat, r10: nat, r11: nat, r12: nat, r13: nat, r14: nat, r15: nat)

  /** The five words of an interrupt frame. */
  datatype InterruptFrame = InterruptFrame(rip: nat, cs: nat, rflags: nat, rsp: nat, ss: nat)

  /** Everything that makes up a running process. */
  datatype Context = Context(regs: Registers, frame: InterruptFrame)

  /** Memory in aligned 64-bit words; words never written are zero. */
  type Memory = map<nat, nat>

  function Read(mem: Memory, a: nat): nat {
    if a in mem then mem[a] else 0
  }

  /** Fifteen registers stored from sp on, the last one pushed first. */
  function LoadRegisters(mem: Memory, sp: nat): Registers {
    Registers(Read(mem, sp + 112), Read(mem, sp + 104), Read(mem, sp + 96), Read(mem, sp + 88), Read(mem, sp + 80),
              Read(mem, sp + 72), Read(mem, sp + 64), Read(mem, sp + 56), Read(mem, sp + 48), Read(mem, sp + 40),
              Read(mem, sp + 32), Read(mem, sp + 24), Read(mem, sp + 16), Read(mem, sp + 8), Read(mem, sp))
  }

  function LoadFrame(mem: Memory, sp: nat): InterruptFrame {
    InterruptFrame(Read(mem, sp), Read(mem, sp + 8), Read(mem, sp + 16), Read(mem, sp + 24), Read(mem, sp + 32))
  }

  /** The context stored in the twenty words from sp on. */
  function LoadContext(mem: Memory, sp: nat): Context {
    Context(LoadRegisters(mem, sp), LoadFrame(mem, sp + 120))
  }

  const STACK_SIZE: nat := 0x4000
  predicate InStack(stack: nat, a: nat) {
    stack <= a < stack + STACK_SIZE
  }

  /** The addresses of a new kernel stack. */
  function StackArea(stack: nat): set<nat> {
    set a | stack <= a < stack + STACK_SIZE && InStack(stack, a)
  }

  const KERNEL_CODE: nat := 1 * 8
  const KERNEL_DATA: nat := 2 * 8

  /** What a process made by `add_process` starts with. */
  function FirstContext(stack: nat, entry: nat, rflags: nat): Context {
    Context(Registers(0, 0, 0, 0, 0, 0, 0, 0, 0, 0, 0, 0, 0, 0, 0),
            InterruptFrame(entry, KERNEL_CODE, WithInterrupts(rflags), stack + STACK_SIZE, KERNEL_DATA))
  }

  /** Bytes of a saved context, and of the stack that the functions called by the handler may use. */
  const SAVED: nat := 160
  const DEPTH: nat := 0x800

  /**
   * Where the processor starts pushing (Intel SDM volume 3A, section 6.14.2): the privilege stack
   * when it comes from ring 3, else the interrupted stack, aligned down to 16 bytes.
   */
  function StackTop(frame: InterruptFrame, privilegeStack: nat): nat {
    if frame.cs % 4 == 3 then privilegeStack else frame.rsp - frame.rsp % 16
  }

  /**
   * From ring 3 the processor pushes at the top of the privilege stack, whatever the interrupted
   * stack pointer; from ring 0 at the highest 16-byte boundary not above it.
   */
  lemma StackTopAligned(frame: InterruptFrame, privilegeStack: nat)
    ensures frame.cs % 4 == 3 ==> StackTop(frame, privilegeStack) == privilegeStack
    ensures frame.cs % 4 != 3 ==>
              var top := StackTop(frame, privilegeStack);
              top % 16 == 0 && top <= frame.rsp < top + 16
  {
  }

  /** The two memories agree on all words outside [from, to). */
  ghost predicate SameOutside(mem: Memory, mem': Memory, from: nat, to: nat) {
    forall a: nat :: !(from <= a < to) ==> Read(mem', a) == Read(mem, a)
  }

  lemma SameRegisters(mem: Memory, mem': Memory, from: nat, to: nat, sp: nat)
    requires SameOutside(mem, mem', from, to) && (to <= sp || sp + 120 <= from)
    ensures LoadRegisters(mem', sp) == LoadRegisters(mem, sp)
  {
  }

  lemma SameFrame(mem: Memory, mem': Memory, from: nat, to: nat, sp: nat)
    requires SameOutside(mem, mem', from, to) && (to <= sp || sp + 40 <= from)
    ensures LoadFrame(mem', sp) == LoadFrame(mem, sp)
  {
  }

  class Cpu {
    var regs: Registers
    /** The instruction pointer, selectors, flags and stack pointer of the running code. */
    var frame: InterruptFrame
    /** The stack pointer while the handler runs. */
    var rsp: nat
    var mem: Memory
    const privilegeStack: nat

    constructor (regs: Registers, frame: InterruptFrame, mem: Memory, privilegeStack: nat)
      ensures this.regs == regs && this.frame == frame && this.mem == mem && this.privilegeStack == privilegeStack
    {
      this.regs := regs;
      this.frame := frame;
      this.rsp := frame.rsp;
      this.mem := mem;
      this.privilegeStack := privilegeStack;
    }

    ghost function Running(): Context
      reads this
    {
      Context(regs, frame)
    }

    method Push(v: nat)
      requires rsp >= 8
      modifies `rsp, `mem
      ensures rsp == old(rsp) - 8 && mem == old(mem)[rsp := v]
    {
      rsp := rsp - 8;
      mem := mem[rsp := v];
    }

    method Pop() returns (v: nat)
      modifies `rsp
      ensures rsp == old(rsp) + 8 && v == Read(mem, old(rsp))
    {
      v := Read(mem, rsp);
      rsp := rsp + 8;
    }

    /** Five pushes in a row. */
    method PushFive(v1: nat, v2: nat, v3: nat, v4: nat, v5: nat)
      requires rsp >= 40
      modifies `rsp, `mem
      ensures rsp == old(rsp) - 40
      ensures LoadFrame(mem, rsp) == InterruptFrame(v5, v4, v3, v2, v1)
      ensures SameOutside(old(mem), mem, rsp, old(rsp))
    {
      Push(v1);
      Push(v2);
      Push(v3);
      Push(v4);
      Push(v5);
    }

    /** Five pops in a row. */
    method PopFive() returns (v1: nat, v2: nat, v3: nat, v4: nat, v5: nat)
      modifies `rsp
      ensures rsp == old(rsp) + 40
      ensures LoadFrame(mem, old(rsp)) == InterruptFrame(v1, v2, v3, v4, v5)
    {
      v1 := Pop();
      v2 := Pop();
      v3 := Pop();
      v4 := Pop();
      v5 := Pop();
    }

    /** The processor delivers the interrupt: it switches stacks if need be and pushes its frame. */
    method Deliver()
      requires StackTop(frame, privilegeStack) >= 40
      modifies `rsp, `mem
      ensures rsp == StackTop(frame, privilegeStack) - 40
      ensures LoadFrame(mem, rsp) == frame
      ensures SameOutside(old(mem), mem, rsp, rsp + 40)
    {
      rsp := if frame.cs % 4 == 3 then privilegeStack else frame.rsp - frame.rsp % 16;
      PushFive(frame.ss, frame.rsp, frame.rflags, frame.cs, frame.rip);
    }

    /** `iretq`. */
    method Iretq()
      modifies `frame, `rsp
      ensures frame == LoadFrame(mem, old(rsp))
    {
      var rip, cs, rflags, sp, ss := PopFive();
      frame := InterruptFrame(rip, cs, rflags, sp, ss);
      rsp := sp;
    }

    /** The fifteen pushes at the start of `timer_handler`. */
    method SaveRegisters()
      requires rsp >= 120
      modifies `rsp, `mem
      ensures rsp == old(rsp) - 120
      ensures LoadRegisters(mem, rsp) == regs
      ensures SameOutside(old(mem), mem, rsp, rsp + 120)
    {
      PushFive(regs.rax, regs.rcx, regs.rdx, regs.rbx, regs.rbp);
      ghost var m1, sp1 := mem, rsp;
      PushFive(regs.rsi, regs.rdi, regs.r8, regs.r9, regs.r10);
      ghost var m2, sp2 := mem, rsp;
      PushFive(regs.r11, regs.r12, regs.r13, regs.r14, regs.r15);
      SameFrame(m1, m2, sp2, sp1, sp1);
      SameFrame(m2, mem, rsp, sp2, sp1);
      SameFrame(m2, mem, rsp, sp2, sp2);
    }

    /** The fifteen pops at its end. */
    method RestoreRegisters()
      modifies `regs, `rsp
      ensures rsp == old(rsp) + 120
      ensures regs == LoadRegisters(mem, old(rsp))
    {
      var r15, r14, r13, r12, r11 := PopFive();
      var r10, r9, r8, rdi, rsi := PopFive();
      var rbp, rbx, rdx, rcx, rax := PopFive();
      regs := Registers(rax, rcx, rdx, rbx, rbp, rsi, rdi, r8, r9, r10, r11, r12, r13, r14, r15);
    }

    /** A call of a Rust function: any register but the stack pointer may change, and memory below it. */
    method Call(clobbered: Registers, scratch: Memory)
      requires forall a :: a in scratch ==> a < rsp
      modifies `regs, `mem
      ensures mem == old(mem) + scratch
    {
      regs := clobbered;
      mem := mem + scratch;
    }

    /** From the delivery of the interrupt to the last push. */
    method Enter()
      requires StackTop(frame, privilegeStack) >= SAVED
      modifies `rsp, `mem
      ensures rsp == StackTop(frame, privilegeStack) - SAVED
      ensures LoadContext(mem, rsp) == Running()
      ensures SameOutside(old(mem), mem, rsp, rsp + SAVED)
    {
      Deliver();
      ghost var m1, sp1 := mem, rsp;
      SaveRegisters();
      SameFrame(m1, mem, rsp, sp1, sp1);
    }

    /** From `mov rsp, rax` to `iretq`. */
    method Leave(sp: nat)
      modifies `regs, `frame, `rsp
      ensures Running() == LoadContext(mem, sp)
    {
      rsp := sp;
      RestoreRegisters();
      Iretq();
    }

    /** The two calls in between: end of interrupt, then `schedule(rsp)`, whose answer is in rax. */
    method CallScheduler(list: Scheduler.ProcessList, junk: Registers, eoiScratch: Memory, scheduleScratch: Memory)
      requires list.Valid() && list.procs[list.current].status != Scheduler.DEAD
      requires forall a :: a in eoiScratch || a in scheduleScratch ==> a < rsp
      modifies `regs, `mem, list
      ensures list.Valid() && list.View() == Scheduler.ScheduleStep(old(list.View()), rsp)
      ensures regs.rax == list.procs[list.current].rsp
      ensures mem == old(mem) + eoiScratch + scheduleScratch
    {
      Call(junk, eoiScratch);
      regs := regs.(rdi := rsp);
      var next := list.Schedule(regs.rdi);
      Call(junk, scheduleScratch);
      regs := regs.(rax := next);
    }

    /**
     * `timer_handler`. The interrupted context ends up in the twenty words below the top of the
     * stack, the scheduler is told where, and the processor continues with the context stored at
     * the stack pointer the scheduler returns.
     */
    method TimerHandler(list: Scheduler.ProcessList, junk: Registers, eoiScratch: Memory, scheduleScratch: Memory)
      requires list.Valid() && list.procs[list.current].status != Scheduler.DEAD
      requires StackTop(frame, privilegeStack) >= SAVED
      requires forall a :: a in eoiScratch || a in scheduleScratch ==> a < StackTop(frame, privilegeStack) - SAVED
      modifies this, list
      ensures list.Valid() && View(list) == TickStep(old(View(list)), privilegeStack, mem)
      ensures Saves(old(Running()), StackTop(old(frame), privilegeStack), old(mem), mem, eoiScratch + scheduleScratch)
    {
      ghost var before, m0, context, top := View(list), mem, Running(), StackTop(frame, privilegeStack);
      Enter();
      ghost var m2 := mem;
      CallScheduler(list, junk, eoiScratch, scheduleScratch);
      HandlerSaves(context, top, m0, m2, mem, eoiScratch, scheduleScratch);
      var next := regs.rax;
      Leave(next);
      TickStepIs(before, privilegeStack, mem, list.View(), next, Running());
    }

    /**
     * `add_process` on a zeroed stack of 0x4000 bytes at `stack`: an interrupt frame above fifteen
     * zero registers, and a READY process whose stack pointer is the bottom of the stack.
     */
    method AddProcess(list: Scheduler.ProcessList, stack: nat, entry: nat, rflags: nat)
      modifies `mem, list`procs
      ensures LoadContext(mem, stack) == FirstContext(stack, entry, rflags)
      ensures InterruptsOn(LoadContext(mem, stack).frame.rflags, rflags)
      ensures SameOutside(old(mem), mem, stack, stack + STACK_SIZE)
      ensures list.procs == old(list.procs) + [Scheduler.Process(Scheduler.READY, stack, None)]
    {
      FlagIsSet(rflags);
      ZeroStack(stack);
      ghost var m := mem;
      assert LoadRegisters(m, stack) == Registers(0, 0, 0, 0, 0, 0, 0, 0, 0, 0, 0, 0, 0, 0, 0) by {
        assert forall k: nat :: k < 15 ==> InStack(stack, stack + 8 * k);
      }
      StoreFrame(stack + 120, InterruptFrame(entry, KERNEL_CODE, WithInterrupts(rflags), stack + STACK_SIZE, KERNEL_DATA));
      SameRegisters(m, mem, stack + 120, stack + 160, stack);
      list.Push(Scheduler.Process(Scheduler.READY, stack, None));
    }

    /** `Box::new([0; 0x4000])`. */
    method ZeroStack(stack: nat)
      modifies `mem
      ensures forall a: nat :: InStack(stack, a) ==> Read(mem, a) == 0
      ensures SameOutside(old(mem), mem, stack, stack + STACK_SIZE)
    {
      mem := mem + map a | a in StackArea(stack) :: 0;
    }

    method StoreFrame(sp: nat, f: InterruptFrame)
      modifies `mem
      ensures LoadFrame(mem, sp) == f
      ensures SameOutside(old(mem), mem, sp, sp + 40)
    {
      mem := mem[sp := f.rip][sp + 8 := f.cs][sp + 16 := f.rflags][sp + 24 := f.rsp][sp + 32 := f.ss];
    }

    ghost function View(list: Scheduler.ProcessList): Machine
      reads this, list
    {
      Machine(Running(), mem, list.View())
    }
  }

  /** The processor, memory and the process list. */
  datatype Machine = Machine(running: Context, mem: Memory, sched: Scheduler.State)

  /** The context of the interrupted code is stored below `top`; otherwise only scratch words change. */
  ghost predicate Saves(context: Context, top: nat, mem: Memory, mem': Memory, scratch: Memory) {
    && top >= SAVED
    && LoadContext(mem', top - SAVED) == context
    && forall a: nat :: a !in scratch && !(top - SAVED <= a < top) ==> Read(mem', a) == Read(mem, a)
  }

  /** A tick that leaves memory mem': the scheduler learns the stack pointer; the process it chooses resumes. */
  function TickStep(m: Machine, privilegeStack: nat, mem': Memory): Machine
    requires m.sched.current < |m.sched.procs| && StackTop(m.running.frame, privilegeStack) >= SAVED
  {
    var sched := Scheduler.ScheduleStep(m.sched, StackTop(m.running.frame, privilegeStack) - SAVED);
    Machine(LoadContext(mem', sched.procs[sched.current].rsp), mem', sched)
  }

  lemma TickStepIs(m: Machine, privilegeStack: nat, mem': Memory, sched: Scheduler.State, sp: nat, running: Context)
    requires m.sched.current < |m.sched.procs| && StackTop(m.running.frame, privilegeStack) >= SAVED
    requires sched == Scheduler.ScheduleStep(m.sched, StackTop(m.running.frame, privilegeStack) - SAVED)
    requires sp == sched.procs[sched.current].rsp && running == LoadContext(mem', sp)
    ensures Machine(running, mem', sched) == TickStep(m, privilegeStack, mem')
  {
  }

  lemma HandlerSaves(context: Context, top: nat, m0: Memory, m2: Memory, mem: Memory, s1: Memory, s2: Memory)
    requires top >= SAVED && LoadContext(m2, top - SAVED) == context && SameOutside(m0, m2, top - SAVED, top)
    requires mem == m2 + s1 + s2 && forall a :: a in s1 || a in s2 ==> a < top - SAVED
    ensures Saves(context, top, m0, mem, s1 + s2)
  {
    ScratchBelow(m2, s1, s2, mem, top - SAVED);
    forall a: nat | a !in s1 + s2 && !(top - SAVED <= a < top)
      ensures Read(mem, a) == Read(m0, a)
    {
      ScratchRead(m2, s1, s2, mem, a);
    }
  }

  lemma ScratchRead(mem: Memory, s1: Memory, s2: Memory, mem': Memory, a: nat)
    requires mem' == mem + s1 + s2 && a !in s1 + s2
    ensures Read(mem', a) == Read(mem, a)
  {
  }

  lemma ScratchBelow(mem: Memory, s1: Memory, s2: Memory, mem': Memory, sp: nat)
    requires mem' == mem + s1 + s2 && forall a :: a in s1 || a in s2 ==> a < sp
    ensures LoadContext(mem', sp) == LoadContext(mem, sp)
  {
    assert SameOutside(mem, mem', 0, sp);
    SameRegisters(mem, mem', 0, sp, sp);
    SameFrame(mem, mem', 0, sp, sp + 120);
  }
}
