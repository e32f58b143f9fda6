/** Runs of the machine: code running, timer ticks and new processes, in any order. */
module ContextRuns {
  import opened Wrappers
  import opened Words
  import opened ContextSwitch
  import Scheduler

  /** The machine, and which process each owned word of memory belongs to. */
  datatype World = World(m: Machine, own: map<nat, nat>)

  predicate OwnedBy(own: map<nat, nat>, a: nat, i: nat) {
    a in own && own[a] == i
  }

  ghost predicate Owns(own: map<nat, nat>, i: nat, from: nat, to: nat) {
    forall a: nat :: from <= a < to ==> OwnedBy(own, a, i)
  }

  /** If the process is interrupted in this frame, the handler stays within its own memory. */
  ghost predicate Room(own: map<nat, nat>, i: nat, frame: InterruptFrame, privilegeStack: nat) {
    var top := StackTop(frame, privilegeStack);
    top >= SAVED + DEPTH && Owns(own, i, top - SAVED - DEPTH, top)
  }

  datatype Kind =
    | Code
    | Tick(scratch: Memory)
    | Spawn(area: set<nat>, rsp: nat, pages: Option<nat>)

  /** The running process does anything, except touch words that belong to others. */
  ghost predicate CodeStep(privilegeStack: nat, w: World, w': World) {
    && w'.own == w.own && w'.m.sched == w.m.sched
    && (forall a: nat :: a in w.own && !OwnedBy(w.own, a, w.m.sched.current) ==> Read(w'.m.mem, a) == Read(w.m.mem, a))
    && Room(w.own, w.m.sched.current, w'.m.running.frame, privilegeStack)
  }

  /** The timer handler runs; the functions it calls use the stack below the saved context. */
  ghost predicate TimerStep(privilegeStack: nat, w: World, scratch: Memory, w': World) {
    var top := StackTop(w.m.running.frame, privilegeStack);
    && w'.own == w.own && w.m.sched.current < |w.m.sched.procs|
    && Saves(w.m.running, top, w.m.mem, w'.m.mem, scratch)
    && (forall a :: a in scratch ==> top - SAVED - DEPTH <= a < top - SAVED)
    && w'.m == TickStep(w.m, privilegeStack, w'.m.mem)
  }

  /** A process joins: its first context lies in an area nobody owned, and only that area is written. */
  ghost predicate SpawnStep(privilegeStack: nat, w: World, area: set<nat>, rsp: nat, pages: Option<nat>, w': World) {
    var i := |w.m.sched.procs|;
    && w.m.sched.current < i
    && w'.m.sched == Scheduler.Step(w.m.sched, Scheduler.Spawn(rsp, pages))
    && w'.m.running == w.m.running
    && (forall a: nat :: a in area ==> a !in w.own)
    && (forall a: nat, j: nat :: OwnedBy(w'.own, a, j) <==> OwnedBy(w.own, a, j) || (a in area && j == i))
    && (forall a: nat :: a !in area ==> Read(w'.m.mem, a) == Read(w.m.mem, a))
    && Owns(w'.own, i, rsp, rsp + SAVED)
    && Room(w'.own, i, LoadContext(w'.m.mem, rsp).frame, privilegeStack)
  }

  ghost predicate Step(privilegeStack: nat, w: World, k: Kind, w': World) {
    match k
    case Code => CodeStep(privilegeStack, w, w')
    case Tick(scratch) => TimerStep(privilegeStack, w, scratch, w')
    case Spawn(area, rsp, pages) => SpawnStep(privilegeStack, w, area, rsp, pages, w')
  }

  /** The contract of `Cpu.TimerHandler` is a timer step of the machine. */
  lemma HandlerIsTimerStep(privilegeStack: nat, w: World, scratch: Memory, mem': Memory)
    requires Inv(privilegeStack, w)
    requires Saves(w.m.running, StackTop(w.m.running.frame, privilegeStack), w.m.mem, mem', scratch)
    requires var top := StackTop(w.m.running.frame, privilegeStack);
             forall a :: a in scratch ==> top - SAVED - DEPTH <= a < top - SAVED
    ensures Step(privilegeStack, w, Tick(scratch), World(TickStep(w.m, privilegeStack, mem'), w.own))
  {
  }

  /** The context kept in memory for a process that is not running. */
  function Kept(w: World, i: nat): Context
    requires i < |w.m.sched.procs|
  {
    LoadContext(w.m.mem, w.m.sched.procs[i].rsp)
  }

  ghost predicate Parked(privilegeStack: nat, w: World, i: nat)
    requires i < |w.m.sched.procs|
  {
    var rsp := w.m.sched.procs[i].rsp;
    Owns(w.own, i, rsp, rsp + SAVED) && Room(w.own, i, Kept(w, i).frame, privilegeStack)
  }

  /** Every process not running has its context in memory of its own, with room to be interrupted again. */
  ghost predicate Inv(privilegeStack: nat, w: World) {
    && Scheduler.Inv(w.m.sched)
    && Room(w.own, w.m.sched.current, w.m.running.frame, privilegeStack)
    && forall i :: 0 <= i < |w.m.sched.procs| && i != w.m.sched.current ==> Parked(privilegeStack, w, i)
  }

  lemma OwnContextKept(own: map<nat, nat>, i: nat, mem: Memory, mem': Memory, sp: nat)
    requires Owns(own, i, sp, sp + SAVED)
    requires forall a: nat :: OwnedBy(own, a, i) ==> Read(mem', a) == Read(mem, a)
    ensures LoadContext(mem', sp) == LoadContext(mem, sp)
  {
    assert forall a: nat :: sp <= a < sp + SAVED ==> OwnedBy(own, a, i);
  }

  /** No step writes a word that belongs to a process which is not running. */
  lemma OthersUntouched(privilegeStack: nat, w: World, k: Kind, w': World, i: nat)
    requires Inv(privilegeStack, w) && Step(privilegeStack, w, k, w') && i != w.m.sched.current
    ensures forall a: nat :: OwnedBy(w.own, a, i) ==> Read(w'.m.mem, a) == Read(w.m.mem, a)
  {
    if k.Tick? {
      var c, top := w.m.sched.current, StackTop(w.m.running.frame, privilegeStack);
      forall a: nat | OwnedBy(w.own, a, i)
        ensures Read(w'.m.mem, a) == Read(w.m.mem, a)
      {
        assert !OwnedBy(w.own, a, c);
      }
    }
  }

  /** A process that is not running keeps its stack pointer and its context. */
  lemma ParkedKept(privilegeStack: nat, w: World, k: Kind, w': World, i: nat)
    requires Inv(privilegeStack, w) && Step(privilegeStack, w, k, w')
    requires i < |w.m.sched.procs| && i != w.m.sched.current
    ensures i < |w'.m.sched.procs| && w'.m.sched.procs[i].rsp == w.m.sched.procs[i].rsp
    ensures Kept(w', i) == Kept(w, i)
    ensures k.Tick? && w'.m.sched.current == i ==> w'.m.running == Kept(w, i)
  {
    OthersUntouched(privilegeStack, w, k, w', i);
    assert Parked(privilegeStack, w, i);
    OwnContextKept(w.own, i, w.m.mem, w'.m.mem, w.m.sched.procs[i].rsp);
    if k.Tick? {
      Scheduler.TickAdvances(w.m.sched, StackTop(w.m.running.frame, privilegeStack) - SAVED);
    }
  }

  /** The process interrupted by a tick is parked with the context it had. */
  lemma TickParks(privilegeStack: nat, w: World, scratch: Memory, w': World)
    requires Inv(privilegeStack, w) && TimerStep(privilegeStack, w, scratch, w')
    ensures var c := w.m.sched.current;
            c < |w'.m.sched.procs| && Kept(w', c) == w.m.running && Parked(privilegeStack, w', c)
    ensures w'.m.sched.current == w.m.sched.current ==> w'.m.running == w.m.running
  {
    Scheduler.TickAdvances(w.m.sched, StackTop(w.m.running.frame, privilegeStack) - SAVED);
  }

  /** The tick that chooses a waiting process resumes the context kept for it. */
  lemma TickResumes(privilegeStack: nat, w: World, k: Kind, w': World, i: nat)
    requires Inv(privilegeStack, w) && Step(privilegeStack, w, k, w') && k.Tick?
    requires i < |w.m.sched.procs| && i != w.m.sched.current && w'.m.sched.current == i
    ensures w'.m.running == Kept(w, i)
  {
    ParkedKept(privilegeStack, w, k, w', i);
  }

  lemma TickSched(privilegeStack: nat, w: World, scratch: Memory, w': World)
    requires Inv(privilegeStack, w) && TimerStep(privilegeStack, w, scratch, w')
    ensures Scheduler.Inv(w'.m.sched) && |w'.m.sched.procs| == |w.m.sched.procs|
  {
    Scheduler.TickAdvances(w.m.sched, StackTop(w.m.running.frame, privilegeStack) - SAVED);
  }

  /** After a tick the process chosen has room to be interrupted. */
  lemma ChosenHasRoom(privilegeStack: nat, w: World, scratch: Memory, w': World)
    requires Inv(privilegeStack, w) && TimerStep(privilegeStack, w, scratch, w')
    ensures Room(w'.own, w'.m.sched.current, w'.m.running.frame, privilegeStack)
  {
    var c, j := w.m.sched.current, w'.m.sched.current;
    TickSched(privilegeStack, w, scratch, w');
    if j == c {
      TickParks(privilegeStack, w, scratch, w');
    } else {
      assert Parked(privilegeStack, w, j);
      TickResumes(privilegeStack, w, Tick(scratch), w', j);
    }
  }

  /** Whoever runs after the step has room to be interrupted. */
  lemma RunnerHasRoom(privilegeStack: nat, w: World, k: Kind, w': World)
    requires Inv(privilegeStack, w) && Step(privilegeStack, w, k, w')
    ensures Scheduler.Inv(w'.m.sched)
    ensures Room(w'.own, w'.m.sched.current, w'.m.running.frame, privilegeStack)
  {
    match k
    case Code =>
    case Tick(scratch) =>
      TickSched(privilegeStack, w, scratch, w');
      ChosenHasRoom(privilegeStack, w, scratch, w');
    case Spawn(area, rsp, pages) =>
      RoomKept(w.own, w'.own, w.m.sched.current, w.m.running.frame, privilegeStack, 0);
  }

  lemma StepKeepsInv(privilegeStack: nat, w: World, k: Kind, w': World)
    requires Inv(privilegeStack, w) && Step(privilegeStack, w, k, w')
    ensures Inv(privilegeStack, w')
  {
    RunnerHasRoom(privilegeStack, w, k, w');
    forall i | 0 <= i < |w'.m.sched.procs| && i != w'.m.sched.current
      ensures Parked(privilegeStack, w', i)
    {
      OthersParked(privilegeStack, w, k, w', i);
    }
  }

  lemma OthersParked(privilegeStack: nat, w: World, k: Kind, w': World, i: nat)
    requires Inv(privilegeStack, w) && Step(privilegeStack, w, k, w')
    requires i < |w'.m.sched.procs| && i != w'.m.sched.current
    ensures Parked(privilegeStack, w', i)
  {
    var c := w.m.sched.current;
    if i < |w.m.sched.procs| && i != c {
      assert Parked(privilegeStack, w, i);
      ParkedKept(privilegeStack, w, k, w', i);
      RoomKept(w.own, w'.own, i, Kept(w, i).frame, privilegeStack, w.m.sched.procs[i].rsp);
    } else if k.Tick? {
      TickParks(privilegeStack, w, k.scratch, w');
      Scheduler.TickAdvances(w.m.sched, StackTop(w.m.running.frame, privilegeStack) - SAVED);
    }
  }

  /** Ownership only grows. */
  lemma RoomKept(own: map<nat, nat>, own': map<nat, nat>, i: nat, frame: InterruptFrame, privilegeStack: nat, rsp: nat)
    requires forall a: nat :: OwnedBy(own, a, i) ==> OwnedBy(own', a, i)
    ensures Room(own, i, frame, privilegeStack) ==> Room(own', i, frame, privilegeStack)
    ensures Owns(own, i, rsp, rsp + SAVED) ==> Owns(own', i, rsp, rsp + SAVED)
  {
  }

  /* ---- traces ---- */

  /** A run: consecutive worlds are related by steps of the given kinds. */
  ghost predicate Trace(privilegeStack: nat, ws: seq<World>, ks: seq<Kind>) {
    && |ws| == |ks| + 1 && Inv(privilegeStack, ws[0])
    && forall n :: 0 <= n < |ks| ==> Step(privilegeStack, ws[n], ks[n], ws[n + 1])
  }

  lemma {:induction false} TraceInv(privilegeStack: nat, ws: seq<World>, ks: seq<Kind>, n: nat)
    requires Trace(privilegeStack, ws, ks) && n < |ws|
    ensures Inv(privilegeStack, ws[n])
  {
    if n > 0 {
      TraceInv(privilegeStack, ws, ks, n - 1);
      StepKeepsInv(privilegeStack, ws[n - 1], ks[n - 1], ws[n]);
    }
  }

  /** At boot only process 0 exists; it needs room on its stack. */
  lemma BootWorld(privilegeStack: nat, running: Context, mem: Memory, own: map<nat, nat>)
    requires Room(own, 0, running.frame, privilegeStack)
    ensures Inv(privilegeStack, World(Machine(running, mem, Scheduler.BOOTED), own))
  {
  }

  /** From a to b the process never runs. */
  ghost predicate Waiting(ws: seq<World>, i: nat, a: nat, b: nat)
    requires b < |ws|
  {
    forall n :: a <= n <= b ==> ws[n].m.sched.current != i
  }

  lemma {:induction false} WaitingKeepsContext(privilegeStack: nat, ws: seq<World>, ks: seq<Kind>, i: nat, a: nat, b: nat)
    requires Trace(privilegeStack, ws, ks) && a <= b < |ws| && i < |ws[a].m.sched.procs| && Waiting(ws, i, a, b)
    ensures i < |ws[b].m.sched.procs| && Kept(ws[b], i) == Kept(ws[a], i)
    decreases b - a
  {
    if a < b {
      WaitingKeepsContext(privilegeStack, ws, ks, i, a, b - 1);
      TraceInv(privilegeStack, ws, ks, b - 1);
      ParkedKept(privilegeStack, ws[b - 1], ks[b - 1], ws[b], i);
    }
  }

  /**
   * Context transparency: a process interrupted by the tick at a, and next given the processor by
   * the tick at b, resumes with exactly the registers and interrupt frame it was interrupted with,
   * whatever other processes, ticks and new processes came in between.
   */
  lemma ContextTransparency(privilegeStack: nat, ws: seq<World>, ks: seq<Kind>, i: nat, a: nat, b: nat)
    requires Trace(privilegeStack, ws, ks) && a <= b < |ks| && ks[a].Tick? && ks[b].Tick?
    requires ws[a].m.sched.current == i && Waiting(ws, i, a + 1, b) && ws[b + 1].m.sched.current == i
    ensures ws[b + 1].m.running == ws[a].m.running
  {
    TraceInv(privilegeStack, ws, ks, a);
    TickParks(privilegeStack, ws[a], ks[a].scratch, ws[a + 1]);
    if a < b {
      WaitingKeepsContext(privilegeStack, ws, ks, i, a + 1, b);
      TraceInv(privilegeStack, ws, ks, b);
      ParkedKept(privilegeStack, ws[b], ks[b], ws[b + 1], i);
    }
  }

  /** A process that has joined waits at the end of the list with the stack pointer it was given. */
  lemma SpawnWaits(privilegeStack: nat, w: World, area: set<nat>, rsp: nat, pages: Option<nat>, w': World)
    requires SpawnStep(privilegeStack, w, area, rsp, pages, w')
    ensures var i := |w.m.sched.procs|;
            i < |w'.m.sched.procs| && Kept(w', i) == LoadContext(w'.m.mem, rsp)
  {
  }

  lemma JoinedAt(privilegeStack: nat, ws: seq<World>, ks: seq<Kind>, a: nat, i: nat)
    requires Trace(privilegeStack, ws, ks) && a < |ks| && ks[a].Spawn? && i == |ws[a].m.sched.procs|
    ensures i < |ws[a + 1].m.sched.procs| && Kept(ws[a + 1], i) == LoadContext(ws[a + 1].m.mem, ks[a].rsp)
  {
    assert Step(privilegeStack, ws[a], ks[a], ws[a + 1]);
    SpawnWaits(privilegeStack, ws[a], ks[a].area, ks[a].rsp, ks[a].pages, ws[a + 1]);
  }

  lemma ResumedAt(privilegeStack: nat, ws: seq<World>, ks: seq<Kind>, b: nat, i: nat)
    requires Trace(privilegeStack, ws, ks) && b < |ks| && ks[b].Tick? && i < |ws[b].m.sched.procs|
    requires ws[b].m.sched.current != i && ws[b + 1].m.sched.current == i
    ensures ws[b + 1].m.running == Kept(ws[b], i)
  {
    TraceInv(privilegeStack, ws, ks, b);
    TickResumes(privilegeStack, ws[b], ks[b], ws[b + 1], i);
  }

  /** A new process starts with the context that was stored for it when it joined. */
  lemma FirstDispatch(privilegeStack: nat, ws: seq<World>, ks: seq<Kind>, a: nat, b: nat)
    requires Trace(privilegeStack, ws, ks) && a < b < |ks| && ks[a].Spawn? && ks[b].Tick?
    requires var i := |ws[a].m.sched.procs|;
             Waiting(ws, i, a + 1, b) && ws[b + 1].m.sched.current == i
    ensures ws[b + 1].m.running == LoadContext(ws[a + 1].m.mem, ks[a].rsp)
  {
    var i := |ws[a].m.sched.procs|;
    JoinedAt(privilegeStack, ws, ks, a, i);
    WaitingKeepsContext(privilegeStack, ws, ks, i, a + 1, b);
    ResumedAt(privilegeStack, ws, ks, b, i);
  }

  /** What `Cpu.AddProcess` does is such a joining step, for a stack that nobody owns. */
  lemma AddProcessIsSpawn(privilegeStack: nat, w: World, stack: nat, entry: nat, rflags: nat, w': World)
    requires w.m.sched.current < |w.m.sched.procs| && stack % 8 == 0
    requires forall a: nat :: a in StackArea(stack) ==> a !in w.own
    requires LoadContext(w'.m.mem, stack) == FirstContext(stack, entry, rflags)
    requires SameOutside(w.m.mem, w'.m.mem, stack, stack + STACK_SIZE)
    requires w'.m.running == w.m.running && w'.m.sched == Scheduler.Step(w.m.sched, Scheduler.Spawn(stack, None))
    requires w'.own == w.own + map a | a in StackArea(stack) :: |w.m.sched.procs|
    ensures Step(privilegeStack, w, Spawn(StackArea(stack), stack, None), w')
  {
    var i := |w.m.sched.procs|;
    var frame := LoadContext(w'.m.mem, stack).frame;
    assert StackTop(frame, privilegeStack) <= stack + STACK_SIZE && StackTop(frame, privilegeStack) + 16 > stack + STACK_SIZE;
    assert forall a: nat :: InStack(stack, a) ==> a in StackArea(stack);
  }

  /**
   * A process made by `add_process` first runs at its entry point, with zeroed registers, the
   * interrupt flag set and all other flags those of its maker, the kernel's selectors, and its
   * stack pointer at the top of its stack.
   */
  lemma KernelProcessStarts(privilegeStack: nat, ws: seq<World>, ks: seq<Kind>, a: nat, b: nat, stack: nat, entry: nat, rflags: nat)
    requires Trace(privilegeStack, ws, ks) && a < b < |ks| && ks[b].Tick?
    requires ks[a] == Spawn(StackArea(stack), stack, None)
    requires LoadContext(ws[a + 1].m.mem, stack) == FirstContext(stack, entry, rflags)
    requires var i := |ws[a].m.sched.procs|;
             Waiting(ws, i, a + 1, b) && ws[b + 1].m.sched.current == i
    ensures var c := ws[b + 1].m.running;
            && c.frame.rip == entry && c.frame.rsp == stack + STACK_SIZE
            && c.regs == Registers(0, 0, 0, 0, 0, 0, 0, 0, 0, 0, 0, 0, 0, 0, 0)
            && InterruptsOn(c.frame.rflags, rflags)
            && c.frame.cs == 0x08 && c.frame.ss == 0x10
  {
    FirstDispatch(privilegeStack, ws, ks, a, b);
    FlagIsSet(rflags);
  }
}
