/** The process list and the round-robin scheduler. */
module Scheduler {
  import opened Wrappers

  datatype Status = READY | RUNNING | DEAD

  /** `pages` is the next free address of a user process's allocation arena. */
  datatype Process = Process(status: Status, rsp: nat, pages: Option<nat>)

  /** The successor of an index in cyclic order. */
  function Succ(i: nat, n: nat): nat {
    if i + 1 >= n then 0 else i + 1
  }

  /** The first READY process in cyclic order from i on, looking at no more than `fuel` of them. */
  function FindReady(procs: seq<Process>, i: nat, fuel: nat): (r: Option<nat>)
    requires i < |procs|
    ensures r.Some? ==> r.value < |procs| && procs[r.value].status == READY
    decreases fuel
  {
    if fuel == 0 then None
    else if procs[i].status == READY then Some(i)
    else FindReady(procs, Succ(i, |procs|), fuel - 1)
  }

  /** The interrupted process gives up the processor. */
  function Preempted(procs: seq<Process>, current: nat, rsp: nat): seq<Process>
    requires current < |procs|
  {
    procs[current := procs[current].(rsp := rsp, status := READY)]
  }

  /** The state after `schedule`: the next READY process in cyclic order runs. */
  datatype State = State(procs: seq<Process>, current: nat)

  function ScheduleStep(s: State, rsp: nat): (t: State)
    requires s.current < |s.procs|
    ensures t.current < |t.procs|
  {
    var procs := Preempted(s.procs, s.current, rsp);
    match FindReady(procs, Succ(s.current, |procs|), |procs|)
    case None => State(procs, s.current)
    case Some(i) => State(procs[i := procs[i].(status := RUNNING)], i)
  }

  /** Cyclic distance from i to j in a list of n; a full round from i to itself. */
  function Distance(i: nat, j: nat, n: nat): nat
    requires i < n && j < n
  {
    if i < j then j - i else j - i + n
  }

  /** The search meets the nearest READY process. */
  lemma {:induction false} FindReadyNearest(procs: seq<Process>, i: nat, fuel: nat, j: nat)
    requires i < |procs| && j < |procs| && procs[j].status == READY
    requires fuel >= (if i <= j then j - i else j - i + |procs|) + 1
    ensures var r := FindReady(procs, i, fuel);
            && r.Some? && r.value < |procs| && procs[r.value].status == READY
            && (if i <= r.value then r.value - i else r.value - i + |procs|)
               <= (if i <= j then j - i else j - i + |procs|)
    decreases fuel
  {
    if procs[i].status != READY {
      FindReadyNearest(procs, Succ(i, |procs|), fuel - 1, j);
    }
  }

  /**
   * `schedule` always finds a process, no farther than any READY one: the process it chooses is
   * READY and at the least cyclic distance, at most a full round.
   */
  lemma ScheduleChoosesNearest(s: State, rsp: nat)
    requires s.current < |s.procs|
    ensures var t, procs := ScheduleStep(s, rsp), Preempted(s.procs, s.current, rsp);
            && procs[t.current].status == READY
            && t.procs == procs[t.current := procs[t.current].(status := RUNNING)]
            && forall j :: 0 <= j < |procs| && procs[j].status == READY ==>
                 Distance(s.current, t.current, |procs|) <= Distance(s.current, j, |procs|)
  {
    var procs := Preempted(s.procs, s.current, rsp);
    var n := |procs|;
    FindReadyNearest(procs, Succ(s.current, n), n, s.current);
    forall j | 0 <= j < n && procs[j].status == READY
      ensures Distance(s.current, ScheduleStep(s, rsp).current, n) <= Distance(s.current, j, n)
    {
      FindReadyNearest(procs, Succ(s.current, n), n, j);
    }
  }

  class ProcessList {
    var procs: seq<Process>
    var current: nat

    ghost predicate Valid()
      reads this
    {
      current < |procs|
    }

    ghost function View(): State
      reads this
    {
      State(procs, current)
    }

    /** `init`: the code running at boot becomes process 0. */
    constructor ()
      ensures Valid() && View() == BOOTED
    {
      procs := [Process(RUNNING, 0, None)];
      current := 0;
    }

    /** The push at the end of `add_process` and `add_user_process`. */
    method Push(p: Process)
      modifies this`procs
      ensures procs == old(procs) + [p]
    {
      procs := procs + [p];
    }

    /** `schedule`, for a current process that is not DEAD. */
    method Schedule(rsp: nat) returns (next: nat)
      requires Valid() && procs[current].status != DEAD
      modifies this
      ensures Valid() && View() == ScheduleStep(old(View()), rsp)
      ensures next == procs[current].rsp
    {
      procs := procs[current := procs[current].(rsp := rsp)];
      procs := procs[current := procs[current].(status := READY)];
      ghost var start, n := current, |procs|;
      ghost var left := n;
      FindReadyNearest(procs, Succ(start, n), n, start);
      while true
        invariant current < n == |procs| && 0 <= left <= n
        invariant FindReady(procs, Succ(start, n), n).Some?
        invariant FindReady(procs, Succ(current, n), left) == FindReady(procs, Succ(start, n), n)
        invariant procs == Preempted(old(procs), start, rsp)
        decreases left
      {
        current := current + 1;
        if current >= |procs| {
          current := 0;
        }
        if procs[current].status == READY {
          procs := procs[current := procs[current].(status := RUNNING)];
          break;
        }
        left := left - 1;
      }
      return procs[current].rsp;
    }
  }

  /* ---- runs ---- */

  const BOOTED: State := State([Process(RUNNING, 0, None)], 0)

  /** A timer tick with the interrupted stack pointer, or a new process. */
  datatype Event = Tick(rsp: nat) | Spawn(rsp: nat, pages: Option<nat>)

  /** Exactly one process is RUNNING, the current one, and all others are READY. */
  ghost predicate Inv(s: State) {
    && s.current < |s.procs|
    && forall i :: 0 <= i < |s.procs| ==> s.procs[i].status == if i == s.current then RUNNING else READY
  }

  function Step(s: State, e: Event): (t: State)
    requires s.current < |s.procs|
    ensures t.current < |t.procs|
  {
    match e
    case Tick(rsp) => ScheduleStep(s, rsp)
    case Spawn(rsp, pages) => State(s.procs + [Process(READY, rsp, pages)], s.current)
  }

  function Run(s: State, es: seq<Event>): (t: State)
    requires s.current < |s.procs|
    ensures t.current < |t.procs|
    decreases |es|
  {
    if es == [] then s else Run(Step(s, es[0]), es[1..])
  }

  /** In a reachable state a tick passes the processor to the next process in the list. */
  lemma TickAdvances(s: State, rsp: nat)
    requires Inv(s)
    ensures var t := ScheduleStep(s, rsp);
            && t.current == Succ(s.current, |s.procs|) == (s.current + 1) % |s.procs|
            && Inv(t) && |t.procs| == |s.procs|
            && t.procs[s.current].rsp == rsp
            && (forall i :: 0 <= i < |s.procs| && i != s.current ==> t.procs[i].rsp == s.procs[i].rsp)
            && (forall i :: 0 <= i < |s.procs| ==> t.procs[i].pages == s.procs[i].pages)
  {
    var procs := Preempted(s.procs, s.current, rsp);
    assert procs[Succ(s.current, |procs|)].status == READY;
  }

  lemma StepKeepsInv(s: State, e: Event)
    requires Inv(s)
    ensures Inv(Step(s, e)) && |Step(s, e).procs| == |s.procs| + (if e.Spawn? then 1 else 0)
  {
    if e.Tick? {
      TickAdvances(s, e.rsp);
    }
  }

  /** Every state reachable from boot by ticks and new processes satisfies the invariant. */
  lemma {:induction false} RunKeepsInv(s: State, es: seq<Event>)
    requires Inv(s)
    ensures Inv(Run(s, es))
    decreases |es|
  {
    if es != [] {
      StepKeepsInv(s, es[0]);
      RunKeepsInv(Step(s, es[0]), es[1..]);
    }
  }

  /** At every reachable state exactly one process is RUNNING, and it is the current one. */
  lemma OneRunning(es: seq<Event>, i: nat)
    requires i < |Run(BOOTED, es).procs|
    ensures Run(BOOTED, es).procs[i].status == RUNNING <==> i == Run(BOOTED, es).current
    ensures Run(BOOTED, es).procs[i].status != DEAD
  {
    RunKeepsInv(BOOTED, es);
  }

  /**
   * The stack pointer last saved for process i on a run from boot: that of the last tick that
   * interrupted it, or else the one it was added with; zero for the code running at boot.
   */
  function LastSaved(es: seq<Event>, i: nat): nat
    decreases |es|
  {
    if es == [] then 0
    else
      var earlier := es[..|es| - 1];
      var before := Run(BOOTED, earlier);
      match es[|es| - 1]
      case Tick(rsp) => if before.current == i then rsp else LastSaved(earlier, i)
      case Spawn(rsp, _) => if |before.procs| == i then rsp else LastSaved(earlier, i)
  }

  lemma {:induction false} RunAppend(s: State, es: seq<Event>, e: Event)
    requires s.current < |s.procs|
    ensures Run(s, es + [e]) == Step(Run(s, es), e)
    decreases |es|
  {
    if es == [] {
      assert [e][1..] == [];
      assert [] + [e] == [e];
      assert Run(s, [e]) == Run(Step(s, e), [e][1..]);
    } else {
      assert (es + [e])[1..] == es[1..] + [e];
      RunAppend(Step(s, es[0]), es[1..], e);
    }
  }

  /** In every state reachable from boot each process has the stack pointer last saved for it. */
  lemma {:induction false} StackPointerKept(es: seq<Event>, i: nat)
    requires i < |Run(BOOTED, es).procs|
    ensures Run(BOOTED, es).procs[i].rsp == LastSaved(es, i)
    decreases |es|
  {
    if es != [] {
      var earlier, e := es[..|es| - 1], es[|es| - 1];
      var before := Run(BOOTED, earlier);
      assert es == earlier + [e];
      RunAppend(BOOTED, earlier, e);
      RunKeepsInv(BOOTED, earlier);
      if e.Tick? {
        TickAdvances(before, e.rsp);
      }
      if i < |before.procs| {
        StackPointerKept(earlier, i);
      }
    }
  }

  /* ---- waiting times ---- */

  function Ticks(es: seq<Event>): nat {
    if es == [] then 0 else (if es[0].Tick? then 1 else 0) + Ticks(es[1..])
  }

  function Spawns(es: seq<Event>): nat {
    if es == [] then 0 else (if es[0].Spawn? then 1 else 0) + Spawns(es[1..])
  }

  /** How often process i is given the processor during the run. */
  function Dispatches(s: State, es: seq<Event>, i: nat): nat
    requires s.current < |s.procs|
    decreases |es|
  {
    if es == [] then 0
    else (if es[0].Tick? && Step(s, es[0]).current == i then 1 else 0) + Dispatches(Step(s, es[0]), es[1..], i)
  }

  /**
   * Bounded waiting: a process at cyclic distance d from the current one is dispatched within
   * d + k ticks, when k processes are added meanwhile.
   */
  lemma {:induction false} BoundedWaiting(s: State, es: seq<Event>, i: nat)
    requires Inv(s) && i < |s.procs|
    requires Ticks(es) >= Distance(s.current, i, |s.procs|) + Spawns(es)
    ensures Dispatches(s, es, i) >= 1
    decreases |es|
  {
    if es != [] {
      StepKeepsInv(s, es[0]);
      var t := Step(s, es[0]);
      if es[0].Tick? {
        TickAdvances(s, es[0].rsp);
        if t.current != i {
          BoundedWaiting(t, es[1..], i);
        }
      } else {
        BoundedWaiting(t, es[1..], i);
      }
    }
  }

  /** After m < n ticks without new processes, exactly the next m processes have been dispatched, once each. */
  lemma {:induction false} WindowDispatches(s: State, es: seq<Event>, i: nat)
    requires Inv(s) && i < |s.procs| && Spawns(es) == 0 && |es| <= |s.procs|
    ensures Dispatches(s, es, i) == if Distance(s.current, i, |s.procs|) <= |es| then 1 else 0
    decreases |es|
  {
    if es != [] {
      TickAdvances(s, es[0].rsp);
      var t := Step(s, es[0]);
      WindowDispatches(t, es[1..], i);
    }
  }

  /** Fairness: every window of as many ticks as there are processes dispatches each exactly once. */
  lemma EachOncePerRound(es: seq<Event>, window: seq<Event>, i: nat)
    requires i < |Run(BOOTED, es).procs| == |window| && Spawns(window) == 0
    ensures Dispatches(Run(BOOTED, es), window, i) == 1
  {
    RunKeepsInv(BOOTED, es);
    WindowDispatches(Run(BOOTED, es), window, i);
  }
}
