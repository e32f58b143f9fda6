/** From the bytes the loader leaves on the user stack to the first instruction of the user process. */
module FirstSwitch {
  import opened Wrappers
  import opened Words
  import opened Frames
  import opened FrameAllocators
  import opened PagingModel
  import opened FrameBudget
  import opened Paging
  import opened VirtualMemory
  import opened Loader
  import opened ContextSwitch
  import ContextRuns
  import Scheduler

  /* ---- the same memory in bytes and in words ---- */

  /** The word memory is what the bytes behind the page map make up; unmapped words read as zero. */
  ghost predicate Views(mem: Memory, pages: map<Page, Frame>, m: seq<Byte>) {
    forall a: nat {:trigger Read(mem, a)} :: Read(mem, a) == WordOf(pages, m, a)
  }

  function WordOf(pages: map<Page, Frame>, m: seq<Byte>, a: nat): nat {
    if a % 8 == 0 && IsMapped(pages, a) then Field(pages, m, a, 8) else 0
  }

  function AddrIn(p: Page, k: nat): nat {
    p * 4096 + k
  }

  /** The word memory that views a byte memory. */
  function WordMemory(pages: map<Page, Frame>, m: seq<Byte>): Memory {
    map a | a in (set p, k: nat | p in pages && k < 4096 :: AddrIn(p, k)) :: WordOf(pages, m, a)
  }

  lemma WordMemoryViews(pages: map<Page, Frame>, m: seq<Byte>)
    ensures Views(WordMemory(pages, m), pages, m)
  {
    forall a: nat
      ensures Read(WordMemory(pages, m), a) == WordOf(pages, m, a)
    {
      if IsMapped(pages, a) {
        assert a == AddrIn(a / 4096, a % 4096);
      }
    }
  }

  /** Words of pages mapped before are kept when their bytes are. */
  lemma KeptWord(p0: map<Page, Frame>, m0: seq<Byte>, p: map<Page, Frame>, m: seq<Byte>, a: nat)
    requires Kept(p0, m0, p, m) && (IsMapped(p, a) ==> IsMapped(p0, a))
    ensures WordOf(p, m, a) == WordOf(p0, m0, a)
  {
    if a % 8 == 0 && IsMapped(p0, a) {
      assert MappedRange(p0, a, 8) by {
        assert forall u: nat :: a <= u < a + 8 ==> u / 4096 == a / 4096;
      }
      KeptField(p0, m0, p, m, a, 8);
    }
  }

  lemma {:induction false} SameField(p: map<Page, Frame>, m: seq<Byte>, m': seq<Byte>, a: nat, n: nat)
    requires forall u: nat :: a <= u < a + n ==> Peek(p, m', u) == Peek(p, m, u)
    ensures Field(p, m', a, n) == Field(p, m, a, n)
    decreases n
  {
    if n > 0 {
      SameField(p, m, m', a + 1, n - 1);
    }
  }

  lemma {:induction false} ZeroField(p: map<Page, Frame>, m: seq<Byte>, a: nat, n: nat)
    ensures Field(p, m, a, n) == 0 <==> forall u: nat :: a <= u < a + n ==> Peek(p, m, u) == 0
    decreases n
  {
    if n > 0 {
      ZeroField(p, m, a + 1, n - 1);
    }
  }

  /* ---- the stored interrupt frame ---- */

  lemma LowBits(b0: Byte, b1: Byte, rest: nat)
    ensures (b0 + 256 * (b1 + 256 * rest)) % 0x1_0000 == b0 + 256 * b1
  {
    assert b0 + 256 * (b1 + 256 * rest) == b0 + 256 * b1 + 0x1_0000 * rest;
  }

  lemma FieldStep(pages: map<Page, Frame>, m: seq<Byte>, a: nat, n: nat)
    requires n > 1
    ensures Field(pages, m, a, n) ==
            Peek(pages, m, a) + 256 * (Peek(pages, m, a + 1) + 256 * Field(pages, m, a + 2, n - 2))
  {
    assert Field(pages, m, a + 1, n - 1) == Peek(pages, m, a + 1) + 256 * Field(pages, m, a + 1 + 1, n - 1 - 1);
  }

  /** A word whose two low bytes have been stored: they are its low sixteen bits. */
  lemma LowHalf(pages: map<Page, Frame>, m: seq<Byte>, a: nat)
    ensures Field(pages, m, a, 8) % 0x1_0000 == Field(pages, m, a, 2)
  {
    FieldStep(pages, m, a, 8);
    FieldStep(pages, m, a, 2);
    LowBits(Peek(pages, m, a), Peek(pages, m, a + 1), Field(pages, m, a + 2, 6));
  }

  /**
   * The interrupt frame stored by the loader: entry point, user selectors, the flags of the loader
   * with interrupts on, and the stack top.
   */
  ghost predicate EntersUser(frame: InterruptFrame, entry: nat, rflags: nat) {
    && frame.rip == entry && frame.rsp == 0x20_0000 && InterruptsOn(frame.rflags, rflags)
    && frame.cs % 0x1_0000 == 0x33 && frame.ss % 0x1_0000 == 0x2b
    && frame.cs % 4 == 3
  }

  lemma FrameWords(pages: map<Page, Frame>, m: seq<Byte>, mem: Memory, sp: nat, at: nat)
    requires Views(mem, pages, m) && at == sp + 120 && at % 8 == 0 && MappedRange(pages, at, 40)
    ensures LoadContext(mem, sp).frame ==
            InterruptFrame(Field(pages, m, at, 8), Field(pages, m, at + 8, 8), Field(pages, m, at + 16, 8),
                           Field(pages, m, at + 24, 8), Field(pages, m, at + 32, 8))
  {
    assert IsMapped(pages, at) && IsMapped(pages, at + 8) && IsMapped(pages, at + 16);
    assert IsMapped(pages, at + 24) && IsMapped(pages, at + 32);
  }

  lemma ContextParts(pages: map<Page, Frame>, m: seq<Byte>, at: nat, entry: nat, rflags: nat)
    requires UserContext(pages, m, entry, rflags) && at == USER_FRAME
    ensures Field(pages, m, at, 8) == entry && Field(pages, m, at + 16, 8) == WithInterrupts(rflags)
    ensures Field(pages, m, at + 8, 2) == USER_CODE && Field(pages, m, at + 32, 2) == USER_DATA
    ensures Field(pages, m, at + 24, 8) == STACK_TOP
  {
    var fields := ContextFields(entry, rflags);
    assert fields[0] in fields && fields[1] in fields && fields[2] in fields && fields[3] in fields && fields[4] in fields;
  }

  /** The low bits of a selector hold its privilege level. */
  lemma RingOf(selector: nat)
    requires selector % 0x1_0000 == USER_CODE
    ensures selector % 4 == 3
  {
    var high := selector / 0x1_0000;
    assert selector == 0x1_0000 * high + 51;
    assert selector == 4 * (0x4000 * high + 12) + 3;
  }

  lemma FrameFromFields(pages: map<Page, Frame>, m: seq<Byte>, frame: InterruptFrame, at: nat, entry: nat, rflags: nat)
    requires frame == InterruptFrame(Field(pages, m, at, 8), Field(pages, m, at + 8, 8), Field(pages, m, at + 16, 8),
                                     Field(pages, m, at + 24, 8), Field(pages, m, at + 32, 8))
    requires Field(pages, m, at, 8) == entry && Field(pages, m, at + 16, 8) == WithInterrupts(rflags)
    requires Field(pages, m, at + 8, 2) == USER_CODE && Field(pages, m, at + 32, 2) == USER_DATA
    requires Field(pages, m, at + 24, 8) == STACK_TOP
    ensures EntersUser(frame, entry, rflags)
  {
    LowHalf(pages, m, at + 8);
    LowHalf(pages, m, at + 32);
    RingOf(Field(pages, m, at + 8, 8));
    FlagIsSet(rflags);
  }

  lemma InStackMapped(p: map<Page, Frame>, a: nat, n: nat)
    requires StackMapped(p) && STACK <= a && a + n <= STACK_TOP
    ensures MappedRange(p, a, n)
  {
    forall u: nat | a <= u < a + n
      ensures IsMapped(p, u)
    {
      assert STACK_RANGE.first <= u / 4096 <= STACK_RANGE.last;
    }
  }

  /** The context left on the stack enters the image at its entry point, in ring 3. */
  lemma StoredFrame(p: map<Page, Frame>, m: seq<Byte>, mem: Memory, entry: nat, rflags: nat)
    requires StackMapped(p) && UserContext(p, m, entry, rflags) && Views(mem, p, m)
    ensures EntersUser(LoadContext(mem, USER_RSP).frame, entry, rflags)
  {
    ContextParts(p, m, USER_FRAME, entry, rflags);
    InStackMapped(p, USER_FRAME, 40);
    FrameWords(p, m, mem, USER_RSP, USER_FRAME);
    FrameFromFields(p, m, LoadContext(mem, USER_RSP).frame, USER_FRAME, entry, rflags);
  }

  /* ---- the saved registers, which the loader does not store ---- */

  const ZERO_REGISTERS: Registers := Registers(0, 0, 0, 0, 0, 0, 0, 0, 0, 0, 0, 0, 0, 0, 0)

  /** The k-th of the saved words on the stack. */
  function SavedWord(p: map<Page, Frame>, m: seq<Byte>, k: nat): nat {
    Field(p, m, USER_RSP + 8 * k, 8)
  }

  /** The registers that the first switch loads, as the bytes behind the page map have them. */
  function SavedRegisters(p: map<Page, Frame>, m: seq<Byte>): Registers {
    Registers(SavedWord(p, m, 14), SavedWord(p, m, 13), SavedWord(p, m, 12), SavedWord(p, m, 11), SavedWord(p, m, 10),
              SavedWord(p, m, 9), SavedWord(p, m, 8), SavedWord(p, m, 7), SavedWord(p, m, 6), SavedWord(p, m, 5),
              SavedWord(p, m, 4), SavedWord(p, m, 3), SavedWord(p, m, 2), SavedWord(p, m, 1), SavedWord(p, m, 0))
  }

  /** The bytes from which the first switch loads the registers. */
  ghost predicate RegisterByte(u: nat) {
    USER_RSP <= u < USER_FRAME
  }

  lemma SavedWordRead(p: map<Page, Frame>, m: seq<Byte>, mem: Memory, k: nat)
    requires StackMapped(p) && Views(mem, p, m) && k < 15
    ensures Read(mem, USER_RSP + 8 * k) == SavedWord(p, m, k)
  {
    InStackMapped(p, USER_RSP + 8 * k, 1);
    assert IsMapped(p, USER_RSP + 8 * k);
  }

  lemma LoadedRegisters(p: map<Page, Frame>, m: seq<Byte>, mem: Memory)
    requires StackMapped(p) && Views(mem, p, m)
    ensures LoadContext(mem, USER_RSP).regs == SavedRegisters(p, m)
  {
    forall k: nat | k < 15
      ensures Read(mem, USER_RSP + 8 * k) == SavedWord(p, m, k)
    {
      SavedWordRead(p, m, mem, k);
    }
  }

  lemma ZeroWordBytes(p: map<Page, Frame>, m: seq<Byte>, k: nat)
    requires k < 15
    ensures SavedWord(p, m, k) == 0 <==> forall u: nat :: RegisterByte(u) && (u - USER_RSP) / 8 == k ==> Peek(p, m, u) == 0
  {
    var a := USER_RSP + 8 * k;
    ZeroField(p, m, a, 8);
    assert forall u: nat :: a <= u < a + 8 <==> RegisterByte(u) && (u - USER_RSP) / 8 == k;
  }

  /** The registers are zero exactly when all their bytes are. */
  lemma RegistersZero(p: map<Page, Frame>, m: seq<Byte>)
    ensures SavedRegisters(p, m) == ZERO_REGISTERS <==> forall u: nat :: RegisterByte(u) ==> Peek(p, m, u) == 0
  {
    ZeroWords(p, m);
    forall k: nat | k < 15
      ensures SavedWord(p, m, k) == 0 <==> forall u: nat :: RegisterByte(u) && (u - USER_RSP) / 8 == k ==> Peek(p, m, u) == 0
    {
      ZeroWordBytes(p, m, k);
    }
    forall u: nat | RegisterByte(u)
      ensures (forall k: nat :: k < 15 ==> SavedWord(p, m, k) == 0) ==> Peek(p, m, u) == 0
    {
      assert SavedWord(p, m, (u - USER_RSP) / 8) == 0 ==> Peek(p, m, u) == 0;
    }
  }

  lemma ZeroWords(p: map<Page, Frame>, m: seq<Byte>)
    ensures SavedRegisters(p, m) == ZERO_REGISTERS <==> forall k: nat :: k < 15 ==> SavedWord(p, m, k) == 0
  {
    if SavedRegisters(p, m) == ZERO_REGISTERS {
      forall k: nat | k < 15
        ensures SavedWord(p, m, k) == 0
      {
      }
    }
  }

  /** Bytes 8 to 127 of a frame are zero. */
  ghost predicate ClearedFrame(m: seq<Byte>, f: Frame) {
    forall k: nat :: 8 <= k < 128 ==> FrameByte(m, f, k) == 0
  }

  /** The register bytes are bytes 8 to 127 of the frame behind page 0x1fc. */
  lemma RegisterByteAt(p: map<Page, Frame>, m: seq<Byte>, q: Page, k: nat)
    requires q == 0x1fc && q in p
    ensures 8 <= k < 128 <==> RegisterByte(q * 4096 + k)
    ensures 8 <= k < 128 ==> Peek(p, m, q * 4096 + k) == FrameByte(m, p[q], k)
  {
    if 8 <= k < 128 {
      PageIsFrame(p, m, q, k);
    }
  }

  lemma RegisterFrame(p: map<Page, Frame>, m: seq<Byte>, q: Page)
    requires q == 0x1fc && q in p
    ensures (forall u: nat :: RegisterByte(u) ==> Peek(p, m, u) == 0) <==> ClearedFrame(m, p[q])
  {
    forall k: nat | 8 <= k < 128
      ensures RegisterByte(q * 4096 + k) && Peek(p, m, q * 4096 + k) == FrameByte(m, p[q], k)
    {
      RegisterByteAt(p, m, q, k);
    }
    forall u: nat | RegisterByte(u)
      ensures 8 <= u - q * 4096 < 128 && Peek(p, m, u) == FrameByte(m, p[q], u - q * 4096)
    {
      RegisterByteAt(p, m, q, u - q * 4096);
    }
  }

  /** The registers are zero exactly when those bytes of the frame are. */
  lemma ZeroIffCleared(p: map<Page, Frame>, m: seq<Byte>, q: Page)
    requires q == 0x1fc && q in p
    ensures SavedRegisters(p, m) == ZERO_REGISTERS <==> ClearedFrame(m, p[q])
  {
    RegistersZero(p, m);
    RegisterFrame(p, m, q);
  }

  /** The thread control block at the start of that page points to itself, where the FS base is set. */
  lemma ThreadBlock(p0: map<Page, Frame>, m0: seq<Byte>, p: map<Page, Frame>, m: seq<Byte>, entry: nat, rflags: nat)
    requires FirstStack(p0, m0, p, m, entry, rflags)
    ensures Field(p, m, 0x1fc000, 8) == 0x1fc000
  {
    var fields := ContextFields(entry, rflags);
    assert fields[5] in fields;
  }

  /** A word among the saved registers is what its bytes in the frame were before loading. */
  lemma SavedWordStale(p: map<Page, Frame>, m0: seq<Byte>, m: seq<Byte>, entry: nat, rflags: nat, k: nat)
    requires StaleOutside(p, m0, m, ContextFields(entry, rflags)) && k < 15
    ensures SavedWord(p, m, k) == SavedWord(p, m0, k)
  {
    var a := USER_RSP + 8 * k;
    forall u: nat | a <= u < a + 8
      ensures Peek(p, m, u) == Peek(p, m0, u)
    {
      assert InStackRange(u) && !InField(u, ContextFields(entry, rflags));
    }
    SameField(p, m0, m, a, 8);
  }

  /**
   * What the saved registers of a new user process are: the words that the frame behind the stack
   * page at 0x1fc000 held before loading.
   */
  lemma SavedRegistersStale(p: map<Page, Frame>, m0: seq<Byte>, m: seq<Byte>, entry: nat, rflags: nat)
    requires StaleOutside(p, m0, m, ContextFields(entry, rflags))
    ensures SavedRegisters(p, m) == SavedRegisters(p, m0)
  {
    forall k: nat | k < 15
      ensures SavedWord(p, m, k) == SavedWord(p, m0, k)
    {
      SavedWordStale(p, m0, m, entry, rflags, k);
    }
  }

  /* ---- the user process joins ---- */

  /** The stack that the processor switches to when it interrupts ring 3. */
  ghost predicate PrivilegeWord(privilegeStack: nat, a: nat) {
    a < privilegeStack <= a + (SAVED + DEPTH)
  }

  /** What the new process owns: the pages mapped for it and the privilege stack. */
  ghost function UserArea(privilegeStack: nat, p0: map<Page, Frame>, p: map<Page, Frame>): set<nat> {
    (set q, k: nat | q in p && q !in p0 && k < 4096 :: AddrIn(q, k))
    + (set a: nat | a < privilegeStack && PrivilegeWord(privilegeStack, a))
  }

  lemma InUserArea(privilegeStack: nat, p0: map<Page, Frame>, p: map<Page, Frame>, a: nat)
    ensures a in UserArea(privilegeStack, p0, p) <==> (IsMapped(p, a) && !IsMapped(p0, a)) || PrivilegeWord(privilegeStack, a)
  {
    if IsMapped(p, a) && !IsMapped(p0, a) {
      assert a == AddrIn(a / 4096, a % 4096);
    }
  }

  /** Processes own mapped memory only, and none owns the privilege stack. */
  ghost predicate OwnMapped(privilegeStack: nat, own: map<nat, nat>, p0: map<Page, Frame>) {
    forall a: nat :: a in own ==> IsMapped(p0, a) && !PrivilegeWord(privilegeStack, a)
  }

  lemma AreaUnowned(privilegeStack: nat, own: map<nat, nat>, p0: map<Page, Frame>, p: map<Page, Frame>)
    requires OwnMapped(privilegeStack, own, p0)
    ensures forall a: nat :: a in UserArea(privilegeStack, p0, p) ==> a !in own
  {
    forall a: nat | a in UserArea(privilegeStack, p0, p)
      ensures a !in own
    {
      InUserArea(privilegeStack, p0, p, a);
    }
  }

  lemma OutsideAreaKept(privilegeStack: nat, p0: map<Page, Frame>, m0: seq<Byte>, p: map<Page, Frame>, m: seq<Byte>,
                        mem: Memory, mem': Memory)
    requires Kept(p0, m0, p, m) && Views(mem, p0, m0) && Views(mem', p, m)
    ensures forall a: nat :: a !in UserArea(privilegeStack, p0, p) ==> Read(mem', a) == Read(mem, a)
  {
    forall a: nat | a !in UserArea(privilegeStack, p0, p)
      ensures Read(mem', a) == Read(mem, a)
    {
      InUserArea(privilegeStack, p0, p, a);
      KeptWord(p0, m0, p, m, a);
    }
  }

  /** The area is given to process i. */
  ghost predicate Granted(own: map<nat, nat>, own': map<nat, nat>, area: set<nat>, i: nat) {
    forall a: nat, j: nat :: ContextRuns.OwnedBy(own', a, j) <==> ContextRuns.OwnedBy(own, a, j) || (a in area && j == i)
  }

  lemma AreaHolds(privilegeStack: nat, own: map<nat, nat>, own': map<nat, nat>, p0: map<Page, Frame>, p: map<Page, Frame>, i: nat)
    requires StackNew(p0, p) && Granted(own, own', UserArea(privilegeStack, p0, p), i) && privilegeStack >= SAVED + DEPTH
    ensures ContextRuns.Owns(own', i, USER_RSP, USER_RSP + SAVED)
    ensures ContextRuns.Owns(own', i, privilegeStack - SAVED - DEPTH, privilegeStack)
  {
    forall a: nat | USER_RSP <= a < USER_RSP + SAVED || privilegeStack - SAVED - DEPTH <= a < privilegeStack
      ensures ContextRuns.OwnedBy(own', a, i)
    {
      if USER_RSP <= a < USER_RSP + SAVED {
        assert STACK_RANGE.first <= a / 4096 <= STACK_RANGE.last;
      }
      InUserArea(privilegeStack, p0, p, a);
    }
  }

  /**
   * `add_user_process` in the machine: the words of memory are those of the bytes behind the page
   * map before and after; what the loader promises of the bytes holds; the process joins the list
   * and owns what was mapped for it, and the privilege stack.
   */
  ghost predicate LoadsUser(privilegeStack: nat, w: ContextRuns.World, w': ContextRuns.World,
                            p0: map<Page, Frame>, m0: seq<Byte>, p: map<Page, Frame>, m: seq<Byte>, entry: nat, rflags: nat) {
    && Views(w.m.mem, p0, m0) && Views(w'.m.mem, p, m)
    && Kept(p0, m0, p, m) && FirstStack(p0, m0, p, m, entry, rflags)
    && Joins(privilegeStack, w, w', p0, p)
  }

  ghost predicate Joins(privilegeStack: nat, w: ContextRuns.World, w': ContextRuns.World, p0: map<Page, Frame>, p: map<Page, Frame>) {
    && privilegeStack >= SAVED + DEPTH && OwnMapped(privilegeStack, w.own, p0)
    && Granted(w.own, w'.own, UserArea(privilegeStack, p0, p), |w.m.sched.procs|)
    && w.m.sched.current < |w.m.sched.procs| && w'.m.sched.current == w.m.sched.current
    && w'.m.sched.procs == w.m.sched.procs + [Scheduler.Process(Scheduler.READY, USER_RSP, Some(ARENA))]
    && w'.m.running == w.m.running
  }

  lemma JoinIsSpawn(privilegeStack: nat, w: ContextRuns.World, w': ContextRuns.World,
                    p0: map<Page, Frame>, p: map<Page, Frame>, entry: nat, rflags: nat)
    requires Joins(privilegeStack, w, w', p0, p) && StackNew(p0, p)
    requires EntersUser(LoadContext(w'.m.mem, USER_RSP).frame, entry, rflags)
    requires forall a: nat :: a !in UserArea(privilegeStack, p0, p) ==> Read(w'.m.mem, a) == Read(w.m.mem, a)
    ensures ContextRuns.Step(privilegeStack, w, ContextRuns.Spawn(UserArea(privilegeStack, p0, p), USER_RSP, Some(ARENA)), w')
  {
    AreaUnowned(privilegeStack, w.own, p0, p);
    AreaHolds(privilegeStack, w.own, w'.own, p0, p, |w.m.sched.procs|);
  }

  /** What `AddUserProcess` does is a joining step. */
  lemma AddUserProcessIsSpawn(privilegeStack: nat, w: ContextRuns.World, w': ContextRuns.World,
                              p0: map<Page, Frame>, m0: seq<Byte>, p: map<Page, Frame>, m: seq<Byte>, entry: nat, rflags: nat)
    requires LoadsUser(privilegeStack, w, w', p0, m0, p, m, entry, rflags)
    ensures ContextRuns.Step(privilegeStack, w, ContextRuns.Spawn(UserArea(privilegeStack, p0, p), USER_RSP, Some(ARENA)), w')
  {
    StoredFrame(p, m, w'.m.mem, entry, rflags);
    OutsideAreaKept(privilegeStack, p0, m0, p, m, w.m.mem, w'.m.mem);
    JoinIsSpawn(privilegeStack, w, w', p0, p, entry, rflags);
  }

  /** All steps but step a are steps of the machine. */
  ghost predicate StepsExcept(privilegeStack: nat, ws: seq<ContextRuns.World>, ks: seq<ContextRuns.Kind>, a: nat) {
    && |ws| == |ks| + 1 && a < |ks| && ContextRuns.Inv(privilegeStack, ws[0])
    && forall n :: 0 <= n < |ks| && n != a ==> ContextRuns.Step(privilegeStack, ws[n], ks[n], ws[n + 1])
  }

  lemma CompleteTrace(privilegeStack: nat, ws: seq<ContextRuns.World>, ks: seq<ContextRuns.Kind>, a: nat)
    requires StepsExcept(privilegeStack, ws, ks, a) && ContextRuns.Step(privilegeStack, ws[a], ks[a], ws[a + 1])
    ensures ContextRuns.Trace(privilegeStack, ws, ks)
  {
  }

  /** In a run in which step a loads the user process, its first dispatch loads the context left on its stack. */
  lemma UserDispatch(privilegeStack: nat, ws: seq<ContextRuns.World>, ks: seq<ContextRuns.Kind>, a: nat, b: nat, area: set<nat>)
    requires StepsExcept(privilegeStack, ws, ks, a) && ContextRuns.Step(privilegeStack, ws[a], ks[a], ws[a + 1])
    requires ks[a] == ContextRuns.Spawn(area, USER_RSP, Some(ARENA)) && a < b < |ks| && ks[b].Tick?
    requires ContextRuns.Waiting(ws, |ws[a].m.sched.procs|, a + 1, b) && ws[b + 1].m.sched.current == |ws[a].m.sched.procs|
    ensures ws[b + 1].m.running == LoadContext(ws[a + 1].m.mem, USER_RSP)
  {
    CompleteTrace(privilegeStack, ws, ks, a);
    ContextRuns.FirstDispatch(privilegeStack, ws, ks, a, b);
  }

  lemma StoredContext(p0: map<Page, Frame>, m0: seq<Byte>, p: map<Page, Frame>, m: seq<Byte>, mem: Memory, entry: nat, rflags: nat)
    requires FirstStack(p0, m0, p, m, entry, rflags) && Views(mem, p, m)
    ensures EntersUser(LoadContext(mem, USER_RSP).frame, entry, rflags)
    ensures LoadContext(mem, USER_RSP).regs == SavedRegisters(p, m0) && 0x1fc in p
    ensures LoadContext(mem, USER_RSP).regs == ZERO_REGISTERS <==> ClearedFrame(m0, p[0x1fc])
  {
    assert STACK_RANGE.first <= 0x1fc <= STACK_RANGE.last;
    ZeroIffCleared(p, m0, 0x1fc);
    StoredFrame(p, m, mem, entry, rflags);
    LoadedRegisters(p, m, mem);
    SavedRegistersStale(p, m0, m, entry, rflags);
  }

  /**
   * The user process loaded at step a first runs, at the tick b that first chooses it, at the
   * entry point of its image, in ring 3, with its stack pointer at the top of its stack and
   * interrupts on. Its registers are what the frame behind the stack page at 0x1fc000 held before
   * loading, and so they are zero exactly when bytes 8 to 127 of that frame were.
   */
  lemma UserProcessStarts(privilegeStack: nat, ws: seq<ContextRuns.World>, ks: seq<ContextRuns.Kind>, a: nat, b: nat,
                          p0: map<Page, Frame>, m0: seq<Byte>, p: map<Page, Frame>, m: seq<Byte>, entry: nat, rflags: nat)
    requires StepsExcept(privilegeStack, ws, ks, a) && a < b < |ks| && ks[b].Tick?
    requires ks[a] == ContextRuns.Spawn(UserArea(privilegeStack, p0, p), USER_RSP, Some(ARENA))
    requires LoadsUser(privilegeStack, ws[a], ws[a + 1], p0, m0, p, m, entry, rflags)
    requires var i := |ws[a].m.sched.procs|;
             ContextRuns.Waiting(ws, i, a + 1, b) && ws[b + 1].m.sched.current == i
    ensures var c := ws[b + 1].m.running;
            && EntersUser(c.frame, entry, rflags)
            && c.regs == SavedRegisters(p, m0) && 0x1fc in p
            && (c.regs == ZERO_REGISTERS <==> ClearedFrame(m0, p[0x1fc]))
  {
    AddUserProcessIsSpawn(privilegeStack, ws[a], ws[a + 1], p0, m0, p, m, entry, rflags);
    UserDispatch(privilegeStack, ws, ks, a, b, UserArea(privilegeStack, p0, p));
    StoredContext(p0, m0, p, m, ws[a + 1].m.mem, entry, rflags);
  }

  /* ---- a user process that does not start with zeroed registers ---- */

  /** Page 1 is behind frame 0, which is all zero; frames 1 to 31 are free and hold ones. */
  const USED: map<Page, Frame> := map[1 := 0]

  function OldByte(i: nat): Byte {
    if i < 4096 then 0 else 1
  }

  ghost predicate OldMemory(m: seq<Byte>) {
    |m| == 0x2_0000 && forall i :: 0 <= i < |m| ==> m[i] == OldByte(i)
  }

  ghost predicate ExampleFrames(frames: seq<Frame>) {
    |frames| == 31 && Distinct(frames) && forall f :: f in frames ==> 1 <= f <= 31
  }

  const REGION: MemoryRegion := MemoryRegion(0x1000, 0x2_0000, Usable)

  lemma ExampleRegions(r: MemoryRegion)
    requires r == REGION
    ensures ExampleFrames(UsableFrames([r]))
  {
    RegionFramesAt(r.start, r.end);
    assert [r][1..] == [];
    assert UsableFrames([r]) == RegionFrames(r.start, r.end) + UsableFrames([]);
  }

  /** The image is a page of zeros: no segments, entry point 0. */
  lemma ZeroImage(m: seq<Byte>, elf: nat)
    requires OldMemory(m) && elf == 4096
    ensures Readable(USED, m, elf) && Segments(USED, m, elf) == [] && Entry(USED, m, elf) == 0
  {
    forall u: nat | elf <= u < elf + 4096
      ensures IsMapped(USED, u) && Peek(USED, m, u) == 0
    {
      assert u / 4096 == 1;
    }
    ZeroField(USED, m, elf + 24, 8);
    ZeroField(USED, m, elf + 32, 8);
    ZeroField(USED, m, elf + 56, 2);
  }

  lemma ExampleMaps(frames: seq<Frame>, b: Books)
    requires ExampleFrames(frames) && b.pages == USED && b.taken == {}
    ensures MapRanges(frames, b, LoadRanges([])).1 == Mapped
  {
    AllFree(frames, b);
    PayForRange(frames, b, STACK_RANGE);
  }

  lemma StackFramesUsable(frames: seq<Frame>, b: Books, c: Books, r: Range)
    requires Owned(frames, b) && (c, Mapped) == MapRanges(frames, b, [r])
    ensures forall p :: r.first <= p <= r.last && p !in b.pages ==> p in c.pages && c.pages[p] in frames
  {
    OneRange(frames, b, r);
    MapRangeOutcome(frames, b, r.first, r.last);
  }

  /** Free frames are drawn for the pages of the stack, and they are not cleared. */
  lemma StackFrameWasDirty(frames: seq<Frame>, pages: map<Page, Frame>, m: seq<Byte>)
    requires ExampleFrames(frames) && OldMemory(m)
    requires forall p :: STACK_RANGE.first <= p <= STACK_RANGE.last ==> p in pages && pages[p] in frames
    ensures forall u: nat :: RegisterByte(u) ==> Peek(pages, m, u) == 1
  {
    forall u: nat | RegisterByte(u)
      ensures Peek(pages, m, u) == 1
    {
      assert STACK_RANGE.first <= u / 4096 <= STACK_RANGE.last;
      FreeFrameIsDirty(pages, m, u);
    }
  }

  lemma FreeFrameIsDirty(pages: map<Page, Frame>, m: seq<Byte>, u: nat)
    requires OldMemory(m) && IsMapped(pages, u) && 1 <= pages[u / 4096] <= 31
    ensures Peek(pages, m, u) == 1
  {
    assert 4096 <= Phys(pages, u) < 0x2_0000;
  }

  /** The machine of the example before loading. */
  method ExampleMachine(regions: seq<MemoryRegion>) returns (mapper: Mapper, bits: BitmapAllocator, list: Scheduler.ProcessList)
    requires ExampleFrames(UsableFrames(regions))
    ensures fresh(mapper) && fresh(mapper.phys) && fresh(bits) && fresh(bits.bitmap) && fresh(list)
    ensures Sound(mapper, Bitmap(bits)) && bits.Frames() == UsableFrames(regions) && bits.Taken() == {}
    ensures mapper.pages == USED && OldMemory(mapper.phys[..]) && list as object != bits.bitmap
    ensures list.View() == Scheduler.BOOTED
  {
    var phys := new Byte[0x2_0000](i requires 0 <= i < 0x2_0000 => OldByte(i));
    mapper := new Mapper(USED, map[], phys);
    var bitmap := new bool[31](_ => false);
    bits := new BitmapAllocator(regions, bitmap);
    list := new Scheduler.ProcessList();
  }

  /**
   * A concrete machine on which loading succeeds and the first switch to the process loads
   * registers that are not zero: every one of their bytes is 1.
   */
  method DirtyRegisters(rflags: nat) returns (p: map<Page, Frame>, m0: seq<Byte>, m: seq<Byte>, list: Scheduler.ProcessList)
    requires WithInterrupts(rflags) < WORD_LIMIT
    ensures FirstStack(USED, m0, p, m, 0, rflags) && Kept(USED, m0, p, m)
    ensures fresh(list) && list.View() == WITH_USER
    ensures forall u: nat :: RegisterByte(u) ==> Peek(p, m0, u) == 1
    ensures SavedRegisters(p, m) != ZERO_REGISTERS
  {
    ExampleRegions(REGION);
    var elf := 4096;
    var mapper, bits;
    mapper, bits, list := ExampleMachine([REGION]);
    m0 := mapper.phys[..];
    ghost var b, frames := mapper.Ledger(Bitmap(bits)), bits.Frames();
    ExampleReady(frames, b, m0, elf);
    LoadMappable(mapper, bits, list, elf, rflags, LoadRanges(Segments(USED, m0, elf)));
    p, m := mapper.pages, mapper.phys[..];
    DirtyAfter(frames, b, mapper.Ledger(Bitmap(bits)), m0, m, rflags);
  }

  lemma ExampleReady(frames: seq<Frame>, b: Books, m0: seq<Byte>, elf: nat)
    requires ExampleFrames(frames) && b.pages == USED && b.taken == {} && OldMemory(m0) && elf == 4096
    ensures Readable(USED, m0, elf) && Entry(USED, m0, elf) == 0
    ensures LoadRanges(Segments(USED, m0, elf)) == [STACK_RANGE]
    ensures MapRanges(frames, b, LoadRanges(Segments(USED, m0, elf))).1 == Mapped
  {
    ZeroImage(m0, elf);
    ExampleMaps(frames, b);
  }

  lemma DirtyAfter(frames: seq<Frame>, b: Books, c: Books, m0: seq<Byte>, m: seq<Byte>, rflags: nat)
    requires ExampleFrames(frames) && Owned(frames, b) && b.pages == USED && OldMemory(m0)
    requires (c, Mapped) == MapRanges(frames, b, [STACK_RANGE]) && FirstStack(USED, m0, c.pages, m, 0, rflags)
    ensures forall u: nat :: RegisterByte(u) ==> Peek(c.pages, m0, u) == 1
    ensures SavedRegisters(c.pages, m) != ZERO_REGISTERS
  {
    StackFramesUsable(frames, b, c, STACK_RANGE);
    StackFrameWasDirty(frames, c.pages, m0);
    StaleByteSet(USED, m0, c.pages, m, 0, rflags, USER_RSP);
  }

  /** A register byte that was not zero in its frame is loaded into a register. */
  lemma StaleByteSet(p0: map<Page, Frame>, m0: seq<Byte>, p: map<Page, Frame>, m: seq<Byte>, entry: nat, rflags: nat, u: nat)
    requires FirstStack(p0, m0, p, m, entry, rflags) && RegisterByte(u) && Peek(p, m0, u) != 0
    ensures SavedRegisters(p, m) != ZERO_REGISTERS
  {
    SavedRegistersStale(p, m0, m, entry, rflags);
    RegistersZero(p, m0);
  }

  /** Loading an image that can be mapped. */
  method LoadMappable(mapper: Mapper, bits: BitmapAllocator, list: Scheduler.ProcessList, elf: nat, rflags: nat, ghost ranges: seq<Range>)
    requires Sound(mapper, Bitmap(bits)) && list as object != bits.bitmap && WithInterrupts(rflags) < WORD_LIMIT
    requires Readable(mapper.pages, mapper.phys[..], elf) && ranges == LoadRanges(Segments(mapper.pages, mapper.phys[..], elf))
    requires MapRanges(bits.Frames(), mapper.Ledger(Bitmap(bits)), ranges).1 == Mapped
    modifies mapper, mapper.phys, bits.bitmap, list`procs
    ensures Kept(old(mapper.pages), old(mapper.phys[..]), mapper.pages, mapper.phys[..])
    ensures list.procs == old(list.procs) + [Scheduler.Process(Scheduler.READY, USER_RSP, Some(ARENA))]
    ensures bits.Valid() && (mapper.Ledger(Bitmap(bits)), Mapped) == MapRanges(bits.Frames(), old(mapper.Ledger(Bitmap(bits))), ranges)
    ensures FirstStack(old(mapper.pages), old(mapper.phys[..]), mapper.pages, mapper.phys[..],
                       Entry(old(mapper.pages), old(mapper.phys[..]), elf), rflags)
  {
    var src := Bitmap(bits);
    assert src.Repr() == {bits.bitmap};
    var _ := AddUserProcess(elf, mapper, src, list, rflags);
  }

  /* ---- the same machine at its first tick ---- */

  /** Process 0 runs in page 1, which it owns; the privilege stack lies elsewhere. */
  const RING0: InterruptFrame := InterruptFrame(0, KERNEL_CODE, 0, 0x2000, KERNEL_DATA)
  const PRIVILEGE_STACK: nat := 0x30_0000

  ghost predicate InBootPage(a: nat) {
    0x1000 <= a < 0x2000
  }

  ghost function BootOwn(): map<nat, nat> {
    map a | 0x1000 <= a < 0x2000 && InBootPage(a) :: 0
  }

  /** The world in which the loader runs, and the one it leaves. */
  ghost function BootWorld(m0: seq<Byte>): ContextRuns.World {
    ContextRuns.World(Machine(Context(ZERO_REGISTERS, RING0), WordMemory(USED, m0), Scheduler.BOOTED), BootOwn())
  }

  ghost function LoadedWorld(p: map<Page, Frame>, m: seq<Byte>): ContextRuns.World {
    ContextRuns.World(Machine(Context(ZERO_REGISTERS, RING0), WordMemory(p, m), WITH_USER),
                      BootOwn() + map a | a in UserArea(PRIVILEGE_STACK, USED, p) :: 1)
  }

  lemma BootRoom(own: map<nat, nat>, frame: InterruptFrame)
    requires frame == RING0 && own == BootOwn()
    ensures ContextRuns.Room(own, 0, frame, PRIVILEGE_STACK) && StackTop(frame, PRIVILEGE_STACK) == 0x2000
  {
    assert forall a: nat :: InBootPage(a) ==> ContextRuns.OwnedBy(own, a, 0);
  }

  lemma BootOwnMapped()
    ensures OwnMapped(PRIVILEGE_STACK, BootOwn(), USED)
  {
    forall a: nat | a in BootOwn()
      ensures IsMapped(USED, a) && !PrivilegeWord(PRIVILEGE_STACK, a)
    {
      assert InBootPage(a) && a / 4096 == 1;
    }
  }

  lemma GrantArea(own: map<nat, nat>, area: set<nat>, i: nat)
    requires forall a: nat :: a in area ==> a !in own
    ensures Granted(own, own + map a | a in area :: i, area, i)
  {
  }

  lemma ExampleLoads(p: map<Page, Frame>, m0: seq<Byte>, m: seq<Byte>, rflags: nat)
    requires FirstStack(USED, m0, p, m, 0, rflags) && Kept(USED, m0, p, m)
    ensures LoadsUser(PRIVILEGE_STACK, BootWorld(m0), LoadedWorld(p, m), USED, m0, p, m, 0, rflags)
    ensures ContextRuns.Inv(PRIVILEGE_STACK, BootWorld(m0))
  {
    WordMemoryViews(USED, m0);
    WordMemoryViews(p, m);
    BootOwnMapped();
    AreaUnowned(PRIVILEGE_STACK, BootOwn(), USED, p);
    GrantArea(BootOwn(), UserArea(PRIVILEGE_STACK, USED, p), 1);
    BootRoom(BootOwn(), RING0);
  }

  /** The first tick on this machine: the user process starts, and its registers are not zero. */
  method FirstTick(rflags: nat) returns (running: Registers)
    requires WithInterrupts(rflags) < WORD_LIMIT
    ensures running != ZERO_REGISTERS
  {
    var p, m0, m, list := DirtyRegisters(rflags);
    ExampleLoads(p, m0, m, rflags);
    var cpu := new Cpu(ZERO_REGISTERS, RING0, WordMemory(p, m), PRIVILEGE_STACK);
    BootRoom(BootOwn(), RING0);
    cpu.TimerHandler(list, ZERO_REGISTERS, map[], map[]);
    TickIsFirst(p, m0, m, rflags, cpu.mem, cpu.View(list));
    SavedRegistersStale(p, m0, m, 0, rflags);
    running := cpu.regs;
  }

  lemma TwoSteps(privilegeStack: nat, w0: ContextRuns.World, k0: ContextRuns.Kind, w1: ContextRuns.World, k: ContextRuns.Kind, w2: ContextRuns.World)
    requires ContextRuns.Inv(privilegeStack, w0) && ContextRuns.Step(privilegeStack, w1, k, w2)
    ensures StepsExcept(privilegeStack, [w0, w1, w2], [k0, k], 0)
  {
    var ws, ks := [w0, w1, w2], [k0, k];
    assert ws[1] == w1 && ks[1] == k && ws[2] == w2;
  }

  /** Loading, and a tick that chooses the user process: a run of two steps. */
  lemma LoadThenTick(privilegeStack: nat, w0: ContextRuns.World, w1: ContextRuns.World, k: ContextRuns.Kind, w2: ContextRuns.World,
                     p0: map<Page, Frame>, m0: seq<Byte>, p: map<Page, Frame>, m: seq<Byte>, entry: nat, rflags: nat)
    requires ContextRuns.Inv(privilegeStack, w0) && LoadsUser(privilegeStack, w0, w1, p0, m0, p, m, entry, rflags)
    requires ContextRuns.Step(privilegeStack, w1, k, w2) && k.Tick? && w2.m.sched.current == |w0.m.sched.procs|
    ensures EntersUser(w2.m.running.frame, entry, rflags) && w2.m.running.regs == SavedRegisters(p, m0)
  {
    var k0 := ContextRuns.Spawn(UserArea(privilegeStack, p0, p), USER_RSP, Some(ARENA));
    TwoSteps(privilegeStack, w0, k0, w1, k, w2);
    UserProcessStarts(privilegeStack, [w0, w1, w2], [k0, k], 0, 1, p0, m0, p, m, entry, rflags);
  }

  lemma LoadedInv(p: map<Page, Frame>, m0: seq<Byte>, m: seq<Byte>, rflags: nat)
    requires FirstStack(USED, m0, p, m, 0, rflags) && Kept(USED, m0, p, m)
    ensures ContextRuns.Inv(PRIVILEGE_STACK, LoadedWorld(p, m))
  {
    var w0, w1 := BootWorld(m0), LoadedWorld(p, m);
    ExampleLoads(p, m0, m, rflags);
    AddUserProcessIsSpawn(PRIVILEGE_STACK, w0, w1, USED, m0, p, m, 0, rflags);
    ContextRuns.StepKeepsInv(PRIVILEGE_STACK, w0, ContextRuns.Spawn(UserArea(PRIVILEGE_STACK, USED, p), USER_RSP, Some(ARENA)), w1);
  }

  lemma ExampleTick(p: map<Page, Frame>, m: seq<Byte>, mem: Memory, after: Machine)
    requires ContextRuns.Inv(PRIVILEGE_STACK, LoadedWorld(p, m))
    requires Saves(Context(ZERO_REGISTERS, RING0), 0x2000, WordMemory(p, m), mem, map[])
    requires after == TickStep(LoadedWorld(p, m).m, PRIVILEGE_STACK, mem)
    ensures ContextRuns.Step(PRIVILEGE_STACK, LoadedWorld(p, m), ContextRuns.Tick(map[]), ContextRuns.World(after, LoadedWorld(p, m).own))
    ensures after.sched.current == 1
  {
    BootRoom(BootOwn(), RING0);
    ContextRuns.HandlerIsTimerStep(PRIVILEGE_STACK, LoadedWorld(p, m), map[], mem);
    Scheduler.TickAdvances(WITH_USER, 0x2000 - SAVED);
  }

  /** With this tick all premises of UserProcessStarts are met. */
  lemma TickIsFirst(p: map<Page, Frame>, m0: seq<Byte>, m: seq<Byte>, rflags: nat, mem: Memory, after: Machine)
    requires FirstStack(USED, m0, p, m, 0, rflags) && Kept(USED, m0, p, m)
    requires Saves(Context(ZERO_REGISTERS, RING0), 0x2000, WordMemory(p, m), mem, map[])
    requires after == TickStep(LoadedWorld(p, m).m, PRIVILEGE_STACK, mem)
    ensures EntersUser(after.running.frame, 0, rflags) && after.running.regs == SavedRegisters(p, m0)
  {
    var w0, w1 := BootWorld(m0), LoadedWorld(p, m);
    LoadedInv(p, m0, m, rflags);
    ExampleTick(p, m, mem, after);
    ExampleLoads(p, m0, m, rflags);
    LoadThenTick(PRIVILEGE_STACK, w0, w1, ContextRuns.Tick(map[]), ContextRuns.World(after, w1.own), USED, m0, p, m, 0, rflags);
  }
}
