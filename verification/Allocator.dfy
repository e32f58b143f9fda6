/**
 * The kernel heap as it is: a singly linked list of free regions whose nodes are written into
 * the first sixteen bytes of the regions they describe.
 */
module Allocator {
  import opened Wrappers
  import opened Words
  import opened HeapModel
  import opened HeapInvariants
  import opened HeapRuns

  /** The heap's memory in 64-bit words. */
  const SLOTS: nat := HEAP_SIZE / 8

  function Slot(addr: nat): nat
    requires InHeap(addr)
  {
    (addr - HEAP_START) / 8
  }

  function SlotAddr(k: nat): nat {
    HEAP_START + 8 * k
  }

  /** A node occupies two words: the size of the region and the address of the next node. */
  predicate IsNodeAddr(a: nat) {
    a % 8 == 0 && HEAP_START <= a && a + NODE_SIZE <= HEAP_END
  }

  function AddrOf(rs: seq<Region>, i: nat): nat {
    if i < |rs| then rs[i].start else 0
  }

  ghost predicate NodeAt(m: seq<Word>, r: Region, next: nat)
    requires |m| == SLOTS
  {
    IsNodeAddr(r.start) && m[Slot(r.start)] == r.size && m[Slot(r.start) + 1] == next
  }

  ghost predicate Linked(m: seq<Word>, rs: seq<Region>, i: nat)
    requires |m| == SLOTS && i < |rs|
  {
    NodeAt(m, rs[i], AddrOf(rs, i + 1))
  }

  /** Starting at `head` the memory holds a null-terminated list of exactly these regions. */
  ghost predicate IsList(m: seq<Word>, head: nat, rs: seq<Region>)
    requires |m| == SLOTS
  {
    && head == AddrOf(rs, 0)
    && forall i :: 0 <= i < |rs| ==> Linked(m, rs, i)
  }

  /** No two nodes share a word. */
  ghost predicate Apart(rs: seq<Region>) {
    forall i, j :: 0 <= i < j < |rs| ==>
      rs[i].start + NODE_SIZE <= rs[j].start || rs[j].start + NODE_SIZE <= rs[i].start
  }

  ghost predicate ApartFrom(addr: nat, rs: seq<Region>) {
    forall i :: 0 <= i < |rs| ==>
      rs[i].start + NODE_SIZE <= addr || addr + NODE_SIZE <= rs[i].start
  }

  /** The word is the `next` field of one of the nodes. */
  ghost predicate IsNextSlot(rs: seq<Region>, k: nat) {
    exists i :: 0 <= i < |rs| && IsNodeAddr(rs[i].start) && k == Slot(rs[i].start) + 1
  }

  /** The word is inside one of the regions. */
  ghost predicate SlotIn(k: nat, rs: seq<Region>) {
    exists i :: 0 <= i < |rs| && Covers(rs[i], SlotAddr(k))
  }

  lemma FreeNodesApart(s: HeapState)
    requires Inv(s)
    ensures Apart(s.free)
    ensures forall i :: 0 <= i < |s.free| ==> IsNodeAddr(s.free[i].start) && s.free[i].End() <= HEAP_END
  {
    forall i | 0 <= i < |s.free|
      ensures IsNodeAddr(s.free[i].start) && s.free[i].End() <= HEAP_END
    {
      FreeInHeap(s, i);
      assert FreeOk(s.free[i]);
    }
    forall i, j | 0 <= i < j < |s.free|
      ensures s.free[i].start + NODE_SIZE <= s.free[j].start || s.free[j].start + NODE_SIZE <= s.free[i].start
    {
      PiecesDisjoint(s, i, j);
      assert Pieces(s)[i] == s.free[i] && Pieces(s)[j] == s.free[j];
      assert FreeOk(s.free[i]) && FreeOk(s.free[j]);
    }
  }

  /** The search stops at the first region that does not merely misfit. */
  lemma {:induction false} FirstFitAt(free: seq<Region>, i: nat, size: nat, align: nat)
    requires i <= |free|
    requires forall k :: 0 <= k < i ==> AllocFromRegion(free[k], size, align) == Misfit
    ensures i == |free| ==> FirstFit(free, size, align) == NotFound
    ensures i < |free| ==>
              match AllocFromRegion(free[i], size, align)
              case Fits(start) => FirstFit(free, size, align) == Found(i, start)
              case Overflow => FirstFit(free, size, align) == Overflowed
              case Misfit => true
  {
    if i > 0 {
      assert forall k :: 0 <= k < i - 1 ==> free[1..][k] == free[k + 1];
      FirstFitAt(free[1..], i - 1, size, align);
    }
  }

  /* ---- acyclicity ---- */

  /** The pointer reached by following `next` n times. */
  function Follow(m: seq<Word>, p: nat, n: nat): nat
    requires |m| == SLOTS
    decreases n
  {
    if n == 0 then p
    else if IsNodeAddr(p) then Follow(m, m[Slot(p) + 1], n - 1)
    else 0
  }

  lemma {:induction false} FollowReaches(m: seq<Word>, rs: seq<Region>, i: nat, n: nat)
    requires |m| == SLOTS && IsList(m, AddrOf(rs, 0), rs) && i + n <= |rs|
    ensures Follow(m, AddrOf(rs, i), n) == AddrOf(rs, i + n)
    decreases n
  {
    if n > 0 {
      assert Linked(m, rs, i);
      FollowReaches(m, rs, i + 1, n - 1);
    }
  }

  /**
   * In every valid heap the list is acyclic: following `next` from the head visits each free
   * region once, at distinct non-null addresses, and then reaches null.
   */
  lemma ListAcyclic(m: seq<Word>, head: nat, s: HeapState)
    requires |m| == SLOTS && Inv(s) && IsList(m, head, s.free)
    ensures Follow(m, head, |s.free|) == 0
    ensures forall i :: 0 <= i < |s.free| ==> Follow(m, head, i) == s.free[i].start && s.free[i].start != 0
    ensures forall i, j :: 0 <= i < j < |s.free| ==> Follow(m, head, i) != Follow(m, head, j)
  {
    FreeNodesApart(s);
    FollowReaches(m, s.free, 0, |s.free|);
    forall i | 0 <= i < |s.free|
      ensures Follow(m, head, i) == s.free[i].start
    {
      FollowReaches(m, s.free, 0, i);
    }
  }

  /* ---- who owns which word ---- */

  lemma FreeSlotNotLive(s: HeapState, k: nat)
    requires Inv(s) && SlotIn(k, s.free)
    ensures !SlotIn(k, Regions(s.live))
  {
    var i :| 0 <= i < |s.free| && Covers(s.free[i], SlotAddr(k));
    CoverMember(s.free, i, SlotAddr(k));
    assert TimesCovered(s, SlotAddr(k)) <= 1;
    if SlotIn(k, Regions(s.live)) {
      var j :| 0 <= j < |s.live| && Covers(Regions(s.live)[j], SlotAddr(k));
      CoverMember(Regions(s.live), j, SlotAddr(k));
    }
  }

  lemma NodeSlotFree(s: HeapState, i: nat)
    requires Inv(s) && i < |s.free|
    ensures IsNodeAddr(s.free[i].start)
    ensures SlotIn(Slot(s.free[i].start), s.free) && SlotIn(Slot(s.free[i].start) + 1, s.free)
  {
    FreeNodesApart(s);
    var r := s.free[i];
    assert FreeOk(r);
    assert Covers(r, SlotAddr(Slot(r.start))) && Covers(r, SlotAddr(Slot(r.start) + 1));
  }

  /**
   * Whatever clients write into the blocks they hold, the free list in memory stays the same
   * list: every word of every node is outside all live blocks.
   */
  lemma ClientWritesKeepList(m: seq<Word>, m': seq<Word>, head: nat, s: HeapState)
    requires |m| == |m'| == SLOTS && Inv(s) && IsList(m, head, s.free)
    requires forall k :: 0 <= k < SLOTS && !SlotIn(k, Regions(s.live)) ==> m'[k] == m[k]
    ensures IsList(m', head, s.free)
  {
    forall i | 0 <= i < |s.free|
      ensures Linked(m', s.free, i)
    {
      assert Linked(m, s.free, i);
      NodeSlotFree(s, i);
      var k := Slot(s.free[i].start);
      FreeSlotNotLive(s, k);
      FreeSlotNotLive(s, k + 1);
    }
  }

  /** The outcome of `find_region`: the unlinked node and the address of the block in it. */
  datatype FoundRegion = Unlinked(node: nat, start: nat) | NoRegion | Overflowing

  class LinkedListAllocator {
    /** `head.next`; zero is None. */
    var head: Word
    /** The words of the heap. */
    const mem: array<Word>
    /** The regions and blocks the memory stands for. */
    ghost var state: HeapState

    ghost predicate Valid()
      reads this, mem
    {
      mem.Length == SLOTS && Inv(state) && IsList(mem[..], head, state.free)
    }

    constructor (mem: array<Word>)
      requires mem.Length == SLOTS
      ensures this.mem == mem && head == 0
    {
      this.mem := mem;
      head := 0;
      state := INITIAL;
    }

    /** `init`: the whole heap becomes one free region. */
    method Init()
      requires mem.Length == SLOTS && head == 0
      modifies this, mem
      ensures Valid() && state == INITIAL
    {
      EightAligned(HEAP_START);
      AddFreeRegion(HEAP_START, HEAP_SIZE, []);
      assert [Region(HEAP_START, HEAP_SIZE)] + [] == INITIAL.free;
      state := INITIAL;
      InitialInv();
    }

    /** `add_free_region`: write a node into the region and make it the head of the list. */
    method AddFreeRegion(addr: nat, size: nat, ghost free: seq<Region>)
      requires mem.Length == SLOTS && IsList(mem[..], head, free)
      requires AlignUp(addr, NODE_ALIGN) == Some(addr) && size >= NODE_SIZE
      requires IsNodeAddr(addr) && addr + size <= HEAP_END && ApartFrom(addr, free)
      modifies this`head, mem
      ensures IsList(mem[..], head, [Region(addr, size)] + free)
      ensures forall k :: 0 <= k < SLOTS && k != Slot(addr) && k != Slot(addr) + 1 ==> mem[k] == old(mem[k])
    {
      ghost var m := mem[..];
      var next := head;
      mem[Slot(addr)] := size;
      mem[Slot(addr) + 1] := next;
      head := addr;
      ghost var rs := [Region(addr, size)] + free;
      forall i | 0 <= i < |rs|
        ensures Linked(mem[..], rs, i)
      {
        if i > 0 {
          assert rs[i] == free[i - 1];
          assert Linked(m, free, i - 1);
        }
      }
    }

    /** The pointer surgery of `find_region`: `current.next` skips the node, whose own `next` becomes None. */
    method Unlink(current: nat, region: nat, next: nat, ghost free: seq<Region>, ghost i: nat)
      requires mem.Length == SLOTS && IsList(mem[..], head, free) && Apart(free)
      requires i < |free| && region == free[i].start && next == AddrOf(free, i + 1)
      requires current == if i == 0 then 0 else free[i - 1].start
      modifies this`head, mem
      ensures IsList(mem[..], head, Without(free, i))
      ensures IsNodeAddr(region) && mem[Slot(region)] == free[i].size
      ensures forall k :: 0 <= k < SLOTS && !IsNextSlot(free, k) ==> mem[k] == old(mem[k])
    {
      ghost var m := mem[..];
      assert forall j :: 0 <= j < |free| ==> Linked(m, free, j);
      assert Linked(m, free, i) && (i > 0 ==> Linked(m, free, i - 1));
      mem[Slot(region) + 1] := 0;
      if current == 0 {
        head := next;
      } else {
        SlotsApart(free[i - 1].start, free[i].start);
        mem[Slot(current) + 1] := next;
      }
      UnlinkedList(m, mem[..], head, free, i);
    }

    /**
     * The walk of `find_region`: to the first region that does not merely misfit, or to the end of
     * the list. `current` is the node before it; 0 stands for the head of the list.
     */
    method Walk(size: nat, align: nat, ghost free: seq<Region>) returns (current: nat, region: nat, fit: Fit)
      requires mem.Length == SLOTS && IsList(mem[..], head, free)
      ensures match FirstFit(free, size, align)
              case Found(i, start) =>
                fit == Fits(start) && region == free[i].start && current == if i == 0 then 0 else free[i - 1].start
              case NotFound => fit == Misfit && region == 0
              case Overflowed => fit == Overflow
    {
      current, region, fit := 0, head, Misfit;
      ghost var i := 0;
      while region != 0
        invariant i <= |free| && region == AddrOf(free, i) && fit == Misfit
        invariant current == if i == 0 then 0 else free[i - 1].start
        invariant forall k :: 0 <= k < i ==> AllocFromRegion(free[k], size, align) == Misfit
        decreases |free| - i
      {
        assert Linked(mem[..], free, i);
        FirstFitAt(free, i, size, align);
        assert Region(region, mem[Slot(region)]) == free[i];
        fit := AllocFromRegion(Region(region, mem[Slot(region)]), size, align);
        if fit != Misfit {
          return;
        }
        current := region;
        region := mem[Slot(region) + 1];
        i := i + 1;
      }
      assert i < |free| ==> Linked(mem[..], free, i);
      FirstFitAt(free, i, size, align);
    }

    /** `find_region`: walk the list and unlink the first region that can hold the block. */
    method FindRegion(size: nat, align: nat, ghost free: seq<Region>) returns (r: FoundRegion)
      requires mem.Length == SLOTS && IsList(mem[..], head, free) && Apart(free)
      modifies this`head, mem
      ensures match FirstFit(free, size, align)
              case Found(i, start) =>
                && r == Unlinked(free[i].start, start)
                && IsNodeAddr(free[i].start) && mem[Slot(free[i].start)] == free[i].size
                && IsList(mem[..], head, Without(free, i))
              case NotFound => r == NoRegion && head == old(head) && mem[..] == old(mem[..])
              case Overflowed => r == Overflowing && head == old(head) && mem[..] == old(mem[..])
      ensures forall k :: 0 <= k < SLOTS && !IsNextSlot(free, k) ==> mem[k] == old(mem[k])
    {
      var current, region, fit := Walk(size, align, free);
      match fit
      case Fits(start) =>
        ghost var i := FirstFit(free, size, align).index;
        assert Linked(mem[..], free, i);
        var next := mem[Slot(region) + 1];
        Unlink(current, region, next, free, i);
        r := Unlinked(region, start);
      case Overflow =>
        r := Overflowing;
      case Misfit =>
        r := NoRegion;
    }

    /** `alloc`. */
    method Alloc(layout: Layout) returns (r: AllocResult)
      requires Valid() && ValidLayout(layout)
      modifies this, mem
      ensures Valid()
      ensures (state, r) == HeapModel.Alloc(old(state), layout)
      ensures forall k :: 0 <= k < SLOTS && SlotIn(k, Regions(old(state.live))) ==> mem[k] == old(mem[k])
    {
      ghost var s, m := state, mem[..];
      FreeNodesApart(s);
      AllocCases(s, layout);
      var found := FindRegion(BlockSize(layout), EffectiveAlign(layout), s.free);
      match found
      case NoRegion =>
        r := Null;
      case Overflowing =>
        r := Panic;
      case Unlinked(node, start) =>
        SplitOff(node, start, layout, s);
        NextSlotsFree(s);
        OnlyFreeSlots(s, m, mem[..]);
        r := Pointer(start);
    }

    /** The part of `alloc` behind a successful search. `s` is the state before it. */
    method SplitOff(node: nat, start: nat, layout: Layout, ghost s: HeapState)
      requires mem.Length == SLOTS && Inv(s) && ValidLayout(layout)
      requires match FirstFit(s.free, BlockSize(layout), EffectiveAlign(layout))
               case Found(i, a) =>
                 && a == start && node == s.free[i].start
                 && IsNodeAddr(node) && mem[Slot(node)] == s.free[i].size && IsList(mem[..], head, Without(s.free, i))
               case NotFound => false
               case Overflowed => false
      modifies this, mem
      ensures Valid() && HeapModel.Alloc(s, layout) == (state, Pointer(start))
      ensures forall k :: 0 <= k < SLOTS && !SlotIn(k, s.free) ==> mem[k] == old(mem[k])
    {
      AllocCases(s, layout);
      ghost var i := TailFacts(s, layout);
      GiveBackTail(node, start + BlockSize(layout), s, i);
      AllocKeepsInv(s, layout);
      state := HeapModel.Alloc(s, layout).0;
    }

    /** What is left behind the block becomes a free region. */
    method GiveBackTail(node: nat, end: nat, ghost s: HeapState, ghost i: nat)
      requires mem.Length == SLOTS && Inv(s) && i < |s.free| && end % 8 == 0
      requires node == s.free[i].start <= end && IsNodeAddr(node) && mem[Slot(node)] == s.free[i].size
      requires end == s.free[i].End() || end + NODE_SIZE <= s.free[i].End()
      requires IsList(mem[..], head, Without(s.free, i))
      modifies this`head, mem
      ensures IsList(mem[..], head, WithTail(s.free, i, end))
      ensures forall k :: 0 <= k < SLOTS && !SlotIn(k, s.free) ==> mem[k] == old(mem[k])
    {
      var excess := node + mem[Slot(node)] - end;
      if excess > 0 {
        TailNode(s, i, end);
        AddFreeRegion(end, excess, Without(s.free, i));
      }
    }

    /** `dealloc`. */
    method Dealloc(ptr: nat, layout: Layout)
      requires Valid() && LiveIndex(state.live, ptr, layout) < |state.live|
      modifies this, mem
      ensures Valid()
      ensures state == HeapModel.Dealloc(old(state), LiveIndex(old(state.live), ptr, layout))
      ensures state.free == [Region(ptr, BlockSize(layout))] + old(state.free) && state.lost == old(state.lost)
      ensures var j := LiveIndex(old(state.live), ptr, layout);
              state.live == old(state.live)[..j] + old(state.live)[j + 1..]
      ensures forall k :: 0 <= k < SLOTS && SlotIn(k, Regions(state.live)) ==> mem[k] == old(mem[k])
    {
      ghost var s, m := state, mem[..];
      ghost var j := LiveIndex(s.live, ptr, layout);
      var size := BlockSize(layout);
      BlockNode(s, j);
      AddFreeRegion(ptr, size, s.free);
      DeallocKeepsInv(s, j);
      state := HeapModel.Dealloc(s, j);
      ReleasedSlots(s, j, m, mem[..]);
    }

    /** A client stores a word in a block it holds. */
    method ClientWrite(j: nat, k: nat, w: Word)
      requires Valid() && j < |state.live| && k < SLOTS && Covers(state.live[j].region, SlotAddr(k))
      modifies mem
      ensures Valid()
      ensures mem[..] == old(mem[..])[k := w]
    {
      ghost var m := mem[..];
      mem[k] := w;
      assert Covers(Regions(state.live)[j], SlotAddr(k));
      ClientWritesKeepList(m, mem[..], head, state);
    }
  }

  lemma SlotsApart(a: nat, b: nat)
    requires IsNodeAddr(a) && IsNodeAddr(b)
    requires a + NODE_SIZE <= b || b + NODE_SIZE <= a
    ensures Slot(a) + 1 < Slot(b) || Slot(b) + 1 < Slot(a)
  {
  }

  /** Bypassing a node leaves the list of the other regions. */
  lemma UnlinkedList(m: seq<Word>, m': seq<Word>, head: nat, free: seq<Region>, i: nat)
    requires |m| == |m'| == SLOTS && i < |free| && Apart(free)
    requires IsList(m, AddrOf(free, 0), free)
    requires head == if i == 0 then AddrOf(free, 1) else AddrOf(free, 0)
    requires IsNodeAddr(free[i].start) && (i > 0 ==> IsNodeAddr(free[i - 1].start))
    requires forall k :: 0 <= k < SLOTS && k != Slot(free[i].start) + 1 && (i > 0 ==> k != Slot(free[i - 1].start) + 1) ==> m'[k] == m[k]
    requires i > 0 ==> m'[Slot(free[i - 1].start) + 1] == AddrOf(free, i + 1)
    ensures IsList(m', head, Without(free, i))
  {
    var rs := Without(free, i);
    forall j | 0 <= j < |rs|
      ensures Linked(m', rs, j)
    {
      var j' := if j < i then j else j + 1;
      assert Linked(m, free, j');
      UnlinkedNode(m, m', free, i, j');
    }
  }

  lemma UnlinkedNode(m: seq<Word>, m': seq<Word>, free: seq<Region>, i: nat, j: nat)
    requires |m| == |m'| == SLOTS && i < |free| && Apart(free)
    requires j < |free| && j != i && Linked(m, free, j)
    requires IsNodeAddr(free[i].start) && (i > 0 ==> IsNodeAddr(free[i - 1].start))
    requires forall k :: 0 <= k < SLOTS && k != Slot(free[i].start) + 1 && (i > 0 ==> k != Slot(free[i - 1].start) + 1) ==> m'[k] == m[k]
    requires i > 0 ==> m'[Slot(free[i - 1].start) + 1] == AddrOf(free, i + 1)
    ensures NodeAt(m', free[j], if j + 1 == i then AddrOf(free, i + 1) else AddrOf(free, j + 1))
  {
    SlotsApart(free[i].start, free[j].start);
    if i > 0 && j + 1 != i {
      SlotsApart(free[i - 1].start, free[j].start);
    }
  }

  lemma NextSlotsFree(s: HeapState)
    requires Inv(s)
    ensures forall k :: IsNextSlot(s.free, k) ==> SlotIn(k, s.free)
  {
    forall i | 0 <= i < |s.free|
      ensures IsNodeAddr(s.free[i].start) && SlotIn(Slot(s.free[i].start) + 1, s.free)
    {
      NodeSlotFree(s, i);
    }
  }

  /** Writing only inside free regions leaves all live blocks as they are. */
  lemma OnlyFreeSlots(s: HeapState, m: seq<Word>, m': seq<Word>)
    requires Inv(s) && |m| == |m'| == SLOTS
    requires forall k :: 0 <= k < SLOTS && !SlotIn(k, s.free) ==> m'[k] == m[k]
    ensures forall k :: 0 <= k < SLOTS && SlotIn(k, Regions(s.live)) ==> m'[k] == m[k]
  {
    forall k | 0 <= k < SLOTS && SlotIn(k, Regions(s.live))
      ensures m'[k] == m[k]
    {
      if SlotIn(k, s.free) {
        FreeSlotNotLive(s, k);
      }
    }
  }

  lemma AllocCases(s: HeapState, layout: Layout)
    ensures match FirstFit(s.free, BlockSize(layout), EffectiveAlign(layout))
            case Found(i, start) => HeapModel.Alloc(s, layout).1 == Pointer(start)
            case NotFound => HeapModel.Alloc(s, layout) == (s, Null)
            case Overflowed => HeapModel.Alloc(s, layout) == (s, Panic)
  {
  }

  /** What `alloc` knows once the search has succeeded. */
  lemma TailFacts(s: HeapState, layout: Layout) returns (i: nat)
    requires Inv(s) && ValidLayout(layout) && HeapModel.Alloc(s, layout).1.Pointer?
    ensures i < |s.free|
    ensures var start, size := HeapModel.Alloc(s, layout).1.addr, BlockSize(layout);
            var end := start + size;
            && FirstFit(s.free, size, EffectiveAlign(layout)) == Found(i, start)
            && s.free[i].start <= end && end % 8 == 0
            && (end == s.free[i].End() || end + NODE_SIZE <= s.free[i].End())
            && HeapModel.Alloc(s, layout).0.free == WithTail(s.free, i, end)
  {
    var start;
    i, start := FoundFacts(s, layout);
    BlockSizeAligned(layout);
    EndFacts(s.free[i], start, BlockSize(layout), EffectiveAlign(layout));
    var end := start + BlockSize(layout);
    assert Tail(s.free[i], end) + Without(s.free, i) == WithTail(s.free, i, end);
  }

  ghost function WithTail(free: seq<Region>, i: nat, end: nat): seq<Region>
    requires i < |free| && end <= free[i].End()
  {
    if end == free[i].End() then Without(free, i)
    else [Region(end, free[i].End() - end)] + Without(free, i)
  }

  lemma BlockSizeAligned(layout: Layout)
    requires ValidLayout(layout)
    ensures BlockSize(layout) % 8 == 0
  {
    LayoutFacts(layout);
  }

  lemma EndFacts(r: Region, start: nat, size: nat, align: nat)
    requires align > 0 && CanHold(r, size, align) && start == RoundUp(r.start, align)
    requires start % 8 == 0 && size % 8 == 0 && r.start <= start
    ensures (start + size) % 8 == 0 && r.start <= start + size
    ensures start + size == r.End() || start + size + NODE_SIZE <= r.End()
  {
  }

  /** The tail of a split region can take a node, apart from all other nodes. */
  lemma TailNode(s: HeapState, i: nat, end: nat)
    requires Inv(s) && i < |s.free| && end % 8 == 0
    requires s.free[i].start <= end && end + NODE_SIZE <= s.free[i].End()
    ensures AlignUp(end, NODE_ALIGN) == Some(end) && IsNodeAddr(end) && s.free[i].End() <= HEAP_END
    ensures ApartFrom(end, Without(s.free, i))
    ensures SlotIn(Slot(end), s.free) && SlotIn(Slot(end) + 1, s.free)
  {
    FreeInHeap(s, i);
    EightAligned(end);
    assert Covers(s.free[i], SlotAddr(Slot(end))) && Covers(s.free[i], SlotAddr(Slot(end) + 1));
    var rest := Without(s.free, i);
    forall k | 0 <= k < |rest|
      ensures rest[k].start + NODE_SIZE <= end || end + NODE_SIZE <= rest[k].start
    {
      OthersApart(s, i, if k < i then k else k + 1);
    }
  }

  lemma OthersApart(s: HeapState, i: nat, k: nat)
    requires Inv(s) && i < |s.free| && k < |s.free| && k != i
    ensures Disjoint(s.free[i], s.free[k]) && s.free[k].size >= NODE_SIZE
  {
    assert FreeOk(s.free[k]);
    assert s.free[k] == Pieces(s)[k] && s.free[i] == Pieces(s)[i];
    if k < i {
      PiecesDisjoint(s, k, i);
    } else {
      PiecesDisjoint(s, i, k);
    }
  }

  lemma EightAligned(a: nat)
    requires a % 8 == 0 && a + NODE_ALIGN < WORD_LIMIT
    ensures AlignUp(a, NODE_ALIGN) == Some(a)
  {
    Pow2Word();
    assert IsPow2(NODE_ALIGN) by { assert NODE_ALIGN == Pow2(3); }
    AlignUpCorrect(a, NODE_ALIGN);
  }

  /** Writing a node into a block that is released leaves all other live blocks as they are. */
  lemma ReleasedSlots(s: HeapState, j: nat, m: seq<Word>, m': seq<Word>)
    requires Inv(s) && j < |s.live| && Inv(HeapModel.Dealloc(s, j)) && |m| == |m'| == SLOTS
    requires forall k :: 0 <= k < SLOTS && k != Slot(s.live[j].region.start) && k != Slot(s.live[j].region.start) + 1 ==> m'[k] == m[k]
    ensures forall k :: 0 <= k < SLOTS && SlotIn(k, Regions(HeapModel.Dealloc(s, j).live)) ==> m'[k] == m[k]
  {
    var t, slot := HeapModel.Dealloc(s, j), Slot(s.live[j].region.start);
    BlockNode(s, j);
    NodeSlotFree(t, 0);
    FreeSlotNotLive(t, slot);
    FreeSlotNotLive(t, slot + 1);
  }

  /** A live block can take a node, apart from all nodes of the free list. */
  lemma BlockNode(s: HeapState, j: nat)
    requires Inv(s) && j < |s.live|
    ensures var r := s.live[j].region;
            && AlignUp(r.start, NODE_ALIGN) == Some(r.start) && IsNodeAddr(r.start)
            && r.size == BlockSize(s.live[j].layout) >= NODE_SIZE && r.End() <= HEAP_END
            && ApartFrom(r.start, s.free)
  {
    assert LiveOk(s.live[j]);
    LayoutFacts(s.live[j].layout);
    LiveDisjoint(s, j);
    EightAligned(s.live[j].region.start);
    forall k | 0 <= k < |s.free|
      ensures s.free[k].start + NODE_SIZE <= s.live[j].region.start || s.live[j].region.start + NODE_SIZE <= s.free[k].start
    {
      assert FreeOk(s.free[k]);
    }
  }
}
