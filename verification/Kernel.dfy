/**
 * Heap initialization, the allocation system call, and the boot sequence that ties the users of
 * physical frames together.
 */
module Kernel {
  import opened Wrappers
  import opened Words
  import opened Frames
  import opened FrameAllocators
  import opened PagingModel
  import opened FrameBudget
  import opened Paging
  import opened VirtualMemory
  import opened Loader
  import opened HeapModel
  import opened Allocator
  import Scheduler

  const HEAP_RANGE: Range := Range(0xffff_ffff_7fe0_0000 / 4096, (0xffff_ffff_8000_0000 - 1) / 4096)

  /** The heap range is the 512 pages that hold the addresses of the heap, the two megabytes below 0xffff_ffff_8000_0000. */
  lemma HeapPages(q: Page)
    ensures HEAP_RANGE.first <= q <= HEAP_RANGE.last <==> exists a: nat :: InHeap(a) && a / 4096 == q
    ensures HEAP_RANGE.last - HEAP_RANGE.first + 1 == 512 && HEAP_END == 0xffff_ffff_8000_0000
  {
    if HEAP_RANGE.first <= q <= HEAP_RANGE.last {
      assert InHeap(q * 4096) && q * 4096 / 4096 == q;
    }
  }

  /** `init_heap`: map the pages of the heap, then hand the heap to the allocator. */
  method InitHeap(mapper: Mapper, src: FrameSource, heap: LinkedListAllocator) returns (res: MapResult)
    requires Sound(mapper, src) && heap.mem.Length == SLOTS && heap.head == 0
    requires heap as object !in src.Repr() && heap.mem as object !in src.Repr() && heap.mem as object != mapper.phys
    modifies mapper, mapper.phys, src.Repr(), heap, heap.mem
    ensures Sound(mapper, src)
    ensures (mapper.Ledger(src), res) ==
            PagingModel.MapRange(src.Frames(), old(mapper.Ledger(src)), HEAP_START / 4096, (HEAP_START + HEAP_SIZE - 1) / 4096)
    ensures Kept(old(mapper.pages), old(mapper.phys[..]), mapper.pages, mapper.phys[..])
    ensures res == Mapped ==> OwnPages(mapper.pages, HEAP_RANGE) && heap.Valid() && heap.state == INITIAL
    ensures res == Mapped && old(src.Intact()) ==> src.Intact()
  {
    res := MapLoop(mapper, src, HEAP_RANGE);
    if res == Mapped {
      StartHeap(heap, mapper, src);
    }
  }

  method StartHeap(heap: LinkedListAllocator, ghost mapper: Mapper, ghost src: FrameSource)
    requires Sound(mapper, src) && heap.mem.Length == SLOTS && heap.head == 0
    requires heap as object !in src.Repr() && heap.mem as object !in src.Repr() && heap.mem as object != mapper.phys
    modifies heap, heap.mem
    ensures Sound(mapper, src) && mapper.Ledger(src) == old(mapper.Ledger(src))
    ensures mapper.phys[..] == old(mapper.phys[..]) && src.Intact() == old(src.Intact())
    ensures heap.Valid() && heap.state == INITIAL
  {
    heap.Init();
  }

  /* ---- the allocation system call ---- */

  /** Pages needed for a number of bytes. */
  function PagesFor(size: nat): nat {
    (size + 4095) / 4096
  }

  const UPPER_HALF: nat := 0xffff_8000_0000_0000

  /** Where the last page of the lower half starts; no page range can be walked over that page. */
  const LAST_LOW_PAGE_START: nat := 0x7fff_ffff_f000

  /** The block ends below the last page of the lower half. */
  predicate Addressable(start: nat, size: nat) {
    0 < start + size <= LAST_LOW_PAGE_START
  }

  /** The end of the block is computed without a panic: it is in one of the two canonical halves. */
  predicate HasEnd(start: nat, size: nat) {
    0 < start + size && (start + size < CANONICAL_LIMIT || UPPER_HALF < start + size < WORD_LIMIT)
  }

  /**
   * The pages that a call goes through: those of the block. When it ends beyond what can be walked
   * they are those up to the page before the last of the lower half, and then the call panics;
   * when its end is no address it panics at once.
   */
  function TriedRange(start: nat, size: nat): Range {
    if Addressable(start, size) then Range(start / 4096, (start + size - 1) / 4096)
    else if HasEnd(start, size) then Range(start / 4096, 0x7_ffff_fffe)
    else Range(1, 0)
  }

  /** A page starts there; it is not page 0. */
  predicate PageAddr(a: nat) {
    a > 0 && a % 4096 == 0
  }

  /** Where the bump pointer is after a block. */
  function NextBump(start: nat, size: nat): nat {
    start + PagesFor(size) * 4096
  }

  lemma NextPageAddr(start: nat, size: nat)
    requires PageAddr(start)
    ensures PageAddr(NextBump(start, size))
  {
  }

  /** The books, the bump pointer of the process, and the block returned; None is a panic. */
  datatype Anon = Anon(books: Books, bump: nat, block: Option<nat>)

  function AnonStep(frames: seq<Frame>, b: Books, start: nat, size: nat): Anon {
    var t := TriedRange(start, size);
    var (c, r) := PagingModel.MapRange(frames, b, t.first, t.last);
    if r != Mapped || !Addressable(start, size) then Anon(c, start, None)
    else Anon(c, start + RangeBytes(t), Some(start))
  }

  /** `page_range.size()`. */
  function RangeBytes(r: Range): nat {
    if r.first <= r.last then (r.last - r.first + 1) * 4096 else 0
  }

  lemma AnonStepIs(frames: seq<Frame>, b: Books, start: nat, size: nat, t: Range, c: Books, r: MapResult)
    requires t == TriedRange(start, size) && (c, r) == PagingModel.MapRange(frames, b, t.first, t.last)
    ensures AnonStep(frames, b, start, size) ==
            if r != Mapped || !Addressable(start, size) then Anon(c, start, None) else Anon(c, start + RangeBytes(t), Some(start))
  {
  }

  /** The process list with the arena of one process moved on. */
  function WithBump(procs: seq<Scheduler.Process>, i: nat, bump: nat): seq<Scheduler.Process>
    requires i < |procs|
  {
    procs[i := procs[i].(pages := Some(bump))]
  }

  /** The mapping part of the call; None is a panic of `unwrap` or of the address arithmetic. */
  method MapBlock(start: nat, size: nat, mapper: Mapper, src: FrameSource) returns (bump: Option<nat>)
    requires Sound(mapper, src)
    modifies mapper, mapper.phys, src.Repr()
    ensures Sound(mapper, src)
    ensures Kept(old(mapper.pages), old(mapper.phys[..]), mapper.pages, mapper.phys[..])
    ensures AnonStep(src.Frames(), old(mapper.Ledger(src)), start, size) ==
            if bump.Some? then Anon(mapper.Ledger(src), bump.value, Some(start)) else Anon(mapper.Ledger(src), start, None)
  {
    var range := TriedRange(start, size);
    ghost var b := mapper.Ledger(src);
    var res := MapLoop(mapper, src, range);
    AnonStepIs(src.Frames(), b, start, size, range, mapper.Ledger(src), res);
    bump := if res != Mapped || !Addressable(start, size) then None else Some(start + RangeBytes(range));
  }

  /** `anon_allocate_syscall`. */
  method AnonAllocate(size: nat, mapper: Mapper, src: FrameSource, list: Scheduler.ProcessList) returns (block: Option<nat>)
    requires Sound(mapper, src) && list.Valid() && list.procs[list.current].pages.Some?
    requires list as object !in src.Repr()
    modifies mapper, mapper.phys, src.Repr(), list`procs
    ensures Sound(mapper, src) && list.Valid()
    ensures Kept(old(mapper.pages), old(mapper.phys[..]), mapper.pages, mapper.phys[..])
    ensures Anon(mapper.Ledger(src), list.procs[list.current].pages.GetOr(0), block) ==
            AnonStep(src.Frames(), old(mapper.Ledger(src)), old(list.procs[list.current].pages.value), size)
    ensures list.procs == WithBump(old(list.procs), list.current, list.procs[list.current].pages.GetOr(0))
  {
    var start := list.procs[list.current].pages.value;
    var bump := MapBlock(start, size, mapper, src);
    if bump.None? {
      return None;
    }
    Advance(list, bump.value, mapper, src);
    return Some(start);
  }

  /** The bump pointer of the current process moves on. */
  method Advance(list: Scheduler.ProcessList, bump: nat, ghost mapper: Mapper, ghost src: FrameSource)
    requires Sound(mapper, src) && list.Valid() && list as object !in src.Repr()
    modifies list`procs
    ensures Sound(mapper, src) && mapper.Ledger(src) == old(mapper.Ledger(src))
    ensures list.procs == WithBump(old(list.procs), list.current, bump)
  {
    list.procs := WithBump(list.procs, list.current, bump);
  }

  /** No page from the bump pointer on, up to the end of the lower half, is mapped. */
  ghost predicate ArenaFree(b: Books, bump: nat) {
    forall p :: p in b.pages ==> p < bump / 4096 || p >= CANONICAL_LIMIT / 4096
  }

  lemma RangeLength(start: nat, size: nat)
    requires start % 4096 == 0 && start + size > 0
    ensures (start + size - 1) / 4096 - start / 4096 + 1 == PagesFor(size)
  {
  }

  /** The pages of c beyond those of b are exactly n pages from `first` on. */
  ghost predicate Added(b: Books, c: Books, first: Page, n: nat) {
    forall p :: p in c.pages && p !in b.pages <==> first <= p < first + n
  }

  lemma MappedAdds(frames: seq<Frame>, b: Books, c: Books, first: Page, last: int, n: nat)
    requires Extends(b, c) && OnlyNew(frames, b, c, first, last) && NoneMapped(b, first, last) && AllMapped(c, first, last)
    requires last - first + 1 == n
    ensures Added(b, c, first, n)
  {
  }

  lemma ArenaMoves(b: Books, c: Books, start: nat, n: nat)
    requires ArenaFree(b, start) && start % 4096 == 0 && Added(b, c, start / 4096, n)
    ensures ArenaFree(c, start + n * 4096)
  {
    forall p | p in c.pages
      ensures p < (start + n * 4096) / 4096 || p >= CANONICAL_LIMIT / 4096
    {
      if p in b.pages {
        assert p < start / 4096 || p >= CANONICAL_LIMIT / 4096;
      } else {
        assert start / 4096 <= p < start / 4096 + n;
      }
    }
  }

  lemma ArenaUnmapped(b: Books, start: nat, size: nat)
    requires ArenaFree(b, start)
    ensures NoneMapped(b, TriedRange(start, size).first, TriedRange(start, size).last)
  {
  }

  /** One call keeps ownership and leaks nothing. */
  lemma AnonStepOwned(frames: seq<Frame>, b: Books, start: nat, size: nat)
    requires Owned(frames, b)
    ensures var a := AnonStep(frames, b, start, size);
            Owned(frames, a.books) && Extends(b, a.books) && (a.block.Some? ==> NoLeak(b, a.books))
  {
    var t := TriedRange(start, size);
    MapRangeOwned(frames, b, t.first, t.last);
  }

  /** What a range of unmapped pages costs decides whether it is mapped. */
  lemma RangeExact(frames: seq<Frame>, b: Books, r: Range)
    requires NoneMapped(b, r.first, r.last)
    ensures PagingModel.MapRange(frames, b, r.first, r.last).1 ==
            if Cost(b.tables.Keys, PagesOf([r])) <= Free(frames, b) then Mapped else Failed(FrameAllocationFailed)
  {
    var ranges := [r];
    assert Clear(b, ranges);
    ClearExact(frames, b, ranges);
    OneRange(frames, b, r);
  }

  /**
   * One call with a free arena succeeds exactly when the block is addressable and the free frames
   * pay for its pages and the tables lacking for them.
   */
  lemma AnonStepExact(frames: seq<Frame>, b: Books, start: nat, size: nat)
    requires PageAddr(start) && ArenaFree(b, start)
    ensures AnonStep(frames, b, start, size).block.Some? <==>
            Addressable(start, size) && Cost(b.tables.Keys, PagesOf([TriedRange(start, size)])) <= Free(frames, b)
  {
    ArenaUnmapped(b, start, size);
    RangeExact(frames, b, TriedRange(start, size));
    AnonStepMaps(frames, b, start, size);
  }

  /**
   * One call with a free arena: when it succeeds it returns the page-aligned bump pointer, maps
   * exactly the pages of the block, none of which was mapped, and moves the bump pointer past them.
   */
  lemma AnonStepKeeps(frames: seq<Frame>, b: Books, start: nat, size: nat)
    requires Owned(frames, b) && PageAddr(start) && ArenaFree(b, start)
    ensures var a := AnonStep(frames, b, start, size);
            && (a.block.None? ==> a.bump == start)
            && (a.block.Some? ==>
                  && a.block.value == start && a.bump == NextBump(start, size)
                  && Added(b, a.books, start / 4096, PagesFor(size))
                  && ArenaFree(a.books, a.bump) && PageAddr(a.bump))
  {
    var t := TriedRange(start, size);
    AnonStepMaps(frames, b, start, size);
    NextPageAddr(start, size);
    if AnonStep(frames, b, start, size).block.Some? {
      BlockAdded(frames, b, PagingModel.MapRange(frames, b, t.first, t.last).0, start, size);
    }
  }

  /** A successful call adds the pages of the block and leaves the arena behind it free. */
  lemma BlockAdded(frames: seq<Frame>, b: Books, c: Books, start: nat, size: nat)
    requires Owned(frames, b) && PageAddr(start) && ArenaFree(b, start) && Addressable(start, size)
    requires var t := TriedRange(start, size);
             (c, Mapped) == PagingModel.MapRange(frames, b, t.first, t.last)
    ensures Added(b, c, start / 4096, PagesFor(size)) && ArenaFree(c, NextBump(start, size))
  {
    var t := TriedRange(start, size);
    RangeLength(start, size);
    MapRangeOwned(frames, b, t.first, t.last);
    MapRangeOutcome(frames, b, t.first, t.last);
    MappedAdds(frames, b, c, t.first, t.last, PagesFor(size));
    ArenaMoves(b, c, start, PagesFor(size));
  }

  /** What a call does, with the distance the bump pointer moves. */
  lemma AnonStepMaps(frames: seq<Frame>, b: Books, start: nat, size: nat)
    requires PageAddr(start)
    ensures var t := TriedRange(start, size);
            var (c, r) := PagingModel.MapRange(frames, b, t.first, t.last);
            AnonStep(frames, b, start, size) ==
            if r == Mapped && Addressable(start, size) then Anon(c, NextBump(start, size), Some(start)) else Anon(c, start, None)
  {
    if Addressable(start, size) {
      RangeLength(start, size);
    }
  }

  /* ---- all calls of a process ---- */

  /** Any number of calls; the run stops at a panic (ok is false). */
  datatype AnonLog = AnonLog(books: Books, bump: nat, blocks: seq<nat>, ok: bool)

  function AnonRun(frames: seq<Frame>, b: Books, start: nat, sizes: seq<nat>): AnonLog
    decreases |sizes|
  {
    if sizes == [] then AnonLog(b, start, [], true)
    else
      var a := AnonStep(frames, b, start, sizes[0]);
      if a.block.None? then AnonLog(a.books, a.bump, [], false)
      else
        var rest := AnonRun(frames, a.books, a.bump, sizes[1..]);
        rest.(blocks := [a.block.value] + rest.blocks)
  }

  /** Over all calls ownership is kept and nothing leaks. */
  lemma {:induction false} AnonRunOwned(frames: seq<Frame>, b: Books, start: nat, sizes: seq<nat>)
    requires Owned(frames, b)
    ensures var l := AnonRun(frames, b, start, sizes);
            Owned(frames, l.books) && Extends(b, l.books) && (l.ok ==> NoLeak(b, l.books))
    decreases |sizes|
  {
    if sizes != [] {
      AnonStepOwned(frames, b, start, sizes[0]);
      var a := AnonStep(frames, b, start, sizes[0]);
      if a.block.Some? {
        AnonRunOwned(frames, a.books, a.bump, sizes[1..]);
        var l := AnonRun(frames, a.books, a.bump, sizes[1..]);
        ExtendsTransitive(b, a.books, l.books);
        if l.ok {
          NoLeakTransitive(b, a.books, l.books);
        }
      }
    }
  }

  /** Every block of a run of calls is addressable. */
  predicate AllAddressable(start: nat, sizes: seq<nat>)
    decreases |sizes|
  {
    sizes != [] ==> Addressable(start, sizes[0]) && AllAddressable(NextBump(start, sizes[0]), sizes[1..])
  }

  /** The ranges a run of calls goes through; it ends with the first that is not addressable. */
  function AnonRanges(start: nat, sizes: seq<nat>): seq<Range>
    decreases |sizes|
  {
    if sizes == [] then []
    else [TriedRange(start, sizes[0])] +
         if Addressable(start, sizes[0]) then AnonRanges(NextBump(start, sizes[0]), sizes[1..]) else []
  }

  lemma AnonRangesStep(start: nat, sizes: seq<nat>)
    requires sizes != []
    ensures var next := NextBump(start, sizes[0]);
            && AnonRanges(start, sizes) ==
               [TriedRange(start, sizes[0])] + (if Addressable(start, sizes[0]) then AnonRanges(next, sizes[1..]) else [])
            && (AllAddressable(start, sizes) <==> Addressable(start, sizes[0]) && AllAddressable(next, sizes[1..]))
  {
  }

  /** The log of a run of n calls, next to what mapping their ranges comes to. */
  ghost predicate LogMaps(l: AnonLog, addressable: bool, n: nat, d: Books, r: MapResult) {
    && l.books == d && (l.ok <==> addressable && r == Mapped)
    && |l.blocks| <= n && (l.ok <==> |l.blocks| == n)
  }

  lemma LogMapsFirst(start: nat, l: AnonLog, addressable: bool, n: nat, d: Books, r: MapResult)
    requires LogMaps(l, addressable, n, d, r)
    ensures LogMaps(Prefixed([start], l), addressable, n + 1, d, r)
  {
  }

  /** A run of calls: it is over after the first, or goes on from the books c, and so does mapping the ranges. */
  lemma FirstCall(frames: seq<Frame>, b: Books, start: nat, sizes: seq<nat>, l: AnonLog, d: Books, r: MapResult)
    returns (c: Books, more: bool)
    requires sizes != [] && PageAddr(start)
    requires l == AnonRun(frames, b, start, sizes) && (d, r) == MapRanges(frames, b, AnonRanges(start, sizes))
    ensures var next := NextBump(start, sizes[0]);
            if more then
              && PageAddr(next) && l == Prefixed([start], AnonRun(frames, c, next, sizes[1..]))
              && (d, r) == MapRanges(frames, c, AnonRanges(next, sizes[1..]))
              && (AllAddressable(start, sizes) <==> AllAddressable(next, sizes[1..]))
            else LogMaps(l, AllAddressable(start, sizes), |sizes|, d, r)
  {
    var t, next := TriedRange(start, sizes[0]), NextBump(start, sizes[0]);
    var rest := if Addressable(start, sizes[0]) then AnonRanges(next, sizes[1..]) else [];
    NextPageAddr(start, sizes[0]);
    AnonRunFirst(frames, b, start, sizes);
    AnonRangesStep(start, sizes);
    RangesFirst(frames, b, t, rest);
    var (c', m') := PagingModel.MapRange(frames, b, t.first, t.last);
    c, more := c', m' == Mapped && Addressable(start, sizes[0]);
  }

  /** A run of calls maps these ranges, and succeeds exactly when they can be mapped and all are addressable. */
  lemma {:induction false} AnonRunMaps(frames: seq<Frame>, b: Books, start: nat, sizes: seq<nat>, l: AnonLog, d: Books, r: MapResult)
    requires PageAddr(start)
    requires l == AnonRun(frames, b, start, sizes) && (d, r) == MapRanges(frames, b, AnonRanges(start, sizes))
    ensures LogMaps(l, AllAddressable(start, sizes), |sizes|, d, r)
    decreases |sizes|
  {
    if sizes != [] {
      var c, more := FirstCall(frames, b, start, sizes, l, d, r);
      if more {
        var next := NextBump(start, sizes[0]);
        var rest := sizes[1..];
        assert |rest| == |sizes| - 1;
        AnonRunMaps(frames, c, next, rest, AnonRun(frames, c, next, rest), d, r);
        LogMapsFirst(start, AnonRun(frames, c, next, rest), AllAddressable(next, rest), |rest|, d, r);
      }
    }
  }

  lemma AnonRunIsRanges(frames: seq<Frame>, b: Books, start: nat, sizes: seq<nat>)
    requires PageAddr(start)
    ensures var (d, r) := MapRanges(frames, b, AnonRanges(start, sizes));
            LogMaps(AnonRun(frames, b, start, sizes), AllAddressable(start, sizes), |sizes|, d, r)
  {
    var (d, r) := MapRanges(frames, b, AnonRanges(start, sizes));
    AnonRunMaps(frames, b, start, sizes, AnonRun(frames, b, start, sizes), d, r);
  }

  /** A run of calls by its first call. */
  lemma AnonRunFirst(frames: seq<Frame>, b: Books, start: nat, sizes: seq<nat>)
    requires sizes != [] && PageAddr(start)
    ensures var t := TriedRange(start, sizes[0]);
            var (c, r) := PagingModel.MapRange(frames, b, t.first, t.last);
            AnonRun(frames, b, start, sizes) ==
            if r == Mapped && Addressable(start, sizes[0]) then
              Prefixed([start], AnonRun(frames, c, NextBump(start, sizes[0]), sizes[1..]))
            else AnonLog(c, start, [], false)
  {
    AnonRunStep(frames, b, start, sizes);
    AnonStepMaps(frames, b, start, sizes[0]);
  }

  ghost predicate RangesFrom(ranges: seq<Range>, first: Page) {
    forall i :: 0 <= i < |ranges| ==> ranges[i].last < ranges[i].first || (first <= ranges[i].first && ranges[i].last < LAST_LOW_PAGE)
  }

  /** The ranges of a run of calls lie in the arena, one behind the other. */
  lemma {:induction false} AnonClear(b: Books, start: nat, sizes: seq<nat>)
    requires PageAddr(start) && ArenaFree(b, start)
    ensures Clear(b, AnonRanges(start, sizes)) && RangesFrom(AnonRanges(start, sizes), start / 4096)
    decreases |sizes|
  {
    if sizes != [] {
      var t, next := TriedRange(start, sizes[0]), NextBump(start, sizes[0]);
      ArenaUnmapped(b, start, sizes[0]);
      if Addressable(start, sizes[0]) {
        RangeLength(start, sizes[0]);
        NextPageAddr(start, sizes[0]);
        AnonClear(b, next, sizes[1..]);
        ClearCons(b, t, AnonRanges(next, sizes[1..]), t.last + 1);
      } else {
        assert AnonRanges(start, sizes) == [t];
      }
    }
  }

  lemma ClearCons(b: Books, r: Range, rest: seq<Range>, next: Page)
    requires NoneMapped(b, r.first, r.last) && Clear(b, rest) && RangesFrom(rest, next) && r.last < next
    ensures Clear(b, [r] + rest)
  {
    var all := [r] + rest;
    assert forall i :: 1 <= i < |all| ==> all[i] == rest[i - 1];
  }

  /**
   * All calls of a run succeed exactly when every block is addressable and the free frames pay for
   * all their pages and the tables lacking for them.
   */
  lemma AnonRunEnds(frames: seq<Frame>, b: Books, start: nat, sizes: seq<nat>)
    requires PageAddr(start) && ArenaFree(b, start)
    ensures var l := AnonRun(frames, b, start, sizes);
            && (l.ok <==> AllAddressable(start, sizes) && Cost(b.tables.Keys, PagesOf(AnonRanges(start, sizes))) <= Free(frames, b))
            && |l.blocks| <= |sizes| && (l.ok <==> |l.blocks| == |sizes|)
  {
    AnonRunIsRanges(frames, b, start, sizes);
    AnonClear(b, start, sizes);
    ClearExact(frames, b, AnonRanges(start, sizes));
  }

  lemma AnonRunLength(frames: seq<Frame>, b: Books, start: nat, sizes: seq<nat>)
    requires PageAddr(start)
    ensures var l := AnonRun(frames, b, start, sizes);
            l.ok <==> |l.blocks| == |sizes|
  {
    AnonRunIsRanges(frames, b, start, sizes);
  }

  /** A block's pages are mapped, and were not before. */
  ghost predicate BlockMapped(b: Books, c: Books, block: nat, size: nat) {
    forall p :: block / 4096 <= p < block / 4096 + PagesFor(size) ==> p in c.pages && p !in b.pages
  }

  /** The bump pointer moves by whole pages. */
  lemma BumpMoves(frames: seq<Frame>, b: Books, start: nat, size: nat)
    requires PageAddr(start) && AnonStep(frames, b, start, size).block.Some?
    ensures var a := AnonStep(frames, b, start, size);
            a.block.value == start && a.bump == NextBump(start, size)
  {
    RangeLength(start, size);
  }

  /** Page-aligned blocks from start on, each block ending before the next begins. */
  ghost predicate InOrder(blocks: seq<nat>, sizes: seq<nat>, start: nat) {
    && |blocks| <= |sizes|
    && (forall i :: 0 <= i < |blocks| ==> blocks[i] >= start && blocks[i] % 4096 == 0)
    && (forall i, j :: 0 <= i < j < |blocks| ==> blocks[i] + PagesFor(sizes[i]) * 4096 <= blocks[j])
  }

  /** A block in front of blocks that begin where it ends. */
  lemma InOrderCons(start: nat, size: nat, blocks: seq<nat>, sizes: seq<nat>)
    requires start % 4096 == 0 && InOrder(blocks, sizes, NextBump(start, size))
    ensures InOrder([start] + blocks, [size] + sizes, start)
  {
    var all, lens := [start] + blocks, [size] + sizes;
    forall i, j | 0 <= i < j < |all|
      ensures all[i] + PagesFor(lens[i]) * 4096 <= all[j]
    {
      assert all[j] == blocks[j - 1];
      if i > 0 {
        assert all[i] == blocks[i - 1] && lens[i] == sizes[i - 1];
      }
    }
  }

  /** Over all calls the blocks returned are page-aligned and disjoint, in increasing order. */
  lemma {:induction false} AnonBlocksDisjoint(frames: seq<Frame>, b: Books, start: nat, sizes: seq<nat>)
    requires PageAddr(start)
    ensures InOrder(AnonRun(frames, b, start, sizes).blocks, sizes, start)
    decreases |sizes|
  {
    if sizes != [] {
      var a := AnonStep(frames, b, start, sizes[0]);
      if a.block.Some? {
        BumpMoves(frames, b, start, sizes[0]);
        AnonBlocksDisjoint(frames, a.books, a.bump, sizes[1..]);
        InOrderCons(start, sizes[0], AnonRun(frames, a.books, a.bump, sizes[1..]).blocks, sizes[1..]);
        assert sizes == [sizes[0]] + sizes[1..];
      }
    }
  }

  /** The pages of several blocks. */
  function TotalPages(sizes: seq<nat>): nat {
    if sizes == [] then 0 else PagesFor(sizes[0]) + TotalPages(sizes[1..])
  }

  /** A number of pages is the least that has room for the bytes. */
  lemma PagesSuffice(size: nat)
    ensures size <= 4096 * PagesFor(size) < size + 4096
  {
  }

  /** Each block begins where the pages of those before it end. */
  lemma {:induction false} AnonBlockAt(frames: seq<Frame>, b: Books, start: nat, sizes: seq<nat>, i: nat)
    requires PageAddr(start) && i < |AnonRun(frames, b, start, sizes).blocks| && i < |sizes|
    ensures AnonRun(frames, b, start, sizes).blocks[i] == start + 4096 * TotalPages(sizes[..i])
    decreases |sizes|
  {
    if sizes != [] {
      AnonRunFirst(frames, b, start, sizes);
      NextPageAddr(start, sizes[0]);
      if i == 0 {
        assert sizes[..0] == [];
      } else {
        var t := TriedRange(start, sizes[0]);
        assert sizes[..i][0] == sizes[0] && sizes[..i][1..] == sizes[1..][..i - 1];
        AnonBlockAt(frames, PagingModel.MapRange(frames, b, t.first, t.last).0, NextBump(start, sizes[0]), sizes[1..], i - 1);
      }
    }
  }

  lemma AnonBlocksAt(frames: seq<Frame>, b: Books, sizes: seq<nat>, blocks: seq<nat>)
    requires blocks == AnonRun(frames, b, ARENA, sizes).blocks && |blocks| <= |sizes|
    ensures forall i :: 0 <= i < |blocks| ==> blocks[i] == 0x1_0000_0000 + 4096 * TotalPages(sizes[..i])
  {
    forall i | 0 <= i < |blocks|
      ensures blocks[i] == 0x1_0000_0000 + 4096 * TotalPages(sizes[..i])
    {
      AnonBlockAt(frames, b, ARENA, sizes, i);
    }
  }

  /** What is known after a successful first call. */
  lemma CallAdds(frames: seq<Frame>, b: Books, start: nat, size: nat, c: Books)
    requires Owned(frames, b) && PageAddr(start) && ArenaFree(b, start) && Addressable(start, size)
    requires var t := TriedRange(start, size);
             (c, Mapped) == PagingModel.MapRange(frames, b, t.first, t.last)
    ensures Owned(frames, c) && Extends(b, c) && Added(b, c, start / 4096, PagesFor(size))
    ensures ArenaFree(c, NextBump(start, size)) && PageAddr(NextBump(start, size))
  {
    var t := TriedRange(start, size);
    MapRangeOwned(frames, b, t.first, t.last);
    BlockAdded(frames, b, c, start, size);
    NextPageAddr(start, size);
  }

  lemma {:induction false} BlockOfRun(frames: seq<Frame>, b: Books, start: nat, sizes: seq<nat>, i: nat, l: AnonLog)
    requires Owned(frames, b) && PageAddr(start) && ArenaFree(b, start)
    requires l == AnonRun(frames, b, start, sizes) && i < |l.blocks| && i < |sizes|
    ensures BlockMapped(b, l.books, l.blocks[i], sizes[i])
    decreases |sizes|
  {
    var t, next, later := TriedRange(start, sizes[0]), NextBump(start, sizes[0]), sizes[1..];
    AnonRunFirst(frames, b, start, sizes);
    var c := PagingModel.MapRange(frames, b, t.first, t.last).0;
    var rest := AnonRun(frames, c, next, later);
    CallAdds(frames, b, start, sizes[0], c);
    if i == 0 {
      AnonRunOwned(frames, c, next, later);
      BlockStays(b, c, rest.books, start, sizes[0]);
    } else {
      BlockOfRun(frames, c, next, later, i - 1, rest);
      BlockEarlier(b, c, rest.books, rest.blocks[i - 1], later[i - 1]);
    }
  }

  /** Over all calls every page of every block returned is mapped, and was not before the first call. */
  lemma AnonBlocksMapped(frames: seq<Frame>, b: Books, start: nat, sizes: seq<nat>, i: nat)
    requires Owned(frames, b) && PageAddr(start) && ArenaFree(b, start)
    requires i < |AnonRun(frames, b, start, sizes).blocks| && i < |sizes|
    ensures var l := AnonRun(frames, b, start, sizes);
            BlockMapped(b, l.books, l.blocks[i], sizes[i])
  {
    BlockOfRun(frames, b, start, sizes, i, AnonRun(frames, b, start, sizes));
  }

  lemma BlockStays(b: Books, c: Books, d: Books, block: nat, size: nat)
    requires Added(b, c, block / 4096, PagesFor(size)) && Extends(c, d)
    ensures BlockMapped(b, d, block, size)
  {
  }

  lemma BlockEarlier(b: Books, c: Books, d: Books, block: nat, size: nat)
    requires BlockMapped(c, d, block, size) && Extends(b, c)
    ensures BlockMapped(b, d, block, size)
  {
  }

  /** What happens while the user process exists: timer ticks and new processes, and its system calls. */
  datatype Happening = Sched(event: Scheduler.Event) | Call(size: nat)

  /** The sizes asked for, in order. */
  function Sizes(hs: seq<Happening>): seq<nat> {
    if hs == [] then []
    else (match hs[0] case Call(size) => [size] case Sched(_) => []) + Sizes(hs[1..])
  }

  /** Only the running process makes calls: process `user` is current, of n, whenever one is made. */
  predicate CallsFrom(user: nat, current: nat, n: nat, hs: seq<Happening>)
    decreases |hs|
  {
    hs != [] ==>
      match hs[0]
      case Call(_) => current == user && CallsFrom(user, current, n, hs[1..])
      case Sched(Tick(_)) => CallsFrom(user, Scheduler.Succ(current, n), n, hs[1..])
      case Sched(Spawn(_, _)) => CallsFrom(user, current, n + 1, hs[1..])
  }

  /** A tick or a new process moves neither frames nor any bump pointer. */
  method SchedulerEvent(list: Scheduler.ProcessList, e: Scheduler.Event, ghost mapper: Mapper, ghost src: FrameSource)
    requires Sound(mapper, src) && Scheduler.Inv(list.View()) && list as object !in src.Repr()
    modifies list
    ensures Sound(mapper, src) && mapper.Ledger(src) == old(mapper.Ledger(src)) && mapper.phys[..] == old(mapper.phys[..])
    ensures Scheduler.Inv(list.View()) && list.View() == Scheduler.Step(old(list.View()), e)
    ensures |list.procs| == |old(list.procs)| + if e.Spawn? then 1 else 0
    ensures list.current == if e.Tick? then Scheduler.Succ(old(list.current), |old(list.procs)|) else old(list.current)
    ensures forall i :: 0 <= i < |old(list.procs)| ==> list.procs[i].pages == old(list.procs[i].pages)
  {
    Scheduler.StepKeepsInv(list.View(), e);
    match e
    case Tick(rsp) =>
      Scheduler.TickAdvances(list.View(), rsp);
      var _ := list.Schedule(rsp);
    case Spawn(rsp, pages) =>
      list.Push(Scheduler.Process(Scheduler.READY, rsp, pages));
  }

  /** A call of the user process, which is running. */
  method UserCall(size: nat, mapper: Mapper, src: FrameSource, list: Scheduler.ProcessList, ghost user: nat) returns (block: Option<nat>)
    requires Sound(mapper, src) && Scheduler.Inv(list.View()) && list as object !in src.Repr()
    requires list.current == user && list.procs[user].pages.Some?
    modifies mapper, mapper.phys, src.Repr(), list`procs
    ensures Sound(mapper, src) && Scheduler.Inv(list.View()) && |list.procs| == |old(list.procs)|
    ensures user < |list.procs| && list.procs[user].pages.Some?
    ensures Kept(old(mapper.pages), old(mapper.phys[..]), mapper.pages, mapper.phys[..])
    ensures Anon(mapper.Ledger(src), list.procs[user].pages.value, block) ==
            AnonStep(src.Frames(), old(mapper.Ledger(src)), old(list.procs[user].pages.value), size)
  {
    block := AnonAllocate(size, mapper, src, list);
  }

  /** The bump pointer of a process. */
  ghost function BumpOf(list: Scheduler.ProcessList, user: nat): nat
    reads list
  {
    if user < |list.procs| then list.procs[user].pages.GetOr(0) else 0
  }

  /**
   * One happening among the calls: a run that begins with it has returned `blocks` before, and
   * goes on with `more` from the books c.
   */
  ghost predicate GoesOn(frames: seq<Frame>, b: Books, bump: nat, blocks: seq<nat>, h: Happening, later: seq<Happening>,
                         c: Books, bump': nat, more: seq<nat>, ok: bool) {
    Prefixed(blocks, AnonRun(frames, b, bump, Sizes([h] + later))) ==
    if ok then Prefixed(more, AnonRun(frames, c, bump', Sizes(later))) else AnonLog(c, bump', more, false)
  }

  lemma GoesOnAfterCall(frames: seq<Frame>, b: Books, bump: nat, blocks: seq<nat>, size: nat, later: seq<Happening>)
    ensures var a := AnonStep(frames, b, bump, size);
            GoesOn(frames, b, bump, blocks, Call(size), later, a.books, a.bump,
                   if a.block.Some? then blocks + [a.block.value] else blocks, a.block.Some?)
  {
    assert ([Call(size)] + later)[1..] == later;
    assert Sizes([Call(size)] + later) == [size] + Sizes(later);
    CallStep(frames, b, bump, size, Sizes(later), blocks);
  }

  lemma GoesOnAfterEvent(frames: seq<Frame>, b: Books, bump: nat, blocks: seq<nat>, e: Scheduler.Event, later: seq<Happening>)
    ensures GoesOn(frames, b, bump, blocks, Sched(e), later, b, bump, blocks, true)
  {
    assert ([Sched(e)] + later)[1..] == later;
    assert Sizes([Sched(e)] + later) == Sizes(later);
  }

  /** The scheduler is in order, and the calls to come are made by process `user` when it runs. */
  ghost predicate UserWaits(list: Scheduler.ProcessList, user: nat, later: seq<Happening>)
    reads list
  {
    && Scheduler.Inv(list.View())
    && user < |list.procs| && list.procs[user].pages.Some?
    && CallsFrom(user, list.current, |list.procs|, later)
  }

  /** A tick or a new process among the calls. */
  method EventHappens(e: Scheduler.Event, list: Scheduler.ProcessList, ghost mapper: Mapper, ghost src: FrameSource,
                      ghost user: nat, ghost later: seq<Happening>)
    requires Sound(mapper, src) && list as object !in src.Repr() && UserWaits(list, user, [Sched(e)] + later)
    modifies list
    ensures Sound(mapper, src) && UserWaits(list, user, later)
    ensures mapper.Ledger(src) == old(mapper.Ledger(src)) && mapper.phys[..] == old(mapper.phys[..])
    ensures BumpOf(list, user) == old(BumpOf(list, user))
  {
    assert ([Sched(e)] + later)[1..] == later;
    SchedulerEvent(list, e, mapper, src);
  }

  /** A call, with others to follow. */
  method CallHappens(size: nat, mapper: Mapper, src: FrameSource, list: Scheduler.ProcessList, ghost user: nat, ghost later: seq<Happening>)
    returns (block: Option<nat>)
    requires Sound(mapper, src) && list as object !in src.Repr() && UserWaits(list, user, [Call(size)] + later)
    modifies mapper, mapper.phys, src.Repr(), list
    ensures Sound(mapper, src) && UserWaits(list, user, later)
    ensures Kept(old(mapper.pages), old(mapper.phys[..]), mapper.pages, mapper.phys[..])
    ensures Anon(mapper.Ledger(src), BumpOf(list, user), block) ==
            AnonStep(src.Frames(), old(mapper.Ledger(src)), old(BumpOf(list, user)), size)
  {
    assert ([Call(size)] + later)[1..] == later;
    block := UserCall(size, mapper, src, list, user);
  }

  /** One happening, with others to follow. */
  method Happens(h: Happening, mapper: Mapper, src: FrameSource, list: Scheduler.ProcessList, blocks: seq<nat>,
                 ghost user: nat, ghost later: seq<Happening>)
    returns (more: seq<nat>, ok: bool)
    requires Sound(mapper, src) && list as object !in src.Repr() && UserWaits(list, user, [h] + later)
    modifies mapper, mapper.phys, src.Repr(), list
    ensures Sound(mapper, src) && UserWaits(list, user, later)
    ensures Kept(old(mapper.pages), old(mapper.phys[..]), mapper.pages, mapper.phys[..])
    ensures GoesOn(src.Frames(), old(mapper.Ledger(src)), old(BumpOf(list, user)), blocks, h, later,
                   mapper.Ledger(src), BumpOf(list, user), more, ok)
  {
    ghost var b, bump := mapper.Ledger(src), BumpOf(list, user);
    match h
    case Sched(e) =>
      EventHappens(e, list, mapper, src, user, later);
      GoesOnAfterEvent(src.Frames(), b, bump, blocks, e, later);
      more, ok := blocks, true;
    case Call(size) =>
      var block := CallHappens(size, mapper, src, list, user, later);
      GoesOnAfterCall(src.Frames(), b, bump, blocks, size, later);
      more, ok := if block.Some? then blocks + [block.value] else blocks, block.Some?;
  }

  /** Where a run of happenings stands that comes to `all`. */
  ghost predicate ComesTo(frames: seq<Frame>, all: AnonLog, blocks: seq<nat>, b: Books, bump: nat, later: seq<Happening>) {
    all == Prefixed(blocks, AnonRun(frames, b, bump, Sizes(later)))
  }

  lemma ComesToStep(frames: seq<Frame>, all: AnonLog, b: Books, bump: nat, blocks: seq<nat>, h: Happening, later: seq<Happening>,
                    c: Books, bump': nat, more: seq<nat>, ok: bool)
    requires ComesTo(frames, all, blocks, b, bump, [h] + later) && GoesOn(frames, b, bump, blocks, h, later, c, bump', more, ok)
    ensures if ok then ComesTo(frames, all, more, c, bump', later) else all == AnonLog(c, bump', more, false)
  {
  }

  lemma ComesToEnds(frames: seq<Frame>, all: AnonLog, blocks: seq<nat>, b: Books, bump: nat)
    requires ComesTo(frames, all, blocks, b, bump, [])
    ensures all == AnonLog(b, bump, blocks, true)
  {
    assert blocks + [] == blocks;
  }

  /**
   * The system calls of process `user`, with ticks and new processes between them: they come to
   * what the calls alone come to.
   */
  method AnonCalls(hs: seq<Happening>, mapper: Mapper, src: FrameSource, list: Scheduler.ProcessList, ghost user: nat)
    returns (blocks: seq<nat>, ok: bool)
    requires Sound(mapper, src) && list as object !in src.Repr() && UserWaits(list, user, hs)
    modifies mapper, mapper.phys, src.Repr(), list
    ensures Sound(mapper, src)
    ensures Kept(old(mapper.pages), old(mapper.phys[..]), mapper.pages, mapper.phys[..])
    ensures var l := AnonRun(src.Frames(), old(mapper.Ledger(src)), old(BumpOf(list, user)), Sizes(hs));
            l.books == mapper.Ledger(src) && l.blocks == blocks && l.ok == ok
  {
    ghost var b0, m0, frames := mapper.Ledger(src), mapper.phys[..], src.Frames();
    ghost var all := AnonRun(frames, b0, BumpOf(list, user), Sizes(hs));
    blocks, ok := [], true;
    var i := 0;
    assert hs[0..] == hs && [] + all.blocks == all.blocks;
    while i < |hs| && ok
      invariant 0 <= i <= |hs| && Sound(mapper, src) && Kept(b0.pages, m0, mapper.pages, mapper.phys[..])
      invariant ok ==> UserWaits(list, user, hs[i..])
      invariant if ok then ComesTo(frames, all, blocks, mapper.Ledger(src), BumpOf(list, user), hs[i..])
                else all == AnonLog(mapper.Ledger(src), BumpOf(list, user), blocks, false)
      decreases |hs| - i
    {
      ghost var b, m, bump, before := mapper.Ledger(src), mapper.phys[..], BumpOf(list, user), blocks;
      assert hs[i..] == [hs[i]] + hs[i + 1..];
      blocks, ok := Happens(hs[i], mapper, src, list, blocks, user, hs[i + 1..]);
      KeptTransitive(b0.pages, m0, b.pages, m, mapper.pages, mapper.phys[..]);
      ComesToStep(frames, all, b, bump, before, hs[i], hs[i + 1..], mapper.Ledger(src), BumpOf(list, user), blocks, ok);
      i := i + 1;
    }
    if ok {
      assert hs[i..] == [];
      ComesToEnds(frames, all, blocks, mapper.Ledger(src), BumpOf(list, user));
    }
  }

  /** One call in front of others. */
  lemma CallStep(frames: seq<Frame>, b: Books, bump: nat, size: nat, rest: seq<nat>, blocks: seq<nat>)
    ensures var a := AnonStep(frames, b, bump, size);
            Prefixed(blocks, AnonRun(frames, b, bump, [size] + rest)) ==
            if a.block.None? then AnonLog(a.books, a.bump, blocks, false)
            else Prefixed(blocks + [a.block.value], AnonRun(frames, a.books, a.bump, rest))
  {
    var a := AnonStep(frames, b, bump, size);
    assert ([size] + rest)[1..] == rest;
    AnonRunStep(frames, b, bump, [size] + rest);
    if a.block.Some? {
      PrefixedTwice(blocks, a.block.value, AnonRun(frames, a.books, a.bump, rest));
    } else {
      assert blocks + [] == blocks;
    }
  }

  function Prefixed(blocks: seq<nat>, l: AnonLog): AnonLog {
    l.(blocks := blocks + l.blocks)
  }

  lemma PrefixedTwice(blocks: seq<nat>, block: nat, l: AnonLog)
    ensures Prefixed(blocks, Prefixed([block], l)) == Prefixed(blocks + [block], l)
  {
    assert blocks + ([block] + l.blocks) == (blocks + [block]) + l.blocks;
  }

  lemma AnonRunStep(frames: seq<Frame>, b: Books, start: nat, sizes: seq<nat>)
    requires sizes != []
    ensures var a := AnonStep(frames, b, start, sizes[0]);
            AnonRun(frames, b, start, sizes) ==
            if a.block.None? then AnonLog(a.books, a.bump, [], false)
            else Prefixed([a.block.value], AnonRun(frames, a.books, a.bump, sizes[1..]))
  {
  }

  /* ---- boot, as `kernel_main` runs it ---- */

  /** Every segment ends below the arena. */
  ghost predicate BelowArena(segments: seq<Segment>) {
    forall i :: 0 <= i < |segments| && segments[i].kind == PT_LOAD ==> segments[i].vaddr + segments[i].memsz <= ARENA
  }

  ghost predicate RangesBelow(ranges: seq<Range>, limit: nat) {
    forall i :: 0 <= i < |ranges| ==> ranges[i].last < limit
  }

  lemma {:induction false} LoadBelow(segments: seq<Segment>)
    requires BelowArena(segments)
    ensures RangesBelow(LoadRanges(segments), ARENA / 4096)
    decreases |segments|
  {
    if segments != [] {
      LoadBelow(segments[1..]);
    }
  }

  /** Ranges below the arena leave it free. */
  lemma {:induction false} ArenaStaysFree(frames: seq<Frame>, b: Books, ranges: seq<Range>)
    requires Owned(frames, b) && ArenaFree(b, ARENA) && RangesBelow(ranges, ARENA / 4096)
    ensures ArenaFree(MapRanges(frames, b, ranges).0, ARENA)
    decreases |ranges|
  {
    if ranges != [] {
      var (c, r) := PagingModel.MapRange(frames, b, ranges[0].first, ranges[0].last);
      MapRangeOutcome(frames, b, ranges[0].first, ranges[0].last);
      MapRangeOwned(frames, b, ranges[0].first, ranges[0].last);
      ArenaAfter(frames, b, c, ranges[0]);
      if r == Mapped {
        ArenaStaysFree(frames, c, ranges[1..]);
      }
    }
  }

  lemma ArenaAfter(frames: seq<Frame>, b: Books, c: Books, r: Range)
    requires ArenaFree(b, ARENA) && OnlyNew(frames, b, c, r.first, r.last)
    requires r.last < ARENA / 4096 || r.first >= CANONICAL_LIMIT / 4096
    ensures ArenaFree(c, ARENA)
  {
  }

  lemma ReadableStable(p: map<Page, Frame>, m: seq<Byte>, p': map<Page, Frame>, m': seq<Byte>, elf: nat)
    requires Kept(p, m, p', m') && Readable(p, m, elf)
    ensures Readable(p', m', elf) && Segments(p', m', elf) == Segments(p, m, elf)
    ensures Entry(p', m', elf) == Entry(p, m, elf)
  {
    EntryStable(p, m, p', m', elf);
    SubRange(p, elf, HEADER_SIZE, elf + 32, 8);
    KeptField(p, m, p', m', elf + 32, 8);
    SubRange(p, elf, HEADER_SIZE, elf + 56, 2);
    KeptField(p, m, p', m', elf + 56, 2);
    HeadersStable(p, m, p', m', elf, ProgramTable(p, m, elf), ProgramCount(p, m, elf));
  }

  lemma HeadersStable(p: map<Page, Frame>, m: seq<Byte>, p': map<Page, Frame>, m': seq<Byte>, elf: nat, table: nat, count: nat)
    requires Kept(p, m, p', m') && HeadersReadable(p, m, elf, table, count)
    ensures HeadersReadable(p', m', elf, table, count) && Headers(p', m', table, count) == Headers(p, m, table, count)
  {
    forall i | 0 <= i < count
      ensures Headers(p', m', table, count)[i] == Headers(p, m, table, count)[i]
      ensures Loadable(p', elf, Headers(p', m', table, count)[i])
    {
      SegmentStable(p, m, p', m', table, count, i);
      SourceStable(p, m, p', m', elf, Headers(p, m, table, count)[i]);
    }
  }

  /** What the bootloader hands over: it uses no usable frame itself, and leaves the arena free. */
  ghost predicate BootState(regions: seq<MemoryRegion>, b: Books, len: nat) {
    && AllSpansApart(regions) && b.taken == {}
    && (forall f :: f in UsableFrames(regions) ==> (f + 1) * 4096 <= len)
    && (forall p :: p in b.pages ==> b.pages[p] !in UsableFrames(regions) && (b.pages[p] + 1) * 4096 <= len)
    && (forall t :: t in b.tables ==> b.tables[t] !in UsableFrames(regions))
    && ArenaFree(b, ARENA)
  }

  datatype Outcome = HeapFailed(heap: MapToError) | LoadFailed(load: MapToError) | Panicked | Running

  /** All ranges that are mapped from boot on: heap, segments and stack, blocks. */
  function BootRanges(segments: seq<Segment>, sizes: seq<nat>): seq<Range> {
    LoadedRanges(segments) + AnonRanges(ARENA, sizes)
  }

  function LoadedRanges(segments: seq<Segment>): seq<Range> {
    [HEAP_RANGE] + LoadRanges(segments)
  }

  /** All blocks are addressable, and the free frames pay for everything that is mapped. */
  ghost predicate CallsAffordable(frames: seq<Frame>, b0: Books, segments: seq<Segment>, sizes: seq<nat>) {
    AllAddressable(ARENA, sizes) && Cost(b0.tables.Keys, PagesOf(BootRanges(segments, sizes))) <= Free(frames, b0)
  }

  /**
   * What each outcome means, in terms of what the bootloader left (b0), the image and the calls;
   * `end` are the books at the end. On any outcome no frame has two owners, and exactly as many
   * frames have leaked as the first failure among the ranges leaks.
   */
  ghost predicate OutcomeMeans(frames: seq<Frame>, b0: Books, segments: seq<Segment>, sizes: seq<nat>, outcome: Outcome, end: Books) {
    var heap, loaded, all := [HEAP_RANGE], LoadedRanges(segments), BootRanges(segments, sizes);
    && end == MapRanges(frames, b0, all).0
    && Owned(frames, end) && Extends(b0, end)
    && |Leaked(b0, end)| == LeakCount(b0.tables.Keys, b0.pages.Keys, PagesOf(all), Free(frames, b0))
    && (outcome.HeapFailed? <==> !Affordable(frames, b0, heap))
    && (outcome.HeapFailed? ==> (outcome.heap == PageAlreadyMapped <==> !Clear(b0, heap) && Reached(frames, b0, heap)))
    && (outcome.LoadFailed? <==> Affordable(frames, b0, heap) && !Affordable(frames, b0, loaded))
    && (outcome.LoadFailed? ==> (outcome.load == PageAlreadyMapped <==> !Clear(b0, loaded) && Reached(frames, b0, loaded)))
    && (outcome.Panicked? <==> Affordable(frames, b0, loaded) && !CallsAffordable(frames, b0, segments, sizes))
    && (outcome.Running? <==> Affordable(frames, b0, loaded) && CallsAffordable(frames, b0, segments, sizes))
  }

  /** The blocks of the calls meet nothing that was mapped before them. */
  lemma CallsClear(b0: Books, segments: seq<Segment>, sizes: seq<nat>)
    requires ArenaFree(b0, ARENA) && BelowArena(segments)
    ensures Clear(b0, BootRanges(segments, sizes)) <==> Clear(b0, LoadedRanges(segments))
  {
    var p, q := LoadedRanges(segments), AnonRanges(ARENA, sizes);
    AnonClear(b0, ARENA, sizes);
    LoadBelow(segments);
    forall i, j | 0 <= i < |p| && 0 <= j < |q|
      ensures PagingModel.Apart(p[i], q[j])
    {
      if i == 0 {
        assert p[i] == HEAP_RANGE;
      } else {
        assert p[i] == LoadRanges(segments)[i - 1];
      }
    }
    ClearConcat(b0, p, q);
  }

  /** Heap initialization has failed: what it means. */
  lemma HeapFailure(frames: seq<Frame>, b0: Books, segments: seq<Segment>, sizes: seq<nat>, error: MapToError, end: Books)
    requires Owned(frames, b0) && (end, Failed(error)) == MapRanges(frames, b0, [HEAP_RANGE])
    ensures OutcomeMeans(frames, b0, segments, sizes, HeapFailed(error), end)
  {
    MapRangesExact(frames, b0, [HEAP_RANGE]);
    MapRangesConcat(frames, b0, [HEAP_RANGE], LoadRanges(segments));
    MapRangesConcat(frames, b0, LoadedRanges(segments), AnonRanges(ARENA, sizes));
    MapRangesExact(frames, b0, LoadedRanges(segments));
    EndOwned(frames, b0, segments, sizes);
  }

  lemma EndOwned(frames: seq<Frame>, b0: Books, segments: seq<Segment>, sizes: seq<nat>)
    requires Owned(frames, b0)
    ensures var end := MapRanges(frames, b0, BootRanges(segments, sizes)).0;
            && Owned(frames, end) && Extends(b0, end)
            && |Leaked(b0, end)| == LeakCount(b0.tables.Keys, b0.pages.Keys, PagesOf(BootRanges(segments, sizes)), Free(frames, b0))
  {
    MapRangesOwned(frames, b0, BootRanges(segments, sizes));
    MapRangesLeak(frames, b0, BootRanges(segments, sizes));
  }

  /** Loading has failed after the heap was mapped. */
  lemma LoadFailure(frames: seq<Frame>, b0: Books, b1: Books, segments: seq<Segment>, sizes: seq<nat>, error: MapToError, end: Books)
    requires Owned(frames, b0) && (b1, Mapped) == MapRanges(frames, b0, [HEAP_RANGE])
    requires (end, Failed(error)) == MapRanges(frames, b1, LoadRanges(segments))
    ensures OutcomeMeans(frames, b0, segments, sizes, LoadFailed(error), end)
  {
    MapRangesExact(frames, b0, [HEAP_RANGE]);
    MapRangesConcat(frames, b0, [HEAP_RANGE], LoadRanges(segments));
    MapRangesExact(frames, b0, LoadedRanges(segments));
    MapRangesConcat(frames, b0, LoadedRanges(segments), AnonRanges(ARENA, sizes));
    EndOwned(frames, b0, segments, sizes);
  }

  /** The process has been loaded and has made its calls. */
  lemma CallsDone(frames: seq<Frame>, b0: Books, b1: Books, b2: Books, segments: seq<Segment>, sizes: seq<nat>, ok: bool, end: Books)
    requires Owned(frames, b0) && ArenaFree(b0, ARENA) && BelowArena(segments)
    requires (b1, Mapped) == MapRanges(frames, b0, [HEAP_RANGE]) && (b2, Mapped) == MapRanges(frames, b1, LoadRanges(segments))
    requires var l := AnonRun(frames, b2, ARENA, sizes);
             l.books == end && l.ok == ok
    ensures OutcomeMeans(frames, b0, segments, sizes, if ok then Running else Panicked, end)
  {
    MapRangesConcat(frames, b0, [HEAP_RANGE], LoadRanges(segments));
    MapRangesConcat(frames, b0, LoadedRanges(segments), AnonRanges(ARENA, sizes));
    AnonRunIsRanges(frames, b2, ARENA, sizes);
    MapRangesExact(frames, b0, [HEAP_RANGE]);
    MapRangesExact(frames, b0, LoadedRanges(segments));
    MapRangesExact(frames, b0, BootRanges(segments, sizes));
    CallsClear(b0, segments, sizes);
    EndOwned(frames, b0, segments, sizes);
  }

  /** Taking over from the bump allocator: the books stay the same. */
  method HandOver(boot: BootInfoFrameAllocator, mapper: Mapper) returns (bits: BitmapAllocator)
    requires Sound(mapper, Boot(boot)) && Boot(boot).Intact()
    ensures fresh(bits) && fresh(bits.bitmap) && Sound(mapper, Bitmap(bits))
    ensures bits.Frames() == boot.Frames() && mapper.Ledger(Bitmap(bits)) == mapper.Ledger(Boot(boot))
  {
    var b := BitmapAllocator.Init(boot);
    bits := b;
    assert Bitmap(bits).Valid() && Bitmap(bits).Taken() == Boot(boot).Taken();
  }

  /** From the hand-over by the bootloader to the bitmap allocator, with the heap mapped. */
  method BootHeap(regions: seq<MemoryRegion>, mapper: Mapper, heap: LinkedListAllocator)
    returns (bits: BitmapAllocator?, error: MapToError, ghost c: Books)
    requires BootState(regions, Books(mapper.pages, mapper.tables, {}), mapper.phys.Length)
    requires heap.mem.Length == SLOTS && heap.head == 0 && heap.mem as object != mapper.phys
    modifies mapper, mapper.phys, heap, heap.mem
    ensures Kept(old(mapper.pages), old(mapper.phys[..]), mapper.pages, mapper.phys[..])
    ensures c.pages == mapper.pages && c.tables == mapper.tables
    ensures (c, if bits == null then Failed(error) else Mapped) ==
            MapRanges(UsableFrames(regions), Books(old(mapper.pages), old(mapper.tables), {}), [HEAP_RANGE])
    ensures bits != null ==>
              && fresh(bits) && fresh(bits.bitmap) && bits.Frames() == UsableFrames(regions)
              && Sound(mapper, Bitmap(bits)) && heap.Valid() && heap.state == INITIAL
              && OwnPages(mapper.pages, HEAP_RANGE) && c == mapper.Ledger(Bitmap(bits))
  {
    ghost var b, m := Books(mapper.pages, mapper.tables, {}), mapper.phys[..];
    var boot := new BootInfoFrameAllocator(regions);
    EnumerationDistinct(regions);
    assert UsableFrames(regions)[..0] == [];
    assert Boot(boot).Taken() == {};
    assert Sound(mapper, Boot(boot));
    var res := InitHeap(mapper, Boot(boot), heap);
    c := mapper.Ledger(Boot(boot));
    OneRange(UsableFrames(regions), b, HEAP_RANGE);
    if res.Failed? {
      return null, res.error, c;
    }
    bits := HandOver(boot, mapper);
    error := FrameAllocationFailed;
  }

  /** Mapping the heap leaks no frame and leaves the arena free. */
  lemma HeapMappedKeeps(regions: seq<MemoryRegion>, b: Books, c: Books, len: nat)
    requires BootState(regions, b, len) && (c, Mapped) == MapRanges(UsableFrames(regions), b, [HEAP_RANGE])
    ensures Owned(UsableFrames(regions), c) && Extends(b, c) && NoLeak(b, c) && ArenaFree(c, ARENA)
  {
    var frames := UsableFrames(regions);
    assert Owned(frames, b);
    OneRange(frames, b, HEAP_RANGE);
    MapRangeOwned(frames, b, HEAP_RANGE.first, HEAP_RANGE.last);
    MapRangeOutcome(frames, b, HEAP_RANGE.first, HEAP_RANGE.last);
    ArenaAfter(frames, b, c, HEAP_RANGE);
  }

  lemma LoadKeeps(frames: seq<Frame>, b0: Books, b1: Books, b2: Books, segments: seq<Segment>)
    requires Owned(frames, b1) && Extends(b0, b1) && NoLeak(b0, b1) && ArenaFree(b1, ARENA) && BelowArena(segments)
    requires (b2, Mapped) == MapRanges(frames, b1, LoadRanges(segments))
    ensures Owned(frames, b2) && Extends(b0, b2) && NoLeak(b0, b2) && ArenaFree(b2, ARENA)
  {
    MapRangesOwned(frames, b1, LoadRanges(segments));
    LoadBelow(segments);
    ArenaStaysFree(frames, b1, LoadRanges(segments));
    ExtendsTransitive(b0, b1, b2);
    NoLeakTransitive(b0, b1, b2);
  }

  /**
   * The user process is in memory: (b0, m0) is what the bootloader left, (b, m) the present. No
   * frame has two owners and none has leaked, the image is in place, nothing older is damaged.
   */
  ghost predicate InPlace(frames: seq<Frame>, b0: Books, m0: seq<Byte>, b: Books, m: seq<Byte>, elf: nat) {
    && Owned(frames, b) && Extends(b0, b) && NoLeak(b0, b)
    && Kept(b0.pages, m0, b.pages, m)
    && Loaded(b0.pages, m0, b.pages, m, elf, Segments(b0.pages, m0, elf), |Segments(b0.pages, m0, elf)|)
  }

  /** The heap is mapped and the image still readable: (b1, m1) is the present. */
  ghost predicate HeapReady(frames: seq<Frame>, b0: Books, m0: seq<Byte>, b1: Books, m1: seq<Byte>, elf: nat) {
    && Owned(frames, b1) && Extends(b0, b1) && NoLeak(b0, b1) && ArenaFree(b1, ARENA)
    && Kept(b0.pages, m0, b1.pages, m1)
    && Readable(b0.pages, m0, elf) && Readable(b1.pages, m1, elf)
    && Segments(b1.pages, m1, elf) == Segments(b0.pages, m0, elf)
    && BelowArena(Segments(b0.pages, m0, elf))
  }

  lemma HeapIsReady(regions: seq<MemoryRegion>, b0: Books, m0: seq<Byte>, b1: Books, m1: seq<Byte>, elf: nat)
    requires BootState(regions, b0, |m0|) && (b1, Mapped) == MapRanges(UsableFrames(regions), b0, [HEAP_RANGE])
    requires Kept(b0.pages, m0, b1.pages, m1)
    requires Readable(b0.pages, m0, elf) && BelowArena(Segments(b0.pages, m0, elf))
    ensures HeapReady(UsableFrames(regions), b0, m0, b1, m1, elf)
  {
    HeapMappedKeeps(regions, b0, b1, |m0|);
    ReadableStable(b0.pages, m0, b1.pages, m1, elf);
  }

  lemma LoadedIsInPlace(frames: seq<Frame>, b0: Books, m0: seq<Byte>, b1: Books, m1: seq<Byte>, b2: Books, m2: seq<Byte>, elf: nat)
    requires HeapReady(frames, b0, m0, b1, m1, elf)
    requires (b2, Mapped) == MapRanges(frames, b1, LoadRanges(Segments(b1.pages, m1, elf)))
    requires Kept(b1.pages, m1, b2.pages, m2)
    requires Loaded(b1.pages, m1, b2.pages, m2, elf, Segments(b1.pages, m1, elf), |Segments(b1.pages, m1, elf)|)
    ensures InPlace(frames, b0, m0, b2, m2, elf) && ArenaFree(b2, ARENA)
  {
    var segments := Segments(b0.pages, m0, elf);
    LoadKeeps(frames, b0, b1, b2, segments);
    KeptTransitive(b0.pages, m0, b1.pages, m1, b2.pages, m2);
    LoadedFromStart(b0.pages, m0, b1.pages, m1, b2.pages, m2, elf, segments);
  }

  lemma LoadedFromStart(p0: map<Page, Frame>, m0: seq<Byte>, p1: map<Page, Frame>, m1: seq<Byte>, p2: map<Page, Frame>, m2: seq<Byte>,
                        elf: nat, segments: seq<Segment>)
    requires Kept(p0, m0, p1, m1) && Loaded(p1, m1, p2, m2, elf, segments, |segments|)
    requires forall j :: 0 <= j < |segments| ==> Loadable(p0, elf, segments[j])
    ensures Loaded(p0, m0, p2, m2, elf, segments, |segments|)
  {
    forall j | 0 <= j < |segments| && segments[j].kind == PT_LOAD
      ensures SegmentImage(p0, m0, p2, m2, elf, segments[j])
    {
      ImageFromStart(p0, m0, p1, m1, p2, m2, elf, segments[j]);
    }
  }

  lemma StaysInPlace(frames: seq<Frame>, b0: Books, m0: seq<Byte>, b: Books, m: seq<Byte>, c: Books, m': seq<Byte>, elf: nat)
    requires InPlace(frames, b0, m0, b, m, elf) && Kept(b.pages, m, c.pages, m')
    requires Owned(frames, c) && Extends(b, c) && NoLeak(b, c)
    ensures InPlace(frames, b0, m0, c, m', elf)
  {
    ExtendsTransitive(b0, b, c);
    NoLeakTransitive(b0, b, c);
    KeptTransitive(b0.pages, m0, b.pages, m, c.pages, m');
    LoadedKept(b0.pages, m0, b.pages, m, c.pages, m', elf, Segments(b0.pages, m0, elf), |Segments(b0.pages, m0, elf)|);
  }

  /** `sched::init`. */
  method StartScheduler(ghost mapper: Mapper, ghost src: FrameSource) returns (list: Scheduler.ProcessList)
    requires Sound(mapper, src)
    ensures fresh(list) && list.View() == Scheduler.BOOTED && list as object !in src.Repr()
    ensures Sound(mapper, src)
  {
    list := new Scheduler.ProcessList();
  }

  /** Loading the user process once the heap is mapped. */
  method LoadProcess(mapper: Mapper, src: FrameSource, list: Scheduler.ProcessList, elf: nat, rflags: nat, ghost b0: Books, ghost m0: seq<Byte>)
    returns (res: MapResult)
    requires Sound(mapper, src) && list as object !in src.Repr() && list.View() == Scheduler.BOOTED
    requires HeapReady(src.Frames(), b0, m0, mapper.Ledger(src), mapper.phys[..], elf) && WithInterrupts(rflags) < WORD_LIMIT
    modifies mapper, mapper.phys, src.Repr(), list`procs
    ensures Sound(mapper, src)
    ensures Kept(b0.pages, m0, mapper.pages, mapper.phys[..])
    ensures (mapper.Ledger(src), res) == MapRanges(src.Frames(), old(mapper.Ledger(src)), LoadRanges(Segments(b0.pages, m0, elf)))
    ensures res == Mapped ==>
              && InPlace(src.Frames(), b0, m0, mapper.Ledger(src), mapper.phys[..], elf)
              && ArenaFree(mapper.Ledger(src), ARENA)
              && list.View() == WITH_USER
  {
    ghost var b1, m1 := mapper.Ledger(src), mapper.phys[..];
    res := AddUserProcess(elf, mapper, src, list, rflags);
    KeptTransitive(b0.pages, m0, b1.pages, m1, mapper.pages, mapper.phys[..]);
    if res == Mapped {
      LoadedIsInPlace(src.Frames(), b0, m0, b1, m1, mapper.Ledger(src), mapper.phys[..], elf);
    }
  }

  /**
   * One page-aligned block per request, no two of them overlapping: the first at 0x1_0000_0000, and
   * each at the end of the pages of those before it.
   */
  ghost predicate GoodBlocks(blocks: seq<nat>, sizes: seq<nat>) {
    && |blocks| == |sizes| && InOrder(blocks, sizes, ARENA)
    && forall i :: 0 <= i < |blocks| ==> blocks[i] == 0x1_0000_0000 + 4096 * TotalPages(sizes[..i])
  }

  /**
   * `kernel_main` up to the point where the user process makes system calls: heap, hand-over of
   * the frame allocator, program loading, then ticks and any number of allocation calls, in any
   * order in which the caller is running. Each outcome has its exact condition on what the
   * bootloader left. On every outcome all older bytes are kept, no frame has two owners, and the
   * frames leaked are counted; when everything succeeds none has leaked, the image is in place,
   * and the blocks returned are page-aligned and disjoint.
   */
  method KernelMain(regions: seq<MemoryRegion>, mapper: Mapper, heap: LinkedListAllocator, elf: nat, rflags: nat, hs: seq<Happening>)
    returns (outcome: Outcome, bits: BitmapAllocator?, blocks: seq<nat>, ghost end: Books)
    requires BootState(regions, Books(mapper.pages, mapper.tables, {}), mapper.phys.Length)
    requires heap.mem.Length == SLOTS && heap.head == 0 && heap.mem as object != mapper.phys
    requires Readable(mapper.pages, mapper.phys[..], elf) && WithInterrupts(rflags) < WORD_LIMIT
    requires BelowArena(Segments(mapper.pages, mapper.phys[..], elf))
    requires CallsFrom(1, 0, 2, hs)
    modifies mapper, mapper.phys, heap, heap.mem
    ensures end.pages == mapper.pages && end.tables == mapper.tables
    ensures bits != null ==> bits.Valid() && bits.Frames() == UsableFrames(regions) && end.taken == bits.Taken()
    ensures bits == null <==> outcome.HeapFailed?
    ensures Kept(old(mapper.pages), old(mapper.phys[..]), mapper.pages, mapper.phys[..])
    ensures OutcomeMeans(UsableFrames(regions), Books(old(mapper.pages), old(mapper.tables), {}),
                         Segments(old(mapper.pages), old(mapper.phys[..]), elf), Sizes(hs), outcome, end)
    ensures outcome == Running ==>
              InPlace(UsableFrames(regions), Books(old(mapper.pages), old(mapper.tables), {}), old(mapper.phys[..]),
                      end, mapper.phys[..], elf)
    ensures outcome == Running ==> GoodBlocks(blocks, Sizes(hs))
  {
    ghost var b0, m0 := Books(mapper.pages, mapper.tables, {}), mapper.phys[..];
    ghost var frames, segments, sizes := UsableFrames(regions), Segments(b0.pages, m0, elf), Sizes(hs);
    var error;
    bits, error, end := BootHeap(regions, mapper, heap);
    assert Owned(frames, b0);
    if bits == null {
      outcome, blocks := HeapFailed(error), [];
      HeapFailure(frames, b0, segments, sizes, error, end);
    } else {
      HeapIsReady(regions, b0, m0, end, mapper.phys[..], elf);
      outcome, blocks, end := AfterHeap(mapper, bits, elf, rflags, hs, b0, m0);
    }
  }

  /** Everything behind heap initialization. */
  method AfterHeap(mapper: Mapper, bits: BitmapAllocator, elf: nat, rflags: nat, hs: seq<Happening>, ghost b0: Books, ghost m0: seq<Byte>)
    returns (outcome: Outcome, blocks: seq<nat>, ghost end: Books)
    requires Sound(mapper, Bitmap(bits)) && WithInterrupts(rflags) < WORD_LIMIT && CallsFrom(1, 0, 2, hs)
    requires HeapReady(bits.Frames(), b0, m0, mapper.Ledger(Bitmap(bits)), mapper.phys[..], elf)
    requires Owned(bits.Frames(), b0) && ArenaFree(b0, ARENA)
    requires (mapper.Ledger(Bitmap(bits)), Mapped) == MapRanges(bits.Frames(), b0, [HEAP_RANGE])
    modifies mapper, mapper.phys, bits.bitmap
    ensures bits.Valid() && end == mapper.Ledger(Bitmap(bits)) && !outcome.HeapFailed?
    ensures Kept(b0.pages, m0, mapper.pages, mapper.phys[..])
    ensures OutcomeMeans(bits.Frames(), b0, Segments(b0.pages, m0, elf), Sizes(hs), outcome, end)
    ensures outcome == Running ==> InPlace(bits.Frames(), b0, m0, end, mapper.phys[..], elf) && GoodBlocks(blocks, Sizes(hs))
  {
    ghost var b1 := mapper.Ledger(Bitmap(bits));
    ghost var b2;
    outcome, blocks, b2 := RunUser(mapper, bits, elf, rflags, hs, b0, m0);
    end := mapper.Ledger(Bitmap(bits));
    LaterOutcome(bits.Frames(), b0, b1, b2, Segments(b0.pages, m0, elf), Sizes(hs), outcome, end);
  }

  lemma LaterOutcome(frames: seq<Frame>, b0: Books, b1: Books, b2: Books, segments: seq<Segment>, sizes: seq<nat>,
                     outcome: Outcome, end: Books)
    requires Owned(frames, b0) && ArenaFree(b0, ARENA) && BelowArena(segments) && !outcome.HeapFailed?
    requires (b1, Mapped) == MapRanges(frames, b0, [HEAP_RANGE])
    requires (b2, if outcome.LoadFailed? then Failed(outcome.load) else Mapped) == MapRanges(frames, b1, LoadRanges(segments))
    requires outcome.LoadFailed? ==> b2 == end
    requires !outcome.LoadFailed? ==>
               var l := AnonRun(frames, b2, ARENA, sizes);
               l.books == end && outcome == if l.ok then Running else Panicked
    ensures OutcomeMeans(frames, b0, segments, sizes, outcome, end)
  {
    if outcome.LoadFailed? {
      LoadFailure(frames, b0, b1, segments, sizes, outcome.load, end);
    } else {
      CallsDone(frames, b0, b1, b2, segments, sizes, outcome == Running, end);
    }
  }

  /** Loading and running the user process. `b2` are the books after loading. */
  method RunUser(mapper: Mapper, bits: BitmapAllocator, elf: nat, rflags: nat, hs: seq<Happening>, ghost b0: Books, ghost m0: seq<Byte>)
    returns (outcome: Outcome, blocks: seq<nat>, ghost b2: Books)
    requires Sound(mapper, Bitmap(bits)) && WithInterrupts(rflags) < WORD_LIMIT && CallsFrom(1, 0, 2, hs)
    requires HeapReady(bits.Frames(), b0, m0, mapper.Ledger(Bitmap(bits)), mapper.phys[..], elf)
    modifies mapper, mapper.phys, bits.bitmap
    ensures bits.Valid() && !outcome.HeapFailed?
    ensures Kept(b0.pages, m0, mapper.pages, mapper.phys[..])
    ensures (b2, if outcome.LoadFailed? then Failed(outcome.load) else Mapped) ==
            MapRanges(bits.Frames(), old(mapper.Ledger(Bitmap(bits))), LoadRanges(Segments(b0.pages, m0, elf)))
    ensures outcome.LoadFailed? ==> b2 == mapper.Ledger(Bitmap(bits))
    ensures !outcome.LoadFailed? ==>
              var l := AnonRun(bits.Frames(), b2, ARENA, Sizes(hs));
              l.books == mapper.Ledger(Bitmap(bits)) && outcome == if l.ok then Running else Panicked
    ensures outcome == Running ==> InPlace(bits.Frames(), b0, m0, mapper.Ledger(Bitmap(bits)), mapper.phys[..], elf)
    ensures outcome == Running ==> GoodBlocks(blocks, Sizes(hs))
  {
    var src := Bitmap(bits);
    var list := StartScheduler(mapper, src);
    assert src.Repr() == {bits.bitmap};
    var res := LoadProcess(mapper, src, list, elf, rflags, b0, m0);
    b2 := mapper.Ledger(src);
    if res.Failed? {
      return LoadFailed(res.error), [], b2;
    }
    var ok;
    blocks, ok := Session(mapper, bits, list, hs, b0, m0, elf);
    outcome := if ok then Running else Panicked;
  }

  /** The user process and its system calls, between ticks. */
  method Session(mapper: Mapper, bits: BitmapAllocator, list: Scheduler.ProcessList, hs: seq<Happening>,
                 ghost b0: Books, ghost m0: seq<Byte>, ghost elf: nat)
    returns (blocks: seq<nat>, ok: bool)
    requires Sound(mapper, Bitmap(bits)) && list as object != bits.bitmap
    requires InPlace(bits.Frames(), b0, m0, mapper.Ledger(Bitmap(bits)), mapper.phys[..], elf)
    requires list.View() == WITH_USER && CallsFrom(1, 0, 2, hs)
    modifies mapper, mapper.phys, bits.bitmap, list
    ensures bits.Valid() && Kept(b0.pages, m0, mapper.pages, mapper.phys[..])
    ensures var l := AnonRun(bits.Frames(), old(mapper.Ledger(Bitmap(bits))), ARENA, Sizes(hs));
            l.books == mapper.Ledger(Bitmap(bits)) && l.ok == ok && l.blocks == blocks
    ensures ok ==> InPlace(bits.Frames(), b0, m0, mapper.Ledger(Bitmap(bits)), mapper.phys[..], elf)
    ensures ok ==> GoodBlocks(blocks, Sizes(hs))
  {
    ghost var b, m, sizes, frames := mapper.Ledger(Bitmap(bits)), mapper.phys[..], Sizes(hs), bits.Frames();
    blocks, ok := AnonCalls(hs, mapper, Bitmap(bits), list, 1);
    KeptTransitive(b0.pages, m0, b.pages, m, mapper.pages, mapper.phys[..]);
    AnonRunOwned(frames, b, ARENA, sizes);
    AnonRunLength(frames, b, ARENA, sizes);
    if ok {
      AnonBlocksDisjoint(frames, b, ARENA, sizes);
      AnonBlocksAt(frames, b, sizes, blocks);
      StaysInPlace(frames, b0, m0, b, m, mapper.Ledger(Bitmap(bits)), mapper.phys[..], elf);
    }
  }
}
