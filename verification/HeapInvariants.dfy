/** What every allocation and every release of the kernel heap keeps. */
module HeapInvariants {
  import opened Wrappers
  import opened Words
  import opened HeapModel

  /** Every piece the heap is cut into. */
  function Pieces(s: HeapState): seq<Region> {
    s.free + Regions(s.live) + s.lost
  }

  lemma PiecesCover(s: HeapState, a: nat)
    ensures Cover(Pieces(s), a) == TimesCovered(s, a)
  {
    CoverConcat(s.free + Regions(s.live), s.lost, a);
    CoverConcat(s.free, Regions(s.live), a);
  }

  lemma PiecesNonempty(s: HeapState, i: nat)
    requires Inv(s) && i < |Pieces(s)|
    ensures Pieces(s)[i].size > 0
  {
    var n := |s.free|;
    if n <= i < n + |s.live| {
      assert Pieces(s)[i] == s.live[i - n].region;
      LayoutFacts(s.live[i - n].layout);
    } else if n + |s.live| <= i {
      assert Pieces(s)[i] == s.lost[i - n - |s.live|];
    }
  }

  /** Every piece lies inside the heap. */
  lemma PieceInHeap(s: HeapState, i: nat)
    requires Inv(s) && i < |Pieces(s)|
    ensures HEAP_START <= Pieces(s)[i].start && Pieces(s)[i].End() <= HEAP_END
  {
    var r := Pieces(s)[i];
    PiecesNonempty(s, i);
    PiecesCover(s, r.start);
    CoverMember(Pieces(s), i, r.start);
    PiecesCover(s, r.End() - 1);
    CoverMember(Pieces(s), i, r.End() - 1);
    assert TimesCovered(s, r.start) >= 1 && TimesCovered(s, r.End() - 1) >= 1;
  }

  lemma FreeInHeap(s: HeapState, i: nat)
    requires Inv(s) && i < |s.free|
    ensures HEAP_START <= s.free[i].start && s.free[i].End() <= HEAP_END
  {
    PieceInHeap(s, i);
    assert Pieces(s)[i] == s.free[i];
  }

  /** Live blocks, free regions and lost padding are pairwise disjoint. */
  lemma PiecesDisjoint(s: HeapState, i: nat, j: nat)
    requires Inv(s) && i < j < |Pieces(s)|
    ensures Disjoint(Pieces(s)[i], Pieces(s)[j])
  {
    var p, q := Pieces(s)[i], Pieces(s)[j];
    PiecesNonempty(s, i);
    PiecesNonempty(s, j);
    if !Disjoint(p, q) {
      var a := Max(p.start, q.start);
      CoverTwo(Pieces(s), i, j, a);
      PiecesCover(s, a);
    }
  }

  /* ---- which region an allocation takes ---- */

  /** First fit picks the earliest region that can hold the block. */
  lemma {:induction false} FirstFitMeaning(free: seq<Region>, size: nat, align: nat)
    requires IsPow2(align)
    requires forall i :: 0 <= i < |free| ==> free[i].start + align < WORD_LIMIT && free[i].End() < WORD_LIMIT
    ensures FirstFit(free, size, align) != Overflowed
    ensures var r := FirstFit(free, size, align);
            r.Found? ==>
              && CanHold(free[r.index], size, align) && r.start == RoundUp(free[r.index].start, align)
              && forall i :: 0 <= i < r.index ==> !CanHold(free[i], size, align)
    ensures FirstFit(free, size, align) == NotFound <==>
            forall i :: 0 <= i < |free| ==> !CanHold(free[i], size, align)
  {
    if free != [] {
      FitMeaning(free[0], size, align);
      if !CanHold(free[0], size, align) {
        var rest := free[1..];
        FirstFitMeaning(rest, size, align);
        assert forall i :: 1 <= i < |free| ==> free[i] == rest[i - 1];
        assert forall i :: 0 <= i < |rest| ==> rest[i] == free[i + 1];
        var r := FirstFit(rest, size, align);
        if r.Found? {
          forall i | 0 <= i < r.index + 1
            ensures !CanHold(free[i], size, align)
          {
            if i > 0 {
              assert !CanHold(rest[i - 1], size, align);
            }
          }
        }
      }
    }
  }

  /** The first region examined overflows `align_up` when the alignment exceeds 2^31. */
  lemma HugeAlignOverflows(s: HeapState, size: nat, align: nat)
    requires Inv(s) && IsPow2(align) && align > 0x8000_0000 && s.free != []
    ensures FirstFit(s.free, size, align) == Overflowed
  {
    AlignGap(align);
    FreeInHeap(s, 0);
    FitMeaning(s.free[0], size, align);
  }

  /**
   * For every heap address `align_up` gives the least multiple of the alignment not below it, up
   * to an alignment of 2^31; from 2^32 on its sum leaves the 64-bit range for every heap address,
   * and in a build without overflow checks the result would be address zero.
   */
  lemma AlignUpInHeap(addr: nat, align: nat, m: nat)
    requires InHeap(addr) && IsPow2(align) && align < WORD_LIMIT
    ensures AlignUp(addr, align).Some? <==> align <= 0x8000_0000
    ensures align <= 0x8000_0000 ==>
              var r := AlignUp(addr, align).value;
              r % align == 0 && addr <= r < addr + align && (m % align == 0 && m >= addr ==> r <= m)
    ensures align > 0x8000_0000 ==> AlignUpWrapping(addr, align) == 0
  {
    AlignGap(align);
    AlignUpCorrect(addr, align);
    AlignUpWrappingCorrect(addr, align);
    RoundUpBounds(addr, align);
    if m % align == 0 && m >= addr {
      RoundUpLeast(addr, align, m);
    }
  }

  lemma OrdinaryAlign(s: HeapState, align: nat)
    requires Inv(s) && align <= 0x8000_0000
    ensures forall i :: 0 <= i < |s.free| ==> s.free[i].start + align < WORD_LIMIT && s.free[i].End() < WORD_LIMIT
  {
    forall i | 0 <= i < |s.free|
      ensures s.free[i].start + align < WORD_LIMIT && s.free[i].End() < WORD_LIMIT
    {
      FreeInHeap(s, i);
    }
  }

  /**
   * The three outcomes of an allocation. It panics exactly when the alignment exceeds 2^31 and
   * there is a region to look at; otherwise it answers null exactly when no free region can hold
   * the block.
   */
  lemma AllocOutcome(s: HeapState, layout: Layout)
    requires Inv(s) && ValidLayout(layout)
    ensures Alloc(s, layout).1 == Panic <==> layout.align > 0x8000_0000 && s.free != []
    ensures layout.align <= 0x8000_0000 ==>
              (Alloc(s, layout).1 == Null <==>
               forall i :: 0 <= i < |s.free| ==> !CanHold(s.free[i], BlockSize(layout), EffectiveAlign(layout)))
    ensures !Alloc(s, layout).1.Pointer? ==> Alloc(s, layout).0 == s
  {
    var size, align := BlockSize(layout), EffectiveAlign(layout);
    LayoutFacts(layout);
    if layout.align <= 0x8000_0000 {
      OrdinaryAlign(s, align);
      FirstFitMeaning(s.free, size, align);
    } else if s.free != [] {
      HugeAlignOverflows(s, size, align);
    }
  }

  /** Everything a successful search tells: which region, and why it fits. */
  lemma FoundFacts(s: HeapState, layout: Layout) returns (i: nat, start: nat)
    requires Inv(s) && ValidLayout(layout) && Alloc(s, layout).1.Pointer?
    ensures FirstFit(s.free, BlockSize(layout), EffectiveAlign(layout)) == Found(i, start) && i < |s.free|
    ensures CanHold(s.free[i], BlockSize(layout), EffectiveAlign(layout))
    ensures forall k :: 0 <= k < i ==> !CanHold(s.free[k], BlockSize(layout), EffectiveAlign(layout))
    ensures start == RoundUp(s.free[i].start, EffectiveAlign(layout))
    ensures s.free[i].start <= start < s.free[i].start + EffectiveAlign(layout)
    ensures start % EffectiveAlign(layout) == 0 && start % 8 == 0
    ensures start + BlockSize(layout) <= s.free[i].End()
  {
    AllocOutcome(s, layout);
    LayoutFacts(layout);
    OrdinaryAlign(s, EffectiveAlign(layout));
    FirstFitMeaning(s.free, BlockSize(layout), EffectiveAlign(layout));
    var r := FirstFit(s.free, BlockSize(layout), EffectiveAlign(layout));
    i, start := r.index, r.start;
    RoundUpBounds(s.free[i].start, EffectiveAlign(layout));
    MultipleOfEight(start, EffectiveAlign(layout));
  }

  /**
   * A successful allocation returns the aligned start of the earliest region that fits, keeps
   * the other regions in their order, and puts the tail, if any, in front of them.
   */
  lemma AllocTakesFirstFit(s: HeapState, layout: Layout) returns (i: nat)
    requires Inv(s) && ValidLayout(layout) && Alloc(s, layout).1.Pointer?
    ensures i < |s.free| && CanHold(s.free[i], BlockSize(layout), EffectiveAlign(layout))
    ensures forall k :: 0 <= k < i ==> !CanHold(s.free[k], BlockSize(layout), EffectiveAlign(layout))
    ensures var (s', r) := Alloc(s, layout);
            var tail := s.free[i].End() - (r.addr + BlockSize(layout));
            && r.addr == RoundUp(s.free[i].start, EffectiveAlign(layout))
            && s'.live == s.live + [Block(Region(r.addr, BlockSize(layout)), layout)]
            && (tail == 0 ==> s'.free == s.free[..i] + s.free[i + 1..])
            && (tail != 0 ==> tail >= NODE_SIZE)
            && (tail != 0 ==> s'.free == [Region(r.addr + BlockSize(layout), tail)] + s.free[..i] + s.free[i + 1..])
  {
    var start;
    i, start := FoundFacts(s, layout);
    AllocSplits(s, layout, i, start);
  }

  /** The list after a successful search: the tail, if any, in front of the other regions. */
  lemma AllocSplits(s: HeapState, layout: Layout, i: nat, start: nat)
    requires FirstFit(s.free, BlockSize(layout), EffectiveAlign(layout)) == Found(i, start) && i < |s.free|
    requires start + BlockSize(layout) <= s.free[i].End()
    ensures var (s', end) := (Alloc(s, layout).0, start + BlockSize(layout));
            && Alloc(s, layout).1 == Pointer(start)
            && s'.live == s.live + [Block(Region(start, BlockSize(layout)), layout)]
            && (end == s.free[i].End() ==> s'.free == s.free[..i] + s.free[i + 1..])
            && (end < s.free[i].End() ==> s'.free == [Region(end, s.free[i].End() - end)] + s.free[..i] + s.free[i + 1..])
  {
    var end := start + BlockSize(layout);
    if end == s.free[i].End() {
      assert [] + Without(s.free, i) == Without(s.free, i);
    } else {
      var t := [Region(end, s.free[i].End() - end)];
      assert t + Without(s.free, i) == t + s.free[..i] + s.free[i + 1..];
    }
  }

  /* ---- preservation ---- */

  lemma SplitCover(r: Region, start: nat, end: nat, a: nat)
    requires r.start <= start <= end <= r.End()
    ensures Cover(Padding(r, start), a) + (if Covers(Region(start, end - start), a) then 1 else 0) + Cover(Tail(r, end), a)
            == if Covers(r, a) then 1 else 0
  {
    assert forall q: Region :: Cover([q], a) == (if Covers(q, a) then 1 else 0) + Cover([q][1..], a);
  }

  lemma AllocKeepsCover(s: HeapState, layout: Layout, a: nat)
    requires Inv(s) && ValidLayout(layout) && Alloc(s, layout).1.Pointer?
    ensures TimesCovered(Alloc(s, layout).0, a) == TimesCovered(s, a)
  {
    var i, start := FoundFacts(s, layout);
    var r, end := s.free[i], start + BlockSize(layout);
    var b := Block(Region(start, BlockSize(layout)), layout);
    CoverWithout(s.free, i, a);
    CoverConcat(Tail(r, end), Without(s.free, i), a);
    RegionsAppend(s.live, b);
    CoverConcat(Regions(s.live), [b.region], a);
    assert Cover([b.region], a) == (if Covers(b.region, a) then 1 else 0) + Cover([b.region][1..], a);
    CoverConcat(Padding(r, start), s.lost, a);
    SplitCover(r, start, end, a);
  }

  lemma AllocKeepsInv(s: HeapState, layout: Layout)
    requires Inv(s) && ValidLayout(layout)
    ensures Inv(Alloc(s, layout).0)
  {
    AllocOutcome(s, layout);
    if Alloc(s, layout).1.Pointer? {
      var s' := Alloc(s, layout).0;
      assert Partitioned(s') by {
        forall a: nat
          ensures TimesCovered(s', a) == if InHeap(a) then 1 else 0
        {
          AllocKeepsCover(s, layout, a);
        }
      }
      AllocKeepsShape(s, layout);
    }
  }

  lemma AllocKeepsShape(s: HeapState, layout: Layout)
    requires Inv(s) && ValidLayout(layout) && Alloc(s, layout).1.Pointer?
    ensures var s' := Alloc(s, layout).0;
            && (forall k :: 0 <= k < |s'.free| ==> FreeOk(s'.free[k]))
            && (forall k :: 0 <= k < |s'.live| ==> LiveOk(s'.live[k]))
            && (forall k :: 0 <= k < |s'.lost| ==> s'.lost[k].size > 0)
  {
    var i, start := FoundFacts(s, layout);
    assert FreeOk(s.free[i]);
    NewPiecesOk(s.free[i], start, layout);
  }

  lemma NewPiecesOk(r: Region, start: nat, layout: Layout)
    requires ValidLayout(layout) && FreeOk(r)
    requires CanHold(r, BlockSize(layout), EffectiveAlign(layout)) && start == RoundUp(r.start, EffectiveAlign(layout))
    requires start % EffectiveAlign(layout) == 0 && start % 8 == 0
    ensures LiveOk(Block(Region(start, BlockSize(layout)), layout))
    ensures forall t :: t in Tail(r, start + BlockSize(layout)) ==> FreeOk(t)
  {
    LayoutFacts(layout);
    ModTrans(start, EffectiveAlign(layout), layout.align);
    TailOk(r, start, BlockSize(layout));
  }

  lemma TailOk(r: Region, start: nat, size: nat)
    requires FreeOk(r) && start % 8 == 0 && size % 8 == 0
    requires start + size == r.End() || start + size + NODE_SIZE <= r.End()
    ensures forall t :: t in Tail(r, start + size) ==> FreeOk(t)
  {
    var end := start + size;
    if end < r.End() {
      assert FreeOk(Region(end, r.End() - end));
    }
  }

  lemma DeallocKeepsInv(s: HeapState, j: nat)
    requires Inv(s) && j < |s.live|
    ensures Inv(Dealloc(s, j))
  {
    var s', r := Dealloc(s, j), s.live[j].region;
    forall a: nat
      ensures TimesCovered(s', a) == if InHeap(a) then 1 else 0
    {
      RegionsWithout(s.live, j);
      CoverWithout(Regions(s.live), j, a);
      assert s'.free[1..] == s.free;
      assert TimesCovered(s, a) == TimesCovered(s', a);
    }
    assert LiveOk(s.live[j]);
    LayoutFacts(s.live[j].layout);
  }

  /* ---- conservation of bytes ---- */

  function TotalBytes(s: HeapState): nat {
    Bytes(s.free) + Bytes(Regions(s.live)) + Bytes(s.lost)
  }

  lemma SplitBytes(r: Region, start: nat, end: nat)
    requires r.start <= start <= end <= r.End()
    ensures Bytes(Padding(r, start)) == start - r.start
    ensures Bytes(Tail(r, end)) == r.End() - end
  {
    assert forall q: Region :: Bytes([q]) == q.size + Bytes([q][1..]);
  }

  lemma StateBytes(s: HeapState, t: HeapState, i: nat, start: nat, b: Block)
    requires i < |s.free| && b.region.start == start && s.free[i].start <= start && b.region.End() <= s.free[i].End()
    requires t.free == Tail(s.free[i], b.region.End()) + Without(s.free, i)
    requires t.live == s.live + [b] && t.lost == Padding(s.free[i], start) + s.lost
    ensures TotalBytes(t) == TotalBytes(s)
    ensures Bytes(t.lost) == Bytes(s.lost) + start - s.free[i].start
  {
    var r := s.free[i];
    BytesWithout(s.free, i);
    BytesConcat(Tail(r, b.region.End()), Without(s.free, i));
    RegionsAppend(s.live, b);
    BytesConcat(Regions(s.live), [b.region]);
    assert Bytes([b.region]) == b.region.size + Bytes([b.region][1..]);
    BytesConcat(Padding(r, start), s.lost);
    SplitBytes(r, start, b.region.End());
  }

  /**
   * An allocation moves bytes between the three accounts. What it loses is exactly the distance
   * from the start of the region it took to the aligned address, less than the alignment.
   */
  lemma AllocConservesBytes(s: HeapState, layout: Layout) returns (i: nat)
    requires Inv(s) && ValidLayout(layout)
    ensures TotalBytes(Alloc(s, layout).0) == TotalBytes(s)
    ensures Alloc(s, layout).1.Pointer? ==>
              && i < |s.free| && s.free[i].start <= Alloc(s, layout).1.addr < s.free[i].start + EffectiveAlign(layout)
              && RoundUp(s.free[i].start, EffectiveAlign(layout)) == Alloc(s, layout).1.addr
              && Bytes(Alloc(s, layout).0.lost) == Bytes(s.lost) + Alloc(s, layout).1.addr - s.free[i].start
  {
    AllocOutcome(s, layout);
    if Alloc(s, layout).1.Pointer? {
      var start;
      i, start := FoundFacts(s, layout);
      StateBytes(s, Alloc(s, layout).0, i, start, Block(Region(start, BlockSize(layout)), layout));
    } else {
      i := 0;
    }
  }

  /** A layout aligned to at most eight bytes loses nothing. */
  lemma SmallAlignLosesNothing(s: HeapState, layout: Layout)
    requires Inv(s) && ValidLayout(layout) && layout.align <= NODE_ALIGN
    ensures Bytes(Alloc(s, layout).0.lost) == Bytes(s.lost)
  {
    AllocOutcome(s, layout);
    var i := AllocConservesBytes(s, layout);
    if Alloc(s, layout).1.Pointer? {
      assert FreeOk(s.free[i]);
    }
  }

  lemma DeallocConservesBytes(s: HeapState, j: nat)
    requires j < |s.live|
    ensures TotalBytes(Dealloc(s, j)) == TotalBytes(s)
    ensures Dealloc(s, j).lost == s.lost
  {
    RegionsWithout(s.live, j);
    BytesWithout(Regions(s.live), j);
    assert Dealloc(s, j).free[1..] == s.free;
  }

  /* ---- pieces only get finer ---- */

  function Usable(s: HeapState): seq<Region> {
    s.free + Regions(s.live)
  }

  ghost predicate InsideOne(p: Region, rs: seq<Region>) {
    exists q :: q in rs && Within(p, q)
  }

  /**
   * Every free or live piece of the later state lies inside one free or live piece of the
   * earlier one, and every lost piece inside some piece of the earlier one.
   */
  ghost predicate Finer(s: HeapState, t: HeapState) {
    && (forall p :: p in Usable(t) ==> InsideOne(p, Usable(s)))
    && (forall p :: p in t.lost ==> InsideOne(p, Pieces(s)))
  }

  lemma FinerReflexive(s: HeapState)
    ensures Finer(s, s)
  {
    forall p | p in Usable(s)
      ensures InsideOne(p, Usable(s))
    {
      assert Within(p, p);
    }
    forall p | p in s.lost
      ensures InsideOne(p, Pieces(s))
    {
      assert p in Pieces(s) && Within(p, p);
    }
  }

  lemma FinerTransitive(s: HeapState, t: HeapState, u: HeapState)
    requires Finer(s, t) && Finer(t, u)
    ensures Finer(s, u)
  {
    forall p | p in Usable(u)
      ensures InsideOne(p, Usable(s))
    {
      var q :| q in Usable(t) && Within(p, q);
      var r :| r in Usable(s) && Within(q, r);
      assert Within(p, r);
    }
    forall p | p in u.lost
      ensures InsideOne(p, Pieces(s))
    {
      var q :| q in Pieces(t) && Within(p, q);
      if q in Usable(t) {
        var r :| r in Usable(s) && Within(q, r);
        assert r in Pieces(s) && Within(p, r);
      } else {
        assert q in t.lost;
        var r :| r in Pieces(s) && Within(q, r);
        assert Within(p, r);
      }
    }
  }

  lemma AllocFiner(s: HeapState, layout: Layout)
    requires Inv(s) && ValidLayout(layout)
    ensures Finer(s, Alloc(s, layout).0)
  {
    AllocOutcome(s, layout);
    if Alloc(s, layout).1.Pointer? {
      var i, start := FoundFacts(s, layout);
      SplitFiner(s, Alloc(s, layout).0, i, start, Block(Region(start, BlockSize(layout)), layout));
    } else {
      FinerReflexive(s);
    }
  }

  lemma SplitFiner(s: HeapState, t: HeapState, i: nat, start: nat, b: Block)
    requires i < |s.free| && b.region.start == start && s.free[i].start <= start && b.region.End() <= s.free[i].End()
    requires t.free == Tail(s.free[i], b.region.End()) + Without(s.free, i)
    requires t.live == s.live + [b] && t.lost == Padding(s.free[i], start) + s.lost
    ensures Finer(s, t)
  {
    var r := s.free[i];
    RegionsAppend(s.live, b);
    FinerReflexive(s);
    assert r in Usable(s) && r in Pieces(s);
    forall p | p in Usable(t)
      ensures InsideOne(p, Usable(s))
    {
      assert Within(p, r) || p in Usable(s);
    }
    forall p | p in t.lost
      ensures InsideOne(p, Pieces(s))
    {
      assert Within(p, r) || p in s.lost;
    }
  }

  lemma DeallocFiner(s: HeapState, j: nat)
    requires j < |s.live|
    ensures Finer(s, Dealloc(s, j))
  {
    var t := Dealloc(s, j);
    RegionsWithout(s.live, j);
    assert s.live[j].region == Regions(s.live)[j];
    FinerReflexive(s);
    forall p | p in Usable(t)
      ensures InsideOne(p, Usable(s))
    {
      assert p in Usable(s);
    }
  }
}
