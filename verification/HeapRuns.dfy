/** Whole runs of the kernel heap: any number of allocations and matching releases. */
module HeapRuns {
  import opened Words
  import opened HeapModel
  import opened HeapInvariants

  datatype HeapOp = Allocate(layout: Layout) | Release(ptr: nat, layout: Layout)

  /** The position of the live block with this address and layout, or the number of live blocks. */
  function LiveIndex(live: seq<Block>, ptr: nat, layout: Layout): (j: nat)
    ensures j <= |live|
    ensures j < |live| ==> live[j].region.start == ptr && live[j].layout == layout
    ensures forall i :: 0 <= i < j ==> !(live[i].region.start == ptr && live[i].layout == layout)
  {
    if live == [] || (live[0].region.start == ptr && live[0].layout == layout) then 0
    else 1 + LiveIndex(live[1..], ptr, layout)
  }

  /**
   * What the contract of Rust's GlobalAlloc demands of clients: layouts are valid, and a release
   * names a block currently held, with the layout it was requested with.
   */
  ghost predicate Legal(s: HeapState, op: HeapOp) {
    match op
    case Allocate(layout) => ValidLayout(layout)
    case Release(ptr, layout) => LiveIndex(s.live, ptr, layout) < |s.live|
  }

  function Step(s: HeapState, op: HeapOp): HeapState {
    match op
    case Allocate(layout) => Alloc(s, layout).0
    case Release(ptr, layout) =>
      var j := LiveIndex(s.live, ptr, layout);
      if j < |s.live| then Dealloc(s, j) else s
  }

  function Run(s: HeapState, ops: seq<HeapOp>): HeapState
    decreases |ops|
  {
    if ops == [] then s else Run(Step(s, ops[0]), ops[1..])
  }

  ghost predicate LegalRun(s: HeapState, ops: seq<HeapOp>)
    decreases |ops|
  {
    ops != [] ==> Legal(s, ops[0]) && LegalRun(Step(s, ops[0]), ops[1..])
  }

  lemma InitialInv()
    ensures Inv(INITIAL)
    ensures TotalBytes(INITIAL) == HEAP_SIZE
  {
    var r := Region(HEAP_START, HEAP_SIZE);
    assert Regions([]) == [];
    forall a: nat
      ensures TimesCovered(INITIAL, a) == if InHeap(a) then 1 else 0
    {
      assert Cover([r], a) == (if Covers(r, a) then 1 else 0) + Cover([r][1..], a);
    }
    assert Bytes([r]) == HEAP_SIZE + Bytes([r][1..]);
  }

  lemma StepKeeps(s: HeapState, op: HeapOp)
    requires Inv(s) && Legal(s, op)
    ensures Inv(Step(s, op))
    ensures TotalBytes(Step(s, op)) == TotalBytes(s)
    ensures Finer(s, Step(s, op))
  {
    match op
    case Allocate(layout) =>
      AllocKeepsInv(s, layout);
      var _ := AllocConservesBytes(s, layout);
      AllocFiner(s, layout);
    case Release(ptr, layout) =>
      var j := LiveIndex(s.live, ptr, layout);
      DeallocKeepsInv(s, j);
      DeallocConservesBytes(s, j);
      DeallocFiner(s, j);
  }

  /**
   * Along every legal run the heap stays partitioned into free, live and lost pieces, no byte
   * appears or vanishes, and pieces only get finer.
   */
  lemma {:induction false} RunKeeps(s: HeapState, ops: seq<HeapOp>)
    requires Inv(s) && LegalRun(s, ops)
    ensures Inv(Run(s, ops))
    ensures TotalBytes(Run(s, ops)) == TotalBytes(s)
    ensures Finer(s, Run(s, ops))
    decreases |ops|
  {
    if ops == [] {
      FinerReflexive(s);
    } else {
      StepKeeps(s, ops[0]);
      RunKeeps(Step(s, ops[0]), ops[1..]);
      FinerTransitive(s, Step(s, ops[0]), Run(s, ops));
    }
  }

  /* ---- what is released last is handed out first ---- */

  lemma NoHugeMultiple(a: nat)
    requires InHeap(a)
    ensures a % 0x1_0000_0000 != 0
  {
    QuotRem(a, 0x1_0000_0000, 0xffff_ffff, a - 0xffff_ffff_0000_0000);
  }

  /** A block in the heap is aligned to at most 2^31: no multiple of 2^32 lies in the heap. */
  lemma LiveAlign(b: Block)
    requires LiveOk(b) && InHeap(b.region.start)
    ensures b.layout.align <= 0x8000_0000
  {
    AlignGap(b.layout.align);
    if b.layout.align >= 0x1_0000_0000 {
      HugeMultiple(b.region.start, b.layout.align);
      NoHugeMultiple(b.region.start);
    }
  }

  lemma HugeMultiple(a: nat, align: nat)
    requires IsPow2(align) && align >= 0x1_0000_0000 && a % align == 0
    ensures a % 0x1_0000_0000 == 0
  {
    var k: nat :| align == Pow2(k);
    Pow2Word();
    if k < 32 {
      Pow2Monotone(k, 31);
    } else {
      Pow2Divides(32, k);
      ModTrans(a, align, 0x1_0000_0000);
    }
  }

  lemma {:induction false} Pow2Divides(j: nat, k: nat)
    requires j <= k
    ensures Pow2(k) % Pow2(j) == 0
    decreases k
  {
    if j == k {
      QuotRem(Pow2(k), Pow2(j), 1, 0);
    } else {
      Pow2Divides(j, k - 1);
      var q := Pow2(k - 1) / Pow2(j);
      Pow2Step(k);
      assert Pow2(k - 1) == q * Pow2(j);
      assert 2 * (q * Pow2(j)) == (2 * q) * Pow2(j) by { MulAssoc(2, q, Pow2(j)); }
      QuotRem(Pow2(k), Pow2(j), 2 * q, 0);
    }
  }

  lemma EffectivelyAligned(b: Block)
    requires LiveOk(b)
    ensures b.region.start % EffectiveAlign(b.layout) == 0
  {
  }

  /** A released block is exactly what an allocation with its layout needs. */
  lemma ReleasedFits(s: HeapState, j: nat)
    requires Inv(s) && j < |s.live|
    ensures var b := s.live[j];
            AllocFromRegion(b.region, BlockSize(b.layout), EffectiveAlign(b.layout)) == Fits(b.region.start)
  {
    var b := s.live[j];
    assert LiveOk(b);
    LivePiece(s, j);
    LiveAlign(b);
    LayoutFacts(b.layout);
    EffectivelyAligned(b);
    FitMeaning(b.region, BlockSize(b.layout), EffectiveAlign(b.layout));
  }

  /**
   * Last released, first handed out: after any live block is released, an allocation with its
   * layout returns its address, and everything is as before, up to the order of the live blocks.
   */
  lemma ReleaseThenAlloc(s: HeapState, j: nat)
    requires Inv(s) && j < |s.live|
    ensures var (t, r) := Alloc(Dealloc(s, j), s.live[j].layout);
            && r == Pointer(s.live[j].region.start)
            && t.free == s.free && t.lost == s.lost
            && t.live == s.live[..j] + s.live[j + 1..] + [s.live[j]]
  {
    var b, free := s.live[j], [s.live[j].region] + s.free;
    assert LiveOk(b);
    ReleasedFits(s, j);
    assert FirstFit(free, BlockSize(b.layout), EffectiveAlign(b.layout)) == Found(0, b.region.start);
    assert Tail(b.region, b.region.start + BlockSize(b.layout)) == [];
    assert [] + Without(free, 0) == s.free && [] + s.lost == s.lost;
  }

  /** Allocating, releasing and allocating again with one layout returns one address. */
  lemma AllocReleaseAlloc(s: HeapState, layout: Layout)
    requires Inv(s) && ValidLayout(layout) && Alloc(s, layout).1.Pointer?
    ensures var (t, r) := Alloc(s, layout);
            |t.live| == |s.live| + 1 && Alloc(Dealloc(t, |s.live|), layout).1 == r
  {
    var (t, r) := Alloc(s, layout);
    AllocKeepsInv(s, layout);
    var i := AllocTakesFirstFit(s, layout);
    ReleaseThenAlloc(t, |s.live|);
  }

  /** The state of the heap after a run from boot. */
  function AfterBoot(ops: seq<HeapOp>): HeapState {
    Run(INITIAL, ops)
  }

  /**
   * Memory safety of the heap: after every legal run, each live block lies in the heap, has the
   * alignment and at least the size its client asked for, is aligned to eight bytes in any case,
   * and overlaps no other live block, no free region and no lost padding.
   */
  lemma LiveBlocksAreSafe(ops: seq<HeapOp>, j: nat)
    requires LegalRun(INITIAL, ops) && j < |AfterBoot(ops).live|
    ensures var s, b := AfterBoot(ops), AfterBoot(ops).live[j];
            && HEAP_START <= b.region.start && b.region.End() <= HEAP_END
            && b.layout.align > 0 && b.region.start % b.layout.align == 0 && b.region.start % 8 == 0
            && b.region.size >= b.layout.size
            && (forall k :: 0 <= k < |s.live| && k != j ==> Disjoint(b.region, s.live[k].region))
            && (forall k :: 0 <= k < |s.free| ==> Disjoint(b.region, s.free[k]))
            && (forall k :: 0 <= k < |s.lost| ==> Disjoint(b.region, s.lost[k]))
  {
    InitialInv();
    RunKeeps(INITIAL, ops);
    var s := AfterBoot(ops);
    var b := s.live[j];
    assert LiveOk(b);
    LayoutFacts(b.layout);
    LiveDisjoint(s, j);
  }

  /** The live blocks are the pieces after the free ones, and lie in the heap. */
  lemma LivePiece(s: HeapState, j: nat)
    requires Inv(s) && j < |s.live|
    ensures var i := |s.free| + j;
            && i < |Pieces(s)| && Pieces(s)[i] == s.live[j].region
            && HEAP_START <= Pieces(s)[i].start && Pieces(s)[i].End() <= HEAP_END
  {
    var n, p := |s.free|, Pieces(s);
    assert p[n + j] == Regions(s.live)[j];
    PieceInHeap(s, n + j);
  }

  lemma PieceApart(s: HeapState, i: nat)
    requires Inv(s) && i < |Pieces(s)|
    ensures forall k :: 0 <= k < |Pieces(s)| && k != i ==> Disjoint(Pieces(s)[i], Pieces(s)[k])
  {
    forall k | 0 <= k < |Pieces(s)| && k != i
      ensures Disjoint(Pieces(s)[i], Pieces(s)[k])
    {
      if k < i {
        PiecesDisjoint(s, k, i);
      } else {
        PiecesDisjoint(s, i, k);
      }
    }
  }

  lemma LiveDisjoint(s: HeapState, j: nat)
    requires Inv(s) && j < |s.live|
    ensures HEAP_START <= s.live[j].region.start && s.live[j].region.End() <= HEAP_END
    ensures forall k :: 0 <= k < |s.live| && k != j ==> Disjoint(s.live[j].region, s.live[k].region)
    ensures forall k :: 0 <= k < |s.free| ==> Disjoint(s.live[j].region, s.free[k])
    ensures forall k :: 0 <= k < |s.lost| ==> Disjoint(s.live[j].region, s.lost[k])
  {
    var n, p := |s.free|, Pieces(s);
    LivePiece(s, j);
    PieceApart(s, n + j);
    forall k | 0 <= k < |s.live| && k != j
      ensures Disjoint(s.live[j].region, s.live[k].region)
    {
      LivePiece(s, k);
    }
    assert forall k :: 0 <= k < |s.free| ==> p[k] == s.free[k];
    forall k | 0 <= k < |s.lost|
      ensures Disjoint(s.live[j].region, s.lost[k])
    {
      assert p[n + |s.live| + k] == s.lost[k];
    }
  }

  /** Free, live and lost bytes always add up to the size of the heap. */
  lemma BytesConserved(ops: seq<HeapOp>)
    requires LegalRun(INITIAL, ops)
    ensures var s := AfterBoot(ops);
            Bytes(s.free) + Bytes(Regions(s.live)) + Bytes(s.lost) == HEAP_SIZE
  {
    InitialInv();
    RunKeeps(INITIAL, ops);
  }

  /** Without over-aligned layouts no byte is ever lost. */
  lemma {:induction false} NothingLost(s: HeapState, ops: seq<HeapOp>)
    requires Inv(s) && LegalRun(s, ops)
    requires forall i :: 0 <= i < |ops| && ops[i].Allocate? ==> ops[i].layout.align <= NODE_ALIGN
    ensures Bytes(Run(s, ops).lost) == Bytes(s.lost)
    decreases |ops|
  {
    if ops != [] {
      StepKeeps(s, ops[0]);
      if ops[0].Allocate? {
        SmallAlignLosesNothing(s, ops[0].layout);
      }
      NothingLost(Step(s, ops[0]), ops[1..]);
    }
  }

  lemma {:induction false} NodeBytes(rs: seq<Region>)
    requires forall i :: 0 <= i < |rs| ==> rs[i].size >= NODE_SIZE
    ensures Bytes(rs) >= NODE_SIZE * |rs|
  {
    if rs != [] {
      NodeBytes(rs[1..]);
    }
  }

  /** The free list never has more nodes than fit in the heap, which bounds every search of it. */
  lemma FreeListBounded(ops: seq<HeapOp>)
    requires LegalRun(INITIAL, ops)
    ensures |AfterBoot(ops).free| <= HEAP_SIZE / NODE_SIZE
  {
    InitialInv();
    RunKeeps(INITIAL, ops);
    NodeBytes(AfterBoot(ops).free);
  }

  lemma {:induction false} RunSplit(s: HeapState, ops: seq<HeapOp>, more: seq<HeapOp>)
    requires LegalRun(s, ops + more)
    ensures LegalRun(s, ops) && LegalRun(Run(s, ops), more)
    ensures Run(s, ops + more) == Run(Run(s, ops), more)
    decreases |ops|
  {
    if ops == [] {
      assert ops + more == more;
    } else {
      assert (ops + more)[0] == ops[0] && (ops + more)[1..] == ops[1..] + more;
      RunSplit(Step(s, ops[0]), ops[1..], more);
    }
  }

  /**
   * Regions are never merged: however a run goes on, no free or live piece is larger than the
   * largest one was before, and each lies inside one free or live piece of the earlier state.
   */
  lemma PiecesNeverGrow(ops: seq<HeapOp>, more: seq<HeapOp>, bound: nat)
    requires LegalRun(INITIAL, ops + more)
    requires forall p :: p in Usable(AfterBoot(ops)) ==> p.size <= bound
    ensures Finer(AfterBoot(ops), AfterBoot(ops + more))
    ensures forall p :: p in Usable(AfterBoot(ops + more)) ==> p.size <= bound
  {
    InitialInv();
    RunSplit(INITIAL, ops, more);
    RunKeeps(INITIAL, ops);
    RunKeeps(AfterBoot(ops), more);
    var s, t := AfterBoot(ops), AfterBoot(ops + more);
    forall p | p in Usable(t)
      ensures p.size <= bound
    {
      assert InsideOne(p, Usable(s));
    }
  }
}
