/**
 * What the kernel heap does to its regions, apart from where it keeps the list: the size and
 * fit arithmetic, first fit, splitting and freeing. `Allocator.dfy` proves that the list kept
 * in the heap's own memory does the same.
 */
module HeapModel {
  import opened Words

  const HEAP_SIZE: nat := 2 * 1024 * 1024
  const HEAP_START: nat := 0xffff_ffff_8000_0000 - HEAP_SIZE
  const HEAP_END: nat := HEAP_START + HEAP_SIZE

  /** `mem::size_of::<ListNode>()` and `mem::align_of::<ListNode>()`. */
  const NODE_SIZE: nat := 16
  const NODE_ALIGN: nat := 8

  datatype Region = Region(start: nat, size: nat) {
    function End(): nat { start + size }
  }

  datatype Layout = Layout(size: nat, align: nat)

  /** A layout that Rust can build and that `size_align` can pad without leaving `isize`. */
  ghost predicate ValidLayout(l: Layout) {
    IsPow2(l.align) && l.size + Max(l.align, NODE_ALIGN) <= 0x8000_0000_0000_0000
  }

  function Max(a: nat, b: nat): nat {
    if a < b then b else a
  }

  function EffectiveAlign(l: Layout): nat {
    Max(l.align, NODE_ALIGN)
  }

  /** `size_align`: pad to the effective alignment, and make room for a list node. */
  function BlockSize(l: Layout): nat {
    Max(AlignUpWrapping(l.size, EffectiveAlign(l)), NODE_SIZE)
  }

  /** The outcome of `alloc_from_region`; Overflow is the panic of the checked sum in `align_up`. */
  datatype Fit = Fits(start: nat) | Misfit | Overflow

  function AllocFromRegion(r: Region, size: nat, align: nat): Fit {
    match AlignUp(r.start, align)
    case None => Overflow
    case Some(start) =>
      if start + size >= WORD_LIMIT || start + size > r.End() then
        Misfit
      else
        var excess := r.End() - (start + size);
        if excess > 0 && excess < NODE_SIZE then Misfit else Fits(start)
  }

  datatype Search = Found(index: nat, start: nat) | NotFound | Overflowed

  /** The region that `find_region` picks, walking the list from its head. */
  function FirstFit(free: seq<Region>, size: nat, align: nat): (r: Search)
    ensures r.Found? ==> r.index < |free| && AllocFromRegion(free[r.index], size, align) == Fits(r.start)
  {
    if free == [] then NotFound
    else match AllocFromRegion(free[0], size, align)
      case Fits(start) => Found(0, start)
      case Overflow => Overflowed
      case Misfit =>
        match FirstFit(free[1..], size, align)
        case Found(i, start) => Found(i + 1, start)
        case NotFound => NotFound
        case Overflowed => Overflowed
  }

  /** A block handed out to a client, with the layout it was requested with. */
  datatype Block = Block(region: Region, layout: Layout)

  /**
   * The free list in list order; the blocks clients hold; and the front padding that alignment
   * cut off, which the allocator never takes back.
   */
  datatype HeapState = HeapState(free: seq<Region>, live: seq<Block>, lost: seq<Region>)

  const INITIAL: HeapState := HeapState([Region(HEAP_START, HEAP_SIZE)], [], [])

  datatype AllocResult = Pointer(addr: nat) | Null | Panic

  function Without<T>(s: seq<T>, i: nat): seq<T>
    requires i < |s|
  {
    s[..i] + s[i + 1..]
  }

  /** `alloc`: unlink the first region that fits and push the tail that is left back at the head. */
  function Alloc(s: HeapState, layout: Layout): (HeapState, AllocResult) {
    var size, align := BlockSize(layout), EffectiveAlign(layout);
    match FirstFit(s.free, size, align)
    case NotFound => (s, Null)
    case Overflowed => (s, Panic)
    case Found(i, start) =>
      var r := s.free[i];
      (HeapState(Tail(r, start + size) + Without(s.free, i),
                 s.live + [Block(Region(start, size), layout)],
                 Padding(r, start) + s.lost),
       Pointer(start))
  }

  function Tail(r: Region, from: nat): seq<Region> {
    if from < r.End() then [Region(from, r.End() - from)] else []
  }

  function Padding(r: Region, upTo: nat): seq<Region> {
    if r.start < upTo then [Region(r.start, upTo - r.start)] else []
  }

  /** `dealloc` of the j-th live block: push its region at the head of the list. */
  function Dealloc(s: HeapState, j: nat): HeapState
    requires j < |s.live|
  {
    HeapState([s.live[j].region] + s.free, Without(s.live, j), s.lost)
  }

  function Regions(blocks: seq<Block>): seq<Region> {
    seq(|blocks|, i requires 0 <= i < |blocks| => blocks[i].region)
  }

  /* ---- how often an address is covered, and how many bytes a sequence of regions holds ---- */

  predicate Covers(r: Region, a: nat) {
    r.start <= a < r.End()
  }

  function Cover(rs: seq<Region>, a: nat): nat {
    if rs == [] then 0 else (if Covers(rs[0], a) then 1 else 0) + Cover(rs[1..], a)
  }

  function Bytes(rs: seq<Region>): nat {
    if rs == [] then 0 else rs[0].size + Bytes(rs[1..])
  }

  predicate Disjoint(p: Region, q: Region) {
    p.End() <= q.start || q.End() <= p.start
  }

  predicate Within(p: Region, q: Region) {
    q.start <= p.start && p.End() <= q.End()
  }

  /** A free region can hold a list node, and starts where a node may be written. */
  predicate FreeOk(r: Region) {
    r.size >= NODE_SIZE && r.start % 8 == 0 && r.size % 8 == 0
  }

  /** A live block has its layout's alignment and the padded size of its layout. */
  ghost predicate LiveOk(b: Block) {
    && ValidLayout(b.layout)
    && b.region.start % b.layout.align == 0
    && b.region.start % 8 == 0
    && b.region.size == BlockSize(b.layout)
  }

  function TimesCovered(s: HeapState, a: nat): nat {
    Cover(s.free, a) + Cover(Regions(s.live), a) + Cover(s.lost, a)
  }

  predicate InHeap(a: nat) {
    HEAP_START <= a < HEAP_END
  }

  /** Every address of the heap lies in exactly one piece, free, live or lost, and none outside. */
  ghost predicate Partitioned(s: HeapState) {
    forall a: nat :: TimesCovered(s, a) == if InHeap(a) then 1 else 0
  }

  ghost predicate Inv(s: HeapState) {
    && Partitioned(s)
    && (forall i :: 0 <= i < |s.free| ==> FreeOk(s.free[i]))
    && (forall i :: 0 <= i < |s.live| ==> LiveOk(s.live[i]))
    && (forall i :: 0 <= i < |s.lost| ==> s.lost[i].size > 0)
  }

  /* ---- arithmetic of layouts and fits ---- */

  lemma AlignFacts(l: Layout)
    requires IsPow2(l.align)
    ensures IsPow2(EffectiveAlign(l)) && EffectiveAlign(l) % 8 == 0
    ensures EffectiveAlign(l) % l.align == 0
  {
    Pow2Word();
    assert IsPow2(NODE_ALIGN) by { assert NODE_ALIGN == Pow2(3); }
    MultipleOfEight(0, EffectiveAlign(l));
    if l.align < 8 {
      SmallPow2(l.align);
    } else {
      QuotRem(l.align, l.align, 1, 0);
    }
  }

  lemma SmallPow2(a: nat)
    requires IsPow2(a) && a < 8
    ensures a == 1 || a == 2 || a == 4
  {
    var k: nat :| a == Pow2(k);
    Pow2Word();
    if k >= 3 {
      Pow2Monotone(3, k);
    } else {
      assert Pow2(0) == 1 && Pow2(1) == 2 && Pow2(2) == 4;
    }
  }

  lemma LayoutFacts(l: Layout)
    requires ValidLayout(l)
    ensures IsPow2(EffectiveAlign(l)) && EffectiveAlign(l) % 8 == 0
    ensures BlockSize(l) == Max(RoundUp(l.size, EffectiveAlign(l)), NODE_SIZE)
    ensures BlockSize(l) >= l.size && BlockSize(l) >= NODE_SIZE && BlockSize(l) % 8 == 0
    ensures BlockSize(l) < 0x8000_0000_0000_0000
    ensures EffectiveAlign(l) % l.align == 0
  {
    AlignFacts(l);
    var a := EffectiveAlign(l);
    AlignUpWrappingCorrect(l.size, a);
    RoundUpBounds(l.size, a);
    MultipleOfEight(RoundUp(l.size, a), a);
  }

  /**
   * What it means that a region can hold a block: from the least aligned address in it on there
   * is room, and what remains behind the block is nothing or can hold a list node.
   */
  predicate CanHold(r: Region, size: nat, align: nat)
    requires align > 0
  {
    var a := RoundUp(r.start, align);
    a + size == r.End() || a + size + NODE_SIZE <= r.End()
  }

  lemma FitMeaning(r: Region, size: nat, align: nat)
    requires IsPow2(align) && r.End() < WORD_LIMIT
    ensures AllocFromRegion(r, size, align) ==
            if r.start + align >= WORD_LIMIT then Overflow
            else if CanHold(r, size, align) then Fits(RoundUp(r.start, align))
            else Misfit
  {
    AlignUpCorrect(r.start, align);
  }

  /** An alignment is at most 2^31 or at least 2^32. */
  lemma AlignGap(align: nat)
    requires IsPow2(align)
    ensures align <= 0x8000_0000 || align >= 0x1_0000_0000
  {
    var k: nat :| align == Pow2(k);
    Pow2Word();
    if k <= 31 {
      Pow2Monotone(k, 31);
    } else {
      Pow2Monotone(32, k);
    }
  }

  /* ---- additivity ---- */

  lemma {:induction false} CoverConcat(p: seq<Region>, q: seq<Region>, a: nat)
    ensures Cover(p + q, a) == Cover(p, a) + Cover(q, a)
  {
    if p == [] {
      assert p + q == q;
    } else {
      assert (p + q)[1..] == p[1..] + q;
      CoverConcat(p[1..], q, a);
    }
  }

  lemma {:induction false} BytesConcat(p: seq<Region>, q: seq<Region>)
    ensures Bytes(p + q) == Bytes(p) + Bytes(q)
  {
    if p == [] {
      assert p + q == q;
    } else {
      assert (p + q)[1..] == p[1..] + q;
      BytesConcat(p[1..], q);
    }
  }

  lemma CoverWithout(rs: seq<Region>, i: nat, a: nat)
    requires i < |rs|
    ensures Cover(rs, a) == Cover(Without(rs, i), a) + (if Covers(rs[i], a) then 1 else 0)
  {
    assert rs == rs[..i] + ([rs[i]] + rs[i + 1..]);
    CoverConcat(rs[..i], [rs[i]] + rs[i + 1..], a);
    CoverConcat([rs[i]], rs[i + 1..], a);
    CoverConcat(rs[..i], rs[i + 1..], a);
    assert Cover([rs[i]], a) == (if Covers(rs[i], a) then 1 else 0) + Cover([], a);
  }

  lemma BytesBetween(p: seq<Region>, r: Region, q: seq<Region>)
    ensures Bytes(p + [r] + q) == Bytes(p + q) + r.size
  {
    BytesConcat(p + [r], q);
    BytesConcat(p, [r]);
    BytesConcat(p, q);
    assert Bytes([r]) == r.size + Bytes([r][1..]);
  }

  lemma BytesWithout(rs: seq<Region>, i: nat)
    requires i < |rs|
    ensures Bytes(rs) == Bytes(Without(rs, i)) + rs[i].size
  {
    BytesBetween(rs[..i], rs[i], rs[i + 1..]);
    assert rs == rs[..i] + [rs[i]] + rs[i + 1..];
  }

  lemma RegionsAppend(blocks: seq<Block>, b: Block)
    ensures Regions(blocks + [b]) == Regions(blocks) + [b.region]
  {
  }

  lemma RegionsWithout(blocks: seq<Block>, j: nat)
    requires j < |blocks|
    ensures Regions(Without(blocks, j)) == Without(Regions(blocks), j)
  {
  }

  lemma CoverMember(rs: seq<Region>, i: nat, a: nat)
    requires i < |rs| && Covers(rs[i], a)
    ensures Cover(rs, a) >= 1
  {
    CoverWithout(rs, i, a);
  }

  lemma CoverTwo(rs: seq<Region>, i: nat, j: nat, a: nat)
    requires i < j < |rs| && Covers(rs[i], a) && Covers(rs[j], a)
    ensures Cover(rs, a) >= 2
  {
    CoverWithout(rs, i, a);
    assert Without(rs, i)[j - 1] == rs[j];
    CoverMember(Without(rs, i), j - 1, a);
  }
}
