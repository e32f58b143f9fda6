/** The bump allocator used during boot and the bitmap allocator that takes over from it. */
module FrameAllocators {
  import opened Wrappers
  import opened Frames

  /** `bitmap.first_zero()`. */
  function FirstZero(bits: seq<bool>): (r: Option<nat>)
    ensures r.Some? ==> r.value < |bits| && !bits[r.value] && forall i :: 0 <= i < r.value ==> bits[i]
    ensures r.None? <==> forall i :: 0 <= i < |bits| ==> bits[i]
  {
    if bits == [] then None
    else if !bits[0] then Some(0)
    else match FirstZero(bits[1..])
      case None => None
      case Some(i) => Some(i + 1)
  }

  class BootInfoFrameAllocator {
    const regions: seq<MemoryRegion>
    var next: nat

    function Frames(): seq<Frame> {
      UsableFrames(regions)
    }

    /** The frames handed out so far. */
    ghost function Taken(): set<Frame>
      reads this
    {
      FirstFrames(Frames(), next)
    }

    constructor (regions: seq<MemoryRegion>)
      ensures this.regions == regions && next == 0
    {
      this.regions := regions;
      next := 0;
    }

    method AllocateFrame() returns (f: Option<Frame>)
      modifies this
      ensures next == old(next) + 1 && f == Nth(Frames(), old(next))
      ensures Distinct(Frames()) ==>
                f == LowestFree(Frames(), old(Taken())) && Taken() == TakeOne(Frames(), old(Taken()))
    {
      f := Nth(Frames(), next);
      if Distinct(Frames()) {
        NextFrame(Frames(), next);
      }
      next := next + 1;
    }
  }

  /** The first n frames of the enumeration, or all of them when there are fewer. */
  function FirstFrames(frames: seq<Frame>, n: nat): set<Frame> {
    if n <= |frames| then ToSet(frames[..n]) else ToSet(frames)
  }

  lemma ToSetAppend(frames: seq<Frame>, f: Frame)
    ensures ToSet(frames + [f]) == ToSet(frames) + {f}
  {
  }

  /**
   * After the first n frames of a duplicate-free enumeration have been taken, the lowest free
   * frame is the next element.
   */
  lemma NextFrame(frames: seq<Frame>, n: nat)
    requires Distinct(frames)
    ensures LowestFree(frames, FirstFrames(frames, n)) == Nth(frames, n)
    ensures TakeOne(frames, FirstFrames(frames, n)) == FirstFrames(frames, n + 1)
  {
    if n < |frames| {
      assert forall k :: 0 <= k < n ==> frames[k] == frames[..n][k];
      assert frames[n] !in frames[..n];
      LowestFreeAt(frames, ToSet(frames[..n]), n);
      assert frames[..n + 1] == frames[..n] + [frames[n]];
      ToSetAppend(frames[..n], frames[n]);
    } else {
      assert frames[..|frames|] == frames;
      LowestFreeAt(frames, ToSet(frames), |frames|);
    }
  }

  class BitmapAllocator {
    const regions: seq<MemoryRegion>
    const bitmap: array<bool>

    function Frames(): seq<Frame> {
      UsableFrames(regions)
    }

    ghost predicate Valid() {
      bitmap.Length == |Frames()|
    }

    /** The frames whose bit is set. */
    ghost function Taken(): set<Frame>
      requires Valid()
      reads bitmap
    {
      set i | 0 <= i < bitmap.Length && bitmap[i] :: Frames()[i]
    }

    constructor (regions: seq<MemoryRegion>, bitmap: array<bool>)
      ensures this.regions == regions && this.bitmap == bitmap
    {
      this.regions := regions;
      this.bitmap := bitmap;
    }

    /**
     * `BitmapAllocator::init`. Setting a bit beyond the bitmap panics (null), which happens
     * exactly when the bump allocator has been asked for a frame after its last one.
     */
    static method Init(boot: BootInfoFrameAllocator) returns (r: BitmapAllocator?)
      ensures r == null <==> boot.next > |boot.Frames()|
      ensures r != null ==>
                && fresh(r) && fresh(r.bitmap) && r.Valid() && r.Frames() == boot.Frames()
                && (forall i :: 0 <= i < r.bitmap.Length ==> (r.bitmap[i] <==> i < boot.next))
                && r.Taken() == boot.Taken()
    {
      var len := |boot.Frames()|;
      var bits := new bool[len](_ => false);
      var i := 0;
      while i < boot.next
        invariant i <= boot.next && i <= len
        invariant forall k :: 0 <= k < len ==> (bits[k] <==> k < i)
      {
        if i >= len {
          return null;
        }
        bits[i] := true;
        i := i + 1;
      }
      var a := new BitmapAllocator(boot.regions, bits);
      ghost var fs := boot.Frames();
      forall f
        ensures f in a.Taken() <==> f in boot.Taken()
      {
        if f in boot.Taken() {
          var k :| 0 <= k < boot.next && fs[..boot.next][k] == f;
          assert a.bitmap[k] && fs[k] == f;
        }
        if f in a.Taken() {
          var k :| 0 <= k < a.bitmap.Length && a.bitmap[k] && fs[k] == f;
          assert fs[..boot.next][k] == f;
        }
      }
      return a;
    }

    /**
     * Hands out the frame of the lowest clear bit. When the enumeration has no duplicates this is
     * the lowest frame not handed out.
     */
    method AllocateFrame() returns (f: Option<Frame>)
      requires Valid()
      modifies bitmap
      ensures match FirstZero(old(bitmap[..]))
              case None => f == None && bitmap[..] == old(bitmap[..])
              case Some(i) => f == Nth(Frames(), i) && f.Some? && bitmap[..] == old(bitmap[..])[i := true]
      ensures Distinct(Frames()) ==> f == LowestFree(Frames(), old(Taken())) && Taken() == TakeOne(Frames(), old(Taken()))
    {
      ghost var bits := bitmap[..];
      TakenBits();
      match FirstZero(bitmap[..])
      case None =>
        NoneClear(Frames(), bits);
        return None;
      case Some(index) =>
        bitmap[index] := true;
        TakenBits();
        if Distinct(Frames()) {
          OneSet(Frames(), bits, index);
        }
        return Nth(Frames(), index);
    }

    /** `deallocate_frame`; a frame outside the memory map panics (false). */
    method DeallocateFrame(frame: Frame) returns (ok: bool)
      requires Valid()
      modifies bitmap
      ensures ok <==> frame in Frames()
      ensures match IndexOf(Frames(), frame)
              case None => bitmap[..] == old(bitmap[..])
              case Some(i) => bitmap[..] == old(bitmap[..])[i := false]
      ensures Distinct(Frames()) ==> Taken() == old(Taken()) - {frame}
    {
      ghost var bits := bitmap[..];
      TakenBits();
      match IndexOf(Frames(), frame)
      case None =>
        return false;
      case Some(index) =>
        bitmap[index] := false;
        TakenBits();
        if Distinct(Frames()) {
          OneCleared(Frames(), bits, index);
        }
        return true;
    }

    lemma TakenBits()
      requires Valid()
      ensures Taken() == SetFrames(Frames(), bitmap[..])
    {
    }
  }

  /** The frames whose bit is set. */
  ghost function SetFrames(frames: seq<Frame>, bits: seq<bool>): set<Frame>
    requires |bits| == |frames|
  {
    set i | 0 <= i < |bits| && bits[i] :: frames[i]
  }

  lemma NoneClear(frames: seq<Frame>, bits: seq<bool>)
    requires |bits| == |frames| && FirstZero(bits).None?
    ensures LowestFree(frames, SetFrames(frames, bits)) == None
  {
    forall f | f in frames
      ensures f in SetFrames(frames, bits)
    {
      var i :| 0 <= i < |frames| && frames[i] == f;
      assert bits[i];
    }
  }

  /** Setting the lowest clear bit takes the lowest free frame. */
  lemma OneSet(frames: seq<Frame>, bits: seq<bool>, index: nat)
    requires |bits| == |frames| && FirstZero(bits) == Some(index) && Distinct(frames)
    ensures LowestFree(frames, SetFrames(frames, bits)) == Some(frames[index])
    ensures SetFrames(frames, bits[index := true]) == SetFrames(frames, bits) + {frames[index]}
  {
    var taken, later := SetFrames(frames, bits), bits[index := true];
    assert forall k :: 0 <= k < index ==> bits[k] && frames[k] in taken;
    LowestFreeAt(frames, taken, index);
    forall f | f in taken + {frames[index]}
      ensures f in SetFrames(frames, later)
    {
      if f == frames[index] {
        assert later[index];
      } else {
        var k :| 0 <= k < |bits| && bits[k] && frames[k] == f;
        assert later[k];
      }
    }
  }

  /** Clearing the bit of a frame frees this frame only. */
  lemma OneCleared(frames: seq<Frame>, bits: seq<bool>, index: nat)
    requires |bits| == |frames| && index < |bits| && Distinct(frames)
    ensures SetFrames(frames, bits[index := false]) == SetFrames(frames, bits) - {frames[index]}
  {
    var later := bits[index := false];
    forall f | f in SetFrames(frames, bits) - {frames[index]}
      ensures f in SetFrames(frames, later)
    {
      var k :| 0 <= k < |bits| && bits[k] && frames[k] == f;
      assert later[k];
    }
  }

  /** The index search of `deallocate_frame` inverts the index lookup of `allocate_frame`. */
  lemma IndexInvertsLookup(regions: seq<MemoryRegion>, i: nat)
    requires AllSpansApart(regions) && i < |UsableFrames(regions)|
    ensures IndexOf(UsableFrames(regions), UsableFrames(regions)[i]) == Some(i)
  {
    EnumerationDistinct(regions);
  }

  /**
   * The frame allocator handed to the mapper: `impl FrameAllocator<Size4KiB>`, which is the bump
   * allocator during boot and the bitmap allocator afterwards.
   */
  datatype FrameSource = Boot(boot: BootInfoFrameAllocator) | Bitmap(bits: BitmapAllocator) {
    function Repr(): set<object> {
      match this
      case Boot(b) => {b}
      case Bitmap(a) => {a.bitmap}
    }

    function Frames(): seq<Frame> {
      match this
      case Boot(b) => b.Frames()
      case Bitmap(a) => a.Frames()
    }

    ghost predicate Valid() {
      Distinct(Frames()) && (Bitmap? ==> bits.Valid())
    }

    ghost function Taken(): set<Frame>
      requires Valid()
      reads Repr()
    {
      match this
      case Boot(b) => b.Taken()
      case Bitmap(a) => a.Taken()
    }

    /** No allocation has failed yet. */
    ghost predicate Intact()
      reads Repr()
    {
      Boot? ==> boot.next <= |Frames()|
    }

    method AllocateFrame() returns (f: Option<Frame>)
      requires Valid()
      modifies Repr()
      ensures f.Some? && old(Intact()) ==> Intact()
      ensures f == LowestFree(Frames(), old(Taken())) && Taken() == TakeOne(Frames(), old(Taken()))
    {
      match this
      case Boot(b) => f := b.AllocateFrame();
      case Bitmap(a) => f := a.AllocateFrame();
    }
  }

  /* ---- runs ---- */

  datatype FrameOp = Take | Give(frame: Frame)

  /** The frames held after a run, as a client would keep the books. */
  function HeldAfter(frames: seq<Frame>, held: set<Frame>, ops: seq<FrameOp>): set<Frame>
    decreases |ops|
  {
    if ops == [] then held
    else match ops[0]
      case Take => HeldAfter(frames, TakeOne(frames, held), ops[1..])
      case Give(f) => HeldAfter(frames, held - {f}, ops[1..])
  }

  /** The bits after a run, by index: also for enumerations that yield a frame twice. */
  function BitsAfter(frames: seq<Frame>, bits: seq<bool>, ops: seq<FrameOp>): (r: seq<bool>)
    ensures |r| == |bits|
    decreases |ops|
  {
    if ops == [] then bits
    else BitsAfter(frames, BitsStep(frames, bits, ops[0]), ops[1..])
  }

  function BitsStep(frames: seq<Frame>, bits: seq<bool>, op: FrameOp): (r: seq<bool>)
    ensures |r| == |bits|
  {
    match op
    case Take => (match FirstZero(bits) case None => bits case Some(i) => bits[i := true])
    case Give(f) => (match IndexOf(frames, f) case None => bits case Some(i) => if i < |bits| then bits[i := false] else bits)
  }

  lemma {:induction false} BitsAfterStep(frames: seq<Frame>, bits: seq<bool>, ops: seq<FrameOp>, n: nat)
    requires n < |ops|
    ensures BitsAfter(frames, bits, ops[..n + 1]) == BitsStep(frames, BitsAfter(frames, bits, ops[..n]), ops[n])
    decreases n
  {
    if n == 0 {
      assert ops[..1][1..] == [] && ops[..0] == [];
    } else {
      assert ops[..n + 1][1..] == ops[1..][..n] && ops[..n][1..] == ops[1..][..n - 1];
      BitsAfterStep(frames, BitsStep(frames, bits, ops[0]), ops[1..], n - 1);
    }
  }

  /** Without duplicates the set bits are the frames held. */
  lemma {:induction false} BitsAreHeld(frames: seq<Frame>, bits: seq<bool>, ops: seq<FrameOp>)
    requires |bits| == |frames| && Distinct(frames)
    ensures SetFrames(frames, BitsAfter(frames, bits, ops)) == HeldAfter(frames, SetFrames(frames, bits), ops)
    decreases |ops|
  {
    if ops != [] {
      match ops[0] {
        case Take =>
          if FirstZero(bits).Some? {
            OneSet(frames, bits, FirstZero(bits).value);
          } else {
            NoneClear(frames, bits);
          }
        case Give(f) =>
          if IndexOf(frames, f).Some? {
            OneCleared(frames, bits, IndexOf(frames, f).value);
          } else {
            assert SetFrames(frames, bits) - {f} == SetFrames(frames, bits);
          }
      }
      BitsAreHeld(frames, BitsStep(frames, bits, ops[0]), ops[1..]);
    }
  }

  /** Without duplicates the lowest clear bit is that of the lowest free frame. */
  lemma LowestClearIsFree(frames: seq<Frame>, bits: seq<bool>)
    requires |bits| == |frames| && Distinct(frames)
    ensures LowestFree(frames, SetFrames(frames, bits)) == match FirstZero(bits) case None => None case Some(i) => Some(frames[i])
  {
    match FirstZero(bits)
    case None => NoneClear(frames, bits);
    case Some(i) => OneSet(frames, bits, i);
  }

  /**
   * Every run of allocations and releases: each allocation delivers the frame of the lowest clear
   * bit. When the enumeration has no duplicates the set bits are exactly the frames held, and each
   * allocation delivers the lowest one free.
   */
  method RunOnBitmap(a: BitmapAllocator, ops: seq<FrameOp>) returns (got: seq<Option<Frame>>)
    requires a.Valid()
    modifies a.bitmap
    ensures a.bitmap[..] == BitsAfter(a.Frames(), old(a.bitmap[..]), ops) && |got| == |ops|
    ensures forall i :: 0 <= i < |ops| && ops[i] == Take ==>
              got[i] == match FirstZero(BitsAfter(a.Frames(), old(a.bitmap[..]), ops[..i]))
                        case None => None
                        case Some(k) => Nth(a.Frames(), k)
    ensures Distinct(a.Frames()) ==> a.Taken() == HeldAfter(a.Frames(), old(a.Taken()), ops)
    ensures Distinct(a.Frames()) ==>
              forall i :: 0 <= i < |ops| && ops[i] == Take ==>
                got[i] == LowestFree(a.Frames(), HeldAfter(a.Frames(), old(a.Taken()), ops[..i]))
  {
    got := [];
    ghost var start, fs := a.bitmap[..], a.Frames();
    a.TakenBits();
    var n := 0;
    while n < |ops|
      invariant n <= |ops| && |got| == n
      invariant a.bitmap[..] == BitsAfter(fs, start, ops[..n])
      invariant forall i :: 0 <= i < n && ops[i] == Take ==>
                  got[i] == match FirstZero(BitsAfter(fs, start, ops[..i]))
                            case None => None
                            case Some(k) => Nth(fs, k)
    {
      BitsAfterStep(fs, start, ops, n);
      match ops[n] {
        case Take =>
          var f := a.AllocateFrame();
          got := got + [f];
        case Give(frame) =>
          var _ := a.DeallocateFrame(frame);
          got := got + [None];
      }
      n := n + 1;
    }
    assert ops[..n] == ops;
    a.TakenBits();
    if Distinct(fs) {
      BitsAreHeld(fs, start, ops);
      forall i | 0 <= i < |ops| && ops[i] == Take
        ensures got[i] == LowestFree(fs, HeldAfter(fs, SetFrames(fs, start), ops[..i]))
      {
        BitsAreHeld(fs, start, ops[..i]);
        LowestClearIsFree(fs, BitsAfter(fs, start, ops[..i]));
      }
    }
  }

  /** Exactly the first n bits are set, or all if there are fewer. */
  ghost predicate FirstSet(bits: seq<bool>, n: nat) {
    forall i :: 0 <= i < |bits| ==> (bits[i] <==> i < n)
  }

  lemma FirstSetNext(bits: seq<bool>, n: nat)
    requires FirstSet(bits, n)
    ensures FirstZero(bits) == if n < |bits| then Some(n) else None
  {
    if n < |bits| {
      assert !bits[n];
      assert FirstZero(bits).Some? && !bits[FirstZero(bits).value];
    }
  }

  lemma FirstSetFrames(frames: seq<Frame>, bits: seq<bool>, n: nat)
    requires |bits| == |frames| && FirstSet(bits, n)
    ensures SetFrames(frames, bits) == FirstFrames(frames, n)
  {
    forall f | f in FirstFrames(frames, n)
      ensures f in SetFrames(frames, bits)
    {
      var i :| 0 <= i < |frames| && i < n && frames[i] == f;
      assert bits[i];
    }
    forall f | f in SetFrames(frames, bits)
      ensures f in FirstFrames(frames, n)
    {
      var i :| 0 <= i < |bits| && bits[i] && frames[i] == f;
      assert n <= |frames| ==> frames[..n][i] == f;
    }
  }

  lemma AscendingDelivery(regions: seq<MemoryRegion>)
    ensures Ascending(regions) ==> Increasing(UsableFrames(regions))
  {
    if Ascending(regions) {
      AscendingEnumeration(regions);
    }
  }

  /**
   * Handover: k bump allocations, the switch, then n bitmap allocations. The switch panics exactly
   * when a bump allocation has failed; otherwise the two stages together deliver the plain
   * enumeration, as one allocator would: for ascending regions that is by ascending address.
   */
  method BumpThenBitmap(regions: seq<MemoryRegion>, k: nat, n: nat) returns (got: seq<Option<Frame>>, a: BitmapAllocator?)
    ensures a == null <==> k > |UsableFrames(regions)|
    ensures a == null ==> |got| == k
    ensures a != null ==> |got| == k + n && a.Valid()
    ensures a != null ==> a.Taken() == FirstFrames(UsableFrames(regions), k + n)
    ensures forall i :: 0 <= i < |got| ==> got[i] == Nth(UsableFrames(regions), i)
    ensures Ascending(regions) ==> forall i, j :: 0 <= i < j < |got| && got[j].Some? ==> got[i].Some? && got[i].value < got[j].value
  {
    AscendingDelivery(regions);
    var boot := new BootInfoFrameAllocator(regions);
    ghost var fs := UsableFrames(regions);
    got := [];
    for i := 0 to k
      invariant boot.regions == regions && boot.next == i == |got|
      invariant forall j :: 0 <= j < i ==> got[j] == Nth(fs, j)
    {
      var f := boot.AllocateFrame();
      got := got + [f];
    }
    a := BitmapAllocator.Init(boot);
    if a == null {
      return;
    }
    got := AllocateMore(a, fs, got, n);
    a.TakenBits();
    FirstSetFrames(fs, a.bitmap[..], k + n);
  }

  /** One frame from the bitmap allocator, when the first n have been handed out. */
  method NextInOrder(a: BitmapAllocator, ghost fs: seq<Frame>, ghost n: nat) returns (f: Option<Frame>)
    requires a.Valid() && a.Frames() == fs && FirstSet(a.bitmap[..], n)
    modifies a.bitmap
    ensures f == Nth(fs, n) && FirstSet(a.bitmap[..], n + 1)
  {
    FirstSetNext(a.bitmap[..], n);
    f := a.AllocateFrame();
  }

  /** n more frames from the bitmap allocator, when the first |got| have been handed out. */
  method AllocateMore(a: BitmapAllocator, ghost fs: seq<Frame>, got: seq<Option<Frame>>, n: nat) returns (more: seq<Option<Frame>>)
    requires a.Valid() && a.Frames() == fs && FirstSet(a.bitmap[..], |got|)
    requires forall j :: 0 <= j < |got| ==> got[j] == Nth(fs, j)
    modifies a.bitmap
    ensures |more| == |got| + n && FirstSet(a.bitmap[..], |got| + n)
    ensures forall j :: 0 <= j < |more| ==> more[j] == Nth(fs, j)
  {
    more := got;
    for i := 0 to n
      invariant |more| == |got| + i && FirstSet(a.bitmap[..], |got| + i)
      invariant forall j :: 0 <= j < |more| ==> more[j] == Nth(fs, j)
    {
      var f := NextInOrder(a, fs, |more|);
      more := more + [f];
    }
  }
}
