/** The enumeration of usable physical frames, by which both frame allocators number frames. */
module Frames {
  import opened Wrappers

  /** A physical frame, by its number: its start address divided by 4096. */
  type Frame = nat

  datatype RegionKind = Usable | Reserved
  datatype MemoryRegion = MemoryRegion(start: nat, end: nat, kind: RegionKind)

  /** The frames containing start, start + 4096, ... below end. */
  function RegionFrames(start: nat, end: nat): seq<Frame>
    decreases end - start
  {
    if start >= end then [] else [start / 4096] + RegionFrames(start + 4096, end)
  }

  /** `usable_frames`: the usable regions of the memory map, flattened in order. */
  function UsableFrames(regions: seq<MemoryRegion>): seq<Frame> {
    if regions == [] then []
    else (if regions[0].kind == Usable then RegionFrames(regions[0].start, regions[0].end) else [])
         + UsableFrames(regions[1..])
  }

  /** `nth` of the enumeration. */
  function Nth(frames: seq<Frame>, i: nat): Option<Frame> {
    if i < |frames| then Some(frames[i]) else None
  }

  /** The first index at which the enumeration yields the frame, as `deallocate_frame` searches it. */
  function IndexOf(frames: seq<Frame>, f: Frame): (r: Option<nat>)
    ensures r.Some? ==> r.value < |frames| && frames[r.value] == f
    ensures r.Some? ==> forall i :: 0 <= i < r.value ==> frames[i] != f
    ensures r.None? <==> f !in frames
  {
    if frames == [] then None
    else if frames[0] == f then Some(0)
    else match IndexOf(frames[1..], f)
      case None => None
      case Some(i) => Some(i + 1)
  }

  /** Number of frames a region contributes. */
  function FrameCount(r: MemoryRegion): nat {
    if r.kind == Usable && r.start < r.end then (r.end - r.start + 4096 - 1) / 4096 else 0
  }

  ghost predicate Distinct(frames: seq<Frame>) {
    forall i, j :: 0 <= i < j < |frames| ==> frames[i] != frames[j]
  }

  /** The frame numbers of two regions do not meet. */
  predicate SpansApart(p: MemoryRegion, q: MemoryRegion) {
    || FrameCount(p) == 0 || FrameCount(q) == 0
    || p.start / 4096 + FrameCount(p) <= q.start / 4096
    || q.start / 4096 + FrameCount(q) <= p.start / 4096
  }

  ghost predicate AllSpansApart(regions: seq<MemoryRegion>) {
    forall i, j :: 0 <= i < j < |regions| ==> SpansApart(regions[i], regions[j])
  }

  lemma {:induction false} RegionFramesAt(start: nat, end: nat)
    ensures |RegionFrames(start, end)| == FrameCount(MemoryRegion(start, end, Usable))
    ensures forall i :: 0 <= i < |RegionFrames(start, end)| ==> RegionFrames(start, end)[i] == start / 4096 + i
    decreases end - start
  {
    if start < end {
      RegionFramesAt(start + 4096, end);
    }
  }

  lemma RegionMembers(r: MemoryRegion, f: Frame)
    requires r.kind == Usable
    ensures f in RegionFrames(r.start, r.end) <==> r.start / 4096 <= f < r.start / 4096 + FrameCount(r)
  {
    RegionFramesAt(r.start, r.end);
    var s := RegionFrames(r.start, r.end);
    if r.start / 4096 <= f < r.start / 4096 + FrameCount(r) {
      assert s[f - r.start / 4096] == f;
    }
  }

  lemma {:induction false} UsableMember(regions: seq<MemoryRegion>, f: Frame)
    ensures f in UsableFrames(regions) <==>
            exists i :: 0 <= i < |regions| && regions[i].kind == Usable && f in RegionFrames(regions[i].start, regions[i].end)
  {
    if regions != [] {
      UsableMember(regions[1..], f);
      var rest := regions[1..];
      if f in UsableFrames(rest) {
        var i :| 0 <= i < |rest| && rest[i].kind == Usable && f in RegionFrames(rest[i].start, rest[i].end);
        assert regions[i + 1] == rest[i];
      }
      if i :| 0 < i < |regions| && regions[i].kind == Usable && f in RegionFrames(regions[i].start, regions[i].end) {
        assert rest[i - 1] == regions[i];
      }
    }
  }

  /** Splitting the question of duplicates over a concatenation. */
  lemma DistinctConcat(p: seq<Frame>, q: seq<Frame>)
    ensures Distinct(p + q) <==> Distinct(p) && Distinct(q) && forall f :: f in p ==> f !in q
  {
    var s := p + q;
    if Distinct(s) {
      assert forall i, j :: 0 <= i < j < |p| ==> p[i] == s[i] && p[j] == s[j];
      assert forall i, j :: 0 <= i < j < |q| ==> q[i] == s[|p| + i] && q[j] == s[|p| + j];
      forall f | f in p
        ensures f !in q
      {
        var i :| 0 <= i < |p| && p[i] == f;
        assert s[i] == f;
        assert forall j :: 0 <= j < |q| ==> q[j] == s[|p| + j];
      }
    }
    if Distinct(p) && Distinct(q) && forall f :: f in p ==> f !in q {
      forall i, j | 0 <= i < j < |s|
        ensures s[i] != s[j]
      {
        if i < |p| <= j {
          assert p[i] in p && q[j - |p|] in q;
        } else if |p| <= i {
          assert q[i - |p|] != q[j - |p|];
        }
      }
    }
  }

  /**
   * The enumeration yields every frame once exactly when the frame spans of the usable regions
   * are pairwise disjoint.
   */
  lemma {:induction false} EnumerationDistinct(regions: seq<MemoryRegion>)
    ensures Distinct(UsableFrames(regions)) <==> AllSpansApart(regions)
  {
    if regions != [] {
      var r, rest := regions[0], regions[1..];
      EnumerationDistinct(rest);
      assert AllSpansApart(regions) <==> AllSpansApart(rest) && forall j :: 0 <= j < |rest| ==> SpansApart(r, rest[j]) by {
        assert forall j :: 0 <= j < |rest| ==> rest[j] == regions[j + 1];
        assert forall j :: 1 <= j < |regions| ==> regions[j] == rest[j - 1];
      }
      if r.kind == Usable {
        var first := RegionFrames(r.start, r.end);
        RegionFramesAt(r.start, r.end);
        DistinctConcat(first, UsableFrames(rest));
        SpansMeet(r, rest);
      } else {
        assert [] + UsableFrames(rest) == UsableFrames(rest);
      }
    }
  }

  lemma SpansMeet(r: MemoryRegion, rest: seq<MemoryRegion>)
    requires r.kind == Usable
    ensures (forall f :: f in RegionFrames(r.start, r.end) ==> f !in UsableFrames(rest)) <==>
            (forall j :: 0 <= j < |rest| ==> SpansApart(r, rest[j]))
  {
    if j :| 0 <= j < |rest| && !SpansApart(r, rest[j]) {
      var a, b := r.start / 4096, rest[j].start / 4096;
      var f := if a < b then b else a;
      RegionMembers(r, f);
      RegionMembers(rest[j], f);
      UsableMember(rest, f);
    }
    if f :| f in RegionFrames(r.start, r.end) && f in UsableFrames(rest) {
      UsableMember(rest, f);
      var j :| 0 <= j < |rest| && rest[j].kind == Usable && f in RegionFrames(rest[j].start, rest[j].end);
      RegionMembers(r, f);
      RegionMembers(rest[j], f);
      assert !SpansApart(r, rest[j]);
    }
  }

  /** Disjoint regions with page-aligned starts, as the bootloader delivers them, have disjoint spans. */
  lemma AlignedRegionsApart(regions: seq<MemoryRegion>)
    requires forall i :: 0 <= i < |regions| && regions[i].kind == Usable ==> regions[i].start % 4096 == 0
    requires forall i, j :: 0 <= i < j < |regions| && regions[i].kind == Usable && regions[j].kind == Usable ==>
               regions[i].end <= regions[j].start || regions[j].end <= regions[i].start
    ensures Distinct(UsableFrames(regions))
  {
    forall i, j | 0 <= i < j < |regions|
      ensures SpansApart(regions[i], regions[j])
    {
    }
    EnumerationDistinct(regions);
  }

  /** Two disjoint regions that share a page: the enumeration yields the shared frame twice. */
  lemma UnalignedRegionsShareAFrame()
    ensures var regions := [MemoryRegion(0x1000, 0x2800, Usable), MemoryRegion(0x2800, 0x4000, Usable)];
            !Distinct(UsableFrames(regions))
  {
    var regions := [MemoryRegion(0x1000, 0x2800, Usable), MemoryRegion(0x2800, 0x4000, Usable)];
    EnumerationDistinct(regions);
    assert !SpansApart(regions[0], regions[1]);
  }

  /* ---- the order of the enumeration ---- */

  /** Number of frames of several regions. */
  function TotalCount(regions: seq<MemoryRegion>): nat {
    if regions == [] then 0 else FrameCount(regions[0]) + TotalCount(regions[1..])
  }

  lemma {:induction false} EnumerationLength(regions: seq<MemoryRegion>)
    ensures |UsableFrames(regions)| == TotalCount(regions)
  {
    if regions != [] {
      RegionFramesAt(regions[0].start, regions[0].end);
      EnumerationLength(regions[1..]);
    }
  }

  /**
   * The order of the enumeration: the k-th frame of region r comes after all frames of the regions
   * before r, and is the k-th from the one in which the region starts.
   */
  lemma {:induction false} FrameAt(regions: seq<MemoryRegion>, r: nat, k: nat)
    requires r < |regions| && k < FrameCount(regions[r])
    ensures var i := TotalCount(regions[..r]) + k;
            i < |UsableFrames(regions)| && UsableFrames(regions)[i] == regions[r].start / 4096 + k
    decreases r
  {
    var first, rest := regions[0], regions[1..];
    RegionFramesAt(first.start, first.end);
    EnumerationLength(rest);
    if r == 0 {
      assert regions[..0] == [];
    } else {
      FrameAt(rest, r - 1, k);
      assert regions[..r][0] == first && regions[..r][1..] == rest[..r - 1];
    }
  }

  /** Usable regions with page-aligned starts, each beginning where an earlier one has ended or later. */
  ghost predicate Ascending(regions: seq<MemoryRegion>) {
    && (forall i :: 0 <= i < |regions| && regions[i].kind == Usable ==> regions[i].start % 4096 == 0)
    && (forall i, j :: 0 <= i < j < |regions| && regions[i].kind == Usable && regions[j].kind == Usable ==>
          regions[i].end <= regions[j].start)
  }

  ghost predicate Increasing(frames: seq<Frame>) {
    forall i, j :: 0 <= i < j < |frames| ==> frames[i] < frames[j]
  }

  lemma IncreasingConcat(p: seq<Frame>, q: seq<Frame>)
    requires Increasing(p) && Increasing(q) && forall f, g :: f in p && g in q ==> f < g
    ensures Increasing(p + q)
  {
    var s := p + q;
    forall i, j | 0 <= i < j < |s|
      ensures s[i] < s[j]
    {
      if i < |p| <= j {
        assert p[i] in p && q[j - |p|] in q;
      }
    }
  }

  lemma BelowLater(regions: seq<MemoryRegion>, f: Frame, g: Frame)
    requires regions != [] && Ascending(regions) && regions[0].kind == Usable
    requires f in RegionFrames(regions[0].start, regions[0].end) && g in UsableFrames(regions[1..])
    ensures f < g
  {
    var first, rest := regions[0], regions[1..];
    UsableMember(rest, g);
    var i :| 0 <= i < |rest| && rest[i].kind == Usable && g in RegionFrames(rest[i].start, rest[i].end);
    assert rest[i] == regions[i + 1];
    RegionMembers(first, f);
    RegionMembers(rest[i], g);
  }

  /** Ascending regions give an ascending enumeration. */
  lemma {:induction false} AscendingEnumeration(regions: seq<MemoryRegion>)
    requires Ascending(regions)
    ensures Increasing(UsableFrames(regions))
    decreases |regions|
  {
    if regions != [] {
      var first, rest := regions[0], regions[1..];
      assert Ascending(rest) by {
        assert forall i :: 0 <= i < |rest| ==> rest[i] == regions[i + 1];
      }
      AscendingEnumeration(rest);
      if first.kind == Usable {
        RegionFramesAt(first.start, first.end);
        forall f, g | f in RegionFrames(first.start, first.end) && g in UsableFrames(rest)
          ensures f < g
        {
          BelowLater(regions, f, g);
        }
        IncreasingConcat(RegionFrames(first.start, first.end), UsableFrames(rest));
      } else {
        assert [] + UsableFrames(rest) == UsableFrames(rest);
      }
    }
  }

  /* ---- the allocator both stages implement ---- */

  /** The first frame of the enumeration that is not taken. */
  function LowestFree(frames: seq<Frame>, taken: set<Frame>): (r: Option<Frame>)
    ensures r.Some? ==> r.value in frames && r.value !in taken
    ensures r.None? <==> forall f :: f in frames ==> f in taken
  {
    if frames == [] then None
    else if frames[0] !in taken then Some(frames[0])
    else LowestFree(frames[1..], taken)
  }

  function TakeOne(frames: seq<Frame>, taken: set<Frame>): set<Frame> {
    match LowestFree(frames, taken)
    case None => taken
    case Some(f) => taken + {f}
  }

  /** The frame found is the first one free: all frames at lower indices are taken. */
  lemma {:induction false} LowestFreeAt(frames: seq<Frame>, taken: set<Frame>, i: nat)
    requires i <= |frames| && (forall k :: 0 <= k < i ==> frames[k] in taken)
    requires i < |frames| ==> frames[i] !in taken
    ensures LowestFree(frames, taken) == Nth(frames, i)
  {
    if i > 0 {
      LowestFreeAt(frames[1..], taken, i - 1);
    }
  }

  /** In an ascending enumeration the frame found is the least free frame number. */
  lemma {:induction false} LowestFreeIsLeast(frames: seq<Frame>, taken: set<Frame>, g: Frame)
    requires Increasing(frames) && g in frames && g !in taken
    ensures LowestFree(frames, taken).Some? && LowestFree(frames, taken).value <= g
    decreases |frames|
  {
    if frames[0] in taken {
      assert g in frames[1..];
      LowestFreeIsLeast(frames[1..], taken, g);
    }
  }

  function ToSet(frames: seq<Frame>): set<Frame> {
    set f | f in frames
  }
}
