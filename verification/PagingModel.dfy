/**
 * Who owns which physical frame: the books that mapping a page keeps. `Paging.dfy` proves that
 * the mapper keeps its books this way.
 */
module PagingModel {
  import opened Wrappers
  import opened Frames

  /** A virtual page, by its number: its start address divided by 4096. */
  type Page = nat

  /** A page table below the root: its level and the page numbers it serves, divided by its span. */
  datatype TableId = TableId(level: nat, prefix: nat)

  /** Pages served by one table of each level. */
  function Span(level: nat): nat {
    if level == 1 then 0x200 else if level == 2 then 0x4_0000 else 0x800_0000
  }

  datatype MapToError = FrameAllocationFailed | PageAlreadyMapped
  datatype MapResult = Mapped | Failed(error: MapToError)

  /** The frames behind pages and page tables, and the frames the allocator has handed out. */
  datatype Books = Books(pages: map<Page, Frame>, tables: map<TableId, Frame>, taken: set<Frame>)

  /** Create the table of this level that serves the page, unless it exists. */
  function EnsureTable(frames: seq<Frame>, b: Books, level: nat, page: Page): (Books, bool) {
    var id := TableId(level, page / Span(level));
    if id in b.tables then (b, true)
    else match LowestFree(frames, b.taken)
      case None => (b, false)
      case Some(f) => (Books(b.pages, b.tables[id := f], b.taken + {f}), true)
  }

  /** The tables on the way to the page, from the given level inwards. */
  function EnsureTables(frames: seq<Frame>, b: Books, level: nat, page: Page): (Books, bool)
    decreases level, page
  {
    if level == 0 then (b, true)
    else
      var (c, ok) := EnsureTable(frames, b, level, page);
      if ok then EnsureTables(frames, c, level - 1, page) else (c, false)
  }

  /** One table, then those within it. */
  lemma EnsureTablesStep(frames: seq<Frame>, b: Books, level: nat, page: Page)
    requires level > 0
    ensures var (c, ok) := EnsureTable(frames, b, level, page);
            EnsureTables(frames, b, level, page) == if ok then EnsureTables(frames, c, level - 1, page) else (c, false)
  {
  }

  /** `map_to`. */
  function MapTo(frames: seq<Frame>, b: Books, page: Page, frame: Frame): (Books, MapResult) {
    var (b', ok) := EnsureTables(frames, b, 3, page);
    if !ok then (b', Failed(FrameAllocationFailed))
    else if page in b'.pages then (b', Failed(PageAlreadyMapped))
    else (b'.(pages := b'.pages[page := frame]), Mapped)
  }

  /** Draw a frame and map the page to it. */
  function MapFresh(frames: seq<Frame>, b: Books, page: Page): (Books, MapResult) {
    match LowestFree(frames, b.taken)
    case None => (b, Failed(FrameAllocationFailed))
    case Some(f) => MapTo(frames, b.(taken := b.taken + {f}), page, f)
  }

  /** The loop over an inclusive page range; it stops at the first error. */
  function MapRange(frames: seq<Frame>, b: Books, first: Page, last: int): (Books, MapResult)
    decreases last - first
  {
    if first > last then (b, Mapped)
    else
      var (b', r) := MapFresh(frames, b, first);
      if r == Mapped then MapRange(frames, b', first + 1, last) else (b', r)
  }

  /**
   * Frame ownership. Only usable frames are handed out. Of the usable frames, those backing a page
   * or a page table have been drawn from the allocator; no two pages, no two tables, and no page
   * and table share one.
   */
  ghost predicate Owned(frames: seq<Frame>, b: Books) {
    && (forall f :: f in b.taken ==> f in frames)
    && (forall p :: p in b.pages && b.pages[p] in frames ==> b.pages[p] in b.taken)
    && (forall t :: t in b.tables && b.tables[t] in frames ==> b.tables[t] in b.taken)
    && (forall p, q :: p in b.pages && q in b.pages && p != q && b.pages[p] == b.pages[q] ==> b.pages[p] !in frames)
    && (forall t, u :: t in b.tables && u in b.tables && t != u && b.tables[t] == b.tables[u] ==> b.tables[t] !in frames)
    && (forall p, t :: p in b.pages && t in b.tables && b.pages[p] == b.tables[t] ==> b.pages[p] !in frames)
  }

  /** The frame backs nothing. */
  ghost predicate Idle(f: Frame, b: Books) {
    (forall p :: p in b.pages ==> b.pages[p] != f) && (forall t :: t in b.tables ==> b.tables[t] != f)
  }

  ghost predicate InUse(f: Frame, b: Books) {
    (exists p :: p in b.pages && b.pages[p] == f) || (exists t :: t in b.tables && b.tables[t] == f)
  }

  /** Nothing mapped or drawn before is given up. */
  ghost predicate Extends(b: Books, c: Books) {
    && b.taken <= c.taken
    && (forall p :: p in b.pages ==> p in c.pages && c.pages[p] == b.pages[p])
    && (forall t :: t in b.tables ==> t in c.tables && c.tables[t] == b.tables[t])
  }

  /** Every frame drawn in between backs a page or a table: none has leaked. */
  ghost predicate NoLeak(b: Books, c: Books) {
    forall f :: f in c.taken && f !in b.taken ==> InUse(f, c)
  }

  ghost predicate Exhausted(frames: seq<Frame>, b: Books) {
    forall f :: f in frames ==> f in b.taken
  }

  lemma ExtendsTransitive(a: Books, b: Books, c: Books)
    requires Extends(a, b) && Extends(b, c)
    ensures Extends(a, c)
  {
  }

  lemma NoLeakTransitive(a: Books, b: Books, c: Books)
    requires Extends(a, b) && Extends(b, c) && NoLeak(a, b) && NoLeak(b, c)
    ensures NoLeak(a, c)
  {
    forall f | f in c.taken && f !in a.taken
      ensures InUse(f, c)
    {
      if f in b.taken {
        assert InUse(f, b);
        InUseStays(f, b, c);
      }
    }
  }

  lemma InUseStays(f: Frame, b: Books, c: Books)
    requires Extends(b, c) && InUse(f, b)
    ensures InUse(f, c)
  {
    if p :| p in b.pages && b.pages[p] == f {
      assert c.pages[p] == f;
    } else {
      var t :| t in b.tables && b.tables[t] == f;
      assert c.tables[t] == f;
    }
  }

  lemma DrawnIsIdle(frames: seq<Frame>, b: Books, f: Frame)
    requires Owned(frames, b) && f in frames && f !in b.taken
    ensures Idle(f, b) && Owned(frames, b.(taken := b.taken + {f}))
  {
  }

  lemma AddTable(frames: seq<Frame>, b: Books, id: TableId, f: Frame)
    requires Owned(frames, b) && f in frames && f !in b.taken && id !in b.tables
    ensures Owned(frames, Books(b.pages, b.tables[id := f], b.taken + {f}))
    ensures forall g :: g != f && Idle(g, b) ==> Idle(g, Books(b.pages, b.tables[id := f], b.taken + {f}))
  {
  }

  lemma AddPage(frames: seq<Frame>, b: Books, p: Page, f: Frame)
    requires Owned(frames, b) && f in b.taken && p !in b.pages && Idle(f, b)
    ensures Owned(frames, b.(pages := b.pages[p := f]))
  {
  }

  /** A new table takes an idle frame. */
  lemma EnsureTableKeeps(frames: seq<Frame>, b: Books, level: nat, page: Page, frame: Frame)
    requires Owned(frames, b) && frame in b.taken && Idle(frame, b)
    ensures var (c, ok) := EnsureTable(frames, b, level, page);
            && Owned(frames, c) && Idle(frame, c) && frame in c.taken && c.pages == b.pages
            && (!ok ==> Exhausted(frames, c))
  {
    var id := TableId(level, page / Span(level));
    var (c, ok) := EnsureTable(frames, b, level, page);
    if id !in b.tables && ok {
      AddTable(frames, b, id, LowestFree(frames, b.taken).value);
    }
  }

  /** One table costs at most one frame. */
  lemma EnsureTableGrows(frames: seq<Frame>, b: Books, level: nat, page: Page)
    ensures var c := EnsureTable(frames, b, level, page).0;
            Extends(b, c) && NoLeak(b, c) && |c.taken - b.taken| <= 1
  {
    var id := TableId(level, page / Span(level));
    var (c, ok) := EnsureTable(frames, b, level, page);
    if id !in b.tables && ok {
      var f := LowestFree(frames, b.taken).value;
      assert c.tables[id] == f;
      assert c.taken - b.taken == {f};
    } else {
      assert c.taken - b.taken == {};
    }
  }

  lemma SmallUnion(a: set<Frame>, b: set<Frame>, c: set<Frame>)
    requires a <= b <= c
    ensures |c - a| == |c - b| + |b - a|
  {
    assert c - a == (c - b) + (b - a);
  }

  /** The tables on the way to a page keep ownership. */
  lemma {:induction false} EnsureTablesKeeps(frames: seq<Frame>, b: Books, level: nat, page: Page, frame: Frame)
    requires Owned(frames, b) && frame in b.taken && Idle(frame, b)
    ensures var (c, ok) := EnsureTables(frames, b, level, page);
            && Owned(frames, c) && Idle(frame, c) && frame in c.taken && c.pages == b.pages
            && (!ok ==> Exhausted(frames, c))
    decreases level
  {
    if level > 0 {
      EnsureTableKeeps(frames, b, level, page, frame);
      var (b', ok) := EnsureTable(frames, b, level, page);
      if ok {
        EnsureTablesKeeps(frames, b', level - 1, page, frame);
      }
    }
  }

  /** The way to a page costs at most one frame a level, and every frame drawn becomes a table. */
  lemma {:induction false} EnsureTablesGrow(frames: seq<Frame>, b: Books, level: nat, page: Page)
    ensures var c := EnsureTables(frames, b, level, page).0;
            Extends(b, c) && NoLeak(b, c) && |c.taken - b.taken| <= level
    decreases level
  {
    if level == 0 {
      assert b.taken - b.taken == {};
    } else {
      EnsureTableGrows(frames, b, level, page);
      var (b', ok) := EnsureTable(frames, b, level, page);
      if ok {
        var c := EnsureTables(frames, b', level - 1, page).0;
        EnsureTablesGrow(frames, b', level - 1, page);
        ExtendsTransitive(b, b', c);
        NoLeakTransitive(b, b', c);
        SmallUnion(b.taken, b'.taken, c.taken);
      }
    }
  }

  /** Mapping a page to an idle frame: what it may draw. */
  lemma MapToGrows(frames: seq<Frame>, b: Books, page: Page, frame: Frame)
    ensures var c := MapTo(frames, b, page, frame).0;
            Extends(b, c) && NoLeak(b, c) && |c.taken - b.taken| <= 3
  {
    EnsureTablesGrow(frames, b, 3, page);
    var (b', ok) := EnsureTables(frames, b, 3, page);
    var (c, r) := MapTo(frames, b, page, frame);
    if r == Mapped {
      forall f | f in c.taken && f !in b.taken
        ensures InUse(f, c)
      {
        assert InUse(f, b');
        InUseStays(f, b', c);
      }
    }
  }

  /**
   * Mapping a page to an idle frame: it succeeds only for a page not mapped yet, gives up nothing
   * mapped before, draws at most three frames, and keeps ownership.
   */
  lemma MapToKeeps(frames: seq<Frame>, b: Books, page: Page, frame: Frame)
    requires Owned(frames, b) && frame in b.taken && Idle(frame, b)
    ensures var (c, r) := MapTo(frames, b, page, frame);
            && Owned(frames, c) && Extends(b, c) && NoLeak(b, c) && |c.taken - b.taken| <= 3
            && (r == Mapped ==> page !in b.pages && c.pages == b.pages[page := frame])
            && (r != Mapped ==> c.pages == b.pages)
            && (r == Failed(PageAlreadyMapped) ==> page in b.pages)
            && (r == Failed(FrameAllocationFailed) ==> Exhausted(frames, c))
  {
    EnsureTablesKeeps(frames, b, 3, page, frame);
    MapToGrows(frames, b, page, frame);
    var b' := EnsureTables(frames, b, 3, page).0;
    if MapTo(frames, b, page, frame).1 == Mapped {
      AddPage(frames, b', page, frame);
    }
  }

  lemma MapFreshKeeps(frames: seq<Frame>, b: Books, page: Page)
    requires Owned(frames, b)
    ensures var (c, r) := MapFresh(frames, b, page);
            && Owned(frames, c) && Extends(b, c)
            && (r == Mapped ==> NoLeak(b, c) && page !in b.pages)
            && (r == Mapped ==> c.pages == b.pages[page := c.pages[page]] && c.pages[page] in frames && c.pages[page] !in b.taken)
            && (r != Mapped ==> c.pages == b.pages)
            && (r == Failed(PageAlreadyMapped) ==> page in b.pages)
            && (r == Failed(FrameAllocationFailed) ==> Exhausted(frames, c))
  {
    match LowestFree(frames, b.taken)
    case None =>
    case Some(f) =>
      var b' := b.(taken := b.taken + {f});
      DrawnIsIdle(frames, b, f);
      MapToKeeps(frames, b', page, f);
      var (c, r) := MapTo(frames, b', page, f);
      ExtendsTransitive(b, b', c);
      if r == Mapped {
        forall g | g in c.taken && g !in b.taken
          ensures InUse(g, c)
        {
          if g == f {
            assert c.pages[page] == f;
          }
        }
      }
  }

  /** Mapping a range keeps ownership and everything mapped before. */
  lemma {:induction false} MapRangeOwned(frames: seq<Frame>, b: Books, first: Page, last: int)
    requires Owned(frames, b)
    ensures Owned(frames, MapRange(frames, b, first, last).0)
    ensures Extends(b, MapRange(frames, b, first, last).0)
    ensures MapRange(frames, b, first, last).1 == Mapped ==> NoLeak(b, MapRange(frames, b, first, last).0)
    decreases last - first
  {
    if first <= last {
      MapFreshKeeps(frames, b, first);
      var (b', r) := MapFresh(frames, b, first);
      if r == Mapped {
        MapRangeOwned(frames, b', first + 1, last);
        var (c, r') := MapRange(frames, b', first + 1, last);
        ExtendsTransitive(b, b', c);
        if r' == Mapped {
          NoLeakTransitive(b, b', c);
        }
      }
    }
  }

  /** The pages of b and, beyond them, only pages of the range, on usable frames not drawn before. */
  ghost predicate OnlyNew(frames: seq<Frame>, b: Books, c: Books, first: Page, last: int) {
    forall p :: p in c.pages && p !in b.pages ==> first <= p <= last && c.pages[p] in frames && c.pages[p] !in b.taken
  }

  ghost predicate AllMapped(c: Books, first: Page, last: int) {
    forall p :: first <= p <= last ==> p in c.pages
  }

  ghost predicate NoneMapped(b: Books, first: Page, last: int) {
    forall p :: first <= p <= last ==> p !in b.pages
  }

  /**
   * Mapping a whole range. Each of the three outcomes has its meaning: success maps exactly the
   * pages of the range, none of which was mapped, each to a usable frame that had not been drawn;
   * otherwise some page of the range was mapped already, or no frame is left.
   */
  lemma {:induction false} MapRangeOutcome(frames: seq<Frame>, b: Books, first: Page, last: int)
    requires Owned(frames, b)
    ensures var (c, r) := MapRange(frames, b, first, last);
            && OnlyNew(frames, b, c, first, last)
            && (r == Mapped ==> NoneMapped(b, first, last) && AllMapped(c, first, last))
            && (r == Failed(PageAlreadyMapped) ==> !NoneMapped(b, first, last))
            && (r == Failed(FrameAllocationFailed) ==> Exhausted(frames, c))
    decreases last - first
  {
    if first <= last {
      MapFreshKeeps(frames, b, first);
      var (b', r) := MapFresh(frames, b, first);
      if r == Mapped {
        MapRangeOutcome(frames, b', first + 1, last);
        MapRangeOwned(frames, b', first + 1, last);
        NewPagesStep(frames, b, b', MapRange(frames, b', first + 1, last).0, first, last);
      }
    }
  }

  lemma NewPagesStep(frames: seq<Frame>, b: Books, b': Books, c: Books, first: Page, last: int)
    requires first !in b.pages && first in b'.pages && b'.pages == b.pages[first := b'.pages[first]]
    requires b'.pages[first] in frames && b'.pages[first] !in b.taken && first <= last
    requires Extends(b, b') && Extends(b', c) && OnlyNew(frames, b', c, first + 1, last)
    ensures OnlyNew(frames, b, c, first, last)
    ensures AllMapped(c, first + 1, last) ==> AllMapped(c, first, last)
    ensures NoneMapped(b', first + 1, last) <==> NoneMapped(b, first, last)
  {
    assert NoneMapped(b', first + 1, last) <==> NoneMapped(b, first + 1, last) by {
      assert forall p :: first + 1 <= p <= last ==> (p in b'.pages <==> p in b.pages);
    }
  }

  /* ---- several ranges in turn ---- */

  datatype Range = Range(first: Page, last: int)

  function MapRanges(frames: seq<Frame>, b: Books, ranges: seq<Range>): (Books, MapResult)
    decreases |ranges|
  {
    if ranges == [] then (b, Mapped)
    else
      var (c, r) := MapRange(frames, b, ranges[0].first, ranges[0].last);
      if r == Mapped then MapRanges(frames, c, ranges[1..]) else (c, r)
  }

  predicate Apart(a: Range, b: Range) {
    a.last < a.first || b.last < b.first || a.last < b.first || b.last < a.first
  }

  /** No range contains a mapped page, and no two share a page. */
  ghost predicate Clear(b: Books, ranges: seq<Range>) {
    && (forall i :: 0 <= i < |ranges| ==> NoneMapped(b, ranges[i].first, ranges[i].last))
    && (forall i, j :: 0 <= i < j < |ranges| ==> Apart(ranges[i], ranges[j]))
  }

  lemma {:induction false} MapRangesOwned(frames: seq<Frame>, b: Books, ranges: seq<Range>)
    requires Owned(frames, b)
    ensures Owned(frames, MapRanges(frames, b, ranges).0)
    ensures Extends(b, MapRanges(frames, b, ranges).0)
    ensures MapRanges(frames, b, ranges).1 == Mapped ==> NoLeak(b, MapRanges(frames, b, ranges).0)
    decreases |ranges|
  {
    if ranges != [] {
      MapRangeOwned(frames, b, ranges[0].first, ranges[0].last);
      var (c, r) := MapRange(frames, b, ranges[0].first, ranges[0].last);
      if r == Mapped {
        MapRangesOwned(frames, c, ranges[1..]);
        var (d, r') := MapRanges(frames, c, ranges[1..]);
        ExtendsTransitive(b, c, d);
        if r' == Mapped {
          NoLeakTransitive(b, c, d);
        }
      }
    }
  }

  /* ---- the hierarchy of tables ---- */

  /**
   * The tables form a tree in which every table has 512 entries: a table serves what one entry of
   * the next outer table serves, and exists only within it; a mapped page is an entry of the
   * innermost table that serves it.
   */
  ghost predicate Nested(b: Books) {
    && (forall t :: t in b.tables && t.level < 3 ==> TableId(t.level + 1, t.prefix / 512) in b.tables)
    && (forall p :: p in b.pages ==> TableId(1, p / 512) in b.tables)
  }

  lemma SpanNext(level: nat, page: Page)
    requires 1 <= level < 3
    ensures page / Span(level) / 512 == page / Span(level + 1)
  {
  }

  /** The outer table exists before an inner one is created. */
  ghost predicate HasOuter(b: Books, level: nat, page: Page) {
    level < 3 ==> TableId(level + 1, page / Span(level + 1)) in b.tables
  }

  lemma EnsureTableNested(frames: seq<Frame>, b: Books, level: nat, page: Page)
    requires Nested(b) && 1 <= level <= 3 && HasOuter(b, level, page)
    ensures var (c, ok) := EnsureTable(frames, b, level, page);
            Nested(c) && (ok ==> TableId(level, page / Span(level)) in c.tables)
  {
    if level < 3 {
      SpanNext(level, page);
    }
  }

  lemma {:induction false} EnsureTablesNested(frames: seq<Frame>, b: Books, level: nat, page: Page)
    requires Nested(b) && level <= 3 && HasOuter(b, level, page)
    ensures var (c, ok) := EnsureTables(frames, b, level, page);
            Nested(c) && (ok ==> HasOuter(c, 0, page))
    decreases level
  {
    if level > 0 {
      EnsureTablesStep(frames, b, level, page);
      EnsureTableNested(frames, b, level, page);
      var (c, ok) := EnsureTable(frames, b, level, page);
      if ok {
        EnsureTablesNested(frames, c, level - 1, page);
      }
    }
  }

  lemma MapFreshNested(frames: seq<Frame>, b: Books, page: Page)
    requires Nested(b)
    ensures Nested(MapFresh(frames, b, page).0)
  {
    match LowestFree(frames, b.taken)
    case None =>
    case Some(f) =>
      EnsureTablesNested(frames, b.(taken := b.taken + {f}), 3, page);
  }

  lemma {:induction false} MapRangeNested(frames: seq<Frame>, b: Books, first: Page, last: int)
    requires Nested(b)
    ensures Nested(MapRange(frames, b, first, last).0)
    decreases last - first
  {
    if first <= last {
      MapFreshNested(frames, b, first);
      MapRangeNested(frames, MapFresh(frames, b, first).0, first + 1, last);
    }
  }

  /** Mapping keeps the hierarchy, whether it succeeds or fails part of the way. */
  lemma {:induction false} MapRangesNested(frames: seq<Frame>, b: Books, ranges: seq<Range>)
    requires Nested(b)
    ensures Nested(MapRanges(frames, b, ranges).0)
    decreases |ranges|
  {
    if ranges != [] {
      MapRangeNested(frames, b, ranges[0].first, ranges[0].last);
      MapRangesNested(frames, MapRange(frames, b, ranges[0].first, ranges[0].last).0, ranges[1..]);
    }
  }
}
