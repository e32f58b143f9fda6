/**
 * What mapping costs: for every sequence of pages, exactly when mapping succeeds, how it fails
 * otherwise, and how many frames a failure leaks.
 */
module FrameBudget {
  import opened Wrappers
  import opened Frames
  import opened PagingModel

  /** The usable frames not handed out. */
  function FreeFrames(frames: seq<Frame>, b: Books): set<Frame> {
    set f | f in frames && f !in b.taken
  }

  /** How many there are. */
  function Free(frames: seq<Frame>, b: Books): nat {
    |FreeFrames(frames, b)|
  }

  /** The tables that serve a page, from the given level inwards. */
  function WayFrom(level: nat, page: Page): set<TableId>
    decreases level, {page}
  {
    if level == 0 then {} else {TableId(level, page / Span(level))} + WayFrom(level - 1, page)
  }

  /** The tables of levels 3 to 1 that serve the page. */
  function Way(page: Page): set<TableId> {
    WayFrom(3, page)
  }

  /** The tables that serve any of the pages. */
  function Ways(pages: seq<Page>): set<TableId> {
    if pages == [] then {} else Way(pages[0]) + Ways(pages[1..])
  }

  /** The frames needed to map one page: one for itself, and one for each table that is lacking. */
  function PageCost(tables: set<TableId>, page: Page): nat {
    1 + |Way(page) - tables|
  }

  /** The frames needed to map all pages. */
  function Cost(tables: set<TableId>, pages: seq<Page>): nat {
    |pages| + |Ways(pages) - tables|
  }

  /** What is new in a union is new in one part, or in the other without being in the first. */
  lemma NewInUnion<T>(x: set<T>, y: set<T>, known: set<T>)
    ensures |(x + y) - known| == |x - known| + |y - (known + x)|
  {
    assert (x + y) - known == (x - known) + (y - (known + x));
  }

  lemma OneDrawn(frames: seq<Frame>, b: Books, c: Books, f: Frame)
    requires f in frames && f !in b.taken && c.taken == b.taken + {f}
    ensures Free(frames, c) == Free(frames, b) - 1
  {
    assert FreeFrames(frames, b) == FreeFrames(frames, c) + {f};
  }

  lemma DrawCost(frames: seq<Frame>, b: Books)
    ensures match LowestFree(frames, b.taken)
            case None => Free(frames, b) == 0
            case Some(f) => Free(frames, b) > 0 && Free(frames, b.(taken := b.taken + {f})) == Free(frames, b) - 1
  {
    match LowestFree(frames, b.taken)
    case None =>
      assert FreeFrames(frames, b) == {};
    case Some(f) =>
      OneDrawn(frames, b, b.(taken := b.taken + {f}), f);
  }

  lemma SameFree(frames: seq<Frame>, b: Books, c: Books)
    requires c.taken == b.taken
    ensures Free(frames, c) == Free(frames, b)
  {
  }

  /** From b to c the tables named are had, at one frame for each that was lacking, if that many were free. */
  ghost predicate Had(frames: seq<Frame>, b: Books, c: Books, ok: bool, tables: set<TableId>) {
    && c.pages == b.pages
    && (ok <==> |tables - b.tables.Keys| <= Free(frames, b))
    && (ok ==> c.tables.Keys == b.tables.Keys + tables)
    && (ok ==> Free(frames, c) == Free(frames, b) - |tables - b.tables.Keys|)
  }

  lemma HadThen(frames: seq<Frame>, b: Books, c: Books, d: Books, ok: bool, x: set<TableId>, y: set<TableId>)
    requires Had(frames, b, c, true, x) && Had(frames, c, d, ok, y)
    ensures Had(frames, b, d, ok, x + y)
  {
    NewInUnion(x, y, b.tables.Keys);
  }

  lemma HadNot(frames: seq<Frame>, b: Books, c: Books, x: set<TableId>, y: set<TableId>)
    requires Had(frames, b, c, false, x)
    ensures Had(frames, b, c, false, x + y)
  {
    NewInUnion(x, y, b.tables.Keys);
  }

  /** A table costs one frame if it is lacking and nothing otherwise. */
  lemma TableCost(frames: seq<Frame>, b: Books, level: nat, page: Page)
    ensures var (c, ok) := EnsureTable(frames, b, level, page);
            Had(frames, b, c, ok, {TableId(level, page / Span(level))})
  {
    var id := TableId(level, page / Span(level));
    var (c, ok) := EnsureTable(frames, b, level, page);
    if id in b.tables {
      assert {id} - b.tables.Keys == {};
    } else {
      assert {id} - b.tables.Keys == {id};
      DrawCost(frames, b);
      if ok {
        SameFree(frames, b.(taken := c.taken), c);
      }
    }
  }

  lemma WayStep(level: nat, page: Page)
    requires level > 0
    ensures WayFrom(level, page) == {TableId(level, page / Span(level))} + WayFrom(level - 1, page)
  {
  }

  /** The tables on the way to a page can be had exactly when the frames suffice for those lacking. */
  lemma {:induction false} TablesCost(frames: seq<Frame>, b: Books, level: nat, page: Page, d: Books, all: bool)
    requires (d, all) == EnsureTables(frames, b, level, page)
    ensures Had(frames, b, d, all, WayFrom(level, page))
    decreases level
  {
    if level == 0 {
      assert {} - b.tables.Keys == {};
    } else {
      var id, rest := TableId(level, page / Span(level)), WayFrom(level - 1, page);
      var (c, ok) := EnsureTable(frames, b, level, page);
      TableCost(frames, b, level, page);
      EnsureTablesStep(frames, b, level, page);
      WayStep(level, page);
      if ok {
        TablesCost(frames, c, level - 1, page, d, all);
        HadThen(frames, b, c, d, all, {id}, rest);
      } else {
        HadNot(frames, b, c, {id}, rest);
      }
    }
  }

  /** `map_to`: it fails for want of frames exactly when they do not pay for the tables lacking. */
  lemma MapToCost(frames: seq<Frame>, b: Books, page: Page, frame: Frame)
    ensures var (c, r) := MapTo(frames, b, page, frame);
            var need, free := |Way(page) - b.tables.Keys|, Free(frames, b);
            && r == (if need > free then Failed(FrameAllocationFailed)
                     else if page in b.pages then Failed(PageAlreadyMapped) else Mapped)
            && (r == Mapped ==> Free(frames, c) == free - need && c.tables.Keys == b.tables.Keys + Way(page))
  {
    var (c, ok) := EnsureTables(frames, b, 3, page);
    TablesCost(frames, b, 3, page, c, ok);
    SameFree(frames, c, MapTo(frames, b, page, frame).0);
  }

  lemma MapToPages(frames: seq<Frame>, b: Books, page: Page, frame: Frame)
    requires MapTo(frames, b, page, frame).1 == Mapped
    ensures MapTo(frames, b, page, frame).0.pages.Keys == b.pages.Keys + {page}
  {
    var (c, ok) := EnsureTables(frames, b, 3, page);
    TablesCost(frames, b, 3, page, c, ok);
  }

  /** One page: exactly which outcome, and what is left. */
  lemma FreshCost(frames: seq<Frame>, b: Books, page: Page)
    ensures var (c, r) := MapFresh(frames, b, page);
            var need, free := PageCost(b.tables.Keys, page), Free(frames, b);
            && r == (if need > free then Failed(FrameAllocationFailed)
                     else if page in b.pages then Failed(PageAlreadyMapped) else Mapped)
            && (r == Mapped ==> Free(frames, c) == free - need && c.tables.Keys == b.tables.Keys + Way(page))
            && (r == Mapped ==> c.pages.Keys == b.pages.Keys + {page})
  {
    DrawCost(frames, b);
    match LowestFree(frames, b.taken)
    case None =>
    case Some(f) =>
      var b' := b.(taken := b.taken + {f});
      MapToCost(frames, b', page, f);
      if MapTo(frames, b', page, f).1 == Mapped {
        MapToPages(frames, b', page, f);
      }
  }

  /* ---- a sequence of pages ---- */

  function MapPages(frames: seq<Frame>, b: Books, pages: seq<Page>): (Books, MapResult)
    decreases |pages|
  {
    if pages == [] then (b, Mapped)
    else
      var (c, r) := MapFresh(frames, b, pages[0]);
      if r == Mapped then MapPages(frames, c, pages[1..]) else (c, r)
  }

  /** No page is mapped yet, and none occurs twice. */
  ghost predicate Fresh(mapped: set<Page>, pages: seq<Page>) {
    Distinct(pages) && forall p :: p in pages ==> p !in mapped
  }

  /** The pages up to the first that is mapped already when its turn comes. */
  function Tried(mapped: set<Page>, pages: seq<Page>): seq<Page>
    decreases |pages|
  {
    if pages == [] then []
    else if pages[0] in mapped then [pages[0]]
    else [pages[0]] + Tried(mapped + {pages[0]}, pages[1..])
  }

  lemma FreshStep(mapped: set<Page>, pages: seq<Page>)
    requires pages != []
    ensures Fresh(mapped, pages) <==> pages[0] !in mapped && Fresh(mapped + {pages[0]}, pages[1..])
  {
    var first, rest := [pages[0]], pages[1..];
    assert pages == first + rest;
    DistinctConcat(first, rest);
  }

  lemma {:induction false} TriedAll(mapped: set<Page>, pages: seq<Page>)
    requires Fresh(mapped, pages)
    ensures Tried(mapped, pages) == pages
    decreases |pages|
  {
    if pages != [] {
      FreshStep(mapped, pages);
      TriedAll(mapped + {pages[0]}, pages[1..]);
    }
  }

  lemma CostNone(tables: set<TableId>)
    ensures Cost(tables, []) == 0
  {
    assert Ways([]) - tables == {};
  }

  /** The cost of a sequence is that of its first page, and that of the rest once the first is mapped. */
  lemma CostStep(tables: set<TableId>, page: Page, rest: seq<Page>)
    ensures Cost(tables, [page] + rest) == PageCost(tables, page) + Cost(tables + Way(page), rest)
  {
    assert ([page] + rest)[1..] == rest;
    NewInUnion(Way(page), Ways(rest), tables);
  }

  lemma TriedCost(tables: set<TableId>, mapped: set<Page>, page: Page, rest: seq<Page>)
    ensures Cost(tables, Tried(mapped, [page] + rest)) ==
            PageCost(tables, page) + if page in mapped then 0 else Cost(tables + Way(page), Tried(mapped + {page}, rest))
  {
    assert ([page] + rest)[1..] == rest;
    if page in mapped {
      assert [page] == [page] + [];
      CostStep(tables, page, []);
      CostNone(tables + Way(page));
    } else {
      CostStep(tables, page, Tried(mapped + {page}, rest));
    }
  }

  /**
   * What becomes of mapping a sequence of pages: the frames run out if they do not pay for the
   * pages tried and the tables lacking for them; if they do, the sequence is mapped if it is
   * fresh, else its first page mapped already is reported.
   */
  ghost function Verdict(tables: set<TableId>, mapped: set<Page>, pages: seq<Page>, free: nat): MapResult {
    if Cost(tables, Tried(mapped, pages)) > free then Failed(FrameAllocationFailed)
    else if Fresh(mapped, pages) then Mapped
    else Failed(PageAlreadyMapped)
  }

  lemma VerdictStep(tables: set<TableId>, mapped: set<Page>, page: Page, rest: seq<Page>, free: nat)
    ensures Verdict(tables, mapped, [page] + rest, free) ==
            var need := PageCost(tables, page);
            if need > free then Failed(FrameAllocationFailed)
            else if page in mapped then Failed(PageAlreadyMapped)
            else Verdict(tables + Way(page), mapped + {page}, rest, free - need)
  {
    TriedCost(tables, mapped, page, rest);
    FreshStep(mapped, [page] + rest);
    assert ([page] + rest)[1..] == rest;
  }

  /** The loop over the pages comes to this verdict. */
  lemma {:induction false} MapPagesExact(frames: seq<Frame>, b: Books, pages: seq<Page>)
    ensures MapPages(frames, b, pages).1 == Verdict(b.tables.Keys, b.pages.Keys, pages, Free(frames, b))
    decreases |pages|
  {
    if pages == [] {
      CostNone(b.tables.Keys);
    } else {
      var p, rest := pages[0], pages[1..];
      assert pages == [p] + rest;
      FreshCost(frames, b, p);
      VerdictStep(b.tables.Keys, b.pages.Keys, p, rest, Free(frames, b));
      var (c, r) := MapFresh(frames, b, p);
      if r == Mapped {
        MapPagesExact(frames, c, rest);
      }
    }
  }

  /* ---- leaks ---- */

  /** The frames drawn in between that back neither a page nor a table. */
  ghost function Leaked(b: Books, c: Books): set<Frame> {
    set f | f in c.taken && f !in b.taken && !InUse(f, c)
  }

  /** Mapping some first pages takes exactly the n free frames: the next draw is for a page. */
  ghost predicate RunsDry(tables: set<TableId>, pages: seq<Page>, n: nat) {
    exists j :: 0 <= j <= |pages| && CostOfFirst(tables, pages, j) == n
  }

  function CostOfFirst(tables: set<TableId>, pages: seq<Page>, j: nat): nat
    requires j <= |pages|
  {
    Cost(tables, pages[..j])
  }

  lemma CostOfFirstStep(tables: set<TableId>, page: Page, rest: seq<Page>, j: nat)
    requires j <= |rest| + 1
    ensures CostOfFirst(tables, [page] + rest, j) ==
            if j == 0 then 0 else PageCost(tables, page) + CostOfFirst(tables + Way(page), rest, j - 1)
  {
    var pages := [page] + rest;
    if j == 0 {
      assert pages[..0] == [];
      CostNone(tables);
    } else {
      assert pages[..j] == [page] + rest[..j - 1];
      CostStep(tables, page, rest[..j - 1]);
    }
  }

  /** When the frames do not suffice for the first page, they run dry before it only if there are none. */
  lemma DryAtFirst(tables: set<TableId>, page: Page, rest: seq<Page>, n: nat)
    requires n < PageCost(tables, page)
    ensures RunsDry(tables, [page] + rest, n) <==> n == 0
  {
    CostOfFirstStep(tables, page, rest, 0);
    if j :| 0 <= j <= |[page] + rest| && CostOfFirst(tables, [page] + rest, j) == n {
      CostOfFirstStep(tables, page, rest, j);
    }
  }

  lemma DryStep(tables: set<TableId>, page: Page, rest: seq<Page>, n: nat)
    requires n >= PageCost(tables, page)
    ensures RunsDry(tables, [page] + rest, n) <==> RunsDry(tables + Way(page), rest, n - PageCost(tables, page))
  {
    var need := PageCost(tables, page);
    if j :| 0 <= j <= |rest| && CostOfFirst(tables + Way(page), rest, j) == n - need {
      CostOfFirstStep(tables, page, rest, j + 1);
    }
    if j :| 0 <= j <= |rest| + 1 && CostOfFirst(tables, [page] + rest, j) == n {
      CostOfFirstStep(tables, page, rest, j);
      assert CostOfFirst(tables + Way(page), rest, j - 1) == n - need;
    }
  }

  lemma OneLeaked(b: Books, b': Books, c: Books, f: Frame)
    requires f !in b.taken && b'.taken == b.taken + {f} && b'.taken <= c.taken
    requires NoLeak(b', c) && Idle(f, c)
    ensures Leaked(b, c) == {f}
  {
  }

  /** A failure of `map_to` leaks the frame that was to be mapped, and no other. */
  lemma MapToLeak(frames: seq<Frame>, b: Books, page: Page, f: Frame)
    requires Owned(frames, b) && f in frames && f !in b.taken
    requires MapTo(frames, b.(taken := b.taken + {f}), page, f).1 != Mapped
    ensures Leaked(b, MapTo(frames, b.(taken := b.taken + {f}), page, f).0) == {f}
  {
    var b' := b.(taken := b.taken + {f});
    DrawnIsIdle(frames, b, f);
    EnsureTablesKeeps(frames, b', 3, page, f);
    EnsureTablesGrow(frames, b', 3, page);
    OneLeaked(b, b', EnsureTables(frames, b', 3, page).0, f);
  }

  /** One page: nothing leaks on success; a failure leaks the frame drawn for the page, if one was. */
  lemma FreshLeak(frames: seq<Frame>, b: Books, page: Page)
    requires Owned(frames, b)
    ensures var (c, r) := MapFresh(frames, b, page);
            |Leaked(b, c)| == if r == Mapped || Free(frames, b) == 0 then 0 else 1
  {
    var (c, r) := MapFresh(frames, b, page);
    DrawCost(frames, b);
    match LowestFree(frames, b.taken)
    case None =>
      assert Leaked(b, c) == {};
    case Some(f) =>
      if r == Mapped {
        MapFreshKeeps(frames, b, page);
        assert Leaked(b, c) == {};
      } else {
        MapToLeak(frames, b, page, f);
      }
  }

  /** What was drawn for pages that are mapped stays in use. */
  lemma LeakLater(a: Books, b: Books, c: Books)
    requires Extends(a, b) && Extends(b, c) && NoLeak(a, b)
    ensures Leaked(a, c) == Leaked(b, c)
  {
    forall f | f in Leaked(a, c)
      ensures f in Leaked(b, c)
    {
      if f in b.taken {
        InUseStays(f, b, c);
      }
    }
  }

  lemma {:induction false} MapPagesOwned(frames: seq<Frame>, b: Books, pages: seq<Page>)
    requires Owned(frames, b)
    ensures var c := MapPages(frames, b, pages).0;
            Owned(frames, c) && Extends(b, c)
    decreases |pages|
  {
    if pages != [] {
      MapFreshKeeps(frames, b, pages[0]);
      var (c, r) := MapFresh(frames, b, pages[0]);
      if r == Mapped {
        MapPagesOwned(frames, c, pages[1..]);
        ExtendsTransitive(b, c, MapPages(frames, c, pages[1..]).0);
      }
    }
  }

  /**
   * How many frames leak: none on success, one when a page was mapped already, and when the frames
   * run out none or one, according to whether the draw that fails is for a page or for a table.
   */
  ghost function LeakCount(tables: set<TableId>, mapped: set<Page>, pages: seq<Page>, free: nat): nat {
    match Verdict(tables, mapped, pages, free)
    case Mapped => 0
    case Failed(PageAlreadyMapped) => 1
    case Failed(FrameAllocationFailed) => if RunsDry(tables, Tried(mapped, pages), free) then 0 else 1
  }

  lemma LeakCountStep(tables: set<TableId>, mapped: set<Page>, page: Page, rest: seq<Page>, free: nat)
    ensures LeakCount(tables, mapped, [page] + rest, free) ==
            var need := PageCost(tables, page);
            if need > free then if free == 0 then 0 else 1
            else if page in mapped then 1
            else LeakCount(tables + Way(page), mapped + {page}, rest, free - need)
  {
    VerdictStep(tables, mapped, page, rest, free);
    assert ([page] + rest)[1..] == rest;
    var later := if page in mapped then [] else Tried(mapped + {page}, rest);
    assert Tried(mapped, [page] + rest) == [page] + later;
    if PageCost(tables, page) > free {
      DryAtFirst(tables, page, later, free);
    } else {
      DryStep(tables, page, later, free);
    }
  }

  lemma FirstPageLeaksNothing(frames: seq<Frame>, b: Books, page: Page, rest: seq<Page>)
    requires Owned(frames, b) && MapFresh(frames, b, page).1 == Mapped
    ensures var c := MapFresh(frames, b, page).0;
            Owned(frames, c) && Leaked(b, MapPages(frames, c, rest).0) == Leaked(c, MapPages(frames, c, rest).0)
  {
    MapFreshKeeps(frames, b, page);
    var c := MapFresh(frames, b, page).0;
    MapPagesOwned(frames, c, rest);
    LeakLater(b, c, MapPages(frames, c, rest).0);
  }

  lemma {:induction false} MapPagesLeak(frames: seq<Frame>, b: Books, pages: seq<Page>, d: Books)
    requires Owned(frames, b) && MapPages(frames, b, pages).0 == d
    ensures |Leaked(b, d)| == LeakCount(b.tables.Keys, b.pages.Keys, pages, Free(frames, b))
    decreases |pages|
  {
    if pages == [] {
      CostNone(b.tables.Keys);
      assert Leaked(b, b) == {};
    } else {
      var (c, r) := MapFresh(frames, b, pages[0]);
      assert pages == [pages[0]] + pages[1..];
      LeakStep(frames, b, pages[0], pages[1..]);
      if r == Mapped {
        FirstPageLeaksNothing(frames, b, pages[0], pages[1..]);
        MapPagesLeak(frames, c, pages[1..], d);
      }
    }
  }

  lemma LeakStep(frames: seq<Frame>, b: Books, page: Page, rest: seq<Page>)
    requires Owned(frames, b)
    ensures var (c, r) := MapFresh(frames, b, page);
            LeakCount(b.tables.Keys, b.pages.Keys, [page] + rest, Free(frames, b)) ==
            if r == Mapped then LeakCount(c.tables.Keys, c.pages.Keys, rest, Free(frames, c)) else |Leaked(b, c)|
  {
    FreshCost(frames, b, page);
    FreshLeak(frames, b, page);
    LeakCountStep(b.tables.Keys, b.pages.Keys, page, rest, Free(frames, b));
  }

  /* ---- ranges of pages ---- */

  function PageSeq(first: Page, last: int): seq<Page>
    decreases last - first
  {
    if first > last then [] else [first] + PageSeq(first + 1, last)
  }

  /** The pages of several ranges, one after the other. */
  function PagesOf(ranges: seq<Range>): seq<Page> {
    if ranges == [] then [] else PageSeq(ranges[0].first, ranges[0].last) + PagesOf(ranges[1..])
  }

  lemma {:induction false} PageSeqMembers(first: Page, last: int)
    ensures forall p :: p in PageSeq(first, last) <==> first <= p <= last
    ensures Distinct(PageSeq(first, last))
    ensures |PageSeq(first, last)| == if first <= last then last - first + 1 else 0
    decreases last - first
  {
    if first <= last {
      PageSeqMembers(first + 1, last);
      DistinctConcat([first], PageSeq(first + 1, last));
    }
  }

  lemma {:induction false} PagesOfMembers(ranges: seq<Range>, p: Page)
    ensures p in PagesOf(ranges) <==> exists i :: 0 <= i < |ranges| && ranges[i].first <= p <= ranges[i].last
  {
    if ranges != [] {
      var rest := ranges[1..];
      PageSeqMembers(ranges[0].first, ranges[0].last);
      PagesOfMembers(rest, p);
      if i :| 0 < i < |ranges| && ranges[i].first <= p <= ranges[i].last {
        assert rest[i - 1] == ranges[i];
      }
      if i :| 0 <= i < |rest| && rest[i].first <= p <= rest[i].last {
        assert ranges[i + 1] == rest[i];
      }
    }
  }

  lemma MeetsNone(r: Range, rest: seq<Range>)
    ensures (forall p :: p in PageSeq(r.first, r.last) ==> p !in PagesOf(rest)) <==> forall j :: 0 <= j < |rest| ==> Apart(r, rest[j])
  {
    PageSeqMembers(r.first, r.last);
    if j :| 0 <= j < |rest| && !Apart(r, rest[j]) {
      var p := if r.first < rest[j].first then rest[j].first else r.first;
      PagesOfMembers(rest, p);
    }
    if p :| p in PageSeq(r.first, r.last) && p in PagesOf(rest) {
      PagesOfMembers(rest, p);
      var j :| 0 <= j < |rest| && rest[j].first <= p <= rest[j].last;
      assert !Apart(r, rest[j]);
    }
  }

  ghost predicate AllApart(ranges: seq<Range>) {
    forall i, j :: 0 <= i < j < |ranges| ==> Apart(ranges[i], ranges[j])
  }

  lemma {:induction false} DistinctIsApart(ranges: seq<Range>)
    ensures Distinct(PagesOf(ranges)) <==> AllApart(ranges)
  {
    if ranges != [] {
      var r, rest := ranges[0], ranges[1..];
      DistinctIsApart(rest);
      PageSeqMembers(r.first, r.last);
      DistinctConcat(PageSeq(r.first, r.last), PagesOf(rest));
      MeetsNone(r, rest);
      assert AllApart(ranges) <==> AllApart(rest) && forall j :: 0 <= j < |rest| ==> Apart(r, rest[j]) by {
        assert forall j :: 0 <= j < |rest| ==> rest[j] == ranges[j + 1];
        assert forall j :: 1 <= j < |ranges| ==> ranges[j] == rest[j - 1];
      }
    }
  }

  /** The pages of the ranges are fresh exactly when the ranges are disjoint and unmapped. */
  lemma FreshIsClear(b: Books, ranges: seq<Range>)
    ensures Fresh(b.pages.Keys, PagesOf(ranges)) <==> Clear(b, ranges)
  {
    DistinctIsApart(ranges);
    if forall p :: p in PagesOf(ranges) ==> p !in b.pages {
      forall i | 0 <= i < |ranges|
        ensures NoneMapped(b, ranges[i].first, ranges[i].last)
      {
        forall p | ranges[i].first <= p <= ranges[i].last
          ensures p !in b.pages
        {
          PagesOfMembers(ranges, p);
        }
      }
    }
    if p :| p in PagesOf(ranges) && p in b.pages {
      PagesOfMembers(ranges, p);
      var i :| 0 <= i < |ranges| && ranges[i].first <= p <= ranges[i].last;
      assert !NoneMapped(b, ranges[i].first, ranges[i].last);
    }
  }

  lemma {:induction false} MapPagesConcat(frames: seq<Frame>, b: Books, p: seq<Page>, q: seq<Page>)
    ensures var (c, r) := MapPages(frames, b, p);
            MapPages(frames, b, p + q) == if r == Mapped then MapPages(frames, c, q) else (c, r)
    decreases |p|
  {
    if p == [] {
      assert p + q == q;
    } else {
      assert (p + q)[1..] == p[1..] + q;
      MapPagesConcat(frames, MapFresh(frames, b, p[0]).0, p[1..], q);
    }
  }

  lemma {:induction false} RangeIsPages(frames: seq<Frame>, b: Books, first: Page, last: int)
    ensures MapRange(frames, b, first, last) == MapPages(frames, b, PageSeq(first, last))
    decreases last - first
  {
    if first <= last {
      RangeIsPages(frames, MapFresh(frames, b, first).0, first + 1, last);
    }
  }

  lemma {:induction false} RangesArePages(frames: seq<Frame>, b: Books, ranges: seq<Range>)
    ensures MapRanges(frames, b, ranges) == MapPages(frames, b, PagesOf(ranges))
    decreases |ranges|
  {
    if ranges != [] {
      var r := ranges[0];
      RangeIsPages(frames, b, r.first, r.last);
      MapPagesConcat(frames, b, PageSeq(r.first, r.last), PagesOf(ranges[1..]));
      RangesArePages(frames, MapRange(frames, b, r.first, r.last).0, ranges[1..]);
    }
  }

  /** The ranges are disjoint and unmapped, and the free frames pay for their pages and lacking tables. */
  ghost predicate Affordable(frames: seq<Frame>, b: Books, ranges: seq<Range>) {
    Clear(b, ranges) && Cost(b.tables.Keys, PagesOf(ranges)) <= Free(frames, b)
  }

  /** The pages of the ranges up to the first one mapped already can be paid for. */
  ghost predicate Reached(frames: seq<Frame>, b: Books, ranges: seq<Range>) {
    Cost(b.tables.Keys, Tried(b.pages.Keys, PagesOf(ranges))) <= Free(frames, b)
  }

  lemma RangesVerdict(frames: seq<Frame>, b: Books, ranges: seq<Range>)
    ensures MapRanges(frames, b, ranges).1 == Verdict(b.tables.Keys, b.pages.Keys, PagesOf(ranges), Free(frames, b))
  {
    RangesArePages(frames, b, ranges);
    MapPagesExact(frames, b, PagesOf(ranges));
  }

  lemma VerdictFresh(tables: set<TableId>, mapped: set<Page>, pages: seq<Page>, free: nat)
    requires Fresh(mapped, pages)
    ensures Verdict(tables, mapped, pages, free) == if Cost(tables, pages) <= free then Mapped else Failed(FrameAllocationFailed)
  {
    TriedAll(mapped, pages);
  }

  /** Ranges that are clear are mapped exactly when they can be paid for. */
  lemma ClearExact(frames: seq<Frame>, b: Books, ranges: seq<Range>)
    requires Clear(b, ranges)
    ensures MapRanges(frames, b, ranges).1 ==
            if Cost(b.tables.Keys, PagesOf(ranges)) <= Free(frames, b) then Mapped else Failed(FrameAllocationFailed)
  {
    RangesVerdict(frames, b, ranges);
    FreshIsClear(b, ranges);
    VerdictFresh(b.tables.Keys, b.pages.Keys, PagesOf(ranges), Free(frames, b));
  }

  /** Ranges that are not clear are never mapped; it depends on the frames whether it comes to light. */
  lemma UnclearExact(frames: seq<Frame>, b: Books, ranges: seq<Range>)
    requires !Clear(b, ranges)
    ensures MapRanges(frames, b, ranges).1 == Failed(if Reached(frames, b, ranges) then PageAlreadyMapped else FrameAllocationFailed)
  {
    RangesVerdict(frames, b, ranges);
    FreshIsClear(b, ranges);
  }

  /** Exactly when mapping ranges succeeds, and exactly which failure there is otherwise. */
  lemma MapRangesExact(frames: seq<Frame>, b: Books, ranges: seq<Range>)
    ensures var r := MapRanges(frames, b, ranges).1;
            && (r == Mapped <==> Affordable(frames, b, ranges))
            && (r == Failed(PageAlreadyMapped) <==> !Clear(b, ranges) && Reached(frames, b, ranges))
            && (r == Failed(FrameAllocationFailed) <==> !Reached(frames, b, ranges))
  {
    if Clear(b, ranges) {
      ClearExact(frames, b, ranges);
      FreshIsClear(b, ranges);
      TriedAll(b.pages.Keys, PagesOf(ranges));
    } else {
      UnclearExact(frames, b, ranges);
    }
  }

  /** How many frames leak when ranges are mapped. */
  lemma MapRangesLeak(frames: seq<Frame>, b: Books, ranges: seq<Range>)
    requires Owned(frames, b)
    ensures |Leaked(b, MapRanges(frames, b, ranges).0)| == LeakCount(b.tables.Keys, b.pages.Keys, PagesOf(ranges), Free(frames, b))
  {
    RangesArePages(frames, b, ranges);
    MapPagesLeak(frames, b, PagesOf(ranges), MapRanges(frames, b, ranges).0);
  }

  lemma RangesFirst(frames: seq<Frame>, b: Books, r: Range, rest: seq<Range>)
    ensures var (c, res) := MapRange(frames, b, r.first, r.last);
            MapRanges(frames, b, [r] + rest) == if res == Mapped then MapRanges(frames, c, rest) else (c, res)
  {
    assert ([r] + rest)[1..] == rest;
  }

  lemma {:induction false} MapRangesConcat(frames: seq<Frame>, b: Books, p: seq<Range>, q: seq<Range>)
    ensures var (c, r) := MapRanges(frames, b, p);
            MapRanges(frames, b, p + q) == if r == Mapped then MapRanges(frames, c, q) else (c, r)
    decreases |p|
  {
    if p == [] {
      assert p + q == q;
    } else {
      assert (p + q)[1..] == p[1..] + q;
      MapRangesConcat(frames, MapRange(frames, b, p[0].first, p[0].last).0, p[1..], q);
    }
  }

  lemma ClearConcat(b: Books, p: seq<Range>, q: seq<Range>)
    requires Clear(b, q) && forall i, j :: 0 <= i < |p| && 0 <= j < |q| ==> Apart(p[i], q[j])
    ensures Clear(b, p + q) <==> Clear(b, p)
  {
    var all := p + q;
    assert forall i :: 0 <= i < |p| ==> all[i] == p[i];
    assert forall i :: |p| <= i < |all| ==> all[i] == q[i - |p|];
  }

  /* ---- bounds ---- */

  lemma WayIsThree(page: Page, tables: set<TableId>)
    ensures |Way(page) - tables| <= 3
  {
    var t3, t2, t1 := TableId(3, page / Span(3)), TableId(2, page / Span(2)), TableId(1, page / Span(1));
    WayStep(3, page);
    WayStep(2, page);
    WayStep(1, page);
    assert Way(page) == {t3, t2, t1};
    SubsetSize(Way(page) - tables, {t3, t2, t1});
    assert |{t3, t2, t1}| == 3;
  }

  lemma SubsetSize<T>(x: set<T>, y: set<T>)
    requires x <= y
    ensures |x| <= |y|
  {
    assert y == x + (y - x);
  }

  /** No page costs more than four frames. */
  lemma {:induction false} CostAtMost(tables: set<TableId>, pages: seq<Page>)
    ensures Cost(tables, pages) <= 4 * |pages|
    decreases |pages|
  {
    if pages == [] {
      CostNone(tables);
    } else {
      assert pages == [pages[0]] + pages[1..];
      CostStep(tables, pages[0], pages[1..]);
      WayIsThree(pages[0], tables);
      CostAtMost(tables + Way(pages[0]), pages[1..]);
    }
  }

  lemma {:induction false} DistinctSize(frames: seq<Frame>)
    requires Distinct(frames)
    ensures |ToSet(frames)| == |frames|
  {
    if frames != [] {
      var first, rest := frames[0], frames[1..];
      DistinctSize(rest);
      assert ToSet(frames) == {first} + ToSet(rest);
      assert first !in ToSet(rest);
    }
  }

  /** Before any draw every usable frame is free. */
  lemma AllFree(frames: seq<Frame>, b: Books)
    requires Distinct(frames) && b.taken == {}
    ensures Free(frames, b) == |frames|
  {
    assert FreeFrames(frames, b) == ToSet(frames);
    DistinctSize(frames);
  }

  /** Four frames for each page are always enough. */
  lemma PayForRange(frames: seq<Frame>, b: Books, r: Range)
    requires NoneMapped(b, r.first, r.last) && r.first <= r.last && 4 * (r.last - r.first + 1) <= Free(frames, b)
    ensures MapRanges(frames, b, [r]).1 == Mapped
  {
    MapRangesExact(frames, b, [r]);
    PageSeqMembers(r.first, r.last);
    assert [r][1..] == [];
    assert PagesOf([r]) == PageSeq(r.first, r.last) + PagesOf([]);
    CostAtMost(b.tables.Keys, PagesOf([r]));
  }
}
