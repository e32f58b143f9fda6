/** In which order pages are mapped, and in which order they are given frames. */
module FrameOrder {
  import opened Wrappers
  import opened Frames
  import opened PagingModel
  import opened FrameBudget

  /** Frame f stands in the enumeration before any occurrence of g. */
  ghost predicate Earlier(frames: seq<Frame>, f: Frame, g: Frame) {
    exists i :: 0 <= i < |frames| && frames[i] == f && g !in frames[..i + 1]
  }

  /** The frame drawn stands before every other free frame. */
  lemma {:induction false} LowestIsEarlier(frames: seq<Frame>, taken: set<Frame>, g: Frame)
    requires g in frames && g !in taken && LowestFree(frames, taken).Some? && g != LowestFree(frames, taken).value
    ensures Earlier(frames, LowestFree(frames, taken).value, g)
    decreases |frames|
  {
    var f, rest := LowestFree(frames, taken).value, frames[1..];
    if frames[0] !in taken {
      assert frames[0] == f && g !in frames[..1];
    } else {
      LowestIsEarlier(rest, taken, g);
      var i :| 0 <= i < |rest| && rest[i] == f && g !in rest[..i + 1];
      assert frames[..i + 1 + 1] == [frames[0]] + rest[..i + 1];
      assert frames[i + 1] == f;
    }
  }

  /**
   * Of the pages, exactly the first k have been added to those mapped before, each to a frame that
   * was free; a page has a frame earlier in the enumeration than every page after it.
   */
  ghost predicate DoneInOrder(frames: seq<Frame>, b: Books, c: Books, pages: seq<Page>, k: nat) {
    && k <= |pages|
    && (forall p :: p in c.pages <==> p in b.pages || p in pages[..k])
    && (forall i :: 0 <= i < k ==> pages[i] !in b.pages && pages[i] in c.pages && GivenFree(frames, b, c, pages[i]))
    && (forall i, j :: 0 <= i < j < k ==> Earlier(frames, c.pages[pages[i]], c.pages[pages[j]]))
  }

  ghost predicate GivenFree(frames: seq<Frame>, b: Books, c: Books, p: Page)
    requires p in c.pages
  {
    c.pages[p] in frames && c.pages[p] !in b.taken
  }

  /** Why the loop ended after k pages. */
  ghost predicate EndedAt(b: Books, pages: seq<Page>, r: MapResult, k: nat)
    requires k <= |pages|
  {
    && (r == Mapped <==> k == |pages|)
    && (r == Failed(PageAlreadyMapped) ==> pages[k] in b.pages || pages[k] in pages[..k])
  }

  /** The pages are handled in order, up to the first that fails. */
  ghost predicate InOrder(frames: seq<Frame>, b: Books, c: Books, pages: seq<Page>, r: MapResult) {
    exists k :: DoneInOrder(frames, b, c, pages, k) && EndedAt(b, pages, r, k)
  }

  /** The frame of a page is drawn before the frames of its tables. */
  lemma PageDrawnFirst(frames: seq<Frame>, b: Books, page: Page)
    requires Owned(frames, b) && MapFresh(frames, b, page).1 == Mapped
    ensures var c := MapFresh(frames, b, page).0;
            page in c.pages && Some(c.pages[page]) == LowestFree(frames, b.taken)
            && c.pages[page] in c.taken && c.pages == b.pages[page := c.pages[page]]
  {
    var f := LowestFree(frames, b.taken).value;
    MapFreshKeeps(frames, b, page);
    DrawnIsIdle(frames, b, f);
    MapToKeeps(frames, b.(taken := b.taken + {f}), page, f);
  }

  /** A page mapped later is among those still free now, and not the one drawn now. */
  lemma LaterPage(frames: seq<Frame>, b: Books, c: Books, d: Books, first: Page, p: Page)
    requires Owned(frames, b) && MapFresh(frames, b, first) == (c, Mapped) && Extends(c, d)
    requires p in d.pages && p !in c.pages && GivenFree(frames, c, d, p)
    ensures p !in b.pages && GivenFree(frames, b, d, p)
    ensures first in d.pages && Earlier(frames, d.pages[first], d.pages[p])
  {
    PageDrawnFirst(frames, b, first);
    MapFreshKeeps(frames, b, first);
    LowestIsEarlier(frames, b.taken, d.pages[p]);
  }

  lemma ThisPage(frames: seq<Frame>, b: Books, c: Books, d: Books, first: Page)
    requires Owned(frames, b) && MapFresh(frames, b, first) == (c, Mapped) && Extends(c, d)
    ensures first !in b.pages && first in d.pages && GivenFree(frames, b, d, first)
    ensures forall p :: p in c.pages <==> p in b.pages || p == first
  {
    PageDrawnFirst(frames, b, first);
    MapFreshKeeps(frames, b, first);
  }

  /** One page, then the others. */
  lemma OneThenOthers(frames: seq<Frame>, b: Books, c: Books, d: Books, pages: seq<Page>, k: nat)
    requires pages != [] && Owned(frames, b) && MapFresh(frames, b, pages[0]) == (c, Mapped) && Extends(c, d)
    requires DoneInOrder(frames, c, d, pages[1..], k)
    ensures DoneInOrder(frames, b, d, pages, k + 1)
  {
    var p, rest := pages[0], pages[1..];
    ThisPage(frames, b, c, d, p);
    assert pages[..k + 1] == [p] + rest[..k];
    forall j | 0 <= j < k
      ensures rest[j] !in b.pages && rest[j] in d.pages && GivenFree(frames, b, d, rest[j])
      ensures Earlier(frames, d.pages[p], d.pages[rest[j]])
    {
      LaterPage(frames, b, c, d, p, rest[j]);
    }
    assert forall i :: 0 < i < k + 1 ==> pages[i] == rest[i - 1];
  }

  lemma NotMapped(frames: seq<Frame>, b: Books, c: Books, pages: seq<Page>, r: MapResult)
    requires pages != [] && Owned(frames, b) && MapFresh(frames, b, pages[0]) == (c, r) && r != Mapped
    ensures DoneInOrder(frames, b, c, pages, 0) && EndedAt(b, pages, r, 0)
  {
    MapFreshKeeps(frames, b, pages[0]);
  }

  lemma EndedLater(b: Books, c: Books, pages: seq<Page>, r: MapResult, k: nat)
    requires pages != [] && c.pages.Keys == b.pages.Keys + {pages[0]} && k <= |pages| - 1 && EndedAt(c, pages[1..], r, k)
    ensures EndedAt(b, pages, r, k + 1)
  {
    assert pages[..k + 1] == [pages[0]] + pages[1..][..k];
  }

  lemma InOrderStep(frames: seq<Frame>, b: Books, c: Books, d: Books, pages: seq<Page>, r: MapResult)
    requires pages != [] && Owned(frames, b) && MapFresh(frames, b, pages[0]) == (c, Mapped) && Extends(c, d)
    requires InOrder(frames, c, d, pages[1..], r)
    ensures InOrder(frames, b, d, pages, r)
  {
    var k :| DoneInOrder(frames, c, d, pages[1..], k) && EndedAt(c, pages[1..], r, k);
    PageDrawnFirst(frames, b, pages[0]);
    OneThenOthers(frames, b, c, d, pages, k);
    EndedLater(b, c, pages, r, k);
  }

  /**
   * The mapping loop handles its pages in order and stops at the first that fails. The pages before
   * it stay mapped, with frames in the order of the enumeration.
   */
  lemma {:induction false} PagesInOrder(frames: seq<Frame>, b: Books, pages: seq<Page>)
    requires Owned(frames, b)
    ensures var (c, r) := MapPages(frames, b, pages);
            InOrder(frames, b, c, pages, r)
    decreases |pages|
  {
    var (d, r) := MapPages(frames, b, pages);
    if pages == [] {
      assert DoneInOrder(frames, b, d, pages, 0) && EndedAt(b, pages, r, 0);
    } else {
      var (c, first) := MapFresh(frames, b, pages[0]);
      if first == Mapped {
        MapFreshKeeps(frames, b, pages[0]);
        MapPagesOwned(frames, c, pages[1..]);
        PagesInOrder(frames, c, pages[1..]);
        InOrderStep(frames, b, c, d, pages, r);
      } else {
        NotMapped(frames, b, c, pages, r);
      }
    }
  }

  /** The same for several ranges in turn. */
  lemma RangesInOrder(frames: seq<Frame>, b: Books, ranges: seq<Range>)
    requires Owned(frames, b)
    ensures var (c, r) := MapRanges(frames, b, ranges);
            InOrder(frames, b, c, PagesOf(ranges), r)
  {
    RangesArePages(frames, b, ranges);
    PagesInOrder(frames, b, PagesOf(ranges));
  }

  lemma {:induction false} PageSeqAt(first: Page, last: int, k: nat)
    requires first + k <= last
    ensures k < |PageSeq(first, last)| && PageSeq(first, last)[k] == first + k
    decreases k
  {
    if k > 0 {
      PageSeqAt(first + 1, last, k - 1);
    }
  }

  /** Page k of range i comes after the pages of the ranges before it, and is number first + k. */
  lemma {:induction false} PageAt(ranges: seq<Range>, i: nat, k: nat)
    requires i < |ranges| && ranges[i].first + k <= ranges[i].last
    ensures var at := |PagesOf(ranges[..i])| + k;
            at < |PagesOf(ranges)| && PagesOf(ranges)[at] == ranges[i].first + k
    decreases i
  {
    if i == 0 {
      assert ranges[..0] == [];
      PageSeqAt(ranges[0].first, ranges[0].last, k);
    } else {
      assert ranges[..i][0] == ranges[0] && ranges[..i][1..] == ranges[1..][..i - 1];
      PageAt(ranges[1..], i - 1, k);
    }
  }
}
