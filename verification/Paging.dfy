/** The page mapper, the physical memory behind it, and the mapping loops of the kernel. */
module Paging {
  import opened Wrappers
  import opened Words
  import opened Frames
  import opened FrameAllocators
  import opened PagingModel

  /** The two memories differ at most inside the given frames. */
  ghost predicate SameOutside(a: seq<Byte>, b: seq<Byte>, frames: set<Frame>) {
    |a| == |b| && forall i :: 0 <= i < |a| && i / 4096 !in frames ==> b[i] == a[i]
  }

  lemma SameOutsideTransitive(a: seq<Byte>, b: seq<Byte>, c: seq<Byte>, f: set<Frame>, g: set<Frame>, h: set<Frame>)
    requires SameOutside(a, b, f) && SameOutside(b, c, g) && f <= h && g <= h
    ensures SameOutside(a, c, h)
  {
  }

  /** The frames of the tables added. */
  ghost function NewTables(b: Books, c: Books): set<Frame> {
    set t | t in c.tables && t !in b.tables :: c.tables[t]
  }

  /** Tables are only added, in frames newly drawn, and of all bytes only those of new tables change. */
  ghost predicate OnlyTables(b: Books, m: seq<Byte>, c: Books, m': seq<Byte>) {
    && b.taken <= c.taken
    && (forall t :: t in b.tables ==> t in c.tables && c.tables[t] == b.tables[t])
    && NewTables(b, c) <= c.taken - b.taken
    && SameOutside(m, m', NewTables(b, c))
  }

  lemma OnlyTablesTransitive(a: Books, m: seq<Byte>, b: Books, m': seq<Byte>, c: Books, m'': seq<Byte>)
    requires OnlyTables(a, m, b, m') && OnlyTables(b, m', c, m'')
    ensures OnlyTables(a, m, c, m'')
  {
    forall f | f in NewTables(a, c)
      ensures f in NewTables(a, b) || f in NewTables(b, c)
    {
      var t :| t in c.tables && t !in a.tables && c.tables[t] == f;
      if t in b.tables {
        assert b.tables[t] == f;
      }
    }
    forall f | f in NewTables(a, b)
      ensures f in NewTables(a, c)
    {
      var t :| t in b.tables && t !in a.tables && b.tables[t] == f;
      assert c.tables[t] == f;
    }
    SameOutsideTransitive(m, m', m'', NewTables(a, b), NewTables(b, c), NewTables(a, c));
  }

  lemma NoTableAdded(b: Books, c: Books, m: seq<Byte>)
    requires c.tables == b.tables && b.taken <= c.taken
    ensures OnlyTables(b, m, c, m)
  {
    assert NewTables(b, c) == {};
  }

  lemma OneTableAdded(b: Books, m: seq<Byte>, c: Books, m': seq<Byte>, id: TableId, f: Frame)
    requires id !in b.tables && c.tables == b.tables[id := f] && f !in b.taken && c.taken == b.taken + {f}
    requires SameOutside(m, m', {f})
    ensures OnlyTables(b, m, c, m')
  {
    assert c.tables[id] == f;
    assert NewTables(b, c) == {f};
  }

  class Mapper {
    /** The 4 KiB mappings and the page tables below the root. */
    var pages: map<Page, Frame>
    var tables: map<TableId, Frame>
    /** Physical memory. */
    const phys: array<Byte>

    constructor (pages: map<Page, Frame>, tables: map<TableId, Frame>, phys: array<Byte>)
      ensures this.pages == pages && this.tables == tables && this.phys == phys
    {
      this.pages := pages;
      this.tables := tables;
      this.phys := phys;
    }

    /** The allocator works and its frames lie in physical memory. */
    ghost predicate Ready(src: FrameSource) {
      && src.Valid()
      && phys as object !in src.Repr() && this as object !in src.Repr()
      && (forall f :: f in src.Frames() ==> (f + 1) * 4096 <= phys.Length)
    }

    ghost function Ledger(src: FrameSource): Books
      requires src.Valid()
      reads this, src.Repr()
    {
      Books(pages, tables, src.Taken())
    }

    /** A new page table starts out empty. */
    method ZeroFrame(f: Frame)
      requires (f + 1) * 4096 <= phys.Length
      modifies phys
      ensures SameOutside(old(phys[..]), phys[..], {f})
      ensures forall i :: 0 <= i < phys.Length && i / 4096 == f ==> phys[i] == 0
    {
      forall i | f * 4096 <= i < (f + 1) * 4096 {
        phys[i] := 0;
      }
    }

    /** Enter an empty table for which the frame has been drawn. */
    method InstallTable(id: TableId, f: Frame, ghost src: FrameSource)
      requires Ready(src) && (f + 1) * 4096 <= phys.Length
      modifies this`tables, phys
      ensures src.Valid() && src.Taken() == old(src.Taken()) && src.Intact() == old(src.Intact())
      ensures tables == old(tables)[id := f]
      ensures SameOutside(old(phys[..]), phys[..], {f})
      ensures forall i :: 0 <= i < phys.Length && i / 4096 == f ==> phys[i] == 0
    {
      tables := tables[id := f];
      ZeroFrame(f);
    }

    method EnsureTable(level: nat, page: Page, src: FrameSource) returns (ok: bool)
      requires Ready(src)
      modifies this`tables, phys, src.Repr()
      ensures (Ledger(src), ok) == PagingModel.EnsureTable(src.Frames(), old(Ledger(src)), level, page)
      ensures ok && old(src.Intact()) ==> src.Intact()
      ensures forall i :: 0 <= i < phys.Length && i / 4096 in src.Taken() && i / 4096 !in old(src.Taken()) ==> phys[i] == 0
      ensures OnlyTables(old(Ledger(src)), old(phys[..]), Ledger(src), phys[..])
    {
      var id := TableId(level, page / Span(level));
      ghost var b, m := Ledger(src), phys[..];
      if id in tables {
        NoTableAdded(b, b, m);
        return true;
      }
      var f := src.AllocateFrame();
      if f.None? {
        NoTableAdded(b, b, m);
        return false;
      }
      assert src.Taken() == b.taken + {f.value};
      InstallTable(id, f.value, src);
      OneTableAdded(b, m, Ledger(src), phys[..], id, f.value);
      return true;
    }

    /** The walk to the innermost table, creating those that are lacking. */
    method EnsureTables(page: Page, src: FrameSource) returns (ok: bool)
      requires Ready(src)
      modifies this`tables, phys, src.Repr()
      ensures (Ledger(src), ok) == PagingModel.EnsureTables(src.Frames(), old(Ledger(src)), 3, page)
      ensures ok && old(src.Intact()) ==> src.Intact()
      ensures OnlyTables(old(Ledger(src)), old(phys[..]), Ledger(src), phys[..])
    {
      var level := 3;
      ghost var start, bytes := Ledger(src), phys[..];
      NoTableAdded(start, start, bytes);
      while level > 0
        invariant 0 <= level <= 3 && pages == start.pages
        invariant PagingModel.EnsureTables(src.Frames(), Ledger(src), level, page)
                  == PagingModel.EnsureTables(src.Frames(), start, 3, page)
        invariant old(src.Intact()) ==> src.Intact()
        invariant OnlyTables(start, bytes, Ledger(src), phys[..])
      {
        ghost var b, m := Ledger(src), phys[..];
        EnsureTablesStep(src.Frames(), b, level, page);
        ok := EnsureTable(level, page, src);
        OnlyTablesTransitive(start, bytes, b, m, Ledger(src), phys[..]);
        if !ok {
          return;
        }
        level := level - 1;
      }
      return true;
    }

    method MapTo(page: Page, frame: Frame, src: FrameSource) returns (r: MapResult)
      requires Ready(src)
      modifies this, phys, src.Repr()
      ensures (Ledger(src), r) == PagingModel.MapTo(src.Frames(), old(Ledger(src)), page, frame)
      ensures r == Mapped && old(src.Intact()) ==> src.Intact()
      ensures OnlyTables(old(Ledger(src)), old(phys[..]), Ledger(src), phys[..])
    {
      var ok := EnsureTables(page, src);
      if !ok {
        r := Failed(FrameAllocationFailed);
      } else if page in pages {
        r := Failed(PageAlreadyMapped);
      } else {
        EnterPage(page, frame, src);
        r := Mapped;
      }
    }

    method EnterPage(page: Page, frame: Frame, ghost src: FrameSource)
      requires Ready(src)
      modifies this`pages
      ensures src.Valid() && Ledger(src) == old(Ledger(src)).(pages := old(pages)[page := frame])
      ensures src.Intact() == old(src.Intact())
    {
      pages := pages[page := frame];
    }

    /** Draw a frame and map the page to it. */
    method MapFresh(page: Page, src: FrameSource) returns (r: MapResult)
      requires Ready(src)
      modifies this, phys, src.Repr()
      ensures (Ledger(src), r) == PagingModel.MapFresh(src.Frames(), old(Ledger(src)), page)
      ensures r == Mapped && old(src.Intact()) ==> src.Intact()
      ensures OnlyTables(old(Ledger(src)), old(phys[..]), Ledger(src), phys[..])
    {
      ghost var b, m := Ledger(src), phys[..];
      var frame := src.AllocateFrame();
      NoTableAdded(b, Ledger(src), m);
      if frame.None? {
        return Failed(FrameAllocationFailed);
      }
      ghost var b' := Ledger(src);
      r := MapTo(page, frame.value, src);
      OnlyTablesTransitive(b, m, b', m, Ledger(src), phys[..]);
    }

    /**
     * The loop that heap initialization, the program loader and the allocation system call share:
     * for every page of an inclusive range, draw a frame and map the page to it.
     */
    method MapRange(first: Page, last: int, src: FrameSource) returns (r: MapResult)
      requires Ready(src)
      modifies this, phys, src.Repr()
      ensures (Ledger(src), r) == PagingModel.MapRange(src.Frames(), old(Ledger(src)), first, last)
      ensures r == Mapped && old(src.Intact()) ==> src.Intact()
      ensures OnlyTables(old(Ledger(src)), old(phys[..]), Ledger(src), phys[..])
    {
      var page := first;
      ghost var start, bytes := Ledger(src), phys[..];
      NoTableAdded(start, start, bytes);
      while page <= last
        invariant PagingModel.MapRange(src.Frames(), Ledger(src), page, last)
                  == PagingModel.MapRange(src.Frames(), start, first, last)
        invariant old(src.Intact()) ==> src.Intact()
        invariant OnlyTables(start, bytes, Ledger(src), phys[..])
      {
        ghost var b, m := Ledger(src), phys[..];
        r := MapFresh(page, src);
        OnlyTablesTransitive(start, bytes, b, m, Ledger(src), phys[..]);
        if r != Mapped {
          return;
        }
        page := page + 1;
      }
      return Mapped;
    }
  }
}
