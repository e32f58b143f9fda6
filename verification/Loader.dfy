/** `add_user_process`: load an ELF image into the address space and prepare its first context. */
module Loader {
  import opened Wrappers
  import opened Words
  import opened Frames
  import opened FrameAllocators
  import opened PagingModel
  import opened FrameBudget
  import opened Paging
  import opened VirtualMemory
  import Scheduler

  const PT_LOAD: nat := 1
  const HEADER_SIZE: nat := 64
  const PROGRAM_SIZE: nat := 56

  /** Address of the i-th program header. */
  function HeaderAddr(table: nat, i: nat): nat {
    table + 56 * i
  }

  /** End of the lower half of the canonical addresses. */
  const CANONICAL_LIMIT: nat := 0x8000_0000_0000

  /** The last page of the lower half: a page range cannot be walked over it, as its successor has no address. */
  const LAST_LOW_PAGE: Page := 0x7_ffff_ffff

  /** The fields of `elf::Program` that the loader looks at. */
  datatype Segment = Segment(kind: nat, offset: nat, vaddr: nat, filesz: nat, memsz: nat)

  function SegmentAt(pages: map<Page, Frame>, m: seq<Byte>, a: nat): Segment {
    Segment(Field(pages, m, a, 4), Field(pages, m, a + 8, 8), Field(pages, m, a + 16, 8),
            Field(pages, m, a + 32, 8), Field(pages, m, a + 40, 8))
  }

  function Entry(pages: map<Page, Frame>, m: seq<Byte>, elf: nat): nat {
    Field(pages, m, elf + 24, 8)
  }

  function ProgramTable(pages: map<Page, Frame>, m: seq<Byte>, elf: nat): nat {
    elf + Field(pages, m, elf + 32, 8)
  }

  function ProgramCount(pages: map<Page, Frame>, m: seq<Byte>, elf: nat): nat {
    Field(pages, m, elf + 56, 2)
  }

  /** The program headers of a table. */
  function Headers(pages: map<Page, Frame>, m: seq<Byte>, table: nat, count: nat): seq<Segment> {
    seq(count, i requires i >= 0 => SegmentAt(pages, m, HeaderAddr(table, i)))
  }

  /** The program headers of the image. */
  function Segments(pages: map<Page, Frame>, m: seq<Byte>, elf: nat): seq<Segment> {
    Headers(pages, m, ProgramTable(pages, m, elf), ProgramCount(pages, m, elf))
  }

  /** The inclusive page range of a segment. */
  function SegmentRange(s: Segment): Range {
    Range(s.vaddr / 4096, (s.vaddr + s.memsz - 1) / 4096)
  }

  const STACK_TOP: nat := 0x200000
  const STACK: nat := 0x200000 - 0x4000
  const STACK_RANGE: Range := Range((0x200000 - 0x5000) / 4096, (0x200000 - 1) / 4096)

  /** Everything the loader maps, in order. */
  function LoadRanges(segments: seq<Segment>): seq<Range> {
    if segments == [] then [STACK_RANGE]
    else (if segments[0].kind == PT_LOAD then [SegmentRange(segments[0])] else []) + LoadRanges(segments[1..])
  }

  /** Addresses that the loader computes without overflow, from a readable source. */
  ghost predicate Loadable(pages: map<Page, Frame>, elf: nat, s: Segment) {
    s.kind == PT_LOAD ==>
      && s.vaddr < CANONICAL_LIMIT && 1 <= s.vaddr + s.memsz && SegmentRange(s).last < LAST_LOW_PAGE
      && elf + s.offset + s.memsz < WORD_LIMIT
      && MappedRange(pages, elf + s.offset, s.memsz)
  }

  ghost predicate HeadersReadable(pages: map<Page, Frame>, m: seq<Byte>, elf: nat, table: nat, count: nat) {
    && MappedRange(pages, table, 56 * count)
    && forall i :: 0 <= i < count ==> Loadable(pages, elf, Headers(pages, m, table, count)[i])
  }

  /** The image lies in mapped memory, with a canonical entry point and loadable segments. */
  ghost predicate Readable(pages: map<Page, Frame>, m: seq<Byte>, elf: nat) {
    && MappedRange(pages, elf, HEADER_SIZE)
    && HeadersReadable(pages, m, elf, ProgramTable(pages, m, elf), ProgramCount(pages, m, elf))
    && Entry(pages, m, elf) < CANONICAL_LIMIT
  }

  /**
   * What the System V gABI, chapter 5, "Program Header", asks of a loaded segment: the file's
   * bytes, then zeros up to `p_memsz`. (pages, m) is the memory before, (pages', m') after.
   */
  ghost predicate SegmentImage(pages: map<Page, Frame>, m: seq<Byte>, pages': map<Page, Frame>, m': seq<Byte>, elf: nat, s: Segment) {
    forall u: nat {:trigger Peek(pages', m', u)} {:trigger IsMapped(pages', u)} :: s.vaddr <= u < s.vaddr + s.memsz ==>
      && IsMapped(pages', u)
      && Peek(pages', m', u) == if u - s.vaddr < s.filesz then Peek(pages, m, elf + s.offset + (u - s.vaddr)) else 0
  }

  lemma ImageKept(p0: map<Page, Frame>, m0: seq<Byte>, p: map<Page, Frame>, m: seq<Byte>, p': map<Page, Frame>, m': seq<Byte>, elf: nat, s: Segment)
    requires SegmentImage(p0, m0, p, m, elf, s) && Kept(p, m, p', m')
    ensures SegmentImage(p0, m0, p', m', elf, s)
  {
    forall u: nat | s.vaddr <= u < s.vaddr + s.memsz
      ensures IsMapped(p', u) && Peek(p', m', u) == Peek(p, m, u)
    {
      assert IsMapped(p, u);
    }
  }

  /** A segment loaded from a source that is unchanged since the start is loaded from the start. */
  lemma ImageFromStart(p0: map<Page, Frame>, m0: seq<Byte>, p: map<Page, Frame>, m: seq<Byte>, p': map<Page, Frame>, m': seq<Byte>, elf: nat, s: Segment)
    requires SegmentImage(p, m, p', m', elf, s) && Kept(p0, m0, p, m)
    requires MappedRange(p0, elf + s.offset, s.memsz)
    ensures SegmentImage(p0, m0, p', m', elf, s)
  {
    forall u: nat | s.vaddr <= u < s.vaddr + s.memsz
      ensures IsMapped(p', u)
      ensures Peek(p', m', u) == if u - s.vaddr < s.filesz then Peek(p0, m0, elf + s.offset + (u - s.vaddr)) else 0
    {
      assert IsMapped(p0, elf + s.offset + (u - s.vaddr));
      assert Peek(p', m', u) == if u - s.vaddr < s.filesz then Peek(p, m, elf + s.offset + (u - s.vaddr)) else 0;
    }
  }

  /** The mapper, its memory and the allocator are consistent. */
  ghost predicate Sound(mapper: Mapper, src: FrameSource)
    reads mapper, src.Repr()
  {
    && mapper.Ready(src)
    && Owned(src.Frames(), mapper.Ledger(src))
    && Backed(mapper.pages, mapper.phys.Length)
  }

  /** The pages of the range are mapped, and share their frames with no other page. */
  ghost predicate OwnPages(pages: map<Page, Frame>, r: Range) {
    forall p :: r.first <= p <= r.last ==> p in pages && forall q :: q in pages && q != p ==> pages[q] != pages[p]
  }

  /** Freshly mapped pages have their frames to themselves. */
  lemma NewPagesOwn(frames: seq<Frame>, b: Books, c: Books, r: Range)
    requires Owned(frames, c) && NoneMapped(b, r.first, r.last) && AllMapped(c, r.first, r.last)
    requires OnlyNew(frames, b, c, r.first, r.last)
    ensures OwnPages(c.pages, r)
  {
  }

  lemma OwnRange(pages: map<Page, Frame>, r: Range, v: nat, n: nat)
    requires OwnPages(pages, r) && (n > 0 ==> r.first <= v / 4096 && (v + n - 1) / 4096 <= r.last)
    ensures ExclusiveRange(pages, v, n)
  {
    forall u: nat | v <= u < v + n
      ensures Exclusive(pages, u)
    {
      assert r.first <= u / 4096 <= r.last;
    }
  }

  lemma StillBacked(frames: seq<Frame>, b: Books, c: Books, r: Range, len: nat)
    requires Backed(b.pages, len) && OnlyNew(frames, b, c, r.first, r.last) && Extends(b, c)
    requires forall f :: f in frames ==> (f + 1) * 4096 <= len
    ensures Backed(c.pages, len)
  {
    forall p | p in c.pages
      ensures (c.pages[p] + 1) * 4096 <= len
    {
      if p in b.pages {
        assert c.pages[p] == b.pages[p];
      } else {
        assert c.pages[p] in frames;
      }
    }
  }

  /** From b to c exactly the pages of the range are added, on usable frames not drawn before. */
  ghost predicate Maps(frames: seq<Frame>, b: Books, c: Books, r: Range) {
    NoneMapped(b, r.first, r.last) && AllMapped(c, r.first, r.last) && OnlyNew(frames, b, c, r.first, r.last)
  }

  /** Of all bytes only those of frames newly drawn change. */
  ghost predicate OnlyDrawn(b: Books, m: seq<Byte>, c: Books, m': seq<Byte>) {
    b.taken <= c.taken && SameOutside(m, m', c.taken - b.taken)
  }

  lemma OnlyDrawnTransitive(a: Books, m: seq<Byte>, b: Books, m': seq<Byte>, c: Books, m'': seq<Byte>)
    requires OnlyDrawn(a, m, b, m') && OnlyDrawn(b, m', c, m'')
    ensures OnlyDrawn(a, m, c, m'')
  {
    SameOutsideTransitive(m, m', m'', b.taken - a.taken, c.taken - b.taken, c.taken - a.taken);
  }

  /** Mapping a range and then storing in it changes only frames newly drawn. */
  lemma MapThenStore(frames: seq<Frame>, b: Books, m: seq<Byte>, c: Books, m1: seq<Byte>, m2: seq<Byte>, r: Range, v: nat, n: nat)
    requires OnlyTables(b, m, c, m1) && Maps(frames, b, c, r) && Owned(frames, c)
    requires n > 0 ==> r.first <= v / 4096 && (v + n - 1) / 4096 <= r.last
    requires SameOutside(m1, m2, FramesBehind(c.pages, v, n))
    ensures OnlyDrawn(b, m, c, m2)
  {
    forall f | f in FramesBehind(c.pages, v, n)
      ensures f in c.taken - b.taken
    {
      var u :| v <= u < v + n && IsMapped(c.pages, u) && c.pages[u / 4096] == f;
      assert r.first <= u / 4096 <= r.last;
    }
    SameOutsideTransitive(m, m1, m2, NewTables(b, c), FramesBehind(c.pages, v, n), c.taken - b.taken);
  }

  /** One mapping loop, with all that is known afterwards. */
  method MapLoop(mapper: Mapper, src: FrameSource, r: Range) returns (res: MapResult)
    requires Sound(mapper, src)
    modifies mapper, mapper.phys, src.Repr()
    ensures Sound(mapper, src)
    ensures (mapper.Ledger(src), res) == PagingModel.MapRange(src.Frames(), old(mapper.Ledger(src)), r.first, r.last)
    ensures Kept(old(mapper.pages), old(mapper.phys[..]), mapper.pages, mapper.phys[..])
    ensures OnlyTables(old(mapper.Ledger(src)), old(mapper.phys[..]), mapper.Ledger(src), mapper.phys[..])
    ensures res == Mapped ==> Maps(src.Frames(), old(mapper.Ledger(src)), mapper.Ledger(src), r)
    ensures res == Mapped ==> OwnPages(mapper.pages, r)
    ensures res == Mapped && old(src.Intact()) ==> src.Intact()
  {
    ghost var b, m := mapper.Ledger(src), mapper.phys[..];
    res := mapper.MapRange(r.first, r.last, src);
    ghost var c, frames := mapper.Ledger(src), src.Frames();
    MapRangeOwned(frames, b, r.first, r.last);
    MapRangeOutcome(frames, b, r.first, r.last);
    StillBacked(frames, b, c, r, |m|);
    MappingKeeps(frames, b, c, m, mapper.phys[..]);
    if res == Mapped {
      NewPagesOwn(frames, b, c, r);
    }
  }

  /** The body of the loop over the program headers, for a PT_LOAD segment. */
  method LoadSegment(elf: nat, s: Segment, mapper: Mapper, src: FrameSource) returns (res: MapResult)
    requires Sound(mapper, src) && s.kind == PT_LOAD && Loadable(mapper.pages, elf, s)
    modifies mapper, mapper.phys, src.Repr()
    ensures Sound(mapper, src)
    ensures (mapper.Ledger(src), res) == PagingModel.MapRange(src.Frames(), old(mapper.Ledger(src)), SegmentRange(s).first, SegmentRange(s).last)
    ensures Kept(old(mapper.pages), old(mapper.phys[..]), mapper.pages, mapper.phys[..])
    ensures res == Mapped ==> SegmentImage(old(mapper.pages), old(mapper.phys[..]), mapper.pages, mapper.phys[..], elf, s)
    ensures OnlyDrawn(old(mapper.Ledger(src)), old(mapper.phys[..]), mapper.Ledger(src), mapper.phys[..])
  {
    ghost var b, m := mapper.Ledger(src), mapper.phys[..];
    var r := SegmentRange(s);
    res := MapLoop(mapper, src, r);
    if res != Mapped {
      return;
    }
    ghost var c, m1 := mapper.Ledger(src), mapper.phys[..];
    DestinationNew(b, s);
    SourceApart(b.pages, s, elf);
    SourceStillMapped(b.pages, m, mapper.pages, m1, elf + s.offset, s.memsz);
    OwnRange(mapper.pages, r, s.vaddr, s.memsz);
    StoreSegment(elf, s, mapper);
    StoredImage(b.pages, m, mapper.pages, m1, mapper.phys[..], elf, s);
    StoredKept(b.pages, m, mapper.pages, m1, mapper.phys[..], elf, s);
    MapThenStore(src.Frames(), b, m, c, m1, mapper.phys[..], r, s.vaddr, s.memsz);
  }

  /** After copy and fill: the segment holds file bytes and zeros, all else is unchanged. */
  ghost predicate Stored(p: map<Page, Frame>, m: seq<Byte>, m': seq<Byte>, elf: nat, s: Segment) {
    forall u: nat {:trigger Peek(p, m', u)} :: IsMapped(p, u) ==>
      Peek(p, m', u) ==
      if s.vaddr <= u < s.vaddr + s.memsz then
        if u - s.vaddr < s.filesz then Peek(p, m, elf + s.offset + (u - s.vaddr)) else 0
      else Peek(p, m, u)
  }

  /** Copy all of `p_memsz` from the file, then overwrite what lies beyond `p_filesz` with zeros. */
  method StoreSegment(elf: nat, s: Segment, mapper: Mapper)
    requires Backed(mapper.pages, mapper.phys.Length)
    requires MappedRange(mapper.pages, elf + s.offset, s.memsz) && ExclusiveRange(mapper.pages, s.vaddr, s.memsz)
    requires elf + s.offset + s.memsz <= s.vaddr || s.vaddr + s.memsz <= elf + s.offset
    modifies mapper.phys
    ensures Stored(mapper.pages, old(mapper.phys[..]), mapper.phys[..], elf, s)
    ensures SameOutside(old(mapper.phys[..]), mapper.phys[..], FramesBehind(mapper.pages, s.vaddr, s.memsz))
  {
    ghost var p, m1 := mapper.pages, mapper.phys[..];
    CopyNonoverlapping(mapper, elf + s.offset, s.vaddr, s.memsz);
    ghost var m2 := mapper.phys[..];
    if s.memsz > s.filesz {
      WriteZeros(mapper, s.vaddr + s.filesz, s.memsz - s.filesz);
      BehindPart(p, s.vaddr + s.filesz, s.memsz - s.filesz, s.vaddr, s.memsz);
    }
    CopyThenFill(p, m1, m2, mapper.phys[..], elf, s);
  }

  lemma BehindPart(p: map<Page, Frame>, v: nat, n: nat, w: nat, k: nat)
    requires w <= v && v + n <= w + k
    ensures FramesBehind(p, v, n) <= FramesBehind(p, w, k)
  {
    forall f | f in FramesBehind(p, v, n)
      ensures f in FramesBehind(p, w, k)
    {
      var u :| v <= u < v + n && IsMapped(p, u) && p[u / 4096] == f;
      assert w <= u < w + k;
    }
  }

  lemma CopyThenFill(p: map<Page, Frame>, m1: seq<Byte>, m2: seq<Byte>, m3: seq<Byte>, elf: nat, s: Segment)
    requires Copied(p, m1, m2, elf + s.offset, s.vaddr, s.memsz)
    requires if s.memsz > s.filesz then Zeroed(p, m2, m3, s.vaddr + s.filesz, s.memsz - s.filesz) else m3 == m2
    ensures Stored(p, m1, m3, elf, s)
  {
    forall u: nat | IsMapped(p, u)
      ensures Peek(p, m3, u) ==
              if s.vaddr <= u < s.vaddr + s.memsz then
                if u - s.vaddr < s.filesz then Peek(p, m1, elf + s.offset + (u - s.vaddr)) else 0
              else Peek(p, m1, u)
    {
      assert Peek(p, m2, u) ==
             if s.vaddr <= u < s.vaddr + s.memsz then Peek(p, m1, elf + s.offset + (u - s.vaddr)) else Peek(p, m1, u);
    }
  }

  /** No byte of the segment's destination was mapped before. */
  lemma DestinationNew(b: Books, s: Segment)
    requires NoneMapped(b, SegmentRange(s).first, SegmentRange(s).last)
    ensures forall u: nat :: s.vaddr <= u < s.vaddr + s.memsz ==> !IsMapped(b.pages, u)
  {
    forall u: nat | s.vaddr <= u < s.vaddr + s.memsz
      ensures !IsMapped(b.pages, u)
    {
      assert SegmentRange(s).first <= u / 4096 <= SegmentRange(s).last;
    }
  }

  lemma SourceApart(p: map<Page, Frame>, s: Segment, elf: nat)
    requires forall u: nat :: s.vaddr <= u < s.vaddr + s.memsz ==> !IsMapped(p, u)
    requires MappedRange(p, elf + s.offset, s.memsz)
    ensures elf + s.offset + s.memsz <= s.vaddr || s.vaddr + s.memsz <= elf + s.offset
  {
    var a := elf + s.offset;
    var u := if a < s.vaddr then s.vaddr else a;
    assert a <= u < a + s.memsz ==> IsMapped(p, u);
  }

  lemma SourceStillMapped(p: map<Page, Frame>, m: seq<Byte>, p': map<Page, Frame>, m': seq<Byte>, a: nat, n: nat)
    requires Kept(p, m, p', m') && MappedRange(p, a, n)
    ensures MappedRange(p', a, n)
  {
  }

  lemma StoredImage(p0: map<Page, Frame>, m0: seq<Byte>, p: map<Page, Frame>, m1: seq<Byte>, m2: seq<Byte>, elf: nat, s: Segment)
    requires Kept(p0, m0, p, m1) && MappedRange(p0, elf + s.offset, s.memsz)
    requires ExclusiveRange(p, s.vaddr, s.memsz) && Stored(p, m1, m2, elf, s)
    ensures SegmentImage(p0, m0, p, m2, elf, s)
  {
    forall u: nat | s.vaddr <= u < s.vaddr + s.memsz
      ensures IsMapped(p, u)
      ensures Peek(p, m2, u) == if u - s.vaddr < s.filesz then Peek(p0, m0, elf + s.offset + (u - s.vaddr)) else 0
    {
      assert Exclusive(p, u);
      assert IsMapped(p0, elf + s.offset + (u - s.vaddr));
    }
  }

  lemma StoredKept(p0: map<Page, Frame>, m0: seq<Byte>, p: map<Page, Frame>, m1: seq<Byte>, m2: seq<Byte>, elf: nat, s: Segment)
    requires Kept(p0, m0, p, m1) && Stored(p, m1, m2, elf, s)
    requires forall u: nat :: s.vaddr <= u < s.vaddr + s.memsz ==> !IsMapped(p0, u)
    ensures Kept(p0, m0, p, m2)
  {
    forall u: nat | IsMapped(p0, u)
      ensures IsMapped(p, u) && Peek(p, m2, u) == Peek(p0, m0, u)
    {
      assert Peek(p, m2, u) == Peek(p, m1, u);
    }
  }

  /* ---- the program headers stay readable while segments are loaded ---- */

  lemma SubRange(p: map<Page, Frame>, a: nat, n: nat, b: nat, k: nat)
    requires MappedRange(p, a, n) && a <= b && b + k <= a + n
    ensures MappedRange(p, b, k)
  {
  }

  lemma HeaderStable(p: map<Page, Frame>, m: seq<Byte>, p': map<Page, Frame>, m': seq<Byte>, a: nat)
    requires Kept(p, m, p', m') && MappedRange(p, a, PROGRAM_SIZE)
    ensures SegmentAt(p', m', a) == SegmentAt(p, m, a)
  {
    SubRange(p, a, PROGRAM_SIZE, a, 4);
    KeptField(p, m, p', m', a, 4);
    SubRange(p, a, PROGRAM_SIZE, a + 8, 8);
    KeptField(p, m, p', m', a + 8, 8);
    SubRange(p, a, PROGRAM_SIZE, a + 16, 8);
    KeptField(p, m, p', m', a + 16, 8);
    SubRange(p, a, PROGRAM_SIZE, a + 32, 8);
    KeptField(p, m, p', m', a + 32, 8);
    SubRange(p, a, PROGRAM_SIZE, a + 40, 8);
    KeptField(p, m, p', m', a + 40, 8);
  }

  lemma SegmentStable(p: map<Page, Frame>, m: seq<Byte>, p': map<Page, Frame>, m': seq<Byte>, table: nat, count: nat, i: nat)
    requires Kept(p, m, p', m') && MappedRange(p, table, 56 * count) && i < count
    ensures SegmentAt(p', m', HeaderAddr(table, i)) == SegmentAt(p, m, HeaderAddr(table, i))
  {
    var a := HeaderAddr(table, i);
    SubRange(p, table, 56 * count, a, PROGRAM_SIZE);
    HeaderStable(p, m, p', m', a);
  }

  lemma SourceStable(p: map<Page, Frame>, m: seq<Byte>, p': map<Page, Frame>, m': seq<Byte>, elf: nat, s: Segment)
    requires Kept(p, m, p', m') && Loadable(p, elf, s)
    ensures Loadable(p', elf, s)
  {
  }

  /* ---- the initial context ---- */

  const USER_CODE: nat := 6 * 8 + 3
  const USER_DATA: nat := 5 * 8 + 3

  /** Address of the saved registers of the new process, and of the interrupt frame above them. */
  const USER_RSP: nat := STACK + 8
  const USER_FRAME: nat := STACK + 120 + 8

  /**
   * The interrupt frame (Intel SDM volume 3A, section 6.14.2) that the first switch to the process
   * returns through, and the thread control block at the start of the stack.
   */
  ghost predicate UserContext(p: map<Page, Frame>, m: seq<Byte>, entry: nat, rflags: nat) {
    forall f :: f in ContextFields(entry, rflags) ==> Field(p, m, f.addr, f.width) == f.value
  }

  datatype FieldValue = FieldValue(addr: nat, width: nat, value: nat)

  function ContextFields(entry: nat, rflags: nat): seq<FieldValue> {
    [ FieldValue(USER_FRAME, 8, entry),
      FieldValue(USER_FRAME + 8, 2, USER_CODE),
      FieldValue(USER_FRAME + 16, 8, WithInterrupts(rflags)),
      FieldValue(USER_FRAME + 24, 8, STACK_TOP),
      FieldValue(USER_FRAME + 32, 2, USER_DATA),
      FieldValue(STACK, 8, STACK) ]
  }

  const STACK_PAGE: nat := 0x1000

  /** A store inside the stack page: what it leaves alone. */
  ghost predicate FieldsKept(p: map<Page, Frame>, m: seq<Byte>, m': seq<Byte>, a: nat, n: nat) {
    forall b: nat, k: nat {:trigger Field(p, m', b, k)} ::
      STACK <= b && b + k <= STACK + STACK_PAGE && (b + k <= a || a + n <= b) ==> Field(p, m', b, k) == Field(p, m, b, k)
  }

  lemma StoreKeepsFields(p: map<Page, Frame>, m: seq<Byte>, m': seq<Byte>, a: nat, n: nat)
    requires Elsewhere(p, m, m', a, n) && ExclusiveRange(p, STACK, STACK_PAGE)
    ensures FieldsKept(p, m, m', a, n)
  {
    forall b: nat, k: nat | STACK <= b && b + k <= STACK + STACK_PAGE && (b + k <= a || a + n <= b)
      ensures Field(p, m', b, k) == Field(p, m, b, k)
    {
      assert MappedRange(p, b, k) by {
        forall u: nat | b <= u < b + k
          ensures IsMapped(p, u)
        {
          assert Exclusive(p, u);
        }
      }
      ElsewhereField(p, m, m', a, n, b, k);
    }
  }

  method StackStore(mapper: Mapper, a: nat, value: nat, n: nat)
    requires Backed(mapper.pages, mapper.phys.Length) && ExclusiveRange(mapper.pages, STACK, STACK_PAGE)
    requires STACK <= a && a + n <= STACK + STACK_PAGE && value < Pow256(n)
    modifies mapper.phys
    ensures Elsewhere(mapper.pages, old(mapper.phys[..]), mapper.phys[..], a, n)
    ensures Field(mapper.pages, mapper.phys[..], a, n) == value
    ensures FieldsKept(mapper.pages, old(mapper.phys[..]), mapper.phys[..], a, n)
  {
    ghost var m := mapper.phys[..];
    StoreField(mapper, a, value, n);
    StoreKeepsFields(mapper.pages, m, mapper.phys[..], a, n);
  }

  lemma Widths()
    ensures Pow256(2) == 0x1_0000 && Pow256(8) == WORD_LIMIT
  {
    assert Pow256(4) == 0x1_0000_0000;
  }

  ghost predicate InField(u: nat, fields: seq<FieldValue>) {
    exists f :: f in fields && f.addr <= u < f.addr + f.width
  }

  /** Of all mapped bytes only those of the fields change. */
  ghost predicate OnlyFields(p: map<Page, Frame>, m: seq<Byte>, m': seq<Byte>, fields: seq<FieldValue>) {
    forall u: nat :: IsMapped(p, u) && !InField(u, fields) ==> Peek(p, m', u) == Peek(p, m, u)
  }

  lemma OnlyFieldsStep(p: map<Page, Frame>, m0: seq<Byte>, m: seq<Byte>, m': seq<Byte>, fields: seq<FieldValue>, f: FieldValue)
    requires OnlyFields(p, m0, m, fields) && f in fields && Elsewhere(p, m, m', f.addr, f.width)
    ensures OnlyFields(p, m0, m', fields)
  {
    forall u: nat | IsMapped(p, u) && !InField(u, fields)
      ensures Peek(p, m', u) == Peek(p, m0, u)
    {
      assert !(f.addr <= u < f.addr + f.width);
    }
  }

  /** The fields lie in the first page of the stack. */
  lemma FieldsInStack(entry: nat, rflags: nat)
    ensures forall f :: f in ContextFields(entry, rflags) ==> STACK <= f.addr && f.addr + f.width <= STACK + STACK_PAGE
  {
  }

  lemma FieldsElsewhere(p: map<Page, Frame>, m: seq<Byte>, m': seq<Byte>, entry: nat, rflags: nat)
    requires OnlyFields(p, m, m', ContextFields(entry, rflags))
    ensures Elsewhere(p, m, m', STACK, STACK_PAGE)
  {
    FieldsInStack(entry, rflags);
  }

  /** Store one field of the first context. */
  method StoreContextField(mapper: Mapper, f: FieldValue, ghost fields: seq<FieldValue>, ghost m0: seq<Byte>)
    requires Backed(mapper.pages, mapper.phys.Length) && ExclusiveRange(mapper.pages, STACK, STACK_PAGE)
    requires STACK <= f.addr && f.addr + f.width <= STACK + STACK_PAGE && f.value < Pow256(f.width)
    requires f in fields && OnlyFields(mapper.pages, m0, mapper.phys[..], fields)
    modifies mapper.phys
    ensures Field(mapper.pages, mapper.phys[..], f.addr, f.width) == f.value
    ensures FieldsKept(mapper.pages, old(mapper.phys[..]), mapper.phys[..], f.addr, f.width)
    ensures OnlyFields(mapper.pages, m0, mapper.phys[..], fields)
  {
    ghost var m := mapper.phys[..];
    StackStore(mapper, f.addr, f.value, f.width);
    OnlyFieldsStep(mapper.pages, m0, m, mapper.phys[..], fields, f);
  }

  lemma AllFields(p: map<Page, Frame>, m: seq<Byte>, entry: nat, rflags: nat)
    requires Field(p, m, USER_FRAME, 8) == entry && Field(p, m, USER_FRAME + 8, 2) == USER_CODE
    requires Field(p, m, USER_FRAME + 16, 8) == WithInterrupts(rflags) && Field(p, m, USER_FRAME + 24, 8) == STACK_TOP
    requires Field(p, m, USER_FRAME + 32, 2) == USER_DATA && Field(p, m, STACK, 8) == STACK
    ensures UserContext(p, m, entry, rflags)
  {
  }

  method SetUpStack(mapper: Mapper, entry: nat, rflags: nat)
    requires Backed(mapper.pages, mapper.phys.Length) && ExclusiveRange(mapper.pages, STACK, STACK_PAGE)
    requires entry < WORD_LIMIT && WithInterrupts(rflags) < WORD_LIMIT
    modifies mapper.phys
    ensures OnlyFields(mapper.pages, old(mapper.phys[..]), mapper.phys[..], ContextFields(entry, rflags))
    ensures UserContext(mapper.pages, mapper.phys[..], entry, rflags)
    ensures InterruptsOn(Field(mapper.pages, mapper.phys[..], USER_FRAME + 16, 8), rflags)
  {
    FlagIsSet(rflags);
    ghost var fields, m0 := ContextFields(entry, rflags), mapper.phys[..];
    Widths();
    StoreContextField(mapper, FieldValue(USER_FRAME, 8, entry), fields, m0);
    StoreContextField(mapper, FieldValue(USER_FRAME + 8, 2, USER_CODE), fields, m0);
    StoreContextField(mapper, FieldValue(USER_FRAME + 16, 8, WithInterrupts(rflags)), fields, m0);
    StoreContextField(mapper, FieldValue(USER_FRAME + 24, 8, STACK_TOP), fields, m0);
    StoreContextField(mapper, FieldValue(USER_FRAME + 32, 2, USER_DATA), fields, m0);
    StoreContextField(mapper, FieldValue(STACK, 8, STACK), fields, m0);
    AllFields(mapper.pages, mapper.phys[..], entry, rflags);
  }

  /** The pages of the stack are mapped. */
  ghost predicate StackMapped(p: map<Page, Frame>) {
    forall q :: STACK_RANGE.first <= q <= STACK_RANGE.last ==> q in p
  }

  /** And they were not before. */
  ghost predicate StackNew(p0: map<Page, Frame>, p: map<Page, Frame>) {
    StackMapped(p) && forall q :: STACK_RANGE.first <= q <= STACK_RANGE.last ==> q !in p0
  }

  /**
   * Loading has left behind the first context of the process. (p0, m0) is the memory before,
   * (p, m) after: the stack pages are new, the fields of the context are stored, and every other
   * byte of the stack is what its frame held before.
   */
  ghost predicate FirstStack(p0: map<Page, Frame>, m0: seq<Byte>, p: map<Page, Frame>, m: seq<Byte>, entry: nat, rflags: nat) {
    && StackNew(p0, p)
    && UserContext(p, m, entry, rflags)
    && StaleOutside(p, m0, m, ContextFields(entry, rflags))
  }

  ghost predicate InStackRange(u: nat) {
    STACK_RANGE.first <= u / 4096 <= STACK_RANGE.last
  }

  ghost predicate StaleOutside(p: map<Page, Frame>, m0: seq<Byte>, m: seq<Byte>, fields: seq<FieldValue>) {
    forall u: nat :: InStackRange(u) && !InField(u, fields) ==> Peek(p, m, u) == Peek(p, m0, u)
  }

  /* ---- the whole loader ---- */

  const ARENA: nat := 0x100_000_000

  /** The process list of boot once the user process has been added. */
  const WITH_USER: Scheduler.State := Scheduler.Step(Scheduler.BOOTED, Scheduler.Spawn(USER_RSP, Some(ARENA)))

  /** All segments up to i are in place. */
  ghost predicate Loaded(p0: map<Page, Frame>, m0: seq<Byte>, p: map<Page, Frame>, m: seq<Byte>, elf: nat, segments: seq<Segment>, i: nat) {
    forall j :: 0 <= j < |segments| && j < i && segments[j].kind == PT_LOAD ==> SegmentImage(p0, m0, p, m, elf, segments[j])
  }

  lemma LoadedKept(p0: map<Page, Frame>, m0: seq<Byte>, p: map<Page, Frame>, m: seq<Byte>, p': map<Page, Frame>, m': seq<Byte>, elf: nat, segments: seq<Segment>, i: nat)
    requires Loaded(p0, m0, p, m, elf, segments, i) && Kept(p, m, p', m')
    ensures Loaded(p0, m0, p', m', elf, segments, i)
  {
    forall j | 0 <= j < |segments| && j < i && segments[j].kind == PT_LOAD
      ensures SegmentImage(p0, m0, p', m', elf, segments[j])
    {
      ImageKept(p0, m0, p, m, p', m', elf, segments[j]);
    }
  }

  /** What loading one segment does to the books: nothing, or mapping its range. */
  function SegmentStep(frames: seq<Frame>, b: Books, s: Segment): (Books, MapResult) {
    if s.kind == PT_LOAD then PagingModel.MapRange(frames, b, SegmentRange(s).first, SegmentRange(s).last)
    else (b, Mapped)
  }

  lemma RangesStep(frames: seq<Frame>, b: Books, segments: seq<Segment>)
    requires segments != []
    ensures var (c, r) := SegmentStep(frames, b, segments[0]);
            MapRanges(frames, b, LoadRanges(segments)) ==
            if r == Mapped then MapRanges(frames, c, LoadRanges(segments[1..])) else (c, r)
  {
    if segments[0].kind == PT_LOAD {
      assert LoadRanges(segments)[0] == SegmentRange(segments[0]);
      assert LoadRanges(segments)[1..] == LoadRanges(segments[1..]);
    } else {
      assert LoadRanges(segments) == LoadRanges(segments[1..]);
    }
  }

  lemma LoadedStep(p0: map<Page, Frame>, m0: seq<Byte>, p: map<Page, Frame>, m: seq<Byte>, p': map<Page, Frame>, m': seq<Byte>,
                   elf: nat, segments: seq<Segment>, i: nat)
    requires Kept(p0, m0, p, m) && Kept(p, m, p', m') && i < |segments| && Loadable(p0, elf, segments[i])
    requires Loaded(p0, m0, p, m, elf, segments, i)
    requires segments[i].kind == PT_LOAD ==> SegmentImage(p, m, p', m', elf, segments[i])
    ensures Loaded(p0, m0, p', m', elf, segments, i + 1)
  {
    LoadedKept(p0, m0, p, m, p', m', elf, segments, i);
    if segments[i].kind == PT_LOAD {
      ImageFromStart(p0, m0, p, m, p', m', elf, segments[i]);
    }
  }

  /** One round of the loop over the program headers. */
  method LoadHeader(elf: nat, a: nat, mapper: Mapper, src: FrameSource) returns (res: MapResult)
    requires Sound(mapper, src) && Loadable(mapper.pages, elf, SegmentAt(mapper.pages, mapper.phys[..], a))
    modifies mapper, mapper.phys, src.Repr()
    ensures Sound(mapper, src)
    ensures OnlyDrawn(old(mapper.Ledger(src)), old(mapper.phys[..]), mapper.Ledger(src), mapper.phys[..])
    ensures Kept(old(mapper.pages), old(mapper.phys[..]), mapper.pages, mapper.phys[..])
    ensures var s := SegmentAt(old(mapper.pages), old(mapper.phys[..]), a);
            && (mapper.Ledger(src), res) == SegmentStep(src.Frames(), old(mapper.Ledger(src)), s)
            && (res == Mapped && s.kind == PT_LOAD ==>
                  SegmentImage(old(mapper.pages), old(mapper.phys[..]), mapper.pages, mapper.phys[..], elf, s))
  {
    var s := SegmentAt(mapper.pages, mapper.phys[..], a);
    if s.kind == PT_LOAD {
      res := LoadSegment(elf, s, mapper, src);
    } else {
      res := Mapped;
    }
  }

  /** Where the loop over the program headers stands before header i. */
  ghost predicate Progress(frames: seq<Frame>, b0: Books, m0: seq<Byte>, b: Books, m: seq<Byte>, elf: nat, segments: seq<Segment>, i: nat) {
    && i <= |segments|
    && Kept(b0.pages, m0, b.pages, m) && OnlyDrawn(b0, m0, b, m)
    && MapRanges(frames, b, LoadRanges(segments[i..])) == MapRanges(frames, b0, LoadRanges(segments))
    && Loaded(b0.pages, m0, b.pages, m, elf, segments, i)
  }

  lemma ProgressStart(frames: seq<Frame>, b0: Books, m0: seq<Byte>, elf: nat, segments: seq<Segment>)
    ensures Progress(frames, b0, m0, b0, m0, elf, segments, 0)
  {
    assert segments[0..] == segments;
  }

  lemma ProgressStep(frames: seq<Frame>, b0: Books, m0: seq<Byte>, b: Books, m: seq<Byte>, c: Books, m': seq<Byte>,
                     res: MapResult, elf: nat, segments: seq<Segment>, i: nat)
    requires Progress(frames, b0, m0, b, m, elf, segments, i) && i < |segments|
    requires Loadable(b0.pages, elf, segments[i]) && Kept(b.pages, m, c.pages, m') && OnlyDrawn(b, m, c, m')
    requires (c, res) == SegmentStep(frames, b, segments[i])
    requires res == Mapped && segments[i].kind == PT_LOAD ==> SegmentImage(b.pages, m, c.pages, m', elf, segments[i])
    ensures Kept(b0.pages, m0, c.pages, m')
    ensures res == Mapped ==> Progress(frames, b0, m0, c, m', elf, segments, i + 1)
    ensures res != Mapped ==> MapRanges(frames, b0, LoadRanges(segments)) == (c, res)
  {
    KeptTransitive(b0.pages, m0, b.pages, m, c.pages, m');
    OnlyDrawnTransitive(b0, m0, b, m, c, m');
    RangesStep(frames, b, segments[i..]);
    assert segments[i..][0] == segments[i] && segments[i..][1..] == segments[i + 1..];
    if res == Mapped {
      LoadedStep(b0.pages, m0, b.pages, m, c.pages, m', elf, segments, i);
    }
  }

  /** The loop over the program headers. */
  method LoadSegments(elf: nat, table: nat, count: nat, mapper: Mapper, src: FrameSource) returns (res: MapResult)
    requires Sound(mapper, src) && HeadersReadable(mapper.pages, mapper.phys[..], elf, table, count)
    modifies mapper, mapper.phys, src.Repr()
    ensures Sound(mapper, src)
    ensures Kept(old(mapper.pages), old(mapper.phys[..]), mapper.pages, mapper.phys[..])
    ensures var segments := Headers(old(mapper.pages), old(mapper.phys[..]), table, count);
            if res == Mapped then
              Progress(src.Frames(), old(mapper.Ledger(src)), old(mapper.phys[..]), mapper.Ledger(src), mapper.phys[..], elf, segments, count)
            else
              MapRanges(src.Frames(), old(mapper.Ledger(src)), LoadRanges(segments)) == (mapper.Ledger(src), res)
  {
    ghost var m0, b0, frames := mapper.phys[..], mapper.Ledger(src), src.Frames();
    ghost var segments := Headers(b0.pages, m0, table, count);
    var i := 0;
    ProgressStart(frames, b0, m0, elf, segments);
    while i < count
      invariant 0 <= i <= count && Sound(mapper, src)
      invariant Progress(frames, b0, m0, mapper.Ledger(src), mapper.phys[..], elf, segments, i)
    {
      ghost var b, m := mapper.Ledger(src), mapper.phys[..];
      SegmentStable(b0.pages, m0, b.pages, m, table, count, i);
      SourceStable(b0.pages, m0, b.pages, m, elf, segments[i]);
      res := LoadHeader(elf, HeaderAddr(table, i), mapper, src);
      ProgressStep(frames, b0, m0, b, m, mapper.Ledger(src), mapper.phys[..], res, elf, segments, i);
      if res != Mapped {
        return;
      }
      i := i + 1;
    }
    return Mapped;
  }

  /** Stores through the page map leave the books as they are. */
  method PrepareStack(mapper: Mapper, src: FrameSource, entry: nat, rflags: nat)
    requires Sound(mapper, src) && OwnPages(mapper.pages, STACK_RANGE)
    requires entry < WORD_LIMIT && WithInterrupts(rflags) < WORD_LIMIT
    modifies mapper.phys
    ensures Sound(mapper, src) && mapper.Ledger(src) == old(mapper.Ledger(src))
    ensures OnlyFields(mapper.pages, old(mapper.phys[..]), mapper.phys[..], ContextFields(entry, rflags))
    ensures UserContext(mapper.pages, mapper.phys[..], entry, rflags)
  {
    OwnRange(mapper.pages, STACK_RANGE, STACK, STACK_PAGE);
    SetUpStack(mapper, entry, rflags);
  }

  /** The five stack pages, the last thing to be mapped; the entry point is read from the header afterwards. */
  method LoadStack(elf: nat, mapper: Mapper, src: FrameSource, rflags: nat) returns (res: MapResult)
    requires Sound(mapper, src) && WithInterrupts(rflags) < WORD_LIMIT
    requires MappedRange(mapper.pages, elf, HEADER_SIZE) && Entry(mapper.pages, mapper.phys[..], elf) < CANONICAL_LIMIT
    modifies mapper, mapper.phys, src.Repr()
    ensures Sound(mapper, src)
    ensures Kept(old(mapper.pages), old(mapper.phys[..]), mapper.pages, mapper.phys[..])
    ensures (mapper.Ledger(src), res) == MapRanges(src.Frames(), old(mapper.Ledger(src)), [STACK_RANGE])
    ensures res == Mapped ==>
              && Maps(src.Frames(), old(mapper.Ledger(src)), mapper.Ledger(src), STACK_RANGE)
              && FirstStack(old(mapper.pages), old(mapper.phys[..]), mapper.pages, mapper.phys[..],
                            Entry(old(mapper.pages), old(mapper.phys[..]), elf), rflags)
  {
    ghost var b, m, frames := mapper.Ledger(src), mapper.phys[..], src.Frames();
    res := MapLoop(mapper, src, STACK_RANGE);
    OneRange(frames, b, STACK_RANGE);
    if res == Mapped {
      ghost var c, m1 := mapper.Ledger(src), mapper.phys[..];
      EntryStable(b.pages, m, c.pages, m1, elf);
      var entry := Entry(mapper.pages, mapper.phys[..], elf);
      PrepareStack(mapper, src, entry, rflags);
      FieldsElsewhere(c.pages, m1, mapper.phys[..], entry, rflags);
      StackKept(b, m, c.pages, m1, mapper.phys[..]);
      StackStale(frames, b, m, c, m1, mapper.phys[..], ContextFields(entry, rflags));
    }
  }

  /** Mapping the stack leaves the bytes of its frames as they were; then only the fields are stored. */
  lemma StackStale(frames: seq<Frame>, b: Books, m: seq<Byte>, c: Books, m1: seq<Byte>, m2: seq<Byte>, fields: seq<FieldValue>)
    requires Owned(frames, c) && Maps(frames, b, c, STACK_RANGE) && OnlyTables(b, m, c, m1)
    requires OnlyFields(c.pages, m1, m2, fields)
    ensures StaleOutside(c.pages, m, m2, fields)
  {
    forall u: nat | InStackRange(u) && !InField(u, fields)
      ensures Peek(c.pages, m2, u) == Peek(c.pages, m, u)
    {
      assert IsMapped(c.pages, u);
      var f := c.pages[u / 4096];
      assert f in frames && f !in NewTables(b, c);
      assert Phys(c.pages, u) / 4096 == f;
    }
  }

  /** What was loaded before the stack was mapped does not lie in its frames. */
  lemma StackUnread(frames: seq<Frame>, b0: Books, m0: seq<Byte>, b: Books, m: seq<Byte>, c: Books, u: nat)
    requires Maps(frames, b, c, STACK_RANGE) && OnlyDrawn(b0, m0, b, m) && InStackRange(u)
    ensures IsMapped(c.pages, u) && Peek(c.pages, m, u) == Peek(c.pages, m0, u)
  {
    var q := u / 4096;
    assert q in c.pages && q !in b.pages;
    assert c.pages[q] !in b.taken;
    assert Phys(c.pages, u) / 4096 == c.pages[q];
  }

  lemma StackUnmapped(b0: Books, m0: seq<Byte>, b: Books, m: seq<Byte>)
    requires Kept(b0.pages, m0, b.pages, m) && NoneMapped(b, STACK_RANGE.first, STACK_RANGE.last)
    ensures NoneMapped(b0, STACK_RANGE.first, STACK_RANGE.last)
  {
    forall q | STACK_RANGE.first <= q <= STACK_RANGE.last
      ensures q !in b0.pages
    {
      assert !IsMapped(b.pages, q * 4096);
    }
  }

  lemma StaleFromStart(frames: seq<Frame>, b0: Books, m0: seq<Byte>, b: Books, m: seq<Byte>, c: Books, m': seq<Byte>, entry: nat, rflags: nat)
    requires Maps(frames, b, c, STACK_RANGE) && OnlyDrawn(b0, m0, b, m) && Kept(b0.pages, m0, b.pages, m)
    requires FirstStack(b.pages, m, c.pages, m', entry, rflags)
    ensures FirstStack(b0.pages, m0, c.pages, m', entry, rflags)
  {
    var fields := ContextFields(entry, rflags);
    forall u: nat | InStackRange(u) && !InField(u, fields)
      ensures Peek(c.pages, m', u) == Peek(c.pages, m0, u)
    {
      StackUnread(frames, b0, m0, b, m, c, u);
    }
    StackUnmapped(b0, m0, b, m);
  }

  lemma OneRange(frames: seq<Frame>, b: Books, r: Range)
    ensures MapRanges(frames, b, [r]) == PagingModel.MapRange(frames, b, r.first, r.last)
  {
    var (c, res) := PagingModel.MapRange(frames, b, r.first, r.last);
    assert [r][1..] == [];
    assert MapRanges(frames, c, []) == (c, Mapped);
  }

  lemma StackKept(b: Books, m: seq<Byte>, p: map<Page, Frame>, m1: seq<Byte>, m2: seq<Byte>)
    requires Kept(b.pages, m, p, m1) && Elsewhere(p, m1, m2, STACK, STACK_PAGE)
    requires NoneMapped(b, STACK_RANGE.first, STACK_RANGE.last)
    ensures Kept(b.pages, m, p, m2)
  {
    forall u: nat | IsMapped(b.pages, u)
      ensures IsMapped(p, u) && Peek(p, m2, u) == Peek(b.pages, m, u)
    {
      assert !(STACK_RANGE.first <= u / 4096 <= STACK_RANGE.last);
    }
  }

  /**
   * `add_user_process`. Whatever the outcome, every byte mapped before is unchanged and frame
   * ownership is kept. On success each segment holds its file bytes followed by zeros, the stack
   * holds the context that the first switch will load, and the process joins the list as READY.
   */
  method AddUserProcess(elf: nat, mapper: Mapper, src: FrameSource, list: Scheduler.ProcessList, rflags: nat) returns (res: MapResult)
    requires Sound(mapper, src) && Readable(mapper.pages, mapper.phys[..], elf) && WithInterrupts(rflags) < WORD_LIMIT
    requires list as object !in src.Repr()
    modifies mapper, mapper.phys, src.Repr(), list`procs
    ensures Sound(mapper, src)
    ensures Kept(old(mapper.pages), old(mapper.phys[..]), mapper.pages, mapper.phys[..])
    ensures (mapper.Ledger(src), res) ==
            MapRanges(src.Frames(), old(mapper.Ledger(src)), LoadRanges(Segments(old(mapper.pages), old(mapper.phys[..]), elf)))
    ensures res == Mapped ==>
              var segments := Segments(old(mapper.pages), old(mapper.phys[..]), elf);
              && Loaded(old(mapper.pages), old(mapper.phys[..]), mapper.pages, mapper.phys[..], elf, segments, |segments|)
              && FirstStack(old(mapper.pages), old(mapper.phys[..]), mapper.pages, mapper.phys[..],
                            Entry(old(mapper.pages), old(mapper.phys[..]), elf), rflags)
              && list.procs == old(list.procs) + [Scheduler.Process(Scheduler.READY, USER_RSP, Some(ARENA))]
    ensures res != Mapped ==> list.procs == old(list.procs)
  {
    ghost var b0, m0 := mapper.Ledger(src), mapper.phys[..];
    var table, count := ProgramTable(mapper.pages, mapper.phys[..], elf), ProgramCount(mapper.pages, mapper.phys[..], elf);
    res := LoadSegments(elf, table, count, mapper, src);
    if res != Mapped {
      return;
    }
    ghost var b, m := mapper.Ledger(src), mapper.phys[..];
    EntryStable(b0.pages, m0, b.pages, m, elf);
    SourceStillMapped(b0.pages, m0, b.pages, m, elf, HEADER_SIZE);
    res := LoadStack(elf, mapper, src, rflags);
    ProgressEnd(src.Frames(), b0, m0, b, m, mapper.pages, mapper.phys[..], elf, Headers(b0.pages, m0, table, count));
    if res != Mapped {
      return;
    }
    StaleFromStart(src.Frames(), b0, m0, b, m, mapper.Ledger(src), mapper.phys[..], Entry(b0.pages, m0, elf), rflags);
    Enlist(list, mapper, src);
  }

  /** The new process becomes READY at the end of the list. */
  method Enlist(list: Scheduler.ProcessList, ghost mapper: Mapper, ghost src: FrameSource)
    requires Sound(mapper, src) && list as object !in src.Repr()
    modifies list`procs
    ensures Sound(mapper, src) && mapper.Ledger(src) == old(mapper.Ledger(src))
    ensures list.procs == old(list.procs) + [Scheduler.Process(Scheduler.READY, USER_RSP, Some(ARENA))]
  {
    list.Push(Scheduler.Process(Scheduler.READY, STACK + 8, Some(0x100_000_000)));
  }

  lemma EntryStable(p: map<Page, Frame>, m: seq<Byte>, p': map<Page, Frame>, m': seq<Byte>, elf: nat)
    requires Kept(p, m, p', m') && MappedRange(p, elf, HEADER_SIZE)
    ensures Entry(p', m', elf) == Entry(p, m, elf)
  {
    SubRange(p, elf, HEADER_SIZE, elf + 24, 8);
    KeptField(p, m, p', m', elf + 24, 8);
  }

  lemma ProgressEnd(frames: seq<Frame>, b0: Books, m0: seq<Byte>, b: Books, m: seq<Byte>, p': map<Page, Frame>, m': seq<Byte>, elf: nat, segments: seq<Segment>)
    requires Progress(frames, b0, m0, b, m, elf, segments, |segments|) && Kept(b.pages, m, p', m')
    ensures Kept(b0.pages, m0, p', m')
    ensures MapRanges(frames, b0, LoadRanges(segments)) == MapRanges(frames, b, [STACK_RANGE])
    ensures Loaded(b0.pages, m0, p', m', elf, segments, |segments|)
  {
    KeptTransitive(b0.pages, m0, b.pages, m, p', m');
    LoadedKept(b0.pages, m0, b.pages, m, p', m', elf, segments, |segments|);
    assert segments[|segments|..] == [];
  }

  /**
   * Exactly when loading succeeds, and exactly why it fails otherwise: the page ranges of the
   * segments and the stack must be disjoint from each other and from everything mapped, and the
   * free frames must pay for their pages and for the tables that are lacking.
   */
  lemma LoadOutcome(frames: seq<Frame>, b: Books, segments: seq<Segment>)
    ensures var r, ranges := MapRanges(frames, b, LoadRanges(segments)).1, LoadRanges(segments);
            && (r == Mapped <==> Clear(b, ranges) && Cost(b.tables.Keys, PagesOf(ranges)) <= Free(frames, b))
            && (r == Failed(PageAlreadyMapped) <==> !Clear(b, ranges) && Reached(frames, b, ranges))
            && (r == Failed(FrameAllocationFailed) <==> !Reached(frames, b, ranges))
  {
    MapRangesExact(frames, b, LoadRanges(segments));
  }

  /** Two segments that share no byte but one page. */
  const TEXT: Segment := Segment(1, 0, 0x40_0000, 0x800, 0x800)
  const DATA: Segment := Segment(1, 0x800, 0x40_0800, 0x200, 0x200)

  /** Such an image can never be loaded; with five frames free it is the shared page that is reported. */
  lemma SharedPageNeverLoads(frames: seq<Frame>, b: Books)
    ensures TEXT.vaddr + TEXT.memsz <= DATA.vaddr
    ensures var r := MapRanges(frames, b, LoadRanges([TEXT, DATA])).1;
            r != Mapped && (Free(frames, b) >= 5 ==> r == Failed(PageAlreadyMapped))
  {
    var ranges := LoadRanges([TEXT, DATA]);
    SharedPageRanges();
    LoadOutcome(frames, b, [TEXT, DATA]);
    assert !Apart(ranges[0], ranges[1]);
    SharedPageCost(frames, b, 0x400, ranges);
  }

  lemma SharedPageRanges()
    ensures LoadRanges([TEXT, DATA]) == [Range(0x400, 0x400), Range(0x400, 0x400), STACK_RANGE]
  {
    assert SegmentRange(TEXT) == SegmentRange(DATA) == Range(0x400, 0x400);
    assert [TEXT, DATA][1..] == [DATA] && [DATA][1..] == [];
    assert LoadRanges([DATA]) == [Range(0x400, 0x400)] + LoadRanges([]);
    assert LoadRanges([TEXT, DATA]) == [Range(0x400, 0x400)] + LoadRanges([DATA]);
  }

  lemma SharedPagePages(page: Page, ranges: seq<Range>)
    requires |ranges| >= 2 && ranges[0] == ranges[1] == Range(page, page)
    ensures PagesOf(ranges) == [page] + ([page] + PagesOf(ranges[2..]))
  {
    assert ranges[1..][1..] == ranges[2..];
    assert PageSeq(page, page) == [page] + PageSeq(page + 1, page);
  }

  /** The second time a page costs only itself. */
  lemma SecondCost(tables: set<TableId>, page: Page)
    ensures PageCost(tables + Way(page), page) == 1
  {
    assert Way(page) - (tables + Way(page)) == {};
  }

  lemma TriedTwice(tables: set<TableId>, mapped: set<Page>, page: Page, rest: seq<Page>)
    ensures Cost(tables, Tried(mapped, [page] + ([page] + rest))) <= 5
  {
    TriedCost(tables, mapped, page, [page] + rest);
    TriedCost(tables + Way(page), mapped + {page}, page, rest);
    WayIsThree(page, tables);
    SecondCost(tables, page);
  }

  lemma SharedPageCost(frames: seq<Frame>, b: Books, page: Page, ranges: seq<Range>)
    requires |ranges| >= 2 && ranges[0] == ranges[1] == Range(page, page)
    ensures Cost(b.tables.Keys, Tried(b.pages.Keys, PagesOf(ranges))) <= 5
  {
    SharedPagePages(page, ranges);
    TriedTwice(b.tables.Keys, b.pages.Keys, page, PagesOf(ranges[2..]));
  }
}
