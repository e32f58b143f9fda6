/** The bytes of an ELF image, field by field, and that the loader reads exactly these fields. */
module ElfFormat {
  import opened Words
  import opened Frames
  import opened PagingModel
  import opened Paging
  import opened VirtualMemory
  import opened Loader

  /** A number of n bytes, the least significant first. */
  function LittleEndian(v: nat, n: nat): (bytes: seq<Byte>)
    ensures |bytes| == n
  {
    if n == 0 then [] else [v % 256] + LittleEndian(v / 256, n - 1)
  }

  /** A number and the bytes it takes in a packed structure. */
  datatype Packed = Packed(value: nat, width: nat)

  function Width(fields: seq<Packed>): nat {
    if fields == [] then 0 else fields[0].width + Width(fields[1..])
  }

  /** A packed structure: its fields one after the other, without gaps. */
  function Encode(fields: seq<Packed>): (bytes: seq<Byte>)
    ensures |bytes| == Width(fields)
  {
    if fields == [] then [] else LittleEndian(fields[0].value, fields[0].width) + Encode(fields[1..])
  }

  ghost predicate InRange(fields: seq<Packed>) {
    forall i :: 0 <= i < |fields| ==> fields[i].value < Pow256(fields[i].width)
  }

  /** `elf::Header` behind its sixteen identification bytes. */
  datatype FileHeader = FileHeader(kind: nat, machine: nat, version: nat, entry: nat, phoff: nat, shoff: nat, flags: nat,
                                   ehsize: nat, phentsize: nat, phnum: nat, shentsize: nat, shnum: nat, shstrndx: nat)

  function FileFields(h: FileHeader): seq<Packed> {
    [ Packed(h.kind, 2), Packed(h.machine, 2), Packed(h.version, 4), Packed(h.entry, 8), Packed(h.phoff, 8),
      Packed(h.shoff, 8), Packed(h.flags, 4), Packed(h.ehsize, 2), Packed(h.phentsize, 2), Packed(h.phnum, 2),
      Packed(h.shentsize, 2), Packed(h.shnum, 2), Packed(h.shstrndx, 2) ]
  }

  /** `elf::Program`. */
  datatype ProgramHeader = ProgramHeader(kind: nat, flags: nat, offset: nat, vaddr: nat, paddr: nat, filesz: nat, memsz: nat, align: nat)

  function ProgramFields(h: ProgramHeader): seq<Packed> {
    [ Packed(h.kind, 4), Packed(h.flags, 4), Packed(h.offset, 8), Packed(h.vaddr, 8),
      Packed(h.paddr, 8), Packed(h.filesz, 8), Packed(h.memsz, 8), Packed(h.align, 8) ]
  }

  /** The bytes stand in memory from address a on. */
  ghost predicate Holds(pages: map<Page, Frame>, m: seq<Byte>, a: nat, bytes: seq<Byte>) {
    forall k :: 0 <= k < |bytes| ==> Peek(pages, m, a + k) == bytes[k]
  }

  lemma HoldsParts(pages: map<Page, Frame>, m: seq<Byte>, a: nat, p: seq<Byte>, q: seq<Byte>)
    requires Holds(pages, m, a, p + q)
    ensures Holds(pages, m, a, p) && Holds(pages, m, a + |p|, q)
  {
    assert forall k :: 0 <= k < |p| ==> (p + q)[k] == p[k];
    forall k | 0 <= k < |q|
      ensures Peek(pages, m, a + |p| + k) == q[k]
    {
      assert (p + q)[|p| + k] == q[k];
    }
  }

  /** A field reads back the number that was encoded. */
  lemma {:induction false} FieldDecodes(pages: map<Page, Frame>, m: seq<Byte>, a: nat, v: nat, n: nat)
    requires v < Pow256(n) && Holds(pages, m, a, LittleEndian(v, n))
    ensures Field(pages, m, a, n) == v
    decreases n
  {
    if n > 0 {
      var low: seq<Byte> := [v % 256];
      HoldsParts(pages, m, a, low, LittleEndian(v / 256, n - 1));
      FieldDecodes(pages, m, a + 1, v / 256, n - 1);
      assert Peek(pages, m, a + 0) == low[0];
    }
  }

  /** The i-th field of a packed structure stands behind the widths of those before it. */
  lemma {:induction false} PackedField(pages: map<Page, Frame>, m: seq<Byte>, a: nat, fields: seq<Packed>, i: nat)
    requires i < |fields| && InRange(fields) && Holds(pages, m, a, Encode(fields))
    ensures Field(pages, m, a + Width(fields[..i]), fields[i].width) == fields[i].value
    decreases i
  {
    var f, rest := fields[0], fields[1..];
    HoldsParts(pages, m, a, LittleEndian(f.value, f.width), Encode(rest));
    if i == 0 {
      assert fields[..0] == [];
      FieldDecodes(pages, m, a, f.value, f.width);
    } else {
      assert fields[..i][0] == f && fields[..i][1..] == rest[..i - 1];
      assert InRange(rest) by {
        assert forall k :: 0 <= k < |rest| ==> rest[k] == fields[k + 1];
      }
      PackedField(pages, m, a + f.width, rest, i - 1);
    }
  }

  /** The width of a structure grows by each field. */
  lemma {:induction false} WidthNext(fields: seq<Packed>, i: nat)
    requires i < |fields|
    ensures Width(fields[..i + 1]) == Width(fields[..i]) + fields[i].width
    decreases i
  {
    if i == 0 {
      assert fields[..1][1..] == [] && fields[..0] == [];
    } else {
      assert fields[..i + 1][1..] == fields[1..][..i] && fields[..i][1..] == fields[1..][..i - 1];
      WidthNext(fields[1..], i - 1);
    }
  }

  lemma ProgramOffsets(h: ProgramHeader)
    ensures var f := ProgramFields(h);
            && Width(f[..0]) == 0 && Width(f[..2]) == 8 && Width(f[..3]) == 16 && Width(f[..5]) == 32 && Width(f[..6]) == 40
            && Width(f) == 56
  {
    var f := ProgramFields(h);
    WidthNext(f, 0);
    WidthNext(f, 1);
    WidthNext(f, 2);
    WidthNext(f, 3);
    WidthNext(f, 4);
    WidthNext(f, 5);
    WidthNext(f, 6);
    WidthNext(f, 7);
    assert f[..8] == f;
  }

  lemma FileOffsets(h: FileHeader)
    ensures var f := FileFields(h);
            Width(f[..3]) == 8 && Width(f[..4]) == 16 && Width(f[..9]) == 40
  {
    var f := FileFields(h);
    WidthNext(f, 0);
    WidthNext(f, 1);
    WidthNext(f, 2);
    WidthNext(f, 3);
    WidthNext(f, 4);
    WidthNext(f, 5);
    WidthNext(f, 6);
    WidthNext(f, 7);
    WidthNext(f, 8);
  }

  /** What the loader keeps of a program header. */
  function SegmentOf(h: ProgramHeader): Segment {
    Segment(h.kind, h.offset, h.vaddr, h.filesz, h.memsz)
  }

  /** Where the bytes of a program header stand, `SegmentAt` reads this header. */
  lemma ProgramDecoded(pages: map<Page, Frame>, m: seq<Byte>, a: nat, h: ProgramHeader)
    requires InRange(ProgramFields(h)) && Holds(pages, m, a, Encode(ProgramFields(h)))
    ensures SegmentAt(pages, m, a) == SegmentOf(h)
  {
    var f := ProgramFields(h);
    ProgramOffsets(h);
    PackedField(pages, m, a, f, 0);
    PackedField(pages, m, a, f, 2);
    PackedField(pages, m, a, f, 3);
    PackedField(pages, m, a, f, 5);
    PackedField(pages, m, a, f, 6);
  }

  /**
   * An ELF image at address elf: identification, file header, and the table of program headers,
   * fifty-six bytes each, at the offset that the file header names.
   */
  ghost predicate HoldsImage(pages: map<Page, Frame>, m: seq<Byte>, elf: nat, ident: seq<Byte>, eh: FileHeader, hs: seq<ProgramHeader>) {
    && |ident| == 16 && InRange(FileFields(eh)) && eh.phnum == |hs|
    && Holds(pages, m, elf, ident + Encode(FileFields(eh)))
    && forall i :: 0 <= i < |hs| ==>
         InRange(ProgramFields(hs[i])) && Holds(pages, m, elf + eh.phoff + 56 * i, Encode(ProgramFields(hs[i])))
  }

  lemma FileDecoded(pages: map<Page, Frame>, m: seq<Byte>, elf: nat, ident: seq<Byte>, eh: FileHeader)
    requires |ident| == 16 && InRange(FileFields(eh)) && Holds(pages, m, elf, ident + Encode(FileFields(eh)))
    ensures Entry(pages, m, elf) == eh.entry
    ensures ProgramTable(pages, m, elf) == elf + eh.phoff
    ensures ProgramCount(pages, m, elf) == eh.phnum
  {
    var f := FileFields(eh);
    HoldsParts(pages, m, elf, ident, Encode(f));
    FileOffsets(eh);
    PackedField(pages, m, elf + 16, f, 3);
    PackedField(pages, m, elf + 16, f, 4);
    PackedField(pages, m, elf + 16, f, 9);
  }

  /** The loader reads from an image its entry point and exactly its program headers, in order. */
  lemma ImageDecoded(pages: map<Page, Frame>, m: seq<Byte>, elf: nat, ident: seq<Byte>, eh: FileHeader, hs: seq<ProgramHeader>)
    requires HoldsImage(pages, m, elf, ident, eh, hs)
    ensures Entry(pages, m, elf) == eh.entry
    ensures |Segments(pages, m, elf)| == |hs|
    ensures forall i :: 0 <= i < |hs| ==> Segments(pages, m, elf)[i] == SegmentOf(hs[i])
  {
    FileDecoded(pages, m, elf, ident, eh);
    forall i | 0 <= i < |hs|
      ensures SegmentAt(pages, m, HeaderAddr(elf + eh.phoff, i)) == SegmentOf(hs[i])
    {
      ProgramDecoded(pages, m, elf + eh.phoff + 56 * i, hs[i]);
    }
  }

  /**
   * A loaded image in terms of its headers: every byte of every PT_LOAD segment is mapped, and is
   * the byte of the file at the segment's offset below p_filesz, and zero from there to p_memsz.
   */
  lemma ImageLoaded(p0: map<Page, Frame>, m0: seq<Byte>, p: map<Page, Frame>, m: seq<Byte>, elf: nat,
                    ident: seq<Byte>, eh: FileHeader, hs: seq<ProgramHeader>, i: nat, u: nat)
    requires HoldsImage(p0, m0, elf, ident, eh, hs)
    requires Loaded(p0, m0, p, m, elf, Segments(p0, m0, elf), |Segments(p0, m0, elf)|)
    requires i < |hs| && hs[i].kind == 1 && hs[i].vaddr <= u < hs[i].vaddr + hs[i].memsz
    ensures IsMapped(p, u)
    ensures Peek(p, m, u) == if u - hs[i].vaddr < hs[i].filesz then Peek(p0, m0, elf + hs[i].offset + (u - hs[i].vaddr)) else 0
  {
    ImageDecoded(p0, m0, elf, ident, eh, hs);
    var s := Segments(p0, m0, elf)[i];
    assert SegmentImage(p0, m0, p, m, elf, s);
  }

  /* ---- what is mapped for an image ---- */

  /** The pages mapped for a segment are exactly those that hold one of its bytes. */
  lemma SegmentPages(s: Segment, q: Page)
    requires s.memsz > 0
    ensures SegmentRange(s).first <= q <= SegmentRange(s).last <==> exists u: nat :: s.vaddr <= u < s.vaddr + s.memsz && u / 4096 == q
  {
    if SegmentRange(s).first <= q <= SegmentRange(s).last {
      var u := if q * 4096 < s.vaddr then s.vaddr else q * 4096;
      assert s.vaddr <= u < s.vaddr + s.memsz && u / 4096 == q;
    }
  }

  /** Number of segments that are loaded. */
  function Loads(segments: seq<Segment>): nat {
    if segments == [] then 0 else (if segments[0].kind == 1 then 1 else 0) + Loads(segments[1..])
  }

  /** The order of mapping: the segments that are loaded in the order of their headers, then five pages below 0x200000. */
  lemma {:induction false} MappingOrder(segments: seq<Segment>, i: nat)
    ensures |LoadRanges(segments)| == Loads(segments) + 1
    ensures LoadRanges(segments)[Loads(segments)] == Range(0x1fb, 0x1ff)
    ensures i < |segments| && segments[i].kind == 1 ==>
              Loads(segments[..i]) < Loads(segments) && LoadRanges(segments)[Loads(segments[..i])] == SegmentRange(segments[i])
    decreases |segments|
  {
    if segments != [] {
      var rest := segments[1..];
      MappingOrder(rest, if i > 0 then i - 1 else 0);
      if 0 < i < |segments| {
        assert segments[..i][0] == segments[0] && segments[..i][1..] == rest[..i - 1] && segments[i] == rest[i - 1];
      } else {
        assert segments[..0] == [];
      }
    }
  }
}
