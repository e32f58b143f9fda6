/** Bytes behind virtual addresses: what loads, stores and block copies do through a page map. */
module VirtualMemory {
  import opened Words
  import opened Frames
  import opened PagingModel
  import opened Paging

  predicate IsMapped(pages: map<Page, Frame>, v: nat) {
    v / 4096 in pages
  }

  predicate MappedRange(pages: map<Page, Frame>, v: nat, n: nat) {
    forall u: nat :: v <= u < v + n ==> IsMapped(pages, u)
  }

  function Phys(pages: map<Page, Frame>, v: nat): nat
    requires IsMapped(pages, v)
  {
    pages[v / 4096] * 4096 + v % 4096
  }

  /** All mapped frames exist. */
  ghost predicate Backed(pages: map<Page, Frame>, len: nat) {
    forall p :: p in pages ==> (pages[p] + 1) * 4096 <= len
  }

  /** The byte at a virtual address. */
  function Peek(pages: map<Page, Frame>, m: seq<Byte>, v: nat): Byte {
    if IsMapped(pages, v) && Phys(pages, v) < |m| then m[Phys(pages, v)] else 0
  }

  /** Byte k of a frame; beyond the end of memory there is nothing. */
  function FrameByte(m: seq<Byte>, f: Frame, k: nat): Byte {
    if f * 4096 + k < |m| then m[f * 4096 + k] else 0
  }

  /** Through its page a frame is seen byte by byte, in order. */
  lemma PageIsFrame(pages: map<Page, Frame>, m: seq<Byte>, p: Page, k: nat)
    requires p in pages && k < 4096
    ensures Peek(pages, m, p * 4096 + k) == FrameByte(m, pages[p], k)
  {
    assert (p * 4096 + k) / 4096 == p && (p * 4096 + k) % 4096 == k;
  }

  /** The address is mapped, and no other page shares its frame. */
  ghost predicate Exclusive(pages: map<Page, Frame>, v: nat) {
    IsMapped(pages, v) && forall q :: q in pages && q != v / 4096 ==> pages[q] != pages[v / 4096]
  }

  ghost predicate ExclusiveRange(pages: map<Page, Frame>, v: nat, n: nat) {
    forall u: nat :: v <= u < v + n ==> Exclusive(pages, u)
  }

  /** Every byte readable before is still there and unchanged. */
  ghost predicate Kept(pages: map<Page, Frame>, m: seq<Byte>, pages': map<Page, Frame>, m': seq<Byte>) {
    forall u: nat :: IsMapped(pages, u) ==> IsMapped(pages', u) && Peek(pages', m', u) == Peek(pages, m, u)
  }

  lemma KeptTransitive(p: map<Page, Frame>, m: seq<Byte>, p': map<Page, Frame>, m': seq<Byte>, p'': map<Page, Frame>, m'': seq<Byte>)
    requires Kept(p, m, p', m') && Kept(p', m', p'', m'')
    ensures Kept(p, m, p'', m'')
  {
  }

  /** Mapping new pages, with all it does to fresh frames, leaves every mapped byte alone. */
  lemma MappingKeeps(frames: seq<Frame>, b: Books, c: Books, m: seq<Byte>, m': seq<Byte>)
    requires Owned(frames, b) && Extends(b, c) && (forall f :: f in c.taken ==> f in frames)
    requires OnlyTables(b, m, c, m') && Backed(b.pages, |m|)
    ensures Kept(b.pages, m, c.pages, m')
  {
    forall u: nat | IsMapped(b.pages, u)
      ensures IsMapped(c.pages, u) && Peek(c.pages, m', u) == Peek(b.pages, m, u)
    {
      var p := u / 4096;
      var f := b.pages[p];
      assert c.pages[p] == f;
      assert f !in c.taken - b.taken;
      assert f !in NewTables(b, c);
      var i := Phys(b.pages, u);
      assert i / 4096 == f;
    }
  }

  /** A store changes the byte it names and no other, if the page's frame is not shared. */
  lemma PokePeek(pages: map<Page, Frame>, m: seq<Byte>, v: nat, b: Byte, u: nat)
    requires Backed(pages, |m|) && Exclusive(pages, v) && IsMapped(pages, u)
    ensures Phys(pages, v) < |m|
    ensures Peek(pages, m[Phys(pages, v) := b], u) == if u == v then b else Peek(pages, m, u)
  {
    assert (pages[v / 4096] + 1) * 4096 <= |m|;
    assert (pages[u / 4096] + 1) * 4096 <= |m|;
  }

  method Store(mapper: Mapper, v: nat, b: Byte)
    requires Backed(mapper.pages, mapper.phys.Length) && Exclusive(mapper.pages, v)
    modifies mapper.phys
    ensures Phys(mapper.pages, v) < mapper.phys.Length
    ensures mapper.phys[..] == old(mapper.phys[..])[Phys(mapper.pages, v) := b]
    ensures forall u: nat :: IsMapped(mapper.pages, u) ==>
              Peek(mapper.pages, mapper.phys[..], u) == if u == v then b else Peek(mapper.pages, old(mapper.phys[..]), u)
  {
    ghost var m := mapper.phys[..];
    PokePeek(mapper.pages, m, v, b, v);
    mapper.phys[Phys(mapper.pages, v)] := b;
    forall u: nat | IsMapped(mapper.pages, u)
      ensures Peek(mapper.pages, mapper.phys[..], u) == if u == v then b else Peek(mapper.pages, m, u)
    {
      PokePeek(mapper.pages, m, v, b, u);
    }
  }

  /** The frames behind a range of addresses. */
  ghost function FramesBehind(pages: map<Page, Frame>, v: nat, n: nat): set<Frame> {
    set u | v <= u < v + n && IsMapped(pages, u) :: pages[u / 4096]
  }

  /** A store changes a byte of the frame behind its address. */
  lemma StoreInFrame(pages: map<Page, Frame>, m: seq<Byte>, v: nat, b: Byte, from: nat, n: nat)
    requires IsMapped(pages, v) && Phys(pages, v) < |m| && from <= v < from + n
    ensures SameOutside(m, m[Phys(pages, v) := b], FramesBehind(pages, from, n))
  {
    assert pages[v / 4096] in FramesBehind(pages, from, n);
    assert Phys(pages, v) / 4096 == pages[v / 4096];
  }

  /** After a block copy: the destination holds what the source held, all else is unchanged. */
  ghost predicate Copied(pages: map<Page, Frame>, m: seq<Byte>, m': seq<Byte>, src: nat, dst: nat, n: nat) {
    forall u: nat {:trigger Peek(pages, m', u)} :: IsMapped(pages, u) ==>
      Peek(pages, m', u) == if dst <= u < dst + n then Peek(pages, m, src + (u - dst)) else Peek(pages, m, u)
  }

  lemma CopiedStep(pages: map<Page, Frame>, m: seq<Byte>, m1: seq<Byte>, m2: seq<Byte>, src: nat, dst: nat, k: nat)
    requires Copied(pages, m, m1, src, dst, k) && IsMapped(pages, src + k) && !(dst <= src + k < dst + k)
    requires forall u: nat {:trigger Peek(pages, m2, u)} :: IsMapped(pages, u) ==>
               Peek(pages, m2, u) == if u == dst + k then Peek(pages, m1, src + k) else Peek(pages, m1, u)
    ensures Copied(pages, m, m2, src, dst, k + 1)
  {
    assert Peek(pages, m1, src + k) == Peek(pages, m, src + k);
    forall u: nat | IsMapped(pages, u)
      ensures Peek(pages, m2, u) == if dst <= u < dst + (k + 1) then Peek(pages, m, src + (u - dst)) else Peek(pages, m, u)
    {
      assert Peek(pages, m1, u) == if dst <= u < dst + k then Peek(pages, m, src + (u - dst)) else Peek(pages, m, u);
    }
  }

  /** `copy_nonoverlapping`. */
  method CopyNonoverlapping(mapper: Mapper, src: nat, dst: nat, n: nat)
    requires Backed(mapper.pages, mapper.phys.Length)
    requires MappedRange(mapper.pages, src, n) && ExclusiveRange(mapper.pages, dst, n)
    requires src + n <= dst || dst + n <= src
    modifies mapper.phys
    ensures Copied(mapper.pages, old(mapper.phys[..]), mapper.phys[..], src, dst, n)
    ensures SameOutside(old(mapper.phys[..]), mapper.phys[..], FramesBehind(mapper.pages, dst, n))
  {
    ghost var pages, m := mapper.pages, mapper.phys[..];
    var k := 0;
    while k < n
      invariant 0 <= k <= n && Copied(pages, m, mapper.phys[..], src, dst, k)
      invariant SameOutside(m, mapper.phys[..], FramesBehind(pages, dst, n))
    {
      ghost var m1 := mapper.phys[..];
      assert IsMapped(pages, src + k) && Exclusive(pages, dst + k);
      Store(mapper, dst + k, Peek(mapper.pages, mapper.phys[..], src + k));
      CopiedStep(pages, m, m1, mapper.phys[..], src, dst, k);
      StoreInFrame(pages, m1, dst + k, Peek(pages, m1, src + k), dst, n);
      k := k + 1;
    }
  }

  /** After a fill: the range holds zeros, all else is unchanged. */
  ghost predicate Zeroed(pages: map<Page, Frame>, m: seq<Byte>, m': seq<Byte>, dst: nat, n: nat) {
    forall u: nat :: IsMapped(pages, u) ==>
      Peek(pages, m', u) == if dst <= u < dst + n then 0 else Peek(pages, m, u)
  }

  /** `write_bytes` with zero. */
  method WriteZeros(mapper: Mapper, dst: nat, n: nat)
    requires Backed(mapper.pages, mapper.phys.Length) && ExclusiveRange(mapper.pages, dst, n)
    modifies mapper.phys
    ensures Zeroed(mapper.pages, old(mapper.phys[..]), mapper.phys[..], dst, n)
    ensures SameOutside(old(mapper.phys[..]), mapper.phys[..], FramesBehind(mapper.pages, dst, n))
  {
    ghost var pages, m := mapper.pages, mapper.phys[..];
    var k := 0;
    while k < n
      invariant 0 <= k <= n && Zeroed(pages, m, mapper.phys[..], dst, k)
      invariant SameOutside(m, mapper.phys[..], FramesBehind(pages, dst, n))
    {
      ghost var m1 := mapper.phys[..];
      assert Exclusive(pages, dst + k);
      Store(mapper, dst + k, 0);
      StoreInFrame(pages, m1, dst + k, 0, dst, n);
      k := k + 1;
    }
  }

  /* ---- little-endian fields ---- */

  function Pow256(n: nat): nat {
    if n == 0 then 1 else 256 * Pow256(n - 1)
  }

  /** The n-byte little-endian number at an address. */
  function Field(pages: map<Page, Frame>, m: seq<Byte>, a: nat, n: nat): nat
    decreases n, m
  {
    if n == 0 then 0 else Peek(pages, m, a) + 256 * Field(pages, m, a + 1, n - 1)
  }

  lemma {:induction false} KeptField(p: map<Page, Frame>, m: seq<Byte>, p': map<Page, Frame>, m': seq<Byte>, a: nat, n: nat)
    requires Kept(p, m, p', m') && MappedRange(p, a, n)
    ensures Field(p', m', a, n) == Field(p, m, a, n)
    decreases n
  {
    if n > 0 {
      assert IsMapped(p, a);
      KeptField(p, m, p', m', a + 1, n - 1);
    }
  }

  /** The memories agree on all mapped addresses outside the range. */
  ghost predicate Elsewhere(pages: map<Page, Frame>, m: seq<Byte>, m': seq<Byte>, a: nat, n: nat) {
    forall u: nat :: IsMapped(pages, u) && !(a <= u < a + n) ==> Peek(pages, m', u) == Peek(pages, m, u)
  }

  /** Stores an n-byte little-endian number. */
  method StoreField(mapper: Mapper, a: nat, value: nat, n: nat)
    requires Backed(mapper.pages, mapper.phys.Length) && ExclusiveRange(mapper.pages, a, n) && value < Pow256(n)
    modifies mapper.phys
    ensures Elsewhere(mapper.pages, old(mapper.phys[..]), mapper.phys[..], a, n)
    ensures Field(mapper.pages, mapper.phys[..], a, n) == value
    decreases n
  {
    if n > 0 {
      ghost var pages, m := mapper.pages, mapper.phys[..];
      assert Exclusive(pages, a);
      Store(mapper, a, value % 256);
      ghost var m1 := mapper.phys[..];
      StoreField(mapper, a + 1, value / 256, n - 1);
      assert Peek(pages, mapper.phys[..], a) == Peek(pages, m1, a) == value % 256;
    }
  }

  lemma {:induction false} ElsewhereField(pages: map<Page, Frame>, m: seq<Byte>, m': seq<Byte>, a: nat, n: nat, b: nat, k: nat)
    requires Elsewhere(pages, m, m', a, n) && MappedRange(pages, b, k) && (b + k <= a || a + n <= b)
    ensures Field(pages, m', b, k) == Field(pages, m, b, k)
    decreases k
  {
    if k > 0 {
      assert IsMapped(pages, b);
      ElsewhereField(pages, m, m', a, n, b + 1, k - 1);
    }
  }
}
