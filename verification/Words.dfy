/** 64-bit machine words and the bit trick that rounds an address up to an alignment. */
module Words {
  import opened Wrappers

  type Byte = x: int | 0 <= x < 256

  /** Number of values of a `usize` or `u64`. */
  const WORD_LIMIT: nat := 0x1_0000_0000_0000_0000

  type Word = x: int | 0 <= x < 0x1_0000_0000_0000_0000

  function Pow2(k: nat): (p: nat)
    ensures p >= 1
  {
    if k == 0 then 1 else 2 * Pow2(k - 1)
  }

  ghost predicate IsPow2(a: nat) {
    exists k: nat :: a == Pow2(k)
  }

  /** Bitwise conjunction of two natural numbers, bit by bit. */
  function And(x: nat, y: nat): nat {
    if x == 0 || y == 0 then 0 else (x % 2) * (y % 2) + 2 * And(x / 2, y / 2)
  }

  /** Bitwise complement of a 64-bit word. */
  function Not(x: nat): nat
    requires x < WORD_LIMIT
  {
    WORD_LIMIT - 1 - x
  }

  /**
   * `align_up`. The sum is checked, so an address too close to the end of the address space
   * panics (None); otherwise the low bits are masked off.
   */
  function AlignUp(addr: nat, align: nat): Option<nat> {
    if addr + align >= WORD_LIMIT || addr + align == 0 then
      None
    else
      Some(And(addr + align - 1, Not((align + WORD_LIMIT - 1) % WORD_LIMIT)))
  }

  /** The same expression in a build without overflow checks: the sum wraps. */
  function AlignUpWrapping(addr: nat, align: nat): nat {
    And((addr + align + WORD_LIMIT - 1) % WORD_LIMIT, Not((align + WORD_LIMIT - 1) % WORD_LIMIT))
  }

  /** The least multiple of `align` that is not below `addr`. */
  function RoundUp(addr: nat, align: nat): nat
    requires align > 0
  {
    if addr % align == 0 then addr else addr - addr % align + align
  }

  /** The interrupt flag of the flags register, and the flags with it set. */
  const IF: nat := 0x200

  function WithInterrupts(rflags: nat): nat {
    if (rflags / 0x200) % 2 == 1 then rflags else rflags + IF
  }

  /** In w the interrupt flag, bit 9, is set, and every other bit is that of rflags. */
  predicate InterruptsOn(w: nat, rflags: nat) {
    (w / 0x200) % 2 == 1 && w % 0x200 == rflags % 0x200 && w / 0x400 == rflags / 0x400
  }

  lemma FlagIsSet(rflags: nat)
    ensures InterruptsOn(WithInterrupts(rflags), rflags)
  {
    var high, bit, low := rflags / 0x400, (rflags / 0x200) % 2, rflags % 0x200;
    assert rflags == 0x400 * high + 0x200 * bit + low;
    var w := WithInterrupts(rflags);
    assert w == 0x400 * high + 0x200 + low;
    QuotRem(w, 0x400, high, 0x200 + low);
    QuotRem(w, 0x200, 2 * high + 1, low);
    QuotRem(rflags, 0x400, high, 0x200 * bit + low);
  }

  /* ---- arithmetic helpers ---- */

  lemma HalfMod(x: nat, p: nat)
    requires p > 0
    ensures x % (2 * p) == 2 * ((x / 2) % p) + x % 2
  {
    var q, r := (x / 2) / p, (x / 2) % p;
    assert x == 2 * (q * p + r) + x % 2;
    assert 2 * (q * p) == q * (2 * p) by { MulComm(q, p); }
    QuotRem(x, 2 * p, q, 2 * r + x % 2);
  }

  lemma MulComm(q: nat, p: nat)
    ensures 2 * (q * p) == q * (2 * p)
  {
  }

  lemma QuotRem(x: nat, d: nat, q: nat, r: nat)
    requires d > 0 && r < d && x == q * d + r
    ensures x / d == q && x % d == r
  {
    var q', r' := x / d, x % d;
    assert x == q' * d + r';
    if q' < q {
      MulStep(q', q, d);
    } else if q < q' {
      MulStep(q, q', d);
    }
  }

  lemma MulStep(a: nat, b: nat, d: nat)
    requires a < b
    ensures b * d >= a * d + d
  {
    assert (b - a - 1) * d >= 0;
    assert b * d == a * d + d + (b - a - 1) * d;
  }

  lemma {:induction false} AndAllOnes(x: nat, n: nat)
    requires x < Pow2(n)
    ensures And(x, Pow2(n) - 1) == x
  {
    if n > 0 {
      AndAllOnes(x / 2, n - 1);
      AndOdd(x, Pow2(n - 1) - 1);
    }
  }

  lemma AndDouble(x: nat, y: nat, z: nat, r: nat)
    requires And(x / 2, y) == x / 2 - r && z == 2 * y
    ensures And(x, z) == x - (2 * r + x % 2)
  {
    AndEven(x, y);
  }

  lemma ModDouble(x: nat, p: nat, d: nat)
    requires p > 0 && d == 2 * p
    ensures x % d == 2 * ((x / 2) % p) + x % 2
  {
    HalfMod(x, p);
  }

  lemma Pow2Step(k: nat)
    requires k > 0
    ensures Pow2(k) == 2 * Pow2(k - 1)
  {
  }

  /** Masking with the complement of `2^k - 1` clears the low k bits. */
  lemma {:induction false} AndMask(x: nat, k: nat, n: nat, mask: nat, p: nat)
    requires k <= n && x < Pow2(n) && p == Pow2(k) && mask + p == Pow2(n)
    ensures And(x, mask) == x - x % p
  {
    if k == 0 {
      AndAllOnes(x, n);
      QuotRem(x, 1, x, 0);
    } else {
      var q := Pow2(k - 1);
      Pow2Step(k);
      Pow2Step(n);
      Pow2Monotone(k - 1, n - 1);
      var half := Pow2(n - 1) - q;
      AndMask(x / 2, k - 1, n - 1, half, q);
      AndDouble(x, half, mask, (x / 2) % q);
      ModDouble(x, q, p);
    }
  }

  lemma AndOdd(x: nat, y: nat)
    ensures And(x, 2 * y + 1) == x % 2 + 2 * And(x / 2, y)
  {
    assert (2 * y + 1) % 2 == 1 && (2 * y + 1) / 2 == y;
  }

  lemma AndEven(x: nat, y: nat)
    ensures And(x, 2 * y) == 2 * And(x / 2, y)
  {
    assert (2 * y) % 2 == 0 && (2 * y) / 2 == y;
  }

  lemma {:induction false} Pow2Monotone(j: nat, k: nat)
    requires j <= k
    ensures Pow2(j) <= Pow2(k)
  {
    if j < k {
      Pow2Monotone(j, k - 1);
    }
  }

  lemma Pow2Word()
    ensures Pow2(64) == WORD_LIMIT
    ensures Pow2(3) == 8
    ensures Pow2(31) == 0x8000_0000
    ensures Pow2(32) == 0x1_0000_0000
  {
    assert Pow2(8) == 0x100;
    assert Pow2(16) == 0x1_0000;
    assert Pow2(24) == 0x100_0000;
    assert Pow2(31) == 0x8000_0000;
    assert Pow2(40) == 0x100_0000_0000;
    assert Pow2(48) == 0x1_0000_0000_0000;
    assert Pow2(56) == 0x100_0000_0000_0000;
  }

  /** A power of two that is a word has its exponent below 64. */
  lemma Exponent(align: nat) returns (k: nat)
    requires IsPow2(align) && align < WORD_LIMIT
    ensures k < 64 && align == Pow2(k)
  {
    k :| align == Pow2(k);
    Pow2Word();
    if k >= 64 {
      Pow2Monotone(64, k);
    }
  }

  lemma MaskIsRoundDown(x: nat, align: nat)
    requires IsPow2(align) && x < WORD_LIMIT && align < WORD_LIMIT
    ensures And(x, Not(align - 1)) == x - x % align
  {
    var k := Exponent(align);
    Pow2Word();
    Pow2Monotone(k, 64);
    AndMask(x, k, 64, Not(align - 1), align);
  }

  lemma RoundUpBounds(addr: nat, align: nat)
    requires align > 0
    ensures addr <= RoundUp(addr, align) < addr + align
    ensures RoundUp(addr, align) % align == 0
    ensures RoundUp(addr, align) == (addr + align - 1) - (addr + align - 1) % align
  {
    var q, r := addr / align, addr % align;
    assert addr == q * align + r;
    if r == 0 {
      QuotRem(addr + align - 1, align, q, align - 1);
    } else {
      assert (q + 1) * align == q * align + align;
      QuotRem(addr + align - 1, align, q + 1, r - 1);
      QuotRem(RoundUp(addr, align), align, q + 1, 0);
    }
  }

  /** No multiple of `align` lies between `addr` and its rounding. */
  lemma RoundUpLeast(addr: nat, align: nat, m: nat)
    requires align > 0 && m % align == 0 && m >= addr
    ensures RoundUp(addr, align) <= m
  {
    RoundUpBounds(addr, align);
    var a := RoundUp(addr, align);
    var i, j := m / align, a / align;
    assert m == i * align && a == j * align;
    if i < j {
      MulStep(i, j, align);
    } else if j < i {
      MulStep(j, i, align);
    }
  }

  /**
   * The bit trick computes the least multiple of the alignment that is not below the address,
   * exactly when the sum fits a word; otherwise it panics.
   */
  lemma AlignUpCorrect(addr: nat, align: nat)
    requires IsPow2(align)
    ensures AlignUp(addr, align) == if addr + align < WORD_LIMIT then Some(RoundUp(addr, align)) else None
  {
    if addr + align < WORD_LIMIT {
      RoundingMask(addr, align);
    }
  }

  lemma LowMask(x: nat)
    requires 1 <= x <= WORD_LIMIT
    ensures (x + WORD_LIMIT - 1) % WORD_LIMIT == x - 1
  {
  }

  lemma WrapOnce(x: nat)
    requires x < WORD_LIMIT
    ensures (x + WORD_LIMIT + WORD_LIMIT) % WORD_LIMIT == x
  {
  }

  lemma RoundingMask(addr: nat, align: nat)
    requires IsPow2(align) && align < WORD_LIMIT && addr + align <= WORD_LIMIT
    ensures And(addr + align - 1, Not((align + WORD_LIMIT - 1) % WORD_LIMIT)) == RoundUp(addr, align)
  {
    LowMask(align);
    MaskIsRoundDown(addr + align - 1, align);
    RoundUpBounds(addr, align);
  }

  lemma WrappedMask(x: nat, align: nat)
    requires IsPow2(align) && x + 1 < align < WORD_LIMIT
    ensures And(x, Not((align + WORD_LIMIT - 1) % WORD_LIMIT)) == 0
  {
    LowMask(align);
    MaskIsRoundDown(x, align);
    QuotRem(x, align, 0, x);
  }

  /**
   * Without overflow checks the expression still rounds up while the sum stays a word, and
   * gives address zero once it wraps.
   */
  lemma AlignUpWrappingCorrect(addr: nat, align: nat)
    requires IsPow2(align) && addr < WORD_LIMIT && align < WORD_LIMIT
    ensures AlignUpWrapping(addr, align) == if addr + align <= WORD_LIMIT then RoundUp(addr, align) else 0
  {
    if addr + align <= WORD_LIMIT {
      LowMask(addr + align);
      RoundingMask(addr, align);
    } else {
      var x := addr + align - 1 - WORD_LIMIT;
      WrapOnce(x);
      assert addr + align + WORD_LIMIT - 1 == x + WORD_LIMIT + WORD_LIMIT;
      WrappedMask(x, align);
    }
  }

  lemma ModTrans(x: nat, a: nat, b: nat)
    requires a > 0 && b > 0 && x % a == 0 && a % b == 0
    ensures x % b == 0
  {
    var q, p := x / a, a / b;
    assert x == q * a && a == p * b;
    MulAssoc(q, p, b);
    QuotRem(x, b, q * p, 0);
  }

  lemma MulAssoc(q: nat, p: nat, b: nat)
    ensures q * (p * b) == (q * p) * b
  {
  }

  /** A multiple of a power of two that is at least 8 is a multiple of 8. */
  lemma MultipleOfEight(x: nat, align: nat)
    requires IsPow2(align) && align >= 8 && x % align == 0
    ensures align % 8 == 0 && x % 8 == 0
  {
    var k: nat :| align == Pow2(k);
    if k < 3 {
      Pow2Monotone(k, 2);
    } else {
      EightDivides(k);
      ModTrans(x, align, 8);
    }
  }

  lemma {:induction false} EightDivides(k: nat)
    requires k >= 3
    ensures Pow2(k) % 8 == 0
  {
    if k > 3 {
      EightDivides(k - 1);
    } else {
      Pow2Word();
    }
  }
}
