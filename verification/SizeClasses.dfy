/** Request sizes, chunk sizes and the size classes (fastbins, small bins,
    large bins) of the allocator, on the i386 build: SIZE_SZ = 4,
    MALLOC_ALIGNMENT = 8, MINSIZE = 16. */
module SizeClasses {
  import opened MachineWord

  const SIZE_SZ := 4
  const MINSIZE := 16
  const NBINS := 96
  const NSMALLBINS := 32
  const NFASTBINS := 10
  const MIN_LARGE_SIZE := 256
  const FAST_LIMIT := 72

  /** A size an allocator chunk may have. */
  predicate LegalSize(size: int) {
    MINSIZE <= size && Aligned(size)
  }

  predicate Aligned(x: int) { x % 8 == 0 }

  lemma AlignedSum(x: int, y: int)
    requires Aligned(x)
    ensures Aligned(y) <==> Aligned(x + y)
    ensures Aligned(y) <==> Aligned(x - y)
  {
    var k, q, m := x / 8, y / 8, y % 8;
    assert x == 8 * k && y == 8 * q + m;
    assert x + y == 8 * (k + q) + m;
    assert x - y == 8 * (k - q) - m;
  }

  predicate RequestOutOfRange(request: nat) {
    request >= WORD - 2 * MINSIZE
  }

  /** The chunk size serving a request; `/ 8 * 8` is the mask with ~7. */
  function Request2Size(request: nat): (size: nat)
    ensures LegalSize(size) && request <= size - SIZE_SZ
    ensures forall other :: LegalSize(other) && request <= other - SIZE_SZ ==> size <= other
  {
    if request + SIZE_SZ + 7 < MINSIZE then MINSIZE else (request + SIZE_SZ + 7) / 8 * 8
  }

  /** Padding a chunk size back to a request and forward again is the identity:
      what the retry after consolidation asks for is the same chunk size. */
  lemma RetryAsksForSameSize(nb: nat)
    requires LegalSize(nb)
    ensures Request2Size(nb - 7) == nb
    ensures !RequestOutOfRange(nb) ==> !RequestOutOfRange(nb - 7)
  {
    assert (nb - 7 + 11) / 8 * 8 == nb;
  }

  predicate InSmallbinRange(size: int) { size < MIN_LARGE_SIZE }

  function SmallbinIndex(size: nat): nat { size / 8 }

  function FastbinIndex(size: int): int { size / 8 - 2 }

  function Pow2(k: nat): (r: nat)
    ensures r >= 1
  {
    if k == 0 then 1 else 2 * Pow2(k - 1)
  }

  /** `x >> n` on a non-negative word. */
  function Shr(x: nat, n: nat): nat { if n == 0 then x else Shr(x / 2, n - 1) }

  /** The `bsrl` instruction: the position of the highest set bit. */
  function Bsr(x: nat): (m: nat)
    requires x > 0
    ensures Pow2(m) <= x < 2 * Pow2(m)
  {
    if x == 1 then 0 else 1 + Bsr(x / 2)
  }

  /** `largebin_index`: the top bit and the next two bits pick one of four
      bins per power of two. */
  function LargebinIndex(size: nat): nat
    requires size >= MIN_LARGE_SIZE
  {
    var x := size / 256;
    if x >= 0x10000 then NBINS - 1
    else
      var m := Bsr(x);
      NSMALLBINS + 4 * m + Shr(size, m + 6) % 4
  }

  function BinIndex(size: nat): nat {
    if InSmallbinRange(size) then SmallbinIndex(size) else LargebinIndex(size)
  }

  lemma {:induction false} Pow2Add(a: nat, b: nat)
    ensures Pow2(a + b) == Pow2(a) * Pow2(b)
  {
    if a > 0 {
      Pow2Add(a - 1, b);
      calc {
        Pow2(a + b);
        2 * Pow2(a - 1 + b);
        2 * (Pow2(a - 1) * Pow2(b));
        Pow2(a) * Pow2(b);
      }
    }
  }

  lemma {:induction false} Pow2Monotone(a: nat, b: nat)
    requires a <= b
    ensures Pow2(a) <= Pow2(b)
  {
    if a < b { Pow2Monotone(a, b - 1); }
  }

  lemma {:induction false} ShrMonotone(x: nat, y: nat, n: nat)
    requires x <= y
    ensures Shr(x, n) <= Shr(y, n)
  {
    if n > 0 { ShrMonotone(x / 2, y / 2, n - 1); }
  }

  /** Shifting right undoes multiplying by a power of two. */
  lemma {:induction false} ShrOfMultiple(c: nat, n: nat)
    ensures Shr(c * Pow2(n), n) == c
  {
    if n > 0 {
      var half := c * Pow2(n - 1);
      assert c * Pow2(n) == 2 * half;
      assert 2 * half / 2 == half;
      ShrOfMultiple(c, n - 1);
    }
  }

  lemma {:induction false} ShrBelow(x: nat, c: nat, n: nat)
    requires x < c * Pow2(n)
    ensures Shr(x, n) < c
  {
    if n > 0 {
      assert c * Pow2(n) == 2 * (c * Pow2(n - 1));
      ShrBelow(x / 2, c, n - 1);
    }
  }

  /** Where a large size falls: its power of two and its quarter of it. */
  lemma LargebinShape(size: nat) returns (m: nat, quarter: nat)
    requires MIN_LARGE_SIZE <= size < 0x100_0000
    ensures m == Bsr(size / 256) && m <= 15
    ensures 256 * Pow2(m) <= size < 512 * Pow2(m)
    ensures quarter == Shr(size, m + 6) - 4 && 0 <= quarter < 4
    ensures LargebinIndex(size) == NSMALLBINS + 4 * m + quarter
  {
    hide Shr;
    var x := size / 256;
    m := Bsr(x);
    TopBitAtMost15(x, m);
    assert 256 * Pow2(m) <= size < 512 * Pow2(m);
    QuarterBounds(size, m);
    quarter := Shr(size, m + 6) - 4;
  }

  lemma QuarterBounds(size: nat, m: nat)
    requires 256 * Pow2(m) <= size < 512 * Pow2(m)
    ensures 4 <= Shr(size, m + 6) <= 7
  {
    Pow2Add(m, 6);
    Pow2Of6();
    ShrOfMultiple(4, m + 6);
    ShrMonotone(4 * Pow2(m + 6), size, m + 6);
    ShrBelow(size, 8, m + 6);
  }

  lemma Pow2Of6()
    ensures Pow2(6) == 64
  {
    assert Pow2(3) == 8;
  }

  lemma TopBitAtMost15(x: nat, m: nat)
    requires Pow2(m) <= x < 0x10000
    ensures m <= 15
  {
    Pow2Add(6, 10);
    Pow2Add(6, 4);
    Pow2Of6();
    assert Pow2(4) == 16;
    if m >= 16 { Pow2Monotone(16, m); }
  }

  /** Every size has a bin, and larger sizes never have lower bins. */
  lemma BinIndexInRange(size: nat)
    requires MINSIZE <= size
    ensures 2 <= BinIndex(size) < NBINS
    ensures InSmallbinRange(size) <==> BinIndex(size) < NSMALLBINS
  {
    if !InSmallbinRange(size) && size < 0x100_0000 {
      var m, quarter := LargebinShape(size);
    }
  }

  lemma BinIndexMonotone(a: nat, b: nat)
    requires a <= b
    ensures BinIndex(a) <= BinIndex(b)
  {
    hide LargebinIndex;
    if !InSmallbinRange(a) {
      LargebinMonotone(a, b);
    } else if !InSmallbinRange(b) {
      BinIndexInRange(b);
    }
  }

  lemma LargebinMonotone(a: nat, b: nat)
    requires MIN_LARGE_SIZE <= a <= b
    ensures LargebinIndex(a) <= LargebinIndex(b)
  {
    if b >= 0x100_0000 {
      BinIndexInRange(a);
    } else {
      hide Bsr, LargebinIndex, Shr;
      var ma, qa := LargebinShape(a);
      var mb, qb := LargebinShape(b);
      TopBitOrder(a, ma, b, mb);
      if ma == mb { ShrMonotone(a, b, ma + 6); }
    }
  }

  lemma TopBitOrder(a: nat, ma: nat, b: nat, mb: nat)
    requires 256 * Pow2(ma) <= a <= b < 512 * Pow2(mb)
    ensures ma <= mb
  {
    if mb < ma { Pow2Monotone(mb + 1, ma); }
  }

  lemma Doubled(a: nat, b: nat)
    ensures a * (2 * b) == 2 * (a * b)
  {
  }

  lemma {:induction false} ShrBounds(x: nat, n: nat)
    ensures Shr(x, n) * Pow2(n) <= x < (Shr(x, n) + 1) * Pow2(n)
  {
    if n > 0 {
      var h, p := Shr(x / 2, n - 1), Pow2(n - 1);
      ShrBounds(x / 2, n - 1);
      assert Pow2(n) == 2 * p && Shr(x, n) == h;
      hide Pow2, Shr;
      Doubled(h, p);
      Doubled(h + 1, p);
    }
  }

  lemma QuarterOf(q: nat, p: nat)
    requires q < 4
    ensures 4 * p <= (4 + q) * p && (5 + q) * p <= 8 * p
  {
    assert q == 0 || q == 1 || q == 2 || q == 3;
  }

  /** The large bins cut every power of two into quarters: quarter q of 256 * 2^m has
      a bin of its own, which holds those sizes and no others. */
  lemma LargebinSpan(size: nat, m: nat, q: nat)
    requires MIN_LARGE_SIZE <= size < 0x100_0000 && m <= 15 && q < 4
    ensures BinIndex(size) == NSMALLBINS + 4 * m + q <==> (4 + q) * Pow2(m + 6) <= size < (5 + q) * Pow2(m + 6)
  {
    hide Shr, Bsr, LargebinIndex;
    var m', q' := LargebinShape(size);
    if (4 + q) * Pow2(m + 6) <= size < (5 + q) * Pow2(m + 6) {
      QuarterFound(size, m, q, m', q');
    } else if m == m' && q == q' {
      ShrBounds(size, m + 6);
    }
  }

  lemma QuarterFound(size: nat, m: nat, q: nat, m': nat, q': nat)
    requires (4 + q) * Pow2(m + 6) <= size < (5 + q) * Pow2(m + 6) && q < 4
    requires 256 * Pow2(m') <= size < 512 * Pow2(m') && q' == Shr(size, m' + 6) - 4
    ensures m == m' && q == q'
  {
    var p := Pow2(m + 6);
    assert 4 * p == 256 * Pow2(m) by { Pow2Add(m, 6); Pow2Of6(); }
    hide Shr, Pow2;
    QuarterOf(q, p);
    TopBitOrder(size, m, size, m');
    TopBitOrder(size, m', size, m);
    ShrOfMultiple(4 + q, m + 6);
    ShrMonotone((4 + q) * p, size, m + 6);
    ShrBelow(size, 5 + q, m + 6);
  }

  /** The last bin begins at 14 MB and has no end. */
  lemma LastBin(size: nat)
    requires size >= MIN_LARGE_SIZE
    ensures BinIndex(size) == NBINS - 1 <==> size >= 7 * Pow2(21)
  {
    assert Pow2(21) == 0x20_0000 by { Pow2Of6(); Pow2Add(6, 15); Pow2Add(6, 9); Pow2Add(6, 3); }
    if size < 0x100_0000 { LargebinSpan(size, 15, 3); }
  }

  /** Any chunk of a later bin is big enough for a request of this bin. */
  lemma LaterBinFits(nb: nat, size: nat)
    requires BinIndex(nb) < BinIndex(size)
    ensures nb < size
  {
    if size <= nb { BinIndexMonotone(size, nb); }
  }

  /** A small bin holds one size. */
  lemma SmallbinExact(a: nat, b: nat)
    requires LegalSize(a) && LegalSize(b) && BinIndex(a) == BinIndex(b) && InSmallbinRange(a)
    ensures a == b
  {
    BinIndexInRange(a);
    BinIndexInRange(b);
  }

  // ----- The portable top-bit computation -----

  /** `((x - bound) >> 16) & bit` on 32-bit words: the borrow of the subtraction. */
  function Borrow(x: nat, bound: nat, bit: nat): nat
    requires bit > 0
  {
    (x - bound) % WORD / 0x10000 / bit % 2 * bit
  }

  /** `x << n` on 32-bit words. */
  function Shl(x: nat, n: nat): nat { x * Pow2(n) % WORD }

  /** The branch-free count of leading zeros that stands in for `bsrl`. */
  function PortableTopBit(x0: nat): int {
    var n1 := Borrow(x0, 0x100, 8);
    var x1 := Shl(x0, n1);
    var m2 := Borrow(x1, 0x1000, 4);
    var x2 := Shl(x1, m2);
    var m3 := Borrow(x2, 0x4000, 2);
    var x3 := Shl(x2, m3) / 0x4000;
    // x & ~(x >> 1) for the three values left: 1, 2 and 3
    13 - (n1 + m2 + m3) + (if x3 == 1 then 1 else 2)
  }

  lemma BorrowIs(x: nat, bound: nat, bit: nat)
    requires x < 0x10000 && bound <= 0x10000 && (bit == 8 || bit == 4 || bit == 2)
    ensures Borrow(x, bound, bit) == if x < bound then bit else 0
  {
    if x < bound {
      assert (x - bound) % WORD == x - bound + WORD;
      assert (x - bound) % WORD / 0x10000 == 0xFFFF;
    } else {
      assert (x - bound) % WORD / 0x10000 == 0;
    }
  }

  lemma {:induction false} BsrUnique(x: nat, k: nat)
    requires Pow2(k) <= x < 2 * Pow2(k)
    ensures Bsr(x) == k
  {
    var m := Bsr(x);
    if m < k { Pow2Monotone(m + 1, k); }
    if k < m { Pow2Monotone(k + 1, m); }
  }

  lemma SmallPow2()
    ensures Pow2(0) == 1 && Pow2(2) == 4 && Pow2(4) == 16 && Pow2(8) == 256
  {
    assert Pow2(6) == 64;
  }

  /** Each of the three shifts brings the top bit up to the place of its bound and
      loses nothing. */
  lemma OneShift(x: nat, bound: nat, bit: nat, low: nat)
    requires (bound, bit, low) == (0x100, 8, 1) || (bound, bit, low) == (0x1000, 4, 0x100)
      || (bound, bit, low) == (0x4000, 2, 0x1000)
    requires low <= x < 0x10000
    ensures var n := Borrow(x, bound, bit);
      n == (if x < bound then bit else 0) && bound <= Shl(x, n) == x * Pow2(n) < 0x10000
  {
    hide Borrow, Pow2;
    SmallPow2();
    BorrowIs(x, bound, bit);
  }

  /** With at most 16 bits both ways of finding the top bit agree, so the bins do
      not depend on which one was compiled. */
  lemma PortableTopBitIsBsr(x: nat)
    requires 1 <= x < 0x10000
    ensures PortableTopBit(x) == Bsr(x)
  {
    hide Borrow, Pow2, Bsr, Shl;
    OneShift(x, 0x100, 8, 1);
    var n1 := Borrow(x, 0x100, 8);
    var x1 := Shl(x, n1);
    OneShift(x1, 0x1000, 4, 0x100);
    var m2 := Borrow(x1, 0x1000, 4);
    var x2 := Shl(x1, m2);
    OneShift(x2, 0x4000, 2, 0x1000);
    var m3 := Borrow(x2, 0x4000, 2);
    Normalised(x, n1, x1, m2, x2, m3, Shl(x2, m3));
  }

  /** Shifting left by n moved the top bit to place 14 or 15. */
  lemma Normalised(x: nat, n1: nat, x1: nat, m2: nat, x2: nat, m3: nat, x3: nat)
    requires n1 <= 8 && m2 <= 4 && m3 <= 2 && 0x4000 <= x3 < 0x10000
    requires x1 == x * Pow2(n1) && x2 == x1 * Pow2(m2) && x3 == x2 * Pow2(m3)
    ensures Bsr(x) == (if x3 < 0x8000 then 14 else 15) - (n1 + m2 + m3)
  {
    hide Bsr, Pow2;
    Pow2Add(n1, m2);
    Pow2Add(n1 + m2, m3);
    Regrouped(x, Pow2(n1), Pow2(m2), Pow2(m3));
    ShiftedTop(x, n1 + m2 + m3, x3);
  }

  lemma ShiftedTop(x: nat, n: nat, x3: nat)
    requires n <= 14 && x3 == x * Pow2(n) && 0x4000 <= x3 < 0x10000
    ensures Bsr(x) == (if x3 < 0x8000 then 14 else 15) - n
  {
    hide Bsr, Pow2;
    var top: nat := if x3 < 0x8000 then 14 else 15;
    Pow2Add(top - n, n);
    PowOf14();
    Cancelled(x, Pow2(n), Pow2(top - n), Pow2(top));
    BsrUnique(x, top - n);
  }

  lemma Regrouped(x: nat, a: nat, b: nat, c: nat)
    ensures x * a * b * c == x * (a * b * c)
  {
    assert x * a * b == x * (a * b);
  }

  lemma PowOf14()
    ensures Pow2(14) == 0x4000 && Pow2(15) == 0x8000
  {
    Pow2Of6();
    assert Pow2(2) == 4;
    Pow2Add(6, 6);
    Pow2Add(12, 2);
    assert Pow2(15) == 2 * Pow2(14);
  }

  lemma Cancelled(x: nat, p: nat, q: nat, qp: nat)
    requires p > 0 && qp == q * p && qp <= x * p < 2 * qp
    ensures q <= x < 2 * q
  {
    assert x < q ==> x * p + p <= q * p;
    assert x >= 2 * q ==> 2 * q * p <= x * p;
  }
}
