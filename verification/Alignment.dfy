/** Powers of two and the bit tricks memalign uses on them. */
module Alignment {
  import opened MachineWord
  import opened SizeClasses

  /** x & y */
  function BitAnd(x: nat, y: nat): nat {
    if x == 0 || y == 0 then 0 else 2 * BitAnd(x / 2, y / 2) + (x % 2) * (y % 2)
  }

  /** The smallest power of two from 2^k up that is at least a. */
  function CeilPow2(k: nat, a: nat): (r: nat)
    ensures r >= a && r >= Pow2(k) && r > 0
    decreases a - Pow2(k)
  {
    if Pow2(k) >= a then Pow2(k) else CeilPow2(k + 1, a)
  }

  /** The alignment memalign grants for the one asked for. */
  function GrantedAlignment(alignment: nat): nat { CeilPow2(3, alignment) }

  ghost predicate IsPow2(a: nat) { exists k: nat :: a == Pow2(k) }

  lemma {:induction false} BitAndSelf(x: nat)
    ensures BitAnd(x, x) == x
  {
    if x > 0 { BitAndSelf(x / 2); }
  }

  lemma AndEven(x: nat, y: nat, twice: nat)
    requires twice == 2 * y
    ensures BitAnd(x, twice) == 2 * BitAnd(x / 2, y)
  {
    assert twice / 2 == y && twice % 2 == 0;
  }

  /** x & (x - 1) drops the lowest set bit, so nothing is left exactly of the
      powers of two. */
  lemma {:induction false} OneBitTest(x: nat)
    requires x > 0
    ensures BitAnd(x, x - 1) == 0 <==> IsPow2(x)
  {
    if x == 1 {
      assert x == Pow2(0);
    } else if x % 2 == 1 {
      BitAndSelf(x / 2);
      forall k: nat ensures x != Pow2(k) { assert k > 0 ==> Pow2(k) % 2 == 0; }
    } else {
      OneBitTest(x / 2);
      assert (x - 1) / 2 == x / 2 - 1;
      EvenPow2(x);
    }
  }

  lemma EvenPow2(x: nat)
    requires x > 0 && x % 2 == 0
    ensures IsPow2(x) <==> IsPow2(x / 2)
  {
    forall k: nat
      ensures x / 2 == Pow2(k) ==> IsPow2(x)
      ensures x == Pow2(k) ==> IsPow2(x / 2)
    {
      assert x / 2 == Pow2(k) ==> x == Pow2(k + 1);
      assert x == Pow2(k) ==> k > 0 && x / 2 == Pow2(k - 1);
    }
  }

  /** x & -2^k in an n-bit word rounds x down to a multiple of 2^k. */
  lemma {:induction false} MaskRoundsDown(x: nat, k: nat, n: nat)
    requires k <= n && x < Pow2(n)
    ensures Pow2(k) <= Pow2(n) && BitAnd(x, Pow2(n) - Pow2(k)) == x / Pow2(k) * Pow2(k)
    decreases n
  {
    hide BitAnd, Pow2;
    Pow2Monotone(k, n);
    if k == 0 {
      Pow2Zero();
      MaskAll(x, n);
    } else {
      Pow2Step(k - 1);
      Pow2Step(n - 1);
      MaskRoundsDown(x / 2, k - 1, n - 1);
      AndEven(x, Pow2(n - 1) - Pow2(k - 1), Pow2(n) - Pow2(k));
      TwiceRounded(x, Pow2(k - 1), Pow2(k));
    }
  }

  lemma Pow2Zero()
    ensures Pow2(0) == 1
  {
  }

  lemma Pow2Step(k: nat)
    ensures Pow2(k + 1) == 2 * Pow2(k)
  {
  }

  lemma TwiceRounded(x: nat, a: nat, b: nat)
    requires a > 0 && b == 2 * a
    ensures x / b * b == 2 * (x / 2 / a * a)
  {
    HalfDiv(x, a);
    var q := x / 2 / a;
    assert q * (2 * a) == 2 * (q * a);
  }

  lemma HalfDiv(x: nat, a: nat)
    requires a > 0
    ensures x / (2 * a) == x / 2 / a
  {
    var h := x / 2;
    var q, r := h / a, h % a;
    assert h == q * a + r;
    assert q * (2 * a) == 2 * (q * a);
    DivUnique(x, 2 * a, q, 2 * r + x % 2);
  }

  lemma DivUnique(x: nat, a: nat, q: nat, r: nat)
    requires a > 0 && x == q * a + r && r < a
    ensures x / a == q && x % a == r
  {
    var d := x / a - q;
    assert x == (x / a) * a + x % a;
    assert d * a == r - x % a;
    assert d >= 1 ==> d * a >= a;
    assert d <= -1 ==> d * a + a <= 0;
  }

  lemma {:induction false} MaskAll(x: nat, n: nat)
    requires x < Pow2(n)
    ensures BitAnd(x, Pow2(n) - 1) == x
  {
    if n > 0 && x > 0 {
      MaskAll(x / 2, n - 1);
      assert (Pow2(n) - 1) / 2 == Pow2(n - 1) - 1 && (Pow2(n) - 1) % 2 == 1;
    }
  }

  /** The granted alignment is a power of two, and the smallest that will do. */
  lemma {:induction false} CeilIsPow2(k: nat, a: nat)
    ensures exists j: nat :: j >= k && CeilPow2(k, a) == Pow2(j)
    ensures forall j: nat :: j >= k && Pow2(j) >= a ==> CeilPow2(k, a) <= Pow2(j)
    decreases a - Pow2(k)
  {
    if Pow2(k) >= a {
      forall j: nat | j >= k ensures Pow2(k) <= Pow2(j) { Pow2Monotone(k, j); }
    } else {
      CeilIsPow2(k + 1, a);
      forall j: nat | j >= k && Pow2(j) >= a ensures CeilPow2(k, a) <= Pow2(j) {
        assert j != k;
      }
    }
  }

  /** A power of two divides every larger one. */
  lemma Pow2Divides(i: nat, j: nat, x: int)
    requires i <= j && x % Pow2(j) == 0
    ensures x % Pow2(i) == 0
  {
    Pow2Add(j - i, i);
    FactorMod(x, Pow2(j - i), Pow2(i));
  }

  lemma FactorMod(x: int, b: nat, a: nat)
    requires a > 0 && b > 0 && b * a > 0 && x % (b * a) == 0
    ensures x % a == 0
  {
    var q := x / (b * a);
    assert x == q * (b * a) == (q * b) * a;
    MultipleMod(q * b, a);
  }

  lemma MultipleMod(q: int, a: nat)
    requires a > 0
    ensures (q * a) % a == 0
  {
    var x := q * a;
    var d := x / a - q;
    assert x == (x / a) * a + x % a;
    assert d * a == -(x % a);
    assert d >= 1 ==> d * a >= a;
    assert d <= -1 ==> d * a + a <= 0;
  }

  /** The doubling loop after k turns, on 32-bit words. */
  function Doubled(k: nat): nat { if k == 0 then 16 else Doubled(k - 1) * 2 % WORD }

  lemma {:induction false} DoubledIs(k: nat)
    ensures Doubled(k) == if k < 28 then Pow2(k + 4) else 0
  {
    hide Pow2;
    if k == 0 {
      SmallPowers();
    } else {
      DoubledIs(k - 1);
      Pow2Of31();
      if k < 28 {
        Pow2Step(k + 3);
        Pow2Monotone(k + 4, 31);
      }
    }
  }

  /** The loop ends if and only if the alignment is at most 2^31: beyond that the
      doubled word becomes 0 and stays there. */
  lemma DoublingEnds(alignment: nat)
    requires alignment < WORD
    ensures (exists k: nat :: Doubled(k) >= alignment) <==> alignment <= WORD / 2
  {
    hide Pow2, Doubled;
    Pow2Of31();
    DoubledIs(27);
    forall k: nat ensures Doubled(k) <= WORD / 2 {
      DoubledIs(k);
      if k < 28 { Pow2Monotone(k + 4, 31); }
    }
  }

  /** 0x80000001 bytes of alignment keep the loop going for ever. */
  lemma DoublesForEver(k: nat)
    ensures Doubled(k) < 0x8000_0001
  {
    hide Doubled;
    DoublingEnds(0x8000_0001);
  }

  /** Rounding an alignment request up to a power of two; above 2^31 the doubling
      loop would wrap to 0 and never end. */
  method RoundAlignment(alignment: nat) returns (a: nat)
    requires 8 < alignment <= WORD / 2
    ensures a == GrantedAlignment(alignment) && MINSIZE <= a <= WORD / 2
  {
    hide BitAnd, CeilPow2, Pow2;
    a := alignment;
    if a < MINSIZE { a := MINSIZE; }
    AtLeast16(alignment);
    SmallPowers();
    if BitAnd(a, a - 1) != 0 {
      a := DoubleUpTo(a);
    } else {
      OneBitTest(a);
      IsOwnCeil(4, a);
    }
  }

  method DoubleUpTo(want: nat) returns (a: nat)
    requires want <= WORD / 2
    ensures a == CeilPow2(4, want) && MINSIZE <= a <= WORD / 2
  {
    a := 8 * 2;
    SmallPowers();
    ghost var k := 4;
    while a < want
      invariant 4 <= k && a == Pow2(k) && CeilPow2(4, want) == CeilPow2(k, want) && MINSIZE <= a <= WORD / 2
      decreases want - a
    {
      PowerBelow(k);
      a := a * 2 % WORD;
      k := k + 1;
    }
  }

  lemma SmallPowers()
    ensures Pow2(3) == 8 && Pow2(4) == 16
  {
    assert Pow2(2) == 4;
  }

  lemma Pow2Of31()
    ensures Pow2(31) == WORD / 2
  {
    Pow2Of6();
    assert Pow2(1) == 2;
    Pow2Add(6, 6);
    Pow2Add(12, 12);
    Pow2Add(24, 6);
    Pow2Add(30, 1);
  }

  lemma PowerBelow(k: nat)
    requires Pow2(k) < WORD / 2
    ensures Pow2(k + 1) <= WORD / 2
  {
    var top := TopPower();
    if k >= top { Pow2Monotone(top, k); }
    Pow2Monotone(k + 1, top);
  }

  lemma TopPower() returns (k: nat)
    ensures k > 3 && Pow2(k) == WORD / 2
  {
    Pow2Of31();
    k := 31;
  }

  lemma AtLeast16(alignment: nat)
    requires 8 < alignment
    ensures GrantedAlignment(alignment) == CeilPow2(4, if alignment < 16 then 16 else alignment)
  {
    SmallPowers();
    assert CeilPow2(3, alignment) == CeilPow2(4, alignment);
    assert alignment < 16 ==> CeilPow2(4, alignment) == 16 == CeilPow2(4, 16);
  }

  lemma IsOwnCeil(k: nat, a: nat)
    requires IsPow2(a) && Pow2(k) <= a
    ensures CeilPow2(k, a) == a
  {
    CeilIsPow2(k, a);
    var j: nat :| a == Pow2(j);
    if j < k { Pow2Monotone(j, k); }
  }

  /** The spot memalign picks behind m, found with the mask -a: on the alignment, a
      legal lead away and early enough for what was asked beyond it. */
  function AlignedSpot(m: nat, a: nat): int
    requires 0 < a <= WORD
  {
    var up := BitAnd(m + a - 1, WORD - a);
    if up - m < MINSIZE then up + a else up
  }

  /** The mask leaves the last multiple of a at or below m + a - 1. */
  lemma MaskedUp(m: nat, a: nat) returns (j: nat)
    requires IsPow2(a) && 0 < a <= WORD / 2 && m + a - 1 < WORD
    ensures a == Pow2(j) && BitAnd(m + a - 1, WORD - a) == (m + a - 1) / a * a
  {
    hide BitAnd, Pow2;
    j :| a == Pow2(j);
    Pow2Of31();
    Pow2Step(31);
    if j > 32 { Pow2Monotone(32, j); }
    MaskRoundsDown(m + a - 1, j, 32);
  }

  /** The first aligned address that is m itself or leaves a chunk in front. */
  ghost predicate FirstSpot(m: nat, a: nat, spot: int) {
    && a > 0 && spot % a == 0 && (spot == m || spot >= m + MINSIZE)
    && forall x {:trigger x % a} :: m <= x < spot && x % a == 0 ==> m < x < m + MINSIZE
  }

  lemma Multiples(x: int, q: int, a: nat)
    requires a > 0 && x % a == 0
    ensures x <= q * a || x >= (q + 1) * a
  {
    var k := x / a;
    assert x == k * a;
    if k <= q { assert k * a <= q * a; } else { assert (q + 1) * a <= k * a; }
  }

  /** The spot is the first one. */
  lemma SpotIsFirst(m: nat, a: nat)
    requires IsPow2(a) && MINSIZE <= a <= WORD / 2 && Aligned(m) && m % a != 0 && m + a - 1 < WORD
    ensures FirstSpot(m, a, AlignedSpot(m, a))
  {
    hide BitAnd, IsPow2;
    var q := (m + a - 1) / a;
    var up := q * a;
    assert m + a - 1 == up + (m + a - 1) % a;
    var j := MaskedUp(m, a);
    AlignedSpotFacts(m, a);
    MultipleMod(q, a);
    assert (q - 1) * a == up - a && (q + 1) * a == up + a;
    forall x | m <= x < AlignedSpot(m, a) && x % a == 0
      ensures m < x < m + MINSIZE
    {
      Multiples(x, q - 1, a);
      Multiples(x, q, a);
    }
  }

  lemma AlignedSpotFacts(m: nat, a: nat)
    requires IsPow2(a) && MINSIZE <= a <= WORD / 2 && Aligned(m) && m % a != 0 && m + a - 1 < WORD
    ensures AlignedSpot(m, a) % a == 0 && LegalSize(AlignedSpot(m, a) - m) && AlignedSpot(m, a) - m <= a + 8
  {
    hide BitAnd;
    var up := (m + a - 1) / a * a;
    MultipleMod((m + a - 1) / a, a);
    assert m + a - 1 == up + (m + a - 1) % a;
    var j := MaskedUp(m, a);
    SmallPowers();
    if j < 3 { Pow2Monotone(j, 3); }
    Pow2Divides(3, j, up);
    AlignedSum(up, m);
    if up - m < MINSIZE {
      MultipleMod((m + a - 1) / a + 1, a);
      assert ((m + a - 1) / a + 1) * a == up + a;
      MultipleMod(1, a);
      Pow2Divides(3, j, a);
      AlignedSum(a, up - m);
    }
  }

  /** What memalign asks malloc for. */
  function MemalignRequest(alignment: nat, bytes: nat): nat {
    if alignment <= 8 then bytes else Request2Size(bytes) + GrantedAlignment(alignment) + MINSIZE
  }

  /** The padded request leaves room for an aligned spot if and only if the
      32-bit sum does not wrap; the source does not check this. */
  lemma MemalignAsksEnough(alignment: nat, bytes: nat)
    requires 8 < alignment <= WORD / 2 && !RequestOutOfRange(bytes)
    ensures var asked := MemalignRequest(alignment, bytes);
      Request2Size(asked % WORD) >= Request2Size(bytes) + GrantedAlignment(alignment) <==> asked < WORD
  {
    hide CeilPow2;
    var a := RoundedInRange(alignment);
    var nb, asked := Request2Size(bytes), MemalignRequest(alignment, bytes);
    assert nb <= WORD - 24;
    if asked >= WORD {
      assert asked % WORD == asked - WORD;
      assert asked - WORD <= a - 8;
    }
  }

  /** Such a request: 16-byte alignment of almost everything asks for 8 bytes. */
  lemma WrappingRequest()
    ensures var bytes := WORD - 40;
      !RequestOutOfRange(bytes) && MemalignRequest(16, bytes) % WORD == 0 && Request2Size(0) < Request2Size(bytes)
  {
    SmallPowers();
  }

  lemma RoundedInRange(alignment: nat) returns (a: nat)
    requires 8 < alignment <= WORD / 2
    ensures a == GrantedAlignment(alignment) && MINSIZE <= a <= WORD / 2
  {
    AtLeast16(alignment);
    SmallPowers();
    var j := TopPower();
    a := GrantedAlignment(alignment);
    CeilIsPow2(3, alignment);
    Pow2Monotone(3, j);
  }
}
