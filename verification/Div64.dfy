/** lib/div64.c: 64-bit division out of the 64-by-32-bit `divl`. */
module Div64 {
  import opened MachineWord
  import opened SizeClasses
  import opened Alignment

  /** What the processor does with `divl`: a fault, or a quotient and a remainder. */
  datatype Division = DivideError | Quotient(q: nat, r: nat)

  function Divl(hi: nat, lo: nat, d: nat): Division {
    if d == 0 || (hi * WORD + lo) / d >= WORD then DivideError
    else Quotient((hi * WORD + lo) / d, (hi * WORD + lo) % d)
  }

  /** `shrdl %hi, %lo` with its count taken modulo 32. */
  function Shrd(hi: nat, lo: nat, n: nat): nat {
    if n % 32 == 0 then lo else (hi * WORD + lo) / Pow2(n % 32) % WORD
  }

  /** `shrl` with its count taken modulo 32. */
  function Shrl(x: nat, n: nat): nat { x / Pow2(n % 32) }

  /** rshift64_32: the low word of a shift by up to 63. */
  function Rshift64To32(hi: nat, lo: nat, n: nat): nat { if n / 32 % 2 == 1 then hi else Shrd(hi, lo, n) }

  /** rshift64: a shift by up to 63, both words. */
  function Rshift64(hi: nat, lo: nat, n: nat): (nat, nat) {
    if n / 32 % 2 == 1 then (0, Shrl(hi, n)) else (Shrl(hi, n), Shrd(hi, lo, n))
  }

  /** The 32 leading significant bits of a divisor of more than 32 bits. */
  function Leading32(y: nat): nat
    requires y >= WORD
  {
    y / Pow2(Bsr(y / WORD) + 1)
  }

  /** The only divisors do_div64 cannot take. */
  predicate Faults(y: nat) { y >= WORD && Leading32(y) == WORD - 1 }

  lemma DivideBounds(a: nat, d: nat)
    requires d > 0
    ensures a / d * d <= a < a / d * d + d && a / d >= 0 && a == a / d * d + a % d
  {
  }

  lemma BelowProduct(a: nat, d: nat, q: nat)
    requires d > 0
    ensures a < q * d <==> a / d < q
  {
    DivideBounds(a, d);
    if a / d < q {
      assert (a / d + 1) * d <= q * d;
    } else {
      assert q * d <= a / d * d;
    }
  }

  /** A quotient fits a word exactly when the upper half is below the divisor. */
  lemma DivlFaults(hi: nat, lo: nat, d: nat)
    requires lo < WORD
    ensures Divl(hi, lo, d) == DivideError <==> hi >= d
    ensures hi < d ==> var a := Divl(hi, lo, d); a.r < d && hi * WORD + lo == a.q * d + a.r && a.q < WORD
  {
    if d > 0 {
      BelowProduct(hi * WORD + lo, d, WORD);
      DivideBounds(hi * WORD + lo, d);
    }
  }

  /** Shifts by 1 to 32 bits are divisions by the power of two. */
  lemma ShiftIsDivision(hi: nat, lo: nat, n: nat)
    requires hi < WORD && lo < WORD && 1 <= n <= 32
    ensures var x, s := hi * WORD + lo, Rshift64(hi, lo, n);
      && s.0 * WORD + s.1 == x / Pow2(n) && s.1 < WORD && s.0 < WORD / 2
      && (hi < Pow2(n) ==> Rshift64To32(hi, lo, n) == x / Pow2(n))
  {
    hide Rshift64, Rshift64To32;
    if n == 32 {
      WholeWordShift(hi, lo);
    } else {
      ShortShift(hi, lo, n, Pow2(n));
    }
  }

  lemma WholeWordShift(hi: nat, lo: nat)
    requires hi < WORD && lo < WORD
    ensures Rshift64(hi, lo, 32) == (0, hi) && Rshift64To32(hi, lo, 32) == hi == (hi * WORD + lo) / Pow2(32)
  {
    Pow2Of32();
    Pow2Zero();
    DivUnique(hi * WORD + lo, WORD, hi, lo);
  }

  lemma ShortShift(hi: nat, lo: nat, n: nat, p: nat)
    requires hi < WORD && lo < WORD && 1 <= n < 32 && p == Pow2(n)
    ensures Rshift64(hi, lo, n) == (hi / p, (hi * WORD + lo) / p % WORD)
    ensures hi / p * WORD + (hi * WORD + lo) / p % WORD == (hi * WORD + lo) / p && hi / p < WORD / 2
    ensures hi < p ==> Rshift64To32(hi, lo, n) == (hi * WORD + lo) / p
  {
    hide Pow2;
    assert n % 32 == n && n / 32 == 0;
    TwoHalves(hi, lo, p);
    Halved(hi, n);
    if hi < p { SmallShift(hi, lo, p); }
  }

  lemma SmallShift(hi: nat, lo: nat, p: nat)
    requires hi < p && lo < WORD
    ensures (hi * WORD + lo) / p % WORD == (hi * WORD + lo) / p
  {
    assert hi * WORD + lo < WORD * p;
    BelowProduct(hi * WORD + lo, p, WORD);
  }

  lemma Pow2Of32()
    ensures Pow2(32) == WORD
  {
    Pow2Of31();
    assert Pow2(32) == 2 * Pow2(31);
  }

  lemma Halved(hi: nat, n: nat)
    requires hi < WORD && 1 <= n
    ensures hi / Pow2(n) < WORD / 2
  {
    var half := Pow2(n - 1);
    assert Pow2(n) == 2 * half;
    assert WORD / 2 * (2 * half) == WORD * half >= WORD;
    BelowProduct(hi, Pow2(n), WORD / 2);
  }

  /** Upper and lower word of a shifted double word. */
  lemma TwoHalves(hi: nat, lo: nat, p: nat)
    requires hi < WORD && lo < WORD && p > 0
    ensures hi / p * WORD + (hi * WORD + lo) / p % WORD == (hi * WORD + lo) / p
  {
    var x := hi * WORD + lo;
    DivUnique(x, WORD, hi, lo);
    DivDiv(x, p, WORD, WORD * p);
    DivDiv(x, WORD, p, WORD * p);
  }

  lemma DivDiv(x: nat, a: nat, b: nat, ab: nat)
    requires a > 0 && b > 0 && ab == a * b
    ensures x / a / b == x / ab
  {
    var q, r := x / a, x % a;
    var q2, r2 := q / b, q % b;
    assert x == q * a + r && q == q2 * b + r2;
    DivDivParts(q2, r2, r, a, b);
    DivUnique(x, ab, q2, r2 * a + r);
  }

  lemma DivDivParts(q: nat, s: nat, r: nat, a: nat, b: nat)
    requires r < a && s < b
    ensures (q * b + s) * a + r == q * (a * b) + (s * a + r) && s * a + r < a * b && a * b > 0
  {
    Regroup(q, s, a, b);
    RoomBelow(s, r, b, a);
  }

  lemma Regroup(q: nat, s: nat, a: nat, b: nat)
    ensures (q * b + s) * a == q * (a * b) + s * a
  {
    assert q * b * a == q * (b * a);
  }

  lemma RoomBelow(s: nat, r: nat, b: nat, a: nat)
    requires s < b && r < a
    ensures s * a + r < a * b && a * b > 0
  {
    assert (s + 1) * a <= b * a;
    assert (s + 1) * a == s * a + a;
  }

  // ----- The estimate -----

  /** The leading bits of the divisor and the divisor itself. */
  lemma LeadingBits(y: nat) returns (l: nat)
    requires WORD <= y < WORD * WORD
    ensures l == Bsr(y / WORD) + 1 && 1 <= l <= 32 && y / WORD < Pow2(l)
    ensures Leading32(y) == y / Pow2(l) && WORD / 2 <= Leading32(y) < WORD
  {
    hide Pow2;
    var y1 := y / WORD;
    DivideBounds(y, WORD);
    BelowProduct(y, WORD, WORD);
    l := Bsr(y1) + 1;
    var half := Pow2(l - 1);
    Pow2Step(l - 1);
    if l > 32 {
      Pow2Of32();
      Pow2Monotone(32, l - 1);
    }
    LeadingRange(y, y1, half, Pow2(l));
  }

  lemma LeadingRange(y: nat, y1: nat, half: nat, p: nat)
    requires 0 < half <= y1 < p == 2 * half && y1 == y / WORD
    ensures WORD / 2 <= y / p < WORD
  {
    DivideBounds(y, WORD);
    assert (y1 + 1) * WORD <= p * WORD;
    BelowProduct(y, p, WORD);
    assert half * WORD == WORD / 2 * p;
    BelowProduct(y, p, WORD / 2);
  }

  /** The estimated quotient of the leading parts is at most two too small. */
  lemma Estimate(x: nat, y: nat, p: nat, k: nat, est: nat)
    requires p > 0 && k == y / p && WORD / 2 <= k < WORD && est == x / p / (k + 1) && est < WORD
    ensures est * y <= x < (est + 3) * y
  {
    var xh := x / p;
    DivideBounds(x, p);
    DivideBounds(y, p);
    DivideBounds(xh, k + 1);
    EstimateBelow(x, xh, y, p, k, est);
    EstimateAbove(x, xh, y, p, k, est);
  }

  lemma Monotone(a: nat, b: nat, c: nat)
    requires a <= b
    ensures a * c <= b * c && c * a <= c * b
  {
  }

  lemma Associate(a: nat, b: nat, c: nat)
    ensures a * (b * c) == a * b * c
  {
  }

  lemma EstimateBelow(x: nat, xh: nat, y: nat, p: nat, k: nat, est: nat)
    requires xh * p <= x && y < k * p + p && est * (k + 1) <= xh
    ensures est * y <= x
  {
    assert k * p + p == (k + 1) * p;
    Monotone(y, (k + 1) * p, est);
    Associate(est, k + 1, p);
    Monotone(est * (k + 1), xh, p);
  }

  lemma EstimateAbove(x: nat, xh: nat, y: nat, p: nat, k: nat, est: nat)
    requires p > 0 && x < xh * p + p && k * p <= y && xh < est * (k + 1) + (k + 1) && est + 1 <= 2 * k
    ensures x < (est + 3) * y
  {
    assert xh * p + p == (xh + 1) * p;
    TwoMore(xh, k, est);
    Monotone(xh + 1, (est + 3) * k, p);
    Associate(est + 3, k, p);
    Monotone(k * p, y, est + 3);
  }

  lemma TwoMore(xh: nat, k: nat, est: nat)
    requires xh < est * (k + 1) + (k + 1) && est + 1 <= 2 * k
    ensures xh + 1 <= (est + 3) * k
  {
    assert est * (k + 1) == est * k + est;
    assert (est + 3) * k == est * k + 3 * k;
  }

  // ----- do_div64 -----

  /** What a call comes to. */
  datatype Outcome = Fault | Answer(q: nat, r: nat)

  /** The divisor cut to its 32 leading bits, and the dividend shifted alike. */
  method Operands(x: nat, y: nat) returns (y0: nat, x1: nat, x0: nat, ghost p: nat)
    requires x < WORD * WORD && WORD <= y < WORD * WORD
    ensures p > 0 && y0 == Leading32(y) == y / p && WORD / 2 <= y0 < WORD
    ensures x1 < WORD / 2 && x0 < WORD && x1 * WORD + x0 == x / p
  {
    hide Pow2, Rshift64, Rshift64To32, Leading32;
    var y1;
    y1, y0, x1, x0 := y / WORD, y % WORD, x / WORD, x % WORD;
    BelowProduct(x, WORD, WORD);
    BelowProduct(y, WORD, WORD);
    DivideBounds(x, WORD);
    DivideBounds(y, WORD);
    ghost var n := LeadingBits(y);
    var l := Bsr(y1) + 1;
    p := Pow2(l);
    ShiftIsDivision(y1, y0, l);
    ShiftIsDivision(x1, x0, l);
    y0 := Rshift64To32(y1, y0, l);
    var s := Rshift64(x1, x0, l);
    x1, x0 := s.0, s.1;
  }

  /** divl by the 32-bit sum y0 + 1, leaving the estimated quotient. */
  method EstimateQuotient(x: nat, y: nat) returns (est: Division)
    requires x < WORD * WORD && WORD <= y < WORD * WORD
    ensures est == DivideError <==> Faults(y)
    ensures est != DivideError ==> est.q < WORD && est.q * y <= x < (est.q + 3) * y
  {
    hide Leading32;
    var y0, x1, x0;
    ghost var p;
    y0, x1, x0, p := Operands(x, y);
    var d := (y0 + 1) % WORD;
    DivlFaults(x1, x0, d);
    est := Divl(x1, x0, d);
    if d > 0 { Estimate(x, y, p, y0, x / p / d); }
  }

  /** do_div64(x, y, &rem): exact division, at most two corrections, and a fault
      for exactly the divisors whose 32 leading bits are all ones. */
  method DoDiv64(x: nat, y: nat) returns (a: Outcome, ghost corrections: nat)
    requires x < WORD * WORD && y < WORD * WORD
    ensures a == Fault <==> Faults(y)
    ensures !Faults(y) && y > 0 ==> x == a.q * y + a.r && a.r < y
    ensures y == 0 ==> a == Answer(0, x)
    ensures corrections <= 2
  {
    hide Pow2, Leading32, Divl;
    var y1, y0, x1, x0 := y / WORD, y % WORD, x / WORD, x % WORD;
    corrections := 0;
    DivideBounds(x, WORD);
    DivideBounds(y, WORD);
    if y1 != 0 {
      var est := EstimateQuotient(x, y);
      if est == DivideError { return Fault, 0; }
      a, corrections := Correct(x, y, est.q);
    } else if x1 < y0 {
      DivlFaults(x1, x0, y0);
      var d := Divl(x1, x0, y0);
      a := Answer(d.q, d.r);
    } else if y0 != 0 {
      DivlFaults(0, x1, y0);
      var d1 := Divl(0, x1, y0);
      DivlFaults(d1.r, x0, y0);
      var d0 := Divl(d1.r, x0, y0);
      LongDivision(x1, x0, y0, d1.q, d1.r, d0.q, d0.r);
      a := Answer(d1.q * WORD + d0.q, d0.r);
    } else {
      a := Answer(0, x);
    }
  }

  /** while (r >= y) { x0++; r -= y; } */
  method Correct(x: nat, y: nat, est: nat) returns (a: Outcome, ghost corrections: nat)
    requires y >= WORD && x < WORD * WORD && est < WORD && est * y <= x < (est + 3) * y
    ensures a.Answer? && x == a.q * y + a.r && a.r < y && corrections <= 2
  {
    var x0 := est;
    var r: nat := x - y * x0;
    corrections := 0;
    while r >= y
      invariant x == x0 * y + r && x0 == est + corrections && x0 < WORD && corrections <= 2
      decreases r
    {
      OneMore(x, y, x0, r, est, corrections);
      x0 := (x0 + 1) % WORD;
      r := r - y;
      corrections := corrections + 1;
    }
    a := Answer(x0, r);
  }

  lemma OneMore(x: nat, y: nat, x0: nat, r: nat, est: nat, corrections: nat)
    requires y >= WORD && x < WORD * WORD && x == x0 * y + r && r >= y && x < (est + 3) * y && x0 == est + corrections
    ensures corrections < 2 && x0 + 1 < WORD && x == (x0 + 1) * y + (r - y)
  {
    assert (x0 + 1) * y == x0 * y + y;
    if corrections >= 2 { Monotone(est + 3, x0 + 1, y); }
    if x0 + 1 >= WORD {
      Monotone(WORD, y, WORD);
      Monotone(WORD, x0 + 1, y);
    }
  }

  lemma LongDivision(x1: nat, x0: nat, y: nat, q1: nat, r1: nat, q0: nat, r0: nat)
    requires x1 == q1 * y + r1 && r1 * WORD + x0 == q0 * y + r0
    ensures x1 * WORD + x0 == (q1 * WORD + q0) * y + r0
  {
    assert q1 * y * WORD == q1 * WORD * y;
  }

  /** A divisor that faults: all 64 bits set. Clearing the lowest of its 32 leading
      bits makes it a good one. */
  lemma AllOnesFault()
    ensures Faults(WORD * WORD - 1) && !Faults(WORD * WORD - 1 - WORD)
  {
    hide Pow2;
    Pow2Of31();
    assert Bsr(WORD - 1) == 31 && Bsr(WORD - 2) == 31 by {
      BsrUnique(WORD - 1, 31);
      BsrUnique(WORD - 2, 31);
    }
    assert Pow2(32) == WORD by { Pow2Step(31); }
    DivUnique(WORD * WORD - 1, WORD, WORD - 1, WORD - 1);
    DivUnique(WORD * WORD - 1 - WORD, WORD, WORD - 2, WORD - 1);
  }

  /** The bound on the corrections is met: x = (2^31 + 2) * 2^32, y = 2^32. */
  lemma TwoCorrections()
    ensures var x, y := (WORD / 2 + 2) * WORD, WORD;
      Leading32(y) == WORD / 2 && x / Pow2(1) / (Leading32(y) + 1) == x / y - 2
  {
    assert Bsr(1) == 0 && Pow2(1) == 2;
    var x := (WORD / 2 + 2) * WORD;
    DivUnique(x, WORD, WORD / 2 + 2, 0);
    assert x / 2 == (WORD / 2 + 2) * (WORD / 2);
    DivUnique(x / 2, WORD / 2 + 1, WORD / 2, WORD / 2);
  }
}
