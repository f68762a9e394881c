/** The bitmap over the bins: a clear bit promises an empty bin, a set bit
    promises nothing. */
module BinMap {
  import opened SizeClasses

  const BITSPERMAP := 32
  const BINMAPSIZE := 3

  /** 1U << k */
  function Bit(k: nat): bv32
    requires k < 32
  {
    if k == 0 then 1 else Twice(Bit(k - 1))
  }

  /** Bit k of a map word is set. */
  predicate Has(word: bv32, k: nat)
    requires k < 32
  {
    Meets(word, Bit(k))
  }

  // The three word operations, named so that proofs can treat them as opaque.
  function And(a: bv32, b: bv32): bv32 { a & b }
  function Join(a: bv32, b: bv32): bv32 { a | b }
  function Minus(a: bv32, b: bv32): bv32 { a & !b }
  predicate Meets(a: bv32, b: bv32) { And(a, b) != 0 }
  function Twice(a: bv32): bv32 { a << 1 }
  predicate Above(a: bv32, b: bv32) { a > b }
  predicate IsZero(a: bv32) { a == 0 }

  function Idx2Block(i: nat): nat { i / BITSPERMAP }

  function Idx2Bit(i: nat): bv32 { Bit(i % BITSPERMAP) }

  /** mark_bin */
  function MarkBin(binmap: seq<bv32>, i: nat): (r: seq<bv32>)
    requires |binmap| == BINMAPSIZE + 1 && i < NBINS
    ensures |r| == |binmap|
  {
    binmap[Idx2Block(i) := Join(binmap[Idx2Block(i)], Idx2Bit(i))]
  }

  ghost predicate Marked(binmap: seq<bv32>, i: nat)
    requires |binmap| == BINMAPSIZE + 1 && i < NBINS
  {
    Has(binmap[i / 32], i % 32)
  }

  /** Every non-empty bin is marked; the trailing word is zero. */
  ghost predicate MapCovers(binmap: seq<bv32>, bins: seq<seq<int>>) {
    && |binmap| == BINMAPSIZE + 1 && |bins| == NBINS && binmap[BINMAPSIZE] == 0
    && forall i {:trigger Marked(binmap, i)} :: 2 <= i < NBINS && bins[i] != [] ==> Marked(binmap, i)
  }

  // ----- Single bits -----

  lemma TopBit()
    ensures Bit(31) == 0x8000_0000
  {
    assert Bit(3) == 8;
    assert Bit(5) == 0x20;
    assert Bit(7) == 0x80;
    assert Bit(9) == 0x200;
    assert Bit(11) == 0x800;
    assert Bit(13) == 0x2000;
    assert Bit(15) == 0x8000;
    assert Bit(17) == 0x2_0000;
    assert Bit(19) == 0x8_0000;
    assert Bit(21) == 0x20_0000;
    assert Bit(23) == 0x80_0000;
    assert Bit(25) == 0x200_0000;
    assert Bit(27) == 0x800_0000;
    assert Bit(29) == 0x2000_0000;
  }

  lemma {:induction false} ZeroStays(k: nat, m: nat)
    requires k <= m < 32 && Bit(k) == 0
    ensures Bit(m) == 0
  {
    if k < m { ZeroStays(k, m - 1); }
  }

  lemma {:induction false} BitIsPower(k: nat)
    requires k < 32
    ensures Bit(k) != 0 && Bit(k) & (Bit(k) - 1) == 0
  {
    TopBit();
    if Bit(k) == 0 { ZeroStays(k, 31); }
    if k > 0 {
      BitIsPower(k - 1);
      ShiftedPower(Bit(k - 1));
    }
  }

  lemma ShiftedPower(b: bv32)
    requires b & (b - 1) == 0
    ensures (b << 1) & ((b << 1) - 1) == 0
  {
  }

  lemma {:induction false} BitsDisjoint(j: nat, k: nat)
    requires j < k < 32
    ensures Bit(j) & Bit(k) == 0
  {
    if j == 0 {
      LowBitShifted(Bit(k - 1));
    } else {
      BitsDisjoint(j - 1, k - 1);
      BothShifted(Bit(j - 1), Bit(k - 1));
    }
  }

  lemma LowBitShifted(b: bv32)
    ensures 1 & (b << 1) == 0
  {
  }

  lemma BothShifted(a: bv32, b: bv32)
    requires a & b == 0
    ensures (a << 1) & (b << 1) == 0
  {
  }

  lemma {:induction false} BitsOrdered(j: nat, k: nat)
    requires j <= k < 32
    ensures Bit(j) <= Bit(k)
  {
    if j < k {
      BitsOrdered(j, k - 1);
      BitIsPower(k - 1);
      BitIsPower(k);
      PowerGrows(Bit(k - 1));
    }
  }

  lemma PowerGrows(b: bv32)
    requires b & (b - 1) == 0 && b != 0 && b << 1 != 0
    ensures b <= b << 1
  {
  }

  lemma AboveTheWord(word: bv32, b: bv32)
    requires b & (b - 1) == 0 && b > word
    ensures word & b == 0
  {
  }

  /** `bit > map`: no more set bits from k on. */
  lemma NothingAbove(word: bv32, k: nat, j: nat)
    requires k <= j < 32 && Bit(k) > word
    ensures !Has(word, j)
  {
    BitsOrdered(k, j);
    BitIsPower(j);
    AboveTheWord(word, Bit(j));
  }

  lemma NextPowerFits(word: bv32, b: bv32)
    requires b & (b - 1) == 0 && b != 0 && b <= word && b & word == 0
    ensures b << 1 != 0 && b << 1 <= word
  {
  }

  /** "There must be one": a word at least 1U << k with bit k clear reaches
      beyond it, so the shift neither overflows nor passes the last set bit. */
  lemma AnotherAbove(word: bv32, k: nat)
    requires k < 32 && Bit(k) <= word && !Has(word, k)
    ensures k + 1 < 32 && Bit(k + 1) <= word
  {
    BitIsPower(k);
    assert Bit(k) & word == word & Bit(k);
    NextPowerFits(word, Bit(k));
    TopBit();
  }

  /** Past bit 31 the shifted bit is zero. */
  lemma ShiftOut(k: nat)
    requires k < 32
    ensures k < 31 ==> Bit(k) << 1 == Bit(k + 1) && Bit(k) << 1 != 0
    ensures k == 31 ==> Bit(k) << 1 == 0
  {
    TopBit();
    if k < 31 { BitIsPower(k + 1); }
  }

  lemma AndDistributes(a: bv32, b: bv32, c: bv32)
    ensures And(Join(a, b), c) == Join(And(a, c), And(b, c))
  {
  }

  lemma OrIsZero(x: bv32, y: bv32)
    ensures Join(x, y) == 0 <==> x == 0 && y == 0
  {
  }

  lemma JoinMeets(a: bv32, b: bv32, c: bv32)
    ensures Meets(Join(a, b), c) <==> Meets(a, c) || Meets(b, c)
  {
    hide And, Join;
    AndDistributes(a, b, c);
    OrIsZero(And(a, c), And(b, c));
  }

  lemma MinusMeets(a: bv32, b: bv32, c: bv32)
    requires !Meets(b, c)
    ensures Meets(Minus(a, b), c) <==> Meets(a, c)
  {
    hide And, Minus;
    MinusKeeps(a, b, c);
  }

  lemma MinusKeeps(a: bv32, b: bv32, c: bv32)
    requires And(b, c) == 0
    ensures And(Minus(a, b), c) == And(a, c)
  {
  }

  lemma SetHas(word: bv32, k: nat, j: nat)
    requires k < 32 && j < 32
    ensures Has(Join(word, Bit(k)), j) <==> Has(word, j) || j == k
  {
    hide Bit, Meets, Join;
    JoinMeets(word, Bit(k), Bit(j));
    DifferentBits(k, j);
  }

  lemma ClearHas(word: bv32, k: nat, j: nat)
    requires k < 32 && j < 32 && j != k
    ensures Has(Minus(word, Bit(k)), j) <==> Has(word, j)
  {
    hide Bit, Meets, Minus;
    DifferentBits(k, j);
    MinusMeets(word, Bit(k), Bit(j));
  }

  lemma DifferentBits(k: nat, j: nat)
    requires k < 32 && j < 32
    ensures Meets(Bit(k), Bit(j)) <==> k == j
  {
    if j < k {
      BitsDisjoint(j, k);
      AndSwaps(Bit(j), Bit(k));
    } else if k < j {
      BitsDisjoint(k, j);
    } else {
      BitIsPower(k);
      AndSelf(Bit(k));
    }
  }

  lemma AndSwaps(a: bv32, b: bv32)
    ensures a & b == b & a
  {
  }

  lemma AndSelf(a: bv32)
    ensures a & a == a
  {
  }

  // ----- The tests of the search loop, bit by bit -----

  /** `bit > map || bit == 0`: nothing is marked from position k on; otherwise
      there must be a marked position, and shifting reaches it. */
  lemma RestOfWord(word: bv32, k: nat, bit: bv32)
    requires k <= 32 && (k < 32 ==> bit == Bit(k)) && (k == 32 ==> IsZero(bit))
    ensures Above(bit, word) || IsZero(bit) ==> forall j {:trigger Has(word, j)} :: k <= j < 32 ==> !Has(word, j)
    ensures !(Above(bit, word) || IsZero(bit)) ==> k < 32 && Reaches(word, k)
  {
    hide Above, IsZero, Reaches, Bit, Has;
    if k < 32 {
      BitNotZero(k);
      NotAbove(word, k);
    }
    if Above(bit, word) || IsZero(bit) {
      forall j | k <= j < 32
        ensures !Has(word, j)
      {
        NothingFrom(word, k, j);
      }
    }
  }

  lemma BitNotZero(k: nat)
    requires k < 32
    ensures !IsZero(Bit(k))
  {
    BitIsPower(k);
  }

  lemma NotAbove(word: bv32, k: nat)
    requires k < 32
    ensures !Above(Bit(k), word) ==> Reaches(word, k)
  {
  }

  lemma NothingFrom(word: bv32, k: nat, j: nat)
    requires k <= j < 32 && Above(Bit(k), word)
    ensures !Has(word, j)
  {
    NothingAbove(word, k, j);
  }

  /** Some bit at or above k is set. */
  predicate Reaches(word: bv32, k: nat)
    requires k < 32
  {
    Bit(k) <= word
  }

  lemma ReachesNonzero(word: bv32, k: nat)
    requires k < 32 && Reaches(word, k)
    ensures !IsZero(word)
  {
    BitIsPower(k);
  }

  lemma StepUp(word: bv32, k: nat)
    requires k < 32 && Reaches(word, k) && !Has(word, k)
    ensures k + 1 < 32 && Reaches(word, k + 1) && Twice(Bit(k)) == Bit(k + 1)
  {
    AnotherAbove(word, k);
  }

  lemma FirstBit(word: bv32)
    requires !IsZero(word)
    ensures Reaches(word, 0) && Bit(0) == 1
  {
  }

  lemma ZeroWord(word: bv32, j: nat)
    requires IsZero(word) && j < 32
    ensures !Has(word, j)
  {
  }

  lemma Shifted(k: nat)
    requires k < 32
    ensures k < 31 ==> Twice(Bit(k)) == Bit(k + 1)
    ensures k == 31 ==> IsZero(Twice(Bit(k)))
  {
    ShiftOut(k);
  }

  // ----- The whole map -----

  /** mark_bin marks exactly bin i. */
  lemma MarkBinMarks(binmap: seq<bv32>, i: nat, j: nat)
    requires |binmap| == BINMAPSIZE + 1 && i < NBINS && j < NBINS
    ensures Marked(MarkBin(binmap, i), j) <==> Marked(binmap, j) || j == i
    ensures MarkBin(binmap, i)[BINMAPSIZE] == binmap[BINMAPSIZE]
  {
    hide Bit, Has, Join;
    if i / 32 == j / 32 {
      SetHas(binmap[i / 32], i % 32, j % 32);
      assert i == 32 * (i / 32) + i % 32 && j == 32 * (j / 32) + j % 32;
    }
  }

  /** Unmarking a bin found empty keeps the promise. */
  lemma UnmarkEmpty(binmap: seq<bv32>, bins: seq<seq<int>>, i: nat)
    requires MapCovers(binmap, bins) && 2 <= i < NBINS && bins[i] == []
    ensures MapCovers(binmap[i / 32 := Minus(binmap[i / 32], Bit(i % 32))], bins)
  {
    hide Bit, Has, Minus;
    var binmap' := binmap[i / 32 := Minus(binmap[i / 32], Bit(i % 32))];
    forall j: nat | 2 <= j < NBINS && bins[j] != []
      ensures Marked(binmap', j)
    {
      assert Marked(binmap, j);
      if i / 32 == j / 32 {
        assert i == 32 * (i / 32) + i % 32 && j == 32 * (j / 32) + j % 32;
        ClearHas(binmap[i / 32], i % 32, j % 32);
      }
    }
  }

  /** From a to e - 1 all bits are clear now, and the others are as they were. */
  ghost predicate Cleared(m0: seq<bv32>, m: seq<bv32>, a: int, e: int) {
    |m| == |m0| == BINMAPSIZE + 1 && forall i: nat {:trigger Marked(m, i)} ::
      i < NBINS ==> (Marked(m, i) <==> Marked(m0, i) && !(a <= i < e))
  }

  lemma ClearedOn(m0: seq<bv32>, m: seq<bv32>, a: int, e: int, e': int)
    requires Cleared(m0, m, a, e) && e <= e'
    requires forall i: nat {:trigger Marked(m, i)} :: e <= i < e' && i < NBINS ==> !Marked(m, i)
    ensures Cleared(m0, m, a, e')
  {
  }

  /** Bits k to l - 1 of a word that are clear. */
  lemma WordUnmarked(m: seq<bv32>, w: nat, k: nat, l: nat)
    requires |m| == BINMAPSIZE + 1 && w <= BINMAPSIZE && k <= l <= 32
    requires forall j {:trigger Has(m[w], j)} :: k <= j < l ==> !Has(m[w], j)
    ensures forall i: nat {:trigger Marked(m, i)} :: 32 * w + k <= i < 32 * w + l && i < NBINS ==> !Marked(m, i)
  {
    forall i: nat | 32 * w + k <= i < 32 * w + l && i < NBINS ensures !Marked(m, i) {
      assert i / 32 == w && i % 32 == i - 32 * w;
    }
  }

  /** Words that are zero. */
  lemma WordsUnmarked(m: seq<bv32>, v: nat, w: nat)
    requires |m| == BINMAPSIZE + 1 && v <= w <= BINMAPSIZE
    requires forall x {:trigger m[x]} :: v <= x < w ==> IsZero(m[x])
    ensures forall i: nat {:trigger Marked(m, i)} :: 32 * v <= i < 32 * w && i < NBINS ==> !Marked(m, i)
  {
    hide Has, IsZero;
    forall i: nat | 32 * v <= i < 32 * w && i < NBINS ensures !Marked(m, i) {
      assert v <= i / 32 < w;
      ZeroWord(m[i / 32], i % 32);
    }
  }

  /** Clearing one bit clears that one. */
  lemma ClearedOne(m0: seq<bv32>, m: seq<bv32>, a: int, i: nat)
    requires Cleared(m0, m, a, i) && a <= i < NBINS
    ensures Cleared(m0, m[i / 32 := Minus(m[i / 32], Bit(i % 32))], a, i + 1)
  {
    hide Bit, Has, Minus;
    var m' := m[i / 32 := Minus(m[i / 32], Bit(i % 32))];
    forall j: nat | j < NBINS
      ensures Marked(m', j) <==> Marked(m, j) && j != i
    {
      if i / 32 == j / 32 {
        assert i == 32 * (i / 32) + i % 32 && j == 32 * (j / 32) + j % 32;
        if i == j { ClearedSelf(m[i / 32], i % 32); } else { ClearHas(m[i / 32], i % 32, j % 32); }
      }
    }
  }

  lemma ClearedSelf(word: bv32, k: nat)
    requires k < 32
    ensures !Has(Minus(word, Bit(k)), k)
  {
    hide Bit;
    MinusSelf(word, Bit(k));
  }

  lemma MinusSelf(a: bv32, b: bv32)
    ensures !Meets(Minus(a, b), b)
  {
  }

  /** Lists that only lose chunks stay covered, and so do lists that gain some
      in a bin that gets marked. */
  lemma StillCovers(binmap: seq<bv32>, bins: seq<seq<int>>, bins': seq<seq<int>>)
    requires MapCovers(binmap, bins) && |bins'| == |bins|
    requires forall i {:trigger bins'[i]} :: 2 <= i < NBINS && bins'[i] != [] ==> bins[i] != []
    ensures MapCovers(binmap, bins')
  {
  }

  lemma MarkedCovers(binmap: seq<bv32>, bins: seq<seq<int>>, i: nat, l: seq<int>)
    requires MapCovers(binmap, bins) && 2 <= i < NBINS
    ensures MapCovers(MarkBin(binmap, i), bins[i := l])
  {
    var bins' := bins[i := l];
    MarkBinMarks(binmap, i, i);
    forall j: nat | 2 <= j < NBINS && bins'[j] != []
      ensures Marked(MarkBin(binmap, i), j)
    {
      MarkBinMarks(binmap, i, j);
      assert bins[j] != [] ==> Marked(binmap, j);
    }
  }
}
