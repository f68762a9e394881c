/** How much memory free chunks too small for a request can hold: full coalescing
    leaves at most one of them in front of every block in use. */
module Fragmentation {
  import opened SizeClasses
  import opened HeapShape
  import opened HeapSteps
  import opened BestFit
  import opened Accounting

  ghost function UsedFrom(s: Shape, x: int): set<int> { set y | y in Blocks(s) && y >= x }

  /** From boundary x on: the blocks in use, less than nb bytes in front of each of
      them, and top. */
  lemma {:induction false} HolesFrom(s: Shape, x: int, nb: int)
    requires Tiled(s) && Coalesced(s) && NothingFits(s, nb) && x in s.size && nb >= 0
    requires forall y {:trigger s.st[y]} :: y in s.st ==> s.st[y] != Fast
    ensures UsedFrom(s, x) <= s.size.Keys
    ensures s.end - x <= Weight(s.size, UsedFrom(s, x)) + |UsedFrom(s, x)| * nb + s.size[s.top] +
      (if IsFree(s, x) then nb else 0)
    decreases s.end - x
  {
    hide Aligned, BinIndex, Weight;
    Inside(s, x);
    if x == s.top {
      forall y | y in Blocks(s) ensures y < x { Inside(s, y); }
      assert UsedFrom(s, x) == {};
      NothingWeighs(s.size, []);
    } else {
      var n := Next(s, x);
      HolesFrom(s, n, nb);
      forall y | y in Blocks(s) && y > x ensures y >= n { assert Apart(s, x, y); }
      if IsFree(s, x) {
        assert !Fits(s, x, nb) && Inuse(s, n);
        assert UsedFrom(s, x) == UsedFrom(s, n);
      } else {
        assert UsedFrom(s, x) == UsedFrom(s, n) + {x};
        assert UsedFrom(s, x) - {x} == UsedFrom(s, n);
        WeightRemove(s.size, UsedFrom(s, x), x);
        OneMoreHole(|UsedFrom(s, n)|, nb);
      }
    }
  }

  lemma OneMoreHole(n: int, nb: int)
    ensures (n + 1) * nb == n * nb + nb
  {
  }

  /** Over the whole region. */
  lemma Holes(s: Shape, nb: int)
    requires Tiled(s) && Coalesced(s) && NothingFits(s, nb) && nb >= 0
    requires forall y {:trigger s.st[y]} :: y in s.st ==> s.st[y] != Fast
    ensures Blocks(s).Keys <= s.size.Keys
    ensures s.end - s.base <= Weight(s.size, Blocks(s).Keys) + (|Blocks(s)| + 1) * nb + s.size[s.top]
  {
    hide Aligned, BinIndex, Weight;
    HolesFrom(s, s.base, nb);
    forall y | y in Blocks(s) ensures y >= s.base { Inside(s, y); }
    assert UsedFrom(s, s.base) == Blocks(s).Keys && |Blocks(s).Keys| == |Blocks(s)|;
    OneMoreHole(|Blocks(s)|, nb);
  }
}
