/** What mallinfo adds up: the chunks partition the region, so their sizes sum to
    what was obtained from sbrk. */
module Accounting {
  import opened SizeClasses
  import opened HeapShape
  import opened BinLists
  import opened FastBins
  import opened HeapSteps

  ghost function Pick(chunks: set<int>): (x: int)
    requires chunks != {}
    ensures x in chunks
  {
    assert (forall x :: x !in chunks) ==> chunks == {};
    var x :| x in chunks; x
  }

  /** The total size of a set of chunks. */
  ghost function Weight(size: map<int, int>, chunks: set<int>): int
    requires chunks <= size.Keys
    decreases |chunks|
  {
    if chunks == {} then 0 else var x := Pick(chunks); size[x] + Weight(size, chunks - {x})
  }

  ghost function Elems(l: seq<int>): set<int> { set x | x in l }

  ghost function FastBelow(s: Shape, i: int): set<int> {
    set x | x in s.size && x in s.st && s.st[x] == Fast && FastbinIndex(s.size[x]) < i
  }

  ghost function BinnedBelow(s: Shape, i: int): set<int> {
    set x | x in s.size && x in s.st && s.st[x].Binned? && s.st[x].bin < i
  }

  ghost function ChunksFrom(s: Shape, x: int): set<int> { set y | y in s.size && y >= x }

  lemma {:induction false} WeightRemove(size: map<int, int>, chunks: set<int>, x: int)
    requires chunks <= size.Keys && x in chunks
    ensures Weight(size, chunks) == size[x] + Weight(size, chunks - {x})
    decreases |chunks|
  {
    hide Pick;
    var y := Pick(chunks);
    var rest := chunks - {x, y};
    if y != x {
      assert chunks - {y} - {x} == rest == chunks - {x} - {y};
      WeightRemove(size, chunks - {y}, x);
      WeightRemove(size, chunks - {x}, y);
    }
  }

  lemma {:induction false} WeightUnion(size: map<int, int>, a: set<int>, b: set<int>)
    requires a <= size.Keys && b <= size.Keys && a !! b
    ensures Weight(size, a + b) == Weight(size, a) + Weight(size, b)
    decreases |a|
  {
    if a == {} {
      assert a + b == b;
    } else {
      var x := Pick(a);
      WeightRemove(size, a, x);
      WeightRemove(size, a + b, x);
      assert a + b - {x} == (a - {x}) + b;
      WeightUnion(size, a - {x}, b);
    }
  }

  lemma {:induction false} WeightPositive(s: Shape, chunks: set<int>)
    requires Tiled(s) && chunks <= s.size.Keys
    ensures Weight(s.size, chunks) >= 0
    decreases |chunks|
  {
    if chunks != {} {
      var x := Pick(chunks);
      assert ChunkOk(s, x);
      WeightPositive(s, chunks - {x});
    }
  }

  /** One more chunk of a list without repetitions. */
  lemma CountNext(size: map<int, int>, l: seq<int>, k: int)
    requires 0 <= k < |l| && Distinct(l) && Elems(l) <= size.Keys
    ensures Elems(l[..k + 1]) <= size.Keys && Elems(l[..k]) <= size.Keys && l[k] in size
    ensures Weight(size, Elems(l[..k + 1])) == Weight(size, Elems(l[..k])) + size[l[k]]
    ensures |Elems(l[..k + 1])| == |Elems(l[..k])| + 1
  {
    var part := l[..k + 1];
    assert part[k] == l[k] && part[..k] == l[..k];
    assert Elems(part) == Elems(l[..k]) + {l[k]};
    assert Elems(part) - {l[k]} == Elems(l[..k]);
    WeightRemove(size, Elems(part), l[k]);
  }

  lemma NothingWeighs(size: map<int, int>, l: seq<int>)
    ensures Elems(l[..0]) == {} && Elems(l[..|l|]) == Elems(l) && Weight(size, {}) == 0
  {
    assert l[..|l|] == l;
  }

  /** The chunks from any boundary on fill the region up to its end. */
  lemma {:induction false} TilesFrom(s: Shape, x: int)
    requires Tiled(s) && x in s.size
    ensures ChunksFrom(s, x) <= s.size.Keys && Weight(s.size, ChunksFrom(s, x)) == s.end - x
    decreases s.end - x
  {
    hide Aligned, BinIndex;
    Inside(s, x);
    var n := Next(s, x);
    WeightRemove(s.size, ChunksFrom(s, x), x);
    forall y | y in s.size && y > x ensures y >= n { assert Apart(s, x, y); }
    assert ChunksFrom(s, x) - {x} == ChunksFrom(s, n);
    if x == s.top {
      forall y | y in s.size ensures y < n { Inside(s, y); }
      assert ChunksFrom(s, n) == {};
    } else {
      TilesFrom(s, n);
    }
  }

  /** Conservation: used, parked, binned chunks and top make up the whole region. */
  lemma ConservedSpace(s: Shape, bins: seq<seq<int>>, fast: seq<seq<int>>)
    requires Tiled(s) && Complete(s, bins) && |bins| == NBINS && FastListed(s, fast) && FastComplete(s, fast)
    ensures Blocks(s).Keys + FastBelow(s, NFASTBINS) + BinnedBelow(s, NBINS) <= s.size.Keys
    ensures s.end - s.base ==
      Weight(s.size, Blocks(s).Keys) + Weight(s.size, FastBelow(s, NFASTBINS)) + Weight(s.size, BinnedBelow(s, NBINS)) +
        s.size[s.top]
  {
    hide Aligned, BinIndex, FastbinIndex;
    var used, parked, binned := Blocks(s).Keys, FastBelow(s, NFASTBINS), BinnedBelow(s, NBINS);
    forall x | x in s.size
      ensures x == s.top || x in used || x in parked || x in binned
      ensures x in used || x in parked || x in binned ==> x != s.top
      ensures x >= s.base
    {
      Inside(s, x);
      if s.st[x] == Fast { Parked(s, fast, x); }
    }
    assert s.size.Keys - {s.top} == used + parked + binned;
    assert ChunksFrom(s, s.base) == s.size.Keys;
    TilesFrom(s, s.base);
    WeightRemove(s.size, s.size.Keys, s.top);
    WeightUnion(s.size, used + parked, binned);
    WeightUnion(s.size, used, parked);
  }

  lemma Parked(s: Shape, fast: seq<seq<int>>, x: int)
    requires FastListed(s, fast) && FastComplete(s, fast) && x in s.st && s.st[x] == Fast
    ensures x in s.size && 0 <= FastbinIndex(s.size[x]) < NFASTBINS && x in fast[FastbinIndex(s.size[x])]
  {
    var i :| 0 <= i < |fast| && x in fast[i];
    var k :| 0 <= k < |fast[i]| && fast[i][k] == x;
    assert FastEntry(s, fast, i, k);
  }

  /** The next fastbin's chunks join those already counted. */
  lemma CountFastbin(s: Shape, fast: seq<seq<int>>, i: int)
    requires FastListed(s, fast) && FastComplete(s, fast) && 0 <= i < NFASTBINS
    ensures Elems(fast[i]) <= s.size.Keys && FastBelow(s, i) <= s.size.Keys && FastBelow(s, i + 1) <= s.size.Keys
    ensures Weight(s.size, FastBelow(s, i + 1)) == Weight(s.size, FastBelow(s, i)) + Weight(s.size, Elems(fast[i]))
    ensures |FastBelow(s, i + 1)| == |FastBelow(s, i)| + |Elems(fast[i])|
  {
    hide FastbinIndex;
    forall x | x in fast[i]
      ensures x in s.size && x in s.st && s.st[x] == Fast && FastbinIndex(s.size[x]) == i
    {
      var k :| 0 <= k < |fast[i]| && fast[i][k] == x;
      assert FastEntry(s, fast, i, k);
    }
    forall x | x in s.st && s.st[x] == Fast && x in s.size && FastbinIndex(s.size[x]) == i
      ensures x in fast[i]
    {
      Parked(s, fast, x);
    }
    assert FastBelow(s, i + 1) == FastBelow(s, i) + Elems(fast[i]);
    WeightUnion(s.size, FastBelow(s, i), Elems(fast[i]));
  }

  lemma NoFastbinBelow(s: Shape, fast: seq<seq<int>>)
    requires FastListed(s, fast) && FastComplete(s, fast)
    ensures FastBelow(s, 0) == {}
  {
    hide FastbinIndex;
    forall x | x in FastBelow(s, 0) ensures false { Parked(s, fast, x); }
  }

  /** The next bin's chunks join those already counted. */
  lemma CountBin(s: Shape, binsBase: int, bins: seq<seq<int>>, i: int)
    requires Tiled(s) && Listed(s, binsBase, bins) && Complete(s, bins) && 0 <= i < NBINS
    ensures Elems(bins[i]) <= s.size.Keys && BinnedBelow(s, i) <= s.size.Keys && BinnedBelow(s, i + 1) <= s.size.Keys
    ensures Weight(s.size, BinnedBelow(s, i + 1)) == Weight(s.size, BinnedBelow(s, i)) + Weight(s.size, Elems(bins[i]))
    ensures |BinnedBelow(s, i + 1)| == |BinnedBelow(s, i)| + |Elems(bins[i])|
  {
    hide BinIndex, Aligned;
    forall x | x in bins[i]
      ensures x in s.size && x in s.st && s.st[x] == Binned(i)
    {
      var k :| 0 <= k < |bins[i]| && bins[i][k] == x;
      assert Entry(s, bins, i, k);
    }
    forall x | x in BinnedBelow(s, i + 1)
      ensures x in BinnedBelow(s, i) || x in Elems(bins[i])
    {
      assert s.st[x].bin < i + 1 && x in bins[s.st[x].bin];
    }
    assert BinnedBelow(s, i + 1) == BinnedBelow(s, i) + Elems(bins[i]);
    WeightUnion(s.size, BinnedBelow(s, i), Elems(bins[i]));
  }

  lemma NoBinBelow(s: Shape, bins: seq<seq<int>>)
    requires Tiled(s) && Complete(s, bins) && |bins| == NBINS
    ensures BinnedBelow(s, 1) == {}
  {
    forall x | x in BinnedBelow(s, 1)
      ensures false
    {
      assert ChunkOk(s, x);
      BinIndexInRange(s.size[x]);
    }
  }
}
