/** Why the bin scans of malloc find a best fit. */
module BestFit {
  import opened SizeClasses
  import opened HeapShape
  import opened BoundaryTags
  import opened BinLists
  import opened BinMap
  import opened HeapSteps

  ghost predicate Fits(s: Shape, x: int, nb: int) {
    x in s.size && IsFree(s, x) && s.size[x] >= nb
  }

  /** No free chunk that fits is in a bin below b. */
  ghost predicate NoFitBelow(s: Shape, nb: int, b: int) {
    forall x {:trigger Fits(s, x, nb)} :: Fits(s, x, nb) ==> s.st[x].bin >= b
  }

  /** p fits and no free chunk that fits is smaller. */
  ghost predicate SmallestFit(s: Shape, p: int, nb: int) {
    Fits(s, p, nb) && forall x {:trigger Fits(s, x, nb)} :: Fits(s, x, nb) ==> s.size[p] <= s.size[x]
  }

  /** With the unsorted bin empty, every chunk is in the bin of its size. */
  lemma BinOfSize(s: Shape, bins: seq<seq<int>>, x: int)
    requires Tiled(s) && Complete(s, bins) && |bins| == NBINS && bins[1] == [] && x in s.size && IsFree(s, x)
    ensures LegalSize(s.size[x]) && s.st[x].bin == BinIndex(s.size[x]) && x in bins[BinIndex(s.size[x])]
    ensures 2 <= BinIndex(s.size[x]) < NBINS
  {
    hide BinIndex, Aligned;
    assert ChunkOk(s, x);
    BinIndexInRange(s.size[x]);
  }

  /** The scan may start at the bin of the request. */
  lemma StartAtOwnBin(s: Shape, bins: seq<seq<int>>, nb: int)
    requires Tiled(s) && Complete(s, bins) && |bins| == NBINS && bins[1] == [] && LegalSize(nb)
    ensures NoFitBelow(s, nb, BinIndex(nb))
  {
    hide BinIndex, Aligned;
    forall x | Fits(s, x, nb)
      ensures s.st[x].bin >= BinIndex(nb)
    {
      BinOfSize(s, bins, x);
      BinIndexMonotone(nb, s.size[x]);
    }
  }

  /** A bin without a fit can be passed. */
  lemma PassBin(s: Shape, bins: seq<seq<int>>, nb: int, b: int)
    requires Tiled(s) && Complete(s, bins) && |bins| == NBINS && bins[1] == [] && NoFitBelow(s, nb, b)
    requires b >= NBINS
      || (0 <= b && forall k {:trigger bins[b][k]} :: 0 <= k < |bins[b]| ==>
        bins[b][k] in s.size && s.size[bins[b][k]] < nb)
    ensures NoFitBelow(s, nb, b + 1)
  {
    hide BinIndex, Aligned;
    forall x | Fits(s, x, nb)
      ensures s.st[x].bin >= b + 1
    {
      BinOfSize(s, bins, x);
    }
  }

  /** The first fit from the small end of the lowest bin that has one is the
      smallest of all. */
  lemma LowestBinBest(s: Shape, binsBase: int, bins: seq<seq<int>>, nb: int, b: int, k: int)
    requires Tiled(s) && Complete(s, bins) && Listed(s, binsBase, bins) && Sorted(s, bins) && bins[1] == []
    requires NoFitBelow(s, nb, b) && 2 <= b < NBINS && 0 <= k < |bins[b]|
    requires bins[b][k] in s.size && s.size[bins[b][k]] >= nb
    requires forall j {:trigger bins[b][j]} :: k < j < |bins[b]| ==> bins[b][j] in s.size && s.size[bins[b][j]] < nb
    ensures SmallestFit(s, bins[b][k], nb)
  {
    hide BinIndex, Aligned;
    var p := bins[b][k];
    assert Entry(s, bins, b, k);
    BinOfSize(s, bins, p);
    forall x | Fits(s, x, nb)
      ensures s.size[p] <= s.size[x]
    {
      BinOfSize(s, bins, x);
      if s.st[x].bin == b {
        var j :| 0 <= j < |bins[b]| && bins[b][j] == x;
        assert Descending(s, bins[b]);
        assert j <= k;
      } else {
        LaterBinFits(s.size[p], s.size[x]);
      }
    }
  }

  lemma NoneFits(s: Shape, bins: seq<seq<int>>, nb: int)
    requires Tiled(s) && Complete(s, bins) && |bins| == NBINS && NoFitBelow(s, nb, NBINS)
    ensures forall x {:trigger Fits(s, x, nb)} :: !Fits(s, x, nb)
  {
    hide BinIndex, Aligned;
    forall x
      ensures !Fits(s, x, nb)
    {
      if Fits(s, x, nb) { ListOf(s, bins, x); }
    }
  }

  /** Bins of one map word that are not marked can all be passed. */
  lemma PassWord(s: Shape, bins: seq<seq<int>>, binmap: seq<bv32>, nb: int, block: nat, k: nat)
    requires Tiled(s) && Complete(s, bins) && MapCovers(binmap, bins) && bins[1] == [] == bins[0] && block <= BINMAPSIZE
      && k <= 32
    requires NoFitBelow(s, nb, 32 * block + k)
    requires forall j {:trigger Has(binmap[block], j)} :: k <= j < 32 ==> !Has(binmap[block], j)
    ensures NoFitBelow(s, nb, 32 * (block + 1))
    decreases 32 - k
  {
    hide BinIndex, Aligned, Has, NoFitBelow, Complete, Tiled;
    if k < 32 {
      assert !Has(binmap[block], k);
      UnmarkedEmpty(bins, binmap, block, k);
      PassBin(s, bins, nb, 32 * block + k);
      PassWord(s, bins, binmap, nb, block, k + 1);
    }
  }

  lemma UnmarkedEmpty(bins: seq<seq<int>>, binmap: seq<bv32>, block: nat, k: nat)
    requires MapCovers(binmap, bins) && block <= BINMAPSIZE && k < 32 && !Has(binmap[block], k)
    ensures 2 <= 32 * block + k < NBINS ==> bins[32 * block + k] == []
  {
    hide Has;
    var i := 32 * block + k;
    assert i / 32 == block && i % 32 == k;
    assert i < NBINS ==> (Marked(binmap, i) <==> Has(binmap[block], k));
  }

  /** Block p was cut from, or is, a free chunk of size `fit`, and every free
      chunk left that fits, other than p's own remainder, is at least that large. */
  ghost predicate BestFitTaken(s: Shape, p: int, nb: int, fit: int) {
    && p in s.size
    && (s.size[p] == fit || (s.size[p] == nb && p + nb in s.size && IsFree(s, p + nb) && s.size[p + nb] == fit - nb))
    && forall x {:trigger Fits(s, x, nb)} :: Fits(s, x, nb) && x != p + nb ==> fit <= s.size[x]
  }

  lemma TakenWhole(s: Shape, p: int, nb: int)
    requires Tiled(s) && SmallestFit(s, p, nb) && p != s.top
    ensures BestFitTaken(Merge(s, p, Next(s, p), Used), p, nb, s.size[p])
  {
    hide BinIndex, Aligned;
    var s' := Merge(s, p, Next(s, p), Used);
    forall x | Fits(s', x, nb) && x != p + nb
      ensures s.size[p] <= s'.size[x]
    {
      assert Fits(s, x, nb);
    }
  }

  lemma TakenSplit(s: Shape, p: int, nb: int)
    requires Tiled(s) && SmallestFit(s, p, nb) && p != s.top && p in s.st && 0 < nb
    ensures BestFitTaken(Split(s, p, nb, Used, Binned(1)), p, nb, s.size[p])
  {
    hide BinIndex, Aligned;
    var s' := Split(s, p, nb, Used, Binned(1));
    forall x | Fits(s', x, nb) && x != p + nb
      ensures s.size[p] <= s'.size[x]
    {
      assert Fits(s, x, nb);
    }
  }

  /** No free chunk fits: the state in which top may be used. */
  ghost predicate NothingFits(s: Shape, nb: int) {
    forall x {:trigger Fits(s, x, nb)} :: !Fits(s, x, nb)
  }

  lemma NothingFitsAfterGrowth(s: Shape, more: int, nb: int)
    requires Tiled(s) && NothingFits(s, nb)
    ensures NothingFits(GrowTop(s, more), nb)
  {
    hide BinIndex, Aligned;
    assert ChunkOk(s, s.top);
    forall x
      ensures !Fits(GrowTop(s, more), x, nb)
    {
      assert !Fits(s, x, nb);
    }
  }

  lemma NothingFitsAfterTopSplit(s: Shape, nb: int)
    requires Tiled(s) && NothingFits(s, nb)
    ensures NothingFits(Split(s, s.top, nb, Used, Top), nb)
  {
    hide BinIndex, Aligned;
    forall x
      ensures !Fits(Split(s, s.top, nb, Used, Top), x, nb)
    {
      assert !Fits(s, x, nb);
    }
  }

  lemma EmptyBinsFitNothing(s: Shape, bins: seq<seq<int>>, nb: int)
    requires Complete(s, bins) && forall i :: 0 <= i < |bins| ==> bins[i] == []
    ensures NothingFits(s, nb)
  {
    forall x
      ensures !Fits(s, x, nb)
    {
      assert x in s.st ==> !s.st[x].Binned?;
    }
  }

  /** Where a chunk of this size goes in a large bin: behind every chunk when none
      is smaller, else in front of the first that is not larger. */
  ghost predicate InsertionPoint(s: Shape, l: seq<int>, size: int, k: int)
    requires forall j {:trigger l[j]} :: 0 <= j < |l| ==> l[j] in s.size
  {
    && 0 <= k <= |l|
    && (k == |l| <==> forall j {:trigger l[j]} :: 0 <= j < |l| ==> s.size[l[j]] >= size)
    && (k < |l| ==> s.size[l[k]] <= size && forall j {:trigger l[j]} :: 0 <= j < k ==> s.size[l[j]] > size)
  }

  /** The front of a small bin, where all sizes are the same. */
  ghost predicate PlaceFor(s: Shape, l: seq<int>, size: int, k: int) {
    && (forall j {:trigger l[j]} :: 0 <= j < |l| ==> l[j] in s.size)
    && if InSmallbinRange(size) then k == 0 else InsertionPoint(s, l, size, k)
  }

  /** Chunk x went to its place k in the bin of its size. */
  ghost predicate Placed(s: Shape, bins: seq<seq<int>>, bins': seq<seq<int>>, x: int, size: int, k: int) {
    && |bins| == NBINS && 0 <= size && 2 <= BinIndex(size) < NBINS && 0 <= k <= |bins[BinIndex(size)]|
    && PlaceFor(s, bins[BinIndex(size)], size, k)
    && bins' == bins[BinIndex(size) := Insert(bins[BinIndex(size)], k, x)]
  }

  /** Chunks are taken from the back, so a tie is first in, first out when the
      newcomer goes in front of its equals.  That is documented of all bins but
      fails exactly for chunks of the smallest size in a large bin. */
  lemma TiesFifoUnlessSmallest(s: Shape, l: seq<int>, size: int, k: int)
    requires (forall j {:trigger l[j]} :: 0 <= j < |l| ==> l[j] in s.size) && Descending(s, l)
      && InsertionPoint(s, l, size, k)
    ensures (forall j {:trigger l[j]} :: 0 <= j < k ==> s.size[l[j]] != size) <==> l == [] || size != s.size[l[|l| - 1]]
  {
    if l != [] {
      var last := l[|l| - 1];
      forall j | 0 <= j < |l| ensures s.size[l[j]] >= s.size[last] { assert l[j] in s.size && last in s.size; }
    }
  }

  /** Two chunks of 1024 bytes, the second put in after the first: it goes to the back
      and will be taken first. */
  lemma SecondTakenFirst()
    ensures var s := Shape(0, 4096, 3072, map[8 := 1024], map[8 := Binned(BinIndex(1024))]);
      Descending(s, [8]) && forall k {:trigger InsertionPoint(s, [8], 1024, k)} :: InsertionPoint(s, [8], 1024, k) <==>
        k == 1
  {
    hide BinIndex;
  }

  /** With no block in use and none parked, coalescing has left one chunk: top. */
  lemma AllFreeIsTop(s: Shape)
    requires Tiled(s) && Coalesced(s) && forall x {:trigger s.st[x]} :: x in s.st ==> s.st[x] != Used && s.st[x] != Fast
    ensures s.size == map[s.base := s.end - s.base] && s.top == s.base
  {
    hide BinIndex, Aligned;
    assert ChunkOk(s, s.base);
    assert s.base != s.top ==> IsFree(s, s.base) && !Inuse(s, Next(s, s.base));
    forall x | x in s.size ensures x == s.base { Inside(s, x); }
  }
}
