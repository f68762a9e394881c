/** One step of the allocator on the whole heap: what the picture, the boundary
    tags and the lists look like after a run of chunks was fused or cut. */
module HeapSteps {
  import opened SizeClasses
  import opened HeapShape
  import opened BoundaryTags
  import opened BinLists
  import opened FastBins

  /** Picture, tags and lists agree; chunks may still be on their way from one
      list to another. */
  ghost predicate Core(s: Shape, binsBase: int, bins: seq<seq<int>>, lo: seq<int>, hi: seq<int>) {
    && Tiled(s) && Bounded(s, lo, hi) && Tags(s, lo, hi)
    && Listed(s, binsBase, bins) && Sorted(s, bins) && Rings(binsBase, bins, lo, hi)
  }

  /** The whole heap invariant between operations. */
  ghost predicate HeapInv(s: Shape, binsBase: int, bins: seq<seq<int>>, lo: seq<int>, hi: seq<int>) {
    Core(s, binsBase, bins, lo, hi) && Coalesced(s) && Complete(s, bins)
  }

  /** A run [f, e) of whole chunks. */
  ghost predicate Run(s: Shape, f: int, e: int) {
    f in s.size && f < e && Boundary(s, e)
  }

  lemma MergeSameOutside(s: Shape, f: int, e: int, t: Status)
    requires Tiled(s) && Run(s, f, e) && (t == Top <==> e == s.end)
    ensures SameOutside(s, Merge(s, f, e, t), f, e)
  {
    hide BinIndex, Aligned;
    var s' := Merge(s, f, e, t);
    Inside(s, f);
    assert e in s.size ==> ChunkOk(s, e) && Apart(s, e, f);
    forall x | !(f <= x < e)
      ensures SameChunk(s, s', x)
    {
      assert x in s.size ==> ChunkOk(s, x);
    }
  }

  /** Changing only the first header and the outer tags of a fused run. */
  lemma MergeTags(s: Shape, lo: seq<int>, hi: seq<int>, lo': seq<int>, hi': seq<int>, f: int, e: int, t: Status)
    requires Tiled(s) && Bounded(s, lo, hi) && Tags(s, lo, hi) && Run(s, f, e)
    requires t == Top <==> e == s.end
    requires t != Fast && (t.Binned? ==> t.bin == 1)
    requires Within(lo, hi, lo', hi', f, e)
    requires 0 <= f < |hi| && hi'[f] - (e - f) == hi[f] - s.size[f]
    requires e in s.size ==>
      0 <= e < |hi| && hi'[e] == s.size[e] + InuseBit(!t.Binned?) && (t.Binned? ==> lo'[e] == e - f)
    ensures Tiled(Merge(s, f, e, t)) && Tags(Merge(s, f, e, t), lo', hi')
  {
    hide BinIndex, Aligned;
    var s' := Merge(s, f, e, t);
    MergeTiled(s, f, e, t);
    MergeSameOutside(s, f, e, t);
    HeadWord(s, lo, hi, f);
    assert Next(s', f) == e;
    assert ChunkOk(s', f) && Tag(s, lo, hi, f);
    assert Tag(s', lo', hi', f);
    TagsLocal(s, s', lo, hi, lo', hi', f, e);
  }

  /** No free chunk touches another one after the fusion. */
  lemma MergeCoalesced(s: Shape, lo: seq<int>, hi: seq<int>, f: int, e: int, t: Status)
    requires Tiled(s) && Bounded(s, lo, hi) && Tags(s, lo, hi) && Run(s, f, e) && Coalesced(s)
    requires t == Top <==> e == s.end
    requires 0 <= f < |hi| && (t == Used || PrevInuse(hi[f]))
    requires t.Binned? ==> Inuse(s, e)
    ensures Coalesced(Merge(s, f, e, t))
  {
    hide BinIndex, Aligned;
    var s' := Merge(s, f, e, t);
    MergeSameOutside(s, f, e, t);
    forall x | x in s'.size && IsFree(s', x) && x != s'.top
      ensures Inuse(s', Next(s', x))
    {
      if x == f {
        assert SameChunk(s, s', e);
      } else {
        FreeOutside(s, s', lo, hi, f, e, x);
      }
    }
  }

  /** A free chunk before a run whose first P bit is set, or whose first chunk
      stays in use, and any free chunk after the run still has a neighbour in use. */
  lemma FreeOutside(s: Shape, s': Shape, lo: seq<int>, hi: seq<int>, f: int, e: int, x: int)
    requires Tiled(s) && Bounded(s, lo, hi) && Tags(s, lo, hi) && Run(s, f, e) && Coalesced(s)
    requires SameOutside(s, s', f, e) && 0 <= f < |hi| && (Inuse(s', f) || PrevInuse(hi[f]))
    requires x in s'.size && IsFree(s', x) && !(f <= x < e) && x != s'.top
    ensures Next(s', x) in s'.size && Inuse(s', Next(s', x))
  {
    hide BinIndex, Aligned;
    assert SameChunk(s, s', x) && ChunkOk(s, x) && Tag(s, lo, hi, x) && Apart(s, x, f);
    assert IsFree(s, x);
    HeadWord(s, lo, hi, f);
    assert Next(s, x) != f ==> SameChunk(s, s', Next(s, x));
  }

  /** Fusing a run none of whose chunks is listed any more. */
  lemma MergeStep(s: Shape, binsBase: int, bins: seq<seq<int>>,
                  lo: seq<int>, hi: seq<int>, lo': seq<int>, hi': seq<int>, f: int, e: int, t: Status)
    requires Core(s, binsBase, bins, lo, hi) && Coalesced(s) && Run(s, f, e) && ClearOf(bins, f, e)
    requires t == Top <==> e == s.end
    requires t != Fast && (t.Binned? ==> t.bin == 1 && Inuse(s, e))
    requires Within(lo, hi, lo', hi', f, e)
    requires 0 <= f < |hi| && (t == Used || PrevInuse(hi[f])) && hi'[f] - (e - f) == hi[f] - s.size[f]
    requires e in s.size ==>
      0 <= e < |hi| && hi'[e] == s.size[e] + InuseBit(!t.Binned?) && (t.Binned? ==> lo'[e] == e - f)
    ensures Core(Merge(s, f, e, t), binsBase, bins, lo', hi') && Coalesced(Merge(s, f, e, t))
  {
    var s' := Merge(s, f, e, t);
    MergeTags(s, lo, hi, lo', hi', f, e, t);
    MergeCoalesced(s, lo, hi, f, e, t);
    MergeSameOutside(s, f, e, t);
    ListsAcross(s, s', binsBase, bins, f, e);
    RingsAcross(s, binsBase, bins, lo, hi, lo', hi', f, e);
  }

  lemma SplitSameOutside(s: Shape, p: int, nb: int, u: Status)
    requires CanSplit(s, p, nb, u)
    ensures SameOutside(s, Split(s, p, nb, Used, u), p, Next(s, p)) && Boundary(s, Next(s, p))
  {
    hide BinIndex, Aligned;
    var s', e := Split(s, p, nb, Used, u), Next(s, p);
    assert ChunkOk(s, p);
    forall x | !(p <= x < e)
      ensures SameChunk(s, s', x)
    {
      assert x in s.size ==> ChunkOk(s, x);
    }
  }

  /** Cutting chunk p: the lower part keeps its P bit, the upper part gets a set
      P bit and, when it stays free, a foot. */
  lemma SplitTags(s: Shape, lo: seq<int>, hi: seq<int>, lo': seq<int>, hi': seq<int>, p: int, nb: int, u: Status)
    requires Tiled(s) && Bounded(s, lo, hi) && Tags(s, lo, hi) && CanSplit(s, p, nb, u)
    requires u.Binned? <==> IsFree(s, p)
    requires Within(lo, hi, lo', hi', p, Next(s, p))
    requires var r, e := p + nb, Next(s, p);
      && 0 <= p < |hi| && 0 <= r < |hi| && hi'[p] == nb + (hi[p] - s.size[p]) && hi'[r] == s.size[p] - nb + 1
      && (p != s.top ==> 0 <= e < |hi| && hi'[e] == hi[e] && (u.Binned? ==> lo'[e] == s.size[p] - nb))
    ensures Tiled(Split(s, p, nb, Used, u)) && Tags(Split(s, p, nb, Used, u), lo', hi')
  {
    hide BinIndex, Aligned;
    var s', r, e := Split(s, p, nb, Used, u), p + nb, Next(s, p);
    SplitTiled(s, p, nb, u);
    SplitSameOutside(s, p, nb, u);
    assert Tag(s, lo, hi, p) && ChunkOk(s, p);
    assert Next(s', p) == r && Next(s', r) == e;
    assert p != s.top ==> SameChunk(s, s', e);
    assert Tag(s', lo', hi', p);
    assert Tag(s', lo', hi', r);
    forall x | x in s'.size && p <= x < e
      ensures Tag(s', lo', hi', x)
    {
      assert x in s.size ==> Apart(s, p, x);
    }
    TagsLocal(s, s', lo, hi, lo', hi', p, e);
  }

  lemma SplitCoalesced(s: Shape, lo: seq<int>, hi: seq<int>, p: int, nb: int, u: Status)
    requires Tiled(s) && Bounded(s, lo, hi) && Tags(s, lo, hi) && Coalesced(s) && CanSplit(s, p, nb, u)
    requires u.Binned? <==> IsFree(s, p)
    ensures Coalesced(Split(s, p, nb, Used, u))
  {
    hide BinIndex, Aligned;
    var s', r, e := Split(s, p, nb, Used, u), p + nb, Next(s, p);
    SplitTiled(s, p, nb, u);
    SplitSameOutside(s, p, nb, u);
    assert ChunkOk(s, p);
    forall x | x in s'.size && IsFree(s', x) && x != s'.top
      ensures Inuse(s', Next(s', x))
    {
      if x == r {
        assert SameChunk(s, s', e) && Next(s', r) == e;
      } else {
        assert SameChunk(s, s', x) && ChunkOk(s, x) && Apart(s, x, p) && IsFree(s, x);
        assert Next(s, x) != p ==> SameChunk(s, s', Next(s, x));
      }
    }
  }

  lemma SplitStep(s: Shape, binsBase: int, bins: seq<seq<int>>,
                  lo: seq<int>, hi: seq<int>, lo': seq<int>, hi': seq<int>, p: int, nb: int, u: Status)
    requires Core(s, binsBase, bins, lo, hi) && Coalesced(s) && CanSplit(s, p, nb, u)
    requires ClearOf(bins, p, Next(s, p))
    requires u.Binned? <==> IsFree(s, p)
    requires Within(lo, hi, lo', hi', p, Next(s, p))
    requires var r, e := p + nb, Next(s, p);
      && 0 <= p < |hi| && 0 <= r < |hi| && hi'[p] == nb + (hi[p] - s.size[p]) && hi'[r] == s.size[p] - nb + 1
      && (p != s.top ==> 0 <= e < |hi| && hi'[e] == hi[e] && (u.Binned? ==> lo'[e] == s.size[p] - nb))
    ensures Core(Split(s, p, nb, Used, u), binsBase, bins, lo', hi') && Coalesced(Split(s, p, nb, Used, u))
  {
    var s', e := Split(s, p, nb, Used, u), Next(s, p);
    SplitTags(s, lo, hi, lo', hi', p, nb, u);
    SplitCoalesced(s, lo, hi, p, nb, u);
    SplitSameOutside(s, p, nb, u);
    ListsAcross(s, s', binsBase, bins, p, e);
    RingsAcross(s, binsBase, bins, lo, hi, lo', hi', p, e);
  }

  /** Moving chunk p between states with the same P bit: between two lists of
      free chunks, or between the user and a fastbin. */
  lemma RestatusStep(s: Shape, binsBase: int, bins: seq<seq<int>>, lo: seq<int>, hi: seq<int>, p: int, t: Status)
    requires Core(s, binsBase, bins, lo, hi) && Coalesced(s) && p in s.size && p != s.top && Unlisted(bins, p)
    requires t != Top && Suits(t, s.size[p]) && (t.Binned? <==> IsFree(s, p))
    ensures Core(SetStatus(s, p, t), binsBase, bins, lo, hi) && Coalesced(SetStatus(s, p, t))
  {
    hide BinIndex, Aligned;
    var s' := SetStatus(s, p, t);
    SetStatusTiled(s, p, t);
    assert ChunkOk(s, p);
    forall x | x in s'.size
      ensures Tag(s', lo, hi, x)
    {
      assert Tag(s, lo, hi, x);
    }
    forall x | x in s'.size && IsFree(s', x) && x != s'.top
      ensures Inuse(s', Next(s', x))
    {
      assert IsFree(s, x) && ChunkOk(s, x);
    }
    forall i, k | 0 <= i < NBINS && 0 <= k < |bins[i]|
      ensures Entry(s', bins, i, k)
    {
      assert Entry(s, bins, i, k) && p !in bins[i];
    }
    forall i | 2 <= i < |bins|
      ensures Descending(s', bins[i])
    {
      assert Descending(s, bins[i]);
    }
  }

  // ----- Reading the neighbourhood of a chunk -----

  /** A free chunk sits in a real bin's list. */
  lemma ListOf(s: Shape, bins: seq<seq<int>>, x: int)
    requires Tiled(s) && Complete(s, bins) && |bins| == NBINS && x in s.size && IsFree(s, x)
    ensures 1 <= s.st[x].bin < NBINS && x in bins[s.st[x].bin] && x != s.top
  {
    assert ChunkOk(s, x);
    BinIndexInRange(s.size[x]);
  }

  /** The chunk before a free chunk is in use: full coalescing, as the P bit sees it. */
  lemma FreeHasPrevInuse(s: Shape, lo: seq<int>, hi: seq<int>, x: int)
    requires Tiled(s) && Bounded(s, lo, hi) && Tags(s, lo, hi) && Coalesced(s)
    requires x in s.size && !Inuse(s, x)
    ensures 0 <= x < |hi| && PrevInuse(hi[x]) && hi[x] == s.size[x] + 1
  {
    hide BinIndex, Aligned;
    HeadWord(s, lo, hi, x);
    if !PrevInuse(hi[x]) {
      var y := StepBack(s, lo, hi, x);
    }
  }

  /** The inuse bit of chunk x is found in the header after it. */
  lemma InuseBitAfter(s: Shape, lo: seq<int>, hi: seq<int>, x: int)
    requires Tiled(s) && Bounded(s, lo, hi) && Tags(s, lo, hi) && x in s.size && x != s.top
    ensures var n := Next(s, x);
      && n in s.size && 0 <= n < n + 8 < |hi| && ChunkSize(hi[n]) == s.size[n]
      && (PrevInuse(hi[n]) <==> !IsFree(s, x)) && hi[n] == s.size[n] + InuseBit(!IsFree(s, x))
  {
    hide BinIndex, Aligned;
    assert ChunkOk(s, x) && Tag(s, lo, hi, x);
    HeadWord(s, lo, hi, Next(s, x));
  }

  /** The chunks of the run around p that coalescing fuses. */
  lemma RunAround(s: Shape, f: int, p: int, n: int, e: int)
    requires Tiled(s) && f in s.size && p in s.size && n in s.size && Boundary(s, e)
    requires f == p || Next(s, f) == p
    requires Next(s, p) == n
    requires e == n || Next(s, n) == e
    ensures Run(s, f, e) && f <= p < n <= e
    ensures forall x :: x in s.size && f <= x < e ==> x == f || x == p || (x == n && e != n)
  {
    hide BinIndex, Aligned;
    Inside(s, f);
    Inside(s, p);
    Inside(s, n);
    forall x | x in s.size && f <= x < e
      ensures x == f || x == p || (x == n && e != n)
    {
      assert Apart(s, f, x) && Apart(s, p, x) && Apart(s, n, x);
    }
  }

  /** Once its free chunks are unlinked, the run is in no list. */
  lemma RunCleared(s: Shape, binsBase: int, bins: seq<seq<int>>, f: int, e: int)
    requires Listed(s, binsBase, bins)
    requires forall x {:trigger x in s.size} :: x in s.size && f <= x < e ==> !IsFree(s, x) || Unlisted(bins, x)
    ensures ClearOf(bins, f, e)
  {
    forall i, k | 0 <= i < |bins| && 0 <= k < |bins[i]|
      ensures !(f <= bins[i][k] < e)
    {
      assert Entry(s, bins, i, k) && bins[i][k] in bins[i];
    }
  }

  /** After one chunk was unlinked, every other free chunk is still in its list. */
  lemma ListAfterRemoval(s: Shape, bins: seq<seq<int>>, bins': seq<seq<int>>, x: int, y: int)
    requires Tiled(s) && Complete(s, bins) && |bins| == NBINS && y in s.size && IsFree(s, y) && x != y
    requires bins' == bins || OneLess(bins, bins', x)
    ensures 1 <= s.st[y].bin < NBINS && |bins'| == NBINS && y in bins'[s.st[y].bin]
  {
    ListOf(s, bins, y);
  }

  /** The run around chunk p, reached by unlinking its free neighbours. */
  ghost predicate FreeRun(s: Shape, f: int, e: int, p: int) {
    && Run(s, f, e) && f <= p < e
    && forall x {:trigger x in s.size} :: x in s.size && f <= x < e ==> x == p || IsFree(s, x) || x == s.top
  }

  /** Conclusion of a step on the run [f, e): if the new picture holds a free
      chunk r there, it is the one that was linked into the unsorted bin; then
      every list is complete again and every block in use other than p kept its
      words. */
  lemma StepEnd(s: Shape, s': Shape, bins: seq<seq<int>>, bins1: seq<seq<int>>, bins': seq<seq<int>>, f: int, e: int,
                p: int, r: int,
                lo: seq<int>, hi: seq<int>, lo1: seq<int>, hi1: seq<int>, lo': seq<int>, hi': seq<int>)
    requires Tiled(s) && Complete(s, bins) && FreeRun(s, f, e, p) && |bins1| == |bins| == NBINS
    requires OnlyRunRemoved(bins, bins1, f, e)
    requires SameOutside(s, s', f, e)
    requires forall x {:trigger x in s'.st} :: x in s'.st && f <= x < e && s'.st[x].Binned? ==>
      x == r && s'.st[x] == Binned(1)
    requires if r in s'.st && s'.st[r] == Binned(1) then OneMore(bins1, bins', 1, r) else bins' == bins1
    requires PayloadsKept(s, lo, hi, lo1, hi1, {}) && KeptOutside(s, lo1, hi1, lo', hi', f, e)
    ensures Complete(s', bins')
    ensures PayloadsKept(s, lo, hi, lo', hi', {p})
  {
    CompleteAcross(s, s', bins, bins', f, e);
    forall q | q in s.size && Inuse(s, q) && q != p
      ensures PayloadKept(s, lo, hi, lo', hi', q)
    {
      assert ChunkOk(s, q);
      assert PayloadKept(s, lo, hi, lo1, hi1, q) && PayloadKept(s, lo1, hi1, lo', hi', q);
    }
  }

  /** bins' still lists every chunk of bins outside the run, and nothing new. */
  ghost predicate OnlyRunRemoved(bins: seq<seq<int>>, bins': seq<seq<int>>, f: int, e: int) {
    && |bins'| == |bins|
    && (forall i, y {:trigger y in bins'[i]} :: 0 <= i < |bins| && y in bins[i] && !(f <= y < e) ==> y in bins'[i])
    && (forall i {:trigger bins'[i]} :: 0 <= i < |bins| && bins'[i] != [] ==> bins[i] != [])
  }

  // ----- Fastbins against the heap -----

  ghost predicate FastInv(s: Shape, fast: seq<seq<int>>, heads: seq<int>, lo: seq<int>) {
    FastListed(s, fast) && FastComplete(s, fast) && Chains(heads, fast, lo)
  }

  /** The blocks the user holds, with their chunk sizes. */
  ghost function Blocks(s: Shape): map<int, int> {
    map x | x in s.size && x in s.st && s.st[x] == Used :: s.size[x]
  }

  /** The payload words of a block of the given chunk size are unchanged. */
  ghost predicate BlockKept(q: int, size: int, lo: seq<int>, hi: seq<int>, lo': seq<int>, hi': seq<int>) {
    && |lo'| == |lo| && |hi'| == |hi|
    && (forall a {:trigger lo'[a]} :: 0 <= a < |lo| && q < a <= q + size ==> lo'[a] == lo[a])
    && (forall a {:trigger hi'[a]} :: 0 <= a < |hi| && q < a < q + size ==> hi'[a] == hi[a])
  }

  ghost predicate BlocksKept(blocks: map<int, int>, lo: seq<int>, hi: seq<int>, lo': seq<int>, hi': seq<int>) {
    forall q {:trigger BlockKept(q, blocks[q], lo, hi, lo', hi')} :: q in blocks ==>
      BlockKept(q, blocks[q], lo, hi, lo', hi')
  }

  lemma PayloadsToBlocks(s: Shape, blocks: map<int, int>, lo: seq<int>, hi: seq<int>, lo': seq<int>, hi': seq<int>,
                         but: set<int>)
    requires PayloadsKept(s, lo, hi, lo', hi', but)
    requires forall q {:trigger q in blocks} :: q in blocks ==> q in Blocks(s) && blocks[q] == s.size[q] && q !in but
    ensures BlocksKept(blocks, lo, hi, lo', hi')
  {
    forall q | q in blocks
      ensures BlockKept(q, blocks[q], lo, hi, lo', hi')
    {
      assert Inuse(s, q);
      assert PayloadKept(s, lo, hi, lo', hi', q);
    }
  }

  /** Taking the first chunk off a fastbin: it counts as a used block again. */
  lemma PopStep(s: Shape, binsBase: int, bins: seq<seq<int>>, fast: seq<seq<int>>, heads: seq<int>,
                lo: seq<int>, hi: seq<int>, i: int)
    requires HeapInv(s, binsBase, bins, lo, hi) && FastInv(s, fast, heads, lo)
    requires 0 <= i < NFASTBINS && heads[i] != 0
    ensures var p := heads[i];
      && fast[i] != [] && p == fast[i][0] && p in s.size && s.st[p] == Fast && p != s.top && 0 <= p + 8 < |lo|
      && FastbinIndex(s.size[p]) == i
      && HeapInv(SetStatus(s, p, Used), binsBase, bins, lo, hi)
      && FastInv(SetStatus(s, p, Used), fast[i := fast[i][1..]], heads[i := lo[p + 8]], lo)
  {
    hide BinIndex, Aligned;
    var p := heads[i];
    PopChains(heads, fast, lo, i);
    FastPop(s, fast, i, Used);
    NotListed(s, binsBase, bins, p);
    RestatusStep(s, binsBase, bins, lo, hi, p, Used);
    RestatusComplete(s, bins, p, Used);
  }

  lemma RestatusComplete(s: Shape, bins: seq<seq<int>>, p: int, t: Status)
    requires Complete(s, bins) && p in s.st && !t.Binned?
    ensures Complete(SetStatus(s, p, t), bins)
  {
    var s' := SetStatus(s, p, t);
    forall x | x in s'.st && s'.st[x].Binned?
      ensures 0 <= s'.st[x].bin < |bins| && x in bins[s'.st[x].bin]
    {
      assert s.st[x].Binned?;
    }
  }

  /** Parking a small block in its fastbin. */
  lemma PushStep(s: Shape, binsBase: int, bins: seq<seq<int>>, fast: seq<seq<int>>, heads: seq<int>,
                 lo: seq<int>, hi: seq<int>, p: int)
    requires HeapInv(s, binsBase, bins, lo, hi) && FastInv(s, fast, heads, lo)
    requires p in s.size && s.st[p] == Used && s.size[p] <= FAST_LIMIT
    ensures var i := FastbinIndex(s.size[p]);
      && 0 <= i < NFASTBINS && 0 <= p + 8 < |lo|
      && HeapInv(SetStatus(s, p, Fast), binsBase, bins, lo[p + 8 := heads[i]], hi)
      && FastInv(SetStatus(s, p, Fast), fast[i := [p] + fast[i]], heads[i := p], lo[p + 8 := heads[i]])
      && PayloadsKept(s, lo, hi, lo[p + 8 := heads[i]], hi, {p})
  {
    hide BinIndex, Aligned;
    var i, e := FastbinIndex(s.size[p]), Next(s, p);
    FastPush(s, fast, p);
    Inside(s, p);
    var lo' := lo[p + 8 := heads[i]];
    PushChains(s, heads, fast, lo, i, p);
    assert LinksOnly(lo, hi, lo', hi, {p});
    RelinkKeepsTags(s, lo, hi, lo', hi, {p});
    RelinkKeepsPayloads(s, lo, hi, lo', hi, {p});
    NotListed(s, binsBase, bins, p);
    UsedIsClear(s, binsBase, bins, p);
    RingsAcross(s, binsBase, bins, lo, hi, lo', hi, p, e);
    RestatusStep(s, binsBase, bins, lo', hi, p, Fast);
    RestatusComplete(s, bins, p, Fast);
  }

  /** A single chunk that is not free is a run with no list entry. */
  lemma UsedIsClear(s: Shape, binsBase: int, bins: seq<seq<int>>, p: int)
    requires Tiled(s) && Listed(s, binsBase, bins) && p in s.size && !IsFree(s, p) && p != s.top
    ensures Run(s, p, Next(s, p)) && ClearOf(bins, p, Next(s, p))
  {
    hide BinIndex, Aligned;
    assert ChunkOk(s, p);
    forall x | x in s.size && p <= x < Next(s, p)
      ensures !IsFree(s, x) || Unlisted(bins, x)
    {
      assert Apart(s, p, x);
    }
    RunCleared(s, binsBase, bins, p, Next(s, p));
  }

  /** A step on a run that holds no parked chunk disturbs no fastbin. */
  lemma StepKeepsFast(s: Shape, s': Shape, fast: seq<seq<int>>, heads: seq<int>, lo: seq<int>, hi: seq<int>,
                      lo': seq<int>, hi': seq<int>, f: int, e: int, p: int)
    requires Tiled(s) && Bounded(s, lo, hi) && FastInv(s, fast, heads, lo) && |lo'| == |lo|
    requires FreeRun(s, f, e, p) && p in s.st && s.st[p] != Fast && SameOutside(s, s', f, e)
    requires forall x {:trigger s'.st[x]} :: x in s'.st && f <= x < e ==> s'.st[x] != Fast
    requires PayloadsKept(s, lo, hi, lo', hi', {p})
    ensures FastInv(s', fast, heads, lo')
  {
    hide BinIndex, Aligned;
    NotParked(s, fast, p);
    ChainsKept(s, heads, fast, lo, hi, lo', hi', {p});
    assert ChunkOk(s, s.top);
    forall x | x in s.st && f <= x < e
      ensures s.st[x] != Fast
    {
      assert x in s.size;
    }
    FastAcross(s, s', fast, f, e);
  }

  lemma MergeBlocks(s: Shape, f: int, e: int, p: int, t: Status)
    requires Tiled(s) && FreeRun(s, f, e, p) && p in s.st && s.st[p] != Fast && (t == Top <==> e == s.end)
    ensures Blocks(Merge(s, f, e, t)) == if t == Used then Blocks(s) - {p} + map[f := e - f] else Blocks(s) - {p}
  {
    hide BinIndex, Aligned;
    var s' := Merge(s, f, e, t);
    MergeSameOutside(s, f, e, t);
    forall x
      ensures x in Blocks(s') <==> (x in Blocks(s) && x != p) || (x == f && t == Used)
      ensures x in Blocks(s') && x != f ==> Blocks(s')[x] == s.size[x]
    {
      MergeBlock(s, f, e, p, t, x);
    }
  }

  lemma MergeBlock(s: Shape, f: int, e: int, p: int, t: Status, x: int)
    requires Tiled(s) && FreeRun(s, f, e, p) && p in s.st && s.st[p] != Fast && (t == Top <==> e == s.end)
    requires SameOutside(s, Merge(s, f, e, t), f, e)
    ensures var b, b' := Blocks(s), Blocks(Merge(s, f, e, t));
      && (x in b' <==> (x in b && x != p) || (x == f && t == Used))
      && (x in b' && x != f ==> b'[x] == s.size[x])
  {
    hide BinIndex, Aligned;
    assert x in s.size ==> ChunkOk(s, x);
    assert !(f <= x < e) ==> SameChunk(s, Merge(s, f, e, t), x);
  }

  lemma SplitBlocks(s: Shape, p: int, nb: int, u: Status)
    requires CanSplit(s, p, nb, u) && p + nb !in s.size
    ensures Blocks(Split(s, p, nb, Used, u)) ==
      if u == Used then Blocks(s)[p := nb][p + nb := s.size[p] - nb] else Blocks(s)[p := nb]
  {
    hide BinIndex, Aligned;
    var s', b := Split(s, p, nb, Used, u), Blocks(s);
    assert forall x :: x != p && x != p + nb ==> (x in Blocks(s') <==> x in b);
    assert p in Blocks(s') && (p + nb in Blocks(s') <==> u == Used);
  }

  /** A single free chunk is a run of its own. */
  lemma OwnRun(s: Shape, binsBase: int, bins: seq<seq<int>>, p: int)
    requires Tiled(s) && Listed(s, binsBase, bins) && p in s.size && p != s.top && Unlisted(bins, p)
    ensures FreeRun(s, p, Next(s, p), p) && ClearOf(bins, p, Next(s, p)) && Next(s, p) in s.size
  {
    hide BinIndex, Aligned;
    assert ChunkOk(s, p);
    forall x | x in s.size && p <= x < Next(s, p)
      ensures x == p
    {
      assert Apart(s, p, x);
    }
    RunCleared(s, binsBase, bins, p, Next(s, p));
  }

  /** A null head means an empty stack. */
  lemma NullHead(s: Shape, fast: seq<seq<int>>, heads: seq<int>, lo: seq<int>, i: int)
    requires FastInv(s, fast, heads, lo) && 0 <= i < NFASTBINS
    ensures |heads| == |fast| == NFASTBINS && (heads[i] == 0 <==> fast[i] == [])
  {
    assert Chain(heads[i], fast[i], lo);
  }

  lemma NoneBeyond(s: Shape, binsBase: int, bins: seq<seq<int>>, lo: seq<int>, hi: seq<int>, fast: seq<seq<int>>,
                   heads: seq<int>)
    requires HeapInv(s, binsBase, bins, lo, hi) && FastInv(s, fast, heads, lo)
    ensures |fast| == NFASTBINS && fast[8] == [] && fast[9] == []
  {
    NothingBeyond(s, fast, 8);
    NothingBeyond(s, fast, 9);
  }

  // ----- Giving out a free chunk -----

  /** Chunk p was just taken off its list; everything else is in order. */
  ghost predicate Held(s: Shape, binsBase: int, bins0: seq<seq<int>>, bins: seq<seq<int>>, lo: seq<int>, hi: seq<int>,
                       p: int) {
    && Core(s, binsBase, bins, lo, hi) && Coalesced(s) && Complete(s, bins0) && |bins0| == NBINS
    && p in s.size && IsFree(s, p) && OneLess(bins0, bins, p) && Unlisted(bins, p)
  }

  lemma HeldNext(s: Shape, binsBase: int, bins0: seq<seq<int>>, bins: seq<seq<int>>, lo: seq<int>, hi: seq<int>, p: int)
    requires Held(s, binsBase, bins0, bins, lo, hi, p)
    ensures p != s.top && Next(s, p) in s.size && 0 <= p < Next(s, p) < |hi| && |lo| == |hi|
    ensures LegalSize(s.size[p]) && hi[p] == s.size[p] + 1 && ChunkSize(hi[p]) == s.size[p]
    ensures hi[Next(s, p)] == s.size[Next(s, p)] && !PrevInuse(hi[Next(s, p)]) && lo[Next(s, p)] == s.size[p]
    ensures Inuse(s, Next(s, p))
    ensures Tiled(s) && p in s.st && 0 <= binsBase && binsBase + 8 * NBINS <= s.base <= p && |bins| == NBINS
  {
    hide BinIndex, Aligned;
    ListOf(s, bins0, p);
    InuseBitAfter(s, lo, hi, p);
    FreeHasPrevInuse(s, lo, hi, p);
    HeadWord(s, lo, hi, p);
    Inside(s, p);
    assert Tag(s, lo, hi, p);
  }

  lemma HeldOnlyRemoved(s: Shape, binsBase: int, bins0: seq<seq<int>>, bins: seq<seq<int>>, lo: seq<int>, hi: seq<int>,
                        p: int)
    requires Held(s, binsBase, bins0, bins, lo, hi, p)
    ensures OnlyRunRemoved(bins0, bins, p, Next(s, p))
    ensures FreeRun(s, p, Next(s, p), p) && ClearOf(bins, p, Next(s, p)) && Run(s, p, Next(s, p))
  {
    hide BinIndex, Aligned;
    HeldNext(s, binsBase, bins0, bins, lo, hi, p);
    OwnRun(s, binsBase, bins, p);
  }

  /** Exhaust: the whole free chunk goes to the user; its successor's P bit is set. */
  lemma WholeStep(s: Shape, binsBase: int, bins0: seq<seq<int>>, bins: seq<seq<int>>, lo: seq<int>, hi: seq<int>,
                  p: int, hi': seq<int>)
    requires Held(s, binsBase, bins0, bins, lo, hi, p)
    requires var n := Next(s, p); 0 <= n < |hi| && n in s.size && hi' == hi[n := s.size[n] + 1]
    ensures HeapInv(Merge(s, p, Next(s, p), Used), binsBase, bins, lo, hi')
    ensures PayloadsKept(s, lo, hi, lo, hi', {p})
    ensures Blocks(Merge(s, p, Next(s, p), Used)) == Blocks(s)[p := s.size[p]] && p !in Blocks(s)
    ensures SameOutside(s, Merge(s, p, Next(s, p), Used), p, Next(s, p))
  {
    hide BinIndex, Aligned, PrevInuse, Tags, Sorted, Rings, Coalesced, ClearOf, KeptOutside, Complete;
    var n := Next(s, p);
    HeldNext(s, binsBase, bins0, bins, lo, hi, p);
    HeldOnlyRemoved(s, binsBase, bins0, bins, lo, hi, p);
    Inside(s, n);
    var s' := Merge(s, p, n, Used);
    MergeSameOutside(s, p, n, Used);
    MergeStep(s, binsBase, bins, lo, hi, lo, hi', p, n, Used);
    PayloadsAcross(s, s', lo, hi, lo, hi', lo, hi', p, n);
    StepEnd(s, s', bins0, bins, bins, p, n, p, p, lo, hi, lo, hi, lo, hi');
    MergeBlocks(s, p, n, p, Used);
  }

  /** Split: the lower nb bytes go to the user, the rest stays free and unlisted. */
  lemma SplitFreeStep(s: Shape, binsBase: int, bins0: seq<seq<int>>, bins: seq<seq<int>>, lo: seq<int>, hi: seq<int>,
                      p: int, nb: int, lo': seq<int>, hi': seq<int>)
    requires Held(s, binsBase, bins0, bins, lo, hi, p) && LegalSize(nb) && nb + MINSIZE <= s.size[p]
    requires var n, r, rem := Next(s, p), p + nb, s.size[p] - nb;
      0 <= p < r < n < |hi| && |lo| == |hi| && lo' == lo[n := rem] && hi' == hi[p := nb + 1][r := rem + 1]
    ensures CanSplit(s, p, nb, Binned(1)) && p + nb !in s.size
    ensures var s' := Split(s, p, nb, Used, Binned(1));
      && Core(s', binsBase, bins, lo', hi') && Coalesced(s') && SameOutside(s, s', p, Next(s, p))
      && KeptOutside(s, lo, hi, lo', hi', p, Next(s, p)) && Within(lo, hi, lo', hi', p, Next(s, p))
      && p + nb in s'.size && s'.st[p + nb] == Binned(1) && Unlisted(bins, p + nb)
      && Blocks(s') == Blocks(s)[p := nb] && p !in Blocks(s)
  {
    hide BinIndex, Aligned, PrevInuse, Tags, Sorted, Rings, Coalesced, KeptOutside, Complete;
    var n := Next(s, p);
    HeldNext(s, binsBase, bins0, bins, lo, hi, p);
    HeldOnlyRemoved(s, binsBase, bins0, bins, lo, hi, p);
    SplitTiled(s, p, nb, Binned(1));
    SplitSameOutside(s, p, nb, Binned(1));
    SplitStep(s, binsBase, bins, lo, hi, lo', hi', p, nb, Binned(1));
    var s' := Split(s, p, nb, Used, Binned(1));
    PayloadsRefl(s', lo', hi');
    PayloadsAcross(s, s', lo, hi, lo', hi', lo', hi', p, n);
    ClearUnlisted(bins, p, n, p + nb);
    SplitBlocks(s, p, nb, Binned(1));
  }

  lemma PayloadsRefl(s: Shape, lo: seq<int>, hi: seq<int>)
    ensures PayloadsKept(s, lo, hi, lo, hi, {})
  {
  }

  lemma ClearUnlisted(bins: seq<seq<int>>, f: int, e: int, x: int)
    requires ClearOf(bins, f, e) && f <= x < e
    ensures Unlisted(bins, x)
  {
    forall i | 0 <= i < |bins|
      ensures x !in bins[i]
    {
      forall k | 0 <= k < |bins[i]| ensures bins[i][k] != x { }
    }
  }

  /** A split is complete once the remainder is linked into the unsorted bin. */
  lemma SplitFreeEnd(s: Shape, binsBase: int, bins0: seq<seq<int>>, bins: seq<seq<int>>, bins': seq<seq<int>>,
                     fast: seq<seq<int>>, heads: seq<int>, lo: seq<int>, hi: seq<int>, lo1: seq<int>, hi1: seq<int>,
                     lo': seq<int>, hi': seq<int>, p: int, nb: int)
    requires Held(s, binsBase, bins0, bins, lo, hi, p) && CanSplit(s, p, nb, Binned(1)) && FastInv(s, fast, heads, lo)
    requires var s' := Split(s, p, nb, Used, Binned(1));
      && Core(s', binsBase, bins', lo', hi') && Coalesced(s') && SameOutside(s, s', p, Next(s, p))
      && OneMore(bins, bins', 1, p + nb) && PayloadsKept(s', lo1, hi1, lo', hi', {})
    requires Within(lo, hi, lo1, hi1, p, Next(s, p)) && |lo'| == |lo|
    ensures HeapInv(Split(s, p, nb, Used, Binned(1)), binsBase, bins', lo', hi')
    ensures FastInv(Split(s, p, nb, Used, Binned(1)), fast, heads, lo')
    ensures PayloadsKept(s, lo, hi, lo', hi', {p})
  {
    hide BinIndex, Aligned, Tags, Rings, Sorted, Coalesced, Complete, FastInv, PrevInuse, ClearOf, OneLess, CanSplit,
      PayloadsKept, KeptOutside;
    var s', e := Split(s, p, nb, Used, Binned(1)), Next(s, p);
    HeldNext(s, binsBase, bins0, bins, lo, hi, p);
    HeldOnlyRemoved(s, binsBase, bins0, bins, lo, hi, p);
    PayloadsAcross(s, s', lo, hi, lo1, hi1, lo', hi', p, e);
    PayloadsRefl(s, lo, hi);
    forall x | x in s'.st && p <= x < e
      ensures x == p || x == p + nb
    {
      assert x in s.size ==> Apart(s, p, x);
    }
    StepEnd(s, s', bins0, bins, bins', p, e, p, p + nb, lo, hi, lo, hi, lo', hi');
    StepKeepsFast(s, s', fast, heads, lo, hi, lo', hi', p, e, p);
  }

  // ----- Binning an unsorted chunk -----

  /** The chunk taken off the unsorted bin is declared a chunk of its size's bin. */
  lemma BinningStep(s: Shape, binsBase: int, bins0: seq<seq<int>>, bins: seq<seq<int>>,
                    fast: seq<seq<int>>, heads: seq<int>, lo: seq<int>, hi: seq<int>, p: int)
    requires Held(s, binsBase, bins0, bins, lo, hi, p) && FastInv(s, fast, heads, lo)
    ensures s.size[p] >= 0
    ensures var s' := SetStatus(s, p, Binned(BinIndex(s.size[p])));
      && Core(s', binsBase, bins, lo, hi) && Coalesced(s') && FastInv(s', fast, heads, lo)
      && Blocks(s') == Blocks(s)
  {
    hide BinIndex, Aligned, Tags, Rings, Sorted, Chains;
    HeldNext(s, binsBase, bins0, bins, lo, hi, p);
    var s' := SetStatus(s, p, Binned(BinIndex(s.size[p])));
    RestatusStep(s, binsBase, bins, lo, hi, p, Binned(BinIndex(s.size[p])));
    forall i, k | 0 <= i < NFASTBINS && 0 <= k < |fast[i]|
      ensures FastEntry(s', fast, i, k)
    {
      assert FastEntry(s, fast, i, k);
    }
    forall x | x in s'.st && s'.st[x] == Fast
      ensures exists i :: 0 <= i < |fast| && x in fast[i]
    {
      assert s.st[x] == Fast;
    }
    assert forall x :: x in Blocks(s') <==> x in Blocks(s);
  }

  lemma BinningComplete(s: Shape, bins0: seq<seq<int>>, bins: seq<seq<int>>, bins': seq<seq<int>>, p: int, i: int)
    requires Complete(s, bins0) && OneLess(bins0, bins, p) && OneMore(bins, bins', i, p) && 0 <= i < |bins|
    requires p in s.st
    ensures Complete(SetStatus(s, p, Binned(i)), bins')
  {
    var s' := SetStatus(s, p, Binned(i));
    forall x | x in s'.st && s'.st[x].Binned?
      ensures 0 <= s'.st[x].bin < |bins'| && x in bins'[s'.st[x].bin]
    {
      assert x != p ==> s.st[x].Binned? && x in bins0[s.st[x].bin] && x in bins[s.st[x].bin];
    }
  }

  /** All chunks of a small bin have the bin's one size. */
  lemma SmallbinSize(s: Shape, binsBase: int, bins: seq<seq<int>>, i: int, k: int, size: nat)
    requires Tiled(s) && Listed(s, binsBase, bins) && 0 <= k && 2 <= i < NBINS && k < |bins[i]|
    requires LegalSize(size) && InSmallbinRange(size) && i == BinIndex(size)
    ensures bins[i][k] in s.size && s.size[bins[i][k]] == size
  {
    var x := bins[i][k];
    assert Entry(s, bins, i, k);
    Inside(s, x);
    BinIndexInRange(size);
    SmallbinExact(size, s.size[x]);
  }

  /** What malloc reads in the header of listed chunk k: its size with P set. */
  lemma EntryWord(s: Shape, binsBase: int, bins: seq<seq<int>>, lo: seq<int>, hi: seq<int>, i: int, k: int)
    requires Core(s, binsBase, bins, lo, hi) && Coalesced(s) && 1 <= i < NBINS && 0 <= k < |bins[i]|
    ensures var x := bins[i][k];
      && x in s.size && IsFree(s, x) && x in s.st && s.st[x] == Binned(i) && x == Node(binsBase, bins, i, k + 1)
      && 0 <= x < x + 8 < |hi| && |lo| == |hi| && hi[x] == s.size[x] + 1 && ChunkSize(hi[x]) == s.size[x]
      && lo[x + 8] == Node(binsBase, bins, i, k + 2) && hi[x + 8] == Node(binsBase, bins, i, k)
  {
    hide BinIndex, Aligned;
    var x := bins[i][k];
    assert Entry(s, bins, i, k);
    FreeHasPrevInuse(s, lo, hi, x);
    HeadWord(s, lo, hi, x);
    var c := RingOf(Header(binsBase, i), bins[i]);
    assert c[k + 1] == x;
    assert BinRing(binsBase, bins, lo, hi, i) && Hop(c, lo, hi, k) && Hop(c, lo, hi, k + 1);
  }

  lemma RelinkKeepsFast(s: Shape, fast: seq<seq<int>>, heads: seq<int>, lo: seq<int>, hi: seq<int>, lo': seq<int>,
                        hi': seq<int>)
    requires Tiled(s) && Bounded(s, lo, hi) && FastInv(s, fast, heads, lo) && |lo'| == |lo|
    requires PayloadsKept(s, lo, hi, lo', hi', {})
    ensures FastInv(s, fast, heads, lo')
  {
    ChainsKept(s, heads, fast, lo, hi, lo', hi', {});
  }

  /** Taking the last chunk of bin i off its list. */
  lemma RemoveLastStep(s: Shape, binsBase: int, bins: seq<seq<int>>, lo: seq<int>, hi: seq<int>, i: int)
    returns (victim: int, bck: int)
    requires HeapInv(s, binsBase, bins, lo, hi) && 1 <= i < NBINS && bins[i] != []
    ensures var bin := Header(binsBase, i);
      && 0 <= bin + 8 < |lo| == |hi| && victim == hi[bin + 8] && victim == bins[i][|bins[i]| - 1]
      && 0 <= victim && victim + 8 < |hi| && bck == hi[victim + 8] && 0 <= bck + 8 < |lo|
      && (bck == bin <==> |bins[i]| == 1) && victim != bin
      && var bins', lo', hi' := bins[i := bins[i][..|bins[i]| - 1]], lo[bck + 8 := bin], hi[bin + 8 := bck];
         && Held(s, binsBase, bins, bins', lo', hi', victim)
         && PayloadsKept(s, lo, hi, lo', hi', {})
  {
    hide BinIndex, Aligned, Tags, Rings, Sorted, Coalesced, PayloadsKept, Complete;
    var k := |bins[i]| - 1;
    var bin := Header(binsBase, i);
    HeaderLinks(s, binsBase, bins, lo, hi, i);
    var fwd;
    bck, fwd := UnlinkRings(s, binsBase, bins, lo, hi, i, k);
    ListedRemove(s, binsBase, bins, i, k);
    NodeKind(s, binsBase, bins, i, k);
    NodeKind(s, binsBase, bins, i, k + 1);
    NodeKind(s, binsBase, bins, i, k + 2);
    victim := hi[bin + 8];
    assert Remove(bins[i], k) == bins[i][..k];
    RelinkKeepsTags(s, lo, hi, lo[bck + 8 := bin], hi[bin + 8 := bck], {bck, bin});
    RelinkSparesUsers(s, lo, hi, lo[bck + 8 := bin], hi[bin + 8 := bck], {bck, bin});
  }

  lemma RelinkKeepsFastInv(s: Shape, binsBase: int, bins: seq<seq<int>>, fast: seq<seq<int>>, heads: seq<int>,
                           lo: seq<int>, hi: seq<int>, lo': seq<int>, hi': seq<int>)
    requires HeapInv(s, binsBase, bins, lo, hi) && FastInv(s, fast, heads, lo) && |lo'| == |lo|
    requires PayloadsKept(s, lo, hi, lo', hi', {})
    ensures FastInv(s, fast, heads, lo')
    ensures BlocksKept(Blocks(s), lo, hi, lo', hi')
  {
    hide BinIndex, Aligned, Tags, Rings, Sorted, Coalesced, Complete, Listed;
    RelinkKeepsFast(s, fast, heads, lo, hi, lo', hi');
    PayloadsToBlocks(s, Blocks(s), lo, hi, lo', hi', {});
  }

  lemma HeldBins(s: Shape, binsBase: int, bins0: seq<seq<int>>, bins: seq<seq<int>>, lo: seq<int>, hi: seq<int>, p: int)
    requires Held(s, binsBase, bins0, bins, lo, hi, p)
    ensures |bins0| == |bins| == NBINS && 0 < p
    ensures forall i {:trigger bins[i]} :: 0 <= i < NBINS && bins[i] != [] ==> bins0[i] != []
  {
    Inside(s, p);
  }

  // ----- Top -----

  /** Cutting the front off top. */
  lemma TopSplitStep(s: Shape, binsBase: int, bins: seq<seq<int>>, fast: seq<seq<int>>, heads: seq<int>,
                     lo: seq<int>, hi: seq<int>, nb: int, hi': seq<int>)
    requires HeapInv(s, binsBase, bins, lo, hi) && FastInv(s, fast, heads, lo)
    requires LegalSize(nb) && nb + MINSIZE <= s.size[s.top]
    requires 0 <= s.top && s.top + nb < |hi| && hi' == hi[s.top := nb + 1][s.top + nb := s.size[s.top] - nb + 1]
    ensures var s' := Split(s, s.top, nb, Used, Top);
      && HeapInv(s', binsBase, bins, lo, hi') && FastInv(s', fast, heads, lo)
      && Blocks(s') == Blocks(s)[s.top := nb] && s.top !in Blocks(s)
    ensures PayloadsKept(s, lo, hi, lo, hi', {})
  {
    hide BinIndex, Aligned, PrevInuse, Tags, Sorted, Rings, Coalesced, Chains, ClearOf;
    var p, e := s.top, s.end;
    Inside(s, p);
    FreeHasPrevInuse(s, lo, hi, p);
    TopIsClear(s, binsBase, bins);
    SplitTiled(s, p, nb, Top);
    SplitSameOutside(s, p, nb, Top);
    SplitStep(s, binsBase, bins, lo, hi, lo, hi', p, nb, Top);
    var s' := Split(s, p, nb, Used, Top);
    PayloadsRefl(s, lo, hi);
    PayloadsRefl(s', lo, hi');
    PayloadsAcross(s, s', lo, hi, lo, hi', lo, hi', p, e);
    assert forall q :: q in s.size && Inuse(s, q) ==> q !in {p};
    forall x | x in s'.st && p <= x < e
      ensures x == p || x == p + nb
    {
      assert x in s.size ==> Apart(s, p, x);
    }
    StepEnd(s, s', bins, bins, bins, p, e, p, p, lo, hi, lo, hi, lo, hi');
    PayloadsSpare(s, lo, hi, lo, hi', p);
    StepKeepsFast(s, s', fast, heads, lo, hi, lo, hi', p, e, p);
    SplitBlocks(s, p, nb, Top);
  }

  lemma TopIsClear(s: Shape, binsBase: int, bins: seq<seq<int>>)
    requires Tiled(s) && Listed(s, binsBase, bins)
    ensures ClearOf(bins, s.top, s.end) && FreeRun(s, s.top, s.end, s.top) && Next(s, s.top) == s.end
  {
    hide BinIndex, Aligned;
    Inside(s, s.top);
    forall i, k | 0 <= i < |bins| && 0 <= k < |bins[i]|
      ensures !(s.top <= bins[i][k] < s.end)
    {
      assert Entry(s, bins, i, k);
      Inside(s, bins[i][k]);
    }
    forall x | x in s.size && s.top <= x < s.end
      ensures x == s.top
    {
      Inside(s, x);
    }
  }

  /** A chunk not in use holds no payload, so sparing all others spares all. */
  lemma PayloadsSpare(s: Shape, lo: seq<int>, hi: seq<int>, lo': seq<int>, hi': seq<int>, p: int)
    requires PayloadsKept(s, lo, hi, lo', hi', {p}) && !Inuse(s, p)
    ensures PayloadsKept(s, lo, hi, lo', hi', {})
  {
    forall q | q in s.size && Inuse(s, q)
      ensures PayloadKept(s, lo, hi, lo', hi', q)
    {
      assert q != p;
    }
  }

  /** sbrk extended the region contiguously: top's header grows with it. */
  lemma GrowTopStep(s: Shape, binsBase: int, bins: seq<seq<int>>, fast: seq<seq<int>>, heads: seq<int>,
                    lo: seq<int>, hi: seq<int>, more: int, hi': seq<int>)
    requires HeapInv(s, binsBase, bins, lo, hi) && FastInv(s, fast, heads, lo)
    requires more > 0 && Aligned(more) && s.end + more <= |lo|
    requires 0 <= s.top < |hi| && hi' == hi[s.top := s.size[s.top] + more + 1]
    ensures var s' := GrowTop(s, more);
      HeapInv(s', binsBase, bins, lo, hi') && FastInv(s', fast, heads, lo) && Blocks(s') == Blocks(s)
    ensures PayloadsKept(s, lo, hi, lo, hi', {})
  {
    hide BinIndex, Aligned, PrevInuse, Chains, HeapInv;
    GrowTopTags(s, binsBase, bins, lo, hi, more, hi');
    GrowTopLists(s, binsBase, bins, lo, hi, more, hi');
    GrowTopFast(s, binsBase, bins, fast, heads, lo, hi, more);
  }

  lemma GrowTopTags(s: Shape, binsBase: int, bins: seq<seq<int>>, lo: seq<int>, hi: seq<int>, more: int, hi': seq<int>)
    requires HeapInv(s, binsBase, bins, lo, hi) && more > 0 && Aligned(more) && s.end + more <= |lo|
    requires 0 <= s.top < |hi| && hi' == hi[s.top := s.size[s.top] + more + 1]
    ensures Tiled(GrowTop(s, more)) && Tags(GrowTop(s, more), lo, hi') && Coalesced(GrowTop(s, more))
    ensures PayloadsKept(s, lo, hi, lo, hi', {})
  {
    hide BinIndex, Aligned, PrevInuse, Sorted, Rings, Listed, Complete;
    var s' := GrowTop(s, more);
    GrowTopTiled(s, more);
    Inside(s, s.top);
    FreeHasPrevInuse(s, lo, hi, s.top);
    forall x | x in s'.size
      ensures Tag(s', lo, hi', x)
    {
      assert Tag(s, lo, hi, x) && ChunkOk(s, x);
    }
    forall x | x in s'.size && IsFree(s', x) && x != s'.top
      ensures Inuse(s', Next(s', x))
    {
      assert IsFree(s, x);
    }
    forall q | q in s.size && Inuse(s, q)
      ensures PayloadKept(s, lo, hi, lo, hi', q)
    {
      assert Apart(s, q, s.top) && ChunkOk(s, q);
    }
  }

  lemma GrowTopLists(s: Shape, binsBase: int, bins: seq<seq<int>>, lo: seq<int>, hi: seq<int>, more: int, hi': seq<int>)
    requires HeapInv(s, binsBase, bins, lo, hi) && Tiled(GrowTop(s, more)) && Tags(GrowTop(s, more), lo, hi')
    requires Coalesced(GrowTop(s, more)) && more > 0 && s.end + more <= |lo|
    requires 0 <= s.top < |hi| && hi' == hi[s.top := s.size[s.top] + more + 1]
    ensures HeapInv(GrowTop(s, more), binsBase, bins, lo, hi')
  {
    hide BinIndex, Aligned, PrevInuse, Tags, Coalesced;
    var s' := GrowTop(s, more);
    Inside(s, s.top);
    forall i, k | 0 <= i < NBINS && 0 <= k < |bins[i]|
      ensures Entry(s', bins, i, k) && s'.size[bins[i][k]] == s.size[bins[i][k]]
    {
      assert Entry(s, bins, i, k) && ChunkOk(s, bins[i][k]);
    }
    forall i | 2 <= i < |bins|
      ensures Descending(s', bins[i])
    {
      assert Descending(s, bins[i]);
      forall j, k | 0 <= j < k < |bins[i]| && bins[i][j] in s'.size && bins[i][k] in s'.size
        ensures s'.size[bins[i][j]] >= s'.size[bins[i][k]]
      {
        assert Entry(s, bins, i, j) && Entry(s, bins, i, k);
        assert ChunkOk(s, bins[i][j]) && ChunkOk(s, bins[i][k]);
      }
    }
    TopIsClear(s, binsBase, bins);
    assert Within(lo, hi, lo, hi', s.top, s.end);
    RingsAcross(s, binsBase, bins, lo, hi, lo, hi', s.top, s.end);
    forall x | x in s'.st && s'.st[x].Binned?
      ensures 0 <= s'.st[x].bin < |bins| && x in bins[s'.st[x].bin]
    {
      assert s.st[x].Binned?;
    }
  }

  lemma GrowTopFast(s: Shape, binsBase: int, bins: seq<seq<int>>, fast: seq<seq<int>>, heads: seq<int>, lo: seq<int>,
                    hi: seq<int>, more: int)
    requires HeapInv(s, binsBase, bins, lo, hi) && FastInv(s, fast, heads, lo)
    ensures FastInv(GrowTop(s, more), fast, heads, lo) && Blocks(GrowTop(s, more)) == Blocks(s)
  {
    hide BinIndex, Aligned, PrevInuse, Chains, Tags, Rings, Listed, Sorted;
    var s' := GrowTop(s, more);
    assert ChunkOk(s, s.top);
    forall i, k | 0 <= i < NFASTBINS && 0 <= k < |fast[i]|
      ensures FastEntry(s', fast, i, k)
    {
      assert FastEntry(s, fast, i, k);
    }
    forall x | x in s'.st && s'.st[x] == Fast
      ensures exists i :: 0 <= i < |fast| && x in fast[i]
    {
      assert s.st[x] == Fast;
    }
    assert forall x :: x in Blocks(s') <==> x in Blocks(s);
  }

  /** The picture right after the first sbrk: top is everything. */
  function FirstShape(base: int, end: int): Shape {
    Shape(base, end, base, map[base := end - base], map[base := Top])
  }

  lemma FirstStep(base: int, end: int, binsBase: int, bins: seq<seq<int>>, fast: seq<seq<int>>, heads: seq<int>,
                  lo: seq<int>, hi: seq<int>, hi': seq<int>)
    requires 0 < binsBase && binsBase + 8 * NBINS <= base && base + MINSIZE <= end <= |lo| == |hi| && Aligned(base)
      && Aligned(end)
    requires |bins| == NBINS && (forall i :: 0 <= i < NBINS ==> bins[i] == []) && Rings(binsBase, bins, lo, hi)
    requires |fast| == |heads| == NFASTBINS && (forall i :: 0 <= i < NFASTBINS ==> fast[i] == [] && heads[i] == 0)
    requires hi' == hi[base := end - base + 1]
    ensures HeapInv(FirstShape(base, end), binsBase, bins, lo, hi') && FastInv(FirstShape(base, end), fast, heads, lo)
    ensures Blocks(FirstShape(base, end)) == map[]
  {
    var s := FirstShape(base, end);
    AlignedSum(end, base);
    assert ChunkOk(s, base);
    forall x | x in s.size ensures Tag(s, lo, hi', x) { }
    forall i | 1 <= i < |bins|
      ensures BinRing(binsBase, bins, lo, hi', i)
    {
      assert BinRing(binsBase, bins, lo, hi, i);
      RingFrame(RingOf(Header(binsBase, i), bins[i]), lo, hi, lo, hi');
    }
  }

  // ----- realloc -----

  /** Stores to header words of chunks touch no payload. */
  lemma HeadWritesSpare(s: Shape, lo: seq<int>, hi: seq<int>, hi': seq<int>)
    requires Tiled(s) && |hi'| == |hi|
    requires forall a {:trigger hi'[a]} :: 0 <= a < |hi| && hi'[a] != hi[a] ==> a in s.size
    ensures PayloadsKept(s, lo, hi, lo, hi', {})
  {
    hide BinIndex, Aligned;
    forall q | q in s.size && Inuse(s, q)
      ensures PayloadKept(s, lo, hi, lo, hi', q)
    {
      forall a | 0 <= a < |hi| && q < a < Next(s, q)
        ensures hi'[a] == hi[a]
      {
        assert a in s.size ==> Apart(s, q, a);
      }
    }
  }

  /** A run about to become one used block: its first chunk is used, and none of
      its chunks is parked or listed. */
  ghost predicate UsableRun(s: Shape, binsBase: int, bins0: seq<seq<int>>, bins: seq<seq<int>>, lo: seq<int>,
                            hi: seq<int>, p: int, e: int) {
    && Core(s, binsBase, bins, lo, hi) && Coalesced(s) && Complete(s, bins0) && |bins0| == NBINS
    && OnlyRunRemoved(bins0, bins, p, e) && ClearOf(bins, p, e)
    && Run(s, p, e) && e in s.size && p in s.st && s.st[p] == Used
    && forall x {:trigger s.st[x]} :: x in s.st && p <= x < e ==> s.st[x] != Fast && s.st[x] != Top
  }

  ghost function BlocksOutside(s: Shape, f: int, e: int): map<int, int> {
    map x | x in Blocks(s) && !(f <= x < e) :: s.size[x]
  }

  /** The run [p, e) becomes the block p; the tags on both sides follow. */
  lemma UseRunStep(s: Shape, binsBase: int, bins0: seq<seq<int>>, bins: seq<seq<int>>, fast: seq<seq<int>>,
                   heads: seq<int>,
                   lo: seq<int>, hi: seq<int>, p: int, e: int, hi': seq<int>)
    requires UsableRun(s, binsBase, bins0, bins, lo, hi, p, e) && FastInv(s, fast, heads, lo)
    requires 0 <= p < |hi| && 0 <= e < |hi| && hi' == hi[p := e - p + (hi[p] - s.size[p])][e := s.size[e] + 1]
    ensures var s' := Merge(s, p, e, Used);
      && HeapInv(s', binsBase, bins, lo, hi') && FastInv(s', fast, heads, lo)
      && Blocks(s') == BlocksOutside(s, p, e)[p := e - p]
    ensures PayloadsKept(s, lo, hi, lo, hi', {})
    ensures SameOutside(s, Merge(s, p, e, Used), p, e)
  {
    hide BinIndex, Aligned, PrevInuse, Tags, Sorted, Rings, Coalesced, ClearOf, Chains;
    var s' := Merge(s, p, e, Used);
    Inside(s, p);
    Inside(s, e);
    MergeSameOutside(s, p, e, Used);
    MergeStep(s, binsBase, bins, lo, hi, lo, hi', p, e, Used);
    HeadWritesSpare(s, lo, hi, hi');
    CompleteAcross(s, s', bins0, bins, p, e);
    ChainsKept(s, heads, fast, lo, hi, lo, hi', {});
    FastAcross(s, s', fast, p, e);
    UseRunBlocks(s, p, e);
  }

  lemma UseRunBlocks(s: Shape, p: int, e: int)
    requires Tiled(s) && Run(s, p, e) && SameOutside(s, Merge(s, p, e, Used), p, e)
    ensures Blocks(Merge(s, p, e, Used)) == BlocksOutside(s, p, e)[p := e - p]
  {
    hide BinIndex, Aligned;
    var s' := Merge(s, p, e, Used);
    forall x
      ensures x in Blocks(s') <==> x == p || x in BlocksOutside(s, p, e)
      ensures x in Blocks(s') && x != p ==> s'.size[x] == s.size[x]
    {
      assert !(p <= x < e) ==> SameChunk(s, s', x);
    }
  }

  /** A used block is a usable run of its own ... */
  lemma OneUsable(s: Shape, binsBase: int, bins: seq<seq<int>>, lo: seq<int>, hi: seq<int>, p: int)
    requires HeapInv(s, binsBase, bins, lo, hi) && p in s.size && p in s.st && s.st[p] == Used
    ensures UsableRun(s, binsBase, bins, bins, lo, hi, p, Next(s, p))
    ensures BlocksOutside(s, p, Next(s, p)) == Blocks(s) - {p}
  {
    hide BinIndex, Aligned, Tags, Sorted, Rings, Coalesced, ClearOf;
    assert ChunkOk(s, p);
    UsedIsClear(s, binsBase, bins, p);
    forall x | x in s.st && p <= x < Next(s, p)
      ensures x == p
    {
      assert Apart(s, p, x);
    }
  }

  /** ... and so are a used block and the chunk after it, when that is used too
      or was just taken off its list. */
  lemma TwoUsable(s: Shape, binsBase: int, bins0: seq<seq<int>>, bins: seq<seq<int>>, lo: seq<int>, hi: seq<int>,
                  p: int, n: int)
    requires Core(s, binsBase, bins, lo, hi) && Coalesced(s) && Complete(s, bins0) && |bins0| == NBINS
    requires p in s.size && p in s.st && s.st[p] == Used && n == Next(s, p) && n in s.size && n in s.st
    requires (bins == bins0 && s.st[n] == Used) || (IsFree(s, n) && OneLess(bins0, bins, n) && Unlisted(bins, n))
    ensures n != s.top && UsableRun(s, binsBase, bins0, bins, lo, hi, p, Next(s, n))
    ensures BlocksOutside(s, p, Next(s, n)) == Blocks(s) - {p, n}
  {
    hide BinIndex, Aligned, Tags, Sorted, Rings, Coalesced, ClearOf;
    assert ChunkOk(s, p) && ChunkOk(s, n);
    var e := Next(s, n);
    RunAround(s, p, p, n, e);
    RunCleared(s, binsBase, bins, p, e);
    assert forall x :: x in s.st && p <= x < e ==> x == p || x == n;
  }

  /** A used block is cut in two used blocks. */
  lemma CutBlockStep(s: Shape, binsBase: int, bins: seq<seq<int>>, fast: seq<seq<int>>, heads: seq<int>,
                     lo: seq<int>, hi: seq<int>, p: int, nb: int, hi': seq<int>)
    requires HeapInv(s, binsBase, bins, lo, hi) && FastInv(s, fast, heads, lo)
    requires p in s.size && p in s.st && s.st[p] == Used && LegalSize(nb) && nb + MINSIZE <= s.size[p]
    requires 0 <= p && p + nb < |hi| && hi' == hi[p := nb + (hi[p] - s.size[p])][p + nb := s.size[p] - nb + 1]
    ensures var s' := Split(s, p, nb, Used, Used);
      && HeapInv(s', binsBase, bins, lo, hi') && FastInv(s', fast, heads, lo)
      && Blocks(s') == Blocks(s)[p := nb][p + nb := s.size[p] - nb] && p + nb !in s.size
    ensures PayloadsKept(s, lo, hi, lo, hi', {p}) && BlockKept(p, nb, lo, hi, lo, hi')
  {
    hide BinIndex, Aligned, PrevInuse, Tags, Sorted, Rings, Coalesced, Chains, ClearOf;
    Inside(s, p);
    var e := Next(s, p);
    assert ChunkOk(s, p);
    Inside(s, e);
    UsedIsClear(s, binsBase, bins, p);
    SplitTiled(s, p, nb, Used);
    SplitSameOutside(s, p, nb, Used);
    SplitStep(s, binsBase, bins, lo, hi, lo, hi', p, nb, Used);
    var s' := Split(s, p, nb, Used, Used);
    PayloadsRefl(s', lo, hi');
    PayloadsAcross(s, s', lo, hi, lo, hi', lo, hi', p, e);
    KeptOutsideOne(s, lo, hi, lo, hi', p);
    CompleteAcross(s, s', bins, bins, p, e);
    forall x | x in s.st && p <= x < e
      ensures x == p
    {
      assert Apart(s, p, x);
    }
    NotParked(s, fast, p);
    ChainsKept(s, heads, fast, lo, hi, lo, hi', {p});
    FastAcross(s, s', fast, p, e);
    SplitBlocks(s, p, nb, Used);
  }

  lemma KeptOutsideOne(s: Shape, lo: seq<int>, hi: seq<int>, lo': seq<int>, hi': seq<int>, p: int)
    requires Tiled(s) && p in s.size && KeptOutside(s, lo, hi, lo', hi', p, Next(s, p))
    ensures PayloadsKept(s, lo, hi, lo', hi', {p})
  {
    hide BinIndex, Aligned;
    forall q | q in s.size && Inuse(s, q) && q !in {p}
      ensures PayloadKept(s, lo, hi, lo', hi', q)
    {
      assert Apart(s, p, q);
    }
  }

  function GrownIntoTop(s: Shape, p: int, nb: int): Shape
    requires s.size.Keys == s.st.Keys && p in s.size
  {
    Split(Merge(s, p, s.end, Top), p, nb, Used, Top)
  }

  /** Block p borders top and takes the front of it. */
  lemma GrowIntoTopTags(s: Shape, lo: seq<int>, hi: seq<int>, p: int, nb: int, hi': seq<int>)
    requires Tiled(s) && Bounded(s, lo, hi) && Tags(s, lo, hi)
    requires p in s.size && p in s.st && s.st[p] == Used && Next(s, p) == s.top
    requires LegalSize(nb) && nb + MINSIZE <= s.end - p
    requires 0 <= p && p + nb < |hi| && hi' == hi[p := nb + (hi[p] - s.size[p])][p + nb := s.end - p - nb + 1]
    ensures Tiled(GrownIntoTop(s, p, nb)) && Tags(GrownIntoTop(s, p, nb), lo, hi')
    ensures SameOutside(s, GrownIntoTop(s, p, nb), p, s.end) && Run(s, p, s.end)
      && p + nb !in Merge(s, p, s.end, Top).size
    ensures forall x :: x in s.size && p <= x < s.end ==> x == p || x == s.top
    ensures forall x :: x in GrownIntoTop(s, p, nb).size && p <= x < s.end ==> x == p || x == p + nb
  {
    hide BinIndex, Aligned, PrevInuse;
    var total := s.end - p;
    var hiM := hi[p := total + (hi[p] - s.size[p])];
    var sM := Merge(s, p, s.end, Top);
    Inside(s, p);
    Inside(s, s.top);
    RunAround(s, p, p, s.top, s.end);
    assert s.end in s.size ==> ChunkOk(s, s.end);
    MergeTags(s, lo, hi, lo, hiM, p, s.end, Top);
    MergeSameOutside(s, p, s.end, Top);
    Inside(sM, p);
    SplitTiled(sM, p, nb, Top);
    SplitSameOutside(sM, p, nb, Top);
    SplitTags(sM, lo, hiM, lo, hi', p, nb, Top);
    forall x | !(p <= x < s.end)
      ensures SameChunk(s, GrownIntoTop(s, p, nb), x)
    {
      assert SameChunk(s, sM, x) && SameChunk(sM, GrownIntoTop(s, p, nb), x);
    }
  }

  lemma GrowIntoTopStep(s: Shape, binsBase: int, bins: seq<seq<int>>, fast: seq<seq<int>>, heads: seq<int>,
                        lo: seq<int>, hi: seq<int>, p: int, nb: int, hi': seq<int>)
    requires HeapInv(s, binsBase, bins, lo, hi) && FastInv(s, fast, heads, lo)
    requires p in s.size && p in s.st && s.st[p] == Used && Next(s, p) == s.top
    requires LegalSize(nb) && s.size[p] <= nb && nb + MINSIZE <= s.end - p
    requires 0 <= p && p + nb < |hi| && hi' == hi[p := nb + (hi[p] - s.size[p])][p + nb := s.end - p - nb + 1]
    ensures var s' := GrownIntoTop(s, p, nb);
      && HeapInv(s', binsBase, bins, lo, hi') && FastInv(s', fast, heads, lo) && Blocks(s') == Blocks(s)[p := nb]
      && s'.base == s.base && s'.end == s.end && s'.top == p + nb
    ensures PayloadsKept(s, lo, hi, lo, hi', {})
  {
    hide BinIndex, Aligned, PrevInuse, Tags, Sorted, Rings, Coalesced, Chains, ClearOf, GrownIntoTop;
    var s', e := GrownIntoTop(s, p, nb), s.end;
    Inside(s, p);
    Inside(s, s.top);
    GrowIntoTopTags(s, lo, hi, p, nb, hi');
    GrownFacts(s, p, nb);
    GrowIntoTopCoalesced(s, lo, hi, p, nb);
    forall x | x in s.size && p <= x < e
      ensures !IsFree(s, x) || Unlisted(bins, x)
    {
    }
    RunCleared(s, binsBase, bins, p, e);
    ListsAcross(s, s', binsBase, bins, p, e);
    RingsAcross(s, binsBase, bins, lo, hi, lo, hi', p, e);
    CompleteAcross(s, s', bins, bins, p, e);
    GrowIntoTopPayloads(s, lo, hi, p, nb, hi');
    ChainsKept(s, heads, fast, lo, hi, lo, hi', {});
    FastAcross(s, s', fast, p, e);
    GrownBlocks(s, p, nb);
  }

  lemma GrownFacts(s: Shape, p: int, nb: int)
    requires Tiled(s) && p in s.size && p in s.st && Next(s, p) == s.top && 0 < nb < s.end - p
    ensures var s' := GrownIntoTop(s, p, nb);
      && s'.base == s.base && s'.end == s.end && s'.top == p + nb
      && p in s'.st && s'.st[p] == Used && p + nb in s'.st && s'.st[p + nb] == Top && s'.size.Keys == s'.st.Keys
  {
    Inside(s, p);
    Inside(s, s.top);
  }

  lemma GrownBlocks(s: Shape, p: int, nb: int)
    requires Tiled(s) && p in s.size && p in s.st && s.st[p] == Used && SameOutside(s, GrownIntoTop(s, p, nb), p, s.end)
    requires Next(s, p) == s.top && 0 < nb < s.end - p
    requires forall x :: x in s.size && p <= x < s.end ==> x == p || x == s.top
    requires forall x :: x in GrownIntoTop(s, p, nb).size && p <= x < s.end ==> x == p || x == p + nb
    ensures Blocks(GrownIntoTop(s, p, nb)) == Blocks(s)[p := nb]
  {
    hide BinIndex, Aligned;
    var s' := GrownIntoTop(s, p, nb);
    Inside(s, s.top);
    forall x
      ensures x in Blocks(s') <==> x == p || x in Blocks(s)
      ensures x in Blocks(s') && x != p ==> s'.size[x] == s.size[x]
    {
      assert !(p <= x < s.end) ==> SameChunk(s, s', x);
    }
  }

  lemma GrowIntoTopCoalesced(s: Shape, lo: seq<int>, hi: seq<int>, p: int, nb: int)
    requires Tiled(s) && Bounded(s, lo, hi) && Tags(s, lo, hi) && Coalesced(s) && Run(s, p, s.end) && p in s.st
      && s.st[p] == Used
    requires Next(s, p) == s.top && 0 < nb < s.end - p
    requires SameOutside(s, GrownIntoTop(s, p, nb), p, s.end) && 0 <= p < |hi|
    requires forall x :: x in GrownIntoTop(s, p, nb).size && p <= x < s.end ==> x == p || x == p + nb
    ensures Coalesced(GrownIntoTop(s, p, nb))
  {
    hide BinIndex, Aligned, PrevInuse, GrownIntoTop;
    var s' := GrownIntoTop(s, p, nb);
    GrownFacts(s, p, nb);
    forall x | x in s'.size && IsFree(s', x) && x != s'.top
      ensures Inuse(s', Next(s', x))
    {
      FreeOutside(s, s', lo, hi, p, s.end, x);
    }
  }

  lemma GrowIntoTopPayloads(s: Shape, lo: seq<int>, hi: seq<int>, p: int, nb: int, hi': seq<int>)
    requires Tiled(s) && p in s.size && Next(s, p) == s.top && s.size[p] <= nb && p + nb <= s.end && 0 <= p
      && p + nb < |hi|
    requires |hi'| == |hi| && forall a {:trigger hi'[a]} :: 0 <= a < |hi| && a != p && a != p + nb ==> hi'[a] == hi[a]
    ensures PayloadsKept(s, lo, hi, lo, hi', {})
  {
    hide BinIndex, Aligned;
    forall q | q in s.size && Inuse(s, q)
      ensures PayloadKept(s, lo, hi, lo, hi', q)
    {
      Inside(s, q);
      assert Apart(s, q, p) && Apart(s, p, q) && Apart(s, q, s.top);
    }
  }

  // ----- The owner writes to its block -----

  /** Only payload words of block q differ. */
  ghost predicate PayloadOnly(q: int, size: int, lo: seq<int>, hi: seq<int>, lo': seq<int>, hi': seq<int>) {
    && |lo'| == |lo| && |hi'| == |hi|
    && (forall a {:trigger lo'[a]} :: 0 <= a < |lo| && !(q < a <= q + size) ==> lo'[a] == lo[a])
    && (forall a {:trigger hi'[a]} :: 0 <= a < |hi| && !(q < a < q + size) ==> hi'[a] == hi[a])
  }

  /** Whatever a user writes into its own block, the heap stays in order and no
      other block changes. */
  lemma UserWriteStep(s: Shape, binsBase: int, bins: seq<seq<int>>, fast: seq<seq<int>>, heads: seq<int>,
                      lo: seq<int>, hi: seq<int>, lo': seq<int>, hi': seq<int>, q: int)
    requires HeapInv(s, binsBase, bins, lo, hi) && FastInv(s, fast, heads, lo)
    requires q in s.size && q in s.st && s.st[q] == Used && PayloadOnly(q, s.size[q], lo, hi, lo', hi')
    ensures HeapInv(s, binsBase, bins, lo', hi') && FastInv(s, fast, heads, lo')
    ensures PayloadsKept(s, lo, hi, lo', hi', {q})
  {
    hide BinIndex, Aligned, PrevInuse, Sorted, Rings, Coalesced, Chains, ClearOf;
    var e := Next(s, q);
    assert ChunkOk(s, q);
    UsedIsClear(s, binsBase, bins, q);
    assert Within(lo, hi, lo', hi', q, e);
    RingsAcross(s, binsBase, bins, lo, hi, lo', hi', q, e);
    UserWriteTags(s, lo, hi, lo', hi', q);
    forall p | p in s.size && Inuse(s, p) && p != q
      ensures PayloadKept(s, lo, hi, lo', hi', p)
    {
      assert Apart(s, q, p);
      WithinKeepsPayloads(s, lo, hi, lo', hi', q, e, p);
    }
    NotParked(s, fast, q);
    ChainsKept(s, heads, fast, lo, hi, lo', hi', {q});
  }

  lemma UserWriteTags(s: Shape, lo: seq<int>, hi: seq<int>, lo': seq<int>, hi': seq<int>, q: int)
    requires Tiled(s) && Bounded(s, lo, hi) && Tags(s, lo, hi)
    requires q in s.size && q in s.st && s.st[q] == Used && PayloadOnly(q, s.size[q], lo, hi, lo', hi')
    ensures Tags(s, lo', hi')
  {
    hide BinIndex, Aligned;
    forall x | x in s.size
      ensures Tag(s, lo', hi', x)
    {
      assert Tag(s, lo, hi, x) && ChunkOk(s, x) && Apart(s, q, x) && Apart(s, x, q);
      if x != s.top { assert Apart(s, q, Next(s, x)); }
    }
  }

  // ----- Payload words -----

  /** Payload word k of the block at p: the words after the header in address order. */
  function WordAt(lo: seq<int>, hi: seq<int>, p: int, k: nat): int {
    if k % 2 == 0 then (if 0 <= p + 8 + 4 * k < |lo| then lo[p + 8 + 4 * k] else 0)
    else (if 0 <= p + 4 + 4 * k < |hi| then hi[p + 4 + 4 * k] else 0)
  }

  /** malloc_usable_size, in words. */
  function UsableWords(size: int): int { (size - SIZE_SZ) / 4 }

  /** The first n payload words of q now are those p held then. */
  ghost predicate SameWords(p: int, q: int, n: int, lo: seq<int>, hi: seq<int>, lo': seq<int>, hi': seq<int>) {
    forall k: nat {:trigger WordAt(lo', hi', q, k)} :: k < n ==> WordAt(lo', hi', q, k) == WordAt(lo, hi, p, k)
  }

  lemma KeptIsSame(p: int, size: int, lo: seq<int>, hi: seq<int>, lo': seq<int>, hi': seq<int>)
    requires BlockKept(p, size, lo, hi, lo', hi')
    ensures SameWords(p, p, UsableWords(size), lo, hi, lo', hi')
  {
    forall k: nat | k < UsableWords(size)
      ensures WordAt(lo', hi', p, k) == WordAt(lo, hi, p, k)
    {
    }
  }

  /** The odd number of payload words of a chunk. */
  lemma UsableOdd(size: int)
    requires LegalSize(size)
    ensures UsableWords(size) % 2 == 1 && UsableWords(size) >= 3 && 4 * UsableWords(size) == size - SIZE_SZ
  {
  }

  /** Copying is under way: k words of q are done and nothing else has changed. */
  ghost predicate CopyState(p: int, q: int, qsize: int, k: int, lo: seq<int>, hi: seq<int>, lo': seq<int>,
                            hi': seq<int>) {
    && PayloadOnly(q, qsize, lo, hi, lo', hi') && SameWords(p, q, k, lo, hi, lo', hi')
    && forall j: nat {:trigger WordAt(lo', hi', q, j)} :: k <= j < UsableWords(qsize) ==>
      WordAt(lo', hi', q, j) == WordAt(lo, hi, q, j)
  }

  lemma CopyOne(p: int, psize: int, q: int, qsize: int, k: nat, lo0: seq<int>, hi0: seq<int>,
                lo: seq<int>, hi: seq<int>, lo': seq<int>, hi': seq<int>)
    requires CopyState(p, q, qsize, k, lo0, hi0, lo, hi) && |lo| == |hi|
    requires k < UsableWords(psize) && k < UsableWords(qsize) && 0 <= p && 0 <= q
    requires p + psize <= q || q + qsize <= p
    requires p + psize < |lo| && q + qsize < |lo|
    requires if k % 2 == 0 then lo' == lo[q + 8 + 4 * k := lo[p + 8 + 4 * k]] && hi' == hi
             else hi' == hi[q + 4 + 4 * k := hi[p + 4 + 4 * k]] && lo' == lo
    ensures CopyState(p, q, qsize, k + 1, lo0, hi0, lo', hi')
  {
    assert WordAt(lo, hi, p, k) == WordAt(lo0, hi0, p, k);
    forall j: nat | j < k + 1
      ensures WordAt(lo', hi', q, j) == WordAt(lo0, hi0, p, j)
    {
      if j < k { assert WordAt(lo', hi', q, j) == WordAt(lo, hi, q, j); }
    }
    forall j: nat | k + 1 <= j < UsableWords(qsize)
      ensures WordAt(lo', hi', q, j) == WordAt(lo0, hi0, q, j)
    {
      assert WordAt(lo', hi', q, j) == WordAt(lo, hi, q, j);
    }
  }
}
