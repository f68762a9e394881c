/** The fastbins: singly linked stacks of small freed chunks, threaded through
    their fd words and ended by a null pointer. */
module FastBins {
  import opened SizeClasses
  import opened HeapShape
  import opened BoundaryTags
  import opened BinLists

  ghost predicate Chain(head: int, l: seq<int>, lo: seq<int>)
    decreases |l|
  {
    if l == [] then head == 0
    else head == l[0] && head != 0 && 0 <= head + 8 < |lo| && Chain(lo[head + 8], l[1..], lo)
  }

  ghost predicate Chains(heads: seq<int>, fast: seq<seq<int>>, lo: seq<int>) {
    && |heads| == |fast| == NFASTBINS
    && forall i {:trigger Chain(heads[i], fast[i], lo)} :: 0 <= i < NFASTBINS ==> Chain(heads[i], fast[i], lo)
  }

  ghost predicate FastEntry(s: Shape, fast: seq<seq<int>>, i: int, k: int) {
    && 0 <= i < |fast| && 0 <= k < |fast[i]|
    && fast[i][k] in s.size && fast[i][k] in s.st && s.st[fast[i][k]] == Fast
    && FastbinIndex(s.size[fast[i][k]]) == i
  }

  ghost predicate FastListed(s: Shape, fast: seq<seq<int>>) {
    && |fast| == NFASTBINS
    && (forall i, k {:trigger FastEntry(s, fast, i, k)} :: 0 <= i < NFASTBINS && 0 <= k < |fast[i]| ==>
      FastEntry(s, fast, i, k))
    && (forall i {:trigger Distinct(fast[i])} :: 0 <= i < NFASTBINS ==> Distinct(fast[i]))
  }

  ghost predicate FastComplete(s: Shape, fast: seq<seq<int>>) {
    forall x {:trigger s.st[x]} :: x in s.st && s.st[x] == Fast ==>
      exists i :: 0 <= i < |fast| && x in fast[i]
  }

  lemma {:induction false} ChainFrame(head: int, l: seq<int>, lo: seq<int>, lo': seq<int>)
    requires Chain(head, l, lo) && |lo'| == |lo|
    requires forall k {:trigger l[k]} :: 0 <= k < |l| && 0 <= l[k] + 8 < |lo| ==> lo'[l[k] + 8] == lo[l[k] + 8]
    ensures Chain(head, l, lo')
    decreases |l|
  {
    if l != [] {
      assert l[0] == head;
      forall k | 0 <= k < |l[1..]| && 0 <= l[1..][k] + 8 < |lo|
        ensures lo'[l[1..][k] + 8] == lo[l[1..][k] + 8]
      {
        assert l[1..][k] == l[k + 1];
      }
      ChainFrame(lo[head + 8], l[1..], lo, lo');
    }
  }

  /** Parked chunks keep their links when the payloads of blocks in use are kept. */
  lemma ChainsKept(s: Shape, heads: seq<int>, fast: seq<seq<int>>,
                   lo: seq<int>, hi: seq<int>, lo': seq<int>, hi': seq<int>, but: set<int>)
    requires Tiled(s) && Bounded(s, lo, hi) && |lo'| == |lo|
    requires FastListed(s, fast) && Chains(heads, fast, lo)
    requires PayloadsKept(s, lo, hi, lo', hi', but)
    requires forall b {:trigger Unlisted(fast, b)} :: b in but ==> Unlisted(fast, b)
    ensures Chains(heads, fast, lo')
  {
    hide BinIndex, Aligned;
    forall i | 0 <= i < NFASTBINS
      ensures Chain(heads[i], fast[i], lo')
    {
      assert Chain(heads[i], fast[i], lo);
      forall k | 0 <= k < |fast[i]|
        ensures 0 <= fast[i][k] + 8 < |lo| ==> lo'[fast[i][k] + 8] == lo[fast[i][k] + 8]
      {
        var x := fast[i][k];
        assert FastEntry(s, fast, i, k);
        assert x in but ==> Unlisted(fast, x) && x in fast[i];
        Inside(s, x);
        assert PayloadKept(s, lo, hi, lo', hi', x);
      }
      ChainFrame(heads[i], fast[i], lo, lo');
    }
  }

  /** Pushing chunk p on its stack: fd of p gets the old head. */
  lemma PushChains(s: Shape, heads: seq<int>, fast: seq<seq<int>>, lo: seq<int>, i: int, p: int)
    requires Chains(heads, fast, lo) && 0 <= i < NFASTBINS
    requires p != 0 && 0 <= p + 8 < |lo| && Unlisted(fast, p)
    ensures Chains(heads[i := p], fast[i := [p] + fast[i]], lo[p + 8 := heads[i]])
  {
    var heads', fast', lo' := heads[i := p], fast[i := [p] + fast[i]], lo[p + 8 := heads[i]];
    forall j | 0 <= j < NFASTBINS
      ensures Chain(heads'[j], fast'[j], lo')
    {
      assert Chain(heads[j], fast[j], lo) && p !in fast[j];
      ChainFrame(heads[j], fast[j], lo, lo');
      if j == i { assert fast'[i][1..] == fast[i]; }
    }
  }

  lemma PopChains(heads: seq<int>, fast: seq<seq<int>>, lo: seq<int>, i: int)
    requires Chains(heads, fast, lo) && 0 <= i < NFASTBINS && heads[i] != 0
    ensures fast[i] != [] && fast[i][0] == heads[i] && 0 <= heads[i] + 8 < |lo|
    ensures Chains(heads[i := lo[heads[i] + 8]], fast[i := fast[i][1..]], lo)
  {
    assert Chain(heads[i], fast[i], lo);
    var heads', fast' := heads[i := lo[heads[i] + 8]], fast[i := fast[i][1..]];
    forall j | 0 <= j < NFASTBINS
      ensures Chain(heads'[j], fast'[j], lo)
    {
      assert Chain(heads[j], fast[j], lo);
    }
  }

  // ----- Which chunks are parked -----

  lemma FastPush(s: Shape, fast: seq<seq<int>>, p: int)
    requires Tiled(s) && FastListed(s, fast) && FastComplete(s, fast)
    requires p in s.size && s.st[p] == Used && s.size[p] <= FAST_LIMIT
    ensures var i := FastbinIndex(s.size[p]);
      && 0 <= i < NFASTBINS && Unlisted(fast, p)
      && FastListed(SetStatus(s, p, Fast), fast[i := [p] + fast[i]])
      && FastComplete(SetStatus(s, p, Fast), fast[i := [p] + fast[i]])
  {
    hide BinIndex, Aligned;
    assert ChunkOk(s, p);
    var i := FastbinIndex(s.size[p]);
    var s', fast' := SetStatus(s, p, Fast), fast[i := [p] + fast[i]];
    NotParked(s, fast, p);
    forall j, k | 0 <= j < NFASTBINS && 0 <= k < |fast'[j]|
      ensures FastEntry(s', fast', j, k)
    {
      if j != i || k > 0 { assert FastEntry(s, fast, j, if j == i then k - 1 else k); }
    }
    forall j | 0 <= j < NFASTBINS
      ensures Distinct(fast'[j])
    {
      assert Distinct(fast[j]);
    }
    forall x | x in s'.st && s'.st[x] == Fast
      ensures exists j :: 0 <= j < |fast'| && x in fast'[j]
    {
      if x == p { assert x in fast'[i]; } else {
        assert s.st[x] == Fast;
        var j :| 0 <= j < |fast| && x in fast[j];
        assert x in fast'[j];
      }
    }
  }

  lemma NotParked(s: Shape, fast: seq<seq<int>>, p: int)
    requires FastListed(s, fast) && p in s.st && s.st[p] != Fast
    ensures Unlisted(fast, p)
  {
    forall i | 0 <= i < |fast|
      ensures p !in fast[i]
    {
      forall k | 0 <= k < |fast[i]| ensures fast[i][k] != p { assert FastEntry(s, fast, i, k); }
    }
  }

  /** Taking the first chunk of a stack. */
  lemma FastPop(s: Shape, fast: seq<seq<int>>, i: int, t: Status)
    requires Tiled(s) && FastListed(s, fast) && FastComplete(s, fast)
    requires 0 <= i < NFASTBINS && fast[i] != [] && t != Fast
    ensures var p := fast[i][0];
      && p in s.size && p in s.st && s.st[p] == Fast && FastbinIndex(s.size[p]) == i && p != s.top
      && Unlisted(fast[i := fast[i][1..]], p)
      && FastListed(SetStatus(s, p, t), fast[i := fast[i][1..]])
      && FastComplete(SetStatus(s, p, t), fast[i := fast[i][1..]])
  {
    hide BinIndex, Aligned;
    var p := fast[i][0];
    var s', fast' := SetStatus(s, p, t), fast[i := fast[i][1..]];
    assert FastEntry(s, fast, i, 0) && Distinct(fast[i]);
    assert ChunkOk(s, p);
    forall j, k | 0 <= j < NFASTBINS && 0 <= k < |fast'[j]|
      ensures FastEntry(s', fast', j, k) && fast'[j][k] != p
    {
      assert FastEntry(s, fast, j, if j == i then k + 1 else k);
      assert j == i ==> fast'[j][k] == fast[i][k + 1] && fast[i][0] != fast[i][k + 1];
    }
    forall j | 0 <= j < NFASTBINS
      ensures Distinct(fast'[j])
    {
      assert Distinct(fast[j]);
    }
    forall x | x in s'.st && s'.st[x] == Fast
      ensures exists j :: 0 <= j < |fast'| && x in fast'[j]
    {
      assert s.st[x] == Fast;
      var j :| 0 <= j < |fast| && x in fast[j];
      assert x in fast'[j];
    }
  }

  /** The stacks across a change confined to a run that holds no parked chunk. */
  lemma FastAcross(s: Shape, s': Shape, fast: seq<seq<int>>, f: int, e: int)
    requires FastListed(s, fast) && FastComplete(s, fast) && SameOutside(s, s', f, e)
    requires forall x {:trigger s.st[x]} :: x in s.st && f <= x < e ==> s.st[x] != Fast
    requires forall x {:trigger s'.st[x]} :: x in s'.st && f <= x < e ==> s'.st[x] != Fast
    ensures FastListed(s', fast) && FastComplete(s', fast)
  {
    forall i, k | 0 <= i < NFASTBINS && 0 <= k < |fast[i]|
      ensures FastEntry(s', fast, i, k)
    {
      assert FastEntry(s, fast, i, k) && SameChunk(s, s', fast[i][k]);
    }
    forall x | x in s'.st && s'.st[x] == Fast
      ensures exists i :: 0 <= i < |fast| && x in fast[i]
    {
      assert SameChunk(s, s', x);
    }
  }

  /** Nothing is parked beyond the bin of max_fast. */
  lemma NothingBeyond(s: Shape, fast: seq<seq<int>>, i: int)
    requires Tiled(s) && FastListed(s, fast) && FastbinIndex(FAST_LIMIT) < i < NFASTBINS
    ensures fast[i] == []
  {
    hide BinIndex, Aligned;
    if fast[i] != [] {
      assert FastEntry(s, fast, i, 0);
      Inside(s, fast[i][0]);
    }
  }
}
