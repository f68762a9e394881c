/** The allocator of lib/malloc.c over one flat memory. */
module Malloc {
  import opened MachineWord
  import opened SizeClasses
  import opened Alignment
  import opened HeapShape
  import opened BoundaryTags
  import opened BinLists
  import opened FastBins
  import opened BinMap
  import opened HeapSteps
  import opened BestFit
  import opened Accounting
  import opened Fragmentation
  import opened Selection

  ghost function IndexOf(l: seq<int>, x: int): (k: int)
    requires x in l
    ensures 0 <= k < |l| && l[k] == x
  {
    var k :| 0 <= k < |l| && l[k] == x; k
  }

  // ANYCHUNKS_BIT and FASTCHUNKS_BIT, the two low bits of max_fast
  predicate HaveAnychunks(maxFast: int) { maxFast % 2 == 1 }
  predicate HaveFastchunks(maxFast: int) { maxFast / 2 % 2 == 1 }
  function SetAnychunks(maxFast: int): int { if HaveAnychunks(maxFast) then maxFast else maxFast + 1 }
  function ClearFastchunks(maxFast: int): int { if HaveFastchunks(maxFast) then maxFast - 2 else maxFast }
  function SetFastchunks(maxFast: int): int {
    SetAnychunks(if HaveFastchunks(maxFast) then maxFast else maxFast + 2)
  }

  lemma Surroundings(s: Shape, binsBase: int, bins: seq<seq<int>>, lo: seq<int>, hi: seq<int>)
    requires HeapInv(s, binsBase, bins, lo, hi)
    ensures Tiled(s) && Bounded(s, lo, hi) && |bins| == NBINS
  {
  }

  /** Two stores to different words, the first of which hides an older value. */
  lemma StoresSwap(m: seq<int>, m0: seq<int>, h: int, v: int, r: int, w: int)
    requires 0 <= h < |m| && |m0| == |m| && 0 <= r < |m| && r != h && m == m0[h := m[h]]
    ensures m[h := v][r := w] == m0[r := w][h := v]
  {
    assert m[h := v] == m0[h := v];
  }

  lemma StoreElsewhere(m: seq<int>, m0: seq<int>, h: int, a: int, v: int)
    requires 0 <= h < |m| && |m0| == |m| && 0 <= a < |m| && a != h && m == m0[h := m[h]]
    ensures m[a := v] == m0[a := v][h := m[a := v][h]]
  {
  }

  lemma KeptRefl(blocks: map<int, int>, lo: seq<int>, hi: seq<int>)
    ensures BlocksKept(blocks, lo, hi, lo, hi)
  {
  }

  lemma KeptTrans(blocks: map<int, int>, lo: seq<int>, hi: seq<int>, lo1: seq<int>, hi1: seq<int>, lo': seq<int>,
                  hi': seq<int>)
    requires BlocksKept(blocks, lo, hi, lo1, hi1) && BlocksKept(blocks, lo1, hi1, lo', hi')
    ensures BlocksKept(blocks, lo, hi, lo', hi')
  {
    forall q | q in blocks
      ensures BlockKept(q, blocks[q], lo, hi, lo', hi')
    {
      assert BlockKept(q, blocks[q], lo, hi, lo1, hi1) && BlockKept(q, blocks[q], lo1, hi1, lo', hi');
    }
  }

  lemma KeptOne(blocks: map<int, int>, q: int, lo: seq<int>, hi: seq<int>, lo': seq<int>, hi': seq<int>)
    requires BlocksKept(blocks, lo, hi, lo', hi') && q in blocks
    ensures BlockKept(q, blocks[q], lo, hi, lo', hi')
  {
  }

  lemma KeptPart(blocks: map<int, int>, part: map<int, int>, lo: seq<int>, hi: seq<int>, lo': seq<int>, hi': seq<int>)
    requires BlocksKept(blocks, lo, hi, lo', hi')
    requires forall q {:trigger q in part} :: q in part ==> q in blocks && part[q] == blocks[q]
    ensures BlocksKept(part, lo, hi, lo', hi')
  {
    hide BlockKept;
    forall q | q in part
      ensures BlockKept(q, part[q], lo, hi, lo', hi')
    {
      assert BlockKept(q, blocks[q], lo, hi, lo', hi');
    }
  }

  lemma KeptFewer(blocks: map<int, int>, p: int, lo: seq<int>, hi: seq<int>, lo': seq<int>, hi': seq<int>)
    requires BlocksKept(blocks, lo, hi, lo', hi')
    ensures BlocksKept(blocks - {p}, lo, hi, lo', hi')
  {
    KeptPart(blocks, blocks - {p}, lo, hi, lo', hi');
  }

  lemma SameWordsTrans(p: int, q: int, n: int, m: int, lo: seq<int>, hi: seq<int>, lo1: seq<int>, hi1: seq<int>,
                       lo2: seq<int>, hi2: seq<int>)
    requires SameWords(p, q, n, lo, hi, lo1, hi1) && SameWords(q, q, m, lo1, hi1, lo2, hi2) && n <= m
    ensures SameWords(p, q, n, lo, hi, lo2, hi2)
  {
    hide WordAt;
    forall k: nat | k < n
      ensures WordAt(lo2, hi2, q, k) == WordAt(lo, hi, p, k)
    {
      assert WordAt(lo2, hi2, q, k) == WordAt(lo1, hi1, q, k);
    }
  }

  lemma SameWordsFirst(p: int, q: int, n: int, lo: seq<int>, hi: seq<int>, lo1: seq<int>, hi1: seq<int>, lo2: seq<int>,
                       hi2: seq<int>)
    requires SameWords(p, p, n, lo, hi, lo1, hi1) && SameWords(p, q, n, lo1, hi1, lo2, hi2)
    ensures SameWords(p, q, n, lo, hi, lo2, hi2)
  {
    hide WordAt;
    forall k: nat | k < n
      ensures WordAt(lo2, hi2, q, k) == WordAt(lo, hi, p, k)
    {
      assert WordAt(lo1, hi1, p, k) == WordAt(lo, hi, p, k);
    }
  }

  function Min(a: int, b: int): int { if a < b then a else b }

  /** Block p became block q, of at least nb and less than nb + MINSIZE bytes;
      all other blocks are as before. */
  ghost predicate Resized(s: Shape, s': Shape, p: int, q: int, nb: int) {
    && p in Blocks(s) && q in Blocks(s') && (q == p || q !in Blocks(s))
    && Blocks(s') == (Blocks(s) - {p})[q := Blocks(s')[q]]
    && nb <= Blocks(s')[q] < nb + MINSIZE
  }

  /** Top lies behind p and has room for nb bytes in all. */
  ghost predicate TopBehind(s: Shape, p: int, nb: int) {
    p in s.size && Next(s, p) == s.top && s.top in s.size && s.size[p] + s.size[s.top] >= nb + MINSIZE
  }

  /** A free chunk lies behind p that makes nb bytes with it. */
  ghost predicate RoomBehind(s: Shape, p: int, nb: int) {
    && p in s.size && Next(s, p) != s.top && Next(s, p) in s.size && IsFree(s, Next(s, p))
    && s.size[p] + s.size[Next(s, p)] >= nb
  }

  /** What is left of `total` bytes when all but nb are given back, if they make a
      chunk. */
  function FitSize(total: int, nb: int): int { if total - nb < MINSIZE then total else nb }

  /** Whether realloc stayed, or malloc served it elsewhere or right behind. */
  datatype Move = Stayed | Moved(to: int, how: Choice, at: Situation)

  /** Where block p of the heap s has to go to have nb bytes, and how large it is then
      in s'. */
  ghost predicate Owed(s: Shape, s': Shape, p: int, q: int, nb: nat, move: Move) {
    && p in Blocks(s) && q in Blocks(s')
    && if nb <= Blocks(s)[p] then move == Stayed && q == p && Blocks(s')[p] == FitSize(Blocks(s)[p], nb)
       else if TopBehind(s, p, nb) then move == Stayed && q == p && Blocks(s')[p] == nb && s'.top == p + nb
       else if RoomBehind(s, p, nb) then
         move == Stayed && q == p && Blocks(s')[p] == FitSize(s.size[p] + s.size[Next(s, p)], nb)
       else move.Moved? && Served(move.at, nb, move.to, move.how)
            && q == if move.to == p + Blocks(s)[p] then p else move.to
  }

  /** The words common to the usable sizes of p then and q now are the same, and
      every other block kept its words. */
  ghost predicate ContentsMoved(s: Shape, s': Shape, p: int, q: int, lo: seq<int>, hi: seq<int>, lo': seq<int>,
                                hi': seq<int>) {
    && p in Blocks(s) && q in Blocks(s')
    && SameWords(p, q, UsableWords(Min(Blocks(s)[p], Blocks(s')[q])), lo, hi, lo', hi')
    && BlocksKept(Blocks(s) - {p}, lo, hi, lo', hi')
  }

  /** Block p became part of the free run from f to e, or of top if that borders it. */
  ghost predicate Freed(s: Shape, s': Shape, p: int, f: int, e: int) {
    s.size.Keys == s.st.Keys && FreeRun(s, f, e, p) && s' == Merge(s, f, e, if e == s.end then Top else Binned(1))
  }

  /** Block p is parked at the head of the fastbin of its size and nothing else
      happened. */
  ghost predicate ParkedAs(s: Shape, s': Shape, fast: seq<seq<int>>, fast': seq<seq<int>>, p: int) {
    && s' == SetStatus(s, p, Fast) && p in s.size && |fast| == NFASTBINS
    && var fb := FastbinIndex(s.size[p]); 0 <= fb < NFASTBINS && fast' == fast[fb := [p] + fast[fb]]
  }

  /** Block p, of at least nb and less than nb + MINSIZE bytes, is new; all other
      blocks are as before. */
  ghost predicate Gave(s: Shape, s': Shape, p: int, nb: int) {
    && p !in Blocks(s) && p in Blocks(s') && Blocks(s') == Blocks(s)[p := Blocks(s')[p]]
    && nb <= Blocks(s')[p] < nb + MINSIZE
  }

  /** What is known of the choice once block p was given out. */
  ghost predicate Chosen(lastRemainder: int, s': Shape, p: int, nb: int, how: Choice) {
    match how
    case FromFastbin => p in Blocks(s') && Blocks(s')[p] == nb
    case FromSmallbin => p in Blocks(s') && Blocks(s')[p] == nb
    case FromUnsorted => p in Blocks(s') && Blocks(s')[p] == nb
    case FromBin(fit) => BestFitTaken(s', p, nb, fit)
    case FromLastRemainder =>
      p == lastRemainder && InSmallbinRange(nb) && p in Blocks(s') && Blocks(s')[p] == nb
        && SoleRemainder(s', p + nb, nb)
    case FromTop => NothingFits(s', nb)
    case Refused => false
  }

  /** struct mallinfo without the mmap fields. */
  datatype MallInfo = MallInfo(smblks: int, ordblks: int, fordblks: int, uordblks: int, arena: int,
                               fsmblks: int, keepcost: int, usmblks: int)

  /** What is left at rest is the only unsorted chunk, and but for it no free chunk
      is an exact fit. */
  ghost predicate SoleRemainder(s: Shape, rest: int, nb: int) {
    && IsFree(s, rest) && s.st[rest] == Binned(1)
    && forall x {:trigger IsFree(s, x)} :: x in s.size && IsFree(s, x) && x != rest ==>
      s.st[x] != Binned(1) && s.size[x] != nb
  }

  const PAGESIZE := 4096

  function PageUp(x: int): int { (x + PAGESIZE - 1) / PAGESIZE * PAGESIZE }

  /** What sYSMALLOc asks sbrk for, in 32-bit arithmetic: either at least what is
      missing, page-rounded, or not positive because it overflowed. */
  function SbrkRequest(nb: int, topPad: int, oldSize: int): int {
    Signed(PageUp((nb + topPad + MINSIZE - oldSize) % WORD) % WORD)
  }

  lemma SbrkRequestFits(nb: int, oldSize: int)
    requires LegalSize(nb) && nb <= WORD - 24 && 0 <= oldSize < nb + MINSIZE && Aligned(oldSize)
    ensures var r := SbrkRequest(nb, 0, oldSize);
      r > 0 ==> r == PageUp(nb + MINSIZE - oldSize) && nb + MINSIZE <= oldSize + r && Aligned(r)
    ensures PageUp(nb + MINSIZE - oldSize) <= 0x100_0000 ==> SbrkRequest(nb, 0, oldSize) > 0
  {
    var x := nb + MINSIZE - oldSize;
    assert 0 < x <= WORD - 8;
    PageUpFacts(x);
    WholeWord(x);
    if PageUp(x) < WORD { WholeWord(PageUp(x)); }
  }

  lemma PageUpFacts(x: int)
    requires 0 < x <= WORD - 8
    ensures x <= PageUp(x) < x + PAGESIZE && Aligned(PageUp(x)) && PageUp(x) <= WORD
  {
    var k := (x + PAGESIZE - 1) / PAGESIZE;
    assert PageUp(x) == k * 4096 == 8 * (512 * k);
  }

  lemma WholeWord(x: int)
    requires 0 <= x < WORD
    ensures x % WORD == x
  {
  }

  class Allocator {
    // The linked image: where av_.bins and the heap region lie.
    const binsBase: int
    const memHeap: int
    const memHeapEnd: int

    // The machine's memory, two words per doubleword address.
    var lo: seq<int>
    var hi: seq<int>

    // av_, of which the bins array lies in memory at binsBase
    var maxFast: int
    var fastbins: seq<int>
    var top: int
    var lastRemainder: int
    var binmap: seq<bv32>
    var trimThreshold: int
    var topPad: int
    var sbrkedMem: int
    var maxSbrkedMem: int
    var maxTotalMem: int

    // kernel/sbrk.c
    var curptr: int

    // The picture of the heap the words above stand for.
    ghost var s: Shape
    ghost var bins: seq<seq<int>>
    ghost var fast: seq<seq<int>>

    // ----- The invariant -----

    ghost predicate Layout()
      reads `lo, `hi
    {
      && 0 < binsBase && binsBase + 8 * NBINS <= memHeap <= memHeapEnd == 0x100_0000
      && Aligned(memHeap) && |lo| == |hi| == memHeapEnd
    }

    ghost predicate Params()
      reads `trimThreshold, `topPad
    {
      trimThreshold == 256 * 1024 && topPad == 0
    }

    /** Nothing was obtained from sbrk yet. */
    ghost predicate Bare()
      reads this
    {
      && s.size == map[] && s.st == map[] && bins == seq(NBINS, _ => []) && fast == seq(NFASTBINS, _ => [])
      && fastbins == seq(NFASTBINS, _ => 0) && binmap == seq(BINMAPSIZE + 1, _ => 0)
      && curptr == memHeap && sbrkedMem == maxSbrkedMem == maxTotalMem == 0 && 0 <= binsBase < |hi| && hi[binsBase] == 0
    }

    /** The zeroed state before the first call. */
    ghost predicate Raw()
      reads this
    {
      Bare() && maxFast == 0 && top == 0
    }

    /** Initialised, with the unsorted bin's header standing in for top. */
    ghost predicate Empty()
      reads this
    {
      && Bare() && Params() && maxFast == FAST_LIMIT && top == Header(binsBase, 1)
      && Rings(binsBase, bins, lo, hi)
    }

    /** What ties the heap to av_ and to the region obtained from sbrk. */
    ghost predicate Region()
      reads `lo, `hi, `top, `binmap, `trimThreshold, `topPad, `sbrkedMem, `maxSbrkedMem, `maxTotalMem, `curptr, `s,
        `bins
    {
      && Layout() && Params() && MapCovers(binmap, bins)
      && top == s.top && s.base == memHeap && s.end == curptr <= memHeapEnd
      && sbrkedMem == s.end - s.base == maxSbrkedMem == maxTotalMem
    }

    /** Heap, bins and bitmap agree. */
    ghost predicate HeapOk()
      reads `lo, `hi, `top, `binmap, `trimThreshold, `topPad, `sbrkedMem, `maxSbrkedMem, `maxTotalMem, `curptr, `s,
        `bins
    {
      Region() && HeapInv(s, binsBase, bins, lo, hi)
    }

    /** The two flag bits of max_fast tell the truth when they are clear. */
    ghost predicate FlagsOk()
      reads `maxFast, `fastbins, `fast, `bins
    {
      && (maxFast == FAST_LIMIT || maxFast == FAST_LIMIT + 1 || maxFast == FAST_LIMIT + 3)
      && |fast| == |fastbins| == NFASTBINS
      && (!HaveFastchunks(maxFast) ==> forall i {:trigger fast[i]} :: 0 <= i < |fast| ==> fast[i] == [])
      && (!HaveAnychunks(maxFast) ==> forall i {:trigger bins[i]} :: 0 <= i < |bins| ==> bins[i] == [])
    }

    ghost predicate Live()
      reads this
    {
      HeapOk() && FastInv(s, fast, fastbins, lo) && FlagsOk()
    }

    ghost predicate Valid()
      reads this
    {
      Layout() && (Raw() || Empty() || Live())
    }

    /** unlink(P, BK, FD) */
    method Unlink(p: int, ghost i: int) returns (bck: int, fwd: int)
      requires Core(s, binsBase, bins, lo, hi) && 1 <= i < NBINS && p in bins[i]
      modifies `lo, `hi, `bins
      ensures Core(s, binsBase, bins, lo, hi) && |lo| == old(|lo|)
      ensures OneLess(old(bins), bins, p) && Unlisted(bins, p)
      ensures PayloadsKept(s, old(lo), old(hi), lo, hi, {})
    {
      ghost var k := IndexOf(bins[i], p);
      ghost var b, f := UnlinkRings(s, binsBase, bins, lo, hi, i, k);
      ListedRemove(s, binsBase, bins, i, k);
      NodeKind(s, binsBase, bins, i, k);
      NodeKind(s, binsBase, bins, i, k + 2);
      fwd := lo[p + 8];
      bck := hi[p + 8];
      hi := hi[fwd + 8 := bck];
      lo := lo[bck + 8 := fwd];
      bins := bins[i := Remove(bins[i], k)];
      RelinkKeepsTags(s, old(lo), old(hi), lo, hi, {bck, fwd});
      RelinkSparesUsers(s, old(lo), old(hi), lo, hi, {bck, fwd});
    }

    /** p->bk = bck; p->fd = fwd; fwd->bk = p; bck->fd = p: p goes in front of
        entry k of bin i. */
    method LinkBetween(p: int, bck: int, fwd: int, ghost i: int, ghost k: int)
      requires Core(s, binsBase, bins, lo, hi) && 1 <= i < NBINS && 0 <= k <= |bins[i]|
      requires p in s.size && s.st[p] == Binned(i) && Unlisted(bins, p)
      requires bck == Node(binsBase, bins, i, k) && fwd == Node(binsBase, bins, i, k + 1)
      requires i == 1 || ((k > 0 ==> bins[i][k - 1] in s.size && s.size[bins[i][k - 1]] >= s.size[p]) &&
                          (k < |bins[i]| ==> bins[i][k] in s.size && s.size[p] >= s.size[bins[i][k]]))
      modifies `lo, `hi, `bins
      ensures Core(s, binsBase, bins, lo, hi) && |lo| == old(|lo|)
      ensures bins == old(bins)[i := Insert(old(bins)[i], k, p)] && OneMore(old(bins), bins, i, p)
      ensures PayloadsKept(s, old(lo), old(hi), lo, hi, {})
    {
      ghost var b, f := InsertRings(s, binsBase, bins, lo, hi, i, k, p);
      ListedInsert(s, binsBase, bins, i, k, p);
      NodeKind(s, binsBase, bins, i, k);
      NodeKind(s, binsBase, bins, i, k + 1);
      hi := hi[p + 8 := bck];
      lo := lo[p + 8 := fwd];
      hi := hi[fwd + 8 := p];
      lo := lo[bck + 8 := p];
      bins := bins[i := Insert(bins[i], k, p)];
      RelinkKeepsTags(s, old(lo), old(hi), lo, hi, {bck, fwd, p});
      assert !Inuse(s, p) && !Inuse(s, bck) && !Inuse(s, fwd);
      RelinkSparesUsers(s, old(lo), old(hi), lo, hi, {bck, fwd, p});
    }

    /** The fused run [p, p + size) becomes one free chunk, linked at the front of
        the unsorted bin; nextchunk is the chunk that followed the freed one. */
    method Shelve(p: int, size: int, nextchunk: int, nextsize: int)
      requires Core(s, binsBase, bins, lo, hi) && Coalesced(s) && Run(s, p, p + size) && ClearOf(bins, p, p + size)
      requires Unlisted(bins, p) && 0 <= p < |hi| && PrevInuse(hi[p])
      requires p + size in s.size && Inuse(s, p + size)
      requires nextchunk in s.size && p < nextchunk <= p + size && nextsize == s.size[nextchunk]
      requires nextchunk == p + size || (Next(s, nextchunk) == p + size && IsFree(s, nextchunk))
      modifies `lo, `hi, `bins, `s
      ensures Core(s, binsBase, bins, lo, hi) && Coalesced(s) && |lo| == old(|lo|)
      ensures s == Merge(old(s), p, p + size, Binned(1)) && s.top == old(s).top && OneMore(old(bins), bins, 1, p)
      ensures |bins| == NBINS && bins[1] != [] && bins[1][0] == p
      ensures KeptOutside(old(s), old(lo), old(hi), lo, hi, p, p + size)
    {
      hide BinIndex, Aligned, PrevInuse, Tags, Sorted, Rings, Coalesced, ClearOf, PayloadsKept, KeptOutside, OneMore,
        Unlisted;
      ghost var e := p + size;
      ghost var s0, lo0, hi0 := s, lo, hi;
      Inside(s, p);
      HeadWord(s, lo, hi, p);
      Inside(s, nextchunk);
      Inside(s, e);
      if nextchunk != e { InuseBitAfter(s, lo, hi, nextchunk); }
      hi := hi[nextchunk := nextsize];
      hi := hi[p := size + 1];
      lo := lo[p + size := size];
      MergeStep(s, binsBase, bins, lo0, hi0, lo, hi, p, e, Binned(1));
      MergeSameOutside(s, p, e, Binned(1));
      s := Merge(s, p, e, Binned(1));
      ghost var lo1, hi1 := lo, hi;
      HeaderLinks(s, binsBase, bins, lo, hi, 1);
      var bck := Header(binsBase, 1);
      var fwd := lo[bck + 8];
      LinkBetween(p, bck, fwd, 1, 0);
      PayloadsAcross(s0, s, lo0, hi0, lo1, hi1, lo, hi, p, e);
    }

    /** The fused run [p, p + size) borders top and becomes part of it. */
    method JoinTop(p: int, size: int)
      requires Core(s, binsBase, bins, lo, hi) && Coalesced(s) && Run(s, p, p + size) && ClearOf(bins, p, p + size)
      requires 0 <= p < |hi| && PrevInuse(hi[p]) && p + size == s.end
      modifies `hi, `top, `s
      ensures Core(s, binsBase, bins, lo, hi) && Coalesced(s) && |lo| == old(|lo|) && top == s.top
      ensures s == Merge(old(s), p, p + size, Top)
      ensures KeptOutside(old(s), old(lo), old(hi), lo, hi, p, p + size)
    {
      hide BinIndex, Aligned, PrevInuse, Tags, Sorted, Rings, Coalesced, ClearOf, KeptOutside;
      ghost var s0, hi0 := s, hi;
      Inside(s, p);
      HeadWord(s, lo, hi, p);
      assert s.end in s.size ==> ChunkOk(s, s.end);
      hi := hi[p := size + 1];
      top := p;
      MergeStep(s, binsBase, bins, lo, hi0, lo, hi, p, s.end, Top);
      MergeSameOutside(s, p, s.end, Top);
      s := Merge(s, p, s.end, Top);
      PayloadsAcross(s0, s, lo, hi0, lo, hi, lo, hi, p, s0.end);
    }

    /** If the chunk before is free, take it off its list and start from it. */
    method ConsolidateBackward(chunk: int, chunksize: int) returns (p: int, size: int)
      requires HeapInv(s, binsBase, bins, lo, hi)
      requires chunk in s.size && s.st[chunk] == Used && chunksize == s.size[chunk]
      modifies `lo, `hi, `bins
      ensures Core(s, binsBase, bins, lo, hi) && |lo| == old(|lo|)
      ensures p in s.size && p + size == Next(s, chunk) && 0 <= p < |hi| && PrevInuse(hi[p])
      ensures if p == chunk then bins == old(bins)
              else Next(s, p) == chunk && IsFree(s, p) && OneLess(old(bins), bins, p)
      ensures Unlisted(bins, p) && PayloadsKept(s, old(lo), old(hi), lo, hi, {})
    {
      hide BinIndex, Aligned, PrevInuse, ChunkSize, Tags, Sorted, Rings, Coalesced;
      p, size := chunk, chunksize;
      Inside(s, p);
      NotListed(s, binsBase, bins, p);
      if !PrevInuse(hi[p]) {
        ghost var f := StepBack(s, lo, hi, p);
        ListOf(s, bins, f);
        var prevsize := lo[p];
        size := size + prevsize;
        p := p - prevsize;
        var _, _ := Unlink(p, s.st[p].bin);
        FreeHasPrevInuse(s, lo, hi, p);
      }
    }

    /** If the chunk after is free, take it off its list and include it. */
    method ConsolidateForward(p: int, size: int, nextchunk: int, nextsize: int, ghost chunk: int,
                              ghost bins0: seq<seq<int>>)
      returns (fused: int)
      requires Core(s, binsBase, bins, lo, hi) && Coalesced(s) && Complete(s, bins0) && |bins0| == NBINS
      requires if p == chunk then bins == bins0
               else p in s.size && Next(s, p) == chunk && IsFree(s, p) && OneLess(bins0, bins, p)
      requires p in s.size && chunk in s.size && s.st[chunk] == Used && Unlisted(bins, p)
      requires nextchunk == Next(s, chunk) == p + size && nextchunk in s.size && nextchunk != s.top
      requires nextsize == s.size[nextchunk] && 0 <= p < |hi| && PrevInuse(hi[p])
      modifies `lo, `hi, `bins
      ensures Core(s, binsBase, bins, lo, hi) && |lo| == old(|lo|)
      ensures 0 <= p < |hi| && PrevInuse(hi[p]) && p < nextchunk <= p + fused
      ensures FreeRun(s, p, p + fused, chunk) && p + fused in s.size && Inuse(s, p + fused)
      ensures ClearOf(bins, p, p + fused) && OnlyRunRemoved(bins0, bins, p, p + fused) && Unlisted(bins, p)
      ensures nextchunk == p + fused || (Next(s, nextchunk) == p + fused && IsFree(s, nextchunk))
      ensures PayloadsKept(s, old(lo), old(hi), lo, hi, {})
    {
      hide BinIndex, Aligned, PrevInuse, ChunkSize, Tags, Sorted, Rings, ClearOf;
      fused := size;
      InuseBitAfter(s, lo, hi, nextchunk);
      Inside(s, nextchunk);
      var nextinuse := PrevInuse(hi[nextchunk + nextsize]);
      ghost var e := if nextinuse then nextchunk else Next(s, nextchunk);
      RunAround(s, p, chunk, nextchunk, e);
      if !nextinuse {
        ListAfterRemoval(s, bins0, bins, p, nextchunk);
        var _, _ := Unlink(nextchunk, s.st[nextchunk].bin);
        fused := fused + nextsize;
      }
      RunCleared(s, binsBase, bins, p, e);
      HeadDetermined(s, old(lo), old(hi), lo, hi, p);
    }

    /** The coalescing code shared by free and malloc_consolidate: chunk p, which
        nobody owns any more, is fused with its free neighbours and goes to the
        front of the unsorted bin, or into top when it borders top. */
    method Release(chunk: int) returns (size: int, ghost f: int, ghost e: int)
      requires HeapInv(s, binsBase, bins, lo, hi) && top == s.top
      requires chunk in s.size && s.st[chunk] == Used
      modifies `lo, `hi, `bins, `top, `s
      ensures HeapInv(s, binsBase, bins, lo, hi) && top == s.top && |lo| == old(|lo|)
      ensures FreeRun(old(s), f, e, chunk) && size == e - f
      ensures e != old(s).end ==> |bins| == NBINS && bins[1] != [] && bins[1][0] == f
      ensures s == Merge(old(s), f, e, if e == old(s).end then Top else Binned(1))
      ensures PayloadsKept(old(s), old(lo), old(hi), lo, hi, {chunk})
      ensures forall i {:trigger bins[i]} :: 2 <= i < NBINS && bins[i] != [] ==> old(bins)[i] != []
    {
      hide BinIndex, Aligned, PrevInuse, ChunkSize, Tags, Sorted, Rings, Coalesced, ClearOf, KeptOutside, Complete;
      ghost var bins0 := bins;
      Inside(s, chunk);
      HeadWord(s, lo, hi, chunk);
      InuseBitAfter(s, lo, hi, chunk);
      size := ChunkSize(hi[chunk]);
      var nextchunk := chunk + size;
      var nextsize := ChunkSize(hi[nextchunk]);
      var p;
      p, size := ConsolidateBackward(chunk, size);
      f := p;
      if nextchunk != top {
        size, e := ReleaseToBin(p, size, nextchunk, nextsize, chunk, bins0, old(lo), old(hi));
      } else {
        size, e := ReleaseToTop(p, size, nextsize, chunk, bins0, old(lo), old(hi));
      }
    }

    method ReleaseToBin(p: int, size: int, nextchunk: int, nextsize: int, ghost chunk: int,
                        ghost bins0: seq<seq<int>>, ghost lo0: seq<int>, ghost hi0: seq<int>)
      returns (fused: int, ghost e: int)
      requires Core(s, binsBase, bins, lo, hi) && Coalesced(s) && Complete(s, bins0) && |bins0| == NBINS
      requires if p == chunk then bins == bins0
               else p in s.size && Next(s, p) == chunk && IsFree(s, p) && OneLess(bins0, bins, p)
      requires p in s.size && chunk in s.size && s.st[chunk] == Used && Unlisted(bins, p)
      requires nextchunk == Next(s, chunk) == p + size && nextchunk in s.size && nextchunk != s.top
      requires nextsize == s.size[nextchunk] && 0 <= p < |hi| && PrevInuse(hi[p])
      requires PayloadsKept(s, lo0, hi0, lo, hi, {})
      modifies `lo, `hi, `bins, `s
      ensures HeapInv(s, binsBase, bins, lo, hi) && |lo| == old(|lo|)
      ensures FreeRun(old(s), p, e, chunk) && fused == e - p && e != old(s).end && s.top == old(s).top
      ensures |bins| == NBINS && bins[1] != [] && bins[1][0] == p
      ensures s == Merge(old(s), p, e, Binned(1))
      ensures PayloadsKept(old(s), lo0, hi0, lo, hi, {chunk})
      ensures forall i {:trigger bins[i]} :: 2 <= i < NBINS && bins[i] != [] ==> bins0[i] != []
    {
      hide BinIndex, Aligned, PrevInuse, ChunkSize, Tags, Sorted, Rings, Coalesced, ClearOf, KeptOutside, Complete;
      ghost var s0, lo1, hi1 := s, lo, hi;
      fused := ConsolidateForward(p, size, nextchunk, nextsize, chunk, bins0);
      PayloadsChain(s, lo0, hi0, lo1, hi1, lo, hi, {}, {});
      ghost var bins1, lo2, hi2 := bins, lo, hi;
      e := p + fused;
      Inside(s, e);
      Shelve(p, fused, nextchunk, nextsize);
      MergeSameOutside(s0, p, e, Binned(1));
      StepEnd(s0, s, bins0, bins1, bins, p, e, chunk, p, lo0, hi0, lo2, hi2, lo, hi);
    }

    method ReleaseToTop(p: int, size: int, nextsize: int, ghost chunk: int,
                        ghost bins0: seq<seq<int>>, ghost lo0: seq<int>, ghost hi0: seq<int>)
      returns (fused: int, ghost e: int)
      requires Core(s, binsBase, bins, lo, hi) && Coalesced(s) && Complete(s, bins0) && |bins0| == NBINS
      requires if p == chunk then bins == bins0
               else p in s.size && Next(s, p) == chunk && IsFree(s, p) && OneLess(bins0, bins, p)
      requires p in s.size && chunk in s.size && s.st[chunk] == Used && Unlisted(bins, p)
      requires Next(s, chunk) == p + size == s.top && nextsize == s.size[s.top]
      requires 0 <= p < |hi| && PrevInuse(hi[p])
      requires PayloadsKept(s, lo0, hi0, lo, hi, {})
      modifies `hi, `top, `s
      ensures HeapInv(s, binsBase, bins, lo, hi) && |lo| == old(|lo|) && top == s.top
      ensures FreeRun(old(s), p, e, chunk) && fused == e - p && e == old(s).end
      ensures s == Merge(old(s), p, e, Top)
      ensures PayloadsKept(old(s), lo0, hi0, lo, hi, {chunk})
    {
      hide BinIndex, Aligned, PrevInuse, ChunkSize, Tags, Sorted, Rings, Coalesced, ClearOf, KeptOutside, Complete;
      ghost var s0, lo1, hi1 := s, lo, hi;
      e := s.end;
      Inside(s, s.top);
      RunAround(s, p, chunk, s.top, e);
      RunCleared(s, binsBase, bins, p, e);
      fused := size + nextsize;
      JoinTop(p, fused);
      MergeSameOutside(s0, p, e, Top);
      StepEnd(s0, s, bins0, bins, bins, p, e, chunk, p, lo0, hi0, lo1, hi1, lo, hi);
    }

    // ----- free and malloc_consolidate -----

    /** free(mem) for a block the user holds, or null. */
    method FreeFast(p: int)
      requires Live() && p in s.size && s.st[p] == Used && s.size[p] <= FAST_LIMIT
      modifies `lo, `fastbins, `maxFast, `s, `fast
      ensures Live() && HaveFastchunks(maxFast) && HaveAnychunks(maxFast)
      ensures Blocks(s) == Blocks(old(s)) - {p}
      ensures BlocksKept(Blocks(s), old(lo), old(hi), lo, hi)
      ensures ParkedAs(old(s), s, old(fast), fast, p)
    {
      hide BinIndex, Aligned, HeapInv, FastInv, MapCovers, FastbinIndex, ChunkSize, IsMmapped, PayloadsKept, BlocksKept;
      HeadOf(p);
      var size := ChunkSize(hi[p]);
      PushStep(s, binsBase, bins, fast, fastbins, lo, hi, p);
      maxFast := SetFastchunks(maxFast);
      var fb := FastbinIndex(size);
      lo := lo[p + 8 := fastbins[fb]];
      fast := fast[fb := [p] + fast[fb]];
      fastbins := fastbins[fb := p];
      s := SetStatus(s, p, Fast);
      PayloadsToBlocks(old(s), Blocks(s), old(lo), old(hi), lo, hi, {p});
    }

    lemma HeadOf(p: int)
      requires HeapOk() && p in s.size
      ensures 0 <= p < p + 8 < |hi| && ChunkSize(hi[p]) == s.size[p] && !IsMmapped(hi[p])
      ensures LegalSize(s.size[p]) && s.base <= p && p + s.size[p] <= s.end
    {
      HeadWord(s, lo, hi, p);
      Inside(s, p);
    }

    /** Release keeps the whole state in order; `heads` are the fastbin heads,
        which malloc_consolidate is holding one of in a local. */
    method ReleaseBlock(p: int, ghost heads: seq<int>) returns (size: int, ghost f: int, ghost e: int)
      requires HeapOk() && FastInv(s, fast, heads, lo) && p in s.size && s.st[p] == Used
      modifies `lo, `hi, `bins, `top, `s
      ensures HeapOk() && FastInv(s, fast, heads, lo)
      ensures Blocks(s) == Blocks(old(s)) - {p} && BlocksKept(Blocks(s), old(lo), old(hi), lo, hi)
      ensures Freed(old(s), s, p, f, e) && size == e - f
      // a free chunk goes to the front of the unsorted bin
      ensures e != old(s).end ==> |bins| == NBINS && bins[1] != [] && bins[1][0] == f
    {
      hide BinIndex, Aligned, Coalesced, Complete, Core, FastbinIndex, PayloadsKept, BlocksKept, FastInv;
      ghost var s0, bins0 := s, bins;
      Surroundings(s, binsBase, bins, lo, hi);
      size, f, e := Release(p);
      Surroundings(s, binsBase, bins, lo, hi);
      ghost var t := if e == s0.end then Top else Binned(1);
      MergeSameOutside(s0, f, e, t);
      StepKeepsFast(s0, s, fast, heads, old(lo), old(hi), lo, hi, f, e, p);
      MergeBlocks(s0, f, e, p, t);
      StillCovers(binmap, bins0, bins);
      PayloadsToBlocks(s0, Blocks(s), old(lo), old(hi), lo, hi, {p});
    }

    /** One turn of the inner loop of malloc_consolidate: p heads the chain that
        is left of fastbin i. */
    method ConsolidateOne(p: int, ghost i: int) returns (nextp: int)
      requires HeapOk() && |fast| == |fastbins| == NFASTBINS && 0 <= i < NFASTBINS && p != 0
      requires FastInv(s, fast, fastbins[i := p], lo)
      modifies `lo, `hi, `bins, `top, `s, `fast
      ensures HeapOk() && FastInv(s, fast, fastbins[i := nextp], lo)
      ensures old(fast[i]) != [] && fast == old(fast)[i := old(fast)[i][1..]]
      ensures Blocks(s) == Blocks(old(s)) && BlocksKept(Blocks(s), old(lo), old(hi), lo, hi)
    {
      hide BinIndex, Aligned, HeapInv, FastbinIndex, BlocksKept, FastInv;
      PopStep(s, binsBase, bins, fast, fastbins[i := p], lo, hi, i);
      nextp := lo[p + 8];
      assert fastbins[i := p][i := nextp] == fastbins[i := nextp];
      s := SetStatus(s, p, Used);
      fast := fast[i := fast[i][1..]];
      assert Blocks(s) - {p} == Blocks(old(s));
      var _, _, _ := ReleaseBlock(p, fastbins[i := nextp]);
    }

    /** The inner loop of malloc_consolidate: empties the chain at p. */
    method ConsolidateChain(first: int, ghost i: int)
      requires HeapOk() && |fast| == |fastbins| == NFASTBINS && 0 <= i < NFASTBINS && first != 0
      requires FastInv(s, fast, fastbins[i := first], lo) && fastbins[i] == 0
      modifies `lo, `hi, `bins, `top, `s, `fast
      ensures HeapOk() && FastInv(s, fast, fastbins, lo) && fast == old(fast)[i := []]
      ensures Blocks(s) == Blocks(old(s)) && BlocksKept(Blocks(s), old(lo), old(hi), lo, hi)
    {
      hide BinIndex, Aligned, HeapInv, BlockKept, MapCovers;
      var p := first;
      KeptRefl(Blocks(s), lo, hi);
      while p != 0
        invariant HeapOk() && FastInv(s, fast, fastbins[i := p], lo) && |fast| == NFASTBINS
        invariant fast == old(fast)[i := fast[i]]
        invariant Blocks(s) == Blocks(old(s)) && BlocksKept(Blocks(s), old(lo), old(hi), lo, hi)
        decreases |fast[i]|
      {
        ghost var lo1, hi1 := lo, hi;
        p := ConsolidateOne(p, i);
        KeptTrans(Blocks(s), old(lo), old(hi), lo1, hi1, lo, hi);
      }
      NullHead(s, fast, fastbins[i := p], lo, i);
      assert fastbins[i := p] == fastbins;
    }

    lemma NoneParkedBeyond()
      requires HeapOk() && FastInv(s, fast, fastbins, lo)
      ensures |fast| == NFASTBINS && fast[8] == [] && fast[9] == []
    {
      NoneBeyond(s, binsBase, bins, lo, hi, fast, fastbins);
    }

    /** malloc_consolidate on an initialised state. */
    method ConsolidateAll()
      requires Live()
      modifies `lo, `hi, `bins, `top, `s, `fast, `fastbins, `maxFast
      ensures Live() && !HaveFastchunks(maxFast) && (HaveAnychunks(maxFast) <==> HaveAnychunks(old(maxFast)))
      ensures Blocks(s) == Blocks(old(s)) && BlocksKept(Blocks(s), old(lo), old(hi), lo, hi)
    {
      hide BinIndex, Aligned, HeapInv, BlockKept, BlocksKept, MapCovers, FastInv, Layout, Params, HeapOk;
      maxFast := ClearFastchunks(maxFast);
      var maxfb := FastbinIndex(maxFast);
      var fb := 0;
      KeptRefl(Blocks(s), lo, hi);
      ghost var any := HaveAnychunks(maxFast);
      while true
        invariant 0 <= fb <= maxfb == 7 && HeapOk() && FastInv(s, fast, fastbins, lo)
          && |fast| == |fastbins| == NFASTBINS
        invariant forall j :: 0 <= j < fb ==> fast[j] == []
        invariant maxFast == ClearFastchunks(old(maxFast))
        invariant !any ==>
          HaveFastchunks(old(maxFast)) == false && (forall j :: 0 <= j < NFASTBINS ==> fast[j] == [])
            && bins == old(bins)
        invariant Blocks(s) == Blocks(old(s)) && BlocksKept(Blocks(s), old(lo), old(hi), lo, hi)
        decreases maxfb - fb
      {
        var p := fastbins[fb];
        NullHead(s, fast, fastbins, lo, fb);
        if p != 0 {
          ghost var lo1, hi1 := lo, hi;
          assert fastbins[fb := 0][fb := p] == fastbins;
          fastbins := fastbins[fb := 0];
          ConsolidateChain(p, fb);
          KeptTrans(Blocks(s), old(lo), old(hi), lo1, hi1, lo, hi);
        }
        if fb == maxfb { break; }
        fb := fb + 1;
      }
      NoneParkedBeyond();
    }

    /** malloc_init_state: every bin becomes an empty ring and the unsorted bin
        stands in for top. */
    method MallocInitState()
      requires Layout() && Raw()
      modifies `lo, `hi, `trimThreshold, `topPad, `maxFast, `top
      ensures Layout() && Empty()
    {
      for i := 1 to NBINS
        invariant Layout() && Bare() && (i == 1 || i > 1)
        invariant forall j {:trigger BinRing(binsBase, bins, lo, hi, j)} :: 1 <= j < i ==>
          BinRing(binsBase, bins, lo, hi, j)
      {
        ghost var lo0, hi0 := lo, hi;
        var bin := Header(binsBase, i);
        hi := hi[bin + 8 := bin];
        lo := lo[bin + 8 := bin];
        forall j | 1 <= j < i + 1
          ensures BinRing(binsBase, bins, lo, hi, j)
        {
          var c := RingOf(Header(binsBase, j), bins[j]);
          if j < i {
            assert BinRing(binsBase, bins, lo0, hi0, j);
            RingFrame(c, lo0, hi0, lo, hi);
          } else {
            assert c == [bin, bin];
          }
        }
      }
      topPad := 0;
      trimThreshold := 256 * 1024;
      maxFast := Request2Size(64);
      top := Header(binsBase, 1);
    }

    /** malloc_consolidate, which also does the initialisation. */
    method MallocConsolidate()
      requires Layout() && (Raw() || Live())
      modifies `lo, `hi, `trimThreshold, `topPad, `maxFast, `top, `bins, `s, `fast, `fastbins
      ensures old(maxFast) == 0 ==> Layout() && Empty() && s == old(s)
      ensures old(maxFast) != 0 ==>
        Live() && !HaveFastchunks(maxFast) && (HaveAnychunks(maxFast) <==> HaveAnychunks(old(maxFast)))
      ensures Blocks(s) == Blocks(old(s)) && BlocksKept(Blocks(s), old(lo), old(hi), lo, hi)
    {
      if maxFast != 0 {
        ConsolidateAll();
      } else {
        MallocInitState();
      }
    }

    // ----- Giving out a free chunk -----

    /** victim = last(bin); bck = victim->bk; bin->bk = bck; bck->fd = bin: the
        last chunk of bin i leaves its list. */
    method RemoveLast(bin: int, ghost i: int) returns (victim: int)
      requires HeapOk() && 1 <= i < NBINS
      requires bin == Header(binsBase, i) && bins[i] != []
      modifies `lo, `hi, `bins
      ensures Region() && Held(s, binsBase, old(bins), bins, lo, hi, victim) && |lo| == old(|lo|)
      ensures victim == old(bins[i])[|old(bins[i])| - 1] && bins == old(bins)[i := old(bins[i])[..|old(bins[i])| - 1]]
      ensures PayloadsKept(s, old(lo), old(hi), lo, hi, {})
    {
      hide BinIndex, HeapInv, Held, PayloadsKept;
      Surroundings(s, binsBase, bins, lo, hi);
      ghost var v, b := RemoveLastStep(s, binsBase, bins, lo, hi, i);
      victim := hi[bin + 8];
      var bck := hi[victim + 8];
      hi := hi[bin + 8 := bck];
      lo := lo[bck + 8 := bin];
      bins := bins[i := bins[i][..|bins[i]| - 1]];
      StillCovers(binmap, old(bins), bins);
    }

    /** set_inuse_bit_at_offset(victim, size): the whole chunk is used. */
    method UseWhole(p: int, size: int, ghost bins0: seq<seq<int>>)
      requires Region() && Held(s, binsBase, bins0, bins, lo, hi, p) && FastInv(s, fast, fastbins, lo)
        && size == s.size[p]
      modifies `hi, `s
      ensures HeapOk() && FastInv(s, fast, fastbins, lo) && s == Merge(old(s), p, p + size, Used)
      ensures Blocks(s) == Blocks(old(s))[p := size] && p !in Blocks(old(s))
      ensures PayloadsKept(old(s), old(lo), old(hi), lo, hi, {p})
    {
      hide BinIndex, Aligned, Tags, Rings, Sorted, Coalesced, PayloadsKept, Complete, FastInv, PrevInuse, ClearOf,
        OneLess;
      HeldNext(s, binsBase, bins0, bins, lo, hi, p);
      HeldOnlyRemoved(s, binsBase, bins0, bins, lo, hi, p);
      Inside(s, p + size);
      ghost var s0, hi0 := s, hi;
      hi := hi[p + size := SetPrevInuse(hi[p + size])];
      WholeStep(s, binsBase, bins0, bins, lo, hi0, p, hi);
      s := Merge(s, p, p + size, Used);
      StepKeepsFast(s0, s, fast, fastbins, lo, hi0, lo, hi, p, p + size, p);
    }

    /** unsorted->bk = unsorted->fd = r; r->bk = r->fd = unsorted.  The list is
        empty in the memory lov, hiv, which differs from the machine's at most in
        the header words about to be overwritten. */
    method LinkRemainder(r: int, ghost lov: seq<int>, ghost hiv: seq<int>)
      requires Core(s, binsBase, bins, lov, hiv) && bins[1] == [] && Unlisted(bins, r)
      requires r in s.size && s.st[r] == Binned(1)
      requires HeaderOnly(lov, hiv)
      modifies `lo, `hi, `bins
      ensures Core(s, binsBase, bins, lo, hi) && bins == old(bins)[1 := [r]] && OneMore(old(bins), bins, 1, r)
      ensures |lo| == old(|lo|) == |hi| && PayloadsKept(s, lov, hiv, lo, hi, {})
    {
      hide BinIndex, Aligned, Tags, Rings, Sorted, PayloadsKept;
      var bck := Header(binsBase, 1);
      ghost var b, f := InsertRings(s, binsBase, bins, lov, hiv, 1, 0, r);
      ListedInsert(s, binsBase, bins, 1, 0, r);
      NodeKind(s, binsBase, bins, 1, 0);
      Inside(s, r);
      assert Insert(bins[1], 0, r) == [r];
      hi := hi[bck + 8 := r];
      lo := lo[bck + 8 := r];
      hi := hi[r + 8 := bck];
      lo := lo[r + 8 := bck];
      StoresSwap(old(lo), lov, bck + 8, r, r + 8, bck);
      StoresSwap(old(hi), hiv, bck + 8, r, r + 8, bck);
      bins := bins[1 := [r]];
      RelinkKeepsTags(s, lov, hiv, lo, hi, {bck, r});
      assert !Inuse(s, r) && !Inuse(s, bck);
      RelinkSparesUsers(s, lov, hiv, lo, hi, {bck, r});
    }

    /** set_head(victim, nb | PREV_INUSE); set_head(remainder, ...); set_foot(...) */
    method SplitHeads(p: int, size: int, nb: int, ghost bins0: seq<seq<int>>, ghost lov: seq<int>, ghost hiv: seq<int>)
      returns (ghost lo2: seq<int>, ghost hi2: seq<int>)
      requires Held(s, binsBase, bins0, bins, lov, hiv, p)
      requires size == s.size[p] && LegalSize(nb) && nb + MINSIZE <= size
      requires HeaderOnly(lov, hiv)
      modifies `lo, `hi
      ensures |lo| == old(|lo|) && |hi| == old(|hi|) && HeaderOnly(lo2, hi2)
      ensures var n, r, rem := Next(s, p), p + nb, size - nb;
        0 <= p < r < n < |hiv| && |lov| == |hiv| && lo2 == lov[n := rem] && hi2 == hiv[p := nb + 1][r := rem + 1]
    {
      hide Held, Tiled;
      HeldNext(s, binsBase, bins0, bins, lov, hiv, p);
      ghost var h, e := Header(binsBase, 1) + 8, p + size;
      StoreElsewhere(lo, lov, h, e, size - nb);
      StoreElsewhere(hi, hiv, h, p, nb + 1);
      StoreElsewhere(hi[p := nb + 1], hiv[p := nb + 1], h, p + nb, size - nb + 1);
      hi := hi[p := nb + 1];
      hi := hi[p + nb := size - nb + 1];
      lo := lo[p + size := size - nb];
      lo2, hi2 := lov[e := size - nb], hiv[p := nb + 1][p + nb := size - nb + 1];
    }

    /** The machine's memory differs from lov, hiv at most in the two words of
        the unsorted bin's header. */
    ghost predicate HeaderOnly(lov: seq<int>, hiv: seq<int>)
      reads `lo, `hi
    {
      var h := Header(binsBase, 1) + 8;
      0 <= h < |lo| && h < |hi| && |lov| == |lo| && |hiv| == |hi| && lo == lov[h := lo[h]] && hi == hiv[h := hi[h]]
    }

    /** Split: the lower nb bytes of p are used, the remainder becomes the only
        chunk of the unsorted bin. */
    method UseSplit(p: int, size: int, nb: int, ghost bins0: seq<seq<int>>, ghost lov: seq<int>, ghost hiv: seq<int>)
      requires Region() && Held(s, binsBase, bins0, bins, lov, hiv, p) && FastInv(s, fast, fastbins, lov)
      requires size == s.size[p] && LegalSize(nb) && nb + MINSIZE <= size && bins[1] == []
      requires HeaderOnly(lov, hiv)
      modifies `lo, `hi, `s, `bins
      ensures HeapOk() && FastInv(s, fast, fastbins, lo)
      ensures old(s).size.Keys == old(s).st.Keys && s == Split(old(s), p, nb, Used, Binned(1))
      ensures Blocks(s) == Blocks(old(s))[p := nb] && p !in Blocks(old(s)) && bins == old(bins)[1 := [p + nb]]
      ensures PayloadsKept(old(s), lov, hiv, lo, hi, {p})
    {
      hide BinIndex, Aligned, Tags, Rings, Sorted, Coalesced, PayloadsKept, Complete, FastInv, PrevInuse, ClearOf,
        OneLess, OneMore, SameOutside, KeptOutside, Within, CanSplit, Held, Core, Unlisted, HeapInv;
      ghost var s0, bins1 := s, bins;
      HeldNext(s, binsBase, bins0, bins, lov, hiv, p);
      ghost var lo2, hi2 := SplitHeads(p, size, nb, bins0, lov, hiv);
      SplitFreeStep(s, binsBase, bins0, bins, lov, hiv, p, nb, lo2, hi2);
      s := Split(s, p, nb, Used, Binned(1));
      LinkRemainder(p + nb, lo2, hi2);
      SplitFreeEnd(s0, binsBase, bins0, bins1, bins, fast, fastbins, lov, hiv, lo2, hi2, lo, hi, p, nb);
      StillCovers(binmap, bins1, bins);
    }

    // ----- Sorting the unsorted chunks into their bins -----

    /** The place in large bin i for a chunk of this size: lists run from large
        to small, and the walk has no end test of its own. */
    method FindPlace(size: int, i: int) returns (bck: int, fwd: int, ghost k: int)
      requires Core(s, binsBase, bins, lo, hi) && Coalesced(s)
      requires MIN_LARGE_SIZE <= size && Aligned(size) && i == BinIndex(size) && 2 <= i < NBINS
      ensures 0 <= k <= |bins[i]| && bck == Node(binsBase, bins, i, k) && fwd == Node(binsBase, bins, i, k + 1)
      ensures k > 0 ==> bins[i][k - 1] in s.size && s.size[bins[i][k - 1]] >= size
      ensures k < |bins[i]| ==> bins[i][k] in s.size && size >= s.size[bins[i][k]]
      ensures forall j {:trigger bins[i][j]} :: 0 <= j < |bins[i]| ==> bins[i][j] in s.size
      ensures InsertionPoint(s, bins[i], size, k)
      ensures bck == Header(binsBase, i) || (bck in s.size && s.size[bck] >= size)
      ensures fwd == Header(binsBase, i) || (fwd in s.size && s.size[fwd] <= size)
    {
      hide BinIndex, Aligned, Tags, Rings, Coalesced, Tiled;
      HeaderLinks(s, binsBase, bins, lo, hi, i);
      bck := Header(binsBase, i);
      fwd := lo[bck + 8];
      k := 0;
      if fwd != bck {
        ghost var last := |bins[i]| - 1;
        NonEmpty(i);
        EntryWord(s, binsBase, bins, lo, hi, i, last);
        SmallestLast(i);
        if size < hi[hi[bck + 8]] {
          fwd := bck;
          bck := hi[bck + 8];
          k := |bins[i]|;
        } else {
          EntryWord(s, binsBase, bins, lo, hi, i, 0);
          var sizeP := size + 1;
          while sizeP < hi[fwd]
            invariant 0 <= k < |bins[i]| && fwd == bins[i][k] && fwd in s.size
            invariant 0 <= fwd < fwd + 8 < |hi| && hi[fwd] == s.size[fwd] + 1
            invariant forall j :: 0 <= j < k && bins[i][j] in s.size ==> s.size[bins[i][j]] > size
            decreases |bins[i]| - k
          {
            EntryWord(s, binsBase, bins, lo, hi, i, k);
            EntryWord(s, binsBase, bins, lo, hi, i, k + 1);
            fwd := lo[fwd + 8];
            k := k + 1;
          }
          EntryWord(s, binsBase, bins, lo, hi, i, k);
          if k > 0 { EntryWord(s, binsBase, bins, lo, hi, i, k - 1); }
          bck := hi[fwd + 8];
        }
      } else {
        NonEmpty(i);
      }
    }

    lemma LastOf(i: int)
      requires HeapOk() && 1 <= i < NBINS && bins[i] != []
      ensures |bins| == NBINS && var v := bins[i][|bins[i]| - 1];
        v in s.size && v in s.st && 0 < v < |hi| && ChunkSize(hi[v]) == s.size[v] && LegalSize(s.size[v])
          && s.st[v] == Binned(i)
    {
      EntryWord(s, binsBase, bins, lo, hi, i, |bins[i]| - 1);
      Inside(s, bins[i][|bins[i]| - 1]);
    }

    lemma NonEmpty(i: int)
      requires Core(s, binsBase, bins, lo, hi) && 1 <= i < NBINS
      ensures Node(binsBase, bins, i, 1) == Header(binsBase, i) <==> bins[i] == []
    {
      if bins[i] != [] { NodeKind(s, binsBase, bins, i, 1); }
    }

    lemma SmallestLast(i: int)
      requires Core(s, binsBase, bins, lo, hi) && 2 <= i < NBINS && bins[i] != []
      ensures var m := bins[i][|bins[i]| - 1];
        m in s.size && forall j {:trigger bins[i][j]} :: 0 <= j < |bins[i]| ==>
          bins[i][j] in s.size && s.size[bins[i][j]] >= s.size[m]
    {
      assert Entry(s, bins, i, |bins[i]| - 1);
      forall j | 0 <= j < |bins[i]|
        ensures bins[i][j] in s.size && s.size[bins[i][j]] >= s.size[bins[i][|bins[i]| - 1]]
      {
        assert Entry(s, bins, i, j) && Descending(s, bins[i]);
      }
    }

    /** The bin of a chunk size, and the nodes it goes between. */
    method ChoosePlace(size: int) returns (victimIndex: int, bck: int, fwd: int, ghost k: int)
      requires Core(s, binsBase, bins, lo, hi) && Coalesced(s) && LegalSize(size)
      ensures 2 <= victimIndex < NBINS && victimIndex == BinIndex(size)
      ensures 0 <= k <= |bins[victimIndex]|
      ensures bck == Node(binsBase, bins, victimIndex, k) && fwd == Node(binsBase, bins, victimIndex, k + 1)
      ensures k > 0 ==> bins[victimIndex][k - 1] in s.size && s.size[bins[victimIndex][k - 1]] >= size
      ensures k < |bins[victimIndex]| ==> bins[victimIndex][k] in s.size && size >= s.size[bins[victimIndex][k]]
      ensures PlaceFor(s, bins[victimIndex], size, k)
    {
      hide BinIndex, LargebinIndex, SmallbinIndex, Aligned, Tags, Rings, Coalesced, Sorted;
      BinIndexInRange(size);
      if InSmallbinRange(size) {
        victimIndex := SmallbinIndex(size);
        SmallIs(size);
        HeaderLinks(s, binsBase, bins, lo, hi, victimIndex);
        bck := Header(binsBase, victimIndex);
        fwd := lo[bck + 8];
        k := 0;
        if bins[victimIndex] != [] { SmallbinSize(s, binsBase, bins, victimIndex, 0, size); }
        forall j | 0 <= j < |bins[victimIndex]| ensures bins[victimIndex][j] in s.size {
          assert Entry(s, bins, victimIndex, j);
        }
      } else {
        victimIndex := LargebinIndex(size);
        LargeIs(size);
        bck, fwd, k := FindPlace(size, victimIndex);
      }
    }

    /** Place a chunk just taken from the unsorted bin in the bin of its size. */
    method PlaceInBin(victim: int, size: int, ghost bins0: seq<seq<int>>) returns (ghost k: int)
      requires Region() && Held(s, binsBase, bins0, bins, lo, hi, victim) && FastInv(s, fast, fastbins, lo)
      requires 0 <= size == s.size[victim]
      modifies `lo, `hi, `s, `bins, `binmap
      ensures HeapOk() && FastInv(s, fast, fastbins, lo)
      ensures s == SetStatus(old(s), victim, Binned(BinIndex(size))) && Blocks(s) == Blocks(old(s))
      ensures 2 <= BinIndex(size) < NBINS && OneMore(old(bins), bins, BinIndex(size), victim)
      ensures Placed(s, old(bins), bins, victim, size, k)
      ensures PayloadsKept(s, old(lo), old(hi), lo, hi, {})
    {
      hide BinIndex, Aligned, Tags, Rings, Coalesced, PayloadsKept, FastInv, Complete, OneLess, OneMore, Sorted,
        MapCovers, Listed, ChunkOk, Unlisted, Node, Insert, MarkBin, PrevInuse, ChunkSize;
      HeldNext(s, binsBase, bins0, bins, lo, hi, victim);
      BinningStep(s, binsBase, bins0, bins, fast, fastbins, lo, hi, victim);
      ghost var s0, bins1, lo1, hi1 := s, bins, lo, hi;
      s := SetStatus(s, victim, Binned(BinIndex(size)));
      var victimIndex, bck, fwd;
      victimIndex, bck, fwd, k := ChoosePlace(size);
      LinkBetween(victim, bck, fwd, victimIndex, k);
      MarkedCovers(binmap, bins1, victimIndex, bins[victimIndex]);
      binmap := MarkBin(binmap, victimIndex);
      BinningComplete(s0, bins0, bins1, bins, victim, victimIndex);
      RelinkKeepsFast(s, fast, fastbins, lo1, hi1, lo, hi);
    }

    lemma SmallIs(size: int)
      requires MINSIZE <= size && InSmallbinRange(size)
      ensures SmallbinIndex(size) == BinIndex(size)
    {
    }

    lemma LargeIs(size: int)
      requires !InSmallbinRange(size)
      ensures LargebinIndex(size) == BinIndex(size)
    {
    }

    /** Take the chunk just removed from the unsorted bin if it fits exactly,
        else place it in its bin. */
    method TakeOrPlace(victim: int, size: int, nb: int, ghost bins0: seq<seq<int>>) returns (chosen: int)
      requires Region() && Held(s, binsBase, bins0, bins, lo, hi, victim) && FastInv(s, fast, fastbins, lo)
      requires LegalSize(nb) && size == s.size[victim] && |bins[1]| == |bins0[1]| - 1
      modifies `lo, `hi, `s, `bins, `binmap
      ensures HeapOk() && FastInv(s, fast, fastbins, lo) && |bins| == NBINS
      ensures chosen == if size == nb then victim else 0
      ensures chosen == 0 ==>
        Blocks(s) == Blocks(old(s)) && bins[1] == old(bins)[1] && SameChunks(old(s), s)
      ensures chosen == 0 ==>
        exists k {:trigger Placed(s, old(bins), bins, victim, size, k)} :: Placed(s, old(bins), bins, victim, size, k)
      ensures chosen == 0 && InSmallbinRange(nb) && bins0[BinIndex(nb)] == [] ==> bins[BinIndex(nb)] == []
      ensures chosen != 0 ==> Gave(old(s), s, chosen, nb) && Blocks(s)[chosen] == nb
      ensures BlocksKept(Blocks(old(s)), old(lo), old(hi), lo, hi)
    {
      hide BinIndex, Aligned, PayloadsKept, FastInv, HeapInv, Held, MapCovers, BlocksKept;
      ghost var s0, bins1 := s, bins;
      HeldNext(s, binsBase, bins0, bins, lo, hi, victim);
      HeldBins(s, binsBase, bins0, bins, lo, hi, victim);
      BinIndexInRange(nb);
      if size == nb {
        UseWhole(victim, size, bins0);
        PayloadsToBlocks(s0, Blocks(s0), old(lo), old(hi), lo, hi, {victim});
        return victim;
      }
      ghost var k := PlaceInBin(victim, size, bins0);
      HeldFree(victim, bins0, bins1, old(lo), old(hi), s0);
      PayloadsToBlocks(s, Blocks(s), old(lo), old(hi), lo, hi, {});
      if InSmallbinRange(nb) && BinIndex(nb) == BinIndex(size) { SmallbinExact(nb, size); }
      return 0;
    }

    lemma HeldFree(victim: int, bins0: seq<seq<int>>, bins1: seq<seq<int>>, lo1: seq<int>, hi1: seq<int>, s0: Shape)
      requires Held(s0, binsBase, bins0, bins1, lo1, hi1, victim)
      ensures IsFree(s0, victim)
    {
    }

    /** One turn of the loop over the unsorted bin. */
    method UnsortedTurn(nb: int) returns (chosen: int, ghost how: Choice)
      requires HeapOk() && FastInv(s, fast, fastbins, lo) && LegalSize(nb) && |bins| == NBINS && bins[1] != []
      requires InSmallbinRange(nb) ==> 2 <= BinIndex(nb) < NBINS && bins[BinIndex(nb)] == []
      modifies `lo, `hi, `s, `bins, `binmap, `lastRemainder
      ensures HeapOk() && FastInv(s, fast, fastbins, lo) && |bins| == NBINS
      ensures chosen == 0 ==> Blocks(s) == Blocks(old(s)) && bins[1] == old(bins[1])[..|old(bins[1])| - 1]
      ensures chosen == 0 && InSmallbinRange(nb) ==> 2 <= BinIndex(nb) < NBINS && bins[BinIndex(nb)] == []
      // the last chunk in the list has its turn: as the sole last remainder, as an exact
      // fit, or it is sorted into its bin
      ensures TurnOf(old(s), old(bins[1]), old(lastRemainder), nb, chosen, how) && (chosen == 0 <==> how == Refused)
      ensures chosen == 0 ==> SameChunks(old(s), s)
      ensures lastRemainder == if how == FromLastRemainder then chosen + nb else old(lastRemainder)
      ensures chosen != 0 ==> Gave(old(s), s, chosen, nb) && Chosen(old(lastRemainder), s, chosen, nb, how)
      ensures BlocksKept(Blocks(old(s)), old(lo), old(hi), lo, hi)
    {
      hide BinIndex, Aligned, PayloadsKept, FastInv, HeapInv, Held, OneMore, MapCovers, Tiled, BlocksKept, SameChunks,
        Placed;
      ghost var s0, bins0, lo0, hi0 := s, bins, lo, hi;
      var unsorted := Header(binsBase, 1);
      LastOf(1);
      BinIndexInRange(nb);
      ghost var v, b := RemoveLastStep(s, binsBase, bins, lo, hi, 1);
      ghost var bins1, lov, hiv := bins[1 := bins[1][..|bins[1]| - 1]], lo[b + 8 := unsorted], hi[unsorted + 8 := b];
      var victim := hi[unsorted + 8];
      var bck := hi[victim + 8];
      var size := ChunkSize(hi[victim]);
      if InSmallbinRange(nb) && bck == unsorted && victim == lastRemainder && size > nb + MINSIZE {
        RelinkKeepsFastInv(s, binsBase, bins, fast, fastbins, lo, hi, lov, hiv);
        StillCovers(binmap, bins0, bins1);
        lastRemainder := victim + nb;
        bins := bins1;
        UseSplit(victim, size, nb, bins0, lov, hiv);
        PayloadsToBlocks(s0, Blocks(s0), lov, hiv, lo, hi, {victim});
        KeptTrans(Blocks(s0), lo0, hi0, lov, hiv, lo, hi);
        HeapBins();
        SoleRest(victim + nb, nb);
        return victim, FromLastRemainder;
      }
      var _ := RemoveLast(unsorted, 1);
      ghost var lo1, hi1 := lo, hi;
      RelinkKeepsFastInv(s, binsBase, bins0, fast, fastbins, lo0, hi0, lo1, hi1);
      assert bins[1] == bins0[1][..|bins0[1]| - 1];
      chosen := TakeOrPlace(victim, size, nb, bins0);
      KeptTrans(Blocks(s0), lo0, hi0, lo1, hi1, lo, hi);
      how := if chosen == 0 then Refused else FromUnsorted;
    }

    lemma SoleRest(rest: int, nb: int)
      requires HeapOk() && |bins| == NBINS && bins[1] == [rest] && LegalSize(nb) && 2 <= BinIndex(nb) < NBINS
        && bins[BinIndex(nb)] == []
      ensures SoleRemainder(s, rest, nb)
    {
      hide BinIndex, Aligned, Rings, Sorted, Coalesced;
      forall x | x in s.size && IsFree(s, x)
        ensures x in bins[s.st[x].bin] && (s.st[x].bin == 1 || s.st[x].bin == BinIndex(s.size[x]))
      {
        assert ChunkOk(s, x);
      }
      assert rest == bins[1][0];
      assert Entry(s, bins, 1, 0);
    }

    /** The whole loop over the unsorted bin: a chunk is taken if it fits exactly or
        if it is the sole last remainder and the request is small; sort
        the others into their bins. */
    method ProcessUnsorted(nb: int) returns (chosen: int, ghost how: Choice)
      requires HeapOk() && FastInv(s, fast, fastbins, lo) && LegalSize(nb) && |bins| == NBINS
      requires InSmallbinRange(nb) ==> 2 <= BinIndex(nb) < NBINS && bins[BinIndex(nb)] == []
      modifies `lo, `hi, `s, `bins, `binmap, `lastRemainder
      ensures HeapOk() && FastInv(s, fast, fastbins, lo) && |bins| == NBINS
      ensures chosen == 0 ==> Blocks(s) == Blocks(old(s)) && bins[1] == []
      ensures chosen == 0 && InSmallbinRange(nb) ==> 2 <= BinIndex(nb) < NBINS && bins[BinIndex(nb)] == []
      ensures UnsortedServed(old(Now()), nb, chosen, how) && (chosen == 0 <==> how == Refused)
      ensures chosen == 0 ==> SameChunks(old(s), s)
      ensures lastRemainder == if how == FromLastRemainder then chosen + nb else old(lastRemainder)
      ensures chosen != 0 ==> Gave(old(s), s, chosen, nb) && Chosen(old(lastRemainder), s, chosen, nb, how)
      ensures BlocksKept(Blocks(old(s)), old(lo), old(hi), lo, hi)
    {
      hide BinIndex, Aligned, FastInv, HeapOk, BlocksKept;
      BinIndexInRange(nb);
      chosen, how := 0, Refused;
      KeptRefl(Blocks(s), lo, hi);
      UnsortedEmpty();
      ghost var v := Now();
      assert bins[1] == v.bins[1][..|bins[1]|];
      while hi[Header(binsBase, 1) + 8] != Header(binsBase, 1)
        invariant HeapOk() && FastInv(s, fast, fastbins, lo) && |bins| == NBINS
        invariant 0 <= Header(binsBase, 1) + 8 < |hi|
        invariant hi[Header(binsBase, 1) + 8] == Header(binsBase, 1) <==> bins[1] == []
        invariant Blocks(s) == Blocks(old(s)) && lastRemainder == old(lastRemainder)
        invariant InSmallbinRange(nb) ==> bins[BinIndex(nb)] == []
        invariant BlocksKept(Blocks(old(s)), old(lo), old(hi), lo, hi)
        invariant |bins[1]| <= |v.bins[1]| && bins[1] == v.bins[1][..|bins[1]|] && SameChunks(v.s, s)
        invariant Passed(v, nb, |bins[1]|) && chosen == 0 && how == Refused
        decreases |bins[1]|
      {
        ghost var lo1, hi1, s1, n := lo, hi, s, |bins[1]|;
        chosen, how := UnsortedTurn(nb);
        KeptTrans(Blocks(old(s)), old(lo), old(hi), lo1, hi1, lo, hi);
        TurnServed(v, s1, n, nb, chosen, how);
        if chosen != 0 { return; }
        UnsortedEmpty();
      }
      AllPassed(v, nb);
    }

    /** What malloc sees. */
    ghost function Now(): Situation
      reads this
    {
      Situation(s, bins, fast, lastRemainder, HaveAnychunks(maxFast), HaveFastchunks(maxFast),
                if s.top in s.size then s.top else memHeap, if s.top in s.size then s.size[s.top] else 0)
    }

    lemma UnsortedEmpty()
      requires HeapOk()
      ensures |bins| == NBINS && 0 <= Header(binsBase, 1) + 8 < |hi|
      ensures hi[Header(binsBase, 1) + 8] == Header(binsBase, 1) <==> bins[1] == []
    {
      HeaderLinks(s, binsBase, bins, lo, hi, 1);
      if bins[1] != [] { NodeKind(s, binsBase, bins, 1, |bins[1]|); }
    }

    // ----- Best fit -----

    /** Bins a to b - 1 hold nothing. */
    ghost predicate EmptyBins(a: int, b: int)
      requires |bins| == NBINS
      reads `bins
    {
      forall i {:trigger bins[i]} :: 2 <= i < NBINS && a <= i < b ==> bins[i] == []
    }

    /** do { if (++block >= BINMAPSIZE) goto use_top; } while (binmap[block] == 0) */
    method NextBlock(from: int, nb: int) returns (block: int)
      requires HeapOk() && |bins| == NBINS && bins[1] == [] && |binmap| == BINMAPSIZE + 1
      requires 0 <= from <= BINMAPSIZE && NoFitBelow(s, nb, 32 * (from + 1))
        && (from >= BINMAPSIZE - 1 ==> NoFitBelow(s, nb, NBINS))
      ensures from < block
      ensures if block < BINMAPSIZE then !IsZero(binmap[block]) && NoFitBelow(s, nb, 32 * block)
              else NoFitBelow(s, nb, NBINS)
      // the words passed are zero, their bins are empty
      ensures forall w {:trigger binmap[w]} :: from < w < block && w < BINMAPSIZE ==> IsZero(binmap[w])
      ensures EmptyBins(32 * (from + 1), 32 * block)
    {
      hide NoFitBelow, IsZero, Has, HeapOk;
      block := from + 1;
      while block < BINMAPSIZE && IsZero(binmap[block])
        invariant from < block && NoFitBelow(s, nb, 32 * block) && (block >= BINMAPSIZE ==> NoFitBelow(s, nb, NBINS))
        invariant forall w {:trigger binmap[w]} :: from < w < block && w < BINMAPSIZE ==> IsZero(binmap[w])
        invariant EmptyBins(32 * (from + 1), 32 * block)
        decreases BINMAPSIZE - block
      {
        forall j | 0 <= j < 32 ensures !Has(binmap[block], j) { ZeroWord(binmap[block], j); }
        PassMapWord(nb, block, 0);
        block := block + 1;
      }
    }

    /** while ((bit & map) == 0) { bin = next_bin(bin); bit <<= 1; } */
    method AdvanceToBit(block: int, map_: bv32, bin0: int, bit0: bv32, ghost k0: int, nb: int,
                        ghost m0: seq<bv32>, ghost a: int)
      returns (bin: int, bit: bv32, ghost k: int)
      requires HeapOk() && |bins| == NBINS && bins[1] == [] && |binmap| == BINMAPSIZE + 1
      requires 0 <= block < BINMAPSIZE && 0 <= k0 < 32 && map_ == binmap[block]
      requires bit0 == Bit(k0) && Reaches(map_, k0)
      requires bin0 == Header(binsBase, 32 * block + k0) && Swept(m0, a, 32 * block + k0, nb)
      ensures k0 <= k < 32 && bit == Bit(k) && Has(map_, k) && Meets(map_, bit)
      // the bits passed are clear, their bins are empty
      ensures forall j {:trigger Has(map_, j)} :: k0 <= j < k ==> !Has(map_, j)
      ensures EmptyBins(32 * block + k0, 32 * block + k)
      ensures bin == Header(binsBase, 32 * block + k) && NoFitBelow(s, nb, 32 * block + k)
      ensures Swept(m0, a, 32 * block + k, nb)
    {
      hide NoFitBelow, Bit, Meets, Twice, Reaches, Cleared;
      SweptMeans(m0, a, 32 * block + k0, nb);
      hide Swept;
      bin, bit, k := bin0, bit0, k0;
      while !Meets(map_, bit)
        invariant k0 <= k < 32 && bit == Bit(k) && Reaches(map_, k)
        invariant forall j {:trigger Has(map_, j)} :: k0 <= j < k ==> !Has(map_, j)
        invariant EmptyBins(32 * block + k0, 32 * block + k)
        invariant bin == Header(binsBase, 32 * block + k) && NoFitBelow(s, nb, 32 * block + k)
        decreases 32 - k
      {
        PassUnmarked(nb, block, k);
        StepUp(map_, k);
        bin := bin + 8;
        bit := Twice(bit);
        k := k + 1;
      }
      SweptBits(m0, a, block, k0, k, nb);
    }

    /** No bit of the word is left: on to the next one that has any. */
    method LeaveWord(from: int, ghost k: int, nb: int, ghost m0: seq<bv32>, ghost a: int) returns (block: int)
      requires HeapOk() && |bins| == NBINS && bins[1] == [] && |binmap| == BINMAPSIZE + 1
      requires 0 <= from <= BINMAPSIZE && 0 <= k <= 32 && Swept(m0, a, 32 * from + k, nb)
      requires forall j {:trigger Has(binmap[from], j)} :: k <= j < 32 ==> !Has(binmap[from], j)
      ensures from < block
      ensures if block < BINMAPSIZE then !IsZero(binmap[block]) && Swept(m0, a, 32 * block, nb)
        else Swept(m0, a, 32 * BINMAPSIZE, nb)
    {
      hide NoFitBelow, IsZero, Has, HeapOk, Cleared, Marked, EmptyBins;
      PassMapWord(nb, from, k);
      RestCleared(m0, a, from, k);
      EmptyOn(a, 32 * from + k, 32 * (from + 1));
      block := NextBlock(from, nb);
      WordsCleared(m0, a, from, block);
      EmptyOn(a, 32 * (from + 1), 32 * block);
      AllEmpty(a, block);
    }

    /** Bins a to e - 1 are empty and unmarked, m0 being the map before, and nothing that
        fits lies below bin e. */
    ghost predicate Swept(m0: seq<bv32>, a: int, e: int, nb: int)
      reads `s, `bins, `binmap
    {
      |bins| == NBINS && EmptyBins(a, e) && Cleared(m0, binmap, a, e) && NoFitBelow(s, nb, e)
    }

    lemma SweptBits(m0: seq<bv32>, a: int, block: int, k: int, l: int, nb: int)
      requires |binmap| == BINMAPSIZE + 1 && 0 <= block <= BINMAPSIZE && 0 <= k <= l <= 32
      requires Swept(m0, a, 32 * block + k, nb) && EmptyBins(32 * block + k, 32 * block + l)
      requires NoFitBelow(s, nb, 32 * block + l)
      requires forall j {:trigger Has(binmap[block], j)} :: k <= j < l ==> !Has(binmap[block], j)
      ensures Swept(m0, a, 32 * block + l, nb)
    {
      hide Has, Cleared, EmptyBins, NoFitBelow;
      BitsCleared(m0, a, block, k, l);
      EmptyOn(a, 32 * block + k, 32 * block + l);
    }

    lemma NothingSwept(a: int, nb: int)
      requires |bins| == NBINS && |binmap| == BINMAPSIZE + 1 && NoFitBelow(s, nb, a)
      ensures Swept(binmap, a, a, nb)
    {
    }

    lemma SweptMeans(m0: seq<bv32>, a: int, e: int, nb: int)
      requires Swept(m0, a, e, nb)
      ensures |bins| == NBINS && EmptyBins(a, e) && Cleared(m0, binmap, a, e) && NoFitBelow(s, nb, e)
    {
    }

    /** The search over the bins above idx0 by the bitmap: the lowest non-empty
        one, or 0 when all are empty; bits found set in vain are cleared. */
    method SearchBins(idx0: int, nb: int) returns (bin: int, ghost b: int)
      requires HeapOk() && |bins| == NBINS && bins[1] == [] && 2 <= idx0 < NBINS && NoFitBelow(s, nb, idx0 + 1)
      modifies `binmap
      ensures HeapOk()
      ensures bin == 0 ==> NoFitBelow(s, nb, NBINS) && EmptyBins(idx0 + 1, NBINS)
      ensures bin != 0 ==>
        idx0 < b < NBINS && bin == Header(binsBase, b) && bins[b] != [] && NoFitBelow(s, nb, b)
          && EmptyBins(idx0 + 1, b)
      // the bits of the bins passed are clear now
      ensures Cleared(old(binmap), binmap, idx0 + 1, if bin == 0 then 32 * BINMAPSIZE else b)
    {
      hide BinIndex, Aligned, NoFitBelow, Bit, Above, IsZero, Meets, Twice, Minus, Reaches, HeapOk, Cleared, Marked,
        Has, EmptyBins, Swept;
      MapLength();
      NothingSwept(idx0 + 1, nb);
      var idx := idx0 + 1;
      bin := Header(binsBase, idx);
      var block := Idx2Block(idx);
      var map_ := binmap[block];
      var bit := Idx2Bit(idx);
      ghost var k := idx % 32;
      while true
        invariant HeapOk() && |binmap| == BINMAPSIZE + 1
        invariant 0 <= block <= BINMAPSIZE && 0 <= k <= 32 && map_ == binmap[block]
        invariant (k < 32 ==> bit == Bit(k)) && (k == 32 ==> IsZero(bit))
        invariant idx0 < 32 * block + k && bin == Header(binsBase, 32 * block + k)
        invariant Swept(old(binmap), idx0 + 1, 32 * block + k, nb)
        decreases 128 - (32 * block + k)
      {
        RestOfWord(map_, k, bit);
        if Above(bit, map_) || IsZero(bit) {
          block := LeaveWord(block, k, nb, old(binmap), idx0 + 1);
          if block >= BINMAPSIZE {
            SweptMeans(old(binmap), idx0 + 1, 32 * BINMAPSIZE, nb);
            return 0, 0;
          }
          map_ := binmap[block];
          bin := Header(binsBase, 32 * block);
          bit := 1;
          k := 0;
          FirstBit(map_);
        }
        // RestOfWord says that this ends
        BlockInRange(block, k);
        bin, bit, k := AdvanceToBit(block, map_, bin, bit, k, nb, old(binmap), idx0 + 1);
        // the bit may lie, the bin does not
        b := 32 * block + k;
        FirstOrHeader(b);
        var victim := hi[bin + 8];
        SweptMeans(old(binmap), idx0 + 1, b, nb);
        if victim != bin { return bin, b; }
        // a false alarm: clear the bit
        Shifted(k);
        map_ := ClearFalseAlarm(block, map_, bit, k, nb, old(binmap), idx0 + 1);
        bin := bin + 8;
        bit := Twice(bit);
        k := k + 1;
      }
    }

    lemma PassUnmarked(nb: int, block: int, k: int)
      requires HeapOk() && bins[1] == [] && 0 <= block <= BINMAPSIZE && 0 <= k < 32 && NoFitBelow(s, nb, 32 * block + k)
      requires !Has(binmap[block], k) || (32 * block + k < NBINS && bins[32 * block + k] == [])
      ensures NoFitBelow(s, nb, 32 * block + k + 1) && |bins| == NBINS && EmptyBins(32 * block + k, 32 * block + k + 1)
    {
      hide Has;
      if !Has(binmap[block], k) { UnmarkedEmpty(bins, binmap, block, k); }
      PassBin(s, bins, nb, 32 * block + k);
    }

    lemma BlockInRange(block: int, k: int)
      requires HeapOk() && 0 <= block <= BINMAPSIZE && 0 <= k < 32 && Reaches(binmap[block], k)
      ensures block < BINMAPSIZE
    {
      ReachesNonzero(binmap[block], k);
    }

    lemma FirstOrHeader(b: int)
      requires HeapOk() && 2 <= b < NBINS
      ensures |bins| == NBINS && 0 < Header(binsBase, b) && Header(binsBase, b) + 8 < |hi|
      ensures hi[Header(binsBase, b) + 8] == Header(binsBase, b) <==> bins[b] == []
    {
      HeaderLinks(s, binsBase, bins, lo, hi, b);
      if bins[b] != [] { NodeKind(s, binsBase, bins, b, |bins[b]|); }
    }

    /** av->binmap[block] = map &= ~bit: the bin was marked but found empty. */
    method ClearFalseAlarm(block: int, map_: bv32, bit: bv32, ghost k: int, nb: int, ghost m0: seq<bv32>, ghost a: int)
      returns (rest: bv32)
      requires HeapOk() && 0 <= block < BINMAPSIZE && |binmap| == BINMAPSIZE + 1 && map_ == binmap[block]
      requires |bins| == NBINS && 0 <= k < 32 && 2 <= 32 * block + k && bins[32 * block + k] == [] && bit == Bit(k)
      requires bins[1] == [] && a <= 32 * block + k && Swept(m0, a, 32 * block + k, nb)
      modifies `binmap
      ensures HeapOk() && |binmap| == BINMAPSIZE + 1 && rest == binmap[block]
      ensures Swept(m0, a, 32 * block + k + 1, nb)
    {
      hide Minus, Bit, Has, HeapInv, Cleared, EmptyBins, NoFitBelow;
      ghost var i := 32 * block + k;
      assert i / 32 == block && i % 32 == k;
      PassUnmarked(nb, block, k);
      EmptyOn(a, i, i + 1);
      UnmarkEmpty(binmap, bins, i);
      ClearedOne(m0, binmap, a, i);
      rest := Minus(map_, bit);
      binmap := binmap[block := rest];
    }

    lemma EmptyOn(a: int, b: int, c: int)
      requires |bins| == NBINS && EmptyBins(a, b) && EmptyBins(b, c)
      ensures EmptyBins(a, c)
    {
    }

    lemma AllEmpty(a: int, block: int)
      requires |bins| == NBINS && EmptyBins(a, 32 * block)
      ensures block >= BINMAPSIZE ==> EmptyBins(a, NBINS)
    {
    }

    lemma RestCleared(m0: seq<bv32>, a: int, block: int, k: int)
      requires 0 <= block <= BINMAPSIZE && 0 <= k <= 32 && Cleared(m0, binmap, a, 32 * block + k)
      requires forall j {:trigger Has(binmap[block], j)} :: k <= j < 32 ==> !Has(binmap[block], j)
      ensures Cleared(m0, binmap, a, 32 * (block + 1))
    {
      BitsCleared(m0, a, block, k, 32);
    }

    lemma BitsCleared(m0: seq<bv32>, a: int, block: int, k: int, l: int)
      requires 0 <= block <= BINMAPSIZE && 0 <= k <= l <= 32 && Cleared(m0, binmap, a, 32 * block + k)
      requires forall j {:trigger Has(binmap[block], j)} :: k <= j < l ==> !Has(binmap[block], j)
      ensures Cleared(m0, binmap, a, 32 * block + l)
    {
      WordUnmarked(binmap, block, k, l);
      hide Has, Marked;
      ClearedOn(m0, binmap, a, 32 * block + k, 32 * block + l);
    }

    lemma WordsCleared(m0: seq<bv32>, a: int, from: int, block: int)
      requires 0 <= from <= BINMAPSIZE && from < block && Cleared(m0, binmap, a, 32 * (from + 1))
      requires forall w {:trigger binmap[w]} :: from < w < block && w < BINMAPSIZE ==> IsZero(binmap[w])
      ensures Cleared(m0, binmap, a, 32 * block)
      ensures block >= BINMAPSIZE ==> Cleared(m0, binmap, a, 32 * BINMAPSIZE)
    {
      var e := if block < BINMAPSIZE then block else BINMAPSIZE;
      if from < e { WordsUnmarked(binmap, from + 1, e); }
      ClearedOn(m0, binmap, a, 32 * (from + 1), 32 * block);
    }

    lemma MapLength()
      requires HeapOk()
      ensures |binmap| == BINMAPSIZE + 1
    {
    }

    lemma PassMapWord(nb: int, block: int, k: int)
      requires HeapOk() && bins[1] == [] && 0 <= block <= BINMAPSIZE && 0 <= k <= 32
        && NoFitBelow(s, nb, 32 * block + k)
      requires forall j {:trigger Has(binmap[block], j)} :: k <= j < 32 ==> !Has(binmap[block], j)
      ensures NoFitBelow(s, nb, 32 * (block + 1))
      ensures block == BINMAPSIZE - 1 || block == BINMAPSIZE ==> NoFitBelow(s, nb, NBINS)
      ensures |bins| == NBINS && EmptyBins(32 * block + k, 32 * (block + 1))
    {
      hide Has;
      forall i | 2 <= i < NBINS && 32 * block + k <= i < 32 * (block + 1)
        ensures bins[i] == []
      {
        assert !Has(binmap[block], i - 32 * block);
        UnmarkedEmpty(bins, binmap, block, i - 32 * block);
      }
      PassWord(s, bins, binmap, nb, block, k);
    }

    /** Exhaust or split the chunk found. */
    method Carve(victim: int, size: int, nb: int, ghost bins0: seq<seq<int>>) returns (split: bool)
      requires Region() && Held(s, binsBase, bins0, bins, lo, hi, victim) && FastInv(s, fast, fastbins, lo)
      requires LegalSize(nb) && size == s.size[victim] && bins[1] == [] && SmallestFit(s, victim, nb)
      modifies `lo, `hi, `s, `bins
      ensures HeapOk() && FastInv(s, fast, fastbins, lo) && |bins| == NBINS
      ensures Gave(old(s), s, victim, nb) && BestFitTaken(s, victim, nb, size)
      // what is left over is the only unsorted chunk
      ensures split <==> size >= nb + MINSIZE
      ensures bins == if split then old(bins)[1 := [victim + nb]] else old(bins)
      ensures BlocksKept(Blocks(old(s)), old(lo), old(hi), lo, hi)
    {
      hide BinIndex, Aligned, PayloadsKept, FastInv, HeapInv, Held, MapCovers, BlocksKept;
      ghost var s0 := s;
      HeldNext(s, binsBase, bins0, bins, lo, hi, victim);
      var remainderSize := size - nb;
      if remainderSize < MINSIZE {
        UseWhole(victim, size, bins0);
        TakenWhole(s0, victim, nb);
        split := false;
      } else {
        WholeHeader(bins0, victim);
        UseSplit(victim, size, nb, bins0, lo, hi);
        TakenSplit(s0, victim, nb);
        split := true;
      }
      PayloadsToBlocks(s0, Blocks(s0), old(lo), old(hi), lo, hi, {victim});
      HeapBins();
    }

    lemma WholeHeader(bins0: seq<seq<int>>, p: int)
      requires Region() && Held(s, binsBase, bins0, bins, lo, hi, p)
      ensures HeaderOnly(lo, hi)
    {
      HeaderLinks(s, binsBase, bins, lo, hi, 1);
    }

    /** unlink(victim, bck, fwd) from the middle of bin i. */
    method UnlinkChunk(p: int, ghost i: int)
      requires HeapOk() && FastInv(s, fast, fastbins, lo) && |bins| == NBINS && 1 <= i < NBINS && p in bins[i]
      modifies `lo, `hi, `bins
      ensures Region() && Held(s, binsBase, old(bins), bins, lo, hi, p) && FastInv(s, fast, fastbins, lo)
      ensures BlocksKept(Blocks(s), old(lo), old(hi), lo, hi)
      ensures old(bins)[1] == [] ==> bins[1] == []
    {
      hide BinIndex, Aligned, PayloadsKept, FastInv, Complete, Coalesced, Tags, Rings, Sorted, MapCovers, BlocksKept;
      ListedFree(p, i);
      var _, _ := Unlink(p, i);
      RelinkKeepsFastInv(s, binsBase, old(bins), fast, fastbins, old(lo), old(hi), lo, hi);
      StillCovers(binmap, old(bins), bins);
    }

    lemma ListedFree(p: int, i: int)
      requires HeapOk() && 0 <= i < NBINS && p in bins[i]
      ensures p in s.size && IsFree(s, p)
    {
      var k := IndexOf(bins[i], p);
      assert Entry(s, bins, i, k);
    }

    /** For a large request, the smallest chunk of the request's own bin that fits. */
    method ScanOwnBin(idx: int, nb: int) returns (chosen: int, ghost fit: int)
      requires HeapOk() && FastInv(s, fast, fastbins, lo) && |bins| == NBINS && bins[1] == []
      requires LegalSize(nb) && idx == BinIndex(nb) && 2 <= idx < NBINS
      modifies `lo, `hi, `s, `bins
      ensures HeapOk() && FastInv(s, fast, fastbins, lo) && |bins| == NBINS
      ensures chosen == 0 ==> s == old(s) && bins == old(bins) && NoFitBelow(s, nb, idx + 1)
      ensures chosen != 0 ==> Gave(old(s), s, chosen, nb) && BestFitTaken(s, chosen, nb, fit)
      ensures chosen != 0 ==> SmallestFit(old(s), chosen, nb) && fit == old(s).size[chosen]
      ensures BlocksKept(Blocks(old(s)), old(lo), old(hi), lo, hi)
    {
      hide BinIndex, Aligned, PayloadsKept, FastInv, HeapOk, Held, BlocksKept, Region, SmallestFit, Fits;
      var bin := Header(binsBase, idx);
      FirstOrHeader(idx);
      LastNode(idx);
      OwnBinStart(nb);
      var victim := hi[bin + 8];
      ghost var k := |bins[idx]| - 1;
      fit := 0;
      while victim != bin
        invariant HeapOk() && FastInv(s, fast, fastbins, lo) && s == old(s) && bins == old(bins) && lo == old(lo)
          && hi == old(hi)
        invariant -1 <= k < |bins[idx]| && victim == Node(binsBase, bins, idx, k + 1)
        invariant forall j {:trigger bins[idx][j]} :: k < j < |bins[idx]| ==>
          bins[idx][j] in s.size && s.size[bins[idx][j]] < nb
        decreases k
      {
        NodeWord(idx, k);
        var size := ChunkSize(hi[victim]);
        if size >= nb {
          BestOfBin(nb, idx, k);
          ghost var bins0, lo0, hi0 := bins, lo, hi;
          UnlinkChunk(victim, idx);
          ghost var lo1, hi1 := lo, hi;
          var _ := Carve(victim, size, nb, bins0);
          KeptTrans(Blocks(old(s)), lo0, hi0, lo1, hi1, lo, hi);
          return victim, size;
        }
        victim := hi[victim + 8];
        k := k - 1;
      }
      NodeAtHeader(idx, k + 1);
      PassOwnBin(nb, idx);
      KeptRefl(Blocks(s), lo, hi);
      chosen := 0;
    }

    lemma LastNode(i: int)
      requires HeapOk() && 2 <= i < NBINS
      ensures |bins| == NBINS && 0 <= Header(binsBase, i) + 8 < |hi|
        && hi[Header(binsBase, i) + 8] == Node(binsBase, bins, i, |bins[i]|)
    {
      HeaderLinks(s, binsBase, bins, lo, hi, i);
    }

    lemma NodeWord(i: int, k: int)
      requires HeapOk() && |bins| == NBINS && 2 <= i < NBINS && -1 <= k < |bins[i]|
        && Node(binsBase, bins, i, k + 1) != Header(binsBase, i)
      ensures var x := Node(binsBase, bins, i, k + 1);
        && 0 <= k && x == bins[i][k] && x in s.size && 0 < x && x + 8 < |hi| && ChunkSize(hi[x]) == s.size[x]
        && hi[x + 8] == Node(binsBase, bins, i, k)
    {
      if k >= 0 {
        EntryWord(s, binsBase, bins, lo, hi, i, k);
        Inside(s, bins[i][k]);
      }
    }

    lemma NodeAtHeader(i: int, n: int)
      requires HeapOk() && |bins| == NBINS && 2 <= i < NBINS && 0 <= n <= |bins[i]|
        && Node(binsBase, bins, i, n) == Header(binsBase, i)
      ensures n == 0
    {
      if n > 0 { NodeKind(s, binsBase, bins, i, n); }
    }

    lemma OwnBinStart(nb: int)
      requires HeapOk() && |bins| == NBINS && bins[1] == [] && LegalSize(nb)
      ensures NoFitBelow(s, nb, BinIndex(nb))
    {
      hide BinIndex;
      StartAtOwnBin(s, bins, nb);
    }

    lemma BestOfBin(nb: int, b: int, k: int)
      requires HeapOk() && |bins| == NBINS && bins[1] == [] && NoFitBelow(s, nb, b) && 2 <= b < NBINS
        && 0 <= k < |bins[b]|
      requires bins[b][k] in s.size && s.size[bins[b][k]] >= nb
      requires forall j {:trigger bins[b][j]} :: k < j < |bins[b]| ==> bins[b][j] in s.size && s.size[bins[b][j]] < nb
      ensures SmallestFit(s, bins[b][k], nb)
    {
      LowestBinBest(s, binsBase, bins, nb, b, k);
    }

    lemma PassOwnBin(nb: int, b: int)
      requires HeapOk() && |bins| == NBINS && bins[1] == [] && NoFitBelow(s, nb, b) && 2 <= b < NBINS
      requires forall k {:trigger bins[b][k]} :: 0 <= k < |bins[b]| ==> bins[b][k] in s.size && s.size[bins[b][k]] < nb
      ensures NoFitBelow(s, nb, b + 1)
    {
      PassBin(s, bins, nb, b);
    }

    // ----- Top and sbrk -----

    /** kernel/sbrk.c */
    method Sbrk(diff: int) returns (r: int)
      modifies `curptr
      ensures if old(curptr) <= old(curptr) + diff <= memHeapEnd then r == old(curptr) && curptr == old(curptr) + diff
              else r == -1 && curptr == old(curptr)
    {
      var c := curptr + diff;
      if c < curptr || c > memHeapEnd { return -1; }
      r := curptr;
      curptr := c;
    }

    /** Cut the block off top, which is large enough. */
    method UseTop(nb: int) returns (p: int)
      requires Live() && LegalSize(nb) && nb + MINSIZE <= s.size[s.top]
      modifies `hi, `top, `s
      ensures Live() && p == old(s.top) && Gave(old(s), s, p, nb) && bins == old(bins)
      ensures BlocksKept(Blocks(old(s)), old(lo), old(hi), lo, hi)
      ensures NothingFits(old(s), nb) ==> NothingFits(s, nb)
    {
      hide BinIndex, Aligned, PayloadsKept, FastInv, HeapInv, MapCovers, BlocksKept, NothingFits;
      Surroundings(s, binsBase, bins, lo, hi);
      HeadOf(s.top);
      p := top;
      var size := ChunkSize(hi[p]);
      var remainderSize := size - nb;
      TopSplitStep(s, binsBase, bins, fast, fastbins, lo, hi, nb, hi[p := nb + 1][p + nb := remainderSize + 1]);
      if NothingFits(s, nb) { NothingFitsAfterTopSplit(s, nb); }
      top := p + nb;
      hi := hi[p := nb + 1];
      hi := hi[p + nb := remainderSize + 1];
      s := Split(s, s.top, nb, Used, Top);
      PayloadsToBlocks(old(s), Blocks(old(s)), old(lo), old(hi), lo, hi, {});
    }

    /** The size of top; the stand-in used before the first sbrk has size 0. */
    ghost function TopSize(): int
      requires Empty() || Live()
      reads this
    {
      if Bare() then 0 else s.size[s.top]
    }

    /** Ask sbrk for `size` bytes; brk == old_end, so top just grows. */
    method GrowBy(oldTop: int, oldSize: int, size: int) returns (got: bool)
      requires Live() && oldTop == s.top && oldSize == s.size[s.top] && size > 0 && Aligned(size)
      modifies `hi, `s, `curptr, `sbrkedMem, `maxSbrkedMem, `maxTotalMem
      ensures Live() && BlocksKept(Blocks(s), old(lo), old(hi), lo, hi) && Blocks(s) == Blocks(old(s))
      ensures got <==> old(curptr) + size <= memHeapEnd
      ensures if got then s == GrowTop(old(s), size) && curptr == old(curptr) + size
              else s == old(s) && curptr == old(curptr)
    {
      hide BinIndex, Aligned, PayloadsKept, FastInv, HeapInv, MapCovers, BlocksKept;
      Surroundings(s, binsBase, bins, lo, hi);
      Inside(s, s.top);
      ghost var s0, hi0 := s, hi;
      KeptRefl(Blocks(s), lo, hi);
      var oldEnd := oldTop + oldSize;
      var brk := Sbrk(size);
      if brk == -1 { return false; }
      sbrkedMem := sbrkedMem + size;
      assert brk == oldEnd;
      hi := hi[oldTop := size + oldSize + 1];
      GrowTopStep(s, binsBase, bins, fast, fastbins, lo, hi0, size, hi);
      s := GrowTop(s, size);
      UpdateMaxima();
      PayloadsToBlocks(s0, Blocks(s0), lo, hi0, lo, hi, {});
      return true;
    }

    /** sYSMALLOc once a region exists. */
    method ExtendTop(nb: int) returns (got: bool)
      requires Live() && LegalSize(nb) && nb <= WORD - 24 && s.size[s.top] < nb + MINSIZE
      modifies `hi, `s, `curptr, `sbrkedMem, `maxSbrkedMem, `maxTotalMem
      ensures Live() && Blocks(s) == Blocks(old(s)) && BlocksKept(Blocks(s), old(lo), old(hi), lo, hi)
      ensures got ==> nb + MINSIZE <= s.size[s.top] && s.top == old(s).top
      ensures got ==> curptr == old(curptr) + PageUp(nb + MINSIZE - old(s.size[s.top]))
      ensures NothingFits(old(s), nb) ==> NothingFits(s, nb)
      ensures !got ==>
        s == old(s) && curptr == old(curptr) && PageUp(nb + MINSIZE - s.size[s.top]) > memHeapEnd - curptr
    {
      hide BinIndex, Aligned, FastInv, HeapInv, MapCovers, BlocksKept, NothingFits, SbrkRequest, PageUp, Region;
      TopFacts();
      var oldTop := top;
      var oldSize := ChunkSize(hi[oldTop]);
      var size := SbrkRequest(nb, topPad, oldSize);
      SbrkRequestFits(nb, oldSize);
      KeptRefl(Blocks(s), lo, hi);
      if size <= 0 { return false; }
      got := GrowBy(oldTop, oldSize, size);
      if got {
        GrownTop(old(s), size);
        if NothingFits(old(s), nb) { NothingFitsAfterGrowth(old(s), size, nb); }
      }
    }

    lemma TopFacts()
      requires HeapOk()
      ensures Tiled(s) && top == s.top && s.top in s.size && 0 <= top < |hi| && topPad == 0
      ensures ChunkSize(hi[top]) == s.size[s.top] && LegalSize(s.size[s.top]) && top + s.size[s.top] == curptr
      ensures memHeap <= curptr <= memHeapEnd == 0x100_0000
    {
      HeadWord(s, lo, hi, s.top);
      Inside(s, s.top);
    }

    lemma GrownTop(s0: Shape, more: int)
      requires s0.top in s0.size
      ensures var s1 := GrowTop(s0, more);
        s1.top == s0.top && s1.top in s1.size && s1.size[s1.top] == s0.size[s0.top] + more && s1.base == s0.base
          && s1.end == s0.end + more
    {
    }

    /** The high-water marks kept for malloc_stats. */
    method UpdateMaxima()
      requires maxSbrkedMem <= sbrkedMem && maxTotalMem <= sbrkedMem
      modifies `maxSbrkedMem, `maxTotalMem
      ensures sbrkedMem == maxSbrkedMem == maxTotalMem
    {
      if sbrkedMem > maxSbrkedMem { maxSbrkedMem := sbrkedMem; }
      if sbrkedMem > maxTotalMem { maxTotalMem := sbrkedMem; }
    }

    /** Guarantee alignment of the first new chunk, and ask for more so that the
        region ends on a page boundary; do without if that is refused. */
    method AlignRegion(brk: int, size: int, oldSize: int) returns (alignedBrk: int, sndBrk: int, correction: int)
      requires 0 < brk && Aligned(brk) && 0 < size && Aligned(size) && oldSize == 0
      requires curptr == brk + size <= memHeapEnd == 0x100_0000
      modifies `curptr
      ensures alignedBrk == brk && sndBrk == brk + size && 0 <= correction
        && curptr == sndBrk + correction <= memHeapEnd
      ensures Aligned(curptr)
      ensures curptr == if PageUp(brk + size) <= memHeapEnd then PageUp(brk + size) else brk + size
    {
      hide PageUp;
      correction, alignedBrk := 0, brk;
      var frontMisalign := (brk + 8) % 8;
      if frontMisalign > 0 {
        correction := 8 - frontMisalign;
        alignedBrk := alignedBrk + correction;
      }
      correction := correction + oldSize;
      var endMisalign := brk + size + correction;
      PageUpFacts(endMisalign);
      AlignedSum(brk, size);
      correction := correction + PageUp(endMisalign) - endMisalign;
      sndBrk := Sbrk(correction);
      if sndBrk == -1 {
        correction := 0;
        sndBrk := Sbrk(0);
      }
    }

    /** The end of memory is a page boundary. */
    lemma PageLimit(x: int)
      requires x <= 0x100_0000
      ensures PageUp(x) <= 0x100_0000
    {
    }

    /** The bins and fastbins are empty, as they are before the first sbrk. */
    ghost predicate NothingListed()
      reads `bins, `fast, `fastbins, `binmap
    {
      && |bins| == NBINS && (forall i {:trigger bins[i]} :: 0 <= i < NBINS ==> bins[i] == [])
      && |fast| == |fastbins| == NFASTBINS && |binmap| == BINMAPSIZE + 1 && binmap[BINMAPSIZE] == 0
      && (forall i {:trigger fast[i]} {:trigger fastbins[i]} :: 0 <= i < NFASTBINS ==>
        fast[i] == [] && fastbins[i] == 0)
    }

    lemma BareListsNothing()
      requires Bare()
      ensures NothingListed()
    {
    }

    /** The region [memHeap, memHeap + size) was just obtained. */
    method OpenRegion(brk: int, size: int, oldSize: int)
      requires Layout() && Params() && NothingListed() && Rings(binsBase, bins, lo, hi) && maxFast == FAST_LIMIT
      requires sbrkedMem == size && brk == memHeap && MINSIZE <= size && Aligned(size) && oldSize == 0
        && curptr == brk + size <= memHeapEnd
      requires maxSbrkedMem == maxTotalMem == 0
      modifies `hi, `top, `s, `curptr, `sbrkedMem, `maxSbrkedMem, `maxTotalMem
      ensures Layout() && Live() && Blocks(s) == map[] && size <= s.size[s.top] && s == FirstShape(memHeap, curptr)
      ensures curptr == if PageUp(memHeap + size) <= memHeapEnd then PageUp(memHeap + size) else memHeap + size
    {
      hide BinIndex, Rings, HeapInv, FastInv, Aligned, FirstShape, Blocks, PageUp, Live, NothingListed;
      var alignedBrk, sndBrk, correction := AlignRegion(brk, size, oldSize);
      top := alignedBrk;
      sbrkedMem := sbrkedMem + correction;
      FirstHeader(sndBrk - alignedBrk + correction);
      FirstShapeFacts(memHeap, curptr);
      UpdateMaxima();
      FirstLive();
    }

    lemma FirstLive()
      requires Layout() && Params() && NothingListed() && maxFast == FAST_LIMIT && curptr <= memHeapEnd
      requires HeapInv(s, binsBase, bins, lo, hi) && FastInv(s, fast, fastbins, lo)
      requires top == s.top && s.base == memHeap && s.end == curptr
      requires sbrkedMem == s.end - s.base == maxSbrkedMem == maxTotalMem
      ensures Live()
    {
      hide BinIndex, HeapInv, FastInv, Aligned;
    }

    lemma FirstShapeFacts(base: int, end: int)
      ensures var s1 := FirstShape(base, end);
        s1.top == base && s1.base == base && s1.end == end && s1.top in s1.size && s1.size[s1.top] == end - base
    {
    }

    /** sYSMALLOc the first time through: top is still the unsorted bin's header,
        of size 0, so the new space does not join it. */
    method FirstTop(nb: int) returns (got: bool)
      requires Layout() && Empty() && LegalSize(nb) && nb <= WORD - 24
      modifies `hi, `top, `s, `curptr, `sbrkedMem, `maxSbrkedMem, `maxTotalMem
      ensures Layout()
      ensures got ==> Live() && Blocks(s) == map[] && nb + MINSIZE <= s.size[s.top] && NothingFits(s, nb)
      ensures got ==> s.top == memHeap && curptr == PageUp(memHeap + PageUp(nb + MINSIZE))
      ensures !got ==> Empty() && s == old(s) && curptr == old(curptr) && PageUp(nb + MINSIZE) > memHeapEnd - curptr
    {
      hide BinIndex, PageUp, SbrkRequest, Rings, HeapInv, FastInv, Aligned, FlagsOk, Region;
      var oldTop := top;
      var oldSize := ChunkSize(hi[oldTop]);
      var oldEnd := oldTop + oldSize;
      var size := SbrkRequest(nb, topPad, oldSize);
      ZeroAligned();
      SbrkRequestFits(nb, oldSize);
      BareListsNothing();
      if size <= 0 { return false; }
      var brk := Sbrk(size);
      if brk == -1 { return false; }
      sbrkedMem := sbrkedMem + size;
      assert brk != oldEnd;
      PageLimit(brk + size);
      OpenRegion(brk, size, oldSize);
      FirstFitsNothing(nb);
      return true;
    }

    lemma ZeroAligned()
      ensures Aligned(0)
    {
    }

    /** set_head(av->top, ...): the first top chunk is everything up to curptr. */
    method FirstHeader(size: int)
      requires Layout() && top == memHeap && curptr == memHeap + size <= memHeapEnd && MINSIZE <= size
        && Aligned(curptr)
      requires NothingListed() && Rings(binsBase, bins, lo, hi)
      modifies `hi, `s
      ensures Layout() && s == FirstShape(memHeap, curptr)
      ensures HeapInv(s, binsBase, bins, lo, hi) && FastInv(s, fast, fastbins, lo) && Blocks(s) == map[]
    {
      hide Rings, HeapInv, FastInv, Aligned, Blocks;
      ghost var hi0 := hi;
      hi := hi[top := size + 1];
      FirstStep(memHeap, curptr, binsBase, bins, fast, fastbins, lo, hi0, hi);
      s := FirstShape(memHeap, curptr);
    }

    lemma FirstFitsNothing(nb: int)
      requires s == FirstShape(memHeap, curptr)
      ensures NothingFits(s, nb)
    {
      forall x ensures !Fits(s, x, nb) { }
    }

    // ----- malloc -----

    /** A request of fastbin size is first looked up among the parked blocks. */
    method TakeFast(nb: int) returns (victim: int)
      requires Live() && LegalSize(nb)
      modifies `fastbins, `s, `fast
      ensures Live() && (victim == 0 ==> s == old(s) && fast == old(fast))
      // there is a block exactly when the fastbin of the size has one
      ensures victim == 0 <==> nb > FAST_LIMIT || old(fast)[FastbinIndex(nb)] == []
      ensures victim != 0 ==>
        victim == old(fast)[FastbinIndex(nb)][0]
        && fast == old(fast)[FastbinIndex(nb) := old(fast)[FastbinIndex(nb)][1..]]
      ensures victim != 0 ==>
        Gave(old(s), s, victim, nb) && Blocks(s)[victim] == nb && victim in old(s).st && old(s).st[victim] == Fast
    {
      hide HeapInv, FastInv, MapCovers;
      victim := 0;
      FastHead(nb);
      if nb <= maxFast {
        var fb := FastbinIndex(nb);
        FastIndexRange(nb, maxFast);
        victim := fastbins[fb];
        if victim != 0 {
          PopStep(s, binsBase, bins, fast, fastbins, lo, hi, fb);
          HeadOf(victim);
          SameFastSize(nb, s.size[victim]);
          Surroundings(s, binsBase, bins, lo, hi);
          fastbins := fastbins[fb := lo[victim + 8]];
          fast := fast[fb := fast[fb][1..]];
          s := SetStatus(s, victim, Used);
          assert Blocks(s) == Blocks(old(s))[victim := nb];
        }
      }
    }

    lemma FastHead(nb: int)
      requires Live() && LegalSize(nb)
      ensures nb <= maxFast <==> nb <= FAST_LIMIT
      ensures nb <= FAST_LIMIT ==> var fb := FastbinIndex(nb);
        0 <= fb < NFASTBINS && |fast| == |fastbins| == NFASTBINS && (fastbins[fb] == 0 <==> fast[fb] == [])
    {
      hide HeapInv, MapCovers, BinIndex;
      if nb <= FAST_LIMIT {
        var fb := FastbinIndex(nb);
        assert Chain(fastbins[fb], fast[fb], lo);
      }
    }

    /** A small request is first looked up in its own bin, where every chunk fits exactly. */
    method TakeSmall(nb: int) returns (victim: int)
      requires Live() && LegalSize(nb) && InSmallbinRange(nb) && |bins| == NBINS && 2 <= BinIndex(nb) < NBINS
      modifies `lo, `hi, `s, `bins
      ensures HeapOk() && FastInv(s, fast, fastbins, lo) && |bins| == NBINS
      ensures victim == 0 ==> s == old(s) && bins == old(bins) && bins[BinIndex(nb)] == []
      ensures victim != 0 ==> Gave(old(s), s, victim, nb) && Blocks(s)[victim] == nb
      ensures victim != 0 ==>
        old(bins)[BinIndex(nb)] != [] && victim == old(bins)[BinIndex(nb)][|old(bins)[BinIndex(nb)]| - 1]
      ensures BlocksKept(Blocks(old(s)), old(lo), old(hi), lo, hi)
    {
      hide HeapInv, FastInv, MapCovers, Held, BlocksKept, PayloadsKept, LargebinIndex, Aligned;
      var idx := SmallbinIndex(nb);
      var bin := Header(binsBase, idx);
      assert idx == BinIndex(nb);
      FirstOrHeader(idx);
      KeptRefl(Blocks(s), lo, hi);
      if hi[bin + 8] == bin { return 0; }
      ghost var bins0 := bins;
      SmallLast(nb, idx);
      victim := RemoveLast(bin, idx);
      RelinkKeepsFastInv(s, binsBase, bins0, fast, fastbins, old(lo), old(hi), lo, hi);
      HeldBins(s, binsBase, bins0, bins, lo, hi, victim);
      ghost var s0, lo1, hi1 := s, lo, hi;
      UseWhole(victim, nb, bins0);
      PayloadsToBlocks(s0, Blocks(s0), lo1, hi1, lo, hi, {victim});
      KeptTrans(Blocks(s0), old(lo), old(hi), lo1, hi1, lo, hi);
    }

    lemma SmallLast(nb: int, idx: int)
      requires HeapOk() && LegalSize(nb) && InSmallbinRange(nb) && idx == BinIndex(nb) && 2 <= idx < NBINS
        && bins[idx] != []
      ensures var v := bins[idx][|bins[idx]| - 1]; v in s.size && s.size[v] == nb
    {
      hide BinIndex;
      SmallbinSize(s, binsBase, bins, idx, |bins[idx]| - 1, nb);
    }

    lemma FastIndexRange(nb: int, mf: int)
      requires LegalSize(nb) && nb <= mf <= FAST_LIMIT + 3
      ensures 0 <= FastbinIndex(nb) <= 7
    {
    }

    lemma SameFastSize(a: int, b: int)
      requires LegalSize(a) && LegalSize(b) && FastbinIndex(a) == FastbinIndex(b)
      ensures a == b
    {
    }

    /** A chunk from the bins above idx, by best fit. */
    method TakeAbove(idx: int, nb: int) returns (victim: int, ghost fit: int)
      requires HeapOk() && FastInv(s, fast, fastbins, lo) && |bins| == NBINS && bins[1] == []
      requires LegalSize(nb) && idx == BinIndex(nb) && 2 <= idx < NBINS && NoFitBelow(s, nb, idx + 1)
      modifies `lo, `hi, `s, `bins, `binmap, `lastRemainder
      ensures HeapOk() && FastInv(s, fast, fastbins, lo) && |bins| == NBINS
      ensures victim == 0 ==>
        s == old(s) && bins == old(bins) && NothingFits(s, nb) && lastRemainder == old(lastRemainder)
      ensures victim != 0 ==> Gave(old(s), s, victim, nb) && BestFitTaken(s, victim, nb, fit)
      ensures victim != 0 ==> SmallestFit(old(s), victim, nb) && fit == old(s).size[victim]
      ensures victim != 0 ==>
        lastRemainder == if InSmallbinRange(nb) && fit >= nb + MINSIZE then victim + nb else old(lastRemainder)
      ensures BlocksKept(Blocks(old(s)), old(lo), old(hi), lo, hi)
    {
      hide BinIndex, HeapInv, FastInv, MapCovers, Held, BlocksKept, PayloadsKept, Aligned, NoFitBelow, SmallestFit,
        NothingFits, Region;
      KeptRefl(Blocks(s), lo, hi);
      fit := 0;
      var bin;
      ghost var b;
      bin, b := SearchBins(idx, nb);
      if bin == 0 {
        NothingLeft(nb);
        return 0, 0;
      }
      BestAbove(nb, idx, b);
      LastOf(b);
      LastNode(b);
      ghost var bins0 := bins;
      assert hi[bin + 8] == bins[b][|bins[b]| - 1];
      var size := ChunkSize(hi[hi[bin + 8]]);
      victim := RemoveLast(bin, b);
      RelinkKeepsFastInv(s, binsBase, bins0, fast, fastbins, old(lo), old(hi), lo, hi);
      HeldBins(s, binsBase, bins0, bins, lo, hi, victim);
      ghost var lo1, hi1 := lo, hi;
      var split := Carve(victim, size, nb, bins0);
      if split && InSmallbinRange(nb) { lastRemainder := victim + nb; }
      KeptTrans(Blocks(old(s)), old(lo), old(hi), lo1, hi1, lo, hi);
      fit := size;
    }

    lemma NothingLeft(nb: int)
      requires HeapOk() && |bins| == NBINS && NoFitBelow(s, nb, NBINS)
      ensures NothingFits(s, nb)
    {
      NoneFits(s, bins, nb);
    }

    /** The last chunk of the lowest non-empty bin above the own one is a best fit. */
    lemma BestAbove(nb: int, idx: int, b: int)
      requires HeapOk() && |bins| == NBINS && bins[1] == [] && LegalSize(nb) && idx == BinIndex(nb) && idx < b < NBINS
        && 2 <= idx
      requires bins[b] != [] && NoFitBelow(s, nb, b)
      ensures SmallestFit(s, bins[b][|bins[b]| - 1], nb)
    {
      hide BinIndex;
      var k := |bins[b]| - 1;
      assert Entry(s, bins, b, k);
      BinOfSize(s, bins, bins[b][k]);
      LaterBinFits(nb, s.size[bins[b][k]]);
      LowestBinBest(s, binsBase, bins, nb, b, k);
    }

    /** malloc from the fastbin check down to `use_top:`. */
    method Search(nb: int) returns (chosen: int, ghost how: Choice, ghost at: Situation)
      requires Live() && HaveAnychunks(maxFast) && LegalSize(nb) && |bins| == NBINS
      modifies `lo, `hi, `s, `bins, `binmap, `lastRemainder, `top, `fast, `fastbins, `maxFast, `trimThreshold, `topPad
      ensures Live() && |bins| == NBINS && HaveAnychunks(maxFast)
      ensures chosen == 0 && HaveFastchunks(maxFast) ==> HaveFastchunks(old(maxFast)) && InSmallbinRange(nb)
      ensures chosen == 0 ==> Blocks(s) == Blocks(old(s)) && NothingFits(s, nb) && lastRemainder == old(lastRemainder)
      ensures chosen != 0 ==> Gave(old(s), s, chosen, nb) && Chosen(old(lastRemainder), s, chosen, nb, how)
      ensures BlocksKept(Blocks(old(s)), old(lo), old(hi), lo, hi)
      // large requests have what is parked consolidated first; then each kind of chunk
      // has its turn
      ensures if HaveFastchunks(old(maxFast)) && !InSmallbinRange(nb) then Consolidated(old(Now()), at)
              else at == old(Now())
      ensures if chosen == 0 then NothingServes(at, nb) && AllBinned(at, Now()) && !FastDue(old(Now()), nb)
              else Served(at, nb, chosen, how) && how != FromTop
      ensures chosen != 0 ==> lastRemainder == RemainderAfter(at, nb, chosen, how)
    {
      hide BinIndex, HeapInv, FastInv, MapCovers, BlocksKept, PayloadsKept, Aligned, NoFitBelow, NothingFits, HeapOk,
        BestFitTaken, SmallestFit, SameChunks, AnyExact, RemainderDue, Consolidated, Blocks;
      BinIndexInRange(nb);
      KeptRefl(Blocks(s), lo, hi);
      at := Now();
      FastDueIs(nb);
      chosen := TakeFast(nb);
      if chosen != 0 { return chosen, FromFastbin, at; }
      var idx;
      if InSmallbinRange(nb) {
        idx := SmallbinIndex(nb);
        SmallIs(nb);
        chosen := TakeSmall(nb);
        if chosen != 0 { return chosen, FromSmallbin, at; }
      } else {
        idx := LargebinIndex(nb);
        LargeIs(nb);
        if HaveFastchunks(maxFast) {
          LiveLayout();
          MallocConsolidate();
          HeapBins();
          NowConsolidated(at);
          at := Now();
        }
      }
      ghost var lo1, hi1 := lo, hi;
      NoneDue(nb, idx);
      chosen, how := SearchRest(idx, nb);
      KeptTrans(Blocks(old(s)), old(lo), old(hi), lo1, hi1, lo, hi);
    }

    lemma NoneDue(nb: int, idx: int)
      requires Live() && |bins| == NBINS && LegalSize(nb) && idx == BinIndex(nb) && 2 <= idx < NBINS
      requires nb <= FAST_LIMIT ==>
        |fast| == NFASTBINS && 0 <= FastbinIndex(nb) < NFASTBINS && fast[FastbinIndex(nb)] == []
      requires InSmallbinRange(nb) ==> bins[idx] == []
      ensures !FastDue(Now(), nb) && !SmallDue(Now(), nb)
    {
      hide HeapInv, FastInv, MapCovers, BinIndex;
    }

    /** From the unsorted bin on. */
    method SearchRest(idx: int, nb: int) returns (chosen: int, ghost how: Choice)
      requires HeapOk() && FastInv(s, fast, fastbins, lo) && |bins| == NBINS
      requires LegalSize(nb) && idx == BinIndex(nb) && 2 <= idx < NBINS && !FastDue(Now(), nb) && !SmallDue(Now(), nb)
      requires InSmallbinRange(nb) ==> bins[idx] == []
      modifies `lo, `hi, `s, `bins, `binmap, `lastRemainder
      ensures HeapOk() && FastInv(s, fast, fastbins, lo) && |bins| == NBINS
      ensures chosen == 0 ==> Blocks(s) == Blocks(old(s)) && NothingFits(s, nb) && lastRemainder == old(lastRemainder)
      ensures chosen != 0 ==> Gave(old(s), s, chosen, nb) && Chosen(old(lastRemainder), s, chosen, nb, how)
      ensures BlocksKept(Blocks(old(s)), old(lo), old(hi), lo, hi)
      ensures if chosen == 0 then NothingServes(old(Now()), nb) && AllBinned(old(Now()), Now())
              else Served(old(Now()), nb, chosen, how) && how != FromTop
      ensures chosen != 0 ==> lastRemainder == RemainderAfter(old(Now()), nb, chosen, how)
    {
      hide BinIndex, HeapInv, FastInv, BlocksKept, Aligned, NoFitBelow, NothingFits, HeapOk, BestFitTaken, SmallestFit,
        AnyExact, RemainderDue, FastDue, SmallDue, Gave, Chosen, SizeAt, ExactDue;
      ghost var v := Now();
      chosen, how := ProcessUnsorted(nb);
      if chosen != 0 { return; }
      ghost var s1, lo1, hi1 := s, lo, hi;
      SameFits(v.s, s, nb);
      SameSizes(v.s, s);
      chosen, how := ScanAndTake(idx, nb);
      KeptTrans(Blocks(old(s)), old(lo), old(hi), lo1, hi1, lo, hi);
      if chosen != 0 {
        FitServed(v.s, chosen, nb);
        GaveSame(v.s, s1, s, chosen, nb, how);
      }
    }

    lemma GaveSame(s0: Shape, s1: Shape, s2: Shape, p: int, nb: int, how: Choice)
      requires Blocks(s1) == Blocks(s0) && Gave(s1, s2, p, nb) && how.FromBin? && BestFitTaken(s2, p, nb, how.fit)
      ensures Gave(s0, s2, p, nb) && forall r {:trigger Chosen(r, s2, p, nb, how)} :: Chosen(r, s2, p, nb, how)
    {
    }

    lemma FastDueIs(nb: int)
      requires Live() && LegalSize(nb) && HaveAnychunks(maxFast)
      ensures FastDue(Now(), nb) <==>
        nb <= FAST_LIMIT && |fast| == NFASTBINS && 0 <= FastbinIndex(nb) < NFASTBINS && fast[FastbinIndex(nb)] != []
      ensures nb <= FAST_LIMIT ==> |fast| == NFASTBINS && 0 <= FastbinIndex(nb) < NFASTBINS
    {
      FastHead(nb);
    }

    lemma NowConsolidated(v: Situation)
      requires Live() && !HaveFastchunks(maxFast) && Blocks(s) == Blocks(v.s) && lastRemainder == v.lastRemainder
      ensures Consolidated(v, Now())
    {
      hide HeapInv, FastInv, MapCovers;
      LiveShape();
      NothingParked();
    }

    /** The two scans by best fit, once the unsorted bin is empty. */
    method ScanAndTake(idx: int, nb: int) returns (chosen: int, ghost how: Choice)
      requires HeapOk() && FastInv(s, fast, fastbins, lo) && |bins| == NBINS && bins[1] == []
      requires LegalSize(nb) && idx == BinIndex(nb) && 2 <= idx < NBINS
      requires InSmallbinRange(nb) ==> bins[idx] == []
      modifies `lo, `hi, `s, `bins, `binmap, `lastRemainder
      ensures HeapOk() && FastInv(s, fast, fastbins, lo) && |bins| == NBINS
      ensures chosen == 0 ==>
        Blocks(s) == Blocks(old(s)) && NothingFits(s, nb) && lastRemainder == old(lastRemainder) && s == old(s)
      ensures chosen != 0 ==> Gave(old(s), s, chosen, nb) && how.FromBin? && BestFitTaken(s, chosen, nb, how.fit)
      ensures chosen != 0 ==> SmallestFit(old(s), chosen, nb) && how.fit == old(s).size[chosen]
      ensures chosen != 0 ==>
        lastRemainder == if InSmallbinRange(nb) && how.fit >= nb + MINSIZE then chosen + nb else old(lastRemainder)
      ensures BlocksKept(Blocks(old(s)), old(lo), old(hi), lo, hi)
    {
      hide BinIndex, HeapInv, FastInv, BlocksKept, Aligned, NoFitBelow, NothingFits, HeapOk, BestFitTaken;
      KeptRefl(Blocks(s), lo, hi);
      ghost var fit;
      how := Refused;
      OwnBinStart(nb);
      if !InSmallbinRange(nb) {
        chosen, fit := ScanOwnBin(idx, nb);
        if chosen != 0 { return chosen, FromBin(fit); }
      } else {
        PassOwnBin(nb, idx);
      }
      ghost var lo1, hi1 := lo, hi;
      chosen, fit := TakeAbove(idx, nb);
      KeptTrans(Blocks(old(s)), old(lo), old(hi), lo1, hi1, lo, hi);
      how := FromBin(fit);
    }

    lemma LiveLayout()
      requires Live()
      ensures Layout()
    {
    }

    /** Why malloc may fail: sbrk refuses what is missing beyond top, page-rounded,
        and nothing is parked that could help. */
    ghost predicate Exhausted(nb: int)
      requires Layout() && (Empty() || Live())
      reads this
    {
      && NothingFits(s, nb) && PageUp(nb + MINSIZE - TopSize()) > memHeapEnd - curptr
      && (HaveFastchunks(maxFast) ==> nb >= WORD / 2)
    }

    /** So a refusal means that the whole memory is taken: by the blocks in use, holes
        smaller than the request, one per block, and the request itself. */
    lemma RefusedWhenFull(nb: int)
      requires Layout() && (Empty() || Live()) && LegalSize(nb) && Exhausted(nb)
      ensures Blocks(s).Keys <= s.size.Keys
      ensures memHeapEnd - memHeap < Weight(s.size, Blocks(s).Keys) + (|Blocks(s)| + 2) * nb + MINSIZE + PAGESIZE
    {
      hide Aligned, BinIndex, Weight, HeapInv, NothingFits, MapCovers;
      var n := |Blocks(s)|;
      OneMoreHole(n + 1, nb);
      OneMoreHole(n, nb);
      EmptyOrLive();
      if Bare() {
        assert Blocks(s) == map[];
        NothingWeighs(s.size, []);
        assert n * nb == 0 by { assert n == 0; }
      } else {
        LiveShape();
        TopFacts();
        assert 0 <= n * nb by { OneMoreHole(n, nb); HoleSum(n, nb); }
        WeightPositive(s, Blocks(s).Keys);
        if nb < WORD / 2 {
          NothingParked();
          Holes(s, nb);
        }
      }
    }

    lemma HoleSum(n: nat, nb: int)
      requires nb >= 0
      ensures n * nb >= 0
    {
    }

    lemma LiveShape()
      requires Live()
      ensures Tiled(s) && Coalesced(s) && s.base == memHeap && s.end == curptr && HeapOk() && !Bare()
    {
      hide Aligned, BinIndex;
      EmptyOrLive();
      Inside(s, s.top);
    }

    lemma NothingParked()
      requires Live() && !HaveFastchunks(maxFast)
      ensures forall y {:trigger s.st[y]} :: y in s.st ==> s.st[y] != Fast
    {
      hide HeapInv, BinIndex, Aligned, MapCovers;
      forall y | y in s.st ensures s.st[y] != Fast {
        if s.st[y] == Fast { Parked(s, fast, y); }
      }
    }

    /** The only reasons to refuse a request. */
    ghost predicate OutOfMemory(bytes: nat)
      reads this
    {
      RequestOutOfRange(bytes) || (Layout() && (Empty() || Live()) && Exhausted(Request2Size(bytes)))
    }

    /** sYSMALLOc: top has not enough room for nb bytes. */
    method Sysmalloc(nb: int) returns (p: int, ghost how: Choice, ghost at: Situation)
      requires Layout() && (Empty() || Live()) && LegalSize(nb) && nb <= WORD - 24
      requires NothingFits(s, nb) && TopSize() < nb + MINSIZE
      requires HaveFastchunks(maxFast) ==> InSmallbinRange(nb)
      modifies this
      ensures Valid()
      ensures p != 0 ==> Live() && Gave(old(s), s, p, nb) && Chosen(old(lastRemainder), s, p, nb, how)
      ensures p == 0 ==> (Empty() || Live()) && Blocks(s) == Blocks(old(s)) && Exhausted(nb)
      ensures BlocksKept(Blocks(old(s)), old(lo), old(hi), lo, hi)
      // what is parked is consolidated, and the request served anew; or top grows
      ensures if old(HaveFastchunks(maxFast)) then
                Consolidated(old(Now()), at) && (if p != 0 then Served(at, nb, p, how) else NothingServes(at, nb))
              else at == old(Now()) && (p != 0 ==> how == FromTop && p == at.top)
      ensures lastRemainder == if p == 0 then old(lastRemainder) else RemainderAfter(at, nb, p, how)
      ensures curptr == if p == 0 then old(curptr) else BreakAfter(at, old(curptr), nb, how)
      decreases if HaveFastchunks(maxFast) then 1 else 0, 0
    {
      hide HeapInv, FastInv, BlocksKept, PageUp, Request2Size, BestFitTaken, NothingFits, Served, Consolidated;
      at := Now();
      if HaveFastchunks(maxFast) {
        assert InSmallbinRange(nb);
        MallocConsolidate();
        NowConsolidated(at);
        ghost var lo1, hi1 := lo, hi;
        RetryAsksForSameSize(nb);
        var mem;
        mem, how, at := Malloc(nb - 7);
        KeptTrans(Blocks(old(s)), old(lo), old(hi), lo1, hi1, lo, hi);
        return if mem == 0 then 0 else mem - 8, how, at;
      }
      TopNow();
      var got := Extend(nb);
      if !got { return 0, Refused, at; }
      ghost var lo1, hi1 := lo, hi;
      p := UseTop(nb);
      KeptTrans(Blocks(old(s)), old(lo), old(hi), lo1, hi1, lo, hi);
      how := FromTop;
      BlockAbove(p);
    }

    lemma SomeTop(size: int)
      requires LegalSize(size)
      ensures size != 0
    {
    }

    /** Where the break is after a request: sbrk is asked for no more than what is
        missing, up to a page. */
    ghost function BreakAfter(v: Situation, brk: int, nb: int, how: Choice): int {
      if how != FromTop || v.topSize >= nb + MINSIZE then brk
      else if v.topSize == 0 then PageUp(memHeap + PageUp(nb + MINSIZE))
      else brk + PageUp(nb + MINSIZE - v.topSize)
    }

    /** Get memory from sbrk.  The source branches on brk == old_end after the
        call; FirstTop and ExtendTop show that this fails exactly the first time,
        when top is still initial_top. */
    method Extend(nb: int) returns (got: bool)
      requires Layout() && (Empty() || Live()) && LegalSize(nb) && nb <= WORD - 24
      requires NothingFits(s, nb) && TopSize() < nb + MINSIZE && !HaveFastchunks(maxFast)
      modifies `hi, `top, `s, `curptr, `sbrkedMem, `maxSbrkedMem, `maxTotalMem
      ensures Layout() && (Empty() || Live()) && Blocks(s) == Blocks(old(s))
      ensures if got then Live() && nb + MINSIZE <= s.size[s.top] && NothingFits(s, nb) else Exhausted(nb)
      ensures got ==> s.top == old(Now()).top
      ensures curptr == if got then BreakAfter(old(Now()), old(curptr), nb, FromTop) else old(curptr)
      ensures BlocksKept(Blocks(old(s)), old(lo), old(hi), lo, hi)
    {
      hide HeapInv, FastInv, PageUp, HeapOk, NothingFits, NothingListed;
      EmptyOrLive();
      TopNow();
      if top == Header(binsBase, 1) {
        got := FirstTop(nb);
      } else {
        LiveLayout();
        TopFacts();
        SomeTop(s.size[s.top]);
        got := ExtendTop(nb);
        LiveLayout();
        EmptyOrLive();
      }
    }

    /** initial_top tells the two initialised phases apart. */
    lemma EmptyOrLive()
      requires Layout() && (Empty() || Live())
      ensures Bare() <==> top == Header(binsBase, 1)
      ensures Bare() ==> Empty() && Blocks(s) == map[]
      ensures !Bare() ==> Live()
    {
      if Live() { Inside(s, s.top); }
    }

    lemma BlockAbove(p: int)
      requires Live() && p in Blocks(s)
      ensures p > 0 && p in s.size && Aligned(p)
    {
      Inside(s, p);
    }

    /** From `use_top:` on. */
    method UseTopOrSystem(nb: int) returns (p: int, ghost how: Choice, ghost at: Situation)
      requires Layout() && (Empty() || Live()) && LegalSize(nb) && nb <= WORD - 24
      requires NothingFits(s, nb)
      requires HaveFastchunks(maxFast) ==> InSmallbinRange(nb)
      modifies this
      ensures Valid()
      ensures p != 0 ==> Live() && Gave(old(s), s, p, nb) && Chosen(old(lastRemainder), s, p, nb, how)
      ensures p == 0 ==> (Empty() || Live()) && Blocks(s) == Blocks(old(s)) && Exhausted(nb)
      ensures BlocksKept(Blocks(old(s)), old(lo), old(hi), lo, hi)
      ensures if old(HaveFastchunks(maxFast)) && old(Now()).topSize < nb + MINSIZE then
                Consolidated(old(Now()), at) && (if p != 0 then Served(at, nb, p, how) else NothingServes(at, nb))
              else at == old(Now()) && (p != 0 ==> how == FromTop && p == at.top)
      ensures lastRemainder == if p == 0 then old(lastRemainder) else RemainderAfter(at, nb, p, how)
      ensures curptr == if p == 0 then old(curptr) else BreakAfter(at, old(curptr), nb, how)
      decreases if HaveFastchunks(maxFast) then 1 else 0, 1
    {
      hide HeapInv, FastInv, BlocksKept, PageUp, BestFitTaken, NothingFits, Served, Consolidated;
      EmptyOrLive();
      TopWord();
      TopNow();
      at := Now();
      var size := ChunkSize(hi[top]);
      if size >= nb + MINSIZE {
        p := UseTop(nb);
        how := FromTop;
        BlockAbove(p);
        return;
      }
      p, how, at := Sysmalloc(nb);
    }

    lemma TopNow()
      requires Layout() && (Empty() || Live())
      ensures Now().topSize == TopSize() && Now().top == if Bare() then memHeap else s.top
    {
      hide HeapInv, FastInv, MapCovers, FlagsOk, Rings;
      EmptyOrLive();
      if !Bare() { LiveShape(); }
    }

    /** chunksize(av->top) */
    lemma TopWord()
      requires Layout() && (Empty() || Live())
      ensures 0 <= top < |hi| && ChunkSize(hi[top]) == TopSize()
    {
      EmptyOrLive();
      if !Bare() { TopFacts(); }
    }

    /** malloc(bytes) */
    method Malloc(bytes: int) returns (mem: int, ghost how: Choice, ghost at: Situation)
      requires Valid() && 0 <= bytes < WORD
      modifies this
      ensures Valid()
      ensures mem != 0 ==>
        mem > 8 && Live() && !RequestOutOfRange(bytes) && Gave(old(s), s, mem - 8, Request2Size(bytes))
      ensures mem != 0 ==> Chosen(old(lastRemainder), s, mem - 8, Request2Size(bytes), how)
      ensures mem == 0 ==> Blocks(s) == Blocks(old(s))
      ensures mem == 0 && !RequestOutOfRange(bytes) ==> (Empty() || Live()) && Exhausted(Request2Size(bytes))
      ensures BlocksKept(Blocks(old(s)), old(lo), old(hi), lo, hi)
      // which chunk it is, in the heap as it was or, when that was due, consolidated
      ensures !RequestOutOfRange(bytes) ==>
        if ConsolidationDue(old(Now()), Request2Size(bytes)) then Consolidated(old(Now()), at) else at == old(Now())
      ensures mem != 0 ==> Served(at, Request2Size(bytes), mem - 8, how)
      ensures mem == 0 && !RequestOutOfRange(bytes) ==> NothingServes(at, Request2Size(bytes))
      ensures lastRemainder ==
        if mem == 0 then old(lastRemainder) else RemainderAfter(at, Request2Size(bytes), mem - 8, how)
      ensures curptr == if mem == 0 then old(curptr) else BreakAfter(at, old(curptr), Request2Size(bytes), how)
      decreases if HaveFastchunks(maxFast) then 1 else 0, 3
    {
      hide HeapInv, FastInv, BlocksKept, PageUp, BestFitTaken, NothingFits, Request2Size, Exhausted, Served,
        Consolidated, ConsolidationDue, RemainderAfter;
      KeptRefl(Blocks(s), lo, hi);
      at := Now();
      if RequestOutOfRange(bytes) { return 0, Refused, at; }
      var nb := Request2Size(bytes);
      NbRange(bytes);
      var p;
      if !HaveAnychunks(maxFast) {
        // nothing was freed so far
        if maxFast == 0 { MallocConsolidate(); }
        assert Now() == at;
        ghost var lo1, hi1 := lo, hi;
        p, how, at := ServeFresh(nb);
        KeptTrans(Blocks(old(s)), old(lo), old(hi), lo1, hi1, lo, hi);
      } else {
        p, how, at := ServeSearched(nb);
      }
      if p != 0 { BlockAbove(p); }
      mem := if p == 0 then 0 else p + 8;
    }

    method ServeFresh(nb: int) returns (p: int, ghost how: Choice, ghost at: Situation)
      requires Layout() && (Empty() || Live()) && !HaveAnychunks(maxFast) && LegalSize(nb) && nb <= WORD - 24
      modifies this
      ensures Valid()
      ensures p != 0 ==> Live() && Gave(old(s), s, p, nb) && Chosen(old(lastRemainder), s, p, nb, how)
      ensures p == 0 ==> (Empty() || Live()) && Blocks(s) == Blocks(old(s)) && Exhausted(nb)
      ensures BlocksKept(Blocks(old(s)), old(lo), old(hi), lo, hi)
      ensures at == old(Now()) && !ConsolidationDue(at, nb)
      ensures if p != 0 then Served(at, nb, p, how) else NothingServes(at, nb)
      ensures lastRemainder == if p == 0 then old(lastRemainder) else RemainderAfter(at, nb, p, how)
      ensures curptr == if p == 0 then old(curptr) else BreakAfter(at, old(curptr), nb, how)
      decreases if HaveFastchunks(maxFast) then 1 else 0, 2
    {
      hide HeapInv, FastInv, BlocksKept, PageUp, BestFitTaken, NothingFits, Exhausted, Consolidated, Chosen, Gave;
      NoChunksFit(nb);
      NothingFree(nb);
      p, how, at := UseTopOrSystem(nb);
    }

    method ServeSearched(nb: int) returns (p: int, ghost how: Choice, ghost at: Situation)
      requires Live() && HaveAnychunks(maxFast) && LegalSize(nb) && nb <= WORD - 24
      modifies this
      ensures Valid()
      ensures p != 0 ==> Live() && Gave(old(s), s, p, nb) && Chosen(old(lastRemainder), s, p, nb, how)
      ensures p == 0 ==> (Empty() || Live()) && Blocks(s) == Blocks(old(s)) && Exhausted(nb)
      ensures BlocksKept(Blocks(old(s)), old(lo), old(hi), lo, hi)
      ensures if ConsolidationDue(old(Now()), nb) then Consolidated(old(Now()), at) else at == old(Now())
      ensures if p != 0 then Served(at, nb, p, how) else NothingServes(at, nb)
      ensures lastRemainder == if p == 0 then old(lastRemainder) else RemainderAfter(at, nb, p, how)
      ensures curptr == if p == 0 then old(curptr) else BreakAfter(at, old(curptr), nb, how)
      decreases if HaveFastchunks(maxFast) then 1 else 0, 2
    {
      hide HeapInv, FastInv, BlocksKept, PageUp, BestFitTaken, NothingFits, Exhausted, SameChunks, SmallestFit,
        AnyExact, RemainderDue, FastDue, SmallDue, RemainderAfter, Served, Consolidated, AllBinned, ConsolidationDue,
        NothingServes, Chosen, Aligned, Blocks, Layout;
      LiveLayout();
      HeapBins();
      ghost var v0 := Now();
      p, how, at := Search(nb);
      LiveLayout();
      if p == 0 {
        ghost var lo1, hi1, v1 := lo, hi, Now();
        ghost var at2;
        p, how, at2 := UseTopOrSystem(nb);
        KeptTrans(Blocks(old(s)), old(lo), old(hi), lo1, hi1, lo, hi);
        TopServed(v0, at, v1, at2, nb, p, how);
        at := if v1.parked && v1.topSize < nb + MINSIZE then at2 else at;
      } else {
        SearchServed(v0, at, nb, p, how);
      }
    }

    lemma NbRange(bytes: int)
      requires 0 <= bytes && !RequestOutOfRange(bytes)
      ensures LegalSize(Request2Size(bytes)) && Request2Size(bytes) <= WORD - 24
    {
    }

    lemma NothingFree(nb: int)
      requires Layout() && (Empty() || Live()) && !HaveAnychunks(maxFast) && NothingFits(s, nb) && nb >= 0
      ensures NothingServes(Now(), nb) && !Now().parked
    {
      hide HeapInv, FastInv, MapCovers, NothingFits, BinIndex;
      EmptyOrLive();
    }

    /** ANYCHUNKS_BIT clear: there is no free chunk at all. */
    lemma NoChunksFit(nb: int)
      requires (Empty() || Live()) && !HaveAnychunks(maxFast)
      ensures NothingFits(s, nb)
    {
      if Live() {
        EmptyBinsFitNothing(s, bins, nb);
      } else {
        forall x ensures !Fits(s, x, nb) { }
      }
    }

    /** What was parked last is what is handed out first. */
    method ReuseParked(mem: int, bytes: int) returns (again: int)
      requires Valid() && mem - 8 in Blocks(s) && 0 <= bytes && !RequestOutOfRange(bytes)
      requires Blocks(s)[mem - 8] == Request2Size(bytes) <= FAST_LIMIT
      modifies this
      ensures Valid() && again == mem && Blocks(s).Keys == Blocks(old(s)).Keys
    {
      hide HeapInv, FastInv, BlocksKept, Aligned, Region, Request2Size, FreeRun, Freed, Consolidated, FlagsOk, AnyExact,
        RemainderDue, SmallDue;
      ghost var s0 := s;
      BlockOfLive(mem - 8);
      BlockSizes(mem - 8, mem - 8);
      var _, _ := Free(mem);
      assert FastDue(Now(), Request2Size(bytes)) && fast[FastbinIndex(Request2Size(bytes))][0] == mem - 8;
      ghost var how, at;
      again, how, at := Malloc(bytes);
    }

    // ----- free -----

    /** sYSTRIm: this sbrk refuses to shrink, so nothing is ever released. */
    method Systrim(pad: int) returns (released: int)
      requires HeapOk() && 0 <= pad && pad + MINSIZE <= s.size[s.top]
      modifies `curptr
      ensures curptr == old(curptr) && released == 0
    {
      hide HeapInv, Aligned;
      TopFacts();
      released := 0;
      var topSize := ChunkSize(hi[top]);
      var extra := ((topSize - pad - MINSIZE + (PAGESIZE - 1)) / PAGESIZE - 1) * PAGESIZE;
      if extra > 0 {
        var currentBrk := Sbrk(0);
        if currentBrk == top + topSize {
          var _ := Sbrk(-extra);
          var newBrk := Sbrk(0);
          if newBrk != -1 { released := currentBrk - newBrk; }
        }
      }
    }

    const FASTBIN_CONSOLIDATION_THRESHOLD := 128 * 1024

    /** The consolidating half of free. */
    method FreeSlow(p: int) returns (ghost f: int, ghost e: int)
      requires Live() && p in s.size && s.st[p] == Used
      modifies `lo, `hi, `bins, `top, `s, `maxFast, `fast, `fastbins, `curptr, `trimThreshold, `topPad
      ensures Live() && HaveAnychunks(maxFast)
      ensures Blocks(s) == Blocks(old(s)) - {p} && BlocksKept(Blocks(s), old(lo), old(hi), lo, hi)
      // p was fused with what was free around it; when that came to much, nothing
      // stays parked
      ensures FreeRun(old(s), f, e, p)
      ensures if e - f >= FASTBIN_CONSOLIDATION_THRESHOLD then !HaveFastchunks(maxFast)
              else Freed(old(s), s, p, f, e) && fast == old(fast)
                   && (e != old(s).end ==> |bins| == NBINS && bins[1] != [] && bins[1][0] == f)
    {
      hide HeapInv, FastInv, BlocksKept, Aligned, Region, Blocks, FreeRun, Merge;
      maxFast := SetAnychunks(maxFast);
      var size;
      size, f, e := ReleaseBlock(p, fastbins);
      if size >= FASTBIN_CONSOLIDATION_THRESHOLD {
        if HaveFastchunks(maxFast) {
          ghost var lo1, hi1 := lo, hi;
          LiveLayout();
          MallocConsolidate();
          KeptTrans(Blocks(s), old(lo), old(hi), lo1, hi1, lo, hi);
        }
        TopFacts();
        if ChunkSize(hi[top]) >= trimThreshold {
          TrimParams();
          var _ := Systrim(topPad);
        }
      }
    }

    lemma TrimParams()
      requires HeapOk()
      ensures trimThreshold == 256 * 1024 && topPad == 0
    {
    }

    /** free(mem) of null or of a block the user holds. */
    method Free(mem: int) returns (ghost f: int, ghost e: int)
      requires Valid() && (mem == 0 || mem - 8 in Blocks(s))
      modifies this
      ensures Valid() && Blocks(s) == Blocks(old(s)) - {mem - 8}
      ensures if mem == 0 then s == old(s) && lo == old(lo) && hi == old(hi) else Live() && HaveAnychunks(maxFast)
      ensures BlocksKept(Blocks(s), old(lo), old(hi), lo, hi) && lastRemainder == old(lastRemainder)
      // a small block is parked at the head of its fastbin
      ensures mem != 0 && Blocks(old(s))[mem - 8] <= FAST_LIMIT ==>
        ParkedAs(old(s), s, old(fast), fast, mem - 8) && bins == old(bins) && HaveFastchunks(maxFast)
      // any other is fused with what is free around it
      ensures mem != 0 && Blocks(old(s))[mem - 8] > FAST_LIMIT ==>
        FreeRun(old(s), f, e, mem - 8)
        && if e - f >= FASTBIN_CONSOLIDATION_THRESHOLD then !HaveFastchunks(maxFast)
           else Freed(old(s), s, mem - 8, f, e) && fast == old(fast)
                && (e != old(s).end ==> |bins| == NBINS && bins[1] != [] && bins[1][0] == f)
    {
      hide HeapInv, FastInv, BlocksKept, Aligned, Region, FreeRun, Freed, ParkedAs;
      f, e := 0, 0;
      if mem != 0 {
        var p := mem - 8;
        BlockOfLive(p);
        HeadOf(p);
        var size := ChunkSize(hi[p]);
        if size <= maxFast {
          SmallEnough(size);
          FreeFast(p);
        } else if !IsMmapped(hi[p]) {
          LargeEnough(size);
          f, e := FreeSlow(p);
        }
        LiveLayout();
      } else {
        NullIsNoBlock();
        KeptRefl(Blocks(s), lo, hi);
      }
    }

    lemma BlockOfLive(p: int)
      requires Valid() && p in Blocks(s)
      ensures Live() && p in s.size && s.st[p] == Used && p > 0 && Aligned(p)
    {
      Inside(s, p);
    }

    lemma LargeEnough(size: int)
      requires FlagsOk() && size > maxFast
      ensures size > FAST_LIMIT
    {
    }

    lemma SmallEnough(size: int)
      requires FlagsOk() && size <= maxFast && LegalSize(size)
      ensures size <= FAST_LIMIT
    {
    }

    lemma SomeBlockLive(q: int)
      requires Valid() && q in Blocks(s)
      ensures Live()
    {
    }

    lemma NullIsNoBlock()
      requires Valid()
      ensures -8 !in Blocks(s)
    {
      if -8 in Blocks(s) { BlockOfLive(-8); }
    }

    // ----- The owner's writes and the copy of realloc -----

    /** *(d + k) = *(s + k) */
    method CopyWord(p: int, q: int, k: nat, ghost lo0: seq<int>, ghost hi0: seq<int>)
      requires Live() && p in Blocks(s) && q in Blocks(s) && p != q
      requires k < UsableWords(Blocks(s)[p]) && k < UsableWords(Blocks(s)[q])
      requires CopyState(p, q, Blocks(s)[q], k, lo0, hi0, lo, hi)
      modifies `lo, `hi
      ensures Live() && CopyState(p, q, Blocks(s)[q], k + 1, lo0, hi0, lo, hi)
    {
      hide HeapInv, FastInv, Aligned, WordAt, MapCovers, SameWords;
      BlockApart(p, q);
      ghost var lo1, hi1 := lo, hi;
      if k % 2 == 0 {
        lo := lo[q + 8 + 4 * k := lo[p + 8 + 4 * k]];
      } else {
        hi := hi[q + 4 + 4 * k := hi[p + 4 + 4 * k]];
      }
      CopyOne(p, Blocks(s)[p], q, Blocks(s)[q], k, lo0, hi0, lo1, hi1, lo, hi);
      UserWriteStep(s, binsBase, bins, fast, fastbins, lo1, hi1, lo, hi, q);
    }

    lemma BlockApart(p: int, q: int)
      requires Live() && p in Blocks(s) && q in Blocks(s) && p != q
      ensures p in s.size && q in s.size && s.st[p] == Used && s.st[q] == Used
      ensures 0 < p && p + s.size[p] < |lo| == |hi| && 0 < q && q + s.size[q] < |lo|
      ensures p + s.size[p] <= q || q + s.size[q] <= p
      ensures LegalSize(s.size[p]) && LegalSize(s.size[q])
    {
      Inside(s, p);
      Inside(s, q);
      Inside(s, Next(s, p));
      Inside(s, Next(s, q));
      assert Apart(s, p, q) && Apart(s, q, p);
    }

    /** memcpy, or the unrolled copy of at most nine words: a payload is an odd
        number of words, at least three. */
    method CopyBlock(p: int, q: int)
      requires Live() && p in Blocks(s) && q in Blocks(s) && p != q && Blocks(s)[p] <= Blocks(s)[q]
      modifies `lo, `hi
      ensures Live() && CopyState(p, q, Blocks(s)[q], UsableWords(Blocks(s)[p]), old(lo), old(hi), lo, hi)
    {
      hide HeapInv, FastInv, Aligned, WordAt, MapCovers, CopyState, HeapOk, FlagsOk, Blocks;
      BlockApart(p, q);
      BlockSizes(p, q);
      CopyStart(p, q);
      ghost var lo0, hi0 := lo, hi;
      HeadOf(p);
      var copysize := ChunkSize(hi[p]) - SIZE_SZ;
      var ncopies := copysize / 4;
      UsableOdd(Blocks(s)[p]);
      if ncopies > 9 {
        var k := 0;
        while k < ncopies
          invariant 0 <= k <= ncopies && Live() && CopyState(p, q, Blocks(s)[q], k, lo0, hi0, lo, hi)
        {
          CopyWord(p, q, k, lo0, hi0);
          k := k + 1;
        }
      } else {
        CopyWord(p, q, 0, lo0, hi0);
        CopyWord(p, q, 1, lo0, hi0);
        CopyWord(p, q, 2, lo0, hi0);
        if ncopies > 4 {
          CopyWord(p, q, 3, lo0, hi0);
          CopyWord(p, q, 4, lo0, hi0);
          if ncopies > 6 {
            CopyWord(p, q, 5, lo0, hi0);
            CopyWord(p, q, 6, lo0, hi0);
            if ncopies > 8 {
              CopyWord(p, q, 7, lo0, hi0);
              CopyWord(p, q, 8, lo0, hi0);
            }
          }
        }
      }
    }

    /** When every block was freed and consolidated, the heap is one top chunk. */
    lemma NothingHeld()
      requires Live() && !HaveFastchunks(maxFast) && Blocks(s) == map[]
      ensures s.size == map[memHeap := sbrkedMem] && top == memHeap
    {
      hide Tags, Rings, Sorted, Listed, Complete, MapCovers;
      forall x | x in s.st
        ensures s.st[x] != Used && s.st[x] != Fast
      {
        assert x in s.size && x !in Blocks(s);
        if s.st[x] == Fast { Parked(s, fast, x); }
      }
      AllFreeIsTop(s);
    }

    lemma BlockSizes(p: int, q: int)
      requires Live() && p in Blocks(s) && q in Blocks(s)
      ensures p in s.size && q in s.size && Blocks(s)[p] == s.size[p] && Blocks(s)[q] == s.size[q]
      ensures LegalSize(s.size[p]) && LegalSize(s.size[q])
    {
      Inside(s, p);
      Inside(s, q);
    }

    lemma CopyStart(p: int, q: int)
      requires q in Blocks(s) && |lo| == |hi|
      ensures CopyState(p, q, Blocks(s)[q], 0, lo, hi, lo, hi)
    {
    }

    /** Copying into q changes no other block. */
    lemma CopySpares(q: int, lo0: seq<int>, hi0: seq<int>)
      requires Live() && q in Blocks(s) && PayloadOnly(q, Blocks(s)[q], lo0, hi0, lo, hi)
      ensures BlocksKept(Blocks(s) - {q}, lo0, hi0, lo, hi)
    {
      hide HeapInv, FastInv, Aligned, Blocks, HeapOk, FlagsOk;
      var others := Blocks(s) - {q};
      forall b | b in others
        ensures BlockKept(b, others[b], lo0, hi0, lo, hi)
      {
        BlockApart(b, q);
        BlockSizes(b, q);
      }
    }

    /** The run [p, p + newsize) belongs to the caller's block p, though its tags
        may still be those of two chunks. */
    ghost predicate Extended(p: int, newsize: int, bins0: seq<seq<int>>)
      reads this
    {
      Region() && FlagsOk() && FastInv(s, fast, fastbins, lo)
        && UsableRun(s, binsBase, bins0, bins, lo, hi, p, p + newsize)
    }

    lemma ExtendedRun(p: int, newsize: int, bins0: seq<seq<int>>)
      requires Extended(p, newsize, bins0)
      ensures Tiled(s) && p in s.size && p in s.st && s.st[p] == Used && p + newsize in s.size && s.size[p] <= newsize
      ensures 0 < p < p + newsize < |hi| && |lo| == |hi| && s.top != p
      ensures SetHeadSize(hi[p], newsize) == newsize + (hi[p] - s.size[p])
      ensures SetPrevInuse(hi[p + newsize]) == s.size[p + newsize] + 1
    {
      hide BinIndex, Aligned, Rings, Sorted, Listed, Coalesced, ClearOf;
      HeadWord(s, lo, hi, p);
      assert Apart(s, p, p + newsize) && ChunkOk(s, p);
      Inside(s, p);
      AfterTag(p + newsize);
    }

    lemma AfterTag(e: int)
      requires Layout() && Tiled(s) && Bounded(s, lo, hi) && Tags(s, lo, hi) && e in s.size
      ensures 0 <= e < |hi| && SetPrevInuse(hi[e]) == s.size[e] + 1
    {
      HeadWord(s, lo, hi, e);
      Inside(s, e);
      SizeWord(s.size[e], hi[e] == s.size[e] + 1);
    }

    /** set_head_size(p, newsize); set_inuse_bit_at_offset(p, newsize) */
    method FitWhole(p: int, newsize: int, ghost bins0: seq<seq<int>>)
      requires Extended(p, newsize, bins0)
      modifies `hi, `s
      ensures Live() && Blocks(s) == BlocksOutside(old(s), p, p + newsize)[p := newsize]
      ensures PayloadsKept(old(s), lo, old(hi), lo, hi, {})
    {
      hide BinIndex, Aligned, PayloadsKept, FastInv, HeapInv, UsableRun, MapCovers, Blocks, BlocksOutside, SetPrevInuse,
        SetHeadSize, Params, Merge, Tiled;
      ExtendedRun(p, newsize, bins0);
      FitFrame(p, newsize, bins0);
      ghost var hi0, e := hi, p + newsize;
      hi := hi[p := SetHeadSize(hi[p], newsize)];
      hi := hi[p + newsize := SetPrevInuse(hi[p + newsize])];
      UseRunStep(s, binsBase, bins0, bins, fast, fastbins, lo, hi0, p, e, hi);
      s := Merge(s, p, e, Used);
    }

    /** Fusing the run leaves the region and top alone. */
    lemma FitFrame(p: int, newsize: int, bins0: seq<seq<int>>)
      requires Extended(p, newsize, bins0)
      ensures s.size.Keys == s.st.Keys
      ensures var m := Merge(s, p, p + newsize, Used); m.base == s.base && m.end == s.end && m.top == s.top
    {
      assert ChunkOk(s, s.top);
    }

    /** The words common to what p was and what it is, and all other blocks, are kept. */
    ghost predicate Fitted(s0: Shape, lo0: seq<int>, hi0: seq<int>, lo1: seq<int>, hi1: seq<int>, p: int, newsize: int,
                           size: int) {
      && p in s0.size && BlocksKept(BlocksOutside(s0, p, p + newsize), lo0, hi0, lo1, hi1)
      && BlockKept(p, if size < s0.size[p] then size else s0.size[p], lo0, hi0, lo1, hi1)
    }

    lemma FittedWhole(s0: Shape, lo0: seq<int>, hi0: seq<int>, p: int, newsize: int)
      requires PayloadsKept(s0, lo0, hi0, lo, hi, {}) && p in s0.size && p in s0.st && s0.st[p] == Used
        && s0.size[p] <= newsize
      ensures Fitted(s0, lo0, hi0, lo, hi, p, newsize, newsize)
    {
      PayloadsToBlocks(s0, BlocksOutside(s0, p, p + newsize), lo0, hi0, lo, hi, {});
      assert Inuse(s0, p) && PayloadKept(s0, lo0, hi0, lo, hi, p);
    }

    /** First the whole run, then a cut that changes nothing but p and keeps p's
        first nb bytes. */
    lemma FittedCut(s0: Shape, s1: Shape, lo0: seq<int>, hi0: seq<int>, hi1: seq<int>, p: int, newsize: int, nb: int)
      requires PayloadsKept(s0, lo0, hi0, lo0, hi1, {}) && p in s0.size && p in s0.st && s0.st[p] == Used
      requires Blocks(s1) == BlocksOutside(s0, p, p + newsize)[p := newsize] && 0 < newsize
      requires PayloadsKept(s1, lo0, hi1, lo, hi, {p}) && BlockKept(p, nb, lo0, hi1, lo, hi)
      ensures Fitted(s0, lo0, hi0, lo, hi, p, newsize, nb)
    {
      hide BlockKept;
      var others := BlocksOutside(s0, p, p + newsize);
      PayloadsToBlocks(s0, others, lo0, hi0, lo0, hi1, {});
      forall q | q in others
        ensures q in Blocks(s1) && others[q] == s1.size[q] && q != p
      {
        assert Blocks(s1)[q] == others[q];
      }
      PayloadsToBlocks(s1, others, lo0, hi1, lo, hi, {p});
      KeptTrans(others, lo0, hi0, lo0, hi1, lo, hi);
      assert Inuse(s0, p) && PayloadKept(s0, lo0, hi0, lo0, hi1, p);
      KeptCommon(p, s0.size[p], nb, lo0, hi0, lo0, hi1, lo, hi);
    }

    lemma KeptCommon(p: int, a: int, b: int, lo0: seq<int>, hi0: seq<int>, lo1: seq<int>, hi1: seq<int>, lo2: seq<int>,
                     hi2: seq<int>)
      requires BlockKept(p, a, lo0, hi0, lo1, hi1) && BlockKept(p, b, lo1, hi1, lo2, hi2)
      ensures BlockKept(p, if b < a then b else a, lo0, hi0, lo2, hi2)
    {
    }

    /** set_head_size(p, nb); set_head(remainder, ...); set_inuse_bit_at_offset(...):
        the run becomes two used blocks. */
    method FitHeads(p: int, newsize: int, nb: int, ghost bins0: seq<seq<int>>) returns (remainder: int)
      requires Extended(p, newsize, bins0) && LegalSize(nb) && nb + MINSIZE <= newsize
      modifies `hi, `s
      ensures Live() && remainder == p + nb && remainder != p
      ensures Blocks(s) == BlocksOutside(old(s), p, p + newsize)[p := nb][p + nb := newsize - nb]
      ensures p !in BlocksOutside(old(s), p, p + newsize) && p + nb !in BlocksOutside(old(s), p, p + newsize)
      ensures Fitted(old(s), old(lo), old(hi), lo, hi, p, newsize, nb)
    {
      hide BinIndex, Aligned, PayloadsKept, FastInv, HeapInv, UsableRun, MapCovers, Blocks, BlocksOutside, SetPrevInuse,
        SetHeadSize, Params, Merge, Tiled, Split, Fitted, BlockKept;
      ExtendedRun(p, newsize, bins0);
      FitFrame(p, newsize, bins0);
      ghost var s0, hi0, e := s, hi, p + newsize;
      remainder := p + nb;
      var remainderSize := newsize - nb;
      hi := hi[p := SetHeadSize(hi[p], nb)];
      hi := hi[remainder := remainderSize + 1];
      hi := hi[remainder + remainderSize := SetPrevInuse(hi[remainder + remainderSize])];
      ghost var hi1 := hi0[p := newsize + (hi0[p] - s.size[p])][e := s.size[e] + 1];
      UseRunStep(s, binsBase, bins0, bins, fast, fastbins, lo, hi0, p, e, hi1);
      ghost var s1 := Merge(s, p, e, Used);
      MergedFirst(s, p, e);
      assert hi == hi1[p := nb + (hi1[p] - s1.size[p])][p + nb := s1.size[p] - nb + 1] by {
        HeadSizes(hi0[p], newsize, nb);
      }
      CutBlockStep(s1, binsBase, bins, fast, fastbins, lo, hi1, p, nb, hi);
      SplitFrame(s1, p, nb);
      s := Split(s1, p, nb, Used, Used);
      FittedCut(s0, s1, lo, hi0, hi1, p, newsize, nb);
      NotOutside(s0, p, newsize, nb);
    }

    lemma NotOutside(sh: Shape, p: int, newsize: int, k: int)
      requires 0 <= k < newsize
      ensures p !in BlocksOutside(sh, p, p + newsize) && p + k !in BlocksOutside(sh, p, p + newsize)
    {
    }

    lemma HeadSizes(word: int, a: int, b: int)
      ensures SetHeadSize(word, a) - a == SetHeadSize(word, b) - b
    {
    }

    lemma MergedFirst(sh: Shape, p: int, e: int)
      requires sh.size.Keys == sh.st.Keys && p in sh.size && p < e
      ensures var m := Merge(sh, p, e, Used);
        p in m.size && m.size[p] == e - p && p in m.st && m.st[p] == Used && m.size.Keys == m.st.Keys
    {
    }

    lemma SplitFrame(sh: Shape, p: int, nb: int)
      requires p in sh.size && p != sh.top
      ensures var m := Split(sh, p, nb, Used, Used); m.base == sh.base && m.end == sh.end && m.top == sh.top
    {
    }

    /** Free extra space in the old or extended chunk, if possible. */
    method FitBlock(p: int, newsize: int, nb: int, ghost bins0: seq<seq<int>>)
      requires Extended(p, newsize, bins0) && LegalSize(nb) && nb <= newsize
      modifies this
      ensures Live() && p in Blocks(s) && nb <= Blocks(s)[p] < nb + MINSIZE && Blocks(s)[p] == FitSize(newsize, nb)
      ensures Blocks(s) == BlocksOutside(old(s), p, p + newsize)[p := Blocks(s)[p]]
      ensures Fitted(old(s), old(lo), old(hi), lo, hi, p, newsize, Blocks(s)[p]) && lastRemainder == old(lastRemainder)
    {
      hide BinIndex, Aligned, PayloadsKept, FastInv, HeapInv, UsableRun, MapCovers, Blocks, BlocksOutside, Merge, Tiled,
        BlocksKept, BlockKept, Fitted;
      var remainderSize := newsize - nb;
      ghost var s0 := s;
      ExtendedRun(p, newsize, bins0);
      if remainderSize < MINSIZE {
        FitWhole(p, newsize, bins0);
        FittedWhole(s0, old(lo), old(hi), p, newsize);
      } else {
        var remainder := FitHeads(p, newsize, nb, bins0);
        ghost var lo1, hi1 := lo, hi;
        assert remainder in Blocks(s) && p in Blocks(s);
        var _, _ := Free(remainder + 8);
        FittedFree(s0, old(lo), old(hi), lo1, hi1, p, newsize, nb);
      }
    }

    lemma FittedFree(s0: Shape, lo0: seq<int>, hi0: seq<int>, lo1: seq<int>, hi1: seq<int>, p: int, newsize: int,
                     nb: int)
      requires Fitted(s0, lo0, hi0, lo1, hi1, p, newsize, nb) && BlocksKept(Blocks(s), lo1, hi1, lo, hi)
      requires Blocks(s) == BlocksOutside(s0, p, p + newsize)[p := nb] && p !in BlocksOutside(s0, p, p + newsize)
      ensures Fitted(s0, lo0, hi0, lo, hi, p, newsize, nb)
    {
      hide BlockKept, Blocks, BlocksOutside;
      var others := BlocksOutside(s0, p, p + newsize);
      forall q | q in others
        ensures BlockKept(q, others[q], lo1, hi1, lo, hi)
      {
        assert Blocks(s)[q] == others[q] && BlockKept(q, Blocks(s)[q], lo1, hi1, lo, hi);
      }
      KeptTrans(others, lo0, hi0, lo1, hi1, lo, hi);
      assert BlockKept(p, Blocks(s)[p], lo1, hi1, lo, hi);
      KeptCommon(p, if nb < s0.size[p] then nb else s0.size[p], nb, lo0, hi0, lo1, hi1, lo, hi);
    }

    /** The block takes the front of top. */
    method GrowIntoTop(p: int, newsize: int, nb: int)
      requires Live() && p in s.size && p in s.st && s.st[p] == Used && Next(s, p) == s.top && newsize == s.end - p
      requires LegalSize(nb) && s.size[p] <= nb && nb + MINSIZE <= newsize
      modifies `hi, `top, `s
      ensures Live() && Resized(old(s), s, p, p, nb) && ContentsMoved(old(s), s, p, p, lo, old(hi), lo, hi)
      ensures Blocks(s)[p] == nb && s.top == p + nb
    {
      hide BinIndex, Aligned, PayloadsKept, FastInv, HeapInv, MapCovers, SetHeadSize, GrownIntoTop, Params, BlocksKept,
        BlockKept, SameWords;
      HeadOfUsed(p, nb);
      Surroundings(s, binsBase, bins, lo, hi);
      TopFacts();
      Inside(s, s.top);
      Inside(s, p);
      ghost var s0, hi0 := s, hi;
      hi := hi[p := SetHeadSize(hi[p], nb)];
      top := p + nb;
      hi := hi[top := newsize - nb + 1];
      GrowIntoTopStep(s, binsBase, bins, fast, fastbins, lo, hi0, p, nb, hi);
      s := GrownIntoTop(s, p, nb);
      GrownSize(s0, p, nb);
      GrownContents(s0, s, p, nb, hi0);
    }

    lemma GrownSize(s0: Shape, p: int, nb: int)
      requires s0.size.Keys == s0.st.Keys && p in s0.size && p < s0.top < s0.end && nb > 0
      requires s == GrownIntoTop(s0, p, nb)
      ensures p in Blocks(s) && Blocks(s)[p] == nb && s.top == p + nb
    {
    }

    lemma GrownContents(s0: Shape, s1: Shape, p: int, nb: int, hi0: seq<int>)
      requires PayloadsKept(s0, lo, hi0, lo, hi, {}) && Blocks(s1) == Blocks(s0)[p := nb]
      requires p in Blocks(s0) && Blocks(s0)[p] <= nb
      ensures Resized(s0, s1, p, p, nb) && ContentsMoved(s0, s1, p, p, lo, hi0, lo, hi)
    {
      hide PayloadsKept, BlocksKept, BlockKept, SameWords;
      PayloadsToBlocks(s0, Blocks(s0), lo, hi0, lo, hi, {});
      KeptOne(Blocks(s0), p, lo, hi0, lo, hi);
      KeptIsSame(p, Blocks(s0)[p], lo, hi0, lo, hi);
      KeptFewer(Blocks(s0), p, lo, hi0, lo, hi);
    }

    lemma HeadOfUsed(p: int, size: int)
      requires HeapOk() && p in s.size
      ensures 0 <= p < |hi| && SetHeadSize(hi[p], size) == size + (hi[p] - s.size[p])
    {
      HeadWord(s, lo, hi, p);
      Inside(s, p);
      SizeWord(s.size[p], hi[p] == s.size[p] + 1);
      HeadSizes(hi[p], s.size[p], size);
    }

    /** The free chunk after p joins p's run. */
    method TakeNext(p: int, next: int)
      requires Live() && p in s.size && p in s.st && s.st[p] == Used && next == Next(s, p) && next in s.size
        && IsFree(s, next)
      modifies `lo, `hi, `bins
      ensures Extended(p, s.size[p] + s.size[next], old(bins))
      ensures BlocksOutside(s, p, p + s.size[p] + s.size[next]) == Blocks(s) - {p}
      ensures BlocksKept(Blocks(s), old(lo), old(hi), lo, hi)
    {
      hide BinIndex, Aligned, PayloadsKept, FastInv, HeapInv, MapCovers, Params, BlocksKept, UsableRun, Held;
      ghost var bins0 := bins;
      HeapBins();
      NextListed(next);
      UnlinkChunk(next, s.st[next].bin);
      HeldBins(s, binsBase, bins0, bins, lo, hi, next);
      HeldTwo(bins0, p, next);
    }

    lemma NextListed(x: int)
      requires HeapOk() && x in s.size && IsFree(s, x)
      ensures |bins| == NBINS && 1 <= s.st[x].bin < NBINS && x in bins[s.st[x].bin]
    {
      ListOf(s, bins, x);
    }

    lemma HeldTwo(bins0: seq<seq<int>>, p: int, n: int)
      requires Held(s, binsBase, bins0, bins, lo, hi, n) && p in s.size && p in s.st && s.st[p] == Used
        && n == Next(s, p)
      ensures UsableRun(s, binsBase, bins0, bins, lo, hi, p, p + s.size[p] + s.size[n])
      ensures BlocksOutside(s, p, p + s.size[p] + s.size[n]) == Blocks(s) - {p}
    {
      TwoUsable(s, binsBase, bins0, bins, lo, hi, p, n);
      assert Blocks(s) - {p, n} == Blocks(s) - {p};
    }

    /** Copy, then free the old block. */
    method MoveBlock(p: int, q: int)
      requires Live() && p in Blocks(s) && q in Blocks(s) && p != q && Blocks(s)[p] <= Blocks(s)[q]
      modifies this
      ensures Live() && Blocks(s) == Blocks(old(s)) - {p} && lastRemainder == old(lastRemainder)
      ensures SameWords(p, q, UsableWords(Blocks(old(s))[p]), old(lo), old(hi), lo, hi)
      ensures BlocksKept(Blocks(old(s)) - {p, q}, old(lo), old(hi), lo, hi)
    {
      hide HeapInv, FastInv, Aligned, WordAt, MapCovers, HeapOk, FlagsOk, Blocks, BlocksKept, BlockKept, SameWords,
        PayloadOnly;
      CopyBlock(p, q);
      ghost var lo1, hi1 := lo, hi;
      CopySpares(q, old(lo), old(hi));
      LiveLayout();
      var _, _ := Free(p + 8);
      SomeBlockLive(q);
      KeptPart(Blocks(old(s)) - {q}, Blocks(old(s)) - {p, q}, old(lo), old(hi), lo1, hi1);
      KeptPart(Blocks(s), Blocks(old(s)) - {p, q}, lo1, hi1, lo, hi);
      KeptTrans(Blocks(old(s)) - {p, q}, old(lo), old(hi), lo1, hi1, lo, hi);
      assert BlockKept(q, Blocks(s)[q], lo1, hi1, lo, hi) by { KeptOne(Blocks(s), q, lo1, hi1, lo, hi); }
      KeptIsSame(q, Blocks(s)[q], lo1, hi1, lo, hi);
      SameWordsTrans(p, q, UsableWords(Blocks(old(s))[p]), UsableWords(Blocks(s)[q]), old(lo), old(hi), lo1, hi1, lo,
        hi);
    }

    /** The outcome of fitting the run around p, seen from the state before the
        run was put together. */
    lemma FittedMoved(s0: Shape, s1: Shape, lo0: seq<int>, hi0: seq<int>, lo1: seq<int>, hi1: seq<int>, p: int,
                      newsize: int, nb: int)
      requires p in Blocks(s0) && BlocksKept(Blocks(s0), lo0, hi0, lo1, hi1)
      requires p in s1.size && s1.size[p] == Blocks(s0)[p] && BlocksOutside(s1, p, p + newsize) == Blocks(s0) - {p}
      requires p in Blocks(s) && Blocks(s) == BlocksOutside(s1, p, p + newsize)[p := Blocks(s)[p]]
        && nb <= Blocks(s)[p] < nb + MINSIZE
      requires Fitted(s1, lo1, hi1, lo, hi, p, newsize, Blocks(s)[p])
      ensures Resized(s0, s, p, p, nb) && ContentsMoved(s0, s, p, p, lo0, hi0, lo, hi)
    {
      hide BlocksKept, BlockKept, SameWords, BlocksOutside, Blocks;
      KeptOne(Blocks(s0), p, lo0, hi0, lo1, hi1);
      KeptFewer(Blocks(s0), p, lo0, hi0, lo1, hi1);
      KeptTrans(Blocks(s0) - {p}, lo0, hi0, lo1, hi1, lo, hi);
      KeptCommon(p, Blocks(s0)[p], Min(Blocks(s0)[p], Blocks(s)[p]), lo0, hi0, lo1, hi1, lo, hi);
      KeptIsSame(p, Min(Blocks(s0)[p], Blocks(s)[p]), lo0, hi0, lo, hi);
    }

    /** Already big enough. */
    method ShrinkBlock(p: int, oldsize: int, nb: int)
      requires Live() && p in Blocks(s) && oldsize == Blocks(s)[p] && LegalSize(nb) && nb <= oldsize
      modifies this
      ensures Live() && Resized(old(s), s, p, p, nb) && ContentsMoved(old(s), s, p, p, old(lo), old(hi), lo, hi)
      ensures p in Blocks(s) && Blocks(s)[p] == FitSize(oldsize, nb) && lastRemainder == old(lastRemainder)
    {
      hide HeapInv, FastInv, Aligned, MapCovers, FlagsOk, Fitted, BlocksKept, UsableRun, Resized, ContentsMoved;
      ghost var s0 := s;
      OneUsable(s, binsBase, bins, lo, hi, p);
      KeptRefl(Blocks(s), lo, hi);
      FitBlock(p, oldsize, nb, bins);
      FittedMoved(s0, s0, old(lo), old(hi), old(lo), old(hi), p, oldsize, nb);
    }

    /** The block takes the free chunk behind it. */
    method GrowIntoNext(p: int, next: int, newsize: int, nb: int)
      requires Live() && p in Blocks(s) && next == p + Blocks(s)[p] && next in s.size && IsFree(s, next)
      requires newsize == Blocks(s)[p] + s.size[next] && LegalSize(nb) && nb <= newsize
      modifies this
      ensures Live() && Resized(old(s), s, p, p, nb) && ContentsMoved(old(s), s, p, p, old(lo), old(hi), lo, hi)
      ensures p in Blocks(s) && Blocks(s)[p] == FitSize(newsize, nb) && lastRemainder == old(lastRemainder)
    {
      hide HeapInv, FastInv, Aligned, MapCovers, FlagsOk, Fitted, BlocksKept, UsableRun, Resized, ContentsMoved,
        Extended, BlocksOutside, HeapOk;
      ghost var s0, bins0 := s, bins;
      TakeNext(p, next);
      ghost var lo1, hi1 := lo, hi;
      FitBlock(p, newsize, nb, bins0);
      FittedMoved(s0, s0, old(lo), old(hi), lo1, hi1, p, newsize, nb);
    }

    /** newp is the next chunk after p: no copy is needed. */
    method MergeBlocksAt(p: int, newp: int, newsize: int, nb: int)
      requires Live() && p in Blocks(s) && newp == p + Blocks(s)[p] && newp in Blocks(s)
      requires newsize == Blocks(s)[p] + Blocks(s)[newp] && LegalSize(nb) && nb <= newsize
      modifies this
      ensures Live() && p in Blocks(s) && nb <= Blocks(s)[p] < nb + MINSIZE && Blocks(s)[p] == FitSize(newsize, nb)
      ensures lastRemainder == old(lastRemainder)
      ensures p in old(s).size && BlocksOutside(old(s), p, p + newsize) == Blocks(old(s)) - {p, newp}
      ensures Blocks(s) == BlocksOutside(old(s), p, p + newsize)[p := Blocks(s)[p]]
      ensures Fitted(old(s), old(lo), old(hi), lo, hi, p, newsize, Blocks(s)[p])
    {
      hide HeapInv, FastInv, Aligned, MapCovers, FlagsOk, Fitted, BlocksKept, UsableRun, BlocksOutside;
      UsedTwo(p, newp);
      FitBlock(p, newsize, nb, bins);
    }

    lemma UsedTwo(p: int, n: int)
      requires HeapOk() && p in Blocks(s) && n == p + Blocks(s)[p] && n in Blocks(s)
      ensures UsableRun(s, binsBase, bins, bins, lo, hi, p, p + Blocks(s)[p] + Blocks(s)[n])
      ensures BlocksOutside(s, p, p + Blocks(s)[p] + Blocks(s)[n]) == Blocks(s) - {p, n}
    {
      TwoUsable(s, binsBase, bins, bins, lo, hi, p, n);
    }

    /** Allocate, copy, free; without the copy if malloc hands out the chunk right
        after p. */
    method MoveOrMerge(p: int, oldsize: int, nb: int) returns (q: int, ghost move: Move)
      requires Live() && p in Blocks(s) && oldsize == Blocks(s)[p] && LegalSize(nb) && Blocks(s)[p] < nb <= WORD - 24
      modifies this
      ensures Live() && (q == 0 || q > 0)
      ensures q != 0 ==> Resized(old(s), s, p, q, nb) && ContentsMoved(old(s), s, p, q, old(lo), old(hi), lo, hi)
      ensures q == 0 ==>
        Layout() && Exhausted(nb) && Blocks(s) == Blocks(old(s)) && BlocksKept(Blocks(s), old(lo), old(hi), lo, hi)
      ensures if q != 0 then ServedElsewhere(old(Now()), p, oldsize, q, nb, move) else move == Stayed
      ensures lastRemainder == if q == 0 then old(lastRemainder) else RemainderAfter(move.at, nb, move.to, move.how)
    {
      hide HeapInv, FastInv, Aligned, MapCovers, FlagsOk, Fitted, BlocksKept, Blocks, BlocksOutside, HeapOk, Exhausted,
        SameWords, Chosen, Request2Size, Served, RemainderAfter, Consolidated, ConsolidationDue, NothingServes;
      move := Stayed;
      ghost var s0, lo0, hi0 := s, lo, hi;
      LiveLayout();
      BlockSizes(p, p);
      BlockAbove(p);
      RetryAsksForSameSize(nb);
      ghost var how, at;
      var newmem;
      newmem, how, at := Malloc(nb - 7);
      SomeBlockLive(p);
      LiveLayout();
      if newmem == 0 {
        if nb >= WORD / 2 { HugeExhausted(nb); }
        return 0, Stayed;
      }
      var newp := newmem - 8;
      move := Moved(newp, how, at);
      BlockSizes(p, newp);
      HeadOf(newp);
      var newsize := ChunkSize(hi[newp]);
      ghost var s1, lo1, hi1 := s, lo, hi;
      if newp == p + oldsize {
        newsize := newsize + oldsize;
        MergeBlocksAt(p, newp, newsize, nb);
        assert Blocks(s1) - {p, newp} == Blocks(s0) - {p};
        FittedMoved(s0, s1, lo0, hi0, lo1, hi1, p, newsize, nb);
        return p, move;
      }
      MoveBlock(p, newp);
      MovedContents(s0, s1, p, newp, lo0, hi0, lo1, hi1, nb);
      return newp, move;
    }

    /** malloc's choice, which may be the chunk right behind p. */
    ghost predicate ServedElsewhere(v: Situation, p: int, oldsize: int, q: int, nb: nat, move: Move) {
      && move.Moved? && Served(move.at, nb, move.to, move.how)
      && (if ConsolidationDue(v, nb) then Consolidated(v, move.at) else move.at == v)
      && q == if move.to == p + oldsize then p else move.to
    }

    /** No heap within 16 MB can serve a request this large. */
    lemma HugeExhausted(nb: int)
      requires Live() && LegalSize(nb) && nb >= WORD / 2
      ensures Layout() && Exhausted(nb)
    {
      hide HeapInv, BinIndex, Aligned;
      TopFacts();
      Surroundings(s, binsBase, bins, lo, hi);
      forall x
        ensures !Fits(s, x, nb)
      {
        if x in s.size { Inside(s, x); }
      }
    }

    lemma MovedContents(s0: Shape, s1: Shape, p: int, q: int, lo0: seq<int>, hi0: seq<int>, lo1: seq<int>,
                        hi1: seq<int>, nb: int)
      requires p in Blocks(s0) && Gave(s0, s1, q, nb) && BlocksKept(Blocks(s0), lo0, hi0, lo1, hi1)
      requires Blocks(s) == Blocks(s1) - {p} && Blocks(s0)[p] < nb
      requires SameWords(p, q, UsableWords(Blocks(s0)[p]), lo1, hi1, lo, hi)
      requires BlocksKept(Blocks(s1) - {p, q}, lo1, hi1, lo, hi)
      ensures Resized(s0, s, p, q, nb) && ContentsMoved(s0, s, p, q, lo0, hi0, lo, hi)
    {
      hide Blocks, SameWords, BlocksKept;
      assert Blocks(s1) - {p, q} == Blocks(s0) - {p};
      KeptFewer(Blocks(s0), p, lo0, hi0, lo1, hi1);
      KeptTrans(Blocks(s0) - {p}, lo0, hi0, lo1, hi1, lo, hi);
      KeptOne(Blocks(s0), p, lo0, hi0, lo1, hi1);
      KeptIsSame(p, Blocks(s0)[p], lo0, hi0, lo1, hi1);
      SameWordsFirst(p, q, UsableWords(Blocks(s0)[p]), lo0, hi0, lo1, hi1, lo, hi);
    }

    /** realloc to a larger chunk: into top, into the next chunk, or elsewhere. */
    method GrowBlock(p: int, oldsize: int, nb: int) returns (q: int, ghost move: Move)
      requires Live() && p in Blocks(s) && oldsize == Blocks(s)[p] && LegalSize(nb) && oldsize < nb <= WORD - 24
      modifies this
      ensures Live() && (q == 0 || q > 0)
      ensures q != 0 ==> Resized(old(s), s, p, q, nb) && ContentsMoved(old(s), s, p, q, old(lo), old(hi), lo, hi)
      ensures q == 0 ==>
        Layout() && Exhausted(nb) && Blocks(s) == Blocks(old(s)) && BlocksKept(Blocks(s), old(lo), old(hi), lo, hi)
      ensures q == 0 ==> !TopBehind(old(s), p, nb) && !RoomBehind(old(s), p, nb)
      ensures q != 0 ==> Owed(old(s), s, p, q, nb, move)
      ensures move.Moved? ==> q != 0 && ServedElsewhere(old(Now()), p, oldsize, q, nb, move)
      ensures lastRemainder ==
        if move == Stayed then old(lastRemainder) else RemainderAfter(move.at, nb, move.to, move.how)
    {
      hide HeapInv, FastInv, Aligned, HeapOk, FlagsOk, BlocksKept, Exhausted, ContentsMoved, Tiled, IsFree,
        RemainderAfter, Served, Consolidated, ConsolidationDue;
      move := Stayed;
      AfterBlock(p);
      BlockAbove(p);
      var next := p + oldsize;
      var newsize := oldsize + ChunkSize(hi[next]);
      ghost var s0 := s;
      assert TopBehind(s, p, nb) <==> next == top && newsize >= nb + MINSIZE;
      assert RoomBehind(s, p, nb) <==>
        next != top && !PrevInuse(hi[next + ChunkSize(hi[next])]) && newsize >= nb;
      if next == top && newsize >= nb + MINSIZE {
        GrowIntoTop(p, newsize, nb);
        q := p;
        assert Owed(s0, s, p, q, nb, move);
      } else if next != top && !PrevInuse(hi[next + ChunkSize(hi[next])]) && newsize >= nb {
        GrowIntoNext(p, next, newsize, nb);
        q := p;
        assert Owed(s0, s, p, q, nb, move);
      } else {
        q, move := MoveOrMerge(p, oldsize, nb);
        assert q != 0 ==> q in Blocks(s);
        assert q != 0 ==> Owed(s0, s, p, q, nb, move);
      }
    }

    /** What realloc reads beyond block p. */
    lemma AfterBlock(p: int)
      requires Live() && p in Blocks(s)
      ensures Tiled(s) && top == s.top && p in s.size && p in s.st && s.st[p] == Used && Blocks(s)[p] == s.size[p]
        && LegalSize(s.size[p])
      ensures var n := Next(s, p);
        && n in s.size && 0 <= n < |hi| && ChunkSize(hi[n]) == s.size[n]
        && (n == top ==> s.end - p == s.size[p] + s.size[n])
        && (n != top ==> 0 <= n + s.size[n] < |hi| && (PrevInuse(hi[n + s.size[n]]) <==> !IsFree(s, n)))
    {
      hide BinIndex, Aligned, Coalesced, Rings, Sorted, Listed, Complete, FlagsOk, FastInv, MapCovers;
      assert ChunkOk(s, p);
      var n := Next(s, p);
      HeadWord(s, lo, hi, n);
      Inside(s, n);
      if n != s.top { InuseBitAfter(s, lo, hi, n); }
    }

    /** realloc(oldmem, bytes); realloc to 0 bytes is like malloc of 0 bytes. */
    method Realloc(oldmem: int, bytes: int) returns (mem: int, ghost move: Move)
      requires Valid() && 0 <= bytes < WORD && (oldmem == 0 || oldmem - 8 in Blocks(s))
      modifies this
      ensures Valid()
      ensures mem != 0 ==> mem > 8 && Live() && !RequestOutOfRange(bytes)
      ensures mem != 0 && oldmem == 0 ==>
        Gave(old(s), s, mem - 8, Request2Size(bytes)) && BlocksKept(Blocks(old(s)), old(lo), old(hi), lo, hi)
      ensures mem != 0 && oldmem != 0 ==> Resized(old(s), s, oldmem - 8, mem - 8, Request2Size(bytes))
      ensures mem != 0 && oldmem != 0 ==> ContentsMoved(old(s), s, oldmem - 8, mem - 8, old(lo), old(hi), lo, hi)
      // shrinking never fails and never moves
      ensures oldmem != 0 && !RequestOutOfRange(bytes) && Request2Size(bytes) <= Blocks(old(s))[oldmem - 8] ==>
        mem == oldmem
      ensures mem == 0 ==> Blocks(s) == Blocks(old(s)) && BlocksKept(Blocks(s), old(lo), old(hi), lo, hi)
      ensures mem == 0 && !RequestOutOfRange(bytes) ==> (Empty() || Live()) && Exhausted(Request2Size(bytes))
      // in place when it has room, else where malloc would put it; a refusal means there
      // was no room behind it either
      ensures mem != 0 && oldmem != 0 ==> Owed(old(s), s, oldmem - 8, mem - 8, Request2Size(bytes), move)
      ensures mem == 0 && oldmem != 0 && !RequestOutOfRange(bytes) ==>
        !TopBehind(old(s), oldmem - 8, Request2Size(bytes)) && !RoomBehind(old(s), oldmem - 8, Request2Size(bytes))
      ensures mem != 0 && oldmem == 0 ==> move.Moved?
      ensures move.Moved? ==>
        mem != 0 && Served(move.at, Request2Size(bytes), move.to, move.how)
        && if ConsolidationDue(old(Now()), Request2Size(bytes)) then Consolidated(old(Now()), move.at)
           else move.at == old(Now())
      ensures lastRemainder == if move == Stayed then old(lastRemainder)
                               else RemainderAfter(move.at, Request2Size(bytes), move.to, move.how)
    {
      hide HeapInv, FastInv, Aligned, HeapOk, FlagsOk, BlocksKept, Exhausted, Resized, ContentsMoved, Request2Size,
        Chosen, Served, RemainderAfter, Consolidated, ConsolidationDue, TopBehind, RoomBehind;
      move := Stayed;
      if oldmem == 0 {
        ghost var how, at;
        mem, how, at := Malloc(bytes);
        if mem != 0 { move := Moved(mem - 8, how, at); }
        return;
      }
      KeptRefl(Blocks(s), lo, hi);
      if RequestOutOfRange(bytes) { return 0, Stayed; }
      var nb := Request2Size(bytes);
      NbRange(bytes);
      var p := oldmem - 8;
      BlockOfLive(p);
      HeadOf(p);
      var oldsize := ChunkSize(hi[p]);
      // the source's last branch is for an mmapped chunk, of which there is none
      if !IsMmapped(hi[p]) {
        var q;
        if oldsize >= nb {
          ShrinkBlock(p, oldsize, nb);
          q := p;
        } else {
          q, move := GrowBlock(p, oldsize, nb);
        }
        LiveLayout();
        mem := if q == 0 then 0 else q + 8;
      }
    }

    // ----- memalign -----

    /** set_head(p + k, rest | PREV_INUSE); set_head_size(p, k): used block p
        becomes two. */
    method CutBlock(p: int, size: int, k: int)
      requires Live() && p in Blocks(s) && size == Blocks(s)[p] && LegalSize(k) && k + MINSIZE <= size
      modifies `hi, `s
      ensures Live() && p + k !in Blocks(old(s)) && Blocks(s) == Blocks(old(s))[p := k][p + k := size - k]
      ensures BlocksKept(Blocks(old(s)) - {p}, lo, old(hi), lo, hi)
    {
      hide BinIndex, Aligned, PayloadsKept, FastInv, HeapInv, MapCovers, SetHeadSize, Params, Split, BlocksKept,
        BlockKept;
      BlockInside(p);
      HeadOfUsed(p, k);
      ghost var s0, hi0 := s, hi;
      hi := hi[p + k := size - k + 1];
      hi := hi[p := SetHeadSize(hi[p], k)];
      assert hi == hi0[p := k + (hi0[p] - s.size[p])][p + k := s.size[p] - k + 1];
      CutBlockStep(s, binsBase, bins, fast, fastbins, lo, hi0, p, k, hi);
      SplitFrame(s, p, k);
      s := Split(s, p, k, Used, Used);
      PayloadsToBlocks(s0, Blocks(s0) - {p}, lo, hi0, lo, hi, {p});
    }

    lemma BlockInside(p: int)
      requires Live() && p in Blocks(s)
      ensures p in s.size && p in s.st && s.st[p] == Used && Blocks(s)[p] == s.size[p] && p != s.top
      ensures 0 < p < p + s.size[p] < |hi| == |lo| && s.size.Keys == s.st.Keys
      ensures SetPrevInuse(hi[p + s.size[p]]) == hi[p + s.size[p]]
    {
      hide BinIndex, Aligned, Coalesced, Rings, Sorted, Listed, Complete, FlagsOk, FastInv, MapCovers;
      Inside(s, p);
      InuseBitAfter(s, lo, hi, p);
      Inside(s, Next(s, p));
      SizeWord(s.size[Next(s, p)], true);
    }

    /** The part in front of the aligned spot is freed. */
    method GiveBackLead(p: int, leadsize: int) returns (newp: int)
      requires Live() && p in Blocks(s) && LegalSize(leadsize) && leadsize + MINSIZE <= Blocks(s)[p]
      modifies this
      ensures Live() && newp == p + leadsize && newp !in Blocks(old(s))
      ensures Blocks(s) == (Blocks(old(s)) - {p})[newp := Blocks(old(s))[p] - leadsize]
      ensures lastRemainder == old(lastRemainder)
      ensures BlocksKept(Blocks(old(s)) - {p}, old(lo), old(hi), lo, hi)
    {
      hide HeapInv, FastInv, Aligned, HeapOk, FlagsOk, BlocksKept, Blocks, SetPrevInuse, LegalSize;
      BlockSizes(p, p);
      HeadOf(p);
      BlockInside(p);
      ghost var s0, lo0, hi0 := s, lo, hi;
      newp := p + leadsize;
      var newsize := ChunkSize(hi[p]) - leadsize;
      hi := hi[newp + newsize := SetPrevInuse(hi[newp + newsize])];
      assert hi == hi0;
      CutBlock(p, leadsize + newsize, leadsize);
      ghost var s1, lo1, hi1 := s, lo, hi;
      LiveLayout();
      var _, _ := Free(p + 8);
      SomeBlockLive(newp);
      assert Blocks(s) == (Blocks(s0) - {p})[newp := Blocks(s0)[p] - leadsize];
      KeptPart(Blocks(s), Blocks(s0) - {p}, lo1, hi1, lo, hi);
      KeptTrans(Blocks(s0) - {p}, lo0, hi0, lo1, hi1, lo, hi);
    }

    /** What lies behind nb bytes is freed if it makes a chunk. */
    method GiveBackTail(p: int, nb: int)
      requires Live() && p in Blocks(s) && LegalSize(nb) && nb <= Blocks(s)[p]
      modifies this
      ensures Live() && p in Blocks(s) && nb <= Blocks(s)[p] <= nb + MINSIZE
      ensures Blocks(s)[p] == if Blocks(old(s))[p] > nb + MINSIZE then nb else Blocks(old(s))[p]
      ensures Blocks(s) == Blocks(old(s))[p := Blocks(s)[p]] && lastRemainder == old(lastRemainder)
      ensures BlocksKept(Blocks(old(s)) - {p}, old(lo), old(hi), lo, hi)
    {
      hide HeapInv, FastInv, Aligned, HeapOk, FlagsOk, BlocksKept, Blocks, LegalSize;
      BlockSizes(p, p);
      HeadOf(p);
      ghost var s0, lo0, hi0 := s, lo, hi;
      var size := ChunkSize(hi[p]);
      KeptRefl(Blocks(s0) - {p}, lo, hi);
      if size > nb + MINSIZE {
        var remainder := p + nb;
        CutBlock(p, size, nb);
        ghost var lo1, hi1 := lo, hi;
        LiveLayout();
        PositiveSize(nb);
        var _, _ := Free(remainder + 8);
        SomeBlockLive(p);
        assert Blocks(s) == Blocks(s0)[p := nb];
        KeptPart(Blocks(s), Blocks(s0) - {p}, lo1, hi1, lo, hi);
        KeptTrans(Blocks(s0) - {p}, lo0, hi0, lo1, hi1, lo, hi);
      }
    }

    lemma PositiveSize(nb: int)
      requires LegalSize(nb)
      ensures nb > 0
    {
    }

    /** memalign(alignment, bytes), for an alignment above what malloc gives anyway. */
    method AlignBlock(alignment: nat, nb: int, m: int) returns (mem: int)
      requires Live() && m - 8 in Blocks(s) && m > 8 && LegalSize(nb) && IsPow2(alignment) && MINSIZE <= alignment
      requires Blocks(s)[m - 8] >= nb + alignment + MINSIZE + 8
      modifies this
      ensures Live() && mem > 8 && mem % alignment == 0 && (mem == m || mem - 8 !in Blocks(old(s)))
      ensures FirstSpot(m, alignment, mem) && lastRemainder == old(lastRemainder)
      ensures var rest := Blocks(old(s))[m - 8] - (mem - m);
        mem - 8 in Blocks(s) && Blocks(s)[mem - 8] == if rest > nb + MINSIZE then nb else rest
      ensures mem - 8 in Blocks(s) && nb <= Blocks(s)[mem - 8] <= nb + MINSIZE
      ensures Blocks(s) == (Blocks(old(s)) - {m - 8})[mem - 8 := Blocks(s)[mem - 8]]
      ensures BlocksKept(Blocks(old(s)) - {m - 8}, old(lo), old(hi), lo, hi)
    {
      hide HeapInv, FastInv, Aligned, HeapOk, FlagsOk, BlocksKept, Blocks, LegalSize, AlignedSpot, IsPow2, FirstSpot;
      var p := m - 8;
      ghost var s0, lo0, hi0 := s, lo, hi;
      BlockAligned(p);
      KeptRefl(Blocks(s0) - {p}, lo, hi);
      if m % alignment != 0 {
        PositiveSize(nb);
        AlignedSpotFacts(m, alignment);
        SpotIsFirst(m, alignment);
        var brk := AlignedSpot(m, alignment) - 8;
        PositiveSize(brk - p);
        p := GiveBackLead(p, brk - p);
      }
      if m % alignment == 0 { OwnSpot(m, alignment); }
      ghost var s1, lo1, hi1 := s, lo, hi;
      GiveBackTail(p, nb);
      assert Blocks(s1) - {p} == Blocks(s0) - {m - 8};
      KeptTrans(Blocks(s0) - {m - 8}, lo0, hi0, lo1, hi1, lo, hi);
      mem := p + 8;
    }

    lemma OwnSpot(m: nat, a: nat)
      requires a > 0 && m % a == 0
      ensures FirstSpot(m, a, m)
    {
    }

    lemma BlockAligned(p: int)
      requires Live() && p in Blocks(s)
      ensures p > 0 && Aligned(p + 8) && p + Blocks(s)[p] <= memHeapEnd == 0x100_0000
    {
      Inside(s, p);
    }

    /** memalign(alignment, bytes) */
    method Memalign(alignment: int, bytes: int) returns (mem: int, ghost m: int, ghost how: Choice, ghost at: Situation)
      requires Valid() && 0 <= alignment <= WORD / 2 && 0 <= bytes < WORD
      requires !RequestOutOfRange(bytes) ==> MemalignRequest(alignment, bytes) < WORD
      modifies this
      ensures Valid() && (mem == 0 || mem > 8)
      ensures mem != 0 ==>
        Live() && mem % GrantedAlignment(alignment) == 0 && mem - 8 !in Blocks(old(s)) && mem - 8 in Blocks(s)
      ensures mem != 0 ==> Request2Size(bytes) <= Blocks(s)[mem - 8] <= Request2Size(bytes) + MINSIZE
      ensures mem != 0 ==> Blocks(s) == Blocks(old(s))[mem - 8 := Blocks(s)[mem - 8]]
      ensures mem == 0 ==> Blocks(s) == Blocks(old(s))
      ensures mem == 0 ==> RequestOutOfRange(bytes) || OutOfMemory(MemalignRequest(alignment, bytes))
      ensures BlocksKept(Blocks(old(s)), old(lo), old(hi), lo, hi)
      // malloc served the padded request at m, and the first spot from there on is used
      ensures mem != 0 ==>
        m > 8 && Served(at, Request2Size(MemalignRequest(alignment, bytes)), m - 8, how)
        && if alignment <= 8 then mem == m else FirstSpot(m, GrantedAlignment(alignment), mem)
      ensures mem != 0 ==>
        if ConsolidationDue(old(Now()), Request2Size(MemalignRequest(alignment, bytes))) then
          Consolidated(old(Now()), at)
        else at == old(Now())
    {
      hide HeapInv, FastInv, Aligned, HeapOk, FlagsOk, BlocksKept, Blocks, Exhausted, GrantedAlignment, Chosen,
        Request2Size, IsPow2, FirstSpot, Served, Consolidated, ConsolidationDue;
      m, how, at := 0, Refused, Now();
      if alignment <= 8 {
        mem, how, at := Malloc(bytes);
        m := mem;
        if mem != 0 { DefaultAlignment(alignment, mem); }
        return;
      }
      var a := RoundAlignment(alignment);
      if RequestOutOfRange(bytes) {
        KeptRefl(Blocks(s), lo, hi);
        mem := 0;
        return;
      }
      var nb := Request2Size(bytes);
      NbRange(bytes);
      var padded;
      padded, how, at := Malloc(nb + a + MINSIZE);
      m := padded;
      if padded == 0 {
        mem := 0;
        return;
      }
      ghost var s0, s1, lo1, hi1 := old(s), s, lo, hi;
      PaddedSize(nb, alignment);
      mem := AlignBlock(a, nb, padded);
      LiveLayout();
      assert Blocks(s1) - {m - 8} == Blocks(s0);
      KeptTrans(Blocks(s0), old(lo), old(hi), lo1, hi1, lo, hi);
    }

    lemma DefaultAlignment(alignment: int, mem: int)
      requires Live() && 0 <= alignment <= 8 && mem - 8 in Blocks(s)
      ensures mem % GrantedAlignment(alignment) == 0
    {
      BlockAligned(mem - 8);
      SmallPowers();
    }

    lemma PaddedSize(nb: int, alignment: int)
      requires LegalSize(nb) && 8 < alignment
      ensures var a := GrantedAlignment(alignment);
        MINSIZE <= a && IsPow2(a) && Request2Size(nb + a + MINSIZE) == nb + a + MINSIZE + 8
    {
      CeilIsPow2(3, alignment);
      SmallPowers();
      AtLeast16(alignment);
      var a := GrantedAlignment(alignment);
      var j: nat :| j >= 3 && a == Pow2(j);
      MultipleMod(1, a);
      Pow2Divides(3, j, a);
      PaddedFacts(nb, a);
    }

    lemma PaddedFacts(nb: int, a: int)
      requires Aligned(nb) && Aligned(a) && nb >= 0 && a >= MINSIZE
      ensures Request2Size(nb + a + MINSIZE) == nb + a + MINSIZE + 8
    {
      var k, j := nb / 8, a / 8;
      assert nb + a + MINSIZE + SIZE_SZ + 7 == 8 * (k + j + 3) + 3;
    }

    // ----- mallinfo -----

    /** The chunk size can be read from the header. */
    ghost predicate Readable(x: int)
      reads `hi, `s, `lo
    {
      x in s.size && 0 <= x < x + 8 < |lo| == |hi| && ChunkSize(hi[x]) == s.size[x]
    }

    lemma FastReady(i: int)
      requires Layout() && (Empty() || Live()) && 0 <= i < NFASTBINS
      ensures |fast| == |fastbins| == NFASTBINS && Chain(fastbins[i], fast[i], lo) && Distinct(fast[i])
        && Elems(fast[i]) <= s.size.Keys
      ensures forall k {:trigger fast[i][k]} :: 0 <= k < |fast[i]| ==> Readable(fast[i][k])
    {
      hide HeapInv, FastbinIndex, ChunkSize;
      if !Bare() {
        EmptyOrLive();
        forall k | 0 <= k < |fast[i]|
          ensures Readable(fast[i][k])
        {
          assert FastEntry(s, fast, i, k);
          HeadOf(fast[i][k]);
        }
        assert forall x :: x in fast[i] ==> x in s.size;
      }
    }

    lemma BinReady(i: int)
      requires Layout() && (Empty() || Live()) && 1 <= i < NBINS
      ensures |bins| == NBINS && Distinct(bins[i]) && Elems(bins[i]) <= s.size.Keys
      ensures 0 <= Header(binsBase, i) + 8 < |hi| && hi[Header(binsBase, i) + 8] == Node(binsBase, bins, i, |bins[i]|)
    {
      hide FastInv, ChunkSize, HeapOk, BinIndex, Distinct;
      EmptyOrLive();
      if Bare() {
        assert BinRing(binsBase, bins, lo, hi, i);
        assert Hop(RingOf(Header(binsBase, i), bins[i]), lo, hi, 0);
        assert Distinct(bins[i]) by { NoneDistinct(bins[i]); }
      } else {
        LiveBinReady(i);
      }
    }

    lemma NoneDistinct(l: seq<int>)
      requires l == []
      ensures Distinct(l)
    {
    }

    lemma LiveBinReady(i: int)
      requires HeapOk() && 1 <= i < NBINS
      ensures |bins| == NBINS && Distinct(bins[i]) && Elems(bins[i]) <= s.size.Keys
      ensures 0 <= Header(binsBase, i) + 8 < |hi| && hi[Header(binsBase, i) + 8] == Node(binsBase, bins, i, |bins[i]|)
    {
      hide MapCovers, BinIndex, Aligned, Tags, Sorted, Complete, Coalesced, Rings;
      HeaderLinks(s, binsBase, bins, lo, hi, i);
      forall x | x in bins[i] ensures x in s.size {
        assert Entry(s, bins, i, IndexOf(bins[i], x));
      }
    }

    /** Node k of bin i's ring: a chunk, unless k is 0. */
    lemma RingStep(i: int, k: int)
      requires Layout() && (Empty() || Live()) && |bins| == NBINS && 1 <= i < NBINS && 0 <= k <= |bins[i]|
      ensures Node(binsBase, bins, i, k) == Header(binsBase, i) <==> k == 0
      ensures k > 0 ==> var x := Node(binsBase, bins, i, k);
        x == bins[i][k - 1] && Readable(x) && hi[x + 8] == Node(binsBase, bins, i, k - 1)
    {
      hide FastInv, ChunkSize, HeapOk, BinIndex, Readable, Node;
      EmptyOrLive();
      if k > 0 {
        assert !Bare();
        LiveRingStep(i, k);
      } else {
        NodeZero(i);
      }
    }

    lemma NodeZero(i: int)
      requires |bins| == NBINS && 1 <= i < NBINS
      ensures Node(binsBase, bins, i, 0) == Header(binsBase, i)
    {
    }

    lemma LiveRingStep(i: int, k: int)
      requires HeapOk() && |bins| == NBINS && 1 <= i < NBINS && 0 < k <= |bins[i]|
      ensures var x := Node(binsBase, bins, i, k);
        x != Header(binsBase, i) && x == bins[i][k - 1] && Readable(x) && hi[x + 8] == Node(binsBase, bins, i, k - 1)
    {
      hide ChunkSize, MapCovers, BinIndex, Aligned, Tags, Sorted, Complete, Coalesced, Rings;
      EntryWord(s, binsBase, bins, lo, hi, i, k - 1);
      NodeKind(s, binsBase, bins, i, k);
    }

    /** for (p = av->fastbins[i]; p != 0; p = p->fd) */
    method CountFast(i: int) returns (blocks: int, avail: int)
      requires Layout() && (Empty() || Live()) && 0 <= i < NFASTBINS
      ensures |fast| == NFASTBINS && Elems(fast[i]) <= s.size.Keys
      ensures blocks == |Elems(fast[i])| && avail == Weight(s.size, Elems(fast[i]))
    {
      hide ChunkSize, Empty, Live, Layout, Weight;
      FastReady(i);
      ghost var l, k := fast[i], 0;
      blocks, avail := 0, 0;
      var p := fastbins[i];
      assert l[0..] == l;
      NothingWeighs(s.size, l);
      while p != 0
        invariant 0 <= k <= |l| && Chain(p, l[k..], lo)
        invariant Elems(l[..k]) <= s.size.Keys && blocks == |Elems(l[..k])| && avail == Weight(s.size, Elems(l[..k]))
        decreases |l| - k
      {
        assert l[k..] != [] && l[k..][0] == l[k] && l[k..][1..] == l[k + 1..];
        assert Readable(fast[i][k]);
        CountNext(s.size, l, k);
        blocks := blocks + 1;
        avail := avail + ChunkSize(hi[p]);
        p := lo[p + 8];
        k := k + 1;
      }
      assert l[..k] == l;
    }

    /** for (p = last(b); p != b; p = p->bk) */
    method CountRing(i: int) returns (blocks: int, avail: int)
      requires Layout() && (Empty() || Live()) && 1 <= i < NBINS
      ensures |bins| == NBINS && Elems(bins[i]) <= s.size.Keys
      ensures blocks == |Elems(bins[i])| && avail == Weight(s.size, Elems(bins[i]))
    {
      hide ChunkSize, Empty, Live, Layout, Weight;
      BinReady(i);
      ghost var l := bins[i];
      ghost var k := |l|;
      blocks, avail := 0, 0;
      var b := Header(binsBase, i);
      var p := hi[b + 8];
      NothingWeighs(s.size, l);
      RingStep(i, k);
      while p != b
        invariant 0 <= k <= |l| && p == Node(binsBase, bins, i, k) && Elems(l[..k]) <= Elems(l)
        invariant p == b <==> k == 0
        invariant blocks + |Elems(l[..k])| == |Elems(l)|
          && avail + Weight(s.size, Elems(l[..k])) == Weight(s.size, Elems(l))
        decreases k
      {
        RingStep(i, k);
        k := k - 1;
        CountNext(s.size, l, k);
        blocks := blocks + 1;
        avail := avail + ChunkSize(hi[p]);
        p := hi[p + 8];
        RingStep(i, k);
      }
    }

    /** Ensure initialization, as mallinfo does. */
    method EnsureInit()
      requires Valid()
      modifies `lo, `hi, `trimThreshold, `topPad, `maxFast, `top, `bins, `s, `fast, `fastbins
      ensures Layout() && (Empty() || Live()) && s == old(s)
      ensures BlocksKept(Blocks(s), old(lo), old(hi), lo, hi)
    {
      hide HeapInv, FastInv, BlocksKept;
      KeptRefl(Blocks(s), lo, hi);
      LiveTop();
      if top == 0 { MallocConsolidate(); }
    }

    lemma LiveTop()
      requires Valid()
      ensures top == 0 <==> Raw()
      ensures Raw() ==> maxFast == 0
    {
      if Live() { Inside(s, s.top); }
    }

    /** mallinfo() */
    method Mallinfo() returns (mi: MallInfo)
      requires Valid()
      modifies `lo, `hi, `trimThreshold, `topPad, `maxFast, `top, `bins, `s, `fast, `fastbins
      ensures Layout() && (Empty() || Live()) && s == old(s) && BlocksKept(Blocks(s), old(lo), old(hi), lo, hi)
      ensures Blocks(s).Keys + FastBelow(s, NFASTBINS) + BinnedBelow(s, NBINS) <= s.size.Keys
      // uordblks, computed by subtraction, is what the users hold
      ensures mi.uordblks == Weight(s.size, Blocks(s).Keys)
      ensures mi.fordblks == Weight(s.size, FastBelow(s, NFASTBINS)) + Weight(s.size, BinnedBelow(s, NBINS)) + TopSize()
      ensures mi.arena == mi.uordblks + mi.fordblks == sbrkedMem
      ensures mi.fsmblks == Weight(s.size, FastBelow(s, NFASTBINS)) && mi.smblks == |FastBelow(s, NFASTBINS)|
      ensures mi.ordblks == |BinnedBelow(s, NBINS)| + 1 && mi.keepcost == TopSize()
      // sbrk never shrinks, so the high-water mark is what there is
      ensures mi.usmblks == mi.arena
    {
      hide ChunkSize, Empty, Live, Layout, Weight, Valid, BlocksKept, FastBelow, BinnedBelow, Blocks;
      EnsureInit();
      MarksNow();
      TopWord();
      var avail := ChunkSize(hi[top]);
      var nblocks := 1;
      var nfastblocks, fastavail := CountFastbins();
      avail := avail + fastavail;
      var n, a := CountBins();
      nblocks := nblocks + n;
      avail := avail + a;
      UsedSpace();
      mi := MallInfo(nfastblocks, nblocks, avail, sbrkedMem - avail, sbrkedMem, fastavail, ChunkSize(hi[top]),
        maxTotalMem);
    }

    lemma MarksNow()
      requires Layout() && (Empty() || Live())
      ensures sbrkedMem == maxTotalMem
    {
    }

    method CountFastbins() returns (blocks: int, avail: int)
      requires Layout() && (Empty() || Live())
      ensures FastBelow(s, NFASTBINS) <= s.size.Keys
      ensures blocks == |FastBelow(s, NFASTBINS)| && avail == Weight(s.size, FastBelow(s, NFASTBINS))
    {
      hide Empty, Live, Layout, Weight, FastBelow;
      blocks, avail := 0, 0;
      NoneCounted();
      var i := 0;
      while i < NFASTBINS
        invariant 0 <= i <= NFASTBINS && FastBelow(s, i) <= s.size.Keys
        invariant blocks == |FastBelow(s, i)| && avail == Weight(s.size, FastBelow(s, i))
      {
        var n, a := CountFast(i);
        OneMoreFastbin(i);
        blocks := blocks + n;
        avail := avail + a;
        i := i + 1;
      }
    }

    method CountBins() returns (blocks: int, avail: int)
      requires Layout() && (Empty() || Live())
      ensures BinnedBelow(s, NBINS) <= s.size.Keys
      ensures blocks == |BinnedBelow(s, NBINS)| && avail == Weight(s.size, BinnedBelow(s, NBINS))
    {
      hide Empty, Live, Layout, Weight, BinnedBelow;
      blocks, avail := 0, 0;
      NoneCounted();
      var i := 1;
      while i < NBINS
        invariant 1 <= i <= NBINS && BinnedBelow(s, i) <= s.size.Keys
        invariant blocks == |BinnedBelow(s, i)| && avail == Weight(s.size, BinnedBelow(s, i))
      {
        var n, a := CountRing(i);
        OneMoreBin(i);
        blocks := blocks + n;
        avail := avail + a;
        i := i + 1;
      }
    }

    lemma NoneCounted()
      requires Layout() && (Empty() || Live())
      ensures FastBelow(s, 0) == {} && BinnedBelow(s, 1) == {} && Weight(s.size, {}) == 0
    {
      hide HeapInv, FastInv;
      EmptyOrLive();
      if !Bare() { CountsStart(); }
    }

    lemma CountsStart()
      requires Live()
      ensures FastBelow(s, 0) == {} && BinnedBelow(s, 1) == {}
    {
      NoFastbinBelow(s, fast);
      NoBinBelow(s, bins);
    }

    lemma OneMoreFastbin(i: int)
      requires Layout() && (Empty() || Live()) && 0 <= i < NFASTBINS
      ensures |fast| == NFASTBINS && Elems(fast[i]) <= s.size.Keys && FastBelow(s, i) <= s.size.Keys
        && FastBelow(s, i + 1) <= s.size.Keys
      ensures Weight(s.size, FastBelow(s, i + 1)) == Weight(s.size, FastBelow(s, i)) + Weight(s.size, Elems(fast[i]))
      ensures |FastBelow(s, i + 1)| == |FastBelow(s, i)| + |Elems(fast[i])|
    {
      hide HeapInv, FastbinIndex;
      EmptyOrLive();
      if !Bare() {
        CountFastbin(s, fast, i);
      } else {
        assert Elems(fast[i]) == FastBelow(s, i) == FastBelow(s, i + 1) == {};
      }
    }

    lemma OneMoreBin(i: int)
      requires Layout() && (Empty() || Live()) && 1 <= i < NBINS
      ensures |bins| == NBINS && Elems(bins[i]) <= s.size.Keys && BinnedBelow(s, i) <= s.size.Keys
        && BinnedBelow(s, i + 1) <= s.size.Keys
      ensures Weight(s.size, BinnedBelow(s, i + 1)) == Weight(s.size, BinnedBelow(s, i)) +
        Weight(s.size, Elems(bins[i]))
      ensures |BinnedBelow(s, i + 1)| == |BinnedBelow(s, i)| + |Elems(bins[i])|
    {
      hide FastInv, BinIndex;
      EmptyOrLive();
      if !Bare() {
        CountBin(s, binsBase, bins, i);
      } else {
        assert Elems(bins[i]) == BinnedBelow(s, i) == BinnedBelow(s, i + 1) == {};
      }
    }

    /** sbrked_mem is the weight of all chunks. */
    lemma UsedSpace()
      requires Layout() && (Empty() || Live())
      ensures Blocks(s).Keys + FastBelow(s, NFASTBINS) + BinnedBelow(s, NBINS) <= s.size.Keys
      ensures sbrkedMem == Weight(s.size, Blocks(s).Keys) + Weight(s.size, FastBelow(s, NFASTBINS)) +
        Weight(s.size, BinnedBelow(s, NBINS)) + TopSize()
    {
      hide BinIndex, FastbinIndex;
      EmptyOrLive();
      if !Bare() {
        ConservedSpace(s, bins, fast);
      } else {
        assert Blocks(s).Keys == {} && FastBelow(s, NFASTBINS) == {} && BinnedBelow(s, NBINS) == {};
      }
    }

    // ----- The users -----

    /** A user stores v in word k of its own block. */
    method Write(p: int, k: int, v: int)
      requires Live() && p in Blocks(s) && 0 <= k < UsableWords(Blocks(s)[p])
      modifies `lo, `hi
      ensures Live() && WordAt(lo, hi, p, k) == v
      ensures forall j: nat {:trigger WordAt(lo, hi, p, j)} :: j != k && j < UsableWords(Blocks(s)[p]) ==>
        WordAt(lo, hi, p, j) == WordAt(old(lo), old(hi), p, j)
      ensures BlocksKept(Blocks(s) - {p}, old(lo), old(hi), lo, hi)
    {
      hide HeapInv, FastInv, Aligned, MapCovers, BlocksKept;
      BlockInside(p);
      if k % 2 == 0 {
        lo := lo[p + 8 + 4 * k := v];
      } else {
        hi := hi[p + 4 + 4 * k := v];
      }
      UserWriteStep(s, binsBase, bins, fast, fastbins, old(lo), old(hi), lo, hi, p);
      PayloadsToBlocks(s, Blocks(s) - {p}, old(lo), old(hi), lo, hi, {p});
    }

    /** The allocator at boot: its statics are zero, the rest of memory is whatever
        it is. */
    constructor (binsBase: int, memHeap: int, lo: seq<int>, hi: seq<int>)
      requires 0 < binsBase && binsBase + 8 * NBINS <= memHeap <= 0x100_0000 && Aligned(memHeap)
      requires |lo| == |hi| == 0x100_0000 && hi[binsBase] == 0
      ensures Valid() && Raw() && Blocks(s) == map[] && fresh(this)
      ensures this.lo == lo && this.hi == hi
    {
      this.binsBase, this.memHeap, this.memHeapEnd := binsBase, memHeap, 0x100_0000;
      this.lo, this.hi := lo, hi;
      maxFast, top, lastRemainder, trimThreshold, topPad := 0, 0, 0, 0, 0;
      sbrkedMem, maxSbrkedMem, maxTotalMem := 0, 0, 0;
      fastbins, binmap := seq(NFASTBINS, _ => 0), seq(BINMAPSIZE + 1, _ => 0);
      curptr := memHeap;
      s := Shape(memHeap, memHeap, 0, map[], map[]);
      bins, fast := seq(NBINS, _ => []), seq(NFASTBINS, _ => []);
    }

    lemma HeapBins()
      requires HeapOk()
      ensures |bins| == NBINS
    {
    }
  }
}
