/** Which chunk malloc owes to a request: the order in which parked blocks, bins, the
    unsorted bin, best fit and top have their turn. */
module Selection {
  import opened SizeClasses
  import opened HeapShape
  import opened HeapSteps
  import opened BestFit

  /** Where a block came from; `fit` is the size of the free chunk taken. */
  datatype Choice =
    | FromFastbin
    | FromSmallbin
    | FromUnsorted
    | FromLastRemainder
    | FromBin(fit: int)
    | FromTop
    | Refused

  /** What malloc looks at.  `anyFree` and `parked` are the two flags: whether there
      may be free chunks, and parked ones; `top` is where top is or will be. */
  datatype Situation = Situation(s: Shape, bins: seq<seq<int>>, fast: seq<seq<int>>, lastRemainder: int,
                                 anyFree: bool, parked: bool, top: int, topSize: int)

  /** A parked block of exactly this size. */
  ghost predicate FastDue(v: Situation, nb: int) {
    v.anyFree && nb <= FAST_LIMIT && 0 <= FastbinIndex(nb) < |v.fast| && v.fast[FastbinIndex(nb)] != []
  }

  /** A chunk in the small bin of this size. */
  ghost predicate SmallDue(v: Situation, nb: nat) {
    v.anyFree && InSmallbinRange(nb) && BinIndex(nb) < |v.bins| && v.bins[BinIndex(nb)] != []
  }

  ghost predicate SizeAt(v: Situation, k: int, size: int) {
    1 < |v.bins| && 0 <= k < |v.bins[1]| && v.bins[1][k] in v.s.size && v.s.size[v.bins[1][k]] == size
  }

  /** The unsorted chunk at place k is the first exact fit from the back. */
  ghost predicate ExactDue(v: Situation, nb: int, k: int) {
    SizeAt(v, k, nb) && forall j {:trigger SizeAt(v, j, nb)} :: j > k ==> !SizeAt(v, j, nb)
  }

  /** The last remainder is at the front of the unsorted bin and no chunk behind it is
      an exact fit, so that it is alone when its turn comes. */
  ghost predicate RemainderDue(v: Situation, nb: int) {
    && InSmallbinRange(nb) && 1 < |v.bins| && v.bins[1] != [] && v.bins[1][0] == v.lastRemainder
    && v.lastRemainder in v.s.size && v.s.size[v.lastRemainder] > nb + MINSIZE
    && forall j {:trigger SizeAt(v, j, nb)} :: !SizeAt(v, j, nb)
  }

  ghost predicate AnyExact(v: Situation, nb: int) {
    exists k :: SizeAt(v, k, nb)
  }

  /** Fastbin, small bin, unsorted exact fit, last remainder, best fit, top: each is
      used only when those before it have nothing. */
  ghost predicate Served(v: Situation, nb: nat, p: int, how: Choice) {
    if FastDue(v, nb) then how == FromFastbin && p == v.fast[FastbinIndex(nb)][0]
    else if SmallDue(v, nb) then how == FromSmallbin && p == v.bins[BinIndex(nb)][|v.bins[BinIndex(nb)]| - 1]
    else if AnyExact(v, nb) then
      how == FromUnsorted && exists k {:trigger ExactDue(v, nb, k)} :: ExactDue(v, nb, k) && p == v.bins[1][k]
    else if RemainderDue(v, nb) then how == FromLastRemainder && p == v.lastRemainder
    else if !NothingFits(v.s, nb) then SmallestFit(v.s, p, nb) && how == FromBin(v.s.size[p])
    else how == FromTop && p == v.top
  }

  /** Nothing but top is left. */
  ghost predicate NothingServes(v: Situation, nb: nat) {
    !FastDue(v, nb) && !SmallDue(v, nb) && !AnyExact(v, nb) && !RemainderDue(v, nb) && NothingFits(v.s, nb)
  }

  /** Parked blocks are given back to the heap first for a large request, and for a
      small one when nothing else is left. */
  ghost predicate ConsolidationDue(v: Situation, nb: nat) {
    && v.parked && !FastDue(v, nb)
    && (!InSmallbinRange(nb) || (NothingServes(v, nb) && v.topSize < nb + MINSIZE))
  }

  /** The same blocks, nothing parked any more, free chunks fused again. */
  ghost predicate Consolidated(v: Situation, v': Situation) {
    && Blocks(v'.s) == Blocks(v.s) && v'.lastRemainder == v.lastRemainder && !v'.parked
    && Tiled(v'.s) && Coalesced(v'.s) && forall x {:trigger v'.s.st[x]} :: x in v'.s.st ==> v'.s.st[x] != Fast
  }

  /** The last remainder is what was cut off for a small request, but not off top. */
  function RemainderAfter(v: Situation, nb: int, p: int, how: Choice): int {
    match how
    case FromLastRemainder => p + nb
    case FromBin(fit) => if InSmallbinRange(nb) && fit >= nb + MINSIZE then p + nb else v.lastRemainder
    case _ => v.lastRemainder
  }

  /** The turn of the last chunk of the unsorted list. */
  ghost predicate TurnOf(s: Shape, l: seq<int>, lastRemainder: int, nb: int, p: int, how: Choice) {
    l != [] && l[|l| - 1] in s.size && var v := l[|l| - 1];
      if InSmallbinRange(nb) && |l| == 1 && v == lastRemainder && s.size[v] > nb + MINSIZE then
        p == v && how == FromLastRemainder
      else if s.size[v] == nb then p == v && how == FromUnsorted
      else p == 0 && how == Refused
  }

  /** The part of Served that concerns the unsorted bin. */
  ghost predicate UnsortedServed(v: Situation, nb: int, p: int, how: Choice) {
    if AnyExact(v, nb) then
      how == FromUnsorted && exists k {:trigger ExactDue(v, nb, k)} :: ExactDue(v, nb, k) && p == v.bins[1][k]
    else if RemainderDue(v, nb) then how == FromLastRemainder && p == v.lastRemainder
    else how == Refused && p == 0
  }

  /** All unsorted chunks from place n on have had their turn and were passed over. */
  ghost predicate Passed(v: Situation, nb: int, n: int) {
    && 1 < |v.bins| && 0 <= n <= |v.bins[1]|
    && (forall j {:trigger SizeAt(v, j, nb)} :: j >= n ==> !SizeAt(v, j, nb))
    && (n == 0 ==> !RemainderDue(v, nb))
  }

  lemma TurnServed(v: Situation, s: Shape, n: int, nb: int, p: int, how: Choice)
    requires Passed(v, nb, n) && 0 < n && SameChunks(v.s, s) && TurnOf(s, v.bins[1][..n], v.lastRemainder, nb, p, how)
    ensures how != Refused ==> UnsortedServed(v, nb, p, how)
    ensures how == Refused ==> p == 0 && Passed(v, nb, n - 1)
  {
    assert v.bins[1][..n][n - 1] == v.bins[1][n - 1];
    assert SizeAt(v, n - 1, v.s.size[v.bins[1][n - 1]]);
    if how == FromUnsorted {
      assert ExactDue(v, nb, n - 1);
    }
  }

  lemma AllPassed(v: Situation, nb: int)
    requires Passed(v, nb, 0)
    ensures UnsortedServed(v, nb, 0, Refused) && !AnyExact(v, nb)
  {
  }

  /** Sorting the unsorted chunks into their bins moves no chunk and frees none. */
  ghost predicate SameChunks(s: Shape, s': Shape) {
    && s'.size == s.size && s'.top == s.top
    && forall x {:trigger IsFree(s', x)} {:trigger IsFree(s, x)} :: IsFree(s', x) <==> IsFree(s, x)
  }

  /** v1 is at with the unsorted chunks sorted away. */
  ghost predicate AllBinned(at: Situation, v1: Situation) {
    && SameChunks(at.s, v1.s) && Blocks(v1.s) == Blocks(at.s) && v1.parked == at.parked
    && v1.lastRemainder == at.lastRemainder && v1.top == at.top && v1.topSize == at.topSize
  }

  /** The search found nothing, at v0 or after consolidating, and top had its turn in
      v1: then top was due, or consolidation was. */
  lemma TopServed(v0: Situation, at: Situation, v1: Situation, at2: Situation, nb: nat, p: int, how: Choice)
    requires if v0.parked && !InSmallbinRange(nb) then Consolidated(v0, at) else at == v0
    requires NothingServes(at, nb) && AllBinned(at, v1) && !FastDue(v0, nb)
    requires if v1.parked && v1.topSize < nb + MINSIZE then
               InSmallbinRange(nb) && Consolidated(v1, at2)
               && (if p != 0 then Served(at2, nb, p, how) else NothingServes(at2, nb))
             else at2 == v1 && (p != 0 ==> how == FromTop && p == v1.top)
    ensures at2 == v1 ==> at2.topSize == at.topSize
    ensures var a := if v1.parked && v1.topSize < nb + MINSIZE then at2 else at;
      && (if ConsolidationDue(v0, nb) then Consolidated(v0, a) else a == v0)
      && (p != 0 ==> Served(a, nb, p, how) && RemainderAfter(at2, nb, p, how) == RemainderAfter(a, nb, p, how))
      && (p == 0 ==> NothingServes(a, nb))
  {
    hide FastDue, SmallDue, AnyExact, RemainderDue, NothingFits, SmallestFit;
  }

  /** Whatever the search finds was not left to consolidation. */
  lemma SearchServed(v0: Situation, at: Situation, nb: nat, p: int, how: Choice)
    requires if v0.parked && !InSmallbinRange(nb) then Consolidated(v0, at) else at == v0
    requires Served(at, nb, p, how) && how != FromTop
    ensures if ConsolidationDue(v0, nb) then Consolidated(v0, at) else at == v0
  {
    hide SmallDue, AnyExact, RemainderDue, NothingFits, SmallestFit, FastbinIndex;
  }

  lemma SameSizes(s: Shape, s': Shape)
    requires SameChunks(s, s')
    ensures s'.size == s.size
  {
  }

  lemma FitServed(s: Shape, p: int, nb: int)
    requires SmallestFit(s, p, nb)
    ensures !NothingFits(s, nb) && p in s.size
  {
    assert Fits(s, p, nb);
  }

  lemma SameFits(s: Shape, s': Shape, nb: int)
    requires SameChunks(s, s')
    ensures NothingFits(s, nb) <==> NothingFits(s', nb)
    ensures forall p {:trigger SmallestFit(s, p, nb)} {:trigger SmallestFit(s', p, nb)} ::
      SmallestFit(s, p, nb) <==> SmallestFit(s', p, nb)
  {
    assert forall x {:trigger Fits(s, x, nb)} {:trigger Fits(s', x, nb)} :: Fits(s', x, nb) <==> Fits(s, x, nb);
  }
}
