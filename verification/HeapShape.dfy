/** The ghost picture of the heap: which chunks tile the region obtained from
    sbrk, how large each is and what it is used for. */
module HeapShape {
  import opened SizeClasses

  datatype Status = Used | Fast | Binned(bin: nat) | Top

  datatype Shape = Shape(base: int, end: int, top: int, size: map<int, int>, st: map<int, Status>)

  /** The chunk physically after x. */
  function Next(s: Shape, x: int): int
    requires x in s.size
  {
    x + s.size[x]
  }

  ghost predicate IsFree(s: Shape, x: int) {
    x in s.st && s.st[x].Binned?
  }

  /** Held by the user or parked in a fastbin: its successor's P bit is set. */
  ghost predicate Inuse(s: Shape, x: int) {
    x in s.st && (s.st[x] == Used || s.st[x] == Fast)
  }

  ghost predicate ChunkOk(s: Shape, x: int) {
    && x in s.size && x in s.st
    && s.base <= x && Aligned(x) && LegalSize(s.size[x]) && Next(s, x) <= s.end
    && (s.st[x] == Top <==> x == s.top)
    && (if x == s.top then Next(s, x) == s.end else Next(s, x) in s.size)
    && Suits(s.st[x], s.size[x])
  }

  /** The size classes: fastbin chunks are small, and a binned chunk is in the
      unsorted bin (1) or in the bin of its size. */
  ghost predicate Suits(t: Status, size: int) {
    && (t == Fast ==> size <= FAST_LIMIT)
    && (t.Binned? ==> t.bin == 1 || (size >= 0 && t.bin == BinIndex(size)))
  }

  ghost predicate Apart(s: Shape, x: int, y: int)
    requires x in s.size
  {
    x < y ==> Next(s, x) <= y
  }

  /** The chunks tile [base, end) exactly, and top is the last of them. */
  ghost predicate Tiled(s: Shape) {
    && s.base in s.size && s.top in s.size && s.size.Keys == s.st.Keys
    && (forall x {:trigger ChunkOk(s, x)} :: x in s.size ==> ChunkOk(s, x))
    && (forall x, y {:trigger Apart(s, x, y)} :: x in s.size && y in s.size ==> Apart(s, x, y))
  }

  /** No two free chunks are neighbours, and none borders top. */
  ghost predicate Coalesced(s: Shape) {
    forall x {:trigger IsFree(s, x)} :: x in s.size && IsFree(s, x) && x != s.top ==> Inuse(s, Next(s, x))
  }

  /** Every chunk lies inside the region. */
  lemma Inside(s: Shape, x: int)
    requires Tiled(s) && x in s.size
    ensures s.base <= x <= s.top && x + MINSIZE <= Next(s, x) <= s.end
    ensures ChunkOk(s, x) && ChunkOk(s, s.top)
  {
    assert ChunkOk(s, x) && ChunkOk(s, s.top);
    assert Apart(s, x, s.top) && Apart(s, s.top, x);
  }

  /** The boundary between two chunks belongs to exactly one of them. */
  lemma Predecessor(s: Shape, y: int) returns (x: int)
    requires Tiled(s) && y in s.size && y != s.base
    ensures x in s.size && x != s.top && Next(s, x) == y
  {
    Inside(s, y);
    x := PredecessorFrom(s, s.base, y);
  }

  lemma PredecessorFrom(s: Shape, from: int, y: int) returns (x: int)
    requires Tiled(s) && y in s.size && from in s.size && from < y
    ensures x in s.size && x != s.top && Next(s, x) == y
    decreases y - from
  {
    Inside(s, y);
    assert ChunkOk(s, from) && Apart(s, from, y);
    if Next(s, from) == y {
      x := from;
    } else {
      x := PredecessorFrom(s, Next(s, from), y);
    }
  }

  // ----- The four ways an operation changes the picture -----

  function SetStatus(s: Shape, p: int, t: Status): Shape {
    s.(st := s.st[p := t])
  }

  /** Fuse the run of chunks from f up to (not including) e into one. */
  function Merge(s: Shape, f: int, e: int, t: Status): Shape
    requires s.size.Keys == s.st.Keys
  {
    s.(size := map x | x in s.size && !(f < x < e) :: if x == f then e - f else s.size[x],
       st := map x | x in s.size && !(f < x < e) :: if x == f then t else s.st[x],
       top := if f < s.top < e then f else s.top)
  }

  /** Cut chunk p after nb bytes; u is the status of the upper part. */
  function Split(s: Shape, p: int, nb: int, t: Status, u: Status): Shape
    requires p in s.size
  {
    s.(size := s.size[p := nb][p + nb := s.size[p] - nb],
       st := s.st[p := t][p + nb := u],
       top := if p == s.top then p + nb else s.top)
  }

  /** sbrk gave more memory at the end of the region. */
  function GrowTop(s: Shape, more: int): Shape
    requires s.top in s.size
  {
    s.(end := s.end + more, size := s.size[s.top := s.size[s.top] + more])
  }

  ghost predicate Boundary(s: Shape, e: int) { e in s.size || e == s.end }

  lemma SetStatusTiled(s: Shape, p: int, t: Status)
    requires Tiled(s) && p in s.size && p != s.top && t != Top
    requires Suits(t, s.size[p])
    ensures Tiled(SetStatus(s, p, t))
  {
    hide BinIndex, Aligned;
    var s' := SetStatus(s, p, t);
    assert s'.size.Keys == s'.st.Keys by { assert p in s.st; }
    forall x | x in s'.size ensures ChunkOk(s', x) { assert ChunkOk(s, x); }
    forall x, y | x in s'.size && y in s'.size ensures Apart(s', x, y) { assert Apart(s, x, y); }
  }

  lemma MergeTiled(s: Shape, f: int, e: int, t: Status)
    requires Tiled(s) && f in s.size && f < e && Boundary(s, e)
    requires t == Top <==> e == s.end
    requires t != Fast && (t.Binned? ==> t.bin == 1)
    ensures Tiled(Merge(s, f, e, t))
  {
    hide BinIndex, Aligned;
    var s' := Merge(s, f, e, t);
    Inside(s, f);
    assert ChunkOk(s, f) && ChunkOk(s, s.top);
    if e in s.size { Inside(s, e); assert ChunkOk(s, e) && Apart(s, f, e) && Apart(s, e, f); }
    assert Apart(s, f, s.top);
    AlignedSum(s.top, s.size[s.top]);
    AlignedSum(e, f);
    assert s'.size.Keys == s'.st.Keys;
    forall x | x in s'.size ensures ChunkOk(s', x) {
      assert ChunkOk(s, x);
      Inside(s, x);
      if x < f { assert Apart(s, x, f); }
      if e in s.size { assert Apart(s, x, e); }
    }
    forall x, y | x in s'.size && y in s'.size ensures Apart(s', x, y) {
      assert Apart(s, x, y);
      Inside(s, y);
    }
  }

  ghost predicate CanSplit(s: Shape, p: int, nb: int, u: Status) {
    && Tiled(s) && p in s.size
    && LegalSize(nb) && nb + MINSIZE <= s.size[p]
    && (u == Top <==> p == s.top)
    && (u == Top || u == Used || u == Binned(1))
  }

  lemma SplitTiled(s: Shape, p: int, nb: int, u: Status)
    requires CanSplit(s, p, nb, u)
    ensures Tiled(Split(s, p, nb, Used, u)) && p + nb !in s.size
  {
    hide BinIndex, Aligned;
    var s', r := Split(s, p, nb, Used, u), p + nb;
    Inside(s, p);
    assert p in s.st && s'.size.Keys == s'.st.Keys;
    assert r in s.size ==> Apart(s, p, r);
    forall x | x in s'.size ensures ChunkOk(s', x) { SplitChunk(s, p, nb, u, x); }
    forall x, y | x in s'.size && y in s'.size ensures Apart(s', x, y) { SplitApart(s, p, nb, u, x, y); }
  }

  lemma SplitChunk(s: Shape, p: int, nb: int, u: Status, x: int)
    requires CanSplit(s, p, nb, u) && p + nb !in s.size
    requires x in Split(s, p, nb, Used, u).size
    ensures ChunkOk(Split(s, p, nb, Used, u), x)
  {
    hide BinIndex, Aligned, Tiled;
    assert ChunkOk(s, p) && ChunkOk(s, s.top) by { Inside(s, p); }
    if x == p {
      AlignedSum(p, nb);
    } else if x == p + nb {
      AlignedSum(p, nb);
      AlignedSum(s.size[p], nb);
      assert Next(Split(s, p, nb, Used, u), x) == Next(s, p);
    } else {
      assert ChunkOk(s, x) by { Inside(s, x); }
    }
  }

  lemma SplitApart(s: Shape, p: int, nb: int, u: Status, x: int, y: int)
    requires CanSplit(s, p, nb, u) && p + nb !in s.size
    requires x in Split(s, p, nb, Used, u).size && y in Split(s, p, nb, Used, u).size
    ensures Apart(Split(s, p, nb, Used, u), x, y)
  {
    hide Aligned;
    if x in s.size && y in s.size { assert Apart(s, x, y); }
    Inside(s, p);
    if x in s.size { assert Apart(s, x, p) && Apart(s, p, x); Inside(s, x); }
    if y in s.size { assert Apart(s, p, y); Inside(s, y); }
  }

  lemma GrowTopTiled(s: Shape, more: int)
    requires Tiled(s) && more > 0 && Aligned(more)
    ensures Tiled(GrowTop(s, more))
  {
    hide BinIndex, Aligned;
    var s' := GrowTop(s, more);
    forall x | x in s'.size ensures ChunkOk(s', x) {
      assert ChunkOk(s, x);
      AlignedSum(more, s.size[x]);
    }
    forall x, y | x in s'.size && y in s'.size ensures Apart(s', x, y) {
      assert Apart(s, x, y);
      Inside(s, y);
    }
  }
}
