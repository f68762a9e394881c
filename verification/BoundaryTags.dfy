/** Boundary tags: the two words in front of every chunk, read and written
    through `prev_size` and `size`, and what they must say about the heap.

    Memory is kept as two sequences indexed by byte address: for a doubleword
    address a, lo[a] is the word at a and hi[a] the word at a + 4.  A chunk at p
    has prev_size lo[p], size hi[p], fd lo[p + 8] and bk hi[p + 8]; its payload
    is lo[a] for p < a <= next and hi[a] for p < a < next. */
module BoundaryTags {
  import opened SizeClasses
  import opened HeapShape

  // ----- The fields packed into a size word -----

  function ChunkSize(word: int): int { word / 4 * 4 }

  predicate PrevInuse(word: int) { word % 2 == 1 }

  predicate IsMmapped(word: int) { word / 2 % 2 == 1 }

  function SetPrevInuse(word: int): int { if PrevInuse(word) then word else word + 1 }

  /** set_head_size: a new size under the old P bit. */
  function SetHeadSize(word: int, size: int): int { size + word % 2 }

  function InuseBit(b: bool): int { if b then 1 else 0 }

  /** Reading back the fields of a size word. */
  lemma SizeWord(size: int, b: bool)
    requires Aligned(size)
    ensures var w := size + InuseBit(b);
      ChunkSize(w) == size && (PrevInuse(w) <==> b) && !IsMmapped(w) && SetPrevInuse(w) == size + 1
  {
    var k := size / 8;
    assert size == 8 * k;
    assert (8 * k + InuseBit(b)) / 4 == 2 * k;
    assert (8 * k + InuseBit(b)) / 2 == 4 * k;
  }

  // ----- What the tags must say -----

  ghost predicate Bounded(s: Shape, lo: seq<int>, hi: seq<int>) {
    0 < s.base && s.end <= |lo| == |hi|
  }

  /** Chunk x, as its successor's tag records it: the P bit says whether x is in
      use and, when it is not, the foot repeats its size. */
  ghost predicate Tag(s: Shape, lo: seq<int>, hi: seq<int>, x: int)
    requires x in s.size
  {
    && 0 <= x < |hi|
    && (x == s.base ==> hi[x] == s.size[x] + 1)
    && (x != s.top ==>
          var n := Next(s, x);
          && n in s.size && 0 <= n < |lo| && n < |hi|
          && hi[n] == s.size[n] + InuseBit(!IsFree(s, x))
          && (IsFree(s, x) ==> lo[n] == s.size[x]))
  }

  ghost predicate Tags(s: Shape, lo: seq<int>, hi: seq<int>) {
    forall x {:trigger Tag(s, lo, hi, x)} :: x in s.size ==> Tag(s, lo, hi, x)
  }

  /** The size word of any chunk holds its size. */
  lemma HeadWord(s: Shape, lo: seq<int>, hi: seq<int>, y: int)
    requires Tiled(s) && Bounded(s, lo, hi) && Tags(s, lo, hi) && y in s.size
    ensures 0 <= y < y + 8 < |hi| && (hi[y] == s.size[y] || hi[y] == s.size[y] + 1)
    ensures ChunkSize(hi[y]) == s.size[y] && !IsMmapped(hi[y])
    ensures PrevInuse(hi[y]) <==> hi[y] == s.size[y] + 1
  {
    Inside(s, y);
    if y == s.base {
      assert Tag(s, lo, hi, y);
    } else {
      var x := Predecessor(s, y);
      assert Tag(s, lo, hi, x);
    }
    SizeWord(s.size[y], hi[y] == s.size[y] + 1);
  }

  /** The picture determines every size word. */
  lemma HeadDetermined(s: Shape, lo: seq<int>, hi: seq<int>, lo': seq<int>, hi': seq<int>, y: int)
    requires Tiled(s) && Bounded(s, lo, hi) && Tags(s, lo, hi) && Bounded(s, lo', hi') && Tags(s, lo', hi')
    requires y in s.size
    ensures 0 <= y < |hi| && y < |hi'| && hi'[y] == hi[y]
  {
    Inside(s, y);
    if y == s.base {
      assert Tag(s, lo, hi, y) && Tag(s, lo', hi', y);
    } else {
      var x := Predecessor(s, y);
      assert Tag(s, lo, hi, x) && Tag(s, lo', hi', x);
    }
  }

  /** A clear P bit leads to the free chunk before. */
  lemma StepBack(s: Shape, lo: seq<int>, hi: seq<int>, y: int) returns (x: int)
    requires Tiled(s) && Bounded(s, lo, hi) && Tags(s, lo, hi) && y in s.size
    requires 0 <= y < |hi| && !PrevInuse(hi[y])
    ensures x in s.size && IsFree(s, x) && x != s.top && Next(s, x) == y
    ensures y < |lo| && lo[y] == s.size[x] && x == y - lo[y]
  {
    HeadWord(s, lo, hi, y);
    assert y == s.base ==> Tag(s, lo, hi, y);
    x := Predecessor(s, y);
    assert Tag(s, lo, hi, x);
  }

  // ----- Changes confined to one run of chunks -----

  /** Memory changes only inside the run [f, e): payload and feet of the run,
      the header of f and the P bit of e. */
  ghost predicate Within(lo: seq<int>, hi: seq<int>, lo': seq<int>, hi': seq<int>, f: int, e: int) {
    && |lo'| == |lo| && |hi'| == |hi|
    && (forall a {:trigger lo'[a]} :: 0 <= a < |lo| && !(f < a <= e) ==> lo'[a] == lo[a])
    && (forall a {:trigger hi'[a]} :: 0 <= a < |hi| && !(f <= a <= e) ==> hi'[a] == hi[a])
  }

  /** The picture changes only inside the run. */
  ghost predicate SameOutside(s: Shape, s': Shape, f: int, e: int) {
    && s'.base == s.base && f < e
    && f in s.size && f in s'.size && (e in s.size <==> e in s'.size)
    && (forall x {:trigger SameChunk(s, s', x)} :: !(f <= x < e) ==> SameChunk(s, s', x))
  }

  ghost predicate SameChunk(s: Shape, s': Shape, x: int) {
    && (x in s.size <==> x in s'.size)
    && (x in s.size ==> s'.size[x] == s.size[x])
    && (x in s.st <==> x in s'.st)
    && (x in s.st ==> s'.st[x] == s.st[x])
    && (x == s.top <==> x == s'.top)
  }

  /** If the run's own chunks are tagged right in the new state, and the header
      of its first chunk kept its P bit, every tag in the heap is right. */
  lemma TagsLocal(s: Shape, s': Shape, lo: seq<int>, hi: seq<int>, lo': seq<int>, hi': seq<int>, f: int, e: int)
    requires Tiled(s) && Bounded(s, lo, hi) && Tags(s, lo, hi) && Tiled(s')
    requires SameOutside(s, s', f, e) && Boundary(s, e) && Within(lo, hi, lo', hi', f, e)
    requires 0 <= f < |hi| && hi'[f] - s'.size[f] == hi[f] - s.size[f]
    requires forall x {:trigger Tag(s', lo', hi', x)} :: x in s'.size && f <= x < e ==> Tag(s', lo', hi', x)
    ensures Tags(s', lo', hi')
  {
    hide BinIndex, Aligned;
    Inside(s, f);
    forall x | x in s'.size && !(f <= x < e)
      ensures Tag(s', lo', hi', x)
    {
      assert SameChunk(s, s', x);
      assert Tag(s, lo, hi, x);
      Inside(s, x);
      var n := Next(s, x);
      assert x < f ==> Apart(s, x, f);
      if x != s.top && n != f { assert SameChunk(s, s', n); }
    }
  }

  // ----- Payloads -----

  /** The user words of block q are the same in both memories. */
  ghost predicate PayloadKept(s: Shape, lo: seq<int>, hi: seq<int>, lo': seq<int>, hi': seq<int>, q: int)
    requires q in s.size
  {
    && |lo'| == |lo| && |hi'| == |hi|
    && (forall a {:trigger lo'[a]} :: 0 <= a < |lo| && q < a <= Next(s, q) ==> lo'[a] == lo[a])
    && (forall a {:trigger hi'[a]} :: 0 <= a < |hi| && q < a < Next(s, q) ==> hi'[a] == hi[a])
  }

  /** Every block in use except those of `but` keeps its words. */
  ghost predicate PayloadsKept(s: Shape, lo: seq<int>, hi: seq<int>, lo': seq<int>, hi': seq<int>, but: set<int>) {
    forall q {:trigger PayloadKept(s, lo, hi, lo', hi', q)} ::
      q in s.size && Inuse(s, q) && q !in but ==> PayloadKept(s, lo, hi, lo', hi', q)
  }

  /** Writes inside a run touch no payload outside it. */
  lemma WithinKeepsPayloads(s: Shape, lo: seq<int>, hi: seq<int>, lo': seq<int>, hi': seq<int>, f: int, e: int, q: int)
    requires Tiled(s) && f in s.size && f < e && Boundary(s, e) && Within(lo, hi, lo', hi', f, e)
    requires q in s.size && !(f <= q < e)
    ensures PayloadKept(s, lo, hi, lo', hi', q)
  {
    assert Apart(s, q, f) && (e in s.size ==> Apart(s, q, e));
    Inside(s, q);
  }

  /** A place with fd and bk words: a bin header below the heap, or a chunk. */
  ghost predicate LinkNode(s: Shape, b: int) {
    (0 <= b && b + 8 < s.base) || b in s.size
  }

  /** Only fd and bk words of the given nodes differ. */
  ghost predicate LinksOnly(lo: seq<int>, hi: seq<int>, lo': seq<int>, hi': seq<int>, nodes: set<int>) {
    && |lo'| == |lo| && |hi'| == |hi|
    && (forall a {:trigger lo'[a]} :: 0 <= a < |lo| && a - 8 !in nodes ==> lo'[a] == lo[a])
    && (forall a {:trigger hi'[a]} :: 0 <= a < |hi| && a - 8 !in nodes ==> hi'[a] == hi[a])
  }

  /** Relinking a list disturbs no boundary tag ... */
  lemma RelinkKeepsTags(s: Shape, lo: seq<int>, hi: seq<int>, lo': seq<int>, hi': seq<int>, nodes: set<int>)
    requires Tiled(s) && Bounded(s, lo, hi) && Tags(s, lo, hi)
    requires LinksOnly(lo, hi, lo', hi', nodes)
    requires forall b {:trigger LinkNode(s, b)} :: b in nodes ==> LinkNode(s, b)
    ensures Tags(s, lo', hi')
  {
    hide BinIndex, Aligned;
    forall x | x in s.size
      ensures Tag(s, lo', hi', x)
    {
      assert Tag(s, lo, hi, x);
      NotALink(s, nodes, x);
      if x != s.top {
        assert ChunkOk(s, x);
        NotALink(s, nodes, Next(s, x));
      }
    }
  }

  /** The header words of a chunk are no node's link words. */
  lemma NotALink(s: Shape, nodes: set<int>, x: int)
    requires Tiled(s) && x in s.size
    requires forall b {:trigger LinkNode(s, b)} :: b in nodes ==> LinkNode(s, b)
    ensures x - 8 !in nodes
  {
    hide BinIndex, Aligned;
    var b := x - 8;
    Inside(s, x);
    assert LinkNode(s, b) <==> (0 <= b && b + 8 < s.base) || b in s.size;
    assert b in s.size ==> ChunkOk(s, b) && Apart(s, b, x);
  }

  /** ... and no payload but those of the relinked chunks themselves. */
  lemma RelinkKeepsPayloads(s: Shape, lo: seq<int>, hi: seq<int>, lo': seq<int>, hi': seq<int>, nodes: set<int>)
    requires Tiled(s) && LinksOnly(lo, hi, lo', hi', nodes)
    requires forall b {:trigger LinkNode(s, b)} :: b in nodes ==> LinkNode(s, b)
    ensures PayloadsKept(s, lo, hi, lo', hi', nodes)
  {
    hide BinIndex, Aligned;
    forall q | q in s.size && Inuse(s, q) && q !in nodes
      ensures PayloadKept(s, lo, hi, lo', hi', q)
    {
      forall a | 0 <= a < |lo| && q < a <= Next(s, q)
        ensures lo'[a] == lo[a]
      {
        PayloadIsNoLink(s, nodes, q, a);
      }
      forall a | 0 <= a < |hi| && q < a < Next(s, q)
        ensures hi'[a] == hi[a]
      {
        PayloadIsNoLink(s, nodes, q, a);
      }
    }
  }

  /** Headers and free chunks hold no payload at all. */
  lemma RelinkSparesUsers(s: Shape, lo: seq<int>, hi: seq<int>, lo': seq<int>, hi': seq<int>, nodes: set<int>)
    requires Tiled(s) && LinksOnly(lo, hi, lo', hi', nodes)
    requires forall b {:trigger LinkNode(s, b)} :: b in nodes ==> LinkNode(s, b) && !Inuse(s, b)
    ensures PayloadsKept(s, lo, hi, lo', hi', {})
  {
    hide BinIndex, Aligned;
    RelinkKeepsPayloads(s, lo, hi, lo', hi', nodes);
    forall q | q in s.size && Inuse(s, q)
      ensures PayloadKept(s, lo, hi, lo', hi', q)
    {
      assert LinkNode(s, q);
    }
  }

  lemma PayloadIsNoLink(s: Shape, nodes: set<int>, q: int, a: int)
    requires Tiled(s) && q in s.size && q < a <= Next(s, q) && q !in nodes
    requires forall b {:trigger LinkNode(s, b)} :: b in nodes ==> LinkNode(s, b)
    ensures a - 8 !in nodes
  {
    hide BinIndex, Aligned;
    var b := a - 8;
    assert LinkNode(s, b) <==> (0 <= b && b + 8 < s.base) || b in s.size;
    assert ChunkOk(s, q);
    assert b in s.size ==> ChunkOk(s, b) && Apart(s, b, q) && Apart(s, q, b);
  }

  lemma PayloadsChain(s: Shape, lo: seq<int>, hi: seq<int>, lo1: seq<int>, hi1: seq<int>,
                      lo2: seq<int>, hi2: seq<int>, but1: set<int>, but2: set<int>)
    requires PayloadsKept(s, lo, hi, lo1, hi1, but1) && PayloadsKept(s, lo1, hi1, lo2, hi2, but2)
    ensures PayloadsKept(s, lo, hi, lo2, hi2, but1 + but2)
  {
    forall q | q in s.size && Inuse(s, q) && q !in but1 + but2
      ensures PayloadKept(s, lo, hi, lo2, hi2, q)
    {
      assert PayloadKept(s, lo, hi, lo1, hi1, q) && PayloadKept(s, lo1, hi1, lo2, hi2, q);
    }
  }

  /** Every block in use outside the run [f, e) keeps its words. */
  ghost predicate KeptOutside(s: Shape, lo: seq<int>, hi: seq<int>, lo': seq<int>, hi': seq<int>, f: int, e: int) {
    forall q {:trigger PayloadKept(s, lo, hi, lo', hi', q)} ::
      q in s.size && Inuse(s, q) && !(f <= q < e) ==> PayloadKept(s, lo, hi, lo', hi', q)
  }

  /** Writes inside a run followed by relinking in the new picture spare every
      block outside the run. */
  lemma PayloadsAcross(s: Shape, s': Shape, lo: seq<int>, hi: seq<int>, lo1: seq<int>, hi1: seq<int>,
                       lo': seq<int>, hi': seq<int>, f: int, e: int)
    requires Tiled(s) && Boundary(s, e) && SameOutside(s, s', f, e)
    requires Within(lo, hi, lo1, hi1, f, e) && PayloadsKept(s', lo1, hi1, lo', hi', {})
    ensures KeptOutside(s, lo, hi, lo', hi', f, e)
  {
    forall q | q in s.size && Inuse(s, q) && !(f <= q < e)
      ensures PayloadKept(s, lo, hi, lo', hi', q)
    {
      WithinKeepsPayloads(s, lo, hi, lo1, hi1, f, e, q);
      assert SameChunk(s, s', q) && PayloadKept(s', lo1, hi1, lo', hi', q);
    }
  }
}
