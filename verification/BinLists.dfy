/** The bins: circular doubly linked lists threaded through the fd and bk words
    of free chunks, each closed by a header in the allocator's own state. */
module BinLists {
  import opened SizeClasses
  import opened HeapShape
  import opened BoundaryTags

  // ----- One ring -----

  /** The nodes of a list in fd order, its header first and again last. */
  function RingOf(h: int, chunks: seq<int>): seq<int> { [h] + chunks + [h] }

  /** Nodes k and k + 1 point at each other. */
  ghost predicate Hop(c: seq<int>, lo: seq<int>, hi: seq<int>, k: int) {
    && 0 <= k < |c| - 1
    && 0 <= c[k] + 8 < |lo| && 0 <= c[k + 1] + 8 < |hi|
    && lo[c[k] + 8] == c[k + 1] && hi[c[k + 1] + 8] == c[k]
  }

  ghost predicate Ring(c: seq<int>, lo: seq<int>, hi: seq<int>) {
    forall k {:trigger Hop(c, lo, hi, k)} :: 0 <= k < |c| - 1 ==> Hop(c, lo, hi, k)
  }

  ghost predicate Distinct(l: seq<int>) {
    forall j, k {:trigger l[j], l[k]} :: 0 <= j < k < |l| ==> l[j] != l[k]
  }

  /** A proper ring: it closes on its first node and repeats no other. */
  ghost predicate Closed(c: seq<int>) {
    |c| >= 2 && c[0] == c[|c| - 1] && Distinct(c[..|c| - 1])
  }

  function Remove(l: seq<int>, k: int): seq<int>
    requires 0 <= k < |l|
  {
    l[..k] + l[k + 1..]
  }

  function Insert(l: seq<int>, k: int, x: int): seq<int>
    requires 0 <= k <= |l|
  {
    l[..k] + [x] + l[k..]
  }

  lemma Different(c: seq<int>, j: int, k: int)
    requires Closed(c) && 0 <= j < |c| && 0 <= k < |c| && j != k
    ensures c[j] == c[k] ==> (j == 0 && k == |c| - 1) || (k == 0 && j == |c| - 1)
  {
    var d := c[..|c| - 1];
    var j', k' := if j == |c| - 1 then 0 else j, if k == |c| - 1 then 0 else k;
    assert c[j] == d[j'] && c[k] == d[k'];
  }

  /** unlink(P, BK, FD) takes exactly node k out of its ring. */
  lemma RingRemove(c: seq<int>, lo: seq<int>, hi: seq<int>, k: int)
    requires Closed(c) && Ring(c, lo, hi) && |lo| == |hi| && 0 < k < |c| - 1
    requires Hop(c, lo, hi, k - 1) && Hop(c, lo, hi, k)
    ensures Ring(Remove(c, k), lo[c[k - 1] + 8 := c[k + 1]], hi[c[k + 1] + 8 := c[k - 1]])
  {
    var c', lo', hi' := Remove(c, k), lo[c[k - 1] + 8 := c[k + 1]], hi[c[k + 1] + 8 := c[k - 1]];
    forall j | 0 <= j < |c'| - 1
      ensures Hop(c', lo', hi', j)
    {
      var j0 := if j < k then j else j + 1;
      assert Hop(c, lo, hi, j0);
      if j0 != k - 1 {
        Different(c, j0, k - 1);
        Different(c, j0 + 1, k + 1);
      }
    }
  }

  /** Linking a new node x in front of node k. */
  lemma RingInsert(c: seq<int>, lo: seq<int>, hi: seq<int>, k: int, x: int)
    requires Closed(c) && Ring(c, lo, hi) && |lo| == |hi| && 0 < k < |c|
    requires Hop(c, lo, hi, k - 1)
    requires x !in c && 0 <= x + 8 < |lo|
    ensures Ring(Insert(c, k, x), lo[x + 8 := c[k]][c[k - 1] + 8 := x], hi[x + 8 := c[k - 1]][c[k] + 8 := x])
  {
    var c', lo', hi' := Insert(c, k, x), lo[x + 8 := c[k]][c[k - 1] + 8 := x], hi[x + 8 := c[k - 1]][c[k] + 8 := x];
    forall j | 0 <= j < |c'| - 1
      ensures Hop(c', lo', hi', j)
    {
      if j != k - 1 && j != k {
        var j0 := if j < k - 1 then j else j - 1;
        assert Hop(c, lo, hi, j0);
        Different(c, j0, k - 1);
        Different(c, j0 + 1, k);
      }
    }
  }

  /** A ring is untouched by writes that spare its link words. */
  lemma RingFrame(c: seq<int>, lo: seq<int>, hi: seq<int>, lo': seq<int>, hi': seq<int>)
    requires Ring(c, lo, hi) && |lo'| == |lo| && |hi'| == |hi|
    requires forall k {:trigger c[k]} :: 0 <= k < |c| && 0 <= c[k] + 8 < |lo| && c[k] + 8 < |hi| ==>
      lo'[c[k] + 8] == lo[c[k] + 8] && hi'[c[k] + 8] == hi[c[k] + 8]
    requires |lo| == |hi|
    ensures Ring(c, lo', hi')
  {
    forall k | 0 <= k < |c| - 1
      ensures Hop(c, lo', hi', k)
    {
      assert Hop(c, lo, hi, k);
    }
  }

  // ----- All the bins -----

  /** bin_at(i): the pseudo-chunk whose fd and bk are bins[2i] and bins[2i + 1]. */
  function Header(binsBase: int, i: int): int { binsBase + 8 * i - 8 }

  ghost predicate Entry(s: Shape, bins: seq<seq<int>>, i: int, k: int) {
    && 0 <= i < |bins| && 0 <= k < |bins[i]|
    && bins[i][k] in s.size && bins[i][k] in s.st && s.st[bins[i][k]] == Binned(i)
  }

  /** Every list entry is a free chunk of that bin, listed once. */
  ghost predicate Listed(s: Shape, binsBase: int, bins: seq<seq<int>>) {
    && |bins| == NBINS && bins[0] == []
    && 0 <= binsBase && binsBase + 8 * NBINS <= s.base
    && (forall i, k {:trigger Entry(s, bins, i, k)} :: 0 <= i < NBINS && 0 <= k < |bins[i]| ==> Entry(s, bins, i, k))
    && (forall i {:trigger Distinct(bins[i])} :: 0 <= i < NBINS ==> Distinct(bins[i]))
  }

  /** Every free chunk is in the list of its bin. */
  ghost predicate Complete(s: Shape, bins: seq<seq<int>>) {
    forall x {:trigger s.st[x]} :: x in s.st && s.st[x].Binned? ==>
      0 <= s.st[x].bin < |bins| && x in bins[s.st[x].bin]
  }

  ghost predicate BinRing(binsBase: int, bins: seq<seq<int>>, lo: seq<int>, hi: seq<int>, i: int) {
    1 <= i < |bins| && Ring(RingOf(Header(binsBase, i), bins[i]), lo, hi)
  }

  ghost predicate Rings(binsBase: int, bins: seq<seq<int>>, lo: seq<int>, hi: seq<int>) {
    forall i {:trigger BinRing(binsBase, bins, lo, hi, i)} :: 1 <= i < |bins| ==> BinRing(binsBase, bins, lo, hi, i)
  }

  /** Node k of bin i; node 0 and the last one are the header. */
  function Node(binsBase: int, bins: seq<seq<int>>, i: int, k: int): int
    requires 0 <= i < |bins| && 0 <= k < |bins[i]| + 2
  {
    RingOf(Header(binsBase, i), bins[i])[k]
  }

  /** A node is its bin's header or a free chunk of that bin. */
  lemma NodeKind(s: Shape, binsBase: int, bins: seq<seq<int>>, i: int, k: int)
    requires Tiled(s) && Listed(s, binsBase, bins) && 1 <= i < NBINS && 0 <= k < |bins[i]| + 2
    ensures var x := Node(binsBase, bins, i, k);
      && LinkNode(s, x) && !Inuse(s, x) && 0 <= x + 8 < s.end
      && (if k == 0 || k == |bins[i]| + 1 then x == Header(binsBase, i) && x < s.base
          else x in s.size && x in s.st && s.st[x] == Binned(i) && x >= s.base)
  {
    if 0 < k <= |bins[i]| {
      assert Entry(s, bins, i, k - 1);
      Inside(s, bins[i][k - 1]);
    } else {
      Inside(s, s.base);
      var h := Header(binsBase, i);
      assert h in s.size ==> ChunkOk(s, h);
    }
  }

  /** first(bin) and last(bin), as the header's words give them. */
  lemma HeaderLinks(s: Shape, binsBase: int, bins: seq<seq<int>>, lo: seq<int>, hi: seq<int>, i: int)
    requires Tiled(s) && Bounded(s, lo, hi) && Listed(s, binsBase, bins) && Rings(binsBase, bins, lo, hi)
    requires 1 <= i < NBINS
    ensures var h := Header(binsBase, i);
      && 0 <= h + 8 < |lo| && h + 8 < |hi| && h < s.base
      && lo[h + 8] == Node(binsBase, bins, i, 1) && hi[h + 8] == Node(binsBase, bins, i, |bins[i]|)
      && h == Node(binsBase, bins, i, 0) == Node(binsBase, bins, i, |bins[i]| + 1)
  {
    var c := RingOf(Header(binsBase, i), bins[i]);
    Inside(s, s.base);
    assert BinRing(binsBase, bins, lo, hi, i) && Hop(c, lo, hi, 0) && Hop(c, lo, hi, |c| - 2);
  }

  lemma NotListed(s: Shape, binsBase: int, bins: seq<seq<int>>, x: int)
    requires Listed(s, binsBase, bins) && !IsFree(s, x)
    ensures Unlisted(bins, x)
  {
    forall i | 0 <= i < |bins|
      ensures x !in bins[i]
    {
      forall k | 0 <= k < |bins[i]| ensures bins[i][k] != x { assert Entry(s, bins, i, k); }
    }
  }

  lemma BinClosed(s: Shape, binsBase: int, bins: seq<seq<int>>, i: int)
    requires Tiled(s) && Listed(s, binsBase, bins) && 1 <= i < NBINS
    ensures Closed(RingOf(Header(binsBase, i), bins[i]))
  {
    var c := RingOf(Header(binsBase, i), bins[i]);
    var d := c[..|c| - 1];
    assert Distinct(bins[i]);
    forall j, k | 0 <= j < k < |d|
      ensures d[j] != d[k]
    {
      NodeKind(s, binsBase, bins, i, j);
      NodeKind(s, binsBase, bins, i, k);
    }
  }

  /** b is no node of bin j. */
  ghost predicate OffRing(binsBase: int, bins: seq<seq<int>>, j: int, b: int) {
    0 <= j < |bins| &&
    forall l {:trigger Node(binsBase, bins, j, l)} :: 0 <= l < |bins[j]| + 2 ==> Node(binsBase, bins, j, l) != b
  }

  lemma OtherBin(s: Shape, binsBase: int, bins: seq<seq<int>>, i: int, k: int, j: int)
    requires Tiled(s) && Listed(s, binsBase, bins) && 1 <= i < NBINS && 1 <= j < NBINS && i != j
    requires 0 <= k < |bins[i]| + 2
    ensures OffRing(binsBase, bins, j, Node(binsBase, bins, i, k))
  {
    NodeKind(s, binsBase, bins, i, k);
    forall l | 0 <= l < |bins[j]| + 2
      ensures Node(binsBase, bins, j, l) != Node(binsBase, bins, i, k)
    {
      NodeKind(s, binsBase, bins, j, l);
    }
  }

  ghost predicate Unlisted(bins: seq<seq<int>>, x: int) {
    forall i {:trigger bins[i]} :: 0 <= i < |bins| ==> x !in bins[i]
  }

  lemma UnlistedOff(s: Shape, binsBase: int, bins: seq<seq<int>>, x: int, j: int)
    requires Tiled(s) && Listed(s, binsBase, bins) && 1 <= j < NBINS
    requires x >= s.base && Unlisted(bins, x)
    ensures OffRing(binsBase, bins, j, x)
  {
    forall l | 0 <= l < |bins[j]| + 2
      ensures Node(binsBase, bins, j, l) != x
    {
      NodeKind(s, binsBase, bins, j, l);
      if 0 < l <= |bins[j]| { assert Node(binsBase, bins, j, l) == bins[j][l - 1]; }
    }
  }

  /** Writing link words of nodes outside bin j leaves its ring alone. */
  lemma OtherRing(binsBase: int, bins: seq<seq<int>>, lo: seq<int>, hi: seq<int>,
                  lo': seq<int>, hi': seq<int>, nodes: set<int>, j: int)
    requires BinRing(binsBase, bins, lo, hi, j) && |lo| == |hi| && LinksOnly(lo, hi, lo', hi', nodes)
    requires forall b {:trigger OffRing(binsBase, bins, j, b)} :: b in nodes ==> OffRing(binsBase, bins, j, b)
    ensures BinRing(binsBase, bins, lo', hi', j)
  {
    var c := RingOf(Header(binsBase, j), bins[j]);
    forall l | 0 <= l < |c|
      ensures c[l] !in nodes
    {
      assert c[l] == Node(binsBase, bins, j, l);
      assert c[l] in nodes ==> OffRing(binsBase, bins, j, c[l]);
    }
    RingFrame(c, lo, hi, lo', hi');
  }

  /** unlink on a chunk of bin i: its two neighbours end up pointing at each
      other, and no other ring is disturbed. */
  lemma UnlinkRings(s: Shape, binsBase: int, bins: seq<seq<int>>, lo: seq<int>, hi: seq<int>, i: int, k: int)
    returns (bck: int, fwd: int)
    requires Tiled(s) && Bounded(s, lo, hi) && Listed(s, binsBase, bins) && Rings(binsBase, bins, lo, hi)
    requires 1 <= i < NBINS && 0 <= k < |bins[i]|
    ensures bck == Node(binsBase, bins, i, k) && fwd == Node(binsBase, bins, i, k + 2)
    ensures 0 <= bins[i][k] + 8 < |lo| && fwd == lo[bins[i][k] + 8] && bck == hi[bins[i][k] + 8]
    ensures LinkNode(s, bck) && LinkNode(s, fwd) && 0 <= bck + 8 < |lo| && 0 <= fwd + 8 < |hi|
    ensures Rings(binsBase, bins[i := Remove(bins[i], k)], lo[bck + 8 := fwd], hi[fwd + 8 := bck])
  {
    bck, fwd := Node(binsBase, bins, i, k), Node(binsBase, bins, i, k + 2);
    NodeKind(s, binsBase, bins, i, k);
    NodeKind(s, binsBase, bins, i, k + 2);
    UnlinkOwnRing(s, binsBase, bins, lo, hi, i, k);
    var bins', lo', hi' := bins[i := Remove(bins[i], k)], lo[bck + 8 := fwd], hi[fwd + 8 := bck];
    forall j | 1 <= j < |bins'|
      ensures BinRing(binsBase, bins', lo', hi', j)
    {
      if j != i {
        OtherBin(s, binsBase, bins, i, k, j);
        OtherBin(s, binsBase, bins, i, k + 2, j);
        assert BinRing(binsBase, bins, lo, hi, j);
        OtherRing(binsBase, bins, lo, hi, lo', hi', {bck, fwd}, j);
      }
    }
  }

  lemma RemoveInside(h: int, l: seq<int>, k: int)
    requires 0 <= k < |l|
    ensures Remove(RingOf(h, l), k + 1) == RingOf(h, Remove(l, k))
  {
  }

  lemma InsertInside(h: int, l: seq<int>, k: int, x: int)
    requires 0 <= k <= |l|
    ensures Insert(RingOf(h, l), k + 1, x) == RingOf(h, Insert(l, k, x))
  {
  }

  lemma UnlinkOwnRing(s: Shape, binsBase: int, bins: seq<seq<int>>, lo: seq<int>, hi: seq<int>, i: int, k: int)
    requires Tiled(s) && Bounded(s, lo, hi) && Listed(s, binsBase, bins) && Rings(binsBase, bins, lo, hi)
    requires 1 <= i < NBINS && 0 <= k < |bins[i]|
    ensures var bck, fwd := Node(binsBase, bins, i, k), Node(binsBase, bins, i, k + 2);
      && 0 <= bins[i][k] + 8 < |lo| && fwd == lo[bins[i][k] + 8] && bck == hi[bins[i][k] + 8]
      && 0 <= bck + 8 < |lo| && 0 <= fwd + 8 < |hi|
      && BinRing(binsBase, bins[i := Remove(bins[i], k)], lo[bck + 8 := fwd], hi[fwd + 8 := bck], i)
  {
    hide BinIndex, Aligned;
    var c := RingOf(Header(binsBase, i), bins[i]);
    assert c[k + 1] == bins[i][k];
    assert BinRing(binsBase, bins, lo, hi, i) && Hop(c, lo, hi, k) && Hop(c, lo, hi, k + 1);
    BinClosed(s, binsBase, bins, i);
    RingRemove(c, lo, hi, k + 1);
    RemoveInside(Header(binsBase, i), bins[i], k);
  }

  /** Linking a chunk x that is in no list in front of entry k of bin i. */
  lemma InsertRings(s: Shape, binsBase: int, bins: seq<seq<int>>, lo: seq<int>, hi: seq<int>, i: int, k: int, x: int)
    returns (bck: int, fwd: int)
    requires Tiled(s) && Bounded(s, lo, hi) && Listed(s, binsBase, bins) && Rings(binsBase, bins, lo, hi)
    requires 1 <= i < NBINS && 0 <= k <= |bins[i]|
    requires x in s.size && Unlisted(bins, x)
    ensures bck == Node(binsBase, bins, i, k) && fwd == Node(binsBase, bins, i, k + 1)
    ensures LinkNode(s, bck) && LinkNode(s, fwd)
    ensures 0 <= bck + 8 < |lo| && 0 <= fwd + 8 < |hi| && 0 <= x + 8 < |lo|
    ensures fwd == lo[bck + 8] && bck == hi[fwd + 8]
    ensures Rings(binsBase, bins[i := Insert(bins[i], k, x)],
                  lo[x + 8 := fwd][bck + 8 := x], hi[x + 8 := bck][fwd + 8 := x])
  {
    bck, fwd := Node(binsBase, bins, i, k), Node(binsBase, bins, i, k + 1);
    NodeKind(s, binsBase, bins, i, k);
    NodeKind(s, binsBase, bins, i, k + 1);
    Inside(s, x);
    InsertOwnRing(s, binsBase, bins, lo, hi, i, k, x);
    var bins', lo', hi' := bins[i := Insert(bins[i], k, x)], lo[x + 8 := fwd][bck + 8 := x],
      hi[x + 8 := bck][fwd + 8 := x];
    forall j | 1 <= j < |bins'|
      ensures BinRing(binsBase, bins', lo', hi', j)
    {
      if j != i {
        OtherBin(s, binsBase, bins, i, k, j);
        OtherBin(s, binsBase, bins, i, k + 1, j);
        UnlistedOff(s, binsBase, bins, x, j);
        assert BinRing(binsBase, bins, lo, hi, j);
        OtherRing(binsBase, bins, lo, hi, lo', hi', {bck, fwd, x}, j);
      }
    }
  }

  lemma InsertOwnRing(s: Shape, binsBase: int, bins: seq<seq<int>>, lo: seq<int>, hi: seq<int>, i: int, k: int, x: int)
    requires Tiled(s) && Bounded(s, lo, hi) && Listed(s, binsBase, bins) && Rings(binsBase, bins, lo, hi)
    requires 1 <= i < NBINS && 0 <= k <= |bins[i]|
    requires x in s.size && Unlisted(bins, x) && 0 <= x + 8 < |lo|
    ensures var bck, fwd := Node(binsBase, bins, i, k), Node(binsBase, bins, i, k + 1);
      && 0 <= bck + 8 < |lo| && 0 <= fwd + 8 < |hi| && fwd == lo[bck + 8] && bck == hi[fwd + 8]
      && BinRing(binsBase, bins[i := Insert(bins[i], k, x)],
                 lo[x + 8 := fwd][bck + 8 := x], hi[x + 8 := bck][fwd + 8 := x], i)
  {
    hide BinIndex, Aligned;
    var c := RingOf(Header(binsBase, i), bins[i]);
    assert BinRing(binsBase, bins, lo, hi, i) && Hop(c, lo, hi, k);
    BinClosed(s, binsBase, bins, i);
    Inside(s, x);
    assert x !in bins[i];
    RingInsert(c, lo, hi, k + 1, x);
    InsertInside(Header(binsBase, i), bins[i], k, x);
  }

  // ----- Lists as sets, and their order -----

  lemma RemoveFacts(l: seq<int>, k: int)
    requires Distinct(l) && 0 <= k < |l|
    ensures Distinct(Remove(l, k)) && l[k] !in Remove(l, k)
    ensures forall y :: y in Remove(l, k) <==> y in l && y != l[k]
  {
    var r := Remove(l, k);
    forall j, m | 0 <= j < m < |r|
      ensures r[j] != r[m]
    {
      var j0, m0 := if j < k then j else j + 1, if m < k then m else m + 1;
      assert l[j0] != l[m0];
    }
    forall j | 0 <= j < |r|
      ensures r[j] != l[k] && r[j] in l
    {
      var j0 := if j < k then j else j + 1;
      assert r[j] == l[j0];
    }
    forall y | y in l && y != l[k]
      ensures y in r
    {
      var j :| 0 <= j < |l| && l[j] == y;
      assert r[if j < k then j else j - 1] == y;
    }
  }

  lemma InsertFacts(l: seq<int>, k: int, x: int)
    requires Distinct(l) && 0 <= k <= |l| && x !in l
    ensures Distinct(Insert(l, k, x))
    ensures forall y :: y in Insert(l, k, x) <==> y in l || y == x
  {
    var r := Insert(l, k, x);
    forall j, m | 0 <= j < m < |r|
      ensures r[j] != r[m]
    {
      if j != k && m != k {
        var j0, m0 := if j < k then j else j - 1, if m < k then m else m - 1;
        assert l[j0] != l[m0];
      }
    }
    assert r[k] == x;
    assert forall y :: y in r ==> y in l[..k] || y == x || y in l[k..];
    assert l == l[..k] + l[k..];
  }

  /** Sizes never increase along a bin, so the last chunk is the smallest. */
  ghost predicate Descending(s: Shape, l: seq<int>) {
    forall j, k {:trigger l[j], l[k]} :: 0 <= j < k < |l| && l[j] in s.size && l[k] in s.size ==>
      s.size[l[j]] >= s.size[l[k]]
  }

  /** Every bin but the unsorted one is in size order. */
  ghost predicate Sorted(s: Shape, bins: seq<seq<int>>) {
    forall i {:trigger Descending(s, bins[i])} :: 2 <= i < |bins| ==> Descending(s, bins[i])
  }

  /** bins' is bins without chunk x. */
  ghost predicate OneLess(bins: seq<seq<int>>, bins': seq<seq<int>>, x: int) {
    && |bins'| == |bins|
    && (forall j, y {:trigger y in bins'[j]} {:trigger y in bins[j]} :: 0 <= j < |bins| ==>
          (y in bins'[j] <==> y in bins[j] && y != x))
    && (forall j {:trigger bins'[j]} :: 0 <= j < |bins| && bins'[j] != [] ==> bins[j] != [])
  }

  /** bins' is bins with chunk x added to bin i. */
  ghost predicate OneMore(bins: seq<seq<int>>, bins': seq<seq<int>>, i: int, x: int) {
    && |bins'| == |bins|
    && (forall j, y {:trigger y in bins'[j]} {:trigger y in bins[j]} :: 0 <= j < |bins| ==>
          (y in bins'[j] <==> y in bins[j] || (j == i && y == x)))
    && (forall j {:trigger bins'[j]} :: 0 <= j < |bins| && j != i ==> bins'[j] == bins[j])
  }

  // ----- Carrying the lists across a change of the picture -----

  /** No chunk of the run [f, e) is in any list. */
  ghost predicate ClearOf(bins: seq<seq<int>>, f: int, e: int) {
    forall i, k {:trigger bins[i][k]} :: 0 <= i < |bins| && 0 <= k < |bins[i]| ==> !(f <= bins[i][k] < e)
  }

  lemma ListsAcross(s: Shape, s': Shape, binsBase: int, bins: seq<seq<int>>, f: int, e: int)
    requires Listed(s, binsBase, bins) && Sorted(s, bins)
    requires SameOutside(s, s', f, e) && ClearOf(bins, f, e)
    ensures Listed(s', binsBase, bins) && Sorted(s', bins)
  {
    forall i, k | 0 <= i < NBINS && 0 <= k < |bins[i]|
      ensures Entry(s', bins, i, k)
    {
      assert Entry(s, bins, i, k) && SameChunk(s, s', bins[i][k]);
    }
    forall i | 2 <= i < |bins|
      ensures Descending(s', bins[i])
    {
      forall j, k | 0 <= j < k < |bins[i]| && bins[i][j] in s'.size && bins[i][k] in s'.size
        ensures s'.size[bins[i][j]] >= s'.size[bins[i][k]]
      {
        assert Descending(s, bins[i]);
        assert SameChunk(s, s', bins[i][j]) && SameChunk(s, s', bins[i][k]);
      }
    }
  }

  lemma RingsAcross(s: Shape, binsBase: int, bins: seq<seq<int>>,
                    lo: seq<int>, hi: seq<int>, lo': seq<int>, hi': seq<int>, f: int, e: int)
    requires Tiled(s) && Bounded(s, lo, hi) && Listed(s, binsBase, bins) && Rings(binsBase, bins, lo, hi)
    requires f in s.size && f < e && Boundary(s, e) && Within(lo, hi, lo', hi', f, e) && ClearOf(bins, f, e)
    ensures Rings(binsBase, bins, lo', hi')
  {
    forall i | 1 <= i < |bins|
      ensures BinRing(binsBase, bins, lo', hi', i)
    {
      var c := RingOf(Header(binsBase, i), bins[i]);
      assert BinRing(binsBase, bins, lo, hi, i);
      forall k | 0 <= k < |c|
        ensures !(f <= c[k] + 8 <= e)
      {
        LinkOutside(s, binsBase, bins, f, e, i, k);
      }
      RingFrame(c, lo, hi, lo', hi');
    }
  }

  lemma LinkOutside(s: Shape, binsBase: int, bins: seq<seq<int>>, f: int, e: int, i: int, k: int)
    requires Tiled(s) && Listed(s, binsBase, bins) && ClearOf(bins, f, e)
    requires f in s.size && f < e && Boundary(s, e)
    requires 1 <= i < NBINS && 0 <= k < |bins[i]| + 2
    ensures !(f <= Node(binsBase, bins, i, k) + 8 <= e)
  {
    NodeKind(s, binsBase, bins, i, k);
    Inside(s, f);
    if 0 < k <= |bins[i]| {
      var x := bins[i][k - 1];
      assert Node(binsBase, bins, i, k) == x;
      Inside(s, x);
      assert Apart(s, x, f);
    }
  }

  lemma CompleteAcross(s: Shape, s': Shape, bins: seq<seq<int>>, bins': seq<seq<int>>, f: int, e: int)
    requires Complete(s, bins) && SameOutside(s, s', f, e) && |bins'| == |bins|
    requires forall i, y {:trigger y in bins'[i]} :: 0 <= i < |bins| && y in bins[i] && !(f <= y < e) ==> y in bins'[i]
    requires forall x {:trigger s'.st[x]} :: x in s'.st && f <= x < e && s'.st[x].Binned? ==>
      0 <= s'.st[x].bin < |bins'| && x in bins'[s'.st[x].bin]
    ensures Complete(s', bins')
  {
    forall x | x in s'.st && s'.st[x].Binned?
      ensures 0 <= s'.st[x].bin < |bins'| && x in bins'[s'.st[x].bin]
    {
      assert !(f <= x < e) ==> SameChunk(s, s', x);
    }
  }

  lemma ListedRemove(s: Shape, binsBase: int, bins: seq<seq<int>>, i: int, k: int)
    requires Listed(s, binsBase, bins) && Sorted(s, bins) && 0 <= i < NBINS && 0 <= k < |bins[i]|
    ensures Listed(s, binsBase, bins[i := Remove(bins[i], k)]) && Sorted(s, bins[i := Remove(bins[i], k)])
    ensures Unlisted(bins[i := Remove(bins[i], k)], bins[i][k])
    ensures OneLess(bins, bins[i := Remove(bins[i], k)], bins[i][k])
  {
    var bins', r := bins[i := Remove(bins[i], k)], Remove(bins[i], k);
    assert Distinct(bins[i]);
    RemoveFacts(bins[i], k);
    forall j, m | 0 <= j < NBINS && 0 <= m < |bins'[j]|
      ensures Entry(s, bins', j, m)
    {
      assert Entry(s, bins, j, if j != i || m < k then m else m + 1);
    }
    forall j | 0 <= j < NBINS
      ensures Distinct(bins'[j])
    {
      assert Distinct(bins[j]);
    }
    forall j | 2 <= j < |bins'|
      ensures Descending(s, bins'[j])
    {
      assert Descending(s, bins[j]);
    }
    assert Entry(s, bins, i, k);
    forall j | 0 <= j < |bins'|
      ensures bins[i][k] !in bins'[j]
    {
      if j != i {
        forall m | 0 <= m < |bins[j]| ensures bins[j][m] != bins[i][k] { assert Entry(s, bins, j, m); }
      }
    }
  }

  lemma ListedInsert(s: Shape, binsBase: int, bins: seq<seq<int>>, i: int, k: int, x: int)
    requires Listed(s, binsBase, bins) && Sorted(s, bins) && 1 <= i < NBINS && 0 <= k <= |bins[i]|
    requires x in s.size && x in s.st && s.st[x] == Binned(i) && Unlisted(bins, x)
    requires i == 1 || ((k > 0 ==> bins[i][k - 1] in s.size && s.size[bins[i][k - 1]] >= s.size[x]) &&
                        (k < |bins[i]| ==> bins[i][k] in s.size && s.size[x] >= s.size[bins[i][k]]))
    ensures Listed(s, binsBase, bins[i := Insert(bins[i], k, x)]) && Sorted(s, bins[i := Insert(bins[i], k, x)])
    ensures OneMore(bins, bins[i := Insert(bins[i], k, x)], i, x)
  {
    var bins' := bins[i := Insert(bins[i], k, x)];
    assert Distinct(bins[i]) && x !in bins[i];
    InsertFacts(bins[i], k, x);
    forall j, m | 0 <= j < NBINS && 0 <= m < |bins'[j]|
      ensures Entry(s, bins', j, m)
    {
      if j != i || m != k { assert Entry(s, bins, j, if j != i || m < k then m else m - 1); }
    }
    forall j | 0 <= j < NBINS
      ensures Distinct(bins'[j])
    {
      assert Distinct(bins[j]);
    }
    forall j | 2 <= j < |bins'|
      ensures Descending(s, bins'[j])
    {
      assert Descending(s, bins[j]);
      if j == i {
        forall m | 0 <= m < |bins[i]| ensures bins[i][m] in s.size { assert Entry(s, bins, i, m); }
        DescendingInsert(s, bins[i], k, x);
      }
    }
  }

  lemma DescendingInsert(s: Shape, l: seq<int>, k: int, x: int)
    requires Descending(s, l) && 0 <= k <= |l| && x in s.size
    requires forall j :: 0 <= j < |l| ==> l[j] in s.size
    requires k > 0 ==> s.size[l[k - 1]] >= s.size[x]
    requires k < |l| ==> s.size[x] >= s.size[l[k]]
    ensures Descending(s, Insert(l, k, x))
  {
    var r := Insert(l, k, x);
    forall j, m | 0 <= j < m < |r| && r[j] in s.size && r[m] in s.size
      ensures s.size[r[j]] >= s.size[r[m]]
    {
      if j != k && m != k {
        var j0, m0 := if j < k then j else j - 1, if m < k then m else m - 1;
        assert l[j0] == r[j] && l[m0] == r[m];
      } else if m == k {
        assert s.size[l[j]] >= s.size[l[k - 1]];
      } else {
        assert s.size[l[k]] >= s.size[l[m - 1]];
      }
    }
  }
}
