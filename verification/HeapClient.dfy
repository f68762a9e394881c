/** Whole runs: a client that keeps what the allocator gave it, stores words in
    it, and remembers what it stored. */
module HeapClient {
  import opened MachineWord
  import opened SizeClasses
  import opened Alignment
  import opened HeapShape
  import opened HeapSteps
  import opened Accounting
  import opened Fragmentation
  import opened Malloc

  /** A block on loan: the address handed out and the bytes asked for. */
  datatype Lease = Lease(mem: int, bytes: int)

  /** What a client may do with blocks it has names for. */
  datatype Request =
    | Allocate(name: string, bytes: int)
    | AllocateAligned(name: string, alignment: int, bytes: int)
    | Resize(name: string, bytes: int)
    | Release(name: string)
    | Store(name: string, k: int, v: int)
    | Account

  /** A block as its user sees it: the bytes asked for and the words stored. */
  datatype View = View(bytes: int, words: map<int, int>)

  /** An ideal store, which has no addresses; `ok` says whether it was willing. */
  function IdealStep(m: map<string, View>, r: Request, ok: bool): map<string, View> {
    match r
    case Allocate(name, bytes) => if ok && name !in m then m[name := View(bytes, map[])] else m
    case AllocateAligned(name, _, bytes) => if ok && name !in m then m[name := View(bytes, map[])] else m
    case Resize(name, bytes) => if ok && name in m then m[name := Cropped(m[name], bytes)] else m
    case Release(name) => m - {name}
    case Store(name, k, v) =>
      if name in m && 0 <= k && 4 * k + 4 <= m[name].bytes then m[name := m[name].(words := m[name].words[k := v])]
        else m
    case Account => m
  }

  /** What must survive a realloc: the words within both the old and the new size. */
  function Cropped(w: View, bytes: int): View {
    View(bytes, map k | k in w.words && 4 * k + 4 <= bytes :: w.words[k])
  }

  function IdealRun(m: map<string, View>, script: seq<Request>, oks: seq<bool>): map<string, View>
    requires |oks| == |script|
  {
    if script == [] then m
    else IdealStep(IdealRun(m, script[..|script| - 1], oks[..|script| - 1]), script[|script| - 1], oks[|script| - 1])
  }

  /** The block at p still shows the words stored in it. */
  ghost predicate Remembered(w: View, p: int, lo: seq<int>, hi: seq<int>) {
    forall k {:trigger w.words[k]} :: k in w.words ==>
      0 <= k && 4 * k + 4 <= w.bytes && WordAt(lo, hi, p, k) == w.words[k]
  }

  ghost predicate Shown(held: map<string, Lease>, view: map<string, View>, h: string, lo: seq<int>, hi: seq<int>) {
    h in held && h in view && view[h].bytes == held[h].bytes && Remembered(view[h], held[h].mem - 8, lo, hi)
  }

  /** The machine's memory still shows everything the client stored. */
  ghost predicate Intact(held: map<string, Lease>, view: map<string, View>, lo: seq<int>, hi: seq<int>) {
    view.Keys == held.Keys && forall h {:trigger Shown(held, view, h, lo, hi)} :: h in held ==>
      Shown(held, view, h, lo, hi)
  }

  ghost predicate OnLoan(l: Lease, blocks: map<int, int>) {
    l.mem - 8 in blocks && 0 <= l.bytes <= 4 * UsableWords(blocks[l.mem - 8]) && blocks[l.mem - 8] <= Cost(l.bytes)
  }

  /** At most this much memory serves a request of so many bytes. */
  function Cost(bytes: int): int { if bytes < 0 then 0 else Request2Size(bytes) + MINSIZE }

  ghost function Name(m: map<string, View>): (h: string)
    requires m != map[]
    ensures h in m
  {
    assert (forall h :: h !in m) ==> m == map[];
    var h :| h in m; h
  }

  /** What all blocks of an ideal store may cost. */
  ghost function Lent(m: map<string, View>): int
    decreases |m|
  {
    if m == map[] then 0 else var h := Name(m); Cost(m[h].bytes) + Lent(m - {h})
  }

  /** The blocks lent, one hole smaller than the request in front of each of them and
      in front of top, and the request itself, rounded up to a page, fill the memory. */
  ghost predicate Crowded(capacity: int, m: map<string, View>, bytes: nat) {
    capacity < Lent(m) + (|m| + 2) * Request2Size(bytes) + MINSIZE + PAGESIZE
  }

  /** A name asked for twice, or one there is no block for. */
  predicate Misused(m: map<string, View>, r: Request) {
    match r
    case Allocate(name, _) => name in m
    case AllocateAligned(name, _, _) => name in m
    case Resize(name, _) => name !in m
    case _ => false
  }

  /** When the allocator may say no. */
  ghost predicate Refusable(m: map<string, View>, r: Request, capacity: int) {
    match r
    case Allocate(name, bytes) => name in m || bytes < 0 || RequestOutOfRange(bytes) || Crowded(capacity, m, bytes)
    case AllocateAligned(name, alignment, bytes) =>
      || name in m || bytes < 0 || alignment < 0 || alignment > WORD / 2 || RequestOutOfRange(bytes)
      || RequestOutOfRange(MemalignRequest(alignment, bytes)) || Crowded(capacity, m, MemalignRequest(alignment, bytes))
    case Resize(name, bytes) => name !in m || bytes < 0 || RequestOutOfRange(bytes) || Crowded(capacity, m, bytes)
    case Release(_) => false
    case Store(_, _, _) => false
    case Account => false
  }

  /** The blocks behind the leases are no more and no larger than the names tell. */
  lemma {:induction false} LentBounds(held: map<string, Lease>, view: map<string, View>, blocks: map<int, int>,
                                      size: map<int, int>)
    requires Tally(held, blocks) && view.Keys == held.Keys && blocks.Keys <= size.Keys
    requires forall h {:trigger view[h]} :: h in held ==> view[h].bytes == held[h].bytes
    requires forall p {:trigger blocks[p]} :: p in blocks ==> blocks[p] == size[p]
    ensures Weight(size, blocks.Keys) <= Lent(view) && |blocks| <= |view|
    decreases |view|
  {
    hide UsableWords, Cost, Weight;
    if view == map[] {
      forall p ensures p !in blocks { assert !Owned(held, p); }
      assert blocks == map[];
      NothingWeighs(size, []);
    } else {
      var h := Name(view);
      var p := held[h].mem - 8;
      assert h in held && OnLoan(held[h], blocks);
      TallyGone(held, blocks, h);
      LentBounds(held - {h}, view - {h}, blocks - {p}, size);
      assert (blocks - {p}).Keys == blocks.Keys - {p};
      WeightRemove(size, blocks.Keys, p);
      assert |(blocks - {p}).Keys| == |blocks.Keys| - 1 && |(view - {h}).Keys| == |view.Keys| - 1;
      assert (view - {h}).Keys == view.Keys - {h};
    }
  }

  ghost predicate Owned(held: map<string, Lease>, p: int) {
    exists h :: h in held && held[h].mem == p + 8
  }

  ghost predicate Differ(held: map<string, Lease>, g: string, h: string) {
    g in held && h in held && g != h ==> held[g].mem != held[h].mem
  }

  /** The leases are exactly what is handed out, each block under one name. */
  ghost predicate Tally(held: map<string, Lease>, blocks: map<int, int>) {
    && (forall h {:trigger OnLoan(held[h], blocks)} :: h in held ==> OnLoan(held[h], blocks))
    && (forall g, h {:trigger Differ(held, g, h)} :: Differ(held, g, h))
    && (forall p {:trigger Owned(held, p)} :: p in blocks ==> Owned(held, p))
  }

  lemma RememberedMoved(w: View, bytes: int, p: int, q: int, n: int, lo: seq<int>, hi: seq<int>, lo': seq<int>,
                        hi': seq<int>)
    requires Remembered(w, p, lo, hi) && SameWords(p, q, n, lo, hi, lo', hi') && (bytes <= 4 * n || w.bytes <= 4 * n)
    ensures Remembered(Cropped(w, bytes), q, lo', hi')
  {
    hide WordAt;
    var kept := Cropped(w, bytes);
    forall k | k in kept.words
      ensures 0 <= k && 4 * k + 4 <= bytes && WordAt(lo', hi', q, k) == kept.words[k]
    {
      assert w.words[k] == kept.words[k];
    }
  }

  lemma RememberedKept(w: View, p: int, size: int, lo: seq<int>, hi: seq<int>, lo': seq<int>, hi': seq<int>)
    requires Remembered(w, p, lo, hi) && w.bytes <= 4 * UsableWords(size) && BlockKept(p, size, lo, hi, lo', hi')
    ensures Remembered(w, p, lo', hi')
  {
    hide WordAt, BlockKept;
    KeptIsSame(p, size, lo, hi, lo', hi');
    forall k | k in w.words
      ensures 0 <= k && 4 * k + 4 <= w.bytes && WordAt(lo', hi', p, k) == w.words[k]
    {
      assert w.words[k] == WordAt(lo, hi, p, k);
    }
  }

  /** If all blocks but the named one kept their words, what was stored in them is still there. */
  lemma IntactBut(held: map<string, Lease>, view: map<string, View>, blocks: map<int, int>, name: string,
                  lo: seq<int>, hi: seq<int>, lo': seq<int>, hi': seq<int>)
    requires Intact(held, view, lo, hi) && Tally(held, blocks)
    requires BlocksKept(if name in held then blocks - {held[name].mem - 8} else blocks, lo, hi, lo', hi')
    ensures Intact(held - {name}, view - {name}, lo', hi')
  {
    hide Remembered, BlockKept, UsableWords;
    var kept := if name in held then blocks - {held[name].mem - 8} else blocks;
    forall h | h in held - {name}
      ensures Shown(held - {name}, view - {name}, h, lo', hi')
    {
      var p := held[h].mem - 8;
      assert h in held && Shown(held, view, h, lo, hi) && OnLoan(held[h], blocks) && Differ(held, h, name);
      assert p in kept && BlockKept(p, kept[p], lo, hi, lo', hi');
      RememberedKept(view[h], p, kept[p], lo, hi, lo', hi');
    }
  }

  lemma IntactWith(held: map<string, Lease>, view: map<string, View>, h: string, l: Lease, w: View, lo: seq<int>,
                   hi: seq<int>)
    requires Intact(held - {h}, view - {h}, lo, hi) && w.bytes == l.bytes && Remembered(w, l.mem - 8, lo, hi)
    requires view.Keys == held.Keys
    ensures Intact(held[h := l], view[h := w], lo, hi)
  {
    hide Remembered;
    var held', view' := held[h := l], view[h := w];
    forall g | g in held'
      ensures Shown(held', view', g, lo, hi)
    {
      assert g != h ==> Shown(held - {h}, view - {h}, g, lo, hi);
    }
  }

  lemma TallyNew(held: map<string, Lease>, blocks: map<int, int>, h: string, l: Lease, size: int)
    requires Tally(held, blocks) && h !in held && l.mem - 8 !in blocks && OnLoan(l, blocks[l.mem - 8 := size])
    ensures Tally(held[h := l], blocks[l.mem - 8 := size])
  {
    hide UsableWords;
    var held', blocks' := held[h := l], blocks[l.mem - 8 := size];
    forall g | g in held' ensures OnLoan(held'[g], blocks') { assert g != h ==> OnLoan(held[g], blocks); }
    forall f, g ensures Differ(held', f, g) {
      assert Differ(held, f, g);
      assert f in held ==> OnLoan(held[f], blocks);
      assert g in held ==> OnLoan(held[g], blocks);
    }
    forall p | p in blocks' ensures Owned(held', p) {
      if p == l.mem - 8 {
        assert held'[h].mem == p + 8;
      } else {
        OwnedStill(held, held', p, h);
      }
    }
  }

  lemma OwnedStill(held: map<string, Lease>, held': map<string, Lease>, p: int, but: string)
    requires Owned(held, p) && (but in held ==> held[but].mem != p + 8)
    requires forall g {:trigger held[g]} :: g in held && g != but ==> g in held' && held'[g] == held[g]
    ensures Owned(held', p)
  {
    var g :| g in held && held[g].mem == p + 8;
    assert held'[g].mem == p + 8;
  }

  lemma TallyGone(held: map<string, Lease>, blocks: map<int, int>, h: string)
    requires Tally(held, blocks) && h in held
    ensures Tally(held - {h}, blocks - {held[h].mem - 8})
  {
    hide UsableWords;
    var held', blocks' := held - {h}, blocks - {held[h].mem - 8};
    forall g | g in held' ensures OnLoan(held'[g], blocks') {
      assert OnLoan(held[g], blocks) && Differ(held, g, h);
    }
    forall f, g ensures Differ(held', f, g) { assert Differ(held, f, g); }
    forall p | p in blocks' ensures Owned(held', p) {
      assert Owned(held, p);
      OwnedStill(held, held', p, h);
    }
  }

  lemma HolesMonotone(m: int, n: int, nb: int)
    requires m <= n && nb >= 0
    ensures m * nb <= n * nb
  {
  }

  class Client {
    const heap: Allocator
    var held: map<string, Lease>
    ghost var view: map<string, View>

    ghost predicate Valid()
      reads this, heap
    {
      heap.Valid() && Tally(held, Blocks(heap.s)) && Intact(held, view, heap.lo, heap.hi)
    }

    /** The memory there is behind the kernel. */
    ghost function Capacity(): int {
      heap.memHeapEnd - heap.memHeap
    }

    /** What a refusal says about the store. */
    lemma CrowdedWhenRefused(bytes: int)
      requires Valid() && bytes >= 0 && heap.OutOfMemory(bytes)
      ensures RequestOutOfRange(bytes) || Crowded(Capacity(), view, bytes)
    {
      hide HeapInv, FastInv, Remembered, Weight, Lent, Request2Size, Tally;
      if !RequestOutOfRange(bytes) {
        var nb := Request2Size(bytes);
        heap.RefusedWhenFull(nb);
        forall h | h in held ensures view[h].bytes == held[h].bytes { assert Shown(held, view, h, heap.lo, heap.hi); }
        LentBounds(held, view, Blocks(heap.s), heap.s.size);
        HolesMonotone(|Blocks(heap.s)| + 2, |view| + 2, nb);
      }
    }

    constructor (binsBase: int, memHeap: int, lo: seq<int>, hi: seq<int>)
      requires 0 < binsBase && binsBase + 8 * NBINS <= memHeap <= 0x100_0000 && Aligned(memHeap)
      requires |lo| == |hi| == 0x100_0000 && hi[binsBase] == 0
      ensures Valid() && view == map[] && fresh(this) && fresh(heap)
    {
      heap := new Allocator(binsBase, memHeap, lo, hi);
      held := map[];
      view := map[];
    }

    /** Book a block just handed out. */
    method Book(name: string, mem: int, bytes: int, ghost blocks0: map<int, int>, ghost lo0: seq<int>,
                ghost hi0: seq<int>)
      requires heap.Live() && Tally(held, blocks0) && Intact(held, view, lo0, hi0) && name !in held
      requires BlocksKept(blocks0, lo0, hi0, heap.lo, heap.hi) && mem - 8 !in blocks0 && mem - 8 in Blocks(heap.s)
      requires Blocks(heap.s) == blocks0[mem - 8 := Blocks(heap.s)[mem - 8]]
      requires 0 <= bytes <= Blocks(heap.s)[mem - 8] - SIZE_SZ && Blocks(heap.s)[mem - 8] <= Cost(bytes)
      modifies this
      ensures heap.Valid() && Tally(held, Blocks(heap.s)) && Intact(held, view, heap.lo, heap.hi)
      ensures view == old(view)[name := View(bytes, map[])] && held == old(held)[name := Lease(mem, bytes)]
    {
      hide Blocks, Remembered, BlockKept, BlocksKept, UsableWords, HeapInv, FastInv;
      IntactBut(held, view, blocks0, name, lo0, hi0, heap.lo, heap.hi);
      heap.BlockSizes(mem - 8, mem - 8);
      UsableOdd(Blocks(heap.s)[mem - 8]);
      TallyNew(held, blocks0, name, Lease(mem, bytes), Blocks(heap.s)[mem - 8]);
      EmptyView(bytes, mem - 8, heap.lo, heap.hi);
      IntactWith(held, view, name, Lease(mem, bytes), View(bytes, map[]), heap.lo, heap.hi);
      held := held[name := Lease(mem, bytes)];
      view := view[name := View(bytes, map[])];
    }

    method Allocate(name: string, bytes: int) returns (ok: bool)
      requires Valid() && 0 <= bytes < WORD
      modifies this, heap
      ensures Valid() && view == IdealStep(old(view), Request.Allocate(name, bytes), ok)
      ensures !ok ==> Refusable(old(view), Request.Allocate(name, bytes), Capacity())
      ensures ok ==> !Misused(old(view), Request.Allocate(name, bytes))
    {
      hide Blocks, Remembered, BlockKept, BlocksKept, UsableWords, HeapInv, FastInv, Chosen, Tally, Intact,
        Request2Size;
      ok := false;
      SameNames();
      if name in held { return; }
      ghost var blocks0, lo0, hi0 := Blocks(heap.s), heap.lo, heap.hi;
      var mem, how, at := heap.Malloc(bytes);
      ok := mem != 0;
      if ok {
        Book(name, mem, bytes, blocks0, lo0, hi0);
      } else {
        NothingNew(blocks0, lo0, hi0);
        CrowdedWhenRefused(bytes);
      }
    }

    lemma NothingNew(blocks0: map<int, int>, lo0: seq<int>, hi0: seq<int>)
      requires Tally(held, blocks0) && Intact(held, view, lo0, hi0) && BlocksKept(blocks0, lo0, hi0, heap.lo, heap.hi)
      ensures Intact(held, view, heap.lo, heap.hi)
    {
      hide BlockKept, UsableWords, Remembered;
      forall h | h in held
        ensures Shown(held, view, h, heap.lo, heap.hi)
      {
        assert Shown(held, view, h, lo0, hi0) && OnLoan(held[h], blocks0);
        var p := held[h].mem - 8;
        assert BlockKept(p, blocks0[p], lo0, hi0, heap.lo, heap.hi);
        RememberedKept(view[h], p, blocks0[p], lo0, hi0, heap.lo, heap.hi);
      }
    }

    method AllocateAligned(name: string, alignment: int, bytes: int) returns (ok: bool)
      requires Valid() && 0 <= bytes < WORD && 0 <= alignment < WORD
      modifies this, heap
      ensures Valid() && view == IdealStep(old(view), Request.AllocateAligned(name, alignment, bytes), ok)
      ensures !ok ==> Refusable(old(view), Request.AllocateAligned(name, alignment, bytes), Capacity())
      ensures ok ==> !Misused(old(view), Request.AllocateAligned(name, alignment, bytes))
      ensures ok ==> name in held && held[name].mem % GrantedAlignment(alignment) == 0
    {
      hide Blocks, Remembered, BlockKept, BlocksKept, UsableWords, HeapInv, FastInv, Tally, Intact, Request2Size,
        GrantedAlignment;
      ok := false;
      SameNames();
      if name in held || alignment > WORD / 2 { return; }
      if MemalignRequest(alignment, bytes) >= WORD { return; }
      ghost var blocks0, lo0, hi0 := Blocks(heap.s), heap.lo, heap.hi;
      var mem, _, _, _ := heap.Memalign(alignment, bytes);
      ok := mem != 0;
      if ok {
        Book(name, mem, bytes, blocks0, lo0, hi0);
      } else {
        NothingNew(blocks0, lo0, hi0);
        if !RequestOutOfRange(bytes) { CrowdedWhenRefused(MemalignRequest(alignment, bytes)); }
      }
    }

    method Resize(name: string, bytes: int) returns (ok: bool)
      requires Valid() && 0 <= bytes < WORD
      modifies this, heap
      ensures Valid() && view == IdealStep(old(view), Request.Resize(name, bytes), ok)
      ensures !ok ==> Refusable(old(view), Request.Resize(name, bytes), Capacity())
      ensures ok ==> !Misused(old(view), Request.Resize(name, bytes))
    {
      hide Blocks, Remembered, BlockKept, BlocksKept, UsableWords, HeapInv, FastInv, Tally, Intact, Request2Size,
        Resized, ContentsMoved;
      ok := false;
      SameNames();
      if name !in held { return; }
      ghost var s0, lo0, hi0 := heap.s, heap.lo, heap.hi;
      LoanOf(name);
      var mem, _ := heap.Realloc(held[name].mem, bytes);
      ok := mem != 0;
      if ok {
        Rebook(name, mem, bytes, s0, lo0, hi0);
      } else {
        NothingNew(Blocks(s0), lo0, hi0);
        CrowdedWhenRefused(bytes);
      }
    }

    lemma SameNames()
      requires Valid()
      ensures view.Keys == held.Keys
    {
    }

    lemma LoanOf(name: string)
      requires Valid() && name in held
      ensures held[name].mem > 8 && held[name].mem - 8 in Blocks(heap.s) && heap.Live() && name in view
      ensures 0 <= held[name].bytes == view[name].bytes <= 4 * UsableWords(Blocks(heap.s)[held[name].mem - 8])
    {
      hide HeapInv, FastInv, Remembered;
      assert OnLoan(held[name], Blocks(heap.s)) && Shown(held, view, name, heap.lo, heap.hi);
      heap.BlockOfLive(held[name].mem - 8);
    }

    /** Book what became of a block. */
    method Rebook(name: string, mem: int, bytes: int, ghost s0: Shape, ghost lo0: seq<int>, ghost hi0: seq<int>)
      requires heap.Live() && Tally(held, Blocks(s0)) && Intact(held, view, lo0, hi0) && name in held
      requires 0 <= bytes && Resized(s0, heap.s, held[name].mem - 8, mem - 8, Request2Size(bytes))
      requires ContentsMoved(s0, heap.s, held[name].mem - 8, mem - 8, lo0, hi0, heap.lo, heap.hi)
      modifies this
      ensures heap.Valid() && Tally(held, Blocks(heap.s)) && Intact(held, view, heap.lo, heap.hi)
      ensures name in old(view) && view == old(view)[name := Cropped(old(view)[name], bytes)]
    {
      hide Blocks, Remembered, BlockKept, BlocksKept, UsableWords, HeapInv, FastInv, Tally, SameWords, WordAt;
      ghost var p, q := held[name].mem - 8, mem - 8;
      ghost var l, w := Lease(mem, bytes), Cropped(view[name], bytes);
      heap.BlockSizes(q, q);
      IntactBut(held, view, Blocks(s0), name, lo0, hi0, heap.lo, heap.hi);
      TallyGone(held, Blocks(s0), name);
      MovedLoan(held[name], bytes, Blocks(s0), Blocks(heap.s)[q]);
      TallyNew(held - {name}, Blocks(s0) - {p}, name, l, Blocks(heap.s)[q]);
      assert (held - {name})[name := l] == held[name := l];
      ghost var n := UsableWords(Min(Blocks(s0)[p], Blocks(heap.s)[q]));
      assert Shown(held, view, name, lo0, hi0);
      assert OnLoan(held[name], Blocks(s0)) by { LoanIn(held, Blocks(s0), name); }
      RememberedMoved(view[name], bytes, p, q, n, lo0, hi0, heap.lo, heap.hi);
      IntactWith(held, view, name, l, w, heap.lo, heap.hi);
      held := held[name := Lease(mem, bytes)];
      view := view[name := w];
    }

    method Release(name: string)
      requires Valid()
      modifies this, heap
      ensures Valid() && view == IdealStep(old(view), Request.Release(name), true)
    {
      hide Blocks, Remembered, BlockKept, BlocksKept, UsableWords, HeapInv, FastInv, Tally;
      if name !in held { assert view - {name} == view; return; }
      ghost var blocks0, lo0, hi0 := Blocks(heap.s), heap.lo, heap.hi;
      LoanOf(name);
      var _, _ := heap.Free(held[name].mem);
      IntactBut(held, view, blocks0, name, lo0, hi0, heap.lo, heap.hi);
      TallyGone(held, blocks0, name);
      held := held - {name};
      view := view - {name};
    }

    /** A client stays within the bytes it asked for. */
    method Store(name: string, k: int, v: int)
      requires Valid()
      modifies this, heap
      ensures Valid() && view == IdealStep(old(view), Request.Store(name, k, v), true)
    {
      hide Blocks, BlockKept, BlocksKept, HeapInv, FastInv, Tally, WordAt;
      if name !in held || k < 0 { return; }
      LoanOf(name);
      if 4 * k + 4 > held[name].bytes { return; }
      ghost var blocks0, lo0, hi0 := Blocks(heap.s), heap.lo, heap.hi;
      ghost var p, w := held[name].mem - 8, view[name].(words := view[name].words[k := v]);
      heap.Write(held[name].mem - 8, k, v);
      IntactBut(held, view, blocks0, name, lo0, hi0, heap.lo, heap.hi);
      assert Shown(held, view, name, lo0, hi0);
      RememberedStore(view[name], p, k, v, Blocks(heap.s)[p], lo0, hi0, heap.lo, heap.hi);
      IntactWith(held, view, name, held[name], w, heap.lo, heap.hi);
      assert held[name := held[name]] == held;
      view := view[name := w];
    }

    /** Blocks on loan are aligned, large enough and apart. */
    lemma LeasesApart(g: string, h: string)
      requires Valid() && g in held && h in held && g != h
      ensures held[g].mem % 8 == 0 && held[g].mem > 0
      ensures held[g].mem + held[g].bytes <= held[h].mem || held[h].mem + held[h].bytes <= held[g].mem
    {
      hide HeapInv, FastInv, Intact;
      LoanOf(g);
      LoanOf(h);
      assert Differ(held, g, h);
      heap.BlockAligned(held[g].mem - 8);
      heap.BlockApart(held[g].mem - 8, held[h].mem - 8);
      UsableOdd(heap.s.size[held[g].mem - 8]);
      UsableOdd(heap.s.size[held[h].mem - 8]);
    }

    /** Read word k of a named block. */
    method Load(name: string, k: int) returns (v: int)
      requires Valid() && name in held && 0 <= k && 4 * k + 4 <= held[name].bytes
      ensures name in view && (k in view[name].words ==> v == view[name].words[k])
    {
      hide HeapInv, FastInv, Blocks, Tally;
      LoanOf(name);
      assert Shown(held, view, name, heap.lo, heap.hi);
      v := WordAt(heap.lo, heap.hi, held[name].mem - 8, k);
    }

    /** The allocator's own account of what is on loan. */
    method Account() returns (uordblks: int)
      requires Valid()
      modifies heap
      ensures Valid() && Blocks(heap.s).Keys <= heap.s.size.Keys && uordblks == Weight(heap.s.size, Blocks(heap.s).Keys)
    {
      hide BlockKept, BlocksKept, HeapInv, FastInv, Tally, Remembered, Intact, Weight;
      ghost var blocks0, lo0, hi0 := Blocks(heap.s), heap.lo, heap.hi;
      var mi := heap.Mallinfo();
      NothingNew(blocks0, lo0, hi0);
      uordblks := mi.uordblks;
    }

    method Serve(r: Request) returns (ok: bool)
      requires Valid() && Sensible(r)
      modifies this, heap
      ensures Valid() && view == IdealStep(old(view), r, ok)
      ensures ok ==> !Misused(old(view), r)
      ensures !ok ==> Refusable(old(view), r, Capacity())
    {
      hide Valid, Refusable, Capacity;
      ok := true;
      match r
      case Allocate(name, bytes) => ok := Allocate(name, bytes);
      case AllocateAligned(name, alignment, bytes) => ok := AllocateAligned(name, alignment, bytes);
      case Resize(name, bytes) => ok := Resize(name, bytes);
      case Release(name) => Release(name);
      case Store(name, k, v) => Store(name, k, v);
      case Account => var _ := Account();
    }

    /** Whatever is asked in whatever order, the heap serves it like an ideal store,
        and its invariant holds throughout. It says no only to names misused, to
        requests out of range and when memory is as good as full. */
    method Run(script: seq<Request>) returns (oks: seq<bool>)
      requires Valid() && forall i {:trigger script[i]} :: 0 <= i < |script| ==> Sensible(script[i])
      modifies this, heap
      ensures Valid() && |oks| == |script| && view == IdealRun(old(view), script, oks)
      ensures forall i {:trigger oks[i]} :: 0 <= i < |oks| && !oks[i] ==>
        Refusable(IdealRun(old(view), script[..i], oks[..i]), script[i], Capacity())
      ensures forall i {:trigger oks[i]} :: 0 <= i < |oks| && oks[i] ==>
        !Misused(IdealRun(old(view), script[..i], oks[..i]), script[i])
    {
      hide Tally, Intact, IdealStep, Sensible, Refusable, Misused, Capacity;
      oks := [];
      for i := 0 to |script|
        invariant Valid() && |oks| == i && view == IdealRun(old(view), script[..i], oks)
        invariant forall k {:trigger oks[k]} :: 0 <= k < |oks| && !oks[k] ==>
          Refusable(IdealRun(old(view), script[..k], oks[..k]), script[k], Capacity())
        invariant forall k {:trigger oks[k]} :: 0 <= k < |oks| && oks[k] ==>
          !Misused(IdealRun(old(view), script[..k], oks[..k]), script[k])
      {
        var ok := Serve(script[i]);
        ghost var before := oks;
        oks := oks + [ok];
        forall k | 0 <= k <= i ensures oks[..k] == before[..k] { }
        assert script[..i + 1][..i] == script[..i] && oks[..i] == oks[..|oks| - 1];
      }
      assert script[..|script|] == script;
    }
  }

  /** Sizes are 32-bit words. */
  predicate Sensible(r: Request) {
    match r
    case Allocate(_, bytes) => 0 <= bytes < WORD
    case AllocateAligned(_, alignment, bytes) => 0 <= bytes < WORD && 0 <= alignment < WORD
    case Resize(_, bytes) => 0 <= bytes < WORD
    case Release(_) => true
    case Store(_, _, _) => true
    case Account => true
  }

  lemma LoanIn(held: map<string, Lease>, blocks: map<int, int>, name: string)
    requires Tally(held, blocks) && name in held
    ensures OnLoan(held[name], blocks)
  {
  }

  lemma MovedLoan(l: Lease, bytes: int, blocks: map<int, int>, size: int)
    requires LegalSize(size) && 0 <= bytes && Request2Size(bytes) <= size <= Request2Size(bytes) + MINSIZE
    ensures bytes <= 4 * UsableWords(size) && size <= Cost(bytes)
  {
    UsableOdd(size);
  }

  lemma RememberedStore(w: View, p: int, k: int, v: int, size: int, lo: seq<int>, hi: seq<int>, lo': seq<int>,
                        hi': seq<int>)
    requires Remembered(w, p, lo, hi) && 0 <= k && 4 * k + 4 <= w.bytes <= 4 * UsableWords(size)
    requires WordAt(lo', hi', p, k) == v
    requires forall j: nat {:trigger WordAt(lo', hi', p, j)} :: j != k && j < UsableWords(size) ==>
      WordAt(lo', hi', p, j) == WordAt(lo, hi, p, j)
    ensures Remembered(w.(words := w.words[k := v]), p, lo', hi')
  {
    hide WordAt, UsableWords;
    var w' := w.(words := w.words[k := v]);
    forall j | j in w'.words
      ensures 0 <= j && 4 * j + 4 <= w'.bytes && WordAt(lo', hi', p, j) == w'.words[j]
    {
      if j != k { assert w.words[j] == w'.words[j]; }
    }
  }

  lemma EmptyView(bytes: int, p: int, lo: seq<int>, hi: seq<int>)
    ensures Remembered(View(bytes, map[]), p, lo, hi)
  {
  }
}
