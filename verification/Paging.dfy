/** kernel/paging.c: the page directory and the page tables in physical memory,
    and the two-level walk the processor makes through them (32-bit paging,
    section 4.3 of the Intel SDM, volume 3A). */
module Paging {
  import opened PhysicalMemory

  const ENTRIES := 1024
  const VIRTUAL_PAGES := 0x10_0000
  const PHYS_WORDS := NB_PAGES * ENTRIES

  // An entry: the frame in the upper 20 bits, then user, rw and present.
  function Entry(frame: int, rw: bool, user: bool): int {
    frame * 4096 + (if user then 4 else 0) + (if rw then 2 else 0) + 1
  }

  predicate Present(e: int) { e % 2 == 1 }
  predicate Writable(e: int) { e / 2 % 2 == 1 }
  predicate UserMode(e: int) { e / 4 % 2 == 1 }
  function FrameOf(e: int): int { e / 4096 }

  lemma EntryFields(frame: nat, rw: bool, user: bool)
    ensures var e := Entry(frame, rw, user);
      Present(e) && (Writable(e) <==> rw) && (UserMode(e) <==> user) && FrameOf(e) == frame
  {
  }

  datatype Mapping = Absent | Mapped(frame: int, rw: bool, user: bool)

  /** Word i of a frame. */
  function Word(phys: seq<int>, frame: int, i: int): int
    requires |phys| == PHYS_WORDS
  {
    if 0 <= frame < NB_PAGES && 0 <= i < ENTRIES then phys[frame * ENTRIES + i] else 0
  }

  function Pde(phys: seq<int>, dir: int, n: nat): int
    requires |phys| == PHYS_WORDS
  {
    Word(phys, dir, n / ENTRIES)
  }

  /** Where the processor finds virtual page n, and what it may do there: writing and
      user access take leave from both levels (section 4.6). */
  function Walk(phys: seq<int>, dir: int, n: nat): Mapping
    requires |phys| == PHYS_WORDS
  {
    var pde := Pde(phys, dir, n);
    if !Present(pde) then Absent
    else
      var pte := Word(phys, FrameOf(pde), n % ENTRIES);
      if !Present(pte) then Absent
      else Mapped(FrameOf(pte), Writable(pde) && Writable(pte), UserMode(pde) && UserMode(pte))
  }

  /** The frame holds the directory or one of its tables. */
  ghost predicate Structure(phys: seq<int>, dir: int, f: int)
    requires |phys| == PHYS_WORDS
  {
    f == dir || exists d {:trigger Word(phys, dir, d)} ::
      0 <= d < ENTRIES && Present(Word(phys, dir, d)) && FrameOf(Word(phys, dir, d)) == f
  }

  ghost predicate TableOk(phys: seq<int>, dir: int, reserved: int, d: int)
    requires |phys| == PHYS_WORDS
  {
    var e := Word(phys, dir, d);
    Present(e) ==>
      && 0 <= FrameOf(e) < reserved && FrameOf(e) != dir && Writable(e) && !UserMode(e)
      && Walk(phys, dir, FrameOf(e)) == Mapped(FrameOf(e), true, false)
  }

  ghost predicate TablesApart(phys: seq<int>, dir: int, c: int, d: int)
    requires |phys| == PHYS_WORDS
  {
    Present(Word(phys, dir, c)) && Present(Word(phys, dir, d)) && c != d ==>
      FrameOf(Word(phys, dir, c)) != FrameOf(Word(phys, dir, d))
  }

  /** Directory and tables lie in separate frames of the reserved part, where the
      kernel can still reach them at their physical addresses. */
  ghost predicate TreeOk(phys: seq<int>, dir: int, reserved: int) {
    && |phys| == PHYS_WORDS && 0 <= dir < reserved <= NB_PAGES && Walk(phys, dir, dir) == Mapped(dir, true, false)
    && (forall d {:trigger TableOk(phys, dir, reserved, d)} :: 0 <= d < ENTRIES ==> TableOk(phys, dir, reserved, d))
    && (forall c, d {:trigger TablesApart(phys, dir, c, d)} :: 0 <= c < ENTRIES && 0 <= d < ENTRIES ==>
      TablesApart(phys, dir, c, d))
  }

  /** A write to a frame that is no structure changes no translation. */
  lemma WriteElsewhere(phys: seq<int>, dir: int, f: int, i: int, v: int, n: nat)
    requires |phys| == PHYS_WORDS && n < VIRTUAL_PAGES
    requires 0 <= f < NB_PAGES && 0 <= i < ENTRIES && !Structure(phys, dir, f)
    ensures Walk(phys[f * ENTRIES + i := v], dir, n) == Walk(phys, dir, n)
    ensures Word(phys[f * ENTRIES + i := v], dir, n / ENTRIES) == Word(phys, dir, n / ENTRIES)
  {
    var d := n / ENTRIES;
    assert Present(Word(phys, dir, d)) ==> FrameOf(Word(phys, dir, d)) != f;
  }

  /** A write to entry i of table d changes the translation of that one page. */
  lemma WriteEntry(phys: seq<int>, dir: int, reserved: int, d: int, i: int, v: int, n: nat)
    requires TreeOk(phys, dir, reserved) && 0 <= d < ENTRIES && 0 <= i < ENTRIES && Present(Word(phys, dir, d))
      && n < VIRTUAL_PAGES
    ensures 0 <= FrameOf(Word(phys, dir, d)) < NB_PAGES
    ensures var phys' := phys[FrameOf(Word(phys, dir, d)) * ENTRIES + i := v];
      && Word(phys', dir, n / ENTRIES) == Word(phys, dir, n / ENTRIES)
      && Walk(phys', dir, n) == (if n != d * ENTRIES + i then Walk(phys, dir, n)
                                 else if Present(v) then Mapped(FrameOf(v), Writable(v), false) else Absent)
  {
    var c := n / ENTRIES;
    assert TableOk(phys, dir, reserved, d) && TableOk(phys, dir, reserved, c) && TablesApart(phys, dir, c, d);
    assert n == c * ENTRIES + n % ENTRIES;
  }

  /** The structures stay sound as long as their own pages keep their translation. */
  lemma TreeKept(phys: seq<int>, dir: int, reserved: int, phys': seq<int>)
    requires TreeOk(phys, dir, reserved) && |phys'| == PHYS_WORDS
    requires forall d {:trigger Word(phys', dir, d)} :: 0 <= d < ENTRIES ==> Word(phys', dir, d) == Word(phys, dir, d)
    requires forall n: nat {:trigger Walk(phys', dir, n)} :: n < VIRTUAL_PAGES && Structure(phys, dir, n) ==>
      Walk(phys', dir, n) == Walk(phys, dir, n)
    ensures TreeOk(phys', dir, reserved)
    ensures forall f {:trigger Structure(phys', dir, f)} :: Structure(phys', dir, f) <==> Structure(phys, dir, f)
  {
    forall d | 0 <= d < ENTRIES
      ensures TableOk(phys', dir, reserved, d)
    {
      assert TableOk(phys, dir, reserved, d) && Word(phys', dir, d) == Word(phys, dir, d);
      if Present(Word(phys, dir, d)) { assert Structure(phys, dir, FrameOf(Word(phys, dir, d))); }
    }
    forall c, d | 0 <= c < ENTRIES && 0 <= d < ENTRIES
      ensures TablesApart(phys', dir, c, d)
    {
      assert TablesApart(phys, dir, c, d) && Word(phys', dir, c) == Word(phys, dir, c)
        && Word(phys', dir, d) == Word(phys, dir, d);
    }
    assert Structure(phys, dir, dir);
    StructuresKept(phys, dir, phys');
  }

  /** The structures are what the directory says they are. */
  lemma StructuresKept(phys: seq<int>, dir: int, phys': seq<int>)
    requires |phys| == |phys'| == PHYS_WORDS
    requires forall d {:trigger Word(phys', dir, d)} :: 0 <= d < ENTRIES ==> Word(phys', dir, d) == Word(phys, dir, d)
    ensures forall f {:trigger Structure(phys', dir, f)} :: Structure(phys', dir, f) <==> Structure(phys, dir, f)
  {
    forall f
      ensures Structure(phys', dir, f) <==> Structure(phys, dir, f)
    {
      assert forall d {:trigger Word(phys, dir, d)} :: 0 <= d < ENTRIES ==> Word(phys', dir, d) == Word(phys, dir, d);
    }
  }

  /** A structure is out of the reach of the kernel once its page is mapped elsewhere. */
  lemma LostStructure(phys: seq<int>, dir: int, n: nat, limit: int)
    requires |phys| == PHYS_WORDS && Structure(phys, dir, n) && Walk(phys, dir, n) != Mapped(n, true, false)
    ensures !TreeOk(phys, dir, limit)
  {
    hide Word, Walk;
    if n != dir {
      var d :| 0 <= d < ENTRIES && Present(Word(phys, dir, d)) && FrameOf(Word(phys, dir, d)) == n;
      assert !TableOk(phys, dir, limit, d);
    }
  }

  /** What the directory and the tables occupy is mapped onto itself. */
  lemma StructureMapped(phys: seq<int>, dir: int, limit: int, n: nat)
    requires TreeOk(phys, dir, limit) && Structure(phys, dir, n)
    ensures n < limit && Walk(phys, dir, n) == Mapped(n, true, false)
  {
    hide Word, Walk;
    if n != dir {
      var d :| 0 <= d < ENTRIES && Present(Word(phys, dir, d)) && FrameOf(Word(phys, dir, d)) == n;
      assert TableOk(phys, dir, limit, d);
    }
  }

  /** Filling a directory entry with an empty table translates nothing new. */
  lemma WriteDirectory(phys: seq<int>, dir: int, reserved: int, d: int, p: nat, n: nat)
    requires TreeOk(phys, dir, reserved) && 0 <= d < ENTRIES && !Present(Word(phys, dir, d)) && p < NB_PAGES
      && !Structure(phys, dir, p)
    requires forall i {:trigger Word(phys, p, i)} :: 0 <= i < ENTRIES ==> Word(phys, p, i) == 0
    requires n < VIRTUAL_PAGES
    ensures Walk(phys[dir * ENTRIES + d := Entry(p, true, false)], dir, n) == Walk(phys, dir, n)
  {
    EntryFields(p, true, false);
    var c := n / ENTRIES;
    assert TableOk(phys, dir, reserved, c);
    var e := Word(phys, dir, c);
    if c == d { assert Word(phys, p, n % ENTRIES) == 0; }
  }

  /** Only one directory entry was filled, with a frame of its own. */
  lemma TreeGrown(phys: seq<int>, dir: int, reserved: int, d: int, p: nat)
    requires TreeOk(phys, dir, reserved) && 0 <= d < ENTRIES && !Present(Word(phys, dir, d)) && p < NB_PAGES
      && !Structure(phys, dir, p)
    requires forall i {:trigger Word(phys, p, i)} :: 0 <= i < ENTRIES ==> Word(phys, p, i) == 0
    requires Walk(phys, dir, p) == Mapped(p, true, false)
    ensures TreeOk(phys[dir * ENTRIES + d := Entry(p, true, false)], dir, NB_PAGES)
  {
    var phys' := phys[dir * ENTRIES + d := Entry(p, true, false)];
    EntryFields(p, true, false);
    assert forall c {:trigger Word(phys', dir, c)} :: 0 <= c < ENTRIES ==>
      Word(phys', dir, c) == if c == d then Entry(p, true, false) else Word(phys, dir, c);
    WriteDirectory(phys, dir, reserved, d, p, dir);
    WriteDirectory(phys, dir, reserved, d, p, p);
    forall c | 0 <= c < ENTRIES
      ensures TableOk(phys', dir, NB_PAGES, c)
    {
      assert TableOk(phys, dir, reserved, c);
      if c != d && Present(Word(phys, dir, c)) {
        WriteDirectory(phys, dir, reserved, d, p, FrameOf(Word(phys, dir, c)));
      }
    }
    forall b, c | 0 <= b < ENTRIES && 0 <= c < ENTRIES
      ensures TablesApart(phys', dir, b, c)
    {
      assert TablesApart(phys, dir, b, c);
    }
  }

  /** A page mapped onto the frame of its own table: clearing one word of that page
      takes away the page itself. */
  lemma SelfMapped(phys: seq<int>, dir: int, n: nat)
    requires |phys| == PHYS_WORDS && n < VIRTUAL_PAGES && Walk(phys, dir, n).Mapped? && 0 <= dir < NB_PAGES
    requires Walk(phys, dir, n).frame == FrameOf(Pde(phys, dir, n)) != dir && 0 <= FrameOf(Pde(phys, dir, n)) < NB_PAGES
    ensures Walk(phys[Walk(phys, dir, n).frame * ENTRIES + n % ENTRIES := 0], dir, n) == Absent
  {
  }

  datatype Request = Request(address: nat, isWriteable: bool, isKernel: bool)

  /** What page m is mapped to after the requests, in order. */
  function Latest(requests: seq<Request>, frames: seq<nat>, m: nat, before: Mapping): Mapping
    requires |frames| == |requests|
  {
    if requests == [] then before
    else
      var k := |requests| - 1;
      if requests[k].address / PAGE_SIZE == m then Mapped(frames[k], requests[k].isWriteable, false)
      else Latest(requests[..k], frames[..k], m, before)
  }

  lemma NoRequest(frames: seq<nat>)
    requires frames == []
    ensures forall m: nat, b {:trigger Latest([], frames, m, b)} :: Latest([], frames, m, b) == b
  {
  }

  lemma LatestStep(requests: seq<Request>, k: nat, frames: seq<nat>, f: nat, m: nat, before: Mapping)
    requires k < |requests| && |frames| == k
    ensures Latest(requests[..k + 1], frames + [f], m, before) ==
      if requests[k].address / PAGE_SIZE == m then Mapped(f, requests[k].isWriteable, false)
      else Latest(requests[..k], frames, m, before)
  {
    assert requests[..k + 1][..k] == requests[..k] && (frames + [f])[..k] == frames;
  }

  lemma {:induction false} CoversRange(s: set<nat>, a: nat, b: nat)
    requires a <= b && forall p: nat :: a <= p < b ==> p in s
    ensures |s| >= b - a
    decreases b - a
  {
    if a < b {
      CoversRange(s - {b - 1}, a, b - 1);
    }
  }

  class Pager {
    const phys: array<int>
    const bitmap: PageBitmap
    const heap: BumpHeap
    var dir: nat
    ghost var reserved: nat
    ghost var handed: set<nat>

    ghost predicate Shaped()
      reads this, bitmap
    {
      phys.Length == PHYS_WORDS && bitmap.Valid()
    }

    /** The translation of every virtual page. */
    ghost function Translate(n: nat): Mapping
      requires phys.Length == PHYS_WORDS
      reads `dir, phys
    {
      Walk(phys[..], dir, n)
    }

    ghost predicate Valid()
      reads this, phys, bitmap, bitmap.words
    {
      && Shaped() && TreeOk(phys[..], dir, reserved)
      && (forall p {:trigger bitmap.Used(p)} :: 0 <= p < NB_PAGES ==> (bitmap.Used(p) <==> p < reserved || p in handed))
      && (forall f {:trigger f in handed} :: f in handed ==> reserved <= f < NB_PAGES)
    }

    constructor (bitmap: PageBitmap, heap: BumpHeap)
      requires bitmap.Valid()
      ensures Shaped() && fresh(phys) && this.bitmap == bitmap && this.heap == heap
    {
      phys := new int[PHYS_WORDS](_ => 0);
      this.bitmap, this.heap := bitmap, heap;
      dir, reserved, handed := 0, 0, {};
    }

    /** A store of the kernel at a virtual address, word i of page n. */
    method Store(n: nat, i: nat, v: int)
      requires phys.Length == PHYS_WORDS && n < VIRTUAL_PAGES && i < ENTRIES
      requires Translate(n).Mapped? && Translate(n).rw && 0 <= Translate(n).frame < NB_PAGES
      modifies phys
      ensures phys[..] == old(phys[..])[old(Translate(n)).frame * ENTRIES + i := v]
    {
      ghost var m := Translate(n);
      var pde := phys[dir * ENTRIES + n / ENTRIES];
      var frame := FrameOf(phys[FrameOf(pde) * ENTRIES + n % ENTRIES]);
      phys[frame * ENTRIES + i] := v;
    }

    /** The kernel reads word i of a structure frame at its own address. */
    method Load(n: nat, i: nat) returns (v: int)
      requires phys.Length == PHYS_WORDS && n < NB_PAGES && i < ENTRIES && Translate(n).Mapped?
        && Translate(n).frame == n
      ensures v == Word(phys[..], n, i)
    {
      v := phys[n * ENTRIES + i];
    }

    /** Entry i of a new identity table. */
    ghost predicate IdentityTable(t: int, first: int)
      requires phys.Length == PHYS_WORDS
      reads `dir, phys
    {
      forall i {:trigger Word(phys[..], t, i)} :: 0 <= i < ENTRIES ==>
        Word(phys[..], t, i) == Entry(first + i, true, false)
    }

    /** A table that maps pages first, first + 1, ... onto themselves. */
    method FillTable(t: nat, first: nat)
      requires phys.Length == PHYS_WORDS && t < NB_PAGES && first + ENTRIES <= NB_PAGES
      modifies phys
      ensures IdentityTable(t, first)
      ensures forall f, i {:trigger Word(phys[..], f, i)} :: f != t ==>
        Word(phys[..], f, i) == old(Word(phys[..], f, i))
    {
      hide Entry;
      var i := 0;
      while i < ENTRIES
        invariant 0 <= i <= ENTRIES
        invariant forall k {:trigger phys[k]} :: 0 <= k < phys.Length ==>
          phys[k] == if t * ENTRIES <= k < t * ENTRIES + i then Entry(first + (k - t * ENTRIES), true, false)
            else old(phys[k])
      {
        phys[t * ENTRIES + i] := Entry(first + i, true, false);
        i := i + 1;
      }
      forall f, k | f != t
        ensures Word(phys[..], f, k) == old(Word(phys[..], f, k))
      {
        assert 0 <= f < NB_PAGES && 0 <= k < ENTRIES ==>
          0 <= f * ENTRIES + k < phys.Length && !(t * ENTRIES <= f * ENTRIES + k < t * ENTRIES + ENTRIES);
      }
    }

    /** The empty directory. */
    method ClearDirectory()
      requires phys.Length == PHYS_WORDS && dir < NB_PAGES
      modifies phys
      ensures forall i {:trigger Word(phys[..], dir, i)} :: 0 <= i < ENTRIES ==> Word(phys[..], dir, i) == 0
    {
      var i := 0;
      while i < ENTRIES
        invariant 0 <= i <= ENTRIES
        invariant forall k {:trigger phys[k]} :: dir * ENTRIES <= k < dir * ENTRIES + i ==> phys[k] == 0
      {
        phys[dir * ENTRIES + i] := 0;
        i := i + 1;
      }
    }

    /** Table d of the first 16 MB lies behind the directory and maps its 4 MB. */
    ghost predicate TableDone(d: int)
      requires phys.Length == PHYS_WORDS
      reads `dir, phys
    {
      Word(phys[..], dir, d) == Entry(dir + 1 + d, true, false) && IdentityTable(dir + 1 + d, d * ENTRIES)
    }

    method MapFirstMegabytes()
      requires phys.Length == PHYS_WORDS && dir + 5 <= NB_PAGES && heap.placementAddress == (dir + 1) * PAGE_SIZE
      requires forall i {:trigger Word(phys[..], dir, i)} :: 0 <= i < ENTRIES ==> Word(phys[..], dir, i) == 0
      modifies phys, heap
      ensures forall d {:trigger TableDone(d)} :: 0 <= d < 4 ==> TableDone(d)
      ensures forall i {:trigger Word(phys[..], dir, i)} :: 4 <= i < ENTRIES ==> Word(phys[..], dir, i) == 0
      ensures heap.placementAddress == (dir + 5) * PAGE_SIZE
    {
      hide Entry, Word;
      var d := 0;
      while d < 4
        invariant 0 <= d <= 4 && heap.placementAddress == (dir + 1 + d) * PAGE_SIZE
        invariant forall c {:trigger TableDone(c)} :: 0 <= c < d ==> TableDone(c)
        invariant forall i {:trigger Word(phys[..], dir, i)} :: d <= i < ENTRIES ==> Word(phys[..], dir, i) == 0
      {
        label Before:
        var table := heap.KmallocInt(PAGE_SIZE, true);
        assert table == (dir + 1 + d) * PAGE_SIZE;
        FillTable(table / PAGE_SIZE, d * ENTRIES);
        ghost var m := phys[..];
        phys[dir * ENTRIES + d] := Entry(table / PAGE_SIZE, true, false);
        OneWord(m, phys[..], dir, d);
        forall c | 0 <= c < d + 1
          ensures TableDone(c)
        {
          assert c < d ==> old@Before(TableDone(c));
        }
        d := d + 1;
      }
    }

    lemma OneWord(m: seq<int>, m': seq<int>, f: nat, i: nat)
      requires |m| == PHYS_WORDS && f < NB_PAGES && i < ENTRIES && |m'| == |m|
        && m' == m[f * ENTRIES + i := m'[f * ENTRIES + i]]
      ensures Word(m', f, i) == m'[f * ENTRIES + i]
      ensures forall g, k {:trigger Word(m', g, k)} :: g != f || k != i ==> Word(m', g, k) == Word(m, g, k)
    {
      forall g, k | g != f || k != i
        ensures Word(m', g, k) == Word(m, g, k)
      {
        assert 0 <= g < NB_PAGES && 0 <= k < ENTRIES ==> g * ENTRIES + k != f * ENTRIES + i;
      }
    }

    /** The page kmalloc_a(PAGE_SIZE) is about to take. */
    function NextPage(): nat
      reads heap
    {
      (heap.placementAddress + PAGE_SIZE - 1) / PAGE_SIZE
    }

    /** initialise_paging(), up to the loading of CR3 and CR0. */
    method InitialisePaging()
      requires Shaped() && heap.placementAddress + 6 * PAGE_SIZE <= NB_PAGES * PAGE_SIZE
      requires forall p {:trigger bitmap.Used(p)} :: 0 <= p < NB_PAGES ==> !bitmap.Used(p)
      modifies this, phys, heap, bitmap.words
      ensures Valid() && handed == {} && heap.placementAddress == reserved * PAGE_SIZE
      // virtual is physical below 16 MB, and nothing is mapped above
      ensures forall n: nat {:trigger Translate(n)} :: n < VIRTUAL_PAGES ==>
        Translate(n) == if n < NB_PAGES then Mapped(n, true, false) else Absent
      ensures forall p {:trigger bitmap.Used(p)} :: 0 <= p < NB_PAGES ==> (bitmap.Used(p) <==> p < reserved)
      // directory and four tables fill the end of the reserved part; pages are left
      ensures reserved == old(NextPage()) + 5 < NB_PAGES
      ensures forall n: nat {:trigger Pde(phys[..], dir, n)} :: n < VIRTUAL_PAGES ==>
        (Present(Pde(phys[..], dir, n)) <==> n < NB_PAGES)
      ensures forall f {:trigger Structure(phys[..], dir, f)} :: Structure(phys[..], dir, f) <==>
        reserved - 5 <= f < reserved
    {
      var addr := heap.KmallocInt(PAGE_SIZE, true);
      dir := addr / PAGE_SIZE;
      reserved := dir + 5;
      handed := {};
      ClearDirectory();
      MapFirstMegabytes();
      forall n: nat | n < VIRTUAL_PAGES
        ensures Translate(n) == if n < NB_PAGES then Mapped(n, true, false) else Absent
      {
        IdentityWalk(n);
      }
      TreeBuilt(reserved);
      StructuresBuilt();
      MarkReserved();
    }

    lemma StructuresBuilt()
      requires phys.Length == PHYS_WORDS && reserved == dir + 5 <= NB_PAGES
      requires forall d {:trigger TableDone(d)} :: 0 <= d < 4 ==> TableDone(d)
      requires forall i {:trigger Word(phys[..], dir, i)} :: 4 <= i < ENTRIES ==> Word(phys[..], dir, i) == 0
      ensures forall n: nat {:trigger Pde(phys[..], dir, n)} :: n < VIRTUAL_PAGES ==>
        (Present(Pde(phys[..], dir, n)) <==> n < NB_PAGES)
      ensures forall f {:trigger Structure(phys[..], dir, f)} :: Structure(phys[..], dir, f) <==>
        reserved - 5 <= f < reserved
    {
      hide Word, Entry, Present, FrameOf;
      forall n: nat | n < VIRTUAL_PAGES
        ensures Present(Pde(phys[..], dir, n)) <==> n < NB_PAGES
      {
        FirstEntries(n / ENTRIES);
      }
      forall f
        ensures Structure(phys[..], dir, f) <==> reserved - 5 <= f < reserved
      {
        forall d | 0 <= d < ENTRIES
          ensures Present(Word(phys[..], dir, d)) && FrameOf(Word(phys[..], dir, d)) == f <==> d < 4 && f == dir + 1 + d
        {
          FirstEntries(d);
        }
        if dir < f < reserved { assert FrameOf(Word(phys[..], dir, f - dir - 1)) == f; }
      }
    }

    lemma IdentityWalk(n: nat)
      requires phys.Length == PHYS_WORDS && dir + 5 <= NB_PAGES && n < VIRTUAL_PAGES
      requires forall d {:trigger TableDone(d)} :: 0 <= d < 4 ==> TableDone(d)
      requires forall i {:trigger Word(phys[..], dir, i)} :: 4 <= i < ENTRIES ==> Word(phys[..], dir, i) == 0
      ensures Translate(n) == if n < NB_PAGES then Mapped(n, true, false) else Absent
    {
      hide Word, Entry;
      var d := n / ENTRIES;
      if n < NB_PAGES {
        assert TableDone(d);
        EntryFields(dir + 1 + d, true, false);
        EntryFields(n, true, false);
        assert Word(phys[..], dir + 1 + d, n % ENTRIES) == Entry(d * ENTRIES + n % ENTRIES, true, false);
      } else {
        assert Word(phys[..], dir, d) == 0;
      }
    }

    lemma TreeBuilt(limit: int)
      requires phys.Length == PHYS_WORDS && limit == dir + 5 <= NB_PAGES
      requires forall d {:trigger TableDone(d)} :: 0 <= d < 4 ==> TableDone(d)
      requires forall i {:trigger Word(phys[..], dir, i)} :: 4 <= i < ENTRIES ==> Word(phys[..], dir, i) == 0
      requires forall n: nat {:trigger Translate(n)} :: n < VIRTUAL_PAGES ==>
        Translate(n) == if n < NB_PAGES then Mapped(n, true, false) else Absent
      ensures TreeOk(phys[..], dir, limit)
    {
      hide Word, Entry, Walk;
      assert Translate(dir) == Mapped(dir, true, false);
      forall d | 0 <= d < ENTRIES
        ensures TableOk(phys[..], dir, limit, d)
      {
        FirstEntries(d);
        if d < 4 { assert Translate(dir + 1 + d) == Mapped(dir + 1 + d, true, false); }
      }
      forall c, d | 0 <= c < ENTRIES && 0 <= d < ENTRIES
        ensures TablesApart(phys[..], dir, c, d)
      {
        FirstEntries(c);
        FirstEntries(d);
      }
    }

    lemma FirstEntries(d: int)
      requires phys.Length == PHYS_WORDS && dir + 5 <= NB_PAGES && 0 <= d < ENTRIES
      requires forall c {:trigger TableDone(c)} :: 0 <= c < 4 ==> TableDone(c)
      requires forall i {:trigger Word(phys[..], dir, i)} :: 4 <= i < ENTRIES ==> Word(phys[..], dir, i) == 0
      ensures Present(Word(phys[..], dir, d)) <==> d < 4
      ensures d < 4 ==> FrameOf(Word(phys[..], dir, d)) == dir + 1 + d
      ensures d < 4 ==> Writable(Word(phys[..], dir, d)) && !UserMode(Word(phys[..], dir, d))
    {
      hide Word, Entry;
      if d < 4 {
        assert TableDone(d);
        EntryFields(dir + 1 + d, true, false);
      } else {
        assert Word(phys[..], dir, d) == 0;
      }
    }

    /** for (addr = 0; addr < placement_address; addr += PAGE_SIZE) setPage(addr) */
    method MarkReserved()
      requires Shaped() && heap.placementAddress == reserved * PAGE_SIZE && reserved <= NB_PAGES
      requires forall p {:trigger bitmap.Used(p)} :: 0 <= p < NB_PAGES ==> !bitmap.Used(p)
      modifies bitmap.words
      ensures forall p {:trigger bitmap.Used(p)} :: 0 <= p < NB_PAGES ==> (bitmap.Used(p) <==> p < reserved)
    {
      var addr := 0;
      ghost var k := 0;
      while addr < heap.placementAddress
        invariant 0 <= k <= reserved && addr == k * PAGE_SIZE
        invariant forall p {:trigger bitmap.Used(p)} :: 0 <= p < NB_PAGES ==> (bitmap.Used(p) <==> p < k)
        decreases reserved - k
      {
        bitmap.SetPage(addr);
        addr := addr + PAGE_SIZE;
        k := k + 1;
      }
    }

    // ----- alloc_page_entry -----

    /** table[tab_idx] = a present entry for the frame, on a page whose table is there.
        The kernel can still reach directory and tables exactly when the page was none
        of theirs (or was mapped onto itself again). */
    method MapPage(n: nat, table: nat, frame: nat, isWriteable: bool, isKernel: bool)
      requires phys.Length == PHYS_WORDS && n < VIRTUAL_PAGES && TreeOk(phys[..], dir, NB_PAGES) && frame < NB_PAGES
      requires Present(Pde(phys[..], dir, n)) && table == FrameOf(Pde(phys[..], dir, n))
      modifies phys
      ensures forall m: nat {:trigger Translate(m)} :: m < VIRTUAL_PAGES ==>
        Translate(m) == if m == n then Mapped(frame, isWriteable, false) else old(Translate(m))
      ensures Word(phys[..], table, n % ENTRIES) == Entry(frame, isWriteable, !isKernel)
      ensures forall d {:trigger Word(phys[..], dir, d)} :: 0 <= d < ENTRIES ==>
        Word(phys[..], dir, d) == old(Word(phys[..], dir, d))
      ensures TreeOk(phys[..], dir, NB_PAGES) <==>
        !old(Structure(phys[..], dir, n)) || (frame == n && isWriteable)
    {
      hide Entry, Word, Walk, Structure;
      ghost var m0 := phys[..];
      ghost var d, i := n / ENTRIES, n % ENTRIES;
      assert TableOk(m0, dir, NB_PAGES, d);
      var e := Entry(frame, isWriteable, !isKernel);
      EntryFields(frame, isWriteable, !isKernel);
      TableReach(n, table);
      Store(table, n % ENTRIES, e);
      assert Word(phys[..], table, i) == e by { WordWritten(m0, table, i, e); }
      assert n == d * ENTRIES + i;
      forall m: nat | m < VIRTUAL_PAGES
        ensures Translate(m) == if m == n then Mapped(frame, isWriteable, false) else old(Translate(m))
        ensures Word(phys[..], dir, m / ENTRIES) == Word(m0, dir, m / ENTRIES)
      {
        WriteEntry(m0, dir, NB_PAGES, d, i, e, m);
      }
      forall c | 0 <= c < ENTRIES
        ensures Word(phys[..], dir, c) == Word(m0, dir, c)
      {
        WriteEntry(m0, dir, NB_PAGES, d, i, e, c * ENTRIES);
      }
      assert forall m: nat :: m < VIRTUAL_PAGES && m != n ==> Translate(m) == Walk(m0, dir, m);
      Remapped(m0, n);
    }

    lemma WordWritten(m: seq<int>, f: nat, i: nat, v: int)
      requires |m| == PHYS_WORDS && f < NB_PAGES && i < ENTRIES
      ensures Word(m[f * ENTRIES + i := v], f, i) == v
    {
    }

    /** What giving page n a new frame does to the structures. */
    lemma Remapped(m0: seq<int>, n: nat)
      requires phys.Length == PHYS_WORDS && n < VIRTUAL_PAGES && TreeOk(m0, dir, NB_PAGES)
      requires forall c {:trigger Word(phys[..], dir, c)} :: 0 <= c < ENTRIES ==>
        Word(phys[..], dir, c) == Word(m0, dir, c)
      requires forall m: nat {:trigger Translate(m)} :: m < VIRTUAL_PAGES && m != n ==> Translate(m) == Walk(m0, dir, m)
      ensures TreeOk(phys[..], dir, NB_PAGES) <==> !Structure(m0, dir, n) || Translate(n) == Mapped(n, true, false)
    {
      hide Entry, Word, Walk, Structure;
      StructuresKept(m0, dir, phys[..]);
      if Structure(m0, dir, n) && Translate(n) != Mapped(n, true, false) {
        assert Structure(phys[..], dir, n);
        LostStructure(phys[..], dir, n, NB_PAGES);
      } else {
        forall m: nat | m < VIRTUAL_PAGES && Structure(m0, dir, m)
          ensures Walk(phys[..], dir, m) == Walk(m0, dir, m)
        {
          StructureMapped(m0, dir, NB_PAGES, m);
          assert Translate(m) == Walk(phys[..], dir, m);
        }
        TreeKept(m0, dir, NB_PAGES, phys[..]);
      }
    }

    lemma TableReach(n: nat, table: int)
      requires phys.Length == PHYS_WORDS && n < VIRTUAL_PAGES && TreeOk(phys[..], dir, NB_PAGES)
      requires Present(Pde(phys[..], dir, n)) && table == FrameOf(Pde(phys[..], dir, n))
      ensures 0 <= table < NB_PAGES && Translate(table) == Mapped(table, true, false)
    {
      assert TableOk(phys[..], dir, NB_PAGES, n / ENTRIES);
    }

    /** The kernel can reach frame p at its own address and nothing is kept there. */
    ghost predicate Reachable(p: nat)
      requires phys.Length == PHYS_WORDS
      reads `dir, phys
    {
      p < NB_PAGES && !Structure(phys[..], dir, p) && Translate(p) == Mapped(p, true, false)
    }

    /** A new table, cleared, taken from kmalloc_a; it is not entered in the bitmap. */
    method CreateTable(d: nat)
      requires phys.Length == PHYS_WORDS && d < ENTRIES && TreeOk(phys[..], dir, NB_PAGES)
        && !Present(Word(phys[..], dir, d)) && Reachable(NextPage())
      modifies phys, heap
      ensures TreeOk(phys[..], dir, NB_PAGES) && heap.placementAddress == (old(NextPage()) + 1) * PAGE_SIZE
      ensures Present(Word(phys[..], dir, d)) && FrameOf(Word(phys[..], dir, d)) == old(NextPage())
      ensures forall c {:trigger Word(phys[..], dir, c)} :: 0 <= c < ENTRIES && c != d ==>
        Word(phys[..], dir, c) == old(Word(phys[..], dir, c))
      ensures forall n: nat {:trigger Translate(n)} :: n < VIRTUAL_PAGES ==> Translate(n) == old(Translate(n))
      ensures forall g {:trigger Structure(phys[..], dir, g)} :: Structure(phys[..], dir, g) <==>
        old(Structure(phys[..], dir, g)) || g == old(NextPage())
    {
      hide Entry, Word, Walk;
      var newTable := heap.KmallocInt(PAGE_SIZE, true);
      var p := newTable / PAGE_SIZE;
      assert p == old(NextPage());
      ClearTable(p);
      ghost var m := phys[..];
      EntryFields(p, true, false);
      assert Translate(dir) == Mapped(dir, true, false);
      TreeGrown(m, dir, NB_PAGES, d, p);
      label Cleared:
      Store(dir, d, Entry(p, true, false));
      OneWord(m, phys[..], dir, d);
      StructureAdded(old(phys[..]), d, p);
      forall n: nat | n < VIRTUAL_PAGES
        ensures Translate(n) == old(Translate(n))
      {
        assert old@Cleared(Translate(n)) == Walk(m, dir, n);
        WriteDirectory(m, dir, NB_PAGES, d, p, n);
      }
    }

    lemma StructureAdded(m: seq<int>, d: nat, p: nat)
      requires phys.Length == |m| == PHYS_WORDS && d < ENTRIES && !Present(Word(m, dir, d))
      requires Present(Word(phys[..], dir, d)) && FrameOf(Word(phys[..], dir, d)) == p
      requires forall c {:trigger Word(phys[..], dir, c)} :: 0 <= c < ENTRIES && c != d ==>
        Word(phys[..], dir, c) == Word(m, dir, c)
      ensures forall g {:trigger Structure(phys[..], dir, g)} :: Structure(phys[..], dir, g) <==>
        Structure(m, dir, g) || g == p
    {
      hide Word, Present, FrameOf;
      forall g
        ensures Structure(phys[..], dir, g) <==> Structure(m, dir, g) || g == p
      {
        assert forall c {:trigger Word(m, dir, c)} :: 0 <= c < ENTRIES && c != d ==>
          Word(phys[..], dir, c) == Word(m, dir, c);
      }
    }

    /** for (i = 0; i < PAGE_TABLE_ENTRIES; i++) new_table[i].value = 0 */
    method ClearTable(p: nat)
      requires phys.Length == PHYS_WORDS && TreeOk(phys[..], dir, NB_PAGES) && Reachable(p)
      modifies phys
      ensures TreeOk(phys[..], dir, NB_PAGES) && Reachable(p)
      ensures forall i {:trigger Word(phys[..], p, i)} :: 0 <= i < ENTRIES ==> Word(phys[..], p, i) == 0
      ensures forall c {:trigger Word(phys[..], dir, c)} :: 0 <= c < ENTRIES ==>
        Word(phys[..], dir, c) == old(Word(phys[..], dir, c))
      ensures forall n: nat {:trigger Translate(n)} :: n < VIRTUAL_PAGES ==> Translate(n) == old(Translate(n))
    {
      hide Word, Walk, Structure;
      var i := 0;
      while i < ENTRIES
        invariant 0 <= i <= ENTRIES && TreeOk(phys[..], dir, NB_PAGES) && Reachable(p)
        invariant forall k {:trigger Word(phys[..], p, k)} :: 0 <= k < i ==> Word(phys[..], p, k) == 0
        invariant forall c {:trigger Word(phys[..], dir, c)} :: 0 <= c < ENTRIES ==>
          Word(phys[..], dir, c) == old(Word(phys[..], dir, c))
        invariant forall n: nat {:trigger Translate(n)} :: n < VIRTUAL_PAGES ==> Translate(n) == old(Translate(n))
      {
        ghost var m := phys[..];
        label Before:
        Store(p, i, 0);
        OneWord(m, phys[..], p, i);
        PlainStore(m, p, i, 0);
        forall n: nat | n < VIRTUAL_PAGES
          ensures Translate(n) == old(Translate(n))
        {
          assert old@Before(Translate(n)) == Walk(m, dir, n);
        }
        i := i + 1;
      }
    }

    /** What a store into a frame that is no structure leaves alone. */
    lemma PlainStore(m: seq<int>, f: nat, i: nat, v: int)
      requires phys.Length == PHYS_WORDS && TreeOk(m, dir, NB_PAGES) && f < NB_PAGES && i < ENTRIES
        && !Structure(m, dir, f)
      requires phys[..] == m[f * ENTRIES + i := v]
      ensures TreeOk(phys[..], dir, NB_PAGES)
      ensures forall n: nat {:trigger Translate(n)} :: n < VIRTUAL_PAGES ==> Translate(n) == Walk(m, dir, n)
      ensures forall c {:trigger Word(phys[..], dir, c)} :: 0 <= c < ENTRIES ==>
        Word(phys[..], dir, c) == Word(m, dir, c)
      ensures forall g {:trigger Structure(phys[..], dir, g)} :: Structure(phys[..], dir, g) <==> Structure(m, dir, g)
    {
      hide Word, Walk, Structure;
      forall n: nat | n < VIRTUAL_PAGES
        ensures Walk(phys[..], dir, n) == Walk(m, dir, n)
          && Word(phys[..], dir, n / ENTRIES) == Word(m, dir, n / ENTRIES)
      {
        WriteElsewhere(m, dir, f, i, v, n);
      }
      forall c | 0 <= c < ENTRIES
        ensures Word(phys[..], dir, c) == Word(m, dir, c)
      {
        WriteElsewhere(m, dir, f, i, v, c * ENTRIES);
      }
      TreeKept(m, dir, NB_PAGES, phys[..]);
    }

    /** No page is left. */
    ghost predicate Full()
      requires bitmap.Valid()
      reads bitmap, bitmap.words
    {
      forall p: nat :: p < NB_PAGES ==> bitmap.Used(p)
    }

    /** The lowest free page, the one findfreePage will give out. */
    ghost predicate Lowest(p: nat)
      requires bitmap.Valid()
      reads bitmap, bitmap.words
    {
      p < NB_PAGES && !bitmap.Used(p) && forall q {:trigger bitmap.Used(q)} :: 0 <= q < p ==> bitmap.Used(q)
    }

    /** alloc_page_entry(address, is_writeable, is_kernel) */
    method AllocPageEntry(address: nat, isWriteable: bool, isKernel: bool) returns (table: nat, ghost f: nat)
      requires Shaped() && TreeOk(phys[..], dir, NB_PAGES) && address < VIRTUAL_PAGES * PAGE_SIZE
      requires !Present(Pde(phys[..], dir, address / PAGE_SIZE)) ==> Reachable(NextPage())
      modifies phys, heap, bitmap.words
      ensures f < NB_PAGES && Present(Pde(phys[..], dir, address / PAGE_SIZE))
      // the walk changes at this page only
      ensures forall m: nat {:trigger Translate(m)} :: m < VIRTUAL_PAGES ==>
        Translate(m) == if m == address / PAGE_SIZE then Mapped(f, isWriteable, false) else old(Translate(m))
      // its entry has the rights asked for, but the directory's leaves user access out:
      // the page gets them exactly when it was asked for the kernel
      ensures Word(phys[..], table / PAGE_SIZE, address / PAGE_SIZE % ENTRIES) == Entry(f, isWriteable, !isKernel)
      ensures Translate(address / PAGE_SIZE) == Mapped(f, isWriteable, !isKernel) <==> isKernel
      // the frame is the lowest free one, now allocated, and frame 0 when none is left
      ensures if old(Full()) then f == 0 else old(Lowest(f))
      ensures forall p {:trigger bitmap.Used(p)} :: 0 <= p < NB_PAGES ==>
        (bitmap.Used(p) <==> old(bitmap.Used(p)) || p == f)
      ensures table == FrameOf(Pde(phys[..], dir, address / PAGE_SIZE)) * PAGE_SIZE
      // a table is added exactly when there was none, on the next page of the heap
      ensures if old(Present(Pde(phys[..], dir, address / PAGE_SIZE)))
        then Added(old(phys[..]), dir) && heap.placementAddress == old(heap.placementAddress)
        else Added(old(phys[..]), old(NextPage())) && table == old(NextPage()) * PAGE_SIZE
      ensures old(Present(Pde(phys[..], dir, address / PAGE_SIZE))) ==>
        forall c {:trigger Word(phys[..], dir, c)} :: 0 <= c < ENTRIES ==>
          Word(phys[..], dir, c) == old(Word(phys[..], dir, c))
      // the kernel loses sight of a structure exactly when its page is given away
      ensures TreeOk(phys[..], dir, NB_PAGES) <==>
        !old(Structure(phys[..], dir, address / PAGE_SIZE)) || (f == address / PAGE_SIZE && isWriteable)
    {
      assert Structure(phys[..], dir, dir);
      hide Entry, Word, Walk, Structure, Present, FrameOf;
      var n := address / PAGE_SIZE;
      assert Translate(dir) == Mapped(dir, true, false);
      var pde := Load(dir, n / ENTRIES);
      ghost var wasPresent := Present(pde);
      if !Present(pde) {
        AbsentPage(n);
        CreateTable(n / ENTRIES);
      }
      ghost var m1 := phys[..];
      assert Structure(m1, dir, n) <==> old(Structure(phys[..], dir, n));
      assert bitmap.words[..] == old(bitmap.words[..]);
      assert forall p: nat :: p < NB_PAGES ==> bitmap.Used(p) == old(bitmap.Used(p));
      table, f := MapFree(n, isWriteable, isKernel);
      StructuresKept(m1, dir, phys[..]);
    }

    /** The second half of alloc_page_entry, on a directory entry that is present. */
    method MapFree(n: nat, isWriteable: bool, isKernel: bool) returns (table: nat, ghost f: nat)
      requires Shaped() && TreeOk(phys[..], dir, NB_PAGES) && n < VIRTUAL_PAGES && Present(Pde(phys[..], dir, n))
      modifies phys, bitmap.words
      ensures f < NB_PAGES && table == FrameOf(Pde(phys[..], dir, n)) * PAGE_SIZE
      ensures if old(Full()) then f == 0 else old(Lowest(f))
      ensures forall m: nat {:trigger Translate(m)} :: m < VIRTUAL_PAGES ==>
        Translate(m) == if m == n then Mapped(f, isWriteable, false) else old(Translate(m))
      ensures Word(phys[..], table / PAGE_SIZE, n % ENTRIES) == Entry(f, isWriteable, !isKernel)
      ensures forall p {:trigger bitmap.Used(p)} :: 0 <= p < NB_PAGES ==>
        (bitmap.Used(p) <==> old(bitmap.Used(p)) || p == f)
      ensures forall c {:trigger Word(phys[..], dir, c)} :: 0 <= c < ENTRIES ==>
        Word(phys[..], dir, c) == old(Word(phys[..], dir, c))
      ensures TreeOk(phys[..], dir, NB_PAGES) <==>
        !old(Structure(phys[..], dir, n)) || (f == n && isWriteable)
    {
      hide Entry, Word, Walk, Structure, Present, FrameOf;
      assert Translate(dir) == Mapped(dir, true, false);
      var pde := Load(dir, n / ENTRIES);
      TableReach(n, FrameOf(pde));
      table := FrameOf(pde) * PAGE_SIZE;
      var frame := bitmap.FindFreePage();
      f := frame / PAGE_SIZE;
      label Found:
      MapPage(n, table / PAGE_SIZE, frame / PAGE_SIZE, isWriteable, isKernel);
      forall p: nat | p < NB_PAGES
        ensures bitmap.Used(p) <==> old(bitmap.Used(p)) || p == f
      {
        assert old@Found(bitmap.Used(p)) <==> bitmap.Used(p);
      }
      assert Word(phys[..], dir, n / ENTRIES) == pde;
    }

    /** The structures are those of m and frame g. */
    ghost predicate Added(m: seq<int>, g: int)
      requires phys.Length == |m| == PHYS_WORDS
      reads `dir, phys
    {
      forall f {:trigger Structure(phys[..], dir, f)} :: Structure(phys[..], dir, f) <==> Structure(m, dir, f) || f == g
    }

    lemma AbsentPage(n: nat)
      requires phys.Length == PHYS_WORDS && TreeOk(phys[..], dir, NB_PAGES) && !Present(Pde(phys[..], dir, n))
      ensures Translate(n) == Absent && !Structure(phys[..], dir, n)
    {
      assert Translate(n) == Absent;
      hide Structure, Walk, Pde;
      if Structure(phys[..], dir, n) { StructureMapped(phys[..], dir, NB_PAGES, n); }
    }

    // ----- what keeps frames apart -----

    /** No frame that was handed out holds the directory or a table, and the bitmap
        knows all of them. Unlike Valid, this allows tables outside the reserved part. */
    ghost predicate Apart()
      reads this, phys, bitmap, bitmap.words
    {
      && Shaped() && TreeOk(phys[..], dir, NB_PAGES)
      && (forall p {:trigger bitmap.Used(p)} :: 0 <= p < NB_PAGES ==> (bitmap.Used(p) <==> p < reserved || p in handed))
      && (forall f {:trigger f in handed} :: f in handed ==> reserved <= f < NB_PAGES && !Structure(phys[..], dir, f))
    }

    lemma ValidApart()
      requires Valid()
      ensures Apart()
    {
      hide TreeOk, Structure;
      WiderTree(phys[..]);
      forall f | f in handed ensures !Structure(phys[..], dir, f) { StructureBelow(phys[..], f); }
    }

    /** What a caller could check before asking for page n: the page shows no directory
        or table, the lowest free frame is none (an earlier table that the bitmap does
        not know), and where a table is missing the heap puts it neither on that frame
        nor on one that was handed out. */
    ghost predicate KeepsApart(n: nat)
      requires Shaped() && phys.Length == PHYS_WORDS
      reads this, phys, heap, bitmap, bitmap.words
    {
      && !Structure(phys[..], dir, n)
      && (forall p: nat {:trigger Lowest(p)} :: Lowest(p) ==> !Structure(phys[..], dir, p))
      && (!Present(Pde(phys[..], dir, n)) ==> NextPage() !in handed && !Lowest(NextPage()))
    }

    /** One request, whatever it asks for: the frame was never handed out, and handed
        out frames and tables stay apart if and only if KeepsApart held. */
    method AllocAny(address: nat, isWriteable: bool, isKernel: bool) returns (table: nat, ghost f: nat)
      requires Apart() && address < VIRTUAL_PAGES * PAGE_SIZE
      requires exists p: nat :: p < NB_PAGES && !bitmap.Used(p)
      requires !Present(Pde(phys[..], dir, address / PAGE_SIZE)) ==> Reachable(NextPage())
      modifies phys, heap, bitmap.words, `handed
      ensures old(Lowest(f)) && f !in old(handed) && handed == old(handed) + {f}
      ensures forall m: nat {:trigger Translate(m)} :: m < VIRTUAL_PAGES ==>
        Translate(m) == if m == address / PAGE_SIZE then Mapped(f, isWriteable, false) else old(Translate(m))
      ensures Apart() <==> old(KeepsApart(address / PAGE_SIZE))
      // the two ways in which an absent directory entry fails
      ensures !old(Present(Pde(phys[..], dir, address / PAGE_SIZE))) ==>
        table == old(NextPage()) * PAGE_SIZE && (f == old(NextPage()) <==> old(Lowest(NextPage())))
    {
      assert Structure(phys[..], dir, dir);
      hide *;
      ghost var n, m0, next := address / PAGE_SIZE, phys[..], NextPage();
      ghost var absent, out0, safe := !Present(Pde(m0, dir, n)), handed, KeepsApart(n);
      ApartParts();
      forall q: nat | Lowest(q)
        ensures reserved <= q < NB_PAGES && q !in out0 && (Lowest(next) <==> q == next)
        ensures safe <==> Safe(m0, n, q, absent, next, out0)
      {
        LowestDecides(n, q);
      }
      table, f := AllocPageEntry(address, isWriteable, isKernel);
      handed := handed + {f};
      forall p: nat | p < NB_PAGES
        ensures bitmap.Used(p) <==> p < reserved || p in handed
      {
        assert bitmap.Used(p) <==> old(bitmap.Used(p)) || p == f;
      }
      ApartAfter(m0, n, f, absent, next, out0);
    }

    /** KeepsApart, with f for the lowest free frame. */
    ghost predicate Safe(m: seq<int>, n: nat, f: nat, absent: bool, next: nat, out: set<nat>)
      requires |m| == PHYS_WORDS
      reads `dir
    {
      !Structure(m, dir, n) && !Structure(m, dir, f) && (absent ==> next !in out && next != f)
    }

    lemma ApartParts()
      requires Apart()
      ensures Shaped() && TreeOk(phys[..], dir, NB_PAGES)
      ensures forall p {:trigger bitmap.Used(p)} :: 0 <= p < NB_PAGES ==>
        (bitmap.Used(p) <==> p < reserved || p in handed)
      ensures forall f {:trigger f in handed} :: f in handed ==>
        reserved <= f < NB_PAGES && !Structure(phys[..], dir, f)
    {
    }

    lemma LowestDecides(n: nat, q: nat)
      requires Apart() && Lowest(q)
      ensures reserved <= q < NB_PAGES && q !in handed && (Lowest(NextPage()) <==> q == NextPage())
      ensures KeepsApart(n) <==> Safe(phys[..], n, q, !Present(Pde(phys[..], dir, n)), NextPage(), handed)
    {
      hide Structure, TreeOk, Pde;
      assert forall p: nat {:trigger Lowest(p)} :: Lowest(p) ==> p == q;
    }

    lemma ApartAfter(m: seq<int>, n: nat, f: nat, absent: bool, next: nat, out: set<nat>)
      requires Shaped() && |m| == PHYS_WORDS && reserved <= f < NB_PAGES && handed == out + {f}
      requires forall p {:trigger bitmap.Used(p)} :: 0 <= p < NB_PAGES ==>
        (bitmap.Used(p) <==> p < reserved || p in handed)
      requires Structure(m, dir, dir) && Added(m, if absent then next else dir)
      requires TreeOk(phys[..], dir, NB_PAGES) <== !Structure(m, dir, n)
      requires TreeOk(phys[..], dir, NB_PAGES) ==> !Structure(m, dir, n) || f == n
      requires forall g {:trigger g in out} :: g in out ==> reserved <= g < NB_PAGES && !Structure(m, dir, g)
      ensures Apart() <==> Safe(m, n, f, absent, next, out)
    {
      hide Structure, TreeOk;
      assert f in handed;
      assert Structure(phys[..], dir, f) <==> Structure(m, dir, f) || (absent && f == next);
      if absent && next in out {
        assert next in handed && Structure(phys[..], dir, next);
      } else if Safe(m, n, f, absent, next, out) {
        forall g | g in handed
          ensures reserved <= g < NB_PAGES && !Structure(phys[..], dir, g)
        {
          assert g in out || g == f;
        }
      }
    }

    /** The same on an entry that is present, within the invariant: the frame is new,
        no structure and not reserved. The invariant survives exactly when the page
        was not one the kernel needs to reach directory and tables. */
    method AllocPresent(address: nat, isWriteable: bool, isKernel: bool) returns (table: nat, ghost f: nat)
      requires Valid() && address < VIRTUAL_PAGES * PAGE_SIZE
      requires Present(Pde(phys[..], dir, address / PAGE_SIZE))
      requires exists p: nat :: p < NB_PAGES && !bitmap.Used(p)
      modifies phys, heap, bitmap.words, `handed
      ensures Valid() <==> !old(Structure(phys[..], dir, address / PAGE_SIZE))
      ensures handed == old(handed) + {f} && f !in old(handed) && old(Lowest(f))
      ensures Shaped() && reserved <= f < NB_PAGES && !Structure(phys[..], dir, f)
      ensures forall p {:trigger bitmap.Used(p)} :: 0 <= p < NB_PAGES ==>
        (bitmap.Used(p) <==> old(bitmap.Used(p)) || p == f)
      ensures forall m: nat {:trigger Translate(m)} :: m < VIRTUAL_PAGES ==>
        Translate(m) == if m == address / PAGE_SIZE then Mapped(f, isWriteable, false) else old(Translate(m))
      ensures table == FrameOf(old(Pde(phys[..], dir, address / PAGE_SIZE))) * PAGE_SIZE
      ensures heap.placementAddress == old(heap.placementAddress)
      ensures forall c {:trigger Word(phys[..], dir, c)} :: 0 <= c < ENTRIES ==>
        Word(phys[..], dir, c) == old(Word(phys[..], dir, c))
    {
      hide Entry, Word, Walk, Structure;
      ghost var n, m0 := address / PAGE_SIZE, phys[..];
      ghost var used0 := set p: nat | p < NB_PAGES && bitmap.Used(p);
      assert forall p: nat :: p < NB_PAGES ==> (p in used0 <==> p < reserved || p in handed);
      WiderTree(m0);
      StructureBelow(m0, n);
      table, f := AllocPageEntry(address, isWriteable, isKernel);
      label Allocated:
      assert f !in used0;
      StructuresKept(m0, dir, phys[..]);
      StructureBelow(m0, f);
      handed := handed + {f};
      forall p: nat | p < NB_PAGES
        ensures bitmap.Used(p) <==> p in used0 || p == f
      {
        assert old@Allocated(bitmap.Used(p)) <==> old(bitmap.Used(p)) || p == f;
      }
      if Structure(m0, dir, n) {
        if Valid() { WiderTree(phys[..]); }
      } else {
        forall m: nat | m < VIRTUAL_PAGES && Structure(m0, dir, m)
          ensures Walk(phys[..], dir, m) == Walk(m0, dir, m)
        {
          assert Translate(m) == old(Translate(m));
        }
        TreeKept(m0, dir, reserved, phys[..]);
      }
    }

    /** Pages are left as long as fewer were handed out than there are. */
    lemma PageLeft()
      requires Shaped() && 0 <= reserved < NB_PAGES && |handed| < NB_PAGES - reserved
      requires forall p {:trigger bitmap.Used(p)} :: 0 <= p < NB_PAGES ==>
        (bitmap.Used(p) ==> p < reserved || p in handed)
      ensures exists p: nat :: p < NB_PAGES && !bitmap.Used(p)
    {
      if forall p: nat :: p < NB_PAGES ==> bitmap.Used(p) {
        forall p | reserved <= p < NB_PAGES ensures p in handed { assert bitmap.Used(p); }
        CoversRange(handed, reserved, NB_PAGES);
      }
    }

    /** Nothing but requests for pages happened since initialise_paging: the heap is
        where it was, and the frames handed out follow it without a gap. */
    ghost predicate Undisturbed()
      reads this, heap
    {
      heap.placementAddress == reserved * PAGE_SIZE
      && forall p: nat {:trigger p in handed} :: p in handed <==> reserved <= p < reserved + |handed|
    }

    /** The lowest free frame lies right behind those handed out. */
    lemma NextFrame(f: nat)
      requires Valid() && Undisturbed() && Lowest(f) && |handed| < NB_PAGES - reserved
      ensures f == reserved + |handed|
    {
      hide TreeOk;
      assert !bitmap.Used(reserved + |handed|);
      assert f !in handed && f >= reserved;
    }

    /** So no table can be added any more: its frame would be the lowest free one, or
        the first that was handed out. */
    lemma NextTable(n: nat)
      requires Valid() && Undisturbed() && |handed| < NB_PAGES - reserved
      ensures KeepsApart(n) <==> Present(Pde(phys[..], dir, n)) && !Structure(phys[..], dir, n)
    {
      hide TreeOk, Structure, Pde;
      var low := reserved + |handed|;
      assert low !in handed && !bitmap.Used(low);
      forall q | 0 <= q < low ensures bitmap.Used(q) { assert q < reserved || q in handed; }
      assert Lowest(low) && NextPage() == reserved;
      assert handed == {} ==> low == reserved;
      assert handed != {} ==> reserved in handed;
      assert forall p: nat {:trigger Lowest(p)} :: Lowest(p) ==> p == low;
      StructureBelow(phys[..], low);
    }

    /** A run of requests within the first 16 MB: every frame is new, and each page
        ends up on the frame of its latest request. After any such run since
        initialise_paging, one more request keeps frames and tables apart if and only
        if it is of the same kind. */
    method AllocAll(requests: seq<Request>) returns (ghost frames: seq<nat>)
      requires Valid() && |handed| + |requests| <= NB_PAGES - reserved
      requires forall r {:trigger r in requests} :: r in requests ==>
        r.address < VIRTUAL_PAGES * PAGE_SIZE && Present(Pde(phys[..], dir, r.address / PAGE_SIZE))
          && !Structure(phys[..], dir, r.address / PAGE_SIZE)
      modifies phys, heap, bitmap.words, `handed
      ensures Valid() && |frames| == |requests| && |handed| <= |old(handed)| + |requests|
      ensures forall i, j {:trigger frames[i], frames[j]} :: 0 <= i < j < |frames| ==> frames[i] != frames[j]
      ensures forall i {:trigger frames[i]} :: 0 <= i < |frames| ==>
        frames[i] !in old(handed) && reserved <= frames[i] < NB_PAGES && !Structure(phys[..], dir, frames[i])
      ensures forall m: nat {:trigger Translate(m)} :: m < VIRTUAL_PAGES ==>
        Translate(m) == Latest(requests, frames, m, old(Translate(m)))
      ensures forall n: nat {:trigger KeepsApart(n)} ::
        old(Undisturbed()) && |handed| < NB_PAGES - reserved && n < VIRTUAL_PAGES ==>
        (KeepsApart(n) <==> old(Present(Pde(phys[..], dir, n)) && !Structure(phys[..], dir, n)))
    {
      hide Entry, Word, Walk, Structure, TreeOk, Pde, KeepsApart, Lowest, Present, FrameOf, Latest;
      frames := [];
      ghost var m0 := phys[..];
      NoRequest(frames);
      for k := 0 to |requests|
        invariant Valid() && |frames| == k && |handed| <= |old(handed)| + k
        invariant forall i, j {:trigger frames[i], frames[j]} :: 0 <= i < j < |frames| ==> frames[i] != frames[j]
        invariant forall i {:trigger frames[i]} :: 0 <= i < |frames| ==>
          frames[i] !in old(handed) && frames[i] in handed
        invariant old(handed) <= handed && (old(Undisturbed()) ==> Undisturbed())
        invariant forall c {:trigger Word(phys[..], dir, c)} :: 0 <= c < ENTRIES ==>
          Word(phys[..], dir, c) == Word(m0, dir, c)
        invariant forall m: nat {:trigger Translate(m)} :: m < VIRTUAL_PAGES ==>
          Translate(m) == Latest(requests[..k], frames, m, old(Translate(m)))
      {
        var r := requests[k];
        assert r in requests;
        PageLeft();
        SameStructures(m0, phys[..], r.address / PAGE_SIZE);
        forall q: nat | Undisturbed() && Lowest(q)
          ensures q == reserved + |handed|
        {
          NextFrame(q);
        }
        label Before:
        ghost var f;
        var table;
        table, f := AllocPresent(r.address, r.isWriteable, r.isKernel);
        assert old@Before(Undisturbed()) ==> f == reserved + old@Before(|handed|);
        frames := frames + [f];
        forall m: nat | m < VIRTUAL_PAGES
          ensures Translate(m) == Latest(requests[..k + 1], frames, m, old(Translate(m)))
        {
          LatestStep(requests, k, frames[..k], f, m, old(Translate(m)));
          assert frames[..k] + [f] == frames;
          assert old@Before(Translate(m)) == Latest(requests[..k], frames[..k], m, old(Translate(m)));
        }
      }
      assert requests[..|requests|] == requests;
      forall i | 0 <= i < |frames|
        ensures !Structure(phys[..], dir, frames[i])
      {
        StructureBelow(phys[..], frames[i]);
      }
      forall n: nat | old(Undisturbed()) && |handed| < NB_PAGES - reserved && n < VIRTUAL_PAGES
        ensures KeepsApart(n) <==> Present(Pde(m0, dir, n)) && !Structure(m0, dir, n)
      {
        NextTable(n);
        SameStructures(m0, phys[..], n);
      }
    }

    lemma SameStructures(m: seq<int>, m': seq<int>, n: nat)
      requires |m| == |m'| == PHYS_WORDS && n < VIRTUAL_PAGES
      requires forall c {:trigger Word(m', dir, c)} :: 0 <= c < ENTRIES ==> Word(m', dir, c) == Word(m, dir, c)
      ensures Pde(m', dir, n) == Pde(m, dir, n) && (Structure(m', dir, n) <==> Structure(m, dir, n))
    {
      hide Word;
      assert forall c {:trigger Word(m, dir, c)} :: 0 <= c < ENTRIES ==> Word(m', dir, c) == Word(m, dir, c);
    }

    lemma StructureBelow(m: seq<int>, f: int)
      requires TreeOk(m, dir, reserved)
      ensures Structure(m, dir, f) ==> f < reserved
    {
      hide Word, Walk;
      if Structure(m, dir, f) && f != dir {
        var d :| 0 <= d < ENTRIES && Present(Word(m, dir, d)) && FrameOf(Word(m, dir, d)) == f;
        assert TableOk(m, dir, reserved, d);
      }
    }

    /** A program stores through a page it was given: whatever it writes, no
        translation changes. */
    method UserStore(n: nat, i: nat, v: int)
      requires Valid() && n < VIRTUAL_PAGES && i < ENTRIES
      requires Translate(n).Mapped? && Translate(n).rw && Translate(n).frame in handed
      modifies phys
      ensures Valid() && forall m: nat {:trigger Translate(m)} :: m < VIRTUAL_PAGES ==>
        Translate(m) == old(Translate(m))
    {
      hide Entry, Word, Walk, Structure;
      ghost var m0, f := phys[..], Translate(n).frame;
      StructureBelow(m0, f);
      WiderTree(m0);
      Store(n, i, v);
      PlainStore(m0, f, i, v);
      forall m: nat | m < VIRTUAL_PAGES
        ensures Translate(m) == old(Translate(m))
      {
        assert old(Translate(m)) == Walk(m0, dir, m);
      }
      forall m: nat | m < VIRTUAL_PAGES
        ensures Walk(phys[..], dir, m) == Walk(m0, dir, m)
      {
        assert Translate(m) == Walk(phys[..], dir, m);
      }
      TreeKept(m0, dir, reserved, phys[..]);
    }

    /** Where no table is yet and the heap is about to use the lowest free frame, table
        and page get the same frame: the page shows its own table, and clearing one
        word of it makes the page vanish. */
    method OwnTable(address: nat, isKernel: bool) returns (table: nat, ghost f: nat)
      requires Apart() && address < VIRTUAL_PAGES * PAGE_SIZE && !Present(Pde(phys[..], dir, address / PAGE_SIZE))
      requires Lowest(NextPage()) && Reachable(NextPage())
      modifies phys, heap, bitmap.words, `handed
      ensures f == old(NextPage()) && table == f * PAGE_SIZE && !Apart() && handed == old(handed) + {f}
      ensures Translate(address / PAGE_SIZE) == Mapped(f, true, false)
      ensures Walk(phys[..][f * ENTRIES + address / PAGE_SIZE % ENTRIES := 0], dir, address / PAGE_SIZE) == Absent
    {
      hide Entry, Structure, Word;
      ghost var n := address / PAGE_SIZE;
      AbsentPage(n);
      table, f := AllocPageEntry(address, true, isKernel);
      handed := handed + {f};
      assert Translate(n) == Mapped(f, true, false);
      assert Structure(phys[..], dir, f) && f in handed;
      NotDirectory(n);
      SelfMapped(phys[..], dir, n);
    }

    /** Where no table is yet and the heap is about to use a frame somebody was given,
        the new table lies in that frame: a store of its owner, through a page u that
        shows it, makes the page vanish. */
    method OwnedTable(address: nat, u: nat, isWriteable: bool, isKernel: bool)
      returns (table: nat, ghost f: nat, ghost before: Mapping)
      requires Apart() && address < VIRTUAL_PAGES * PAGE_SIZE && !Present(Pde(phys[..], dir, address / PAGE_SIZE))
      requires exists p: nat :: p < NB_PAGES && !bitmap.Used(p)
      requires NextPage() in handed && Reachable(NextPage())
      requires u < VIRTUAL_PAGES && Translate(u).Mapped? && Translate(u).rw && Translate(u).frame == NextPage()
      modifies phys, heap, bitmap.words, `handed
      ensures old(NextPage()) in old(handed) && table == old(NextPage()) * PAGE_SIZE && f !in old(handed) && !Apart()
      ensures before == Mapped(f, isWriteable, false) && Translate(address / PAGE_SIZE) == Absent
      ensures handed == old(handed) + {f}
    {
      hide Entry, Structure, Word;
      var n := address / PAGE_SIZE;
      ghost var p := NextPage();
      AbsentPage(n);
      assert bitmap.Used(p) && Translate(u) != Absent;
      table, f := AllocPageEntry(address, isWriteable, isKernel);
      handed := handed + {f};
      before := Translate(n);
      assert Structure(phys[..], dir, p) && p in handed;
      NotDirectory(n);
      ghost var m := phys[..];
      Store(u, n % ENTRIES, 0);
      OneWord(m, phys[..], p, n % ENTRIES);
      assert Pde(phys[..], dir, n) == Pde(m, dir, n) && Word(phys[..], p, n % ENTRIES) == 0;
      StructuresKept(m, dir, phys[..]);
      assert Structure(phys[..], dir, p);
    }

    /** From power-on through a run of requests for pages below 16 MB other than the
        directory and its four tables: all frames are new, and exactly these pages can
        still be asked for without mixing frames and tables. */
    method BootThenRun(requests: seq<Request>) returns (ghost frames: seq<nat>)
      requires Shaped() && heap.placementAddress + 6 * PAGE_SIZE <= NB_PAGES * PAGE_SIZE
      requires |requests| < NB_PAGES - NextPage() - 5
      requires forall r {:trigger r in requests} :: r in requests ==> FreePage(r.address / PAGE_SIZE, NextPage())
      modifies this, phys, heap, bitmap.words
      ensures Valid() && |frames| == |requests| && reserved == old(NextPage()) + 5
      ensures forall i, j {:trigger frames[i], frames[j]} :: 0 <= i < j < |frames| ==> frames[i] != frames[j]
      ensures forall m: nat {:trigger Translate(m)} :: m < VIRTUAL_PAGES ==>
        Translate(m) == Latest(requests, frames, m, if m < NB_PAGES then Mapped(m, true, false) else Absent)
      ensures forall n: nat {:trigger KeepsApart(n)} :: n < VIRTUAL_PAGES ==>
        (KeepsApart(n) <==> FreePage(n, old(NextPage())))
    {
      hide TreeOk, Structure, Word, Walk, Pde, KeepsApart, Latest;
      bitmap.InitMem();
      InitialisePaging();
      assert Undisturbed();
      frames := AllocAll(requests);
    }

    /** Below 16 MB and none of the five pages from first on. */
    predicate FreePage(n: nat, first: nat) {
      n < NB_PAGES && !(first <= n < first + 5)
    }

    /** From power-on to the first page asked for beyond 16 MB: its frame is its own
        table. */
    method BootThenNewTable(address: nat, isKernel: bool) returns (table: nat, ghost f: nat)
      requires Shaped() && heap.placementAddress + 6 * PAGE_SIZE <= NB_PAGES * PAGE_SIZE
      requires NB_PAGES <= address / PAGE_SIZE < VIRTUAL_PAGES
      modifies this, phys, heap, bitmap.words
      ensures f == reserved < NB_PAGES && table == f * PAGE_SIZE && !Apart() && handed == {f}
      ensures Translate(address / PAGE_SIZE) == Mapped(f, true, false)
      ensures Walk(phys[..][f * ENTRIES + address / PAGE_SIZE % ENTRIES := 0], dir, address / PAGE_SIZE) == Absent
    {
      hide TreeOk, Structure, Word, Walk;
      bitmap.InitMem();
      InitialisePaging();
      ValidApart();
      assert forall q {:trigger bitmap.Used(q)} :: 0 <= q < reserved ==> bitmap.Used(q);
      assert !bitmap.Used(reserved) && Translate(reserved) == Mapped(reserved, true, false);
      assert !Present(Pde(phys[..], dir, address / PAGE_SIZE));
      table, f := OwnTable(address, isKernel);
    }

    /** alloc_page_entry for page n, when the page of its table shows another frame f:
        no translation changes, although a frame is taken. */
    method LostEntry(n: nat, ghost f: nat, isWriteable: bool, isKernel: bool) returns (ghost lost: nat)
      requires Shaped() && dir < NB_PAGES && n < VIRTUAL_PAGES && Translate(dir) == Mapped(dir, true, false)
      requires Present(Pde(phys[..], dir, n)) && 0 <= FrameOf(Pde(phys[..], dir, n)) < NB_PAGES
      requires Translate(FrameOf(Pde(phys[..], dir, n))) == Mapped(f, true, false) && f < NB_PAGES
        && !Structure(phys[..], dir, f)
      requires exists p: nat :: p < NB_PAGES && !bitmap.Used(p)
      modifies phys, bitmap.words
      ensures lost < NB_PAGES && !old(bitmap.Used(lost)) && bitmap.Used(lost)
      ensures phys[..] == old(phys[..])[f * ENTRIES + n % ENTRIES := Entry(lost, isWriteable, !isKernel)]
      ensures forall m: nat {:trigger Translate(m)} :: m < VIRTUAL_PAGES ==> Translate(m) == old(Translate(m))
      ensures forall c {:trigger Word(phys[..], dir, c)} :: 0 <= c < ENTRIES ==>
        Word(phys[..], dir, c) == old(Word(phys[..], dir, c))
    {
      hide Entry, Word, Walk, Structure;
      ghost var m0 := phys[..];
      ghost var free :| 0 <= free < NB_PAGES && !bitmap.Used(free);
      var pde := Load(dir, n / ENTRIES);
      assert !bitmap.Used(free);
      label Found:
      var frame := bitmap.FindFreePage();
      lost := frame / PAGE_SIZE;
      assert !old@Found(bitmap.Used(lost));
      var e := Entry(frame / PAGE_SIZE, isWriteable, !isKernel);
      Store(FrameOf(pde), n % ENTRIES, e);
      forall m: nat | m < VIRTUAL_PAGES
        ensures Translate(m) == old(Translate(m))
      {
        assert old(Translate(m)) == Walk(m0, dir, m);
        WriteElsewhere(m0, dir, f, n % ENTRIES, e, m);
      }
      forall c | 0 <= c < ENTRIES
        ensures Word(phys[..], dir, c) == Word(m0, dir, c)
      {
        WriteElsewhere(m0, dir, f, n % ENTRIES, e, c * ENTRIES);
      }
    }

    /** The page of a table t is asked for as well, and shows a new frame f from then
        on. The next request under t writes its entry into f and is lost. */
    method LostTable(t: nat, n: nat, isWriteable: bool, isKernel: bool) returns (ghost f: nat, ghost lost: nat)
      requires Valid() && n < VIRTUAL_PAGES && Present(Pde(phys[..], dir, n)) && t == FrameOf(Pde(phys[..], dir, n))
      requires |handed| + 1 < NB_PAGES - reserved
      modifies phys, heap, bitmap.words, `handed
      ensures !Valid() && handed == old(handed) + {f} && f !in old(handed)
      ensures lost < NB_PAGES && lost != f && !old(bitmap.Used(lost)) && bitmap.Used(lost)
      ensures forall m: nat {:trigger Translate(m)} :: m < VIRTUAL_PAGES ==>
        Translate(m) == if m == t then Mapped(f, true, false) else old(Translate(m))
      // whoever was given f finds that entry in it
      ensures Word(phys[..], f, n % ENTRIES) == Entry(lost, isWriteable, !isKernel)
    {
      hide Entry, Word, Walk, Structure, Pde;
      ghost var m0 := phys[..];
      PageLeft();
      WiderTree(m0);
      TableReach(n, t);
      NotDirectory(n);
      TableIsStructure(n);
      MappedPresent(t);
      assert Translate(dir) == Mapped(dir, true, false);
      StructureBelow(m0, t);
      var table;
      table, f := AllocPresent(t * PAGE_SIZE, true, true);
      SameStructures(m0, phys[..], n);
      forall p: nat | p < NB_PAGES && bitmap.Used(p)
        ensures p < reserved || p in handed
      {
        assert p == f || old(bitmap.Used(p));
      }
      PageLeft();
      label Remapped:
      lost := LostEntry(n, f, isWriteable, isKernel);
      WordWritten(old@Remapped(phys[..]), f, n % ENTRIES, Entry(lost, isWriteable, !isKernel));
      assert !old@Remapped(bitmap.Used(lost));
      StructuresKept(m0, dir, phys[..]);
      assert Translate(t) == Mapped(f, true, false);
      LostStructure(phys[..], dir, t, reserved);
    }

    lemma MappedPresent(n: nat)
      requires phys.Length == PHYS_WORDS && Translate(n).Mapped?
      ensures Present(Pde(phys[..], dir, n))
    {
    }

    lemma TableIsStructure(n: nat)
      requires phys.Length == PHYS_WORDS && n < VIRTUAL_PAGES && Present(Pde(phys[..], dir, n))
      ensures Structure(phys[..], dir, FrameOf(Pde(phys[..], dir, n)))
    {
    }

    lemma NotDirectory(n: nat)
      requires phys.Length == PHYS_WORDS && TreeOk(phys[..], dir, NB_PAGES) && n < VIRTUAL_PAGES
        && Present(Pde(phys[..], dir, n))
      ensures FrameOf(Pde(phys[..], dir, n)) != dir
    {
      assert TableOk(phys[..], dir, NB_PAGES, n / ENTRIES);
    }

    lemma WiderTree(m: seq<int>)
      requires TreeOk(m, dir, reserved)
      ensures TreeOk(m, dir, NB_PAGES)
    {
      hide Word, Walk;
      forall d | 0 <= d < ENTRIES ensures TableOk(m, dir, NB_PAGES, d) { assert TableOk(m, dir, reserved, d); }
    }
  }
}
