/** kernel/mem.c and kernel/kheap.c: the bitmap of physical pages and the bump
    allocator that runs before it. */
module PhysicalMemory {
  import opened BinMap

  const PAGE_SIZE := 0x1000
  const NB_PAGES := 4096
  const BITMAP_SIZE := 128

  class PageBitmap {
    const words: array<bv32>

    ghost predicate Valid()
      reads this
    {
      words.Length == BITMAP_SIZE
    }

    /** The page is allocated. */
    predicate Used(page: nat)
      requires words.Length == BITMAP_SIZE && page < NB_PAGES
      reads words
    {
      Has(words[page / 32], page % 32)
    }

    constructor ()
      ensures Valid() && fresh(words)
    {
      words := new bv32[BITMAP_SIZE];
    }

    /** init_mem() */
    method InitMem()
      requires Valid()
      modifies words
      ensures forall p {:trigger Used(p)} :: 0 <= p < NB_PAGES ==> !Used(p)
    {
      hide Has;
      var i := 0;
      while i < BITMAP_SIZE
        invariant 0 <= i <= BITMAP_SIZE && forall k :: 0 <= k < i ==> words[k] == 0
      {
        words[i] := 0;
        i := i + 1;
      }
      forall p | 0 <= p < NB_PAGES ensures !Used(p) { ZeroHas(p % 32); }
    }

    /** setPage(addr) */
    method SetPage(addr: nat)
      requires Valid() && addr < NB_PAGES * PAGE_SIZE
      modifies words
      ensures forall p {:trigger Used(p)} :: 0 <= p < NB_PAGES ==> (Used(p) <==> old(Used(p)) || p == addr / PAGE_SIZE)
    {
      hide Has, Join, Bit;
      var page := addr / PAGE_SIZE;
      ghost var w := words[page / 32];
      words[page / 32] := Join(words[page / 32], Bit(page % 32));
      forall p | 0 <= p < NB_PAGES
        ensures Used(p) <==> old(Used(p)) || p == page
      {
        SetHas(w, page % 32, p % 32);
        SamePlace(p, page);
      }
    }

    /** clearPage(addr) */
    method ClearPage(addr: nat)
      requires Valid() && addr < NB_PAGES * PAGE_SIZE
      modifies words
      ensures forall p {:trigger Used(p)} :: 0 <= p < NB_PAGES ==> (Used(p) <==> old(Used(p)) && p != addr / PAGE_SIZE)
    {
      hide Has, Minus, Bit;
      var page := addr / PAGE_SIZE;
      ghost var w := words[page / 32];
      words[page / 32] := Minus(words[page / 32], Bit(page % 32));
      forall p | 0 <= p < NB_PAGES
        ensures Used(p) <==> old(Used(p)) && p != page
      {
        SamePlace(p, page);
        if p % 32 != page % 32 { ClearHas(w, page % 32, p % 32); } else { ClearedHas(w, page % 32); }
      }
    }

    /** findfreePage(): the lowest free page, now allocated, or 0 when none is left. */
    method FindFreePage() returns (addr: nat)
      requires Valid()
      modifies words
      ensures addr % PAGE_SIZE == 0 && addr < NB_PAGES * PAGE_SIZE
      ensures if exists p: nat :: p < NB_PAGES && !old(Used(p)) then
          && !old(Used(addr / PAGE_SIZE)) && (forall p {:trigger Used(p)} :: 0 <= p < addr / PAGE_SIZE ==> old(Used(p)))
          && (forall p {:trigger Used(p)} :: 0 <= p < NB_PAGES ==> (Used(p) <==> old(Used(p)) || p == addr / PAGE_SIZE))
        else addr == 0 && words[..] == old(words[..])
    {
      var page := 0;
      while page < NB_PAGES
        invariant 0 <= page <= NB_PAGES && words[..] == old(words[..])
        invariant forall p {:trigger Used(p)} :: 0 <= p < page ==> old(Used(p))
      {
        if !Used(page) {
          SetPage(page * PAGE_SIZE);
          return page * PAGE_SIZE;
        }
        page := page + 1;
      }
      return 0;
    }
  }

  lemma ZeroHas(k: nat)
    requires k < 32
    ensures !Has(0, k)
  {
    ZeroMeets(Bit(k));
  }

  lemma ZeroMeets(b: bv32)
    ensures 0 & b == 0
  {
  }

  lemma SamePlace(p: nat, q: nat)
    ensures p / 32 == q / 32 && p % 32 == q % 32 <==> p == q
  {
  }

  lemma ClearedHas(word: bv32, k: nat)
    requires k < 32
    ensures !Has(Minus(word, Bit(k)), k)
  {
    ClearedMeets(word, Bit(k));
  }

  lemma ClearedMeets(word: bv32, b: bv32)
    ensures And(Minus(word, b), b) == 0
  {
  }

  // ----- kheap.c -----

  class BumpHeap {
    var placementAddress: nat

    constructor (memHeap: nat)
      ensures placementAddress == memHeap
    {
      placementAddress := memHeap;
    }

    /** kmalloc_int(sz, align, 0): the next sz bytes, from a page boundary if asked. */
    method KmallocInt(sz: nat, align: bool) returns (address: nat)
      modifies this
      ensures old(placementAddress) <= address < old(placementAddress) + PAGE_SIZE && placementAddress == address + sz
      ensures if align then address % PAGE_SIZE == 0 else address == old(placementAddress)
    {
      if align && placementAddress % PAGE_SIZE != 0 {
        placementAddress := placementAddress / PAGE_SIZE * PAGE_SIZE;
        placementAddress := placementAddress + PAGE_SIZE;
      }
      address := placementAddress;
      placementAddress := placementAddress + sz;
    }
  }
}
