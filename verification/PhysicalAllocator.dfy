/** kernel/physicalallocator.cpp: physical pages handed out by first fit over a packed bitmap. */
module PhysicalAllocator {
  import opened Wrappers
  import opened Intervals
  import opened Bitset
  import opened MemoryHoles
  import opened MemoryMap
  import opened PageTables

  /** Bits the bitmap for `pages` pages has: whole words. */
  function BitmapSize(pages: int): int
    requires 0 < pages
  {
    ((pages - 1) / BITS_PER_UNIT + 1) * BITS_PER_UNIT
  }

  /** The search of a bitmap for `pages` pages may return the run of `n` pages from `page` on. */
  predicate Searched(pages: int, page: int, n: int)
    requires 0 < pages
  {
    0 <= page && 1 <= n && page + n < BitmapSize(pages)
  }

  /** The search accepts runs that end before the last bit. All of them lie inside the memory exactly
      when rounding up to whole words added no bit or one. */
  lemma InsideMemory(pages: int)
    requires 0 < pages
    ensures (forall page, n :: Searched(pages, page, n) ==> page + n <= pages)
            <==> pages % BITS_PER_UNIT == 0 || pages % BITS_PER_UNIT == BITS_PER_UNIT - 1
  {
    var size := BitmapSize(pages);
    if pages % BITS_PER_UNIT != 0 && pages % BITS_PER_UNIT != BITS_PER_UNIT - 1 {
      assert size >= pages + 2;
      assert Searched(pages, size - 2, 1);
    }
  }

  /** Pages of the bitmap itself. */
  function BitmapPages(pages: int): int
    requires 0 < pages
  {
    (BitmapSize(pages) / 8 - 1) / PAGE_SIZE + 1
  }

  /** The bitmap has a bit for every page and fewer than a word to spare, and it is given the pages that its bytes
      need and no more. */
  lemma BitmapFits(pages: int)
    requires 0 < pages
    ensures BitmapSize(pages) % BITS_PER_UNIT == 0 && pages <= BitmapSize(pages) < pages + BITS_PER_UNIT
    ensures (BitmapPages(pages) - 1) * PAGE_SIZE < BitmapBytes(pages) <= BitmapPages(pages) * PAGE_SIZE
    ensures BitmapBytes(pages) * 8 == BitmapSize(pages)
  {
    var units := (pages - 1) / BITS_PER_UNIT + 1;
    assert BitmapSize(pages) == units * BITS_PER_UNIT && BitmapBytes(pages) == units * 4;
  }

  /** Bytes of a bitmap for `pages` pages: four to a word. */
  function BitmapBytes(pages: int): int
    requires 0 < pages
  {
    BitmapSize(pages) / BITS_PER_UNIT * 4
  }

  /** All bytes of the bitmap at `bitmap` lie in frames below `kernelPages`. */
  ghost predicate BitmapWithin(pages: int, bitmap: int, kernelPages: int)
    requires 0 < pages
  {
    forall a :: bitmap <= a < bitmap + BitmapBytes(pages) ==> 0 <= a / PAGE_SIZE < kernelPages
  }

  /** The frames up to the end of the bitmap's pages hold all of it unless it starts off a page boundary and needs
      more than what that leaves. */
  lemma BitmapHeld(pages: int, bitmap: int)
    requires 0 < pages && 0 <= bitmap
    ensures BitmapWithin(pages, bitmap, (bitmap + BitmapPages(pages) * PAGE_SIZE) / PAGE_SIZE) <==>
            bitmap % PAGE_SIZE + BitmapBytes(pages) <= BitmapPages(pages) * PAGE_SIZE
  {
    BitmapFits(pages);
    var n, bytes := BitmapPages(pages), BitmapBytes(pages);
    var end := (bitmap + n * PAGE_SIZE) / PAGE_SIZE;
    assert end == bitmap / PAGE_SIZE + n;
    var last := bitmap + bytes - 1;
    assert last / PAGE_SIZE < end <==> bitmap % PAGE_SIZE + bytes <= n * PAGE_SIZE;
    hide BitmapPages, BitmapBytes, BitmapSize;
    if last / PAGE_SIZE < end {
      forall a | bitmap <= a <= last ensures 0 <= a / PAGE_SIZE < end {
        assert a / PAGE_SIZE <= last / PAGE_SIZE;
      }
    }
  }

  /** Between page-aligned holes an aligned kernel end gives the bitmap the start of a page, and all of it is held. */
  lemma StartsPage(gaps: seq<Region>, kernelEnd: int, pages: int, bitmap: int)
    requires 0 < pages && 0 <= bitmap
    requires bitmap != kernelEnd ==> exists i :: Jumped(gaps, kernelEnd, BitmapPages(pages) * PAGE_SIZE, i, bitmap)
    ensures kernelEnd % PAGE_SIZE == 0 && (forall i :: 0 <= i < |gaps| ==> PageAligned(gaps[i])) ==>
              BitmapWithin(pages, bitmap, (bitmap + BitmapPages(pages) * PAGE_SIZE) / PAGE_SIZE)
  {
    BitmapHeld(pages, bitmap);
    BitmapFits(pages);
    hide BitmapPages, BitmapBytes, BitmapSize, BitmapWithin;
    if bitmap != kernelEnd && forall i :: 0 <= i < |gaps| ==> PageAligned(gaps[i]) {
      var i :| Jumped(gaps, kernelEnd, BitmapPages(pages) * PAGE_SIZE, i, bitmap);
      assert PageAligned(gaps[i]) && bitmap == RegionEnd(gaps[i]);
    }
  }

  ghost predicate InHole(holes: seq<Region>, page: int) {
    exists i :: 0 <= i < |holes|
      && holes[i].base / PAGE_SIZE <= page < holes[i].base / PAGE_SIZE + holes[i].length / PAGE_SIZE
  }

  /** The pages of a hole are bits of a bitmap of that size. */
  predicate Fitting(hole: Region, size: int) {
    0 <= hole.base && 0 <= hole.length && hole.base / PAGE_SIZE + hole.length / PAGE_SIZE <= size
  }

  class PhysicalAllocator {
    const memory: Bitset
    var usedPages: int
    /** Pages of the kernel image and bitmap. */
    const kernelPages: int
    const holes: seq<Region>
    /** Pages handed out and not returned. */
    ghost var live: set<int>

    /** A page no caller may have. */
    ghost predicate Withheld(page: int) {
      0 <= page < kernelPages || InHole(holes, page)
    }

    ghost predicate Valid()
      reads this, memory.arr
    {
      && 0 < kernelPages
      && (forall b {:trigger memory.Has(b)} {:trigger b in live} ::
        memory.Has(b) <==> b in live || (Withheld(b) && b < memory.Size()))
      && (forall b :: b in live ==> !Withheld(b) && 0 <= b < memory.Size())
      && usedPages == kernelPages + |live|
    }

    /** init, once the bitmap has its pages. */
    constructor (pages: int, kernel: int, gaps: seq<Region>)
      requires 0 < pages && 0 < kernel <= BitmapSize(pages)
      requires forall i :: 0 <= i < |gaps| ==> Fitting(gaps[i], BitmapSize(pages))
      ensures Valid() && live == {} && kernelPages == kernel && holes == gaps
      ensures fresh(memory) && fresh(memory.arr)
    {
      memory := new Bitset(pages);
      kernelPages, holes, usedPages, live := kernel, gaps, kernel, {};
      new;
      var i := 0;
      while i < |gaps|
        invariant 0 <= i <= |gaps|
        invariant fresh(memory) && fresh(memory.arr) && live == {} && usedPages == kernel
        invariant forall b :: memory.Has(b) <==> InHole(gaps[..i], b)
      {
        assert gaps[..i + 1] == gaps[..i] + [gaps[i]];
        var ok := memory.Set(gaps[i].base / PAGE_SIZE, gaps[i].length / PAGE_SIZE);
        i := i + 1;
      }
      assert gaps[..i] == gaps;
      var ok := memory.Set(0, kernel);
    }

    /** init: the bitmap's pages are taken behind the kernel, or behind the first hole they would meet.
        Aborted is a failed assertion: there is no memory, or the kernel or a hole does not fit. */
    static method Init(pages: int, kernelEnd: int, gaps: seq<Region>)
      returns (r: Result<PhysicalAllocator>, bitmap: int)
      requires 0 <= pages && PAGE_SIZE <= kernelEnd && Ordered(gaps)
      requires pages != 0 ==> kernelEnd + BitmapPages(pages) * PAGE_SIZE < MAX_MEMORY
      requires pages != 0 ==> forall i :: 0 <= i < |gaps| ==>
                 RegionEnd(gaps[i]) + BitmapPages(pages) * PAGE_SIZE < MAX_MEMORY
      ensures r.Ok? ==>
                && pages != 0 && fresh(r.value) && fresh(r.value.memory) && fresh(r.value.memory.arr)
                && r.value.Valid() && r.value.live == {} && r.value.holes == gaps
                && r.value.kernelPages == (bitmap + BitmapPages(pages) * PAGE_SIZE) / PAGE_SIZE
      ensures r.Ok? ==>
                (BitmapWithin(pages, bitmap, r.value.kernelPages) <==>
                   bitmap % PAGE_SIZE + BitmapBytes(pages) <= BitmapPages(pages) * PAGE_SIZE)
      ensures r.Ok? && kernelEnd % PAGE_SIZE == 0 && (forall i :: 0 <= i < |gaps| ==> PageAligned(gaps[i])) ==>
                BitmapWithin(pages, bitmap, r.value.kernelPages)
      ensures r.Ok? ==> forall a :: 0 <= a < kernelEnd / PAGE_SIZE * PAGE_SIZE ==> r.value.Withheld(a / PAGE_SIZE)
      ensures pages != 0 ==>
                && (bitmap == kernelEnd <==> Clear(gaps, kernelEnd, BitmapPages(pages) * PAGE_SIZE))
                && (bitmap != kernelEnd ==>
                  exists i :: Jumped(gaps, kernelEnd, BitmapPages(pages) * PAGE_SIZE, i, bitmap))
      ensures r.Aborted? <==>
                || pages == 0
                || (bitmap + BitmapPages(pages) * PAGE_SIZE) / PAGE_SIZE > BitmapSize(pages)
                || exists i :: 0 <= i < |gaps| && !Fitting(gaps[i], BitmapSize(pages))
    {
      bitmap := 0;
      if pages == 0 {
        return Aborted, bitmap;
      }
      var end;
      bitmap, end := Reserve(gaps, kernelEnd, BitmapPages(pages));
      BitmapHeld(pages, bitmap);
      StartsPage(gaps, kernelEnd, pages, bitmap);
      assert kernelEnd <= bitmap && end == bitmap + BitmapPages(pages) * PAGE_SIZE;
      hide Jumped, Clear, Ordered, BitmapWithin, BitmapBytes, PageAligned;
      var i := 0;
      while i < |gaps|
        invariant 0 <= i <= |gaps|
        invariant forall j :: 0 <= j < i ==> Fitting(gaps[j], BitmapSize(pages))
      {
        if !Fitting(gaps[i], BitmapSize(pages)) {
          return Aborted, bitmap;
        }
        i := i + 1;
      }
      if end / PAGE_SIZE > BitmapSize(pages) {
        return Aborted, bitmap;
      }
      var allocator := new PhysicalAllocator(pages, end / PAGE_SIZE, gaps);
      return Ok(allocator), bitmap;
    }

    /** A run of `pages` pages from `page` on that nobody holds. */
    ghost predicate Available(page: int, pages: int)
      reads this
    {
      forall b :: page <= b < page + pages ==> b !in live && !Withheld(b)
    }

    /** `page` starts the first run of `pages` pages that the search accepts. */
    ghost predicate FirstRun(page: int, pages: int)
      reads this
    {
      0 < page && page + pages < memory.Size() && Available(page, pages)
      && forall i {:trigger Available(i, pages)} :: 0 <= i < page ==> !Available(i, pages)
    }

    /** So no frame that holds a byte of the bitmap is ever found. */
    lemma SparesBitmap(page: int, n: int, pages: int, bitmap: int)
      requires 0 < pages && FirstRun(page, n) && BitmapWithin(pages, bitmap, kernelPages)
      ensures forall a :: bitmap <= a < bitmap + BitmapBytes(pages) ==> !(page <= a / PAGE_SIZE < page + n)
    {
      forall a | bitmap <= a < bitmap + BitmapBytes(pages) ensures !(page <= a / PAGE_SIZE < page + n) {
        assert Withheld(a / PAGE_SIZE);
      }
    }

    ghost predicate NoRun(pages: int)
      reads this
    {
      forall i {:trigger Available(i, pages)} :: 0 <= i && i + pages < memory.Size() ==> !Available(i, pages)
    }

    /** The bitmap's search, read as a search for pages nobody holds. */
    method FindRun(pages: int) returns (r: Result<Option<int>>)
      requires Valid() && 0 < pages
      ensures r.Aborted? <==> pages > memory.Size()
      ensures r.Ok? && r.value.Some? ==> FirstRun(r.value.value, pages)
      ensures r.Aborted? || r.value.None? ==> NoRun(pages)
    {
      r := memory.FindFree(pages);
      forall i | 0 <= i && i + pages <= memory.Size() ensures memory.AllClear(i, pages) <==> Available(i, pages) {
        ClearIsAvailable(i, pages);
      }
      if r.Ok? && r.value.Some? {
        NotPageZero(r.value.value, pages);
      }
    }

    /** Aborted is the panic when no single page is left, or the failed assertion for more pages than
        the bitmap has; address 0 says that no run was found. */
    method Allocate(pages: int) returns (r: Result<int>)
      requires Valid() && 0 < pages
      modifies this, memory.arr
      ensures Valid()
      ensures r.Ok? && r.value != 0 ==>
                var page := r.value / PAGE_SIZE;
                && r.value == page * PAGE_SIZE && old(FirstRun(page, pages))
                && live == old(live) + Interval(page, page + pages)
                && usedPages == old(usedPages) + pages
      ensures r == Ok(0) ==> live == old(live) && NoRun(pages) && 1 < pages <= memory.Size()
      ensures r.Aborted? ==> NoRun(pages) && live == old(live) && (pages == 1 || pages > memory.Size())
    {
      hide FirstRun, NoRun, Available, Withheld, On;
      var page := FindRun(pages);
      if page.Aborted? {
        return Aborted;
      }
      if page.value.None? {
        if pages == 1 {
          return Aborted;
        }
        return Ok(0);
      }
      var p := page.value.value;
      RunFacts(p, pages);
      assert p * PAGE_SIZE / PAGE_SIZE == p;
      IntervalJoin(live, p, p + pages);
      usedPages := usedPages + pages;
      var ok := memory.Set(p, pages);
      live := live + Interval(p, p + pages);
      return Ok(p * PAGE_SIZE);
    }

    lemma ClearIsAvailable(i: int, n: int)
      requires Valid() && 0 <= i && i + n <= memory.Size()
      ensures memory.AllClear(i, n) <==> Available(i, n)
    {
      if memory.AllClear(i, n) {
        forall b | i <= b < i + n ensures b !in live && !Withheld(b) { assert !memory.Has(b); }
      }
      if Available(i, n) {
        forall b | i <= b < i + n ensures !memory.Has(b) {}
      }
    }

    lemma RunFacts(p: int, n: int)
      requires FirstRun(p, n)
      ensures 0 < p && p + n < memory.Size() && forall b :: p <= b < p + n ==> b !in live && !Withheld(b)
    {
    }

    lemma NotPageZero(p: int, n: int)
      requires Valid() && 0 <= p && 0 < n && Available(p, n)
      ensures p != 0
    {
      assert p == 0 ==> Withheld(0);
    }

    method Free(address: int, pages: int)
      requires Valid() && 0 <= pages && 0 <= address
      requires forall b :: address / PAGE_SIZE <= b < address / PAGE_SIZE + pages ==> b in live
      modifies this, memory.arr
      ensures Valid()
      ensures live == old(live) - Interval(address / PAGE_SIZE, address / PAGE_SIZE + pages)
      ensures usedPages == old(usedPages) - pages
    {
      var page := address / PAGE_SIZE;
      assert pages > 0 ==> page + pages - 1 in live;
      IntervalCut(live, page, page + pages);
      var ok := memory.Clear(page, pages);
      live := live - Interval(page, page + pages);
      usedPages := usedPages - pages;
    }
  }
}
