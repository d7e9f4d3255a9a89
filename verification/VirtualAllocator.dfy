/** kernel/virtualallocator.cpp for the kernel's own pages: free pages are found by first fit and backed
    by frames, in one run where there is one and page by page otherwise. */
module VirtualAllocator {
  import opened Intervals
  import opened PageTables
  import opened Paging
  import opened Wrappers

  predicate RunIn(frames: set<int>, first: int, n: int) {
    forall f :: first <= f < first + n ==> f in frames
  }

  /** `page` is mapped for the kernel alone, to a frame that is held now and was not before. */
  ghost predicate BackedPage(ram: Ram, cr3: int, page: int, was: set<int>, held: set<int>)
    requires ValidRam(ram)
  {
    && IsPage(page) && Walk(ram, cr3, page).Some? && FlagsOf(Walk(ram, cr3, page).value) == PRESENT
    && FrameAt(ram, cr3, page) in held && FrameAt(ram, cr3, page) !in was
  }

  /** All pages from `page` on are so backed, each by a frame of its own. */
  ghost predicate Backed(ram: Ram, cr3: int, page: int, n: int, was: set<int>, held: set<int>)
    requires ValidRam(ram)
  {
    && (forall q :: page <= q < page + n ==> BackedPage(ram, cr3, q, was, held))
    && (forall q, s {:trigger FrameAt(ram, cr3, q), FrameAt(ram, cr3, s)} :: page <= q < s < page + n ==>
          FrameAt(ram, cr3, q) != FrameAt(ram, cr3, s))
  }

  /** The pages carry the flags asked for if and only if these are none. */
  ghost predicate FlagsLost(ram: Ram, cr3: int, page: int, n: int, flags: int)
    requires ValidRam(ram)
  {
    forall q {:trigger FlagsAt(ram, cr3, q)} :: page <= q < page + n ==>
      (FlagsAt(ram, cr3, q) == WithPresent(flags) <==> WithPresent(flags) == PRESENT)
  }

  lemma BackedLosesFlags(ram: Ram, cr3: int, page: int, n: int, was: set<int>, held: set<int>, flags: int)
    requires ValidRam(ram) && Backed(ram, cr3, page, n, was, held)
    ensures FlagsLost(ram, cr3, page, n, flags)
  {
    hide Walk, WithPresent;
    forall q | page <= q < page + n ensures FlagsAt(ram, cr3, q) == PRESENT {
      assert BackedPage(ram, cr3, q, was, held);
    }
  }

  lemma NothingBacked(ram: Ram, cr3: int, page: int, held: set<int>)
    requires ValidRam(ram)
    ensures Backed(ram, cr3, page, 0, held, held)
  {
  }

  lemma LaidIsBacked(ram: Ram, cr3: int, page: int, n: int, frame: int, was: set<int>, held: set<int>)
    requires ValidRam(ram) && 0 <= frame && Laid(ram, cr3, page, n, frame * PAGE_SIZE, 0)
    requires forall f :: frame <= f < frame + n ==> f in held && f !in was
    ensures Backed(ram, cr3, page, n, was, held)
  {
    hide Walk;
    forall q | page <= q < page + n
      ensures FrameAt(ram, cr3, q) == frame + (q - page) && BackedPage(ram, cr3, q, was, held)
    {
      LaidPage(ram, cr3, page, n, frame, q);
      assert FrameAt(ram, cr3, q) in held;
    }
  }

  lemma LaidPage(ram: Ram, cr3: int, page: int, n: int, frame: int, q: int)
    requires ValidRam(ram) && 0 <= frame && Laid(ram, cr3, page, n, frame * PAGE_SIZE, 0) && page <= q < page + n
    ensures IsPage(q) && Walk(ram, cr3, q).Some? && FlagsOf(Walk(ram, cr3, q).value) == PRESENT
    ensures FrameAt(ram, cr3, q) == frame + (q - page)
  {
    hide MakeEntry, FlagsOf, FrameOf;
    var address := frame * PAGE_SIZE + (q - page) * PAGE_SIZE;
    assert IsPage(q);
    assert Walk(ram, cr3, q) == Some(MakeEntry(address, WithPresent(0)));
    EntryFields(address, WithPresent(0));
    assert address / PAGE_SIZE == frame + (q - page);
  }

  lemma BackedExtends(a: Ram, b: Ram, cr3: int, page: int, n: int, was: set<int>, mid: set<int>, held: set<int>)
    requires ValidRam(a) && ValidRam(b) && 0 <= n && page + n < WINDOW
    requires Backed(a, cr3, page, n, was, mid) && SameOutside(a, b, cr3, page + n, page + n + 1)
    requires Backed(b, cr3, page + n, 1, mid, held) && was <= mid <= held
    ensures Backed(b, cr3, page, n + 1, was, held)
  {
    hide Walk;
    assert BackedPage(b, cr3, page + n, mid, held);
    forall q | page <= q < page + n
      ensures IsPage(q) && Walk(b, cr3, q) == Walk(a, cr3, q) && FrameAt(a, cr3, q) in mid
    {
      assert BackedPage(a, cr3, q, was, mid);
    }
    forall q | page <= q < page + n + 1 ensures BackedPage(b, cr3, q, was, held) {
      if q < page + n {
        assert BackedPage(a, cr3, q, was, mid);
        assert FrameAt(b, cr3, q) == FrameAt(a, cr3, q);
      } else {
        assert BackedPage(b, cr3, q, mid, held);
      }
    }
    forall q, s | page <= q < s < page + n + 1 ensures FrameAt(b, cr3, q) != FrameAt(b, cr3, s) {
      assert FrameAt(b, cr3, q) == FrameAt(a, cr3, q);
    }
  }

  /** Frames of the pool may be held. */
  lemma FreeFrames(ram: Ram, cr3: int, pool: set<int>, held: set<int>, first: int, n: int)
    requires ValidRam(ram) && cr3 in ram && NoTables(ram, cr3, pool) && NoTables(ram, cr3, held) && pool !! held
    requires 1 <= n && RunIn(pool, first, n)
    ensures NoTables(ram, cr3, held + Interval(first, first + n))
    ensures NoTables(ram, cr3, pool - Interval(first, first + n))
    ensures pool - Interval(first, first + n) !! held + Interval(first, first + n)
    ensures forall f :: first <= f < first + n ==> f !in held
  {
    hide UsedForTables;
    forall f | f in held + Interval(first, first + n) ensures f in ram && 0 < f < PAGES && !UsedForTables(ram, cr3, f) {
      assert f in held || f in pool;
    }
  }

  /** PhysicalAllocator::allocate, as a choice of a run among the frames left; 0 when there is none. */
  method TakeFrames(p: Paging, n: int) returns (physical: int)
    requires p.Valid() && 1 <= n
    modifies p`pool, p`held
    ensures p.Valid() && p.pool <= old(p.pool) && old(p.held) <= p.held
    ensures physical == 0 ==> p.pool == old(p.pool) && p.held == old(p.held)
    ensures physical == 0 <==> forall f :: f in old(p.pool) ==> !RunIn(old(p.pool), f, n)
    ensures physical != 0 ==>
              var frame := physical / PAGE_SIZE;
              && 0 < frame && physical == frame * PAGE_SIZE
              && (forall f :: frame <= f < frame + n ==> f in p.held && f !in old(p.held))
  {
    if f :| f in p.pool && RunIn(p.pool, f, n) {
      physical := f * PAGE_SIZE;
      assert f in p.pool && physical / PAGE_SIZE == f;
      FreeFrames(p.ram, p.cr3, p.pool, p.held, f, n);
      ghost var was := p.pool;
      p.held := p.held + Interval(f, f + n);
      p.pool := set g | g in p.pool && !(f <= g < f + n);
      assert p.pool == was - Interval(f, f + n);
    } else {
      physical := 0;
    }
  }

  lemma NoneLeft(pool: set<int>)
    requires forall f :: f in pool ==> !RunIn(pool, f, 1)
    ensures pool == {}
  {
    if pool != {} {
      NonEmpty(pool);
      var f :| f in pool;
      assert RunIn(pool, f, 1);
    }
  }

  /** The pages just given up are free again, as they were. */
  lemma Shrinks(a: Ram, b: Ram, c: Ram, cr3: int, lo: int, n: int)
    requires ValidRam(a) && ValidRam(b) && ValidRam(c) && 0 <= n
    requires SameOutside(a, b, cr3, lo, lo + n + 1) && SameBut(b, c, cr3, {lo + n})
    requires IsPage(lo + n) && Walk(a, cr3, lo + n) == None && Walk(c, cr3, lo + n) == None
    ensures SameOutside(a, c, cr3, lo, lo + n)
  {
    hide Walk;
  }

  /** The rollback: the pages mapped so far are unmapped again, last first. */
  method RollBack(p: Paging, address: int, pages: int, ghost before: Ram)
    requires p.Valid() && p.EditableRun(address, pages) && ValidRam(before)
    requires FreeRun(before, p.cr3, PageOfAddress(address), pages)
    requires SameOutside(before, p.ram, p.cr3, PageOfAddress(address), PageOfAddress(address) + pages)
    modifies p`tlb, p`ram, p`pool, p`firstFree
    ensures p.Valid() && p.pool <= old(p.pool)
    ensures SameOutside(before, p.ram, p.cr3, PageOfAddress(address), PageOfAddress(address))
  {
    var page := pages;
    while page > 0
      invariant 0 <= page <= pages && p.Valid() && p.pool <= old(p.pool)
      invariant SameOutside(before, p.ram, p.cr3, PageOfAddress(address), PageOfAddress(address) + page)
    {
      page := page - 1;
      p.BelowWindow(address, pages, page);
      ghost var mid := p.ram;
      var ok := p.Unmap(address + page * PAGE_SIZE);
      Shrinks(before, mid, p.ram, p.cr3, PageOfAddress(address), page);
    }
  }

  /** Page by page, each with a frame of its own; false after a rollback, when a page was mapped already. */
  method MapScattered(p: Paging, address: int, pages: int) returns (r: Result<bool>)
    requires p.Valid() && p.EditableRun(address, pages)
    modifies p`tlb, p`ram, p`pool, p`firstFree, p`held
    ensures p.Valid() && ValidRam(old(p.ram)) && p.pool <= old(p.pool) && old(p.held) <= p.held
    ensures r.Aborted? ==> p.pool == {}
    ensures r.Ok? ==> r.value == FreeRun(old(p.ram), p.cr3, PageOfAddress(address), pages)
    ensures r.Ok? && r.value ==> Backed(p.ram, p.cr3, PageOfAddress(address), pages, old(p.held), p.held)
    ensures SameOutside(old(p.ram), p.ram, p.cr3, PageOfAddress(address),
                        PageOfAddress(address) + if r.Ok? && !r.value then 0 else pages)
    ensures r.Ok? && r.value && old(p.HintSound() && MayMove(p.ram, p.cr3, p.Hint(), PageOfAddress(address))) ==>
              p.HintSound()
  {
    hide Walk, Coherent, UsedForTables, HasTable, MakeEntry, Laid, MayMove, Backed, Kept, Sound, RunIn, FlagsLost,
         WithPresent;
    ghost var first := PageOfAddress(address);
    ghost var before, sound := p.ram, p.HintSound() && MayMove(p.ram, p.cr3, p.Hint(), first);
    var page := 0;
    NothingBacked(p.ram, p.cr3, first, p.held);
    while page < pages
      invariant 0 <= page <= pages && p.Valid()
      invariant p.pool <= old(p.pool) && old(p.held) <= p.held
      invariant SameOutside(before, p.ram, p.cr3, first, first + page)
      invariant FreeRun(before, p.cr3, first, page)
      invariant Backed(p.ram, p.cr3, first, page, old(p.held), p.held)
      invariant sound ==> p.HintSound() && MayMove(p.ram, p.cr3, p.Hint(), first + page)
    {
      p.BelowWindow(address, pages, page);
      ghost var mid, held := p.ram, p.held;
      assert p.Mapped(first + page) == old(p.Mapped(first + page));
      assert FreeRun(p.ram, p.cr3, first + page, 1) == !p.Mapped(first + page);
      var physical := TakeFrames(p, 1);
      if physical == 0 {
        NoneLeft(p.pool);
        return Aborted;
      }
      var done := p.MapRun(address + page * PAGE_SIZE, physical, 1, 0);
      if done.Aborted? {
        return Aborted;
      }
      if !done.value {
        RollBack(p, address, page, before);
        return Ok(false);
      }
      assert Walk(before, p.cr3, first + page) == None;
      LaidIsBacked(p.ram, p.cr3, first + page, 1, physical / PAGE_SIZE, held, p.held);
      BackedExtends(mid, p.ram, p.cr3, first, page, old(p.held), held, p.held);
      OutsideExtends(before, mid, p.ram, p.cr3, first, first + page);
      page := page + 1;
    }
    return Ok(true);
  }

  /** createPhysicalMapping for the kernel: the flags asked for are not passed on, and a run of frames
      counts as mapped without a look at whether it was. */
  method CreatePhysicalMapping(p: Paging, address: int, pages: int, flags: int) returns (r: Result<bool>)
    requires p.Valid() && p.EditableRun(address, pages) && 1 <= pages && 0 <= flags < PAGE_SIZE
    modifies p`tlb, p`ram, p`pool, p`firstFree, p`held
    ensures p.Valid() && ValidRam(old(p.ram)) && p.pool <= old(p.pool) && old(p.held) <= p.held
    ensures r.Aborted? ==> p.pool == {}
    ensures FreeRun(old(p.ram), p.cr3, PageOfAddress(address), pages) && r.Ok? ==>
              && r.value && Backed(p.ram, p.cr3, PageOfAddress(address), pages, old(p.held), p.held)
              && FlagsLost(p.ram, p.cr3, PageOfAddress(address), pages, flags)
    ensures !FreeRun(old(p.ram), p.cr3, PageOfAddress(address), pages) && r.Ok? ==>
              && SameOutside(old(p.ram), p.ram, p.cr3, PageOfAddress(address), PageOfAddress(address))
              && (r.value <==> exists f :: f in old(p.pool) && RunIn(old(p.pool), f, pages))
    ensures SameOutside(old(p.ram), p.ram, p.cr3, PageOfAddress(address), PageOfAddress(address) + pages)
    ensures r.Ok? && FreeRun(old(p.ram), p.cr3, PageOfAddress(address), pages) ==>
              old(p.HintSound() && MayMove(p.ram, p.cr3, p.Hint(), PageOfAddress(address))) ==> p.HintSound()
  {
    hide Walk, Coherent, UsedForTables, HasTable, MakeEntry, Laid, MayMove, Backed, Kept, Sound, RunIn, FlagsLost,
         WithPresent;
    ghost var held := p.held;
    var physical := TakeFrames(p, pages);
    if physical == 0 {
      r := MapScattered(p, address, pages);
      if r.Ok? && r.value {
        BackedLosesFlags(p.ram, p.cr3, PageOfAddress(address), pages, held, p.held, flags);
      }
    } else {
      var done := p.MapRun(address, physical, pages, 0);
      if done.Aborted? {
        return Aborted;
      }
      if done.value {
        LaidIsBacked(p.ram, p.cr3, PageOfAddress(address), pages, physical / PAGE_SIZE, held, p.held);
        BackedLosesFlags(p.ram, p.cr3, PageOfAddress(address), pages, held, p.held, flags);
      }
      return Ok(true);
    }
  }

  /** getMappedKernelPages; 0 says that no run of free pages was found. With a sound hint the run is the
      first one from page 0 on, and the hint stays sound. */
  method GetMappedKernelPages(p: Paging, pages: int, flags: int) returns (r: Result<int>)
    requires p.Valid() && 1 <= pages && pages * PAGE_SIZE <= KERNEL_END && 0 <= flags < PAGE_SIZE
    modifies p`tlb, p`ram, p`pool, p`firstFree, p`held
    ensures p.Valid() && ValidRam(old(p.ram)) && p.pool <= old(p.pool) && old(p.held) <= p.held
    ensures r.Aborted? ==> p.pool == {}
    ensures r.Ok? && r.value == 0 ==> p.ram == old(p.ram) && p.firstFree == old(p.firstFree) && p.held == old(p.held)
    ensures r.Ok? && r.value == 0 && old(p.HintSound()) ==>
              forall q :: 1 <= q <= PageOfAddress(KERNEL_END) - pages ==>
                !FreeRun(old(p.ram), p.cr3, q, pages) || FreeRun(old(p.ram), p.cr3, 0, pages)
    ensures r.Ok? && r.value != 0 ==>
              var page := PageOfAddress(r.value);
              && r.value % PAGE_SIZE == 0 && 0 <= page && page + pages <= PageOfAddress(KERNEL_END)
              && FreeRun(old(p.ram), p.cr3, page, pages)
              && Backed(p.ram, p.cr3, page, pages, old(p.held), p.held)
              && FlagsLost(p.ram, p.cr3, page, pages, flags)
              && SameOutside(old(p.ram), p.ram, p.cr3, page, page + pages)
    ensures r.Ok? && r.value != 0 && old(p.HintSound()) ==>
              forall q :: 0 <= q < PageOfAddress(r.value) ==> !FreeRun(old(p.ram), p.cr3, q, pages)
    ensures r.Ok? && old(p.HintSound()) ==> p.HintSound()
  {
    hide Walk, Coherent, UsedForTables, HasTable, MakeEntry, Laid, MayMove, Backed, Kept, Sound, RunIn, FlagsLost,
         WithPresent;
    var found := p.FindFree(pages, 0, KERNEL_END);
    if p.HintSound() {
      forall q | 0 <= q < p.Hint() ensures !FreeRun(p.ram, p.cr3, q, pages) {
        p.HintedIsFirstFit(pages, q);
      }
    }
    if found.None? || found.value == 0 {
      return Ok(0);
    }
    var address := found.value;
    ghost var page := PageOfAddress(address);
    p.FirstFitMayMove(pages, page);
    var done := CreatePhysicalMapping(p, address, pages, flags);
    if done.Aborted? {
      return Aborted;
    }
    if done.value {
      return Ok(address);
    }
    return Ok(0);
  }
}
