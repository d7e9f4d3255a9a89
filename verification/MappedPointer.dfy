/** kernel/mappedpointer.hpp: frames made reachable for a while through free kernel pages. */
module MappedPointer {
  import opened PageTables
  import opened Paging
  import opened Wrappers

  /** The constructor without a virtual address: 0 when no free run is found. The frames are mapped in a
      row, at the first run from page 0 on when the hint is sound, and nothing else is translated anew. */
  method Borrow(p: Paging, physical: int, pages: int, flags: int) returns (r: Result<int>)
    requires p.Valid() && 1 <= pages && pages * PAGE_SIZE <= KERNEL_END && 0 <= physical && 0 <= flags < PAGE_SIZE
    modifies p`tlb, p`ram, p`pool, p`firstFree
    ensures p.Valid() && ValidRam(old(p.ram)) && p.pool <= old(p.pool)
    ensures r.Aborted? ==> p.pool == {}
    ensures r.Ok? && r.value == 0 ==> p.ram == old(p.ram) && p.firstFree == old(p.firstFree)
    ensures r.Ok? && r.value == 0 && old(p.HintSound()) ==>
              forall q :: 1 <= q <= PageOfAddress(KERNEL_END) - pages ==>
                !FreeRun(old(p.ram), p.cr3, q, pages) || FreeRun(old(p.ram), p.cr3, 0, pages)
    ensures r.Ok? && r.value != 0 ==> Borrowed(old(p.ram), p.ram, p.cr3, r.value, pages)
    ensures r.Ok? && r.value != 0 ==> Laid(p.ram, p.cr3, PageOfAddress(r.value), pages, physical, flags)
    ensures r.Ok? && r.value != 0 && old(p.HintSound()) ==>
              forall q :: 0 <= q < PageOfAddress(r.value) ==> !FreeRun(old(p.ram), p.cr3, q, pages)
    ensures r.Ok? && old(p.HintSound()) ==> p.HintSound()
  {
    hide Walk, Coherent, UsedForTables, HasTable, MakeEntry, Laid, MayMove, Kept, Sound;
    var found := p.FindFree(pages, 0, KERNEL_END);
    if p.HintSound() {
      forall q | 0 <= q < p.Hint() ensures !FreeRun(p.ram, p.cr3, q, pages) {
        p.HintedIsFirstFit(pages, q);
      }
    }
    if found.None? || found.value == 0 {
      return Ok(0);
    }
    p.FirstFitMayMove(pages, PageOfAddress(found.value));
    var done := p.MapRun(found.value, physical, pages, flags);
    if done.Aborted? {
      return Aborted;
    }
    return Ok(found.value);
  }

  /** The pages at `virt` were free in `before`; they are all that has been translated anew since. */
  ghost predicate Borrowed(before: Ram, ram: Ram, cr3: int, virt: int, pages: int) {
    && ValidRam(before) && ValidRam(ram) && virt % PAGE_SIZE == 0 && 0 <= virt && virt + pages * PAGE_SIZE <= KERNEL_END
    && FreeRun(before, cr3, PageOfAddress(virt), pages)
    && SameOutside(before, ram, cr3, PageOfAddress(virt), PageOfAddress(virt) + pages)
  }

  /** Unmapping the first page of what is left of a run that was free. */
  lemma OneLess(before: Ram, ram: Ram, ram': Ram, cr3: int, lo: int, hi: int)
    requires ValidRam(before) && ValidRam(ram) && ValidRam(ram') && lo < hi
    requires SameOutside(before, ram, cr3, lo, hi) && SameBut(ram, ram', cr3, {lo}) && AllMapped(ram, cr3, lo, hi)
    requires IsPage(lo) && hi <= PAGES && Walk(before, cr3, lo) == None && Walk(ram', cr3, lo) == None
    ensures SameOutside(before, ram', cr3, lo + 1, hi) && AllMapped(ram', cr3, lo + 1, hi)
  {
    hide Walk;
    forall p | lo + 1 <= p < hi ensures IsPage(p) && Walk(ram', cr3, p).Some? {
      assert Walk(ram, cr3, p).Some?;
    }
  }

  /** The destructor undoes the constructor: every page below the window is translated as before it. All
      pages being mapped, unmapping never stops early. */
  method GiveBack(p: Paging, virt: int, pages: int, ghost before: Ram)
    requires p.Valid() && 0 <= pages && Borrowed(before, p.ram, p.cr3, virt, pages)
    requires AllMapped(p.ram, p.cr3, PageOfAddress(virt), PageOfAddress(virt) + pages)
    modifies p`tlb, p`ram, p`pool, p`firstFree
    ensures p.Valid() && SameOutside(before, p.ram, p.cr3, 0, 0)
    ensures old(p.HintSound()) ==> p.HintSound()
  {
    hide Walk, Coherent, UsedForTables, HasTable, Kept, Sound;
    ghost var first := PageOfAddress(virt);
    var page := 0;
    while page < pages
      invariant 0 <= page <= pages && p.Valid()
      invariant SameOutside(before, p.ram, p.cr3, first + page, first + pages)
      invariant AllMapped(p.ram, p.cr3, first + page, first + pages)
      invariant old(p.HintSound()) ==> p.HintSound()
    {
      p.BelowWindow(virt, pages, page);
      assert p.Mapped(first + page);
      ghost var mid := p.ram;
      var ok := p.Unmap(virt + page * PAGE_SIZE);
      assert Walk(before, p.cr3, first + page) == None;
      OneLess(before, mid, p.ram, p.cr3, first + page, first + pages);
      assert ok;
      page := page + 1;
    }
  }
}
