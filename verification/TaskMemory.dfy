/** How user tasks get and give back physical memory: mapKernel and modify on a task (kernel/paging.cpp),
    createPhysicalMapping (kernel/virtualallocator.cpp), increase and the cleaner (kernel/scheduler.cpp). */
module TaskMemory {
  import opened Loader
  import opened PageTables
  import opened Paging
  import opened PhysicalAllocator
  import opened TaskLedger
  import opened TaskSpace
  import opened Wrappers

  const STACK_PAGES := 2
  /** VIRTUAL_USER_STACK. */
  const USER_STACK := 0xffbf_c000

  function UserStack(): Stack {
    Stack(USER_STACK, STACK_PAGES, WRITE)
  }

  function KernelStack(address: int): Stack {
    Stack(address, STACK_PAGES, 0)
  }

  class TaskMemory {
    const allocator: PhysicalAllocator
    var ram: Ram
    var tasks: seq<UserTask>
    ghost var owner: Owners

    /** Before the first user task: the slots of the idle task, the cleaner and the first kernel task, and
        all that is handed out is the kernel's. */
    constructor (memory: PhysicalAllocator, contents: Ram, directory: int)
      requires memory.Valid() && ValidRam(contents)
      requires forall f {:trigger f in contents} :: 0 <= f < memory.memory.Size() ==> f in contents
      requires Directory(contents, directory) && directory in memory.live
      requires forall i {:trigger HasTable(contents, directory, i)} ::
                 0 <= i < SELF && HasTable(contents, directory, i) ==> TableOf(contents, directory, i) in memory.live
      ensures allocator == memory && ram == contents && Valid()
      ensures |tasks| == 3 && forall u :: 0 <= u < 3 ==> tasks[u].used && tasks[u].cr3 == directory
      ensures forall u :: 0 <= u < 3 ==> (tasks[u].live <==> u == 0)
      ensures forall f :: f in memory.live ==> Owned(owner, f, if f == directory then 0 else KERNEL)
    {
      allocator, ram := memory, contents;
      tasks := [UserTask(true, true, directory, [], 0), UserTask(true, false, directory, [], 0),
                UserTask(true, false, directory, [], 0)];
      owner := map f | f in memory.live :: if f == directory then 0 else KERNEL;
    }

    ghost predicate Valid()
      reads this, allocator, allocator.memory, allocator.memory.arr
    {
      allocator.Valid() && Good(ram, owner, tasks, allocator.live, allocator.memory.Size())
    }

    ghost function Seen(memory: array<int>): World
      reads this, memory
    {
      World(memory[..], ram, owner, tasks)
    }

    /** Valid, but the segment of `t` at `except` is still being mapped. */
    ghost predicate Busy(t: int, except: int)
      reads this, allocator, allocator.memory, allocator.memory.arr
    {
      allocator.Valid() && GoodBut(ram, owner, tasks, allocator.live, allocator.memory.Size(), t, except)
    }

    /** No frame is left, or `n` are more than there are: what makes an operation that needs frames panic. */
    ghost predicate Exhausted(n: int)
      reads this, allocator, allocator.memory, allocator.memory.arr
    {
      allocator.NoRun(1) || n > allocator.memory.Size()
    }

    /** The allocator's answer, as this module needs it. */
    method Take(n: int) returns (r: Result<int>)
      requires allocator.Valid() && 0 < n
      modifies allocator, allocator.memory.arr
      ensures allocator.Valid()
      ensures r.Ok? && r.value != 0 ==> Fresh(old(allocator.live), allocator.live, allocator.memory.Size(), r.value, n)
      ensures r.Ok? && r.value != 0 ==> old(allocator.FirstRun(r.value / PAGE_SIZE, n))
      ensures r == Ok(0) ==> allocator.live == old(allocator.live) && n > 1 && allocator.NoRun(n)
      ensures r.Aborted? ==> Exhausted(n)
    {
      r := allocator.Allocate(n);
    }

    /** The branch of `modify` that makes table `i` of the task. */
    method MakeTable(t: int, i: int, ghost except: int) returns (ok: bool)
      requires Busy(t, except) && 0 <= i < SELF && !HasTable(ram, tasks[t].cr3, i)
      modifies this, allocator, allocator.memory.arr
      ensures ok ==> Busy(t, except) && TableMade(old(ram), old(tasks), ram, owner, tasks, t, i)
      ensures ok ==> Grows(old(owner), owner, t)
      ensures !ok ==> Exhausted(1)
    {
      hide TableMade, NamesTable, Grant, Ledger, OthersGood, TaskGood, Fresh, Walk, Directory, MakeEntry, Grows;
      var r := Take(1);
      if r.Aborted? {
        return false;
      }
      assert r.value != 0;
      var f := r.value / PAGE_SIZE;
      var w := MakeEntry(r.value, WRITE + USER);
      var cr3 := tasks[t].cr3;
      FreshFrames(ram, owner, tasks, old(allocator.live), allocator.live, allocator.memory.Size(), r.value, 1);
      TaskHolds(ram, owner, t, tasks[t], except);
      TableEntry(r.value);
      ram := ram[f := seq(ENTRIES, _ => 0)];
      ram := Poke(ram, cr3, i, w);
      assert ram == Poke(old(ram), cr3, i, w)[f := seq(ENTRIES, _ => 0)];
      tasks := tasks[t := tasks[t].(segments := tasks[t].segments + [Segment(r.value, 0, 1)])];
      GrantGrows(owner, f, 1, t);
      owner := Grant(owner, f, 1, t);
      TableGood(old(ram), ram, old(owner), old(tasks), tasks, old(allocator.live), allocator.live,
                allocator.memory.Size(), t, except, i, f, w);
      return true;
    }

    /** map on a task for one page: false for an unaligned address; a page that is mapped already is a panic. */
    method MapPage(t: int, address: int, physical: int, flags: int, ghost except: int) returns (r: Result<bool>)
      requires Busy(t, except) && 0 <= address && PageOfAddress(address) < WINDOW && 0 <= physical
        && 0 <= flags < PAGE_SIZE
      modifies this, allocator, allocator.memory.arr
      ensures r.Ok? ==> Busy(t, except) && OnlyTask(old(tasks), tasks, t) && Grown(old(tasks[t]), tasks[t])
      ensures r.Ok? ==> Grows(old(owner), owner, t) && OthersKeep(old(ram), ram, old(tasks), t)
      ensures r.Ok? && !r.value ==> !Aligned(address) && ram == old(ram) && tasks == old(tasks)
      ensures r.Aborted? ==>
                Exhausted(1) || (ValidRam(old(ram)) && !FreeRun(old(ram), old(tasks[t].cr3), PageOfAddress(address), 1))
      ensures r.Ok? && r.value ==>
                Aligned(address)
                && PageMapped(old(ram), ram, tasks[t].cr3, PageOfAddress(address),
                              MakeEntry(physical, WithPresent(flags)))
      ensures r.Ok? && r.value && old(OwnTable(ram, owner, t, tasks[t].cr3, PageOfAddress(address))) ==>
                OthersSame(old(ram), ram, old(tasks), t)
    {
      hide TableMade, Ledger, OthersGood, TaskGood, Walk, Directory, MakeEntry, OthersSame, OthersKeep;
      TaskHolds(ram, owner, t, tasks[t], except);
      OthersReflexive(ram, tasks, t);
      if !Aligned(address) {
        return Ok(false);
      }
      var page, cr3 := PageOfAddress(address), tasks[t].cr3;
      WindowArithmetic(page);
      if !IsPresent(ram[cr3][Pde(page)]) {
        var ok := MakeTable(t, Pde(page), except);
        if !ok {
          return Aborted;
        }
        MadeFacts(old(ram), old(tasks), ram, owner, tasks, t, Pde(page));
      }
      OneEntryGrows(old(ram), ram, cr3, page);
      assert SameBelowWindow(old(ram), ram, cr3);
      TableInRam(ram, owner, t, tasks[t], 0, except, Pde(page));
      ghost var mid := ram;
      var table := FrameOf(ram[cr3][Pde(page)]);
      if IsPresent(ram[table][Pte(page)]) {
        WasMapped(old(ram), ram, cr3, page);
        return Aborted;
      }
      var w := MakeEntry(physical, WithPresent(flags));
      EntryFields(physical, WithPresent(flags));
      NoEntryNoPage(ram, cr3, page);
      ram := Poke(ram, table, Pte(page), w);
      EntryGood(mid, ram, owner, tasks, allocator.live, allocator.memory.Size(), t, except, page, w);
      ThenMapped(old(ram), mid, ram, cr3, page, w);
      KeepsThen(old(ram), mid, ram, old(tasks), tasks, t);
      if old(OwnTable(ram, owner, t, tasks[t].cr3, PageOfAddress(address))) {
        OthersThen(old(ram), mid, ram, old(tasks), tasks, t);
      }
      return Ok(true);
    }

    /** map on a task for a run of pages, the one recorded in the segment at `except`. All addresses are
        unaligned when the first one is, so there is never anything to roll back. */
    method MapPages(t: int, s: Segment, flags: int, ghost except: int) returns (r: Result<bool>)
      requires Busy(t, except) && 0 <= except && tasks[t].segments[except] == s
      requires Mappable(s) && 0 <= flags < PAGE_SIZE
      modifies this, allocator, allocator.memory.arr
      ensures r.Ok? ==> Busy(t, -1) && OnlyTask(old(tasks), tasks, t) && Grown(old(tasks[t]), tasks[t])
      ensures r.Ok? ==> Grows(old(owner), owner, t) && OthersKeep(old(ram), ram, old(tasks), t)
      ensures r.Ok? ==> r.value == (Aligned(s.virt) || s.pages == 0)
      ensures r.Ok? ==> RunMapped(old(ram), ram, tasks[t].cr3, s, if r.value then s.pages else 0, flags)
      ensures r.Aborted? ==>
                || Exhausted(1)
                || (ValidRam(old(ram)) && !FreeRun(old(ram), old(tasks[t].cr3), PageOfAddress(s.virt), s.pages))
    {
      hide Ledger, OthersGood, TaskGood, RunMapped, PageMapped, Grown, Walk, MakeEntry, OthersKeep;
      NothingMapped(ram, owner, tasks, allocator.live, allocator.memory.Size(), t, except, s, flags);
      var page := 0;
      while page < s.pages
        invariant 0 <= page <= s.pages && (page > 0 ==> Aligned(s.virt))
        invariant allocator.Valid() && GoodBut(ram, owner, tasks, allocator.live, allocator.memory.Size(), t, except)
        invariant 0 <= t < |tasks| && OnlyTask(old(tasks), tasks, t) && Grown(old(tasks[t]), tasks[t])
        invariant except < |tasks[t].segments| && tasks[t].segments[except] == s && tasks[t].cr3 == old(tasks[t].cr3)
        invariant RunMapped(old(ram), ram, tasks[t].cr3, s, page, flags)
        invariant Grows(old(owner), owner, t) && OthersKeep(old(ram), ram, old(tasks), t)
      {
        PageOfRun(s, page);
        ghost var ram0, tasks0, owner0 := ram, tasks, owner;
        var done := MapPage(t, s.virt + page * PAGE_SIZE, s.physical + page * PAGE_SIZE, flags, except);
        if done.Aborted? {
          RunWasMapped(old(ram), ram0, tasks0[t].cr3, s, page, flags);
          return Aborted;
        }
        GrownThen(old(tasks), tasks0, tasks, t);
        GrowsThen(old(owner), owner0, owner, t);
        KeepsThen(old(ram), ram0, ram, old(tasks), tasks0, t);
        if !done.value {
          assert page == 0;
          NotAMapping(ram, owner, tasks, allocator.live, allocator.memory.Size(), t, except, s);
          return Ok(false);
        }
        RunThen(old(ram), ram0, ram, tasks[t].cr3, s, page, flags);
        page := page + 1;
      }
      Finished(old(ram), ram, owner, tasks, allocator.live, allocator.memory.Size(), t, except, s, flags);
      return Ok(true);
    }

    /** Allocates frames and records them, still to be mapped at `virt`; 0 when there is no run of them. */
    method PushRun(t: int, virt: int, n: int) returns (r: Result<int>)
      requires Busy(t, -1) && 0 < n && 0 <= virt && virt + n * PAGE_SIZE <= WINDOW * PAGE_SIZE
      modifies this, allocator, allocator.memory.arr
      ensures r.Ok? && r.value != 0 ==>
                && tasks == old(tasks)[t := old(tasks[t]).(
                     segments := old(tasks[t]).segments + [Segment(r.value, virt, n)])]
                && Busy(t, |old(tasks[t]).segments|) && ram == old(ram) && Aligned(r.value) && 0 < r.value / PAGE_SIZE
      ensures r.Ok? && r.value != 0 ==>
                && Grows(old(owner), owner, t)
                && NewFrames(old(owner), allocator.memory.Size(), [Segment(r.value, virt, n)])
      ensures r == Ok(0) ==> Busy(t, -1) && n > 1 && ram == old(ram) && tasks == old(tasks) && owner == old(owner)
      ensures r == Ok(0) ==> allocator.NoRun(n)
      ensures r.Aborted? ==> Exhausted(n)
    {
      hide Ledger, OthersGood, TaskGood, Fresh, Grant, Grows;
      r := Take(n);
      if r.Aborted? || r.value == 0 {
        return;
      }
      FreshFrames(ram, owner, tasks, old(allocator.live), allocator.live, allocator.memory.Size(), r.value, n);
      tasks := tasks[t := tasks[t].(segments := tasks[t].segments + [Segment(r.value, virt, n)])];
      GrantGrows(owner, r.value / PAGE_SIZE, n, t);
      owner := Grant(owner, r.value / PAGE_SIZE, n, t);
      PushGood(ram, old(owner), old(tasks), tasks, old(allocator.live), allocator.live, allocator.memory.Size(), t,
               Segment(r.value, virt, n));
    }

    /** createPhysicalMapping for a task: what it returns are the segments added for the pages, all mapped
        and recorded. Nothing but those pages is translated anew. */
    method CreatePhysicalMapping(t: int, virt: int, pages: int, flags: int) returns (r: Result<seq<Segment>>)
      requires Busy(t, -1) && 0 <= virt && 0 <= pages && virt + pages * PAGE_SIZE <= WINDOW * PAGE_SIZE
      requires 0 <= flags < PAGE_SIZE - USER
      modifies this, allocator, allocator.memory.arr
      ensures r.Ok? ==> Busy(t, -1) && OnlyTask(old(tasks), tasks, t) && Extended(old(tasks[t]), tasks[t], r.value)
      ensures r.Ok? && Aligned(virt) ==> Spread(r.value, virt, pages)
      ensures r.Ok? && Aligned(virt) ==>
                ValidRam(ram) && Flagged(ram, tasks[t].cr3, PageOfAddress(virt), pages, WithUser(flags))
      ensures r.Ok? ==> (r.value == [] <==> pages == 0) && (pages == 0 ==> tasks == old(tasks))
      ensures r.Ok? ==> TranslatedOnly(old(ram), ram, tasks[t].cr3, PageOfAddress(virt), pages)
      ensures r.Ok? ==> Grows(old(owner), owner, t) && NewFrames(old(owner), allocator.memory.Size(), r.value)
      ensures r.Ok? ==> OthersKeep(old(ram), ram, old(tasks), t)
      ensures r.Aborted? ==>
                || Exhausted(pages)
                || (ValidRam(old(ram)) && !FreeRun(old(ram), old(tasks[t].cr3), PageOfAddress(virt), pages))
    {
      hide Ledger, OthersGood, TaskGood, Grown, Extended, RunMapped, Singles, TranslatedOnly, Grows, NewFrames,
        Flagged, WithUser, OthersKeep;
      ghost var size := allocator.memory.Size();
      NoneNew(owner, size, t);
      UserFlags(flags);
      NothingAdded(ram, owner, tasks, allocator.live, allocator.memory.Size(), t, virt, WithUser(flags));
      if pages == 0 {
        return Ok([]);
      }
      var physical := PushRun(t, virt, pages);
      if physical.Aborted? {
        return Aborted;
      }
      if physical.value != 0 {
        var s := Segment(physical.value, virt, pages);
        ghost var tasks0, owner0 := tasks, owner;
        var done := MapPages(t, s, WithUser(flags), |tasks[t].segments| - 1);
        if done.Aborted? {
          return Aborted;
        }
        SegmentAdded(old(tasks), old(tasks), tasks0, tasks, t, [], s);
        GrowsThen(old(owner), owner0, owner, t);
        KeepsThen(old(ram), old(ram), ram, old(tasks), tasks0, t);
        RunTranslated(old(ram), ram, tasks[t].cr3, s, if done.value then pages else 0, WithUser(flags), pages);
        if done.value { RunFlagged(old(ram), ram, tasks[t].cr3, s, pages, WithUser(flags)); }
        assert [] + [s] == [s];
        return Ok([s]);
      }
      var added: seq<Segment> := [];
      var page := 0;
      while page < pages
        invariant 0 <= page <= pages && Busy(t, -1)
        invariant OnlyTask(old(tasks), tasks, t) && Extended(old(tasks[t]), tasks[t], added)
        invariant page > 0 ==> Aligned(virt) && added != []
        invariant ValidRam(ram)
                  && (Aligned(virt) ==> Flagged(ram, tasks[t].cr3, PageOfAddress(virt), page, WithUser(flags)))
        invariant Singles(added, virt, page) && tasks[t].cr3 == old(tasks[t].cr3) && (page == 0 ==> ram == old(ram))
        invariant TranslatedOnly(old(ram), ram, tasks[t].cr3, PageOfAddress(virt), page)
        invariant Grows(old(owner), owner, t) && NewFrames(old(owner), size, added)
        invariant OthersKeep(old(ram), ram, old(tasks), t)
      {
        ghost var ram0, before, owner0 := ram, tasks, owner;
        physical := PushRun(t, virt + page * PAGE_SIZE, 1);
        if physical.Aborted? {
          return Aborted;
        }
        var s := Segment(physical.value, virt + page * PAGE_SIZE, 1);
        ghost var tasks0, owner1 := tasks, owner;
        var done := MapPages(t, s, WithUser(flags), |tasks[t].segments| - 1);
        if done.Aborted? {
          PageWasMapped(old(ram), ram0, before[t].cr3, PageOfAddress(virt), page, pages);
          return Aborted;
        }
        OneMoreNew(old(owner), owner0, size, added, s, t);
        GrowsThen(owner0, owner1, owner, t);
        GrowsThen(old(owner), owner0, owner, t);
        KeepsThen(old(ram), ram0, ram, old(tasks), tasks0, t);
        SegmentAdded(old(tasks), before, tasks0, tasks, t, added, s);
        assert (added + [s])[..|added|] == added;
        added := added + [s];
        if !done.value {
          assert page == 0;
          RunTranslated(old(ram), ram, tasks[t].cr3, s, 0, WithUser(flags), pages);
          return Ok(added);
        }
        TranslatedThen(old(ram), ram0, ram, tasks[t].cr3, virt, page, s, WithUser(flags));
        OneMore(added, virt, page);
        if Aligned(virt) { FlaggedNext(ram0, ram, tasks[t].cr3, virt, page, pages, s, WithUser(flags)); }
        page := page + 1;
      }
      return Ok(added);
    }

    /** increase: the task's memory grows at its end; 0 when nothing was added. */
    method Increase(t: int, pages: int) returns (r: Result<int>)
      requires Busy(t, -1) && 0 <= pages && 0 <= tasks[t].end && tasks[t].end + pages * PAGE_SIZE <= WINDOW * PAGE_SIZE
      modifies this, allocator, allocator.memory.arr
      ensures r.Ok? ==> Busy(t, -1) && OnlyTask(old(tasks), tasks, t) && OthersKeep(old(ram), ram, old(tasks), t)
      ensures r.Ok? ==> Grows(old(owner), owner, t)
      ensures r.Ok? && pages > 0 ==>
        r.value == old(tasks[t].end) && tasks[t].end == old(tasks[t].end) + pages * PAGE_SIZE
      ensures r.Ok? && pages == 0 ==> r.value == 0 && tasks == old(tasks)
      ensures r.Ok? ==> TranslatedOnly(old(ram), ram, old(tasks[t].cr3), PageOfAddress(old(tasks[t].end)), pages)
      ensures r.Ok? ==> tasks[t].cr3 == old(tasks[t].cr3)
      ensures r.Ok? && Aligned(old(tasks[t].end)) && old(tasks[t].end) != 0 ==>
                HasPages(ram, owner, t, tasks[t].cr3, PageOfAddress(old(tasks[t].end)), pages, WRITE)
      ensures r.Aborted? ==>
                || Exhausted(pages)
                || (ValidRam(old(ram))
                    && !FreeRun(old(ram), old(tasks[t].cr3), PageOfAddress(old(tasks[t].end)), pages))
    {
      hide Ledger, OthersGood, TaskGood, Spread, TranslatedOnly, Singles, Flagged, HasPages, WithUser, OthersKeep,
           Grows;
      var added := CreatePhysicalMapping(t, tasks[t].end, pages, WRITE);
      if added.Aborted? {
        return Aborted;
      }
      if Aligned(tasks[t].end) && tasks[t].end != 0 {
        SpreadPages(ram, owner, tasks, allocator.live, allocator.memory.Size(), t, added.value, tasks[t].end, pages,
                    WRITE);
      }
      if |added.value| > 0 {
        r := Ok(tasks[t].end);
        EndGood(ram, owner, tasks, allocator.live, allocator.memory.Size(), t, tasks[t].end + pages * PAGE_SIZE);
        tasks := tasks[t := tasks[t].(end := tasks[t].end + pages * PAGE_SIZE)];
        return;
      }
      return Ok(0);
    }

    /** unmap on a task for one page: false for an unaligned address; a page that is not mapped is a panic. */
    method UnmapPage(t: int, address: int, ghost first: int) returns (r: Result<bool>)
      requires 0 <= t < |tasks| && TaskGood(ram, owner, t, tasks[t], first, -1)
      requires 0 <= address && PageOfAddress(address) < WINDOW
      modifies this`ram
      ensures ValidRam(old(ram)) && tasks[t].cr3 in old(ram)
      ensures r.Ok? && !r.value ==> !Aligned(address) && ram == old(ram)
      ensures r.Aborted? ==> Aligned(address) && FrameAt(old(ram), tasks[t].cr3, PageOfAddress(address)) == -1
      ensures r.Ok? && r.value ==>
                var page, cr3 := PageOfAddress(address), tasks[t].cr3;
                && Aligned(address) && HasTable(old(ram), cr3, Pde(page))
                  && TableOf(old(ram), cr3, Pde(page)) in old(ram)
                && ram == Poke(old(ram), TableOf(old(ram), cr3, Pde(page)), Pte(page), 0)
    {
      if !Aligned(address) {
        return Ok(false);
      }
      hide TaskGood;
      var page, cr3 := PageOfAddress(address), tasks[t].cr3;
      WindowArithmetic(page);
      TableInRam(ram, owner, t, tasks[t], first, -1, Pde(page));
      if !IsPresent(ram[cr3][Pde(page)]) {
        return Aborted;
      }
      var table := FrameOf(ram[cr3][Pde(page)]);
      if !IsPresent(ram[table][Pte(page)]) {
        return Aborted;
      }
      ram := Poke(ram, table, Pte(page), 0);
      return Ok(true);
    }

    /** unmap on a task for the pages of segment `i`, as the cleaner calls it: it meets no panic, and what
        the segments after it map stays mapped. */
    method UnmapPages(t: int, i: int)
      requires Cleaning(ram, owner, tasks, allocator.live, allocator.memory.Size(), t, i, i) && i < |tasks[t].segments|
      requires tasks[t].segments[i].virt != 0 && ValidRam(ram) && AllGone(ram, tasks[t].cr3, tasks[t].segments, i)
      modifies this`ram
      ensures Cleaning(ram, owner, tasks, allocator.live, allocator.memory.Size(), t, i, i + 1)
      ensures ValidRam(ram) && AllGone(ram, tasks[t].cr3, tasks[t].segments, i + 1)
      ensures OthersLose(old(ram), ram, owner, tasks, t)
    {
      hide Space, Recorded, OthersGood, FrameAt, OthersLose, Gone;
      NoneLost(ram, owner, tasks, t);
      NoneGone(ram, tasks[t].cr3, tasks[t].segments[i]);
      var s := tasks[t].segments[i];
      StartOfSegment(ram, owner, tasks, allocator.live, allocator.memory.Size(), t, i);
      var page := 0;
      while page < s.pages
        invariant 0 <= page <= s.pages && (page > 0 ==> Aligned(s.virt))
        invariant Cleaning(ram, owner, tasks, allocator.live, allocator.memory.Size(), t, i, i + 1)
        invariant ValidRam(ram) && Mappable(s) && Gone(ram, tasks[t].cr3, s, page)
        invariant AllGone(ram, tasks[t].cr3, tasks[t].segments, i) && OthersLose(old(ram), ram, owner, tasks, t)
        invariant Aligned(s.virt) ==> MappedPart(ram, tasks[t].cr3, s, page, s.pages)
      {
        PageOfRunBelow(s, page);
        ghost var ram0 := ram;
        var done := UnmapPage(t, s.virt + page * PAGE_SIZE, i + 1);
        if done.Aborted? {
          assert false;
        }
        if !done.value {
          return;
        }
        UnmapStep(ram0, ram, owner, tasks, allocator.live, allocator.memory.Size(), t, i, page);
        LosesThen(old(ram), ram0, ram, owner, tasks, t);
        page := page + 1;
      }
    }

    method Give(physical: int, pages: int)
      requires allocator.Valid() && 0 < pages && 0 <= physical
      requires forall f :: physical / PAGE_SIZE <= f < physical / PAGE_SIZE + pages ==> f in allocator.live
      modifies allocator, allocator.memory.arr
      ensures allocator.Valid()
      ensures forall f :: f in allocator.live <==>
                f in old(allocator.live) && !(physical / PAGE_SIZE <= f < physical / PAGE_SIZE + pages)
    {
      allocator.Free(physical, pages);
    }

    /** The cleaner's work on a killed task: its pages are unmapped, and each of its frames is given back,
        once. No other task loses a page. */
    method Clean(t: int)
      requires Busy(t, -1)
      modifies this, allocator, allocator.memory.arr
      ensures Valid() && owner == Without(old(owner), t)
      ensures tasks == old(tasks)[t := Emptied(old(tasks[t]))]
      ensures ValidRam(ram) && AllGone(ram, tasks[t].cr3, old(tasks[t].segments), |old(tasks[t].segments)|)
      ensures OthersLose(old(ram), ram, old(owner), old(tasks), t)
    {
      hide Ledger, OthersGood, TaskGood, Cleaning, Without, AllGone, OthersLose;
      ghost var size := allocator.memory.Size();
      StartCleaning(ram, owner, tasks, allocator.live, size, t);
      NoneLost(ram, owner, tasks, t);
      var i := 0;
      while i < |tasks[t].segments|
        invariant 0 <= t < |tasks| && tasks == old(tasks) && owner == old(owner)
        invariant 0 <= i <= |tasks[t].segments| && allocator.Valid()
        invariant allocator.memory.Size() == size
        invariant Cleaning(ram, owner, tasks, allocator.live, size, t, i, i)
        invariant ValidRam(ram) && AllGone(ram, tasks[t].cr3, tasks[t].segments, i)
        invariant OthersLose(old(ram), ram, owner, tasks, t)
      {
        var s := tasks[t].segments[i];
        ghost var ram0 := ram;
        if s.virt != 0 {
          UnmapPages(t, i);
          LosesThen(old(ram), ram0, ram, owner, tasks, t);
        } else {
          SkipTable(ram, owner, tasks, allocator.live, size, t, i);
        }
        SegmentHeld(ram, owner, tasks, allocator.live, size, t, i);
        ghost var live := allocator.live;
        assert FirstFrame(s) in live;
        Give(s.physical, s.pages);
        SegmentFreed(ram, owner, tasks, live, allocator.live, size, t, i);
        i := i + 1;
      }
      DirectoryHeld(ram, owner, tasks, allocator.live, size, t);
      ghost var live := allocator.live;
      Give(tasks[t].cr3 * PAGE_SIZE, 1);
      Cleaned(ram, owner, tasks, live, allocator.live, size, t);
      owner := Without(owner, t);
      tasks := tasks[t := Emptied(tasks[t])];
    }

    /** Frames the kernel takes for itself, for page tables and its heap; 0 when there is no run of them. */
    method KernelTake(n: int) returns (r: Result<int>)
      requires Valid() && 0 < n
      modifies this`owner, allocator, allocator.memory.arr
      ensures r.Ok? ==> Valid()
      ensures r.Ok? && r.value != 0 ==>
                && Aligned(r.value) && old(allocator.FirstRun(r.value / PAGE_SIZE, n))
                && owner == Grant(old(owner), r.value / PAGE_SIZE, n, KERNEL)
                && forall f :: r.value / PAGE_SIZE <= f < r.value / PAGE_SIZE + n ==>
                     f !in old(owner) && Owned(owner, f, KERNEL)
      ensures r == Ok(0) ==> owner == old(owner) && allocator.NoRun(n)
      ensures r.Ok? ==> Grows(old(owner), owner, KERNEL)
      ensures r.Aborted? ==> Exhausted(n)
    {
      hide Ledger, OthersGood, TaskGood, Fresh, Grant, Good, Grows;
      NoLoss(owner, KERNEL);
      r := Take(n);
      if r.Aborted? || r.value == 0 {
        return;
      }
      KernelGood(ram, owner, tasks, old(allocator.live), allocator.live, allocator.memory.Size(), r.value, n);
      owner := Grant(owner, r.value / PAGE_SIZE, n, KERNEL);
    }

    /** The branch of `modify` without a task that makes a table, in the address space of `u`. No task records
        the table, so that the cleaner will not give it back. */
    method KernelTable(u: int, i: int) returns (ok: bool)
      requires Valid() && 0 <= u < |tasks| && tasks[u].live && 0 <= i < SELF && ValidRam(ram) && tasks[u].cr3 in ram
      requires !HasTable(ram, tasks[u].cr3, i)
      modifies this`ram, this`owner, allocator, allocator.memory.arr
      ensures ok ==> Valid() && KernelTableMade(old(ram), old(owner), tasks, ram, owner, u, i)
      ensures !ok ==> Exhausted(1)
    {
      hide Ledger, OthersGood, TaskGood, Fresh, Grant, Good, MakeEntry, KernelTableMade, NamesTable;
      GoodIsLedger(ram, owner, tasks, allocator.live, allocator.memory.Size());
      var r := Take(1);
      if r.Aborted? {
        return false;
      }
      assert r.value != 0;
      var f := r.value / PAGE_SIZE;
      var w := MakeEntry(r.value, WRITE + USER);
      var cr3 := tasks[u].cr3;
      FreshFrames(ram, owner, tasks, old(allocator.live), allocator.live, allocator.memory.Size(), r.value, 1);
      HeldByTask(ram, owner, tasks, old(allocator.live), allocator.memory.Size(), u);
      TableEntry(r.value);
      ram := Poke(ram, cr3, i, w);
      ram := ram[f := seq(ENTRIES, _ => 0)];
      owner := Grant(owner, f, 1, KERNEL);
      KernelTableGood(old(ram), ram, old(owner), tasks, old(allocator.live), allocator.live, allocator.memory.Size(), u,
                      i, f, w);
      KernelTableSeen(old(ram), ram, old(owner), tasks, old(allocator.live), allocator.memory.Size(), u, i, f, w);
      return true;
    }

    /** map without a task, called in the address space of `u`: false, with nothing changed, for an unaligned
        address and for a page that is mapped already. */
    method KernelMap(u: int, address: int, physical: int, flags: int) returns (r: Result<bool>)
      requires Valid() && 0 <= u < |tasks| && tasks[u].live && 0 <= address && PageOfAddress(address) < WINDOW
      requires 0 <= physical && 0 <= flags < PAGE_SIZE
      modifies this`ram, this`owner, allocator, allocator.memory.arr
      ensures ValidRam(old(ram)) && IsPage(PageOfAddress(address))
      ensures r.Ok? ==> Valid()
      ensures r.Ok? ==> r.value == (Aligned(address) && Walk(old(ram), tasks[u].cr3, PageOfAddress(address)) == None)
      ensures r == Ok(false) ==> ram == old(ram) && owner == old(owner)
      ensures r == Ok(true) ==>
                KernelMapped(old(ram), old(owner), tasks, ram, owner, u, PageOfAddress(address),
                             MakeEntry(physical, WithPresent(flags)))
      ensures r.Aborted? ==> Exhausted(1)
    {
      hide Ledger, OthersGood, TaskGood, Walk, Directory, MakeEntry, KernelTableMade, KernelMapped, Good, OnlyEntry,
           SameOutside;
      ghost var size := allocator.memory.Size();
      var page, cr3 := PageOfAddress(address), tasks[u].cr3;
      GoodIsLedger(ram, owner, tasks, allocator.live, size);
      HeldByTask(ram, owner, tasks, allocator.live, size, u);
      WindowArithmetic(page);
      if !Aligned(address) {
        return Ok(false);
      }
      if !IsPresent(ram[cr3][Pde(page)]) {
        var ok := KernelTable(u, Pde(page));
        if !ok {
          return Aborted;
        }
        MadeThere(old(ram), old(owner), tasks, ram, owner, u, Pde(page));
      }
      ghost var mid := ram;
      TableReady(old(ram), old(owner), tasks, mid, owner, allocator.live, size, u, page);
      var table := FrameOf(ram[cr3][Pde(page)]);
      NoEntryNoPage(mid, cr3, page);
      if IsPresent(ram[table][Pte(page)]) {
        return Ok(false);
      }
      var w := MakeEntry(physical, WithPresent(flags));
      EntryFields(physical, WithPresent(flags));
      ram := Poke(ram, table, Pte(page), w);
      KernelEntry(mid, ram, owner, tasks, allocator.live, size, u, page, w);
      GoodIsLedger(ram, owner, tasks, allocator.live, size);
      MappedByKernel(old(ram), old(owner), tasks, mid, owner, ram, allocator.live, size, u, page, w);
      return Ok(true);
    }

    /** unmap without a task, called in the address space of `u`, of a page that maps no frame of a task: false,
        with nothing changed, for an unaligned address and for a page that is not mapped. */
    method KernelUnmap(u: int, address: int) returns (r: bool)
      requires Valid() && 0 <= u < |tasks| && tasks[u].live && 0 <= address && PageOfAddress(address) < WINDOW
      requires ValidRam(ram) && !OfTask(owner, FrameAt(ram, tasks[u].cr3, PageOfAddress(address)))
      modifies this`ram
      ensures Valid() && ValidRam(ram) && IsPage(PageOfAddress(address))
      ensures r == (Aligned(address) && Walk(old(ram), tasks[u].cr3, PageOfAddress(address)).Some?)
      ensures !r ==> ram == old(ram)
      ensures r ==> KernelUnmapped(old(ram), tasks, ram, u, PageOfAddress(address))
    {
      hide Ledger, OthersGood, TaskGood, Walk, Directory, Good, OnlyEntry, SameOutside, FrameAt;
      ghost var size := allocator.memory.Size();
      var page, cr3 := PageOfAddress(address), tasks[u].cr3;
      HeldByTask(ram, owner, tasks, allocator.live, size, u);
      WindowArithmetic(page);
      if !Aligned(address) {
        return false;
      }
      if !IsPresent(ram[cr3][Pde(page)]) {
        NoTableNoPage(ram, cr3, page);
        return false;
      }
      TableReady(ram, owner, tasks, ram, owner, allocator.live, size, u, page);
      var table := FrameOf(ram[cr3][Pde(page)]);
      NoEntryNoPage(ram, cr3, page);
      if !IsPresent(ram[table][Pte(page)]) {
        return false;
      }
      ram := Poke(ram, table, Pte(page), 0);
      KernelEntry(old(ram), ram, owner, tasks, allocator.live, size, u, page, 0);
      GoodIsLedger(ram, owner, tasks, allocator.live, size);
      return true;
    }

    /** newKernelTask as far as memory goes: the slot gets the kernel's own directory and holds nothing. */
    method NewKernelTask() returns (t: int)
      requires Valid()
      modifies this`tasks
      ensures Valid() && FirstUnused(old(tasks), t) && KernelTaskAdded(old(tasks), tasks, t)
    {
      GoodIsLedger(ram, owner, tasks, allocator.live, allocator.memory.Size());
      t := NewSlot();
      ghost var mid := tasks;
      tasks := tasks[t := tasks[t].(cr3 := tasks[0].cr3)];
      SlotIdle(ram, owner, mid, tasks, allocator.live, allocator.memory.Size(), t);
    }

    /** The cleaner's work on a killed kernel task: it has no segments, and its directory is not given back. */
    method Leave(t: int)
      requires Valid() && 0 < t < |tasks| && !tasks[t].live
      modifies this`tasks
      ensures Valid() && tasks == old(tasks)[t := Emptied(old(tasks)[t])]
    {
      ghost var was := tasks;
      tasks := tasks[t := Emptied(tasks[t])];
      SlotIdle(ram, owner, was, tasks, allocator.live, allocator.memory.Size(), t);
    }

    /** mapKernel: a directory that shares the kernel's tables of the current one, which is that of `current`.
        The new task is as it should be if and only if that one may be shared; all others are in any case. */
    method MapKernel(t: int, current: int) returns (ok: bool)
      requires Valid() && 0 < t < |tasks| && tasks[t].used && !tasks[t].live
      requires 0 <= current < |tasks| && tasks[current].live
      modifies this, allocator, allocator.memory.arr
      ensures ok ==> (Busy(t, -1) <==> old(Donor(ram, owner, tasks[current].cr3)))
      ensures ok ==>
                DirectoryMade(old(ram), old(owner), old(tasks), ram, owner, tasks, allocator.live,
                              allocator.memory.Size(), t, old(tasks[current].cr3))
      ensures ok ==> allocator.Valid()
      ensures !ok ==> Exhausted(1)
    {
      hide Ledger, Fresh, Grant, Donor, MakeEntry, Copied, Held, GoodBut, Good, DirectoryMade;
      var from := tasks[current].cr3;
      HeldByTask(ram, owner, tasks, allocator.live, allocator.memory.Size(), current);
      GoodIsLedger(ram, owner, tasks, allocator.live, allocator.memory.Size());
      var r := Take(1);
      if r.Aborted? {
        return false;
      }
      assert r.value != 0;
      var f := r.value / PAGE_SIZE;
      FreshFrames(ram, owner, tasks, old(allocator.live), allocator.live, allocator.memory.Size(), r.value, 1);
      ghost var entries := FillDirectory(f, from);
      tasks := tasks[t := tasks[t].(live := true, cr3 := f)];
      owner := Grant(owner, f, 1, t);
      NewTaskGood(old(ram), ram, old(owner), old(tasks), tasks, old(allocator.live), allocator.live,
                  allocator.memory.Size(), t, from, f, entries);
      return true;
    }

    /** The kernel's entries of directory `from` are copied to directory `f`, which is made to name itself. */
    method FillDirectory(f: int, from: int) returns (ghost entries: seq<int>)
      requires ValidRam(ram) && f in ram && from in ram && f != from
      modifies this`ram
      ensures Copied(old(ram), from, entries, KERNEL_TABLES)
      ensures ram == old(ram)[f := entries[SELF := MakeEntry(f * PAGE_SIZE, 0)]]
    {
      hide MakeEntry;
      ram := ram[f := seq(ENTRIES, _ => 0)];
      var pde := 0;
      while pde < KERNEL_TABLES
        invariant 0 <= pde <= KERNEL_TABLES && f in ram && ValidRam(ram)
        invariant ram == old(ram)[f := ram[f]] && Copied(old(ram), from, ram[f], pde)
      {
        ram := Poke(ram, f, pde, ram[from][pde]);
        pde := pde + 1;
      }
      entries := ram[f];
      ram := Poke(ram, f, SELF, MakeEntry(f * PAGE_SIZE, 0));
    }

    /** newTask: the first slot not in use, or a new one. */
    method NewSlot() returns (t: int)
      requires Valid()
      modifies this`tasks
      ensures Valid() && 0 < t < |tasks| && SlotsKept(old(tasks), tasks, t)
      ensures FirstUnused(old(tasks), t)
      ensures tasks ==
        if t < |old(tasks)| then old(tasks)[t := old(tasks)[t].(used := true)]
        else old(tasks) + [UserTask(true, false, 0, [], 0)]
    {
      t := 0;
      while t < |tasks|
        invariant 0 <= t <= |tasks| && forall u :: 0 <= u < t ==> tasks[u].used
      {
        if !tasks[t].used {
          break;
        }
        t := t + 1;
      }
      ghost var was := tasks;
      tasks := if t < |tasks| then tasks[t := tasks[t].(used := true)] else tasks + [UserTask(true, false, 0, [], 0)];
      SlotGood(ram, owner, was, tasks, allocator.live, allocator.memory.Size(), t);
    }

    /** newTask and mapKernel, called in the address space of `current`. */
    method NewDirectory(current: int) returns (r: Result<int>)
      requires Valid() && 0 <= current < |tasks| && tasks[current].live && Donor(ram, owner, tasks[current].cr3)
      modifies this, allocator, allocator.memory.arr
      ensures r.Ok? ==> Busy(r.value, -1)
      ensures r.Ok? ==>
                Started(old(ram), old(owner), old(tasks), ram, owner, tasks, r.value, old(tasks[current].cr3))
      ensures r.Ok? ==> UserOnly(ram, tasks[r.value].cr3, 0, 0)
      ensures r.Aborted? ==> Exhausted(1)
    {
      GoodIsLedger(ram, owner, tasks, allocator.live, allocator.memory.Size());
      hide Donor, Good, GoodBut, DirectoryMade, Started, UserOnly;
      var t := NewSlot();
      ghost var tasks0, from := tasks, old(tasks[current].cr3);
      SlotTaken(old(tasks), tasks0, t, current);
      var ok := MapKernel(t, current);
      if !ok {
        return Aborted;
      }
      DirectoryStarted(old(ram), old(owner), old(tasks), tasks0, ram, owner, tasks, old(allocator.live),
                       allocator.live, allocator.memory.Size(), t, from);
      KernelIsAll(old(ram), old(owner), tasks0, ram, owner, tasks, allocator.live, allocator.memory.Size(), t, from);
      return Ok(t);
    }

    /** The start of newUserTask: a slot, a directory with the kernel in it, and a stack. */
    method Prepare(current: int) returns (r: Result<int>)
      requires Valid() && 0 <= current < |tasks| && tasks[current].live && Donor(ram, owner, tasks[current].cr3)
      modifies this, allocator, allocator.memory.arr
      ensures r.Ok? ==> Busy(r.value, -1) && tasks[r.value].end == 0
      ensures r.Ok? ==>
                Started(old(ram), old(owner), old(tasks), ram, owner, tasks, r.value, old(tasks[current].cr3))
      ensures r.Ok? ==>
                HasPages(ram, owner, r.value, tasks[r.value].cr3, PageOfAddress(USER_STACK), STACK_PAGES,
                  WRITE)
      ensures r.Ok? ==> UserOnly(ram, tasks[r.value].cr3, PageOfAddress(USER_STACK), STACK_PAGES)
      ensures r.Aborted? ==> Exhausted(STACK_PAGES)
    {
      hide Ledger, OthersGood, TaskGood, Donor, TranslatedOnly, Grows, HasPages, WithUser, OthersKeep, Good, Started,
           OnlyTask, UserOnly, FreeRun;
      r := NewDirectory(current);
      if r.Aborted? {
        return;
      }
      var t := r.value;
      ghost var ram1, tasks1, owner1, from := ram, tasks, owner, old(tasks[current].cr3);
      StackIsFree(ram, tasks[t].cr3, PageOfAddress(USER_STACK), STACK_PAGES);
      var ok := MapStack(t, USER_STACK, WRITE);
      if !ok {
        return Aborted;
      }
      StackIsAll(ram1, ram, tasks[t].cr3, PageOfAddress(USER_STACK), STACK_PAGES);
      StartedThen(old(ram), ram1, ram, old(owner), owner1, owner, old(tasks), tasks1, tasks, t, from,
                  PageOfAddress(USER_STACK), STACK_PAGES);
      EndGood(ram, owner, tasks, allocator.live, allocator.memory.Size(), t, 0);
      StartedEnd(old(ram), ram, old(owner), owner, old(tasks), tasks, t, from, 0);
      tasks := tasks[t := tasks[t].(end := 0)];
    }

    /** The frames run out for one of the segments. */
    ghost predicate Starved(loads: seq<Load>)
      reads this, allocator, allocator.memory, allocator.memory.arr
    {
      exists k :: 0 <= k < |loads| && Exhausted(PagesFor(loads[k].size))
    }

    /** One turn of the load loop of newUserTask. */
    method LoadNext(memory: array<int>, t: int, loads: seq<Load>, i: int) returns (ok: bool)
      requires Busy(t, -1) && 0 <= i < |loads| && Loadable(loads[i])
      requires allocator.memory.Size() * PAGE_SIZE <= memory.Length
      requires memory as object != allocator.memory.arr as object
      requires 0 <= tasks[t].end && EndsAt(loads[..i], tasks[t].end)
      requires AllLoaded(memory[..], ram, owner, t, tasks[t].cr3, loads, i)
      modifies this, allocator, allocator.memory.arr, memory
      ensures ok ==> Busy(t, -1) && 0 <= tasks[t].end && EndsAt(loads[..i + 1], tasks[t].end)
      ensures ok ==> Advanced(old(Seen(memory)), Seen(memory), t, old(tasks[t].cr3))
      ensures ok ==> AllLoaded(memory[..], ram, owner, t, old(tasks[t].cr3), loads, i + 1)
      ensures ok && KERNEL_END <= loads[i].start ==>
                KernelEntries(old(ram), ram, old(tasks[t].cr3), old(tasks[t].cr3))
      ensures ok ==>
                TranslatedOnly(old(ram), ram, old(tasks[t].cr3), PageOfAddress(loads[i].start),
                               PagesFor(loads[i].size))
      ensures !ok ==>
                || Exhausted(PagesFor(loads[i].size))
                || (ValidRam(old(ram))
                    && !FreeRun(old(ram), old(tasks[t].cr3), PageOfAddress(loads[i].start), PagesFor(loads[i].size)))
    {
      hide Ledger, OthersGood, TaskGood, TranslatedOnly, EndsAt, Grows, AllLoaded, OthersKeep, BytesKept,
        KernelEntries, Advanced, OnlyTask;
      EndMoves(loads, i, tasks[t].end);
      EndGood(ram, owner, tasks, allocator.live, allocator.memory.Size(), t, LoadEnd(loads[i]));
      if LoadEnd(loads[i]) > tasks[t].end {
        tasks := tasks[t := tasks[t].(end := LoadEnd(loads[i]))];
      }
      ghost var end := tasks[t].end;
      assert tasks == old(tasks)[t := old(tasks)[t].(end := end)];
      ok := LoadSegment(memory, t, loads, i);
      if ok {
        OneAdvance(old(Seen(memory)), Seen(memory), t, end, PageOfAddress(loads[i].start), PagesFor(loads[i].size));
      }
    }

    /** One turn of the loop that began with `w`. */
    method LoadTurn(memory: array<int>, t: int, loads: seq<Load>, i: int, ghost w: World, ghost cr3: int)
      returns (ok: bool)
      requires Busy(t, -1) && 0 <= i < |loads| && Loadable(loads[i])
      requires allocator.memory.Size() * PAGE_SIZE <= memory.Length
      requires memory as object != allocator.memory.arr as object
      requires Loading(w, Seen(memory), t, cr3, loads, i, UserStack())
      modifies this, allocator, allocator.memory.arr, memory
      ensures ok ==> Busy(t, -1) && Loading(w, Seen(memory), t, cr3, loads, i + 1, UserStack())
      ensures !ok && Compatible(loads, PageOfAddress(USER_STACK), STACK_PAGES) ==> Starved(loads)
    {
      hide EndsAt, AllLoaded, KernelEntries, Advanced, LoadedOnly, Compatible, TranslatedOnly, FreeRun, Loading,
        GoodBut, Loadable;
      ghost var a := Seen(memory);
      LoadingFacts(w, a, t, cr3, loads, i, UserStack());
      ok := LoadNext(memory, t, loads, i);
      if ok {
        LoadingNext(w, a, Seen(memory), t, cr3, loads, i, UserStack());
      }
    }

    /** The load loop of newUserTask. */
    method LoadAll(memory: array<int>, t: int, loads: seq<Load>) returns (ok: bool)
      requires Busy(t, -1) && tasks[t].end == 0 && allocator.memory.Size() * PAGE_SIZE <= memory.Length
      requires memory as object != allocator.memory.arr as object && forall k :: 0 <= k < |loads| ==> Loadable(loads[k])
      requires UserOnly(ram, tasks[t].cr3, PageOfAddress(USER_STACK), STACK_PAGES)
      modifies this, allocator, allocator.memory.arr, memory
      ensures ok ==> Busy(t, -1) && EndsAt(loads, tasks[t].end)
      ensures ok ==> Advanced(old(Seen(memory)), Seen(memory), t, old(tasks[t].cr3))
      ensures ok ==> AllLoaded(memory[..], ram, owner, t, old(tasks[t].cr3), loads, |loads|)
      ensures ok && Above(loads, |loads|) ==> KernelEntries(old(ram), ram, old(tasks[t].cr3), old(tasks[t].cr3))
      ensures !ok && Compatible(loads, PageOfAddress(USER_STACK), STACK_PAGES) ==> Starved(loads)
    {
      ghost var w, cr3 := Seen(memory), tasks[t].cr3;
      OnlyStack(ram, cr3, loads, PageOfAddress(USER_STACK), STACK_PAGES);
      NoEnd();
      NothingLoaded(w, allocator.live, allocator.memory.Size(), t, loads);
      assert Loading(w, w, t, cr3, loads, 0, UserStack());
      hide Ledger, OthersGood, TaskGood, EndsAt, AllLoaded, KernelEntries, Above, Advanced, UserOnly, LoadedOnly,
        Compatible, TranslatedOnly, FreeRun, Loading, GoodBut;
      var i := 0;
      while i < |loads|
        invariant 0 <= i <= |loads| && Busy(t, -1) && Loading(w, Seen(memory), t, cr3, loads, i, UserStack())
      {
        ok := LoadTurn(memory, t, loads, i, w, cr3);
        if !ok {
          return;
        }
        i := i + 1;
      }
      LoadingFacts(w, Seen(memory), t, cr3, loads, i, UserStack());
      assert loads[..i] == loads;
      ok := true;
    }

    /** Paging::isMapped for a range of the current address space. */
    method AnyMapped(cr3: int, page: int, pages: int) returns (r: bool)
      requires ValidRam(ram) && 0 <= page && 0 <= pages && page + pages <= PAGES
      ensures r == !FreeRun(ram, cr3, page, pages)
    {
      var i := 0;
      while i < pages
        invariant 0 <= i <= pages && FreeRun(ram, cr3, page, i)
      {
        if Walk(ram, cr3, page + i).Some? {
          return true;
        }
        i := i + 1;
      }
      return false;
    }

    /** getFreeKernelPages in the current address space, `firstFree` being the hint; 0 when there are none, or
        when they start at page 0. */
    method FreeKernelPages(cr3: int, firstFree: int, pages: int) returns (address: int)
      requires ValidRam(ram) && 0 <= firstFree && Aligned(firstFree) && 0 < pages && pages * PAGE_SIZE <= KERNEL_END
      ensures Aligned(address) && 0 <= address && address + pages * PAGE_SIZE <= KERNEL_END
      ensures address != 0 ==> FreeRun(ram, cr3, PageOfAddress(address), pages)
      ensures FirstFit(ram, cr3, firstFree, address, pages)
    {
      hide FreeRun;
      address := firstFree;
      while address <= KERNEL_END - pages * PAGE_SIZE
        invariant Aligned(address) && 0 <= firstFree <= address
        invariant forall q :: PageOfAddress(firstFree) <= q < PageOfAddress(address) ==> !FreeRun(ram, cr3, q, pages)
        decreases KERNEL_END - address
      {
        var mapped := AnyMapped(cr3, PageOfAddress(address), pages);
        if !mapped {
          return;
        }
        address := address + PAGE_SIZE;
      }
      address := 0;
    }

    /** The stack for the task's time in the kernel: pages that are free in the current address space are
        mapped in the new one. Address 0 says that none were found, and nothing is mapped then. */
    method AddKernelStack(t: int, current: int, firstFree: int, ghost bytes: seq<int>)
      returns (ok: bool, address: int)
      requires Busy(t, -1) && 0 <= current < |tasks| && current != t && tasks[current].live
      requires 0 <= firstFree && Aligned(firstFree)
      modifies this, allocator, allocator.memory.arr
      ensures ok ==> Busy(t, -1) && OnlyTask(old(tasks), tasks, t) && tasks[t].cr3 == old(tasks[t].cr3)
      ensures ok ==> tasks[t].end == old(tasks[t].end) && OthersKeep(old(ram), ram, old(tasks), t)
      ensures ok ==> Grows(old(owner), owner, t) && Aligned(address) && 0 <= address < KERNEL_END
      ensures ok ==> TranslatedOnly(old(ram), ram, tasks[t].cr3, PageOfAddress(address), STACK_PAGES)
      ensures ok && address == 0 ==> ram == old(ram)
      ensures ok ==>
                KernelStackReady(old(ram), World(bytes, ram, owner, tasks), t, old(tasks[current].cr3), firstFree,
                                 KernelStack(address))
      ensures !ok ==>
                || Exhausted(STACK_PAGES)
                || (ValidRam(old(ram)) && 0 <= address && address + STACK_PAGES * PAGE_SIZE <= KERNEL_END
                    && Aligned(address)
                    && FreeRun(old(ram), old(tasks[current].cr3), PageOfAddress(address), STACK_PAGES)
                    && !FreeRun(old(ram), old(tasks[t].cr3), PageOfAddress(address), STACK_PAGES))
    {
      hide OthersGood, TaskGood, TranslatedOnly, Grows, HasPages, WithUser, OthersKeep, FreeRun, NothingLeft,
           FirstFit;
      NoLoss(owner, t);
      OthersReflexive(ram, tasks, t);
      address := FreeKernelPages(tasks[current].cr3, firstFree, STACK_PAGES);
      if address == 0 {
        SameTranslated(ram, owner, tasks, allocator.live, allocator.memory.Size(), t, STACK_PAGES);
        return true, 0;
      }
      ok := MapStack(t, address, 0);
      if ok {
        StillFirstFit(old(ram), ram, old(tasks), t, current, firstFree, address, STACK_PAGES);
      }
    }

    /** newUserTask up to the kernel stack. */
    method LoadProgram(memory: array<int>, current: int, loads: seq<Load>) returns (r: Result<int>)
      requires Valid() && 0 <= current < |tasks| && tasks[current].live && Donor(ram, owner, tasks[current].cr3)
      requires allocator.memory.Size() * PAGE_SIZE <= memory.Length
      requires memory as object != allocator.memory.arr as object && forall k :: 0 <= k < |loads| ==> Loadable(loads[k])
      modifies this, allocator, allocator.memory.arr, memory
      ensures r.Ok? ==>
                Busy(r.value, -1) && Created(old(Seen(memory)), Seen(memory), r.value, loads, UserStack())
      ensures r.Ok? && Above(loads, |loads|) ==>
                KernelEntries(old(ram), ram, old(tasks[current].cr3), tasks[r.value].cr3)
      ensures r.Aborted? && Compatible(loads, PageOfAddress(USER_STACK), STACK_PAGES) ==>
                Exhausted(STACK_PAGES) || Starved(loads)
    {
      hide Ledger, OthersGood, TaskGood, Donor, EndsAt, AllLoaded, HasPages, WithUser, KernelEntries, Above, GoodBut,
        Good, Compatible, UserOnly, Started, Advanced, Created;
      r := Prepare(current);
      if r.Aborted? {
        return;
      }
      var t := r.value;
      IsLive(ram, owner, tasks, allocator.live, allocator.memory.Size(), t);
      ghost var cr3, w, from := tasks[t].cr3, Seen(memory), old(tasks[current].cr3);
      var ok := LoadAll(memory, t, loads);
      if !ok {
        return Aborted;
      }
      IsLive(ram, owner, tasks, allocator.live, allocator.memory.Size(), t);
      CreatedFromLoaded(old(Seen(memory)), w, Seen(memory), t, from, cr3, loads, UserStack());
    }

    /** The end of newUserTask; `w` is what there was before it, and `bytes` the memory now. */
    method FinishTask(t: int, current: int, firstFree: int, loads: seq<Load>, ghost w: World, ghost bytes: seq<int>)
      returns (ok: bool, kernelStack: int)
      requires Busy(t, -1) && 0 <= firstFree && Aligned(firstFree)
      requires Created(w, World(bytes, ram, owner, tasks), t, loads, UserStack())
      requires 0 <= current < |w.tasks| && w.tasks[current].used && w.tasks[current].live
      requires Donor(w.ram, w.owner, w.tasks[current].cr3)
      requires Above(loads, |loads|) ==> KernelEntries(w.ram, ram, w.tasks[current].cr3, tasks[t].cr3)
      modifies this, allocator, allocator.memory.arr
      ensures ok ==>
                && Valid()
                && Complete(w, World(bytes, ram, owner, tasks), t, w.tasks[current].cr3, loads, UserStack(), firstFree,
                            KernelStack(kernelStack))
      ensures !ok && Above(loads, |loads|) ==> Exhausted(STACK_PAGES)
    {
      hide Ledger, OthersGood, TaskGood, TranslatedOnly, HasPages, WithUser, OthersKeep, KernelEntries, FreeRun,
        Above, GoodBut, Created, Grows, KernelStackReady, Complete;
      ghost var b := World(bytes, ram, owner, tasks);
      CreatedFacts(w, b, t, loads, UserStack(), current);
      ok, kernelStack := AddKernelStack(t, current, firstFree, bytes);
      if !ok {
        StackWasFree(w.ram, b.ram, w.tasks, t, current, b.tasks[t].cr3, kernelStack, STACK_PAGES, loads);
        return;
      }
      CreationEnds(w, b, World(bytes, ram, owner, tasks), allocator.live, allocator.memory.Size(), t, current, loads,
                   UserStack(), firstFree, KernelStack(kernelStack));
    }

    /** newUserTask as far as memory goes, called in the address space of `current`: a directory, a stack, the
        loadable segments with their bytes and a stack for its time in the kernel, which is the first run of
        pages free in the current address space. When nothing had to be made for it in the kernel's part its
        own directory may be shared in turn. For a program whose segments lie apart, from one another, from
        the stack and from the kernel, there is no panic but for want of frames. */
    method NewUserTask(memory: array<int>, current: int, firstFree: int, loads: seq<Load>)
      returns (r: Result<int>, kernelStack: int)
      requires Valid() && 0 <= current < |tasks| && tasks[current].live && Donor(ram, owner, tasks[current].cr3)
      requires allocator.memory.Size() * PAGE_SIZE <= memory.Length && 0 <= firstFree && Aligned(firstFree)
      requires memory as object != allocator.memory.arr as object && forall k :: 0 <= k < |loads| ==> Loadable(loads[k])
      modifies this, allocator, allocator.memory.arr, memory
      ensures r.Ok? ==>
                && Valid()
                && Complete(old(Seen(memory)), Seen(memory), r.value, old(tasks[current].cr3), loads, UserStack(),
                            firstFree, KernelStack(kernelStack))
      ensures r.Aborted? && Above(loads, |loads|) && Compatible(loads, PageOfAddress(USER_STACK), STACK_PAGES) ==>
                Exhausted(STACK_PAGES) || Starved(loads)
    {
      kernelStack := 0;
      GoodIsLedger(ram, owner, tasks, allocator.live, allocator.memory.Size());
      hide Donor, KernelEntries, Above, GoodBut, Good, Compatible, Created, Complete;
      ghost var w := Seen(memory);
      r := LoadProgram(memory, current, loads);
      if r.Aborted? {
        return;
      }
      var ok;
      ok, kernelStack := FinishTask(r.value, current, firstFree, loads, w, memory[..]);
      if !ok {
        return Aborted, 0;
      }
    }

    /** A stack for the task, at a page boundary. */
    method MapStack(t: int, virt: int, flags: int) returns (ok: bool)
      requires Busy(t, -1) && Aligned(virt) && 0 < virt && virt + STACK_PAGES * PAGE_SIZE <= WINDOW * PAGE_SIZE
      requires 0 <= flags < PAGE_SIZE - USER
      modifies this, allocator, allocator.memory.arr
      ensures ok ==> Busy(t, -1) && OnlyTask(old(tasks), tasks, t) && tasks[t].end == old(tasks[t].end)
      ensures ok ==> tasks[t].cr3 == old(tasks[t].cr3)
      ensures ok ==> HasPages(ram, owner, t, tasks[t].cr3, PageOfAddress(virt), STACK_PAGES, flags)
      ensures ok ==> TranslatedOnly(old(ram), ram, tasks[t].cr3, PageOfAddress(virt), STACK_PAGES)
      ensures ok ==> Grows(old(owner), owner, t)
      ensures ok ==> OthersKeep(old(ram), ram, old(tasks), t)
      ensures !ok ==>
                || Exhausted(STACK_PAGES)
                || (ValidRam(old(ram)) && !FreeRun(old(ram), old(tasks[t].cr3), PageOfAddress(virt), STACK_PAGES))
    {
      hide Ledger, OthersGood, TaskGood, Singles, TranslatedOnly, Spread, Grows, NewFrames, Flagged, HasPages, WithUser,
           OthersKeep;
      var stack := CreatePhysicalMapping(t, virt, STACK_PAGES, flags);
      if stack.Aborted? {
        return false;
      }
      SpreadPages(ram, owner, tasks, allocator.live, allocator.memory.Size(), t, stack.value, virt, STACK_PAGES,
                  flags);
      return true;
    }

    /** One turn of the load loop. */
    method LoadSegment(memory: array<int>, t: int, loads: seq<Load>, i: int) returns (ok: bool)
      requires Busy(t, -1) && 0 <= i < |loads| && Loadable(loads[i])
        && allocator.memory.Size() * PAGE_SIZE <= memory.Length
      requires memory as object != allocator.memory.arr as object
      requires AllLoaded(memory[..], ram, owner, t, tasks[t].cr3, loads, i)
      modifies this, allocator, allocator.memory.arr, memory
      ensures ok ==> Busy(t, -1) && OnlyTask(old(tasks), tasks, t) && tasks[t].end == old(tasks[t].end)
      ensures ok ==> tasks[t].cr3 == old(tasks[t].cr3)
      ensures ok ==> AllLoaded(memory[..], ram, owner, t, tasks[t].cr3, loads, i + 1)
      ensures ok ==> TranslatedOnly(old(ram), ram, tasks[t].cr3, PageOfAddress(loads[i].start), PagesFor(loads[i].size))
      ensures ok ==> Grows(old(owner), owner, t)
      ensures ok ==> OthersKeep(old(ram), ram, old(tasks), t)
      ensures ok ==> BytesKept(old(memory[..]), memory[..], old(owner))
      ensures !ok ==>
                || Exhausted(PagesFor(loads[i].size))
                || (ValidRam(old(ram))
                    && !FreeRun(old(ram), old(tasks[t].cr3), PageOfAddress(loads[i].start), PagesFor(loads[i].size)))
    {
      hide Ledger, OthersGood, TaskGood, Singles, TranslatedOnly, Spread, Grows, NewFrames, AllLoaded, FilledTo, Placed,
           Flagged, HasPages, Loaded, WithUser, OthersKeep, BytesKept;
      var load := loads[i];
      var pages := PagesFor(load.size);
      ghost var ram0, owner0, cr3 := ram, owner, tasks[t].cr3;
      var added := CreatePhysicalMapping(t, load.start, pages, load.flags);
      if added.Aborted? {
        return false;
      }
      var content := Image(load.file, load.size);
      ghost var size := allocator.memory.Size();
      NoLoss(owner0, t);
      StillLoaded(memory[..], ram0, ram, owner0, owner0, t, cr3, loads, i, PageOfAddress(load.start), pages);
      AddedPlaced(ram, owner, tasks, allocator.live, size, t, owner0, added.value, load.start, pages, memory.Length);
      SpreadBytes(added.value, load.start, pages);
      ghost var was := memory[..];
      Fill(memory, added.value, load.start, content);
      FillKeeps(was, memory[..], ram, owner0, owner, size, t, cr3, loads, i, added.value, content);
      FillKeepsBytes(was, memory[..], owner0, size, added.value, content);
      if load.start != 0 {
        AddedMapped(ram, owner, tasks, allocator.live, size, t, added.value, load.start, pages);
        FilledIsLoaded(was, memory[..], added.value, load.start, pages, ram, cr3, content);
        SpreadPages(ram, owner, tasks, allocator.live, size, t, added.value, load.start, pages, load.flags);
      }
      OneMoreLoaded(memory[..], ram, owner, t, cr3, loads, i);
      return true;
    }
  }
}
