/** Whole runs of the kernel: tasks are created, grow, are scheduled, killed and cleaned, and the kernel takes frames
    and edits its page tables, in any order. */
module KernelRuns {
  import opened Cleaner
  import opened KernelKeeps
  import opened KernelSteps
  import opened Loader
  import opened PageTables
  import opened Paging
  import opened PhysicalAllocator
  import opened Scheduler
  import opened TaskLedger
  import opened TaskMemory
  import opened TaskSpace
  import opened TaskTable
  import opened Wrappers
  import SchedulerRuns

  ghost function FramesOf(a: PhysicalAllocator): Frames {
    Frames(a.memory.Size(), a.kernelPages, a.holes)
  }

  /** The objects hold what snapshot `s` says, and it is sound. */
  ghost predicate Matches(scheduler: Scheduler, kernel: TaskMemory, memory: array<int>, s: Snapshot)
    reads scheduler, kernel, kernel.allocator, kernel.allocator.memory, kernel.allocator.memory.arr, memory
  {
    && kernel.Valid() && scheduler.enabled && scheduler.View() == s.table && kernel.Seen(memory) == s.world
    && KernelSound(FramesOf(kernel.allocator), s)
    && kernel.allocator.memory.Size() * PAGE_SIZE <= memory.Length
    && memory as object != kernel.allocator.memory.arr as object
  }

  /** What makes the kernel panic while it serves request `r` in state `s`: want of frames; for a task that grows,
      pages at its end that are mapped already; for a new one, also segments that do not lie apart; and a wait for
      what cannot be waited for. */
  ghost predicate Fails(kernel: TaskMemory, s: Snapshot, r: Request)
    requires ValidRam(s.world.ram)
    reads kernel, kernel.allocator, kernel.allocator.memory, kernel.allocator.memory.arr
  {
    match r
    case Create(_, loads, _) =>
      Above(loads, |loads|) && Compatible(loads, PageOfAddress(USER_STACK), STACK_PAGES) ==>
        kernel.Exhausted(STACK_PAGES) || kernel.Starved(loads)
    case Grow(pid, pages) =>
      || kernel.Exhausted(pages)
      || (0 <= pid < |s.world.tasks|
          && !FreeRun(s.world.ram, s.world.tasks[pid].cr3, PageOfAddress(s.world.tasks[pid].end), pages))
    case Reserve(pages) => kernel.Exhausted(pages)
    case MapPage(_, _, _) => kernel.Exhausted(1)
    case UnmapPage(_) => false
    case Call(e) => e.OnWait? && !Waitable(s.table, e.child)
  }

  lemma ValidIsSound(kernel: TaskMemory, memory: array<int>)
    requires kernel.Valid()
    ensures MemorySound(FramesOf(kernel.allocator), kernel.Seen(memory)) && ValidRam(kernel.ram)
  {
    GoodIsLedger(kernel.ram, kernel.owner, kernel.tasks, kernel.allocator.live, kernel.allocator.memory.Size());
    assert forall f :: f in kernel.owner.Keys <==> f in kernel.allocator.live;
    assert kernel.owner.Keys == kernel.allocator.live;
    hide Good;
    forall f | f in kernel.owner
      ensures 0 <= f < kernel.allocator.memory.Size() && !KernelSteps.Withheld(FramesOf(kernel.allocator), f)
    {
      assert f in kernel.allocator.live && !kernel.allocator.Withheld(f);
    }
  }

  /** The allocator's view of its frames is that of the snapshots. */
  lemma AvailableIsFree(kernel: TaskMemory, first: int, n: int)
    requires kernel.Valid()
    ensures kernel.allocator.Available(first, n) <==> FreeFrames(FramesOf(kernel.allocator), kernel.owner, first, n)
  {
    GoodIsLedger(kernel.ram, kernel.owner, kernel.tasks, kernel.allocator.live, kernel.allocator.memory.Size());
    hide Good;
    var frames := FramesOf(kernel.allocator);
    assert forall f :: f in kernel.owner <==> f in kernel.allocator.live;
    assert forall f :: kernel.allocator.Withheld(f) <==> KernelSteps.Withheld(frames, f);
  }

  lemma NoRunIsFree(kernel: TaskMemory, n: int)
    requires kernel.Valid() && kernel.allocator.NoRun(n)
    ensures NoFreeFrames(FramesOf(kernel.allocator), kernel.owner, n)
  {
    hide FreeFrames, Good;
    forall i | 0 <= i && i + n < kernel.allocator.memory.Size()
      ensures !FreeFrames(FramesOf(kernel.allocator), kernel.owner, i, n)
    {
      AvailableIsFree(kernel, i, n);
      assert !kernel.allocator.Available(i, n);
    }
  }

  lemma FirstRunIsFree(kernel: TaskMemory, first: int, n: int)
    requires kernel.Valid() && kernel.allocator.FirstRun(first, n)
    ensures FirstFrames(FramesOf(kernel.allocator), kernel.owner, first, n)
  {
    AvailableIsFree(kernel, first, n);
    hide FreeFrames, Good;
    forall i | 0 <= i < first ensures !FreeFrames(FramesOf(kernel.allocator), kernel.owner, i, n) {
      AvailableIsFree(kernel, i, n);
      assert !kernel.allocator.Available(i, n);
    }
  }

  // ----- one request -----

  /** What there is to see now, with these images. */
  ghost function Look(scheduler: Scheduler, kernel: TaskMemory, memory: array<int>, images: map<int, seq<Load>>)
    : Snapshot
    reads scheduler, kernel, memory
  {
    Snapshot(scheduler.View(), kernel.Seen(memory), images)
  }

  /** The request may be made, and the objects are in state `s`. */
  ghost predicate Starts(scheduler: Scheduler, kernel: TaskMemory, memory: array<int>, s: Snapshot, r: Request)
    reads scheduler, kernel, kernel.allocator, kernel.allocator.memory, kernel.allocator.memory.arr, memory
  {
    && Matches(scheduler, kernel, memory, s) && Asked(r) && 0 <= s.table.curr < |s.world.tasks|
    && Admissible(s.table, s.world.ram, s.world.tasks, r)
  }

  /** The request has been served with outcome `o`, and the objects are in state `s'`. */
  ghost predicate Ends(scheduler: Scheduler, kernel: TaskMemory, memory: array<int>, s: Snapshot, r: Request,
                       o: Outcome, s': Snapshot)
    reads scheduler, kernel, kernel.allocator, kernel.allocator.memory, kernel.allocator.memory.arr, memory
  {
    && Matches(scheduler, kernel, memory, s') && KernelSound(FramesOf(kernel.allocator), s)
    && Answered(FramesOf(kernel.allocator), s, r, o, s')
  }

  lemma Concluded(scheduler: Scheduler, kernel: TaskMemory, memory: array<int>, s: Snapshot, r: Request, o: Outcome,
                  s': Snapshot)
    requires kernel.Valid() && scheduler.enabled && s' == Look(scheduler, kernel, memory, s'.images)
    requires kernel.allocator.memory.Size() * PAGE_SIZE <= memory.Length
    requires memory as object != kernel.allocator.memory.arr as object && Asked(r)
    requires KernelSound(FramesOf(kernel.allocator), s) && Answered(FramesOf(kernel.allocator), s, r, o, s')
    ensures Ends(scheduler, kernel, memory, s, r, o, s')
  {
    ValidIsSound(kernel, memory);
    hide KernelSound, Answered, MemorySound, Good;
    StepSound(FramesOf(kernel.allocator), s, r, o, s');
  }

  /** What a request finds. */
  lemma AtStart(scheduler: Scheduler, kernel: TaskMemory, memory: array<int>, s: Snapshot, r: Request)
    requires Starts(scheduler, kernel, memory, s, r)
    ensures kernel.Valid() && scheduler.enabled && s == Look(scheduler, kernel, memory, s.images) && Asked(r)
    ensures kernel.allocator.memory.Size() * PAGE_SIZE <= memory.Length
    ensures memory as object != kernel.allocator.memory.arr as object
    ensures KernelSound(FramesOf(kernel.allocator), s) && ValidRam(kernel.ram)
    ensures 0 <= scheduler.currPid < |kernel.tasks| && Admissible(scheduler.View(), kernel.ram, kernel.tasks, r)
    ensures SchedulerRuns.Good(scheduler.View()) && Good(kernel.ram, kernel.owner, kernel.tasks, kernel.allocator.live,
                                                         kernel.allocator.memory.Size())
    ensures var u := CurrentSlot(kernel.tasks, scheduler.currPid);
            && 0 <= u < |kernel.tasks| && kernel.tasks[u].live
            && (Sharable(kernel.ram, kernel.tasks[u]) ==> Donor(kernel.ram, kernel.owner, kernel.tasks[u].cr3))
  {
    hide Good, Donor, SchedulerRuns.Good, Asked, AllRead, SameTable;
    CurrentSpace(FramesOf(kernel.allocator), s);
  }

  method ServeCreate(scheduler: Scheduler, kernel: TaskMemory, memory: array<int>, ghost s: Snapshot, hint: int,
                     loads: seq<Load>, blank: Task)
    returns (ok: bool, ghost o: Outcome, ghost s': Snapshot)
    requires Starts(scheduler, kernel, memory, s, Create(hint, loads, blank))
    modifies scheduler`tasks, kernel, kernel.allocator, kernel.allocator.memory.arr, memory
    ensures ok ==> Ends(scheduler, kernel, memory, s, Create(hint, loads, blank), o, s')
    ensures !ok ==> ValidRam(s.world.ram) && Fails(kernel, s, Create(hint, loads, blank))
  {
    hide Starts, Ends, KernelSound, Good, SchedulerRuns.Good, Answered, Donor, Sharable, Complete, Above, Compatible;
    AtStart(scheduler, kernel, memory, s, Create(hint, loads, blank));
    var slot := CurrentSlot(kernel.tasks, scheduler.currPid);
    var r, kernelStack := kernel.NewUserTask(memory, slot, hint, loads);
    o, s' := Skipped, s;
    if r.Aborted? {
      return false, o, s';
    }
    var pid := scheduler.Spawn(blank);
    o := NewTask(r.value, kernelStack);
    s' := Look(scheduler, kernel, memory, s.images[r.value := loads]);
    ValidIsSound(kernel, memory);
    CreateAnswered(FramesOf(kernel.allocator), s, hint, loads, blank, o, s');
    Concluded(scheduler, kernel, memory, s, Create(hint, loads, blank), o, s');
    ok := true;
  }

  lemma CreateAnswered(frames: Frames, s: Snapshot, hint: int, loads: seq<Load>, blank: Task, o: Outcome, s': Snapshot)
    requires KernelSound(frames, s) && Asked(Create(hint, loads, blank)) && MemorySound(frames, s'.world)
    requires 0 <= s.table.curr < |s.world.tasks| && ValidRam(s.world.ram)
    requires Admissible(s.table, s.world.ram, s.world.tasks, Create(hint, loads, blank))
    requires o.NewTask? && s'.table == Spawn(s.table, blank) && s'.images == s.images[o.pid := loads]
    requires var u := CurrentSlot(s.world.tasks, s.table.curr);
             && 0 <= u < |s.world.tasks|
             && Complete(s.world, s'.world, o.pid, s.world.tasks[u].cr3, loads, UserStack(), hint,
                         KernelStack(o.kernelStack))
    ensures Answered(frames, s, Create(hint, loads, blank), o, s')
  {
    hide KernelSound, MemorySound, Complete, Sharable;
    CreateSound(frames, s, s', o.pid, s.world.tasks[CurrentSlot(s.world.tasks, s.table.curr)].cr3, loads, hint,
                KernelStack(o.kernelStack), blank);
  }

  method ServeGrow(scheduler: Scheduler, kernel: TaskMemory, ghost memory: array<int>, ghost s: Snapshot, pid: int,
                   pages: int)
    returns (ok: bool, ghost o: Outcome, ghost s': Snapshot)
    requires Starts(scheduler, kernel, memory, s, Grow(pid, pages))
    modifies kernel, kernel.allocator, kernel.allocator.memory.arr
    ensures ok ==> Ends(scheduler, kernel, memory, s, Grow(pid, pages), o, s')
    ensures !ok ==> ValidRam(s.world.ram) && Fails(kernel, s, Grow(pid, pages))
  {
    hide Starts, Ends, KernelSound, Good, GoodBut, SchedulerRuns.Good, Answered, HasPages, OthersKeep, Grows,
      TranslatedOnly, Increased, Donor, Sharable, OnlyTask;
    AtStart(scheduler, kernel, memory, s, Grow(pid, pages));
    MayGrow(FramesOf(kernel.allocator), s, pid, pages);
    NoneExcepted(kernel.ram, kernel.owner, kernel.tasks, kernel.allocator.live, kernel.allocator.memory.Size(), pid);
    var r := kernel.Increase(pid, pages);
    o, s' := Skipped, s;
    if r.Aborted? {
      return false, o, s';
    }
    IsLive(kernel.ram, kernel.owner, kernel.tasks, kernel.allocator.live, kernel.allocator.memory.Size(), pid);
    NoneExcepted(kernel.ram, kernel.owner, kernel.tasks, kernel.allocator.live, kernel.allocator.memory.Size(), pid);
    o := Address(r.value);
    s' := Look(scheduler, kernel, memory, s.images);
    GrowAnswered(FramesOf(kernel.allocator), s, pid, pages, o, s');
    Concluded(scheduler, kernel, memory, s, Grow(pid, pages), o, s');
    ok := true;
  }

  lemma MayGrow(frames: Frames, s: Snapshot, pid: int, pages: int)
    requires KernelSound(frames, s) && Asked(Grow(pid, pages)) && 0 <= s.table.curr < |s.world.tasks|
    requires ValidRam(s.world.ram) && Admissible(s.table, s.world.ram, s.world.tasks, Grow(pid, pages))
    ensures 0 < pid < |s.world.tasks| && s.world.tasks[pid].live && 0 <= pages && 0 <= s.world.tasks[pid].end
    ensures s.world.tasks[pid].end + pages * PAGE_SIZE <= WINDOW * PAGE_SIZE
  {
  }

  lemma GrowAnswered(frames: Frames, s: Snapshot, pid: int, pages: int, o: Outcome, s': Snapshot)
    requires KernelSound(frames, s) && Asked(Grow(pid, pages)) && 0 <= s.table.curr < |s.world.tasks|
    requires ValidRam(s.world.ram) && Admissible(s.table, s.world.ram, s.world.tasks, Grow(pid, pages))
    requires s'.table == s.table && s'.images == s.images && s'.world.bytes == s.world.bytes
    requires OnlyTask(s.world.tasks, s'.world.tasks, pid) && s'.world.tasks[pid].used && s'.world.tasks[pid].live
    requires OthersKeep(s.world.ram, s'.world.ram, s.world.tasks, pid) && Grows(s.world.owner, s'.world.owner, pid)
    requires var task, task' := s.world.tasks[pid], s'.world.tasks[pid];
             && o == Address(if pages == 0 then 0 else task.end)
             && task'.cr3 == task.cr3 && task'.end == task.end + pages * PAGE_SIZE
             && TranslatedOnly(s.world.ram, s'.world.ram, task.cr3, PageOfAddress(task.end), pages)
             && (Aligned(task.end) && task.end != 0 ==>
                   HasPages(s'.world.ram, s'.world.owner, pid, task.cr3, PageOfAddress(task.end), pages, WRITE))
    ensures Answered(frames, s, Grow(pid, pages), o, s')
  {
    hide KernelSound, OthersKeep, Grows, TranslatedOnly, HasPages;
  }

  method ServeReserve(scheduler: Scheduler, kernel: TaskMemory, ghost memory: array<int>, ghost s: Snapshot, pages: int)
    returns (ok: bool, ghost o: Outcome, ghost s': Snapshot)
    requires Starts(scheduler, kernel, memory, s, Reserve(pages))
    modifies kernel`owner, kernel.allocator, kernel.allocator.memory.arr
    ensures ok ==> Ends(scheduler, kernel, memory, s, Reserve(pages), o, s')
    ensures !ok ==> ValidRam(s.world.ram) && Fails(kernel, s, Reserve(pages))
  {
    hide Starts, Ends, KernelSound, Good, SchedulerRuns.Good, Answered, Grant, FirstFrames, NoFreeFrames, Donor,
      Sharable;
    AtStart(scheduler, kernel, memory, s, Reserve(pages));
    ghost var frames := FramesOf(kernel.allocator);
    ReserveSearch(kernel, pages);
    var r := kernel.KernelTake(pages);
    o, s' := Skipped, s;
    if r.Aborted? {
      return false, o, s';
    }
    o := Address(r.value);
    s' := Look(scheduler, kernel, memory, s.images);
    if r.value == 0 { NoRunIsFree(kernel, pages); }
    ReserveAnswered(frames, s, pages, o, s');
    Concluded(scheduler, kernel, memory, s, Reserve(pages), o, s');
    ok := true;
  }

  /** What the search finds first is first in the sense of the snapshots. */
  lemma ReserveSearch(kernel: TaskMemory, pages: int)
    requires kernel.Valid()
    ensures forall first {:trigger kernel.allocator.FirstRun(first, pages)} ::
              kernel.allocator.FirstRun(first, pages) ==>
                FirstFrames(FramesOf(kernel.allocator), kernel.owner, first, pages)
  {
    forall first | kernel.allocator.FirstRun(first, pages)
      ensures FirstFrames(FramesOf(kernel.allocator), kernel.owner, first, pages)
    {
      FirstRunIsFree(kernel, first, pages);
    }
  }

  lemma ReserveAnswered(frames: Frames, s: Snapshot, pages: int, o: Outcome, s': Snapshot)
    requires KernelSound(frames, s) && Asked(Reserve(pages)) && s'.table == s.table && s'.images == s.images
    requires o.Address? && s'.world == s.world.(owner := s'.world.owner)
    requires o.value == 0 ==> s'.world.owner == s.world.owner && NoFreeFrames(frames, s.world.owner, pages)
    requires o.value != 0 ==>
               && Aligned(o.value) && FirstFrames(frames, s.world.owner, o.value / PAGE_SIZE, pages)
               && s'.world.owner == Grant(s.world.owner, o.value / PAGE_SIZE, pages, KERNEL)
    ensures Answered(frames, s, Reserve(pages), o, s')
  {
    CurrentSpace(frames, s);
  }

  method ServeMap(scheduler: Scheduler, kernel: TaskMemory, ghost memory: array<int>, ghost s: Snapshot, address: int,
                  physical: int, flags: int)
    returns (ok: bool, ghost o: Outcome, ghost s': Snapshot)
    requires Starts(scheduler, kernel, memory, s, MapPage(address, physical, flags))
    modifies kernel`ram, kernel`owner, kernel.allocator, kernel.allocator.memory.arr
    ensures ok ==> Ends(scheduler, kernel, memory, s, MapPage(address, physical, flags), o, s')
    ensures !ok ==> ValidRam(s.world.ram) && Fails(kernel, s, MapPage(address, physical, flags))
  {
    hide Starts, Ends, KernelSound, Good, SchedulerRuns.Good, Answered, KernelMapped, Donor, Sharable, Walk, MakeEntry;
    AtStart(scheduler, kernel, memory, s, MapPage(address, physical, flags));
    var slot := CurrentSlot(kernel.tasks, scheduler.currPid);
    var r := kernel.KernelMap(slot, address, physical, flags);
    o, s' := Skipped, s;
    if r.Aborted? {
      return false, o, s';
    }
    o := if r.value then Done else Refused;
    s' := Look(scheduler, kernel, memory, s.images);
    MapAnswered(FramesOf(kernel.allocator), s, address, physical, flags, o, s');
    Concluded(scheduler, kernel, memory, s, MapPage(address, physical, flags), o, s');
    ok := true;
  }

  lemma MapAnswered(frames: Frames, s: Snapshot, address: int, physical: int, flags: int, o: Outcome, s': Snapshot)
    requires KernelSound(frames, s) && Asked(MapPage(address, physical, flags)) && IsPage(PageOfAddress(address))
    requires Remapped(s, s') && 0 <= s.table.curr < |s.world.tasks| && ValidRam(s.world.ram)
    requires var w, u, page := s.world, CurrentSlot(s.world.tasks, s.table.curr), PageOfAddress(address);
             && 0 <= u < |w.tasks|
             && o == (if Aligned(address) && Walk(w.ram, w.tasks[u].cr3, page) == None then Done else Refused)
             && (o == Refused ==> s'.world.ram == w.ram && s'.world.owner == w.owner)
             && (o == Done ==> KernelMapped(w.ram, w.owner, w.tasks, s'.world.ram, s'.world.owner, u, page,
                                            MakeEntry(physical, WithPresent(flags))))
    ensures Answered(frames, s, MapPage(address, physical, flags), o, s')
  {
    hide KernelSound, KernelMapped, Walk;
  }

  method ServeUnmap(scheduler: Scheduler, kernel: TaskMemory, ghost memory: array<int>, ghost s: Snapshot,
                    address: int)
    returns (ghost o: Outcome, ghost s': Snapshot)
    requires Starts(scheduler, kernel, memory, s, UnmapPage(address))
    modifies kernel`ram
    ensures Ends(scheduler, kernel, memory, s, UnmapPage(address), o, s')
  {
    hide Starts, Ends, KernelSound, Good, SchedulerRuns.Good, Answered, KernelUnmapped, Donor, Sharable, Walk,
      Recording, FrameAt, OfTask;
    AtStart(scheduler, kernel, memory, s, UnmapPage(address));
    var slot := CurrentSlot(kernel.tasks, scheduler.currPid);
    RecordsAreExact(kernel.ram, kernel.owner, kernel.tasks, kernel.allocator.live, kernel.allocator.memory.Size(),
                    FrameAt(kernel.ram, kernel.tasks[slot].cr3, PageOfAddress(address)));
    var r := kernel.KernelUnmap(slot, address);
    o := if r then Done else Refused;
    s' := Look(scheduler, kernel, memory, s.images);
    UnmapAnswered(FramesOf(kernel.allocator), s, address, o, s');
    Concluded(scheduler, kernel, memory, s, UnmapPage(address), o, s');
  }

  lemma UnmapAnswered(frames: Frames, s: Snapshot, address: int, o: Outcome, s': Snapshot)
    requires KernelSound(frames, s) && Asked(UnmapPage(address)) && IsPage(PageOfAddress(address))
    requires Remapped(s, s') && s'.world.owner == s.world.owner
    requires 0 <= s.table.curr < |s.world.tasks| && ValidRam(s.world.ram)
    requires Admissible(s.table, s.world.ram, s.world.tasks, UnmapPage(address))
    requires var w, u, page := s.world, CurrentSlot(s.world.tasks, s.table.curr), PageOfAddress(address);
             && 0 <= u < |w.tasks|
             && o == (if Aligned(address) && Walk(w.ram, w.tasks[u].cr3, page).Some? then Done else Refused)
             && (o == Refused ==> s'.world.ram == w.ram)
             && (o == Done ==> KernelUnmapped(w.ram, w.tasks, s'.world.ram, u, page))
    ensures Answered(frames, s, UnmapPage(address), o, s')
  {
    hide KernelSound, KernelUnmapped, Walk, Recording;
  }

  // ----- the scheduler's calls -----

  /** newKernelTask. */
  method ServeSpawn(scheduler: Scheduler, kernel: TaskMemory, ghost memory: array<int>, ghost s: Snapshot, blank: Task)
    returns (ghost o: Outcome, ghost s': Snapshot)
    requires Starts(scheduler, kernel, memory, s, Call(SchedulerRuns.OnSpawn(blank)))
    modifies scheduler`tasks, kernel`tasks
    ensures Ends(scheduler, kernel, memory, s, Call(SchedulerRuns.OnSpawn(blank)), o, s')
  {
    hide Starts, Ends, KernelSound, Good, SchedulerRuns.Good, Answered, KernelTaskAdded, FirstUnused;
    AtStart(scheduler, kernel, memory, s, Call(SchedulerRuns.OnSpawn(blank)));
    var t := kernel.NewKernelTask();
    var pid := scheduler.Spawn(blank);
    o, s' := Done, Look(scheduler, kernel, memory, s.images);
    SpawnAnswered(FramesOf(kernel.allocator), s, blank, t, s');
    Concluded(scheduler, kernel, memory, s, Call(SchedulerRuns.OnSpawn(blank)), o, s');
  }

  lemma SpawnAnswered(frames: Frames, s: Snapshot, blank: Task, t: int, s': Snapshot)
    requires KernelSound(frames, s) && Callable(s.table, SchedulerRuns.OnSpawn(blank))
    requires FirstUnused(s.world.tasks, t) && KernelTaskAdded(s.world.tasks, s'.world.tasks, t)
    requires s'.table == Spawn(s.table, blank) && s'.images == s.images
    requires s'.world == s.world.(tasks := s'.world.tasks)
    ensures Answered(frames, s, Call(SchedulerRuns.OnSpawn(blank)), Done, s')
  {
    HoldersSound(frames, s);
    CurrentSpace(frames, s);
    hide KernelSound, SchedulerRuns.Good;
    SpawnAgrees(s.table, blank, s.world.tasks, s'.world.tasks, t);
  }

  /** The cleaner wakes and goes over the table. */
  method ServeClean(scheduler: Scheduler, kernel: TaskMemory, ghost memory: array<int>, ghost s: Snapshot)
    returns (ghost o: Outcome, ghost s': Snapshot)
    requires Starts(scheduler, kernel, memory, s, Call(SchedulerRuns.OnClean))
    modifies scheduler`tasks, kernel, kernel.allocator, kernel.allocator.memory.arr
    ensures Ends(scheduler, kernel, memory, s, Call(SchedulerRuns.OnClean), o, s')
  {
    hide Starts, Ends, KernelSound, Good, SchedulerRuns.Good, Answered, Passed, SameTable, KernelDirectories;
    AtStart(scheduler, kernel, memory, s, Call(SchedulerRuns.OnClean));
    HoldersSound(FramesOf(kernel.allocator), s);
    Pass(scheduler, kernel);
    o, s' := Done, Look(scheduler, kernel, memory, Outliving(s.images, s.table.tasks));
    CleanAnswered(FramesOf(kernel.allocator), s, s');
    Concluded(scheduler, kernel, memory, s, Call(SchedulerRuns.OnClean), o, s');
  }

  lemma CleanAnswered(frames: Frames, s: Snapshot, s': Snapshot)
    requires KernelSound(frames, s) && s'.table == Clean(s.table) && s'.world.bytes == s.world.bytes
    requires s'.images == Outliving(s.images, s.table.tasks)
    requires Passed(s.world.ram, s.world.owner, s.table.tasks, s.world.tasks, s'.world.ram, s'.world.owner,
                    s'.table.tasks, s'.world.tasks, |s'.table.tasks|)
    ensures Answered(frames, s, Call(SchedulerRuns.OnClean), Done, s')
  {
    HoldersSound(frames, s);
    CurrentSpace(frames, s);
    hide KernelSound, SchedulerRuns.Good, Passed;
  }

  /** What concerns the table alone. */
  method ServeCall(scheduler: Scheduler, kernel: TaskMemory, ghost memory: array<int>, ghost s: Snapshot,
                   e: SchedulerRuns.Event)
    returns (ok: bool, ghost o: Outcome, ghost s': Snapshot)
    requires Starts(scheduler, kernel, memory, s, Call(e)) && !e.OnSpawn? && !e.OnClean?
    modifies scheduler`tasks, scheduler`currPid, scheduler`ticks
    ensures ok ==> Ends(scheduler, kernel, memory, s, Call(e), o, s')
    ensures !ok ==> ValidRam(s.world.ram) && Fails(kernel, s, Call(e))
  {
    hide Starts, Ends, KernelSound, Good, SchedulerRuns.Good, Answered, Waitable;
    AtStart(scheduler, kernel, memory, s, Call(e));
    CallIsLegal(FramesOf(kernel.allocator), s, e);
    o, s' := Skipped, s;
    match e {
      case OnTick => scheduler.Tick();
      case OnBlock(pid) => scheduler.Block(pid);
      case OnSleep(pid, ms) => scheduler.Sleep(pid, ms);
      case OnUnblock(pid) => scheduler.Unblock(pid);
      case OnKill(pid) => scheduler.Kill(pid);
      case OnWait(pid, child) =>
        var r := scheduler.Wait(child);
        if r.Aborted? {
          return false, o, s';
        }
    }
    o, s' := Done, Look(scheduler, kernel, memory, s.images);
    CallAnswered(FramesOf(kernel.allocator), s, e, s');
    Concluded(scheduler, kernel, memory, s, Call(e), o, s');
    ok := true;
  }

  lemma CallIsLegal(frames: Frames, s: Snapshot, e: SchedulerRuns.Event)
    requires KernelSound(frames, s) && Callable(s.table, e)
    ensures (e.OnWait? ==> Waitable(s.table, e.child)) <==> SchedulerRuns.Legal(s.table, e)
    ensures SchedulerRuns.Settling(s.table) && SchedulerRuns.Good(s.table)
  {
  }

  lemma CallAnswered(frames: Frames, s: Snapshot, e: SchedulerRuns.Event, s': Snapshot)
    requires KernelSound(frames, s) && Callable(s.table, e) && !e.OnSpawn? && !e.OnClean?
    requires SchedulerRuns.Good(s.table) && SchedulerRuns.Legal(s.table, e)
    requires s'.table == SchedulerRuns.Step(s.table, e) && s'.world == s.world && s'.images == s.images
    ensures Answered(frames, s, Call(e), Done, s')
  {
    CurrentSpace(frames, s);
    hide KernelSound, SchedulerRuns.Good;
  }

  // ----- runs -----

  /** One request, whatever it is. */
  method Answer(scheduler: Scheduler, kernel: TaskMemory, memory: array<int>, ghost s: Snapshot, r: Request)
    returns (ok: bool, ghost o: Outcome, ghost s': Snapshot)
    requires Matches(scheduler, kernel, memory, s) && Asked(r)
    modifies scheduler`tasks, scheduler`currPid, scheduler`ticks
    modifies kernel, kernel.allocator, kernel.allocator.memory.arr, memory
    ensures ok ==> Ends(scheduler, kernel, memory, s, r, o, s')
    ensures !ok ==> ValidRam(s.world.ram) && Fails(kernel, s, r)
  {
    InPlace(scheduler, kernel, memory, s);
    hide Matches, Ends, Admissible, Asked, Answered, Fails;
    ok, o, s' := true, Skipped, s;
    if !Admissible(scheduler.View(), kernel.ram, kernel.tasks, r) {
      PassedOver(scheduler, kernel, memory, s, r);
      return;
    }
    match r {
      case Create(hint, loads, blank) =>
        ok, o, s' := ServeCreate(scheduler, kernel, memory, s, hint, loads, blank);
      case Grow(pid, pages) => ok, o, s' := ServeGrow(scheduler, kernel, memory, s, pid, pages);
      case Reserve(pages) => ok, o, s' := ServeReserve(scheduler, kernel, memory, s, pages);
      case MapPage(address, physical, flags) =>
        ok, o, s' := ServeMap(scheduler, kernel, memory, s, address, physical, flags);
      case UnmapPage(address) => o, s' := ServeUnmap(scheduler, kernel, memory, s, address);
      case Call(e) =>
        if e.OnSpawn? {
          o, s' := ServeSpawn(scheduler, kernel, memory, s, e.blank);
        } else if e.OnClean? {
          o, s' := ServeClean(scheduler, kernel, memory, s);
        } else {
          ok, o, s' := ServeCall(scheduler, kernel, memory, s, e);
        }
    }
  }

  lemma InPlace(scheduler: Scheduler, kernel: TaskMemory, memory: array<int>, s: Snapshot)
    requires Matches(scheduler, kernel, memory, s)
    ensures 0 <= scheduler.currPid < |kernel.tasks| && ValidRam(kernel.ram)
    ensures scheduler.View() == s.table && kernel.Seen(memory) == s.world
  {
    CurrentSpace(FramesOf(kernel.allocator), s);
  }

  lemma PassedOver(scheduler: Scheduler, kernel: TaskMemory, memory: array<int>, s: Snapshot, r: Request)
    requires Matches(scheduler, kernel, memory, s) && 0 <= s.table.curr < |s.world.tasks| && ValidRam(s.world.ram)
    requires Asked(r) && !Admissible(s.table, s.world.ram, s.world.tasks, r)
    ensures Ends(scheduler, kernel, memory, s, r, Skipped, s)
  {
    hide KernelSound, Admissible, Good;
  }

  /** Each state of a run is sound, and each but the first answers the next request. */
  ghost predicate IsRun(frames: Frames, trace: seq<Snapshot>, requests: seq<Request>, outcomes: seq<Outcome>) {
    && |trace| == |outcomes| + 1 && |outcomes| <= |requests|
    && (forall k {:trigger trace[k]} :: 0 <= k < |trace| ==> KernelSound(frames, trace[k]))
    && (forall k {:trigger requests[k]} :: 0 <= k < |requests| ==> Asked(requests[k]))
    && forall k {:trigger outcomes[k]} :: 0 <= k < |outcomes| ==>
         Answered(frames, trace[k], requests[k], outcomes[k], trace[k + 1])
  }

  lemma RunGoesOn(frames: Frames, trace: seq<Snapshot>, requests: seq<Request>, outcomes: seq<Outcome>, o: Outcome,
                  s: Snapshot)
    requires IsRun(frames, trace, requests, outcomes) && |outcomes| < |requests| && KernelSound(frames, s)
    requires KernelSound(frames, trace[|outcomes|])
             && Answered(frames, trace[|outcomes|], requests[|outcomes|], o, s)
    ensures IsRun(frames, trace + [s], requests, outcomes + [o])
  {
    hide KernelSound, Answered;
    var trace', outcomes' := trace + [s], outcomes + [o];
    forall k | 0 <= k < |trace'| ensures KernelSound(frames, trace'[k]) {
      assert k < |trace| ==> trace'[k] == trace[k];
    }
    forall k | 0 <= k < |outcomes'| ensures Answered(frames, trace'[k], requests[k], outcomes'[k], trace'[k + 1]) {
      assert k < |outcomes| ==> outcomes'[k] == outcomes[k] && trace'[k + 1] == trace[k + 1];
    }
  }

  /** Requests are served in order. Each outcome and each state is what the request asks for; wherever the run gets,
      one task is RUNNING, every frame handed out has one holder, and each living task reads the image it was created
      with. A run that stops early has met a panic, for one of the reasons there are. */
  method Serve(scheduler: Scheduler, kernel: TaskMemory, memory: array<int>, requests: seq<Request>, ghost s: Snapshot)
    returns (ok: bool, ghost outcomes: seq<Outcome>, ghost trace: seq<Snapshot>)
    requires Matches(scheduler, kernel, memory, s) && forall k :: 0 <= k < |requests| ==> Asked(requests[k])
    modifies scheduler`tasks, scheduler`currPid, scheduler`ticks
    modifies kernel, kernel.allocator, kernel.allocator.memory.arr, memory
    ensures IsRun(FramesOf(kernel.allocator), trace, requests, outcomes) && trace[0] == s
    ensures ok ==> |outcomes| == |requests| && Matches(scheduler, kernel, memory, trace[|requests|])
    ensures !ok ==> |outcomes| < |requests| && ValidRam(trace[|outcomes|].world.ram)
    ensures !ok ==> Fails(kernel, trace[|outcomes|], requests[|outcomes|])
  {
    trace, outcomes := [s], [];
    ghost var frames := FramesOf(kernel.allocator);
    assert IsRun(frames, trace, requests, outcomes);
    hide Matches, Asked, Fails, KernelSound, Answered, IsRun;
    var i := 0;
    while i < |requests|
      invariant 0 <= i <= |requests| && |outcomes| == i && |trace| == i + 1 && trace[0] == s
      invariant IsRun(frames, trace, requests, outcomes) && Matches(scheduler, kernel, memory, trace[i])
    {
      ghost var o, s';
      ok, o, s' := Answer(scheduler, kernel, memory, trace[i], requests[i]);
      if !ok {
        return;
      }
      RunExtended(scheduler, kernel, memory, trace, requests, outcomes, o, s');
      outcomes, trace := outcomes + [o], trace + [s'];
      i := i + 1;
    }
    ok := true;
  }

  lemma RunExtended(scheduler: Scheduler, kernel: TaskMemory, memory: array<int>, trace: seq<Snapshot>,
                 requests: seq<Request>, outcomes: seq<Outcome>, o: Outcome, s: Snapshot)
    requires IsRun(FramesOf(kernel.allocator), trace, requests, outcomes) && |outcomes| < |requests|
    requires |trace| == |outcomes| + 1 && Ends(scheduler, kernel, memory, trace[|outcomes|], requests[|outcomes|], o, s)
    ensures IsRun(FramesOf(kernel.allocator), trace + [s], requests, outcomes + [o])
    ensures Matches(scheduler, kernel, memory, s)
  {
    hide IsRun, Answered, KernelSound;
    RunGoesOn(FramesOf(kernel.allocator), trace, requests, outcomes, o, s);
  }

  /** The kernel as it is when the idle task first runs. */
  method Boot(allocator: PhysicalAllocator, contents: Ram, directory: int, memory: array<int>)
    returns (scheduler: Scheduler, kernel: TaskMemory, ghost s: Snapshot)
    requires allocator.Valid() && ValidRam(contents)
    requires forall f {:trigger f in contents} :: 0 <= f < allocator.memory.Size() ==> f in contents
    requires Directory(contents, directory) && directory in allocator.live
    requires forall i {:trigger HasTable(contents, directory, i)} ::
               0 <= i < SELF && HasTable(contents, directory, i) ==> TableOf(contents, directory, i) in allocator.live
    requires allocator.memory.Size() * PAGE_SIZE <= memory.Length
    requires memory as object != allocator.memory.arr as object
    ensures fresh(scheduler) && fresh(kernel) && kernel.allocator == allocator
    ensures Matches(scheduler, kernel, memory, s) && s.images == map[] && s.world.ram == contents
  {
    hide Good, MemorySound, Directory, KernelSound, AllRead, SchedulerRuns.Good;
    scheduler := new Scheduler();
    scheduler.Enable();
    kernel := new TaskMemory(allocator, contents, directory);
    s := Look(scheduler, kernel, memory, map[]);
    ValidIsSound(kernel, memory);
    FirstIsSound(FramesOf(kernel.allocator), s);
  }

  lemma FirstIsSound(frames: Frames, s: Snapshot)
    requires SchedulerRuns.Good(s.table) && s.table.idle == 0 && |s.table.tasks| == |s.world.tasks| == 3
    requires forall i :: 0 <= i < 3 ==> s.table.tasks[i].state == RUNNING || s.table.tasks[i].state == READY
    requires forall i :: 0 <= i < 3 ==>
               && s.world.tasks[i].used && s.world.tasks[i].cr3 == s.world.tasks[0].cr3
               && (s.world.tasks[i].live <==> i == 0)
    requires MemorySound(frames, s.world) && ValidRam(s.world.ram) && s.images == map[]
    ensures KernelSound(frames, s)
  {
    hide MemorySound, SchedulerRuns.Good;
  }
}
