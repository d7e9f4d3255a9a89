/** The kernel as a whole: the task table of the scheduler together with the memory of all tasks, what may be asked
    of it, and what each request makes of it. */
module KernelSteps {
  import opened Cleaner
  import opened Loader
  import opened PageTables
  import opened TaskLedger
  import opened TaskMemory
  import opened TaskSpace
  import opened TaskTable
  import MemoryMap
  import PhysicalAllocator
  import SchedulerRuns

  /** `images` holds what each living user task was created with. */
  datatype Snapshot = Snapshot(table: Table, world: World, images: map<int, seq<Load>>)

  /** What the frame allocator started with: the frames there are, those of the kernel image, and the holes. */
  datatype Frames = Frames(size: int, kernelPages: int, holes: seq<MemoryMap.Region>)

  ghost predicate Withheld(frames: Frames, f: int) {
    0 <= f < frames.kernelPages || PhysicalAllocator.InHole(frames.holes, f)
  }

  /** `n` frames from `first` on that nobody holds and anybody may have. */
  ghost predicate FreeFrames(frames: Frames, owner: Owners, first: int, n: int) {
    forall f :: first <= f < first + n ==> f !in owner && !Withheld(frames, f)
  }

  /** The first such run that the search accepts. */
  ghost predicate FirstFrames(frames: Frames, owner: Owners, first: int, n: int) {
    && 0 < first && first + n < frames.size && FreeFrames(frames, owner, first, n)
    && forall i {:trigger FreeFrames(frames, owner, i, n)} :: 0 <= i < first ==> !FreeFrames(frames, owner, i, n)
  }

  ghost predicate NoFreeFrames(frames: Frames, owner: Owners, n: int) {
    forall i {:trigger FreeFrames(frames, owner, i, n)} :: 0 <= i && i + n < frames.size ==>
      !FreeFrames(frames, owner, i, n)
  }

  // ----- requests -----

  /** What is asked of the kernel, on behalf of the current task: to create a user task, with a search for its
      kernel stack from `hint` on; to let a task grow; to take frames for the kernel itself; to map or unmap a page
      in the current address space; or one of the scheduler's calls, of which OnSpawn creates a kernel task. */
  datatype Request =
    | Create(hint: int, loads: seq<Load>, blank: Task)
    | Grow(pid: int, pages: int)
    | Reserve(pages: int)
    | MapPage(address: int, physical: int, flags: int)
    | UnmapPage(address: int)
    | Call(event: SchedulerRuns.Event)

  /** Skipped is a request that nobody may make now; Refused is an answer, false, that changes nothing. */
  datatype Outcome = NewTask(pid: int, kernelStack: int) | Address(value: int) | Done | Refused | Skipped

  predicate Asked(r: Request) {
    match r
    case Create(hint, loads, blank) =>
      && 0 <= hint && Aligned(hint) && (forall k :: 0 <= k < |loads| ==> Loadable(loads[k]))
      && 0 <= blank.timeout < WORD
    case Grow(_, pages) => 0 <= pages
    case Reserve(pages) => 0 < pages
    case MapPage(address, physical, flags) =>
      0 <= address && PageOfAddress(address) < WINDOW && 0 <= physical && 0 <= flags < PAGE_SIZE
    case UnmapPage(address) => 0 <= address && PageOfAddress(address) < WINDOW
    case Call(_) => true
  }

  /** The slot that stands for the current address space: kernel tasks run in the kernel's own. */
  function CurrentSlot(tasks: seq<UserTask>, curr: int): int
    requires 0 <= curr < |tasks|
  {
    if tasks[curr].live then curr else 0
  }

  /** None of the tables that the task has in the kernel's part is in its own record. */
  predicate Sharable(ram: Ram, task: UserTask)
    requires ValidRam(ram)
  {
    task.cr3 in ram && forall i :: 0 <= i < KERNEL_TABLES && HasTable(ram, task.cr3, i) ==>
      !InSome(task.segments, TableOf(ram, task.cr3, i))
  }

  predicate IsMapped(ram: Ram, cr3: int, page: int)
    requires ValidRam(ram)
  {
    IsPage(page) && Walk(ram, cr3, page).Some?
  }

  predicate Alive(s: Table, pid: int) {
    0 <= pid < |s.tasks| && SchedulerRuns.Live(s, pid)
  }

  /** Calls that name tasks of the table which are not dead; only kernel tasks that never end are not killed. */
  predicate Callable(s: Table, e: SchedulerRuns.Event) {
    match e
    case OnTick => true
    case OnClean => true
    case OnBlock(pid) => Alive(s, pid)
    case OnSleep(pid, ms) => Alive(s, pid) && 0 <= ms < WORD
    case OnUnblock(pid) => 0 <= pid < |s.tasks|
    case OnKill(pid) => Alive(s, pid) && pid != s.idle && pid != s.cleaner
    case OnWait(pid, child) => pid == s.curr && child < |s.tasks|
    case OnSpawn(blank) => 0 <= blank.timeout < WORD
  }

  /** A task is created only where the current directory may be copied; only a task that holds memory grows, below
      the window; and only pages that map no frame of a task are unmapped. */
  predicate Admissible(table: Table, ram: Ram, tasks: seq<UserTask>, r: Request)
    requires 0 <= table.curr < |tasks| && ValidRam(ram)
  {
    match r
    case Create(_, _, _) => Sharable(ram, tasks[CurrentSlot(tasks, table.curr)])
    case Grow(pid, pages) =>
      0 < pid < |tasks| && tasks[pid].live && tasks[pid].end + pages * PAGE_SIZE <= WINDOW * PAGE_SIZE
    case Reserve(_) => true
    case MapPage(_, _, _) => true
    case UnmapPage(address) =>
      !Recording(tasks, FrameAt(ram, tasks[CurrentSlot(tasks, table.curr)].cr3, PageOfAddress(address)))
    case Call(e) => Callable(table, e)
  }

  // ----- what holds between requests -----

  /** Exactly the user tasks that hold memory have an image, and each of them reads it. */
  ghost predicate AllRead(w: World, images: map<int, seq<Load>>) {
    && ValidRam(w.ram)
    && (forall u {:trigger u in images} :: u in images <==> 0 < u < |w.tasks| && w.tasks[u].live)
    && forall u {:trigger images[u]} :: u in images ==>
         AllLoaded(w.bytes, w.ram, w.owner, u, w.tasks[u].cr3, images[u], |images[u]|)
  }

  ghost predicate EndsRight(tasks: seq<UserTask>) {
    forall u {:trigger tasks[u]} :: 0 < u < |tasks| && tasks[u].live ==> 0 <= tasks[u].end
  }

  /** Every frame handed out has one holder, and none of them is withheld. */
  ghost predicate MemorySound(frames: Frames, w: World) {
    && Good(w.ram, w.owner, w.tasks, w.owner.Keys, frames.size)
    && forall f {:trigger f in w.owner} :: f in w.owner ==> 0 <= f < frames.size && !Withheld(frames, f)
  }

  /** One task is RUNNING, memory is as it should be, both tables agree, and each living user task reads its image. */
  ghost predicate KernelSound(frames: Frames, s: Snapshot) {
    && SchedulerRuns.Good(s.table) && s.table.idle == 0 && MemorySound(frames, s.world)
    && SameTable(s.table.tasks, s.world.tasks) && KernelDirectories(s.world.tasks) && EndsRight(s.world.tasks)
    && AllRead(s.world, s.images)
  }

  /** The current task runs, by the directory of its space, which may be copied if and only if its record says so. */
  lemma CurrentSpace(frames: Frames, s: Snapshot)
    requires KernelSound(frames, s)
    ensures ValidRam(s.world.ram) && 0 <= s.table.curr < |s.world.tasks|
    ensures var u := CurrentSlot(s.world.tasks, s.table.curr);
            && 0 <= u < |s.world.tasks| && s.world.tasks[u].live
            && s.world.tasks[u].cr3 == s.world.tasks[s.table.curr].cr3 && s.world.tasks[u].cr3 in s.world.ram
            && (Sharable(s.world.ram, s.world.tasks[u]) <==> Donor(s.world.ram, s.world.owner, s.world.tasks[u].cr3))
  {
    var w := s.world;
    GoodIsLedger(w.ram, w.owner, w.tasks, w.owner.Keys, frames.size);
    assert SchedulerRuns.Good(s.table) && ValidTask(s.table, s.table.curr);
    assert s.table.tasks[s.table.curr].state == RUNNING && w.tasks[s.table.curr].used;
    var u := CurrentSlot(w.tasks, s.table.curr);
    hide SchedulerRuns.Good, AllRead, Donor;
    SharableIsDonor(w, frames.size, u);
  }

  lemma SharableIsDonor(w: World, size: int, u: int)
    requires Good(w.ram, w.owner, w.tasks, w.owner.Keys, size) && 0 <= u < |w.tasks| && w.tasks[u].live
    ensures ValidRam(w.ram) && w.tasks[u].cr3 in w.ram
    ensures Sharable(w.ram, w.tasks[u]) <==> Donor(w.ram, w.owner, w.tasks[u].cr3)
  {
    TaskIsDonor(w.ram, w.owner, w.tasks, w.owner.Keys, size, u);
    assert TaskGood(w.ram, w.owner, u, w.tasks[u], 0, -1);
    hide Donor, Ledger, OthersGood, MappedFrom;
    var cr3 := w.tasks[u].cr3;
    forall i | 0 <= i < KERNEL_TABLES && HasTable(w.ram, cr3, i)
      ensures InSome(w.tasks[u].segments, TableOf(w.ram, cr3, i)) <==> Owned(w.owner, TableOf(w.ram, cr3, i), u)
    {
      var f := TableOf(w.ram, cr3, i);
      if InSome(w.tasks[u].segments, f) {
        var k :| 0 <= k < |w.tasks[u].segments| && InSegment(w.tasks[u].segments[k], f);
        assert Owned(w.owner, f, u);
      }
    }
  }

  // ----- what a request does -----

  /** Task `t` has grown at its end, by pages of its own. */
  ghost predicate Increased(w: World, w': World, t: int, pages: int) {
    && 0 < t < |w.tasks| && OnlyTask(w.tasks, w'.tasks, t) && w'.bytes == w.bytes
    && (var task, task' := w.tasks[t], w'.tasks[t];
        && task'.used && task'.live && task'.cr3 == task.cr3 && task'.end == task.end + pages * PAGE_SIZE
        && TranslatedOnly(w.ram, w'.ram, task.cr3, PageOfAddress(task.end), pages)
        && (Aligned(task.end) && task.end != 0 ==>
              HasPages(w'.ram, w'.owner, t, task.cr3, PageOfAddress(task.end), pages, WRITE)))
    && OthersKeep(w.ram, w'.ram, w.tasks, t) && Grows(w.owner, w'.owner, t)
  }

  /** The kernel has taken the first run of frames nobody held; or there was none, and nothing is taken. */
  ghost predicate Reserved(frames: Frames, w: World, w': World, pages: int, address: int) {
    if address == 0 then w' == w && NoFreeFrames(frames, w.owner, pages)
    else
      && Aligned(address) && FirstFrames(frames, w.owner, address / PAGE_SIZE, pages)
      && 0 <= pages && w' == w.(owner := Grant(w.owner, address / PAGE_SIZE, pages, KERNEL))
  }

  /** Pages and holders changed, nothing else did. */
  ghost predicate Remapped(s: Snapshot, s': Snapshot) {
    s' == s.(world := s.world.(ram := s'.world.ram, owner := s'.world.owner))
  }

  /** The images of the tasks that outlive a pass of the cleaner. */
  ghost function Outliving(images: map<int, seq<Load>>, states: seq<Task>): map<int, seq<Load>> {
    map u | u in images && !Dead(states, |states|, u) :: images[u]
  }

  /** One of the scheduler's calls: the table is what the call makes of it, and memory is concerned only by the
      creation of a kernel task and by the cleaner. */
  ghost predicate Called(s: Snapshot, e: SchedulerRuns.Event, s': Snapshot)
    requires SchedulerRuns.Good(s.table)
  {
    && SchedulerRuns.Legal(s.table, e) && s'.table == SchedulerRuns.Step(s.table, e)
    && match e
       case OnSpawn(_) =>
         && s'.images == s.images && s'.world == s.world.(tasks := s'.world.tasks)
         && KernelTaskAdded(s.world.tasks, s'.world.tasks, FreeSlot(s.table, 0))
       case OnClean =>
         && s'.images == Outliving(s.images, s.table.tasks) && s'.world.bytes == s.world.bytes
         && Passed(s.world.ram, s.world.owner, s.table.tasks, s.world.tasks, s'.world.ram, s'.world.owner,
                   s'.table.tasks, s'.world.tasks, |s.table.tasks|)
       case _ => s'.world == s.world && s'.images == s.images
  }

  /** Outcome `o` and state `s'` answer request `r` made in state `s`. */
  ghost predicate Answered(frames: Frames, s: Snapshot, r: Request, o: Outcome, s': Snapshot)
    requires KernelSound(frames, s)
  {
    CurrentSpace(frames, s);
    var w, w', u := s.world, s'.world, CurrentSlot(s.world.tasks, s.table.curr);
    if !Admissible(s.table, w.ram, w.tasks, r) then o == Skipped && s' == s
    else
      match r
      case Create(hint, loads, blank) =>
        && o.NewTask? && o.pid == FreeSlot(s.table, 0) && s'.table == Spawn(s.table, blank)
        && s'.images == s.images[o.pid := loads]
        && Complete(w, w', o.pid, w.tasks[u].cr3, loads, UserStack(), hint, KernelStack(o.kernelStack))
      case Grow(pid, pages) =>
        && s'.table == s.table && s'.images == s.images
        && o == Address(if pages == 0 then 0 else w.tasks[pid].end) && Increased(w, w', pid, pages)
      case Reserve(pages) =>
        s'.table == s.table && s'.images == s.images && o.Address? && Reserved(frames, w, w', pages, o.value)
      case MapPage(address, physical, flags) =>
        if !Aligned(address) || IsMapped(w.ram, w.tasks[u].cr3, PageOfAddress(address))
        then o == Refused && s' == s
        else
          && o == Done && Remapped(s, s')
          && KernelMapped(w.ram, w.owner, w.tasks, w'.ram, w'.owner, u, PageOfAddress(address),
                          MakeEntry(physical, WithPresent(flags)))
      case UnmapPage(address) =>
        if !Aligned(address) || !IsMapped(w.ram, w.tasks[u].cr3, PageOfAddress(address))
        then o == Refused && s' == s
        else
          && o == Done && Remapped(s, s') && w'.owner == w.owner
          && KernelUnmapped(w.ram, w.tasks, w'.ram, u, PageOfAddress(address))
      case Call(e) => o == Done && Called(s, e, s')
  }
}
