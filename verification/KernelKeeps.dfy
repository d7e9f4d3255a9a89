/** Every request leaves the kernel sound: the two tables agree, and each living user task reads the image it was
    created with. */
module KernelKeeps {
  import opened Cleaner
  import opened KernelSteps
  import opened Loader
  import opened PageTables
  import opened Paging
  import opened TaskLedger
  import opened TaskMemory
  import opened TaskSpace
  import opened TaskTable
  import SchedulerRuns

  // ----- both tables -----

  /** The same slots are empty, and the same tasks are dead. */
  ghost predicate SameKinds(a: seq<Task>, b: seq<Task>) {
    |a| == |b| && forall i {:trigger a[i]} {:trigger b[i]} :: 0 <= i < |a| ==>
      (a[i].state == EMPTY <==> b[i].state == EMPTY) && (a[i].state == KILLED <==> b[i].state == KILLED)
  }

  lemma RescheduleKinds(s: Table)
    requires 0 <= s.curr < |s.tasks| && 0 <= s.idle < |s.tasks| && SchedulerRuns.Live(s, s.idle)
    ensures SameKinds(s.tasks, Reschedule(s).tasks)
  {
    forall i | 0 <= i < |s.tasks|
      ensures s.tasks[i].state == EMPTY <==> Reschedule(s).tasks[i].state == EMPTY
      ensures s.tasks[i].state == KILLED <==> Reschedule(s).tasks[i].state == KILLED
    {
      SchedulerRuns.RescheduleTouches(s, i);
    }
  }

  /** Giving a task that is not dead another state, and choosing the next one, makes no task dead. */
  lemma PutKinds(s: Table, pid: int, t: Task)
    requires 0 <= s.curr < |s.tasks| && 0 <= s.idle < |s.tasks| && SchedulerRuns.Live(s, s.idle)
    requires 0 <= pid < |s.tasks| && SchedulerRuns.Live(s, pid) && t.state != EMPTY && t.state != KILLED
    ensures SameKinds(s.tasks, Put(s, pid, t).tasks) && SameKinds(s.tasks, Reschedule(Put(s, pid, t)).tasks)
  {
    RescheduleKinds(Put(s, pid, t));
    hide Reschedule;
  }

  lemma NoneDies(s: Table, pid: int)
    requires 0 <= pid < |s.tasks|
    ensures SameKinds(s.tasks, Unblock(s, pid).tasks)
  {
  }

  lemma TickKinds(s: Table)
    requires SchedulerRuns.Good(s) && SchedulerRuns.Live(s, s.idle)
    ensures SameKinds(s.tasks, Tick(s).tasks)
  {
    var w := WakeAll(s);
    var t := w.tasks[w.curr];
    assert ValidTask(s, s.curr);
    assert SameKinds(s.tasks, w.tasks) && t.state == RUNNING;
    hide SchedulerRuns.Good, WakeAll, Reschedule;
    PutKinds(w, w.curr, t.(rounds := 0, state := READY));
    PutKinds(w, w.curr, t.(rounds := t.rounds + 1));
  }

  /** But for the task killed. */
  lemma KillKinds(s: Table, pid: int)
    requires SchedulerRuns.Good(s) && SchedulerRuns.Live(s, s.idle)
    requires 0 <= pid < |s.tasks| && SchedulerRuns.Live(s, pid) && pid != s.idle
    ensures WaitsWell(SetState(s, pid, KILLED))
    ensures SameKinds(SetState(s, pid, KILLED).tasks, Kill(s, pid).tasks)
  {
    SchedulerRuns.KillWaits(s, pid);
    var k := SetState(s, pid, KILLED);
    var w := WakeParent(k, pid);
    var r := Unblock(w, k.cleaner);
    assert SameKinds(k.tasks, w.tasks) && SameKinds(w.tasks, r.tasks);
    assert r.tasks[r.idle].state != EMPTY && r.tasks[r.idle].state != KILLED;
    hide Reschedule, WaitsWell;
    RescheduleKinds(r);
  }

  lemma KindsAgree(a: seq<Task>, b: seq<Task>, holders: seq<UserTask>)
    requires SameTable(a, holders) && SameKinds(a, b)
    ensures SameTable(b, holders)
  {
    forall i | 0 <= i < |b|
      ensures (b[i].state == EMPTY <==> !holders[i].used) && (b[i].state == KILLED ==> 0 < i)
    {
      assert a[i].state == EMPTY <==> b[i].state == EMPTY;
    }
  }

  /** The idle task is neither empty nor dead. */
  lemma IdleLives(s: Table, w: World, size: int)
    requires SchedulerRuns.Good(s) && s.idle == 0 && SameTable(s.tasks, w.tasks)
    requires Good(w.ram, w.owner, w.tasks, w.owner.Keys, size)
    ensures |s.tasks| > 0 && SchedulerRuns.Live(s, s.idle)
  {
    assert w.tasks[0].used;
  }

  lemma KillAgrees(s: Table, pid: int, holders: seq<UserTask>)
    requires SchedulerRuns.Good(s) && s.idle == 0 && |s.tasks| > 0 && SchedulerRuns.Live(s, s.idle)
    requires SameTable(s.tasks, holders) && Alive(s, pid) && pid != s.idle
    ensures WaitsWell(s) && SameTable(Kill(s, pid).tasks, holders)
  {
    KillKinds(s, pid);
    var k := SetState(s, pid, KILLED).tasks;
    assert SameTable(k, holders);
    KindsAgree(k, Kill(s, pid).tasks, holders);
  }

  /** Calls that neither create a task nor clean leave both tables agreeing, kills among them. */
  lemma CallAgrees(s: Table, e: SchedulerRuns.Event, holders: seq<UserTask>)
    requires SchedulerRuns.Good(s) && s.idle == 0 && |s.tasks| > 0 && SchedulerRuns.Live(s, s.idle)
    requires SameTable(s.tasks, holders) && Callable(s, e) && SchedulerRuns.Legal(s, e) && !e.OnSpawn? && !e.OnClean?
    ensures SameTable(SchedulerRuns.Step(s, e).tasks, holders)
  {
    assert ValidTask(s, s.curr);
    hide Kill, Tick, Reschedule, SameTable, SameKinds, SchedulerRuns.Good, WaitsWell;
    match e {
      case OnTick => TickKinds(s);
      case OnBlock(pid) => PutKinds(s, pid, s.tasks[pid].(state := BLOCKED));
      case OnSleep(pid, ms) => PutKinds(s, pid, s.tasks[pid].(state := SLEEPING, timeout := ms));
      case OnUnblock(pid) =>
        NoneDies(s, pid);
      case OnKill(pid) =>
        KillAgrees(s, pid, holders);
        return;
      case OnWait(pid, child) =>
        PutKinds(s, pid, s.tasks[pid].(waitingFor := child));
        PutKinds(s, pid, s.tasks[pid].(waitingFor := child, state := WAITING));
    }
    KindsAgree(s.tasks, SchedulerRuns.Step(s, e).tasks, holders);
  }

  lemma {:induction false} FreeIsUnused(s: Table, holders: seq<UserTask>, t: int, i: int)
    requires SameTable(s.tasks, holders) && FirstUnused(holders, t) && 0 <= i <= t
    ensures FreeSlot(s, i) == t
    decreases t - i
  {
    if i < t {
      assert holders[i].used && s.tasks[i].state != EMPTY;
      FreeIsUnused(s, holders, t, i + 1);
    } else if t < |holders| {
      assert s.tasks[t].state == EMPTY;
    }
  }

  /** A task created in memory's first unused slot is the one the scheduler creates. */
  lemma SpawnAgrees(s: Table, blank: Task, holders: seq<UserTask>, holders': seq<UserTask>, t: int)
    requires SameTable(s.tasks, holders) && FirstUnused(holders, t) && SlotsKept(holders, holders', t)
    requires 0 <= t < |holders'| && holders'[t].used
    ensures FreeSlot(s, 0) == t && SameTable(Spawn(s, blank).tasks, holders')
  {
    FreeIsUnused(s, holders, t, 0);
    var tasks' := Spawn(s, blank).tasks;
    assert t == |holders| ==> |holders'| == |holders| + 1;
    forall i | 0 <= i < |tasks'|
      ensures (tasks'[i].state == EMPTY <==> !holders'[i].used) && (tasks'[i].state == KILLED ==> 0 < i)
    {
      if i != t { assert tasks'[i] == s.tasks[i] && holders'[i] == holders[i]; }
    }
  }

  // ----- what each task reads -----

  /** The task keeps its slot, its directory, its frames and the pages mapped to them. */
  ghost predicate Unharmed(w: World, w': World, u: int)
    requires ValidRam(w.ram) && ValidRam(w'.ram)
  {
    && 0 < u < |w.tasks| && u < |w'.tasks| && w'.tasks[u].live && w'.tasks[u].cr3 == w.tasks[u].cr3
    && FramesKept(w.owner, w'.owner, u) && OwnPagesKept(w.ram, w'.ram, w.owner, u, w.tasks[u].cr3)
  }

  /** Tasks that are unharmed still read their images, when no byte of a frame that is held changes. */
  lemma StillRead(w: World, w': World, images: map<int, seq<Load>>, images': map<int, seq<Load>>)
    requires AllRead(w, images) && ValidRam(w'.ram) && BytesKept(w.bytes, w'.bytes, w.owner)
    requires forall u {:trigger u in images'} :: u in images' <==> 0 < u < |w'.tasks| && w'.tasks[u].live
    requires forall u {:trigger images'[u]} :: u in images' ==>
               || AllLoaded(w'.bytes, w'.ram, w'.owner, u, w'.tasks[u].cr3, images'[u], |images'[u]|)
               || (u in images && images'[u] == images[u] && Unharmed(w, w', u))
    ensures AllRead(w', images')
  {
    hide AllLoaded, OwnPagesKept, FramesKept, BytesKept;
    forall u | u in images'
      ensures AllLoaded(w'.bytes, w'.ram, w'.owner, u, w'.tasks[u].cr3, images'[u], |images'[u]|)
    {
      if u in images && images'[u] == images[u] && Unharmed(w, w', u) {
        ImageStays(w, w', u, w.tasks[u].cr3, images[u]);
      }
    }
  }

  /** What is done for task `t` harms no other. */
  lemma OthersUnharmed(w: World, w': World, t: int, u: int)
    requires OthersKeep(w.ram, w'.ram, w.tasks, t) && Grows(w.owner, w'.owner, t) && SlotsKept(w.tasks, w'.tasks, t)
    requires 0 < u < |w.tasks| && u != t && w.tasks[u].live
    ensures Unharmed(w, w', u)
  {
    hide Walk;
    assert KeptSpace(w.ram, w'.ram, w.tasks[u].cr3) && w'.tasks[u] == w.tasks[u];
  }

  /** Nor is a task that grows. */
  lemma GrowerUnharmed(w: World, w': World, t: int, pages: int)
    requires Increased(w, w', t, pages) && w.tasks[t].live
    ensures Unharmed(w, w', t)
  {
    hide Walk, HasPages, EntriesGrow, SameOutside;
  }

  /** Mapping a page that was not mapped harms nobody. */
  lemma MappingUnharmed(w: World, w': World, u: int, page: int, e: int, v: int)
    requires KernelMapped(w.ram, w.owner, w.tasks, w'.ram, w'.owner, u, page, e) && w'.tasks == w.tasks
    requires 0 < v < |w.tasks| && w.tasks[v].live
    ensures Unharmed(w, w', v)
  {
    hide Walk, Donor;
    if v == u {
      assert FrameAt(w.ram, w.tasks[u].cr3, page) == -1;
    } else {
      assert KeptSpace(w.ram, w'.ram, w.tasks[v].cr3);
    }
  }

  /** Nor does unmapping one that maps no frame of a task. */
  lemma UnmappingUnharmed(w: World, w': World, u: int, page: int, v: int)
    requires KernelUnmapped(w.ram, w.tasks, w'.ram, u, page) && w'.tasks == w.tasks && w'.owner == w.owner
    requires !OfTask(w.owner, FrameAt(w.ram, w.tasks[u].cr3, page)) && 0 < v < |w.tasks| && w.tasks[v].live
    ensures Unharmed(w, w', v)
  {
    hide Walk;
    assert OnlyEntryIn(w.ram, w'.ram, w.tasks[v].cr3, Walk(w.ram, w.tasks[u].cr3, page));
  }

  /** Nor does a pass of the cleaner harm who outlives it. */
  lemma OutlivingUnharmed(w: World, states: seq<Task>, w': World, states': seq<Task>, u: int)
    requires Passed(w.ram, w.owner, states, w.tasks, w'.ram, w'.owner, states', w'.tasks, |states|)
    requires 0 < u < |w.tasks| && w.tasks[u].live && !Dead(states, |states|, u)
    ensures Unharmed(w, w', u)
  {
    hide Walk;
    assert Survives(w.ram, w'.ram, w.owner, states, |states|, w.tasks[u].cr3) && w'.tasks[u] == w.tasks[u];
  }

  // ----- each request -----

  lemma CreatedReads(w: World, w': World, t: int, from: int, loads: seq<Load>, stack: Stack, firstFree: int,
                     kernelStack: Stack, images: map<int, seq<Load>>)
    requires AllRead(w, images) && Complete(w, w', t, from, loads, stack, firstFree, kernelStack)
    requires forall u :: 0 <= u < |w.tasks| && w.tasks[u].live ==> w.tasks[u].used
    ensures AllRead(w', images[t := loads]) && t !in images
  {
    hide AllLoaded, HasPages, OthersKeep, Grows, BytesKept, Unharmed, KernelStackReady, EndsAt;
    var images' := images[t := loads];
    forall u | 0 < u < |w'.tasks| && u != t ensures u < |w.tasks| && w'.tasks[u] == w.tasks[u] {
    }
    ReadyRam(w.ram, w', t, from, firstFree, kernelStack);
    assert t !in images;
    forall u | u in images ensures Unharmed(w, w', u) {
      OthersUnharmed(w, w', t, u);
    }
    StillRead(w, w', images, images');
  }

  lemma AddedReads(w: World, w': World, t: int, images: map<int, seq<Load>>)
    requires AllRead(w, images) && w' == w.(tasks := w'.tasks) && KernelTaskAdded(w.tasks, w'.tasks, t)
    requires FirstUnused(w.tasks, t) && forall u :: 0 <= u < |w.tasks| && w.tasks[u].live ==> w.tasks[u].used
    ensures AllRead(w', images)
  {
    hide AllLoaded;
    forall u | 0 < u < |w'.tasks| && u != t ensures u < |w.tasks| && w'.tasks[u] == w.tasks[u] {
    }
  }

  lemma CleanedReads(w: World, states: seq<Task>, w': World, states': seq<Task>, images: map<int, seq<Load>>)
    requires AllRead(w, images) && w'.bytes == w.bytes && |states| == |w.tasks|
    requires Passed(w.ram, w.owner, states, w.tasks, w'.ram, w'.owner, states', w'.tasks, |states|)
    ensures AllRead(w', Outliving(images, states))
  {
    forall u | u in images && !Dead(states, |states|, u) ensures Unharmed(w, w', u) {
      OutlivingUnharmed(w, states, w', states', u);
    }
    hide AllLoaded, Unharmed, WithoutDead, SurvivorsKeep;
    forall u | 0 < u < |w'.tasks| ensures w'.tasks[u].live <==> w.tasks[u].live && !Dead(states, |states|, u) {
    }
    RamAfterPass(w, states, w', states');
    StillRead(w, w', images, Outliving(images, states));
  }

  lemma RamAfterPass(w: World, states: seq<Task>, w': World, states': seq<Task>)
    requires Passed(w.ram, w.owner, states, w.tasks, w'.ram, w'.owner, states', w'.tasks, |states|)
    ensures ValidRam(w'.ram)
  {
  }

  lemma EndsStay(w: World, w': World, t: int)
    requires EndsRight(w.tasks) && SlotsKept(w.tasks, w'.tasks, t)
    requires 0 <= t < |w'.tasks| && w'.tasks[t].live ==> 0 <= w'.tasks[t].end
    ensures EndsRight(w'.tasks)
  {
    forall u | 0 < u < |w'.tasks| && w'.tasks[u].live ensures 0 <= w'.tasks[u].end {
      if u != t { assert w'.tasks[u] == w.tasks[u]; }
    }
  }

  lemma DirectoriesStay(w: World, w': World, t: int)
    requires KernelDirectories(w.tasks) && SlotsKept(w.tasks, w'.tasks, t) && 0 < t && |w.tasks| > 0
    requires t < |w'.tasks| && w'.tasks[t].used && !w'.tasks[t].live ==> w'.tasks[t].cr3 == w'.tasks[0].cr3
    ensures KernelDirectories(w'.tasks)
  {
    assert w'.tasks[0] == w.tasks[0];
    forall u | 0 <= u < |w'.tasks| && w'.tasks[u].used && !w'.tasks[u].live
      ensures w'.tasks[u].cr3 == w'.tasks[0].cr3
    {
      if u != t { assert w'.tasks[u] == w.tasks[u]; }
    }
  }

  /** The parts of soundness that concern the holders of memory. */
  lemma HoldersSound(frames: Frames, s: Snapshot)
    requires KernelSound(frames, s)
    ensures SchedulerRuns.Good(s.table) && s.table.idle == 0 && MemorySound(frames, s.world)
    ensures SameTable(s.table.tasks, s.world.tasks) && KernelDirectories(s.world.tasks) && EndsRight(s.world.tasks)
    ensures AllRead(s.world, s.images) && |s.world.tasks| > 0 && ValidRam(s.world.ram)
    ensures forall u :: 0 <= u < |s.world.tasks| && s.world.tasks[u].live ==> s.world.tasks[u].used
    ensures |s.table.tasks| > 0 && SchedulerRuns.Live(s.table, s.table.idle)
  {
    GoodIsLedger(s.world.ram, s.world.owner, s.world.tasks, s.world.owner.Keys, frames.size);
    IdleLives(s.table, s.world, frames.size);
  }

  lemma CreateSound(frames: Frames, s: Snapshot, s': Snapshot, t: int, from: int, loads: seq<Load>, firstFree: int,
                    kernelStack: Stack, blank: Task)
    requires KernelSound(frames, s) && MemorySound(frames, s'.world)
    requires Complete(s.world, s'.world, t, from, loads, UserStack(), firstFree, kernelStack)
    requires s'.table == Spawn(s.table, blank) && s'.images == s.images[t := loads] && 0 <= blank.timeout < WORD
    requires forall k :: 0 <= k < |loads| ==> Loadable(loads[k])
    ensures KernelSound(frames, s') && t == FreeSlot(s.table, 0) && t !in s.images
  {
    HoldersSound(frames, s);
    hide AllRead, MemorySound, HasPages, AllLoaded, OthersKeep, Grows, BytesKept, Donor, KernelSound, KernelStackReady,
      KernelDirectories, SameTable, SchedulerRuns.Good;
    SchedulerRuns.SpawnGood(s.table, blank);
    SpawnAgrees(s.table, blank, s.world.tasks, s'.world.tasks, t);
    CreatedReads(s.world, s'.world, t, from, loads, UserStack(), firstFree, kernelStack, s.images);
    EndsStay(s.world, s'.world, t);
    DirectoriesStay(s.world, s'.world, t);
    IsSound(frames, s');
  }

  lemma IsSound(frames: Frames, s: Snapshot)
    requires SchedulerRuns.Good(s.table) && s.table.idle == 0 && MemorySound(frames, s.world)
    requires SameTable(s.table.tasks, s.world.tasks) && KernelDirectories(s.world.tasks) && EndsRight(s.world.tasks)
    requires AllRead(s.world, s.images)
    ensures KernelSound(frames, s)
  {
  }

  lemma GrowSound(frames: Frames, s: Snapshot, s': Snapshot, t: int, pages: int)
    requires KernelSound(frames, s) && MemorySound(frames, s'.world) && s'.table == s.table && s'.images == s.images
    requires Increased(s.world, s'.world, t, pages) && s.world.tasks[t].live && 0 <= pages
    ensures KernelSound(frames, s')
  {
    HoldersSound(frames, s);
    var w, w' := s.world, s'.world;
    assert OnlyTask(w.tasks, w'.tasks, t) && SlotsKept(w.tasks, w'.tasks, t) && ValidRam(w'.ram);
    assert SameTable(s.table.tasks, w'.tasks);
    GrowerUnharmed(w, w', t, pages);
    EndsStay(w, w', t);
    DirectoriesStay(w, w', t);
    hide MemorySound, HasPages, AllLoaded, OthersKeep, Grows, KernelSound, KernelDirectories, SameTable,
      SchedulerRuns.Good, Unharmed, TranslatedOnly, EndsRight;
    forall u | u in s.images && u != t ensures Unharmed(w, w', u) {
      OthersUnharmed(w, w', t, u);
    }
    StillRead(w, w', s.images, s.images);
    IsSound(frames, s');
  }

  /** Tables and images are the same, and nobody is harmed. */
  lemma QuietSound(frames: Frames, s: Snapshot, s': Snapshot)
    requires KernelSound(frames, s) && MemorySound(frames, s'.world) && Remapped(s, s') && ValidRam(s'.world.ram)
    requires forall u {:trigger u in s.images} :: u in s.images ==> Unharmed(s.world, s'.world, u)
    ensures KernelSound(frames, s')
  {
    HoldersSound(frames, s);
    hide MemorySound, AllLoaded, KernelSound, KernelDirectories, SameTable, SchedulerRuns.Good, Unharmed, EndsRight;
    StillRead(s.world, s'.world, s.images, s.images);
    IsSound(frames, s');
  }

  lemma ReserveSound(frames: Frames, s: Snapshot, s': Snapshot, pages: int, address: int)
    requires KernelSound(frames, s) && MemorySound(frames, s'.world) && s'.table == s.table && s'.images == s.images
    requires Reserved(frames, s.world, s'.world, pages, address)
    ensures KernelSound(frames, s')
  {
    HoldersSound(frames, s);
    var w, w' := s.world, s'.world;
    if address != 0 {
      assert FreeFrames(frames, w.owner, address / PAGE_SIZE, pages);
      GrantGrows(w.owner, address / PAGE_SIZE, pages, KERNEL);
      OthersReflexive(w.ram, w.tasks, KERNEL);
      hide Grant, MemorySound, OthersKeep, Grows, KernelSound, Unharmed, FirstFrames, SameTable, EndsRight,
        KernelDirectories, AllLoaded;
      forall u | u in s.images ensures Unharmed(w, w', u) {
        OthersUnharmed(w, w', KERNEL, u);
      }
      QuietSound(frames, s, s');
    }
  }

  lemma MapSound(frames: Frames, s: Snapshot, s': Snapshot, u: int, page: int, e: int)
    requires KernelSound(frames, s) && MemorySound(frames, s'.world) && Remapped(s, s')
    requires KernelMapped(s.world.ram, s.world.owner, s.world.tasks, s'.world.ram, s'.world.owner, u, page, e)
    ensures KernelSound(frames, s')
  {
    HoldersSound(frames, s);
    var w, w' := s.world, s'.world;
    assert ValidRam(w'.ram);
    hide MemorySound, KernelSound, Unharmed, KernelMapped, AllLoaded;
    forall v | v in s.images ensures Unharmed(w, w', v) {
      MappingUnharmed(w, w', u, page, e, v);
    }
    QuietSound(frames, s, s');
  }

  lemma UnmapSound(frames: Frames, s: Snapshot, s': Snapshot, u: int, page: int)
    requires KernelSound(frames, s) && MemorySound(frames, s'.world) && Remapped(s, s')
    requires s'.world.owner == s.world.owner
    requires KernelUnmapped(s.world.ram, s.world.tasks, s'.world.ram, u, page)
    requires !Recording(s.world.tasks, FrameAt(s.world.ram, s.world.tasks[u].cr3, page))
    ensures KernelSound(frames, s')
  {
    HoldersSound(frames, s);
    var w, w' := s.world, s'.world;
    RecordsAreExact(w.ram, w.owner, w.tasks, w.owner.Keys, frames.size, FrameAt(w.ram, w.tasks[u].cr3, page));
    assert ValidRam(w'.ram);
    hide MemorySound, KernelSound, Unharmed, KernelUnmapped, AllLoaded;
    forall v | v in s.images ensures Unharmed(w, w', v) {
      UnmappingUnharmed(w, w', u, page, v);
    }
    QuietSound(frames, s, s');
  }

  lemma CallSound(frames: Frames, s: Snapshot, s': Snapshot, e: SchedulerRuns.Event)
    requires KernelSound(frames, s) && MemorySound(frames, s'.world) && Callable(s.table, e) && Called(s, e, s')
    requires e.OnSpawn? ==> FirstUnused(s.world.tasks, FreeSlot(s.table, 0))
    ensures KernelSound(frames, s')
  {
    HoldersSound(frames, s);
    var w, w' := s.world, s'.world;
    SchedulerRuns.StepGood(s.table, e);
    hide MemorySound, KernelSound, AllLoaded, SchedulerRuns.Good, SchedulerRuns.Legal;
    match e {
      case OnSpawn(blank) =>
        var t := FreeSlot(s.table, 0);
        SpawnAgrees(s.table, blank, w.tasks, w'.tasks, t);
        AddedReads(w, w', t, s.images);
        EndsStay(w, w', t);
        DirectoriesStay(w, w', t);
      case OnClean =>
        CleanedReads(w, s.table.tasks, w', s'.table.tasks, s.images);
        AllPassed(w.ram, w.owner, s.table, w.tasks, w'.ram, w'.owner, s'.table.tasks, w'.tasks);
        hide SurvivorsKeep, WithoutDead, AllRead, Swept;
        assert EndsRight(w'.tasks);
      case _ =>
        CallAgrees(s.table, e, w.tasks);
    }
    IsSound(frames, s');
  }

  /** Every request leaves the kernel sound, as long as it leaves each frame one holder. */
  lemma StepSound(frames: Frames, s: Snapshot, r: Request, o: Outcome, s': Snapshot)
    requires KernelSound(frames, s) && Asked(r) && Answered(frames, s, r, o, s') && MemorySound(frames, s'.world)
    ensures KernelSound(frames, s')
  {
    CurrentSpace(frames, s);
    var u := CurrentSlot(s.world.tasks, s.table.curr);
    if Admissible(s.table, s.world.ram, s.world.tasks, r) {
      hide KernelSound, MemorySound;
      match r
      case Create(hint, loads, blank) =>
        CreateSound(frames, s, s', o.pid, s.world.tasks[u].cr3, loads, hint, KernelStack(o.kernelStack), blank);
      case Grow(pid, pages) => GrowSound(frames, s, s', pid, pages);
      case Reserve(pages) => ReserveSound(frames, s, s', pages, o.value);
      case MapPage(address, physical, flags) =>
        if o == Done {
          MapSound(frames, s, s', u, PageOfAddress(address), MakeEntry(physical, WithPresent(flags)));
        }
      case UnmapPage(address) =>
        if o == Done { UnmapSound(frames, s, s', u, PageOfAddress(address)); }
      case Call(e) => CallSound(frames, s, s', e);
    }
  }

  // ----- whose directory may be copied -----

  /** The task keeps its slot and the entries of its directory, and the kernel its frames. */
  ghost predicate SameDirectory(w: World, w': World, u: int) {
    && 0 <= u < |w.tasks| && u < |w'.tasks| && w'.tasks[u].live && w'.tasks[u].cr3 == w.tasks[u].cr3
    && SameEntries(w.ram, w'.ram, w.tasks[u].cr3) && FramesKept(w.owner, w'.owner, KERNEL)
  }

  lemma SameDonor(frames: Frames, w: World, w': World, u: int)
    requires MemorySound(frames, w') && SameDirectory(w, w', u) && Donor(w.ram, w.owner, w.tasks[u].cr3)
    ensures Donor(w'.ram, w'.owner, w'.tasks[u].cr3)
  {
    HeldByTask(w'.ram, w'.owner, w'.tasks, w'.owner.Keys, frames.size, u);
    hide MemorySound, Good;
    forall f | Owned(w.owner, f, KERNEL) ensures Owned(w'.owner, f, KERNEL) {
    }
    StaysDonor(w.ram, w.owner, w'.ram, w'.owner, w.tasks[u].cr3);
  }

  lemma OthersSameDirectory(w: World, w': World, t: int, holder: int, u: int)
    requires OthersKeep(w.ram, w'.ram, w.tasks, t) && Grows(w.owner, w'.owner, holder)
    requires SlotsKept(w.tasks, w'.tasks, t) && 0 <= u < |w.tasks| && u != t && w.tasks[u].live
    ensures SameDirectory(w, w', u)
  {
    assert KeptSpace(w.ram, w'.ram, w.tasks[u].cr3) && w'.tasks[u] == w.tasks[u];
  }

  lemma CalledSameDirectory(s: Snapshot, e: SchedulerRuns.Event, s': Snapshot, u: int)
    requires SchedulerRuns.Good(s.table) && Called(s, e, s') && SameTable(s.table.tasks, s.world.tasks)
    requires 0 <= u < |s.world.tasks| && s.world.tasks[u].live && s.world.tasks[u].used
    requires u < |s'.world.tasks| && s'.world.tasks[u].live
    ensures SameDirectory(s.world, s'.world, u)
  {
    hide Walk, SchedulerRuns.Good;
    if e.OnClean? {
      assert !Dead(s.table.tasks, |s.table.tasks|, u);
      assert Survives(s.world.ram, s'.world.ram, s.world.owner, s.table.tasks, |s.table.tasks|, s.world.tasks[u].cr3);
    } else if e.OnSpawn? {
      assert s.table.tasks[u].state != EMPTY;
      assert s'.world.tasks[u] == s.world.tasks[u];
    }
  }

  /** A directory that may be copied still may after any request, unless its task has grown in the kernel's part or
      been cleaned. */
  lemma StepSharing(frames: Frames, s: Snapshot, r: Request, o: Outcome, s': Snapshot, u: int)
    requires KernelSound(frames, s) && Asked(r) && Answered(frames, s, r, o, s') && MemorySound(frames, s'.world)
    requires 0 <= u < |s.world.tasks| && s.world.tasks[u].live
    requires Donor(s.world.ram, s.world.owner, s.world.tasks[u].cr3)
    requires u < |s'.world.tasks| && s'.world.tasks[u].live
    requires r.Grow? && r.pid == u ==> KERNEL_END <= s.world.tasks[u].end
    ensures Donor(s'.world.ram, s'.world.owner, s'.world.tasks[u].cr3)
  {
    CurrentSpace(frames, s);
    HoldersSound(frames, s);
    var w, w', c := s.world, s'.world, CurrentSlot(s.world.tasks, s.table.curr);
    hide KernelSound, MemorySound, Donor, OthersKeep, Grows, AllRead, SchedulerRuns.Good, SameTable, KernelDirectories,
      EndsRight, SameDirectory, SlotsKept, Called;
    if !Admissible(s.table, w.ram, w.tasks, r) {
      return;
    }
    match r {
      case Create(hint, loads, blank) =>
        CreatedFacts(w, w', o.pid, loads, UserStack(), u);
        assert SlotsKept(w.tasks, w'.tasks, o.pid);
        OthersSameDirectory(w, w', o.pid, o.pid, u);
      case Grow(pid, pages) =>
        OnlyIsKept(w.tasks, w'.tasks, pid);
        if pid == u {
          GrowsAsDonor(w.ram, w.owner, w'.ram, w'.owner, w'.tasks, w'.owner.Keys, frames.size, u,
                       PageOfAddress(w.tasks[u].end), pages);
          return;
        }
        OthersSameDirectory(w, w', pid, pid, u);
      case Reserve(pages) =>
        ReservedKept(frames, w, w', pages, o.value, u);
      case MapPage(address, physical, flags) =>
        if u == c || o == Refused {
          return;
        }
        OnlyIsKept(w.tasks, w'.tasks, c);
        OthersSameDirectory(w, w', c, KERNEL, u);
      case UnmapPage(address) =>
        if o == Refused {
          return;
        }
        assert OnlyEntryIn(w.ram, w'.ram, w.tasks[u].cr3, Walk(w.ram, w.tasks[c].cr3, PageOfAddress(address)));
      case Call(e) =>
        CalledSameDirectory(s, e, s', u);
    }
    SameDonor(frames, w, w', u);
  }

  lemma OnlyIsKept(tasks: seq<UserTask>, tasks': seq<UserTask>, t: int)
    ensures OnlyTask(tasks, tasks', t) || tasks' == tasks ==> SlotsKept(tasks, tasks', t)
  {
  }

  lemma ReservedKept(frames: Frames, w: World, w': World, pages: int, address: int, u: int)
    requires Reserved(frames, w, w', pages, address) && 0 <= u < |w.tasks| && w.tasks[u].live
    ensures SameDirectory(w, w', u)
  {
    if address != 0 {
      assert FreeFrames(frames, w.owner, address / PAGE_SIZE, pages);
    }
  }
}
