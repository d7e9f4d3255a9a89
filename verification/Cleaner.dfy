/** The cleaner of kernel/scheduler.cpp: one pass over the task table takes the memory of every killed task
    and empties its slot. */
module Cleaner {
  import opened PageTables
  import opened Scheduler
  import opened TaskLedger
  import opened TaskMemory
  import opened TaskSpace
  import opened TaskTable
  import SchedulerRuns

  /** Both views are of one table: exactly the empty slots are not in use, and what is killed is not the idle
      task, whose slot stands for the kernel's own memory. */
  ghost predicate SameTable(states: seq<Task>, holders: seq<UserTask>) {
    && |states| == |holders|
    && forall i {:trigger states[i]} {:trigger holders[i]} :: 0 <= i < |states| ==>
         && (states[i].state == EMPTY <==> !holders[i].used)
         && (states[i].state == KILLED ==> 0 < i)
  }

  /** Kernel tasks, which hold no memory, run in the kernel's own directory. */
  ghost predicate KernelDirectories(holders: seq<UserTask>) {
    forall i {:trigger holders[i]} :: 0 <= i < |holders| && holders[i].used && !holders[i].live ==>
      holders[i].cr3 == holders[0].cr3
  }

  /** So the directory tells which tasks hold memory. */
  lemma DirectoryTells(ram: Ram, owner: Owners, holders: seq<UserTask>, live: set<int>, size: int, i: int)
    requires Good(ram, owner, holders, live, size) && KernelDirectories(holders)
    requires 0 < i < |holders| && holders[i].used
    ensures holders[i].live <==> holders[i].cr3 != holders[0].cr3
  {
    if holders[i].live {
      TaskHolds(ram, owner, i, holders[i], -1);
      TaskHolds(ram, owner, 0, holders[0], -1);
    }
  }

  /** Slot `u` is among the first `n` and holds a killed task. */
  predicate Dead(states: seq<Task>, n: int, u: int) {
    0 <= u < n && u < |states| && states[u].state == KILLED
  }

  /** What is left without the killed tasks among the first `n`. */
  ghost function WithoutDead(owner: Owners, states: seq<Task>, n: int): Owners {
    map f | f in owner && !Dead(states, n, owner[f]) :: owner[f]
  }

  ghost predicate Swept(states: seq<Task>, states': seq<Task>, n: int) {
    |states'| == |states| && forall i {:trigger states'[i]} :: 0 <= i < |states| ==>
      states'[i] == if Dead(states, n, i) then states[i].(state := EMPTY) else states[i]
  }

  ghost predicate Taken(states: seq<Task>, holders: seq<UserTask>, holders': seq<UserTask>, n: int) {
    |holders'| == |holders| && forall i {:trigger holders'[i]} :: 0 <= i < |holders| ==>
      holders'[i] == if Dead(states, n, i) then Emptied(holders[i]) else holders[i]
  }

  /** Frame `f` is held by a killed task among the first `n`. */
  predicate OfTheDead(owner: Owners, states: seq<Task>, n: int, f: int) {
    f in owner && Dead(states, n, owner[f])
  }

  /** By the same directory pages are translated as before, unless they were mapped to frames of the dead. */
  ghost predicate Survives(ram: Ram, ram': Ram, owner: Owners, states: seq<Task>, n: int, cr3: int)
    requires ValidRam(ram) && ValidRam(ram')
  {
    && SameEntries(ram, ram', cr3)
    && forall p {:trigger Walk(ram', cr3, p)} :: IsPage(p) && !OfTheDead(owner, states, n, FrameAt(ram, cr3, p)) ==>
         Walk(ram', cr3, p) == Walk(ram, cr3, p)
  }

  ghost predicate SurvivorsKeep(ram: Ram, ram': Ram, owner: Owners, states: seq<Task>, holders: seq<UserTask>, n: int) {
    && ValidRam(ram) && ValidRam(ram')
    && forall u {:trigger holders[u]} :: 0 <= u < |holders| && holders[u].live && !Dead(states, n, u) ==>
         Survives(ram, ram', owner, states, n, holders[u].cr3)
  }

  /** The killed tasks among the first `n` have lost their slots and their memory, and nobody else has lost
      anything but pages mapped to that memory. */
  ghost predicate Passed(ram: Ram, owner: Owners, states: seq<Task>, holders: seq<UserTask>, ram': Ram,
                         owner': Owners, states': seq<Task>, holders': seq<UserTask>, n: int) {
    && Swept(states, states', n) && Taken(states, holders, holders', n) && owner' == WithoutDead(owner, states, n)
    && SurvivorsKeep(ram, ram', owner, states, holders, n)
  }

  lemma NonePassed(ram: Ram, owner: Owners, states: seq<Task>, holders: seq<UserTask>)
    requires ValidRam(ram)
    ensures Passed(ram, owner, states, holders, ram, owner, states, holders, 0)
  {
    var w := WithoutDead(owner, states, 0);
    assert forall f :: f in w <==> f in owner;
    assert w == owner;
  }

  lemma OneMoreWithout(owner: Owners, states: seq<Task>, i: int)
    requires 0 <= i < |states|
    ensures WithoutDead(owner, states, i + 1) ==
      if states[i].state == KILLED then Without(WithoutDead(owner, states, i), i) else WithoutDead(owner, states, i)
  {
    var a, b := WithoutDead(owner, states, i), WithoutDead(owner, states, i + 1);
    forall u ensures Dead(states, i + 1, u) <==> Dead(states, i, u) || (u == i && states[i].state == KILLED) {
    }
    if states[i].state == KILLED {
      var w := Without(a, i);
      assert forall f :: f in b <==> f in w;
      assert b == w;
    } else {
      assert forall f :: f in b <==> f in a;
      assert b == a;
    }
  }

  /** The dead task `i` is cleaned after those before it. */
  lemma OneMoreSurvival(a: Ram, b: Ram, c: Ram, owner: Owners, states: seq<Task>, holders: seq<UserTask>,
                        holders': seq<UserTask>, i: int)
    requires SurvivorsKeep(a, b, owner, states, holders, i) && Taken(states, holders, holders', i)
    requires 0 <= i < |states| == |holders| && states[i].state == KILLED
    requires OthersLose(b, c, WithoutDead(owner, states, i), holders', i)
    ensures SurvivorsKeep(a, c, owner, states, holders, i + 1)
  {
    hide Walk;
    forall u | 0 <= u < |holders| && holders[u].live && !Dead(states, i + 1, u)
      ensures Survives(a, c, owner, states, i + 1, holders[u].cr3)
    {
      var cr3 := holders[u].cr3;
      assert holders'[u] == holders[u] && u != i;
      assert OnlyLost(b, c, WithoutDead(owner, states, i), i, cr3);
      forall p | IsPage(p) && !OfTheDead(owner, states, i + 1, FrameAt(a, cr3, p))
        ensures Walk(c, cr3, p) == Walk(a, cr3, p)
      {
        assert Walk(b, cr3, p) == Walk(a, cr3, p);
        assert !Owned(WithoutDead(owner, states, i), FrameAt(b, cr3, p), i);
      }
    }
  }

  lemma PassDead(a: Ram, owner: Owners, states: seq<Task>, holders: seq<UserTask>, b: Ram, owner1: Owners,
                 states1: seq<Task>, holders1: seq<UserTask>, c: Ram, i: int)
    requires Passed(a, owner, states, holders, b, owner1, states1, holders1, i)
    requires 0 <= i < |states| == |holders| && states[i].state == KILLED && OthersLose(b, c, owner1, holders1, i)
    ensures |states1| == |states| && |holders1| == |holders|
    ensures Passed(a, owner, states, holders, c, Without(owner1, i), states1[i := states1[i].(state := EMPTY)],
                   holders1[i := Emptied(holders1[i])], i + 1)
  {
    OneMoreWithout(owner, states, i);
    OneMoreSurvival(a, b, c, owner, states, holders, holders1, i);
    hide SurvivorsKeep, WithoutDead, Without;
  }

  /** A living task `i` is passed over. */
  lemma PassLiving(a: Ram, owner: Owners, states: seq<Task>, holders: seq<UserTask>, b: Ram, owner1: Owners,
                   states1: seq<Task>, holders1: seq<UserTask>, i: int)
    requires Passed(a, owner, states, holders, b, owner1, states1, holders1, i)
    requires 0 <= i < |states| && states[i].state != KILLED
    ensures Passed(a, owner, states, holders, b, owner1, states1, holders1, i + 1)
  {
    hide Walk, FrameAt;
    OneMoreWithout(owner, states, i);
    assert forall k :: Dead(states, i + 1, k) <==> Dead(states, i, k);
    forall u | 0 <= u < |holders| && holders[u].live && !Dead(states, i + 1, u)
      ensures Survives(a, b, owner, states, i + 1, holders[u].cr3)
    {
      assert Survives(a, b, owner, states, i, holders[u].cr3);
    }
  }

  lemma AtSlot(a: Ram, owner: Owners, states: seq<Task>, holders: seq<UserTask>, b: Ram, owner1: Owners,
               states1: seq<Task>, holders1: seq<UserTask>, i: int)
    requires Passed(a, owner, states, holders, b, owner1, states1, holders1, i)
    ensures |states1| == |states| && |holders1| == |holders|
    ensures 0 <= i < |states| == |holders| ==> states1[i] == states[i] && holders1[i] == holders[i]
  {
    assert 0 <= i < |states| ==> !Dead(states, i, i);
  }

  /** A kernel task holds nothing that could be lost. */
  lemma NothingHeld(ram: Ram, owner: Owners, holders: seq<UserTask>, live: set<int>, size: int, i: int)
    requires Good(ram, owner, holders, live, size) && 0 < i < |holders| && !holders[i].live
    ensures OthersLose(ram, ram, owner, holders, i) && Without(owner, i) == owner
  {
    GoodIsLedger(ram, owner, holders, live, size);
    NoneLost(ram, owner, holders, i);
    var w := Without(owner, i);
    assert forall f :: f in w <==> f in owner;
    assert w == owner;
  }

  /** At the end of the pass the tables agree again, and the scheduler's is what a pass makes of it. */
  lemma AllPassed(a: Ram, owner: Owners, s: Table, holders: seq<UserTask>, b: Ram, owner1: Owners,
                  states1: seq<Task>, holders1: seq<UserTask>)
    requires Passed(a, owner, s.tasks, holders, b, owner1, states1, holders1, |s.tasks|)
    requires SameTable(s.tasks, holders) && KernelDirectories(holders)
    ensures states1 == Clean(s).tasks && SameTable(states1, holders1) && KernelDirectories(holders1)
  {
    hide SurvivorsKeep, WithoutDead;
    forall i | 0 <= i < |s.tasks|
      ensures states1[i] == Clean(s).tasks[i]
      ensures (states1[i].state == EMPTY <==> !holders1[i].used) && (states1[i].state == KILLED ==> 0 < i)
    {
      assert states1[i] == states1[i] && holders1[i] == holders1[i];
    }
    forall i | 0 <= i < |holders1| && holders1[i].used && !holders1[i].live
      ensures holders1[i].cr3 == holders1[0].cr3
    {
      assert holders1[i] == holders[i] && holders1[0].cr3 == holders[0].cr3;
    }
  }

  /** Task `i` is killed: its memory is taken, unless it runs in the kernel's directory, and its slot emptied. */
  method Bury(scheduler: Scheduler, memory: TaskMemory, i: int)
    requires SchedulerRuns.Good(scheduler.View()) && memory.Valid()
    requires 0 < i < |scheduler.tasks| && i < |memory.tasks| && scheduler.tasks[i].state == KILLED
    requires memory.tasks[i].live <==> memory.tasks[i].cr3 != memory.tasks[0].cr3
    modifies scheduler`tasks, memory, memory.allocator, memory.allocator.memory.arr
    ensures SchedulerRuns.Good(scheduler.View()) && memory.Valid()
    ensures scheduler.tasks == old(scheduler.tasks)[i := old(scheduler.tasks)[i].(state := EMPTY)]
    ensures memory.tasks == old(memory.tasks)[i := Emptied(old(memory.tasks)[i])]
    ensures memory.owner == Without(old(memory.owner), i)
    ensures OthersLose(old(memory.ram), memory.ram, old(memory.owner), old(memory.tasks), i)
  {
    ghost var live, size := memory.allocator.live, memory.allocator.memory.Size();
    if memory.tasks[i].cr3 != memory.tasks[0].cr3 {
      NoneExcepted(memory.ram, memory.owner, memory.tasks, live, size, i);
      hide Good, GoodBut, OthersLose, Without, AllGone, SchedulerRuns.Good;
      memory.Clean(i);
    } else {
      NothingHeld(memory.ram, memory.owner, memory.tasks, live, size, i);
      hide Good, OthersLose, Without, SchedulerRuns.Good;
      memory.Leave(i);
    }
    scheduler.Empty(i);
  }

  /** What the directory of a killed task tells, when those before it have been buried. */
  lemma StillTells(a: Ram, owner: Owners, s: Table, holders: seq<UserTask>, b: Ram, owner1: Owners,
                   states1: seq<Task>, holders1: seq<UserTask>, live: set<int>, size: int, i: int)
    requires Passed(a, owner, s.tasks, holders, b, owner1, states1, holders1, i)
    requires SameTable(s.tasks, holders) && KernelDirectories(holders) && Good(b, owner1, holders1, live, size)
    requires 0 <= i < |s.tasks| && s.tasks[i].state == KILLED
    ensures 0 < i < |holders1| && (holders1[i].live <==> holders1[i].cr3 != holders1[0].cr3)
  {
    hide SurvivorsKeep, WithoutDead, Good, Swept;
    assert holders1[i] == holders[i] && holders1[0].cr3 == holders[0].cr3;
    forall k | 0 <= k < |holders1| && holders1[k].used && !holders1[k].live
      ensures holders1[k].cr3 == holders1[0].cr3
    {
      assert holders1[k] == holders[k];
    }
    DirectoryTells(b, owner1, holders1, live, size, i);
  }

  /** One turn of the pass, which began with table `s` and the memory given. */
  method Turn(scheduler: Scheduler, memory: TaskMemory, ghost s: Table, ghost holders: seq<UserTask>,
              ghost owner: Owners, ghost ram: Ram, i: int)
    requires SchedulerRuns.Good(scheduler.View()) && memory.Valid() && 0 <= i < |scheduler.tasks|
    requires SameTable(s.tasks, holders) && KernelDirectories(holders)
    requires Passed(ram, owner, s.tasks, holders, memory.ram, memory.owner, scheduler.tasks, memory.tasks, i)
    modifies scheduler`tasks, memory, memory.allocator, memory.allocator.memory.arr
    ensures SchedulerRuns.Good(scheduler.View()) && memory.Valid() && |scheduler.tasks| == |s.tasks|
    ensures Passed(ram, owner, s.tasks, holders, memory.ram, memory.owner, scheduler.tasks, memory.tasks, i + 1)
  {
    ghost var ram0, owner0, states0, holders0 := memory.ram, memory.owner, scheduler.tasks, memory.tasks;
    SameLength(s.tasks, holders);
    hide Good, Passed, SchedulerRuns.Good, SameTable, KernelDirectories, OthersLose, Without;
    AtSlot(ram, owner, s.tasks, holders, ram0, owner0, states0, holders0, i);
    if scheduler.tasks[i].state != KILLED {
      PassLiving(ram, owner, s.tasks, holders, ram0, owner0, states0, holders0, i);
      return;
    }
    StillTells(ram, owner, s, holders, ram0, owner0, states0, holders0, memory.allocator.live,
               memory.allocator.memory.Size(), i);
    Bury(scheduler, memory, i);
    PassDead(ram, owner, s.tasks, holders, ram0, owner0, states0, holders0, memory.ram, i);
  }

  lemma SameLength(states: seq<Task>, holders: seq<UserTask>)
    requires SameTable(states, holders)
    ensures |states| == |holders|
  {
  }

  /** The loop of the pass. */
  method EachTurn(scheduler: Scheduler, memory: TaskMemory, ghost s: Table, ghost holders: seq<UserTask>,
              ghost owner: Owners, ghost ram: Ram)
    requires SchedulerRuns.Good(scheduler.View()) && memory.Valid() && s.tasks == scheduler.tasks
    requires SameTable(s.tasks, holders) && KernelDirectories(holders)
    requires Passed(ram, owner, s.tasks, holders, memory.ram, memory.owner, scheduler.tasks, memory.tasks, 0)
    modifies scheduler`tasks, memory, memory.allocator, memory.allocator.memory.arr
    ensures SchedulerRuns.Good(scheduler.View()) && memory.Valid()
    ensures Passed(ram, owner, s.tasks, holders, memory.ram, memory.owner, scheduler.tasks, memory.tasks, |s.tasks|)
  {
    hide Good, Passed, SchedulerRuns.Good, SameTable, KernelDirectories;
    var i := 0;
    while i < |scheduler.tasks|
      invariant 0 <= i <= |scheduler.tasks| == |s.tasks|
      invariant SchedulerRuns.Good(scheduler.View()) && memory.Valid()
      invariant Passed(ram, owner, s.tasks, holders, memory.ram, memory.owner, scheduler.tasks, memory.tasks, i)
    {
      Turn(scheduler, memory, s, holders, owner, ram, i);
      i := i + 1;
    }
  }

  /** The pass: exactly the killed tasks lose their memory and their slots, and the others lose no page but
      those they had of a killed task. */
  method Pass(scheduler: Scheduler, memory: TaskMemory)
    requires SchedulerRuns.Good(scheduler.View()) && memory.Valid()
    requires SameTable(scheduler.tasks, memory.tasks) && KernelDirectories(memory.tasks)
    modifies scheduler`tasks, memory, memory.allocator, memory.allocator.memory.arr
    ensures SchedulerRuns.Good(scheduler.View()) && scheduler.View() == Clean(old(scheduler.View()))
    ensures memory.Valid() && SameTable(scheduler.tasks, memory.tasks) && KernelDirectories(memory.tasks)
    ensures Passed(old(memory.ram), old(memory.owner), old(scheduler.tasks), old(memory.tasks), memory.ram,
                   memory.owner, scheduler.tasks, memory.tasks, |scheduler.tasks|)
  {
    hide Good, Passed, SchedulerRuns.Good, SameTable, KernelDirectories, Ledger;
    ghost var s, holders, owner, ram := scheduler.View(), memory.tasks, memory.owner, memory.ram;
    GoodIsLedger(ram, owner, holders, memory.allocator.live, memory.allocator.memory.Size());
    NonePassed(ram, owner, s.tasks, holders);
    EachTurn(scheduler, memory, s, holders, owner, ram);
    AllPassed(ram, owner, s, holders, memory.ram, memory.owner, scheduler.tasks, memory.tasks);
  }
}
