/** kernel/scheduler.cpp: the operations on the task table, each against the table it must produce. */
module Scheduler {
  import opened TaskTable
  import opened SchedulerRuns
  import opened Wrappers

  class Scheduler {
    var tasks: seq<Task>
    var currPid: int
    var ticks: int
    var enabled: bool
    const idle: int
    const cleaner: int

    function View(): Table
      reads this
    {
      Table(tasks, currPid, ticks, idle, cleaner)
    }

    /** start: the idle task runs, the cleaner and the first task are ready. */
    constructor ()
      ensures Good(View()) && !enabled && idle == 0 && cleaner == 1 && currPid == idle
      ensures |tasks| == 3 && tasks[0].state == RUNNING && tasks[1].state == READY && tasks[2].state == READY
    {
      idle, cleaner := 0, 1;
      tasks := [Task(0, -1, 0, 0, 0, RUNNING), Task(1, -1, 0, 0, 0, READY), Task(2, -1, 0, 0, 0, READY)];
      currPid, ticks, enabled := 0, 0, false;
    }

    /** The idle task, when it first runs. */
    method Enable()
      modifies this`enabled
      ensures enabled
    {
      enabled := true;
    }

    method NextTask() returns (pid: int)
      requires Valid(View()) || Switching(View())
      ensures pid == NextFrom(View(), 1) && IsFirst(View(), 1, pid)
    {
      NextIsFirst(View(), 1);
      var i := 1;
      while i < |tasks|
        invariant 1 <= i <= |tasks|
        invariant NextFrom(View(), 1) == NextFrom(View(), i)
      {
        SlotIsModulo(View(), i);
        pid := (i + currPid) % |tasks|;
        var task := tasks[pid];
        assert Valid(View()) ==> ValidTask(View(), pid);
        if pid != idle && task.state == READY {
          return task.pid;
        }
        i := i + 1;
      }
      return idle;
    }

    /** switchTo, without the change of stacks and address spaces: from a table in which no task is
        RUNNING, which the current task has just left, to one in which the new current task alone is. */
    method SwitchTo(newPid: int)
      requires Switching(View()) && WaitsWell(View())
      requires 0 <= newPid < |tasks| && (newPid == idle || tasks[newPid].state == READY)
      modifies this`tasks, this`currPid
      ensures Good(View()) && currPid == newPid && |tasks| == |old(tasks)|
      ensures forall i :: 0 <= i < |tasks| ==>
                tasks[i] == if i == newPid then old(tasks[i]).(state := RUNNING) else old(tasks[i])
    {
      currPid := newPid;
      tasks := tasks[currPid := tasks[currPid].(state := RUNNING)];
    }

    method Reschedule()
      requires Settling(View())
      modifies this`tasks, this`currPid
      ensures View() == TaskTable.Reschedule(old(View())) && Good(View())
    {
      RescheduleGood(View());
      assert Valid(View()) ==> ValidTask(View(), currPid);
      if tasks[currPid].state != RUNNING {
        var newPid := NextTask();
        if newPid == currPid {
          tasks := tasks[currPid := tasks[currPid].(state := RUNNING)];
          return;
        }
        SwitchTo(newPid);
      }
    }

    method Tick()
      requires Good(View())
      modifies this`tasks, this`currPid, this`ticks
      ensures View() == if enabled then TaskTable.Tick(old(View())) else old(View())
      ensures Good(View())
    {
      if !enabled {
        return;
      }
      TickGood(View());
      WakeAllGood(View());
      ticks := ticks + 1;
      ghost var was := tasks;
      var i := 0;
      while i < |tasks|
        invariant 0 <= i <= |tasks| == |was|
        invariant forall k :: 0 <= k < |was| ==> tasks[k] == if k < i then Wake(was[k]) else was[k]
        invariant currPid == old(currPid) && ticks == old(ticks) + 1
      {
        if tasks[i].state == SLEEPING {
          tasks := tasks[i := tasks[i].(timeout := (tasks[i].timeout - 1) % WORD)];
          if tasks[i].timeout == 0 {
            tasks := tasks[i := tasks[i].(state := READY)];
          }
        }
        i := i + 1;
      }
      assert View() == WakeAll(old(View()));
      if ticks % QUANTUM != 0 {
        return;
      }
      assert ValidTask(View(), currPid);
      var currTask := tasks[currPid];
      if currTask.rounds != TURNOVER {
        tasks := tasks[currPid := currTask.(rounds := currTask.rounds + 1)];
        return;
      }
      PutSettles(View(), currPid, currTask.(rounds := 0, state := READY));
      tasks := tasks[currPid := currTask.(rounds := 0, state := READY)];
      Reschedule();
    }

    method Block(pid: int)
      requires Good(View()) && 0 <= pid < |tasks|
      modifies this`tasks, this`currPid
      ensures View() == TaskTable.Block(old(View()), pid) && Good(View())
    {
      assert ValidTask(View(), pid);
      PutSettles(View(), pid, tasks[pid].(state := BLOCKED));
      tasks := tasks[pid := tasks[pid].(state := BLOCKED)];
      Reschedule();
    }

    method Sleep(pid: int, ms: int)
      requires Good(View()) && 0 <= pid < |tasks| && 0 <= ms < WORD
      modifies this`tasks, this`currPid
      ensures View() == TaskTable.Sleep(old(View()), pid, ms) && Good(View())
    {
      assert ValidTask(View(), pid);
      PutSettles(View(), pid, tasks[pid].(state := SLEEPING, timeout := ms));
      tasks := tasks[pid := tasks[pid].(state := SLEEPING, timeout := ms)];
      Reschedule();
    }

    method Unblock(pid: int)
      requires Settling(View()) && 0 <= pid < |tasks|
      modifies this`tasks
      ensures View() == TaskTable.Unblock(old(View()), pid) && Settling(View())
      ensures old(Good(View())) ==> Good(View())
    {
      UnblockSettles(View(), pid);
      if tasks[pid].state != BLOCKED && tasks[pid].state != WAITING {
        return;
      }
      tasks := tasks[pid := tasks[pid].(state := READY)];
    }

    /** None is the kernel panic for a pid that cannot be waited for. */
    method ShouldWait(pid: int, childJustKilled: bool) returns (r: Option<bool>)
      requires 0 <= pid < |tasks| && tasks[pid].waitingFor < |tasks|
      ensures r.Some? <==> Waitable(View(), tasks[pid].waitingFor)
      ensures r.Some? ==> r.value == TaskTable.ShouldWait(View(), pid, childJustKilled)
    {
      var task := tasks[pid];
      if task.waitingFor > 0 {
        return Some(tasks[task.waitingFor].state != KILLED);
      }
      if task.waitingFor == CHILD_ANY {
        return Some(!childJustKilled);
      }
      if task.waitingFor == CHILD_ALL {
        var i := 0;
        while i < |tasks|
          invariant 0 <= i <= |tasks|
          invariant forall k :: 0 <= k < i ==> tasks[k].parent != pid || task.state == KILLED
        {
          if tasks[i].parent == pid && task.state != KILLED {
            return Some(true);
          }
          i := i + 1;
        }
        return Some(false);
      }
      return None;
    }

    method Kill(pid: int)
      requires Good(View()) && 0 <= pid < |tasks|
      modifies this`tasks, this`currPid
      ensures old(WaitsWell(View())) && View() == TaskTable.Kill(old(View()), pid) && Good(View())
    {
      KillGood(View(), pid);
      assert ValidTask(View(), pid);
      PutSettles(View(), pid, tasks[pid].(state := KILLED));
      var parent := tasks[pid].parent;
      tasks := tasks[pid := tasks[pid].(state := KILLED)];
      ghost var dead := View();
      var i := 0;
      while i < |tasks|
        invariant 0 <= i <= |tasks| == |dead.tasks|
        invariant View() == if 0 <= parent < i then WakeParent(dead, pid) else dead
        invariant Settling(View())
      {
        assert tasks[i].pid == i by { assert Valid(View()) ==> ValidTask(View(), i); }
        if tasks[i].pid == parent && tasks[i].state == WAITING {
          var wait := ShouldWait(i, true);
          if wait == Some(false) {
            assert Valid(View()) ==> ValidTask(View(), i);
            PutSettles(View(), i, tasks[i].(waitingFor := pid, state := READY));
            tasks := tasks[i := tasks[i].(waitingFor := pid)];
            tasks := tasks[i := tasks[i].(state := READY)];
          }
        }
        i := i + 1;
      }
      assert View() == WakeParent(dead, pid);
      Unblock(cleaner);
      Reschedule();
    }

    /** What is returned after a wait is read when the task runs again; here it is what the task
        leaves behind when it gives way. Aborted is the kernel panic. */
    method Wait(child: int) returns (r: Result<int>)
      requires Good(View()) && child < |tasks|
      modifies this`tasks, this`currPid
      ensures r.Aborted? <==> !old(Waitable(View(), child))
      ensures r.Ok? ==> View() == TaskTable.Wait(old(View()), old(currPid), child) && Good(View())
      ensures r.Ok? ==> r.value == child || r.value == CHILD_ANY
      ensures r.Ok? && old(currPid) != idle ==>
                r.value == if tasks[old(currPid)].state == WAITING then child else CHILD_ANY
    {
      var pid := currPid;
      if Waitable(View(), child) { WaitGood(View(), child); }
      assert ValidTask(View(), pid);
      tasks := tasks[pid := tasks[pid].(waitingFor := child)];
      var wait := ShouldWait(pid, false);
      if wait.None? {
        return Aborted;
      }
      assert Good(View()) by {
        forall i | 0 <= i < |tasks| ensures ValidTask(View(), i) { assert ValidTask(old(View()), i); }
      }
      if wait == Some(false) {
        return Ok(CHILD_ANY);
      }
      PutSettles(View(), pid, tasks[pid].(state := WAITING));
      tasks := tasks[pid := tasks[pid].(state := WAITING)];
      Reschedule();
      return Ok(tasks[pid].waitingFor);
    }

    /** newTask, and the task made READY. `blank` holds what newTask leaves unset in a slot it adds. */
    method Spawn(blank: Task) returns (pid: int)
      requires Good(View()) && 0 <= blank.timeout < WORD
      modifies this`tasks
      ensures View() == TaskTable.Spawn(old(View()), blank) && Good(View())
      ensures pid == FreeSlot(old(View()), 0)
      ensures 0 <= pid < |tasks| && tasks[pid].state == READY && tasks[pid].parent == currPid
    {
      SpawnGood(View(), blank);
      pid := 0;
      while pid < |tasks|
        invariant 0 <= pid <= |tasks|
        invariant FreeSlot(View(), 0) == FreeSlot(View(), pid)
      {
        if tasks[pid].state == EMPTY {
          break;
        }
        pid := pid + 1;
      }
      if pid == |tasks| {
        tasks := tasks + [blank];
      }
      tasks := tasks[pid := tasks[pid].(pid := pid, parent := currPid, state := NEW, rounds := 0)];
      tasks := tasks[pid := tasks[pid].(state := READY)];
      assert tasks == TaskTable.Spawn(old(View()), blank).tasks;
    }

    /** The end of the cleaner's work on a killed task: its slot is empty. */
    method Empty(pid: int)
      requires Good(View()) && 0 <= pid < |tasks| && tasks[pid].state == KILLED
      modifies this`tasks
      ensures Good(View()) && tasks == old(tasks)[pid := old(tasks)[pid].(state := EMPTY)]
    {
      ghost var was := View();
      tasks := tasks[pid := tasks[pid].(state := EMPTY)];
      forall i | 0 <= i < |tasks| ensures ValidTask(View(), i) {
        assert ValidTask(was, i);
      }
    }
  }
}
