/** What each call does to the task it names, and for how long. */
module SchedulerCalls {
  import opened TaskTable
  import opened SchedulerRuns

  // ----- blocking -----

  /** `pid` is blocked; the idle task, which is made to run otherwise, is not meant. */
  predicate Blocked(s: Table, pid: int) {
    0 <= pid < |s.tasks| && pid != s.idle && s.tasks[pid].state == BLOCKED
  }

  /** block: the task is blocked and does not run, be it the caller or another. */
  lemma BlockHolds(s: Table, pid: int)
    requires Good(s) && 0 <= pid < |s.tasks| && pid != s.idle
    ensures |Block(s, pid).tasks| == |s.tasks| && Blocked(Block(s, pid), pid) && Block(s, pid).curr != pid
    ensures Block(s, pid).idle == s.idle && Block(s, pid).cleaner == s.cleaner
  {
    RescheduleTouches(SetState(s, pid, BLOCKED), pid);
    StepGood(s, OnBlock(pid));
    assert ValidTask(Block(s, pid), pid);
  }

  /** unblock makes a task that is blocked or waits READY, and does nothing else. */
  lemma UnblockReadies(s: Table, pid: int)
    requires 0 <= pid < |s.tasks|
    ensures var r := Unblock(s, pid);
            && |r.tasks| == |s.tasks| && r.curr == s.curr && r.ticks == s.ticks
            && (forall i :: 0 <= i < |s.tasks| && i != pid ==> r.tasks[i] == s.tasks[i])
            && (if s.tasks[pid].state == BLOCKED || s.tasks[pid].state == WAITING
                then r.tasks[pid] == s.tasks[pid].(state := READY) else r == s)
  {
  }

  /** The event is aimed at `pid`, or is a kill, which wakes the cleaner. */
  predicate Reaches(s: Table, e: Event, pid: int) {
    Touches(e, pid) || e == OnUnblock(pid) || (pid == s.cleaner && e.OnKill?)
  }

  lemma BlockedStep(s: Table, e: Event, pid: int)
    requires Good(s) && Legal(s, e) && Blocked(s, pid) && !Reaches(s, e, pid)
    ensures |Step(s, e).tasks| >= |s.tasks| && Step(s, e).tasks[pid] == s.tasks[pid]
  {
    assert ValidTask(s, pid) && ValidTask(s, s.curr);
    hide Reschedule, WaitsWell, ShouldWait;
    match e {
      case OnTick => TickTouches(s, pid);
      case OnBlock(k) => RescheduleTouches(SetState(s, k, BLOCKED), pid);
      case OnSleep(k, ms) => RescheduleTouches(Put(s, k, s.tasks[k].(state := SLEEPING, timeout := ms)), pid);
      case OnKill(k) =>
        KillWaits(s, k);
        RescheduleTouches(Unblock(WakeParent(SetState(s, k, KILLED), k), s.cleaner), pid);
      case OnWait(k, child) =>
        RescheduleTouches(SetState(Put(s, k, s.tasks[k].(waitingFor := child)), k, WAITING), pid);
      case _ =>
    }
  }

  /** No event of the run reaches `pid`. */
  predicate Spares(cleaner: int, es: seq<Event>, pid: int) {
    forall k :: 0 <= k < |es| ==> !Touches(es[k], pid) && es[k] != OnUnblock(pid) && (pid == cleaner ==> !es[k].OnKill?)
  }

  /** A blocked task stays blocked, and is never current, until it is unblocked or another call is aimed at it; the
      cleaner, until a task is killed. */
  lemma {:induction false} BlockedRun(s: Table, es: seq<Event>, pid: int, k: int)
    requires Good(s) && LegalRun(s, es) && Blocked(s, pid) && Spares(s.cleaner, es, pid) && 0 <= k <= |es|
    ensures var r := Trace(s, es)[k]; Blocked(r, pid) && r.tasks[pid] == s.tasks[pid] && r.curr != pid
    decreases k
  {
    assert ValidTask(s, pid);
    if k > 0 {
      TraceTail(s, es);
      StepGood(s, es[0]);
      assert Legal(s, es[0]) && !Reaches(s, es[0], pid);
      hide Step, Good, Legal, LegalRun, Trace, Reaches;
      BlockedStep(s, es[0], pid);
      BlockedRun(Step(s, es[0]), es[1..], pid, k - 1);
    }
  }

  /** So it is from the moment of the call on. */
  lemma BlockLasts(s: Table, pid: int, es: seq<Event>, k: int)
    requires Good(s) && 0 <= pid < |s.tasks| && pid != s.idle && Good(Block(s, pid)) && LegalRun(Block(s, pid), es)
    requires Spares(s.cleaner, es, pid) && 0 <= k <= |es|
    ensures var r := Trace(Block(s, pid), es)[k]; Blocked(r, pid) && r.curr != pid
  {
    BlockHolds(s, pid);
    BlockedRun(Block(s, pid), es, pid, k);
  }

  // ----- killing -----

  /** The task is dead, whoever runs next. */
  lemma KillHolds(s: Table, pid: int)
    requires Good(s) && 0 <= pid < |s.tasks| && pid != s.idle && pid != s.cleaner
    ensures WaitsWell(s) && |Kill(s, pid).tasks| == |s.tasks|
    ensures Kill(s, pid).tasks[pid].state == KILLED && Kill(s, pid).curr != pid
  {
    KillGood(s, pid);
    var k := SetState(s, pid, KILLED);
    var m := Unblock(WakeParent(k, pid), k.cleaner);
    assert m.tasks[pid].state == KILLED;
    RescheduleTouches(m, pid);
    assert ValidTask(Kill(s, pid), pid);
  }

  /** Every kill wakes the cleaner, if it was blocked. */
  lemma KillWakesCleaner(s: Table, pid: int)
    requires Good(s) && 0 <= pid < |s.tasks| && pid != s.cleaner && s.cleaner != s.idle
    requires s.tasks[s.cleaner].state == BLOCKED || s.tasks[s.cleaner].state == WAITING
    ensures WaitsWell(s) && |Kill(s, pid).tasks| == |s.tasks| && Kill(s, pid).cleaner == s.cleaner
    ensures Kill(s, pid).tasks[s.cleaner].state == READY || Kill(s, pid).tasks[s.cleaner].state == RUNNING
  {
    KillGood(s, pid);
    var w := WakeParent(SetState(s, pid, KILLED), pid);
    UnblockReadies(w, s.cleaner);
    assert w.tasks[s.cleaner].state == BLOCKED || w.tasks[s.cleaner].state == WAITING
      || w.tasks[s.cleaner].state == READY;
    RescheduleTouches(Unblock(w, s.cleaner), s.cleaner);
  }

  /** And the cleaner gets the processor: before the current task has changed as often as there are other tasks, and
      before each of these has had a full stint. */
  lemma CleanerRuns(s: Table, pid: int, r: Table, es: seq<Event>)
    requires Good(s) && 0 <= pid < |s.tasks| && pid != s.cleaner && s.cleaner != s.idle && r == Kill(s, pid)
    requires s.tasks[s.cleaner].state == BLOCKED || s.tasks[s.cleaner].state == WAITING
    requires Good(r) && LegalRun(r, es) && LeavesAlone(es, s.cleaner) && FixedTable(r, es)
    requires Ticks(es) >= (|s.tasks| - 1) * STINT || Switches(r, es) >= |s.tasks| - 1
    ensures exists k :: 0 <= k <= |es| && Trace(r, es)[k].curr == s.cleaner
  {
    RunsOrQueued(s, pid);
    hide *;
    Dispatched(r, es, s.cleaner);
  }

  lemma Dispatched(s: Table, es: seq<Event>, pid: int)
    requires Good(s) && LegalRun(s, es) && LeavesAlone(es, pid) && FixedTable(s, es)
    requires s.curr == pid || Queued(s, pid)
    requires Ticks(es) >= (|s.tasks| - 1) * STINT || Switches(s, es) >= |s.tasks| - 1
    ensures exists k :: 0 <= k <= |es| && Trace(s, es)[k].curr == pid
  {
    hide Good, LegalRun, LeavesAlone, FixedTable, Trace, Switches, Ticks, Queued;
    if s.curr == pid {
      assert Trace(s, es)[0].curr == pid;
    } else {
      BoundedWaiting(s, es, pid);
    }
  }

  lemma RunsOrQueued(s: Table, pid: int)
    requires Good(s) && 0 <= pid < |s.tasks| && pid != s.cleaner && s.cleaner != s.idle && Good(Kill(s, pid))
    requires s.tasks[s.cleaner].state == BLOCKED || s.tasks[s.cleaner].state == WAITING
    ensures |Kill(s, pid).tasks| == |s.tasks|
    ensures Kill(s, pid).curr == s.cleaner || Queued(Kill(s, pid), s.cleaner)
  {
    KillWakesCleaner(s, pid);
    assert ValidTask(Kill(s, pid), s.cleaner);
  }

  // ----- waiting -----

  /** A wait for a task begins if and only if that task is not dead yet; if it is, the caller goes on. */
  lemma WaitBegins(s: Table, child: int)
    requires Good(s) && s.curr != s.idle && 0 < child < |s.tasks|
    ensures var p, r := s.curr, Wait(s, s.curr, child);
            && |r.tasks| == |s.tasks| && r.tasks[p].waitingFor == child
            && (r.tasks[p].state == WAITING <==> s.tasks[child].state != KILLED)
            && (s.tasks[child].state == KILLED ==> r.curr == p && r.tasks[p].state == RUNNING)
            && (s.tasks[child].state != KILLED ==> r.curr != p)
  {
    var p := s.curr;
    assert ValidTask(s, p);
    WaitGood(s, child);
    var w := Put(s, p, s.tasks[p].(waitingFor := child));
    RescheduleTouches(SetState(w, p, WAITING), p);
    assert ValidTask(Wait(s, p, child), p);
  }

  /** A wait for any child always begins, even without children. */
  lemma WaitAnyBegins(s: Table)
    requires Good(s) && s.curr != s.idle
    ensures var p, r := s.curr, Wait(s, s.curr, CHILD_ANY);
            |r.tasks| == |s.tasks| && r.tasks[p].state == WAITING && r.tasks[p].waitingFor == CHILD_ANY && r.curr != p
  {
    var p := s.curr;
    assert ValidTask(s, p);
    WaitGood(s, CHILD_ANY);
    var w := Put(s, p, s.tasks[p].(waitingFor := CHILD_ANY));
    RescheduleTouches(SetState(w, p, WAITING), p);
    assert ValidTask(Wait(s, p, CHILD_ANY), p);
  }

  /** The wait begins with a live child, which goes on living. */
  lemma ChildWaitBegins(s: Table, c: int)
    requires Good(s) && s.curr != s.idle && 0 < c < |s.tasks| && c != s.curr
    requires s.tasks[c].parent == s.curr && Live(s, c)
    ensures var r := Wait(s, s.curr, c);
            Good(r) && r.idle == s.idle && r.cleaner == s.cleaner && WaitsForLiveChild(r, s.curr, c)
  {
    WaitBegins(s, c);
    WaitGood(s, c);
    var w := Put(s, s.curr, s.tasks[s.curr].(waitingFor := c));
    RescheduleTouches(SetState(w, s.curr, WAITING), c);
  }

  lemma ChildWaitStep(s: Table, e: Event, p: int, c: int)
    requires Good(s) && Legal(s, e) && WaitsForLiveChild(s, p, c) && p != s.idle && p != s.cleaner
    requires !Touches(e, p) && e != OnUnblock(p) && e != OnKill(c)
    ensures |Step(s, e).tasks| >= |s.tasks| && Step(s, e).tasks[p] == s.tasks[p]
    ensures WaitsForLiveChild(Step(s, e), p, c)
  {
    if e.OnKill? { KillEndsWait(s, p, c, e.pid); } else { ForeignStep(s, e, p, c); }
    hide Step;
    ChildStep(s, e, p, c);
  }

  /** A parent waits for a live child over any run that is not aimed at the parent and does not kill the child,
      whatever other children die; and the kill of the child wakes it. */
  lemma {:induction false} ChildWaitRun(s: Table, es: seq<Event>, p: int, c: int)
    requires Good(s) && LegalRun(s, es) && WaitsForLiveChild(s, p, c) && p != s.idle && p != s.cleaner
    requires Ignores(es, p) && forall k :: 0 <= k < |es| ==> es[k] != OnKill(c)
    ensures var r := Trace(s, es)[|es|]; WaitsForLiveChild(r, p, c) && r.tasks[p] == s.tasks[p]
    decreases |es|
  {
    if es != [] {
      TraceTail(s, es);
      StepGood(s, es[0]);
      assert Legal(s, es[0]) && !Touches(es[0], p) && es[0] != OnUnblock(p) && es[0] != OnKill(c);
      hide Step, Good, Legal, LegalRun, Trace, WaitsForLiveChild;
      ChildWaitStep(s, es[0], p, c);
      ChildWaitRun(Step(s, es[0]), es[1..], p, c);
    }
  }

  /** wait(child) for a live child: the caller is suspended until exactly the event that kills the child. */
  lemma WaitUntilKilled(s: Table, c: int, es: seq<Event>)
    requires Good(s) && s.curr != s.idle && s.curr != s.cleaner
    requires 0 < c < |s.tasks| && c != s.curr && s.tasks[c].parent == s.curr && Live(s, c)
    requires c != s.idle && c != s.cleaner
    requires Good(Wait(s, s.curr, c)) && LegalRun(Wait(s, s.curr, c), es) && Ignores(es, s.curr)
    requires forall k :: 0 <= k < |es| ==> es[k] != OnKill(c)
    ensures var p, r := s.curr, Trace(Wait(s, s.curr, c), es)[|es|];
            && Good(r) && 0 <= p < |r.tasks| && c < |r.tasks| && r.tasks[p].state == WAITING && r.curr != p
            && p < |Kill(r, c).tasks|
            && (Kill(r, c).tasks[p].state == READY || Kill(r, c).tasks[p].state == RUNNING)
            && Kill(r, c).tasks[p].waitingFor == c
  {
    var p, w := s.curr, Wait(s, s.curr, c);
    ChildWaitBegins(s, c);
    ChildWaitRun(w, es, p, c);
    OneRunning(w, es, |es|);
    var r := Trace(w, es)[|es|];
    TraceSame(w, es);
    KillGood(r, c);
    KillWakesParent(r, p, c);
    KillReports(r, p, c);
  }

  lemma {:induction false} TraceSame(s: Table, es: seq<Event>)
    requires Good(s) && LegalRun(s, es)
    ensures var r := Trace(s, es)[|es|]; r.idle == s.idle && r.cleaner == s.cleaner && |r.tasks| >= |s.tasks|
    decreases |es|
  {
    if es != [] {
      TraceTail(s, es);
      StepGood(s, es[0]);
      hide Step, Good, Legal, Trace;
      TraceSame(Step(s, es[0]), es[1..]);
    }
  }

  lemma KillReports(s: Table, p: int, c: int)
    requires Good(s) && WaitsForLiveChild(s, p, c)
    ensures WaitsWell(s) && p < |Kill(s, c).tasks| && Kill(s, c).tasks[p].waitingFor == c
  {
    KillGood(s, c);
    var k := SetState(s, c, KILLED);
    RescheduleTouches(Unblock(WakeParent(k, c), k.cleaner), p);
  }

  predicate WaitsForAny(s: Table, p: int) {
    && 0 <= p < |s.tasks| && p != s.idle && p != s.cleaner
    && s.tasks[p].state == WAITING && s.tasks[p].waitingFor == CHILD_ANY
  }

  lemma AnyWaitStep(s: Table, e: Event, p: int)
    requires Good(s) && Legal(s, e) && WaitsForAny(s, p) && !Touches(e, p) && e != OnUnblock(p)
    requires SparesChildren(s, e, p)
    ensures |Step(s, e).tasks| >= |s.tasks| && Step(s, e).tasks[p] == s.tasks[p]
  {
    assert ValidTask(s, p) && ValidTask(s, s.curr);
    hide Reschedule, WaitsWell, ShouldWait;
    match e {
      case OnTick => TickTouches(s, p);
      case OnBlock(k) => RescheduleTouches(SetState(s, k, BLOCKED), p);
      case OnSleep(k, ms) => RescheduleTouches(Put(s, k, s.tasks[k].(state := SLEEPING, timeout := ms)), p);
      case OnKill(k) =>
        KillWaits(s, k);
        RescheduleTouches(Unblock(WakeParent(SetState(s, k, KILLED), k), s.cleaner), p);
      case OnWait(k, child) =>
        RescheduleTouches(SetState(Put(s, k, s.tasks[k].(waitingFor := child)), k, WAITING), p);
      case _ =>
    }
  }

  /** A wait for any child goes on over any run that is not aimed at the waiting task and kills no child of it. */
  lemma {:induction false} AnyWaitRun(s: Table, es: seq<Event>, p: int)
    requires Good(s) && LegalRun(s, es) && WaitsForAny(s, p) && Ignores(es, p)
    requires forall k :: 0 <= k < |es| ==> SparesChildren(Trace(s, es)[k], es[k], p)
    ensures var r := Trace(s, es)[|es|]; WaitsForAny(r, p) && r.tasks[p] == s.tasks[p]
    decreases |es|
  {
    if es != [] {
      TraceTail(s, es);
      StepGood(s, es[0]);
      var s', rest := Step(s, es[0]), es[1..];
      assert Legal(s, es[0]) && !Touches(es[0], p) && es[0] != OnUnblock(p);
      assert SparesChildren(Trace(s, es)[0], es[0], p);
      hide Step, Good, Legal, LegalRun, Trace, SparesChildren;
      AnyWaitStep(s, es[0], p);
      forall k | 0 <= k < |rest| ensures SparesChildren(Trace(s', rest)[k], rest[k], p) {
        assert Trace(s, es)[k + 1] == Trace(s', rest)[k] && es[k + 1] == rest[k];
        assert SparesChildren(Trace(s, es)[k + 1], es[k + 1], p);
      }
      AnyWaitRun(s', rest, p);
    }
  }

  /** wait for any child: the caller is suspended until exactly the next event that kills a child of it, and is told
      which. */
  lemma WaitUntilAnyKilled(s: Table, es: seq<Event>, c: int)
    requires Good(s) && s.curr != s.idle && s.curr != s.cleaner && Good(Wait(s, s.curr, CHILD_ANY))
    requires LegalRun(Wait(s, s.curr, CHILD_ANY), es) && Ignores(es, s.curr)
    requires forall k :: 0 <= k < |es| ==> SparesChildren(Trace(Wait(s, s.curr, CHILD_ANY), es)[k], es[k], s.curr)
    requires var r := Trace(Wait(s, s.curr, CHILD_ANY), es)[|es|];
             0 <= c < |r.tasks| && c != s.curr && r.tasks[c].parent == s.curr && Live(r, c)
    ensures var p, r := s.curr, Trace(Wait(s, s.curr, CHILD_ANY), es)[|es|];
            && Good(r) && 0 <= p < |r.tasks| && r.tasks[p].state == WAITING && r.curr != p && p < |Kill(r, c).tasks|
            && (Kill(r, c).tasks[p].state == READY || Kill(r, c).tasks[p].state == RUNNING)
            && Kill(r, c).tasks[p].waitingFor == c
  {
    var p, w := s.curr, Wait(s, s.curr, CHILD_ANY);
    assert ValidTask(s, p);
    WaitAnyBegins(s);
    AnyWaitRun(w, es, p);
    OneRunning(w, es, |es|);
    var r := Trace(w, es)[|es|];
    KillGood(r, c);
    AnyChildWakes(r, p, c);
    assert Good(Kill(r, c));
    var k := SetState(r, c, KILLED);
    RescheduleTouches(Unblock(WakeParent(k, c), k.cleaner), p);
  }

  // ----- creating -----

  /** newTask and the task made READY: the first empty slot, or a new one, holds a child of the current task that has
      had no round yet; every other slot is as it was. */
  lemma SpawnJoins(s: Table, blank: Task)
    ensures var r, pid := Spawn(s, blank), FreeSlot(s, 0);
            && |r.tasks| == (if pid == |s.tasks| then |s.tasks| + 1 else |s.tasks|) && r.curr == s.curr
            && r.tasks[pid].pid == pid && r.tasks[pid].parent == s.curr
            && r.tasks[pid].rounds == 0 && r.tasks[pid].state == READY
            && forall i :: 0 <= i < |s.tasks| && i != pid ==> r.tasks[i] == s.tasks[i]
  {
  }
}
