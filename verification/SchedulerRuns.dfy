/** What holds over every run of the scheduler. */
module SchedulerRuns {
  import opened TaskTable

  datatype Event =
    | OnTick
    | OnBlock(pid: int)
    | OnSleep(pid: int, ms: int)
    | OnUnblock(pid: int)
    | OnKill(pid: int)
    | OnWait(pid: int, child: int)
    | OnSpawn(blank: Task)
    | OnClean

  ghost predicate Good(s: Table) {
    Valid(s) && WaitsWell(s)
  }

  /** What callers may ask: pids of the table, only the running task waits, and what is killed is a
      live task other than the two kernel tasks. */
  ghost predicate Legal(s: Table, e: Event) {
    match e
    case OnTick => true
    case OnClean => true
    case OnBlock(pid) => 0 <= pid < |s.tasks|
    case OnSleep(pid, ms) => 0 <= pid < |s.tasks| && 0 <= ms < WORD
    case OnUnblock(pid) => 0 <= pid < |s.tasks|
    case OnKill(pid) => 0 <= pid < |s.tasks| && Live(s, pid) && pid != s.idle && pid != s.cleaner
    case OnWait(pid, child) => pid == s.curr && Waitable(s, child)
    case OnSpawn(blank) => 0 <= blank.timeout < WORD
  }

  predicate Live(s: Table, pid: int)
    requires 0 <= pid < |s.tasks|
  {
    s.tasks[pid].state != EMPTY && s.tasks[pid].state != KILLED
  }

  ghost function Step(s: Table, e: Event): Table
    requires Good(s) && Legal(s, e)
  {
    match e
    case OnTick => Tick(s)
    case OnClean => Clean(s)
    case OnBlock(pid) => Block(s, pid)
    case OnSleep(pid, ms) => Sleep(s, pid, ms)
    case OnUnblock(pid) => Unblock(s, pid)
    case OnKill(pid) => Kill(s, pid)
    case OnWait(pid, child) => Wait(s, pid, child)
    case OnSpawn(blank) => Spawn(s, blank)
  }

  // ----- one RUNNING task, the current one -----

  /** Between operations, or on the way to choosing another current task. */
  ghost predicate Settling(s: Table) {
    (Valid(s) || Switching(s)) && WaitsWell(s)
  }

  predicate Plain(t: Task, pid: int) {
    t.pid == pid && 0 <= t.rounds <= TURNOVER && 0 <= t.timeout < WORD && t.state != RUNNING
  }

  lemma PutSettles(s: Table, pid: int, t: Task)
    requires Settling(s) && 0 <= pid < |s.tasks|
    requires Plain(t, pid) && (t.state == WAITING ==> Waitable(s, t.waitingFor))
    ensures Settling(Put(s, pid, t))
    ensures Valid(s) && pid != s.curr ==> Valid(Put(s, pid, t))
  {
    var r := Put(s, pid, t);
    if Valid(s) {
      forall i | 0 <= i < |r.tasks|
        ensures if pid == s.curr then Plain(r.tasks[i], i) else ValidTask(r, i)
      {
        assert ValidTask(s, i);
      }
    }
  }

  lemma RescheduleGood(s: Table)
    requires Settling(s)
    ensures Good(Reschedule(s))
  {
    var r := Reschedule(s);
    forall i | 0 <= i < |r.tasks| ensures ValidTask(r, i) {
      assert Valid(s) ==> ValidTask(s, i);
    }
  }

  lemma WakeAllGood(s: Table)
    requires Good(s)
    ensures Good(WakeAll(s))
  {
    var r := WakeAll(s);
    forall i | 0 <= i < |r.tasks| ensures ValidTask(r, i) {
      assert ValidTask(s, i);
    }
  }

  lemma TickGood(s: Table)
    requires Good(s)
    ensures Good(Tick(s))
  {
    WakeAllGood(s);
    var w := WakeAll(s);
    var t := w.tasks[w.curr];
    assert ValidTask(w, w.curr);
    if w.ticks % QUANTUM == 0 {
      if t.rounds != TURNOVER {
        var r := Put(w, w.curr, t.(rounds := t.rounds + 1));
        forall i | 0 <= i < |r.tasks| ensures ValidTask(r, i) { assert ValidTask(w, i); }
      } else {
        PutSettles(w, w.curr, t.(rounds := 0, state := READY));
        RescheduleGood(Put(w, w.curr, t.(rounds := 0, state := READY)));
      }
    }
  }

  lemma UnblockSettles(s: Table, pid: int)
    requires Settling(s) && 0 <= pid < |s.tasks|
    ensures Settling(Unblock(s, pid))
    ensures Valid(s) ==> Valid(Unblock(s, pid))
  {
    assert Valid(s) ==> ValidTask(s, pid);
    if s.tasks[pid].state == BLOCKED || s.tasks[pid].state == WAITING {
      PutSettles(s, pid, s.tasks[pid].(state := READY));
    }
  }

  lemma KillGood(s: Table, pid: int)
    requires Good(s) && 0 <= pid < |s.tasks|
    ensures WaitsWell(SetState(s, pid, KILLED)) && Good(Kill(s, pid))
  {
    assert ValidTask(s, pid);
    PutSettles(s, pid, s.tasks[pid].(state := KILLED));
    var k := SetState(s, pid, KILLED);
    var w := WakeParent(k, pid);
    if w != k {
      var p := k.tasks[pid].parent;
      assert ValidTask(s, p);
      PutSettles(k, p, k.tasks[p].(waitingFor := pid, state := READY));
    }
    UnblockSettles(w, k.cleaner);
    RescheduleGood(Unblock(w, k.cleaner));
  }

  lemma WaitGood(s: Table, child: int)
    requires Good(s) && Waitable(s, child)
    ensures Good(Wait(s, s.curr, child))
  {
    var pid := s.curr;
    assert ValidTask(s, pid);
    var w := Put(s, pid, s.tasks[pid].(waitingFor := child));
    forall i | 0 <= i < |w.tasks| ensures ValidTask(w, i) { assert ValidTask(s, i); }
    PutSettles(w, pid, w.tasks[pid].(state := WAITING));
    RescheduleGood(SetState(w, pid, WAITING));
  }

  lemma SpawnGood(s: Table, blank: Task)
    requires Good(s) && 0 <= blank.timeout < WORD
    ensures Good(Spawn(s, blank))
  {
    var r, pid := Spawn(s, blank), FreeSlot(s, 0);
    forall i | 0 <= i < |r.tasks| ensures ValidTask(r, i) {
      assert i < |s.tasks| ==> ValidTask(s, i);
    }
  }

  lemma CleanGood(s: Table)
    requires Good(s)
    ensures Good(Clean(s))
  {
    var r := Clean(s);
    forall i | 0 <= i < |r.tasks| ensures ValidTask(r, i) { assert ValidTask(s, i); }
  }

  /** Every operation leaves the current task, and it alone, RUNNING. */
  lemma StepGood(s: Table, e: Event)
    requires Good(s) && Legal(s, e)
    ensures Good(Step(s, e))
    ensures |Step(s, e).tasks| >= |s.tasks| && Step(s, e).idle == s.idle && Step(s, e).cleaner == s.cleaner
  {
    match e
    case OnTick => TickGood(s);
    case OnClean => CleanGood(s);
    case OnBlock(pid) =>
      assert ValidTask(s, pid);
      PutSettles(s, pid, s.tasks[pid].(state := BLOCKED));
      RescheduleGood(SetState(s, pid, BLOCKED));
    case OnSleep(pid, ms) =>
      assert ValidTask(s, pid);
      PutSettles(s, pid, s.tasks[pid].(state := SLEEPING, timeout := ms));
      RescheduleGood(Put(s, pid, s.tasks[pid].(state := SLEEPING, timeout := ms)));
    case OnUnblock(pid) => UnblockSettles(s, pid);
    case OnKill(pid) => KillGood(s, pid);
    case OnWait(pid, child) => WaitGood(s, child);
    case OnSpawn(blank) => SpawnGood(s, blank);
  }

  // ----- runs -----

  ghost predicate LegalRun(s: Table, es: seq<Event>)
    requires Good(s)
    decreases |es|
  {
    es == [] || (Legal(s, es[0]) && (StepGood(s, es[0]); LegalRun(Step(s, es[0]), es[1..])))
  }

  /** The table after each event of a run, the start included. */
  ghost function Trace(s: Table, es: seq<Event>): (tr: seq<Table>)
    requires Good(s) && LegalRun(s, es)
    ensures |tr| == |es| + 1 && tr[0] == s
    decreases |es|
  {
    if es == [] then [s] else [s] + (StepGood(s, es[0]); Trace(Step(s, es[0]), es[1..]))
  }

  /** In every state of every run exactly one task is RUNNING, and it is the current one. */
  lemma {:induction false} OneRunning(s: Table, es: seq<Event>, k: int)
    requires Good(s) && LegalRun(s, es) && 0 <= k <= |es|
    ensures Good(Trace(s, es)[k])
    ensures forall i :: 0 <= i < |Trace(s, es)[k].tasks| ==>
              (Trace(s, es)[k].tasks[i].state == RUNNING <==> i == Trace(s, es)[k].curr)
    decreases |es|
  {
    var t := Trace(s, es)[k];
    if k > 0 {
      StepGood(s, es[0]);
      OneRunning(Step(s, es[0]), es[1..], k - 1);
    } else {
      forall i | 0 <= i < |s.tasks| ensures s.tasks[i].state == RUNNING <==> i == s.curr { assert ValidTask(s, i); }
    }
  }

  function Ticks(es: seq<Event>): nat {
    if es == [] then 0 else (if es[0].OnTick? then 1 else 0) + Ticks(es[1..])
  }

  /** No event of the run blocks, puts to sleep, kills or makes wait the task `pid`. */
  predicate LeavesAlone(es: seq<Event>, pid: int) {
    forall k :: 0 <= k < |es| ==> !Touches(es[k], pid)
  }

  predicate Touches(e: Event, pid: int) {
    (e.OnBlock? || e.OnSleep? || e.OnKill? || e.OnWait?) && e.pid == pid
  }

  // ----- sleeping -----

  /** Ticks until a sleeper wakes; a timeout of 0 wraps and takes all 2^32. */
  function Remaining(timeout: int): int {
    if timeout == 0 then WORD else timeout
  }

  /** Choosing the next task changes at most the state of the one picked, which was READY or is idle. */
  lemma RescheduleTouches(s: Table, pid: int)
    requires 0 <= s.curr < |s.tasks| && 0 <= s.idle < |s.tasks| && 0 <= pid < |s.tasks|
    ensures |Reschedule(s).tasks| == |s.tasks|
    ensures var t, t' := s.tasks[pid], Reschedule(s).tasks[pid];
            t' == t || (t' == t.(state := RUNNING) && (t.state == READY || pid == s.idle))
  {
  }

  /** What a tick makes of a task that does not run. */
  lemma TickTouches(s: Table, pid: int)
    requires Good(s) && 0 <= pid < |s.tasks| && pid != s.curr
    ensures |Tick(s).tasks| == |s.tasks|
    ensures var w, t' := Wake(s.tasks[pid]), Tick(s).tasks[pid];
            t' == w || (t' == w.(state := RUNNING) && (w.state == READY || pid == s.idle))
  {
    hide Reschedule, Wake;
    var w := WakeAll(s);
    var t := w.tasks[w.curr];
    RescheduleTouches(Put(w, w.curr, t.(rounds := 0, state := READY)), pid);
  }

  lemma SleeperStep(s: Table, e: Event, pid: int)
    requires Good(s) && Legal(s, e) && !Touches(e, pid)
    requires 0 <= pid < |s.tasks| && pid != s.idle && s.tasks[pid].state == SLEEPING
    ensures |Step(s, e).tasks| >= |s.tasks|
    ensures var t, t' := s.tasks[pid], Step(s, e).tasks[pid];
            if !e.OnTick? then t' == t
            else if Remaining(t.timeout) == 1 then t'.state == READY || t'.state == RUNNING
            else t'.state == SLEEPING && Remaining(t'.timeout) == Remaining(t.timeout) - 1
  {
    assert ValidTask(s, pid);
    hide Reschedule, WaitsWell, ShouldWait;
    match e {
      case OnTick => TickTouches(s, pid);
      case OnBlock(k) => RescheduleTouches(SetState(s, k, BLOCKED), pid);
      case OnSleep(k, ms) => RescheduleTouches(Put(s, k, s.tasks[k].(state := SLEEPING, timeout := ms)), pid);
      case OnKill(k) =>
        KillWaits(s, k);
        RescheduleTouches(Unblock(WakeParent(SetState(s, k, KILLED), k), s.cleaner), pid);
      case OnWait(k, child) =>
        RescheduleTouches(SetState(Put(s, k, s.tasks[k].(waitingFor := child)), k, WAITING), pid);
      case _ =>
    }
  }

  lemma KillWaits(s: Table, k: int)
    requires Good(s) && 0 <= k < |s.tasks|
    ensures WaitsWell(SetState(s, k, KILLED))
  {
  }

  /** A sleeper is asleep until exactly the tick that exhausts its timeout, and on that tick it becomes
      READY (or is dispatched at once), whatever else happens meanwhile. */
  lemma {:induction false} SleepIsExact(s: Table, es: seq<Event>, pid: int)
    requires Good(s) && LegalRun(s, es) && LeavesAlone(es, pid)
    requires 0 <= pid < |s.tasks| && pid != s.idle && s.tasks[pid].state == SLEEPING
    requires Ticks(es) <= Remaining(s.tasks[pid].timeout)
    requires Ticks(es) == Remaining(s.tasks[pid].timeout) ==> es != [] && es[|es| - 1].OnTick?
    ensures |Trace(s, es)[|es|].tasks| >= |s.tasks|
    ensures var t := Trace(s, es)[|es|].tasks[pid];
            if Ticks(es) < Remaining(s.tasks[pid].timeout) then t.state == SLEEPING
            else t.state == READY || t.state == RUNNING
    decreases |es|
  {
    if es != [] {
      TraceTail(s, es);
      assert Legal(s, es[0]) && !Touches(es[0], pid);
      hide Step, Good, Legal, LegalRun, Trace;
      SleeperStep(s, es[0], pid);
      var s' := Step(s, es[0]);
      if s'.tasks[pid].state == SLEEPING {
        SleepIsExact(s', es[1..], pid);
      } else {
        TicksPositive(es[1..]);
      }
    }
  }

  lemma {:induction false} TicksPositive(es: seq<Event>)
    ensures es != [] && es[|es| - 1].OnTick? ==> Ticks(es) > 0
    decreases |es|
  {
    if |es| > 1 { TicksPositive(es[1..]); }
  }

  /** sleep(ms) wakes its task on exactly the ms-th tick after it; sleep(0) on the one after 2^32 - 1 others. */
  lemma SleepWakesOnTime(s: Table, pid: int, ms: int, es: seq<Event>)
    requires Good(s) && 0 <= pid < |s.tasks| && pid != s.idle && 0 <= ms < WORD
    requires Good(Sleep(s, pid, ms)) && LegalRun(Sleep(s, pid, ms), es) && LeavesAlone(es, pid)
    requires Ticks(es) < Remaining(ms) || (Ticks(es) == Remaining(ms) && es != [] && es[|es| - 1].OnTick?)
    ensures |Trace(Sleep(s, pid, ms), es)[|es|].tasks| >= |s.tasks|
    ensures var t := Trace(Sleep(s, pid, ms), es)[|es|].tasks[pid];
            if Ticks(es) < Remaining(ms) then t.state == SLEEPING else t.state == READY || t.state == RUNNING
  {
    SleepIsExact(Sleep(s, pid, ms), es, pid);
  }

  // ----- waiting for the processor -----

  /** Places from the current task to `pid`, going round. */
  function Distance(s: Table, pid: int): int
    requires 0 <= s.curr < |s.tasks| && 0 <= pid < |s.tasks|
  {
    if pid >= s.curr then pid - s.curr else pid - s.curr + |s.tasks|
  }

  /** Ticks the current task can still keep the processor. */
  function StintLeft(s: Table): int
    requires 0 <= s.curr < |s.tasks|
  {
    (TURNOVER - s.tasks[s.curr].rounds) * QUANTUM + (QUANTUM - s.ticks % QUANTUM)
  }

  const STINT := (TURNOVER + 1) * QUANTUM

  /** Ticks within which `pid` is dispatched, as the table stands. */
  function MaxWait(s: Table, pid: int): int
    requires 0 <= s.curr < |s.tasks| && 0 <= pid < |s.tasks|
  {
    (Distance(s, pid) - 1) * STINT + StintLeft(s)
  }

  predicate Queued(s: Table, pid: int) {
    0 <= pid < |s.tasks| && pid != s.idle && s.tasks[pid].state == READY
  }

  /** The search never skips a ready task: what it picks is at most as far away. */
  lemma {:induction false} NextIsNearer(s: Table, pid: int, i: int)
    requires 0 <= s.curr < |s.tasks| && 0 <= s.idle < |s.tasks| && Queued(s, pid) && pid != s.curr
    requires 1 <= i <= Distance(s, pid)
    ensures NextFrom(s, i) != s.curr && i <= Distance(s, NextFrom(s, i)) <= Distance(s, pid)
    decreases |s.tasks| - i
  {
    assert Slot(s, Distance(s, pid)) == pid;
    if !Candidate(s, i) {
      NextIsNearer(s, pid, i + 1);
    }
  }

  /** A change of the current task brings every queued task strictly nearer. */
  lemma SwitchNearer(s: Table, pid: int)
    requires Switching(s) && Queued(s, pid) && pid != s.curr
    ensures var r := Reschedule(s);
            r.curr != s.curr && (r.curr == pid || (Queued(r, pid) && Distance(r, pid) < Distance(s, pid)))
  {
    NextIsNearer(s, pid, 1);
  }

  /** One step nearer: dispatched, or still queued with less to wait for. */
  ghost predicate Nearer(s: Table, r: Table, pid: int, ticks: int)
    requires 0 <= s.curr < |s.tasks| && 0 <= pid < |s.tasks|
  {
    && 0 <= r.curr < |r.tasks| == |s.tasks|
    && (r.curr == pid
        || (Queued(r, pid) && MaxWait(r, pid) + ticks <= MaxWait(s, pid)
            && Distance(r, pid) + (if r.curr != s.curr then 1 else 0) <= Distance(s, pid)))
  }

  /** Choosing the next task after an operation that made at most the current task give way. */
  lemma RescheduleNearer(s: Table, m: Table, pid: int, ticks: int)
    requires Good(s) && Queued(s, pid)
    requires Settling(m) && m.curr == s.curr && m.idle == s.idle && |m.tasks| == |s.tasks| && Queued(m, pid)
    requires 0 <= ticks <= 1
    requires m.tasks[m.curr].state == RUNNING ==>
               ticks == 0 && m.ticks == s.ticks && m.tasks[m.curr].rounds == s.tasks[s.curr].rounds
    ensures Nearer(s, Reschedule(m), pid, ticks)
  {
    assert ValidTask(s, s.curr) && ValidTask(s, pid);
    assert Valid(m) ==> ValidTask(m, m.curr);
    if m.tasks[m.curr].state != RUNNING {
      assert Switching(m);
      SwitchNearer(m, pid);
      var r := Reschedule(m);
      RescheduleGood(m);
      assert ValidTask(r, r.curr);
      if r.curr != pid {
        assert MaxWait(r, pid) <= Distance(r, pid) * STINT <= (Distance(s, pid) - 1) * STINT;
      }
    }
  }

  lemma TickNearer(s: Table, pid: int)
    requires Good(s) && Queued(s, pid)
    ensures Nearer(s, Tick(s), pid, 1)
  {
    WakeAllGood(s);
    assert ValidTask(s, s.curr) && ValidTask(s, pid);
    var w := WakeAll(s);
    var t := w.tasks[w.curr];
    if w.ticks % QUANTUM == 0 && t.rounds == TURNOVER {
      PutSettles(w, w.curr, t.(rounds := 0, state := READY));
      RescheduleNearer(s, Put(w, w.curr, t.(rounds := 0, state := READY)), pid, 1);
    }
  }

  lemma KillNearer(s: Table, k: int, pid: int)
    requires Good(s) && Queued(s, pid) && 0 <= k < |s.tasks| && k != pid
    ensures WaitsWell(s) && Nearer(s, Kill(s, k), pid, 0)
  {
    assert ValidTask(s, s.curr) && ValidTask(s, k);
    PutSettles(s, k, s.tasks[k].(state := KILLED));
    var d := SetState(s, k, KILLED);
    var w := WakeParent(d, k);
    if w != d {
      var p := d.tasks[k].parent;
      assert ValidTask(s, p);
      PutSettles(d, p, d.tasks[p].(waitingFor := k, state := READY));
    }
    UnblockSettles(w, w.cleaner);
    RescheduleNearer(s, Unblock(w, w.cleaner), pid, 0);
  }

  lemma WaitNearer(s: Table, child: int, pid: int)
    requires Good(s) && Queued(s, pid) && Waitable(s, child) && pid != s.curr
    ensures Nearer(s, Wait(s, s.curr, child), pid, 0)
  {
    assert ValidTask(s, s.curr);
    var w := Put(s, s.curr, s.tasks[s.curr].(waitingFor := child));
    forall i | 0 <= i < |w.tasks| ensures ValidTask(w, i) { assert ValidTask(s, i); }
    PutSettles(w, s.curr, w.tasks[s.curr].(state := WAITING));
    if ShouldWait(w, s.curr, false) {
      RescheduleNearer(s, SetState(w, s.curr, WAITING), pid, 0);
    }
  }

  lemma StepNearer(s: Table, e: Event, pid: int)
    requires Good(s) && Legal(s, e) && !Touches(e, pid) && Queued(s, pid)
    requires |Step(s, e).tasks| == |s.tasks|
    ensures Nearer(s, Step(s, e), pid, if e.OnTick? then 1 else 0)
  {
    assert ValidTask(s, s.curr) && ValidTask(s, pid);
    match e
    case OnTick => TickNearer(s, pid);
    case OnClean =>
    case OnBlock(b) =>
      assert ValidTask(s, b);
      PutSettles(s, b, s.tasks[b].(state := BLOCKED));
      RescheduleNearer(s, SetState(s, b, BLOCKED), pid, 0);
    case OnSleep(b, ms) =>
      assert ValidTask(s, b);
      PutSettles(s, b, s.tasks[b].(state := SLEEPING, timeout := ms));
      RescheduleNearer(s, Put(s, b, s.tasks[b].(state := SLEEPING, timeout := ms)), pid, 0);
    case OnUnblock(b) =>
    case OnKill(b) => KillNearer(s, b, pid);
    case OnWait(b, child) => WaitNearer(s, child, pid);
    case OnSpawn(blank) =>
  }

  /** Changes of the current task along a run. */
  ghost function Switches(s: Table, es: seq<Event>): nat
    requires Good(s) && LegalRun(s, es)
    decreases |es|
  {
    if es == [] then 0
    else (StepGood(s, es[0]); (if Step(s, es[0]).curr != s.curr then 1 else 0) + Switches(Step(s, es[0]), es[1..]))
  }

  /** The table keeps its length: created tasks take empty slots. */
  ghost predicate FixedTable(s: Table, es: seq<Event>)
    requires Good(s) && LegalRun(s, es)
  {
    forall k :: 0 <= k <= |es| ==> |Trace(s, es)[k].tasks| == |s.tasks|
  }

  ghost predicate NeverRuns(s: Table, es: seq<Event>, pid: int)
    requires Good(s) && LegalRun(s, es)
  {
    forall k :: 0 <= k <= |es| ==> Trace(s, es)[k].curr != pid
  }

  lemma TraceTail(s: Table, es: seq<Event>)
    requires Good(s) && es != [] && LegalRun(s, es)
    ensures Good(Step(s, es[0])) && LegalRun(Step(s, es[0]), es[1..])
    ensures Trace(s, es) == [s] + Trace(Step(s, es[0]), es[1..])
  {
    StepGood(s, es[0]);
  }

  lemma {:induction false} QueuedRun(s: Table, es: seq<Event>, pid: int)
    requires Good(s) && LegalRun(s, es) && LeavesAlone(es, pid) && Queued(s, pid)
    requires FixedTable(s, es) && NeverRuns(s, es, pid)
    ensures Ticks(es) < MaxWait(s, pid) && Switches(s, es) < Distance(s, pid)
    decreases |es|
  {
    assert Trace(s, es)[0].curr != pid;
    assert ValidTask(s, s.curr);
    if es != [] {
      TraceTail(s, es);
      var s', rest := Step(s, es[0]), es[1..];
      assert Trace(s, es)[1] == s';
      StepNearer(s, es[0], pid);
      forall k | 0 <= k <= |rest|
        ensures Trace(s', rest)[k].curr != pid && |Trace(s', rest)[k].tasks| == |s'.tasks|
      {
        assert Trace(s, es)[k + 1] == Trace(s', rest)[k];
      }
      QueuedRun(s', rest, pid);
    }
  }

  lemma WaitBound(s: Table, pid: int)
    requires Good(s) && Queued(s, pid)
    ensures 0 < Distance(s, pid) <= |s.tasks| - 1
    ensures MaxWait(s, pid) <= (|s.tasks| - 1) * STINT
  {
    assert ValidTask(s, s.curr) && ValidTask(s, pid);
    assert StintLeft(s) <= STINT;
    assert Distance(s, pid) * STINT <= (|s.tasks| - 1) * STINT;
  }

  /** Bounded waiting. In a table of N tasks a READY task other than the idle one that nobody blocks,
      kills or puts to sleep is dispatched before the current task has changed N - 1 times without it,
      and before (N - 1) * STINT ticks have passed. */
  lemma BoundedWaiting(s: Table, es: seq<Event>, pid: int)
    requires Good(s) && LegalRun(s, es) && LeavesAlone(es, pid) && Queued(s, pid) && FixedTable(s, es)
    requires Ticks(es) >= (|s.tasks| - 1) * STINT || Switches(s, es) >= |s.tasks| - 1
    ensures exists k :: 0 <= k <= |es| && Trace(s, es)[k].curr == pid
  {
    if NeverRuns(s, es, pid) {
      QueuedRun(s, es, pid);
      WaitBound(s, pid);
      assert false;
    }
  }

  // ----- keeping the processor -----

  /** With the current task RUNNING, choosing the next one changes nothing. */
  lemma KeepsStint(s: Table, m: Table)
    requires Good(s) && |m.tasks| == |s.tasks| && m.curr == s.curr && m.idle == s.idle && m.ticks == s.ticks
    requires m.tasks[s.curr] == s.tasks[s.curr]
    ensures 0 <= m.idle < |m.tasks| && Reschedule(m) == m && StintLeft(m) == StintLeft(s)
  {
    assert ValidTask(s, s.curr);
  }

  lemma KillKeepsStint(s: Table, k: int)
    requires Good(s) && 0 <= k < |s.tasks| && k != s.curr
    ensures WaitsWell(SetState(s, k, KILLED))
    ensures |Kill(s, k).tasks| == |s.tasks| && Kill(s, k).curr == s.curr && StintLeft(Kill(s, k)) == StintLeft(s)
  {
    KillWaits(s, k);
    assert ValidTask(s, s.curr);
    KeepsStint(s, Unblock(WakeParent(SetState(s, k, KILLED), k), s.cleaner));
  }

  /** What takes a tick off the current task's stint, and what ends it. */
  lemma StintStep(s: Table, e: Event)
    requires Good(s) && Legal(s, e) && !Touches(e, s.curr)
    ensures |Step(s, e).tasks| >= |s.tasks| && 0 <= Step(s, e).curr < |Step(s, e).tasks|
    ensures !e.OnTick? ==> Step(s, e).curr == s.curr && StintLeft(Step(s, e)) == StintLeft(s)
    ensures e.OnTick? && StintLeft(s) > 1 ==> Step(s, e).curr == s.curr && StintLeft(Step(s, e)) == StintLeft(s) - 1
    ensures e.OnTick? && StintLeft(s) <= 1 ==> Step(s, e).tasks[s.curr].rounds == 0 && GaveWay(s, Step(s, e))
  {
    assert ValidTask(s, s.curr);
    hide Reschedule, WaitsWell, ShouldWait, Kill, GaveWay, StintLeft, Tick;
    match e {
      case OnTick => TickStint(s);
      case OnBlock(k) => KeepsStint(s, SetState(s, k, BLOCKED));
      case OnSleep(k, ms) => KeepsStint(s, Put(s, k, s.tasks[k].(state := SLEEPING, timeout := ms)));
      case OnUnblock(k) => KeepsStint(s, Unblock(s, k));
      case OnKill(k) => KillKeepsStint(s, k);
      case OnSpawn(blank) => SpawnKeepsStint(s, blank);
      case OnClean => KeepsStint(s, Clean(s));
      case _ =>
    }
  }

  lemma SpawnKeepsStint(s: Table, blank: Task)
    requires Good(s)
    ensures |Spawn(s, blank).tasks| >= |s.tasks| && Spawn(s, blank).curr == s.curr
    ensures StintLeft(Spawn(s, blank)) == StintLeft(s)
  {
    assert ValidTask(s, s.curr);
  }

  /** If any other task was ready it has the processor now, or one before it in the round has. */
  ghost predicate GaveWay(s: Table, r: Table) {
    forall pid :: Queued(s, pid) && pid != s.curr ==> r.curr != s.curr
  }

  lemma TickStint(s: Table)
    requires Good(s)
    ensures |Tick(s).tasks| == |s.tasks| && 0 <= Tick(s).curr < |s.tasks|
    ensures StintLeft(s) > 1 ==> Tick(s).curr == s.curr && StintLeft(Tick(s)) == StintLeft(s) - 1
    ensures StintLeft(s) <= 1 ==> Tick(s).tasks[s.curr].rounds == 0 && GaveWay(s, Tick(s))
  {
    assert ValidTask(s, s.curr);
    var w := WakeAll(s);
    var m := Put(w, w.curr, w.tasks[w.curr].(rounds := 0, state := READY));
    if StintLeft(s) <= 1 {
      assert w.ticks % QUANTUM == 0 && w.tasks[w.curr].rounds == TURNOVER;
      assert Tick(s) == Reschedule(m);
      RescheduleTouches(m, s.curr);
      forall pid | Queued(s, pid) && pid != s.curr ensures Tick(s).curr != s.curr {
        NextIsNearer(m, pid, 1);
      }
    }
  }

  /** A task that nobody touches keeps the processor for exactly what is left of its stint: not a tick
      less, and on the tick that ends it another ready task gets it. */
  lemma {:induction false} StintIsExact(s: Table, es: seq<Event>)
    requires Good(s) && LegalRun(s, es) && LeavesAlone(es, s.curr)
    ensures Ticks(es) < StintLeft(s) ==>
              var r := Trace(s, es)[|es|];
              r.curr == s.curr && s.curr < |r.tasks| && StintLeft(r) == StintLeft(s) - Ticks(es)
    ensures es != [] && Ticks(es) == StintLeft(s) && es[|es| - 1].OnTick? ==>
              var m, r := Trace(s, es)[|es| - 1], Trace(s, es)[|es|];
              m.curr == s.curr && s.curr < |r.tasks| && r.tasks[s.curr].rounds == 0 && GaveWay(m, r)
    decreases |es|
  {
    if es != [] {
      TraceTail(s, es);
      StintStep(s, es[0]);
      assert Legal(s, es[0]) && ValidTask(s, s.curr);
      hide Step, Good, Legal, LegalRun, Trace, GaveWay;
      var s', rest := Step(s, es[0]), es[1..];
      TicksPositive(rest);
      if s'.curr == s.curr {
        assert LeavesAlone(rest, s'.curr);
        StintIsExact(s', rest);
      }
    }
  }

  // ----- waiting for children -----

  /** `p` waits for `c` by pid, and `c` is a live child of `p`. */
  predicate WaitsForLiveChild(s: Table, p: int, c: int) {
    && 0 <= p < |s.tasks| && 0 < c < |s.tasks| && p != c
    && s.tasks[p].state == WAITING && s.tasks[p].waitingFor == c
    && s.tasks[c].parent == p && Live(s, c)
  }

  lemma KillWakesParent(s: Table, p: int, c: int)
    requires Good(s) && WaitsForLiveChild(s, p, c) && c != s.idle && c != s.cleaner
    ensures Kill(s, c).tasks[p].state == READY || Kill(s, c).tasks[p].state == RUNNING
  {
    KillGood(s, c);
    assert ValidTask(s, p);
  }

  lemma KillElsewhere(s: Table, k: int, p: int, c: int)
    requires Good(s) && 0 <= k < |s.tasks| && k != c && WaitsForLiveChild(s, p, c)
    ensures WaitsWell(s) && |Kill(s, k).tasks| == |s.tasks|
    ensures Kill(s, k).tasks[p].state == WAITING ==> WaitsForLiveChild(Kill(s, k), p, c)
  {
    KillGood(s, k);
    assert ValidTask(s, p) && ValidTask(s, c) && ValidTask(s, k);
  }

  lemma ChildStep(s: Table, e: Event, p: int, c: int)
    requires Good(s) && Legal(s, e) && WaitsForLiveChild(s, p, c)
    ensures |Step(s, e).tasks| >= |s.tasks|
    ensures Step(s, e).tasks[p].state == WAITING ==> WaitsForLiveChild(Step(s, e), p, c)
  {
    assert ValidTask(s, p) && ValidTask(s, c);
    hide Reschedule, WaitsWell, ShouldWait, Kill;
    match e {
      case OnTick => TickChild(s, p, c);
      case OnBlock(k) => TouchChild(s, SetState(s, k, BLOCKED), p, c);
      case OnSleep(k, ms) => TouchChild(s, Put(s, k, s.tasks[k].(state := SLEEPING, timeout := ms)), p, c);
      case OnKill(k) => if k == c { KillWakesParent(s, p, c); } else { KillElsewhere(s, k, p, c); }
      case OnWait(k, child) =>
        TouchChild(s, SetState(Put(s, k, s.tasks[k].(waitingFor := child)), k, WAITING), p, c);
      case _ =>
    }
  }

  /** Another task may be chosen without ending the wait or the child. */
  lemma TouchChild(s: Table, m: Table, p: int, c: int)
    requires WaitsForLiveChild(s, p, c) && |m.tasks| == |s.tasks| && 0 <= m.curr < |m.tasks| && 0 <= m.idle < |m.tasks|
    requires m.tasks[p].state == WAITING ==> m.tasks[p].waitingFor == c
    requires m.tasks[c].parent == p && Live(m, c)
    ensures |Reschedule(m).tasks| == |s.tasks|
    ensures Reschedule(m).tasks[p].state == WAITING ==> WaitsForLiveChild(Reschedule(m), p, c)
  {
    hide Reschedule;
    RescheduleTouches(m, p);
    RescheduleTouches(m, c);
  }

  lemma TickChild(s: Table, p: int, c: int)
    requires Good(s) && WaitsForLiveChild(s, p, c)
    ensures |Tick(s).tasks| == |s.tasks|
    ensures Tick(s).tasks[p].state == WAITING ==> WaitsForLiveChild(Tick(s), p, c)
  {
    assert ValidTask(s, p) && ValidTask(s, c) && ValidTask(s, s.curr);
    hide Reschedule;
    TickTouches(s, p);
    if c != s.curr {
      TickTouches(s, c);
    } else {
      var w := WakeAll(s);
      RescheduleTouches(Put(w, w.curr, w.tasks[w.curr].(rounds := 0, state := READY)), c);
    }
  }

  /** As long as a parent waits for a child that was live when the wait began, the child is live:
      it is never left waiting for a child that has been killed. */
  lemma {:induction false} NoWaitForTheDead(s: Table, es: seq<Event>, p: int, c: int)
    requires Good(s) && LegalRun(s, es) && WaitsForLiveChild(s, p, c)
    requires forall k :: 0 <= k <= |es| ==> p < |Trace(s, es)[k].tasks| && Trace(s, es)[k].tasks[p].state == WAITING
    ensures forall k :: 0 <= k <= |es| ==> WaitsForLiveChild(Trace(s, es)[k], p, c)
    decreases |es|
  {
    if es != [] {
      TraceTail(s, es);
      var s', rest := Step(s, es[0]), es[1..];
      assert Trace(s, es)[1] == s';
      ChildStep(s, es[0], p, c);
      forall k | 0 <= k <= |rest|
        ensures p < |Trace(s', rest)[k].tasks| && Trace(s', rest)[k].tasks[p].state == WAITING
      {
        assert Trace(s, es)[k + 1] == Trace(s', rest)[k];
      }
      NoWaitForTheDead(s', rest, p, c);
      forall k | 0 < k <= |es| ensures WaitsForLiveChild(Trace(s, es)[k], p, c) {
        assert Trace(s, es)[k] == Trace(s', rest)[k - 1];
      }
    }
  }

  /** Waiting for any child ends with the next child killed, and reports its pid. */
  lemma AnyChildWakes(s: Table, p: int, c: int)
    requires Good(s) && 0 <= p < |s.tasks| && 0 <= c < |s.tasks| && p != c
    requires s.tasks[p].state == WAITING && s.tasks[p].waitingFor == CHILD_ANY
    requires s.tasks[c].parent == p && Live(s, c)
    ensures WaitsWell(s)
    ensures Kill(s, c).tasks[p].state == READY || Kill(s, c).tasks[p].state == RUNNING
    ensures Kill(s, c).tasks[p].waitingFor == c
  {
    KillGood(s, c);
    assert ValidTask(s, p);
  }

  /** `p` waits for all children; the idle task and the cleaner, which are made to run otherwise, do not. */
  predicate WaitsForAll(s: Table, p: int) {
    && 0 <= p < |s.tasks| && p != s.cleaner && p != s.idle
    && s.tasks[p].state == WAITING && s.tasks[p].waitingFor == CHILD_ALL
  }

  /** No event of the run is aimed at `p`. */
  predicate Ignores(es: seq<Event>, p: int) {
    LeavesAlone(es, p) && forall k :: 0 <= k < |es| ==> es[k] != OnUnblock(p)
  }

  /** The death of a child, even of the last one, does not end such a wait. */
  lemma KillWakesNoneOfAll(s: Table, p: int, c: int)
    requires Good(s) && WaitsForAll(s, p) && 0 <= c < |s.tasks| && p != c
    ensures WaitsWell(SetState(s, c, KILLED)) && |Kill(s, c).tasks| == |s.tasks| && Kill(s, c).tasks[p] == s.tasks[p]
  {
    KillWaits(s, c);
    var d := SetState(s, c, KILLED);
    if d.tasks[c].parent == p {
      assert HasChild(d, p);
    }
    hide Reschedule;
    RescheduleTouches(Unblock(WakeParent(d, c), s.cleaner), p);
  }

  lemma AllChildrenStep(s: Table, e: Event, p: int)
    requires Good(s) && Legal(s, e) && WaitsForAll(s, p) && !Touches(e, p) && e != OnUnblock(p)
    ensures |Step(s, e).tasks| >= |s.tasks| && Step(s, e).tasks[p] == s.tasks[p]
  {
    assert ValidTask(s, p) && ValidTask(s, s.curr);
    hide Reschedule, WaitsWell, ShouldWait, Kill;
    match e {
      case OnTick => TickTouches(s, p);
      case OnBlock(k) => RescheduleTouches(SetState(s, k, BLOCKED), p);
      case OnSleep(k, ms) => RescheduleTouches(Put(s, k, s.tasks[k].(state := SLEEPING, timeout := ms)), p);
      case OnKill(k) => KillWakesNoneOfAll(s, p, k);
      case OnWait(k, child) =>
        RescheduleTouches(SetState(Put(s, k, s.tasks[k].(waitingFor := child)), k, WAITING), p);
      case _ =>
    }
  }

  /** Waiting for all children does not do what its name says: over any run, however many children die,
      the task keeps waiting until somebody unblocks it or another call is made on it. */
  lemma {:induction false} AllChildrenNeverWakes(s: Table, es: seq<Event>, p: int)
    requires Good(s) && LegalRun(s, es) && WaitsForAll(s, p) && Ignores(es, p)
    ensures |Trace(s, es)[|es|].tasks| >= |s.tasks| && Trace(s, es)[|es|].tasks[p] == s.tasks[p]
    decreases |es|
  {
    if es != [] {
      TraceTail(s, es);
      StepGood(s, es[0]);
      assert Legal(s, es[0]) && !Touches(es[0], p) && es[0] != OnUnblock(p);
      hide Step, Good, Legal, LegalRun, Trace;
      AllChildrenStep(s, es[0], p);
      AllChildrenNeverWakes(Step(s, es[0]), es[1..], p);
    }
  }

  // ----- waiting for somebody else's child -----

  /** `p` waits for the task `c`. */
  predicate WaitsFor(s: Table, p: int, c: int) {
    && 0 <= p < |s.tasks| && 0 < c < |s.tasks| && p != s.cleaner && p != s.idle
    && s.tasks[p].state == WAITING && s.tasks[p].waitingFor == c
  }

  /** A kill ends such a wait if and only if it kills a child of the waiting task and the task waited for is
      dead then, be it the one just killed or one that waits for the cleaner. */
  lemma KillEndsWait(s: Table, p: int, c: int, k: int)
    requires Good(s) && WaitsFor(s, p, c) && 0 <= k < |s.tasks| && k != p
    ensures WaitsWell(s) && |Kill(s, k).tasks| == |s.tasks|
    ensures if s.tasks[k].parent == p && (k == c || s.tasks[c].state == KILLED)
            then Kill(s, k).tasks[p].state != WAITING else Kill(s, k).tasks[p] == s.tasks[p]
  {
    KillWaits(s, k);
    hide Reschedule;
    RescheduleTouches(Unblock(WakeParent(SetState(s, k, KILLED), k), s.cleaner), p);
  }

  /** The event does not kill a child of `p`. */
  predicate SparesChildren(s: Table, e: Event, p: int) {
    e.OnKill? && 0 <= e.pid < |s.tasks| ==> s.tasks[e.pid].parent != p
  }

  lemma ForeignStep(s: Table, e: Event, p: int, c: int)
    requires Good(s) && Legal(s, e) && WaitsFor(s, p, c) && !Touches(e, p) && e != OnUnblock(p)
    requires SparesChildren(s, e, p)
    ensures |Step(s, e).tasks| >= |s.tasks| && Step(s, e).tasks[p] == s.tasks[p]
  {
    assert ValidTask(s, p) && ValidTask(s, s.curr);
    hide Reschedule, WaitsWell, ShouldWait, Kill;
    match e {
      case OnTick => TickTouches(s, p);
      case OnBlock(k) => RescheduleTouches(SetState(s, k, BLOCKED), p);
      case OnSleep(k, ms) => RescheduleTouches(Put(s, k, s.tasks[k].(state := SLEEPING, timeout := ms)), p);
      case OnKill(k) => KillEndsWait(s, p, c, k);
      case OnWait(k, child) =>
        RescheduleTouches(SetState(Put(s, k, s.tasks[k].(waitingFor := child)), k, WAITING), p);
      case _ =>
    }
  }

  /** A wait for a task outlives that task when it is not a child of the waiting one: over any run that is not
      aimed at the waiting task and kills no child of it the wait goes on, whatever becomes of the other. */
  lemma {:induction false} ForeignWaitGoesOn(s: Table, es: seq<Event>, p: int, c: int)
    requires Good(s) && LegalRun(s, es) && WaitsFor(s, p, c) && Ignores(es, p)
    requires forall k :: 0 <= k < |es| ==> SparesChildren(Trace(s, es)[k], es[k], p)
    ensures |Trace(s, es)[|es|].tasks| >= |s.tasks| && Trace(s, es)[|es|].tasks[p] == s.tasks[p]
    decreases |es|
  {
    if es != [] {
      TraceTail(s, es);
      StepGood(s, es[0]);
      var s', rest := Step(s, es[0]), es[1..];
      assert Legal(s, es[0]) && !Touches(es[0], p) && es[0] != OnUnblock(p);
      assert SparesChildren(Trace(s, es)[0], es[0], p);
      hide Step, Good, Legal, LegalRun, Trace, SparesChildren;
      ForeignStep(s, es[0], p, c);
      forall k | 0 <= k < |rest| ensures SparesChildren(Trace(s', rest)[k], rest[k], p) {
        assert Trace(s, es)[k + 1] == Trace(s', rest)[k] && es[k + 1] == rest[k];
        assert SparesChildren(Trace(s, es)[k + 1], es[k + 1], p);
      }
      ForeignWaitGoesOn(s', rest, p, c);
    }
  }

  /** Such a wait begins exactly when some slot, even an empty one, names the task as parent. */
  lemma AllChildrenWaits(s: Table)
    requires Good(s) && s.curr != s.idle
    ensures Wait(s, s.curr, CHILD_ALL).tasks[s.curr].state == WAITING <==> HasChild(s, s.curr)
  {
    assert ValidTask(s, s.curr);
    var w := Put(s, s.curr, s.tasks[s.curr].(waitingFor := CHILD_ALL));
    assert HasChild(w, s.curr) <==> HasChild(s, s.curr) by {
      assert forall i :: 0 <= i < |s.tasks| ==> w.tasks[i].parent == s.tasks[i].parent;
    }
  }
}
