/** The task table of kernel/scheduler.cpp as a value, and what each operation makes of it. */
module TaskTable {
  const QUANTUM := 10
  const TURNOVER := 4
  const CHILD_ANY := -1
  const CHILD_ALL := -2
  const WORD := 0x1_0000_0000

  datatype State = EMPTY | NEW | READY | RUNNING | BLOCKED | SLEEPING | WAITING | KILLED

  datatype Task = Task(pid: int, parent: int, waitingFor: int, timeout: int, rounds: int, state: State)

  /** `idle` and `cleaner` are the pids of those kernel tasks. */
  datatype Table = Table(tasks: seq<Task>, curr: int, ticks: int, idle: int, cleaner: int)

  function Put(s: Table, pid: int, t: Task): Table
    requires 0 <= pid < |s.tasks|
  {
    s.(tasks := s.tasks[pid := t])
  }

  function SetState(s: Table, pid: int, st: State): Table
    requires 0 <= pid < |s.tasks|
  {
    Put(s, pid, s.tasks[pid].(state := st))
  }

  /** What the operations need of the table and keep: the current task, and it alone, is RUNNING. */
  ghost predicate Valid(s: Table) {
    && 0 <= s.curr < |s.tasks| && 0 <= s.idle < |s.tasks| && 0 <= s.cleaner < |s.tasks|
    && s.ticks >= 0
    && (forall i :: 0 <= i < |s.tasks| ==> ValidTask(s, i))
  }

  ghost predicate ValidTask(s: Table, i: int)
    requires 0 <= i < |s.tasks|
  {
    && s.tasks[i].pid == i
    && 0 <= s.tasks[i].rounds <= TURNOVER
    && 0 <= s.tasks[i].timeout < WORD
    && (s.tasks[i].state == RUNNING <==> i == s.curr)
  }

  /** Valid but for the state of the current task, which is no longer RUNNING. */
  ghost predicate Switching(s: Table) {
    && 0 <= s.curr < |s.tasks| && 0 <= s.idle < |s.tasks| && 0 <= s.cleaner < |s.tasks|
    && s.ticks >= 0
    && (forall i :: 0 <= i < |s.tasks| ==>
          && s.tasks[i].pid == i && 0 <= s.tasks[i].rounds <= TURNOVER && 0 <= s.tasks[i].timeout < WORD
          && s.tasks[i].state != RUNNING)
  }

  /** The `i`th slot after the current one, going round. */
  function Slot(s: Table, i: int): int
    requires 0 <= s.curr < |s.tasks| && 0 <= i < |s.tasks|
  {
    if i + s.curr < |s.tasks| then i + s.curr else i + s.curr - |s.tasks|
  }

  lemma SlotIsModulo(s: Table, i: int)
    requires 0 <= s.curr < |s.tasks| && 0 <= i < |s.tasks|
    ensures (i + s.curr) % |s.tasks| == Slot(s, i)
  {
    var n := |s.tasks|;
    if i + s.curr < n {
      assert (i + s.curr) / n == 0;
    } else {
      assert i + s.curr == n + (i + s.curr - n);
      assert (i + s.curr - n) / n == 0;
      assert (i + s.curr) / n == 1;
    }
  }

  /** The task `i` places on may be given the processor by the search. */
  predicate Candidate(s: Table, i: int)
    requires 0 <= s.curr < |s.tasks| && 0 <= i < |s.tasks|
  {
    Slot(s, i) != s.idle && s.tasks[Slot(s, i)].state == READY
  }

  /** nextTask, from the `i`th place on: the first candidate, the idle task when there is none. */
  function NextFrom(s: Table, i: int): (pid: int)
    requires 0 <= s.curr < |s.tasks| && 0 <= s.idle < |s.tasks| && 1 <= i <= |s.tasks|
    ensures 0 <= pid < |s.tasks|
    ensures pid == s.idle || s.tasks[pid].state == READY
    decreases |s.tasks| - i
  {
    if i == |s.tasks| then s.idle else if Candidate(s, i) then Slot(s, i) else NextFrom(s, i + 1)
  }

  /** The task found is the first candidate going round; the idle task is found only when there is none. */
  ghost predicate IsFirst(s: Table, i: int, pid: int)
    requires 0 <= s.curr < |s.tasks| && 1 <= i <= |s.tasks|
  {
    if exists k :: i <= k < |s.tasks| && Candidate(s, k) then
      exists k :: && i <= k < |s.tasks| && Candidate(s, k) && pid == Slot(s, k)
                  && forall j :: i <= j < k ==> !Candidate(s, j)
    else
      pid == s.idle
  }

  lemma {:induction false} NextIsFirst(s: Table, i: int)
    requires 0 <= s.curr < |s.tasks| && 0 <= s.idle < |s.tasks| && 1 <= i <= |s.tasks|
    ensures IsFirst(s, i, NextFrom(s, i))
    decreases |s.tasks| - i
  {
    if i < |s.tasks| && !Candidate(s, i) {
      NextIsFirst(s, i + 1);
      if k :| i <= k < |s.tasks| && Candidate(s, k) { assert i + 1 <= k; }
    }
  }

  function Reschedule(s: Table): Table
    requires 0 <= s.curr < |s.tasks| && 0 <= s.idle < |s.tasks|
  {
    if s.tasks[s.curr].state == RUNNING then s
    else var pid := NextFrom(s, 1); SetState(s, pid, RUNNING).(curr := pid)
  }

  /** A sleeping task loses a tick, in 32-bit arithmetic, and is READY when none is left. */
  function Wake(t: Task): Task {
    if t.state != SLEEPING then t
    else
      var left := (t.timeout - 1) % WORD;
      t.(timeout := left, state := if left == 0 then READY else SLEEPING)
  }

  function WakeAll(s: Table): Table {
    s.(tasks := seq(|s.tasks|, i requires 0 <= i < |s.tasks| => Wake(s.tasks[i])), ticks := s.ticks + 1)
  }

  function Tick(s: Table): Table
    requires 0 <= s.curr < |s.tasks| && 0 <= s.idle < |s.tasks|
  {
    var w := WakeAll(s);
    var t := w.tasks[w.curr];
    if w.ticks % QUANTUM != 0 then w
    else if t.rounds != TURNOVER then Put(w, w.curr, t.(rounds := t.rounds + 1))
    else Reschedule(Put(w, w.curr, t.(rounds := 0, state := READY)))
  }

  function Block(s: Table, pid: int): Table
    requires 0 <= s.curr < |s.tasks| && 0 <= s.idle < |s.tasks| && 0 <= pid < |s.tasks|
  {
    Reschedule(SetState(s, pid, BLOCKED))
  }

  function Sleep(s: Table, pid: int, ms: int): Table
    requires 0 <= s.curr < |s.tasks| && 0 <= s.idle < |s.tasks| && 0 <= pid < |s.tasks|
  {
    Reschedule(Put(s, pid, s.tasks[pid].(state := SLEEPING, timeout := ms)))
  }

  function Unblock(s: Table, pid: int): Table
    requires 0 <= pid < |s.tasks|
  {
    if s.tasks[pid].state != BLOCKED && s.tasks[pid].state != WAITING then s else SetState(s, pid, READY)
  }

  /** What a task may wait for: a pid of the table, any child or all children; the rest panics. */
  predicate Waitable(s: Table, child: int) {
    0 < child < |s.tasks| || child == CHILD_ANY || child == CHILD_ALL
  }

  predicate HasChild(s: Table, pid: int) {
    exists i :: 0 <= i < |s.tasks| && s.tasks[i].parent == pid
  }

  /** For all children the source tests the state of the waiting task, not of the child. */
  predicate ShouldWait(s: Table, pid: int, childJustKilled: bool)
    requires 0 <= pid < |s.tasks| && Waitable(s, s.tasks[pid].waitingFor)
  {
    var w := s.tasks[pid].waitingFor;
    if w > 0 then s.tasks[w].state != KILLED
    else if w == CHILD_ANY then !childJustKilled
    else HasChild(s, pid) && s.tasks[pid].state != KILLED
  }

  /** Waiting tasks wait for something they may wait for. */
  ghost predicate WaitsWell(s: Table) {
    forall i :: 0 <= i < |s.tasks| && s.tasks[i].state == WAITING ==> Waitable(s, s.tasks[i].waitingFor)
  }

  /** The parent of the task just killed is made ready if that is what it waited for. */
  function WakeParent(s: Table, pid: int): Table
    requires 0 <= pid < |s.tasks| && WaitsWell(s)
  {
    var p := s.tasks[pid].parent;
    if 0 <= p < |s.tasks| && s.tasks[p].state == WAITING && !ShouldWait(s, p, true)
    then Put(s, p, s.tasks[p].(waitingFor := pid, state := READY))
    else s
  }

  function Kill(s: Table, pid: int): Table
    requires 0 <= s.curr < |s.tasks| && 0 <= s.idle < |s.tasks| && 0 <= s.cleaner < |s.tasks|
    requires 0 <= pid < |s.tasks| && WaitsWell(s)
  {
    Reschedule(Unblock(WakeParent(SetState(s, pid, KILLED), pid), s.cleaner))
  }

  function Wait(s: Table, pid: int, child: int): Table
    requires 0 <= s.curr < |s.tasks| && 0 <= s.idle < |s.tasks| && 0 <= pid < |s.tasks|
    requires Waitable(s, child)
  {
    var w := Put(s, pid, s.tasks[pid].(waitingFor := child));
    if !ShouldWait(w, pid, false) then w else Reschedule(SetState(w, pid, WAITING))
  }

  /** newTask: the first EMPTY slot, or a new one at the end. */
  function FreeSlot(s: Table, i: int): (pid: int)
    requires 0 <= i <= |s.tasks|
    ensures i <= pid <= |s.tasks|
    ensures pid < |s.tasks| ==> s.tasks[pid].state == EMPTY
    ensures forall j :: i <= j < pid ==> s.tasks[j].state != EMPTY
    decreases |s.tasks| - i
  {
    if i == |s.tasks| || s.tasks[i].state == EMPTY then i else FreeSlot(s, i + 1)
  }

  /** newTask and the end of newKernelTask or newUserTask: the task is READY. `blank` is what the
      fields that newTask leaves alone hold in a slot just added. */
  function Spawn(s: Table, blank: Task): Table {
    var pid := FreeSlot(s, 0);
    var was := if pid == |s.tasks| then blank else s.tasks[pid];
    var t := was.(pid := pid, parent := s.curr, rounds := 0, state := READY);
    if pid == |s.tasks| then s.(tasks := s.tasks + [t]) else Put(s, pid, t)
  }

  /** One pass of the cleaner over the table, as far as scheduling sees it. */
  function Clean(s: Table): Table {
    s.(tasks := seq(|s.tasks|, i requires 0 <= i < |s.tasks| =>
                      if s.tasks[i].state == KILLED then s.tasks[i].(state := EMPTY) else s.tasks[i]))
  }
}
