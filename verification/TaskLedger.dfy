/** Which task holds which frame of the physical allocator, and what keeps that right: the lemmas behind
    the operations of TaskMemory. */
module TaskLedger {
  import opened Intervals
  import opened PageTables
  import opened Paging
  import opened TaskSpace
  import opened Wrappers

  /** `address` starts a run of `n` frames that was free and now is not. */
  ghost predicate Fresh(live: set<int>, live': set<int>, size: int, address: int, n: int) {
    && Aligned(address) && 0 < address / PAGE_SIZE && 0 <= n && address / PAGE_SIZE + n < size
    && live' == live + Interval(address / PAGE_SIZE, address / PAGE_SIZE + n)
    && forall f :: address / PAGE_SIZE <= f < address / PAGE_SIZE + n ==> f !in live
  }

  /** What holds memory is in use, and a slot that holds none records nothing. */
  ghost predicate NothingLeft(tasks: seq<UserTask>) {
    forall u {:trigger tasks[u]} :: 0 <= u < |tasks| ==>
      (tasks[u].live ==> tasks[u].used) && (!tasks[u].live ==> tasks[u].segments == [])
  }

  /** The first slot is the idle task's. It stands for the kernel's own address space: the kernel's
      directory is the one frame it holds. */
  ghost predicate KernelSlot(tasks: seq<UserTask>) {
    |tasks| > 0 && tasks[0].live && tasks[0].segments == []
  }

  /** Every frame handed out has one holder: the kernel or a task that is not yet cleaned. */
  ghost predicate Ledger(ram: Ram, owner: Owners, tasks: seq<UserTask>, live: set<int>, size: int) {
    && ValidRam(ram) && (forall f {:trigger f in ram} :: 0 <= f < size ==> f in ram)
    && (forall f {:trigger f in owner} {:trigger f in live} :: f in owner <==> f in live)
    && (forall f {:trigger owner[f]} :: f in owner ==>
      owner[f] == KERNEL || (0 <= owner[f] < |tasks| && tasks[owner[f]].live))
    && NothingLeft(tasks) && KernelSlot(tasks)
  }

  ghost predicate Good(ram: Ram, owner: Owners, tasks: seq<UserTask>, live: set<int>, size: int) {
    Ledger(ram, owner, tasks, live, size) && OthersGood(ram, owner, tasks, -1)
  }

  ghost predicate GoodBut(ram: Ram, owner: Owners, tasks: seq<UserTask>, live: set<int>, size: int, t: int,
                          except: int) {
    && Ledger(ram, owner, tasks, live, size) && 0 < t < |tasks| && tasks[t].used && tasks[t].live
    && -1 <= except < |tasks[t].segments|
    && OthersGood(ram, owner, tasks, t) && TaskGood(ram, owner, t, tasks[t], 0, except)
  }

  lemma IsLive(ram: Ram, owner: Owners, tasks: seq<UserTask>, live: set<int>, size: int, t: int)
    requires GoodBut(ram, owner, tasks, live, size, t, -1)
    ensures 0 < t < |tasks| && tasks[t].used && tasks[t].live
  {
  }

  lemma NoneExcepted(ram: Ram, owner: Owners, tasks: seq<UserTask>, live: set<int>, size: int, t: int)
    requires 0 < t < |tasks| && tasks[t].live
    ensures GoodBut(ram, owner, tasks, live, size, t, -1) <==> Good(ram, owner, tasks, live, size)
  {
    hide TaskGood;
  }

  /** Pages are translated as before, but for those of the window. */
  ghost predicate SameBelowWindow(ram: Ram, ram': Ram, cr3: int)
    requires ValidRam(ram) && ValidRam(ram')
  {
    forall p {:trigger Walk(ram', cr3, p)} :: IsPage(p) && !InWindow(p) ==> Walk(ram', cr3, p) == Walk(ram, cr3, p)
  }

  /** Directory entries that named a table still do, and of the others only those for the pages [lo, hi)
      may have changed. */
  ghost predicate EntriesGrow(ram: Ram, ram': Ram, cr3: int, lo: int, hi: int) {
    && ValidRam(ram) && ValidRam(ram') && cr3 in ram && cr3 in ram'
    && forall i {:trigger HasTable(ram', cr3, i)} ::
         0 <= i < SELF && (HasTable(ram, cr3, i) || !(Pde(lo) <= i && i * ENTRIES < hi)) ==> ram'[cr3][i] == ram[cr3][i]
  }

  /** Only entry `i`, which named no table, has changed. */
  ghost predicate OneEntry(ram: Ram, ram': Ram, cr3: int, i: int) {
    && ValidRam(ram) && ValidRam(ram') && cr3 in ram && cr3 in ram' && 0 <= i < SELF && !HasTable(ram, cr3, i)
    && forall j :: 0 <= j < SELF && j != i ==> ram'[cr3][j] == ram[cr3][j]
  }

  lemma OneEntryGrows(ram: Ram, ram': Ram, cr3: int, page: int)
    requires IsPage(page) && (OneEntry(ram, ram', cr3, Pde(page)) || (ValidRam(ram) && cr3 in ram && ram' == ram))
    ensures EntriesGrow(ram, ram', cr3, page, page + 1)
  {
  }

  lemma EntriesThen(a: Ram, b: Ram, c: Ram, cr3: int, lo: int, mid: int, hi: int)
    requires EntriesGrow(a, b, cr3, lo, mid) && EntriesGrow(b, c, cr3, mid, hi) && lo <= mid <= hi
    ensures EntriesGrow(a, c, cr3, lo, hi)
  {
    forall i | 0 <= i < SELF && (HasTable(a, cr3, i) || !(Pde(lo) <= i && i * ENTRIES < hi))
      ensures c[cr3][i] == a[cr3][i]
    {
      assert HasTable(b, cr3, i) || !HasTable(b, cr3, i);
      assert HasTable(c, cr3, i) || !HasTable(c, cr3, i);
    }
  }

  lemma EntriesAgain(a: Ram, b: Ram, c: Ram, cr3: int, page: int)
    requires EntriesGrow(a, b, cr3, page, page + 1) && EntriesGrow(b, c, cr3, page, page + 1)
    ensures EntriesGrow(a, c, cr3, page, page + 1)
  {
    forall i | 0 <= i < SELF && (HasTable(a, cr3, i) || !(Pde(page) <= i && i * ENTRIES < page + 1))
      ensures c[cr3][i] == a[cr3][i]
    {
      assert HasTable(b, cr3, i) || !HasTable(b, cr3, i);
      assert HasTable(c, cr3, i) || !HasTable(c, cr3, i);
    }
  }

  lemma EntriesWiden(a: Ram, b: Ram, cr3: int, lo: int, mid: int, hi: int)
    requires EntriesGrow(a, b, cr3, lo, mid) && mid <= hi
    ensures EntriesGrow(a, b, cr3, lo, hi)
  {
    forall i | 0 <= i < SELF && (HasTable(a, cr3, i) || !(Pde(lo) <= i && i * ENTRIES < hi))
      ensures b[cr3][i] == a[cr3][i]
    {
      assert HasTable(b, cr3, i) || !HasTable(b, cr3, i);
    }
  }

  /** Table `i` of task `t` exists, takes no right away, is the task's own and is recorded; nobody's pages changed. */
  ghost predicate TableMade(ram: Ram, tasks: seq<UserTask>, ram': Ram, owner': Owners, tasks': seq<UserTask>, t: int,
                            i: int) {
    && 0 <= t < |tasks| && 0 <= i < SELF && ValidRam(ram) && ValidRam(ram') && |tasks'| == |tasks|
    && (var cr3 := tasks[t].cr3;
        && cr3 in ram' && HasTable(ram', cr3, i) && Owned(owner', TableOf(ram', cr3, i), t)
        && Unrestricted(ram'[cr3][i])
        && SameBelowWindow(ram, ram', cr3) && OthersSame(ram, ram', tasks, t) && OneEntry(ram, ram', cr3, i))
    && OnlyTask(tasks, tasks', t) && Grown(tasks[t], tasks'[t])
    && |tasks'[t].segments| == |tasks[t].segments| + 1
  }

  ghost predicate OnlyTask(tasks: seq<UserTask>, tasks': seq<UserTask>, t: int) {
    |tasks'| == |tasks| && forall u {:trigger tasks'[u]} :: 0 <= u < |tasks| && u != t ==> tasks'[u] == tasks[u]
  }

  /** Nothing changed but that tables were recorded. */
  ghost predicate Grown(task: UserTask, task': UserTask) {
    && task' == task.(segments := task'.segments)
    && task.segments <= task'.segments
    && forall k {:trigger task'.segments[k]} :: |task.segments| <= k < |task'.segments| ==>
         task'.segments[k].virt == 0 && task'.segments[k].pages == 1
  }

  lemma OthersAfterGrant(ram: Ram, owner: Owners, tasks: seq<UserTask>, tasks': seq<UserTask>, t: int, first: int,
                         n: int)
    requires OthersGood(ram, owner, tasks, t) && 0 <= n && 0 <= t < |tasks| && |tasks'| == |tasks|
    requires forall f :: first <= f < first + n ==> f !in owner
    requires forall u {:trigger tasks'[u]} :: 0 <= u < |tasks| && u != t ==> tasks'[u] == tasks[u]
    ensures OthersGood(ram, Grant(owner, first, n, t), tasks', t)
  {
    hide TaskGood;
    forall u | 0 <= u < |tasks| && u != t ensures SameHoldings(owner, Grant(owner, first, n, t), u) {
      GrantElsewhere(owner, first, n, t, u);
    }
    AllOthersOwners(ram, owner, Grant(owner, first, n, t), tasks, t);
  }

  lemma FreshFrames(ram: Ram, owner: Owners, tasks: seq<UserTask>, live: set<int>, live': set<int>, size: int,
                    address: int, n: int)
    requires Ledger(ram, owner, tasks, live, size) && Fresh(live, live', size, address, n)
    ensures ValidRam(ram) && address == address / PAGE_SIZE * PAGE_SIZE && 0 < address / PAGE_SIZE && 0 <= n
    ensures forall f :: address / PAGE_SIZE <= f < address / PAGE_SIZE + n ==> f in ram && f !in owner && f < size
  {
  }

  /** Frames granted to a task that holds memory keep the ledger right. */
  lemma LedgerGrant(ram: Ram, ram': Ram, owner: Owners, tasks: seq<UserTask>, tasks': seq<UserTask>, live: set<int>,
                    live': set<int>, size: int, t: int, address: int, n: int)
    requires Ledger(ram, owner, tasks, live, size) && Fresh(live, live', size, address, n)
    requires 0 < t < |tasks| && OnlyTask(tasks, tasks', t) && tasks'[t].live && tasks'[t].used
    requires ValidRam(ram') && ram'.Keys == ram.Keys
    ensures Ledger(ram', Grant(owner, address / PAGE_SIZE, n, t), tasks', live', size)
  {
    forall f | 0 <= f < size ensures f in ram' {
      assert f in ram;
      assert f in ram'.Keys;
    }
  }

  lemma TableGood(ram: Ram, r: Ram, owner: Owners, tasks: seq<UserTask>, tasks': seq<UserTask>, live: set<int>,
                  live': set<int>, size: int, t: int, except: int, i: int, f: int, w: int)
    requires GoodBut(ram, owner, tasks, live, size, t, except) && Fresh(live, live', size, f * PAGE_SIZE, 1)
    requires 0 <= i < SELF && !HasTable(ram, tasks[t].cr3, i) && f in ram && f !in owner
    requires NamesTable(w, f)
    requires r == Poke(ram, tasks[t].cr3, i, w)[f := seq(ENTRIES, _ => 0)]
    requires tasks' == tasks[t := tasks[t].(segments := tasks[t].segments + [Segment(f * PAGE_SIZE, 0, 1)])]
    ensures GoodBut(r, Grant(owner, f, 1, t), tasks', live', size, t, except)
    ensures TableMade(ram, tasks, r, Grant(owner, f, 1, t), tasks', t, i)
  {
    hide Walk, Directory, Recorded, MappedFrom, OthersGood, Ledger, Fresh, TaskGood, OthersSame, Grant;
    var cr3 := tasks[t].cr3;
    TaskHolds(ram, owner, t, tasks[t], except);
    SameFrames(ram, r, cr3, i, f, w);
    NewTable(ram, owner, t, tasks[t], except, i, f, w);
    LedgerGrant(ram, r, owner, tasks, tasks', live, live', size, t, f * PAGE_SIZE, 1);
    AllOthersEdit(ram, r, owner, tasks, t);
    OthersAfterGrant(r, owner, tasks, tasks', t, f, 1);
    GrantGives(owner, f, 1, t, f);
  }

  lemma SameFrames(ram: Ram, r: Ram, cr3: int, i: int, f: int, w: int)
    requires ValidRam(ram) && cr3 in ram && f in ram && 0 <= i < ENTRIES
             && r == Poke(ram, cr3, i, w)[f := seq(ENTRIES, _ => 0)]
    ensures ValidRam(r) && r.Keys == ram.Keys && forall g :: g in ram && g != cr3 && g != f ==> r[g] == ram[g]
  {
    assert r.Keys == ram.Keys;
  }

  lemma TaskHolds(ram: Ram, owner: Owners, t: int, task: UserTask, except: int)
    requires TaskGood(ram, owner, t, task, 0, except)
    ensures ValidRam(ram) && task.cr3 in ram && Owned(owner, task.cr3, t)
  {
  }

  lemma GrantGives(owner: Owners, first: int, n: int, t: int, f: int)
    requires first <= f < first + n
    ensures Owned(Grant(owner, first, n, t), f, t)
  {
  }

  /** No other task sees the table through which `page` is mapped in task `t`. */
  ghost predicate OwnTable(ram: Ram, owner: Owners, t: int, cr3: int, page: int)
    requires ValidRam(ram) && cr3 in ram && 0 <= Pde(page) < ENTRIES
  {
    HasTable(ram, cr3, Pde(page)) ==> Owned(owner, TableOf(ram, cr3, Pde(page)), t)
  }

  /** The page was not mapped and now is, with entry `w`; the others are as they were. */
  ghost predicate PageMapped(ram: Ram, ram': Ram, cr3: int, page: int, w: int) {
    && ValidRam(ram) && ValidRam(ram') && IsPage(page) && !InWindow(page)
    && Walk(ram, cr3, page) == None && Walk(ram', cr3, page) == Some(w) && SameOutside(ram, ram', cr3, page, page + 1)
    && EntriesGrow(ram, ram', cr3, page, page + 1)
  }

  lemma TableInRam(ram: Ram, owner: Owners, t: int, task: UserTask, first: int, except: int, i: int)
    requires TaskGood(ram, owner, t, task, first, except) && 0 <= i < SELF
    ensures ValidRam(ram) && task.cr3 in ram
    ensures HasTable(ram, task.cr3, i) ==> TableOf(ram, task.cr3, i) in ram && TableOf(ram, task.cr3, i) in owner
  {
  }

  lemma NoEntryNoPage(ram: Ram, cr3: int, page: int)
    requires ValidRam(ram) && cr3 in ram && IsPage(page) && HasTable(ram, cr3, Pde(page))
    requires TableOf(ram, cr3, Pde(page)) in ram
    ensures Walk(ram, cr3, page).Some? <==> IsPresent(ram[TableOf(ram, cr3, Pde(page))][Pte(page)])
  {
  }

  lemma MadeFacts(ram: Ram, tasks: seq<UserTask>, ram': Ram, owner': Owners, tasks': seq<UserTask>, t: int, i: int)
    requires TableMade(ram, tasks, ram', owner', tasks', t, i)
    ensures OnlyTask(tasks, tasks', t) && Grown(tasks[t], tasks'[t]) && ValidRam(ram) && ValidRam(ram')
    ensures var cr3 := tasks[t].cr3;
            && cr3 in ram' && HasTable(ram', cr3, i) && Owned(owner', TableOf(ram', cr3, i), t)
            && SameBelowWindow(ram, ram', cr3) && OthersSame(ram, ram', tasks, t) && OneEntry(ram, ram', cr3, i)
    ensures OthersKeep(ram, ram', tasks, t)
  {
    SameIsKept(ram, ram', tasks, t);
  }

  lemma ThenMapped(a: Ram, b: Ram, c: Ram, cr3: int, page: int, w: int)
    requires ValidRam(a) && ValidRam(b) && ValidRam(c) && SameBelowWindow(a, b, cr3)
    requires PageMapped(b, c, cr3, page, w) && EntriesGrow(a, b, cr3, page, page + 1)
    ensures PageMapped(a, c, cr3, page, w)
  {
    hide Walk;
    EntriesAgain(a, b, c, cr3, page);
    forall p | IsPage(p) && !InWindow(p) && p != page ensures Walk(c, cr3, p) == Walk(a, cr3, p) {
      assert Walk(b, cr3, p) == Walk(a, cr3, p);
    }
    assert Walk(b, cr3, page) == Walk(a, cr3, page);
  }

  /** A page found mapped when its table had been made was mapped before. */
  lemma WasMapped(a: Ram, b: Ram, cr3: int, page: int)
    requires ValidRam(a) && ValidRam(b) && cr3 in b && IsPage(page) && !InWindow(page) && SameBelowWindow(a, b, cr3)
    requires HasTable(b, cr3, Pde(page)) && TableOf(b, cr3, Pde(page)) in b
    requires IsPresent(b[TableOf(b, cr3, Pde(page))][Pte(page)])
    ensures !FreeRun(a, cr3, page, 1)
  {
    NoEntryNoPage(b, cr3, page);
    hide Walk;
    assert Walk(a, cr3, page) == Walk(b, cr3, page);
  }

  lemma OthersThen(a: Ram, b: Ram, c: Ram, tasks: seq<UserTask>, tasks': seq<UserTask>, t: int)
    requires ValidRam(a) && ValidRam(b) && ValidRam(c) && OnlyTask(tasks, tasks', t)
    requires OthersSame(a, b, tasks, t) && OthersSame(b, c, tasks', t)
    ensures OthersSame(a, c, tasks, t)
  {
    hide Walk;
    forall u | 0 <= u < |tasks| && u != t && tasks[u].live ensures SameSpace(a, c, tasks[u].cr3) {
      assert tasks'[u] == tasks[u];
      forall p | IsPage(p) ensures Walk(c, tasks[u].cr3, p) == Walk(a, tasks[u].cr3, p) {
        assert Walk(b, tasks[u].cr3, p) == Walk(a, tasks[u].cr3, p);
      }
    }
  }

  lemma OthersReflexive(ram: Ram, tasks: seq<UserTask>, t: int)
    requires ValidRam(ram)
    ensures OthersSame(ram, ram, tasks, t) && OthersKeep(ram, ram, tasks, t)
  {
  }

  /** What other tasks had mapped is translated as before. */
  ghost predicate OthersKeep(ram: Ram, ram': Ram, tasks: seq<UserTask>, t: int) {
    && ValidRam(ram) && ValidRam(ram')
    && forall u {:trigger tasks[u]} :: 0 <= u < |tasks| && u != t && tasks[u].live ==>
      KeptSpace(ram, ram', tasks[u].cr3)
  }

  ghost predicate KeptSpace(ram: Ram, ram': Ram, cr3: int)
    requires ValidRam(ram) && ValidRam(ram')
  {
    && SameEntries(ram, ram', cr3)
    && forall p {:trigger Walk(ram', cr3, p)} :: IsPage(p) && Walk(ram, cr3, p).Some? ==>
         Walk(ram', cr3, p) == Walk(ram, cr3, p)
  }

  lemma SameIsKept(ram: Ram, ram': Ram, tasks: seq<UserTask>, t: int)
    requires ValidRam(ram) && ValidRam(ram') && OthersSame(ram, ram', tasks, t)
    ensures OthersKeep(ram, ram', tasks, t)
  {
    hide Walk;
    forall u | 0 <= u < |tasks| && u != t && tasks[u].live ensures KeptSpace(ram, ram', tasks[u].cr3) {
      assert SameSpace(ram, ram', tasks[u].cr3);
    }
  }

  /** All slots but `t`, which may be a new one, hold what they held. */
  ghost predicate SlotsKept(tasks: seq<UserTask>, tasks': seq<UserTask>, t: int) {
    && |tasks| <= |tasks'| && (|tasks| < |tasks'| ==> t == |tasks| && |tasks'| == |tasks| + 1)
    && forall u {:trigger tasks[u]} :: 0 <= u < |tasks| && u != t ==> tasks'[u] == tasks[u]
  }

  /** Slot `t` is the first that is not in use, or one behind the last. */
  ghost predicate FirstUnused(tasks: seq<UserTask>, t: int) {
    && 0 <= t <= |tasks| && (forall u {:trigger tasks[u]} :: 0 <= u < t ==> tasks[u].used)
    && (t < |tasks| ==> !tasks[t].used)
  }

  lemma SlotTaken(tasks: seq<UserTask>, tasks': seq<UserTask>, t: int, u: int)
    requires SlotsKept(tasks, tasks', t) && 0 <= t && 0 <= u < |tasks| && tasks[u].used
    requires t < |tasks| ==> !tasks[t].used
    ensures u != t && u < |tasks'| && tasks'[u] == tasks[u]
  {
  }

  /** Taking a slot into use concerns no memory. */
  lemma SlotGood(ram: Ram, owner: Owners, tasks: seq<UserTask>, tasks': seq<UserTask>, live: set<int>, size: int,
                 t: int)
    requires Good(ram, owner, tasks, live, size) && 0 <= t <= |tasks| && (t < |tasks| ==> !tasks[t].used)
    requires tasks' == if t < |tasks| then tasks[t := tasks[t].(used := true)]
                       else tasks + [UserTask(true, false, 0, [], 0)]
    ensures Good(ram, owner, tasks', live, size) && 0 < t && SlotsKept(tasks, tasks', t)
  {
    hide TaskGood;
    forall u | 0 <= u < |tasks'| && tasks'[u].live ensures u < |tasks| && tasks'[u] == tasks[u] {
    }
  }

  lemma GoodIsLedger(ram: Ram, owner: Owners, tasks: seq<UserTask>, live: set<int>, size: int)
    requires Good(ram, owner, tasks, live, size)
    ensures Ledger(ram, owner, tasks, live, size) && ValidRam(ram)
    ensures forall u :: 0 <= u < |tasks| && tasks[u].live ==> tasks[u].used
  {
  }

  lemma SlotsThen(tasks: seq<UserTask>, mid: seq<UserTask>, tasks': seq<UserTask>, t: int)
    requires SlotsKept(tasks, mid, t) && OnlyTask(mid, tasks', t)
    ensures SlotsKept(tasks, tasks', t)
  {
    forall u | 0 <= u < |tasks| && u != t ensures tasks'[u] == tasks[u] {
      assert mid[u] == tasks[u];
      assert tasks'[u] == mid[u];
    }
  }

  /** One step more of a longer operation on task `t`. */
  lemma StepKeeps(a: Ram, b: Ram, c: Ram, owner: Owners, owner1: Owners, owner2: Owners, tasks: seq<UserTask>,
                  tasks': seq<UserTask>, t: int)
    requires OthersKeep(a, b, tasks, t) && OthersKeep(b, c, tasks', t) && OnlyTask(tasks, tasks', t)
    requires Grows(owner, owner1, t) && Grows(owner1, owner2, t)
    ensures OthersKeep(a, c, tasks, t) && Grows(owner, owner2, t)
  {
    hide OthersKeep, Grows;
    KeepsThen(a, b, c, tasks, tasks', t);
    GrowsThen(owner, owner1, owner2, t);
  }

  lemma KeepsThen(a: Ram, b: Ram, c: Ram, tasks: seq<UserTask>, tasks': seq<UserTask>, t: int)
    requires OthersKeep(a, b, tasks, t) && OthersKeep(b, c, tasks', t)
    requires SlotsKept(tasks, tasks', t)
    ensures OthersKeep(a, c, tasks, t)
  {
    hide Walk;
    forall u | 0 <= u < |tasks| && u != t && tasks[u].live ensures KeptSpace(a, c, tasks[u].cr3) {
      var cr3 := tasks[u].cr3;
      assert tasks'[u] == tasks[u];
      forall p | IsPage(p) && Walk(a, cr3, p).Some? ensures Walk(c, cr3, p) == Walk(a, cr3, p) {
        assert Walk(b, cr3, p) == Walk(a, cr3, p);
      }
    }
  }

  lemma PokeKeeps(ram: Ram, owner: Owners, tasks: seq<UserTask>, t: int, f: int, j: int, w: int)
    requires OthersGood(ram, owner, tasks, t) && ValidRam(ram) && f in ram && 0 <= j < ENTRIES && 0 <= t
    requires Owned(owner, f, t) || Owned(owner, f, KERNEL)
    requires !IsPresent(ram[f][j])
    ensures OthersKeep(ram, Poke(ram, f, j, w), tasks, t)
  {
    var r := Poke(ram, f, j, w);
    forall u | 0 <= u < |tasks| && u != t && tasks[u].live ensures KeptSpace(ram, r, tasks[u].cr3) {
      var cr3 := tasks[u].cr3;
      assert TaskGood(ram, owner, u, tasks[u], 0, -1);
      assert cr3 != f && r[cr3] == ram[cr3];
      forall p | IsPage(p) && Walk(ram, cr3, p).Some? ensures Walk(r, cr3, p) == Walk(ram, cr3, p) {
        assert HasTable(ram, cr3, Pde(p)) <==> HasTable(r, cr3, Pde(p));
      }
    }
  }

  /** Mapping a page that was not mapped keeps all tasks as they should be. */
  lemma EntryGood(ram: Ram, r: Ram, owner: Owners, tasks: seq<UserTask>, live: set<int>, size: int, t: int,
                  except: int, page: int, w: int)
    requires GoodBut(ram, owner, tasks, live, size, t, except) && IsPage(page) && !InWindow(page)
    requires HasTable(ram, tasks[t].cr3, Pde(page)) && Walk(ram, tasks[t].cr3, page) == None && IsPresent(w)
    requires r == Poke(ram, TableOf(ram, tasks[t].cr3, Pde(page)), Pte(page), w)
    ensures GoodBut(r, owner, tasks, live, size, t, except) && PageMapped(ram, r, tasks[t].cr3, page, w)
    ensures Owned(owner, TableOf(ram, tasks[t].cr3, Pde(page)), t) ==> OthersSame(ram, r, tasks, t)
    ensures OthersKeep(ram, r, tasks, t)
  {
    TaskHolds(ram, owner, t, tasks[t], except);
    hide OthersGood, Recorded, MappedFrom, OthersSame, Directory;
    var cr3, table := tasks[t].cr3, TableOf(ram, tasks[t].cr3, Pde(page));
    TableInRam(ram, owner, t, tasks[t], 0, except, Pde(page));
    NoEntryNoPage(ram, cr3, page);
    OwnPoke(ram, owner, t, tasks[t], 0, except, page, w);
    assert Owned(owner, table, t) || Owned(owner, table, KERNEL);
    hide Walk, TaskGood, Space, OthersKeep;
    AllOthersPoke(ram, owner, tasks, t, table, Pte(page), w);
    PokeKeeps(ram, owner, tasks, t, table, Pte(page), w);
    LedgerPoke(ram, owner, tasks, live, size, table, Pte(page), w);
    if Owned(owner, table, t) {
      AllOthersEdit(ram, r, owner, tasks, t);
    }
  }

  lemma LedgerPoke(ram: Ram, owner: Owners, tasks: seq<UserTask>, live: set<int>, size: int, f: int, j: int, w: int)
    requires Ledger(ram, owner, tasks, live, size) && f in ram && 0 <= j < ENTRIES
    ensures Ledger(Poke(ram, f, j, w), owner, tasks, live, size) && Poke(ram, f, j, w).Keys == ram.Keys
  {
    var r := Poke(ram, f, j, w);
    assert r.Keys == ram.Keys;
    forall g | 0 <= g < size ensures g in r { assert g in ram; }
  }

  /** The first `n` pages of the segment were free and are mapped now; the others are as they were. */
  ghost predicate RunMapped(ram: Ram, ram': Ram, cr3: int, s: Segment, n: int, flags: int) {
    && ValidRam(ram) && ValidRam(ram')
    && FreeRun(ram, cr3, PageOfAddress(s.virt), n)
    && Laid(ram', cr3, PageOfAddress(s.virt), n, s.physical, flags)
    && SameOutside(ram, ram', cr3, PageOfAddress(s.virt), PageOfAddress(s.virt) + n)
    && EntriesGrow(ram, ram', cr3, PageOfAddress(s.virt), PageOfAddress(s.virt) + n)
  }

  lemma PageOfRun(s: Segment, k: int)
    requires Mappable(s) && 0 <= k < s.pages
    ensures var a := s.virt + k * PAGE_SIZE;
            PageOfAddress(a) == PageOfAddress(s.virt) + k && 0 <= PageOfAddress(a) < WINDOW
              && (Aligned(a) <==> Aligned(s.virt))
    ensures !InWindow(PageOfAddress(s.virt) + k) && 0 <= s.physical
  {
  }

  lemma GrownThen(tasks: seq<UserTask>, mid: seq<UserTask>, tasks': seq<UserTask>, t: int)
    requires 0 <= t < |tasks| && OnlyTask(tasks, mid, t) && OnlyTask(mid, tasks', t)
    requires Grown(tasks[t], mid[t]) && Grown(mid[t], tasks'[t])
    ensures OnlyTask(tasks, tasks', t) && Grown(tasks[t], tasks'[t])
    ensures mid[t].segments <= tasks'[t].segments && tasks'[t].cr3 == mid[t].cr3
  {
    var a, b, c := tasks[t].segments, mid[t].segments, tasks'[t].segments;
    forall k | |a| <= k < |c| ensures c[k].virt == 0 && c[k].pages == 1 {
      if k < |b| { assert b[k] == c[k]; }
    }
  }

  lemma NothingMapped(ram: Ram, owner: Owners, tasks: seq<UserTask>, live: set<int>, size: int, t: int, except: int,
                      s: Segment, flags: int)
    requires GoodBut(ram, owner, tasks, live, size, t, except) && Mappable(s)
    ensures RunMapped(ram, ram, tasks[t].cr3, s, 0, flags) && Grown(tasks[t], tasks[t])
      && OthersKeep(ram, ram, tasks, t)
  {
    TaskHolds(ram, owner, t, tasks[t], except);
  }

  lemma RunThen(a: Ram, b: Ram, c: Ram, cr3: int, s: Segment, n: int, flags: int)
    requires RunMapped(a, b, cr3, s, n, flags) && Mappable(s) && 0 <= n < s.pages && Aligned(s.virt)
    requires PageMapped(b, c, cr3, PageOfAddress(s.virt) + n, MakeEntry(s.physical + n * PAGE_SIZE, WithPresent(flags)))
    ensures RunMapped(a, c, cr3, s, n + 1, flags)
  {
    hide Walk, MakeEntry;
    var first := PageOfAddress(s.virt);
    PageOfRun(s, n);
    OutsideExtends(a, b, c, cr3, first, first + n);
    EntriesThen(a, b, c, cr3, first, first + n, first + n + 1);
    assert Walk(a, cr3, first + n) == Walk(b, cr3, first + n);
    forall p | first <= p < first + n
      ensures IsPage(p) && Walk(c, cr3, p) == Some(MakeEntry(s.physical + (p - first) * PAGE_SIZE, WithPresent(flags)))
    {
      PageOfRun(s, p - first);
      assert IsPage(p) && Walk(c, cr3, p) == Walk(b, cr3, p);
    }
  }

  /** A page of the run that turns out to be mapped was mapped when the run was begun. */
  lemma RunWasMapped(a: Ram, b: Ram, cr3: int, s: Segment, n: int, flags: int)
    requires RunMapped(a, b, cr3, s, n, flags) && Mappable(s) && 0 <= n < s.pages
    ensures !FreeRun(b, cr3, PageOfAddress(s.virt) + n, 1) ==> !FreeRun(a, cr3, PageOfAddress(s.virt), s.pages)
  {
    hide Walk;
    PageOfRun(s, n);
    var p := PageOfAddress(s.virt) + n;
    assert Walk(a, cr3, p) == Walk(b, cr3, p);
  }

  lemma PageWasMapped(a: Ram, b: Ram, cr3: int, first: int, n: int, pages: int)
    requires TranslatedOnly(a, b, cr3, first, n) && 0 <= first && 0 <= n < pages && first + pages <= WINDOW
    ensures !FreeRun(b, cr3, first + n, 1) ==> !FreeRun(a, cr3, first, pages)
  {
    hide Walk;
    assert IsPage(first + n) && !InWindow(first + n);
    assert Walk(a, cr3, first + n) == Walk(b, cr3, first + n);
  }

  /** A segment the cleaner will not unmap need not be mapped. */
  lemma NotAMapping(ram: Ram, owner: Owners, tasks: seq<UserTask>, live: set<int>, size: int, t: int, except: int,
                    s: Segment)
    requires GoodBut(ram, owner, tasks, live, size, t, except) && 0 <= except && tasks[t].segments[except] == s
    requires !IsMapping(s)
    ensures GoodBut(ram, owner, tasks, live, size, t, -1)
  {
    hide Space, Recorded, Ledger, OthersGood, MappedPart;
  }

  /** With all its pages mapped the segment is no exception any more. */
  lemma Finished(was: Ram, ram: Ram, owner: Owners, tasks: seq<UserTask>, live: set<int>, size: int, t: int,
                 except: int, s: Segment, flags: int)
    requires GoodBut(ram, owner, tasks, live, size, t, except) && 0 <= except && tasks[t].segments[except] == s
    requires Mappable(s) && RunMapped(was, ram, tasks[t].cr3, s, s.pages, flags) && 0 <= flags < PAGE_SIZE
    ensures GoodBut(ram, owner, tasks, live, size, t, -1)
  {
    hide Space, Recorded, Ledger, OthersGood;
    var cr3, first := tasks[t].cr3, PageOfAddress(s.virt);
    LaidPart(ram, cr3, s, flags);
  }

  lemma LaidPart(ram: Ram, cr3: int, s: Segment, flags: int)
    requires ValidRam(ram) && Mappable(s) && Laid(ram, cr3, PageOfAddress(s.virt), s.pages, s.physical, flags)
    requires 0 <= flags < PAGE_SIZE
    ensures MappedPart(ram, cr3, s, 0, s.pages)
  {
    hide Walk, MakeEntry;
    var first := PageOfAddress(s.virt);
    forall p | first <= p < first + s.pages
      ensures !InWindow(p) && FrameAt(ram, cr3, p) == FirstFrame(s) + (p - first)
    {
      PageOfRun(s, p - first);
      var address := s.physical + (p - first) * PAGE_SIZE;
      assert IsPage(p) && Walk(ram, cr3, p) == Some(MakeEntry(address, WithPresent(flags)));
      EntryFields(address, WithPresent(flags));
      assert address / PAGE_SIZE == FirstFrame(s) + (p - first);
    }
  }

  lemma PushGood(ram: Ram, owner: Owners, tasks: seq<UserTask>, tasks': seq<UserTask>, live: set<int>,
                 live': set<int>, size: int, t: int, s: Segment)
    requires GoodBut(ram, owner, tasks, live, size, t, -1) && Fresh(live, live', size, s.physical, s.pages)
      && 0 < s.pages
    requires s.virt != 0 ==> Mappable(s)
    requires tasks' == tasks[t := tasks[t].(segments := tasks[t].segments + [s])]
    ensures GoodBut(ram, Grant(owner, FirstFrame(s), s.pages, t), tasks', live', size, t, |tasks[t].segments|)
  {
    hide OthersGood, TaskGood, Ledger;
    FreshFrames(ram, owner, tasks, live, live', size, s.physical, s.pages);
    LedgerGrant(ram, ram, owner, tasks, tasks', live, live', size, t, s.physical, s.pages);
    PushSegment(ram, owner, t, tasks[t], s);
    OthersAfterGrant(ram, owner, tasks, tasks', t, FirstFrame(s), s.pages);
  }

  /** The task has more segments, among them those added. */
  ghost predicate Extended(task: UserTask, task': UserTask, added: seq<Segment>) {
    && task' == task.(segments := task'.segments) && task.segments <= task'.segments
    && forall k {:trigger added[k]} :: 0 <= k < |added| ==> added[k] in task'.segments
  }

  /** One segment for each page of a range. */
  ghost predicate Singles(added: seq<Segment>, virt: int, pages: int) {
    |added| == pages && forall k {:trigger added[k]} :: 0 <= k < pages ==>
      added[k].virt == virt + k * PAGE_SIZE && added[k].pages == 1
  }

  /** The segments for a range of pages: one for all of them, or one for each. */
  ghost predicate Spread(added: seq<Segment>, virt: int, pages: int) {
    (|added| == 1 && added[0].virt == virt && added[0].pages == pages) || Singles(added, virt, pages)
  }

  /** What was mapped below the window is translated as before. */
  ghost predicate KeptBelow(ram: Ram, ram': Ram, cr3: int)
    requires ValidRam(ram) && ValidRam(ram')
  {
    forall p {:trigger Walk(ram', cr3, p)} :: IsPage(p) && !InWindow(p) && Walk(ram, cr3, p).Some? ==>
      Walk(ram', cr3, p) == Walk(ram, cr3, p)
  }

  /** Of the pages below the window only these, none of which was mapped, are translated anew. */
  ghost predicate TranslatedOnly(ram: Ram, ram': Ram, cr3: int, page: int, pages: int) {
    && ValidRam(ram) && ValidRam(ram') && SameOutside(ram, ram', cr3, page, page + pages) && KeptBelow(ram, ram', cr3)
    && EntriesGrow(ram, ram', cr3, page, page + pages)
  }

  /** These pages are mapped with these flags, PRESENT added. */
  ghost predicate Flagged(ram: Ram, cr3: int, page: int, pages: int, flags: int)
    requires ValidRam(ram)
  {
    forall p {:trigger FlagsAt(ram, cr3, p)} :: page <= p < page + pages ==> FlagsAt(ram, cr3, p) == WithPresent(flags)
  }

  lemma UserFlags(flags: int)
    requires 0 <= flags < PAGE_SIZE - USER
    ensures 0 <= WithUser(flags) < PAGE_SIZE
  {
  }

  lemma RunFlagged(ram: Ram, ram': Ram, cr3: int, s: Segment, n: int, flags: int)
    requires RunMapped(ram, ram', cr3, s, n, flags) && Mappable(s) && n <= s.pages && 0 <= flags < PAGE_SIZE
    ensures ValidRam(ram') && Flagged(ram', cr3, PageOfAddress(s.virt), n, flags)
  {
    hide Walk, MakeEntry;
    var first := PageOfAddress(s.virt);
    forall p | first <= p < first + n ensures FlagsAt(ram', cr3, p) == WithPresent(flags) {
      var address := s.physical + (p - first) * PAGE_SIZE;
      assert IsPage(p) && Walk(ram', cr3, p) == Some(MakeEntry(address, WithPresent(flags)));
      EntryFields(address, WithPresent(flags));
    }
  }

  /** One page more, and those before it keep their flags. */
  lemma FlaggedNext(a: Ram, b: Ram, cr3: int, virt: int, page: int, pages: int, s: Segment, flags: int)
    requires ValidRam(a) && Flagged(a, cr3, PageOfAddress(virt), page, flags) && Aligned(virt) && 0 <= virt
    requires 0 <= page < pages
    requires virt + pages * PAGE_SIZE <= WINDOW * PAGE_SIZE && 0 <= flags < PAGE_SIZE
    requires s.virt == virt + page * PAGE_SIZE && s.pages == 1 && Mappable(s) && RunMapped(a, b, cr3, s, 1, flags)
    ensures ValidRam(b) && Flagged(b, cr3, PageOfAddress(virt), page + 1, flags)
  {
    hide Walk, MakeEntry, WithPresent;
    var first := PageOfAddress(virt);
    assert PageOfAddress(s.virt) == first + page;
    RunFlagged(a, b, cr3, s, 1, flags);
    forall p | first <= p < first + page + 1 ensures FlagsAt(b, cr3, p) == WithPresent(flags) {
      if p < first + page {
        assert IsPage(p) && !InWindow(p);
        assert Walk(b, cr3, p) == Walk(a, cr3, p);
        assert FlagsAt(a, cr3, p) == WithPresent(flags);
      }
    }
  }

  /** No holder lost a frame, and none but `t` got any. */
  ghost predicate Grows(owner: Owners, owner': Owners, t: int) {
    && (forall f {:trigger f in owner} :: f in owner ==> f in owner' && owner'[f] == owner[f])
    && (forall f {:trigger f in owner'} :: f in owner' && f !in owner ==> owner'[f] == t)
  }

  lemma GrantGrows(owner: Owners, first: int, n: int, t: int)
    requires 0 <= n && forall f :: first <= f < first + n ==> f !in owner
    ensures Grows(owner, Grant(owner, first, n, t), t)
  {
  }

  lemma GrowsThen(a: Owners, b: Owners, c: Owners, t: int)
    requires Grows(a, b, t) && Grows(b, c, t)
    ensures Grows(a, c, t)
  {
    forall f | f in a ensures f in c && c[f] == a[f] { assert f in b; }
    forall f | f in c && f !in a ensures c[f] == t { assert f in b || f !in b; }
  }

  /** The segments hold frames of the memory that nobody held before. */
  ghost predicate NewFrames(owner: Owners, size: int, added: seq<Segment>) {
    forall k, f {:trigger InSegment(added[k], f)} :: 0 <= k < |added| && InSegment(added[k], f) ==>
      0 < f < size && f !in owner
  }

  lemma NoneNew(owner: Owners, size: int, t: int)
    ensures Grows(owner, owner, t) && NewFrames(owner, size, [])
  {
  }

  lemma OneMoreNew(owner: Owners, owner': Owners, size: int, added: seq<Segment>, s: Segment, t: int)
    requires NewFrames(owner, size, added) && NewFrames(owner', size, [s]) && Grows(owner, owner', t)
    ensures NewFrames(owner, size, added + [s])
  {
    forall k, f | 0 <= k <= |added| && InSegment((added + [s])[k], f) ensures 0 < f < size && f !in owner {
      if k < |added| { assert InSegment(added[k], f); } else { assert InSegment([s][0], f); }
    }
  }

  lemma NothingAdded(ram: Ram, owner: Owners, tasks: seq<UserTask>, live: set<int>, size: int, t: int, virt: int,
                     flags: int)
    requires GoodBut(ram, owner, tasks, live, size, t, -1)
    ensures ValidRam(ram) && Flagged(ram, tasks[t].cr3, PageOfAddress(virt), 0, flags) && OthersKeep(ram, ram, tasks, t)
    ensures OnlyTask(tasks, tasks, t) && Extended(tasks[t], tasks[t], []) && Singles([], virt, 0)
    ensures TranslatedOnly(ram, ram, tasks[t].cr3, PageOfAddress(virt), 0)
  {
    TaskHolds(ram, owner, t, tasks[t], -1);
  }

  lemma OneMore(added: seq<Segment>, virt: int, page: int)
    requires 0 <= page && 0 < |added| && Singles(added[..|added| - 1], virt, page)
    requires added[|added| - 1].virt == virt + page * PAGE_SIZE && added[|added| - 1].pages == 1
    ensures Singles(added, virt, page + 1)
  {
    assert forall k :: 0 <= k < page ==> added[..|added| - 1][k] == added[k];
  }

  lemma SegmentAdded(old_: seq<UserTask>, before: seq<UserTask>, pushed: seq<UserTask>, tasks: seq<UserTask>, t: int,
                     added: seq<Segment>, s: Segment)
    requires 0 <= t < |old_| && OnlyTask(old_, before, t) && Extended(old_[t], before[t], added)
    requires pushed == before[t := before[t].(segments := before[t].segments + [s])]
    requires OnlyTask(pushed, tasks, t) && Grown(pushed[t], tasks[t])
    ensures OnlyTask(old_, tasks, t) && Extended(old_[t], tasks[t], added + [s]) && tasks[t].cr3 == old_[t].cr3
  {
    var a, b, c := before[t].segments, pushed[t].segments, tasks[t].segments;
    assert forall k :: 0 <= k < |a| ==> c[k] == a[k];
    assert c[|a|] == s;
    forall k | 0 <= k < |added + [s]| ensures (added + [s])[k] in c {
      if k < |added| {
        assert added[k] in a;
      }
    }
    assert [] + [s] == [s];
  }

  lemma RunTranslated(ram: Ram, ram': Ram, cr3: int, s: Segment, n: int, flags: int, pages: int)
    requires RunMapped(ram, ram', cr3, s, n, flags) && 0 <= n <= pages
    ensures TranslatedOnly(ram, ram', cr3, PageOfAddress(s.virt), pages)
  {
    hide Walk;
    RunKeeps(ram, ram', cr3, s, n, flags);
    EntriesWiden(ram, ram', cr3, PageOfAddress(s.virt), PageOfAddress(s.virt) + n, PageOfAddress(s.virt) + pages);
  }

  lemma RunKeeps(ram: Ram, ram': Ram, cr3: int, s: Segment, n: int, flags: int)
    requires RunMapped(ram, ram', cr3, s, n, flags)
    ensures KeptBelow(ram, ram', cr3)
  {
    hide Walk;
    forall p | IsPage(p) && !InWindow(p) && Walk(ram, cr3, p).Some? ensures Walk(ram', cr3, p) == Walk(ram, cr3, p) {
      assert !(PageOfAddress(s.virt) <= p < PageOfAddress(s.virt) + n);
    }
  }

  lemma TranslatedThen(a: Ram, b: Ram, c: Ram, cr3: int, virt: int, page: int, s: Segment, flags: int)
    requires TranslatedOnly(a, b, cr3, PageOfAddress(virt), page) && 0 <= page && 0 <= virt
    requires s.virt == virt + page * PAGE_SIZE && RunMapped(b, c, cr3, s, 1, flags)
    ensures TranslatedOnly(a, c, cr3, PageOfAddress(virt), page + 1)
  {
    hide Walk;
    assert PageOfAddress(s.virt) == PageOfAddress(virt) + page;
    RunKeeps(b, c, cr3, s, 1, flags);
    forall p | IsPage(p) && !InWindow(p) && Walk(a, cr3, p).Some? ensures Walk(c, cr3, p) == Walk(a, cr3, p) {
      assert Walk(b, cr3, p) == Walk(a, cr3, p);
    }
    OutsideExtends(a, b, c, cr3, PageOfAddress(virt), PageOfAddress(virt) + page);
    EntriesThen(a, b, c, cr3, PageOfAddress(virt), PageOfAddress(virt) + page, PageOfAddress(virt) + page + 1);
  }

  lemma EndGood(ram: Ram, owner: Owners, tasks: seq<UserTask>, live: set<int>, size: int, t: int, end: int)
    requires GoodBut(ram, owner, tasks, live, size, t, -1)
    ensures GoodBut(ram, owner, tasks[t := tasks[t].(end := end)], live, size, t, -1)
  {
    hide Space, Recorded, MappedFrom;
  }

  /** Each page of the range is mapped to a frame of the task. */
  lemma SpreadMapped(ram: Ram, owner: Owners, tasks: seq<UserTask>, live: set<int>, size: int, t: int,
                     added: seq<Segment>, virt: int, pages: int)
    requires GoodBut(ram, owner, tasks, live, size, t, -1) && Aligned(virt) && 0 < virt && Spread(added, virt, pages)
    requires forall k {:trigger added[k]} :: 0 <= k < |added| ==> added[k] in tasks[t].segments
    ensures ValidRam(ram)
    ensures forall p {:trigger FrameAt(ram, tasks[t].cr3, p)} ::
      PageOfAddress(virt) <= p < PageOfAddress(virt) + pages ==>
              !InWindow(p) && Owned(owner, FrameAt(ram, tasks[t].cr3, p), t) && 0 < FrameAt(ram, tasks[t].cr3, p)
  {
    hide Ledger, OthersGood, FrameAt;
    TaskHolds(ram, owner, t, tasks[t], -1);
    forall p | PageOfAddress(virt) <= p < PageOfAddress(virt) + pages
      ensures !InWindow(p) && Owned(owner, FrameAt(ram, tasks[t].cr3, p), t) && 0 < FrameAt(ram, tasks[t].cr3, p)
    {
      var k := p - PageOfAddress(virt);
      var s := if |added| == 1 && added[0].virt == virt && added[0].pages == pages then added[0] else added[k];
      assert s in tasks[t].segments && Aligned(s.virt) && PageOfAddress(s.virt) <= p < PageOfAddress(s.virt) + s.pages;
      SegmentPage(ram, owner, t, tasks[t], s, p);
    }
  }

  lemma SegmentPage(ram: Ram, owner: Owners, t: int, task: UserTask, s: Segment, p: int)
    requires TaskGood(ram, owner, t, task, 0, -1) && s in task.segments && IsMapping(s)
    requires PageOfAddress(s.virt) <= p < PageOfAddress(s.virt) + s.pages
    ensures ValidRam(ram) && InSegment(s, FrameAt(ram, task.cr3, p)) && Owned(owner, FrameAt(ram, task.cr3, p), t)
    ensures !InWindow(p) && 0 < FrameAt(ram, task.cr3, p)
  {
    var j :| 0 <= j < |task.segments| && task.segments[j] == s;
    assert MappedPart(ram, task.cr3, task.segments[j], 0, task.segments[j].pages);
    assert InSegment(task.segments[j], FrameAt(ram, task.cr3, p));
  }

  // ----- the cleaner -----

  /** Part of the way through task `t`: the first `freed` segments are free again, and those from `first`
      on are still mapped. */
  ghost predicate Cleaning(ram: Ram, owner: Owners, tasks: seq<UserTask>, live: set<int>, size: int, t: int,
                           freed: int, first: int) {
    && 0 < t < |tasks| && tasks[t].live && 0 <= freed <= |tasks[t].segments|
    && (forall f {:trigger f in ram} :: 0 <= f < size ==> f in ram)
    && (forall f {:trigger owner[f]} :: f in owner ==>
      owner[f] == KERNEL || (0 <= owner[f] < |tasks| && tasks[owner[f]].live))
    && (forall f {:trigger f in live} :: f in live <==> f in owner && !InSome(tasks[t].segments[..freed], f))
    && NothingLeft(tasks) && KernelSlot(tasks)
    && OthersGood(ram, owner, tasks, t) && TaskGood(ram, owner, t, tasks[t], first, -1)
  }

  /** What is left when `t` holds nothing. */
  ghost function Without(owner: Owners, t: int): Owners {
    map f | f in owner && owner[f] != t :: owner[f]
  }

  lemma StartCleaning(ram: Ram, owner: Owners, tasks: seq<UserTask>, live: set<int>, size: int, t: int)
    requires GoodBut(ram, owner, tasks, live, size, t, -1)
    ensures ValidRam(ram) && AllGone(ram, tasks[t].cr3, tasks[t].segments, 0)
    ensures Cleaning(ram, owner, tasks, live, size, t, 0, 0)
  {
    hide TaskGood, OthersGood;
  }

  lemma PageOfRunBelow(s: Segment, k: int)
    requires Mappable(s) && 0 <= k < s.pages
    ensures var a := s.virt + k * PAGE_SIZE;
            PageOfAddress(a) == PageOfAddress(s.virt) + k && 0 <= a && PageOfAddress(a) < WINDOW
              && (Aligned(a) <==> Aligned(s.virt))
  {
  }

  lemma StartOfSegment(ram: Ram, owner: Owners, tasks: seq<UserTask>, live: set<int>, size: int, t: int, i: int)
    requires Cleaning(ram, owner, tasks, live, size, t, i, i) && i < |tasks[t].segments|
      && tasks[t].segments[i].virt != 0
    ensures Cleaning(ram, owner, tasks, live, size, t, i, i + 1)
    ensures ValidRam(ram) && Mappable(tasks[t].segments[i])
    ensures Aligned(tasks[t].segments[i].virt) ==>
              MappedPart(ram, tasks[t].cr3, tasks[t].segments[i], 0, tasks[t].segments[i].pages)
  {
    hide Recorded, OthersGood, InSome;
  }

  lemma SkipTable(ram: Ram, owner: Owners, tasks: seq<UserTask>, live: set<int>, size: int, t: int, i: int)
    requires Cleaning(ram, owner, tasks, live, size, t, i, i) && i < |tasks[t].segments|
      && tasks[t].segments[i].virt == 0
    requires ValidRam(ram) && AllGone(ram, tasks[t].cr3, tasks[t].segments, i)
    ensures Cleaning(ram, owner, tasks, live, size, t, i, i + 1) && AllGone(ram, tasks[t].cr3, tasks[t].segments, i + 1)
  {
    hide Recorded, OthersGood, Space, InSome, Gone;
  }

  lemma PartTail(ram: Ram, cr3: int, s: Segment, lo: int, hi: int)
    requires ValidRam(ram) && MappedPart(ram, cr3, s, lo, hi)
    ensures MappedPart(ram, cr3, s, lo + 1, hi)
  {
    hide FrameAt;
    var first := PageOfAddress(s.virt);
    forall p | first + lo + 1 <= p < first + hi
      ensures !InWindow(p) && FrameAt(ram, cr3, p) == FirstFrame(s) + (p - first)
    {
      assert FrameAt(ram, cr3, p) == FirstFrame(s) + (p - first);
    }
  }

  /** The first `n` pages of the segment are not mapped any more. */
  ghost predicate Gone(ram: Ram, cr3: int, s: Segment, n: int)
    requires ValidRam(ram)
  {
    forall p {:trigger FrameAt(ram, cr3, p)} :: PageOfAddress(s.virt) <= p < PageOfAddress(s.virt) + n ==>
      FrameAt(ram, cr3, p) == -1
  }

  ghost predicate AllGone(ram: Ram, cr3: int, segments: seq<Segment>, n: int)
    requires ValidRam(ram) && 0 <= n <= |segments|
  {
    forall k {:trigger segments[k]} :: 0 <= k < n && IsMapping(segments[k]) ==>
      Gone(ram, cr3, segments[k], segments[k].pages)
  }

  /** Only pages that were mapped to frames of `t` are translated differently. */
  ghost predicate OnlyLost(ram: Ram, ram': Ram, owner: Owners, t: int, cr3: int)
    requires ValidRam(ram) && ValidRam(ram')
  {
    && SameEntries(ram, ram', cr3)
    && forall p {:trigger Walk(ram', cr3, p)} :: IsPage(p) && !Owned(owner, FrameAt(ram, cr3, p), t) ==>
         Walk(ram', cr3, p) == Walk(ram, cr3, p)
  }

  ghost predicate OthersLose(ram: Ram, ram': Ram, owner: Owners, tasks: seq<UserTask>, t: int) {
    && ValidRam(ram) && ValidRam(ram')
    && forall u {:trigger tasks[u]} :: 0 <= u < |tasks| && u != t && tasks[u].live ==>
      OnlyLost(ram, ram', owner, t, tasks[u].cr3)
  }

  lemma LosesThen(a: Ram, b: Ram, c: Ram, owner: Owners, tasks: seq<UserTask>, t: int)
    requires OthersLose(a, b, owner, tasks, t) && OthersLose(b, c, owner, tasks, t)
    ensures OthersLose(a, c, owner, tasks, t)
  {
    hide Walk;
    forall u | 0 <= u < |tasks| && u != t && tasks[u].live ensures OnlyLost(a, c, owner, t, tasks[u].cr3) {
      var cr3 := tasks[u].cr3;
      forall p | IsPage(p) && !Owned(owner, FrameAt(a, cr3, p), t) ensures Walk(c, cr3, p) == Walk(a, cr3, p) {
        assert Walk(b, cr3, p) == Walk(a, cr3, p);
      }
    }
  }

  lemma NoneLost(ram: Ram, owner: Owners, tasks: seq<UserTask>, t: int)
    requires ValidRam(ram)
    ensures OthersLose(ram, ram, owner, tasks, t)
  {
    hide Walk;
  }

  lemma PokeLoses(ram: Ram, owner: Owners, tasks: seq<UserTask>, t: int, f: int, j: int)
    requires OthersGood(ram, owner, tasks, t) && ValidRam(ram) && f in ram && 0 <= j < ENTRIES && 0 <= t
    requires Owned(owner, f, t) || Owned(owner, f, KERNEL)
    requires IsPresent(ram[f][j]) && Owned(owner, FrameOf(ram[f][j]), t)
    ensures OthersLose(ram, Poke(ram, f, j, 0), owner, tasks, t)
  {
    var r := Poke(ram, f, j, 0);
    forall u | 0 <= u < |tasks| && u != t && tasks[u].live ensures OnlyLost(ram, r, owner, t, tasks[u].cr3) {
      var cr3 := tasks[u].cr3;
      assert TaskGood(ram, owner, u, tasks[u], 0, -1);
      assert cr3 != f && r[cr3] == ram[cr3];
      forall p | IsPage(p) && !Owned(owner, FrameAt(ram, cr3, p), t) ensures Walk(r, cr3, p) == Walk(ram, cr3, p) {
        assert HasTable(ram, cr3, Pde(p)) <==> HasTable(r, cr3, Pde(p));
      }
    }
  }

  lemma NoneGone(ram: Ram, cr3: int, s: Segment)
    requires ValidRam(ram)
    ensures Gone(ram, cr3, s, 0)
  {
  }

  lemma GoneKept(ram: Ram, r: Ram, cr3: int, s: Segment, n: int, page: int)
    requires ValidRam(ram) && ValidRam(r) && Gone(ram, cr3, s, n) && IsPage(page) && Walk(r, cr3, page) == None
    requires forall p {:trigger Walk(r, cr3, p)} :: IsPage(p) && p != page ==> Walk(r, cr3, p) == Walk(ram, cr3, p)
    ensures Gone(r, cr3, s, n)
  {
    hide Walk;
    forall p | PageOfAddress(s.virt) <= p < PageOfAddress(s.virt) + n ensures FrameAt(r, cr3, p) == -1 {
      assert FrameAt(ram, cr3, p) == -1;
      if IsPage(p) && p != page { assert Walk(r, cr3, p) == Walk(ram, cr3, p); }
    }
  }

  lemma AllGoneKept(ram: Ram, r: Ram, cr3: int, segments: seq<Segment>, n: int, page: int)
    requires ValidRam(ram) && ValidRam(r) && 0 <= n <= |segments| && AllGone(ram, cr3, segments, n) && IsPage(page)
    requires Walk(r, cr3, page) == None
    requires forall p {:trigger Walk(r, cr3, p)} :: IsPage(p) && p != page ==> Walk(r, cr3, p) == Walk(ram, cr3, p)
    ensures AllGone(r, cr3, segments, n)
  {
    hide Walk, Gone;
    forall k | 0 <= k < n && IsMapping(segments[k]) ensures Gone(r, cr3, segments[k], segments[k].pages) {
      GoneKept(ram, r, cr3, segments[k], segments[k].pages, page);
    }
  }

  /** One page more is gone. */
  lemma GoneNext(r: Ram, cr3: int, s: Segment, page: int)
    requires ValidRam(r) && Gone(r, cr3, s, page) && FrameAt(r, cr3, PageOfAddress(s.virt) + page) == -1
    ensures Gone(r, cr3, s, page + 1)
  {
    hide FrameAt;
    var first := PageOfAddress(s.virt);
    forall p | first <= p < first + page + 1 ensures FrameAt(r, cr3, p) == -1 {
      if p < first + page { assert FrameAt(r, cr3, p) == -1; } else { assert p == first + page; }
    }
  }

  /** Unmapping one page of segment `i`. */
  lemma UnmapStep(ram: Ram, r: Ram, owner: Owners, tasks: seq<UserTask>, live: set<int>, size: int, t: int, i: int,
                  page: int)
    requires Cleaning(ram, owner, tasks, live, size, t, i, i + 1) && i < |tasks[t].segments|
    requires var s, cr3 := tasks[t].segments[i], tasks[t].cr3;
             && 0 <= page < s.pages && Mappable(s) && ValidRam(ram) && MappedPart(ram, cr3, s, page, s.pages)
             && var p := PageOfAddress(s.virt) + page;
                && IsPage(p) && cr3 in ram && HasTable(ram, cr3, Pde(p)) && TableOf(ram, cr3, Pde(p)) in ram
                && r == Poke(ram, TableOf(ram, cr3, Pde(p)), Pte(p), 0)
    requires ValidRam(ram) && Gone(ram, tasks[t].cr3, tasks[t].segments[i], page)
    requires AllGone(ram, tasks[t].cr3, tasks[t].segments, i)
    ensures Cleaning(r, owner, tasks, live, size, t, i, i + 1) && ValidRam(r)
    ensures MappedPart(r, tasks[t].cr3, tasks[t].segments[i], page + 1, tasks[t].segments[i].pages)
    ensures Gone(r, tasks[t].cr3, tasks[t].segments[i], page + 1) && AllGone(r, tasks[t].cr3, tasks[t].segments, i)
    ensures OthersLose(ram, r, owner, tasks, t)
  {
    var s, cr3 := tasks[t].segments[i], tasks[t].cr3;
    var p := PageOfAddress(s.virt) + page;
    var table := TableOf(ram, cr3, Pde(p));
    var f := FrameAt(ram, cr3, p);
    assert InSegment(s, f) && !InWindow(p);
    NoEntryNoPage(ram, cr3, p);
    OwnPoke(ram, owner, t, tasks[t], i + 1, -1, p, 0);
    AllOthersPoke(ram, owner, tasks, t, table, Pte(p), 0);
    PartTail(ram, cr3, s, page, s.pages);
    PartSame(ram, r, cr3, s, page + 1, s.pages);
    PokeLoses(ram, owner, tasks, t, table, Pte(p));
    GoneKept(ram, r, cr3, s, page, p);
    GoneNext(r, cr3, s, page);
    AllGoneKept(ram, r, cr3, tasks[t].segments, i, p);
  }

  /** No frame of segment `i` has been freed before. */
  lemma SegmentHeld(ram: Ram, owner: Owners, tasks: seq<UserTask>, live: set<int>, size: int, t: int, i: int)
    requires Cleaning(ram, owner, tasks, live, size, t, i, i + 1) && i < |tasks[t].segments|
    ensures forall f :: InSegment(tasks[t].segments[i], f) ==> f in live
    ensures 0 < tasks[t].segments[i].pages
  {
    hide Space, OthersGood, MappedFrom;
    forall f | InSegment(tasks[t].segments[i], f) ensures f in live {
      assert Owned(owner, f, t);
    }
  }

  lemma SegmentFreed(ram: Ram, owner: Owners, tasks: seq<UserTask>, live: set<int>, live': set<int>, size: int,
                     t: int, i: int)
    requires Cleaning(ram, owner, tasks, live, size, t, i, i + 1) && i < |tasks[t].segments|
    requires forall f :: f in live' <==> f in live && !InSegment(tasks[t].segments[i], f)
    ensures Cleaning(ram, owner, tasks, live', size, t, i + 1, i + 1)
  {
    hide Space, OthersGood, Recorded, MappedFrom;
    var a := tasks[t].segments;
    forall f ensures InSome(a[..i + 1], f) <==> InSome(a[..i], f) || InSegment(a[i], f) {
      if InSome(a[..i], f) {
        var k :| 0 <= k < i && InSegment(a[..i][k], f);
        assert a[..i + 1][k] == a[k];
      }
      if InSegment(a[i], f) { assert a[..i + 1][i] == a[i]; }
      if InSome(a[..i + 1], f) && !InSegment(a[i], f) {
        var k :| 0 <= k < i + 1 && InSegment(a[..i + 1][k], f);
        assert a[..i][k] == a[k];
      }
    }
  }

  lemma DirectoryHeld(ram: Ram, owner: Owners, tasks: seq<UserTask>, live: set<int>, size: int, t: int)
    requires 0 <= t < |tasks| && Cleaning(ram, owner, tasks, live, size, t, |tasks[t].segments|, |tasks[t].segments|)
    ensures tasks[t].cr3 in live
  {
    hide OthersGood, MappedFrom;
    var a := tasks[t].segments;
    assert a[..|a|] == a;
  }

  lemma WithoutElsewhere(owner: Owners, t: int, u: int)
    requires u != t && t != KERNEL
    ensures SameHoldings(owner, Without(owner, t), u)
  {
  }

  /** The slot after the cleaner has been through. */
  function Emptied(task: UserTask): UserTask {
    task.(used := false, live := false, segments := [])
  }

  lemma OthersAfterClean(ram: Ram, owner: Owners, tasks: seq<UserTask>, tasks': seq<UserTask>, t: int)
    requires OthersGood(ram, owner, tasks, t) && 0 < t < |tasks| && OnlyTask(tasks, tasks', t) && !tasks'[t].live
    ensures OthersGood(ram, Without(owner, t), tasks', -1)
  {
    hide TaskGood;
    forall u | 0 <= u < |tasks| && u != t ensures SameHoldings(owner, Without(owner, t), u) {
      WithoutElsewhere(owner, t, u);
    }
    AllOthersOwners(ram, owner, Without(owner, t), tasks, t);
  }

  /** All segments and the directory are free: the task holds nothing any more. */
  lemma Cleaned(ram: Ram, owner: Owners, tasks: seq<UserTask>, live: set<int>, live': set<int>, size: int, t: int)
    requires 0 <= t < |tasks| && Cleaning(ram, owner, tasks, live, size, t, |tasks[t].segments|, |tasks[t].segments|)
    requires forall f :: f in live' <==> f in live && f != tasks[t].cr3
    ensures Good(ram, Without(owner, t), tasks[t := Emptied(tasks[t])], live', size)
  {
    assert Owned(owner, tasks[t].cr3, t);
    hide MappedFrom, Space, OthersGood;
    var a, tasks' := tasks[t].segments, tasks[t := Emptied(tasks[t])];
    assert a[..|a|] == a;
    OthersAfterClean(ram, owner, tasks, tasks', t);
    forall f ensures f in live' <==> f in Without(owner, t) {
      if f in owner && owner[f] == t && f != tasks[t].cr3 {
        assert Owned(owner, f, t);
      }
    }
  }

  // ----- a new task -----

  /** Tables of a directory that map the kernel's part of the address space. */
  const KERNEL_TABLES := 256

  /** A directory whose kernel tables a new task may share: they are the kernel's. */
  ghost predicate Donor(ram: Ram, owner: Owners, from: int) {
    && Directory(ram, from) && from in owner
    && forall i {:trigger HasTable(ram, from, i)} :: 0 <= i < KERNEL_TABLES && HasTable(ram, from, i) ==>
      Owned(owner, TableOf(ram, from, i), KERNEL)
  }

  /** A directory that is held, like all its tables. */
  ghost predicate Held(ram: Ram, owner: Owners, from: int) {
    && Directory(ram, from) && from in owner
    && forall i {:trigger HasTable(ram, from, i)} :: 0 <= i < SELF && HasTable(ram, from, i) ==>
      TableOf(ram, from, i) in owner
  }

  lemma HeldByTask(ram: Ram, owner: Owners, tasks: seq<UserTask>, live: set<int>, size: int, u: int)
    requires Good(ram, owner, tasks, live, size) && 0 <= u < |tasks| && tasks[u].live
    ensures Held(ram, owner, tasks[u].cr3) && tasks[u].cr3 in ram && tasks[u].cr3 in owner
  {
    hide Ledger, Recorded, MappedFrom;
    assert TaskGood(ram, owner, u, tasks[u], 0, -1);
  }

  /** In every state the kernel's own directory may be shared. */
  lemma KernelIsDonor(ram: Ram, owner: Owners, tasks: seq<UserTask>, live: set<int>, size: int)
    requires Good(ram, owner, tasks, live, size)
    ensures |tasks| > 0 && tasks[0].live && Donor(ram, owner, tasks[0].cr3)
  {
    assert TaskGood(ram, owner, 0, tasks[0], 0, -1);
    var cr3 := tasks[0].cr3;
    forall i | 0 <= i < KERNEL_TABLES && HasTable(ram, cr3, i) ensures Owned(owner, TableOf(ram, cr3, i), KERNEL) {
      var f := TableOf(ram, cr3, i);
      assert Owned(owner, f, 0) ==> InSome([], f);
    }
  }

  /** The directory of a task may be shared if and only if none of the tables it has in the kernel's part
      of the address space was made for the task itself. */
  lemma TaskIsDonor(ram: Ram, owner: Owners, tasks: seq<UserTask>, live: set<int>, size: int, u: int)
    requires Good(ram, owner, tasks, live, size) && 0 <= u < |tasks| && tasks[u].live
    ensures ValidRam(ram) && tasks[u].cr3 in ram
    ensures Donor(ram, owner, tasks[u].cr3) <==>
              forall i {:trigger HasTable(ram, tasks[u].cr3, i)} ::
                0 <= i < KERNEL_TABLES && HasTable(ram, tasks[u].cr3, i) ==>
                  !Owned(owner, TableOf(ram, tasks[u].cr3, i), u)
  {
    hide Ledger, Recorded, MappedFrom;
    assert TaskGood(ram, owner, u, tasks[u], 0, -1);
  }

  /** A directory that may be shared stays one while its entries and the holdings of the kernel stay. */
  lemma StaysDonor(ram: Ram, owner: Owners, ram': Ram, owner': Owners, from: int)
    requires Donor(ram, owner, from) && SameEntries(ram, ram', from)
    requires Directory(ram', from) && from in owner'
    requires forall f :: Owned(owner, f, KERNEL) ==> Owned(owner', f, KERNEL)
    ensures Donor(ram', owner', from)
  {
    forall i | 0 <= i < KERNEL_TABLES && HasTable(ram', from, i)
      ensures Owned(owner', TableOf(ram', from, i), KERNEL)
    {
      assert HasTable(ram, from, i) && Owned(owner, TableOf(ram, from, i), KERNEL);
    }
  }

  /** Pages [lo, hi) of the kernel's part have their tables already, or lie above it. */
  predicate NeedsNoTable(ram: Ram, cr3: int, lo: int, hi: int)
    requires ValidRam(ram) && cr3 in ram
  {
    forall i {:trigger HasTable(ram, cr3, i)} ::
      0 <= i < KERNEL_TABLES && Pde(lo) <= i && i * ENTRIES < hi ==> HasTable(ram, cr3, i)
  }

  /** The first `n` entries are those of directory `from`, and the rest are empty. */
  ghost predicate Copied(ram: Ram, from: int, entries: seq<int>, n: int) {
    && ValidRam(ram) && from in ram && |entries| == ENTRIES && 0 <= n <= ENTRIES
    && (forall i :: 0 <= i < n ==> entries[i] == ram[from][i])
    && (forall i :: n <= i < ENTRIES ==> entries[i] == 0)
  }

  /** What a task sees that has only been given the kernel: its part of `from`, and nothing else. */
  ghost predicate KernelOnly(ram: Ram, ram': Ram, from: int, cr3: int) {
    && ValidRam(ram) && ValidRam(ram')
    && forall p {:trigger Walk(ram', cr3, p)} :: IsPage(p) && !InWindow(p) ==>
         Walk(ram', cr3, p) == if Pde(p) < KERNEL_TABLES then Walk(ram, from, p) else None
  }

  /** Below the user's part the entries of directory `cr3` are those that directory `from` had. */
  ghost predicate KernelEntries(ram: Ram, ram': Ram, from: int, cr3: int) {
    && ValidRam(ram) && ValidRam(ram') && from in ram && cr3 in ram'
    && forall i {:trigger HasTable(ram', cr3, i)} :: 0 <= i < KERNEL_TABLES ==> ram'[cr3][i] == ram[from][i]
  }

  lemma CopiedEntries(ram: Ram, r: Ram, from: int, f: int, entries: seq<int>)
    requires Copied(ram, from, entries, KERNEL_TABLES) && r == ram[f := entries[SELF := MakeEntry(f * PAGE_SIZE, 0)]]
    ensures KernelEntries(ram, r, from, f)
  {
  }

  lemma CopiedFrom(ram: Ram, from: int, entries: seq<int>, n: int)
    requires Copied(ram, from, entries, n)
    ensures ValidRam(ram) && from in ram && |entries| == ENTRIES
  {
  }

  /** Mapping pages above the kernel's part, or pages that need no new table, leaves these entries alone. */
  lemma EntriesStay(a: Ram, b: Ram, c: Ram, from: int, cr3: int, page: int, pages: int)
    requires KernelEntries(a, b, from, cr3) && TranslatedOnly(b, c, cr3, page, pages)
    requires KERNEL_TABLES <= Pde(page) || NeedsNoTable(a, from, page, page + pages)
    ensures KernelEntries(a, c, from, cr3)
  {
    forall i | 0 <= i < KERNEL_TABLES ensures c[cr3][i] == a[from][i] {
      assert HasTable(b, cr3, i) <==> HasTable(a, from, i);
      assert HasTable(c, cr3, i) || !HasTable(c, cr3, i);
    }
  }

  lemma EntriesChain(a: Ram, b: Ram, c: Ram, from: int, cr3: int)
    requires KernelEntries(a, b, from, cr3) && KernelEntries(b, c, cr3, cr3)
    ensures KernelEntries(a, c, from, cr3)
  {
    forall i | 0 <= i < KERNEL_TABLES ensures c[cr3][i] == a[from][i] {
      assert HasTable(b, cr3, i) || !HasTable(b, cr3, i);
      assert HasTable(c, cr3, i) || !HasTable(c, cr3, i);
    }
  }

  /** A directory with the kernel's entries of one that may be shared may be shared. */
  lemma EntriesDonor(ram: Ram, ram': Ram, owner: Owners, owner': Owners, from: int, cr3: int, t: int)
    requires KernelEntries(ram, ram', from, cr3) && Donor(ram, owner, from) && Grows(owner, owner', t)
    requires Directory(ram', cr3) && cr3 in owner'
    ensures Donor(ram', owner', cr3)
  {
    forall i | 0 <= i < KERNEL_TABLES && HasTable(ram', cr3, i)
      ensures Owned(owner', TableOf(ram', cr3, i), KERNEL)
    {
      assert HasTable(ram, from, i) && Owned(owner, TableOf(ram, from, i), KERNEL);
    }
  }

  /** Creating a task, letting it grow and cleaning it leaves every holder, and the allocator, with exactly
      what it had before. */
  lemma CleanUndoes(ram: Ram, owner: Owners, tasks: seq<UserTask>, live: set<int>, size: int, owner': Owners, t: int,
                    ram': Ram, tasks': seq<UserTask>, live': set<int>)
    requires Good(ram, owner, tasks, live, size) && Grows(owner, owner', t)
    requires t != KERNEL && (0 <= t < |tasks| ==> !tasks[t].used)
    requires Good(ram', Without(owner', t), tasks', live', size)
    ensures Without(owner', t) == owner && live' == live
  {
    hide OthersGood;
    var w := Without(owner', t);
    forall f | f in owner ensures f in w && w[f] == owner[f] {
      assert f in owner' && owner[f] != t;
    }
    forall f | f in w ensures f in owner {
      assert f in owner';
    }
    assert w == owner;
    assert forall f :: f in live' <==> f in live;
  }

  /** A task that grows above the kernel's part keeps a directory that may be shared. */
  lemma GrowsAsDonor(ram: Ram, owner: Owners, ram': Ram, owner': Owners, tasks': seq<UserTask>, live': set<int>,
                     size: int, t: int, page: int, pages: int)
    requires Good(ram', owner', tasks', live', size) && Grows(owner, owner', t)
    requires 0 <= t < |tasks'| && tasks'[t].live && KERNEL_TABLES <= Pde(page)
    requires TranslatedOnly(ram, ram', tasks'[t].cr3, page, pages) && Donor(ram, owner, tasks'[t].cr3)
    ensures Donor(ram', owner', tasks'[t].cr3)
  {
    HeldByTask(ram', owner', tasks', live', size, t);
    assert KernelEntries(ram, ram, tasks'[t].cr3, tasks'[t].cr3);
    hide Good, Donor, TranslatedOnly, KernelEntries;
    EntriesStay(ram, ram, ram', tasks'[t].cr3, tasks'[t].cr3, page, pages);
    EntriesDonor(ram, ram', owner, owner', tasks'[t].cr3, tasks'[t].cr3, t);
  }

  lemma SameTranslated(ram: Ram, owner: Owners, tasks: seq<UserTask>, live: set<int>, size: int, t: int, pages: int)
    requires GoodBut(ram, owner, tasks, live, size, t, -1)
    ensures TranslatedOnly(ram, ram, tasks[t].cr3, 0, pages)
  {
    TaskHolds(ram, owner, t, tasks[t], -1);
  }

  /** Slot `t`, the first that was not in use, has a directory with the kernel's part of directory `from`; no other
      slot and nothing that another task had mapped changed, and nobody lost a frame. */
  ghost predicate Started(ram: Ram, owner: Owners, tasks: seq<UserTask>, ram': Ram, owner': Owners,
                          tasks': seq<UserTask>, t: int, from: int) {
    && 0 < t < |tasks'| && FirstUnused(tasks, t) && SlotsKept(tasks, tasks', t)
    && OthersKeep(ram, ram', tasks, t) && Grows(owner, owner', t) && KernelEntries(ram, ram', from, tasks'[t].cr3)
  }

  lemma DirectoryStarted(ram: Ram, owner: Owners, tasks: seq<UserTask>, tasks0: seq<UserTask>, ram': Ram,
                         owner': Owners, tasks': seq<UserTask>, live: set<int>, live': set<int>, size: int, t: int,
                         from: int)
    requires Good(ram, owner, tasks, live, size)
    requires SlotsKept(tasks, tasks0, t) && FirstUnused(tasks, t)
    requires DirectoryMade(ram, owner, tasks0, ram', owner', tasks', live', size, t, from)
    ensures Started(ram, owner, tasks, ram', owner', tasks', t, from)
  {
    GoodIsLedger(ram, owner, tasks, live, size);
    MadeDirectory(ram, owner, tasks0, ram', owner', tasks', live', size, t, from);
    OthersReflexive(ram, tasks, t);
    SlotsThen(tasks, tasks0, tasks', t);
    hide DirectoryMade, Good, OthersKeep, Grows, KernelEntries;
    KeepsThen(ram, ram, ram', tasks, tasks0, t);
  }

  /** Mapping pages of the user's part is no step back. */
  lemma StartedThen(a: Ram, b: Ram, c: Ram, owner: Owners, owner1: Owners, owner2: Owners, tasks: seq<UserTask>,
                    tasks1: seq<UserTask>, tasks2: seq<UserTask>, t: int, from: int, page: int, pages: int)
    requires Started(a, owner, tasks, b, owner1, tasks1, t, from)
    requires OnlyTask(tasks1, tasks2, t) && t < |tasks2| && tasks2[t].cr3 == tasks1[t].cr3
    requires OthersKeep(b, c, tasks1, t) && Grows(owner1, owner2, t)
    requires TranslatedOnly(b, c, tasks1[t].cr3, page, pages) && KERNEL_TABLES <= Pde(page)
    ensures Started(a, owner, tasks, c, owner2, tasks2, t, from)
  {
    SlotsThen(tasks, tasks1, tasks2, t);
    hide OthersKeep, Grows, KernelEntries, TranslatedOnly;
    KeepsThen(a, b, c, tasks, tasks1, t);
    GrowsThen(owner, owner1, owner2, t);
    EntriesStay(a, b, c, from, tasks1[t].cr3, page, pages);
  }

  lemma StartedEnd(a: Ram, b: Ram, owner: Owners, owner1: Owners, tasks: seq<UserTask>, tasks1: seq<UserTask>, t: int,
                   from: int, end: int)
    requires Started(a, owner, tasks, b, owner1, tasks1, t, from)
    ensures Started(a, owner, tasks, b, owner1, tasks1[t := tasks1[t].(end := end)], t, from)
  {
  }

  /** What is free in an address space now was free before anything was mapped for another task. */
  lemma FreeBefore(ram: Ram, ram': Ram, tasks: seq<UserTask>, t: int, u: int, page: int, pages: int)
    requires OthersKeep(ram, ram', tasks, t) && 0 <= u < |tasks| && u != t && tasks[u].live
    requires FreeRun(ram', tasks[u].cr3, page, pages)
    ensures FreeRun(ram, tasks[u].cr3, page, pages)
  {
    hide Walk;
    var cr3 := tasks[u].cr3;
    forall p | page <= p < page + pages ensures Walk(ram, cr3, p) == None {
      var w := Walk(ram', cr3, p);
      assert w == None;
    }
  }

  /** No run of free pages from the hint on was passed over: before `address`, or up to the end of the kernel's
      part when that is 0, unless the run is at page 0. */
  ghost predicate FirstFit(ram: Ram, cr3: int, firstFree: int, address: int, pages: int)
    requires ValidRam(ram)
  {
    var end := if address == 0 then PageOfAddress(KERNEL_END) - pages + 1 else PageOfAddress(address);
    || (address == 0 && firstFree == 0 && FreeRun(ram, cr3, 0, pages))
    || forall q {:trigger FreeRun(ram, cr3, q, pages)} :: PageOfAddress(firstFree) <= q < end ==>
         !FreeRun(ram, cr3, q, pages)
  }

  /** What is mapped for another task frees no page of this one. */
  lemma StillFirstFit(ram: Ram, ram': Ram, tasks: seq<UserTask>, t: int, u: int, firstFree: int, address: int,
                        pages: int)
    requires OthersKeep(ram, ram', tasks, t) && 0 <= u < |tasks| && u != t && tasks[u].live && address != 0
    requires FirstFit(ram, tasks[u].cr3, firstFree, address, pages)
    ensures FirstFit(ram', tasks[u].cr3, firstFree, address, pages)
  {
    hide FreeRun;
    var cr3 := tasks[u].cr3;
    forall q | PageOfAddress(firstFree) <= q < PageOfAddress(address) ensures !FreeRun(ram', cr3, q, pages) {
      if FreeRun(ram', cr3, q, pages) { FreeBefore(ram, ram', tasks, t, u, q, pages); }
    }
  }

  /** Above the kernel's part and below the window none but these pages are mapped. */
  ghost predicate UserOnly(ram: Ram, cr3: int, page: int, pages: int) {
    ValidRam(ram) && forall p {:trigger Walk(ram, cr3, p)} ::
      IsPage(p) && !InWindow(p) && KERNEL_TABLES <= Pde(p) && !(page <= p < page + pages) ==> Walk(ram, cr3, p) == None
  }

  lemma KernelIsAll(ram: Ram, owner: Owners, tasks: seq<UserTask>, ram': Ram, owner': Owners,
                    tasks': seq<UserTask>, live': set<int>, size: int, t: int, from: int)
    requires DirectoryMade(ram, owner, tasks, ram', owner', tasks', live', size, t, from)
    ensures |tasks'| == |tasks| && 0 < t < |tasks'| && UserOnly(ram', tasks'[t].cr3, 0, 0)
  {
    hide Walk;
  }

  lemma StackIsFree(ram: Ram, cr3: int, page: int, pages: int)
    requires UserOnly(ram, cr3, 0, 0) && KERNEL_TABLES <= Pde(page) && 0 <= pages && page + pages <= WINDOW
    ensures FreeRun(ram, cr3, page, pages)
  {
    hide Walk;
    forall p | page <= p < page + pages ensures IsPage(p) && !InWindow(p) && KERNEL_TABLES <= Pde(p) {
    }
  }

  lemma StackIsAll(a: Ram, b: Ram, cr3: int, page: int, pages: int)
    requires UserOnly(a, cr3, 0, 0) && TranslatedOnly(a, b, cr3, page, pages)
    ensures UserOnly(b, cr3, page, pages)
  {
    hide Walk;
    forall p | IsPage(p) && !InWindow(p) && KERNEL_TABLES <= Pde(p) && !(page <= p < page + pages)
      ensures Walk(b, cr3, p) == None
    {
      assert Walk(b, cr3, p) == Walk(a, cr3, p);
    }
  }

  /** In the kernel's part both directories translate alike. */
  ghost predicate SharesPart(ram: Ram, from: int, cr3: int) {
    ValidRam(ram) && forall p {:trigger Walk(ram, cr3, p)} :: IsPage(p) && Pde(p) < KERNEL_TABLES ==>
      Walk(ram, cr3, p) == Walk(ram, from, p)
  }

  /** A new task with the kernel's entries of the current directory sees its pages there alike. */
  lemma SameKernelPart(a: Ram, c: Ram, tasks: seq<UserTask>, t: int, u: int, cr3: int)
    requires 0 <= u < |tasks| && u != t && tasks[u].live && tasks[u].cr3 in a && ValidRam(a)
    requires KernelEntries(a, c, tasks[u].cr3, cr3) && OthersKeep(a, c, tasks, t)
    ensures SharesPart(c, tasks[u].cr3, cr3)
  {
    var from := tasks[u].cr3;
    assert KeptSpace(a, c, from);
    assert c[from] == a[from];
    forall p | IsPage(p) && Pde(p) < KERNEL_TABLES ensures Walk(c, cr3, p) == Walk(c, from, p) {
      assert HasTable(c, cr3, Pde(p)) || !HasTable(c, cr3, Pde(p));
      assert c[cr3][Pde(p)] == a[from][Pde(p)];
    }
  }

  lemma PartIsFree(ram: Ram, from: int, cr3: int, page: int, pages: int)
    requires SharesPart(ram, from, cr3) && FreeRun(ram, from, page, pages) && page + pages <= PageOfAddress(KERNEL_END)
    ensures FreeRun(ram, cr3, page, pages)
  {
    hide Walk;
    forall p | page <= p < page + pages ensures Walk(ram, cr3, p) == None {
      assert Walk(ram, cr3, p) == Walk(ram, from, p);
    }
  }

  lemma CopiedTables(ram: Ram, r: Ram, owner: Owners, from: int, f: int, entries: seq<int>)
    requires Held(ram, owner, from) && f in ram && f !in owner && 0 <= f
    requires Copied(ram, from, entries, KERNEL_TABLES) && r == ram[f := entries[SELF := MakeEntry(f * PAGE_SIZE, 0)]]
    ensures ValidRam(r) && f != from && Directory(r, f)
    ensures forall i {:trigger HasTable(r, f, i)} :: 0 <= i < SELF ==>
              && (HasTable(r, f, i) <==> i < KERNEL_TABLES && HasTable(ram, from, i))
              && (HasTable(r, f, i) ==> TableOf(r, f, i) == TableOf(ram, from, i) && TableOf(r, f, i) in owner)
  {
    EntryFields(f * PAGE_SIZE, 0);
    forall i | 0 <= i < SELF
      ensures HasTable(r, f, i) <==> i < KERNEL_TABLES && HasTable(ram, from, i)
      ensures HasTable(r, f, i) ==> TableOf(r, f, i) == TableOf(ram, from, i) && TableOf(r, f, i) in owner
    {
    }
  }

  /** A new directory translates the kernel's part as the one it was copied from, and it is a good one for
      its task if and only if that one may be shared. */
  lemma NewDirectory(ram: Ram, r: Ram, owner: Owners, from: int, f: int, t: int, entries: seq<int>)
    requires Held(ram, owner, from) && f in ram && f !in owner && 0 <= f && t != KERNEL
    requires forall g {:trigger owner[g]} :: g in owner ==> owner[g] != t
    requires Copied(ram, from, entries, KERNEL_TABLES) && r == ram[f := entries[SELF := MakeEntry(f * PAGE_SIZE, 0)]]
    ensures Space(r, Grant(owner, f, 1, t), t, f) <==> Donor(ram, owner, from)
    ensures KernelOnly(ram, r, from, f)
  {
    CopiedTables(ram, r, owner, from, f, entries);
    hide Directory, Copied, Held;
    var owner' := Grant(owner, f, 1, t);
    forall i | 0 <= i < KERNEL_TABLES && HasTable(ram, from, i)
      ensures HasTable(r, f, i) && TableOf(r, f, i) == TableOf(ram, from, i)
      ensures Owned(owner, TableOf(ram, from, i), KERNEL) <==>
                Owned(owner', TableOf(r, f, i), t) || Owned(owner', TableOf(r, f, i), KERNEL)
    {
      assert HasTable(r, f, i);
    }
    assert Donor(ram, owner, from) ==> Space(r, owner', t, f);
    assert Space(r, owner', t, f) ==> Donor(ram, owner, from);
    forall p | IsPage(p) && !InWindow(p)
      ensures Walk(r, f, p) == if Pde(p) < KERNEL_TABLES then Walk(ram, from, p) else None
    {
      assert HasTable(r, f, Pde(p)) <==> Pde(p) < KERNEL_TABLES && HasTable(ram, from, Pde(p));
    }
  }

  /** Sharing a directory that should not be shared: the new task's directory names a table of the task it
      was copied from, and goes on naming it when that task is cleaned and the frame is nobody's. */
  lemma BorrowedTable(ram: Ram, r: Ram, owner: Owners, tasks: seq<UserTask>, live: set<int>, size: int, u: int, f: int,
                      t: int, entries: seq<int>)
    requires Good(ram, owner, tasks, live, size) && 0 <= u < |tasks| && tasks[u].live && u != t && t != KERNEL
    requires f in ram && f !in owner && 0 <= f && !Donor(ram, owner, tasks[u].cr3)
    requires Copied(ram, tasks[u].cr3, entries, KERNEL_TABLES)
    requires r == ram[f := entries[SELF := MakeEntry(f * PAGE_SIZE, 0)]]
    ensures ValidRam(r)
    ensures exists i :: && 0 <= i < KERNEL_TABLES && HasTable(r, f, i)
                        && Owned(Grant(owner, f, 1, t), TableOf(r, f, i), u)
                        && TableOf(r, f, i) !in Without(Grant(owner, f, 1, t), u)
  {
    HeldByTask(ram, owner, tasks, live, size, u);
    TaskIsDonor(ram, owner, tasks, live, size, u);
    var cr3 := tasks[u].cr3;
    var i :| 0 <= i < KERNEL_TABLES && HasTable(ram, cr3, i) && Owned(owner, TableOf(ram, cr3, i), u);
    CopiedTables(ram, r, owner, cr3, f, entries);
    assert HasTable(r, f, i);
  }

  /** Task `t` has a directory with the kernel's part of directory `from` and nothing else. Nobody lost a
      frame, no other task sees a difference, and all of them are as they should be. */
  ghost predicate DirectoryMade(ram: Ram, owner: Owners, tasks: seq<UserTask>, ram': Ram, owner': Owners,
                                tasks': seq<UserTask>, live': set<int>, size: int, t: int, from: int) {
    && 0 < t < |tasks| && |tasks'| == |tasks| && tasks' == tasks[t := tasks[t].(live := true, cr3 := tasks'[t].cr3)]
    && Ledger(ram', owner', tasks', live', size) && OthersGood(ram', owner', tasks', t)
    && ValidRam(ram) && OthersSame(ram, ram', tasks, t) && OthersKeep(ram, ram', tasks, t) && Grows(owner, owner', t)
    && KernelOnly(ram, ram', from, tasks'[t].cr3) && KernelEntries(ram, ram', from, tasks'[t].cr3)
  }

  lemma MadeDirectory(ram: Ram, owner: Owners, tasks: seq<UserTask>, ram': Ram, owner': Owners,
                      tasks': seq<UserTask>, live': set<int>, size: int, t: int, from: int)
    requires DirectoryMade(ram, owner, tasks, ram', owner', tasks', live', size, t, from)
    ensures |tasks'| == |tasks| && 0 < t < |tasks| && OnlyTask(tasks, tasks', t)
    ensures OthersKeep(ram, ram', tasks, t) && Grows(owner, owner', t) && KernelEntries(ram, ram', from, tasks'[t].cr3)
  {
  }

  /** A task with nothing but its new directory is as it should be if and only if the directory it was
      copied from may be shared; all others are in any case. */
  lemma NewTaskGood(ram: Ram, r: Ram, owner: Owners, tasks: seq<UserTask>, tasks': seq<UserTask>, live: set<int>,
                    live': set<int>, size: int, t: int, from: int, f: int, entries: seq<int>)
    requires Good(ram, owner, tasks, live, size) && Fresh(live, live', size, f * PAGE_SIZE, 1)
      && Held(ram, owner, from)
    requires 0 < t < |tasks| && tasks[t].used && !tasks[t].live && f in ram && f !in owner && 0 < f
    requires Copied(ram, from, entries, KERNEL_TABLES) && r == ram[f := entries[SELF := MakeEntry(f * PAGE_SIZE, 0)]]
    requires tasks' == tasks[t := tasks[t].(live := true, cr3 := f)]
    ensures GoodBut(r, Grant(owner, f, 1, t), tasks', live', size, t, -1) <==> Donor(ram, owner, from)
    ensures DirectoryMade(ram, owner, tasks, r, Grant(owner, f, 1, t), tasks', live', size, t, from)
  {
    hide Walk, Directory, OthersSame, KernelOnly, MakeEntry, Space, Donor, TaskGood, Held, KernelEntries, Copied, Grows;
    CopiedEntries(ram, r, from, f, entries);
    GrantGrows(owner, f, 1, t);
    CopiedFrom(ram, from, entries, KERNEL_TABLES);
    assert r.Keys == ram.Keys && ValidRam(r);
    LedgerNew(ram, r, owner, tasks, tasks', live, live', size, t, f);
    NewDirectory(ram, r, owner, from, f, t, entries);
    assert OthersGood(ram, owner, tasks, t);
    AllOthersEdit(ram, r, owner, tasks, t);
    OthersAfterGrant(r, owner, tasks, tasks', t, f, 1);
    SameIsKept(ram, r, tasks, t);
    FirstRecord(owner, t, f);
    OnlyDirectory(r, Grant(owner, f, 1, t), t, tasks'[t]);
  }

  lemma OnlyDirectory(ram: Ram, owner: Owners, t: int, task: UserTask)
    requires task.segments == [] && Recorded(owner, t, task.cr3, [])
    ensures TaskGood(ram, owner, t, task, 0, -1) <==> Space(ram, owner, t, task.cr3)
  {
  }

  lemma FirstRecord(owner: Owners, t: int, f: int)
    requires forall g {:trigger owner[g]} :: g in owner ==> owner[g] != t
    ensures Recorded(Grant(owner, f, 1, t), t, f, [])
  {
  }

  lemma LedgerNew(ram: Ram, r: Ram, owner: Owners, tasks: seq<UserTask>, tasks': seq<UserTask>, live: set<int>,
                  live': set<int>, size: int, t: int, f: int)
    requires Ledger(ram, owner, tasks, live, size) && Fresh(live, live', size, f * PAGE_SIZE, 1) && r.Keys == ram.Keys
    requires ValidRam(r)
    requires 0 < t < |tasks| && !tasks[t].live && OnlyTask(tasks, tasks', t) && tasks'[t].live && tasks'[t].used
    ensures Ledger(r, Grant(owner, f, 1, t), tasks', live', size)
    ensures forall g {:trigger owner[g]} :: g in owner ==> owner[g] != t
  {
    LedgerGrant(ram, r, owner, tasks, tasks', live, live', size, t, f * PAGE_SIZE, 1);
  }

  /** Frames the kernel takes for itself concern no task. */
  lemma KernelGood(ram: Ram, owner: Owners, tasks: seq<UserTask>, live: set<int>, live': set<int>, size: int,
                   address: int, n: int)
    requires Good(ram, owner, tasks, live, size) && Fresh(live, live', size, address, n)
    ensures Good(ram, Grant(owner, address / PAGE_SIZE, n, KERNEL), tasks, live', size)
    ensures Grows(owner, Grant(owner, address / PAGE_SIZE, n, KERNEL), KERNEL)
    ensures forall f :: address / PAGE_SIZE <= f < address / PAGE_SIZE + n ==>
              f !in owner && Owned(Grant(owner, address / PAGE_SIZE, n, KERNEL), f, KERNEL)
  {
    hide TaskGood, SameHoldings, Ledger, Fresh, OthersGood, Grant;
    FreshFrames(ram, owner, tasks, live, live', size, address, n);
    var first := address / PAGE_SIZE;
    var owner' := Grant(owner, first, n, KERNEL);
    GrantGrows(owner, first, n, KERNEL);
    KernelLedger(ram, owner, tasks, live, live', size, address, n);
    forall u | 0 <= u < |tasks| ensures SameHoldings(owner, owner', u) {
      GrantElsewhere(owner, first, n, KERNEL, u);
    }
    AllOthersOwners(ram, owner, owner', tasks, -1);
    forall f | first <= f < first + n ensures Owned(owner', f, KERNEL) {
      GrantGives(owner, first, n, KERNEL, f);
    }
  }

  lemma KernelLedger(ram: Ram, owner: Owners, tasks: seq<UserTask>, live: set<int>, live': set<int>, size: int,
                     address: int, n: int)
    requires Ledger(ram, owner, tasks, live, size) && Fresh(live, live', size, address, n)
    ensures Ledger(ram, Grant(owner, address / PAGE_SIZE, n, KERNEL), tasks, live', size) && 0 <= n
  {
  }

  /** `f` is a fresh frame that becomes table `i` of address space `u`. */
  ghost predicate FreshTable(ram: Ram, owner: Owners, tasks: seq<UserTask>, u: int, i: int, f: int, w: int, r: Ram) {
    && ValidRam(ram) && 0 <= u < |tasks| && tasks[u].live && 0 <= i < SELF && tasks[u].cr3 in ram
    && !HasTable(ram, tasks[u].cr3, i) && f in ram && f !in owner && NamesTable(w, f)
    && r == Poke(ram, tasks[u].cr3, i, w)[f := seq(ENTRIES, _ => 0)]
  }

  lemma FreshTableOthers(ram: Ram, owner: Owners, tasks: seq<UserTask>, u: int, i: int, f: int, w: int, r: Ram)
    requires FreshTable(ram, owner, tasks, u, i, f, w, r) && OthersGood(ram, owner, tasks, u)
    requires TaskGood(ram, owner, u, tasks[u], 0, -1)
    ensures ValidRam(r) && r.Keys == ram.Keys
    ensures OthersGood(r, owner, tasks, u) && OthersSame(ram, r, tasks, u)
  {
    TaskHolds(ram, owner, u, tasks[u], -1);
    hide TaskGood, OthersGood, OthersSame;
    SameFrames(ram, r, tasks[u].cr3, i, f, w);
    AllOthersEdit(ram, r, owner, tasks, u);
  }

  lemma GoodHas(ram: Ram, owner: Owners, tasks: seq<UserTask>, live: set<int>, size: int, u: int)
    requires Good(ram, owner, tasks, live, size) && 0 <= u < |tasks| && tasks[u].live
    ensures Ledger(ram, owner, tasks, live, size) && OthersGood(ram, owner, tasks, u)
    ensures TaskGood(ram, owner, u, tasks[u], 0, -1)
  {
    hide Ledger, TaskGood;
  }

  /** A table the kernel makes in an address space is the kernel's, and everything stays as it should be. */
  lemma KernelTableGood(ram: Ram, r: Ram, owner: Owners, tasks: seq<UserTask>, live: set<int>, live': set<int>,
                        size: int, u: int, i: int, f: int, w: int)
    requires Good(ram, owner, tasks, live, size) && Fresh(live, live', size, f * PAGE_SIZE, 1)
    requires FreshTable(ram, owner, tasks, u, i, f, w, r)
    ensures Good(r, Grant(owner, f, 1, KERNEL), tasks, live', size)
  {
    GoodHas(ram, owner, tasks, live, size, u);
    hide TaskGood, Walk, OthersGood, OthersSame, Grant, Ledger, Fresh;
    FreshTableOthers(ram, owner, tasks, u, i, f, w, r);
    NewKernelTable(ram, owner, u, tasks[u], i, f, w);
    KernelLedger(ram, owner, tasks, live, live', size, f * PAGE_SIZE, 1);
    LedgerFrames(ram, r, Grant(owner, f, 1, KERNEL), tasks, live', size);
    KernelGrant(r, owner, tasks, u, f);
    AllGood(r, Grant(owner, f, 1, KERNEL), tasks, u);
  }

  lemma LedgerFrames(ram: Ram, r: Ram, owner: Owners, tasks: seq<UserTask>, live: set<int>, size: int)
    requires Ledger(ram, owner, tasks, live, size) && ValidRam(r) && r.Keys == ram.Keys
    ensures Ledger(r, owner, tasks, live, size)
  {
    forall g | 0 <= g < size ensures g in r { assert g in ram && g in ram.Keys; }
  }

  lemma KernelGrant(ram: Ram, owner: Owners, tasks: seq<UserTask>, u: int, f: int)
    requires OthersGood(ram, owner, tasks, u) && f !in owner
    ensures OthersGood(ram, Grant(owner, f, 1, KERNEL), tasks, u)
  {
    hide TaskGood;
    forall v | 0 <= v < |tasks| && v != u ensures SameHoldings(owner, Grant(owner, f, 1, KERNEL), v) {
      GrantElsewhere(owner, f, 1, KERNEL, v);
    }
    AllOthersOwners(ram, owner, Grant(owner, f, 1, KERNEL), tasks, u);
  }

  lemma AllGood(ram: Ram, owner: Owners, tasks: seq<UserTask>, u: int)
    requires OthersGood(ram, owner, tasks, u) && 0 <= u < |tasks| && TaskGood(ram, owner, u, tasks[u], 0, -1)
    ensures OthersGood(ram, owner, tasks, -1)
  {
    hide TaskGood;
  }

  /** Address space `u` has table `i` now; it is the kernel's. No page is translated differently, and no other
      address space changed at all. */
  ghost predicate KernelTableMade(ram: Ram, owner: Owners, tasks: seq<UserTask>, ram': Ram, owner': Owners, u: int,
                                  i: int) {
    && 0 <= u < |tasks| && 0 <= i < SELF && ValidRam(ram) && ValidRam(ram')
    && (var cr3 := tasks[u].cr3;
        && OneEntry(ram, ram', cr3, i) && HasTable(ram', cr3, i) && Owned(owner', TableOf(ram', cr3, i), KERNEL)
        && Unrestricted(ram'[cr3][i])
        && SameBelowWindow(ram, ram', cr3))
    && OthersSame(ram, ram', tasks, u) && Grows(owner, owner', KERNEL)
  }

  lemma KernelTableSeen(ram: Ram, r: Ram, owner: Owners, tasks: seq<UserTask>, live: set<int>, size: int, u: int,
                        i: int, f: int, w: int)
    requires Good(ram, owner, tasks, live, size) && FreshTable(ram, owner, tasks, u, i, f, w, r)
    ensures KernelTableMade(ram, owner, tasks, r, Grant(owner, f, 1, KERNEL), u, i)
  {
    GoodHas(ram, owner, tasks, live, size, u);
    hide Good, TaskGood, Walk, OthersGood, OthersSame, Grant, Grows;
    FreshTableOthers(ram, owner, tasks, u, i, f, w, r);
    NewKernelTable(ram, owner, u, tasks[u], i, f, w);
    GrantGrows(owner, f, 1, KERNEL);
    GrantGives(owner, f, 1, KERNEL, f);
    TaskHolds(ram, owner, u, tasks[u], -1);
  }

  /** So a directory that may be shared still may. */
  lemma KernelTableDonor(ram: Ram, owner: Owners, tasks: seq<UserTask>, ram': Ram, owner': Owners, live': set<int>,
                         size: int, u: int, i: int)
    requires KernelTableMade(ram, owner, tasks, ram', owner', u, i) && Good(ram', owner', tasks, live', size)
    requires tasks[u].live && Donor(ram, owner, tasks[u].cr3)
    ensures Donor(ram', owner', tasks[u].cr3)
  {
    HeldByTask(ram', owner', tasks, live', size, u);
    var cr3 := tasks[u].cr3;
    hide Good, OthersSame, SameBelowWindow;
    forall j | 0 <= j < KERNEL_TABLES && HasTable(ram', cr3, j) && j != i
      ensures Owned(owner', TableOf(ram', cr3, j), KERNEL)
    {
      assert HasTable(ram, cr3, j) && Owned(owner, TableOf(ram, cr3, j), KERNEL);
    }
  }

  /** The kernel may change an entry of a table of its own that maps no frame of a task, shared or not:
      no task loses a page. */
  lemma KernelEdit(ram: Ram, owner: Owners, tasks: seq<UserTask>, live: set<int>, size: int, f: int, j: int, w: int)
    requires Good(ram, owner, tasks, live, size) && Owned(owner, f, KERNEL) && f in ram && 0 <= j < ENTRIES
    requires IsPresent(ram[f][j]) && FrameOf(ram[f][j]) in owner ==> owner[FrameOf(ram[f][j])] == KERNEL
    ensures Good(Poke(ram, f, j, w), owner, tasks, live, size)
  {
    hide TaskGood;
    LedgerPoke(ram, owner, tasks, live, size, f, j, w);
    forall u | 0 <= u < |tasks| && tasks[u].live ensures TaskGood(Poke(ram, f, j, w), owner, u, tasks[u], 0, -1) {
      OthersPoke(ram, owner, u, tasks[u], f, j, w);
    }
  }

  /** Frame `f` is held by a task. */
  predicate OfTask(owner: Owners, f: int) {
    f in owner && owner[f] != KERNEL
  }

  /** The record of some task names frame `f`. */
  predicate Recording(tasks: seq<UserTask>, f: int) {
    exists t :: 0 <= t < |tasks| && tasks[t].live && (f == tasks[t].cr3 || InSome(tasks[t].segments, f))
  }

  /** The records name exactly the frames that tasks hold. */
  lemma RecordsAreExact(ram: Ram, owner: Owners, tasks: seq<UserTask>, live: set<int>, size: int, f: int)
    requires Good(ram, owner, tasks, live, size)
    ensures Recording(tasks, f) <==> OfTask(owner, f)
  {
    if Recording(tasks, f) {
      var t :| 0 <= t < |tasks| && tasks[t].live && (f == tasks[t].cr3 || InSome(tasks[t].segments, f));
      assert TaskGood(ram, owner, t, tasks[t], 0, -1);
      if f != tasks[t].cr3 {
        var k :| 0 <= k < |tasks[t].segments| && InSegment(tasks[t].segments[k], f);
      }
      assert Owned(owner, f, t);
    }
    if OfTask(owner, f) {
      var t := owner[f];
      assert TaskGood(ram, owner, t, tasks[t], 0, -1) && Owned(owner, f, t);
      if f != tasks[t].cr3 {
        var k :| 0 <= k < |tasks[t].segments| && InSegment(tasks[t].segments[k], f);
        assert InSome(tasks[t].segments, f);
      }
    }
  }

  /** In no address space is a page translated differently unless it was mapped by entry `e`, or, when that is
      None, not mapped. */
  ghost predicate OnlyEntry(ram: Ram, ram': Ram, tasks: seq<UserTask>, e: Option<int>) {
    && ValidRam(ram) && ValidRam(ram')
    && forall u {:trigger tasks[u]} :: 0 <= u < |tasks| && tasks[u].live ==>
         OnlyEntryIn(ram, ram', tasks[u].cr3, e)
  }

  ghost predicate OnlyEntryIn(ram: Ram, ram': Ram, cr3: int, e: Option<int>)
    requires ValidRam(ram) && ValidRam(ram')
  {
    && SameEntries(ram, ram', cr3)
    && forall p {:trigger Walk(ram', cr3, p)} :: IsPage(p) && Walk(ram, cr3, p) != e ==>
         Walk(ram', cr3, p) == Walk(ram, cr3, p)
  }

  /** The page is reached through a table, and what it is mapped to, if anything, is not a frame of a task. */
  ghost predicate Editable(ram: Ram, owner: Owners, tasks: seq<UserTask>, u: int, page: int) {
    && ValidRam(ram) && 0 <= u < |tasks| && tasks[u].live && IsPage(page) && !InWindow(page) && tasks[u].cr3 in ram
    && HasTable(ram, tasks[u].cr3, Pde(page)) && TableOf(ram, tasks[u].cr3, Pde(page)) in ram
    && (Walk(ram, tasks[u].cr3, page).Some? ==> !OfTask(owner, FrameAt(ram, tasks[u].cr3, page)))
  }

  lemma TableHolder(ram: Ram, owner: Owners, u: int, task: UserTask, i: int)
    requires TaskGood(ram, owner, u, task, 0, -1) && 0 <= i < SELF && HasTable(ram, task.cr3, i)
    ensures Owned(owner, TableOf(ram, task.cr3, i), u) || Owned(owner, TableOf(ram, task.cr3, i), KERNEL)
    ensures TableOf(ram, task.cr3, i) in ram
  {
  }

  /** The kernel may change an entry in any address space, of a task's own table too, as long as it did not map a
      frame of a task: no task loses a page, and only what was mapped as that entry said is translated anew. */
  lemma KernelEntry(ram: Ram, r: Ram, owner: Owners, tasks: seq<UserTask>, live: set<int>, size: int, u: int,
                    page: int, w: int)
    requires Good(ram, owner, tasks, live, size) && Editable(ram, owner, tasks, u, page)
    requires r == Poke(ram, TableOf(ram, tasks[u].cr3, Pde(page)), Pte(page), w)
    ensures Good(r, owner, tasks, live, size) && OnlyEntry(ram, r, tasks, Walk(ram, tasks[u].cr3, page))
    ensures Walk(r, tasks[u].cr3, page) == (if IsPresent(w) then Some(w) else None)
    ensures SameOutside(ram, r, tasks[u].cr3, page, page + 1)
  {
    var cr3 := tasks[u].cr3;
    var table, j := TableOf(ram, cr3, Pde(page)), Pte(page);
    GoodHas(ram, owner, tasks, live, size, u);
    LedgerPoke(ram, owner, tasks, live, size, table, j, w);
    TableHolder(ram, owner, u, tasks[u], Pde(page));
    NoEntryNoPage(ram, cr3, page);
    if Walk(ram, cr3, page).Some? { NoneRecorded(ram, owner, u, tasks[u], FrameAt(ram, cr3, page)); }
    OwnPoke(ram, owner, u, tasks[u], 0, -1, page, w);
    hide TaskGood;
    forall v | 0 <= v < |tasks| && tasks[v].live
      ensures TaskGood(r, owner, v, tasks[v], 0, -1)
      ensures OnlyEntryIn(ram, r, tasks[v].cr3, Walk(ram, cr3, page))
    {
      if v != u { OthersPoke(ram, owner, v, tasks[v], table, j, w); }
      EntryElsewhere(ram, owner, v, tasks[v], table, j, w);
    }
  }

  lemma NoneRecorded(ram: Ram, owner: Owners, u: int, task: UserTask, f: int)
    requires TaskGood(ram, owner, u, task, 0, -1) && !OfTask(owner, f) && u != KERNEL
    ensures forall k {:trigger task.segments[k]} :: 0 <= k < |task.segments| ==> !InSegment(task.segments[k], f)
  {
  }

  lemma EntryElsewhere(ram: Ram, owner: Owners, v: int, task: UserTask, f: int, j: int, w: int)
    requires TaskGood(ram, owner, v, task, 0, -1) && f in ram && 0 <= j < ENTRIES && f != task.cr3
    ensures OnlyEntryIn(ram, Poke(ram, f, j, w), task.cr3, if IsPresent(ram[f][j]) then Some(ram[f][j]) else None)
  {
    var cr3, r := task.cr3, Poke(ram, f, j, w);
    assert r[cr3] == ram[cr3];
    forall p | IsPage(p) && Walk(ram, cr3, p) != if IsPresent(ram[f][j]) then Some(ram[f][j]) else None
      ensures Walk(r, cr3, p) == Walk(ram, cr3, p)
    {
      assert HasTable(ram, cr3, Pde(p)) <==> HasTable(r, cr3, Pde(p));
    }
  }

  /** The kernel has mapped `page` in address space `u`, with entry `w`: no page mapped before is translated
      differently, in any address space, and if the directory could be copied it still can. */
  ghost predicate KernelMapped(ram: Ram, owner: Owners, tasks: seq<UserTask>, ram': Ram, owner': Owners, u: int,
                               page: int, w: int) {
    && ValidRam(ram) && ValidRam(ram') && 0 <= u < |tasks| && IsPage(page)
    && (var cr3 := tasks[u].cr3;
        && Walk(ram, cr3, page) == None && Walk(ram', cr3, page) == Some(w)
        && SameOutside(ram, ram', cr3, page, page + 1) && (Donor(ram, owner, cr3) ==> Donor(ram', owner', cr3)))
    && OthersKeep(ram, ram', tasks, u) && Grows(owner, owner', KERNEL)
  }

  /** The table through which the page is mapped was there, or the kernel has made it. */
  ghost predicate TableThere(ram: Ram, owner: Owners, tasks: seq<UserTask>, ram': Ram, owner': Owners, u: int,
                             i: int) {
    (ram' == ram && owner' == owner) || KernelTableMade(ram, owner, tasks, ram', owner', u, i)
  }

  lemma TableKeeps(a: Ram, owner: Owners, tasks: seq<UserTask>, b: Ram, owner': Owners, live: set<int>, size: int,
                   u: int, i: int)
    requires TableThere(a, owner, tasks, b, owner', u, i) && ValidRam(a) && 0 <= u < |tasks| && tasks[u].live
    requires Good(b, owner', tasks, live, size)
    ensures ValidRam(b) && SameBelowWindow(a, b, tasks[u].cr3)
    ensures OthersKeep(a, b, tasks, u) && Grows(owner, owner', KERNEL)
    ensures Donor(a, owner, tasks[u].cr3) ==> Donor(b, owner', tasks[u].cr3)
  {
    hide Good, Walk, Donor, KeptSpace, SameSpace;
    if b == a && owner' == owner {
      OthersReflexive(a, tasks, u);
    } else {
      SameIsKept(a, b, tasks, u);
      if Donor(a, owner, tasks[u].cr3) { KernelTableDonor(a, owner, tasks, b, owner', live, size, u, i); }
    }
  }

  /** With its table there the page is translated as before; with a new one it is not mapped. */
  lemma TableReady(a: Ram, owner: Owners, tasks: seq<UserTask>, b: Ram, owner': Owners, live: set<int>, size: int,
                   u: int, page: int)
    requires TableThere(a, owner, tasks, b, owner', u, Pde(page)) && Good(b, owner', tasks, live, size)
    requires ValidRam(a) && ValidRam(b) && 0 <= u < |tasks| && tasks[u].live && IsPage(page) && !InWindow(page)
    requires tasks[u].cr3 in b && HasTable(b, tasks[u].cr3, Pde(page))
    ensures TableOf(b, tasks[u].cr3, Pde(page)) in b
    ensures Walk(b, tasks[u].cr3, page) == Walk(a, tasks[u].cr3, page)
    ensures b == a || Walk(a, tasks[u].cr3, page) == None
    ensures owner' == owner || Walk(a, tasks[u].cr3, page) == None
  {
    GoodHas(b, owner', tasks, live, size, u);
    TableHolder(b, owner', u, tasks[u], Pde(page));
    hide Good, TaskGood, OthersGood, Ledger, OthersSame;
  }

  /** The entry of a page that was not mapped has been set. */
  lemma MappedByKernel(a: Ram, owner: Owners, tasks: seq<UserTask>, b: Ram, owner': Owners, c: Ram, live: set<int>,
                       size: int, u: int, page: int, w: int)
    requires TableThere(a, owner, tasks, b, owner', u, Pde(page)) && ValidRam(a)
    requires Good(b, owner', tasks, live, size) && Good(c, owner', tasks, live, size)
    requires ValidRam(b) && ValidRam(c) && 0 <= u < |tasks| && tasks[u].live && IsPage(page) && !InWindow(page)
    requires Walk(b, tasks[u].cr3, page) == None && Walk(c, tasks[u].cr3, page) == Some(w)
    requires SameOutside(b, c, tasks[u].cr3, page, page + 1) && OnlyEntry(b, c, tasks, None)
    ensures KernelMapped(a, owner, tasks, c, owner', u, page, w)
  {
    TableKeeps(a, owner, tasks, b, owner', live, size, u, Pde(page));
    var cr3 := tasks[u].cr3;
    if Donor(b, owner', cr3) {
      HeldByTask(c, owner', tasks, live, size, u);
      assert OnlyEntryIn(b, c, cr3, None);
      StaysDonor(b, owner', c, owner', cr3);
    }
    hide Good, Walk, Donor, TableThere;
    EntryKeeps(b, c, tasks, u);
    KeepsThen(a, b, c, tasks, tasks, u);
    forall p | IsPage(p) && !(page <= p < page + 1) && !InWindow(p) ensures Walk(c, cr3, p) == Walk(a, cr3, p) {
      assert Walk(b, cr3, p) == Walk(a, cr3, p);
    }
    assert Walk(b, cr3, page) == Walk(a, cr3, page);
  }

  lemma EntryKeeps(ram: Ram, ram': Ram, tasks: seq<UserTask>, u: int)
    requires OnlyEntry(ram, ram', tasks, None)
    ensures OthersKeep(ram, ram', tasks, u)
  {
    hide Walk;
    forall v | 0 <= v < |tasks| && tasks[v].live ensures KeptSpace(ram, ram', tasks[v].cr3) {
      assert OnlyEntryIn(ram, ram', tasks[v].cr3, None);
    }
  }

  lemma MadeThere(ram: Ram, owner: Owners, tasks: seq<UserTask>, ram': Ram, owner': Owners, u: int, i: int)
    requires KernelTableMade(ram, owner, tasks, ram', owner', u, i)
    ensures TableThere(ram, owner, tasks, ram', owner', u, i)
    ensures ValidRam(ram') && tasks[u].cr3 in ram' && HasTable(ram', tasks[u].cr3, i)
  {
  }

  lemma NoTableNoPage(ram: Ram, cr3: int, page: int)
    requires ValidRam(ram) && cr3 in ram && IsPage(page) && !HasTable(ram, cr3, Pde(page))
    ensures Walk(ram, cr3, page) == None
  {
  }

  /** The kernel has unmapped `page` in address space `u`: of the other pages, there and elsewhere, only those that
      were mapped by the same entry can be translated differently, and in `u` none is. */
  ghost predicate KernelUnmapped(ram: Ram, tasks: seq<UserTask>, ram': Ram, u: int, page: int) {
    && ValidRam(ram) && ValidRam(ram') && 0 <= u < |tasks| && IsPage(page)
    && Walk(ram, tasks[u].cr3, page).Some? && Walk(ram', tasks[u].cr3, page) == None
    && SameOutside(ram, ram', tasks[u].cr3, page, page + 1)
    && OnlyEntry(ram, ram', tasks, Walk(ram, tasks[u].cr3, page))
  }

  /** Slot `t` belongs to a new kernel task. */
  ghost predicate KernelTaskAdded(tasks: seq<UserTask>, tasks': seq<UserTask>, t: int) {
    && 0 < t < |tasks'| && SlotsKept(tasks, tasks', t) && tasks'[t].used && !tasks'[t].live
    && tasks'[t].cr3 == tasks'[0].cr3
  }

  /** What a slot holds that holds no memory concerns nobody. */
  lemma SlotIdle(ram: Ram, owner: Owners, tasks: seq<UserTask>, tasks': seq<UserTask>, live: set<int>, size: int,
                 t: int)
    requires Good(ram, owner, tasks, live, size) && 0 < t < |tasks| && !tasks[t].live && OnlyTask(tasks, tasks', t)
    requires !tasks'[t].live && tasks'[t].segments == []
    ensures Good(ram, owner, tasks', live, size)
  {
    hide TaskGood;
    assert tasks'[0] == tasks[0];
    forall u | 0 <= u < |tasks'| && tasks'[u].live ensures tasks'[u] == tasks[u] {
    }
  }

  // ----- who holds what -----

  function Count(segments: seq<Segment>, f: int): nat {
    if segments == [] then 0
    else Count(segments[..|segments| - 1], f) + if InSegment(segments[|segments| - 1], f) then 1 else 0
  }

  /** How often a task's record names a frame: as its directory, or in a segment. */
  function Holds(task: UserTask, f: int): nat {
    Count(task.segments, f) + if f == task.cr3 then 1 else 0
  }

  lemma {:induction false} CountOnce(segments: seq<Segment>, f: int)
    requires forall k, l {:trigger segments[k], segments[l]} ::
               0 <= k < l < |segments| && InSegment(segments[k], f) ==> !InSegment(segments[l], f)
    ensures Count(segments, f) == if InSome(segments, f) then 1 else 0
  {
    if segments != [] {
      var n := |segments| - 1;
      var rest := segments[..n];
      CountOnce(rest, f);
      if InSome(rest, f) {
        var k :| 0 <= k < n && InSegment(rest[k], f);
        assert segments[k] == rest[k];
      }
      if InSome(segments, f) && !InSegment(segments[n], f) {
        var k :| 0 <= k < n && InSegment(segments[k], f);
        assert rest[k] == segments[k];
      }
    }
  }

  /** A task's record names each of its frames once and no other. */
  lemma HeldOnce(ram: Ram, owner: Owners, tasks: seq<UserTask>, live: set<int>, size: int, t: int, f: int)
    requires Good(ram, owner, tasks, live, size) && 0 <= t < |tasks| && tasks[t].live
    ensures Holds(tasks[t], f) == if Owned(owner, f, t) then 1 else 0
  {
    var task := tasks[t];
    assert TaskGood(ram, owner, t, task, 0, -1);
    forall k, l | 0 <= k < l < |task.segments| && InSegment(task.segments[k], f)
      ensures !InSegment(task.segments[l], f)
    {
    }
    CountOnce(task.segments, f);
    if InSome(task.segments, f) {
      var k :| 0 <= k < |task.segments| && InSegment(task.segments[k], f);
    }
  }

  /** The frames handed out are the disjoint union of the kernel's and of what each task's directory and
      segments name, and nothing is named twice. */
  lemma Partition(ram: Ram, owner: Owners, tasks: seq<UserTask>, live: set<int>, size: int, f: int)
    requires Good(ram, owner, tasks, live, size)
    ensures f in live <==>
              Owned(owner, f, KERNEL) || exists t :: 0 <= t < |tasks| && tasks[t].live && Holds(tasks[t], f) == 1
    ensures forall t :: 0 <= t < |tasks| && tasks[t].live ==> Holds(tasks[t], f) <= 1
    ensures forall t :: 0 <= t < |tasks| && tasks[t].live && Holds(tasks[t], f) == 1 ==> !Owned(owner, f, KERNEL)
    ensures forall t, u :: 0 <= t < u < |tasks| && tasks[t].live && tasks[u].live && Holds(tasks[t], f) == 1 ==>
              Holds(tasks[u], f) == 0
  {
    hide OthersGood, Holds;
    forall t | 0 <= t < |tasks| && tasks[t].live ensures Holds(tasks[t], f) == if Owned(owner, f, t) then 1 else 0 {
      HeldOnce(ram, owner, tasks, live, size, t, f);
    }
    if f in live && !Owned(owner, f, KERNEL) {
      assert Holds(tasks[owner[f]], f) == 1;
    }
  }
}
