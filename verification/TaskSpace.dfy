/** A user task's memory (task.h, kernel/paging.cpp on a task, kernel/scheduler.cpp): its directory and
    tables, and the segments that record every frame it must give back. */
module TaskSpace {
  import opened Intervals
  import opened PageTables
  import opened Wrappers

  /** Owner of the frames the kernel took for itself; a task is named by its place in the task table. */
  const KERNEL := -1

  /** `pages` frames from address `physical` on, mapped at `virt`; a page table is recorded at 0. */
  datatype Segment = Segment(physical: int, virt: int, pages: int)

  /** A slot of the task table. It is in use from newTask until the cleaner has been through, and `live`,
      which is to say that it holds memory, from mapKernel on. */
  datatype UserTask = UserTask(used: bool, live: bool, cr3: int, segments: seq<Segment>, end: int)

  /** Who holds each frame that the allocator has handed out. */
  type Owners = map<int, int>

  predicate Owned(owner: Owners, f: int, t: int) {
    f in owner && owner[f] == t
  }

  function FirstFrame(s: Segment): int {
    s.physical / PAGE_SIZE
  }

  predicate InSegment(s: Segment, f: int) {
    FirstFrame(s) <= f < FirstFrame(s) + s.pages
  }

  /** The directory is the task's, and each table is the task's or shared with the kernel. */
  ghost predicate Space(ram: Ram, owner: Owners, t: int, cr3: int) {
    && Directory(ram, cr3) && Owned(owner, cr3, t)
    && forall i {:trigger HasTable(ram, cr3, i)} :: 0 <= i < SELF && HasTable(ram, cr3, i) ==>
         Owned(owner, TableOf(ram, cr3, i), t) || Owned(owner, TableOf(ram, cr3, i), KERNEL)
  }

  /** The segments hold each frame of the task but its directory, once. */
  ghost predicate Recorded(owner: Owners, t: int, cr3: int, segments: seq<Segment>) {
    && (forall k, f {:trigger InSegment(segments[k], f)} :: 0 <= k < |segments| && InSegment(segments[k], f) ==>
          Owned(owner, f, t) && f != cr3)
    && (forall k, l, f {:trigger InSegment(segments[k], f), InSegment(segments[l], f)} ::
          0 <= k < l < |segments| && InSegment(segments[k], f) ==> !InSegment(segments[l], f))
    && (forall f {:trigger Owned(owner, f, t)} :: Owned(owner, f, t) && f != cr3 ==> InSome(segments, f))
  }

  predicate InSome(segments: seq<Segment>, f: int) {
    exists k {:trigger segments[k]} :: 0 <= k < |segments| && InSegment(segments[k], f)
  }

  function WithUser(flags: int): int {
    if flags / USER % 2 == 1 then flags else flags + USER
  }

  predicate Aligned(address: int) {
    address % PAGE_SIZE == 0
  }

  /** Pages [lo, hi) of the segment are mapped to its frames, in order. */
  ghost predicate MappedPart(ram: Ram, cr3: int, s: Segment, lo: int, hi: int)
    requires ValidRam(ram)
  {
    && 0 < FirstFrame(s)
    && forall p {:trigger FrameAt(ram, cr3, p)} :: PageOfAddress(s.virt) + lo <= p < PageOfAddress(s.virt) + hi ==>
         !InWindow(p) && FrameAt(ram, cr3, p) == FirstFrame(s) + (p - PageOfAddress(s.virt))
  }

  /** Frames and pages of a segment that can be mapped below the window. */
  predicate Mappable(s: Segment) {
    Aligned(s.physical) && 0 < FirstFrame(s) && 0 <= s.virt && 0 <= s.pages
      && s.virt + s.pages * PAGE_SIZE <= WINDOW * PAGE_SIZE
  }

  /** A segment that the cleaner will unmap. */
  predicate IsMapping(s: Segment) {
    s.virt != 0 && Aligned(s.virt)
  }

  /** The segments from `first` on are mapped, but for the one at `except`. */
  ghost predicate MappedFrom(ram: Ram, cr3: int, segments: seq<Segment>, first: int, except: int)
    requires ValidRam(ram)
  {
    forall k {:trigger segments[k]} :: 0 <= k < |segments| && first <= k && k != except && IsMapping(segments[k]) ==>
      MappedPart(ram, cr3, segments[k], 0, segments[k].pages)
  }

  ghost predicate TaskGood(ram: Ram, owner: Owners, t: int, task: UserTask, first: int, except: int) {
    && Space(ram, owner, t, task.cr3)
    && Recorded(owner, t, task.cr3, task.segments)
    && MappedFrom(ram, task.cr3, task.segments, first, except)
    && forall k {:trigger task.segments[k]} :: 0 <= k < |task.segments| ==>
         task.segments[k].pages > 0 && Aligned(task.segments[k].physical) && (task.segments[k].virt != 0 ==>
           Mappable(task.segments[k]))
  }

  // ----- what an edit leaves alone -----

  /** The memory an address space of `t` is read from is unchanged. */
  ghost predicate Untouched(ram: Ram, ram': Ram, owner: Owners, t: int) {
    ValidRam(ram') && ram'.Keys == ram.Keys
    && forall f :: f in ram && (Owned(owner, f, t) || Owned(owner, f, KERNEL)) ==> ram'[f] == ram[f]
  }

  /** The directory itself is unchanged. */
  ghost predicate SameEntries(ram: Ram, ram': Ram, cr3: int) {
    cr3 in ram ==> cr3 in ram' && ram'[cr3] == ram[cr3]
  }

  lemma SpaceSame(ram: Ram, ram': Ram, owner: Owners, t: int, cr3: int)
    requires Space(ram, owner, t, cr3) && Untouched(ram, ram', owner, t)
    ensures Space(ram', owner, t, cr3) && SameEntries(ram, ram', cr3)
    ensures forall p {:trigger Walk(ram', cr3, p)} :: IsPage(p) ==> Walk(ram', cr3, p) == Walk(ram, cr3, p)
  {
    assert ram'[cr3] == ram[cr3];
    forall i | 0 <= i < SELF && HasTable(ram', cr3, i)
      ensures HasTable(ram, cr3, i) && TableOf(ram', cr3, i) == TableOf(ram, cr3, i)
      ensures TableOf(ram, cr3, i) in ram && ram'[TableOf(ram, cr3, i)] == ram[TableOf(ram, cr3, i)]
    {
      assert HasTable(ram, cr3, i);
    }
    forall p | IsPage(p) ensures Walk(ram', cr3, p) == Walk(ram, cr3, p) {
      assert HasTable(ram', cr3, Pde(p)) <==> HasTable(ram, cr3, Pde(p));
    }
  }

  lemma PartSame(ram: Ram, ram': Ram, cr3: int, s: Segment, lo: int, hi: int)
    requires ValidRam(ram) && ValidRam(ram') && MappedPart(ram, cr3, s, lo, hi)
    requires forall p {:trigger FrameAt(ram', cr3, p)} ::
               PageOfAddress(s.virt) + lo <= p < PageOfAddress(s.virt) + hi && !InWindow(p) ==>
                 FrameAt(ram', cr3, p) == FrameAt(ram, cr3, p)
    ensures MappedPart(ram', cr3, s, lo, hi)
  {
    hide FrameAt;
    forall p | PageOfAddress(s.virt) + lo <= p < PageOfAddress(s.virt) + hi
      ensures !InWindow(p) && FrameAt(ram', cr3, p) == FirstFrame(s) + (p - PageOfAddress(s.virt))
    {
      assert FrameAt(ram, cr3, p) == FirstFrame(s) + (p - PageOfAddress(s.virt));
    }
  }

  /** Edits of what another task holds leave a task good. */
  lemma OthersEdit(ram: Ram, ram': Ram, owner: Owners, u: int, task: UserTask)
    requires TaskGood(ram, owner, u, task, 0, -1) && Untouched(ram, ram', owner, u)
    ensures TaskGood(ram', owner, u, task, 0, -1)
  {
    SpaceSame(ram, ram', owner, u, task.cr3);
    forall k | 0 <= k < |task.segments| && IsMapping(task.segments[k])
      ensures MappedPart(ram', task.cr3, task.segments[k], 0, task.segments[k].pages)
    {
      PartSame(ram, ram', task.cr3, task.segments[k], 0, task.segments[k].pages);
    }
  }

  /** A change of entry `j` of table `f` that mapped none of the frames of `u` leaves `u` good, even when
      the table is shared. */
  lemma OthersPoke(ram: Ram, owner: Owners, u: int, task: UserTask, f: int, j: int, w: int)
    requires TaskGood(ram, owner, u, task, 0, -1) && f in ram && 0 <= j < ENTRIES
    requires !Owned(owner, f, u)
    requires IsPresent(ram[f][j]) ==> !Owned(owner, FrameOf(ram[f][j]), u)
    ensures TaskGood(Poke(ram, f, j, w), owner, u, task, 0, -1)
  {
    var r := Poke(ram, f, j, w);
    var cr3 := task.cr3;
    assert r[cr3] == ram[cr3];
    assert forall i :: 0 <= i < ENTRIES ==> (HasTable(r, cr3, i) <==> HasTable(ram, cr3, i));
    forall k | 0 <= k < |task.segments| && IsMapping(task.segments[k])
      ensures MappedPart(r, cr3, task.segments[k], 0, task.segments[k].pages)
    {
      var s := task.segments[k];
      assert MappedPart(ram, cr3, s, 0, s.pages);
      forall p | PageOfAddress(s.virt) <= p < PageOfAddress(s.virt) + s.pages
        ensures FrameAt(r, cr3, p) == FrameAt(ram, cr3, p)
      {
        assert InSegment(s, FrameAt(ram, cr3, p));
      }
      PartSame(ram, r, cr3, s, 0, s.pages);
    }
  }

  // ----- frames granted and given back -----

  /** `n` frames from `first` on go to `t`. */
  ghost function Grant(owner: Owners, first: int, n: int, t: int): Owners
    requires 0 <= n
  {
    map f | f in owner.Keys + Interval(first, first + n) :: if first <= f < first + n then t else owner[f]
  }

  /** What `u` and the kernel hold is not less, and `u` holds no more. */
  ghost predicate SameHoldings(owner: Owners, owner': Owners, u: int) {
    && (forall f {:trigger Owned(owner', f, u)} :: Owned(owner', f, u) <==> Owned(owner, f, u))
    && (forall f {:trigger Owned(owner', f, KERNEL)} :: Owned(owner, f, KERNEL) ==> Owned(owner', f, KERNEL))
  }

  lemma OthersOwners(ram: Ram, owner: Owners, owner': Owners, u: int, task: UserTask)
    requires TaskGood(ram, owner, u, task, 0, -1) && SameHoldings(owner, owner', u)
    ensures TaskGood(ram, owner', u, task, 0, -1)
  {
  }

  /** A run of frames nobody held is recorded in a new segment. */
  lemma RecordRun(owner: Owners, t: int, cr3: int, segments: seq<Segment>, s: Segment)
    requires Recorded(owner, t, cr3, segments) && Owned(owner, cr3, t) && 0 <= s.pages
    requires forall f :: InSegment(s, f) ==> f !in owner
    ensures Recorded(Grant(owner, FirstFrame(s), s.pages, t), t, cr3, segments + [s])
  {
    var owner', segments' := Grant(owner, FirstFrame(s), s.pages, t), segments + [s];
    var last := |segments|;
    forall k, f | 0 <= k <= last && InSegment(segments'[k], f) ensures Owned(owner', f, t) && f != cr3 {
      if k < last { assert InSegment(segments[k], f); }
    }
    forall k, l, f | 0 <= k < l <= last && InSegment(segments'[k], f) ensures !InSegment(segments'[l], f) {
      assert InSegment(segments[k], f);
      if l < last { assert segments'[l] == segments[l]; }
    }
    forall f | Owned(owner', f, t) && f != cr3 ensures InSome(segments', f) {
      if InSegment(s, f) {
        assert segments'[last] == s;
      } else {
        assert Owned(owner, f, t);
        var k :| 0 <= k < last && InSegment(segments[k], f);
        assert segments'[k] == segments[k];
      }
    }
  }

  /** Pushing a segment that is still to be mapped. */
  lemma PushSegment(ram: Ram, owner: Owners, t: int, task: UserTask, s: Segment)
    requires TaskGood(ram, owner, t, task, 0, -1) && 0 < s.pages && Aligned(s.physical) && (s.virt != 0 ==> Mappable(s))
    requires forall f :: InSegment(s, f) ==> f !in owner
    ensures TaskGood(ram, Grant(owner, FirstFrame(s), s.pages, t), t, task.(segments := task.segments + [s]), 0,
      |task.segments|)
  {
    RecordRun(owner, t, task.cr3, task.segments, s);
    var owner' := Grant(owner, FirstFrame(s), s.pages, t);
    assert forall f :: f in owner ==> f in owner' && owner'[f] == owner[f];
    assert forall k :: 0 <= k < |task.segments| ==> (task.segments + [s])[k] == task.segments[k];
  }

  /** A new table of the task: a zeroed frame nobody held, named in the directory and recorded. */
  lemma NewTable(ram: Ram, owner: Owners, t: int, task: UserTask, except: int, i: int, f: int, w: int)
    requires TaskGood(ram, owner, t, task, 0, except) && 0 <= i < SELF && !HasTable(ram, task.cr3, i)
    requires f in ram && f !in owner && NamesTable(w, f) && except < |task.segments|
    ensures var r := Poke(ram, task.cr3, i, w)[f := seq(ENTRIES, _ => 0)];
            && TaskGood(r, Grant(owner, f, 1, t), t, task.(segments := task.segments + [Segment(f * PAGE_SIZE, 0, 1)]),
              0, except)
            && HasTable(r, task.cr3, i) && TableOf(r, task.cr3, i) == f
            && forall p {:trigger Walk(r, task.cr3, p)} :: IsPage(p) && !InWindow(p) ==>
              Walk(r, task.cr3, p) == Walk(ram, task.cr3, p)
  {
    var cr3, s := task.cr3, Segment(f * PAGE_SIZE, 0, 1);
    var segments := task.segments + [s];
    assert FirstFrame(s) == f;
    assert !UsedForTables(ram, cr3, f) by {
      forall j | 0 <= j < ENTRIES && HasTable(ram, cr3, j) ensures TableOf(ram, cr3, j) != f {
        if j < SELF { assert HasTable(ram, cr3, j); }
      }
    }
    AddTable(ram, cr3, i, f, w);
    var r := Poke(ram, cr3, i, w)[f := seq(ENTRIES, _ => 0)];
    assert Space(r, Grant(owner, f, 1, t), t, cr3) by {
      forall j | 0 <= j < SELF && HasTable(r, cr3, j) && j != i
        ensures HasTable(ram, cr3, j) && TableOf(r, cr3, j) == TableOf(ram, cr3, j)
      {
      }
    }
    RecordRun(owner, t, cr3, task.segments, s);
    forall k | 0 <= k < |segments| && k != except && IsMapping(segments[k])
      ensures MappedPart(r, cr3, segments[k], 0, segments[k].pages)
    {
      assert segments[k] == task.segments[k];
      PartSame(ram, r, cr3, segments[k], 0, segments[k].pages);
    }
  }

  /** A new table that the kernel makes in the address space of a task: the task does not hold it. */
  lemma NewKernelTable(ram: Ram, owner: Owners, u: int, task: UserTask, i: int, f: int, w: int)
    requires TaskGood(ram, owner, u, task, 0, -1) && 0 <= i < SELF && !HasTable(ram, task.cr3, i) && u != KERNEL
    requires f in ram && f !in owner && NamesTable(w, f)
    ensures var r := Poke(ram, task.cr3, i, w)[f := seq(ENTRIES, _ => 0)];
            && TaskGood(r, Grant(owner, f, 1, KERNEL), u, task, 0, -1)
            && HasTable(r, task.cr3, i) && TableOf(r, task.cr3, i) == f
            && forall p {:trigger Walk(r, task.cr3, p)} :: IsPage(p) && !InWindow(p) ==>
              Walk(r, task.cr3, p) == Walk(ram, task.cr3, p)
  {
    var cr3 := task.cr3;
    assert !UsedForTables(ram, cr3, f) by {
      forall j | 0 <= j < ENTRIES && HasTable(ram, cr3, j) ensures TableOf(ram, cr3, j) != f {
        if j < SELF { assert HasTable(ram, cr3, j); }
      }
    }
    AddTable(ram, cr3, i, f, w);
    var r := Poke(ram, cr3, i, w)[f := seq(ENTRIES, _ => 0)];
    forall g | Owned(Grant(owner, f, 1, KERNEL), g, u) && g != cr3 ensures InSome(task.segments, g) {
      assert Owned(owner, g, u);
    }
    assert Space(r, Grant(owner, f, 1, KERNEL), u, cr3) by {
      forall j | 0 <= j < SELF && HasTable(r, cr3, j) && j != i
        ensures HasTable(ram, cr3, j) && TableOf(r, cr3, j) == TableOf(ram, cr3, j)
      {
      }
    }
    forall k | 0 <= k < |task.segments| && IsMapping(task.segments[k])
      ensures MappedPart(r, cr3, task.segments[k], 0, task.segments[k].pages)
    {
      PartSame(ram, r, cr3, task.segments[k], 0, task.segments[k].pages);
    }
  }

  /** A change of the entry of a page that none of the segments in question maps. */
  lemma OwnPoke(ram: Ram, owner: Owners, t: int, task: UserTask, first: int, except: int, page: int, w: int)
    requires TaskGood(ram, owner, t, task, first, except)
    requires IsPage(page) && !InWindow(page) && HasTable(ram, task.cr3, Pde(page))
    requires forall k {:trigger task.segments[k]} :: 0 <= k < |task.segments| && first <= k && k != except ==>
               FrameAt(ram, task.cr3, page) <= 0 || !InSegment(task.segments[k], FrameAt(ram, task.cr3, page))
    ensures var r := Poke(ram, TableOf(ram, task.cr3, Pde(page)), Pte(page), w);
            && TaskGood(r, owner, t, task, first, except)
            && Walk(r, task.cr3, page) == (if IsPresent(w) then Some(w) else None)
            && forall p {:trigger Walk(r, task.cr3, p)} :: IsPage(p) && p != page ==>
              Walk(r, task.cr3, p) == Walk(ram, task.cr3, p)
  {
    var cr3 := task.cr3;
    WriteEntry(ram, cr3, page, w);
    var r := Poke(ram, TableOf(ram, cr3, Pde(page)), Pte(page), w);
    assert Space(r, owner, t, cr3) by {
      forall j | 0 <= j < SELF && HasTable(r, cr3, j)
        ensures HasTable(ram, cr3, j) && TableOf(r, cr3, j) == TableOf(ram, cr3, j)
      {
      }
    }
    forall k | 0 <= k < |task.segments| && first <= k && k != except && IsMapping(task.segments[k])
      ensures MappedPart(r, cr3, task.segments[k], 0, task.segments[k].pages)
    {
      var s := task.segments[k];
      if PageOfAddress(s.virt) <= page < PageOfAddress(s.virt) + s.pages {
        assert FrameAt(ram, cr3, page) == FirstFrame(s) + (page - PageOfAddress(s.virt));
        assert InSegment(s, FrameAt(ram, cr3, page));
        assert false;
      }
      PartSame(ram, r, cr3, s, 0, s.pages);
    }
  }

  // ----- all tasks -----

  /** Every task but `t` that holds memory is as it should be. */
  ghost predicate OthersGood(ram: Ram, owner: Owners, tasks: seq<UserTask>, t: int) {
    forall u {:trigger tasks[u]} :: 0 <= u < |tasks| && u != t && tasks[u].live ==>
      TaskGood(ram, owner, u, tasks[u], 0, -1)
  }

  /** The two memories translate every page alike, by the same directory. */
  ghost predicate SameSpace(ram: Ram, ram': Ram, cr3: int)
    requires ValidRam(ram) && ValidRam(ram')
  {
    && SameEntries(ram, ram', cr3)
    && forall p {:trigger Walk(ram', cr3, p)} :: IsPage(p) ==> Walk(ram', cr3, p) == Walk(ram, cr3, p)
  }

  /** No other task sees a difference. */
  ghost predicate OthersSame(ram: Ram, ram': Ram, tasks: seq<UserTask>, t: int)
    requires ValidRam(ram) && ValidRam(ram')
  {
    forall u {:trigger tasks[u]} :: 0 <= u < |tasks| && u != t && tasks[u].live ==> SameSpace(ram, ram', tasks[u].cr3)
  }

  /** `t` and the frames nobody holds are all that an edit touches: the others see nothing of it. */
  lemma AllOthersEdit(ram: Ram, ram': Ram, owner: Owners, tasks: seq<UserTask>, t: int)
    requires OthersGood(ram, owner, tasks, t) && ValidRam(ram) && ValidRam(ram') && ram'.Keys == ram.Keys && 0 <= t
    requires forall f :: f in ram && f in owner && owner[f] != t ==> ram'[f] == ram[f]
    ensures OthersGood(ram', owner, tasks, t) && OthersSame(ram, ram', tasks, t)
  {
    hide Walk, Directory;
    forall u | 0 <= u < |tasks| && u != t && tasks[u].live
      ensures TaskGood(ram', owner, u, tasks[u], 0, -1) && SameSpace(ram, ram', tasks[u].cr3)
    {
      OthersEdit(ram, ram', owner, u, tasks[u]);
      SpaceSame(ram, ram', owner, u, tasks[u].cr3);
    }
  }

  lemma AllOthersPoke(ram: Ram, owner: Owners, tasks: seq<UserTask>, t: int, f: int, j: int, w: int)
    requires OthersGood(ram, owner, tasks, t) && ValidRam(ram) && f in ram && 0 <= j < ENTRIES && 0 <= t
    requires Owned(owner, f, t) || Owned(owner, f, KERNEL)
    requires IsPresent(ram[f][j]) ==> Owned(owner, FrameOf(ram[f][j]), t)
    ensures OthersGood(Poke(ram, f, j, w), owner, tasks, t)
  {
    hide TaskGood;
    forall u | 0 <= u < |tasks| && u != t && tasks[u].live
      ensures TaskGood(Poke(ram, f, j, w), owner, u, tasks[u], 0, -1)
    {
      OthersPoke(ram, owner, u, tasks[u], f, j, w);
    }
  }

  lemma AllOthersOwners(ram: Ram, owner: Owners, owner': Owners, tasks: seq<UserTask>, t: int)
    requires OthersGood(ram, owner, tasks, t)
    requires forall u {:trigger tasks[u]} :: 0 <= u < |tasks| && u != t ==> SameHoldings(owner, owner', u)
    ensures OthersGood(ram, owner', tasks, t)
  {
    hide TaskGood, SameHoldings;
    forall u | 0 <= u < |tasks| && u != t && tasks[u].live ensures TaskGood(ram, owner', u, tasks[u], 0, -1) {
      OthersOwners(ram, owner, owner', u, tasks[u]);
    }
  }

  lemma GrantElsewhere(owner: Owners, first: int, n: int, t: int, u: int)
    requires 0 <= n && u != t && u != KERNEL && forall f :: first <= f < first + n ==> f !in owner
    ensures SameHoldings(owner, Grant(owner, first, n, t), u)
  {
  }
}
