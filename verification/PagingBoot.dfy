/** Paging::init of kernel/paging.cpp: the first directory is filled in by physical address and only
    then given its entry for itself. */
module PagingBoot {
  import opened Intervals
  import opened PageTables
  import opened Paging
  import opened Wrappers

  /** First page of the framebuffer; it has one. */
  const FRAMEBUFFER := 0xb8

  /** What the directory will be once it names itself. */
  function Sealed(ram: Ram, cr3: int): (r: Ram)
    requires ValidRam(ram) && cr3 in ram
    ensures ValidRam(r) && cr3 in r
  {
    Poke(ram, cr3, SELF, MakeEntry(cr3 * PAGE_SIZE, 0))
  }

  /** Paging is off, and naming the directory in itself would make it good. */
  ghost predicate Building(p: Paging)
    reads p
  {
    && ValidRam(p.ram) && p.cr3 in p.ram && 0 < p.cr3 < PAGES
    && Directory(View(p), p.cr3)
    && NoTables(View(p), p.cr3, p.pool) && p.held == {} && p.tlb == map[]
    && 0 <= p.firstFree < ADDRESSES && p.firstFree % PAGE_SIZE == 0
  }

  /** The tables as they will be once paging is on. */
  ghost function View(p: Paging): Ram
    reads p`ram
    requires ValidRam(p.ram) && p.cr3 in p.ram
  {
    Sealed(p.ram, p.cr3)
  }

  lemma SealedEntry(ram: Ram, cr3: int, i: int)
    requires ValidRam(ram) && cr3 in ram && 0 <= i < SELF
    ensures Sealed(ram, cr3)[cr3][i] == ram[cr3][i]
    ensures forall f :: f in ram && f != cr3 ==> Sealed(ram, cr3)[f] == ram[f]
  {
  }

  /** Naming a zeroed table and sealing commute. */
  lemma SealedTable(ram: Ram, cr3: int, i: int, f: int, w: int)
    requires ValidRam(ram) && cr3 in ram && 0 <= i < SELF && f in ram && f != cr3
    ensures var zeros := seq(ENTRIES, _ => 0);
            Sealed(Poke(ram, cr3, i, w)[f := zeros], cr3) == Poke(Sealed(ram, cr3), cr3, i, w)[f := zeros]
  {
    var x := MakeEntry(cr3 * PAGE_SIZE, 0);
    assert ram[cr3][i := w][SELF := x] == ram[cr3][SELF := x][i := w];
  }

  /** Writing a table's entry and sealing commute. */
  lemma SealedPoke(ram: Ram, cr3: int, t: int, j: int, w: int)
    requires ValidRam(ram) && cr3 in ram && t in ram && t != cr3 && 0 <= j < ENTRIES
    ensures Sealed(Poke(ram, t, j, w), cr3) == Poke(Sealed(ram, cr3), t, j, w)
  {
  }

  /** `get` by physical address, with `create`. */
  method TablePhysical(p: Paging, page: int) returns (r: Result<int>)
    requires Building(p) && IsPage(page) && !InWindow(page)
    modifies p`ram, p`pool
    ensures Building(p) && ValidRam(old(p.ram)) && p.cr3 in old(p.ram)
    ensures r.Ok? ==>
              && HasTable(View(p), p.cr3, Pde(page)) && r.value == TableOf(View(p), p.cr3, Pde(page))
              && Unrestricted(View(p)[p.cr3][Pde(page)])
              && SameOutside(old(View(p)), View(p), p.cr3, page, page)
    ensures r.Aborted? ==> p.pool == {}
  {
    var i := Pde(page);
    WindowArithmetic(page);
    SealedEntry(p.ram, p.cr3, i);
    if !IsPresent(p.ram[p.cr3][i]) {
      if p.pool == {} {
        return Aborted;
      }
      NonEmpty(p.pool);
      var f :| f in p.pool;
      ghost var before := View(p);
      var w := MakeEntry(f * PAGE_SIZE, WRITE + USER);
      TableEntry(f * PAGE_SIZE);
      SealedTable(p.ram, p.cr3, i, f, w);
      AddTable(before, p.cr3, i, f, w);
      WindowPages(i);
      p.pool := p.pool - {f};
      p.ram := Poke(p.ram, p.cr3, i, w);
      p.ram := p.ram[f := seq(ENTRIES, _ => 0)];
      forall g | g in p.pool ensures !UsedForTables(View(p), p.cr3, g) {
        FramesUsed(before, p.cr3, i, f, w, g);
      }
      SealedEntry(p.ram, p.cr3, i);
    }
    return Ok(FrameOf(p.ram[p.cr3][i]));
  }

  /** Writing the entry of `page` by physical address is writing it through the window that is to come. */
  lemma WrittenPhysical(ram: Ram, cr3: int, page: int, t: int, w: int)
    requires ValidRam(ram) && cr3 in ram && Directory(Sealed(ram, cr3), cr3) && IsPage(page) && !InWindow(page)
    requires HasTable(Sealed(ram, cr3), cr3, Pde(page)) && t == TableOf(Sealed(ram, cr3), cr3, Pde(page))
    ensures t in ram && t != cr3 && Sealed(ram, cr3)[t] == ram[t] && 0 <= Pte(page) < ENTRIES
    ensures Walk(Sealed(ram, cr3), cr3, page) == if IsPresent(ram[t][Pte(page)]) then Some(ram[t][Pte(page)]) else None
    ensures Sealed(Poke(ram, t, Pte(page), w), cr3) == Poke(Sealed(ram, cr3), t, Pte(page), w)
  {
    WindowArithmetic(page);
    var mid := Sealed(ram, cr3);
    assert t in mid && t != cr3;
    assert mid.Keys == ram.Keys;
    SealedPoke(ram, cr3, t, Pte(page), w);
  }

  lemma StillNoTables(ram: Ram, ram': Ram, cr3: int, frames: set<int>)
    requires ValidRam(ram) && ValidRam(ram') && cr3 in ram && cr3 in ram' && ram'[cr3] == ram[cr3]
    requires ram'.Keys == ram.Keys && NoTables(ram, cr3, frames)
    ensures NoTables(ram', cr3, frames)
  {
    hide UsedForTables;
    forall f | f in frames ensures f in ram' && !UsedForTables(ram', cr3, f) {
      assert f in ram.Keys;
      SameDirectory(ram, ram', cr3, f);
    }
  }

  /** modify without paging, to map. */
  method MapPhysical(p: Paging, page: int, physical: int, flags: int) returns (r: Result<bool>)
    requires Building(p) && IsPage(page) && !InWindow(page) && 0 <= physical && 0 <= flags < PAGE_SIZE
    modifies p`ram, p`pool, p`firstFree
    ensures Building(p) && ValidRam(old(p.ram)) && p.cr3 in old(p.ram)
    ensures r.Ok? ==> SameOutside(old(View(p)), View(p), p.cr3, page, page + 1)
    ensures r.Ok? ==> r.value == (Walk(old(View(p)), p.cr3, page) == None)
    ensures r.Ok? && r.value ==> Walk(View(p), p.cr3, page) == Some(MakeEntry(physical, WithPresent(flags)))
    ensures r.Ok? && !r.value ==> Walk(View(p), p.cr3, page) == Walk(old(View(p)), p.cr3, page)
    ensures r.Ok? ==>
              p.firstFree ==
              if r.value && page * PAGE_SIZE == old(p.firstFree) + PAGE_SIZE then page * PAGE_SIZE else old(p.firstFree)
    ensures r.Aborted? ==> p.pool == {}
  {
    hide Walk, MakeEntry, UsedForTables, Sealed, WithPresent;
    ghost var before := View(p);
    var table := TablePhysical(p, page);
    if table.Aborted? {
      return Aborted;
    }
    ghost var mid := View(p);
    assert Walk(mid, p.cr3, page) == Walk(before, p.cr3, page);
    var t, j, w := table.value, Pte(page), MakeEntry(physical, WithPresent(flags));
    PresentTwice(physical, flags);
    WrittenPhysical(p.ram, p.cr3, page, t, w);
    if IsPresent(p.ram[t][j]) {
      return Ok(false);
    }
    WriteEntry(mid, p.cr3, page, w);
    p.ram := Poke(p.ram, t, j, w);
    StillNoTables(mid, View(p), p.cr3, p.pool);
    if page * PAGE_SIZE == p.firstFree + PAGE_SIZE {
      p.firstFree := p.firstFree + PAGE_SIZE;
    }
    return Ok(true);
  }

  lemma PresentTwice(physical: int, flags: int)
    requires 0 <= physical && 0 <= flags < PAGE_SIZE
    ensures IsPresent(MakeEntry(physical, WithPresent(flags)))
  {
    EntryFields(physical, WithPresent(flags));
  }

  /** The entry that maps a page to itself. */
  function Identity(page: int, flags: int): int {
    MakeEntry(page * PAGE_SIZE, WithPresent(flags))
  }

  /** The pages [lo, hi) map themselves now, unless they were mapped before, and the others are as they were. */
  ghost predicate MapsThemselves(ram: Ram, ram': Ram, cr3: int, lo: int, hi: int, flags: int) {
    && ValidRam(ram) && ValidRam(ram') && SameOutside(ram, ram', cr3, lo, hi)
    && forall q {:trigger Walk(ram', cr3, q)} :: lo <= q < hi ==>
         IsPage(q) && Walk(ram', cr3, q) == if Walk(ram, cr3, q) == None then Some(Identity(q, flags))
           else Walk(ram, cr3, q)
  }

  lemma IdentityStep(a: Ram, b: Ram, c: Ram, cr3: int, lo: int, page: int, flags: int)
    requires MapsThemselves(a, b, cr3, lo, page, flags) && 0 <= lo <= page < WINDOW && ValidRam(c)
    requires SameOutside(b, c, cr3, page, page + 1)
    requires Walk(c, cr3, page) == if Walk(b, cr3, page) == None then Some(Identity(page, flags))
      else Walk(b, cr3, page)
    ensures MapsThemselves(a, c, cr3, lo, page + 1, flags)
  {
    hide Walk, Identity;
    OutsideExtends(a, b, c, cr3, lo, page);
    assert Walk(b, cr3, page) == Walk(a, cr3, page);
    forall q | lo <= q < page ensures IsPage(q) && Walk(c, cr3, q) == Walk(b, cr3, q) {
      assert IsPage(q) && !InWindow(q);
    }
  }

  /** identityMap of the pages [lo, hi). */
  method IdentityMap(p: Paging, lo: int, hi: int, flags: int) returns (ok: bool)
    requires Building(p) && 0 <= lo <= hi <= WINDOW && 0 <= flags < PAGE_SIZE
    modifies p`ram, p`pool, p`firstFree
    ensures Building(p) && ValidRam(old(p.ram)) && p.cr3 in old(p.ram)
    ensures ok ==> MapsThemselves(old(View(p)), View(p), p.cr3, lo, hi, flags)
    ensures ok && hi == lo + 1 ==> p.firstFree == HintAfter(old(View(p)), p.cr3, lo, old(p.firstFree))
    ensures !ok ==> p.pool == {}
  {
    hide Walk, MakeEntry, Directory, NoTables, Sealed;
    ghost var before, hint := View(p), p.firstFree;
    var page := lo;
    while page < hi
      invariant lo <= page <= hi && Building(p)
      invariant MapsThemselves(before, View(p), p.cr3, lo, page, flags)
      invariant page == lo ==> p.firstFree == hint && View(p) == before
      invariant page == lo + 1 ==> p.firstFree == HintAfter(before, p.cr3, lo, hint)
    {
      ghost var mid := View(p);
      assert IsPage(page) && !InWindow(page);
      var done := MapPhysical(p, page, page * PAGE_SIZE, WithPresent(flags));
      if done.Aborted? {
        return false;
      }
      IdentityStep(before, mid, View(p), p.cr3, lo, page, flags);
      page := page + 1;
    }
    return true;
  }

  /** The hint after one page was mapped by physical address. */
  function HintAfter(ram: Ram, cr3: int, page: int, hint: int): int
    requires ValidRam(ram) && IsPage(page)
  {
    if Walk(ram, cr3, page) == None && page * PAGE_SIZE == hint + PAGE_SIZE then page * PAGE_SIZE else hint
  }

  /** The kernel's pages map themselves for writing, and the framebuffer, unless it is among them, for
      reading; nothing else is mapped. */
  ghost predicate KernelMapped(ram: Ram, cr3: int, kernelPages: int)
    requires ValidRam(ram)
  {
    forall q {:trigger Walk(ram, cr3, q)} :: IsPage(q) && !InWindow(q) ==>
      Walk(ram, cr3, q) == if q < kernelPages then Some(Identity(q, WRITE))
        else if q == FRAMEBUFFER then Some(Identity(q, 0)) else None
  }

  /** What that means to the processor: each of these pages is the frame of the same number, none is open to user
      mode, and only the kernel's are for writing. */
  lemma MappedToThemselves(ram: Ram, cr3: int, kernelPages: int, page: int)
    requires ValidRam(ram) && KernelMapped(ram, cr3, kernelPages) && IsPage(page) && !InWindow(page)
    ensures page < kernelPages || page == FRAMEBUFFER ==>
              && FrameAt(ram, cr3, page) == page && !UserMayRead(ram, cr3, page)
              && (Has(Walk(ram, cr3, page).value, WRITE) <==> page < kernelPages)
    ensures page >= kernelPages && page != FRAMEBUFFER ==> Walk(ram, cr3, page) == None
  {
    hide Walk;
    var flags := if page < kernelPages then WRITE else 0;
    if page < kernelPages || page == FRAMEBUFFER {
      assert Walk(ram, cr3, page) == Some(Identity(page, flags));
      EntryFields(page * PAGE_SIZE, WithPresent(flags));
    }
  }

  /** Paging::init. The hint is sound unless the kernel ends one page before the framebuffer. False is
      the panic when the frames run out. */
  method Init(memory: Ram, directory: int, frames: set<int>, kernelPages: int) returns (p: Paging, ok: bool)
    requires ValidRam(memory) && directory in memory && 0 < directory < PAGES
    requires forall f :: f in frames ==> f in memory && 0 < f < PAGES && f != directory
    requires 0 < kernelPages <= WINDOW
    ensures fresh(p) && p.cr3 == directory
    ensures ok ==> p.Valid() && KernelMapped(p.ram, p.cr3, kernelPages)
    ensures ok ==> (p.HintSound() <==> kernelPages != FRAMEBUFFER - 1)
    ensures !ok ==> p.pool == {}
  {
    p := new Paging(memory, directory, frames);
    EmptyDirectory(p, memory);
    ghost var none := View(p);
    ok := IdentityMap(p, 0, kernelPages, WRITE);
    if !ok {
      return;
    }
    p.firstFree := kernelPages * PAGE_SIZE;
    ghost var kernel := View(p);
    ok := IdentityMap(p, FRAMEBUFFER, FRAMEBUFFER + 1, 0);
    if !ok {
      return;
    }
    p.ram := Sealed(p.ram, p.cr3);
    FirstHint(none, kernel, p.ram, p.cr3, kernelPages);
    assert p.Hint() == HintAfter(kernel, p.cr3, FRAMEBUFFER, kernelPages * PAGE_SIZE) / PAGE_SIZE;
  }

  lemma FirstHint(none: Ram, kernel: Ram, ram: Ram, cr3: int, kernelPages: int)
    requires ValidRam(none) && ValidRam(kernel) && ValidRam(ram) && 0 < kernelPages <= WINDOW
    requires forall q {:trigger Walk(none, cr3, q)} :: IsPage(q) && !InWindow(q) ==> Walk(none, cr3, q) == None
    requires MapsThemselves(none, kernel, cr3, 0, kernelPages, WRITE)
    requires MapsThemselves(kernel, ram, cr3, FRAMEBUFFER, FRAMEBUFFER + 1, 0)
    ensures KernelMapped(ram, cr3, kernelPages)
    ensures Sound(ram, cr3, HintAfter(kernel, cr3, FRAMEBUFFER, kernelPages * PAGE_SIZE) / PAGE_SIZE)
            <==> kernelPages != FRAMEBUFFER - 1
  {
    hide Walk, Identity;
    forall q | IsPage(q) && !InWindow(q)
      ensures Walk(kernel, cr3, q) == if q < kernelPages then Some(Identity(q, WRITE)) else None
      ensures q != FRAMEBUFFER ==> Walk(ram, cr3, q) == Walk(kernel, cr3, q)
    {
      assert Walk(none, cr3, q) == None;
      assert Walk(kernel, cr3, q) == Walk(kernel, cr3, q);
    }
    assert !InWindow(FRAMEBUFFER) && !InWindow(FRAMEBUFFER - 1);
    assert Walk(ram, cr3, FRAMEBUFFER).Some?;
    assert Walk(ram, cr3, FRAMEBUFFER - 1).Some? <==> FRAMEBUFFER - 1 < kernelPages;
    forall q | IsPage(q) && q < kernelPages ensures !InWindow(q) {}
  }

  lemma EmptyDirectory(p: Paging, memory: Ram)
    requires ValidRam(memory) && p.cr3 in memory && 0 < p.cr3 < PAGES && p.ram == memory[p.cr3 := seq(ENTRIES, _ => 0)]
    requires forall f :: f in p.pool ==> f in memory && 0 < f < PAGES && f != p.cr3
    requires p.held == {} && p.tlb == map[] && p.firstFree == 0
    ensures Building(p)
    ensures forall q {:trigger Walk(View(p), p.cr3, q)} :: IsPage(q) && !InWindow(q) ==> Walk(View(p), p.cr3, q) == None
  {
    EntryFields(p.cr3 * PAGE_SIZE, 0);
  }
}
