/** kernel/paging.cpp on the current address space: tables edited through their window, with the
    translation cache of the processor in between, and the hint that speeds up the search for free pages. */
module Paging {
  import opened PageTables
  import opened Wrappers
  import opened Intervals

  const ADDRESSES := 0x1_0000_0000

  /** VIRTUAL_USERSPACE_BEGIN. */
  const KERNEL_END := 0x4000_0000

  /** Every cached translation is the one a walk of the tables finds now. */
  ghost predicate Coherent(tlb: map<int, int>, ram: Ram, cr3: int)
    requires ValidRam(ram)
  {
    forall p :: p in tlb ==> IsPage(p) && Walk(ram, cr3, p) == Some(tlb[p])
  }

  /** No page that table `i` would map is cached. */
  ghost predicate NoneCached(tlb: map<int, int>, i: int) {
    forall p :: p in tlb ==> Pde(p) != i
  }

  /** While table `i` is being filled in, what is cached stays right. */
  lemma StillCoherent(tlb: map<int, int>, ram: Ram, cr3: int, i: int, f: int, w: int, was: seq<int>, now: seq<int>)
    requires Directory(ram, cr3) && 0 <= i < SELF && !HasTable(ram, cr3, i)
    requires f in ram && !UsedForTables(ram, cr3, f) && |was| == ENTRIES && |now| == ENTRIES
    requires NamesTable(w, f)
    requires Coherent(tlb, Poke(ram, cr3, i, w)[f := was], cr3) && NoneCached(tlb, i)
    ensures Coherent(tlb, Poke(ram, cr3, i, w)[f := now], cr3)
  {
    NameTable(ram, cr3, i, f, w, was);
    NameTable(ram, cr3, i, f, w, now);
    WindowWalk(Poke(ram, cr3, i, w)[f := was], cr3, i);
    WindowWalk(Poke(ram, cr3, i, w)[f := now], cr3, i);
  }

  /** Nothing the new table maps, nor its window page, was cached before it existed. */
  lemma FirstCoherent(tlb: map<int, int>, ram: Ram, cr3: int, i: int, f: int, w: int)
    requires Directory(ram, cr3) && 0 <= i < SELF && !HasTable(ram, cr3, i)
    requires f in ram && !UsedForTables(ram, cr3, f) && NamesTable(w, f)
    requires Coherent(tlb, ram, cr3)
    ensures NoneCached(tlb, i) && WindowPage(i) !in tlb
    ensures Coherent(tlb, Poke(ram, cr3, i, w)[f := ram[f]], cr3)
  {
    NameTable(ram, cr3, i, f, w, ram[f]);
    WindowWalk(ram, cr3, i);
    forall p | p in tlb ensures Pde(p) != i {
      assert Walk(ram, cr3, p) == Some(tlb[p]);
    }
  }

  /** All pages but those listed are translated alike. */
  ghost predicate SameBut(ram: Ram, ram': Ram, cr3: int, changed: set<int>)
    requires ValidRam(ram) && ValidRam(ram')
  {
    forall p {:trigger Walk(ram', cr3, p)} :: IsPage(p) && p !in changed ==> Walk(ram', cr3, p) == Walk(ram, cr3, p)
  }

  /** Nothing mapped is unmapped or remapped. */
  ghost predicate Kept(ram: Ram, ram': Ram, cr3: int)
    requires ValidRam(ram) && ValidRam(ram')
  {
    forall p {:trigger Walk(ram', cr3, p)} {:trigger Walk(ram, cr3, p)} ::
      IsPage(p) && Walk(ram, cr3, p).Some? ==> Walk(ram', cr3, p) == Walk(ram, cr3, p)
  }

  /** `n` unmapped pages from `page` on. */
  ghost predicate FreeRun(ram: Ram, cr3: int, page: int, n: int)
    requires ValidRam(ram)
  {
    0 <= page && page + n <= PAGES && forall p {:trigger Walk(ram, cr3, p)} :: page <= p < page + n ==>
      Walk(ram, cr3, p) == None
  }

  ghost predicate AllMapped(ram: Ram, cr3: int, lo: int, hi: int)
    requires ValidRam(ram)
  {
    forall p {:trigger Walk(ram, cr3, p)} :: lo <= p < hi ==> IsPage(p) && Walk(ram, cr3, p).Some?
  }

  /** None of these frames is a table. */
  ghost predicate NoTables(ram: Ram, cr3: int, frames: set<int>)
    requires ValidRam(ram) && cr3 in ram
  {
    forall f :: f in frames ==> f in ram && 0 < f < PAGES && !UsedForTables(ram, cr3, f)
  }

  /** Outside [lo, hi) and the window all pages are translated alike. */
  ghost predicate SameOutside(ram: Ram, ram': Ram, cr3: int, lo: int, hi: int)
    requires ValidRam(ram) && ValidRam(ram')
  {
    forall p {:trigger Walk(ram', cr3, p)} ::
      IsPage(p) && !(lo <= p < hi) && !InWindow(p) ==> Walk(ram', cr3, p) == Walk(ram, cr3, p)
  }

  lemma SameButOutside(ram: Ram, ram': Ram, cr3: int, page: int, changed: set<int>)
    requires ValidRam(ram) && ValidRam(ram') && SameBut(ram, ram', cr3, changed)
    requires forall c :: c in changed ==> c == page || InWindow(c)
    ensures SameOutside(ram, ram', cr3, page, page + 1)
  {
  }

  lemma OutsideExtends(a: Ram, b: Ram, c: Ram, cr3: int, lo: int, mid: int)
    requires ValidRam(a) && ValidRam(b) && ValidRam(c) && lo <= mid
    requires SameOutside(a, b, cr3, lo, mid) && SameOutside(b, c, cr3, mid, mid + 1)
    ensures SameOutside(a, c, cr3, lo, mid + 1)
  {
    forall p | IsPage(p) && !(lo <= p < mid + 1) && !InWindow(p) ensures Walk(c, cr3, p) == Walk(a, cr3, p) {
      assert Walk(b, cr3, p) == Walk(a, cr3, p);
    }
  }

  /** The run of pages maps the run of frames from `physical` on. */
  ghost predicate Laid(ram: Ram, cr3: int, page: int, pages: int, physical: int, flags: int)
    requires ValidRam(ram)
  {
    && (0 < pages ==> 0 <= page && page + pages <= PAGES)
    && forall p {:trigger Walk(ram, cr3, p)} :: page <= p < page + pages ==>
         Walk(ram, cr3, p) == Some(MakeEntry(physical + (p - page) * PAGE_SIZE, WithPresent(flags)))
  }

  lemma LaidExtends(ram: Ram, ram': Ram, cr3: int, page: int, n: int, physical: int, flags: int)
    requires ValidRam(ram) && ValidRam(ram') && 0 <= n && Kept(ram, ram', cr3)
    requires Laid(ram, cr3, page, n, physical, flags)
    requires IsPage(page + n)
      && Walk(ram', cr3, page + n) == Some(MakeEntry(physical + n * PAGE_SIZE, WithPresent(flags)))
    ensures Laid(ram', cr3, page, n + 1, physical, flags)
  {
    hide MakeEntry;
    forall p | page <= p < page + n
      ensures Walk(ram', cr3, p) == Some(MakeEntry(physical + (p - page) * PAGE_SIZE, WithPresent(flags)))
    {
      assert Walk(ram, cr3, p).Some?;
    }
  }

  /** The first `n` pages of a run have been mapped. */
  ghost predicate RunLaid(was: Ram, ram: Ram, cr3: int, first: int, n: int, physical: int, flags: int) {
    && ValidRam(was) && ValidRam(ram) && SameOutside(was, ram, cr3, first, first + n)
    && Laid(ram, cr3, first, n, physical, flags)
  }

  lemma NoneLaid(ram: Ram, cr3: int, first: int, physical: int, flags: int)
    requires ValidRam(ram)
    ensures RunLaid(ram, ram, cr3, first, 0, physical, flags)
  {
  }

  lemma RunExtends(was: Ram, a: Ram, b: Ram, cr3: int, first: int, n: int, physical: int, flags: int)
    requires RunLaid(was, a, cr3, first, n, physical, flags) && 0 <= n && ValidRam(b) && Kept(a, b, cr3)
    requires SameOutside(a, b, cr3, first + n, first + n + 1) && IsPage(first + n)
    requires Walk(b, cr3, first + n) == Some(MakeEntry(physical + n * PAGE_SIZE, WithPresent(flags)))
    ensures RunLaid(was, b, cr3, first, n + 1, physical, flags)
  {
    hide Walk, MakeEntry, WithPresent;
    OutsideExtends(was, a, b, cr3, first, first + n);
    LaidExtends(a, b, cr3, first, n, physical, flags);
  }

  lemma NextOfRun(was: Ram, ram: Ram, cr3: int, first: int, n: int, pages: int, physical: int, flags: int)
    requires RunLaid(was, ram, cr3, first, n, physical, flags) && FreeRun(was, cr3, first, pages) && 0 <= n < pages
    requires IsPage(first + n) && !InWindow(first + n)
    ensures Walk(ram, cr3, first + n) == None
  {
    hide Walk;
    assert Walk(was, cr3, first + n) == None;
  }

  // ----- the hint -----

  /** Every page below the hint is mapped. */
  ghost predicate Sound(ram: Ram, cr3: int, hint: int)
    requires ValidRam(ram)
  {
    forall p {:trigger Walk(ram, cr3, p)} :: IsPage(p) && p < hint ==> Walk(ram, cr3, p).Some?
  }

  /** If mapping `page` moves the hint, the hint's own page is mapped already. */
  ghost predicate MayMove(ram: Ram, cr3: int, hint: int, page: int)
    requires ValidRam(ram)
  {
    page == hint + 1 && IsPage(hint) ==> Walk(ram, cr3, hint).Some?
  }

  /** Mapping a page keeps the hint sound and lets the next page move it in turn. */
  lemma HintStep(ram: Ram, ram': Ram, cr3: int, hint: int, page: int)
    requires ValidRam(ram) && ValidRam(ram') && IsPage(page) && 0 <= hint
    requires Sound(ram, cr3, hint) && MayMove(ram, cr3, hint, page) && Kept(ram, ram', cr3)
    requires Walk(ram', cr3, page).Some?
    ensures var hint' := if page == hint + 1 then page else hint;
            Sound(ram', cr3, hint') && MayMove(ram', cr3, hint', page + 1)
  {
    var hint' := if page == hint + 1 then page else hint;
    forall p | IsPage(p) && p < hint' ensures Walk(ram', cr3, p).Some? {
      assert Walk(ram, cr3, p).Some?;
    }
  }

  lemma UnmapSound(ram: Ram, ram': Ram, cr3: int, hint: int, page: int)
    requires ValidRam(ram) && ValidRam(ram') && Sound(ram, cr3, hint) && SameBut(ram, ram', cr3, {page})
    ensures Sound(ram', cr3, if page < hint then page else hint)
  {
    forall p | IsPage(p) && p < hint && p < page ensures Walk(ram', cr3, p).Some? {
      assert Walk(ram, cr3, p).Some?;
    }
    forall p | IsPage(p) && p < hint && hint <= page ensures Walk(ram', cr3, p).Some? {
      assert Walk(ram, cr3, p).Some?;
    }
  }

  /** The words of these frames, which hold no table, are as they were. */
  ghost predicate HeldKept(ram: Ram, ram': Ram, held: set<int>) {
    forall f {:trigger f in held} :: f in held && f in ram ==> f in ram' && ram'[f] == ram[f]
  }

  /** What a zeroed table, made of a frame that was left, leaves alone. */
  lemma TableAdded(ram: Ram, r: Ram, cr3: int, i: int, f: int, w: int, pool: set<int>, held: set<int>)
    requires Directory(ram, cr3) && 0 <= i < SELF && !HasTable(ram, cr3, i) && NamesTable(w, f)
    requires f in ram && !UsedForTables(ram, cr3, f) && f !in pool && f !in held
    requires NoTables(ram, cr3, pool) && NoTables(ram, cr3, held)
    requires r == Poke(ram, cr3, i, w)[f := seq(ENTRIES, _ => 0)]
    ensures Directory(r, cr3) && HasTable(r, cr3, i) && Unrestricted(r[cr3][i])
    ensures SameBut(ram, r, cr3, {WindowPage(i)}) && HeldKept(ram, r, held)
    ensures NoTables(r, cr3, pool) && NoTables(r, cr3, held)
  {
    AddTable(ram, cr3, i, f, w);
    hide Walk, Directory, Has;
    assert cr3 !in held by { assert UsedForTables(ram, cr3, cr3); }
    forall g | g in pool || g in held ensures g in r && !UsedForTables(r, cr3, g) {
      FramesUsed(ram, cr3, i, f, w, g);
    }
  }

  class Paging {
    var ram: Ram
    const cr3: int
    var tlb: map<int, int>
    /** Address from which the search for free kernel pages starts. */
    var firstFree: int
    /** Frames the physical allocator can still hand out. */
    var pool: set<int>
    /** Frames handed out to back pages. */
    ghost var held: set<int>

    /** Before paging is on: a zeroed directory. */
    constructor (memory: Ram, directory: int, frames: set<int>)
      requires ValidRam(memory) && directory in memory && 0 < directory < PAGES
      ensures cr3 == directory && tlb == map[] && firstFree == 0 && pool == frames && held == {}
      ensures ram == memory[directory := seq(ENTRIES, _ => 0)]
    {
      cr3, tlb, firstFree, pool, held := directory, map[], 0, frames, {};
      ram := memory[directory := seq(ENTRIES, _ => 0)];
    }

    ghost predicate Valid()
      reads this
    {
      && Directory(ram, cr3)
      && Coherent(tlb, ram, cr3)
      && NoTables(ram, cr3, pool) && NoTables(ram, cr3, held) && pool !! held
      && 0 <= firstFree < ADDRESSES && firstFree % PAGE_SIZE == 0
    }

    ghost predicate Mapped(page: int)
      reads this`ram
      requires ValidRam(ram) && IsPage(page)
    {
      Walk(ram, cr3, page).Some?
    }

    /** Between calls the processor may cache any translation that is present. */
    method Fill(page: int)
      requires Valid() && IsPage(page)
      modifies this`tlb
      ensures Valid()
      ensures tlb == match Walk(ram, cr3, page) case Some(w) => old(tlb)[page := w] case None => old(tlb)
    {
      var w := Walk(ram, cr3, page);
      if w.Some? {
        tlb := tlb[page := w.value];
      }
    }

    /** A translation as the processor makes it: from its cache, or by a walk it then caches. */
    method Translate(page: int) returns (frame: int)
      requires Directory(ram, cr3) && IsPage(page) && Walk(ram, cr3, page).Some?
      requires page in tlb ==> Some(tlb[page]) == Walk(ram, cr3, page)
      modifies this`tlb
      ensures frame == FrameOf(Walk(ram, cr3, page).value)
      ensures tlb == old(tlb)[page := Walk(ram, cr3, page).value]
    {
      if page in tlb {
        frame := FrameOf(tlb[page]);
        assert tlb == tlb[page := tlb[page]];
      } else {
        var w := Walk(ram, cr3, page);
        tlb := tlb[page := w.value];
        frame := FrameOf(w.value);
      }
    }

    method Invlpg(address: int)
      modifies this`tlb
      ensures tlb == old(tlb) - {PageOfAddress(address)}
    {
      tlb := tlb - {PageOfAddress(address)};
    }

    /** Reads directory entry `i` through the window. */
    method LoadDirectory(i: int) returns (w: int)
      requires Valid() && 0 <= i < ENTRIES
      modifies this`tlb
      ensures Valid() && w == ram[cr3][i]
    {
      var a := DirectoryAddress(i);
      WindowWalk(ram, cr3, SELF);
      var frame := Translate(PageOfAddress(a));
      w := ram[frame][WordOfAddress(a)];
    }

    /** Writes directory entry `i` through the window: a frame of the pool becomes its table. */
    method StoreDirectory(i: int, w: int)
      requires Directory(ram, cr3) && Coherent(tlb, ram, cr3) && 0 <= i < SELF
      modifies this`tlb, this`ram
      ensures cr3 in old(ram) && ValidRam(old(ram)) && ram == Poke(old(ram), cr3, i, w)
      ensures WindowPage(SELF) in tlb && tlb == old(tlb)[WindowPage(SELF) := ram[cr3][SELF]]
    {
      var a := DirectoryAddress(i);
      WindowWalk(ram, cr3, SELF);
      var frame := Translate(PageOfAddress(a));
      ram := ram[frame := ram[frame][WordOfAddress(a) := w]];
    }

    /** Reads entry `j` of table `i` through the window, at the address `get` gives for it. */
    method LoadEntry(a: int, ghost i: int, ghost j: int) returns (w: int)
      requires Valid() && 0 <= i <= SELF && 0 <= j < ENTRIES && HasTable(ram, cr3, i)
      requires a == 0xffc00000 + 4 * (ENTRIES * i + j)
      modifies this`tlb
      ensures Valid() && TableOf(ram, cr3, i) in ram && w == ram[TableOf(ram, cr3, i)][j]
    {
      assert PageOfAddress(a) == WindowPage(i) && WordOfAddress(a) == j;
      WindowWalk(ram, cr3, i);
      var frame := Translate(PageOfAddress(a));
      w := ram[frame][WordOfAddress(a)];
    }

    /** Writes entry `j` of table `i` through the window. */
    method StoreEntry(a: int, w: int, ghost i: int, ghost j: int)
      requires a == 0xffc00000 + 4 * (ENTRIES * i + j)
      requires Directory(ram, cr3) && Coherent(tlb, ram, cr3)
      requires 0 <= i < SELF && 0 <= j < ENTRIES && HasTable(ram, cr3, i)
      modifies this`tlb, this`ram
      ensures ValidRam(old(ram)) && cr3 in old(ram) && old(TableOf(ram, cr3, i)) in old(ram)
      ensures ram == Poke(old(ram), old(TableOf(ram, cr3, i)), j, w)
      ensures tlb == old(tlb)[WindowPage(i) := Restricted(old(ram[cr3][SELF]), old(ram[cr3][i]))]
    {
      assert PageOfAddress(a) == WindowPage(i) && WordOfAddress(a) == j;
      WindowWalk(ram, cr3, i);
      var frame := Translate(PageOfAddress(a));
      ram := ram[frame := ram[frame][WordOfAddress(a) := w]];
    }

    /** Table::init through the window of the table just named. */
    method ZeroTable(i: int, ghost before: Ram, ghost f: int, ghost w: int)
      requires Directory(before, cr3) && 0 <= i < SELF && !HasTable(before, cr3, i)
      requires f in before && !UsedForTables(before, cr3, f) && NamesTable(w, f)
      requires ram == Poke(before, cr3, i, w)[f := before[f]] && Directory(ram, cr3)
      requires Coherent(tlb, ram, cr3) && NoneCached(tlb, i)
      modifies this`tlb, this`ram
      ensures ram == Poke(before, cr3, i, w)[f := seq(ENTRIES, _ => 0)]
      ensures Directory(ram, cr3) && Coherent(tlb, ram, cr3)
    {
      var j := 0;
      NameTable(before, cr3, i, f, w, before[f]);
      while j < ENTRIES
        invariant 0 <= j <= ENTRIES
        invariant f in ram && |ram[f]| == ENTRIES && ram == Poke(before, cr3, i, w)[f := ram[f]]
        invariant forall k :: 0 <= k < j ==> ram[f][k] == 0
        invariant Directory(ram, cr3) && HasTable(ram, cr3, i) && ram[cr3][i] == w
        invariant Coherent(tlb, ram, cr3) && NoneCached(tlb, i)
      {
        ghost var was := ram[f];
        WindowWalk(ram, cr3, i);
        WindowPages(i);
        hide Directory;
        StoreEntry(0xffc00000 + PAGE_SIZE * i + 4 * j, 0, i, j);
        NameTable(before, cr3, i, f, w, ram[f]);
        StillCoherent(tlb, before, cr3, i, f, w, was, ram[f]);
        j := j + 1;
      }
      assert ram[f] == seq(ENTRIES, _ => 0);
    }

    /** The branch of `get` that makes a table: a frame is taken, named in the directory and zeroed
        through its window. False is the panic when no frame is left. */
    method CreateTable(i: int) returns (ok: bool)
      requires Valid() && 0 <= i < SELF && !HasTable(ram, cr3, i)
      modifies this`tlb, this`ram, this`pool
      ensures Valid()
      ensures ok <==> old(pool) != {}
      ensures !ok ==> ram == old(ram) && pool == old(pool)
      ensures ok ==> HasTable(ram, cr3, i) && Unrestricted(ram[cr3][i]) && pool < old(pool)
                     && ValidRam(old(ram)) && SameBut(old(ram), ram, cr3, {WindowPage(i)})
      ensures HeldKept(old(ram), ram, held)
    {
      if pool == {} {
        return false;
      }
      hide Walk, MakeEntry, Has;
      NonEmpty(pool);
      var f :| f in pool;
      pool := pool - {f};
      var w := MakeEntry(f * PAGE_SIZE, WRITE + USER);
      TableEntry(f * PAGE_SIZE);
      ghost var before := ram;
      NameTable(before, cr3, i, f, w, before[f]);
      FirstCoherent(tlb, before, cr3, i, f, w);
      StoreDirectory(i, w);
      assert ram == Poke(before, cr3, i, w)[f := before[f]];
      Invlpg(0xffc00000 + PAGE_SIZE * i);
      ZeroTable(i, before, f, w);
      TableAdded(before, ram, cr3, i, f, w, pool, held);
      ok := true;
    }

    /** An address the kernel edits: any but those of the window itself. */
    ghost predicate Editable(address: int) {
      0 <= address < ADDRESSES && !InWindow(PageOfAddress(address))
    }

    /** Table::Entry::get: the address of the entry, None for an unaligned address or a missing table. */
    method Get(address: int, create: bool) returns (r: Result<Option<int>>)
      requires Valid() && 0 <= address < ADDRESSES
      modifies this`tlb, this`ram, this`pool
      ensures Valid() && ValidRam(old(ram)) && pool <= old(pool) && HeldKept(old(ram), ram, held)
      ensures r.Aborted? ==> create && ram == old(ram) && pool == {}
      ensures r.Ok? && r.value.None? ==>
                ram == old(ram) && (address % PAGE_SIZE != 0
                  || (!create && !HasTable(ram, cr3, Pde(PageOfAddress(address)))))
      ensures r.Ok? && r.value.Some? ==>
                var page := PageOfAddress(address);
                && address % PAGE_SIZE == 0 && r.value.value == EntryAddress(page) && HasTable(ram, cr3, Pde(page))
                && (old(HasTable(ram, cr3, Pde(page))) ==> ram == old(ram))
                && (!old(HasTable(ram, cr3, Pde(page))) ==>
                  create && SameBut(old(ram), ram, cr3, {WindowPage(Pde(page))}))
    {
      if address % PAGE_SIZE != 0 {
        return Ok(None);
      }
      var page := PageOfAddress(address);
      WindowArithmetic(page);
      var pde := LoadDirectory(Pde(page));
      if !IsPresent(pde) {
        if !create {
          return Ok(None);
        }
        var ok := CreateTable(Pde(page));
        if !ok {
          return Aborted;
        }
      }
      return Ok(Some(EntryAddress(page)));
    }

    /** modify: maps when `flags` is not zero, unmaps when it is. */
    method Modify(address: int, physical: int, flags: int) returns (r: Result<bool>)
      requires Valid() && Editable(address) && 0 <= physical && 0 <= flags < PAGE_SIZE
      modifies this`tlb, this`ram, this`pool, this`firstFree
      ensures Valid() && ValidRam(old(ram)) && pool <= old(pool) && HeldKept(old(ram), ram, held)
      ensures r.Aborted? ==> ram == old(ram) && firstFree == old(firstFree) && flags != 0 && pool == {}
      ensures r.Ok? && !r.value ==>
                ram == old(ram) && firstFree == old(firstFree)
                && (address % PAGE_SIZE != 0 || (Mapped(PageOfAddress(address)) <==> flags != 0))
      ensures r.Ok? && r.value && flags != 0 ==>
                var page := PageOfAddress(address);
                && address % PAGE_SIZE == 0 && old(Walk(ram, cr3, page)) == None
                && Walk(ram, cr3, page) == Some(MakeEntry(physical, flags))
                && SameBut(old(ram), ram, cr3,
                           if old(HasTable(ram, cr3, Pde(page))) then {page} else {page, WindowPage(Pde(page))})
                && Kept(old(ram), ram, cr3)
                && firstFree == if address == old(firstFree) + PAGE_SIZE then address else old(firstFree)
      ensures r.Ok? && r.value && flags == 0 ==>
                var page := PageOfAddress(address);
                && address % PAGE_SIZE == 0 && old(Mapped(page)) && !Mapped(page)
                && SameBut(old(ram), ram, cr3, {page})
                && firstFree == if address < old(firstFree) then address else old(firstFree)
    {
      NoTableNoPage(address);
      ghost var before := ram;
      NewWindowPage(address);
      var entry := Get(address, flags != 0);
      if entry.Aborted? {
        return Aborted;
      }
      if entry.value.None? {
        return Ok(false);
      }
      ghost var page := PageOfAddress(address);
      WindowArithmetic(page);
      WindowPages(Pde(page));
      assert !old(HasTable(ram, cr3, Pde(page))) ==> Walk(ram, cr3, page) == None;
      var pte := LoadEntry(entry.value.value, Pde(page), Pte(page));
      if IsPresent(pte) {
        if flags != 0 {
          return Ok(false);
        }
        SetEntry(entry.value.value, 0, address);
        if address < firstFree {
          firstFree := address;
        }
      } else {
        if flags == 0 {
          return Ok(false);
        }
        EntryFields(physical, flags);
        SetEntry(entry.value.value, MakeEntry(physical, flags), address);
        if address == firstFree + PAGE_SIZE {
          firstFree := firstFree + PAGE_SIZE;
        }
        assert Kept(before, ram, cr3);
      }
      return Ok(true);
    }

    lemma NewWindowPage(address: int)
      requires Valid() && Editable(address)
      ensures var i := Pde(PageOfAddress(address));
              IsPage(WindowPage(i)) && (!HasTable(ram, cr3, i) ==> !Mapped(WindowPage(i)))
    {
      WindowWalk(ram, cr3, Pde(PageOfAddress(address)));
    }

    lemma NoTableNoPage(address: int)
      requires Valid() && 0 <= address < ADDRESSES
      ensures !HasTable(ram, cr3, Pde(PageOfAddress(address))) ==> !Mapped(PageOfAddress(address))
    {
    }

    /** Writes the entry of the page at `address` and drops its cached translation. */
    method SetEntry(a: int, w: int, address: int)
      requires Valid() && Editable(address) && HasTable(ram, cr3, Pde(PageOfAddress(address)))
      requires a == EntryAddress(PageOfAddress(address))
      modifies this`tlb, this`ram
      ensures Valid() && ValidRam(old(ram)) && SameBut(old(ram), ram, cr3, {PageOfAddress(address)})
      ensures Walk(ram, cr3, PageOfAddress(address)) == if IsPresent(w) then Some(w) else None
      ensures HeldKept(old(ram), ram, held)
    {
      ghost var page := PageOfAddress(address);
      WindowArithmetic(page);
      WriteEntry(ram, cr3, page, w);
      WindowWalk(ram, cr3, Pde(page));
      WindowPages(Pde(page));
      ghost var before, cached := ram, tlb;
      StoreEntry(a, w, Pde(page), Pte(page));
      Invlpg(address);
      forall f | f in pool || f in held ensures !UsedForTables(ram, cr3, f) {
        SameDirectory(before, ram, cr3, f);
      }
    }

    /** isMapped, also for the pages of the window; false for an address that is not a page's. */
    method IsMapped(address: int) returns (r: bool)
      requires Valid() && 0 <= address < ADDRESSES
      modifies this`tlb
      ensures Valid() && r == (address % PAGE_SIZE == 0 && Mapped(PageOfAddress(address)))
    {
      var entry := GetExisting(address);
      NoTableNoPage(address);
      if entry.None? {
        return false;
      }
      ghost var page := PageOfAddress(address);
      WindowArithmetic(page);
      var pte := LoadEntry(entry.value, Pde(page), Pte(page));
      return IsPresent(pte);
    }

    /** `get` without `create`: it only reads. */
    method GetExisting(address: int) returns (r: Option<int>)
      requires Valid() && 0 <= address < ADDRESSES
      modifies this`tlb
      ensures Valid()
      ensures r == if address % PAGE_SIZE == 0 && HasTable(ram, cr3, Pde(PageOfAddress(address)))
                   then Some(EntryAddress(PageOfAddress(address))) else None
    {
      if address % PAGE_SIZE != 0 {
        return None;
      }
      var page := PageOfAddress(address);
      WindowArithmetic(page);
      var pde := LoadDirectory(Pde(page));
      return if IsPresent(pde) then Some(EntryAddress(page)) else None;
    }

    /** isMapped for a range: is any page of it mapped? None is found from an address that is not a page's. */
    method AnyMapped(address: int, pages: int) returns (r: bool)
      requires Valid() && 0 <= address && 0 <= pages && address + pages * PAGE_SIZE <= ADDRESSES
      modifies this`tlb
      ensures Valid()
      ensures r == (address % PAGE_SIZE == 0 && !FreeRun(ram, cr3, PageOfAddress(address), pages))
    {
      var page := 0;
      while page < pages
        invariant 0 <= page <= pages && Valid()
        invariant address % PAGE_SIZE == 0 ==> FreeRun(ram, cr3, PageOfAddress(address), page)
      {
        assert PageOfAddress(address + page * PAGE_SIZE) == PageOfAddress(address) + page;
        var mapped := IsMapped(address + page * PAGE_SIZE);
        if mapped {
          return true;
        }
        page := page + 1;
      }
      return false;
    }

    /** Whole pages below the window. */
    ghost predicate EditableRun(address: int, pages: int) {
      address % PAGE_SIZE == 0 && 0 <= address && 0 <= pages && address + pages * PAGE_SIZE <= WINDOW * PAGE_SIZE
    }

    /** findFree; a start of 0 stands for the hint. */
    method FindFree(pages: int, start: int, end: int) returns (r: Option<int>)
      requires Valid() && start % PAGE_SIZE == 0 && 0 <= start && 0 <= pages && end % PAGE_SIZE == 0
      requires pages * PAGE_SIZE <= end < ADDRESSES
      modifies this`tlb
      ensures Valid()
      ensures var first := PageOfAddress(if start == 0 then firstFree else start);
              var last := PageOfAddress(end) - pages;
              match r
              case Some(a) =>
                a % PAGE_SIZE == 0 && first <= PageOfAddress(a) <= last && FreeRun(ram, cr3, PageOfAddress(a), pages)
                && forall q :: first <= q < PageOfAddress(a) ==> !FreeRun(ram, cr3, q, pages)
              case None => forall q :: first <= q <= last ==> !FreeRun(ram, cr3, q, pages)
    {
      assert ValidRam(ram);
      hide FreeRun, Coherent, NoTables, Directory;
      var address := if start == 0 then firstFree else start;
      ghost var first := PageOfAddress(address);
      var limit := end - pages * PAGE_SIZE;
      while address <= limit
        invariant ValidRam(ram) && Valid()
        invariant address % PAGE_SIZE == 0 && first <= PageOfAddress(address) && 0 <= address
        invariant forall q :: first <= q < PageOfAddress(address) ==> !FreeRun(ram, cr3, q, pages)
        decreases limit - address
      {
        var mapped := AnyMapped(address, pages);
        if !mapped {
          return Some(address);
        }
        address := address + PAGE_SIZE;
      }
      return None;
    }

    function Hint(): int
      reads this`firstFree
    {
      firstFree / PAGE_SIZE
    }

    ghost predicate HintSound()
      reads this`ram, this`firstFree
      requires ValidRam(ram)
    {
      Sound(ram, cr3, Hint())
    }

    /** With a sound hint the search from the hint finds what a search from page 0 would. */
    lemma HintedIsFirstFit(pages: int, q: int)
      requires Valid() && HintSound() && 1 <= pages && 0 <= q < Hint()
      ensures !FreeRun(ram, cr3, q, pages)
    {
      if q < PAGES { FreeRunStart(q, pages); }
    }

    lemma FreeRunStart(q: int, pages: int)
      requires ValidRam(ram) && IsPage(q) && 1 <= pages && Mapped(q)
      ensures !FreeRun(ram, cr3, q, pages)
    {
    }

    /** First fit is what justifies moving the hint: the page before the run found is mapped. */
    lemma FirstFitMayMove(pages: int, page: int)
      requires Valid() && 1 <= pages && FreeRun(ram, cr3, page, pages)
      requires forall q :: Hint() <= q < page ==> !FreeRun(ram, cr3, q, pages)
      ensures MayMove(ram, cr3, Hint(), page)
    {
      if page == Hint() + 1 {
        assert !FreeRun(ram, cr3, Hint(), pages);
        if !Mapped(Hint()) {
          assert FreeRun(ram, cr3, Hint(), pages) by {
            forall p | Hint() <= p < Hint() + pages ensures !Mapped(p) {
              if p > Hint() { assert page <= p < page + pages; }
            }
          }
        }
      }
    }

    /** map for one page; nothing is done for an address that is not a page's. */
    method Map(address: int, physical: int, flags: int) returns (r: Result<bool>)
      requires Valid() && Editable(address) && 0 <= physical && 0 <= flags < PAGE_SIZE
      modifies this`tlb, this`ram, this`pool, this`firstFree
      ensures Valid() && ValidRam(old(ram)) && pool <= old(pool) && Kept(old(ram), ram, cr3)
      ensures HeldKept(old(ram), ram, held)
      ensures SameOutside(old(ram), ram, cr3, PageOfAddress(address), PageOfAddress(address) + 1)
      ensures IsPage(PageOfAddress(address))
      ensures r.Ok? && r.value ==>
                && address % PAGE_SIZE == 0
                && Walk(ram, cr3, PageOfAddress(address)) == Some(MakeEntry(physical, WithPresent(flags)))
                && old(Walk(ram, cr3, PageOfAddress(address))) == None
                && firstFree == if address == old(firstFree) + PAGE_SIZE then address else old(firstFree)
      ensures r.Ok? && !r.value ==> address % PAGE_SIZE != 0 || Mapped(PageOfAddress(address))
      ensures r.Aborted? ==> pool == {}
      ensures r.Aborted? || !r.value ==> ram == old(ram) && firstFree == old(firstFree)
    {
      ghost var page := PageOfAddress(address);
      WindowArithmetic(page);
      WindowPages(Pde(page));
      ghost var changed := if HasTable(ram, cr3, Pde(page)) then {page} else {page, WindowPage(Pde(page))};
      PresentFlags(flags);
      hide WithPresent, MakeEntry, Walk, Directory, Coherent, UsedForTables, HasTable;
      r := Modify(address, physical, WithPresent(flags));
      if r.Ok? && r.value {
        SameButOutside(old(ram), ram, cr3, page, changed);
      }
    }

    lemma PresentFlags(flags: int)
      requires 0 <= flags < PAGE_SIZE
      ensures 0 < WithPresent(flags) < PAGE_SIZE && IsPresent(WithPresent(flags))
    {
    }

    /** unmap for one page: the hint stays sound, falling back to the page when it was above it. Nothing is
        done for an address that is not a page's. */
    method Unmap(address: int) returns (ok: bool)
      requires Valid() && Editable(address)
      modifies this`tlb, this`ram, this`pool, this`firstFree
      ensures Valid() && ValidRam(old(ram)) && pool <= old(pool) && IsPage(PageOfAddress(address))
      ensures HeldKept(old(ram), ram, held)
      ensures SameBut(old(ram), ram, cr3, {PageOfAddress(address)})
      ensures ok == (address % PAGE_SIZE == 0 && old(Mapped(PageOfAddress(address))))
      ensures if address % PAGE_SIZE == 0 then !Mapped(PageOfAddress(address)) else ram == old(ram)
      ensures old(HintSound()) ==> HintSound()
    {
      WindowArithmetic(PageOfAddress(address));
      hide Walk, Directory, Coherent, UsedForTables, HasTable;
      ghost var page := PageOfAddress(address);
      ghost var hint := Hint();
      var r := Modify(address, 0, 0);
      ok := r.Ok? && r.value;
      if ok {
        assert Hint() == if page < hint then page else hint;
        if Sound(old(ram), cr3, hint) { UnmapSound(old(ram), ram, cr3, hint, page); }
      }
    }

    /** map for a run of pages: nothing is done when any of them is mapped. */
    method MapRun(address: int, physical: int, pages: int, flags: int) returns (r: Result<bool>)
      requires Valid() && EditableRun(address, pages) && 0 <= physical && 0 <= flags < PAGE_SIZE
      modifies this`tlb, this`ram, this`pool, this`firstFree
      ensures Valid() && ValidRam(old(ram)) && pool <= old(pool) && HeldKept(old(ram), ram, held)
      ensures r.Ok? ==> r.value == FreeRun(old(ram), cr3, PageOfAddress(address), pages)
      ensures r.Ok? && !r.value ==> ram == old(ram) && firstFree == old(firstFree)
      ensures r.Ok? && r.value ==> Laid(ram, cr3, PageOfAddress(address), pages, physical, flags)
      ensures r.Aborted? ==> pool == {}
      ensures SameOutside(old(ram), ram, cr3, PageOfAddress(address), PageOfAddress(address) + pages)
      ensures old(HintSound() && MayMove(ram, cr3, Hint(), PageOfAddress(address))) ==>
                HintSound() && (r.Ok? ==>
                  MayMove(ram, cr3, Hint(), PageOfAddress(address) + if r.value then pages else 0))
    {
      hide Walk, MakeEntry, WithPresent, Coherent, UsedForTables, HasTable, Kept, MayMove;
      NoneLaid(ram, cr3, PageOfAddress(address), physical, flags);
      var mapped := AnyMapped(address, pages);
      if mapped {
        return Ok(false);
      }
      ghost var first := PageOfAddress(address);
      ghost var sound := HintSound() && MayMove(ram, cr3, Hint(), first);
      var page := 0;
      while page < pages
        invariant 0 <= page <= pages && Valid() && pool <= old(pool) && HeldKept(old(ram), ram, held)
        invariant RunLaid(old(ram), ram, cr3, first, page, physical, flags)
        invariant sound ==> HintSound() && MayMove(ram, cr3, Hint(), first + page)
      {
        BelowWindow(address, pages, page);
        NextOfRun(old(ram), ram, cr3, first, page, pages, physical, flags);
        ghost var before, hint := ram, Hint();
        var done := Map(address + page * PAGE_SIZE, physical + page * PAGE_SIZE, flags);
        if done.Aborted? {
          return Aborted;
        }
        if !done.value {
          assert false;
        }
        RunExtends(old(ram), before, ram, cr3, first, page, physical, flags);
        if sound { HintStep(before, ram, cr3, hint, first + page); }
        page := page + 1;
      }
      return Ok(true);
    }

    lemma BelowWindow(address: int, pages: int, k: int)
      requires EditableRun(address, pages) && 0 <= k < pages
      ensures IsPage(PageOfAddress(address) + k) && !InWindow(PageOfAddress(address) + k)
      ensures PageOfAddress(address + k * PAGE_SIZE) == PageOfAddress(address) + k
      ensures Editable(address + k * PAGE_SIZE) && EditableRun(address + k * PAGE_SIZE, 1)
      ensures (address + k * PAGE_SIZE) % PAGE_SIZE == 0
    {
    }
  }

  lemma SameDirectory(ram: Ram, ram': Ram, cr3: int, f: int)
    requires ValidRam(ram) && ValidRam(ram') && cr3 in ram && cr3 in ram' && ram'[cr3] == ram[cr3]
    requires !UsedForTables(ram, cr3, f)
    ensures !UsedForTables(ram', cr3, f)
  {
    forall i | 0 <= i < ENTRIES && HasTable(ram', cr3, i) ensures TableOf(ram', cr3, i) != f {
      assert HasTable(ram, cr3, i);
    }
  }
}