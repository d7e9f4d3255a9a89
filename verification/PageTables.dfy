/** The two-level tables of 32-bit paging, Intel SDM Volume 3A, section 4.3, and the recursive entry
    through which the kernel edits them (kernel/paging.cpp, kernel/paging.hpp). Pages and frames are
    numbers; an entry is a 32-bit word whose low bit says present and whose top 20 bits are a frame. */
module PageTables {
  import opened Wrappers

  const PAGE_SIZE := 4096
  const ENTRIES := 1024
  const PAGES := 0x10_0000
  const PRESENT := 1
  const WRITE := 2
  const USER := 4

  /** The directory entry that names the directory itself, and the first page reached through it. */
  const SELF := 1023
  const WINDOW := 0xffc00

  /** Physical memory, frame by frame, as words. */
  type Ram = map<int, seq<int>>

  function WithPresent(flags: int): int {
    if flags % 2 == 1 then flags else flags + PRESENT
  }

  /** Entry(address, flags): the address keeps its frame, the flags gain PRESENT. */
  function MakeEntry(address: int, flags: int): int {
    address / PAGE_SIZE * PAGE_SIZE + WithPresent(flags)
  }

  predicate IsPresent(w: int) {
    w % 2 == 1
  }

  /** Whether a word has this flag, a power of two, set. */
  predicate Has(w: int, flag: int)
    requires 0 < flag
  {
    w / flag % 2 == 1
  }

  function FrameOf(w: int): int {
    w / PAGE_SIZE
  }

  function FlagsOf(w: int): int {
    w % PAGE_SIZE
  }

  /** The three low bits decide presence and rights. */
  lemma LowBits(w: int)
    ensures 0 <= w % 8 < 8 && (IsPresent(w) <==> w % 8 % 2 == 1)
    ensures (Has(w, WRITE) <==> w % 8 / 2 % 2 == 1) && (Has(w, USER) <==> w % 8 / 4 == 1)
  {
    assert w == 8 * (w / 8) + w % 8;
  }

  /** A word taken apart at bit 3, and at its frame. */
  lemma Eighths(q: int, b: int)
    requires 0 <= b < 8
    ensures (8 * q + b) / 8 == q && (8 * q + b) % 8 == b && (8 * q + b) / PAGE_SIZE == q / 512
  {
  }

  /** Taking rights away that the word has. */
  lemma LessRights(w: int, d: int)
    requires d == 0 || (d == WRITE && Has(w, WRITE)) || (d == USER && Has(w, USER))
             || (d == WRITE + USER && Has(w, WRITE) && Has(w, USER))
    ensures IsPresent(w - d) == IsPresent(w) && FrameOf(w - d) == FrameOf(w)
    ensures Has(w - d, WRITE) <==> Has(w, WRITE) && d != WRITE && d != WRITE + USER
    ensures Has(w - d, USER) <==> Has(w, USER) && d != USER && d != WRITE + USER
  {
    LowBits(w);
    LowBits(w - d);
    var q, b := w / 8, w % 8;
    Eighths(q, b);
    Eighths(q, b - d);
    assert w == 8 * q + b && w - d == 8 * q + (b - d);
    hide Has, IsPresent;
  }

  /** The flags of an entry hold its rights. */
  lemma FlagRights(w: int)
    ensures (Has(FlagsOf(w), USER) <==> Has(w, USER)) && (Has(FlagsOf(w), WRITE) <==> Has(w, WRITE))
  {
    LowBits(w);
    LowBits(FlagsOf(w));
    Eighths(w / 8, w % 8);
    Eighths(w / 8 - 512 * FrameOf(w), w % 8);
    assert FlagsOf(w) == w - PAGE_SIZE * FrameOf(w) == 8 * (w / 8 - 512 * FrameOf(w)) + w % 8;
    hide Has;
  }

  lemma PresentRight(flags: int)
    ensures Has(WithPresent(flags), USER) <==> Has(flags, USER)
    ensures Has(WithPresent(flags), WRITE) <==> Has(flags, WRITE)
  {
    LowBits(flags);
    LowBits(WithPresent(flags));
    assert flags == 8 * (flags / 8) + flags % 8;
    var k := flags % 8;
    if flags % 2 == 0 {
      assert k % 2 == 0 && WithPresent(flags) % 8 == k + 1;
    }
  }

  lemma EntryFields(address: int, flags: int)
    requires 0 <= address && 0 <= flags < PAGE_SIZE
    ensures var w := MakeEntry(address, flags);
            IsPresent(w) && FrameOf(w) == address / PAGE_SIZE && FlagsOf(w) == WithPresent(flags)
            && (Has(w, WRITE) <==> Has(flags, WRITE)) && (Has(w, USER) <==> Has(flags, USER))
  {
    FlagRights(MakeEntry(address, flags));
    PresentRight(flags);
    hide Has;
  }

  function Pde(page: int): int {
    page / ENTRIES
  }

  function Pte(page: int): int {
    page % ENTRIES
  }

  predicate ValidRam(ram: Ram) {
    forall f :: f in ram ==> |ram[f]| == ENTRIES
  }

  predicate IsPage(page: int) {
    0 <= page < PAGES
  }

  /** A directory entry that takes no right away. */
  predicate Unrestricted(w: int) {
    Has(w, WRITE) && Has(w, USER)
  }

  /** The rights of a page are those that both levels give, section 4.6 of the same chapter: the entry as it counts
      when it is reached through directory entry `pde`. */
  function Restricted(pde: int, pte: int): (w: int)
    ensures IsPresent(w) == IsPresent(pte) && FrameOf(w) == FrameOf(pte)
    ensures Has(w, WRITE) <==> Has(pte, WRITE) && Has(pde, WRITE)
    ensures Has(w, USER) <==> Has(pte, USER) && Has(pde, USER)
    ensures Unrestricted(pde) ==> w == pte
  {
    var write := if Has(pte, WRITE) && !Has(pde, WRITE) then WRITE else 0;
    var user := if Has(pte, USER) && !Has(pde, USER) then USER else 0;
    LessRights(pte, write + user);
    pte - (write + user)
  }

  /** The processor's walk: the entry that maps `page`, with the rights it has, if both levels are present. */
  function Walk(ram: Ram, cr3: int, page: int): Option<int>
    requires ValidRam(ram) && IsPage(page)
  {
    if cr3 !in ram then None
    else
      var pde := ram[cr3][Pde(page)];
      if !IsPresent(pde) || FrameOf(pde) !in ram then None
      else
        var pte := ram[FrameOf(pde)][Pte(page)];
        if IsPresent(pte) then Some(Restricted(pde, pte)) else None
  }

  /** The processor lets user mode read the page. */
  predicate UserMayRead(ram: Ram, cr3: int, page: int)
    requires ValidRam(ram)
  {
    IsPage(page) && Walk(ram, cr3, page).Some? && Has(Walk(ram, cr3, page).value, USER)
  }

  /** The processor lets user mode write the page. */
  predicate UserMayWrite(ram: Ram, cr3: int, page: int)
    requires ValidRam(ram)
  {
    UserMayRead(ram, cr3, page) && Has(Walk(ram, cr3, page).value, WRITE)
  }

  /** The frame `page` is translated to, -1 when it is not mapped. */
  function FrameAt(ram: Ram, cr3: int, page: int): int
    requires ValidRam(ram)
  {
    if IsPage(page) && Walk(ram, cr3, page).Some? then FrameOf(Walk(ram, cr3, page).value) else -1
  }

  /** The flags of its entry, -1 when it is not mapped. */
  function FlagsAt(ram: Ram, cr3: int, page: int): int
    requires ValidRam(ram)
  {
    if IsPage(page) && Walk(ram, cr3, page).Some? then FlagsOf(Walk(ram, cr3, page).value) else -1
  }

  predicate HasTable(ram: Ram, cr3: int, i: int)
    requires ValidRam(ram) && cr3 in ram && 0 <= i < ENTRIES
  {
    IsPresent(ram[cr3][i])
  }

  function TableOf(ram: Ram, cr3: int, i: int): int
    requires ValidRam(ram) && cr3 in ram && 0 <= i < ENTRIES
  {
    FrameOf(ram[cr3][i])
  }

  /** The word names frame `f` as a table that takes no right away. */
  predicate NamesTable(w: int, f: int) {
    IsPresent(w) && FrameOf(w) == f && Unrestricted(w)
  }

  /** The entry that all branches make for a new table. */
  lemma TableEntry(address: int)
    requires 0 <= address
    ensures NamesTable(MakeEntry(address, WRITE + USER), address / PAGE_SIZE)
  {
    EntryFields(address, WRITE + USER);
  }

  /** The directory names itself in its last entry, and otherwise different tables in different frames, with all
      rights. */
  ghost predicate Directory(ram: Ram, cr3: int) {
    && ValidRam(ram) && cr3 in ram
    && HasTable(ram, cr3, SELF) && TableOf(ram, cr3, SELF) == cr3
    && (forall i {:trigger HasTable(ram, cr3, i)} :: 0 <= i < SELF && HasTable(ram, cr3, i) ==>
          TableOf(ram, cr3, i) in ram && TableOf(ram, cr3, i) != cr3 && Unrestricted(ram[cr3][i]))
    && (forall i, j {:trigger HasTable(ram, cr3, i), HasTable(ram, cr3, j)} ::
          0 <= i < j < SELF && HasTable(ram, cr3, i) && HasTable(ram, cr3, j) ==>
          TableOf(ram, cr3, i) != TableOf(ram, cr3, j))
  }

  /** Frame `f` is the directory or one of its tables. */
  ghost predicate UsedForTables(ram: Ram, cr3: int, f: int)
    requires ValidRam(ram) && cr3 in ram
  {
    f == cr3 || exists i {:trigger HasTable(ram, cr3, i)} ::
      0 <= i < ENTRIES && HasTable(ram, cr3, i) && TableOf(ram, cr3, i) == f
  }

  // ----- the recursive window -----

  /** The page through which table `i` is edited. */
  function WindowPage(i: int): int {
    WINDOW + i
  }

  predicate InWindow(page: int) {
    Pde(page) == SELF
  }

  /** The virtual address `get` computes for the entry of `page`. */
  function EntryAddress(page: int): int {
    0xffc00000 + 4 * (ENTRIES * Pde(page) + Pte(page))
  }

  /** The virtual address of directory entry `i`. */
  function DirectoryAddress(i: int): int {
    0xfffff000 + 4 * i
  }

  function PageOfAddress(address: int): int {
    address / PAGE_SIZE
  }

  function WordOfAddress(address: int): int {
    address % PAGE_SIZE / 4
  }

  lemma WindowArithmetic(page: int)
    requires IsPage(page)
    ensures 0 <= Pde(page) < ENTRIES && 0 <= Pte(page) < ENTRIES && page == ENTRIES * Pde(page) + Pte(page)
    ensures PageOfAddress(EntryAddress(page)) == WindowPage(Pde(page)) && WordOfAddress(EntryAddress(page)) == Pte(page)
    ensures PageOfAddress(DirectoryAddress(Pde(page))) == WindowPage(SELF)
    ensures WordOfAddress(DirectoryAddress(Pde(page))) == Pde(page)
  {
  }

  lemma WindowPages(i: int)
    requires 0 <= i < ENTRIES
    ensures IsPage(WindowPage(i)) && Pde(WindowPage(i)) == SELF && Pte(WindowPage(i)) == i
  {
  }

  /** Walking a window page goes through the directory twice and ends at the table itself. */
  lemma WindowWalk(ram: Ram, cr3: int, i: int)
    requires Directory(ram, cr3) && 0 <= i < ENTRIES
    ensures IsPage(WindowPage(i))
    ensures Walk(ram, cr3, WindowPage(i)) ==
            if HasTable(ram, cr3, i) then Some(Restricted(ram[cr3][SELF], ram[cr3][i])) else None
  {
    WindowPages(i);
  }

  /** The word at the address `get` computes is the entry the processor's walk of `page` ends with. */
  lemma EntryAddressIsEntry(ram: Ram, cr3: int, page: int)
    requires Directory(ram, cr3) && IsPage(page) && HasTable(ram, cr3, Pde(page)) && !InWindow(page)
    ensures var a := EntryAddress(page);
            && IsPage(PageOfAddress(a)) && 0 <= WordOfAddress(a) < ENTRIES
            && Walk(ram, cr3, PageOfAddress(a)).Some?
            && FrameOf(Walk(ram, cr3, PageOfAddress(a)).value) in ram
            && var w := ram[FrameOf(Walk(ram, cr3, PageOfAddress(a)).value)][WordOfAddress(a)];
               Walk(ram, cr3, page) == if IsPresent(w) then Some(w) else None
  {
    WindowArithmetic(page);
    WindowWalk(ram, cr3, Pde(page));
  }

  // ----- editing -----

  function Poke(ram: Ram, f: int, i: int, w: int): Ram
    requires ValidRam(ram) && f in ram && 0 <= i < ENTRIES
  {
    ram[f := ram[f][i := w]]
  }

  /** Writing the entry of `page` changes the translation of `page` and of no other page. */
  lemma WriteEntry(ram: Ram, cr3: int, page: int, w: int)
    requires Directory(ram, cr3) && IsPage(page) && !InWindow(page) && HasTable(ram, cr3, Pde(page))
    ensures var r := Poke(ram, TableOf(ram, cr3, Pde(page)), Pte(page), w);
            && Directory(r, cr3) && r[cr3] == ram[cr3]
            && Walk(r, cr3, page) == (if IsPresent(w) then Some(w) else None)
            && forall p :: IsPage(p) && p != page ==> Walk(r, cr3, p) == Walk(ram, cr3, p)
  {
    var t := TableOf(ram, cr3, Pde(page));
    var r := Poke(ram, t, Pte(page), w);
    assert t in ram && t != cr3;
    assert forall i :: 0 <= i < ENTRIES ==> (HasTable(r, cr3, i) <==> HasTable(ram, cr3, i));
    forall p | IsPage(p) && p != page ensures Walk(r, cr3, p) == Walk(ram, cr3, p) {
      if HasTable(ram, cr3, Pde(p)) && Pde(p) != Pde(page) && Pde(p) != SELF {
        assert TableOf(ram, cr3, Pde(p)) != t;
      }
      if Pde(p) == Pde(page) {
        assert Pte(p) != Pte(page);
      }
    }
  }

  /** Whatever frame `f` holds, naming it as table `i` disturbs only the pages that table maps and its window page. */
  lemma NameTable(ram: Ram, cr3: int, i: int, f: int, w: int, contents: seq<int>)
    requires Directory(ram, cr3) && 0 <= i < SELF && !HasTable(ram, cr3, i)
    requires f in ram && !UsedForTables(ram, cr3, f) && |contents| == ENTRIES
    requires NamesTable(w, f)
    ensures var r := Poke(ram, cr3, i, w)[f := contents];
            && Directory(r, cr3) && HasTable(r, cr3, i) && r[cr3][i] == w && f != cr3 && r[cr3] == ram[cr3][i := w]
            && forall p :: IsPage(p) && Pde(p) != i && p != WindowPage(i) ==> Walk(r, cr3, p) == Walk(ram, cr3, p)
  {
    var r := Poke(ram, cr3, i, w)[f := contents];
    WindowPages(i);
    forall j | 0 <= j < ENTRIES && j != i
      ensures HasTable(r, cr3, j) <==> HasTable(ram, cr3, j)
      ensures HasTable(ram, cr3, j) ==> TableOf(ram, cr3, j) != f
    {
    }
    forall p | IsPage(p) && Pde(p) != i && p != WindowPage(i) ensures Walk(r, cr3, p) == Walk(ram, cr3, p) {
      if Pde(p) == SELF {
        assert Pte(p) != i;
      } else {
        assert HasTable(r, cr3, Pde(p)) <==> HasTable(ram, cr3, Pde(p));
      }
    }
  }

  /** Naming a zeroed frame as table `i` maps its window page and changes no other translation. */
  lemma AddTable(ram: Ram, cr3: int, i: int, f: int, w: int)
    requires Directory(ram, cr3) && 0 <= i < SELF && !HasTable(ram, cr3, i)
    requires f in ram && !UsedForTables(ram, cr3, f)
    requires NamesTable(w, f)
    ensures var r := Poke(ram, cr3, i, w)[f := seq(ENTRIES, _ => 0)];
            && Directory(r, cr3) && HasTable(r, cr3, i) && r[cr3] == ram[cr3][i := w]
            && IsPage(WindowPage(i)) && Walk(r, cr3, WindowPage(i)) == Some(Restricted(ram[cr3][SELF], w))
            && forall p :: IsPage(p) && p != WindowPage(i) ==> Walk(r, cr3, p) == Walk(ram, cr3, p)
  {
    var zeros := seq(ENTRIES, _ => 0);
    NameTable(ram, cr3, i, f, w, zeros);
    var r := Poke(ram, cr3, i, w)[f := zeros];
    WindowWalk(r, cr3, i);
    forall p | IsPage(p) && Pde(p) == i ensures Walk(r, cr3, p) == None {
      assert r[f][Pte(p)] == 0;
    }
  }

  /** Only the frame taken for it is newly used by a table. */
  lemma FramesUsed(ram: Ram, cr3: int, i: int, f: int, w: int, g: int)
    requires Directory(ram, cr3) && 0 <= i < SELF && !HasTable(ram, cr3, i)
    requires f in ram && !UsedForTables(ram, cr3, f) && NamesTable(w, f)
    requires !UsedForTables(ram, cr3, g) && g != f
    ensures !UsedForTables(Poke(ram, cr3, i, w)[f := seq(ENTRIES, _ => 0)], cr3, g)
  {
    NameTable(ram, cr3, i, f, w, seq(ENTRIES, _ => 0));
    var r := Poke(ram, cr3, i, w)[f := seq(ENTRIES, _ => 0)];
    forall j | 0 <= j < ENTRIES && HasTable(r, cr3, j) ensures TableOf(r, cr3, j) != g {
      if j != i { assert HasTable(ram, cr3, j); }
    }
  }
}
