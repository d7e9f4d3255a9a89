/** The load loop of newUserTask (kernel/scheduler.cpp): a segment's bytes are copied into the frames that
    back its pages, which need not be consecutive. */
module Loader {
  import opened PageTables
  import opened Paging
  import opened TaskSpace
  import opened TaskLedger
  import opened Wrappers

  function AlignDown(address: int): int {
    address / PAGE_SIZE * PAGE_SIZE
  }

  /** Pages for `bytes` bytes. */
  function PagesFor(bytes: int): int {
    (bytes + PAGE_SIZE - 1) / PAGE_SIZE
  }

  /** `virt - start` in 32 bits: where in the first page the copying starts. */
  function Padding(start: int): int {
    (AlignDown(start) - start) % ADDRESSES
  }

  /** The first byte is copied into the frames mapped for the segment exactly when the segment starts on a
      page boundary; otherwise the difference wraps round and the copy starts before them. */
  lemma PaddingInside(start: int, mem: int, pages: int)
    requires 0 <= start < ADDRESSES && PAGE_SIZE <= mem && 0 < pages && mem + pages * PAGE_SIZE <= ADDRESSES
    ensures mem <= (mem + Padding(start)) % ADDRESSES < mem + pages * PAGE_SIZE <==> Aligned(start)
  {
    if !Aligned(start) {
      assert Padding(start) == ADDRESSES - start % PAGE_SIZE;
      assert (mem + Padding(start)) % ADDRESSES == mem - start % PAGE_SIZE;
    }
  }

  /** What a segment must contain: its bytes of the file, then zeros. */
  function Image(file: seq<int>, size: int): (image: seq<int>)
    requires |file| <= size
    ensures |image| == size
    ensures forall i :: 0 <= i < size ==> image[i] == if i < |file| then file[i] else 0
  {
    file + seq(size - |file|, _ => 0)
  }

  function Bytes(s: Segment): int {
    s.pages * PAGE_SIZE
  }

  /** Bytes of the segments before segment `k`. */
  function Before(added: seq<Segment>, k: int): int
    requires 0 <= k <= |added|
  {
    if k == 0 then 0 else Before(added, k - 1) + Bytes(added[k - 1])
  }

  /** Each segment has pages, within the memory, and no two share a byte. */
  ghost predicate Placed(added: seq<Segment>, length: int) {
    && (forall k {:trigger added[k]} :: 0 <= k < |added| ==>
          added[k].pages > 0 && 0 <= added[k].physical && added[k].physical + Bytes(added[k]) <= length)
    && (forall k, l {:trigger added[k], added[l]} :: 0 <= k < l < |added| ==>
          added[k].physical + Bytes(added[k]) <= added[l].physical
            || added[l].physical + Bytes(added[l]) <= added[k].physical)
  }

  predicate InBytes(s: Segment, a: int) {
    s.physical <= a < s.physical + Bytes(s)
  }

  /** Bytes of the content from byte `before` on are in the segment, as far as it reaches. */
  ghost predicate Filled(memory: seq<int>, s: Segment, before: int, content: seq<int>) {
    forall a {:trigger memory[a]} :: 0 <= a < |memory| && InBytes(s, a) && a - s.physical + before < |content| ==>
      0 <= a - s.physical + before && memory[a] == content[a - s.physical + before]
  }

  /** Util::copy into memory. */
  method Copy(memory: array<int>, at: int, content: seq<int>, first: int, n: int)
    requires 0 <= at && 0 <= n && at + n <= memory.Length && 0 <= first && first + n <= |content|
    modifies memory
    ensures forall a :: 0 <= a < memory.Length ==>
              memory[a] == if at <= a < at + n then content[a - at + first] else old(memory[a])
  {
    var i := 0;
    while i < n
      invariant 0 <= i <= n
      invariant forall a :: 0 <= a < memory.Length ==>
                  memory[a] == if at <= a < at + i then content[a - at + first] else old(memory[a])
    {
      memory[at + i] := content[first + i];
      i := i + 1;
    }
  }

  lemma {:induction false} BeforeGrows(added: seq<Segment>, k: int, length: int)
    requires Placed(added, length) && 0 <= k <= |added|
    ensures 0 <= Before(added, k) && Before(added, k) + (|added| - k) * PAGE_SIZE <= Before(added, |added|)
    decreases |added| - k
  {
    BeforeNonNegative(added, k, length);
    if k < |added| { BeforeGrows(added, k + 1, length); }
  }

  lemma {:induction false} BeforeNonNegative(added: seq<Segment>, k: int, length: int)
    requires Placed(added, length) && 0 <= k <= |added|
    ensures 0 <= Before(added, k)
  {
    if k > 0 { BeforeNonNegative(added, k - 1, length); }
  }

  lemma {:induction false} BeforeMono(added: seq<Segment>, k: int, l: int, length: int)
    requires Placed(added, length) && 0 <= k <= l <= |added|
    ensures Before(added, k) <= Before(added, l)
    decreases l - k
  {
    if k < l { BeforeMono(added, k, l - 1, length); }
  }

  lemma BytesApart(added: seq<Segment>, length: int, k: int, i: int)
    requires Placed(added, length) && 0 <= k < |added| && 0 <= i < |added| && k != i
    ensures added[k].physical + Bytes(added[k]) <= added[i].physical
      || added[i].physical + Bytes(added[i]) <= added[k].physical
  {
  }

  /** What was copied into another segment leaves this one alone. */
  lemma OthersFilled(was: seq<int>, now: seq<int>, added: seq<Segment>, k: int, i: int, content: seq<int>)
    requires Placed(added, |was|) && |now| == |was| && 0 <= k < |added| && 0 <= i < |added| && k != i
    requires Filled(was, added[k], Before(added, k), content)
    requires forall a {:trigger now[a]} :: 0 <= a < |now| && !InBytes(added[i], a) ==> now[a] == was[a]
    ensures Filled(now, added[k], Before(added, k), content)
  {
    BytesApart(added, |was|, k, i);
    hide Placed;
    forall a | 0 <= a < |now| && InBytes(added[k], a) ensures now[a] == was[a] {
      assert !InBytes(added[i], a);
    }
  }

  lemma JustFilled(now: seq<int>, s: Segment, before: int, content: seq<int>, n: int)
    requires 0 <= before && 0 <= n && (before + n == |content| || n == Bytes(s))
    requires forall a {:trigger now[a]} :: 0 <= a < |now| && s.physical <= a < s.physical + n ==>
               0 <= a - s.physical + before < |content| && now[a] == content[a - s.physical + before]
    ensures Filled(now, s, before, content)
  {
    forall a | 0 <= a < |now| && InBytes(s, a) && a - s.physical + before < |content|
      ensures s.physical <= a < s.physical + n && now[a] == content[a - s.physical + before]
    {
      assert s.physical <= a < s.physical + n;
    }
  }

  lemma BeyondFilled(now: seq<int>, s: Segment, before: int, content: seq<int>)
    requires |content| <= before
    ensures Filled(now, s, before, content)
  {
    forall a | 0 <= a < |now| && InBytes(s, a) ensures a - s.physical + before >= |content| {
    }
  }

  /** Address `a` is in none of the first `n` segments. */
  ghost predicate Apart(added: seq<Segment>, n: int, a: int)
    requires 0 <= n <= |added|
  {
    forall k {:trigger added[k]} :: 0 <= k < n ==> !InBytes(added[k], a)
  }

  /** The first `n` segments are filled, and nothing else was written. */
  ghost predicate FilledTo(was: seq<int>, now: seq<int>, added: seq<Segment>, n: int, content: seq<int>) {
    && 0 <= n <= |added| && |now| == |was|
    && (forall k {:trigger added[k]} :: 0 <= k < n ==> Filled(now, added[k], Before(added, k), content))
    && (forall a {:trigger now[a]} :: 0 <= a < |now| && Apart(added, n, a) ==> now[a] == was[a])
  }

  lemma FilledNext(was: seq<int>, mid: seq<int>, now: seq<int>, added: seq<Segment>, i: int, content: seq<int>, n: int)
    requires FilledTo(was, mid, added, i, content) && Placed(added, |was|) && i < |added| && |now| == |mid|
    requires 0 <= Before(added, i) && 0 <= n <= Bytes(added[i])
             && (Before(added, i) + n == |content| || n == Bytes(added[i]))
    requires Before(added, i) + n <= |content|
    requires forall a {:trigger now[a]} :: 0 <= a < |now| ==>
               now[a] ==
               if added[i].physical <= a < added[i].physical + n
               then content[a - added[i].physical + Before(added, i)] else mid[a]
    ensures FilledTo(was, now, added, i + 1, content)
  {
    hide Filled, Placed, Before;
    JustFilled(now, added[i], Before(added, i), content, n);
    forall k | 0 <= k < i ensures Filled(now, added[k], Before(added, k), content) {
      OthersFilled(mid, now, added, k, i, content);
    }
    forall a | 0 <= a < |now| && Apart(added, i + 1, a) ensures now[a] == was[a] {
      assert !InBytes(added[i], a) && Apart(added, i, a);
    }
  }

  lemma AllFilled(was: seq<int>, now: seq<int>, added: seq<Segment>, i: int, content: seq<int>)
    requires FilledTo(was, now, added, i, content) && Placed(added, |was|) && |content| <= Before(added, i)
    ensures FilledTo(was, now, added, |added|, content)
  {
    hide Filled;
    forall k | i <= k < |added| ensures Filled(now, added[k], Before(added, k), content) {
      BeforeMono(added, i, k, |was|);
      BeyondFilled(now, added[k], Before(added, k), content);
    }
    forall a | 0 <= a < |now| && Apart(added, |added|, a) ensures now[a] == was[a] {
      assert Apart(added, i, a);
    }
  }

  /** The copy loop: it ends within the segments, fills each of them and writes nothing else. */
  method Fill(memory: array<int>, added: seq<Segment>, start: int, content: seq<int>)
    requires Aligned(start) && Placed(added, memory.Length) && |content| <= Before(added, |added|)
    modifies memory
    ensures FilledTo(old(memory[..]), memory[..], added, |added|, content)
  {
    hide FilledTo;
    var size, copied, padding := |content|, 0, Padding(start);
    assert padding == 0;
    assert FilledTo(memory[..], memory[..], added, 0, content) by { NothingFilled(memory[..], added, content); }
    var i := 0;
    while size > 0
      invariant 0 <= i <= |added| && padding == 0 && size == |content| - copied
      invariant copied == if Before(added, i) < |content| then Before(added, i) else |content|
      invariant FilledTo(old(memory[..]), memory[..], added, i, content)
    {
      BeforeGrows(added, i, memory.Length);
      var segment := added[i];
      var bytesToCopy := if segment.pages * PAGE_SIZE - padding < size then segment.pages * PAGE_SIZE - padding
        else size;
      ghost var mid := memory[..];
      Copy(memory, segment.physical + padding, content, copied, bytesToCopy);
      FilledNext(old(memory[..]), mid, memory[..], added, i, content, bytesToCopy);
      size := size - bytesToCopy;
      copied := copied + bytesToCopy;
      padding := 0;
      i := i + 1;
    }
    AllFilled(old(memory[..]), memory[..], added, i, content);
  }

  lemma NothingFilled(memory: seq<int>, added: seq<Segment>, content: seq<int>)
    ensures FilledTo(memory, memory, added, 0, content)
  {
  }

  // ----- what the task reads -----

  /** The address in physical memory that a task reaches at virtual address `v`. */
  function PhysicalAddress(ram: Ram, cr3: int, v: int): int
    requires ValidRam(ram)
  {
    FrameAt(ram, cr3, PageOfAddress(v)) * PAGE_SIZE + v % PAGE_SIZE
  }

  /** The task reads the content from virtual address `start` on. */
  ghost predicate Loaded(memory: seq<int>, ram: Ram, cr3: int, start: int, content: seq<int>)
    requires ValidRam(ram)
  {
    forall v {:trigger PhysicalAddress(ram, cr3, v)} :: start <= v < start + |content| ==>
      0 <= PhysicalAddress(ram, cr3, v) < |memory| && memory[PhysicalAddress(ram, cr3, v)] == content[v - start]
  }

  lemma {:induction false} SinglesBefore(added: seq<Segment>, virt: int, pages: int, k: int)
    requires Singles(added, virt, pages) && 0 <= k <= pages
    ensures Before(added, k) == k * PAGE_SIZE
  {
    if k > 0 { SinglesBefore(added, virt, pages, k - 1); }
  }

  lemma SpreadBytes(added: seq<Segment>, virt: int, pages: int)
    requires Spread(added, virt, pages)
    ensures Before(added, |added|) == pages * PAGE_SIZE
  {
    if Singles(added, virt, pages) {
      SinglesBefore(added, virt, pages, pages);
    } else {
      assert Before(added, 0) == 0;
    }
  }

  /** The segment that holds the page of address `v`, and the bytes before it. */
  lemma FindSegment(added: seq<Segment>, start: int, pages: int, v: int) returns (k: int)
    requires Spread(added, start, pages) && Aligned(start) && start <= v < start + pages * PAGE_SIZE
    ensures 0 <= k < |added| && added[k].virt == start + Before(added, k)
    ensures added[k].virt <= v < added[k].virt + Bytes(added[k]) && Aligned(added[k].virt)
  {
    if Singles(added, start, pages) {
      k := (v - start) / PAGE_SIZE;
      SinglesBefore(added, start, pages, k);
    } else {
      k := 0;
    }
  }

  /** Scattered or not, the frames that were filled are read in the order of the pages they back. */
  lemma FilledIsLoaded(was: seq<int>, memory: seq<int>, added: seq<Segment>, start: int, pages: int, ram: Ram,
                       cr3: int, content: seq<int>)
    requires FilledTo(was, memory, added, |added|, content) && Placed(added, |memory|)
    requires Aligned(start) && Spread(added, start, pages) && |content| <= pages * PAGE_SIZE && ValidRam(ram)
    requires forall k {:trigger added[k]} :: 0 <= k < |added| ==>
               Aligned(added[k].physical) && MappedPart(ram, cr3, added[k], 0, added[k].pages)
    ensures Loaded(memory, ram, cr3, start, content)
  {
    hide FrameAt, Before, Spread;
    forall v | start <= v < start + |content|
      ensures 0 <= PhysicalAddress(ram, cr3, v) < |memory| && memory[PhysicalAddress(ram, cr3, v)] == content[v - start]
    {
      var k := FindSegment(added, start, pages, v);
      BeforeNonNegative(added, k, |memory|);
      ReadByte(memory, added[k], Before(added, k), start, ram, cr3, content, v);
    }
  }

  lemma ReadByte(memory: seq<int>, s: Segment, before: int, start: int, ram: Ram, cr3: int, content: seq<int>, v: int)
    requires Filled(memory, s, before, content) && ValidRam(ram) && MappedPart(ram, cr3, s, 0, s.pages)
    requires Aligned(s.physical) && Aligned(s.virt) && 0 <= before && s.virt == start + before
    requires s.virt <= v < s.virt + Bytes(s)
    requires v - start < |content| && 0 <= s.physical && s.physical + Bytes(s) <= |memory|
    ensures 0 <= PhysicalAddress(ram, cr3, v) < |memory| && 0 <= v - start
    ensures memory[PhysicalAddress(ram, cr3, v)] == content[v - start]
  {
    hide FrameAt;
    var p, a := PageOfAddress(v), s.physical + (v - s.virt);
    assert PageOfAddress(s.virt) <= p < PageOfAddress(s.virt) + s.pages;
    assert FrameAt(ram, cr3, p) == FirstFrame(s) + (p - PageOfAddress(s.virt));
    assert PhysicalAddress(ram, cr3, v) == a;
    assert InBytes(s, a) && memory[a] == content[a - s.physical + before];
  }

  // ----- all segments of a program -----

  /** A loadable program header: where it goes, its bytes in the file and its size in memory. */
  datatype Load = Load(start: int, file: seq<int>, size: int, flags: int)

  /** On a page boundary, no shorter in memory than in the file, and below the window. */
  predicate Loadable(l: Load) {
    && Aligned(l.start) && 0 <= l.start && |l.file| <= l.size && LoadEnd(l) <= WINDOW * PAGE_SIZE
    && 0 <= l.flags < PAGE_SIZE - USER
  }

  function LoadEnd(l: Load): int {
    l.start + PagesFor(l.size) * PAGE_SIZE
  }

  /** User mode may read each of these pages, and write it if and only if the flags allow it. */
  ghost predicate UserPages(ram: Ram, cr3: int, page: int, pages: int, flags: int)
    requires ValidRam(ram)
  {
    forall p {:trigger FlagsAt(ram, cr3, p)} :: page <= p < page + pages ==>
      UserMayRead(ram, cr3, p) && (UserMayWrite(ram, cr3, p) <==> Has(flags, WRITE))
  }

  /** Pages with these flags and USER are open to user mode. */
  lemma FlagsOpen(ram: Ram, cr3: int, page: int, pages: int, flags: int)
    requires ValidRam(ram) && 0 <= flags && Flagged(ram, cr3, page, pages, WithUser(flags))
    ensures UserPages(ram, cr3, page, pages, flags)
  {
    forall p | page <= p < page + pages
      ensures UserMayRead(ram, cr3, p) && (UserMayWrite(ram, cr3, p) <==> Has(flags, WRITE))
    {
      assert FlagsAt(ram, cr3, p) == WithPresent(WithUser(flags));
      hide Walk;
      EntryRights(Walk(ram, cr3, p).value, flags);
    }
  }

  /** Neither PRESENT nor the frame has a say in the rights, and WithUser adds just the one. */
  lemma EntryRights(w: int, flags: int)
    requires 0 <= flags && FlagsOf(w) == WithPresent(WithUser(flags))
    ensures Has(w, USER) && (Has(w, WRITE) <==> Has(flags, WRITE))
  {
    UserRight(flags);
    PresentRight(WithUser(flags));
    FlagRights(w);
  }

  lemma UserRight(flags: int)
    ensures Has(WithUser(flags), USER) && (Has(WithUser(flags), WRITE) <==> Has(flags, WRITE))
  {
    LowBits(flags);
    LowBits(WithUser(flags));
    assert flags == 8 * (flags / 8) + flags % 8;
    assert WithUser(flags) % 8 == flags % 8 + if Has(flags, USER) then 0 else USER;
  }

  /** The task has these pages: they are mapped to frames of its own, with these flags and USER, which is what user
      mode gets. */
  ghost predicate HasPages(ram: Ram, owner: Owners, t: int, cr3: int, page: int, pages: int, flags: int) {
    && ValidRam(ram) && Flagged(ram, cr3, page, pages, WithUser(flags)) && UserPages(ram, cr3, page, pages, flags)
    && forall p {:trigger FrameAt(ram, cr3, p)} :: page <= p < page + pages ==>
         !InWindow(p) && Owned(owner, FrameAt(ram, cr3, p), t) && 0 < FrameAt(ram, cr3, p)
  }

  /** The task reads the segment's image, from pages it has. */
  ghost predicate HasLoaded(memory: seq<int>, ram: Ram, owner: Owners, t: int, cr3: int, l: Load) {
    && Aligned(l.start) && |l.file| <= l.size
    && HasPages(ram, owner, t, cr3, PageOfAddress(l.start), PagesFor(l.size), l.flags)
    && Loaded(memory, ram, cr3, l.start, Image(l.file, l.size))
  }

  /** That holds of the first `n` segments; one at address 0 would not be told from a table. */
  ghost predicate AllLoaded(memory: seq<int>, ram: Ram, owner: Owners, t: int, cr3: int, loads: seq<Load>, n: int) {
    0 <= n <= |loads| && ValidRam(ram)
    && forall k {:trigger loads[k]} :: 0 <= k < n && loads[k].start != 0 ==>
      HasLoaded(memory, ram, owner, t, cr3, loads[k])
  }

  /** The highest address at which one of the segments ends, 0 without any. */
  ghost predicate EndsAt(loads: seq<Load>, end: int) {
    && (forall k {:trigger loads[k]} :: 0 <= k < |loads| ==> LoadEnd(loads[k]) <= end)
    && (end == 0 || exists k {:trigger loads[k]} :: 0 <= k < |loads| && LoadEnd(loads[k]) == end)
  }

  /** The pages for so many bytes hold them, with less than a page to spare. */
  lemma PagesAreEnough(bytes: int)
    requires 0 <= bytes
    ensures bytes <= PagesFor(bytes) * PAGE_SIZE < bytes + PAGE_SIZE
  {
  }

  /** A page is covered exactly if a byte of the segment lies in it. */
  lemma CoversBytes(l: Load, p: int)
    requires Loadable(l)
    ensures Covers(l, p) <==> exists v :: l.start <= v < l.start + l.size && PageOfAddress(v) == p
  {
    if Covers(l, p) {
      var v := p * PAGE_SIZE;
      assert l.start <= v < l.start + l.size && PageOfAddress(v) == p;
    }
  }

  /** Where one segment ends. */
  lemma LoadEndIsTight(l: Load)
    requires Loadable(l)
    ensures LoadEnd(l) % PAGE_SIZE == 0 && l.start + l.size <= LoadEnd(l) < l.start + l.size + PAGE_SIZE
    ensures forall p {:trigger Covers(l, p)} :: Covers(l, p) ==> p < PageOfAddress(LoadEnd(l))
    ensures l.size != 0 ==> Covers(l, PageOfAddress(LoadEnd(l)) - 1)
  {
    PagesAreEnough(l.size);
    assert PageOfAddress(LoadEnd(l)) == PageOfAddress(l.start) + PagesFor(l.size);
  }

  /** No segment has a byte, or a page, from the end on; and the page before it is the last one of a segment, unless
      that is empty. */
  lemma EndIsTight(loads: seq<Load>, end: int)
    requires EndsAt(loads, end) && forall k :: 0 <= k < |loads| ==> Loadable(loads[k])
    ensures end % PAGE_SIZE == 0
    ensures forall k {:trigger loads[k]} :: 0 <= k < |loads| ==> loads[k].start + loads[k].size <= end
    ensures forall k, p {:trigger Covers(loads[k], p)} :: 0 <= k < |loads| && Covers(loads[k], p) ==>
              p < PageOfAddress(end)
    ensures end != 0 ==> exists k {:trigger loads[k]} ::
              && 0 <= k < |loads| && end < loads[k].start + loads[k].size + PAGE_SIZE
              && (loads[k].size != 0 ==> Covers(loads[k], PageOfAddress(end) - 1))
  {
    hide Covers, LoadEnd;
    forall k | 0 <= k < |loads|
      ensures loads[k].start + loads[k].size <= end
      ensures forall p {:trigger Covers(loads[k], p)} :: Covers(loads[k], p) ==> p < PageOfAddress(end)
    {
      LoadEndIsTight(loads[k]);
    }
    if end != 0 {
      var k :| 0 <= k < |loads| && LoadEnd(loads[k]) == end;
      LoadEndIsTight(loads[k]);
    }
  }

  lemma NoEnd()
    ensures EndsAt([], 0)
  {
  }

  lemma EndMoves(loads: seq<Load>, i: int, end: int)
    requires 0 <= i < |loads| && 0 <= end && EndsAt(loads[..i], end)
    ensures EndsAt(loads[..i + 1], if LoadEnd(loads[i]) > end then LoadEnd(loads[i]) else end)
  {
    assert loads[..i + 1][i] == loads[i];
    assert forall k :: 0 <= k < i ==> loads[..i + 1][k] == loads[..i][k];
  }

  /** The first `n` segments lie above the kernel's part of the address space. */
  predicate Above(loads: seq<Load>, n: int) {
    0 <= n <= |loads| && forall k {:trigger loads[k]} :: 0 <= k < n ==> KERNEL_END <= loads[k].start
  }

  predicate Covers(l: Load, p: int) {
    PageOfAddress(l.start) <= p < PageOfAddress(l.start) + PagesFor(l.size)
  }

  /** The segments lie apart, in pages of the user's part that are not the stack's. */
  ghost predicate Compatible(loads: seq<Load>, stack: int, pages: int) {
    && (forall k, p {:trigger Covers(loads[k], p)} :: 0 <= k < |loads| && Covers(loads[k], p) ==>
          KERNEL_TABLES <= Pde(p) && !(stack <= p < stack + pages))
    && (forall k, l, p {:trigger Covers(loads[k], p), Covers(loads[l], p)} ::
          0 <= k < l < |loads| && Covers(loads[k], p) ==> !Covers(loads[l], p))
  }

  ghost predicate InFirst(loads: seq<Load>, n: int, p: int)
    requires 0 <= n <= |loads|
  {
    exists k {:trigger Covers(loads[k], p)} :: 0 <= k < n && Covers(loads[k], p)
  }

  /** A page of the user's part that neither the stack nor one of the first `n` segments covers. */
  ghost predicate Elsewhere(loads: seq<Load>, n: int, stack: int, pages: int, p: int)
    requires 0 <= n <= |loads|
  {
    && IsPage(p) && !InWindow(p) && KERNEL_TABLES <= Pde(p)
    && !(stack <= p < stack + pages) && !InFirst(loads, n, p)
  }

  /** In the user's part none but the stack and the first `n` segments are mapped. */
  ghost predicate LoadedOnly(ram: Ram, cr3: int, loads: seq<Load>, n: int, stack: int, pages: int) {
    && ValidRam(ram) && 0 <= n <= |loads|
    && forall p {:trigger Walk(ram, cr3, p)} :: Elsewhere(loads, n, stack, pages, p) ==> Walk(ram, cr3, p) == None
  }

  lemma OnlyStack(ram: Ram, cr3: int, loads: seq<Load>, stack: int, pages: int)
    requires UserOnly(ram, cr3, stack, pages)
    ensures LoadedOnly(ram, cr3, loads, 0, stack, pages)
  {
    hide Walk;
  }

  /** The pages of the next segment are free. */
  lemma NextIsFree(ram: Ram, cr3: int, loads: seq<Load>, i: int, stack: int, pages: int)
    requires LoadedOnly(ram, cr3, loads, i, stack, pages) && i < |loads| && Loadable(loads[i])
    ensures Compatible(loads, stack, pages) ==>
              FreeRun(ram, cr3, PageOfAddress(loads[i].start), PagesFor(loads[i].size))
  {
    hide Walk;
    if Compatible(loads, stack, pages) {
      var first, n := PageOfAddress(loads[i].start), PagesFor(loads[i].size);
      assert 0 <= first && first + n <= WINDOW;
      forall p | first <= p < first + n ensures IsPage(p) && Walk(ram, cr3, p) == None {
        assert Covers(loads[i], p) && !InFirst(loads, i, p);
        assert Elsewhere(loads, i, stack, pages, p);
      }
    }
  }

  lemma NextIsLoaded(a: Ram, b: Ram, cr3: int, loads: seq<Load>, i: int, stack: int, pages: int)
    requires LoadedOnly(a, cr3, loads, i, stack, pages) && i < |loads|
    requires TranslatedOnly(a, b, cr3, PageOfAddress(loads[i].start), PagesFor(loads[i].size))
    ensures LoadedOnly(b, cr3, loads, i + 1, stack, pages)
  {
    hide Walk;
    forall p | Elsewhere(loads, i + 1, stack, pages, p) ensures Walk(b, cr3, p) == None {
      assert !Covers(loads[i], p) && Elsewhere(loads, i, stack, pages, p);
      assert Walk(b, cr3, p) == Walk(a, cr3, p);
    }
  }

  /** The bytes of memory and the words of its page tables, the holder of each frame, and the slots of the task
      table. */
  datatype World = World(bytes: seq<int>, ram: Ram, owner: Owners, tasks: seq<UserTask>)

  /** `pages` pages at `address`, mapped with these flags. */
  datatype Stack = Stack(address: int, pages: int, flags: int)

  /** Task `t` has the stack, in pages of its own. */
  ghost predicate HasStack(w: World, t: int, stack: Stack)
    requires 0 <= t < |w.tasks|
  {
    HasPages(w.ram, w.owner, t, w.tasks[t].cr3, PageOfAddress(stack.address), stack.pages, stack.flags)
  }

  /** Only slot `t` changed, and what the task itself and the others had mapped is translated as before;
      nobody lost a frame, and the bytes of the frames held before are as they were. */
  ghost predicate Advanced(w: World, w': World, t: int, cr3: int) {
    && 0 <= t < |w'.tasks| && OnlyTask(w.tasks, w'.tasks, t) && w'.tasks[t].cr3 == cr3
    && OthersKeep(w.ram, w'.ram, w.tasks, t) && KeptBelow(w.ram, w'.ram, cr3) && Grows(w.owner, w'.owner, t)
    && BytesKept(w.bytes, w'.bytes, w.owner)
  }

  /** One turn of the load loop: the end may move, and the segment's pages are mapped. */
  lemma OneAdvance(w: World, w': World, t: int, end: int, page: int, pages: int)
    requires 0 <= t < |w.tasks| && OnlyTask(w.tasks[t := w.tasks[t].(end := end)], w'.tasks, t)
    requires OthersKeep(w.ram, w'.ram, w.tasks[t := w.tasks[t].(end := end)], t)
    requires w'.tasks[t].cr3 == w.tasks[t].cr3
    requires Grows(w.owner, w'.owner, t) && BytesKept(w.bytes, w'.bytes, w.owner)
    requires TranslatedOnly(w.ram, w'.ram, w.tasks[t].cr3, page, pages)
    ensures Advanced(w, w', t, w.tasks[t].cr3)
    ensures KERNEL_TABLES <= Pde(page) ==> KernelEntries(w.ram, w'.ram, w.tasks[t].cr3, w.tasks[t].cr3)
  {
    var a, b, tasks := w.ram, w'.ram, w.tasks;
    var cr3, was := tasks[t].cr3, tasks[t := tasks[t].(end := end)];
    assert KernelEntries(a, a, cr3, cr3);
    if KERNEL_TABLES <= Pde(page) { EntriesStay(a, a, b, cr3, cr3, page, pages); }
    OthersReflexive(a, tasks, t);
    hide Walk, TranslatedOnly, BytesKept, Grows, KernelEntries, KeptSpace;
    assert forall u :: 0 <= u < |tasks| && u != t ==> was[u] == tasks[u];
    assert ValidRam(a) && ValidRam(b) && KeptBelow(a, b, cr3) by { TranslatedKeeps(a, b, cr3, page, pages); }
  }

  lemma TranslatedKeeps(a: Ram, b: Ram, cr3: int, page: int, pages: int)
    requires TranslatedOnly(a, b, cr3, page, pages)
    ensures ValidRam(a) && ValidRam(b) && KeptBelow(a, b, cr3)
  {
    hide Walk;
  }

  lemma AdvancedThen(a: World, b: World, c: World, t: int, cr3: int)
    requires Advanced(a, b, t, cr3) && Advanced(b, c, t, cr3)
    ensures Advanced(a, c, t, cr3)
  {
    assert SlotsKept(a.tasks, b.tasks, t) && OnlyTask(a.tasks, c.tasks, t);
    BytesThen(a.bytes, b.bytes, c.bytes, a.owner, b.owner, t);
    GrowsThen(a.owner, b.owner, c.owner, t);
    hide Walk, Grows, BytesKept;
    forall p | IsPage(p) && !InWindow(p) && Walk(a.ram, cr3, p).Some? ensures Walk(c.ram, cr3, p) == Walk(a.ram, cr3, p)
    {
      assert Walk(b.ram, cr3, p) == Walk(a.ram, cr3, p);
    }
    hide OthersKeep;
    KeepsThen(a.ram, b.ram, c.ram, a.tasks, b.tasks, t);
  }

  lemma AdvancedHas(w: World, w': World, t: int, cr3: int)
    requires Advanced(w, w', t, cr3)
    ensures 0 <= t < |w'.tasks| && w'.tasks[t].cr3 == cr3
  {
  }

  lemma AboveThen(a: Ram, b: Ram, c: Ram, cr3: int, loads: seq<Load>, i: int)
    requires 0 <= i < |loads|
    requires Above(loads, i) ==> KernelEntries(a, b, cr3, cr3)
    requires KERNEL_END <= loads[i].start ==> KernelEntries(b, c, cr3, cr3)
    ensures Above(loads, i + 1) ==> KernelEntries(a, c, cr3, cr3)
  {
    hide KernelEntries;
    if Above(loads, i + 1) {
      assert KERNEL_END <= loads[i].start;
      EntriesChain(a, b, c, cr3, cr3);
    }
  }

  lemma NothingLoaded(w: World, live: set<int>, size: int, t: int, loads: seq<Load>)
    requires GoodBut(w.ram, w.owner, w.tasks, live, size, t, -1)
    ensures AllLoaded(w.bytes, w.ram, w.owner, t, w.tasks[t].cr3, loads, 0)
    ensures Advanced(w, w, t, w.tasks[t].cr3)
    ensures KernelEntries(w.ram, w.ram, w.tasks[t].cr3, w.tasks[t].cr3)
  {
    TaskHolds(w.ram, w.owner, t, w.tasks[t], -1);
  }

  /** The load loop of task `t`, which started in `w0`, before turn `i`. */
  ghost predicate Loading(w0: World, w: World, t: int, cr3: int, loads: seq<Load>, i: int, stack: Stack) {
    && 0 <= i <= |loads| && Advanced(w0, w, t, cr3) && AllLoaded(w.bytes, w.ram, w.owner, t, cr3, loads, i)
    && 0 <= w.tasks[t].end && EndsAt(loads[..i], w.tasks[t].end)
    && (Above(loads, i) ==> KernelEntries(w0.ram, w.ram, cr3, cr3))
    && LoadedOnly(w.ram, cr3, loads, i, PageOfAddress(stack.address), stack.pages)
  }

  lemma LoadingNext(w0: World, a: World, b: World, t: int, cr3: int, loads: seq<Load>, i: int, stack: Stack)
    requires Loading(w0, a, t, cr3, loads, i, stack) && i < |loads| && Advanced(a, b, t, cr3)
    requires AllLoaded(b.bytes, b.ram, b.owner, t, cr3, loads, i + 1)
    requires 0 <= b.tasks[t].end && EndsAt(loads[..i + 1], b.tasks[t].end)
    requires KERNEL_END <= loads[i].start ==> KernelEntries(a.ram, b.ram, cr3, cr3)
    requires TranslatedOnly(a.ram, b.ram, cr3, PageOfAddress(loads[i].start), PagesFor(loads[i].size))
    ensures Loading(w0, b, t, cr3, loads, i + 1, stack)
  {
    hide Advanced, AllLoaded, EndsAt, Above, KernelEntries, LoadedOnly, TranslatedOnly;
    AdvancedThen(w0, a, b, t, cr3);
    AdvancedHas(w0, b, t, cr3);
    AboveThen(w0.ram, a.ram, b.ram, cr3, loads, i);
    NextIsLoaded(a.ram, b.ram, cr3, loads, i, PageOfAddress(stack.address), stack.pages);
  }

  /** What holds before a turn of the load loop, and at its end. */
  lemma LoadingFacts(w0: World, w: World, t: int, cr3: int, loads: seq<Load>, i: int, stack: Stack)
    requires Loading(w0, w, t, cr3, loads, i, stack)
    ensures 0 <= i <= |loads| && 0 <= t < |w.tasks| && w.tasks[t].cr3 == cr3 && Advanced(w0, w, t, cr3)
    ensures AllLoaded(w.bytes, w.ram, w.owner, t, cr3, loads, i)
    ensures 0 <= w.tasks[t].end && EndsAt(loads[..i], w.tasks[t].end)
    ensures Above(loads, i) ==> KernelEntries(w0.ram, w.ram, cr3, cr3)
    ensures i < |loads| && Loadable(loads[i]) && Compatible(loads, PageOfAddress(stack.address), stack.pages) ==>
              FreeRun(w.ram, cr3, PageOfAddress(loads[i].start), PagesFor(loads[i].size))
  {
    hide AllLoaded, EndsAt, Above, KernelEntries, Compatible, FreeRun, LoadedOnly;
    if i < |loads| && Loadable(loads[i]) {
      NextIsFree(w.ram, cr3, loads, i, PageOfAddress(stack.address), stack.pages);
    }
  }

  lemma BytesWiden(was: seq<int>, now: seq<int>, owner: Owners, owner': Owners, t: int)
    requires BytesKept(was, now, owner') && Grows(owner, owner', t)
    ensures BytesKept(was, now, owner)
  {
    forall a | 0 <= a < |now| && a / PAGE_SIZE in owner ensures now[a] == was[a] {
      assert a / PAGE_SIZE in owner';
    }
  }

  /** Slot `t`, the first that was not in use, holds a task with this stack, all segments loaded and its end where
      the last of them ends. Of the others no slot, no page and no byte changed, and nobody but the new task got a
      frame. */
  ghost predicate Created(w: World, w': World, t: int, loads: seq<Load>, stack: Stack) {
    && 0 < t < |w'.tasks| && w'.tasks[t].used && w'.tasks[t].live && FirstUnused(w.tasks, t)
    && EndsAt(loads, w'.tasks[t].end)
    && AllLoaded(w'.bytes, w'.ram, w'.owner, t, w'.tasks[t].cr3, loads, |loads|) && HasStack(w', t, stack)
    && SlotsKept(w.tasks, w'.tasks, t) && OthersKeep(w.ram, w'.ram, w.tasks, t) && Grows(w.owner, w'.owner, t)
    && BytesKept(w.bytes, w'.bytes, w.owner)
  }

  lemma CreatedFromLoaded(a: World, b: World, c: World, t: int, from: int, cr3: int, loads: seq<Load>, stack: Stack)
    requires Started(a.ram, a.owner, a.tasks, b.ram, b.owner, b.tasks, t, from)
    requires b.tasks[t].cr3 == cr3 && b.bytes == a.bytes && HasStack(b, t, stack)
    requires Advanced(b, c, t, cr3) && c.tasks[t].used && c.tasks[t].live
    requires EndsAt(loads, c.tasks[t].end) && AllLoaded(c.bytes, c.ram, c.owner, t, cr3, loads, |loads|)
    requires Above(loads, |loads|) ==> KernelEntries(b.ram, c.ram, cr3, cr3)
    ensures Created(a, c, t, loads, stack)
    ensures OthersKeep(a.ram, c.ram, a.tasks, t)
    ensures c.tasks[t].cr3 == cr3 && (Above(loads, |loads|) ==> KernelEntries(a.ram, c.ram, from, cr3))
  {
    SlotsThen(a.tasks, b.tasks, c.tasks, t);
    BytesWiden(a.bytes, c.bytes, a.owner, b.owner, t);
    PagesKeptBelow(b.ram, c.ram, b.owner, c.owner, t, cr3, PageOfAddress(stack.address), stack.pages, stack.flags);
    GrowsThen(a.owner, b.owner, c.owner, t);
    hide OthersKeep, KernelEntries, Above, EndsAt, AllLoaded, HasPages, Grows, BytesKept;
    KeepsThen(a.ram, b.ram, c.ram, a.tasks, b.tasks, t);
    if Above(loads, |loads|) { EntriesChain(a.ram, b.ram, c.ram, from, cr3); }
  }

  /** Giving the task its other stack is no step back. */
  lemma CreatedThen(a: World, b: World, c: World, t: int, loads: seq<Load>, stack: Stack, page: int, n: int)
    requires Created(a, b, t, loads, stack) && c.bytes == b.bytes
    requires OnlyTask(b.tasks, c.tasks, t) && c.tasks[t].cr3 == b.tasks[t].cr3 && c.tasks[t].end == b.tasks[t].end
    requires c.tasks[t].used && c.tasks[t].live && OthersKeep(b.ram, c.ram, b.tasks, t) && Grows(b.owner, c.owner, t)
    requires TranslatedOnly(b.ram, c.ram, b.tasks[t].cr3, page, n)
    ensures Created(a, c, t, loads, stack)
  {
    SlotsThen(a.tasks, b.tasks, c.tasks, t);
    GrowsThen(a.owner, b.owner, c.owner, t);
    hide OthersKeep, EndsAt, AllLoaded, HasPages, Grows, BytesKept, TranslatedOnly;
    KeepsThen(a.ram, b.ram, c.ram, a.tasks, b.tasks, t);
    PagesKept(b.ram, c.ram, b.owner, c.owner, t, b.tasks[t].cr3, PageOfAddress(stack.address), stack.pages,
              stack.flags, page, n);
    StillLoaded(b.bytes, b.ram, c.ram, b.owner, c.owner, t, b.tasks[t].cr3, loads, |loads|, page, n);
  }

  lemma CreatedFacts(w: World, w': World, t: int, loads: seq<Load>, stack: Stack, u: int)
    requires Created(w, w', t, loads, stack)
    ensures 0 < t < |w'.tasks| && w'.tasks[t].live && OthersKeep(w.ram, w'.ram, w.tasks, t)
    ensures Grows(w.owner, w'.owner, t)
    ensures 0 <= u < |w.tasks| && w.tasks[u].used ==> u != t && u < |w'.tasks| && w'.tasks[u] == w.tasks[u]
  {
  }

  /** Nothing the new task needed in the kernel's part had to be made for it. */
  lemma CreatedDonor(a: World, b: World, c: World, live: set<int>, size: int, t: int, from: int, kernelStack: int,
                     pages: int, loads: seq<Load>)
    requires Good(c.ram, c.owner, c.tasks, live, size) && 0 <= t < |c.tasks| && c.tasks[t].live
    requires Donor(a.ram, a.owner, from) && Grows(a.owner, c.owner, t)
    requires Above(loads, |loads|) ==> KernelEntries(a.ram, b.ram, from, c.tasks[t].cr3)
    requires TranslatedOnly(b.ram, c.ram, c.tasks[t].cr3, PageOfAddress(kernelStack), pages)
    requires kernelStack == 0 ==> c.ram == b.ram
    ensures ValidRam(a.ram) && from in a.ram
    ensures NoneMade(a.ram, from, kernelStack, pages, loads) ==> Donor(c.ram, c.owner, c.tasks[t].cr3)
  {
    var cr3 := c.tasks[t].cr3;
    HeldByTask(c.ram, c.owner, c.tasks, live, size, t);
    hide Good, KernelEntries, TranslatedOnly, NeedsNoTable, Grows, Above;
    if NoneMade(a.ram, from, kernelStack, pages, loads) {
      if kernelStack != 0 {
        EntriesStay(a.ram, b.ram, c.ram, from, cr3, PageOfAddress(kernelStack), pages);
      }
      EntriesDonor(a.ram, c.ram, a.owner, c.owner, from, cr3, t);
    }
  }

  /** Task `t` has its stack in the kernel at the first run of pages that directory `from` left free behind the
      hint; address 0 says that there was none. */
  ghost predicate KernelStackReady(ram: Ram, w': World, t: int, from: int, firstFree: int, stack: Stack) {
    && ValidRam(ram) && ValidRam(w'.ram) && 0 < t < |w'.tasks|
    && FirstFit(w'.ram, from, firstFree, stack.address, stack.pages)
    && (stack.address != 0 ==> FreeRun(ram, from, PageOfAddress(stack.address), stack.pages) && HasStack(w', t, stack))
  }

  lemma ReadyBefore(a: Ram, b: Ram, c: World, tasks: seq<UserTask>, u: int, t: int, firstFree: int, stack: Stack)
    requires OthersKeep(a, b, tasks, t) && 0 <= u < |tasks| && u != t && tasks[u].live
    requires KernelStackReady(b, c, t, tasks[u].cr3, firstFree, stack)
    ensures KernelStackReady(a, c, t, tasks[u].cr3, firstFree, stack)
  {
    hide HasPages, FirstFit, FreeRun, KeptSpace;
    if stack.address != 0 { FreeBefore(a, b, tasks, t, u, PageOfAddress(stack.address), stack.pages); }
  }

  /** Pages of the kernel's part that are free in the address space a task was created in are free in its own. */
  lemma StackWasFree(a: Ram, c: Ram, tasks: seq<UserTask>, t: int, u: int, cr3: int, kernelStack: int, pages: int,
                     loads: seq<Load>)
    requires 0 <= u < |tasks| && u != t && tasks[u].live && tasks[u].cr3 in a && ValidRam(a) && ValidRam(c)
    requires Above(loads, |loads|) ==> KernelEntries(a, c, tasks[u].cr3, cr3)
    requires OthersKeep(a, c, tasks, t)
    ensures Above(loads, |loads|) && 0 <= kernelStack && kernelStack + pages * PAGE_SIZE <= KERNEL_END
            && Aligned(kernelStack) && FreeRun(c, tasks[u].cr3, PageOfAddress(kernelStack), pages) ==>
              FreeRun(c, cr3, PageOfAddress(kernelStack), pages)
  {
    hide FreeRun, KernelEntries, Above, OthersKeep, SharesPart;
    if Above(loads, |loads|) {
      SameKernelPart(a, c, tasks, t, u, cr3);
      if FreeRun(c, tasks[u].cr3, PageOfAddress(kernelStack), pages)
         && PageOfAddress(kernelStack) + pages <= PageOfAddress(KERNEL_END) {
        PartIsFree(c, tasks[u].cr3, cr3, PageOfAddress(kernelStack), pages);
      }
    }
  }

  /** No table had to be made for the task in the kernel's part, neither for a segment nor for its stack there. */
  predicate NoneMade(ram: Ram, from: int, kernelStack: int, pages: int, loads: seq<Load>)
    requires ValidRam(ram) && from in ram
  {
    && Above(loads, |loads|)
    && (kernelStack != 0 ==>
          NeedsNoTable(ram, from, PageOfAddress(kernelStack), PageOfAddress(kernelStack) + pages))
  }

  /** The new task is complete: it is created, has its stack in the kernel, and when nothing had to be made for it
      in the kernel's part of directory `from` its own directory may be shared in turn. */
  ghost predicate Complete(w: World, w': World, t: int, from: int, loads: seq<Load>, stack: Stack, firstFree: int,
                           kernelStack: Stack) {
    && Created(w, w', t, loads, stack) && KernelStackReady(w.ram, w', t, from, firstFree, kernelStack)
    && from in w.ram
    && (NoneMade(w.ram, from, kernelStack.address, kernelStack.pages, loads) ==>
          Donor(w'.ram, w'.owner, w'.tasks[t].cr3))
  }

  /** The end of newUserTask. */
  lemma CreationEnds(a: World, b: World, c: World, live: set<int>, size: int, t: int, u: int, loads: seq<Load>,
                     stack: Stack, firstFree: int, kernelStack: Stack)
    requires Created(a, b, t, loads, stack) && c.bytes == b.bytes
    requires GoodBut(c.ram, c.owner, c.tasks, live, size, t, -1) && OnlyTask(b.tasks, c.tasks, t)
    requires c.tasks[t].cr3 == b.tasks[t].cr3 && c.tasks[t].end == b.tasks[t].end
    requires OthersKeep(b.ram, c.ram, b.tasks, t) && Grows(b.owner, c.owner, t)
    requires TranslatedOnly(b.ram, c.ram, b.tasks[t].cr3, PageOfAddress(kernelStack.address), kernelStack.pages)
    requires kernelStack.address == 0 ==> c.ram == b.ram
    requires 0 <= u < |a.tasks| && a.tasks[u].used && a.tasks[u].live && Donor(a.ram, a.owner, a.tasks[u].cr3)
    requires KernelStackReady(b.ram, c, t, a.tasks[u].cr3, firstFree, kernelStack)
    requires Above(loads, |loads|) ==> KernelEntries(a.ram, b.ram, a.tasks[u].cr3, b.tasks[t].cr3)
    ensures Good(c.ram, c.owner, c.tasks, live, size)
    ensures Complete(a, c, t, a.tasks[u].cr3, loads, stack, firstFree, kernelStack)
  {
    hide Created, Good, Donor, OthersKeep, Grows, TranslatedOnly, KernelStackReady, Above, KernelEntries, NoneMade,
      TaskGood, Ledger, OthersGood;
    CreatedFacts(a, b, t, loads, stack, u);
    NoneExcepted(c.ram, c.owner, c.tasks, live, size, t);
    ReadyBefore(a.ram, b.ram, c, a.tasks, u, t, firstFree, kernelStack);
    CreatedThen(a, b, c, t, loads, stack, PageOfAddress(kernelStack.address), kernelStack.pages);
    CreatedFacts(a, c, t, loads, stack, u);
    CreatedDonor(a, b, c, live, size, t, a.tasks[u].cr3, kernelStack.address, kernelStack.pages, loads);
    ReadyRam(a.ram, c, t, a.tasks[u].cr3, firstFree, kernelStack);
  }

  lemma ReadyRam(ram: Ram, w': World, t: int, from: int, firstFree: int, stack: Stack)
    requires KernelStackReady(ram, w', t, from, firstFree, stack)
    ensures ValidRam(ram) && ValidRam(w'.ram)
  {
  }

  lemma NoLoss(owner: Owners, t: int)
    ensures Grows(owner, owner, t)
  {
  }

  /** New pages do not disturb what is loaded. */
  lemma StillLoaded(memory: seq<int>, ram: Ram, ram': Ram, owner: Owners, owner': Owners, t: int, cr3: int,
                    loads: seq<Load>, n: int, page: int, pages: int)
    requires AllLoaded(memory, ram, owner, t, cr3, loads, n) && TranslatedOnly(ram, ram', cr3, page, pages)
    requires Grows(owner, owner', t)
    ensures AllLoaded(memory, ram', owner', t, cr3, loads, n)
  {
    hide HasLoaded;
    forall k | 0 <= k < n && loads[k].start != 0 ensures HasLoaded(memory, ram', owner', t, cr3, loads[k]) {
      OneStillLoaded(memory, ram, ram', owner, owner', t, cr3, loads[k], page, pages);
    }
  }

  lemma PagesKeptBelow(ram: Ram, ram': Ram, owner: Owners, owner': Owners, t: int, cr3: int, page: int, pages: int,
                       flags: int)
    requires HasPages(ram, owner, t, cr3, page, pages, flags) && ValidRam(ram') && KeptBelow(ram, ram', cr3)
    requires Grows(owner, owner', t)
    ensures HasPages(ram', owner', t, cr3, page, pages, flags)
    ensures forall p {:trigger FrameAt(ram', cr3, p)} :: page <= p < page + pages ==>
              FrameAt(ram', cr3, p) == FrameAt(ram, cr3, p)
  {
    hide Walk;
    forall p | page <= p < page + pages
      ensures FrameAt(ram', cr3, p) == FrameAt(ram, cr3, p) && FlagsAt(ram', cr3, p) == FlagsAt(ram, cr3, p)
      ensures UserMayRead(ram, cr3, p) && UserMayRead(ram', cr3, p)
      ensures UserMayWrite(ram', cr3, p) == UserMayWrite(ram, cr3, p)
      ensures !InWindow(p) && 0 < FrameAt(ram, cr3, p) && Owned(owner', FrameAt(ram, cr3, p), t)
    {
      assert 0 < FrameAt(ram, cr3, p);
      assert FlagsAt(ram, cr3, p) == WithPresent(WithUser(flags));
      assert IsPage(p) && Walk(ram, cr3, p).Some?;
      assert Walk(ram', cr3, p) == Walk(ram, cr3, p);
    }
  }

  lemma PagesKept(ram: Ram, ram': Ram, owner: Owners, owner': Owners, t: int, cr3: int, page: int, pages: int,
                  flags: int, newPage: int, newPages: int)
    requires HasPages(ram, owner, t, cr3, page, pages, flags) && TranslatedOnly(ram, ram', cr3, newPage, newPages)
    requires Grows(owner, owner', t)
    ensures HasPages(ram', owner', t, cr3, page, pages, flags)
    ensures forall p {:trigger FrameAt(ram', cr3, p)} :: page <= p < page + pages ==>
              FrameAt(ram', cr3, p) == FrameAt(ram, cr3, p)
  {
    PagesKeptBelow(ram, ram', owner, owner', t, cr3, page, pages, flags);
  }

  lemma OneStillLoaded(memory: seq<int>, ram: Ram, ram': Ram, owner: Owners, owner': Owners, t: int, cr3: int,
                       l: Load, page: int, pages: int)
    requires HasLoaded(memory, ram, owner, t, cr3, l) && TranslatedOnly(ram, ram', cr3, page, pages)
      && Grows(owner, owner', t)
    ensures HasLoaded(memory, ram', owner', t, cr3, l)
  {
    hide Walk, FrameAt, TranslatedOnly, Grows;
    PagesKept(ram, ram', owner, owner', t, cr3, PageOfAddress(l.start), PagesFor(l.size), l.flags, page,
      pages);
    forall v | l.start <= v < l.start + l.size ensures PhysicalAddress(ram', cr3, v) == PhysicalAddress(ram, cr3, v) {
      PageOfByte(l, v);
    }
  }

  lemma SpreadPages(ram: Ram, owner: Owners, tasks: seq<UserTask>, live: set<int>, size: int, t: int,
                    added: seq<Segment>, virt: int, pages: int, flags: int)
    requires GoodBut(ram, owner, tasks, live, size, t, -1) && Aligned(virt) && 0 < virt && Spread(added, virt, pages)
    requires forall k {:trigger added[k]} :: 0 <= k < |added| ==> added[k] in tasks[t].segments
    requires ValidRam(ram) && Flagged(ram, tasks[t].cr3, PageOfAddress(virt), pages, WithUser(flags)) && 0 <= flags
    ensures HasPages(ram, owner, t, tasks[t].cr3, PageOfAddress(virt), pages, flags)
  {
    FlagsOpen(ram, tasks[t].cr3, PageOfAddress(virt), pages, flags);
    hide Flagged, UserPages, WithUser, Ledger, OthersGood, TaskGood, Spread, FrameAt, Owned;
    SpreadMapped(ram, owner, tasks, live, size, t, added, virt, pages);
    var cr3 := tasks[t].cr3;
    forall p | PageOfAddress(virt) <= p < PageOfAddress(virt) + pages
      ensures !InWindow(p) && Owned(owner, FrameAt(ram, cr3, p), t) && 0 < FrameAt(ram, cr3, p)
    {
      assert 0 < FrameAt(ram, cr3, p);
    }
  }

  lemma PageOfByte(l: Load, v: int)
    requires l.start <= v < l.start + l.size && Aligned(l.start)
    ensures PageOfAddress(l.start) <= PageOfAddress(v) < PageOfAddress(l.start) + PagesFor(l.size)
  {
  }

  /** Bytes written into frames that were free before do not disturb what is loaded. */
  lemma FillKeeps(was: seq<int>, now: seq<int>, ram: Ram, owner: Owners, owner': Owners, size: int, t: int, cr3: int,
                  loads: seq<Load>, n: int, added: seq<Segment>, content: seq<int>)
    requires AllLoaded(was, ram, owner, t, cr3, loads, n) && FilledTo(was, now, added, |added|, content)
    requires NewFrames(owner, size, added) && Grows(owner, owner', t)
    requires forall k {:trigger added[k]} :: 0 <= k < |added| ==> Aligned(added[k].physical)
    ensures AllLoaded(now, ram, owner', t, cr3, loads, n)
  {
    hide HasLoaded, FilledTo, NewFrames;
    forall k | 0 <= k < n && loads[k].start != 0 ensures HasLoaded(now, ram, owner', t, cr3, loads[k]) {
      OneKept(was, now, ram, owner, owner', size, t, cr3, loads[k], added, content);
    }
  }

  lemma OneKept(was: seq<int>, now: seq<int>, ram: Ram, owner: Owners, owner': Owners, size: int, t: int, cr3: int,
                l: Load, added: seq<Segment>, content: seq<int>)
    requires HasLoaded(was, ram, owner, t, cr3, l) && FilledTo(was, now, added, |added|, content)
    requires NewFrames(owner, size, added) && Grows(owner, owner', t)
    requires forall k {:trigger added[k]} :: 0 <= k < |added| ==> Aligned(added[k].physical)
    ensures HasLoaded(now, ram, owner', t, cr3, l)
  {
    hide FrameAt, Filled;
    var image := Image(l.file, l.size);
    forall p | PageOfAddress(l.start) <= p < PageOfAddress(l.start) + PagesFor(l.size)
      ensures !InWindow(p) && Owned(owner', FrameAt(ram, cr3, p), t) && 0 < FrameAt(ram, cr3, p)
    {
      assert Owned(owner, FrameAt(ram, cr3, p), t);
    }
    forall v | l.start <= v < l.start + |image|
      ensures 0 <= PhysicalAddress(ram, cr3, v) < |now| && now[PhysicalAddress(ram, cr3, v)] == image[v - l.start]
    {
      PageOfByte(l, v);
      var f, a := FrameAt(ram, cr3, PageOfAddress(v)), PhysicalAddress(ram, cr3, v);
      assert Owned(owner, f, t) && a / PAGE_SIZE == f;
      forall k | 0 <= k < |added| ensures !InBytes(added[k], a) {
        ByteFrame(added[k], a);
      }
      assert Apart(added, |added|, a);
    }
  }

  lemma ByteFrame(s: Segment, a: int)
    requires Aligned(s.physical)
    ensures InBytes(s, a) ==> InSegment(s, a / PAGE_SIZE)
  {
  }

  /** The bytes of all frames that somebody held are as they were. */
  ghost predicate BytesKept(was: seq<int>, now: seq<int>, owner: Owners) {
    |now| == |was| && forall a {:trigger now[a]} :: 0 <= a < |now| && a / PAGE_SIZE in owner ==> now[a] == was[a]
  }

  lemma FillKeepsBytes(was: seq<int>, now: seq<int>, owner: Owners, size: int, added: seq<Segment>, content: seq<int>)
    requires FilledTo(was, now, added, |added|, content) && NewFrames(owner, size, added)
    requires forall k {:trigger added[k]} :: 0 <= k < |added| ==> Aligned(added[k].physical)
    ensures BytesKept(was, now, owner)
  {
    hide Filled;
    forall a | 0 <= a < |now| && a / PAGE_SIZE in owner ensures now[a] == was[a] {
      forall k | 0 <= k < |added| ensures !InBytes(added[k], a) {
        ByteFrame(added[k], a);
      }
      assert Apart(added, |added|, a);
    }
  }

  lemma BytesThen(a: seq<int>, b: seq<int>, c: seq<int>, owner: Owners, owner': Owners, t: int)
    requires BytesKept(a, b, owner) && BytesKept(b, c, owner') && Grows(owner, owner', t)
    ensures BytesKept(a, c, owner)
  {
    forall x | 0 <= x < |c| && x / PAGE_SIZE in owner ensures c[x] == a[x] {
      assert x / PAGE_SIZE in owner';
      assert b[x] == a[x];
    }
  }

  /** The pages of task `u` that are mapped to frames of its own are translated as before. */
  ghost predicate OwnPagesKept(ram: Ram, ram': Ram, owner: Owners, u: int, cr3: int)
    requires ValidRam(ram) && ValidRam(ram')
  {
    forall p {:trigger Walk(ram', cr3, p)} ::
      IsPage(p) && !InWindow(p) && Owned(owner, FrameAt(ram, cr3, p), u) && 0 < FrameAt(ram, cr3, p) ==>
        Walk(ram', cr3, p) == Walk(ram, cr3, p)
  }

  /** Whoever holds something keeps it, if it is task `u`. */
  ghost predicate FramesKept(owner: Owners, owner': Owners, u: int) {
    forall f {:trigger Owned(owner', f, u)} :: Owned(owner, f, u) ==> Owned(owner', f, u)
  }

  /** A task reads its image as long as it keeps its frames, the pages mapped to them and their bytes, whatever
      becomes of everything else. */
  lemma ImageStays(w: World, w': World, u: int, cr3: int, loads: seq<Load>)
    requires AllLoaded(w.bytes, w.ram, w.owner, u, cr3, loads, |loads|) && ValidRam(w'.ram)
    requires BytesKept(w.bytes, w'.bytes, w.owner) && FramesKept(w.owner, w'.owner, u)
    requires OwnPagesKept(w.ram, w'.ram, w.owner, u, cr3)
    ensures AllLoaded(w'.bytes, w'.ram, w'.owner, u, cr3, loads, |loads|)
  {
    hide OwnPagesKept, FramesKept, BytesKept, HasPages, FrameAt, Loaded, Image, WithUser;
    forall k | 0 <= k < |loads| && loads[k].start != 0
      ensures HasLoaded(w'.bytes, w'.ram, w'.owner, u, cr3, loads[k])
    {
      assert HasLoaded(w.bytes, w.ram, w.owner, u, cr3, loads[k]);
      SamePages(w.ram, w'.ram, w.owner, w'.owner, u, cr3, loads[k]);
      SameReading(w.bytes, w'.bytes, w.ram, w'.ram, w.owner, u, cr3, loads[k]);
    }
  }

  lemma SamePages(ram: Ram, ram': Ram, owner: Owners, owner': Owners, u: int, cr3: int, l: Load)
    requires ValidRam(ram) && ValidRam(ram') && OwnPagesKept(ram, ram', owner, u, cr3)
    requires FramesKept(owner, owner', u)
    requires HasPages(ram, owner, u, cr3, PageOfAddress(l.start), PagesFor(l.size), l.flags)
    ensures HasPages(ram', owner', u, cr3, PageOfAddress(l.start), PagesFor(l.size), l.flags)
    ensures SameFramesOf(ram, ram', owner, u, cr3, l)
  {
    hide Walk, WithUser;
    forall p | PageOfAddress(l.start) <= p < PageOfAddress(l.start) + PagesFor(l.size)
      ensures FrameAt(ram', cr3, p) == FrameAt(ram, cr3, p) && FlagsAt(ram', cr3, p) == FlagsAt(ram, cr3, p)
      ensures UserMayRead(ram, cr3, p) && UserMayRead(ram', cr3, p)
      ensures UserMayWrite(ram', cr3, p) == UserMayWrite(ram, cr3, p)
      ensures !InWindow(p) && 0 < FrameAt(ram, cr3, p) && Owned(owner, FrameAt(ram, cr3, p), u)
      ensures Owned(owner', FrameAt(ram, cr3, p), u)
    {
      assert 0 < FrameAt(ram, cr3, p);
      assert FlagsAt(ram, cr3, p) == WithPresent(WithUser(l.flags));
      assert IsPage(p) && Walk(ram', cr3, p) == Walk(ram, cr3, p);
    }
  }

  /** The pages of the segment are mapped to the same frames as before, which the task holds. */
  ghost predicate SameFramesOf(ram: Ram, ram': Ram, owner: Owners, u: int, cr3: int, l: Load)
    requires ValidRam(ram) && ValidRam(ram')
  {
    forall p {:trigger FrameAt(ram', cr3, p)} ::
      PageOfAddress(l.start) <= p < PageOfAddress(l.start) + PagesFor(l.size) ==>
        FrameAt(ram', cr3, p) == FrameAt(ram, cr3, p) && Owned(owner, FrameAt(ram, cr3, p), u)
  }

  lemma SameReading(was: seq<int>, now: seq<int>, ram: Ram, ram': Ram, owner: Owners, u: int, cr3: int, l: Load)
    requires ValidRam(ram) && ValidRam(ram') && SameFramesOf(ram, ram', owner, u, cr3, l)
    requires Aligned(l.start) && |l.file| <= l.size && Loaded(was, ram, cr3, l.start, Image(l.file, l.size))
    requires BytesKept(was, now, owner)
    ensures Loaded(now, ram', cr3, l.start, Image(l.file, l.size))
  {
    hide FrameAt;
    var image := Image(l.file, l.size);
    forall v | l.start <= v < l.start + |image|
      ensures 0 <= PhysicalAddress(ram', cr3, v) < |now| && now[PhysicalAddress(ram', cr3, v)] == image[v - l.start]
    {
      PageOfByte(l, v);
      var f, a := FrameAt(ram', cr3, PageOfAddress(v)), PhysicalAddress(ram, cr3, v);
      assert Owned(owner, f, u) && a / PAGE_SIZE == f && PhysicalAddress(ram', cr3, v) == a;
    }
  }

  lemma OneMoreLoaded(memory: seq<int>, ram: Ram, owner: Owners, t: int, cr3: int, loads: seq<Load>, n: int)
    requires AllLoaded(memory, ram, owner, t, cr3, loads, n) && n < |loads|
    requires loads[n].start != 0 ==> HasLoaded(memory, ram, owner, t, cr3, loads[n])
    ensures AllLoaded(memory, ram, owner, t, cr3, loads, n + 1)
  {
    hide HasLoaded;
  }

  /** What createPhysicalMapping adds is a place to copy to. */
  lemma AddedPlaced(ram: Ram, owner: Owners, tasks: seq<UserTask>, live: set<int>, size: int, t: int, owner0: Owners,
                    added: seq<Segment>, start: int, pages: int, length: int)
    requires GoodBut(ram, owner, tasks, live, size, t, -1) && Spread(added, start, pages)
      && NewFrames(owner0, size, added)
    requires size * PAGE_SIZE <= length
    requires forall k {:trigger added[k]} :: 0 <= k < |added| ==> added[k] in tasks[t].segments
    ensures Placed(added, length) && forall k {:trigger added[k]} :: 0 <= k < |added| ==> Aligned(added[k].physical)
  {
    hide Ledger, OthersGood, Space, MappedFrom, Recorded;
    forall k | 0 <= k < |added|
      ensures Aligned(added[k].physical) && added[k].pages > 0 && 0 <= added[k].physical
      ensures added[k].physical + Bytes(added[k]) <= length
    {
      var j :| 0 <= j < |tasks[t].segments| && tasks[t].segments[j] == added[k];
      assert InSegment(added[k], FirstFrame(added[k]))
        && InSegment(added[k], FirstFrame(added[k]) + added[k].pages - 1);
    }
    forall k, l | 0 <= k < l < |added|
      ensures added[k].physical + Bytes(added[k]) <= added[l].physical
        || added[l].physical + Bytes(added[l]) <= added[k].physical
    {
      assert added[k].virt != added[l].virt;
      assert Aligned(added[k].physical) && Aligned(added[l].physical);
      FramesApart(owner, t, tasks[t].cr3, tasks[t].segments, added[k], added[l]);
    }
  }

  lemma FramesApart(owner: Owners, t: int, cr3: int, segments: seq<Segment>, a: Segment, b: Segment)
    requires Recorded(owner, t, cr3, segments) && a in segments && b in segments && a != b && 0 < a.pages && 0 < b.pages
    ensures FirstFrame(a) + a.pages <= FirstFrame(b) || FirstFrame(b) + b.pages <= FirstFrame(a)
  {
    var i :| 0 <= i < |segments| && segments[i] == a;
    var j :| 0 <= j < |segments| && segments[j] == b;
    if FirstFrame(a) < FirstFrame(b) + b.pages && FirstFrame(b) < FirstFrame(a) + a.pages {
      var f := if FirstFrame(a) < FirstFrame(b) then FirstFrame(b) else FirstFrame(a);
      assert InSegment(segments[i], f) && InSegment(segments[j], f);
    }
  }

  lemma AddedMapped(ram: Ram, owner: Owners, tasks: seq<UserTask>, live: set<int>, size: int, t: int,
                    added: seq<Segment>, start: int, pages: int)
    requires GoodBut(ram, owner, tasks, live, size, t, -1) && Spread(added, start, pages) && Aligned(start) && 0 < start
    requires forall k {:trigger added[k]} :: 0 <= k < |added| ==> added[k] in tasks[t].segments
    ensures ValidRam(ram)
    ensures forall k {:trigger added[k]} :: 0 <= k < |added| ==>
      MappedPart(ram, tasks[t].cr3, added[k], 0, added[k].pages)
  {
    hide Ledger, OthersGood, Recorded, MappedPart;
    forall k | 0 <= k < |added| ensures MappedPart(ram, tasks[t].cr3, added[k], 0, added[k].pages) {
      var j :| 0 <= j < |tasks[t].segments| && tasks[t].segments[j] == added[k];
      assert IsMapping(added[k]);
    }
  }
}
