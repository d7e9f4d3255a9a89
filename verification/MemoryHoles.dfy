/** kernel/memorymap.cpp, continued: page alignment of the merged regions, the end of memory, and the
    holes that the allocator must not hand out. */
module MemoryHoles {
  import opened FixedArray
  import opened MemoryMap
  import opened Wrappers

  const PAGE := 4096

  function AlignDown(x: int): int {
    x / PAGE * PAGE
  }

  /** Rounding up within 32 bits. */
  function AlignUp(x: int): int {
    Low32(AlignDown(x + PAGE - 1))
  }

  /** Base and length are rounded one without the other. */
  function AlignRegion(r: Region): Region {
    if r.available then r.(base := AlignUp(r.base), length := AlignDown(r.length))
    else r.(base := AlignDown(r.base), length := AlignUp(r.length))
  }

  /** A region whose fields are 32-bit words and that ends below the last page. */
  predicate InRange(r: Region) {
    0 <= r.base && 0 <= r.length && RegionEnd(r) <= MAX_MEMORY - PAGE
  }

  function Offset(x: int): int {
    x % PAGE
  }

  /** How far `x` is from the next page boundary. */
  function Missing(x: int): int {
    if Offset(x) == 0 then 0 else PAGE - Offset(x)
  }

  lemma Rounded(x: int)
    requires 0 <= x <= MAX_MEMORY - PAGE
    ensures AlignDown(x) == x - Offset(x) && AlignUp(x) == x + Missing(x)
  {
  }

  /** The rounded region claims an address that the region does not have. */
  ghost predicate ClaimsMore(r: Region) {
    exists a :: Holds(AlignRegion(r), a) && !Holds(r, a)
  }

  /** An available region is rounded to a part of itself if and only if less is cut off its length than
      its base moves up by, or nothing is left of it. */
  lemma AvailableShrinks(r: Region)
    requires InRange(r) && r.available
    ensures !ClaimsMore(r) <==> Missing(r.base) <= Offset(r.length) || r.length < PAGE
  {
    Rounded(r.base);
    Rounded(r.length);
    var q := AlignRegion(r);
    if Missing(r.base) > Offset(r.length) && r.length >= PAGE {
      assert Holds(q, RegionEnd(q) - 1) && !Holds(r, RegionEnd(q) - 1);
    }
  }

  /** The rounded region lets go of an address that the region has. */
  ghost predicate ClaimsLess(r: Region) {
    exists a :: Holds(r, a) && !Holds(AlignRegion(r), a)
  }

  /** A hole is rounded to one that contains it if and only if its base moves down by no more than its
      length grows. */
  lemma HoleGrows(r: Region)
    requires InRange(r) && !r.available && 0 < r.length
    ensures !ClaimsLess(r) <==> Offset(r.base) <= Missing(r.length)
  {
    Rounded(r.base);
    Rounded(r.length);
    var q := AlignRegion(r);
    if Offset(r.base) > Missing(r.length) {
      assert Holds(r, RegionEnd(r) - 1) && !Holds(q, RegionEnd(r) - 1);
    }
  }

  function AlignAll(rs: seq<Region>): seq<Region> {
    seq(|rs|, i requires 0 <= i < |rs| => AlignRegion(rs[i]))
  }

  predicate PageAligned(r: Region) {
    Offset(r.base) == 0 && Offset(r.length) == 0
  }

  /** Every region is aligned: it lies on page boundaries, its base is moved by less than a page, up for available
      regions and down for holes, and its length by less than a page the other way. */
  lemma AlignedNear(rs: seq<Region>, i: int)
    requires 0 <= i < |rs| && InRange(rs[i])
    ensures |AlignAll(rs)| == |rs|
    ensures var r, q := rs[i], AlignAll(rs)[i];
            && q.available == r.available && PageAligned(q)
            && (if r.available then r.base <= q.base < r.base + PAGE && r.length - PAGE < q.length <= r.length
                else r.base - PAGE < q.base <= r.base && r.length <= q.length < r.length + PAGE)
  {
    Rounded(rs[i].base);
    Rounded(rs[i].length);
  }

  /** Regions that lie on page boundaries stay as they are. */
  lemma AlignedStays(rs: seq<Region>)
    requires forall i :: 0 <= i < |rs| ==>
               PageAligned(rs[i]) && 0 <= rs[i].base < MAX_MEMORY && 0 <= rs[i].length < MAX_MEMORY
    ensures AlignAll(rs) == rs
  {
    forall i | 0 <= i < |rs| ensures AlignRegion(rs[i]) == rs[i] {
    }
  }

  /** Where memory ends: before the last region when that is a hole, else behind it, in 32 bits. The
      value chosen for memory that reaches 4 GiB is overwritten at once. */
  function EndOf(rs: seq<Region>): int
    requires |rs| > 0
  {
    var last := rs[|rs| - 1];
    if last.available then Low32(RegionEnd(last)) else last.base
  }

  /** The unavailable ones among the first `n` regions. */
  function Unavailable(rs: seq<Region>, n: int): seq<Region>
    requires 0 <= n <= |rs|
  {
    if n == 0 then [] else Unavailable(rs, n - 1) + if rs[n - 1].available then [] else [rs[n - 1]]
  }

  /** The first region that starts at or above the end of memory. */
  ghost predicate Cut(rs: seq<Region>, end: int, n: int) {
    0 <= n <= |rs| && (forall i :: 0 <= i < n ==> rs[i].base < end) && (n < |rs| ==> rs[n].base >= end)
  }

  method AlignEntries(entries: FixedArray<Region>)
    requires entries.Valid()
    modifies entries.data
    ensures entries.Contents() == AlignAll(old(entries.Contents()))
  {
    ghost var was := entries.Contents();
    var i := 0;
    while i < entries.size
      invariant 0 <= i <= entries.size
      invariant forall j :: 0 <= j < i ==> entries.data[j] == AlignRegion(was[j])
      invariant forall j :: i <= j < entries.size ==> entries.data[j] == was[j]
    {
      entries.data[i] := AlignRegion(entries.data[i]);
      i := i + 1;
    }
  }

  lemma UnavailableStep(rs: seq<Region>, i: int)
    requires 0 <= i < |rs|
    ensures Unavailable(rs, i + 1) == Unavailable(rs, i) + if rs[i].available then [] else [rs[i]]
  {
  }

  method TakeHoles(entries: FixedArray<Region>, holes: FixedArray<Region>, end: int) returns (ok: bool, ghost n: int)
    requires entries.Valid() && holes.Valid() && holes.Contents() == [] && entries.data != holes.data
    requires entries != holes
    modifies holes`size, holes.data
    ensures holes.Valid()
    ensures ok ==> Cut(entries.Contents(), end, n) && holes.Contents() == Unavailable(entries.Contents(), n)
    ensures entries.size <= holes.data.Length ==> ok
  {
    ghost var rs := entries.Contents();
    ok, n := true, 0;
    var i := 0;
    assert Unavailable(rs, 0) == [];
    hide Unavailable;
    while i < entries.size && entries.data[i].base < end
      invariant 0 <= i <= |rs| && n == i && holes.Valid() && ok && holes.size <= i
      invariant forall j :: 0 <= j < i ==> rs[j].base < end
      invariant holes.Contents() == Unavailable(rs, i)
    {
      var e := entries.data[i];
      assert e == rs[i];
      UnavailableStep(rs, i);
      if !e.available {
        ok := holes.Insert(e);
        if !ok {
          return;
        }
      }
      i, n := i + 1, n + 1;
    }
    assert i < |rs| ==> entries.data[i] == rs[i];
  }

  /** MemoryMap::init from its page alignment on. Fails, as a failed assertion does, when there are more
      holes than the array has room for. */
  method Finish(entries: FixedArray<Region>, holes: FixedArray<Region>) returns (ok: bool, end: int)
    requires entries.Valid() && entries.size > 0 && holes.Valid() && holes.Contents() == []
    requires entries != holes && entries.data != holes.data
    modifies entries.data, holes`size, holes.data
    ensures entries.Valid() && holes.Valid() && entries.Contents() == AlignAll(old(entries.Contents()))
    ensures ok ==> end == EndOf(entries.Contents())
    ensures ok ==> exists n :: Cut(entries.Contents(), end, n) && holes.Contents() == Unavailable(entries.Contents(), n)
    ensures entries.size <= holes.data.Length ==> ok
  {
    hide Unavailable, Cut;
    AlignEntries(entries);
    ghost var rs := entries.Contents();
    var last := entries.data[entries.size - 1];
    assert rs[|rs| - 1] == last;
    end := if last.available then Low32(last.base + last.length) else last.base;
    ghost var n;
    ok, n := TakeHoles(entries, holes, end);
  }

  lemma {:induction false} UnavailableAre(rs: seq<Region>, n: int, a: int)
    requires 0 <= n <= |rs|
    ensures (exists k :: 0 <= k < |Unavailable(rs, n)| && Holds(Unavailable(rs, n)[k], a)) <==>
              exists i :: 0 <= i < n && !rs[i].available && Holds(rs[i], a)
  {
    if n > 0 {
      UnavailableAre(rs, n - 1, a);
      var u, w := Unavailable(rs, n - 1), Unavailable(rs, n);
      if k :| 0 <= k < |w| && Holds(w[k], a) {
        if k < |u| {
          assert Holds(u[k], a);
          var i :| 0 <= i < n - 1 && !rs[i].available && Holds(rs[i], a);
        } else {
          assert w[k] == rs[n - 1];
        }
      }
      if i :| 0 <= i < n && !rs[i].available && Holds(rs[i], a) {
        if i < n - 1 {
          var k :| 0 <= k < |u| && Holds(u[k], a);
          assert w[k] == u[k];
        } else {
          assert w[|u|] == rs[i];
        }
      }
    }
  }

  /** Over contiguous regions the holes found below the end of memory are exactly what is not available
      there. */
  lemma HolesAreExact(rs: seq<Region>, lo: int, hi: int, n: int, a: int)
    requires Contiguous(rs, lo, hi) && Cut(rs, EndOf(rs), n) && 0 <= lo && hi <= MAX_MEMORY
    requires lo <= a < EndOf(rs)
    ensures (exists k :: 0 <= k < |Unavailable(rs, n)| && Holds(Unavailable(rs, n)[k], a)) <==> !AvailableAt(rs, a)
  {
    UnavailableAre(rs, n, a);
    InBounds(rs, lo, hi, |rs| - 1);
    var m := Holder(rs, lo, hi, a);
    forall j | 0 <= j < |rs| && Holds(rs[j], a) ensures j == m {
      if j < m { RegionsOrdered(rs, lo, hi, j, m); }
      if m < j { RegionsOrdered(rs, lo, hi, m, j); }
    }
    if n < |rs| && n <= m {
      if n < m { RegionsOrdered(rs, lo, hi, n, m); }
      assert false;
    }
  }

  lemma Holder(rs: seq<Region>, lo: int, hi: int, a: int) returns (m: int)
    requires Contiguous(rs, lo, hi) && lo <= a < hi
    ensures 0 <= m < |rs| && Holds(rs[m], a)
  {
    m := 0;
    while !Holds(rs[m], a)
      invariant 0 <= m < |rs| && rs[m].base <= a
      decreases |rs| - m
    {
      assert m + 1 < |rs| ==> Abuts(rs, m);
      m := m + 1;
    }
  }

  /** The end found is the end of the last available region, except that memory which is available up to
      4 GiB is taken to end at 0, and nothing is a hole then. */
  lemma EndIsZero(rs: seq<Region>, lo: int, hi: int)
    requires Contiguous(rs, lo, hi) && 0 <= lo && hi <= MAX_MEMORY
    ensures var last := rs[|rs| - 1];
            && (EndOf(rs) == (if last.available then hi else last.base) <==> !last.available || hi < MAX_MEMORY)
            && (last.available && hi == MAX_MEMORY ==> EndOf(rs) == 0 && forall n :: Cut(rs, 0, n) ==> n == 0)
  {
    InBounds(rs, lo, hi, |rs| - 1);
    forall n | Cut(rs, 0, n) ensures n == 0 {
    }
  }

  // ----- looking for a hole -----

  /** Two address ranges meet. */
  predicate Meet(hole: Region, base: int, length: int) {
    hole.base < base + length && base < RegionEnd(hole)
  }

  /** The comparison as it is made, with both ends in 32 bits. */
  predicate FoundToMeet(hole: Region, base: int, length: int) {
    hole.base < Low32(base + length) && base < Low32(RegionEnd(hole))
  }

  /** The comparison is right for all ranges that meet but those that end at 4 GiB. */
  lemma FoundExactly(hole: Region, base: int, length: int)
    requires 0 <= hole.base && 0 <= hole.length && RegionEnd(hole) <= MAX_MEMORY
    requires 0 <= base && 0 <= length && base + length <= MAX_MEMORY
    ensures FoundToMeet(hole, base, length) <==>
              Meet(hole, base, length) && base + length < MAX_MEMORY && RegionEnd(hole) < MAX_MEMORY
  {
  }

  /** MemoryMap::isInHole. */
  method IsInHole(holes: seq<Region>, base: int, length: int) returns (r: Option<Region>)
    ensures r.None? ==> forall i :: 0 <= i < |holes| ==> !FoundToMeet(holes[i], base, length)
    ensures r.Some? ==> exists i :: 0 <= i < |holes| && FirstFound(holes, base, length, i) && r.value == holes[i]
  {
    var i := 0;
    while i < |holes|
      invariant 0 <= i <= |holes|
      invariant forall j :: 0 <= j < i ==> !FoundToMeet(holes[j], base, length)
    {
      if holes[i].base < Low32(base + length) && base < Low32(holes[i].base + holes[i].length) {
        assert FirstFound(holes, base, length, i);
        return Some(holes[i]);
      }
      i := i + 1;
    }
    return None;
  }

  ghost predicate FirstFound(holes: seq<Region>, base: int, length: int, i: int) {
    && 0 <= i < |holes|
    && FoundToMeet(holes[i], base, length)
    && forall j :: 0 <= j < i ==> !FoundToMeet(holes[j], base, length)
  }

  /** Holes in address order that do not overlap and end below 4 GiB. */
  ghost predicate Ordered(holes: seq<Region>) {
    && (forall i :: 0 <= i < |holes| ==> 0 <= holes[i].base && 0 < holes[i].length && RegionEnd(holes[i]) < MAX_MEMORY)
    && forall i, j :: 0 <= i < j < |holes| ==> RegionEnd(holes[i]) <= holes[j].base
  }

  /** No hole meets the range. */
  ghost predicate Clear(holes: seq<Region>, base: int, length: int) {
    forall i :: 0 <= i < |holes| ==> !Meet(holes[i], base, length)
  }

  /** Hole `i` meets the range, and what is reserved starts behind it. */
  ghost predicate Jumped(holes: seq<Region>, base: int, length: int, i: int, address: int) {
    0 <= i < |holes| && Meet(holes[i], base, length) && address == RegionEnd(holes[i]) && ClearBehind(holes, i, length)
  }

  lemma JumpsRight(holes: seq<Region>, base: int, length: int, i: int)
    requires Ordered(holes) && 0 <= base && 0 < length && base + length < MAX_MEMORY
    requires FirstFound(holes, base, length, i)
    ensures Jumped(holes, base, length, i, Low32(RegionEnd(holes[i]))) && Low32(RegionEnd(holes[i])) != base
    ensures !Clear(holes, base, length)
  {
    FoundExactly(holes[i], base, length);
    BehindHole(holes, i, length);
  }

  lemma StaysRight(holes: seq<Region>, base: int, length: int)
    requires Ordered(holes) && 0 <= base && 0 < length && base + length < MAX_MEMORY
    requires forall i :: 0 <= i < |holes| ==> !FoundToMeet(holes[i], base, length)
    ensures Clear(holes, base, length)
  {
    forall i | 0 <= i < |holes| ensures !Meet(holes[i], base, length) {
      FoundExactly(holes[i], base, length);
    }
  }

  /** PhysicalAllocator::reserve: pages behind the kernel, or behind the first hole that they would meet. */
  method Reserve(holes: seq<Region>, kernelEnd: int, pages: int) returns (address: int, kernelEnd': int)
    requires 0 <= kernelEnd && 0 < pages && kernelEnd + pages * PAGE < MAX_MEMORY && Ordered(holes)
    ensures kernelEnd' == Low32(address + pages * PAGE)
    ensures address == kernelEnd <==> Clear(holes, kernelEnd, pages * PAGE)
    ensures address != kernelEnd ==> exists i :: Jumped(holes, kernelEnd, pages * PAGE, i, address)
  {
    hide Jumped, Clear, FoundToMeet, Ordered, FirstFound;
    address := kernelEnd;
    var hole := IsInHole(holes, kernelEnd, pages * PAGE);
    if hole.Some? {
      ghost var i :| 0 <= i < |holes| && FirstFound(holes, kernelEnd, pages * PAGE, i) && hole.value == holes[i];
      JumpsRight(holes, kernelEnd, pages * PAGE, i);
      address := Low32(hole.value.base + hole.value.length);
    } else {
      StaysRight(holes, kernelEnd, pages * PAGE);
    }
    kernelEnd' := Low32(address + pages * PAGE);
  }

  /** The range behind hole `i` is clear if and only if the next hole leaves that much room. */
  ghost predicate ClearBehind(holes: seq<Region>, i: int, length: int)
    requires 0 <= i < |holes|
  {
    Clear(holes, RegionEnd(holes[i]), length) <==>
      i == |holes| - 1 || RegionEnd(holes[i]) + length <= holes[i + 1].base
  }

  lemma BehindHole(holes: seq<Region>, i: int, length: int)
    requires Ordered(holes) && 0 <= i < |holes| && 0 < length
    ensures ClearBehind(holes, i, length)
  {
    if i < |holes| - 1 && RegionEnd(holes[i]) + length > holes[i + 1].base {
      assert Meet(holes[i + 1], RegionEnd(holes[i]), length);
    } else {
      forall j | 0 <= j < |holes| ensures !Meet(holes[j], RegionEnd(holes[i]), length) {
        assert i + 1 < j ==> RegionEnd(holes[i + 1]) <= holes[j].base;
      }
    }
  }
}
