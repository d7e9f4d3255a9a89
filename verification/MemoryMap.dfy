/** kernel/memorymap.cpp: filling the gaps between sanitized pieces and merging neighbours of equal
    availability, up to 4 GiB. */
module MemoryMap {
  import opened FixedArray
  import opened MemoryPieces

  const MAX_MEMORY := 0x1_0000_0000
  const AVAILABLE := 1

  /** MemoryMap::Entry; its fields are 32 bits wide. */
  datatype Region = Region(base: int, length: int, available: bool)

  function Low32(x: int): int {
    x % MAX_MEMORY
  }

  /** The constructor for [start, end). */
  function Between(start: int, end: int, available: bool): Region {
    Region(Low32(start), Low32(end - start), available)
  }

  /** The constructor from a sanitized piece. */
  function FromPiece(e: Entry): Region {
    Region(Low32(e.base), Low32(e.length), e.kind == AVAILABLE)
  }

  function RegionEnd(r: Region): int {
    r.base + r.length
  }

  predicate Holds(r: Region, a: int) {
    r.base <= a < RegionEnd(r)
  }

  /** Non-empty regions covering [lo, hi) without gap or overlap. */
  ghost predicate Contiguous(rs: seq<Region>, lo: int, hi: int) {
    && |rs| > 0 && rs[0].base == lo && RegionEnd(rs[|rs| - 1]) == hi
    && (forall j :: 0 <= j < |rs| ==> rs[j].length > 0)
    && (forall j {:trigger Abuts(rs, j)} :: 0 <= j && j + 1 < |rs| ==> Abuts(rs, j))
  }

  predicate Abuts(rs: seq<Region>, j: int)
    requires 0 <= j && j + 1 < |rs|
  {
    RegionEnd(rs[j]) == rs[j + 1].base
  }

  ghost predicate AvailableAt(rs: seq<Region>, a: int) {
    exists j :: 0 <= j < |rs| && Holds(rs[j], a) && rs[j].available
  }

  ghost predicate Alternating(rs: seq<Region>) {
    forall j {:trigger Differ(rs, j)} :: 0 <= j && j + 1 < |rs| ==> Differ(rs, j)
  }

  predicate Differ(rs: seq<Region>, j: int)
    requires 0 <= j && j + 1 < |rs|
  {
    rs[j].available != rs[j + 1].available
  }

  /** `rs` covers [first piece, hi) and calls available exactly what a type-1 piece covers. */
  ghost predicate Describes(rs: seq<Region>, ps: seq<Entry>, hi: int)
    requires |ps| > 0
  {
    && Contiguous(rs, ps[0].base, hi)
    && forall a {:trigger AvailableAt(rs, a)} {:trigger TypeAt(ps, a)} ::
         AvailableAt(rs, a) <==> a < hi && TypeAt(ps, a) == AVAILABLE
  }

  lemma {:induction false} RegionsOrdered(rs: seq<Region>, lo: int, hi: int, i: int, j: int)
    requires Contiguous(rs, lo, hi) && 0 <= i < j < |rs|
    ensures RegionEnd(rs[i]) <= rs[j].base
    decreases j
  {
    assert Abuts(rs, j - 1);
    if i < j - 1 { RegionsOrdered(rs, lo, hi, i, j - 1); }
  }

  lemma InBounds(rs: seq<Region>, lo: int, hi: int, j: int)
    requires Contiguous(rs, lo, hi) && 0 <= j < |rs|
    ensures lo <= rs[j].base && RegionEnd(rs[j]) <= hi
  {
    if 0 < j { RegionsOrdered(rs, lo, hi, 0, j); }
    if j < |rs| - 1 { RegionsOrdered(rs, lo, hi, j, |rs| - 1); }
  }

  lemma AppendRegion(rs: seq<Region>, lo: int, hi: int, r: Region)
    requires Contiguous(rs, lo, hi) && r.base == hi && r.length > 0
    ensures Contiguous(rs + [r], lo, RegionEnd(r))
    ensures forall a :: AvailableAt(rs + [r], a) <==> AvailableAt(rs, a) || (Holds(r, a) && r.available)
  {
    var t := rs + [r];
    forall j | 0 <= j && j + 1 < |t| ensures Abuts(t, j) {
      if j + 1 < |rs| { assert Abuts(rs, j); }
    }
    forall a ensures AvailableAt(t, a) <==> AvailableAt(rs, a) || (Holds(r, a) && r.available) {
      if j :| 0 <= j < |rs| && Holds(rs[j], a) && rs[j].available { assert t[j] == rs[j]; }
      assert t[|rs|] == r;
    }
  }

  lemma TypeInGap(ps: seq<Entry>, i: int, a: int)
    requires Canonical(ps) && 0 < i < |ps| && End(ps[i - 1]) <= a < ps[i].base
    ensures TypeAt(ps, a) == 0
  {
    if TypeAt(ps, a) > 0 {
      var m := TypedIsCovered(ps, a);
      if m < i - 1 { PiecesOrdered(ps, m, i - 1); }
      if i < m { PiecesOrdered(ps, i, m); }
    }
  }

  lemma FirstRegion(ps: seq<Entry>)
    requires Canonical(ps) && |ps| > 0 && 0 <= ps[0].base && End(ps[0]) < MAX_MEMORY
    ensures Describes([FromPiece(ps[0])], ps, End(ps[0]))
  {
    var rs := [FromPiece(ps[0])];
    forall a ensures AvailableAt(rs, a) <==> a < End(ps[0]) && TypeAt(ps, a) == AVAILABLE {
      assert AvailableAt(rs, a) <==> Holds(rs[0], a) && rs[0].available;
      if Covers(ps[0], a) {
        PieceType(ps, a, 0);
      } else if a < ps[0].base && TypeAt(ps, a) > 0 {
        var m := TypedIsCovered(ps, a);
        if m > 0 { PiecesOrdered(ps, 0, m); }
      }
    }
  }

  /** An unlisted stretch before piece `i` becomes an unavailable region. */
  lemma FillGap(rs: seq<Region>, ps: seq<Entry>, i: int)
    requires Canonical(ps) && 0 < i < |ps| && Describes(rs, ps, End(ps[i - 1]))
    requires End(ps[i - 1]) < ps[i].base <= MAX_MEMORY && 0 < End(ps[i - 1])
    ensures Describes(rs + [Between(End(ps[i - 1]), ps[i].base, false)], ps, ps[i].base)
  {
    var r := Between(End(ps[i - 1]), ps[i].base, false);
    AppendRegion(rs, ps[0].base, End(ps[i - 1]), r);
    forall a ensures AvailableAt(rs + [r], a) <==> a < ps[i].base && TypeAt(ps, a) == AVAILABLE {
      if End(ps[i - 1]) <= a < ps[i].base { TypeInGap(ps, i, a); }
    }
  }

  /** Piece `i`, cut at `hi`, becomes a region of its availability. */
  lemma AddPiece(rs: seq<Region>, ps: seq<Entry>, i: int, r: Region, hi: int)
    requires Canonical(ps) && 0 < i < |ps| && Describes(rs, ps, ps[i].base)
    requires r == Region(ps[i].base, hi - ps[i].base, ps[i].kind == AVAILABLE)
    requires ps[i].base < hi <= End(ps[i])
    ensures Describes(rs + [r], ps, hi)
  {
    AppendRegion(rs, ps[0].base, ps[i].base, r);
    forall a ensures AvailableAt(rs + [r], a) <==> a < hi && TypeAt(ps, a) == AVAILABLE {
      if Holds(r, a) { PieceType(ps, a, i); }
    }
  }

  /** Merging region `i` into the one before it. */
  lemma MergePair(rs: seq<Region>, ps: seq<Entry>, hi: int, i: int, rs': seq<Region>)
    requires |ps| > 0 && Describes(rs, ps, hi)
    requires 0 < i < |rs| && rs[i - 1].available == rs[i].available
    requires rs' == rs[..i - 1] + [rs[i - 1].(length := rs[i - 1].length + rs[i].length)] + rs[i + 1..]
    ensures Describes(rs', ps, hi)
  {
    assert Abuts(rs, i - 1);
    forall j | 0 <= j && j + 1 < |rs'| ensures Abuts(rs', j) {
      assert j + 1 < i ==> Abuts(rs, j);
      assert j >= i - 1 ==> Abuts(rs, j + 1);
    }
    forall a ensures AvailableAt(rs', a) <==> AvailableAt(rs, a) {
      if j :| 0 <= j < |rs| && Holds(rs[j], a) && rs[j].available {
        var j' := if j < i then j else j - 1;
        assert 0 <= j' < |rs'| && Holds(rs'[j'], a) && rs'[j'].available;
      }
      if j' :| 0 <= j' < |rs'| && Holds(rs'[j'], a) && rs'[j'].available {
        var j := if j' < i - 1 then j' else if j' > i - 1 then j' + 1 else if Holds(rs[i - 1], a) then i - 1 else i;
        assert 0 <= j < |rs| && Holds(rs[j], a) && rs[j].available;
      }
    }
  }

  /** Where the described memory ends: at 4 GiB at the latest. */
  function Top(ps: seq<Entry>): int
    requires |ps| > 0
  {
    if End(ps[|ps| - 1]) < MAX_MEMORY then End(ps[|ps| - 1]) else MAX_MEMORY
  }

  /** The lists the 32-bit fields can describe: the first piece ends below 4 GiB, the piece that
      crosses 4 GiB, if any, does not start above it, and the 4 GiB are not all of one availability
      (a single region of 2^32 bytes would have length zero). A list ending below 4 GiB is one. */
  ghost predicate Describable(ps: seq<Entry>) {
    && |ps| > 0 && 0 <= ps[0].base && End(ps[0]) < MAX_MEMORY
    && (forall i :: 0 < i < |ps| && End(ps[i]) >= MAX_MEMORY && End(ps[i - 1]) < MAX_MEMORY ==>
      ps[i].base <= MAX_MEMORY)
    && (Top(ps) - ps[0].base == MAX_MEMORY ==> Mixed(ps))
  }

  ghost predicate Mixed(ps: seq<Entry>) {
    && (exists a :: 0 <= a < MAX_MEMORY && TypeAt(ps, a) == AVAILABLE)
    && (exists a :: 0 <= a < MAX_MEMORY && TypeAt(ps, a) != AVAILABLE)
  }

  lemma BelowFourGiB(ps: seq<Entry>)
    requires Canonical(ps) && |ps| > 0 && 0 <= ps[0].base && End(ps[|ps| - 1]) < MAX_MEMORY
    ensures Describable(ps)
  {
    forall i | 0 <= i < |ps| ensures End(ps[i]) < MAX_MEMORY {
      if i < |ps| - 1 { PiecesOrdered(ps, i, |ps| - 1); }
    }
  }

  // ----- what the first loop makes of any list -----

  /** The unlisted stretch between the last region and piece `e`; the sum is a 32-bit one. */
  function GapBefore(rs: seq<Region>, e: Entry): seq<Region>
    requires |rs| > 0
  {
    var prevEnd := Low32(RegionEnd(rs[|rs| - 1]));
    if e.base != prevEnd then [Between(prevEnd, e.base, false)] else []
  }

  /** The piece itself, cut at 4 GiB. */
  function PieceRegion(e: Entry): seq<Region> {
    if End(e) < MAX_MEMORY then [FromPiece(e)]
    else if e.base != MAX_MEMORY then [Between(e.base, MAX_MEMORY, e.kind == AVAILABLE)] else []
  }

  /** The regions after the first `n` pieces. The first piece never ends the loop, wherever it ends. */
  function Filled(ps: seq<Entry>, n: int): (rs: seq<Region>)
    requires 1 <= n <= |ps|
    ensures 1 <= |rs| <= 2 * n - 1
  {
    if n == 1 then
      [FromPiece(ps[0])]
    else
      var rs := Filled(ps, n - 1);
      if n > 2 && End(ps[n - 2]) >= MAX_MEMORY then rs else rs + GapBefore(rs, ps[n - 1]) + PieceRegion(ps[n - 1])
  }

  /** Nothing is added after a later piece has reached 4 GiB. */
  lemma {:induction false} FilledStops(ps: seq<Entry>, i: int, n: int)
    requires Canonical(ps) && 1 <= i < n <= |ps| && End(ps[i]) >= MAX_MEMORY
    ensures Filled(ps, n) == Filled(ps, i + 1)
    decreases n
  {
    if i + 1 < n {
      FilledStops(ps, i, n - 1);
      if i < n - 2 { PiecesOrdered(ps, i, n - 2); }
    }
  }

  /** The regions describe the pieces before `n`, to the end of the last of them. */
  ghost predicate DescribesTo(rs: seq<Region>, ps: seq<Entry>, n: int)
    requires 1 <= n <= |ps|
  {
    && Describes(rs, ps, End(ps[n - 1]))
    && Low32(RegionEnd(rs[|rs| - 1])) == End(ps[n - 1])
  }

  lemma BelowStep(rs: seq<Region>, ps: seq<Entry>, n: int)
    requires Canonical(ps) && 1 <= n < |ps| && 0 < End(ps[n - 1]) && End(ps[n]) < MAX_MEMORY && DescribesTo(rs, ps, n)
    ensures DescribesTo(rs + GapBefore(rs, ps[n]) + PieceRegion(ps[n]), ps, n + 1)
  {
    assert |rs| > 0;
    hide Describes;
    assert Before(ps, n - 1);
    GapAdded(rs, ps, n);
    var gap := rs + GapBefore(rs, ps[n]);
    hide GapBefore;
    AddPiece(gap, ps, n, FromPiece(ps[n]), End(ps[n]));
  }

  lemma FirstPositive(ps: seq<Entry>, n: int)
    requires Canonical(ps) && 0 <= n < |ps| && 0 <= ps[0].base
    ensures 0 < End(ps[n])
  {
    if n > 0 { PiecesOrdered(ps, 0, n); }
  }

  /** As long as 4 GiB is not reached the regions describe the pieces. */
  lemma {:induction false} FilledBelow(ps: seq<Entry>, n: int)
    requires Canonical(ps) && 1 <= n <= |ps| && 0 <= ps[0].base && End(ps[n - 1]) < MAX_MEMORY
    ensures DescribesTo(Filled(ps, n), ps, n)
    decreases n
  {
    if n == 1 {
      FirstRegion(ps);
    } else {
      hide DescribesTo, GapBefore, PieceRegion;
      assert Before(ps, n - 2);
      FilledBelow(ps, n - 1);
      FirstPositive(ps, n - 2);
      FilledStep(ps, n - 1);
      hide Filled, Canonical;
      BelowStep(Filled(ps, n - 1), ps, n - 1);
    }
  }

  lemma {:induction false} GapAdded(rs: seq<Region>, ps: seq<Entry>, i: int)
    requires Canonical(ps) && 0 < i < |ps| && Describes(rs, ps, End(ps[i - 1]))
    requires Low32(RegionEnd(rs[|rs| - 1])) == End(ps[i - 1]) && 0 < End(ps[i - 1]) && ps[i].base <= MAX_MEMORY
    ensures Describes(rs + GapBefore(rs, ps[i]), ps, ps[i].base)
  {
    assert Before(ps, i - 1);
    if End(ps[i - 1]) < ps[i].base {
      FillGap(rs, ps, i);
    } else {
      assert rs + GapBefore(rs, ps[i]) == rs;
    }
  }

  /** The piece that crosses 4 GiB from below, or starts there. */
  lemma {:induction false} Crossed(ps: seq<Entry>, i: int)
    requires Canonical(ps) && 0 < i < |ps| && 0 <= ps[0].base
    requires End(ps[i - 1]) < MAX_MEMORY <= End(ps[i]) && ps[i].base <= MAX_MEMORY
    ensures Describes(Filled(ps, i + 1), ps, MAX_MEMORY)
  {
    FilledBelow(ps, i);
    FirstPositive(ps, i - 1);
    FilledStep(ps, i);
    hide Filled, Canonical, Describes;
    var rs := Filled(ps, i);
    GapAdded(rs, ps, i);
    var gap := rs + GapBefore(rs, ps[i]);
    hide GapBefore;
    if ps[i].base != MAX_MEMORY {
      AddPiece(gap, ps, i, Between(ps[i].base, MAX_MEMORY, ps[i].kind == AVAILABLE), MAX_MEMORY);
    } else {
      assert gap + PieceRegion(ps[i]) == gap;
    }
  }

  /** The first piece to reach 4 GiB, the list's end when there is none. */
  lemma {:induction false} FirstReaching(ps: seq<Entry>, n: int) returns (i: int)
    requires 1 <= n <= |ps| && End(ps[0]) < MAX_MEMORY
    ensures 1 <= i <= n && End(ps[i - 1]) < MAX_MEMORY && (i < n ==> End(ps[i]) >= MAX_MEMORY)
  {
    i := 1;
    while i < n && End(ps[i]) < MAX_MEMORY
      invariant 1 <= i <= n && End(ps[i - 1]) < MAX_MEMORY
    {
      i := i + 1;
    }
  }

  lemma TopReached(ps: seq<Entry>, i: int)
    requires Canonical(ps) && 0 <= i < |ps| && End(ps[i]) >= MAX_MEMORY
    ensures Top(ps) == MAX_MEMORY
  {
    if i < |ps| - 1 { PiecesOrdered(ps, i, |ps| - 1); }
  }

  lemma {:induction false} FilledDescribes(ps: seq<Entry>)
    requires Canonical(ps) && Describable(ps)
    ensures Describes(Filled(ps, |ps|), ps, Top(ps))
  {
    var i := FirstReaching(ps, |ps|);
    if i < |ps| {
      TopReached(ps, i);
      Crossed(ps, i);
      FilledStops(ps, i, |ps|);
    } else {
      FilledBelow(ps, i);
    }
  }

  /** Below 4 GiB the regions call available exactly what a type-1 piece covers. */
  ghost predicate RightBelow(rs: seq<Region>, ps: seq<Entry>) {
    forall a {:trigger AvailableAt(rs, a)} {:trigger TypeAt(ps, a)} :: 0 <= a < MAX_MEMORY ==>
      (AvailableAt(rs, a) <==> TypeAt(ps, a) == AVAILABLE)
  }

  /** Cut at 4 GiB this piece, which starts above it, becomes an available region below it. */
  predicate Folds(e: Entry) {
    e.kind == AVAILABLE && e.base >= MAX_MEMORY && Low32(e.base) != 0
  }

  /** When the availability below 4 GiB comes out right: the first piece to reach 4 GiB does not fold;
      or it is the first of the list, which is not cut, and what its two 32-bit fields and a second
      piece that folds make available is what it covers there. */
  ghost predicate KeepsAvailability(ps: seq<Entry>)
    requires |ps| > 0
  {
    var first, folded := ps[0], |ps| > 1 && Folds(ps[1]);
    var end := first.base + Low32(first.length);
    if End(first) < MAX_MEMORY then
      forall i :: 0 < i < |ps| && End(ps[i - 1]) < MAX_MEMORY <= End(ps[i]) ==> !Folds(ps[i])
    else if first.kind == AVAILABLE && first.base < MAX_MEMORY then
      if folded then first.base <= Low32(ps[1].base) <= end else end >= MAX_MEMORY
    else
      !folded && (first.kind == AVAILABLE ==> Low32(first.length) == 0)
  }

  lemma AvailableIn(rs: seq<Region>, more: seq<Region>, a: int)
    ensures AvailableAt(rs + more, a) <==> AvailableAt(rs, a) || AvailableAt(more, a)
  {
    var t := rs + more;
    if j :| 0 <= j < |rs| && Holds(rs[j], a) && rs[j].available { assert t[j] == rs[j]; }
    if j :| 0 <= j < |more| && Holds(more[j], a) && more[j].available { assert t[|rs| + j] == more[j]; }
    if j :| 0 <= j < |t| && Holds(t[j], a) && t[j].available {
      if j < |rs| { assert rs[j] == t[j]; } else { assert more[j - |rs|] == t[j]; }
    }
  }

  /** The region made of a piece above 4 GiB is available from its low 32 bits on, up to 4 GiB. */
  lemma FoldedRegion(e: Entry, a: int)
    requires e.base >= MAX_MEMORY && 0 < e.length && 0 <= a < MAX_MEMORY
    ensures AvailableAt(PieceRegion(e), a) <==> Folds(e) && Low32(e.base) <= a
  {
    var r := Between(e.base, MAX_MEMORY, e.kind == AVAILABLE);
    assert r.length == if Low32(e.base) == 0 then 0 else MAX_MEMORY - Low32(e.base);
    assert e.base != MAX_MEMORY ==> PieceRegion(e)[0] == r;
  }

  /** What the regions of a list and of a further piece above 4 GiB make available. */
  lemma {:induction false} FoldedAfter(rs: seq<Region>, e: Entry, a: int)
    requires |rs| > 0 && e.base >= MAX_MEMORY && 0 < e.length && 0 <= a < MAX_MEMORY
    ensures AvailableAt(rs + GapBefore(rs, e) + PieceRegion(e), a) <==>
              AvailableAt(rs, a) || (Folds(e) && Low32(e.base) <= a)
  {
    AvailableIn(rs + GapBefore(rs, e), PieceRegion(e), a);
    AvailableIn(rs, GapBefore(rs, e), a);
    FoldedRegion(e, a);
  }

  lemma {:induction false} RightFromBelow(ps: seq<Entry>, i: int)
    requires Canonical(ps) && 0 < i < |ps| && 0 <= ps[0].base
    requires End(ps[i - 1]) < MAX_MEMORY && ps[i].base > MAX_MEMORY
    ensures RightBelow(Filled(ps, i + 1), ps) <==> !Folds(ps[i])
  {
    FilledBelow(ps, i);
    hide Filled, Folds, TypeAt;
    FilledStep(ps, i);
    var rs := Filled(ps, i + 1);
    forall a | 0 <= a < MAX_MEMORY
      ensures AvailableAt(rs, a) <==> TypeAt(ps, a) == AVAILABLE || (Folds(ps[i]) && Low32(ps[i].base) <= a)
    {
      FoldedAfter(Filled(ps, i), ps[i], a);
      if End(ps[i - 1]) <= a { TypeInGap(ps, i, a); }
    }
    TypeInGap(ps, i, MAX_MEMORY - 1);
    assert Folds(ps[i]) ==> AvailableAt(rs, MAX_MEMORY - 1);
  }

  lemma {:induction false} FilledStep(ps: seq<Entry>, i: int)
    requires 0 < i < |ps| && (1 < i ==> End(ps[i - 1]) < MAX_MEMORY)
    ensures Filled(ps, i + 1) == Filled(ps, i) + GapBefore(Filled(ps, i), ps[i]) + PieceRegion(ps[i])
  {
  }

  /** The type below 4 GiB when the first piece reaches it. */
  lemma {:induction false} TypeOfFirst(ps: seq<Entry>, a: int)
    requires Canonical(ps) && |ps| > 0 && End(ps[0]) >= MAX_MEMORY && 0 <= a < MAX_MEMORY
    ensures TypeAt(ps, a) == if ps[0].base <= a then ps[0].kind else 0
  {
    if ps[0].base <= a {
      PieceType(ps, a, 0);
    } else if TypeAt(ps, a) > 0 {
      var m := TypedIsCovered(ps, a);
      if m > 0 { PiecesOrdered(ps, 0, m); }
    }
  }

  /** What the regions make available when the first piece reaches 4 GiB. */
  lemma {:induction false} FirstUncut(ps: seq<Entry>, a: int)
    requires Canonical(ps) && |ps| > 0 && End(ps[0]) >= MAX_MEMORY && 0 <= a < MAX_MEMORY
    ensures AvailableAt(Filled(ps, |ps|), a) <==>
              || (ps[0].kind == AVAILABLE && Holds(FromPiece(ps[0]), a))
              || (|ps| > 1 && Folds(ps[1]) && Low32(ps[1].base) <= a)
  {
    assert Filled(ps, 1) == [FromPiece(ps[0])];
    assert AvailableAt(Filled(ps, 1), a) <==> Holds(Filled(ps, 1)[0], a) && Filled(ps, 1)[0].available;
    if |ps| > 1 {
      assert Before(ps, 0);
      FilledStops(ps, 1, |ps|);
      FilledStep(ps, 1);
      FoldedAfter(Filled(ps, 1), ps[1], a);
    }
  }

  lemma {:induction false} RightWhenUncut(ps: seq<Entry>)
    requires Canonical(ps) && |ps| > 0 && 0 <= ps[0].base && End(ps[0]) >= MAX_MEMORY
    ensures RightBelow(Filled(ps, |ps|), ps) <==> KeepsAvailability(ps)
  {
    hide Filled, Canonical, TypeAt, AvailableAt;
    var rs := Filled(ps, |ps|);
    var first, folded := ps[0], |ps| > 1 && Folds(ps[1]);
    var low, end := if |ps| > 1 then Low32(ps[1].base) else 0, Low32(first.base) + Low32(first.length);
    forall a | 0 <= a < MAX_MEMORY
      ensures AvailableAt(rs, a) <==>
                (first.kind == AVAILABLE && Low32(first.base) <= a < end) || (folded && low <= a)
      ensures TypeAt(ps, a) == if first.base <= a then first.kind else 0
    {
      FirstUncut(ps, a);
      TypeOfFirst(ps, a);
    }
    if first.kind == AVAILABLE && first.base < MAX_MEMORY {
      assert AvailableAt(rs, MAX_MEMORY - 1) <==> MAX_MEMORY - 1 < end || folded;
      if folded {
        assert low < first.base ==> AvailableAt(rs, low);
        assert end < low ==> !AvailableAt(rs, end);
      }
    } else {
      assert folded ==> AvailableAt(rs, low);
      assert first.kind == AVAILABLE && Low32(first.length) != 0 ==> AvailableAt(rs, Low32(first.base));
    }
  }

  /** The first loop gets the availability below 4 GiB right exactly for these lists. */
  lemma {:induction false} FilledIsRight(ps: seq<Entry>)
    requires Canonical(ps) && |ps| > 0 && 0 <= ps[0].base
    ensures RightBelow(Filled(ps, |ps|), ps) <==> KeepsAvailability(ps)
  {
    if End(ps[0]) >= MAX_MEMORY {
      RightWhenUncut(ps);
    } else {
      hide Filled, Describes, RightBelow, KeepsAvailability, Canonical, Folds;
      var i := FirstReaching(ps, |ps|);
      OneReaches(ps, i);
      if i == |ps| {
        FilledBelow(ps, i);
        DescribedIsRight(Filled(ps, i), ps, End(ps[i - 1]));
      } else {
        FilledStops(ps, i, |ps|);
        if ps[i].base > MAX_MEMORY {
          RightFromBelow(ps, i);
        } else {
          Crossed(ps, i);
          DescribedIsRight(Filled(ps, i + 1), ps, MAX_MEMORY);
        }
      }
    }
  }

  /** Only one piece can be the first to reach 4 GiB. */
  lemma {:induction false} OneReaches(ps: seq<Entry>, i: int)
    requires Canonical(ps) && 1 <= i <= |ps| && End(ps[0]) < MAX_MEMORY
    requires End(ps[i - 1]) < MAX_MEMORY && (i < |ps| ==> End(ps[i]) >= MAX_MEMORY)
    ensures KeepsAvailability(ps) <==> i == |ps| || !Folds(ps[i])
  {
    forall k | 0 < k < |ps| && End(ps[k - 1]) < MAX_MEMORY <= End(ps[k]) ensures k == i {
      if k < i - 1 { PiecesOrdered(ps, k, i - 1); }
      if i < k - 1 { PiecesOrdered(ps, i, k - 1); }
    }
  }

  lemma {:induction false} DescribedIsRight(rs: seq<Region>, ps: seq<Entry>, hi: int)
    requires Canonical(ps) && |ps| > 0 && Describes(rs, ps, hi)
    requires hi == MAX_MEMORY || (hi < MAX_MEMORY && hi == End(ps[|ps| - 1]))
    ensures RightBelow(rs, ps)
  {
    forall a | 0 <= a < MAX_MEMORY ensures AvailableAt(rs, a) <==> TypeAt(ps, a) == AVAILABLE {
      if hi <= a { UntypedAbove(ps, a); }
    }
  }

  /** A piece above 4 GiB behind a gap is folded down: addresses in [2 GiB, 4 GiB) that no
      piece mentions come out available. */
  lemma {:induction false} PieceAboveFourGiB()
    ensures var ps := [Entry(0, 0x4000_0000, AVAILABLE), Entry(0x1_8000_0000, 0x1000, AVAILABLE)];
            && Canonical(ps) && !KeepsAvailability(ps)
            && AvailableAt(Filled(ps, 2), 0x8000_0000) && TypeAt(ps, 0x8000_0000) == 0
  {
    var ps := [Entry(0, 0x4000_0000, AVAILABLE), Entry(0x1_8000_0000, 0x1000, AVAILABLE)];
    assert Canonical(ps) by { assert forall j :: 0 <= j && j + 1 < |ps| ==> Before(ps, j); }
    TypeInGap(ps, 1, 0x8000_0000);
    assert End(ps[0]) < MAX_MEMORY <= End(ps[1]) && Folds(ps[1]);
    OneReaches(ps, 1);
    FilledStep(ps, 1);
    FoldedAfter(Filled(ps, 1), ps[1], 0x8000_0000);
  }

  /** The body of the first loop for piece `i`; `done` when the piece reaches 4 GiB. */
  method FillStep(ps: seq<Entry>, i: int, entries: FixedArray<Region>) returns (ok: bool, done: bool)
    requires 0 < i < |ps| && (1 < i ==> End(ps[i - 1]) < MAX_MEMORY)
    requires entries.Valid() && entries.Contents() == Filled(ps, i)
    modifies entries`size, entries.data
    ensures entries.Valid() && (ok ==> entries.Contents() == Filled(ps, i + 1) && (done <==> End(ps[i]) >= MAX_MEMORY))
    ensures old(entries.size) + 2 <= entries.data.Length ==> ok
  {
    FilledStep(ps, i);
    hide Filled;
    var entry := ps[i];
    ghost var rs := entries.Contents();
    assert rs[|rs| - 1] == entries.data[entries.size - 1];
    var prevEnd := Low32(entries.data[entries.size - 1].base + entries.data[entries.size - 1].length);
    done := false;
    if entry.base != prevEnd {
      ok := entries.Insert(Between(prevEnd, entry.base, false));
      if !ok {
        return;
      }
    }
    assert entries.Contents() == rs + GapBefore(rs, entry);
    if entry.base + entry.length >= MAX_MEMORY {
      done := true;
      ok := true;
      if entry.base != MAX_MEMORY {
        ok := entries.Insert(Between(entry.base, MAX_MEMORY, entry.kind == AVAILABLE));
      }
      return;
    }
    ok := entries.Insert(FromPiece(entry));
  }

  /** The first loop of MemoryMap::init. Fails, as a failed assertion does, on an empty list or a
      full array. */
  method Fill(ps: seq<Entry>, entries: FixedArray<Region>) returns (ok: bool)
    requires Canonical(ps) && (ps != [] ==> 0 <= ps[0].base)
    requires entries.Valid() && entries.Contents() == []
    modifies entries, entries.data
    ensures entries.Valid()
    ensures ok ==> ps != [] && entries.Contents() == Filled(ps, |ps|)
    ensures ps != [] && 2 * |ps| - 1 <= entries.data.Length ==> ok
  {
    if |ps| == 0 {
      return false;
    }
    ok := entries.Insert(FromPiece(ps[0]));
    if !ok {
      return;
    }
    assert Filled(ps, 1) == [FromPiece(ps[0])];
    hide Filled, Canonical;
    var i := 1;
    while i < |ps|
      invariant 1 <= i <= |ps| && entries.Valid() && ok
      invariant entries.Contents() == Filled(ps, i)
      invariant 1 < i ==> End(ps[i - 1]) < MAX_MEMORY
    {
      var done;
      ok, done := FillStep(ps, i, entries);
      if !ok {
        return;
      }
      if done {
        FilledStops(ps, i, |ps|);
        return;
      }
      i := i + 1;
    }
  }

  // ----- the second loop -----

  /** No two neighbours are both available. */
  ghost predicate Separate(rs: seq<Region>) {
    forall j {:trigger BothAvailable(rs, j)} :: 0 <= j && j + 1 < |rs| ==> !BothAvailable(rs, j)
  }

  predicate BothAvailable(rs: seq<Region>, j: int)
    requires 0 <= j && j + 1 < |rs|
  {
    rs[j].available && rs[j + 1].available
  }

  ghost predicate SameAvailable(rs: seq<Region>, rs': seq<Region>) {
    forall a {:trigger AvailableAt(rs', a)} :: AvailableAt(rs', a) <==> AvailableAt(rs, a)
  }

  /** Available regions that follow one another in the first loop's result always have a gap between
      them: touching pieces differ in type, and the others are kept apart by an unlisted stretch. */
  lemma {:induction false} FilledSeparate(ps: seq<Entry>, n: int)
    requires Canonical(ps) && 1 <= n <= |ps| && 0 <= ps[0].base
    ensures Separate(Filled(ps, n))
    ensures n == 1 || End(ps[n - 1]) < MAX_MEMORY ==> Filled(ps, n)[|Filled(ps, n)| - 1] == FromPiece(ps[n - 1])
    decreases n
  {
    if n > 1 {
      hide Describes;
      FilledSeparate(ps, n - 1);
      assert Before(ps, n - 2);
      if n > 2 && End(ps[n - 2]) >= MAX_MEMORY {
        return;
      }
      var rs, e := Filled(ps, n - 1), ps[n - 1];
      FilledStep(ps, n - 1);
      if n > 2 || End(ps[0]) < MAX_MEMORY { FilledBelow(ps, n - 1); }
      hide Filled, Separate;
      SeparateGap(rs, GapBefore(rs, e), PieceRegion(e), e.kind == AVAILABLE);
    }
  }

  lemma SeparateGap(rs: seq<Region>, gap: seq<Region>, more: seq<Region>, available: bool)
    requires |rs| > 0 && Separate(rs) && |gap| <= 1 && |more| <= 1
    requires gap != [] ==> !gap[0].available
    requires more != [] ==> more[0].available == available
    requires gap == [] ==> !(rs[|rs| - 1].available && available)
    ensures Separate(rs + gap + more)
  {
    var t := rs + gap + more;
    forall j | 0 <= j && j + 1 < |t| ensures !BothAvailable(t, j) {
      if j + 1 < |rs| { assert !BothAvailable(rs, j); }
    }
  }

  /** A merged pair of regions still fits 32 bits: it is not all of 4 GiB. */
  lemma PairFits(rs: seq<Region>, ps: seq<Entry>, hi: int, i: int)
    requires |ps| > 0 && Describes(rs, ps, hi) && 0 < i < |rs| && rs[i - 1].available == rs[i].available
    requires 0 <= ps[0].base && hi <= MAX_MEMORY && (hi - ps[0].base == MAX_MEMORY ==> Mixed(ps))
    ensures 0 < rs[i - 1].length + rs[i].length < MAX_MEMORY
  {
    InBounds(rs, ps[0].base, hi, i - 1);
    InBounds(rs, ps[0].base, hi, i);
    assert Abuts(rs, i - 1);
    if rs[i - 1].length + rs[i].length == MAX_MEMORY {
      var y :| 0 <= y < MAX_MEMORY && TypeAt(ps, y) != AVAILABLE;
      assert Holds(rs[if y < rs[i].base then i - 1 else i], y);
      assert !AvailableAt(rs, y);
      assert !rs[i - 1].available && !rs[i].available;
      var x :| 0 <= x < MAX_MEMORY && TypeAt(ps, x) == AVAILABLE;
      assert AvailableAt(rs, x);
      var j :| 0 <= j < |rs| && Holds(rs[j], x) && rs[j].available;
      InBounds(rs, ps[0].base, hi, j);
      if j < i - 1 { RegionsOrdered(rs, ps[0].base, hi, j, i - 1); }
      if j > i { RegionsOrdered(rs, ps[0].base, hi, i, j); }
      assert false;
    }
  }

  /** Two unavailable neighbours become one region, whatever its 32-bit length. */
  lemma MergeUnavailable(rs: seq<Region>, i: int, length: int, rs': seq<Region>)
    requires 0 < i < |rs| && !rs[i - 1].available && !rs[i].available && Separate(rs)
    requires rs' == rs[..i - 1] + [rs[i - 1].(length := length)] + rs[i + 1..]
    ensures Separate(rs') && SameAvailable(rs, rs')
  {
    forall j | 0 <= j && j + 1 < |rs'| ensures !BothAvailable(rs', j) {
      if j + 1 < i { assert !BothAvailable(rs, j); } else { assert j + 2 < |rs| ==> !BothAvailable(rs, j + 1); }
    }
    forall a ensures AvailableAt(rs', a) <==> AvailableAt(rs, a) {
      if j :| 0 <= j < |rs| && Holds(rs[j], a) && rs[j].available {
        assert rs'[if j < i then j else j - 1] == rs[j];
      }
      if j :| 0 <= j < |rs'| && Holds(rs'[j], a) && rs'[j].available {
        assert rs[if j < i then j else j + 1] == rs'[j];
      }
    }
  }

  /** The regions describe the pieces and no merged pair is all of 4 GiB. */
  ghost predicate Fits(rs: seq<Region>, ps: seq<Entry>, hi: int) {
    && |ps| > 0 && 0 <= ps[0].base && hi <= MAX_MEMORY && (hi - ps[0].base == MAX_MEMORY ==> Mixed(ps))
    && Describes(rs, ps, hi)
  }

  lemma FitsStill(rs: seq<Region>, ps: seq<Entry>, hi: int, i: int, rs': seq<Region>)
    requires Fits(rs, ps, hi) && 0 < i < |rs| && rs[i - 1].available == rs[i].available
    requires rs' == rs[..i - 1] + [rs[i - 1].(length := Low32(rs[i - 1].length + rs[i].length))] + rs[i + 1..]
    ensures Fits(rs', ps, hi)
  {
    PairFits(rs, ps, hi, i);
    MergePair(rs, ps, hi, i, rs');
  }

  /** Region `i` has become part of the one before it; the sum is a 32-bit one. */
  function Merged(rs: seq<Region>, i: int): seq<Region>
    requires 0 < i < |rs|
  {
    rs[..i - 1] + [rs[i - 1].(length := Low32(rs[i - 1].length + rs[i].length))] + rs[i + 1..]
  }

  /** The first `n` regions alternate. */
  ghost predicate AlternatingTo(rs: seq<Region>, n: int) {
    forall j {:trigger Differ(rs, j)} :: 0 <= j && j + 1 < n && j + 1 < |rs| ==> Differ(rs, j)
  }

  /** What one merge keeps. */
  lemma MergeStep(was: seq<Region>, rs: seq<Region>, ps: seq<Entry>, hi: int, i: int)
    requires 0 < i < |rs| && rs[i - 1].available == rs[i].available
    requires Separate(rs) && SameAvailable(was, rs) && AlternatingTo(rs, i) && (Fits(was, ps, hi) ==> Fits(rs, ps, hi))
    ensures Separate(Merged(rs, i)) && SameAvailable(was, Merged(rs, i)) && AlternatingTo(Merged(rs, i), i)
    ensures Fits(was, ps, hi) ==> Fits(Merged(rs, i), ps, hi)
  {
    var rs' := Merged(rs, i);
    assert !BothAvailable(rs, i - 1);
    if Fits(rs, ps, hi) { FitsStill(rs, ps, hi, i, rs'); }
    MergeUnavailable(rs, i, Low32(rs[i - 1].length + rs[i].length), rs');
    SameThen(was, rs, rs');
    forall j | 0 <= j && j + 1 < i ensures Differ(rs', j) {
      assert Differ(rs, j);
    }
  }

  method MergeAt(entries: FixedArray<Region>, i: int)
    requires entries.Valid() && 0 < i < entries.size
    modifies entries`size, entries.data
    ensures entries.Valid() && entries.size == old(entries.size) - 1
    ensures entries.Contents() == Merged(old(entries.Contents()), i)
  {
    var prev := entries.data[i - 1];
    var curr := entries.data[i];
    entries.data[i - 1] := prev.(length := Low32(prev.length + curr.length));
    entries.Remove(i);
  }

  /** The second loop: neighbours of equal availability become one region, in place. Only unavailable
      ones are ever merged, so that a length that wraps does no harm to availability. */
  method Merge(entries: FixedArray<Region>, ghost ps: seq<Entry>, ghost hi: int)
    requires entries.Valid() && Separate(entries.Contents())
    modifies entries`size, entries.data
    ensures entries.Valid() && Alternating(entries.Contents())
    ensures SameAvailable(old(entries.Contents()), entries.Contents())
    ensures old(Fits(entries.Contents(), ps, hi)) ==> Fits(entries.Contents(), ps, hi)
  {
    ghost var was := entries.Contents();
    assert SameAvailable(was, was) && AlternatingTo(was, 1);
    hide Fits, SameAvailable, Separate, Merged;
    var i := 1;
    while i < entries.size
      invariant entries.Valid() && 1 <= i && (i == 1 || i <= entries.size)
      invariant Separate(entries.Contents()) && SameAvailable(was, entries.Contents())
      invariant Fits(was, ps, hi) ==> Fits(entries.Contents(), ps, hi)
      invariant AlternatingTo(entries.Contents(), i)
      decreases entries.size - i
    {
      ghost var rs := entries.Contents();
      assert rs[i - 1] == entries.data[i - 1] && rs[i] == entries.data[i];
      if entries.data[i - 1].available == entries.data[i].available {
        MergeStep(was, rs, ps, hi, i);
        MergeAt(entries, i);
      } else {
        assert AlternatingTo(rs, i + 1);
        i := i + 1;
      }
    }
  }

  lemma SameThen(a: seq<Region>, b: seq<Region>, c: seq<Region>)
    requires SameAvailable(a, b) && SameAvailable(b, c)
    ensures SameAvailable(a, c)
  {
    forall x ensures AvailableAt(c, x) <==> AvailableAt(a, x) {
      assert AvailableAt(b, x) <==> AvailableAt(a, x);
    }
  }

  /** MemoryMap::init up to its page alignment. */
  method Build(ps: seq<Entry>, entries: FixedArray<Region>) returns (ok: bool)
    requires Canonical(ps) && (ps != [] ==> 0 <= ps[0].base)
    requires entries.Valid() && entries.Contents() == []
    modifies entries, entries.data
    ensures entries.Valid()
    ensures ok ==> ps != [] && Alternating(entries.Contents())
    ensures ok ==> (RightBelow(entries.Contents(), ps) <==> KeepsAvailability(ps))
    ensures ok && Describable(ps) ==> Describes(entries.Contents(), ps, Top(ps))
    ensures ps != [] && 2 * |ps| - 1 <= entries.data.Length ==> ok
  {
    ok := Fill(ps, entries);
    if ok {
      ghost var rs := entries.Contents();
      FilledSeparate(ps, |ps|);
      FilledIsRight(ps);
      if Describable(ps) { FilledDescribes(ps); }
      hide Describes, RightBelow, Filled, KeepsAvailability;
      Merge(entries, ps, Top(ps));
      RightStill(rs, entries.Contents(), ps);
    }
  }

  lemma RightStill(rs: seq<Region>, rs': seq<Region>, ps: seq<Entry>)
    requires SameAvailable(rs, rs')
    ensures RightBelow(rs', ps) <==> RightBelow(rs, ps)
  {
    if RightBelow(rs', ps) {
      forall a | 0 <= a < MAX_MEMORY ensures AvailableAt(rs, a) <==> TypeAt(ps, a) == AVAILABLE {
        assert AvailableAt(rs', a) <==> AvailableAt(rs, a);
      }
    }
  }
}
